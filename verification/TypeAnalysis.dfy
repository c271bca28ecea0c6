/** The comparison of all pairs of types (`analyze_types` of tools/sepolicy-analyze/typecmp.c), in
    which lists are freed as soon as their type has found its class. */
module TypeAnalysis {
  import opened RuleLists
  import opened TypeCmp

  /** A rule displayed for the first or for the second type of a pair. */
  datatype Shown = Shown(first: bool, key: Key, perms: Perms)

  datatype Report =
    | Equivalent(i: nat, j: nat)
    | Differ(i: nat, j: nat, shown: seq<Shown>)

  // ---------------------------------------------------------------------------------------
  // The difference shown for two lists

  ghost function Mismatch(a: seq<Rule>, b: seq<Rule>): (m: nat)
    ensures m <= |a| && m <= |b|
  {
    if a == [] || b == [] || a[0] != b[0] then 0 else 1 + Mismatch(a[1..], b[1..])
  }

  function PermsOnly(a: Rule, first: bool, b: Rule): seq<Shown> {
    if a.perms - b.perms != {} then [Shown(first, a.key, a.perms - b.perms)] else []
  }

  /** What `find_match` displays for the rule r against the rest of another list. */
  ghost function Match(r: Rule, first: bool, rest: seq<Rule>): seq<Shown> {
    if rest == [] then []
    else if r.key == rest[0].key then PermsOnly(r, first, rest[0]) + PermsOnly(rest[0], !first, r)
    else if KeyBefore(r.key, rest[0].key) then []
    else Match(r, first, rest[1..])
  }

  ghost function Whole(rest: seq<Rule>, first: bool): seq<Shown> {
    if rest == [] then [] else [Shown(first, rest[0].key, rest[0].perms)]
  }

  /** What is displayed from the first mismatch on. */
  ghost function Details(x: seq<Rule>, y: seq<Rule>): seq<Shown> {
    if x == [] || y == [] then Whole(x, true) + Whole(y, false)
    else if Match(x[0], true, y) != [] then Match(x[0], true, y)
    else if Match(y[0], false, x) != [] then Match(y[0], false, x)
    else Whole(x, true) + Whole(y, false)
  }

  ghost function Difference(a: seq<Rule>, b: seq<Rule>): seq<Shown> {
    var m := Mismatch(a, b);
    Details(a[m..], b[m..])
  }

  lemma {:induction false} MismatchMeans(a: seq<Rule>, b: seq<Rule>)
    ensures var m := Mismatch(a, b);
      a[..m] == b[..m] && (m < |a| && m < |b| ==> a[m] != b[m]) && (m == |a| && m == |b| <==> a == b)
    decreases |a|
  {
    if a != [] && b != [] && a[0] == b[0] {
      MismatchMeans(a[1..], b[1..]);
      var m := Mismatch(a, b);
      assert a[..m] == [a[0]] + a[1..][..m - 1] && b[..m] == [b[0]] + b[1..][..m - 1];
      assert a == [a[0]] + a[1..] && b == [b[0]] + b[1..];
    }
  }

  lemma {:induction false} MismatchIs(a: seq<Rule>, b: seq<Rule>, m: nat)
    requires m <= |a| && m <= |b| && forall i | 0 <= i < m :: a[i] == b[i]
    requires m == |a| || m == |b| || a[m] != b[m]
    ensures Mismatch(a, b) == m
    decreases m
  {
    if m > 0 {
      MismatchIs(a[1..], b[1..], m - 1);
    }
  }

  // ---------------------------------------------------------------------------------------
  // What is reported, in terms of the profiles that the lists had at the start

  /** An earlier type has the same profile as k, so that by the turn of i the list of k is freed. */
  ghost predicate Merged(P: seq<seq<Rule>>, attr: seq<bool>, k: nat, i: nat)
    requires k < |P| == |attr| && i <= |P|
  {
    exists h :: 0 <= h < i && !attr[h] && P[h] == P[k]
  }

  ghost function Left(P: seq<seq<Rule>>, attr: seq<bool>, k: nat, i: nat): seq<Rule>
    requires k < |P| == |attr| && i <= |P|
  {
    if Merged(P, attr, k, i) then [] else P[k]
  }

  /** i is a type with rules, and the first one of its class. */
  ghost predicate Representative(P: seq<seq<Rule>>, attr: seq<bool>, i: nat)
    requires i < |P| == |attr|
  {
    !attr[i] && P[i] != [] && !Merged(P, attr, i, i)
  }

  ghost function ReportAt(P: seq<seq<Rule>>, attr: seq<bool>, diff: bool, equiv: bool, i: nat, j: nat): seq<Report>
    requires i < |P| == |attr| && j < |P|
  {
    if !Representative(P, attr, i) || attr[j] then []
    else if P[i] == P[j] then if equiv then [Equivalent(i, j)] else []
    else if diff then [Differ(i, j, Difference(P[i], Left(P, attr, j, i)))]
    else []
  }

  ghost function Row(P: seq<seq<Rule>>, attr: seq<bool>, diff: bool, equiv: bool, i: nat, j: nat): seq<Report>
    requires i < |P| == |attr|
    decreases |P| - j
  {
    if |P| <= j then [] else ReportAt(P, attr, diff, equiv, i, j) + Row(P, attr, diff, equiv, i, j + 1)
  }

  ghost function Rows(P: seq<seq<Rule>>, attr: seq<bool>, diff: bool, equiv: bool, i: nat): seq<Report>
    requires |P| == |attr|
    decreases |P| - i
  {
    if |P| <= i + 1 then [] else Row(P, attr, diff, equiv, i, i + 1) + Rows(P, attr, diff, equiv, i + 1)
  }

  // ---------------------------------------------------------------------------------------
  // The procedure

  lemma MatchSkips(r: Rule, first: bool, rs: seq<Rule>, i: nat)
    requires i < |rs|
    ensures r.key != rs[i].key && !KeyBefore(r.key, rs[i].key) ==> Match(r, first, rs[i..]) == Match(r, first, rs[i + 1..])
    ensures r.key == rs[i].key ==> Match(r, first, rs[i..]) == PermsOnly(r, first, rs[i]) + PermsOnly(rs[i], !first, r)
    ensures KeyBefore(r.key, rs[i].key) ==> Match(r, first, rs[i..]) == []
  {
    assert rs[i..][0] == rs[i] && rs[i..][1..] == rs[i + 1..];
  }

  method FindMatch(l1: RuleNode, first: bool, l2: RuleNode, ghost list: RuleList, ghost m: nat) returns (shown: seq<Shown>)
    requires list.Valid() && m < |list.nodes| && l2 == list.nodes[m]
    ensures shown == Match(Rule(l1.key, l1.perms), first, list.Rules()[m..])
  {
    hide Match;
    ghost var r, rs, i := Rule(l1.key, l1.perms), list.Rules(), m;
    var c: RuleNode? := l2;
    while c != null
      invariant m <= i <= |list.nodes| && c == list.NodeAt(i)
      invariant Match(r, first, rs[i..]) == Match(r, first, rs[m..])
      decreases |list.nodes| - i
    {
      MatchSkips(r, first, rs, i);
      if l1.key.source < c.key.source {
        break;
      }
      if l1.key.source == c.key.source && l1.key.target < c.key.target {
        break;
      }
      if l1.key.source == c.key.source && l1.key.target == c.key.target && l1.key.cls <= c.key.cls {
        break;
      }
      c, i := c.next, i + 1;
    }
    shown := [];
    if c != null {
      MatchSkips(r, first, rs, i);
      if l1.key == c.key {
        shown := PermsOnly(Rule(l1.key, l1.perms), first, Rule(c.key, c.perms)) +
                 PermsOnly(Rule(c.key, c.perms), !first, Rule(l1.key, l1.perms));
      }
    } else {
      assert rs[i..] == [];
      MatchNothing(r, first);
    }
  }

  lemma MatchNothing(r: Rule, first: bool)
    ensures Match(r, first, []) == []
  {
  }

  /** The walk over two lists up to the first mismatch. */
  method CompareLists(a: RuleList, b: RuleList) returns (l1: RuleNode?, l2: RuleNode?, ghost m: nat)
    requires a.Valid() && b.Valid()
    ensures l1 == a.NodeAt(Mismatch(a.Rules(), b.Rules())) && l2 == b.NodeAt(Mismatch(a.Rules(), b.Rules()))
    ensures m == Mismatch(a.Rules(), b.Rules())
  {
    l1, l2, m := a.first, b.first, 0;
    while l1 != null && l2 != null
      invariant m <= |a.nodes| && m <= |b.nodes| && l1 == a.NodeAt(m) && l2 == b.NodeAt(m)
      invariant forall i | 0 <= i < m :: a.Rules()[i] == b.Rules()[i]
      decreases |a.nodes| - m
    {
      if l1.key.source != l2.key.source {
        break;
      }
      if l1.key.target != l2.key.target {
        break;
      }
      if l1.key.cls != l2.key.cls || l1.perms != l2.perms {
        break;
      }
      l1, l2, m := l1.next, l2.next, m + 1;
    }
    MismatchIs(a.Rules(), b.Rules(), m);
  }

  /** The display of a pair of types that differ. */
  method ShowDifference(a: RuleList, b: RuleList, l1: RuleNode?, l2: RuleNode?, ghost m: nat) returns (shown: seq<Shown>)
    requires a.Valid() && b.Valid() && m <= |a.nodes| && m <= |b.nodes| && l1 == a.NodeAt(m) && l2 == b.NodeAt(m)
    ensures shown == Details(a.Rules()[m..], b.Rules()[m..])
  {
    if l1 != null && l2 != null {
      shown := FindMatch(l1, true, l2, b, m);
      if shown != [] {
        return;
      }
      shown := FindMatch(l2, false, l1, a, m);
      if shown != [] {
        return;
      }
    }
    shown := [];
    if l1 != null {
      shown := shown + [Shown(true, l1.key, l1.perms)];
    }
    if l2 != null {
      shown := shown + [Shown(false, l2.key, l2.perms)];
    }
  }

  /** Each list from i on is what is left of it when the turn comes to i. */
  ghost predicate InStep(P: seq<seq<Rule>>, attr: seq<bool>, now: seq<seq<Rule>>, i: nat, from: nat)
    requires i <= |P| == |attr|
  {
    |now| == |P| && forall k | from <= k < |P| && !attr[k] :: now[k] == Left(P, attr, k, i)
  }

  lemma LeftAfter(P: seq<seq<Rule>>, attr: seq<bool>, i: nat)
    requires i < |P| == |attr|
    ensures !Representative(P, attr, i) ==> forall k | i < k < |P| :: Left(P, attr, k, i + 1) == Left(P, attr, k, i)
    ensures Representative(P, attr, i) ==>
      forall k | i < k < |P| :: Left(P, attr, k, i + 1) == if P[k] == P[i] then [] else Left(P, attr, k, i)
    ensures Representative(P, attr, i) ==> forall k | i < k < |P| :: Left(P, attr, k, i) == P[i] <==> P[k] == P[i]
  {
    forall k | i < k < |P| ensures Merged(P, attr, k, i + 1) <==> Merged(P, attr, k, i) || (!attr[i] && P[i] == P[k]) {
      if Merged(P, attr, k, i + 1) {
        var h :| 0 <= h < i + 1 && !attr[h] && P[h] == P[k];
      }
      if Merged(P, attr, k, i) {
        var h :| 0 <= h < i && !attr[h] && P[h] == P[k];
      }
    }
    if Merged(P, attr, i, i) {
      var h :| 0 <= h < i && !attr[h] && P[h] == P[i];
      assert forall k | i < k < |P| && P[k] == P[i] :: Merged(P, attr, k, i);
    }
    assert !Merged(P, attr, i, i) ==> forall k | i < k < |P| && P[k] == P[i] :: !Merged(P, attr, k, i);
  }

  lemma OwnList(P: seq<seq<Rule>>, attr: seq<bool>, i: nat)
    requires i < |P| == |attr| && Representative(P, attr, i)
    ensures !attr[i] && P[i] != [] && Left(P, attr, i, i) == P[i]
  {
  }

  lemma RowStep(P: seq<seq<Rule>>, attr: seq<bool>, diff: bool, equiv: bool, i: nat, j: nat, out: seq<Report>)
    requires i < |P| == |attr| && j < |P| && Representative(P, attr, i)
    ensures var r := if attr[j] then []
                     else if P[i] == P[j] then if equiv then [Equivalent(i, j)] else []
                     else if diff then [Differ(i, j, Difference(P[i], Left(P, attr, j, i)))]
                     else [];
      out + Row(P, attr, diff, equiv, i, j) == out + r + Row(P, attr, diff, equiv, i, j + 1)
    ensures out + [] == out
  {
    hide Row, Difference, Left, Representative;
    RowUnfolds(P, attr, diff, equiv, i, j);
    var r, rest := ReportAt(P, attr, diff, equiv, i, j), Row(P, attr, diff, equiv, i, j + 1);
    assert out + (r + rest) == out + r + rest;
  }

  lemma RowUnfolds(P: seq<seq<Rule>>, attr: seq<bool>, diff: bool, equiv: bool, i: nat, j: nat)
    requires i < |P| == |attr| && j < |P|
    ensures Row(P, attr, diff, equiv, i, j) == ReportAt(P, attr, diff, equiv, i, j) + Row(P, attr, diff, equiv, i, j + 1)
  {
    hide ReportAt;
  }

  lemma RowEnds(P: seq<seq<Rule>>, attr: seq<bool>, diff: bool, equiv: bool, i: nat, j: nat)
    requires i < |P| == |attr| && j >= |P|
    ensures Row(P, attr, diff, equiv, i, j) == []
  {
  }

  /** Whether two lists are equal, and otherwise what is displayed. */
  method ComparePair(t: TypeRules, i: nat, j: nat) returns (same: bool, shown: seq<Shown>)
    requires t.Valid() && i < |t.lists| && j < |t.lists|
    ensures same <==> t.Contents()[i] == t.Contents()[j]
    ensures !same ==> shown == Difference(t.Contents()[i], t.Contents()[j])
  {
    hide RuleList.Valid, Mismatch, Details;
    var a, b := t.lists[i], t.lists[j];
    var l1, l2, m := CompareLists(a, b);
    MismatchMeans(a.Rules(), b.Rules());
    same := l1 == null && l2 == null;
    shown := [];
    if !same {
      shown := ShowDifference(a, b, l1, l2, m);
    }
  }

  /** The comparisons of one type with all later ones. */
  method AnalyzeRow(t: TypeRules, attr: seq<bool>, diff: bool, equiv: bool, i: nat, ghost P: seq<seq<Rule>>)
    returns (out: seq<Report>)
    requires t.Valid() && i < |P| == |attr| == |t.lists|
    requires InStep(P, attr, t.Contents(), i, i) && Representative(P, attr, i)
    modifies t.repr
    ensures t.Valid() && t.repr == old(t.repr)
    ensures out == Row(P, attr, diff, equiv, i, i + 1) && InStep(P, attr, t.Contents(), i + 1, i + 1)
  {
    hide TypeRules.Valid, TypeRules.Contents, Difference, Left, Representative, Row;
    LeftAfter(P, attr, i);
    OwnList(P, attr, i);
    out := [];
    var j := i + 1;
    while j < |t.lists|
      invariant i < j <= |t.lists| && t.Valid() && t.repr == old(t.repr)
      invariant |t.Contents()| == |P| && t.Contents()[i] == P[i] && InStep(P, attr, t.Contents(), i, j)
      invariant forall k | i < k < j && !attr[k] :: t.Contents()[k] == Left(P, attr, k, i + 1)
      invariant out + Row(P, attr, diff, equiv, i, j) == Row(P, attr, diff, equiv, i, i + 1)
    {
      ghost var now := t.Contents();
      RowStep(P, attr, diff, equiv, i, j, out);
      if attr[j] {
        t.ClearList(j);
      } else {
        var same, shown := ComparePair(t, i, j);
        if !same {
          if diff {
            out := out + [Differ(i, j, shown)];
          }
        } else {
          t.ClearList(j);
          if equiv {
            out := out + [Equivalent(i, j)];
          }
        }
      }
      j := j + 1;
    }
    RowEnds(P, attr, diff, equiv, i, j);
    assert out + [] == out;
  }

  lemma RowsStep(P: seq<seq<Rule>>, attr: seq<bool>, diff: bool, equiv: bool, i: nat, out: seq<Report>)
    requires |P| == |attr| && i + 1 < |P|
    ensures out + Rows(P, attr, diff, equiv, i) == (out + Row(P, attr, diff, equiv, i, i + 1)) + Rows(P, attr, diff, equiv, i + 1)
    ensures !Representative(P, attr, i) ==> Row(P, attr, diff, equiv, i, i + 1) == []
  {
    if !Representative(P, attr, i) {
      EmptyRow(P, attr, diff, equiv, i, i + 1);
    }
  }

  lemma {:induction false} EmptyRow(P: seq<seq<Rule>>, attr: seq<bool>, diff: bool, equiv: bool, i: nat, j: nat)
    requires i < |P| == |attr| && !Representative(P, attr, i)
    ensures Row(P, attr, diff, equiv, i, j) == []
    decreases |P| - j
  {
    if j < |P| {
      EmptyRow(P, attr, diff, equiv, i, j + 1);
    }
  }

  lemma EmptyListMeans(P: seq<seq<Rule>>, attr: seq<bool>, i: nat)
    requires i < |P| == |attr| && !attr[i]
    ensures Left(P, attr, i, i) != [] <==> Representative(P, attr, i)
  {
  }

  lemma AttributeMeans(P: seq<seq<Rule>>, attr: seq<bool>, i: nat)
    requires i < |P| == |attr| && attr[i]
    ensures !Representative(P, attr, i)
  {
  }

  /** The turn of one type: nothing for a type without rules or an attribute, and its list is freed. */
  method AnalyzeType(t: TypeRules, attr: seq<bool>, diff: bool, equiv: bool, i: nat, ghost P: seq<seq<Rule>>)
    returns (row: seq<Report>)
    requires t.Valid() && i + 1 < |P| == |attr| == |t.lists| && InStep(P, attr, t.Contents(), i, i)
    modifies t.repr
    ensures t.Valid() && t.repr == old(t.repr)
    ensures row == Row(P, attr, diff, equiv, i, i + 1) && InStep(P, attr, t.Contents(), i + 1, i + 1)
  {
    hide TypeRules.Contents, Left, Representative, Row, Rows;
    RowsStep(P, attr, diff, equiv, i, []);
    LeftAfter(P, attr, i);
    FirstNode(t, i);
    if t.lists[i].first == null {
      if attr[i] { AttributeMeans(P, attr, i); } else { EmptyListMeans(P, attr, i); }
      return [];
    }
    if attr[i] {
      AttributeMeans(P, attr, i);
      t.ClearList(i);
      return [];
    }
    EmptyListMeans(P, attr, i);
    row := AnalyzeRow(t, attr, diff, equiv, i, P);
    t.ClearList(i);
  }

  /** The whole analysis, for a policy with at least one type. */
  method AnalyzeTypes(t: TypeRules, attr: seq<bool>, diff: bool, equiv: bool) returns (out: seq<Report>)
    requires t.Valid() && |t.lists| == |attr| >= 1
    modifies t.repr
    ensures out == Rows(old(t.Contents()), attr, diff, equiv, 0)
  {
    hide TypeRules.Contents, Left, Representative, Row, Rows;
    ghost var P := t.Contents();
    out := [];
    LeftAtStart(P, attr);
    assert out + Rows(P, attr, diff, equiv, 0) == Rows(P, attr, diff, equiv, 0);
    var i := 0;
    while i < |t.lists| - 1
      invariant 0 <= i < |t.lists| && t.Valid() && t.repr == old(t.repr) && InStep(P, attr, t.Contents(), i, i)
      invariant out + Rows(P, attr, diff, equiv, i) == Rows(P, attr, diff, equiv, 0)
    {
      RowsStep(P, attr, diff, equiv, i, out);
      var row := AnalyzeType(t, attr, diff, equiv, i, P);
      out := out + row;
      i := i + 1;
    }
    RowsEnd(P, attr, diff, equiv, i);
    assert out + [] == out;
  }

  lemma FirstNode(t: TypeRules, i: nat)
    requires t.Valid() && i < |t.lists|
    ensures t.lists[i].first == null <==> t.Contents()[i] == []
  {
  }

  lemma LeftAtStart(P: seq<seq<Rule>>, attr: seq<bool>)
    requires |P| == |attr|
    ensures forall k | 0 <= k < |P| :: Left(P, attr, k, 0) == P[k]
  {
  }

  lemma RowsEnd(P: seq<seq<Rule>>, attr: seq<bool>, diff: bool, equiv: bool, i: nat)
    requires |P| == |attr| && |P| <= i + 1
    ensures Rows(P, attr, diff, equiv, i) == []
  {
  }

  // ---------------------------------------------------------------------------------------
  // The reports form a partition

  lemma ReportNames(P: seq<seq<Rule>>, attr: seq<bool>, diff: bool, equiv: bool, i: nat, j: nat, r: Report)
    requires i < |P| == |attr| && j < |P|
    ensures r in ReportAt(P, attr, diff, equiv, i, j) ==> r.i == i && r.j == j
  {
    hide Difference, Left, Representative;
  }

  lemma {:induction false} InRow(P: seq<seq<Rule>>, attr: seq<bool>, diff: bool, equiv: bool, i: nat, j: nat, r: Report)
    requires i < |P| == |attr|
    ensures r in Row(P, attr, diff, equiv, i, j) <==> r.i == i && j <= r.j < |P| && r in ReportAt(P, attr, diff, equiv, i, r.j)
    decreases |P| - j
  {
    hide ReportAt;
    if j < |P| {
      ReportNames(P, attr, diff, equiv, i, j, r);
      InRow(P, attr, diff, equiv, i, j + 1, r);
    }
  }

  lemma {:induction false} InRows(P: seq<seq<Rule>>, attr: seq<bool>, diff: bool, equiv: bool, i: nat, r: Report)
    requires |P| == |attr|
    ensures r in Rows(P, attr, diff, equiv, i)
      <==> i <= r.i < r.j < |P| && r in ReportAt(P, attr, diff, equiv, r.i, r.j)
    decreases |P| - i
  {
    hide ReportAt, Row;
    if i + 1 < |P| {
      InRow(P, attr, diff, equiv, i, i + 1, r);
      InRows(P, attr, diff, equiv, i + 1, r);
    }
  }

  /** The reports are right about the profiles that the lists had before anything was freed: two
      types are reported as equivalent exactly when they have the same rules and the first is the
      smallest of its class, and as different exactly when the first is the smallest of its class
      and their rules differ. Attributes and types without rules start no report. */
  lemma ReportsArePartition(P: seq<seq<Rule>>, attr: seq<bool>, diff: bool, equiv: bool, i: nat, j: nat)
    requires i < |P| == |attr| && j < |P|
    ensures Equivalent(i, j) in Rows(P, attr, diff, equiv, 0)
      <==> equiv && i < j && !attr[i] && !attr[j] && P[i] == P[j] != [] && forall h | 0 <= h < i && !attr[h] :: P[h] != P[i]
    ensures (exists shown :: Differ(i, j, shown) in Rows(P, attr, diff, equiv, 0))
      <==> diff && i < j && !attr[i] && !attr[j] && P[i] != [] && P[i] != P[j] && forall h | 0 <= h < i && !attr[h] :: P[h] != P[i]
  {
    forall r: Report ensures r in Rows(P, attr, diff, equiv, 0)
      <==> r.i < r.j < |P| && r in ReportAt(P, attr, diff, equiv, r.i, r.j)
    {
      InRows(P, attr, diff, equiv, 0, r);
    }
    hide Rows, Difference, Left;
    var shown := Difference(P[i], Left(P, attr, j, i));
    if diff && i < j && Representative(P, attr, i) && !attr[j] && P[i] != P[j] {
      assert Differ(i, j, shown) in ReportAt(P, attr, diff, equiv, i, j);
      assert Differ(i, j, shown) in Rows(P, attr, diff, equiv, 0);
    }
  }

  ghost predicate ReportedBefore(r: Report, s: Report) {
    r.i < s.i || (r.i == s.i && r.j < s.j)
  }

  ghost predicate Ascending(rs: seq<Report>) {
    forall k, l | 0 <= k < l < |rs| :: ReportedBefore(rs[k], rs[l])
  }

  lemma JoinAscending(xs: seq<Report>, ys: seq<Report>)
    requires Ascending(xs) && Ascending(ys) && forall x, y | x in xs && y in ys :: ReportedBefore(x, y)
    ensures Ascending(xs + ys)
  {
    hide ReportedBefore;
    forall k, l | 0 <= k < l < |xs + ys| ensures ReportedBefore((xs + ys)[k], (xs + ys)[l]) {
      assert k < |xs| ==> xs[k] in xs;
      assert l >= |xs| ==> ys[l - |xs|] in ys;
    }
  }

  lemma {:induction false} RowAscends(P: seq<seq<Rule>>, attr: seq<bool>, diff: bool, equiv: bool, i: nat, j: nat)
    requires i < |P| == |attr|
    ensures Ascending(Row(P, attr, diff, equiv, i, j))
    decreases |P| - j
  {
    if j < |P| {
      var r, rest := ReportAt(P, attr, diff, equiv, i, j), Row(P, attr, diff, equiv, i, j + 1);
      RowAscends(P, attr, diff, equiv, i, j + 1);
      forall x, y | x in r && y in rest ensures ReportedBefore(x, y) {
        ReportNames(P, attr, diff, equiv, i, j, x);
        InRow(P, attr, diff, equiv, i, j + 1, y);
      }
      OneReport(P, attr, diff, equiv, i, j);
      hide ReportAt;
      JoinAscending(r, rest);
    }
  }

  lemma OneReport(P: seq<seq<Rule>>, attr: seq<bool>, diff: bool, equiv: bool, i: nat, j: nat)
    requires i < |P| == |attr| && j < |P|
    ensures |ReportAt(P, attr, diff, equiv, i, j)| <= 1
  {
    hide Difference, Left, Representative;
  }

  lemma {:induction false} RowsAscend(P: seq<seq<Rule>>, attr: seq<bool>, diff: bool, equiv: bool, i: nat)
    requires |P| == |attr|
    ensures Ascending(Rows(P, attr, diff, equiv, i))
    decreases |P| - i
  {
    hide Row, ReportAt;
    if i + 1 < |P| {
      var row, rest := Row(P, attr, diff, equiv, i, i + 1), Rows(P, attr, diff, equiv, i + 1);
      RowAscends(P, attr, diff, equiv, i, i + 1);
      RowsAscend(P, attr, diff, equiv, i + 1);
      forall x, y | x in row && y in rest ensures ReportedBefore(x, y) {
        InRow(P, attr, diff, equiv, i, i + 1, x);
        InRows(P, attr, diff, equiv, i + 1, y);
      }
      hide Ascending;
      JoinAscending(row, rest);
    }
  }

  /** The reports come in the order of their types, one for each pair at most. */
  lemma ReportsAscend(P: seq<seq<Rule>>, attr: seq<bool>, diff: bool, equiv: bool)
    requires |P| == |attr|
    ensures var out := Rows(P, attr, diff, equiv, 0); forall k, l | 0 <= k < l < |out| ::
      out[k].i < out[l].i || (out[k].i == out[l].i && out[k].j < out[l].j)
  {
    RowsAscend(P, attr, diff, equiv, 0);
    hide Rows;
    var out := Rows(P, attr, diff, equiv, 0);
    assert forall k, l | 0 <= k < l < |out| :: ReportedBefore(out[k], out[l]);
  }

  // ---------------------------------------------------------------------------------------
  // What is shown

  /** Access that one of the two lists allows and the other does not. */
  ghost predicate Genuine(s: Shown, a: seq<Rule>, b: seq<Rule>) {
    var own, other := if s.first then a else b, if s.first then b else a;
    s.key in Keys(own) && s.perms <= PermsAt(own, s.key) && s.perms * PermsAt(other, s.key) == {} &&
    (s.perms != {} || s.key !in Keys(other))
  }

  /** A rule that both lists have. */
  ghost predicate Shared(s: Shown, a: seq<Rule>, b: seq<Rule>) {
    Rule(s.key, s.perms) in a && Rule(s.key, s.perms) in b
  }

  lemma PermsOf(a: seq<Rule>, i: nat)
    requires Ordered(a) && i < |a|
    ensures PermsAt(a, a[i].key) == a[i].perms && a[i].key in Keys(a)
  {
    assert forall r | r in a && r.key == a[i].key :: r == a[i];
  }

  lemma NotAllowed(a: seq<Rule>, k: Key)
    requires forall r | r in a :: r.key != k
    ensures k !in Keys(a) && PermsAt(a, k) == {}
  {
  }

  lemma {:induction false} MatchFinds(r: Rule, first: bool, rest: seq<Rule>, i: nat)
    requires Ordered(rest) && i < |rest| && rest[i].key == r.key
    ensures Match(r, first, rest) == PermsOnly(r, first, rest[i]) + PermsOnly(rest[i], !first, r)
    decreases i
  {
    if i > 0 {
      assert KeyBefore(rest[0].key, rest[i].key);
      MatchFinds(r, first, rest[1..], i - 1);
    }
  }

  lemma {:induction false} MatchMisses(r: Rule, first: bool, rest: seq<Rule>)
    requires forall x | x in rest :: x.key != r.key
    ensures Match(r, first, rest) == []
    decreases |rest|
  {
    if rest != [] {
      MatchMisses(r, first, rest[1..]);
    }
  }

  /** The difference of two rules with the same key, in either direction. */
  lemma PermsOnlyGenuine(a: seq<Rule>, b: seq<Rule>, i: nat, j: nat)
    requires Ordered(a) && Ordered(b) && i < |a| && j < |b| && a[i].key == b[j].key
    ensures forall s | s in PermsOnly(a[i], true, b[j]) + PermsOnly(b[j], false, a[i]) :: Genuine(s, a, b)
    ensures PermsOnly(a[i], true, b[j]) + PermsOnly(b[j], false, a[i]) == [] <==> a[i] == b[j]
  {
    PermsOf(a, i);
    PermsOf(b, j);
  }

  /** The smaller of the two keys at the mismatch is missing in the other list. */
  lemma SmallerIsGenuine(a: seq<Rule>, b: seq<Rule>, m: nat)
    requires Ordered(a) && Ordered(b) && m < |a| && m <= |b| && a[..m] == b[..m]
    requires m < |b| ==> KeyBefore(a[m].key, b[m].key)
    ensures Genuine(Shown(true, a[m].key, a[m].perms), a, b) && Genuine(Shown(false, a[m].key, a[m].perms), b, a)
  {
    PermsOf(a, m);
    forall r | r in b ensures r.key != a[m].key {
      var i :| 0 <= i < |b| && b[i] == r;
      if i < m {
        assert a[..m][i] == b[..m][i];
        assert KeyBefore(a[i].key, a[m].key);
      }
    }
    NotAllowed(b, a[m].key);
  }

  /** The larger key is found in the other list at i, or, if i is its end, missing there too. */
  lemma FindLarger(a: seq<Rule>, b: seq<Rule>, m: nat) returns (i: nat)
    requires Ordered(a) && Ordered(b) && m < |a| && m < |b| && a[..m] == b[..m]
    requires KeyBefore(a[m].key, b[m].key)
    ensures m <= i <= |a|
    ensures i < |a| ==> a[i].key == b[m].key && forall f: bool ::
      Match(b[m], f, a[m..]) == PermsOnly(b[m], f, a[i]) + PermsOnly(a[i], !f, b[m])
    ensures i == |a| ==> forall f: bool :: Match(b[m], f, a[m..]) == []
    ensures i == |a| ==> Genuine(Shown(false, b[m].key, b[m].perms), a, b) && Genuine(Shown(true, b[m].key, b[m].perms), b, a)
  {
    if j :| m <= j < |a| && a[j].key == b[m].key {
      i := j;
      assert a[m..][i - m] == a[i];
      forall f: bool ensures Match(b[m], f, a[m..]) == PermsOnly(b[m], f, a[i]) + PermsOnly(a[i], !f, b[m]) {
        MatchFinds(b[m], f, a[m..], i - m);
      }
    } else {
      i := |a|;
      forall x | x in a ensures x.key != b[m].key {
        var j :| 0 <= j < |a| && a[j] == x;
        if j < m {
          assert a[..m][j] == b[..m][j];
          assert KeyBefore(b[j].key, b[m].key);
        }
      }
      forall f: bool ensures Match(b[m], f, a[m..]) == [] {
        MatchMisses(b[m], f, a[m..]);
      }
      NotAllowed(a, b[m].key);
      PermsOf(b, m);
    }
  }

  lemma SmallerKeyMissed(r: Rule, first: bool, rest: seq<Rule>)
    requires rest != [] && KeyBefore(r.key, rest[0].key)
    ensures Match(r, first, rest) == []
  {
  }

  /** What is displayed for two different lists always contains a difference between them, and
      otherwise, at most, a rule that both have. */
  lemma DifferenceShows(a: seq<Rule>, b: seq<Rule>)
    requires Ordered(a) && Ordered(b) && a != b
    ensures forall s | s in Difference(a, b) :: Genuine(s, a, b) || Shared(s, a, b)
    ensures exists s :: s in Difference(a, b) && Genuine(s, a, b)
  {
    var m := Mismatch(a, b);
    MismatchMeans(a, b);
    if m == |a| {
      SmallerIsGenuine(b, a, m);
      assert Shown(false, b[m].key, b[m].perms) in Difference(a, b);
    } else if m == |b| {
      SmallerIsGenuine(a, b, m);
      assert Shown(true, a[m].key, a[m].perms) in Difference(a, b);
    } else if a[m].key == b[m].key {
      SameKeyShows(a, b, m);
    } else if KeyBefore(a[m].key, b[m].key) {
      FirstSmallerShows(a, b, m);
    } else {
      SecondSmallerShows(a, b, m);
    }
  }

  lemma SameKeyShows(a: seq<Rule>, b: seq<Rule>, m: nat)
    requires Ordered(a) && Ordered(b) && m < |a| && m < |b| && a[m] != b[m] && a[m].key == b[m].key
    ensures var d := Details(a[m..], b[m..]);
      (forall s | s in d :: Genuine(s, a, b)) && exists s :: s in d && Genuine(s, a, b)
  {
    MatchFinds(a[m], true, b[m..], 0);
    PermsOnlyGenuine(a, b, m, m);
    hide Genuine, PermsOnly;
    var d := Details(a[m..], b[m..]);
    assert d[0] in d;
  }

  lemma PermsOnlyCommutes(r: Rule, c: Rule)
    ensures forall s :: s in PermsOnly(c, false, r) + PermsOnly(r, true, c) <==> s in PermsOnly(r, true, c) + PermsOnly(c, false, r)
    ensures PermsOnly(c, false, r) + PermsOnly(r, true, c) == [] <==> PermsOnly(r, true, c) + PermsOnly(c, false, r) == []
  {
  }

  lemma FirstSmallerShows(a: seq<Rule>, b: seq<Rule>, m: nat)
    requires Ordered(a) && Ordered(b) && m < |a| && m < |b| && a[..m] == b[..m] && KeyBefore(a[m].key, b[m].key)
    ensures var d := Details(a[m..], b[m..]);
      (forall s | s in d :: Genuine(s, a, b) || Shared(s, a, b)) && exists s :: s in d && Genuine(s, a, b)
  {
    var x, y := a[m..], b[m..];
    var d := Details(x, y);
    SmallerIsGenuine(a, b, m);
    var i := FindLarger(a, b, m);
    SmallerKeyMissed(x[0], true, y);
    hide Genuine, PermsOnly;
    if i < |a| {
      PermsOnlyGenuine(a, b, i, m);
      PermsOnlyCommutes(a[i], b[m]);
    }
    assert d[0] in d;
  }

  lemma SecondSmallerShows(a: seq<Rule>, b: seq<Rule>, m: nat)
    requires Ordered(a) && Ordered(b) && m < |a| && m < |b| && a[..m] == b[..m] && KeyBefore(b[m].key, a[m].key)
    ensures var d := Details(a[m..], b[m..]);
      (forall s | s in d :: Genuine(s, a, b) || Shared(s, a, b)) && exists s :: s in d && Genuine(s, a, b)
  {
    var x, y := a[m..], b[m..];
    var d := Details(x, y);
    SmallerIsGenuine(b, a, m);
    var i := FindLarger(b, a, m);
    SmallerKeyMissed(y[0], false, x);
    hide Genuine, PermsOnly, Match;
    if i < |b| {
      PermsOnlyGenuine(a, b, m, i);
      assert Match(x[0], true, y) == PermsOnly(a[m], true, b[i]) + PermsOnly(b[i], false, a[m]);
    }
    assert d[|d| - 1] in d;
  }

  /** A difference is not a rule that both lists have. */
  lemma GenuineIsNotShared(s: Shown, a: seq<Rule>, b: seq<Rule>)
    requires Ordered(a) && Ordered(b)
    ensures !(Genuine(s, a, b) && Shared(s, a, b))
  {
    var other := if s.first then b else a;
    if Shared(s, a, b) {
      var i :| 0 <= i < |other| && other[i] == Rule(s.key, s.perms);
      PermsOf(other, i);
      assert s.perms * s.perms == s.perms;
    }
  }

  lemma OnlyOneWithKey(a: seq<Rule>, i: nat, r: Rule)
    requires Ordered(a) && i < |a| && a[i].key == r.key
    ensures r in a <==> a[i] == r
  {
    if r in a {
      var k :| 0 <= k < |a| && a[k] == r;
    }
  }

  lemma FirstSmallerShared(a: seq<Rule>, b: seq<Rule>, m: nat)
    requires Ordered(a) && Ordered(b) && m < |a| && m < |b| && a[..m] == b[..m] && KeyBefore(a[m].key, b[m].key)
    ensures (exists s :: s in Details(a[m..], b[m..]) && Shared(s, a, b)) <==> b[m] in a
  {
    var x, y := a[m..], b[m..];
    var d := Details(x, y);
    var s, t := Shown(true, a[m].key, a[m].perms), Shown(false, b[m].key, b[m].perms);
    SmallerIsGenuine(a, b, m);
    GenuineIsNotShared(s, a, b);
    SmallerKeyMissed(x[0], true, y);
    assert Rule(t.key, t.perms) == b[m] && b[m] in b;
    var i := FindLarger(a, b, m);
    if i < |a| {
      OnlyOneWithKey(a, i, b[m]);
      PermsOnlyGenuine(a, b, i, m);
      PermsOnlyCommutes(a[i], b[m]);
      hide PermsOnly;
      if a[i] == b[m] {
        assert d == [s, t];
        assert t in d && Shared(t, a, b);
      } else {
        forall u | u in d ensures !Shared(u, a, b) {
          GenuineIsNotShared(u, a, b);
        }
      }
    } else {
      GenuineIsNotShared(t, a, b);
      assert d == [s, t];
    }
  }

  lemma SecondSmallerShared(a: seq<Rule>, b: seq<Rule>, m: nat)
    requires Ordered(a) && Ordered(b) && m < |a| && m < |b| && a[..m] == b[..m] && KeyBefore(b[m].key, a[m].key)
    ensures (exists s :: s in Details(a[m..], b[m..]) && Shared(s, a, b)) <==> a[m] in b
  {
    var x, y := a[m..], b[m..];
    var d := Details(x, y);
    var s, t := Shown(true, a[m].key, a[m].perms), Shown(false, b[m].key, b[m].perms);
    SmallerIsGenuine(b, a, m);
    GenuineIsNotShared(t, a, b);
    SmallerKeyMissed(y[0], false, x);
    assert Rule(s.key, s.perms) == a[m] && a[m] in a;
    var i := FindLarger(b, a, m);
    hide PermsOnly, Match;
    if i < |b| {
      OnlyOneWithKey(b, i, a[m]);
      PermsOnlyGenuine(a, b, m, i);
      assert Match(x[0], true, y) == PermsOnly(a[m], true, b[i]) + PermsOnly(b[i], false, a[m]);
      if b[i] == a[m] {
        assert d == [s, t];
        assert s in d && Shared(s, a, b);
      } else {
        forall u | u in d ensures !Shared(u, a, b) {
          GenuineIsNotShared(u, a, b);
        }
      }
    } else {
      GenuineIsNotShared(s, a, b);
      assert d == [s, t];
    }
  }

  /** A rule that both lists have is displayed exactly if both lists go on where they first differ, and
      one of the two rules there occurs in the other list as well. */
  lemma SharedExactly(a: seq<Rule>, b: seq<Rule>)
    requires Ordered(a) && Ordered(b) && a != b
    ensures (exists s :: s in Difference(a, b) && Shared(s, a, b))
      <==> var m := Mismatch(a, b); m < |a| && m < |b| && (a[m] in b || b[m] in a)
  {
    var m := Mismatch(a, b);
    MismatchMeans(a, b);
    hide Details;
    if m == |a| || m == |b| {
      EndShown(a, b, m);
    } else if a[m].key == b[m].key {
      SameKeyShows(a, b, m);
      OnlyOneWithKey(a, m, b[m]);
      OnlyOneWithKey(b, m, a[m]);
      forall s | s in Difference(a, b) ensures !Shared(s, a, b) {
        GenuineIsNotShared(s, a, b);
      }
    } else if KeyBefore(a[m].key, b[m].key) {
      FirstSmallerShared(a, b, m);
      SmallerIsNotShared(a, b, m);
    } else {
      SecondSmallerShared(a, b, m);
      SmallerIsNotShared(b, a, m);
    }
  }

  /** The permissions that only one of two rules with one key gives, the first rule's before the second's. */
  ghost predicate ShowsOnly(d: seq<Shown>, r: Rule, ofFirst: bool, s: Rule) {
    var mine, yours := Shown(ofFirst, r.key, r.perms - s.perms), Shown(!ofFirst, s.key, s.perms - r.perms);
    if s.perms <= r.perms then d == [mine]
    else if r.perms <= s.perms then d == [yours]
    else d == [mine, yours]
  }

  /** What is displayed for any two different lists, from the first place m where they differ: the rule of the
      list that goes on; for one key, the permissions of one side only; and for two keys the same for the
      larger key, if the other list has it with other permissions further on, and otherwise both rules. */
  lemma DisplayedExactly(a: seq<Rule>, b: seq<Rule>, m: nat)
    requires Ordered(a) && Ordered(b) && m <= |a| && m <= |b| && a[..m] == b[..m] && (m < |a| && m < |b| ==> a[m] != b[m])
    ensures m == |a| && m < |b| ==> Difference(a, b) == [Shown(false, b[m].key, b[m].perms)]
    ensures m == |b| && m < |a| ==> Difference(a, b) == [Shown(true, a[m].key, a[m].perms)]
    ensures m < |a| && m < |b| ==>
      var both := [Shown(true, a[m].key, a[m].perms), Shown(false, b[m].key, b[m].perms)];
      && (a[m].key == b[m].key ==> ShowsOnly(Difference(a, b), a[m], true, b[m]))
      && (KeyBefore(a[m].key, b[m].key) ==>
        && (forall i | m <= i < |a| && a[i].key == b[m].key && a[i] != b[m] :: ShowsOnly(Difference(a, b), b[m], false, a[i]))
        && (b[m].key !in Keys(a) || b[m] in a ==> Difference(a, b) == both))
      && (KeyBefore(b[m].key, a[m].key) ==>
        && (forall i | m <= i < |b| && b[i].key == a[m].key && b[i] != a[m] :: ShowsOnly(Difference(a, b), a[m], true, b[i]))
        && (a[m].key !in Keys(b) || a[m] in b ==> Difference(a, b) == both))
  {
    assert forall i | 0 <= i < m :: a[i] == a[..m][i] && b[i] == b[..m][i];
    MismatchIs(a, b, m);
    if m < |a| && m < |b| {
      hide Match, PermsOnly, Mismatch, Keys;
      if a[m].key == b[m].key {
        SameKeyDisplayed(a, b, m);
      } else if KeyBefore(a[m].key, b[m].key) {
        SecondLargerDisplayed(a, b, m);
      } else {
        FirstLargerDisplayed(a, b, m);
      }
    }
  }

  lemma OnlyShows(r: Rule, first: bool, s: Rule)
    ensures r.key == s.key && r != s ==> ShowsOnly(PermsOnly(r, first, s) + PermsOnly(s, !first, r), r, first, s)
    ensures r == s ==> PermsOnly(r, first, s) + PermsOnly(s, !first, r) == []
    ensures r.key == s.key && r != s ==> PermsOnly(r, first, s) + PermsOnly(s, !first, r) != []
  {
    if r.key == s.key && r != s && s.perms <= r.perms {
      assert s.perms - r.perms == {} && r.perms - s.perms != {};
    } else if r.key == s.key && r != s && r.perms <= s.perms {
      assert r.perms - s.perms == {} && s.perms - r.perms != {};
    } else if r.key == s.key && r != s {
      var p :| p in s.perms && p !in r.perms;
      var q :| q in r.perms && q !in s.perms;
      assert p in s.perms - r.perms && q in r.perms - s.perms;
    }
  }

  lemma SameKeyDisplayed(a: seq<Rule>, b: seq<Rule>, m: nat)
    requires Ordered(a) && Ordered(b) && m < |a| && m < |b| && a[m] != b[m] && a[m].key == b[m].key
    ensures ShowsOnly(Details(a[m..], b[m..]), a[m], true, b[m])
  {
    MatchFinds(a[m], true, b[m..], 0);
    OnlyShows(a[m], true, b[m]);
    hide PermsOnly, Match;
  }

  lemma KeyInList(a: seq<Rule>, k: Key)
    ensures k in Keys(a) <==> exists i :: 0 <= i < |a| && a[i].key == k
  {
    if k in Keys(a) {
      var r :| r in a && r.key == k;
    }
  }

  lemma SecondLargerDisplayed(a: seq<Rule>, b: seq<Rule>, m: nat)
    requires Ordered(a) && Ordered(b) && m < |a| && m < |b| && a[..m] == b[..m] && KeyBefore(a[m].key, b[m].key)
    ensures var d := Details(a[m..], b[m..]);
      && (forall i | m <= i < |a| && a[i].key == b[m].key && a[i] != b[m] :: ShowsOnly(d, b[m], false, a[i]))
      && (b[m].key !in Keys(a) || b[m] in a ==> d == [Shown(true, a[m].key, a[m].perms), Shown(false, b[m].key, b[m].perms)])
  {
    var x, y := a[m..], b[m..];
    SmallerKeyMissed(x[0], true, y);
    var i := FindLarger(a, b, m);
    KeyInList(a, b[m].key);
    hide PermsOnly, Match, Keys;
    if i < |a| {
      OnlyShows(b[m], false, a[i]);
      OnlyOneWithKey(a, i, b[m]);
      assert forall j | m <= j < |a| && a[j].key == b[m].key :: j == i;
      assert a[i].key == b[m].key;
    } else {
      NoneWithKey(a, b, m);
    }
  }

  /** A rule for which nothing is shown is in the rest of the list as it is, or its key is not. */
  lemma SameIfUnmatched(r: Rule, first: bool, list: seq<Rule>, m: nat)
    requires Ordered(list) && m <= |list| && Match(r, first, list[m..]) == []
    ensures forall j | m <= j < |list| && list[j].key == r.key :: list[j] == r
  {
    forall j | m <= j < |list| && list[j].key == r.key ensures list[j] == r {
      MatchFinds(r, first, list[m..], j - m);
      OnlyShows(r, first, list[j]);
    }
  }

  lemma NoneWithKey(a: seq<Rule>, b: seq<Rule>, m: nat)
    requires Ordered(a) && Ordered(b) && m < |a| && m < |b| && a[..m] == b[..m] && KeyBefore(a[m].key, b[m].key)
    requires forall f: bool :: Match(b[m], f, a[m..]) == []
    ensures forall j | m <= j < |a| && a[j].key == b[m].key :: a[j] == b[m]
    ensures Details(a[m..], b[m..]) == [Shown(true, a[m].key, a[m].perms), Shown(false, b[m].key, b[m].perms)]
  {
    SameIfUnmatched(b[m], false, a, m);
    SmallerKeyMissed(a[m], true, b[m..]);
    hide PermsOnly, Match;
  }

  lemma FirstLargerDisplayed(a: seq<Rule>, b: seq<Rule>, m: nat)
    requires Ordered(a) && Ordered(b) && m < |a| && m < |b| && a[..m] == b[..m] && KeyBefore(b[m].key, a[m].key)
    ensures var d := Details(a[m..], b[m..]);
      && (forall i | m <= i < |b| && b[i].key == a[m].key && b[i] != a[m] :: ShowsOnly(d, a[m], true, b[i]))
      && (a[m].key !in Keys(b) || a[m] in b ==> d == [Shown(true, a[m].key, a[m].perms), Shown(false, b[m].key, b[m].perms)])
  {
    var x, y := a[m..], b[m..];
    SmallerKeyMissed(y[0], false, x);
    var i := FindLarger(b, a, m);
    KeyInList(b, a[m].key);
    hide PermsOnly, Match, Keys;
    if i < |b| {
      OnlyShows(a[m], true, b[i]);
      OnlyOneWithKey(b, i, a[m]);
      assert Match(a[m], true, y) == PermsOnly(a[m], true, b[i]) + PermsOnly(b[i], false, a[m]);
      assert forall j | m <= j < |b| && b[j].key == a[m].key :: j == i;
      assert b[i].key == a[m].key;
    } else {
      assert Match(a[m], true, y) == [];
      SameIfUnmatched(a[m], true, b, m);
    }
  }

  lemma SmallerIsNotShared(a: seq<Rule>, b: seq<Rule>, m: nat)
    requires Ordered(a) && Ordered(b) && m < |a| && m <= |b| && a[..m] == b[..m]
    requires m < |b| ==> KeyBefore(a[m].key, b[m].key)
    ensures a[m] !in b
  {
    SmallerIsGenuine(a, b, m);
    GenuineIsNotShared(Shown(true, a[m].key, a[m].perms), a, b);
  }

  lemma EndShown(a: seq<Rule>, b: seq<Rule>, m: nat)
    requires Ordered(a) && Ordered(b) && m == Mismatch(a, b) && (m == |a| || m == |b|) && a != b && a[..m] == b[..m]
    ensures forall s | s in Difference(a, b) :: !Shared(s, a, b)
  {
    if m == |a| {
      SmallerIsNotShared(b, a, m);
    } else {
      SmallerIsNotShared(a, b, m);
    }
  }

  /** For a type whose list was freed the display ignores what it allows: the first rule of the
      other type is shown as the difference, even when both have it. */
  lemma FreedListShowsFirstRule(P: seq<seq<Rule>>, attr: seq<bool>, i: nat, j: nat)
    requires i < |P| == |attr| && j < |P| && Representative(P, attr, i) && Merged(P, attr, j, i)
    ensures Difference(P[i], Left(P, attr, j, i)) == [Shown(true, P[i][0].key, P[i][0].perms)]
    ensures Shared(Shown(true, P[i][0].key, P[i][0].perms), P[i], P[j]) <==> P[i][0] in P[j]
  {
  }

  /** What is displayed for two types that differ holds a difference between what they allow exactly if
      the second list was not freed before, or the first rule of the first type gives nothing that the
      second type has. */
  lemma DisplayIsRight(P: seq<seq<Rule>>, attr: seq<bool>, i: nat, j: nat)
    requires i < |P| == |attr| && j < |P| && Representative(P, attr, i) && P[i] != P[j] && Ordered(P[i]) && Ordered(P[j])
    ensures (exists s :: s in Difference(P[i], Left(P, attr, j, i)) && Genuine(s, P[i], P[j]))
      <==> !Merged(P, attr, j, i) || NotIn(P[i][0], P[j])
  {
    if Merged(P, attr, j, i) {
      FreedListShowsFirstRule(P, attr, i, j);
      PermsOf(P[i], 0);
      assert Shown(true, P[i][0].key, P[i][0].perms) in Difference(P[i], Left(P, attr, j, i));
    } else {
      DifferenceShows(P[i], P[j]);
    }
  }

  /** The list allows nothing of the rule, and does not mention it if it is empty. */
  ghost predicate NotIn(r: Rule, list: seq<Rule>) {
    r.perms * PermsAt(list, r.key) == {} && (r.perms != {} || r.key !in Keys(list))
  }

  // ---------------------------------------------------------------------------------------
  // The whole command

  /** The list of the type v + 1 after both tables. */
  ghost function ListOf(te: seq<AvRule>, cond: seq<AvRule>, v: nat): seq<Rule> {
    InsertAll([], Profile(te, false, v + 1) + Profile(cond, true, v + 1))
  }

  ghost function Lists(te: seq<AvRule>, cond: seq<AvRule>, nprim: nat): seq<seq<Rule>> {
    seq(nprim, v requires 0 <= v < nprim => ListOf(te, cond, v))
  }

  /** Two lists are equal exactly when the tables allow the two types the same. */
  lemma ListsCompareAccess(te: seq<AvRule>, cond: seq<AvRule>, v: nat, w: nat)
    ensures ListOf(te, cond, v) == ListOf(te, cond, w)
      <==> SameAccess(Profile(te, false, v + 1) + Profile(cond, true, v + 1), Profile(te, false, w + 1) + Profile(cond, true, w + 1))
    ensures Ordered(ListOf(te, cond, v))
  {
    InsertionOrderIsIrrelevant(Profile(te, false, v + 1) + Profile(cond, true, v + 1),
                               Profile(te, false, w + 1) + Profile(cond, true, w + 1));
    InsertAllMeans([], Profile(te, false, v + 1) + Profile(cond, true, v + 1));
  }

  /** An entry of the tables that makes a difference, in terms of its fields. */
  ghost predicate Counts(te: seq<AvRule>, cond: seq<AvRule>, r: AvRule) {
    (r in te && r.allowed) || (r in cond && r.allowed && r.enabled)
  }

  /** The entry r gives the type v its permissions under the key k: the other type, as target or as source. */
  ghost predicate GivesUnder(r: AvRule, v: nat, k: Key) {
    || (r.source == v && r.target == v && k == Key(0, 0, r.cls))
    || (r.source == v && r.target != v && k == Key(0, r.target, r.cls))
    || (r.source != v && r.target == v && k == Key(r.source, 0, r.cls))
  }

  lemma ListHolds(te: seq<AvRule>, cond: seq<AvRule>, v: nat, k: Key)
    ensures var a, b := Profile(te, false, v + 1), Profile(cond, true, v + 1);
      && Keys(ListOf(te, cond, v)) == Keys(a) + Keys(b)
      && PermsAt(ListOf(te, cond, v), k) == PermsAt(a, k) + PermsAt(b, k)
  {
    var a, b := Profile(te, false, v + 1), Profile(cond, true, v + 1);
    InsertAllMeans([], a + b);
    KeysAppend(a, b);
    assert Keys([]) == {} && PermsAt([], k) == {};
    assert forall r :: r in a + b <==> r in a || r in b;
    hide Profile, InsertAll;
    assert PermsAt(a + b, k) == PermsAt(a, k) + PermsAt(b, k);
  }

  /** What a list holds, for any two tables: exactly the entries that are allow rules and, in the second table,
      enabled, under the other type and the class, each key once and in ascending order. */
  lemma ListSays(te: seq<AvRule>, cond: seq<AvRule>, v: nat, k: Key)
    ensures k in Keys(ListOf(te, cond, v)) <==> exists r :: Counts(te, cond, r) && GivesUnder(r, v + 1, k)
    ensures forall p :: p in PermsAt(ListOf(te, cond, v), k) <==> exists r :: Counts(te, cond, r) && GivesUnder(r, v + 1, k) && p in r.perms
    ensures var l := ListOf(te, cond, v); forall i, j | 0 <= i < j < |l| ::
      var a, b := l[i].key, l[j].key;
      a.source <= b.source && (a.source == b.source ==> a.target <= b.target && (a.target == b.target ==> a.cls < b.cls))
  {
    ListsCompareAccess(te, cond, v, v);
    ListHolds(te, cond, v, k);
    ProfileKeys(te, false, v + 1, k);
    ProfileKeys(cond, true, v + 1, k);
    hide ListOf, Profile, PermsAt, Keys;
    var w := v + 1;
    assert forall r :: Matches(r, w, k) <==> GivesUnder(r, w, k);
    assert forall r :: Counts(te, cond, r) <==> (r in te && Taken(r, false)) || (r in cond && Taken(r, true));
    hide Counts, Taken, Matches, GivesUnder;
    forall p ensures p in PermsAt(ListOf(te, cond, v), k) <==> exists r :: Counts(te, cond, r) && GivesUnder(r, v + 1, k) && p in r.perms {
      ProfileMeans(te, false, v + 1, k, p);
      ProfileMeans(cond, true, v + 1, k, p);
    }
  }

  /** Some entry that counts gives the type v something under the key k, or the permission p. */
  ghost predicate Mentions(te: seq<AvRule>, cond: seq<AvRule>, v: nat, k: Key) {
    exists r :: Counts(te, cond, r) && GivesUnder(r, v, k)
  }

  ghost predicate Allows(te: seq<AvRule>, cond: seq<AvRule>, v: nat, k: Key, p: nat) {
    exists r :: Counts(te, cond, r) && GivesUnder(r, v, k) && p in r.perms
  }

  /** Two types, numbered from 1, have the same list exactly if the tables give them the same permissions
      towards the same types in the same classes, themselves apart. */
  lemma SameListExactly(te: seq<AvRule>, cond: seq<AvRule>, v: nat, w: nat)
    requires v >= 1 && w >= 1
    ensures ListOf(te, cond, v - 1) == ListOf(te, cond, w - 1)
      <==> (forall k :: Mentions(te, cond, v, k) <==> Mentions(te, cond, w, k)) &&
           forall k, p :: Allows(te, cond, v, k, p) <==> Allows(te, cond, w, k, p)
  {
    hide ListOf, Counts, GivesUnder, Keys, PermsAt, Ordered;
    var a, b := ListOf(te, cond, v - 1), ListOf(te, cond, w - 1);
    ListsCompareAccess(te, cond, v - 1, w - 1);
    ListsCompareAccess(te, cond, w - 1, v - 1);
    OrderedIsCanonical(a, b);
    forall k ensures (k in Keys(a) <==> Mentions(te, cond, v, k)) && (k in Keys(b) <==> Mentions(te, cond, w, k)) {
      ListSays(te, cond, v - 1, k);
      ListSays(te, cond, w - 1, k);
    }
    forall k, p ensures (p in PermsAt(a, k) <==> Allows(te, cond, v, k, p)) && (p in PermsAt(b, k) <==> Allows(te, cond, w, k, p)) {
      ListSays(te, cond, v - 1, k);
      ListSays(te, cond, w - 1, k);
    }
    hide Mentions, Allows;
    assert Keys(a) == Keys(b) <==> forall k :: Mentions(te, cond, v, k) <==> Mentions(te, cond, w, k);
    assert (forall k :: PermsAt(a, k) == PermsAt(b, k)) <==> forall k, p :: Allows(te, cond, v, k, p) <==> Allows(te, cond, w, k, p);
  }

  /** Three lists, the first and the last with two rules and the one between with the first of them. */
  lemma SharedRuleIsReported(r: Rule, s: Rule, equiv: bool)
    requires KeyBefore(r.key, s.key)
    ensures var P, attr, shown := [[r, s], [r], [r, s]], [false, false, false], Shown(true, r.key, r.perms);
      && Ordered(P[1]) && Ordered(P[2]) && Shared(shown, P[1], P[2])
      && Differ(1, 2, [shown]) in Rows(P, attr, true, equiv, 0)
      && !exists s :: s in [shown] && Genuine(s, P[1], P[2])
  {
    var P, attr, shown := [[r, s], [r], [r, s]], [false, false, false], Shown(true, r.key, r.perms);
    assert |P[0]| == 2 && |P[1]| == 1;
    assert !attr[0] && P[0] == P[2] && P[0] != P[1] && P[1] != P[2];
    assert Merged(P, attr, 2, 1) && Representative(P, attr, 1);
    FreedListShowsFirstRule(P, attr, 1, 2);
    InRows(P, attr, true, equiv, 0, Differ(1, 2, [shown]));
    assert Rule(shown.key, shown.perms) == P[1][0] == P[2][0];
    GenuineIsNotShared(shown, P[1], P[2]);
  }

  /** A rule that allows a type access to itself. */
  function SelfRule(v: nat, cls: nat, perms: Perms): AvRule {
    AvRule(v, v, cls, true, true, perms)
  }

  /** Five self rules of three types: the first and the third with two classes, the second with one. */
  function SelfRules(c: nat, d: nat, p: Perms, q: Perms): seq<AvRule> {
    [SelfRule(1, c, p), SelfRule(1, d, q), SelfRule(2, c, p), SelfRule(3, c, p), SelfRule(3, d, q)]
  }

  lemma SelfEntries(v: nat, w: nat, cls: nat, perms: Perms)
    ensures Entries(SelfRule(v, cls, perms), w) == if v == w then [Rule(Key(0, 0, cls), perms)] else []
  {
  }

  lemma ProfileStep(r: AvRule, rest: seq<AvRule>, v: nat)
    requires Taken(r, false)
    ensures Profile([r] + rest, false, v) == Entries(r, v) + Profile(rest, false, v)
  {
    assert ([r] + rest)[1..] == rest;
  }

  lemma SelfProfile(c: nat, d: nat, p: Perms, q: Perms, v: nat)
    requires 1 <= v <= 3
    ensures Profile(SelfRules(c, d, p, q), false, v)
      == if v == 2 then [Rule(Key(0, 0, c), p)] else [Rule(Key(0, 0, c), p), Rule(Key(0, 0, d), q)]
  {
    hide Entries, Profile;
    var r0, r1, r2, r3, r4 := SelfRule(1, c, p), SelfRule(1, d, q), SelfRule(2, c, p), SelfRule(3, c, p), SelfRule(3, d, q);
    assert SelfRules(c, d, p, q) == [r0] + ([r1] + ([r2] + ([r3] + ([r4] + []))));
    ProfileStep(r0, [r1] + ([r2] + ([r3] + ([r4] + []))), v);
    ProfileStep(r1, [r2] + ([r3] + ([r4] + [])), v);
    ProfileStep(r2, [r3] + ([r4] + []), v);
    ProfileStep(r3, [r4] + [], v);
    ProfileStep(r4, [], v);
    SelfEntries(1, v, c, p);
    SelfEntries(1, v, d, q);
    SelfEntries(2, v, c, p);
    SelfEntries(3, v, c, p);
    SelfEntries(3, v, d, q);
    EmptyProfile(v);
  }

  lemma EmptyProfile(v: nat)
    ensures Profile([], false, v) == [] && Profile([], true, v) == []
  {
  }

  lemma InsertTwo(r: Rule, s: Rule)
    requires KeyBefore(r.key, s.key)
    ensures InsertAll([], [r]) == [r] && InsertAll([], [r, s]) == [r, s]
  {
    assert [r, s][1..] == [s] && [r][1..] == [] && [s][1..] == [];
    assert Insert([], r) == [r] && Insert([], s) == [s] && Insert([r], s) == [r, s];
    InsertNothing([r]);
    InsertNothing([r, s]);
    assert InsertAll([r], [s]) == InsertAll([r, s], []);
  }

  lemma SelfLists(c: nat, d: nat, p: Perms, q: Perms)
    requires c < d
    ensures var r, s := Rule(Key(0, 0, c), p), Rule(Key(0, 0, d), q);
      Lists(SelfRules(c, d, p, q), [], 3) == [[r, s], [r], [r, s]]
  {
    hide Profile, SelfRules, InsertAll;
    InsertTwo(Rule(Key(0, 0, c), p), Rule(Key(0, 0, d), q));
    forall v: nat | v < 3 ensures ListOf(SelfRules(c, d, p, q), [], v) == InsertAll([], Profile(SelfRules(c, d, p, q), false, v + 1)) {
      EmptyProfile(v + 1);
      assert Profile(SelfRules(c, d, p, q), false, v + 1) + [] == Profile(SelfRules(c, d, p, q), false, v + 1);
    }
    SelfProfile(c, d, p, q, 1);
    SelfProfile(c, d, p, q, 2);
    SelfProfile(c, d, p, q, 3);
  }

  /** Tables for which the difference reported for two types is the rule that they share: self rules for the
      classes c and d of the first type and of the third, and for the class c of the second. */
  lemma WrongDifferenceIsReported(c: nat, d: nat, p: Perms, q: Perms, equiv: bool)
    requires c < d
    ensures var te, attr, shown := SelfRules(c, d, p, q), [false, false, false], [Shown(true, Key(0, 0, c), p)];
      var P := Lists(te, [], 3);
      && TableOk(te, 3) && Ordered(P[1]) && Ordered(P[2]) && Shared(shown[0], P[1], P[2])
      && Differ(1, 2, shown) in Rows(P, attr, true, equiv, 0)
      && !exists s :: s in shown && Genuine(s, P[1], P[2])
  {
    hide Rows, Ordered, Shared, Genuine, Lists;
    SelfLists(c, d, p, q);
    SharedRuleIsReported(Rule(Key(0, 0, c), p), Rule(Key(0, 0, d), q), equiv);
  }

  lemma TablesFillLists(c: seq<seq<Rule>>, te: seq<AvRule>, cond: seq<AvRule>)
    requires TableOk(te, |c|) && TableOk(cond, |c|) && forall v | 0 <= v < |c| :: c[v] == []
    ensures AddTable(AddTable(c, te, false), cond, true) == Lists(te, cond, |c|)
  {
    forall v | 0 <= v < |c| ensures AddTable(AddTable(c, te, false), cond, true)[v] == ListOf(te, cond, v) {
      TableFillsProfiles(c, te, false, v + 1);
      TableFillsProfiles(AddTable(c, te, false), cond, true, v + 1);
      InsertAllAppend([], Profile(te, false, v + 1), Profile(cond, true, v + 1));
    }
  }

  lemma OthersPlayNoPart(te: seq<AvRule>, cond: seq<AvRule>, nprim: nat)
    ensures Lists(Counting(te, false), Counting(cond, true), nprim) == Lists(te, cond, nprim)
  {
    hide Profile, InsertAll, Counting;
    forall v: nat ensures ListOf(Counting(te, false), Counting(cond, true), v) == ListOf(te, cond, v) {
      OthersLeaveNoTrace(te, false, v + 1);
      OthersLeaveNoTrace(cond, true, v + 1);
    }
  }

  /** `analyze_types`, from the two expanded tables to the reports, in which entries that are no allow rules
      or not enabled play no part. */
  method Analyze(te: seq<AvRule>, cond: seq<AvRule>, attr: seq<bool>, diff: bool, equiv: bool) returns (out: seq<Report>)
    requires |attr| >= 1 && TableOk(te, |attr|) && TableOk(cond, |attr|)
    ensures out == Rows(Lists(te, cond, |attr|), attr, diff, equiv, 0)
    ensures out == Rows(Lists(Counting(te, false), Counting(cond, true), |attr|), attr, diff, equiv, 0)
  {
    hide TypeRules.Valid, TypeRules.Contents, Rows, Lists, AddTable;
    OthersPlayNoPart(te, cond, |attr|);
    var t := TypeRules.Allocate(|attr|);
    TablesFillLists(t.Contents(), te, cond);
    t.CreateTypeRules(te, false);
    t.CreateTypeRules(cond, true);
    out := AnalyzeTypes(t, attr, diff, equiv);
  }
}
