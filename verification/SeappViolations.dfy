/** The violation lists of tools/check_seapp.c. Each neverallow has one list node, which
    `list_append` puts into the list of every rule that violates it. */
module SeappViolations {
  import opened SeappRules

  /** A rule map: its keys, the node that links it into lists of violations, and the list of its
      own violations. */
  class RuleMap {
    const m: seq<KeyMap>
    const violations: List
    var next: RuleMap?

    constructor (m: seq<KeyMap>)
      ensures this.m == m && next == null && fresh(violations) && violations.head == null
    {
      this.m := m;
      this.violations := new List();
      this.next := null;
    }
  }

  class List {
    var head: RuleMap?
    var tail: RuleMap?

    constructor ()
      ensures head == null && tail == null
    {
      head, tail := null, null;
    }

    method Append(e: RuleMap)
      requires head != null ==> tail != null && tail != e
      modifies this, e`next, (if head == null then {} else {tail})`next
      ensures e.next == null && tail == e
      ensures if old(head) == null then head == e else head == old(head) && old(tail).next == e
    {
      e.next := null;
      if head == null {
        head := e;
        tail := e;
        return;
      }
      tail.next := e;
      tail := e;
    }
  }

  // ---------------------------------------------------------------------------------------
  // Rows of a matrix that says which rule violates which neverallow

  /** The first violated neverallow at i or after, or the number of neverallows. */
  ghost function Next(row: seq<bool>, i: nat): (k: nat)
    ensures i <= k && (i <= |row| ==> k <= |row|) && (k < |row| ==> row[k])
    ensures forall j | i <= j < k && j < |row| :: !row[j]
    decreases |row| - i
  {
    if i < |row| && !row[i] then Next(row, i + 1) else i
  }

  lemma {:induction false} NextSnoc(row: seq<bool>, b: bool, i: nat)
    requires i <= |row|
    ensures Next(row + [b], i) == if Next(row, i) < |row| then Next(row, i) else if b then |row| else |row| + 1
    decreases |row| - i
  {
    if i < |row| {
      assert (row + [b])[i] == row[i];
      if !row[i] { NextSnoc(row, b, i + 1); }
    } else {
      assert (row + [b])[i] == b;
    }
  }

  ghost predicate IsLast(row: seq<bool>, i: nat) {
    i < |row| && row[i] && Next(row, i + 1) == |row|
  }

  /** The next link of the neverallow i when the rules of all rows have been validated: set by the
      last rule that violates it; |ns| stands for null. */
  ghost function FinalNext(v: seq<seq<bool>>, n: nat, i: nat): (k: nat)
    requires forall row | row in v :: |row| == n
    requires i < n
    ensures i < k <= n
    decreases |v|
  {
    if v == [] then n
    else
      var last := v[|v| - 1];
      if last[i] then Next(last, i + 1) else FinalNext(v[..|v| - 1], n, i)
  }

  // ---------------------------------------------------------------------------------------
  // The procedures

  ghost function Node(ns: seq<RuleMap>, k: nat): RuleMap? {
    if k < |ns| then ns[k] else null
  }

  ghost predicate AllDifferent(ns: seq<RuleMap>) {
    forall i, j | 0 <= i < j < |ns| :: ns[i] != ns[j]
  }

  ghost function Row(rm: RuleMap, ns: seq<RuleMap>, matches: Matcher): seq<bool> {
    seq(|ns|, j requires 0 <= j < |ns| => Violates(rm.m, ns[j].m, matches))
  }

  /** A rule's list and the links of the n neverallows, as places among them; n stands for null. */
  datatype Links = Links(head: nat, tail: nat, next: seq<nat>)

  ghost predicate Stored(l: Links, list: List, ns: seq<RuleMap>)
    reads list, ns
  {
    && |l.next| == |ns| && list.head == Node(ns, l.head)
    && (list.head != null ==> l.tail < |ns| && list.tail == ns[l.tail])
    && forall j | 0 <= j < |ns| :: ns[j].next == Node(ns, l.next[j])
  }

  ghost function Appended(l: Links, c: nat): Links
    requires c < |l.next| && (l.head < |l.next| ==> l.tail < |l.next|)
  {
    var n := |l.next|;
    if n <= l.head then Links(c, c, l.next[c := n]) else Links(l.head, c, l.next[c := n][l.tail := c])
  }

  method AppendPlace(list: List, ns: seq<RuleMap>, ghost l: Links, c: nat)
    requires AllDifferent(ns) && c < |ns| && Stored(l, list, ns) && (l.head < |ns| ==> l.tail != c)
    modifies list, ns`next
    ensures Stored(Appended(l, c), list, ns)
  {
    list.Append(ns[c]);
  }

  ghost function Clip(k: nat, c: nat, n: nat): nat {
    if k < c then k else n
  }

  /** The neverallows before |row| have been checked, starting from an empty list and the links was. */
  ghost predicate Checked(l: Links, row: seq<bool>, was: seq<nat>) {
    var c, n := |row|, |was|;
    && c <= n == |l.next| && l.head == Clip(Next(row, 0), c, n)
    && (l.head < n ==> IsLast(row, l.tail))
    && (forall j | 0 <= j < n :: l.next[j] == if j < c && row[j] then Clip(Next(row, j + 1), c, n) else was[j])
  }

  lemma NothingChecked(next: seq<nat>, tail: nat)
    ensures Checked(Links(|next|, tail, next), [], next)
  {
  }

  lemma NextOfLonger(row: seq<bool>, b: bool)
    ensures forall i | 0 <= i <= |row| ::
      Next(row + [b], i) == if Next(row, i) < |row| then Next(row, i) else if b then |row| else |row| + 1
  {
    forall i | 0 <= i <= |row| ensures
      Next(row + [b], i) == if Next(row, i) < |row| then Next(row, i) else if b then |row| else |row| + 1
    {
      NextSnoc(row, b, i);
    }
  }

  /** Only the last violated neverallow has none after it. */
  lemma OnlyLastEnds(row: seq<bool>, t: nat)
    requires IsLast(row, t)
    ensures forall j | 0 <= j < |row| && row[j] :: Next(row, j + 1) < |row| <==> j != t
    ensures Next(row, 0) < |row|
  {
  }

  lemma {:induction false} NoneViolated(row: seq<bool>)
    requires |row| <= Next(row, 0)
    ensures forall j | 0 <= j < |row| :: !row[j]
  {
  }

  lemma Skipped(l: Links, row: seq<bool>, was: seq<nat>)
    requires Checked(l, row, was) && |row| < |was|
    ensures Checked(l, row + [false], was)
  {
    NextOfLonger(row, false);
    hide Next;
  }

  lemma Added(l: Links, row: seq<bool>, was: seq<nat>)
    requires Checked(l, row, was) && |row| < |was|
    ensures l.head < |was| ==> l.tail < |row|
    ensures Checked(Appended(l, |row|), row + [true], was)
  {
    NextOfLonger(row, true);
    if l.head < |was| {
      OnlyLastEnds(row, l.tail);
    } else {
      NoneViolated(row);
    }
    hide Next;
    var l', row' := Appended(l, |row|), row + [true];
    assert IsLast(row', |row|);
    forall j | 0 <= j < |was| ensures
      l'.next[j] == if j < |row'| && row'[j] then Clip(Next(row', j + 1), |row'|, |was|) else was[j]
    {
      assert j < |row| ==> row'[j] == row[j];
    }
  }

  lemma LinksFit(l: Links, row: seq<bool>, was: seq<nat>)
    requires Checked(l, row, was)
    ensures |l.next| == |was|
  {
  }

  lemma EmptyList(list: List, ns: seq<RuleMap>, was: seq<nat>)
    requires |was| == |ns| && list.head == null && forall j | 0 <= j < |ns| :: ns[j].next == Node(ns, was[j])
    ensures Stored(Links(|ns|, 0, was), list, ns)
  {
  }

  /** Checks a rule against every neverallow and collects the violated ones in its list. */
  method RuleMapValidate(rm: RuleMap, ns: seq<RuleMap>, matches: Matcher, ghost was: seq<nat>) returns (ghost l: Links)
    requires AllDifferent(ns) && Distinct(rm.m) && |was| == |ns| && rm.violations.head == null
    requires forall j | 0 <= j < |ns| :: ns[j].next == Node(ns, was[j])
    modifies rm.violations, ns`next
    ensures Checked(l, Row(rm, ns, matches), was) && Stored(l, rm.violations, ns)
  {
    hide Next, IsLast, Violates, Checked, Stored, Appended, AllDifferent, Distinct;
    ghost var row := Row(rm, ns, matches);
    l := Links(|ns|, 0, was);
    NothingChecked(was, 0);
    EmptyList(rm.violations, ns, was);
    for c := 0 to |ns|
      invariant Checked(l, row[..c], was) && Stored(l, rm.violations, ns)
    {
      l := CheckOne(rm, ns, matches, c, was, row, l);
    }
    assert row[..|ns|] == row;
  }

  /** One round of the loop over the neverallows. */
  method CheckOne(rm: RuleMap, ns: seq<RuleMap>, matches: Matcher, c: nat, ghost was: seq<nat>, ghost row: seq<bool>, ghost l: Links)
      returns (ghost l': Links)
    requires AllDifferent(ns) && Distinct(rm.m) && |was| == |ns| && c < |ns| && row == Row(rm, ns, matches)
    requires Checked(l, row[..c], was) && Stored(l, rm.violations, ns)
    modifies rm.violations, ns`next
    ensures Checked(l', row[..c + 1], was) && Stored(l', rm.violations, ns)
  {
    hide Next, IsLast, Violates, Checked, Stored, Appended, AllDifferent, Distinct;
    assert row[..c] + [row[c]] == row[..c + 1];
    LinksFit(l, row[..c], was);
    CountIsExact(ns[c].m, rm.m, matches);
    var cnt := CountMet(ns[c].m, rm.m, matches);
    if cnt == |ns[c].m| {
      Added(l, row[..c], was);
      AppendPlace(rm.violations, ns, l, c);
      l' := Appended(l, c);
    } else {
      Skipped(l, row[..c], was);
      l' := l;
    }
  }

  ghost function Rows(rules: seq<RuleMap>, ns: seq<RuleMap>, matches: Matcher): (v: seq<seq<bool>>)
    ensures |v| == |rules| && (forall row | row in v :: |row| == |ns|)
    ensures forall r | 0 <= r < |v| :: v[r] == Row(rules[r], ns, matches)
  {
    seq(|rules|, r requires 0 <= r < |rules| => Row(rules[r], ns, matches))
  }

  /** All rules and neverallows are objects of their own, with lists of their own. */
  ghost predicate Separate(rules: seq<RuleMap>, ns: seq<RuleMap>) {
    AllDifferent(ns) && forall i, j | 0 <= i < j < |rules| :: rules[i].violations != rules[j].violations
  }

  ghost function Violations(rules: seq<RuleMap>): set<List> {
    set r | 0 <= r < |rules| :: rules[r].violations
  }

  ghost function FinalLinks(v: seq<seq<bool>>, n: nat): (l: seq<nat>)
    requires forall row | row in v :: |row| == n
    ensures |l| == n && forall i | 0 <= i < n :: l[i] == FinalNext(v, n, i)
  {
    seq(n, i requires 0 <= i < n => FinalNext(v, n, i))
  }

  lemma LinksAfterRule(v: seq<seq<bool>>, row: seq<bool>, n: nat, l: Links)
    requires (forall r | r in v :: |r| == n) && |row| == n && Checked(l, row, FinalLinks(v, n))
    ensures (forall r | r in v + [row] :: |r| == n) && l.next == FinalLinks(v + [row], n)
  {
    hide Next;
    assert (v + [row])[..|v|] == v;
  }

  ghost predicate LinksAre(ns: seq<RuleMap>, next: seq<nat>)
    reads ns
  {
    |next| == |ns| && forall i | 0 <= i < |ns| :: ns[i].next == Node(ns, next[i])
  }

  /** The rules before r have been validated, the others not. */
  ghost predicate HeadsAre(rules: seq<RuleMap>, ns: seq<RuleMap>, v: seq<seq<bool>>, r: nat)
    requires |v| == |rules|
    reads set k | 0 <= k < |rules| :: rules[k].violations
  {
    (forall k | 0 <= k < |rules| && k < r :: rules[k].violations.head == Node(ns, Next(v[k], 0))) &&
    (forall k | r <= k < |rules| :: rules[k].violations.head == null)
  }

  method ValidateRule(rules: seq<RuleMap>, ns: seq<RuleMap>, matches: Matcher, ghost v: seq<seq<bool>>, r: nat)
    requires Separate(rules, ns) && v == Rows(rules, ns, matches) && r < |rules| && Distinct(rules[r].m)
    requires LinksAre(ns, FinalLinks(v[..r], |ns|)) && HeadsAre(rules, ns, v, r)
    modifies Violations(rules), ns`next
    ensures LinksAre(ns, FinalLinks(v[..r + 1], |ns|)) && HeadsAre(rules, ns, v, r + 1)
  {
    hide Next, FinalNext, Checked, Row, Rows, FinalLinks, Stored, Separate, AllDifferent, LinksAre, Node;
    OwnLists(rules, ns, r);
    ghost var was := FinalLinks(v[..r], |ns|);
    LinksMean(ns, was);
    var l := RuleMapValidate(rules[r], ns, matches, was);
    assert v[..r] + [v[r]] == v[..r + 1];
    LinksAfterRule(v[..r], v[r], |ns|, l);
    HeadOf(l, v[r], was);
    StoredMeans(l, rules[r].violations, ns);
  }

  lemma OwnLists(rules: seq<RuleMap>, ns: seq<RuleMap>, r: nat)
    requires Separate(rules, ns) && r < |rules|
    ensures AllDifferent(ns) && rules[r].violations in Violations(rules)
    ensures forall k | 0 <= k < |rules| && k != r :: rules[k].violations != rules[r].violations
  {
  }

  lemma LinksMean(ns: seq<RuleMap>, next: seq<nat>)
    requires LinksAre(ns, next)
    ensures |next| == |ns| && forall i | 0 <= i < |ns| :: ns[i].next == Node(ns, next[i])
  {
  }

  /** The first loop of `validate`: every rule's list starts at the first neverallow it violates,
      and every link is what the last rule to violate that neverallow made it. */
  method ValidateAll(rules: seq<RuleMap>, ns: seq<RuleMap>, matches: Matcher)
    requires Separate(rules, ns) && forall r | 0 <= r < |rules| :: Distinct(rules[r].m) && rules[r].violations.head == null
    requires forall i | 0 <= i < |ns| :: ns[i].next == null
    modifies Violations(rules), ns`next
    ensures var v := Rows(rules, ns, matches);
      HeadsAre(rules, ns, v, |rules|) && LinksAre(ns, FinalLinks(v, |ns|))
  {
    hide Next, FinalNext, Row, Rows, FinalLinks, Separate, Distinct;
    ghost var v := Rows(rules, ns, matches);
    NoRules(|ns|);
    assert v[..0] == [];
    for r := 0 to |rules|
      invariant LinksAre(ns, FinalLinks(v[..r], |ns|)) && HeadsAre(rules, ns, v, r)
    {
      ValidateRule(rules, ns, matches, v, r);
    }
    assert v[..|rules|] == v;
  }

  lemma StoredMeans(l: Links, list: List, ns: seq<RuleMap>)
    requires Stored(l, list, ns)
    ensures LinksAre(ns, l.next) && list.head == Node(ns, l.head)
  {
  }

  lemma NoRules(n: nat)
    ensures forall i | 0 <= i < n :: FinalLinks([], n)[i] == n
  {
  }

  lemma HeadOf(l: Links, row: seq<bool>, was: seq<nat>)
    requires Checked(l, row, was) && |row| == |was|
    ensures l.head == Next(row, 0)
  {
  }

  /** The neverallows that a walk meets from place i on. Links only point ahead, so it ends. */
  ghost function WalkFrom(v: seq<seq<bool>>, n: nat, i: nat): seq<nat>
    requires forall row | row in v :: |row| == n
    decreases n - i
  {
    if n <= i then [] else [i] + WalkFrom(v, n, FinalNext(v, n, i))
  }

  /** The neverallows reported for a rule. */
  ghost function Reported(v: seq<seq<bool>>, n: nat, r: nat): seq<nat>
    requires (forall row | row in v :: |row| == n) && r < |v|
  {
    WalkFrom(v, n, Next(v[r], 0))
  }

  ghost function Nodes(ns: seq<RuleMap>, places: seq<nat>): seq<RuleMap> {
    if places == [] then []
    else (if places[0] < |ns| then [ns[places[0]]] else []) + Nodes(ns, places[1..])
  }

  method WalkViolations(list: List, ns: seq<RuleMap>, ghost v: seq<seq<bool>>, ghost start: nat) returns (report: seq<RuleMap>)
    requires (forall row | row in v :: |row| == |ns|) && list.head == Node(ns, start)
    requires LinksAre(ns, FinalLinks(v, |ns|))
    ensures report == Nodes(ns, WalkFrom(v, |ns|, start))
    ensures report == [] <==> |ns| <= start
  {
    hide FinalNext, Nodes, WalkFrom;
    report := [];
    var e := list.head;
    assert [] + Nodes(ns, WalkFrom(v, |ns|, start)) == Nodes(ns, WalkFrom(v, |ns|, start));
    ghost var i := start;
    while e != null
      invariant e == Node(ns, i) && start <= i
      invariant report + Nodes(ns, WalkFrom(v, |ns|, i)) == Nodes(ns, WalkFrom(v, |ns|, start))
      invariant (report == [] <==> i == start) && (|ns| <= start ==> i == start)
      decreases |ns| - i
    {
      WalkStep(ns, v, i, report);
      report := report + [e];
      i := FinalNext(v, |ns|, i);
      e := e.next;
    }
    WalkEnds(ns, v, i, report);
  }

  lemma WalkStep(ns: seq<RuleMap>, v: seq<seq<bool>>, i: nat, report: seq<RuleMap>)
    requires (forall row | row in v :: |row| == |ns|) && i < |ns|
    ensures report + Nodes(ns, WalkFrom(v, |ns|, i))
      == (report + [ns[i]]) + Nodes(ns, WalkFrom(v, |ns|, FinalNext(v, |ns|, i)))
  {
    hide FinalNext;
  }

  lemma WalkEnds(ns: seq<RuleMap>, v: seq<seq<bool>>, i: nat, report: seq<RuleMap>)
    requires (forall row | row in v :: |row| == |ns|) && |ns| <= i
    ensures report + Nodes(ns, WalkFrom(v, |ns|, i)) == report
  {
  }

  /** Some rule has a first violation exactly when some rule violates something. */
  lemma VerdictIsRight(v: seq<seq<bool>>, n: nat)
    requires forall row | row in v :: |row| == n
    ensures (exists r :: 0 <= r < |v| && Next(v[r], 0) < n) <==> exists r, i :: 0 <= r < |v| && 0 <= i < n && v[r][i]
  {
    if r :| 0 <= r < |v| && Next(v[r], 0) < n {
      assert v[r][Next(v[r], 0)];
    }
    if r, i :| 0 <= r < |v| && 0 <= i < n && v[r][i] {
      assert |v[r]| == n && Next(v[r], 0) <= i;
    }
  }

  ghost predicate SomeViolation(v: seq<seq<bool>>, n: nat, r: nat) {
    exists k :: 0 <= k < r && k < |v| && Next(v[k], 0) < n
  }

  /** The second loop of `validate`: the walk over every rule's list. */
  method ReportAll(rules: seq<RuleMap>, ns: seq<RuleMap>, ghost v: seq<seq<bool>>)
    returns (foundIssues: bool, reports: seq<seq<RuleMap>>)
    requires |v| == |rules| && (forall row | row in v :: |row| == |ns|)
    requires HeadsAre(rules, ns, v, |rules|) && LinksAre(ns, FinalLinks(v, |ns|))
    ensures foundIssues == SomeViolation(v, |ns|, |rules|) && |reports| == |rules|
    ensures forall r | 0 <= r < |rules| :: reports[r] == Nodes(ns, Reported(v, |ns|, r))
  {
    hide Next, FinalNext, Nodes, WalkFrom, FinalLinks, LinksAre;
    foundIssues := false;
    reports := [];
    for r := 0 to |rules|
      invariant |reports| == r && forall k | 0 <= k < r :: reports[k] == Nodes(ns, Reported(v, |ns|, k))
      invariant foundIssues == SomeViolation(v, |ns|, r)
    {
      var report := WalkViolations(rules[r].violations, ns, v, Next(v[r], 0));
      if report != [] {
        foundIssues := true;
      }
      reports := reports + [report];
    }
  }

  ghost predicate SomeRuleViolates(rules: seq<RuleMap>, ns: seq<RuleMap>, matches: Matcher) {
    exists r, i :: 0 <= r < |rules| && 0 <= i < |ns| && Violates(rules[r].m, ns[i].m, matches)
  }

  /** `validate`: it fails exactly when some rule violates some neverallow, or on a coredomain
      violation; and what it reports for each rule. */
  method Validate(rules: seq<RuleMap>, ns: seq<RuleMap>, matches: Matcher, coredomainViolations: nat)
    returns (foundIssues: bool, reports: seq<seq<RuleMap>>)
    requires Separate(rules, ns) && forall r | 0 <= r < |rules| :: Distinct(rules[r].m) && rules[r].violations.head == null
    requires forall i | 0 <= i < |ns| :: ns[i].next == null
    modifies Violations(rules), ns`next
    ensures foundIssues <==> coredomainViolations > 0 || SomeRuleViolates(rules, ns, matches)
    ensures |reports| == |rules|
    ensures forall r | 0 <= r < |rules| :: reports[r] == Nodes(ns, Reported(Rows(rules, ns, matches), |ns|, r))
  {
    hide Separate, Distinct, Next, Rows, HeadsAre, LinksAre, Nodes, Reported, FinalLinks, Violates;
    ghost var v := Rows(rules, ns, matches);
    ValidateAll(rules, ns, matches);
    foundIssues, reports := ReportAll(rules, ns, v);
    VerdictIsRight(v, |ns|);
    if r, i :| 0 <= r < |rules| && 0 <= i < |ns| && Violates(rules[r].m, ns[i].m, matches) {
      assert v[r][i];
    }
    if coredomainViolations > 0 {
      foundIssues := true;
    }
  }

  // ---------------------------------------------------------------------------------------
  // What sharing the nodes does to the reports

  /** The neverallows a rule violates, in order. */
  ghost function ViolatedFrom(row: seq<bool>, i: nat): seq<nat>
    decreases |row| - i
  {
    if |row| <= i then [] else if row[i] then [i] + ViolatedFrom(row, i + 1) else ViolatedFrom(row, i + 1)
  }

  /** No link from place i on that belongs to the list of r has been moved by a later rule. */
  ghost predicate Unshared(v: seq<seq<bool>>, n: nat, r: nat, i: nat)
    requires (forall row | row in v :: |row| == n) && r < |v|
  {
    forall j | i <= j < n && v[r][j] :: FinalNext(v, n, j) == Next(v[r], j + 1)
  }

  lemma {:induction false} ViolatedSkips(row: seq<bool>, i: nat)
    ensures ViolatedFrom(row, i) == ViolatedFrom(row, Next(row, i))
    decreases |row| - i
  {
    if i < |row| && !row[i] {
      ViolatedSkips(row, i + 1);
    }
  }

  lemma UnsharedStep(v: seq<seq<bool>>, n: nat, r: nat, i: nat)
    requires (forall row | row in v :: |row| == n) && r < |v| && i < n && v[r][i]
    ensures var k := Next(v[r], i + 1);
      k <= n && (k < n ==> v[r][k]) && (Unshared(v, n, r, i) <==> FinalNext(v, n, i) == k && Unshared(v, n, r, k))
  {
    hide FinalNext;
    assert v[r] in v;
  }

  lemma ViolatedStep(row: seq<bool>, i: nat)
    requires i < |row| && row[i]
    ensures ViolatedFrom(row, i) == [i] + ViolatedFrom(row, Next(row, i + 1))
  {
    ViolatedSkips(row, i + 1);
  }

  lemma FromStartsAt(v: seq<seq<bool>>, n: nat, r: nat, i: nat, k: nat)
    requires (forall row | row in v :: |row| == n) && r < |v| && i <= n && k <= n && (k < n ==> v[r][k])
    ensures i != k ==> WalkFrom(v, n, i) != ViolatedFrom(v[r], k)
  {
    hide FinalNext;
    assert v[r] in v;
    assert i < n ==> WalkFrom(v, n, i)[0] == i;
    assert k < n ==> ViolatedFrom(v[r], k)[0] == k;
  }

  lemma {:induction false} WalkIsViolated(v: seq<seq<bool>>, n: nat, r: nat, i: nat)
    requires (forall row | row in v :: |row| == n) && r < |v| && i <= n
    requires i < n ==> v[r][i]
    ensures WalkFrom(v, n, i) == ViolatedFrom(v[r], i) <==> Unshared(v, n, r, i)
    decreases n - i
  {
    assert v[r] in v;
    if i < n {
      var k, f := Next(v[r], i + 1), FinalNext(v, n, i);
      UnsharedStep(v, n, r, i);
      ViolatedStep(v[r], i);
      FromStartsAt(v, n, r, f, k);
      var x, y := WalkFrom(v, n, f), ViolatedFrom(v[r], k);
      assert WalkFrom(v, n, i) == [i] + x;
      hide Unshared, Next, FinalNext, WalkFrom, ViolatedFrom;
      assert [i] + x == [i] + y <==> x == y by {
        assert ([i] + x)[1..] == x && ([i] + y)[1..] == y;
      }
      if f == k {
        WalkIsViolated(v, n, r, k);
      }
    }
  }

  /** A rule's report is right exactly when no later rule has moved a link of its list. */
  lemma ReportIsRight(v: seq<seq<bool>>, n: nat, r: nat)
    requires (forall row | row in v :: |row| == n) && r < |v|
    ensures Reported(v, n, r) == ViolatedFrom(v[r], 0) <==> Unshared(v, n, r, 0)
  {
    assert v[r] in v;
    WalkIsViolated(v, n, r, Next(v[r], 0));
    ViolatedSkips(v[r], 0);
    hide FinalNext;
  }

  /** Rule k is the last one to violate the neverallow j. */
  ghost predicate LastViolator(v: seq<seq<bool>>, k: nat, j: nat)
    requires forall row | row in v :: j < |row|
  {
    k < |v| && j < |v[k]| && v[k][j] && forall k' | k < k' < |v| :: j < |v[k']| && !v[k'][j]
  }

  lemma {:induction false} LastViolatorLinks(v: seq<seq<bool>>, n: nat, k: nat, j: nat)
    requires (forall row | row in v :: |row| == n) && j < n && LastViolator(v, k, j)
    ensures FinalNext(v, n, j) == Next(v[k], j + 1)
    decreases |v|
  {
    hide Next;
    if k < |v| - 1 {
      var v' := v[..|v| - 1];
      assert v'[k] == v[k] && forall k' | 0 <= k' < |v'| :: v'[k'] == v[k'];
      assert LastViolator(v', k, j);
      LastViolatorLinks(v', n, k, j);
    }
  }

  lemma {:induction false} SomeLastViolator(v: seq<seq<bool>>, n: nat, r: nat, j: nat) returns (k: nat)
    requires (forall row | row in v :: |row| == n) && j < n && r < |v| && v[r][j]
    ensures LastViolator(v, k, j)
    decreases |v| - r
  {
    assert forall k' | 0 <= k' < |v| :: v[k'] in v;
    if k' :| r < k' < |v| && v[k'][j] {
      k := SomeLastViolator(v, n, k', j);
    } else {
      k := r;
    }
  }

  /** In terms of the violations alone: a rule's report is right exactly if, for each neverallow that it
      violates, the last rule to violate that one goes on to the same next violation. */
  lemma ReportIsRightExactly(v: seq<seq<bool>>, n: nat, r: nat)
    requires (forall row | row in v :: |row| == n) && r < |v|
    ensures Reported(v, n, r) == ViolatedFrom(v[r], 0)
      <==> forall j, k | 0 <= j < n && 0 <= k < |v| && v[r][j] && LastViolator(v, k, j) :: Next(v[k], j + 1) == Next(v[r], j + 1)
  {
    hide Next, Reported, ViolatedFrom, LastViolator, FinalNext;
    assert v[r] in v;
    ReportIsRight(v, n, r);
    forall j, k | 0 <= j < n && 0 <= k < |v| && LastViolator(v, k, j) ensures FinalNext(v, n, j) == Next(v[k], j + 1) {
      LastViolatorLinks(v, n, k, j);
    }
    forall j | 0 <= j < n && v[r][j] ensures exists k :: 0 <= k < |v| && LastViolator(v, k, j) {
      var k := SomeLastViolator(v, n, r, j);
      LastIsRule(v, n, k, j);
    }
  }

  lemma LastIsRule(v: seq<seq<bool>>, n: nat, k: nat, j: nat)
    requires (forall row | row in v :: |row| == n) && j < n && LastViolator(v, k, j)
    ensures k < |v|
  {
  }

  /** Whatever is shared, the last rule's report is right, and so is the first violation reported
      for any rule; and nothing is reported that no rule violates. */
  lemma ReportsAreRooted(v: seq<seq<bool>>, n: nat, r: nat)
    requires (forall row | row in v :: |row| == n) && r < |v|
    ensures r == |v| - 1 ==> Reported(v, n, r) == ViolatedFrom(v[r], 0)
    ensures (Reported(v, n, r) == [] <==> ViolatedFrom(v[r], 0) == []) &&
      (Reported(v, n, r) != [] ==> Reported(v, n, r)[0] == ViolatedFrom(v[r], 0)[0])
    ensures forall i | i in Reported(v, n, r) :: exists k :: 0 <= k < |v| && i < n && v[k][i]
  {
    assert v[r] in v;
    ReportIsRight(v, n, r);
    ViolatedSkips(v[r], 0);
    WalkIsReal(v, n, r, Next(v[r], 0));
  }

  lemma {:induction false} FinalNextIsReal(v: seq<seq<bool>>, n: nat, i: nat)
    requires (forall row | row in v :: |row| == n) && i < n
    ensures FinalNext(v, n, i) < n ==> exists k :: 0 <= k < |v| && v[k][FinalNext(v, n, i)]
    decreases |v|
  {
    if v != [] && !v[|v| - 1][i] {
      FinalNextIsReal(v[..|v| - 1], n, i);
      if FinalNext(v, n, i) < n {
        var k :| 0 <= k < |v| - 1 && v[..|v| - 1][k][FinalNext(v, n, i)];
        assert v[k][FinalNext(v, n, i)];
      }
    } else if v != [] && FinalNext(v, n, i) < n {
      assert v[|v| - 1][FinalNext(v, n, i)];
    }
  }

  lemma {:induction false} WalkIsReal(v: seq<seq<bool>>, n: nat, r: nat, i: nat)
    requires (forall row | row in v :: |row| == n) && i < n ==> exists k :: 0 <= k < |v| && v[k][i]
    requires forall row | row in v :: |row| == n
    ensures forall j | j in WalkFrom(v, n, i) :: exists k :: 0 <= k < |v| && j < n && v[k][j]
    decreases n - i
  {
    if i < n {
      FinalNextIsReal(v, n, i);
      WalkIsReal(v, n, r, FinalNext(v, n, i));
    }
  }
}
