/** From the lines of seapp_contexts to the verdict (tools/check_seapp.c): rule maps are made of the lines,
    and the rules are checked against the neverallows. */
module SeappLines {
  import opened Options
  import opened SeappRules
  import opened SeappViolations

  type Pairs = seq<Kvp>

  /** A line that is not empty and no comment. */
  datatype Line = Line(isNeverAllow: bool, keys: Pairs)

  /** The pairs of the rules, or of the neverallows, in the order of the lines. */
  function Kind(lines: seq<Line>, isNeverAllow: bool): seq<Pairs> {
    if lines == [] then []
    else
      var l, before := lines[|lines| - 1], Kind(lines[..|lines| - 1], isNeverAllow);
      if l.isNeverAllow == isNeverAllow then before + [l.keys] else before
  }

  function HashOf(l: Line): string {
    HashKey(l.keys, l.isNeverAllow)
  }

  /** `key_map_validate`: the validator of a rule's key, or for a neverallow whether the value compiles. */
  datatype Checks = Checks(validate: Validator, compiles: string -> bool) {
    function For(isNeverAllow: bool): Validator {
      if isNeverAllow then (e, value) => compiles(value) else validate
    }
  }

  /** The line makes a rule map. */
  ghost predicate Makes(l: Line, checks: Checks) {
    Acceptable(l.keys, l.isNeverAllow, checks.For(l.isNeverAllow))
  }

  /** The tool gets past these lines: each makes a rule map, and no two of them, whether rules or
      neverallows, have the same hash key. */
  ghost predicate Readable(lines: seq<Line>, checks: Checks) {
    && (forall i | 0 <= i < |lines| :: Makes(lines[i], checks))
    && forall i, j | 0 <= i < j < |lines| :: HashOf(lines[i]) != HashOf(lines[j])
  }

  lemma ReadableNext(lines: seq<Line>, checks: Checks, i: nat)
    requires i < |lines|
    ensures Readable(lines[..i + 1], checks) <==> (
      && Readable(lines[..i], checks) && Makes(lines[i], checks)
      && forall k | 0 <= k < i :: HashOf(lines[k]) != HashOf(lines[i]))
    ensures Readable(lines, checks) ==> Readable(lines[..i + 1], checks)
  {
    hide Makes, HashOf;
    if Readable(lines[..i + 1], checks) {
      assert lines[..i + 1][i] == lines[i] && forall k | 0 <= k < i :: lines[..i + 1][k] == lines[k];
    }
  }

  /** The hash table holds the keys of the lines before i. */
  ghost predicate TableHolds(lines: seq<Line>, i: nat, table: set<string>)
    requires i <= |lines|
  {
    (forall k | 0 <= k < i :: HashOf(lines[k]) in table) && forall s | s in table :: exists k :: 0 <= k < i && HashOf(lines[k]) == s
  }

  lemma TableNext(lines: seq<Line>, i: nat, table: set<string>)
    requires i < |lines| && TableHolds(lines, i, table)
    ensures TableHolds(lines, i + 1, table + {HashOf(lines[i])})
    ensures HashOf(lines[i]) in table <==> exists k :: 0 <= k < i && HashOf(lines[k]) == HashOf(lines[i])
  {
    hide HashOf;
  }

  lemma KindNext(lines: seq<Line>, isNeverAllow: bool, i: nat)
    requires i < |lines|
    ensures Kind(lines[..i + 1], isNeverAllow)
      == if lines[i].isNeverAllow == isNeverAllow then Kind(lines[..i], isNeverAllow) + [lines[i].keys] else Kind(lines[..i], isNeverAllow)
  {
    assert lines[..i + 1][..i] == lines[..i];
  }

  /** The rule maps of some lines are different objects with lists of their own, and hold the lines' keys. */
  ghost predicate MapsHold(lines: seq<Pairs>, maps: seq<RuleMap>)
    reads maps, set i | 0 <= i < |maps| :: maps[i].violations
  {
    && |maps| == |lines|
    && (forall i | 0 <= i < |maps| :: maps[i].m == MapOf(lines[i]) && Distinct(maps[i].m))
    && (forall i | 0 <= i < |maps| :: maps[i].next == null && maps[i].violations.head == null)
    && (forall i, j | 0 <= i < j < |maps| :: maps[i] != maps[j] && maps[i].violations != maps[j].violations)
  }

  /** `rule_map_new` for one line: a new object. */
  method NewMap(l: Line, checks: Checks) returns (rm: RuleMap?, key: string)
    ensures rm != null <==> Makes(l, checks)
    ensures rm != null ==> rm.m == MapOf(l.keys) && Distinct(rm.m) && key == HashOf(l)
    ensures rm != null ==> rm.next == null && rm.violations.head == null && fresh(rm) && fresh(rm.violations)
  {
    hide Acceptable, MapOf, Distinct, HashKey, FromTable, Checks.For;
    var r;
    r, key := RuleMapNew(l.keys, l.isNeverAllow, checks.For(l.isNeverAllow));
    rm := null;
    if r.Some? {
      rm := new RuleMap(r.value);
    }
  }

  /** The loop of `parse_file` with `rule_add`: a line whose key is in the hash table already ends the
      program with an error; the others go to the list of rules or of neverallows. */
  method ReadLines(lines: seq<Line>, checks: Checks) returns (ok: bool, rules: seq<RuleMap>, ns: seq<RuleMap>)
    ensures ok == Readable(lines, checks)
    ensures ok ==> MapsHold(Kind(lines, false), rules) && MapsHold(Kind(lines, true), ns)
    ensures forall i | 0 <= i < |rules| :: fresh(rules[i]) && fresh(rules[i].violations)
    ensures forall i | 0 <= i < |ns| :: fresh(ns[i]) && fresh(ns[i].violations)
  {
    hide Makes, MapOf, Distinct, Kind, HashOf, Readable, TableHolds;
    rules, ns := [], [];
    var table := {};
    NothingRead(lines, checks);
    for i := 0 to |lines|
      invariant Readable(lines[..i], checks) && TableHolds(lines, i, table)
      invariant MapsHold(Kind(lines[..i], false), rules) && MapsHold(Kind(lines[..i], true), ns)
      invariant forall k | 0 <= k < |rules| :: fresh(rules[k]) && fresh(rules[k].violations)
      invariant forall k | 0 <= k < |ns| :: fresh(ns[k]) && fresh(ns[k].violations)
    {
      ReadableNext(lines, checks, i);
      TableNext(lines, i, table);
      KindNext(lines, false, i);
      KindNext(lines, true, i);
      var rm, key := NewMap(lines[i], checks);
      if rm == null {
        return false, rules, ns;
      }
      if key in table {
        return false, rules, ns;
      }
      table := table + {key};
      if lines[i].isNeverAllow {
        ns := ns + [rm];
      } else {
        rules := rules + [rm];
      }
    }
    assert lines[..|lines|] == lines;
    ok := true;
  }

  lemma NothingRead(lines: seq<Line>, checks: Checks)
    ensures Readable(lines[..0], checks) && TableHolds(lines, 0, {}) && Kind(lines[..0], false) == [] && Kind(lines[..0], true) == []
  {
  }

  /** Which rule line violates which neverallow line. */
  ghost function LineRows(lines: seq<Pairs>, nevers: seq<Pairs>, matches: Matcher): (v: seq<seq<bool>>)
    ensures |v| == |lines| && forall row | row in v :: |row| == |nevers|
  {
    seq(|lines|, r requires 0 <= r < |lines| =>
      seq(|nevers|, j requires 0 <= j < |nevers| => Violates(MapOf(lines[r]), MapOf(nevers[j]), matches)))
  }

  /** The same for the lines of the tool's input. */
  ghost function RowsIn(lines: seq<Line>, matches: Matcher): (v: seq<seq<bool>>)
    ensures |v| == |Kind(lines, false)| && forall row | row in v :: |row| == |Kind(lines, true)|
  {
    LineRows(Kind(lines, false), Kind(lines, true), matches)
  }

  ghost predicate SomeLineViolates(lines: seq<Pairs>, nevers: seq<Pairs>, matches: Matcher) {
    exists r, j :: 0 <= r < |lines| && 0 <= j < |nevers| && Violates(MapOf(lines[r]), MapOf(nevers[j]), matches)
  }

  lemma RowsOfLines(lines: seq<Pairs>, nevers: seq<Pairs>, rules: seq<RuleMap>, ns: seq<RuleMap>, matches: Matcher)
    requires MapsHold(lines, rules) && MapsHold(nevers, ns)
    ensures Rows(rules, ns, matches) == LineRows(lines, nevers, matches)
    ensures SomeRuleViolates(rules, ns, matches) <==> SomeLineViolates(lines, nevers, matches)
  {
    hide MapOf, Violates, Distinct;
    var v, w := Rows(rules, ns, matches), LineRows(lines, nevers, matches);
    forall r | 0 <= r < |lines| ensures v[r] == w[r] {
    }
  }

  /** Lines in, verdict out: a line that makes no rule map, or has the hash key of another line, ends the
      program with an error; otherwise it fails exactly if some line violates some neverallow or there is a
      coredomain violation. What is reported for each line follows from the violations alone. */
  method CheckLines(lines: seq<Line>, checks: Checks, matches: Matcher, coredomainViolations: nat)
    returns (r: Option<(bool, seq<seq<RuleMap>>)>, ns: seq<RuleMap>)
    ensures r.Some? <==> Readable(lines, checks)
    ensures r.Some? ==> (r.value.0 <==> coredomainViolations > 0 || SomeLineViolates(Kind(lines, false), Kind(lines, true), matches))
    ensures r.Some? ==> |r.value.1| == |Kind(lines, false)| && |ns| == |Kind(lines, true)|
    ensures r.Some? ==> forall j | 0 <= j < |ns| :: ns[j].m == MapOf(Kind(lines, true)[j])
    ensures r.Some? ==> forall i | 0 <= i < |Kind(lines, false)| ::
      r.value.1[i] == Nodes(ns, Reported(RowsIn(lines, matches), |ns|, i))
  {
    hide Readable, MapOf, Distinct, Kind, Nodes, Reported, Rows, LineRows, SomeRuleViolates, SomeLineViolates;
    var ok, rules;
    ok, rules, ns := ReadLines(lines, checks);
    if !ok {
      return None, ns;
    }
    RowsOfLines(Kind(lines, false), Kind(lines, true), rules, ns, matches);
    var found, reports := Validate(rules, ns, matches, coredomainViolations);
    r := Some((found, reports));
  }

  // ---------------------------------------------------------------------------------------
  // What sharing does to the reports of actual lines

  /** Pairs with a known key, a value that is no check for absence, and one value for each key. */
  ghost predicate Plain(a: Kvp, line: Pairs, matches: Matcher) {
    && EntryOf(a) < |RULES| && matches(a.value, a.value) && a.value != NULL_CHECK
    && forall b | b in line :: EntryOf(b) < |RULES| && (EntryOf(b) == EntryOf(a) ==> b == a)
  }

  lemma NameOfEntry(line: Pairs, i: nat)
    requires i < |line| && EntryOf(line[i]) < |RULES|
    ensures MapOf(line)[i].name == RULES[EntryOf(line[i])].name && MapOf(line)[i].data == line[i].value
  {
    hide RULES, EntryOf;
  }

  /** A neverallow of one pair is violated by the lines that hold the pair. */
  lemma OnePair(a: Kvp, line: Pairs, matches: Matcher)
    requires Plain(a, line, matches)
    ensures Violates(MapOf(line), MapOf([a]), matches) <==> a in line
  {
    RulesDiffer();
    NameOfEntry([a], 0);
    forall i | 0 <= i < |line| ensures MapOf(line)[i].name == RULES[EntryOf(line[i])].name && MapOf(line)[i].data == line[i].value {
      assert line[i] in line;
      NameOfEntry(line, i);
    }
    hide RULES, EntryOf, MapOf;
    var n, rm := MapOf([a])[0], MapOf(line);
    MapLength(line);
    MapLength([a]);
    if a in line {
      var i :| 0 <= i < |line| && line[i] == a;
      assert rm[i].name == n.name && matches(n.data, rm[i].data);
    } else {
      forall i | 0 <= i < |rm| ensures rm[i].name != n.name {
        assert line[i] in line;
      }
    }
    assert Met(n, rm, matches) <==> a in line;
  }

  lemma KnownPair(line: Pairs, i: nat, n: Kvp)
    requires i < |line| && EntryOf(line[i]) < |RULES| && EntryOf(n) < |RULES|
    ensures MapOf(line)[i].name == MapOf([n])[0].name <==> EntryOf(line[i]) == EntryOf(n)
    ensures MapOf(line)[i].data == line[i].value && MapOf([n])[0].data == n.value
  {
    RulesDiffer();
    NameOfEntry(line, i);
    NameOfEntry([n], 0);
    hide RULES, EntryOf, MapOf;
  }

  /** What a line's pairs are. */
  ghost predicate AllKnown(line: Pairs) {
    forall i | 0 <= i < |line| :: EntryOf(line[i]) < |RULES|
  }

  ghost predicate GivesKey(line: Pairs, n: Kvp) {
    exists i :: 0 <= i < |line| && EntryOf(line[i]) == EntryOf(n)
  }

  /** A line meets one pair of a neverallow: it has a value for the key, and the pattern of the neverallow
      matches it; or it has none, and the pair asks for none, with a written `""`. */
  ghost predicate Meets(line: Pairs, n: Kvp, matches: Matcher) {
    if GivesKey(line, n) then exists i :: 0 <= i < |line| && EntryOf(line[i]) == EntryOf(n) && matches(n.value, line[i].value)
    else n.value == ['"', '"']
  }

  lemma PairIsMet(line: Pairs, n: Kvp, matches: Matcher)
    requires AllKnown(line) && EntryOf(n) < |RULES|
    ensures Met(MapOf([n])[0], MapOf(line), matches) <==> Meets(line, n, matches)
  {
    hide RULES, EntryOf, MapOf;
    MapLength(line);
    MapLength([n]);
    var k, rm := MapOf([n])[0], MapOf(line);
    forall i | 0 <= i < |line|
      ensures rm[i].name == k.name <==> EntryOf(line[i]) == EntryOf(n)
      ensures rm[i].data == line[i].value && k.data == n.value
    {
      KnownPair(line, i, n);
    }
    NullValue(n);
    if GivesKey(line, n) {
      var i :| 0 <= i < |line| && EntryOf(line[i]) == EntryOf(n);
      assert rm[i].name == k.name && HasKey(rm, k.name);
    }
  }

  lemma NullValue(n: Kvp)
    ensures |MapOf([n])| == 1 && MapOf([n])[0].data == n.value
    ensures n.value == NULL_CHECK <==> n.value == ['"', '"']
  {
    hide EntryOf, RULES;
  }

  /** A line violates a neverallow exactly if it meets every pair of it. */
  lemma ViolatesExactly(line: Pairs, never: Pairs, matches: Matcher)
    requires AllKnown(line) && AllKnown(never)
    ensures Violates(MapOf(line), MapOf(never), matches) <==> forall j | 0 <= j < |never| :: Meets(line, never[j], matches)
  {
    hide RULES, EntryOf, MapOf, Meets, Met;
    MapLength(never);
    forall j | 0 <= j < |never| ensures Met(MapOf(never)[j], MapOf(line), matches) <==> Meets(line, never[j], matches) {
      PairIsMet(line, never[j], matches);
      SamePair(never, j);
    }
  }

  lemma SamePair(never: Pairs, j: nat)
    requires j < |never|
    ensures |MapOf(never)| == |never| && |MapOf([never[j]])| == 1 && MapOf(never)[j] == MapOf([never[j]])[0]
  {
    hide RULES, EntryOf;
  }

  lemma MapLength(line: Pairs)
    ensures |MapOf(line)| == |line|
  {
    hide EntryOf, RULES;
  }

  /** Pairs of three different keys. */
  ghost predicate ThreeKeys(a: Kvp, b: Kvp, c: Kvp, matches: Matcher) {
    && EntryOf(a) < |RULES| && EntryOf(b) < |RULES| && EntryOf(c) < |RULES|
    && EntryOf(a) != EntryOf(b) && EntryOf(a) != EntryOf(c) && EntryOf(b) != EntryOf(c)
    && (forall x | x in [a, b, c] :: matches(x.value, x.value) && x.value != NULL_CHECK)
  }

  lemma PairsArePlain(a: Kvp, b: Kvp, c: Kvp, matches: Matcher, line: Pairs, x: Kvp)
    requires ThreeKeys(a, b, c, matches) && (line == [a, b] || line == [a, c] || line == [b, c]) && (x == a || x == b || x == c)
    ensures Violates(MapOf(line), MapOf([x]), matches) <==> x in line
  {
    hide RULES, MapOf, Violates, EntryOf;
    assert [a, b, c][0] == a && [a, b, c][1] == b && [a, b, c][2] == c && x in [a, b, c];
    OnePair(x, line, matches);
  }

  lemma TwoRows(a: Kvp, b: Kvp, c: Kvp, matches: Matcher)
    requires ThreeKeys(a, b, c, matches)
    ensures LineRows([[a, b], [a, c]], [[a], [b]], matches) == [[true, true], [true, false]]
  {
    hide EntryOf, MapOf, Violates, RULES;
    PairsArePlain(a, b, c, matches, [a, b], a);
    PairsArePlain(a, b, c, matches, [a, b], b);
    PairsArePlain(a, b, c, matches, [a, c], a);
    PairsArePlain(a, b, c, matches, [a, c], b);
    var v := LineRows([[a, b], [a, c]], [[a], [b]], matches);
    assert v[0] == [true, true] && v[1] == [true, false];
  }

  lemma ThreeRows(a: Kvp, b: Kvp, c: Kvp, matches: Matcher)
    requires ThreeKeys(a, b, c, matches)
    ensures LineRows([[a, b], [b, c]], [[a], [b], [c]], matches) == [[true, true, false], [false, true, true]]
  {
    hide EntryOf, MapOf, Violates, RULES;
    PairsArePlain(a, b, c, matches, [a, b], a);
    PairsArePlain(a, b, c, matches, [a, b], b);
    PairsArePlain(a, b, c, matches, [a, b], c);
    PairsArePlain(a, b, c, matches, [b, c], a);
    PairsArePlain(a, b, c, matches, [b, c], b);
    PairsArePlain(a, b, c, matches, [b, c], c);
    var w := LineRows([[a, b], [b, c]], [[a], [b], [c]], matches);
    assert w[0] == [true, true, false] && w[1] == [false, true, true];
  }

  lemma ViolationLost()
    ensures Reported([[true, true], [true, false]], 2, 0) == [0] && ViolatedFrom([true, true], 0) == [0, 1]
  {
    var v := [[true, true], [true, false]];
    assert FinalNext(v, 2, 0) == Next([true, false], 1) == 2;
  }

  lemma ViolationAdded()
    ensures Reported([[true, true, false], [false, true, true]], 3, 0) == [0, 1, 2] && ViolatedFrom([true, true, false], 0) == [0, 1]
  {
    var w := [[true, true, false], [false, true, true]];
    assert w[..1] == [[true, true, false]];
    assert FinalNext(w, 3, 1) == Next([false, true, true], 2) == 2;
    assert FinalNext(w, 3, 2) == Next([false, true, true], 3) == 3;
    assert FinalNext(w, 3, 0) == FinalNext([[true, true, false]], 3, 0) == Next([true, true, false], 1) == 1;
  }

  /** The neverallows first, then the rules. */
  function Input(nevers: seq<Pairs>, rules: seq<Pairs>): seq<Line> {
    Of(true, nevers) + Of(false, rules)
  }

  function Of(isNeverAllow: bool, lines: seq<Pairs>): seq<Line> {
    if lines == [] then [] else [Line(isNeverAllow, lines[0])] + Of(isNeverAllow, lines[1..])
  }

  lemma {:induction false} KindAppend(xs: seq<Line>, ys: seq<Line>, isNeverAllow: bool)
    ensures Kind(xs + ys, isNeverAllow) == Kind(xs, isNeverAllow) + Kind(ys, isNeverAllow)
    decreases |ys|
  {
    if ys == [] {
      assert xs + ys == xs;
    } else {
      assert (xs + ys)[..|xs + ys| - 1] == xs + ys[..|ys| - 1];
      KindAppend(xs, ys[..|ys| - 1], isNeverAllow);
    }
  }

  lemma {:induction false} KindOf(isNeverAllow: bool, lines: seq<Pairs>)
    ensures Kind(Of(isNeverAllow, lines), isNeverAllow) == lines && Kind(Of(isNeverAllow, lines), !isNeverAllow) == []
  {
    if lines != [] {
      var l := Line(isNeverAllow, lines[0]);
      KindAppend([l], Of(isNeverAllow, lines[1..]), isNeverAllow);
      KindAppend([l], Of(isNeverAllow, lines[1..]), !isNeverAllow);
      KindOf(isNeverAllow, lines[1..]);
      assert [l][..0] == [] && Kind([l], isNeverAllow) == [lines[0]] && Kind([l], !isNeverAllow) == [];
    }
  }

  lemma KindsOfInput(nevers: seq<Pairs>, rules: seq<Pairs>)
    ensures Kind(Input(nevers, rules), true) == nevers && Kind(Input(nevers, rules), false) == rules
  {
    KindAppend(Of(true, nevers), Of(false, rules), true);
    KindAppend(Of(true, nevers), Of(false, rules), false);
    KindOf(true, nevers);
    KindOf(false, rules);
  }

  lemma UserIsKey()
    ensures FindEntry("user", 0) == 2
  {
    assert |RULES[0].name| > 4 && |RULES[1].name| > 4 && SameNoCase("user", RULES[2].name);
    hide SameNoCase;
    OtherLength("user", 0);
    OtherLength("user", 1);
  }

  lemma OtherLength(key: string, i: nat)
    requires i < |RULES| && |RULES[i].name| != |key|
    ensures !SameNoCase(key, RULES[i].name)
  {
  }

  lemma SeinfoIsKey()
    ensures FindEntry("seinfo", 0) == 3
  {
    assert |RULES[0].name| > 6 && |RULES[1].name| > 6 && |RULES[2].name| == 4 && SameNoCase("seinfo", RULES[3].name);
    hide SameNoCase;
    OtherLength("seinfo", 0);
    OtherLength("seinfo", 1);
    OtherLength("seinfo", 2);
  }

  lemma DomainIsKey()
    ensures FindEntry("domain", 0) == 11 && RULES[11].dir == Out
  {
    assert SameNoCase("domain", RULES[11].name);
    assert forall i | 0 <= i < 11 :: |RULES[i].name| != 6 || i == 3;
    assert Lower("domain"[0]) != Lower("seinfo"[0]) && !SameNoCase("domain", RULES[3].name);
    hide SameNoCase;
    forall i | 0 <= i < 11 && i != 3 ensures !SameNoCase("domain", RULES[i].name) {
      OtherLength("domain", i);
    }
  }

  lemma NameIsKey()
    ensures FindEntry("name", 0) == 4
  {
    assert |RULES[0].name| > 4 && |RULES[1].name| > 4 && |RULES[3].name| == 6 && SameNoCase("name", RULES[4].name);
    assert Lower("name"[0]) != Lower("user"[0]) && !SameNoCase("name", RULES[2].name);
    hide SameNoCase;
    OtherLength("name", 0);
    OtherLength("name", 1);
    OtherLength("name", 3);
  }

  lemma EntriesOfKeys(x: string, y: string, z: string)
    ensures EntryOf(Kvp("user", x)) == 2 && EntryOf(Kvp("seinfo", y)) == 3 && EntryOf(Kvp("name", z)) == 4 && 4 < |RULES|
    ensures RULES[2].dir == In && RULES[3].dir == In && RULES[4].dir == In
  {
    hide FindEntry;
    UserIsKey();
    SeinfoIsKey();
    NameIsKey();
  }

  /** A pair that counts for the hash key, and for every kind of line. */
  ghost predicate Input1(a: Kvp, checks: Checks) {
    EntryOf(a) < |RULES| && RULES[EntryOf(a)].dir == In && checks.validate(EntryOf(a), a.value) && checks.compiles(a.value)
  }

  lemma OnePairKey(a: Kvp, isNeverAllow: bool, checks: Checks)
    requires Input1(a, checks)
    ensures Makes(Line(isNeverAllow, [a]), checks) && HashOf(Line(isNeverAllow, [a])) == a.key + a.value
  {
    hide EntryOf, RULES;
    assert [a][0] == a && KeysMap([a][0], isNeverAllow) && [a][..0] == [];
    assert HashKey([a][..0], isNeverAllow) == "";
  }

  lemma TwoPairKey(a: Kvp, b: Kvp, checks: Checks)
    requires Input1(a, checks) && Input1(b, checks) && EntryOf(a) != EntryOf(b)
    ensures Makes(Line(false, [a, b]), checks) && HashOf(Line(false, [a, b])) == a.key + a.value + b.key + b.value
  {
    OnePairKey(a, false, checks);
    hide EntryOf, RULES;
    assert [a, b][0] == a && [a, b][1] == b && KeysMap([a, b][0], false) && [a, b][..1] == [a];
  }

  /** The hash keys of all lines below differ, whatever the values are. */
  lemma HashKeysDiffer(x: string, y: string, z: string)
    ensures var u, s, n := "user" + x, "seinfo" + y, "name" + z;
      var us, un, sn := u + "seinfo" + y, u + "name" + z, s + "name" + z;
      && u != s && u != n && s != n && us != u && us != s && us != n && us != un && us != sn
      && un != u && un != s && sn != u && sn != s && sn != n
  {
    var u, s, n := "user" + x, "seinfo" + y, "name" + z;
    var us, un, sn := u + "seinfo" + y, u + "name" + z, s + "name" + z;
    assert u[0] == us[0] == un[0] == 'u' && s[0] == sn[0] == 's' && n[0] == 'n';
    assert us[|u|] == 's' && un[|u|] == 'n' && |us| > |u| && |un| > |u| && |sn| > |s|;
  }

  lemma FourReadable(lines: seq<Line>, checks: Checks)
    requires |lines| == 4 && forall i | 0 <= i < 4 :: Makes(lines[i], checks)
    requires HashOf(lines[0]) != HashOf(lines[1]) && HashOf(lines[0]) != HashOf(lines[2]) && HashOf(lines[0]) != HashOf(lines[3])
    requires HashOf(lines[1]) != HashOf(lines[2]) && HashOf(lines[1]) != HashOf(lines[3]) && HashOf(lines[2]) != HashOf(lines[3])
    ensures Readable(lines, checks)
  {
    hide Makes, HashOf;
  }

  lemma FiveReadable(lines: seq<Line>, checks: Checks)
    requires |lines| == 5 && Readable(lines[..4], checks) && Makes(lines[4], checks)
    requires forall i | 0 <= i < 4 :: HashOf(lines[i]) != HashOf(lines[4])
    ensures Readable(lines, checks)
  {
    hide Makes, HashOf, Readable;
    ReadableNext(lines, checks, 4);
    assert lines[..5] == lines;
  }

  lemma FourLines(a: Kvp, b: Kvp, c: Kvp, checks: Checks)
    requires Input1(a, checks) && Input1(b, checks) && Input1(c, checks)
    requires EntryOf(a) != EntryOf(b) && EntryOf(a) != EntryOf(c)
    requires a.key == "user" && b.key == "seinfo" && c.key == "name"
    ensures Readable(Input([[a], [b]], [[a, b], [a, c]]), checks)
  {
    hide EntryOf, HashOf, Makes, Input1, Input, RULES, Readable;
    OnePairKey(a, true, checks);
    OnePairKey(b, true, checks);
    TwoPairKey(a, b, checks);
    TwoPairKey(a, c, checks);
    InputsAre([a], [b], [a, b], [a, c]);
    HashKeysDiffer(a.value, b.value, c.value);
    FourReadable(Input([[a], [b]], [[a, b], [a, c]]), checks);
  }

  lemma FiveLines(a: Kvp, b: Kvp, c: Kvp, checks: Checks)
    requires Input1(a, checks) && Input1(b, checks) && Input1(c, checks)
    requires EntryOf(a) != EntryOf(b) && EntryOf(b) != EntryOf(c)
    requires a.key == "user" && b.key == "seinfo" && c.key == "name"
    ensures Readable(Input([[a], [b], [c]], [[a, b], [b, c]]), checks)
  {
    hide EntryOf, HashOf, Makes, Input1, Input, RULES, Readable;
    OnePairKey(a, true, checks);
    OnePairKey(b, true, checks);
    OnePairKey(c, true, checks);
    TwoPairKey(a, b, checks);
    TwoPairKey(b, c, checks);
    InputsAre5([a], [b], [c], [a, b], [b, c]);
    HashKeysDiffer(a.value, b.value, c.value);
    var lines := Input([[a], [b], [c]], [[a, b], [b, c]]);
    FourReadable(lines[..4], checks);
    FiveReadable(lines, checks);
  }

  lemma InputsAre(n0: Pairs, n1: Pairs, l0: Pairs, l1: Pairs)
    ensures Input([n0, n1], [l0, l1]) == [Line(true, n0), Line(true, n1), Line(false, l0), Line(false, l1)]
  {
    OfTwo(true, n0, n1);
    OfTwo(false, l0, l1);
  }

  lemma InputsAre5(n0: Pairs, n1: Pairs, n2: Pairs, l0: Pairs, l1: Pairs)
    ensures Input([n0, n1, n2], [l0, l1]) == [Line(true, n0), Line(true, n1), Line(true, n2), Line(false, l0), Line(false, l1)]
  {
    assert [n0, n1, n2][1..] == [n1, n2];
    OfTwo(true, n1, n2);
    OfTwo(false, l0, l1);
  }

  lemma OfTwo(isNeverAllow: bool, k: Pairs, l: Pairs)
    ensures Of(isNeverAllow, [k, l]) == [Line(isNeverAllow, k), Line(isNeverAllow, l)]
  {
    assert [k, l][1..] == [l] && [l][1..] == [];
    assert Of(isNeverAllow, [l]) == [Line(isNeverAllow, l)];
  }

  lemma SameNoCaseJoins(a: string, b: string, c: string)
    ensures SameNoCase(a, b) ==> SameNoCase(b, a)
    ensures SameNoCase(a, b) && SameNoCase(b, c) ==> SameNoCase(a, c)
  {
  }

  lemma NamesDiffer(i: nat, j: nat)
    requires i < |RULES| && j < |RULES| && SameNoCase(RULES[i].name, RULES[j].name)
    ensures i == j
  {
    SpellingsDiffer();
    SameChars(RULES[i].name, RULES[j].name);
    hide SameNoCase, RULES, Lower;
  }

  /** The lengths of the keys. */
  const LENGTHS: seq<nat> := [14, 14, 4, 6, 4, 9, 19, 9, 20, 17, 16, 6, 4, 9, 5]

  lemma LengthsAre()
    ensures |RULES| == |LENGTHS| && forall i | 0 <= i < |RULES| :: |RULES[i].name| == LENGTHS[i]
  {
  }

  /** Keys of one length differ in their first or third letter. */
  lemma LettersAre()
    ensures |RULES| == 15 && forall i | 0 <= i < 15 :: |RULES[i].name| > 2
    ensures Lower(RULES[0].name[2]) == 's' && Lower(RULES[1].name[2]) == 'e'
    ensures Lower(RULES[2].name[0]) == 'u' && Lower(RULES[4].name[0]) == 'n' && Lower(RULES[12].name[0]) == 't'
    ensures Lower(RULES[3].name[0]) == 's' && Lower(RULES[11].name[0]) == 'd'
    ensures Lower(RULES[5].name[0]) == 'i' && Lower(RULES[7].name[0]) == 'f' && Lower(RULES[13].name[0]) == 'l'
  {
    LengthsAre();
  }

  lemma SpellingsDiffer()
    ensures forall i | 0 <= i < |RULES| :: |RULES[i].name| > 2
    ensures forall i, j | 0 <= i < j < |RULES| && |RULES[i].name| == |RULES[j].name| ::
      Lower(RULES[i].name[0]) != Lower(RULES[j].name[0]) || Lower(RULES[i].name[2]) != Lower(RULES[j].name[2])
  {
    hide RULES, Lower;
    LengthsAre();
    LettersAre();
    forall i, j | 0 <= i < j < |RULES| && LENGTHS[i] == LENGTHS[j]
      ensures Lower(RULES[i].name[0]) != Lower(RULES[j].name[0]) || Lower(RULES[i].name[2]) != Lower(RULES[j].name[2])
    {
    }
  }

  lemma SameChars(a: string, b: string)
    requires SameNoCase(a, b)
    ensures |a| == |b| && forall k | 0 <= k < |a| :: Lower(a[k]) == Lower(b[k])
  {
  }

  lemma EntryIsSameName(k: Kvp, e: nat)
    requires e < |RULES|
    ensures EntryOf(k) == e <==> SameNoCase(k.key, RULES[e].name)
  {
    hide SameNoCase, RULES;
    var f := EntryOf(k);
    if SameNoCase(k.key, RULES[e].name) && f < |RULES| {
      SameNoCaseJoins(k.key, RULES[f].name, "");
      SameNoCaseJoins(RULES[f].name, k.key, RULES[e].name);
      NamesDiffer(f, e);
    }
  }

  /** The key is in the table, in any spelling, and the value passes the check. */
  ghost predicate Passes(k: Kvp, isNeverAllow: bool, checks: Checks) {
    exists e :: 0 <= e < |RULES| && SameNoCase(k.key, RULES[e].name) &&
      if isNeverAllow then checks.compiles(k.value) else checks.validate(e, k.value)
  }

  ghost predicate IsInput(k: Kvp) {
    exists e :: 0 <= e < |RULES| && SameNoCase(k.key, RULES[e].name) && RULES[e].dir == In
  }

  lemma PassesIs(k: Kvp, isNeverAllow: bool, checks: Checks)
    ensures Passes(k, isNeverAllow, checks) <==> EntryOf(k) < |RULES| && checks.For(isNeverAllow)(EntryOf(k), k.value)
    ensures KeysMap(k, isNeverAllow) <==> isNeverAllow || IsInput(k)
  {
    hide SameNoCase, RULES, EntryOf;
    forall e: nat | e < |RULES| ensures EntryOf(k) == e <==> SameNoCase(k.key, RULES[e].name) {
      EntryIsSameName(k, e);
    }
    if EntryOf(k) < |RULES| {
      assert SameNoCase(k.key, RULES[EntryOf(k)].name);
    }
  }

  /** A line makes a rule map exactly if every key is in the table with a value that passes, no key comes
      twice in any spelling, and a rule has an input, or a neverallow any pair at all. */
  lemma MakesExactly(l: Line, checks: Checks)
    ensures Makes(l, checks) <==> (
      && (forall k | k in l.keys :: Passes(k, l.isNeverAllow, checks))
      && (forall i, j | 0 <= i < j < |l.keys| :: !SameNoCase(l.keys[i].key, l.keys[j].key))
      && exists k :: k in l.keys && (l.isNeverAllow || IsInput(k)))
  {
    hide SameNoCase, RULES, EntryOf, Passes, IsInput, KeysMap, Checks.For;
    AllPass(l.keys, l.isNeverAllow, checks);
    SomeInput(l.keys, l.isNeverAllow, checks);
    forall i, j | 0 <= i < j < |l.keys| && EntryOf(l.keys[i]) < |RULES| && EntryOf(l.keys[j]) < |RULES|
      ensures EntryOf(l.keys[i]) == EntryOf(l.keys[j]) <==> SameNoCase(l.keys[i].key, l.keys[j].key)
    {
      SameSpelling(l.keys[i], l.keys[j]);
    }
  }

  lemma AllPass(p: Pairs, isNeverAllow: bool, checks: Checks)
    ensures (forall i | 0 <= i < |p| :: EntryOf(p[i]) < |RULES| && checks.For(isNeverAllow)(EntryOf(p[i]), p[i].value))
      <==> forall k | k in p :: Passes(k, isNeverAllow, checks)
  {
    hide RULES, EntryOf, Passes, IsInput, KeysMap, Checks.For;
    forall i | 0 <= i < |p|
      ensures Passes(p[i], isNeverAllow, checks) <==> EntryOf(p[i]) < |RULES| && checks.For(isNeverAllow)(EntryOf(p[i]), p[i].value)
    {
      PassesIs(p[i], isNeverAllow, checks);
    }
    assert forall i | 0 <= i < |p| :: p[i] in p;
  }

  lemma SomeInput(p: Pairs, isNeverAllow: bool, checks: Checks)
    ensures (exists i :: 0 <= i < |p| && KeysMap(p[i], isNeverAllow)) <==> exists k :: k in p && (isNeverAllow || IsInput(k))
  {
    hide RULES, EntryOf, Passes, IsInput, KeysMap, Checks.For;
    forall k ensures KeysMap(k, isNeverAllow) <==> isNeverAllow || IsInput(k) {
      PassesIs(k, isNeverAllow, checks);
    }
    if i :| 0 <= i < |p| && KeysMap(p[i], isNeverAllow) {
      assert p[i] in p && (isNeverAllow || IsInput(p[i]));
    }
    if k :| k in p && (isNeverAllow || IsInput(k)) {
      var i :| 0 <= i < |p| && p[i] == k;
      assert KeysMap(p[i], isNeverAllow);
    }
  }

  lemma SameSpelling(a: Kvp, b: Kvp)
    requires EntryOf(a) < |RULES| && EntryOf(b) < |RULES|
    ensures EntryOf(a) == EntryOf(b) <==> SameNoCase(a.key, b.key)
  {
    hide SameNoCase, RULES;
    var e, f := EntryOf(a), EntryOf(b);
    SameNoCaseJoins(b.key, RULES[f].name, "");
    SameNoCaseJoins(a.key, RULES[e].name, b.key);
    SameNoCaseJoins(a.key, b.key, RULES[f].name);
    EntryIsSameName(a, f);
  }

  /** Outputs do not count for the hash key of a rule: two rules with the same inputs are duplicates, whatever
      domains they give. For a neverallow every pair counts. */
  lemma OutputsDoNotCount(inputs: Pairs, x: string, y: string, checks: Checks, before: seq<Line>, after: seq<Line>)
    ensures HashOf(Line(false, inputs + [Kvp("domain", x)])) == HashOf(Line(false, inputs))
    ensures HashOf(Line(true, inputs + [Kvp("domain", x)])) == HashOf(Line(true, inputs)) + "domain" + x
    ensures !Readable(before + [Line(false, inputs + [Kvp("domain", x)]), Line(false, inputs + [Kvp("domain", y)])] + after, checks)
  {
    DomainIsKey();
    hide FindEntry, Makes;
    forall v, never ensures HashOf(Line(never, inputs + [Kvp("domain", v)]))
      == if never then HashOf(Line(never, inputs)) + "domain" + v else HashOf(Line(never, inputs))
    {
      var line := inputs + [Kvp("domain", v)];
      assert line[..|line| - 1] == inputs && EntryOf(line[|inputs|]) == 11;
      assert KeysMap(line[|inputs|], never) <==> never;
    }
    var lines := before + [Line(false, inputs + [Kvp("domain", x)]), Line(false, inputs + [Kvp("domain", y)])] + after;
    assert HashOf(lines[|before|]) == HashOf(lines[|before| + 1]);
  }

  /** The pairs `user=x`, `seinfo=y` and `name=z`, for any values that pass the checks, match themselves and
      are no check for absence. */
  ghost predicate ThreeValues(x: string, y: string, z: string, checks: Checks, matches: Matcher) {
    && checks.validate(2, x) && checks.validate(3, y) && checks.validate(4, z)
    && checks.compiles(x) && checks.compiles(y) && checks.compiles(z)
    && matches(x, x) && matches(y, y) && matches(z, z) && x != NULL_CHECK && y != NULL_CHECK && z != NULL_CHECK
  }

  lemma ThreeInputs(x: string, y: string, z: string, checks: Checks, matches: Matcher)
    requires ThreeValues(x, y, z, checks, matches)
    ensures var a, b, c := Kvp("user", x), Kvp("seinfo", y), Kvp("name", z);
      ThreeKeys(a, b, c, matches) && Input1(a, checks) && Input1(b, checks) && Input1(c, checks)
  {
    EntriesOfKeys(x, y, z);
    hide EntryOf, RULES;
  }

  /** A violation is lost: from these four lines, which the tool gets past, `[a, b]` violates both neverallows,
      and only the first is reported for it. */
  lemma SharingLosesViolation(x: string, y: string, z: string, checks: Checks, matches: Matcher)
    requires ThreeValues(x, y, z, checks, matches)
    ensures var a, b, c := Kvp("user", x), Kvp("seinfo", y), Kvp("name", z);
      var lines := Input([[a], [b]], [[a, b], [a, c]]);
      Readable(lines, checks) && Kind(lines, true) == [[a], [b]] && Kind(lines, false) == [[a, b], [a, c]] &&
      RowsIn(lines, matches) == [[true, true], [true, false]] &&
      Reported(RowsIn(lines, matches), 2, 0) == [0] && ViolatedFrom(RowsIn(lines, matches)[0], 0) == [0, 1]
  {
    var a, b, c := Kvp("user", x), Kvp("seinfo", y), Kvp("name", z);
    ThreeInputs(x, y, z, checks, matches);
    hide ThreeKeys, Input1, ThreeValues, Readable, Input, Kind, EntryOf, Reported, ViolatedFrom, LineRows, RULES;
    EntriesOfKeys(x, y, z);
    FourLines(a, b, c, checks);
    KindsOfInput([[a], [b]], [[a, b], [a, c]]);
    TwoRows(a, b, c, matches);
    ViolationLost();
  }

  /** A violation is added: from these five lines, which the tool gets past, `[a, b]` violates the first two
      neverallows, and all three are reported for it. */
  lemma SharingAddsViolation(x: string, y: string, z: string, checks: Checks, matches: Matcher)
    requires ThreeValues(x, y, z, checks, matches)
    ensures var a, b, c := Kvp("user", x), Kvp("seinfo", y), Kvp("name", z);
      var lines := Input([[a], [b], [c]], [[a, b], [b, c]]);
      Readable(lines, checks) && Kind(lines, true) == [[a], [b], [c]] && Kind(lines, false) == [[a, b], [b, c]] &&
      RowsIn(lines, matches) == [[true, true, false], [false, true, true]] &&
      Reported(RowsIn(lines, matches), 3, 0) == [0, 1, 2] && ViolatedFrom(RowsIn(lines, matches)[0], 0) == [0, 1]
  {
    var a, b, c := Kvp("user", x), Kvp("seinfo", y), Kvp("name", z);
    ThreeInputs(x, y, z, checks, matches);
    hide ThreeKeys, Input1, ThreeValues, Readable, Input, Kind, EntryOf, Reported, ViolatedFrom, LineRows, RULES;
    EntriesOfKeys(x, y, z);
    FiveLines(a, b, c, checks);
    KindsOfInput([[a], [b], [c]], [[a, b], [b, c]]);
    ThreeRows(a, b, c, matches);
    ViolationAdded();
  }
}
