/** The rule maps of tools/check_seapp.c: how a line's keys become a rule, and the counting test
    that decides whether a rule violates a neverallow. */
module SeappRules {
  import opened Options

  datatype Dir = In | Out
  datatype Entry = Entry(name: string, dir: Dir)
  datatype KeyMap = KeyMap(name: string, dir: Dir, data: string)
  datatype Kvp = Kvp(key: string, value: string)

  /** The keys a rule may have. */
  const RULES: seq<Entry> := [
    Entry("isSystemServer", In), Entry("isEphemeralApp", In), Entry("user", In), Entry("seinfo", In),
    Entry("name", In), Entry("isPrivApp", In), Entry("minTargetSdkVersion", In), Entry("fromRunAs", In),
    Entry("isIsolatedComputeApp", In), Entry("isSdkSandboxAudit", In), Entry("isSdkSandboxNext", In),
    Entry("domain", Out), Entry("type", Out), Entry("levelFrom", Out), Entry("level", Out)]

  lemma RulesDiffer()
    ensures forall i, j | 0 <= i < j < |RULES| :: RULES[i].name != RULES[j].name
  {
    forall i | 0 <= i < |RULES| ensures |RULES[i].name| > 2 {
    }
    forall i, j | 0 <= i < j < |RULES| && |RULES[i].name| == |RULES[j].name|
      ensures RULES[i].name[0] != RULES[j].name[0] || RULES[i].name[2] != RULES[j].name[2]
    {
    }
  }

  // ---------------------------------------------------------------------------------------
  // Making a rule map

  function Lower(c: char): char {
    if 'A' <= c <= 'Z' then ((c as int) - ('A' as int) + ('a' as int)) as char else c
  }

  /** `strcasecmp(a, b) == 0` */
  predicate SameNoCase(a: string, b: string) {
    |a| == |b| && forall i | 0 <= i < |a| :: Lower(a[i]) == Lower(b[i])
  }

  /** Two spellings are the same up to the case of letters. */
  lemma CaseIsIgnored(a: string, b: string)
    ensures SameNoCase(a, b) <==> |a| == |b| && forall i | 0 <= i < |a| :: a[i] == b[i] || CasePair(a[i], b[i]) || CasePair(b[i], a[i])
  {
  }

  ghost predicate CasePair(upper: char, lower: char) {
    'A' <= upper <= 'Z' && 'a' <= lower <= 'z' && upper as int - 'A' as int == lower as int - 'a' as int
  }

  /** The first entry for a key, or |RULES|. */
  function FindEntry(key: string, j: nat): (k: nat)
    requires j <= |RULES|
    ensures j <= k <= |RULES| && (k < |RULES| ==> SameNoCase(key, RULES[k].name))
    ensures forall i | j <= i < k :: !SameNoCase(key, RULES[i].name)
    decreases |RULES| - j
  {
    if j < |RULES| && !SameNoCase(key, RULES[j].name) then FindEntry(key, j + 1) else j
  }

  function EntryOf(k: Kvp): nat {
    FindEntry(k.key, 0)
  }

  /** The checks that a value must pass, by entry and value; policy lookups are part of them. */
  type Validator = (nat, string) -> bool

  /** The keys make a rule map: all are known, none comes twice in any spelling, every value is
      valid, and there is something to key the map by. */
  ghost predicate Acceptable(keys: seq<Kvp>, isNeverAllow: bool, valid: Validator) {
    && (forall i | 0 <= i < |keys| :: EntryOf(keys[i]) < |RULES| && valid(EntryOf(keys[i]), keys[i].value))
    && (forall i, j | 0 <= i < j < |keys| :: EntryOf(keys[i]) != EntryOf(keys[j]))
    && (exists i :: 0 <= i < |keys| && KeysMap(keys[i], isNeverAllow))
  }

  /** The hash key of the map grows with this pair. */
  predicate KeysMap(k: Kvp, isNeverAllow: bool) {
    isNeverAllow || (EntryOf(k) < |RULES| && RULES[EntryOf(k)].dir == In)
  }

  /** The key under which a line is entered in the hash table: keys and values as they are written, one
      after the other. */
  function HashKey(keys: seq<Kvp>, isNeverAllow: bool): string {
    if keys == [] then ""
    else
      var k, before := keys[|keys| - 1], HashKey(keys[..|keys| - 1], isNeverAllow);
      if KeysMap(k, isNeverAllow) then before + k.key + k.value else before
  }

  /** No name comes twice. */
  ghost predicate Distinct(m: seq<KeyMap>) {
    forall i, j | 0 <= i < j < |m| :: m[i].name != m[j].name
  }

  /** The search of the table for a key. */
  method SearchRules(key: string) returns (j: nat)
    ensures j == FindEntry(key, 0)
  {
    j := 0;
    while j < |RULES| && !SameNoCase(key, RULES[j].name)
      invariant j <= |RULES| && FindEntry(key, j) == FindEntry(key, 0)
    {
      j := j + 1;
    }
  }

  /** The keys so far are known, valid and different, and have given these entries. */
  ghost predicate Progress(keys: seq<Kvp>, valid: Validator, m: seq<KeyMap>) {
    |m| <= |keys| &&
    (forall k | 0 <= k < |m| :: Made(keys[k], m[k]) && valid(EntryOf(keys[k]), keys[k].value)) &&
    (forall j, k | 0 <= j < k < |m| :: EntryOf(keys[j]) != EntryOf(keys[k]))
  }

  ghost predicate Seen(keys: seq<Kvp>, i: nat, seen: seq<bool>)
    requires i <= |keys|
  {
    (forall k | 0 <= k < i :: EntryOf(keys[k]) < |seen| && seen[EntryOf(keys[k])]) &&
    (forall e | 0 <= e < |seen| && seen[e] :: exists k :: 0 <= k < i && EntryOf(keys[k]) == e)
  }

  lemma SeenNext(keys: seq<Kvp>, i: nat, seen: seq<bool>, j: nat)
    requires i < |keys| && Seen(keys, i, seen) && j == EntryOf(keys[i]) < |seen|
    ensures Seen(keys, i + 1, seen[j := true])
  {
    hide EntryOf;
    var now := seen[j := true];
    forall e | 0 <= e < |now| && now[e] ensures exists k :: 0 <= k < i + 1 && EntryOf(keys[k]) == e {
      if e == j { assert EntryOf(keys[i]) == e; }
    }
  }

  ghost predicate KeyedBefore(keys: seq<Kvp>, isNeverAllow: bool, i: nat)
    requires i <= |keys|
  {
    exists k :: 0 <= k < i && KeysMap(keys[k], isNeverAllow)
  }

  lemma NextKeyed(keys: seq<Kvp>, isNeverAllow: bool, i: nat)
    requires i < |keys|
    ensures KeyedBefore(keys, isNeverAllow, i + 1) <==> KeyedBefore(keys, isNeverAllow, i) || KeysMap(keys[i], isNeverAllow)
  {
    hide KeysMap;
    if KeyedBefore(keys, isNeverAllow, i + 1) {
      var k :| 0 <= k < i + 1 && KeysMap(keys[k], isNeverAllow);
      assert k < i ==> KeyedBefore(keys, isNeverAllow, i);
    }
  }

  lemma BadKey(keys: seq<Kvp>, isNeverAllow: bool, valid: Validator, i: nat, seen: seq<bool>, j: nat)
    requires i < |keys| && Seen(keys, i, seen) && |seen| == |RULES| && j == EntryOf(keys[i])
    ensures j == |RULES| || (j < |RULES| && (seen[j] || !valid(j, keys[i].value))) ==> !Acceptable(keys, isNeverAllow, valid)
  {
    hide EntryOf, RULES, KeysMap;
    if j < |RULES| && seen[j] {
      var k :| 0 <= k < i && EntryOf(keys[k]) == j;
    }
  }

  lemma GoodKey(keys: seq<Kvp>, valid: Validator, m: seq<KeyMap>, seen: seq<bool>, j: nat)
    requires |m| < |keys| && Progress(keys, valid, m) && Seen(keys, |m|, seen) && |seen| == |RULES|
    requires j == EntryOf(keys[|m|]) < |RULES| && !seen[j] && valid(j, keys[|m|].value)
    ensures Progress(keys, valid, m + [KeyMap(RULES[j].name, RULES[j].dir, keys[|m|].value)])
  {
    hide EntryOf, RULES;
  }

  lemma AllKeys(keys: seq<Kvp>, isNeverAllow: bool, valid: Validator, m: seq<KeyMap>)
    requires Progress(keys, valid, m) && |m| == |keys|
    ensures Acceptable(keys, isNeverAllow, valid) <==> KeyedBefore(keys, isNeverAllow, |keys|)
    ensures Distinct(m) && m == MapOf(keys) && forall i | 0 <= i < |keys| :: FromTable(keys[i], m[i])
  {
    MadeAll(keys, m);
    EntriesDistinct(keys, m);
    EntriesFromTable(keys, m);
    hide RULES, FromTable, Distinct, MapOf;
    forall i | 0 <= i < |keys| ensures EntryOf(keys[i]) < |RULES| {
      assert Made(keys[i], m[i]);
    }
  }

  /** What the keys of a line are turned into. */
  ghost function MapOf(keys: seq<Kvp>): seq<KeyMap> {
    seq(|keys|, i requires 0 <= i < |keys| =>
      var e := EntryOf(keys[i]);
      if e < |RULES| then KeyMap(RULES[e].name, RULES[e].dir, keys[i].value) else KeyMap(keys[i].key, In, keys[i].value))
  }

  lemma MadeAll(keys: seq<Kvp>, m: seq<KeyMap>)
    requires |m| == |keys| && forall i | 0 <= i < |keys| :: Made(keys[i], m[i])
    ensures m == MapOf(keys)
  {
    hide RULES, EntryOf;
    forall i | 0 <= i < |keys| ensures m[i] == MapOf(keys)[i] {
      assert Made(keys[i], m[i]);
    }
  }

  /** `rule_map_new`, with its array of entries seen. */
  method RuleMapNew(keys: seq<Kvp>, isNeverAllow: bool, valid: Validator) returns (r: Option<seq<KeyMap>>, key: string)
    ensures r.Some? <==> Acceptable(keys, isNeverAllow, valid)
    ensures r.Some? ==> |r.value| == |keys| && Distinct(r.value) && r.value == MapOf(keys)
    ensures r.Some? ==> forall i | 0 <= i < |keys| :: FromTable(keys[i], r.value[i])
    ensures r.Some? ==> key == HashKey(keys, isNeverAllow)
  {
    hide HashKey, KeysMap, Distinct, EntryOf, RULES, FromTable, Acceptable, KeyedBefore, Progress, MapOf;
    var seen := new bool[|RULES|](_ => false);
    var m: seq<KeyMap> := [];
    var keyed := false;
    key := "";
    assert keys[..0] == [];
    NoHashKey(isNeverAllow);
    NoKeysYet(keys, isNeverAllow, valid);
    for i := 0 to |keys|
      invariant |m| == i && fresh(seen) && seen.Length == |RULES|
      invariant Progress(keys, valid, m) && Seen(keys, i, seen[..]) && keyed == KeyedBefore(keys, isNeverAllow, i)
      invariant key == HashKey(keys[..i], isNeverAllow)
    {
      HashKeyNext(keys, isNeverAllow, i);
      var j := SearchRules(keys[i].key);
      EntryIs(keys[i]);
      NextKeyed(keys, isNeverAllow, i);
      BadKey(keys, isNeverAllow, valid, i, seen[..], j);
      if j == |RULES| {
        return None, key;
      }
      if seen[j] {
        return None, key;
      }
      SeenNext(keys, i, seen[..], j);
      ghost var was := seen[..];
      seen[j] := true;
      assert seen[..] == was[j := true];
      if !valid(j, keys[i].value) {
        return None, key;
      }
      GoodKey(keys, valid, m, was, j);
      m := m + [KeyMap(RULES[j].name, RULES[j].dir, keys[i].value)];
      KeysMapIs(keys[i], isNeverAllow, j);
      if RULES[j].dir == In || isNeverAllow {
        keyed, key := true, key + keys[i].key + keys[i].value;
      }
    }
    assert keys[..|keys|] == keys;
    AllKeys(keys, isNeverAllow, valid, m);
    if !keyed {
      return None, key;
    }
    return Some(m), key;
  }

  lemma KeysMapIs(k: Kvp, isNeverAllow: bool, j: nat)
    requires j == EntryOf(k) < |RULES|
    ensures KeysMap(k, isNeverAllow) <==> RULES[j].dir == In || isNeverAllow
  {
    hide RULES, EntryOf;
  }

  lemma NoHashKey(isNeverAllow: bool)
    ensures HashKey([], isNeverAllow) == ""
  {
  }

  lemma HashKeyNext(keys: seq<Kvp>, isNeverAllow: bool, i: nat)
    requires i < |keys|
    ensures HashKey(keys[..i + 1], isNeverAllow)
      == HashKey(keys[..i], isNeverAllow) + if KeysMap(keys[i], isNeverAllow) then keys[i].key + keys[i].value else ""
  {
    hide KeysMap;
    assert keys[..i + 1][..i] == keys[..i];
  }

  lemma NoKeysYet(keys: seq<Kvp>, isNeverAllow: bool, valid: Validator)
    ensures Progress(keys, valid, []) && !KeyedBefore(keys, isNeverAllow, 0)
  {
  }

  lemma EntryIs(k: Kvp)
    ensures EntryOf(k) == FindEntry(k.key, 0)
  {
  }

  /** The pair got its canonical name and direction from the table, and its value from the line. */
  ghost predicate FromTable(k: Kvp, m: KeyMap) {
    m.data == k.value && SameNoCase(k.key, m.name) && Entry(m.name, m.dir) in RULES
  }

  lemma EntriesFromTable(keys: seq<Kvp>, m: seq<KeyMap>)
    requires |m| == |keys| && forall k | 0 <= k < |keys| :: Made(keys[k], m[k])
    ensures forall i | 0 <= i < |keys| :: FromTable(keys[i], m[i])
  {
    hide SameNoCase, RULES;
    forall i | 0 <= i < |keys| ensures FromTable(keys[i], m[i]) {
      assert Made(keys[i], m[i]);
      assert RULES[EntryOf(keys[i])] in RULES;
    }
  }

  ghost predicate Made(k: Kvp, m: KeyMap) {
    EntryOf(k) < |RULES| && m == KeyMap(RULES[EntryOf(k)].name, RULES[EntryOf(k)].dir, k.value)
  }

  lemma EntriesDistinct(keys: seq<Kvp>, m: seq<KeyMap>)
    requires |m| == |keys| && forall k | 0 <= k < |keys| :: Made(keys[k], m[k])
    requires forall j, k | 0 <= j < k < |keys| :: EntryOf(keys[j]) != EntryOf(keys[k])
    ensures Distinct(m)
  {
    RulesDiffer();
    hide RULES, EntryOf;
  }

  // ---------------------------------------------------------------------------------------
  // The counting test

  /** Whether a regular expression matches a value. */
  type Matcher = (string, string) -> bool

  const NULL_CHECK := "\"\""

  ghost predicate HasKey(rm: seq<KeyMap>, name: string) {
    exists i :: 0 <= i < |rm| && rm[i].name == name
  }

  /** A rule meets one pair of a neverallow: it has the key and its value matches, or the pair asks
      for the key to be absent and it is. */
  ghost predicate Met(n: KeyMap, rm: seq<KeyMap>, matches: Matcher) {
    if HasKey(rm, n.name) then exists i :: 0 <= i < |rm| && rm[i].name == n.name && matches(n.data, rm[i].data)
    else n.data == NULL_CHECK
  }

  ghost predicate Violates(rm: seq<KeyMap>, never: seq<KeyMap>, matches: Matcher) {
    forall j | 0 <= j < |never| :: Met(never[j], rm, matches)
  }

  /** How often a pair is counted. */
  ghost function Hits(n: KeyMap, rm: seq<KeyMap>, matches: Matcher): nat {
    if rm == [] then 0
    else (if rm[0].name == n.name && matches(n.data, rm[0].data) then 1 else 0) + Hits(n, rm[1..], matches)
  }

  ghost function Score(n: KeyMap, rm: seq<KeyMap>, matches: Matcher): nat {
    Hits(n, rm, matches) + if n.data == NULL_CHECK && !HasKey(rm, n.name) then 1 else 0
  }

  ghost function Total(never: seq<KeyMap>, rm: seq<KeyMap>, matches: Matcher): nat {
    if never == [] then 0 else Score(never[0], rm, matches) + Total(never[1..], rm, matches)
  }

  /** The two inner loops of `rule_map_validate`. */
  method CountMet(never: seq<KeyMap>, rm: seq<KeyMap>, matches: Matcher) returns (cnt: nat)
    ensures cnt == Total(never, rm, matches)
  {
    cnt := 0;
    assert never[0..] == never;
    for j := 0 to |never|
      invariant cnt + Total(never[j..], rm, matches) == Total(never, rm, matches)
    {
      var nrule := never[j];
      assert never[j..][0] == nrule && never[j..][1..] == never[j + 1..];
      var isNullCheck := nrule.data == NULL_CHECK;
      ghost var before := cnt;
      assert rm[0..] == rm;
      for i := 0 to |rm|
        invariant cnt + Hits(nrule, rm[i..], matches) == before + Hits(nrule, rm, matches)
        invariant isNullCheck <==> nrule.data == NULL_CHECK && forall k | 0 <= k < i :: rm[k].name != nrule.name
      {
        assert rm[i..][0] == rm[i] && rm[i..][1..] == rm[i + 1..];
        if rm[i].name == nrule.name {
          isNullCheck := false;
          if matches(nrule.data, rm[i].data) {
            cnt := cnt + 1;
          }
        }
      }
      if isNullCheck {
        cnt := cnt + 1;
      }
    }
  }

  lemma {:induction false} HitsAtMostOne(n: KeyMap, rm: seq<KeyMap>, matches: Matcher)
    requires Distinct(rm)
    ensures Hits(n, rm, matches) <= 1
    ensures Hits(n, rm, matches) == 1 <==> exists i :: 0 <= i < |rm| && rm[i].name == n.name && matches(n.data, rm[i].data)
    decreases |rm|
  {
    if rm != [] {
      HitsAtMostOne(n, rm[1..], matches);
      assert forall i | 0 < i < |rm| :: rm[i] == rm[1..][i - 1];
      assert forall i | 0 <= i < |rm[1..]| :: rm[1..][i] == rm[i + 1];
    }
  }

  lemma ScoreIsMet(n: KeyMap, rm: seq<KeyMap>, matches: Matcher)
    requires Distinct(rm)
    ensures Score(n, rm, matches) == if Met(n, rm, matches) then 1 else 0
  {
    HitsAtMostOne(n, rm, matches);
  }

  /** The count tells a violation exactly, for any neverallow and any rule without a repeated key. */
  lemma {:induction false} CountIsExact(never: seq<KeyMap>, rm: seq<KeyMap>, matches: Matcher)
    requires Distinct(rm)
    ensures Total(never, rm, matches) <= |never|
    ensures Total(never, rm, matches) == |never| <==> Violates(rm, never, matches)
    decreases |never|
  {
    if never != [] {
      ScoreIsMet(never[0], rm, matches);
      CountIsExact(never[1..], rm, matches);
      hide Met;
      assert forall j | 0 < j < |never| :: never[j] == never[1..][j - 1];
      assert Violates(rm, never, matches) <==> Met(never[0], rm, matches) && Violates(rm, never[1..], matches) by {
        if Met(never[0], rm, matches) && Violates(rm, never[1..], matches) {
          forall j | 0 <= j < |never| ensures Met(never[j], rm, matches) {
            assert j > 0 ==> Met(never[1..][j - 1], rm, matches);
          }
        }
        if Violates(rm, never, matches) {
          forall j | 0 <= j < |never[1..]| ensures Met(never[1..][j], rm, matches) {
            assert Met(never[j + 1], rm, matches);
          }
        }
      }
    }
  }

  /** Without the guard against repeated keys it would not: a key given twice counts for one that
      is missing, under any matcher that lets the key's pattern match. */
  lemma RepeatedKeysFoolTheCount(a: KeyMap, b: KeyMap, v: KeyMap, matches: Matcher)
    requires a.name != b.name && v.name == a.name && matches(a.data, v.data) && b.data != NULL_CHECK
    ensures Total([a, b], [v, v], matches) == 2 && !Violates([v, v], [a, b], matches)
  {
    assert [v, v][1..] == [v] && [a, b][1..] == [b] && [v][1..] == [] && [b][1..] == [];
    assert Hits(a, [v], matches) == 1 && Hits(b, [v], matches) == 0;
    assert Total([b], [v, v], matches) == 0;
    assert HasKey([v, v], a.name) by { assert [v, v][0].name == a.name; }
    assert !HasKey([v, v], b.name);
    assert [a, b][1] == b && !Met(b, [v, v], matches);
  }
}
