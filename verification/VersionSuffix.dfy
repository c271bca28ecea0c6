/** Version suffixes of attribute names: `(\w+?)_\d+(_0)?` of tests/combine_maps.py, and what
    `(\w+)_\d+_\d+` of tests/mini_parser.py makes of the same names. */
module VersionSuffix {
  import opened Options
  import opened Text
  import opened MiniCil

  /** `_\d+(_0)?` from position k to the end. */
  predicate SuffixAt(s: string, k: nat) {
    k < |s| && s[k] == '_' &&
    var d := DigitEnd(s, k + 1);
    k + 1 < d && (d == |s| || s[d..] == "_0")
  }

  /** The non-greedy group 1: the shortest match of length k or more. */
  function StripFrom(s: string, k: nat): Option<string>
    requires k <= |s|
    decreases |s| - k
  {
    if SuffixAt(s, k) then Some(s[..k])
    else if k < |s| && IsWord(s[k]) then StripFrom(s, k + 1)
    else None
  }

  function Strip(s: string): Option<string> {
    if s != "" && IsWord(s[0]) then StripFrom(s, 1) else None
  }

  /** The type that an attribute maps: its name without the version, or the whole name. */
  function Base(ta: string): string {
    if Strip(ta).Some? then Strip(ta).value else ta
  }

  /** The name itself already ends in `_` and digits. */
  ghost predicate EndsInNumber(name: string) {
    exists k :: NumberAt(name, k)
  }

  ghost predicate NumberAt(name: string, k: int) {
    1 <= k && k + 1 < |name| && name[k] == '_' && AllDigits(name[k + 1..])
  }

  lemma {:induction false} StripFromIs(s: string, k: nat, e: nat)
    requires k <= e < |s| && SuffixAt(s, e)
    requires forall j | k <= j < e :: IsWord(s[j]) && !SuffixAt(s, j)
    ensures StripFrom(s, k) == Some(s[..e])
    decreases e - k
  {
    if k < e {
      StripFromIs(s, k + 1, e);
    }
  }

  /** Suffixes that start inside the base end in it: they never reach past its last digit. */
  lemma NoSuffixInside(base: string, rest: string, k: nat)
    requires 1 <= k < |base| && rest != "" && rest[0] == '_'
    ensures SuffixAt(base + rest, k) ==> rest == "_0" && NumberAt(base, k)
  {
    var s := base + rest;
    if SuffixAt(s, k) {
      var d := DigitEnd(s, k + 1);
      assert s[|base|] == rest[0];
      assert d <= |base|;
      assert |s| - d == 2;
      if d == |base| {
        assert s[d..] == rest;
        assert forall j | k + 1 <= j < |base| :: base[j] == s[j];
      }
    }
  }

  /** Stripping inverts versioning: always for `_V_0`, and for `_V` exactly unless V is `0` and
      the base ends in a number of its own, which `_0` then turns into a version. */
  lemma StripInvertsSuffix(base: string, v: string)
    requires base != "" && AllWord(base) && v != "" && AllDigits(v)
    ensures Strip(base + "_" + v + "_0") == Some(base)
    ensures Strip(base + "_" + v) == Some(base) <==> !(v == "0" && EndsInNumber(base))
  {
    LongSuffixStrips(base, v);
    ShortSuffixStrips(base, v);
  }

  lemma WordBase(base: string, rest: string)
    requires base != "" && AllWord(base)
    ensures forall j | 0 <= j < |base| :: IsWord((base + rest)[j])
    ensures (base + rest)[..|base|] == base
  {
    assert forall j | 0 <= j < |base| :: (base + rest)[j] == base[j] && base[j] in base;
  }

  lemma LongSuffixStrips(base: string, v: string)
    requires base != "" && AllWord(base) && v != "" && AllDigits(v)
    ensures Strip(base + "_" + v + "_0") == Some(base)
  {
    var rest := "_" + v + "_0";
    var s := base + rest;
    assert base + "_" + v + "_0" == s;
    WordBase(base, rest);
    assert s[|base|..] == "_" + (v + "_0");
    SuffixAtIs(s, |base|);
    hide SuffixAt, IsWord, IsDigit, StripFrom;
    forall j | 1 <= j < |base| ensures !SuffixAt(s, j) {
      NoSuffixInside(base, rest, j);
    }
    StripFromIs(s, 1, |base|);
  }

  lemma ShortSuffixStrips(base: string, v: string)
    requires base != "" && AllWord(base) && v != "" && AllDigits(v)
    ensures Strip(base + "_" + v) == Some(base) <==> !(v == "0" && EndsInNumber(base))
  {
    assert base + "_" + v == base + ("_" + v);
    WordBase(base, "_" + v);
    if v == "0" && EndsInNumber(base) {
      var k :| NumberAt(base, k);
      NumberIsSuffix(base, k);
      assert "_" + v == "_0";
      StripsEarly(base + "_0", 1, k);
    } else {
      ShortSuffixFound(base, v);
    }
  }

  lemma ShortSuffixFound(base: string, v: string)
    requires base != "" && AllWord(base) && v != "" && AllDigits(v)
    requires !(v == "0" && EndsInNumber(base))
    ensures Strip(base + ("_" + v)) == Some(base)
  {
    var rest := "_" + v;
    var s := base + rest;
    WordBase(base, rest);
    assert forall j | |base| < j < |s| :: s[j] == v[j - |base| - 1] && s[j] in v;
    assert DigitEnd(s, |base| + 1) == |s|;
    assert SuffixAt(s, |base|);
    assert rest == "_0" ==> v == "0" by { assert rest[1..] == v; }
    forall j | 1 <= j < |base| ensures !SuffixAt(s, j) {
      NoSuffixInside(base, rest, j);
    }
    StripFromIs(s, 1, |base|);
  }

  lemma NumberIsSuffix(base: string, k: nat)
    requires NumberAt(base, k)
    ensures SuffixAt(base + "_0", k)
  {
    var s := base + "_0";
    assert forall j | k + 1 <= j < |base| :: s[j] == base[j] && base[j] == base[k + 1..][j - k - 1] && base[j] in base[k + 1..];
    assert s[|base|] == '_' && DigitEnd(s, k + 1) == |base|;
    assert s[|base|..] == "_0";
  }

  lemma {:induction false} StripsEarly(s: string, k: nat, e: nat)
    requires k <= e < |s| && SuffixAt(s, e)
    ensures StripFrom(s, k).Some? ==> |StripFrom(s, k).value| <= e
    decreases e - k
  {
    if k < e && !SuffixAt(s, k) && IsWord(s[k]) {
      StripsEarly(s, k + 1, e);
    }
  }

  // ---------------------------------------------------------------------------------------
  // pubtypes

  lemma {:induction false} PubSearchIs(ta: string, k: nat, e: nat)
    requires 1 <= e <= k <= |ta| && VersionAt(ta, e)
    requires forall j | e < j <= k :: !VersionAt(ta, j)
    ensures PubSearch(ta, k) == Some(ta[..e])
    decreases k
  {
    if e < k {
      PubSearchIs(ta, k - 1, e);
    }
  }

  /** A name with a two-part version is recognized, whatever its base. */
  lemma TwoPartVersionIsPublic(base: string, v: string, w: string)
    requires base != "" && AllWord(base) && v != "" && AllDigits(v) && w != "" && AllDigits(w)
    ensures PubBase(base + "_" + v + "_" + w) == Some(base)
  {
    var rest := "_" + v + "_" + w;
    var s := base + rest;
    assert base + "_" + v + "_" + w == s;
    WordBase(base, rest);
    var e := |base| + 1 + |v|;
    assert forall j | |base| < j < e :: s[j] == v[j - |base| - 1] && s[j] in v;
    assert forall j | e < j < |s| :: s[j] == w[j - e - 1] && s[j] in w;
    assert s[|base|] == '_' && s[e] == '_';
    assert DigitEnd(s, |base| + 1) == e && DigitEnd(s, e + 1) == |s|;
    assert WordEnd(s, 0) == |s|;
    forall j | |base| < j <= |s| ensures !VersionAt(s, j) {
    }
    PubSearchIs(s, |s|, |base|);
  }

  lemma {:induction false} PubSearchShort(ta: string, k: nat, e: nat)
    requires k <= |ta| && forall j | e <= j <= k :: !VersionAt(ta, j)
    ensures PubSearch(ta, k).Some? ==> 1 <= |PubSearch(ta, k).value| < e && VersionAt(ta, |PubSearch(ta, k).value|)
    decreases k
  {
    if k != 0 && !VersionAt(ta, k) {
      PubSearchShort(ta, k - 1, e);
    }
  }

  /** The name holds a number in `_`s of its own, or ends in one. */
  ghost predicate HasNumber(name: string) {
    exists k :: 1 <= k < |name| && (VersionAt(name, k) || NumberAt(name, k))
  }

  /** A name with a one-part version, such as the year-and-month versions of this repository, is
      never recognized as the type it versions; it is recognized at all exactly when that type's
      own name has a number, and then as a shorter name. */
  lemma OnePartVersionIsNotPublic(base: string, v: string)
    requires base != "" && AllWord(base) && v != "" && AllDigits(v)
    ensures PubBase(base + "_" + v) != Some(base)
    ensures PubBase(base + "_" + v).Some? <==> HasNumber(base)
  {
    var rest := "_" + v;
    var s := base + rest;
    assert base + "_" + v == s;
    WordBase(base, rest);
    assert forall j | |base| < j < |s| :: s[j] == v[j - |base| - 1] && s[j] in v;
    assert DigitEnd(s, |base| + 1) == |s| && WordEnd(s, 0) == |s|;
    assert forall j | |base| <= j <= |s| :: !VersionAt(s, j);
    PubSearchShort(s, |s|, |base|);
    if PubBase(s).Some? {
      NumberFromVersion(base, v, |PubBase(s).value|);
    }
    if HasNumber(base) {
      var k :| 1 <= k < |base| && (VersionAt(base, k) || NumberAt(base, k));
      VersionFromNumber(base, v, k);
      PubSearchFinds(s, |s|, k);
    }
  }

  lemma NumberFromVersion(base: string, v: string, k: nat)
    requires 1 <= k < |base| && VersionAt(base + ("_" + v), k)
    ensures VersionAt(base, k) || NumberAt(base, k)
  {
    var s := base + ("_" + v);
    var d := DigitEnd(s, k + 1);
    assert s[|base|] == '_';
    assert forall j | 0 <= j < |base| :: s[j] == base[j];
    assert d <= |base| && d + 1 != |base|;
    assert d < |base| ==> DigitEnd(base, k + 1) == d;
  }

  lemma VersionFromNumber(base: string, v: string, k: nat)
    requires 1 <= k < |base| && (VersionAt(base, k) || NumberAt(base, k)) && v != "" && AllDigits(v)
    ensures VersionAt(base + ("_" + v), k)
  {
    var s := base + ("_" + v);
    assert forall j | 0 <= j < |base| :: s[j] == base[j];
    if VersionAt(base, k) {
      assert DigitEnd(s, k + 1) == DigitEnd(base, k + 1);
    } else {
      assert forall j | k + 1 <= j < |base| :: s[j] == base[k + 1..][j - k - 1] && s[j] in base[k + 1..];
      assert s[|base|] == '_' && s[|base| + 1] == v[0] && v[0] in v;
      assert DigitEnd(s, k + 1) == |base|;
    }
  }

  lemma {:induction false} PubSearchFinds(ta: string, k: nat, e: nat)
    requires 1 <= e <= k <= |ta| && VersionAt(ta, e)
    ensures PubSearch(ta, k).Some?
    decreases k
  {
    if e < k {
      PubSearchFinds(ta, k - 1, e);
    }
  }

  // ---------------------------------------------------------------------------------------
  // The patterns themselves: which part of any name they take

  /** The name is b with `_V` or `_V_0`. */
  ghost predicate HasSuffix(name: string, b: string) {
    b != "" && AllWord(b) && exists v :: v != "" && AllDigits(v) && (name == b + ("_" + v) || name == b + ("_" + (v + "_0")))
  }

  /** The name starts with `b_V_W`. */
  ghost predicate HasVersion(name: string, b: string) {
    b != "" && AllWord(b) &&
    exists v, w, rest :: v != "" && AllDigits(v) && w != "" && AllDigits(w) && name == b + ("_" + (v + ("_" + (w + rest))))
  }

  lemma DigitsFirst(s: string, k: nat, v: string, rest: string)
    requires k < |s| && s[k..] == "_" + (v + rest) && AllDigits(v) && (rest == "" || !IsDigit(rest[0]))
    ensures s[k] == '_' && DigitEnd(s, k + 1) == k + 1 + |v| && s[k + 1 + |v|..] == rest
  {
    var e := k + 1 + |v|;
    assert s[k] == s[k..][0] && s[k + 1..] == s[k..][1..] == v + rest;
    assert s[e..] == s[k + 1..][|v|..] == rest;
    assert forall j | k + 1 <= j < e :: s[j] == s[k + 1..][j - k - 1] == v[j - k - 1] && v[j - k - 1] in v;
    assert rest != "" ==> s[e] == s[e..][0] == rest[0];
  }

  lemma SuffixAtIs(s: string, k: nat)
    requires k <= |s|
    ensures SuffixAt(s, k) <==> exists v :: v != "" && AllDigits(v) && (s[k..] == "_" + v || s[k..] == "_" + (v + "_0"))
  {
    if SuffixAt(s, k) {
      var d := DigitEnd(s, k + 1);
      var v := s[k + 1..d];
      assert AllDigits(v);
      assert s[k..] == [s[k]] + (v + s[d..]);
      assert d == |s| ==> v + s[d..] == v;
    }
    if v :| v != "" && AllDigits(v) && (s[k..] == "_" + v || s[k..] == "_" + (v + "_0")) {
      if s[k..] == "_" + v {
        assert v + "" == v;
        DigitsFirst(s, k, v, "");
      } else {
        DigitsFirst(s, k, v, "_0");
      }
    }
  }

  lemma {:induction false} StripFromTakes(s: string, k: nat)
    requires k <= |s|
    ensures var r := StripFrom(s, k);
      if r.Some? then k <= |r.value| <= |s| && r.value == s[..|r.value|] && SuffixAt(s, |r.value|) &&
        forall j | k <= j < |r.value| :: IsWord(s[j]) && !SuffixAt(s, j)
      else forall e | k <= e <= |s| && SuffixAt(s, e) :: exists j :: k <= j < e && !IsWord(s[j])
    decreases |s| - k
  {
    hide SuffixAt;
    if !SuffixAt(s, k) && k < |s| && IsWord(s[k]) {
      StripFromTakes(s, k + 1);
    }
  }

  lemma SuffixedAt(name: string, b: string)
    ensures HasSuffix(name, b)
      <==> b != "" && AllWord(b) && |b| <= |name| && b == name[..|b|] && SuffixAt(name, |b|)
  {
    if |b| <= |name| && b == name[..|b|] {
      SuffixAtIs(name, |b|);
      assert name == b + name[|b|..];
      forall t ensures name == b + t <==> name[|b|..] == t {
      }
    }
    if HasSuffix(name, b) {
      var v :| v != "" && AllDigits(v) && (name == b + ("_" + v) || name == b + ("_" + (v + "_0")));
    }
  }

  /** The pattern of the combination takes the shortest name that leaves a suffix, and misses no suffix;
      without one the name stands for itself. */
  lemma BaseIsShortest(name: string)
    ensures (exists b :: HasSuffix(name, b)) ==> HasSuffix(name, Base(name)) && forall b | HasSuffix(name, b) :: |Base(name)| <= |b|
    ensures (forall b :: !HasSuffix(name, b)) ==> Base(name) == name
  {
    if name != "" && IsWord(name[0]) {
      StripFromTakes(name, 1);
    }
    hide SuffixAt, StripFrom;
    forall b ensures HasSuffix(name, b) <==> b != "" && AllWord(b) && |b| <= |name| && b == name[..|b|] && SuffixAt(name, |b|) {
      SuffixedAt(name, b);
    }
    hide HasSuffix;
    forall b | HasSuffix(name, b) ensures Strip(name).Some? && |Strip(name).value| <= |b| {
      assert forall j | 0 <= j < |b| :: name[j] == b[j] && b[j] in b;
    }
    if Strip(name).Some? {
      var b := Strip(name).value;
      assert AllWord(b);
      assert HasSuffix(name, b);
    }
  }

  lemma VersionAtIs(s: string, k: nat)
    requires k <= |s|
    ensures VersionAt(s, k)
      <==> exists v, w, rest :: v != "" && AllDigits(v) && w != "" && AllDigits(w) && s[k..] == "_" + (v + ("_" + (w + rest)))
  {
    if VersionAt(s, k) {
      var d := DigitEnd(s, k + 1);
      var v, w, rest := s[k + 1..d], [s[d + 1]], s[d + 2..];
      assert AllDigits(v) && AllDigits(w);
      assert s[d..] == "_" + (w + rest);
      assert s[k..] == [s[k]] + (v + s[d..]);
    }
    if v, w, rest :| v != "" && AllDigits(v) && w != "" && AllDigits(w) && s[k..] == "_" + (v + ("_" + (w + rest))) {
      DigitsFirst(s, k, v, "_" + (w + rest));
      var d := k + 1 + |v|;
      assert s[d] == s[d..][0] && s[d + 1] == s[d..][1] == w[0] && w[0] in w;
    }
  }

  lemma {:induction false} PubSearchTakes(s: string, k: nat)
    requires k <= |s|
    ensures var r := PubSearch(s, k);
      if r.Some? then 1 <= |r.value| <= k && r.value == s[..|r.value|] && VersionAt(s, |r.value|) &&
        forall j | |r.value| < j <= k :: !VersionAt(s, j)
      else forall j | 1 <= j <= k :: !VersionAt(s, j)
    decreases k
  {
    hide VersionAt;
    if k > 0 && !VersionAt(s, k) {
      PubSearchTakes(s, k - 1);
    }
  }

  lemma VersionedAt(name: string, b: string)
    ensures HasVersion(name, b)
      <==> b != "" && |b| <= WordEnd(name, 0) && b == name[..|b|] && VersionAt(name, |b|)
  {
    if |b| <= |name| && b == name[..|b|] {
      VersionAtIs(name, |b|);
      assert name == b + name[|b|..];
      forall t ensures name == b + t <==> name[|b|..] == t {
      }
      assert forall j | 0 <= j < |b| :: name[j] == b[j];
      assert |b| <= WordEnd(name, 0) <==> AllWord(b) by {
        if AllWord(b) {
          assert forall j | 0 <= j < |b| :: b[j] in b;
        }
      }
    }
    if HasVersion(name, b) {
      var v, w, rest :| v != "" && AllDigits(v) && w != "" && AllDigits(w) && name == b + ("_" + (v + ("_" + (w + rest))));
    }
  }

  /** The pattern of the parser takes the longest name that leaves a two-part version, whatever follows, and
      misses none. */
  lemma PublicIsLongest(name: string)
    ensures PubBase(name).Some? <==> exists b :: HasVersion(name, b)
    ensures PubBase(name).Some? ==>
      HasVersion(name, PubBase(name).value) && forall b | HasVersion(name, b) :: |b| <= |PubBase(name).value|
  {
    PubSearchTakes(name, WordEnd(name, 0));
    hide VersionAt, PubSearch;
    forall b ensures HasVersion(name, b) <==> b != "" && |b| <= WordEnd(name, 0) && b == name[..|b|] && VersionAt(name, |b|) {
      VersionedAt(name, b);
    }
    hide HasVersion;
  }
}
