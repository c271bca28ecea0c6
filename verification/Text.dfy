/** An optional value. */
module Options {
  datatype Option<+T> = None | Some(value: T)
}

/** The string operations of the Python tools: character classes, scanning, `split`, `join`
    and `sorted`. Characters outside ASCII count as neither space, digit nor word character. */
module Text {

  /** What `str.split` and the regular expression `\s` treat as white space. */
  predicate IsSpace(c: char) {
    c == ' ' || '\t' <= c <= '\r' || '\U{1C}' <= c <= '\U{1F}'
  }

  predicate IsDigit(c: char) {
    '0' <= c <= '9'
  }

  /** The regular expression `\w`. */
  predicate IsWord(c: char) {
    'a' <= c <= 'z' || 'A' <= c <= 'Z' || IsDigit(c) || c == '_'
  }

  predicate NoSpace(s: string) {
    forall c | c in s :: !IsSpace(c)
  }

  predicate AllSpace(s: string) {
    forall c | c in s :: IsSpace(c)
  }

  predicate AllDigits(s: string) {
    forall c | c in s :: IsDigit(c)
  }

  predicate AllWord(s: string) {
    forall c | c in s :: IsWord(c)
  }

  // ---- scanning: the end of the run of one character class that starts at i ----

  function SpaceEnd(s: string, i: nat): (j: nat)
    requires i <= |s|
    ensures i <= j <= |s| && (j < |s| ==> !IsSpace(s[j]))
    ensures forall k | i <= k < j :: IsSpace(s[k])
    decreases |s| - i
  {
    if i < |s| && IsSpace(s[i]) then SpaceEnd(s, i + 1) else i
  }

  function NonSpaceEnd(s: string, i: nat): (j: nat)
    requires i <= |s|
    ensures i <= j <= |s| && (j < |s| ==> IsSpace(s[j]))
    ensures forall k | i <= k < j :: !IsSpace(s[k])
    decreases |s| - i
  {
    if i < |s| && !IsSpace(s[i]) then NonSpaceEnd(s, i + 1) else i
  }

  function DigitEnd(s: string, i: nat): (j: nat)
    requires i <= |s|
    ensures i <= j <= |s| && (j < |s| ==> !IsDigit(s[j]))
    ensures forall k | i <= k < j :: IsDigit(s[k])
    decreases |s| - i
  {
    if i < |s| && IsDigit(s[i]) then DigitEnd(s, i + 1) else i
  }

  function WordEnd(s: string, i: nat): (j: nat)
    requires i <= |s|
    ensures i <= j <= |s| && (j < |s| ==> !IsWord(s[j]))
    ensures forall k | i <= k < j :: IsWord(s[k])
    decreases |s| - i
  {
    if i < |s| && IsWord(s[i]) then WordEnd(s, i + 1) else i
  }

  /** The first occurrence of c at or after i, or the end of s. */
  function Find(s: string, c: char, i: nat): (j: nat)
    requires i <= |s|
    ensures i <= j <= |s| && (j < |s| ==> s[j] == c)
    ensures forall k | i <= k < j :: s[k] != c
    decreases |s| - i
  {
    if i < |s| && s[i] != c then Find(s, c, i + 1) else i
  }

  // ---- str.split() and str.join ----

  function Split(s: string): seq<string>
  {
    if s == "" then []
    else if IsSpace(s[0]) then Split(s[1..])
    else var k := NonSpaceEnd(s, 0); [s[..k]] + Split(s[k..])
  }

  function Join(sep: string, parts: seq<string>): string
  {
    if |parts| == 0 then ""
    else if |parts| == 1 then parts[0]
    else parts[0] + sep + Join(sep, parts[1..])
  }

  lemma JoinTwoOrThree(sep: string, a: string, b: string, c: string)
    ensures Join(sep, [a, b]) == a + sep + b
    ensures Join(sep, [a, b, c]) == a + sep + b + sep + c
  {
    assert [a, b][1..] == [b];
    assert Join(sep, [b, c]) == b + sep + c by { assert [b, c][1..] == [c]; }
    assert [a, b, c][1..] == [b, c];
    assert Join(sep, [a, b, c]) == a + sep + (b + sep + c);
  }

  lemma {:induction false} SplitSkipsSpaces(spaces: string, r: string)
    requires AllSpace(spaces)
    ensures Split(spaces + r) == Split(r)
  {
    if spaces == "" {
      assert spaces + r == r;
    } else {
      assert (spaces + r)[1..] == spaces[1..] + r;
      SplitSkipsSpaces(spaces[1..], r);
    }
  }

  lemma SplitTakesWord(w: string, r: string)
    requires w != "" && NoSpace(w)
    requires r != "" ==> IsSpace(r[0])
    ensures Split(w + r) == [w] + Split(r)
  {
    var s := w + r;
    var k := NonSpaceEnd(s, 0);
    assert forall i | 0 <= i < |w| :: s[i] == w[i] && s[i] in w;
    assert r != "" ==> s[|w|] == r[0];
    assert k == |w|;
    assert s[..|w|] == w && s[|w|..] == r;
  }

  /** Splitting undoes joining, for any white-space separator and any trailing white space. */
  lemma {:induction false} SplitJoin(sep: string, parts: seq<string>, tail: string)
    requires sep != "" && AllSpace(sep) && AllSpace(tail)
    requires forall p | p in parts :: p != "" && NoSpace(p)
    ensures Split(Join(sep, parts) + tail) == parts
  {
    if |parts| == 0 {
      SplitSkipsSpaces(tail, "");
      assert Join(sep, parts) + tail == tail + "";
    } else if |parts| == 1 {
      assert parts[0] in parts;
      SplitTakesWord(parts[0], tail);
      SplitSkipsSpaces(tail, "");
      assert tail + "" == tail;
    } else {
      var rest := Join(sep, parts[1..]) + tail;
      assert Join(sep, parts) + tail == parts[0] + (sep + rest);
      assert parts[0] in parts && forall p | p in parts[1..] :: p in parts;
      SplitTakesWord(parts[0], sep + rest);
      SplitSkipsSpaces(sep, rest);
      SplitJoin(sep, parts[1..], tail);
    }
  }

  // ---- sorted() on a set of strings ----

  /** The strict order in which Python compares strings, by code point. */
  predicate Before(a: string, b: string)
  {
    b != "" && (a == "" || a[0] < b[0] || (a[0] == b[0] && Before(a[1..], b[1..])))
  }

  /** Where two names first differ, the smaller character decides; a name comes before those it starts. */
  lemma {:induction false} FirstDifferenceDecides(p: string, c: char, a: string, d: char, b: string)
    ensures c != d ==> (Before(p + ([c] + a), p + ([d] + b)) <==> c < d)
    ensures Before(p, p + ([c] + a)) && !Before(p + ([c] + a), p)
  {
    if p == "" {
      assert p + ([c] + a) == [c] + a && p + ([d] + b) == [d] + b;
    } else {
      assert (p + ([c] + a))[1..] == p[1..] + ([c] + a) && (p + ([d] + b))[1..] == p[1..] + ([d] + b);
      FirstDifferenceDecides(p[1..], c, a, d, b);
    }
  }

  lemma {:induction false} BeforeTotal(a: string, b: string)
    ensures a == b || Before(a, b) || Before(b, a)
  {
    if a != "" && b != "" && a[0] == b[0] {
      BeforeTotal(a[1..], b[1..]);
      if a[1..] == b[1..] {
        assert a == [a[0]] + a[1..] && b == [b[0]] + b[1..];
      }
    }
  }

  lemma {:induction false} BeforeTransitive(a: string, b: string, c: string)
    requires Before(a, b) && Before(b, c)
    ensures Before(a, c) && !Before(b, a)
  {
    if a != "" && a[0] == b[0] {
      if b[0] == c[0] {
        BeforeTransitive(a[1..], b[1..], c[1..]);
      } else {
        BeforeAsymmetric(a[1..], b[1..]);
      }
    }
  }

  lemma {:induction false} BeforeAsymmetric(a: string, b: string)
    requires Before(a, b)
    ensures !Before(b, a)
  {
    if a != "" && a[0] == b[0] {
      BeforeAsymmetric(a[1..], b[1..]);
    }
  }

  ghost predicate IsLeast(m: string, s: set<string>) {
    m in s && forall x | x in s :: x == m || Before(m, x)
  }

  lemma {:induction false} LeastExists(s: set<string>) returns (m: string)
    requires s != {}
    ensures IsLeast(m, s)
  {
    var x :| x in s;
    if s == {x} {
      m := x;
    } else {
      var m' := LeastExists(s - {x});
      BeforeTotal(x, m');
      m := if Before(x, m') then x else m';
      forall y | y in s ensures y == m || Before(m, y) {
        if Before(x, m') && y != x && y != m' {
          BeforeTransitive(x, m', y);
        }
      }
    }
  }

  lemma LeastUnique(s: set<string>)
    ensures forall m, m' | IsLeast(m, s) && IsLeast(m', s) :: m == m'
  {
    forall m, m' | IsLeast(m, s) && IsLeast(m', s) ensures m == m' {
      if m != m' { BeforeAsymmetric(m, m'); }
    }
  }

  function Least(s: set<string>): (m: string)
    requires s != {}
    ensures m in s && forall x | x in s :: x == m || Before(m, x)
  {
    assert exists m :: IsLeast(m, s) by { var w := LeastExists(s); }
    LeastUnique(s);
    assert forall m, m' | m in s && (forall x | x in s :: x == m || Before(m, x))
                       && m' in s && (forall x | x in s :: x == m' || Before(m', x)) :: IsLeast(m, s) && IsLeast(m', s);
    var m :| m in s && forall x | x in s :: x == m || Before(m, x);
    m
  }

  predicate Ascending(names: seq<string>) {
    forall i, j | 0 <= i < j < |names| :: Before(names[i], names[j])
  }

  /** `sorted(s)` */
  function Sorted(s: set<string>): (r: seq<string>)
    ensures forall x :: x in r <==> x in s
    decreases |s|
  {
    if s == {} then [] else var m := Least(s); [m] + Sorted(s - {m})
  }

  lemma {:induction false} SortedAscending(s: set<string>)
    ensures Ascending(Sorted(s))
    decreases |s|
  {
    if s != {} {
      SortedAscending(s - {Least(s)});
    }
  }

  function Elements<T(==)>(xs: seq<T>): set<T> {
    set x | x in xs
  }
}
