/** Sorting file contexts by how specific their paths are (tests/fc_sort.py), and the search for the
    most specific match in the sorted list (tests/policy.py). */
module FcSort {
  import opened Options
  import Text

  const META_CHARS: set<char> := {'.', '^', '$', '?', '*', '+', '|', '[', '(', '{'}

  datatype Node = Node(path: string, fileType: Option<string>, context: string, meta: bool, stemLen: nat, strLen: nat,
                       typ: string, line: string)

  /** A line gives an entry, nothing, or an IndexError. */
  datatype Made = Made(node: Node) | Skipped | Crashed

  // ---------------------------------------------------------------------------------------
  // A path as a sequence of plain and escaped characters

  datatype Unit = Plain(c: char) | Escaped(c: char) | LoneBackslash

  ghost function Units(path: string): seq<Unit> {
    if path == "" then []
    else if path[0] != '\\' then [Plain(path[0])] + Units(path[1..])
    else if |path| == 1 then [LoneBackslash]
    else [Escaped(path[1])] + Units(path[2..])
  }

  predicate Bare(u: Unit) {
    u.Plain? && u.c in META_CHARS
  }

  /** The number of units before the first metacharacter that is not escaped. */
  ghost function Stem(us: seq<Unit>): (n: nat)
    ensures n <= |us| && (n < |us| ==> Bare(us[n])) && (forall i | 0 <= i < n :: !Bare(us[i]))
  {
    if us == [] || Bare(us[0]) then 0 else 1 + Stem(us[1..])
  }

  /** `get_stem_len` */
  method GetStemLen(path: string) returns (stemLen: nat)
    ensures stemLen == Stem(Units(path))
  {
    stemLen := 0;
    var i := 0;
    assert path[0..] == path;
    while i < |path|
      invariant 0 <= i <= |path| + 1
      invariant stemLen + (if i <= |path| then Stem(Units(path[i..])) else 0) == Stem(Units(path))
    {
      UnitsAt(path, i);
      if path[i] == '\\' {
        i := i + 1;
      } else if path[i] in META_CHARS {
        break;
      }
      stemLen := stemLen + 1;
      i := i + 1;
    }
    assert i == |path| ==> path[i..] == "";
  }

  lemma UnitsAt(path: string, i: nat)
    requires i < |path|
    ensures path[i] != '\\' ==> Stem(Units(path[i..])) == if path[i] in META_CHARS then 0 else 1 + Stem(Units(path[i + 1..]))
    ensures path[i] == '\\' ==> Stem(Units(path[i..])) == 1 + if i + 2 <= |path| then Stem(Units(path[i + 2..])) else 0
  {
    var s := path[i..];
    assert s[0] == path[i] && s[1..] == path[i + 1..];
    if path[i] == '\\' && |s| > 1 {
      assert s[2..] == path[i + 2..];
      assert ([Escaped(s[1])] + Units(s[2..]))[1..] == Units(s[2..]);
    } else if path[i] != '\\' {
      assert ([Plain(s[0])] + Units(s[1..]))[1..] == Units(s[1..]);
    } else {
      assert [LoneBackslash][1..] == [];
    }
  }

  /** A backslash directly before c occurs in the path. */
  predicate Slashed(path: string, c: char) {
    exists i | 0 < i < |path| :: path[i - 1] == '\\' && path[i] == c
  }

  /** `is_meta`: the metacharacters that occur are counted, and those that occur behind a backslash. */
  method IsMeta(path: string) returns (r: bool)
    ensures r <==> Meta(path)
  {
    var metaCharCount, escapedMetaCharCount := CountChars(path, META_CHARS);
    CountsCompare(path);
    r := metaCharCount > escapedMetaCharCount;
  }

  /** The two loops over the set of metacharacters, in any order. */
  method CountChars(path: string, chars: set<char>) returns (count: nat, escaped: nat)
    ensures count == |Occurring(path, chars)| && escaped == |OccurringSlashed(path, chars)|
  {
    hide Slashed;
    count, escaped := 0, 0;
    var todo := chars;
    while todo != {}
      invariant todo <= chars
      invariant count == |Occurring(path, chars - todo)| && escaped == |OccurringSlashed(path, chars - todo)|
      decreases |todo|
    {
      var c :| c in todo;
      CountNext(path, chars - todo, c);
      assert chars - (todo - {c}) == chars - todo + {c};
      if c in path {
        count := count + 1;
      }
      if Slashed(path, c) {
        escaped := escaped + 1;
      }
      todo := todo - {c};
    }
    assert chars - todo == chars;
  }

  lemma CountNext(path: string, done: set<char>, c: char)
    requires c !in done
    ensures |Occurring(path, done + {c})| == |Occurring(path, done)| + if c in path then 1 else 0
    ensures |OccurringSlashed(path, done + {c})| == |OccurringSlashed(path, done)| + if Slashed(path, c) then 1 else 0
  {
    hide Slashed;
    var a, b := Occurring(path, done), OccurringSlashed(path, done);
    assert c !in a && c !in b;
    assert Occurring(path, done + {c}) == if c in path then a + {c} else a;
    assert OccurringSlashed(path, done + {c}) == if Slashed(path, c) then b + {c} else b;
  }

  function Occurring(path: string, cs: set<char>): set<char> {
    set c | c in cs && c in path
  }

  function OccurringSlashed(path: string, cs: set<char>): set<char> {
    set c | c in cs && Slashed(path, c)
  }

  /** Some metacharacter occurs, and nowhere directly behind a backslash. */
  ghost predicate Meta(path: string) {
    exists c | c in META_CHARS :: c in path && !Slashed(path, c)
  }

  lemma SubsetCounts<T>(a: set<T>, b: set<T>)
    requires a <= b
    ensures |a| <= |b| && (|b| > |a| <==> exists c :: c in b && c !in a)
  {
    assert b == a + (b - a);
    if b - a == {} {
      assert b == a;
    } else {
      var c :| c in b - a;
    }
  }

  lemma CountsCompare(path: string)
    ensures |Occurring(path, META_CHARS)| > |OccurringSlashed(path, META_CHARS)| <==> Meta(path)
  {
    var a, b := OccurringSlashed(path, META_CHARS), Occurring(path, META_CHARS);
    SubsetCounts(a, b);
    if Meta(path) {
      var c :| c in META_CHARS && c in path && !Slashed(path, c);
      assert c in b && c !in a;
    }
  }

  /** The path holds a metacharacter that is not escaped: the stem ends before the path does. */
  ghost predicate HasBare(path: string) {
    Stem(Units(path)) < |Units(path)|
  }

  /** A character that occurs, and never behind a backslash, is a plain unit. */
  lemma {:induction false} NeverSlashedIsPlain(path: string, c: char)
    requires c in path && !Slashed(path, c) && c != '\\'
    ensures Plain(c) in Units(path)
    decreases |path|
  {
    if path[0] == '\\' {
      assert |path| > 1 && path[1] != c by {
        if |path| > 1 && path[1] == c { assert Slashed(path, c); }
      }
      SuffixNotSlashed(path, 2, c);
      assert c in path[2..];
      NeverSlashedIsPlain(path[2..], c);
    } else if path[0] != c {
      SuffixNotSlashed(path, 1, c);
      NeverSlashedIsPlain(path[1..], c);
    }
  }

  lemma SuffixNotSlashed(path: string, k: nat, c: char)
    requires k <= |path|
    ensures Slashed(path[k..], c) ==> Slashed(path, c)
  {
    if Slashed(path[k..], c) {
      var i :| 0 < i < |path| - k && path[k..][i - 1] == '\\' && path[k..][i] == c;
      assert path[i + k - 1] == '\\' && path[i + k] == c;
    }
  }

  lemma {:induction false} PlainOccurs(path: string, c: char)
    ensures Plain(c) in Units(path) ==> c in path
    decreases |path|
  {
    if path != "" {
      PlainOccurs(path[1..], c);
      if |path| > 1 {
        PlainOccurs(path[2..], c);
      }
    }
  }

  lemma BareEndsStem(path: string, u: Unit)
    requires u in Units(path) && Bare(u)
    ensures HasBare(path)
  {
    var i :| 0 <= i < |Units(path)| && Units(path)[i] == u;
  }

  /** `is_meta` claims a metacharacter only where one ends the stem; and it finds one exactly if some
      bare metacharacter is never written directly behind a backslash in the same path. */
  lemma MetaIsBare(path: string)
    ensures Meta(path) ==> HasBare(path)
    ensures Meta(path) <==> exists u :: u in Units(path) && Bare(u) && !Slashed(path, u.c)
  {
    hide Units, Slashed, HasBare;
    if Meta(path) {
      var c :| c in META_CHARS && c in path && !Slashed(path, c);
      NeverSlashedIsPlain(path, c);
      assert Bare(Plain(c));
      BareEndsStem(path, Plain(c));
    }
    if u :| u in Units(path) && Bare(u) && !Slashed(path, u.c) {
      PlainOccurs(path, u.c);
    }
  }

  /** A path that is misjudged: its second dot matches any character. */
  lemma MixedDotsAreNotMeta()
    ensures !Meta("\\..") && HasBare("\\..")
  {
    var p := "\\..";
    assert p[0] == '\\' && p[1] == '.' && p[2..] == "." && "."[1..] == "";
    assert Slashed(p, '.');
    assert Units(".") == [Plain('.')];
    assert Units(p) == [Escaped('.')] + [Plain('.')];
    assert Bare(Units(p)[1]);
  }

  /** Ten characters end the stem when they stand alone, and make a path that has nothing else meta. */
  lemma OneCharacter(c: char)
    ensures Meta([c]) <==> c in ".^$?*+|[({"
    ensures Stem(Units([c])) == if c in ".^$?*+|[({" then 0 else 1
    ensures c in ".^$?*+|[({" ==> Stem(Units(['\\', c])) == 1 && !Meta(['\\', c])
  {
    var p, q := [c], ['\\', c];
    assert c in META_CHARS <==> c in ".^$?*+|[({";
    assert p[1..] == "" && Units("") == [];
    assert Units(p) == if c == '\\' then [LoneBackslash] else [Plain(c)];
    assert Units(p)[1..] == [] && Stem([]) == 0;
    assert forall d | d in p :: d == c;
    assert p[0] == c;
    assert q[2..] == "" && Units(q) == [Escaped(c)] && Units(q)[1..] == [];
    if c in META_CHARS {
      assert q[0] == '\\' && q[1] == c;
      assert Slashed(q, c);
      forall d | d in META_CHARS ensures !(d in q && !Slashed(q, d)) {
        assert d in q ==> d == c;
      }
    }
  }

  // ---------------------------------------------------------------------------------------
  // Entries

  function Unslashed(s: string): string {
    if s == "" then "" else (if s[0] == '\\' then "" else [s[0]]) + Unslashed(s[1..])
  }

  /** All backslashes are gone, and nothing else. */
  lemma {:induction false} UnslashedLength(s: string)
    ensures |Unslashed(s)| == |s| - multiset(s)['\\'] && '\\' !in Unslashed(s)
  {
    if s != "" {
      UnslashedLength(s[1..]);
      assert s == [s[0]] + s[1..];
    }
  }

  /** `s.split(":")[n]` */
  function Field(s: string, n: nat): Option<string>
    decreases n
  {
    var j := Text.Find(s, ':', 0);
    if n == 0 then Some(s[..j]) else if j == |s| then None else Field(s[j + 1..], n - 1)
  }

  /** What `create` makes of a line. */
  ghost predicate IsMade(line: string, m: Made) {
    if line == "" || line[0] == '#' then m == Skipped
    else
      var words := Text.Split(line);
      if words == [] then m == Crashed
      else
        var path, context := words[0], words[|words| - 1];
        var typ := Field(context, 2);
        if typ.None? then m == Crashed
        else m == Made(Node(path, if |words| == 3 then Some(words[1]) else None, context, Meta(path), Stem(Units(path)),
                            |Unslashed(path)|, typ.value, line))
  }

  lemma FieldsOf(user: string, role: string, typ: string, range: string)
    requires ':' !in user && ':' !in role && ':' !in typ
    ensures Field(user + ":" + (role + ":" + (typ + ":" + range)), 2) == Some(typ)
  {
    FieldNext(user, role + ":" + (typ + ":" + range), 2);
    FieldNext(role, typ + ":" + range, 1);
    FieldNext(typ, range, 0);
  }

  lemma FieldNext(first: string, rest: string, n: nat)
    requires ':' !in first
    ensures Field(first + ":" + rest, n) == if n == 0 then Some(first) else Field(rest, n - 1)
  {
    var s := first + ":" + rest;
    var j := Text.Find(s, ':', 0);
    assert s[|first|] == ':';
    assert forall i | 0 <= i < |first| :: s[i] == first[i] && first[i] in first;
    assert j == |first| && s[..j] == first && s[j + 1..] == rest;
  }

  /** A line of two or more words is read back: the first is the path, the last the context, and the one
      between them, if it is only one, the file type. */
  lemma EntryIsRead(path: string, middle: seq<string>, user: string, role: string, typ: string, range: string, m: Made)
    requires path != "" && Text.NoSpace(path) && path[0] != '#'
    requires forall w | w in middle :: w != "" && Text.NoSpace(w)
    requires ':' !in user && ':' !in role && ':' !in typ && Text.NoSpace(user + role + typ + range)
    ensures var context := user + ":" + (role + ":" + (typ + ":" + range));
      var line := Text.Join(" ", [path] + middle + [context]);
      IsMade(line, m) <==> m == Made(Node(path, if |middle| == 1 then Some(middle[0]) else None, context,
                                          Meta(path), Stem(Units(path)), |Unslashed(path)|, typ, line))
  {
    hide Meta, Stem, Units, Unslashed, Field, Text.Split, Text.Join, Text.NoSpace;
    var context := user + ":" + (role + ":" + (typ + ":" + range));
    var parts := [path] + middle + [context];
    FieldsOf(user, role, typ, range);
    WordsOfEntry(path, middle, user, role, typ, range);
    var line := Text.Join(" ", parts);
    assert line != "" && line[0] == path[0];
    assert parts[0] == path && parts[|parts| - 1] == context && (|parts| == 3 <==> |middle| == 1);
    assert |middle| == 1 ==> parts[1] == middle[0];
  }

  lemma WordsOfEntry(path: string, middle: seq<string>, user: string, role: string, typ: string, range: string)
    requires path != "" && Text.NoSpace(path) && forall w | w in middle :: w != "" && Text.NoSpace(w)
    requires Text.NoSpace(user + role + typ + range)
    ensures var context := user + ":" + (role + ":" + (typ + ":" + range));
      var parts := [path] + middle + [context];
      Text.Split(Text.Join(" ", parts)) == parts && path <= Text.Join(" ", parts)
  {
    var context := user + ":" + (role + ":" + (typ + ":" + range));
    var parts := [path] + middle + [context];
    assert forall c | c in context :: c == ':' || c in user + role + typ + range;
    Text.SplitJoin(" ", parts, "");
    assert Text.Join(" ", parts) + "" == Text.Join(" ", parts);
    assert parts[0] == path;
  }

  /** A line whose last word has fewer than two colons, or that is blank, raises an exception. */
  lemma BadLineCrashes(words: seq<string>, last: string, m: Made)
    requires last != "" && Text.NoSpace(last) && forall w | w in words :: w != "" && Text.NoSpace(w)
    requires ':' !in last || exists a, b :: last == a + ":" + b && ':' !in a && ':' !in b
    ensures var line := Text.Join(" ", words + [last]);
      line != "" && line[0] != '#' ==> (IsMade(line, m) <==> m == Crashed)
    ensures forall gap | gap != "" && Text.AllSpace(gap) :: IsMade(gap, m) <==> m == Crashed
  {
    FewFields(last);
    hide Field, Text.Join, Text.Split;
    var line := Text.Join(" ", words + [last]);
    Text.SplitJoin(" ", words + [last], "");
    assert line + "" == line;
    forall gap | gap != "" && Text.AllSpace(gap) ensures IsMade(gap, m) <==> m == Crashed {
      Text.SplitSkipsSpaces(gap, "");
      assert gap + "" == gap && gap[0] in gap;
      NoWords();
    }
  }

  lemma NoWords()
    ensures Text.Split("") == [] && !Text.IsSpace('#')
  {
  }

  lemma FewFields(s: string)
    requires ':' !in s || exists a, b :: s == a + ":" + b && ':' !in a && ':' !in b
    ensures Field(s, 2) == None
  {
    if ':' in s {
      var a, b :| s == a + ":" + b && ':' !in a && ':' !in b;
      FieldNext(a, b, 2);
      OneField(b);
    } else {
      OneField(s);
    }
  }

  lemma OneField(s: string)
    requires ':' !in s
    ensures Field(s, 1) == None && Field(s, 2) == None
  {
    var j := Text.Find(s, ':', 0);
    assert forall k | 0 <= k < |s| :: s[k] in s;
  }

  method Create(line: string) returns (m: Made)
    ensures IsMade(line, m)
  {
    if |line| == 0 || line[0] == '#' {
      return Skipped;
    }
    var split := Text.Split(line);
    if split == [] {
      return Crashed;
    }
    var path, context := split[0], split[|split| - 1];
    var fileType := None;
    if |split| == 3 {
      fileType := Some(split[1]);
    }
    var meta := IsMeta(path);
    var stemLen := GetStemLen(path);
    var strLen := |Unslashed(path)|;
    var typ := Field(context, 2);
    if typ.None? {
      return Crashed;
    }
    return Made(Node(path, fileType, context, meta, stemLen, strLen, typ.value, line));
  }

  // ---------------------------------------------------------------------------------------
  // The order

  /** `__lt__`, branch by branch. */
  predicate Less(a: Node, b: Node) {
    if a.meta && !b.meta then true
    else if b.meta && !a.meta then false
    else if a.stemLen < b.stemLen then true
    else if b.stemLen < a.stemLen then false
    else if a.strLen < b.strLen then true
    else if b.strLen < a.strLen then false
    else if a.fileType.None? && b.fileType.Some? then true
    else false
  }

  /** How specific an entry is: no metacharacter, then the stem, the length, a file type. */
  function Rank(n: Node): seq<int> {
    [if n.meta then 0 else 1, n.stemLen, n.strLen, if n.fileType.Some? then 1 else 0]
  }

  predicate LexLess(a: seq<int>, b: seq<int>)
    requires |a| == |b|
  {
    a != [] && (a[0] < b[0] || (a[0] == b[0] && LexLess(a[1..], b[1..])))
  }

  lemma LexLessOfFour(a: seq<int>, b: seq<int>)
    requires |a| == |b| == 4
    ensures LexLess(a, b) <==> a[0] < b[0] || (a[0] == b[0] && (a[1] < b[1] || (a[1] == b[1] && (a[2] < b[2] || (a[2] == b[2] && a[3] < b[3])))))
  {
    assert LexLess(a[3..], b[3..]) <==> a[3] < b[3];
    assert a[2..][1..] == a[3..] && b[2..][1..] == b[3..] && a[1..][1..] == a[2..] && b[1..][1..] == b[2..];
    assert LexLess(a[2..], b[2..]) <==> a[2] < b[2] || (a[2] == b[2] && a[3] < b[3]);
    assert LexLess(a[1..], b[1..]) <==> a[1] < b[1] || (a[1] == b[1] && LexLess(a[2..], b[2..]));
  }

  /** `__lt__` compares the ranks lexicographically, and two entries are tied exactly if their ranks
      are equal; hence it is a strict weak order. */
  lemma LessIsLexicographic(a: Node, b: Node, c: Node)
    ensures Less(a, b) <==> LexLess(Rank(a), Rank(b))
    ensures a.meta != b.meta ==> (Less(a, b) <==> a.meta)
    ensures a.meta == b.meta && a.stemLen != b.stemLen ==> (Less(a, b) <==> a.stemLen < b.stemLen)
    ensures a.meta == b.meta && a.stemLen == b.stemLen && a.strLen != b.strLen ==> (Less(a, b) <==> a.strLen < b.strLen)
    ensures a.meta == b.meta && a.stemLen == b.stemLen && a.strLen == b.strLen ==>
      (Less(a, b) <==> a.fileType.None? && b.fileType.Some?)
    ensures !Less(a, b) && !Less(b, a) <==> Rank(a) == Rank(b)
    ensures !(Less(a, b) && Less(b, a))
    ensures Less(a, b) && Less(b, c) ==> Less(a, c)
    ensures !Less(a, b) && !Less(b, c) ==> !Less(a, c)
  {
    LexLessOfFour(Rank(a), Rank(b));
  }

  // ---------------------------------------------------------------------------------------
  // Stable sorting

  ghost predicate Ordered(s: seq<Node>) {
    forall i, j | 0 <= i < j < |s| :: !Less(s[j], s[i])
  }

  /** The entries of one rank, in their order. */
  ghost function OfRank(s: seq<Node>, k: seq<int>): seq<Node> {
    if s == [] then []
    else OfRank(s[..|s| - 1], k) + if Rank(s[|s| - 1]) == k then [s[|s| - 1]] else []
  }

  /** What Python promises of `list.sort`: ordered, and entries that tie keep their order. */
  ghost predicate StableSort(ins: seq<Node>, outs: seq<Node>) {
    Ordered(outs) && forall k :: OfRank(outs, k) == OfRank(ins, k)
  }

  function Insert(s: seq<Node>, x: Node): seq<Node> {
    if s == [] || !Less(x, s[|s| - 1]) then s + [x] else Insert(s[..|s| - 1], x) + [s[|s| - 1]]
  }

  function Sort(s: seq<Node>): seq<Node> {
    if s == [] then [] else Insert(Sort(s[..|s| - 1]), s[|s| - 1])
  }

  lemma OfRankNext(s: seq<Node>, x: Node, k: seq<int>)
    ensures OfRank(s + [x], k) == OfRank(s, k) + if Rank(x) == k then [x] else []
  {
    assert (s + [x])[..|s|] == s;
  }

  lemma {:induction false} InsertKeepsOrder(s: seq<Node>, x: Node)
    requires Ordered(s)
    ensures Ordered(Insert(s, x)) && forall n | n in Insert(s, x) :: n == x || n in s
  {
    hide Less;
    if s == [] {
    } else if !Less(x, s[|s| - 1]) {
      forall i | 0 <= i < |s| ensures !Less(x, s[i]) {
        LessIsLexicographic(x, s[|s| - 1], s[i]);
        LessIsLexicographic(s[|s| - 1], s[i], s[i]);
      }
    } else {
      var init, last := s[..|s| - 1], s[|s| - 1];
      InsertKeepsOrder(init, x);
      var t := Insert(init, x);
      forall i | 0 <= i < |t| ensures !Less(last, t[i]) {
        assert t[i] in t;
        LessIsLexicographic(x, last, last);
      }
    }
  }

  lemma {:induction false} InsertKeepsRanks(s: seq<Node>, x: Node, k: seq<int>)
    ensures OfRank(Insert(s, x), k) == OfRank(s, k) + if Rank(x) == k then [x] else []
  {
    hide Less, Rank;
    if s == [] || !Less(x, s[|s| - 1]) {
      OfRankNext(s, x, k);
    } else {
      var init, last := s[..|s| - 1], s[|s| - 1];
      InsertKeepsRanks(init, x, k);
      OfRankNext(Insert(init, x), last, k);
      LessIsLexicographic(x, last, last);
    }
  }

  lemma {:induction false} SortIsStable(s: seq<Node>)
    ensures StableSort(s, Sort(s))
  {
    hide Insert, Ordered;
    if s == [] {
      EmptyIsOrdered();
    } else {
      SortIsStable(s[..|s| - 1]);
      InsertKeepsOrder(Sort(s[..|s| - 1]), s[|s| - 1]);
      forall k ensures OfRank(Sort(s), k) == OfRank(s, k) {
        InsertKeepsRanks(Sort(s[..|s| - 1]), s[|s| - 1], k);
      }
    }
  }

  lemma EmptyIsOrdered()
    ensures Ordered([])
  {
  }

  lemma {:induction false} OfRankHolds(s: seq<Node>, k: seq<int>)
    ensures forall n | n in OfRank(s, k) :: n in s && Rank(n) == k
    ensures (exists n | n in s :: Rank(n) == k) ==> OfRank(s, k) != []
  {
    hide Rank;
    if s != [] {
      OfRankHolds(s[..|s| - 1], k);
      assert s == s[..|s| - 1] + [s[|s| - 1]];
    }
  }

  lemma LastRankIsLargest(a: seq<Node>, b: seq<Node>)
    requires Ordered(a) && a != [] && b != [] && OfRank(a, Rank(b[|b| - 1])) == OfRank(b, Rank(b[|b| - 1]))
    ensures !Less(a[|a| - 1], b[|b| - 1])
  {
    hide Less, Rank;
    var k := Rank(b[|b| - 1]);
    assert b[|b| - 1] in b;
    OfRankHolds(b, k);
    OfRankHolds(a, k);
    var n := OfRank(a, k)[0];
    assert n in OfRank(a, k);
    var i :| 0 <= i < |a| && a[i] == n;
    LessIsLexicographic(a[|a| - 1], n, b[|b| - 1]);
    LessIsLexicographic(n, b[|b| - 1], b[|b| - 1]);
    LessIsLexicographic(a[|a| - 1], a[|a| - 1], a[|a| - 1]);
  }

  lemma OfRankEmpty()
    ensures forall k :: OfRank([], k) == []
  {
  }

  lemma LastIsSame(a: seq<Node>, b: seq<Node>)
    requires a != [] && b != [] && Rank(a[|a| - 1]) == Rank(b[|b| - 1])
    requires OfRank(a, Rank(a[|a| - 1])) == OfRank(b, Rank(a[|a| - 1]))
    ensures a[|a| - 1] == b[|b| - 1]
  {
    hide Rank;
    var k := Rank(a[|a| - 1]);
    var r := OfRank(a, k);
    assert r == OfRank(a[..|a| - 1], k) + [a[|a| - 1]] && r == OfRank(b[..|b| - 1], k) + [b[|b| - 1]];
    assert r[|r| - 1] == a[|a| - 1] && r[|r| - 1] == b[|b| - 1];
  }

  lemma InitIsSame(a: seq<Node>, b: seq<Node>, k: seq<int>)
    requires a != [] && b != [] && a[|a| - 1] == b[|b| - 1] && OfRank(a, k) == OfRank(b, k)
    ensures OfRank(a[..|a| - 1], k) == OfRank(b[..|b| - 1], k)
  {
    hide Rank;
    var r, s, t := OfRank(a, k), OfRank(a[..|a| - 1], k), OfRank(b[..|b| - 1], k);
    var more := if Rank(a[|a| - 1]) == k then [a[|a| - 1]] else [];
    assert r == s + more && r == t + more;
    assert s == r[..|r| - |more|] && t == r[..|r| - |more|];
  }

  /** There is only one stable sort of a list, so it does not matter which algorithm made it. */
  lemma {:induction false} StableSortUnique(a: seq<Node>, b: seq<Node>)
    requires Ordered(a) && Ordered(b) && forall k :: OfRank(a, k) == OfRank(b, k)
    ensures a == b
    decreases |a|
  {
    hide Less, Rank, OfRank;
    if a == [] || b == [] {
      OfRankEmpty();
      var c := if a == [] then b else a;
      if c != [] {
        assert c[0] in c;
        OfRankHolds(c, Rank(c[0]));
      }
    } else {
      var x, y := a[|a| - 1], b[|b| - 1];
      LastRankIsLargest(a, b);
      LastRankIsLargest(b, a);
      LessIsLexicographic(x, y, x);
      var a', b' := a[..|a| - 1], b[..|b| - 1];
      LastIsSame(a, b);
      forall k ensures OfRank(a', k) == OfRank(b', k) {
        InitIsSame(a, b, k);
      }
      StableSortUnique(a', b');
      assert a == a' + [x] && b == b' + [x];
    }
  }

  // ---------------------------------------------------------------------------------------
  // The last match in the sorted list

  ghost function LastMatch(matches: string -> bool, s: seq<Node>): Option<Node> {
    if s == [] then None
    else if matches(s[|s| - 1].path) then Some(s[|s| - 1]) else LastMatch(matches, s[..|s| - 1])
  }

  /** `__FcSortedIndex` for one prefix; `matches` says which paths match it as regular expressions. */
  method FcSortedIndex(matches: string -> bool, fcSorted: seq<Node>) returns (index: nat)
    ensures LastMatch(matches, fcSorted).None? ==> index == 0
    ensures LastMatch(matches, fcSorted).Some? ==> index < |fcSorted| && LastMatch(matches, fcSorted) == Some(fcSorted[index])
    ensures forall i | 0 <= i < |fcSorted| && matches(fcSorted[i].path) :: i <= index
  {
    index := 0;
    for i := 0 to |fcSorted|
      invariant LastMatch(matches, fcSorted[..i]).None? ==> index == 0
      invariant LastMatch(matches, fcSorted[..i]).Some? ==> index < i && LastMatch(matches, fcSorted[..i]) == Some(fcSorted[index])
      invariant forall k | 0 <= k < i && matches(fcSorted[k].path) :: k <= index
    {
      assert fcSorted[..i + 1][..i] == fcSorted[..i];
      if matches(fcSorted[i].path) {
        index := i;
      }
    }
    assert fcSorted[..|fcSorted|] == fcSorted;
  }

  /** Among the matches of the input, j has a largest rank, and of those it is the last. */
  ghost predicate IsBest(matches: string -> bool, ins: seq<Node>, j: nat) {
    && j < |ins| && matches(ins[j].path)
    && forall i | 0 <= i < |ins| && matches(ins[i].path) :: if i <= j then !Less(ins[j], ins[i]) else Less(ins[i], ins[j])
  }

  lemma {:induction false} LastMatchIsMember(matches: string -> bool, s: seq<Node>)
    ensures LastMatch(matches, s).Some? ==> LastMatch(matches, s).value in s && matches(LastMatch(matches, s).value.path)
  {
    if s != [] {
      LastMatchIsMember(matches, s[..|s| - 1]);
    }
  }

  /** An insertion changes the last match exactly if the new entry matches and is not less. */
  lemma {:induction false} InsertMovesMatch(matches: string -> bool, s: seq<Node>, x: Node)
    requires Ordered(s)
    ensures LastMatch(matches, Insert(s, x))
      == var b := LastMatch(matches, s);
         if matches(x.path) && (b.None? || !Less(x, b.value)) then Some(x) else b
  {
    hide Less;
    if s == [] {
      assert [] + [x] == [x] && [x][..0] == [];
    } else {
      var init, last := s[..|s| - 1], s[|s| - 1];
      LastMatchIsMember(matches, s);
      if !Less(x, last) {
        assert (s + [x])[..|s|] == s;
        var b := LastMatch(matches, s);
        if b.Some? {
          var i :| 0 <= i < |s| && s[i] == b.value;
          LessIsLexicographic(x, last, b.value);
          LessIsLexicographic(last, last, last);
        }
      } else {
        assert (Insert(init, x) + [last])[..|Insert(init, x)|] == Insert(init, x);
        InsertMovesMatch(matches, init, x);
      }
    }
  }

  /** The match that the search would keep while the input is sorted in. */
  lemma {:induction false} SortedMatchIsBest(matches: string -> bool, ins: seq<Node>)
    ensures LastMatch(matches, Sort(ins)).None? ==> forall n | n in ins :: !matches(n.path)
    ensures LastMatch(matches, Sort(ins)).Some? ==>
      exists j: nat :: IsBest(matches, ins, j) && LastMatch(matches, Sort(ins)) == Some(ins[j])
  {
    hide Less, Insert, LastMatch;
    if ins == [] {
      NoMatch(matches);
    } else {
      var init, x := ins[..|ins| - 1], ins[|ins| - 1];
      SortedMatchIsBest(matches, init);
      SortIsStable(init);
      InsertMovesMatch(matches, Sort(init), x);
      var b := LastMatch(matches, Sort(init));
      assert ins == init + [x];
      if b.Some? {
        var j: nat :| IsBest(matches, init, j) && b == Some(init[j]);
        BestNext(matches, init, x, j);
      } else if matches(x.path) {
        FirstBest(matches, init, x);
      }
    }
  }

  lemma NoMatch(matches: string -> bool)
    ensures LastMatch(matches, Sort([])) == None
  {
  }

  lemma FirstBest(matches: string -> bool, init: seq<Node>, x: Node)
    requires matches(x.path) && forall n | n in init :: !matches(n.path)
    ensures IsBest(matches, init + [x], |init|)
  {
    LessIsLexicographic(x, x, x);
    hide Less;
  }

  lemma BestNext(matches: string -> bool, init: seq<Node>, x: Node, j: nat)
    requires IsBest(matches, init, j)
    ensures IsBest(matches, init + [x], if matches(x.path) && !Less(x, init[j]) then |init| else j)
  {
    hide Less;
    var ins := init + [x];
    LessIsLexicographic(x, x, x);
    if matches(x.path) && !Less(x, init[j]) {
      forall i | 0 <= i < |init| && matches(init[i].path) ensures !Less(x, init[i]) {
        LessIsLexicographic(x, init[j], init[i]);
        LessIsLexicographic(init[i], init[j], init[i]);
      }
    }
  }

  /** The last exact match in the sorted list is the most specific match of the input, and the
      latest line among equally specific ones. */
  lemma LastMatchIsMostSpecific(matches: string -> bool, ins: seq<Node>, outs: seq<Node>)
    requires StableSort(ins, outs)
    ensures LastMatch(matches, outs).None? <==> forall n | n in ins :: !matches(n.path)
    ensures LastMatch(matches, outs).Some? ==>
      exists j: nat :: IsBest(matches, ins, j) && LastMatch(matches, outs) == Some(ins[j])
  {
    hide Less, Sort, LastMatch, OfRank, Ordered;
    SortIsStable(ins);
    StableSortUnique(Sort(ins), outs);
    SortedMatchIsBest(matches, ins);
  }
}
