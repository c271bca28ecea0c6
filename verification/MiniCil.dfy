/** The parser and printer of compatibility mapping files (tests/mini_parser.py). */
module MiniCil {
  import opened Options
  import opened Text

  /** Everything a parsed file is remembered by: the fields of `MiniCilParser`. */
  datatype Cil = Cil(
    types: set<string>,
    pubtypes: set<string>,
    expand: map<string, string>,
    attributes: set<string>,
    sets: map<string, set<string>>,
    rsets: map<string, set<string>>)

  const EMPTY := Cil({}, {}, map[], {}, map[], map[])

  const TYPE := "type"
  const ATTRIBUTE := "typeattribute"
  const SET := "typeattributeset"
  const EXPAND := "expandtypeattribute"

  // ---------------------------------------------------------------------------------------
  // Reading one statement. A string `cur` stands for the character read last, followed by what
  // the file still holds; it is empty once the reader has met the end of the file.

  /** What follows the first character, as one more `read(1)` leaves it. */
  function Tail(cur: string): string {
    if cur == "" then "" else cur[1..]
  }

  /** The inner loop that drops a comment; None when it has no end and the loop never stops. */
  function SkipComment(cur: string): (r: Option<string>)
    ensures r.Some? <==> '\n' in cur
    ensures r.Some? ==> |r.value| <= |cur| && r.value != "" && r.value[0] == '\n'
  {
    if cur == "" then None
    else if cur[0] == '\n' then Some(cur)
    else SkipComment(cur[1..])
  }

  /** The first loop: on to the parenthesis that opens a statement, or the end of the file. */
  function Seek(cur: string): (r: Option<string>)
    ensures r.Some? ==> |r.value| <= |cur|
    decreases |cur|
  {
    if cur == "" || cur[0] == '(' then Some(cur)
    else if cur[0] == ';' then
      var c := SkipComment(cur);
      if c.None? then None else Seek(c.value[1..])
    else Seek(cur[1..])
  }

  /** One look at the next character inside a statement: where the reader stands afterwards,
      and in how many parentheses. */
  function Look(next: string, parens: nat): (r: Option<(string, nat)>)
    requires parens > 0
    ensures r.Some? ==> |r.value.0| <= |next|
  {
    if next == "" then Some((next, parens))
    else if next[0] == ';' then
      var c := SkipComment(next);
      if c.None? then None else Some((c.value, parens))
    else if next[0] == '(' then Some((next, parens + 1))
    else if next[0] == ')' then Some((next, parens - 1))
    else Some((next, parens))
  }

  /** The second loop: the text collected, and where the reader stops. */
  function Body(cur: string, parens: nat): (r: Option<(string, string)>)
    ensures r.Some? ==> |r.value.1| <= |cur| && (r.value.0 == "" <==> cur == "" || parens == 0)
    decreases |cur|
  {
    if cur == "" || parens == 0 then Some(("", cur))
    else
      var l := Look(cur[1..], parens);
      if l.None? then None
      else
        var b := Body(l.value.0, l.value.1);
        if b.None? then None else Some(([cur[0]] + b.value.0, b.value.1))
  }

  /** The statement that `_getNextStmt` returns, with the text it leaves unread. `Hang` is the
      source reading the end of the file for ever, inside a comment that has no newline. */
  datatype Read = Stmt(body: string, rest: string) | Hang

  function NextStmt(text: string): (r: Read)
    ensures r.Stmt? && r.body != "" ==> |r.rest| < |text|
  {
    var start := Seek(text);
    if start.None? then Hang
    else
      var b := Body(Tail(start.value), 1);
      if b.None? then Hang else Stmt(b.value.0, Tail(b.value.1))
  }

  // ---------------------------------------------------------------------------------------
  // The regular expressions

  /** Where `.+` starts matching in `\s+.+`: the last i in (lo, i] with a character other than
      a newline, since `\s+` takes all it can and then gives back. */
  function GiveBack(s: string, lo: nat, i: nat): (r: Option<nat>)
    requires lo <= i <= |s|
    ensures r.Some? ==> lo < r.value < |s|
  {
    if i == lo then None
    else if i < |s| && s[i] != '\n' then Some(i)
    else GiveBack(s, lo, i - 1)
  }

  /** Matching `kw\s+(.+)` at the start of s: where group 1 starts. */
  function Head(kw: string, s: string): (r: Option<nat>)
    ensures r.Some? ==> |kw| < r.value < |s|
  {
    if kw <= s then GiveBack(s, |kw|, SpaceEnd(s, |kw|)) else None
  }

  /** Group 1 of that match: the rest of the line. */
  function Line(s: string, i: nat): string
    requires i <= |s|
  {
    s[i..Find(s, '\n', i)]
  }

  /** `\s+(true|false)` at position k. */
  function FlagAt(s: string, k: nat): (r: Option<string>)
    requires k <= |s|
    ensures k == |s| ==> r.None?
  {
    var w := SpaceEnd(s, k);
    if k == w then None
    else if "true" <= s[w..] then Some("true")
    else if "false" <= s[w..] then Some("false")
    else None
  }

  /** The greedy `(.+)\)\s+(true|false)`: the last parenthesis in [lo, j] that a flag follows, and the flag. */
  function ExpandEnd(s: string, lo: nat, j: nat): (r: Option<(nat, string)>)
    requires lo <= j <= |s|
    ensures r.Some? ==> lo <= r.value.0 < |s|
  {
    var flag := if j < |s| && s[j] == ')' then FlagAt(s, j + 1) else None;
    if flag.Some? then Some((j, flag.value))
    else if j == lo then None
    else ExpandEnd(s, lo, j - 1)
  }

  /** `kw\s+\((.+)\)\s+(true|false)` at the start of s: both groups. */
  function MatchExpand(kw: string, s: string): Option<(string, string)>
  {
    if !(kw <= s) then None
    else
      var i := SpaceEnd(s, |kw|);
      if i == |kw| || |s| < i + 2 || s[i] != '(' then None
      else
        var e := Find(s, '\n', i + 1);
        if e < i + 2 then None
        else
          var j := ExpandEnd(s, i + 2, e);
          if j.None? then None
          else Some((s[i + 1..j.value.0], j.value.1))
  }

  /** `(.+?)\s+\((.+?)\)` from i, with group 1 ending at k or later: both groups. */
  function SetAt(s: string, i: nat, k: nat): Option<(string, string)>
    requires i < k <= |s|
    decreases |s| - k
  {
    var w := SpaceEnd(s, k);
    if k < w && w + 2 <= |s| && s[w] == '(' && Find(s, ')', w + 2) < |s| then
      Some((s[i..k], s[w + 1..Find(s, ')', w + 2)]))
    else if k < |s| then SetAt(s, i, k + 1)
    else None
  }

  /** The same after a `\s+` that ends at i or, failing that, gives back down to lo + 1. */
  function SetFrom(s: string, lo: nat, i: nat): Option<(string, string)>
    requires lo <= i <= |s|
  {
    if i == lo then None
    else
      var r := if i < |s| then SetAt(s, i, i + 1) else None;
      if r.Some? then r else SetFrom(s, lo, i - 1)
  }

  /** `kw\s+(.+?)\s+\((.+?)\)` at the start of s, where `.` matches a newline: both groups. */
  function MatchSet(kw: string, s: string): Option<(string, string)> {
    if kw <= s then SetFrom(s, |kw|, SpaceEnd(s, |kw|)) else None
  }

  /** `_\d+_\d+` at position k. */
  predicate VersionAt(s: string, k: nat) {
    k < |s| && s[k] == '_' &&
    var d := DigitEnd(s, k + 1);
    k + 1 < d && d + 1 < |s| && s[d] == '_' && IsDigit(s[d + 1])
  }

  /** The greedy `(\w+)_\d+_\d+`: the longest group 1 of length k or less. */
  function PubSearch(ta: string, k: nat): Option<string>
    requires k <= |ta|
  {
    if k == 0 then None
    else if VersionAt(ta, k) then Some(ta[..k])
    else PubSearch(ta, k - 1)
  }

  /** The public type a versioned attribute stands for, as `(\w+)_\d+_\d+` finds it. */
  function PubBase(ta: string): Option<string> {
    PubSearch(ta, WordEnd(ta, 0))
  }

  function PubNames(tas: set<string>): set<string> {
    set ta | ta in tas && PubBase(ta).Some? :: PubBase(ta).value
  }

  // ---------------------------------------------------------------------------------------
  // The effect of a statement, and of a whole file

  function Lookup(m: map<string, set<string>>, x: string): set<string> {
    if x in m then m[x] else {}
  }

  function AddMembers(rsets: map<string, set<string>>, tas: seq<string>, ta: string): map<string, set<string>>
    decreases |tas|
  {
    if tas == [] then rsets
    else AddMembers(rsets[tas[0] := Lookup(rsets, tas[0]) + {ta}], tas[1..], ta)
  }

  lemma {:induction false} AddMembersHas(rsets: map<string, set<string>>, tas: seq<string>, ta: string)
    ensures forall t :: Lookup(AddMembers(rsets, tas, ta), t) == Lookup(rsets, t) + if t in tas then {ta} else {}
    ensures AddMembers(rsets, tas, ta).Keys == rsets.Keys + Elements(tas)
    decreases |tas|
  {
    if tas != [] {
      assert tas == [tas[0]] + tas[1..];
      AddMembersHas(rsets[tas[0] := Lookup(rsets, tas[0]) + {ta}], tas[1..], ta);
    }
  }

  /** What a statement asks of the parser. `Broken` is one whose keyword is recognized and whose
      rest does not match, where the source uses the result of a failed match and stops. */
  datatype Command =
    | Type(name: string)
    | Attribute(name: string)
    | Set(name: string, members: seq<string>)
    | Expand(name: string, flag: string)
    | Other
    | Broken

  function Classify(s: string): Command {
    if Head(TYPE, s).Some? then Type(Line(s, Head(TYPE, s).value))
    else if Head(ATTRIBUTE, s).Some? then Attribute(Line(s, Head(ATTRIBUTE, s).value))
    else if Head(SET, s).Some? then ClassifySet(s)
    else if Head(EXPAND, s).Some? then ClassifyExpand(s)
    else Other
  }

  function ClassifySet(s: string): Command {
    var m := MatchSet(SET, s);
    if m.None? then Broken else Set(m.value.0, Split(m.value.1))
  }

  function ClassifyExpand(s: string): Command {
    var m := MatchExpand(EXPAND, s);
    if m.None? then Broken else Expand(m.value.0, m.value.1)
  }

  function AddSet(c: Cil, ta: string, tas: seq<string>): Cil {
    c.(sets := c.sets[ta := Lookup(c.sets, ta) + Elements(tas)],
       rsets := AddMembers(c.rsets, tas, ta),
       pubtypes := c.pubtypes + if PubBase(ta).Some? then {PubBase(ta).value} else {})
  }

  /** The effect of a statement on the fields of the parser. */
  function Apply(c: Cil, cmd: Command): Option<Cil> {
    match cmd
    case Type(x) => Some(c.(types := c.types + {x}))
    case Attribute(x) => Some(c.(attributes := c.attributes + {x}))
    case Set(ta, tas) => Some(AddSet(c, ta, tas))
    case Expand(ta, flag) => Some(c.(expand := c.expand[ta := flag]))
    case Other => Some(c)
    case Broken => None
  }

  datatype Outcome = Parsed(cil: Cil) | Crashed | Hung

  function ParseFrom(text: string, c: Cil): Outcome
    decreases |text|
  {
    match NextStmt(text)
    case Hang => Hung
    case Stmt(body, rest) =>
      if body == "" then Parsed(c)
      else
        var c' := Apply(c, Classify(body));
        if c'.None? then Crashed else ParseFrom(rest, c'.value)
  }

  /** What constructing a `MiniCilParser` from a file with this text comes to. */
  function Parse(text: string): Outcome {
    ParseFrom(text, EMPTY)
  }

  // ---------------------------------------------------------------------------------------
  // The index, as an invariant of the parser

  /** The relation of `sets`, read backwards. */
  function Inverse(sets: map<string, set<string>>): map<string, set<string>> {
    map t | t in Members(sets) :: set ta | ta in sets && t in sets[ta]
  }

  function Members(sets: map<string, set<string>>): set<string> {
    set ta, t | ta in sets && t in sets[ta] :: t
  }

  /** Both derived fields say exactly what `sets` says. */
  ghost predicate Indexed(c: Cil) {
    c.rsets == Inverse(c.sets) && c.pubtypes == PubNames(c.sets.Keys)
  }

  lemma InverseHas(sets: map<string, set<string>>)
    ensures forall t, ta :: ta in Lookup(Inverse(sets), t) <==> t in Lookup(sets, ta)
    ensures forall t | t in Inverse(sets) :: Inverse(sets)[t] != {}
  {
    forall t, ta ensures ta in Lookup(Inverse(sets), t) <==> t in Lookup(sets, ta) {
    }
    forall t | t in Inverse(sets) ensures Inverse(sets)[t] != {} {
      var ta :| ta in sets && t in sets[ta];
      assert ta in Inverse(sets)[t];
    }
  }

  lemma InverseIs(sets: map<string, set<string>>, rsets: map<string, set<string>>)
    requires forall t | t in rsets :: rsets[t] != {}
    requires forall t, ta :: ta in Lookup(rsets, t) <==> t in Lookup(sets, ta)
    ensures rsets == Inverse(sets)
  {
    InverseHas(sets);
    forall t ensures Lookup(rsets, t) == Lookup(Inverse(sets), t) && (t in rsets <==> t in Inverse(sets)) {
      forall ta ensures ta in Lookup(rsets, t) <==> ta in Lookup(Inverse(sets), t) {
        assert ta in Lookup(rsets, t) <==> t in Lookup(sets, ta);
      }
    }
    assert rsets.Keys == Inverse(sets).Keys;
    forall t | t in rsets ensures rsets[t] == Inverse(sets)[t] {
      assert Lookup(rsets, t) == Lookup(Inverse(sets), t);
    }
  }

  lemma PubNamesAdd(tas: set<string>, ta: string)
    ensures PubNames(tas + {ta}) == PubNames(tas) + if PubBase(ta).Some? then {PubBase(ta).value} else {}
  {
  }

  lemma AddMembersIndexes(sets: map<string, set<string>>, rsets: map<string, set<string>>, ta: string, tas: seq<string>)
    requires rsets == Inverse(sets)
    ensures AddMembers(rsets, tas, ta) == Inverse(sets[ta := Lookup(sets, ta) + Elements(tas)])
  {
    InverseHas(sets);
    AddMembersHas(rsets, tas, ta);
    var sets', rsets' := sets[ta := Lookup(sets, ta) + Elements(tas)], AddMembers(rsets, tas, ta);
    forall t | t in rsets' ensures rsets'[t] != {} {
      assert Lookup(rsets', t) == Lookup(rsets, t) + if t in tas then {ta} else {};
      if t in tas { assert ta in rsets'[t]; }
    }
    forall t, a ensures a in Lookup(rsets', t) <==> t in Lookup(sets', a) {
      assert a in Lookup(rsets, t) <==> t in Lookup(sets, a);
    }
    InverseIs(sets', rsets');
  }

  lemma AddSetIndexed(c: Cil, ta: string, tas: seq<string>)
    requires Indexed(c)
    ensures Indexed(AddSet(c, ta, tas))
  {
    AddMembersIndexes(c.sets, c.rsets, ta, tas);
    PubNamesAdd(c.sets.Keys, ta);
    hide Inverse, PubNames, PubBase, AddMembers, Lookup;
    assert AddSet(c, ta, tas).sets.Keys == c.sets.Keys + {ta};
  }

  lemma ApplyIndexed(c: Cil, cmd: Command)
    requires Indexed(c)
    ensures Apply(c, cmd).Some? ==> Indexed(Apply(c, cmd).value)
  {
    if cmd.Set? {
      AddSetIndexed(c, cmd.name, cmd.members);
    }
  }

  /** Whatever a file says, the parser's reverse index ends up the exact inverse of its sets and
      `pubtypes` names exactly the versioned attributes among them. */
  lemma {:induction false} ParsedIsIndexed(text: string, c: Cil)
    requires Indexed(c)
    ensures ParseFrom(text, c).Parsed? ==> Indexed(ParseFrom(text, c).cil)
    decreases |text|
  {
    var r := NextStmt(text);
    if r.Stmt? && r.body != "" {
      ApplyIndexed(c, Classify(r.body));
      var c' := Apply(c, Classify(r.body));
      if c'.Some? {
        ParsedIsIndexed(r.rest, c'.value);
      }
    }
  }
}
