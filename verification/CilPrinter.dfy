/** The printer of mapping files and its round trip with the parser (tests/mini_parser.py). */
module CilPrinter {
  import opened Options
  import opened Text
  import opened MiniCil

  function WrapParens(stmt: string): string {
    "(" + stmt + ")"
  }

  /** One statement as `unparse` prints it, without its outer parentheses. */
  function Print(cmd: Command): string {
    match cmd
    case Type(x) => Join(" ", [TYPE, x])
    case Attribute(x) => Join(" ", [ATTRIBUTE, x])
    case Expand(ta, flag) => Join(" ", [EXPAND, WrapParens(ta), flag])
    case Set(ta, members) => Join(" ", [SET, ta, WrapParens(Join(" ", members))])
    case _ => ""
  }

  function Types(names: seq<string>): seq<Command> {
    if names == [] then [] else [Type(names[0])] + Types(names[1..])
  }

  function Attributes(names: seq<string>): seq<Command> {
    if names == [] then [] else [Attribute(names[0])] + Attributes(names[1..])
  }

  function Expands(m: map<string, string>, names: seq<string>): seq<Command>
    requires forall n | n in names :: n in m
    decreases |names|
  {
    if names == [] then [] else [Expand(names[0], m[names[0]])] + Expands(m, names[1..])
  }

  function Sets(m: map<string, set<string>>, names: seq<string>): seq<Command>
    requires forall n | n in names :: n in m
    decreases |names|
  {
    if names == [] then [] else [Set(names[0], Sorted(m[names[0]]))] + Sets(m, names[1..])
  }

  /** The statements that `unparse` prints, in its order. */
  function Commands(c: Cil): seq<Command> {
    Types(Sorted(c.types)) + (Attributes(Sorted(c.attributes)) +
    (Expands(c.expand, Sorted(c.expand.Keys)) + Sets(c.sets, Sorted(c.sets.Keys))))
  }

  function Lines(cmds: seq<Command>): string {
    if cmds == [] then "" else WrapParens(Print(cmds[0])) + "\n" + Lines(cmds[1..])
  }

  /** The text `unparse` returns. */
  function Unparse(c: Cil): string {
    Lines(Commands(c))
  }

  lemma {:induction false} LinesAppend(xs: seq<Command>, ys: seq<Command>)
    ensures Lines(xs + ys) == Lines(xs) + Lines(ys)
  {
    if xs == [] {
      assert xs + ys == ys;
    } else {
      assert (xs + ys)[1..] == xs[1..] + ys;
      LinesAppend(xs[1..], ys);
    }
  }

  // ---------------------------------------------------------------------------------------
  // Which states can be printed

  /** A name that survives printing: not empty, without white space, parentheses or `;`. */
  predicate NameOk(n: string) {
    n != "" && Plain(n) && NoSpace(n)
  }

  predicate Plain(s: string) {
    forall c | c in s :: c != '(' && c != ')' && c != ';'
  }

  ghost predicate NamesOk(c: Cil) {
    && (forall x | x in c.types + c.attributes :: NameOk(x))
    && (forall ta | ta in c.expand :: NameOk(ta) && c.expand[ta] in {"true", "false"})
    && (forall ta | ta in c.sets :: NameOk(ta) && forall t | t in c.sets[ta] :: NameOk(t))
  }

  ghost predicate NonEmptySets(c: Cil) {
    forall ta | ta in c.sets :: c.sets[ta] != {}
  }

  ghost predicate Printable(c: Cil) {
    NamesOk(c) && NonEmptySets(c)
  }

  /** A state with its derived fields computed afresh from its sets. */
  function Fresh(c: Cil): Cil {
    c.(rsets := Inverse(c.sets), pubtypes := PubNames(c.sets.Keys))
  }

  // ---------------------------------------------------------------------------------------
  // Reading back one printed statement

  function Shift(parens: int, c: char): int {
    if c == '(' then parens + 1 else if c == ')' then parens - 1 else parens
  }

  /** s can follow inside a statement: no comment, never out of the last parenthesis, back in
      exactly one at its end. */
  predicate Closes(s: string, parens: int) {
    parens >= 1 &&
    if s == "" then parens == 1 else s[0] != ';' && Closes(s[1..], Shift(parens, s[0]))
  }

  lemma {:induction false} ClosesPlain(p: string, q: string, parens: int)
    requires Plain(p) && parens >= 1
    ensures Closes(p + q, parens) == Closes(q, parens)
  {
    if p == "" {
      assert p + q == q;
    } else {
      assert (p + q)[1..] == p[1..] + q;
      assert p[0] in p && forall c | c in p[1..] :: c in p;
      ClosesPlain(p[1..], q, parens);
    }
  }

  lemma {:induction false} BodyReads(b: string, r: string, parens: nat)
    requires b != "" && Closes(b[1..], parens)
    ensures Body(b + ")" + r, parens) == Some((b, ")" + r))
    decreases |b|
  {
    var cur := b + ")" + r;
    assert cur[1..] == b[1..] + ")" + r;
    if |b| == 1 {
      assert cur[1..] == ")" + r;
      assert [cur[0]] + "" == b;
    } else {
      assert cur[1] == b[1] && b[1..][0] == b[1] && b[1..][1..] == b[2..];
      BodyReads(b[1..], r, Shift(parens, b[1]));
      assert [cur[0]] + b[1..] == b;
    }
  }

  lemma ReadStatement(b: string, rest: string)
    requires b != "" && Closes(b[1..], 1)
    ensures NextStmt(WrapParens(b) + rest) == Stmt(b, rest)
  {
    var text := WrapParens(b) + rest;
    assert Tail(text) == b + ")" + rest;
    BodyReads(b, rest, 1);
    assert Tail(")" + rest) == rest;
  }

  lemma ReadAfterNewline(text: string)
    ensures NextStmt("\n" + text) == NextStmt(text)
  {
    assert ("\n" + text)[1..] == text;
  }

  lemma ParseOne(c: Cil, b: string, more: string)
    requires b != "" && Closes(b[1..], 1)
    ensures ParseFrom(WrapParens(b) + ("\n" + more), c)
            == (var c' := Apply(c, Classify(b)); if c'.None? then Crashed else ParseFrom(more, c'.value))
  {
    ReadStatement(b, "\n" + more);
    ReadAfterNewline(more);
    hide NextStmt, Apply, Classify, WrapParens, Closes;
  }

  /** The commands one after the other. */
  ghost function Run(c: Cil, cmds: seq<Command>): Option<Cil>
    decreases |cmds|
  {
    if cmds == [] then Some(c)
    else
      var c' := Apply(c, cmds[0]);
      if c'.None? then None else Run(c'.value, cmds[1..])
  }

  /** What the parser makes of a printed command. */
  function Reread(cmd: Command): Command {
    if cmd.Set? && cmd.members == [] then Broken else cmd
  }

  ghost predicate CommandOk(cmd: Command) {
    match cmd
    case Type(x) => NameOk(x)
    case Attribute(x) => NameOk(x)
    case Expand(ta, flag) => NameOk(ta) && flag in {"true", "false"}
    case Set(ta, members) => NameOk(ta) && forall t | t in members :: NameOk(t)
    case _ => false
  }

  // ---------------------------------------------------------------------------------------
  // What each printed statement means to the parser

  lemma HeadTakes(kw: string, x: string)
    requires x != "" && !IsSpace(x[0])
    ensures Head(kw, kw + " " + x) == Some(|kw| + 1)
  {
    var s := kw + " " + x;
    assert s[|kw| + 1] == x[0];
  }

  lemma HeadMisses(kw: string, s: string)
    requires kw <= s ==> |s| == |kw| || !IsSpace(s[|kw|])
    ensures Head(kw, s) == None
  {
  }

  lemma LineTakes(kw: string, x: string)
    requires NoSpace(x)
    ensures Line(kw + " " + x, |kw| + 1) == x
  {
    var s := kw + " " + x;
    assert forall i | |kw| + 1 <= i < |s| :: s[i] == x[i - |kw| - 1] && s[i] in x;
    assert s[|kw| + 1..] == x;
  }

  lemma PrintedType(x: string)
    requires NameOk(x)
    ensures Classify(TYPE + " " + x) == Type(x) && Closes((TYPE + " " + x)[1..], 1)
  {
    assert x[0] in x;
    HeadTakes(TYPE, x);
    LineTakes(TYPE, x);
    assert (TYPE + " " + x)[1..] == ("ype " + x) + "";
    ClosesPlain("ype " + x, "", 1);
  }

  lemma PrintedAttribute(x: string)
    requires NameOk(x)
    ensures Classify(ATTRIBUTE + " " + x) == Attribute(x) && Closes((ATTRIBUTE + " " + x)[1..], 1)
  {
    hide Closes, Head, Line;
    var s := ATTRIBUTE + " " + x;
    assert x[0] in x;
    assert s[4] == 'a';
    HeadMisses(TYPE, s);
    HeadTakes(ATTRIBUTE, x);
    LineTakes(ATTRIBUTE, x);
    AttributeIsPlain();
    assert s[1..] == (ATTRIBUTE[1..] + " " + x) + "";
    ClosesPlain(ATTRIBUTE[1..] + " " + x, "", 1);
    ClosesChar(')', "", 2);
  }

  lemma AttributeIsPlain()
    ensures Plain(ATTRIBUTE[1..] + " ")
  {
  }

  /** The last parenthesis that a flag follows is the only one there is. */
  lemma {:induction false} ExpandEndIs(s: string, lo: nat, j: nat, e: nat)
    requires lo <= e <= j <= |s| && e < |s|
    requires s[e] == ')' && FlagAt(s, e + 1).Some?
    requires forall i | e < i < |s| :: s[i] != ')'
    ensures ExpandEnd(s, lo, j) == Some((e, FlagAt(s, e + 1).value))
    decreases j
  {
    hide FlagAt;
    if e < j {
      ExpandEndIs(s, lo, j - 1, e);
    }
  }

  lemma FlagReads(s: string, k: nat, flag: string)
    requires flag in {"true", "false"}
    requires k < |s| && s[k] == ' ' && s[k + 1..] == flag
    ensures FlagAt(s, k) == Some(flag)
  {
    assert s[k + 1] == flag[0];
    assert SpaceEnd(s, k) == k + 1;
    if flag == "false" {
      assert !("true" <= flag) by { assert flag[0] == 'f'; }
    }
  }

  lemma MatchExpandIs(kw: string, s: string, i: nat, e: nat, flag: string)
    requires kw <= s && i == |kw| + 1 && i + 2 <= e < |s|
    requires s[i - 1] == ' ' && s[i] == '(' && s[e] == ')' && FlagAt(s, e + 1) == Some(flag)
    requires forall k | i < k < |s| :: s[k] != '\n'
    requires forall k | e < k < |s| :: s[k] != ')'
    ensures MatchExpand(kw, s) == Some((s[i + 1..e], flag))
  {
    hide FlagAt;
    assert SpaceEnd(s, |kw|) == i;
    assert Find(s, '\n', i + 1) == |s|;
    ExpandEndIs(s, i + 2, |s|, e);
  }

  lemma ExpandShape(kw: string, x: string, flag: string)
    requires NameOk(x) && flag in {"true", "false"}
    ensures var s, i, e := kw + " (" + x + ") " + flag, |kw| + 1, |kw| + |x| + 2;
      && kw <= s && |s| == e + 2 + |flag| && s[i - 1] == ' ' && s[i] == '(' && s[e] == ')' && s[e + 1] == ' '
      && s[e + 2..] == flag && s[i + 1..e] == x
      && (forall k | i < k < |s| :: s[k] != '\n') && (forall k | e < k < |s| :: s[k] != ')')
  {
    hide NameOk;
    var s, i, e := kw + " (" + x + ") " + flag, |kw| + 1, |kw| + |x| + 2;
    NameChars(x);
    FlagChars(flag);
    assert s[i + 1..e] == x && s[e + 2..] == flag;
    forall k | i < k < |s| ensures s[k] != '\n' && (k > e ==> s[k] != ')') {
      assert s[k] == if k < e then x[k - i - 1] else if k == e then ')' else if k == e + 1 then ' ' else flag[k - e - 2];
    }
  }

  lemma NameChars(x: string)
    requires NameOk(x)
    ensures forall k | 0 <= k < |x| :: x[k] != '\n'
  {
    assert forall k | 0 <= k < |x| :: x[k] in x;
  }

  lemma FlagChars(flag: string)
    requires flag in {"true", "false"}
    ensures forall k | 0 <= k < |flag| :: flag[k] != '\n' && flag[k] != ')'
  {
  }

  lemma ExpandMatches(x: string, flag: string)
    requires NameOk(x) && flag in {"true", "false"}
    ensures MatchExpand(EXPAND, EXPAND + " (" + x + ") " + flag) == Some((x, flag))
  {
    var s, e := EXPAND + " (" + x + ") " + flag, |EXPAND| + |x| + 2;
    ExpandShape(EXPAND, x, flag);
    FlagReads(s, e + 1, flag);
    MatchExpandIs(EXPAND, s, |EXPAND| + 1, e, flag);
  }

  lemma ClosesChar(c: char, q: string, parens: int)
    requires c != ';' && parens >= 1
    ensures Closes([c] + q, parens) == Closes(q, Shift(parens, c)) && Closes("", 1)
  {
    assert ([c] + q)[1..] == q;
  }

  lemma ExpandParts(x: string, flag: string)
    requires NameOk(x) && flag in {"true", "false"}
    ensures Plain(EXPAND[1..] + " ") && Plain(x) && Plain(" " + flag)
  {
    ExpandIsPlain();
    if flag == "true" {
      assert " " + flag == " true";
    } else {
      assert " " + flag == " false";
    }
  }

  lemma ExpandIsPlain()
    ensures Plain(EXPAND[1..] + " ")
  {
  }

  lemma ExpandCloses(x: string, flag: string)
    requires NameOk(x) && flag in {"true", "false"}
    ensures Closes((EXPAND + " (" + x + ") " + flag)[1..], 1)
  {
    hide Closes, NameOk;
    var p, tail := EXPAND[1..] + " ", " " + flag;
    var inner := x + (")" + tail);
    assert (EXPAND + " (" + x + ") " + flag)[1..] == p + ("(" + inner);
    ExpandParts(x, flag);
    ClosesPlain(p, "(" + inner, 1);
    ClosesChar('(', inner, 1);
    ClosesPlain(x, ")" + tail, 2);
    ClosesChar(')', tail, 2);
    ClosesPlain(tail, "", 1);
    assert tail + "" == tail;
  }

  lemma PrintedExpand(x: string, flag: string)
    requires NameOk(x) && flag in {"true", "false"}
    ensures var s := EXPAND + " (" + x + ") " + flag;
      Classify(s) == Expand(x, flag) && Closes(s[1..], 1)
  {
    var s := EXPAND + " (" + x + ") " + flag;
    assert s[0] == 'e';
    HeadMisses(TYPE, s);
    HeadMisses(ATTRIBUTE, s);
    HeadMisses(SET, s);
    assert s == EXPAND + " " + ("(" + x + ") " + flag);
    HeadTakes(EXPAND, "(" + x + ") " + flag);
    ExpandMatches(x, flag);
    ExpandCloses(x, flag);
    assert Classify(s) == ClassifyExpand(s);
  }

  /** Group 1 can end nowhere before the white space in front of the parenthesis. */
  lemma {:induction false} SetAtIs(s: string, i: nat, k: nat, e: nat, w: nat)
    requires i < k <= e < w && w + 2 <= |s| && s[w] == '(' && SpaceEnd(s, e) == w
    requires forall j | k <= j < e :: !IsSpace(s[j])
    requires Find(s, ')', w + 2) < |s|
    ensures SetAt(s, i, k) == Some((s[i..e], s[w + 1..Find(s, ')', w + 2)]))
    decreases e - k
  {
    if k < e {
      SetAtIs(s, i, k + 1, e, w);
    }
  }

  /** A set statement with the given white space before its list, and the given text in it. */
  function SetText(kw: string, ta: string, gap: string, list: string): string {
    kw + " " + ta + gap + "(" + list + ")"
  }

  ghost predicate IsGap(gap: string) {
    gap != "" && AllSpace(gap)
  }

  lemma SetPieces(kw: string, ta: string, gap: string, list: string)
    ensures var s, i, e := SetText(kw, ta, gap, list), |kw| + 1, |kw| + |ta| + 1;
      var w := e + |gap|;
      var q := w + |list| + 1;
      && kw <= s && |s| == q + 1 && s[i - 1] == ' ' && s[w] == '(' && s[q] == ')'
      && s[i..e] == ta && s[e..w] == gap && s[w + 1..q] == list
  {
    var e := |kw| + |ta| + 1;
    var s := SetText(kw, ta, gap, list);
    assert s[e + |gap|..] == "(" + list + ")";
  }

  lemma SetShape(kw: string, ta: string, gap: string, list: string)
    requires NameOk(ta) && IsGap(gap) && Plain(list)
    ensures var s, i, e := SetText(kw, ta, gap, list), |kw| + 1, |kw| + |ta| + 1;
      var w := e + |gap|;
      var q := w + |list| + 1;
      && kw <= s && |s| == q + 1 && s[i - 1] == ' ' && s[w] == '(' && s[q] == ')'
      && s[i..e] == ta && s[w + 1..q] == list
      && (forall j | i <= j < e :: !IsSpace(s[j])) && (forall j | e <= j < w :: IsSpace(s[j]))
      && (forall j | w < j < q :: s[j] != ')')
  {
    var s, i, e := SetText(kw, ta, gap, list), |kw| + 1, |kw| + |ta| + 1;
    var w := e + |gap|;
    var q := w + |list| + 1;
    SetPieces(kw, ta, gap, list);
    hide SetText;
    assert forall j | i <= j < e :: s[j] == s[i..e][j - i] && s[j] in ta;
    assert forall j | e <= j < w :: s[j] == s[e..w][j - e] && s[j] in gap;
    assert forall j | w < j < q :: s[j] == s[w + 1..q][j - w - 1] && s[j] in list;
  }

  lemma {:induction false} SpaceEndIs(s: string, i: nat, j: nat)
    requires i <= j < |s| && !IsSpace(s[j]) && forall k | i <= k < j :: IsSpace(s[k])
    ensures SpaceEnd(s, i) == j
    decreases j - i
  {
    if i < j { SpaceEndIs(s, i + 1, j); }
  }

  lemma SetMatches(kw: string, ta: string, gap: string, list: string)
    requires NameOk(ta) && IsGap(gap) && Plain(list) && list != ""
    ensures MatchSet(kw, SetText(kw, ta, gap, list)) == Some((ta, list))
  {
    var s, i, e := SetText(kw, ta, gap, list), |kw| + 1, |kw| + |ta| + 1;
    var w := e + |gap|;
    SetShape(kw, ta, gap, list);
    assert SpaceEnd(s, |kw|) == i;
    SpaceEndIs(s, e, w);
    assert Find(s, ')', w + 2) == w + 1 + |list|;
    SetAtIs(s, i, i + 1, e, w);
  }

  lemma SetCloses(ta: string, gap: string, list: string)
    requires NameOk(ta) && IsGap(gap) && Plain(list)
    ensures Closes(SetText(SET, ta, gap, list)[1..], 1)
  {
    hide Closes, NameOk, IsGap;
    var p := SET[1..] + " " + ta + gap;
    assert SetText(SET, ta, gap, list)[1..] == p + ("(" + (list + ")"));
    SetParts(ta, gap);
    ClosesPlain(p, "(" + (list + ")"), 1);
    ClosesChar('(', list + ")", 1);
    ClosesPlain(list, ")", 2);
    ClosesChar(')', "", 2);
    assert ")" + "" == ")";
  }

  lemma SetParts(ta: string, gap: string)
    requires NameOk(ta) && IsGap(gap)
    ensures Plain(SET[1..] + " " + ta + gap)
  {
    SetIsPlain();
    assert Plain(gap);
  }

  lemma SetIsPlain()
    ensures Plain(SET[1..] + " ")
  {
  }

  lemma SetHeads(s: string)
    requires SET <= s && |SET| + 1 < |s| && s[|SET|] == ' ' && !IsSpace(s[|SET| + 1])
    ensures Head(TYPE, s) == None && Head(ATTRIBUTE, s) == None && Head(SET, s).Some?
  {
    assert s[4] == SET[4] && s[13] == SET[13];
    HeadMisses(TYPE, s);
    HeadMisses(ATTRIBUTE, s);
    assert SpaceEnd(s, |SET|) == |SET| + 1;
  }

  /** The parser takes a set statement with one or more members as it was printed, whatever
      white space stands before the list and between its members. */
  lemma PrintedSet(ta: string, gap: string, list: string)
    requires NameOk(ta) && IsGap(gap) && Plain(list) && list != ""
    ensures Classify(SetText(SET, ta, gap, list)) == Set(ta, Split(list))
    ensures Closes(SetText(SET, ta, gap, list)[1..], 1)
  {
    var s := SetText(SET, ta, gap, list);
    SetShape(SET, ta, gap, list);
    SetMatches(SET, ta, gap, list);
    SetCloses(ta, gap, list);
    SetHeads(s);
    assert Classify(s) == ClassifySet(s);
  }

  lemma {:induction false} JoinedNames(parts: seq<string>)
    requires forall p | p in parts :: NameOk(p)
    ensures Plain(Join(" ", parts)) && (parts != [] ==> Join(" ", parts) != "")
  {
    if parts != [] {
      assert parts[0] in parts && NameOk(parts[0]);
      if |parts| > 1 {
        assert forall p | p in parts[1..] :: p in parts;
        JoinedNames(parts[1..]);
      }
    }
  }

  /** A set without members is printed as `()`, in which the parser finds no member list. */
  lemma PrintedEmptySet(ta: string)
    requires NameOk(ta)
    ensures Classify(SetText(SET, ta, " ", "")) == Broken
    ensures Closes(SetText(SET, ta, " ", "")[1..], 1)
  {
    hide SetFrom, Closes, Head;
    var s := SetText(SET, ta, " ", "");
    SetShape(SET, ta, " ", "");
    SetCloses(ta, " ", "");
    SetHeads(s);
    OnlyParen(SET, ta);
    SetFromFails(s, |SET|, SpaceEnd(s, |SET|));
    assert Classify(s) == ClassifySet(s);
  }

  lemma OnlyParen(kw: string, ta: string)
    requires Plain(kw) && NameOk(ta)
    ensures var s := SetText(kw, ta, " ", ""); forall j | 0 <= j < |s| && s[j] == '(' :: j + 2 == |s|
  {
    var s, p := SetText(kw, ta, " ", ""), kw + " " + ta + " ";
    assert s == p + "()" && Plain(p);
    assert forall j | 0 <= j < |p| :: s[j] == p[j] && p[j] in p;
  }

  lemma {:induction false} SetAtFails(s: string, i: nat, k: nat)
    requires i < k <= |s| && forall j | 0 <= j < |s| && s[j] == '(' :: j + 2 == |s|
    ensures SetAt(s, i, k) == None
    decreases |s| - k
  {
    if k < |s| { SetAtFails(s, i, k + 1); }
  }

  lemma {:induction false} SetFromFails(s: string, lo: nat, i: nat)
    requires lo <= i <= |s| && forall j | 0 <= j < |s| && s[j] == '(' :: j + 2 == |s|
    ensures SetFrom(s, lo, i) == None
    decreases i
  {
    if lo < i {
      if i < |s| { SetAtFails(s, i, i + 1); }
      SetFromFails(s, lo, i - 1);
    }
  }

  /** Each printed statement is read as the command it was printed from, except that a set
      without members breaks the parser. */
  lemma PrintReads(cmd: Command)
    requires CommandOk(cmd)
    ensures Print(cmd) != "" && Closes(Print(cmd)[1..], 1)
    ensures Classify(Print(cmd)) == Reread(cmd)
  {
    hide Classify, Closes, Split;
    match cmd
    case Type(x) =>
      JoinTwoOrThree(" ", TYPE, x, "");
      PrintedType(x);
    case Attribute(x) =>
      JoinTwoOrThree(" ", ATTRIBUTE, x, "");
      PrintedAttribute(x);
    case Expand(ta, flag) =>
      JoinTwoOrThree(" ", EXPAND, WrapParens(ta), flag);
      assert Print(cmd) == EXPAND + " (" + ta + ") " + flag;
      PrintedExpand(ta, flag);
    case Set(ta, members) =>
      var list := Join(" ", members);
      JoinTwoOrThree(" ", SET, ta, WrapParens(list));
      assert Print(cmd) == SetText(SET, ta, " ", list);
      JoinedNames(members);
      if members == [] {
        PrintedEmptySet(ta);
      } else {
        SplitJoin(" ", members, "");
        assert list + "" == list;
        PrintedSet(ta, " ", list);
      }
  }

  // ---------------------------------------------------------------------------------------
  // The round trip

  ghost function RereadAll(cmds: seq<Command>): seq<Command> {
    if cmds == [] then [] else [Reread(cmds[0])] + RereadAll(cmds[1..])
  }

  /** Parsing printed statements runs the commands they were printed from. */
  lemma {:induction false} ParseLines(c: Cil, cmds: seq<Command>, rest: string)
    requires forall cmd | cmd in cmds :: CommandOk(cmd)
    ensures ParseFrom(Lines(cmds) + rest, c)
            == (var r := Run(c, RereadAll(cmds)); if r.None? then Crashed else ParseFrom(rest, r.value))
    decreases |cmds|
  {
    if cmds == [] {
      assert Lines(cmds) + rest == rest;
    } else {
      var more := Lines(cmds[1..]) + rest;
      var b := Print(cmds[0]);
      assert Lines(cmds) + rest == WrapParens(b) + ("\n" + more);
      assert cmds[0] in cmds && forall cmd | cmd in cmds[1..] :: cmd in cmds;
      PrintReads(cmds[0]);
      hide Print, WrapParens, Classify, Closes, ParseFrom, Apply;
      ParseOne(c, b, more);
      var c' := Apply(c, Classify(b));
      if c'.Some? {
        ParseLines(c'.value, cmds[1..], rest);
      }
    }
  }

  lemma {:induction false} RunTypes(names: seq<string>, c: Cil, more: seq<Command>)
    ensures Run(c, RereadAll(Types(names) + more)) == Run(c.(types := c.types + Elements(names)), RereadAll(more))
    decreases |names|
  {
    if names == [] {
      assert c.types + Elements(names) == c.types && Types(names) + more == more;
    } else {
      assert Types(names) + more == [Type(names[0])] + (Types(names[1..]) + more);
      RunTypes(names[1..], c.(types := c.types + {names[0]}), more);
      assert names == [names[0]] + names[1..];
      assert c.types + {names[0]} + Elements(names[1..]) == c.types + Elements(names);
    }
  }

  lemma {:induction false} RunAttributes(names: seq<string>, c: Cil, more: seq<Command>)
    ensures Run(c, RereadAll(Attributes(names) + more))
            == Run(c.(attributes := c.attributes + Elements(names)), RereadAll(more))
    decreases |names|
  {
    if names == [] {
      assert c.attributes + Elements(names) == c.attributes && Attributes(names) + more == more;
    } else {
      assert Attributes(names) + more == [Attribute(names[0])] + (Attributes(names[1..]) + more);
      RunAttributes(names[1..], c.(attributes := c.attributes + {names[0]}), more);
      assert names == [names[0]] + names[1..];
      assert c.attributes + {names[0]} + Elements(names[1..]) == c.attributes + Elements(names);
    }
  }

  ghost function Restrict<T>(m: map<string, T>, names: seq<string>): map<string, T> {
    map n | n in names && n in m :: m[n]
  }

  lemma RestrictStep<T>(base: map<string, T>, m: map<string, T>, n: string, rest: seq<string>)
    requires n in m && n !in rest
    ensures base[n := m[n]] + Restrict(m, rest) == base + Restrict(m, [n] + rest)
  {
  }

  lemma AscendingTail(names: seq<string>)
    requires names != [] && Ascending(names)
    ensures Ascending(names[1..]) && names[0] !in names[1..] && names == [names[0]] + names[1..]
    ensures forall x | x in names[1..] :: x in names
  {
    forall x | x in names[1..] ensures x != names[0] { BeforeAsymmetric(names[0], x); }
  }

  lemma {:induction false} RunExpands(m: map<string, string>, names: seq<string>, c: Cil, more: seq<Command>)
    requires Ascending(names) && forall n | n in names :: n in m
    ensures Run(c, RereadAll(Expands(m, names) + more)) == Run(c.(expand := c.expand + Restrict(m, names)), RereadAll(more))
    decreases |names|
  {
    if names == [] {
      assert c.expand + Restrict(m, names) == c.expand && Expands(m, names) + more == more;
    } else {
      var n, rest := names[0], names[1..];
      AscendingTail(names);
      assert Expands(m, names) + more == [Expand(n, m[n])] + (Expands(m, rest) + more);
      RunExpands(m, rest, c.(expand := c.expand[n := m[n]]), more);
      RestrictStep(c.expand, m, n, rest);
    }
  }

  /** d is c after set statements: the index kept exact and all that sets do not touch as it was. */
  ghost predicate OnlySets(c: Cil, d: Cil) {
    d.types == c.types && d.attributes == c.attributes && d.expand == c.expand && Indexed(d)
  }

  lemma AddSetOnly(c: Cil, n: string, members: set<string>)
    requires Indexed(c) && n !in c.sets
    ensures var d := AddSet(c, n, Sorted(members)); OnlySets(c, d) && d.sets == c.sets[n := members]
  {
    AddSetIndexed(c, n, Sorted(members));
    hide Indexed, AddMembers, PubBase, Sorted;
    assert {} + Elements(Sorted(members)) == members;
  }

  lemma RunOneSet(c: Cil, n: string, members: seq<string>, more: seq<Command>)
    ensures Run(c, RereadAll([Set(n, members)] + more))
            == if members == [] then None else Run(AddSet(c, n, members), RereadAll(more))
  {
    hide AddSet;
  }

  lemma {:induction false} RunSets(m: map<string, set<string>>, names: seq<string>, c: Cil)
    requires Indexed(c) && Ascending(names)
    requires forall n | n in names :: n in m && n !in c.sets
    ensures var r := Run(c, RereadAll(Sets(m, names)));
      if forall n | n in names :: m[n] != {}
      then r.Some? && OnlySets(c, r.value) && r.value.sets == c.sets + Restrict(m, names)
      else r.None?
    decreases |names|
  {
    if names == [] {
      assert c.sets + Restrict(m, names) == c.sets;
    } else {
      var n, rest := names[0], names[1..];
      AscendingTail(names);
      var c' := AddSet(c, n, Sorted(m[n]));
      AddSetOnly(c, n, m[n]);
      RunOneSet(c, n, Sorted(m[n]), Sets(m, rest));
      RestrictStep(c.sets, m, n, rest);
      hide Run, RereadAll, AddSet, Sorted, Indexed, Restrict, Ascending;
      if m[n] != {} {
        RunSets(m, rest, c');
        assert (forall x | x in names :: m[x] != {}) <==> (forall x | x in rest :: m[x] != {});
      }
    }
  }

  /** What parsing adds to d when c is printed after text that d was parsed from. */
  function After(d: Cil, c: Cil): Cil {
    Fresh(Cil(d.types + c.types, {}, d.expand + c.expand, d.attributes + c.attributes, c.sets, map[]))
  }

  lemma RunUnparsed(d: Cil, c: Cil)
    requires d.sets == map[] && Indexed(d)
    ensures Run(d, RereadAll(Commands(c))) == if NonEmptySets(c) then Some(After(d, c)) else None
  {
    var types, attributes, expand, sets := Sorted(c.types), Sorted(c.attributes), Sorted(c.expand.Keys), Sorted(c.sets.Keys);
    var s := Sets(c.sets, sets);
    var es := Expands(c.expand, expand) + s;
    var aes := Attributes(attributes) + es;
    var c1 := d.(types := d.types + c.types);
    var c2 := c1.(attributes := d.attributes + c.attributes);
    var c3 := c2.(expand := d.expand + c.expand);
    assert Elements(types) == c.types && Elements(attributes) == c.attributes;
    assert Restrict(c.expand, expand) == c.expand;
    SortedAscending(c.expand.Keys);
    hide Run, RereadAll, Types, Attributes, Expands, Sets, Restrict, Sorted, Ascending;
    RunTypes(types, d, aes);
    RunAttributes(attributes, c1, es);
    RunExpands(c.expand, expand, c2, s);
    RunSetsOf(c, c3);
  }

  lemma RunSetsOf(c: Cil, d: Cil)
    requires d.sets == map[] && Indexed(d)
    ensures Run(d, RereadAll(Sets(c.sets, Sorted(c.sets.Keys))))
            == if NonEmptySets(c) then Some(Fresh(d.(sets := c.sets))) else None
  {
    hide Run, RereadAll, Sets, Sorted, Ascending, Inverse, PubNames, Before;
    var sets := Sorted(c.sets.Keys);
    SortedAscending(c.sets.Keys);
    RunSets(c.sets, sets, d);
    assert map[] + Restrict(c.sets, sets) == c.sets;
    assert (forall n | n in sets :: c.sets[n] != {}) <==> NonEmptySets(c);
  }

  lemma {:induction false} ListsOk(c: Cil, names: seq<string>)
    requires NamesOk(c)
    ensures (forall n | n in names :: n in c.types) ==> forall cmd | cmd in Types(names) :: CommandOk(cmd)
    ensures (forall n | n in names :: n in c.attributes) ==> forall cmd | cmd in Attributes(names) :: CommandOk(cmd)
    ensures (forall n | n in names :: n in c.expand) ==> forall cmd | cmd in Expands(c.expand, names) :: CommandOk(cmd)
    ensures (forall n | n in names :: n in c.sets) ==> forall cmd | cmd in Sets(c.sets, names) :: CommandOk(cmd)
    decreases |names|
  {
    if names != [] {
      assert names[0] in names && forall n | n in names[1..] :: n in names;
      ListsOk(c, names[1..]);
    }
  }

  lemma CommandsOk(c: Cil)
    requires NamesOk(c)
    ensures forall cmd | cmd in Commands(c) :: CommandOk(cmd)
  {
    ListsOk(c, Sorted(c.types));
    ListsOk(c, Sorted(c.attributes));
    ListsOk(c, Sorted(c.expand.Keys));
    ListsOk(c, Sorted(c.sets.Keys));
  }

  /** Text printed from proper names, with any text after it, and parsed after any text without
      sets: parsing stops in an empty set, or goes on with all that was printed. */
  lemma ReadBack(d: Cil, c: Cil, more: string)
    requires NamesOk(c) && d.sets == map[] && Indexed(d)
    ensures ParseFrom(Unparse(c) + more, d) == if NonEmptySets(c) then ParseFrom(more, After(d, c)) else Crashed
  {
    RunUnparsed(d, c);
    CommandsOk(c);
    ParseLines(d, Commands(c), more);
  }

  lemma EmptyIsIndexed()
    ensures Indexed(EMPTY)
  {
    assert Inverse(map[]) == map[] && PubNames({}) == {};
  }

  /** Printing and parsing again: exactly when no set is empty does a file printed from proper
      names parse, and then it gives back the state it was printed from, with both derived
      fields computed afresh. */
  lemma RoundTrip(c: Cil)
    requires NamesOk(c)
    ensures Parse(Unparse(c)) == if NonEmptySets(c) then Parsed(Fresh(c)) else Crashed
  {
    hide Commands, NamesOk, Inverse, PubNames, Indexed, Lines;
    EmptyIsIndexed();
    ReadBack(EMPTY, c, "");
    assert Unparse(c) + "" == Unparse(c);
    assert {} + c.types == c.types && {} + c.attributes == c.attributes && map[] + c.expand == c.expand;
  }

  /** Such a set comes from a file: a statement with white space between its last parentheses is read as a set
      without members, and what is printed for that cannot be read. */
  lemma EmptySetFromFile(ta: string)
    requires NameOk(ta)
    ensures var read := Parse(WrapParens(SetText(SET, ta, " ", " ")) + "\n");
      read.Parsed? && read.cil.sets == map[ta := {}] && Parse(Unparse(read.cil)) == Crashed
  {
    hide Classify, Closes, SetText, Unparse, Split, NextStmt, AddSet, NamesOk;
    var b, c := SetText(SET, ta, " ", " "), AddSet(EMPTY, ta, []);
    OneSpace(ta);
    OneEmptySet(ta);
    assert WrapParens(b) + "\n" == WrapParens(b) + ("\n" + "");
    ParseOne(EMPTY, b, "");
    EndOfText(c);
    RoundTrip(c);
  }

  lemma OneSpace(ta: string)
    requires NameOk(ta)
    ensures Classify(SetText(SET, ta, " ", " ")) == Set(ta, [])
    ensures SetText(SET, ta, " ", " ") != "" && Closes(SetText(SET, ta, " ", " ")[1..], 1)
  {
    hide Classify, Closes, NameOk;
    PrintedSet(ta, " ", " ");
    assert Split(" ") == [] by { assert " "[1..] == ""; }
  }

  lemma OneEmptySet(ta: string)
    requires NameOk(ta)
    ensures AddSet(EMPTY, ta, []).sets == map[ta := {}] && NamesOk(AddSet(EMPTY, ta, [])) && !NonEmptySets(AddSet(EMPTY, ta, []))
  {
    hide PubBase, AddMembers;
    var c := AddSet(EMPTY, ta, []);
    assert Lookup(EMPTY.sets, ta) == {} && c.sets.Keys == {ta};
    assert c.sets[ta] == {} + Elements<string>([]) == {};
  }

  lemma EndOfText(c: Cil)
    ensures ParseFrom("", c) == Parsed(c)
  {
  }

  // ---------------------------------------------------------------------------------------
  // The printed text

  lemma SortedOne(x: string)
    ensures Sorted({x}) == [x]
  {
    var s := {x};
    assert Least(s) == x && s - {x} == {};
  }

  /** What is printed for one declaration of each kind, character by character; the others of each kind
      come with it, in ascending order. */
  lemma PrintedText(t: string, a: string, x: string, flag: string, n: string, m: string)
    ensures Unparse(Cil({t}, {}, map[x := flag], {a}, map[n := {m}], map[]))
      == "(type " + t + ")\n" + ("(typeattribute " + a + ")\n" +
         ("(expandtypeattribute (" + x + ") " + flag + ")\n" + ("(typeattributeset " + n + " (" + m + "))\n" + "")))
  {
    hide Sorted, Before, Join, WrapParens, Print, Lines;
    var c := Cil({t}, {}, map[x := flag], {a}, map[n := {m}], map[]);
    SortedOne(t);
    SortedOne(a);
    SortedOne(x);
    SortedOne(n);
    SortedOne(m);
    assert c.expand.Keys == {x} && c.sets.Keys == {n};
    OneCommandEach(c, t, a, x, n);
    FourLines(Type(t), Attribute(a), Expand(x, flag), Set(n, [m]));
    TypeText(t);
    AttributeText(a);
    ExpandText(x, flag);
    SetLineText(n, m);
  }

  lemma OneCommandEach(c: Cil, t: string, a: string, x: string, n: string)
    requires Sorted(c.types) == [t] && Sorted(c.attributes) == [a] && Sorted(c.expand.Keys) == [x] && Sorted(c.sets.Keys) == [n]
    ensures x in c.expand && n in c.sets
    ensures Commands(c) == [Type(t), Attribute(a), Expand(x, c.expand[x]), Set(n, Sorted(c.sets[n]))]
  {
    hide Sorted, Types, Attributes, Expands, Sets;
    assert x in Sorted(c.expand.Keys) && n in Sorted(c.sets.Keys);
    OneType(t);
    OneAttribute(a);
    OneExpand(c.expand, x);
    OneSet(c.sets, n);
  }

  lemma OneType(t: string)
    ensures Types([t]) == [Type(t)]
  {
    assert Types([t][1..]) == [];
  }

  lemma OneAttribute(a: string)
    ensures Attributes([a]) == [Attribute(a)]
  {
    assert Attributes([a][1..]) == [];
  }

  lemma OneExpand(m: map<string, string>, x: string)
    requires x in m
    ensures Expands(m, [x]) == [Expand(x, m[x])]
  {
    assert Expands(m, [x][1..]) == [];
  }

  lemma OneSet(m: map<string, set<string>>, n: string)
    requires n in m
    ensures Sets(m, [n]) == [Set(n, Sorted(m[n]))]
  {
    assert Sets(m, [n][1..]) == [];
  }

  lemma PrintedLine()
    ensures Lines([]) == "" && forall cmds: seq<Command> | cmds != [] :: Lines(cmds) == WrapParens(Print(cmds[0])) + "\n" + Lines(cmds[1..])
  {
  }

  lemma FourLines(a: Command, b: Command, c: Command, d: Command)
    ensures Lines([a, b, c, d]) == WrapParens(Print(a)) + "\n" + (WrapParens(Print(b)) + "\n" +
      (WrapParens(Print(c)) + "\n" + (WrapParens(Print(d)) + "\n" + "")))
  {
    hide WrapParens, Print, Lines;
    PrintedLine();
    assert [a, b, c, d][1..] == [b, c, d] && [b, c, d][1..] == [c, d] && [c, d][1..] == [d] && [d][1..] == [];
  }

  lemma TypeText(t: string)
    ensures WrapParens(Print(Type(t))) + "\n" == "(type " + t + ")\n"
  {
    hide Join;
    JoinTwoOrThree(" ", TYPE, t, "");
    assert "(" + (TYPE + " " + t) + ")" == "(type " + t + ")";
  }

  lemma AttributeText(a: string)
    ensures WrapParens(Print(Attribute(a))) + "\n" == "(typeattribute " + a + ")\n"
  {
    hide Join;
    JoinTwoOrThree(" ", ATTRIBUTE, a, "");
    assert "(" + (ATTRIBUTE + " " + a) + ")" == "(typeattribute " + a + ")";
  }

  lemma ExpandText(x: string, flag: string)
    ensures WrapParens(Print(Expand(x, flag))) + "\n" == "(expandtypeattribute (" + x + ") " + flag + ")\n"
  {
    hide Join;
    JoinTwoOrThree(" ", EXPAND, WrapParens(x), flag);
    hide EXPAND;
    var y := WrapParens(x);
    assert Print(Expand(x, flag)) == EXPAND + " " + y + " " + flag;
    Assembled(EXPAND, x, flag);
    ExpandStart();
  }

  lemma Assembled(kw: string, x: string, flag: string)
    ensures WrapParens(kw + " " + WrapParens(x) + " " + flag) + "\n" == "(" + kw + " (" + x + ") " + flag + ")\n"
  {
    assert "(" + (kw + " " + ("(" + x + ")") + " " + flag) + ")" == "(" + kw + " " + "(" + x + ")" + " " + flag + ")";
  }

  lemma ExpandStart()
    ensures "(" + EXPAND + " (" == "(expandtypeattribute ("
  {
  }

  lemma SetLineText(n: string, m: string)
    ensures WrapParens(Print(Set(n, [m]))) + "\n" == "(typeattributeset " + n + " (" + m + "))\n"
  {
    hide Join;
    JoinOne(m);
    JoinTwoOrThree(" ", SET, n, WrapParens(m));
    var start := "(" + (SET + " ");
    assert start == "(typeattributeset ";
    assert WrapParens(Print(Set(n, [m]))) == start + n + " (" + m + "))";
  }

  lemma JoinOne(m: string)
    ensures Join(" ", [m]) == m
  {
  }
}
