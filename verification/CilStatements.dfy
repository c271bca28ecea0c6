/** What one statement does to the parser (tests/mini_parser.py), wherever it stands in a text: said of the
    text and the fields, for statements that `unparse` never prints as well. */
module CilStatements {
  import opened Options
  import opened Text
  import opened MiniCil
  import opened CilLexer
  import opened CilPrinter

  // ---------------------------------------------------------------------------------------
  // A place between statements

  lemma {:induction false} NothingBegun(l: Lexed, s: string)
    requires l.mode.Outside? || l.mode.OutsideComment? ==> l.body == ""
    ensures var m := LexFrom(l, s); m.mode.Outside? || m.mode.OutsideComment? ==> m.body == ""
    decreases |s|
  {
    if s != "" {
      NothingBegun(CilLexer.Step(l, s[0]), s[1..]);
    }
  }

  lemma {:induction false} CrashStays(c: Cil, done: seq<string>, more: seq<string>)
    requires done <= more && RunAll(c, done).None?
    ensures RunAll(c, more).None?
  {
    RunAllAfter(c, done, more[|done|..]);
    assert more == done + more[|done|..];
  }

  /** Parsing goes on from the effect of the statements so far. */
  lemma ParseBetween(p: string, text: string, c: Cil)
    requires Lex(p).mode.Outside?
    ensures var c' := RunAll(c, Lex(p).done);
      ParseFrom(p + text, c) == if c'.None? then Crashed else ParseFrom(text, c'.value)
  {
    hide LexFrom, RunAll, Apply, Classify;
    NothingBegun(START, p);
    LexAppend(START, p, text);
    ReaderLexes(p + text, c);
    var l := Lex(p);
    assert l == Lexed(Outside, "", l.done);
    if RunAll(c, l.done).None? {
      DoneGrows(l, text);
      CrashStays(c, l.done, LexFrom(l, text).done);
    } else {
      RestLexes(text, c, l.done, RunAll(c, l.done).value);
    }
  }

  lemma ParseStatement(b: string, rest: string, c: Cil)
    requires b != "" && Closes(b[1..], 1)
    ensures ParseFrom(WrapParens(b) + rest, c) == var c' := Apply(c, Classify(b)); if c'.None? then Crashed else ParseFrom(rest, c'.value)
  {
    ReadStatement(b, rest);
    hide NextStmt, Apply, Classify, WrapParens, Closes;
  }

  // ---------------------------------------------------------------------------------------
  // Statements of no interest

  /** No keyword is a prefix that white space follows. */
  lemma ForeignHeads(w: string, more: string)
    requires NoSpace(w) && (more == "" || IsSpace(more[0]))
    requires w !in {"type", "typeattribute", "typeattributeset", "expandtypeattribute"} || more == ""
    ensures Classify(w + more) == Other
  {
    hide Head;
    ForeignHead(TYPE, w, more);
    ForeignHead(ATTRIBUTE, w, more);
    ForeignHead(SET, w, more);
    ForeignHead(EXPAND, w, more);
  }

  lemma ForeignHead(kw: string, w: string, more: string)
    requires NoSpace(w) && NoSpace(kw) && (more == "" || IsSpace(more[0])) && (w != kw || more == "")
    ensures Head(kw, w + more) == None
  {
    var b := w + more;
    if kw <= b && |kw| < |b| && IsSpace(b[|kw|]) {
      WordIsPrefix(kw, w, more);
    }
    HeadMisses(kw, b);
  }

  lemma WordIsPrefix(kw: string, w: string, more: string)
    requires NoSpace(w) && (more == "" || IsSpace(more[0])) && NoSpace(kw)
    requires kw <= w + more && |kw| < |w + more| && IsSpace((w + more)[|kw|])
    ensures kw == w && more != ""
  {
    var b := w + more;
    assert kw == b[..|kw|] && b[..|w|] == w;
    assert (forall i | 0 <= i < |w| :: w[i] in w) && forall i | 0 <= i < |kw| :: kw[i] in kw;
  }

  /** A statement whose first word is none of the four keywords, or is all there is of it, can be deleted
      wherever it stands between statements. */
  lemma ForeignStatementIsIgnored(p: string, w: string, more: string, rest: string, c: Cil)
    requires Lex(p).mode.Outside? && w + more != "" && Closes((w + more)[1..], 1)
    requires NoSpace(w) && (more == "" || IsSpace(more[0]))
    requires w !in {"type", "typeattribute", "typeattributeset", "expandtypeattribute"} || more == ""
    ensures ParseFrom(p + ("(" + w + more + ")" + rest), c) == ParseFrom(p + rest, c)
  {
    hide Classify, Closes, Lex, ParseFrom, RunAll;
    var b := w + more;
    ForeignHeads(w, more);
    ParseBetween(p, WrapParens(b) + rest, c);
    ParseBetween(p, rest, c);
    assert WrapParens(b) + rest == "(" + w + more + ")" + rest;
    var c' := RunAll(c, Lex(p).done);
    if c'.Some? {
      ParseStatement(b, rest, c'.value);
    }
  }

  // ---------------------------------------------------------------------------------------
  // Declarations

  /** kw, white space, and x up to the end of the line. */
  lemma HeadIs(kw: string, gap: string, x: string, tail: string)
    requires IsGap(gap) && x != "" && !IsSpace(x[0]) && OneLine(x) && (tail == "" || tail[0] == '\n')
    ensures var s := kw + gap + x + tail; Head(kw, s) == Some(|kw| + |gap|) && Line(s, |kw| + |gap|) == x
  {
    var s, k := kw + gap + x + tail, |kw| + |gap|;
    HeadParts(kw, gap, x, tail);
    SpaceEndIs(s, |kw|, k);
    assert Find(s, '\n', k) == k + |x|;
  }

  lemma HeadParts(kw: string, gap: string, x: string, tail: string)
    requires IsGap(gap) && x != "" && OneLine(x) && (tail == "" || tail[0] == '\n')
    ensures var s, k := kw + gap + x + tail, |kw| + |gap|;
      && kw <= s && s[k..k + |x|] == x && s[k] == x[0] && (tail != "" ==> s[k + |x|] == '\n')
      && (forall i | |kw| <= i < k :: IsSpace(s[i])) && (forall i | k <= i < k + |x| :: s[i] != '\n')
  {
    hide IsSpace;
    var s, k := kw + gap + x + tail, |kw| + |gap|;
    assert forall i | |kw| <= i < k :: s[i] == gap[i - |kw|] && s[i] in gap;
    assert forall i | k <= i < k + |x| :: s[i] == x[i - k] && s[i] in x;
    assert tail != "" ==> s[k + |x|] == tail[0];
    assert s[k..k + |x|] == x;
  }

  predicate OneLine(s: string) {
    '\n' !in s
  }

  /** A declaration adds what follows the white space, to the end of the line and no further, and changes
      nothing else. */
  lemma TypeIsDeclared(gap: string, x: string, tail: string, rest: string, c: Cil)
    requires IsGap(gap) && x != "" && !IsSpace(x[0]) && OneLine(x) && (tail == "" || tail[0] == '\n')
    requires Closes(("type" + gap + x + tail)[1..], 1)
    ensures ParseFrom("(" + ("type" + gap + x + tail) + ")" + rest, c) == ParseFrom(rest, c.(types := c.types + {x}))
  {
    hide Head, Line, Closes, ParseFrom, IsGap;
    HeadIs(TYPE, gap, x, tail);
    ParseStatement(TYPE + gap + x + tail, rest, c);
  }

  lemma AttributeIsDeclared(gap: string, x: string, tail: string, rest: string, c: Cil)
    requires IsGap(gap) && x != "" && !IsSpace(x[0]) && OneLine(x) && (tail == "" || tail[0] == '\n')
    requires Closes(("typeattribute" + gap + x + tail)[1..], 1)
    ensures ParseFrom("(" + ("typeattribute" + gap + x + tail) + ")" + rest, c)
      == ParseFrom(rest, c.(attributes := c.attributes + {x}))
  {
    hide Head, Line, Closes, ParseFrom, IsGap;
    var a := ATTRIBUTE + gap + x + tail;
    HeadIs(ATTRIBUTE, gap, x, tail);
    NotType(gap + x + tail);
    assert a == ATTRIBUTE + (gap + x + tail);
    ParseStatement(a, rest, c);
  }

  lemma NotType(t: string)
    ensures Head(TYPE, ATTRIBUTE + t) == None
  {
    assert (ATTRIBUTE + t)[4] == 'a';
    HeadMisses(TYPE, ATTRIBUTE + t);
  }

  /** Group 1 goes on over white space that no parenthesis follows. */
  lemma {:induction false} SetAtFinds(s: string, i: nat, k: nat, e: nat, w: nat)
    requires i < k <= e < w && w + 2 <= |s| && s[w] == '(' && SpaceEnd(s, e) == w && (k < e ==> !IsSpace(s[e - 1]))
    requires forall j | k <= j < e :: s[j] != '('
    requires Find(s, ')', w + 2) < |s|
    ensures SetAt(s, i, k) == Some((s[i..e], s[w + 1..Find(s, ')', w + 2)]))
    decreases e - k
  {
    if k < e {
      SetAtFinds(s, i, k + 1, e, w);
      assert SpaceEnd(s, k) <= e - 1;
    }
  }

  /** A statement `kw name (list) more`: the pieces, in their places. */
  function SetLike(kw: string, gap: string, name: string, gap': string, list: string, more: string): string {
    kw + gap + name + gap' + "(" + list + ")" + more
  }

  lemma SetPlaces(kw: string, gap: string, name: string, gap': string, list: string, more: string)
    ensures var s, i := SetLike(kw, gap, name, gap', list, more), |kw| + |gap|;
      var e := i + |name|;
      var w := e + |gap'|;
      var q := w + 1 + |list|;
      && kw <= s && q < |s| && s[|kw|..i] == gap && s[i..e] == name && s[e..w] == gap' && s[w] == '(' && s[w + 1..q] == list && s[q] == ')'
  {
    var i := |kw| + |gap|;
    var e := i + |name|;
    var w := e + |gap'|;
    var s := SetLike(kw, gap, name, gap', list, more);
    assert s[w..] == "(" + list + ")" + more;
    assert s[w..][1..1 + |list|] == list;
  }

  lemma Within(s: string, i: nat, j: nat, t: string)
    requires i <= j <= |s| && s[i..j] == t
    ensures forall k | i <= k < j :: s[k] == t[k - i] && s[k] in t
  {
  }

  lemma SetShapeMatches(kw: string, s: string, i: nat, e: nat, w: nat, q: nat)
    requires kw <= s && |kw| < i < e < w && w + 2 <= q < |s| && s[w] == '(' && s[q] == ')'
    requires (forall k | |kw| <= k < i :: IsSpace(s[k])) && !IsSpace(s[i]) && !IsSpace(s[e - 1])
    requires (forall k | i <= k < e :: s[k] != '(') && (forall k | e <= k < w :: IsSpace(s[k]))
    requires forall k | w + 2 <= k < q :: s[k] != ')'
    ensures MatchSet(kw, s) == Some((s[i..e], s[w + 1..q]))
  {
    hide SetAt, IsSpace;
    SpaceEndIs(s, |kw|, i);
    NotSpace();
    SpaceEndIs(s, e, w);
    assert Find(s, ')', w + 2) == q;
    SetAtFinds(s, i, i + 1, e, w);
  }

  lemma NotSpace()
    ensures !IsSpace('(') && !IsSpace(')')
  {
  }

  lemma GapsAreNotEmpty(gap: string, gap': string)
    requires IsGap(gap) && IsGap(gap')
    ensures gap != "" && gap' != ""
  {
  }

  lemma SpaceWithin(s: string, i: nat, j: nat, gap: string)
    requires i <= j <= |s| && s[i..j] == gap && IsGap(gap)
    ensures forall k | i <= k < j :: IsSpace(s[k])
  {
    hide IsSpace;
    Within(s, i, j, gap);
  }

  lemma NoneWithin(s: string, i: nat, j: nat, t: string, c: char)
    requires i <= j <= |s| && s[i..j] == t && c !in t
    ensures forall k | i <= k < j :: s[k] != c
  {
    Within(s, i, j, t);
  }

  /** The name may hold white space, and the list opening parentheses: it ends with the first closing one. */
  lemma SetLikeMatches(kw: string, gap: string, name: string, gap': string, list: string, more: string)
    requires IsGap(gap) && IsGap(gap') && name != "" && '(' !in name && !IsSpace(name[0]) && !IsSpace(name[|name| - 1])
    requires list != "" && ')' !in list[1..]
    ensures MatchSet(kw, SetLike(kw, gap, name, gap', list, more)) == Some((name, list))
  {
    hide SetLike, MatchSet, IsSpace, IsGap;
    var s, i := SetLike(kw, gap, name, gap', list, more), |kw| + |gap|;
    var e := i + |name|;
    var w := e + |gap'|;
    var q := w + 1 + |list|;
    SetPlaces(kw, gap, name, gap', list, more);
    assert s[w + 2..q] == s[w + 1..q][1..];
    assert s[i] == s[i..e][0] && s[e - 1] == s[i..e][|name| - 1];
    GapsAreNotEmpty(gap, gap');
    SpaceWithin(s, |kw|, i, gap);
    NoneWithin(s, i, e, name, '(');
    SpaceWithin(s, e, w, gap');
    NoneWithin(s, w + 2, q, list[1..], ')');
    SetShapeMatches(kw, s, i, e, w, q);
  }

  lemma SetLikeHead(kw: string, gap: string, name: string, gap': string, list: string, more: string)
    requires IsGap(gap) && name != "" && !IsSpace(name[0])
    ensures Head(kw, SetLike(kw, gap, name, gap', list, more)).Some?
  {
    ListlessHead(kw, gap, name + gap' + "(" + list + ")" + more);
    assert SetLike(kw, gap, name, gap', list, more) == kw + gap + (name + gap' + "(" + list + ")" + more);
  }

  lemma SetLikeRead(gap: string, name: string, gap': string, list: string, more: string)
    requires IsGap(gap) && IsGap(gap') && name != "" && '(' !in name && !IsSpace(name[0]) && !IsSpace(name[|name| - 1])
    requires list != "" && ')' !in list[1..]
    ensures var b := SetLike("typeattributeset", gap, name, gap', list, more); b != "" && Classify(b) == Set(name, Split(list))
  {
    hide Head, MatchSet, IsGap;
    var b := SetLike(SET, gap, name, gap', list, more);
    SetLikeMatches(SET, gap, name, gap', list, more);
    SetLikeHead(SET, gap, name, gap', list, more);
    SetPlaces(SET, gap, name, gap', list, more);
    OtherHeads(b);
  }

  /** A set statement adds to a set that is there already; the index gains the set under each member. */
  lemma SetStatementAdds(gap: string, name: string, gap': string, list: string, more: string, rest: string, c: Cil) returns (c': Cil)
    requires IsGap(gap) && IsGap(gap') && name != "" && '(' !in name && !IsSpace(name[0]) && !IsSpace(name[|name| - 1])
    requires list != "" && ')' !in list[1..]
    requires Closes(SetLike("typeattributeset", gap, name, gap', list, more)[1..], 1)
    ensures ParseFrom("(" + SetLike("typeattributeset", gap, name, gap', list, more) + ")" + rest, c) == ParseFrom(rest, c')
    ensures c'.types == c.types && c'.attributes == c.attributes && c'.expand == c.expand
    ensures c'.sets == c.sets[name := (if name in c.sets then c.sets[name] else {}) + Elements(Split(list))]
    ensures c'.rsets.Keys == c.rsets.Keys + Elements(Split(list))
    ensures forall t | t in c'.rsets ::
      c'.rsets[t] == (if t in c.rsets then c.rsets[t] else {}) + if t in Split(list) then {name} else {}
  {
    hide Classify, Closes, ParseFrom, Split, AddMembers, PubBase, IsGap, SetLike;
    var b := SetLike("typeattributeset", gap, name, gap', list, more);
    SetLikeRead(gap, name, gap', list, more);
    ParseStatement(b, rest, c);
    c' := AddSet(c, name, Split(list));
    AddMembersHas(c.rsets, Split(list), name);
    forall t | t in c'.rsets ensures c'.rsets[t] == (if t in c.rsets then c.rsets[t] else {}) + if t in Split(list) then {name} else {} {
      assert Lookup(c'.rsets, t) == Lookup(c.rsets, t) + if t in Split(list) then {name} else {};
    }
  }

  /** A flag statement `kw (x) flag more`. */
  function ExpandLike(kw: string, gap: string, x: string, gap': string, flag: string, more: string): string {
    kw + gap + "(" + x + ")" + gap' + flag + more
  }

  lemma ExpandPlaces(kw: string, gap: string, x: string, gap': string, flag: string, more: string)
    ensures var s, i := ExpandLike(kw, gap, x, gap', flag, more), |kw| + |gap|;
      var e := i + 1 + |x|;
      var f := e + 1 + |gap'|;
      && kw <= s && f <= |s| && s[|kw|..i] == gap && s[i] == '(' && s[i + 1..e] == x && s[e] == ')' && s[e + 1..f] == gap' && s[f..] == flag + more
  {
    var s, i := ExpandLike(kw, gap, x, gap', flag, more), |kw| + |gap|;
    assert s[i..] == "(" + x + ")" + gap' + flag + more;
    assert s[i..][1..1 + |x|] == x;
    assert s[i + 1 + |x|..] == ")" + gap' + flag + more;
    assert s[i + 1 + |x|..][1..1 + |gap'|] == gap';
  }

  lemma FlagStands(s: string, k: nat, gap: string, flag: string, more: string)
    requires k + |gap| <= |s| && s[k..k + |gap|] == gap && IsGap(gap) && s[k + |gap|..] == flag + more && flag in {"true", "false"}
    ensures FlagAt(s, k) == Some(flag)
  {
    var f := k + |gap|;
    Within(s, k, f, gap);
    assert s[f] == s[f..][0] == flag[0];
    SpaceEndIs(s, k, f);
    if flag == "false" {
      assert !("true" <= s[f..]);
    }
  }

  lemma ExpandShapeMatches(kw: string, s: string, i: nat, e: nat, flag: string)
    requires kw <= s && |kw| < i && i + 2 <= e < |s| && s[i] == '(' && s[e] == ')'
    requires (forall k | |kw| <= k < i :: IsSpace(s[k])) && (forall k | i + 1 <= k < e :: s[k] != '\n')
    requires FlagAt(s, e + 1) == Some(flag) && forall k | e < k < |s| :: s[k] != ')'
    ensures MatchExpand(kw, s) == Some((s[i + 1..e], flag))
  {
    hide FlagAt, IsSpace, ExpandEnd;
    NotSpace();
    SpaceEndIs(s, |kw|, i);
    var n := Find(s, '\n', i + 1);
    ExpandEndIs(s, i + 2, n, e);
  }

  /** The last parenthesis that a flag follows ends the name; anything may follow the flag. */
  lemma ExpandLikeMatches(kw: string, gap: string, x: string, gap': string, flag: string, more: string)
    requires IsGap(gap) && IsGap(gap') && x != "" && OneLine(x) && flag in {"true", "false"} && ')' !in more
    ensures MatchExpand(kw, ExpandLike(kw, gap, x, gap', flag, more)) == Some((x, flag))
  {
    var s, i := ExpandLike(kw, gap, x, gap', flag, more), |kw| + |gap|;
    var e := i + 1 + |x|;
    var f := e + 1 + |gap'|;
    hide IsSpace, MatchExpand, FlagAt, ExpandLike;
    ExpandPlaces(kw, gap, x, gap', flag, more);
    Within(s, |kw|, i, gap);
    Within(s, i + 1, e, x);
    Within(s, e + 1, f, gap');
    FlagStands(s, e + 1, gap', flag, more);
    NoCloseAfter(s, f, flag, more);
    NotSpace();
    ExpandShapeMatches(kw, s, i, e, flag);
  }

  lemma NoCloseAfter(s: string, f: nat, flag: string, more: string)
    requires f <= |s| && s[f..] == flag + more && flag in {"true", "false"} && ')' !in more
    ensures forall k | f <= k < |s| :: s[k] != ')'
  {
    FlagChars(flag);
    assert forall k | f <= k < |s| :: s[k] == s[f..][k - f] && (k - f >= |flag| ==> s[k] == more[k - f - |flag|]);
  }

  lemma ExpandLikeRead(gap: string, x: string, gap': string, flag: string, more: string)
    requires IsGap(gap) && IsGap(gap') && x != "" && OneLine(x) && flag in {"true", "false"} && ')' !in more
    ensures var b := ExpandLike("expandtypeattribute", gap, x, gap', flag, more); b != "" && Classify(b) == Expand(x, flag)
  {
    hide Head, MatchExpand, IsGap, ExpandLike;
    var b := ExpandLike(EXPAND, gap, x, gap', flag, more);
    ExpandLikeMatches(EXPAND, gap, x, gap', flag, more);
    ExpandLikeHead(EXPAND, gap, x, gap', flag, more);
    ExpandPlaces(EXPAND, gap, x, gap', flag, more);
    OtherHeads(b);
  }

  lemma ExpandLikeHead(kw: string, gap: string, x: string, gap': string, flag: string, more: string)
    requires IsGap(gap)
    ensures Head(kw, ExpandLike(kw, gap, x, gap', flag, more)).Some?
  {
    ListlessHead(kw, gap, "(" + x + ")" + gap' + flag + more);
    assert ExpandLike(kw, gap, x, gap', flag, more) == kw + gap + ("(" + x + ")" + gap' + flag + more);
  }

  /** The last flag given for an attribute counts. */
  lemma ExpandStatementSets(gap: string, x: string, gap': string, flag: string, more: string, rest: string, c: Cil)
    requires IsGap(gap) && IsGap(gap') && x != "" && OneLine(x) && flag in {"true", "false"} && ')' !in more
    requires Closes(ExpandLike("expandtypeattribute", gap, x, gap', flag, more)[1..], 1)
    ensures ParseFrom("(" + ExpandLike("expandtypeattribute", gap, x, gap', flag, more) + ")" + rest, c)
      == ParseFrom(rest, c.(expand := c.expand[x := flag]))
  {
    hide Classify, Closes, ParseFrom, IsGap, ExpandLike;
    ExpandLikeRead(gap, x, gap', flag, more);
    ParseStatement(ExpandLike("expandtypeattribute", gap, x, gap', flag, more), rest, c);
  }

  // ---------------------------------------------------------------------------------------
  // A statement that the text does not end

  lemma {:induction false} BodyToTheEnd(b: string, parens: nat)
    requires b != "" && Closes(b[1..], parens)
    ensures Body(b, parens) == Some((b, ""))
    decreases |b|
  {
    if |b| == 1 {
      assert [b[0]] + "" == b;
    } else {
      assert b[1..][0] == b[1] && b[1..][1..] == b[2..];
      BodyToTheEnd(b[1..], Shift(parens, b[1]));
      assert [b[0]] + b[1..] == b;
    }
  }

  /** At the end of the text the last parenthesis of a statement may be missing. */
  lemma UnfinishedIsTaken(b: string, c: Cil)
    requires b != "" && Closes(b[1..], 1)
    ensures ParseFrom("(" + b, c) == ParseFrom("(" + b + ")", c)
  {
    BodyToTheEnd(b, 1);
    assert NextStmt("(" + b) == Stmt(b, "") by {
      assert ("(" + b)[1..] == b;
    }
    ReadStatement(b, "");
    assert WrapParens(b) + "" == "(" + b + ")";
    hide Apply, Classify, Body, Closes;
  }

  // ---------------------------------------------------------------------------------------
  // Statements that break the parser

  lemma {:induction false} NoSetFrom(s: string, lo: nat, i: nat)
    requires lo <= i <= |s| && forall j | lo <= j < |s| :: s[j] != '('
    ensures SetFrom(s, lo, i) == None
    decreases i
  {
    if lo < i {
      if i < |s| { NoSetAt(s, i, i + 1); }
      NoSetFrom(s, lo, i - 1);
    }
  }

  lemma {:induction false} NoSetAt(s: string, i: nat, k: nat)
    requires i < k <= |s| && forall j | i <= j < |s| :: s[j] != '('
    ensures SetAt(s, i, k) == None
    decreases |s| - k
  {
    if k < |s| { NoSetAt(s, i, k + 1); }
  }

  /** A set or a flag without a parenthesized part raises an exception. */
  lemma StatementWithoutListCrashes(kw: string, gap: string, x: string, rest: string, c: Cil)
    requires kw in {"typeattributeset", "expandtypeattribute"} && IsGap(gap) && x != "" && !IsSpace(x[0]) && Plain(x)
    ensures ParseFrom("(" + (kw + gap + x) + ")" + rest, c) == Crashed
  {
    hide Classify, Closes, ParseFrom, Apply, IsGap, Plain;
    var s := kw + gap + x;
    ListlessCloses(kw, gap, x);
    ListlessIsBroken(kw, gap, x);
    ParseStatement(s, rest, c);
    BrokenCrashes(c);
  }

  lemma BrokenCrashes(c: Cil)
    ensures Apply(c, Broken) == None
  {
  }

  lemma KeywordsArePlain(kw: string)
    requires kw in {SET, EXPAND}
    ensures kw != "" && Plain(kw[1..])
  {
    SetIsPlain();
    ExpandIsPlain();
    assert forall c | c in SET[1..] :: c in SET[1..] + " ";
    assert forall c | c in EXPAND[1..] :: c in EXPAND[1..] + " ";
  }

  lemma ListlessCloses(kw: string, gap: string, x: string)
    requires kw in {SET, EXPAND} && IsGap(gap) && Plain(x)
    ensures kw + gap + x != "" && Closes((kw + gap + x)[1..], 1)
  {
    hide Closes;
    KeywordsArePlain(kw);
    assert (kw + gap + x)[1..] == (kw[1..] + gap + x) + "";
    ClosesPlain(kw[1..] + gap + x, "", 1);
    ClosesChar(')', "", 2);
  }

  lemma ListlessIsBroken(kw: string, gap: string, x: string)
    requires kw in {SET, EXPAND} && IsGap(gap) && x != "" && !IsSpace(x[0]) && Plain(x)
    ensures Classify(kw + gap + x) == Broken
  {
    hide IsGap, Plain, SetFrom, SpaceEnd, Head, MatchExpand, IsSpace;
    var s := kw + gap + x;
    ListlessHead(kw, gap, x);
    ListlessChars(kw, gap, x);
    if kw == SET {
      OtherHeads(s);
      NoSetFrom(s, |SET|, SpaceEnd(s, |SET|));
    } else {
      OtherHeads(s);
      NoExpand(s);
    }
  }

  lemma ListlessHead(kw: string, gap: string, x: string)
    requires IsGap(gap) && x != "" && !IsSpace(x[0])
    ensures Head(kw, kw + gap + x).Some?
  {
    hide Head, IsGap;
    var k := Find(x, '\n', 0);
    var line, tail := x[..k], x[k..];
    assert x == line + tail && kw + gap + x == kw + gap + line + tail;
    assert line[0] == x[0];
    HeadIs(kw, gap, line, tail);
  }

  lemma ListlessChars(kw: string, gap: string, x: string)
    requires IsGap(gap) && x != "" && Plain(x)
    ensures var s := kw + gap + x; kw <= s && |kw| < |s| && forall j | |kw| <= j < |s| :: s[j] != '('
  {
    var s, k := kw + gap + x, |kw| + |gap|;
    assert forall j | |kw| <= j < k :: s[j] == gap[j - |kw|] && s[j] in gap;
    assert forall j | k <= j < |s| :: s[j] == x[j - k] && s[j] in x;
    assert !IsSpace('(');
  }

  /** No two keywords are heads of one statement. */
  lemma OtherHeads(s: string)
    ensures SET <= s ==> Head(TYPE, s) == None && Head(ATTRIBUTE, s) == None
    ensures EXPAND <= s ==> Head(TYPE, s) == None && Head(ATTRIBUTE, s) == None && Head(SET, s) == None
  {
    hide Head;
    if SET <= s {
      assert s[4] == SET[4] && s[13] == SET[13];
      HeadMisses(TYPE, s);
      HeadMisses(ATTRIBUTE, s);
    }
    if EXPAND <= s {
      assert s[0] == EXPAND[0];
      HeadMisses(TYPE, s);
      HeadMisses(ATTRIBUTE, s);
      HeadMisses(SET, s);
    }
  }

  lemma NoExpand(s: string)
    requires forall j | |EXPAND| <= j < |s| :: s[j] != '('
    ensures MatchExpand(EXPAND, s) == None
  {
  }
}
