/** Type set expressions as they are written in neverallow rules, and what `read_typeset` makes of
    them: a union that does not depend on the order or the nesting of what is between the braces. */
module NeverallowSyntax {
  import opened Options
  import opened NeverallowScan
  import opened NeverallowTypes

  /** What can stand in a type set; a negation is written directly before its name. A group has white
      space, its gaps, before each of its elements and before the closing brace. */
  datatype Elem = Pos(name: string) | Neg(name: string) | All | Oneself | Group(elems: seq<Elem>, gaps: seq<string>)

  predicate AllSpace(s: string) {
    forall c | c in s :: IsSpace(c)
  }

  /** The gaps around n names, of which those between two names are not empty. */
  predicate GapsOk(gaps: seq<string>, n: nat) {
    |gaps| == n + 1 && (forall g | g in gaps :: AllSpace(g)) && forall k | 0 < k < n :: gaps[k] != ""
  }

  /** The element ends in an identifier, which goes on up to the next character that stops it. */
  predicate NameLast(e: Elem) {
    e.Pos? || e.Neg? || e.Oneself?
  }

  /** The gaps around elements: white space is needed only between an identifier and what is not a brace. */
  predicate ElemGapsOk(gaps: seq<string>, es: seq<Elem>) {
    |gaps| == |es| + 1 && (forall g | g in gaps :: AllSpace(g))
    && forall k | 0 < k < |es| && NameLast(es[k - 1]) && !es[k].Group? :: gaps[k] != ""
  }

  /** What may directly follow an element. */
  predicate MayFollow(e: Elem, rest: string) {
    rest != "" && (NameLast(e) ==> Stops(Types, rest[0]))
  }

  /** A name that is read as one identifier. */
  predicate NameOk(n: string) {
    n != "" && n != SELF && n[0] != '~' && n[0] != '*' && n[0] != '-' && forall c | c in n :: !Stops(Types, c)
  }

  ghost predicate ElemOk(e: Elem) {
    match e
    case Pos(n) => NameOk(n)
    case Neg(n) => NameOk(n)
    case Group(es, gaps) => ElemGapsOk(gaps, es) && forall x | x in es :: ElemOk(x)
    case _ => true
  }

  function First(gaps: seq<string>): string {
    if gaps == [] then "" else gaps[0]
  }

  function Others(gaps: seq<string>): seq<string> {
    if gaps == [] then [] else gaps[1..]
  }

  function Render(e: Elem): string {
    match e
    case Pos(n) => n
    case Neg(n) => "-" + n
    case All => "*"
    case Oneself => SELF
    case Group(es, gaps) => "{" + (RenderAll(es, gaps) + "}")
  }

  function RenderAll(es: seq<Elem>, gaps: seq<string>): string
    decreases es
  {
    First(gaps) + if es == [] then "" else Render(es[0]) + RenderAll(es[1..], Others(gaps))
  }

  function TokensOf(e: Elem): seq<Token> {
    match e
    case Pos(n) => [Name(n)]
    case Neg(n) => [Minus, Name(n)]
    case All => [Star]
    case Oneself => [Self]
    case Group(es, _) => [Open] + (TokensOfAll(es) + [Close])
  }

  function TokensOfAll(es: seq<Elem>): seq<Token> {
    if es == [] then [] else TokensOf(es[0]) + TokensOfAll(es[1..])
  }

  // ---------------------------------------------------------------------------------------
  // Reading what was written

  lemma {:induction false} SpaceSkipped(gap: string, s: string)
    requires AllSpace(gap)
    ensures SkipSpace(gap + s) == SkipSpace(s)
  {
    if gap == "" {
      assert gap + s == s;
    } else {
      assert gap[0] in gap && (gap + s)[1..] == gap[1..] + s && forall c | c in gap[1..] :: c in gap;
      SpaceSkipped(gap[1..], s);
    }
  }

  lemma ScanSpace(mode: Mode, gap: string, s: string, open: nat)
    requires AllSpace(gap)
    ensures Step(mode, gap + s) == Step(mode, s) && Scan(mode, gap + s, open) == Scan(mode, s, open)
  {
    SpaceSkipped(gap, s);
  }

  lemma {:induction false} IdLenIs(mode: Mode, n: string, rest: string)
    requires (forall c | c in n :: !Stops(mode, c)) && (rest != "" ==> Stops(mode, rest[0]))
    ensures IdLen(mode, n + rest) == |n|
  {
    if n == "" {
      assert n + rest == rest;
    } else {
      assert n[0] in n && (n + rest)[1..] == n[1..] + rest && forall c | c in n[1..] :: c in n;
      IdLenIs(mode, n[1..], rest);
    }
  }

  lemma StepName(n: string, rest: string)
    requires NameOk(n) && rest != "" && Stops(Types, rest[0])
    ensures Step(Types, n + rest) == Some((false, Name(n), rest))
  {
    var s := n + rest;
    assert s[0] == n[0] && n[0] in n;
    IdLenIs(Types, n, rest);
    assert s[..|n|] == n && s[|n|..] == rest;
  }

  lemma StepSelf(rest: string)
    requires rest != "" && Stops(Types, rest[0])
    ensures Step(Types, SELF + rest) == Some((false, Self, rest))
  {
    var s := SELF + rest;
    assert s[0] == 's';
    IdLenIs(Types, SELF, rest);
    assert s[..|SELF|] == SELF && s[|SELF|..] == rest;
  }

  lemma StepChar(c: char, rest: string)
    requires c == '{' || c == '}' || c == '*' || c == '-'
    ensures Step(Types, [c] + rest)
      == Some((false, if c == '{' then Open else if c == '}' then Close else if c == '*' then Star else Minus, rest))
  {
    assert ([c] + rest)[0] == c && ([c] + rest)[1..] == rest;
  }

  /** One step of a scan that goes on. */
  lemma ScanOn(mode: Mode, s: string, t: Token, rest: string, open: nat)
    requires Step(mode, s) == Some((false, t, rest)) && rest != "" && (t == Close ==> open > 0) && Depth(open, t) > 0
    ensures Scan(mode, s, open) == Prepend([t], Scan(mode, rest, Depth(open, t)))
  {
    hide Step;
  }

  lemma PrependTwice(a: seq<Token>, b: seq<Token>, r: Option<(seq<Token>, string)>)
    ensures Prepend(a, Prepend(b, r)) == Prepend(a + b, r)
  {
    if r.Some? {
      assert a + (b + r.value.0) == a + b + r.value.0;
    }
  }

  lemma {:induction false} ScanElem(e: Elem, rest: string, open: nat)
    requires ElemOk(e) && MayFollow(e, rest) && open > 0
    ensures Scan(Types, Render(e) + rest, open) == Prepend(TokensOf(e), Scan(Types, rest, open))
    decreases e, 1
  {
    hide Step, Scan, Prepend, NameOk, Stops;
    match e
    case Pos(n) =>
      StepName(n, rest);
      ScanOn(Types, n + rest, Name(n), rest, open);
    case Neg(n) =>
      StepName(n, rest);
      ScanOn(Types, n + rest, Name(n), rest, open);
      StepChar('-', n + rest);
      assert ("-" + n) + rest == ['-'] + (n + rest);
      ScanOn(Types, ['-'] + (n + rest), Minus, n + rest, open);
      PrependTwice([Minus], [Name(n)], Scan(Types, rest, open));
      assert [Minus] + [Name(n)] == TokensOf(e);
    case All =>
      StepChar('*', rest);
      ScanOn(Types, "*" + rest, Star, rest, open);
    case Oneself =>
      StepSelf(rest);
      ScanOn(Types, SELF + rest, Self, rest, open);
    case Group(es, gaps) =>
      ScanOpen(es, gaps, rest, open);
      StepChar('}', rest);
      ScanOn(Types, "}" + rest, Close, rest, open + 1);
      PrependTwice([Open] + TokensOfAll(es), [Close], Scan(Types, rest, open));
      assert [Open] + TokensOfAll(es) + [Close] == TokensOf(e);
  }

  lemma {:induction false} ScanOpen(es: seq<Elem>, gaps: seq<string>, rest: string, open: nat)
    requires ElemGapsOk(gaps, es) && (forall x | x in es :: ElemOk(x)) && rest != ""
    ensures Scan(Types, Render(Group(es, gaps)) + rest, open)
      == Prepend([Open] + TokensOfAll(es), Scan(Types, "}" + rest, open + 1))
    decreases es, 2
  {
    hide Step, Scan, Prepend, ElemOk, ElemGapsOk;
    var inner := RenderAll(es, gaps) + ("}" + rest);
    assert Render(Group(es, gaps)) + rest == ['{'] + inner;
    StepChar('{', inner);
    ScanOn(Types, ['{'] + inner, Open, inner, open);
    ScanElems(es, gaps, "}" + rest, open + 1);
    PrependTwice([Open], TokensOfAll(es), Scan(Types, "}" + rest, open + 1));
  }

  /** Elements with their gaps: the first gap, the first element, and then what may follow it. */
  lemma ElemsParts(es: seq<Elem>, gaps: seq<string>, rest: string)
    requires es != [] && ElemGapsOk(gaps, es) && rest != "" && Stops(Types, rest[0])
    ensures gaps != [] && AllSpace(gaps[0]) && ElemGapsOk(gaps[1..], es[1..])
    ensures var more := RenderAll(es[1..], gaps[1..]) + rest;
      RenderAll(es, gaps) + rest == gaps[0] + (Render(es[0]) + more) && MayFollow(es[0], more)
  {
    hide Render, RenderAll, ElemGapsOk, AllSpace;
    ElemGapsParts(gaps, es);
    ElemsStep(es, gaps);
    Regroup(gaps[0], Render(es[0]), RenderAll(es[1..], gaps[1..]), rest);
    if RenderAll(es[1..], gaps[1..]) == "" {
      assert RenderAll(es[1..], gaps[1..]) + rest == rest;
    }
  }

  lemma ElemGapsParts(gaps: seq<string>, es: seq<Elem>)
    requires es != [] && ElemGapsOk(gaps, es)
    ensures |gaps| > 1 && AllSpace(gaps[0]) && ElemGapsOk(gaps[1..], es[1..])
    ensures if gaps[1] != "" then IsSpace(gaps[1][0]) else |es| == 1 || !NameLast(es[0]) || es[1].Group?
  {
    assert gaps[0] in gaps && gaps[1] in gaps && forall g | g in gaps[1..] :: g in gaps;
    assert gaps[1] != "" ==> gaps[1][0] in gaps[1];
    forall k | 0 < k < |es[1..]| && NameLast(es[1..][k - 1]) && !es[1..][k].Group? ensures gaps[1..][k] != "" {
      assert NameLast(es[k]) && !es[k + 1].Group?;
    }
  }

  lemma ElemsStep(es: seq<Elem>, gaps: seq<string>)
    requires es != [] && |gaps| > 1
    ensures var tail := RenderAll(es[1..], gaps[1..]);
      && RenderAll(es, gaps) == gaps[0] + (Render(es[0]) + tail)
      && (gaps[1] != "" ==> tail != "" && tail[0] == gaps[1][0])
      && (gaps[1] == "" && |es| == 1 ==> tail == "")
      && (gaps[1] == "" && |es| > 1 && es[1].Group? ==> tail != "" && tail[0] == '{')
  {
    if |es| > 1 && es[1].Group? {
      assert Render(es[1])[0] == '{';
    }
    hide Render;
  }

  lemma Regroup(a: string, b: string, c: string, d: string)
    ensures a + (b + c) + d == a + (b + (c + d))
  {
  }

  lemma GapsParts(gaps: seq<string>, n: nat)
    requires n > 0 && GapsOk(gaps, n)
    ensures |gaps| > 1 && AllSpace(gaps[0]) && GapsOk(gaps[1..], n - 1)
    ensures if gaps[1] != "" then IsSpace(gaps[1][0]) else n == 1
  {
    assert gaps[0] in gaps && gaps[1] in gaps && forall g | g in gaps[1..] :: g in gaps;
    assert gaps[1] != "" ==> gaps[1][0] in gaps[1];
  }

  lemma {:induction false} ScanElems(es: seq<Elem>, gaps: seq<string>, rest: string, open: nat)
    requires ElemGapsOk(gaps, es) && (forall x | x in es :: ElemOk(x)) && rest != "" && Stops(Types, rest[0]) && open > 0
    ensures Scan(Types, RenderAll(es, gaps) + rest, open) == Prepend(TokensOfAll(es), Scan(Types, rest, open))
    decreases es, 1
  {
    hide Step, Scan, Prepend, ElemOk, Render, RenderAll, TokensOf, ElemGapsOk, AllSpace, Stops, MayFollow;
    if es == [] {
      OnlyGap(gaps);
      ScanSpace(Types, gaps[0], rest, open);
      PrependNothing(Scan(Types, rest, open));
    } else {
      ElemsParts(es, gaps, rest);
      var more := RenderAll(es[1..], gaps[1..]) + rest;
      assert es[0] in es && forall x | x in es[1..] :: x in es;
      ScanSpace(Types, gaps[0], Render(es[0]) + more, open);
      ScanElem(es[0], more, open);
      ScanElems(es[1..], gaps[1..], rest, open);
      PrependTwice(TokensOf(es[0]), TokensOfAll(es[1..]), Scan(Types, rest, open));
    }
  }

  lemma OnlyGap(gaps: seq<string>)
    requires ElemGapsOk(gaps, [])
    ensures |gaps| == 1 && AllSpace(gaps[0]) && RenderAll([], gaps) == gaps[0]
  {
    assert gaps[0] in gaps;
  }

  /** A whole type set: optionally complemented, with white space after the `~`, and not a bare negation. */
  datatype Expr = Expr(comp: bool, gap: string, elem: Elem)

  ghost predicate ExprOk(x: Expr) {
    ElemOk(x.elem) && !x.elem.Neg? && AllSpace(x.gap)
  }

  function RenderExpr(x: Expr): string {
    if x.comp then "~" + (x.gap + Render(x.elem)) else Render(x.elem)
  }

  function ExprTokens(x: Expr): seq<Token> {
    (if x.comp then [Comp] else []) + TokensOf(x.elem)
  }

  /** A scan that stops after one token. */
  lemma ScanOnce(mode: Mode, s: string, comp: bool, t: Token, rest: string)
    requires Step(mode, s) == Some((comp, t, rest)) && rest != "" && t != Open && t != Close
    ensures Scan(mode, s, 0) == Some((Marked(comp, t), rest))
  {
    hide Step;
  }

  lemma StepComplemented(mode: Mode, gap: string, s: string, t: Token, rest: string)
    requires mode != Classes && AllSpace(gap) && s != "" && s[0] != '~' && !IsSpace(s[0]) && Step(mode, s) == Some((false, t, rest))
    ensures Step(mode, "~" + (gap + s)) == Some((true, t, rest))
  {
    SpaceSkipped(gap, s);
    assert ("~" + (gap + s))[1..] == gap + s;
  }

  lemma MarkedSplit(t: Token, more: seq<Token>)
    ensures [Comp] + ([t] + more) == [Comp, t] + more
  {
  }

  lemma ScanComplemented(mode: Mode, gap: string, s: string)
    requires mode != Classes && AllSpace(gap) && s != "" && s[0] != '~' && !IsSpace(s[0]) && Scan(mode, s, 0).Some?
    ensures Scan(mode, "~" + (gap + s), 0) == Prepend([Comp], Scan(mode, s, 0))
  {
    hide Step;
    var (comp, t, rest) := Step(mode, s).value;
    NoTilde(mode, s);
    StepComplemented(mode, gap, s, t, rest);
    assert [Comp] + [t] == [Comp, t];
    if Depth(0, t) > 0 {
      MarkedSplit(t, Scan(mode, rest, Depth(0, t)).value.0);
    }
  }

  lemma NoTilde(mode: Mode, s: string)
    requires s != "" && s[0] != '~' && !IsSpace(s[0]) && Step(mode, s).Some?
    ensures !Step(mode, s).value.0
  {
  }

  lemma ScanTop(e: Elem, rest: string)
    requires ElemOk(e) && !e.Neg? && MayFollow(e, rest)
    ensures Scan(Types, Render(e) + rest, 0) == Some((TokensOf(e), rest))
    ensures Render(e) != "" && Render(e)[0] != '~' && !IsSpace(Render(e)[0])
  {
    hide Step, Scan, Prepend;
    match e
    case Pos(n) =>
      StepName(n, rest);
      assert n[0] in n;
      ScanOnce(Types, n + rest, false, Name(n), rest);
    case All =>
      StepChar('*', rest);
      ScanOnce(Types, "*" + rest, false, Star, rest);
    case Oneself =>
      StepSelf(rest);
      ScanOnce(Types, SELF + rest, false, Self, rest);
    case Group(es, gaps) =>
      ScanOpen(es, gaps, rest, 0);
      ScanLastClose(rest);
      PrependIs([Open] + TokensOfAll(es), [Close], rest);
      assert [Open] + TokensOfAll(es) + [Close] == TokensOf(e);
  }

  lemma ScanLastClose(rest: string)
    requires rest != ""
    ensures Scan(Types, "}" + rest, 1) == Some(([Close], rest))
  {
    StepChar('}', rest);
    hide Step;
    assert "}" + rest == ['}'] + rest;
  }

  lemma PrependIs(a: seq<Token>, b: seq<Token>, rest: string)
    ensures Prepend(a, Some((b, rest))) == Some((a + b, rest))
  {
  }

  /** A written type set is read up to its end, as its own tokens. */
  lemma ExprReads(x: Expr, rest: string)
    requires ExprOk(x) && MayFollow(x.elem, rest)
    ensures Scan(Types, RenderExpr(x) + rest, 0) == Some((ExprTokens(x), rest))
  {
    hide Scan, Stops;
    ScanTop(x.elem, rest);
    var s := Render(x.elem) + rest;
    if x.comp {
      assert RenderExpr(x) + rest == "~" + (x.gap + s) && s[0] == Render(x.elem)[0];
      ScanComplemented(Types, x.gap, s);
    } else {
      assert RenderExpr(x) + rest == s;
      assert [] + TokensOf(x.elem) == TokensOf(x.elem);
    }
  }

  // ---------------------------------------------------------------------------------------
  // What it denotes

  /** The elements that are not groups. */
  ghost function Leaves(e: Elem): set<Elem> {
    if e.Group? then LeavesOfAll(e.elems) else {e}
  }

  ghost function LeavesOfAll(es: seq<Elem>): set<Elem> {
    if es == [] then {} else Leaves(es[0]) + LeavesOfAll(es[1..])
  }

  ghost function PosBits(policy: Policy, ls: set<Elem>): Bits {
    set l, b | l in ls && l.Pos? && b in Named(policy, l.name) :: b
  }

  ghost function NegBits(policy: Policy, ls: set<Elem>): Bits {
    set l, b | l in ls && l.Neg? && b in Named(policy, l.name) :: b
  }

  /** The types an expression stands for, from its leaves alone. */
  ghost function Denotes(policy: Policy, comp: bool, ls: set<Elem>): Bits {
    var base := if All in ls then PosBits(policy, ls) + AllTypes(policy) else PosBits(policy, ls);
    var minus := base - NegBits(policy, ls);
    if comp && All !in ls then (AllTypes(policy) - minus) + (minus - AllTypes(policy)) else minus
  }

  /** The tokens of the leaves so far, between elements: nothing is pending, and the two sets and
      the flag are those of the leaves. */
  ghost predicate Means(policy: Policy, ts: seq<Token>, ls: set<Elem>, flag: Flag) {
    && !Pending(ts, |ts|) && Positive(policy, ts) == PosBits(policy, ls) && Negative(policy, ts) == NegBits(policy, ls)
    && LastFlag(ts) == (if All in ls then StarFlag else flag) && (Self in ts <==> Oneself in ls)
  }

  lemma NextToken(policy: Policy, ts: seq<Token>, t: Token)
    ensures Pending(ts + [t], |ts + [t]|) <==> t == Minus || (!t.Name? && Pending(ts, |ts|))
    ensures Positive(policy, ts + [t]) == Positive(policy, ts) + if t.Name? && !Pending(ts, |ts|) then Named(policy, t.id) else {}
    ensures Negative(policy, ts + [t]) == Negative(policy, ts) + if t.Name? && Pending(ts, |ts|) then Named(policy, t.id) else {}
    ensures LastFlag(ts + [t]) == if t == Star then StarFlag else if t == Comp then CompFlag else LastFlag(ts)
    ensures Self in ts + [t] <==> t == Self || Self in ts
  {
    PendingNext(ts, t);
    NamedNext(policy, ts, t);
    hide Pending, Positive, Negative;
    assert (ts + [t])[..|ts|] == ts;
  }

  lemma LeafBits(policy: Policy, ls: set<Elem>, e: Elem)
    ensures PosBits(policy, ls + {e}) == PosBits(policy, ls) + if e.Pos? then Named(policy, e.name) else {}
    ensures NegBits(policy, ls + {e}) == NegBits(policy, ls) + if e.Neg? then Named(policy, e.name) else {}
  {
    hide Named;
  }

  lemma NegMeans(policy: Policy, ts: seq<Token>, ls: set<Elem>, flag: Flag, n: string)
    requires Means(policy, ts, ls, flag)
    ensures Means(policy, ts + [Minus] + [Name(n)], ls + {Neg(n)}, flag)
  {
    hide Pending, Positive, Negative, LastFlag, PosBits, NegBits, Named;
    LeafBits(policy, ls, Neg(n));
    NextToken(policy, ts, Minus);
    NextToken(policy, ts + [Minus], Name(n));
  }

  lemma LeafMeans(policy: Policy, ts: seq<Token>, ls: set<Elem>, flag: Flag, e: Elem, t: Token)
    requires Means(policy, ts, ls, flag)
    requires (e.Pos? && t == Name(e.name)) || (e == All && t == Star) || (e == Oneself && t == Self)
    ensures Means(policy, ts + [t], ls + {e}, flag)
  {
    hide Pending, Positive, Negative, LastFlag, PosBits, NegBits, Named;
    LeafBits(policy, ls, e);
    NextToken(policy, ts, t);
  }

  lemma BraceMeans(policy: Policy, ts: seq<Token>, ls: set<Elem>, flag: Flag, t: Token)
    requires Means(policy, ts, ls, flag) && (t == Open || t == Close)
    ensures Means(policy, ts + [t], ls, flag)
  {
    hide Pending, Positive, Negative, LastFlag, PosBits, NegBits, Named;
    NextToken(policy, ts, t);
  }

  lemma {:induction false} ElemMeans(policy: Policy, ts: seq<Token>, ls: set<Elem>, flag: Flag, e: Elem)
    requires Means(policy, ts, ls, flag)
    ensures Means(policy, ts + TokensOf(e), ls + Leaves(e), flag)
    decreases e, 1
  {
    hide Means;
    match e
    case Group(es, gaps) =>
      BraceMeans(policy, ts, ls, flag, Open);
      ElemsMean(policy, ts + [Open], ls, flag, es);
      var us := ts + [Open] + TokensOfAll(es);
      BraceMeans(policy, us, ls + LeavesOfAll(es), flag, Close);
      GroupParts(es, gaps);
      assert ts + TokensOf(e) == us + [Close];
    case Neg(n) =>
      NegMeans(policy, ts, ls, flag, n);
      assert ts + TokensOf(e) == ts + [Minus] + [Name(n)];
    case _ =>
      LeafMeans(policy, ts, ls, flag, e, TokensOf(e)[0]);
      assert TokensOf(e) == [TokensOf(e)[0]];
  }

  lemma GroupParts(es: seq<Elem>, gaps: seq<string>)
    ensures TokensOf(Group(es, gaps)) == [Open] + (TokensOfAll(es) + [Close]) && Leaves(Group(es, gaps)) == LeavesOfAll(es)
  {
  }

  lemma {:induction false} ElemsMean(policy: Policy, ts: seq<Token>, ls: set<Elem>, flag: Flag, es: seq<Elem>)
    requires Means(policy, ts, ls, flag)
    ensures Means(policy, ts + TokensOfAll(es), ls + LeavesOfAll(es), flag)
    decreases es, 0
  {
    hide Means, TokensOf, Leaves;
    if es == [] {
      assert ts + TokensOfAll(es) == ts && ls + LeavesOfAll(es) == ls;
    } else {
      ElemMeans(policy, ts, ls, flag, es[0]);
      ElemsMean(policy, ts + TokensOf(es[0]), ls + Leaves(es[0]), flag, es[1..]);
      assert ts + TokensOfAll(es) == ts + TokensOf(es[0]) + TokensOfAll(es[1..]);
      assert ls + LeavesOfAll(es) == ls + Leaves(es[0]) + LeavesOfAll(es[1..]);
    }
  }

  /** The tokens of an expression denote its leaves. */
  lemma ExprMeans(policy: Policy, x: Expr)
    ensures TypesOf(policy, ExprTokens(x)) == Denotes(policy, x.comp, Leaves(x.elem))
    ensures Self in ExprTokens(x) <==> Oneself in Leaves(x.elem)
  {
    var start := if x.comp then [Comp] else [];
    StartMeans(policy, x.comp);
    ElemMeans(policy, start, {}, if x.comp then CompFlag else NoFlag, x.elem);
    hide Positive, Negative, PosBits, NegBits, Leaves, TokensOf, Pending, LastFlag;
    assert {} + Leaves(x.elem) == Leaves(x.elem);
  }

  lemma StartMeans(policy: Policy, comp: bool)
    ensures Means(policy, if comp then [Comp] else [], {}, if comp then CompFlag else NoFlag)
  {
    assert [Comp][..0] == [];
  }

  /** What `read_typeset` makes of a text: the set and the text it leaves. */
  ghost function SetRead(policy: Policy, s: string): Option<(Bits, string)> {
    var r := Scan(Types, s, 0);
    if r.None? then None else Some((TypesOf(policy, r.value.0), r.value.1))
  }

  /** A written type set is read as what it denotes, up to its end. */
  lemma WrittenSetIsRead(policy: Policy, x: Expr, rest: string)
    requires ExprOk(x) && MayFollow(x.elem, rest)
    ensures SetRead(policy, RenderExpr(x) + rest) == Some((Denotes(policy, x.comp, Leaves(x.elem)), rest))
  {
    ExprReads(x, rest);
    ExprMeans(policy, x);
  }

  /** The order and the nesting of the elements do not matter: the same leaves are read as the
      same set. */
  lemma OrderAndNestingAreIrrelevant(policy: Policy, x: Expr, y: Expr, rest: string)
    requires ExprOk(x) && ExprOk(y) && MayFollow(x.elem, rest) && MayFollow(y.elem, rest)
    requires x.comp == y.comp && Leaves(x.elem) == Leaves(y.elem)
    ensures SetRead(policy, RenderExpr(x) + rest) == SetRead(policy, RenderExpr(y) + rest)
  {
    WrittenSetIsRead(policy, x, rest);
    WrittenSetIsRead(policy, y, rest);
  }

  ghost function Names(names: seq<string>): seq<Elem> {
    if names == [] then [] else [Pos(names[0])] + Names(names[1..])
  }

  ghost function Negated(names: seq<string>): seq<Elem> {
    if names == [] then [] else [Neg(names[0])] + Negated(names[1..])
  }

  lemma {:induction false} LeavesOfNames(names: seq<string>)
    ensures LeavesOfAll(Names(names)) == set n | n in names :: Pos(n)
    ensures LeavesOfAll(Negated(names)) == set n | n in names :: Neg(n)
  {
    if names != [] {
      assert names == [names[0]] + names[1..];
      LeavesOfNames(names[1..]);
      assert Names(names)[1..] == Names(names[1..]) && Negated(names)[1..] == Negated(names[1..]);
    }
  }

  lemma LeavesOfSubtraction(names: seq<string>, gaps: seq<string>, gaps': seq<string>)
    ensures Leaves(Group(Names(names), gaps)) == set n | n in names :: Pos(n)
    ensures Leaves(Group([All] + Negated(names), gaps')) == {All} + set n | n in names :: Neg(n)
  {
    LeavesOfNames(names);
    var es := [All] + Negated(names);
    assert es[0] == All && es[1..] == Negated(names) && Leaves(All) == {All};
    assert LeavesOfAll(es) == Leaves(es[0]) + LeavesOfAll(es[1..]);
  }

  ghost function BitsOf(policy: Policy, names: seq<string>): Bits {
    set n, b | n in names && b in Named(policy, n) :: b
  }

  lemma BitsOfLeaves(policy: Policy, names: seq<string>)
    ensures var ps, ns := set n | n in names :: Pos(n), set n | n in names :: Neg(n);
      && PosBits(policy, ps) == BitsOf(policy, names) && NegBits(policy, ps) == {}
      && PosBits(policy, {All} + ns) == {} && NegBits(policy, {All} + ns) == BitsOf(policy, names)
  {
    hide Named;
    var ps, ns := set n | n in names :: Pos(n), set n | n in names :: Neg(n);
    forall b | b in BitsOf(policy, names) ensures b in PosBits(policy, ps) && b in NegBits(policy, {All} + ns) {
      var n :| n in names && b in Named(policy, n);
      assert Pos(n) in ps && Neg(n) in {All} + ns;
    }
  }

  /** `~{X Y}` and `{* -X -Y}`, with any white space, are read as the same set exactly when X and Y hold
      types only. */
  lemma ComplementIsSubtraction(policy: Policy, names: seq<string>, gap: string, gaps: seq<string>, gaps': seq<string>, rest: string)
    requires (forall n | n in names :: NameOk(n)) && AllSpace(gap) && rest != ""
    requires ElemGapsOk(gaps, Names(names)) && ElemGapsOk(gaps', [All] + Negated(names))
    ensures SetRead(policy, RenderExpr(Expr(true, gap, Group(Names(names), gaps))) + rest)
        == SetRead(policy, RenderExpr(Expr(false, "", Group([All] + Negated(names), gaps'))) + rest)
      <==> BitsOf(policy, names) <= AllTypes(policy)
  {
    hide ElemGapsOk, SetRead, RenderExpr, Leaves, AllTypes, BitsOf, Denotes, Stops;
    var x, y := Expr(true, gap, Group(Names(names), gaps)), Expr(false, "", Group([All] + Negated(names), gaps'));
    NamesAreOk(names);
    WrittenSetIsRead(policy, x, rest);
    WrittenSetIsRead(policy, y, rest);
    ComplementDenotesSubtraction(policy, names, gaps, gaps');
  }

  lemma {:induction false} NamesAreOk(names: seq<string>)
    requires forall n | n in names :: NameOk(n)
    ensures |Names(names)| == |names| && |Negated(names)| == |names|
    ensures (forall e | e in Names(names) :: ElemOk(e)) && forall e | e in Negated(names) :: ElemOk(e)
  {
    hide NameOk;
    if names != [] {
      assert names[0] in names && forall n | n in names[1..] :: n in names;
      NamesAreOk(names[1..]);
    }
  }

  /** Every name stands for types: its own bit is no attribute's, and the entry of an attribute holds the
      types that have it. */
  ghost predicate PolicyOk(policy: Policy) {
    forall id :: Named(policy, id) <= AllTypes(policy)
  }

  /** There the two are always read as the same set. */
  lemma ComplementReadsAsSubtraction(policy: Policy, names: seq<string>, gap: string, gaps: seq<string>, gaps': seq<string>, rest: string)
    requires PolicyOk(policy)
    requires (forall n | n in names :: NameOk(n)) && AllSpace(gap) && rest != ""
    requires ElemGapsOk(gaps, Names(names)) && ElemGapsOk(gaps', [All] + Negated(names))
    ensures SetRead(policy, RenderExpr(Expr(true, gap, Group(Names(names), gaps))) + rest)
        == SetRead(policy, RenderExpr(Expr(false, "", Group([All] + Negated(names), gaps'))) + rest)
  {
    hide ElemGapsOk, SetRead, RenderExpr, NameOk, Stops, Named;
    ComplementIsSubtraction(policy, names, gap, gaps, gaps', rest);
    assert BitsOf(policy, names) <= AllTypes(policy);
  }

  lemma ComplementDenotesSubtraction(policy: Policy, names: seq<string>, gaps: seq<string>, gaps': seq<string>)
    ensures Denotes(policy, true, Leaves(Group(Names(names), gaps))) == Denotes(policy, false, Leaves(Group([All] + Negated(names), gaps')))
      <==> BitsOf(policy, names) <= AllTypes(policy)
  {
    hide PosBits, NegBits, Leaves, AllTypes, BitsOf;
    LeavesOfSubtraction(names, gaps, gaps');
    BitsOfLeaves(policy, names);
    var ps, ns, bits := set n | n in names :: Pos(n), set n | n in names :: Neg(n), BitsOf(policy, names);
    assert All !in ps;
    assert Denotes(policy, true, ps) == (AllTypes(policy) - bits) + (bits - AllTypes(policy));
    assert Denotes(policy, false, {All} + ns) == AllTypes(policy) - bits;
  }

  ghost function CollectAll(policy: Policy, c: Collected, ts: seq<Token>): Collected
    decreases |ts|
  {
    if ts == [] then c else CollectAll(policy, Collect(policy, c, ts[0]), ts[1..])
  }

  lemma {:induction false} CollectAppend(policy: Policy, c: Collected, ts: seq<Token>, us: seq<Token>)
    ensures CollectAll(policy, c, ts + us) == CollectAll(policy, CollectAll(policy, c, ts), us)
    decreases |ts|
  {
    hide Collect;
    if ts == [] {
      assert ts + us == us;
    } else {
      assert (ts + us)[1..] == ts[1..] + us;
      CollectAppend(policy, Collect(policy, c, ts[0]), ts[1..], us);
    }
  }

  lemma CollectTwo(policy: Policy, c: Collected, t: Token, u: Token)
    ensures CollectAll(policy, c, [t, u]) == Collect(policy, Collect(policy, c, t), u)
  {
    hide Collect;
    assert [t, u][1..] == [u] && [u][1..] == [];
    assert CollectAll(policy, Collect(policy, c, t), [u]) == Collect(policy, Collect(policy, c, t), u);
  }

  lemma {:induction false} CollectAllHolds(policy: Policy, ts: seq<Token>, c: Collected, us: seq<Token>)
    requires Holds(policy, ts, c)
    ensures Holds(policy, ts + us, CollectAll(policy, c, us))
    decreases |us|
  {
    hide Holds, Collect;
    if us == [] {
      assert ts + us == ts;
    } else {
      CollectHolds(policy, ts, c, us[0]);
      assert ts + us == ts + [us[0]] + us[1..];
      CollectAllHolds(policy, ts + [us[0]], Collect(policy, c, us[0]), us[1..]);
    }
  }

  /** The set that the tokens denote, by way of the loop's variables. */
  lemma TokenByToken(policy: Policy, ts: seq<Token>)
    ensures TypesOf(policy, ts) == Finished(policy, CollectAll(policy, Collected({}, {}, NoFlag, false, false), ts))
  {
    hide Holds, Finished, TypesOf;
    var c0 := Collected({}, {}, NoFlag, false, false);
    NothingHolds(policy);
    CollectAllHolds(policy, [], c0, ts);
    assert [] + ts == ts;
    FinishedIsDenoted(policy, ts, CollectAll(policy, c0, ts));
  }

  /** A `-` moves past every token that is not a name: it waits for the next name. */
  lemma MinusMoves(policy: Policy, us: seq<Token>, t: Token, vs: seq<Token>)
    requires !t.Name?
    ensures TypesOf(policy, us + [Minus, t] + vs) == TypesOf(policy, us + [t, Minus] + vs)
  {
    hide Finished, TypesOf, Holds;
    var c0 := Collected({}, {}, NoFlag, false, false);
    TokenByToken(policy, us + [Minus, t] + vs);
    TokenByToken(policy, us + [t, Minus] + vs);
    CollectMoves(policy, c0, us, t, vs);
  }

  lemma CollectMoves(policy: Policy, c: Collected, us: seq<Token>, t: Token, vs: seq<Token>)
    requires !t.Name?
    ensures CollectAll(policy, c, us + [Minus, t] + vs) == CollectAll(policy, c, us + [t, Minus] + vs)
  {
    CollectAppend(policy, c, us + [Minus, t], vs);
    CollectAppend(policy, c, us + [t, Minus], vs);
    CollectAppend(policy, c, us, [Minus, t]);
    CollectAppend(policy, c, us, [t, Minus]);
    var c' := CollectAll(policy, c, us);
    CollectTwo(policy, c', Minus, t);
    CollectTwo(policy, c', t, Minus);
    assert Collect(policy, Collect(policy, c', Minus), t) == Collect(policy, Collect(policy, c', t), Minus);
    hide CollectAll, Collect;
  }

  /** A `-` with no name after it does nothing. */
  lemma LastMinusIsIdle(policy: Policy, us: seq<Token>)
    ensures TypesOf(policy, us + [Minus]) == TypesOf(policy, us)
  {
    hide TypesOf, Holds;
    var c0 := Collected({}, {}, NoFlag, false, false);
    TokenByToken(policy, us);
    TokenByToken(policy, us + [Minus]);
    CollectAppend(policy, c0, us, [Minus]);
    var c := CollectAll(policy, c0, us);
    assert [Minus][1..] == [];
    assert CollectAll(policy, c, [Minus]) == Collect(policy, c, Minus);
  }

  lemma NoTypes(policy: Policy)
    ensures TypesOf(policy, []) == {}
  {
  }

  lemma LoneMinus(policy: Policy, rest: string)
    requires rest != ""
    ensures SetRead(policy, "-" + rest) == Some(({}, rest))
  {
    assert "-" + rest == ['-'] + rest;
    StepChar('-', rest);
    ScanOnce(Types, "-" + rest, false, Minus, rest);
    hide Scan, Step, TypesOf;
    LastMinusIsIdle(policy, []);
    NoTypes(policy);
    assert [] + [Minus] == [Minus] && Marked(false, Minus) == [Minus];
  }

  /** What two leaves denote, one of them negated. */
  lemma OneNegated(policy: Policy, a: string, e: Elem)
    requires e.Pos? || e.Oneself?
    ensures Denotes(policy, false, {Neg(a), e}) == (if e.Pos? then Named(policy, e.name) else {}) - Named(policy, a)
  {
    hide Named, AllTypes;
    LeafBits(policy, {}, Neg(a));
    LeafBits(policy, {Neg(a)}, e);
    assert {} + {Neg(a)} == {Neg(a)} && {Neg(a)} + {e} == {Neg(a), e};
    assert PosBits(policy, {}) == {} && NegBits(policy, {}) == {};
  }

  /** Where a `-` is not directly before a name: before `self` and before a brace it waits for the next
      name, and outside of braces it ends the set. */
  lemma StrayNegations(policy: Policy, a: string, b: string, rest: string)
    ensures TypesOf(policy, [Open, Minus, Self, Name(a), Close]) == {}
    ensures TypesOf(policy, [Open, Minus, Open, Name(a), Name(b), Close, Close]) == Named(policy, b) - Named(policy, a)
    ensures rest != "" ==> SetRead(policy, "-" + rest) == Some(({}, rest))
  {
    if rest != "" {
      LoneMinus(policy, rest);
    }
    hide TypesOf, Named, Denotes, SetRead;
    MinusMoves(policy, [Open], Self, [Name(a), Close]);
    assert [Open] + [Minus, Self] + [Name(a), Close] == [Open, Minus, Self, Name(a), Close];
    SelfThenNegated(policy, a);
    MinusMoves(policy, [Open], Open, [Name(a), Name(b), Close, Close]);
    assert [Open] + [Minus, Open] + [Name(a), Name(b), Close, Close] == [Open, Minus, Open, Name(a), Name(b), Close, Close];
    NegatedInside(policy, a, b);
  }

  lemma OneElem(x: Elem)
    ensures TokensOfAll([x]) == TokensOf(x) && LeavesOfAll([x]) == Leaves(x)
  {
    hide TokensOf, Leaves;
    assert [x][1..] == [] && TokensOfAll([]) == [] && LeavesOfAll([]) == {};
    assert TokensOf(x) + [] == TokensOf(x) && Leaves(x) + {} == Leaves(x);
  }

  lemma TwoElems(x: Elem, y: Elem)
    ensures TokensOfAll([x, y]) == TokensOf(x) + TokensOf(y) && LeavesOfAll([x, y]) == Leaves(x) + Leaves(y)
  {
    hide TokensOf, Leaves;
    assert [x, y][1..] == [y];
    OneElem(y);
  }

  lemma SelfThenNegated(policy: Policy, a: string)
    ensures TypesOf(policy, [Open] + [Self, Minus] + [Name(a), Close]) == {}
  {
    var es := [Oneself, Neg(a)];
    var x := Expr(false, "", Group(es, []));
    TwoElems(Oneself, Neg(a));
    GroupParts(es, []);
    assert ExprTokens(x) == [Open] + [Self, Minus] + [Name(a), Close];
    assert Leaves(x.elem) == {Neg(a), Oneself};
    ExprMeans(policy, x);
    OneNegated(policy, a, Oneself);
    hide TypesOf, Denotes, ExprTokens, Leaves;
  }

  lemma NegatedInside(policy: Policy, a: string, b: string)
    ensures TypesOf(policy, [Open] + [Open, Minus] + [Name(a), Name(b), Close, Close]) == Named(policy, b) - Named(policy, a)
  {
    var es := [Neg(a), Pos(b)];
    var inner := Group(es, []);
    var x := Expr(false, "", Group([inner], []));
    TwoElems(Neg(a), Pos(b));
    GroupParts(es, []);
    OneElem(inner);
    GroupParts([inner], []);
    assert TokensOf(inner) == [Open, Minus, Name(a), Name(b), Close];
    assert ExprTokens(x) == [Open] + [Open, Minus] + [Name(a), Name(b), Close, Close];
    assert Leaves(x.elem) == {Neg(a), Pos(b)};
    ExprMeans(policy, x);
    OneNegated(policy, a, Pos(b));
    hide TypesOf, Denotes, ExprTokens, Leaves;
  }
}
