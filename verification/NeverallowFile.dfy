/** A whole text of neverallow rules, as it is written and as `check_neverallows` of
    tools/sepolicy-analyze/neverallow.c reads it: rules, other words and comments, line by line. */
module NeverallowFile {
  import opened Options
  import opened NeverallowScan
  import opened NeverallowTypes
  import opened NeverallowSyntax
  import opened NeverallowRules

  /** Classes or permissions: one name, or names in braces with their gaps. */
  datatype List = One(name: string) | Braced(names: seq<string>, gaps: seq<string>)

  /** The white space between the parts of a rule. */
  datatype Gaps = Gaps(keyword: string, source: string, target: string, colon: string, classes: string, tilde: string, perms: string)

  /** A rule as it is written; `comp` stands before the permissions. */
  datatype Rule = Rule(source: Expr, target: Expr, classes: List, comp: bool, perms: List, gaps: Gaps)

  /** A line of a text: a rule, or words that are not the keyword; and perhaps a comment. */
  datatype Stmt = Statement(rule: Rule) | Words(words: seq<string>, gaps: seq<string>)
  datatype Line = Line(stmt: Stmt, remark: Option<string>)

  predicate ListNameOk(n: string) {
    n != "" && n[0] != '~' && forall c | c in n :: !Stops(Perms, c)
  }

  predicate ListOk(l: List) {
    match l
    case One(n) => ListNameOk(n)
    case Braced(ns, gaps) => GapsOk(gaps, |ns|) && forall n | n in ns :: ListNameOk(n)
  }

  predicate AllGapsSpace(g: Gaps) {
    && AllSpace(g.keyword) && AllSpace(g.source) && AllSpace(g.target) && AllSpace(g.colon) && AllSpace(g.classes)
    && AllSpace(g.tilde) && AllSpace(g.perms)
  }

  /** White space is needed after the keyword, and between an identifier and what is not a brace. */
  predicate RuleGapsOk(r: Rule) {
    && AllGapsSpace(r.gaps) && r.gaps.keyword != ""
    && (r.gaps.source == "" && NameLast(r.source.elem) ==> !r.target.comp && r.target.elem.Group?)
    && (r.gaps.classes == "" && r.classes.One? ==> !r.comp && r.perms.Braced?)
  }

  ghost predicate RuleOk(r: Rule) {
    ExprOk(r.source) && ExprOk(r.target) && ListOk(r.classes) && ListOk(r.perms) && RuleGapsOk(r)
  }

  predicate WordOk(w: string) {
    w != "" && w != NEVERALLOW && forall c | c in w :: !IsSpace(c) && c != '#'
  }

  ghost predicate LineOk(l: Line) {
    && (match l.stmt
        case Statement(r) => RuleOk(r)
        case Words(ws, gaps) => GapsOk(gaps, |ws|) && forall w | w in ws :: WordOk(w))
    && (l.remark.Some? ==> '\n' !in l.remark.value)
  }

  function RenderNames(ns: seq<string>, gaps: seq<string>): string
    decreases ns
  {
    First(gaps) + if ns == [] then "" else ns[0] + RenderNames(ns[1..], Others(gaps))
  }

  function RenderList(l: List): string {
    match l
    case One(n) => n
    case Braced(ns, gaps) => "{" + (RenderNames(ns, gaps) + "}")
  }

  function RenderPerms(r: Rule): string {
    ":" + (r.gaps.colon + (RenderList(r.classes) + (r.gaps.classes +
      ((if r.comp then "~" + (r.gaps.tilde + RenderList(r.perms)) else RenderList(r.perms)) + r.gaps.perms))))
  }

  function RenderSets(r: Rule): string {
    r.gaps.keyword + (RenderExpr(r.source) + (r.gaps.source + (RenderExpr(r.target) + r.gaps.target)))
  }

  function RenderRule(r: Rule): string {
    NEVERALLOW + (RenderSets(r) + (RenderPerms(r) + ";"))
  }

  function RenderStmt(x: Stmt): string {
    if x.Statement? then RenderRule(x.rule) else RenderNames(x.words, x.gaps)
  }

  function RenderLine(l: Line): string {
    RenderStmt(l.stmt) + (if l.remark.Some? then "#" + l.remark.value else "") + "\n"
  }

  function RenderFile(ls: seq<Line>): string {
    if ls == [] then "" else RenderLine(ls[0]) + RenderFile(ls[1..])
  }

  // ---------------------------------------------------------------------------------------
  // What it means

  /** The known classes, the last one first. */
  function KnownClasses(classes: Classes, ns: seq<string>): seq<Class> {
    if ns == [] then []
    else KnownClasses(classes, ns[1..]) + if ns[0] in classes then [classes[ns[0]]] else []
  }

  ghost function PermsNamed(c: Class, ns: seq<string>): Bits {
    (set n, b | n in ns && n != STAR_ID && b in PermBits(c, n) :: b) + if STAR_ID in ns then AllPerms() else {}
  }

  ghost function MaskNamed(c: Class, comp: bool, ns: seq<string>): Bits {
    if comp then AllPerms() - PermsNamed(c, ns) else PermsNamed(c, ns)
  }

  ghost function PermsMeant(cs: seq<Class>, comp: bool, ns: seq<string>): seq<ClassPerm> {
    seq(|cs|, i requires 0 <= i < |cs| => ClassPerm(cs[i], MaskNamed(cs[i], comp, ns)))
  }

  function NamesIn(l: List): seq<string> {
    match l
    case One(n) => [n]
    case Braced(ns, _) => ns
  }

  ghost function Meaning(policy: Policy, classes: Classes, r: Rule): AvRule {
    AvRule(Denotes(policy, r.source.comp, Leaves(r.source.elem)), Denotes(policy, r.target.comp, Leaves(r.target.elem)),
           Oneself in Leaves(r.source.elem) || Oneself in Leaves(r.target.elem),
           PermsMeant(KnownClasses(classes, NamesIn(r.classes)), r.comp, NamesIn(r.perms)))
  }

  ghost function Meanings(policy: Policy, classes: Classes, ls: seq<Line>): seq<AvRule> {
    if ls == [] then []
    else (if ls[0].stmt.Statement? then [Meaning(policy, classes, ls[0].stmt.rule)] else []) + Meanings(policy, classes, ls[1..])
  }

  // ---------------------------------------------------------------------------------------
  // Lists

  function NameTokens(ns: seq<string>): seq<Token> {
    if ns == [] then [] else [Name(ns[0])] + NameTokens(ns[1..])
  }

  function ListTokens(l: List): seq<Token> {
    match l
    case One(n) => [Name(n)]
    case Braced(ns, _) => [Open] + NameTokens(ns) + [Close]
  }

  lemma StepListName(mode: Mode, n: string, rest: string)
    requires mode != Types && ListNameOk(n) && rest != "" && Stops(mode, rest[0])
    ensures Step(mode, n + rest) == Some((false, Name(n), rest))
  {
    var s := n + rest;
    assert s[0] == n[0] && n[0] in n;
    IdLenIs(mode, n, rest);
    assert s[..|n|] == n && s[|n|..] == rest;
  }

  lemma StepBrace(mode: Mode, c: char, rest: string)
    requires c == '{' || c == '}'
    ensures Step(mode, [c] + rest) == Some((false, if c == '{' then Open else Close, rest))
  {
    assert ([c] + rest)[0] == c && ([c] + rest)[1..] == rest;
  }

  /** Names with their gaps, as for the elements of a type set. */
  lemma NamesParts(ns: seq<string>, gaps: seq<string>, rest: string)
    requires ns != [] && GapsOk(gaps, |ns|)
    ensures gaps != [] && AllSpace(gaps[0]) && GapsOk(gaps[1..], |ns| - 1)
    ensures var more := RenderNames(ns[1..], gaps[1..]) + rest;
      RenderNames(ns, gaps) + rest == gaps[0] + (ns[0] + more) && ((more != "" && IsSpace(more[0])) || (ns[1..] == [] && more == rest))
  {
    hide RenderNames, GapsOk, AllSpace;
    GapsParts(gaps, |ns|);
    NamesStep(ns, gaps);
    Regroup(gaps[0], ns[0], RenderNames(ns[1..], gaps[1..]), rest);
    if gaps[1] == "" {
      assert RenderNames(ns[1..], gaps[1..]) + rest == rest;
    }
  }

  lemma NamesStep(ns: seq<string>, gaps: seq<string>)
    requires ns != [] && |gaps| > 1
    ensures var tail := RenderNames(ns[1..], gaps[1..]);
      && RenderNames(ns, gaps) == gaps[0] + (ns[0] + tail)
      && (if gaps[1] != "" then tail != "" && tail[0] == gaps[1][0] else ns[1..] == [] ==> tail == "")
  {
  }

  lemma NoNames(gaps: seq<string>)
    requires GapsOk(gaps, 0)
    ensures |gaps| == 1 && AllSpace(gaps[0]) && RenderNames([], gaps) == gaps[0]
  {
    assert gaps[0] in gaps;
  }

  lemma {:induction false} ScanNames(mode: Mode, ns: seq<string>, gaps: seq<string>, rest: string)
    requires mode != Types && GapsOk(gaps, |ns|) && (forall n | n in ns :: ListNameOk(n)) && rest != "" && Stops(mode, rest[0])
    ensures Scan(mode, RenderNames(ns, gaps) + rest, 1) == Prepend(NameTokens(ns), Scan(mode, rest, 1))
    decreases ns
  {
    hide Step, Scan, Prepend, ListNameOk, RenderNames, GapsOk, AllSpace;
    if ns == [] {
      NoNames(gaps);
      ScanSpace(mode, gaps[0], rest, 1);
      PrependNothing(Scan(mode, rest, 1));
    } else {
      NamesParts(ns, gaps, rest);
      var more := RenderNames(ns[1..], gaps[1..]) + rest;
      assert ns[0] in ns && forall n | n in ns[1..] :: n in ns;
      ScanSpace(mode, gaps[0], ns[0] + more, 1);
      StepListName(mode, ns[0], more);
      ScanOn(mode, ns[0] + more, Name(ns[0]), more, 1);
      ScanNames(mode, ns[1..], gaps[1..], rest);
      PrependTwice([Name(ns[0])], NameTokens(ns[1..]), Scan(mode, rest, 1));
    }
  }

  lemma ScanListClose(mode: Mode, rest: string)
    requires rest != ""
    ensures Scan(mode, "}" + rest, 1) == Some(([Close], rest))
  {
    StepBrace(mode, '}', rest);
    hide Step;
  }

  lemma BracedReads(mode: Mode, ns: seq<string>, gaps: seq<string>, rest: string)
    requires mode != Types && GapsOk(gaps, |ns|) && (forall n | n in ns :: ListNameOk(n)) && rest != ""
    ensures Scan(mode, RenderList(Braced(ns, gaps)) + rest, 0) == Some((ListTokens(Braced(ns, gaps)), rest))
  {
    hide Step, Scan, Prepend, ListNameOk, RenderNames, NameTokens, GapsOk;
    var inner := RenderNames(ns, gaps) + ("}" + rest);
    assert RenderList(Braced(ns, gaps)) + rest == ['{'] + inner;
    StepBrace(mode, '{', inner);
    ScanOn(mode, ['{'] + inner, Open, inner, 0);
    ScanNames(mode, ns, gaps, "}" + rest);
    ScanListClose(mode, rest);
    PrependTwice([Open], NameTokens(ns), Scan(mode, "}" + rest, 1));
    PrependIs([Open] + NameTokens(ns), [Close], rest);
  }

  lemma ListReads(mode: Mode, l: List, rest: string)
    requires mode != Types && ListOk(l) && rest != "" && (l.One? ==> Stops(mode, rest[0]))
    ensures Scan(mode, RenderList(l) + rest, 0) == Some((ListTokens(l), rest))
    ensures RenderList(l) != "" && RenderList(l)[0] != '~' && !IsSpace(RenderList(l)[0])
  {
    hide Scan, GapsOk;
    match l
    case One(n) =>
      assert n[0] in n;
      StepListName(mode, n, rest);
      ScanOnce(mode, n + rest, false, Name(n), rest);
    case Braced(ns, gaps) =>
      BracedReads(mode, ns, gaps, rest);
  }

  function PermTokens(comp: bool, l: List): seq<Token> {
    (if comp then [Comp] else []) + ListTokens(l)
  }

  lemma PermListReads(comp: bool, gap: string, l: List, rest: string)
    requires ListOk(l) && AllSpace(gap) && rest != "" && (l.One? ==> Stops(Perms, rest[0]))
    ensures Scan(Perms, (if comp then "~" + (gap + RenderList(l)) else RenderList(l)) + rest, 0) == Some((PermTokens(comp, l), rest))
  {
    hide Scan, ListOk, RenderList, ListTokens, AllSpace, Stops;
    ListReads(Perms, l, rest);
    var s := RenderList(l) + rest;
    if comp {
      assert s[0] == RenderList(l)[0];
      ScanComplemented(Perms, gap, s);
      assert "~" + (gap + RenderList(l)) + rest == "~" + (gap + s);
    } else {
      assert [] + ListTokens(l) == ListTokens(l);
    }
  }

  // What the tokens of the lists stand for

  lemma {:induction false} NameTokensHold(ns: seq<string>, t: Token)
    ensures t in NameTokens(ns) <==> t.Name? && t.id in ns
  {
    if ns != [] {
      NameTokensHold(ns[1..], t);
      assert ns == [ns[0]] + ns[1..];
    }
  }

  lemma PermTokensHold(comp: bool, l: List, t: Token)
    ensures t == Comp || t.Name? ==> (t in PermTokens(comp, l) <==> (comp && t == Comp) || (t.Name? && t.id in NamesIn(l)))
  {
    NameTokensHold(NamesIn(l), t);
  }

  lemma GrantedMeans(c: Class, comp: bool, l: List)
    ensures Mask(c, PermTokens(comp, l)) == MaskNamed(c, comp, NamesIn(l))
  {
    hide PermTokens, PermBits, AllPerms;
    var ts, ns := PermTokens(comp, l), NamesIn(l);
    PermTokensHold(comp, l, Comp);
    PermTokensHold(comp, l, Name(STAR_ID));
    forall b ensures b in Granted(c, ts) <==> b in PermsNamed(c, ns) {
      if n :| n in ns && n != STAR_ID && b in PermBits(c, n) {
        PermTokensHold(comp, l, Name(n));
        assert Name(n) in ts;
      }
      if t :| t in ts && t.Name? && b in PermBits(c, t.id) && t.id != STAR_ID {
        PermTokensHold(comp, l, t);
      }
    }
    assert Granted(c, ts) == PermsNamed(c, ns);
  }

  lemma MaskedMeans(cs: seq<Class>, comp: bool, l: List)
    ensures Masked(cs, PermTokens(comp, l)) == PermsMeant(cs, comp, NamesIn(l))
  {
    hide Mask, MaskNamed, PermTokens;
    forall i | 0 <= i < |cs| ensures Masked(cs, PermTokens(comp, l))[i] == PermsMeant(cs, comp, NamesIn(l))[i] {
      GrantedMeans(cs[i], comp, l);
    }
  }

  lemma {:induction false} ClassListOfNames(classes: Classes, ts: seq<Token>, ns: seq<string>)
    ensures ClassList(classes, ts + NameTokens(ns)) == KnownClasses(classes, ns) + ClassList(classes, ts)
    decreases |ns|
  {
    hide ClassList;
    if ns == [] {
      assert ts + NameTokens(ns) == ts;
    } else {
      ClassListNext(classes, ts, Name(ns[0]));
      assert ts + NameTokens(ns) == (ts + [Name(ns[0])]) + NameTokens(ns[1..]);
      ClassListOfNames(classes, ts + [Name(ns[0])], ns[1..]);
    }
  }

  lemma ClassListMeans(classes: Classes, l: List)
    ensures ClassList(classes, ListTokens(l)) == KnownClasses(classes, NamesIn(l))
  {
    hide KnownClasses, ClassList;
    NoClasses(classes);
    match l
    case One(n) =>
      ClassListOfNames(classes, [], [n]);
      assert [] + NameTokens([n]) == [Name(n)] && KnownClasses(classes, [n]) + [] == KnownClasses(classes, [n]);
    case Braced(ns, _) =>
      ClassListNext(classes, [], Open);
      assert [] + [Open] == [Open];
      ClassListOfNames(classes, [Open], ns);
      assert KnownClasses(classes, ns) + [] == KnownClasses(classes, ns);
      ClassListNext(classes, [Open] + NameTokens(ns), Close);
  }

  lemma GapThenStops(mode: Mode, gap: string, rest: string)
    requires AllSpace(gap) && (gap != "" || (rest != "" && Stops(mode, rest[0])))
    ensures gap + rest != "" && Stops(mode, (gap + rest)[0])
  {
    if gap == "" {
      assert gap + rest == rest;
    } else {
      assert gap[0] in gap;
    }
  }

  /** What comes behind the classes ends the name of a single class. */
  lemma ClassesEnd(r: Rule, rest: string)
    requires RuleOk(r) && rest != "" && (!r.comp && r.perms.Braced? ==> rest[0] == '{')
    ensures var tail := r.gaps.classes + rest; tail != "" && (r.classes.One? ==> Stops(Mode.Classes, tail[0]))
  {
    hide ListOk, ExprOk;
    if r.gaps.classes == "" {
      assert r.gaps.classes + rest == rest;
    } else {
      assert r.gaps.classes[0] in r.gaps.classes;
    }
  }

  /** What comes behind the source may follow it. */
  lemma SourceEnds(r: Rule, rest: string)
    requires RuleOk(r)
    ensures MayFollow(r.source.elem, r.gaps.source + (RenderExpr(r.target) + rest))
  {
    hide ListOk;
    ExprStarts(r.target);
    if r.gaps.source == "" {
      assert r.gaps.source + (RenderExpr(r.target) + rest) == RenderExpr(r.target) + rest;
    } else {
      assert r.gaps.source[0] in r.gaps.source;
    }
  }

  lemma ExprStarts(x: Expr)
    requires ExprOk(x)
    ensures RenderExpr(x) != "" && (!x.comp && x.elem.Group? ==> RenderExpr(x)[0] == '{')
  {
  }

  lemma PermsAreRead(classes: Classes, r: Rule, rest: string)
    requires RuleOk(r) && rest != "" && Stops(Perms, rest[0])
    ensures ClassPermsRead(classes, RenderPerms(r) + rest)
      == Some((PermsMeant(KnownClasses(classes, NamesIn(r.classes)), r.comp, NamesIn(r.perms)), r.gaps.perms + rest))
  {
    hide Scan, Masked, ClassList, KnownClasses, RenderList, ListOk, PermTokens, ListTokens, PermsMeant, ExprOk, AllSpace;
    var perms := if r.comp then "~" + (r.gaps.tilde + RenderList(r.perms)) else RenderList(r.perms);
    var end := r.gaps.perms + rest;
    var tail := r.gaps.classes + (perms + end);
    var s := RenderPerms(r) + rest;
    assert s[1..] == r.gaps.colon + (RenderList(r.classes) + tail) && s[0] == ':';
    PermsStart(r, end);
    GapThenStops(Perms, r.gaps.perms, rest);
    ClassesEnd(r, perms + end);
    ScanSpace(Mode.Classes, r.gaps.colon, RenderList(r.classes) + tail, 0);
    ListReads(Mode.Classes, r.classes, tail);
    ScanSpace(Perms, r.gaps.classes, perms + end, 0);
    PermListReads(r.comp, r.gaps.tilde, r.perms, end);
    ClassListMeans(classes, r.classes);
    MaskedMeans(KnownClasses(classes, NamesIn(r.classes)), r.comp, r.perms);
  }

  // ---------------------------------------------------------------------------------------
  // Rules and lines

  lemma RuleReadIs(policy: Policy, classes: Classes, s: string, source: seq<Token>, s1: string, target: seq<Token>, s2: string,
                   perms: seq<ClassPerm>, s3: string)
    requires Scan(Types, s, 0) == Some((source, s1)) && Scan(Types, s1, 0) == Some((target, s2))
    requires ClassPermsRead(classes, s2) == Some((perms, s3)) && FromSemicolon(s3) != ""
    ensures RuleRead(policy, classes, s)
      == Some((AvRule(TypesOf(policy, source), TypesOf(policy, target), Self in source || Self in target, perms), FromSemicolon(s3)))
  {
    hide Scan, TypesOf, ClassPermsRead;
  }

  lemma {:induction false} SemicolonAfterGap(gap: string, more: string)
    requires AllSpace(gap)
    ensures FromSemicolon(gap + (";" + more)) == ";" + more
  {
    if gap == "" {
      assert gap + (";" + more) == ";" + more;
    } else {
      assert gap[0] in gap && (gap + (";" + more))[1..] == gap[1..] + (";" + more) && forall c | c in gap[1..] :: c in gap;
      SemicolonAfterGap(gap[1..], more);
    }
  }

  /** White space before the colon is skipped. */
  lemma PermsAfterGap(classes: Classes, gap: string, s: string)
    requires AllSpace(gap)
    ensures ClassPermsRead(classes, gap + s) == ClassPermsRead(classes, s)
  {
    hide Scan, Masked, ClassList;
    SpaceSkipped(gap, s);
  }

  lemma PermsStart(r: Rule, end: string)
    requires RuleOk(r) && end != ""
    ensures var rest := (if r.comp then "~" + (r.gaps.tilde + RenderList(r.perms)) else RenderList(r.perms)) + end;
      rest != "" && (!r.comp && r.perms.Braced? ==> rest[0] == '{')
  {
  }

  lemma SetsAreRead(r: Rule, rest: string)
    requires RuleOk(r) && rest != "" && rest[0] == ':'
    ensures var s1 := r.gaps.source + (RenderExpr(r.target) + (r.gaps.target + rest));
      && Scan(Types, RenderSets(r) + rest, 0) == Some((ExprTokens(r.source), s1))
      && Scan(Types, s1, 0) == Some((ExprTokens(r.target), r.gaps.target + rest))
  {
    hide Scan, RenderExpr, ExprTokens, ExprOk, ListOk, AllSpace;
    var s2 := r.gaps.target + rest;
    var s1 := r.gaps.source + (RenderExpr(r.target) + s2);
    assert RenderSets(r) + rest == r.gaps.keyword + (RenderExpr(r.source) + s1);
    GapThenStops(Types, r.gaps.target, rest);
    SourceEnds(r, s2);
    ScanSpace(Types, r.gaps.keyword, RenderExpr(r.source) + s1, 0);
    ExprReads(r.source, s1);
    ScanSpace(Types, r.gaps.source, RenderExpr(r.target) + s2, 0);
    ExprReads(r.target, s2);
  }

  /** A written rule is read as what it means, up to its semicolon. */
  lemma WrittenRuleIsRead(policy: Policy, classes: Classes, r: Rule, more: string)
    requires RuleOk(r)
    ensures RenderRule(r) + more == NEVERALLOW + (RenderSets(r) + (RenderPerms(r) + (";" + more)))
    ensures RuleRead(policy, classes, RenderSets(r) + (RenderPerms(r) + (";" + more))) == Some((Meaning(policy, classes, r), ";" + more))
  {
    hide Scan, TypesOf, ClassPermsRead, RuleRead, RenderExpr, RenderPerms, RenderSets, ExprTokens, Denotes, Leaves, PermsMeant,
         KnownClasses, ExprOk, ListOk, AllSpace, FromSemicolon;
    var rest := RenderPerms(r) + (";" + more);
    var s1 := r.gaps.source + (RenderExpr(r.target) + (r.gaps.target + rest));
    var perms := PermsMeant(KnownClasses(classes, NamesIn(r.classes)), r.comp, NamesIn(r.perms));
    StartsWithColon(r, ";" + more);
    SetsAreRead(r, rest);
    PermsAfterGap(classes, r.gaps.target, rest);
    PermsAreRead(classes, r, ";" + more);
    SemicolonAfterGap(r.gaps.perms, more);
    RuleReadIs(policy, classes, RenderSets(r) + rest, ExprTokens(r.source), s1, ExprTokens(r.target), r.gaps.target + rest,
               perms, r.gaps.perms + (";" + more));
    ExprMeans(policy, r.source);
    ExprMeans(policy, r.target);
  }

  lemma StartsWithColon(r: Rule, rest: string)
    ensures RenderPerms(r) + rest != "" && (RenderPerms(r) + rest)[0] == ':'
  {
  }

  lemma StartsWithGap(r: Rule, rest: string)
    requires RuleOk(r)
    ensures RenderSets(r) + rest != "" && IsSpace((RenderSets(r) + rest)[0])
  {
    assert r.gaps.keyword[0] in r.gaps.keyword;
  }

  lemma {:induction false} WordLenIs(w: string, rest: string)
    requires (forall c | c in w :: !IsSpace(c)) && (rest != "" ==> IsSpace(rest[0]))
    ensures WordLen(w + rest) == |w|
  {
    if w == "" {
      assert w + rest == rest;
    } else {
      assert w[0] in w && (w + rest)[1..] == w[1..] + rest && forall c | c in w[1..] :: c in w;
      WordLenIs(w[1..], rest);
    }
  }

  lemma RulesSkipSpace(policy: Policy, classes: Classes, gap: string, s: string)
    requires AllSpace(gap)
    ensures Rules(policy, classes, gap + s) == Rules(policy, classes, s)
  {
    hide RuleRead, SkipSpace, WordLen;
    SpaceSkipped(gap, s);
  }

  /** A word at the start of a text. */
  lemma WordSkipped(policy: Policy, classes: Classes, w: string, rest: string)
    requires w != "" && w != NEVERALLOW && (forall c | c in w :: !IsSpace(c)) && (rest != "" ==> IsSpace(rest[0]))
    ensures Rules(policy, classes, w + rest) == Rules(policy, classes, rest)
  {
    hide RuleRead, WordLen;
    var s := w + rest;
    assert s[0] == w[0] && w[0] in w;
    WordLenIs(w, rest);
    assert s[..|w|] == w && s[|w|..] == rest;
  }

  lemma KeywordRead(policy: Policy, classes: Classes, s: string)
    requires s != "" && IsSpace(s[0])
    ensures Rules(policy, classes, NEVERALLOW + s)
      == var rule := RuleRead(policy, classes, s);
         if rule.None? then None else After([rule.value.0], Rules(policy, classes, rule.value.1))
  {
    hide RuleRead, WordLen, After;
    WordLenIs(NEVERALLOW, s);
    var t := NEVERALLOW + s;
    assert t[0] == 'n' && t[..10] == NEVERALLOW && t[10..] == s;
  }

  lemma RuleTaken(policy: Policy, classes: Classes, r: Rule, more: string)
    requires RuleOk(r)
    ensures Rules(policy, classes, RenderRule(r) + more) == After([Meaning(policy, classes, r)], Rules(policy, classes, ";" + more))
  {
    hide Rules, RuleRead, Meaning, RuleOk, RenderSets, RenderPerms;
    var s := RenderSets(r) + (RenderPerms(r) + (";" + more));
    WrittenRuleIsRead(policy, classes, r, more);
    StartsWithGap(r, RenderPerms(r) + (";" + more));
    KeywordRead(policy, classes, s);
  }

  // ---------------------------------------------------------------------------------------
  // What may stand between two rules

  /** The keyword stands at i as a word of its own. */
  predicate KeywordAt(g: string, i: int) {
    0 < i && i + |NEVERALLOW| < |g| && IsSpace(g[i - 1]) && g[i..i + |NEVERALLOW|] == NEVERALLOW && IsSpace(g[i + |NEVERALLOW|])
  }

  /** From place n on within the word that starts at k. */
  lemma {:induction false} WordAt(policy: Policy, classes: Classes, t: string, k: nat, n: nat, more: string)
    requires k < n <= |t| && (forall i | k <= i < n :: !IsSpace(t[i])) && (if k == 0 then t[0] == ';' else IsSpace(t[k - 1]))
    requires (forall i :: !KeywordAt(t, i)) && more != "" && IsSpace(more[0])
    ensures Rules(policy, classes, t[k..] + (NEVERALLOW + more)) == Rules(policy, classes, if IsSpace(t[|t| - 1]) then NEVERALLOW + more else more)
    decreases |t| - n, 1
  {
    hide Rules;
    var w, x := t[k..n], NEVERALLOW + more;
    assert w[0] == t[k];
    if n == |t| {
      assert t[k..] + x == (w + NEVERALLOW) + more;
      WordSkipped(policy, classes, w + NEVERALLOW, more);
    } else if IsSpace(t[n]) {
      assert !KeywordAt(t, k);
      assert t[k..] + x == w + (t[n..] + x);
      WordSkipped(policy, classes, w, t[n..] + x);
      SpaceAt(policy, classes, t, n, more);
    } else {
      WordAt(policy, classes, t, k, n + 1, more);
    }
  }

  /** From the white space at n on. */
  lemma {:induction false} SpaceAt(policy: Policy, classes: Classes, t: string, n: nat, more: string)
    requires n < |t| && IsSpace(t[n]) && (forall i :: !KeywordAt(t, i)) && more != "" && IsSpace(more[0])
    ensures Rules(policy, classes, t[n..] + (NEVERALLOW + more)) == Rules(policy, classes, if IsSpace(t[|t| - 1]) then NEVERALLOW + more else more)
    decreases |t| - n, 0
  {
    hide Rules, KeywordAt;
    var x := NEVERALLOW + more;
    assert t[n..] + x == [t[n]] + (t[n + 1..] + x);
    RulesSkipSpace(policy, classes, [t[n]], t[n + 1..] + x);
    if n + 1 == |t| {
      assert t[n + 1..] + x == x;
    } else if IsSpace(t[n + 1]) {
      SpaceAt(policy, classes, t, n + 1, more);
    } else {
      WordAt(policy, classes, t, n + 1, n + 2, more);
    }
  }

  /** After a rule and its semicolon comes a text g in which the keyword is no word. The keyword that
      follows g is seen exactly if g is not empty and ends in white space; otherwise it is skipped in
      silence, and so is all of its rule up to the next keyword. */
  lemma GapDecides(policy: Policy, classes: Classes, r: Rule, g: string, more: string)
    requires RuleOk(r) && (forall i :: !KeywordAt(g, i)) && more != "" && IsSpace(more[0])
    ensures Rules(policy, classes, RenderRule(r) + (g + (NEVERALLOW + more)))
      == After([Meaning(policy, classes, r)], Rules(policy, classes, if g != "" && IsSpace(g[|g| - 1]) then NEVERALLOW + more else more))
  {
    hide Rules, Meaning, RuleOk, RenderRule, After, KeywordAt;
    RuleTaken(policy, classes, r, g + (NEVERALLOW + more));
    var t := ";" + g;
    assert ";" + (g + (NEVERALLOW + more)) == t[0..] + (NEVERALLOW + more);
    forall i ensures !KeywordAt(t, i) {
      KeywordShifts(g, i);
    }
    WordAt(policy, classes, t, 0, 1, more);
    assert g != "" ==> t[|t| - 1] == g[|g| - 1];
  }

  lemma KeywordShifts(g: string, i: int)
    ensures KeywordAt(";" + g, i) ==> KeywordAt(g, i - 1)
  {
    var t, n := ";" + g, |NEVERALLOW|;
    hide NEVERALLOW;
    assert t[1..] == g;
    if 1 < i && i + n < |t| {
      assert t[i..i + n] == t[1..][i - 1..i - 1 + n];
    }
  }

  lemma {:induction false} WordsSkipped(policy: Policy, classes: Classes, ws: seq<string>, gaps: seq<string>, more: string)
    requires GapsOk(gaps, |ws|) && forall w | w in ws :: WordOk(w)
    ensures Rules(policy, classes, RenderNames(ws, gaps) + ("\n" + more)) == Rules(policy, classes, more)
    decreases ws
  {
    hide Rules, RenderNames, GapsOk, AllSpace;
    if ws == [] {
      NoNames(gaps);
      RulesSkipSpace(policy, classes, gaps[0], "\n" + more);
      RulesSkipNewline(policy, classes, more);
    } else {
      assert ws[0] in ws && forall w | w in ws[1..] :: w in ws;
      NamesParts(ws, gaps, "\n" + more);
      var rest := RenderNames(ws[1..], gaps[1..]) + ("\n" + more);
      RulesSkipSpace(policy, classes, gaps[0], ws[0] + rest);
      WordSkipped(policy, classes, ws[0], rest);
      WordsSkipped(policy, classes, ws[1..], gaps[1..], more);
    }
  }

  lemma RulesSkipNewline(policy: Policy, classes: Classes, more: string)
    ensures Rules(policy, classes, "\n" + more) == Rules(policy, classes, more)
  {
    hide Rules;
    RulesSkipSpace(policy, classes, "\n", more);
  }

  // ---------------------------------------------------------------------------------------
  // Comments

  lemma {:induction false} StripPlain(code: string, rest: string)
    requires '#' !in code
    ensures Strip(code + rest, false) == code + Strip(rest, false)
  {
    if code == "" {
      assert code + rest == rest;
    } else {
      assert (code + rest)[1..] == code[1..] + rest && code == [code[0]] + code[1..];
      StripPlain(code[1..], rest);
    }
  }

  lemma {:induction false} StripWithin(remark: string, rest: string)
    requires '\n' !in remark
    ensures Strip(remark + ("\n" + rest), true) == "\n" + Strip(rest, false)
  {
    if remark == "" {
      assert remark + ("\n" + rest) == "\n" + rest && ("\n" + rest)[1..] == rest;
    } else {
      assert (remark + ("\n" + rest))[1..] == remark[1..] + ("\n" + rest) && remark == [remark[0]] + remark[1..];
      StripWithin(remark[1..], rest);
    }
  }

  lemma StripHash(s: string, inComment: bool)
    ensures Strip("#" + s, inComment) == Strip(s, true)
  {
    assert ("#" + s)[1..] == s;
  }

  lemma StripNewline(s: string, inComment: bool)
    ensures Strip("\n" + s, inComment) == "\n" + Strip(s, false)
  {
    assert ("\n" + s)[1..] == s;
  }

  /** A comment ends with its line and takes nothing else away: wherever it stands, also within a rule or
      behind another comment, the text is that with its newline alone. */
  lemma {:induction false} CommentIsRemoved(p: string, remark: string, rest: string, inComment: bool)
    requires '\n' !in remark
    ensures Strip(p + "#" + remark + "\n" + rest, inComment) == Strip(p + "\n" + rest, inComment)
  {
    var x, y := "#" + (remark + ("\n" + rest)), "\n" + rest;
    assert p + "#" + remark + "\n" + rest == p + x && p + "\n" + rest == p + y;
    if p == "" {
      StripHash(remark + y, inComment);
      StripWithin(remark, rest);
      StripNewline(rest, inComment);
      assert p + x == x && p + y == y;
    } else {
      assert (p + x)[1..] == p[1..] + x && (p + y)[1..] == p[1..] + y;
      var within := p[0] == '#' || inComment;
      CommentIsRemoved(p[1..], remark, rest, p[0] != '\n' && within);
      assert p[1..] + "#" + remark + "\n" + rest == p[1..] + x && p[1..] + "\n" + rest == p[1..] + y;
    }
  }

  // A written line of code has no hash sign

  lemma {:induction false} ElemHasNoHash(e: Elem)
    requires ElemOk(e)
    ensures '#' !in Render(e)
    decreases e, 1
  {
    if e.Group? {
      ElemsHaveNoHash(e.elems, e.gaps);
    }
  }

  lemma {:induction false} ElemsHaveNoHash(es: seq<Elem>, gaps: seq<string>)
    requires (forall x | x in es :: ElemOk(x)) && forall g | g in gaps :: AllSpace(g)
    ensures '#' !in RenderAll(es, gaps)
    decreases es, 0
  {
    hide ElemOk, Render, AllSpace;
    GapsHaveNoHash(gaps);
    if es != [] {
      assert es[0] in es && forall x | x in es[1..] :: x in es;
      ElemHasNoHash(es[0]);
      ElemsHaveNoHash(es[1..], Others(gaps));
    }
  }

  lemma GapsHaveNoHash(gaps: seq<string>)
    requires forall g | g in gaps :: AllSpace(g)
    ensures '#' !in First(gaps) && forall g | g in Others(gaps) :: AllSpace(g)
  {
    assert gaps != [] ==> gaps[0] in gaps;
  }

  lemma {:induction false} NamesHaveNoHash(ns: seq<string>, gaps: seq<string>)
    requires (forall n | n in ns :: '#' !in n) && forall g | g in gaps :: AllSpace(g)
    ensures '#' !in RenderNames(ns, gaps)
    decreases ns
  {
    hide AllSpace;
    GapsHaveNoHash(gaps);
    if ns != [] {
      assert ns[0] in ns && forall n | n in ns[1..] :: n in ns;
      NamesHaveNoHash(ns[1..], Others(gaps));
    }
  }

  lemma ListHasNoHash(l: List)
    requires ListOk(l)
    ensures '#' !in RenderList(l)
  {
    hide RenderNames, AllSpace;
    match l
    case One(n) =>
    case Braced(ns, gaps) =>
      assert forall n | n in ns :: ListNameOk(n) && '#' !in n;
      NamesHaveNoHash(ns, gaps);
  }

  lemma ExprHasNoHash(x: Expr)
    requires ExprOk(x)
    ensures '#' !in RenderExpr(x)
  {
    hide Render, ElemOk;
    ElemHasNoHash(x.elem);
  }

  lemma ListsHaveNoHash(r: Rule)
    requires RuleOk(r)
    ensures '#' !in RenderPerms(r)
  {
    hide RenderList, ExprOk, ListOk;
    ListHasNoHash(r.classes);
    ListHasNoHash(r.perms);
  }

  lemma RuleHasNoHash(r: Rule)
    requires RuleOk(r)
    ensures '#' !in RenderRule(r)
  {
    hide RenderSets, RenderPerms, ListOk, ExprOk;
    SetsHaveNoHash(r);
    ListsHaveNoHash(r);
  }

  lemma SetsHaveNoHash(r: Rule)
    requires RuleOk(r)
    ensures '#' !in RenderSets(r)
  {
    hide RenderExpr, ListOk, ExprOk;
    ExprHasNoHash(r.source);
    ExprHasNoHash(r.target);
  }

  lemma StmtHasNoHash(l: Line)
    requires LineOk(l)
    ensures '#' !in RenderStmt(l.stmt)
  {
    hide RuleOk, RenderRule;
    match l.stmt
    case Statement(r) => RuleHasNoHash(r);
    case Words(ws, gaps) =>
      assert forall w | w in ws :: WordOk(w) && '#' !in w;
      NamesHaveNoHash(ws, gaps);
  }

  /** What is left of a text when its comments are removed. */
  function Uncommented(ls: seq<Line>): string {
    if ls == [] then "" else RenderStmt(ls[0].stmt) + ("\n" + Uncommented(ls[1..]))
  }

  lemma {:induction false} FileIsStripped(ls: seq<Line>)
    requires forall l | l in ls :: LineOk(l)
    ensures Strip(RenderFile(ls), false) == Uncommented(ls)
  {
    hide LineOk, RenderStmt, Strip;
    if ls == [] {
      StripPlain("", "");
      StripNothing();
    } else {
      assert ls[0] in ls && forall l | l in ls[1..] :: l in ls;
      FileIsStripped(ls[1..]);
      LineIsStripped(ls[0], RenderFile(ls[1..]));
      var code := RenderStmt(ls[0].stmt);
      assert code + "\n" + Uncommented(ls[1..]) == code + ("\n" + Uncommented(ls[1..]));
    }
  }

  lemma StripNothing()
    ensures Strip("", false) == ""
  {
  }

  lemma LineIsStripped(l: Line, rest: string)
    requires LineOk(l)
    ensures Strip(RenderLine(l) + rest, false) == RenderStmt(l.stmt) + "\n" + Strip(rest, false)
  {
    hide RenderStmt, Strip, RuleOk, WordOk, GapsOk;
    StmtHasNoHash(l);
    var code := RenderStmt(l.stmt);
    var remark := if l.remark.Some? then l.remark.value else "";
    CommentIsRemoved(code, remark, rest, false);
    if l.remark.Some? {
      assert RenderLine(l) + rest == code + "#" + remark + "\n" + rest;
    } else {
      assert RenderLine(l) + rest == code + "\n" + rest;
    }
    assert code + "\n" + rest == code + ("\n" + rest);
    StripPlain(code, "\n" + rest);
    StripNewline(rest, false);
    assert code + ("\n" + Strip(rest, false)) == code + "\n" + Strip(rest, false);
  }

  lemma LineTaken(policy: Policy, classes: Classes, l: Line, more: string)
    requires LineOk(l)
    ensures Rules(policy, classes, RenderStmt(l.stmt) + ("\n" + more)) == After(if l.stmt.Statement? then [Meaning(policy, classes, l.stmt.rule)] else [], Rules(policy, classes, more))
  {
    hide Rules, Meaning, RuleOk, RenderRule, RenderNames, After, GapsOk;
    match l.stmt
    case Statement(r) =>
      RuleTaken(policy, classes, r, "\n" + more);
      WordSkipped(policy, classes, ";", "\n" + more);
      RulesSkipNewline(policy, classes, more);
    case Words(ws, gaps) =>
      WordsSkipped(policy, classes, ws, gaps, more);
      AfterNothing(Rules(policy, classes, more));
  }

  lemma {:induction false} LinesAreRead(policy: Policy, classes: Classes, ls: seq<Line>)
    requires forall l | l in ls :: LineOk(l)
    ensures Rules(policy, classes, Uncommented(ls)) == Some(Meanings(policy, classes, ls))
  {
    hide Meaning, LineOk, RenderStmt, Rules;
    if ls == [] {
      RulesEnd(policy, classes, []);
      AfterNothing(Rules(policy, classes, ""));
    } else {
      assert ls[0] in ls && forall l | l in ls[1..] :: l in ls;
      LinesAreRead(policy, classes, ls[1..]);
      LineTaken(policy, classes, ls[0], Uncommented(ls[1..]));
    }
  }

  /** A whole text is read as exactly the rules that it holds. */
  lemma WrittenFileIsRead(policy: Policy, classes: Classes, ls: seq<Line>)
    requires forall l | l in ls :: LineOk(l)
    ensures Found(Rules(policy, classes, Strip(RenderFile(ls), false)))
      == if Meanings(policy, classes, ls) == [] then None else Some(Reversed(Meanings(policy, classes, ls)))
  {
    hide Rules, Strip, LineOk, Meanings;
    FileIsStripped(ls);
    LinesAreRead(policy, classes, ls);
  }
}
