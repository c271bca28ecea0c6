/** What a written neverallow rule forbids, said of the policy's own tables, bit by bit; and which texts are
    errors (tools/sepolicy-analyze/neverallow.c). */
module NeverallowMeaning {
  import opened Options
  import opened NeverallowScan
  import opened NeverallowTypes
  import opened NeverallowSyntax
  import opened NeverallowRules
  import opened NeverallowFile

  // ---------------------------------------------------------------------------------------
  // Bit by bit

  /** The policy has this name, for the type with this bit or for an attribute that the type has. */
  ghost predicate Stands(policy: Policy, name: string, b: nat) {
    name in policy.names && match policy.names[name]
      case Type(bit) => bit == b
      case Attribute(members) => b in members
  }

  ghost predicate IsType(policy: Policy, b: nat) {
    b < policy.nprim && b !in policy.attributes
  }

  /** The set holds the bit: it is named, or `*` stands among the names; it is not negated; and under `~`,
      if there is no `*`, the types trade places. */
  ghost predicate SetHolds(policy: Policy, x: Expr, b: nat) {
    var ls := Leaves(x.elem);
    var named := exists n :: Pos(n) in ls && Stands(policy, n, b);
    var negated := exists n :: Neg(n) in ls && Stands(policy, n, b);
    var held := (named || (All in ls && IsType(policy, b))) && !negated;
    if x.comp && All !in ls && IsType(policy, b) then !held else held
  }

  /** The permission has the bit: its own in the class, or if the class does not know it, that of the common. */
  ghost predicate PermHas(c: Class, name: string, b: nat) {
    if name in c.perms then c.perms[name] == b else name in c.common && c.common[name] == b
  }

  /** The mask holds the bit: a listed permission has it, or `*` is listed, or the opposite under `~`. */
  ghost predicate MaskHolds(c: Class, comp: bool, names: seq<string>, b: nat) {
    b < 32 && (comp <==> !("*" in names || exists n :: n in names && n != "*" && PermHas(c, n, b)))
  }

  lemma NamedStands(policy: Policy, name: string, b: nat)
    ensures b in Named(policy, name) <==> Stands(policy, name, b)
  {
  }

  lemma TypesAre(policy: Policy, b: nat)
    ensures b in AllTypes(policy) <==> IsType(policy, b)
  {
  }

  lemma LeavesStand(policy: Policy, ls: set<Elem>, b: nat)
    ensures b in PosBits(policy, ls) <==> exists n :: Pos(n) in ls && Stands(policy, n, b)
    ensures b in NegBits(policy, ls) <==> exists n :: Neg(n) in ls && Stands(policy, n, b)
  {
    hide Named, Stands;
    forall n ensures b in Named(policy, n) <==> Stands(policy, n, b) {
      NamedStands(policy, n, b);
    }
    if n :| Pos(n) in ls && Stands(policy, n, b) {
      assert Pos(n).Pos? && Pos(n).name == n;
    }
    if n :| Neg(n) in ls && Stands(policy, n, b) {
      assert Neg(n).Neg? && Neg(n).name == n;
    }
    if b in PosBits(policy, ls) {
      var l :| l in ls && l.Pos? && b in Named(policy, l.name);
      assert l == Pos(l.name);
    }
    if b in NegBits(policy, ls) {
      var l :| l in ls && l.Neg? && b in Named(policy, l.name);
      assert l == Neg(l.name);
    }
  }

  lemma DenotesHolds(policy: Policy, x: Expr, b: nat)
    ensures b in Denotes(policy, x.comp, Leaves(x.elem)) <==> SetHolds(policy, x, b)
  {
    hide PosBits, NegBits, AllTypes, Stands, IsType, Leaves;
    LeavesStand(policy, Leaves(x.elem), b);
    TypesAre(policy, b);
  }

  /** A written type set, as it is read from its text. */
  lemma SetSays(policy: Policy, x: Expr, rest: string)
    requires ExprOk(x) && MayFollow(x.elem, rest)
    ensures var r := SetRead(policy, RenderExpr(x) + rest);
      r.Some? && r.value.1 == rest && forall b :: b in r.value.0 <==> SetHolds(policy, x, b)
  {
    hide SetHolds, SetRead, Denotes;
    WrittenSetIsRead(policy, x, rest);
    forall b ensures b in Denotes(policy, x.comp, Leaves(x.elem)) <==> SetHolds(policy, x, b) {
      DenotesHolds(policy, x, b);
    }
  }

  lemma PermBitsHave(c: Class, name: string, b: nat)
    ensures b in PermBits(c, name) <==> PermHas(c, name, b)
  {
  }

  lemma MaskSays(c: Class, comp: bool, names: seq<string>, b: nat)
    requires ClassOk(c)
    ensures b in MaskNamed(c, comp, names) <==> MaskHolds(c, comp, names, b)
  {
    PermBitsOk(c);
    hide PermBits, PermHas, ClassOk;
    forall n ensures b in PermBits(c, n) <==> PermHas(c, n, b) {
      PermBitsHave(c, n, b);
    }
    assert b in AllPerms() <==> b < 32;
    assert b in PermsNamed(c, names) <==> ("*" in names && b < 32) || exists n :: n in names && n != "*" && PermHas(c, n, b);
  }

  /** The classes of a rule are those of its names that the policy knows, the last one first. */
  lemma {:induction false} LastClassFirst(classes: Classes, names: seq<string>, n: string)
    ensures KnownClasses(classes, []) == []
    ensures KnownClasses(classes, names + [n]) == (if n in classes then [classes[n]] else []) + KnownClasses(classes, names)
    ensures ClassesOk(classes) ==> forall c | c in KnownClasses(classes, names) :: ClassOk(c)
  {
    if names == [] {
      assert [] + [n] == [n];
      assert KnownClasses(classes, [n][1..]) == [];
    } else {
      LastClassFirst(classes, names[1..], n);
      assert (names + [n])[1..] == names[1..] + [n];
    }
  }

  /** A written rule, as it is read from its text, with any text but a semicolon before its semicolon: its two
      sets, whether it names `self`, and for each class the policy knows the permissions it forbids. */
  lemma RuleSays(policy: Policy, classes: Classes, r: Rule, junk: string, more: string)
    requires RuleOk(r) && ClassesOk(classes) && ';' !in junk && (junk != "" ==> Stops(Perms, junk[0]))
    ensures var read := RuleRead(policy, classes, RenderSets(r) + (RenderPerms(r) + (junk + (";" + more))));
      read.Some? && read.value.1 == ";" + more &&
      var a, cs, names := read.value.0, KnownClasses(classes, NamesIn(r.classes)), NamesIn(r.perms);
      && (forall b :: b in a.stypes <==> SetHolds(policy, r.source, b))
      && (forall b :: b in a.ttypes <==> SetHolds(policy, r.target, b))
      && (a.self <==> Oneself in Leaves(r.source.elem) + Leaves(r.target.elem))
      && |a.perms| == |cs|
      && (forall i | 0 <= i < |cs| :: a.perms[i].cls == cs[i] && forall b :: b in a.perms[i].data <==> MaskHolds(cs[i], r.comp, names, b))
  {
    hide SetHolds, MaskHolds, RuleRead, Denotes, KnownClasses, RenderSets, RenderPerms, RuleOk, MaskNamed, ClassesOk, ClassOk, Leaves;
    JunkIsSkipped(policy, classes, r, junk, more);
    forall x: Expr, b ensures b in Denotes(policy, x.comp, Leaves(x.elem)) <==> SetHolds(policy, x, b) {
      DenotesHolds(policy, x, b);
    }
    var cs, names := KnownClasses(classes, NamesIn(r.classes)), NamesIn(r.perms);
    LastClassFirst(classes, NamesIn(r.classes), "");
    forall i, b | 0 <= i < |cs| ensures b in MaskNamed(cs[i], r.comp, names) <==> MaskHolds(cs[i], r.comp, names, b) {
      MaskSays(cs[i], r.comp, names, b);
    }
  }

  /** Which names can be written: all characters but white space, `;`, `#` and braces, in type sets no `:`
      either; and no sign at the start. */
  lemma NamesAre(n: string)
    ensures NameOk(n) <==> n != "" && n != "self" && n[0] !in "~*-" && forall c | c in n :: c !in ";#{}: " && !(9 <= c as int <= 13)
    ensures ListNameOk(n) <==> n != "" && n[0] != '~' && forall c | c in n :: c !in ";#{} " && !(9 <= c as int <= 13)
  {
    forall c: char ensures IsSpace(c) <==> c == ' ' || 9 <= c as int <= 13 {
    }
    forall c: char ensures Stops(Perms, c) <==> c in ";#{} " || 9 <= c as int <= 13 {
    }
    hide IsSpace;
  }

  // ---------------------------------------------------------------------------------------
  // Signs anywhere among the tokens

  predicate IsSign(t: Token) {
    t == Star || t == Comp
  }

  lemma {:induction false} LastFlagIs(ts: seq<Token>, k: nat)
    requires k < |ts| && IsSign(ts[k]) && forall j | k < j < |ts| :: !IsSign(ts[j])
    ensures LastFlag(ts) == if ts[k] == Star then StarFlag else CompFlag
  {
    if k < |ts| - 1 {
      LastFlagIs(ts[..|ts| - 1], k);
    }
  }

  lemma {:induction false} NoFlag(ts: seq<Token>)
    requires forall j | 0 <= j < |ts| :: !IsSign(ts[j])
    ensures LastFlag(ts) == Flag.NoFlag
  {
    if ts != [] {
      NoFlag(ts[..|ts| - 1]);
    }
  }

  /** Some name stands for b; and whether a `-` waited for it, with no other name between. */
  ghost predicate NamedAt(policy: Policy, ts: seq<Token>, b: nat, negated: bool) {
    exists k :: 0 <= k < |ts| && ts[k].Name? && Stands(policy, ts[k].id, b) && (Waiting(ts, k) <==> negated)
  }

  ghost predicate Waiting(ts: seq<Token>, k: nat)
    requires k <= |ts|
  {
    exists m :: 0 <= m < k && ts[m] == Minus && forall j | m < j < k :: !ts[j].Name?
  }

  lemma TokenBits(policy: Policy, ts: seq<Token>, b: nat)
    ensures b in Positive(policy, ts) <==> NamedAt(policy, ts, b, false)
    ensures b in Negative(policy, ts) <==> NamedAt(policy, ts, b, true)
  {
    hide Named, Stands;
    forall n ensures b in Named(policy, n) <==> Stands(policy, n, b) {
      NamedStands(policy, n, b);
    }
    assert forall k | 0 <= k <= |ts| :: Pending(ts, k) <==> Waiting(ts, k);
    hide Pending, Waiting;
  }

  /** Any tokens, in any order: of the signs `*` and `~` the last one decides, wherever they stand. */
  lemma LastSignDecides(policy: Policy, ts: seq<Token>, k: nat, b: nat)
    requires k <= |ts| && (k < |ts| ==> IsSign(ts[k])) && forall j | k < j < |ts| :: !IsSign(ts[j])
    requires k == |ts| ==> forall j | 0 <= j < |ts| :: !IsSign(ts[j])
    ensures var held := NamedAt(policy, ts, b, false) && !NamedAt(policy, ts, b, true);
      b in TypesOf(policy, ts) <==>
        if k == |ts| then held
        else if ts[k] == Star then (NamedAt(policy, ts, b, false) || IsType(policy, b)) && !NamedAt(policy, ts, b, true)
        else if IsType(policy, b) then !held else held
  {
    hide NamedAt, IsType, AllTypes, Positive, Negative, LastFlag;
    if k == |ts| { NoFlag(ts); } else { LastFlagIs(ts, k); }
    TokenBits(policy, ts, b);
    TypesAre(policy, b);
  }

  /** The same for permissions, where a `~` counts wherever it stands. */
  lemma TildeCountsAnywhere(c: Class, ts: seq<Token>, b: nat)
    requires ClassOk(c)
    ensures b in Mask(c, ts) <==>
      b < 32 && ((Comp in ts) <==> !(Name("*") in ts || exists n :: Name(n) in ts && n != "*" && PermHas(c, n, b)))
  {
    PermBitsOk(c);
    hide PermBits, PermHas, ClassOk;
    forall n ensures b in PermBits(c, n) <==> PermHas(c, n, b) {
      PermBitsHave(c, n, b);
    }
    assert b in AllPerms() <==> b < 32;
    if n :| Name(n) in ts && n != "*" && PermHas(c, n, b) {
      assert Name(n).Name? && b in PermBits(c, Name(n).id);
    }
    if t :| t in ts && t.Name? && b in PermBits(c, t.id) && t.id != STAR_ID {
      assert t == Name(t.id);
    }
    assert b in Granted(c, ts) <==> (Name("*") in ts && b < 32) || exists n :: Name(n) in ts && n != "*" && PermHas(c, n, b);
  }

  // ---------------------------------------------------------------------------------------
  // What stands before the semicolon, and errors

  lemma {:induction false} UpToSemicolon(junk: string, more: string)
    requires ';' !in junk
    ensures FromSemicolon(junk + (";" + more)) == ";" + more && FromSemicolon(junk) == ""
  {
    if junk == "" {
      assert junk + (";" + more) == ";" + more;
    } else {
      assert (junk + (";" + more))[1..] == junk[1..] + (";" + more) && junk[0] in junk && forall c | c in junk[1..] :: c in junk;
      UpToSemicolon(junk[1..], more);
    }
  }

  lemma SpaceIsNoSemicolon(gap: string)
    requires AllSpace(gap)
    ensures ';' !in gap
  {
  }

  lemma RuleGapsAreSpace(r: Rule)
    requires RuleOk(r)
    ensures AllSpace(r.gaps.target) && AllSpace(r.gaps.perms)
  {
  }

  /** A rule and any text after its permissions. */
  lemma RuleReads(policy: Policy, classes: Classes, r: Rule, rest: string)
    requires RuleOk(r) && rest != "" && Stops(Perms, rest[0])
    ensures RuleRead(policy, classes, RenderSets(r) + (RenderPerms(r) + rest))
      == var t := FromSemicolon(r.gaps.perms + rest); if t == "" then None else Some((Meaning(policy, classes, r), t))
  {
    hide Scan, TypesOf, ClassPermsRead, RenderExpr, RenderPerms, RenderSets, ExprTokens, Denotes, Leaves, PermsMeant,
         KnownClasses, ExprOk, AllSpace, FromSemicolon, RuleOk;
    var s := RenderPerms(r) + rest;
    StartsWithColon(r, rest);
    SetsAreRead(r, s);
    RuleGapsAreSpace(r);
    PermsAfterGap(classes, r.gaps.target, s);
    PermsAreRead(classes, r, rest);
    ExprMeans(policy, r.source);
    ExprMeans(policy, r.target);
  }

  lemma JunkIsSkipped(policy: Policy, classes: Classes, r: Rule, junk: string, more: string)
    requires RuleOk(r) && ';' !in junk && (junk != "" ==> Stops(Perms, junk[0]))
    ensures RuleRead(policy, classes, RenderSets(r) + (RenderPerms(r) + (junk + (";" + more)))) == Some((Meaning(policy, classes, r), ";" + more))
  {
    hide RuleRead, RenderSets, RenderPerms, Meaning, RuleOk, AllSpace;
    var rest := junk + (";" + more);
    if junk == "" {
      assert rest == ";" + more;
    }
    RuleReads(policy, classes, r, rest);
    RuleGapsAreSpace(r);
    SpaceIsNoSemicolon(r.gaps.perms);
    UpToSemicolon(r.gaps.perms + junk, more);
    assert r.gaps.perms + rest == (r.gaps.perms + junk) + (";" + more);
  }

  /** A rule that no semicolon ends is an error, and so the whole text. */
  lemma RuleWithoutEndIsAnError(policy: Policy, classes: Classes, r: Rule, junk: string)
    requires RuleOk(r) && ';' !in junk && junk != "" && Stops(Perms, junk[0])
    ensures Rules(policy, classes, "neverallow" + (RenderSets(r) + (RenderPerms(r) + junk))) == None
  {
    hide RuleRead, RenderSets, RenderPerms, Meaning, RuleOk, AllSpace, Rules;
    RuleReads(policy, classes, r, junk);
    RuleGapsAreSpace(r);
    SpaceIsNoSemicolon(r.gaps.perms);
    UpToSemicolon(r.gaps.perms + junk, "");
    StartsWithGap(r, RenderPerms(r) + junk);
    KeywordRead(policy, classes, RenderSets(r) + (RenderPerms(r) + junk));
  }

  /** The scanner gives up at a brace that closes nothing, at the end of the text and within open braces. */
  lemma UnbalancedIsAnError(mode: Mode, gap: string, rest: string, open: nat)
    requires AllSpace(gap)
    ensures Scan(mode, gap + ("}" + rest), 0) == None && Scan(mode, gap, open) == None
  {
    SpaceSkipped(gap, "}" + rest);
    SpaceSkipped(gap, "");
    assert gap + "" == gap;
    assert ("}" + rest)[1..] == rest;
  }

  lemma UnclosedIsAnError(es: seq<Elem>, gaps: seq<string>)
    requires ElemGapsOk(gaps, es) && forall x | x in es :: ElemOk(x)
    ensures Scan(Types, Render(Group(es, gaps))[..|Render(Group(es, gaps))| - 1] + " ", 0) == None
  {
    hide Scan, ElemGapsOk, ElemOk;
    var inner := RenderAll(es, gaps) + " ";
    assert Render(Group(es, gaps))[..|Render(Group(es, gaps))| - 1] + " " == ['{'] + inner;
    StepChar('{', inner);
    ScanOn(Types, ['{'] + inner, Open, inner, 0);
    ScanElems(es, gaps, " ", 1);
    UnbalancedIsAnError(Types, " ", "", 1);
  }

  /** A list that grows at its head is the other way round. */
  lemma {:induction false} ReversedAt(rs: seq<AvRule>, k: nat)
    requires k < |rs|
    ensures Reversed(rs)[k] == rs[|rs| - 1 - k]
  {
    if k < |rs| - 1 {
      ReversedAt(rs[1..], k);
    }
  }
}
