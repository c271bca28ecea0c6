/** Whole neverallow rules (`read_classperms` and `check_neverallows` of
    tools/sepolicy-analyze/neverallow.c): class and permission lists, comments, and the search for
    rules in a text. Permission masks are sets of bits below 32. */
module NeverallowRules {
  import opened Options
  import opened NeverallowScan
  import opened NeverallowTypes

  datatype Class = Class(value: nat, perms: map<string, nat>, common: map<string, nat>)

  datatype ClassPerm = ClassPerm(cls: Class, data: Bits)

  datatype AvRule = AvRule(stypes: Bits, ttypes: Bits, self: bool, perms: seq<ClassPerm>)

  type Classes = map<string, Class>

  const STAR_ID := "*"
  const NEVERALLOW := "neverallow"

  /** All 32 bits of a mask. */
  function AllPerms(): Bits {
    Below(32)
  }

  ghost predicate ClassesOk(classes: Classes) {
    forall id | id in classes :: ClassOk(classes[id])
  }

  ghost predicate ClassOk(c: Class) {
    (forall p | p in c.perms :: c.perms[p] < 32) && (forall p | p in c.common :: c.common[p] < 32)
  }

  /** The bit of a permission: the class's own, or that of its common. */
  function PermBits(c: Class, id: string): Bits {
    if id in c.perms then {c.perms[id]} else if id in c.common then {c.common[id]} else {}
  }

  // ---------------------------------------------------------------------------------------
  // What the tokens mean

  /** The known classes, the last one first, as the list is built. */
  ghost function ClassList(classes: Classes, ts: seq<Token>): seq<Class> {
    if ts == [] then []
    else
      var t, before := ts[|ts| - 1], ClassList(classes, ts[..|ts| - 1]);
      if t.Name? && t.id in classes then [classes[t.id]] + before else before
  }

  /** The permissions named for a class; `*` is all of them. */
  ghost function Granted(c: Class, ts: seq<Token>): Bits {
    (set t, b | t in ts && t.Name? && b in PermBits(c, t.id) && t.id != STAR_ID :: b) +
    if Name(STAR_ID) in ts then AllPerms() else {}
  }

  /** The mask of a class: the permissions named, or all others. */
  ghost function Mask(c: Class, ts: seq<Token>): Bits {
    if Comp in ts then AllPerms() - Granted(c, ts) else Granted(c, ts)
  }

  ghost function Masked(cs: seq<Class>, ts: seq<Token>): seq<ClassPerm> {
    seq(|cs|, i requires 0 <= i < |cs| => ClassPerm(cs[i], Mask(cs[i], ts)))
  }

  lemma PermBitsOk(c: Class)
    requires ClassOk(c)
    ensures forall id :: PermBits(c, id) <= AllPerms()
  {
  }

  lemma GrantedNext(c: Class, ts: seq<Token>, t: Token)
    requires ClassOk(c)
    ensures Granted(c, ts + [t]) ==
      if t.Name? && t.id == STAR_ID then AllPerms()
      else Granted(c, ts) + if t.Name? then PermBits(c, t.id) else {}
    ensures Granted(c, []) == {} && Granted(c, ts) <= AllPerms()
  {
    hide PermBits, AllPerms;
    PermBitsOk(c);
    assert forall x :: x in ts + [t] <==> x in ts || x == t;
  }

  lemma ClassListNext(classes: Classes, ts: seq<Token>, t: Token)
    ensures ClassList(classes, ts + [t])
      == if t.Name? && t.id in classes then [classes[t.id]] + ClassList(classes, ts) else ClassList(classes, ts)
  {
    assert (ts + [t])[..|ts|] == ts;
  }

  /** What `read_classperms` makes of a text. */
  ghost function ClassPermsRead(classes: Classes, s: string): (r: Option<(seq<ClassPerm>, string)>)
    ensures r.Some? ==> |r.value.1| < |s| && r.value.1 != ""
  {
    var s1 := SkipSpace(s);
    if s1 == "" || s1[0] != ':' then None
    else
      var cs := Scan(Mode.Classes, s1[1..], 0);
      if cs.None? then None
      else
        var ps := Scan(Perms, cs.value.1, 0);
        if ps.None? then None else Some((Masked(ClassList(classes, cs.value.0), ps.value.0), ps.value.1))
  }

  // ---------------------------------------------------------------------------------------
  // The procedure

  method CollectClasses(classes: Classes, text: string, p: nat) returns (ok: bool, q: nat, cs: seq<Class>, ghost ts: seq<Token>)
    requires p <= |text|
    ensures ok == Scan(Mode.Classes, text[p..], 0).Some?
    ensures ok ==> p < q < |text| && Scan(Mode.Classes, text[p..], 0) == Some((ts, text[q..])) && cs == ClassList(classes, ts)
  {
    hide Scan, Step, ClassList, Prepend;
    q, ts, cs := p, [], [];
    NoClasses(classes);
    PrependNothing(Scan(Mode.Classes, text[p..], 0));
    var openparens: nat := 0;
    var more := true;
    while more
      invariant p <= q <= |text| && cs == ClassList(classes, ts) && (!more ==> p < q)
      invariant Scan(Mode.Classes, text[p..], 0) ==
        if more then Prepend(ts, Scan(Mode.Classes, text[q..], openparens)) else if q == |text| then None else Some((ts, text[q..]))
      decreases |text| - q, more
    {
      ScanRound(Mode.Classes, text[q..], openparens, ts);
      PrependFails(ts);
      var stepOk, comp, t, next := ReadStep(Mode.Classes, text, q);
      if !stepOk {
        return false, q, cs, ts;
      }
      ClassStep(text[q..]);
      ClassListNext(classes, ts, t);
      if t == Open {
        openparens := openparens + 1;
      } else if t == Close {
        if openparens == 0 {
          return false, q, cs, ts;
        }
        openparens := openparens - 1;
      } else if t.Name? && t.id in classes {
        cs := [classes[t.id]] + cs;
      }
      ts := ts + [t];
      q := next;
      more := q < |text| && openparens != 0;
    }
    ok := q != |text|;
  }

  lemma NoClasses(classes: Classes)
    ensures ClassList(classes, []) == []
  {
  }

  /** A class list has no complement. */
  lemma ClassStep(s: string)
    ensures Step(Mode.Classes, s).Some? ==> !Step(Mode.Classes, s).value.0
  {
  }

  ghost predicate NodesHold(cs: seq<Class>, ts: seq<Token>, nodes: seq<ClassPerm>) {
    |nodes| == |cs| && forall i | 0 <= i < |cs| :: nodes[i] == ClassPerm(cs[i], Granted(cs[i], ts))
  }

  /** One permission, for one class of the list. */
  function Granting(node: ClassPerm, id: string): ClassPerm {
    node.(data := if id == STAR_ID then AllPerms() else node.data + PermBits(node.cls, id))
  }

  /** One permission, for every class of the list. */
  method GrantAll(nodes: seq<ClassPerm>, id: string) returns (r: seq<ClassPerm>)
    ensures |r| == |nodes| && forall i | 0 <= i < |nodes| :: r[i] == Granting(nodes[i], id)
  {
    r := nodes;
    for i := 0 to |nodes|
      invariant |r| == |nodes| && forall k | i <= k < |nodes| :: r[k] == nodes[k]
      invariant forall k | 0 <= k < i :: r[k] == Granting(nodes[k], id)
    {
      if id == STAR_ID {
        r := r[i := r[i].(data := AllPerms())];
      } else {
        r := r[i := r[i].(data := r[i].data + PermBits(r[i].cls, id))];
      }
    }
  }

  ghost predicate ListOk(cs: seq<Class>) {
    forall i | 0 <= i < |cs| :: ClassOk(cs[i])
  }

  lemma NameHolds(cs: seq<Class>, ts: seq<Token>, nodes: seq<ClassPerm>, id: string, nodes': seq<ClassPerm>)
    requires NodesHold(cs, ts, nodes) && ListOk(cs) && |nodes'| == |nodes|
    requires forall i | 0 <= i < |nodes| :: nodes'[i] == Granting(nodes[i], id)
    ensures NodesHold(cs, ts + [Name(id)], nodes')
  {
    hide Granted, PermBits, ClassOk, AllPerms;
    forall i | 0 <= i < |cs| ensures nodes'[i] == ClassPerm(cs[i], Granted(cs[i], ts + [Name(id)])) {
      GrantedNext(cs[i], ts, Name(id));
    }
  }

  lemma OtherHolds(cs: seq<Class>, ts: seq<Token>, nodes: seq<ClassPerm>, t: Token)
    requires NodesHold(cs, ts, nodes) && ListOk(cs) && !t.Name?
    ensures NodesHold(cs, ts + [t], nodes)
  {
    hide Granted, ClassOk;
    forall i | 0 <= i < |cs| ensures nodes[i] == ClassPerm(cs[i], Granted(cs[i], ts + [t])) {
      GrantedNext(cs[i], ts, t);
    }
  }

  lemma NoneHold(cs: seq<Class>, nodes: seq<ClassPerm>)
    requires ListOk(cs) && |nodes| == |cs| && forall i | 0 <= i < |cs| :: nodes[i] == ClassPerm(cs[i], {})
    ensures NodesHold(cs, [], nodes)
  {
    hide Granted, ClassOk;
    forall i | 0 <= i < |cs| ensures nodes[i] == ClassPerm(cs[i], Granted(cs[i], [])) {
      GrantedNext(cs[i], [], Open);
    }
  }

  lemma {:induction false} ClassListOk(classes: Classes, ts: seq<Token>)
    requires ClassesOk(classes)
    ensures ListOk(ClassList(classes, ts))
  {
    if ts != [] {
      ClassListOk(classes, ts[..|ts| - 1]);
    }
  }

  /** The do-while loop over permissions. */
  method CollectPerms(cs: seq<Class>, text: string, p: nat)
      returns (ok: bool, q: nat, nodes: seq<ClassPerm>, complement: bool, ghost ts: seq<Token>)
    requires p <= |text| && ListOk(cs)
    ensures ok == Scan(Perms, text[p..], 0).Some?
    ensures ok ==> p < q < |text| && Scan(Perms, text[p..], 0) == Some((ts, text[q..]))
    ensures ok ==> NodesHold(cs, ts, nodes) && complement == (Comp in ts)
  {
    hide Scan, Step, NodesHold, ListOk, Prepend;
    q, ts, complement := p, [], false;
    nodes := seq(|cs|, i requires 0 <= i < |cs| => ClassPerm(cs[i], {}));
    NoneHold(cs, nodes);
    PrependNothing(Scan(Perms, text[p..], 0));
    var openparens: nat := 0;
    var more := true;
    while more
      invariant p <= q <= |text| && NodesHold(cs, ts, nodes) && complement == (Comp in ts) && (!more ==> p < q)
      invariant Scan(Perms, text[p..], 0) ==
        if more then Prepend(ts, Scan(Perms, text[q..], openparens)) else if q == |text| then None else Some((ts, text[q..]))
      decreases |text| - q, more
    {
      ghost var was := ts;
      ScanRound(Perms, text[q..], openparens, ts);
      PrependFails(ts);
      PermStep(text[q..]);
      var stepOk, comp, t, next := ReadStep(Perms, text, q);
      if !stepOk {
        return false, q, nodes, complement, ts;
      }
      if comp {
        OtherHolds(cs, ts, nodes, Comp);
        complement, ts := true, ts + [Comp];
      }
      if t.Name? {
        var nodes' := GrantAll(nodes, t.id);
        NameHolds(cs, ts, nodes, t.id, nodes');
        nodes := nodes';
      } else {
        OtherHolds(cs, ts, nodes, t);
        if t == Open {
          openparens := openparens + 1;
        } else if t == Close {
          if openparens == 0 {
            return false, q, nodes, complement, ts;
          }
          openparens := openparens - 1;
        }
      }
      ts := ts + [t];
      assert ts == was + Marked(comp, t);
      q := next;
      more := q < |text| && openparens != 0;
    }
    ok := q != |text|;
  }

  /** A `~` is never the token of a step. */
  lemma PermStep(s: string)
    ensures Step(Perms, s).Some? ==> Step(Perms, s).value.1 != Comp
  {
  }

  /** The final loop, which turns the masks around. */
  method ComplementAll(cs: seq<Class>, ghost ts: seq<Token>, nodes: seq<ClassPerm>, complement: bool) returns (r: seq<ClassPerm>)
    requires NodesHold(cs, ts, nodes) && complement == (Comp in ts)
    ensures r == Masked(cs, ts)
  {
    hide Granted, AllPerms;
    r := nodes;
    if complement {
      for i := 0 to |nodes|
        invariant |r| == |nodes| && (forall k | i <= k < |nodes| :: r[k] == nodes[k])
        invariant forall k | 0 <= k < i :: r[k] == ClassPerm(cs[k], Mask(cs[k], ts))
      {
        r := r[i := r[i].(data := AllPerms() - r[i].data)];
      }
    }
  }

  /** `read_classperms` */
  method ReadClassperms(classes: Classes, text: string, p: nat) returns (ok: bool, q: nat, perms: seq<ClassPerm>)
    requires p <= |text| && ClassesOk(classes)
    ensures ok == ClassPermsRead(classes, text[p..]).Some?
    ensures ok ==> p < q < |text| && ClassPermsRead(classes, text[p..]) == Some((perms, text[q..]))
  {
    hide Scan, Masked, ClassesOk, ListOk, NodesHold, ClassList, SkipSpace;
    perms := [];
    q := SkipSpaces(text, p);
    if q == |text| || text[q] != ':' {
      assert q < |text| ==> text[q..][0] == text[q];
      return false, q, perms;
    }
    assert text[q..][0] == text[q] && text[q..][1..] == text[q + 1..];
    var cs: seq<Class>;
    ghost var cts: seq<Token>;
    ok, q, cs, cts := CollectClasses(classes, text, q + 1);
    if !ok {
      return;
    }
    ClassListOk(classes, cts);
    var nodes, complement;
    ghost var pts: seq<Token>;
    ok, q, nodes, complement, pts := CollectPerms(cs, text, q);
    if !ok {
      return;
    }
    perms := ComplementAll(cs, pts, nodes, complement);
  }

  // ---------------------------------------------------------------------------------------
  // Rules in a text

  /** The text from its first semicolon. */
  function FromSemicolon(s: string): (r: string)
    ensures |r| <= |s| && (r != "" ==> r[0] == ';')
  {
    if s != "" && s[0] != ';' then FromSemicolon(s[1..]) else s
  }

  /** The rule after the keyword, and the text from the semicolon that ends it. */
  ghost function RuleRead(policy: Policy, classes: Classes, s: string): (r: Option<(AvRule, string)>)
    ensures r.Some? ==> |r.value.1| < |s| && r.value.1 != ""
  {
    var source := Scan(Types, s, 0);
    if source.None? then None
    else
      var target := Scan(Types, source.value.1, 0);
      if target.None? then None
      else
        var perms := ClassPermsRead(classes, target.value.1);
        if perms.None? then None
        else
          var rest := FromSemicolon(perms.value.1);
          var self := Self in source.value.0 || Self in target.value.0;
          if rest == "" then None
          else Some((AvRule(TypesOf(policy, source.value.0), TypesOf(policy, target.value.0), self, perms.value.0), rest))
  }

  function WordLen(s: string): (n: nat)
    ensures n <= |s| && (s != "" && !IsSpace(s[0]) ==> n > 0)
  {
    if s != "" && !IsSpace(s[0]) then 1 + WordLen(s[1..]) else 0
  }

  /** The rules of a text without comments, in order: a word that is not the keyword is skipped. */
  ghost function Rules(policy: Policy, classes: Classes, s: string): Option<seq<AvRule>>
    decreases |s|
  {
    var s1 := SkipSpace(s);
    if s1 == "" then Some([])
    else
      var n := WordLen(s1);
      if s1[..n] != NEVERALLOW then Rules(policy, classes, s1[n..])
      else
        var rule := RuleRead(policy, classes, s1[n..]);
        if rule.None? then None else After([rule.value.0], Rules(policy, classes, rule.value.1))
  }

  ghost function After(done: seq<AvRule>, r: Option<seq<AvRule>>): Option<seq<AvRule>> {
    if r.None? then None else Some(done + r.value)
  }

  /** The part of the loop after the keyword. */
  method ReadRule(policy: Policy, classes: Classes, text: string, p: nat) returns (ok: bool, rule: AvRule, q: nat)
    requires p <= |text| && ClassesOk(classes)
    ensures ok == RuleRead(policy, classes, text[p..]).Some?
    ensures ok ==> p < q < |text| && RuleRead(policy, classes, text[p..]) == Some((rule, text[q..]))
  {
    hide Scan, TypesOf, ClassPermsRead, ClassesOk;
    rule, q := AvRule({}, {}, false, []), p;
    var stypes, ttypes, sself, tself, perms;
    ok, q, stypes, sself := ReadTypeset(policy, text, q);
    if !ok {
      return;
    }
    ok, q, ttypes, tself := ReadTypeset(policy, text, q);
    if !ok {
      return;
    }
    ok, q, perms := ReadClassperms(classes, text, q);
    if !ok {
      return;
    }
    ok, q := FindSemicolon(text, q);
    rule := AvRule(stypes, ttypes, sself || tself, perms);
  }

  method FindSemicolon(text: string, p: nat) returns (ok: bool, q: nat)
    requires p <= |text|
    ensures p <= q <= |text| && text[q..] == FromSemicolon(text[p..]) && ok == (q < |text|)
  {
    q := p;
    while q < |text| && text[q] != ';'
      invariant p <= q <= |text| && FromSemicolon(text[q..]) == FromSemicolon(text[p..])
    {
      assert text[q..][0] == text[q] && text[q..][1..] == text[q + 1..];
      q := q + 1;
    }
    assert q < |text| ==> text[q..][0] == text[q];
    ok := q < |text|;
  }

  /** The text without its comments, from within a comment or not. */
  function Strip(s: string, inComment: bool): string {
    if s == "" then ""
    else
      var within := s[0] == '#' || inComment;
      (if !within || s[0] == '\n' then [s[0]] else "") + Strip(s[1..], s[0] != '\n' && within)
  }

  lemma StripNext(text: string, p: nat, inComment: bool, r: string)
    requires p < |text|
    ensures var within := text[p] == '#' || inComment;
      r + Strip(text[p..], inComment)
        == (if !within || text[p] == '\n' then r + [text[p]] else r) + Strip(text[p + 1..], text[p] != '\n' && within)
  {
    assert text[p..][0] == text[p] && text[p..][1..] == text[p + 1..];
  }

  lemma StripAll(text: string)
    ensures "" + Strip(text[0..], false) == Strip(text, false) && Strip(text[|text|..], false) == Strip(text[|text|..], true) == ""
  {
    assert text[0..] == text;
  }

  /** The first loop of `check_neverallows`. */
  method StripComments(text: string) returns (r: string)
    ensures r == Strip(text, false)
  {
    hide Strip;
    r := "";
    StripAll(text);
    var inComment := false;
    for p := 0 to |text|
      invariant Strip(text, false) == r + Strip(text[p..], inComment)
    {
      StripNext(text, p, inComment, r);
      if text[p] == '#' {
        inComment := true;
      }
      if !inComment || text[p] == '\n' {
        r := r + [text[p]];
      }
      if text[p] == '\n' {
        inComment := false;
      }
    }
    assert r + "" == r;
  }

  method SkipWord(text: string, p: nat) returns (q: nat)
    requires p <= |text|
    ensures p <= q <= |text| && q == p + WordLen(text[p..])
  {
    q := p;
    while q < |text| && !IsSpace(text[q])
      invariant p <= q <= |text| && q + WordLen(text[q..]) == p + WordLen(text[p..])
    {
      assert text[q..][0] == text[q] && text[q..][1..] == text[q + 1..];
      q := q + 1;
    }
    assert q < |text| ==> text[q..][0] == text[q];
  }

  /** A list that grows at its head. */
  ghost function Reversed(rs: seq<AvRule>): (r: seq<AvRule>)
    ensures |r| == |rs|
  {
    if rs == [] then [] else Reversed(rs[1..]) + [rs[0]]
  }

  lemma {:induction false} ReversedNext(rs: seq<AvRule>, r: AvRule)
    ensures Reversed(rs + [r]) == [r] + Reversed(rs)
  {
    if rs == [] {
      assert (rs + [r])[1..] == [];
    } else {
      assert (rs + [r])[1..] == rs[1..] + [r];
      ReversedNext(rs[1..], r);
      assert Reversed(rs + [r]) == ([r] + Reversed(rs[1..])) + [rs[0]];
    }
  }

  /** One word of the keyword loop, after the rules read so far. */
  lemma RulesRound(policy: Policy, classes: Classes, s: string, done: seq<AvRule>)
    ensures var s1 := SkipSpace(s);
      var n := WordLen(s1);
      && (s1 == "" ==> After(done, Rules(policy, classes, s)) == Some(done))
      && (s1 != "" && s1[..n] != NEVERALLOW ==> Rules(policy, classes, s) == Rules(policy, classes, s1[n..]))
      && (s1 != "" && s1[..n] == NEVERALLOW ==>
        var rule := RuleRead(policy, classes, s1[n..]);
        After(done, Rules(policy, classes, s))
          == if rule.None? then None else After(done + [rule.value.0], Rules(policy, classes, rule.value.1)))
  {
    hide RuleRead, SkipSpace, WordLen;
    var s1 := SkipSpace(s);
    if s1 == "" {
      assert done + [] == done;
    } else {
      var n := WordLen(s1);
      if s1[..n] == NEVERALLOW {
        var rule := RuleRead(policy, classes, s1[n..]);
        if rule.Some? && Rules(policy, classes, rule.value.1).Some? {
          var more := Rules(policy, classes, rule.value.1).value;
          assert done + ([rule.value.0] + more) == done + [rule.value.0] + more;
        }
      }
    }
  }

  lemma AfterNothing(r: Option<seq<AvRule>>)
    ensures After([], r) == r && Reversed([]) == []
  {
    if r.Some? {
      assert [] + r.value == r.value;
    }
  }

  lemma RulesEnd(policy: Policy, classes: Classes, done: seq<AvRule>)
    ensures After(done, Rules(policy, classes, "")) == Some(done) && After(done, None) == None
  {
    assert done + [] == done;
  }

  lemma FoundAre(done: seq<AvRule>)
    ensures Found(Some(done)) == if Reversed(done) == [] then None else Some(Reversed(done))
    ensures Found(None) == None
  {
  }

  lemma WordMoves(s: string)
    ensures s != "" && !IsSpace(s[0]) ==> WordLen(s) > 0
  {
  }

  /** `check_neverallows` up to the call of `check_assertions`: the list of rules, the last one first,
      or an error, also where there is no rule. */
  method ParseNeverallows(policy: Policy, classes: Classes, text: string) returns (r: Option<seq<AvRule>>)
    requires ClassesOk(classes)
    ensures r == Found(Rules(policy, classes, Strip(text, false)))
  {
    hide Rules, RuleRead, Strip, ClassesOk, SkipSpace, WordLen, Reversed, After;
    var stripped := StripComments(text);
    var neverallows, p := [], 0;
    ghost var done := [];
    AfterNothing(Rules(policy, classes, stripped));
    assert stripped[0..] == stripped;
    while p < |stripped|
      invariant p <= |stripped| && neverallows == Reversed(done)
      invariant Rules(policy, classes, stripped) == After(done, Rules(policy, classes, stripped[p..]))
    {
      RulesRound(policy, classes, stripped[p..], done);
      var start := SkipSpaces(stripped, p);
      var next := SkipWord(stripped, start);
      assert stripped[start..][..next - start] == stripped[start..next] && stripped[start..][next - start..] == stripped[next..];
      WordMoves(stripped[start..]);
      RulesEnd(policy, classes, done);
      assert stripped[|stripped|..] == "";
      p := next;
      if stripped[start..next] != NEVERALLOW {
        continue;
      }
      var ok, rule, after := ReadRule(policy, classes, stripped, next);
      if !ok {
        return None;
      }
      ReversedNext(done, rule);
      neverallows, done, p := [rule] + neverallows, done + [rule], after;
    }
    RulesEnd(policy, classes, done);
    FoundAre(done);
    assert stripped[|stripped|..] == "";
    r := if neverallows == [] then None else Some(neverallows);
  }

  ghost function Found(r: Option<seq<AvRule>>): Option<seq<AvRule>> {
    if r.None? || r.value == [] then None else Some(Reversed(r.value))
  }
}
