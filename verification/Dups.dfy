/** Duplicate allow rules (tools/sepolicy-analyze/dups.c): which pairs of rules are reported, and what
    happens when the reported rules are removed. Types and attributes are numbered from 0. */
module Dups {
  type Perms = set<nat>

  /** An entry of the access vector table; `kind` is its `specified` field, and 1 is AVTAB_ALLOWED. */
  datatype Rule = Rule(kind: nat, source: nat, target: nat, cls: nat, perms: Perms)

  const ALLOWED: nat := 1

  /** For every number: whether it is an attribute, the entry of `type_attr_map`, and the types it
      stands for when a rule is expanded. */
  datatype Policy = Policy(isAttr: seq<bool>, typeAttrs: seq<set<nat>>, members: seq<set<nat>>)

  /** The two maps are dual; a type stands for itself, and the entry of an attribute holds only itself. */
  ghost predicate Dual(p: Policy) {
    && |p.typeAttrs| == |p.isAttr| && |p.members| == |p.isAttr|
    && (forall t, a | 0 <= t < |p.isAttr| && !p.isAttr[t] && 0 <= a < |p.isAttr| :: a in p.typeAttrs[t] <==> t in p.members[a])
    && (forall t | 0 <= t < |p.isAttr| :: if p.isAttr[t] then p.typeAttrs[t] == {t} else p.members[t] == {t})
    && (forall a, m | 0 <= a < |p.isAttr| && m in p.members[a] :: m < |p.isAttr| && !p.isAttr[m])
    && (forall t, a | 0 <= t < |p.isAttr| && a in p.typeAttrs[t] :: a < |p.isAttr|)
  }

  predicate InPolicy(p: Policy, r: Rule) {
    r.source < |p.isAttr| && r.target < |p.isAttr|
  }

  ghost predicate TableOk(p: Policy, table: seq<Rule>) {
    Dual(p) && forall r | r in table :: InPolicy(p, r)
  }

  /** A rule between two types. */
  predicate TypeOnly(p: Policy, r: Rule)
    requires InPolicy(p, r)
  {
    !p.isAttr[r.source] && !p.isAttr[r.target]
  }

  // ---------------------------------------------------------------------------------------
  // The search

  /** The tests of `find_dups_helper` for a rule k and a rule n that was looked up. */
  ghost predicate Reported(p: Policy, k: Rule, n: Rule)
    requires Dual(p) && InPolicy(p, k) && InPolicy(p, n)
  {
    && k.kind == ALLOWED && n.kind == k.kind && n.cls == k.cls && k.source != k.target && n.source != n.target
    && n.source in p.typeAttrs[k.source] && n.target in p.typeAttrs[k.target]
    && !(n.source == k.source && n.target == k.target)
    && !(!TypeOnly(p, k) && !TypeOnly(p, n))
    && ((!TypeOnly(p, k) && n.perms * k.perms == n.perms) || (!TypeOnly(p, n) && n.perms * k.perms == k.perms))
  }

  /** `find_dups_helper`: the rules reported together with k. */
  method FindDupsHelper(p: Policy, table: seq<Rule>, k: Rule) returns (dups: seq<Rule>)
    requires TableOk(p, table) && k in table
    ensures forall n :: n in dups <==> n in table && Reported(p, k, n)
  {
    dups := [];
    if k.kind != ALLOWED {
      return;
    }
    if k.source == k.target {
      return;
    }
    var sattr, tattr := p.typeAttrs[k.source], p.typeAttrs[k.target];
    var attrib1 := p.isAttr[k.source] || p.isAttr[k.target];
    for i := 0 to |p.isAttr|
      invariant forall n :: n in dups <==> n in table && Reported(p, k, n) && n.source < i
    {
      ghost var before := dups;
      if i !in sattr {
        continue;
      }
      for j := 0 to |p.isAttr|
        invariant forall n :: n in dups <==> n in before || (n in table && Reported(p, k, n) && n.source == i && n.target < j)
      {
        if j !in tattr {
          continue;
        }
        var more := LookUp(p, table, k, i, j, attrib1);
        dups := dups + more;
      }
    }
  }

  /** The innermost part, for one pair of numbers. */
  method LookUp(p: Policy, table: seq<Rule>, k: Rule, i: nat, j: nat, attrib1: bool) returns (dups: seq<Rule>)
    requires TableOk(p, table) && k in table && k.kind == ALLOWED && k.source != k.target
    requires i in p.typeAttrs[k.source] && j in p.typeAttrs[k.target] && attrib1 == !TypeOnly(p, k)
    requires i < |p.isAttr| && j < |p.isAttr|
    ensures forall n :: n in dups <==> n in table && Reported(p, k, n) && n.source == i && n.target == j
  {
    dups := [];
    if i == k.source && j == k.target {
      return;
    }
    if i == j {
      return;
    }
    var attrib2 := p.isAttr[i] || p.isAttr[j];
    if attrib1 && attrib2 {
      return;
    }
    for m := 0 to |table|
      invariant forall n :: n in dups <==> n in table[..m] && Reported(p, k, n) && n.source == i && n.target == j
    {
      var node := table[m];
      assert table[..m + 1] == table[..m] + [node];
      if node.source != i || node.target != j || node.cls != k.cls || node.kind != k.kind {
        continue;
      }
      var perms := node.perms * k.perms;
      if (attrib1 && perms == node.perms) || (attrib2 && perms == k.perms) {
        dups := dups + [node];
      }
    }
    assert table[..|table|] == table;
  }

  // ---------------------------------------------------------------------------------------
  // What the reports mean

  datatype Access = Access(source: nat, target: nat, cls: nat, perm: nat)

  /** The access that a rule allows once its attributes are expanded. */
  ghost function Expanded(p: Policy, r: Rule): set<Access>
    requires Dual(p) && InPolicy(p, r)
  {
    if r.kind != ALLOWED then {}
    else set s, t, b | s in p.members[r.source] && t in p.members[r.target] && b in r.perms :: Access(s, t, r.cls, b)
  }

  ghost predicate Allows(p: Policy, rules: set<Rule>, a: Access)
    requires Dual(p) && forall r | r in rules :: InPolicy(p, r)
  {
    exists r :: r in rules && a in Expanded(p, r)
  }

  /** Only a rule between types is reported as a duplicate, and always of an attribute-based rule: the
      other direction of the test can never hold. */
  lemma OnlyTypeRulesAreReported(p: Policy, k: Rule, n: Rule)
    requires Dual(p) && InPolicy(p, k) && InPolicy(p, n) && Reported(p, k, n)
    ensures TypeOnly(p, k) && !TypeOnly(p, n)
  {
  }

  /** Which pairs are reported, in terms of the numbers and bits: an allow rule between two types, and an
      allow rule for the same class with an attribute, whose source and target stand for these types and
      whose permissions include its own; neither is a self rule. */
  lemma ReportedExactly(p: Policy, k: Rule, n: Rule)
    requires Dual(p) && InPolicy(p, k) && InPolicy(p, n)
    ensures Reported(p, k, n)
      <==> (
        && k.kind == 1 && n.kind == 1 && k.cls == n.cls && !p.isAttr[k.source] && !p.isAttr[k.target]
        && (p.isAttr[n.source] || p.isAttr[n.target]) && k.source in p.members[n.source] && k.target in p.members[n.target]
        && k.source != k.target && n.source != n.target && k.perms <= n.perms)
  {
    assert n.perms * k.perms == k.perms <==> k.perms <= n.perms;
    if Reported(p, k, n) {
      OnlyTypeRulesAreReported(p, k, n);
    }
  }

  /** A rule with permissions is reported with another one exactly if it is a rule between types, the other
      one is attribute-based, neither is a self rule, and the other one allows everything that it allows. In
      particular the test for an attribute-based rule within a rule between types never holds. */
  lemma ReportedIsCovered(p: Policy, k: Rule, n: Rule)
    requires Dual(p) && InPolicy(p, k) && InPolicy(p, n) && k.perms != {}
    ensures Reported(p, k, n)
      <==> k.kind == 1 && TypeOnly(p, k) && !TypeOnly(p, n) && k.source != k.target && n.source != n.target && Expanded(p, k) <= Expanded(p, n)
  {
    if Reported(p, k, n) {
      OnlyTypeRulesAreReported(p, k, n);
      assert k.perms == n.perms * k.perms;
    }
    if k.kind == 1 && TypeOnly(p, k) && !TypeOnly(p, n) && Expanded(p, k) <= Expanded(p, n) {
      ExpandedTypeRule(p, k);
      forall b | b in k.perms ensures b in n.perms && k.cls == n.cls && k.source in p.members[n.source] && k.target in p.members[n.target] {
        assert Access(k.source, k.target, k.cls, b) in Expanded(p, n);
      }
      var b :| b in k.perms;
      assert n.perms * k.perms == k.perms;
    }
  }

  lemma ExpandedTypeRule(p: Policy, k: Rule)
    requires Dual(p) && InPolicy(p, k) && k.kind == ALLOWED && TypeOnly(p, k)
    ensures forall b | b in k.perms :: Access(k.source, k.target, k.cls, b) in Expanded(p, k)
  {
    assert k.source in p.members[k.source] && k.target in p.members[k.target];
  }

  lemma CoveringAllows(p: Policy, k: Rule, n: Rule, a: Access)
    requires Dual(p) && InPolicy(p, k) && InPolicy(p, n) && Reported(p, k, n) && a in Expanded(p, k)
    ensures a in Expanded(p, n)
  {
    OnlyTypeRulesAreReported(p, k, n);
    ReportedIsCovered(p, k, n);
  }

  /** The rules that some other rule of the table makes superfluous. */
  ghost function Superfluous(p: Policy, table: seq<Rule>): set<Rule>
    requires TableOk(p, table)
  {
    set k, n | k in table && n in table && Reported(p, k, n) :: k
  }

  /** Removing all reported rules at once changes nothing of what is allowed. */
  lemma RemovingDupsKeepsAccess(p: Policy, table: seq<Rule>, a: Access)
    requires TableOk(p, table)
    ensures var all := set r | r in table;
      Allows(p, all, a) <==> Allows(p, all - Superfluous(p, table), a)
  {
    hide Reported, Expanded, Dual, TypeOnly;
    var all := set r | r in table;
    if k :| k in all && a in Expanded(p, k) {
      if k in Superfluous(p, table) {
        var n :| n in table && Reported(p, k, n);
        CoveringAllows(p, k, n, a);
        forall m | m in table ensures !Reported(p, n, m) {
          if Reported(p, n, m) {
            OnlyTypeRulesAreReported(p, k, n);
            OnlyTypeRulesAreReported(p, n, m);
            assert false;
          }
        }
        assert n in all - Superfluous(p, table);
      }
    }
  }

  /** A whole run over the table: the rules that are reported are the superfluous ones. */
  method FindDups(p: Policy, table: seq<Rule>) returns (reports: seq<(Rule, Rule)>)
    requires TableOk(p, table)
    ensures forall k, n :: (k, n) in reports <==> k in table && n in table && Reported(p, k, n)
    ensures (set r | r in reports :: r.0) == Superfluous(p, table)
  {
    hide Reported, Dual;
    reports := [];
    for m := 0 to |table|
      invariant forall k, n :: (k, n) in reports <==> k in table[..m] && n in table && Reported(p, k, n)
    {
      var rule := table[m];
      assert table[..m + 1] == table[..m] + [rule];
      var dups := FindDupsHelper(p, table, rule);
      ghost var before := reports;
      for i := 0 to |dups|
        invariant forall k, n :: (k, n) in reports <==> (k, n) in before || (k == rule && n in dups[..i])
      {
        assert dups[..i + 1] == dups[..i] + [dups[i]];
        reports := reports + [(rule, dups[i])];
      }
      assert dups[..|dups|] == dups;
    }
    assert table[..|table|] == table;
    forall k | k in Superfluous(p, table) ensures k in set r | r in reports :: r.0 {
      var n :| k in table && n in table && Reported(p, k, n);
      assert (k, n) in reports && (k, n).0 == k;
    }
  }
}
