/** Type comparison (tools/sepolicy-analyze/typecmp.c): the rule lists of all types, and their
    partition into classes of equivalent types while lists are freed. */
module TypeCmp {
  import opened RuleLists

  // ---------------------------------------------------------------------------------------
  // Filling the lists

  /** A node of an expanded access vector table; types are numbered from 1. */
  datatype AvRule = AvRule(source: nat, target: nat, cls: nat, allowed: bool, enabled: bool, perms: Perms)

  /** What the two callbacks pass on: allow rules, and of the conditional table the enabled ones. */
  predicate Taken(r: AvRule, cond: bool) {
    r.allowed && (cond ==> r.enabled)
  }

  /** The entries that a rule makes in the list of the type v: the type's own number cleared, so
      that the lists of different types can be compared. */
  ghost function Entries(r: AvRule, v: nat): seq<Rule> {
    (if r.source == v then [Rule(Key(0, if r.source == r.target then 0 else r.target, r.cls), r.perms)] else []) +
    (if r.target == v && r.source != r.target then [Rule(Key(r.source, 0, r.cls), r.perms)] else [])
  }

  /** All entries of a table in the list of the type v. */
  ghost function Profile(table: seq<AvRule>, cond: bool, v: nat): seq<Rule> {
    if table == [] then []
    else (if Taken(table[0], cond) then Entries(table[0], v) else []) + Profile(table[1..], cond, v)
  }

  ghost predicate TableOk(table: seq<AvRule>, nprim: nat) {
    forall r | r in table :: 1 <= r.source <= nprim && 1 <= r.target <= nprim
  }

  /** The lists after one rule: into the list of its source, and of its target if that differs. */
  ghost function AddRule(c: seq<seq<Rule>>, r: AvRule): (c': seq<seq<Rule>>)
    requires 1 <= r.source <= |c| && 1 <= r.target <= |c|
    ensures |c'| == |c|
  {
    var s, t := r.source - 1, r.target - 1;
    if s == t then c[s := Insert(c[s], Rule(Key(0, 0, r.cls), r.perms))]
    else
      var c' := c[s := Insert(c[s], Rule(Key(0, r.target, r.cls), r.perms))];
      c'[t := Insert(c'[t], Rule(Key(r.source, 0, r.cls), r.perms))]
  }

  ghost function AddTable(c: seq<seq<Rule>>, table: seq<AvRule>, cond: bool): (c': seq<seq<Rule>>)
    requires TableOk(table, |c|)
    ensures |c'| == |c|
    decreases |table|
  {
    if table == [] then c
    else
      assert table[0] in table && forall r | r in table[1..] :: r in table;
      AddTable(if Taken(table[0], cond) then AddRule(c, table[0]) else c, table[1..], cond)
  }

  /** The list of each type collects exactly the entries of its own profile. */
  lemma {:induction false} TableFillsProfiles(c: seq<seq<Rule>>, table: seq<AvRule>, cond: bool, v: nat)
    requires TableOk(table, |c|) && 1 <= v <= |c|
    ensures AddTable(c, table, cond)[v - 1] == InsertAll(c[v - 1], Profile(table, cond, v))
    decreases |table|
  {
    hide AddRule, Entries, InsertAll, Taken;
    if table == [] {
      InsertNothing(c[v - 1]);
    } else {
      var r := table[0];
      assert r in table && forall x | x in table[1..] :: x in table;
      var entries, rest := Entries(r, v), Profile(table[1..], cond, v);
      AddRuleFills(c, r, v);
      InsertAllAppend(c[v - 1], entries, rest);
      assert [] + rest == rest;
      TableFillsProfiles(if Taken(r, cond) then AddRule(c, r) else c, table[1..], cond, v);
    }
  }

  lemma InsertNothing(rs: seq<Rule>)
    ensures InsertAll(rs, []) == rs
  {
  }

  lemma AddRuleFills(c: seq<seq<Rule>>, r: AvRule, v: nat)
    requires 1 <= r.source <= |c| && 1 <= r.target <= |c| && 1 <= v <= |c|
    ensures |AddRule(c, r)| == |c| && AddRule(c, r)[v - 1] == InsertAll(c[v - 1], Entries(r, v))
  {
    hide InsertAll, Entries, Insert;
    InsertEntries(c[v - 1], r, v);
  }

  lemma InsertEntries(rs: seq<Rule>, r: AvRule, v: nat)
    ensures r.source == v && r.target == v ==> InsertAll(rs, Entries(r, v)) == Insert(rs, Rule(Key(0, 0, r.cls), r.perms))
    ensures r.source == v && r.target != v ==> InsertAll(rs, Entries(r, v)) == Insert(rs, Rule(Key(0, r.target, r.cls), r.perms))
    ensures r.source != v && r.target == v ==> InsertAll(rs, Entries(r, v)) == Insert(rs, Rule(Key(r.source, 0, r.cls), r.perms))
    ensures r.source != v && r.target != v ==> InsertAll(rs, Entries(r, v)) == rs
  {
    forall x: Rule ensures InsertAll(rs, [x]) == Insert(rs, x) {
      assert [x][1..] == [];
    }
  }

  lemma {:induction false} InsertAllAppend(rs: seq<Rule>, xs: seq<Rule>, ys: seq<Rule>)
    ensures InsertAll(rs, xs + ys) == InsertAll(InsertAll(rs, xs), ys)
    decreases |xs|
  {
    if xs == [] {
      assert xs + ys == ys;
    } else {
      assert (xs + ys)[1..] == xs[1..] + ys;
      InsertAllAppend(Insert(rs, xs[0]), xs[1..], ys);
    }
  }

  /** The rule r gives the type v an entry with key k. */
  ghost predicate Matches(r: AvRule, v: nat, k: Key) {
    (r.source == v && k == Key(0, if r.target == v then 0 else r.target, r.cls)) ||
    (r.target == v && r.source != v && k == Key(r.source, 0, r.cls))
  }

  /** A profile is all that the taken rules allow the type, as source or as target. */
  lemma {:induction false} ProfileMeans(table: seq<AvRule>, cond: bool, v: nat, k: Key, p: nat)
    ensures p in PermsAt(Profile(table, cond, v), k)
      <==> exists r :: r in table && Taken(r, cond) && Matches(r, v, k) && p in r.perms
  {
    if table != [] {
      var r, rest := table[0], table[1..];
      ProfileMeans(rest, cond, v, k, p);
      var here := if Taken(r, cond) then Entries(r, v) else [];
      assert table == [r] + rest;
      assert p in PermsAt(here + Profile(rest, cond, v), k) <==> p in PermsAt(here, k) || p in PermsAt(Profile(rest, cond, v), k) by {
        hide Profile;
      }
      assert p in PermsAt(here, k) <==> Taken(r, cond) && Matches(r, v, k) && p in r.perms by {
        EntriesMean(r, v, k, p);
      }
    }
  }

  lemma EntryKeys(r: AvRule, v: nat, k: Key)
    ensures k in Keys(Entries(r, v)) <==> Matches(r, v, k)
    ensures Keys([]) == {}
  {
    if Matches(r, v, k) {
      assert Rule(k, r.perms) in Entries(r, v);
    }
  }

  lemma KeysAppend(xs: seq<Rule>, ys: seq<Rule>)
    ensures Keys(xs + ys) == Keys(xs) + Keys(ys)
  {
    assert forall r :: r in xs + ys <==> r in xs || r in ys;
  }

  /** The same for the keys, which a rule without permissions has as well. */
  lemma {:induction false} ProfileKeys(table: seq<AvRule>, cond: bool, v: nat, k: Key)
    ensures k in Keys(Profile(table, cond, v)) <==> exists r :: r in table && Taken(r, cond) && Matches(r, v, k)
  {
    hide Keys, Entries, Matches, Taken;
    if table == [] {
      EntryKeys(AvRule(0, 0, 0, false, false, {}), v, k);
    } else {
      var r, rest := table[0], table[1..];
      ProfileKeys(rest, cond, v, k);
      KeysAppend(if Taken(r, cond) then Entries(r, v) else [], Profile(rest, cond, v));
      EntryKeys(r, v, k);
      assert table == [r] + rest;
    }
  }

  /** The entries of a table that can count: those that are allow rules, and enabled in the conditional table. */
  ghost function Counting(table: seq<AvRule>, cond: bool): seq<AvRule> {
    if table == [] then []
    else (if !table[0].allowed || (cond && !table[0].enabled) then [] else [table[0]]) + Counting(table[1..], cond)
  }

  /** The others leave no trace in any list. */
  lemma {:induction false} OthersLeaveNoTrace(table: seq<AvRule>, cond: bool, v: nat)
    ensures Profile(Counting(table, cond), cond, v) == Profile(table, cond, v)
  {
    hide Entries;
    if table != [] {
      OthersLeaveNoTrace(table[1..], cond, v);
      var rest := Counting(table[1..], cond);
      assert ([table[0]] + rest)[1..] == rest && [] + rest == rest;
      assert forall es: seq<Rule> :: [] + es == es;
    }
  }

  lemma EntriesMean(r: AvRule, v: nat, k: Key, p: nat)
    ensures p in PermsAt(Entries(r, v), k) <==> Matches(r, v, k) && p in r.perms
    ensures p !in PermsAt([], k)
  {
    if Matches(r, v, k) {
      assert Rule(k, r.perms) in Entries(r, v);
    }
  }

  /** The array of lists, one for each type. */
  class TypeRules {
    const lists: seq<RuleList>
    ghost var repr: set<object>

    ghost predicate Valid()
      reads this, repr
    {
      && this in repr
      && (forall i | 0 <= i < |lists| :: lists[i] in repr && lists[i].repr <= repr && this !in lists[i].repr && lists[i].Valid())
      && (forall i, j | 0 <= i < j < |lists| :: lists[i].repr !! lists[j].repr)
    }

    ghost function Contents(): (c: seq<seq<Rule>>)
      requires Valid()
      reads this, repr
      ensures |c| == |lists|
    {
      seq(|lists|, i requires 0 <= i < |lists| && Valid() reads this, repr => lists[i].Rules())
    }

    constructor (ls: seq<RuleList>, ghost all: set<object>)
      requires Apart(ls, all)
      ensures Valid() && repr == all + {this} && lists == ls
    {
      lists := ls;
      repr := all + {this};
    }

    static ghost predicate Apart(ls: seq<RuleList>, all: set<object>)
      reads all
    {
      && (forall i | 0 <= i < |ls| :: ls[i] in all && ls[i].repr <= all && ls[i].Valid())
      && (forall i, j | 0 <= i < j < |ls| :: ls[i].repr !! ls[j].repr)
    }

    /** The cleared array of headers. */
    static method Allocate(nprim: nat) returns (t: TypeRules)
      ensures t.Valid() && fresh(t.repr) && |t.lists| == nprim && forall v | 0 <= v < nprim :: t.Contents()[v] == []
    {
      var ls: seq<RuleList> := [];
      ghost var all: set<object> := {};
      while |ls| < nprim
        invariant |ls| <= nprim && fresh(all) && Apart(ls, all)
        invariant forall i | 0 <= i < |ls| :: ls[i].Rules() == []
      {
        var l := new RuleList();
        ls := ls + [l];
        all := all + l.repr;
      }
      t := new TypeRules(ls, all);
    }

    /** `insert_type_rule` on the list with the given index. */
    method InsertInto(v: nat, k: Key, d: Perms)
      requires Valid() && v < |lists|
      modifies repr
      ensures Valid() && fresh(repr - old(repr))
      ensures Contents() == old(Contents())[v := Insert(old(Contents())[v], Rule(k, d))]
    {
      lists[v].InsertTypeRule(k, d);
      repr := repr + lists[v].repr;
      assert forall i | 0 <= i < |lists| && i != v :: lists[i].repr !! lists[v].repr;
    }

    method ClearList(v: nat)
      requires Valid() && v < |lists|
      modifies repr
      ensures Valid() && repr == old(repr) && Contents() == old(Contents())[v := []]
    {
      lists[v].Clear();
    }

    /** `create_type_rules_helper` on one taken rule. */
    method AddToTypes(r: AvRule)
      requires Valid() && 1 <= r.source <= |lists| && 1 <= r.target <= |lists|
      modifies repr
      ensures Valid() && fresh(repr - old(repr)) && Contents() == AddRule(old(Contents()), r)
    {
      hide Valid, Contents, Insert;
      var key := Key(0, r.target, r.cls);
      if r.source == r.target {
        key := key.(target := 0);
      }
      InsertInto(r.source - 1, key, r.perms);
      if r.source == r.target {
        return;
      }
      key := Key(r.source, 0, r.cls);
      InsertInto(r.target - 1, key, r.perms);
    }

    /** One of the two tables, node by node. */
    method CreateTypeRules(table: seq<AvRule>, cond: bool)
      requires Valid() && TableOk(table, |lists|)
      modifies repr
      ensures Valid() && fresh(repr - old(repr)) && Contents() == AddTable(old(Contents()), table, cond)
    {
      hide Valid, Contents, AddRule;
      assert table[0..] == table;
      for i := 0 to |table|
        invariant Valid() && fresh(repr - old(repr)) && TableOk(table[i..], |lists|)
        invariant AddTable(Contents(), table[i..], cond) == AddTable(old(Contents()), table, cond)
      {
        assert table[i] in table[i..] && table[i..][1..] == table[i + 1..];
        if Taken(table[i], cond) {
          AddToTypes(table[i]);
        }
      }
    }
  }
}
