/** The per-type rule lists of tools/sepolicy-analyze/typecmp.c: what a list of rules stands for,
    and the sorted linked list that holds it. Access vectors are sets of permission bits; the
    source only ever combines them with `|`, `&` and `~`. */
module RuleLists {
  type Perms = set<nat>

  datatype Key = Key(source: nat, target: nat, cls: nat)
  datatype Rule = Rule(key: Key, perms: Perms)

  /** The order of a list: by source type, then target type, then class. */
  predicate KeyBefore(a: Key, b: Key) {
    a.source < b.source || (a.source == b.source &&
      (a.target < b.target || (a.target == b.target && a.cls < b.cls)))
  }

  ghost predicate Ordered(rs: seq<Rule>) {
    forall i, j | 0 <= i < j < |rs| :: KeyBefore(rs[i].key, rs[j].key)
  }

  // ---------------------------------------------------------------------------------------
  // What rules stand for: the keys they mention, and the permissions allowed under each

  ghost function Keys(rs: seq<Rule>): set<Key> {
    set r | r in rs :: r.key
  }

  ghost function PermsAt(rs: seq<Rule>, k: Key): Perms {
    set r, p | r in rs && r.key == k && p in r.perms :: p
  }

  ghost predicate SameAccess(a: seq<Rule>, b: seq<Rule>) {
    Keys(a) == Keys(b) && forall k :: PermsAt(a, k) == PermsAt(b, k)
  }

  /** Insertion into a list: merged with a rule of the same key, or put in its place. */
  ghost function Insert(rs: seq<Rule>, r: Rule): seq<Rule> {
    if rs == [] then [r]
    else if r.key == rs[0].key then [Rule(r.key, rs[0].perms + r.perms)] + rs[1..]
    else if KeyBefore(r.key, rs[0].key) then [r] + rs
    else [rs[0]] + Insert(rs[1..], r)
  }

  ghost function InsertAll(rs: seq<Rule>, xs: seq<Rule>): seq<Rule>
    decreases |xs|
  {
    if xs == [] then rs else InsertAll(Insert(rs, xs[0]), xs[1..])
  }

  lemma ConsMeans(r: Rule, rs: seq<Rule>, k: Key)
    ensures Keys([r] + rs) == {r.key} + Keys(rs)
    ensures PermsAt([r] + rs, k) == (if r.key == k then r.perms else {}) + PermsAt(rs, k)
  {
  }

  lemma {:induction false} InsertMeans(rs: seq<Rule>, r: Rule, k: Key)
    ensures Keys(Insert(rs, r)) == Keys(rs) + {r.key}
    ensures PermsAt(Insert(rs, r), k) == PermsAt(rs, k) + if r.key == k then r.perms else {}
    decreases |rs|
  {
    hide Keys, PermsAt, KeyBefore;
    if rs == [] {
      ConsMeans(r, [], k);
      assert [r] + [] == [r];
    } else {
      var rest := rs[1..];
      assert rs == [rs[0]] + rest;
      ConsMeans(rs[0], rest, k);
      ConsMeans(r, rs, k);
      ConsMeans(Rule(r.key, rs[0].perms + r.perms), rest, k);
      InsertMeans(rest, r, k);
      ConsMeans(rs[0], Insert(rest, r), k);
    }
  }

  lemma InsertedFirst(rs: seq<Rule>, r: Rule)
    requires Ordered(rs) && rs != [] && (r.key == rs[0].key || KeyBefore(r.key, rs[0].key))
    ensures Ordered(Insert(rs, r))
    ensures forall x | x in Insert(rs, r) :: x.key == r.key || exists y :: y in rs && y.key == x.key
  {
    var t := Insert(rs, r);
    forall i, j | 0 <= i < j < |t| ensures KeyBefore(t[i].key, t[j].key) {
    }
  }

  lemma PutBefore(rs: seq<Rule>, r: Rule, t: seq<Rule>)
    requires Ordered(rs) && rs != [] && Ordered(t) && r.key != rs[0].key && !KeyBefore(r.key, rs[0].key)
    requires forall x | x in t :: x.key == r.key || exists y :: y in rs[1..] && y.key == x.key
    ensures Ordered([rs[0]] + t)
    ensures forall x | x in [rs[0]] + t :: x.key == r.key || exists y :: y in rs && y.key == x.key
  {
    forall x | x in t ensures KeyBefore(rs[0].key, x.key) {
      if x.key != r.key {
        var y :| y in rs[1..] && y.key == x.key;
      }
    }
  }

  lemma {:induction false} InsertOrdered(rs: seq<Rule>, r: Rule)
    requires Ordered(rs)
    ensures Ordered(Insert(rs, r))
    ensures forall x | x in Insert(rs, r) :: x.key == r.key || exists y :: y in rs && y.key == x.key
    decreases |rs|
  {
    if rs == [] {
    } else if r.key == rs[0].key || KeyBefore(r.key, rs[0].key) {
      InsertedFirst(rs, r);
    } else {
      assert Ordered(rs[1..]);
      InsertOrdered(rs[1..], r);
      PutBefore(rs, r, Insert(rs[1..], r));
    }
  }

  lemma NothingMeans(rs: seq<Rule>)
    ensures Keys(rs) + Keys([]) == Keys(rs) && forall k :: PermsAt(rs, k) + PermsAt([], k) == PermsAt(rs, k)
  {
    assert Keys([]) == {} && forall k :: PermsAt([], k) == {};
  }

  lemma {:induction false} InsertAllMeans(rs: seq<Rule>, xs: seq<Rule>)
    requires Ordered(rs)
    ensures Ordered(InsertAll(rs, xs)) && Keys(InsertAll(rs, xs)) == Keys(rs) + Keys(xs)
    ensures forall k :: PermsAt(InsertAll(rs, xs), k) == PermsAt(rs, k) + PermsAt(xs, k)
    decreases |xs|
  {
    hide Keys, PermsAt, Insert, Ordered;
    if xs == [] {
      NothingMeans(rs);
    } else {
      InsertOrdered(rs, xs[0]);
      InsertAllMeans(Insert(rs, xs[0]), xs[1..]);
      assert xs == [xs[0]] + xs[1..];
      InsertMeans(rs, xs[0], xs[0].key);
      ConsMeans(xs[0], xs[1..], xs[0].key);
      forall k ensures PermsAt(InsertAll(rs, xs), k) == PermsAt(rs, k) + PermsAt(xs, k) {
        InsertMeans(rs, xs[0], k);
        ConsMeans(xs[0], xs[1..], k);
      }
    }
  }

  lemma LeastKey(a: seq<Rule>, b: seq<Rule>)
    requires Ordered(a) && Ordered(b) && a != [] && b != [] && Keys(a) == Keys(b)
    ensures a[0].key == b[0].key
  {
    assert a[0].key in Keys(a) && b[0].key in Keys(b);
    var x :| x in b && x.key == a[0].key;
    var y :| y in a && y.key == b[0].key;
  }

  /** Ordered lists are equal node by node exactly when they stand for the same access. */
  lemma {:induction false} OrderedIsCanonical(a: seq<Rule>, b: seq<Rule>)
    requires Ordered(a) && Ordered(b)
    ensures a == b <==> SameAccess(a, b)
    decreases |a|
  {
    if SameAccess(a, b) {
      if a == [] || b == [] {
        assert forall rs: seq<Rule> | rs != [] :: rs[0].key in Keys(rs);
      } else {
        LeastKey(a, b);
        HeadPerms(a);
        HeadPerms(b);
        TailAccess(a, b);
        OrderedIsCanonical(a[1..], b[1..]);
        assert a == [a[0]] + a[1..] && b == [b[0]] + b[1..];
      }
    }
  }

  lemma HeadPerms(a: seq<Rule>)
    requires Ordered(a) && a != []
    ensures PermsAt(a, a[0].key) == a[0].perms && a[0].key !in Keys(a[1..]) && PermsAt(a[1..], a[0].key) == {}
    ensures Keys(a) == {a[0].key} + Keys(a[1..])
    ensures forall k | k != a[0].key :: PermsAt(a[1..], k) == PermsAt(a, k)
  {
    assert a == [a[0]] + a[1..];
    assert a[0].key !in Keys(a[1..]) by {
      forall r | r in a[1..] ensures r.key != a[0].key {
        var i :| 0 <= i < |a[1..]| && a[1..][i] == r;
        assert KeyBefore(a[0].key, a[i + 1].key);
      }
    }
    forall k ensures PermsAt(a, k) == (if a[0].key == k then a[0].perms else {}) + PermsAt(a[1..], k)
                  && (k == a[0].key ==> PermsAt(a[1..], k) == {}) {
      ConsMeans(a[0], a[1..], k);
    }
  }

  lemma TailAccess(a: seq<Rule>, b: seq<Rule>)
    requires Ordered(a) && Ordered(b) && a != [] && b != [] && SameAccess(a, b) && a[0].key == b[0].key
    ensures SameAccess(a[1..], b[1..])
  {
    HeadPerms(a);
    HeadPerms(b);
    hide PermsAt, Keys, Ordered;
    forall k ensures PermsAt(a[1..], k) == PermsAt(b[1..], k) {
      assert PermsAt(a, k) == PermsAt(b, k);
    }
  }

  /** The list that any sequence of insertions leads to depends on the access inserted alone: not
      on the order of the insertions, nor on how access to one key is split up among them. */
  lemma InsertionOrderIsIrrelevant(xs: seq<Rule>, ys: seq<Rule>)
    ensures InsertAll([], xs) == InsertAll([], ys) <==> SameAccess(xs, ys)
  {
    InsertAllMeans([], xs);
    InsertAllMeans([], ys);
    OrderedIsCanonical(InsertAll([], xs), InsertAll([], ys));
    hide InsertAll, Ordered;
    assert Keys([]) == {} && forall k :: PermsAt([], k) == {};
    assert {} + Keys(xs) == Keys(xs) && {} + Keys(ys) == Keys(ys);
    forall k ensures PermsAt(InsertAll([], xs), k) == PermsAt(xs, k) && PermsAt(InsertAll([], ys), k) == PermsAt(ys, k) {
      assert PermsAt([], k) == {};
    }
  }

  // ---------------------------------------------------------------------------------------
  // The linked list

  function Splice(s: seq<RuleNode>, n: RuleNode, i: nat): (t: seq<RuleNode>)
    requires i <= |s|
    ensures |t| == |s| + 1
    ensures forall j | 0 <= j < |t| :: t[j] == if j < i then s[j] else if j == i then n else s[j - 1]
  {
    s[..i] + [n] + s[i..]
  }

  lemma SpliceDiffers(s: seq<RuleNode>, n: RuleNode, i: nat)
    requires i <= |s| && (forall j | 0 <= j < |s| :: s[j] != n) && forall j, k | 0 <= j < k < |s| :: s[j] != s[k]
    ensures forall j, k | 0 <= j < k <= |s| :: Splice(s, n, i)[j] != Splice(s, n, i)[k]
  {
  }

  class RuleNode {
    var key: Key
    var perms: Perms
    var next: RuleNode?

    constructor (key: Key, perms: Perms, next: RuleNode?)
      ensures this.key == key && this.perms == perms && this.next == next
    {
      this.key, this.perms, this.next := key, perms, next;
    }
  }

  /** One element of the source's array of list headers. */
  class RuleList {
    var first: RuleNode?
    ghost var nodes: seq<RuleNode>
    ghost var repr: set<object>

    ghost predicate Valid()
      reads this, repr
    {
      && this in repr
      && (forall i | 0 <= i < |nodes| :: nodes[i] in repr)
      && (forall i, j | 0 <= i < j < |nodes| :: nodes[i] != nodes[j])
      && first == NodeAt(0)
      && (forall i | 0 <= i < |nodes| :: nodes[i].next == NodeAt(i + 1))
    }

    ghost function NodeAt(i: nat): RuleNode?
      reads this
    {
      if i < |nodes| then nodes[i] else null
    }

    ghost function Rules(): (rs: seq<Rule>)
      reads this, repr
      requires Valid()
      ensures |rs| == |nodes|
    {
      seq(|nodes|, i requires 0 <= i < |nodes| reads this, repr requires Valid() => Rule(nodes[i].key, nodes[i].perms))
    }

    constructor ()
      ensures Valid() && Rules() == [] && fresh(repr)
    {
      first := null;
      nodes := [];
      repr := {this};
    }

    /** The insertion point for a key: the first node that does not come before it, the node in
        front of that, and its place in the list. */
    method Walk(k: Key) returns (p: RuleNode?, c: RuleNode?, ghost i: nat)
      requires Valid()
      ensures i <= |nodes| && c == NodeAt(i) && p == if i == 0 then null else nodes[i - 1]
      ensures forall j | 0 <= j < i :: k != nodes[j].key && !KeyBefore(k, nodes[j].key)
      ensures c != null ==> k == c.key || KeyBefore(k, c.key)
    {
      p, c, i := null, first, 0;
      while c != null
        invariant i <= |nodes| && c == NodeAt(i) && p == (if i == 0 then null else nodes[i - 1])
        invariant forall j | 0 <= j < i :: k != nodes[j].key && !KeyBefore(k, nodes[j].key)
        decreases |nodes| - i
      {
        if k.source < c.key.source {
          break;
        }
        if k.source == c.key.source && k.target < c.key.target {
          break;
        }
        if k.source == c.key.source && k.target == c.key.target && k.cls <= c.key.cls {
          break;
        }
        p, c, i := c, c.next, i + 1;
      }
    }

    method LinkFront(n: RuleNode)
      requires Valid() && n.next == first && n !in repr
      modifies this
      ensures Valid() && nodes == [n] + old(nodes) && repr == old(repr) + {n}
    {
      first := n;
      nodes := [n] + nodes;
      repr := repr + {n};
    }

    method LinkAfter(p: RuleNode, n: RuleNode, ghost i: nat)
      requires Valid() && 1 <= i <= |nodes| && p == nodes[i - 1] && n.next == p.next && n !in repr
      modifies this, p`next
      ensures Valid() && nodes == old(nodes)[..i] + [n] + old(nodes)[i..] && repr == old(repr) + {n}
    {
      ghost var before := nodes;
      assert forall j | 0 <= j < |nodes| :: nodes[j] != n;
      ghost var after := Splice(nodes, n, i);
      SpliceDiffers(nodes, n, i);
      p.next := n;
      nodes := after;
      repr := repr + {n};
      assert n.next == if i < |before| then before[i] else null;
    }

    /** Links a node in behind p, or in front if there is none. */
    method LinkNode(p: RuleNode?, n: RuleNode, ghost i: nat)
      requires Valid() && i <= |nodes| && p == (if i == 0 then null else nodes[i - 1]) && n.next == NodeAt(i) && n !in repr
      modifies this, (if p == null then {} else {p})`next
      ensures Valid() && nodes == Splice(old(nodes), n, i) && repr == old(repr) + {n}
    {
      if p == null {
        LinkFront(n);
      } else {
        LinkAfter(p, n, i);
      }
    }

    /** Links a new node in between p and c. */
    method Link(p: RuleNode?, c: RuleNode?, k: Key, d: Perms, ghost i: nat)
      requires Valid() && i <= |nodes| && c == NodeAt(i) && p == if i == 0 then null else nodes[i - 1]
      modifies this, (if p == null then {} else {p})`next
      ensures Valid() && Rules() == old(Rules())[..i] + [Rule(k, d)] + old(Rules())[i..]
      ensures fresh(repr - old(repr))
    {
      hide Valid, NodeAt;
      ghost var was := nodes;
      ghost var rules := Rules();
      var n := new RuleNode(k, d, c);
      LinkNode(p, n, i);
      assert forall j | 0 <= j < |was| :: Rule(was[j].key, was[j].perms) == rules[j];
      assert Rules() == rules[..i] + [Rule(k, d)] + rules[i..];
    }

    method Merge(c: RuleNode, d: Perms, ghost i: nat)
      requires Valid() && i < |nodes| && c == nodes[i]
      modifies c`perms
      ensures Valid() && Rules() == old(Rules())[i := Rule(c.key, old(c.perms) + d)]
    {
      c.perms := c.perms + d;
    }

    /** Inserts a rule: merged into the node with its key, or linked in at the insertion point. */
    method InsertTypeRule(k: Key, d: Perms)
      requires Valid()
      modifies repr
      ensures Valid() && Rules() == Insert(old(Rules()), Rule(k, d)) && fresh(repr - old(repr))
    {
      var p, c, i := Walk(k);
      InsertAt(Rules(), Rule(k, d), i);
      if c != null && k.source == c.key.source && k.target == c.key.target && k.cls == c.key.cls {
        Merge(c, d, i);
        return;
      }
      Link(p, c, k, d, i);
    }

    /** `free_type_rules` and the cleared header. */
    method Clear()
      requires Valid()
      modifies this
      ensures Valid() && Rules() == [] && repr == old(repr)
    {
      first := null;
      nodes := [];
    }
  }

  lemma InsertStep(rs: seq<Rule>, r: Rule)
    ensures Insert(rs, r) ==
      if rs == [] then [r]
      else if r.key == rs[0].key then [Rule(r.key, rs[0].perms + r.perms)] + rs[1..]
      else if KeyBefore(r.key, rs[0].key) then [r] + rs
      else [rs[0]] + Insert(rs[1..], r)
  {
    hide KeyBefore;
  }

  lemma InsertedLater(rs: seq<Rule>, r: Rule, i: nat, tail: seq<Rule>)
    requires 0 < i <= |rs|
    ensures [rs[0]] + (rs[1..][..i - 1] + tail) == rs[..i] + tail
    ensures i < |rs| ==> rs[i := r] == rs[..i] + ([r] + rs[i + 1..])
  {
  }

  lemma {:induction false} InsertAt(rs: seq<Rule>, r: Rule, i: nat)
    requires i <= |rs| && forall j | 0 <= j < i :: r.key != rs[j].key && !KeyBefore(r.key, rs[j].key)
    requires i < |rs| ==> r.key == rs[i].key || KeyBefore(r.key, rs[i].key)
    ensures Insert(rs, r) ==
      if i < |rs| && r.key == rs[i].key then rs[i := Rule(r.key, rs[i].perms + r.perms)]
      else rs[..i] + [r] + rs[i..]
    decreases i
  {
    hide KeyBefore, Insert;
    InsertStep(rs, r);
    if i > 0 {
      InsertAt(rs[1..], r, i - 1);
      InsertedLater(rs, r, i, if i < |rs| && r.key == rs[i].key then [Rule(r.key, rs[i].perms + r.perms)] + rs[i + 1..] else [r] + rs[i..]);
    } else if rs != [] {
      assert rs[0 := Rule(r.key, rs[0].perms + r.perms)] == [Rule(r.key, rs[0].perms + r.perms)] + rs[1..];
      assert rs[..0] + [r] + rs[0..] == [r] + rs;
    }
  }
}
