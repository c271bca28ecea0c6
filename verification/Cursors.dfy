/** The resumable cursors of tests/sepol_wrap.cpp, and the loops of tests/policy.py that empty them.
    A pointer into a linked chain is the rest of the chain from there; null is the empty one. */
module Cursors {
  import opened Options

  /** What a call returns: an entry, the end (for `get_genfs`, the last entry), or an error. */
  const MORE: int := 0
  const LAST: int := 1
  const TOO_LONG: int := -1

  // ---------------------------------------------------------------------------------------
  // Access vector tables

  datatype Entry = Entry(source: nat, target: nat, cls: nat, allowed: bool, perms: set<nat>)

  function AllowedOf(chain: seq<Entry>): seq<Entry> {
    if chain == [] then []
    else (if chain[0].allowed then [chain[0]] else []) + AllowedOf(chain[1..])
  }

  /** The allow entries of the buckets, in order, each chain in its order. */
  function AllowedIn(buckets: seq<seq<Entry>>): seq<Entry> {
    if buckets == [] then [] else AllowedOf(buckets[0]) + AllowedIn(buckets[1..])
  }

  class AvtabIter {
    const table: seq<seq<Entry>>
    var i: nat
    var cur: seq<Entry>

    /** `init_avtab_common` */
    constructor (table: seq<seq<Entry>>)
      ensures this.table == table && Valid() && Rest() == AllowedIn(table)
    {
      this.table := table;
      i, cur := 0, [];
      new;
      assert table[0..] == table;
    }

    ghost predicate Valid()
      reads this
    {
      i <= |table| && (i == |table| ==> cur == [])
    }

    /** The entries still to come. */
    ghost function Rest(): seq<Entry>
      requires Valid()
      reads this
    {
      if i == |table| then []
      else if cur == [] then AllowedIn(table[i..])
      else AllowedOf(cur) + AllowedIn(table[i + 1..])
    }

    /** `get_avtab_allow_rule`; `tooLong` says whose line does not fit the buffer. */
    method GetAllowRule(tooLong: Entry -> bool) returns (ret: int, out: Option<Entry>)
      requires Valid()
      modifies this
      ensures Valid()
      ensures old(Rest()) == [] ==> ret == LAST && out == None && Rest() == []
      ensures old(Rest()) != [] ==> out == Some(old(Rest())[0]) && Rest() == old(Rest())[1..]
      ensures old(Rest()) != [] ==> ret == if tooLong(old(Rest())[0]) then TOO_LONG else MORE
    {
      hide AllowedOf, AllowedIn;
      ghost var rest := Rest();
      while i < |table|
        invariant Valid() && Rest() == rest
        decreases |table| - i
      {
        UnfoldBuckets(table, i);
        if cur == [] {
          cur := table[i];
        }
        ghost var later := AllowedIn(table[i + 1..]);
        NothingAllowed(later);
        assert rest == AllowedOf(cur) + later;
        ghost var bucket := i;
        while cur != []
          invariant i == bucket && later == AllowedIn(table[i + 1..]) && rest == AllowedOf(cur) + later
          decreases |cur|
        {
          UnfoldChain(cur, later);
          if !cur[0].allowed {
            cur := cur[1..];
            continue;
          }
          out := Some(cur[0]);
          ret := if tooLong(cur[0]) then TOO_LONG else MORE;
          cur := cur[1..];
          if cur == [] {
            i := i + 1;
          }
          NothingAllowed(later);
          NothingLeft(table);
          return;
        }
        cur := [];
        i := i + 1;
        NothingLeft(table);
        assert rest == later by { NothingAllowed(later); }
      }
      ret, out := LAST, None;
    }
  }

  lemma UnfoldBuckets(table: seq<seq<Entry>>, i: nat)
    requires i < |table|
    ensures AllowedIn(table[i..]) == AllowedOf(table[i]) + AllowedIn(table[i + 1..])
  {
    assert table[i..][1..] == table[i + 1..];
  }

  lemma UnfoldChain(chain: seq<Entry>, later: seq<Entry>)
    requires chain != []
    ensures AllowedOf(chain) + later == (if chain[0].allowed then [chain[0]] else []) + (AllowedOf(chain[1..]) + later)
  {
  }

  lemma NothingAllowed(later: seq<Entry>)
    ensures AllowedOf([]) + later == later
  {
  }

  lemma NothingLeft(table: seq<seq<Entry>>)
    ensures AllowedIn(table[|table|..]) == []
  {
  }

  /** `__GetTERules`: all allow entries once, in the order of the table, or an exit when a line does
      not fit. A further call would only say again that there is nothing left. */
  method GetTERules(table: seq<seq<Entry>>, tooLong: Entry -> bool) returns (r: Option<seq<Entry>>)
    ensures r.None? <==> exists e :: e in AllowedIn(table) && tooLong(e)
    ensures r.Some? ==> r.value == AllowedIn(table)
  {
    hide AllowedIn, AvtabIter.Rest, AvtabIter.Valid;
    ghost var all := AllowedIn(table);
    var iter := new AvtabIter(table);
    var rules := [];
    while true
      invariant iter.Valid() && fresh(iter) && rules + iter.Rest() == all
      invariant forall i | 0 <= i < |rules| :: !tooLong(rules[i])
      decreases |iter.Rest()|
    {
      ghost var rest := iter.Rest();
      var ret, out := iter.GetAllowRule(tooLong);
      if ret == MORE {
        assert rules + rest == rules + [rest[0]] + rest[1..];
        rules := rules + [out.value];
        continue;
      }
      if ret == LAST {
        assert rest == [] && rules + rest == rules;
        return Some(rules);
      }
      assert all[|rules|] == rest[0] && rest[0] in all;
      return None;
    }
  }

  /** The table holds an allow entry as often as the cursor yields it, and no other entry is yielded. */
  lemma {:induction false} YieldsAsOftenAsHeld(table: seq<seq<Entry>>, e: Entry)
    ensures multiset(AllowedIn(table))[e] == if e.allowed then Held(table, e) else 0
  {
    if table != [] {
      YieldsAsOftenAsHeld(table[1..], e);
      ChainYields(table[0], e);
    }
  }

  function Held(table: seq<seq<Entry>>, e: Entry): nat {
    if table == [] then 0 else multiset(table[0])[e] + Held(table[1..], e)
  }

  /** Entries come bucket by bucket, and in each in the order of its chain. */
  lemma {:induction false} YieldsInOrder(xs: seq<seq<Entry>>, chain: seq<Entry>, e: Entry, more: seq<Entry>, ys: seq<seq<Entry>>)
    requires e.allowed
    ensures AllowedIn(xs + [chain + [e] + more] + ys) == AllowedIn(xs) + (AllowedOf(chain) + ([e] + (AllowedOf(more) + AllowedIn(ys))))
    decreases |xs|
  {
    var all := xs + [chain + [e] + more] + ys;
    if xs == [] {
      assert all[0] == chain + [e] + more && all[1..] == ys;
      ChainInOrder(chain, e, more);
    } else {
      assert all[0] == xs[0] && all[1..] == xs[1..] + [chain + [e] + more] + ys;
      YieldsInOrder(xs[1..], chain, e, more, ys);
      hide AllowedOf;
      assert AllowedIn(all) == AllowedOf(xs[0]) + AllowedIn(all[1..]);
    }
  }

  lemma {:induction false} ChainInOrder(chain: seq<Entry>, e: Entry, more: seq<Entry>)
    requires e.allowed
    ensures AllowedOf(chain + [e] + more) == AllowedOf(chain) + ([e] + AllowedOf(more))
  {
    var all := chain + [e] + more;
    if chain == [] {
      assert all[0] == e && all[1..] == more;
    } else {
      assert all[0] == chain[0] && all[1..] == chain[1..] + [e] + more;
      ChainInOrder(chain[1..], e, more);
    }
  }

  lemma {:induction false} ChainYields(chain: seq<Entry>, e: Entry)
    ensures multiset(AllowedOf(chain))[e] == if e.allowed then multiset(chain)[e] else 0
  {
    if chain != [] {
      ChainYields(chain[1..], e);
      assert chain == [chain[0]] + chain[1..];
    }
  }

  // ---------------------------------------------------------------------------------------
  // File system contexts

  datatype Context = Context(path: string, typ: string)
  datatype Genfs = Genfs(fstype: string, contexts: seq<Context>)

  function Tagged(fstype: string, contexts: seq<Context>): seq<(string, Context)> {
    if contexts == [] then [] else [(fstype, contexts[0])] + Tagged(fstype, contexts[1..])
  }

  function Contexts(list: seq<Genfs>): seq<(string, Context)> {
    if list == [] then [] else Tagged(list[0].fstype, list[0].contexts) + Contexts(list[1..])
  }

  /** Without a file system, or with one that has no context, the code follows a null pointer. */
  predicate NoneEmpty(list: seq<Genfs>) {
    forall g | g in list :: g.contexts != []
  }

  class GenfsIter {
    var genfs: seq<Genfs>
    var ocon: seq<Context>

    /** `init_genfs_iter` */
    constructor (list: seq<Genfs>)
      requires list != [] && NoneEmpty(list)
      ensures Valid() && ocon != [] && Rest() == Contexts(list)
    {
      assert list[0] in list;
      genfs, ocon := list, list[0].contexts;
    }

    ghost predicate Valid()
      reads this
    {
      genfs != [] && NoneEmpty(genfs)
    }

    ghost function Rest(): seq<(string, Context)>
      requires Valid()
      reads this
    {
      Tagged(genfs[0].fstype, ocon) + Contexts(genfs[1..])
    }

    /** `get_genfs`: unlike the other cursor it says with the last entry that it is the last, and it
        stays where it is when the line does not fit. It must not be called after the last entry. */
    method GetGenfs(tooLong: (string, Context) -> bool) returns (ret: int, out: (string, Context))
      requires Valid() && ocon != []
      modifies this
      ensures Valid() && old(Rest()) != [] && out == old(Rest())[0]
      ensures tooLong(out.0, out.1) ==> ret == TOO_LONG && Rest() == old(Rest()) && ocon == old(ocon)
      ensures !tooLong(out.0, out.1) ==> Rest() == old(Rest())[1..] && ret == (if Rest() == [] then LAST else MORE)
      ensures ret == MORE ==> ocon != []
    {
      hide Contexts;
      out := (genfs[0].fstype, ocon[0]);
      ghost var rest := Rest();
      TaggedNext(genfs[0].fstype, ocon, Contexts(genfs[1..]));
      if tooLong(out.0, out.1) {
        return TOO_LONG, out;
      }
      ocon := ocon[1..];
      if ocon == [] {
        if |genfs| > 1 {
          assert genfs[1] in genfs;
          ContextsNext(genfs[1..]);
          genfs := genfs[1..];
          ocon := genfs[0].contexts;
          TaggedNext(genfs[0].fstype, ocon, Contexts(genfs[1..]));
        } else {
          NoContexts();
          return LAST, out;
        }
      } else {
        TaggedNext(genfs[0].fstype, ocon, Contexts(genfs[1..]));
      }
      ret := MORE;
    }
  }

  lemma TaggedNext(fstype: string, ocon: seq<Context>, later: seq<(string, Context)>)
    requires ocon != []
    ensures Tagged(fstype, ocon) + later == [(fstype, ocon[0])] + (Tagged(fstype, ocon[1..]) + later)
    ensures Tagged(fstype, []) + later == later
  {
  }

  lemma ContextsNext(list: seq<Genfs>)
    requires list != []
    ensures Contexts(list) == Tagged(list[0].fstype, list[0].contexts) + Contexts(list[1..])
  {
  }

  lemma NoContexts()
    ensures Contexts([]) == []
  {
  }

  /** The entries are the contexts of each file system, with its name. */
  lemma {:induction false} ContextsHold(list: seq<Genfs>, fstype: string, c: Context)
    ensures (fstype, c) in Contexts(list) <==> exists g :: g in list && g.fstype == fstype && c in g.contexts
  {
    if list != [] {
      ContextsHold(list[1..], fstype, c);
      TaggedHold(list[0].fstype, list[0].contexts, fstype, c);
      assert list == [list[0]] + list[1..];
      hide Tagged;
      assert (fstype, c) in Contexts(list) <==> (fstype, c) in Tagged(list[0].fstype, list[0].contexts) || (fstype, c) in Contexts(list[1..]);
    }
  }

  lemma {:induction false} TaggedHold(name: string, contexts: seq<Context>, fstype: string, c: Context)
    ensures (fstype, c) in Tagged(name, contexts) <==> name == fstype && c in contexts
  {
    if contexts != [] {
      TaggedHold(name, contexts[1..], fstype, c);
      assert contexts == [contexts[0]] + contexts[1..];
    }
  }

  /** The types of one file system. */
  lemma TypesAre(list: seq<Genfs>, fstype: string, typ: string)
    ensures typ in TypesOf(Contexts(list), fstype) <==> exists g, path :: g in list && g.fstype == fstype && Context(path, typ) in g.contexts
  {
    hide Contexts;
    if typ in TypesOf(Contexts(list), fstype) {
      var e :| e in Contexts(list) && e.0 == fstype && e.1.typ == typ;
      ContextsHold(list, fstype, e.1);
      var g :| g in list && g.fstype == fstype && e.1 in g.contexts;
      assert Context(e.1.path, typ) in g.contexts;
    }
    if g, path :| g in list && g.fstype == fstype && Context(path, typ) in g.contexts {
      ContextsHold(list, fstype, Context(path, typ));
      assert (fstype, Context(path, typ)) in Contexts(list);
    }
  }

  ghost function TypesOf(entries: seq<(string, Context)>, fstype: string): set<string> {
    set e | e in entries && e.0 == fstype :: e.1.typ
  }

  /** `__InitGenfsCon`: the types of every file system, or an exit when a line does not fit. */
  method InitGenfsCon(list: seq<Genfs>, tooLong: (string, Context) -> bool) returns (r: Option<map<string, set<string>>>)
    requires list != [] && NoneEmpty(list)
    ensures r.None? <==> exists e :: e in Contexts(list) && tooLong(e.0, e.1)
    ensures r.Some? ==> forall fs ::
      if TypesOf(Contexts(list), fs) == {} then fs !in r.value else fs in r.value && r.value[fs] == TypesOf(Contexts(list), fs)
  {
    hide Contexts, TypesOf, GenfsIter.Rest, GenfsIter.Valid;
    var iter := new GenfsIter(list);
    ghost var done: seq<(string, Context)> := [];
    NoTypes();
    var dict: map<string, set<string>> := map[];
    assert done + iter.Rest() == Contexts(list);
    while true
      invariant fresh(iter) && iter.Valid() && iter.ocon != [] && done + iter.Rest() == Contexts(list)
      invariant (forall e | e in done :: !tooLong(e.0, e.1)) && DictHolds(done, dict)
      decreases |iter.Rest()|
    {
      ghost var rest := iter.Rest();
      var ret, out := iter.GetGenfs(tooLong);
      assert rest == [out] + rest[1..];
      assert out in done + rest;
      if ret == TOO_LONG {
        return None;
      }
      DictNext(done, dict, out);
      done := done + [out];
      dict := if out.0 !in dict then dict[out.0 := {out.1.typ}] else dict[out.0 := dict[out.0] + {out.1.typ}];
      if ret == LAST {
        assert done == Contexts(list);
        return Some(dict);
      }
    }
  }

  ghost predicate DictHolds(done: seq<(string, Context)>, dict: map<string, set<string>>) {
    forall fs :: if TypesOf(done, fs) == {} then fs !in dict else fs in dict && dict[fs] == TypesOf(done, fs)
  }

  lemma NoTypes()
    ensures DictHolds([], map[])
  {
  }

  lemma DictNext(done: seq<(string, Context)>, dict: map<string, set<string>>, e: (string, Context))
    requires DictHolds(done, dict)
    ensures DictHolds(done + [e], if e.0 !in dict then dict[e.0 := {e.1.typ}] else dict[e.0 := dict[e.0] + {e.1.typ}])
  {
    forall fs ensures TypesOf(done + [e], fs) == TypesOf(done, fs) + if e.0 == fs then {e.1.typ} else {} {
      assert forall x :: x in done + [e] <==> x in done || x == e;
    }
  }

  // ---------------------------------------------------------------------------------------
  // Types and attributes

  /** Which numbers a cursor gives: the bits of a map, all types, or all attributes. */
  datatype Selection = Lookup(bits: set<nat>) | AllTypes | AllAttrs

  /** For every number its name and whether it is an attribute. */
  datatype TypeDb = TypeDb(names: seq<string>, isAttr: seq<bool>)

  predicate Selected(db: TypeDb, sel: Selection, bit: nat)
    requires |db.isAttr| == |db.names| && bit < |db.names|
  {
    match sel
    case Lookup(bits) => bit in bits
    case AllTypes => !db.isAttr[bit]
    case AllAttrs => db.isAttr[bit]
  }

  /** The selected numbers from `bit` on, in ascending order. */
  function From(db: TypeDb, sel: Selection, bit: nat): seq<nat>
    requires |db.isAttr| == |db.names| && bit <= |db.names|
    decreases |db.names| - bit
  {
    if bit == |db.names| then []
    else (if Selected(db, sel, bit) then [bit] else []) + From(db, sel, bit + 1)
  }

  class TypeIter {
    const db: TypeDb
    const sel: Selection
    var bit: nat

    /** `init_type_iter`, where the looked-up name exists and has the right flavor. */
    constructor (db: TypeDb, sel: Selection)
      requires |db.isAttr| == |db.names|
      ensures this.db == db && this.sel == sel && Valid() && Rest() == From(db, sel, 0)
    {
      this.db, this.sel, bit := db, sel, 0;
    }

    ghost predicate Valid()
      reads this
    {
      |db.isAttr| == |db.names| && bit <= |db.names|
    }

    ghost function Rest(): seq<nat>
      requires Valid()
      reads this
    {
      From(db, sel, bit)
    }

    /** `get_type`: it stays where it is when the name does not fit. */
    method GetType(maxSize: nat) returns (ret: int, out: string)
      requires Valid()
      modifies this
      ensures Valid()
      ensures old(Rest()) == [] ==> ret == LAST && Rest() == []
      ensures old(Rest()) != [] ==> old(Rest())[0] < |db.names| && out == db.names[old(Rest())[0]]
      ensures old(Rest()) != [] ==> if |out| >= maxSize then ret == TOO_LONG && Rest() == old(Rest()) else ret == MORE && Rest() == old(Rest())[1..]
    {
      out := "";
      if sel.Lookup? {
        while bit < |db.names|
          invariant Valid() && Rest() == old(Rest())
          decreases |db.names| - bit
        {
          if bit !in sel.bits {
            bit := bit + 1;
            continue;
          }
          break;
        }
      }
      while bit < |db.names| && ((sel.AllAttrs? && !db.isAttr[bit]) || (sel.AllTypes? && db.isAttr[bit]))
        invariant Valid() && Rest() == old(Rest())
        invariant sel.Lookup? && bit < |db.names| ==> bit in sel.bits
        decreases |db.names| - bit
      {
        bit := bit + 1;
      }
      if bit >= |db.names| {
        return LAST, out;
      }
      out := db.names[bit];
      if |out| >= maxSize {
        return TOO_LONG, out;
      }
      bit := bit + 1;
      ret := MORE;
    }
  }

  lemma {:induction false} FromHolds(db: TypeDb, sel: Selection, bit: nat)
    requires |db.isAttr| == |db.names| && bit <= |db.names|
    ensures forall b :: b in From(db, sel, bit) <==> bit <= b < |db.names| && Selected(db, sel, b)
    ensures forall i, j | 0 <= i < j < |From(db, sel, bit)| :: From(db, sel, bit)[i] < From(db, sel, bit)[j]
    decreases |db.names| - bit
  {
    if bit < |db.names| {
      FromHolds(db, sel, bit + 1);
      var rest := From(db, sel, bit + 1);
      forall i | 0 <= i < |rest| ensures bit < rest[i] {
        assert rest[i] in rest;
      }
    }
  }

  ghost function Named(db: TypeDb, bits: seq<nat>): set<string> {
    set b | b in bits && b < |db.names| :: db.names[b]
  }

  lemma NamedNone(db: TypeDb)
    ensures Named(db, []) == {}
  {
  }

  lemma NamedNext(db: TypeDb, bits: seq<nat>, b: nat)
    requires b < |db.names|
    ensures Named(db, bits + [b]) == Named(db, bits) + {db.names[b]}
  {
    assert forall x :: x in bits + [b] <==> x in bits || x == b;
  }

  lemma AllNamed(db: TypeDb, sel: Selection)
    requires |db.isAttr| == |db.names|
    ensures forall b :: b in From(db, sel, 0) <==> 0 <= b < |db.names| && Selected(db, sel, b)
    ensures Named(db, From(db, sel, 0)) == set b | 0 <= b < |db.names| && Selected(db, sel, b) :: db.names[b]
  {
    FromHolds(db, sel, 0);
    hide From, Selected;
  }

  /** The loops of `GetAllTypes` and `QueryTypeAttribute`: the names of exactly the selected numbers,
      or an exit when a name does not fit. */
  method CollectTypes(db: TypeDb, sel: Selection, bufSize: nat) returns (r: Option<set<string>>)
    requires |db.isAttr| == |db.names|
    ensures r.None? <==> exists b :: 0 <= b < |db.names| && Selected(db, sel, b) && |db.names[b]| >= bufSize
    ensures r.Some? ==> r.value == set b | 0 <= b < |db.names| && Selected(db, sel, b) :: db.names[b]
    ensures r.Some? && sel == AllTypes ==> forall n :: n in r.value <==> exists b :: 0 <= b < |db.names| && db.names[b] == n && !db.isAttr[b]
    ensures r.Some? && sel == AllAttrs ==> forall n :: n in r.value <==> exists b :: 0 <= b < |db.names| && db.names[b] == n && db.isAttr[b]
  {
    hide From, TypeIter.Rest, TypeIter.Valid, Named, Selected;
    var iter := new TypeIter(db, sel);
    ghost var done: seq<nat> := [];
    var types := {};
    ghost var all := From(db, sel, 0);
    NamedNone(db);
    AllNamed(db, sel);
    while true
      invariant fresh(iter) && iter.db == db && iter.sel == sel && iter.Valid() && done + iter.Rest() == all
      invariant (forall k | 0 <= k < |done| :: done[k] < |db.names| && |db.names[done[k]]| < bufSize) && types == Named(db, done)
      decreases |iter.Rest()|
    {
      ghost var rest := iter.Rest();
      var ret, out := iter.GetType(bufSize);
      if ret == MORE {
        assert done + rest == done + [rest[0]] + rest[1..];
        NamedNext(db, done, rest[0]);
        done, types := done + [rest[0]], types + {out};
        continue;
      }
      if ret == LAST {
        assert rest == [] && done + rest == done;
        SelectedNames(db, sel);
        return Some(types);
      }
      assert all[|done|] == rest[0] && rest[0] in all;
      return None;
    }
  }

  lemma SelectedNames(db: TypeDb, sel: Selection)
    requires |db.isAttr| == |db.names|
    ensures var r := set b | 0 <= b < |db.names| && Selected(db, sel, b) :: db.names[b];
      && (sel == AllTypes ==> forall n :: n in r <==> exists b :: 0 <= b < |db.names| && db.names[b] == n && !db.isAttr[b])
      && (sel == AllAttrs ==> forall n :: n in r <==> exists b :: 0 <= b < |db.names| && db.names[b] == n && db.isAttr[b])
  {
  }
}
