/** Combining mapping files (tests/combine_maps.py), and the chain of versions that
    compat/Android.bp builds out of it. */
module CombineMaps {
  import opened Options
  import opened Text
  import opened MiniCil
  import opened CilPrinter
  import opened MiniCilParsers
  import opened VersionSuffix

  // ---------------------------------------------------------------------------------------
  // What Combine computes

  /** The entry ta of the top map is merged into the entry b of the bottom map. */
  predicate Reaches(top: Cil, bottom: Cil, ta: string, b: string) {
    ta in top.sets && |top.sets[ta]| != 1 && b in Lookup(bottom.rsets, Base(ta))
  }

  /** What the entries tas of the top map bring into the entry b of the bottom map. */
  function Added(top: Cil, bottom: Cil, tas: set<string>, b: string): set<string> {
    set ta, x | ta in tas && Reaches(top, bottom, ta, b) && x in top.sets[ta] :: x
  }

  function Merged(top: Cil, bottom: Cil, tas: set<string>): map<string, set<string>> {
    map b | b in bottom.sets :: bottom.sets[b] + Added(top, bottom, tas, b)
  }

  /** The bottom map after `Combine`: its index and public types are those it had before. */
  function Combined(top: Cil, bottom: Cil): Cil {
    bottom.(types := bottom.types + top.types,
            attributes := bottom.attributes + top.attributes,
            sets := Merged(top, bottom, top.sets.Keys))
  }

  lemma AddedOne(top: Cil, bottom: Cil, tas: set<string>, ta: string, b: string)
    ensures Added(top, bottom, tas + {ta}, b)
            == Added(top, bottom, tas, b) + if Reaches(top, bottom, ta, b) then top.sets[ta] else {}
  {
  }

  /** m added to the entries named in tas. */
  function MergeInto(sets: map<string, set<string>>, m: set<string>, tas: set<string>): map<string, set<string>> {
    map b | b in sets :: if b in tas then sets[b] + m else sets[b]
  }

  lemma MergeIntoOne(sets: map<string, set<string>>, m: set<string>, done: set<string>, ta: string)
    requires ta in sets && ta !in done
    ensures MergeInto(sets, m, done + {ta}) == (var s := MergeInto(sets, m, done); s[ta := s[ta] + m])
  {
  }

  lemma MergeIntoNone(sets: map<string, set<string>>, m: set<string>)
    ensures MergeInto(sets, m, {}) == sets
  {
  }

  /** `bottom.typeattributesets[bottom_ta].update(top_type_set)` for each bottom_ta, in any order. */
  method MergeEntry(bottom: MiniCilParser, m: set<string>, tas: set<string>)
    requires tas <= bottom.typeattributesets.Keys
    modifies bottom`typeattributesets
    ensures bottom.typeattributesets == MergeInto(old(bottom.typeattributesets), m, tas)
  {
    ghost var before := bottom.typeattributesets;
    var todo := tas;
    MergeIntoNone(before, m);
    assert tas - todo == {};
    while todo != {}
      invariant todo <= tas && bottom.typeattributesets == MergeInto(before, m, tas - todo)
      decreases |todo|
    {
      var bottomTa :| bottomTa in todo;
      MergeIntoOne(before, m, tas - todo, bottomTa);
      assert tas - (todo - {bottomTa}) == (tas - todo) + {bottomTa};
      todo := todo - {bottomTa};
      hide MergeInto;
      bottom.typeattributesets := bottom.typeattributesets[bottomTa := bottom.typeattributesets[bottomTa] + m];
    }
    assert tas - {} == tas;
  }

  /** The bottom entries that the entry ta of the top map goes into. */
  function Targets(top: Cil, bottom: Cil, ta: string): set<string>
    requires ta in top.sets
  {
    if |top.sets[ta]| == 1 then {} else Lookup(bottom.rsets, Base(ta))
  }

  lemma MergedOne(top: Cil, bottom: Cil, done: set<string>, ta: string)
    requires ta in top.sets
    ensures Merged(top, bottom, done + {ta})
      == MergeInto(Merged(top, bottom, done), top.sets[ta], Targets(top, bottom, ta))
  {
    hide Base, Lookup;
    var l, r := Merged(top, bottom, done + {ta}), MergeInto(Merged(top, bottom, done), top.sets[ta], Targets(top, bottom, ta));
    forall b | b in bottom.sets ensures l[b] == r[b] {
      AddedOne(top, bottom, done, ta, b);
    }
  }

  lemma MergedNone(top: Cil, bottom: Cil)
    ensures Merged(top, bottom, {}) == bottom.sets
  {
    hide Base, Lookup;
    forall b | b in bottom.sets ensures Merged(top, bottom, {})[b] == bottom.sets[b] {
      assert Added(top, bottom, {}, b) == {};
    }
  }

  /** The top entries visited so far have been merged. */
  ghost predicate Progress(now: Cil, top: Cil, bottom: Cil, done: set<string>) {
    now == bottom.(types := bottom.types + top.types, attributes := bottom.attributes + top.attributes,
                   sets := Merged(top, bottom, done))
  }

  /** Combines two maps in place. The dictionaries are visited in any order, while the reverse
      index of the bottom map stays as it was parsed. */
  method Combine(top: MiniCilParser, bottom: MiniCilParser) returns (result: MiniCilParser)
    requires top != bottom
    requires forall t | t in bottom.rTypeattributesets :: bottom.rTypeattributesets[t] <= bottom.typeattributesets.Keys
    modifies bottom
    ensures result == bottom && bottom.State() == Combined(top.State(), old(bottom.State()))
  {
    ghost var t, b := top.State(), bottom.State();
    bottom.types := bottom.types + top.types;
    bottom.typeattributes := bottom.typeattributes + top.typeattributes;

    var todo := top.typeattributesets.Keys;
    MergedNone(t, b);
    assert t.sets.Keys - todo == {};
    while todo != {}
      invariant todo <= t.sets.Keys && t == top.State() && b.rsets == bottom.rTypeattributesets
      invariant Progress(bottom.State(), t, b, t.sets.Keys - todo)
      decreases |todo|
    {
      var topTa :| topTa in todo;
      ghost var done := t.sets.Keys - todo;
      todo := todo - {topTa};
      assert t.sets.Keys - todo == done + {topTa};
      MergedOne(t, b, done, topTa);
      MergeIntoNone(Merged(t, b, done), t.sets[topTa]);
      hide Merged, MergeInto, Base;
      var topTypeSet := top.typeattributesets[topTa];
      var bottomType := Base(topTa);
      if |topTypeSet| == 1 {
        continue;
      }
      if bottomType !in bottom.rTypeattributesets {
        continue;
      }
      MergeEntry(bottom, topTypeSet, bottom.rTypeattributesets[bottomType]);
    }
    assert t.sets.Keys - {} == t.sets.Keys;
    result := bottom;
  }

  // ---------------------------------------------------------------------------------------
  // Composition of relations

  /** b is mapped to x. */
  predicate Maps(c: Cil, b: string, x: string) {
    b in c.sets && x in c.sets[b]
  }

  /** Some entry of the top map stands for a member of b in the bottom map and is mapped to x. */
  ghost predicate Through(top: Cil, bottom: Cil, b: string, x: string) {
    exists ta :: Maps(top, ta, x) && Maps(bottom, b, Base(ta))
  }

  /** The same, for entries that `Combine` does not skip. */
  ghost predicate ThroughLarge(top: Cil, bottom: Cil, b: string, x: string) {
    exists ta :: Maps(top, ta, x) && |top.sets[ta]| != 1 && Maps(bottom, b, Base(ta))
  }

  /** `Combine` composes two relations, on a parsed bottom map: every set becomes itself and the
      top sets of the types it contained before, whatever the order of the merges. */
  lemma CombineComposes(top: Cil, bottom: Cil, b: string, x: string)
    requires Indexed(bottom)
    ensures Combined(top, bottom).sets.Keys == bottom.sets.Keys
    ensures Maps(Combined(top, bottom), b, x) <==> Maps(bottom, b, x) || ThroughLarge(top, bottom, b, x)
  {
    InverseHas(bottom.sets);
    hide Base, Inverse, PubNames;
    if x in Added(top, bottom, top.sets.Keys, b) {
      var ta :| ta in top.sets && Reaches(top, bottom, ta, b) && x in top.sets[ta];
      assert b in Lookup(bottom.rsets, Base(ta)) <==> Base(ta) in Lookup(bottom.sets, b);
      assert Maps(top, ta, x) && Maps(bottom, b, Base(ta));
    }
    if b in bottom.sets && ThroughLarge(top, bottom, b, x) {
      var ta :| Maps(top, ta, x) && |top.sets[ta]| != 1 && Maps(bottom, b, Base(ta));
      assert b in Lookup(bottom.rsets, Base(ta)) <==> Base(ta) in Lookup(bottom.sets, b);
      assert Reaches(top, bottom, ta, b);
    }
  }

  /** Every entry is mapped to the type it is the version of. */
  ghost predicate SelfNamed(c: Cil) {
    forall ta | ta in c.sets :: Base(ta) in c.sets[ta]
  }

  /** Skipping the top sets with one member changes nothing when they hold their own base name. */
  lemma SkippingIsHarmless(top: Cil, bottom: Cil, b: string, x: string)
    requires Indexed(bottom) && SelfNamed(top)
    ensures Maps(Combined(top, bottom), b, x) <==> Maps(bottom, b, x) || Through(top, bottom, b, x)
  {
    CombineComposes(top, bottom, b, x);
    hide Combined, Indexed, Base;
    if Through(top, bottom, b, x) && !ThroughLarge(top, bottom, b, x) {
      var ta :| Maps(top, ta, x) && Maps(bottom, b, Base(ta));
      assert |top.sets[ta]| == 1 && Base(ta) in top.sets[ta];
      OnlyMember(top.sets[ta], x, Base(ta));
    }
  }

  lemma OnlyMember<T>(s: set<T>, x: T, y: T)
    requires |s| == 1 && x in s && y in s
    ensures x == y
  {
    assert |s - {x}| == 0;
    assert s - {x} == {};
  }

  /** One step of the build: two files combined, printed and parsed again. */
  function Step(top: Cil, bottom: Cil): Cil {
    Fresh(Combined(top, bottom))
  }

  lemma StepMaps(top: Cil, bottom: Cil)
    requires Indexed(bottom) && SelfNamed(top)
    ensures Indexed(Step(top, bottom)) && Step(top, bottom).sets.Keys == bottom.sets.Keys
    ensures forall b, x :: Maps(Step(top, bottom), b, x) <==> Maps(bottom, b, x) || Through(top, bottom, b, x)
    ensures SelfNamed(bottom) ==> SelfNamed(Step(top, bottom))
  {
    hide Base, Inverse, PubNames;
    forall b, x ensures Maps(Step(top, bottom), b, x) <==> Maps(bottom, b, x) || Through(top, bottom, b, x) {
      SkippingIsHarmless(top, bottom, b, x);
    }
    if SelfNamed(bottom) {
      forall ta | ta in bottom.sets ensures Base(ta) in Step(top, bottom).sets[ta] {
        assert Maps(bottom, ta, Base(ta));
        assert Maps(Step(top, bottom), ta, Base(ta));
      }
    }
  }

  /** No type that the top map has an entry for and the bottom map uses is missing in between. */
  ghost predicate NoGap(top: Cil, middle: Cil, bottom: Cil) {
    forall a, c | a in top.sets && Maps(bottom, c, Base(a)) :: HasEntry(middle, Base(a))
  }

  ghost predicate HasEntry(c: Cil, base: string) {
    exists b :: b in c.sets && Base(b) == base
  }

  /** Of the two nestings only the one that combines the lower maps first maps c to x: an entry of the
      top map is used directly in the bottom map, lacks a partner in between, and nothing else maps it. */
  ghost predicate LostInGap(top: Cil, middle: Cil, bottom: Cil, c: string, x: string) {
    && !Maps(bottom, c, x) && !Through(Step(top, middle), bottom, c, x)
    && exists a :: Maps(top, a, x) && Maps(bottom, c, Base(a)) && !HasEntry(middle, Base(a))
  }

  lemma StepMapsAt(top: Cil, bottom: Cil, b: string, x: string)
    requires Indexed(bottom) && SelfNamed(top)
    ensures Maps(Step(top, bottom), b, x) <==> Maps(bottom, b, x) || Through(top, bottom, b, x)
  {
    StepMaps(top, bottom);
    hide Step, SelfNamed, Indexed, Maps, Through;
  }

  /** What the upper maps combined first bring in, the lower ones combined first bring in too. */
  lemma UpperInLower(top: Cil, middle: Cil, bottom: Cil, c: string, x: string)
    requires Indexed(middle) && Indexed(bottom) && SelfNamed(top) && SelfNamed(middle)
    requires Through(Step(top, middle), bottom, c, x)
    ensures Through(middle, bottom, c, x) || Through(top, Step(middle, bottom), c, x)
  {
    hide Step, Base, Indexed, SelfNamed, Maps;
    var b :| Maps(Step(top, middle), b, x) && Maps(bottom, c, Base(b));
    StepMapsAt(top, middle, b, x);
    if Through(top, middle, b, x) {
      var a :| Maps(top, a, x) && Maps(middle, b, Base(a));
      StepMapsAt(middle, bottom, c, Base(a));
      assert Through(middle, bottom, c, Base(a));
    }
  }

  /** And the other way round, except for what is lost in a gap. */
  lemma LowerInUpper(top: Cil, middle: Cil, bottom: Cil, c: string, x: string)
    requires Indexed(middle) && Indexed(bottom) && SelfNamed(top) && SelfNamed(middle)
    requires Through(middle, bottom, c, x) || Through(top, Step(middle, bottom), c, x)
    ensures Maps(bottom, c, x) || Through(Step(top, middle), bottom, c, x) || LostInGap(top, middle, bottom, c, x)
  {
    hide Step, Base, Indexed, Maps, SelfNamed;
    if Through(middle, bottom, c, x) {
      var b :| Maps(middle, b, x) && Maps(bottom, c, Base(b));
      StepMapsAt(top, middle, b, x);
    } else {
      var a :| Maps(top, a, x) && Maps(Step(middle, bottom), c, Base(a));
      StepMapsAt(middle, bottom, c, Base(a));
      if Through(middle, bottom, c, Base(a)) {
        var b :| Maps(middle, b, Base(a)) && Maps(bottom, c, Base(b));
        AlsoAbove(top, middle, a, b, x);
      } else if HasEntry(middle, Base(a)) {
        var b := EntryOf(middle, Base(a));
        AlsoAbove(top, middle, a, b, x);
      }
    }
  }

  lemma AlsoAbove(top: Cil, middle: Cil, a: string, b: string, x: string)
    requires Indexed(middle) && SelfNamed(top) && Maps(top, a, x) && Maps(middle, b, Base(a))
    ensures Maps(Step(top, middle), b, x)
  {
    hide Step, Base, Indexed, SelfNamed, Maps;
    StepMapsAt(top, middle, b, x);
  }

  lemma EntryOf(c: Cil, base: string) returns (b: string)
    requires SelfNamed(c) && HasEntry(c, base)
    ensures Base(b) == base && Maps(c, b, base)
  {
    hide Base;
    b :| b in c.sets && Base(b) == base;
  }

  /** The two nestings of three maps differ in exactly the types that are lost in a gap. */
  lemma NestingsDiffer(top: Cil, middle: Cil, bottom: Cil, c: string, x: string)
    requires Indexed(middle) && Indexed(bottom) && SelfNamed(top) && SelfNamed(middle)
    ensures Maps(Step(top, Step(middle, bottom)), c, x)
      <==> Maps(Step(Step(top, middle), bottom), c, x) || LostInGap(top, middle, bottom, c, x)
    ensures LostInGap(top, middle, bottom, c, x) ==> !Maps(Step(Step(top, middle), bottom), c, x)
  {
    var upper, lower := Step(top, middle), Step(middle, bottom);
    StepMaps(top, middle);
    StepMaps(middle, bottom);
    hide Step, Base, Indexed, SelfNamed, Maps, Through;
    StepMapsAt(upper, bottom, c, x);
    StepMapsAt(top, lower, c, x);
    StepMapsAt(middle, bottom, c, x);
    if Through(upper, bottom, c, x) {
      UpperInLower(top, middle, bottom, c, x);
    }
    if Through(middle, bottom, c, x) || Through(top, lower, c, x) {
      LowerInUpper(top, middle, bottom, c, x);
    }
    if LostInGap(top, middle, bottom, c, x) {
      LostIsBelow(top, middle, bottom, c, x);
    }
  }

  lemma LostIsBelow(top: Cil, middle: Cil, bottom: Cil, c: string, x: string)
    requires Indexed(bottom) && SelfNamed(middle) && LostInGap(top, middle, bottom, c, x)
    ensures Through(top, Step(middle, bottom), c, x)
  {
    hide Step, Base, Indexed, SelfNamed, Maps, HasEntry;
    var a :| Maps(top, a, x) && Maps(bottom, c, Base(a)) && !HasEntry(middle, Base(a));
    StepMapsAt(middle, bottom, c, Base(a));
  }

  /** Chaining maps is associative exactly if nothing is lost in a gap. */
  lemma AssociativeExactly(top: Cil, middle: Cil, bottom: Cil)
    requires Indexed(middle) && Indexed(bottom) && SelfNamed(top) && SelfNamed(middle)
    ensures Step(Step(top, middle), bottom) == Step(top, Step(middle, bottom))
      <==> forall c, x :: !LostInGap(top, middle, bottom, c, x)
  {
    var l, r := Step(Step(top, middle), bottom), Step(top, Step(middle, bottom));
    hide Base, Indexed, SelfNamed, LostInGap, Maps;
    forall c, x ensures Maps(r, c, x) <==> Maps(l, c, x) || LostInGap(top, middle, bottom, c, x) {
      NestingsDiffer(top, middle, bottom, c, x);
    }
    if forall c, x :: !LostInGap(top, middle, bottom, c, x) {
      SameParts(top, middle, bottom);
      SameSets(l, r);
      FreshOnly(Step(top, middle), bottom, top, Step(middle, bottom), l, r);
    } else {
      var c, x :| LostInGap(top, middle, bottom, c, x);
      NestingsDiffer(top, middle, bottom, c, x);
    }
  }

  lemma SameParts(top: Cil, middle: Cil, bottom: Cil)
    ensures var l, r := Step(Step(top, middle), bottom), Step(top, Step(middle, bottom));
      l.types == r.types && l.attributes == r.attributes && l.expand == r.expand && l.sets.Keys == r.sets.Keys
  {
    hide Inverse, PubNames, Added;
  }

  /** In particular where the middle map has no gap. */
  lemma StepAssociative(top: Cil, middle: Cil, bottom: Cil)
    requires Indexed(middle) && Indexed(bottom)
    requires SelfNamed(top) && SelfNamed(middle) && NoGap(top, middle, bottom)
    ensures Step(Step(top, middle), bottom) == Step(top, Step(middle, bottom))
  {
    hide Step, Base, Indexed, SelfNamed, HasEntry;
    AssociativeExactly(top, middle, bottom);
    forall a, c, x | Maps(top, a, x) && Maps(bottom, c, Base(a)) ensures HasEntry(middle, Base(a)) {
    }
  }

  /** Two maps of the same entries to the same types are the same map. */
  lemma SameSets(l: Cil, r: Cil)
    requires l.sets.Keys == r.sets.Keys && forall c, x :: Maps(l, c, x) <==> Maps(r, c, x)
    ensures l.sets == r.sets
  {
    forall c | c in l.sets ensures l.sets[c] == r.sets[c] {
      forall x ensures x in l.sets[c] <==> x in r.sets[c] {
        assert Maps(l, c, x) <==> Maps(r, c, x);
      }
    }
  }

  lemma FreshOnly(t: Cil, b: Cil, t': Cil, b': Cil, l: Cil, r: Cil)
    requires l == Step(t, b) && r == Step(t', b') && l.sets == r.sets
    requires l.types == r.types && l.attributes == r.attributes && l.expand == r.expand
    ensures l == r
  {
  }
}
