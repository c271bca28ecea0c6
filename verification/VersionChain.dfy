/** Chains of mapping files: the build feeds the output of one run of combine_maps, as the top
    half, to the next (build/soong/cil_compat_map.go, compat/Android.bp). */
module VersionChain {
  import opened Options
  import opened Text
  import opened MiniCil
  import opened CilPrinter
  import opened MiniCilParsers
  import opened VersionSuffix
  import opened CombineMaps

  /** The output file of one run of the tool, or None when it fails or hangs. */
  function CombineFiles(top: string, bottom: string): Option<string> {
    var t, b := Parse(top), Parse(bottom);
    if t.Parsed? && b.Parsed? then Some(Unparse(Combined(t.cil, b.cil))) else None
  }

  /** The main program of tests/combine_maps.py, from the texts of its two input files. */
  method CombineTool(top: string, bottom: string) returns (output: Option<string>)
    ensures output == CombineFiles(top, bottom)
  {
    var topFile := new Infile(top);
    var bottomFile := new Infile(bottom);
    var topMapCil := new MiniCilParser();
    var bottomMapCil := new MiniCilParser();
    ParsedIsIndexed(bottom, EMPTY);
    EmptyIsIndexed();
    var t := topMapCil.Load(topFile);
    if !t.Parsed? {
      return None;
    }
    var b := bottomMapCil.Load(bottomFile);
    if !b.Parsed? {
      return None;
    }
    IndexedTargets(b.cil);
    var result := Combine(topMapCil, bottomMapCil);
    var text := result.UnparseText();
    return Some(text);
  }

  lemma IndexedTargets(c: Cil)
    requires Indexed(c)
    ensures forall t | t in c.rsets :: c.rsets[t] <= c.sets.Keys
  {
  }

  /** A mapping file that parses, can be printed, and maps every version to its own type. */
  ghost predicate GoodFile(text: string) {
    var p := Parse(text);
    p.Parsed? && Printable(p.cil) && SelfNamed(p.cil)
  }

  ghost function Content(text: string): Cil {
    var p := Parse(text);
    if p.Parsed? then p.cil else EMPTY
  }

  lemma ContentIndexed(text: string)
    ensures Indexed(Content(text))
  {
    EmptyIsIndexed();
    ParsedIsIndexed(text, EMPTY);
  }

  lemma StepPrintable(top: Cil, bottom: Cil)
    requires Printable(top) && Printable(bottom)
    ensures Printable(Step(top, bottom)) && Printable(Combined(top, bottom))
  {
    hide Base;
  }

  /** How a chain of files is combined: which output goes into which run. */
  datatype Chain = File(text: string) | Link(top: Chain, bottom: Chain)

  /** The files of a chain, newest version first. */
  function Files(ch: Chain): seq<string> {
    match ch
    case File(text) => [text]
    case Link(top, bottom) => Files(top) + Files(bottom)
  }

  /** The file that the runs of a chain end with. */
  function Build(ch: Chain): Option<string> {
    match ch
    case File(text) => Some(text)
    case Link(top, bottom) =>
      var t, b := Build(top), Build(bottom);
      if t.Some? && b.Some? then CombineFiles(t.value, b.value) else None
  }

  ghost function Value(ch: Chain): Cil {
    match ch
    case File(text) => Content(text)
    case Link(top, bottom) => Step(Value(top), Value(bottom))
  }

  ghost predicate GoodChain(ch: Chain) {
    forall text | text in Files(ch) :: GoodFile(text)
  }

  /** The runs of a chain compute the composition of the files' contents. */
  lemma {:induction false} BuildComputes(ch: Chain)
    requires GoodChain(ch)
    ensures Build(ch).Some? && Parse(Build(ch).value) == Parsed(Value(ch))
    ensures ch.Link? ==> Build(ch).value == Unparse(Value(ch))
    ensures Printable(Value(ch)) && Indexed(Value(ch)) && SelfNamed(Value(ch))
  {
    match ch
    case File(text) =>
      assert text in Files(ch);
      ContentIndexed(text);
    case Link(top, bottom) =>
      assert forall text | text in Files(top) || text in Files(bottom) :: text in Files(ch);
      BuildComputes(top);
      BuildComputes(bottom);
      LinkComputes(Build(top).value, Build(bottom).value, Value(top), Value(bottom));
  }

  lemma LinkComputes(top: string, bottom: string, t: Cil, b: Cil)
    requires Parse(top) == Parsed(t) && Parse(bottom) == Parsed(b)
    requires Printable(t) && Printable(b) && Indexed(b) && SelfNamed(t) && SelfNamed(b)
    ensures CombineFiles(top, bottom) == Some(Unparse(Step(t, b)))
    ensures Parse(Unparse(Step(t, b))) == Parsed(Step(t, b))
    ensures Printable(Step(t, b)) && Indexed(Step(t, b)) && SelfNamed(Step(t, b))
  {
    StepPrintable(t, b);
    StepMaps(t, b);
    RoundTrip(Combined(t, b));
    UnparseFresh(Combined(t, b));
  }

  lemma UnparseFresh(c: Cil)
    ensures Unparse(Fresh(c)) == Unparse(c)
  {
  }

  // ---------------------------------------------------------------------------------------
  // What the written file says, read again

  /** One run of the tool, from text to text: the output holds the declarations of both files and the flags of
      the bottom file, and each set of the bottom file with the members that entries of the top file bring. */
  lemma OutputReads(top: string, bottom: string)
    requires Parse(top).Parsed? && Parse(bottom).Parsed? && Printable(Parse(top).cil) && Printable(Parse(bottom).cil)
    ensures CombineFiles(top, bottom).Some? && Parse(CombineFiles(top, bottom).value).Parsed?
    ensures var t, b, out := Parse(top).cil, Parse(bottom).cil, Parse(CombineFiles(top, bottom).value).cil;
      && out.types == t.types + b.types && out.attributes == t.attributes + b.attributes
      && out.expand == b.expand && out.sets.Keys == b.sets.Keys
      && forall e, x :: Maps(out, e, x) <==>
        Maps(b, e, x) || exists ta :: ta in t.sets && x in t.sets[ta] && |t.sets[ta]| != 1 && Maps(b, e, Base(ta))
  {
    hide Printable, Base, Indexed, Parse, Unparse, Merged;
    var t, b := Parse(top).cil, Parse(bottom).cil;
    StepPrintable(t, b);
    Reprinted(Combined(t, b));
    var out := Parse(CombineFiles(top, bottom).value).cil;
    CombinedKeys(t, b);
    BottomIndexed(bottom);
    forall e, x ensures Maps(out, e, x) <==>
      Maps(b, e, x) || exists ta :: ta in t.sets && x in t.sets[ta] && |t.sets[ta]| != 1 && Maps(b, e, Base(ta))
    {
      CombineComposes(t, b, e, x);
      hide Combined;
      if ThroughLarge(t, b, e, x) {
        var ta :| Maps(t, ta, x) && |t.sets[ta]| != 1 && Maps(b, e, Base(ta));
        assert ta in t.sets && x in t.sets[ta];
      }
      if ta :| ta in t.sets && x in t.sets[ta] && |t.sets[ta]| != 1 && Maps(b, e, Base(ta)) {
        assert Maps(t, ta, x);
      }
    }
  }

  lemma Reprinted(c: Cil)
    requires Printable(c)
    ensures Parse(Unparse(c)) == Parsed(Fresh(c))
  {
    RoundTrip(c);
  }

  lemma CombinedKeys(top: Cil, bottom: Cil)
    ensures Combined(top, bottom).sets.Keys == bottom.sets.Keys
  {
    hide Added;
  }

  lemma BottomIndexed(text: string)
    requires Parse(text).Parsed?
    ensures Indexed(Parse(text).cil)
  {
    ContentIndexed(text);
  }

  ghost function AllTypes(files: seq<string>): set<string> {
    set f, x | f in files && x in Content(f).types :: x
  }

  ghost function AllAttributes(files: seq<string>): set<string> {
    set f, x | f in files && x in Content(f).attributes :: x
  }

  lemma DeclarationsJoin(xs: seq<string>, ys: seq<string>)
    ensures AllTypes(xs + ys) == AllTypes(xs) + AllTypes(ys) && AllAttributes(xs + ys) == AllAttributes(xs) + AllAttributes(ys)
  {
    hide Content;
    assert forall f :: f in xs + ys <==> f in xs || f in ys;
  }

  /** The declarations of all files, and the flags and the set names of the last, which is the oldest. */
  ghost predicate HoldsAll(out: Cil, files: seq<string>) {
    files != [] &&
    var oldest := Content(files[|files| - 1]);
    && out.types == AllTypes(files) && out.attributes == AllAttributes(files)
    && out.expand == oldest.expand && out.sets.Keys == oldest.sets.Keys
  }

  lemma HoldsBoth(out: Cil, t: Cil, b: Cil, xs: seq<string>, ys: seq<string>)
    requires HoldsAll(t, xs) && HoldsAll(b, ys)
    requires out.types == t.types + b.types && out.attributes == t.attributes + b.attributes
    requires out.expand == b.expand && out.sets.Keys == b.sets.Keys
    ensures HoldsAll(out, xs + ys)
  {
    hide AllTypes, AllAttributes, Content;
    DeclarationsJoin(xs, ys);
  }

  /** A whole chain of runs: the final file holds the declarations of all files, and the flags and the set
      names of the oldest one. */
  lemma {:induction false} ChainReads(ch: Chain)
    requires GoodChain(ch)
    ensures Build(ch).Some? && Parse(Build(ch).value).Parsed? && HoldsAll(Parse(Build(ch).value).cil, Files(ch))
  {
    hide Parse, Printable, Indexed, SelfNamed, CombineFiles, HoldsAll, Value;
    BuildComputes(ch);
    match ch
    case File(text) =>
      OneFile(text);
    case Link(top, bottom) =>
      assert forall text | text in Files(top) || text in Files(bottom) :: text in Files(ch);
      ChainReads(top);
      ChainReads(bottom);
      BuildComputes(top);
      BuildComputes(bottom);
      OutputReads(Build(top).value, Build(bottom).value);
      HoldsBoth(Parse(Build(ch).value).cil, Parse(Build(top).value).cil, Parse(Build(bottom).value).cil, Files(top), Files(bottom));
  }

  lemma OneFile(text: string)
    ensures HoldsAll(Content(text), [text])
  {
    hide Content;
    assert text in [text];
  }

  // ---------------------------------------------------------------------------------------
  // The order of the runs does not matter

  /** The contents composed from the oldest version upwards. */
  ghost function Fold(vs: seq<Cil>): Cil
    requires vs != []
  {
    if |vs| == 1 then vs[0] else Step(vs[0], Fold(vs[1..]))
  }

  ghost predicate Maps3(vs: seq<Cil>, i: nat, j: nat, k: nat)
    requires i < j < k < |vs|
  {
    NoGap(vs[i], vs[j], vs[k])
  }

  /** A type that has an entry in one version and is used in an older one has an entry in every
      version between them. */
  ghost predicate GapFree(vs: seq<Cil>) {
    forall i, j, k | 0 <= i < j < k < |vs| :: Maps3(vs, i, j, k)
  }

  ghost predicate GoodContents(vs: seq<Cil>) {
    vs != [] && forall v | v in vs :: Indexed(v) && SelfNamed(v)
  }

  /** Where the members of a composed map come from, and what its entries are. */
  lemma {:induction false} FoldFacts(vs: seq<Cil>)
    requires GoodContents(vs)
    ensures Indexed(Fold(vs)) && SelfNamed(Fold(vs)) && Fold(vs).sets.Keys == vs[|vs| - 1].sets.Keys
    ensures forall c, x | Maps(Fold(vs), c, x) :: exists k, c' :: 0 <= k < |vs| && Maps(vs[k], c', x)
    decreases |vs|
  {
    assert vs[0] in vs;
    if |vs| == 1 {
      forall c, x | Maps(Fold(vs), c, x) ensures exists k, c' :: 0 <= k < |vs| && Maps(vs[k], c', x) {
        assert Maps(vs[0], c, x);
      }
    } else {
      assert forall v | v in vs[1..] :: v in vs;
      FoldFacts(vs[1..]);
      StepMaps(vs[0], Fold(vs[1..]));
      forall c, x | Maps(Fold(vs), c, x) ensures exists k, c' :: 0 <= k < |vs| && Maps(vs[k], c', x) {
        if Maps(Fold(vs[1..]), c, x) {
          var k, c' :| 0 <= k < |vs[1..]| && Maps(vs[1..][k], c', x);
          assert Maps(vs[k + 1], c', x);
        } else {
          var ta :| Maps(vs[0], ta, x) && Maps(Fold(vs[1..]), c, Base(ta));
        }
      }
    }
  }

  lemma FoldNoGap(vs: seq<Cil>, xs: seq<Cil>, ys: seq<Cil>)
    requires GoodContents(xs) && GoodContents(ys) && |xs| > 1 && GapFree(xs + ys)
    ensures NoGap(xs[0], Fold(xs[1..]), Fold(ys))
  {
    assert forall v | v in xs[1..] :: v in xs;
    FoldFacts(xs[1..]);
    FoldFacts(ys);
    var all := xs + ys;
    var m := |xs| - 1;
    forall a, c | a in xs[0].sets && Maps(Fold(ys), c, Base(a)) ensures HasEntry(Fold(xs[1..]), Base(a)) {
      var k, c' :| 0 <= k < |ys| && Maps(ys[k], c', Base(a));
      assert Maps3(all, 0, m, |xs| + k);
      assert HasEntry(all[m], Base(a));
      assert all[m] == xs[1..][m - 1];
    }
  }

  lemma {:induction false} FoldJoins(xs: seq<Cil>, ys: seq<Cil>)
    requires GoodContents(xs) && GoodContents(ys) && GapFree(xs + ys)
    ensures Step(Fold(xs), Fold(ys)) == Fold(xs + ys)
    decreases |xs|
  {
    assert (xs + ys)[1..] == xs[1..] + ys && (xs + ys)[0] == xs[0];
    if |xs| > 1 {
      assert xs[0] in xs && forall v | v in xs[1..] :: v in xs;
      FoldNoGap(xs + ys, xs, ys);
      GapFreeTail(xs + ys);
      FoldFacts(xs[1..]);
      FoldFacts(ys);
      hide Step, NoGap, Indexed, SelfNamed;
      StepAssociative(xs[0], Fold(xs[1..]), Fold(ys));
      FoldJoins(xs[1..], ys);
    }
  }

  lemma GapFreeTail(vs: seq<Cil>)
    requires GapFree(vs) && vs != []
    ensures GapFree(vs[1..])
  {
    forall i, j, k | 0 <= i < j < k < |vs[1..]| ensures Maps3(vs[1..], i, j, k) {
      assert Maps3(vs, i + 1, j + 1, k + 1);
    }
  }

  lemma GapFreeParts(xs: seq<Cil>, ys: seq<Cil>)
    requires GapFree(xs + ys)
    ensures GapFree(xs) && GapFree(ys)
  {
    forall i, j, k | 0 <= i < j < k < |xs| ensures Maps3(xs, i, j, k) {
      assert Maps3(xs + ys, i, j, k);
    }
    forall i, j, k | 0 <= i < j < k < |ys| ensures Maps3(ys, i, j, k) {
      assert Maps3(xs + ys, i + |xs|, j + |xs|, k + |xs|);
    }
  }

  ghost function Contents(files: seq<string>): seq<Cil> {
    seq(|files|, i requires 0 <= i < |files| => Content(files[i]))
  }

  lemma {:induction false} ValueIsFold(ch: Chain)
    requires GoodChain(ch) && GapFree(Contents(Files(ch)))
    ensures GoodContents(Contents(Files(ch))) && Value(ch) == Fold(Contents(Files(ch)))
  {
    match ch
    case File(text) =>
      BuildComputes(ch);
    case Link(top, bottom) =>
      assert Contents(Files(ch)) == Contents(Files(top)) + Contents(Files(bottom));
      assert forall text | text in Files(top) || text in Files(bottom) :: text in Files(ch);
      GapFreeParts(Contents(Files(top)), Contents(Files(bottom)));
      ValueIsFold(top);
      ValueIsFold(bottom);
      FoldJoins(Contents(Files(top)), Contents(Files(bottom)));
  }

  /** However the runs of the tool over the same versions are nested, the final output file is
      the same, character by character. */
  lemma AnyNestingSameFile(ch: Chain, ch': Chain)
    requires Files(ch) == Files(ch') && GoodChain(ch) && GapFree(Contents(Files(ch)))
    ensures Build(ch) == Build(ch') && Build(ch).Some?
  {
    BuildComputes(ch);
    BuildComputes(ch');
    ValueIsFold(ch);
    ValueIsFold(ch');
    FilesOfLink(ch);
    FilesOfLink(ch');
  }

  lemma {:induction false} FilesOfLink(ch: Chain)
    ensures |Files(ch)| >= 1 && (|Files(ch)| == 1 <==> ch.File?)
  {
    if ch.Link? {
      FilesOfLink(ch.top);
      FilesOfLink(ch.bottom);
    }
  }

  /** Three files, combined in either order: the two results are the same text exactly if nothing is lost
      in a gap of the middle one. */
  lemma NestingsOfThree(top: string, middle: string, bottom: string)
    requires GoodFile(top) && GoodFile(middle) && GoodFile(bottom)
    ensures Build(Link(Link(File(top), File(middle)), File(bottom))) == Build(Link(File(top), Link(File(middle), File(bottom))))
      <==> forall c, x :: !LostInGap(Content(top), Content(middle), Content(bottom), c, x)
  {
    hide LostInGap, Step, Build, Indexed, Printable, Parse, GoodChain;
    var upper, lower := Link(File(top), File(middle)), Link(File(middle), File(bottom));
    GoodFiles(top);
    GoodFiles(middle);
    GoodFiles(bottom);
    GoodLink(File(top), File(middle));
    GoodLink(File(middle), File(bottom));
    GoodLink(upper, File(bottom));
    GoodLink(File(top), lower);
    SameBuild(Link(upper, File(bottom)), Link(File(top), lower));
    AssociativeExactly(Content(top), Content(middle), Content(bottom));
    ValueOfLink(File(top), File(middle));
    ValueOfLink(File(middle), File(bottom));
    ValueOfLink(upper, File(bottom));
    ValueOfLink(File(top), lower);
  }

  lemma ValueOfLink(top: Chain, bottom: Chain)
    ensures Value(Link(top, bottom)) == Step(Value(top), Value(bottom))
    ensures forall text :: Value(File(text)) == Content(text)
  {
    hide Step, Content;
  }

  lemma GoodFiles(text: string)
    requires GoodFile(text)
    ensures GoodChain(File(text)) && Indexed(Content(text)) && SelfNamed(Content(text))
  {
    hide Parse, Printable, Indexed, SelfNamed;
    ContentIndexed(text);
  }

  lemma GoodLink(top: Chain, bottom: Chain)
    requires GoodChain(top) && GoodChain(bottom)
    ensures GoodChain(Link(top, bottom))
  {
    hide GoodFile;
  }

  lemma SameBuild(ch: Chain, ch': Chain)
    requires GoodChain(ch) && GoodChain(ch') && ch.Link? && ch'.Link?
    ensures Build(ch) == Build(ch') <==> Value(ch) == Value(ch')
  {
    hide Build, Value, GoodChain, Printable, Indexed, SelfNamed, Parse, Unparse;
    BuildComputes(ch);
    BuildComputes(ch');
  }

  /** A version in between that lacks one type loses what newer versions say of it. */
  lemma GapMatters(top: Cil, middle: Cil, bottom: Cil, a: string, c: string, x: string)
    requires Indexed(middle) && Indexed(bottom) && SelfNamed(top) && SelfNamed(middle)
    requires Maps(top, a, x) && Maps(bottom, c, Base(a)) && !HasEntry(middle, Base(a))
    requires !Maps(bottom, c, x) && !Through(Step(top, middle), bottom, c, x)
    ensures Step(Step(top, middle), bottom) != Step(top, Step(middle, bottom))
  {
    hide Step, Base, Indexed, SelfNamed, HasEntry;
    AssociativeExactly(top, middle, bottom);
    assert LostInGap(top, middle, bottom, c, x);
  }

  /** The map of one type to the given types, in one version. */
  ghost function OneEntry(base: string, version: string, types: set<string>): Cil {
    Fresh(EMPTY.(sets := map[base + "_" + version + "_0" := types]))
  }

  lemma OneEntryIs(base: string, version: string, types: set<string>)
    requires base != "" && AllWord(base) && version != "" && AllDigits(version)
    ensures var c := OneEntry(base, version, types);
      && Indexed(c) && c.sets == map[base + "_" + version + "_0" := types] && Base(base + "_" + version + "_0") == base
      && (base in types ==> SelfNamed(c)) && (forall t :: HasEntry(c, t) <==> t == base)
  {
    StripInvertsSuffix(base, version);
    hide Inverse, PubNames, Strip;
    assert base + "_" + version + "_0" in OneEntry(base, version, types).sets;
  }

  lemma GapLosesIn(top: Cil, middle: Cil, bottom: Cil, a: string, b: string, c: string, t: string, x: string)
    requires Indexed(middle) && Indexed(bottom) && SelfNamed(top) && SelfNamed(middle) && !HasEntry(middle, t)
    requires Maps(top, a, x) && Base(a) == t && middle.sets.Keys == {b} && bottom.sets == map[c := {t}] && x != t
    ensures var l, r := Step(Step(top, middle), bottom), Step(top, Step(middle, bottom));
      c in l.sets && l.sets[c] == {t} && c in r.sets && x in r.sets[c]
  {
    hide Step, Base, Indexed, SelfNamed;
    StepMaps(top, middle);
    var upper := Step(top, middle);
    StepMaps(upper, bottom);
    var l, r := Step(upper, bottom), Step(top, Step(middle, bottom));
    assert Maps(bottom, c, t) && b in middle.sets && Base(b) != t;
    forall y ensures !Through(upper, bottom, c, y) {
    }
    forall y ensures y in l.sets[c] <==> y == t {
      assert Maps(l, c, y) <==> Maps(bottom, c, y) || Through(upper, bottom, c, y);
    }
    assert !Maps(bottom, c, x) && LostInGap(top, middle, bottom, c, x);
    NestingsDiffer(top, middle, bottom, c, x);
    assert Maps(r, c, x);
  }

  /** For example: a type that was split off t in a new version, and a version between that knows only
      another type u. */
  lemma GapLosesType(t: string, u: string, x: string, v1: string, v2: string, v3: string)
    requires t != "" && u != "" && AllWord(t) && AllWord(u) && t != u && x != t
    requires v1 != "" && v2 != "" && v3 != "" && AllDigits(v1) && AllDigits(v2) && AllDigits(v3)
    ensures var top, middle, bottom := OneEntry(t, v1, {t, x}), OneEntry(u, v2, {u}), OneEntry(t, v3, {t});
      var c, l, r := t + "_" + v3 + "_0", Step(Step(top, middle), bottom), Step(top, Step(middle, bottom));
      c in l.sets && l.sets[c] == {t} && c in r.sets && x in r.sets[c]
  {
    var top, middle, bottom := OneEntry(t, v1, {t, x}), OneEntry(u, v2, {u}), OneEntry(t, v3, {t});
    var a, b, c := t + "_" + v1 + "_0", u + "_" + v2 + "_0", t + "_" + v3 + "_0";
    OneEntryIs(t, v1, {t, x});
    OneEntryIs(u, v2, {u});
    OneEntryIs(t, v3, {t});
    hide OneEntry, Step, Base, Indexed, SelfNamed, HasEntry;
    GapLosesIn(top, middle, bottom, a, b, c, t, x);
  }
}
