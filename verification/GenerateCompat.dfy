/** Generating the mapping files of a new version (tools/sepolicy_generate_compat.py), and why the
    Treble tests then pass. */
module GenerateCompat {
  import opened Options
  import opened Text
  import opened MiniCil
  import opened CilLexer
  import opened CilPrinter
  import opened MiniCilParsers
  import opened VersionSuffix
  import opened CombineMaps
  import opened TrebleTests

  // ---------------------------------------------------------------------------------------
  // Versions

  /** None when the source raises an error: the name has another version. */
  function ChangeApiLevel(versionedType: string, apiFrom: string, apiTo: string): Option<string> {
    var k := |versionedType| - |apiFrom|;
    if 0 <= k && versionedType[k..] == apiFrom then Some(versionedType[..k] + apiTo) else None
  }

  /** The change replaces the version and nothing else, and can be undone. */
  lemma ChangeApiLevelRoundTrip(base: string, apiFrom: string, apiTo: string)
    ensures ChangeApiLevel(base + apiFrom, apiFrom, apiTo) == Some(base + apiTo)
    ensures forall t | ChangeApiLevel(t, apiFrom, apiTo).Some? ::
      ChangeApiLevel(ChangeApiLevel(t, apiFrom, apiTo).value, apiTo, apiFrom) == Some(t)
  {
    assert (base + apiFrom)[|base|..] == apiFrom && (base + apiFrom)[..|base|] == base;
    forall t | ChangeApiLevel(t, apiFrom, apiTo).Some?
      ensures ChangeApiLevel(ChangeApiLevel(t, apiFrom, apiTo).value, apiTo, apiFrom) == Some(t)
    {
      var k := |t| - |apiFrom|;
      var t' := t[..k] + apiTo;
      assert t'[k..] == apiTo && t'[..k] == t[..k] && t == t[..k] + t[k..];
    }
  }

  // ---------------------------------------------------------------------------------------
  // Steps 1, 3 and 4

  /** The comment lines of the written files, from after the first `;`. Their wording, which
      names the target version, plays no part in what follows. */
  datatype Notes = Notes(removed: string, footer: string, ignore1: string, ignore2: string, ignore3: string)

  /** What the tool is given: the mapping file of the target version, the types of the policies,
      and the two mapping files of the latest version. */
  datatype Inputs = Inputs(
    mapping: Cil, pubTypes: set<string>, allTypes: set<string>, oldAllTypes: set<string>,
    latestMapping: Cil, latestIgnore: Cil, latestVersion: string, targetVersion: string, notes: Notes)
  {
    function NewTypes(): set<string> {
      pubTypes * (allTypes - oldAllTypes)
    }

    function RemovedTypes(): set<string> {
      mapping.pubtypes * (oldAllTypes - allTypes)
    }

    predicate Ignored(n: string) {
      n in latestIgnore.rsets
    }

    /** The new type n takes over a mapping of the latest version. */
    predicate IsMapped(n: string) {
      !Ignored(n) && n in latestMapping.rsets
    }

    /** The entries that n goes into; None when one of the latest entries has another version. */
    function Targets(n: string): Option<set<string>> {
      var latest := Lookup(latestMapping.rsets, n);
      if forall t | t in latest :: ChangeApiLevel(t, latestVersion, targetVersion).Some?
      then Some(set t | t in latest :: ChangeApiLevel(t, latestVersion, targetVersion).value)
      else None
    }

    predicate VersionsOk(types: set<string>) {
      forall n | n in types && IsMapped(n) :: Targets(n).Some?
    }

    /** The types among `types` that are mapped into the entry ta. */
    function MappedInto(types: set<string>, ta: string): set<string> {
      set n | n in types && IsMapped(n) && Targets(n).Some? && ta in Targets(n).value
    }

    /** The sets of the mapping file when these new types have been mapped. */
    function Grown(types: set<string>): map<string, set<string>> {
      map ta | ta in mapping.sets :: mapping.sets[ta] + MappedInto(types, ta)
    }

    function InvalidNew(types: set<string>): set<string> {
      set n | n in types && !Ignored(n) && n !in latestMapping.rsets
    }

    function InvalidMapping(types: set<string>): set<string> {
      set n, ta | n in types && IsMapped(n) && Targets(n).Some? && ta in Targets(n).value && ta !in mapping.sets :: ta
    }

    function InvalidRemoved(): set<string> {
      RemovedTypes() - latestMapping.types
    }

    function IgnoredNew(types: set<string>): set<string> {
      set n | n in types && Ignored(n)
    }

    /** The mapping that is written: no types or attributes, the sets grown. */
    function Target(): Cil {
      mapping.(types := {}, attributes := {}, sets := Grown(NewTypes()))
    }
  }

  /** How a run ends: with two files written, with the errors it reports, or with an exception. */
  datatype Outcome =
    | Written(mapping: string, ignore: string)
    | Errors(newTypes: set<string>, mappingTypes: set<string>, removedTypes: set<string>)
    | WrongVersion

  const NEW_OBJECTS := "new_objects"
  const SEPARATOR := "\n    "

  function Comment(note: string): string {
    ";" + note + "\n"
  }

  function RemovedText(notes: Notes, removed: set<string>): string {
    if removed == {} then ""
    else Comment(notes.removed) + (Join("\n", TypeLines(Sorted(removed))) + "\n\n")
  }

  function TypeLines(names: seq<string>): seq<string> {
    if names == [] then [] else ["(type " + names[0] + ")"] + TypeLines(names[1..])
  }

  function MappingText(notes: Notes, removed: set<string>, target: Cil): string {
    RemovedText(notes, removed) + (Comment(notes.footer) + Unparse(target))
  }

  function IgnoreHeader(notes: Notes): string {
    Comment(notes.ignore1) + (Comment(notes.ignore2) + Comment(notes.ignore3))
  }

  /** The member list of the ignore file: the ignored types, each on its own line. */
  function IgnoreList(ignored: set<string>): string {
    " " + NEW_OBJECTS + SEPARATOR + Join(SEPARATOR, Sorted(ignored)) + "\n  "
  }

  function IgnoreStatements(ignored: set<string>): string {
    WrapParens(TYPE + " " + NEW_OBJECTS) + ("\n" +
    (WrapParens(ATTRIBUTE + " " + NEW_OBJECTS) + ("\n" +
    (WrapParens(SetText(SET, NEW_OBJECTS, "\n  ", IgnoreList(ignored))) + ("\n" + "")))))
  }

  function IgnoreText(notes: Notes, ignored: set<string>): string {
    IgnoreHeader(notes) + IgnoreStatements(ignored)
  }

  function Generated(inputs: Inputs): Outcome {
    var new_ := inputs.NewTypes();
    if !inputs.VersionsOk(new_) then WrongVersion
    else if inputs.InvalidNew(new_) != {} || inputs.InvalidMapping(new_) != {} || inputs.InvalidRemoved() != {} then
      Errors(inputs.InvalidNew(new_), inputs.InvalidMapping(new_), inputs.InvalidRemoved())
    else
      Written(MappingText(inputs.notes, inputs.RemovedTypes(), inputs.Target()),
              IgnoreText(inputs.notes, inputs.IgnoredNew(new_)))
  }

  // ---------------------------------------------------------------------------------------
  // Parsing the written files

  predicate OneLine(s: string) {
    '\n' !in s
  }

  ghost predicate NotesOk(notes: Notes) {
    OneLine(notes.removed) && OneLine(notes.footer) && OneLine(notes.ignore1) && OneLine(notes.ignore2) && OneLine(notes.ignore3)
  }

  lemma ReadComment(note: string, rest: string, c: Cil)
    requires OneLine(note)
    ensures ParseFrom(Comment(note) + rest, c) == ParseFrom(rest, c)
  {
    hide Lex, ParseFrom;
    NothingLexed();
    CommentIsNewline("", note, rest, c);
    assert "" + ";" + note + "\n" + rest == Comment(note) + rest && "" + "\n" + rest == "\n" + rest;
    ParseAfterNewline(rest, c);
  }

  lemma ParseAfterNewline(rest: string, c: Cil)
    ensures ParseFrom("\n" + rest, c) == ParseFrom(rest, c)
  {
    hide NextStmt, Apply, Classify;
    ReadAfterNewline(rest);
  }

  lemma {:induction false} TypeLinesAreLines(names: seq<string>)
    requires names != []
    ensures Join("\n", TypeLines(names)) + "\n" == Lines(Types(names))
  {
    JoinTwoOrThree(" ", TYPE, names[0], "");
    assert Print(Type(names[0])) == "type " + names[0];
    assert WrapParens(Print(Type(names[0]))) == "(type " + names[0] + ")";
    if |names| > 1 {
      TypeLinesAreLines(names[1..]);
      assert TypeLines(names)[1..] == TypeLines(names[1..]);
      assert Lines(Types(names)) == "(type " + names[0] + ")" + "\n" + Lines(Types(names[1..]));
    } else {
      assert Types(names) == [Type(names[0])];
      assert TypeLines(names) == ["(type " + names[0] + ")"];
    }
  }

  lemma ReadRemoved(notes: Notes, removed: set<string>, rest: string)
    requires NotesOk(notes) && forall x | x in removed :: NameOk(x)
    ensures ParseFrom(RemovedText(notes, removed) + rest, EMPTY) == ParseFrom(rest, EMPTY.(types := removed))
  {
    if removed == {} {
      assert RemovedText(notes, removed) + rest == rest;
    } else {
      var names := Sorted(removed);
      var x :| x in removed;
      assert x in names;
      var lines := Lines(Types(names));
      TypeLinesAreLines(names);
      assert RemovedText(notes, removed) + rest == Comment(notes.removed) + (lines + ("\n" + rest));
      ReadComment(notes.removed, lines + ("\n" + rest), EMPTY);
      ReadTypes(names, "\n" + rest);
      assert Elements(names) == removed;
      ReadAfterNewline(rest);
    }
  }

  lemma ReadTypes(names: seq<string>, rest: string)
    requires forall x | x in names :: NameOk(x)
    ensures ParseFrom(Lines(Types(names)) + rest, EMPTY) == ParseFrom(rest, EMPTY.(types := Elements(names)))
  {
    TypesOk(names);
    ParseLines(EMPTY, Types(names), rest);
    RunTypes(names, EMPTY, []);
    assert Types(names) + [] == Types(names) && {} + Elements(names) == Elements(names);
  }

  lemma {:induction false} TypesOk(names: seq<string>)
    requires forall x | x in names :: NameOk(x)
    ensures forall cmd | cmd in Types(names) :: CommandOk(cmd)
  {
    if names != [] {
      assert names[0] in names && forall x | x in names[1..] :: x in names;
      TypesOk(names[1..]);
    }
  }

  lemma ReadHeader(notes: Notes, rest: string, c: Cil)
    requires NotesOk(notes)
    ensures ParseFrom(IgnoreHeader(notes) + rest, c) == ParseFrom(rest, c)
  {
    var a, b, d := Comment(notes.ignore1), Comment(notes.ignore2), Comment(notes.ignore3);
    assert IgnoreHeader(notes) + rest == a + (b + (d + rest));
    ReadComment(notes.ignore1, b + (d + rest), c);
    ReadComment(notes.ignore2, d + rest, c);
    ReadComment(notes.ignore3, rest, c);
  }

  lemma NewObjectsOk()
    ensures NameOk(NEW_OBJECTS) && PubBase(NEW_OBJECTS) == None
  {
    assert forall k | 0 <= k < |NEW_OBJECTS| :: !IsDigit(NEW_OBJECTS[k]);
    NoDigitsNoVersion(NEW_OBJECTS, WordEnd(NEW_OBJECTS, 0));
  }

  lemma {:induction false} NoDigitsNoVersion(s: string, k: nat)
    requires k <= |s| && forall i | 0 <= i < |s| :: !IsDigit(s[i])
    ensures PubSearch(s, k) == None
    decreases k
  {
    if k > 0 {
      NoDigitsNoVersion(s, k - 1);
    }
  }

  lemma IgnoreListReads(ignored: set<string>)
    requires forall x | x in ignored :: NameOk(x)
    ensures Plain(IgnoreList(ignored)) && IgnoreList(ignored) != ""
    ensures Split(IgnoreList(ignored)) == [NEW_OBJECTS] + Sorted(ignored)
  {
    hide Split, Join, Sorted;
    var names := Sorted(ignored);
    var end := Join(SEPARATOR, names) + "\n  ";
    assert IgnoreList(ignored) == " " + (NEW_OBJECTS + (SEPARATOR + end));
    NewObjectsOk();
    JoinPlain(SEPARATOR, names);
    ListParts(Join(SEPARATOR, names));
    SplitSkipsSpaces(" ", NEW_OBJECTS + (SEPARATOR + end));
    SplitTakesWord(NEW_OBJECTS, SEPARATOR + end);
    SplitSkipsSpaces(SEPARATOR, end);
    SplitJoin(SEPARATOR, names, "\n  ");
  }

  lemma ListParts(joined: string)
    requires Plain(joined)
    ensures Plain(" " + NEW_OBJECTS + SEPARATOR + joined + "\n  ")
  {
    NewObjectsOk();
    assert Plain(SEPARATOR) && Plain("\n  ");
  }

  lemma {:induction false} JoinPlain(sep: string, parts: seq<string>)
    requires Plain(sep) && forall p | p in parts :: Plain(p)
    ensures Plain(Join(sep, parts))
  {
    if |parts| > 0 {
      assert parts[0] in parts && forall p | p in parts[1..] :: p in parts;
      if |parts| > 1 { JoinPlain(sep, parts[1..]); }
    }
  }

  /** The state after the ignore file, from the state before it. */
  ghost function WithIgnored(c: Cil, ignored: set<string>): Cil {
    AddSet(c.(types := c.types + {NEW_OBJECTS}, attributes := c.attributes + {NEW_OBJECTS}),
           NEW_OBJECTS, [NEW_OBJECTS] + Sorted(ignored))
  }

  lemma IgnoreStatementsRead(ignored: set<string>)
    requires forall x | x in ignored :: NameOk(x)
    ensures var b1, b2, b3 := TYPE + " " + NEW_OBJECTS, ATTRIBUTE + " " + NEW_OBJECTS,
                              SetText(SET, NEW_OBJECTS, "\n  ", IgnoreList(ignored));
      && b1 != "" && Closes(b1[1..], 1) && Classify(b1) == Type(NEW_OBJECTS)
      && b2 != "" && Closes(b2[1..], 1) && Classify(b2) == Attribute(NEW_OBJECTS)
      && b3 != "" && Closes(b3[1..], 1) && Classify(b3) == Set(NEW_OBJECTS, [NEW_OBJECTS] + Sorted(ignored))
  {
    hide Classify, Closes, IgnoreList, Split, Sorted;
    NewObjectsOk();
    PrintedType(NEW_OBJECTS);
    PrintedAttribute(NEW_OBJECTS);
    IgnoreListReads(ignored);
    PrintedSet(NEW_OBJECTS, "\n  ", IgnoreList(ignored));
  }

  lemma ReadIgnore(notes: Notes, ignored: set<string>, c: Cil)
    requires NotesOk(notes) && forall x | x in ignored :: NameOk(x)
    ensures ParseFrom(IgnoreText(notes, ignored), c) == Parsed(WithIgnored(c, ignored))
  {
    hide Classify, Closes, WrapParens, SetText, IgnoreList, IgnoreHeader, AddSet, ParseFrom, Sorted, NameOk, NotesOk;
    ReadHeader(notes, IgnoreStatements(ignored), c);
    IgnoreStatementsRead(ignored);
    ReadThree(TYPE + " " + NEW_OBJECTS, ATTRIBUTE + " " + NEW_OBJECTS, SetText(SET, NEW_OBJECTS, "\n  ", IgnoreList(ignored)),
              Set(NEW_OBJECTS, [NEW_OBJECTS] + Sorted(ignored)), c);
  }

  lemma ReadThree(b1: string, b2: string, b3: string, cmd: Command, c: Cil)
    requires b1 != "" && Closes(b1[1..], 1) && Classify(b1) == Type(NEW_OBJECTS)
    requires b2 != "" && Closes(b2[1..], 1) && Classify(b2) == Attribute(NEW_OBJECTS)
    requires b3 != "" && Closes(b3[1..], 1) && Classify(b3) == cmd && cmd.Set?
    ensures ParseFrom(WrapParens(b1) + ("\n" + (WrapParens(b2) + ("\n" + (WrapParens(b3) + ("\n" + ""))))), c)
      == Parsed(AddSet(c.(types := c.types + {NEW_OBJECTS}, attributes := c.attributes + {NEW_OBJECTS}), cmd.name, cmd.members))
  {
    hide Classify, Closes, WrapParens, AddSet, ParseFrom;
    var r3 := WrapParens(b3) + ("\n" + "");
    var r2 := WrapParens(b2) + ("\n" + r3);
    var c1 := c.(types := c.types + {NEW_OBJECTS});
    var c2 := c1.(attributes := c1.attributes + {NEW_OBJECTS});
    ParseOne(c, b1, r2);
    ParseOne(c1, b2, r3);
    ParseOne(c2, b3, "");
    ParseNothing(AddSet(c2, cmd.name, cmd.members));
  }

  lemma ParseNothing(c: Cil)
    ensures ParseFrom("", c) == Parsed(c)
  {
  }

  // ---------------------------------------------------------------------------------------
  // The Treble tests

  /** The policies agree on what is new and removed: a public type is so exactly when it is so in
      the whole policy. */
  ghost predicate Agree(inputs: Inputs, basePub: Cil, oldPub: Cil) {
    basePub.types == inputs.pubTypes &&
    (forall n | n in basePub.types - oldPub.types :: n in inputs.allTypes - inputs.oldAllTypes) &&
    (forall o | o in oldPub.types - basePub.types :: o in inputs.oldAllTypes - inputs.allTypes)
  }

  /** Parsed inputs that can be printed. */
  ghost predicate ProperInputs(inputs: Inputs) {
    Indexed(inputs.mapping) && Printable(inputs.mapping) && Indexed(inputs.latestMapping) && NotesOk(inputs.notes) &&
    forall x | x in inputs.allTypes + inputs.oldAllTypes :: NameOk(x)
  }

  lemma TargetPrintable(inputs: Inputs)
    requires ProperInputs(inputs)
    ensures Printable(inputs.Target())
    ensures forall x | x in inputs.RemovedTypes() + inputs.IgnoredNew(inputs.NewTypes()) :: NameOk(x)
  {
    hide NameOk, Inputs.Targets, Inputs.IsMapped, Inverse, PubNames;
  }

  /** The state that the two written files parse to. */
  lemma WrittenParses(inputs: Inputs)
    requires ProperInputs(inputs) && Generated(inputs).Written?
    ensures var text := Generated(inputs).mapping + Generated(inputs).ignore;
      var before := After(EMPTY.(types := inputs.RemovedTypes()), inputs.Target());
      Parse(text) == Parsed(WithIgnored(before, inputs.IgnoredNew(inputs.NewTypes())))
  {
    hide Inputs.Target, Inputs.IgnoredNew, Unparse, After, WithIgnored, ParseFrom, RemovedText, Comment, IgnoreText, NameOk,
         Indexed, NonEmptySets, NamesOk;
    var removed, target, ignored := inputs.RemovedTypes(), inputs.Target(), inputs.IgnoredNew(inputs.NewTypes());
    var notes := inputs.notes;
    var i := IgnoreText(notes, ignored);
    TargetPrintable(inputs);
    PrintableParts(target);
    var c := EMPTY.(types := removed);
    assert MappingText(notes, removed, target) + i == RemovedText(notes, removed) + (Comment(notes.footer) + (Unparse(target) + i));
    ReadRemoved(notes, removed, Comment(notes.footer) + (Unparse(target) + i));
    NotesFooter(notes);
    ReadComment(notes.footer, Unparse(target) + i, c);
    OnlyTypesIndexed(removed);
    ReadBack(c, target, i);
    ReadIgnore(notes, ignored, After(c, target));
  }

  lemma PrintableParts(c: Cil)
    requires Printable(c)
    ensures NamesOk(c) && NonEmptySets(c)
  {
  }

  lemma NotesFooter(notes: Notes)
    requires NotesOk(notes)
    ensures OneLine(notes.footer)
  {
  }

  lemma OnlyTypesIndexed(types: set<string>)
    ensures Indexed(EMPTY.(types := types))
  {
    EmptyIsIndexed();
  }

  lemma PubNamesWithNewObjects(tas: set<string>)
    ensures PubNames(tas + {NEW_OBJECTS}) == PubNames(tas)
  {
    NewObjectsOk();
  }

  lemma WithIgnoredSays(before: Cil, ignored: set<string>)
    requires Indexed(before)
    ensures var c := WithIgnored(before, ignored);
      && Indexed(c) && c.types == before.types + {NEW_OBJECTS} && c.pubtypes == before.pubtypes
      && c.sets == before.sets[NEW_OBJECTS := Lookup(before.sets, NEW_OBJECTS) + ({NEW_OBJECTS} + ignored)]
  {
    var c1 := before.(types := before.types + {NEW_OBJECTS}, attributes := before.attributes + {NEW_OBJECTS});
    var members := [NEW_OBJECTS] + Sorted(ignored);
    hide Inverse, PubNames, AddMembers, PubBase, Sorted, NameOk;
    assert Indexed(c1);
    AddSetIndexed(c1, NEW_OBJECTS, members);
    PubNamesWithNewObjects(before.sets.Keys);
    assert Elements(members) == {NEW_OBJECTS} + ignored;
    assert WithIgnored(before, ignored).sets.Keys == before.sets.Keys + {NEW_OBJECTS};
  }

  /** What the written files say, of all that the tests look at. */
  lemma WrittenSays(inputs: Inputs, c: Cil)
    requires ProperInputs(inputs)
    requires c == WithIgnored(After(EMPTY.(types := inputs.RemovedTypes()), inputs.Target()), inputs.IgnoredNew(inputs.NewTypes()))
    ensures Indexed(c) && c.types == inputs.RemovedTypes() + {NEW_OBJECTS} && c.pubtypes == inputs.mapping.pubtypes
    ensures var target := inputs.Target().sets;
      c.sets == target[NEW_OBJECTS := Lookup(target, NEW_OBJECTS) + ({NEW_OBJECTS} + inputs.IgnoredNew(inputs.NewTypes()))]
  {
    var target, ignored := inputs.Target(), inputs.IgnoredNew(inputs.NewTypes());
    var before := After(EMPTY.(types := inputs.RemovedTypes()), target);
    hide Inputs.IgnoredNew, Inputs.RemovedTypes, Inverse, PubNames, WithIgnored, NameOk;
    assert target.sets.Keys == inputs.mapping.sets.Keys;
    assert Indexed(before);
    WithIgnoredSays(before, ignored);
  }

  /** A new type ends up somewhere in a run without errors. */
  lemma NewTypeIsMapped(inputs: Inputs, n: string) returns (ta: string)
    requires Indexed(inputs.latestMapping) && Generated(inputs).Written? && n in inputs.NewTypes()
    ensures if inputs.Ignored(n) then ta == NEW_OBJECTS && n in inputs.IgnoredNew(inputs.NewTypes())
            else ta in inputs.mapping.sets && n in inputs.Target().sets[ta]
  {
    var new_ := inputs.NewTypes();
    if inputs.Ignored(n) {
      ta := NEW_OBJECTS;
    } else {
      assert n !in inputs.InvalidNew(new_);
      assert inputs.IsMapped(n) && inputs.Targets(n).Some?;
      InverseHas(inputs.latestMapping.sets);
      hide Inverse, Indexed, ChangeApiLevel;
      var t :| t in inputs.latestMapping.rsets[n];
      ta := ChangeApiLevel(t, inputs.latestVersion, inputs.targetVersion).value;
      assert ta in inputs.Targets(n).value;
      assert ta !in inputs.InvalidMapping(new_);
      assert n in inputs.MappedInto(new_, ta);
    }
  }

  /** The types that the written files have an entry for: those of the mapping, and all new types. */
  lemma WrittenMembers(inputs: Inputs, c: Cil)
    requires Indexed(inputs.latestMapping) && Generated(inputs).Written?
    requires var target := inputs.Target().sets;
      c.sets == target[NEW_OBJECTS := Lookup(target, NEW_OBJECTS) + ({NEW_OBJECTS} + inputs.IgnoredNew(inputs.NewTypes()))]
    ensures Members(c.sets) == Members(inputs.mapping.sets) + inputs.NewTypes() + {NEW_OBJECTS}
  {
    hide Generated, Indexed, Inputs.NewTypes, Inputs.Target, Inputs.IgnoredNew;
    TargetKeys(inputs);
    forall n | n in inputs.NewTypes() ensures n in Members(c.sets) {
      var ta := NewTypeIsMapped(inputs, n);
      MemberOf(c.sets, ta, n);
    }
    forall t | t in Members(inputs.mapping.sets) ensures t in Members(c.sets) {
      var ta := StaysInTarget(inputs, t);
      MemberOf(c.sets, ta, t);
    }
    MemberOf(c.sets, NEW_OBJECTS, NEW_OBJECTS);
    forall t | t in Members(c.sets) ensures t in Members(inputs.mapping.sets) + inputs.NewTypes() + {NEW_OBJECTS} {
      var ta :| ta in c.sets && t in c.sets[ta];
      FromTarget(inputs, ta, t);
    }
  }

  lemma MemberOf(sets: map<string, set<string>>, ta: string, t: string)
    ensures t in Lookup(sets, ta) ==> t in Members(sets)
  {
  }

  lemma TargetKeys(inputs: Inputs)
    ensures inputs.Target().sets.Keys == inputs.mapping.sets.Keys
  {
    hide Inputs.NewTypes, Inputs.MappedInto;
  }

  lemma StaysInTarget(inputs: Inputs, t: string) returns (ta: string)
    requires t in Members(inputs.mapping.sets)
    ensures ta in inputs.Target().sets && t in inputs.Target().sets[ta]
  {
    hide Inputs.Targets, Inputs.NewTypes;
    ta :| ta in inputs.mapping.sets && t in inputs.mapping.sets[ta];
  }

  lemma FromTarget(inputs: Inputs, ta: string, t: string)
    ensures t in Lookup(inputs.Target().sets, ta) ==> t in Members(inputs.mapping.sets) + inputs.NewTypes()
    ensures inputs.IgnoredNew(inputs.NewTypes()) <= inputs.NewTypes()
  {
    hide Inputs.Targets, Inputs.NewTypes;
  }

  lemma UnmappedIs(inputs: Inputs, basePub: Cil, oldPub: Cil, c: Cil)
    requires Indexed(c) && c.types == inputs.RemovedTypes() + {NEW_OBJECTS} && c.pubtypes == inputs.mapping.pubtypes
    requires Members(c.sets) == Members(inputs.mapping.sets) + inputs.NewTypes() + {NEW_OBJECTS}
    ensures UnmappedNewTypes(basePub, oldPub, c)
      == basePub.types - oldPub.types - Members(inputs.mapping.sets) - inputs.NewTypes() - {NEW_OBJECTS}
    ensures UnmappedRmTypes(basePub, oldPub, c)
      == ((oldPub.types - basePub.types) * inputs.mapping.pubtypes) - inputs.RemovedTypes() - {NEW_OBJECTS}
  {
    hide Inputs.RemovedTypes, Inputs.NewTypes, PubNames, Members;
    assert c.rsets.Keys == Members(c.sets);
  }

  /** What the Treble tests find in the files written by a run without errors, for any two policies: the
      new public types that the run did not see as new and the mapping does not hold, and the removed
      versioned types that it did not see as removed. */
  lemma TrebleViolators(inputs: Inputs, basePub: Cil, oldPub: Cil)
    requires ProperInputs(inputs) && Generated(inputs).Written?
    ensures var p := Parse(Generated(inputs).mapping + Generated(inputs).ignore);
      && p.Parsed?
      && UnmappedNewTypes(basePub, oldPub, p.cil)
        == basePub.types - oldPub.types - Members(inputs.mapping.sets) - inputs.NewTypes() - {NEW_OBJECTS}
      && UnmappedRmTypes(basePub, oldPub, p.cil)
        == ((oldPub.types - basePub.types) * inputs.mapping.pubtypes) - inputs.RemovedTypes() - {NEW_OBJECTS}
  {
    WrittenParses(inputs);
    var c := Parse(Generated(inputs).mapping + Generated(inputs).ignore).cil;
    WrittenSays(inputs, c);
    hide Generated, Parse, Indexed, WithIgnored, UnmappedNewTypes, UnmappedRmTypes, Inputs.Target, Inputs.RemovedTypes, Inputs.NewTypes;
    assert Indexed(inputs.latestMapping);
    WrittenMembers(inputs, c);
    UnmappedIs(inputs, basePub, oldPub, c);
  }

  /** A run that ends without errors leaves nothing for the Treble tests to find, when the written
      mapping and ignore files are read together and the public types are new or removed where they are
      so in the whole policies. */
  lemma TrebleTestsPass(inputs: Inputs, basePub: Cil, oldPub: Cil)
    requires ProperInputs(inputs) && Agree(inputs, basePub, oldPub) && Generated(inputs).Written?
    ensures var p := Parse(Generated(inputs).mapping + Generated(inputs).ignore);
      p.Parsed? && UnmappedNewTypes(basePub, oldPub, p.cil) == {} && UnmappedRmTypes(basePub, oldPub, p.cil) == {}
  {
    hide ProperInputs, Generated, Parse, UnmappedNewTypes, UnmappedRmTypes;
    TrebleViolators(inputs, basePub, oldPub);
    assert basePub.types - oldPub.types <= inputs.NewTypes();
    assert (oldPub.types - basePub.types) * inputs.mapping.pubtypes <= inputs.RemovedTypes();
  }

  /** With one-part versions the check on removed types is empty: nothing counts as removed unless
      the name of a mapped type holds a number of its own. */
  lemma YearVersionsRemoveNothing(inputs: Inputs)
    requires Indexed(inputs.mapping)
    requires forall ta | ta in inputs.mapping.sets ::
      exists base, v :: ta == base + "_" + v && base != "" && AllWord(base) && v != "" && AllDigits(v) && !HasNumber(base)
    ensures inputs.RemovedTypes() == {}
  {
    forall ta | ta in inputs.mapping.sets ensures PubBase(ta) == None {
      var base, v :| ta == base + "_" + v && base != "" && AllWord(base) && v != "" && AllDigits(v) && !HasNumber(base);
      OnePartVersionIsNotPublic(base, v);
    }
  }

  // ---------------------------------------------------------------------------------------
  // How a run ends, and what it writes, in terms of the files it is given

  /** The mapping files are parsed files. */
  ghost predicate ParsedInputs(inputs: Inputs) {
    Indexed(inputs.mapping) && Indexed(inputs.latestMapping) && Indexed(inputs.latestIgnore)
  }

  /** n is a public type of the new policy, and no type of the old one. */
  ghost predicate IsNew(inputs: Inputs, n: string) {
    n in inputs.pubTypes && n in inputs.allTypes && n !in inputs.oldAllTypes
  }

  ghost predicate InIgnoreFile(inputs: Inputs, n: string) {
    exists ta :: Maps(inputs.latestIgnore, ta, n)
  }

  /** The new type n belongs into the entry ta: into the same name as in the latest mapping, with the other
      version. */
  ghost predicate TakesOver(inputs: Inputs, ta: string, n: string) {
    && IsNew(inputs, n) && !InIgnoreFile(inputs, n)
    && exists base :: ta == base + inputs.targetVersion && Maps(inputs.latestMapping, base + inputs.latestVersion, n)
  }

  /** An entry of the latest mapping for the new type n has another version. */
  ghost predicate HasWrongVersion(inputs: Inputs, n: string) {
    && IsNew(inputs, n) && !InIgnoreFile(inputs, n)
    && exists t :: Maps(inputs.latestMapping, t, n) && forall base :: t != base + inputs.latestVersion
  }

  ghost predicate Unaccounted(inputs: Inputs, n: string) {
    IsNew(inputs, n) && !InIgnoreFile(inputs, n) && forall t :: !Maps(inputs.latestMapping, t, n)
  }

  ghost predicate IsRemoved(inputs: Inputs, x: string) {
    x in inputs.mapping.pubtypes && x in inputs.oldAllTypes && x !in inputs.allTypes
  }

  lemma ChangeSays(t: string, apiFrom: string, apiTo: string)
    ensures ChangeApiLevel(t, apiFrom, apiTo).Some? <==> exists base :: t == base + apiFrom
    ensures forall base | t == base + apiFrom :: ChangeApiLevel(t, apiFrom, apiTo) == Some(base + apiTo)
  {
    var k := |t| - |apiFrom|;
    if k >= 0 && t[k..] == apiFrom {
      assert t == t[..k] + apiFrom;
    }
    forall base | t == base + apiFrom ensures ChangeApiLevel(t, apiFrom, apiTo) == Some(base + apiTo) {
      assert t[k..] == apiFrom && t[..k] == base;
    }
  }

  lemma TargetsSay(inputs: Inputs, n: string)
    requires Indexed(inputs.latestMapping)
    ensures inputs.Targets(n).None? <==> exists t :: Maps(inputs.latestMapping, t, n) && forall base :: t != base + inputs.latestVersion
    ensures inputs.Targets(n).Some? ==> forall ta :: ta in inputs.Targets(n).value <==>
      exists base :: ta == base + inputs.targetVersion && Maps(inputs.latestMapping, base + inputs.latestVersion, n)
  {
    hide Indexed, ChangeApiLevel, Maps;
    var latest := Lookup(inputs.latestMapping.rsets, n);
    forall t ensures t in latest <==> Maps(inputs.latestMapping, t, n) {
      IndexSays(inputs.latestMapping, t, n);
    }
    forall t ensures ChangeApiLevel(t, inputs.latestVersion, inputs.targetVersion).Some? <==> exists base :: t == base + inputs.latestVersion {
      ChangeSays(t, inputs.latestVersion, inputs.targetVersion);
    }
    if inputs.Targets(n).Some? {
      forall ta ensures ta in inputs.Targets(n).value <==>
        exists base :: ta == base + inputs.targetVersion && Maps(inputs.latestMapping, base + inputs.latestVersion, n)
      {
        TargetSays(inputs, n, ta);
      }
    }
  }

  lemma TargetSays(inputs: Inputs, n: string, ta: string)
    requires Indexed(inputs.latestMapping) && inputs.Targets(n).Some?
    ensures ta in inputs.Targets(n).value <==>
      exists base :: ta == base + inputs.targetVersion && Maps(inputs.latestMapping, base + inputs.latestVersion, n)
  {
    hide Indexed, ChangeApiLevel, Maps;
    var latest := Lookup(inputs.latestMapping.rsets, n);
    if ta in inputs.Targets(n).value {
      var t :| t in latest && ChangeApiLevel(t, inputs.latestVersion, inputs.targetVersion).value == ta;
      ChangeSays(t, inputs.latestVersion, inputs.targetVersion);
      IndexSays(inputs.latestMapping, t, n);
      var base :| t == base + inputs.latestVersion;
    }
    if base :| ta == base + inputs.targetVersion && Maps(inputs.latestMapping, base + inputs.latestVersion, n) {
      var t := base + inputs.latestVersion;
      ChangeSays(t, inputs.latestVersion, inputs.targetVersion);
      IndexSays(inputs.latestMapping, t, n);
      assert t in latest;
    }
  }

  lemma IndexSays(c: Cil, ta: string, x: string)
    requires Indexed(c)
    ensures ta in Lookup(c.rsets, x) <==> Maps(c, ta, x)
    ensures x in c.rsets <==> exists e :: Maps(c, e, x)
  {
    InverseHas(c.sets);
    hide Inverse, PubNames;
    assert ta in Lookup(c.rsets, x) <==> x in Lookup(c.sets, ta);
    if x in c.rsets {
      var e :| e in c.rsets[x];
      assert e in Lookup(c.rsets, x) <==> x in Lookup(c.sets, e);
      assert Maps(c, e, x);
    }
    if e :| Maps(c, e, x) {
      assert e in Lookup(c.rsets, x) <==> x in Lookup(c.sets, e);
    }
  }

  lemma MappedSays(inputs: Inputs, n: string)
    requires ParsedInputs(inputs)
    ensures n in inputs.NewTypes() <==> IsNew(inputs, n)
    ensures inputs.Ignored(n) <==> InIgnoreFile(inputs, n)
    ensures inputs.IsMapped(n) <==> !InIgnoreFile(inputs, n) && exists t :: Maps(inputs.latestMapping, t, n)
  {
    hide Indexed, Maps;
    IndexSays(inputs.latestIgnore, "", n);
    IndexSays(inputs.latestMapping, "", n);
  }

  lemma TakesOverIs(inputs: Inputs, ta: string, n: string)
    requires ParsedInputs(inputs)
    ensures inputs.VersionsOk(inputs.NewTypes()) ==>
      (TakesOver(inputs, ta, n) <==> n in inputs.NewTypes() && inputs.IsMapped(n) && inputs.Targets(n).Some? && ta in inputs.Targets(n).value)
    ensures HasWrongVersion(inputs, n) <==> n in inputs.NewTypes() && inputs.IsMapped(n) && inputs.Targets(n).None?
  {
    hide Indexed, Maps, Inputs.Targets, Inputs.NewTypes, Inputs.IsMapped, IsNew, InIgnoreFile;
    MappedSays(inputs, n);
    TargetsSay(inputs, n);
  }

  /** A run raises an exception exactly if some new type, not ignored, has an entry of another version in the
      latest mapping; in particular it never does if all entries have the latest version. */
  lemma WrongVersionExactly(inputs: Inputs)
    requires ParsedInputs(inputs)
    ensures Generated(inputs) == WrongVersion <==> exists n :: HasWrongVersion(inputs, n)
  {
    hide ParsedInputs, HasWrongVersion, TakesOver, Inputs.Targets, Inputs.NewTypes, Inputs.IsMapped, MappingText, IgnoreText,
         Inputs.InvalidNew, Inputs.InvalidMapping, Inputs.InvalidRemoved;
    forall n ensures HasWrongVersion(inputs, n) <==> n in inputs.NewTypes() && inputs.IsMapped(n) && inputs.Targets(n).None? {
      TakesOverIs(inputs, "", n);
    }
  }

  lemma InvalidSays(inputs: Inputs)
    requires ParsedInputs(inputs) && inputs.VersionsOk(inputs.NewTypes())
    ensures forall n :: n in inputs.InvalidNew(inputs.NewTypes()) <==> Unaccounted(inputs, n)
    ensures forall ta :: ta in inputs.InvalidMapping(inputs.NewTypes()) <==> ta !in inputs.mapping.sets && exists n :: TakesOver(inputs, ta, n)
    ensures forall x :: x in inputs.InvalidRemoved() <==> IsRemoved(inputs, x) && x !in inputs.latestMapping.types
  {
    hide ParsedInputs, TakesOver, Inputs.Targets, IsNew, InIgnoreFile, Maps;
    forall n ensures n in inputs.InvalidNew(inputs.NewTypes()) <==> Unaccounted(inputs, n) {
      MappedSays(inputs, n);
    }
    forall ta ensures ta in inputs.InvalidMapping(inputs.NewTypes()) <==> ta !in inputs.mapping.sets && exists n :: TakesOver(inputs, ta, n) {
      InvalidTarget(inputs, ta);
    }
  }

  lemma InvalidTarget(inputs: Inputs, ta: string)
    requires ParsedInputs(inputs) && inputs.VersionsOk(inputs.NewTypes())
    ensures ta in inputs.InvalidMapping(inputs.NewTypes()) <==> ta !in inputs.mapping.sets && exists n :: TakesOver(inputs, ta, n)
  {
    hide ParsedInputs, TakesOver, Inputs.Targets, Inputs.NewTypes, Inputs.IsMapped, Inputs.VersionsOk;
    forall n ensures TakesOver(inputs, ta, n) <==>
      n in inputs.NewTypes() && inputs.IsMapped(n) && inputs.Targets(n).Some? && ta in inputs.Targets(n).value
    {
      TakesOverIs(inputs, ta, n);
    }
  }

  /** The errors of a run: new types that the latest files say nothing of, entries that the mapping lacks, and
      removed types that the latest mapping does not declare. A run without these writes its files. */
  lemma ErrorsExactly(inputs: Inputs)
    requires ParsedInputs(inputs) && Generated(inputs) != WrongVersion
    ensures Generated(inputs).Errors? <==>
      || (exists n :: Unaccounted(inputs, n))
      || (exists ta, n :: ta !in inputs.mapping.sets && TakesOver(inputs, ta, n))
      || (exists x :: IsRemoved(inputs, x) && x !in inputs.latestMapping.types)
    ensures var e := Generated(inputs); e.Errors? ==>
      && (forall n :: n in e.newTypes <==> Unaccounted(inputs, n))
      && (forall ta :: ta in e.mappingTypes <==> ta !in inputs.mapping.sets && exists n :: TakesOver(inputs, ta, n))
      && (forall x :: x in e.removedTypes <==> IsRemoved(inputs, x) && x !in inputs.latestMapping.types)
  {
    hide ParsedInputs, TakesOver, Unaccounted, IsRemoved, Inputs.NewTypes, MappingText, IgnoreText,
         Inputs.InvalidNew, Inputs.InvalidMapping, Inputs.InvalidRemoved, Inputs.VersionsOk;
    assert inputs.VersionsOk(inputs.NewTypes());
    InvalidSays(inputs);
  }

  /** The two written files, read together: each entry of the mapping holds what it held, and the new types
      that the latest mapping has in the entry of the same name; the ignored new types are listed on their
      own; the types declared are those removed. */
  lemma WrittenExactly(inputs: Inputs)
    requires ProperInputs(inputs) && ParsedInputs(inputs) && Generated(inputs).Written?
    ensures var p := Parse(Generated(inputs).mapping + Generated(inputs).ignore);
      && p.Parsed? && p.cil.sets.Keys == inputs.mapping.sets.Keys + {"new_objects"}
      && (forall ta, x :: Maps(p.cil, ta, x) <==>
        || Maps(inputs.mapping, ta, x) || TakesOver(inputs, ta, x)
        || (ta == "new_objects" && (x == ta || (IsNew(inputs, x) && InIgnoreFile(inputs, x)))))
      && (forall x :: x in p.cil.types <==> x == "new_objects" || IsRemoved(inputs, x))
      && p.cil.attributes == {"new_objects"} && p.cil.expand == inputs.mapping.expand
  {
    hide ProperInputs, Generated, Parse, Indexed, WithIgnored, Inputs.Target, IsNew, InIgnoreFile, TakesOver, ParsedInputs, Maps,
         Inputs.NewTypes, Inputs.IgnoredNew, After, Inputs.RemovedTypes;
    WrittenParses(inputs);
    var c := Parse(Generated(inputs).mapping + Generated(inputs).ignore).cil;
    WrittenState(inputs, c);
  }

  lemma WrittenState(inputs: Inputs, c: Cil)
    requires ProperInputs(inputs) && ParsedInputs(inputs) && Generated(inputs).Written?
    requires c == WithIgnored(After(EMPTY.(types := inputs.RemovedTypes()), inputs.Target()), inputs.IgnoredNew(inputs.NewTypes()))
    ensures c.sets.Keys == inputs.mapping.sets.Keys + {NEW_OBJECTS} && c.attributes == {NEW_OBJECTS} && c.expand == inputs.mapping.expand
    ensures forall x :: x in c.types <==> x == NEW_OBJECTS || IsRemoved(inputs, x)
    ensures forall ta, x :: Maps(c, ta, x) <==>
      || Maps(inputs.mapping, ta, x) || TakesOver(inputs, ta, x)
      || (ta == NEW_OBJECTS && (x == ta || (IsNew(inputs, x) && InIgnoreFile(inputs, x))))
  {
    hide ProperInputs, Generated, Indexed, WithIgnored, Inputs.Target, IsNew, InIgnoreFile, TakesOver, ParsedInputs, Maps,
         Inputs.NewTypes, Inputs.IgnoredNew, After;
    WrittenSays(inputs, c);
    WrittenFlags(inputs, c);
    TargetKeys(inputs);
    forall ta, x ensures Maps(c, ta, x) <==>
      || Maps(inputs.mapping, ta, x) || TakesOver(inputs, ta, x)
      || (ta == NEW_OBJECTS && (x == ta || (IsNew(inputs, x) && InIgnoreFile(inputs, x))))
    {
      WrittenMember(inputs, c, ta, x);
    }
  }

  lemma WrittenFlags(inputs: Inputs, c: Cil)
    requires c == WithIgnored(After(EMPTY.(types := inputs.RemovedTypes()), inputs.Target()), inputs.IgnoredNew(inputs.NewTypes()))
    ensures c.attributes == {NEW_OBJECTS} && c.expand == inputs.mapping.expand
  {
    hide Inputs.IgnoredNew, Inputs.RemovedTypes, Inputs.Grown, Inverse, PubNames, AddMembers, PubBase, Sorted;
    assert map[] + inputs.mapping.expand == inputs.mapping.expand;
  }

  lemma WrittenMember(inputs: Inputs, c: Cil, ta: string, x: string)
    requires ParsedInputs(inputs) && Generated(inputs).Written?
    requires var target := inputs.Target().sets;
      c.sets == target[NEW_OBJECTS := Lookup(target, NEW_OBJECTS) + ({NEW_OBJECTS} + inputs.IgnoredNew(inputs.NewTypes()))]
    ensures Maps(c, ta, x) <==>
      || Maps(inputs.mapping, ta, x) || TakesOver(inputs, ta, x)
      || (ta == NEW_OBJECTS && (x == ta || (IsNew(inputs, x) && InIgnoreFile(inputs, x))))
  {
    hide ParsedInputs, IsNew, InIgnoreFile, TakesOver, Generated, Inputs.NewTypes, Inputs.Target;
    MappedSays(inputs, x);
    TargetMember(inputs, ta, x);
  }

  lemma TargetMember(inputs: Inputs, ta: string, x: string)
    requires ParsedInputs(inputs) && Generated(inputs).Written?
    ensures x in Lookup(inputs.Target().sets, ta) <==> Maps(inputs.mapping, ta, x) || TakesOver(inputs, ta, x)
  {
    hide ParsedInputs, TakesOver, Inputs.NewTypes, MappingText, IgnoreText, Inputs.Targets, Inputs.IsMapped, Inputs.InvalidNew,
         Inputs.InvalidMapping, Inputs.InvalidRemoved, Inputs.VersionsOk;
    assert inputs.VersionsOk(inputs.NewTypes()) && inputs.InvalidMapping(inputs.NewTypes()) == {};
    InvalidTarget(inputs, ta);
    TakesOverIs(inputs, ta, x);
  }

  // ---------------------------------------------------------------------------------------
  // The tool

  lemma IgnoreOne(inputs: Inputs, done: set<string>, n: string)
    requires inputs.Ignored(n)
    ensures inputs.Grown(done + {n}) == inputs.Grown(done) && inputs.IgnoredNew(done + {n}) == inputs.IgnoredNew(done) + {n}
    ensures inputs.InvalidNew(done + {n}) == inputs.InvalidNew(done)
    ensures inputs.InvalidMapping(done + {n}) == inputs.InvalidMapping(done)
    ensures inputs.VersionsOk(done + {n}) == inputs.VersionsOk(done)
  {
    hide Inputs.Targets;
    assert forall ta :: inputs.MappedInto(done + {n}, ta) == inputs.MappedInto(done, ta);
  }

  lemma RejectOne(inputs: Inputs, done: set<string>, n: string)
    requires !inputs.Ignored(n) && n !in inputs.latestMapping.rsets
    ensures inputs.Grown(done + {n}) == inputs.Grown(done) && inputs.IgnoredNew(done + {n}) == inputs.IgnoredNew(done)
    ensures inputs.InvalidNew(done + {n}) == inputs.InvalidNew(done) + {n}
    ensures inputs.InvalidMapping(done + {n}) == inputs.InvalidMapping(done)
    ensures inputs.VersionsOk(done + {n}) == inputs.VersionsOk(done)
  {
    hide Inputs.Targets;
    assert forall ta :: inputs.MappedInto(done + {n}, ta) == inputs.MappedInto(done, ta);
  }

  lemma MapOne(inputs: Inputs, done: set<string>, n: string, targets: set<string>)
    requires inputs.IsMapped(n) && inputs.Targets(n) == Some(targets)
    ensures inputs.Grown(done + {n}) == MergeInto(inputs.Grown(done), {n}, targets)
    ensures inputs.IgnoredNew(done + {n}) == inputs.IgnoredNew(done)
    ensures inputs.InvalidNew(done + {n}) == inputs.InvalidNew(done)
    ensures inputs.InvalidMapping(done + {n}) == inputs.InvalidMapping(done) + (targets - inputs.mapping.sets.Keys)
    ensures inputs.VersionsOk(done + {n}) == inputs.VersionsOk(done)
  {
    hide Inputs.Targets;
    forall ta ensures inputs.MappedInto(done + {n}, ta) == inputs.MappedInto(done, ta) + if ta in targets then {n} else {} {
    }
    var l, r := inputs.Grown(done + {n}), MergeInto(inputs.Grown(done), {n}, targets);
    forall ta | ta in inputs.mapping.sets ensures l[ta] == r[ta] {
      assert inputs.MappedInto(done + {n}, ta) == inputs.MappedInto(done, ta) + if ta in targets then {n} else {};
    }
    assert l == r;
  }

  lemma MergeIntoMissing(sets: map<string, set<string>>, m: set<string>, done: set<string>, t: string)
    requires t !in sets
    ensures MergeInto(sets, m, done + {t}) == MergeInto(sets, m, done)
  {
  }

  lemma MergeIntoKeys(sets: map<string, set<string>>, m: set<string>, tas: set<string>)
    ensures MergeInto(sets, m, tas).Keys == sets.Keys
  {
  }

  /** Adds a new type to one target, if the mapping file has it. */
  method MapInto(mapping: MiniCilParser, n: string, t: string, ghost before: map<string, set<string>>, ghost done: set<string>)
      returns (found: bool)
    requires mapping.typeattributesets == MergeInto(before, {n}, done) && t !in done
    modifies mapping`typeattributesets
    ensures mapping.typeattributesets == MergeInto(before, {n}, done + {t}) && found == (t in before.Keys)
  {
    hide MergeInto;
    MergeIntoKeys(before, {n}, done);
    if t !in mapping.typeattributesets {
      MergeIntoMissing(before, {n}, done, t);
      return false;
    }
    MergeIntoOne(before, {n}, done, t);
    mapping.typeattributesets := mapping.typeattributesets[t := mapping.typeattributesets[t] + {n}];
    found := true;
  }

  /** The targets that the mapping file lacks. */
  ghost function Missing(sets: map<string, set<string>>, targets: set<string>): set<string> {
    targets - sets.Keys
  }

  lemma MissingNext(sets: map<string, set<string>>, done: set<string>, t: string)
    ensures Missing(sets, done + {t}) == Missing(sets, done) + if t in sets.Keys then {} else {t}
    ensures Missing(sets, {}) == {}
  {
  }

  /** Adds a new type to each of its targets, and returns those that the mapping file lacks. */
  method MapType(mapping: MiniCilParser, n: string, targets: set<string>) returns (missing: set<string>)
    modifies mapping`typeattributesets
    ensures mapping.typeattributesets == MergeInto(old(mapping.typeattributesets), {n}, targets)
    ensures missing == Missing(old(mapping.typeattributesets), targets)
  {
    missing := {};
    hide MergeInto;
    hide Missing;
    ghost var before, done := mapping.typeattributesets, {};
    var todo := targets;
    MergeIntoNone(before, {n});
    MissingNext(before, {}, n);
    while todo != {}
      invariant done + todo == targets && done !! todo && mapping.typeattributesets == MergeInto(before, {n}, done)
      invariant missing == Missing(before, done)
      decreases |todo|
    {
      var t :| t in todo;
      var found := MapInto(mapping, n, t, before, done);
      MissingNext(before, done, t);
      if !found {
        missing := missing + {t};
      }
      todo, done := todo - {t}, done + {t};
    }
    assert done == targets;
  }

  lemma NothingMapped(inputs: Inputs)
    ensures inputs.Grown({}) == inputs.mapping.sets && inputs.IgnoredNew({}) == {} && inputs.VersionsOk({})
    ensures inputs.InvalidNew({}) == {} && inputs.InvalidMapping({}) == {}
  {
    hide Inputs.Targets;
    forall ta | ta in inputs.mapping.sets ensures inputs.Grown({})[ta] == inputs.mapping.sets[ta] {
      assert inputs.MappedInto({}, ta) == {};
    }
    assert inputs.Grown({}) == inputs.mapping.sets;
  }

  /** Step 4 for the new types, visited in any order; false when the source raises an exception. */
  method MapNewTypes(mapping: MiniCilParser, inputs: Inputs)
    returns (ok: bool, ignored: set<string>, invalidNew: set<string>, invalidMapping: set<string>)
    requires mapping.typeattributesets == inputs.mapping.sets
    modifies mapping`typeattributesets
    ensures ok == inputs.VersionsOk(inputs.NewTypes())
    ensures ok ==>
      && mapping.typeattributesets == inputs.Grown(inputs.NewTypes())
      && ignored == inputs.IgnoredNew(inputs.NewTypes())
      && invalidNew == inputs.InvalidNew(inputs.NewTypes())
      && invalidMapping == inputs.InvalidMapping(inputs.NewTypes())
  {
    hide Inputs.Grown, Inputs.InvalidMapping, MergeInto, Inputs.InvalidNew, Inputs.IgnoredNew, Inputs.Targets;
    ignored, invalidNew, invalidMapping := {}, {}, {};
    var newTypes := inputs.pubTypes * (inputs.allTypes - inputs.oldAllTypes);
    var todo := newTypes;
    NothingMapped(inputs);
    assert newTypes - todo == {};
    while todo != {}
      invariant todo <= newTypes && mapping.typeattributesets == inputs.Grown(newTypes - todo)
      invariant ignored == inputs.IgnoredNew(newTypes - todo) && invalidNew == inputs.InvalidNew(newTypes - todo)
      invariant invalidMapping == inputs.InvalidMapping(newTypes - todo) && inputs.VersionsOk(newTypes - todo)
      decreases |todo|
    {
      var newType :| newType in todo;
      ghost var done := newTypes - todo;
      todo := todo - {newType};
      assert newTypes - todo == done + {newType};
      if newType in inputs.latestIgnore.rsets {
        ignored := ignored + {newType};
        IgnoreOne(inputs, done, newType);
      } else if newType in inputs.latestMapping.rsets {
        var targets := inputs.Targets(newType);
        if targets.None? {
          assert inputs.IsMapped(newType);
          return false, ignored, invalidNew, invalidMapping;
        }
        MapOne(inputs, done, newType, targets.value);
        GrownKeys(inputs, done);
        var missing := MapType(mapping, newType, targets.value);
        invalidMapping := invalidMapping + missing;
      } else {
        invalidNew := invalidNew + {newType};
        RejectOne(inputs, done, newType);
      }
    }
    assert newTypes - {} == newTypes == inputs.NewTypes();
    ok := true;
  }

  lemma GrownKeys(inputs: Inputs, types: set<string>)
    ensures inputs.Grown(types).Keys == inputs.mapping.sets.Keys
  {
  }

  /** Step 4 for the removed types. */
  method CheckRemoved(removedTypes: set<string>, latestRemoved: set<string>)
    returns (targetRemoved: set<string>, invalidRemoved: set<string>)
    ensures targetRemoved == removedTypes * latestRemoved && invalidRemoved == removedTypes - latestRemoved
  {
    targetRemoved, invalidRemoved := {}, {};
    var todo := removedTypes;
    while todo != {}
      invariant todo <= removedTypes
      invariant targetRemoved == (removedTypes - todo) * latestRemoved
      invariant invalidRemoved == (removedTypes - todo) - latestRemoved
      decreases |todo|
    {
      var removedType :| removedType in todo;
      todo := todo - {removedType};
      if removedType in latestRemoved {
        targetRemoved := targetRemoved + {removedType};
      } else {
        invalidRemoved := invalidRemoved + {removedType};
      }
    }
  }

  /** Steps 1 and 3 to 5. The mapping of the inputs is the object given, updated in place. */
  method Generate(mapping: MiniCilParser, inputs: Inputs) returns (outcome: Outcome)
    requires inputs.mapping == mapping.State()
    modifies mapping
    ensures outcome == Generated(inputs)
    ensures outcome.Written? ==> mapping.State() == inputs.Target()
  {
    hide Inputs.Grown, Inputs.InvalidMapping, Inputs.InvalidNew, Inputs.IgnoredNew, Inputs.VersionsOk, Unparse, Comment, IgnoreText;
    mapping.types := {};
    mapping.typeattributes := {};
    var removedTypes := (mapping.pubtypes - mapping.types) * (inputs.oldAllTypes - inputs.allTypes);
    assert removedTypes == inputs.RemovedTypes();
    var ok, ignored, invalidNew, invalidMapping := MapNewTypes(mapping, inputs);
    if !ok {
      return WrongVersion;
    }
    var targetRemoved, invalidRemoved := CheckRemoved(removedTypes, inputs.latestMapping.types);
    if invalidNew != {} || invalidMapping != {} || invalidRemoved != {} {
      return Errors(invalidNew, invalidMapping, invalidRemoved);
    }
    assert targetRemoved == removedTypes;
    assert mapping.State() == inputs.Target();
    var removedText := "";
    if removedTypes != {} {
      removedText := Comment(inputs.notes.removed) + (Join("\n", TypeLines(Sorted(targetRemoved))) + "\n\n");
    }
    var unparsed := mapping.UnparseText();
    return Written(removedText + (Comment(inputs.notes.footer) + unparsed), IgnoreText(inputs.notes, ignored));
  }
}
