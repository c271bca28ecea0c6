# Verified models of the SELinux policy tools

The repository holds the Android platform's SELinux policy and the tools that check, compare and
version it. This project models the tools that decide something, and proves what they decide:

- **Compatibility maps** (`MiniCil`, `MiniCilParsers`, `CilLexer`, `CilPrinter`, `CilStatements`, `VersionSuffix`,
  `CombineMaps`, `VersionChain`, `GenerateCompat`, `TrebleTests`). A character-level reader fills sets, maps and a
  reverse index from CIL text; a printer writes them back; maps of consecutive versions are
  composed in place, file by file. The main results are the reader's equivalence with a one-pass
  automaton, what each statement does wherever it stands, the round trip, relational composition, when the nesting of the tool's runs over a
  chain of versions does not show in the final file, how a generation run ends and what its files say, and
  what the Treble tests find in them.
- **Type comparison** (`RuleLists`, `TypeCmp`, `TypeAnalysis`). Sorted linked lists into which rules
  are merged, and the loop that partitions the types while it frees lists.
- **Neverallow rules** (`NeverallowScan`, `NeverallowTypes`, `NeverallowSyntax`, `NeverallowRules`,
  `NeverallowFile`, `NeverallowMeaning`). The hand-written scanner against a meaning given on syntax, and
  down to the bits of the policy's tables: type sets, class and permission lists, comments and whole files.
- **App contexts** (`SeappRules`, `SeappViolations`, `SeappLines`). The counting test for a violation,
  lists of violations that share their nodes, the hash table that rejects duplicate lines, and the
  verdict on a file's lines.
- **Marker reduction** (`FreeReduction`, `NeverallowFilter`), **file context order** (`FcSort`),
  **duplicate rules** (`Dups`), **policy queries** (`PolicyQuery`) and **table cursors** (`Cursors`).

Methods keep the loops and in-place updates of the source and are proved against functions or
predicates over values; lemmas prove what the source promises about those. For each tool some lemma states
its outcome on the inputs alone, without those functions: `OutputReads`, `WrittenExactly`, `ListSays`,
`RuleSays`, `ViolatesExactly`, `KeptExactly`, `ReportedExactly`, `ForeignStatementIsIgnored` and others.

## Where the code does less than it promises

Each of these is proved, with the condition under which the code does meet its purpose.

- `pubtypes` needs a version of two numbers, so a year-and-month version such as `foo_202404` is never
  taken for a version of `foo`, and the check on removed types looks at nothing unless a name holds a
  number of its own (`OnePartVersionIsNotPublic`, `YearVersionsRemoveNothing`).
- An empty set, which a file can hold, is printed as `()`, and that the reader cannot take (`RoundTrip`,
  `EmptySetFromFile`).
- Two nestings of a chain differ exactly in the types that are lost where a version in between lacks an
  entry (`NestingsDiffer`, `NestingsOfThree`; an example is `GapLosesType`).
- A suffix `_0` after a base that ends in a number strips too much (`StripInvertsSuffix`).
- A neverallow rule that follows another rule is skipped in silence exactly if no white space stands directly
  before its keyword (`GapDecides`). A `-` that is not before a name moves on to the next name, or is lost
  (`MinusMoves`, `LastMinusIsIdle`), and outside of braces it makes an empty set (`StrayNegations`). `~{X Y}` and `{* -X -Y}` agree exactly if X and Y hold types only, and
  so in every policy whose attributes hold types (`ComplementIsSubtraction`,
  `ComplementReadsAsSubtraction`).
- Rules share the nodes of their violation lists, so a report can lose a violation or show one that
  its rule does not commit (`SharingLosesViolation`, `SharingAddsViolation`); it is right exactly if the last rule to violate each
  of its neverallows goes on to the same next one (`ReportIsRightExactly`). The verdict is right all the
  same (`Validate`, `CheckLines`).
- What type comparison displays for two types that differ is a real difference exactly if the second
  list was not freed before, or the first rule of the first type gives nothing that the second type has
  (`DisplayIsRight`; a wrong one is in `WrongDifferenceIsReported`). For lists that were not freed a rule
  that both have may be displayed as well (`SharedExactly`).
- `is_meta` misses a bare metacharacter that the path also holds behind a backslash
  (`MetaIsBare`, `MixedDotsAreNotMeta`).
- One of the two tests for a duplicate rule can never hold (`ReportedIsCovered`).
- The rule sets of `Policy`, as written and expanded, are attributes of its class, so a second policy in the
  same process is asked about the rules of the first (`QueryTwo`).
- The CIL reader is never left exactly if the text ends in a comment and no statement before it raises an
  exception (`HangsExactly`, `EndedCommentsNeverHang`, `UnendedCommentHangs`); and exactly behind the
  parenthesis that opens a statement a comment is read as text (`CommentIsNewline`,
  `NoCommentAfterParenthesis`).
- A query for a context without members finds nothing, while the query over expanded rules takes every
  source (`WhereTheyDiffer`).

## Model

| member | source | states |
|---|---|---|
| MiniCil.ParsedIsIndexed | tests/mini_parser.py:113-132 | whatever a file holds, the reverse index ends up the exact inverse of the sets, and pubtypes exactly the versioned names among them |
| CilPrinter.PrintReads | tests/mini_parser.py:43-67 | every printed statement is read up to its parenthesis and as the command it was printed from, except that an empty set breaks the reader |
| CilPrinter.PrintedSet | tests/mini_parser.py:113-118 | a set statement is taken with all members whatever white space separates them, despite the non-greedy pattern |
| CilPrinter.ReadBack | tests/mini_parser.py:33-67 | printed text is read back into any state without sets, with any text after it |
| CilPrinter.RoundTrip | tests/mini_parser.py:43-143 | parsing what unparse prints gives back types, attributes, flags and sets with a fresh exact index if no set is empty, and an exception otherwise |
| CilPrinter.EmptySetFromFile | tests/mini_parser.py:113-118 | a file can hold a set without members, for any name, and what is then printed cannot be read |
| CilPrinter.PrintedText | tests/mini_parser.py:43-67 | the printed text, character by character, of one declaration of each kind |
| Text.FirstDifferenceDecides | tests/mini_parser.py:49-65 | names are sorted by the first character in which they differ, and a prefix comes first |
| CilLexer.ReaderLexes | tests/mini_parser.py:33-37 | the nested loops over a file come to what one pass of an automaton over its characters comes to, also for exceptions and endless loops |
| CilLexer.HangsExactly | tests/mini_parser.py:74-92 | the reader is never left exactly if the text ends in a comment and no completed statement raises an exception |
| CilLexer.EndsInComment | tests/mini_parser.py:74-92 | a text ends in a comment exactly if some semicolon that opens one has no newline after it |
| CilLexer.EndedCommentsNeverHang | tests/mini_parser.py:75-78 | a text whose every semicolon has a newline after it is read to its end or to an exception |
| CilLexer.CommentIsNewline | tests/mini_parser.py:69-96 | a comment parses as the newline that ends it, exactly unless it stands behind the parenthesis that opens a statement |
| CilLexer.NoCommentAfterParenthesis | tests/mini_parser.py:83-86 | behind the parenthesis that opens a statement, and only there, the next character is text, whatever it is |
| CilLexer.UnendedCommentHangs | tests/mini_parser.py:75-92 | a comment that no newline ends is never left, in or between statements, unless a statement before it raises an exception |
| CilStatements.ForeignStatementIsIgnored | tests/mini_parser.py:134-143 | a balanced statement whose first word is none of the four keywords, or all there is, can be deleted from any place between statements |
| CilStatements.TypeIsDeclared | tests/mini_parser.py:98-101 | a type statement adds what follows the white space up to the end of the line, and nothing else |
| CilStatements.AttributeIsDeclared | tests/mini_parser.py:108-111 | the same for attributes |
| CilStatements.SetStatementAdds | tests/mini_parser.py:113-126 | a set statement adds its words, up to the first closing parenthesis, to a set that may be there already, and the set to the index of each |
| CilStatements.ExpandStatementSets | tests/mini_parser.py:103-106 | the flag of an attribute is set, whatever follows it, and replaces an earlier one |
| CilStatements.StatementWithoutListCrashes | tests/mini_parser.py:103-118 | a set or flag statement without a parenthesis raises an exception |
| CilStatements.UnfinishedIsTaken | tests/mini_parser.py:83-96 | at the end of the text the last parenthesis may be missing |
| MiniCilParsers.Infile.ReadOne | tests/mini_parser.py:72 | one character is consumed, or the empty string is returned at the end of the file |
| MiniCilParsers.MiniCilParser.SeekStmt | tests/mini_parser.py:74-81 | the text up to the first opening parenthesis outside comments is consumed, or the loop never ends |
| MiniCilParsers.MiniCilParser.CollectStmt | tests/mini_parser.py:83-96 | the balanced text of the statement is collected, its first character uninspected |
| MiniCilParsers.MiniCilParser.GetNextStmt | tests/mini_parser.py:69-96 | returns the next statement and leaves the file after it, or never returns in an unterminated comment |
| MiniCilParsers.MiniCilParser.IndexMembers | tests/mini_parser.py:123-126 | enters the set in the reverse index under each member and nowhere else |
| MiniCilParsers.MiniCilParser.ParseTypeattributeset | tests/mini_parser.py:113-132 | the new state is that of the set command the statement is read as, or the statement raises an exception |
| MiniCilParsers.MiniCilParser.ParseStmt | tests/mini_parser.py:98-143 | the new state is that of the command the statement is read as, or the statement raises an exception |
| MiniCilParsers.MiniCilParser.Load | tests/mini_parser.py:33-37 | a whole file is parsed, ends in an exception, or never ends, as its text determines |
| MiniCilParsers.MiniCilParser.UnparseText | tests/mini_parser.py:43-67 | the four loops print the fields in sorted order |
| VersionSuffix.StripInvertsSuffix | tests/combine_maps.py:44-47 | stripping inverts versioning with `_V_0` always, and with `_V` exactly unless V is 0 and the base ends in a number |
| VersionSuffix.TwoPartVersionIsPublic | tests/mini_parser.py:128-131 | a name with a two-part version is recognized as its own base, whatever digits the base holds |
| VersionSuffix.OnePartVersionIsNotPublic | tests/mini_parser.py:128-131 | a name with a one-part version is never recognized as its base, and at all exactly if the base holds a number |
| VersionSuffix.BaseIsShortest | tests/combine_maps.py:44-47 | of any name the shortest part that leaves a version suffix is taken, and the whole name if there is none |
| VersionSuffix.PublicIsLongest | tests/mini_parser.py:128-131 | of any name the longest part that a two-part version follows is taken, and none exactly if there is none |
| CombineMaps.MergeEntry | tests/combine_maps.py:54-55 | the top set is added to each listed bottom set, in any order, and to no other |
| CombineMaps.Combine | tests/combine_maps.py:35-57 | the bottom map is updated in place to the combination of both, for any order of visits and a stale index |
| CombineMaps.CombineComposes | tests/combine_maps.py:39-55 | each set becomes itself and the top sets of two or more members of the types it held originally |
| CombineMaps.SkippingIsHarmless | tests/combine_maps.py:39-42 | leaving out one-member top sets changes nothing if every set holds its base name |
| CombineMaps.StepMaps | tests/combine_maps.py:35-57 | combining and re-parsing keeps the domain, composes the relations, and keeps sets self-named |
| CombineMaps.NestingsDiffer | tests/combine_maps.py:35-57 | the two nestings of three maps differ in exactly the types that are lost in a gap of the middle one |
| CombineMaps.AssociativeExactly | tests/combine_maps.py:35-57 | chaining is associative on self-named maps exactly if nothing is lost in a gap |
| CombineMaps.StepAssociative | tests/combine_maps.py:35-57 | in particular with no gap in the middle map |
| VersionChain.CombineTool | tests/combine_maps.py:59-74 | the tool reads two texts, combines them and prints the result, or fails as its readers do |
| VersionChain.OutputReads | tests/combine_maps.py:35-74 | the output, read again, declares what both files declare, has the flags and set names of the bottom file, and each set with what larger top entries bring |
| VersionChain.ChainReads | compat/Android.bp:131-145 | after a whole chain the file declares what all files declare, with the flags and set names of the oldest |
| VersionChain.BuildComputes | compat/Android.bp:131-145 | a chain of runs over files succeeds and leaves the printed composition of their contents |
| VersionChain.AnyNestingSameFile | compat/Android.bp:131-145 | however the runs over the same versions are nested, the final file is the same, character by character |
| VersionChain.NestingsOfThree | compat/Android.bp:131-145 | two nestings over three files give the same text exactly if nothing is lost in a gap |
| VersionChain.GapMatters | tests/combine_maps.py:49-52 | a middle map that lacks one type loses what the top map says of it |
| VersionChain.GapLosesType | tests/combine_maps.py:49-52 | three maps for which it happens, for any names and versions |
| GenerateCompat.ChangeApiLevelRoundTrip | tools/sepolicy_generate_compat.py:68-85 | the version is replaced and nothing else, and changing it back restores the name |
| GenerateCompat.MapInto | tools/sepolicy_generate_compat.py:346-351 | the type is added to one target, if the mapping file has it |
| GenerateCompat.MapType | tools/sepolicy_generate_compat.py:345-351 | the type is added to each target that the mapping file has; the others are returned |
| GenerateCompat.MapNewTypes | tools/sepolicy_generate_compat.py:331-355 | in any order of visits, each new type is ignored, mapped or rejected as the latest maps say, or a wrong version raises an exception |
| GenerateCompat.CheckRemoved | tools/sepolicy_generate_compat.py:357-365 | removed types are split into those that the latest mapping declares and the others |
| GenerateCompat.Generate | tools/sepolicy_generate_compat.py:286-403 | the object's final state and the texts written, or the errors |
| GenerateCompat.WrongVersionExactly | tools/sepolicy_generate_compat.py:68-85 | a run raises an exception exactly if a new type that is not ignored has an entry of another version in the latest mapping |
| GenerateCompat.ErrorsExactly | tools/sepolicy_generate_compat.py:331-385 | a run ends in errors exactly for new types without an entry, entries that the mapping lacks, or undeclared removed types, and names just these |
| GenerateCompat.WrittenExactly | tools/sepolicy_generate_compat.py:331-403 | the written files map exactly what the mapping did and, into the same name with the other version, the new types of the latest entries; ignored and removed types are listed |
| GenerateCompat.WrittenParses | tools/sepolicy_generate_compat.py:387-403 | the mapping and ignore files, read together, parse to the mapped sets, the removed types and the ignored types |
| GenerateCompat.TrebleViolators | tests/treble_sepolicy_tests.py:36-76 | the exact violators of both Treble tests in the files of a run without errors, for any two policies |
| GenerateCompat.TrebleTestsPass | tests/treble_sepolicy_tests.py:36-76 | there are none if public types are new or removed where they are so in the whole policies |
| GenerateCompat.YearVersionsRemoveNothing | tools/sepolicy_generate_compat.py:302-303 | with one-part versions no type counts as removed |
| TrebleTests.TestNoUnmappedNewTypes | tests/treble_sepolicy_tests.py:36-54 | the violators are exactly the new public types without an entry |
| TrebleTests.TestNoUnmappedRmTypes | tests/treble_sepolicy_tests.py:59-76 | the violators are exactly the removed versioned types without a declaration |
| RuleLists.RuleList.Walk | tools/sepolicy-analyze/typecmp.c:15-30 | finds the first node that does not come before the key, and the node in front of it |
| RuleLists.RuleList.LinkNode | tools/sepolicy-analyze/typecmp.c:48-49 | the node comes behind p, or in front, and all others stay in order |
| RuleLists.RuleList.Link | tools/sepolicy-analyze/typecmp.c:40-51 | splices one node in at its place and keeps the others |
| RuleLists.RuleList.InsertTypeRule | tools/sepolicy-analyze/typecmp.c:10-52 | the linked list becomes the list with the rule merged in or put in its place |
| RuleLists.InsertAllMeans | tools/sepolicy-analyze/typecmp.c:10-52 | after any insertions the list is strictly ordered and holds under each key exactly the permissions inserted |
| RuleLists.InsertionOrderIsIrrelevant | tools/sepolicy-analyze/typecmp.c:10-52 | two runs of insertions end in the same list exactly if they insert the same access |
| RuleLists.OrderedIsCanonical | tools/sepolicy-analyze/typecmp.c:227-236 | ordered lists are equal node by node exactly if they stand for the same access |
| TypeCmp.TypeRules.AddToTypes | tools/sepolicy-analyze/typecmp.c:54-91 | a rule enters the list of its source and, if it differs, of its target, with the own number cleared |
| TypeCmp.TypeRules.CreateTypeRules | tools/sepolicy-analyze/typecmp.c:54-107 | all lists after one whole table |
| TypeCmp.TableFillsProfiles | tools/sepolicy-analyze/typecmp.c:54-91 | the list of each type collects exactly the entries of its own profile |
| TypeCmp.ProfileMeans | tools/sepolicy-analyze/typecmp.c:54-107 | a profile is all that the taken rules allow the type, as source or target |
| TypeCmp.ProfileKeys | tools/sepolicy-analyze/typecmp.c:54-107 | the same for keys, also of rules without permissions |
| TypeAnalysis.FindMatch | tools/sepolicy-analyze/typecmp.c:120-155 | what is shown for a rule that is looked up in the rest of the other list |
| TypeAnalysis.CompareLists | tools/sepolicy-analyze/typecmp.c:227-236 | stops at the first place where the lists differ |
| TypeAnalysis.AnalyzeRow | tools/sepolicy-analyze/typecmp.c:220-267 | the reports of one type against all later ones, and the lists that are freed |
| TypeAnalysis.AnalyzeType | tools/sepolicy-analyze/typecmp.c:212-267 | the turn of one type, with its list freed at the end |
| TypeAnalysis.AnalyzeTypes | tools/sepolicy-analyze/typecmp.c:208-268 | the reports of the whole double loop as a function of the lists before anything is freed |
| TypeAnalysis.Analyze | tools/sepolicy-analyze/typecmp.c:157-272 | the same from the two expanded tables on |
| TypeAnalysis.ReportsArePartition | tools/sepolicy-analyze/typecmp.c:208-268 | two types are reported equivalent, or differing, exactly as their original lists are, the first being the smallest of its class |
| TypeAnalysis.DifferenceShows | tools/sepolicy-analyze/typecmp.c:237-257 | what is displayed for two lists holds a genuine difference and otherwise at most a shared rule |
| TypeAnalysis.SharedExactly | tools/sepolicy-analyze/typecmp.c:237-257 | a shared rule is among what is displayed exactly if both lists go on at the mismatch and one of the two rules there is in the other list |
| TypeAnalysis.FreedListShowsFirstRule | tools/sepolicy-analyze/typecmp.c:237-260 | for a freed list the first rule of the other type is displayed, shared or not |
| TypeAnalysis.DisplayIsRight | tools/sepolicy-analyze/typecmp.c:208-268 | the display for two types that differ holds a real difference exactly if the second list was not freed or the first rule of the first type is none of the second's |
| TypeAnalysis.WrongDifferenceIsReported | tools/sepolicy-analyze/typecmp.c:208-268 | tables of self rules for which a rule that two types share is reported as their difference |
| TypeAnalysis.ListsCompareAccess | tools/sepolicy-analyze/typecmp.c:195-203 | two lists are equal exactly if the tables allow both types the same |
| TypeAnalysis.ListSays | tools/sepolicy-analyze/typecmp.c:54-107 | a list holds, in ascending order, exactly what allow entries, in the conditional table enabled ones, give its type, in terms of their fields |
| TypeAnalysis.SameListExactly | tools/sepolicy-analyze/typecmp.c:195-236 | two types have the same list exactly if such entries give them the same permissions towards the same types and classes |
| TypeAnalysis.OthersPlayNoPart | tools/sepolicy-analyze/typecmp.c:86-101 | all other entries can be removed from the tables |
| TypeAnalysis.DisplayedExactly | tools/sepolicy-analyze/typecmp.c:120-257 | what is displayed for any two lists, in each case of their first difference |
| TypeAnalysis.ReportsAscend | tools/sepolicy-analyze/typecmp.c:208-268 | reports come in the order of their types, one for a pair at most |
| SeappRules.RuleMapNew | tools/check_seapp.c:814-922 | a rule is accepted exactly if its keys are known, valid and not repeated and something keys it; it then holds them in order, under the hash key of its line |
| SeappRules.CountMet | tools/check_seapp.c:766-795 | the count of the two nested loops |
| SeappRules.CountIsExact | tools/check_seapp.c:766-798 | for a rule without repeated keys the count reaches the length exactly if every pair of the neverallow is met |
| SeappRules.RepeatedKeysFoolTheCount | tools/check_seapp.c:855-859 | with a key given twice it can reach the length while a pair is not met |
| SeappRules.CaseIsIgnored | tools/check_seapp.c:845-853 | keys are compared up to the case of letters |
| SeappViolations.List.Append | tools/check_seapp.c:245-257 | the element becomes the tail and its own link is cleared |
| SeappViolations.RuleMapValidate | tools/check_seapp.c:753-800 | the rule's list holds its violations in order, and all other links stay |
| SeappViolations.ValidateAll | tools/check_seapp.c:1289-1292 | after all rules, every head is the rule's first violation and every link is what the last violating rule made it |
| SeappViolations.WalkViolations | tools/check_seapp.c:1294-1306 | a walk ends, and visits the nodes that the final links lead to |
| SeappViolations.Validate | tools/check_seapp.c:1282-1330 | it fails exactly if some rule violates some neverallow or there is a coredomain violation |
| SeappViolations.ReportIsRight | tools/check_seapp.c:1294-1306 | a rule's report is right exactly if no later rule has moved a link of its list |
| SeappViolations.ReportsAreRooted | tools/check_seapp.c:1294-1306 | the last rule's report is right, and the first violation of every report |
| SeappViolations.ReportIsRightExactly | tools/check_seapp.c:1294-1306 | in terms of the violations alone: a report is right exactly if the last rule to violate each of its neverallows has the same next violation |
| SeappLines.MakesExactly | tools/check_seapp.c:814-922 | a line makes a rule map exactly if its keys are in the table with values that pass, none twice in any spelling, and a rule has an input, a neverallow any pair |
| SeappLines.ReadLines | tools/check_seapp.c:1102-1247 | the lines are read exactly if each makes a rule map and no two of all lines have one hash key; rules and neverallows then are separate objects in the order of their lines |
| SeappLines.CheckLines | tools/check_seapp.c:1282-1330 | lines in, verdict out: an error exactly if they are not read, else failure exactly if some line violates some neverallow line or there is a coredomain violation |
| SeappLines.ViolatesExactly | tools/check_seapp.c:753-800 | a line violates a neverallow line exactly if for each pair of it the line has the key with a value that the pattern matches, or lacks the key and the pair is a written `""` |
| SeappLines.OutputsDoNotCount | tools/check_seapp.c:875-897 | two rules with the same inputs and different outputs are duplicates, and every pair of a neverallow counts |
| SeappLines.SharingLosesViolation | tools/check_seapp.c:245-257 | four lines that are read, for any values of user, seinfo and name, where a violation is missing from a report |
| SeappLines.SharingAddsViolation | tools/check_seapp.c:245-257 | five lines that are read, where a report shows one violation too many |
| FreeReduction.CancelInvariant | tools/sepolicy_filter_neverallow.py:53-60 | cancelling a matching pair anywhere does not change the reduced word |
| FreeReduction.AnyOrderSameResult | tools/sepolicy_filter_neverallow.py:53-60 | however pairs are cancelled, if none is left the word is the one that the stack computes |
| FreeReduction.ReduceIsNormalForm | tools/sepolicy_filter_neverallow.py:51-60 | the stack's word is reached by cancelling, has no pair left, is idempotent and the only such word |
| FreeReduction.RulesSplitReduction | tools/sepolicy_filter_neverallow.py:51-74 | a kept rule separates what is before it from what is after it |
| FreeReduction.RulesSeeSameBlocks | tools/sepolicy_filter_neverallow.py:51-74 | each kept rule sees as many open blocks of every name in the output as in the input |
| NeverallowFilter.MatchIsInverse | tools/sepolicy_filter_neverallow.py:26-33 | two marker lines match exactly if one begins and the other ends a block of the same name |
| NeverallowFilter.StrippedMarker | tools/sepolicy_filter_neverallow.py:59 | cutting white space off a marker line does not change which block it begins or ends |
| NeverallowFilter.PushMarker | tools/sepolicy_filter_neverallow.py:53-60 | the last output is dropped or the marker appended, as in free reduction |
| NeverallowFilter.FilterLines | tools/sepolicy_filter_neverallow.py:49-74 | the output is what pushing the kept lines leaves; on letters it is the reduction, and no two neighbours in it match |
| NeverallowFilter.KeptExactly | tools/sepolicy_filter_neverallow.py:49-74 | markers are kept, all lines of a rule up to the one that ends with a semicolon, without comments, and nothing else |
| NeverallowFilter.MarkersAre | tools/sepolicy_filter_neverallow.py:50 | a marker has the tag behind a hash sign |
| NeverallowFilter.BlocksAre | tools/sepolicy_filter_neverallow.py:26-33 | which lines begin and end a block |
| NeverallowScan.ScanLocal | tools/sepolicy-analyze/neverallow.c:34-138 | what a loop reads does not depend on the text after it |
| NeverallowTypes.CollectTypes | tools/sepolicy-analyze/neverallow.c:34-141 | the loop consumes input in every round, fails exactly where the scanner does, and its variables hold what the tokens say |
| NeverallowTypes.FinishTypes | tools/sepolicy-analyze/neverallow.c:143-174 | the three loops over bits compute star, subtraction and complement |
| NeverallowTypes.ReadTypeset | tools/sepolicy-analyze/neverallow.c:20-180 | the bits are the denotation of the tokens: positives or all types, without the negated, complemented if `~` came last |
| NeverallowSyntax.WrittenSetIsRead | tools/sepolicy-analyze/neverallow.c:20-180 | a written set is read up to its end as what its leaves denote |
| NeverallowSyntax.OrderAndNestingAreIrrelevant | tools/sepolicy-analyze/neverallow.c:122-174 | reordering and nesting elements does not change the set read |
| NeverallowSyntax.ComplementIsSubtraction | tools/sepolicy-analyze/neverallow.c:143-174 | `~{X Y}` and `{* -X -Y}` are read as the same set exactly if the names stand for types only |
| NeverallowSyntax.ComplementReadsAsSubtraction | tools/sepolicy-analyze/neverallow.c:122-174 | they are always read as the same set where attributes hold types |
| NeverallowSyntax.MinusMoves | tools/sepolicy-analyze/neverallow.c:78-136 | wherever it stands, a `-` before anything but a name counts as if it came after it |
| NeverallowSyntax.LastMinusIsIdle | tools/sepolicy-analyze/neverallow.c:78-136 | a `-` after everything else changes nothing |
| NeverallowSyntax.StrayNegations | tools/sepolicy-analyze/neverallow.c:78-136 | what a `-` does before `self`, before a brace and outside of braces |
| NeverallowRules.CollectClasses | tools/sepolicy-analyze/neverallow.c:203-265 | the known classes, the last one first, or a failure |
| NeverallowRules.CollectPerms | tools/sepolicy-analyze/neverallow.c:270-351 | each class holds the bits of the permissions named, its own or its common's, and all bits after a `*` |
| NeverallowRules.ReadClassperms | tools/sepolicy-analyze/neverallow.c:182-375 | the masks of all classes, turned around if `~` was read, and where reading stops |
| NeverallowRules.ReadRule | tools/sepolicy-analyze/neverallow.c:410-429 | two type sets, the masks and the search for the semicolon, or a failure |
| NeverallowRules.StripComments | tools/sepolicy-analyze/neverallow.c:389-396 | the text without comments |
| NeverallowRules.ParseNeverallows | tools/sepolicy-analyze/neverallow.c:377-439 | the list of the rules found, the last one first, or an error, also where there is none |
| NeverallowFile.CommentIsRemoved | tools/sepolicy-analyze/neverallow.c:389-396 | a comment, wherever it stands, leaves the newline that ends it and takes nothing else away |
| NeverallowFile.WrittenRuleIsRead | tools/sepolicy-analyze/neverallow.c:410-429 | a written rule, with single names or braces and white space only where an identifier would touch what is not a brace, is read up to its semicolon as what its parts denote |
| NeverallowFile.GapDecides | tools/sepolicy-analyze/neverallow.c:399-405 | after a rule and any text without the keyword as a word, the next keyword is seen exactly if that text is not empty and ends in white space |
| NeverallowFile.WrittenFileIsRead | tools/sepolicy-analyze/neverallow.c:377-439 | a file of rules, other words and comments is read as exactly its rules, the last one first |
| NeverallowMeaning.SetSays | tools/sepolicy-analyze/neverallow.c:122-174 | the bits of a written type set, in terms of the policy: named or any type for `*`, not negated, and the opposite within the types under `~` |
| NeverallowMeaning.LastSignDecides | tools/sepolicy-analyze/neverallow.c:43-174 | the same for any tokens, where of `*` and `~` the last one decides |
| NeverallowMeaning.RuleSays | tools/sepolicy-analyze/neverallow.c:182-429 | a written rule, whatever stands before its semicolon, gives these sets, `self`, and for each known class the bits of the listed permissions, its own before its common's |
| NeverallowMeaning.TildeCountsAnywhere | tools/sepolicy-analyze/neverallow.c:270-362 | a mask in terms of the class's tables, turned around by a `~` at any place |
| NeverallowMeaning.RuleWithoutEndIsAnError | tools/sepolicy-analyze/neverallow.c:419-423 | a rule without a semicolon is an error |
| NeverallowMeaning.UnbalancedIsAnError | tools/sepolicy-analyze/neverallow.c:34-141 | a brace that closes nothing, and the end of the text, are errors |
| NeverallowMeaning.NamesAre | tools/sepolicy-analyze/neverallow.c:92-96 | which characters a name can hold |
| FcSort.GetStemLen | tests/fc_sort.py:26-37 | the number of plain or escaped characters before the first bare metacharacter |
| FcSort.IsMeta | tests/fc_sort.py:40-50 | comparing the two counts decides whether some metacharacter occurs and never behind a backslash |
| FcSort.MetaIsBare | tests/fc_sort.py:40-50 | a path called meta has a bare metacharacter; it is called meta exactly if one of its bare ones is never written behind a backslash |
| FcSort.MixedDotsAreNotMeta | tests/fc_sort.py:40-50 | a path whose bare metacharacter is missed |
| FcSort.OneCharacter | tests/fc_sort.py:22-50 | ten characters are metacharacters, and not behind a backslash |
| FcSort.Create | tests/fc_sort.py:66-81 | the entry of a line, no entry, or an exception |
| FcSort.EntryIsRead | tests/fc_sort.py:66-81 | a written line of two or more words gives back its path, its file type if it has just one more word, and the type of its context |
| FcSort.BadLineCrashes | tests/fc_sort.py:63-74 | a blank line, or one whose last word has fewer than two colons, raises an exception |
| FcSort.UnslashedLength | tests/fc_sort.py:79 | the length counts all characters but backslashes |
| FcSort.LessIsLexicographic | tests/fc_sort.py:84-110 | the comparison is lexicographic in four ranks and a strict weak order |
| FcSort.SortIsStable | tests/fc_sort.py:130-136 | sorting orders the entries and keeps the order of ties |
| FcSort.StableSortUnique | tests/fc_sort.py:130-136 | two stable sorts of one list are equal, whatever the algorithm |
| FcSort.FcSortedIndex | tests/policy.py:326-331 | the index of the last match, or 0 |
| FcSort.LastMatchIsMostSpecific | tests/policy.py:321-331 | the last match in the sorted list is a match of largest rank in the input, the latest line among ties |
| Dups.LookUp | tools/sepolicy-analyze/dups.c:44-71 | the rules reported for one pair of numbers |
| Dups.FindDupsHelper | tools/sepolicy-analyze/dups.c:12-76 | exactly the rules that pass all tests are reported for a rule |
| Dups.FindDups | tools/sepolicy-analyze/dups.c:78-83 | the whole run reports exactly those pairs |
| Dups.ReportedIsCovered | tools/sepolicy-analyze/dups.c:33-66 | a rule with permissions is reported with another exactly if it is an allow rule between types, the other is attribute-based, neither is a self rule, and the other allows all that it does |
| Dups.ReportedExactly | tools/sepolicy-analyze/dups.c:12-76 | the same for all rules, in terms of their numbers, kinds and bits |
| Dups.RemovingDupsKeepsAccess | tools/sepolicy-analyze/dups.c:12-76 | removing all reported rules at once leaves the expanded access unchanged |
| PolicyQuery.ResolveTypeAttribute | tests/policy.py:240-254 | exactly the names in rules that share a member with the given one |
| PolicyQuery.FindRules | tests/policy.py:264-285 | exactly the rules whose expansion touches a member of each context asked for, with class and permissions |
| PolicyQuery.Policy.QueryTERule | tests/policy.py:264-285 | the same, over the shared rules, which are loaded only if none are |
| PolicyQuery.Policy.QueryExpandedTERule | tests/policy.py:289-294 | the expanded rules that match as written, over the shared ones, which are loaded only if none are |
| PolicyQuery.QueryTwo | tests/policy.py:98-100 | a second policy is asked about the first one's rules, in both ways of asking |
| PolicyQuery.LazyAgreesWithExpanded | tests/policy.py:240-294 | the lazy query finds a rule with members exactly if the contexts asked for have members and the expanded query, asked for them, finds one |
| PolicyQuery.WhereTheyDiffer | tests/policy.py:264-294 | a context without members finds nothing lazily and everything expanded; a rule without members is found only where no context is asked for |
| PolicyQuery.TypesStandForThemselves | tests/policy.py:287-294 | contexts that are types can be asked of both, and attributes find nothing in the expanded rules |
| Cursors.AvtabIter.GetAllowRule | tests/sepol_wrap.cpp:268-298 | returns the next allow entry and moves past it, or 1 for ever |
| Cursors.GetTERules | tests/policy.py:360-375 | all allow entries once, in bucket and chain order, or an exit |
| Cursors.YieldsAsOftenAsHeld | tests/sepol_wrap.cpp:268-298 | an allow entry is yielded as often as the table holds it, and no other entry at all |
| Cursors.YieldsInOrder | tests/sepol_wrap.cpp:268-298 | bucket by bucket and in the order of each chain |
| Cursors.GenfsIter.GetGenfs | tests/sepol_wrap.cpp:50-79 | returns the next entry, with 1 exactly for the last, and stays where it is on an error |
| Cursors.InitGenfsCon | tests/policy.py:457-474 | each file system gets exactly the types of its entries |
| Cursors.TypesAre | tests/policy.py:457-474 | the types of a file system are those of its contexts |
| Cursors.TypeIter.GetType | tests/sepol_wrap.cpp:159-189 | returns the next selected name, or 1, and stays where it is on an error |
| Cursors.CollectTypes | tests/policy.py:192-210 | exactly the names of the selected types or attributes, or an exit |

## Left out

- Strings are sequences of ASCII characters: no Unicode classes, no universal newlines; file access, arguments, logging, warnings and the wording of messages are left out.
- Allocation failure, freeing of memory and the fixed widths of counters; an access vector is a set of bit numbers, 32 of them where the source complements it.
- libsepol and the CIL library: reading a binary policy, its hash tables and bitmaps, `expand_avtab` and `check_assertions` are not part of this model; a search returns the entries with the key, an expansion is described by its result, and AVTAB_ENABLED occurs only in the conditional table.
- The regular expression engines: PCRE in check_seapp.c and the patterns of file contexts are predicates given to the procedures; only the fixed patterns of the reader, the version suffix and the markers are modelled. Patterns that do not compile are not.
- tools/sepolicy_filter_neverallow.py:39-47: the rewriting of the whole text before the loop over its lines.
- tests/mini_parser.py:38-41: the API level taken from the file's name.
- tools/sepolicy_generate_compat.py: downloads, the extraction of targets, the Android.bp edits and the contents of the compat file.
- tools/check_seapp.c: the splitting of lines into keys, the size of the hash table, the individual validators (given as predicates) and the output file; the coredomain violations are a count.
- MiniCilParsers.MiniCilParser.Load: an unterminated comment ends in the outcome Hung instead of a run that does not end.
- PolicyQuery.Policy.QueryTERule: rules are values with their fields, so the splitting of printed lines and equal rules held twice are not modelled, and a generator's rules are returned all at once.
- Cursors.AvtabIter.GetAllowRule: the printed line is left out except for whether it fits the buffer.
- Cursors.TypeIter.GetType: bitmaps are visited bit by bit, without the gaps that their nodes let the source skip.
- Dups.ReportedIsCovered: says nothing about rules that only several rules together make superfluous; the source does not look for them.
- FcSort.Create: the stripping of the line before the call.
- tests/policy.py:48-80: the prefix heuristics and their fallback to regular expressions.
- tools/sepolicy-check.c, tools/checkfc.c, tools/version_policy.c, tools/seamendc.c, tools/insertkeys.py and the policy sources themselves would add only easy members or data.
