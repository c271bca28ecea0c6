/** The line loop of tools/sepolicy_filter_neverallow.py, which keeps markers and neverallow rules
    and drops pairs of markers with nothing between them. */
module NeverallowFilter {
  import opened Options
  import opened Text
  import opened FreeReduction

  const TAG := "-- this marker is used by CTS --"
  const BEGIN := "# BEGIN_"
  const END := "# END_"
  const NEVERALLOW := "neverallow"

  /** The regular expression `#.*-- this marker is used by CTS --`, found anywhere in a line. */
  predicate IsMarker(line: string) {
    exists i, j | 0 <= i < j <= |line| :: line[i] == '#' && TAG <= line[j..]
  }

  /** `\s*word([A-Za-z0-9_]+) ` at the start of a line: the group. */
  function NameAfter(word: string, line: string): Option<string> {
    var i := SpaceEnd(line, 0);
    if word <= line[i..] then NameAt(line, i + |word|) else None
  }

  function NameAt(line: string, b: nat): Option<string>
    requires b <= |line|
  {
    var k := WordEnd(line, b);
    if b < k < |line| && line[k] == ' ' then Some(line[b..k]) else None
  }

  /** Both patterns of `markers_match`: one line begins and the other ends the same block. */
  predicate MarkersMatch(marker1: string, marker2: string) {
    (NameAfter(BEGIN, marker1).Some? && NameAfter(BEGIN, marker1) == NameAfter(END, marker2)) ||
    (NameAfter(END, marker1).Some? && NameAfter(END, marker1) == NameAfter(BEGIN, marker2))
  }

  /** `rstrip()` */
  function StripEnd(s: string): string {
    if s != "" && IsSpace(s[|s| - 1]) then StripEnd(s[..|s| - 1]) else s
  }

  function StripComment(line: string): string {
    line[..Find(line, '#', 0)]
  }

  /** `line.lstrip().startswith("neverallow")` */
  predicate StartsRule(line: string) {
    NEVERALLOW <= line[SpaceEnd(line, 0)..]
  }

  predicate EndsRule(line: string) {
    line != "" && line[|line| - 1] == ';'
  }

  /** What a line of the input or the output is to the reduction. */
  function LetterOf(line: string): Letter {
    if NameAfter(BEGIN, line).Some? then Begin(NameAfter(BEGIN, line).value)
    else if NameAfter(END, line).Some? then End(NameAfter(END, line).value)
    else if IsMarker(line) then Note(StripEnd(line))
    else Rule(StripEnd(line))
  }

  function Letters(lines: seq<string>): Word {
    if lines == [] then [] else [LetterOf(lines[0])] + Letters(lines[1..])
  }

  /** The text that a line of the input contributes: the input's markers and the lines of its neverallow
      rules, without comments and white space at the end. */
  function Kept(lines: seq<string>, inRule: bool): seq<string> {
    if lines == [] then []
    else
      var line, rest := lines[0], lines[1..];
      if IsMarker(line) then [StripEnd(line)] + Kept(rest, inRule)
      else
        var code := StripComment(line);
        if AllSpace(code) then Kept(rest, inRule)
        else if inRule || StartsRule(code) then [StripEnd(code)] + Kept(rest, !EndsRule(code))
        else Kept(rest, false)
  }

  /** One line on top of the output. */
  function PushLine(outputs: seq<string>, line: string): seq<string> {
    if outputs != [] && MarkersMatch(outputs[|outputs| - 1], line) then outputs[..|outputs| - 1] else outputs + [line]
  }

  function PushLines(outputs: seq<string>, lines: seq<string>): seq<string>
    decreases |lines|
  {
    if lines == [] then outputs else PushLines(PushLine(outputs, lines[0]), lines[1..])
  }

  lemma MatchIsInverse(a: string, b: string)
    ensures MarkersMatch(a, b) <==> Inverse(LetterOf(a), LetterOf(b))
  {
    BeginOrEnd(a);
    BeginOrEnd(b);
    hide NameAfter;
  }

  /** No line both begins and ends a block. */
  lemma BeginOrEnd(line: string)
    ensures !(NameAfter(BEGIN, line).Some? && NameAfter(END, line).Some?)
  {
    var s := line[SpaceEnd(line, 0)..];
    assert BEGIN <= s ==> s[2] == BEGIN[2];
    assert END <= s ==> s[2] == END[2];
  }

  lemma {:induction false} StripEndIsPrefix(s: string)
    ensures StripEnd(s) <= s && forall k | |StripEnd(s)| <= k < |s| :: IsSpace(s[k])
  {
    if s != "" && IsSpace(s[|s| - 1]) {
      StripEndIsPrefix(s[..|s| - 1]);
    }
  }

  lemma {:induction false} StripEndTwice(s: string)
    ensures StripEnd(StripEnd(s)) == StripEnd(s)
  {
    if s != "" && IsSpace(s[|s| - 1]) {
      StripEndTwice(s[..|s| - 1]);
    }
  }

  lemma {:induction false} SpaceEndSame(a: string, b: string, i: nat, j: nat)
    requires i <= j < |a| && j < |b| && a[..j + 1] == b[..j + 1] && SpaceEnd(a, i) <= j
    ensures SpaceEnd(a, i) == SpaceEnd(b, i)
    decreases |a| - i
  {
    assert a[..j + 1][i] == b[..j + 1][i];
    if IsSpace(a[i]) {
      SpaceEndSame(a, b, i + 1, j);
    }
  }

  lemma {:induction false} WordEndSame(a: string, b: string, i: nat, k: nat)
    requires i <= k < |a| && k < |b| && a[..k + 1] == b[..k + 1] && !IsWord(a[k])
    ensures WordEnd(a, i) == WordEnd(b, i) <= k
    decreases k - i
  {
    assert a[..k + 1][i] == b[..k + 1][i];
    if IsWord(a[i]) {
      WordEndSame(a, b, i + 1, k);
    }
  }

  /** A word of a marker pattern: it starts with `#`, has no `-`, and no white space at its end. */
  ghost predicate IsPatternWord(word: string) {
    |word| > 2 && word[0] == '#' && '-' !in word && !IsSpace(word[|word| - 1])
  }

  lemma PatternWords()
    ensures IsPatternWord(BEGIN) && IsPatternWord(END)
  {
  }

  /** Cutting white space off the end of a line does not change what a pattern makes of it, when
      the line goes on after its `#` with a `-` that stays. */
  lemma StrippedName(word: string, line: string, a: nat, j: nat)
    requires IsPatternWord(word) && a < j < |StripEnd(line)| && j < |line| && line[a] == '#' && line[j] == '-'
    ensures NameAfter(word, StripEnd(line)) == NameAfter(word, line)
  {
    hide StripEnd, NameAt, IsPatternWord;
    var p, i := StripEnd(line), SpaceEnd(line, 0);
    StripEndIsPrefix(line);
    assert i <= a;
    assert p[..j + 1] == line[..j + 1];
    SpaceEndSame(line, p, 0, j);
    WordSame(word, line, i);
    if word <= line[i..] {
      WordBefore(word, line, i, a, j);
      NameAtSame(line, p, i + |word|, j);
    }
  }

  lemma NameAtSame(line: string, p: string, b: nat, j: nat)
    requires b <= j < |line| && j < |p| && p[..j + 1] == line[..j + 1] && line[j] == '-'
    ensures NameAt(p, b) == NameAt(line, b)
  {
    WordEndSame(line, p, b, j);
    var k := WordEnd(line, b);
    assert p[k] == p[..j + 1][k] == line[..j + 1][k];
    assert p[..j + 1][b..k] == p[b..k];
    assert line[..j + 1][b..k] == line[b..k];
  }

  lemma WordSame(word: string, line: string, i: nat)
    requires IsPatternWord(word) && i <= |StripEnd(line)| && i <= |line|
    ensures word <= line[i..] <==> word <= StripEnd(line)[i..]
  {
    var p := StripEnd(line);
    StripEndIsPrefix(line);
    assert p[i..] == line[i..][..|p| - i];
    if word <= line[i..] {
      assert line[i + |word| - 1] == line[i..][|word| - 1] == word[|word| - 1];
    }
  }

  lemma WordBefore(word: string, line: string, i: nat, a: nat, j: nat)
    requires IsPatternWord(word) && i <= a < j < |line| && word <= line[i..] && line[j] == '-'
    ensures i + |word| <= j
  {
    assert forall k | 0 <= k < |word| :: line[i + k] == word[k] && word[k] in word;
  }

  lemma TagKept(tag: string, line: string, j: nat)
    requires tag != "" && !IsSpace(tag[|tag| - 1]) && j <= |line| && tag <= line[j..]
    ensures j + |tag| <= |StripEnd(line)| && tag <= StripEnd(line)[j..] && line[j] == tag[0]
  {
    StripEndIsPrefix(line);
    var e := j + |tag| - 1;
    assert line[e] == line[j..][|tag| - 1] == tag[|tag| - 1];
    assert StripEnd(line)[j..] == line[j..][..|StripEnd(line)| - j];
    assert line[j..][0] == tag[0];
  }

  lemma StrippedMarker(line: string)
    requires IsMarker(line)
    ensures LetterOf(StripEnd(line)) == LetterOf(line)
  {
    var a, j :| 0 <= a < j <= |line| && line[a] == '#' && TAG <= line[j..];
    PatternWords();
    TagKept(TAG, line, j);
    StrippedName(BEGIN, line, a, j);
    StrippedName(END, line, a, j);
    StripEndIsPrefix(line);
    assert StripEnd(line)[a] == '#';
    assert IsMarker(StripEnd(line));
    StripEndTwice(line);
  }

  lemma NoHashNoMarker(word: string, s: string)
    requires word != "" && word[0] == '#' && '#' !in s
    ensures !(word <= s)
  {
    assert s != "" ==> s[0] in s;
  }

  lemma CodeIsRule(code: string)
    requires '#' !in code
    ensures LetterOf(StripEnd(code)) == Rule(StripEnd(code))
  {
    var p := StripEnd(code);
    StripEndIsPrefix(code);
    StripEndTwice(code);
    assert forall k | 0 <= k < |p| :: p[k] == code[k] && code[k] in code;
    var s := p[SpaceEnd(p, 0)..];
    NoHashNoMarker(BEGIN, s);
    NoHashNoMarker(END, s);
  }

  lemma {:induction false} LettersAppend(lines: seq<string>, line: string)
    ensures Letters(lines + [line]) == Letters(lines) + [LetterOf(line)]
  {
    hide LetterOf;
    if lines == [] {
      assert ([] + [line])[1..] == [];
    } else {
      assert (lines + [line])[1..] == lines[1..] + [line];
      LettersAppend(lines[1..], line);
    }
  }

  lemma LettersLast(lines: seq<string>)
    requires lines != []
    ensures |Letters(lines)| > 0 && Letters(lines)[|Letters(lines)| - 1] == LetterOf(lines[|lines| - 1])
    ensures Letters(lines[..|lines| - 1]) == Letters(lines)[..|Letters(lines)| - 1]
  {
    var n := |lines| - 1;
    assert lines == lines[..n] + [lines[n]];
    LettersAppend(lines[..n], lines[n]);
  }

  /** On the letters it is the stack of the reduction. */
  lemma PushLineIsPush(outputs: seq<string>, line: string)
    ensures Letters(PushLine(outputs, line)) == Push(Letters(outputs), LetterOf(line))
  {
    hide LetterOf, MarkersMatch, Inverse;
    LettersAppend(outputs, line);
    if outputs != [] {
      LettersLast(outputs);
      MatchIsInverse(outputs[|outputs| - 1], line);
    }
  }

  lemma {:induction false} PushLinesReduce(outputs: seq<string>, lines: seq<string>)
    ensures Letters(PushLines(outputs, lines)) == PushAll(Letters(outputs), Letters(lines))
    decreases |lines|
  {
    hide LetterOf, Push, PushLine;
    if lines != [] {
      PushLineIsPush(outputs, lines[0]);
      PushLinesReduce(PushLine(outputs, lines[0]), lines[1..]);
    }
  }

  /** A marker on top of the output: the last line is dropped, or the marker appended. */
  method PushMarker(outputs: seq<string>, line: string) returns (r: seq<string>)
    requires IsMarker(line)
    ensures r == PushLine(outputs, StripEnd(line))
    ensures Letters(r) == Push(Letters(outputs), LetterOf(line))
  {
    hide LetterOf, MarkersMatch, IsMarker, Inverse;
    StrippedMarker(line);
    PushLineIsPush(outputs, StripEnd(line));
    if |outputs| > 0 {
      MatchIsInverse(outputs[|outputs| - 1], line);
      MatchIsInverse(outputs[|outputs| - 1], StripEnd(line));
      if MarkersMatch(outputs[|outputs| - 1], line) {
        return outputs[..|outputs| - 1];
      }
    }
    return outputs + [StripEnd(line)];
  }

  /** A line of a rule on top of the output. */
  method PushRule(outputs: seq<string>, code: string) returns (r: seq<string>)
    requires '#' !in code
    ensures r == outputs + [StripEnd(code)] == PushLine(outputs, StripEnd(code))
  {
    CodeIsRule(code);
    hide LetterOf, MarkersMatch;
    if outputs != [] {
      MatchIsInverse(outputs[|outputs| - 1], StripEnd(code));
    }
    return outputs + [StripEnd(code)];
  }

  lemma {:induction false} LettersAt(lines: seq<string>)
    ensures |Letters(lines)| == |lines| && forall i | 0 <= i < |lines| :: Letters(lines)[i] == LetterOf(lines[i])
  {
    hide LetterOf;
    if lines != [] {
      LettersAt(lines[1..]);
    }
  }

  lemma NoPairsLeft(kept: seq<string>)
    ensures var lines := PushLines([], kept);
      Letters(lines) == Reduce(Letters(kept)) && forall i | 0 <= i < |lines| - 1 :: !MarkersMatch(lines[i], lines[i + 1])
  {
    var lines := PushLines([], kept);
    PushLinesReduce([], kept);
    ReduceIsNormalForm(Letters(kept));
    LettersAt(lines);
    hide LetterOf, MarkersMatch, Inverse, PushLines;
    forall i | 0 <= i < |lines| - 1 ensures !MarkersMatch(lines[i], lines[i + 1]) {
      MatchIsInverse(lines[i], lines[i + 1]);
    }
  }

  /** The loop of `do_main` over the lines: what it keeps, pushed line by line. On the letters the output is
      the free reduction, and no two neighbours in it begin and end the same block. */
  method FilterLines(lines: seq<string>) returns (outputs: seq<string>)
    ensures outputs == PushLines([], Kept(lines, false))
    ensures Letters(outputs) == Reduce(Letters(Kept(lines, false)))
    ensures forall i | 0 <= i < |outputs| - 1 :: !MarkersMatch(outputs[i], outputs[i + 1])
  {
    hide LetterOf, PushLine, IsMarker, AllSpace, StartsRule, EndsRule, StripEnd, MarkersMatch, Push;
    var inNeverallowRule := false;
    outputs := [];
    assert lines[0..] == lines;
    for i := 0 to |lines|
      invariant PushLines(outputs, Kept(lines[i..], inNeverallowRule)) == PushLines([], Kept(lines, false))
    {
      assert lines[i..][0] == lines[i] && lines[i..][1..] == lines[i + 1..];
      KeptStep(lines[i], lines[i + 1..], inNeverallowRule, outputs);
      assert lines[i..] == [lines[i]] + lines[i + 1..];
      hide Kept;
      if IsMarker(lines[i]) {
        outputs := PushMarker(outputs, lines[i]);
        continue;
      }
      var line := StripComment(lines[i]);
      if AllSpace(line) {
        continue;
      }
      if StartsRule(line) {
        inNeverallowRule := true;
      }
      if inNeverallowRule {
        outputs := PushRule(outputs, line);
        if EndsRule(line) {
          inNeverallowRule := false;
        }
      }
    }
    assert lines[|lines|..] == [];
    NoPairsLeft(Kept(lines, false));
  }

  lemma KeptStep(line: string, rest: seq<string>, inRule: bool, stack: seq<string>)
    ensures PushLines(stack, Kept([line] + rest, inRule)) ==
      if IsMarker(line) then PushLines(PushLine(stack, StripEnd(line)), Kept(rest, inRule))
      else
        var code := StripComment(line);
        if AllSpace(code) then PushLines(stack, Kept(rest, inRule))
        else if inRule || StartsRule(code) then PushLines(PushLine(stack, StripEnd(code)), Kept(rest, !EndsRule(code)))
        else PushLines(stack, Kept(rest, false))
  {
    hide PushLine, IsMarker, AllSpace, StartsRule, EndsRule, StripEnd, StripComment;
    assert ([line] + rest)[1..] == rest;
    forall x: string, w: seq<string> ensures PushLines(stack, [x] + w) == PushLines(PushLine(stack, x), w) {
      assert ([x] + w)[1..] == w;
    }
  }

  // ---------------------------------------------------------------------------------------
  // Which lines are kept, said line by line

  /** Line i is no marker, and something other than a comment stands on it. */
  ghost predicate HasCode(lines: seq<string>, i: nat)
    requires i < |lines|
  {
    !IsMarker(lines[i]) && !AllSpace(StripComment(lines[i]))
  }

  /** The code begins with the keyword, behind white space at most. */
  ghost predicate Opens(code: string) {
    exists gap, more :: code == gap + ("neverallow" + more) && AllSpace(gap)
  }

  ghost predicate Ends(code: string) {
    exists more :: code == more + ";"
  }

  /** Line i belongs to a rule: a line that opens one stands at it or above it, and no line of code from there
      to it ends with a semicolon. */
  ghost predicate InRule(lines: seq<string>, i: nat)
    requires i < |lines|
  {
    exists s :: 0 <= s <= i && OpensAt(lines, s) && forall k | s <= k < i && HasCode(lines, k) :: !Ends(StripComment(lines[k]))
  }

  ghost predicate OpensAt(lines: seq<string>, s: nat)
    requires s < |lines|
  {
    HasCode(lines, s) && Opens(StripComment(lines[s]))
  }

  /** What line i contributes: a marker itself, and a line of a rule without its comment. */
  ghost function Contribution(lines: seq<string>, i: nat): seq<string>
    requires i < |lines|
  {
    if IsMarker(lines[i]) then [StripEnd(lines[i])]
    else if HasCode(lines, i) && InRule(lines, i) then [StripEnd(StripComment(lines[i]))]
    else []
  }

  ghost function Contributions(lines: seq<string>, i: nat): seq<string>
    requires i <= |lines|
    decreases |lines| - i
  {
    if i == |lines| then [] else Contribution(lines, i) + Contributions(lines, i + 1)
  }

  lemma OpensIs(code: string)
    ensures StartsRule(code) <==> Opens(code)
  {
    var k := SpaceEnd(code, 0);
    if StartsRule(code) {
      var more := code[k + |NEVERALLOW|..];
      assert code == code[..k] + ("neverallow" + more) && AllSpace(code[..k]);
    }
    if gap, more :| code == gap + ("neverallow" + more) && AllSpace(gap) {
      assert forall i | 0 <= i < |gap| :: code[i] == gap[i] && gap[i] in gap;
      assert code[|gap|] == 'n' && code[|gap|..] == "neverallow" + more;
      assert k == |gap|;
    }
  }

  lemma EndsIs(code: string)
    ensures EndsRule(code) <==> Ends(code)
  {
    if EndsRule(code) {
      assert code == code[..|code| - 1] + ";";
    }
  }

  /** A line above i opens a rule that is not over before line i. */
  ghost predicate Open(lines: seq<string>, i: nat)
    requires i <= |lines|
  {
    exists s :: 0 <= s < i && OpensAt(lines, s) && forall k | s <= k < i && HasCode(lines, k) :: !Ends(StripComment(lines[k]))
  }

  lemma OpenNext(lines: seq<string>, i: nat)
    requires i < |lines|
    ensures InRule(lines, i) <==> Open(lines, i) || OpensAt(lines, i)
    ensures Open(lines, i + 1) <==> InRule(lines, i) && (HasCode(lines, i) ==> !Ends(StripComment(lines[i])))
  {
    hide Opens, Ends, IsMarker, AllSpace, StripComment;
    if Open(lines, i) {
      var s :| 0 <= s < i && OpensAt(lines, s) && forall k | s <= k < i && HasCode(lines, k) :: !Ends(StripComment(lines[k]));
      assert 0 <= s <= i;
    }
  }

  lemma KeptFirst(lines: seq<string>, i: nat, inRule: bool)
    requires i < |lines|
    ensures var line, rest := lines[i], lines[i + 1..];
      var code := StripComment(line);
      Kept(lines[i..], inRule) ==
        if IsMarker(line) then [StripEnd(line)] + Kept(rest, inRule)
        else if AllSpace(code) then Kept(rest, inRule)
        else if inRule || StartsRule(code) then [StripEnd(code)] + Kept(rest, !EndsRule(code))
        else Kept(rest, false)
  {
    hide StartsRule, EndsRule, IsMarker, AllSpace, StripEnd, StripComment;
    assert lines[i..][0] == lines[i] && lines[i..][1..] == lines[i + 1..];
  }

  lemma ContributionIs(lines: seq<string>, i: nat)
    requires i < |lines|
    ensures var code := StripComment(lines[i]);
      Contribution(lines, i) ==
        if IsMarker(lines[i]) then [StripEnd(lines[i])]
        else if !AllSpace(code) && (Open(lines, i) || StartsRule(code)) then [StripEnd(code)]
        else []
    ensures var code := StripComment(lines[i]);
      Open(lines, i + 1) <==>
        if IsMarker(lines[i]) || AllSpace(code) then Open(lines, i)
        else (Open(lines, i) || StartsRule(code)) && !EndsRule(code)
  {
    OpenNext(lines, i);
    OpensIs(StripComment(lines[i]));
    EndsIs(StripComment(lines[i]));
    hide Open, InRule, Opens, Ends, StartsRule, EndsRule, IsMarker, AllSpace, StripEnd, StripComment;
  }

  lemma {:induction false} KeptFrom(lines: seq<string>, i: nat)
    requires i <= |lines|
    ensures Kept(lines[i..], Open(lines, i)) == Contributions(lines, i)
    decreases |lines| - i
  {
    hide Open, StartsRule, EndsRule, IsMarker, AllSpace, StripEnd, StripComment, Contribution;
    if i == |lines| {
      assert lines[i..] == [];
    } else {
      hide Kept;
      KeptFirst(lines, i, Open(lines, i));
      KeptFrom(lines, i + 1);
      ContributionIs(lines, i);
      assert [] + Contributions(lines, i + 1) == Contributions(lines, i + 1);
    }
  }

  /** Every marker is kept, every line of a rule up to the one that ends with a semicolon, and nothing else. */
  lemma KeptExactly(lines: seq<string>)
    ensures Kept(lines, false) == Contributions(lines, 0)
  {
    hide Kept, OpensAt, HasCode, Contributions;
    KeptFrom(lines, 0);
    assert !Open(lines, 0) && lines[0..] == lines;
  }

  // ---------------------------------------------------------------------------------------
  // What markers look like

  lemma HashThenTag(line: string, tag: string)
    ensures (exists i, j | 0 <= i < j <= |line| :: line[i] == '#' && tag <= line[j..])
      <==> exists a, b, c :: line == a + ("#" + (b + (tag + c)))
  {
    if i, j :| 0 <= i < j <= |line| && line[i] == '#' && tag <= line[j..] {
      var c := line[j..][|tag|..];
      assert line[j..] == tag + c;
      ThreeParts(line, i, j);
      assert line == line[..i] + ("#" + (line[i + 1..j] + (tag + c)));
    }
    if a, b, c :| line == a + ("#" + (b + (tag + c))) {
      HashPlace(a, b, tag + c);
      assert line[|a| + 1 + |b|..] == tag + c;
    }
  }

  lemma ThreeParts(s: string, i: nat, j: nat)
    requires i < j <= |s|
    ensures s == s[..i] + ([s[i]] + (s[i + 1..j] + s[j..]))
  {
  }

  lemma HashPlace(a: string, b: string, d: string)
    ensures var s := a + ("#" + (b + d)); |a| + 1 + |b| <= |s| && s[|a|] == '#' && s[|a| + 1 + |b|..] == d
  {
    var s := a + ("#" + (b + d));
    assert s[|a|..] == "#" + (b + d);
    assert s[|a|..][1..] == b + d;
  }

  /** A marker has the tag somewhere behind a hash sign. */
  lemma MarkersAre(line: string)
    ensures IsMarker(line) <==> exists a, b, c :: line == a + ("#" + (b + ("-- this marker is used by CTS --" + c)))
  {
    HashThenTag(line, TAG);
  }

  lemma NameIs(word: string, line: string, n: string)
    requires IsPatternWord(word)
    ensures NameAfter(word, line) == Some(n)
      <==> n != "" && AllWord(n) && exists gap, more :: line == gap + (word + (n + (" " + more))) && AllSpace(gap)
  {
    if NameAfter(word, line) == Some(n) {
      NameParts(word, line, n);
    }
    hide NameAfter, IsPatternWord, AllSpace;
    if n != "" && AllWord(n) {
      if gap, more :| line == gap + (word + (n + (" " + more))) && AllSpace(gap) {
        NameStands(word, n, gap, more);
      }
    }
  }

  lemma NameParts(word: string, line: string, n: string)
    requires NameAfter(word, line) == Some(n)
    ensures n != "" && AllWord(n) && exists gap, more :: line == gap + (word + (n + (" " + more))) && AllSpace(gap)
  {
    hide IsSpace, IsWord, WordEnd, SpaceEnd;
    var i := SpaceEnd(line, 0);
    var b := i + |word|;
    assert line[i..b] == word;
    var k := WordEnd(line, b);
    var gap, more := line[..i], line[k + 1..];
    FiveParts(line, i, b, k);
    assert n == line[b..k] && [line[k]] == " ";
    assert line == gap + (word + (n + (" " + more)));
    assert AllSpace(gap) && AllWord(n);
  }

  lemma FiveParts(s: string, i: nat, b: nat, k: nat)
    requires i <= b <= k < |s|
    ensures s == s[..i] + (s[i..b] + (s[b..k] + ([s[k]] + s[k + 1..])))
  {
  }

  lemma NameStands(word: string, n: string, gap: string, more: string)
    requires IsPatternWord(word) && n != "" && AllWord(n) && AllSpace(gap)
    ensures NameAfter(word, gap + (word + (n + (" " + more)))) == Some(n)
  {
    hide NameAt, IsWord;
    var rest := n + (" " + more);
    var line, i := gap + (word + rest), |gap|;
    GapEnds(gap, word + rest);
    assert line[i..] == word + rest;
    assert line[i + |word|..] == rest;
    NameHere(line, i + |word|, n, more);
  }

  lemma GapEnds(gap: string, more: string)
    requires AllSpace(gap) && more != "" && !IsSpace(more[0])
    ensures SpaceEnd(gap + more, 0) == |gap|
  {
    hide IsSpace;
    var s := gap + more;
    assert forall k | 0 <= k < |gap| :: s[k] == gap[k] && gap[k] in gap;
    assert s[|gap|] == more[0];
  }

  lemma NameHere(line: string, b: nat, n: string, more: string)
    requires b <= |line| && line[b..] == n + (" " + more) && n != "" && AllWord(n)
    ensures NameAt(line, b) == Some(n)
  {
    var k := b + |n|;
    assert forall i | b <= i < k :: line[i] == line[b..][i - b] == n[i - b] && n[i - b] in n;
    assert line[k] == line[b..][|n|] == ' ';
    assert line[b..k] == line[b..][..|n|] == n;
    assert WordEnd(line, b) == k;
  }

  /** A line begins or ends a block exactly if it looks like this. */
  lemma BlocksAre(line: string, n: string)
    ensures LetterOf(line) == Begin(n)
      <==> n != "" && AllWord(n) && exists gap, more :: line == gap + ("# BEGIN_" + (n + (" " + more))) && AllSpace(gap)
    ensures LetterOf(line) == End(n)
      <==> n != "" && AllWord(n) && exists gap, more :: line == gap + ("# END_" + (n + (" " + more))) && AllSpace(gap)
  {
    PatternWords();
    BeginOrEnd(line);
    NameIs(BEGIN, line, n);
    NameIs(END, line, n);
    hide NameAfter, AllSpace, AllWord, IsMarker;
  }

  /** A comment starts at the first hash sign. */
  lemma CommentIsCut(code: string, remark: string)
    requires '#' !in code
    ensures StripComment(code + ("#" + remark)) == code && StripComment(code) == code
  {
    var s := code + ("#" + remark);
    assert forall k | 0 <= k < |code| :: s[k] == code[k] && code[k] in code;
    assert s[|code|] == '#';
    assert Find(s, '#', 0) == |code| && Find(code, '#', 0) == |code|;
  }

  /** `rstrip` cuts off white space at the end, all of it and nothing else. */
  lemma {:induction false} StripEndIs(s: string)
    ensures exists gap :: s == StripEnd(s) + gap && AllSpace(gap)
    ensures StripEnd(s) != "" ==> !IsSpace(StripEnd(s)[|StripEnd(s)| - 1])
  {
    if s != "" && IsSpace(s[|s| - 1]) {
      StripEndIs(s[..|s| - 1]);
      var gap :| s[..|s| - 1] == StripEnd(s) + gap && AllSpace(gap);
      assert s == StripEnd(s) + (gap + [s[|s| - 1]]);
    } else {
      assert s == StripEnd(s) + "";
    }
  }
}
