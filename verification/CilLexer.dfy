/** The reader of tests/mini_parser.py as one pass over the characters: where it stands after each of
    them, which statements it has completed, and hence exactly when a file parses, raises an exception
    or is never left. */
module CilLexer {
  import opened Options
  import opened MiniCil

  /** Between statements, right behind the parenthesis that opens one, or within one, in so many
      parentheses; and in a comment outside or inside a statement. */
  datatype Mode = Outside | OutsideComment | First | Inside(parens: nat) | InsideComment(parens: nat)

  /** The text of the statement begun, and the statements completed. */
  datatype Lexed = Lexed(mode: Mode, body: string, done: seq<string>)

  const START := Lexed(Outside, "", [])

  function Step(l: Lexed, c: char): Lexed {
    match l.mode
    case Outside => if c == ';' then l.(mode := OutsideComment) else if c == '(' then l.(mode := First, body := "") else l
    case OutsideComment => if c == '\n' then l.(mode := Outside) else l
    case First => l.(mode := Inside(1), body := [c])
    case Inside(n) =>
      if c == ';' then l.(mode := InsideComment(n))
      else if c == ')' && n <= 1 then Lexed(Outside, "", l.done + [l.body])
      else l.(mode := Inside(if c == '(' then n + 1 else if c == ')' then n - 1 else n), body := l.body + [c])
    case InsideComment(n) => if c == '\n' then l.(mode := Inside(n), body := l.body + "\n") else l
  }

  function LexFrom(l: Lexed, s: string): Lexed
    decreases |s|
  {
    if s == "" then l else LexFrom(Step(l, s[0]), s[1..])
  }

  function Lex(text: string): Lexed {
    LexFrom(START, text)
  }

  predicate InComment(m: Mode) {
    m.OutsideComment? || m.InsideComment?
  }

  /** The effect of the completed statements. */
  ghost function RunAll(c: Cil, bodies: seq<string>): Option<Cil>
    decreases |bodies|
  {
    if bodies == [] then Some(c)
    else
      var c' := Apply(c, Classify(bodies[0]));
      if c'.None? then None else RunAll(c'.value, bodies[1..])
  }

  /** What a file comes to: an exception in a completed statement; a comment that is never left; or an
      unfinished statement, which is taken as if it were complete. */
  ghost function Finish(c: Cil, l: Lexed): Outcome {
    var c' := RunAll(c, l.done);
    if c'.None? then Crashed
    else if InComment(l.mode) then Hung
    else if l.mode.Inside? then
      var c'' := Apply(c'.value, Classify(l.body));
      if c''.None? then Crashed else Parsed(c''.value)
    else Parsed(c'.value)
  }

  // ---------------------------------------------------------------------------------------
  // The loops of the source take the same steps

  lemma {:induction false} LexAppend(l: Lexed, s: string, t: string)
    ensures LexFrom(l, s + t) == LexFrom(LexFrom(l, s), t)
    decreases |s|
  {
    hide Step;
    if s == "" {
      assert s + t == t;
    } else {
      assert (s + t)[1..] == s[1..] + t;
      LexAppend(Step(l, s[0]), s[1..], t);
    }
  }

  /** The loop that drops a comment. */
  lemma {:induction false} SkipLexes(l: Lexed, s: string)
    requires InComment(l.mode)
    ensures SkipComment(s).None? ==> LexFrom(l, s) == l
    ensures SkipComment(s).Some? ==> LexFrom(l, s) == LexFrom(Step(l, '\n'), SkipComment(s).value[1..])
    decreases |s|
  {
    if s != "" && s[0] != '\n' {
      SkipLexes(l, s[1..]);
    }
  }

  /** The first loop. */
  lemma {:induction false} SeekLexes(l: Lexed, s: string)
    requires l.mode.Outside?
    ensures Seek(s).None? ==> LexFrom(l, s) == l.(mode := OutsideComment)
    ensures Seek(s).Some? && Seek(s).value == "" ==> LexFrom(l, s) == l
    ensures Seek(s).Some? && Seek(s).value != "" ==> LexFrom(l, s) == LexFrom(l.(mode := First, body := ""), Seek(s).value[1..])
    decreases |s|
  {
    hide SkipComment;
    if s == "" || s[0] == '(' {
    } else if s[0] == ';' {
      var l' := l.(mode := OutsideComment);
      assert LexFrom(l, s) == LexFrom(l', s[1..]);
      SkipsSemicolon(s);
      SkipLexes(l', s[1..]);
      var r := SkipComment(s[1..]);
      if r.Some? {
        SeekLexes(l, r.value[1..]);
      }
    } else {
      SeekLexes(l, s[1..]);
    }
  }

  lemma SkipsSemicolon(s: string)
    requires s != "" && s[0] == ';'
    ensures SkipComment(s) == SkipComment(s[1..])
  {
  }

  /** The second loop, which has read the first character of cur but not yet appended it. */
  lemma {:induction false} BodyLexes(cur: string, n: nat, b: string, done: seq<string>)
    requires cur != "" && n > 0
    ensures var l, r := LexFrom(Lexed(Inside(n), b + [cur[0]], done), cur[1..]), Body(cur, n);
      && (r.None? ==> l.mode.InsideComment? && l.done == done)
      && (r.Some? && r.value.1 == "" ==> l.mode.Inside? && l.body == b + r.value.0 && l.done == done)
      && (r.Some? && r.value.1 != "" ==> l == LexFrom(Lexed(Outside, "", done + [b + r.value.0]), r.value.1[1..]))
    decreases |cur|
  {
    hide SkipComment;
    var l, next := Lexed(Inside(n), b + [cur[0]], done), cur[1..];
    if next == "" {
      assert [cur[0]] + "" == [cur[0]];
    } else if next[0] == ';' {
      BodyComment(cur, n, l);
      var r := SkipComment(next);
      if r.Some? {
        BodyLexes(r.value, n, l.body, done);
        BodyOn(cur, n, r.value, n, b);
      }
    } else if next[0] == ')' && n == 1 {
      assert Body(next, 0) == Some(("", next));
      assert [cur[0]] + "" == [cur[0]];
    } else {
      var n' := if next[0] == '(' then n + 1 else if next[0] == ')' then n - 1 else n;
      BodyLexes(next, n', l.body, done);
      BodyOn(cur, n, next, n', b);
    }
  }

  lemma BodyOn(cur: string, n: nat, next: string, n': nat, b: string)
    requires cur != "" && n > 0 && Look(cur[1..], n) == Some((next, n'))
    ensures var r := Body(next, n');
      if r.None? then Body(cur, n).None?
      else Body(cur, n) == Some(([cur[0]] + r.value.0, r.value.1)) && b + [cur[0]] + r.value.0 == b + ([cur[0]] + r.value.0)
  {
    hide Look;
  }

  lemma BodyComment(cur: string, n: nat, l: Lexed)
    requires |cur| > 1 && cur[1] == ';' && n > 0 && l.mode == Inside(n)
    ensures var r := SkipComment(cur[1..]);
      if r.None? then Body(cur, n).None? && LexFrom(l, cur[1..]) == l.(mode := InsideComment(n))
      else Look(cur[1..], n) == Some((r.value, n)) && LexFrom(l, cur[1..]) == LexFrom(l.(body := l.body + "\n"), r.value[1..])
  {
    var s := cur[1..];
    SkipsSemicolon(s);
    SkipLexes(l.(mode := InsideComment(n)), s[1..]);
    hide SkipComment;
  }

  /** The next statement, or the end of the file, or the loop that is never left. */
  lemma NextLexes(text: string, done: seq<string>)
    ensures var l, r := LexFrom(Lexed(Outside, "", done), text), NextStmt(text);
      && (r.Hang? ==> InComment(l.mode) && l.done == done)
      && (r.Stmt? && r.body == "" ==> (l.mode.Outside? || l.mode.First?) && l.done == done)
      && (r.Stmt? && r.body != "" ==>
        || (r.rest == "" && l.mode.Inside? && l.body == r.body && l.done == done)
        || l == LexFrom(Lexed(Outside, "", done + [r.body]), r.rest))
  {
    hide Seek, Body, Step;
    var l := Lexed(Outside, "", done);
    SeekLexes(l, text);
    BodyAtEnd();
    var start := Seek(text);
    if start.Some? && |start.value| > 1 {
      var cur := start.value[1..];
      FirstStep(l.(mode := First), cur);
      BodyLexes(cur, 1, "", done);
      assert "" + [cur[0]] == [cur[0]];
      var b := Body(cur, 1);
      if b.Some? {
        assert "" + b.value.0 == b.value.0;
      }
    }
  }

  lemma BodyAtEnd()
    ensures Body("", 1) == Some(("", ""))
  {
  }

  lemma FirstStep(l: Lexed, cur: string)
    requires l.mode.First? && cur != ""
    ensures LexFrom(l, cur) == LexFrom(l.(mode := Inside(1), body := [cur[0]]), cur[1..])
  {
  }

  lemma {:induction false} RunAllAfter(c: Cil, done: seq<string>, more: seq<string>)
    ensures RunAll(c, done + more) == var c' := RunAll(c, done); if c'.None? then None else RunAll(c'.value, more)
    decreases |done|
  {
    hide Apply, Classify;
    if done == [] {
      assert [] + more == more;
    } else {
      assert (done + more)[1..] == done[1..] + more;
      var c' := Apply(c, Classify(done[0]));
      if c'.Some? {
        RunAllAfter(c'.value, done[1..], more);
      }
    }
  }

  lemma RunOne(c: Cil, body: string)
    ensures RunAll(c, [body]) == Apply(c, Classify(body)) && RunAll(c, []) == Some(c)
  {
    hide Apply, Classify;
    assert [body][1..] == [];
  }

  /** Completed statements stay completed. */
  lemma {:induction false} DoneGrows(l: Lexed, s: string)
    ensures l.done <= LexFrom(l, s).done
    decreases |s|
  {
    if s != "" {
      DoneGrows(Step(l, s[0]), s[1..]);
      StepGrows(l, s[0]);
      hide Step;
    }
  }

  lemma StepGrows(l: Lexed, c: char)
    ensures l.done <= Step(l, c).done
  {
  }

  /** From a place between statements, with some completed: the rest is parsed from their effect. */
  lemma {:induction false} RestLexes(text: string, c0: Cil, done: seq<string>, c: Cil)
    requires RunAll(c0, done) == Some(c)
    ensures ParseFrom(text, c) == Finish(c0, LexFrom(Lexed(Outside, "", done), text))
    decreases |text|
  {
    hide NextStmt, Apply, Classify, LexFrom, RunAll;
    NextLexes(text, done);
    var l, r := LexFrom(Lexed(Outside, "", done), text), NextStmt(text);
    if r.Stmt? && r.body != "" {
      RunAllAfter(c0, done, [r.body]);
      RunOne(c, r.body);
      var c' := Apply(c, Classify(r.body));
      if l.mode.Inside? && l.done == done && r.rest == "" && l.body == r.body {
        NothingRead(r.rest);
      } else if c'.Some? {
        RestLexes(r.rest, c0, done + [r.body], c'.value);
      } else {
        DoneGrows(Lexed(Outside, "", done + [r.body]), r.rest);
        var more := l.done[|done| + 1..];
        assert l.done == done + [r.body] + more;
        RunAllAfter(c0, done + [r.body], more);
      }
    }
  }

  lemma NothingRead(rest: string)
    requires rest == ""
    ensures forall c: Cil :: ParseFrom(rest, c) == Parsed(c)
  {
  }

  /** The loops of the source come to what the one pass comes to. */
  lemma ReaderLexes(text: string, c: Cil)
    ensures ParseFrom(text, c) == Finish(c, Lex(text))
  {
    hide LexFrom, Apply, Classify;
    RunOne(c, "");
    RestLexes(text, c, [], c);
  }

  // ---------------------------------------------------------------------------------------
  // Comments

  /** The reader is never left exactly if the text ends in a comment and no completed statement raises an
      exception. */
  lemma HangsExactly(text: string, c: Cil)
    ensures ParseFrom(text, c) == Hung <==> InComment(Lex(text).mode) && RunAll(c, Lex(text).done).Some?
  {
    hide LexFrom, Apply, Classify;
    ReaderLexes(text, c);
  }

  /** A text ends in a comment exactly if some semicolon on its last line is read where the reader is
      outside comments and not right behind the parenthesis of a statement. */
  lemma {:induction false} EndsInComment(l: Lexed, s: string)
    ensures InComment(LexFrom(l, s).mode) <==> (InComment(l.mode) && '\n' !in s) || exists i :: StartsComment(l, s, i) && '\n' !in s[i..]
    decreases |s|
  {
    if s != "" {
      var l' := Step(l, s[0]);
      EndsInComment(l', s[1..]);
      CommentStep(l, s[0]);
      hide Step;
      assert '\n' in s <==> s[0] == '\n' || '\n' in s[1..];
      if i :| StartsComment(l', s[1..], i) && '\n' !in s[1..][i..] {
        assert s[..i + 1] == [s[0]] + s[1..][..i] && s[1..][i..] == s[i + 1..];
        StartsLater(l, s, i);
      }
      if i :| StartsComment(l, s, i) && '\n' !in s[i..] {
        if i > 0 {
          StartsLater(l, s, i - 1);
          assert s[1..][i - 1..] == s[i..];
        } else {
          assert s[0..] == s;
        }
      }
      if s[0] == ';' && !InComment(l.mode) && !l.mode.First? {
        StartsNow(l, s);
        assert s[0..] == s;
      }
    }
  }

  /** The character at place i of s, read from l, opens a comment. */
  ghost predicate StartsComment(l: Lexed, s: string, i: int) {
    0 <= i < |s| && s[i] == ';' && var m := LexFrom(l, s[..i]).mode; !InComment(m) && !m.First?
  }

  lemma CommentStep(l: Lexed, c: char)
    ensures InComment(Step(l, c).mode) <==> (InComment(l.mode) && c != '\n') || (c == ';' && !InComment(l.mode) && !l.mode.First?)
  {
  }

  lemma StartsLater(l: Lexed, s: string, i: nat)
    requires i + 1 < |s|
    ensures StartsComment(l, s, i + 1) <==> StartsComment(Step(l, s[0]), s[1..], i)
  {
    assert s[..i + 1][0] == s[0] && s[..i + 1][1..] == s[1..][..i];
  }

  lemma StartsNow(l: Lexed, s: string)
    ensures StartsComment(l, s, 0) <==> s != "" && s[0] == ';' && !InComment(l.mode) && !l.mode.First?
  {
    if s != "" {
      assert s[..0] == "";
    }
  }

  /** A file whose every comment is ended by a newline is read to its end, or up to an exception. */
  lemma EndedCommentsNeverHang(text: string, c: Cil)
    requires forall i | 0 <= i < |text| && text[i] == ';' :: '\n' in text[i..]
    ensures ParseFrom(text, c) != Hung
  {
    hide LexFrom;
    HangsExactly(text, c);
    EndsInComment(START, text);
  }

  lemma LexOne(l: Lexed, c: char)
    ensures LexFrom(l, [c]) == Step(l, c)
  {
    hide Step;
    assert [c][1..] == "" && LexFrom(Step(l, c), "") == Step(l, c);
  }

  lemma {:induction false} CommentStays(l: Lexed, remark: string)
    requires InComment(l.mode) && '\n' !in remark
    ensures LexFrom(l, remark) == l
    decreases |remark|
  {
    if remark != "" {
      assert remark[0] in remark;
      CommentStays(l, remark[1..]);
    }
  }

  lemma LexNext(p: string, c: char)
    ensures Lex(p + [c]) == Step(Lex(p), c)
  {
    hide Step;
    LexAppend(START, p, [c]);
    LexOne(Lex(p), c);
  }

  /** A comment up to its end: nothing is completed, and the newline then does what it does without it. */
  lemma CommentLexes(p: string, remark: string)
    requires '\n' !in remark && !Lex(p).mode.First?
    ensures var l, m := Lex(p), Lex(p + ";" + remark);
      InComment(m.mode) && m.done == l.done && Step(m, '\n') == Step(l, '\n')
  {
    hide LexFrom;
    LexNext(p, ';');
    LexAppend(START, p + ";", remark);
    CommentStays(Lex(p + ";"), remark);
  }

  /** A comment that no newline ends is never left, wherever it opens, in or between statements, unless a
      statement before it raises an exception. */
  lemma UnendedCommentHangs(p: string, remark: string, c: Cil)
    requires '\n' !in remark && !Lex(p).mode.First?
    ensures ParseFrom(p + ";" + remark, c) == if RunAll(c, Lex(p).done).Some? then Hung else Crashed
  {
    hide LexFrom, Step, Apply, Classify;
    CommentLexes(p, remark);
    ReaderLexes(p + ";" + remark, c);
  }

  /** Where a semicolon opens no comment: behind the parenthesis that opens a statement, whose next
      character is taken as text, whatever it is. */
  lemma NoCommentAfterParenthesis(p: string, c: char)
    ensures Lex(p).mode.First? <==> p != "" && p[|p| - 1] == '(' && Lex(p[..|p| - 1]).mode.Outside?
    ensures Lex(p).mode.First? ==> Lex(p + [c]) == Lexed(Inside(1), [c], Lex(p).done)
  {
    hide LexFrom;
    LexNext(p, c);
    if p != "" {
      assert p == p[..|p| - 1] + [p[|p| - 1]];
      LexNext(p[..|p| - 1], p[|p| - 1]);
    } else {
      NothingLexed();
    }
  }

  lemma NothingLexed()
    ensures Lex("") == START
  {
  }

  /** Exactly there a comment is not as good as the newline that ends it. */
  lemma CommentIsNewline(p: string, remark: string, more: string, c: Cil)
    requires '\n' !in remark
    ensures Lex(p + ";" + remark + "\n") == Lex(p + "\n") <==> !Lex(p).mode.First?
    ensures !Lex(p).mode.First? ==> ParseFrom(p + ";" + remark + "\n" + more, c) == ParseFrom(p + "\n" + more, c)
  {
    hide LexFrom, Apply, Classify;
    LexNext(p, '\n');
    LexNext(p + ";" + remark, '\n');
    if Lex(p).mode.First? {
      LexNext(p, ';');
      BodyStays(Lex(p + ";"), remark + "\n");
      LexAppend(START, p + ";", remark + "\n");
      assert p + ";" + remark + "\n" == p + ";" + (remark + "\n");
    } else {
      CommentLexes(p, remark);
      LexAppend(START, p + ";" + remark + "\n", more);
      LexAppend(START, p + "\n", more);
      ReaderLexes(p + ";" + remark + "\n" + more, c);
      ReaderLexes(p + "\n" + more, c);
    }
  }

  /** The first character of a statement stays its first character, also when it is completed. */
  lemma {:induction false} BodyStays(l: Lexed, s: string)
    requires (l.mode.Inside? || l.mode.InsideComment?) && l.body != ""
    ensures var m := LexFrom(l, s);
      if |m.done| > |l.done| then l.done <= m.done && m.done[|l.done|] != "" && m.done[|l.done|][0] == l.body[0]
      else m.done == l.done && (m.mode.Inside? || m.mode.InsideComment?) && m.body != "" && m.body[0] == l.body[0]
    decreases |s|
  {
    if s != "" {
      var l' := Step(l, s[0]);
      if l'.mode.Outside? {
        DoneGrows(l', s[1..]);
      } else {
        BodyStays(l', s[1..]);
      }
    }
  }
}
