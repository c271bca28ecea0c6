/** The class of tests/mini_parser.py, as it reads a file one character at a time and updates its
    fields one statement at a time. */
module MiniCilParsers {
  import opened Options
  import opened Text
  import opened MiniCil
  import opened CilPrinter

  /** A text file open for reading. */
  class Infile {
    var unread: string

    constructor (text: string)
      ensures unread == text
    {
      unread := text;
    }

    /** `read(1)`: the next character, or the empty string at the end of the file. */
    method ReadOne() returns (c: string)
      modifies this
      ensures c + unread == old(unread) && |c| <= 1 && (c == "" ==> unread == "")
    {
      if unread == "" {
        c := "";
      } else {
        c, unread := unread[..1], unread[1..];
      }
    }
  }

  class MiniCilParser {
    var types: set<string>
    var pubtypes: set<string>
    var expandtypeattributes: map<string, string>
    var typeattributes: set<string>
    var typeattributesets: map<string, set<string>>
    var rTypeattributesets: map<string, set<string>>

    constructor ()
      ensures State() == EMPTY
    {
      types, pubtypes, expandtypeattributes := {}, {}, map[];
      typeattributes, typeattributesets, rTypeattributesets := {}, map[], map[];
    }

    ghost function State(): Cil
      reads this
    {
      Cil(types, pubtypes, expandtypeattributes, typeattributes, typeattributesets, rTypeattributesets)
    }

    /** Reads past a comment; false when the source would read the end of the file for ever. */
    static method DropComment(infile: Infile) returns (ok: bool)
      modifies infile
      ensures ok <==> SkipComment(old(infile.unread)).Some?
      ensures ok ==> "\n" + infile.unread == SkipComment(old(infile.unread)).value
    {
      var c := infile.ReadOne();
      while c != "\n"
        invariant |c| <= 1 && (c == "" ==> infile.unread == "")
        invariant SkipComment(c + infile.unread) == SkipComment(old(infile.unread))
        decreases |infile.unread| + |c|
      {
        if c == "" {
          return false;
        }
        c := infile.ReadOne();
      }
      return true;
    }

    /** The first loop of `_getNextStmt`; false when it never ends. */
    method SeekStmt(infile: Infile) returns (ok: bool)
      modifies infile
      ensures var r := Seek(old(infile.unread)); ok == r.Some? && (ok ==> Tail(r.value) == infile.unread)
    {
      var c := infile.ReadOne();
      while c != ""
        invariant |c| <= 1 && (c == "" ==> infile.unread == "")
        invariant Seek(c + infile.unread) == Seek(old(infile.unread))
        decreases |infile.unread| + |c|
      {
        if c == ";" {
          assert SkipComment(c + infile.unread) == SkipComment(infile.unread);
          ok := DropComment(infile);
          if !ok {
            return;
          }
        } else if c == "(" {
          break;
        }
        c := infile.ReadOne();
      }
      assert Tail(c + infile.unread) == infile.unread;
      return true;
    }

    /** The second loop: the text of a statement whose opening parenthesis has been read. */
    method CollectStmt(infile: Infile) returns (stmt: Option<string>)
      modifies infile
      ensures var r := Body(old(infile.unread), 1);
        if r.None? then stmt.None? else stmt == Some(r.value.0) && infile.unread == Tail(r.value.1)
    {
      var s := "";
      var parens := 1;
      var c := infile.ReadOne();
      ghost var start := Body(c + infile.unread, parens);
      ContinuesNothing("", start);
      while c != "" && parens != 0
        invariant |c| <= 1 && (c == "" ==> infile.unread == "")
        invariant Continues(s, Body(c + infile.unread, parens)) == start
        decreases |infile.unread| + |c|
      {
        ghost var cur, before, depth := c + infile.unread, s, parens;
        s := s + c;
        c := infile.ReadOne();
        ghost var next := c + infile.unread;
        assert cur[1..] == next;
        if c == ";" {
          assert SkipComment(next) == SkipComment(infile.unread);
          var ok := DropComment(infile);
          if !ok {
            return None;
          }
          c := "\n";
        } else if c == "(" {
          parens := parens + 1;
        } else if c == ")" {
          parens := parens - 1;
        }
        ContinuesStep(before, cur, depth, c + infile.unread, parens);
      }
      assert Tail(c + infile.unread) == infile.unread;
      ContinuesNothing(s, Some(("", c + infile.unread)));
      return Some(s);
    }

    /** The next statement; None when the source never returns. */
    method GetNextStmt(infile: Infile) returns (stmt: Option<string>)
      modifies infile
      ensures var r := NextStmt(old(infile.unread));
        if r.Hang? then stmt.None? else stmt == Some(r.body) && infile.unread == r.rest
    {
      var ok := SeekStmt(infile);
      if !ok {
        return None;
      }
      stmt := CollectStmt(infile);
    }

    /** The result of the second loop when it has collected s already. */
    static ghost function Continues(s: string, r: Option<(string, string)>): Option<(string, string)> {
      if r.None? then None else Some((s + r.value.0, r.value.1))
    }

    static lemma ContinuesNothing(s: string, r: Option<(string, string)>)
      ensures Continues("", r) == r
      ensures r.Some? && r.value.0 == "" ==> Continues(s, r) == Some((s, r.value.1))
    {
      assert s + "" == s;
      if r.Some? {
        assert "" + r.value.0 == r.value.0;
      }
    }

    static lemma ContinuesStep(s: string, cur: string, depth: nat, next: string, parens: nat)
      requires cur != "" && depth > 0 && Look(cur[1..], depth) == Some((next, parens))
      ensures Continues(s + cur[..1], Body(next, parens)) == Continues(s, Body(cur, depth))
    {
      var b := Body(next, parens);
      if b.Some? {
        assert s + cur[..1] + b.value.0 == s + ([cur[0]] + b.value.0);
      }
    }

    method ParseType(stmt: string)
      requires Head(TYPE, stmt).Some?
      modifies this
      ensures Some(State()) == Apply(old(State()), Type(Line(stmt, Head(TYPE, stmt).value)))
    {
      types := types + {Line(stmt, Head(TYPE, stmt).value)};
    }

    method ParseTypeattribute(stmt: string)
      requires Head(ATTRIBUTE, stmt).Some?
      modifies this
      ensures Some(State()) == Apply(old(State()), Attribute(Line(stmt, Head(ATTRIBUTE, stmt).value)))
    {
      typeattributes := typeattributes + {Line(stmt, Head(ATTRIBUTE, stmt).value)};
    }

    method ParseExpandtypeattribute(stmt: string) returns (ok: bool)
      modifies this
      ensures if ok then Some(State()) == Apply(old(State()), ClassifyExpand(stmt)) else ClassifyExpand(stmt) == Broken
    {
      hide MatchExpand;
      var m := MatchExpand(EXPAND, stmt);
      if m.None? {
        return false;
      }
      expandtypeattributes := expandtypeattributes[m.value.0 := m.value.1];
      return true;
    }

    /** Enters ta in the reverse index under each of its members. */
    method IndexMembers(ta: string, tas: seq<string>)
      modifies `rTypeattributesets
      ensures rTypeattributesets == AddMembers(old(rTypeattributesets), tas, ta)
    {
      assert tas[0..] == tas;
      for i := 0 to |tas|
        invariant AddMembers(rTypeattributesets, tas[i..], ta) == AddMembers(old(rTypeattributesets), tas, ta)
      {
        var t := tas[i];
        assert tas[i..][0] == t && tas[i..][1..] == tas[i + 1..];
        ghost var before := rTypeattributesets;
        if t !in rTypeattributesets {
          rTypeattributesets := rTypeattributesets[t := {}];
        }
        rTypeattributesets := rTypeattributesets[t := rTypeattributesets[t] + {ta}];
        assert rTypeattributesets == before[t := Lookup(before, t) + {ta}];
      }
    }

    method ParseTypeattributeset(stmt: string) returns (ok: bool)
      modifies this
      ensures if ok then Some(State()) == Apply(old(State()), ClassifySet(stmt)) else ClassifySet(stmt) == Broken
    {
      hide MatchSet, Split, AddMembers, PubBase;
      var m := MatchSet(SET, stmt);
      if m.None? {
        return false;
      }
      var ta := m.value.0;
      var tas := Split(m.value.1);
      if ta !in typeattributesets {
        typeattributesets := typeattributesets[ta := {}];
      }
      typeattributesets := typeattributesets[ta := typeattributesets[ta] + Elements(tas)];
      assert typeattributesets == old(typeattributesets)[ta := Lookup(old(typeattributesets), ta) + Elements(tas)];
      IndexMembers(ta, tas);
      var pub := PubBase(ta);
      if pub.Some? {
        pubtypes := pubtypes + {pub.value};
      }
      assert pubtypes == old(pubtypes) + if pub.Some? then {pub.value} else {};
      return true;
    }

    method ParseStmt(stmt: string) returns (ok: bool)
      modifies this
      ensures if ok then Some(State()) == Apply(old(State()), Classify(stmt)) else Classify(stmt) == Broken
    {
      if Head(TYPE, stmt).Some? {
        ParseType(stmt);
      } else if Head(ATTRIBUTE, stmt).Some? {
        ParseTypeattribute(stmt);
      } else if Head(SET, stmt).Some? {
        ok := ParseTypeattributeset(stmt);
        return;
      } else if Head(EXPAND, stmt).Some? {
        ok := ParseExpandtypeattribute(stmt);
        return;
      }
      return true;
    }

    /** The constructor's loop over a whole file. */
    method Load(infile: Infile) returns (outcome: Outcome)
      requires State() == EMPTY
      modifies this, infile
      ensures outcome == Parse(old(infile.unread))
      ensures outcome.Parsed? ==> outcome.cil == State()
    {
      var s := GetNextStmt(infile);
      while s.Some? && s.value != ""
        invariant Parse(old(infile.unread)) ==
          if s.None? then Hung
          else if s.value == "" then Parsed(State())
          else
            var c := Apply(State(), Classify(s.value));
            if c.None? then Crashed else ParseFrom(infile.unread, c.value)
        decreases if s.None? || s.value == "" then 0 else |infile.unread| + 1
      {
        var ok := ParseStmt(s.value);
        if !ok {
          return Crashed;
        }
        s := GetNextStmt(infile);
      }
      if s.None? {
        return Hung;
      }
      return Parsed(Cil(types, pubtypes, expandtypeattributes, typeattributes, typeattributesets, rTypeattributesets));
    }

    method UnparseTypes(result: string) returns (r: string)
      ensures r == result + Lines(Types(Sorted(types)))
    {
      r := result;
      var names := Sorted(types);
      assert names[0..] == names;
      for i := 0 to |names|
        invariant r + Lines(Types(names[i..])) == result + Lines(Types(names))
      {
        assert names[i..][1..] == names[i + 1..];
        NextLine(r, Type(names[i]), Types(names[i + 1..]));
        r := r + WrapParens(Join(" ", [TYPE, names[i]])) + "\n";
      }
      assert r + "" == r;
    }

    method UnparseAttributes(result: string) returns (r: string)
      ensures r == result + Lines(Attributes(Sorted(typeattributes)))
    {
      r := result;
      var names := Sorted(typeattributes);
      assert names[0..] == names;
      for i := 0 to |names|
        invariant r + Lines(Attributes(names[i..])) == result + Lines(Attributes(names))
      {
        assert names[i..][1..] == names[i + 1..];
        NextLine(r, Attribute(names[i]), Attributes(names[i + 1..]));
        r := r + WrapParens(Join(" ", [ATTRIBUTE, names[i]])) + "\n";
      }
      assert r + "" == r;
    }

    method UnparseExpands(result: string) returns (r: string)
      ensures r == result + Lines(Expands(expandtypeattributes, Sorted(expandtypeattributes.Keys)))
    {
      r := result;
      var names := Sorted(expandtypeattributes.Keys);
      assert names[0..] == names;
      for i := 0 to |names|
        invariant r + Lines(Expands(expandtypeattributes, names[i..])) == result + Lines(Expands(expandtypeattributes, names))
      {
        assert names[i..][1..] == names[i + 1..];
        var flag := expandtypeattributes[names[i]];
        NextLine(r, Expand(names[i], flag), Expands(expandtypeattributes, names[i + 1..]));
        r := r + WrapParens(Join(" ", [EXPAND, WrapParens(names[i]), flag])) + "\n";
      }
      assert r + "" == r;
    }

    method UnparseSets(result: string) returns (r: string)
      ensures r == result + Lines(Sets(typeattributesets, Sorted(typeattributesets.Keys)))
    {
      r := result;
      var names := Sorted(typeattributesets.Keys);
      assert names[0..] == names;
      for i := 0 to |names|
        invariant r + Lines(Sets(typeattributesets, names[i..])) == result + Lines(Sets(typeattributesets, names))
      {
        assert names[i..][1..] == names[i + 1..];
        var members := Sorted(typeattributesets[names[i]]);
        NextLine(r, Set(names[i], members), Sets(typeattributesets, names[i + 1..]));
        r := r + WrapParens(Join(" ", [SET, names[i], WrapParens(Join(" ", members))])) + "\n";
      }
      assert r + "" == r;
    }

    /** The printer: its four loops append one statement at a time. */
    method UnparseText() returns (result: string)
      ensures result == Unparse(State())
    {
      result := UnparseTypes("");
      result := UnparseAttributes(result);
      result := UnparseExpands(result);
      result := UnparseSets(result);
      ghost var a, b, d, e := Types(Sorted(types)), Attributes(Sorted(typeattributes)),
        Expands(expandtypeattributes, Sorted(expandtypeattributes.Keys)),
        Sets(typeattributesets, Sorted(typeattributesets.Keys));
      LinesAppend(d, e);
      LinesAppend(b, d + e);
      LinesAppend(a, b + (d + e));
      Regroup(Lines(a), Lines(b), Lines(d), Lines(e));
    }

    static lemma Regroup(a: string, b: string, c: string, d: string)
      ensures "" + a + b + c + d == a + (b + (c + d))
    {
    }

    static lemma NextLine(result: string, cmd: Command, more: seq<Command>)
      ensures result + Lines([cmd] + more) == (result + WrapParens(Print(cmd)) + "\n") + Lines(more)
    {
      assert ([cmd] + more)[1..] == more;
    }
  }
}
