/** The scanner of tools/sepolicy-analyze/neverallow.c. Its three loops differ in which characters
    have a meaning; a string stands for the text from the current pointer to the end. */
module NeverallowScan {
  import opened Options

  /** `isspace` in the C locale. */
  predicate IsSpace(c: char) {
    c == ' ' || '\t' <= c <= '\r'
  }

  /** Which loop is reading: a type set, the classes or the permissions. */
  datatype Mode = Types | Classes | Perms

  datatype Token = Open | Close | Star | Comp | Minus | Comment | Self | Name(id: string)

  const SELF := "self"

  function SkipSpace(s: string): (r: string)
    ensures |r| <= |s| && (r != "" ==> !IsSpace(r[0]))
  {
    if s != "" && IsSpace(s[0]) then SkipSpace(s[1..]) else s
  }

  /** The character ends an identifier. */
  predicate Stops(mode: Mode, c: char) {
    IsSpace(c) || c == ';' || c == '{' || c == '}' || c == '#' || (mode.Types? && c == ':')
  }

  function IdLen(mode: Mode, s: string): (n: nat)
    ensures n <= |s| && (n < |s| ==> Stops(mode, s[n]))
    ensures forall i | 0 <= i < n :: !Stops(mode, s[i])
  {
    if s != "" && !Stops(mode, s[0]) then 1 + IdLen(mode, s[1..]) else 0
  }

  function LineLen(s: string): (n: nat)
    ensures n <= |s|
  {
    if s != "" && s[0] != '\n' then 1 + LineLen(s[1..]) else 0
  }

  /** The token at the start of s, and what follows it; None where the parser gives up. */
  function TokenAt(mode: Mode, s: string): (r: Option<(Token, string)>)
    requires s != ""
    ensures r.Some? ==> |r.value.1| < |s|
  {
    if s[0] == '{' then Some((Open, s[1..]))
    else if s[0] == '}' then Some((Close, s[1..]))
    else if mode.Types? && s[0] == '*' then Some((Star, s[1..]))
    else if mode.Types? && s[0] == '-' then Some((Minus, s[1..]))
    else if s[0] == '#' then Some((Comment, s[LineLen(s)..]))
    else IdAt(mode, s)
  }

  /** The identifier at the start of s, and what follows it. */
  function IdAt(mode: Mode, s: string): (r: Option<(Token, string)>)
    ensures r.Some? ==> |r.value.1| < |s|
  {
    var n := IdLen(mode, s);
    if n == 0 then None
    else if mode.Types? && s[..n] == SELF then Some((Self, s[n..]))
    else Some((Name(s[..n]), s[n..]))
  }

  /** One round of a loop: white space, at most one `~` with white space after it, and a token. */
  function Step(mode: Mode, s: string): (r: Option<(bool, Token, string)>)
    ensures r.Some? ==> |r.value.2| < |s|
  {
    var s1 := SkipSpace(s);
    var comp := !mode.Classes? && s1 != "" && s1[0] == '~';
    var s2 := if comp then SkipSpace(s1[1..]) else s1;
    if s2 == "" then None
    else
      var t := TokenAt(mode, s2);
      if t.None? then None else Some((comp, t.value.0, t.value.1))
  }

  function Marked(comp: bool, t: Token): seq<Token> {
    if comp then [Comp, t] else [t]
  }

  /** A whole loop, from a given depth of braces: the tokens read and what follows them. It fails
      on a brace closed too often and at the end of the text. */
  function Scan(mode: Mode, s: string, open: nat): (r: Option<(seq<Token>, string)>)
    ensures r.Some? ==> |r.value.1| < |s| && r.value.1 != ""
    decreases |s|
  {
    var st := Step(mode, s);
    if st.None? then None
    else
      var (comp, t, rest) := st.value;
      if t == Close && open == 0 then None
      else if rest == "" then None
      else
        var open' := Depth(open, t);
        if open' == 0 then Some((Marked(comp, t), rest))
        else
          var r := Scan(mode, rest, open');
          if r.None? then None else Some((Marked(comp, t) + r.value.0, r.value.1))
  }

  function Depth(open: nat, t: Token): nat {
    if t == Open then open + 1 else if t == Close && open > 0 then open - 1 else open
  }

  // ---------------------------------------------------------------------------------------
  // Locality: text after the end of what was read does not matter

  lemma {:induction false} SkipSpaceLocal(s: string, more: string)
    requires SkipSpace(s) != ""
    ensures SkipSpace(s + more) == SkipSpace(s) + more
  {
    if s != "" && IsSpace(s[0]) {
      assert (s + more)[1..] == s[1..] + more;
      SkipSpaceLocal(s[1..], more);
    }
  }

  lemma {:induction false} IdLenLocal(mode: Mode, s: string, more: string)
    requires IdLen(mode, s) < |s|
    ensures IdLen(mode, s + more) == IdLen(mode, s)
  {
    assert (s + more)[0] == s[0];
    if !Stops(mode, s[0]) {
      assert (s + more)[1..] == s[1..] + more;
      IdLenLocal(mode, s[1..], more);
    }
  }

  lemma {:induction false} LineLenLocal(s: string, more: string)
    requires LineLen(s) < |s|
    ensures LineLen(s + more) == LineLen(s)
  {
    assert (s + more)[0] == s[0];
    if s[0] != '\n' {
      assert (s + more)[1..] == s[1..] + more;
      LineLenLocal(s[1..], more);
    }
  }

  lemma TokenLocal(mode: Mode, s: string, more: string)
    requires s != "" && TokenAt(mode, s).Some? && TokenAt(mode, s).value.1 != ""
    ensures TokenAt(mode, s + more) == Some((TokenAt(mode, s).value.0, TokenAt(mode, s).value.1 + more))
  {
    hide IdAt;
    var s' := s + more;
    assert s'[0] == s[0] && s'[1..] == s[1..] + more;
    if s[0] == '#' {
      LineLenLocal(s, more);
      assert s'[LineLen(s)..] == s[LineLen(s)..] + more;
    } else {
      IdLocal(mode, s, more);
    }
  }

  lemma IdLocal(mode: Mode, s: string, more: string)
    ensures IdAt(mode, s).Some? && IdAt(mode, s).value.1 != ""
      ==> IdAt(mode, s + more) == Some((IdAt(mode, s).value.0, IdAt(mode, s).value.1 + more))
  {
    var n := IdLen(mode, s);
    if n < |s| {
      IdLenLocal(mode, s, more);
      assert (s + more)[..n] == s[..n] && (s + more)[n..] == s[n..] + more;
    }
  }

  lemma StepLocal(mode: Mode, s: string, more: string)
    requires Step(mode, s).Some? && Step(mode, s).value.2 != ""
    ensures Step(mode, s + more) == Some((Step(mode, s).value.0, Step(mode, s).value.1, Step(mode, s).value.2 + more))
  {
    hide TokenAt;
    var s1 := SkipSpace(s);
    SkipSpaceLocal(s, more);
    assert (s1 + more)[0] == s1[0] && (s1 + more)[1..] == s1[1..] + more;
    if !mode.Classes? && s1[0] == '~' {
      SkipSpaceLocal(s1[1..], more);
      TokenLocal(mode, SkipSpace(s1[1..]), more);
    } else {
      TokenLocal(mode, s1, more);
    }
  }

  lemma {:induction false} ScanLocal(mode: Mode, s: string, open: nat, more: string)
    requires Scan(mode, s, open).Some?
    ensures Scan(mode, s + more, open) == Some((Scan(mode, s, open).value.0, Scan(mode, s, open).value.1 + more))
    decreases |s|
  {
    var (comp, t, rest) := Step(mode, s).value;
    StepLocal(mode, s, more);
    hide Step;
    if Depth(open, t) != 0 {
      ScanLocal(mode, rest, Depth(open, t), more);
    }
  }
}
