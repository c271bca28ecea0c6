/** Type sets of neverallow rules (`read_typeset` of tools/sepolicy-analyze/neverallow.c): what the
    tokens mean, and the loop that collects them. */
module NeverallowTypes {
  import opened Options
  import opened NeverallowScan

  type Bits = set<nat>

  /** A name of the policy: one type, or the types of an attribute. */
  datatype Datum = Type(bit: nat) | Attribute(members: Bits)

  /** The names, the number of types and attributes, and which of the bits are attributes. */
  datatype Policy = Policy(names: map<string, Datum>, nprim: nat, attributes: Bits)

  datatype Flag = NoFlag | StarFlag | CompFlag

  // ---------------------------------------------------------------------------------------
  // What a sequence of tokens means

  /** The types a name stands for; a name the policy does not have stands for none. */
  function Named(policy: Policy, id: string): Bits {
    if id !in policy.names then {}
    else match policy.names[id]
      case Type(bit) => {bit}
      case Attribute(members) => members
  }

  /** A `-` is waiting for a name at place k: there is one with no name between. */
  ghost predicate Pending(ts: seq<Token>, k: nat)
    requires k <= |ts|
  {
    exists m :: 0 <= m < k && ts[m] == Minus && forall j | m < j < k :: !ts[j].Name?
  }

  ghost function Positive(policy: Policy, ts: seq<Token>): Bits {
    set k, b | 0 <= k < |ts| && ts[k].Name? && !Pending(ts, k) && b in Named(policy, ts[k].id) :: b
  }

  ghost function Negative(policy: Policy, ts: seq<Token>): Bits {
    set k, b | 0 <= k < |ts| && ts[k].Name? && Pending(ts, k) && b in Named(policy, ts[k].id) :: b
  }

  /** The last `*` or `~` decides. */
  ghost function LastFlag(ts: seq<Token>): Flag {
    if ts == [] then NoFlag
    else
      var t := ts[|ts| - 1];
      if t == Star then StarFlag else if t == Comp then CompFlag else LastFlag(ts[..|ts| - 1])
  }

  function Below(n: nat): (r: Bits)
    ensures forall b :: b in r <==> 0 <= b < n
  {
    if n == 0 then {} else Below(n - 1) + {n - 1}
  }

  /** All types that are not attributes. */
  function AllTypes(policy: Policy): Bits {
    Below(policy.nprim) - policy.attributes
  }

  /** The set denoted: the named types or all of them, without the negated ones, and then turned
      around within the types if complemented. */
  ghost function TypesOf(policy: Policy, ts: seq<Token>): Bits {
    var flag := LastFlag(ts);
    var base := if flag == StarFlag then Positive(policy, ts) + AllTypes(policy) else Positive(policy, ts);
    var minus := base - Negative(policy, ts);
    if flag == CompFlag then (AllTypes(policy) - minus) + (minus - AllTypes(policy)) else minus
  }

  // ---------------------------------------------------------------------------------------
  // One more token

  lemma PendingNext(ts: seq<Token>, t: Token)
    ensures forall k | 0 <= k <= |ts| :: Pending(ts + [t], k) <==> Pending(ts, k)
    ensures Pending(ts + [t], |ts| + 1) <==> if t == Minus then true else if t.Name? then false else Pending(ts, |ts|)
  {
    var us := ts + [t];
    forall k | 0 <= k <= |ts| ensures Pending(us, k) <==> Pending(ts, k) {
      if m :| 0 <= m < k && us[m] == Minus && forall j | m < j < k :: !us[j].Name? {
        assert forall j | m <= j < k :: us[j] == ts[j];
      }
      if m :| 0 <= m < k && ts[m] == Minus && forall j | m < j < k :: !ts[j].Name? {
        assert forall j | m <= j < k :: us[j] == ts[j];
        assert us[m] == Minus;
      }
    }
    if t == Minus {
      assert us[|ts|] == Minus;
    } else {
      if m :| 0 <= m < |us| && us[m] == Minus && forall j | m < j < |us| :: !us[j].Name? {
        assert us[|ts|] == t && ts[m] == Minus;
        assert forall j | m < j < |ts| :: us[j] == ts[j];
      }
      if !t.Name? && Pending(ts, |ts|) {
        var m :| 0 <= m < |ts| && ts[m] == Minus && forall j | m < j < |ts| :: !ts[j].Name?;
        assert us[m] == Minus && forall j | m < j < |us| :: us[j] == if j < |ts| then ts[j] else t;
      }
    }
  }

  lemma NamedNext(policy: Policy, ts: seq<Token>, t: Token)
    ensures Positive(policy, ts + [t])
      == Positive(policy, ts) + if t.Name? && !Pending(ts, |ts|) then Named(policy, t.id) else {}
    ensures Negative(policy, ts + [t])
      == Negative(policy, ts) + if t.Name? && Pending(ts, |ts|) then Named(policy, t.id) else {}
  {
    PendingNext(ts, t);
    hide Pending, Named;
    var us := ts + [t];
    assert us[|ts|] == t && forall k | 0 <= k < |ts| :: us[k] == ts[k];
  }

  // ---------------------------------------------------------------------------------------
  // Reading from a text, by position

  method SkipSpaces(text: string, p: nat) returns (q: nat)
    requires p <= |text|
    ensures p <= q <= |text| && text[q..] == SkipSpace(text[p..])
  {
    q := p;
    while q < |text| && IsSpace(text[q])
      invariant p <= q <= |text| && SkipSpace(text[q..]) == SkipSpace(text[p..])
    {
      assert text[q..][0] == text[q] && text[q..][1..] == text[q + 1..];
      q := q + 1;
    }
    assert q < |text| ==> text[q..][0] == text[q];
  }

  method SkipId(mode: Mode, text: string, p: nat) returns (q: nat)
    requires p <= |text|
    ensures p <= q <= |text| && q == p + IdLen(mode, text[p..])
  {
    q := p;
    while q < |text| && !Stops(mode, text[q])
      invariant p <= q <= |text| && q + IdLen(mode, text[q..]) == p + IdLen(mode, text[p..])
    {
      assert text[q..][0] == text[q] && text[q..][1..] == text[q + 1..];
      q := q + 1;
    }
    assert q < |text| ==> text[q..][0] == text[q];
  }

  method SkipLine(text: string, p: nat) returns (q: nat)
    requires p <= |text|
    ensures p <= q <= |text| && q == p + LineLen(text[p..])
  {
    q := p;
    while q < |text| && text[q] != '\n'
      invariant p <= q <= |text| && q + LineLen(text[q..]) == p + LineLen(text[p..])
    {
      assert text[q..][0] == text[q] && text[q..][1..] == text[q + 1..];
      q := q + 1;
    }
    assert q < |text| ==> text[q..][0] == text[q];
  }

  /** The token at p, which is not the end of the text. */
  method ReadToken(mode: Mode, text: string, p: nat) returns (ok: bool, t: Token, q: nat)
    requires p < |text|
    ensures ok == TokenAt(mode, text[p..]).Some?
    ensures ok ==> p < q <= |text| && TokenAt(mode, text[p..]) == Some((t, text[q..]))
  {
    hide IdAt, LineLen;
    ghost var s := text[p..];
    SliceAgain(text, p, p + 1);
    assert s[0] == text[p];
    if text[p] == '{' {
      return true, Open, p + 1;
    }
    if text[p] == '}' {
      return true, Close, p + 1;
    }
    if mode.Types? && text[p] == '*' {
      return true, Star, p + 1;
    }
    if mode.Types? && text[p] == '-' {
      return true, Minus, p + 1;
    }
    if text[p] == '#' {
      q := SkipLine(text, p);
      HashIsSkipped(s);
      SliceAgain(text, p, q);
      return true, Comment, q;
    }
    ok, t, q := ReadId(mode, text, p);
  }

  lemma SliceAgain(text: string, p: nat, q: nat)
    requires p <= q <= |text|
    ensures text[p..][q - p..] == text[q..]
  {
  }

  lemma HashIsSkipped(s: string)
    ensures s != "" && s[0] == '#' ==> LineLen(s) > 0
  {
  }

  /** The identifier at p. */
  method ReadId(mode: Mode, text: string, p: nat) returns (ok: bool, t: Token, q: nat)
    requires p < |text|
    ensures ok == IdAt(mode, text[p..]).Some?
    ensures ok ==> p < q <= |text| && IdAt(mode, text[p..]) == Some((t, text[q..]))
  {
    q := SkipId(mode, text, p);
    assert text[p..][q - p..] == text[q..] && text[p..][..q - p] == text[p..q];
    if q == p {
      return false, Comment, p;
    }
    var id := text[p..q];
    if mode.Types? && id == SELF {
      return true, Self, q;
    }
    return true, Name(id), q;
  }

  /** The head of each loop: white space, a `~` where it has a meaning, and the next token. */
  method ReadStep(mode: Mode, text: string, p: nat) returns (ok: bool, comp: bool, t: Token, q: nat)
    requires p <= |text|
    ensures ok == Step(mode, text[p..]).Some?
    ensures ok ==> p < q <= |text| && Step(mode, text[p..]) == Some((comp, t, text[q..]))
  {
    hide TokenAt;
    t, comp := Comment, false;
    q := SkipSpaces(text, p);
    if q == |text| {
      return false, comp, t, q;
    }
    assert text[q..][0] == text[q] && text[q..][1..] == text[q + 1..];
    if !mode.Classes? && text[q] == '~' {
      comp := true;
      q := SkipSpaces(text, q + 1);
      if q == |text| {
        return false, comp, t, q;
      }
    }
    ok, t, q := ReadToken(mode, text, q);
  }

  // ---------------------------------------------------------------------------------------
  // The loop

  /** The variables of the loop: the two bit maps, the flag, the pending negation, `self`. */
  datatype Collected = Collected(types: Bits, negset: Bits, flag: Flag, negate: bool, self: bool)

  ghost predicate Holds(policy: Policy, ts: seq<Token>, c: Collected) {
    && c.types == Positive(policy, ts) && c.negset == Negative(policy, ts) && c.flag == LastFlag(ts)
    && c.negate == Pending(ts, |ts|) && c.self == (Self in ts)
  }

  /** What one token does to the variables. */
  function Collect(policy: Policy, c: Collected, t: Token): Collected {
    match t
    case Comp => c.(flag := CompFlag)
    case Star => c.(flag := StarFlag)
    case Minus => c.(negate := true)
    case Self => c.(self := true)
    case Name(id) =>
      if id !in policy.names then c.(negate := false)
      else if c.negate then c.(negset := c.negset + Named(policy, id), negate := false)
      else c.(types := c.types + Named(policy, id))
    case _ => c
  }

  lemma CollectHolds(policy: Policy, ts: seq<Token>, c: Collected, t: Token)
    requires Holds(policy, ts, c)
    ensures Holds(policy, ts + [t], Collect(policy, c, t))
  {
    PendingNext(ts, t);
    NamedNext(policy, ts, t);
    assert (ts + [t])[..|ts|] == ts;
    hide Pending, Positive, Negative;
  }

  ghost function Prepend(done: seq<Token>, r: Option<(seq<Token>, string)>): Option<(seq<Token>, string)> {
    if r.None? then None else Some((done + r.value.0, r.value.1))
  }

  lemma PrependNothing(r: Option<(seq<Token>, string)>)
    ensures Prepend([], r) == r
  {
    if r.Some? {
      assert [] + r.value.0 == r.value.0;
    }
  }

  /** One round of a scanning loop. */
  lemma ScanRound(mode: Mode, s: string, open: nat, done: seq<Token>)
    ensures Step(mode, s).None? ==> Scan(mode, s, open).None?
    ensures Step(mode, s).Some? ==>
      var (comp, t, rest) := Step(mode, s).value;
      Prepend(done, Scan(mode, s, open)) ==
        if (t == Close && open == 0) || rest == "" then None
        else if Depth(open, t) == 0 then Some((done + Marked(comp, t), rest))
        else Prepend(done + Marked(comp, t), Scan(mode, rest, Depth(open, t)))
  {
    hide Step;
    if Step(mode, s).Some? {
      var (comp, t, rest) := Step(mode, s).value;
      if rest != "" {
        var r := Scan(mode, rest, Depth(open, t));
        if r.Some? {
          assert done + (Marked(comp, t) + r.value.0) == done + Marked(comp, t) + r.value.0;
        }
      }
    }
  }

  /** The do-while loop of `read_typeset`. */
  method CollectTypes(policy: Policy, text: string, p: nat) returns (ok: bool, q: nat, c: Collected, ghost ts: seq<Token>)
    requires p <= |text|
    ensures ok == Scan(Types, text[p..], 0).Some?
    ensures ok ==> p < q < |text| && Scan(Types, text[p..], 0) == Some((ts, text[q..])) && Holds(policy, ts, c)
  {
    hide Scan, Step, Holds, Collect, Prepend;
    q, ts, c := p, [], Collected({}, {}, NoFlag, false, false);
    NothingHolds(policy);
    PrependNothing(Scan(Types, text[p..], 0));
    var openparens: nat := 0;
    var more := true;
    while more
      invariant p <= q <= |text| && Holds(policy, ts, c) && (!more ==> p < q)
      invariant Scan(Types, text[p..], 0) ==
        if more then Prepend(ts, Scan(Types, text[q..], openparens)) else if q == |text| then None else Some((ts, text[q..]))
      decreases |text| - q, more
    {
      ghost var was := ts;
      ScanRound(Types, text[q..], openparens, ts);
      PrependFails(ts);
      var stepOk, comp, t, next := ReadStep(Types, text, q);
      if !stepOk {
        return false, q, c, ts;
      }
      if comp {
        CollectHolds(policy, ts, c, Comp);
        c, ts := Collect(policy, c, Comp), ts + [Comp];
      }
      if t == Open {
        openparens := openparens + 1;
      } else if t == Close {
        if openparens == 0 {
          return false, q, c, ts;
        }
        openparens := openparens - 1;
      }
      CollectHolds(policy, ts, c, t);
      c, ts := Collect(policy, c, t), ts + [t];
      assert ts == was + Marked(comp, t);
      q := next;
      more := q < |text| && openparens != 0;
    }
    ok := q != |text|;
  }

  lemma PrependFails(ts: seq<Token>)
    ensures Prepend(ts, None) == None
  {
  }

  lemma NothingHolds(policy: Policy)
    ensures Holds(policy, [], Collected({}, {}, NoFlag, false, false))
  {
  }

  /** The three loops after the text has been read, over bits. */
  method FinishTypes(policy: Policy, c: Collected) returns (types: Bits)
    ensures types == Finished(policy, c)
  {
    types := c.types;
    if c.flag == StarFlag {
      for bit := 0 to policy.nprim
        invariant types == c.types + (Below(bit) - policy.attributes - c.negset)
      {
        if bit in c.negset {
          continue;
        }
        if bit in policy.attributes {
          continue;
        }
        types := types + {bit};
      }
    }
    types := types - c.negset;
    if c.flag == CompFlag {
      ghost var minus := types;
      for bit := 0 to policy.nprim
        invariant types == (minus - (Below(bit) - policy.attributes)) + ((Below(bit) - policy.attributes) - minus)
      {
        if bit in policy.attributes {
          continue;
        }
        if bit in types {
          types := types - {bit};
        } else {
          types := types + {bit};
        }
      }
    }
  }

  function Finished(policy: Policy, c: Collected): Bits {
    var base := if c.flag == StarFlag then c.types + (AllTypes(policy) - c.negset) else c.types;
    var minus := base - c.negset;
    if c.flag == CompFlag then (minus - AllTypes(policy)) + (AllTypes(policy) - minus) else minus
  }

  lemma FinishedIsDenoted(policy: Policy, ts: seq<Token>, c: Collected)
    requires Holds(policy, ts, c)
    ensures Finished(policy, c) == TypesOf(policy, ts)
  {
    hide Positive, Negative, Pending, AllTypes, LastFlag;
  }

  /** `read_typeset`: what it reads is what the scanner reads, and the set it computes is the set
      that the tokens denote. */
  method ReadTypeset(policy: Policy, text: string, p: nat) returns (ok: bool, q: nat, types: Bits, self: bool)
    requires p <= |text|
    ensures ok == Scan(Types, text[p..], 0).Some?
    ensures ok ==>
      var r := Scan(Types, text[p..], 0).value;
      p < q < |text| && text[q..] == r.1 && types == TypesOf(policy, r.0) && self == (Self in r.0)
  {
    hide Scan, TypesOf;
    var c: Collected;
    ghost var ts: seq<Token>;
    ok, q, c, ts := CollectTypes(policy, text, p);
    types, self := {}, c.self;
    if ok {
      types := FinishTypes(policy, c);
      FinishedIsDenoted(policy, ts, c);
    }
  }
}
