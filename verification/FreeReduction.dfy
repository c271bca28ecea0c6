/** Words over block markers and other lines, in which a BEGIN and an END of the same block cancel
    when they are neighbours, in either order. */
module FreeReduction {
  datatype Letter = Begin(name: string) | End(name: string) | Rule(text: string) | Note(text: string)

  type Word = seq<Letter>

  predicate Inverse(a: Letter, b: Letter) {
    (a.Begin? && b.End? && a.name == b.name) || (a.End? && b.Begin? && a.name == b.name)
  }

  /** One letter on top of a stack of letters. */
  function Push(stack: Word, x: Letter): Word {
    if stack != [] && Inverse(stack[|stack| - 1], x) then stack[..|stack| - 1] else stack + [x]
  }

  function PushAll(stack: Word, w: Word): Word
    decreases |w|
  {
    if w == [] then stack else PushAll(Push(stack, w[0]), w[1..])
  }

  function Reduce(w: Word): Word {
    PushAll([], w)
  }

  ghost predicate IsReduced(w: Word) {
    forall i | 0 <= i < |w| - 1 :: !Inverse(w[i], w[i + 1])
  }

  lemma PushReduced(stack: Word, x: Letter)
    requires IsReduced(stack)
    ensures IsReduced(Push(stack, x))
  {
  }

  lemma {:induction false} PushAllReduced(stack: Word, w: Word)
    requires IsReduced(stack)
    ensures IsReduced(PushAll(stack, w))
    decreases |w|
  {
    if w != [] {
      PushReduced(stack, w[0]);
      PushAllReduced(Push(stack, w[0]), w[1..]);
    }
  }

  lemma {:induction false} PushAllAppend(stack: Word, u: Word, v: Word)
    ensures PushAll(stack, u + v) == PushAll(PushAll(stack, u), v)
    decreases |u|
  {
    if u == [] {
      assert u + v == v;
    } else {
      assert (u + v)[1..] == u[1..] + v;
      PushAllAppend(Push(stack, u[0]), u[1..], v);
    }
  }

  lemma PushOne(stack: Word, x: Letter)
    ensures PushAll(stack, [x]) == Push(stack, x)
  {
    assert [x][1..] == [];
  }

  lemma PairVanishes(stack: Word, x: Letter, y: Letter)
    requires IsReduced(stack) && Inverse(x, y)
    ensures Push(Push(stack, x), y) == stack
  {
    if stack != [] && Inverse(stack[|stack| - 1], x) {
      var s := stack[..|stack| - 1];
      assert stack[|stack| - 1] == y;
      assert s != [] ==> !Inverse(s[|s| - 1], stack[|stack| - 1]);
      assert s + [y] == stack;
    } else {
      assert (stack + [x])[..|stack|] == stack;
    }
  }

  /** Cancelling a pair anywhere does not change the reduced word. */
  lemma CancelInvariant(u: Word, x: Letter, y: Letter, v: Word)
    requires Inverse(x, y)
    ensures Reduce(u + [x, y] + v) == Reduce(u + v)
  {
    PushAllReduced([], u);
    var s := Reduce(u);
    PushAllAppend([], u + [x, y], v);
    PushAllAppend([], u, [x, y]);
    PushAllAppend([], u, v);
    assert [x, y] == [x] + [y];
    PushAllAppend(s, [x], [y]);
    PushOne(s, x);
    PushOne(Push(s, x), y);
    PairVanishes(s, x, y);
  }

  lemma {:induction false} ReducedStays(stack: Word, w: Word)
    requires IsReduced(stack + w)
    ensures PushAll(stack, w) == stack + w
    decreases |w|
  {
    if w == [] {
      assert stack + w == stack;
    } else {
      assert (stack + w)[|stack|] == w[0];
      assert stack != [] ==> (stack + w)[|stack| - 1] == stack[|stack| - 1];
      assert (stack + [w[0]]) + w[1..] == stack + w;
      ReducedStays(stack + [w[0]], w[1..]);
    }
  }

  /** w becomes w' by cancelling one pair after the other, at the given places. */
  ghost predicate Cancels(w: Word, places: seq<nat>, w': Word)
    decreases |places|
  {
    if places == [] then w == w'
    else
      var i := places[0];
      i + 1 < |w| && Inverse(w[i], w[i + 1]) && Cancels(w[..i] + w[i + 2..], places[1..], w')
  }

  /** However pairs are cancelled, if none is left the word is the one the stack computes. */
  lemma {:induction false} AnyOrderSameResult(w: Word, places: seq<nat>, w': Word)
    requires Cancels(w, places, w') && IsReduced(w')
    ensures w' == Reduce(w)
    decreases |places|
  {
    if places == [] {
      assert [] + w == w;
      ReducedStays([], w);
    } else {
      var i := places[0];
      var u, v := w[..i], w[i + 2..];
      assert w == u + [w[i], w[i + 1]] + v;
      CancelInvariant(u, w[i], w[i + 1], v);
      AnyOrderSameResult(u + v, places[1..], w');
    }
  }

  lemma {:induction false} CancelsBelow(w: Word, places: seq<nat>, w': Word, v: Word)
    requires Cancels(w, places, w')
    ensures Cancels(w + v, places, w' + v)
    decreases |places|
  {
    if places != [] {
      var i := places[0];
      assert (w + v)[..i] + (w + v)[i + 2..] == (w[..i] + w[i + 2..]) + v;
      CancelsBelow(w[..i] + w[i + 2..], places[1..], w', v);
    }
  }

  lemma {:induction false} CancelsThen(w: Word, ps: seq<nat>, w': Word, qs: seq<nat>, w'': Word)
    requires Cancels(w, ps, w') && Cancels(w', qs, w'')
    ensures Cancels(w, ps + qs, w'')
    decreases |ps|
  {
    if ps == [] {
      assert ps + qs == qs;
    } else {
      assert (ps + qs)[1..] == ps[1..] + qs;
      CancelsThen(w[..ps[0]] + w[ps[0] + 2..], ps[1..], w', qs, w'');
    }
  }

  lemma CancelsFirst(w: Word, i: nat, places: seq<nat>, w': Word)
    requires i + 1 < |w| && Inverse(w[i], w[i + 1]) && Cancels(w[..i] + w[i + 2..], places, w')
    ensures Cancels(w, [i] + places, w')
  {
    assert ([i] + places)[1..] == places;
  }

  lemma CancelsNothing(w: Word)
    ensures Cancels(w, [], w)
  {
  }

  lemma PairCutOut(stack: Word, w: Word)
    requires w != []
    ensures if stack != [] && Inverse(stack[|stack| - 1], w[0])
      then
        var i := |stack| - 1;
        (stack + w)[i] == stack[i] && (stack + w)[i + 1] == w[0] && (stack + w)[..i] + (stack + w)[i + 2..] == Push(stack, w[0]) + w[1..]
      else stack + w == Push(stack, w[0]) + w[1..]
  {
    hide Inverse;
    assert w == [w[0]] + w[1..];
  }

  /** The stack does nothing but cancel pairs. */
  lemma {:induction false} ReduceCancels(stack: Word, w: Word) returns (places: seq<nat>)
    ensures Cancels(stack + w, places, PushAll(stack, w))
    decreases |w|
  {
    hide Inverse, Cancels, Push;
    if w == [] {
      places := [];
      assert stack + w == stack;
      CancelsNothing(stack);
    } else {
      var s := Push(stack, w[0]);
      var qs := ReduceCancels(s, w[1..]);
      if stack != [] && Inverse(stack[|stack| - 1], w[0]) {
        var i := |stack| - 1;
        places := [i] + qs;
        PairCutOut(stack, w);
        CancelsFirst(stack + w, i, qs, PushAll(stack, w));
      } else {
        places := qs;
        PairCutOut(stack, w);
      }
    }
  }

  /** The reduced word is the only one without neighbours that cancel, and is reached from w. */
  lemma ReduceIsNormalForm(w: Word)
    ensures IsReduced(Reduce(w)) && Reduce(Reduce(w)) == Reduce(w)
    ensures exists places :: Cancels(w, places, Reduce(w))
    ensures forall places, w' | Cancels(w, places, w') && IsReduced(w') :: w' == Reduce(w)
  {
    PushAllReduced([], w);
    assert [] + Reduce(w) == Reduce(w) && [] + w == w;
    ReducedStays([], Reduce(w));
    var places := ReduceCancels([], w);
    forall places, w' | Cancels(w, places, w') && IsReduced(w') ensures w' == Reduce(w) {
      AnyOrderSameResult(w, places, w');
    }
  }

  // ---------------------------------------------------------------------------------------
  // What rules see

  lemma {:induction false} BarrierHolds(below: Word, x: Letter, stack: Word, w: Word)
    requires !x.Begin? && !x.End?
    ensures PushAll(below + [x] + stack, w) == below + [x] + PushAll(stack, w)
    decreases |w|
  {
    hide Push;
    if w != [] {
      BarrierPush(below, x, stack, w[0]);
      BarrierHolds(below, x, Push(stack, w[0]), w[1..]);
    }
  }

  lemma BarrierPush(below: Word, x: Letter, stack: Word, y: Letter)
    requires !x.Begin? && !x.End?
    ensures Push(below + [x] + stack, y) == below + [x] + Push(stack, y)
  {
    var all := below + [x] + stack;
    if stack == [] {
      assert all[|all| - 1] == x;
    } else {
      assert all[|all| - 1] == stack[|stack| - 1];
      assert all[..|all| - 1] == below + [x] + stack[..|stack| - 1];
    }
    assert all + [y] == below + [x] + (stack + [y]);
  }

  /** Every rule is kept, in its place between what is before and what is after it. */
  lemma RulesSplitReduction(u: Word, x: Letter, v: Word)
    requires !x.Begin? && !x.End?
    ensures Reduce(u + [x] + v) == Reduce(u) + [x] + Reduce(v)
  {
    PushAllAppend([], u + [x], v);
    PushAllAppend([], u, [x]);
    var s := Reduce(u);
    PushOne(s, x);
    assert s + [x] + [] == s + [x];
    BarrierHolds(s, x, [], v);
  }

  /** How many blocks of this name are open: BEGINs minus ENDs. */
  function Net(w: Word, name: string): int {
    if w == [] then 0
    else (if w[0] == Begin(name) then 1 else if w[0] == End(name) then -1 else 0) + Net(w[1..], name)
  }

  lemma {:induction false} NetAppend(u: Word, v: Word, name: string)
    ensures Net(u + v, name) == Net(u, name) + Net(v, name)
  {
    if u == [] {
      assert u + v == v;
    } else {
      assert (u + v)[1..] == u[1..] + v;
      NetAppend(u[1..], v, name);
    }
  }

  lemma NetOne(x: Letter, name: string)
    ensures Net([x], name) == if x == Begin(name) then 1 else if x == End(name) then -1 else 0
  {
    assert [x][1..] == [];
  }

  lemma NetPush(stack: Word, x: Letter, name: string)
    ensures Net(Push(stack, x), name) == Net(stack, name) + if x == Begin(name) then 1 else if x == End(name) then -1 else 0
  {
    hide Net;
    NetOne(x, name);
    NetAppend(stack, [x], name);
    if stack != [] && Inverse(stack[|stack| - 1], x) {
      var i := |stack| - 1;
      assert stack == stack[..i] + [stack[i]];
      NetOne(stack[i], name);
      NetAppend(stack[..i], [stack[i]], name);
    }
  }

  lemma {:induction false} NetPushAll(stack: Word, w: Word, name: string)
    ensures Net(PushAll(stack, w), name) == Net(stack, name) + Net(w, name)
    decreases |w|
  {
    hide Push;
    if w != [] {
      NetPush(stack, w[0], name);
      NetPushAll(Push(stack, w[0]), w[1..], name);
    }
  }

  /** Each rule that is kept sees as many open blocks of each name in the output as in the input. */
  lemma RulesSeeSameBlocks(u: Word, x: Letter, v: Word, name: string)
    requires !x.Begin? && !x.End?
    ensures |Reduce(u)| < |Reduce(u + [x] + v)| && Reduce(u + [x] + v)[|Reduce(u)|] == x
    ensures Net(Reduce(u + [x] + v)[..|Reduce(u)|], name) == Net(u, name)
  {
    RulesSplitReduction(u, x, v);
    NetPushAll([], u, name);
    assert Reduce(u + [x] + v)[..|Reduce(u)|] == Reduce(u);
  }
}
