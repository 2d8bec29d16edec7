/** What holds of peeling with no hypothesis about the cells or the hashes, and what does not. */
module SketchLimits {
  import opened Words
  import opened Sequences
  import opened SketchCell
  import opened Sketch
  import opened SketchSums
  import opened SketchPeel

  // ----- conservation, for any cells at all

  /** What is in cell `i` together with everything peeled out of it so far. */
  function Balance(sh: Shape, s: State, i: nat): Cell
    requires Valid(sh, s) && i < |s.cells|
  {
    Add(Add(s.cells[i], Total(sh, s.left, true, i)), Total(sh, s.right, false, i))
  }

  lemma MoveLeft(c: Cell, l: Cell, r: Cell, t: Cell, t': Cell)
    requires Add(Add(c, t'), t) == c
    ensures Add(Add(Add(c, t'), Add(l, t)), r) == Add(Add(c, l), r)
  {
    AddAssoc(Add(c, t'), l, t);
    AddSwap(Add(c, t'), l, t);
  }

  lemma MoveRight(c: Cell, l: Cell, r: Cell, t: Cell, t': Cell)
    requires Add(Add(c, t), t') == c
    ensures Add(Add(Add(c, t), l), Add(r, t')) == Add(Add(c, l), r)
  {
    AddAssoc(Add(Add(c, t), l), r, t');
    AddSwap(Add(Add(c, t), l), r, t');
    AddSwap(Add(c, t), l, t');
  }

  lemma StepConserves(sh: Shape, s: State, k: nat, i: nat)
    requires Valid(sh, s) && k < |s.queue| && i < |s.cells|
    ensures Balance(sh, Step(sh, s, k), i) == Balance(sh, s, i)
  {
    assert s.queue[k] in s.queue;
    var c := s.cells[s.queue[k]];
    if Pure(sh, c) {
      var e := Claimed(c);
      AppliedCell(sh, s.cells, e, c.count != 1, i);
      CancelTerm(sh, s.cells[i], e, i);
      var l, r := Total(sh, s.left, true, i), Total(sh, s.right, false, i);
      if c.count == 1 {
        TotalAppend(sh, s.left, true, i, e);
        MoveLeft(s.cells[i], l, r, Term(sh, e, true, i), Term(sh, e, false, i));
      } else {
        TotalAppend(sh, s.right, false, i, e);
        MoveRight(s.cells[i], l, r, Term(sh, e, true, i), Term(sh, e, false, i));
      }
    }
  }

  /** At every point of every run the input cells are the current cells plus what was peeled. */
  lemma {:induction false} RunConserves(sh: Shape, s: State, picks: seq<nat>, i: nat)
    requires Valid(sh, s) && i < |s.cells|
    ensures |Run(sh, s, picks).cells| == |s.cells|
    ensures Balance(sh, Run(sh, s, picks), i) == Balance(sh, s, i)
    decreases |picks|
  {
    if picks != [] && s.queue != [] {
      var k := Pick(s, picks);
      StepConserves(sh, s, k, i);
      RunConserves(sh, Step(sh, s, k), picks[1..], i);
    }
  }

  lemma {:induction false} MinusTotal(sh: Shape, x: Cell, r: seq<Elem>, i: nat)
    requires sh.len > 0
    ensures Minus(x, Total(sh, r, true, i)) == Add(x, Total(sh, r, false, i))
  {
    if r == [] {
      assert Minus(x, EMPTY) == Add(x, EMPTY);
    } else {
      var init, e := r[..|r| - 1], r[|r| - 1];
      MinusTotal(sh, x, init, i);
      MinusTerm(sh, x, Total(sh, init, true, i), e, i);
      AddAssoc(x, Total(sh, init, false, i), Term(sh, e, false, i));
    }
  }

  /** A decode of any cells re-encodes to them, cell for cell: sketching the two sides found and
      subtracting gives the input back. */
  lemma DecodeReencodes(sh: Shape, cells: seq<Cell>, picks: seq<nat>)
    requires WellFormed(sh, cells)
    ensures var v := Verdict(Run(sh, Start(sh, cells), picks));
            v.Decoded? ==> cells == Difference(SketchOf(sh, v.left), SketchOf(sh, v.right))
  {
    var s0, s := Start(sh, cells), Run(sh, Start(sh, cells), picks);
    if Verdict(s).Decoded? {
      forall i: nat | i < |cells|
        ensures cells[i] == Difference(SketchOf(sh, s.left), SketchOf(sh, s.right))[i]
      {
        RunConserves(sh, s0, picks, i);
        AddZero(cells[i]);
        AddZero(Total(sh, s.left, true, i));
        SketchOfCell(sh, s.left, i);
        SketchOfCell(sh, s.right, i);
        MinusTotal(sh, Total(sh, s.left, true, i), s.right, i);
      }
    }
  }

  // ----- without the hypotheses

  /** Cells no pair of sets leaves: `e` in the first of its three places and nowhere else. */
  function Torn(sh: Shape, e: Elem): (r: seq<Cell>)
    requires sh.len > 0
    ensures WellFormed(sh, r)
  {
    EmptyCells(sh)[Location(sh, e, 0) := Single(e, sh.check(e), true)]
  }

  /** `e`'s opposite in its other two places: what peeling turns `Torn` into, and back. */
  function Mended(sh: Shape, e: Elem): (r: seq<Cell>)
    requires sh.len > 0
    ensures WellFormed(sh, r)
  {
    EmptyCells(sh)[Location(sh, e, 1) := Single(e, sh.check(e), false)]
                  [Location(sh, e, 2) := Single(e, sh.check(e), false)]
  }

  lemma TornPeelsToMended(sh: Shape, e: Elem)
    requires sh.len > 0
    ensures Applied(sh, Torn(sh, e), e, -1) == Mended(sh, e)
    ensures Applied(sh, Mended(sh, e), e, 1) == Torn(sh, e)
    ensures Purified(sh, Mended(sh, e), e, 3) == [Location(sh, e, 1), Location(sh, e, 2)]
    ensures Purified(sh, Torn(sh, e), e, 3) == [Location(sh, e, 0)]
  {
    var torn, mended := Torn(sh, e), Mended(sh, e);
    AddZero(Single(e, sh.check(e), true));
    AddZero(Single(e, sh.check(e), false));
    OppositesCancel(e, sh.check(e), true);
    OppositesCancel(e, sh.check(e), false);
    forall i: nat | i < |torn|
      ensures Applied(sh, torn, e, -1)[i] == mended[i] && Applied(sh, mended, e, 1)[i] == torn[i]
    {
      AppliedCell(sh, torn, e, false, i);
      AppliedCell(sh, mended, e, true, i);
    }
    assert Purified(sh, mended, e, 1) == Purified(sh, torn, e, 0) == [];
    assert Purified(sh, mended, e, 2) == [Location(sh, e, 1)];
    assert Purified(sh, torn, e, 1) == Purified(sh, torn, e, 2) == [Location(sh, e, 0)];
  }

  lemma TornPop(sh: Shape, e: Elem, l: seq<Elem>, r: seq<Elem>)
    requires sh.len > 0
    ensures Step(sh, State(Torn(sh, e), [Location(sh, e, 0)], l, r), 0)
            == State(Mended(sh, e), [Location(sh, e, 1), Location(sh, e, 2)], l + [e], r)
  {
    hide Applied, Purified, CellIndex, Mended;
    TornPeelsToMended(sh, e);
  }

  lemma MendedPop(sh: Shape, e: Elem, l: seq<Elem>, r: seq<Elem>)
    requires sh.len > 0
    ensures Step(sh, State(Mended(sh, e), [Location(sh, e, 1), Location(sh, e, 2)], l, r), 0)
            == State(Torn(sh, e), [Location(sh, e, 2), Location(sh, e, 0)], l, r + [e])
  {
    hide Applied, Purified, CellIndex, Torn;
    TornPeelsToMended(sh, e);
    assert RemoveAt([Location(sh, e, 1), Location(sh, e, 2)], 0) == [Location(sh, e, 2)];
  }

  lemma EmptyPop(sh: Shape, e: Elem, l: seq<Elem>, r: seq<Elem>)
    requires sh.len > 0
    ensures Step(sh, State(Torn(sh, e), [Location(sh, e, 2), Location(sh, e, 0)], l, r), 0)
            == State(Torn(sh, e), [Location(sh, e, 0)], l, r)
  {
    assert RemoveAt([Location(sh, e, 2), Location(sh, e, 0)], 0) == [Location(sh, e, 0)];
  }

  lemma FifoStep(sh: Shape, s: State, n: nat)
    requires Valid(sh, s) && s.queue != [] && n > 0
    ensures Run(sh, s, Fifo(n)) == Run(sh, Step(sh, s, 0), Fifo(n - 1))
  {
    assert Fifo(n)[1..] == Fifo(n - 1);
  }

  /** Three pops bring the cells and the queue back to where they were, with one more element
      reported on each side. */
  ghost predicate Returns(sh: Shape, cells: seq<Cell>, queue: seq<nat>, e: Elem) {
    forall l: seq<Elem>, r: seq<Elem> :: Valid(sh, State(cells, queue, l, r)) ==>
      Run(sh, State(cells, queue, l, r), Fifo(3)) == State(cells, queue, l + [e], r + [e])
  }

  lemma ThreePopsReturn(sh: Shape, e: Elem)
    requires sh.len > 0
    ensures Returns(sh, Torn(sh, e), [Location(sh, e, 0)], e)
  {
    hide Step, Torn, Mended, Location;
    forall l: seq<Elem>, r: seq<Elem>
      ensures Run(sh, State(Torn(sh, e), [Location(sh, e, 0)], l, r), Fifo(3))
              == State(Torn(sh, e), [Location(sh, e, 0)], l + [e], r + [e])
    {
      TornPop(sh, e, l, r);
      MendedPop(sh, e, l + [e], r);
      EmptyPop(sh, e, l + [e], r + [e]);
      FifoStep(sh, State(Torn(sh, e), [Location(sh, e, 0)], l, r), 3);
      FifoStep(sh, State(Mended(sh, e), [Location(sh, e, 1), Location(sh, e, 2)], l + [e], r), 2);
      FifoStep(sh, State(Torn(sh, e), [Location(sh, e, 2), Location(sh, e, 0)], l + [e], r + [e]), 1);
    }
  }

  lemma {:induction false} RunTwice(sh: Shape, s: State, p: seq<nat>, q: seq<nat>)
    requires Valid(sh, s)
    ensures Run(sh, s, p + q) == Run(sh, Run(sh, s, p), q)
    decreases |p|
  {
    if p == [] {
      assert p + q == q;
    } else if s.queue != [] {
      assert (p + q)[1..] == p[1..] + q;
      RunTwice(sh, Step(sh, s, Pick(s, p)), p[1..], q);
    }
  }

  lemma {:induction false} CycleNeverEnds(sh: Shape, s: State, e: Elem, n: nat)
    requires Valid(sh, s) && s.queue != [] && Returns(sh, s.cells, s.queue, e)
    ensures Run(sh, s, Fifo(n)).queue != []
    decreases n
  {
    hide Step;
    var s' := State(s.cells, s.queue, s.left + [e], s.right + [e]);
    assert Run(sh, State(s.cells, s.queue, s.left, s.right), Fifo(3)) == s';
    if n >= 3 {
      assert Fifo(3) + Fifo(n - 3) == Fifo(n);
      RunTwice(sh, s, Fifo(3), Fifo(n - 3));
      CycleNeverEnds(sh, s', e, n - 3);
    } else {
      assert Fifo(n) + Fifo(3 - n) == Fifo(3);
      RunTwice(sh, s, Fifo(n), Fifo(3 - n));
    }
  }

  lemma OneIsPure(sh: Shape, e: Elem, i: nat)
    requires sh.len > 0 && i < 3 * sh.len
    ensures Pure(sh, Torn(sh, e)[i]) <==> i == Location(sh, e, 0)
  {}

  lemma {:induction false} OneIsQueued(sh: Shape, e: Elem, n: nat)
    requires sh.len > 0 && n <= 3 * sh.len
    ensures PureIndices(sh, Torn(sh, e), n) == if Location(sh, e, 0) < n then [Location(sh, e, 0)] else []
  {
    hide Pure, Torn, Location;
    if n != 0 {
      OneIsPure(sh, e, n - 1);
      OneIsQueued(sh, e, n - 1);
    }
  }

  /** On cells no pair of sets leaves, the loop need not end: for every shape and every element there
      are cells it peels for ever. */
  lemma PeelNeedNotEnd(sh: Shape, e: Elem, n: nat)
    requires sh.len > 0
    ensures Run(sh, Start(sh, Torn(sh, e)), Fifo(n)).queue != []
  {
    OneIsQueued(sh, e, |Torn(sh, e)|);
    ThreePopsReturn(sh, e);
    CycleNeverEnds(sh, Start(sh, Torn(sh, e)), e, n);
  }

  function Keyed(key: Word): Elem { Elem(key, Version({}, {}, {})) }

  /** A fingerprint that tells nothing apart. */
  ghost predicate Blind(sh: Shape) { forall e :: sh.check(e) == {} }

  /** What a blind sketch leaves in cell `i` after two insertions; all elements share their places. */
  lemma BlindPair(sh: Shape, j: Word, k: Word, i: nat)
    requires sh.len > 0 && Blind(sh) && i < 3 * sh.len
    ensures Occupies(sh, Keyed(j), i) <==> Occupies(sh, Keyed(k), i)
    ensures SketchOf(sh, [Keyed(j)])[i] == Term(sh, Keyed(j), true, i)
    ensures SketchOf(sh, [Keyed(j), Keyed(k)])[i] == Add(Term(sh, Keyed(j), true, i), Term(sh, Keyed(k), true, i))
  {
    SketchOfCell(sh, [Keyed(j)], i);
    SketchOfCell(sh, [Keyed(j), Keyed(k)], i);
    TotalAppend(sh, [], true, i, Keyed(j));
    TotalAppend(sh, [Keyed(j)], true, i, Keyed(k));
    assert [] + [Keyed(j)] == [Keyed(j)];
    assert [Keyed(j)] + [Keyed(k)] == [Keyed(j), Keyed(k)];
    AddZero(Term(sh, Keyed(j), true, i));
  }

  /** Four elements whose keys XOR to nothing, two a side, leave a blind sketch's difference empty. */
  lemma BlindCellIsEmpty(sh: Shape, i: nat)
    requires sh.len > 0 && Blind(sh) && i < 3 * sh.len
    ensures Difference(SketchOf(sh, [Keyed({0}), Keyed({1})]), SketchOf(sh, [Keyed({2}), Keyed({0, 1, 2})]))[i] == EMPTY
  {
    hide Occupies, SketchOf, Minus;
    BlindPair(sh, {0}, {1}, i);
    BlindPair(sh, {2}, {0, 1, 2}, i);
    BlindPair(sh, {0}, {2}, i);
    FourCancel();
  }

  /** With colliding hashes two different sets can cancel completely: the peel succeeds and misses
      the whole difference. */
  lemma CollisionsCanHideADifference(sh: Shape, picks: seq<nat>)
    requires sh.len > 0 && Blind(sh)
    ensures Verdict(Peeled(sh, [Keyed({0}), Keyed({1})], [Keyed({2}), Keyed({0, 1, 2})], picks)) == Decoded([], [])
  {
    hide Step, Occupies, Pure, SketchOf, Minus;
    var cells := Difference(SketchOf(sh, [Keyed({0}), Keyed({1})]), SketchOf(sh, [Keyed({2}), Keyed({0, 1, 2})]));
    forall i: nat | i < |cells| ensures cells[i] == EMPTY {
      BlindCellIsEmpty(sh, i);
    }
    NothingPure(sh, cells, |cells|);
  }

  /** What it misses is its core: the whole difference, which cancels out of every cell. */
  lemma ACoreCanCancel(sh: Shape)
    requires sh.len > 0 && Blind(sh)
    ensures var d := SymDiff(Elems([Keyed({0}), Keyed({1})]), Elems([Keyed({2}), Keyed({0, 1, 2})]));
            d != {} && IsCore(sh, d, d) && Cancels(sh, d, Elems([Keyed({0}), Keyed({1})]))
  {
    hide Occupies, SketchOf, Minus, Sum, Difference, Stuck, SymDiff, Elems;
    var a, b := [Keyed({0}), Keyed({1})], [Keyed({2}), Keyed({0, 1, 2})];
    KeysDiffer();
    forall i: nat | i < 3 * sh.len ensures Sum(sh, SymDiff(Elems(a), Elems(b)), Elems(a), i) == EMPTY {
      DifferenceHoldsSymmetricDifference(sh, a, b, i);
      BlindCellIsEmpty(sh, i);
    }
    BlindIsStuck(sh, SymDiff(Elems(a), Elems(b)), Keyed({0}), Keyed({1}));
  }

  lemma KeysDiffer()
    ensures NoDup([Keyed({0}), Keyed({1})]) && NoDup([Keyed({2}), Keyed({0, 1, 2})]) && Keyed({0}) != Keyed({1})
    ensures var d := SymDiff(Elems([Keyed({0}), Keyed({1})]), Elems([Keyed({2}), Keyed({0, 1, 2})]));
            Keyed({0}) in d && Keyed({1}) in d
  {
    var k0, k1, k2, k7 := Keyed({0}), Keyed({1}), Keyed({2}), Keyed({0, 1, 2});
    assert 1 !in k0.keyHash && 0 !in k1.keyHash && 0 !in k2.keyHash && 1 !in k2.keyHash;
    assert 0 in k7.keyHash && 1 in k7.keyHash;
    InOneOnly(k0, [k0, k1], [k2, k7]);
    InOneOnly(k1, [k0, k1], [k2, k7]);
  }

  lemma InOneOnly(e: Elem, a: seq<Elem>, b: seq<Elem>)
    requires e in a && e !in b
    ensures e in SymDiff(Elems(a), Elems(b))
  {}

  /** Elements a blind sketch cannot tell apart share all their cells. */
  lemma BlindIsStuck(sh: Shape, s: set<Elem>, e: Elem, f: Elem)
    requires sh.len > 0 && Blind(sh) && e in s && f in s && e != f
    ensures Stuck(sh, s)
  {
    forall g, i: nat ensures !Alone(sh, s, g, i) {
      assert Occupies(sh, g, i) ==> Occupies(sh, e, i) && Occupies(sh, f, i);
    }
  }

  lemma FourCancel()
    ensures Minus(Add(Single(Keyed({0}), {}, true), Single(Keyed({1}), {}, true)),
                  Add(Single(Keyed({2}), {}, true), Single(Keyed({0, 1, 2}), {}, true))) == EMPTY
    ensures Minus(Add(Single(Keyed({0}), {}, true), Single(Keyed({1}), {}, true)), Single(Keyed({2}), {}, true))
            == Single(Keyed({0, 1, 2}), {}, true)
    ensures Minus(Add(EMPTY, EMPTY), Add(EMPTY, EMPTY)) == Minus(Add(EMPTY, EMPTY), EMPTY) == EMPTY
  {}

  lemma {:induction false} NothingPure(sh: Shape, cells: seq<Cell>, n: nat)
    requires AllEmpty(cells) && n <= |cells|
    ensures PureIndices(sh, cells, n) == []
  {
    if n != 0 {
      NothingPure(sh, cells, n - 1);
    }
  }

  /** A difference of one element is always decoded: one element collides with nothing. */
  lemma OneElementDecodes(sh: Shape, e: Elem, picks: seq<nat>)
    requires sh.len > 0 && |picks| >= 3 * sh.len + 3
    ensures var v := Verdict(Peeled(sh, [e], [], picks));
            v.Decoded? && NoDup(v.left) && Elems(v.left) == {e} && Elems(v.right) == {}
  {
    hide Run, Step, Start, Sum, Occupies, Pure, SketchOf;
    assert Elems([e]) == {e} && Elems<Elem>([]) == {};
    OneElementCollisionFree(sh, e);
    assert SymDiff({e}, {}) == {e};
    PeelDecodesTheDifference(sh, [e], [], picks);
    OnlyCore(sh, e);
    assert {e} - {} == {e} && {} - {e} == {};
  }

  lemma OneElementCollisionFree(sh: Shape, e: Elem)
    requires sh.len > 0
    ensures CollisionFree(sh, {e}, {e})
  {
    forall s: set<Elem>, i: nat | s <= {e} && Pure(sh, Sum(sh, s, {e}, i)) ensures exists f :: Alone(sh, s, f, i) {
      if !Occupies(sh, e, i) || e !in s {
        SumUnoccupied(sh, s, {e}, i);
      } else {
        assert Alone(sh, s, e, i);
      }
    }
  }

  lemma OnlyCore(sh: Shape, e: Elem)
    requires sh.len > 0
    ensures IsCore(sh, {e}, {})
  {
    assert Alone(sh, {e}, e, Location(sh, e, 0));
    forall t: set<Elem> | t <= {e} && t != {} ensures !Stuck(sh, t) {
      assert t == {e};
    }
  }

  lemma NothingTaken(sh: Shape, a: seq<Elem>, i: nat)
    requires sh.len > 0 && i < 3 * sh.len
    ensures Difference(SketchOf(sh, a), SketchOf(sh, []))[i] == SketchOf(sh, a)[i]
  {
    hide Applied;
    var c := SketchOf(sh, a)[i];
    assert Minus(c, EMPTY) == Add(c, EMPTY);
    AddZero(c);
  }

  /** With colliding hashes a cell of three elements can pass for one: the peel succeeds with an
      element neither side holds. */
  lemma CollisionsCanInventAnElement(sh: Shape, picks: seq<nat>)
    requires sh.len > 0 && Blind(sh) && |picks| >= 3 * sh.len + 3
    ensures var v := Verdict(Peeled(sh, [Keyed({0}), Keyed({1})], [Keyed({2})], picks));
            v.Decoded? && NoDup(v.left) && Elems(v.left) == {Keyed({0, 1, 2})} && Elems(v.right) == {}
  {
    hide Run, Step, Start, Occupies, Pure, SketchOf, Minus, Total, Add;
    var cells := Difference(SketchOf(sh, [Keyed({0}), Keyed({1})]), SketchOf(sh, [Keyed({2})]));
    var cells7 := Difference(SketchOf(sh, [Keyed({0, 1, 2})]), SketchOf(sh, []));
    forall i: nat | i < |cells| ensures cells[i] == cells7[i] {
      BlindPair(sh, {0}, {1}, i);
      BlindPair(sh, {2}, {0, 1, 2}, i);
      BlindPair(sh, {0, 1, 2}, {0}, i);
      FourCancel();
      NothingTaken(sh, [Keyed({0, 1, 2})], i);
    }
    assert cells == cells7;
    OneElementDecodes(sh, Keyed({0, 1, 2}), picks);
  }
}
