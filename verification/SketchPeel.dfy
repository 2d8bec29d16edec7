/** What peeling computes: it stops on one part of the difference, its core, whatever order cells are
    taken in. It has found the rest; it reports success exactly when the core cancels out of every
    cell, so a success is exact unless a non-empty core does. */
module SketchPeel {
  import opened Words
  import opened Sequences
  import opened SketchCell
  import opened Sketch
  import opened SketchSums

  // ----- the hypothesis about the hashes

  /** The pop about to happen is not fooled: if the cell passes the purity test, then one of the
      elements not yet peeled really is alone in it. */
  ghost predicate HonestPop(sh: Shape, d: set<Elem>, s: State, i: nat)
    requires Valid(sh, s) && i < |s.cells|
  {
    Pure(sh, s.cells[i]) ==> exists e :: Alone(sh, Remaining(d, s), e, i)
  }

  /** No hash coincidence shows up along a run: no pop is fooled. */
  ghost predicate HonestRun(sh: Shape, d: set<Elem>, s: State, picks: seq<nat>)
    requires Valid(sh, s)
    decreases |picks|
  {
    picks != [] && s.queue != [] ==>
      var k := Pick(s, picks);
      assert s.queue[k] in s.queue;
      HonestPop(sh, d, s, s.queue[k]) && HonestRun(sh, d, Step(sh, s, k), picks[1..])
  }

  /** A condition on the hashes alone that makes every run honest: no part of `d`, signed by `pos`,
      leaves a cell that passes the purity test unless one element is alone in it. */
  ghost predicate CollisionFree(sh: Shape, d: set<Elem>, pos: set<Elem>)
    requires sh.len > 0
  {
    forall s: set<Elem>, i: nat :: s <= d && Pure(sh, Sum(sh, s, pos, i)) ==> exists e :: Alone(sh, s, e, i)
  }

  // ----- what a run keeps

  /** No element of `s` is alone in any cell, so peeling cannot start on `s`. */
  ghost predicate Stuck(sh: Shape, s: set<Elem>)
    requires sh.len > 0
  {
    forall e, i: nat :: !Alone(sh, s, e, i)
  }

  /** `core` is the largest stuck subset of `d`. */
  ghost predicate IsCore(sh: Shape, d: set<Elem>, core: set<Elem>)
    requires sh.len > 0
  {
    && core <= d
    && Stuck(sh, core)
    && forall t: set<Elem> :: t <= d && Stuck(sh, t) ==> t <= core
  }

  /** The elements of `d` a state has yet to peel. */
  ghost function Remaining(d: set<Elem>, s: State): set<Elem> { d - Elems(s.left) - Elems(s.right) }

  /** What holds at every loop head when the cells started as the difference `d`. */
  ghost predicate Inv(sh: Shape, d: set<Elem>, pos: set<Elem>, s: State) {
    && Valid(sh, s)
    && Found(d, pos, s.left, s.right)
    && CellsHold(sh, Remaining(d, s), pos, s.cells)
    && PureQueued(sh, s)
  }

  /** Each side found so far lists elements of that side, none twice. */
  ghost predicate Found(d: set<Elem>, pos: set<Elem>, left: seq<Elem>, right: seq<Elem>) {
    NoDup(left) && NoDup(right) && Elems(left) <= d * pos && Elems(right) <= d - pos
  }

  ghost predicate CellsHold(sh: Shape, s: set<Elem>, pos: set<Elem>, cells: seq<Cell>)
    requires sh.len > 0
  {
    forall i: nat :: i < |cells| ==> cells[i] == Sum(sh, s, pos, i)
  }

  /** Every cell that could be peeled is waiting in the queue. */
  ghost predicate PureQueued(sh: Shape, s: State) {
    forall i: nat :: i < |s.cells| && Pure(sh, s.cells[i]) ==> i in s.queue
  }

  /** Pops still possible: one for each queued entry, and three more for each element left. */
  ghost function Measure(d: set<Elem>, s: State): nat { |s.queue| + 3 * |Remaining(d, s)| }

  /** A cell that passes the purity test holds one remaining element, and reads back as it. */
  lemma PureCell(sh: Shape, pos: set<Elem>, r: set<Elem>, i: nat, c: Cell) returns (e: Elem)
    requires sh.len > 0 && c == Sum(sh, r, pos, i)
    requires exists e :: Alone(sh, r, e, i)
    ensures Alone(sh, r, e, i) && Claimed(c) == e && c.count == Sign(e in pos)
  {
    e :| Alone(sh, r, e, i);
    SumAlone(sh, r, pos, e, i);
  }

  /** Taking an element out of its three cells leaves the cells of the other elements. */
  lemma CellsAfter(sh: Shape, r: set<Elem>, pos: set<Elem>, cells: seq<Cell>, e: Elem, out: bool)
    requires WellFormed(sh, cells) && CellsHold(sh, r, pos, cells) && e in r && out == (e !in pos)
    ensures CellsHold(sh, r - {e}, pos, Applied(sh, cells, e, Sign(out)))
  {
    forall i: nat | i < |cells|
      ensures Applied(sh, cells, e, Sign(out))[i] == Sum(sh, r - {e}, pos, i)
    {
      AppliedCell(sh, cells, e, out, i);
      SumRemove(sh, r, pos, i, e);
      CancelTerm(sh, Sum(sh, r - {e}, pos, i), e, i);
    }
  }

  /** After a peel every pure cell is queued: a cell the element left is checked on the way out, and
      any other cell is as it was. */
  lemma QueueAfter(sh: Shape, s: State, k: nat, e: Elem, sign: int)
    requires Valid(sh, s) && PureQueued(sh, s) && k < |s.queue| && -1 <= sign <= 1
    requires Occupies(sh, e, s.queue[k])
    ensures var cells := Applied(sh, s.cells, e, sign);
            PureQueued(sh, State(cells, RemoveAt(s.queue, k) + Purified(sh, cells, e, 3), [], []))
  {
    var cells := Applied(sh, s.cells, e, sign);
    PurifiedSpec(sh, cells, e, 3);
    RemoveAtSpec(s.queue, k);
    forall i: nat | i < |cells| && Pure(sh, cells[i])
      ensures i in RemoveAt(s.queue, k) + Purified(sh, cells, e, 3)
    {
      if Occupies(sh, e, i) {
        assert i in Purified(sh, cells, e, 3);
      } else {
        assert i in s.queue;
      }
    }
  }

  /** One accepted pop removes one remaining element and keeps the invariant. */
  lemma PeelKeeps(sh: Shape, d: set<Elem>, pos: set<Elem>, s: State, k: nat)
    requires Inv(sh, d, pos, s) && k < |s.queue| && s.queue[k] < |s.cells| && Pure(sh, s.cells[s.queue[k]])
    requires HonestPop(sh, d, s, s.queue[k])
    ensures var e := Claimed(s.cells[s.queue[k]]);
            && Alone(sh, Remaining(d, s), e, s.queue[k])
            && Remaining(d, Step(sh, s, k)) == Remaining(d, s) - {e}
            && Inv(sh, d, pos, Step(sh, s, k))
  {
    var c, r := s.cells[s.queue[k]], Remaining(d, s);
    var e := PureCell(sh, pos, r, s.queue[k], c);
    CellsAfter(sh, r, pos, s.cells, e, e !in pos);
    QueueAfter(sh, s, k, e, -c.count);
    FoundAfter(d, pos, s, e, Step(sh, s, k));
  }

  lemma FoundAfter(d: set<Elem>, pos: set<Elem>, s: State, e: Elem, s': State)
    requires Found(d, pos, s.left, s.right) && e in Remaining(d, s)
    requires e in pos ==> s'.left == s.left + [e] && s'.right == s.right
    requires e !in pos ==> s'.left == s.left && s'.right == s.right + [e]
    ensures Found(d, pos, s'.left, s'.right)
    ensures Remaining(d, s') == Remaining(d, s) - {e}
  {
    if e in pos {
      assert Elems(s'.left) == Elems(s.left) + {e};
    } else {
      assert Elems(s'.right) == Elems(s.right) + {e};
    }
  }

  lemma StepKeeps(sh: Shape, d: set<Elem>, pos: set<Elem>, s: State, k: nat)
    requires Inv(sh, d, pos, s) && k < |s.queue| && s.queue[k] < |s.cells|
    requires HonestPop(sh, d, s, s.queue[k])
    ensures Inv(sh, d, pos, Step(sh, s, k))
    ensures Measure(d, Step(sh, s, k)) < Measure(d, s)
    ensures forall t :: t <= Remaining(d, s) && Stuck(sh, t) ==> t <= Remaining(d, Step(sh, s, k))
  {
    RemoveAtSpec(s.queue, k);
    if Pure(sh, s.cells[s.queue[k]]) {
      PeelKeeps(sh, d, pos, s, k);
      var e := Claimed(s.cells[s.queue[k]]);
      forall t | t <= Remaining(d, s) && Stuck(sh, t) ensures t <= Remaining(d, s) - {e} {
        if e in t {
          assert Alone(sh, t, e, s.queue[k]);
        }
      }
    }
  }

  /** Over a whole run, in whatever order cells are taken: the invariant holds, no stuck set loses an
      element, and enough picks empty the queue. */
  lemma {:induction false} RunKeeps(sh: Shape, d: set<Elem>, pos: set<Elem>, s: State, picks: seq<nat>)
    requires Inv(sh, d, pos, s) && HonestRun(sh, d, s, picks)
    ensures Inv(sh, d, pos, Run(sh, s, picks))
    ensures |picks| >= Measure(d, s) ==> Run(sh, s, picks).queue == []
    ensures forall t :: t <= Remaining(d, s) && Stuck(sh, t) ==> t <= Remaining(d, Run(sh, s, picks))
    decreases |picks|
  {
    if picks != [] && s.queue != [] {
      var k := Pick(s, picks);
      assert s.queue[k] in s.queue;
      StepKeeps(sh, d, pos, s, k);
      RunKeeps(sh, d, pos, Step(sh, s, k), picks[1..]);
    }
  }

  /** The elements of `s` cancel out of every cell. */
  ghost predicate Cancels(sh: Shape, s: set<Elem>, pos: set<Elem>)
    requires sh.len > 0
  {
    forall i: nat :: i < 3 * sh.len ==> Sum(sh, s, pos, i) == EMPTY
  }

  /** With the queue empty nothing more can be peeled, and the cells are empty exactly when what is
      left cancels. */
  lemma Halted(sh: Shape, d: set<Elem>, pos: set<Elem>, s: State)
    requires Inv(sh, d, pos, s) && s.queue == []
    ensures Stuck(sh, Remaining(d, s))
    ensures AllEmpty(s.cells) <==> Cancels(sh, Remaining(d, s), pos)
  {
    var r := Remaining(d, s);
    forall e, i: nat ensures !Alone(sh, r, e, i) {
      if Alone(sh, r, e, i) {
        SumAlone(sh, r, pos, e, i);
        assert Pure(sh, s.cells[i]);
      }
    }
  }

  lemma CoreIsUnique(sh: Shape, d: set<Elem>, c: set<Elem>, c': set<Elem>)
    requires sh.len > 0 && IsCore(sh, d, c) && IsCore(sh, d, c')
    ensures c == c'
  {}

  /** A run from the whole of `d` to an empty queue: it stops on the core of `d`, and decodes exactly
      when that core cancels. */
  lemma RunFromWhole(sh: Shape, d: set<Elem>, pos: set<Elem>, s0: State, picks: seq<nat>)
    requires Inv(sh, d, pos, s0) && HonestRun(sh, d, s0, picks)
    requires s0.left == s0.right == [] && Run(sh, s0, picks).queue == []
    ensures
      var s := Run(sh, s0, picks);
      && (forall i: nat :: i < |s.cells| ==> !Pure(sh, s.cells[i]))
      && Found(d, pos, s.left, s.right)
      && IsCore(sh, d, Remaining(d, s))
      && (Verdict(s).Decoded? <==> Cancels(sh, Remaining(d, s), pos))
  {
    hide Run, HonestRun, Sum, Pure, Alone;
    assert Remaining(d, s0) == d;
    RunKeeps(sh, d, pos, s0, picks);
    Halted(sh, d, pos, Run(sh, s0, picks));
  }

  /** The cells of two subtracted sketches start the invariant off. */
  lemma StartKeeps(sh: Shape, a: seq<Elem>, b: seq<Elem>, cells: seq<Cell>)
    requires sh.len > 0 && NoDup(a) && NoDup(b)
    requires cells == Difference(SketchOf(sh, a), SketchOf(sh, b))
    ensures Inv(sh, SymDiff(Elems(a), Elems(b)), Elems(a), Start(sh, cells))
    ensures Remaining(SymDiff(Elems(a), Elems(b)), Start(sh, cells)) == SymDiff(Elems(a), Elems(b))
  {
    var pos, d := Elems(a), SymDiff(Elems(a), Elems(b));
    assert Remaining(d, Start(sh, cells)) == d;
    PureIndicesSpec(sh, cells, |cells|);
    forall i: nat | i < |cells| ensures cells[i] == Sum(sh, d, pos, i) {
      DifferenceHoldsSymmetricDifference(sh, a, b, i);
    }
  }

  lemma Sides<T>(a: set<T>, b: set<T>, l: set<T>, r: set<T>)
    requires l <= SymDiff(a, b) * a && r <= SymDiff(a, b) - a
    ensures l <= a - b && r <= b - a
    ensures l == (SymDiff(a, b) - (SymDiff(a, b) - l - r)) * a
    ensures r == (SymDiff(a, b) - (SymDiff(a, b) - l - r)) - a
    ensures SymDiff(a, b) - l - r == {} <==> l == a - b && r == b - a
  {}

  /** The state two sketched sets peel to, cells taken in the order `picks` gives. */
  function Peeled(sh: Shape, a: seq<Elem>, b: seq<Elem>, picks: seq<nat>): (s: State)
    requires sh.len > 0
  {
    Run(sh, Start(sh, Difference(SketchOf(sh, a), SketchOf(sh, b))), picks)
  }

  ghost predicate HonestPeel(sh: Shape, a: seq<Elem>, b: seq<Elem>, picks: seq<nat>)
    requires sh.len > 0
  {
    HonestRun(sh, SymDiff(Elems(a), Elems(b)), Start(sh, Difference(SketchOf(sh, a), SketchOf(sh, b))), picks)
  }

  /** Peeling ends: in whatever order cells are taken, the queue is empty after at most one pop per
      cell and three per differing element. */
  lemma PeelEnds(sh: Shape, a: seq<Elem>, b: seq<Elem>, picks: seq<nat>)
    requires sh.len > 0 && NoDup(a) && NoDup(b) && HonestPeel(sh, a, b, picks)
    ensures |picks| >= 3 * sh.len + 3 * |SymDiff(Elems(a), Elems(b))| ==> Peeled(sh, a, b, picks).queue == []
  {
    hide Run, HonestRun;
    var d, cells := SymDiff(Elems(a), Elems(b)), Difference(SketchOf(sh, a), SketchOf(sh, b));
    StartKeeps(sh, a, b, cells);
    RunKeeps(sh, d, Elems(a), Start(sh, cells), picks);
  }

  /** Peeling the difference of two sets to the end: whatever the insertion orders and whatever order
      cells are taken in, no pure cell is left; what is found is one-sided and without duplicates;
      what remains is the core, the largest stuck subset of the difference. It decodes exactly when
      the core cancels, and has found the two one-sided differences exactly when the core is empty. */
  lemma PeelIsExact(sh: Shape, a: seq<Elem>, b: seq<Elem>, picks: seq<nat>)
    requires sh.len > 0 && NoDup(a) && NoDup(b)
    requires HonestPeel(sh, a, b, picks) && Peeled(sh, a, b, picks).queue == []
    ensures
      var d, s := SymDiff(Elems(a), Elems(b)), Peeled(sh, a, b, picks);
      && (forall i: nat :: i < |s.cells| ==> !Pure(sh, s.cells[i]))
      && NoDup(s.left) && Elems(s.left) <= Elems(a) - Elems(b)
      && NoDup(s.right) && Elems(s.right) <= Elems(b) - Elems(a)
      && IsCore(sh, d, Remaining(d, s))
      && (Verdict(s).Decoded? <==> Cancels(sh, Remaining(d, s), Elems(a)))
      && (Elems(s.left) == Elems(a) - Elems(b) && Elems(s.right) == Elems(b) - Elems(a) <==> Remaining(d, s) == {})
  {
    hide Step, Run, HonestRun;
    var d, cells := SymDiff(Elems(a), Elems(b)), Difference(SketchOf(sh, a), SketchOf(sh, b));
    StartKeeps(sh, a, b, cells);
    RunFromWhole(sh, d, Elems(a), Start(sh, cells), picks);
    var s := Peeled(sh, a, b, picks);
    Sides(Elems(a), Elems(b), Elems(s.left), Elems(s.right));
  }

  /** A decode is wrong in one way only: it misses a non-empty core that cancels out of every cell.
      And an empty core is always decoded. */
  lemma WrongExactlyWhenTheCoreCancels(sh: Shape, a: seq<Elem>, b: seq<Elem>, picks: seq<nat>, core: set<Elem>)
    requires sh.len > 0 && NoDup(a) && NoDup(b) && IsCore(sh, SymDiff(Elems(a), Elems(b)), core)
    requires HonestPeel(sh, a, b, picks) && Peeled(sh, a, b, picks).queue == []
    ensures
      var s, v := Peeled(sh, a, b, picks), Verdict(Peeled(sh, a, b, picks));
      && Remaining(SymDiff(Elems(a), Elems(b)), s) == core
      && (v.Decoded? && !Exact(a, b, v) <==> core != {} && Cancels(sh, core, Elems(a)))
      && (v.Decoded? && Exact(a, b, v) <==> core == {})
  {
    hide Run, HonestRun, Sum, Stuck;
    var d, s := SymDiff(Elems(a), Elems(b)), Peeled(sh, a, b, picks);
    PeelIsExact(sh, a, b, picks);
    CoreIsUnique(sh, d, Remaining(d, s), core);
    if core == {} {
      NothingCancels(sh, Elems(a));
    }
  }

  /** The two sides of a decode are the two one-sided differences. */
  ghost predicate Exact(a: seq<Elem>, b: seq<Elem>, v: Outcome)
    requires v.Decoded?
  {
    Elems(v.left) == Elems(a) - Elems(b) && Elems(v.right) == Elems(b) - Elems(a)
  }

  lemma NothingCancels(sh: Shape, pos: set<Elem>)
    requires sh.len > 0
    ensures Cancels(sh, {}, pos)
  {}

  /** Two peels of the same two sets, in any two orders, agree on the outcome and on what they found. */
  lemma OrderDoesNotMatter(sh: Shape, a: seq<Elem>, b: seq<Elem>, picks: seq<nat>,
                           a': seq<Elem>, b': seq<Elem>, picks': seq<nat>)
    requires sh.len > 0 && NoDup(a) && NoDup(b) && NoDup(a') && NoDup(b')
    requires Elems(a) == Elems(a') && Elems(b) == Elems(b')
    requires HonestPeel(sh, a, b, picks) && HonestPeel(sh, a', b', picks')
    requires Peeled(sh, a, b, picks).queue == Peeled(sh, a', b', picks').queue == []
    ensures
      var s, s' := Peeled(sh, a, b, picks), Peeled(sh, a', b', picks');
      && (Verdict(s).Decoded? <==> Verdict(s').Decoded?)
      && Elems(s.left) == Elems(s'.left) && Elems(s.right) == Elems(s'.right)
  {
    var d, s, s' := SymDiff(Elems(a), Elems(b)), Peeled(sh, a, b, picks), Peeled(sh, a', b', picks');
    var cells, cells' := Difference(SketchOf(sh, a), SketchOf(sh, b)), Difference(SketchOf(sh, a'), SketchOf(sh, b'));
    StartKeeps(sh, a, b, cells);
    RunFromWhole(sh, d, Elems(a), Start(sh, cells), picks);
    StartKeeps(sh, a', b', cells');
    RunFromWhole(sh, d, Elems(a), Start(sh, cells'), picks');
    CoreIsUnique(sh, d, Remaining(d, s), Remaining(d, s'));
    Sides(Elems(a), Elems(b), Elems(s.left), Elems(s.right));
    Sides(Elems(a), Elems(b), Elems(s'.left), Elems(s'.right));
  }

  // ----- collision-free hashes

  /** Without a collision a non-empty set cannot cancel itself out of every cell: one element short,
      it would leave that element's opposite looking pure in a cell the element is not in. */
  lemma OnlyNothingCancels(sh: Shape, d: set<Elem>, pos: set<Elem>, r: set<Elem>)
    requires sh.len > 0 && CollisionFree(sh, d, pos) && r <= d && Cancels(sh, r, pos)
    ensures r == {}
  {
    if e :| e in r {
      var i := Location(sh, e, 0);
      var rest := r - {e};
      SumRemove(sh, r, pos, i, e);
      ZeroSum(Sum(sh, rest, pos, i), e, sh.check(e), e in pos);
      var f := PureCell(sh, pos, rest, i, Sum(sh, rest, pos, i));
      assert false;
    }
  }

  lemma ZeroSum(a: Cell, e: Elem, check: Word, positive: bool)
    requires Add(a, Single(e, check, positive)) == EMPTY
    ensures a == Single(e, check, !positive)
  {
    CancelOpposite(a, e, check, positive);
    AddZero(Single(e, check, !positive));
  }

  lemma {:induction false} CollisionFreeRun(sh: Shape, d: set<Elem>, pos: set<Elem>, s: State, picks: seq<nat>)
    requires sh.len > 0 && CollisionFree(sh, d, pos) && Inv(sh, d, pos, s)
    ensures HonestRun(sh, d, s, picks)
    decreases |picks|
  {
    if picks != [] && s.queue != [] {
      var k := Pick(s, picks);
      assert s.queue[k] in s.queue;
      StepKeeps(sh, d, pos, s, k);
      CollisionFreeRun(sh, d, pos, Step(sh, s, k), picks[1..]);
    }
  }

  /** Collision-free hashes make every peel of the two sets honest, in every order. */
  lemma CollisionFreeIsHonest(sh: Shape, a: seq<Elem>, b: seq<Elem>, picks: seq<nat>)
    requires sh.len > 0 && NoDup(a) && NoDup(b)
    requires CollisionFree(sh, SymDiff(Elems(a), Elems(b)), Elems(a))
    ensures HonestPeel(sh, a, b, picks)
  {
    var cells := Difference(SketchOf(sh, a), SketchOf(sh, b));
    StartKeeps(sh, a, b, cells);
    CollisionFreeRun(sh, SymDiff(Elems(a), Elems(b)), Elems(a), Start(sh, cells), picks);
  }

  /** `a` and `b` differ by elements of `d` only, those of `pos` on `a`'s side. */
  ghost predicate DifferWithin(a: seq<Elem>, b: seq<Elem>, d: set<Elem>, pos: set<Elem>) {
    && NoDup(a) && NoDup(b)
    && SymDiff(Elems(a), Elems(b)) <= d
    && forall e :: e in SymDiff(Elems(a), Elems(b)) ==> (e in Elems(a) <==> e in pos)
  }

  /** And nothing less does: hashes are collision-free on `d` exactly if no peel of any two sets that
      differ within `d`, in any order, is ever fooled. */
  lemma CollisionFreeExactly(sh: Shape, d: set<Elem>, pos: set<Elem>)
    requires sh.len > 0
    ensures CollisionFree(sh, d, pos)
            <==> forall a, b, picks :: DifferWithin(a, b, d, pos) ==> HonestPeel(sh, a, b, picks)
  {
    hide HonestRun, Sum, Alone, Start, SketchOf, DifferWithin;
    if CollisionFree(sh, d, pos) {
      forall a, b, picks | DifferWithin(a, b, d, pos) ensures HonestPeel(sh, a, b, picks) {
        CollisionFreeWithin(sh, a, b, d, pos);
        CollisionFreeIsHonest(sh, a, b, picks);
      }
    }
    if forall a, b, picks :: DifferWithin(a, b, d, pos) ==> HonestPeel(sh, a, b, picks) {
      forall s: set<Elem>, i: nat | s <= d && Pure(sh, Sum(sh, s, pos, i)) ensures exists e :: Alone(sh, s, e, i) {
        var a := AsSeq(s * pos);
        var b := AsSeq(s - pos);
        assert DifferWithin(a, b, d, pos) && SymDiff(Elems(a), Elems(b)) == s by {
          TwoSides(a, b, s, d, pos);
        }
        PureIsPopped(sh, a, b, s, pos, i);
      }
    }
  }

  lemma CollisionFreeWithin(sh: Shape, a: seq<Elem>, b: seq<Elem>, d: set<Elem>, pos: set<Elem>)
    requires sh.len > 0 && CollisionFree(sh, d, pos) && DifferWithin(a, b, d, pos)
    ensures NoDup(a) && NoDup(b) && CollisionFree(sh, SymDiff(Elems(a), Elems(b)), Elems(a))
  {
    hide SymDiff;
    forall s: set<Elem>, i: nat | s <= SymDiff(Elems(a), Elems(b)) && Pure(sh, Sum(sh, s, Elems(a), i))
      ensures exists e :: Alone(sh, s, e, i)
    {
      SumSigns(sh, s, Elems(a), pos, i);
    }
  }

  lemma {:induction false} AsSeq(s: set<Elem>) returns (r: seq<Elem>)
    ensures NoDup(r) && Elems(r) == s
  {
    if e :| e in s {
      r := AsSeq(s - {e});
      assert e !in Elems(r);
      assert Elems(r + [e]) == Elems(r) + {e};
      r := r + [e];
    } else {
      r := [];
    }
  }

  lemma TwoSides(a: seq<Elem>, b: seq<Elem>, s: set<Elem>, d: set<Elem>, pos: set<Elem>)
    requires NoDup(a) && NoDup(b) && Elems(a) == s * pos && Elems(b) == s - pos && s <= d
    ensures DifferWithin(a, b, d, pos) && SymDiff(Elems(a), Elems(b)) == s
  {
    hide Elems;
    assert SymDiff(Elems(a), Elems(b)) == s;
  }

  /** A pure cell of a difference is queued at the start, so some peel pops it first. */
  lemma PureIsPopped(sh: Shape, a: seq<Elem>, b: seq<Elem>, s: set<Elem>, pos: set<Elem>, i: nat)
    requires sh.len > 0 && NoDup(a) && NoDup(b) && SymDiff(Elems(a), Elems(b)) == s
    requires Elems(a) == s * pos && Pure(sh, Sum(sh, s, pos, i))
    requires forall picks :: HonestPeel(sh, a, b, picks)
    ensures exists e :: Alone(sh, s, e, i)
  {
    hide Run, Sum, Alone, SketchOf, SymDiff, Elems;
    var cells := Difference(SketchOf(sh, a), SketchOf(sh, b));
    var start := Start(sh, cells);
    StartKeeps(sh, a, b, cells);
    SumSigns(sh, s, Elems(a), pos, i);
    if i >= 3 * sh.len {
      SumUnoccupied(sh, s, pos, i);
      assert false;
    }
    assert cells[i] == Sum(sh, s, Elems(a), i);
    assert i in start.queue;
    var k :| 0 <= k < |start.queue| && start.queue[k] == i;
    assert HonestPeel(sh, a, b, [k]);
    assert HonestPop(sh, s, start, i);
  }

  /** The whole result, from the hashes and the sets alone. If no part of the difference passes for
      one element, then in every order of pops: the queue is empty after one pop per cell and three
      per differing element; and once it is, the remainder is the core, and the peel decodes exactly
      when the core is empty, to exactly the two one-sided differences, each element once. */
  lemma PeelDecodesTheDifference(sh: Shape, a: seq<Elem>, b: seq<Elem>, picks: seq<nat>)
    requires sh.len > 0 && NoDup(a) && NoDup(b)
    requires CollisionFree(sh, SymDiff(Elems(a), Elems(b)), Elems(a))
    ensures |picks| >= 3 * sh.len + 3 * |SymDiff(Elems(a), Elems(b))| ==> Peeled(sh, a, b, picks).queue == []
    ensures
      Peeled(sh, a, b, picks).queue == [] ==>
        var d, s := SymDiff(Elems(a), Elems(b)), Peeled(sh, a, b, picks);
        && IsCore(sh, d, Remaining(d, s))
        && (Verdict(s).Decoded? <==> IsCore(sh, d, {}))
        && (Verdict(s).Decoded? ==> NoDup(s.left) && NoDup(s.right) && Exact(a, b, Verdict(s)))
  {
    hide Run, HonestRun, Sum, Alone, Stuck;
    var d, s := SymDiff(Elems(a), Elems(b)), Peeled(sh, a, b, picks);
    CollisionFreeIsHonest(sh, a, b, picks);
    PeelEnds(sh, a, b, picks);
    if s.queue == [] {
      PeelIsExact(sh, a, b, picks);
      if Verdict(s).Decoded? {
        OnlyNothingCancels(sh, d, Elems(a), Remaining(d, s));
      }
      if IsCore(sh, d, {}) {
        CoreIsUnique(sh, d, Remaining(d, s), {});
        NothingCancels(sh, Elems(a));
      }
    }
  }

  // ----- fingerprints that never collide

  /** Every fingerprint is a single bit, and the elements of `d` have different ones. */
  ghost predicate OneBitEach(sh: Shape, d: set<Elem>) {
    && (forall e :: |sh.check(e)| == 1)
    && (forall e, f :: e in d && f in d && sh.check(e) == sh.check(f) ==> e == f)
  }

  /** The check word of a cell then has exactly the bits of its occupants. */
  lemma {:induction false} BitsOfOccupants(sh: Shape, s: set<Elem>, pos: set<Elem>, i: nat, b: nat)
    requires sh.len > 0 && OneBitEach(sh, s)
    ensures b in Sum(sh, s, pos, i).checkSum <==> exists e :: e in s && Occupies(sh, e, i) && b in sh.check(e)
    decreases |s|
  {
    if s == {} {
      SumNothing(sh, pos, i);
    } else {
      var e :| e in s;
      SumRemove(sh, s, pos, i, e);
      BitsOfOccupants(sh, s - {e}, pos, i, b);
      forall f | f in s && b in sh.check(f) && b in sh.check(e) ensures f == e {
        OneBit(sh.check(f), b);
        OneBit(sh.check(e), b);
      }
    }
  }

  lemma OneBit(w: Word, b: nat)
    requires |w| == 1 && b in w
    ensures w == {b}
  {
    assert |w - {b}| == 0;
    assert w == (w - {b}) + {b};
  }

  /** So a cell passes for pure only with one occupant: such fingerprints are collision-free on any
      number of elements, wherever they are placed and whichever side they are on. */
  lemma OneBitEachIsCollisionFree(sh: Shape, d: set<Elem>, pos: set<Elem>)
    requires sh.len > 0 && OneBitEach(sh, d)
    ensures CollisionFree(sh, d, pos)
  {
    forall s: set<Elem>, i: nat | s <= d && Pure(sh, Sum(sh, s, pos, i)) ensures exists e :: Alone(sh, s, e, i) {
      var w := Sum(sh, s, pos, i).checkSum;
      var b :| b in w;
      OneBit(w, b);
      BitsOfOccupants(sh, s, pos, i, b);
      var e :| e in s && Occupies(sh, e, i) && b in sh.check(e);
      forall f | f in s && Occupies(sh, f, i) ensures f == e {
        var c :| c in sh.check(f);
        BitsOfOccupants(sh, s, pos, i, c);
        OneBit(sh.check(f), b);
        OneBit(sh.check(e), b);
      }
      assert Alone(sh, s, e, i);
    }
  }
}
