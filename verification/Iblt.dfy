/** The sketch as the code holds it: a vector of cells changed in place. */
module IbltClass {
  import opened Options
  import opened Words
  import opened Sequences
  import opened SketchCell
  import opened Sketch
  import opened SketchSums
  import opened SketchPeel

  class Iblt {
    /** The hash functions, the same on every node, and `partition_len`. */
    const shape: Shape
    const cells: array<Cell>

    predicate IsWellFormed() {
      shape.len > 0 && cells.Length == 3 * shape.len
    }

    /** An empty sketch of about `count` cells, in three equal partitions and never none. */
    constructor New(check: Elem -> Word, mix: (Word, nat) -> nat, count: nat)
      ensures fresh(cells) && IsWellFormed()
      ensures shape == Shape(check, mix, if count < 3 then 1 else count / 3)
      ensures cells[..] == SketchOf(shape, [])
    {
      var len := if count / 3 > 1 then count / 3 else 1;
      shape := Shape(check, mix, len);
      cells := new Cell[3 * len](_ => EMPTY);
    }

    /** A sketch off the wire: whatever cells arrived, malformed unless three partitions fit them. */
    constructor FromCells(check: Elem -> Word, mix: (Word, nat) -> nat, received: seq<Cell>)
      ensures fresh(cells) && cells[..] == received
      ensures shape == Shape(check, mix, |received| / 3)
      ensures IsWellFormed() <==> |received| > 0 && |received| % 3 == 0
    {
      shape := Shape(check, mix, |received| / 3);
      cells := new Cell[|received|](i requires 0 <= i < |received| => received[i]);
    }

    /** Folds `e` into its three cells; a malformed sketch is left alone. */
    method Apply(e: Elem, sign: I32)
      modifies cells
      ensures cells[..] == if IsWellFormed() then Applied(shape, old(cells[..]), e, sign) else old(cells[..])
    {
      if !IsWellFormed() {
        return;
      }
      var c := shape.check(e);
      for p := 0 to 3
        invariant forall i :: 0 <= i < cells.Length ==>
          cells[i] == if Reached(shape, e, p, i) then Fold(old(cells[i]), e, c, sign) else old(cells[i])
      {
        ReachNext(shape, e, p);
        var idx := CellIndex(p, shape.mix(c, p), shape.len);
        cells[idx] := Fold(cells[idx], e, c, sign);
      }
    }

    method Insert(e: Elem)
      modifies cells
      ensures cells[..] == if IsWellFormed() then Applied(shape, old(cells[..]), e, 1) else old(cells[..])
    {
      Apply(e, 1);
    }

    /** The cell-wise difference, refused when this sketch is malformed or the lengths differ. */
    method Subtract(other: Iblt) returns (r: Option<Iblt>)
      ensures r.Some? <==> IsWellFormed() && cells.Length == other.cells.Length
      ensures r.Some? ==> fresh(r.value.cells) && r.value.shape == shape && r.value.IsWellFormed()
      ensures r.Some? ==> r.value.cells[..] == Difference(cells[..], other.cells[..])
    {
      if !IsWellFormed() || cells.Length != other.cells.Length {
        return None;
      }
      var diff := new Iblt.FromCells(shape.check, shape.mix, Difference(cells[..], other.cells[..]));
      assert |Difference(cells[..], other.cells[..])| / 3 == shape.len;
      r := Some(diff);
    }

    /** Takes `e`, whose fingerprint is `check`, out of its three cells and queues each that turns
        pure: the body of `Peel`'s loop. */
    method TakeOut(e: Elem, check: Word, sign: I32, pending: seq<nat>) returns (queue: seq<nat>)
      requires IsWellFormed() && check == shape.check(e) && -1 <= sign <= 1
      modifies cells
      ensures cells[..] == Applied(shape, old(cells[..]), e, -sign)
      ensures queue == pending + Purified(shape, cells[..], e, 3)
    {
      hide Pure, Fold, Unfold, CellIndex;
      ghost var after := Applied(shape, cells[..], e, -sign);
      queue := pending;
      for p := 0 to 3
        invariant forall i :: 0 <= i < cells.Length ==>
          cells[i] == if Reached(shape, e, p, i) then after[i] else old(cells[i])
        invariant queue == pending + Purified(shape, after, e, p)
      {
        ReachNext(shape, e, p);
        var target := CellIndex(p, shape.mix(check, p), shape.len);
        var c := cells[target];
        UnfoldIsFold(c, e, check, sign);
        assert target == Location(shape, e, p) && c == old(cells[target]);
        cells[target] := Unfold(c, e, check, sign);
        assert cells[target] == after[target];
        if Pure(shape, cells[target]) {
          queue := queue + [target];
        }
      }
      assert cells[..] == after;
    }

    /** Peels the sketch, in place, for any cells on which the loop ends: `pops` bounds its turns. */
    method Peel(ghost pops: nat) returns (r: Outcome)
      requires IsWellFormed() ==> Run(shape, Start(shape, cells[..]), Fifo(pops)).queue == []
      modifies cells
      ensures r == if IsWellFormed() then Verdict(Run(shape, Start(shape, old(cells[..])), Fifo(pops)))
                   else Undecodable
    {
      if !IsWellFormed() {
        return Undecodable;
      }
      hide Applied, Purified, Pure, Claimed;
      var left, right := [], [];
      var queue := PureIndices(shape, cells[..], cells.Length);
      PureIndicesSpec(shape, cells[..], cells.Length);
      ghost var n := pops;
      while queue != []
        invariant Valid(shape, State(cells[..], queue, left, right))
        invariant Run(shape, State(cells[..], queue, left, right), Fifo(n))
               == Run(shape, Start(shape, old(cells[..])), Fifo(pops))
        decreases n
      {
        ghost var s := State(cells[..], queue, left, right);
        FifoTurn(shape, s, n);
        var idx := queue[0];
        assert queue[0] in queue;
        queue := queue[1..];
        assert queue == RemoveAt(s.queue, 0);
        n := n - 1;
        var cell := cells[idx];
        if Pure(shape, cell) {
          var elem, sign := Claimed(cell), cell.count;
          queue := TakeOut(elem, cell.checkSum, sign, queue);
          if sign == 1 {
            left := left + [elem];
          } else {
            right := right + [elem];
          }
        }
        assert State(cells[..], queue, left, right) == Step(shape, s, 0);
      }
      if forall i :: 0 <= i < cells.Length ==> cells[i] == EMPTY {
        r := Decoded(left, right);
      } else {
        r := Undecodable;
      }
    }
  }

  lemma UnfoldIsFold(c: Cell, e: Elem, check: Word, sign: I32)
    requires -1 <= sign <= 1
    ensures Unfold(c, e, check, sign) == Fold(c, e, check, -sign)
  {}

  /** Cell `i` is one of `e`'s places in the first `p` partitions. */
  ghost predicate Reached(sh: Shape, e: Elem, p: nat, i: nat)
    requires sh.len > 0
  {
    || (p > 0 && i == Location(sh, e, 0))
    || (p > 1 && i == Location(sh, e, 1))
    || (p > 2 && i == Location(sh, e, 2))
  }

  /** Each partition adds one place, never one reached before. */
  lemma ReachNext(sh: Shape, e: Elem, p: nat)
    requires sh.len > 0 && p < 3
    ensures !Reached(sh, e, p, Location(sh, e, p))
    ensures forall i: nat :: Reached(sh, e, p + 1, i) <==> Reached(sh, e, p, i) || i == Location(sh, e, p)
    ensures forall i: nat :: Reached(sh, e, 3, i) <==> Occupies(sh, e, i)
  {}

  lemma FifoTurn(sh: Shape, s: State, n: nat)
    requires Valid(sh, s) && s.queue != [] && Run(sh, s, Fifo(n)).queue == []
    ensures n > 0 && Run(sh, s, Fifo(n)) == Run(sh, Step(sh, s, 0), Fifo(n - 1))
  {
    hide Step;
    if n > 0 {
      assert Fifo(n)[1..] == Fifo(n - 1);
    }
  }

  /** What a node does with a peer's sketch: sketch its own bucket in the shape received, subtract,
      and peel. With collision-free hashes the outcome is the exact difference whenever its core is
      empty, and a refusal otherwise. */
  method PeelAgainst(check: Elem -> Word, mix: (Word, nat) -> nat, received: seq<Cell>, local: seq<Elem>,
                     ghost remote: seq<Elem>) returns (r: Outcome)
    requires NoDup(local) && NoDup(remote)
    requires |received| > 0 && |received| % 3 == 0 ==>
               var sh := Shape(check, mix, |received| / 3);
               received == SketchOf(sh, remote) && CollisionFree(sh, SymDiff(Elems(local), Elems(remote)), Elems(local))
    ensures |received| == 0 || |received| % 3 != 0 ==> r == Undecodable
    ensures |received| > 0 && |received| % 3 == 0 ==>
              (r.Decoded? <==> IsCore(Shape(check, mix, |received| / 3), SymDiff(Elems(local), Elems(remote)), {}))
    ensures r.Decoded? ==> NoDup(r.left) && Elems(r.left) == Elems(local) - Elems(remote)
    ensures r.Decoded? ==> NoDup(r.right) && Elems(r.right) == Elems(remote) - Elems(local)
  {
    hide Run, Step, Start, IsCore, CollisionFree, Difference, SketchOf, SymDiff, Elems, NoDup, AllEmpty;
    var mine := SketchAll(check, mix, |received|, local);
    var theirs := new Iblt.FromCells(check, mix, received);
    var diff := mine.Subtract(theirs);
    if diff.None? {
      return Undecodable;
    }
    ghost var pops := MaxPops(mine.shape, local, remote);
    PeelDecodesTheDifference(mine.shape, local, remote, Fifo(pops));
    r := diff.value.Peel(pops);
  }

  /** A fresh sketch of about `count` cells holding `elems`. */
  method SketchAll(check: Elem -> Word, mix: (Word, nat) -> nat, count: nat, elems: seq<Elem>) returns (sketch: Iblt)
    ensures fresh(sketch) && fresh(sketch.cells) && sketch.IsWellFormed()
    ensures sketch.shape == Shape(check, mix, if count < 3 then 1 else count / 3)
    ensures sketch.cells[..] == SketchOf(sketch.shape, elems)
  {
    hide Applied;
    sketch := new Iblt.New(check, mix, count);
    for k := 0 to |elems|
      invariant fresh(sketch.cells) && sketch.cells[..] == SketchOf(sketch.shape, elems[..k])
    {
      sketch.Insert(elems[k]);
      assert elems[..k + 1][..k] == elems[..k];
    }
    assert elems[..|elems|] == elems;
  }

  ghost function MaxPops(sh: Shape, a: seq<Elem>, b: seq<Elem>): nat {
    3 * sh.len + 3 * |SymDiff(Elems(a), Elems(b))|
  }
}
