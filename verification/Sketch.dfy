/** The partitioned invertible Bloom lookup table as a value: where an element lands, what a set of
    elements leaves in each cell, and the peeling loop as a step function over its whole state. */
module Sketch {
  import opened Words
  import opened SketchCell

  /** What two replicas agree on: the fingerprint and placement hashes, which stay uninterpreted,
      and the length of a partition. */
  datatype Shape = Shape(check: Elem -> Word, mix: (Word, nat) -> nat, len: nat)

  /** Where a partition's cells start: there are three partitions, one after another. */
  function PartitionStart(partition: nat, len: nat): nat
    requires partition < 3
  {
    if partition == 0 then 0 else if partition == 1 then len else len + len
  }

  function CellIndex(partition: nat, mixed: nat, len: nat): (idx: nat)
    requires len > 0 && partition < 3
    ensures PartitionStart(partition, len) <= idx < PartitionStart(partition, len) + len
  {
    PartitionStart(partition, len) + Mod(mixed, len)
  }

  /** The cell `e` occupies in partition `p`: always inside that partition's own slice. */
  function Location(sh: Shape, e: Elem, p: nat): (idx: nat)
    requires sh.len > 0 && p < 3
    ensures PartitionStart(p, sh.len) <= idx < PartitionStart(p, sh.len) + sh.len
  {
    CellIndex(p, sh.mix(sh.check(e), p), sh.len)
  }

  /** Which cell that is: the partition's own remainder of its own mix of the fingerprint. */
  lemma LocationIs(sh: Shape, e: Elem, p: nat)
    requires sh.len > 0 && p < 3
    ensures Location(sh, e, p) == p * sh.len + sh.mix(sh.check(e), p) % sh.len
  {
    DivModBuiltIn(sh.mix(sh.check(e), p), sh.len);
  }

  predicate Occupies(sh: Shape, e: Elem, i: nat)
    requires sh.len > 0
  {
    i == Location(sh, e, 0) || i == Location(sh, e, 1) || i == Location(sh, e, 2)
  }

  predicate WellFormed(sh: Shape, cells: seq<Cell>) {
    sh.len > 0 && |cells| == 3 * sh.len
  }

  predicate Pure(sh: Shape, c: Cell) {
    (c.count == 1 || c.count == -1) && c.checkSum == sh.check(Claimed(c))
  }

  /** `cells` with `e` folded into its three cells. */
  function Applied(sh: Shape, cells: seq<Cell>, e: Elem, sign: I32): (r: seq<Cell>)
    requires WellFormed(sh, cells)
    ensures WellFormed(sh, r)
  {
    seq(|cells|, i requires 0 <= i < |cells| =>
      if Occupies(sh, e, i) then Fold(cells[i], e, sh.check(e), sign) else cells[i])
  }

  function EmptyCells(sh: Shape): (r: seq<Cell>)
    ensures sh.len > 0 ==> WellFormed(sh, r)
  {
    seq(3 * sh.len, _ => EMPTY)
  }

  /** The cells after inserting `elems` in order. */
  function SketchOf(sh: Shape, elems: seq<Elem>): (r: seq<Cell>)
    requires sh.len > 0
    ensures WellFormed(sh, r)
  {
    if elems == [] then EmptyCells(sh)
    else Applied(sh, SketchOf(sh, elems[..|elems| - 1]), elems[|elems| - 1], 1)
  }

  function Difference(a: seq<Cell>, b: seq<Cell>): (r: seq<Cell>)
    requires |a| == |b|
    ensures |r| == |a|
  {
    seq(|a|, i requires 0 <= i < |a| => Minus(a[i], b[i]))
  }

  // ----- peeling as a state machine

  datatype State = State(cells: seq<Cell>, queue: seq<nat>, left: seq<Elem>, right: seq<Elem>)

  predicate Valid(sh: Shape, s: State) {
    && WellFormed(sh, s.cells)
    && forall i :: i in s.queue ==> i < |s.cells|
  }

  /** The indices below `n` of the pure cells, ascending. */
  function PureIndices(sh: Shape, cells: seq<Cell>, n: nat): (r: seq<nat>)
    requires n <= |cells|
    ensures |r| <= n
  {
    if n == 0 then []
    else PureIndices(sh, cells, n - 1) + (if Pure(sh, cells[n - 1]) then [n - 1] else [])
  }

  lemma {:induction false} PureIndicesSpec(sh: Shape, cells: seq<Cell>, n: nat)
    requires n <= |cells|
    ensures forall i: nat :: i in PureIndices(sh, cells, n) <==> i < n && Pure(sh, cells[i])
  {
    if n > 0 {
      PureIndicesSpec(sh, cells, n - 1);
    }
  }

  function Start(sh: Shape, cells: seq<Cell>): (s: State)
    requires WellFormed(sh, cells)
    ensures Valid(sh, s)
  {
    PureIndicesSpec(sh, cells, |cells|);
    State(cells, PureIndices(sh, cells, |cells|), [], [])
  }

  /** The cells among the first `n` partitions' places for `e` that are pure, in partition order. */
  function Purified(sh: Shape, cells: seq<Cell>, e: Elem, n: nat): (r: seq<nat>)
    requires WellFormed(sh, cells) && n <= 3
    ensures |r| <= n
  {
    if n == 0 then []
    else
      var t := Location(sh, e, n - 1);
      Purified(sh, cells, e, n - 1) + (if Pure(sh, cells[t]) then [t] else [])
  }

  lemma {:induction false} PurifiedSpec(sh: Shape, cells: seq<Cell>, e: Elem, n: nat)
    requires WellFormed(sh, cells) && n <= 3
    ensures forall i :: i in Purified(sh, cells, e, n) ==> i < |cells| && Occupies(sh, e, i)
    ensures forall p :: 0 <= p < n && Pure(sh, cells[Location(sh, e, p)]) ==>
              Location(sh, e, p) in Purified(sh, cells, e, n)
  {
    if n > 0 {
      PurifiedSpec(sh, cells, e, n - 1);
    }
  }

  function RemoveAt(q: seq<nat>, k: nat): (r: seq<nat>)
    requires k < |q|
    ensures |r| == |q| - 1
  {
    q[..k] + q[k + 1..]
  }

  lemma RemoveAtSpec(q: seq<nat>, k: nat)
    requires k < |q|
    ensures forall i :: i in RemoveAt(q, k) ==> i in q
    ensures forall i :: i in q ==> i == q[k] || i in RemoveAt(q, k)
  {}

  /** One turn of the loop, taking the queue's entry `k`. The code always takes entry 0. */
  function Step(sh: Shape, s: State, k: nat): (r: State)
    requires Valid(sh, s) && k < |s.queue|
    ensures Valid(sh, r)
  {
    assert s.queue[k] in s.queue;
    RemoveAtSpec(s.queue, k);
    var c := s.cells[s.queue[k]];
    var rest := RemoveAt(s.queue, k);
    if !Pure(sh, c) then s.(queue := rest)
    else
      var e := Claimed(c);
      var cells := Applied(sh, s.cells, e, -c.count);
      PurifiedSpec(sh, cells, e, 3);
      State(cells, rest + Purified(sh, cells, e, 3),
            if c.count == 1 then s.left + [e] else s.left,
            if c.count == 1 then s.right else s.right + [e])
  }

  /** The queue entry a pick stands for; one past the end stands for the first. */
  function Pick(s: State, picks: seq<nat>): (k: nat)
    requires picks != [] && s.queue != []
    ensures k < |s.queue|
  {
    if picks[0] < |s.queue| then picks[0] else 0
  }

  /** The loop run until the queue is empty or `picks` is spent; each pick chooses which entry of
      the queue is taken next. */
  function Run(sh: Shape, s: State, picks: seq<nat>): (r: State)
    requires Valid(sh, s)
    ensures Valid(sh, r)
    decreases |picks|
  {
    if picks == [] || s.queue == [] then s
    else Run(sh, Step(sh, s, Pick(s, picks)), picks[1..])
  }

  /** First in, first out, for `n` pops: the order the code uses. */
  function Fifo(n: nat): seq<nat> { seq(n, _ => 0) }

  predicate AllEmpty(cells: seq<Cell>) {
    forall i :: 0 <= i < |cells| ==> cells[i] == EMPTY
  }

  datatype Outcome = Decoded(left: seq<Elem>, right: seq<Elem>) | Undecodable

  function Verdict(s: State): Outcome {
    if AllEmpty(s.cells) then Decoded(s.left, s.right) else Undecodable
  }
}
