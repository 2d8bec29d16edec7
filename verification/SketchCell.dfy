/** The arithmetic of one sketch cell: a wrapping 32-bit count beside XOR sums. Cells under `Add`
    form a commutative group, and the rest of the sketch's proofs use only its laws. */
module SketchCell {
  import opened Words

  /** A version stamp, as the three words a sketch sees of it. */
  datatype Version = Version(wallMs: Word, logical: Word, node: Word)

  /** One element of a bucket: a key's hash paired with its version. */
  datatype Elem = Elem(keyHash: Word, ver: Version)

  datatype Cell = Cell(count: I32, keySum: Word, wallSum: Word, logicalSum: Word, nodeSum: Word, checkSum: Word)

  const EMPTY := Cell(0, {}, {}, {}, {}, {})

  /** `c` after `e`, whose fingerprint is `check`, is folded in with a count of `sign`. */
  function Fold(c: Cell, e: Elem, check: Word, sign: I32): Cell {
    Cell(WrappingAdd(c.count, sign),
         Xor(c.keySum, e.keyHash),
         Xor(c.wallSum, e.ver.wallMs),
         Xor(c.logicalSum, e.ver.logical),
         Xor(c.nodeSum, e.ver.node),
         Xor(c.checkSum, check))
  }

  /** `c` after `e` is taken back out with a count of `sign`. */
  function Unfold(c: Cell, e: Elem, check: Word, sign: I32): Cell {
    Cell(WrappingSub(c.count, sign),
         Xor(c.keySum, e.keyHash),
         Xor(c.wallSum, e.ver.wallMs),
         Xor(c.logicalSum, e.ver.logical),
         Xor(c.nodeSum, e.ver.node),
         Xor(c.checkSum, check))
  }

  /** Cell-wise subtraction: the count wraps, every other field is an XOR. */
  function Minus(a: Cell, b: Cell): Cell {
    Cell(WrappingSub(a.count, b.count),
         Xor(a.keySum, b.keySum),
         Xor(a.wallSum, b.wallSum),
         Xor(a.logicalSum, b.logicalSum),
         Xor(a.nodeSum, b.nodeSum),
         Xor(a.checkSum, b.checkSum))
  }

  /** The element a pure cell claims to hold, read off its sums. */
  function Claimed(c: Cell): Elem {
    Elem(c.keySum, Version(c.wallSum, c.logicalSum, c.nodeSum))
  }

  function Sign(positive: bool): I32 { if positive then 1 else -1 }

  /** The cell that holds `e` alone, on the left side (`positive`) or on the right. */
  function Single(e: Elem, check: Word, positive: bool): Cell {
    Cell(Sign(positive), e.keyHash, e.ver.wallMs, e.ver.logical, e.ver.node, check)
  }

  function Add(a: Cell, b: Cell): Cell {
    Cell(WrappingAdd(a.count, b.count),
         Xor(a.keySum, b.keySum),
         Xor(a.wallSum, b.wallSum),
         Xor(a.logicalSum, b.logicalSum),
         Xor(a.nodeSum, b.nodeSum),
         Xor(a.checkSum, b.checkSum))
  }

  // ----- the group laws

  lemma AddZero(a: Cell)
    ensures Add(a, EMPTY) == a && Add(EMPTY, a) == a
  {
    XorZero(a.keySum);
    XorZero(a.wallSum);
    XorZero(a.logicalSum);
    XorZero(a.nodeSum);
    XorZero(a.checkSum);
  }

  lemma AddComm(a: Cell, b: Cell)
    ensures Add(a, b) == Add(b, a)
  {
    XorComm(a.keySum, b.keySum);
    XorComm(a.wallSum, b.wallSum);
    XorComm(a.logicalSum, b.logicalSum);
    XorComm(a.nodeSum, b.nodeSum);
    XorComm(a.checkSum, b.checkSum);
  }

  lemma AddAssoc(a: Cell, b: Cell, c: Cell)
    ensures Add(Add(a, b), c) == Add(a, Add(b, c))
  {
    WrapAssoc(a.count, b.count, c.count);
    XorAssoc(a.keySum, b.keySum, c.keySum);
    XorAssoc(a.wallSum, b.wallSum, c.wallSum);
    XorAssoc(a.logicalSum, b.logicalSum, c.logicalSum);
    XorAssoc(a.nodeSum, b.nodeSum, c.nodeSum);
    XorAssoc(a.checkSum, b.checkSum, c.checkSum);
  }

  lemma AddSwap(a: Cell, b: Cell, c: Cell)
    ensures Add(Add(a, b), c) == Add(Add(a, c), b)
  {
    AddAssoc(a, b, c);
    AddComm(b, c);
    AddAssoc(a, c, b);
  }

  /** An element's two signs are each other's inverse. */
  lemma OppositesCancel(e: Elem, check: Word, positive: bool)
    ensures Add(Single(e, check, positive), Single(e, check, !positive)) == EMPTY
  {
    XorSelf(e.keyHash);
    XorSelf(e.ver.wallMs);
    XorSelf(e.ver.logical);
    XorSelf(e.ver.node);
    XorSelf(check);
  }

  lemma CancelOpposite(a: Cell, e: Elem, check: Word, positive: bool)
    ensures Add(Add(a, Single(e, check, positive)), Single(e, check, !positive)) == a
  {
    AddAssoc(a, Single(e, check, positive), Single(e, check, !positive));
    OppositesCancel(e, check, positive);
    AddZero(a);
  }

  lemma FoldIsAdd(c: Cell, e: Elem, check: Word, positive: bool)
    ensures Fold(c, e, check, Sign(positive)) == Add(c, Single(e, check, positive))
  {}

  /** Subtracting is adding the other side's elements with the sign turned. */
  lemma MinusAdd(a: Cell, b: Cell, e: Elem, check: Word)
    ensures Minus(Add(a, Single(e, check, true)), b) == Add(Minus(a, b), Single(e, check, true))
    ensures Minus(a, Add(b, Single(e, check, true))) == Add(Minus(a, b), Single(e, check, false))
  {
    var s := Single(e, check, true);
    WrapSubOfAdd(a.count, 1, b.count);
    WrapSubAdd(a.count, b.count, 1);
    MinusXor(a.keySum, b.keySum, s.keySum);
    MinusXor(a.wallSum, b.wallSum, s.wallSum);
    MinusXor(a.logicalSum, b.logicalSum, s.logicalSum);
    MinusXor(a.nodeSum, b.nodeSum, s.nodeSum);
    MinusXor(a.checkSum, b.checkSum, s.checkSum);
  }

  lemma MinusXor(a: Word, b: Word, s: Word)
    ensures Xor(Xor(a, s), b) == Xor(Xor(a, b), s) == Xor(a, Xor(b, s))
  {
    XorAssoc(a, s, b);
    XorAssoc(a, b, s);
    XorComm(s, b);
  }
}
