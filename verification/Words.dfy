/** Machine words and the operations on them the model needs written out: bitwise exclusive or,
    two's-complement wrap-around, and remainders. */
module Words {

  const U32_MAX: nat := 0xFFFF_FFFF
  const U64_MAX: nat := 0xFFFF_FFFF_FFFF_FFFF

  const I32_MIN: int := -0x8000_0000
  const I32_MAX: int := 0x7FFF_FFFF

  type I32 = x: int | I32_MIN <= x <= I32_MAX witness 0

  /** Brings a sum or difference of two `i32`s back into range, as `wrapping_add` and
      `wrapping_sub` do: by 2^32, once at most. */
  function Wrap(x: int): (r: I32)
    requires 2 * I32_MIN <= x <= 2 * I32_MAX + 1
    ensures r == x || r == x - 0x1_0000_0000 || r == x + 0x1_0000_0000
  {
    if x > I32_MAX then x - 0x1_0000_0000
    else if x < I32_MIN then x + 0x1_0000_0000
    else x
  }

  /** A machine word as the positions of its one bits. */
  type Word = set<nat>

  /** Bitwise exclusive or: the positions set in exactly one of the two. */
  function Xor(a: Word, b: Word): Word { (a - b) + (b - a) }

  lemma XorZero(a: Word)
    ensures Xor(a, {}) == a && Xor({}, a) == a
  {}

  lemma XorSelf(a: Word)
    ensures Xor(a, a) == {}
  {}

  lemma XorComm(a: Word, b: Word)
    ensures Xor(a, b) == Xor(b, a)
  {}

  lemma XorAssoc(a: Word, b: Word, c: Word)
    ensures Xor(Xor(a, b), c) == Xor(a, Xor(b, c))
  {}

  /** Quotient and remainder, by repeated subtraction. */
  function Div(x: nat, n: nat): (q: nat)
    requires n > 0
    ensures q <= x
  {
    if x < n then 0 else 1 + Div(x - n, n)
  }

  function Mod(x: nat, n: nat): (r: nat)
    requires n > 0
    ensures r < n
  {
    if x < n then x else Mod(x - n, n)
  }

  lemma {:induction false} DivMod(x: nat, n: nat)
    requires n > 0
    ensures x == n * Div(x, n) + Mod(x, n)
  {
    if x >= n {
      DivMod(x - n, n);
      assert n * Div(x, n) == n * Div(x - n, n) + n;
    }
  }

  lemma {:induction false} DivOf(q: nat, n: nat, r: nat)
    requires r < n
    ensures Div(q * n + r, n) == q
    decreases q
  {
    if q > 0 {
      assert q * n + r == (q - 1) * n + r + n;
      DivOf(q - 1, n, r);
    }
  }

  /** They are the built-in operators. */
  lemma {:induction false} DivModBuiltIn(x: nat, n: nat)
    requires n > 0
    ensures Div(x, n) == x / n && Mod(x, n) == x % n
  {
    if x >= n {
      DivModBuiltIn(x - n, n);
      assert x == n * ((x - n) / n + 1) + (x - n) % n;
      QuotientIs(x, n, (x - n) / n + 1, (x - n) % n);
    } else {
      QuotientIs(x, n, 0, x);
    }
  }

  /** A quotient and a remainder in range are the only ones. */
  lemma QuotientIs(x: nat, n: nat, q: nat, r: nat)
    requires n > 0 && x == n * q + r && r < n
    ensures x / n == q && x % n == r
  {
    assert x == n * (x / n) + x % n;
    SmallMultiple(n, q - x / n);
  }

  lemma SmallMultiple(n: nat, d: int)
    ensures 0 - n < n * d < n ==> d == 0
  {
    if d > 0 {
      MultipleAtLeast(n, d);
    } else if d < 0 {
      MultipleAtLeast(n, -d);
      assert n * d == 0 - n * -d;
    }
  }

  lemma {:induction false} MultipleAtLeast(n: nat, d: nat)
    requires d > 0
    ensures n * d >= n
  {
    if d > 1 {
      MultipleAtLeast(n, d - 1);
      assert n * d == n * (d - 1) + n;
    }
  }

  function WrappingAdd(a: I32, b: I32): I32 { Wrap(a + b) }

  function WrappingSub(a: I32, b: I32): I32 { Wrap(a - b) }

  lemma WrapAssoc(a: I32, b: I32, c: I32)
    ensures WrappingAdd(WrappingAdd(a, b), c) == WrappingAdd(a, WrappingAdd(b, c))
  {}

  lemma WrapSubOfAdd(a: I32, b: I32, c: I32)
    ensures WrappingSub(WrappingAdd(a, b), c) == WrappingAdd(WrappingSub(a, c), b)
  {}

  lemma WrapSubAdd(a: I32, b: I32, c: I32)
    requires c != I32_MIN
    ensures WrappingSub(a, WrappingAdd(b, c)) == WrappingAdd(WrappingSub(a, b), -c)
  {}
}
