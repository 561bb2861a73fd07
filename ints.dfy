/** Kotlin `Int` arithmetic where it differs from mathematical integers. */
module Ints {

  const IntMin: int := -0x8000_0000
  const IntMax: int := 0x7FFF_FFFF

  /** A Kotlin `Int`: a 32-bit two's-complement value. */
  type Int32 = x: int | IntMin <= x <= IntMax

  /** Unary minus on `Int`: exact except at `Int.MIN_VALUE`, which it leaves as it is. */
  function Negate(x: Int32): (r: Int32)
    ensures x != IntMin ==> r == -x
    ensures x == IntMin ==> r == x
  {
    if x == IntMin then x else -x
  }

  const TwoTo32: int := 0x1_0000_0000

  /** `Int` addition and subtraction: the exact result wrapped round into 32 bits. */
  function Wrap(x: int): (r: Int32)
    ensures IntMin <= x <= IntMax ==> r == x
    ensures (x - r) % TwoTo32 == 0
  {
    var m := (x - IntMin) % TwoTo32;
    assert x - (m + IntMin) == TwoTo32 * ((x - IntMin) / TwoTo32);
    m + IntMin
  }

  function Abs(x: int): nat
  {
    if x < 0 then -x else x
  }

  /** Kotlin's `/` on `Int`: the quotient truncated toward zero. */
  function Quot(a: int, b: int): int
    requires b != 0
  {
    var q := Abs(a) / Abs(b);
    if (a < 0) != (b < 0) then -q else q
  }

  /** Kotlin's `%`: what truncated division leaves over, with the sign of the dividend. */
  function Rem(a: int, b: int): (r: int)
    requires b != 0
    ensures Abs(r) < Abs(b)
    ensures a >= 0 ==> 0 <= r
    ensures a <= 0 ==> r <= 0
    ensures a == Quot(a, b) * b + r
  {
    var m := Abs(a) % Abs(b);
    QuotRem(a, b);
    if a < 0 then -m else m
  }

  lemma QuotRem(a: int, b: int)
    requires b != 0
    ensures a == Quot(a, b) * b + (if a < 0 then -(Abs(a) % Abs(b)) else Abs(a) % Abs(b))
  {
    var q, m := Abs(a) / Abs(b), Abs(a) % Abs(b);
    assert Abs(a) == q * Abs(b) + m;
    if b < 0 {
      assert q * Abs(b) == (-q) * b;
    } else {
      assert q * Abs(b) == q * b;
    }
  }

  /** On a non-negative dividend Kotlin's `%` and the mathematical remainder agree. */
  lemma RemNonNegative(a: int, b: int)
    requires a >= 0 && b > 0
    ensures Rem(a, b) == a % b
  {
  }

  /** On a negative dividend they differ: -1 % 26 is -1 in Kotlin. */
  lemma RemNegativeExample()
    ensures Rem(-1, 26) == -1 && -1 % 26 == 25
  {
  }
}
