/**
  Two's-complement machine words as the Java virtual machine has them: a 32-bit `int`
  and a 64-bit `long`. A word is held as the integer value of its bit pattern
  (0 <= x < 2^width); `ToSigned` gives the value Java prints for it. Arithmetic wraps
  around (section 15.17 of the Java Language Specification), division and remainder
  truncate toward zero, and the bitwise operators are defined bit by bit.
 */
module Words {

  const TWO31: int := 0x8000_0000
  const TWO32: int := 0x1_0000_0000
  const TWO63: int := 0x8000_0000_0000_0000
  const TWO64: int := 0x1_0000_0000_0000_0000

  type Word32 = x: int | 0 <= x < TWO32
  type Word64 = x: int | 0 <= x < TWO64

  /** The two word sizes of the Java virtual machine. */
  datatype Width = W32 | W64 {
    function Bits(): nat {
      if W32? then 32 else 64
    }

    function Modulus(): int {
      if W32? then TWO32 else TWO64
    }

    function Half(): int {
      if W32? then TWO31 else TWO63
    }
  }

  predicate IsWord(x: int, w: Width) {
    0 <= x < w.Modulus()
  }

  function Pow2(k: nat): (r: nat)
    ensures r >= 1
  {
    if k == 0 then 1 else 2 * Pow2(k - 1)
  }

  lemma {:induction false} Pow2Add(a: nat, b: nat)
    ensures Pow2(a + b) == Pow2(a) * Pow2(b)
  {
    if a > 0 {
      Pow2Add(a - 1, b);
      assert Pow2(a + b) == 2 * Pow2(a - 1 + b);
    }
  }

  lemma {:induction false} Pow2Monotone(a: nat, b: nat)
    requires a <= b
    ensures Pow2(a) <= Pow2(b)
  {
    if a < b {
      Pow2Monotone(a, b - 1);
    }
  }

  lemma Pow2Sixteen()
    ensures Pow2(16) == 0x1_0000
  {
    Pow2Add(8, 8);
    assert Pow2(8) == 256;
  }

  lemma Pow2ThirtyTwo()
    ensures Pow2(32) == TWO32
  {
    Pow2Sixteen();
    Pow2Add(16, 16);
  }

  lemma Pow2SixtyFour()
    ensures Pow2(64) == TWO64
  {
    Pow2ThirtyTwo();
    Pow2Add(32, 32);
  }

  lemma Pow2Width(w: Width)
    ensures Pow2(w.Bits()) == w.Modulus()
  {
    if w == W32 {
      Pow2ThirtyTwo();
    } else {
      Pow2SixtyFour();
    }
  }

  // ---------------------------------------------------------------------------
  // Division with remainder
  // ---------------------------------------------------------------------------

  lemma MulAtLeast(a: int, m: int)
    requires a >= 1 && m > 0
    ensures a * m >= m
  {
  }

  /** Euclidean quotient and remainder are the only pair with `x == q * m + r, 0 <= r < m`. */
  lemma DivModUnique(x: int, m: int, q: int, r: int)
    requires m > 0 && 0 <= r < m && x == q * m + r
    ensures x / m == q && x % m == r
  {
    var q', r' := x / m, x % m;
    assert (q - q') * m == r' - r;
    if q > q' {
      MulAtLeast(q - q', m);
    } else if q < q' {
      MulAtLeast(q' - q, m);
    }
  }

  // ---------------------------------------------------------------------------
  // Wrap-around and the signed view
  // ---------------------------------------------------------------------------

  /** The word whose bit pattern is the low `w.Bits()` bits of `x`. */
  function Wrap(x: int, w: Width): (r: int)
    ensures IsWord(r, w)
    ensures (r - x) % w.Modulus() == 0
  {
    var m := w.Modulus();
    DivModUnique(x % m - x, m, -(x / m), 0);
    x % m
  }

  /** Two words congruent modulo the word size are equal: `Wrap` names a unique word. */
  lemma CongruentWordsEqual(x: int, y: int, w: Width)
    requires IsWord(x, w) && IsWord(y, w)
    requires (x - y) % w.Modulus() == 0
    ensures x == y
  {
    var m := w.Modulus();
    if x > y {
      DivModUnique(x - y, m, 0, x - y);
    } else if x < y {
      DivModUnique(x - y, m, -1, x - y + m);
    }
  }

  /** The value Java gives a word: the high bit counts as -2^(width-1). */
  function ToSigned(x: int, w: Width): (s: int)
    requires IsWord(x, w)
    ensures -w.Half() <= s < w.Half()
    ensures Wrap(s, w) == x
  {
    var s := if x < w.Half() then x else x - w.Modulus();
    CongruentWordsEqual(Wrap(s, w), x, w);
    s
  }

  /** Reading back a wrapped value that already fits the signed range changes nothing. */
  lemma SignedRoundTrip(x: int, w: Width)
    requires -w.Half() <= x < w.Half()
    ensures ToSigned(Wrap(x, w), w) == x
  {
    var t := if x < 0 then x + w.Modulus() else x;
    DivModUnique(x, w.Modulus(), if x < 0 then -1 else 0, t);
  }

  /** Java `int` arithmetic: the exact result reduced to 32 bits and read back as signed. */
  function JavaInt(x: int): (r: int)
    ensures -TWO31 <= r < TWO31
    ensures (r - x) % TWO32 == 0
    ensures -TWO31 <= x < TWO31 ==> r == x
  {
    if -TWO31 <= x < TWO31 then SignedRoundTrip(x, W32); x
    else ToSigned(Wrap(x, W32), W32)
  }

  /** Java `long` arithmetic: the exact result reduced to 64 bits and read back as signed. */
  function JavaLong(x: int): (r: int)
    ensures -TWO63 <= r < TWO63
    ensures (r - x) % TWO64 == 0
    ensures -TWO63 <= x < TWO63 ==> r == x
  {
    if -TWO63 <= x < TWO63 then SignedRoundTrip(x, W64); x
    else ToSigned(Wrap(x, W64), W64)
  }

  function Abs(x: int): nat {
    if x < 0 then -x else x
  }

  /** Java's `/` on integers: the quotient truncated toward zero. */
  function TruncDiv(a: int, b: int): int
    requires b != 0
  {
    if (a < 0) == (b < 0) then Abs(a) / Abs(b) else -(Abs(a) / Abs(b))
  }

  /** Java's `%` on integers: the remainder takes the sign of the dividend. */
  function TruncRem(a: int, b: int): int
    requires b != 0
  {
    if a < 0 then -(Abs(a) % Abs(b)) else Abs(a) % Abs(b)
  }

  /** Truncating division and remainder split the dividend exactly, with a remainder
      smaller than the divisor that never has the opposite sign of the dividend. */
  lemma TruncDivRem(a: int, b: int)
    requires b != 0
    ensures a == TruncDiv(a, b) * b + TruncRem(a, b)
    ensures Abs(TruncRem(a, b)) < Abs(b)
    ensures a >= 0 ==> TruncRem(a, b) >= 0
    ensures a <= 0 ==> TruncRem(a, b) <= 0
  {
    var q, r := Abs(a) / Abs(b), Abs(a) % Abs(b);
    assert Abs(a) == q * Abs(b) + r;
    SignedProduct(q, b);
  }

  /** Multiplying by `b` is multiplying by its magnitude, negated when `b` is negative. */
  lemma SignedProduct(q: int, b: int)
    ensures b >= 0 ==> q * b == q * Abs(b) && (-q) * b == -(q * Abs(b))
    ensures b < 0 ==> q * b == -(q * Abs(b)) && (-q) * b == q * Abs(b)
  {
  }

  // ---------------------------------------------------------------------------
  // Bitwise operators, defined one bit at a time from the least significant end
  // ---------------------------------------------------------------------------

  datatype BitOp = AndOp | OrOp | XorOp

  function CombineBits(op: BitOp, a: bool, b: bool): bool {
    match op
    case AndOp => a && b
    case OrOp => a || b
    case XorOp => a != b
  }

  /** `x op y` on the low `n` bits of `x` and `y`. */
  function Bitwise(op: BitOp, x: nat, y: nat, n: nat): (r: nat)
    ensures r < Pow2(n)
    decreases n
  {
    if n == 0 then 0
    else
      2 * Bitwise(op, x / 2, y / 2, n - 1)
      + (if CombineBits(op, x % 2 == 1, y % 2 == 1) then 1 else 0)
  }

  lemma {:induction false} BitwiseCommutes(op: BitOp, x: nat, y: nat, n: nat)
    ensures Bitwise(op, x, y, n) == Bitwise(op, y, x, n)
    decreases n
  {
    if n > 0 {
      BitwiseCommutes(op, x / 2, y / 2, n - 1);
    }
  }

  /** Xoring twice with the same word gives back the original word. */
  lemma {:induction false} XorInvolution(x: nat, y: nat, n: nat)
    requires x < Pow2(n)
    ensures Bitwise(XorOp, Bitwise(XorOp, x, y, n), y, n) == x
    decreases n
  {
    if n > 0 {
      var z := Bitwise(XorOp, x, y, n);
      var low := if CombineBits(XorOp, x % 2 == 1, y % 2 == 1) then 1 else 0;
      DivModUnique(z, 2, Bitwise(XorOp, x / 2, y / 2, n - 1), low);
      XorInvolution(x / 2, y / 2, n - 1);
    }
  }

  /** A word anded or ored with itself is unchanged. */
  lemma {:induction false} BitwiseIdempotent(op: BitOp, x: nat, n: nat)
    requires op != XorOp && x < Pow2(n)
    ensures Bitwise(op, x, x, n) == x
    decreases n
  {
    if n > 0 {
      BitwiseIdempotent(op, x / 2, n - 1);
    }
  }

  /** Xor with the all-ones word is the complement `2^n - 1 - x`. */
  lemma {:induction false} XorAllOnes(x: nat, n: nat)
    requires x < Pow2(n)
    ensures Bitwise(XorOp, x, Pow2(n) - 1, n) == Pow2(n) - 1 - x
    decreases n
  {
    if n > 0 {
      assert (Pow2(n) - 1) / 2 == Pow2(n - 1) - 1;
      assert (Pow2(n) - 1) % 2 == 1;
      XorAllOnes(x / 2, n - 1);
    }
  }

  /** `x op y` on two words of the same width. */
  function BitwiseWord(op: BitOp, x: int, y: int, w: Width): (r: int)
    requires IsWord(x, w) && IsWord(y, w)
    ensures IsWord(r, w)
  {
    Pow2Width(w);
    Bitwise(op, x, y, w.Bits())
  }

  lemma BitwiseWordCommutes(op: BitOp, x: int, y: int, w: Width)
    requires IsWord(x, w) && IsWord(y, w)
    ensures BitwiseWord(op, x, y, w) == BitwiseWord(op, y, x, w)
  {
    BitwiseCommutes(op, x, y, w.Bits());
  }

  /** Xoring a word twice with the same word gives it back. */
  lemma XorWordTwice(x: int, y: int, w: Width)
    requires IsWord(x, w) && IsWord(y, w)
    ensures BitwiseWord(XorOp, BitwiseWord(XorOp, x, y, w), y, w) == x
  {
    Pow2Width(w);
    XorInvolution(x, y, w.Bits());
  }

  /** Anding or oring a word with itself gives it back. */
  lemma BitwiseWordIdempotent(op: BitOp, x: int, w: Width)
    requires op != XorOp && IsWord(x, w)
    ensures BitwiseWord(op, x, x, w) == x
  {
    Pow2Width(w);
    BitwiseIdempotent(op, x, w.Bits());
  }

  /** Java's `~x`: every bit flipped. */
  function Complement(x: int, w: Width): (r: int)
    requires IsWord(x, w)
    ensures IsWord(r, w)
    ensures r == BitwiseWord(XorOp, x, w.Modulus() - 1, w)
  {
    Pow2Width(w);
    XorAllOnes(x, w.Bits());
    w.Modulus() - 1 - x
  }

  // ---------------------------------------------------------------------------
  // Shifts and rotations by a distance already reduced below the width
  // ---------------------------------------------------------------------------

  /** Java reduces a shift or rotation distance to its low 5 (int) or 6 (long) bits. */
  function Distance(d: int, w: Width): (k: nat)
    ensures k < w.Bits()
    ensures (k - d) % w.Bits() == 0
  {
    DivModUnique(d % w.Bits() - d, w.Bits(), -(d / w.Bits()), 0);
    d % w.Bits()
  }

  /** `x << k`: the bits move up and the ones shifted past the top are lost. */
  function ShiftLeft(x: int, k: nat, w: Width): (r: int)
    requires IsWord(x, w) && k < w.Bits()
    ensures IsWord(r, w)
    ensures (r - x * Pow2(k)) % w.Modulus() == 0
  {
    Wrap(x * Pow2(k), w)
  }

  /** `x >>> k`: the bits move down and zeros come in at the top. */
  function ShiftRightLogical(x: int, k: nat, w: Width): (r: int)
    requires IsWord(x, w) && k < w.Bits()
    ensures IsWord(r, w)
    ensures r * Pow2(k) <= x < (r + 1) * Pow2(k)
  {
    FloorDivBounds(x, Pow2(k));
    x / Pow2(k)
  }

  lemma MulMonotone(a: int, b: int, c: int)
    requires a <= b && c >= 0
    ensures a * c <= b * c
  {
  }

  /** Floor division by a positive divisor brackets the dividend and lies between it and 0. */
  lemma FloorDivBounds(s: int, p: int)
    requires p >= 1
    ensures (s / p) * p <= s < (s / p + 1) * p
    ensures s >= 0 ==> 0 <= s / p <= s
    ensures s < 0 ==> s <= s / p < 0
  {
    var q := s / p;
    assert s == q * p + s % p;
    if s >= 0 {
      if q < 0 {
        MulMonotone(q, -1, p);
      } else {
        MulMonotone(1, p, q);
      }
    } else {
      if q >= 0 {
        MulMonotone(0, q, p);
      } else if q < s {
        MulMonotone(q + 1, s, p);
        MulMonotone(s, -1, p - 1);
      }
    }
  }

  /** `x >> k`: the bits move down and copies of the sign bit come in at the top, so the
      signed value is divided by 2^k rounding toward minus infinity. */
  function ShiftRightArithmetic(x: int, k: nat, w: Width): (r: int)
    requires IsWord(x, w) && k < w.Bits()
    ensures IsWord(r, w)
    ensures ToSigned(r, w) * Pow2(k) <= ToSigned(x, w) < (ToSigned(r, w) + 1) * Pow2(k)
  {
    var s := ToSigned(x, w);
    FloorDivBounds(s, Pow2(k));
    SignedRoundTrip(s / Pow2(k), w);
    Wrap(s / Pow2(k), w)
  }

  /** The high digit of a two-digit number in base `p` is below the number of high
      digits. */
  lemma HighDigitBound(x: int, p: int, q: int)
    requires p >= 1 && 0 <= x < q * p
    ensures 0 <= x / p < q
  {
    FloorDivBounds(x, p);
    if x / p >= q {
      MulMonotone(q, x / p, p);
    }
  }

  /** `x` read as a two-digit number in base `p`, with its digits swapped and the low
      digit now worth `q`. */
  function SwapDigits(x: int, p: int, q: int): (r: int)
    requires p >= 1 && q >= 1 && 0 <= x < q * p
    ensures 0 <= r < p * q
  {
    HighDigitBound(x, p, q);
    PlaceValueBound(x % p, x / p, p, q);
    (x % p) * q + x / p
  }

  /** Swapping digits of a number given by its digits. */
  lemma SwapDigitsOf(x: int, p: int, q: int, hi: int, lo: int)
    requires p >= 1 && q >= 1 && 0 <= x < q * p
    requires 0 <= lo < p && 0 <= hi && x == hi * p + lo
    ensures SwapDigits(x, p, q) == lo * q + hi
  {
    DivModUnique(x, p, hi, lo);
  }

  /** Swapping back restores the number. */
  lemma SwapDigitsTwice(x: int, p: int, q: int)
    requires p >= 1 && q >= 1 && 0 <= x < q * p
    ensures SwapDigits(x, p, q) < p * q
    ensures SwapDigits(SwapDigits(x, p, q), q, p) == x
  {
    var hi, lo := x / p, x % p;
    HighDigitBound(x, p, q);
    var y := SwapDigits(x, p, q);
    SwapDigitsOf(y, q, p, lo, hi);
  }

  /** Rotation left by `k`: the low `width - k` bits move up and the high `k` bits come
      round to the bottom. */
  function RotateLeft(x: int, k: nat, w: Width): (r: int)
    requires IsWord(x, w) && k < w.Bits()
    ensures IsWord(r, w)
  {
    Pow2Width(w);
    Pow2Add(k, w.Bits() - k);
    SwapDigits(x, Pow2(w.Bits() - k), Pow2(k))
  }

  /** A two-digit number with digits below `p` and `q` in base `q` is below `p * q`. */
  lemma PlaceValueBound(a: int, b: int, p: int, q: int)
    requires 0 <= a < p && 0 <= b < q
    ensures 0 <= a * q + b < p * q
  {
    MulMonotone(a, p - 1, q);
  }

  /** Rotation right by `k` is rotation left by `width - k`. */
  function RotateRight(x: int, k: nat, w: Width): (r: int)
    requires IsWord(x, w) && k < w.Bits()
    ensures IsWord(r, w)
  {
    RotateLeft(x, (w.Bits() - k) % w.Bits(), w)
  }

  /** Rotation left by `k` swaps the high `k` bits and the low `width - k` bits. */
  lemma RotateLeftSwaps(x: int, k: nat, w: Width, hi: int, lo: int)
    requires IsWord(x, w) && k < w.Bits()
    requires 0 <= lo < Pow2(w.Bits() - k) && 0 <= hi
    requires x == hi * Pow2(w.Bits() - k) + lo
    ensures RotateLeft(x, k, w) == lo * Pow2(k) + hi
  {
    Pow2Width(w);
    Pow2Add(k, w.Bits() - k);
    SwapDigitsOf(x, Pow2(w.Bits() - k), Pow2(k), hi, lo);
  }

  /** Rotation by zero changes nothing. */
  lemma RotateLeftZero(x: int, w: Width)
    requires IsWord(x, w)
    ensures RotateLeft(x, 0, w) == x
  {
    Pow2Width(w);
    assert Pow2(0) == 1;
    SwapDigitsOf(x, Pow2(w.Bits()), Pow2(0), 0, x);
  }

  /** Rotating right undoes rotating left by the same distance. */
  lemma RotateRoundTrip(x: int, k: nat, w: Width)
    requires IsWord(x, w) && k < w.Bits()
    ensures RotateRight(RotateLeft(x, k, w), k, w) == x
  {
    var n := w.Bits();
    if k == 0 {
      RotateLeftZero(x, w);
      RotateLeftZero(RotateLeft(x, k, w), w);
    } else {
      Pow2Width(w);
      Pow2Add(k, n - k);
      assert (n - k) % n == n - k;
      assert n - (n - k) == k;
      SwapDigitsTwice(x, Pow2(n - k), Pow2(k));
    }
  }
}
