/**
  The typed operators of the Enigma work language (EnigmaMathOps.java): C-like implicit
  promotion of two operand types, then the operator on 32-bit or 64-bit two's-complement
  words. Floating-point arms are modelled only by the type they produce.

  Operands: the stack element class is not part of this model, so an operand carries its
  type tag and the two integer views the operators read from it (`getInt()` as a 32-bit
  word, `getLong()` as a 64-bit word). A result records which setter the operator called.
 */
module EnigmaMathOps {
  import opened Words
  import opened Results

  /** The six value types (EnigmaProgram.MEM_TARGET_STORE). */
  datatype NumType = I | U | L | UL | F | D {
    predicate IsFloating() {
      this == F || this == D
    }

    /** int and unsigned int: the operators work on 32-bit words. */
    predicate IsNarrow() {
      this == I || this == U
    }

    /** long and unsigned long: the operators work on 64-bit words. */
    predicate IsWide() {
      this == L || this == UL
    }
  }

  datatype Operand = Operand(ty: NumType, asInt: Word32, asLong: Word64)

  datatype Computed =
    | IntResult(ty: NumType, bits: int)
    | LongResult(ty: NumType, bits: int)
    | FloatResult(ty: NumType)

  datatype MathError = TypeError(message: string) | ArithmeticError(message: string)

  /** The setter an operator calls is the one that matches the result type, and it is
      given a word of that type's width. */
  predicate Shaped(r: Computed, t: NumType) {
    && r.ty == t
    && (r.IntResult? ==> IsWord(r.bits, W32))
    && (r.LongResult? ==> IsWord(r.bits, W64))
    && (r.IntResult? <==> t.IsNarrow())
    && (r.LongResult? <==> t.IsWide())
    && (r.FloatResult? <==> t.IsFloating())
  }

  // ---------------------------------------------------------------------------
  // Promotion
  // ---------------------------------------------------------------------------

  /** The common type two operands are converted to before a binary operator. */
  function GetCast(a: NumType, b: NumType): (r: NumType)
    ensures r == D <==> (a == D || b == D)
    ensures r == F <==> (a != D && b != D && (a == F || b == F))
    ensures a == b ==> r == a
    ensures !a.IsFloating() && !b.IsFloating() && a != b ==>
      && ((a == UL || b == UL) ==> r == UL)
      && ((a == L || b == L) && a != UL && b != UL ==> r == L)
      && ({a, b} == {I, U} ==> r == U)
  {
    if a == D || b == D then D
    else if a == F || b == F then F
    else if a == b then a
    else if a == UL && b == U then UL
    else if a == U && b == UL then UL
    else if a == L && b == I then L
    else if a == I && b == L then L
    else if a == UL then UL
    else if b == UL then UL
    else if a == L && b == U then L
    else if b == L && a == U then L
    else U
  }

  lemma GetCastCommutes(a: NumType, b: NumType)
    ensures GetCast(a, b) == GetCast(b, a)
  {
  }

  /** The promoted type is never narrower than either operand: it is one of them. */
  lemma GetCastPicksAnOperand(a: NumType, b: NumType)
    ensures GetCast(a, b) == a || GetCast(a, b) == b
  {
  }

  // ---------------------------------------------------------------------------
  // Arithmetic
  // ---------------------------------------------------------------------------

  datatype ArithOp = AddOp | SubOp | MulOp

  function Exact(op: ArithOp, x: int, y: int): int {
    match op
    case AddOp => x + y
    case SubOp => x - y
    case MulOp => x * y
  }

  /** `add`, `sub` and `mul`: the exact result reduced to the width of the promoted type. */
  function Arith(op: ArithOp, a: Operand, b: Operand): (r: Computed)
    ensures Shaped(r, GetCast(a.ty, b.ty))
    ensures r.IntResult? ==> (r.bits - Exact(op, a.asInt, b.asInt)) % TWO32 == 0
    ensures r.LongResult? ==> (r.bits - Exact(op, a.asLong, b.asLong)) % TWO64 == 0
  {
    var t := GetCast(a.ty, b.ty);
    if t.IsNarrow() then IntResult(t, Wrap(Exact(op, a.asInt, b.asInt), W32))
    else if t.IsWide() then LongResult(t, Wrap(Exact(op, a.asLong, b.asLong), W64))
    else FloatResult(t)
  }

  /** Two's-complement addition is the same for signed and unsigned readings: read as
      signed, the I/U result is Java's `int` sum of the signed operands. */
  lemma AddIsSignedSum(a: Operand, b: Operand)
    requires GetCast(a.ty, b.ty).IsNarrow()
    ensures ToSigned(Arith(AddOp, a, b).bits, W32)
            == JavaInt(ToSigned(a.asInt, W32) + ToSigned(b.asInt, W32))
  {
    var x: int, y: int := a.asInt, b.asInt;
    var z := ToSigned(x, W32) + ToSigned(y, W32);
    assert z - (x + y) in {0, -TWO32, -2 * TWO32};
    WrapCongruent(z, x + y, W32);
    if -TWO31 <= z < TWO31 {
      SignedRoundTrip(z, W32);
    }
  }

  /** Congruent integers wrap to the same word. */
  lemma WrapCongruent(u: int, v: int, w: Width)
    requires (u - v) % w.Modulus() == 0
    ensures Wrap(u, w) == Wrap(v, w)
  {
    var m := w.Modulus();
    assert u - v == ((u - v) / m) * m;
    DivModUnique(u, m, v / m + (u - v) / m, v % m);
  }

  // ---------------------------------------------------------------------------
  // Division and remainder
  // ---------------------------------------------------------------------------

  lemma TruncRemIsRemainder(a: int, b: int)
    requires b != 0
    ensures TruncatedRemainder(TruncRem(a, b), a, b)
  {
    TruncDivRem(a, b);
    var q := TruncDiv(a, b);
    assert a - TruncRem(a, b) == q * b;
    if b < 0 {
      assert q * b == (-q) * Abs(b);
      DivModUnique(q * b, Abs(b), -q, 0);
    } else {
      DivModUnique(q * b, Abs(b), q, 0);
    }
  }

  /** `q` is the quotient of `a / b` truncated toward zero. */
  predicate TruncatedQuotient(q: int, a: int, b: int) {
    && Abs(a - q * b) < Abs(b)
    && (a >= 0 ==> a - q * b >= 0)
    && (a <= 0 ==> a - q * b <= 0)
  }

  /** `m` is the remainder of `a % b` with the sign of the dividend. */
  predicate TruncatedRemainder(m: int, a: int, b: int)
    requires b != 0
  {
    && Abs(m) < Abs(b)
    && (a >= 0 ==> m >= 0)
    && (a <= 0 ==> m <= 0)
    && (a - m) % Abs(b) == 0
  }

  /** Java's signed division on a word size: the truncated quotient, except that the most
      negative word divided by -1 overflows back to itself. */
  function SignedDivide(x: int, y: int, w: Width): (r: int)
    requires IsWord(x, w) && IsWord(y, w) && y != 0
    ensures IsWord(r, w)
    ensures ToSigned(x, w) == -w.Half() && ToSigned(y, w) == -1 ==> r == x
    ensures !(ToSigned(x, w) == -w.Half() && ToSigned(y, w) == -1) ==>
      TruncatedQuotient(ToSigned(r, w), ToSigned(x, w), ToSigned(y, w))
  {
    var sx, sy := ToSigned(x, w), ToSigned(y, w);
    assert sy != 0;
    var q := TruncDiv(sx, sy);
    TruncDivRem(sx, sy);
    FloorDivBounds(Abs(sx), Abs(sy));
    if sx == -w.Half() && sy == -1 then
      SignedRoundTrip(sx, w);
      x
    else
      SignedRoundTrip(q, w);
      Wrap(q, w)
  }

  /** Java's signed remainder on a word size. */
  function SignedRemainder(x: int, y: int, w: Width): (r: int)
    requires IsWord(x, w) && IsWord(y, w) && y != 0
    ensures IsWord(r, w)
    ensures ToSigned(y, w) != 0
    ensures TruncatedRemainder(ToSigned(r, w), ToSigned(x, w), ToSigned(y, w))
  {
    var sx, sy := ToSigned(x, w), ToSigned(y, w);
    var m := TruncRem(sx, sy);
    TruncRemIsRemainder(sx, sy);
    SignedRoundTrip(m, w);
    Wrap(m, w)
  }

  /** `div` as written: signed for I, unsigned for U and UL, and for L a multiplication. */
  function Div(a: Operand, b: Operand): (r: Result<Computed, MathError>)
    ensures r.Fail? <==>
      (GetCast(a.ty, b.ty).IsNarrow() && b.asInt == 0) || (GetCast(a.ty, b.ty) == UL && b.asLong == 0)
    ensures r.Ok? ==> Shaped(r.value, GetCast(a.ty, b.ty))
    ensures r.Ok? && r.value.ty == I && ToSigned(b.asInt, W32) != -1 ==>
      TruncatedQuotient(ToSigned(r.value.bits, W32), ToSigned(a.asInt, W32), ToSigned(b.asInt, W32))
    ensures r.Ok? && r.value.ty == I && ToSigned(b.asInt, W32) == -1 ==> r.value.bits == Wrap(-(a.asInt as int), W32)
    ensures r.Ok? && r.value.ty == U ==>
      r.value.bits * b.asInt <= a.asInt < (r.value.bits + 1) * b.asInt
    ensures r.Ok? && r.value.ty == L ==> (r.value.bits - a.asLong * b.asLong) % TWO64 == 0
    ensures r.Ok? && r.value.ty == UL ==>
      r.value.bits * b.asLong <= a.asLong < (r.value.bits + 1) * b.asLong
  {
    var t := GetCast(a.ty, b.ty);
    match t
    case I =>
      if b.asInt == 0 then Fail(ArithmeticError("/ by zero"))
      else Ok(IntResult(I, SignedDivide(a.asInt, b.asInt, W32)))
    case U =>
      if b.asInt == 0 then Fail(ArithmeticError("/ by zero"))
      else
        FloorDivBounds(a.asInt, b.asInt);
        Ok(IntResult(U, a.asInt / b.asInt))
    case L => Ok(LongResult(L, Wrap(a.asLong * b.asLong, W64)))
    case UL =>
      if b.asLong == 0 then Fail(ArithmeticError("/ by zero"))
      else
        FloorDivBounds(a.asLong, b.asLong);
        Ok(LongResult(UL, a.asLong / b.asLong))
    case F => Ok(FloatResult(F))
    case D => Ok(FloatResult(D))
  }

  /** `div` as evidently intended: the L arm divides like the I arm. */
  function DivCorrected(a: Operand, b: Operand): (r: Result<Computed, MathError>)
    ensures r.Fail? <==>
      (GetCast(a.ty, b.ty).IsNarrow() && b.asInt == 0) || (GetCast(a.ty, b.ty).IsWide() && b.asLong == 0)
    ensures r.Ok? ==> Shaped(r.value, GetCast(a.ty, b.ty))
    ensures r.Ok? && r.value.ty == L && ToSigned(b.asLong, W64) != -1 ==>
      TruncatedQuotient(ToSigned(r.value.bits, W64), ToSigned(a.asLong, W64), ToSigned(b.asLong, W64))
    ensures r.Ok? && r.value.ty == L && ToSigned(b.asLong, W64) == -1 ==> r.value.bits == Wrap(-(a.asLong as int), W64)
    ensures r.Ok? && r.value.ty != L ==> r == Div(a, b)
  {
    if GetCast(a.ty, b.ty) == L then
      if b.asLong == 0 then Fail(ArithmeticError("/ by zero"))
      else Ok(LongResult(L, SignedDivide(a.asLong, b.asLong, W64)))
    else Div(a, b)
  }

  /** 6 / 3 in the L arm gives 18, not 2. */
  lemma DivLongMultiplies()
    ensures Div(Operand(L, 0, 6), Operand(L, 0, 3)) == Ok(LongResult(L, 18))
    ensures DivCorrected(Operand(L, 0, 6), Operand(L, 0, 3)) == Ok(LongResult(L, 2))
  {
    var r := DivCorrected(Operand(L, 0, 6), Operand(L, 0, 3)).value.bits;
    assert TruncatedQuotient(ToSigned(r, W64), 6, 3);
  }

  /** `mod` as written: a signed remainder for every integer type, U and UL included. */
  function Mod(a: Operand, b: Operand): (r: Result<Computed, MathError>)
    ensures r.Fail? <==>
      (GetCast(a.ty, b.ty).IsNarrow() && b.asInt == 0) || (GetCast(a.ty, b.ty).IsWide() && b.asLong == 0)
    ensures r.Ok? ==> Shaped(r.value, GetCast(a.ty, b.ty))
    ensures r.Ok? && r.value.IntResult? ==>
      TruncatedRemainder(ToSigned(r.value.bits, W32), ToSigned(a.asInt, W32), ToSigned(b.asInt, W32))
    ensures r.Ok? && r.value.LongResult? ==>
      TruncatedRemainder(ToSigned(r.value.bits, W64), ToSigned(a.asLong, W64), ToSigned(b.asLong, W64))
  {
    var t := GetCast(a.ty, b.ty);
    if t.IsNarrow() then
      if b.asInt == 0 then Fail(ArithmeticError("/ by zero"))
      else Ok(IntResult(t, SignedRemainder(a.asInt, b.asInt, W32)))
    else if t.IsWide() then
      if b.asLong == 0 then Fail(ArithmeticError("/ by zero"))
      else Ok(LongResult(t, SignedRemainder(a.asLong, b.asLong, W64)))
    else Ok(FloatResult(t))
  }

  /** `mod` as evidently intended: U and UL take the unsigned remainder, as `div` does. */
  function ModCorrected(a: Operand, b: Operand): (r: Result<Computed, MathError>)
    ensures r.Fail? <==> Mod(a, b).Fail?
    ensures r.Ok? ==> Shaped(r.value, GetCast(a.ty, b.ty))
    ensures r.Ok? && r.value.ty == U ==>
      r.value.bits < b.asInt && (a.asInt - r.value.bits) % b.asInt == 0
    ensures r.Ok? && r.value.ty == UL ==>
      r.value.bits < b.asLong && (a.asLong - r.value.bits) % b.asLong == 0
    ensures r.Ok? && r.value.ty != U && r.value.ty != UL ==> r == Mod(a, b)
  {
    var t := GetCast(a.ty, b.ty);
    if t == U && b.asInt != 0 then
      DivModUnique(a.asInt - a.asInt % b.asInt, b.asInt, a.asInt / b.asInt, 0);
      Ok(IntResult(U, a.asInt % b.asInt))
    else if t == UL && b.asLong != 0 then
      DivModUnique(a.asLong - a.asLong % b.asLong, b.asLong, a.asLong / b.asLong, 0);
      Ok(LongResult(UL, a.asLong % b.asLong))
    else Mod(a, b)
  }

  /** 0xFFFFFFFF % 2 read as unsigned is 1, but the U arm gives 0xFFFFFFFF (-1 % 2). */
  lemma ModUnsignedIsSigned()
    ensures Mod(Operand(U, 0xFFFF_FFFF, 0), Operand(U, 2, 0)) == Ok(IntResult(U, 0xFFFF_FFFF))
    ensures ModCorrected(Operand(U, 0xFFFF_FFFF, 0), Operand(U, 2, 0)) == Ok(IntResult(U, 1))
  {
    var r := Mod(Operand(U, 0xFFFF_FFFF, 0), Operand(U, 2, 0)).value.bits;
    assert TruncatedRemainder(ToSigned(r, W32), -1, 2);
    assert ToSigned(r, W32) == -1;
  }

  // ---------------------------------------------------------------------------
  // Bitwise operators
  // ---------------------------------------------------------------------------

  function FloatTypeError(symbol: string, t: NumType): MathError
    requires t.IsFloating()
  {
    TypeError("Cannot apply " + symbol + " to " + (if t == F then "float" else "double"))
  }

  function Symbol(op: BitOp): string {
    match op
    case AndOp => "&"
    case OrOp => "|"
    case XorOp => "^"
  }

  /** `band`, `bor` and `bxor`: bit by bit on the promoted width; a type error on F or D. */
  function BitwiseOp(op: BitOp, a: Operand, b: Operand): (r: Result<Computed, MathError>)
    ensures r.Fail? <==> GetCast(a.ty, b.ty).IsFloating()
    ensures r.Fail? ==> r.error == FloatTypeError(Symbol(op), GetCast(a.ty, b.ty))
    ensures r.Ok? ==> Shaped(r.value, GetCast(a.ty, b.ty))
  {
    var t := GetCast(a.ty, b.ty);
    if t.IsNarrow() then Ok(IntResult(t, BitwiseWord(op, a.asInt, b.asInt, W32)))
    else if t.IsWide() then Ok(LongResult(t, BitwiseWord(op, a.asLong, b.asLong, W64)))
    else Fail(FloatTypeError(Symbol(op), t))
  }

  /** Swapping the operands of `band`, `bor` or `bxor` changes nothing. */
  lemma BitwiseOpCommutes(op: BitOp, a: Operand, b: Operand)
    ensures BitwiseOp(op, a, b) == BitwiseOp(op, b, a)
  {
    GetCastCommutes(a.ty, b.ty);
    BitwiseWordCommutes(op, a.asInt, b.asInt, W32);
    BitwiseWordCommutes(op, a.asLong, b.asLong, W64);
  }

  /** `bxor` with the same right operand twice restores the left operand's word, on
      32-bit and on 64-bit operands. */
  lemma BxorTwiceRestores(a: Operand, b: Operand)
    requires a.ty == b.ty && (a.ty.IsNarrow() || a.ty.IsWide())
    ensures a.ty.IsNarrow() ==>
      BitwiseOp(XorOp, a.(asInt := BitwiseOp(XorOp, a, b).value.bits), b) == Ok(IntResult(a.ty, a.asInt))
    ensures a.ty.IsWide() ==>
      BitwiseOp(XorOp, a.(asLong := BitwiseOp(XorOp, a, b).value.bits), b) == Ok(LongResult(a.ty, a.asLong))
  {
    XorWordTwice(a.asInt, b.asInt, W32);
    XorWordTwice(a.asLong, b.asLong, W64);
  }

  /** `band` and `bor` of an integer operand with itself give back its word. */
  lemma BandBorIdempotent(op: BitOp, a: Operand)
    requires op != XorOp && !a.ty.IsFloating()
    ensures BitwiseOp(op, a, a)
      == if a.ty.IsNarrow() then Ok(IntResult(a.ty, a.asInt)) else Ok(LongResult(a.ty, a.asLong))
  {
    BitwiseWordIdempotent(op, a.asInt, W32);
    BitwiseWordIdempotent(op, a.asLong, W64);
  }

  /** `compl`: every bit of the operand flipped, keeping its type; a type error on F or D. */
  function Compl(a: Operand): (r: Result<Computed, MathError>)
    ensures r.Fail? <==> a.ty.IsFloating()
    ensures r.Fail? ==> r.error == FloatTypeError("~", a.ty)
    ensures r.Ok? ==> Shaped(r.value, a.ty)
    ensures r.Ok? && r.value.IntResult? ==> r.value.bits + a.asInt == TWO32 - 1
    ensures r.Ok? && r.value.LongResult? ==> r.value.bits + a.asLong == TWO64 - 1
  {
    if a.ty.IsNarrow() then Ok(IntResult(a.ty, Complement(a.asInt, W32)))
    else if a.ty.IsWide() then Ok(LongResult(a.ty, Complement(a.asLong, W64)))
    else Fail(FloatTypeError("~", a.ty))
  }

  /** `not`: 1 for a zero operand and 0 otherwise, keeping the operand's type. */
  function Not(a: Operand): (r: Computed)
    ensures Shaped(r, a.ty)
    ensures r.IntResult? ==> (r.bits == 1 <==> a.asInt == 0) && (r.bits == 0 <==> a.asInt != 0)
    ensures r.LongResult? ==> (r.bits == 1 <==> a.asLong == 0) && (r.bits == 0 <==> a.asLong != 0)
  {
    if a.ty.IsNarrow() then IntResult(a.ty, if a.asInt != 0 then 0 else 1)
    else if a.ty.IsWide() then LongResult(a.ty, if a.asLong != 0 then 0 else 1)
    else FloatResult(a.ty)
  }

  // ---------------------------------------------------------------------------
  // Rotations and shifts: the left operand's type, the right operand's `getInt()`
  // as distance, reduced as Java reduces it
  // ---------------------------------------------------------------------------

  datatype ShiftKind = RotateLeftKind | RotateRightKind | ShiftLeftKind | ShiftRightKind

  const RotationError: string := "rotation"

  /** `signed` selects the sign-filling right shift; it matters for no other kind. */
  function ApplyShift(kind: ShiftKind, signed: bool, x: int, k: nat, w: Width): (r: int)
    requires IsWord(x, w) && k < w.Bits()
    ensures IsWord(r, w)
  {
    match kind
    case RotateLeftKind => RotateLeft(x, k, w)
    case RotateRightKind => RotateRight(x, k, w)
    case ShiftLeftKind => ShiftLeft(x, k, w)
    case ShiftRightKind => if signed then ShiftRightArithmetic(x, k, w) else ShiftRightLogical(x, k, w)
  }

  /** The distance Java uses for a word of width `w`: the right operand's `getInt()`
      reduced to its low 5 or 6 bits. */
  function DistanceOf(b: Operand, w: Width): (k: nat)
    ensures k < w.Bits()
  {
    Distance(ToSigned(b.asInt, W32), w)
  }

  /** The operator applied to the left operand's word of its own type; F and D raise. */
  function Shifted(kind: ShiftKind, signed: bool, a: Operand, b: Operand): (r: Result<Computed, MathError>)
    ensures r.Fail? <==> a.ty.IsFloating()
    ensures r.Fail? ==> r.error == FloatTypeError(RotationError, a.ty)
    ensures r.Ok? ==> Shaped(r.value, a.ty)
  {
    if a.ty.IsNarrow() then Ok(IntResult(a.ty, ApplyShift(kind, signed, a.asInt, DistanceOf(b, W32), W32)))
    else if a.ty.IsWide() then Ok(LongResult(a.ty, ApplyShift(kind, signed, a.asLong, DistanceOf(b, W64), W64)))
    else Fail(FloatTypeError(RotationError, a.ty))
  }

  /** `rotl`: a true rotation left, so rotating right by the same distance undoes it. */
  function Rotl(a: Operand, b: Operand): (r: Result<Computed, MathError>)
    ensures r.Fail? <==> a.ty.IsFloating()
    ensures r.Ok? ==> Shaped(r.value, a.ty)
    ensures r.Ok? && r.value.IntResult? ==> RotateRight(r.value.bits, DistanceOf(b, W32), W32) == a.asInt
    ensures r.Ok? && r.value.LongResult? ==> RotateRight(r.value.bits, DistanceOf(b, W64), W64) == a.asLong
  {
    RotateRoundTrip(a.asInt, DistanceOf(b, W32), W32);
    RotateRoundTrip(a.asLong, DistanceOf(b, W64), W64);
    Shifted(RotateLeftKind, false, a, b)
  }

  /** `rotr` as written: a shift left, so the result is the operand times 2^k, wrapped. */
  function Rotr(a: Operand, b: Operand): (r: Result<Computed, MathError>)
    ensures r.Fail? <==> a.ty.IsFloating()
    ensures r.Ok? ==> Shaped(r.value, a.ty)
    ensures r.Ok? && r.value.IntResult? ==> (r.value.bits - a.asInt * Pow2(DistanceOf(b, W32))) % TWO32 == 0
    ensures r.Ok? && r.value.LongResult? ==> (r.value.bits - a.asLong * Pow2(DistanceOf(b, W64))) % TWO64 == 0
  {
    Shifted(ShiftLeftKind, false, a, b)
  }

  /** `rotr` as evidently intended: rotation right, the inverse of `rotl`. */
  function RotrCorrected(a: Operand, b: Operand): (r: Result<Computed, MathError>)
    ensures r.Fail? <==> a.ty.IsFloating()
    ensures r.Ok? ==> Shaped(r.value, a.ty)
  {
    Shifted(RotateRightKind, false, a, b)
  }

  /** The corrected `rotr` undoes `rotl` by the same distance, on 32-bit and on 64-bit
      operands. */
  lemma RotrCorrectedUndoesRotl(a: Operand, b: Operand)
    requires a.ty.IsNarrow() || a.ty.IsWide()
    ensures a.ty.IsNarrow() ==> RotrCorrected(a.(asInt := Rotl(a, b).value.bits), b) == Ok(IntResult(a.ty, a.asInt))
    ensures a.ty.IsWide() ==> RotrCorrected(a.(asLong := Rotl(a, b).value.bits), b) == Ok(LongResult(a.ty, a.asLong))
  {
  }

  /** Rotating 1 right by one position gives the top bit; the written `rotr` gives 2. */
  lemma RotrShiftsLeft()
    ensures Rotr(Operand(U, 1, 0), Operand(U, 1, 0)) == Ok(IntResult(U, 2))
    ensures RotrCorrected(Operand(U, 1, 0), Operand(U, 1, 0)) == Ok(IntResult(U, TWO31))
  {
    DistanceOfOne();
    assert ShiftLeft(1, 1, W32) == 2 by { assert Pow2(1) == 2; }
    LowBitRotatesToTop();
  }

  lemma DistanceOfOne()
    ensures DistanceOf(Operand(U, 1, 0), W32) == 1
  {
    SignedRoundTrip(1, W32);
  }

  lemma LowBitRotatesToTop()
    ensures RotateRight(1, 1, W32) == TWO31
  {
    Pow2Width(W32);
    Pow2Add(1, 31);
    RotateLeftSwaps(1, 31, W32, 0, 1);
  }

  /** `shl` as written: a rotation left, so no bit is lost and `rotr`-as-intended undoes it. */
  function Shl(a: Operand, b: Operand): (r: Result<Computed, MathError>)
    ensures r.Fail? <==> a.ty.IsFloating()
    ensures r.Ok? ==> Shaped(r.value, a.ty)
    ensures r.Ok? && r.value.IntResult? ==> RotateRight(r.value.bits, DistanceOf(b, W32), W32) == a.asInt
    ensures r.Ok? && r.value.LongResult? ==> RotateRight(r.value.bits, DistanceOf(b, W64), W64) == a.asLong
  {
    RotateRoundTrip(a.asInt, DistanceOf(b, W32), W32);
    RotateRoundTrip(a.asLong, DistanceOf(b, W64), W64);
    Shifted(RotateLeftKind, false, a, b)
  }

  /** `shl` as evidently intended: the bits shifted past the top are lost. */
  function ShlCorrected(a: Operand, b: Operand): (r: Result<Computed, MathError>)
    ensures r.Fail? <==> a.ty.IsFloating()
    ensures r.Ok? ==> Shaped(r.value, a.ty)
    ensures r.Ok? && r.value.IntResult? ==> (r.value.bits - a.asInt * Pow2(DistanceOf(b, W32))) % TWO32 == 0
    ensures r.Ok? && r.value.LongResult? ==> (r.value.bits - a.asLong * Pow2(DistanceOf(b, W64))) % TWO64 == 0
  {
    Shifted(ShiftLeftKind, false, a, b)
  }

  /** 0x80000000 << 1 is 0 in Java; the written `shl` gives 1, the top bit wrapped round. */
  lemma ShlRotates()
    ensures Shl(Operand(U, TWO31, 0), Operand(U, 1, 0)) == Ok(IntResult(U, 1))
    ensures ShlCorrected(Operand(U, TWO31, 0), Operand(U, 1, 0)) == Ok(IntResult(U, 0))
  {
    var top, one := Operand(U, TWO31, 0), Operand(U, 1, 0);
    assert DistanceOf(one, W32) == 1;
    assert Shl(top, one) == Ok(IntResult(U, RotateLeft(TWO31, 1, W32)));
    assert ShlCorrected(top, one) == Ok(IntResult(U, ShiftLeft(TWO31, 1, W32)));
    Pow2Width(W32);
    Pow2Add(1, 31);
    RotateLeftSwaps(TWO31, 1, W32, 1, 0);
  }

  /** `shr` as written: a logical shift for every integer type, signed ones included. */
  function Shr(a: Operand, b: Operand): (r: Result<Computed, MathError>)
    ensures r.Fail? <==> a.ty.IsFloating()
    ensures r.Ok? ==> Shaped(r.value, a.ty)
    ensures r.Ok? && r.value.IntResult? ==>
      var k := DistanceOf(b, W32);
      r.value.bits * Pow2(k) <= a.asInt < (r.value.bits + 1) * Pow2(k)
    ensures r.Ok? && r.value.LongResult? ==>
      var k := DistanceOf(b, W64);
      r.value.bits * Pow2(k) <= a.asLong < (r.value.bits + 1) * Pow2(k)
  {
    Shifted(ShiftRightKind, false, a, b)
  }

  /** `shr` as evidently intended for the C-like language: sign-filling on I and L. */
  function ShrCorrected(a: Operand, b: Operand): (r: Result<Computed, MathError>)
    ensures r.Fail? <==> a.ty.IsFloating()
    ensures r.Ok? ==> Shaped(r.value, a.ty)
    ensures r.Ok? && r.value.ty == I ==>
      var k, s := DistanceOf(b, W32), ToSigned(r.value.bits, W32);
      s * Pow2(k) <= ToSigned(a.asInt, W32) < (s + 1) * Pow2(k)
    ensures r.Ok? && r.value.ty == L ==>
      var k, s := DistanceOf(b, W64), ToSigned(r.value.bits, W64);
      s * Pow2(k) <= ToSigned(a.asLong, W64) < (s + 1) * Pow2(k)
    ensures r.Ok? && (r.value.ty == U || r.value.ty == UL) ==> r == Shr(a, b)
  {
    Shifted(ShiftRightKind, a.ty == I || a.ty == L, a, b)
  }

  /** -2 >> 1 is -1; the written `shr` on an int gives 0x7FFFFFFF. */
  lemma ShrIgnoresSign()
    ensures Shr(Operand(I, TWO32 - 2, 0), Operand(I, 1, 0)) == Ok(IntResult(I, TWO31 - 1))
    ensures ShrCorrected(Operand(I, TWO32 - 2, 0), Operand(I, 1, 0)) == Ok(IntResult(I, TWO32 - 1))
  {
    assert DistanceOf(Operand(I, 1, 0), W32) == 1;
    var r := ShrCorrected(Operand(I, TWO32 - 2, 0), Operand(I, 1, 0)).value.bits;
    assert ToSigned(r, W32) * 2 <= -2 < (ToSigned(r, W32) + 1) * 2;
  }
}
