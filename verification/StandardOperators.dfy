/** The operators of section F.2 "Bytecode Descriptions" of the GDB Agent Expression Mechanism on 32-bit
    stack elements, written down without reference to the interpreter, and exactly when the interpreter's
    operators (lib/gdb-stub/expression.cpp) agree with them. */
module StandardOperators {
  import opened Words
  import opened Bits
  import opened Expression
  import Alu

  /** `a` is the element below the top, `b` the top. */
  function StandardBinary(op: BinaryOp, a: Word, b: Word): Computed {
    match op
    case Add => Value(Wrap(a + b))
    case Sub => Value(Wrap(a - b))
    case Mul => Value(Wrap(a * b))
    case DivSigned =>
      if b == 0 then Stops(Failed(DivisionByZero)) else Value(Wrap(TruncDiv(Signed(a), Signed(b))))
    case DivUnsigned => if b == 0 then Stops(Failed(DivisionByZero)) else Value(Wrap(a / b))
    case RemSigned =>
      if b == 0 then Stops(Failed(DivisionByZero)) else Value(Wrap(TruncRem(Signed(a), Signed(b))))
    case RemUnsigned => if b == 0 then Stops(Failed(DivisionByZero)) else Value(Wrap(a % b))
    case Lsh => Value(Wrap(a * Pow2(b)))
    case RshSigned => Value(Wrap(Signed(a) / Pow2(b)))
    case RshUnsigned => Value(Wrap(a / Pow2(b)))
    case BitAndOp => Value(Word32(BothBits(a, b)))
    case BitOrOp => Value(Word32(EitherBits(a, b)))
    case BitXorOp => Value(Word32(DifferentBits(a, b)))
    case Equal => Value(if a == b then 1 else 0)
    case LessSigned => Value(if Signed(a) < Signed(b) then 1 else 0)
    case LessUnsigned => Value(if a < b then 1 else 0)
  }

  function StandardUnary(access: Access, op: UnaryOp, a: Word): Computed {
    match op
    case LogNot => Value(if a == 0 then 1 else 0)
    case BitNotOp => Value(Word32(FlippedBits(a)))
    case Ext(n) => if 0 < n <= 32 then Value(SignExtend(a, n)) else Stops(Undefined)
    case ZeroExt(n) => if n < 32 then Value(Wrap(a % Pow2(n))) else Stops(Undefined)
    case Ref8 =>
      var b0 := access.memory(a);
      if b0.None? then Stops(Failed(MemoryAccessError)) else Value(b0.value)
    case Ref16 =>
      var b0, b1 := access.memory(a), access.memory(Wrap(a + 1));
      if b0.None? || b1.None? then Stops(Failed(MemoryAccessError)) else Value(b0.value + 0x100 * b1.value)
    case Ref32 =>
      var b0, b1 := access.memory(a), access.memory(Wrap(a + 1));
      var b2, b3 := access.memory(Wrap(a + 2)), access.memory(Wrap(a + 3));
      if b0.None? || b1.None? || b2.None? || b3.None? then Stops(Failed(MemoryAccessError))
      else Value(b0.value + 0x100 * b1.value + 0x1_0000 * b2.value + 0x100_0000 * b3.value)
  }

  /* ---- When the interpreter agrees ---- */

  /** The operands for which it does no harm that the interpreter has the operator as it has. */
  predicate Harmless(op: BinaryOp, a: Word, b: Word) {
    match op
    case Add => true
    case Sub => (a - b) % 0x8000_0000 == 0
    case Mul => true
    case DivSigned => b == 0 || Alu.Abs(Signed(a)) == Alu.Abs(Signed(b))
    case DivUnsigned => b == 0 || a == b
    case RemSigned => b == 0 || Alu.Abs(Signed(a)) == Alu.Abs(Signed(b))
    case RemUnsigned => b == 0 || a == b
    case Lsh => if b < 32 then SameLeft(a, b) else b % Pow2(32 - a % 32) == 0
    case RshSigned =>
      if a >= 0x8000_0000 then b >= 32 && TWO_32 - b <= Pow2(a % 32) else SameRight(a, b)
    case RshUnsigned => SameRight(a, b)
    case BitAndOp => true
    case BitOrOp => true
    case BitXorOp => true
    case Equal => true
    case LessSigned => a == b
    case LessUnsigned => a == b
  }

  /** Shift widths `b` below 32: `a` looks like `b` in the bits that survive the shift, or one of four other
      pairs does. */
  predicate SameLeft(a: Word, b: Word)
    requires b < 32
  {
    || (a % 32 == b && (a - b) % Pow2(32 - b) == 0)
    || (b == 1 && a % 0x8000_0000 == 2)
    || (b == 2 && a % 0x4000_0000 == 1)
    || (b == 5 && a % 0x800_0000 == 40)
    || (b == 22 && a % 0x400 == 88)
  }

  /** Either both shifts leave 0, or `a` has one of the few forms for which they leave the same: its low five
      bits are at most 4, and it lies in the block of 2^b numbers that `b` divided by 1, 2, 4, 8 or 16 names. */
  predicate SameRight(a: Word, b: Word) {
    if b < Pow2(a % 32) then b >= 32 || a < Pow2(b)
    else b < 32 && a % 32 <= 4 && InBlock(a, b, b / Pow2(a % 32))
  }

  /** `x` lies in the `r`-th block of 2^b numbers. */
  predicate InBlock(x: int, b: nat, r: int) {
    r * Pow2(b) <= x < (r + 1) * Pow2(b)
  }

  /* ---- Bit by bit ---- */

  lemma {:induction false} BitwiseAgrees(op: BinaryOp, a: Word, b: Word)
    requires op in {BitAndOp, BitOrOp, BitXorOp}
    ensures ApplyBinary(op, a, b) == StandardBinary(op, a, b)
  {
    hide Word32;
    GatesBitByBit(a, b);
  }

  /* ---- Extensions and references ---- */

  lemma {:induction false} ShiftedExtendMeaning(a: Word, n: nat)
    requires 0 < n <= 32
    ensures ShiftedExtend(a, n) == SignExtend(a, n)
  {
    var p, q, half := Pow2(32 - n), Pow2(n), Pow2(n - 1);
    Pow2Split(32 - n, n);
    Pow2Of32();
    ShiftUp(a, p, q, half);
  }

  lemma {:induction false} Scale(x: int, bound: int, p: int)
    requires p > 0
    ensures x < bound ==> x * p < bound * p
    ensures x >= bound ==> x * p >= bound * p
  {
    if x < bound {
      Alu.NonNegative(bound - 1 - x, p);
      assert (bound - 1 - x) * p == bound * p - p - x * p;
    } else {
      Alu.NonNegative(x - bound, p);
      assert (x - bound) * p == x * p - bound * p;
    }
  }

  lemma {:induction false} ShiftUp(a: nat, p: nat, q: nat, half: nat)
    requires p > 0 && q == 2 * half && p * q == TWO_32 && half > 0
    ensures Signed(Wrap(a * p)) / p == if a % q < half then a % q else a % q - q
  {
    var k, low := a / q, a % q;
    assert a == q * k + low && 0 <= low < q;
    assert a * p == low * p + k * TWO_32 by {
      assert (q * k) * p == k * (p * q);
    }
    ModShift(low * p, k, TWO_32);
    ShiftBack(low, p, q, half);
  }

  lemma {:induction false} ShiftBack(low: nat, p: nat, q: nat, half: nat)
    requires p > 0 && q == 2 * half && p * q == TWO_32 && 0 <= low < q
    ensures Signed(Wrap(low * p)) / p == if low < half then low else low - q
  {
    assert half * p == 0x8000_0000;
    Scale(low, 0, p);
    Scale(low, q, p);
    Scale(low, half, p);
    assert Wrap(low * p) == low * p;
    if low < half {
      ModUnique(low * p, p, low, 0);
    } else {
      assert low * p - TWO_32 == p * (low - q);
      ModUnique(low * p - TWO_32, p, low - q, 0);
    }
  }

  lemma {:induction false} MaskedExtendMeaning(a: Word, n: nat)
    requires n < 32
    ensures MaskedExtend(a, n) == a % Pow2(n)
  {
    Pow2AtMost32(n);
    LowMask(32, n, a);
  }

  lemma {:induction false} HalfwordAgrees(access: Access, a: Word)
    ensures ApplyUnary(access, Ref16, a) == StandardUnary(access, Ref16, a)
  {
    ReadBytesUnfold(access, a, 2);
    OneByteRead(access, Wrap(a + 1));
    hide ReadBytes;
  }

  lemma {:induction false} WordAgrees(access: Access, a: Word)
    ensures ApplyUnary(access, Ref32, a) == StandardUnary(access, Ref32, a)
  {
    hide ReadBytes;
    var a1: int, a2: int := Wrap(a + 1), Wrap(a + 2);
    assert a2 == Wrap(a1 + 1) && Wrap(a + 3) == Wrap(a2 + 1);
    ReadBytesUnfold(access, a, 4);
    ReadBytesUnfold(access, a1, 3);
    ReadBytesUnfold(access, a2, 2);
    OneByteRead(access, Wrap(a + 3));
  }

  lemma {:induction false} OneByteRead(access: Access, a: Word)
    ensures ReadBytes(access, a, 1)
         == if access.memory(a).None? then Stops(Failed(MemoryAccessError)) else Value(access.memory(a).value)
  {
    ReadBytesUnfold(access, a, 1);
  }

  lemma {:induction false} ReadBytesUnfold(access: Access, a: Word, n: Width)
    requires n > 0
    ensures ReadBytes(access, a, n)
         == match access.memory(a)
            case None => Stops(Failed(MemoryAccessError))
            case Some(low) =>
              var rest := ReadBytes(access, Wrap(a + 1), n - 1);
              if rest.Value? then Value(low + 0x100 * rest.word) else rest
  {
  }

  /** Every one-operand operator has its standard value. */
  lemma {:induction false} UnaryConforms(access: Access, op: UnaryOp, a: Word)
    ensures ApplyUnary(access, op, a) == StandardUnary(access, op, a)
  {
    hide ShiftedExtend, MaskedExtend, SignExtend, ReadBytes, Pow2, BitNot, Word32, FlippedBits;
    match op
    case LogNot =>
    case BitNotOp => NotBitByBit(a);
    case Ext(n) =>
      if 0 < n <= 32 {
        ShiftedExtendMeaning(a, n);
      }
    case ZeroExt(n) =>
      if n < 32 {
        MaskedExtendMeaning(a, n);
      }
    case Ref8 => OneByteRead(access, a);
    case Ref16 => HalfwordAgrees(access, a);
    case Ref32 => WordAgrees(access, a);
  }

  /* ---- Division ---- */

  lemma {:induction false} Compare(x: nat, y: nat)
    requires y != 0
    ensures 0 <= x / y <= x && 0 <= x % y < y
    ensures x < y ==> x / y == 0 && x % y == x
    ensures x == y ==> x / y == 1 && x % y == 0
    ensures x > y ==> x / y >= 1
  {
    Alu.QuotientBelow(x, y);
    assert x == y * (x / y) + x % y;
    if x < y {
      ModUnique(x, y, 0, x);
    } else if x == y {
      ModUnique(x, y, 1, 0);
    }
  }

  lemma {:induction false} Quotients(x: nat, y: nat)
    requires x != 0 && y != 0
    ensures x / y == y / x <==> x == y
    ensures x % y == y % x <==> x == y
  {
    Compare(x, y);
    Compare(y, x);
  }

  lemma {:induction false} UnsignedDivision(a: Word, b: Word)
    ensures ApplyBinary(DivUnsigned, a, b) == StandardBinary(DivUnsigned, a, b) <==> Harmless(DivUnsigned, a, b)
    ensures ApplyBinary(RemUnsigned, a, b) == StandardBinary(RemUnsigned, a, b) <==> Harmless(RemUnsigned, a, b)
  {
    hide Pow2;
    if a != 0 && b != 0 {
      Quotients(a, b);
      Bounds(a, b);
      Bounds(b, a);
    }
  }

  lemma {:induction false} Bounds(a: Word, b: Word)
    requires b != 0
    ensures Wrap(a / b) == a / b && Wrap(a % b) == a % b
  {
    Compare(a, b);
  }

  /** Conversion to `u32` keeps numbers apart that are less than 2^32 apart. */
  lemma {:induction false} WrapApart(x: int, y: int)
    requires -TWO_32 < x - y < TWO_32
    ensures Wrap(x) == Wrap(y) <==> x == y
  {
  }

  lemma {:induction false} SignedQuotients(x: int, y: int)
    requires x != 0 && y != 0
    requires -0x8000_0000 <= x <= 0x8000_0000 && -0x8000_0000 <= y <= 0x8000_0000
    ensures Wrap(TruncDiv(x, y)) == Wrap(TruncDiv(y, x)) <==> Alu.Abs(x) == Alu.Abs(y)
  {
    Alu.TruncDivIs(x, y);
    Alu.TruncDivIs(y, x);
    Compare(Alu.Abs(x), Alu.Abs(y));
    Compare(Alu.Abs(y), Alu.Abs(x));
    WrapApart(TruncDiv(x, y), TruncDiv(y, x));
  }

  lemma {:induction false} SmallRemainder(x: int, y: int)
    requires y != 0 && Alu.Abs(x) < Alu.Abs(y)
    ensures TruncRem(x, y) == x
  {
    Alu.TruncDivIs(x, y);
    Compare(Alu.Abs(x), Alu.Abs(y));
  }

  lemma {:induction false} NoRemainder(x: int, y: int)
    requires y != 0 && Alu.Abs(x) == Alu.Abs(y)
    ensures TruncRem(x, y) == 0
  {
    Alu.TruncDivIs(x, y);
    Compare(Alu.Abs(x), Alu.Abs(y));
  }

  lemma {:induction false} SignedRemainders(x: int, y: int)
    requires x != 0 && y != 0
    requires -0x8000_0000 <= x <= 0x8000_0000 && -0x8000_0000 <= y <= 0x8000_0000
    ensures Wrap(TruncRem(x, y)) == Wrap(TruncRem(y, x)) <==> Alu.Abs(x) == Alu.Abs(y)
  {
    Alu.TruncRemBounds(x, y);
    Alu.TruncRemBounds(y, x);
    WrapApart(TruncRem(x, y), TruncRem(y, x));
    if Alu.Abs(x) < Alu.Abs(y) {
      SmallRemainder(x, y);
    } else if Alu.Abs(y) < Alu.Abs(x) {
      SmallRemainder(y, x);
    } else {
      NoRemainder(x, y);
      NoRemainder(y, x);
    }
  }

  lemma {:induction false} SignedDivision(a: Word, b: Word)
    ensures ApplyBinary(DivSigned, a, b) == StandardBinary(DivSigned, a, b) <==> Harmless(DivSigned, a, b)
    ensures ApplyBinary(RemSigned, a, b) == StandardBinary(RemSigned, a, b) <==> Harmless(RemSigned, a, b)
  {
    hide Pow2, TruncDiv, TruncRem;
    if a != 0 && b != 0 {
      SignedQuotients(Signed(a), Signed(b));
      SignedRemainders(Signed(a), Signed(b));
    }
  }

  /* ---- Right shifts ---- */

  lemma {:induction false} InBlockIff(x: int, p: nat, r: int)
    requires p > 0
    ensures x / p == r <==> r * p <= x < (r + 1) * p
  {
    assert x == p * (x / p) + x % p;
    if r * p <= x < (r + 1) * p {
      ModUnique(x, p, r, x - r * p);
    }
  }

  lemma {:induction false} QuotientBounds(x: int, p: nat)
    requires p > 0 && -0x8000_0000 <= x < TWO_32
    ensures -0x8000_0000 <= x / p < TWO_32
    ensures x < 0 ==> x / p < 0
    ensures x >= 0 ==> 0 <= x / p <= x
  {
    assert x == p * (x / p) + x % p;
    if x >= 0 {
      Alu.QuotientBelow(x, p);
    } else {
      MultipleGrows(p, x / p);
    }
  }

  lemma {:induction false} WidePower(b: nat)
    requires b >= 32
    ensures Pow2(b) >= TWO_32
  {
    Pow2Of32();
    Pow2Split(32, b - 32);
    Alu.FactorBelow(Pow2(b - 32), TWO_32);
  }

  /** The quotients are the same exactly for such operands. */
  lemma {:induction false} SameRightIff(a: Word, b: Word)
    ensures b / Pow2(a % 32) == a / Pow2(b) <==> SameRight(a, b)
  {
    hide Pow2;
    var p, q := Pow2(a % 32), Pow2(b);
    InBlockIff(b, p, 0);
    InBlockIff(a, q, 0);
    if b >= 32 {
      WidePower(b);
    } else if b >= p {
      InBlockIff(a, q, b / p);
      if a % 32 >= 5 {
        WidePart(0, a % 32);
      }
    }
  }

  lemma {:induction false} RightShiftUnsigned(a: Word, b: Word)
    ensures ApplyBinary(RshUnsigned, a, b) == StandardBinary(RshUnsigned, a, b) <==> Harmless(RshUnsigned, a, b)
  {
    hide Pow2, Wrap, SameRight;
    WrapQuotient(b, Pow2(a % 32));
    WrapQuotient(a, Pow2(b));
    SameRightIff(a, b);
  }

  lemma {:induction false} WrapQuotient(x: Word, p: nat)
    requires p > 0
    ensures Wrap(x / p) == x / p
  {
    QuotientBounds(x, p);
  }

  lemma {:induction false} RightShiftSigned(a: Word, b: Word)
    ensures ApplyBinary(RshSigned, a, b) == StandardBinary(RshSigned, a, b) <==> Harmless(RshSigned, a, b)
  {
    hide Pow2, SameRight;
    var p, q := Pow2(a % 32), Pow2(b);
    SignedShiftBounds(Signed(b), p);
    SignedShiftBounds(Signed(a), q);
    WrapApart(Signed(b) / p, Signed(a) / q);
    if a >= 0x8000_0000 {
      NegativeShift(a, b);
    } else if b < 0x8000_0000 {
      SameRightIff(a, b);
    } else {
      QuotientBounds(Signed(b), p);
      QuotientBounds(Signed(a), q);
      NotSameRight(a, b);
    }
  }

  /** A negative value shifted by at least 32 leaves -1. */
  lemma {:induction false} NegativeShift(a: Word, b: Word)
    requires a >= 0x8000_0000
    ensures Signed(b) / Pow2(a % 32) == Signed(a) / Pow2(b)
       <==> b >= 32 && TWO_32 - b <= Pow2(a % 32)
  {
    hide Pow2;
    var p, q := Pow2(a % 32), Pow2(b);
    QuotientBounds(Signed(b), p);
    QuotientBounds(Signed(a), q);
    SmallPower(a % 32);
    if b >= 32 {
      WidePower(b);
      InBlockIff(Signed(a), q, -1);
      InBlockIff(Signed(b), p, -1);
    }
  }

  lemma {:induction false} NotSameRight(a: Word, b: Word)
    requires b >= 0x8000_0000
    ensures SameRight(a, b) ==> a >= 0x8000_0000
  {
    hide Pow2;
    SmallPower(a % 32);
  }

  lemma {:induction false} SignedShiftBounds(x: int, p: nat)
    requires p > 0 && -0x8000_0000 <= x < 0x8000_0000
    ensures -0x8000_0000 <= x / p < 0x8000_0000
  {
    QuotientBounds(x, p);
  }

  lemma {:induction false} SmallPower(s: nat)
    requires s < 32
    ensures 1 <= Pow2(s) <= 0x8000_0000
  {
    hide Pow2;
    Powers();
    Pow2Split(s, 31 - s);
    Alu.FactorBelow(Pow2(31 - s), Pow2(s));
  }

  /* ---- The left shift ---- */

  lemma {:induction false} Residue(x: int, y: int, m: nat)
    requires m > 0
    ensures x % m == y % m <==> (x - y) % m == 0
  {
    var k, l := x / m - y / m, x % m - y % m;
    assert x - y == k * m + l by {
      assert k * m == m * (x / m) - m * (y / m);
    }
    ModShift(l, k, m);
    if l != 0 {
      ModUnique(l, m, if l < 0 then -1 else 0, if l < 0 then l + m else l);
    } else {
      ModUnique(0, m, 0, 0);
    }
  }

  lemma {:induction false} ScaledResidue(x: int, p: nat, m: nat)
    requires p > 0 && m > 0
    ensures p * m > 0 && (x * p % (p * m) == 0 <==> x % m == 0)
  {
    var k, r := x / m, x % m;
    Alu.FactorBelow(p, m);
    assert x * p == (p * m) * k + r * p by {
      assert x == m * k + r;
      assert (m * k) * p == (p * m) * k;
    }
    Scale(r, m, p);
    Scale(r, 0, p);
    ModUnique(x * p, p * m, k, r * p);
    if r > 0 {
      Scale(r, 1, p);
    }
  }

  /** The two shifts deliver the same word. */
  predicate SameShift(a: Word, b: Word) {
    (b * Pow2(a % 32) - a * Pow2(b)) % TWO_32 == 0
  }

  lemma {:induction false} SameWidth(a: Word, b: Word)
    requires a % 32 == b
    ensures SameShift(a, b) <==> (a - b) % Pow2(32 - b) == 0
  {
    hide Pow2;
    var p, m := Pow2(b), Pow2(32 - b);
    Pow2Split(b, 32 - b);
    Pow2Of32();
    assert b * p - a * p == (b - a) * p;
    ScaledResidue(b - a, p, m);
    Negated(a - b, m);
  }

  lemma {:induction false} Negated(x: int, m: nat)
    requires m > 0
    ensures x % m == 0 <==> (-x) % m == 0
  {
    if x % m == 0 {
      assert -x == m * -(x / m);
      ModUnique(-x, m, -(x / m), 0);
    }
    if (-x) % m == 0 {
      assert x == m * -(-x / m);
      ModUnique(x, m, -(-x / m), 0);
    }
  }

  lemma {:induction false} Divides(x: int, m: nat, d: nat)
    requires m > 0 && d > 0
    ensures m * d > 0 && (x % (m * d) == 0 ==> x % m == 0)
  {
    Alu.FactorBelow(m, d);
    if x % (m * d) == 0 {
      var k := x / (m * d);
      assert x == m * (d * k) by {
        assert x == (m * d) * k;
      }
      ModUnique(x, m, d * k, 0);
    }
  }

  lemma {:induction false} Powers()
    ensures Pow2(1) == 2 && Pow2(2) == 4 && Pow2(3) == 8 && Pow2(4) == 16 && Pow2(5) == 32
    ensures Pow2(6) == 64 && Pow2(7) == 128 && Pow2(8) == 256 && Pow2(9) == 512 && Pow2(10) == 1024
    ensures Pow2(27) == 0x800_0000 && Pow2(30) == 0x4000_0000 && Pow2(31) == 0x8000_0000
  {
    assert Pow2(5) == 32;
    Pow2Split(5, 5);
    Pow2Split(10, 10);
    Pow2Split(20, 7);
    Pow2Split(27, 3);
  }

  /** A shift by more than `b`: the low five bits of `a` leave three candidates. */
  lemma {:induction false} WiderShift(a: Word, b: nat, d: nat)
    requires d >= 1 && b + d < 32 && a % 32 == b + d
    requires (b * Pow2(d) - a) % Pow2(32 - b) == 0
    ensures (b == 1 && d == 1) || (b == 22 && d == 2) || (b == 5 && d == 3)
  {
    hide Pow2;
    if b > 27 {
      TopShift(a, b, d);
    } else {
      FiveBits(b * Pow2(d) - a, 32 - b);
      Residue(b * Pow2(d), a, 32);
      if d >= 5 {
        WidePart(b, d);
      } else {
        WiderLow(b, d);
      }
    }
  }

  lemma {:induction false} FiveBits(x: int, k: nat)
    requires k >= 5 && x % Pow2(k) == 0
    ensures x % 32 == 0
  {
    hide Pow2;
    Powers();
    Pow2Split(5, k - 5);
    Divides(x, 32, Pow2(k - 5));
  }

  lemma {:induction false} WidePart(b: nat, d: nat)
    requires d >= 5
    ensures Pow2(d) >= 32 && (b * Pow2(d)) % 32 == 0
  {
    hide Pow2;
    Powers();
    Pow2Split(5, d - 5);
    Alu.FactorBelow(32, Pow2(d - 5));
    assert b * Pow2(d) == 0 + (b * Pow2(d - 5)) * 32;
    ModShift(0, b * Pow2(d - 5), 32);
  }

  lemma {:induction false} WiderLow(b: nat, d: nat)
    requires 1 <= d <= 4 && b <= 27
    ensures (b * Pow2(d)) % 32 == b + d ==> (b == 1 && d == 1) || (b == 22 && d == 2) || (b == 5 && d == 3)
  {
    hide Pow2;
    Powers();
    if d == 1 {
    } else if d == 2 {
    } else if d == 3 {
    } else {
    }
  }

  lemma {:induction false} TopShift(a: Word, b: nat, d: nat)
    requires b >= 28 && d >= 1 && b + d < 32 && a % 32 == b + d
    ensures (b * Pow2(d) - a) % Pow2(32 - b) != 0
  {
    hide Pow2;
    Powers();
    if b == 28 {
      assert d == 1 || d == 2 || d == 3;
    } else if b == 29 {
      assert d == 1 || d == 2;
    } else {
      assert b == 30 && d == 1;
    }
  }

  /** A shift by less than `b`: one candidate. */
  lemma {:induction false} NarrowerShift(a: Word, s: nat, e: nat)
    requires e >= 1 && s + e < 32 && a % 32 == s
    requires (s + e - a * Pow2(e)) % Pow2(32 - s) == 0
    ensures s == 1 && e == 1
  {
    hide Pow2;
    var x := s + e - a * Pow2(e);
    if e >= 5 {
      TooNarrow(a, s, e);
    } else if s + e > 27 {
      HighNarrow(a, s, e);
    } else {
      Pow2Split(5 + e, 27 - s - e);
      Divides(x, Pow2(5 + e), Pow2(27 - s - e));
      LowNarrow(a, s, e);
    }
  }

  lemma {:induction false} TooNarrow(a: Word, s: nat, e: nat)
    requires e >= 5 && s + e < 32
    ensures (s + e - a * Pow2(e)) % Pow2(32 - s) != 0
  {
    hide Pow2;
    if (s + e - a * Pow2(e)) % Pow2(32 - s) == 0 {
      Pow2Split(e, 32 - s - e);
      Divides(s + e - a * Pow2(e), Pow2(e), Pow2(32 - s - e));
      WidePart(0, e);
      NotMultiple(s + e, a, Pow2(e));
    }
  }

  lemma {:induction false} NotMultiple(x: nat, a: nat, m: nat)
    requires 0 < x < m
    ensures (x - a * m) % m != 0
  {
    ModShift(x, 0 - a, m);
    ModUnique(x, m, 0, x);
  }

  lemma {:induction false} LowNarrow(a: Word, s: nat, e: nat)
    requires 1 <= e <= 4 && s + e <= 27 && a % 32 == s
    requires (s + e - a * Pow2(e)) % Pow2(5 + e) == 0
    ensures s == 1 && e == 1
  {
    hide Pow2;
    var q := a / 32;
    Pow2Split(5, e);
    Powers();
    assert s + e - a * Pow2(e) == (s + e - s * Pow2(e)) + (0 - q) * Pow2(5 + e) by {
      assert a == 32 * q + s;
      assert (32 * q) * Pow2(e) == q * (32 * Pow2(e));
    }
    ModShift(s + e - s * Pow2(e), 0 - q, Pow2(5 + e));
    LowFive(s, e);
  }

  lemma {:induction false} LowFive(s: nat, e: nat)
    requires 1 <= e <= 4 && s + e <= 27 && (s + e - s * Pow2(e)) % Pow2(5 + e) == 0
    ensures s == 1 && e == 1
  {
    hide Pow2;
    Powers();
    if e == 1 {
    } else if e == 2 {
    } else if e == 3 {
    } else {
    }
  }

  lemma {:induction false} HighNarrow(a: Word, s: nat, e: nat)
    requires 1 <= e <= 4 && 28 <= s + e < 32 && a % 32 == s
    ensures (s + e - a * Pow2(e)) % Pow2(32 - s) != 0
  {
    hide Pow2;
    Powers();
    if e == 1 {
      assert s == 27 || s == 28 || s == 29 || s == 30;
    } else if e == 2 {
      assert s == 26 || s == 27 || s == 28 || s == 29;
    } else if e == 3 {
      assert s == 25 || s == 26 || s == 27 || s == 28;
    } else {
      assert s == 24 || s == 25 || s == 26 || s == 27;
    }
  }

  /** Both shifts have `Pow2(k)` in common. */
  lemma {:induction false} CommonFactor(x: int, k: nat)
    requires k <= 32
    ensures x * Pow2(k) % TWO_32 == 0 <==> x % Pow2(32 - k) == 0
  {
    hide Pow2;
    Pow2Split(k, 32 - k);
    Pow2Of32();
    ScaledResidue(x, Pow2(k), Pow2(32 - k));
  }

  lemma {:induction false} Factored(x: int, y: int, k: nat, d: nat)
    ensures x * Pow2(k + d) - y * Pow2(k) == (x * Pow2(d) - y) * Pow2(k)
  {
    Pow2Split(k, d);
    assert x * (Pow2(k) * Pow2(d)) == (x * Pow2(d)) * Pow2(k);
  }

  lemma {:induction false} Opposite(x: int, p: int)
    ensures -(x * p) == (-x) * p
  {
  }

  lemma {:induction false} WiderReduced(a: Word, b: nat, d: nat)
    requires b + d == a % 32
    ensures SameShift(a, b) <==> (b * Pow2(d) - a) % Pow2(32 - b) == 0
  {
    hide Pow2;
    Factored(b, a, b, d);
    CommonFactor(b * Pow2(d) - a, b);
  }

  /** The three pairs are the ones that satisfy the congruence. */
  lemma {:induction false} WiderSolutions(a: Word)
    ensures (1 * Pow2(1) - a) % Pow2(31) == 0 <==> a % 0x8000_0000 == 2
    ensures (5 * Pow2(3) - a) % Pow2(27) == 0 <==> a % 0x800_0000 == 40
    ensures (22 * Pow2(2) - a) % Pow2(10) == 0 <==> a % 0x400 == 88
  {
    hide Pow2;
    Powers();
    Residue(2, a, 0x8000_0000);
    Residue(40, a, 0x800_0000);
    Residue(88, a, 0x400);
  }

  lemma {:induction false} SameShiftWider(a: Word, b: Word)
    requires b < a % 32
    ensures SameShift(a, b) <==> SameLeft(a, b)
  {
    hide Pow2, SameShift, SameLeft;
    var d := a % 32 - b;
    WiderReduced(a, b, d);
    WiderSolutions(a);
    WiderPairs(a, b);
    if (b * Pow2(d) - a) % Pow2(32 - b) == 0 {
      WiderShift(a, b, d);
    }
  }

  lemma {:induction false} LowResidue(a: nat, c: nat, m: nat, d: nat)
    requires m > 0 && d > 0 && c < m
    ensures m * d > 0 && (a % (m * d) == c ==> a % m == c)
  {
    Alu.FactorBelow(m, d);
    if a % (m * d) == c {
      var k := a / (m * d);
      assert a == m * (d * k) + c by {
        assert a == (m * d) * k + c;
      }
      ModUnique(a, m, d * k, c);
    }
  }

  lemma {:induction false} WiderPairs(a: Word, b: Word)
    requires b < a % 32
    ensures SameLeft(a, b)
       <==> (b == 1 && a % 0x8000_0000 == 2) || (b == 5 && a % 0x800_0000 == 40) || (b == 22 && a % 0x400 == 88)
    ensures a % 0x8000_0000 == 2 ==> a % 32 == 2
    ensures a % 0x800_0000 == 40 ==> a % 32 == 8
    ensures a % 0x400 == 88 ==> a % 32 == 24
  {
    hide Pow2;
    LowResidue(a, 2, 32, 0x400_0000);
    LowResidue(a, 1, 32, 0x200_0000);
    LowResidue(a, 40, 64, 0x20_0000);
    LowResidue(a, 88, 128, 8);
    ModHalves(a, 32);
    Parts(a);
  }

  lemma {:induction false} Parts(a: nat)
    ensures a % 64 == 40 ==> a % 32 == 8
    ensures a % 128 == 88 ==> a % 32 == 24
  {
  }

  lemma {:induction false} SameShiftNarrower(a: Word, b: Word)
    requires a % 32 < b < 32
    ensures SameShift(a, b) <==> SameLeft(a, b)
  {
    hide Pow2;
    var s := a % 32;
    var e := b - s;
    Factored(a, b, s, e);
    assert b * Pow2(s) - a * Pow2(b) == (b - a * Pow2(e)) * Pow2(s) by {
      Opposite(a * Pow2(e) - b, Pow2(s));
    }
    CommonFactor(b - a * Pow2(e), s);
    if (b - a * Pow2(e)) % Pow2(32 - s) == 0 {
      NarrowerShift(a, s, e);
    }
    NarrowerPair(a, b);
    Powers();
  }

  lemma {:induction false} NarrowerPair(a: Word, b: Word)
    requires a % 32 < b < 32
    ensures SameLeft(a, b) <==> b == 2 && a % 0x4000_0000 == 1
    ensures a % 0x4000_0000 == 1 ==> a % 32 == 1
    ensures (2 - a * 2) % 0x8000_0000 == 0 <==> a % 0x4000_0000 == 1
  {
    hide Pow2;
    LowResidue(a, 2, 32, 0x400_0000);
    LowResidue(a, 1, 32, 0x200_0000);
    LowResidue(a, 40, 64, 0x20_0000);
    LowResidue(a, 88, 128, 8);
    Parts(a);
    ScaledResidue(1 - a, 2, 0x4000_0000);
    Residue(1, a, 0x4000_0000);
  }

  lemma {:induction false} LeftShift(a: Word, b: Word)
    ensures ApplyBinary(Lsh, a, b) == StandardBinary(Lsh, a, b) <==> Harmless(Lsh, a, b)
  {
    hide Pow2, SameLeft;
    Residue(b * Pow2(a % 32), a * Pow2(b), TWO_32);
    assert a % 32 % 32 == a % 32;
    if b >= 32 {
      Pow2Of32();
      Pow2Split(32, b - 32);
      assert a * Pow2(b) == (a * Pow2(b - 32)) * TWO_32;
      ModShift(0, a * Pow2(b - 32), TWO_32);
      CommonFactor(b, a % 32);
    } else if a % 32 == b {
      SameWidth(a, b);
      OnDiagonal(a, b);
    } else if b < a % 32 {
      SameShiftWider(a, b);
    } else {
      SameShiftNarrower(a, b);
    }
  }

  lemma {:induction false} OnDiagonal(a: Word, b: Word)
    requires a % 32 == b
    ensures SameLeft(a, b) <==> (a - b) % Pow2(32 - b) == 0
  {
    hide Pow2;
    LowResidue(a, 2, 32, 0x400_0000);
    LowResidue(a, 1, 32, 0x200_0000);
    LowResidue(a, 40, 64, 0x20_0000);
    LowResidue(a, 88, 128, 8);
    Parts(a);
  }

  /* ---- All operators ---- */

  /** An operator of the interpreter has its standard value or error exactly on harmless operands. */
  lemma {:induction false} ConformsIff(op: BinaryOp, a: Word, b: Word)
    ensures ApplyBinary(op, a, b) == StandardBinary(op, a, b) <==> Harmless(op, a, b)
  {
    match op
    case Add =>
    case Sub =>
      hide Pow2;
    case Mul =>
    case DivSigned => SignedDivision(a, b);
    case DivUnsigned => UnsignedDivision(a, b);
    case RemSigned => SignedDivision(a, b);
    case RemUnsigned => UnsignedDivision(a, b);
    case Lsh => LeftShift(a, b);
    case RshSigned => RightShiftSigned(a, b);
    case RshUnsigned => RightShiftUnsigned(a, b);
    case BitAndOp => BitwiseAgrees(op, a, b);
    case BitOrOp => BitwiseAgrees(op, a, b);
    case BitXorOp => BitwiseAgrees(op, a, b);
    case Equal =>
    case LessSigned =>
    case LessUnsigned =>
  }

  /** `10 3 op` with the operators that have their operands the wrong way round: what it leaves and what it
      should leave. */
  lemma {:induction false} ReversedUnsigned()
    ensures ApplyBinary(Sub, 10, 3) == Value(0xffff_fff9) && StandardBinary(Sub, 10, 3) == Value(7)
    ensures ApplyBinary(DivUnsigned, 10, 3) == Value(0) && StandardBinary(DivUnsigned, 10, 3) == Value(3)
    ensures ApplyBinary(RemUnsigned, 10, 3) == Value(3) && StandardBinary(RemUnsigned, 10, 3) == Value(1)
    ensures ApplyBinary(LessUnsigned, 10, 3) == Value(1) && StandardBinary(LessUnsigned, 10, 3) == Value(0)
  {
    hide Pow2, Bitwise, WordOf;
  }

  lemma {:induction false} ReversedSigned()
    ensures ApplyBinary(DivSigned, 10, 3) == Value(0) && StandardBinary(DivSigned, 10, 3) == Value(3)
    ensures ApplyBinary(RemSigned, 10, 3) == Value(3) && StandardBinary(RemSigned, 10, 3) == Value(1)
    ensures ApplyBinary(LessSigned, 10, 3) == Value(1) && StandardBinary(LessSigned, 10, 3) == Value(0)
  {
    hide Pow2, Bitwise, WordOf;
  }

  lemma {:induction false} ReversedShifts()
    ensures ApplyBinary(Lsh, 10, 3) == Value(3072) && StandardBinary(Lsh, 10, 3) == Value(80)
    ensures ApplyBinary(RshUnsigned, 10, 3) == Value(0) && StandardBinary(RshUnsigned, 10, 3) == Value(1)
    ensures ApplyBinary(RshSigned, 10, 3) == Value(0) && StandardBinary(RshSigned, 10, 3) == Value(1)
  {
    hide Pow2;
    Powers();
  }
}
