/** The arithmetic and branch units (lib/core/alu.cpp) and the laws of the M extension. */
module Alu {
  import opened Words

  datatype AluOp =
    | Add | Sub | Sll | Srl | Sra | Slt | Sltu | AndOp | OrOp | XorOp
    | Mul | Mulh | Mulhsu | Mulhu | Div | Divu | Rem | Remu
    | CzeroEqz | CzeroNez

  datatype BranchOp = NoBranch | Eq | Ne | Lt | Ge | Ltu | Geu

  function ShiftLeft(x: Word, amount: Word): Word {
    Wrap(x * Pow2(amount % 32))
  }

  function ShiftRight(x: Word, amount: Word): Word {
    Wrap(x / Pow2(amount % 32))
  }

  /** Arithmetic shift: floor division of the signed value. */
  function ShiftRightSigned(x: Word, amount: Word): Word {
    Wrap(Signed(x) / Pow2(amount % 32))
  }

  function MulLow(x: Word, y: Word): Word {
    Wrap(x * y)
  }

  function MulHighUnsigned(x: Word, y: Word): Word {
    Wrap(x * y / TWO_32)
  }

  /** As written, `mulh` zero-extends both operands. */
  function MulHigh(x: Word, y: Word): Word {
    Wrap(x * y / TWO_32)
  }

  /** As written, `mulhsu` zero-extends both operands. */
  function MulHighSignedUnsigned(x: Word, y: Word): Word {
    Wrap(x * y / TWO_32)
  }

  function DivSigned(x: Word, y: Word): Word {
    if y == 0 then 0xffff_ffff
    else if x == 0x8000_0000 && y == 0xffff_ffff then x
    else Wrap(TruncDiv(Signed(x), Signed(y)))
  }

  function DivUnsigned(x: Word, y: Word): Word {
    if y == 0 then 0xffff_ffff else Wrap(x / y)
  }

  function RemSigned(x: Word, y: Word): Word {
    if y == 0 then x
    else if x == 0x8000_0000 && y == 0xffff_ffff then 0
    else Wrap(TruncRem(Signed(x), Signed(y)))
  }

  function RemUnsigned(x: Word, y: Word): Word {
    if y == 0 then x else Wrap(x % y)
  }

  function Compute(op: AluOp, x: Word, y: Word): Word {
    match op
    case Add => Wrap(x + y)
    case Sub => Wrap(x - y)
    case Sll => ShiftLeft(x, y)
    case Srl => ShiftRight(x, y)
    case Sra => ShiftRightSigned(x, y)
    case Slt => if Signed(x) < Signed(y) then 1 else 0
    case Sltu => if x < y then 1 else 0
    case AndOp => BitAnd(x, y)
    case OrOp => BitOr(x, y)
    case XorOp => BitXor(x, y)
    case Mul => MulLow(x, y)
    case Mulh => MulHigh(x, y)
    case Mulhsu => MulHighSignedUnsigned(x, y)
    case Mulhu => MulHighUnsigned(x, y)
    case Div => DivSigned(x, y)
    case Divu => DivUnsigned(x, y)
    case Rem => RemSigned(x, y)
    case Remu => RemUnsigned(x, y)
    case CzeroEqz => if y == 0 then 0 else x
    case CzeroNez => if y != 0 then 0 else x
  }

  predicate Taken(op: BranchOp, x: Word, y: Word) {
    match op
    case NoBranch => false
    case Eq => x == y
    case Ne => x != y
    case Lt => Signed(x) < Signed(y)
    case Ge => !(Signed(x) < Signed(y))
    case Ltu => x < y
    case Geu => !(x < y)
  }

  /* ---- Laws ---- */

  /** Truncating division: the remainder is smaller than the divisor and has the dividend's sign. */
  lemma {:induction false} TruncRemBounds(a: int, b: int)
    requires b != 0
    ensures -Abs(b) < TruncRem(a, b) < Abs(b)
    ensures TruncRem(a, b) > 0 ==> a > 0
    ensures TruncRem(a, b) < 0 ==> a < 0
  {
    TruncDivIs(a, b);
    TruncRemIs(a, b, Abs(a) / Abs(b), Abs(a) % Abs(b));
  }

  lemma {:induction false} TruncDivIs(a: int, b: int)
    requires b != 0
    ensures TruncDiv(a, b) == if (a >= 0) == (b > 0) then Abs(a) / Abs(b) else -(Abs(a) / Abs(b))
    ensures Abs(a) == Abs(b) * (Abs(a) / Abs(b)) + Abs(a) % Abs(b) && 0 <= Abs(a) % Abs(b) < Abs(b)
  {
  }

  lemma {:induction false} TruncRemIs(a: int, b: int, q: int, r: int)
    requires b != 0 && Abs(a) == Abs(b) * q + r && 0 <= r < Abs(b)
    requires TruncDiv(a, b) == if (a >= 0) == (b > 0) then q else -q
    ensures -Abs(b) < TruncRem(a, b) < Abs(b)
    ensures TruncRem(a, b) > 0 ==> a > 0
    ensures TruncRem(a, b) < 0 ==> a < 0
  {
    SignedMultiple(a >= 0, b, q);
    assert TruncRem(a, b) == if a >= 0 then r else -r;
    assert r > 0 && a >= 0 ==> a > 0 by {
      if a == 0 {
        MultipleGrows(Abs(b), q);
      }
    }
  }

  lemma {:induction false} SignedMultiple(positive: bool, b: int, q: int)
    ensures (if positive == (b > 0) then q else -q) * b == if positive then Abs(b) * q else -(Abs(b) * q)
  {
  }

  function Abs(x: int): int {
    if x < 0 then -x else x
  }

  /** `Wrap` is a ring homomorphism. */
  lemma {:induction false} WrapLinear(q: int, b: int, y: Word, r: int)
    requires Wrap(b) == y
    ensures Wrap(Wrap(q) * y + Wrap(r)) == Wrap(q * b + r)
  {
    var kq, kb, kr := q / TWO_32, b / TWO_32, r / TWO_32;
    assert q == Wrap(q) + kq * TWO_32 && b == y + kb * TWO_32 && r == Wrap(r) + kr * TWO_32;
    var k := kq * b + Wrap(q) * kb + kr;
    assert q * b == Wrap(q) * y + (Wrap(q) * kb + kq * b) * TWO_32 by {
      assert q * b == Wrap(q) * b + (kq * TWO_32) * b;
      assert Wrap(q) * b == Wrap(q) * y + Wrap(q) * (kb * TWO_32);
      assert (kq * TWO_32) * b == (kq * b) * TWO_32;
      assert Wrap(q) * (kb * TWO_32) == (Wrap(q) * kb) * TWO_32;
    }
    assert q * b + r == (Wrap(q) * y + Wrap(r)) + k * TWO_32;
    ModShift(Wrap(q) * y + Wrap(r), k, TWO_32);
  }

  /** For every pair of words, including a zero divisor and the overflow pair: quotient times divisor
      plus remainder is the dividend modulo 2^32. */
  lemma {:induction false} DivRemSigned(x: Word, y: Word)
    ensures Wrap(DivSigned(x, y) * y + RemSigned(x, y)) == x
  {
    if y == 0 {
    } else if x == 0x8000_0000 && y == 0xffff_ffff {
    } else {
      TruncIdentity(Signed(x), Signed(y));
      Recompose(x, y, TruncDiv(Signed(x), Signed(y)), TruncRem(Signed(x), Signed(y)));
    }
  }

  lemma {:induction false} TruncIdentity(a: int, b: int)
    requires b != 0
    ensures TruncDiv(a, b) * b + TruncRem(a, b) == a
  {
  }

  lemma {:induction false} Recompose(x: Word, y: Word, q: int, r: int)
    requires q * Signed(y) + r == Signed(x)
    ensures Wrap(Wrap(q) * y + Wrap(r)) == x
  {
    WrapLinear(q, Signed(y), y, r);
  }

  lemma {:induction false} RemSignedBounds(x: Word, y: Word)
    requires y != 0
    ensures -Abs(Signed(y)) < Signed(RemSigned(x, y)) < Abs(Signed(y))
    ensures Signed(RemSigned(x, y)) > 0 ==> Signed(x) > 0
    ensures Signed(RemSigned(x, y)) < 0 ==> Signed(x) < 0
  {
    if !(x == 0x8000_0000 && y == 0xffff_ffff) {
      TruncRemBounds(Signed(x), Signed(y));
    }
  }

  lemma {:induction false} DivRemUnsigned(x: Word, y: Word)
    ensures Wrap(DivUnsigned(x, y) * y + RemUnsigned(x, y)) == x
    ensures y != 0 ==> DivUnsigned(x, y) * y + RemUnsigned(x, y) == x && RemUnsigned(x, y) < y
  {
    if y != 0 {
      QuotientBelow(x, y);
      Commute(x / y, y);
    }
  }

  lemma {:induction false} Commute(q: int, y: int)
    ensures q * y == y * q
  {
  }

  lemma {:induction false} QuotientBelow(x: nat, y: nat)
    requires y != 0
    ensures 0 <= x / y <= x
  {
    var q, r: int := x / y, x % y;
    assert x == y * q + r && 0 <= r < y;
    MultipleGrows(y, q);
    FactorBelow(y, q);
  }

  lemma {:induction false} FactorBelow(y: int, q: int)
    requires y >= 1 && q >= 0
    ensures q <= y * q
  {
    MultipleGrows(q + 1, y);
    assert y * (q + 1) == y * q + y;
    if q > 0 {
      MultipleGrows(q, y);
    }
  }

  /** The two halves hold the exact 64-bit unsigned product. */
  lemma {:induction false} MulUnsignedExact(x: Word, y: Word)
    ensures MulHighUnsigned(x, y) * TWO_32 + MulLow(x, y) == x * y
  {
    ProductBelow(x, y);
  }

  lemma {:induction false} ProductBelow(x: Word, y: Word)
    ensures 0 <= x * y < TWO_64
  {
    NonNegative(x, y);
    NonNegative(TWO_32 - x, y);
    assert (TWO_32 - x) * y == TWO_32 * y - x * y;
  }

  lemma {:induction false} NonNegative(a: int, b: int)
    requires a >= 0 && b >= 0
    ensures a * b >= 0
  {
  }

  /** The high word that the ISA prescribes for a product of the extended operands `a` and `b`. */
  function HighWord(a: int, b: int): Word {
    Wrap(a * b / TWO_32)
  }

  /** `mulh` meets the ISA exactly when the two sign corrections cancel: for two non-negative operands, for a
      zero, and for the most negative number times itself. */
  lemma {:induction false} MulHighAgrees(x: Word, y: Word)
    ensures MulHigh(x, y) == HighWord(Signed(x), Signed(y))
       <==> (x < 0x8000_0000 && y < 0x8000_0000) || x == 0 || y == 0
            || x == y == 0x8000_0000
  {
    var a, b := if x < 0x8000_0000 then 0 else 1, if y < 0x8000_0000 then 0 else 1;
    var shift := a * b * TWO_32 - a * y - b * x;
    assert Signed(x) * Signed(y) == x * y + shift * TWO_32 by {
      SignedProduct(x, y, a, b);
    }
    HighWordShift(x * y, shift);
    WrapSameIff(x * y / TWO_32, shift);
    CorrectionsCancel(x, y);
  }

  lemma {:induction false} CorrectionsCancel(x: Word, y: Word)
    ensures y % TWO_32 == 0 <==> y == 0
    ensures (0 - y) % TWO_32 == 0 <==> y == 0
    ensures (0 - x) % TWO_32 == 0 <==> x == 0
    ensures x >= 0x8000_0000 && y >= 0x8000_0000
            ==> ((TWO_32 - y - x) % TWO_32 == 0 <==> x == y == 0x8000_0000)
  {
  }

  /** `mulhsu` meets the ISA exactly when its first operand is non-negative or the second is zero. */
  lemma {:induction false} MulHighSignedUnsignedAgrees(x: Word, y: Word)
    ensures MulHighSignedUnsigned(x, y) == HighWord(Signed(x), y) <==> x < 0x8000_0000 || y == 0
  {
    var shift: int := if x < 0x8000_0000 then 0 else 0 - y;
    assert Signed(x) * y == x * y + shift * TWO_32;
    HighWordShift(x * y, shift);
    WrapSameIff(x * y / TWO_32, shift);
  }

  lemma {:induction false} SignedProduct(x: int, y: int, a: int, b: int)
    ensures (x - a * TWO_32) * (y - b * TWO_32) == x * y + (a * b * TWO_32 - a * y - b * x) * TWO_32
  {
    assert (x - a * TWO_32) * (y - b * TWO_32) == x * (y - b * TWO_32) - (a * TWO_32) * (y - b * TWO_32);
    assert x * (b * TWO_32) == (b * x) * TWO_32;
    assert (a * TWO_32) * y == (a * y) * TWO_32;
    assert (a * TWO_32) * (b * TWO_32) == (a * b * TWO_32) * TWO_32;
  }

  lemma {:induction false} HighWordShift(p: int, k: int)
    ensures (p + k * TWO_32) / TWO_32 == p / TWO_32 + k
  {
  }

  lemma {:induction false} WrapSameIff(x: int, k: int)
    ensures Wrap(x) == Wrap(x + k) <==> k % TWO_32 == 0
  {
  }
}
