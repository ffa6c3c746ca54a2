/** Fixed-width unsigned words as bounded integers, with the C++ operators that the emulator uses on them. */
module Words {

  const TWO_32 := 0x1_0000_0000
  const TWO_64 := 0x1_0000_0000_0000_0000

  type Byte = x: int | 0 <= x < 0x100
  type Word = x: int | 0 <= x < 0x1_0000_0000
  type DWord = x: int | 0 <= x < 0x1_0000_0000_0000_0000

  datatype Option<+T> = None | Some(value: T)

  datatype Result<+T, +E> = Ok(value: T) | Err(error: E)

  function Pow2(n: nat): (p: nat)
    ensures p > 0
  {
    if n == 0 then 1 else 2 * Pow2(n - 1)
  }

  lemma Pow2Split(m: nat, n: nat)
    ensures Pow2(m + n) == Pow2(m) * Pow2(n)
  {
    if m != 0 {
      Pow2Split(m - 1, n);
    }
  }

  /** Conversion to `u32`: reduction modulo 2^32. */
  function Wrap(x: int): Word {
    x % TWO_32
  }

  /** `static_cast<i32>` of a `u32`. */
  function Signed(x: Word): int {
    if x < 0x8000_0000 then x else x - TWO_32
  }

  /** Sign extension to 32 bits of the low `n` bits of `x`. */
  function SignExtend(x: nat, n: nat): Word
    requires 0 < n <= 32
  {
    var low := x % Pow2(n);
    Wrap(if low < Pow2(n - 1) then low else low - Pow2(n))
  }

  /** C++ integer division truncates toward zero. */
  function TruncDiv(a: int, b: int): int
    requires b != 0
  {
    if a >= 0 then
      if b > 0 then a / b else -(a / -b)
    else
      if b > 0 then -(-a / b) else -a / -b
  }

  function TruncRem(a: int, b: int): int
    requires b != 0
  {
    a - TruncDiv(a, b) * b
  }

  /* ---- Bitwise operators ---- */

  datatype BitOp = And | Or | Xor

  function Gate(op: BitOp, a: bool, b: bool): bool {
    match op
    case And => a && b
    case Or => a || b
    case Xor => a != b
  }

  /** Bit `k` of `x`. */
  predicate Bit(x: nat, k: nat) {
    if k == 0 then x % 2 == 1 else Bit(x / 2, k - 1)
  }

  /** `op` applied to the low `n` bits of `x` and `y`, position by position. */
  function Bitwise(n: nat, op: BitOp, x: nat, y: nat): (r: nat)
    ensures r < Pow2(n)
  {
    if n == 0 then 0
    else 2 * Bitwise(n - 1, op, x / 2, y / 2) + (if Gate(op, x % 2 == 1, y % 2 == 1) then 1 else 0)
  }

  lemma Pow2Of32()
    ensures Pow2(32) == TWO_32
  {
    assert Pow2(8) == 0x100;
    Pow2Split(8, 8);
    Pow2Split(16, 16);
  }

  function BitAnd(x: Word, y: Word): Word {
    Pow2Of32();
    Bitwise(32, And, x, y)
  }

  function BitOr(x: Word, y: Word): Word {
    Pow2Of32();
    Bitwise(32, Or, x, y)
  }

  function BitXor(x: Word, y: Word): Word {
    Pow2Of32();
    Bitwise(32, Xor, x, y)
  }

  function BitNot(x: Word): Word {
    0xffff_ffff - x
  }

  lemma {:induction false} BitwiseBit(n: nat, op: BitOp, x: nat, y: nat, k: nat)
    requires k < n
    ensures Bit(Bitwise(n, op, x, y), k) == Gate(op, Bit(x, k), Bit(y, k))
  {
    if k != 0 {
      BitwiseBit(n - 1, op, x / 2, y / 2, k - 1);
    }
  }

  /** Bit `k` is the parity of the value shifted down by `k`. */
  lemma {:induction false} BitMeaning(x: nat, k: nat)
    ensures Bit(x, k) <==> (x / Pow2(k)) % 2 == 1
  {
    if k == 0 {
      assert x / 1 == x;
    } else {
      BitMeaning(x / 2, k - 1);
      HalvesDivide(x, Pow2(k - 1));
    }
  }

  lemma {:induction false} HalvesDivide(x: nat, m: nat)
    requires m > 0
    ensures (x / 2) / m == x / (2 * m)
  {
    var q, r := (x / 2) / m, (x / 2) % m;
    assert x == 2 * (m * q + r) + x % 2;
    assert 2 * (m * q) == (2 * m) * q;
    ModUnique(x, 2 * m, q, 2 * r + x % 2);
  }

  lemma {:induction false} ComplementBit(n: nat, x: nat, k: nat)
    requires k < n && x < Pow2(n)
    ensures Bit(Pow2(n) - 1 - x, k) == !Bit(x, k)
  {
    assert (Pow2(n) - 1 - x) / 2 == Pow2(n - 1) - 1 - x / 2;
    if k != 0 {
      ComplementBit(n - 1, x / 2, k - 1);
    }
  }

  /** Words with the same bits are the same word. */
  lemma {:induction false} BitsDetermine(n: nat, x: nat, y: nat)
    requires x < Pow2(n) && y < Pow2(n)
    requires forall k: nat :: k < n ==> Bit(x, k) == Bit(y, k)
    ensures x == y
  {
    if n != 0 {
      assert Bit(x, 0) == Bit(y, 0);
      forall k: nat | k < n - 1
        ensures Bit(x / 2, k) == Bit(y / 2, k)
      {
        assert Bit(x, k + 1) == Bit(y, k + 1);
      }
      BitsDetermine(n - 1, x / 2, y / 2);
    }
  }

  /** The low `n` bits of `x`. */
  function LowBits(x: nat, n: nat): nat {
    if n == 0 then 0 else 2 * LowBits(x / 2, n - 1) + x % 2
  }

  lemma {:induction false} LowBitsMod(x: nat, n: nat)
    ensures LowBits(x, n) == x % Pow2(n)
  {
    if n != 0 {
      LowBitsMod(x / 2, n - 1);
      ModHalves(x, Pow2(n - 1));
    }
  }

  lemma {:induction false} AndLowBits(w: nat, n: nat, x: nat, mask: nat)
    requires n <= w && mask == Pow2(n) - 1
    ensures Bitwise(w, And, x, mask) == LowBits(x, n)
  {
    if n == 0 {
      AndZero(w, x);
    } else {
      var half := mask / 2;
      assert mask == 2 * half + 1 && half == Pow2(n - 1) - 1;
      AndLowBits(w - 1, n - 1, x / 2, half);
    }
  }

  /** Masking with `2^n - 1` keeps the value modulo `2^n`. */
  lemma LowMask(w: nat, n: nat, x: nat)
    requires n <= w
    ensures Bitwise(w, And, x, Pow2(n) - 1) == x % Pow2(n)
  {
    AndLowBits(w, n, x, Pow2(n) - 1);
    LowBitsMod(x, n);
  }

  lemma AndZero(w: nat, x: nat)
    ensures Bitwise(w, And, x, 0) == 0
  {
  }

  lemma ModHalves(x: nat, m: nat)
    requires m > 0
    ensures x % (2 * m) == 2 * ((x / 2) % m) + x % 2
  {
    var q, r := (x / 2) / m, (x / 2) % m;
    assert x == 2 * (m * q + r) + x % 2;
    assert x == (2 * m) * q + (2 * r + x % 2) by {
      assert 2 * (m * q) == (2 * m) * q;
    }
    ModUnique(x, 2 * m, q, 2 * r + x % 2);
  }

  lemma ModUnique(x: int, m: int, q: int, r: int)
    requires m > 0 && 0 <= r < m && x == m * q + r
    ensures x % m == r && x / m == q
  {
    assert m * (x / m - q) == r - x % m;
    MultipleGrows(m, x / m - q);
  }

  lemma MultipleGrows(m: int, d: int)
    requires m > 0
    ensures d >= 1 ==> m * d >= m
    ensures d <= -1 ==> m * d <= -m
  {
    if d >= 1 {
      assert m * (d - 1) >= 0;
    } else if d <= -1 {
      assert m * (-1 - d) >= 0;
    }
  }

  /** Adding a multiple of the modulus does not change the residue. */
  lemma ModShift(x: int, k: int, m: int)
    requires m > 0
    ensures (x + k * m) % m == x % m
  {
    assert x + k * m == m * (x / m + k) + x % m by {
      assert m * (x / m + k) == m * (x / m) + m * k;
    }
    ModUnique(x + k * m, m, x / m + k, x % m);
  }
}
