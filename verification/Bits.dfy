/** Words given by their bits. */
module Bits {
  import opened Words

  /** The number whose bit `k` is `bit(k)`, for `k` below `n`. */
  function WordOf(n: nat, bit: nat -> bool): (r: nat)
    ensures r < Pow2(n)
  {
    if n == 0 then 0
    else (if bit(0) then 1 else 0) + 2 * WordOf(n - 1, Next(bit))
  }

  function Next(bit: nat -> bool): nat -> bool {
    (k: nat) => bit(k + 1)
  }

  function BothBits(a: Word, b: Word): nat -> bool {
    (k: nat) => Bit(a, k) && Bit(b, k)
  }

  function EitherBits(a: Word, b: Word): nat -> bool {
    (k: nat) => Bit(a, k) || Bit(b, k)
  }

  function DifferentBits(a: Word, b: Word): nat -> bool {
    (k: nat) => Bit(a, k) != Bit(b, k)
  }

  function FlippedBits(a: Word): nat -> bool {
    (k: nat) => !Bit(a, k)
  }

  function Word32(bit: nat -> bool): Word {
    Pow2Of32();
    WordOf(32, bit)
  }

  lemma {:induction false} WordOfBit(n: nat, bit: nat -> bool, k: nat)
    requires k < n
    ensures Bit(WordOf(n, bit), k) == bit(k)
  {
    var rest := WordOf(n - 1, Next(bit));
    assert WordOf(n, bit) / 2 == rest;
    if k != 0 {
      WordOfBit(n - 1, Next(bit), k - 1);
    }
  }

  lemma {:induction false} WordWithBits(w: Word, bit: nat -> bool)
    requires forall k: nat :: k < 32 ==> Bit(w, k) == bit(k)
    ensures w == Word32(bit)
  {
    hide Bit, WordOf;
    Pow2Of32();
    forall k: nat | k < 32
      ensures Bit(w, k) == Bit(Word32(bit), k)
    {
      WordOfBit(32, bit, k);
    }
    BitsDetermine(32, w, Word32(bit));
  }

  /** The bitwise operators, position by position. */
  lemma {:induction false} GatesBitByBit(a: Word, b: Word)
    ensures BitAnd(a, b) == Word32(BothBits(a, b))
    ensures BitOr(a, b) == Word32(EitherBits(a, b))
    ensures BitXor(a, b) == Word32(DifferentBits(a, b))
  {
    hide Bit, Bitwise, Word32;
    forall k: nat | k < 32
      ensures Bit(BitAnd(a, b), k) == (Bit(a, k) && Bit(b, k))
      ensures Bit(BitOr(a, b), k) == (Bit(a, k) || Bit(b, k))
      ensures Bit(BitXor(a, b), k) == (Bit(a, k) != Bit(b, k))
    {
      BitwiseBit(32, And, a, b, k);
      BitwiseBit(32, Or, a, b, k);
      BitwiseBit(32, Xor, a, b, k);
    }
    WordWithBits(BitAnd(a, b), BothBits(a, b));
    WordWithBits(BitOr(a, b), EitherBits(a, b));
    WordWithBits(BitXor(a, b), DifferentBits(a, b));
  }

  lemma {:induction false} NotBitByBit(a: Word)
    ensures BitNot(a) == Word32(FlippedBits(a))
  {
    hide Bit, Word32;
    Pow2Of32();
    forall k: nat | k < 32
      ensures Bit(BitNot(a), k) == !Bit(a, k)
    {
      ComplementBit(32, a, k);
    }
    WordWithBits(BitNot(a), FlippedBits(a));
  }
}
