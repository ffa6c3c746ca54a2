/** Control and status registers (lib/core/csr.cpp, lib/include/core/csr.hpp). */
module Csr {
  import opened Words
  import opened Decode

  datatype CsrFile = CsrFile(
    mvendorid: Word, marchid: Word, mimpid: Word, mhartid: Word, mconfigptr: Word,
    misa: Word, mscratch: Word, mcycle: DWord, minstret: DWord,
    mstatus: Word, mstatush: Word, mepc: Word, mcause: Word, mtval: Word,
    mip: Word, mie: Word, mtvec: Word
  )

  const RESET := CsrFile(0, 0, 0, 0, 0, 0x4000_1100, 0, 0, 0, 0x1800, 0, 0, 0, 0, 0, 0, 0)

  const TIMER_BIT := 0x80

  /* ---- Fields of mstatus, mip, mie and mtvec ---- */

  predicate MieBit(mstatus: Word) { (mstatus / 8) % 2 == 1 }

  predicate MpieBit(mstatus: Word) { (mstatus / 0x80) % 2 == 1 }

  function MppField(mstatus: Word): Mode { (mstatus / 0x800) % 4 }

  function SetMie(mstatus: Word, b: bool): Word {
    mstatus - ((mstatus / 8) % 2) * 8 + if b then 8 else 0
  }

  function SetMpie(mstatus: Word, b: bool): Word {
    mstatus - ((mstatus / 0x80) % 2) * 0x80 + if b then 0x80 else 0
  }

  function SetMpp(mstatus: Word, mode: Mode): Word {
    mstatus - MppField(mstatus) * 0x800 + mode * 0x800
  }

  type Mode = c: int | 0 <= c < 4

  /** The word with the given mie, mpie and mpp. */
  function StatusWord(mie: bool, mpie: bool, mpp: Mode): Word {
    (if mie then 8 else 0) + (if mpie then 0x80 else 0) + mpp * 0x800
  }

  /** `force_legal`: only mie, mpie and mpp survive. */
  function Legalised(mstatus: Word): Word {
    StatusWord(MieBit(mstatus), MpieBit(mstatus), MppField(mstatus))
  }

  lemma {:induction false} StatusWordFields(a: bool, b: bool, c: Mode)
    ensures var w := StatusWord(a, b, c);
            && MieBit(w) == a && MpieBit(w) == b && MppField(w) == c
            && (forall x: bool :: SetMie(w, x) == StatusWord(x, b, c))
            && (forall x: bool :: SetMpie(w, x) == StatusWord(a, x, c))
            && (forall x: Mode :: SetMpp(w, x) == StatusWord(a, b, x))
  {
    if c == 0 {
    } else if c == 1 {
    } else if c == 2 {
    } else {
      assert c == 3;
    }
  }

  /** mstatus on trap entry: mie moves to mpie and is cleared, mpp becomes machine mode. */
  function TrapStatus(mstatus: Word): Word {
    SetMpp(SetMie(SetMpie(mstatus, MieBit(mstatus)), false), 3)
  }

  predicate TimerBit(w: Word) { (w / TIMER_BIT) % 2 == 1 }

  function RaiseTimer(mip: Word): Word {
    if TimerBit(mip) then mip else mip + TIMER_BIT
  }

  /* ---- Masked access ---- */

  function MaskedWrite(prev: Word, mask: Word, value: Word): Word {
    BitOr(BitAnd(prev, BitNot(mask)), BitAnd(value, mask))
  }

  /** Each bit of the result is the new bit where the mask is set and the old bit elsewhere. */
  lemma {:induction false} MaskedWriteBit(prev: Word, mask: Word, value: Word, k: nat)
    requires k < 32
    ensures Bit(MaskedWrite(prev, mask, value), k) == if Bit(mask, k) then Bit(value, k) else Bit(prev, k)
  {
    hide Bit, Bitwise;
    Pow2Of32();
    BitwiseBit(32, And, prev, BitNot(mask), k);
    BitwiseBit(32, And, value, mask, k);
    BitwiseBit(32, Or, BitAnd(prev, BitNot(mask)), BitAnd(value, mask), k);
    ComplementBit(32, mask, k);
  }

  lemma {:induction false} BitOfZero(k: nat)
    ensures !Bit(0, k)
  {
    if k != 0 {
      BitOfZero(k - 1);
    }
  }

  lemma {:induction false} EmptyMask(prev: Word, value: Word)
    ensures MaskedWrite(prev, 0, value) == prev
  {
    hide Bit, MaskedWrite;
    Pow2Of32();
    forall k: nat | k < 32
      ensures Bit(MaskedWrite(prev, 0, value), k) == Bit(prev, k)
    {
      MaskedWriteBit(prev, 0, value, k);
      BitOfZero(k);
    }
    BitsDetermine(32, MaskedWrite(prev, 0, value), prev);
  }

  lemma {:induction false} FullMask(prev: Word, value: Word)
    ensures MaskedWrite(prev, 0xffff_ffff, value) == value
  {
    hide Bit, MaskedWrite;
    Pow2Of32();
    forall k: nat | k < 32
      ensures Bit(MaskedWrite(prev, 0xffff_ffff, value), k) == Bit(value, k)
    {
      MaskedWriteBit(prev, 0xffff_ffff, value, k);
      BitOfZero(k);
      ComplementBit(32, 0, k);
    }
    BitsDetermine(32, MaskedWrite(prev, 0xffff_ffff, value), value);
  }

  function LowHalf(d: DWord): Word { d % TWO_32 }

  function HighHalf(d: DWord): Word { d / TWO_32 }

  function Combine(low: Word, high: Word): DWord { high * TWO_32 + low }

  function Get(f: CsrFile, a: CsrAddress): Option<Word> {
    if a == 0x300 then Some(f.mstatus)
    else if a == 0x301 then Some(f.misa)
    else if a == 0x304 then Some(f.mie)
    else if a == 0x305 then Some(f.mtvec)
    else if a == 0x310 then Some(f.mstatush)
    else if a == 0x340 then Some(f.mscratch)
    else if a == 0x341 then Some(f.mepc)
    else if a == 0x342 then Some(f.mcause)
    else if a == 0x343 then Some(f.mtval)
    else if a == 0x344 then Some(f.mip)
    else if a == 0xB00 then Some(LowHalf(f.mcycle))
    else if a == 0xB02 then Some(LowHalf(f.minstret))
    else if a == 0xB80 then Some(HighHalf(f.mcycle))
    else if a == 0xB82 then Some(HighHalf(f.minstret))
    else if a == 0xF11 then Some(f.mvendorid)
    else if a == 0xF12 then Some(f.marchid)
    else if a == 0xF13 then Some(f.mimpid)
    else if a == 0xF14 then Some(f.mhartid)
    else if a == 0xF15 then Some(f.mconfigptr)
    else None
  }

  function Put(f: CsrFile, a: CsrAddress, w: Word): CsrFile {
    if a == 0x300 then f.(mstatus := Legalised(w), mstatush := 0)
    else if a == 0x301 then f.(misa := w)
    else if a == 0x304 then f.(mie := w)
    else if a == 0x305 then f.(mtvec := w)
    else if a == 0x310 then f.(mstatus := Legalised(f.mstatus), mstatush := 0)
    else if a == 0x340 then f.(mscratch := w)
    else if a == 0x341 then f.(mepc := w)
    else if a == 0x342 then f.(mcause := w)
    else if a == 0x343 then f.(mtval := w)
    else if a == 0x344 then f.(mip := w)
    else if a == 0xB00 then f.(mcycle := Combine(w, HighHalf(f.mcycle)))
    else if a == 0xB02 then f.(minstret := Combine(w, HighHalf(f.minstret)))
    else if a == 0xB80 then f.(mcycle := Combine(LowHalf(f.mcycle), w))
    else if a == 0xB82 then f.(minstret := Combine(LowHalf(f.minstret), w))
    else if a == 0xF11 then f.(mvendorid := w)
    else if a == 0xF12 then f.(marchid := w)
    else if a == 0xF13 then f.(mimpid := w)
    else if a == 0xF14 then f.(mhartid := w)
    else if a == 0xF15 then f.(mconfigptr := w)
    else f
  }

  datatype CsrError = WriteReadonly | NotExists

  function WriteMask(info: CsrInfo): Word {
    match info.mode
    case NoWrite => 0
    case Overwrite => 0xffff_ffff
    case _ => info.value
  }

  function WriteValue(info: CsrInfo): Word {
    match info.mode
    case Overwrite => info.value
    case SetBits => 0xffff_ffff
    case _ => 0
  }

  predicate Writable(a: CsrAddress) { a / 0x400 != 3 }

  predicate IsStatus(a: CsrAddress) { a == 0x300 || a == 0x310 }

  /** `CSR_module::operator()`. An access to mstatus returns the value after the write. */
  function AccessCsr(f: CsrFile, info: CsrInfo): (CsrFile, Result<Word, CsrError>) {
    var mask := WriteMask(info);
    if !Writable(info.address) && mask != 0 then (f, Err(WriteReadonly))
    else if !info.read && info.mode == NoWrite then (f, Ok(0))
    else
      match Get(f, info.address)
      case None => (f, Err(NotExists))
      case Some(prev) =>
        var after := Put(f, info.address, MaskedWrite(prev, mask, WriteValue(info)));
        (after, Ok(if info.address == 0x300 then after.mstatus
                   else if info.address == 0x310 then after.mstatush
                   else prev))
  }

  function Ticked(f: CsrFile): CsrFile {
    f.(mcycle := (f.mcycle + 1) % TWO_64, minstret := (f.minstret + 1) % TWO_64)
  }

  /* ---- The module as an object ---- */

  class CsrModule {
    var mvendorid: Word
    var marchid: Word
    var mimpid: Word
    var mhartid: Word
    var mconfigptr: Word
    var misa: Word
    var mscratch: Word
    var mcycle: DWord
    var minstret: DWord
    var mstatus: Word
    var mstatush: Word
    var mepc: Word
    var mcause: Word
    var mtval: Word
    var mip: Word
    var mie: Word
    var mtvec: Word

    ghost function File(): CsrFile
      reads this
    {
      CsrFile(mvendorid, marchid, mimpid, mhartid, mconfigptr, misa, mscratch, mcycle, minstret,
              mstatus, mstatush, mepc, mcause, mtval, mip, mie, mtvec)
    }

    constructor ()
      ensures File() == RESET
    {
      mvendorid, marchid, mimpid, mhartid, mconfigptr := 0, 0, 0, 0, 0;
      misa, mscratch, mcycle, minstret := 0x4000_1100, 0, 0, 0;
      mstatus, mstatush, mepc, mcause, mtval := 0x1800, 0, 0, 0, 0;
      mip, mie, mtvec := 0, 0, 0;
    }

    method ForceLegal()
      modifies this`mstatus, this`mstatush
      ensures mstatus == Legalised(old(mstatus)) && mstatush == 0
    {
      mstatus := Legalised(mstatus);
      mstatush := 0;
    }

    method Access(info: CsrInfo) returns (r: Result<Word, CsrError>)
      modifies this
      ensures (File(), r) == AccessCsr(old(File()), info)
    {
      hide MaskedWrite, Legalised, Combine, LowHalf, HighHalf;
      var value, mask := WriteValue(info), WriteMask(info);
      if !Writable(info.address) && mask != 0 {
        return Err(WriteReadonly);
      }
      if !info.read && info.mode == NoWrite {
        return Ok(0);
      }
      var prev: Word;
      match info.address {
        case 0x300 =>
          mstatus := MaskedWrite(mstatus, mask, value);
          ForceLegal();
          return Ok(mstatus);
        case 0x310 =>
          mstatush := MaskedWrite(mstatush, mask, value);
          ForceLegal();
          return Ok(mstatush);
        case 0x301 => prev := misa; misa := MaskedWrite(prev, mask, value);
        case 0x304 => prev := mie; mie := MaskedWrite(prev, mask, value);
        case 0x305 => prev := mtvec; mtvec := MaskedWrite(prev, mask, value);
        case 0x340 => prev := mscratch; mscratch := MaskedWrite(prev, mask, value);
        case 0x341 => prev := mepc; mepc := MaskedWrite(prev, mask, value);
        case 0x342 => prev := mcause; mcause := MaskedWrite(prev, mask, value);
        case 0x343 => prev := mtval; mtval := MaskedWrite(prev, mask, value);
        case 0x344 => prev := mip; mip := MaskedWrite(prev, mask, value);
        case 0xB00 => prev := LowHalf(mcycle); mcycle := Combine(MaskedWrite(prev, mask, value), HighHalf(mcycle));
        case 0xB02 =>
          prev := LowHalf(minstret);
          minstret := Combine(MaskedWrite(prev, mask, value), HighHalf(minstret));
        case 0xB80 => prev := HighHalf(mcycle); mcycle := Combine(LowHalf(mcycle), MaskedWrite(prev, mask, value));
        case 0xB82 =>
          prev := HighHalf(minstret);
          minstret := Combine(LowHalf(minstret), MaskedWrite(prev, mask, value));
        case 0xF11 => prev := mvendorid; mvendorid := MaskedWrite(prev, mask, value);
        case 0xF12 => prev := marchid; marchid := MaskedWrite(prev, mask, value);
        case 0xF13 => prev := mimpid; mimpid := MaskedWrite(prev, mask, value);
        case 0xF14 => prev := mhartid; mhartid := MaskedWrite(prev, mask, value);
        case 0xF15 => prev := mconfigptr; mconfigptr := MaskedWrite(prev, mask, value);
        case _ => return Err(NotExists);
      }
      return Ok(prev);
    }

    /** The CSR part of trap entry. */
    method EnterTrap(epc: Word, cause: Word, value: Word)
      modifies this`mstatus, this`mepc, this`mcause, this`mtval
      ensures File() == old(File()).(mstatus := TrapStatus(old(mstatus)), mepc := epc, mcause := cause, mtval := value)
    {
      hide SetMie, SetMpie, SetMpp, MieBit;
      var enabled := MieBit(mstatus);
      mstatus := SetMpie(mstatus, enabled);
      mstatus := SetMie(mstatus, false);
      mstatus := SetMpp(mstatus, 3);
      mepc := epc;
      mcause := cause;
      mtval := value;
    }

    method Tick()
      modifies this`mcycle, this`minstret
      ensures File() == Ticked(old(File()))
    {
      mcycle := (mcycle + 1) % TWO_64;
      minstret := (minstret + 1) % TWO_64;
    }
  }

  /* ---- What accesses keep ---- */

  /** Only mie, mpie and mpp can be set in mstatus, and the identification registers are fixed. */
  predicate Legal(f: CsrFile) {
    && f.mstatus == Legalised(f.mstatus) && f.mstatush == 0
    && f.mvendorid == f.marchid == f.mimpid == f.mhartid == f.mconfigptr == 0
  }

  lemma {:induction false} LegalisedTwice(m: Word)
    ensures Legalised(Legalised(m)) == Legalised(m)
  {
    hide StatusWord, MieBit, MpieBit, MppField;
    StatusWordFields(MieBit(m), MpieBit(m), MppField(m));
  }

  lemma {:induction false} AccessLegal(f: CsrFile, info: CsrInfo)
    requires Legal(f)
    ensures Legal(AccessCsr(f, info).0)
  {
    hide MaskedWrite, Combine, LowHalf, HighHalf, Legalised, RESET;
    var mask, a := WriteMask(info), info.address;
    if Get(f, a).Some? {
      var prev := Get(f, a).value;
      LegalisedTwice(MaskedWrite(prev, mask, WriteValue(info)));
      LegalisedTwice(f.mstatus);
      if !Writable(a) {
        EmptyMask(prev, WriteValue(info));
      }
    }
  }

  /** The registers a trap handler must leave alone are changed only by a write to them. */
  lemma {:induction false} AccessElsewhere(f: CsrFile, info: CsrInfo)
    requires Legal(f)
    ensures var g := AccessCsr(f, info).0;
            && (info.mode == NoWrite || !IsStatus(info.address) ==> g.mstatus == f.mstatus)
            && (info.mode == NoWrite || info.address != 0x341 ==> g.mepc == f.mepc)
  {
    hide MaskedWrite, Combine, LowHalf, HighHalf, Legalised;
    if Get(f, info.address).Some? && info.mode == NoWrite {
      EmptyMask(Get(f, info.address).value, 0);
    }
  }

  /** Bits 3, 7, 11 and 12: mie, mpie and mpp. */
  const LEGAL_BITS: Word := 0x1888

  lemma {:induction false} AndDouble(n: nat, x: nat, m: nat)
    ensures Bitwise(n + 1, And, x, 2 * m) == 2 * Bitwise(n, And, x / 2, m)
  {
  }

  lemma {:induction false} AndSkip(n: nat, x: nat, m: nat)
    ensures Bitwise(n + 3, And, x, 8 * m) == 8 * Bitwise(n, And, x / 8, m)
  {
    hide Bitwise;
    AndDouble(n + 2, x, 4 * m);
    AndDouble(n + 1, x / 2, 2 * m);
    AndDouble(n, x / 2 / 2, m);
    assert x / 2 / 2 / 2 == x / 8;
  }

  lemma {:induction false} AndOne(n: nat, x: nat, m: nat)
    ensures Bitwise(n + 1, And, x, 2 * m + 1) == 2 * Bitwise(n, And, x / 2, m) + x % 2
  {
  }

  /** Four bits of the mask, of which the highest is set. */
  lemma {:induction false} AndField(n: nat, x: nat, m: nat)
    ensures Bitwise(n + 4, And, x, 16 * m + 8) == 16 * Bitwise(n, And, x / 16, m) + 8 * (x / 8 % 2)
  {
    hide Bitwise;
    AndSkip(n + 1, x, 2 * m + 1);
    AndOne(n, x / 8, m);
    assert x / 8 / 2 == x / 16;
  }

  /** A word is masked field by field; `a`, `b` and `c` are what is left of it. */
  lemma {:induction false} MaskParts(w: Word, a: nat, b: nat, c: nat)
    requires a == w / 16 && b == a / 16 && c == b / 16
    ensures BitAnd(w, LEGAL_BITS) == 8 * (w / 8 % 2) + 0x80 * (a / 8 % 2) + 0x800 * (b / 8 % 2) + 0x1000 * (c % 2)
  {
    hide Bitwise;
    TopBit(c);
    HighField(b, c);
    MiddleField(a, b);
    AndField(28, w, 0x188);
  }

  lemma {:induction false} TopBit(c: nat)
    ensures Bitwise(20, And, c, 1) == c % 2
  {
    AndOne(19, c, 0);
    AndZero(19, c / 2);
  }

  lemma {:induction false} HighField(b: nat, c: nat)
    requires c == b / 16
    ensures Bitwise(24, And, b, 0x18) == 16 * Bitwise(20, And, c, 1) + 8 * (b / 8 % 2)
  {
    hide Bitwise;
    AndField(20, b, 1);
  }

  lemma {:induction false} MiddleField(a: nat, b: nat)
    requires b == a / 16
    ensures Bitwise(28, And, a, 0x188) == 16 * Bitwise(24, And, b, 0x18) + 8 * (a / 8 % 2)
  {
    hide Bitwise;
    AndField(24, a, 0x18);
  }

  /** `force_legal` masks the word with these bits. */
  lemma {:induction false} LegalisedIsMask(w: Word)
    ensures Legalised(w) == BitAnd(w, LEGAL_BITS)
  {
    hide BitAnd;
    Nested(w);
    MaskParts(w, w / 16, w / 0x100, w / 0x1000);
    TwoBits(w / 0x800);
  }

  lemma {:induction false} Nested(w: nat)
    ensures w / 16 / 16 == w / 0x100 && w / 0x100 / 16 == w / 0x1000 && w / 16 / 8 == w / 0x80
    ensures w / 0x100 / 8 == w / 0x800 && w / 0x800 / 2 == w / 0x1000
  {
  }

  lemma {:induction false} TwoBits(x: nat)
    ensures x % 4 == x % 2 + 2 * (x / 2 % 2)
  {
  }

  lemma {:induction false} LegalisedBit(w: Word, k: nat)
    requires k < 32
    ensures Bit(Legalised(w), k) <==> Bit(LEGAL_BITS, k) && Bit(w, k)
  {
    hide Bit, Legalised;
    LegalisedIsMask(w);
    BitwiseBit(32, And, w, LEGAL_BITS, k);
  }

  /** What an access makes of each bit: `csrrw` replaces it, `csrrs` sets it, `csrrc` clears it, and without a
      write it stays. */
  predicate WrittenBit(info: CsrInfo, was: bool, k: nat) {
    match info.mode
    case NoWrite => was
    case Overwrite => Bit(info.value, k)
    case SetBits => was || Bit(info.value, k)
    case ClearBits => was && !Bit(info.value, k)
  }

  lemma {:induction false} MaskedBits(was: Word, info: CsrInfo, k: nat)
    requires k < 32
    ensures Bit(MaskedWrite(was, WriteMask(info), WriteValue(info)), k) <==> WrittenBit(info, Bit(was, k), k)
  {
    hide MaskedWrite, Bit;
    MaskedWriteBit(was, WriteMask(info), WriteValue(info), k);
    BitOfZero(k);
    Pow2Of32();
    ComplementBit(32, 0, k);
  }

  /** For every writable register: each bit is written as the instruction says, of mstatus only the legal
      ones, and mstatush stays 0. */
  lemma {:induction false} AccessBits(f: CsrFile, info: CsrInfo, k: nat)
    requires k < 32 && Writable(info.address) && Get(f, info.address).Some?
    requires IsStatus(info.address) ==> Legal(f)
    ensures var was := Get(f, info.address).value;
            var now := Get(AccessCsr(f, info).0, info.address);
            now.Some? && (Bit(now.value, k) <==> WrittenBit(info, Bit(was, k), k)
                                                 && (info.address == 0x300 ==> Bit(LEGAL_BITS, k))
                                                 && info.address != 0x310)
  {
    hide MaskedWrite, Bit, Legalised, WrittenBit;
    var was := Get(f, info.address).value;
    var written := MaskedWrite(was, WriteMask(info), WriteValue(info));
    MaskedBits(was, info, k);
    BitOfZero(k);
    LegalisedBit(written, k);
    if !info.read && info.mode == NoWrite {
      KeptBit(f, info, k);
    } else {
      GetPut(f, info.address, written);
    }
  }

  lemma {:induction false} KeptBit(f: CsrFile, info: CsrInfo, k: nat)
    requires k < 32 && info.mode == NoWrite && Get(f, info.address).Some?
    requires IsStatus(info.address) ==> Legal(f)
    ensures var was := Bit(Get(f, info.address).value, k);
            && WrittenBit(info, was, k) == was
            && (info.address == 0x300 && was ==> Bit(LEGAL_BITS, k))
            && (info.address == 0x310 ==> !was)
  {
    hide Bit, Legalised;
    BitOfZero(k);
    LegalisedBit(f.mstatus, k);
  }

  lemma {:induction false} GetPut(f: CsrFile, a: CsrAddress, w: Word)
    requires Get(f, a).Some?
    ensures Get(Put(f, a, w), a) == Some(if a == 0x300 then Legalised(w) else if a == 0x310 then 0 else w)
  {
    hide Legalised;
  }

  lemma {:induction false} PutBack(f: CsrFile, a: CsrAddress)
    requires Legal(f) && Get(f, a).Some?
    ensures Put(f, a, Get(f, a).value) == f
  {
    hide Legalised;
  }

  /** Writing a whole register through the debugger or `csrrw` stores the value, its legal part in mstatus. */
  lemma {:induction false} OverwriteStores(f: CsrFile, a: CsrAddress, w: Word)
    requires Writable(a) && Get(f, a).Some?
    ensures Get(AccessCsr(f, CsrInfo(Overwrite, a, w, true)).0, a)
         == Some(if a == 0x300 then Legalised(w) else if a == 0x310 then 0 else w)
  {
    hide MaskedWrite, Get, Put, Legalised;
    FullMask(Get(f, a).value, w);
    GetPut(f, a, w);
  }

  /* ---- Where accesses differ from the ISA ---- */

  /** `csrrw` should return the old value. For mstatus it does so exactly if the value written, made legal, is
      the old one. */
  lemma {:induction false} StatusAnswerIff(f: CsrFile, w: Word)
    ensures AccessCsr(f, CsrInfo(Overwrite, 0x300, w, true)).1 == Ok(f.mstatus) <==> Legalised(w) == f.mstatus
  {
    hide MaskedWrite, Legalised;
    FullMask(f.mstatus, w);
  }

  /** `csrrw` from `x0` should write 0. It does not write, which comes to the same exactly if the register is
      0 already. */
  lemma {:induction false} WriteFromX0Iff(f: CsrFile, a: CsrAddress, read: bool)
    requires Legal(f) && Writable(a) && Get(f, a).Some?
    ensures AccessCsr(f, CsrInfo(NoWrite, a, 0, read)).0 == AccessCsr(f, CsrInfo(Overwrite, a, 0, read)).0
       <==> Get(f, a) == Some(0)
  {
    hide MaskedWrite, Get, Put, Legal;
    var was := Get(f, a).value;
    EmptyMask(was, 0);
    FullMask(was, 0);
    PutBack(f, a);
    GetPut(f, a, 0);
    assert Legalised(0) == 0;
  }
}
