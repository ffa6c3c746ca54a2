/** Instruction words laid out as sections 2.2 and 2.3 of the RISC-V Unprivileged ISA (20191213) prescribe
    (lib/include/core/inst.hpp): the decoder takes back apart what an assembler put together. */
module Encoding {
  import opened Words
  import opened Decode
  import Alu

  type Field3 = x: int | 0 <= x < 8
  type Field5 = x: int | 0 <= x < 32
  type Field7 = x: int | 0 <= x < 128

  /** The formats share their fields: funct7, rs2, rs1, funct3, rd and the opcode, from the top down. */
  function Assembled(f7: Field7, rs2: Field5, rs1: Field5, f3: Field3, rd: Field5, opcode: Field7): Word {
    f7 * 0x200_0000 + rs2 * 0x10_0000 + rs1 * 0x8000 + f3 * 0x1000 + rd * 0x80 + opcode
  }

  lemma {:induction false} FieldsOf(f7: Field7, rs2: Field5, rs1: Field5, f3: Field3, rd: Field5, opcode: Field7)
    ensures var i := Assembled(f7, rs2, rs1, f3, rd, opcode);
            && Funct7(i) == f7 && Rs2(i) == rs2 && Rs1(i) == rs1 && Funct3(i) == f3 && Rd(i) == rd
            && i % 0x80 == opcode
            && i / 0x10_0000 == f7 * 32 + rs2
            && i / 0x1000 == f7 * 0x2000 + rs2 * 0x100 + rs1 * 8 + f3
  {
    var i := Assembled(f7, rs2, rs1, f3, rd, opcode);
    var a := f7 * 32 + rs2;
    var b := a * 32 + rs1;
    var c := b * 8 + f3;
    var d := c * 32 + rd;
    ModUnique(i, 0x80, d, opcode);
    ModUnique(d, 32, c, rd);
    ModUnique(i, 0x1000, c, rd * 0x80 + opcode);
    ModUnique(c, 8, b, f3);
    ModUnique(i, 0x8000, b, f3 * 0x1000 + rd * 0x80 + opcode);
    ModUnique(b, 32, a, rs1);
    ModUnique(i, 0x10_0000, a, rs1 * 0x8000 + f3 * 0x1000 + rd * 0x80 + opcode);
    ModUnique(a, 32, f7, rs2);
    ModUnique(i, 0x200_0000, f7, rs2 * 0x10_0000 + rs1 * 0x8000 + f3 * 0x1000 + rd * 0x80 + opcode);
  }

  /** A field of `weight` values, cut out of an offset at the given unit. Negative offsets are in two's
      complement: `/` and `%` round down. */
  function Slice(offset: int, unit: nat, weight: nat): (r: nat)
    requires unit > 0 && weight > 0
    ensures r < weight
  {
    (offset / unit) % weight
  }

  function IType(offset: int, rs1: Field5, f3: Field3, rd: Field5, opcode: Field7): Word {
    Assembled(Slice(offset, 32, 128), Slice(offset, 1, 32), rs1, f3, rd, opcode)
  }

  function SType(offset: int, rs2: Field5, rs1: Field5, f3: Field3, opcode: Field7): Word {
    Assembled(Slice(offset, 32, 128), rs2, rs1, f3, Slice(offset, 1, 32), opcode)
  }

  function BType(offset: int, rs2: Field5, rs1: Field5, f3: Field3, opcode: Field7): Word {
    Assembled(Slice(offset, 0x1000, 2) * 64 + Slice(offset, 32, 64), rs2, rs1, f3,
              Slice(offset, 2, 16) * 2 + Slice(offset, 0x800, 2), opcode)
  }

  function JType(offset: int, rd: Field5, opcode: Field7): Word {
    Assembled(Slice(offset, 0x10_0000, 2) * 64 + Slice(offset, 32, 64),
              Slice(offset, 2, 16) * 2 + Slice(offset, 0x800, 2),
              Slice(offset, 0x8000, 32), Slice(offset, 0x1000, 8), rd, opcode)
  }

  lemma {:induction false} DivideTwice(x: int, u: nat, w: nat)
    requires u > 0 && w > 0
    ensures u * w > 0 && x / (u * w) == (x / u) / w
  {
    Alu.NonNegative(u - 1, w - 1);
    assert (u - 1) * (w - 1) == u * w - u - w + 1;
    var q, r := x / u, x % u;
    var z, t := q / w, q % w;
    assert x == (u * w) * z + (u * t + r) by {
      assert u * (w * z + t) == (u * w) * z + u * t;
    }
    assert 0 <= u * t + r < u * w by {
      Alu.NonNegative(u, t);
      Alu.NonNegative(u, w - 1 - t);
      assert u * (w - 1 - t) == u * w - u - u * t;
    }
    ModUnique(x, u * w, z, u * t + r);
  }

  /** Neighbouring slices make one. */
  lemma {:induction false} SliceJoin(x: int, u: nat, w: nat, v: nat)
    requires u > 0 && w > 0 && v > 0
    ensures u * w > 0 && w * v > 0
    ensures Slice(x, u, w) + w * Slice(x, u * w, v) == Slice(x, u, w * v)
  {
    DivideTwice(x, u, w);
    DivideTwice(x / u, w, v);
    var q := x / u;
    var z, r := q / w / v, q / w % v;
    assert q == (w * v) * z + (w * r + q % w) by {
      assert q == w * (v * z + r) + q % w;
      assert w * (v * z + r) == (w * v) * z + w * r;
    }
    assert 0 <= w * r + q % w < w * v by {
      Alu.NonNegative(w, r);
      Alu.NonNegative(w, v - 1 - r);
      assert w * (v - 1 - r) == w * v - w - w * r;
    }
    ModUnique(q, w * v, z, w * r + q % w);
  }

  lemma {:induction false} ExtendMod(offset: int, half: nat)
    requires 0 < half < 0x8000_0000 && 0 - half <= offset < half
    ensures Extend(offset % (2 * half), 2 * half) == Wrap(offset)
  {
    ModUnique(offset, 2 * half, if offset < 0 then -1 else 0, if offset < 0 then offset + 2 * half else offset);
  }

  /** Every immediate comes out as the offset that was put in, sign-extended to 32 bits. */
  lemma {:induction false} ITypeImmediate(offset: int, rs1: Field5, f3: Field3, rd: Field5, opcode: Field7)
    requires -0x800 <= offset < 0x800
    ensures ImmI(IType(offset, rs1, f3, rd, opcode)) == Wrap(offset)
  {
    hide Assembled, Funct7, Rs1, Rs2, Rd, Funct3, Extend;
    FieldsOf(Slice(offset, 32, 128), Slice(offset, 1, 32), rs1, f3, rd, opcode);
    SliceJoin(offset, 1, 32, 128);
    ExtendMod(offset, 0x800);
  }

  lemma {:induction false} STypeImmediate(offset: int, rs2: Field5, rs1: Field5, f3: Field3, opcode: Field7)
    requires -0x800 <= offset < 0x800
    ensures ImmS(SType(offset, rs2, rs1, f3, opcode)) == Wrap(offset)
  {
    hide Assembled, Funct7, Rs1, Rs2, Rd, Funct3, Extend;
    FieldsOf(Slice(offset, 32, 128), rs2, rs1, f3, Slice(offset, 1, 32), opcode);
    SliceJoin(offset, 1, 32, 128);
    ExtendMod(offset, 0x800);
  }

  /** Cutting a field of seven or five bits in two. */
  lemma {:induction false} Cut(i: Word, f7: Field7, b: nat, low: nat)
    requires Funct7(i) == f7 == b * 64 + low && b < 2 && low < 64
    ensures i / 0x8000_0000 == b && (i / 0x200_0000) % 64 == low
  {
    DivideTwice(i, 0x200_0000, 64);
    ModUnique(f7, 64, b, low);
  }

  lemma {:induction false} CutLow(i: Word, unit: nat, rest: nat, five: Field5, high: nat, b: nat)
    requires unit > 0 && i / unit == rest * 32 + five && five == high * 2 + b && b < 2 && high < 16
    ensures (i / unit) % 2 == b && unit * 2 > 0 && (i / (unit * 2)) % 16 == high
  {
    DivideTwice(i, unit, 2);
    ModUnique(i / unit, 2, rest * 16 + high, b);
    ModUnique(rest * 16 + high, 16, rest, high);
  }

  /** The fields of a B-type word as `ImmB` cuts them out. */
  lemma {:induction false} FieldsOfB(i: Word, b: nat, low: nat, high: nat, c: nat, rest: nat)
    requires b < 2 && low < 64 && high < 16 && c < 2
    requires Funct7(i) == b * 64 + low && i / 0x1000 == rest && Rd(i) == high * 2 + c
    ensures i / 0x8000_0000 == b && (i / 0x200_0000) % 64 == low
    ensures (i / 0x80) % 2 == c && (i / 0x100) % 16 == high
  {
    Cut(i, b * 64 + low, b, low);
    DivideTwice(i, 0x80, 32);
    CutLow(i, 0x80, rest, high * 2 + c, high, c);
  }

  lemma {:induction false} SlicesOfB(offset: int)
    requires offset % 2 == 0
    ensures Slice(offset, 0x1000, 2) * 0x1000 + Slice(offset, 0x800, 2) * 0x800 + Slice(offset, 32, 64) * 32
            + Slice(offset, 2, 16) * 2 == offset % 0x2000
  {
    SliceJoin(offset, 2, 16, 64);
    SliceJoin(offset, 2, 0x400, 2);
    SliceJoin(offset, 2, 0x800, 2);
    SliceJoin(offset, 1, 2, 0x1000);
    Unit(offset, 0x2000);
  }

  lemma {:induction false} BTypeImmediate(offset: int, rs2: Field5, rs1: Field5, f3: Field3, opcode: Field7)
    requires -0x1000 <= offset < 0x1000 && offset % 2 == 0
    ensures ImmB(BType(offset, rs2, rs1, f3, opcode)) == Wrap(offset)
  {
    hide Assembled, Rs1, Rs2, Funct3, Extend, Slice;
    var i := BType(offset, rs2, rs1, f3, opcode);
    var b, low := Slice(offset, 0x1000, 2), Slice(offset, 32, 64);
    var high, c := Slice(offset, 2, 16), Slice(offset, 0x800, 2);
    FieldsOf(b * 64 + low, rs2, rs1, f3, high * 2 + c, opcode);
    FieldsOfB(i, b, low, high, c, i / 0x1000);
    SlicesOfB(offset);
    ExtendMod(offset, 0x1000);
  }

  /** The fields of a J-type word as `ImmJ` cuts them out. */
  lemma {:induction false} FieldsOfJ(i: Word, b: nat, low: nat, high: nat, c: nat, rs1: Field5, f3: Field3)
    requires b < 2 && low < 64 && high < 16 && c < 2
    requires i / 0x10_0000 == (b * 64 + low) * 32 + high * 2 + c
    requires i / 0x1000 == (b * 64 + low) * 0x2000 + (high * 2 + c) * 0x100 + rs1 * 8 + f3
    requires Funct7(i) == b * 64 + low
    ensures i / 0x8000_0000 == b && (i / 0x1000) % 256 == rs1 * 8 + f3
    ensures (i / 0x10_0000) % 2 == c && (i / 0x20_0000) % 1024 == low * 16 + high
  {
    Cut(i, b * 64 + low, b, low);
    ModUnique(i / 0x1000, 256, (b * 64 + low) * 32 + high * 2 + c, rs1 * 8 + f3);
    var above := (b * 64 + low) * 16 + high;
    ModUnique(i / 0x10_0000, 2, above, c);
    DivideTwice(i, 0x10_0000, 2);
    ModUnique(above, 1024, b, low * 16 + high);
  }

  lemma {:induction false} SlicesOfJ(offset: int)
    requires offset % 2 == 0
    ensures Slice(offset, 0x10_0000, 2) * 0x10_0000
            + (Slice(offset, 0x8000, 32) * 8 + Slice(offset, 0x1000, 8)) * 0x1000
            + Slice(offset, 0x800, 2) * 0x800 + (Slice(offset, 32, 64) * 16 + Slice(offset, 2, 16)) * 2
         == offset % 0x20_0000
  {
    SliceJoin(offset, 2, 16, 64);
    SliceJoin(offset, 2, 0x400, 2);
    SliceJoin(offset, 2, 0x800, 8);
    SliceJoin(offset, 2, 0x4000, 32);
    SliceJoin(offset, 2, 0x8_0000, 2);
    SliceJoin(offset, 1, 2, 0x10_0000);
    Unit(offset, 0x20_0000);
  }

  lemma {:induction false} Unit(offset: int, weight: nat)
    requires offset % 2 == 0 && weight > 0
    ensures Slice(offset, 1, 2) == 0 && Slice(offset, 1, weight) == offset % weight
  {
  }

  lemma {:induction false} JTypeImmediate(offset: int, rd: Field5, opcode: Field7)
    requires -0x10_0000 <= offset < 0x10_0000 && offset % 2 == 0
    ensures ImmJ(JType(offset, rd, opcode)) == Wrap(offset)
  {
    hide Assembled, Rs1, Rs2, Funct3, Extend, Slice;
    var i := JType(offset, rd, opcode);
    var b, low := Slice(offset, 0x10_0000, 2), Slice(offset, 32, 64);
    var high, c := Slice(offset, 2, 16), Slice(offset, 0x800, 2);
    FieldsOf(b * 64 + low, high * 2 + c, Slice(offset, 0x8000, 32), Slice(offset, 0x1000, 8), rd, opcode);
    FieldsOfJ(i, b, low, high, c, Slice(offset, 0x8000, 32), Slice(offset, 0x1000, 8));
    SlicesOfJ(offset);
    ExtendMod(offset, 0x10_0000);
  }
}
