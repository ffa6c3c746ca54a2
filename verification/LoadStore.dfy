/** Loads and stores of bytes, halfwords and words (lib/core/memory.cpp) and the debugger's byte accessor
    (lib/gdb-stub/accessor.cpp), against a memory of single bytes. */
module LoadStore {
  import opened Words
  import opened Decode
  import opened BlockMemory
  import opened Bus

  /** `Throws` is the source's `std::logic_error`. */
  datatype Access = Value(word: Word) | Traps(trap: Trap) | Throws

  predicate IsAligned(address: Word, f: MemFunct) {
    match f
    case LoadByte => true
    case StoreByte => true
    case LoadByteUnsigned => true
    case LoadHalf => address % 2 == 0
    case StoreHalf => address % 2 == 0
    case LoadHalfUnsigned => address % 2 == 0
    case LoadWord => address % 4 == 0
    case StoreWord => address % 4 == 0
    case NoFunct => false
  }

  /** 256 to the power `k`. */
  function Weight(k: Lane): nat
    ensures Weight(k) > 0
  {
    if k == 0 then 1 else if k == 1 then 0x100 else if k == 2 then 0x1_0000 else 0x100_0000
  }

  function ShiftDown(w: Word, k: Lane): Word {
    if k == 0 then w else if k == 1 then w / 0x100 else if k == 2 then w / 0x1_0000 else w / 0x100_0000
  }

  function ShiftUp(w: Word, k: Lane): Word {
    Wrap(w * Weight(k))
  }

  /** The value that a load takes from the aligned word `w`; `None` where the source throws. */
  function LoadValue(w: Word, f: MemFunct, k: Lane): Option<Word> {
    match f
    case LoadByte => Some(Extend(ShiftDown(w, k) % 0x100, 0x100))
    case LoadHalf => Some(Extend(ShiftDown(w, k) % 0x1_0000, 0x1_0000))
    case LoadWord => Some(w)
    case LoadByteUnsigned => Some(ShiftDown(w, k) % 0x100)
    case LoadHalfUnsigned => Some(ShiftDown(w, k) % 0x1_0000)
    case _ => None
  }

  function OneByte(k: Lane): Mask {
    Mask(k == 0, k == 1, k == 2, k == 3)
  }

  /** The byte mask of a store; `None` where the source throws. */
  function StoreMask(f: MemFunct, k: Lane): Option<Mask> {
    match f
    case StoreByte => Some(OneByte(k))
    case StoreHalf => Some(Mask(k == 0, k == 0 || k == 1, k == 1 || k == 2, k == 2 || k == 3))
    case StoreWord => Some(Mask(true, true, true, true))
    case _ => None
  }

  function StoreError(e: BusError): Access {
    match e
    case OutOfRange => Traps(StoreAccessFault)
    case AccessFault => Traps(StoreAccessFault)
    case UnalignedAccess => Traps(StoreAddressMisaligned)
    case NotSupported => Throws
  }

  /** `Load_store_module::operator()`. */
  function Perform(b: BusState, op: MemOp, f: MemFunct, address: Word, value: Word): (BusState, Access) {
    var k, base := address % 4, address - address % 4;
    match op
    case NoMem => (b, Value(0))
    case Load =>
      if !IsAligned(address, f) then (b, Traps(LoadAddressMisaligned))
      else
        var (after, r) := ReadBus(b, base);
        if r.Err? then (after, Traps(LoadAccessFault))
        else
          var v := LoadValue(r.value, f, k);
          (after, if v.Some? then Value(v.value) else Throws)
    case Store =>
      if !IsAligned(address, f) then (b, Traps(StoreAddressMisaligned))
      else
        var mask := StoreMask(f, k);
        if mask.None? then (b, Throws)
        else
          var (after, e) := WriteBus(b, base, ShiftUp(value, k), mask.value);
          (after, if e.None? then Value(0) else StoreError(e.value))
  }

  method PerformAccess(memory: PlatformMemory, op: MemOp, f: MemFunct, address: Word, value: Word)
    returns (r: Access)
    requires memory.Valid()
    modifies memory.Repr()
    ensures memory.Valid() && fresh(memory.Repr() - old(memory.Repr()))
    ensures (memory.State(), r) == Perform(old(memory.State()), op, f, address, value)
  {
    hide ReadBus, WriteBus, LoadValue, StoreMask, ShiftUp;
    var k, base := address % 4, address - address % 4;
    match op {
      case NoMem =>
        return Value(0);
      case Load =>
        if !IsAligned(address, f) {
          return Traps(LoadAddressMisaligned);
        }
        var read := memory.Read(base);
        if read.Err? {
          return Traps(LoadAccessFault);
        }
        var v := LoadValue(read.value, f, k);
        return if v.Some? then Value(v.value) else Throws;
      case Store =>
        if !IsAligned(address, f) {
          return Traps(StoreAddressMisaligned);
        }
        var mask := StoreMask(f, k);
        if mask.None? {
          return Throws;
        }
        var error := memory.Write(base, ShiftUp(value, k), mask.value);
        return if error.None? then Value(0) else StoreError(error.value);
    }
  }

  /** Decoded loads and stores never reach the source's throws. */
  lemma {:induction false} DecodedNeverThrows(b: BusState, op: MemOp, f: MemFunct, address: Word, value: Word)
    requires op == Load ==> IsLoadFunct(f) || f == NoFunct
    requires op == Store ==> IsStoreFunct(f) || f == NoFunct
    ensures !Perform(b, op, f, address, value).1.Throws?
  {
    hide Merged, Extend, ShiftUp, ShiftDown;
  }

  /** An access that traps leaves every device as it was. */
  lemma {:induction false} TrapChangesNothing(b: BusState, op: MemOp, f: MemFunct, address: Word, value: Word)
    requires Perform(b, op, f, address, value).1.Traps?
    ensures Perform(b, op, f, address, value).0 == b
  {
    hide Merged, Extend, ShiftUp, ShiftDown, LoadValue;
  }

  /* ---- RAM as single bytes ---- */

  type RamAddress = a: int | RAM_START <= a < TWO_32 witness RAM_START

  function RamByte(b: BusState, a: RamAddress): Byte {
    ByteOf(b.ram.words[(a - RAM_START) / 4], a % 4)
  }

  function Width(f: MemFunct): nat {
    match f
    case LoadByte => 1
    case LoadByteUnsigned => 1
    case StoreByte => 1
    case LoadHalf => 2
    case LoadHalfUnsigned => 2
    case StoreHalf => 2
    case LoadWord => 4
    case StoreWord => 4
    case NoFunct => 0
  }

  lemma {:induction false} ShiftUpByte(w: Word, k: Lane, j: Lane)
    requires k + j < 4
    ensures ByteOf(ShiftUp(w, k), k + j) == ByteOf(w, j)
  {
    var b0, b1, b2, b3 := ByteOf(w, 0), ByteOf(w, 1), ByteOf(w, 2), ByteOf(w, 3);
    assert w == Join(b0, b1, b2, b3) by {
      JoinBytes(w);
    }
    ShiftUpIs(w, k, b0, b1, b2, b3);
    if k == 1 {
      BytesOfJoin(0, b0, b1, b2);
    } else if k == 2 {
      BytesOfJoin(0, 0, b0, b1);
    } else if k == 3 {
      BytesOfJoin(0, 0, 0, b0);
    }
  }

  lemma {:induction false} ShiftUpIs(w: Word, k: Lane, b0: Byte, b1: Byte, b2: Byte, b3: Byte)
    requires w == Join(b0, b1, b2, b3)
    ensures ShiftUp(w, k) == if k == 0 then w else if k == 1 then Join(0, b0, b1, b2)
                             else if k == 2 then Join(0, 0, b0, b1) else Join(0, 0, 0, b0)
  {
    if k == 1 {
      ModUnique(w * 0x100, TWO_32, b3, Join(0, b0, b1, b2));
    } else if k == 2 {
      ModUnique(w * 0x1_0000, TWO_32, b2 + 0x100 * b3, Join(0, 0, b0, b1));
    } else if k == 3 {
      ModUnique(w * 0x100_0000, TWO_32, b1 + 0x100 * b2 + 0x1_0000 * b3, Join(0, 0, 0, b0));
    }
  }

  lemma {:induction false} ShiftDownBytes(w: Word, k: Lane)
    ensures ShiftDown(w, k) % 0x100 == ByteOf(w, k)
    ensures k < 3 ==> ShiftDown(w, k) % 0x1_0000 == ByteOf(w, k) + 0x100 * ByteOf(w, k + 1)
  {
    var high := w / 0x100;
    var higher := high / 0x100;
    assert w == 0x100 * high + ByteOf(w, 0) && high == 0x100 * higher + ByteOf(w, 1);
    assert higher == 0x100 * ByteOf(w, 3) + ByteOf(w, 2);
    assert w / 0x1_0000 == higher && w / 0x100_0000 == ByteOf(w, 3);
  }

  /** A store replaces one RAM word. */
  lemma {:induction false} StoreWrites(b: BusState, f: MemFunct, address: RamAddress, value: Word)
    requires IsStoreFunct(f) && IsAligned(address, f)
    ensures var (after, r) := Perform(b, Store, f, address, value);
            var i := (address - RAM_START) / 4;
            var k := address % 4;
            && r == Value(0) && StoreMask(f, k).Some?
            && after == b.(ram := b.ram.(words :=
                 b.ram.words[i := Merged(b.ram.words[i], ShiftUp(value, k), StoreMask(f, k).value)]))
  {
    hide Merged, ShiftUp;
  }

  lemma {:induction false} StoredByte(w: Word, f: MemFunct, value: Word, k: Lane, j: Lane)
    requires IsStoreFunct(f)
    requires f == StoreHalf ==> k % 2 == 0
    requires f == StoreWord ==> k == 0
    ensures ByteOf(Merged(w, ShiftUp(value, k), StoreMask(f, k).value), j)
         == if k <= j < k + Width(f) then ByteOf(value, j - k) else ByteOf(w, j)
  {
    hide ByteOf, Merged, ShiftUp;
    MergedByte(w, ShiftUp(value, k), StoreMask(f, k).value, j);
    if k <= j {
      ShiftUpByte(value, k, j - k);
    }
  }

  /** A store changes exactly the bytes that it names, to the little-endian bytes of its value. */
  lemma {:induction false} StoreExact(b: BusState, f: MemFunct, address: RamAddress, value: Word)
    requires IsStoreFunct(f) && IsAligned(address, f)
    ensures var (after, r) := Perform(b, Store, f, address, value);
            && r == Value(0)
            && after == b.(ram := after.ram) && after.ram == b.ram.(words := after.ram.words)
            && forall a: RamAddress :: RamByte(after, a)
                 == if address <= a < address + Width(f) then ByteOf(value, a - address) else RamByte(b, a)
  {
    hide ByteOf, Merged, ShiftUp, Perform, StoreMask, RamByte;
    StoreWrites(b, f, address, value);
    forall a: RamAddress
      ensures RamByte(Perform(b, Store, f, address, value).0, a)
           == if address <= a < address + Width(f) then ByteOf(value, a - address) else RamByte(b, a)
    {
      StoredRamByte(b, f, address, value, a);
    }
  }

  lemma {:induction false} StoredRamByte(b: BusState, f: MemFunct, address: RamAddress, value: Word, a: RamAddress)
    requires IsStoreFunct(f) && IsAligned(address, f)
    ensures RamByte(Perform(b, Store, f, address, value).0, a)
         == if address <= a < address + Width(f) then ByteOf(value, a - address) else RamByte(b, a)
  {
    hide ByteOf, Merged, ShiftUp, Perform, StoreMask, IsAligned, Width;
    StoreWrites(b, f, address, value);
    AlignedLane(address, f);
    SplitAddress(address);
    SplitAddress(a);
    var i, j := (address - RAM_START) / 4, (a - RAM_START) / 4;
    SameGroup(i, address % 4, j, a % 4, Width(f));
    if i == j {
      StoredByte(b.ram.words[i], f, value, address % 4, a % 4);
    }
  }

  lemma {:induction false} AlignedLane(address: Word, f: MemFunct)
    requires IsStoreFunct(f) && IsAligned(address, f)
    ensures f == StoreHalf ==> address % 4 % 2 == 0
    ensures f == StoreWord ==> address % 4 == 0
    ensures address % 4 + Width(f) <= 4
  {
    LaneParity(address);
    if f == StoreHalf && address % 4 == 3 {
      assert false;
    }
  }

  lemma {:induction false} LaneParity(address: Word)
    ensures address % 4 % 2 == address % 2
  {
  }

  lemma {:induction false} SameGroup(i: int, k: Lane, j: int, l: Lane, width: nat)
    requires k + width <= 4
    ensures 4 * i + k <= 4 * j + l < 4 * i + k + width <==> j == i && k <= l < k + width
  {
  }

  lemma {:induction false} SplitAddress(a: RamAddress)
    ensures a == RAM_START + 4 * ((a - RAM_START) / 4) + a % 4
  {
  }

  /** The bytes that a load is made of, extended as its kind demands. */
  function LoadedValue(b: BusState, f: MemFunct, a: RamAddress): Word
    requires IsLoadFunct(f) && IsAligned(a, f)
  {
    match f
    case LoadByte => Extend(RamByte(b, a), 0x100)
    case LoadByteUnsigned => RamByte(b, a)
    case LoadHalf => Extend(RamByte(b, a) + 0x100 * RamByte(b, a + 1), 0x1_0000)
    case LoadHalfUnsigned => RamByte(b, a) + 0x100 * RamByte(b, a + 1)
    case LoadWord => Join(RamByte(b, a), RamByte(b, a + 1), RamByte(b, a + 2), RamByte(b, a + 3))
  }

  /** The word of RAM that covers `a`. */
  function RamWord(b: BusState, a: RamAddress): Word {
    b.ram.words[(a - RAM_START) / 4]
  }

  lemma {:induction false} RamLanes(b: BusState, a: RamAddress, j: nat)
    requires a % 4 + j < 4
    ensures a + j < TWO_32 && RamByte(b, a + j) == ByteOf(RamWord(b, a), a % 4 + j)
  {
    hide ByteOf;
    assert (a + j - RAM_START) / 4 == (a - RAM_START) / 4;
  }

  lemma {:induction false} LoadValueBytes(w: Word, f: MemFunct, k: Lane)
    requires IsLoadFunct(f)
    requires f in {LoadHalf, LoadHalfUnsigned} ==> k % 2 == 0
    requires f == LoadWord ==> k == 0
    ensures LoadValue(w, f, k) == Some(
              match f
              case LoadByte => Extend(ByteOf(w, k), 0x100)
              case LoadByteUnsigned => ByteOf(w, k)
              case LoadHalf => Extend(ByteOf(w, k) + 0x100 * ByteOf(w, k + 1), 0x1_0000)
              case LoadHalfUnsigned => ByteOf(w, k) + 0x100 * ByteOf(w, k + 1)
              case LoadWord => Join(ByteOf(w, 0), ByteOf(w, 1), ByteOf(w, 2), ByteOf(w, 3)))
  {
    hide ByteOf, ShiftDown, Join, Extend;
    ShiftDownBytes(w, k);
    JoinBytes(w);
  }

  lemma {:induction false} LoadReads(b: BusState, f: MemFunct, address: RamAddress, value: Word)
    requires IsLoadFunct(f) && IsAligned(address, f)
    requires LoadValue(RamWord(b, address), f, address % 4).Some?
    ensures Perform(b, Load, f, address, value)
         == (b, Value(LoadValue(RamWord(b, address), f, address % 4).value))
  {
    hide LoadValue, IsAligned;
  }

  lemma {:induction false} LoadExact(b: BusState, f: MemFunct, address: RamAddress, value: Word)
    requires IsLoadFunct(f) && IsAligned(address, f)
    ensures Perform(b, Load, f, address, value) == (b, Value(LoadedValue(b, f, address)))
  {
    hide ByteOf, Join, Extend, Perform, LoadValue, RamByte;
    LoadValueBytes(RamWord(b, address), f, address % 4);
    LoadReads(b, f, address, value);
    RamLanes(b, address, 0);
    if Width(f) >= 2 {
      RamLanes(b, address, 1);
    }
    if Width(f) == 4 {
      RamLanes(b, address, 2);
      RamLanes(b, address, 3);
    }
  }

  /* ---- Sequences of stores ---- */

  datatype StoreOp = StoreOp(f: MemFunct, address: RamAddress, value: Word)

  predicate LegalStore(s: StoreOp) {
    IsStoreFunct(s.f) && IsAligned(s.address, s.f)
  }

  function RunStores(b: BusState, ops: seq<StoreOp>): BusState {
    if ops == [] then b
    else
      var s := ops[|ops| - 1];
      Perform(RunStores(b, ops[..|ops| - 1]), Store, s.f, s.address, s.value).0
  }

  /** The byte most recently stored at `a`. */
  function LastStored(ops: seq<StoreOp>, a: RamAddress): Option<Byte> {
    if ops == [] then None
    else
      var s := ops[|ops| - 1];
      if s.address <= a < s.address + Width(s.f) && a - s.address < 4 then Some(ByteOf(s.value, a - s.address))
      else LastStored(ops[..|ops| - 1], a)
  }

  /** After any sequence of stores, every RAM byte is the one last stored there, or the initial one; so by
      `LoadExact` an aligned load of any width delivers the bytes last written. */
  lemma {:induction false} BytesLastStored(b: BusState, ops: seq<StoreOp>, a: RamAddress)
    requires forall i :: 0 <= i < |ops| ==> LegalStore(ops[i])
    ensures RamByte(RunStores(b, ops), a)
         == match LastStored(ops, a)
            case None => RamByte(b, a)
            case Some(v) => v
  {
    hide ByteOf, Perform;
    if ops != [] {
      var front, s := ops[..|ops| - 1], ops[|ops| - 1];
      BytesLastStored(b, front, a);
      assert LegalStore(s);
      StoreExact(RunStores(b, front), s.f, s.address, s.value);
    }
  }

  /* ---- The debugger's view ---- */

  function DebugRead(b: BusState, address: Word): (BusState, Option<Byte>) {
    var (after, r) := ReadBus(b, address - address % 4);
    (after, if r.Ok? then Some(ByteOf(r.value, address % 4)) else None)
  }

  function DebugWrite(b: BusState, address: Word, value: Byte): (BusState, bool) {
    var (after, e) := WriteBus(b, address - address % 4, ShiftUp(value, address % 4), OneByte(address % 4));
    (after, e.None?)
  }

  method DebugReadByte(memory: PlatformMemory, address: Word) returns (r: Option<Byte>)
    requires memory.Valid()
    modifies memory.Repr()
    ensures memory.Valid() && fresh(memory.Repr() - old(memory.Repr()))
    ensures (memory.State(), r) == DebugRead(old(memory.State()), address)
  {
    hide ReadBus, ByteOf;
    var word := memory.Read(address - address % 4);
    return if word.Ok? then Some(ByteOf(word.value, address % 4)) else None;
  }

  method DebugWriteByte(memory: PlatformMemory, address: Word, value: Byte) returns (ok: bool)
    requires memory.Valid()
    modifies memory.Repr()
    ensures memory.Valid() && fresh(memory.Repr() - old(memory.Repr()))
    ensures (memory.State(), ok) == DebugWrite(old(memory.State()), address, value)
  {
    hide WriteBus, ShiftUp;
    var error := memory.Write(address - address % 4, ShiftUp(value, address % 4), OneByte(address % 4));
    return error.None?;
  }

  /** The debugger reads the same RAM bytes as the program and writes them as a byte store does. */
  lemma {:induction false} DebuggerSeesRam(b: BusState, a: RamAddress, value: Byte)
    ensures DebugRead(b, a) == (b, Some(RamByte(b, a)))
    ensures DebugWrite(b, a, value) == (Perform(b, Store, StoreByte, a, value).0, true)
  {
    hide ByteOf, Merged, ShiftUp;
    assert (a - a % 4 - RAM_START) / 4 == (a - RAM_START) / 4;
  }

  /** `handle_mem_write` (the `M` packet) passes each byte's own address to the bus, stopping at the first
      error. Addresses wrap around. */
  function WriteBytes(b: BusState, address: Word, data: seq<Byte>): (BusState, bool)
    decreases |data|
  {
    if data == [] then (b, true)
    else
      var (after, e) := WriteBus(b, address, ShiftUp(data[0], address % 4), OneByte(address % 4));
      if e.Some? then (after, false) else WriteBytes(after, Wrap(address + 1), data[1..])
  }

  method DebugWriteBytes(memory: PlatformMemory, address: Word, data: seq<Byte>) returns (ok: bool)
    requires memory.Valid()
    modifies memory.Repr()
    ensures memory.Valid() && fresh(memory.Repr() - old(memory.Repr()))
    ensures (memory.State(), ok) == WriteBytes(old(memory.State()), address, data)
  {
    hide WriteBus, ShiftUp;
    var at: Word := address;
    assert data[0..] == data;
    for i := 0 to |data|
      invariant memory.Valid() && fresh(memory.Repr() - old(memory.Repr()))
      invariant WriteBytes(old(memory.State()), address, data) == WriteBytes(memory.State(), at, data[i..])
    {
      var error := memory.Write(at, ShiftUp(data[i], at % 4), OneByte(at % 4));
      if error.Some? {
        return false;
      }
      assert data[i..][1..] == data[i + 1..];
      at := Wrap(at + 1);
    }
    return true;
  }

  /** Where the bus accepts a write of single bytes. */
  predicate Writable(address: Word) {
    address % 4 == 0
    && (address >= RAM_START || address in {0x1_0000, 0x1_0008, 0x1_1000, 0x1_1004, 0x1_1008, 0x1_100c})
  }

  lemma {:induction false} ByteAccepted(b: BusState, address: Word, data: Word)
    ensures WriteBus(b, address, data, OneByte(address % 4)).1.None? <==> Writable(address)
  {
    hide Merged;
    if Locate(address).Some? {
      ModShift(address, -(DeviceStart(address) / 4), 4);
    }
  }

  function DeviceStart(address: Word): (s: nat)
    ensures s % 4 == 0
    ensures Locate(address).Some? ==> s <= address && Locate(address).value.offset == address - s
  {
    if RAM_START <= address then RAM_START
    else if ROM_START <= address < ROM_START + ROM_SIZE then ROM_START
    else if UART_START <= address < UART_START + PERIPHERAL_SIZE then UART_START
    else if CLOCK_START <= address < CLOCK_START + PERIPHERAL_SIZE then CLOCK_START
    else 0
  }

  /** The bus refuses unaligned words, so a memory write from GDB succeeds only for at most one byte, and that
      byte must be the first of a word of RAM or of a writable device register. */
  lemma {:induction false} DebuggerWritesOneByte(b: BusState, address: Word, data: seq<Byte>)
    ensures WriteBytes(b, address, data).1 <==> data == [] || (|data| == 1 && Writable(address))
  {
    hide WriteBus, ShiftUp, Writable;
    if data != [] {
      ByteAccepted(b, address, ShiftUp(data[0], address % 4));
      var after := WriteBus(b, address, ShiftUp(data[0], address % 4), OneByte(address % 4)).0;
      if |data| > 1 && Writable(address) {
        var next := Wrap(address + 1);
        assert WriteBytes(b, address, data) == WriteBytes(after, next, data[1..]);
        ByteAccepted(after, next, ShiftUp(data[1], next % 4));
        assert !Writable(next) by {
          NotBoth(address);
        }
      }
    }
  }

  lemma {:induction false} NotBoth(address: Word)
    ensures !(Writable(address) && Writable(Wrap(address + 1)))
  {
  }

  /** `n` bytes of a word from lane `k` on. */
  function Lanes(w: Word, k: Lane, n: nat): seq<Byte>
    requires k + n <= 4
  {
    seq<Byte>(n, j requires 0 <= j < n => ByteOf(w, k + j))
  }

  /** `handle_mem_read` (the `m` packet) reads word by word, each at the first address it needs, stopping at
      the first error. */
  function ReadBytes(b: BusState, address: Word, length: nat): (BusState, seq<Byte>)
    decreases length
  {
    if length == 0 then (b, [])
    else
      var k := address % 4;
      var n := if length < 4 - k then length else 4 - k;
      var (after, r) := ReadBus(b, address);
      if r.Err? then (after, [])
      else
        var (last, rest) := ReadBytes(after, Wrap(address + n), length - n);
        (last, Lanes(r.value, k, n) + rest)
  }

  method DebugReadBytes(memory: PlatformMemory, address: Word, length: nat) returns (data: seq<Byte>)
    requires memory.Valid()
    modifies memory.Repr()
    ensures memory.Valid() && fresh(memory.Repr() - old(memory.Repr()))
    ensures (memory.State(), data) == ReadBytes(old(memory.State()), address, length)
  {
    hide ReadBus, ByteOf, Lanes;
    data := [];
    var at: Word, left: nat := address, length;
    assert [] + ReadBytes(memory.State(), at, left).1 == ReadBytes(memory.State(), at, left).1;
    while left > 0
      invariant memory.Valid() && fresh(memory.Repr() - old(memory.Repr()))
      invariant var rest := ReadBytes(memory.State(), at, left);
                ReadBytes(old(memory.State()), address, length) == (rest.0, data + rest.1)
    {
      var k := at % 4;
      var n := if left < 4 - k then left else 4 - k;
      var word := memory.Read(at);
      if word.Err? {
        assert data + [] == data;
        return;
      }
      var bytes := Lanes(word.value, k, n);
      Regroup(data, bytes, ReadBytes(memory.State(), Wrap(at + n), left - n).1);
      data := data + bytes;
      at, left := Wrap(at + n), left - n;
    }
    assert data + [] == data;
  }

  lemma {:induction false} Regroup(x: seq<Byte>, y: seq<Byte>, z: seq<Byte>)
    ensures x + (y + z) == (x + y) + z
  {
  }

  function RamBytes(b: BusState, address: nat, length: nat): seq<Byte>
    requires address >= RAM_START && address + length <= TWO_32
  {
    seq<Byte>(length, j requires 0 <= j < length => RamByte(b, address + j))
  }

  /** A memory read from GDB within RAM delivers the RAM bytes if it starts at a word, and nothing at all if it
      does not. */
  lemma {:induction false} DebuggerReadsRam(b: BusState, address: Word, length: nat)
    requires address >= RAM_START && address + length <= TWO_32
    ensures ReadBytes(b, address, length)
         == (b, if address % 4 == 0 then RamBytes(b, address, length) else [])
    decreases length
  {
    hide ByteOf, ReadBus, RamByte, Lanes, RamBytes;
    RamRead(b, address);
    if length > 0 && address % 4 == 0 {
      var n := if length < 4 then length else 4;
      FirstLanes(b, address, n);
      SplitRamBytes(b, address, n, length);
      if length > 4 {
        ModShift(address, 1, 4);
        DebuggerReadsRam(b, address + 4, length - 4);
      } else {
        NoRamBytes(b, address + n);
        assert Lanes(RamWord(b, address), 0, n) + [] == Lanes(RamWord(b, address), 0, n);
      }
    } else {
      NoRamBytes(b, address);
    }
  }

  lemma {:induction false} NoRamBytes(b: BusState, address: nat)
    requires RAM_START <= address <= TWO_32
    ensures RamBytes(b, address, 0) == []
  {
  }

  lemma {:induction false} FirstLanes(b: BusState, address: Word, n: nat)
    requires address >= RAM_START && address % 4 == 0 && n <= 4
    ensures address + n <= TWO_32 && Lanes(RamWord(b, address), 0, n) == RamBytes(b, address, n)
  {
    hide ByteOf, RamByte;
    assert address <= 0xffff_fffc;
    forall j | 0 <= j < n
      ensures RamByte(b, address + j) == ByteOf(RamWord(b, address), j)
    {
      RamLanes(b, address, j);
    }
  }

  lemma {:induction false} SplitRamBytes(b: BusState, address: nat, n: nat, length: nat)
    requires address >= RAM_START && n <= length && address + length <= TWO_32
    ensures RamBytes(b, address, length) == RamBytes(b, address, n) + RamBytes(b, address + n, length - n)
  {
    hide RamByte;
  }

  lemma {:induction false} RamRead(b: BusState, address: RamAddress)
    ensures ReadBus(b, address) == (b, if address % 4 == 0 then Ok(RamWord(b, address)) else Err(UnalignedAccess))
  {
    ModShift(address, -(RAM_START / 4), 4);
  }
}
