/** The fetch cache over whole runs: when a program cannot tell that it is there, and when it can. */
module Transparency {
  import opened Words
  import opened Decode
  import opened BlockMemory
  import opened Bus
  import opened Cpu
  import opened Traps
  import opened Fetch
  import Alu
  import Clock
  import LoadStore

  /** One emulator cycle of the machine with its cache. */
  function CachedCycle(m: Machine): (Machine, Report) {
    var (cache, f) := CachedFetch(m.cache, m.core.bus, m.core.pc);
    var (core, report) := Cycle(m.core, f);
    (Machine(core, cache), report)
  }

  /** One emulator cycle of the machine that reads the page again on every fetch. */
  function DirectCycle(c: Core): (Core, Report) {
    Cycle(c, DirectFetch(c.bus, c.pc))
  }

  function CachedRun(m: Machine, n: nat): Machine {
    if n == 0 then m else CachedCycle(CachedRun(m, n - 1)).0
  }

  function DirectRun(c: Core, n: nat): Core {
    if n == 0 then c else DirectCycle(DirectRun(c, n - 1)).0
  }

  /* ---- What an instruction does to instruction pages ---- */

  lemma {:induction false} SamePageAfterWrite(b: BusState, address: Word, data: Word, mask: Mask, page: Word)
    requires page % 0x1000 == 0 && PageBase(address) != page
    ensures ReadBusPage(WriteBus(b, address, data, mask).0, page) == ReadBusPage(b, page)
  {
    hide Merged, WriteUart, Clock.WriteClock;
    var l, p := Locate(address), Locate(page);
    if l.Some? && p.Some? && l.value.device == p.value.device {
      if l.value.device == Ram {
        SamePageAfterWord(b.ram, l.value.offset, data, mask, p.value.offset);
      } else if l.value.device == Rom {
        SamePageAfterWord(b.rom, l.value.offset, data, mask, p.value.offset);
      }
    }
  }

  lemma {:induction false} SamePageAfterWord(b: Block, offset: nat, data: Word, mask: Mask, page: nat)
    requires page % 0x1000 == 0 && !(page <= offset < page + 0x1000)
    ensures PageOf(WriteWord(b, offset, data, mask).0, page) == PageOf(b, page)
  {
    hide Merged;
    var k, first := offset / 4, page / 4;
    OutsidePage(offset, page);
    if WriteRefused(b, offset, mask).None? && page + 0x1000 <= b.size && mask != NO_BYTES {
      var v := Merged(b.words[k], data, mask);
      assert b.words[k := v][first..first + 1024] == b.words[first..first + 1024];
    }
  }

  lemma {:induction false} OutsidePage(offset: nat, page: nat)
    requires page % 0x1000 == 0 && !(page <= offset < page + 0x1000)
    ensures offset / 4 < page / 4 || offset / 4 >= page / 4 + 1024
  {
    ModUnique(page, 4, 0x400 * (page / 0x1000), 0);
    Quarter(offset, page / 4);
    Quarter(offset, page / 4 + 1024);
  }

  lemma {:induction false} Quarter(offset: nat, k: nat)
    ensures offset < 4 * k <==> offset / 4 < k
  {
  }

  lemma {:induction false} SamePageAfterRead(b: BusState, address: Word, page: nat)
    ensures ReadBusPage(ReadBus(b, address).0, page) == ReadBusPage(b, page)
  {
  }

  /** A memory access other than a store into `page` leaves the page as it was. */
  lemma {:induction false} SamePageAfterAccess(
    b: BusState, op: MemOp, f: MemFunct, address: Word, value: Word, page: Word)
    requires page % 0x1000 == 0
    requires op == Store && LoadStore.Perform(b, op, f, address, value).1.Value? ==> PageBase(address) != page
    ensures ReadBusPage(LoadStore.Perform(b, op, f, address, value).0, page) == ReadBusPage(b, page)
  {
    hide ReadBusPage, ReadBus, WriteBus, LoadStore.LoadValue, LoadStore.StoreMask, LoadStore.ShiftUp;
    var base := address - address % 4;
    if op == Load {
      SamePageAfterRead(b, base, page);
    } else if op == Store && LoadStore.Perform(b, op, f, address, value).1.Value? {
      var k := address % 4;
      AlignedSamePage(address);
      SamePageAfterWrite(b, base, LoadStore.ShiftUp(value, k), LoadStore.StoreMask(f, k).value, page);
    } else if op == Store && !LoadStore.Perform(b, op, f, address, value).1.Throws? {
      LoadStore.TrapChangesNothing(b, op, f, address, value);
    } else if op == Store {
      StoreThrowsChangesNothing(b, f, address, value);
    }
  }

  lemma {:induction false} StoreThrowsChangesNothing(b: BusState, f: MemFunct, address: Word, value: Word)
    requires LoadStore.Perform(b, Store, f, address, value).1.Throws?
    ensures LoadStore.Perform(b, Store, f, address, value).0 == b
  {
    hide Merged, LoadStore.ShiftUp;
  }

  lemma {:induction false} AlignedSamePage(a: Word)
    ensures PageBase(a - a % 4) == PageBase(a)
  {
    var q, r := a / 0x1000, a % 0x1000;
    ModUnique(a - a % 4, 0x1000, q, r - r % 4);
  }

  /** The page that a completed store wrote to. */
  function StoredPage(report: Report): Option<Word> {
    if report.Report? && report.result.trap.None? && report.result.d.memOp == Store then
      Some(PageBase(report.result.aluResult))
    else None
  }

  lemma {:induction false} RetireBus(c: Core, r: CpuResult)
    ensures Retire(c, r).bus == c.bus
  {
  }

  lemma {:induction false} OperateSamePage(c: Core, r0: CpuResult, page: Word)
    requires page % 0x1000 == 0 && r0.trap.None? && StoredPage(Operate(c, r0).1) != Some(page)
    ensures ReadBusPage(Operate(c, r0).0.bus, page) == ReadBusPage(c.bus, page)
  {
    hide Alu.Compute, Alu.Taken, LoadStore.Perform, Retire, Csr.AccessCsr, ReadBusPage, PageBase;
    var d := r0.d;
    var a := Alu.Compute(d.aluOp, d.num1, d.num2);
    var bus := LoadStore.Perform(c.bus, d.memOp, d.memFunct, a, d.storeValue).0;
    if Csr.AccessCsr(c.csr, d.csr).1.Ok? {
      SamePageAfterAccess(c.bus, d.memOp, d.memFunct, a, d.storeValue, page);
      var (after, report) := Operate(c, r0);
      if report.Report? && report.result.trap.None? {
        RetireBus(c.(csr := Csr.AccessCsr(c.csr, d.csr).0, bus := bus), report.result);
      }
    }
  }

  lemma {:induction false} CycleSamePage(c: Core, f: Outcome, page: Word)
    requires page % 0x1000 == 0 && StoredPage(Cycle(c, f).1) != Some(page)
    ensures ReadBusPage(Cycle(c, f).0.bus, page) == ReadBusPage(c.bus, page)
  {
    hide Operate, Decode.Decode, ReadBusPage, TrapValue, TrapVector, PageBase;
    if f.Fetched? && Decode.Decode(c.regs, f.word, c.pc).Ok? {
      var d := Decode.Decode(c.regs, f.word, c.pc).value;
      if !d.ecall && !InterruptPending(c.csr) {
        OperateSamePage(c, Blank(c.pc).(inst := f.word, d := d), page);
      }
    }
    var after := StepWith(c, f).0;
    assert ReadBusPage(after.bus, page) == ReadBusPage(c.bus, page);
    TickSamePage(after, page);
  }

  lemma {:induction false} TickSamePage(c: Core, page: Word)
    ensures ReadBusPage(TickDevices(c).bus, page) == ReadBusPage(c.bus, page)
  {
  }

  /* ---- Transparency ---- */

  /** The cycle's store, if it completed one, falls into no page that is valid in the cache. */
  predicate StoreMissesCache(m: Machine) {
    var (after, report) := CachedCycle(m);
    forall s :: 0 <= s < SLOTS && after.cache[s].valid ==> StoredPage(report) != Some(after.cache[s].address)
  }

  predicate InStep(m: Machine) {
    Coherent(m.cache, m.core.bus) && Placed(m.cache)
  }

  /** One cycle: same result, registers, CSRs, pc and devices; and the cache stays coherent. */
  lemma {:induction false} CycleTransparent(m: Machine)
    requires InStep(m)
    ensures var (after, report) := CachedCycle(m);
            && (after.core, report) == DirectCycle(m.core)
            && (StoreMissesCache(m) ==> InStep(after))
  {
    hide Cycle, ReadBusPage, CachedFetch, DirectFetch;
    var (cache, f) := CachedFetch(m.cache, m.core.bus, m.core.pc);
    CoherentFetch(m.cache, m.core.bus, m.core.pc);
    FetchKeeps(m.cache, m.core.bus, m.core.pc);
    if StoreMissesCache(m) {
      var after := CachedCycle(m).0;
      forall s | 0 <= s < SLOTS && after.cache[s].valid
        ensures ReadBusPage(after.core.bus, after.cache[s].address) == Ok(after.cache[s].data)
      {
        CycleSamePage(m.core, f, after.cache[s].address);
      }
    }
  }

  /** For every run in which no store falls into a page that the cache holds, the machine with the cache
      and the machine without one report the same results and pass through the same states. */
  lemma {:induction false} RunTransparent(m: Machine, n: nat)
    requires InStep(m)
    requires forall i: nat :: i < n ==> StoreMissesCache(CachedRun(m, i))
    ensures InStep(CachedRun(m, n))
    ensures CachedRun(m, n).core == DirectRun(m.core, n)
    ensures CachedCycle(CachedRun(m, n)).1 == DirectCycle(DirectRun(m.core, n)).1
  {
    hide CachedCycle, DirectCycle, InStep, StoreMissesCache;
    if n != 0 {
      RunTransparent(m, n - 1);
      CycleTransparent(CachedRun(m, n - 1));
      assert StoreMissesCache(CachedRun(m, n - 1));
    }
    CycleTransparent(CachedRun(m, n));
  }

  /** A machine starts in step: its cache is empty. */
  lemma {:induction false} PowerOnInStep(c: Core)
    ensures InStep(Machine(c, EMPTY))
  {
  }

  /* ---- How old an instruction can be ---- */

  /** The entry is, as a whole, its page as memory held it before some cycle up to `n`. */
  ghost predicate FromRun(m: Machine, n: nat, e: Entry) {
    exists j: nat :: j <= n && ReadBusPage(CachedRun(m, j).core.bus, e.address) == Ok(e.data)
  }

  ghost predicate CacheFromRun(m: Machine, n: nat, c: Cache) {
    forall s :: 0 <= s < SLOTS && c[s].valid ==> FromRun(m, n, c[s])
  }

  lemma {:induction false} StillFromRun(m: Machine, n: nat, e: Entry)
    requires FromRun(m, n, e)
    ensures FromRun(m, n + 1, e)
  {
    hide CachedRun, ReadBusPage;
  }

  /** What the fetch of cycle `n` leaves in the cache. */
  lemma {:induction false} FetchFromRun(m: Machine, n: nat, pc: Word)
    requires CacheFromRun(m, n, CachedRun(m, n).cache)
    ensures CacheFromRun(m, n, CachedFetch(CachedRun(m, n).cache, CachedRun(m, n).core.bus, pc).0)
  {
    hide CachedRun, ReadBusPage;
  }

  lemma {:induction false} CacheAge(m: Machine, n: nat)
    requires m.cache == EMPTY
    ensures CacheFromRun(m, n, CachedRun(m, n).cache)
  {
    hide CachedFetch, FromRun, Cycle;
    if n != 0 {
      CacheAge(m, n - 1);
      FetchFromRun(m, n - 1, CachedRun(m, n - 1).core.pc);
      var now := CachedRun(m, n);
      forall s | 0 <= s < SLOTS && now.cache[s].valid
        ensures FromRun(m, n, now.cache[s])
      {
        StillFromRun(m, n - 1, now.cache[s]);
      }
    }
  }

  /** In every run from an empty cache, whatever it stores, an instruction that cycle `n` fetches is the one
      that an uncached fetch would have delivered in the state before some cycle up to `n`. */
  lemma {:induction false} RunStaleness(m: Machine, n: nat)
    requires m.cache == EMPTY
    ensures var now := CachedRun(m, n);
            var f := CachedFetch(now.cache, now.core.bus, now.core.pc).1;
            f.Fetched? ==> exists j: nat :: j <= n && DirectFetch(CachedRun(m, j).core.bus, now.core.pc) == f
  {
    hide CachedRun, ReadBusPage, CacheFromRun;
    CacheAge(m, n);
    var now := CachedRun(m, n);
    var pc, s := now.core.pc, SlotOf(now.core.pc);
    if pc % 4 == 0 && Hit(now.cache[s], pc) {
      assert FromRun(m, n, now.cache[s]) by {
        EntryFromRun(m, n, now.cache, s);
      }
      var j: nat :| j <= n && ReadBusPage(CachedRun(m, j).core.bus, now.cache[s].address) == Ok(now.cache[s].data);
      assert DirectFetch(CachedRun(m, j).core.bus, pc) == Fetched(now.cache[s].data[WordInPage(pc)]);
    } else if CachedFetch(now.cache, now.core.bus, pc).1.Fetched? {
      assert DirectFetch(CachedRun(m, n).core.bus, pc) == CachedFetch(now.cache, now.core.bus, pc).1;
    }
  }

  lemma {:induction false} EntryFromRun(m: Machine, n: nat, c: Cache, s: nat)
    requires CacheFromRun(m, n, c) && s < SLOTS && c[s].valid
    ensures FromRun(m, n, c[s])
  {
    hide FromRun;
  }

  /* ---- When it fails ---- */

  /** Rewriting a cached RAM word goes unnoticed by the fetch: it still delivers the old word. */
  lemma {:induction false} RewrittenCodeIsStale(c: Cache, b: BusState, pc: Word, data: Word)
    requires Coherent(c, b) && pc % 4 == 0 && pc >= RAM_START && Hit(c[SlotOf(pc)], pc)
    requires Fetched(data) != DirectFetch(b, pc)
    ensures var after := WriteBus(b, pc, data, Mask(true, true, true, true)).0;
            && DirectFetch(after, pc) == Fetched(data)
            && CachedFetch(c, after, pc).1 == DirectFetch(b, pc)
            && !Coherent(c, after)
  {
    hide WriteBus, CachedFetch, DirectFetch;
    var after := WriteBus(b, pc, data, Mask(true, true, true, true)).0;
    WholeWordWritten(b, pc, data);
    RamFetch(after, pc);
    CoherentFetch(c, b, pc);
    HitFetch(c, b, after, pc);
    if Coherent(c, after) {
      CoherentFetch(c, after, pc);
    }
  }

  lemma {:induction false} HitFetch(c: Cache, b: BusState, after: BusState, pc: Word)
    requires Hit(c[SlotOf(pc)], pc)
    ensures CachedFetch(c, after, pc) == CachedFetch(c, b, pc)
  {
  }

  lemma {:induction false} WholeWordWritten(b: BusState, pc: Word, data: Word)
    requires pc % 4 == 0 && pc >= RAM_START
    ensures WriteBus(b, pc, data, Mask(true, true, true, true)).0
         == b.(ram := b.ram.(words := b.ram.words[(pc - RAM_START) / 4 := data]))
  {
    hide ByteOf, Join;
    JoinBytes(data);
  }

  /** In RAM, an aligned fetch without a cache delivers the word at the pc. */
  lemma {:induction false} RamFetch(b: BusState, pc: Word)
    requires pc % 4 == 0 && pc >= RAM_START
    ensures DirectFetch(b, pc) == Fetched(b.ram.words[(pc - RAM_START) / 4])
  {
    PageWord(pc);
    hide PageBase, WordInPage;
  }

  /** In ROM it delivers the little-endian number of four bytes of the flash image. */
  lemma {:induction false} RomFetch(b: BusState, image: seq<Byte>, pc: Word)
    requires pc % 4 == 0 && 0x10_0000 <= pc < 0x12_0000 && b.rom.words == RomImage(image)
    ensures var a := pc - 0x10_0000;
            DirectFetch(b, pc)
              == Fetched(ImageByte(image, a) + 0x100 * ImageByte(image, a + 1)
                         + 0x1_0000 * ImageByte(image, a + 2) + 0x100_0000 * ImageByte(image, a + 3))
  {
    RomPageWord(pc);
    RomImageWord(image, (pc - ROM_START) / 4);
    ModUnique(pc - ROM_START, 4, pc / 4 - 0x4_0000, 0);
    hide PageBase, WordInPage, RomImage, ImageByte;
  }

  lemma {:induction false} RomPageWord(pc: Word)
    requires pc % 4 == 0 && 0x10_0000 <= pc < 0x12_0000
    ensures (PageBase(pc) - ROM_START) / 4 + WordInPage(pc) == (pc - ROM_START) / 4
    ensures PageBase(pc) >= ROM_START && (PageBase(pc) - ROM_START) % 0x1000 == 0
    ensures PageBase(pc) - ROM_START + 0x1000 <= ROM_SIZE
  {
    var q, r := pc / 0x1000, pc % 0x1000;
    assert pc == 0x1000 * q + r;
    assert PageBase(pc) - ROM_START == 0x1000 * (q - 0x100);
    assert pc - ROM_START == 0x1000 * (q - 0x100) + r;
  }

  lemma {:induction false} PageWord(pc: Word)
    requires pc % 4 == 0 && pc >= RAM_START
    ensures (PageBase(pc) - RAM_START) / 4 + WordInPage(pc) == (pc - RAM_START) / 4
    ensures PageBase(pc) >= RAM_START && (PageBase(pc) - RAM_START) % 0x1000 == 0
    ensures PageBase(pc) - RAM_START + 0x1000 <= RAM_SIZE
  {
    var q, r := pc / 0x1000, pc % 0x1000;
    assert pc == 0x1000 * q + r;
    assert PageBase(pc) - RAM_START == 0x1000 * (q - 0x8_0000);
    assert pc - RAM_START == 0x1000 * (q - 0x8_0000) + r;
  }

  /** `fence.i` does not help: the decoded instruction only moves on, and every valid entry stays valid. */
  lemma {:induction false} FenceIKeepsCache(m: Machine)
    requires var f := CachedFetch(m.cache, m.core.bus, m.core.pc).1;
             && f.Fetched? && Decode.Decode(m.core.regs, f.word, m.core.pc) == Ok(BLANK.(fencei := true))
             && !InterruptPending(m.core.csr)
    ensures var after := CachedStep(m).0;
            && after.cache == CachedFetch(m.cache, m.core.bus, m.core.pc).0
            && after.core == m.core.(pc := Wrap(m.core.pc + 4), csr := Csr.Ticked(m.core.csr))
  {
    hide Decode.Decode, CachedFetch;
  }

  const FENCE_I: Word := 0x0000_100f

  /** There is such an instruction: it decodes alike on every machine. */
  lemma {:induction false} DecodesFenceI(x: Registers, pc: Word)
    ensures Decode.Decode(x, FENCE_I, pc) == Ok(BLANK.(fencei := true))
  {
  }
}
