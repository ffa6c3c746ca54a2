/** The debugger's watchpoint check after a CPU cycle (main/src/emulator-debug.cpp): what it looks at, and when
    it throws. */
module WatchCheck {
  import opened Words
  import opened Decode
  import opened Cpu
  import opened Csr
  import opened Bus
  import opened Traps
  import opened Watchpoints
  import Alu
  import Fetch
  import LoadStore

  /** `check_watchpoint` on the result of a cycle. */
  function CheckedAfter(entries: seq<Watchpoint>, r: CpuResult): Verdict {
    Checked(entries, r.d.memOp, r.d.memFunct, r.aluResult)
  }

  /** A load or store opcode with a funct3 that names no width. */
  predicate HasNoWidth(i: Word) {
    var opcode := (i / 4) % 32;
    i % 4 == 3 && ((opcode == 0x00 && Funct3(i) in {3, 6, 7}) || (opcode == 0x08 && Funct3(i) >= 3))
  }

  lemma {:induction false} WidthOf(x: Registers, i: Word, pc: Word)
    ensures var r := Decode.Decode(x, i, pc);
            HasNoWidth(i) <==> r.Ok? && r.value.memOp != NoMem && r.value.memFunct == NoFunct
  {
    hide ImmI, ImmS, ImmB, ImmJ, ImmU, BaseOp, MulOp, BranchOpOf;
  }

  lemma {:induction false} OperateShows(c: Core, r0: CpuResult)
    ensures var report := Operate(c, r0).1;
            report.Report? ==> report.result.d == r0.d
                               && report.result.aluResult == Alu.Compute(r0.d.aluOp, r0.d.num1, r0.d.num2)
                               && (report.result.trap.None? && r0.d.memOp != NoMem && r0.trap.None?
                                   ==> LoadStore.IsAligned(report.result.aluResult, r0.d.memFunct))
  {
    hide Alu.Compute, Alu.Taken, Retire, AccessCsr, ReadBus, WriteBus;
    hide LoadStore.IsAligned, LoadStore.LoadValue, LoadStore.StoreMask;
  }

  /** What the result of a cycle shows of the decoded instruction: all of it, and the effective address of a
      load or store, unless an interrupt was taken before it was computed. The source then leaves the address
      unset; here it is 0. */
  lemma {:induction false} ResultShows(c: Core, inst: Word)
    ensures var (decoded, report) := (Decode.Decode(c.regs, inst, c.pc), Cycle(c, Fetch.Fetched(inst)).1);
            && report.Report?
            && report.result.d == (if decoded.Ok? then decoded.value else BLANK)
            && (report.result.d.memOp != NoMem ==>
                  report.result.aluResult == if report.result.trap == Some(MachineTimerInterrupt) then 0
                                             else Wrap(decoded.value.num1 + decoded.value.num2))
            && (report.result.d.memOp != NoMem && report.result.trap.None?
                ==> LoadStore.IsAligned(report.result.aluResult, report.result.d.memFunct))
  {
    hide Operate, Decode.Decode, InterruptPending, TrapHandled, LoadStore.IsAligned, Alu.Compute;
    StepThrowsIff(c, Fetch.Fetched(inst));
    DecodedExclusive(c.regs, inst, c.pc);
    var decoded := Decode.Decode(c.regs, inst, c.pc);
    if decoded.Ok? {
      var r0 := Blank(c.pc).(inst := inst, d := decoded.value);
      OperateShows(c, r0);
      OperateTrapKind(c, r0);
      if decoded.value.memOp != NoMem {
        AccessesAdd(c.regs, inst, c.pc);
        AddIs(decoded.value.num1, decoded.value.num2);
      }
    }
  }

  lemma {:induction false} AddIs(x: Word, y: Word)
    ensures Alu.Compute(Alu.Add, x, y) == Wrap(x + y)
  {
  }

  /** The check throws exactly after a load or store that names no width, whatever is watched: also when the
      CPU itself has only trapped. */
  lemma {:induction false} CheckThrowsIff(entries: seq<Watchpoint>, c: Core, inst: Word)
    ensures var report := Cycle(c, Fetch.Fetched(inst)).1;
            report.Report? && (CheckedAfter(entries, report.result) == CheckThrows <==> HasNoWidth(inst))
  {
    hide Cycle, Decode.Decode, HasNoWidth, FirstTouching, LoadStore.IsAligned;
    ResultShows(c, inst);
    WidthOf(c.regs, inst, c.pc);
  }

  /** After a completed load or store the check looks up a range within the address space, so that
      `ReportRightIff` says when its answer is right. */
  lemma {:induction false} CompletedAccessFits(entries: seq<Watchpoint>, c: Core, inst: Word)
    ensures var report := Cycle(c, Fetch.Fetched(inst)).1;
            report.Report? && report.result.trap.None? && report.result.d.memOp != NoMem ==>
              var q := AddressRange(report.result.aluResult, LoadStore.Width(report.result.d.memFunct));
              && 0 < q.size && q.start + q.size <= TWO_32
              && (CheckedAfter(entries, report.result).Hit? <==> Reported(entries, q, report.result.d.memOp))
  {
    hide Cycle, Decode.Decode, FirstTouching, LoadStore.IsAligned;
    ResultShows(c, inst);
    var r := Cycle(c, Fetch.Fetched(inst)).1.result;
    if r.trap.None? && r.d.memOp != NoMem {
      AlignedFits(r.aluResult, r.d.memFunct);
    }
  }

  /** The range that the check looks up after a load or store that names a width. */
  function CheckedRange(r: CpuResult): AddressRange {
    AddressRange(r.aluResult, LoadStore.Width(r.d.memFunct))
  }

  /** What the check should answer: the cycle completed an access to a byte that is watched for it. */
  predicate TouchedWatched(entries: seq<Watchpoint>, r: CpuResult) {
    r.trap.None? && r.d.memOp != NoMem && ShouldReport(entries, CheckedRange(r), r.d.memOp)
  }

  lemma {:induction false} FailedFetchShows(c: Core, f: Fetch.Outcome)
    requires !f.Fetched?
    ensures var report := Cycle(c, f).1;
            report.Report? ==> report.result.d.memOp == NoMem && report.result.trap.Some?
  {
  }

  /** For every map, every state and whatever the fetch delivered: the answer after a cycle is right exactly if
      the cycle did not trap and either accessed nothing or meets `RightReport`, or if it trapped and the check
      does not hit. */
  lemma {:induction false} CheckRightIff(entries: seq<Watchpoint>, c: Core, f: Fetch.Outcome)
    requires Ordered(entries)
    ensures var report := Cycle(c, f).1;
            report.Report? ==>
              var r := report.result;
              CheckedAfter(entries, r).Hit? == TouchedWatched(entries, r)
              <==> if r.trap.Some? then !CheckedAfter(entries, r).Hit?
                   else r.d.memOp == NoMem || RightReport(entries, CheckedRange(r), r.d.memOp)
  {
    hide Cycle, Decode.Decode, FirstTouching, LoadStore.IsAligned, RightReport, ShouldReport;
    if f.Fetched? {
      ResultShows(c, f.word);
      var r := Cycle(c, f).1.result;
      if r.trap.None? && r.d.memOp != NoMem {
        AlignedFits(r.aluResult, r.d.memFunct);
        ReportRightIff(entries, CheckedRange(r), r.d.memOp);
      }
    } else {
      FailedFetchShows(c, f);
    }
  }

  const LOAD_FROM_0: Word := 0x0000_2083  // lw x1, 0(x0)

  /** A load that only traps is reported: `lw x1, 0(x0)` faults, since nothing is mapped at 0, and a watchpoint
      there is hit all the same. */
  lemma {:induction false} TrappedLoadIsReported(c: Core)
    requires c.regs[0] == 0 && !InterruptPending(c.csr)
    ensures var report := Cycle(c, Fetch.Fetched(LOAD_FROM_0)).1;
            var entries := [Watchpoint(AddressRange(0, 4), true, true)];
            && report.Report? && report.result.trap == Some(LoadAccessFault)
            && CheckedAfter(entries, report.result) == Hit(true, false)
            && !TouchedWatched(entries, report.result)
  {
    hide InterruptPending;
    DecodesLoad(c);
    hide Decode.Decode;
    ResultShows(c, LOAD_FROM_0);
    LoadFaults(c);
  }

  lemma {:induction false} DecodesLoad(c: Core)
    ensures Decode.Decode(c.regs, LOAD_FROM_0, c.pc)
         == Ok(BLANK.(writeback := MemoryValue, rd := 1, num1 := c.regs[0], memOp := Load, memFunct := LoadWord))
  {
    assert ImmI(LOAD_FROM_0) == 0;
  }

  lemma {:induction false} LoadFaults(c: Core)
    requires c.regs[0] == 0 && !InterruptPending(c.csr)
    ensures var report := Cycle(c, Fetch.Fetched(LOAD_FROM_0)).1;
            report.Report? && report.result.trap == Some(LoadAccessFault)
  {
    hide InterruptPending;
    DecodesLoad(c);
    hide Decode.Decode;
  }

  lemma {:induction false} AlignedFits(address: Word, f: MemFunct)
    requires LoadStore.IsAligned(address, f)
    ensures 0 < LoadStore.Width(f) && address + LoadStore.Width(f) <= TWO_32
  {
  }
}
