/** The clock peripheral (lib/device/peripheral/clock.cpp): 64-bit registers read in two halves. */
module Clock {
  import opened Words
  import opened BlockMemory
  import Csr

  datatype Reg64 = Reg64(low: Word, high: Word) {
    function Value(): DWord {
      high * TWO_32 + low
    }
  }

  function ToReg(v: DWord): Reg64 {
    Reg64(v % TWO_32, v / TWO_32)
  }

  datatype ClockState = ClockState(timer: Reg64, comp: Reg64, timerLatch: Option<Word>, compLatch: Option<Word>)

  const POWER_ON := ClockState(Reg64(0, 0), Reg64(0, 0), None, None)

  function ReadClock(c: ClockState, address: nat): (ClockState, Result<Word, BusError>) {
    if address % 4 != 0 then (c, Err(UnalignedAccess))
    else if address / 4 == 0 then
      if c.timerLatch.Some? then (c.(timerLatch := None), Ok(c.timerLatch.value)) else (c, Ok(c.timer.low))
    else if address / 4 == 1 then (c.(timerLatch := Some(c.timer.low)), Ok(c.timer.high))
    else if address / 4 == 2 then
      if c.compLatch.Some? then (c.(compLatch := None), Ok(c.compLatch.value)) else (c, Ok(c.comp.low))
    else if address / 4 == 3 then (c.(compLatch := Some(c.comp.low)), Ok(c.comp.high))
    else (c, Err(AccessFault))
  }

  function WriteClock(c: ClockState, address: nat, data: Word, mask: Mask): (ClockState, Option<BusError>) {
    if address % 4 != 0 then (c, Some(UnalignedAccess))
    else if address / 4 == 0 then
      (c.(timer := c.timer.(low := Merged(c.timer.low, data, mask)), timerLatch := None), None)
    else if address / 4 == 1 then
      (c.(timer := c.timer.(high := Merged(c.timer.high, data, mask)), timerLatch := None), None)
    else if address / 4 == 2 then
      (c.(comp := c.comp.(low := Merged(c.comp.low, data, mask)), compLatch := None), None)
    else if address / 4 == 3 then
      (c.(comp := c.comp.(high := Merged(c.comp.high, data, mask)), compLatch := None), None)
    else (c, Some(AccessFault))
  }

  function TickClock(c: ClockState): ClockState {
    c.(timer := ToReg((c.timer.Value() + 1) % TWO_64))
  }

  /** mip after a tick that left the clock in state `c`. */
  function TickedMip(c: ClockState, mip: Word): Word {
    if c.timer.Value() > c.comp.Value() then Csr.RaiseTimer(mip) else mip
  }

  class ClockDevice {
    var timer: Reg64
    var comp: Reg64
    var counterTemplow: Option<Word>
    var compTemplow: Option<Word>

    ghost function State(): ClockState
      reads this
    {
      ClockState(timer, comp, counterTemplow, compTemplow)
    }

    constructor ()
      ensures State() == POWER_ON
    {
      timer, comp, counterTemplow, compTemplow := Reg64(0, 0), Reg64(0, 0), None, None;
    }

    method Read(address: nat) returns (r: Result<Word, BusError>)
      modifies this`counterTemplow, this`compTemplow
      ensures (State(), r) == ReadClock(old(State()), address)
    {
      if address % 4 != 0 {
        return Err(UnalignedAccess);
      }
      match address / 4 {
        case 0 =>
          if counterTemplow.Some? {
            r := Ok(counterTemplow.value);
            counterTemplow := None;
          } else {
            r := Ok(timer.low);
          }
        case 1 =>
          counterTemplow := Some(timer.low);
          r := Ok(timer.high);
        case 2 =>
          if compTemplow.Some? {
            r := Ok(compTemplow.value);
            compTemplow := None;
          } else {
            r := Ok(comp.low);
          }
        case 3 =>
          compTemplow := Some(comp.low);
          r := Ok(comp.high);
        case _ =>
          r := Err(AccessFault);
      }
    }

    method Write(address: nat, data: Word, mask: Mask) returns (error: Option<BusError>)
      modifies this
      ensures (State(), error) == WriteClock(old(State()), address, data, mask)
    {
      hide Merged;
      if address % 4 != 0 {
        return Some(UnalignedAccess);
      }
      match address / 4 {
        case 0 =>
          timer := timer.(low := Merged(timer.low, data, mask));
          counterTemplow := None;
        case 1 =>
          timer := timer.(high := Merged(timer.high, data, mask));
          counterTemplow := None;
        case 2 =>
          comp := comp.(low := Merged(comp.low, data, mask));
          compTemplow := None;
        case 3 =>
          comp := comp.(high := Merged(comp.high, data, mask));
          compTemplow := None;
        case _ =>
          return Some(AccessFault);
      }
      return None;
    }

    method Tick(csr: Csr.CsrModule)
      modifies this`timer, csr`mip
      ensures State() == TickClock(old(State()))
      ensures csr.File() == old(csr.File()).(mip := TickedMip(State(), old(csr.mip)))
    {
      timer := ToReg((timer.Value() + 1) % TWO_64);
      if timer.Value() > comp.Value() {
        csr.mip := Csr.RaiseTimer(csr.mip);
      }
    }
  }

  /* ---- Split reads ---- */

  datatype ClockOp = Tick | ReadOp(address: nat) | WriteOp(address: nat, data: Word, mask: Mask)

  function Perform(c: ClockState, op: ClockOp): ClockState {
    match op
    case Tick => TickClock(c)
    case ReadOp(address) => ReadClock(c, address).0
    case WriteOp(address, data, mask) => WriteClock(c, address, data, mask).0
  }

  function PerformAll(c: ClockState, ops: seq<ClockOp>): ClockState
    decreases |ops|
  {
    if ops == [] then c else PerformAll(Perform(c, ops[0]), ops[1..])
  }

  /** The operation names the register pair at `base` (0: timer, 8: compare). */
  predicate Names(op: ClockOp, base: nat) {
    !op.Tick? && base <= op.address < base + 8
  }

  lemma {:induction false} LatchesKept(c: ClockState, ops: seq<ClockOp>)
    ensures (forall i :: 0 <= i < |ops| ==> !Names(ops[i], 0)) ==> PerformAll(c, ops).timerLatch == c.timerLatch
    ensures (forall i :: 0 <= i < |ops| ==> !Names(ops[i], 8)) ==> PerformAll(c, ops).compLatch == c.compLatch
    decreases |ops|
  {
    if ops != [] {
      assert ops[0] in ops;
      LatchesKept(Perform(c, ops[0]), ops[1..]);
    }
  }

  /** Reading the high half and later the low half of a register yields its 64-bit value at the first
      read, whatever ticks and accesses to the other register happen in between. */
  lemma {:induction false} SplitReadIsAtomic(c: ClockState, ops: seq<ClockOp>)
    ensures (forall i :: 0 <= i < |ops| ==> !Names(ops[i], 0)) ==>
              var (c1, high) := ReadClock(c, 4);
              var (_, low) := ReadClock(PerformAll(c1, ops), 0);
              high.Ok? && low.Ok? && high.value * TWO_32 + low.value == c.timer.Value()
    ensures (forall i :: 0 <= i < |ops| ==> !Names(ops[i], 8)) ==>
              var (c1, high) := ReadClock(c, 12);
              var (_, low) := ReadClock(PerformAll(c1, ops), 8);
              high.Ok? && low.Ok? && high.value * TWO_32 + low.value == c.comp.Value()
  {
    LatchesKept(ReadClock(c, 4).0, ops);
    LatchesKept(ReadClock(c, 12).0, ops);
  }

  /** Without the latch a read torn by a carry would be wrong: here the halves read live give 0. */
  lemma {:induction false} LiveReadTears()
    ensures var c := ClockState(Reg64(0xffff_ffff, 0), Reg64(0, 0), None, None);
            c.timer.high * TWO_32 + TickClock(c).timer.low == 0 && c.timer.Value() == 0xffff_ffff
  {
  }

  const ALL_BYTES := Mask(true, true, true, true)

  /** Every write to a register drops a latched half of it, so that the next read of the low half is live. */
  lemma {:induction false} WriteDropsLatch(c: ClockState, address: nat, data: Word, mask: Mask)
    ensures var after := WriteClock(c, address, data, mask).0;
            && (address in {0, 4} ==> after.timerLatch.None? && ReadClock(after, 0).1 == Ok(after.timer.low))
            && (address in {8, 12} ==> after.compLatch.None? && ReadClock(after, 8).1 == Ok(after.comp.low))
  {
    hide Merged;
  }

  /** Writing both halves of a register, in either order, sets its 64-bit value, and leaves the other register
      alone. */
  lemma {:induction false} FullWrites(c: ClockState, low: Word, high: Word)
    ensures var upward := WriteClock(WriteClock(c, 8, low, ALL_BYTES).0, 12, high, ALL_BYTES);
            var downward := WriteClock(WriteClock(c, 12, high, ALL_BYTES).0, 8, low, ALL_BYTES);
            && upward == downward && upward.1.None?
            && upward.0.comp.Value() == high * 0x1_0000_0000 + low
            && upward.0.timer == c.timer && upward.0.timerLatch == c.timerLatch
    ensures var upward := WriteClock(WriteClock(c, 0, low, ALL_BYTES).0, 4, high, ALL_BYTES);
            var downward := WriteClock(WriteClock(c, 4, high, ALL_BYTES).0, 0, low, ALL_BYTES);
            && upward == downward && upward.1.None?
            && upward.0.timer.Value() == high * 0x1_0000_0000 + low
            && upward.0.comp == c.comp && upward.0.compLatch == c.compLatch
  {
    hide Merged;
    WholeWord(c.comp.low, low);
    WholeWord(c.comp.high, high);
    WholeWord(c.timer.low, low);
    WholeWord(c.timer.high, high);
  }

  lemma {:induction false} WholeWord(was: Word, w: Word)
    ensures Merged(was, w, ALL_BYTES) == w
  {
    hide ByteOf, Join;
    JoinBytes(w);
  }
}
