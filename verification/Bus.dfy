/** The platform's address map (main/src/platform.cpp, lib/device/interconnect.cpp) over its devices. */
module Bus {
  import opened Words
  import opened BlockMemory
  import opened Clock

  /** The UART. What it receives, and its random status bit, come from outside: `input` supplies them. */
  datatype UartState = UartState(config: Word, consumed: nat, input: nat -> Word)

  function ReadUart(u: UartState, address: nat): (UartState, Result<Word, BusError>) {
    if address % 4 != 0 then (u, Err(UnalignedAccess))
    else if address / 4 == 1 then (u.(consumed := u.consumed + 1), Ok(u.input(u.consumed)))
    else if address / 4 == 2 then (u, Ok(u.config))
    else if address / 4 == 3 then (u.(consumed := u.consumed + 1), Ok(2 + u.input(u.consumed) % 2))
    else (u, Err(AccessFault))
  }

  function WriteUart(u: UartState, address: nat, data: Word, mask: Mask): (UartState, Option<BusError>) {
    if address % 4 != 0 then (u, Some(UnalignedAccess))
    else if address / 4 == 0 then (u, None)
    else if address / 4 == 2 then (u.(config := Merged(u.config, data, mask)), None)
    else (u, Some(AccessFault))
  }

  class UartDevice {
    var config: Word
    var consumed: nat
    const input: nat -> Word

    ghost function State(): UartState
      reads this
    {
      UartState(config, consumed, input)
    }

    constructor (input: nat -> Word)
      ensures State() == UartState(0, 0, input)
    {
      this.input, config, consumed := input, 0, 0;
    }

    method Read(address: nat) returns (r: Result<Word, BusError>)
      modifies this`consumed
      ensures (State(), r) == ReadUart(old(State()), address)
    {
      if address % 4 != 0 {
        return Err(UnalignedAccess);
      }
      match address / 4 {
        case 1 =>
          r := Ok(input(consumed));
          consumed := consumed + 1;
        case 2 =>
          r := Ok(config);
        case 3 =>
          r := Ok(2 + input(consumed) % 2);
          consumed := consumed + 1;
        case _ =>
          r := Err(AccessFault);
      }
    }

    method Write(address: nat, data: Word, mask: Mask) returns (error: Option<BusError>)
      modifies this`config
      ensures (State(), error) == WriteUart(old(State()), address, data, mask)
    {
      hide Merged;
      if address % 4 != 0 {
        return Some(UnalignedAccess);
      }
      match address / 4 {
        case 0 =>
          return None;
        case 2 =>
          config := Merged(config, data, mask);
          return None;
        case _ =>
          return Some(AccessFault);
      }
    }
  }

  /* ---- Address map ---- */

  const UART_START := 0x1_0000
  const CLOCK_START := 0x1_1000
  const ROM_START := 0x10_0000
  const RAM_START := 0x8000_0000
  const PERIPHERAL_SIZE := 0x100
  const ROM_SIZE := 0x2_0000
  const RAM_SIZE := 0x8000_0000

  datatype Device = Ram | Rom | Uart | ClockPeripheral

  datatype Location = Location(device: Device, offset: nat)

  function Locate(address: nat): Option<Location> {
    if RAM_START <= address < RAM_START + RAM_SIZE then Some(Location(Ram, address - RAM_START))
    else if ROM_START <= address < ROM_START + ROM_SIZE then Some(Location(Rom, address - ROM_START))
    else if UART_START <= address < UART_START + PERIPHERAL_SIZE then Some(Location(Uart, address - UART_START))
    else if CLOCK_START <= address < CLOCK_START + PERIPHERAL_SIZE then
      Some(Location(ClockPeripheral, address - CLOCK_START))
    else None
  }

  datatype Devices = Devices(rom: Block, ram: Block, uart: UartState, clock: ClockState)

  /** The devices as the platform builds them: their sizes are fixed and the ROM is locked. */
  type BusState = d: Devices | d.rom.size == ROM_SIZE && d.ram.size == RAM_SIZE && d.rom.locked && !d.ram.locked
    witness Devices(FlatBlock(ROM_SIZE, true, NoFill, 0, FreshWords(ROM_SIZE, NoFill, 0)),
                    FlatBlock(RAM_SIZE, false, NoFill, 0, FreshWords(RAM_SIZE, NoFill, 0)),
                    UartState(0, 0, _ => 0), POWER_ON)

  function ReadBus(b: BusState, address: nat): (BusState, Result<Word, BusError>) {
    match Locate(address)
    case None => (b, Err(OutOfRange))
    case Some(Location(Ram, offset)) => (b, ReadWord(b.ram, offset))
    case Some(Location(Rom, offset)) => (b, ReadWord(b.rom, offset))
    case Some(Location(Uart, offset)) =>
      var (uart, r) := ReadUart(b.uart, offset);
      (b.(uart := uart), r)
    case Some(Location(ClockPeripheral, offset)) =>
      var (clock, r) := ReadClock(b.clock, offset);
      (b.(clock := clock), r)
  }

  function ReadBusPage(b: BusState, address: nat): Result<Page, BusError> {
    match Locate(address)
    case None => Err(OutOfRange)
    case Some(Location(Ram, offset)) => PageOf(b.ram, offset)
    case Some(Location(Rom, offset)) => PageOf(b.rom, offset)
    case Some(_) => Err(NotSupported)
  }

  function WriteBus(b: BusState, address: nat, data: Word, mask: Mask): (BusState, Option<BusError>) {
    match Locate(address)
    case None => (b, Some(OutOfRange))
    case Some(Location(Ram, offset)) =>
      var (ram, e) := WriteWord(b.ram, offset, data, mask);
      (b.(ram := ram), e)
    case Some(Location(Rom, offset)) =>
      var (rom, e) := WriteWord(b.rom, offset, data, mask);
      (b.(rom := rom), e)
    case Some(Location(Uart, offset)) =>
      var (uart, e) := WriteUart(b.uart, offset, data, mask);
      (b.(uart := uart), e)
    case Some(Location(ClockPeripheral, offset)) =>
      var (clock, e) := WriteClock(b.clock, offset, data, mask);
      (b.(clock := clock), e)
  }

  const ALL := Mask(true, true, true, true)

  /** The timer's registers at 0x11000 to 0x1100c: reading the high half and then the low half through the bus
      delivers the timer, and two stores set the compare value; memory and UART are not involved. */
  lemma {:induction false} TimerThroughBus(b: BusState, low: Word, high: Word)
    ensures var (b1, h) := ReadBus(b, 0x1_1004);
            var (b2, l) := ReadBus(b1, 0x1_1000);
            h.Ok? && l.Ok? && h.value * 0x1_0000_0000 + l.value == b.clock.timer.Value()
            && b2 == b.(clock := b2.clock)
    ensures var (b1, e1) := WriteBus(b, 0x1_1008, low, ALL);
            var (b2, e2) := WriteBus(b1, 0x1_100c, high, ALL);
            e1.None? && e2.None? && b2.clock.comp.Value() == high * 0x1_0000_0000 + low
            && b2 == b.(clock := b2.clock)
  {
    hide Merged;
    FullWrites(b.clock, low, high);
  }

  /** The UART at 0x10000: the configuration register keeps what is stored in it, and reading the receive
      register twice delivers two consecutive inputs. */
  lemma {:induction false} UartThroughBus(b: BusState, v: Word)
    ensures var (b1, e) := WriteBus(b, 0x1_0008, v, ALL);
            e.None? && ReadBus(b1, 0x1_0008) == (b1, Ok(v)) && b1 == b.(uart := b.uart.(config := v))
    ensures var (b1, first) := ReadBus(b, 0x1_0004);
            var (b2, second) := ReadBus(b1, 0x1_0004);
            && first == Ok(b.uart.input(b.uart.consumed)) && second == Ok(b.uart.input(b.uart.consumed + 1))
            && b2 == b.(uart := b.uart.(consumed := b.uart.consumed + 2))
    ensures WriteBus(b, 0x1_0000, v, ALL) == (b, None)
  {
    hide Merged;
    WholeWord(b.uart.config, v);
  }

  /** The flash image padded with zeros. */
  function RomImage(image: seq<Byte>): seq<Word> {
    seq(PageCount(ROM_SIZE) * PAGE_WORDS, k requires k >= 0 => Overlaid(0, image, k))
  }

  /** Byte by byte: the image, and zeros behind it. */
  lemma {:induction false} RomImageByte(image: seq<Byte>, a: nat)
    requires a < ROM_SIZE
    ensures a / 4 < |RomImage(image)|
    ensures ByteAt(RomImage(image), a) == if a < |image| then image[a] else 0
  {
    hide ByteOf, Overlaid;
    OverlaidByte(0, image, a / 4, a % 4);
    ZeroBytes(a % 4);
  }

  lemma {:induction false} ZeroBytes(k: Lane)
    ensures ByteOf(0, k) == 0
  {
  }

  function ImageByte(image: seq<Byte>, a: nat): Byte {
    if a < |image| then image[a] else 0
  }

  /** Word by word: the little-endian number of four bytes of the image. */
  lemma {:induction false} RomImageWord(image: seq<Byte>, k: nat)
    requires 4 * k < ROM_SIZE
    ensures k < |RomImage(image)|
    ensures RomImage(image)[k]
         == ImageByte(image, 4 * k) + 0x100 * ImageByte(image, 4 * k + 1)
            + 0x1_0000 * ImageByte(image, 4 * k + 2) + 0x100_0000 * ImageByte(image, 4 * k + 3)
  {
    hide ByteOf, RomImage;
    RomImageByte(image, 4 * k);
    RomImageByte(image, 4 * k + 1);
    RomImageByte(image, 4 * k + 2);
    RomImageByte(image, 4 * k + 3);
    ByteValue(RomImage(image)[k]);
  }

  method BuildRom(image: seq<Byte>) returns (rom: PagedMemory)
    requires |image| <= ROM_SIZE
    ensures rom.Valid() && fresh(rom.Repr) && rom.size == ROM_SIZE
    ensures rom.Flat() == FlatBlock(ROM_SIZE, true, NoFill, 0, RomImage(image))
  {
    hide Overlaid;
    rom := new PagedMemory(ROM_SIZE, NoFill);
    var filled := rom.FillData(image);
    assert rom.Flat().words == RomImage(image);
    rom.Lock();
  }

  class PlatformMemory {
    const rom: PagedMemory
    const ram: PagedMemory
    const uart: UartDevice
    const clock: ClockDevice

    ghost function Repr(): set<object>
      reads this, rom, ram
    {
      {this, uart, clock} + rom.Repr + ram.Repr
    }

    ghost predicate Valid()
      reads this, rom, ram, Repr()
    {
      && rom.Valid() && ram.Valid() && rom.Repr !! ram.Repr
      && {this, uart, clock} !! rom.Repr && {this, uart, clock} !! ram.Repr
      && rom.size == ROM_SIZE && ram.size == RAM_SIZE && rom.writeLock && !ram.writeLock
    }

    ghost function State(): BusState
      reads this, rom, ram, Repr()
      requires Valid()
    {
      Devices(rom.Flat(), ram.Flat(), uart.State(), clock.State())
    }

    /** `Platform::Platform`: the image is copied into the ROM, which is then locked. */
    constructor (image: seq<Byte>, policy: FillPolicy, input: nat -> Word)
      requires |image| <= ROM_SIZE
      ensures Valid() && fresh(Repr())
      ensures State() == Devices(FlatBlock(ROM_SIZE, true, NoFill, 0, RomImage(image)),
                                 FlatBlock(RAM_SIZE, false, policy, 0, FreshWords(RAM_SIZE, policy, 0)),
                                 UartState(0, 0, input), POWER_ON)
    {
      var r := BuildRom(image);
      rom := r;
      ram := new PagedMemory(RAM_SIZE, policy);
      uart := new UartDevice(input);
      clock := new ClockDevice();
    }

    method Read(address: nat) returns (r: Result<Word, BusError>)
      requires Valid()
      modifies Repr()
      ensures Valid() && fresh(Repr() - old(Repr()))
      ensures (State(), r) == ReadBus(old(State()), address)
    {
      hide ReadWord, ReadUart, ReadClock;
      match Locate(address) {
        case None => r := Err(OutOfRange);
        case Some(Location(Ram, offset)) => r := ram.Read(offset);
        case Some(Location(Rom, offset)) => r := rom.Read(offset);
        case Some(Location(Uart, offset)) => r := uart.Read(offset);
        case Some(Location(ClockPeripheral, offset)) => r := clock.Read(offset);
      }
    }

    method ReadPage(address: nat) returns (r: Result<Page, BusError>)
      requires Valid()
      modifies Repr()
      ensures Valid() && fresh(Repr() - old(Repr()))
      ensures State() == old(State()) && r == ReadBusPage(State(), address)
    {
      hide PageOf;
      match Locate(address) {
        case None => r := Err(OutOfRange);
        case Some(Location(Ram, offset)) => r := ram.ReadPage(offset);
        case Some(Location(Rom, offset)) => r := rom.ReadPage(offset);
        case _ => r := Err(NotSupported);
      }
    }

    method Write(address: nat, data: Word, mask: Mask) returns (error: Option<BusError>)
      requires Valid()
      modifies Repr()
      ensures Valid() && fresh(Repr() - old(Repr()))
      ensures (State(), error) == WriteBus(old(State()), address, data, mask)
    {
      hide WriteUart, WriteClock, Merged;
      match Locate(address) {
        case None => error := Some(OutOfRange);
        case Some(Location(Ram, offset)) => error := ram.Write(offset, data, mask);
        case Some(Location(Rom, offset)) => error := rom.Write(offset, data, mask);
        case Some(Location(Uart, offset)) => error := uart.Write(offset, data, mask);
        case Some(Location(ClockPeripheral, offset)) => error := clock.Write(offset, data, mask);
      }
    }
  }

  /** The platform's memory, or null where the source throws because the image does not fit. */
  method BuildMemory(image: seq<Byte>, policy: FillPolicy, input: nat -> Word) returns (memory: PlatformMemory?)
    ensures memory == null <==> |image| > ROM_SIZE
    ensures memory != null ==>
              && memory.Valid() && fresh(memory.Repr())
              && memory.State().rom.words == RomImage(image)
              && memory.State().ram.words == FreshWords(RAM_SIZE, policy, 0)
              && memory.State().uart.consumed == 0 && memory.State().clock == POWER_ON
  {
    if |image| > ROM_SIZE {
      return null;
    }
    memory := new PlatformMemory(image, policy, input);
  }
}
