/** Instruction fetch through a direct-mapped cache of 4 KiB pages (lib/core/memory.cpp,
    `Inst_fetch_module`). */
module Fetch {
  import opened Words
  import opened Decode
  import opened BlockMemory
  import opened Bus

  const SLOTS := 1024

  datatype Entry = Entry(data: Page, address: Word, valid: bool)

  type Cache = c: seq<Entry> | |c| == 1024 witness EMPTY

  const EMPTY := seq(1024, _ => Entry(seq(1024, _ => 0), 0, false))

  datatype Outcome = Fetched(word: Word) | FetchTraps(trap: Trap) | FetchThrows

  function PageBase(pc: Word): Word { pc - pc % 0x1000 }

  function SlotOf(pc: Word): (s: nat)
    ensures s < SLOTS
  {
    (pc / 0x1000) % SLOTS
  }

  function WordInPage(pc: Word): (i: nat)
    ensures i < 1024
  {
    (pc % 0x1000) / 4
  }

  function FetchError(e: BusError): Outcome {
    match e
    case OutOfRange => FetchTraps(InstAccessFault)
    case AccessFault => FetchTraps(InstAccessFault)
    case UnalignedAccess => FetchTraps(InstAddressMisaligned)
    case NotSupported => FetchThrows
  }

  predicate Hit(e: Entry, pc: Word) {
    e.valid && e.address == PageBase(pc)
  }

  function CachedFetch(c: Cache, b: BusState, pc: Word): (Cache, Outcome) {
    var s := SlotOf(pc);
    if pc % 4 != 0 then (c, FetchTraps(InstAddressMisaligned))
    else if Hit(c[s], pc) then (c, Fetched(c[s].data[WordInPage(pc)]))
    else
      var r := ReadBusPage(b, PageBase(pc));
      if r.Err? then (c[s := c[s].(valid := false)], FetchError(r.error))
      else (c[s := Entry(r.value, PageBase(pc), true)], Fetched(r.value[WordInPage(pc)]))
  }

  /** Fetching without a cache: the page is read again every time. */
  function DirectFetch(b: BusState, pc: Word): Outcome {
    if pc % 4 != 0 then FetchTraps(InstAddressMisaligned)
    else
      var r := ReadBusPage(b, PageBase(pc));
      if r.Err? then FetchError(r.error) else Fetched(r.value[WordInPage(pc)])
  }

  function Invalidated(c: Cache): Cache {
    seq(1024, s requires 0 <= s < 1024 => c[s].(valid := false))
  }

  class InstFetch {
    const cache: array<Entry>

    ghost predicate Valid()
      reads this, cache
    {
      cache.Length == SLOTS
    }

    ghost function Contents(): Cache
      reads this, cache
      requires Valid()
    {
      cache[..]
    }

    constructor ()
      ensures Valid() && fresh(cache) && Contents() == EMPTY
    {
      var blank := Entry(seq(1024, _ => 0), 0, false);
      cache := new Entry[SLOTS](_ => blank);
    }

    method Fetch(memory: PlatformMemory, pc: Word) returns (r: Outcome)
      requires Valid() && memory.Valid() && cache !in memory.Repr() && this !in memory.Repr()
      modifies cache, memory.Repr()
      ensures Valid() && memory.Valid() && fresh(memory.Repr() - old(memory.Repr()))
      ensures memory.State() == old(memory.State())
      ensures (Contents(), r) == CachedFetch(old(Contents()), old(memory.State()), pc)
    {
      hide ReadBusPage, EMPTY;
      if pc % 4 != 0 {
        return FetchTraps(InstAddressMisaligned);
      }
      var s := SlotOf(pc);
      if !(cache[s].valid && cache[s].address == PageBase(pc)) {
        var read := memory.ReadPage(PageBase(pc));
        if read.Err? {
          cache[s] := cache[s].(valid := false);
          return FetchError(read.error);
        }
        cache[s] := Entry(read.value, PageBase(pc), true);
      }
      return Fetched(cache[s].data[WordInPage(pc)]);
    }

    method Fencei()
      requires Valid()
      modifies cache
      ensures Valid() && Contents() == Invalidated(old(Contents()))
    {
      forall s | 0 <= s < cache.Length {
        cache[s] := cache[s].(valid := false);
      }
    }
  }

  /* ---- Coherence ---- */

  /** Every valid entry holds the page that memory holds now. */
  predicate Coherent(c: Cache, b: BusState) {
    forall s :: 0 <= s < SLOTS && c[s].valid ==> ReadBusPage(b, c[s].address) == Ok(c[s].data)
  }

  /** Every valid entry sits in the slot of its page. */
  predicate Placed(c: Cache) {
    forall s :: 0 <= s < SLOTS && c[s].valid ==> c[s].address % 0x1000 == 0 && SlotOf(c[s].address) == s
  }

  lemma {:induction false} FetchKeeps(c: Cache, b: BusState, pc: Word)
    ensures Coherent(c, b) ==> Coherent(CachedFetch(c, b, pc).0, b)
    ensures Placed(c) ==> Placed(CachedFetch(c, b, pc).0)
  {
    hide ReadBusPage, WordInPage;
    FetchPlaces(c, b, pc);
    hide SlotOf, Placed;
  }

  lemma {:induction false} FetchPlaces(c: Cache, b: BusState, pc: Word)
    ensures Placed(c) ==> Placed(CachedFetch(c, b, pc).0)
  {
    hide ReadBusPage, WordInPage;
    BaseSlot(pc);
    hide PageBase;
  }

  lemma {:induction false} BaseSlot(pc: Word)
    ensures PageBase(pc) % 0x1000 == 0 && SlotOf(PageBase(pc)) == SlotOf(pc)
  {
    ModUnique(PageBase(pc), 0x1000, pc / 0x1000, 0);
  }

  lemma {:induction false} CoherentFetch(c: Cache, b: BusState, pc: Word)
    requires Coherent(c, b)
    ensures CachedFetch(c, b, pc).1 == DirectFetch(b, pc)
  {
    hide ReadBusPage;
  }

  /** The cache cannot be observed exactly as long as it is coherent. */
  lemma {:induction false} TransparentIffCoherent(c: Cache, b: BusState)
    requires Placed(c)
    ensures (forall pc: Word :: CachedFetch(c, b, pc).1 == DirectFetch(b, pc)) <==> Coherent(c, b)
  {
    hide ReadBusPage;
    if Coherent(c, b) {
      forall pc: Word
        ensures CachedFetch(c, b, pc).1 == DirectFetch(b, pc)
      {
        CoherentFetch(c, b, pc);
      }
    } else if forall pc: Word :: CachedFetch(c, b, pc).1 == DirectFetch(b, pc) {
      forall s | 0 <= s < SLOTS && c[s].valid
        ensures ReadBusPage(b, c[s].address) == Ok(c[s].data)
      {
        EntryIsPage(c, b, s);
      }
    }
  }

  lemma {:induction false} EntryIsPage(c: Cache, b: BusState, s: nat)
    requires Placed(c) && s < SLOTS && c[s].valid
    requires forall pc: Word :: CachedFetch(c, b, pc).1 == DirectFetch(b, pc)
    ensures ReadBusPage(b, c[s].address) == Ok(c[s].data)
  {
    hide ReadBusPage;
    var a := c[s].address;
    var r := ReadBusPage(b, a);
    InPage(a, 0);
    assert CachedFetch(c, b, a).1 == DirectFetch(b, a);
    assert r.Ok?;
    forall i | 0 <= i < 1024
      ensures r.value[i] == c[s].data[i]
    {
      InPage(a, i);
      var pc: Word := a + 4 * i;
      assert CachedFetch(c, b, pc).1 == Fetched(c[s].data[i]);
      assert DirectFetch(b, pc) == Fetched(c[s].data[i]);
    }
    assert r.value == c[s].data;
  }

  lemma {:induction false} InPage(a: Word, i: nat)
    requires a % 0x1000 == 0 && i < 1024
    ensures a + 4 * i < TWO_32 && PageBase(a + 4 * i) == a && SlotOf(a + 4 * i) == SlotOf(a)
    ensures WordInPage(a + 4 * i) == i && (a + 4 * i) % 4 == 0
  {
    var q := a / 0x1000;
    assert a == 0x1000 * q;
    ModUnique(a + 4 * i, 0x1000, q, 4 * i);
    ModUnique(a + 4 * i, 4, 0x400 * q + i, 0);
    assert q <= 0xf_ffff;
  }

  /* ---- Faults and conflicts ---- */

  /** An uncached fetch, by address: misaligned, throwing on the pages of UART and clock, faulting outside ROM
      and RAM, and otherwise delivering a word. */
  lemma {:induction false} FetchOutcome(b: BusState, pc: Word)
    ensures var f := DirectFetch(b, pc);
            if pc % 4 != 0 then f == FetchTraps(InstAddressMisaligned)
            else if 0x1_0000 <= pc < 0x1_2000 then f == FetchThrows
            else if 0x10_0000 <= pc < 0x12_0000 || pc >= 0x8000_0000 then f.Fetched?
            else f == FetchTraps(InstAccessFault)
  {
    var q, r := pc / 0x1000, pc % 0x1000;
    assert pc == 0x1000 * q + r && PageBase(pc) == 0x1000 * q;
  }

  /** A fetch that has to read a page and fails leaves its slot empty and the others as they were. */
  lemma {:induction false} FailedFetchEmpties(c: Cache, b: BusState, pc: Word, s: nat)
    requires pc % 4 == 0 && s < SLOTS && !Hit(c[SlotOf(pc)], pc) && !DirectFetch(b, pc).Fetched?
    ensures var (after, f) := CachedFetch(c, b, pc);
            f == DirectFetch(b, pc) && if s == SlotOf(pc) then !after[s].valid else after[s] == c[s]
  {
    hide ReadBusPage;
  }

  /** The cache holds a page exactly until a page with the same number modulo 1024 is fetched. */
  lemma {:induction false} FetchEvictsIff(c: Cache, b: BusState, first: Word, second: Word)
    requires DirectFetch(b, first).Fetched? && DirectFetch(b, second).Fetched?
    ensures var filled := CachedFetch(c, b, first).0;
            var after := CachedFetch(filled, b, second).0;
            Hit(after[SlotOf(first)], first)
            <==> first / 0x1000 == second / 0x1000 || (first / 0x1000 - second / 0x1000) % 1024 != 0
  {
    hide ReadBusPage;
    SlotsMeet(first / 0x1000, second / 0x1000);
    PageBaseSame(first, second);
  }

  lemma {:induction false} SlotsMeet(p: nat, q: nat)
    ensures p % 1024 == q % 1024 <==> (p - q) % 1024 == 0
  {
  }

  lemma {:induction false} PageBaseSame(x: Word, y: Word)
    ensures PageBase(x) == PageBase(y) <==> x / 0x1000 == y / 0x1000
  {
    assert x == 0x1000 * (x / 0x1000) + x % 0x1000 && y == 0x1000 * (y / 0x1000) + y % 0x1000;
  }

  /* ---- Bounded staleness ---- */

  datatype Event = FetchAt(pc: Word) | WriteAt(address: Word, data: Word, mask: Mask) | FenceI

  /** `history` holds the devices after each write, the present last; `since` is the position of the last
      `fencei`, or 0. */
  datatype Timeline = Timeline(cache: Cache, history: seq<BusState>, since: nat)

  predicate Started(t: Timeline) {
    t.since < |t.history|
  }

  function Happen(t: Timeline, e: Event): (r: Timeline)
    requires Started(t)
    ensures Started(r)
  {
    var now := t.history[|t.history| - 1];
    match e
    case FetchAt(pc) => t.(cache := CachedFetch(t.cache, now, pc).0)
    case WriteAt(address, data, mask) => t.(history := t.history + [WriteBus(now, address, data, mask).0])
    case FenceI => t.(cache := Invalidated(t.cache), since := |t.history| - 1)
  }

  function HappenAll(t: Timeline, events: seq<Event>): (r: Timeline)
    requires Started(t)
    ensures Started(r)
  {
    if events == [] then t
    else Happen(HappenAll(t, events[..|events| - 1]), events[|events| - 1])
  }

  predicate PageAtMoment(t: Timeline, moment: nat, e: Entry) {
    t.since <= moment < |t.history| && ReadBusPage(t.history[moment], e.address) == Ok(e.data)
  }

  /** Every valid entry is, as a whole, the content of its page at one moment since the last `fencei`. */
  ghost predicate BoundedAge(t: Timeline) {
    forall s :: 0 <= s < SLOTS && t.cache[s].valid ==> exists moment: nat :: PageAtMoment(t, moment, t.cache[s])
  }

  lemma {:induction false} HappenAge(t: Timeline, e: Event)
    requires Started(t) && BoundedAge(t)
    ensures BoundedAge(Happen(t, e))
  {
    hide ReadBusPage, WriteBus;
    var r := Happen(t, e);
    forall s | 0 <= s < SLOTS && r.cache[s].valid
      ensures exists moment: nat :: PageAtMoment(r, moment, r.cache[s])
    {
      if t.cache[s].valid && r.cache[s] == t.cache[s] {
        var moment: nat :| PageAtMoment(t, moment, t.cache[s]);
        assert PageAtMoment(r, moment, r.cache[s]);
      } else {
        assert PageAtMoment(r, |t.history| - 1, r.cache[s]);
      }
    }
  }

  lemma {:induction false} AlwaysBoundedAge(t: Timeline, events: seq<Event>)
    requires Started(t) && BoundedAge(t)
    ensures BoundedAge(HappenAll(t, events))
  {
    hide Happen;
    if events != [] {
      AlwaysBoundedAge(t, events[..|events| - 1]);
      HappenAge(HappenAll(t, events[..|events| - 1]), events[|events| - 1]);
    }
  }

  /** In every interleaving of fetches, writes and `fencei` from an empty cache, a fetched word is the word
      that memory held there at some moment since the last `fencei`. */
  lemma {:induction false} BoundedStaleness(b: BusState, events: seq<Event>, pc: Word)
    ensures var t := HappenAll(Timeline(EMPTY, [b], 0), events);
            var r := CachedFetch(t.cache, t.history[|t.history| - 1], pc).1;
            r.Fetched? ==> exists m :: t.since <= m < |t.history| && DirectFetch(t.history[m], pc) == r
  {
    hide ReadBusPage, Happen;
    AlwaysBoundedAge(Timeline(EMPTY, [b], 0), events);
    var t := HappenAll(Timeline(EMPTY, [b], 0), events);
    var s := SlotOf(pc);
    var r := CachedFetch(t.cache, t.history[|t.history| - 1], pc).1;
    if pc % 4 == 0 && Hit(t.cache[s], pc) {
      var m: nat :| PageAtMoment(t, m, t.cache[s]);
      assert DirectFetch(t.history[m], pc) == r;
    } else if r.Fetched? {
      assert DirectFetch(t.history[|t.history| - 1], pc) == r;
    }
  }
}
