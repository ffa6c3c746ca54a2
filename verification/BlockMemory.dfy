/** Lazily allocated paged memory (lib/device/block-memory.cpp), proved against a flat array of words. */
module BlockMemory {
  import opened Words

  datatype BusError = OutOfRange | UnalignedAccess | AccessFault | NotSupported

  const PAGE_BYTES := 0x1_0000
  const PAGE_WORDS := 0x4000

  /** What `read_page` delivers: 4 KiB. */
  type Page = p: seq<Word> | |p| == 1024 witness seq(1024, _ => 0)

  /** Which bytes of a word are written. */
  datatype Mask = Mask(b0: bool, b1: bool, b2: bool, b3: bool)

  const NO_BYTES := Mask(false, false, false, false)

  /** `Random` stands for an arbitrary content, another one after each reset, that is fixed on the first
      touch. */
  datatype FillPolicy = NoFill | Zero | One | Random(content: (nat, nat) -> Word) | Cdcdcdcd

  /** Initial value of word `k` after the given number of resets. A page is value-initialised before it is
      filled. */
  function Filler(policy: FillPolicy, resets: nat, k: nat): Word {
    match policy
    case NoFill => 0
    case Zero => 0
    case One => 0xffff_ffff
    case Random(content) => content(resets, k)
    case Cdcdcdcd => 0xcdcd_cdcd
  }

  /* ---- Bytes of a word, least significant first ---- */

  type Lane = k: int | 0 <= k < 4

  function ByteOf(w: Word, k: Lane): Byte {
    if k == 0 then w % 0x100
    else if k == 1 then (w / 0x100) % 0x100
    else if k == 2 then (w / 0x100 / 0x100) % 0x100
    else w / 0x100 / 0x100 / 0x100
  }

  function Join(b0: Byte, b1: Byte, b2: Byte, b3: Byte): Word {
    b0 + b1 * 0x100 + b2 * 0x1_0000 + b3 * 0x100_0000
  }

  lemma {:induction false} JoinBytes(w: Word)
    ensures Join(ByteOf(w, 0), ByteOf(w, 1), ByteOf(w, 2), ByteOf(w, 3)) == w
  {
    var high := w / 0x100;
    var higher := high / 0x100;
    assert w == 0x100 * high + ByteOf(w, 0);
    assert high == 0x100 * higher + ByteOf(w, 1);
    assert higher == 0x100 * ByteOf(w, 3) + ByteOf(w, 2);
  }

  lemma {:induction false} BytesOfJoin(b0: Byte, b1: Byte, b2: Byte, b3: Byte)
    ensures var w := Join(b0, b1, b2, b3);
            ByteOf(w, 0) == b0 && ByteOf(w, 1) == b1 && ByteOf(w, 2) == b2 && ByteOf(w, 3) == b3
  {
    var higher := b2 + 0x100 * b3;
    var high := b1 + 0x100 * higher;
    assert Join(b0, b1, b2, b3) == b0 + 0x100 * high;
    assert Join(b0, b1, b2, b3) / 0x100 == high && high / 0x100 == higher;
  }

  function Selected(mask: Mask, k: Lane): bool {
    if k == 0 then mask.b0 else if k == 1 then mask.b1 else if k == 2 then mask.b2 else mask.b3
  }

  function Merged(current: Word, data: Word, mask: Mask): Word {
    Join(if mask.b0 then ByteOf(data, 0) else ByteOf(current, 0),
         if mask.b1 then ByteOf(data, 1) else ByteOf(current, 1),
         if mask.b2 then ByteOf(data, 2) else ByteOf(current, 2),
         if mask.b3 then ByteOf(data, 3) else ByteOf(current, 3))
  }

  lemma {:induction false} MergedByte(w: Word, data: Word, mask: Mask, k: Lane)
    ensures ByteOf(Merged(w, data, mask), k) == if Selected(mask, k) then ByteOf(data, k) else ByteOf(w, k)
  {
    hide ByteOf, Join;
    BytesOfJoin(if mask.b0 then ByteOf(data, 0) else ByteOf(w, 0),
                if mask.b1 then ByteOf(data, 1) else ByteOf(w, 1),
                if mask.b2 then ByteOf(data, 2) else ByteOf(w, 2),
                if mask.b3 then ByteOf(data, 3) else ByteOf(w, 3));
  }

  /* ---- The flat array ---- */

  function PageCount(size: nat): nat {
    (size + PAGE_BYTES - 1) / PAGE_BYTES
  }

  datatype FlatBlock = FlatBlock(size: nat, locked: bool, policy: FillPolicy, resets: nat, words: seq<Word>)

  /** A flat memory holds whole storage pages. */
  type Block = b: FlatBlock | |b.words| == PageCount(b.size) * PAGE_WORDS
    witness FlatBlock(0, false, NoFill, 0, [])

  function FreshWords(size: nat, policy: FillPolicy, resets: nat): seq<Word> {
    seq(PageCount(size) * PAGE_WORDS, k requires k >= 0 => Filler(policy, resets, k))
  }

  /** What `reset_content` leaves: the initial content, filled anew. */
  function Reset(b: Block): Block {
    b.(resets := b.resets + 1, words := FreshWords(b.size, b.policy, b.resets + 1))
  }

  function ReadWord(b: Block, address: nat): Result<Word, BusError> {
    if address >= b.size then Err(OutOfRange)
    else if address % 4 != 0 then Err(UnalignedAccess)
    else if b.size < 4 then Err(OutOfRange)
    else Ok(b.words[address / 4])
  }

  function PageOf(b: Block, address: nat): Result<Page, BusError> {
    if address % 0x1000 != 0 then Err(UnalignedAccess)
    else if address + 0x1000 > b.size then Err(OutOfRange)
    else Ok(b.words[address / 4..address / 4 + 1024])
  }

  /** The tests that refuse a write, in the source's order; `None` lets it through. */
  function WriteRefused(b: Block, address: nat, mask: Mask): Option<BusError> {
    if address >= b.size then Some(OutOfRange)
    else if b.locked then Some(AccessFault)
    else if mask == NO_BYTES then None
    else if address % 4 != 0 then Some(UnalignedAccess)
    else if (b.size < 4 && mask.b3) || (b.size < 3 && mask.b2) || (b.size < 2 && mask.b1) then Some(OutOfRange)
    else None
  }

  function WriteWord(b: Block, address: nat, data: Word, mask: Mask): (Block, Option<BusError>) {
    if WriteRefused(b, address, mask).Some? then (b, WriteRefused(b, address, mask))
    else if mask == NO_BYTES then (b, None)
    else
      var k := address / 4;
      (b.(words := b.words[k := Merged(b.words[k], data, mask)]), None)
  }

  /** Byte `a` of `data`, or of the word that covers it. */
  function Overlaid(w: Word, data: seq<Byte>, k: nat): Word {
    var a := 4 * k;
    if a >= |data| then w
    else Join(data[a],
              if a + 1 < |data| then data[a + 1] else ByteOf(w, 1),
              if a + 2 < |data| then data[a + 2] else ByteOf(w, 2),
              if a + 3 < |data| then data[a + 3] else ByteOf(w, 3))
  }

  function Filled(b: Block, data: seq<Byte>): (Block, bool) {
    if |data| > b.size then (b, false)
    else (b.(words := seq(|b.words|, k requires 0 <= k < |b.words| => Overlaid(b.words[k], data, k))), true)
  }

  /** One `read_page` is 1024 single reads. */
  lemma {:induction false} PageIsWordReads(b: Block, address: nat, i: nat)
    requires PageOf(b, address).Ok? && i < 1024
    ensures ReadWord(b, address + 4 * i) == Ok(PageOf(b, address).value[i])
  {
  }

  /** A page read stays within one storage page. */
  lemma {:induction false} PageReadInOneStoragePage(b: Block, address: nat, i: nat)
    requires PageOf(b, address).Ok? && i < 1024
    ensures (address + 4 * i) / PAGE_BYTES == address / PAGE_BYTES < PageCount(b.size)
  {
  }

  /* ---- Byte by byte ---- */

  /** Byte `a` of the memory: the lowest byte of a word comes first. */
  function ByteAt(words: seq<Word>, a: nat): Byte
    requires a / 4 < |words|
  {
    ByteOf(words[a / 4], a % 4)
  }

  /** The bytes of a word in terms of its value. */
  lemma {:induction false} ByteValue(w: Word)
    ensures w == ByteOf(w, 0) + 0x100 * ByteOf(w, 1) + 0x1_0000 * ByteOf(w, 2) + 0x100_0000 * ByteOf(w, 3)
  {
    JoinBytes(w);
  }

  lemma {:induction false} OverlaidByte(w: Word, data: seq<Byte>, k: nat, j: Lane)
    ensures ByteOf(Overlaid(w, data, k), j) == if 4 * k + j < |data| then data[4 * k + j] else ByteOf(w, j)
  {
    hide ByteOf, Join;
    var a := 4 * k;
    if a < |data| {
      BytesOfJoin(data[a], if a + 1 < |data| then data[a + 1] else ByteOf(w, 1),
                  if a + 2 < |data| then data[a + 2] else ByteOf(w, 2),
                  if a + 3 < |data| then data[a + 3] else ByteOf(w, 3));
    }
  }

  /** Filling copies the data byte by byte to the start of the memory and changes nothing behind it. */
  lemma {:induction false} FilledBytes(b: Block, data: seq<Byte>, a: nat)
    requires |data| <= b.size && a / 4 < |b.words|
    ensures var (after, ok) := Filled(b, data);
            && ok && |after.words| == |b.words| && after == b.(words := after.words)
            && ByteAt(after.words, a) == if a < |data| then data[a] else ByteAt(b.words, a)
  {
    hide ByteOf, Overlaid;
    OverlaidByte(b.words[a / 4], data, a / 4, a % 4);
  }

  /** What every byte of a memory holds that nothing has been written to, by fill policy. */
  lemma {:induction false} FreshByte(size: nat, policy: FillPolicy, resets: nat, a: nat)
    requires a < size
    ensures a / 4 < |FreshWords(size, policy, resets)|
    ensures !policy.Random? ==> ByteAt(FreshWords(size, policy, resets), a)
                                == if policy.One? then 0xff else if policy.Cdcdcdcd? then 0xcd else 0
    ensures policy.Random? ==> ByteAt(FreshWords(size, policy, resets), a)
                               == ByteOf(policy.content(resets, a / 4), a % 4)
  {
    hide ByteOf, Filler, PageCount;
    PagesCover(size, a);
    FillerByte(policy, resets, a / 4, a % 4);
  }

  lemma {:induction false} FillerByte(policy: FillPolicy, resets: nat, k: nat, j: Lane)
    ensures !policy.Random? ==> ByteOf(Filler(policy, resets, k), j)
                                == if policy.One? then 0xff else if policy.Cdcdcdcd? then 0xcd else 0
    ensures policy.Random? ==> Filler(policy, resets, k) == policy.content(resets, k)
  {
  }

  lemma {:induction false} PagesCover(size: nat, a: nat)
    requires a < size
    ensures a / 4 < PageCount(size) * PAGE_WORDS
  {
  }

  /* ---- The paged implementation ---- */

  class PagedMemory {
    var writeLock: bool
    const size: nat
    const policy: FillPolicy
    var storage: seq<array?<Word>>
    var resets: nat  // how many random contents have been drawn before
    ghost var contents: seq<Word>
    ghost var Repr: set<object>

    ghost predicate Valid()
      reads this, Repr
    {
      && this in Repr
      && |storage| == PageCount(size)
      && |contents| == |storage| * PAGE_WORDS
      && (forall p :: 0 <= p < |storage| && storage[p] != null ==>
            storage[p] in Repr && storage[p].Length == PAGE_WORDS)
      && (forall p, q :: 0 <= p < q < |storage| && storage[p] != null ==> storage[p] != storage[q])
      && (forall k :: 0 <= k < |contents| ==>
            contents[k] == if storage[k / PAGE_WORDS] == null then Filler(policy, resets, k)
                           else storage[k / PAGE_WORDS][k % PAGE_WORDS])
    }

    /** The flat memory that this object implements, whichever pages are allocated. */
    ghost function Flat(): Block
      reads this, Repr
      requires Valid()
    {
      FlatBlock(size, writeLock, policy, resets, contents)
    }

    constructor (sizeBytes: nat, mode: FillPolicy)
      ensures Valid() && fresh(Repr)
      ensures Flat() == FlatBlock(sizeBytes, false, mode, 0, FreshWords(sizeBytes, mode, 0))
      ensures size == sizeBytes
    {
      size, policy, writeLock := sizeBytes, mode, false;
      storage := seq(PageCount(sizeBytes), _ => null);
      contents, resets := FreshWords(sizeBytes, mode, 0), 0;
      Repr := {this};
    }

    method FillPage(page: array<Word>, index: nat)
      requires page.Length == PAGE_WORDS && (forall w :: 0 <= w < PAGE_WORDS ==> page[w] == 0)
      modifies page
      ensures forall w :: 0 <= w < PAGE_WORDS ==> page[w] == Filler(policy, resets, index * PAGE_WORDS + w)
    {
      match policy {
        case NoFill =>
        case Zero =>
          forall w | 0 <= w < page.Length { page[w] := 0; }
        case One =>
          forall w | 0 <= w < page.Length { page[w] := 0xffff_ffff; }
        case Random(content) =>
          forall w | 0 <= w < page.Length { page[w] := content(resets, index * PAGE_WORDS + w); }
        case Cdcdcdcd =>
          forall w | 0 <= w < page.Length { page[w] := 0xcdcd_cdcd; }
      }
    }

    method TouchPage(index: nat)
      requires Valid()
      modifies this`storage, this`Repr
      ensures Valid() && fresh(Repr - old(Repr)) && contents == old(contents)
      ensures index < |storage| ==> storage[index] != null
      ensures |storage| == |old(storage)|
    {
      if index >= |storage| {
        return;
      }
      if storage[index] != null {
        return;
      }
      var page := new Word[PAGE_WORDS](_ => 0);
      FillPage(page, index);
      storage := storage[index := page];
      Repr := Repr + {page};
    }

    method Read(address: nat) returns (r: Result<Word, BusError>)
      requires Valid()
      modifies this`storage, this`Repr
      ensures Valid() && fresh(Repr - old(Repr)) && Flat() == old(Flat())
      ensures r == ReadWord(Flat(), address)
    {
      hide Filler;
      if address >= size {
        return Err(OutOfRange);
      }
      if address % 4 != 0 {
        return Err(UnalignedAccess);
      }
      if size < 4 {
        return Err(OutOfRange);
      }
      var pageIndex, pageOffset := address / PAGE_BYTES, address % PAGE_BYTES;
      TouchPage(pageIndex);
      var page := storage[pageIndex];
      assert contents[address / 4] == page[pageOffset / 4] by {
        WordPosition(address);
      }
      return Ok(page[pageOffset / 4]);
    }

    method ReadPage(address: nat) returns (r: Result<Page, BusError>)
      requires Valid()
      modifies this`storage, this`Repr
      ensures Valid() && fresh(Repr - old(Repr)) && Flat() == old(Flat())
      ensures r == PageOf(Flat(), address)
    {
      hide Filler;
      if address % 0x1000 != 0 {
        return Err(UnalignedAccess);
      }
      if address + 0x1000 > size {
        return Err(OutOfRange);
      }
      var pageIndex, pageOffset := address / PAGE_BYTES, address % PAGE_BYTES;
      TouchPage(pageIndex);
      var page := storage[pageIndex];
      var first := pageOffset / 4;
      WordPosition(address);
      assert page[first..first + 1024] == contents[address / 4..address / 4 + 1024];
      return Ok(page[first..first + 1024]);
    }

    method Write(address: nat, data: Word, mask: Mask) returns (error: Option<BusError>)
      requires Valid()
      modifies Repr
      ensures Valid() && fresh(Repr - old(Repr))
      ensures (Flat(), error) == WriteWord(old(Flat()), address, data, mask)
    {
      if address >= size {
        return Some(OutOfRange);
      }
      if writeLock {
        return Some(AccessFault);
      }
      if mask == NO_BYTES {
        return None;
      }
      if address % 4 != 0 {
        return Some(UnalignedAccess);
      }
      if size < 4 {
        if mask.b3 { return Some(OutOfRange); }
        if size < 3 && mask.b2 { return Some(OutOfRange); }
        if size < 2 && mask.b1 { return Some(OutOfRange); }
      }
      var pageIndex, pageOffset := address / PAGE_BYTES, address % PAGE_BYTES;
      TouchPage(pageIndex);
      var page := storage[pageIndex];
      var word := pageOffset / 4;
      WordPosition(address);
      Poke(pageIndex, word, Merged(page[word], data, mask));
      return None;
    }

    /** Store one word of an allocated page. */
    method Poke(pageIndex: nat, word: nat, value: Word)
      requires Valid() && pageIndex < |storage| && storage[pageIndex] != null && word < PAGE_WORDS
      modifies storage[pageIndex], this`contents
      ensures Valid() && contents == old(contents)[pageIndex * PAGE_WORDS + word := value]
    {
      storage[pageIndex][word] := value;
      contents := contents[pageIndex * PAGE_WORDS + word := value];
    }

    method FillChunk(pageIndex: nat, data: seq<Byte>)
      requires Valid() && pageIndex < |storage| && storage[pageIndex] != null
      modifies storage[pageIndex], this`contents
      ensures Valid() && |contents| == |old(contents)|
      ensures forall k :: 0 <= k < |contents| ==>
                contents[k] == if k / PAGE_WORDS == pageIndex then Overlaid(old(contents[k]), data, k)
                               else old(contents[k])
    {
      hide Overlaid;
      var page := storage[pageIndex];
      ghost var before := contents;
      forall w | 0 <= w < page.Length {
        page[w] := Overlaid(page[w], data, pageIndex * PAGE_WORDS + w);
      }
      contents := seq(|before|, k requires 0 <= k < |before| =>
        if k / PAGE_WORDS == pageIndex then Overlaid(before[k], data, k) else before[k]);
    }

    method FillData(data: seq<Byte>) returns (ok: bool)
      requires Valid()
      modifies Repr
      ensures Valid() && fresh(Repr - old(Repr))
      ensures (Flat(), ok) == Filled(old(Flat()), data)
    {
      hide Overlaid;
      if |data| > size {
        return false;
      }
      var chunks := (|data| + PAGE_BYTES - 1) / PAGE_BYTES;
      ghost var before := contents;
      for p := 0 to chunks
        invariant Valid() && fresh(Repr - old(Repr))
        invariant |contents| == |before| && writeLock == old(writeLock) && resets == old(resets)
        invariant forall k :: 0 <= k < |contents| ==>
                    contents[k] == if k / PAGE_WORDS < p then Overlaid(before[k], data, k) else before[k]
      {
        TouchPage(p);
        FillChunk(p, data);
      }
      forall k | 0 <= k < |contents|
        ensures contents[k] == Overlaid(before[k], data, k)
      {
        if k / PAGE_WORDS >= chunks {
          PastData(before[k], data, k);
        }
      }
      assert contents == Filled(old(Flat()), data).0.words;
      return true;
    }

    method Lock()
      requires Valid()
      modifies this`writeLock
      ensures Valid() && Flat() == old(Flat()).(locked := true)
    {
      writeLock := true;
    }

    method ResetContent()
      requires Valid()
      modifies this
      ensures Valid() && Repr == old(Repr)
      ensures Flat() == Reset(old(Flat()))
    {
      storage := seq(|storage|, _ => null);
      resets := resets + 1;
      contents := FreshWords(size, policy, resets);
    }
  }

  lemma {:induction false} WordPosition(address: nat)
    ensures var k := address / 4;
            && k / PAGE_WORDS == address / PAGE_BYTES
            && k % PAGE_WORDS == (address % PAGE_BYTES) / 4
            && k == (address / PAGE_BYTES) * PAGE_WORDS + (address % PAGE_BYTES) / 4
  {
  }

  lemma {:induction false} PastData(w: Word, data: seq<Byte>, k: nat)
    requires 4 * k >= |data|
    ensures Overlaid(w, data, k) == w
  {
  }
}
