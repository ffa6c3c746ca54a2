/** Watchpoints: the range comparison (lib/include/gdb-stub/addr-range.hpp) as the order of a `std::map`,
    and the handlers that use the map (main/src/emulator-debug.cpp). */
module Watchpoints {
  import opened Words
  import opened Decode
  import LoadStore

  datatype AddressRange = AddressRange(start: Word, size: Word) {
    function End(): Word {
      Wrap(start + size)
    }
  }

  datatype Ordering = Less | Greater | Equivalent | Unordered

  function Compare(a: AddressRange, b: AddressRange): Ordering {
    if a.start <= b.start && b.End() <= a.End() then Equivalent
    else if b.start <= a.start && a.End() <= b.End() then Equivalent
    else if b.End() < a.start then Greater
    else if a.End() < b.start then Less
    else Unordered
  }

  /** `a < b`, the only comparison that the map makes. */
  predicate Before(a: AddressRange, b: AddressRange) {
    Compare(a, b) == Less
  }

  /** The range reaches 2^32, so that its end is 0 or beyond. */
  predicate Wraps(r: AddressRange) {
    r.start + r.size >= TWO_32
  }

  /** The comparison sees a range as the interval between its two ends; for a range that wraps around, that
      is the part it does not contain. */
  function Low(r: AddressRange): Word {
    if Wraps(r) then r.End() else r.start
  }

  function High(r: AddressRange): Word {
    if Wraps(r) then r.start else r.End()
  }

  /** For all ranges, `<` means that the intervals do not even meet, except that two ranges that wrap around
      may meet. */
  lemma {:induction false} BeforeIsGap(a: AddressRange, b: AddressRange)
    ensures Before(a, b) <==> High(a) < Low(b) || (Wraps(a) && Wraps(b) && High(a) == Low(b))
    ensures Low(a) <= High(a) && (Wraps(a) ==> Low(a) < High(a))
  {
  }

  /** So it is a strict order on all ranges. */
  lemma {:induction false} BeforeIsOrder(a: AddressRange, b: AddressRange, c: AddressRange)
    ensures !Before(a, a)
    ensures Before(a, b) && Before(b, c) ==> Before(a, c)
    ensures Before(a, b) ==> !Before(b, a)
  {
    hide Before;
    BeforeIsGap(a, a);
    BeforeIsGap(a, b);
    BeforeIsGap(b, a);
    BeforeIsGap(b, c);
    BeforeIsGap(a, c);
  }

  /** A range that ends exactly at 2^32 is equivalent to every range that starts below it. */
  lemma {:induction false} WrappingRangeSwallows(w: AddressRange, r: AddressRange)
    requires w.start + w.size == TWO_32 && !Wraps(r) && r.start <= w.start
    ensures !Before(w, r) && !Before(r, w)
  {
  }

  predicate Touches(a: AddressRange, b: AddressRange) {
    !Before(a, b) && !Before(b, a)
  }

  /** The byte at `x` belongs to the range. */
  predicate Covers(r: AddressRange, x: Word) {
    Wrap(x - r.start) < r.size
  }

  /** The ranges have a byte in common. */
  predicate Overlaps(a: AddressRange, b: AddressRange) {
    a.size > 0 && b.size > 0 && (Covers(a, b.start) || Covers(b, a.start))
  }

  lemma {:induction false} OverlapsMeaning(a: AddressRange, b: AddressRange)
    ensures Overlaps(a, b) <==> exists x: Word :: Covers(a, x) && Covers(b, x)
  {
    if Overlaps(a, b) {
      assert Covers(a, a.start) && Covers(b, b.start);
    }
    forall x: Word | Covers(a, x) && Covers(b, x)
      ensures Overlaps(a, b)
    {
      CommonByte(a, b, x);
    }
  }

  lemma {:induction false} CommonByte(a: AddressRange, b: AddressRange, x: Word)
    requires Covers(a, x) && Covers(b, x)
    ensures Overlaps(a, b)
  {
    hide Wrap;
    Distance(x, a.start);
    Distance(x, b.start);
    Distance(b.start, a.start);
    Distance(a.start, b.start);
  }

  lemma {:induction false} Distance(x: Word, y: Word)
    ensures Wrap(x - y) == if x >= y then x - y else x - y + TWO_32
  {
  }

  /** What it takes for the map to confuse two ranges. Ranges that do not wrap around need only meet; one that
      does is confused with what reaches into the part it does not contain. */
  lemma {:induction false} TouchesIff(a: AddressRange, b: AddressRange)
    requires a.size > 0 && b.size > 0
    ensures Touches(a, b)
       <==> if Wraps(a) && Wraps(b) then a.End() < b.start && b.End() < a.start
            else if Wraps(a) then a.End() <= b.End() && b.start <= a.start
            else if Wraps(b) then b.End() <= a.End() && a.start <= b.start
            else Overlaps(a, b) || a.End() == b.start || b.End() == a.start
  {
    hide Before;
    BeforeIsGap(a, b);
    BeforeIsGap(b, a);
    StraightOverlap(a, b);
  }

  lemma {:induction false} StraightOverlap(a: AddressRange, b: AddressRange)
    requires a.size > 0 && b.size > 0
    ensures !Wraps(a) && b.start + b.size <= TWO_32
            ==> (Overlaps(a, b) <==> a.start < b.start + b.size && b.start < a.start + a.size)
  {
  }

  datatype Watchpoint = Watchpoint(range: AddressRange, watchRead: bool, watchWrite: bool)

  /** Stored ranges are not empty and pairwise strictly comparable, in order. */
  predicate Ordered(entries: seq<Watchpoint>) {
    && (forall i :: 0 <= i < |entries| ==> entries[i].range.size > 0)
    && (forall i, j :: 0 <= i < j < |entries| ==> Before(entries[i].range, entries[j].range))
  }

  /* ---- Lookup ---- */

  /** The first entry that the query neither precedes nor follows. */
  function FirstTouching(entries: seq<Watchpoint>, q: AddressRange): Option<Watchpoint> {
    if entries == [] then None
    else if Touches(entries[0].range, q) then Some(entries[0])
    else FirstTouching(entries[1..], q)
  }

  /** A search tree, as the map keeps one. */
  datatype Tree = Leaf | Node(left: Tree, entry: Watchpoint, right: Tree)

  function InOrder(t: Tree): seq<Watchpoint> {
    match t
    case Leaf => []
    case Node(l, e, r) => InOrder(l) + [e] + InOrder(r)
  }

  /** First key not before the query, found by descending the tree. */
  function LowerBound(t: Tree, q: AddressRange): Option<Watchpoint> {
    match t
    case Leaf => None
    case Node(l, e, r) =>
      if Before(e.range, q) then LowerBound(r, q)
      else
        var inLeft := LowerBound(l, q);
        if inLeft.Some? then inLeft else Some(e)
  }

  /** `std::map::find`. */
  function Find(t: Tree, q: AddressRange): Option<Watchpoint> {
    var e := LowerBound(t, q);
    if e.Some? && !Before(q, e.value.range) then e else None
  }

  /** First entry not before the query, found by scanning. */
  function FirstNotBefore(entries: seq<Watchpoint>, q: AddressRange): Option<Watchpoint> {
    if entries == [] then None
    else if Before(entries[0].range, q) then FirstNotBefore(entries[1..], q)
    else Some(entries[0])
  }

  lemma {:induction false} ScanConcat(a: seq<Watchpoint>, b: seq<Watchpoint>, q: AddressRange)
    ensures FirstNotBefore(a + b, q)
         == if FirstNotBefore(a, q).Some? then FirstNotBefore(a, q) else FirstNotBefore(b, q)
  {
    if a == [] {
      assert a + b == b;
    } else {
      assert (a + b)[1..] == a[1..] + b;
      ScanConcat(a[1..], b, q);
    }
  }

  lemma {:induction false} AllBefore(a: seq<Watchpoint>, q: AddressRange)
    requires forall i :: 0 <= i < |a| ==> Before(a[i].range, q)
    ensures FirstNotBefore(a, q).None?
  {
    if a != [] {
      AllBefore(a[1..], q);
    }
  }

  /** The keys before a query form a prefix, those after it a suffix. */
  lemma {:induction false} Partition(entries: seq<Watchpoint>, q: AddressRange, i: nat, j: nat)
    requires Ordered(entries) && i < j < |entries|
    ensures Before(entries[j].range, q) ==> Before(entries[i].range, q)
    ensures Before(q, entries[i].range) ==> Before(q, entries[j].range)
  {
    hide Before;
    assert Before(entries[i].range, entries[j].range);
    BeforeIsOrder(entries[i].range, entries[j].range, q);
    BeforeIsOrder(q, entries[i].range, entries[j].range);
  }

  lemma {:induction false} OrderedSplit(a: seq<Watchpoint>, e: Watchpoint, b: seq<Watchpoint>)
    requires Ordered(a + [e] + b)
    ensures Ordered(a) && Ordered(b)
    ensures forall i :: 0 <= i < |a| ==> Before(a[i].range, e.range)
  {
    hide Before;
    var s := a + [e] + b;
    assert s[|a|] == e;
    assert forall i :: 0 <= i < |a| ==> s[i] == a[i];
    assert forall i :: 0 <= i < |b| ==> s[|a| + 1 + i] == b[i];
    forall i, j | 0 <= i < j < |b|
      ensures Before(b[i].range, b[j].range)
    {
      assert Before(s[|a| + 1 + i].range, s[|a| + 1 + j].range);
    }
  }

  lemma {:induction false} DescentIsScan(t: Tree, q: AddressRange)
    requires Ordered(InOrder(t))
    ensures LowerBound(t, q) == FirstNotBefore(InOrder(t), q)
  {
    match t
    case Leaf =>
    case Node(l, e, r) =>
      var a, b := InOrder(l), InOrder(r);
      OrderedSplit(a, e, b);
      DescentIsScan(l, q);
      DescentIsScan(r, q);
      ScanConcat(a + [e], b, q);
      ScanConcat(a, [e], q);
      if Before(e.range, q) {
        forall i | 0 <= i < |a|
          ensures Before(a[i].range, q)
        {
          BeforeIsOrder(a[i].range, e.range, q);
        }
        AllBefore(a, q);
      }
  }

  lemma {:induction false} NoneTouches(entries: seq<Watchpoint>, q: AddressRange)
    requires forall i :: 0 <= i < |entries| ==> Before(q, entries[i].range)
    ensures FirstTouching(entries, q).None?
  {
    if entries != [] {
      NoneTouches(entries[1..], q);
    }
  }

  lemma {:induction false} ScanIsFirstTouching(entries: seq<Watchpoint>, q: AddressRange)
    requires Ordered(entries)
    ensures var e := FirstNotBefore(entries, q);
            FirstTouching(entries, q) == if e.Some? && !Before(q, e.value.range) then e else None
  {
    if entries != [] {
      assert Ordered(entries[1..]);
      if Before(entries[0].range, q) {
        ScanIsFirstTouching(entries[1..], q);
      } else if Before(q, entries[0].range) {
        forall i | 0 <= i < |entries|
          ensures Before(q, entries[i].range)
        {
          if i > 0 {
            Partition(entries, q, 0, i);
          }
        }
        NoneTouches(entries[1..], q);
      }
    }
  }

  /** Whatever the shape of the tree, a lookup finds the first stored range that touches the query. */
  lemma {:induction false} FindIsFirstTouching(t: Tree, q: AddressRange)
    requires Ordered(InOrder(t))
    ensures Find(t, q) == FirstTouching(InOrder(t), q)
  {
    DescentIsScan(t, q);
    ScanIsFirstTouching(InOrder(t), q);
  }

  lemma {:induction false} FirstTouchingMeaning(entries: seq<Watchpoint>, q: AddressRange)
    ensures var e := FirstTouching(entries, q);
            && (e.Some? <==> exists i :: 0 <= i < |entries| && Touches(entries[i].range, q))
            && (e.Some? ==> exists i :: 0 <= i < |entries| && e.value == entries[i] && Touches(entries[i].range, q)
                                  && forall j :: 0 <= j < i ==> !Touches(entries[j].range, q))
  {
    if entries != [] {
      var rest := entries[1..];
      FirstTouchingMeaning(rest, q);
      if Touches(entries[0].range, q) {
      } else {
        if FirstTouching(rest, q).Some? {
          var i :| 0 <= i < |rest| && FirstTouching(rest, q).value == rest[i] && Touches(rest[i].range, q)
                   && forall j :: 0 <= j < i ==> !Touches(rest[j].range, q);
          assert entries[i + 1] == rest[i];
          forall j | 0 <= j < i + 1
            ensures !Touches(entries[j].range, q)
          {
            if j > 0 {
              assert entries[j] == rest[j - 1];
            }
          }
        } else {
          forall i | 0 <= i < |entries|
            ensures !Touches(entries[i].range, q)
          {
            if i > 0 {
              assert entries[i] == rest[i - 1];
            }
          }
        }
      }
    }
  }

  /* ---- Insertion and removal ---- */

  /** `std::map::emplace`: nothing happens if an equivalent key is stored. */
  function Emplaced(entries: seq<Watchpoint>, w: Watchpoint): seq<Watchpoint> {
    if entries == [] then [w]
    else if Before(entries[0].range, w.range) then [entries[0]] + Emplaced(entries[1..], w)
    else if Before(w.range, entries[0].range) then [w] + entries
    else entries
  }

  /** Insertion into a search tree by descent. Rebalancing afterwards keeps the in-order sequence. */
  function Insert(t: Tree, w: Watchpoint): Tree {
    match t
    case Leaf => Node(Leaf, w, Leaf)
    case Node(l, e, r) =>
      if Before(w.range, e.range) then Node(Insert(l, w), e, r)
      else if Before(e.range, w.range) then Node(l, e, Insert(r, w))
      else t
  }

  lemma {:induction false} EmplacedBefore(a: seq<Watchpoint>, e: Watchpoint, b: seq<Watchpoint>, w: Watchpoint)
    requires Before(w.range, e.range)
    ensures Emplaced(a + ([e] + b), w) == Emplaced(a, w) + ([e] + b)
  {
    hide Before;
    BeforeIsOrder(w.range, e.range, w.range);
    var s := a + ([e] + b);
    if a == [] {
      assert s == [e] + b;
    } else {
      assert s[0] == a[0] && s[1..] == a[1..] + ([e] + b);
      EmplacedBefore(a[1..], e, b, w);
    }
  }

  lemma {:induction false} EmplacedBehind(a: seq<Watchpoint>, b: seq<Watchpoint>, w: Watchpoint)
    requires forall i :: 0 <= i < |a| ==> Before(a[i].range, w.range)
    ensures Emplaced(a + b, w) == a + Emplaced(b, w)
  {
    hide Before;
    if a == [] {
      assert a + b == b;
    } else {
      assert (a + b)[0] == a[0] && (a + b)[1..] == a[1..] + b;
      EmplacedBehind(a[1..], b, w);
      assert [a[0]] + (a[1..] + Emplaced(b, w)) == a + Emplaced(b, w);
    }
  }

  lemma {:induction false} EmplacedNowhere(a: seq<Watchpoint>, e: Watchpoint, b: seq<Watchpoint>, w: Watchpoint)
    requires Touches(e.range, w.range) && forall i :: 0 <= i < |a| ==> Before(a[i].range, e.range)
    ensures Emplaced(a + ([e] + b), w) == a + ([e] + b)
  {
    hide Before;
    var s := a + ([e] + b);
    if a != [] {
      assert s[0] == a[0] && s[1..] == a[1..] + ([e] + b);
      BeforeIsOrder(w.range, a[0].range, e.range);
      EmplacedNowhere(a[1..], e, b, w);
    }
  }

  /** In every well-ordered tree the descent stores the new entry where `Emplaced` does, or nowhere. */
  lemma {:induction false} InsertIsEmplaced(t: Tree, w: Watchpoint)
    requires Ordered(InOrder(t))
    ensures InOrder(Insert(t, w)) == Emplaced(InOrder(t), w)
  {
    hide Before;
    match t
    case Leaf =>
    case Node(l, e, r) =>
      var a, b := InOrder(l), InOrder(r);
      OrderedSplit(a, e, b);
      assert a + [e] + b == a + ([e] + b);
      if Before(w.range, e.range) {
        InsertIsEmplaced(l, w);
        EmplacedBefore(a, e, b, w);
        assert Emplaced(a, w) + [e] + b == Emplaced(a, w) + ([e] + b);
      } else if Before(e.range, w.range) {
        InsertIsEmplaced(r, w);
        forall i | 0 <= i < |a + [e]|
          ensures Before((a + [e])[i].range, w.range)
        {
          if i < |a| {
            BeforeIsOrder(a[i].range, e.range, w.range);
          }
        }
        EmplacedBehind(a + [e], b, w);
      } else {
        EmplacedNowhere(a, e, b, w);
      }
  }

  /** Where the new entry goes, if it is stored. */
  lemma {:induction false} EmplacedAt(entries: seq<Watchpoint>, w: Watchpoint, i: nat)
    requires i <= |entries| && forall j :: 0 <= j < i ==> Before(entries[j].range, w.range)
    requires i < |entries| ==> !Before(entries[i].range, w.range)
    ensures Emplaced(entries, w) == if i == |entries| || Before(w.range, entries[i].range)
                                    then entries[..i] + [w] + entries[i..] else entries
  {
    hide Before;
    if i == 0 {
      assert entries[..0] + [w] + entries[0..] == [w] + entries;
    } else {
      var e, rest := entries[0], entries[1..];
      EmplacedAt(rest, w, i - 1);
      assert [e] + rest == entries;
      InsertBehind(e, rest, w, i - 1);
    }
  }

  lemma {:induction false} InsertBehind(e: Watchpoint, rest: seq<Watchpoint>, w: Watchpoint, i: nat)
    requires i <= |rest|
    ensures var all := [e] + rest;
            [e] + (rest[..i] + [w] + rest[i..]) == all[..i + 1] + [w] + all[i + 1..]
  {
  }

  function Erased(entries: seq<Watchpoint>, q: AddressRange): seq<Watchpoint> {
    if entries == [] then []
    else if Touches(entries[0].range, q) then entries[1..]
    else [entries[0]] + Erased(entries[1..], q)
  }

  /** What the first touching entry is, and what is left without it. */
  lemma {:induction false} TouchingAt(entries: seq<Watchpoint>, q: AddressRange, i: nat)
    requires i <= |entries| && forall j :: 0 <= j < i ==> !Touches(entries[j].range, q)
    requires i < |entries| ==> Touches(entries[i].range, q)
    ensures FirstTouching(entries, q) == if i < |entries| then Some(entries[i]) else None
    ensures Erased(entries, q) == if i < |entries| then entries[..i] + entries[i + 1..] else entries
  {
    hide Touches;
    if i == 0 {
      if entries != [] {
        assert entries[..0] + entries[1..] == entries[1..];
      }
    } else {
      var e, rest := entries[0], entries[1..];
      TouchingAt(rest, q, i - 1);
      assert [e] + rest == entries;
      if i < |entries| {
        RemoveBehind(e, rest, i - 1);
      }
    }
  }

  lemma {:induction false} RemoveBehind(e: Watchpoint, rest: seq<Watchpoint>, i: nat)
    requires i < |rest|
    ensures var all := [e] + rest;
            [e] + (rest[..i] + rest[i + 1..]) == all[..i + 1] + all[i + 2..]
  {
  }

  predicate Member(w: Watchpoint, entries: seq<Watchpoint>) {
    w in entries
  }

  lemma {:induction false} MemberCons(e: Watchpoint, rest: seq<Watchpoint>)
    ensures forall x :: Member(x, [e] + rest) <==> x == e || Member(x, rest)
  {
  }

  lemma {:induction false} OrderedCons(e: Watchpoint, rest: seq<Watchpoint>)
    ensures Ordered([e] + rest)
       <==> Ordered(rest) && e.range.size > 0
            && forall x :: Member(x, rest) ==> Before(e.range, x.range)
  {
    var s := [e] + rest;
    if Ordered(s) {
      assert forall i :: 0 <= i < |rest| ==> s[i + 1] == rest[i];
      assert s[0] == e;
    }
    if forall x :: Member(x, rest) ==> Before(e.range, x.range) {
      assert forall i :: 0 <= i < |rest| ==> Member(rest[i], rest);
    }
  }

  /** A new watchpoint is stored exactly when no stored range touches it; nothing else changes. */
  lemma {:induction false} EmplacedMeaning(entries: seq<Watchpoint>, w: Watchpoint)
    requires Ordered(entries) && w.range.size > 0
    ensures Ordered(Emplaced(entries, w))
    ensures if FirstTouching(entries, w.range).None?
            then forall x :: Member(x, Emplaced(entries, w)) <==> x == w || Member(x, entries)
            else Emplaced(entries, w) == entries
  {
    if entries == [] {
    } else {
      var e, rest := entries[0], entries[1..];
      assert entries == [e] + rest;
      OrderedCons(e, rest);
      if Before(e.range, w.range) {
        EmplacedMeaning(rest, w);
        MemberCons(e, rest);
        MemberCons(e, Emplaced(rest, w));
        OrderedCons(e, Emplaced(rest, w));
      } else if Before(w.range, e.range) {
        forall x | Member(x, entries)
          ensures Before(w.range, x.range)
        {
          if x != e {
            assert Member(x, rest);
            BeforeIsOrder(w.range, e.range, x.range);
          }
        }
        forall i | 0 <= i < |entries|
          ensures Before(w.range, entries[i].range)
        {
          assert Member(entries[i], entries);
        }
        NoneTouches(entries, w.range);
        OrderedCons(w, entries);
      }
    }
  }

  /** Removal takes away exactly the first range that touches the given one. */
  lemma {:induction false} ErasedMeaning(entries: seq<Watchpoint>, q: AddressRange)
    requires Ordered(entries)
    ensures Ordered(Erased(entries, q))
    ensures forall x :: Member(x, Erased(entries, q))
                   <==> Member(x, entries) && FirstTouching(entries, q) != Some(x)
  {
    if entries != [] {
      var e, rest := entries[0], entries[1..];
      assert entries == [e] + rest;
      OrderedCons(e, rest);
      BeforeIsOrder(e.range, e.range, e.range);
      ErasedMeaning(rest, q);
      if Touches(e.range, q) {
        assert !Member(e, rest);
      } else {
        assert FirstTouching(entries, q) == FirstTouching(rest, q);
        FirstTouchingMeaning(rest, q);
        OrderedCons(e, Erased(rest, q));
      }
    }
  }

  /* ---- Commands ---- */

  datatype Command =
    | AddWatchpoint(address: Word, length: Word, watchRead: bool, watchWrite: bool)
    | RemoveWatchpoint(address: Word, length: Word)

  datatype Reply = Accepted | Rejected

  function Obey(entries: seq<Watchpoint>, c: Command): seq<Watchpoint> {
    var range := AddressRange(c.address, c.length);
    match c
    case AddWatchpoint(_, length, r, w) =>
      if length == 0 || (!r && !w) then entries else Emplaced(entries, Watchpoint(range, r, w))
    case RemoveWatchpoint(_, _) => Erased(entries, range)
  }

  function ObeyAll(entries: seq<Watchpoint>, commands: seq<Command>): seq<Watchpoint> {
    if commands == [] then entries
    else Obey(ObeyAll(entries, commands[..|commands| - 1]), commands[|commands| - 1])
  }

  /** What the two commands do: an add command stores the watchpoint if it is not empty, watches something and
      touches no stored range; a remove command takes away the first range it touches. */
  lemma {:induction false} ObeyMeaning(entries: seq<Watchpoint>, c: Command, x: Watchpoint)
    requires Ordered(entries)
    ensures var range := AddressRange(c.address, c.length);
            var now := Obey(entries, c);
            match c
            case AddWatchpoint(_, length, r, w) =>
              Member(x, now) <==> Member(x, entries)
                                  || (x == Watchpoint(range, r, w) && length > 0 && (r || w)
                                      && FirstTouching(entries, range).None?)
            case RemoveWatchpoint(_, _) =>
              Member(x, now) <==> Member(x, entries) && FirstTouching(entries, range) != Some(x)
  {
    hide Before, FirstTouching;
    var range := AddressRange(c.address, c.length);
    match c
    case AddWatchpoint(_, length, r, w) =>
      if length != 0 {
        EmplacedMeaning(entries, Watchpoint(range, r, w));
      }
    case RemoveWatchpoint(_, _) =>
      ErasedMeaning(entries, range);
  }

  lemma {:induction false} ObeyOrdered(entries: seq<Watchpoint>, c: Command)
    requires Ordered(entries)
    ensures Ordered(Obey(entries, c))
  {
    var range := AddressRange(c.address, c.length);
    match c
    case AddWatchpoint(_, length, r, w) =>
      if length != 0 {
        EmplacedMeaning(entries, Watchpoint(range, r, w));
      }
    case RemoveWatchpoint(_, _) =>
      ErasedMeaning(entries, range);
  }

  /** The map stays well ordered under every sequence of commands. */
  lemma {:induction false} AlwaysOrdered(commands: seq<Command>)
    ensures Ordered(ObeyAll([], commands))
  {
    if commands != [] {
      AlwaysOrdered(commands[..|commands| - 1]);
      ObeyOrdered(ObeyAll([], commands[..|commands| - 1]), commands[|commands| - 1]);
    }
  }

  predicate Watches(w: Watchpoint, op: MemOp) {
    (op == Load && w.watchRead) || (op == Store && w.watchWrite)
  }

  /** What `check_watchpoint` answers; `CheckThrows` is the `std::logic_error` of `get_size`. */
  datatype Verdict = NoHit | Hit(read: bool, write: bool) | CheckThrows

  function Checked(entries: seq<Watchpoint>, op: MemOp, f: MemFunct, address: Word): Verdict {
    if op == NoMem then NoHit
    else if f == NoFunct then CheckThrows
    else
      var w := FirstTouching(entries, AddressRange(address, LoadStore.Width(f)));
      if w.None? || !Watches(w.value, op) then NoHit else Hit(op == Load, op == Store)
  }

  class WatchpointMap {
    var entries: seq<Watchpoint>  // the map's contents in order

    constructor ()
      ensures entries == []
    {
      entries := [];
    }

    method HandleAdd(address: Word, length: Word, watchRead: bool, watchWrite: bool) returns (reply: Reply)
      requires Ordered(entries)
      modifies this
      ensures Ordered(entries)
      ensures entries == Obey(old(entries), AddWatchpoint(address, length, watchRead, watchWrite))
      ensures reply == if length == 0 || (!watchRead && !watchWrite) then Rejected else Accepted
    {
      hide Compare, Before, Ordered, Emplaced;
      ghost var before := entries;
      ObeyOrdered(before, AddWatchpoint(address, length, watchRead, watchWrite));
      if length == 0 {
        return Rejected;
      }
      if !watchRead && !watchWrite {
        return Rejected;
      }
      var w := Watchpoint(AddressRange(address, length), watchRead, watchWrite);
      var i := 0;
      while i < |entries| && Before(entries[i].range, w.range)
        invariant 0 <= i <= |entries|
        invariant entries == before
        invariant forall j :: 0 <= j < i ==> Before(entries[j].range, w.range)
      {
        i := i + 1;
      }
      EmplacedAt(entries, w, i);
      if i == |entries| || Before(w.range, entries[i].range) {
        entries := entries[..i] + [w] + entries[i..];
      }
      assert entries == Emplaced(before, w);
      return Accepted;
    }

    method HandleRemove(address: Word, length: Word) returns (reply: Reply)
      requires Ordered(entries)
      modifies this
      ensures Ordered(entries)
      ensures entries == Obey(old(entries), RemoveWatchpoint(address, length))
      ensures reply == if FirstTouching(old(entries), AddressRange(address, length)).None? then Rejected else Accepted
    {
      hide Compare, Before, Ordered, Touches, Erased, FirstTouching;
      var q := AddressRange(address, length);
      ObeyOrdered(entries, RemoveWatchpoint(address, length));
      var i := 0;
      while i < |entries| && !Touches(entries[i].range, q)
        invariant 0 <= i <= |entries| && entries == old(entries)
        invariant forall j :: 0 <= j < i ==> !Touches(entries[j].range, q)
      {
        i := i + 1;
      }
      TouchingAt(entries, q, i);
      if i == |entries| {
        return Rejected;
      }
      entries := entries[..i] + entries[i + 1..];
      return Accepted;
    }

    /** `check_watchpoint`, given the fields of the result that it looks at. */
    method Check(op: MemOp, f: MemFunct, address: Word) returns (r: Verdict)
      requires Ordered(entries)
      ensures r == Checked(entries, op, f, address)
    {
      hide Touches, FirstTouching;
      if op == NoMem {
        return NoHit;
      }
      if f == NoFunct {
        return CheckThrows;
      }
      var q := AddressRange(address, LoadStore.Width(f));
      var i := 0;
      while i < |entries| && !Touches(entries[i].range, q)
        invariant 0 <= i <= |entries|
        invariant forall j :: 0 <= j < i ==> !Touches(entries[j].range, q)
      {
        i := i + 1;
      }
      TouchingAt(entries, q, i);
      if i == |entries| {
        return NoHit;
      }
      var w := entries[i];
      if !(op == Store && w.watchWrite) && !(op == Load && w.watchRead) {
        return NoHit;
      }
      return Hit(op == Load && w.watchRead, op == Store && w.watchWrite);
    }
  }

  /* ---- When a report is right ---- */

  /** The access is reported. */
  predicate Reported(entries: seq<Watchpoint>, q: AddressRange, op: MemOp) {
    var w := FirstTouching(entries, q);
    w.Some? && Watches(w.value, op)
  }

  /** The access hits a byte that is watched for it. */
  predicate Concerns(w: Watchpoint, q: AddressRange, op: MemOp) {
    Overlaps(w.range, q) && Watches(w, op)
  }

  predicate ShouldReport(entries: seq<Watchpoint>, q: AddressRange, op: MemOp) {
    exists i :: 0 <= i < |entries| && Concerns(entries[i], q, op)
  }

  /** Position of the first entry that touches `q`; the number of entries if there is none. */
  function Position(entries: seq<Watchpoint>, q: AddressRange): (i: nat)
    ensures i <= |entries|
    ensures forall j :: 0 <= j < i ==> !Touches(entries[j].range, q)
    ensures i < |entries| ==> Touches(entries[i].range, q)
    ensures FirstTouching(entries, q) == if i < |entries| then Some(entries[i]) else None
  {
    if entries == [] || Touches(entries[0].range, q) then 0
    else
      var rest := entries[1..];
      assert forall j :: 0 < j < |entries| ==> entries[j] == rest[j - 1];
      1 + Position(rest, q)
  }

  predicate Straight(entries: seq<Watchpoint>) {
    forall i :: 0 <= i < |entries| ==> !Wraps(entries[i].range)
  }

  /** Ranges that are not equivalent keys have a byte in common exactly if one of them reaches 2^32. */
  lemma {:induction false} UntouchedOverlap(a: AddressRange, b: AddressRange)
    requires a.size > 0 && b.size > 0 && !Touches(a, b)
    ensures Overlaps(a, b) <==> Wraps(a) || Wraps(b)
  {
    TouchesIff(a, b);
  }

  /** The entry starts low enough to touch an access that ends at 2^32. */
  predicate StartsLow(w: Watchpoint, q: AddressRange) {
    if Wraps(w.range) then w.range.End() < q.start else w.range.start <= q.start
  }

  /** An access to the last bytes of the address space finds the first entry of all, if that starts low
      enough, and otherwise nothing, although every entry then overlaps it. */
  lemma {:induction false} TopAccess(entries: seq<Watchpoint>, q: AddressRange)
    requires Ordered(entries) && q.size > 0 && q.start + q.size == TWO_32
    ensures Position(entries, q) == if entries != [] && StartsLow(entries[0], q) then 0 else |entries|
    ensures Position(entries, q) == |entries| ==> forall i :: 0 <= i < |entries| ==> Overlaps(entries[i].range, q)
  {
    hide Before, Overlaps, Touches;
    forall i | 0 <= i < |entries|
      ensures Touches(entries[i].range, q) <==> StartsLow(entries[i], q)
      ensures StartsLow(entries[i], q) ==> StartsLow(entries[0], q)
      ensures !Touches(entries[i].range, q) ==> Overlaps(entries[i].range, q)
    {
      TouchesIff(entries[i].range, q);
      if !Touches(entries[i].range, q) {
        UntouchedOverlap(entries[i].range, q);
      }
      if i > 0 {
        BeforeIsGap(entries[0].range, entries[i].range);
      }
    }
  }

  /** The entry is passed over by the lookup although it overlaps the access and watches for it. */
  predicate Overlooked(w: Watchpoint, q: AddressRange, op: MemOp) {
    (Wraps(w.range) || Wraps(q)) && Watches(w, op)
  }

  /** When the report for an access is right, by the first entry that touches it. If that watches for the
      access, some entry from there on must overlap the access and watch for it, or an earlier one be
      overlooked; otherwise no later entry may do so, and no earlier one be overlooked. */
  predicate RightReport(entries: seq<Watchpoint>, q: AddressRange, op: MemOp) {
    var f := Position(entries, q);
    if f < |entries| && Watches(entries[f], op) then
      || (exists j :: f <= j < |entries| && Concerns(entries[j], q, op))
      || (exists j :: 0 <= j < f && Overlooked(entries[j], q, op))
    else
      && (forall j :: f < j < |entries| ==> !Concerns(entries[j], q, op))
      && (forall j :: 0 <= j < f ==> !Overlooked(entries[j], q, op))
  }

  /** For every map and every access, wherever the ranges end: a report, or its absence, agrees with "some
      watched byte is accessed" exactly in these cases. */
  lemma {:induction false} ReportRightIff(entries: seq<Watchpoint>, q: AddressRange, op: MemOp)
    requires Ordered(entries) && q.size > 0
    ensures Reported(entries, q, op) == ShouldReport(entries, q, op) <==> RightReport(entries, q, op)
  {
    hide Before, Overlaps, Touches, FirstTouching, Watches, Wraps;
    var f := Position(entries, q);
    forall j | 0 <= j < f
      ensures Concerns(entries[j], q, op) <==> Overlooked(entries[j], q, op)
    {
      UntouchedOverlap(entries[j].range, q);
    }
  }

  /** At most one stored range has to do with the access, and it overlaps it. */
  predicate Alone(entries: seq<Watchpoint>, q: AddressRange) {
    && (forall i :: 0 <= i < |entries| ==> (Touches(entries[i].range, q) <==> Overlaps(entries[i].range, q)))
    && (forall i, j :: 0 <= i < j < |entries| ==> !(Touches(entries[i].range, q) && Touches(entries[j].range, q)))
  }

  /** That is enough for a right report, for all maps and accesses, wrapping around or not. */
  lemma {:induction false} AloneIsRight(entries: seq<Watchpoint>, q: AddressRange, op: MemOp)
    requires Alone(entries, q)
    ensures Reported(entries, q, op) == ShouldReport(entries, q, op)
  {
    hide Touches, Overlaps, FirstTouching, Watches;
    var f := Position(entries, q);
    if f < |entries| {
      assert Concerns(entries[f], q, op) <==> Watches(entries[f], op);
      forall j | 0 <= j < |entries| && j != f
        ensures !Concerns(entries[j], q, op)
      {
        assert !Touches(entries[j].range, q);
      }
    }
  }

  /** Every access that overlaps a stored range finds an entry, in every tree, if neither reaches 2^32. */
  lemma {:induction false} OverlapIsFound(t: Tree, q: AddressRange, i: nat)
    requires Ordered(InOrder(t)) && i < |InOrder(t)| && Overlaps(InOrder(t)[i].range, q)
    ensures !Wraps(InOrder(t)[i].range) && !Wraps(q) ==> Find(t, q).Some?
  {
    TouchesIff(InOrder(t)[i].range, q);
    FindIsFirstTouching(t, q);
    FirstTouchingMeaning(InOrder(t), q);
  }

  /** Every watchpoint also reports the byte behind it, which is not watched. */
  lemma {:induction false} NeighbourIsReported(entries: seq<Watchpoint>, i: nat, op: MemOp)
    requires Ordered(entries) && Straight(entries) && i < |entries|
    requires Watches(entries[i], op) && entries[i].range.End() < 0xffff_ffff
    ensures var q := AddressRange(entries[i].range.End(), 1);
            Reported(entries, q, op) && !ShouldReport(entries, q, op)
  {
    hide Before, Overlaps, Touches, FirstTouching, Watches;
    var q := AddressRange(entries[i].range.End(), 1);
    forall j | 0 <= j < |entries|
      ensures !Overlaps(entries[j].range, q)
      ensures j == i ==> Touches(entries[j].range, q)
      ensures j < i ==> !Touches(entries[j].range, q)
    {
      TouchesIff(entries[j].range, q);
      StraightOverlap(entries[j].range, q);
      if j < i {
        BeforeIsGap(entries[j].range, entries[i].range);
      } else if i < j {
        BeforeIsGap(entries[i].range, entries[j].range);
      }
    }
    assert Position(entries, q) == i;
  }

  /** A watched store is missed when a lower range that it touches watches only loads. */
  lemma {:induction false} WatchedStoreIsMissed()
    ensures var r := Watchpoint(AddressRange(0x100, 2), true, false);
            var w := Watchpoint(AddressRange(0x103, 1), false, true);
            var q := AddressRange(0x100, 4);
            Ordered([r, w]) && ShouldReport([r, w], q, Store) && !Reported([r, w], q, Store)
  {
    var r, w := Watchpoint(AddressRange(0x100, 2), true, false), Watchpoint(AddressRange(0x103, 1), false, true);
    assert Concerns([r, w][1], AddressRange(0x100, 4), Store);
  }

  /** A watchpoint that ends at 2^32, such as one on the last word of RAM, reports every access below it. */
  lemma {:induction false} TopWatchpointReportsAll(w: Watchpoint, q: AddressRange, op: MemOp)
    requires w.range.start + w.range.size == TWO_32 && w.range.size > 0 && Watches(w, op)
    requires q.size > 0 && q.start + q.size <= w.range.start
    ensures Ordered([w]) && Reported([w], q, op) && !ShouldReport([w], q, op)
  {
    hide Before;
    TouchesIff(w.range, q);
    StraightOverlap(q, w.range);
    assert [w][0] == w;
    OverlapsEitherWay(q, w.range);
  }

  lemma {:induction false} OverlapsEitherWay(a: AddressRange, b: AddressRange)
    ensures Overlaps(a, b) <==> Overlaps(b, a)
  {
  }

  /** At the top of the address space both go wrong with a single watchpoint: a word access to the last word
      is reported for a watchpoint far below, and missed by one inside the word. */
  lemma {:induction false} LastWordGoesWrong()
    ensures var q := AddressRange(0xffff_fffc, 4);
            var below, inside := [Watchpoint(AddressRange(0x100, 4), true, true)],
                                 [Watchpoint(AddressRange(0xffff_fffe, 1), true, true)];
            && Reported(below, q, Load) && !ShouldReport(below, q, Load)
            && !Reported(inside, q, Load) && ShouldReport(inside, q, Load)
  {
    var q := AddressRange(0xffff_fffc, 4);
    assert Concerns([Watchpoint(AddressRange(0xffff_fffe, 1), true, true)][0], q, Load);
  }
}
