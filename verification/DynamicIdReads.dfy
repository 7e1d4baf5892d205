/** Reading an identifier that service 0x2C defined: the read of each of its parts enters the dispatcher again
    (lib/uds/dynamically_define_data_ids.c:55-139, lib/uds/data_by_identifier.c, lib/uds/memory_by_address.c). */
module DynamicIdReads {
  import opened Iso14229
  import opened Sequences
  import opened UdsDispatch
  import opened RegistryHeap
  import opened Registry
  import opened DynamicIds
  import opened DynamicIdRequests

  datatype ReadRequest = ReadId(id: DataId) | ReadMemory(address: nat, length: nat)

  /** What a read sees: the rest of the device, what the request's copy function has taken so far, and how much that
      function can take. */
  datatype World<+D> = World(dev: D, out: seq<byte>, room: nat)

  type Source<!D> = Registration<ReadRequest, World<D>>

  const READ_DATA_BY_IDENT: Event := 1
  const READ_MEM_BY_ADDR: Event := 2
  const DATA_IDENTIFIER: Kind := 1
  const MEMORY: Kind := 2
  const SCRATCH: nat := 256

  const ID_HANDLER := Handler(READ_DATA_BY_IDENT, DATA_IDENTIFIER, RequestOutOfRange)
  const MEMORY_HANDLER := Handler(READ_MEM_BY_ADDR, MEMORY, ConditionsNotCorrect)

  /** The copy function of a request: all or nothing. */
  function Copy<D>(w: World<D>, bytes: seq<byte>): Outcome<World<D>>
  {
    if |w.out| + |bytes| <= w.room then Outcome(w.(out := w.out + bytes), Positive) else Outcome(w, ResponseTooLong)
  }

  // ---- reading the parts -----------------------------------------------------------------------------------------

  function Scratch<D>(w: World<D>): World<D>
  {
    World(w.dev, [], SCRATCH)
  }

  function ReadEntry<D>(slots: seq<Slot<ReadRequest, World<D>>>, e: Entry, w: World<D>): Outcome<World<D>>
  {
    match e
    case FromId(source, position, size) =>
      var child := Walk(ID_HANDLER, slots, ReadId(source), Scratch(w), false);
      var now := w.(dev := child.world.dev);
      if child.nrc != Positive then Outcome(now, child.nrc)
      else if position + size > |child.world.out| then Outcome(now, GeneralReject)
      else Copy(now, child.world.out[position..position + size])
    case FromMemory(address, length) => Walk(MEMORY_HANDLER, slots, ReadMemory(address, length), w, false)
  }

  function ReadEntries<D>(slots: seq<Slot<ReadRequest, World<D>>>, entries: seq<Entry>, w: World<D>): Outcome<World<D>>
  {
    if entries == [] then Outcome(w, Positive)
    else
      var o := ReadEntry(slots, entries[0], w);
      if o.nrc != Positive then o else ReadEntries(slots, entries[1..], o.world)
  }

  /** The read action of a dynamic identifier, over the list its registration points to. */
  method ReadAction<D>(inst: Instance, i: nat, statics: seq<Source<D>>, dynamics: seq<Source<D>>, w: World<D>)
    returns (world: World<D>, nrc: Nrc, consumed: bool)
    requires inst.Valid() && i < |inst.view| && inst.view[i].OwnedNode?
    ensures Outcome(world, nrc) == ReadEntries(Slots(statics, dynamics), Entries(inst.view[i].cells), w)
    ensures consumed <==> nrc == Positive
  {
    ghost var slots, entries := Slots(statics, dynamics), Entries(inst.view[i].cells);
    RegistrationBlock(inst.heap, inst.extra, inst.view, i);
    OwnedBlocks(inst.heap, inst.extra, inst.view, i);
    var nodes := inst.heap[inst.heap[inst.dynamicRegistrations[i]].reg.list].cells;
    world := w;
    for k := 0 to |nodes|
      invariant ReadEntries(slots, entries, w) == ReadEntries(slots, entries[k..], world)
    {
      CellBlock(inst.heap, inst.extra, inst.view, i, k);
      assert entries[k..][0] == entries[k] && entries[k..][1..] == entries[k + 1..];
      nrc, world := ReadOne(inst.heap[nodes[k]].entry, statics, dynamics, world);
      if nrc != Positive {
        return world, nrc, false;
      }
    }
    return world, Positive, true;
  }

  method ReadOne<D>(e: Entry, statics: seq<Source<D>>, dynamics: seq<Source<D>>, w: World<D>)
    returns (nrc: Nrc, world: World<D>)
    ensures Outcome(world, nrc) == ReadEntry(Slots(statics, dynamics), e, w)
  {
    world := w;
    var handlers := [ID_HANDLER, MEMORY_HANDLER];
    assert handlers[0].event == READ_DATA_BY_IDENT && handlers[1].event == READ_MEM_BY_ADDR;
    match e
    case FromId(source, position, size) =>
      var child;
      nrc, child := EventCallback(handlers, statics, dynamics, READ_DATA_BY_IDENT, ReadId(source),
                                  World(w.dev, [], SCRATCH));
      world := w.(dev := child.dev);
      if nrc != Positive {
        return;
      }
      if position + size > |child.out| {
        return GeneralReject, world;
      }
      var copied := Copy(world, child.out[position..position + size]);
      return copied.nrc, copied.world;
    case FromMemory(address, length) =>
      nrc, world := EventCallback(handlers, statics, dynamics, READ_MEM_BY_ADDR, ReadMemory(address, length), w);
  }

  /** One slice, said by what the source answers into the 256 bytes of the scratch buffer. */
  lemma SliceRead<D>(slots: seq<Slot<ReadRequest, World<D>>>, source: DataId, position: nat, size: nat, w: World<D>)
    ensures var child := Walk(ID_HANDLER, slots, ReadId(source), World(w.dev, [], 256), false);
            var o := ReadEntry(slots, FromId(source, position, size), w);
            && o.world.dev == child.world.dev && o.world.room == w.room
            && (o.nrc == Positive <==>
                  child.nrc == Positive && position + size <= |child.world.out| && |w.out| + size <= w.room)
            && (o.nrc == Positive ==> o.world.out == w.out + child.world.out[position..position + size])
            && (o.nrc != Positive ==>
                  && o.world.out == w.out
                  && o.nrc == if child.nrc != Positive then child.nrc
                              else if position + size > |child.world.out| then GeneralReject else ResponseTooLong)
  {
  }

  /** The first part that cannot be read decides the answer, and nothing behind it is read. */
  lemma {:induction false} FirstFailureDecides<D>(slots: seq<Slot<ReadRequest, World<D>>>, before: seq<Entry>, e: Entry,
                                                  behind: seq<Entry>, w: World<D>)
    requires var m := ReadEntries(slots, before, w);
             m.nrc == Positive && ReadEntry(slots, e, m.world).nrc != Positive
    ensures ReadEntries(slots, before + [e] + behind, w)
            == ReadEntry(slots, e, ReadEntries(slots, before, w).world)
    decreases |before|
  {
    var all := before + [e] + behind;
    if before == [] {
      assert all[0] == e;
    } else {
      assert all[0] == before[0] && all[1..] == before[1..] + [e] + behind;
      FirstFailureDecides(slots, before[1..], e, behind, ReadEntry(slots, before[0], w).world);
    }
  }

  // ---- every slice lies inside the scratch buffer ----------------------------------------------------------------

  function CopyAll<D>(w: World<D>, chunks: seq<seq<byte>>): (r: World<D>)
    ensures r.room == w.room && w.out <= r.out && (|w.out| <= w.room ==> |r.out| <= r.room)
    decreases |chunks|
  {
    if chunks == [] then w else CopyAll(Copy(w, chunks[0]).world, chunks[1..])
  }

  /** The actions of a registration write what they read through the copy function of the request only, in as many
      calls as they like and whatever they make of its answers. */
  ghost predicate ThroughCopy<D(!new)>(r: Source<D>)
  {
    forall event, request, w :: ActsThroughCopy(r, event, request, w)
  }

  ghost predicate ActsThroughCopy<D>(r: Source<D>, event: Event, request: ReadRequest, w: World<D>)
  {
    r.actors(event).action.Some? ==>
      exists chunks :: WroteChunks(w, chunks, r.actors(event).action.value(request, w).world)
  }

  ghost predicate WroteChunks<D>(w: World<D>, chunks: seq<seq<byte>>, w': World<D>)
  {
    w'.out == CopyAll(w, chunks).out && w'.room == w.room
  }

  lemma {:induction false} CopyAllSplits<D>(w: World<D>, a: seq<seq<byte>>, b: seq<seq<byte>>)
    ensures CopyAll(w, a + b) == CopyAll(CopyAll(w, a), b)
    decreases |a|
  {
    if a == [] {
      assert a + b == b;
    } else {
      assert (a + b)[1..] == a[1..] + b;
      CopyAllSplits(Copy(w, a[0]).world, a[1..], b);
    }
  }

  lemma {:induction false} CopyAllElsewhere<D>(v: World<D>, w: World<D>, chunks: seq<seq<byte>>)
    requires v.out == w.out && v.room == w.room
    ensures CopyAll(v, chunks).out == CopyAll(w, chunks).out
    decreases |chunks|
  {
    if chunks != [] {
      CopyAllElsewhere(Copy(v, chunks[0]).world, Copy(w, chunks[0]).world, chunks[1..]);
    }
  }

  /** Writing and then writing more. */
  lemma WroteMore<D>(w: World<D>, a: seq<seq<byte>>, m: World<D>, b: seq<seq<byte>>, v: World<D>)
    requires WroteChunks(w, a, m) && WroteChunks(m, b, v)
    ensures WroteChunks(w, a + b, v)
  {
    CopyAllSplits(w, a, b);
    CopyAllElsewhere(m, CopyAll(w, a), b);
  }

  ghost predicate AllThroughCopy<D(!new)>(slots: seq<Slot<ReadRequest, World<D>>>)
  {
    forall i :: 0 <= i < |slots| ==> ThroughCopy(slots[i].registration)
  }

  lemma VisitWrites<D(!new)>(h: Handler, s: Slot<ReadRequest, World<D>>, request: ReadRequest, w: World<D>)
    returns (chunks: seq<seq<byte>>)
    requires ThroughCopy(s.registration)
    ensures WroteChunks(w, chunks, VisitOf(h, s.registration, request, w, s.default).world)
  {
    var v, a := VisitOf(h, s.registration, request, w, s.default).world, s.registration.actors(h.event).action;
    chunks := [];
    if v != w {
      assert ActsThroughCopy(s.registration, h.event, request, w);
      assert v == a.value(request, w).world;
      chunks :| WroteChunks(w, chunks, v);
    }
  }

  /** What a dispatch writes it writes through the copy function. */
  lemma {:induction false} WalkWrites<D(!new)>(h: Handler, slots: seq<Slot<ReadRequest, World<D>>>,
                                               request: ReadRequest, w: World<D>, found: bool)
    returns (chunks: seq<seq<byte>>)
    requires AllThroughCopy(slots)
    ensures WroteChunks(w, chunks, Walk(h, slots, request, w, found).world)
    decreases |slots|
  {
    chunks := [];
    if slots != [] {
      chunks := VisitWrites(h, slots[0], request, w);
      var v := VisitOf(h, slots[0].registration, request, w, slots[0].default);
      if !Stops(v) {
        var more := WalkWrites(h, slots[1..], request, v.world, found || v.matched);
        WroteMore(w, chunks, v.world, more, Walk(h, slots[1..], request, v.world, found || v.matched).world);
        chunks := chunks + more;
      }
    }
  }

  lemma EntryWrites<D(!new)>(slots: seq<Slot<ReadRequest, World<D>>>, e: Entry, w: World<D>)
    returns (chunks: seq<seq<byte>>)
    requires AllThroughCopy(slots)
    ensures WroteChunks(w, chunks, ReadEntry(slots, e, w).world)
  {
    if e.FromMemory? {
      chunks := WalkWrites(MEMORY_HANDLER, slots, ReadMemory(e.address, e.length), w, false);
    } else {
      var child := Walk(ID_HANDLER, slots, ReadId(e.source), Scratch(w), false);
      if child.nrc == Positive && e.position + e.size <= |child.world.out| {
        chunks := [child.world.out[e.position..e.position + e.size]];
        assert chunks[1..] == [];
      } else {
        chunks := [];
      }
    }
  }

  /** So does the read of a defined identifier: its registration is one of those it may itself be read through. */
  lemma {:induction false} EntriesWrite<D(!new)>(slots: seq<Slot<ReadRequest, World<D>>>, entries: seq<Entry>,
                                                 w: World<D>) returns (chunks: seq<seq<byte>>)
    requires AllThroughCopy(slots)
    ensures WroteChunks(w, chunks, ReadEntries(slots, entries, w).world)
    decreases |entries|
  {
    chunks := [];
    if entries != [] {
      chunks := EntryWrites(slots, entries[0], w);
      var o := ReadEntry(slots, entries[0], w);
      if o.nrc == Positive {
        var more := EntriesWrite(slots, entries[1..], o.world);
        WroteMore(w, chunks, o.world, more, ReadEntries(slots, entries[1..], o.world).world);
        chunks := chunks + more;
      }
    }
  }

  /** A slice is only taken from bytes that the source returned, and they lie in the scratch buffer. */
  lemma SliceInside<D(!new)>(slots: seq<Slot<ReadRequest, World<D>>>, e: Entry, w: World<D>)
    requires AllThroughCopy(slots) && e.FromId?
    requires ReadEntry(slots, e, w).nrc == Positive
    ensures var child := Walk(ID_HANDLER, slots, ReadId(e.source), Scratch(w), false).world;
            && e.position + e.size <= |child.out| <= SCRATCH
            && ReadEntry(slots, e, w).world.out == w.out + child.out[e.position..e.position + e.size]
  {
    var chunks := WalkWrites(ID_HANDLER, slots, ReadId(e.source), Scratch(w), false);
  }

  // ---- memory ----------------------------------------------------------------------------------------------------

  /** Memory the handler may read: RAM and flash, each from its first address up to its end. */
  datatype Region = Region(base: nat, end: nat)

  const UINTPTR_MAX: nat := 0xFFFF_FFFF

  predicate IsMemoryAddressValid(regions: seq<Region>, address: nat, length: nat)
  {
    address + length <= UINTPTR_MAX
    && exists i :: 0 <= i < |regions| && regions[i].base <= address && address + length <= regions[i].end
  }

  predicate Readable(regions: seq<Region>, address: nat, length: nat)
  {
    address != 0 && length != 0 && IsMemoryAddressValid(regions, address, length)
  }

  function Range<D>(memory: (D, nat) -> byte, dev: D, address: nat, length: nat): (r: seq<byte>)
    ensures |r| == length && forall i :: 0 <= i < length ==> r[i] == memory(dev, address + i)
  {
    seq(length, i requires 0 <= i < length => memory(dev, address + i))
  }

  /** What the copy function is told: its count has 16 bits. */
  function Count(length: nat): nat
  {
    length % 0x1_0000
  }

  /** The default registration for reading memory. */
  function MemoryRegistration<D>(regions: seq<Region>, memory: (D, nat) -> byte): Source<D>
  {
    Registration(MEMORY, event =>
      if event != READ_MEM_BY_ADDR then Actor(None, None)
      else Actor(
        Some((request: ReadRequest, w: World<D>) =>
          if request.ReadMemory? && Readable(regions, request.address, request.length) then (Positive, true)
          else (RequestOutOfRange, false)),
        Some((request: ReadRequest, w: World<D>) =>
          if !request.ReadMemory? then Acted(w, RequestOutOfRange, None)
          else
            var copied := Copy(w, Range(memory, w.dev, request.address, Count(request.length)));
            Acted(copied.world, if copied.nrc == Positive then Positive else RequestOutOfRange, None))))
  }

  lemma MemoryThroughCopy<D(!new)>(regions: seq<Region>, memory: (D, nat) -> byte)
    ensures ThroughCopy(MemoryRegistration(regions, memory))
  {
    var r := MemoryRegistration(regions, memory);
    forall event, request, w: World<D>
      ensures ActsThroughCopy(r, event, request, w)
    {
      if r.actors(event).action.Some? {
        var w' := r.actors(event).action.value(request, w).world;
        if request.ReadMemory? {
          var bytes := Range(memory, w.dev, request.address, Count(request.length));
          assert [bytes][1..] == [];
          assert WroteChunks(w, [bytes], w');
        } else {
          assert WroteChunks(w, [], w');
        }
      }
    }
  }

  // ---- a read returns the concatenation of the parts -------------------------------------------------------------

  /** Where the bytes come from. The registrations other than the default one for memory are in `others`, in front of
      it and behind it, and are none of memory. */
  datatype Device<!D> = Device(front: seq<Slot<ReadRequest, World<D>>>, back: seq<Slot<ReadRequest, World<D>>>,
                               regions: seq<Region>, memory: (D, nat) -> byte)

  function SlotsOf<D>(d: Device<D>): seq<Slot<ReadRequest, World<D>>>
  {
    d.front + [Slot(MemoryRegistration(d.regions, d.memory), true)] + d.back
  }

  ghost predicate OneMemory<D>(d: Device<D>)
  {
    && (forall i :: 0 <= i < |d.front| ==> d.front[i].registration.kind != MEMORY)
    && (forall i :: 0 <= i < |d.back| ==> d.back[i].registration.kind != MEMORY)
  }

  /** The bytes of one part, if it can be read, and the device after that. */
  datatype Part<+D> = Part(bytes: Option<seq<byte>>, dev: D)

  function PartOf<D>(d: Device<D>, e: Entry, dev: D): Part<D>
  {
    match e
    case FromId(source, position, size) =>
      var child := Walk(ID_HANDLER, SlotsOf(d), ReadId(source), World(dev, [], SCRATCH), false);
      Part(if child.nrc == Positive && position + size <= |child.world.out|
           then Some(child.world.out[position..position + size]) else None, child.world.dev)
    case FromMemory(address, length) =>
      Part(if Readable(d.regions, address, length) then Some(Range(d.memory, dev, address, Count(length))) else None, dev)
  }

  /** The bytes of all parts in order, if each of them can be read. */
  function Parts<D>(d: Device<D>, entries: seq<Entry>, dev: D): (r: Option<seq<seq<byte>>>)
    ensures r.Some? ==> |r.value| == |entries|
  {
    if entries == [] then Some([])
    else
      var p := PartOf(d, entries[0], dev);
      var rest := Parts(d, entries[1..], p.dev);
      if p.bytes.None? || rest.None? then None else Some([p.bytes.value] + rest.value)
  }

  /** Registrations that take no part can be left out before and behind the one that does. */
  lemma {:induction false} OnlyOneTakesPart<R, W(!new)>(h: Handler, before: seq<Slot<R, W>>, s: Slot<R, W>,
                                                         after: seq<Slot<R, W>>, request: R, w: W)
    requires forall i :: 0 <= i < |before| ==> Inert(h, before[i].registration, request)
    requires forall i :: 0 <= i < |after| ==> Inert(h, after[i].registration, request)
    ensures Walk(h, before + [s] + after, request, w, false) == Walk(h, [s], request, w, false)
    decreases |before| + |after|
  {
    if before != [] {
      var rest := before[1..];
      assert before + [s] + after == [] + [before[0]] + (rest + [s] + after);
      assert [] + (rest + [s] + after) == rest + [s] + after;
      InertChangesNothing(h, [], before[0], rest + [s] + after, request, w, false);
      OnlyOneTakesPart(h, rest, s, after, request, w);
    } else if after != [] {
      var rest := after[1..];
      assert before + [s] + after == [s] + [after[0]] + rest;
      assert [s] + rest == [] + [s] + rest;
      InertChangesNothing(h, [s], after[0], rest, request, w, false);
      OnlyOneTakesPart(h, [], s, rest, request, w);
    } else {
      assert before + [s] + after == [s];
    }
  }

  lemma ReadsMemory<D(!new)>(d: Device<D>, address: nat, length: nat, w: World<D>)
    requires OneMemory(d)
    ensures var o := Walk(MEMORY_HANDLER, SlotsOf(d), ReadMemory(address, length), w, false);
            var bytes := Range(d.memory, w.dev, address, Count(length));
            && (o.nrc == Positive <==> Readable(d.regions, address, length) && |w.out| + |bytes| <= w.room)
            && (o.nrc == Positive ==> o.world == w.(out := w.out + bytes))
  {
    var request, s := ReadMemory(address, length), Slot(MemoryRegistration(d.regions, d.memory), true);
    OnlyOneTakesPart(MEMORY_HANDLER, d.front, s, d.back, request, w);
    assert [s][1..] == [];
  }

  /** The default registration ends the dispatch, whatever stands behind it. */
  lemma MemoryStops<D>(regions: seq<Region>, memory: (D, nat) -> byte, behind: seq<Slot<ReadRequest, World<D>>>,
                       address: nat, length: nat, w: World<D>)
    ensures var s := Slot(MemoryRegistration(regions, memory), true);
            Walk(MEMORY_HANDLER, [s] + behind, ReadMemory(address, length), w, false)
            == Walk(MEMORY_HANDLER, [s], ReadMemory(address, length), w, false)
  {
    var s := Slot(MemoryRegistration(regions, memory), true);
    assert [s][1..] == [] && ([s] + behind)[0] == s;
  }

  predicate InRegion(r: Region, a: nat)
  {
    r.base <= a < r.end
  }

  /** Each byte of the range lies in the region. */
  ghost predicate Covers(r: Region, address: nat, length: nat)
  {
    forall a :: address <= a < address + length ==> InRegion(r, a)
  }

  lemma CoversByEnds(r: Region, address: nat, length: nat)
    requires length > 0
    ensures Covers(r, address, length) <==> r.base <= address && address + length <= r.end
  {
    if Covers(r, address, length) {
      assert InRegion(r, address) && InRegion(r, address + length - 1);
    }
  }

  lemma ReadableIsCovered(regions: seq<Region>, address: nat, length: nat)
    ensures Readable(regions, address, length) <==>
              && address != 0 && length != 0 && address + length <= 0xFFFF_FFFF
              && exists i :: 0 <= i < |regions| && Covers(regions[i], address, length)
  {
    if length != 0 {
      forall i | 0 <= i < |regions|
        ensures Covers(regions[i], address, length) <==>
                  regions[i].base <= address && address + length <= regions[i].end
      {
        CoversByEnds(regions[i], address, length);
      }
    }
  }

  /** Reading memory byte by byte: it succeeds exactly for a non-empty range at a non-null address all of whose bytes lie
      in one region, below the last address, and as far as the 16 bits of the count see it within the response; then
      these bytes are the answer, and otherwise the request is out of range and nothing is written. */
  lemma MemoryRead<D(!new)>(d: Device<D>, address: nat, length: nat, w: World<D>)
    requires OneMemory(d)
    ensures var o, count := Walk(MEMORY_HANDLER, SlotsOf(d), ReadMemory(address, length), w, false), length % 0x1_0000;
            && (o.nrc == Positive <==>
                  && address != 0 && length != 0 && address + length <= 0xFFFF_FFFF && |w.out| + count <= w.room
                  && exists i :: 0 <= i < |d.regions| && Covers(d.regions[i], address, length))
            && (o.nrc == Positive ==>
                  && o.world.dev == w.dev && o.world.room == w.room
                  && |o.world.out| == |w.out| + count && o.world.out[..|w.out|] == w.out
                  && forall j :: |w.out| <= j < |w.out| + count ==>
                       o.world.out[j] == d.memory(w.dev, address + (j - |w.out|)))
            && (o.nrc != Positive ==> o == Outcome(w, RequestOutOfRange))
  {
    ReadsMemory(d, address, length, w);
    ReadableIsCovered(d.regions, address, length);
    var s := Slot(MemoryRegistration(d.regions, d.memory), true);
    OnlyOneTakesPart(MEMORY_HANDLER, d.front, s, d.back, ReadMemory(address, length), w);
    assert [s][1..] == [];
  }

  /** Some memory range reaches past every region. */
  ghost predicate ReachesOutside(regions: seq<Region>, entries: seq<Entry>)
  {
    exists k :: 0 <= k < |entries| && entries[k].FromMemory? &&
      forall i :: 0 <= i < |regions| ==> !Covers(regions[i], entries[k].address, entries[k].length)
  }

  lemma {:induction false} OutsideFails<D(!new)>(d: Device<D>, entries: seq<Entry>, dev: D)
    requires ReachesOutside(d.regions, entries)
    ensures Parts(d, entries, dev).None?
    decreases |entries|
  {
    var k :| 0 <= k < |entries| && entries[k].FromMemory? &&
      forall i :: 0 <= i < |d.regions| ==> !Covers(d.regions[i], entries[k].address, entries[k].length);
    if k == 0 {
      ReadableIsCovered(d.regions, entries[0].address, entries[0].length);
    } else {
      assert entries[1..][k - 1] == entries[k];
      OutsideFails(d, entries[1..], PartOf(d, entries[0], dev).dev);
    }
  }

  /** Reading one part succeeds if and only if the part can be read and there is room for it. */
  lemma ReadsPart<D(!new)>(d: Device<D>, e: Entry, w: World<D>)
    requires OneMemory(d)
    ensures var o, p := ReadEntry(SlotsOf(d), e, w), PartOf(d, e, w.dev);
            && (o.nrc == Positive <==> p.bytes.Some? && |w.out| + |p.bytes.value| <= w.room)
            && (o.nrc == Positive ==> o.world == World(p.dev, w.out + p.bytes.value, w.room))
  {
    if e.FromMemory? {
      ReadsMemory(d, e.address, e.length, w);
    }
  }

  /** A read succeeds if and only if each part can be read and all of them together fit the response; then the response
      has grown by exactly their concatenation in the order of their definition. */
  lemma {:induction false} ReadReturnsParts<D(!new)>(d: Device<D>, entries: seq<Entry>, w: World<D>)
    requires OneMemory(d) && |w.out| <= w.room
    ensures var o, parts := ReadEntries(SlotsOf(d), entries, w), Parts(d, entries, w.dev);
            && (o.nrc == Positive <==> parts.Some? && |w.out| + |Concat(parts.value)| <= w.room)
            && (o.nrc == Positive ==> o.world.out == w.out + Concat(parts.value) && o.world.room == w.room)
    decreases |entries|
  {
    if entries != [] {
      ReadsPart(d, entries[0], w);
      PartsFront(d, entries, w.dev);
      var o := ReadEntry(SlotsOf(d), entries[0], w);
      if o.nrc == Positive {
        var p := PartOf(d, entries[0], w.dev);
        ReadReturnsParts(d, entries[1..], o.world);
        if Parts(d, entries[1..], p.dev).Some? {
          Associative(w.out, p.bytes.value, Concat(Parts(d, entries[1..], p.dev).value));
        }
      }
    }
  }

  lemma PartsFront<D>(d: Device<D>, entries: seq<Entry>, dev: D)
    requires entries != []
    ensures var p, parts := PartOf(d, entries[0], dev), Parts(d, entries, dev);
            var rest := Parts(d, entries[1..], p.dev);
            && (parts.Some? <==> p.bytes.Some? && rest.Some?)
            && (parts.Some? ==> Concat(parts.value) == p.bytes.value + Concat(rest.value))
  {
    var p := PartOf(d, entries[0], dev);
    var rest := Parts(d, entries[1..], p.dev);
    if p.bytes.Some? && rest.Some? {
      assert ([p.bytes.value] + rest.value)[1..] == rest.value;
    }
  }

  // ---- the size of memory parts ----------------------------------------------------------------------------------

  /** What was asked for: as PartOf, with the whole memory range. */
  function Wanted<D>(d: Device<D>, e: Entry, dev: D): seq<byte>
    requires PartOf(d, e, dev).bytes.Some?
  {
    if e.FromMemory? then Range(d.memory, dev, e.address, e.length) else PartOf(d, e, dev).bytes.value
  }

  function AllWanted<D>(d: Device<D>, entries: seq<Entry>, dev: D): seq<seq<byte>>
    requires Parts(d, entries, dev).Some?
  {
    if entries == [] then []
    else [Wanted(d, entries[0], dev)] + AllWanted(d, entries[1..], PartOf(d, entries[0], dev).dev)
  }

  ghost predicate LengthsFit(entries: seq<Entry>)
  {
    forall i :: 0 <= i < |entries| && entries[i].FromMemory? ==> entries[i].length < 0x1_0000
  }

  lemma {:induction false} PartsShorter<D>(d: Device<D>, entries: seq<Entry>, dev: D)
    requires Parts(d, entries, dev).Some?
    ensures var got, wanted := Parts(d, entries, dev).value, AllWanted(d, entries, dev);
            && |Concat(got)| <= |Concat(wanted)|
            && (LengthsFit(entries) ==> got == wanted)
            && (!LengthsFit(entries) ==> |Concat(got)| < |Concat(wanted)|)
    decreases |entries|
  {
    if entries != [] {
      var e, tail := entries[0], entries[1..];
      var p := PartOf(d, e, dev);
      var got, wanted := Parts(d, tail, p.dev).value, AllWanted(d, tail, p.dev);
      PartsShorter(d, tail, p.dev);
      assert ([p.bytes.value] + got)[1..] == got && ([Wanted(d, e, dev)] + wanted)[1..] == wanted;
      assert LengthsFit(entries) <==> LengthsFit(tail) && (e.FromMemory? ==> e.length < 0x1_0000);
      CountOf(e);
    }
  }

  lemma CountOf(e: Entry)
    ensures e.FromMemory? ==> Count(e.length) <= e.length
    ensures e.FromMemory? ==> (Count(e.length) == e.length <==> e.length < 0x1_0000)
  {
  }

  /** A read that succeeds returns the slices and the whole memory ranges if and only if no range is longer than the
      16-bit count of the copy function can say; otherwise it returns less and still succeeds. */
  lemma WholeRangesIff<D(!new)>(d: Device<D>, entries: seq<Entry>, w: World<D>)
    requires OneMemory(d) && |w.out| <= w.room && ReadEntries(SlotsOf(d), entries, w).nrc == Positive
    ensures Parts(d, entries, w.dev).Some?
    ensures ReadEntries(SlotsOf(d), entries, w).world.out == w.out + Concat(AllWanted(d, entries, w.dev))
            <==> LengthsFit(entries)
  {
    ReadReturnsParts(d, entries, w);
    PartsShorter(d, entries, w.dev);
    var got, wanted := Concat(Parts(d, entries, w.dev).value), Concat(AllWanted(d, entries, w.dev));
    assert |w.out + got| == |w.out| + |got| && |w.out + wanted| == |w.out| + |wanted|;
  }

  /** A device with 2^17 bytes of RAM and nothing else. */
  function RamOnly(memory: (int, nat) -> byte): Device<int>
  {
    Device([], [], [Region(0x2000_0000, 0x2002_0000)], memory)
  }

  const LONG_RANGE := FromMemory(0x2000_0000, 0x1_0000)

  /** A read for which it fails: 2^16 readable bytes are asked for, and the read succeeds with none. */
  lemma LongRangeReadShort(memory: (int, nat) -> byte)
    ensures var w := World(0, [], SCRATCH);
            && ReadEntries(SlotsOf(RamOnly(memory)), [LONG_RANGE], w) == Outcome(w, Positive)
            && Parts(RamOnly(memory), [LONG_RANGE], 0).Some?
            && |Concat(AllWanted(RamOnly(memory), [LONG_RANGE], 0))| == 0x1_0000
  {
    var d, w := RamOnly(memory), World(0, [], SCRATCH);
    assert Readable(d.regions, 0x2000_0000, 0x1_0000) by {
      assert d.regions[0].base <= 0x2000_0000 && 0x2000_0000 + 0x1_0000 <= d.regions[0].end;
    }
    ReadsMemory(d, 0x2000_0000, 0x1_0000, w);
    assert w.out + Range(memory, 0, 0x2000_0000, Count(0x1_0000)) == w.out;
    assert [LONG_RANGE][1..] == [];
    ConcatOne(Wanted(d, LONG_RANGE, 0));
  }

  lemma ConcatOne(s: seq<byte>)
    ensures Concat([s]) == s
  {
    assert [s][1..] == [];
  }
}
