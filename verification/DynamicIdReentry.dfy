/** From the definition of an identifier to its read: the registrations that the read enters again are those of the same
    instance, dynamic ones included (lib/uds/dynamically_define_data_ids.c:55-139). */
module DynamicIdReentry {
  import opened Iso14229
  import opened Sequences
  import opened UdsDispatch
  import opened RegistryHeap
  import opened Registry
  import opened DynamicIds
  import opened DynamicIdRequests
  import opened DynamicIdReads
  import opened DynamicIdRuns

  /** The registration that a defined identifier has in the dispatcher; its sources are read through `sources`. */
  function OwnRegistration<D>(sources: seq<Slot<ReadRequest, World<D>>>, dataId: DataId, entries: seq<Entry>): Source<D>
  {
    Registration(DATA_IDENTIFIER, event => OwnActor(sources, dataId, entries, event))
  }

  function OwnActor<D>(sources: seq<Slot<ReadRequest, World<D>>>, dataId: DataId, entries: seq<Entry>, event: Event)
    : Actor<ReadRequest, World<D>>
  {
    if event != READ_DATA_BY_IDENT then Actor(None, None)
    else Actor(Some((request, w) => (Positive, request == ReadId(dataId))),
               Some((request, w) => OwnActed(ReadEntries(sources, entries, w))))
  }

  function OwnActed<D>(o: Outcome<World<D>>): Acted<World<D>>
  {
    Acted(o.world, o.nrc, if o.nrc == Positive then Some(true) else None)
  }

  /** The registrations of an instance as the dispatcher meets them; those of others are given. */
  function Dynamics<D>(view: seq<Node>, sources: seq<Slot<ReadRequest, World<D>>>, foreign: Node -> Source<D>): (r: seq<Source<D>>)
    ensures |r| == |view|
  {
    seq(|view|, i requires 0 <= i < |view| =>
      if view[i].OwnedNode? then OwnRegistration(sources, view[i].dataId, Entries(view[i].cells)) else foreign(view[i]))
  }

  /** Reading an identifier that is defined reads its entries, wherever its registration stands among the others. */
  lemma ReadDefined<D(!new)>(view: seq<Node>, statics: seq<Source<D>>, foreign: Node -> Source<D>,
                             sources: seq<Slot<ReadRequest, World<D>>>, id: DataId, w: World<D>)
    requires Registered(view) && Lookup(Held(view), id).Some?
    requires forall i :: 0 <= i < |statics| ==> Inert(ID_HANDLER, statics[i], ReadId(id))
    requires forall n :: n in view && n.ForeignNode? ==> Inert(ID_HANDLER, foreign(n), ReadId(id))
    ensures Walk(ID_HANDLER, Slots(statics, Dynamics(view, sources, foreign)), ReadId(id), w, false)
            == ReadEntries(sources, Lookup(Held(view), id).value, w)
  {
    var slots := Slots(statics, Dynamics(view, sources, foreign));
    var i := DefinedAt(view, id);
    var k := |statics| + i;
    var s := Slot(OwnRegistration(sources, id, Entries(view[i].cells)), false);
    assert slots[k] == s;
    SplitAt(slots, k);
    forall j | 0 <= j < |slots| && j != k
      ensures Inert(ID_HANDLER, slots[j].registration, ReadId(id))
    {
      OthersInert(view, statics, foreign, sources, id, i, j);
    }
    OnlyOneTakesPart(ID_HANDLER, slots[..k], s, slots[k + 1..], ReadId(id), w);
    OwnReads(sources, id, Entries(view[i].cells), w);
  }

  lemma WalkOne<R, W>(h: Handler, s: Slot<R, W>, request: R, w: W)
    ensures var v := VisitOf(h, s.registration, request, w, s.default);
            Walk(h, [s], request, w, false)
            == Outcome(v.world, if Stops(v) then v.nrc else if v.matched then Positive else h.defaultNrc)
  {
    assert [s][1..] == [];
  }

  lemma VisitApplies<R, W>(h: Handler, r: Registration<R, W>, request: R, w: W, acted: Acted<W>)
    requires r.kind == h.kind && r.actors(h.event).check.Some? && r.actors(h.event).action.Some?
    requires r.actors(h.event).check.value(request, w) == (Positive, true)
    requires r.actors(h.event).action.value(request, w) == acted
    ensures VisitOf(h, r, request, w, false)
            == Visit(acted.world, acted.nrc, acted.consume == Some(true), acted.nrc == Positive)
  {
  }

  lemma OwnVisit<D>(sources: seq<Slot<ReadRequest, World<D>>>, id: DataId, entries: seq<Entry>, w: World<D>)
    ensures var acted := OwnActed(ReadEntries(sources, entries, w));
            VisitOf(ID_HANDLER, OwnRegistration(sources, id, entries), ReadId(id), w, false)
            == Visit(acted.world, acted.nrc, acted.consume == Some(true), acted.nrc == Positive)
  {
    var r := OwnRegistration(sources, id, entries);
    var a := r.actors(READ_DATA_BY_IDENT);
    assert a == OwnActor(sources, id, entries, READ_DATA_BY_IDENT);
    VisitApplies(ID_HANDLER, r, ReadId(id), w, a.action.value(ReadId(id), w));
  }

  lemma OwnReads<D>(sources: seq<Slot<ReadRequest, World<D>>>, id: DataId, entries: seq<Entry>, w: World<D>)
    ensures Walk(ID_HANDLER, [Slot(OwnRegistration(sources, id, entries), false)], ReadId(id), w, false)
            == ReadEntries(sources, entries, w)
  {
    OwnVisit(sources, id, entries, w);
    WalkOne(ID_HANDLER, Slot(OwnRegistration(sources, id, entries), false), ReadId(id), w);
  }

  /** And it ends there: what stands behind it does not see the request. */
  lemma OwnStops<D>(sources: seq<Slot<ReadRequest, World<D>>>, id: DataId, entries: seq<Entry>,
                    behind: seq<Slot<ReadRequest, World<D>>>, w: World<D>)
    ensures Walk(ID_HANDLER, [Slot(OwnRegistration(sources, id, entries), false)] + behind, ReadId(id), w, false)
            == ReadEntries(sources, entries, w)
  {
    var s := Slot(OwnRegistration(sources, id, entries), false);
    OwnVisit(sources, id, entries, w);
    assert ([s] + behind)[0] == s;
  }

  lemma OthersInert<D(!new)>(view: seq<Node>, statics: seq<Source<D>>, foreign: Node -> Source<D>,
                             sources: seq<Slot<ReadRequest, World<D>>>, id: DataId, i: nat, j: nat)
    requires Registered(view) && i < |view| && view[i].OwnedNode? && view[i].dataId == id
    requires forall i :: 0 <= i < |statics| ==> Inert(ID_HANDLER, statics[i], ReadId(id))
    requires forall n :: n in view && n.ForeignNode? ==> Inert(ID_HANDLER, foreign(n), ReadId(id))
    requires j < |statics| + |view| && j != |statics| + i
    ensures Inert(ID_HANDLER, Slots(statics, Dynamics(view, sources, foreign))[j].registration, ReadId(id))
  {
    var dynamics := Dynamics(view, sources, foreign);
    var r := Slots(statics, dynamics)[j].registration;
    if j < |statics| {
      assert r == statics[j];
    } else {
      assert r == dynamics[j - |statics|];
      var n := view[j - |statics|];
      if n.OwnedNode? {
        assert n.dataId != id;
        OtherIdInert(sources, n.dataId, Entries(n.cells), id);
      }
    }
  }

  lemma OtherIdInert<D(!new)>(sources: seq<Slot<ReadRequest, World<D>>>, other: DataId, entries: seq<Entry>, id: DataId)
    requires other != id
    ensures Inert(ID_HANDLER, OwnRegistration(sources, other, entries), ReadId(id))
  {
  }

  lemma {:induction false} LookupAt(defs: seq<Definition>, id: DataId) returns (k: nat)
    requires Lookup(defs, id).Some?
    ensures k < |defs| && defs[k] == Definition(id, Lookup(defs, id).value)
    decreases |defs|
  {
    if defs[0].id == id {
      k := 0;
    } else {
      k := LookupAt(defs[1..], id);
      k := k + 1;
    }
  }

  lemma DefinedAt(view: seq<Node>, id: DataId) returns (i: nat)
    requires Registered(view) && Lookup(Held(view), id).Some?
    ensures i < |view| && view[i].OwnedNode? && view[i].dataId == id
    ensures Entries(view[i].cells) == Lookup(Held(view), id).value
  {
    var k := LookupAt(Held(view), id);
    i := OwnedInView(view, k);
  }

  // ---- the dispatcher that is entered again ----------------------------------------------------------------------

  /** The registrations of an instance, static and dynamic, when its defined identifiers are read through `inner`. */
  function Entered<D>(view: seq<Node>, statics: seq<Source<D>>, foreign: Node -> Source<D>,
                      inner: seq<Slot<ReadRequest, World<D>>>): (r: seq<Slot<ReadRequest, World<D>>>)
    ensures |r| == |statics| + |view|
  {
    Slots(statics, Dynamics(view, inner, foreign))
  }

  /** Slot by slot the same, or two registrations that take no part. */
  ghost predicate Alike<R, W(!new)>(h: Handler, a: seq<Slot<R, W>>, b: seq<Slot<R, W>>, request: R)
  {
    && |a| == |b|
    && forall i :: 0 <= i < |a| ==>
         a[i] == b[i] || (Inert(h, a[i].registration, request) && Inert(h, b[i].registration, request))
  }

  lemma InertVisit<R, W(!new)>(h: Handler, r: Registration<R, W>, request: R, w: W, default: bool)
    requires Inert(h, r, request)
    ensures VisitOf(h, r, request, w, default) == Visit(w, Positive, false, false)
  {
  }

  lemma {:induction false} AlikeWalks<R, W(!new)>(h: Handler, a: seq<Slot<R, W>>, b: seq<Slot<R, W>>, request: R, w: W,
                                                   found: bool)
    requires Alike(h, a, b, request)
    ensures Walk(h, a, request, w, found) == Walk(h, b, request, w, found)
    decreases |a|
  {
    if a != [] {
      if a[0] != b[0] {
        InertVisit(h, a[0].registration, request, w, a[0].default);
        InertVisit(h, b[0].registration, request, w, b[0].default);
      }
      var v := VisitOf(h, a[0].registration, request, w, a[0].default);
      assert v == VisitOf(h, b[0].registration, request, w, b[0].default);
      assert forall i :: 0 <= i < |a| - 1 ==> a[1..][i] == a[i + 1] && b[1..][i] == b[i + 1];
      AlikeWalks(h, a[1..], b[1..], request, v.world, found || v.matched);
    }
  }

  /** No entry reads an identifier that is itself defined. */
  predicate PlainSources(view: seq<Node>, entries: seq<Entry>)
  {
    forall i :: 0 <= i < |entries| && entries[i].FromId? ==> Fresh(view, entries[i].source)
  }

  lemma EnteredAlikeForId<D(!new)>(view: seq<Node>, statics: seq<Source<D>>, foreign: Node -> Source<D>,
                                   x: seq<Slot<ReadRequest, World<D>>>, y: seq<Slot<ReadRequest, World<D>>>, id: DataId)
    requires Fresh(view, id)
    ensures Alike(ID_HANDLER, Entered(view, statics, foreign, x), Entered(view, statics, foreign, y), ReadId(id))
  {
    var a, b := Entered(view, statics, foreign, x), Entered(view, statics, foreign, y);
    forall i | 0 <= i < |a| && a[i] != b[i]
      ensures Inert(ID_HANDLER, a[i].registration, ReadId(id)) && Inert(ID_HANDLER, b[i].registration, ReadId(id))
    {
      var n := OwnAt(view, statics, foreign, x, y, i);
      OtherIdInert(x, n.dataId, Entries(n.cells), id);
      OtherIdInert(y, n.dataId, Entries(n.cells), id);
    }
  }

  lemma EnteredAlikeForMemory<D(!new)>(view: seq<Node>, statics: seq<Source<D>>, foreign: Node -> Source<D>,
                                       x: seq<Slot<ReadRequest, World<D>>>, y: seq<Slot<ReadRequest, World<D>>>,
                                       request: ReadRequest)
    ensures Alike(MEMORY_HANDLER, Entered(view, statics, foreign, x), Entered(view, statics, foreign, y), request)
  {
    var a, b := Entered(view, statics, foreign, x), Entered(view, statics, foreign, y);
    forall i | 0 <= i < |a| && a[i] != b[i]
      ensures Inert(MEMORY_HANDLER, a[i].registration, request) && Inert(MEMORY_HANDLER, b[i].registration, request)
    {
      var n := OwnAt(view, statics, foreign, x, y, i);
    }
  }

  /** Where two such lists differ a defined identifier stands. */
  lemma OwnAt<D>(view: seq<Node>, statics: seq<Source<D>>, foreign: Node -> Source<D>,
                 x: seq<Slot<ReadRequest, World<D>>>, y: seq<Slot<ReadRequest, World<D>>>, i: nat) returns (n: Node)
    requires i < |statics| + |view|
    requires Entered(view, statics, foreign, x)[i] != Entered(view, statics, foreign, y)[i]
    ensures n.OwnedNode? && n in view
    ensures Entered(view, statics, foreign, x)[i].registration == OwnRegistration(x, n.dataId, Entries(n.cells))
    ensures Entered(view, statics, foreign, y)[i].registration == OwnRegistration(y, n.dataId, Entries(n.cells))
  {
    assert i >= |statics|;
    n := view[i - |statics|];
    assert Entered(view, statics, foreign, x)[i] == Slot(Dynamics(view, x, foreign)[i - |statics|], false);
    assert Entered(view, statics, foreign, y)[i] == Slot(Dynamics(view, y, foreign)[i - |statics|], false);
  }

  /** While no source is itself a defined identifier, it makes no difference to a read what the defined identifiers in
      the dispatcher it enters would themselves be read through. */
  lemma {:induction false} ReentryIndependent<D(!new)>(view: seq<Node>, statics: seq<Source<D>>,
                                                       foreign: Node -> Source<D>,
                                                       x: seq<Slot<ReadRequest, World<D>>>,
                                                       y: seq<Slot<ReadRequest, World<D>>>, entries: seq<Entry>,
                                                       w: World<D>)
    requires PlainSources(view, entries)
    ensures ReadEntries(Entered(view, statics, foreign, x), entries, w)
            == ReadEntries(Entered(view, statics, foreign, y), entries, w)
    decreases |entries|
  {
    if entries != [] {
      var a, b, e := Entered(view, statics, foreign, x), Entered(view, statics, foreign, y), entries[0];
      match e {
        case FromId(source, _, _) =>
          EnteredAlikeForId(view, statics, foreign, x, y, source);
          AlikeWalks(ID_HANDLER, a, b, ReadId(source), Scratch(w), false);
        case FromMemory(address, length) =>
          EnteredAlikeForMemory(view, statics, foreign, x, y, ReadMemory(address, length));
          AlikeWalks(MEMORY_HANDLER, a, b, ReadMemory(address, length), w, false);
      }
      assert ReadEntry(a, e, w) == ReadEntry(b, e, w);
      assert forall i :: 0 <= i < |entries| - 1 ==> entries[1..][i] == entries[i + 1];
      ReentryIndependent(view, statics, foreign, x, y, entries[1..], ReadEntry(a, e, w).world);
    }
  }

  /** The dispatcher answers a read of the identifier with the concatenation of the entries' parts, exactly if each can
      be read and all fit. */
  ghost predicate ReadsBack<D(!new)>(dispatcher: seq<Slot<ReadRequest, World<D>>>, d: Device<D>, entries: seq<Entry>,
                                     id: DataId, w: World<D>)
    requires OneMemory(d)
  {
    var o, parts := Walk(ID_HANDLER, dispatcher, ReadId(id), w, false), Parts(d, entries, w.dev);
    && (o.nrc == Positive <==> parts.Some? && |w.out| + |Concat(parts.value)| <= w.room)
    && (o.nrc == Positive ==> o.world.out == w.out + Concat(parts.value))
  }

  /** A read through the dispatcher of the same instance, which the read enters again: of an identifier that means what
      the run says, defined from sources that are not themselves defined, the answer is the concatenation of what the run
      made of it, however deep the dispatcher is entered (x and y). The device is the instance's own registrations, with
      the one for memory among them. */
  lemma ReadAfterRun<D(!new)>(view: seq<Node>, ops: seq<Op>, statics: seq<Source<D>>, foreign: Node -> Source<D>,
                              d: Device<D>, x: seq<Slot<ReadRequest, World<D>>>, y: seq<Slot<ReadRequest, World<D>>>,
                              id: DataId, w: World<D>)
    requires Registered(view) && Lookup(Held(view), id) == Meaning(ops, id) && Meaning(ops, id).Some?
    requires SlotsOf(d) == Entered(view, statics, foreign, x) && OneMemory(d) && |w.out| <= w.room
    requires PlainSources(view, Meaning(ops, id).value)
    requires forall i :: 0 <= i < |statics| ==> Inert(ID_HANDLER, statics[i], ReadId(id))
    requires forall n :: n in view && n.ForeignNode? ==> Inert(ID_HANDLER, foreign(n), ReadId(id))
    ensures var dispatcher := Entered(view, statics, foreign, Entered(view, statics, foreign, y));
            && ReadsBack(dispatcher, d, Meaning(ops, id).value, id, w)
            && (ReachesOutside(d.regions, Meaning(ops, id).value) ==>
                  Walk(ID_HANDLER, dispatcher, ReadId(id), w, false).nrc != Positive)
  {
    var entries := Meaning(ops, id).value;
    ReadDefined(view, statics, foreign, Entered(view, statics, foreign, y), id, w);
    ReentryIndependent(view, statics, foreign, y, x, entries, w);
    ReadReturnsParts(d, entries, w);
    if ReachesOutside(d.regions, entries) {
      OutsideFails(d, entries, w.dev);
    }
  }

  /** Any run and then a read: of each identifier that the run leaves defined, from sources that are not, the dispatcher
      of the instance returns what the run made of it. */
  method RunThenRead<D(!new)>(inst: Instance, steps: seq<Step>, ghost statics: seq<Source<D>>,
                              ghost foreign: Node -> Source<D>, ghost d: Device<D>,
                              ghost x: seq<Slot<ReadRequest, World<D>>>, ghost y: seq<Slot<ReadRequest, World<D>>>,
                              ghost id: DataId, ghost w: World<D>)
    returns (answers: seq<Answer>, ghost views: seq<seq<Node>>)
    requires inst.Valid() && Held(inst.view) == [] && Unshared(ForeignOnly(inst.view), steps)
    requires OneMemory(d) && |w.out| <= w.room
    requires forall i :: 0 <= i < |statics| ==> Inert(ID_HANDLER, statics[i], ReadId(id))
    requires forall n: Node :: n.ForeignNode? ==> Inert(ID_HANDLER, foreign(n), ReadId(id))
    modifies inst
    ensures |answers| <= |steps| && |views| == |answers| + 1 && Passes(views, steps) && views[0] == old(inst.view)
    ensures |answers| < |steps| ==> EndsRun(views[|answers|], steps[|answers|])
    ensures |answers| == |steps| && SlotsOf(d) == Entered(inst.view, statics, foreign, x) ==>
              var meaning := Meaning(OpsOf(views, steps), id);
              var dispatcher := Entered(inst.view, statics, foreign, Entered(inst.view, statics, foreign, y));
              meaning.Some? && PlainSources(inst.view, meaning.value) ==>
                && ReadsBack(dispatcher, d, meaning.value, id, w)
                && (ReachesOutside(d.regions, meaning.value) ==>
                      Walk(ID_HANDLER, dispatcher, ReadId(id), w, false).nrc != Positive)
  {
    answers, views := EveryRunApart(inst, steps);
    if |answers| == |steps| && SlotsOf(d) == Entered(inst.view, statics, foreign, x) {
      ghost var ops := OpsOf(views, steps);
      assert Lookup(Held(inst.view), id) == Meaning(ops, id);
      if Meaning(ops, id).Some? && PlainSources(inst.view, Meaning(ops, id).value) {
        ReadAfterRun(inst.view, ops, statics, foreign, d, x, y, id, w);
      }
    }
  }

  /** The registrations a read enters write through the copy function if those that others made do: SliceInside holds
      for every source, defined identifiers included. */
  lemma EnteredThroughCopy<D(!new)>(view: seq<Node>, statics: seq<Source<D>>, foreign: Node -> Source<D>,
                                    inner: seq<Slot<ReadRequest, World<D>>>)
    requires AllThroughCopy(inner) && forall i :: 0 <= i < |statics| ==> ThroughCopy(statics[i])
    requires forall n :: n in view && n.ForeignNode? ==> ThroughCopy(foreign(n))
    ensures AllThroughCopy(Entered(view, statics, foreign, inner))
  {
    forall i | 0 <= i < |statics| + |view|
      ensures ThroughCopy(Entered(view, statics, foreign, inner)[i].registration)
    {
      var r := Entered(view, statics, foreign, inner)[i].registration;
      if i < |statics| {
        assert r == statics[i];
      } else if view[i - |statics|].OwnedNode? {
        var n := view[i - |statics|];
        OwnThroughCopy(inner, n.dataId, Entries(n.cells));
        assert r == OwnRegistration(inner, n.dataId, Entries(n.cells));
      } else {
        assert r == foreign(view[i - |statics|]);
      }
    }
  }

  lemma OwnThroughCopy<D(!new)>(sources: seq<Slot<ReadRequest, World<D>>>, id: DataId, entries: seq<Entry>)
    requires AllThroughCopy(sources)
    ensures ThroughCopy(OwnRegistration(sources, id, entries))
  {
    var r := OwnRegistration(sources, id, entries);
    forall event, request, w: World<D>
      ensures ActsThroughCopy(r, event, request, w)
    {
      var actor := r.actors(event);
      assert actor == OwnActor(sources, id, entries, event);
      if actor.action.Some? {
        var chunks := EntriesWrite(sources, entries, w);
        assert actor.action.value(request, w).world == ReadEntries(sources, entries, w).world;
        assert WroteChunks(w, chunks, actor.action.value(request, w).world);
      }
    }
  }
}
