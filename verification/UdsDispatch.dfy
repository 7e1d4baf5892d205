/** Event dispatch over the static and then the dynamic registrations, and the choice of registration ids
    (lib/uds/uds.c). A request has type R; whatever checks and actions read and change has type W. */
module UdsDispatch {
  import opened Iso14229
  import opened Sequences

  type Event = nat

  type Kind = nat

  /** What an action did: the state it leaves, its code, and what it wrote to consume_event, if anything. */
  datatype Acted<+W> = Acted(world: W, nrc: Nrc, consume: Option<bool>)

  type Check<!R, !W> = (R, W) -> (Nrc, bool)

  type Action<!R, !W> = (R, W) -> Acted<W>

  /** The check and the action a handler finds in a registration, either of which may be absent. */
  datatype Actor<!R, !W> = Actor(check: Option<Check<R, W>>, action: Option<Action<R, W>>)

  datatype Registration<!R, !W> = Registration(kind: Kind, actors: Event -> Actor<R, W>)

  datatype Handler = Handler(event: Event, kind: Kind, defaultNrc: Nrc)

  /** One registration's part in an event. */
  datatype Visit<+W> = Visit(world: W, nrc: Nrc, consumed: bool, matched: bool)

  datatype Outcome<+W> = Outcome(world: W, nrc: Nrc)

  // ---- specification -----------------------------------------------------------------------------------------

  /** A registration takes part when its kind, check and action allow; the consume flag starts from the list's
      default and only an action that ran can leave it set. */
  function VisitOf<R, W>(h: Handler, r: Registration<R, W>, request: R, w: W, default: bool): Visit<W>
  {
    var actor := r.actors(h.event);
    if r.kind != h.kind || actor.check.None? then Visit(w, Positive, false, false)
    else
      var (nrc, apply) := actor.check.value(request, w);
      if nrc != Positive then Visit(w, nrc, false, false)
      else if !apply || actor.action.None? then Visit(w, Positive, false, false)
      else
        var acted := actor.action.value(request, w);
        Visit(acted.world, acted.nrc, if acted.consume.Some? then acted.consume.value else default,
              acted.nrc == Positive)
  }

  predicate Stops<W>(v: Visit<W>)
  {
    v.consumed || v.nrc != Positive
  }

  /** A registration paired with the default its list gives the consume flag. */
  datatype Slot<!R, !W> = Slot(registration: Registration<R, W>, default: bool)

  function Walk<R, W>(h: Handler, slots: seq<Slot<R, W>>, request: R, w: W, found: bool): Outcome<W>
  {
    if slots == [] then Outcome(w, if found then Positive else h.defaultNrc)
    else
      var v := VisitOf(h, slots[0].registration, request, w, slots[0].default);
      if Stops(v) then Outcome(v.world, v.nrc) else Walk(h, slots[1..], request, v.world, found || v.matched)
  }

  function Slots<R, W>(statics: seq<Registration<R, W>>, dynamics: seq<Registration<R, W>>): (s: seq<Slot<R, W>>)
    ensures |s| == |statics| + |dynamics|
  {
    seq(|statics|, i requires 0 <= i < |statics| => Slot(statics[i], true)) +
    seq(|dynamics|, i requires 0 <= i < |dynamics| => Slot(dynamics[i], false))
  }

  /** The state after the first n registrations had their turn. */
  function WorldAfter<R, W>(h: Handler, slots: seq<Slot<R, W>>, request: R, w: W, n: nat): W
    requires n <= |slots|
  {
    if n == 0 then w
    else
      VisitOf(h, slots[n - 1].registration, request, WorldAfter(h, slots, request, w, n - 1), slots[n - 1].default).world
  }

  ghost function VisitAt<R, W>(h: Handler, slots: seq<Slot<R, W>>, request: R, w: W, n: nat): Visit<W>
    requires n < |slots|
  {
    VisitOf(h, slots[n].registration, request, WorldAfter(h, slots, request, w, n), slots[n].default)
  }

  // ---- the walk, characterised -------------------------------------------------------------------------------

  lemma {:induction false} WorldAfterTail<R, W>(h: Handler, slots: seq<Slot<R, W>>, request: R, w: W, n: nat)
    requires 0 < n <= |slots|
    ensures var v := VisitOf(h, slots[0].registration, request, w, slots[0].default);
            WorldAfter(h, slots, request, w, n) == WorldAfter(h, slots[1..], request, v.world, n - 1)
  {
    if n == 1 {
      assert WorldAfter(h, slots, request, w, 0) == w;
    } else {
      WorldAfterTail(h, slots, request, w, n - 1);
      assert slots[1..][n - 2] == slots[n - 1];
    }
  }

  /** Exactly the prefix up to the first error or consumption runs and decides; without one, every registration runs
      and the answer is positive if some action succeeded, else the handler's default code. */
  lemma {:induction false} FirstStopDecides<R, W>(h: Handler, slots: seq<Slot<R, W>>, request: R, w: W, found: bool)
    returns (n: nat)
    ensures n <= |slots|
    ensures forall i :: 0 <= i < n ==> !Stops(VisitAt(h, slots, request, w, i))
    ensures n < |slots| ==> Stops(VisitAt(h, slots, request, w, n))
                            && Walk(h, slots, request, w, found)
                               == Outcome(WorldAfter(h, slots, request, w, n + 1), VisitAt(h, slots, request, w, n).nrc)
    ensures n == |slots| ==>
              Walk(h, slots, request, w, found)
              == Outcome(WorldAfter(h, slots, request, w, n),
                         if found || exists i :: 0 <= i < n && VisitAt(h, slots, request, w, i).matched then Positive
                         else h.defaultNrc)
    decreases |slots|
  {
    if slots == [] {
      n := 0;
    } else {
      var v := VisitOf(h, slots[0].registration, request, w, slots[0].default);
      assert VisitAt(h, slots, request, w, 0) == v;
      if Stops(v) {
        n := 0;
      } else {
        var rest := slots[1..];
        var m := FirstStopDecides(h, rest, request, v.world, found || v.matched);
        n := m + 1;
        forall i | 0 < i < |slots|
          ensures VisitAt(h, slots, request, w, i) == VisitAt(h, rest, request, v.world, i - 1)
        {
          WorldAfterTail(h, slots, request, w, i);
        }
        WorldAfterTail(h, slots, request, w, n);
        if n < |slots| {
          WorldAfterTail(h, slots, request, w, n + 1);
        } else {
          assert (exists i :: 0 <= i < n && VisitAt(h, slots, request, w, i).matched)
            <==> v.matched || exists i :: 0 <= i < m && VisitAt(h, rest, request, v.world, i).matched by {
            forall i | 0 <= i < m
              ensures VisitAt(h, slots, request, w, i + 1) == VisitAt(h, rest, request, v.world, i)
            {
            }
            assert VisitAt(h, slots, request, w, 0).matched == v.matched;
          }
        }
      }
    }
  }

  /** The static registrations come first, and their events are consumed unless an action says otherwise. */
  lemma SlotsAt<R, W>(statics: seq<Registration<R, W>>, dynamics: seq<Registration<R, W>>, i: nat)
    requires i < |statics| + |dynamics|
    ensures Slots(statics, dynamics)[i].registration == if i < |statics| then statics[i] else dynamics[i - |statics|]
    ensures Slots(statics, dynamics)[i].default <==> i < |statics|
  {
  }

  /** Registrations of another kind are passed over. */
  lemma {:induction false} OtherKindsPassed<R, W>(h: Handler, slots: seq<Slot<R, W>>, request: R, w: W, found: bool, n: nat)
    requires n <= |slots| && forall i :: 0 <= i < n ==> slots[i].registration.kind != h.kind
    ensures Walk(h, slots, request, w, found) == Walk(h, slots[n..], request, w, found)
    decreases n
  {
    if n == 0 {
      assert slots[0..] == slots;
    } else {
      OtherKindsPassed(h, slots[1..], request, w, found, n - 1);
      assert slots[1..][n - 1..] == slots[n..];
    }
  }

  lemma NobodyOfTheKind<R, W>(h: Handler, slots: seq<Slot<R, W>>, request: R, w: W, found: bool)
    requires forall i :: 0 <= i < |slots| ==> slots[i].registration.kind != h.kind
    ensures Walk(h, slots, request, w, found) == Outcome(w, if found then Positive else h.defaultNrc)
  {
    OtherKindsPassed(h, slots, request, w, found, |slots|);
  }

  /** The dispatch from the first registration of the kind on, said by its own check and action: a check that fails
      answers with its code and leaves all as it was; one that does not apply, or has nothing to apply, passes the event
      on; an action that fails answers with its code; one that succeeds ends the dispatch if it consumes the event, or
      leaves that open in the static list, and otherwise the event goes on, and is answered positively if nothing behind
      fails. */
  lemma FirstOfTheKind<R, W>(h: Handler, slots: seq<Slot<R, W>>, request: R, w: W, found: bool, n: nat)
    requires n < |slots| && slots[n].registration.kind == h.kind
    requires forall i :: 0 <= i < n ==> slots[i].registration.kind != h.kind
    ensures var actor, behind := slots[n].registration.actors(h.event), slots[n + 1..];
            var o := Walk(h, slots, request, w, found);
            && (actor.check.None? ==> o == Walk(h, behind, request, w, found))
            && (actor.check.Some? ==>
                  var (code, apply) := actor.check.value(request, w);
                  && (code != Positive ==> o == Outcome(w, code))
                  && (code == Positive && (!apply || actor.action.None?) ==> o == Walk(h, behind, request, w, found))
                  && (code == Positive && apply && actor.action.Some? ==>
                        var acted := actor.action.value(request, w);
                        && (acted.nrc != Positive ==> o == Outcome(acted.world, acted.nrc))
                        && (acted.nrc == Positive && acted.consume == Some(true) ==> o == Outcome(acted.world, Positive))
                        && (acted.nrc == Positive && acted.consume == Some(false) ==>
                              o == Walk(h, behind, request, acted.world, true))
                        && (acted.nrc == Positive && acted.consume == None ==>
                              o == if slots[n].default then Outcome(acted.world, Positive)
                                   else Walk(h, behind, request, acted.world, true))))
  {
    OtherKindsPassed(h, slots, request, w, found, n);
    assert slots[n..][0] == slots[n] && slots[n..][1..] == slots[n + 1..];
  }

  /** A registration that takes no part: for this handler and request its check, if any, says OK without applying,
      or there is no action to apply. */
  ghost predicate Inert<R, W(!new)>(h: Handler, r: Registration<R, W>, request: R)
  {
    var actor := r.actors(h.event);
    r.kind != h.kind || actor.check.None? ||
    forall w :: actor.check.value(request, w).0 == Positive &&
                (!actor.check.value(request, w).1 || actor.action.None?)
  }

  /** Registering or removing an inert registration, in either list, changes the outcome of no event. */
  lemma {:induction false} InertChangesNothing<R, W(!new)>(h: Handler, before: seq<Slot<R, W>>, s: Slot<R, W>,
                                                            after: seq<Slot<R, W>>, request: R, w: W, found: bool)
    requires Inert(h, s.registration, request)
    ensures Walk(h, before + [s] + after, request, w, found) == Walk(h, before + after, request, w, found)
    decreases |before|
  {
    if before == [] {
      assert before + [s] + after == [s] + after && before + after == after;
      assert ([s] + after)[1..] == after;
      assert VisitOf(h, s.registration, request, w, s.default) == Visit(w, Positive, false, false);
    } else {
      var v := VisitOf(h, before[0].registration, request, w, before[0].default);
      assert (before + [s] + after)[1..] == before[1..] + [s] + after;
      assert (before + after)[1..] == before[1..] + after;
      InertChangesNothing(h, before[1..], s, after, request, v.world, found || v.matched);
    }
  }

  // ---- the dispatcher ----------------------------------------------------------------------------------------

  method CheckAndActOnEvent<R, W>(h: Handler, r: Registration<R, W>, request: R, w: W, found: bool, consume: bool)
    returns (nrc: Nrc, world: W, foundNow: bool, consumed: bool)
    ensures var v := VisitOf(h, r, request, w, consume);
            nrc == v.nrc && world == v.world && foundNow == (found || v.matched) && consumed == v.consumed
  {
    world, foundNow, consumed := w, found, consume;
    if r.kind != h.kind {
      return Positive, w, found, false;
    }
    var actor := r.actors(h.event);
    if actor.check.None? {
      return Positive, w, found, false;
    }
    var apply;
    var pair := actor.check.value(request, w);
    nrc, apply := pair.0, pair.1;
    if nrc != Positive {
      return nrc, w, found, false;
    }
    if !apply || actor.action.None? {
      return nrc, w, found, false;
    }
    var acted := actor.action.value(request, w);
    world, nrc := acted.world, acted.nrc;
    if acted.consume.Some? {
      consumed := acted.consume.value;
    }
    if nrc != Positive {
      return;
    }
    foundNow := true;
  }

  /** The two loops: static registrations, whose events are consumed unless an action says otherwise, then dynamic
      ones, whose events are not. */
  method HandleEvent<R, W>(h: Handler, statics: seq<Registration<R, W>>, dynamics: seq<Registration<R, W>>, request: R,
                           w: W) returns (nrc: Nrc, world: W)
    ensures Outcome(world, nrc) == Walk(h, Slots(statics, dynamics), request, w, false)
  {
    ghost var slots := Slots(statics, dynamics);
    var found := false;
    world := w;
    var consumed;
    for i := 0 to |statics|
      invariant Walk(h, slots, request, w, false) == Walk(h, slots[i..], request, world, found)
    {
      assert slots[i..][0] == Slot(statics[i], true) && slots[i..][1..] == slots[i + 1..];
      nrc, world, found, consumed := CheckAndActOnEvent(h, statics[i], request, world, found, true);
      if consumed || nrc != Positive {
        return;
      }
    }
    for i := 0 to |dynamics|
      invariant Walk(h, slots, request, w, false) == Walk(h, slots[|statics| + i..], request, world, found)
    {
      assert slots[|statics| + i..][0] == Slot(dynamics[i], false);
      assert slots[|statics| + i..][1..] == slots[|statics| + i + 1..];
      nrc, world, found, consumed := CheckAndActOnEvent(h, dynamics[i], request, world, found, false);
      if consumed || nrc != Positive {
        return;
      }
    }
    assert slots[|statics| + |dynamics|..] == [];
    return if !found then h.defaultNrc else Positive, world;
  }

  /** The first handler of the event dispatches it; an event without handler is not supported and touches nothing. */
  method EventCallback<R, W>(handlers: seq<Handler>, statics: seq<Registration<R, W>>,
                             dynamics: seq<Registration<R, W>>, event: Event, request: R, w: W)
    returns (nrc: Nrc, world: W)
    ensures (forall i :: 0 <= i < |handlers| ==> handlers[i].event != event) ==> nrc == ServiceNotSupported && world == w
    ensures forall i :: 0 <= i < |handlers| && handlers[i].event == event
                        && (forall k :: 0 <= k < i ==> handlers[k].event != event) ==>
              Outcome(world, nrc) == Walk(handlers[i], Slots(statics, dynamics), request, w, false)
  {
    for i := 0 to |handlers|
      invariant forall k :: 0 <= k < i ==> handlers[k].event != event
    {
      if handlers[i].event == event {
        nrc, world := HandleEvent(handlers[i], statics, dynamics, request, w);
        return;
      }
    }
    return ServiceNotSupported, w;
  }

  // ---- registration ids --------------------------------------------------------------------------------------

  const UINT32_MAX: nat := 0xFFFF_FFFF

  /** The least id from c on that is not taken, or zero when all up to the largest are. */
  function FirstFree(ids: seq<nat>, c: nat): (id: nat)
    requires 1 <= c
    ensures id == 0 || (c <= id <= UINT32_MAX && id !in ids)
    ensures forall k :: c <= k <= UINT32_MAX && (id == 0 || k < id) ==> k in ids
    decreases UINT32_MAX + 1 - c
  {
    if c > UINT32_MAX then 0 else if c in ids then FirstFree(ids, c + 1) else c
  }

  /** Pigeonhole: with n registrations the id is at most n + 1, and there is none only when all 2^32 - 1 are taken. */
  lemma FewCandidates(ids: seq<nat>)
    ensures FirstFree(ids, 1) <= |ids| + 1
    ensures FirstFree(ids, 1) == 0 ==> |ids| >= UINT32_MAX
  {
    var id := FirstFree(ids, 1);
    Covering(ids, 1, if id == 0 then UINT32_MAX + 1 else id);
  }

  method FindNextDynamicId(ids: seq<nat>) returns (id: nat, ghost tried: nat)
    ensures id == FirstFree(ids, 1)
    ensures id != 0 ==> tried == id <= |ids| + 1
  {
    FewCandidates(ids);
    var candidate, idFound := 1, false;
    tried := 0;
    while candidate != 0
      invariant candidate <= UINT32_MAX && !idFound && tried == (if candidate == 0 then UINT32_MAX else candidate - 1)
      invariant FirstFree(ids, 1) == if candidate == 0 then 0 else FirstFree(ids, candidate)
      decreases if candidate == 0 then 0 else UINT32_MAX + 1 - candidate
    {
      tried := tried + 1;
      var idInUse := false;
      for i := 0 to |ids|
        invariant !idInUse && forall k :: 0 <= k < i ==> ids[k] != candidate
      {
        if ids[i] == candidate {
          idInUse := true;
          break;
        }
      }
      if !idInUse {
        idFound := true;
        break;
      }
      if candidate == UINT32_MAX {
        candidate := 0;
      } else {
        candidate := candidate + 1;
      }
    }
    return if idFound then candidate else 0, tried;
  }
}
