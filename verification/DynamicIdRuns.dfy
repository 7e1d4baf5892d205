/** Whole runs of service 0x2C (lib/uds/dynamically_define_data_ids.c:617-649), among registrations of others that come
    and go (lib/uds/uds.c:178-244). */
module DynamicIdRuns {
  import opened Iso14229
  import opened Sequences
  import opened UdsDispatch
  import opened RegistryHeap
  import opened Registry
  import opened DynamicIds
  import opened DynamicIdRequests

  datatype Request = DefineRequest(id: DataId, entry: Entry, a: Allocations) | ClearRequest(id: DataId) | ClearAllRequest

  /** What a request with its answer means for the definitions; a failed definition of a new identifier is an append
      to nothing. */
  function OpOf(request: Request, nrc: Nrc): Op
  {
    match request
    case DefineRequest(id, entry, _) => if nrc == Positive then DefineOp(id, entry) else FailedAppend(id)
    case ClearRequest(id) => ClearOp(id)
    case ClearAllRequest => ClearAllOp
  }

  function CodeOf(view: seq<Node>, request: Request): Nrc
  {
    if request.DefineRequest? then DefineCode(view, request.id, request.a) else Positive
  }

  /** The request goes on with freed blocks. */
  predicate Faults(view: seq<Node>, request: Request)
  {
    request.DefineRequest? && Lookup(Held(view), request.id).None? && OnlyItemFails(view, request.a)
  }

  /** What a request does to the registrations. */
  ghost predicate Stepped(view: seq<Node>, request: Request, view': seq<Node>)
  {
    if request.ClearRequest? then view' == Cleared(view, request.id)
    else ForeignOnly(view') == ForeignOnly(view) && Held(view') == OnDefinitions(Held(view), OpOf(request, CodeOf(view, request)))
  }

  /** A guard that can be looked up before the request. */
  predicate MeetsGuard(view: seq<Node>, request: Request)
  {
    request.ClearRequest? ==> ClearsOwn(view, request.id)
  }

  /** A step is that of the map, and leaves the registrations of others alone, if and only if it meets the guard. */
  lemma StepIsMapsStep(view: seq<Node>, request: Request, view': seq<Node>)
    requires Registered(view) && Stepped(view, request, view')
    ensures && Held(view') == OnDefinitions(Held(view), OpOf(request, CodeOf(view, request)))
            && ForeignOnly(view') == ForeignOnly(view)
            <==> MeetsGuard(view, request)
  {
    if request.ClearRequest? {
      ClearedExactly(view, request.id);
    }
  }

  /** The action of the service; all of its requests have one of the three sub-functions. */
  method Handle(inst: Instance, request: Request) returns (nrc: Nrc, consumed: bool)
    requires inst.Valid()
    modifies inst
    ensures inst.faulted <==> Faults(old(inst.view), request)
    ensures consumed <==> nrc == Positive && !inst.faulted
    ensures !inst.faulted ==>
              && inst.Valid() && nrc == CodeOf(old(inst.view), request)
              && Stepped(old(inst.view), request, inst.view)
              && (request == ClearAllRequest ==> Held(inst.view) == [])
  {
    match request
    case DefineRequest(id, entry, a) =>
      ghost var defs := Held(inst.view);
      nrc, consumed := AddNewId(inst, id, entry, a);
      LookupMiss(defs, id);
      if Lookup(defs, id).None? {
        DefineMissing(defs, id, entry);
      }
    case ClearRequest(id) =>
      RemoveSingleId(inst, id);
      nrc, consumed := Positive, true;
    case ClearAllRequest =>
      OnlyForeignForeign(inst.view);
      RemoveAllIds(inst);
      nrc, consumed := Positive, true;
  }

  lemma {:induction false} OnlyForeignForeign(view: seq<Node>)
    ensures ForeignOnly(ForeignOnly(view)) == ForeignOnly(view)
    decreases |view|
  {
    if view != [] {
      var init, last := view[..|view| - 1], view[|view| - 1];
      OnlyForeignForeign(init);
      if last.ForeignNode? {
        assert ForeignOnly(view)[..|ForeignOnly(view)| - 1] == ForeignOnly(init);
      } else {
        assert ForeignOnly(view) == ForeignOnly(init);
      }
    }
  }

  // ---- the registrations of others -------------------------------------------------------------------------------

  type ForeignReg = r: Reg | r.Foreign? witness Foreign(false, 0, 0)

  /** What happens to an instance: a request of the service, or somebody registers or unregisters. */
  datatype Step = Serve(request: Request) | Register(reg: ForeignReg, ok: bool) | Unregister(dynId: nat)

  datatype Answer = Response(nrc: Nrc) | Code(result: int)

  /** The registration with an id. */
  function WithId(view: seq<Node>, dynId: nat): (i: nat)
    ensures i <= |view| && (i < |view| ==> view[i].dynId == dynId)
    ensures forall k :: 0 <= k < i ==> view[k].dynId != dynId
  {
    if view == [] || view[0].dynId == dynId then 0 else 1 + WithId(view[1..], dynId)
  }

  function AnswerOf(view: seq<Node>, step: Step): Answer
  {
    match step
    case Serve(request) => Response(CodeOf(view, request))
    case Register(_, ok) => Code(if FirstFree(DynIds(view), 1) == 0 then ENOSPC else if !ok then ENOMEM else 0)
    case Unregister(dynId) =>
      var i := WithId(view, dynId);
      Code(if i == |view| then ENOENT else if Refuses(view[i]) then view[i].reg.onUnregister else 0)
  }

  /** The registration of a defined identifier is taken away behind the back of the service. */
  predicate Disowns(view: seq<Node>, step: Step)
  {
    step.Unregister? && var i := WithId(view, step.dynId); i < |view| && view[i].OwnedNode?
  }

  /** How each step is answered, said by the registrations and by what could be allocated. */
  lemma AnswersAre(view: seq<Node>, step: Step)
    requires Registered(view)
    ensures step.Serve? && !step.request.DefineRequest? ==> AnswerOf(view, step) == Response(Positive)
    ensures step.Serve? && step.request.DefineRequest? && step.request.id in IdsDefined(view) ==>
              AnswerOf(view, step) == Response(if step.request.a.data then Positive else GeneralReject)
    ensures step.Serve? && step.request.DefineRequest? && step.request.id !in IdsDefined(view) ==>
              var a, full := step.request.a, FirstFree(DynIds(view), 1) == 0;
              && (AnswerOf(view, step) == Response(Positive) <==> a.list && a.temp && a.data && !full && a.reg && a.item)
              && (!(a.list && a.temp && a.data) ==> AnswerOf(view, step) == Response(GeneralReject))
              && (a.list && a.temp && a.data && full ==> AnswerOf(view, step) == Response(Errno(-28)))
              && (a.list && a.temp && a.data && !full && !a.reg ==> AnswerOf(view, step) == Response(Errno(-12)))
              && (a.list && a.temp && a.data && !full && a.reg && !a.item ==>
                    AnswerOf(view, step) == Response(GeneralReject))
    ensures step.Register? ==>
              AnswerOf(view, step) == Code(if FirstFree(DynIds(view), 1) == 0 then -28 else if !step.ok then -12 else 0)
    ensures step.Unregister? && step.dynId !in DynIds(view) ==> AnswerOf(view, step) == Code(-2)
    ensures step.Unregister? ==> forall i :: 0 <= i < |view| && view[i].dynId == step.dynId ==>
              AnswerOf(view, step)
              == Code(if view[i].ForeignNode? && view[i].reg.Foreign? && view[i].reg.onUnregister < 0
                      then view[i].reg.onUnregister else 0)
  {
    if step.Serve? && step.request.DefineRequest? {
      KnownIffHeld(view, step.request.id);
      DefinedIffNotFresh(view, step.request.id);
    } else if step.Unregister? {
      forall i | 0 <= i < |view| && view[i].dynId == step.dynId
        ensures i == WithId(view, step.dynId)
      {
      }
      assert WithId(view, step.dynId) < |view| ==> DynIds(view)[WithId(view, step.dynId)] == step.dynId;
    }
  }

  function IdsDefined(view: seq<Node>): set<DataId>
  {
    set i | 0 <= i < |view| && view[i].OwnedNode? :: view[i].dataId
  }

  lemma DefinedIffNotFresh(view: seq<Node>, id: DataId)
    ensures id in IdsDefined(view) <==> !Fresh(view, id)
  {
  }

  /** After this step the run cannot be followed. */
  predicate EndsRun(view: seq<Node>, step: Step)
  {
    (step.Serve? && Faults(view, step.request)) || Disowns(view, step)
  }

  ghost predicate Moved(view: seq<Node>, step: Step, view': seq<Node>)
  {
    match step
    case Serve(request) => Stepped(view, request, view')
    case Register(reg, ok) =>
      if AnswerOf(view, step) == Code(0) then
        exists a :: view' == view + [ForeignNode(a, FirstFree(DynIds(view), 1), reg)]
      else view' == view
    case Unregister(dynId) =>
      var i := WithId(view, dynId);
      view' == if i == |view| || Refuses(view[i]) then view else Without(view, i)
  }

  function Leaves(dynId: nat): Node -> bool
  {
    (n: Node) => n.dynId == dynId && !Refuses(n)
  }

  lemma {:induction false} OnlyForeign(view: seq<Node>)
    ensures forall n :: n in ForeignOnly(view) ==> n in view && n.ForeignNode?
    decreases |view|
  {
    if view != [] {
      OnlyForeign(view[..|view| - 1]);
    }
  }

  lemma ForeignParts(a: seq<Node>, n: Node, b: seq<Node>)
    requires n.ForeignNode?
    ensures ForeignOnly(a + [n] + b) == ForeignOnly(a) + [n] + ForeignOnly(b)
    ensures ForeignOnly(a + b) == ForeignOnly(a) + ForeignOnly(b)
  {
    ForeignSplits(a + [n], b);
    ForeignSplits(a, b);
    assert (a + [n])[..|a|] == a;
  }

  lemma FirstLeaves(a: seq<Node>, n: Node, b: seq<Node>, dynId: nat)
    requires Leaves(dynId)(n) && forall m :: m in a ==> !Leaves(dynId)(m)
    ensures WithoutFirst(a + [n] + b, Leaves(dynId)) == a + b
  {
    var s := a + [n] + b;
    assert forall k :: 0 <= k < |a| ==> s[k] in a;
    WithoutFirstAt(s, Leaves(dynId), |a|);
  }

  lemma ForeignLeaves(view: seq<Node>, i: nat)
    requires Registered(view) && i < |view| && view[i].ForeignNode? && !Refuses(view[i])
    ensures ForeignOnly(Without(view, i)) == WithoutFirst(ForeignOnly(view), Leaves(view[i].dynId))
  {
    var a, n, b := view[..i], view[i], view[i + 1..];
    SplitAt(view, i);
    ForeignParts(a, n, b);
    OnlyForeign(a);
    FirstLeaves(ForeignOnly(a), n, ForeignOnly(b), n.dynId);
  }

  lemma NoneLeaves(view: seq<Node>, dynId: nat)
    requires Registered(view)
    requires var i := WithId(view, dynId); i == |view| || Refuses(view[i])
    ensures WithoutFirst(ForeignOnly(view), Leaves(dynId)) == ForeignOnly(view)
  {
    OnlyForeign(view);
    forall k | 0 <= k < |ForeignOnly(view)|
      ensures !Leaves(dynId)(ForeignOnly(view)[k])
    {
      assert ForeignOnly(view)[k] in view;
    }
    WithoutFirstMisses(ForeignOnly(view), Leaves(dynId));
  }

  /** Registrations of others come and go by their own hand, one at a time, and take no definition with them. */
  lemma OthersComeAndGo(view: seq<Node>, step: Step, view': seq<Node>)
    requires Registered(view) && !step.Serve? && Moved(view, step, view') && !Disowns(view, step)
    ensures Held(view') == Held(view)
    ensures step.Register? && view' != view ==>
              |view'| == |view| + 1 && ForeignOnly(view') == ForeignOnly(view) + [view'[|view|]]
    ensures step.Unregister? ==> ForeignOnly(view') == WithoutFirst(ForeignOnly(view), Leaves(step.dynId))
  {
    match step
    case Register(reg, ok) =>
      if view' != view {
        var a :| view' == view + [ForeignNode(a, FirstFree(DynIds(view), 1), reg)];
        OwnedSnoc(view, view'[|view|]);
        assert view'[..|view'| - 1] == view;
      }
    case Unregister(dynId) =>
      var i := WithId(view, dynId);
      if i == |view| || Refuses(view[i]) {
        NoneLeaves(view, dynId);
      } else {
        ForeignGone(view, i);
        ForeignLeaves(view, i);
      }
  }

  lemma ListedIsOwned(view: seq<Node>, dynId: nat)
    requires Registered(view)
    ensures Disowns(view, Unregister(dynId)) <==>
              exists i :: 0 <= i < |view| && view[i].OwnedNode? && view[i].dynId == dynId
  {
    if i :| 0 <= i < |view| && view[i].OwnedNode? && view[i].dynId == dynId {
      assert WithId(view, dynId) == i;
    }
  }

  /** Unregistering by anybody, at the position of the id. */
  method UnregisterAt(inst: Instance, dynId: nat, ghost i: nat) returns (result: int)
    requires inst.Valid() && i == WithId(inst.view, dynId)
    modifies inst`heap, inst`extra, inst`view, inst`dynamicRegistrations
    ensures inst.Linked()
    ensures i == |old(inst.view)| ==> result == ENOENT && inst.view == old(inst.view) && inst.extra == map[]
    ensures i < |old(inst.view)| ==>
              && inst.view == (if Refuses(old(inst.view)[i]) then old(inst.view) else Without(old(inst.view), i))
              && result == (if Refuses(old(inst.view)[i]) then old(inst.view)[i].reg.onUnregister else 0)
              && (inst.extra == map[] <==> old(inst.view)[i].ForeignNode?)
  {
    result := inst.UnregisterEventHandler(dynId);
    assert i < |old(inst.view)| && old(inst.view)[i].OwnedNode? ==> old(inst.view)[i].item in inst.extra;
  }

  lemma OwnedLeft(view: seq<Node>, i: nat)
    requires i < |view|
    ensures if view[i].OwnedNode? then |OwnedOnly(Without(view, i))| == |OwnedOnly(view)| - 1
            else OwnedOnly(Without(view, i)) == OwnedOnly(view)
  {
    if view[i].OwnedNode? {
      OwnedAt(view, i, view[i]);
    } else {
      ForeignGone(view, i);
    }
  }

  lemma AnswerAt(view: seq<Node>, dynId: nat, i: nat, view': seq<Node>, result: int)
    requires i == WithId(view, dynId) < |view|
    requires view' == if Refuses(view[i]) then view else Without(view, i)
    requires result == if Refuses(view[i]) then view[i].reg.onUnregister else 0
    ensures Code(result) == AnswerOf(view, Unregister(dynId)) && Moved(view, Unregister(dynId), view')
    ensures Disowns(view, Unregister(dynId)) <==> view[i].OwnedNode?
  {
  }

  lemma AnswerNone(view: seq<Node>, dynId: nat)
    requires WithId(view, dynId) == |view|
    ensures Code(ENOENT) == AnswerOf(view, Unregister(dynId)) && Moved(view, Unregister(dynId), view)
    ensures !Disowns(view, Unregister(dynId))
  {
  }

  /** Anybody can have a registration removed. The id list still names it exactly when it was one of the service. */
  method UnregisterAny(inst: Instance, dynId: nat) returns (result: int, disowned: bool)
    requires inst.Valid()
    modifies inst`heap, inst`extra, inst`view, inst`dynamicRegistrations
    ensures Code(result) == AnswerOf(old(inst.view), Unregister(dynId))
    ensures Moved(old(inst.view), Unregister(dynId), inst.view)
    ensures disowned <==> Disowns(old(inst.view), Unregister(dynId))
    ensures inst.Valid() <==> !disowned
    ensures |inst.idList| == |OwnedOnly(inst.view)| + if disowned then 1 else 0
  {
    ghost var view := inst.view;
    ghost var i := WithId(view, dynId);
    disowned := IsListed(inst, dynId);
    ListedIsOwned(view, dynId);
    result := UnregisterAt(inst, dynId, i);
    if i < |view| {
      OwnedLeft(view, i);
      AnswerAt(view, dynId, i, inst.view, result);
    } else {
      AnswerNone(view, dynId);
    }
  }

  /** One step of a run, whoever takes it. */
  method DoStep(inst: Instance, step: Step) returns (answer: Answer, ended: bool)
    requires inst.Valid()
    modifies inst
    ensures inst.faulted <==> step.Serve? && Faults(old(inst.view), step.request)
    ensures ended <==> EndsRun(old(inst.view), step)
    ensures inst.Valid() <==> !ended
    ensures !inst.faulted ==> answer == AnswerOf(old(inst.view), step) && Moved(old(inst.view), step, inst.view)
    ensures !inst.faulted && step == Serve(ClearAllRequest) ==> Held(inst.view) == []
  {
    match step
    case Serve(request) =>
      var nrc, consumed := Handle(inst, request);
      return Response(nrc), inst.faulted;
    case Register(reg, ok) =>
      var result, dynId := inst.RegisterForeign(reg, ok);
      return Code(result), false;
    case Unregister(dynId) =>
      var result, disowned := UnregisterAny(inst, dynId);
      return Code(result), disowned;
  }

  // ---- every run ---------------------------------------------------------------------------------------------------

  /** One step of a run through the given registrations. */
  ghost predicate StepAt(views: seq<seq<Node>>, steps: seq<Step>, i: nat)
    requires i + 1 < |views| <= |steps| + 1
  {
    Registered(views[i]) && !EndsRun(views[i], steps[i]) && Moved(views[i], steps[i], views[i + 1])
  }

  ghost predicate Passes(views: seq<seq<Node>>, steps: seq<Step>)
  {
    1 <= |views| <= |steps| + 1 && forall i {:trigger StepAt(views, steps, i)} :: 0 <= i < |views| - 1 ==>
                                     StepAt(views, steps, i)
  }

  ghost predicate Guarded(views: seq<seq<Node>>, steps: seq<Step>)
    requires |views| <= |steps| + 1
  {
    forall i :: 0 <= i < |views| - 1 && steps[i].Serve? ==> MeetsGuard(views[i], steps[i].request)
  }

  predicate OnlyServes(steps: seq<Step>)
  {
    forall i :: 0 <= i < |steps| ==> steps[i].Serve?
  }

  /** The map's operations in a run: those of the service. */
  function OpsOf(views: seq<seq<Node>>, steps: seq<Step>): seq<Op>
    requires 1 <= |views| <= |steps| + 1
    decreases |views|
  {
    var n := |views| - 1;
    if n == 0 then []
    else
      var before := OpsOf(views[..n], steps);
      match steps[n - 1]
      case Serve(request) => before + [OpOf(request, CodeOf(views[n - 1], request))]
      case _ => before
  }

  lemma FirstPasses(views: seq<seq<Node>>, steps: seq<Step>, n: nat)
    requires Passes(views, steps) && 1 <= n <= |views|
    ensures Passes(views[..n], steps)
  {
    forall i | 0 <= i < n - 1
      ensures StepAt(views[..n], steps, i)
    {
      assert StepAt(views, steps, i);
    }
  }

  /** In every run whose clear requests meet their guard the structures refine the map, whatever others register and
      unregister in between; and the service leaves their registrations as they were. */
  lemma {:induction false} RunRefines(views: seq<seq<Node>>, steps: seq<Step>)
    requires Passes(views, steps) && Guarded(views, steps) && Held(views[0]) == []
    ensures Held(views[|views| - 1]) == After(OpsOf(views, steps))
    ensures OnlyServes(steps) ==> ForeignOnly(views[|views| - 1]) == ForeignOnly(views[0])
    decreases |views|
  {
    if |views| > 1 {
      var n := |views| - 1;
      var init := views[..n];
      FirstPasses(views, steps, n);
      RunRefines(init, steps);
      assert StepAt(views, steps, n - 1);
      OneStepRefines(views[n - 1], steps[n - 1], views[n]);
      if steps[n - 1].Serve? {
        AfterOneMore(OpsOf(init, steps), OpOf(steps[n - 1].request, CodeOf(views[n - 1], steps[n - 1].request)));
      }
    }
  }

  lemma AfterOneMore(ops: seq<Op>, op: Op)
    ensures After(ops + [op]) == OnDefinitions(After(ops), op)
  {
    assert (ops + [op])[..|ops|] == ops;
  }

  lemma OneStepRefines(view: seq<Node>, step: Step, view': seq<Node>)
    requires Registered(view) && !EndsRun(view, step) && Moved(view, step, view')
    requires step.Serve? ==> MeetsGuard(view, step.request)
    ensures step.Serve? ==>
              && Held(view') == OnDefinitions(Held(view), OpOf(step.request, CodeOf(view, step.request)))
              && ForeignOnly(view') == ForeignOnly(view)
    ensures !step.Serve? ==> Held(view') == Held(view)
  {
    if step.Serve? {
      StepIsMapsStep(view, step.request, view');
    } else {
      OthersComeAndGo(view, step, view');
    }
  }

  /** Nobody else registers the identifier. */
  ghost predicate NeverTaken(foreign: seq<Node>, steps: seq<Step>, id: DataId)
  {
    NoneOf(foreign, id)
    && forall i :: 0 <= i < |steps| && steps[i].Register? ==> !(steps[i].reg.isDataId && steps[i].reg.dataId == id)
  }

  /** Nobody else registers an identifier that is cleared. */
  ghost predicate Unshared(foreign: seq<Node>, steps: seq<Step>)
  {
    forall i :: 0 <= i < |steps| && steps[i].Serve? && steps[i].request.ClearRequest? ==>
                  NeverTaken(foreign, steps, steps[i].request.id)
  }

  lemma StaysApart(view: seq<Node>, step: Step, view': seq<Node>, id: DataId)
    requires Registered(view) && !EndsRun(view, step) && Moved(view, step, view')
    requires step.Serve? ==> MeetsGuard(view, step.request)
    requires NoneOf(ForeignOnly(view), id)
    requires step.Register? ==> !(step.reg.isDataId && step.reg.dataId == id)
    ensures NoneOf(ForeignOnly(view'), id)
  {
    if step.Serve? {
      StepIsMapsStep(view, step.request, view');
    } else {
      OthersComeAndGo(view, step, view');
    }
  }

  /** When nobody else registers an identifier that is cleared, every clear request meets its guard. */
  lemma {:induction false} ApartIsGuarded(views: seq<seq<Node>>, steps: seq<Step>)
    requires Passes(views, steps) && Unshared(ForeignOnly(views[0]), steps)
    ensures Guarded(views, steps)
    ensures forall id :: NeverTaken(ForeignOnly(views[0]), steps, id) ==> NoneOf(ForeignOnly(views[|views| - 1]), id)
    decreases |views|
  {
    if |views| > 1 {
      var n := |views| - 1;
      var init := views[..n];
      FirstPasses(views, steps, n);
      ApartIsGuarded(init, steps);
      forall i | 0 <= i < n && steps[i].Serve?
        ensures MeetsGuard(views[i], steps[i].request)
      {
        if i < n - 1 {
          assert MeetsGuard(init[i], steps[i].request);
        } else if steps[i].request.ClearRequest? {
          ApartClearsOwn(views[i], steps[i].request.id);
        }
      }
      assert StepAt(views, steps, n - 1);
      forall id | NeverTaken(ForeignOnly(views[0]), steps, id)
        ensures NoneOf(ForeignOnly(views[n]), id)
      {
        StaysApart(views[n - 1], steps[n - 1], views[n], id);
      }
    }
  }

  lemma PassesOn(views: seq<seq<Node>>, steps: seq<Step>, view: seq<Node>)
    requires Passes(views, steps) && |views| <= |steps|
    requires var n := |views| - 1;
             Registered(views[n]) && !EndsRun(views[n], steps[n]) && Moved(views[n], steps[n], view)
    ensures Passes(views + [view], steps)
  {
    var longer := views + [view];
    forall i | 0 <= i < |longer| - 1
      ensures StepAt(longer, steps, i)
    {
      if i < |views| - 1 {
        assert StepAt(views, steps, i);
      }
    }
  }

  /** A run so far, with its answers. */
  ghost predicate Answered(steps: seq<Step>, answers: seq<Answer>, views: seq<seq<Node>>)
  {
    && |answers| <= |steps| && |views| == |answers| + 1 && Passes(views, steps)
    && forall i :: 0 <= i < |answers| ==> answers[i] == AnswerOf(views[i], steps[i])
  }

  lemma AnsweredOn(steps: seq<Step>, answers: seq<Answer>, views: seq<seq<Node>>, view: seq<Node>)
    requires Answered(steps, answers, views) && |answers| < |steps|
    requires var n := |answers|;
             Registered(views[n]) && !EndsRun(views[n], steps[n]) && Moved(views[n], steps[n], view)
    ensures Answered(steps, answers + [AnswerOf(views[|answers|], steps[|answers|])], views + [view])
  {
    PassesOn(views, steps, view);
  }

  ghost predicate Reached(inst: Instance, steps: seq<Step>, answers: seq<Answer>, views: seq<seq<Node>>)
    reads inst
  {
    var n := |answers|;
    && Answered(steps, answers, views) && inst.Valid() && inst.view == views[n]
    && (n > 0 && steps[n - 1] == Serve(ClearAllRequest) ==> Held(inst.view) == [])
  }

  method Advance(inst: Instance, steps: seq<Step>, answers: seq<Answer>, ghost views: seq<seq<Node>>)
    returns (more: seq<Answer>, ghost further: seq<seq<Node>>, ended: bool)
    requires Reached(inst, steps, answers, views) && |answers| < |steps|
    modifies inst
    ensures ended <==> EndsRun(views[|answers|], steps[|answers|])
    ensures if ended then !inst.Valid() && more == answers && further == views
            else Reached(inst, steps, more, further) && |more| == |answers| + 1 && further[0] == views[0]
  {
    more, further := answers, views;
    var answer;
    answer, ended := DoStep(inst, steps[|answers|]);
    if !ended {
      AnsweredOn(steps, answers, views, inst.view);
      more, further := answers + [answer], views + [inst.view];
    }
  }

  lemma EndOfRun(inst: Instance)
    requires inst.Valid()
    ensures |inst.heap| == TotalSize(inst.view)
    ensures Held(inst.view) == [] ==> inst.heap == AllBlocks(ForeignOnly(inst.view))
  {
    LiveBlocks(inst.heap, map[], inst.view);
    if Held(inst.view) == [] {
      NothingHeld(inst.heap, inst.view);
    }
  }

  /** Every run of an instance: requests of the service, and registrations of others that come and go. It ends early
      exactly where a request goes on with freed blocks, or somebody takes away the registration of a defined
      identifier; until then every step is answered and does what it says. The live blocks are always one registration,
      one list and one id item for each identifier, one block for each entry, and those of others; clear-all leaves
      exactly those of others. */
  method EveryRun(inst: Instance, steps: seq<Step>) returns (answers: seq<Answer>, ghost views: seq<seq<Node>>)
    requires inst.Valid()
    modifies inst
    ensures |answers| <= |steps| && |views| == |answers| + 1 && Passes(views, steps) && views[0] == old(inst.view)
    ensures forall i :: 0 <= i < |answers| ==> answers[i] == AnswerOf(views[i], steps[i])
    ensures |answers| < |steps| ==> EndsRun(views[|answers|], steps[|answers|]) && !inst.Valid()
    ensures |answers| == |steps| ==>
              && inst.Valid() && inst.view == views[|steps|] && |inst.heap| == TotalSize(inst.view)
              && (steps != [] && steps[|steps| - 1] == Serve(ClearAllRequest) ==>
                    inst.heap == AllBlocks(ForeignOnly(inst.view)))
  {
    answers, views := [], [inst.view];
    while |answers| < |steps|
      invariant Reached(inst, steps, answers, views) && views[0] == old(inst.view)
      decreases |steps| - |answers|
    {
      var ended;
      answers, views, ended := Advance(inst, steps, answers, views);
      if ended {
        return;
      }
    }
    EndOfRun(inst);
  }

  /** The same for an instance of which only others made use before, when nobody else registers an identifier that is
      cleared: each identifier means what its own requests made of it; and if nobody else does anything meanwhile, the
      registrations of others are as they were and clear-all returns the heap to its starting set. */
  method EveryRunApart(inst: Instance, steps: seq<Step>) returns (answers: seq<Answer>, ghost views: seq<seq<Node>>)
    requires inst.Valid() && Held(inst.view) == [] && Unshared(ForeignOnly(inst.view), steps)
    modifies inst
    ensures |answers| <= |steps| && |views| == |answers| + 1 && Passes(views, steps) && views[0] == old(inst.view)
    ensures |answers| < |steps| ==> EndsRun(views[|answers|], steps[|answers|]) && !inst.Valid()
    ensures |answers| == |steps| ==>
              && inst.Valid() && inst.view == views[|steps|] && |inst.heap| == TotalSize(inst.view)
              && (forall id :: Lookup(Held(inst.view), id) == Meaning(OpsOf(views, steps), id))
    ensures |answers| == |steps| && OnlyServes(steps) ==>
              && ForeignOnly(inst.view) == ForeignOnly(old(inst.view))
              && (steps != [] && steps[|steps| - 1] == Serve(ClearAllRequest) ==> inst.heap == old(inst.heap))
  {
    ghost var heap, view := inst.heap, inst.view;
    answers, views := EveryRun(inst, steps);
    ApartIsGuarded(views, steps);
    RunRefines(views, steps);
    EachMeans(OpsOf(views, steps));
    NothingHeld(heap, view);
  }

  lemma EachMeans(ops: seq<Op>)
    ensures forall id :: Lookup(After(ops), id) == Meaning(ops, id)
  {
    forall id
      ensures Lookup(After(ops), id) == Meaning(ops, id)
    {
      EveryRunMeans(ops, id);
    }
  }

  lemma NothingHeld(heap: Heap, view: seq<Node>)
    requires Represents(heap, map[], view) && Held(view) == []
    ensures heap == AllBlocks(ForeignOnly(view))
  {
    OnlyForeignLeft(view);
    HeapDetermined(heap, view);
  }
}
