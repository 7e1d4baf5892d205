/** The bounded table of frame callbacks of the abstract LIN driver (drivers/lin/abstract_lin/abstract_lin.c). */
module LinCallbacks {
  import opened Sequences

  const MAX_FRAME_ID: nat := 0x3F
  const EEXIST := -17
  const EINVAL := -22
  const ENOSPC := -28
  const ENOTSUP := -134

  datatype Direction = Incoming | Outgoing

  /** `callback` is the address of the function, zero for NULL. */
  datatype Entry = Entry(frameId: nat, frameSize: nat, direction: Direction, callback: nat, userData: nat)

  datatype BusMode = Commander | Responder

  datatype Action = NoAction | Receive(id: nat, size: nat) | Send(id: nat, size: nat) | Fail(code: int)

  /** The bus action an entry asks for; `wants` is what the outgoing callbacks answer. */
  function OnBus(e: Entry, wants: Entry -> bool): Action
  {
    if e.direction == Incoming then Receive(e.frameId, e.frameSize)
    else if wants(e) then Send(e.frameId, e.frameSize) else NoAction
  }

  // ---- the slots, and the map they stand for -----------------------------------------------------------------

  predicate Acceptable(e: Entry)
  {
    e.callback != 0 && e.frameId <= MAX_FRAME_ID && 1 <= e.frameSize <= 8
  }

  ghost predicate WellFormed(table: seq<Entry>)
  {
    && (forall i :: 0 <= i < |table| ==> Acceptable(table[i]))
    && (forall i, j :: 0 <= i < j < |table| ==> table[i].frameId != table[j].frameId)
  }

  /** The slots stand for the map: the same entries, each under its own id. */
  ghost predicate Stands(table: seq<Entry>, m: map<nat, Entry>)
  {
    && WellFormed(table)
    && (forall e :: e in table ==> e.frameId in m && m[e.frameId] == e)
    && (forall id :: id in m ==> m[id] in table && m[id].frameId == id)
  }

  predicate Misses(table: seq<Entry>, id: nat)
  {
    forall k :: 0 <= k < |table| ==> table[k].frameId != id
  }

  lemma SlotDecides(table: seq<Entry>, m: map<nat, Entry>, i: nat)
    requires Stands(table, m) && i < |table|
    ensures table[i].frameId in m && m[table[i].frameId] == table[i]
  {
    assert table[i] in table;
  }

  lemma MissesIffNoKey(table: seq<Entry>, m: map<nat, Entry>, id: nat)
    requires Stands(table, m)
    ensures Misses(table, id) <==> id !in m
  {
    if id !in m {
      forall k | 0 <= k < |table|
        ensures table[k].frameId != id
      {
        SlotDecides(table, m, k);
      }
    } else {
      var k :| 0 <= k < |table| && table[k] == m[id];
    }
  }

  lemma RemovalStands(table: seq<Entry>, m: map<nat, Entry>, i: nat)
    requires Stands(table, m) && i < |table|
    ensures Stands(Without(table, i), m - {table[i].frameId})
  {
    var rest := Without(table, i);
    WithoutAt(table, i);
    forall e | e in rest
      ensures e in table && e.frameId != table[i].frameId
    {
      var k :| 0 <= k < |rest| && rest[k] == e;
      assert e == table[if k < i then k else k + 1];
    }
    forall e | e in table && e.frameId != table[i].frameId
      ensures e in rest
    {
      var j :| 0 <= j < |table| && table[j] == e;
      assert rest[if j < i then j else j - 1] == e;
    }
  }

  lemma AppendStands(table: seq<Entry>, m: map<nat, Entry>, e: Entry)
    requires Stands(table, m) && Acceptable(e) && e.frameId !in m
    ensures Stands(table + [e], m[e.frameId := e])
  {
    MissesIffNoKey(table, m, e.frameId);
  }

  lemma {:induction false} StandsSize(table: seq<Entry>, m: map<nat, Entry>)
    requires Stands(table, m)
    ensures |m| == |table|
    decreases |table|
  {
    if table == [] {
      assert m == map[];
    } else {
      RemovalStands(table, m, |table| - 1);
      var id := table[|table| - 1].frameId;
      assert Without(table, |table| - 1) == table[..|table| - 1];
      StandsSize(table[..|table| - 1], m - {id});
      SlotDecides(table, m, |table| - 1);
      assert m.Keys == (m - {id}).Keys + {id};
    }
  }

  /** Pigeonhole: there are only 64 frame ids, so the table never holds more. */
  lemma NoMoreThanFrameIds(table: seq<Entry>)
    requires WellFormed(table)
    ensures |table| <= MAX_FRAME_ID + 1
  {
    Pigeonhole(seq(|table|, i requires 0 <= i < |table| => table[i].frameId), 0, MAX_FRAME_ID + 1);
  }

  function HasId(id: nat): Entry -> bool
  {
    (e: Entry) => e.frameId == id
  }

  /** The list without the first entry of an id. */
  function Dropped(table: seq<Entry>, id: nat): seq<Entry>
  {
    WithoutFirst(table, HasId(id))
  }

  lemma DroppedAt(table: seq<Entry>, id: nat, i: nat)
    requires i < |table| && table[i].frameId == id && Misses(table[..i], id)
    ensures Dropped(table, id) == Without(table, i)
  {
    assert forall k :: 0 <= k < i ==> table[..i][k] == table[k];
    WithoutFirstAt(table, HasId(id), i);
  }

  lemma DroppedAbsent(table: seq<Entry>, id: nat)
    requires Misses(table, id)
    ensures Dropped(table, id) == table
  {
    WithoutFirstMisses(table, HasId(id));
  }

  /** Removal deletes exactly the entry of the id, if there is one, and keeps the order of the others. */
  lemma RemovalRefines(table: seq<Entry>, m: map<nat, Entry>, id: nat)
    requires Stands(table, m)
    ensures Stands(Dropped(table, id), m - {id})
    ensures |Dropped(table, id)| <= |table|
  {
    MissesIffNoKey(table, m, id);
    if id in m {
      var i :| 0 <= i < |table| && table[i] == m[id];
      DroppedAt(table, id, i);
      WithoutAt(table, i);
      RemovalStands(table, m, i);
    } else {
      DroppedAbsent(table, id);
      assert m - {id} == m;
    }
  }

  function CalledAmong(table: seq<Entry>, id: nat): seq<Entry>
  {
    if table == [] then []
    else
      var e := table[|table| - 1];
      CalledAmong(table[..|table| - 1], id) + if e.frameId == id && e.direction == Incoming then [e] else []
  }

  lemma {:induction false} NobodyCalled(table: seq<Entry>, id: nat)
    requires Misses(table, id)
    ensures CalledAmong(table, id) == []
    decreases |table|
  {
    if table != [] {
      NobodyCalled(table[..|table| - 1], id);
    }
  }

  lemma {:induction false} OneCalled(table: seq<Entry>, e: Entry)
    requires WellFormed(table) && e in table
    ensures CalledAmong(table, e.frameId) == if e.direction == Incoming then [e] else []
    decreases |table|
  {
    var init, last := table[..|table| - 1], table[|table| - 1];
    if e == last {
      NobodyCalled(init, e.frameId);
    } else {
      OneCalled(init, e);
    }
  }

  // ---- the driver --------------------------------------------------------------------------------------------

  method ShiftLeft(callbacks: array<Entry>, index: nat, used: nat)
    requires index <= used < callbacks.Length
    modifies callbacks
    ensures callbacks[..used] == Without(old(callbacks[..used + 1]), index)
  {
    ghost var table := callbacks[..used + 1];
    var i := index;
    while i < used
      invariant index <= i <= used
      invariant forall k :: 0 <= k < index ==> callbacks[k] == table[k]
      invariant forall k :: index <= k < i ==> callbacks[k] == table[k + 1]
      invariant forall k :: i <= k <= used ==> callbacks[k] == table[k]
    {
      callbacks[i] := callbacks[i + 1];
      i := i + 1;
    }
    WithoutAt(table, index);
  }

  class AbstractLin {
    const callbacks: array<Entry>
    const mode: BusMode
    var usedCallbacks: nat
    ghost var registered: map<nat, Entry>

    ghost predicate Valid()
      reads this, callbacks
    {
      usedCallbacks <= callbacks.Length && Stands(callbacks[..usedCallbacks], registered)
    }

    ghost function Table(): seq<Entry>
      requires usedCallbacks <= callbacks.Length
      reads this, callbacks
    {
      callbacks[..usedCallbacks]
    }

    constructor (callbacks: array<Entry>, mode: BusMode)
      ensures Valid() && registered == map[] && usedCallbacks == 0
      ensures this.callbacks == callbacks && this.mode == mode
    {
      this.callbacks, this.mode := callbacks, mode;
      usedCallbacks, registered := 0, map[];
    }

    method GetFreeCallbackSlots() returns (free: nat)
      requires Valid()
      ensures free == callbacks.Length - |registered| && usedCallbacks + free == callbacks.Length
      ensures usedCallbacks <= MAX_FRAME_ID + 1
    {
      StandsSize(Table(), registered);
      NoMoreThanFrameIds(Table());
      return callbacks.Length - usedCallbacks;
    }

    /** The first slot of an id, or -1: the search every entry point of the driver does. */
    method Find(frameId: nat) returns (index: int)
      requires Valid()
      ensures -1 <= index < usedCallbacks
      ensures index >= 0 <==> frameId in registered
      ensures index >= 0 ==> callbacks[index] == registered[frameId] && callbacks[index].frameId == frameId
                             && Misses(Table()[..index], frameId)
    {
      index := 0;
      while index < usedCallbacks
        invariant 0 <= index <= usedCallbacks && Misses(Table()[..index], frameId)
      {
        if callbacks[index].frameId == frameId {
          SlotDecides(Table(), registered, index);
          return;
        }
        index := index + 1;
      }
      assert Table()[..index] == Table();
      MissesIffNoKey(Table(), registered, frameId);
      return -1;
    }

    /** Reserves the next slot: there is none when the table is full or the id is taken, in that order. */
    method AllocateCallback(frameId: nat) returns (index: int)
      requires Valid()
      modifies this`usedCallbacks
      ensures index == if |registered| == callbacks.Length then ENOSPC else if frameId in registered then EEXIST
                       else old(usedCallbacks)
      ensures usedCallbacks == old(usedCallbacks) + (if index >= 0 then 1 else 0) <= callbacks.Length
    {
      StandsSize(Table(), registered);
      if usedCallbacks >= callbacks.Length {
        return ENOSPC;
      }
      var taken := Find(frameId);
      if taken >= 0 {
        return EEXIST;
      }
      index := usedCallbacks;
      usedCallbacks := usedCallbacks + 1;
    }

    method Register(e: Entry) returns (result: int)
      requires Valid()
      modifies this, callbacks
      ensures Valid()
      ensures result == if !Acceptable(e) then EINVAL else if |old(registered)| == callbacks.Length then ENOSPC
                        else if e.frameId in old(registered) then EEXIST else 0
      ensures result == EINVAL <==> e.callback == 0 || e.frameId > 63 || e.frameSize == 0 || e.frameSize > 8
      ensures registered == if result == 0 then old(registered)[e.frameId := e] else old(registered)
      ensures Table() == if result == 0 then old(Table()) + [e] else old(Table())
    {
      if e.callback == 0 || e.frameId > MAX_FRAME_ID || e.frameSize < 1 || e.frameSize > 8 {
        return EINVAL;
      }
      ghost var table := Table();
      var freeIndex := AllocateCallback(e.frameId);
      if freeIndex < 0 {
        return freeIndex;
      }
      callbacks[freeIndex] := e;
      AppendStands(table, registered, e);
      registered := registered[e.frameId := e];
      assert Table() == table + [e];
      return 0;
    }

    /** The slots right of the removed one move one to the left. */
    method RemoveSlot(index: nat)
      requires Valid() && index < usedCallbacks
      modifies this, callbacks
      ensures Valid() && Table() == Without(old(Table()), index)
      ensures registered == old(registered) - {old(callbacks[index].frameId)}
    {
      ghost var table := Table();
      RemovalStands(table, registered, index);
      registered := registered - {callbacks[index].frameId};
      usedCallbacks := usedCallbacks - 1;
      ShiftLeft(callbacks, index, usedCallbacks);
      assert Table() == Without(table, index);
    }

    method Unregister(frameId: nat) returns (result: int)
      requires Valid()
      modifies this, callbacks
      ensures Valid() && registered == old(registered) - {frameId} && Table() == Dropped(old(Table()), frameId)
      ensures result == if frameId in old(registered) then 0 else EINVAL
    {
      var index := Find(frameId);
      if index == -1 {
        MissesIffNoKey(Table(), registered, frameId);
        DroppedAbsent(Table(), frameId);
        assert registered - {frameId} == registered;
        return EINVAL;
      }
      DroppedAt(Table(), frameId, index);
      RemoveSlot(index);
      return 0;
    }

    /** A header asks for a frame: the map says who receives or sends it. */
    method HeaderCallback(frameId: nat, wants: Entry -> bool) returns (action: Action)
      requires Valid()
      ensures action == if frameId in registered then OnBus(registered[frameId], wants) else NoAction
      ensures frameId in registered ==>
                var e := registered[frameId];
                && (e.direction == Incoming ==> action == Receive(frameId, e.frameSize))
                && (e.direction == Outgoing && wants(e) ==> action == Send(frameId, e.frameSize))
                && (e.direction == Outgoing && !wants(e) ==> action == NoAction)
    {
      var index := Find(frameId);
      if index == -1 {
        return NoAction;
      }
      var e := callbacks[index];
      match e.direction
      case Incoming => return Receive(frameId, e.frameSize);
      case Outgoing => return if wants(e) then Send(frameId, e.frameSize) else NoAction;
    }

    /** A received frame goes to the incoming callback of its id, once, or to nobody. */
    method RxCallback(error: bool, frameId: nat) returns (called: seq<Entry>)
      requires Valid()
      ensures called == if !error && frameId in registered && registered[frameId].direction == Incoming then
                          [registered[frameId]]
                        else []
    {
      called := [];
      if error {
        return;
      }
      ghost var table := Table();
      var i := 0;
      while i < usedCallbacks
        invariant 0 <= i <= usedCallbacks
        invariant called == CalledAmong(table[..i], frameId)
      {
        var e := callbacks[i];
        assert table[..i + 1][..i] == table[..i] && e == table[i];
        if e.frameId == frameId && e.direction == Incoming {
          called := called + [e];
        }
        i := i + 1;
      }
      assert table[..i] == table;
      MissesIffNoKey(table, registered, frameId);
      if frameId in registered {
        OneCalled(table, registered[frameId]);
      } else {
        NobodyCalled(table, frameId);
      }
    }

    method ScheduleNow(frameId: nat, wants: Entry -> bool) returns (action: Action)
      requires Valid()
      ensures action ==
                if frameId > MAX_FRAME_ID then Fail(EINVAL)
                else if mode != Commander then Fail(ENOTSUP)
                else if frameId in registered then OnBus(registered[frameId], wants)
                else Fail(EINVAL)
      ensures mode == Commander && frameId in registered && frameId <= 63 ==>
                var e := registered[frameId];
                && (e.direction == Incoming ==> action == Receive(frameId, e.frameSize))
                && (e.direction == Outgoing && wants(e) ==> action == Send(frameId, e.frameSize))
                && (e.direction == Outgoing && !wants(e) ==> action == NoAction)
    {
      if frameId > MAX_FRAME_ID {
        return Fail(EINVAL);
      }
      if mode != Commander {
        return Fail(ENOTSUP);
      }
      var index := Find(frameId);
      if index == -1 {
        return Fail(EINVAL);
      }
      var e := callbacks[index];
      match e.direction
      case Incoming => return Receive(e.frameId, e.frameSize);
      case Outgoing => return if wants(e) then Send(e.frameId, e.frameSize) else NoAction;
    }
  }

  // ---- runs --------------------------------------------------------------------------------------------------

  datatype Op = Add(e: Entry) | Remove(frameId: nat)

  /** One request on the list. */
  function OnList(table: seq<Entry>, capacity: nat, op: Op): seq<Entry>
  {
    match op
    case Add(e) => if Acceptable(e) && |table| < capacity && Misses(table, e.frameId) then table + [e] else table
    case Remove(id) => Dropped(table, id)
  }

  function OnMap(m: map<nat, Entry>, capacity: nat, op: Op): map<nat, Entry>
  {
    match op
    case Add(e) => if Acceptable(e) && |m| < capacity && e.frameId !in m then m[e.frameId := e] else m
    case Remove(id) => m - {id}
  }

  function ListAfter(capacity: nat, ops: seq<Op>): seq<Entry>
  {
    if ops == [] then [] else OnList(ListAfter(capacity, ops[..|ops| - 1]), capacity, ops[|ops| - 1])
  }

  function MapAfter(capacity: nat, ops: seq<Op>): map<nat, Entry>
  {
    if ops == [] then map[] else OnMap(MapAfter(capacity, ops[..|ops| - 1]), capacity, ops[|ops| - 1])
  }

  lemma OpRefines(table: seq<Entry>, m: map<nat, Entry>, capacity: nat, op: Op)
    requires Stands(table, m)
    ensures Stands(OnList(table, capacity, op), OnMap(m, capacity, op))
    ensures |table| <= capacity ==> |OnList(table, capacity, op)| <= capacity
  {
    match op
    case Add(e) =>
      StandsSize(table, m);
      MissesIffNoKey(table, m, e.frameId);
      if Acceptable(e) && e.frameId !in m {
        AppendStands(table, m, e);
      }
    case Remove(id) =>
      RemovalRefines(table, m, id);
  }

  /** In every run of registrations and removals the slots stand for the map, and there are never more than the
      capacity or than there are frame ids. */
  lemma {:induction false} EveryRunRefinesMap(capacity: nat, ops: seq<Op>)
    ensures Stands(ListAfter(capacity, ops), MapAfter(capacity, ops))
    ensures |ListAfter(capacity, ops)| <= capacity && |ListAfter(capacity, ops)| <= MAX_FRAME_ID + 1
    decreases |ops|
  {
    if ops != [] {
      EveryRunRefinesMap(capacity, ops[..|ops| - 1]);
      OpRefines(ListAfter(capacity, ops[..|ops| - 1]), MapAfter(capacity, ops[..|ops| - 1]), capacity,
                ops[|ops| - 1]);
    }
    NoMoreThanFrameIds(ListAfter(capacity, ops));
  }

  /** The driver carries out a request as the list and the map do. */
  method DoOp(al: AbstractLin, op: Op)
    requires al.Valid()
    modifies al, al.callbacks
    ensures al.Valid() && al.Table() == OnList(old(al.Table()), al.callbacks.Length, op)
    ensures al.registered == OnMap(old(al.registered), al.callbacks.Length, op)
  {
    StandsSize(al.Table(), al.registered);
    match op
    case Add(e) =>
      MissesIffNoKey(al.Table(), al.registered, e.frameId);
      var result := al.Register(e);
    case Remove(id) =>
      var result := al.Unregister(id);
  }

  /** The driver after any run of registrations and removals. */
  method EveryRegistrationRun(capacity: nat, ops: seq<Op>) returns (al: AbstractLin)
    ensures al.Valid() && al.Table() == ListAfter(capacity, ops) && al.registered == MapAfter(capacity, ops)
    ensures al.usedCallbacks <= capacity && al.usedCallbacks <= MAX_FRAME_ID + 1
  {
    var callbacks := new Entry[capacity];
    assert ops[..0] == [];
    al := new AbstractLin(callbacks, Commander);
    for i := 0 to |ops|
      invariant fresh(al) && fresh(al.callbacks) && al.Valid() && al.callbacks.Length == capacity
      invariant al.Table() == ListAfter(capacity, ops[..i]) && al.registered == MapAfter(capacity, ops[..i])
    {
      assert ops[..i + 1][..i] == ops[..i];
      DoOp(al, ops[i]);
    }
    assert ops[..|ops|] == ops;
    EveryRunRefinesMap(capacity, ops);
  }
}
