/** CAN frames carried in LIN frames: the CAN id travels in the two top bits of the first byte
    (drivers/can/lin2can/lin2can.c). */
module Lin2Can {
  import opened Iso14229

  const IDS: nat := 4
  const NOT_MAPPED: nat := 0xFF
  const STD_ID_MASK: nat := 0x7FF
  const EXT_ID_MASK: nat := 0x1FFF_FFFF
  const EINVAL := -22
  const ENOSPC := -28
  const ENOTSUP := -134

  /** The CAN ids behind the four values of the two bits. */
  type Mapping = m: seq<nat> | |m| == IDS witness [0, 0, 0, 0]

  datatype CanFrame = CanFrame(id: nat, data: seq<byte>)

  type LinData = d: seq<byte> | |d| == 8 witness [0, 0, 0, 0, 0, 0, 0, 0]

  datatype Outgoing = Outgoing(data: LinData, callback: nat)

  /** A registered receive callback; address zero is none. */
  datatype Receiver = Receiver(callback: nat, userData: nat)

  predicate MapsTo(mapping: Mapping, id: nat, i: nat)
  {
    i < IDS && mapping[i] == id && forall k :: 0 <= k < i ==> mapping[k] != id
  }

  function Tag(i: nat): byte
    requires i < IDS
  {
    if i == 0 then 0x00 else if i == 1 then 0x40 else if i == 2 then 0x80 else 0xC0
  }

  function Untag(b: byte): nat
  {
    var top := b & 0xC0;
    if top == 0x00 then 0 else if top == 0x40 then 1 else if top == 0x80 then 2 else 3
  }

  function Padded(data: seq<byte>): LinData
    requires |data| <= 8
  {
    seq(8, i requires 0 <= i < 8 => if i < |data| then data[i] else 0xFF)
  }

  function Encode(i: nat, data: seq<byte>): LinData
    requires i < IDS && |data| <= 8
  {
    var padded := Padded(data);
    padded[0 := padded[0] | Tag(i)]
  }

  function Decode(d: LinData): (nat, LinData)
  {
    (Untag(d[0]), d[0 := d[0] & 0x3F])
  }

  lemma TagBits(b: byte, i: nat)
    requires i < IDS
    ensures b & 0xC0 == 0 ==> Untag(b | Tag(i)) == i && (b | Tag(i)) & 0x3F == b
    ensures b & 0xC0 != 0 ==> (b | Tag(i)) & 0x3F != b
    ensures Untag(b) < IDS
  {
  }

  /** Encoding and decoding undo each other exactly for frames that have a first byte with its two top bits clear. */
  lemma RoundTripExactly(i: nat, data: seq<byte>)
    requires i < IDS && |data| <= 8
    ensures Decode(Encode(i, data)) == (i, Padded(data)) <==> data != [] && data[0] & 0xC0 == 0
  {
    var padded := Padded(data);
    TagBits(padded[0], i);
    assert Decode(Encode(i, data)).1[0] == (padded[0] | Tag(i)) & 0x3F;
    if padded[0] & 0xC0 == 0 {
      assert Decode(Encode(i, data)).1 == padded;
    }
  }

  /** The bytes on the bus: the payload's, then 0xFF, with the index in the two top bits of the first one. */
  lemma EncodedBytes(i: nat, data: seq<byte>)
    requires i < IDS && |data| <= 8
    ensures var e := Encode(i, data);
            && e[0] == (if data == [] then 0xFF else data[0]) | (if i == 0 then 0 else if i == 1 then 1 << 6
                                                                 else if i == 2 then 2 << 6 else 3 << 6)
            && forall k :: 1 <= k < 8 ==> e[k] == if k < |data| then data[k] else 0xFF
  {
  }

  /** The receiver is told the frame without its two top bits, under the id they stand for. */
  lemma HeardBytes(mapping: Mapping, table: seq<Receiver>, data: LinData)
    requires |table| == IDS
    ensures var top := data[0] >> 6;
            var i := if top == 0 then 0 else if top == 1 then 1 else if top == 2 then 2 else 3;
            && (table[i].callback == 0 ==> Heard(mapping, table, data) == [])
            && (table[i].callback != 0 ==>
                  Heard(mapping, table, data) == [(table[i], CanFrame(mapping[i], [data[0] & 0x3F] + data[1..]))])
  {
    var top := data[0] >> 6;
    assert data[0 := data[0] & 0x3F] == [data[0] & 0x3F] + data[1..];
    TopBits(data[0]);
  }

  lemma TopBits(b: byte)
    ensures b >> 6 < 4
    ensures Untag(b) == if b >> 6 == 0 then 0 else if b >> 6 == 1 then 1 else if b >> 6 == 2 then 2 else 3
  {
  }

  // ---- receive filters ---------------------------------------------------------------------------------------

  datatype Filter = Filter(id: nat, mask: nat)

  predicate Wildcard(f: Filter)
  {
    f.mask % (STD_ID_MASK + 1) == 0
  }

  class Driver {
    const mapping: Mapping
    const queueSize: nat
    const incomingCallbacks: array<Receiver>
    var queue: seq<Outgoing>

    ghost predicate Valid()
      reads this
    {
      incomingCallbacks.Length == IDS && |queue| <= queueSize
    }

    constructor (mapping: Mapping, queueSize: nat)
      ensures Valid() && queue == [] && this.mapping == mapping && fresh(incomingCallbacks)
      ensures forall i :: 0 <= i < IDS ==> incomingCallbacks[i].callback == 0
    {
      this.mapping, this.queueSize := mapping, queueSize;
      incomingCallbacks := new Receiver[IDS](_ => Receiver(0, 0));
      queue := [];
    }

    method MapFromCanId(canId: nat) returns (index: nat)
      ensures index == NOT_MAPPED <==> canId !in mapping
      ensures index != NOT_MAPPED ==> MapsTo(mapping, canId, index)
    {
      index := 0;
      while index < IDS
        invariant 0 <= index <= IDS && forall k :: 0 <= k < index ==> mapping[k] != canId
      {
        if mapping[index] == canId {
          return;
        }
        index := index + 1;
      }
      return NOT_MAPPED;
    }

    /** Queues a frame, after a wait that may make room. */
    method Send(frame: CanFrame, callback: nat, waitError: int) returns (result: int)
      requires Valid() && |frame.data| <= 8 && waitError < 0
      modifies this
      ensures Valid()
      ensures result == if frame.id !in mapping then EINVAL else if |old(queue)| == queueSize then waitError else 0
      ensures result != 0 ==> queue == old(queue)
      ensures result == 0 ==>
                queue == old(queue) + [Outgoing(Encode(IndexOf(mapping, frame.id), frame.data), callback)]
    {
      var mappedId := MapFromCanId(frame.id);
      if mappedId == NOT_MAPPED {
        return EINVAL;
      }
      IndexOfIsMapsTo(mapping, frame.id, mappedId);
      if |queue| >= queueSize {
        return waitError;
      }
      queue := queue + [Outgoing(Encode(mappedId, frame.data), callback)];
      return 0;
    }

    /** The LIN side asks for the next frame; its sender is told. */
    method OutgoingCallback() returns (available: bool, data: LinData, told: nat)
      requires Valid()
      modifies this
      ensures Valid() && (available <==> old(queue) != [])
      ensures available ==> old(queue) == [Outgoing(data, told)] + queue
      ensures !available ==> queue == old(queue)
    {
      if queue == [] {
        return false, [0, 0, 0, 0, 0, 0, 0, 0], 0;
      }
      data, told := queue[0].data, queue[0].callback;
      queue := queue[1..];
      return true, data, told;
    }

    /** A LIN frame arrives: the receiver of its tag sees the frame, cleaned, under the CAN id of the tag. */
    method IncomingCallback(data: LinData) returns (called: seq<(Receiver, CanFrame)>)
      requires Valid()
      ensures called == Heard(mapping, incomingCallbacks[..], data)
    {
      TagBits(data[0], 0);
      var mappedId := Untag(data[0]);
      if incomingCallbacks[mappedId].callback == 0 {
        return [];
      }
      var translated := CanFrame(mapping[mappedId], data[0 := data[0] & 0x3F]);
      return [(incomingCallbacks[mappedId], translated)];
    }

    method AddRxFilter(receiver: Receiver, filter: Filter) returns (result: int)
      requires Valid() && receiver.callback != 0
      modifies incomingCallbacks
      ensures Valid() && (incomingCallbacks[..], result) == Added(mapping, old(incomingCallbacks[..]), receiver, filter)
    {
      if filter.mask % (STD_ID_MASK + 1) == 0 {
        var i := 0;
        while i < IDS
          invariant 0 <= i <= IDS && forall k :: 0 <= k < i ==> incomingCallbacks[k].callback == 0
        {
          if incomingCallbacks[i].callback != 0 {
            return ENOSPC;
          }
          i := i + 1;
        }
        i := 0;
        while i < IDS
          invariant 0 <= i <= IDS && forall k :: 0 <= k < i ==> incomingCallbacks[k] == receiver
        {
          incomingCallbacks[i] := receiver;
          i := i + 1;
        }
        assert incomingCallbacks[..] == [receiver, receiver, receiver, receiver];
        return IDS;
      }
      if filter.mask != STD_ID_MASK && filter.mask != EXT_ID_MASK {
        return ENOTSUP;
      }
      var mappedId := MapFromCanId(filter.id);
      if mappedId == NOT_MAPPED {
        IndexOfIsMapsTo(mapping, filter.id, 0);
        return ENOTSUP;
      }
      IndexOfIsMapsTo(mapping, filter.id, mappedId);
      if incomingCallbacks[mappedId].callback != 0 {
        return ENOSPC;
      }
      incomingCallbacks[mappedId] := receiver;
      return mappedId;
    }

    /** A negative id is not refused: the driver then writes below the table, after which nothing is claimed. */
    method RemoveRxFilter(filterId: int) returns (outside: bool)
      requires Valid()
      modifies incomingCallbacks
      ensures outside <==> filterId < 0
      ensures !outside ==> Valid() && incomingCallbacks[..] == Removed(old(incomingCallbacks[..]), filterId)
    {
      if filterId == IDS {
        var i := 0;
        while i < IDS
          invariant 0 <= i <= IDS
          invariant forall k :: 0 <= k < i ==> incomingCallbacks[k] == old(incomingCallbacks[k]).(callback := 0)
          invariant forall k :: i <= k < IDS ==> incomingCallbacks[k] == old(incomingCallbacks[k])
        {
          incomingCallbacks[i] := incomingCallbacks[i].(callback := 0);
          i := i + 1;
        }
        return false;
      }
      if filterId >= IDS {
        return false;
      }
      if !(0 <= filterId < incomingCallbacks.Length) {
        return true;
      }
      incomingCallbacks[filterId] := incomingCallbacks[filterId].(callback := 0);
      return false;
    }
  }

  function IndexOf(mapping: Mapping, id: nat): nat
    requires id in mapping
  {
    if mapping[0] == id then 0 else if mapping[1] == id then 1 else if mapping[2] == id then 2 else 3
  }

  lemma IndexOfIsMapsTo(mapping: Mapping, id: nat, i: nat)
    ensures MapsTo(mapping, id, i) <==> id in mapping && i == IndexOf(mapping, id)
    ensures id in mapping <==> mapping[0] == id || mapping[1] == id || mapping[2] == id || mapping[3] == id
  {
  }

  /** What a receiver table makes of an arriving frame. */
  function Heard(mapping: Mapping, table: seq<Receiver>, data: LinData): seq<(Receiver, CanFrame)>
    requires |table| == IDS
  {
    var (i, clean) := Decode(data);
    if table[i].callback == 0 then [] else [(table[i], CanFrame(mapping[i], clean))]
  }

  function Added(mapping: Mapping, table: seq<Receiver>, r: Receiver, f: Filter): (res: (seq<Receiver>, int))
    requires |table| == IDS
    ensures |res.0| == IDS
  {
    if Wildcard(f) then
      if exists i :: 0 <= i < IDS && table[i].callback != 0 then (table, ENOSPC) else ([r, r, r, r], IDS)
    else if f.mask != STD_ID_MASK && f.mask != EXT_ID_MASK then (table, ENOTSUP)
    else if f.id !in mapping then (table, ENOTSUP)
    else
      var i := IndexOf(mapping, f.id);
      if table[i].callback != 0 then (table, ENOSPC) else (table[i := r], i)
  }

  function Removed(table: seq<Receiver>, filterId: nat): (res: seq<Receiver>)
    requires |table| == IDS
    ensures |res| == IDS
  {
    if filterId == IDS then seq(IDS, i requires 0 <= i < IDS => table[i].(callback := 0))
    else if filterId > IDS then table
    else table[filterId := table[filterId].(callback := 0)]
  }

  /** What each filter does to the receivers, and how it is answered. */
  lemma FilterAdded(mapping: Mapping, table: seq<Receiver>, r: Receiver, f: Filter, i: nat)
    requires |table| == IDS && i < IDS
    ensures var (table', result) := Added(mapping, table, r, f);
            var wildcard, taken := f.mask % 2048 == 0, exists k :: 0 <= k < IDS && table[k].callback != 0;
            && (wildcard && taken ==> table' == table && result == -28)
            && (wildcard && !taken ==> table'[i] == r && result == 4)
            && (!wildcard && ((f.mask != 0x7FF && f.mask != 0x1FFF_FFFF) || f.id !in mapping) ==>
                  table' == table && result == -134)
            && (!wildcard && (f.mask == 0x7FF || f.mask == 0x1FFF_FFFF) && MapsTo(mapping, f.id, i) ==>
                  if table[i].callback != 0 then table' == table && result == -28 else table' == table[i := r] && result == i)
  {
    IndexOfIsMapsTo(mapping, f.id, i);
  }

  lemma FilterRemoved(table: seq<Receiver>, filterId: nat, i: nat)
    requires |table| == IDS && i < IDS
    ensures Removed(table, filterId)[i] == if filterId == 4 || filterId == i then Receiver(0, table[i].userData) else table[i]
  {
  }

  /** Removing the filter just added restores which receivers are called; a refused filter changes nothing, and its
      result is one that must not be removed. */
  lemma AddThenRemove(mapping: Mapping, table: seq<Receiver>, r: Receiver, f: Filter, data: LinData)
    requires |table| == IDS
    ensures var (table', id) := Added(mapping, table, r, f);
            if id >= 0 then Heard(mapping, Removed(table', id), data) == Heard(mapping, table, data)
            else table' == table && id in {ENOSPC, ENOTSUP}
  {
    TagBits(data[0], 0);
  }

  // ---- a link --------------------------------------------------------------------------------------------------

  datatype LinkOp = SendFrame(frame: CanFrame) | Poll

  /** One side's queue, the frames its Send accepted, and what the other side's receivers have been called with. */
  datatype Link = Link(queue: seq<LinData>, accepted: seq<CanFrame>, heard: seq<(Receiver, CanFrame)>)

  /** Send and OutgoingCallback of the one side, IncomingCallback of the other, over a bus that loses nothing. */
  function OnLink(mapping: Mapping, size: nat, table: seq<Receiver>, l: Link, op: LinkOp): Link
    requires |table| == IDS && (op.SendFrame? ==> |op.frame.data| <= 8)
  {
    match op
    case SendFrame(frame) =>
      if frame.id !in mapping || |l.queue| >= size then l
      else l.(queue := l.queue + [Encode(IndexOf(mapping, frame.id), frame.data)], accepted := l.accepted + [frame])
    case Poll =>
      if l.queue == [] then l
      else l.(queue := l.queue[1..], heard := l.heard + Heard(mapping, table, l.queue[0]))
  }

  predicate Carriable(frame: CanFrame)
  {
    1 <= |frame.data| <= 8 && frame.data[0] & 0xC0 == 0
  }

  /** Those are exactly the frames that the encoding carries, whatever their id. */
  lemma CarriableExactly(frame: CanFrame)
    ensures Carriable(frame) <==>
              |frame.data| <= 8 && forall i :: 0 <= i < IDS ==> Decode(Encode(i, frame.data)) == (i, Padded(frame.data))
  {
    if |frame.data| <= 8 {
      forall i | 0 <= i < IDS
        ensures Decode(Encode(i, frame.data)) == (i, Padded(frame.data)) <==> Carriable(frame)
      {
        RoundTripExactly(i, frame.data);
      }
      assert Decode(Encode(0, frame.data)) == (0, Padded(frame.data)) <==> Carriable(frame);
    }
  }

  ghost predicate CarriableOps(ops: seq<LinkOp>)
  {
    forall i :: 0 <= i < |ops| && ops[i].SendFrame? ==> Carriable(ops[i].frame)
  }

  ghost function After(mapping: Mapping, size: nat, table: seq<Receiver>, ops: seq<LinkOp>): Link
    requires |table| == IDS && CarriableOps(ops)
  {
    if ops == [] then Link([], [], [])
    else OnLink(mapping, size, table, After(mapping, size, table, ops[..|ops| - 1]), ops[|ops| - 1])
  }

  /** What the receivers should see: the accepted frames in order, padded, under their ids. */
  function Expected(mapping: Mapping, table: seq<Receiver>, frames: seq<CanFrame>): seq<(Receiver, CanFrame)>
    requires |table| == IDS && forall i :: 0 <= i < |frames| ==> frames[i].id in mapping && Carriable(frames[i])
  {
    if frames == [] then []
    else
      var f := frames[|frames| - 1];
      assert Carriable(frames[|frames| - 1]);
      var r := table[IndexOf(mapping, f.id)];
      Expected(mapping, table, frames[..|frames| - 1]) +
      if r.callback == 0 then [] else [(r, CanFrame(f.id, Padded(f.data)))]
  }

  /** The first n accepted frames have been heard, the others wait, encoded, in the queue. */
  ghost predicate InFlight(mapping: Mapping, table: seq<Receiver>, l: Link, n: nat)
    requires |table| == IDS
  {
    && n + |l.queue| == |l.accepted|
    && (forall i :: 0 <= i < |l.accepted| ==> l.accepted[i].id in mapping && Carriable(l.accepted[i]))
    && (forall i :: 0 <= i < |l.queue| ==>
          l.queue[i] == Encode(IndexOf(mapping, l.accepted[n + i].id), l.accepted[n + i].data))
    && l.heard == Expected(mapping, table, l.accepted[..n])
  }

  lemma EncodedIsHeard(mapping: Mapping, table: seq<Receiver>, f: CanFrame)
    requires |table| == IDS && f.id in mapping && Carriable(f)
    ensures var r := table[IndexOf(mapping, f.id)];
            Heard(mapping, table, Encode(IndexOf(mapping, f.id), f.data)) ==
              if r.callback == 0 then [] else [(r, CanFrame(f.id, Padded(f.data)))]
  {
    RoundTripExactly(IndexOf(mapping, f.id), f.data);
    IndexOfIsMapsTo(mapping, f.id, IndexOf(mapping, f.id));
  }

  lemma PollDelivers(mapping: Mapping, size: nat, table: seq<Receiver>, l: Link, n: nat)
    requires |table| == IDS && InFlight(mapping, table, l, n) && l.queue != []
    ensures InFlight(mapping, table, OnLink(mapping, size, table, l, Poll), n + 1)
  {
    EncodedIsHeard(mapping, table, l.accepted[n]);
    assert l.accepted[..n + 1][..n] == l.accepted[..n];
    assert l.queue[0] == Encode(IndexOf(mapping, l.accepted[n + 0].id), l.accepted[n + 0].data);
  }

  lemma SendQueues(mapping: Mapping, size: nat, table: seq<Receiver>, l: Link, n: nat, f: CanFrame)
    requires |table| == IDS && InFlight(mapping, table, l, n) && Carriable(f)
    ensures InFlight(mapping, table, OnLink(mapping, size, table, l, SendFrame(f)), n)
  {
    assert (l.accepted + [f])[..n] == l.accepted[..n];
  }

  lemma {:induction false} LinkInFlight(mapping: Mapping, size: nat, table: seq<Receiver>, ops: seq<LinkOp>)
    returns (n: nat)
    requires |table| == IDS && CarriableOps(ops)
    ensures var l := After(mapping, size, table, ops);
            InFlight(mapping, table, l, n) && |l.queue| <= size
    decreases |ops|
  {
    if ops == [] {
      n := 0;
    } else {
      n := LinkInFlight(mapping, size, table, ops[..|ops| - 1]);
      var l := After(mapping, size, table, ops[..|ops| - 1]);
      match ops[|ops| - 1]
      case SendFrame(f) => SendQueues(mapping, size, table, l, n, f);
      case Poll =>
        if l.queue != [] {
          PollDelivers(mapping, size, table, l, n);
          n := n + 1;
        }
    }
  }

  /** The call that brings an accepted frame: its receiver, its id, its payload and nothing but 0xFF behind it. */
  ghost predicate Brings(mapping: Mapping, table: seq<Receiver>, f: CanFrame, call: (Receiver, CanFrame))
    requires |table| == IDS
  {
    && f.id in mapping && call.0 == table[IndexOf(mapping, f.id)] && call.1.id == f.id
    && |call.1.data| == 8 && |f.data| <= 8 && call.1.data[..|f.data|] == f.data
    && forall k :: |f.data| <= k < 8 ==> call.1.data[k] == 0xFF
  }

  /** The frames whose id has a receiver. */
  function Listened(mapping: Mapping, table: seq<Receiver>, frames: seq<CanFrame>): (r: seq<CanFrame>)
    requires |table| == IDS
    ensures |r| <= |frames|
    ensures (forall i :: 0 <= i < IDS ==> table[i].callback != 0) && (forall f :: f in frames ==> f.id in mapping) ==>
              r == frames
  {
    if frames == [] then []
    else
      var init, f := frames[..|frames| - 1], frames[|frames| - 1];
      assert frames == init + [f];
      if f.id in mapping && table[IndexOf(mapping, f.id)].callback != 0 then Listened(mapping, table, init) + [f]
      else Listened(mapping, table, init)
  }

  /** Calls bring frames, one by one. */
  ghost predicate BringAll(mapping: Mapping, table: seq<Receiver>, frames: seq<CanFrame>, calls: seq<(Receiver, CanFrame)>)
    requires |table| == IDS
  {
    |calls| == |frames| && forall k :: 0 <= k < |frames| ==> Brings(mapping, table, frames[k], calls[k])
  }

  /** What the receivers should see are the payloads of the frames that somebody listens to. */
  lemma {:induction false} ExpectedBrings(mapping: Mapping, table: seq<Receiver>, frames: seq<CanFrame>)
    requires |table| == IDS && forall i :: 0 <= i < |frames| ==> frames[i].id in mapping && Carriable(frames[i])
    ensures BringAll(mapping, table, Listened(mapping, table, frames), Expected(mapping, table, frames))
    decreases |frames|
  {
    if frames != [] {
      var init, f := frames[..|frames| - 1], frames[|frames| - 1];
      assert Carriable(frames[|frames| - 1]);
      ExpectedBrings(mapping, table, init);
      var r := table[IndexOf(mapping, f.id)];
      if r.callback != 0 {
        PaddedBrings(mapping, table, f);
        OneMoreBrought(mapping, table, Listened(mapping, table, init), Expected(mapping, table, init), f,
                       (r, CanFrame(f.id, Padded(f.data))));
      } else {
        assert Expected(mapping, table, frames) == Expected(mapping, table, init);
      }
    }
  }

  lemma PaddedBrings(mapping: Mapping, table: seq<Receiver>, f: CanFrame)
    requires |table| == IDS && f.id in mapping && |f.data| <= 8
    ensures Brings(mapping, table, f, (table[IndexOf(mapping, f.id)], CanFrame(f.id, Padded(f.data))))
  {
    assert Padded(f.data)[..|f.data|] == f.data;
  }

  lemma OneMoreBrought(mapping: Mapping, table: seq<Receiver>, frames: seq<CanFrame>, calls: seq<(Receiver, CanFrame)>,
                       f: CanFrame, call: (Receiver, CanFrame))
    requires |table| == IDS && BringAll(mapping, table, frames, calls) && Brings(mapping, table, f, call)
    ensures BringAll(mapping, table, frames + [f], calls + [call])
  {
  }

  /** For every sequence of sends and polls: what the receivers have been called with, followed by what the queue still
      holds, is the accepted frames in order, each exactly once; once the queue is empty all have been heard. A call
      brings the payload of its frame and nothing but 0xFF behind it. */
  lemma LinkDelivers(mapping: Mapping, size: nat, table: seq<Receiver>, ops: seq<LinkOp>) returns (n: nat)
    requires |table| == IDS && CarriableOps(ops)
    ensures var l := After(mapping, size, table, ops);
            && InFlight(mapping, table, l, n) && |l.queue| <= size
            && (l.queue == [] ==> l.heard == Expected(mapping, table, l.accepted))
            && BringAll(mapping, table, Listened(mapping, table, l.accepted[..n]), l.heard)
  {
    n := LinkInFlight(mapping, size, table, ops);
    var l := After(mapping, size, table, ops);
    assert l.queue == [] ==> l.accepted[..n] == l.accepted;
    ExpectedBrings(mapping, table, l.accepted[..n]);
  }

  // ---- the drivers on the link -----------------------------------------------------------------------------------

  function Payloads(queue: seq<Outgoing>): (r: seq<LinData>)
    ensures |r| == |queue| && forall i :: 0 <= i < |queue| ==> r[i] == queue[i].data
  {
    seq(|queue|, i requires 0 <= i < |queue| => queue[i].data)
  }

  /** The sender and its peer do one operation of the link: what was accepted, and what the receivers were called with. */
  method LinkStep(sender: Driver, peer: Driver, op: LinkOp, ghost l: Link)
    returns (accepted: seq<CanFrame>, heard: seq<(Receiver, CanFrame)>)
    requires sender.Valid() && peer.Valid() && sender != peer && sender.mapping == peer.mapping
    requires Payloads(sender.queue) == l.queue && (op.SendFrame? ==> |op.frame.data| <= 8)
    modifies sender
    ensures sender.Valid()
    ensures var l' := OnLink(peer.mapping, sender.queueSize, peer.incomingCallbacks[..], l, op);
            l' == Link(Payloads(sender.queue), l.accepted + accepted, l.heard + heard)
  {
    accepted, heard := [], [];
    match op
    case SendFrame(frame) =>
      var result := sender.Send(frame, 0, -11);
      if result == 0 {
        accepted := [frame];
      }
    case Poll =>
      var available, data, told := sender.OutgoingCallback();
      if available {
        heard := peer.IncomingCallback(data);
        assert Payloads(sender.queue) == l.queue[1..];
      }
  }

  /** Two drivers with the same configuration on a bus that loses nothing: whatever is sent and polled, the peer's
      receivers have been called with the first of the accepted frames, in order and each once, and with all of them
      when the queue is empty. */
  method EveryLinkRun(sender: Driver, peer: Driver, ops: seq<LinkOp>)
    returns (accepted: seq<CanFrame>, heard: seq<(Receiver, CanFrame)>, ghost n: nat)
    requires sender.Valid() && peer.Valid() && sender != peer && sender.mapping == peer.mapping && sender.queue == []
    requires CarriableOps(ops)
    modifies sender
    ensures n + |sender.queue| == |accepted|
    ensures forall i :: 0 <= i < |accepted| ==> accepted[i].id in peer.mapping && Carriable(accepted[i])
    ensures heard == Expected(peer.mapping, peer.incomingCallbacks[..], accepted[..n])
    ensures var table := peer.incomingCallbacks[..];
            BringAll(peer.mapping, table, Listened(peer.mapping, table, accepted[..n]), heard)
    ensures sender.queue == [] ==> heard == Expected(peer.mapping, peer.incomingCallbacks[..], accepted)
  {
    accepted, heard := [], [];
    ghost var mapping, size, table := peer.mapping, sender.queueSize, peer.incomingCallbacks[..];
    for i := 0 to |ops|
      invariant sender.Valid() && CarriableOps(ops[..i])
      invariant Link(Payloads(sender.queue), accepted, heard) == After(mapping, size, table, ops[..i])
    {
      assert ops[..i + 1][..i] == ops[..i];
      var more, calls := LinkStep(sender, peer, ops[i], Link(Payloads(sender.queue), accepted, heard));
      accepted, heard := accepted + more, heard + calls;
    }
    assert ops[..|ops|] == ops;
    n := LinkDelivers(mapping, size, table, ops);
    assert |accepted| == n ==> accepted[..n] == accepted;
  }
}
