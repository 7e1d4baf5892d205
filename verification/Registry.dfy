/** The dynamic registrations of a UDS instance (lib/uds/uds.c:178-244) over the heap. */
module Registry {
  import opened Sequences
  import opened UdsDispatch
  import opened RegistryHeap

  const ENOENT := -2
  const ENOMEM := -12
  const ENOSPC := -28

  lemma {:induction false} FreshAddress(keys: set<Addr>) returns (a: Addr)
    ensures forall k :: k in keys ==> k < a
    decreases keys
  {
    if keys == {} {
      a := 0;
    } else {
      var k :| k in keys;
      var b := FreshAddress(keys - {k});
      a := if b <= k then k + 1 else b;
      assert forall j :: j in keys ==> j == k || j in keys - {k};
    }
  }

  /** The instance with the heap it lives in. `idList` is the list of registration ids of the handler for service
      0x2C; `faulted` records a use of freed memory, after which nothing more is claimed. */
  class Instance {
    var heap: Heap
    var dynamicRegistrations: seq<Addr>
    var idList: seq<Addr>
    var faulted: bool
    ghost var view: seq<Node>
    ghost var extra: Heap

    /** The registrations are linked and apart; blocks on their way in or out are in `extra`. */
    ghost predicate Linked()
      reads this
    {
      Represents(heap, extra, view) && Registered(view) && dynamicRegistrations == RegAddrs(view)
    }

    /** Between requests nothing is on its way, and the id list names exactly the registrations of service 0x2C. */
    ghost predicate Valid()
      reads this
    {
      !faulted && Linked() && extra == map[] && idList == ItemAddrs(OwnedOnly(view))
    }

    constructor ()
      ensures Valid() && heap == map[] && view == []
    {
      heap, dynamicRegistrations, idList, faulted := map[], [], [], false;
      view, extra := [], map[];
    }

    /** Nothing is on its way any more: the heap is that of the given registrations. */
    ghost method Settle(v: seq<Node>)
      requires !faulted && Represents(heap, map[], v) && Registered(v)
      requires dynamicRegistrations == RegAddrs(v) && idList == ItemAddrs(OwnedOnly(v))
      modifies this`view, this`extra
      ensures Valid() && view == v
    {
      view, extra := v, map[];
    }

    method Malloc(b: Block, ok: bool) returns (a: Option<Addr>)
      requires Represents(heap, extra, view)
      modifies this`heap, this`extra
      ensures Represents(heap, extra, view)
      ensures ok <==> a.Some?
      ensures ok ==> a.value !in old(heap) && heap == old(heap)[a.value := b] && extra == old(extra)[a.value := b]
      ensures !ok ==> heap == old(heap) && extra == old(extra)
    {
      if !ok {
        return None;
      }
      ghost var beyond := FreshAddress(heap.Keys);
      assert beyond !in heap;
      var addr: Addr :| addr !in heap;
      Allocate(heap, extra, view, addr, b);
      heap, extra := heap[addr := b], extra[addr := b];
      return Some(addr);
    }

    /** Every call has to show that the block is live: nothing is freed twice. */
    method KFree(a: Addr)
      requires Represents(heap, extra, view) && a in extra
      modifies this`heap, this`extra
      ensures Represents(heap, extra, view)
      ensures heap == old(heap) - {a} && extra == old(extra) - {a}
    {
      Free(heap, extra, view, a);
      heap, extra := heap - {a}, extra - {a};
    }

    /** The code follows a pointer here without knowing that its block is live. */
    method Follow(a: Addr)
      modifies this`faulted
      ensures faulted <==> old(faulted) || a !in heap
    {
      faulted := faulted || a !in heap;
    }

    method Store(a: Addr, b: Block)
      requires Represents(heap, extra, view) && a in extra
      modifies this`heap, this`extra
      ensures Represents(heap, extra, view)
      ensures heap == old(heap)[a := b] && extra == old(extra)[a := b]
    {
      Write(heap, extra, view, a, b);
      heap, extra := heap[a := b], extra[a := b];
    }

    /** The registration ids in list order. */
    method Ids() returns (ids: seq<nat>)
      requires Linked()
      ensures ids == DynIds(view)
    {
      ids := [];
      for i := 0 to |dynamicRegistrations|
        invariant |ids| == i && forall k :: 0 <= k < i ==> ids[k] == view[k].dynId
      {
        RegistrationBlock(heap, extra, view, i);
        ids := ids + [heap[dynamicRegistrations[i]].dynId];
      }
    }

    /** Links a copy of the registration under the least free id. Its block is still `extra`: the caller says what
        else belongs to it. */
    method LinkRegistration(reg: Reg, ok: bool) returns (result: int, dynId: nat, addr: Addr)
      requires Linked()
      modifies this`heap, this`extra, this`dynamicRegistrations
      ensures Represents(heap, extra, view) && dynId == FirstFree(DynIds(view), 1)
      ensures result == if dynId == 0 then ENOSPC else if !ok then ENOMEM else 0
      ensures result != 0 ==> heap == old(heap) && extra == old(extra) && dynamicRegistrations == old(dynamicRegistrations)
      ensures result == 0 ==>
                && addr !in old(heap) && heap == old(heap)[addr := RegBlock(dynId, reg)]
                && extra == old(extra)[addr := RegBlock(dynId, reg)]
                && dynamicRegistrations == old(dynamicRegistrations) + [addr]
    {
      addr := 0;
      var ids := Ids();
      ghost var tried;
      dynId, tried := FindNextDynamicId(ids);
      if dynId == 0 {
        return ENOSPC, dynId, addr;
      }
      var block := Malloc(RegBlock(dynId, reg), ok);
      if block.None? {
        return ENOMEM, dynId, addr;
      }
      addr := block.value;
      dynamicRegistrations := dynamicRegistrations + [addr];
      return 0, dynId, addr;
    }

    /** uds_register_event_handler for a registration that is not one of service 0x2C. */
    method RegisterForeign(reg: Reg, ok: bool) returns (result: int, dynId: nat)
      requires Valid() && reg.Foreign?
      modifies this
      ensures Valid()
      ensures result == if FirstFree(DynIds(old(view)), 1) == 0 then ENOSPC else if !ok then ENOMEM else 0
      ensures result == 0 ==> dynId == FirstFree(DynIds(old(view)), 1)
                              && exists a :: view == old(view) + [ForeignNode(a, dynId, reg)]
      ensures result != 0 ==> view == old(view) && heap == old(heap)
    {
      var addr;
      result, dynId, addr := LinkRegistration(reg, ok);
      if result == 0 {
        ghost var n := ForeignNode(addr, dynId, reg);
        AdoptForeign(heap, old(view), n);
        view, extra := view + [n], map[];
      }
    }

    /** The unregister function of a dynamic identifier: its entries, then its list. */
    method FreeIdentifier(list: Addr, ghost cells: seq<Cell>)
      requires Represents(heap, extra, view)
      requires list in extra && extra[list] == ListBlock(CellAddrs(cells)) && list !in CellAddrs(cells)
      requires NoRepeats(CellAddrs(cells)) && forall k :: 0 <= k < |cells| ==> cells[k].addr in extra
      modifies this`heap, this`extra
      ensures Represents(heap, extra, view)
      ensures extra == old(extra) - CellBlocks(cells).Keys - {list}
      ensures heap == old(heap) - CellBlocks(cells).Keys - {list}
    {
      Free(heap, extra, view, list);
      var addrs := heap[list].cells;
      for k := 0 to |addrs|
        invariant Represents(heap, extra, view)
        invariant extra == old(extra) - Elements(addrs[..k]) && heap == old(heap) - Elements(addrs[..k])
      {
        assert addrs[k] == cells[k].addr;
        assert addrs[k] !in addrs[..k];
        KFree(addrs[k]);
        assert Elements(addrs[..k + 1]) == Elements(addrs[..k]) + {addrs[k]};
      }
      CellKeys(cells);
      assert Elements(addrs[..|addrs|]) == CellBlocks(cells).Keys;
      KFree(list);
    }

    method FindRegistration(dynId: nat) returns (i: nat)
      requires Linked()
      ensures i <= |view| && forall k :: 0 <= k < i ==> view[k].dynId != dynId
      ensures i < |view| ==> view[i].dynId == dynId
    {
      i := 0;
      while i < |dynamicRegistrations|
        invariant i <= |view| && forall k :: 0 <= k < i ==> view[k].dynId != dynId
      {
        RegistrationBlock(heap, extra, view, i);
        if heap[dynamicRegistrations[i]].dynId == dynId {
          return;
        }
        i := i + 1;
      }
    }

    /** Removes the registration with the id, if there is one and its own unregister function does not refuse. What a
        registration of service 0x2C leaves behind is its node in the id list. */
    method UnregisterEventHandler(dynId: nat) returns (result: int)
      requires Linked()
      modifies this`heap, this`extra, this`view, this`dynamicRegistrations
      ensures Linked()
      ensures (forall i :: 0 <= i < |old(view)| ==> old(view)[i].dynId != dynId) ==>
                result == ENOENT && view == old(view) && heap == old(heap) && extra == old(extra)
      ensures forall i :: 0 <= i < |old(view)| && old(view)[i].dynId == dynId ==> Unregistered(i, result)
    {
      var i := FindRegistration(dynId);
      if i == |dynamicRegistrations| {
        return ENOENT;
      }
      result := UnlinkRegistration(i);
    }

    /** The effect of removing registration i. */
    twostate predicate Unregistered(i: nat, result: int)
      requires i < |old(view)|
      reads this
    {
      var n := old(view)[i];
      if n.ForeignNode? && n.reg.Foreign? && n.reg.onUnregister < 0 then
        result == n.reg.onUnregister && view == old(view) && heap == old(heap) && extra == old(extra)
        && dynamicRegistrations == old(dynamicRegistrations)
      else
        result == 0 && view == Without(old(view), i)
        && extra == (if n.OwnedNode? then old(extra)[n.item := IdBlock(n.dynId)] else old(extra))
    }

    method UnlinkRegistration(i: nat) returns (result: int)
      requires Linked() && i < |view|
      modifies this`heap, this`extra, this`view, this`dynamicRegistrations
      ensures Linked() && Unregistered(i, result)
    {
      ghost var n, others := view[i], extra;
      TakeOut(heap, extra, view, i);
      var addr := dynamicRegistrations[i];
      var reg := heap[addr].reg;
      if reg.Foreign? && reg.onUnregister < 0 {
        return reg.onUnregister;
      }
      view, extra := Without(view, i), extra + Blocks(n);
      FreeRegistration(n, addr, others);
      dynamicRegistrations := Without(dynamicRegistrations, i);
      return 0;
    }

    method FreeRegistration(ghost n: Node, addr: Addr, ghost others: Heap)
      requires Represents(heap, extra, view) && Separate(n) && addr == n.addr
      requires addr in heap && heap[addr] == RegBlock(n.dynId, KindOf(n)) && addr in Blocks(n)
      requires n.ForeignNode? ==> Blocks(n).Keys == {addr}
      requires Blocks(n).Keys !! others.Keys && extra == others + Blocks(n)
      modifies this`heap, this`extra
      ensures Represents(heap, extra, view)
      ensures extra == if n.OwnedNode? then others[n.item := IdBlock(n.dynId)] else others
    {
      var reg := heap[addr].reg;
      if reg.Owned? {
        FreeOwned(n, addr, reg.list, others);
      } else {
        KFree(addr);
        assert extra == others;
      }
    }

    /** Frees what a registration of service 0x2C consists of, but for its node in the id list. */
    method FreeOwned(ghost n: Node, addr: Addr, list: Addr, ghost others: Heap)
      requires Represents(heap, extra, view) && n.OwnedNode? && Separate(n) && addr == n.addr && list == n.list
      requires Blocks(n).Keys !! others.Keys && extra == others + Blocks(n)
      modifies this`heap, this`extra
      ensures Represents(heap, extra, view) && extra == others[n.item := IdBlock(n.dynId)]
    {
      PartsOf(n);
      FreeIdentifier(list, n.cells);
      CellKeys(n.cells);
      KFree(addr);
      LeftOver(others, n);
    }
  }

  lemma TakeOut(heap: Heap, extra: Heap, view: seq<Node>, i: nat)
    requires Represents(heap, extra, view) && Registered(view) && i < |view|
    ensures var n := view[i];
            && Separate(n) && n.addr in heap && heap[n.addr] == RegBlock(n.dynId, KindOf(n))
            && n.addr in Blocks(n) && (n.ForeignNode? ==> Blocks(n).Keys == {n.addr})
            && Blocks(n).Keys !! extra.Keys
    ensures Represents(heap, extra + Blocks(view[i]), Without(view, i))
    ensures Registered(Without(view, i)) && RegAddrs(Without(view, i)) == Without(RegAddrs(view), i)
  {
    NodeWithin(heap, extra, view, i);
    RegistrationBlock(heap, extra, view, i);
    ExtraApart(heap, extra, view, i);
    Disown(heap, extra, view, i);
    WithoutRegistered(view, i);
  }

  lemma AdoptForeign(heap: Heap, view: seq<Node>, n: Node)
    requires n.ForeignNode? && n.reg.Foreign? && Registered(view) && n.dynId == FirstFree(DynIds(view), 1) != 0
    requires Represents(heap, Blocks(n), view)
    ensures Represents(heap, map[], view + [n]) && Registered(view + [n])
    ensures RegAddrs(view + [n]) == RegAddrs(view) + [n.addr] && OwnedOnly(view + [n]) == OwnedOnly(view)
  {
    AdoptLast(heap, view, n);
    AppendRegistered(view, n);
    OwnedSnoc(view, n);
  }

  lemma AppendRegistered(view: seq<Node>, n: Node)
    requires Registered(view) && n.dynId == FirstFree(DynIds(view), 1) != 0
    requires n.OwnedNode? ==> forall i :: 0 <= i < |view| && view[i].OwnedNode? ==> view[i].dataId != n.dataId
    ensures Registered(view + [n]) && RegAddrs(view + [n]) == RegAddrs(view) + [n.addr]
  {
    forall i | 0 <= i < |view|
      ensures view[i].dynId != n.dynId
    {
      assert DynIds(view)[i] == view[i].dynId;
    }
  }

  lemma WithoutRegistered(view: seq<Node>, i: nat)
    requires Registered(view) && i < |view|
    ensures Registered(Without(view, i)) && RegAddrs(Without(view, i)) == Without(RegAddrs(view), i)
  {
    var rest := Without(view, i);
    assert forall k :: 0 <= k < |rest| ==> rest[k] == view[if k < i then k else k + 1];
  }

  lemma PartsOf(n: Node)
    requires n.OwnedNode? && Separate(n)
    ensures var b := Blocks(n);
            && n.list in b && b[n.list] == ListBlock(CellAddrs(n.cells))
            && n.addr in b && n.item in b && b[n.item] == IdBlock(n.dynId)
            && forall k :: 0 <= k < |n.cells| ==> n.cells[k].addr in b
  {
  }

  lemma LeftOver(extra: Heap, n: Node)
    requires n.OwnedNode? && Separate(n) && Blocks(n).Keys !! extra.Keys
    ensures extra + Blocks(n) - CellBlocks(n.cells).Keys - {n.list} - {n.addr} == extra[n.item := IdBlock(n.dynId)]
  {
    CellKeys(n.cells);
  }

  // ---- every reachable registry ------------------------------------------------------------------------------

  /** The ids of the registrations under registering and unregistering. */
  datatype IdOp = TakeId | DropId(id: nat)

  function OnIds(ids: seq<nat>, op: IdOp): seq<nat>
  {
    match op
    case TakeId => var id := FirstFree(ids, 1); if id == 0 then ids else ids + [id]
    case DropId(id) => Dropped(ids, id)
  }

  function IsId(id: nat): nat -> bool
  {
    (k: nat) => k == id
  }

  function Dropped(ids: seq<nat>, id: nat): seq<nat>
  {
    WithoutFirst(ids, IsId(id))
  }

  /** What the instance does to its list of ids is what OnIds says. */
  lemma WithoutIsDropped(ids: seq<nat>, i: nat)
    requires i < |ids| && forall k :: 0 <= k < i ==> ids[k] != ids[i]
    ensures Dropped(ids, ids[i]) == Without(ids, i)
  {
    WithoutFirstAt(ids, IsId(ids[i]), i);
  }

  lemma UnregisterDropsId(view: seq<Node>, i: nat)
    requires Registered(view) && i < |view|
    ensures DynIds(Without(view, i)) == OnIds(DynIds(view), DropId(view[i].dynId))
  {
    WithoutIsDropped(DynIds(view), i);
    assert DynIds(Without(view, i)) == Without(DynIds(view), i);
  }

  lemma RegisterTakesId(view: seq<Node>, n: Node)
    requires n.dynId == FirstFree(DynIds(view), 1) != 0
    ensures DynIds(view + [n]) == OnIds(DynIds(view), TakeId)
  {
  }

  function IdsAfter(ops: seq<IdOp>): seq<nat>
  {
    if ops == [] then [] else OnIds(IdsAfter(ops[..|ops| - 1]), ops[|ops| - 1])
  }

  lemma DroppedNoRepeats(ids: seq<nat>, id: nat)
    requires NoRepeats(ids)
    ensures NoRepeats(Dropped(ids, id)) && id !in Dropped(ids, id)
    ensures forall k :: k in ids && k != id ==> k in Dropped(ids, id)
  {
    if id in ids {
      var i :| 0 <= i < |ids| && ids[i] == id;
      WithoutIsDropped(ids, i);
      WithoutAt(ids, i);
      forall k | k in ids && k != id
        ensures k in Without(ids, i)
      {
        var j :| 0 <= j < |ids| && ids[j] == k;
        assert Without(ids, i)[if j < i then j else j - 1] == k;
      }
    } else {
      WithoutFirstMisses(ids, IsId(id));
    }
  }

  /** In every reachable registry the ids are pairwise distinct, none is zero, and none exceeds the largest number of
      registrations there has been. */
  lemma {:induction false} ReachableIdsDistinct(ops: seq<IdOp>)
    ensures NoRepeats(IdsAfter(ops)) && |IdsAfter(ops)| <= |ops|
    ensures forall id :: id in IdsAfter(ops) ==> 1 <= id <= UINT32_MAX && id <= |ops|
    decreases |ops|
  {
    if ops != [] {
      var ids := IdsAfter(ops[..|ops| - 1]);
      ReachableIdsDistinct(ops[..|ops| - 1]);
      match ops[|ops| - 1]
      case TakeId => FewCandidates(ids);
      case DropId(id) => DroppedNoRepeats(ids, id);
    }
  }

  /** Registering and then unregistering the id that was given restores the list; so does registering again. */
  lemma RegisterThenUnregister(ids: seq<nat>)
    requires FirstFree(ids, 1) != 0
    ensures OnIds(OnIds(ids, TakeId), DropId(FirstFree(ids, 1))) == ids
  {
    var id := FirstFree(ids, 1);
    assert (ids + [id])[|ids|] == id;
    WithoutIsDropped(ids + [id], |ids|);
    assert Without(ids + [id], |ids|) == ids;
  }
}
