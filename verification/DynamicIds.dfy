/** Service 0x2C, DynamicallyDefineDataIdentifier (section 11.6 of ISO 14229-1:2020): defining and clearing
    identifiers at run time (lib/uds/dynamically_define_data_ids.c). */
module DynamicIds {
  import opened Iso14229
  import opened Sequences
  import opened UdsDispatch
  import opened RegistryHeap
  import opened Registry

  // ---- what the lists mean: an ordered map from identifiers to entries ---------------------------------------

  datatype Definition = Definition(id: DataId, entries: seq<Entry>)

  function Entries(cells: seq<Cell>): (r: seq<Entry>)
    ensures |r| == |cells| && forall i :: 0 <= i < |cells| ==> r[i] == cells[i].entry
  {
    seq(|cells|, i requires 0 <= i < |cells| => cells[i].entry)
  }

  function DefinitionOf(n: Node): Definition
    requires n.OwnedNode?
  {
    Definition(n.dataId, Entries(n.cells))
  }

  function Definitions(owned: seq<Node>): (r: seq<Definition>)
    requires forall i :: 0 <= i < |owned| ==> owned[i].OwnedNode?
    ensures |r| == |owned| && forall i :: 0 <= i < |owned| ==> r[i] == DefinitionOf(owned[i])
  {
    seq(|owned|, i requires 0 <= i < |owned| => DefinitionOf(owned[i]))
  }

  function Lookup(defs: seq<Definition>, id: DataId): Option<seq<Entry>>
  {
    if defs == [] then None else if defs[0].id == id then Some(defs[0].entries) else Lookup(defs[1..], id)
  }

  /** Appends to the entries of an identifier, or adds the identifier at the end. */
  function Define(defs: seq<Definition>, id: DataId, e: Entry): seq<Definition>
  {
    if defs == [] then [Definition(id, [e])]
    else if defs[0].id == id then [Definition(id, defs[0].entries + [e])] + defs[1..]
    else [defs[0]] + Define(defs[1..], id, e)
  }

  /** What a failed append leaves of an identifier: its entries are gone. */
  function Emptied(defs: seq<Definition>, id: DataId): seq<Definition>
  {
    if defs == [] then []
    else if defs[0].id == id then [Definition(id, [])] + defs[1..]
    else [defs[0]] + Emptied(defs[1..], id)
  }

  function Clear(defs: seq<Definition>, id: DataId): seq<Definition>
  {
    if defs == [] then [] else if defs[0].id == id then defs[1..] else [defs[0]] + Clear(defs[1..], id)
  }

  ghost predicate DistinctIds(defs: seq<Definition>)
  {
    forall i, j :: 0 <= i < j < |defs| ==> defs[i].id != defs[j].id
  }

  // ---- the laws of the ordered map ---------------------------------------------------------------------------

  lemma {:induction false} DefineLaws(defs: seq<Definition>, id: DataId, e: Entry, other: DataId)
    requires DistinctIds(defs)
    ensures DistinctIds(Define(defs, id, e))
    ensures forall i :: 0 <= i < |Define(defs, id, e)| ==>
              Define(defs, id, e)[i].id == id || exists k :: 0 <= k < |defs| && defs[k].id == Define(defs, id, e)[i].id
    ensures Lookup(Define(defs, id, e), id) == Some((if Lookup(defs, id).Some? then Lookup(defs, id).value else []) + [e])
    ensures other != id ==> Lookup(Define(defs, id, e), other) == Lookup(defs, other)
    decreases |defs|
  {
    if defs != [] && defs[0].id != id {
      DefineLaws(defs[1..], id, e, other);
      assert Define(defs, id, e)[1..] == Define(defs[1..], id, e);
    } else if defs == [] {
      assert [e] == [] + [e];
    } else {
      assert Define(defs, id, e)[1..] == defs[1..];
    }
  }

  lemma {:induction false} EmptiedLaws(defs: seq<Definition>, id: DataId, other: DataId)
    requires DistinctIds(defs)
    ensures DistinctIds(Emptied(defs, id)) && |Emptied(defs, id)| == |defs|
    ensures forall i :: 0 <= i < |defs| ==> Emptied(defs, id)[i].id == defs[i].id
    ensures Lookup(Emptied(defs, id), id) == if Lookup(defs, id).Some? then Some([]) else None
    ensures other != id ==> Lookup(Emptied(defs, id), other) == Lookup(defs, other)
    decreases |defs|
  {
    if defs != [] && defs[0].id != id {
      EmptiedLaws(defs[1..], id, other);
      assert Emptied(defs, id)[1..] == Emptied(defs[1..], id);
    } else if defs != [] {
      assert Emptied(defs, id)[1..] == defs[1..];
    }
  }

  lemma {:induction false} LookupMiss(defs: seq<Definition>, id: DataId)
    ensures Lookup(defs, id).None? <==> forall i :: 0 <= i < |defs| ==> defs[i].id != id
    decreases |defs|
  {
    if defs != [] {
      LookupMiss(defs[1..], id);
    }
  }

  lemma {:induction false} ClearLaws(defs: seq<Definition>, id: DataId, other: DataId)
    requires DistinctIds(defs)
    ensures DistinctIds(Clear(defs, id))
    ensures forall d :: d in Clear(defs, id) <==> d in defs && d.id != id
    ensures Lookup(Clear(defs, id), id) == None
    ensures other != id ==> Lookup(Clear(defs, id), other) == Lookup(defs, other)
    decreases |defs|
  {
    LookupMiss(Clear(defs, id), id);
    if defs != [] && defs[0].id != id {
      ClearLaws(defs[1..], id, other);
      LookupMiss(Clear(defs[1..], id), id);
      assert defs == [defs[0]] + defs[1..];
      assert Clear(defs, id)[1..] == Clear(defs[1..], id);
    } else if defs != [] {
      assert defs == [defs[0]] + defs[1..];
    }
  }

  // ---- runs ----------------------------------------------------------------------------------------------------

  datatype Op = DefineOp(id: DataId, e: Entry) | FailedAppend(id: DataId) | ClearOp(id: DataId) | ClearAllOp

  function OnDefinitions(defs: seq<Definition>, op: Op): seq<Definition>
  {
    match op
    case DefineOp(id, e) => Define(defs, id, e)
    case FailedAppend(id) => Emptied(defs, id)
    case ClearOp(id) => Clear(defs, id)
    case ClearAllOp => []
  }

  function After(ops: seq<Op>): seq<Definition>
  {
    if ops == [] then [] else OnDefinitions(After(ops[..|ops| - 1]), ops[|ops| - 1])
  }

  /** The meaning of one identifier, said without the others: nothing until it is defined and after it is cleared;
      otherwise the entries defined since the last failed append. */
  function Meaning(ops: seq<Op>, id: DataId): Option<seq<Entry>>
  {
    if ops == [] then None
    else
      var before := Meaning(ops[..|ops| - 1], id);
      match ops[|ops| - 1]
      case DefineOp(i, e) => if i == id then Some((if before.Some? then before.value else []) + [e]) else before
      case FailedAppend(i) => if i == id && before.Some? then Some([]) else before
      case ClearOp(i) => if i == id then None else before
      case ClearAllOp => None
  }

  /** In every run each identifier means what its own requests made of it, whatever happened to the others. */
  lemma {:induction false} EveryRunMeans(ops: seq<Op>, id: DataId)
    ensures DistinctIds(After(ops)) && Lookup(After(ops), id) == Meaning(ops, id)
    decreases |ops|
  {
    if ops != [] {
      EveryRunMeans(ops[..|ops| - 1], id);
      var defs := After(ops[..|ops| - 1]);
      match ops[|ops| - 1]
      case DefineOp(i, e) => DefineLaws(defs, i, e, id);
      case FailedAppend(i) => EmptiedLaws(defs, i, id);
      case ClearOp(i) => ClearLaws(defs, i, id);
      case ClearAllOp =>
    }
  }

  // ---- positions -------------------------------------------------------------------------------------------------

  lemma {:induction false} DefineAt(defs: seq<Definition>, id: DataId, e: Entry, k: nat)
    requires DistinctIds(defs) && k < |defs| && defs[k].id == id
    ensures Define(defs, id, e) == defs[k := Definition(id, defs[k].entries + [e])]
    decreases k
  {
    if k > 0 {
      DefineAt(defs[1..], id, e, k - 1);
      assert defs == [defs[0]] + defs[1..];
    }
  }

  lemma {:induction false} RemoveAt(defs: seq<Definition>, id: DataId, k: nat)
    requires DistinctIds(defs) && k < |defs| && defs[k].id == id
    ensures Emptied(defs, id) == defs[k := Definition(id, [])]
    ensures Clear(defs, id) == Without(defs, k)
    decreases k
  {
    if k > 0 {
      RemoveAt(defs[1..], id, k - 1);
      assert defs == [defs[0]] + defs[1..];
      assert Without(defs, k) == [defs[0]] + Without(defs[1..], k - 1);
    } else {
      assert Without(defs, 0) == defs[1..];
    }
  }

  lemma {:induction false} DefineMissing(defs: seq<Definition>, id: DataId, e: Entry)
    requires forall i :: 0 <= i < |defs| ==> defs[i].id != id
    ensures Define(defs, id, e) == defs + [Definition(id, [e])]
    ensures Emptied(defs, id) == defs && Clear(defs, id) == defs
    decreases |defs|
  {
    if defs != [] {
      DefineMissing(defs[1..], id, e);
    }
  }

  /** The definitions an instance holds, in the order in which they were first made. */
  function Held(view: seq<Node>): seq<Definition>
  {
    Definitions(OwnedOnly(view))
  }

  lemma {:induction false} HeldIds(view: seq<Node>)
    requires Registered(view)
    ensures DistinctIds(Held(view))
    ensures forall k :: 0 <= k < |OwnedOnly(view)| ==> OwnedOnly(view)[k] in view
    decreases |view|
  {
    if view != [] {
      HeldIds(view[..|view| - 1]);
    }
  }

  lemma HeldMisses(view: seq<Node>, id: DataId)
    requires Registered(view) && forall i :: 0 <= i < |view| && view[i].OwnedNode? ==> view[i].dataId != id
    ensures forall k :: 0 <= k < |Held(view)| ==> Held(view)[k].id != id
  {
    HeldIds(view);
  }

  lemma HeldAt(view: seq<Node>, i: nat, n: Node)
    requires i < |view| && view[i].OwnedNode? && n.OwnedNode?
    ensures var k := |OwnedOnly(view[..i])|;
            && k < |Held(view)| && Held(view)[k] == DefinitionOf(view[i])
            && Held(view[i := n]) == Held(view)[k := DefinitionOf(n)]
            && Held(Without(view, i)) == Without(Held(view), k)
  {
    OwnedAt(view, i, n);
  }

  /** What appending to, emptying and removing one registration does to the definitions. */
  lemma HeldChanges(view: seq<Node>, i: nat, c: Cell)
    requires Registered(view) && i < |view| && view[i].OwnedNode?
    ensures var n := view[i];
            && Held(view[i := n.(cells := n.cells + [c])]) == Define(Held(view), n.dataId, c.entry)
            && Held(view[i := n.(cells := [])]) == Emptied(Held(view), n.dataId)
            && Held(Without(view, i)) == Clear(Held(view), n.dataId)
  {
    var n := view[i];
    HeldIds(view);
    HeldAt(view, i, n.(cells := n.cells + [c]));
    HeldAt(view, i, n.(cells := []));
    DefineAt(Held(view), n.dataId, c.entry, |OwnedOnly(view[..i])|);
    RemoveAt(Held(view), n.dataId, |OwnedOnly(view[..i])|);
    assert Entries(n.cells + [c]) == Entries(n.cells) + [c.entry];
    assert Entries([]) == [];
  }

  lemma HeldGrows(view: seq<Node>, n: Node, e: Entry)
    requires Registered(view) && n.OwnedNode? && Entries(n.cells) == [e]
    requires forall i :: 0 <= i < |view| && view[i].OwnedNode? ==> view[i].dataId != n.dataId
    ensures Held(view + [n]) == Define(Held(view), n.dataId, e)
  {
    OwnedSnoc(view, n);
    HeldMisses(view, n.dataId);
    DefineMissing(Held(view), n.dataId, e);
  }

  // ---- the handler -----------------------------------------------------------------------------------------------

  /** Which of the allocations of one request succeed. */
  datatype Allocations = Allocations(list: bool, temp: bool, data: bool, reg: bool, item: bool)

  lemma OwnedInView(view: seq<Node>, k: nat) returns (i: nat)
    requires Registered(view) && k < |OwnedOnly(view)|
    ensures i < |view| && view[i] == OwnedOnly(view)[k]
  {
    HeldIds(view);
    i :| 0 <= i < |view| && view[i] == OwnedOnly(view)[k];
  }

  /** The id list names exactly the registrations of service 0x2C. */
  method IsListed(inst: Instance, dynId: nat) returns (listed: bool)
    requires inst.Valid()
    ensures listed <==> exists i :: 0 <= i < |inst.view| && inst.view[i].OwnedNode? && inst.view[i].dynId == dynId
  {
    ghost var owned := OwnedOnly(inst.view);
    var k := 0;
    while k < |inst.idList|
      invariant k <= |owned| && forall j :: 0 <= j < k ==> owned[j].dynId != dynId
    {
      ghost var i := OwnedInView(inst.view, k);
      OwnedBlocks(inst.heap, inst.extra, inst.view, i);
      if inst.heap[inst.idList[k]].id == dynId {
        return true;
      }
      k := k + 1;
    }
    forall i | 0 <= i < |inst.view| && inst.view[i].OwnedNode?
      ensures inst.view[i].dynId != dynId
    {
      OwnedAt(inst.view, i, inst.view[i]);
    }
    return false;
  }

  /** The registration of an identifier this handler defined before. */
  method FindExisting(inst: Instance, dataId: DataId) returns (i: nat)
    requires inst.Valid()
    ensures i <= |inst.view|
    ensures i < |inst.view| ==> inst.view[i].OwnedNode? && inst.view[i].dataId == dataId
    ensures i == |inst.view| ==>
              forall j :: 0 <= j < |inst.view| && inst.view[j].OwnedNode? ==> inst.view[j].dataId != dataId
  {
    i := 0;
    while i < |inst.dynamicRegistrations|
      invariant i <= |inst.view|
      invariant forall j :: 0 <= j < i && inst.view[j].OwnedNode? ==> inst.view[j].dataId != dataId
    {
      RegistrationBlock(inst.heap, inst.extra, inst.view, i);
      var block := inst.heap[inst.dynamicRegistrations[i]];
      if (block.reg.Owned? || block.reg.isDataId) && block.reg.dataId == dataId {
        var listed := IsListed(inst, block.dynId);
        if listed {
          return;
        }
      }
      i := i + 1;
    }
  }

  /** The cells of a list whose blocks lie in `extra`. */
  ghost predicate ListIn(extra: Heap, list: Addr, cells: seq<Cell>)
  {
    && list in extra && extra[list] == ListBlock(CellAddrs(cells))
    && NoRepeats(CellAddrs(cells)) && list !in CellAddrs(cells)
    && forall k :: 0 <= k < |cells| ==> cells[k].addr in extra
  }

  /** The heap after the first k entries of a list were unlinked and freed. */
  ghost function Shrunk(h: Heap, list: Addr, addrs: seq<Addr>, k: nat): Heap
    requires k <= |addrs|
  {
    (h - Elements(addrs[..k]))[list := ListBlock(addrs[k..])]
  }

  lemma ShrinkOne(h: Heap, list: Addr, addrs: seq<Addr>, k: nat)
    requires k < |addrs| && NoRepeats(addrs) && list !in addrs
    requires forall j :: 0 <= j < |addrs| ==> addrs[j] in h
    ensures addrs[k] in Shrunk(h, list, addrs, k) && list in Shrunk(h, list, addrs, k)
    ensures Shrunk(h, list, addrs, k)[list := ListBlock(addrs[k + 1..])] - {addrs[k]} == Shrunk(h, list, addrs, k + 1)
  {
    assert addrs[k] !in addrs[..k];
    assert Elements(addrs[..k + 1]) == Elements(addrs[..k]) + {addrs[k]};
  }

  lemma ShrunkAll(h: Heap, list: Addr, cells: seq<Cell>)
    ensures Shrunk(h, list, CellAddrs(cells), |cells|) == (h - CellBlocks(cells).Keys)[list := ListBlock([])]
  {
    CellKeys(cells);
    assert CellAddrs(cells)[..|cells|] == CellAddrs(cells);
    assert CellBlocks(cells).Keys == Elements(CellAddrs(cells));
    assert CellAddrs(cells)[|cells|..] == [];
  }

  /** The error path of the append functions. */
  method DropEntries(inst: Instance, list: Addr, ghost cells: seq<Cell>)
    requires Represents(inst.heap, inst.extra, inst.view) && ListIn(inst.extra, list, cells)
    modifies inst`heap, inst`extra
    ensures Represents(inst.heap, inst.extra, inst.view)
    ensures inst.extra == (old(inst.extra) - CellBlocks(cells).Keys)[list := ListBlock([])]
    ensures cells == [] ==> inst.heap == old(inst.heap)
  {
    Free(inst.heap, inst.extra, inst.view, list);
    var addrs := inst.heap[list].cells;
    assert addrs[0..] == addrs && addrs[..|addrs|] == addrs;
    for k := 0 to |addrs|
      invariant Represents(inst.heap, inst.extra, inst.view)
      invariant inst.extra == Shrunk(old(inst.extra), list, addrs, k)
      invariant k == 0 ==> inst.heap == old(inst.heap)
    {
      assert addrs[k] == cells[k].addr;
      ShrinkOne(old(inst.extra), list, addrs, k);
      inst.Store(list, ListBlock(addrs[k + 1..]));
      inst.KFree(addrs[k]);
    }
    ShrunkAll(old(inst.extra), list, cells);
  }

  /** Appends an entry to a list; when there is no memory for it, the list loses all it had. */
  method AppendEntry(inst: Instance, list: Addr, ghost cells: seq<Cell>, entry: Entry, ok: bool)
    returns (nrc: Nrc, ghost cell: Cell)
    requires Represents(inst.heap, inst.extra, inst.view) && ListIn(inst.extra, list, cells)
    modifies inst`heap, inst`extra
    ensures Represents(inst.heap, inst.extra, inst.view)
    ensures nrc == (if ok then Positive else GeneralReject) && cell.entry == entry
    ensures ok ==> && cell.addr !in old(inst.heap)
                   && inst.extra == old(inst.extra)[cell.addr := DataBlock(entry)]
                                                   [list := ListBlock(CellAddrs(cells + [cell]))]
                   && inst.heap == old(inst.heap)[cell.addr := DataBlock(entry)]
                                                 [list := ListBlock(CellAddrs(cells + [cell]))]
    ensures !ok ==> inst.extra == (old(inst.extra) - CellBlocks(cells).Keys)[list := ListBlock([])]
    ensures !ok && cells == [] ==> inst.heap == old(inst.heap)
  {
    cell := Cell(0, entry);
    Free(inst.heap, inst.extra, inst.view, list);
    var addrs := inst.heap[list].cells;
    var data := inst.Malloc(DataBlock(entry), ok);
    if data.None? {
      DropEntries(inst, list, cells);
      return GeneralReject, cell;
    }
    cell := Cell(data.value, entry);
    assert CellAddrs(cells + [cell]) == addrs + [data.value];
    inst.Store(list, ListBlock(addrs + [data.value]));
    return Positive, cell;
  }
}
