/** The requests of service 0x2C against the instance: what each does to the definitions, to the registrations of
    others and to the heap (lib/uds/dynamically_define_data_ids.c). */
module DynamicIdRequests {
  import opened Iso14229
  import opened Sequences
  import opened UdsDispatch
  import opened RegistryHeap
  import opened Registry
  import opened DynamicIds

  // ---- one registration gains or loses entries ----------------------------------------------------------------

  lemma CellBlocksSnoc(cells: seq<Cell>, c: Cell)
    ensures CellBlocks(cells + [c]) == CellBlocks(cells)[c.addr := DataBlock(c.entry)]
    ensures CellAddrs(cells + [c]) == CellAddrs(cells) + [c.addr]
  {
    assert (cells + [c])[..|cells|] == cells;
  }

  lemma OneMoreBlock(m: Heap, a: Addr, r: Block, l: Addr, b: Block, b': Block, i: Addr, t: Block, c: Addr, d: Block)
    requires c != a && c != l && c != i && a != l && i != l
    ensures m[c := d][a := r][l := b'][i := t] == m[a := r][l := b][i := t][c := d][l := b']
  {
  }

  lemma BlocksWithCell(n: Node, c: Cell)
    requires n.OwnedNode? && Separate(n) && c.addr !in Blocks(n)
    ensures Separate(n.(cells := n.cells + [c]))
    ensures Blocks(n.(cells := n.cells + [c]))
            == Blocks(n)[c.addr := DataBlock(c.entry)][n.list := ListBlock(CellAddrs(n.cells + [c]))]
  {
    CellKeys(n.cells);
    CellBlocksSnoc(n.cells, c);
    assert c.addr !in CellAddrs(n.cells) by {
      assert CellBlocks(n.cells).Keys <= Blocks(n).Keys;
    }
    OneMoreBlock(CellBlocks(n.cells), n.addr, RegBlock(n.dynId, Owned(n.dataId, n.list)), n.list,
                 ListBlock(CellAddrs(n.cells)), ListBlock(CellAddrs(n.cells + [c])), n.item, IdBlock(n.dynId),
                 c.addr, DataBlock(c.entry));
  }

  lemma FewerBlocks(m: Heap, a: Addr, r: Block, l: Addr, b: Block, b': Block, i: Addr, t: Block)
    requires a !in m && l !in m && i !in m && a != l && i != l
    ensures (m[a := r][l := b][i := t] - m.Keys)[l := b'] == map[a := r][l := b'][i := t]
  {
  }

  lemma BlocksWithoutCells(n: Node)
    requires n.OwnedNode? && Separate(n)
    ensures var n' := n.(cells := []);
            Separate(n') && Blocks(n') == (Blocks(n) - CellBlocks(n.cells).Keys)[n.list := ListBlock([])]
  {
    CellKeys(n.cells);
    assert CellAddrs([]) == [];
    FewerBlocks(CellBlocks(n.cells), n.addr, RegBlock(n.dynId, Owned(n.dataId, n.list)), n.list,
                ListBlock(CellAddrs(n.cells)), ListBlock([]), n.item, IdBlock(n.dynId));
  }

  predicate SameButCells(n: Node, n': Node)
  {
    n.OwnedNode? && n'.OwnedNode? && n' == n.(cells := n'.cells)
  }

  lemma LinksKept(view: seq<Node>, i: nat, n: Node)
    requires i < |view| && Registered(view) && SameButCells(view[i], n)
    ensures Registered(view[i := n]) && RegAddrs(view[i := n]) == RegAddrs(view)
    ensures ItemAddrs(OwnedOnly(view[i := n])) == ItemAddrs(OwnedOnly(view))
    ensures ForeignOnly(view[i := n]) == ForeignOnly(view)
  {
    OwnedAt(view, i, n);
    ForeignUntouched(view, i, n);
  }

  /** Taking registration i apart for a change to its list. */
  lemma TakeApart(heap: Heap, view: seq<Node>, i: nat)
    requires Represents(heap, map[], view) && i < |view| && view[i].OwnedNode?
    ensures var n := view[i];
            && Represents(heap, Blocks(n), Without(view, i)) && Separate(n) && Within(Blocks(n), heap)
            && n.addr in heap && heap[n.addr] == RegBlock(n.dynId, Owned(n.dataId, n.list))
            && ListIn(Blocks(n), n.list, n.cells)
  {
    Disown(heap, map[], view, i);
    assert map[] + Blocks(view[i]) == Blocks(view[i]);
    NodeWithin(heap, map[], view, i);
    RegistrationBlock(heap, map[], view, i);
    PartsOf(view[i]);
  }

  /** Putting registration i together again, with one entry more or with none. */
  lemma PutTogether(heap: Heap, extra: Heap, view: seq<Node>, i: nat, cell: Cell, ok: bool) returns (n': Node)
    requires i < |view| && Registered(view) && view[i].OwnedNode? && Separate(view[i])
    requires Represents(heap, extra, Without(view, i))
    requires var n := view[i];
             if ok then
               && cell.addr !in Blocks(n)
               && extra == Blocks(n)[cell.addr := DataBlock(cell.entry)]
                                    [n.list := ListBlock(CellAddrs(n.cells + [cell]))]
             else extra == (Blocks(n) - CellBlocks(n.cells).Keys)[n.list := ListBlock([])]
    ensures Represents(heap, map[], view[i := n']) && Registered(view[i := n'])
    ensures RegAddrs(view[i := n']) == RegAddrs(view)
    ensures ItemAddrs(OwnedOnly(view[i := n'])) == ItemAddrs(OwnedOnly(view))
    ensures ForeignOnly(view[i := n']) == ForeignOnly(view)
    ensures Held(view[i := n']) == if ok then Define(Held(view), view[i].dataId, cell.entry)
                                   else Emptied(Held(view), view[i].dataId)
  {
    var n := view[i];
    n' := if ok then n.(cells := n.cells + [cell]) else n.(cells := []);
    if ok {
      BlocksWithCell(n, cell);
    } else {
      BlocksWithoutCells(n);
    }
    ReplaceLast(heap, view, i, n');
    LinksKept(view, i, n');
    HeldChanges(view, i, cell);
  }

  /** The change itself, on a registration taken apart. */
  method AppendApart(inst: Instance, ghost view: seq<Node>, ghost i: nat, list: Addr, entry: Entry, ok: bool)
    returns (nrc: Nrc, ghost view': seq<Node>)
    requires i < |view| && Registered(view) && view[i].OwnedNode? && Separate(view[i]) && list == view[i].list
    requires inst.view == Without(view, i) && inst.extra == Blocks(view[i])
    requires Represents(inst.heap, inst.extra, inst.view) && ListIn(inst.extra, list, view[i].cells)
    requires Within(Blocks(view[i]), inst.heap)
    modifies inst`heap, inst`extra
    ensures nrc == (if ok then Positive else GeneralReject)
    ensures Represents(inst.heap, map[], view') && Registered(view') && RegAddrs(view') == RegAddrs(view)
    ensures ItemAddrs(OwnedOnly(view')) == ItemAddrs(OwnedOnly(view)) && ForeignOnly(view') == ForeignOnly(view)
    ensures Held(view') == if ok then Define(Held(view), view[i].dataId, entry) else Emptied(Held(view), view[i].dataId)
  {
    ghost var cell;
    nrc, cell := AppendEntry(inst, list, view[i].cells, entry, ok);
    ghost var n' := PutTogether(inst.heap, inst.extra, view, i, cell, ok);
    view' := view[i := n'];
  }

  ghost method Detach(inst: Instance, i: nat)
    requires inst.Valid() && i < |inst.view| && inst.view[i].OwnedNode?
    modifies inst`view, inst`extra
    ensures var view := old(inst.view);
            && inst.view == Without(view, i) && inst.extra == Blocks(view[i])
            && Represents(inst.heap, inst.extra, inst.view) && Separate(view[i]) && Within(Blocks(view[i]), inst.heap)
            && ListIn(inst.extra, view[i].list, view[i].cells)
            && view[i].addr in inst.heap
            && inst.heap[view[i].addr] == RegBlock(view[i].dynId, Owned(view[i].dataId, view[i].list))
  {
    TakeApart(inst.heap, inst.view, i);
    inst.view, inst.extra := Without(inst.view, i), Blocks(inst.view[i]);
  }

  /** Defining more of an identifier that exists. When memory runs out its entries are gone, and only they. */
  method AppendToExisting(inst: Instance, i: nat, entry: Entry, ok: bool) returns (nrc: Nrc)
    requires inst.Valid() && i < |inst.view| && inst.view[i].OwnedNode?
    modifies inst
    ensures inst.Valid() && nrc == (if ok then Positive else GeneralReject)
    ensures Held(inst.view) == if ok then Define(old(Held(inst.view)), old(inst.view)[i].dataId, entry)
                               else Emptied(old(Held(inst.view)), old(inst.view)[i].dataId)
    ensures ForeignOnly(inst.view) == old(ForeignOnly(inst.view))
  {
    ghost var view := inst.view;
    Detach(inst, i);
    var list := inst.heap[inst.dynamicRegistrations[i]].reg.list;
    ghost var view';
    nrc, view' := AppendApart(inst, view, i, list, entry, ok);
    inst.Settle(view');
  }

  // ---- a new registration ---------------------------------------------------------------------------------------

  predicate Apart(a: Addr, b: Addr, c: Addr, d: Addr, e: Addr)
  {
    && a != b && a != c && a != d && a != e
    && b != c && b != d && b != e
    && c != d && c != e
    && d != e
  }

  /** What lies in `extra` before a new identifier is linked: list, temporary registration and entry. */
  ghost function Prepared(dataId: DataId, list: Addr, temp: Addr, cell: Cell): Heap
  {
    map[list := ListBlock([cell.addr])][temp := RegBlock(0, Owned(dataId, list))][cell.addr := DataBlock(cell.entry)]
  }

  lemma NewBlocks(n: Node, cell: Cell, temp: Addr)
    requires n.OwnedNode? && n.cells == [cell] && Apart(n.addr, n.list, n.item, cell.addr, temp)
    ensures Separate(n)
    ensures Prepared(n.dataId, n.list, temp, cell)[n.addr := RegBlock(n.dynId, Owned(n.dataId, n.list))]
                                                  [n.item := IdBlock(n.dynId)] - {temp} == Blocks(n)
  {
    assert CellAddrs(n.cells) == [cell.addr];
    assert n.cells[..0] == [];
    assert CellBlocks(n.cells) == map[cell.addr := DataBlock(cell.entry)];
  }

  /** Everything a new identifier needs lies in `extra`, with the temporary copy of its registration. */
  lemma AdoptNew(heap: Heap, extra: Heap, view: seq<Node>, n: Node, cell: Cell, temp: Addr)
    requires Represents(heap, extra, view) && Registered(view)
    requires n.OwnedNode? && n.cells == [cell] && Apart(n.addr, n.list, n.item, cell.addr, temp)
    requires n.dynId == FirstFree(DynIds(view), 1) != 0
    requires forall i :: 0 <= i < |view| && view[i].OwnedNode? ==> view[i].dataId != n.dataId
    requires extra == Prepared(n.dataId, n.list, temp, cell)[n.addr := RegBlock(n.dynId, Owned(n.dataId, n.list))]
                                                            [n.item := IdBlock(n.dynId)]
    ensures Represents(heap - {temp}, map[], view + [n]) && Registered(view + [n])
    ensures RegAddrs(view + [n]) == RegAddrs(view) + [n.addr]
    ensures ItemAddrs(OwnedOnly(view + [n])) == ItemAddrs(OwnedOnly(view)) + [n.item]
    ensures ForeignOnly(view + [n]) == ForeignOnly(view)
    ensures Held(view + [n]) == Define(Held(view), n.dataId, cell.entry)
  {
    NewBlocks(n, cell, temp);
    Free(heap, extra, view, temp);
    AdoptLast(heap - {temp}, view, n);
    AppendRegistered(view, n);
    OwnedSnoc(view, n);
    ForeignUntouched(view, |view|, n);
    assert Entries([cell]) == [cell.entry];
    HeldGrows(view, n, cell.entry);
  }

  /** The list and the temporary registration of an identifier to be. */
  method CreateNewDataIdentifier(inst: Instance, dataId: DataId, a: Allocations)
    returns (made: bool, list: Addr, temp: Addr)
    requires Represents(inst.heap, inst.extra, inst.view)
    modifies inst`heap, inst`extra
    ensures Represents(inst.heap, inst.extra, inst.view) && made == (a.list && a.temp)
    ensures made ==>
              && list !in old(inst.heap) && temp !in old(inst.heap) && list != temp
              && inst.heap == old(inst.heap)[list := ListBlock([])][temp := RegBlock(0, Owned(dataId, list))]
              && inst.extra == old(inst.extra)[list := ListBlock([])][temp := RegBlock(0, Owned(dataId, list))]
    ensures !made ==> inst.heap == old(inst.heap) && inst.extra == old(inst.extra)
  {
    ExtraWithin(inst.heap, inst.extra, inst.view);
    var l := inst.Malloc(ListBlock([]), a.list);
    if l.None? {
      return false, 0, 0;
    }
    list := l.value;
    var t := inst.Malloc(RegBlock(0, Owned(dataId, list)), a.temp);
    if t.None? {
      inst.KFree(list);
      assert inst.heap == old(inst.heap) && inst.extra == old(inst.extra);
      return false, list, 0;
    }
    return true, list, t.value;
  }

  /** What is left in `extra` of a new identifier whose registration was taken back. */
  ghost function TempOnly(dataId: DataId, list: Addr, temp: Addr): Heap
  {
    map[temp := RegBlock(0, Owned(dataId, list))]
  }

  lemma TakenBack(dataId: DataId, list: Addr, temp: Addr, cell: Cell, addr: Addr, b: Block)
    requires list != temp && list != cell.addr && temp != cell.addr && addr !in {list, temp, cell.addr}
    ensures Prepared(dataId, list, temp, cell)[addr := b] - CellBlocks([cell]).Keys - {list} - {addr}
            == TempOnly(dataId, list, temp)
    ensures list in Prepared(dataId, list, temp, cell)[addr := b]
            && Prepared(dataId, list, temp, cell)[addr := b][list] == ListBlock(CellAddrs([cell]))
  {
    assert CellAddrs([cell]) == [cell.addr];
    CellKeys([cell]);
  }

  /** The search ends at the registration just linked: its id was free. */
  method FindLinked(inst: Instance, ghost view: seq<Node>, dynId: nat, ghost addr: Addr) returns (i: nat)
    requires Represents(inst.heap, inst.extra, view) && dynId == FirstFree(DynIds(view), 1) != 0
    requires inst.dynamicRegistrations == RegAddrs(view) + [addr]
    requires addr in inst.heap && inst.heap[addr].RegBlock? && inst.heap[addr].dynId == dynId
    ensures i == |view|
  {
    i := 0;
    while i < |inst.dynamicRegistrations|
      invariant i <= |view|
    {
      if i < |inst.dynamicRegistrations| - 1 {
        RegistrationBlock(inst.heap, inst.extra, view, i);
        assert DynIds(view)[i] != dynId;
      }
      if inst.heap[inst.dynamicRegistrations[i]].dynId == dynId {
        break;
      }
      i := i + 1;
    }
  }

  /** The callee's cleanup: the registration just linked is found by its id and unregistered, and that frees the entries
      and the list the caller still points to. */
  method TakeBack(inst: Instance, ghost view: seq<Node>, ghost cell: Cell, ghost dataId: DataId, ghost list: Addr,
                  ghost temp: Addr, dynId: nat, ghost addr: Addr)
    requires !inst.faulted && inst.view == view && Represents(inst.heap, inst.extra, view) && Registered(view)
    requires inst.dynamicRegistrations == RegAddrs(view) + [addr]
    requires dynId == FirstFree(DynIds(view), 1) != 0
    requires list != temp && list != cell.addr && temp != cell.addr && addr !in {list, temp, cell.addr}
    requires inst.extra == Prepared(dataId, list, temp, cell)[addr := RegBlock(dynId, Owned(dataId, list))]
    modifies inst`heap, inst`extra, inst`dynamicRegistrations
    ensures Represents(inst.heap, inst.extra, view) && inst.dynamicRegistrations == RegAddrs(view)
    ensures inst.extra == TempOnly(dataId, list, temp) && list !in inst.heap && cell.addr !in inst.heap
  {
    Free(inst.heap, inst.extra, view, addr);
    TakenBack(dataId, list, temp, cell, addr, RegBlock(dynId, Owned(dataId, list)));
    var i := FindLinked(inst, view, dynId, addr);
    var found := inst.dynamicRegistrations[i];
    inst.FreeIdentifier(inst.heap[found].reg.list, [cell]);
    inst.KFree(found);
    inst.dynamicRegistrations := Without(inst.dynamicRegistrations, i);
  }

  /** Notes the id of a registration just linked, or takes the registration back. */
  method NoteRegistration(inst: Instance, ghost view: seq<Node>, ghost cell: Cell, ghost dataId: DataId, list: Addr,
                          temp: Addr, dynId: nat, addr: Addr, ok: bool)
    requires !inst.faulted && inst.view == view && Represents(inst.heap, inst.extra, view) && Registered(view)
    requires inst.dynamicRegistrations == RegAddrs(view) + [addr] && inst.idList == ItemAddrs(OwnedOnly(view))
    requires dynId == FirstFree(DynIds(view), 1) != 0
    requires forall i :: 0 <= i < |view| && view[i].OwnedNode? ==> view[i].dataId != dataId
    requires list != temp && list != cell.addr && temp != cell.addr && addr !in {list, temp, cell.addr}
    requires inst.extra == Prepared(dataId, list, temp, cell)[addr := RegBlock(dynId, Owned(dataId, list))]
    modifies inst
    ensures !inst.faulted
    ensures ok ==> && inst.Valid() && Held(inst.view) == Define(Held(view), dataId, cell.entry)
                   && ForeignOnly(inst.view) == ForeignOnly(view)
    ensures !ok ==> && inst.Linked() && inst.view == view && inst.idList == old(inst.idList)
                    && inst.extra == TempOnly(dataId, list, temp) && list !in inst.heap && cell.addr !in inst.heap
  {
    ExtraWithin(inst.heap, inst.extra, view);
    var item := inst.Malloc(IdBlock(dynId), ok);
    if item.None? {
      TakeBack(inst, view, cell, dataId, list, temp, dynId, addr);
      return;
    }
    inst.idList := inst.idList + [item.value];
    FinishRegistration(inst, OwnedNode(addr, dynId, dataId, list, item.value, [cell]), cell, temp);
  }

  /** The temporary copy goes; what is left is the new registration. */
  method FinishRegistration(inst: Instance, ghost n: Node, ghost cell: Cell, temp: Addr)
    requires !inst.faulted && Represents(inst.heap, inst.extra, inst.view) && Registered(inst.view)
    requires n.OwnedNode? && n.cells == [cell] && Apart(n.addr, n.list, n.item, cell.addr, temp)
    requires n.dynId == FirstFree(DynIds(inst.view), 1) != 0
    requires forall i :: 0 <= i < |inst.view| && inst.view[i].OwnedNode? ==> inst.view[i].dataId != n.dataId
    requires inst.extra == Prepared(n.dataId, n.list, temp, cell)[n.addr := RegBlock(n.dynId, Owned(n.dataId, n.list))]
                                                                 [n.item := IdBlock(n.dynId)]
    requires inst.dynamicRegistrations == RegAddrs(inst.view) + [n.addr]
    requires inst.idList == ItemAddrs(OwnedOnly(inst.view)) + [n.item]
    modifies inst
    ensures inst.Valid() && Held(inst.view) == Define(Held(old(inst.view)), n.dataId, cell.entry)
    ensures ForeignOnly(inst.view) == ForeignOnly(old(inst.view))
  {
    AdoptNew(inst.heap, inst.extra, inst.view, n, cell, temp);
    ghost var view := inst.view + [n];
    inst.KFree(temp);
    inst.Settle(view);
  }

  lemma PreparedLies(heap: Heap, extra: Heap, view: seq<Node>, dataId: DataId, list: Addr, temp: Addr, cell: Cell)
    requires Represents(heap, extra, view) && extra == Prepared(dataId, list, temp, cell)
    requires list != temp && list != cell.addr && temp != cell.addr
    ensures list in heap && cell.addr in heap && temp in heap && heap[temp] == RegBlock(0, Owned(dataId, list))
  {
    ExtraWithin(heap, extra, view);
    assert temp in extra && list in extra && cell.addr in extra;
  }

  /** Links the new registration and notes its id. When there is no memory for the id, the list is gone on return. */
  method RegisterNewItem(inst: Instance, ghost cell: Cell, ghost dataId: DataId, list: Addr, temp: Addr, a: Allocations)
    returns (nrc: Nrc)
    requires inst.Linked() && !inst.faulted && inst.idList == ItemAddrs(OwnedOnly(inst.view))
    requires list != temp && list != cell.addr && temp != cell.addr
    requires inst.extra == Prepared(dataId, list, temp, cell)
    requires forall i :: 0 <= i < |inst.view| && inst.view[i].OwnedNode? ==> inst.view[i].dataId != dataId
    modifies inst
    ensures !inst.faulted && nrc == RegisterCode(old(inst.view), a)
    ensures nrc.Errno? ==>
              && inst.Linked() && inst.view == old(inst.view)
              && inst.heap == old(inst.heap) && inst.extra == old(inst.extra) && inst.idList == old(inst.idList)
    ensures nrc == GeneralReject ==>
              && inst.Linked() && inst.view == old(inst.view) && inst.idList == old(inst.idList)
              && inst.extra == TempOnly(dataId, list, temp) && list !in inst.heap && cell.addr !in inst.heap
    ensures nrc == Positive ==>
              && inst.Valid() && Held(inst.view) == Define(Held(old(inst.view)), dataId, cell.entry)
              && ForeignOnly(inst.view) == ForeignOnly(old(inst.view))
  {
    ghost var view := inst.view;
    PreparedLies(inst.heap, inst.extra, view, dataId, list, temp, cell);
    var result, dynId, addr := inst.LinkRegistration(inst.heap[temp].reg, a.reg);
    if result < 0 {
      return Errno(result);
    }
    NoteRegistration(inst, view, cell, dataId, list, temp, dynId, addr, a.item);
    return if a.item then Positive else GeneralReject;
  }

  function RegisterCode(view: seq<Node>, a: Allocations): Nrc
  {
    if FirstFree(DynIds(view), 1) == 0 then Errno(ENOSPC)
    else if !a.reg then Errno(ENOMEM)
    else if !a.item then GeneralReject
    else Positive
  }

  predicate Fresh(view: seq<Node>, dataId: DataId)
  {
    forall i :: 0 <= i < |view| && view[i].OwnedNode? ==> view[i].dataId != dataId
  }

  lemma PreparedMaps(h: Heap, dataId: DataId, list: Addr, temp: Addr, cell: Cell)
    requires list != temp && list != cell.addr && temp != cell.addr
    ensures h[list := ListBlock([])][temp := RegBlock(0, Owned(dataId, list))][cell.addr := DataBlock(cell.entry)]
             [list := ListBlock([cell.addr])] == h + Prepared(dataId, list, temp, cell)
  {
  }

  lemma UndoneMaps(h: Heap, list: Addr, b: Block, temp: Addr, c: Block)
    requires list !in h && temp !in h
    ensures h[list := b][temp := c] - {list} - {temp} == h
  {
  }

  /** List, temporary registration and first entry of a new identifier, or nothing at all. */
  method Prepare(inst: Instance, dataId: DataId, entry: Entry, a: Allocations)
    returns (made: bool, list: Addr, temp: Addr, ghost cell: Cell)
    requires Represents(inst.heap, inst.extra, inst.view) && inst.extra == map[]
    modifies inst`heap, inst`extra
    ensures Represents(inst.heap, inst.extra, inst.view) && made == (a.list && a.temp && a.data)
    ensures !made ==> inst.heap == old(inst.heap) && inst.extra == map[]
    ensures made ==>
              && cell.entry == entry && list != temp && list != cell.addr && temp != cell.addr
              && list !in old(inst.heap) && temp !in old(inst.heap) && cell.addr !in old(inst.heap)
              && inst.extra == Prepared(dataId, list, temp, cell)
              && inst.heap == old(inst.heap) + Prepared(dataId, list, temp, cell)
  {
    cell := Cell(0, entry);
    ghost var heap := inst.heap;
    made, list, temp := CreateNewDataIdentifier(inst, dataId, a);
    if !made {
      return;
    }
    UndoneMaps(heap, list, ListBlock([]), temp, RegBlock(0, Owned(dataId, list)));
    UndoneMaps(map[], list, ListBlock([]), temp, RegBlock(0, Owned(dataId, list)));
    made, cell := PrepareEntry(inst, list, temp, RegBlock(0, Owned(dataId, list)), entry, a.data);
    if made {
      PreparedMaps(heap, dataId, list, temp, cell);
      PreparedMaps(map[], dataId, list, temp, cell);
      assert map[] + Prepared(dataId, list, temp, cell) == Prepared(dataId, list, temp, cell);
    }
  }

  method PrepareEntry(inst: Instance, list: Addr, temp: Addr, ghost copy: Block, entry: Entry, ok: bool)
    returns (made: bool, ghost cell: Cell)
    requires Represents(inst.heap, inst.extra, inst.view) && list != temp
    requires inst.extra == map[][list := ListBlock([])][temp := copy]
    modifies inst`heap, inst`extra
    ensures Represents(inst.heap, inst.extra, inst.view) && made == ok && cell.entry == entry
    ensures ok ==>
              && cell.addr !in old(inst.heap) && cell.addr != list && cell.addr != temp
              && inst.extra == old(inst.extra)[cell.addr := DataBlock(entry)][list := ListBlock([cell.addr])]
              && inst.heap == old(inst.heap)[cell.addr := DataBlock(entry)][list := ListBlock([cell.addr])]
    ensures !ok ==> inst.heap == old(inst.heap) - {list} - {temp} && inst.extra == old(inst.extra) - {list} - {temp}
  {
    var nrc;
    assert CellAddrs([]) == [];
    ExtraWithin(inst.heap, inst.extra, inst.view);
    nrc, cell := AppendEntry(inst, list, [], entry, ok);
    if nrc != Positive {
      assert inst.extra == old(inst.extra);
      inst.KFree(list);
      inst.KFree(temp);
      return false, cell;
    }
    assert [] + [cell] == [cell] && CellAddrs([cell]) == [cell.addr];
    return true, cell;
  }

  /** The caller's cleanup after a registration that was not made. */
  method Abandon(inst: Instance, ghost heap: Heap, ghost dataId: DataId, list: Addr, temp: Addr, ghost cell: Cell)
    requires Represents(inst.heap, inst.extra, inst.view) && inst.extra == Prepared(dataId, list, temp, cell)
    requires inst.heap == heap + Prepared(dataId, list, temp, cell)
    requires list != temp && list != cell.addr && temp != cell.addr
    requires list !in heap && temp !in heap && cell.addr !in heap
    modifies inst`heap, inst`extra
    ensures Represents(inst.heap, inst.extra, inst.view) && inst.heap == heap && inst.extra == map[]
  {
    assert CellAddrs([cell]) == [cell.addr];
    CellKeys([cell]);
    inst.FreeIdentifier(list, [cell]);
    inst.KFree(temp);
    assert inst.heap == heap && inst.extra == map[];
  }

  /** How the definition of a new identifier is answered. */
  function FreshCode(view: seq<Node>, a: Allocations): Nrc
  {
    if a.list && a.temp && a.data then RegisterCode(view, a) else GeneralReject
  }

  function DefineCode(view: seq<Node>, dataId: DataId, a: Allocations): Nrc
  {
    if Lookup(Held(view), dataId).None? then FreshCode(view, a) else if a.data then Positive else GeneralReject
  }

  /** Everything but the id item of a new identifier can be allocated. */
  predicate OnlyItemFails(view: seq<Node>, a: Allocations)
  {
    a.list && a.temp && a.data && a.reg && !a.item && FirstFree(DynIds(view), 1) != 0
  }

  /** The registration of a new identifier with its first entry. Whatever allocation but the last one fails, what was
      allocated before is freed again. After the last one the caller follows its pointer to the list: it is freed. */
  method DefineFresh(inst: Instance, dataId: DataId, entry: Entry, a: Allocations) returns (nrc: Nrc)
    requires inst.Valid() && Fresh(inst.view, dataId)
    modifies inst
    ensures inst.faulted <==> OnlyItemFails(old(inst.view), a)
    ensures !inst.faulted ==>
              && inst.Valid() && ForeignOnly(inst.view) == ForeignOnly(old(inst.view))
              && nrc == FreshCode(old(inst.view), a)
              && (nrc == Positive ==> Held(inst.view) == Define(Held(old(inst.view)), dataId, entry))
              && (nrc != Positive ==> inst.heap == old(inst.heap) && inst.view == old(inst.view))
  {
    ghost var heap, cell := inst.heap, Cell(0, entry);
    var made, list, temp;
    made, list, temp, cell := Prepare(inst, dataId, entry, a);
    if !made {
      return GeneralReject;
    }
    ExtraWithin(inst.heap, inst.extra, inst.view);
    nrc := RegisterNewItem(inst, cell, dataId, list, temp, a);
    if nrc != Positive {
      inst.Follow(list);
      if inst.faulted {
        return;
      }
      Abandon(inst, heap, dataId, list, temp, cell);
    }
  }

  /** Both define sub-functions; they differ in the entry they make. */
  method AddNewId(inst: Instance, dataId: DataId, entry: Entry, a: Allocations) returns (nrc: Nrc, consumed: bool)
    requires inst.Valid()
    modifies inst
    ensures consumed <==> nrc == Positive && !inst.faulted
    // the one way to a use of freed memory: a new identifier of which only the id item cannot be allocated
    ensures inst.faulted <==> Lookup(old(Held(inst.view)), dataId).None? && OnlyItemFails(old(inst.view), a)
    // otherwise the lists refine the map: the entry is appended to the identifier or to a new one
    ensures !inst.faulted ==>
              var defs, defs' := Held(old(inst.view)), Held(inst.view);
              && inst.Valid() && ForeignOnly(inst.view) == ForeignOnly(old(inst.view))
              && (nrc == Positive ==> defs' == Define(defs, dataId, entry))
              && (nrc != Positive && Lookup(defs, dataId).Some? ==> defs' == Emptied(defs, dataId))
              && (nrc != Positive && Lookup(defs, dataId).None? ==> defs' == defs && inst.heap == old(inst.heap))
              && nrc == DefineCode(old(inst.view), dataId, a)
  {
    ghost var view := inst.view;
    var i := FindExisting(inst, dataId);
    KnownIffHeld(view, dataId);
    if i < |inst.dynamicRegistrations| {
      nrc := AppendToExisting(inst, i, entry, a.data);
    } else {
      nrc := DefineFresh(inst, dataId, entry, a);
    }
    consumed := nrc == Positive && !inst.faulted;
  }

  /** An input for which it happens: the first definition of an instance, and no memory for its id item. */
  method FaultOnFirstDefinition(entry: Entry) returns (inst: Instance)
    ensures inst.faulted
  {
    inst := new Instance();
    assert FirstFree([], 1) == 1 && DynIds(inst.view) == [];
    assert Lookup(Held(inst.view), 0xF300) == None;
    var nrc, consumed := AddNewId(inst, 0xF300, entry, Allocations(true, true, true, true, false));
  }

  lemma KnownIffHeld(view: seq<Node>, dataId: DataId)
    requires Registered(view)
    ensures Lookup(Held(view), dataId).None? <==> Fresh(view, dataId)
  {
    LookupMiss(Held(view), dataId);
    if Fresh(view, dataId) {
      HeldMisses(view, dataId);
    } else {
      var i :| 0 <= i < |view| && view[i].OwnedNode? && view[i].dataId == dataId;
      OwnedAt(view, i, view[i]);
      assert Held(view)[|OwnedOnly(view[..i])|].id == dataId;
    }
  }

  // ---- clearing one identifier -----------------------------------------------------------------------------------

  /** The id items of registrations lie in the heap, apart from one another. */
  ghost predicate ItemsLive(heap: Heap, owned: seq<Node>)
  {
    && (forall k :: 0 <= k < |owned| ==>
          owned[k].OwnedNode? && owned[k].item in heap && heap[owned[k].item] == IdBlock(owned[k].dynId))
    && (forall j, k :: 0 <= j < k < |owned| ==> owned[j].item != owned[k].item && owned[j].dynId != owned[k].dynId)
  }

  lemma LiveSnoc(heap: Heap, gone: set<Addr>, owned: seq<Node>, n: Node)
    requires ItemsLive(heap - gone, owned) && n.OwnedNode? && n.item in gone
    requires n.item in heap && heap[n.item] == IdBlock(n.dynId)
    requires forall k :: 0 <= k < |owned| ==> owned[k].dynId != n.dynId
    ensures ItemsLive(heap, owned + [n])
  {
  }

  lemma {:induction false} ViewItemsLive(heap: Heap, extra: Heap, view: seq<Node>)
    requires Represents(heap, extra, view) && Registered(view)
    ensures ItemsLive(heap, OwnedOnly(view))
    decreases |view|
  {
    if view != [] {
      var init, n := view[..|view| - 1], view[|view| - 1];
      ViewItemsLive(heap - Blocks(n).Keys, extra, init);
      if n.OwnedNode? {
        PartsOf(n);
        forall k | 0 <= k < |OwnedOnly(init)|
          ensures OwnedOnly(init)[k].dynId != n.dynId
        {
          var i := OwnedInView(init, k);
          assert init[i] == view[i];
        }
        LiveSnoc(heap, Blocks(n).Keys, OwnedOnly(init), n);
      }
    }
  }

  /** The nodes of the id list, of which the one at z, if there is one, was left behind by its registration. */
  ghost predicate ItemsOf(inst: Instance, owned: seq<Node>, z: nat)
    reads inst
  {
    && Represents(inst.heap, inst.extra, inst.view) && z <= |owned|
    && ItemsLive(inst.heap, owned) && inst.idList == ItemAddrs(owned)
    && inst.extra == if z < |owned| then map[owned[z].item := IdBlock(owned[z].dynId)] else map[]
  }

  /** The item left behind is unlinked and freed. */
  method RemoveItem(inst: Instance, z: nat, ghost owned: seq<Node>)
    requires z < |owned| && ItemsOf(inst, owned, z)
    modifies inst`heap, inst`extra, inst`idList
    ensures ItemsOf(inst, Without(owned, z), |owned| - 1)
  {
    var item := inst.idList[z];
    inst.idList := Without(inst.idList, z);
    inst.KFree(item);
    assert inst.extra == map[];
  }

  /** The id is that of the registration at z, or of none. */
  ghost predicate Hits(owned: seq<Node>, dynId: nat, z: nat)
  {
    forall k :: 0 <= k < |owned| ==> (owned[k].dynId == dynId <==> k == z)
  }

  /** Frees and unlinks the items of a registration id. */
  method RemoveIdItems(inst: Instance, dynId: nat, ghost owned: seq<Node>, ghost z: nat)
    requires ItemsOf(inst, owned, z) && Hits(owned, dynId, z)
    modifies inst`heap, inst`extra, inst`idList
    ensures Represents(inst.heap, inst.extra, inst.view) && inst.extra == map[]
    ensures inst.idList == ItemAddrs(LeftOf(owned, z))
  {
    ghost var left, removed := owned, false;
    var k := 0;
    while k < |inst.idList|
      invariant k <= |left|
      invariant if !removed then left == owned && k <= z && ItemsOf(inst, owned, z)
                else z < |owned| && left == Without(owned, z) && ItemsOf(inst, left, |left|)
      decreases |inst.idList| - k
    {
      var item := inst.idList[k];
      if inst.heap[item].id == dynId {
        RemoveItem(inst, k, owned);
        left, removed := Without(owned, z), true;
      } else {
        k := k + 1;
      }
    }
  }

  /** The first registration of a data identifier, whoever made it. */
  function FirstWith(view: seq<Node>, dataId: DataId): (i: nat)
    ensures i <= |view| && (i < |view| ==> IsDataId(view[i], dataId))
    ensures forall k :: 0 <= k < i ==> !IsDataId(view[k], dataId)
  {
    if view == [] || IsDataId(view[0], dataId) then 0 else 1 + FirstWith(view[1..], dataId)
  }

  lemma {:induction false} FirstWithUnique(view: seq<Node>, dataId: DataId, i: nat)
    requires i <= |view| && (i < |view| ==> IsDataId(view[i], dataId))
    requires forall k :: 0 <= k < i ==> !IsDataId(view[k], dataId)
    ensures i == FirstWith(view, dataId)
    decreases |view|
  {
    if i > 0 {
      FirstWithUnique(view[1..], dataId, i - 1);
    }
  }

  method FindDataId(inst: Instance, dataId: DataId) returns (i: nat)
    requires inst.Valid()
    ensures i == FirstWith(inst.view, dataId)
  {
    i := 0;
    while i < |inst.dynamicRegistrations|
      invariant i <= |inst.view| && forall k :: 0 <= k < i ==> !IsDataId(inst.view[k], dataId)
    {
      RegistrationBlock(inst.heap, inst.extra, inst.view, i);
      var reg := inst.heap[inst.dynamicRegistrations[i]].reg;
      if (reg.Owned? || reg.isDataId) && reg.dataId == dataId {
        NodeWithin(inst.heap, inst.extra, inst.view, i);
        break;
      }
      NodeWithin(inst.heap, inst.extra, inst.view, i);
      i := i + 1;
    }
    FirstWithUnique(inst.view, dataId, i);
  }

  /** After registration i of service 0x2C is gone its item is the one node of the id list left behind. */
  lemma OneLeftBehind(heap: Heap, heap': Heap, view: seq<Node>, i: nat)
    requires Represents(heap, map[], view) && Registered(view) && i < |view| && view[i].OwnedNode?
    requires Represents(heap', map[view[i].item := IdBlock(view[i].dynId)], Without(view, i))
    ensures var owned, z := OwnedOnly(view), |OwnedOnly(view[..i])|;
            && z < |owned| && owned[z] == view[i] && OwnedOnly(Without(view, i)) == Without(owned, z)
            && ItemsLive(heap', owned)
  {
    var owned, z := OwnedOnly(view), |OwnedOnly(view[..i])|;
    OwnedAt(view, i, view[i]);
    WithoutRegistered(view, i);
    ViewItemsLive(heap, map[], view);
    ViewItemsLive(heap', map[view[i].item := IdBlock(view[i].dynId)], Without(view, i));
    ExtraWithin(heap', map[view[i].item := IdBlock(view[i].dynId)], Without(view, i));
    StillLive(heap', owned, z);
  }

  lemma StillLive(heap: Heap, owned: seq<Node>, z: nat)
    requires z < |owned| && ItemsLive(heap, Without(owned, z))
    requires forall k :: 0 <= k < |owned| ==> owned[k].OwnedNode?
    requires forall j, k :: 0 <= j < k < |owned| ==> owned[j].item != owned[k].item && owned[j].dynId != owned[k].dynId
    requires owned[z].item in heap && heap[owned[z].item] == IdBlock(owned[z].dynId)
    ensures ItemsLive(heap, owned)
  {
    forall k | 0 <= k < |owned| && k != z
      ensures owned[k].item in heap && heap[owned[k].item] == IdBlock(owned[k].dynId)
    {
      assert Without(owned, z)[if k < z then k else k - 1] == owned[k];
    }
  }

  lemma ForeignIdsApart(view: seq<Node>, i: nat, k: nat)
    requires Registered(view) && i < |view| && view[i].ForeignNode? && k < |OwnedOnly(view)|
    ensures OwnedOnly(view)[k].dynId != view[i].dynId
  {
    var j := OwnedInView(view, k);
    assert j != i;
  }

  predicate Refuses(n: Node)
  {
    n.ForeignNode? && n.reg.Foreign? && n.reg.onUnregister < 0
  }

  /** The effect of clearing one identifier on the registrations. */
  ghost function Cleared(view: seq<Node>, dataId: DataId): seq<Node>
  {
    var i := FirstWith(view, dataId);
    if i == |view| || Refuses(view[i]) then view else Without(view, i)
  }

  /** What the id list is left with when registration i was asked to go. */
  lemma AfterUnregister(heap: Heap, heap': Heap, extra': Heap, view: seq<Node>, view': seq<Node>, i: nat)
    returns (z: nat)
    requires Represents(heap, map[], view) && Registered(view) && i < |view|
    requires Represents(heap', extra', view') && Registered(view')
    requires view' == if Refuses(view[i]) then view else Without(view, i)
    requires extra' == if view[i].OwnedNode? then map[view[i].item := IdBlock(view[i].dynId)] else map[]
    ensures LeftWith(heap', extra', view[i].dynId, OwnedOnly(view), z)
    ensures OwnedOnly(view') == LeftOf(OwnedOnly(view), z)
  {
    if view[i].OwnedNode? {
      OneLeftBehind(heap, heap', view, i);
      z := |OwnedOnly(view[..i])|;
    } else {
      forall k | 0 <= k < |OwnedOnly(view)|
        ensures OwnedOnly(view)[k].dynId != view[i].dynId
      {
        ForeignIdsApart(view, i, k);
      }
      if !Refuses(view[i]) {
        ForeignGone(view, i);
      }
      ViewItemsLive(heap', extra', view');
      z := |OwnedOnly(view)|;
    }
  }

  /** The id list's nodes with the one, if any, that a registration with the id left behind. */
  ghost predicate LeftWith(heap: Heap, extra: Heap, dynId: nat, owned: seq<Node>, z: nat)
  {
    && z <= |owned| && ItemsLive(heap, owned)
    && extra == (if z < |owned| then map[owned[z].item := IdBlock(owned[z].dynId)] else map[])
    && Hits(owned, dynId, z)
  }

  /** The registration with a known id is asked to go. */
  method UnregisterKnown(inst: Instance, dynId: nat, ghost i: nat)
    requires inst.Linked() && i < |inst.view| && inst.view[i].dynId == dynId
    modifies inst`heap, inst`extra, inst`view, inst`dynamicRegistrations
    ensures inst.Linked()
    ensures inst.view == if Refuses(old(inst.view)[i]) then old(inst.view) else Without(old(inst.view), i)
    ensures inst.extra == if old(inst.view)[i].OwnedNode? then old(inst.extra)[old(inst.view)[i].item := IdBlock(dynId)]
                          else old(inst.extra)
  {
    var result := inst.UnregisterEventHandler(dynId);
  }

  /** What the id list is left with by the registration at a position. */
  method UnregisterFound(inst: Instance, i: nat) returns (dynId: nat, ghost z: nat)
    requires inst.Valid() && i < |inst.view|
    modifies inst`heap, inst`extra, inst`view, inst`dynamicRegistrations
    ensures inst.Linked()
    ensures inst.view == if Refuses(old(inst.view)[i]) then old(inst.view) else Without(old(inst.view), i)
    ensures LeftWith(inst.heap, inst.extra, dynId, OwnedOnly(old(inst.view)), z)
    ensures OwnedOnly(inst.view) == LeftOf(OwnedOnly(old(inst.view)), z)
  {
    ghost var view, heap := inst.view, inst.heap;
    RegistrationBlock(heap, map[], view, i);
    dynId := inst.heap[inst.dynamicRegistrations[i]].dynId;
    UnregisterKnown(inst, dynId, i);
    z := AfterUnregister(heap, inst.heap, inst.extra, view, inst.view, i);
  }

  function LeftOf(owned: seq<Node>, z: nat): seq<Node>
  {
    if z < |owned| then Without(owned, z) else owned
  }

  lemma NothingLeftBehind(heap: Heap, view: seq<Node>)
    requires Represents(heap, map[], view) && Registered(view)
    ensures LeftWith(heap, map[], 0, OwnedOnly(view), |OwnedOnly(view)|)
  {
    ViewItemsLive(heap, map[], view);
    HeldIds(view);
  }

  /** The first loop: the first registration with the identifier goes, be it of service 0x2C or not. */
  method UnregisterFirst(inst: Instance, dataId: DataId) returns (dynId: nat, ghost z: nat)
    requires inst.Valid()
    modifies inst`heap, inst`extra, inst`view, inst`dynamicRegistrations
    ensures inst.Linked() && inst.view == Cleared(old(inst.view), dataId)
    ensures ItemsOf(inst, OwnedOnly(old(inst.view)), z) && Hits(OwnedOnly(old(inst.view)), dynId, z)
    ensures OwnedOnly(inst.view) == LeftOf(OwnedOnly(old(inst.view)), z)
  {
    var i := FindDataId(inst, dataId);
    if i < |inst.dynamicRegistrations| {
      dynId, z := UnregisterFound(inst, i);
    } else {
      NothingLeftBehind(inst.heap, inst.view);
      dynId, z := 0, |OwnedOnly(inst.view)|;
    }
  }

  /** The second loop, over the id list. */
  method ForgetItems(inst: Instance, dynId: nat, ghost owned: seq<Node>, ghost z: nat)
    requires !inst.faulted && inst.Linked() && ItemsOf(inst, owned, z) && Hits(owned, dynId, z)
    requires OwnedOnly(inst.view) == LeftOf(owned, z)
    modifies inst
    ensures inst.Valid() && inst.view == old(inst.view)
  {
    ghost var view := inst.view;
    RemoveIdItems(inst, dynId, owned, z);
    inst.Settle(view);
  }

  method RemoveSingleId(inst: Instance, dataId: DataId)
    requires inst.Valid()
    modifies inst
    ensures inst.Valid() && inst.view == Cleared(old(inst.view), dataId)
  {
    ghost var owned := OwnedOnly(inst.view);
    var dynamicIdToRemove;
    ghost var z;
    dynamicIdToRemove, z := UnregisterFirst(inst, dataId);
    ForgetItems(inst, dynamicIdToRemove, owned, z);
  }

  // ---- what clearing one identifier means ------------------------------------------------------------------------

  predicate ClearsOwn(view: seq<Node>, id: DataId)
  {
    var i := FirstWith(view, id);
    i == |view| || view[i].OwnedNode? || (Refuses(view[i]) && Lookup(Held(view), id).None?)
  }

  /** Clearing removes exactly the identifier's definition and leaves the registrations of others alone if and only if
      the first registration of the identifier, if there is one, was defined by service 0x2C; or refuses to go while
      there is nothing to clear. */
  lemma ClearedExactly(view: seq<Node>, id: DataId)
    requires Registered(view)
    ensures Held(Cleared(view, id)) == Clear(Held(view), id) && ForeignOnly(Cleared(view, id)) == ForeignOnly(view)
            <==> ClearsOwn(view, id)
  {
    var i := FirstWith(view, id);
    if i == |view| {
      HeldMisses(view, id);
      DefineMissing(Held(view), id, FromMemory(0, 0));
    } else if view[i].OwnedNode? {
      HeldChanges(view, i, Cell(0, FromMemory(0, 0)));
      ForeignUntouched(view, i, view[i]);
    } else if Refuses(view[i]) {
      LookupMiss(Held(view), id);
      HeldIds(view);
      if Lookup(Held(view), id).Some? {
        var k :| 0 <= k < |Held(view)| && Held(view)[k].id == id;
        RemoveAt(Held(view), id, k);
      } else {
        DefineMissing(Held(view), id, FromMemory(0, 0));
      }
    } else {
      ForeignShrinks(view, i);
    }
  }

  /** An input for which it fails: a registration of somebody else goes, and the definition stays. */
  lemma ClearedForeign()
    ensures var other, own := ForeignNode(0, 1, Foreign(true, 0xF300, 0)), OwnedNode(1, 2, 0xF300, 2, 3, []);
            && Registered([other, own]) && Cleared([other, own], 0xF300) == [own]
            && ForeignOnly([own]) != ForeignOnly([other, own]) && Lookup(Held([own]), 0xF300) == Some([])
  {
    var other, own := ForeignNode(0, 1, Foreign(true, 0xF300, 0)), OwnedNode(1, 2, 0xF300, 2, 3, []);
    FirstWithUnique([other, own], 0xF300, 0);
    assert Without([other, own], 0) == [own];
    ForeignShrinks([other, own], 0);
    OwnedSnoc([], own);
    assert [] + [own] == [own];
    assert Definitions([own])[0] == Definition(0xF300, Entries([]));
  }

  /** No registration of somebody else is one of the identifier. */
  ghost predicate NoneOf(foreign: seq<Node>, id: DataId)
  {
    forall n :: n in foreign ==> !IsDataId(n, id)
  }

  lemma ApartClearsOwn(view: seq<Node>, id: DataId)
    requires NoneOf(ForeignOnly(view), id)
    ensures ClearsOwn(view, id)
  {
    var i := FirstWith(view, id);
    if i < |view| && view[i].ForeignNode? {
      ForeignIn(view, i);
    }
  }

  // ---- clearing all ----------------------------------------------------------------------------------------------

  /** The registrations still to go are those behind the first k items; the items of the others wait. */
  ghost predicate Clearing(inst: Instance, owned: seq<Node>, foreign: seq<Node>, k: nat)
    reads inst
  {
    && !inst.faulted && inst.Linked() && k <= |owned|
    && (forall j :: 0 <= j < |owned| ==> owned[j].OwnedNode?) && inst.idList == ItemAddrs(owned)
    && OwnedOnly(inst.view) == owned[k..] && ForeignOnly(inst.view) == foreign
    && inst.extra.Keys == Elements(inst.idList[..k])
  }

  /** The registration behind the next item. */
  lemma NextToClear(heap: Heap, extra: Heap, view: seq<Node>) returns (i: nat)
    requires Represents(heap, extra, view) && Registered(view) && OwnedOnly(view) != []
    ensures i < |view| && view[i] == OwnedOnly(view)[0] && view[i].item in heap
            && heap[view[i].item] == IdBlock(view[i].dynId)
    ensures OwnedOnly(Without(view, i)) == OwnedOnly(view)[1..] && ForeignOnly(Without(view, i)) == ForeignOnly(view)
  {
    i := OwnedInView(view, 0);
    ViewItemsLive(heap, extra, view);
    OwnedAt(view, i, view[i]);
    assert |OwnedOnly(view[..i])| == 0;
    ForeignUntouched(view, i, view[i]);
  }

  lemma OneMoreKey(extra: Heap, a: Addr, b: Block)
    ensures extra[a := b].Keys == extra.Keys + {a}
  {
  }

  lemma Shorter<T>(s: seq<T>, k: nat)
    requires k < |s|
    ensures s[k..][1..] == s[k + 1..] && s[k..] != [] && s[k..][0] == s[k]
  {
  }

  method UnregisterNext(inst: Instance, k: nat, ghost owned: seq<Node>, ghost foreign: seq<Node>)
    requires Clearing(inst, owned, foreign, k) && k < |owned|
    modifies inst`heap, inst`extra, inst`view, inst`dynamicRegistrations
    ensures Clearing(inst, owned, foreign, k + 1)
  {
    ghost var view, extra := inst.view, inst.extra;
    Shorter(owned, k);
    ghost var i := NextToClear(inst.heap, extra, view);
    var item := inst.idList[k];
    ElementsSnoc(inst.idList, k);
    OneMoreKey(extra, item, IdBlock(view[i].dynId));
    UnregisterKnown(inst, inst.heap[item].id, i);
    assert inst.extra == extra[item := IdBlock(view[i].dynId)];
    assert inst.view == Without(view, i);
  }

  method FreeItems(inst: Instance)
    requires inst.Linked() && NoRepeats(inst.idList) && inst.extra.Keys == Elements(inst.idList)
    modifies inst`heap, inst`extra, inst`idList
    ensures inst.Linked() && inst.extra == map[] && inst.idList == []
  {
    while inst.idList != []
      invariant inst.Linked() && NoRepeats(inst.idList) && inst.extra.Keys == Elements(inst.idList)
      decreases |inst.idList|
    {
      var item, rest := inst.idList[0], inst.idList[1..];
      assert inst.idList == [item] + rest;
      assert Elements(inst.idList) == Elements(rest) + {item};
      inst.KFree(item);
      inst.idList := rest;
    }
  }

  /** Every identifier goes, no other registration does, and the heap is again that of the others. */
  method RemoveAllIds(inst: Instance)
    requires inst.Valid()
    modifies inst
    ensures inst.Valid() && inst.view == ForeignOnly(old(inst.view)) && Held(inst.view) == []
    ensures inst.heap == AllBlocks(ForeignOnly(old(inst.view)))
  {
    ghost var owned, foreign := OwnedOnly(inst.view), ForeignOnly(inst.view);
    ViewItemsLive(inst.heap, inst.extra, inst.view);
    assert inst.idList[..0] == [] && owned[0..] == owned;
    for k := 0 to |inst.idList|
      invariant Clearing(inst, owned, foreign, k)
      invariant ItemsApart(owned)
    {
      UnregisterNext(inst, k, owned, foreign);
    }
    assert inst.idList[..|owned|] == inst.idList;
    FreeItems(inst);
    OnlyForeignLeft(inst.view);
    inst.Settle(inst.view);
    HeapDetermined(inst.heap, inst.view);
  }

  ghost predicate ItemsApart(owned: seq<Node>)
  {
    (forall k :: 0 <= k < |owned| ==> owned[k].OwnedNode?) && NoRepeats(ItemAddrs(owned))
  }
}
