/** The heap blocks behind the dynamic registrations (lib/uds/uds.c, lib/uds/dynamically_define_data_ids.c) and what
    it means that they form lists. Intrusive lists are the sequences of their nodes' addresses. */
module RegistryHeap {
  import opened Sequences
  import opened UdsDispatch

  type Addr = nat

  type DataId = nat

  /** A part of a dynamic identifier: a slice of another identifier's value, or a memory range. */
  datatype Entry = FromId(source: DataId, position: nat, size: nat) | FromMemory(address: nat, length: nat)

  /** The payload of a registration: one created by service 0x2C points to its list of entries; any other one is
      described by what its own unregister function answers. */
  datatype Reg = Owned(dataId: DataId, list: Addr) | Foreign(isDataId: bool, dataId: DataId, onUnregister: int)

  datatype Block =
    | RegBlock(dynId: nat, reg: Reg)
    | ListBlock(cells: seq<Addr>)
    | DataBlock(entry: Entry)
    | IdBlock(id: nat)

  type Heap = map<Addr, Block>

  datatype Cell = Cell(addr: Addr, entry: Entry)

  /** One registration with everything that hangs on it; `item` is its node in the 0x2C handler's id list. */
  datatype Node =
    | OwnedNode(addr: Addr, dynId: nat, dataId: DataId, list: Addr, item: Addr, cells: seq<Cell>)
    | ForeignNode(addr: Addr, dynId: nat, reg: Reg)

  function CellAddrs(cells: seq<Cell>): (r: seq<Addr>)
    ensures |r| == |cells| && forall i :: 0 <= i < |cells| ==> r[i] == cells[i].addr
  {
    seq(|cells|, i requires 0 <= i < |cells| => cells[i].addr)
  }

  function CellBlocks(cells: seq<Cell>): (r: Heap)
    ensures forall i :: 0 <= i < |cells| ==> cells[i].addr in r
    ensures forall a :: a in r ==> a in CellAddrs(cells)
  {
    if cells == [] then map[]
    else
      var last := cells[|cells| - 1];
      var rest := CellBlocks(cells[..|cells| - 1]);
      var r := rest[last.addr := DataBlock(last.entry)];
      assert forall a :: a in rest ==> a in CellAddrs(cells[..|cells| - 1]);
      assert forall i :: 0 <= i < |cells| - 1 ==> CellAddrs(cells[..|cells| - 1])[i] == CellAddrs(cells)[i];
      assert CellAddrs(cells)[|cells| - 1] == last.addr;
      r
  }

  function Blocks(n: Node): Heap
  {
    match n
    case OwnedNode(addr, dynId, dataId, list, item, cells) =>
      CellBlocks(cells)[addr := RegBlock(dynId, Owned(dataId, list))][list := ListBlock(CellAddrs(cells))]
                       [item := IdBlock(dynId)]
    case ForeignNode(addr, dynId, reg) => map[addr := RegBlock(dynId, reg)]
  }

  /** No two parts of a registration share a block. */
  ghost predicate Separate(n: Node)
  {
    match n
    case OwnedNode(addr, dynId, dataId, list, item, cells) =>
      NoRepeats(CellAddrs(cells)) && addr !in CellAddrs(cells) && list !in CellAddrs(cells)
      && item !in CellAddrs(cells) && addr != list && addr != item && list != item
    case ForeignNode(_, _, reg) => reg.Foreign?
  }

  ghost predicate Within(part: Heap, whole: Heap)
  {
    forall a :: a in part ==> a in whole && whole[a] == part[a]
  }

  /** The heap consists of the blocks of the registrations in `view` and of the blocks in `extra`, all apart: taking
      away one registration after the other leaves the extra blocks. */
  ghost predicate Represents(heap: Heap, extra: Heap, view: seq<Node>)
  {
    if view == [] then heap == extra
    else
      var n := view[|view| - 1];
      Separate(n) && Within(Blocks(n), heap) && Represents(heap - Blocks(n).Keys, extra, view[..|view| - 1])
  }

  function RegAddrs(view: seq<Node>): (r: seq<Addr>)
    ensures |r| == |view| && forall i :: 0 <= i < |view| ==> r[i] == view[i].addr
  {
    seq(|view|, i requires 0 <= i < |view| => view[i].addr)
  }

  function DynIds(view: seq<Node>): (r: seq<nat>)
    ensures |r| == |view| && forall i :: 0 <= i < |view| ==> r[i] == view[i].dynId
  {
    seq(|view|, i requires 0 <= i < |view| => view[i].dynId)
  }

  function OwnedOnly(view: seq<Node>): (r: seq<Node>)
    ensures forall i :: 0 <= i < |r| ==> r[i].OwnedNode?
  {
    if view == [] then []
    else
      OwnedOnly(view[..|view| - 1]) + if view[|view| - 1].OwnedNode? then [view[|view| - 1]] else []
  }

  function ItemAddrs(owned: seq<Node>): (r: seq<Addr>)
    requires forall i :: 0 <= i < |owned| ==> owned[i].OwnedNode?
    ensures |r| == |owned| && forall i :: 0 <= i < |owned| ==> r[i] == owned[i].item
  {
    seq(|owned|, i requires 0 <= i < |owned| => owned[i].item)
  }

  function KindOf(n: Node): Reg
  {
    if n.OwnedNode? then Owned(n.dataId, n.list) else n.reg
  }

  predicate IsDataId(n: Node, id: DataId)
  {
    match n
    case OwnedNode(_, _, dataId, _, _, _) => dataId == id
    case ForeignNode(_, _, reg) => reg.Foreign? && reg.isDataId && reg.dataId == id
  }

  /** Registration ids are distinct and between 1 and the largest; no identifier is defined twice. */
  ghost predicate Registered(view: seq<Node>)
  {
    && (forall i :: 0 <= i < |view| ==> 1 <= view[i].dynId <= UINT32_MAX)
    && (forall i, j :: 0 <= i < j < |view| ==> view[i].dynId != view[j].dynId)
    && (forall i, j :: 0 <= i < j < |view| && view[i].OwnedNode? && view[j].OwnedNode? ==>
          view[i].dataId != view[j].dataId)
  }

  // ---- reading ------------------------------------------------------------------------------------------------

  lemma {:induction false} NodeWithin(heap: Heap, extra: Heap, view: seq<Node>, i: nat)
    requires Represents(heap, extra, view) && i < |view|
    ensures Separate(view[i]) && Within(Blocks(view[i]), heap)
    decreases |view|
  {
    if i < |view| - 1 {
      NodeWithin(heap - Blocks(view[|view| - 1]).Keys, extra, view[..|view| - 1], i);
    }
  }

  lemma {:induction false} ExtraWithin(heap: Heap, extra: Heap, view: seq<Node>)
    requires Represents(heap, extra, view)
    ensures Within(extra, heap)
    decreases |view|
  {
    if view != [] {
      ExtraWithin(heap - Blocks(view[|view| - 1]).Keys, extra, view[..|view| - 1]);
    }
  }

  lemma RegistrationBlock(heap: Heap, extra: Heap, view: seq<Node>, i: nat)
    requires Represents(heap, extra, view) && i < |view|
    ensures view[i].addr in heap && heap[view[i].addr] == RegBlock(view[i].dynId, KindOf(view[i]))
  {
    NodeWithin(heap, extra, view, i);
    var n := view[i];
    assert n.addr in Blocks(n) && Blocks(n)[n.addr] == RegBlock(n.dynId, KindOf(n));
  }

  lemma OwnedBlocks(heap: Heap, extra: Heap, view: seq<Node>, i: nat)
    requires Represents(heap, extra, view) && i < |view| && view[i].OwnedNode?
    ensures view[i].list in heap && heap[view[i].list] == ListBlock(CellAddrs(view[i].cells))
    ensures view[i].item in heap && heap[view[i].item] == IdBlock(view[i].dynId)
  {
    NodeWithin(heap, extra, view, i);
    var n := view[i];
    assert n.list in Blocks(n) && Blocks(n)[n.list] == ListBlock(CellAddrs(n.cells));
    assert n.item in Blocks(n) && Blocks(n)[n.item] == IdBlock(n.dynId);
  }

  lemma {:induction false} CellBlockAt(cells: seq<Cell>, k: nat)
    requires k < |cells| && NoRepeats(CellAddrs(cells))
    ensures cells[k].addr in CellBlocks(cells) && CellBlocks(cells)[cells[k].addr] == DataBlock(cells[k].entry)
    decreases |cells|
  {
    var init := cells[..|cells| - 1];
    if k < |cells| - 1 {
      assert forall i :: 0 <= i < |init| ==> CellAddrs(init)[i] == CellAddrs(cells)[i];
      assert CellAddrs(cells)[k] != CellAddrs(cells)[|cells| - 1];
      CellBlockAt(init, k);
    }
  }

  lemma CellBlock(heap: Heap, extra: Heap, view: seq<Node>, i: nat, k: nat)
    requires Represents(heap, extra, view) && i < |view| && view[i].OwnedNode? && k < |view[i].cells|
    ensures var c := view[i].cells[k]; c.addr in heap && heap[c.addr] == DataBlock(c.entry)
  {
    NodeWithin(heap, extra, view, i);
    var n := view[i];
    CellBlockAt(n.cells, k);
    assert CellAddrs(n.cells)[k] == n.cells[k].addr;
    assert n.cells[k].addr in Blocks(n);
  }

  // ---- changing -----------------------------------------------------------------------------------------------

  lemma {:induction false} AddExtra(heap: Heap, extra: Heap, view: seq<Node>, part: Heap)
    requires Represents(heap, extra, view) && part.Keys !! heap.Keys
    ensures Represents(heap + part, extra + part, view)
    decreases |view|
  {
    if view != [] {
      var n := view[|view| - 1];
      AddExtra(heap - Blocks(n).Keys, extra, view[..|view| - 1], part);
      assert heap + part - Blocks(n).Keys == (heap - Blocks(n).Keys) + part;
    }
  }

  lemma {:induction false} RemoveExtra(heap: Heap, extra: Heap, view: seq<Node>, gone: set<Addr>)
    requires Represents(heap, extra, view) && gone <= extra.Keys
    ensures gone <= heap.Keys && Represents(heap - gone, extra - gone, view)
    decreases |view|
  {
    if view != [] {
      var n := view[|view| - 1];
      RemoveExtra(heap - Blocks(n).Keys, extra, view[..|view| - 1], gone);
      assert heap - gone - Blocks(n).Keys == heap - Blocks(n).Keys - gone;
    }
  }

  lemma Allocate(heap: Heap, extra: Heap, view: seq<Node>, a: Addr, b: Block)
    requires Represents(heap, extra, view) && a !in heap
    ensures Represents(heap[a := b], extra[a := b], view)
  {
    AddExtra(heap, extra, view, map[a := b]);
    assert heap + map[a := b] == heap[a := b] && extra + map[a := b] == extra[a := b];
  }

  lemma Free(heap: Heap, extra: Heap, view: seq<Node>, a: Addr)
    requires Represents(heap, extra, view) && a in extra
    ensures a in heap && heap[a] == extra[a] && Represents(heap - {a}, extra - {a}, view)
  {
    ExtraWithin(heap, extra, view);
    RemoveExtra(heap, extra, view, {a});
  }

  lemma Write(heap: Heap, extra: Heap, view: seq<Node>, a: Addr, b: Block)
    requires Represents(heap, extra, view) && a in extra
    ensures Represents(heap[a := b], extra[a := b], view)
  {
    Free(heap, extra, view, a);
    Allocate(heap - {a}, extra - {a}, view, a, b);
    assert (heap - {a})[a := b] == heap[a := b] && (extra - {a})[a := b] == extra[a := b];
  }

  /** Extra blocks become a registration at the end of the list. */
  lemma Adopt(heap: Heap, extra: Heap, view: seq<Node>, n: Node)
    requires Represents(heap, extra, view) && Separate(n) && Within(Blocks(n), extra)
    ensures Represents(heap, extra - Blocks(n).Keys, view + [n])
  {
    ExtraWithin(heap, extra, view);
    RemoveExtra(heap, extra, view, Blocks(n).Keys);
    assert (view + [n])[..|view|] == view;
  }

  /** A registration falls apart into extra blocks. */
  lemma {:induction false} Disown(heap: Heap, extra: Heap, view: seq<Node>, i: nat)
    requires Represents(heap, extra, view) && i < |view|
    ensures Represents(heap, extra + Blocks(view[i]), Without(view, i))
    decreases |view|
  {
    var init, n := view[..|view| - 1], view[|view| - 1];
    var rest := heap - Blocks(n).Keys;
    if i == |view| - 1 {
      AddExtra(rest, extra, init, Blocks(n));
      assert rest + Blocks(n) == heap && Without(view, i) == init;
    } else {
      Disown(rest, extra, init, i);
      assert Without(view, i) == Without(init, i) + [n];
      assert Without(view, i)[..|view| - 2] == Without(init, i);
    }
  }

  /** Extra blocks take the place of a registration: the way a registration changes. */
  lemma {:induction false} Replace(heap: Heap, extra: Heap, view: seq<Node>, i: nat, n: Node)
    requires i < |view| && Represents(heap, extra, Without(view, i)) && Separate(n) && Within(Blocks(n), extra)
    ensures Represents(heap, extra - Blocks(n).Keys, view[i := n])
    decreases |view|
  {
    var init, m := view[..|view| - 1], view[|view| - 1];
    if i == |view| - 1 {
      assert Without(view, i) == init && view[i := n] == init + [n];
      Adopt(heap, extra, init, n);
    } else {
      assert Without(view, i) == Without(init, i) + [m];
      assert Without(view, i)[..|view| - 2] == Without(init, i);
      Replace(heap - Blocks(m).Keys, extra, init, i, n);
      assert view[i := n][..|view| - 1] == init[i := n];
    }
  }

  /** The last extra blocks take the place of a registration. */
  lemma ReplaceLast(heap: Heap, view: seq<Node>, i: nat, n: Node)
    requires i < |view| && Separate(n) && Represents(heap, Blocks(n), Without(view, i))
    ensures Represents(heap, map[], view[i := n])
  {
    Replace(heap, Blocks(n), view, i, n);
    assert Blocks(n) - Blocks(n).Keys == map[];
  }

  lemma AdoptLast(heap: Heap, view: seq<Node>, n: Node)
    requires Separate(n) && Represents(heap, Blocks(n), view)
    ensures Represents(heap, map[], view + [n])
  {
    Adopt(heap, Blocks(n), view, n);
    assert Blocks(n) - Blocks(n).Keys == map[];
  }

  lemma {:induction false} ExtraApart(heap: Heap, extra: Heap, view: seq<Node>, i: nat)
    requires Represents(heap, extra, view) && i < |view|
    ensures Blocks(view[i]).Keys !! extra.Keys
    decreases |view|
  {
    var n := view[|view| - 1];
    if i == |view| - 1 {
      ExtraWithin(heap - Blocks(n).Keys, extra, view[..i]);
    } else {
      ExtraApart(heap - Blocks(n).Keys, extra, view[..|view| - 1], i);
    }
  }

  lemma {:induction false} CellKeys(cells: seq<Cell>)
    ensures CellBlocks(cells).Keys == set a | a in CellAddrs(cells)
    decreases |cells|
  {
    forall a | a in CellAddrs(cells)
      ensures a in CellBlocks(cells)
    {
      var k :| 0 <= k < |cells| && CellAddrs(cells)[k] == a;
      assert cells[k].addr in CellBlocks(cells);
    }
  }

  // ---- order --------------------------------------------------------------------------------------------------

  lemma {:induction false} OwnedSplits(a: seq<Node>, b: seq<Node>)
    ensures OwnedOnly(a + b) == OwnedOnly(a) + OwnedOnly(b)
    decreases |b|
  {
    if b == [] {
      assert a + b == a;
    } else {
      assert (a + b)[..|a + b| - 1] == a + b[..|b| - 1];
      OwnedSplits(a, b[..|b| - 1]);
    }
  }

  lemma OwnedSnoc(a: seq<Node>, n: Node)
    ensures OwnedOnly(a + [n]) == OwnedOnly(a) + if n.OwnedNode? then [n] else []
  {
    assert (a + [n])[..|a|] == a;
  }

  lemma OwnedMiddle(a: seq<Node>, n: Node, b: seq<Node>)
    ensures OwnedOnly(a + [n] + b) == OwnedOnly(a) + (if n.OwnedNode? then [n] else []) + OwnedOnly(b)
  {
    OwnedSnoc(a, n);
    OwnedSplits(a + [n], b);
  }

  lemma SplitAt<T>(s: seq<T>, i: nat)
    requires i < |s|
    ensures s == s[..i] + [s[i]] + s[i + 1..]
  {
  }

  lemma OwnedParts(view: seq<Node>, i: nat)
    requires i < |view|
    ensures OwnedOnly(view)
            == OwnedOnly(view[..i]) + (if view[i].OwnedNode? then [view[i]] else []) + OwnedOnly(view[i + 1..])
  {
    SplitAt(view, i);
    OwnedMiddle(view[..i], view[i], view[i + 1..]);
  }

  lemma MiddleOf<T>(a: seq<T>, m: T, b: seq<T>, n: T)
    ensures (a + [m] + b)[|a|] == m && Without(a + [m] + b, |a|) == a + b
    ensures (a + [m] + b)[|a| := n] == a + [n] + b
  {
  }

  /** Where a registration of service 0x2C stands among its like. */
  lemma OwnedAt(view: seq<Node>, i: nat, n: Node)
    requires i < |view| && view[i].OwnedNode? && n.OwnedNode?
    ensures var k := |OwnedOnly(view[..i])|;
            && k < |OwnedOnly(view)| && OwnedOnly(view)[k] == view[i]
            && OwnedOnly(Without(view, i)) == Without(OwnedOnly(view), k)
            && OwnedOnly(view[i := n]) == OwnedOnly(view)[k := n]
  {
    OwnedParts(view, i);
    OwnedParts(view[i := n], i);
    OwnedSplits(view[..i], view[i + 1..]);
    assert view[i := n][..i] == view[..i] && view[i := n][i + 1..] == view[i + 1..];
    MiddleOf(OwnedOnly(view[..i]), view[i], OwnedOnly(view[i + 1..]), n);
  }

  lemma ForeignGone(view: seq<Node>, i: nat)
    requires i < |view| && view[i].ForeignNode?
    ensures OwnedOnly(Without(view, i)) == OwnedOnly(view)
  {
    OwnedParts(view, i);
    OwnedSplits(view[..i], view[i + 1..]);
  }

  /** The registrations of others, in list order. */
  function ForeignOnly(view: seq<Node>): seq<Node>
  {
    if view == [] then []
    else ForeignOnly(view[..|view| - 1]) + if view[|view| - 1].ForeignNode? then [view[|view| - 1]] else []
  }

  lemma {:induction false} ForeignSplits(a: seq<Node>, b: seq<Node>)
    ensures ForeignOnly(a + b) == ForeignOnly(a) + ForeignOnly(b)
    decreases |b|
  {
    if b == [] {
      assert a + b == a;
    } else {
      assert (a + b)[..|a + b| - 1] == a + b[..|b| - 1];
      ForeignSplits(a, b[..|b| - 1]);
    }
  }

  lemma ForeignMiddle(a: seq<Node>, n: Node, b: seq<Node>)
    requires n.OwnedNode?
    ensures ForeignOnly(a + [n] + b) == ForeignOnly(a) + ForeignOnly(b) == ForeignOnly(a + b)
  {
    assert (a + [n])[..|a|] == a;
    assert ForeignOnly(a + [n]) == ForeignOnly(a);
    ForeignSplits(a + [n], b);
    ForeignSplits(a, b);
  }

  /** Changing, removing or adding a registration of service 0x2C leaves the others alone. */
  lemma ForeignUntouched(view: seq<Node>, i: nat, n: Node)
    requires n.OwnedNode? && i <= |view| && (i < |view| ==> view[i].OwnedNode?)
    ensures i < |view| ==> ForeignOnly(Without(view, i)) == ForeignOnly(view) == ForeignOnly(view[i := n])
    ensures ForeignOnly(view + [n]) == ForeignOnly(view)
  {
    if i < |view| {
      SplitAt(view, i);
      ForeignMiddle(view[..i], view[i], view[i + 1..]);
      ForeignMiddle(view[..i], n, view[i + 1..]);
      assert view[i := n] == view[..i] + [n] + view[i + 1..];
    }
    ForeignMiddle(view, n, []);
    assert view + [n] + [] == view + [n] && view + [] == view;
  }

  lemma {:induction false} ForeignIn(view: seq<Node>, i: nat)
    requires i < |view| && view[i].ForeignNode?
    ensures view[i] in ForeignOnly(view)
    decreases |view|
  {
    if i < |view| - 1 {
      ForeignIn(view[..|view| - 1], i);
    }
  }

  lemma {:induction false} ForeignShrinks(view: seq<Node>, i: nat)
    requires i < |view| && view[i].ForeignNode?
    ensures |ForeignOnly(Without(view, i))| == |ForeignOnly(view)| - 1
  {
    SplitAt(view, i);
    assert (view[..i] + [view[i]])[..i] == view[..i];
    ForeignSplits(view[..i] + [view[i]], view[i + 1..]);
    ForeignSplits(view[..i], view[i + 1..]);
  }

  lemma {:induction false} OnlyForeignLeft(view: seq<Node>)
    requires OwnedOnly(view) == []
    ensures ForeignOnly(view) == view
    decreases |view|
  {
    if view != [] {
      OnlyForeignLeft(view[..|view| - 1]);
    }
  }

  /** All the blocks of some registrations. */
  function AllBlocks(view: seq<Node>): Heap
  {
    if view == [] then map[] else AllBlocks(view[..|view| - 1]) + Blocks(view[|view| - 1])
  }

  /** Between requests the registrations determine the heap: there is no block besides theirs. */
  lemma {:induction false} HeapDetermined(heap: Heap, view: seq<Node>)
    requires Represents(heap, map[], view)
    ensures heap == AllBlocks(view)
    decreases |view|
  {
    if view != [] {
      HeapDetermined(heap - Blocks(view[|view| - 1]).Keys, view[..|view| - 1]);
    }
  }

  // ---- counting -----------------------------------------------------------------------------------------------

  /** A registration of service 0x2C occupies one registration block, one list, one id item and its entries. */
  function Size(n: Node): nat
  {
    if n.OwnedNode? then 3 + |n.cells| else 1
  }

  function TotalSize(view: seq<Node>): nat
  {
    if view == [] then 0 else TotalSize(view[..|view| - 1]) + Size(view[|view| - 1])
  }

  lemma {:induction false} CellBlocksCount(cells: seq<Cell>)
    requires NoRepeats(CellAddrs(cells))
    ensures |CellBlocks(cells)| == |cells|
    decreases |cells|
  {
    if cells != [] {
      var init, last := cells[..|cells| - 1], cells[|cells| - 1];
      assert forall i :: 0 <= i < |init| ==> CellAddrs(init)[i] == CellAddrs(cells)[i];
      CellBlocksCount(init);
      assert last.addr == CellAddrs(cells)[|cells| - 1];
      assert last.addr !in CellAddrs(init);
    }
  }

  lemma BlocksCount(n: Node)
    requires Separate(n)
    ensures |Blocks(n)| == Size(n)
  {
    if n.OwnedNode? {
      CellBlocksCount(n.cells);
      var m := CellBlocks(n.cells);
      assert n.addr !in m && n.list !in m && n.item !in m;
    }
  }

  /** Conservation: the live blocks are exactly those of the registrations and the extra ones, counted one by one. */
  lemma {:induction false} LiveBlocks(heap: Heap, extra: Heap, view: seq<Node>)
    requires Represents(heap, extra, view)
    ensures |heap| == |extra| + TotalSize(view)
    decreases |view|
  {
    if view != [] {
      var n := view[|view| - 1];
      var rest := heap - Blocks(n).Keys;
      LiveBlocks(rest, extra, view[..|view| - 1]);
      BlocksCount(n);
      assert heap.Keys == rest.Keys + Blocks(n).Keys;
    }
  }
}
