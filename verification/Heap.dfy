/** The heap allocator (source/sosal/heap.c) over its three lists: the blocks in
    use, the free blocks and the spare nodes.  Each operation is proved to do to
    its lists and counters what the same operation of HeapModel does to the
    sequences of blocks.
 */
module Heap {
  import opened ListOrder
  import opened List
  import M = HeapModel

  type BlockNode = Node<M.Blk>

  class HeapAllocator {
    const used: List<M.Blk>
    const free: List<M.Blk>
    const spare: List<M.Blk>
    var data: nat
    var align: nat
    var maxBlocks: nat
    var bytesUsed: nat
    var bytesFree: nat
    var coalescePolicy: bool

    // What no list leads to any more.
    ghost var leaked: nat
    ghost var lost: multiset<M.Blk>
    ghost var lostBytes: nat

    constructor (data: nat, align: nat, maxBlocks: nat, coalescePolicy: bool)
      ensures fresh(used) && fresh(free) && fresh(spare)
      ensures this.data == data && this.align == align && this.maxBlocks == maxBlocks
      ensures this.coalescePolicy == coalescePolicy
      ensures bytesUsed == 0 && bytesFree == maxBlocks * align && leaked == 0 && lost == multiset{} && lostBytes == 0
      ensures used != free && used != spare && free != spare
      ensures used.Valid() && free.Valid() && spare.Valid() && used.Nodes == free.Nodes == spare.Nodes == []
    {
      this.data, this.align, this.maxBlocks, this.coalescePolicy := data, align, maxBlocks, coalescePolicy;
      bytesUsed, bytesFree := 0, maxBlocks * align;
      leaked, lost, lostBytes := 0, multiset{}, 0;
      used := new List();
      free := new List();
      spare := new List();
    }

    static method Init(data: nat, align: nat, maxBlocks: nat, coalescePolicy: bool) returns (heap: HeapAllocator)
      requires 0 < maxBlocks && 0 < align && 0 < data && M.Aligned(data, align)
      ensures fresh(heap.Repr()) && heap.Valid() && heap.View() == M.Init(data, align, maxBlocks, coalescePolicy)
    {
      heap := new HeapAllocator(data, align, maxBlocks, coalescePolicy);
      hide M.Inv;
      M.InitInv(data, align, maxBlocks, coalescePolicy);
      heap.Build();
    }

    // The end of heap_init: all nodes go to the spare list, the first of them is
    // taken off again and becomes the one free block.
    method Build()
      requires used != free && used != spare && free != spare && maxBlocks > 0
      requires used.Valid() && free.Valid() && spare.Valid() && used.Nodes == free.Nodes == spare.Nodes == []
      modifies spare, free
      ensures Shape() && used.Data() == [] && free.Data() == [M.Blk(bytesFree, data)] && !free.Stale()
      ensures |spare.Nodes| == maxBlocks - 1
      ensures fresh(Owned())
    {
      hide Distinct, List.Valid, List.Stale, List.Chain;
      var nodes := MakeNodes(maxBlocks);
      LinkSpare(spare, nodes);
      ListKept(free);
      FirstBlock(spare, free, M.Blk(bytesFree, data));
      ListKept(used);
      used.EmptyFacts();
      free.StaleFacts();
    }

    static method FirstBlock(spare: List<M.Blk>, free: List<M.Blk>, block: M.Blk)
      requires spare != free && spare.Valid() && spare.Nodes != [] && free.Valid() && free.Nodes == []
      modifies spare, spare.Footprint(), free
      ensures spare.Valid() && free.Valid() && |spare.Nodes| == |old(spare.Nodes)| - 1
      ensures free.Data() == [block] && free.Footprint() !! spare.Footprint()
      ensures free.Footprint() + spare.Footprint() <= old(spare.Footprint())
      ensures free.tail != null && free.tail in free.Footprint()
    {
      spare.StaleFacts();
      var first := spare.Pop();
      first.data := block;
      free.Push(first);
    }

    static method MakeNodes(n: nat) returns (nodes: seq<BlockNode>)
      ensures |nodes| == n && Distinct(nodes) && forall i :: 0 <= i < n ==> fresh(nodes[i])
    {
      nodes := [];
      while |nodes| < n
        invariant |nodes| <= n && Distinct(nodes) && forall i :: 0 <= i < |nodes| ==> fresh(nodes[i])
      {
        var node := new Node(M.NoBlk);
        nodes := nodes + [node];
      }
    }

    static method LinkSpare(spare: List<M.Blk>, nodes: seq<BlockNode>)
      requires |nodes| > 0 && Distinct(nodes)
      modifies spare, nodes
      ensures spare.Valid() && spare.Nodes == nodes
    {
      for i := 0 to |nodes|
        invariant forall j {:trigger nodes[j].next} | 0 <= j < i :: nodes[j].next == At(nodes, j + 1)
        invariant forall j {:trigger nodes[j].prev} | 0 <= j < i :: nodes[j].prev == At(nodes, j - 1)
        invariant i > 0 ==> spare.head == nodes[0]
        invariant i == |nodes| ==> spare.tail == nodes[|nodes| - 1]
      {
        if i > 0 {
          nodes[i].prev := nodes[i - 1];
        } else {
          spare.head := nodes[i];
          nodes[i].prev := null;
        }
        if i < |nodes| - 1 {
          nodes[i].next := nodes[i + 1];
        } else {
          spare.tail := nodes[i];
          nodes[i].next := null;
        }
        nodes[i].data := M.Blk(0, 0);
      }
      spare.Nodes := nodes;
    }

    // ---- how the lists lie ------------------------------------------------------

    ghost predicate Shape()
      reads used, used.Footprint(), free, free.Footprint(), free.tail, spare, spare.Footprint()
    {
      && used != free && used != spare && free != spare
      && used.Valid() && spare.Valid() && (free.Valid() || free.Stale())
      && used.Footprint() !! free.Footprint()
      && used.Footprint() !! spare.Footprint() && free.Footprint() !! spare.Footprint()
      && (free.Stale() ==>
            free.tail !in used.Footprint() && free.tail !in spare.Footprint() && free.tail.data == M.NoBlk)
    }

    // A node that belongs to no list and that no list's tail shows.
    ghost predicate Loose(n: BlockNode)
      reads used, free, spare
    {
      n !in used.Footprint() && n !in free.Footprint() && n !in spare.Footprint() && n != free.tail
    }

    // The list nodes the heap can reach.
    ghost function Owned(): set<BlockNode>
      reads used, free, spare
    {
      used.Footprint() + free.Footprint() + spare.Footprint() + if free.tail == null then {} else {free.tail}
    }

    // Every object an operation may write.
    ghost function Repr(): set<object>
      reads this, used, free, spare
    {
      {this, used, free, spare} + Owned()
    }

    ghost function View(): M.Heap
      reads this, used, used.Footprint(), free, free.Footprint(), free.tail, spare
    {
      M.Heap(data, align, maxBlocks, coalescePolicy, used.Data(), free.Data(), |spare.Nodes|, free.Stale(),
             bytesUsed, bytesFree, leaked, lost, lostBytes)
    }

    ghost predicate Valid()
      reads this, used, used.Footprint(), free, free.Footprint(), free.tail, spare, spare.Footprint()
    {
      Shape() && M.Inv(View())
    }

    // ---- moving nodes between the lists -------------------------------------------

    method InsertFree(node: BlockNode) returns (ghost p: int)
      requires Shape() && Loose(node)
      modifies free, free.Footprint(), node
      ensures Shape() && node.data == old(node.data)
      ensures free.Data() == M.Put(old(free.Data()), node.data) && used.Data() == old(used.Data())
      ensures free.Stale() == old(free.Stale()) && (free.Stale() ==> free.tail == old(free.tail))
      ensures free.Footprint() == old(free.Footprint()) + {node}
      ensures 0 <= p <= |old(free.Nodes)| && free.Nodes == Splice(old(free.Nodes), p, node)
      ensures p == InsertPosition(M.ComparePtr, true, old(free.Data()), node.data)
      ensures Owned() <= old(Owned()) + {node}
    {
      hide List.Valid, List.Stale, List.Chain, Splice, DataOf, TotalPreorder, Sorted, Cut, InsertFrom, M.ComparePtr;
      M.ComparePtrIsTotal();
      InsertMeaning(M.ComparePtr, true, free.Data(), node.data);
      p := InsertPosition(M.ComparePtr, true, free.Data(), node.data);
      free.StaleFacts();
      free.Members();
      var _ := free.Insert(node, M.ComparePtr, true);
      free.StaleFacts();
      ListKept(used);
      free.TailIn();
      ListKept(spare);
    }

    method InsertUsed(node: BlockNode)
      requires Shape() && Loose(node)
      modifies used, used.Footprint(), node
      ensures Shape() && node.data == old(node.data)
      ensures used.Data() == M.Put(old(used.Data()), node.data) && free.Data() == old(free.Data())
      ensures free.Stale() == old(free.Stale()) && used.Footprint() == old(used.Footprint()) + {node}
      ensures Owned() <= old(Owned()) + {node}
    {
      hide List.Valid, List.Stale, List.Chain, Splice, DataOf, TotalPreorder, Sorted, Cut, InsertFrom, M.ComparePtr;
      M.ComparePtrIsTotal();
      InsertMeaning(M.ComparePtr, true, used.Data(), node.data);
      used.Members();
      used.StaleFacts();
      used.TailIn();
      free.StaleFacts();
      free.TailIn();
      var _ := used.Insert(node, M.ComparePtr, true);
      ListKept(free);
      ListKept(spare);
    }

    method PopSpare() returns (node: Node?<M.Blk>)
      requires Shape()
      modifies spare, spare.Footprint()
      ensures Shape() && used.Data() == old(used.Data()) && free.Data() == old(free.Data())
      ensures free.Stale() == old(free.Stale())
      ensures spare.Footprint() <= old(spare.Footprint())
      ensures if old(spare.Nodes) == [] then node == null && spare.Nodes == []
              else
                && node != null && node in old(spare.Footprint()) && Loose(node)
                && |spare.Nodes| == |old(spare.Nodes)| - 1
      ensures Owned() <= old(Owned()) && (node != null ==> node in old(Owned()))
    {
      hide List.Valid, List.Stale, List.Chain, DataOf;
      spare.StaleFacts();
      free.StaleFacts();
      free.TailIn();
      node := spare.Pop();
      ListKept(free);
      ListKept(used);
    }

    // ---- allocating -----------------------------------------------------------------

    // Take the node at position k off the free list.  `loses` tells that a stale
    // tail got in the way: then a cleared node comes out and the list is gone.
    method ExtractFree(n: BlockNode, ghost k: nat) returns (node: BlockNode, ghost loses: bool)
      requires Shape() && k < |free.Nodes| && n == free.Nodes[k]
      modifies free, free.Footprint(), free.tail
      ensures Shape() && used.Data() == old(used.Data()) && free.Footprint() <= old(free.Footprint())
      ensures loses <==> old(free.Stale()) && 0 < k == |old(free.Data())| - 1
      ensures loses ==> free.Data() == [] && !free.Stale() && node.data == M.NoBlk
      ensures !loses ==>
                && node in old(free.Footprint()) && Loose(node) && node.data == old(free.Data())[k]
                && free.Data() == Cut(old(free.Data()), k) && free.Stale() == (old(free.Stale()) && free.Data() != [])
      ensures Owned() <= old(Owned()) && node in old(Owned())
    {
      hide List.Valid, List.Stale, List.Chain, Cut, DataOf;
      free.StaleFacts();
      free.TailIn();
      free.Members();
      loses := free.Stale() && 0 < k == |free.Nodes| - 1;
      node := free.Extract(n, k);
      free.StaleFacts();
      free.TailIn();
      free.EmptyFacts();
      ListKept(used);
      ListKept(spare);
    }

    // Find the best fit and take it off the free list.
    method TakeBest(want: nat) returns (node: Node?<M.Blk>, ghost k: nat, ghost loses: bool)
      requires Shape()
      modifies free, free.Footprint(), free.tail, this`leaked, this`lost, this`lostBytes
      ensures Shape() && used.Data() == old(used.Data()) && free.Footprint() <= old(free.Footprint())
      ensures k == M.BestFit(old(free.Data()), want) && k <= |old(free.Data())|
      ensures loses <==> old(free.Stale()) && 0 < k == |old(free.Data())| - 1
      ensures node == null <==> k == |old(free.Data())|
      ensures if loses then
                && free.Data() == [] && !free.Stale() && node != null && node.data == M.NoBlk
                && leaked == old(leaked) + |old(free.Data())| && lost == old(lost) + multiset(old(free.Data()))
                && lostBytes == old(lostBytes) + M.Sum(old(free.Data()))
              else leaked == old(leaked) && lost == old(lost) && lostBytes == old(lostBytes)
      ensures node == null ==> free.Data() == old(free.Data()) && free.Stale() == old(free.Stale())
      ensures node != null && !loses ==>
                && node in old(free.Footprint()) && Loose(node) && node.data == old(free.Data())[k]
                && free.Data() == Cut(old(free.Data()), k) && free.Stale() == (old(free.Stale()) && free.Data() != [])
      ensures Owned() <= old(Owned()) && (node != null ==> node in old(Owned()))
    {
      hide List.Valid, List.Stale, List.Chain, Cut, DataOf, Linked, Distinct, M.Sum, BestIndex;
      free.HasChain();
      ghost var d := free.Data();
      node, k := free.Score(M.Blk(want, 0), M.RateBestFit);
      loses := false;
      if node != null {
        node, loses := ExtractFree(node, k);
        if loses {
          leaked := leaked + |d|;
          lost := lost + multiset(d);
          lostBytes := lostBytes + M.Sum(d);
        }
      }
    }

    // Two loose nodes share the block of one.
    method Divide(node: BlockNode, rest: BlockNode, want: nat)
      requires Shape() && Loose(node) && Loose(rest) && node != rest && node.data.Blk? && node.data.size > want
      modifies node`data, rest`data
      ensures node.data == M.Blk(want, old(node.data.addr))
      ensures rest.data == M.Blk(old(node.data.size) - want, old(node.data.addr) + want)
      ensures Shape() && used.Data() == old(used.Data()) && free.Data() == old(free.Data())
      ensures free.Stale() == old(free.Stale())
    {
      hide List.Valid, List.Stale, List.Chain, DataOf;
      free.StaleFacts();
      free.TailIn();
      rest.data := M.Blk(node.data.size - want, node.data.addr + want);
      node.data := M.Blk(want, node.data.addr);
    }

    // Cut a block that is too large down to size; the rest goes to the free list
    // under a spare node.  Without a spare node the block goes back instead.
    method Fracture(node: BlockNode, want: nat) returns (ok: bool)
      requires Shape() && Loose(node) && node.data.Blk? && node.data.size > want
      modifies free, free.Footprint(), spare, spare.Footprint(), node
      ensures Shape() && used.Data() == old(used.Data()) && free.Stale() == old(free.Stale())
      ensures ok == (|old(spare.Nodes)| > 0)
      ensures var b := old(node.data);
              if ok then
                && Loose(node) && node.data == M.Blk(want, b.addr) && |spare.Nodes| == |old(spare.Nodes)| - 1
                && free.Data() == M.Put(old(free.Data()), M.Blk(b.size - want, b.addr + want))
              else free.Data() == M.Put(old(free.Data()), b) && |spare.Nodes| == 0
      ensures Owned() <= old(Owned()) + {node}
    {
      hide List.Valid, List.Stale, List.Chain, DataOf, M.Put;
      free.StaleFacts();
      free.TailIn();
      var spareNode := PopSpare();
      if spareNode == null {
        var _ := InsertFree(node);
        return false;
      }
      Divide(node, spareNode, want);
      var _ := InsertFree(spareNode);
      free.StaleFacts();
      free.TailIn();
      ok := true;
    }

    ghost function Answer(ptr: nat): M.Option<nat> {
      if ptr == 0 then M.None else M.Some(ptr)
    }

    // The rest of an allocation, once a block is in hand.
    method Use(node: BlockNode, want: nat) returns (ptr: nat)
      requires Shape() && Loose(node) && node.data.Blk? && node.data.size >= want && bytesFree >= want
      requires node.data.addr > 0
      modifies this`bytesFree, this`bytesUsed, node
      modifies used, used.Footprint(), free, free.Footprint(), spare, spare.Footprint()
      ensures Shape() && free.Stale() == old(free.Stale())
      ensures var b, rest := old(node.data), old(free.Data());
              if b.size > want && |old(spare.Nodes)| == 0 then
                && ptr == 0 && free.Data() == M.Put(rest, b) && used.Data() == old(used.Data()) && |spare.Nodes| == 0
                && bytesFree == old(bytesFree) && bytesUsed == old(bytesUsed)
              else
                && ptr == b.addr && used.Data() == M.Put(old(used.Data()), M.Blk(want, b.addr))
                && free.Data() == (if b.size > want then M.Put(rest, M.Blk(b.size - want, b.addr + want)) else rest)
                && |spare.Nodes| == |old(spare.Nodes)| - (if b.size > want then 1 else 0)
                && bytesFree == old(bytesFree) - want && bytesUsed == old(bytesUsed) + want
      ensures Owned() <= old(Owned()) + {node}
    {
      hide List.Valid, List.Stale, List.Chain, DataOf, M.Put;
      if node.data.size > want {
        var ok := Fracture(node, want);
        if !ok {
          return 0;
        }
      }
      InsertUsed(node);
      bytesFree := bytesFree - want;
      bytesUsed := bytesUsed + want;
      ptr := node.data.addr;
    }

    // Allocate: NULL (0) or the address of a block of at least that many bytes.
    method Alloc(numBytes: nat) returns (ptr: nat)
      requires Valid()
      modifies Repr()
      ensures M.AllBlocks(old(free.Data())) && (View(), Answer(ptr)) == M.Alloc(old(View()), numBytes)
      ensures Valid()
      ensures Repr() <= old(Repr())
    {
      ghost var h := View();
      M.Blocks(h);
      M.AllocInv(h, numBytes);
      ptr := AllocInner(numBytes);
    }

    method AllocInner(numBytes: nat) returns (ptr: nat)
      requires Shape() && align > 0 && M.AllBlocks(free.Data())
      requires forall i {:trigger free.Data()[i]} :: 0 <= i < |free.Data()| ==> M.AddrOf(free.Data()[i]) > 0
      modifies this, used, used.Footprint(), free, free.Footprint(), free.tail, spare, spare.Footprint()
      ensures Shape() && (View(), Answer(ptr)) == M.Alloc(old(View()), numBytes)
      ensures Owned() <= old(Owned())
    {
      hide Shape, M.Serve, List.Data;
      ptr := 0;
      if numBytes > 0 {
        var want := M.BlockSize(align, numBytes);
        if bytesFree >= want {
          ptr := Serve(want);
        }
      }
    }

    method Serve(want: nat) returns (ptr: nat)
      requires Shape() && align > 0 && M.AllBlocks(free.Data()) && bytesFree >= want
      requires forall i {:trigger free.Data()[i]} :: 0 <= i < |free.Data()| ==> M.AddrOf(free.Data()[i]) > 0
      modifies this, used, used.Footprint(), free, free.Footprint(), free.tail, spare, spare.Footprint()
      ensures Shape() && (View(), Answer(ptr)) == M.Serve(old(View()), want)
      ensures Owned() <= old(Owned())
    {
      hide List.Valid, List.Stale, List.Chain, DataOf, M.Put, M.BestFit, M.Sum, Cut, Loose, Owned;
      M.FitsBest(free.Data(), want);
      ghost var d := free.Data();
      var node, k, loses := TakeBest(want);
      ptr := 0;
      if node != null && !node.data.NoBlk? {
        assert node.data == d[k] && M.AddrOf(d[k]) > 0;
        ptr := Use(node, want);
      }
    }

    // ---- freeing --------------------------------------------------------------------

    // What a block holds does not matter once it has been cut out.
    static lemma CutHides(s: seq<M.Blk>, k: nat)
      requires k < |s|
      ensures Cut(s[k := M.NoBlk], k) == Cut(s, k)
    {
    }

    // Node `a` takes over the bytes of the node behind it, which is unlinked and
    // cleared.  The tail pointer is left alone, whatever it shows.
    method Absorb(a: BlockNode, b: BlockNode, ghost i: nat)
      requires Shape() && i + 1 < |free.Nodes| && a == free.Nodes[i] && b == free.Nodes[i + 1]
      requires M.Adjacent(a.data, b.data)
      modifies free`Nodes, free.Footprint()
      ensures Shape() && used.Data() == old(used.Data())
      ensures free.Stale() <==> old(free.Stale()) || i + 1 == |old(free.Nodes)| - 1
      ensures M.Adjacent(old(free.Data())[i], old(free.Data())[i + 1]) && free.Data() == M.Merge(old(free.Data()), i)
      ensures Owned() <= old(Owned())
    {
      hide List.Valid, List.Stale, List.Chain, Cut, DataOf;
      free.Members();
      free.StaleFacts();
      free.TailIn();
      free.IsDistinct();
      CutHides(free.Data()[i := M.Blk(a.data.size + b.data.size, a.data.addr)], i + 1);
      free.SetData(a, M.Blk(a.data.size + b.data.size, a.data.addr), i);
      free.SetData(b, M.NoBlk, i + 1);
      free.StaleFacts();
      free.UnlinkNext(a, b, i);
      free.StaleFacts();
      ListKept(used);
      ListKept(spare);
    }

    // Merge a freed block with the free block before it, or else with the one
    // behind it.  The node that goes is not put back on the spare list.
    method Coalesce(node: BlockNode, ghost p: nat)
      requires Shape() && p < |free.Nodes| && node == free.Nodes[p]
      modifies this`leaked, free`Nodes, free.Footprint()
      ensures Shape() && View() == M.Coalesce(old(View()), p)
      ensures Owned() <= old(Owned())
    {
      hide List.Valid, List.Stale, List.Chain, M.Merge, Cut, Owned;
      free.Neighbours(p);
      var prev, next := node.prev, node.next;
      if prev != null && M.Adjacent(prev.data, node.data) {
        Absorb(prev, node, p - 1);
        leaked := leaked + 1;
      } else if next != null && M.Adjacent(node.data, next.data) {
        Absorb(node, next, p);
        leaked := leaked + 1;
      }
    }

    method FindUsed(ptr: nat) returns (node: Node?<M.Blk>)
      requires Shape()
      modifies used, used.Footprint()
      ensures Shape() && free.Data() == old(free.Data()) && free.Stale() == old(free.Stale())
      ensures |spare.Nodes| == |old(spare.Nodes)|
      ensures var k := Match(M.ComparePtr, old(used.Data()), M.Blk(0, ptr), 0);
              if k == |old(used.Data())| then node == null && used.Data() == old(used.Data())
              else
                && node != null && node in old(used.Footprint()) && Loose(node) && node.data == old(used.Data())[k]
                && used.Data() == Cut(old(used.Data()), k)
      ensures Owned() <= old(Owned()) && (node != null ==> node in old(Owned()))
    {
      hide List.Valid, List.Stale, List.Chain, Match, Cut, DataOf;
      free.TailIn();
      used.StaleFacts();
      free.StaleFacts();
      node := used.RemoveMatch(M.Blk(0, ptr), M.ComparePtr);
      ListKept(free);
      ListKept(spare);
    }

    // Free: whether the pointer was that of a block in use.
    method Free(ptr: nat) returns (ok: bool)
      requires Valid()
      modifies Repr()
      ensures old(bytesUsed) == M.Sum(old(used.Data())) && (View(), ok) == M.Free(old(View()), ptr)
      ensures Valid()
      ensures Repr() <= old(Repr())
    {
      M.FreeInv(View(), ptr);
      ok := FreeInner(ptr);
    }

    // Take the node of an address off the used list and free its block; `p` is
    // where it goes.
    method Release(ptr: nat) returns (node: Node?<M.Blk>, ghost p: int)
      requires Shape() && bytesUsed == M.Sum(used.Data())
      modifies this`bytesUsed, this`bytesFree, used, used.Footprint(), free, free.Footprint()
      ensures Shape()
      ensures (node != null ==> node in old(used.Footprint()) && free.Footprint() == old(free.Footprint()) + {node})
      ensures var h, k := old(View()), Match(M.ComparePtr, old(used.Data()), M.Blk(0, ptr), 0);
              if k == |h.used| then node == null && View() == h
              else
                && node != null && h.bytesUsed >= M.SizeOf(h.used[k]) && View() == M.Release(h, k)
                && p == InsertPosition(M.ComparePtr, true, h.free, h.used[k])
                && 0 <= p < |free.Nodes| && free.Nodes[p] == node
      ensures Owned() <= old(Owned()) && (node != null ==> node in old(Owned()))
    {
      hide List.Valid, List.Stale, List.Chain, DataOf, Cut, M.Put, InsertPosition, M.Sum, Owned;
      ghost var d := used.Data();
      node := FindUsed(ptr);
      p := 0;
      if node != null {
        assert ptr == M.AddrOf(node.data);
        M.SumAt(d, Match(M.ComparePtr, d, M.Blk(0, ptr), 0));
        p := InsertFree(node);
        bytesUsed := bytesUsed - M.SizeOf(node.data);
        bytesFree := bytesFree + M.SizeOf(node.data);
      }
    }

    method FreeInner(ptr: nat) returns (ok: bool)
      requires Shape() && align > 0 && bytesUsed == M.Sum(used.Data())
      modifies this, used, used.Footprint(), free, free.Footprint(), free.tail, spare, spare.Footprint()
      ensures Shape() && (View(), ok) == M.Free(old(View()), ptr)
      ensures Owned() <= old(Owned())
    {
      hide List.Valid, List.Stale, List.Chain, DataOf, Cut, M.Put, M.Coalesce, InsertPosition, M.Sum, Match;
      if ptr == 0 || !M.Aligned(ptr, align) {
        return false;
      }
      var node, p := Release(ptr);
      if node == null {
        return false;
      }
      if coalescePolicy {
        Coalesce(node, p);
      }
      ok := true;
    }

    // ---- runs -------------------------------------------------------------------------

    method Step(op: M.Op)
      requires Valid()
      modifies Repr()
      ensures Valid() && M.Inv(old(View())) && View() == M.Do(old(View()), op) && Repr() <= old(Repr())
    {
      hide M.Inv, M.Alloc, M.Free, Shape;
      match op
      case AllocOp(n) =>
        var _ := Alloc(n);
      case FreeOp(ptr) =>
        var _ := Free(ptr);
    }

    // Any run of allocations and frees on the linked lists is that run of HeapModel.
    method Run(ops: seq<M.Op>)
      requires Valid()
      modifies Repr()
      ensures Valid() && M.Inv(old(View())) && M.Reaches(old(View()), ops, View()) && Repr() <= old(Repr())
      decreases |ops|
    {
      hide M.Inv, M.Do, Shape;
      if ops != [] {
        Step(ops[0]);
        Run(ops[1..]);
      }
    }
  }
}
