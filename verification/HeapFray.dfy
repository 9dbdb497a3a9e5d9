/** What coalescing costs in source/sosal/heap.c as it stands: a run of five calls
    after which the heap loses its free memory.
 */
module HeapFray {
  import opened ListOrder
  import opened HeapModel

  // A heap of four units after each of: three allocations, the third given back
  // (it swallows the free remainder behind it, which was the last node of the free
  // list, so the tail goes stale), and the first given back.
  function Carved(n: nat): Heap
    requires n <= 3
  {
    var blocks := [Blk(32, 4096), Blk(32, 4128), Blk(32, 4160)];
    Heap(4096, 32, 4, true, blocks[..n], [Blk(128 - 32 * n, 4096 + 32 * n)], 3 - n, false, 32 * n, 128 - 32 * n, 0,
        multiset{}, 0)
  }

  function Merged(): Heap {
    Heap(4096, 32, 4, true, [Blk(32, 4096), Blk(32, 4128)], [Blk(64, 4160)], 0, true, 64, 64, 1, multiset{}, 0)
  }

  function Frayed(): Heap {
    Heap(4096, 32, 4, true, [Blk(32, 4128)], [Blk(32, 4096), Blk(64, 4160)], 0, true, 32, 96, 1, multiset{}, 0)
  }

  lemma BestOfOne(b: Blk, want: nat)
    ensures BestFit([b], want) == if RateBestFit(b, Blk(want, 0)) > 0 then 0 else 1
  {
    var k := if RateBestFit(b, Blk(want, 0)) > 0 then 0 else 1;
    assert IsBest(RateBestFit, [b], Blk(want, 0), k);
    BestIsUnique(RateBestFit, [b], Blk(want, 0), k, BestFit([b], want));
  }

  lemma CarveFront(h: Heap, size: nat, addr: nat, n: nat)
    requires h.align == 32 && h.free == [Blk(size, addr)] && n == 32 && 32 < size < 1000 && h.bytesFree >= 32
    requires h.spare > 0
    requires Sorted(ComparePtr, true, h.used) && Parts(h.used, Blk(32, addr), |h.used|)
    ensures AllBlocks(h.free)
    ensures Alloc(h, n).0 == h.(used := h.used + [Blk(32, addr)], free := [Blk(size - 32, addr + 32)],
            spare := h.spare - 1,
                                stale := false, bytesFree := h.bytesFree - 32, bytesUsed := h.bytesUsed + 32)
  {
    BestOfOne(h.free[0], 32);
    assert BlockSize(32, 32) == 32;
    PutAt(h.used, Blk(32, addr), |h.used|);
    assert Cut(h.free, 0) == [];
    PutAt([], Blk(size - 32, addr + 32), 0);
  }

  lemma CarvedOrder(n: nat)
    requires n < 3
    ensures Sorted(ComparePtr, true, Carved(n).used) && Parts(Carved(n).used, Blk(32, 4096 + 32 * n), |Carved(n).used|)
    ensures Carved(n + 1).used == Carved(n).used + [Blk(32, 4096 + 32 * n)]
  {
  }

  lemma CarveStep(n: nat)
    requires n < 3 && Inv(Carved(n))
    ensures Do(Carved(n), AllocOp(32)) == Carved(n + 1)
  {
    hide Inv, Sorted, Parts, Alloc;
    CarvedOrder(n);
    CarveFront(Carved(n), 128 - 32 * n, 4096 + 32 * n, 32);
  }

  // After the release and before the merge.
  function Given(): Heap {
    Heap(4096, 32, 4, true, [Blk(32, 4096), Blk(32, 4128)], [Blk(32, 4160), Blk(32, 4192)], 0, false, 64, 64, 0,
        multiset{}, 0)
  }

  lemma MergeRelease()
    ensures var h := Carved(3);
            && h.coalesce && Match(ComparePtr, h.used, Blk(0, 4160), 0) == 2 && h.used[2] == Blk(32, 4160)
            && InsertPosition(ComparePtr, true, h.free, Blk(32, 4160)) == 0
            && h.bytesUsed >= SizeOf(h.used[2]) && Release(h, 2) == Given()
  {
    var h := Carved(3);
    assert h.used == [Blk(32, 4096), Blk(32, 4128), Blk(32, 4160)];
    assert ComparePtr(h.used[0], Blk(0, 4160)) != 0 && ComparePtr(h.used[1], Blk(0, 4160)) != 0;
    PutAt(h.free, Blk(32, 4160), 0);
    assert Splice(h.free, 0, Blk(32, 4160)) == [Blk(32, 4160), Blk(32, 4192)];
    assert Cut(h.used, 2) == [Blk(32, 4096), Blk(32, 4128)];
  }

  lemma MergeGlue()
    ensures Coalesce(Given(), 0) == Merged()
  {
    assert Merge(Given().free, 0) == [Blk(64, 4160)];
  }

  lemma MergeStep()
    requires Inv(Carved(3))
    ensures Do(Carved(3), FreeOp(4160)) == Merged()
  {
    hide Inv, Match, InsertPosition, Release, Coalesce, Given, Merged, Free;
    MergeRelease();
    MergeGlue();
    FreeIs(Carved(3), 4160);
  }

  lemma FrayStep()
    requires Inv(Merged())
    ensures Do(Merged(), FreeOp(4096)) == Frayed()
  {
    var h := Merged();
    FrayRelease();
    hide Inv, Release, Put;
    assert ComparePtr(h.used[0], Blk(0, 4096)) == 0;
    assert Match(ComparePtr, h.used, Blk(0, 4096), 0) == 0;
    assert !Adjacent(Frayed().free[0], Frayed().free[1]);
  }

  lemma FrayRelease()
    ensures Merged().bytesUsed >= SizeOf(Merged().used[0]) && Release(Merged(), 0) == Frayed()
    ensures InsertPosition(ComparePtr, true, Merged().free, Blk(32, 4096)) == 0
  {
    var h := Merged();
    PutAt(h.free, Blk(32, 4096), 0);
    assert Splice(h.free, 0, Blk(32, 4096)) == [Blk(32, 4096), Blk(64, 4160)];
    assert Cut(h.used, 0) == [Blk(32, 4128)];
  }

  lemma Before(h: Heap, op: Op, h': Heap, ops: seq<Op>, end: Heap)
    requires Inv(h) && Do(h, op) == h' && Inv(h') && Reaches(h', ops, end)
    ensures Reaches(h, [op] + ops, end)
  {
    assert ([op] + ops)[1..] == ops;
  }

  lemma FrayedScores()
    ensures BestFit(Frayed().free, 64) == 1
  {
    var s, x := Frayed().free, Blk(64, 0);
    assert RateBestFit(s[0], x) == 0 && RateBestFit(s[1], x) == MAX_SCORE;
    assert IsBest(RateBestFit, s, x, 1);
    BestIsUnique(RateBestFit, s, x, 1, BestFit(s, 64));
  }

  lemma FrayedLoses()
    ensures SomeFit(Frayed().free, 64) && AllBlocks(Frayed().free)
    ensures Alloc(Frayed(), 64) == (Lose(Frayed()), None)
    ensures Lose(Frayed()).free == [] && Lose(Frayed()).bytesFree == 96
  {
    assert BlockSize(32, 64) == 64;
    assert SizeOf(Frayed().free[1]) >= 64;
    FrayedScores();
    hide BestFit;
  }

  // Three allocations, then the third and the first given back.
  function Script(): seq<Op> {
    [AllocOp(32), AllocOp(32), AllocOp(32), FreeOp(4160), FreeOp(4096)]
  }

  lemma FrayedReached(start: Heap, end: Heap)
    requires start == Carved(0) && end == Frayed() && Inv(start)
    ensures Inv(end) && Reaches(start, Script(), end)
  {
    hide Do, Inv, Reaches, Carved, Merged, Frayed;
    CarveStep(0);
    DoInv(Carved(0), AllocOp(32));
    CarveStep(1);
    DoInv(Carved(1), AllocOp(32));
    CarveStep(2);
    DoInv(Carved(2), AllocOp(32));
    MergeStep();
    DoInv(Carved(3), FreeOp(4160));
    FrayStep();
    DoInv(Merged(), FreeOp(4096));
    Arrived(Frayed());
    Before(Merged(), FreeOp(4096), Frayed(), [], Frayed());
    Before(Carved(3), FreeOp(4160), Merged(), [FreeOp(4096)] + [], Frayed());
    Before(Carved(2), AllocOp(32), Carved(3), [FreeOp(4160)] + ([FreeOp(4096)] + []), Frayed());
    Before(Carved(1), AllocOp(32), Carved(2), [AllocOp(32)] + ([FreeOp(4160)] + ([FreeOp(4096)] + [])), Frayed());
    Before(Carved(0), AllocOp(32), Carved(1),
        [AllocOp(32)] + ([AllocOp(32)] + ([FreeOp(4160)] + ([FreeOp(4096)] + []))), Frayed());
    assert [AllocOp(32)] + ([AllocOp(32)] + ([AllocOp(32)] + ([FreeOp(4160)] + ([FreeOp(4096)] + [])))) == Script();
  }

  lemma CarvedZero()
    ensures Carved(0) == Init(4096, 32, 4, true)
  {
  }

  lemma Arrived(h: Heap)
    requires Inv(h)
    ensures Reaches(h, [], h)
  {
  }

  // With the coalescing policy on, as heap_init sets it, five calls lead to a heap
  // in which a request that fits a free block exactly gets NULL - and takes all
  // free memory with it: the free list is empty afterwards, while the counter
  // still shows 96 free bytes.
  lemma CoalesceLosesMemory(start: Heap, end: Heap)
    requires start == Init(4096, 32, 4, true) && end == Frayed()
    ensures Inv(start) && Inv(end) && Reaches(start, Script(), end)
    ensures SomeFit(end.free, 64) && AllBlocks(end.free)
    ensures Alloc(end, 64) == (Lose(end), None)
    ensures Lose(end).free == [] && Lose(end).bytesFree == 96
  {
    hide Inv, Reaches, Carved, Frayed, Init, Script, Alloc, Lose, SomeFit, AllBlocks;
    InitInv(4096, 32, 4, true);
    CarvedZero();
    FrayedReached(start, end);
    FrayedLoses();
  }

  // ---- the spare nodes run out ------------------------------------------------------

  // Three allocations, then the third given back.
  function ShortScript(): seq<Op> {
    [AllocOp(32), AllocOp(32), AllocOp(32), FreeOp(4160)]
  }

  lemma MergedReached(start: Heap, end: Heap)
    requires start == Carved(0) && end == Merged() && Inv(start)
    ensures Inv(end) && Reaches(start, ShortScript(), end)
  {
    hide Do, Inv, Reaches, Carved, Merged;
    CarveStep(0);
    DoInv(Carved(0), AllocOp(32));
    CarveStep(1);
    DoInv(Carved(1), AllocOp(32));
    CarveStep(2);
    DoInv(Carved(2), AllocOp(32));
    MergeStep();
    DoInv(Carved(3), FreeOp(4160));
    Arrived(Merged());
    Before(Carved(3), FreeOp(4160), Merged(), [], Merged());
    Before(Carved(2), AllocOp(32), Carved(3), [FreeOp(4160)] + [], Merged());
    Before(Carved(1), AllocOp(32), Carved(2), [AllocOp(32)] + ([FreeOp(4160)] + []), Merged());
    Before(Carved(0), AllocOp(32), Carved(1), [AllocOp(32)] + ([AllocOp(32)] + ([FreeOp(4160)] + [])), Merged());
    assert [AllocOp(32)] + ([AllocOp(32)] + ([AllocOp(32)] + ([FreeOp(4160)] + []))) == ShortScript();
  }

  lemma MergedRefuses()
    ensures SomeFit(Merged().free, 32) && AllBlocks(Merged().free) && Alloc(Merged(), 32).1 == None
    ensures BestFit(Merged().free, 32) == 0 && !Loses(Merged(), 0)
  {
    assert BlockSize(32, 32) == 32;
    assert SizeOf(Merged().free[0]) >= 32;
    BestOfOne(Merged().free[0], 32);
    hide BestFit;
  }

  // Four calls lead to a heap with 64 free bytes in one block that refuses 32 of
  // them, because the node the merge cleared is missing for the split.
  lemma LeakedNodeRefuses(start: Heap, end: Heap)
    requires start == Init(4096, 32, 4, true) && end == Merged()
    ensures Inv(start) && Inv(end) && Reaches(start, ShortScript(), end)
    ensures end.free == [Blk(64, 4160)] && end.spare == 0 && end.leaked == 1
    ensures AllBlocks(end.free) && !Loses(end, BestFit(end.free, 32)) && Alloc(end, 32).1 == None
  {
    hide Inv, Reaches, Carved, Init, ShortScript, Alloc, SomeFit, AllBlocks;
    InitInv(4096, 32, 4, true);
    CarvedZero();
    MergedReached(start, end);
    MergedRefuses();
  }
}
