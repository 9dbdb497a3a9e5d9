/** When the 32-bit score of source/sosal/heap.c picks the best fit: exactly in
    heaps that are too small for two blocks that fit with a difference of 4 GiB.
 */
module BestFit {
  import opened Arithmetic
  import opened ListOrder
  import opened HeapModel

  // Position k of the free list is the lowest in memory of the smallest that fit.
  predicate LowestSmallest(free: seq<Blk>, want: nat, k: nat) {
    && k < |free| && SizeOf(free[k]) >= want
    && (forall j :: 0 <= j < |free| && SizeOf(free[j]) >= want ==> SizeOf(free[k]) <= SizeOf(free[j]))
    && (forall j :: 0 <= j < |free| && SizeOf(free[j]) == SizeOf(free[k]) ==> AddrOf(free[k]) <= AddrOf(free[j]))
  }

  predicate ChoosesRight(h: Heap, want: nat) {
    BestFit(h.free, want) < |h.free| ==> LowestSmallest(h.free, want, BestFit(h.free, want))
  }

  lemma Rate(b: Blk, want: nat)
    requires SizeOf(b) >= want
    ensures RateBestFit(b, Blk(want, 0)) == MAX_SCORE - (SizeOf(b) - want) % SCORES
  {
  }

  // A better score for a larger block takes a difference of 4 GiB.
  lemma Overtakes(b: Blk, c: Blk, want: nat)
    requires want <= SizeOf(c) < SizeOf(b)
    requires RateBestFit(c, Blk(want, 0)) <= RateBestFit(b, Blk(want, 0))
    ensures SizeOf(b) >= want + SCORES
  {
    Rate(b, want);
    Rate(c, want);
  }

  lemma TwoBlocks(s: seq<Blk>, i: nat, j: nat)
    requires i < |s| && j < |s| && i != j
    ensures SizeOf(s[i]) + SizeOf(s[j]) <= Sum(s)
  {
    SumAt(s, i);
    var rest, j' := Cut(s, i), if j < i then j else j - 1;
    assert rest[j'] == s[j];
    hide Sum, Cut;
    SumAt(rest, j');
  }

  // Two blocks that differ by 4 GiB and both fit do not fit side by side.
  lemma NoRoomToWrap(h: Heap, want: nat, k: nat, j: nat)
    requires Inv(h) && h.maxBlocks * h.align <= SCORES + h.align && want >= h.align
    requires k < |h.free| && j < |h.free| && want <= SizeOf(h.free[j]) < SizeOf(h.free[k])
    ensures SizeOf(h.free[k]) < want + SCORES
  {
    TwoBlocks(h.free, k, j);
  }

  // Up to one alignment unit beyond 4 GiB the choice is right.
  lemma BestFitIsBest(h: Heap, want: nat)
    requires Inv(h) && h.maxBlocks * h.align <= SCORES + h.align && want > 0 && Aligned(want, h.align)
    ensures ChoosesRight(h, want)
  {
    var k, x := BestFit(h.free, want), Blk(want, 0);
    if k < |h.free| {
      Blocks(h);
      FitsBest(h.free, want);
      InOrder(h);
      Multiples(want, 0, h.align);
      assert IsBest(RateBestFit, h.free, x, k);
      hide Placed, Counted, BestFit, RateBestFit;
      forall j | 0 <= j < |h.free| && SizeOf(h.free[j]) >= want ensures SizeOf(h.free[k]) <= SizeOf(h.free[j]) {
        if SizeOf(h.free[j]) < SizeOf(h.free[k]) {
          Overtakes(h.free[k], h.free[j], want);
          NoRoomToWrap(h, want, k, j);
        }
      }
      forall j | 0 <= j < |h.free| && SizeOf(h.free[j]) == SizeOf(h.free[k])
        ensures AddrOf(h.free[k]) <= AddrOf(h.free[j])
      {
        SameRate(h.free[j], h.free[k], want);
        AscendingAddr(h.free, k, j);
      }
    }
  }

  lemma SameRate(b: Blk, c: Blk, want: nat)
    requires SizeOf(b) == SizeOf(c)
    ensures RateBestFit(b, Blk(want, 0)) == RateBestFit(c, Blk(want, 0))
  {
  }

  lemma AscendingAddr(s: seq<Blk>, k: nat, j: nat)
    requires Ascending(s) && k <= j < |s|
    ensures AddrOf(s[k]) <= AddrOf(s[j])
  {
  }

  // ---- beyond that size ----------------------------------------------------------------

  // A free block of one unit behind one of 4 GiB and a unit; whatever else there
  // is, is in use.
  function Crowded(align: nat, n: nat): Heap
    requires n * align >= SCORES + 2 * align
  {
    var rest := n * align - SCORES - 2 * align;
    var used := if rest == 0 then [] else [Blk(rest, SCORES + 3 * align)];
    Heap(align, align, n, false, used, [Blk(SCORES + align, align), Blk(align, SCORES + 2 * align)],
         if n < 2 + |used| then 0 else n - 2 - |used|, false, rest, SCORES + 2 * align, 0, multiset{}, 0)
  }

  lemma WholeTiles(align: nat, n: nat)
    requires align > 0 && n > 0
    ensures Tiling(multiset{Blk(n * align, align)}, align, align + n * align, align)
  {
    var h := Init(align, align, n, false);
    ModOfMultiple(1, align);
    InitInv(align, align, n, false);
    assert Placed(h);
    assert All(h) == multiset{Blk(n * align, align)} by { hide Inv, Tiling, Sorted; }
  }

  // A region of one piece stays tiled when it is cut behind `want` bytes.
  lemma CutOnce(size: nat, addr: nat, want: nat, lo: nat, hi: nat, align: nat)
    requires align > 0 && 0 < want < size && Aligned(want, align) && Tiling(multiset{Blk(size, addr)}, lo, hi, align)
    ensures Tiling(multiset{Blk(want, addr)} + multiset{Blk(size - want, addr + want)}, lo, hi, align)
  {
    hide Tiling;
    NoRest(multiset{Blk(size, addr)});
    SplitPiece(multiset{}, Blk(size, addr), want, lo, hi, align);
    NoRest(multiset{Blk(want, addr)});
  }

  lemma NoRest(some: multiset<Blk>)
    ensures multiset{} + some == some
  {
  }

  lemma CrowdedTiles(align: nat, n: nat)
    requires align > 0 && SCORES % align == 0 && n * align >= SCORES + 2 * align
    ensures var h := Crowded(align, n); Tiling(All(h), align, align + n * align, align)
  {
    var h, size := Crowded(align, n), n * align;
    Step(n, align);
    WholeTiles(align, n);
    UnitsAligned(align);
    hide Tiling, All;
    CrowdedPieces(h, size, align);
  }

  lemma CrowdedPieces(h: Heap, size: nat, align: nat)
    requires align > 0 && size >= SCORES + align + align && Aligned(align, align) && Aligned(SCORES + align, align)
    requires h.free == [Blk(SCORES + align, align), Blk(align, SCORES + align + align)] && h.lost == multiset{}
    requires h.used == if size == SCORES + align + align then []
             else [Blk(size - SCORES - align - align, SCORES + align + align + align)]
    requires Tiling(multiset{Blk(size, align)}, align, align + size, align)
    ensures Tiling(All(h), align, align + size, align)
  {
    hide *;
    var first, second := Blk(SCORES + align, align), Blk(align, SCORES + align + align);
    var tail := Blk(size - SCORES - align, SCORES + align + align);
    CutOnce(size, align, SCORES + align, align, align + size, align);
    if size == SCORES + align + align {
      CrowdedFree(h, first, second);
    } else {
      SplitPiece(multiset{first}, tail, align, align, align + size, align);
      CrowdedAll(h, first, second, h.used[0]);
    }
  }

  lemma UnitsAligned(align: nat)
    requires align > 0 && SCORES % align == 0
    ensures Aligned(align, align) && Aligned(SCORES + align, align)
  {
    ModOfMultiple(1, align);
    Multiples(SCORES, align, align);
  }

  lemma CrowdedFree(h: Heap, first: Blk, second: Blk)
    requires h.free == [first, second] && h.used == [] && h.lost == multiset{}
    ensures All(h) == multiset{first} + multiset{second}
  {
  }

  lemma CrowdedAll(h: Heap, first: Blk, second: Blk, third: Blk)
    requires h.free == [first, second] && h.used == [third] && h.lost == multiset{}
    ensures All(h) == multiset{first} + multiset{second} + multiset{third}
  {
  }

  lemma CrowdedInv(align: nat, n: nat)
    requires align > 0 && SCORES % align == 0 && n * align >= SCORES + 2 * align
    ensures Inv(Crowded(align, n))
  {
    var h := Crowded(align, n);
    CrowdedTiles(align, n);
    CrowdedNodes(align, n);
    ModOfMultiple(1, align);
    hide Tiling;
    assert Sum(h.free) == SizeOf(h.free[0]) + SizeOf(h.free[1]) by { SumPair(h.free); }
    assert Sum(h.used) == h.bytesUsed;
  }

  lemma SumPair(s: seq<Blk>)
    requires |s| == 2
    ensures Sum(s) == SizeOf(s[0]) + SizeOf(s[1])
  {
    assert s[1..] == [s[1]] && s[1..][1..] == [];
    assert Sum([s[1]]) == SizeOf(s[1]);
  }

  lemma CrowdedNodes(align: nat, n: nat)
    requires align > 0 && SCORES % align == 0 && n * align >= SCORES + 2 * align
    ensures n >= 2 + |Crowded(align, n).used|
  {
    var u := SCORES / align;
    assert SCORES == u * align;
    Distribute(u, 2, align);
    Order(n, u + 2, align);
    assert u > 0;
  }

  lemma CrowdedIsWrong(align: nat, n: nat)
    requires align > 0 && n * align >= SCORES + 2 * align
    ensures BestFit(Crowded(align, n).free, align) == 0 && !ChoosesRight(Crowded(align, n), align)
  {
    var s, x := Crowded(align, n).free, Blk(align, 0);
    Rate(s[0], align);
    Rate(s[1], align);
    assert IsBest(RateBestFit, s, x, 0);
    BestIsUnique(RateBestFit, s, x, 0, BestFit(s, align));
    assert SizeOf(s[1]) == align && SizeOf(s[0]) > align;
  }

  // ---- exactly ---------------------------------------------------------------------------

  ghost predicate AlwaysRight(align: nat, n: nat)
    requires align > 0
  {
    forall h: Heap, want: nat {:trigger ChoosesRight(h, want)} ::
      Inv(h) && h.align == align && h.maxBlocks == n && want > 0 && Aligned(want, align) ==> ChoosesRight(h, want)
  }

  // Every heap of n units of a given alignment chooses right for every request it
  // can round to if and only if the units come to at most 4 GiB and one more.  All
  // alignments the program uses divide 4 GiB.
  lemma BestFitExactly(align: nat, n: nat)
    requires align > 0 && SCORES % align == 0
    ensures AlwaysRight(align, n) <==> n * align <= SCORES + align
  {
    if n * align <= SCORES + align {
      forall h: Heap, want: nat {:trigger ChoosesRight(h, want)}
        | Inv(h) && h.align == align && h.maxBlocks == n && want > 0 && Aligned(want, align)
        ensures ChoosesRight(h, want)
      {
        BestFitIsBest(h, want);
      }
    } else {
      NextUnit(align, n);
      CrowdedInv(align, n);
      CrowdedIsWrong(align, n);
      ModOfMultiple(1, align);
      assert !ChoosesRight(Crowded(align, n), align);
    }
  }

  lemma NextUnit(align: nat, n: nat)
    requires align > 0 && SCORES % align == 0 && n * align > SCORES + align
    ensures n * align >= SCORES + 2 * align
  {
    ModOfMultiple(n, align);
    ModOfMultiple(1, align);
    Multiples(SCORES, align, align);
    Multiples(n * align, SCORES + align, align);
  }

  // The pointer an allocation returns is the address of that block.
  lemma AllocIsBestFit(h: Heap, numBytes: nat) returns (k: nat)
    requires Inv(h) && AllBlocks(h.free) && h.maxBlocks * h.align <= SCORES + h.align && Alloc(h, numBytes).1.Some?
    ensures LowestSmallest(h.free, BlockSize(h.align, numBytes), k) && Alloc(h, numBytes).1.value == AddrOf(h.free[k])
  {
    var want := BlockSize(h.align, numBytes);
    BlockSizeRounds(h.align, numBytes);
    k := BestFit(h.free, want);
    FitsBest(h.free, want);
    BestFitIsBest(h, want);
    hide Inv, BestFit, LowestSmallest, Put, Cut;
  }
}
