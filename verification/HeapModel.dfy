/** What the heap allocator (source/sosal/heap.c) does, on the sequences of blocks
    its lists hold; the lists themselves are in Heap.dfy.

    `coalesce` is the heap's coalescePolicy and may be either way.  With it on the
    code is modelled as it stands: a merge clears a list node without returning it
    to the spare list, and when that node was the last of the free list the list's
    tail goes on showing it (`stale`).
 */
module HeapModel {
  import opened Arithmetic
  import opened ListOrder

  // What a list node's data points to; a cleared node points to nothing.
  datatype Blk = NoBlk | Blk(size: nat, addr: nat)

  datatype Option<T> = None | Some(value: T)

  const MAX_SCORE: nat := 0xFFFF_FFFF
  const SCORES: nat := 0x1_0000_0000

  // ---- the small helpers ------------------------------------------------------

  predicate Aligned(x: nat, align: nat)
    requires align > 0
  {
    x % align == 0
  }

  function BlockSize(align: nat, desired: nat): nat
    requires align > 0
  {
    var remainder := desired % align;
    if remainder != 0 then desired + (align - remainder) else desired
  }

  function AddrOf(b: Blk): nat { if b.Blk? then b.addr else 0 }

  function SizeOf(b: Blk): nat { if b.Blk? then b.size else 0 }

  function ComparePtr(a: Blk, b: Blk): int {
    if AddrOf(a) < AddrOf(b) then -1 else if AddrOf(a) == AddrOf(b) then 0 else 1
  }

  predicate Adjacent(a: Blk, b: Blk) {
    a.Blk? && b.Blk? && a.addr + a.size == b.addr
  }

  // The score is an unsigned 32-bit number; a larger excess wraps around.
  function RateBestFit(current: Blk, criteria: Blk): nat {
    var have, want := SizeOf(current), SizeOf(criteria);
    if have == want then MAX_SCORE
    else if have > want then (MAX_SCORE - (have - want)) % SCORES
    else 0
  }

  lemma ComparePtrIsTotal()
    ensures TotalPreorder(ComparePtr)
  {
  }

  // ---- the heap -----------------------------------------------------------------

  datatype Heap = Heap(
    base: nat, align: nat, maxBlocks: nat, coalesce: bool,
    used: seq<Blk>, free: seq<Blk>, spare: nat, stale: bool,
    bytesUsed: nat, bytesFree: nat,
    // what no list leads to any more: nodes, and blocks with their bytes
    leaked: nat, lost: multiset<Blk>, lostBytes: nat)

  function Put(s: seq<Blk>, b: Blk): seq<Blk> {
    ComparePtrIsTotal();
    InsertMeaning(ComparePtr, true, s, b);
    Splice(s, InsertPosition(ComparePtr, true, s, b), b)
  }

  function Sum(s: seq<Blk>): nat {
    if s == [] then 0 else SizeOf(s[0]) + Sum(s[1..])
  }

  // The best fit for a request of `want` bytes; the length if nothing fits.
  function BestFit(free: seq<Blk>, want: nat): nat {
    BestIndex(RateBestFit, free, Blk(want, 0))
  }

  function Init(base: nat, align: nat, maxBlocks: nat, coalesce: bool): Heap
    requires maxBlocks > 0
  {
    Heap(base, align, maxBlocks, coalesce, [], [Blk(maxBlocks * align, base)], maxBlocks - 1, false, 0,
        maxBlocks * align,
         0, multiset{}, 0)
  }

  // A block leaves the free list for the used list, cut down to size.
  function Take(h: Heap, k: nat, want: nat): (Heap, Option<nat>)
    requires k < |h.free| && h.free[k].Blk? && h.free[k].size >= want && h.bytesFree >= want
  {
    var b, rest := h.free[k], Cut(h.free, k);
    var stale := h.stale && rest != [];
    if b.size > want then
      if h.spare == 0 then (h.(free := Put(rest, b), stale := stale), None)
      else
        (h.(used := Put(h.used, Blk(want, b.addr)), free := Put(rest, Blk(b.size - want, b.addr + want)),
            spare := h.spare - 1, stale := stale,
            bytesFree := h.bytesFree - want, bytesUsed := h.bytesUsed + want), Some(b.addr))
    else
      (h.(used := Put(h.used, b), free := rest, stale := stale,
          bytesFree := h.bytesFree - want, bytesUsed := h.bytesUsed + want), Some(b.addr))
  }

  // Extracting the last of several nodes through a stale tail.
  predicate Loses(h: Heap, k: nat) {
    h.stale && 0 < k == |h.free| - 1
  }

  function Lose(h: Heap): Heap {
    h.(free := [], stale := false, leaked := h.leaked + |h.free|, lost := h.lost + multiset(h.free),
        lostBytes := h.lostBytes + Sum(h.free))
  }

  // A rounded request that the byte counter allows.
  function Serve(h: Heap, want: nat): (Heap, Option<nat>)
    requires AllBlocks(h.free) && h.bytesFree >= want
  {
    var k := BestFit(h.free, want);
    FitsBest(h.free, want);
    if k == |h.free| then (h, None)
    else if Loses(h, k) then (Lose(h), None)
    else Take(h, k, want)
  }

  function Alloc(h: Heap, numBytes: nat): (Heap, Option<nat>)
    requires h.align > 0 && AllBlocks(h.free)
  {
    if numBytes == 0 then (h, None)
    else
      var want := BlockSize(h.align, numBytes);
      if h.bytesFree < want then (h, None) else Serve(h, want)
  }

  ghost predicate AllBlocks(s: seq<Blk>) {
    forall i {:trigger s[i]} :: 0 <= i < |s| ==> s[i].Blk?
  }

  lemma FitsBest(free: seq<Blk>, want: nat)
    requires AllBlocks(free)
    ensures BestFit(free, want) < |free| ==> SizeOf(free[BestFit(free, want)]) >= want
  {
    var k := BestFit(free, want);
    assert IsBest(RateBestFit, free, Blk(want, 0), k);
  }

  // The block at `i` swallows the one behind it.
  function Merge(s: seq<Blk>, i: nat): seq<Blk>
    requires i + 1 < |s| && Adjacent(s[i], s[i + 1])
  {
    Cut(s[i := Blk(s[i].size + s[i + 1].size, s[i].addr)], i + 1)
  }

  // One merge at most: with the block before, or else with the block behind.
  function Coalesce(h: Heap, i: nat): Heap
    requires i < |h.free|
  {
    var last := |h.free| - 1;
    if i > 0 && Adjacent(h.free[i - 1], h.free[i]) then
      h.(free := Merge(h.free, i - 1), stale := h.stale || i == last, leaked := h.leaked + 1)
    else if i < last && Adjacent(h.free[i], h.free[i + 1]) then
      h.(free := Merge(h.free, i), stale := h.stale || i + 1 == last, leaked := h.leaked + 1)
    else h
  }

  function Release(h: Heap, k: nat): Heap
    requires k < |h.used| && h.bytesUsed >= SizeOf(h.used[k])
  {
    var b := h.used[k];
    h.(used := Cut(h.used, k), free := Put(h.free, b),
       bytesUsed := h.bytesUsed - SizeOf(b), bytesFree := h.bytesFree + SizeOf(b))
  }

  function Free(h: Heap, ptr: nat): (Heap, bool)
    requires h.align > 0 && h.bytesUsed == Sum(h.used)
  {
    if ptr == 0 || !Aligned(ptr, h.align) then (h, false)
    else
      var k := Match(ComparePtr, h.used, Blk(0, ptr), 0);
      if k == |h.used| then (h, false)
      else
        SumAt(h.used, k);
        var h' := Release(h, k);
        ComparePtrIsTotal();
        InsertMeaning(ComparePtr, true, h.free, h.used[k]);
        (if h.coalesce then Coalesce(h', InsertPosition(ComparePtr, true, h.free, h.used[k])) else h', true)
  }

  // ---- sums -----------------------------------------------------------------------

  lemma {:induction false} SumAppend(s: seq<Blk>, t: seq<Blk>)
    ensures Sum(s + t) == Sum(s) + Sum(t)
  {
    if s == [] {
      assert s + t == t;
    } else {
      SumAppend(s[1..], t);
      assert (s + t)[1..] == s[1..] + t;
    }
  }

  lemma SumSplice(s: seq<Blk>, p: nat, b: Blk)
    requires p <= |s|
    ensures Sum(Splice(s, p, b)) == Sum(s) + SizeOf(b)
  {
    SumAppend(s[..p], s[p..]);
    SumAppend(s[..p], [b]);
    SumAppend(s[..p] + [b], s[p..]);
    assert s == s[..p] + s[p..];
    assert Sum([b]) == SizeOf(b);
  }

  lemma SumAt(s: seq<Blk>, k: nat)
    requires k < |s|
    ensures Sum(s) == Sum(Cut(s, k)) + SizeOf(s[k])
  {
    CutThenSplice(s, k);
    hide Splice;
    SumSplice(Cut(s, k), k, s[k]);
  }

  lemma {:induction false} SumBounds(s: seq<Blk>, align: nat)
    requires align > 0 && forall i {:trigger s[i]} :: 0 <= i < |s| ==> SizeOf(s[i]) >= align
    ensures Sum(s) >= |s| * align
  {
    if s != [] {
      SumBounds(s[1..], align);
      Step(|s|, align);
    }
  }

  // ---- tiling -----------------------------------------------------------------------

  predicate InRegion(b: Blk, lo: nat, hi: nat, align: nat)
    requires align > 0
  {
    b.Blk? && b.size > 0 && lo <= b.addr && b.addr + b.size <= hi && Aligned(b.addr, align) && Aligned(b.size, align)
  }

  predicate Disjoint(b: Blk, c: Blk) {
    b.Blk? && c.Blk? && (b.addr + b.size <= c.addr || c.addr + c.size <= b.addr)
  }

  predicate Covers(b: Blk, x: nat) {
    b.Blk? && b.addr <= x < b.addr + b.size
  }

  // The blocks cut the region into pieces: each inside it and aligned, no two
  // overlapping, nothing left out.
  ghost predicate Tiling(all: multiset<Blk>, lo: nat, hi: nat, align: nat)
    requires align > 0
  {
    && (forall b {:trigger all[b]} :: b in all ==> InRegion(b, lo, hi, align) && all[b] == 1)
    && (forall b, c {:trigger all[b], all[c]} :: b in all && c in all && b != c ==> Disjoint(b, c))
    && (forall x: nat {:trigger InPiece(all, x)} :: lo <= x < hi ==> InPiece(all, x))
  }

  ghost predicate InPiece(all: multiset<Blk>, x: nat) {
    exists b :: b in all && Covers(b, x)
  }

  // Cutting a piece in two, or gluing two neighbours together.
  lemma SplitPiece(rest: multiset<Blk>, b: Blk, want: nat, lo: nat, hi: nat, align: nat)
    requires align > 0 && b.Blk? && 0 < want < b.size && Aligned(want, align)
    requires Tiling(rest + multiset{b}, lo, hi, align)
    ensures Tiling(rest + multiset{Blk(want, b.addr)} + multiset{Blk(b.size - want, b.addr + want)}, lo, hi, align)
  {
    var all := rest + multiset{b};
    var c, d := Blk(want, b.addr), Blk(b.size - want, b.addr + want);
    var all' := rest + multiset{c} + multiset{d};
    assert all[b] == 1 && b !in rest;
    Multiples(b.addr, want, align);
    Multiples(b.size, want, align);
    forall x: nat | lo <= x < hi ensures InPiece(all', x) {
      assert InPiece(all, x);
      var p :| p in all && Covers(p, x);
      assert p in rest ==> p in all';
      assert c in all' && d in all';
    }
    assert forall p :: p in rest ==> all[p] == 1 && Disjoint(p, b);
  }

  lemma GluePieces(rest: multiset<Blk>, b: Blk, c: Blk, lo: nat, hi: nat, align: nat)
    requires align > 0 && Adjacent(b, c)
    requires Tiling(rest + multiset{b} + multiset{c}, lo, hi, align)
    ensures Tiling(rest + multiset{Blk(b.size + c.size, b.addr)}, lo, hi, align)
  {
    var all := rest + multiset{b} + multiset{c};
    var d := Blk(b.size + c.size, b.addr);
    var all' := rest + multiset{d};
    assert all[b] == 1 && all[c] == 1;
    Multiples(b.size, c.size, align);
    forall p | p in rest ensures all[p] == 1 && all'[p] == 1 && Disjoint(p, d) {
      assert all[p] == 1;
      assert Disjoint(p, b) && Disjoint(p, c);
    }
    GlueCovers(rest, b, c, lo, hi);
  }

  lemma GlueCovers(rest: multiset<Blk>, b: Blk, c: Blk, lo: nat, hi: nat)
    requires Adjacent(b, c)
    requires forall x: nat {:trigger InPiece(rest + multiset{b} + multiset{c}, x)} :: lo <= x < hi ==>
             InPiece(rest + multiset{b} + multiset{c}, x)
    ensures forall x: nat {:trigger InPiece(rest + multiset{Blk(b.size + c.size, b.addr)}, x)} ::
              lo <= x < hi ==> InPiece(rest + multiset{Blk(b.size + c.size, b.addr)}, x)
  {
    var all := rest + multiset{b} + multiset{c};
    var d := Blk(b.size + c.size, b.addr);
    var all' := rest + multiset{d};
    forall x: nat | lo <= x < hi ensures InPiece(all', x) {
      assert InPiece(all, x);
      var p :| p in all && Covers(p, x);
      assert p in rest ==> p in all';
      assert d in all';
    }
  }

  // ---- the invariant ------------------------------------------------------------------

  ghost function All(h: Heap): multiset<Blk> {
    multiset(h.used) + multiset(h.free) + h.lost
  }

  ghost predicate Placed(h: Heap) {
    && h.align > 0 && h.base > 0 && Aligned(h.base, h.align)
    && Tiling(All(h), h.base, h.base + h.maxBlocks * h.align, h.align)
    && Sorted(ComparePtr, true, h.used) && Sorted(ComparePtr, true, h.free)
  }

  ghost predicate Counted(h: Heap) {
    && h.bytesUsed == Sum(h.used) && h.bytesFree == Sum(h.free) + h.lostBytes
    && h.bytesUsed + h.bytesFree == h.maxBlocks * h.align
    && |h.used| + |h.free| + h.spare + h.leaked == h.maxBlocks
    && (h.stale ==> h.coalesce && h.free != [])
    && (!h.coalesce ==> h.leaked == 0 && h.lost == multiset{} && h.lostBytes == 0)
  }

  ghost predicate Inv(h: Heap) {
    Placed(h) && Counted(h)
  }

  lemma Blocks(h: Heap)
    requires Placed(h)
    ensures AllBlocks(h.used) && AllBlocks(h.free)
    ensures forall i {:trigger h.used[i]} :: 0 <= i < |h.used| ==>
            InRegion(h.used[i], h.base, h.base + h.maxBlocks * h.align, h.align)
    ensures forall i {:trigger h.free[i]} :: 0 <= i < |h.free| ==>
            InRegion(h.free[i], h.base, h.base + h.maxBlocks * h.align, h.align)
  {
    forall i | 0 <= i < |h.used| ensures h.used[i] in All(h) { assert h.used[i] in multiset(h.used); }
    forall i | 0 <= i < |h.free| ensures h.free[i] in All(h) { assert h.free[i] in multiset(h.free); }
  }

  lemma PutFacts(s: seq<Blk>, b: Blk)
    ensures multiset(Put(s, b)) == multiset(s) + multiset{b} && |Put(s, b)| == |s| + 1
    ensures Sum(Put(s, b)) == Sum(s) + SizeOf(b)
    ensures Sorted(ComparePtr, true, s) ==> Sorted(ComparePtr, true, Put(s, b))
  {
    ComparePtrIsTotal();
    InsertMeaning(ComparePtr, true, s, b);
    SumSplice(s, InsertPosition(ComparePtr, true, s, b), b);
  }

  lemma CutFacts(s: seq<Blk>, k: nat)
    requires k < |s|
    ensures multiset(s) == multiset(Cut(s, k)) + multiset{s[k]} && |Cut(s, k)| == |s| - 1
    ensures Sum(s) == Sum(Cut(s, k)) + SizeOf(s[k])
    ensures Sorted(ComparePtr, true, s) ==> Sorted(ComparePtr, true, Cut(s, k))
  {
    CutThenSplice(s, k);
    SumAt(s, k);
  }

  lemma InitInv(base: nat, align: nat, maxBlocks: nat, coalesce: bool)
    requires maxBlocks > 0 && align > 0 && base > 0 && Aligned(base, align)
    ensures Inv(Init(base, align, maxBlocks, coalesce))
  {
    var h := Init(base, align, maxBlocks, coalesce);
    var b := h.free[0];
    Step(maxBlocks, align);
    ModOfMultiple(maxBlocks, align);
    assert All(h) == multiset{b};
    assert Sum(h.free) == b.size;
    forall x: nat | base <= x < base + maxBlocks * align ensures InPiece(All(h), x) {
      assert b in All(h) && Covers(b, x);
    }
  }

  lemma LoseInv(h: Heap)
    requires Inv(h) && h.stale
    ensures Inv(Lose(h)) && All(Lose(h)) == All(h)
  {
    assert All(Lose(h)) == All(h);
  }

  // A request that was rounded up.
  ghost predicate Request(h: Heap, k: nat, want: nat) {
    && Inv(h) && k < |h.free| && h.free[k].Blk? && h.free[k].size >= want > 0 && Aligned(want, h.align)
  }

  lemma TakeWhole(h: Heap, k: nat, want: nat)
    requires Request(h, k, want) && want == h.free[k].size && h.bytesFree >= want
    ensures Inv(Take(h, k, want).0)
  {
    hide Put, Cut, Sorted, Tiling, Sum, SizeOf;
    CutFacts(h.free, k);
    PutFacts(h.used, h.free[k]);
    assert All(Take(h, k, want).0) == All(h);
    SizeOfBlock(h.free[k]);
  }

  lemma SizeOfBlock(b: Blk)
    requires b.Blk?
    ensures SizeOf(b) == b.size
  {
  }

  lemma TakePart(h: Heap, k: nat, want: nat)
    requires Request(h, k, want) && want < h.free[k].size && h.spare > 0 && h.bytesFree >= want
    ensures Inv(Take(h, k, want).0)
  {
    hide Put, Cut, Sorted, Tiling, Sum, SizeOf;
    var b, rest := h.free[k], Cut(h.free, k);
    var c, d := Blk(want, b.addr), Blk(b.size - want, b.addr + want);
    CutFacts(h.free, k);
    PutFacts(h.used, c);
    PutFacts(rest, d);
    SizeOfBlock(b);
    SizeOfBlock(c);
    SizeOfBlock(d);
    var others := multiset(h.used) + multiset(rest) + h.lost;
    Regroup(multiset(h.used), multiset(rest), multiset{b}, multiset{}, h.lost);
    PartIn(multiset(h.used), multiset(rest), c, d, h.lost);
    SplitPiece(others, b, want, h.base, h.base + h.maxBlocks * h.align, h.align);
  }

  lemma PartIn(used: multiset<Blk>, rest: multiset<Blk>, c: Blk, d: Blk, lost: multiset<Blk>)
    ensures used + multiset{c} + (rest + multiset{d}) + lost == used + rest + lost + multiset{c} + multiset{d}
  {
  }

  // ---- order in memory ------------------------------------------------------------------

  // Each block of the list ends where the next begins, or before.
  ghost predicate Ascending(s: seq<Blk>) {
    && AllBlocks(s)
    && forall i, j :: 0 <= i < j < |s| ==> AddrOf(s[i]) + SizeOf(s[i]) <= AddrOf(s[j]) && SizeOf(s[i]) > 0
  }

  lemma Twice(s: seq<Blk>, i: nat, j: nat)
    requires i < j < |s| && s[i] == s[j]
    ensures multiset(s)[s[i]] >= 2
  {
    assert s == s[..j] + [s[j]] + s[j + 1..];
    assert s[..j][i] == s[i];
    assert s[i] in multiset(s[..j]);
  }

  lemma SortedDisjoint(s: seq<Blk>, all: multiset<Blk>, lo: nat, hi: nat, align: nat)
    requires align > 0 && Tiling(all, lo, hi, align) && multiset(s) <= all && Sorted(ComparePtr, true, s)
    ensures Ascending(s)
  {
    forall i | 0 <= i < |s| ensures InRegion(s[i], lo, hi, align) && all[s[i]] == 1 {
      assert s[i] in multiset(s);
      assert all[s[i]] == 1;
    }
    forall i, j | 0 <= i < j < |s| ensures AddrOf(s[i]) + SizeOf(s[i]) <= AddrOf(s[j]) && SizeOf(s[i]) > 0 {
      if s[i] == s[j] { Twice(s, i, j); }
      assert Towards(ComparePtr, true, s[i], s[j]) <= 0;
      assert all[s[i]] == 1 && all[s[j]] == 1;
    }
  }

  lemma InOrder(h: Heap)
    requires Placed(h)
    ensures Ascending(h.used) && Ascending(h.free)
  {
    SortedDisjoint(h.used, All(h), h.base, h.base + h.maxBlocks * h.align, h.align);
    SortedDisjoint(h.free, All(h), h.base, h.base + h.maxBlocks * h.align, h.align);
  }

  // In a strictly ascending list there is only one place for a block.
  lemma PlaceIs(rest: seq<Blk>, b: Blk, p: int, k: nat)
    requires 0 <= p <= |rest| && k <= |rest|
    requires forall j :: 0 <= j < p ==> Towards(ComparePtr, true, rest[j], b) <= 0
    requires forall j :: p <= j < |rest| ==> Towards(ComparePtr, true, b, rest[j]) <= 0
    requires Parts(rest, b, k)
    ensures p == k
  {
    assert p < |rest| ==> Towards(ComparePtr, true, b, rest[p]) <= 0;
    assert k < p ==> Towards(ComparePtr, true, rest[k], b) <= 0;
  }

  ghost predicate Parts(s: seq<Blk>, b: Blk, k: nat) {
    && k <= |s|
    && (forall j :: 0 <= j < k ==> AddrOf(s[j]) < AddrOf(b))
    && (forall j :: k <= j < |s| ==> AddrOf(b) < AddrOf(s[j]))
  }

  lemma CutParts(s: seq<Blk>, k: nat)
    requires Ascending(s) && k < |s|
    ensures Parts(Cut(s, k), s[k], k) && Sorted(ComparePtr, true, Cut(s, k))
  {
    var rest := Cut(s, k);
    forall i, j | 0 <= i < j < |rest| ensures Towards(ComparePtr, true, rest[i], rest[j]) <= 0 {
      assert rest[i] == s[if i < k then i else i + 1] && rest[j] == s[if j < k then j else j + 1];
    }
  }

  lemma PutAt(s: seq<Blk>, b: Blk, k: nat)
    requires Sorted(ComparePtr, true, s) && Parts(s, b, k)
    ensures InsertPosition(ComparePtr, true, s, b) == k && Put(s, b) == Splice(s, k, b)
  {
    ComparePtrIsTotal();
    InsertMeaning(ComparePtr, true, s, b);
    if s != [] {
      InsertBetween(ComparePtr, true, s, b, 0);
      hide TotalPreorder, ComparePtr, Sorted;
      PlaceIs(s, b, InsertPosition(ComparePtr, true, s, b), k);
    }
  }

  // Putting back what was just taken out restores the list.
  lemma PutBack(s: seq<Blk>, k: nat)
    requires Ascending(s) && k < |s|
    ensures Put(Cut(s, k), s[k]) == s
  {
    hide Put, Cut;
    CutParts(s, k);
    PutAt(Cut(s, k), s[k], k);
    CutThenSplice(s, k);
  }

  // Without a spare node nothing is taken; only a stale tail may get healed.
  lemma TakeRefused(h: Heap, k: nat, want: nat)
    requires Request(h, k, want) && want < h.free[k].size && h.spare == 0 && h.bytesFree >= want
    ensures Take(h, k, want) == (h.(stale := h.stale && |h.free| > 1), None)
  {
    InOrder(h);
    PutBack(h.free, k);
    hide Put, Ascending, Tiling, Sorted;
    assert |Cut(h.free, k)| == |h.free| - 1;
  }

  lemma BlockSizeRounds(align: nat, desired: nat)
    requires align > 0
    ensures BlockSize(align, desired) >= desired && BlockSize(align, desired) < desired + align
    ensures Aligned(BlockSize(align, desired), align)
  {
    var q, r := desired / align, desired % align;
    if r != 0 {
      assert desired + (align - r) == q * align + align;
      Distribute(q, -1, align);
      ModOfMultiple(q + 1, align);
    }
  }

  lemma AllocInv(h: Heap, numBytes: nat)
    requires Inv(h)
    ensures AllBlocks(h.free) && Inv(Alloc(h, numBytes).0)
  {
    Blocks(h);
    if numBytes != 0 {
      var want := BlockSize(h.align, numBytes);
      BlockSizeRounds(h.align, numBytes);
      var k := BestFit(h.free, want);
      FitsBest(h.free, want);
      if h.bytesFree >= want && k < |h.free| {
        assert h.free[k].Blk?;
        AllocStepInv(h, k, want);
      }
    }
  }

  lemma AllocStepInv(h: Heap, k: nat, want: nat)
    requires Request(h, k, want) && h.bytesFree >= want
    ensures Loses(h, k) ==> Inv(Lose(h))
    ensures !Loses(h, k) ==> Inv(Take(h, k, want).0)
  {
    hide Tiling, Sorted;
    if Loses(h, k) {
      LoseInv(h);
    } else if h.free[k].size == want {
      TakeWhole(h, k, want);
    } else if h.spare == 0 {
      TakeRefused(h, k, want);
    } else {
      TakePart(h, k, want);
    }
  }

  // ---- freeing ----------------------------------------------------------------------------

  lemma ReleaseInv(h: Heap, k: nat)
    requires Inv(h) && k < |h.used| && h.bytesUsed >= SizeOf(h.used[k])
    ensures Inv(Release(h, k))
  {
    hide Put, Cut, Sorted, Tiling, Sum, SizeOf;
    CutFacts(h.used, k);
    PutFacts(h.free, h.used[k]);
    assert All(Release(h, k)) == All(h);
  }

  lemma MergeFacts(s: seq<Blk>, i: nat) returns (others: multiset<Blk>)
    requires i + 1 < |s| && Adjacent(s[i], s[i + 1])
    ensures multiset(s) == others + multiset{s[i]} + multiset{s[i + 1]}
    ensures multiset(Merge(s, i)) == others + multiset{Blk(s[i].size + s[i + 1].size, s[i].addr)}
    ensures Sum(Merge(s, i)) == Sum(s) && |Merge(s, i)| == |s| - 1
  {
    var m := Blk(s[i].size + s[i + 1].size, s[i].addr);
    others := multiset(s[..i]) + multiset(s[i + 2..]);
    assert s == s[..i] + ([s[i]] + ([s[i + 1]] + s[i + 2..]));
    assert Merge(s, i) == s[..i] + ([m] + s[i + 2..]);
    MergeSum(s[..i], s[i], s[i + 1], m, s[i + 2..]);
  }

  lemma MergeSum(front: seq<Blk>, b: Blk, c: Blk, m: Blk, back: seq<Blk>)
    requires SizeOf(m) == SizeOf(b) + SizeOf(c)
    ensures Sum(front + ([b] + ([c] + back))) == Sum(front + ([m] + back))
  {
    SumAppend(front, [b] + ([c] + back));
    SumAppend(front, [m] + back);
    SumAppend([b], [c] + back);
    SumAppend([c], back);
    SumAppend([m], back);
    assert Sum([b]) == SizeOf(b) && Sum([c]) == SizeOf(c) && Sum([m]) == SizeOf(m);
  }

  lemma MergeSorted(s: seq<Blk>, i: nat)
    requires i + 1 < |s| && Adjacent(s[i], s[i + 1]) && Sorted(ComparePtr, true, s)
    ensures Sorted(ComparePtr, true, Merge(s, i))
  {
    var r := Merge(s, i);
    forall j, k | 0 <= j < k < |r| ensures Towards(ComparePtr, true, r[j], r[k]) <= 0 {
      assert AddrOf(r[j]) == AddrOf(s[if j <= i then j else j + 1]);
      assert AddrOf(r[k]) == AddrOf(s[if k <= i then k else k + 1]);
    }
  }

  ghost function Glued(h: Heap, i: nat, stale: bool): Heap
    requires i + 1 < |h.free| && Adjacent(h.free[i], h.free[i + 1])
  {
    h.(free := Merge(h.free, i), stale := stale, leaked := h.leaked + 1)
  }

  lemma MergeAll(h: Heap, i: nat, stale: bool) returns (rest: multiset<Blk>)
    requires i + 1 < |h.free| && Adjacent(h.free[i], h.free[i + 1])
    ensures All(h) == rest + multiset{h.free[i]} + multiset{h.free[i + 1]}
    ensures All(Glued(h, i, stale)) == rest + multiset{Blk(h.free[i].size + h.free[i + 1].size, h.free[i].addr)}
  {
    hide Merge;
    var others := MergeFacts(h.free, i);
    rest := multiset(h.used) + others + h.lost;
    Regroup(multiset(h.used), others, multiset{h.free[i]}, multiset{h.free[i + 1]}, h.lost);
    Regroup(multiset(h.used), others, multiset{Blk(h.free[i].size + h.free[i + 1].size, h.free[i].addr)}, multiset{},
        h.lost);
  }

  lemma Regroup(used: multiset<Blk>, others: multiset<Blk>, x: multiset<Blk>, y: multiset<Blk>, lost: multiset<Blk>)
    ensures used + (others + x + y) + lost == used + others + lost + x + y
    ensures used + (others + x) + lost == used + others + lost + x
  {
  }

  lemma MergePlaced(h: Heap, i: nat, stale: bool)
    requires Placed(h) && i + 1 < |h.free| && Adjacent(h.free[i], h.free[i + 1])
    ensures Placed(Glued(h, i, stale))
  {
    hide Merge, Tiling, All, Sorted;
    var rest := MergeAll(h, i, stale);
    MergeSorted(h.free, i);
    GluePieces(rest, h.free[i], h.free[i + 1], h.base, h.base + h.maxBlocks * h.align, h.align);
  }

  lemma MergeInv(h: Heap, i: nat, stale: bool)
    requires Inv(h) && h.coalesce && i + 1 < |h.free| && Adjacent(h.free[i], h.free[i + 1])
    ensures Inv(Glued(h, i, stale))
  {
    hide Merge, Sum, Placed;
    MergePlaced(h, i, stale);
    var others := MergeFacts(h.free, i);
    assert |Glued(h, i, stale).free| > 0;
  }

  lemma CoalesceInv(h: Heap, i: nat)
    requires Inv(h) && h.coalesce && i < |h.free|
    ensures Inv(Coalesce(h, i))
  {
    hide Inv;
    if i > 0 && Adjacent(h.free[i - 1], h.free[i]) {
      MergeInv(h, i - 1, h.stale || i == |h.free| - 1);
    } else if i < |h.free| - 1 && Adjacent(h.free[i], h.free[i + 1]) {
      MergeInv(h, i, h.stale || i + 1 == |h.free| - 1);
    }
  }

  lemma FreeInv(h: Heap, ptr: nat)
    requires Inv(h)
    ensures Inv(Free(h, ptr).0)
  {
    if ptr != 0 && Aligned(ptr, h.align) {
      var k := Match(ComparePtr, h.used, Blk(0, ptr), 0);
      if k < |h.used| {
        SumAt(h.used, k);
        ReleaseInv(h, k);
        hide Inv;
        ComparePtrIsTotal();
        InsertMeaning(ComparePtr, true, h.free, h.used[k]);
        PutFacts(h.free, h.used[k]);
        if h.coalesce {
          CoalesceInv(Release(h, k), InsertPosition(ComparePtr, true, h.free, h.used[k]));
        }
      }
    }
  }

  // ---- every run --------------------------------------------------------------------------

  datatype Op = AllocOp(numBytes: nat) | FreeOp(ptr: nat)

  function Do(h: Heap, op: Op): Heap
    requires Inv(h)
  {
    AllocInv(h, 0);
    match op
    case AllocOp(n) => Alloc(h, n).0
    case FreeOp(ptr) => Free(h, ptr).0
  }

  lemma DoInv(h: Heap, op: Op)
    requires Inv(h)
    ensures Inv(Do(h, op)) && SameHeap(h, Do(h, op))
  {
    match op
    case AllocOp(n) =>
      AllocInv(h, n);
      AllocSame(h, n);
      hide Inv, Alloc;
    case FreeOp(ptr) =>
      FreeInv(h, ptr);
      FreeSame(h, ptr);
      hide Inv, Free;
  }

  ghost predicate SameHeap(h: Heap, h': Heap) {
    h'.base == h.base && h'.align == h.align && h'.maxBlocks == h.maxBlocks && h'.coalesce == h.coalesce
  }

  lemma AllocSame(h: Heap, numBytes: nat)
    requires h.align > 0 && AllBlocks(h.free)
    ensures SameHeap(h, Alloc(h, numBytes).0)
  {
  }

  lemma FreeSame(h: Heap, ptr: nat)
    requires h.align > 0 && h.bytesUsed == Sum(h.used)
    ensures SameHeap(h, Free(h, ptr).0)
  {
  }

  ghost predicate Reaches(h: Heap, ops: seq<Op>, h': Heap)
    requires Inv(h)
    decreases |ops|
  {
    if ops == [] then h == h'
    else
      DoInv(h, ops[0]);
      Reaches(Do(h, ops[0]), ops[1..], h')
  }

  // After any run of allocations and frees, under either policy, the blocks still
  // tile the region, the lists are sorted, and every byte and node is accounted for.
  lemma {:induction false} RunInv(h: Heap, ops: seq<Op>, h': Heap)
    requires Inv(h) && Reaches(h, ops, h')
    ensures Inv(h') && SameHeap(h, h')
    decreases |ops|
  {
    hide Inv, Do;
    if ops != [] {
      DoInv(h, ops[0]);
      RunInv(Do(h, ops[0]), ops[1..], h');
    }
  }

  // ---- what an allocation gives -------------------------------------------------------------

  ghost function HeapEnd(h: Heap): nat { h.base + h.maxBlocks * h.align }

  lemma Fresh(h: Heap, b: Blk, others: multiset<Blk>)
    requires h.align > 0 && Tiling(others + multiset{b}, h.base, HeapEnd(h), h.align)
    ensures InRegion(b, h.base, HeapEnd(h), h.align)
    ensures forall c :: c in others ==> Disjoint(c, b)
  {
    var all := others + multiset{b};
    assert all[b] == 1;
    forall c | c in others ensures Disjoint(c, b) {
      assert all[c] == 1;
    }
  }

  lemma TakeGives(h: Heap, k: nat, want: nat)
    requires Request(h, k, want) && h.bytesFree >= want && Take(h, k, want).1.Some?
    ensures var (h', ptr) := Take(h, k, want);
            ptr.value == h.free[k].addr && multiset(h'.used) == multiset(h.used) + multiset{Blk(want, h.free[k].addr)}
  {
    hide Put, Cut;
    PutFacts(h.used, Blk(want, h.free[k].addr));
    assert h.free[k].size == want ==> h.free[k] == Blk(want, h.free[k].addr);
  }

  // A pointer handed out is aligned, lies inside the region with all the bytes
  // asked for, and shares none of them with any block in use.
  lemma AllocGives(h: Heap, numBytes: nat)
    requires Inv(h) && AllBlocks(h.free) && Alloc(h, numBytes).1.Some?
    ensures var (h', ptr) := Alloc(h, numBytes);
            var b := Blk(BlockSize(h.align, numBytes), ptr.value);
            && b.size >= numBytes && ptr.value != 0
            && multiset(h'.used) == multiset(h.used) + multiset{b}
            && InRegion(b, h.base, HeapEnd(h), h.align)
            && forall c :: c in multiset(h.used) ==> Disjoint(c, b)
  {
    var want := BlockSize(h.align, numBytes);
    BlockSizeRounds(h.align, numBytes);
    var k := BestFit(h.free, want);
    FitsBest(h.free, want);
    AllocInv(h, numBytes);
    AllocSame(h, numBytes);
    TakeGives(h, k, want);
    hide Take, Tiling, Sorted, BestFit, Sum;
    var h', b := Alloc(h, numBytes).0, Blk(want, h.free[k].addr);
    var others := multiset(h.used) + multiset(h'.free) + h'.lost;
    assert All(h') == others + multiset{b};
    Fresh(h, b, others);
  }

  // The block at k, served: it was free, and what is left of it is free again, for
  // a node more.
  ghost predicate Served(h: Heap, h': Heap, f: Blk, want: nat) {
    && f in multiset(h.free) && f.Blk? && f.size >= want && h'.leaked == h.leaked && h'.lost == h.lost
    && if f.size == want then
         multiset(h'.free) + multiset{f} == multiset(h.free) && h'.spare == h.spare
       else
         && multiset(h'.free) + multiset{f} == multiset(h.free) + multiset{Blk(f.size - want, f.addr + want)}
         && h'.spare == h.spare - 1
  }

  // The free list after taking the block at k, or after finding no node to split it.
  lemma TakeLeaves(h: Heap, k: nat, want: nat)
    requires k < |h.free| && h.free[k].Blk? && h.free[k].size >= want && h.bytesFree >= want
    ensures var (f, rest, (h', ptr)) := (h.free[k], Cut(h.free, k), Take(h, k, want));
            && h'.leaked == h.leaked && h'.lost == h.lost
            && (ptr == None ==> f.size > want && h'.free == Put(rest, f) && h'.spare == h.spare)
            && (ptr != None ==> ptr == Some(f.addr))
            && (ptr != None && f.size == want ==> h'.free == rest && h'.spare == h.spare)
            && (ptr != None && f.size > want ==>
                  h'.free == Put(rest, Blk(f.size - want, f.addr + want)) && h'.spare == h.spare - 1)
            && (ptr == None ==> h'.used == h.used && h'.bytesUsed == h.bytesUsed && h'.bytesFree == h.bytesFree)
  {
    hide Put, Cut;
  }

  lemma TakeServes(h: Heap, k: nat, want: nat)
    requires k < |h.free| && h.free[k].Blk? && h.free[k].size >= want && h.bytesFree >= want
    requires Take(h, k, want).1.Some?
    ensures Served(h, Take(h, k, want).0, h.free[k], want) && Take(h, k, want).1 == Some(h.free[k].addr)
  {
    hide Put, Cut, Sum, Take, Sorted;
    var f, rest := h.free[k], Cut(h.free, k);
    var left := Blk(f.size - want, f.addr + want);
    CutFacts(h.free, k);
    TakeLeaves(h, k, want);
    PutFacts(rest, left);
    OneForOne(multiset(rest), f, left);
  }

  lemma OneForOne(rest: multiset<Blk>, f: Blk, left: Blk)
    ensures f in rest + multiset{f}
    ensures rest + multiset{left} + multiset{f} == rest + multiset{f} + multiset{left}
  {
  }

  lemma AllocTakes(h: Heap, numBytes: nat) returns (f: Blk)
    requires Inv(h) && AllBlocks(h.free) && Alloc(h, numBytes).1.Some?
    ensures Served(h, Alloc(h, numBytes).0, f, BlockSize(h.align, numBytes)) && f.addr == Alloc(h, numBytes).1.value
  {
    hide Tiling, Counted, Take, BlockSize, Served;
    var want := BlockSize(h.align, numBytes);
    var k := BestFit(h.free, want);
    FitsBest(h.free, want);
    assert k < |h.free|;
    hide BestFit;
    f := h.free[k];
    TakeServes(h, k, want);
  }

  // Without a pointer the lists hold the blocks they held, unless the best fit is
  // the last of several and the tail is stale: then all the free ones are lost.
  lemma AllocRefused(h: Heap, numBytes: nat)
    requires Inv(h) && AllBlocks(h.free) && Alloc(h, numBytes).1 == None
    ensures var (h', want) := (Alloc(h, numBytes).0, BlockSize(h.align, numBytes));
            && h'.used == h.used && h'.bytesUsed == h.bytesUsed && h'.bytesFree == h.bytesFree
            && if numBytes > 0 && h.bytesFree >= want && h.stale && 0 < BestFit(h.free, want) == |h.free| - 1 then
                 h'.free == [] && h'.leaked == h.leaked + |h.free| && h'.lost == h.lost + multiset(h.free)
               else
                 multiset(h'.free) == multiset(h.free) && h'.leaked == h.leaked && h'.lost == h.lost
  {
    hide Tiling, Counted, Take, BlockSize, Put, Cut, Sorted;
    var want := BlockSize(h.align, numBytes);
    var k := BestFit(h.free, want);
    FitsBest(h.free, want);
    if k < |h.free| && h.bytesFree >= want {
      CutFacts(h.free, k);
      PutFacts(Cut(h.free, k), h.free[k]);
      TakeLeaves(h, k, want);
    }
  }

  // ---- when an allocation gives nothing -------------------------------------------------------

  ghost predicate SomeFit(free: seq<Blk>, want: nat) {
    exists i :: 0 <= i < |free| && SizeOf(free[i]) >= want
  }

  lemma EvenParts(x: nat, align: nat)
    requires align > 0 && align % 2 == 0 && Aligned(x, align)
    ensures x % 2 == 0
  {
    var q, r := x / align, align / 2;
    assert x == q * align && align == r * 2;
    assert q * (r * 2) == (q * r) * 2;
  }

  // The wrapping score never calls a fitting block worthless: block sizes are
  // even, and only an odd excess wraps to 0.
  lemma FitScores(have: nat, want: nat)
    requires have % 2 == 0 && want % 2 == 0
    ensures RateBestFit(Blk(have, 0), Blk(want, 0)) > 0 <==> have >= want
  {
    if have > want {
      var score := (MAX_SCORE - (have - want)) % SCORES;
      assert score % 2 == 1;
    }
  }

  lemma NothingFits(h: Heap, want: nat)
    requires Inv(h) && h.align % 2 == 0 && Aligned(want, h.align)
    ensures BestFit(h.free, want) < |h.free| <==> SomeFit(h.free, want)
  {
    Blocks(h);
    FitsBest(h.free, want);
    EvenParts(want, h.align);
    var k := BestFit(h.free, want);
    assert IsBest(RateBestFit, h.free, Blk(want, 0), k);
    forall i | 0 <= i < |h.free| && SizeOf(h.free[i]) >= want ensures RateBestFit(h.free[i], Blk(want, 0)) > 0 {
      EvenParts(h.free[i].size, h.align);
      FitScores(h.free[i].size, want);
    }
  }

  // The counter of free bytes never hides a block: it is at least their sum.
  lemma FitsCounter(h: Heap, want: nat)
    requires Inv(h) && SomeFit(h.free, want)
    ensures h.bytesFree >= want
  {
    var i :| 0 <= i < |h.free| && SizeOf(h.free[i]) >= want;
    SumAt(h.free, i);
  }

  // NULL comes back exactly when nothing was asked for, nothing fits, the best
  // fit has to leave through a stale tail, or it has to be split and the spare
  // nodes have run out.
  lemma AllocNull(h: Heap, numBytes: nat)
    requires Inv(h) && h.align % 2 == 0 && AllBlocks(h.free)
    ensures var want := BlockSize(h.align, numBytes);
            var k := BestFit(h.free, want);
            Alloc(h, numBytes).1 == None <==>
              || numBytes == 0
              || !SomeFit(h.free, want)
              || (h.stale && 0 < k == |h.free| - 1)
              || (h.spare == 0 && k < |h.free| && SizeOf(h.free[k]) > want)
  {
    var want := BlockSize(h.align, numBytes);
    BlockSizeRounds(h.align, numBytes);
    NothingFits(h, want);
    if SomeFit(h.free, want) { FitsCounter(h, want); }
    FitsBest(h.free, want);
    hide BestFit, SomeFit, Inv;
  }

  // As long as no node has leaked, a block that is large enough to split leaves a
  // spare node: with k pieces of at least one unit each in use of maxBlocks units,
  // and one of them longer than a unit, fewer than maxBlocks nodes are taken.
  lemma SpareSuffices(h: Heap, k: nat, want: nat)
    requires Request(h, k, want) && want < h.free[k].size && h.leaked == 0
    ensures h.spare > 0
  {
    Blocks(h);
    InOrder(h);
    UnitSized(h);
    SumBounds(h.used, h.align);
    CutFacts(h.free, k);
    var rest := Cut(h.free, k);
    forall i {:trigger rest[i]} | 0 <= i < |rest| ensures SizeOf(rest[i]) >= h.align {
      assert rest[i] == h.free[if i < k then i else i + 1];
    }
    SumBounds(rest, h.align);
    Multiples(h.free[k].size, want, h.align);
    Multiples(want, 0, h.align);
    CountUnits(|h.used|, |rest|, h.maxBlocks, h.align, h.free[k].size, Sum(h.used), Sum(rest));
  }

  lemma UnitSized(h: Heap)
    requires Placed(h)
    ensures forall i {:trigger h.used[i]} :: 0 <= i < |h.used| ==> SizeOf(h.used[i]) >= h.align
    ensures forall i {:trigger h.free[i]} :: 0 <= i < |h.free| ==> SizeOf(h.free[i]) >= h.align
  {
    Blocks(h);
    forall i {:trigger h.used[i]} | 0 <= i < |h.used| ensures SizeOf(h.used[i]) >= h.align {
      Multiples(h.used[i].size, 0, h.align);
    }
    forall i {:trigger h.free[i]} | 0 <= i < |h.free| ensures SizeOf(h.free[i]) >= h.align {
      Multiples(h.free[i].size, 0, h.align);
    }
  }

  lemma CountUnits(u: nat, r: nat, max: nat, align: nat, size: nat, usedSum: nat, restSum: nat)
    requires align > 0 && size >= 2 * align && usedSum >= u * align && restSum >= r * align
    requires usedSum + restSum + size <= max * align
    ensures u + r + 1 < max
  {
    Distribute(u, r, align);
    Distribute(u + r, 2, align);
    Order(max, u + r + 2, align);
  }

  // With coalescing off, NULL means that nothing fits, and nothing else; the heap
  // is as it was.
  lemma AllocNullPlain(h: Heap, numBytes: nat)
    requires Inv(h) && !h.coalesce && h.align % 2 == 0 && AllBlocks(h.free)
    ensures Alloc(h, numBytes).1 == None <==> numBytes == 0 || !SomeFit(h.free, BlockSize(h.align, numBytes))
    ensures Alloc(h, numBytes).1 == None ==> Alloc(h, numBytes).0 == h
  {
    AllocNull(h, numBytes);
    var want := BlockSize(h.align, numBytes);
    BlockSizeRounds(h.align, numBytes);
    var k := BestFit(h.free, want);
    FitsBest(h.free, want);
    if numBytes > 0 && k < |h.free| && SizeOf(h.free[k]) > want {
      assert h.free[k].Blk?;
      SpareSuffices(h, k, want);
    }
  }

  // ---- what a free does ------------------------------------------------------------------------

  // Exactly the addresses of blocks in use can be freed, and one such block goes.
  lemma FreeGives(h: Heap, ptr: nat)
    requires Inv(h)
    ensures Free(h, ptr).1 <==> exists i :: 0 <= i < |h.used| && AddrOf(h.used[i]) == ptr
    ensures Free(h, ptr).1 ==>
            exists b :: AddrOf(b) == ptr && multiset(h.used) == multiset(Free(h, ptr).0.used) + multiset{b}
    ensures !Free(h, ptr).1 ==> Free(h, ptr).0 == h
  {
    hide Free, Tiling, Sorted;
    UsedAddresses(h, ptr);
    FreeUsed(h, ptr);
    var k := Match(ComparePtr, h.used, Blk(0, ptr), 0);
    if k < |h.used| {
      CutThenSplice(h.used, k);
    }
  }

  lemma UsedAddresses(h: Heap, ptr: nat)
    requires Inv(h)
    ensures var k := Match(ComparePtr, h.used, Blk(0, ptr), 0);
            && (k < |h.used| <==> exists i :: 0 <= i < |h.used| && AddrOf(h.used[i]) == ptr)
            && (k < |h.used| ==> AddrOf(h.used[k]) == ptr && ptr != 0 && Aligned(ptr, h.align))
  {
    Blocks(h);
    hide Tiling, Sorted;
    var k := Match(ComparePtr, h.used, Blk(0, ptr), 0);
    assert forall i :: 0 <= i < |h.used| ==> (ComparePtr(h.used[i], Blk(0, ptr)) == 0 <==> AddrOf(h.used[i]) == ptr);
    if k < |h.used| {
      assert AddrOf(h.used[k]) == ptr;
    }
  }

  lemma FreeUsed(h: Heap, ptr: nat)
    requires Inv(h)
    ensures var k := Match(ComparePtr, h.used, Blk(0, ptr), 0);
            && (Free(h, ptr).1 <==> ptr != 0 && Aligned(ptr, h.align) && k < |h.used|)
            && (Free(h, ptr).1 ==> Free(h, ptr).0.used == Cut(h.used, k))
            && (!Free(h, ptr).1 ==> Free(h, ptr).0 == h)
  {
    hide Tiling, Sorted, Cut, Put;
  }

  // Without coalescing, freeing what an exact fit just gave restores the heap.
  lemma FreeUndoesExactAlloc(h: Heap, numBytes: nat)
    requires Inv(h) && !h.coalesce && AllBlocks(h.free)
    requires numBytes > 0 && h.bytesFree >= BlockSize(h.align, numBytes)
    requires var k := BestFit(h.free, BlockSize(h.align, numBytes));
             k < |h.free| && SizeOf(h.free[k]) == BlockSize(h.align, numBytes)
    ensures var (h', ptr) := Alloc(h, numBytes);
            Inv(h') && ptr.Some? && Free(h', ptr.value) == (h, true)
  {
    var want := BlockSize(h.align, numBytes);
    var k := BestFit(h.free, want);
    AllocInv(h, numBytes);
    Blocks(h);
    assert InRegion(h.free[k], h.base, HeapEnd(h), h.align);
    hide BestFit;
    ReleaseUndoesTake(h, k, want);
  }

  lemma ReleaseUndoesTake(h: Heap, k: nat, want: nat)
    requires Inv(h) && !h.coalesce && k < |h.free| && h.free[k].Blk? && h.free[k].size == want && h.bytesFree >= want
    requires Inv(Take(h, k, want).0) && h.free[k].addr != 0 && Aligned(h.free[k].addr, h.align)
    ensures Free(Take(h, k, want).0, h.free[k].addr) == (h, true)
  {
    hide Tiling, Sorted, Ascending, Put, Cut;
    var b, h' := h.free[k], Take(h, k, want).0;
    InOrder(h);
    InOrder(h');
    PutMatch(h.used, b);
    PutBack(h.free, k);
    var k' := Match(ComparePtr, h'.used, Blk(0, b.addr), 0);
    assert h'.used == Put(h.used, b) && h'.free == Cut(h.free, k);
    FreeIs(h', b.addr);
  }

  // A free that finds its block, step by step.
  lemma FreeIs(h: Heap, ptr: nat)
    requires Inv(h) && ptr != 0 && Aligned(ptr, h.align) && Match(ComparePtr, h.used, Blk(0, ptr), 0) < |h.used|
    ensures var k := Match(ComparePtr, h.used, Blk(0, ptr), 0);
            var p := InsertPosition(ComparePtr, true, h.free, h.used[k]);
            && h.bytesUsed >= SizeOf(h.used[k]) && 0 <= p < |Release(h, k).free|
            && Free(h, ptr) == (if h.coalesce then Coalesce(Release(h, k), p) else Release(h, k), true)
  {
    var k := Match(ComparePtr, h.used, Blk(0, ptr), 0);
    SumAt(h.used, k);
    ComparePtrIsTotal();
    InsertMeaning(ComparePtr, true, h.free, h.used[k]);
    hide Placed, Match, Coalesce, InsertPosition, TotalPreorder;
  }

  // A block that was put into a list is the one its address finds there.
  lemma PutMatch(s: seq<Blk>, b: Blk)
    requires b.Blk? && Ascending(Put(s, b))
    ensures var k := Match(ComparePtr, Put(s, b), Blk(0, b.addr), 0);
            k < |Put(s, b)| && Put(s, b)[k] == b && Cut(Put(s, b), k) == s
  {
    ComparePtrIsTotal();
    InsertMeaning(ComparePtr, true, s, b);
    var p, r := InsertPosition(ComparePtr, true, s, b), Put(s, b);
    var k := Match(ComparePtr, r, Blk(0, b.addr), 0);
    assert r[p] == b && ComparePtr(r[p], Blk(0, b.addr)) == 0;
    hide InsertPosition, TotalPreorder, Sorted;
    assert k <= p && AddrOf(r[k]) == AddrOf(r[p]);
    assert Cut(r, p) == s;
  }

  // ---- which free blocks there are after a free --------------------------------------------------

  ghost predicate Ends(free: multiset<Blk>, x: nat) {
    exists c :: c in free && AddrOf(c) + SizeOf(c) == x
  }

  ghost predicate Begins(free: multiset<Blk>, x: nat) {
    exists c :: c in free && AddrOf(c) == x
  }

  // The free block `small` has become `large`, a node is lost, and the tail
  // is stale if it was so before or if no free block began behind `gone`, where the
  // second of the two blocks did.
  ghost predicate Merges(h: Heap, free: multiset<Blk>, h': Heap, small: Blk, large: Blk, gone: nat) {
    && multiset(h'.free) == free - multiset{small} + multiset{large}
    && h'.leaked == h.leaked + 1
    && (h'.stale <==> h.stale || forall e :: e in free ==> AddrOf(e) <= gone)
  }

  // A block whose end is the beginning of the one at p is the one before it.
  lemma JustBefore(s: seq<Blk>, p: nat, c: Blk)
    requires Ascending(s) && p < |s| && SizeOf(s[p]) > 0
    requires c in multiset(s) && AddrOf(c) + SizeOf(c) == AddrOf(s[p])
    ensures p > 0 && s[p - 1] == c && Adjacent(c, s[p])
  {
    var j :| 0 <= j < |s| && s[j] == c;
    if j < p {
      assert AddrOf(s[p - 1]) + SizeOf(s[p - 1]) <= AddrOf(s[p]);
    }
  }

  // A block that begins where the one at p ends is the one behind it.
  lemma JustBehind(s: seq<Blk>, p: nat, d: Blk)
    requires Ascending(s) && p < |s| && SizeOf(s[p]) > 0
    requires d in multiset(s) && AddrOf(d) == AddrOf(s[p]) + SizeOf(s[p])
    ensures p + 1 < |s| && s[p + 1] == d && Adjacent(s[p], d)
  {
    var j :| 0 <= j < |s| && s[j] == d;
    if p < j {
      assert AddrOf(s[p]) + SizeOf(s[p]) <= AddrOf(s[p + 1]);
    }
  }

  // The block at i is the last one if and only if none begins behind it.
  lemma LastIsHighest(s: seq<Blk>, i: nat, others: multiset<Blk>)
    requires Ascending(s) && i < |s| && others <= multiset(s)
    requires forall e :: e in multiset(s) && e != s[i] ==> e in others || AddrOf(e) < AddrOf(s[i])
    ensures i == |s| - 1 <==> forall e :: e in others ==> AddrOf(e) <= AddrOf(s[i])
  {
    if i == |s| - 1 {
      forall e | e in others ensures AddrOf(e) <= AddrOf(s[i]) {
        var j :| 0 <= j < |s| && s[j] == e;
      }
    } else {
      assert s[i + 1] in multiset(s) && AddrOf(s[i]) + SizeOf(s[i]) <= AddrOf(s[i + 1]);
    }
  }

  // A heap whose block at p has just been put among the free ones.
  ghost predicate PutIn(r: Heap, p: nat, free: multiset<Blk>, b: Blk) {
    && Ascending(r.free) && p < |r.free| && r.free[p] == b && b.Blk? && b.size > 0
    && multiset(r.free) == free + multiset{b}
  }

  // The blocks beside the one just put in were free before.
  lemma Beside(r: Heap, p: nat, free: multiset<Blk>, b: Blk)
    requires PutIn(r, p, free, b)
    ensures p > 0 ==> r.free[p - 1] in free
    ensures p + 1 < |r.free| ==> r.free[p + 1] in free
  {
    if p > 0 {
      assert r.free[p - 1] in multiset(r.free);
      assert AddrOf(r.free[p - 1]) + SizeOf(r.free[p - 1]) <= AddrOf(b);
    }
    if p + 1 < |r.free| {
      assert r.free[p + 1] in multiset(r.free);
      assert AddrOf(b) + SizeOf(b) <= AddrOf(r.free[p + 1]);
    }
  }

  // In multisets: two blocks go for one.
  lemma TwoForOne(all: multiset<Blk>, merged: multiset<Blk>, others: multiset<Blk>, x: Blk, y: Blk, m: Blk,
                  free: multiset<Blk>, b: Blk, other: Blk)
    requires all == others + multiset{x} + multiset{y} && merged == others + multiset{m}
    requires all == free + multiset{b} && other in free
    requires (x == b && y == other) || (x == other && y == b)
    ensures merged == free - multiset{other} + multiset{m}
  {
    hide *;
    forall e ensures others[e] == (free - multiset{other})[e] {
      assert (others + multiset{x} + multiset{y})[e] == (free + multiset{b})[e];
    }
    assert others == free - multiset{other};
  }

  lemma GluedIs(h: Heap, i: nat, stale: bool, free: multiset<Blk>, b: Blk, other: Blk, gone: nat)
    requires i + 1 < |h.free| && Adjacent(h.free[i], h.free[i + 1])
    requires multiset(h.free) == free + multiset{b} && other in free
    requires (h.free[i] == b && h.free[i + 1] == other) || (h.free[i] == other && h.free[i + 1] == b)
    requires stale <==> h.stale || forall e :: e in free ==> AddrOf(e) <= gone
    ensures Merges(h, free, Glued(h, i, stale), other, Blk(h.free[i].size + h.free[i + 1].size, h.free[i].addr), gone)
  {
    hide Merge, AddrOf, Sum;
    var others := MergeFacts(h.free, i);
    var x, y := h.free[i], h.free[i + 1];
    var m := Blk(x.size + y.size, x.addr);
    var g := Glued(h, i, stale);
    assert g.free == Merge(h.free, i) && g.leaked == h.leaked + 1 && g.stale == stale;
    hide Glued, Adjacent;
    TwoForOne(multiset(h.free), multiset(g.free), others, x, y, m, free, b, other);
  }

  // What merging is once it is known with which neighbour.
  lemma CoalesceIs(r: Heap, p: nat, free: multiset<Blk>, b: Blk)
    requires PutIn(r, p, free, b)
    ensures p > 0 && Adjacent(r.free[p - 1], b) ==> Coalesce(r, p) == Glued(r, p - 1, r.stale || p == |r.free| - 1)
    ensures !Ends(free, b.addr) && p + 1 < |r.free| && Adjacent(b, r.free[p + 1]) ==>
              Coalesce(r, p) == Glued(r, p, r.stale || p + 1 == |r.free| - 1)
    ensures !Ends(free, b.addr) && !Begins(free, b.addr + b.size) ==> Coalesce(r, p) == r
  {
    Beside(r, p, free, b);
    hide Merge, Ascending;
  }

  lemma MergesBefore(r: Heap, p: nat, free: multiset<Blk>, b: Blk, c: Blk)
    requires PutIn(r, p, free, b) && c in free && AddrOf(c) + SizeOf(c) == b.addr
    ensures Merges(r, free, Coalesce(r, p), c, Blk(SizeOf(c) + b.size, AddrOf(c)), b.addr)
  {
    hide Ascending, Coalesce, Glued, Ends, Begins, Merges;
    JustBefore(r.free, p, c);
    LastIsHighest(r.free, p, free);
    CoalesceIs(r, p, free, b);
    GluedIs(r, p - 1, r.stale || p == |r.free| - 1, free, b, c, b.addr);
  }

  lemma MergesBehind(r: Heap, p: nat, free: multiset<Blk>, b: Blk, d: Blk)
    requires PutIn(r, p, free, b) && !Ends(free, b.addr) && d in free && AddrOf(d) == b.addr + b.size
    ensures Merges(r, free, Coalesce(r, p), d, Blk(b.size + SizeOf(d), b.addr), AddrOf(d))
  {
    hide Ascending, Coalesce, Glued, Ends, Begins, Merges;
    JustBehind(r.free, p, d);
    LastIsHighest(r.free, p + 1, free);
    CoalesceIs(r, p, free, b);
    GluedIs(r, p, r.stale || p + 1 == |r.free| - 1, free, b, d, AddrOf(d));
  }

  // The block of `ptr` and the heap between its leaving the used list and the merge.
  lemma FreePuts(h: Heap, ptr: nat) returns (b: Blk, r: Heap, p: nat)
    requires Inv(h) && Free(h, ptr).1
    ensures b.Blk? && b.addr == ptr && multiset(h.used) == multiset(Free(h, ptr).0.used) + multiset{b}
    ensures PutIn(r, p, multiset(h.free), b) && r.leaked == h.leaked && r.stale == h.stale
    ensures Free(h, ptr).0 == if h.coalesce then Coalesce(r, p) else r
  {
    FreeUsed(h, ptr);
    UsedAddresses(h, ptr);
    var k := Match(ComparePtr, h.used, Blk(0, ptr), 0);
    FreeIs(h, ptr);
    CutFacts(h.used, k);
    Blocks(h);
    b := h.used[k];
    r := Release(h, k);
    p := InsertPosition(ComparePtr, true, h.free, b);
    ReleaseInv(h, k);
    InOrder(r);
    PutFacts(h.free, b);
    ComparePtrIsTotal();
    InsertMeaning(ComparePtr, true, h.free, b);
    hide Inv, Free, Coalesce, InsertPosition, Match, Ascending, Sorted, TotalPreorder, Sum, Cut;
    assert r.free[p] == b;
  }

  // A free block that ends where the freed one begins takes it in; failing that,
  // the freed one takes in a free block that begins where it ends; otherwise, or
  // without the policy, it joins the free ones as it is.
  lemma FreeMerges(h: Heap, ptr: nat) returns (b: Blk)
    requires Inv(h) && Free(h, ptr).1
    ensures b.Blk? && b.addr == ptr && multiset(h.used) == multiset(Free(h, ptr).0.used) + multiset{b}
    ensures var (h', free) := (Free(h, ptr).0, multiset(h.free));
            && (forall c :: h.coalesce && c in free && AddrOf(c) + SizeOf(c) == ptr ==>
                  Merges(h, free, h', c, Blk(SizeOf(c) + b.size, AddrOf(c)), ptr))
            && (forall d :: h.coalesce && !Ends(free, ptr) && d in free && AddrOf(d) == ptr + b.size ==>
                  Merges(h, free, h', d, Blk(b.size + SizeOf(d), ptr), AddrOf(d)))
            && (!h.coalesce || (!Ends(free, ptr) && !Begins(free, ptr + b.size)) ==>
                  multiset(h'.free) == free + multiset{b} && h'.leaked == h.leaked && h'.stale == h.stale)
  {
    var r, p;
    b, r, p := FreePuts(h, ptr);
    var free := multiset(h.free);
    hide Inv, Free, Coalesce, Ends, Begins;
    forall c | h.coalesce && c in free && AddrOf(c) + SizeOf(c) == ptr
      ensures Merges(h, free, Free(h, ptr).0, c, Blk(SizeOf(c) + b.size, AddrOf(c)), ptr)
    {
      MergesBefore(r, p, free, b, c);
    }
    forall d | h.coalesce && !Ends(free, ptr) && d in free && AddrOf(d) == ptr + b.size
      ensures Merges(h, free, Free(h, ptr).0, d, Blk(b.size + SizeOf(d), ptr), AddrOf(d))
    {
      MergesBehind(r, p, free, b, d);
    }
    if h.coalesce && !Ends(free, ptr) && !Begins(free, ptr + b.size) {
      CoalesceIs(r, p, free, b);
    }
  }

  // ---- which bytes are free --------------------------------------------------------------------

  ghost predicate FreeByte(h: Heap, x: nat) {
    InPiece(multiset(h.free), x)
  }

  lemma Within(all: multiset<Blk>, x: nat, lo: nat, hi: nat, align: nat)
    requires align > 0 && Tiling(all, lo, hi, align)
    ensures InPiece(all, x) <==> lo <= x < hi
  {
    if InPiece(all, x) {
      var p :| p in all && Covers(p, x);
      assert all[p] == 1;
    }
  }

  // A byte of the region is free, in use or lost, and only one of these.
  lemma Partition(h: Heap, x: nat)
    requires Inv(h)
    ensures FreeByte(h, x) <==> h.base <= x < HeapEnd(h) && !InPiece(multiset(h.used), x) && !InPiece(h.lost, x)
  {
    Within(All(h), x, h.base, HeapEnd(h), h.align);
    OneSide(multiset(h.free), multiset(h.used) + h.lost, x, h.base, HeapEnd(h), h.align);
    OneSide(multiset(h.used), h.lost, x, 0, 0, 0);
    assert All(h) == multiset(h.free) + (multiset(h.used) + h.lost);
  }

  lemma OneSide(some: multiset<Blk>, others: multiset<Blk>, x: nat, lo: nat, hi: nat, align: nat)
    ensures InPiece(some + others, x) <==> InPiece(some, x) || InPiece(others, x)
    ensures align > 0 && Tiling(some + others, lo, hi, align) ==> !(InPiece(some, x) && InPiece(others, x))
  {
    var all := some + others;
    if InPiece(some, x) {
      var p :| p in some && Covers(p, x);
      assert p in all;
      if InPiece(others, x) {
        var q :| q in others && Covers(q, x);
        assert q in all;
        assert p == q ==> all[p] >= 2;
      }
    } else if InPiece(others, x) {
      var q :| q in others && Covers(q, x);
      assert q in all;
    }
    if InPiece(all, x) {
      var p :| p in all && Covers(p, x);
      assert p in some || p in others;
    }
  }

  // An allocation that succeeds takes exactly the bytes of its block from the free ones.
  lemma AllocBytes(h: Heap, numBytes: nat, x: nat)
    requires Inv(h) && AllBlocks(h.free) && Alloc(h, numBytes).1.Some?
    ensures var (h', ptr) := Alloc(h, numBytes);
            FreeByte(h', x) <==> FreeByte(h, x) && !Covers(Blk(BlockSize(h.align, numBytes), ptr.value), x)
  {
    AllocGives(h, numBytes);
    AllocInv(h, numBytes);
    AllocSame(h, numBytes);
    AllocLost(h, numBytes);
    Partition(h, x);
    Partition(Alloc(h, numBytes).0, x);
    var h', ptr := Alloc(h, numBytes).0, Alloc(h, numBytes).1;
    var b := Blk(BlockSize(h.align, numBytes), ptr.value);
    hide Inv, Alloc, InPiece, FreeByte;
    OnePiece(b, x);
    OneSide(multiset(h.used), multiset{b}, x, 0, 0, 0);
  }

  lemma OnePiece(b: Blk, x: nat)
    ensures InPiece(multiset{b}, x) <==> Covers(b, x)
  {
    assert b in multiset{b};
  }

  lemma AllocLost(h: Heap, numBytes: nat)
    requires Inv(h) && AllBlocks(h.free) && Alloc(h, numBytes).1.Some?
    ensures Alloc(h, numBytes).0.lost == h.lost
  {
    hide Inv, Put, BestFit;
  }

  // A free that succeeds gives exactly the bytes of its block back, merged or not.
  lemma FreeBytes(h: Heap, ptr: nat, x: nat) returns (b: Blk)
    requires Inv(h) && Free(h, ptr).1
    ensures AddrOf(b) == ptr && b in multiset(h.used)
    ensures FreeByte(Free(h, ptr).0, x) <==> FreeByte(h, x) || Covers(b, x)
  {
    FreeGives(h, ptr);
    b :| AddrOf(b) == ptr && multiset(h.used) == multiset(Free(h, ptr).0.used) + multiset{b};
    FreeInv(h, ptr);
    FreeSame(h, ptr);
    FreeLost(h, ptr);
    var h' := Free(h, ptr).0;
    hide Free, Placed, Counted, InPiece;
    Partition(h, x);
    Partition(h', x);
    hide Inv, FreeByte;
    OnePiece(b, x);
    OneSide(multiset(h'.used), multiset{b}, x, 0, 0, 0);
    if Covers(b, x) {
      BlockApart(h, b, multiset(h'.used), x);
    }
  }

  // A byte of a block in use is in the region, not lost, and in no other block.
  lemma BlockApart(h: Heap, b: Blk, rest: multiset<Blk>, x: nat)
    requires Inv(h) && multiset(h.used) == rest + multiset{b} && Covers(b, x)
    ensures h.base <= x < HeapEnd(h) && !InPiece(h.lost, x) && !InPiece(rest, x)
  {
    var free := multiset(h.free);
    LastOut(rest, multiset{b}, free, h.lost);
    hide InPiece, Tiling;
    OnePiece(b, x);
    OneSide(multiset{b}, rest + free + h.lost, x, h.base, HeapEnd(h), h.align);
    OneSide(rest + free, h.lost, x, 0, 0, 0);
    OneSide(rest, free, x, 0, 0, 0);
    Within(All(h), x, h.base, HeapEnd(h), h.align);
  }

  lemma LastOut(rest: multiset<Blk>, one: multiset<Blk>, free: multiset<Blk>, lost: multiset<Blk>)
    ensures rest + one + free + lost == one + (rest + free + lost)
  {
  }

  lemma FreeLost(h: Heap, ptr: nat)
    requires Inv(h)
    ensures Free(h, ptr).0.lost == h.lost
  {
    hide Inv, Put, Cut, Merge;
  }
}
