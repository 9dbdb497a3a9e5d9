/** How heap_init lays a heap out in the caller's buffer (source/sosal/heap.c): the
    blocks and list nodes in front, then padding up to the alignment, then the
    data.  The first guess at the number of blocks comes from a floating-point
    ratio that is not part of this model; it is a parameter here, of which only
    `num * (align + blockBytes + nodeBytes) <= bytesTotal` is assumed.
 */
module HeapLayout {
  import opened Arithmetic
  import H = Heap
  import M = HeapModel

  datatype Layout = Layout(blocks: nat, nodes: nat, data: nat, maxBlocks: nat)

  // From `x` up to the next multiple of `align`.
  function Gap(x: nat, align: nat): nat
    requires align > 0
  {
    if M.Aligned(x, align) then 0 else align - x % align
  }

  lemma GapAligns(x: nat, align: nat)
    requires align > 0
    ensures Gap(x, align) < align && M.Aligned(x + Gap(x, align), align)
  {
    var q, r := x / align, x % align;
    assert x == q * align + r;
    if r > 0 {
      Distribute(q, 1, align);
      ModOfMultiple(q + 1, align);
      assert x + Gap(x, align) == (q + 1) * align;
    }
  }

  lemma GapIsLeast(x: nat, other: nat, align: nat)
    requires align > 0 && M.Aligned(x + other, align)
    ensures Gap(x, align) <= other
  {
    GapAligns(x, align);
    if other < Gap(x, align) {
      Multiples(x + Gap(x, align), x + other, align);
    }
  }

  // The bytes `n` blocks of `align` bytes each need with their bookkeeping, and
  // whether the padding left over is enough to align the data.
  function Need(n: nat, align: nat, each: nat): nat { n * (align + each) }

  predicate PadSuffices(raw: nat, bytesTotal: nat, n: nat, align: nat, each: nat)
    requires align > 0
  {
    Need(n, align, each) + Gap(raw + n * each, align) <= bytesTotal
  }

  // Blocks, nodes and data lie one behind the other inside the buffer, and the
  // data is aligned with less than one alignment unit wasted.
  predicate Fits(l: Layout, raw: nat, bytesTotal: nat, align: nat, blockBytes: nat, nodeBytes: nat)
    requires align > 0
  {
    && l.blocks == raw && l.nodes == raw + l.maxBlocks * blockBytes
    && l.nodes + l.maxBlocks * nodeBytes <= l.data < l.nodes + l.maxBlocks * nodeBytes + align
    && l.data + l.maxBlocks * align <= raw + bytesTotal
    && M.Aligned(l.data, align)
  }

  // The placement loop runs once or twice: one block fewer always leaves padding
  // enough.
  method CalcOverhead(raw: nat, bytesTotal: nat, align: nat, first: nat, blockBytes: nat, nodeBytes: nat)
      returns (ok: bool, l: Layout)
    requires align > 0 && Need(first, align, blockBytes + nodeBytes) <= bytesTotal
    ensures ok <==> first > 0
    ensures ok ==> Fits(l, raw, bytesTotal, align, blockBytes, nodeBytes)
    ensures ok ==>
            l.maxBlocks == first - (if PadSuffices(raw, bytesTotal, first, align, blockBytes + nodeBytes) then 0 else 1)
  {
    hide Fits, PadSuffices, Need, M.Aligned;
    var bookkeeping := blockBytes + nodeBytes;
    var num := first;
    l := Layout(0, 0, 0, 0);
    if num == 0 {
      return false, l;
    }
    var again := true;
    while again
      invariant again ==> num == first || (num == first - 1 && !PadSuffices(raw, bytesTotal, first, align, bookkeeping))
      invariant !again ==> Fits(l, raw, bytesTotal, align, blockBytes, nodeBytes)
                           && l.maxBlocks == first -
                                (if PadSuffices(raw, bytesTotal, first, align, bookkeeping) then 0 else 1)
      decreases again, num
    {
      LessNeed(num, first, bytesTotal, align, blockBytes, nodeBytes);
      Placed(raw, bytesTotal, num, align, blockBytes, nodeBytes);
      var overhead := num * bookkeeping;
      var data := num * align;
      var pad := bytesTotal - data - overhead;
      l := Layout(raw, raw + num * blockBytes, raw + overhead, num);
      if !M.Aligned(l.data, align) {
        var offset := align - l.data % align;
        if offset > pad {
          num := num - 1;
          pad := bytesTotal;
        } else {
          l := l.(data := l.data + offset);
          return true, l;
        }
      }
      again := bytesTotal < pad + data + overhead;
    }
    ok := true;
  }

  // One pass: with padding enough the data goes behind the gap; without, the gap
  // is more than the padding, so less than one alignment unit is left.
  lemma Placed(raw: nat, bytesTotal: nat, n: nat, align: nat, blockBytes: nat, nodeBytes: nat)
    requires align > 0 && Need(n, align, blockBytes + nodeBytes) <= bytesTotal
    ensures var each := blockBytes + nodeBytes;
            var start := raw + n * each;
            var l := Layout(raw, raw + n * blockBytes, start + Gap(start, align), n);
            && n * align >= 0 && n * each >= 0 && Need(n, align, each) == n * align + n * each
            && (PadSuffices(raw, bytesTotal, n, align, each) <==>
                Gap(start, align) <= bytesTotal - n * align - n * each)
            && (PadSuffices(raw, bytesTotal, n, align, each) ==> Fits(l, raw, bytesTotal, align, blockBytes, nodeBytes))
            && (Gap(start, align) < align)
  {
    GapAligns(raw + n * (blockBytes + nodeBytes), align);
    SplitNeed(n, align, blockBytes, nodeBytes);
    hide Gap, M.Aligned;
  }

  // So many blocks are laid out exactly when there is a place for so many at all.
  lemma PadSufficesIff(raw: nat, bytesTotal: nat, n: nat, align: nat, blockBytes: nat, nodeBytes: nat)
    requires align > 0
    ensures PadSuffices(raw, bytesTotal, n, align, blockBytes + nodeBytes) <==>
              exists l: Layout :: l.maxBlocks == n && Fits(l, raw, bytesTotal, align, blockBytes, nodeBytes)
  {
    var each := blockBytes + nodeBytes;
    var start := raw + n * each;
    SplitNeed(n, align, blockBytes, nodeBytes);
    GapAligns(start, align);
    if PadSuffices(raw, bytesTotal, n, align, each) {
      assert Fits(Layout(raw, raw + n * blockBytes, start + Gap(start, align), n), raw, bytesTotal, align,
                  blockBytes, nodeBytes);
    }
    forall l: Layout | l.maxBlocks == n && Fits(l, raw, bytesTotal, align, blockBytes, nodeBytes)
      ensures PadSuffices(raw, bytesTotal, n, align, each)
    {
      GapIsLeast(start, l.data - start, align);
    }
  }

  lemma SplitNeed(n: nat, align: nat, blockBytes: nat, nodeBytes: nat)
    ensures Need(n, align, blockBytes + nodeBytes) == n * align + n * (blockBytes + nodeBytes)
    ensures n * (blockBytes + nodeBytes) == n * blockBytes + n * nodeBytes
    ensures n * align >= 0 && n * blockBytes >= 0 && n * nodeBytes >= 0
  {
  }

  lemma LessNeed(n: nat, first: nat, bytesTotal: nat, align: nat, blockBytes: nat, nodeBytes: nat)
    requires n == first || n == first - 1
    requires Need(first, align, blockBytes + nodeBytes) <= bytesTotal
    ensures n < first ==> Need(n, align, blockBytes + nodeBytes) + align <= bytesTotal
    ensures n == first ==> Need(n, align, blockBytes + nodeBytes) <= bytesTotal
    ensures n > 0 ==> n * align >= align
  {
    Step(first, align + blockBytes + nodeBytes);
    Step(n, align);
  }

  // Alignments are powers of two between 32 and 4096 bytes.
  function AlignOf(p2align: nat): (align: nat)
    ensures 32 <= align <= 4096 && M.SCORES % align == 0
  {
    assert Pow2(5) == 32 && Pow2(6) == 64 && Pow2(7) == 128 && Pow2(8) == 256;
    assert Pow2(9) == 512 && Pow2(10) == 1024 && Pow2(11) == 2048 && Pow2(12) == 4096;
    Pow2(if p2align > 12 then 12 else if p2align < 5 then 5 else p2align)
  }

  lemma AlignIs(p2align: nat)
    ensures AlignOf(p2align) == if p2align < 5 then 32 else if p2align > 12 then 4096 else Pow2(p2align)
    ensures p2align == 7 ==> AlignOf(p2align) == 128
  {
    assert Pow2(5) == 32 && Pow2(7) == 128 && Pow2(12) == 4096;
  }

  lemma InitFields(align: nat)
    ensures forall base, maxBlocks: nat :: maxBlocks > 0 ==> M.Init(base, align, maxBlocks, true).align == align
  {
  }

  // Whatever has been done to a heap laid out for `p2align`, as far as 12: a pointer
  // it gives is a multiple of 2^p2align and of 32, and lies in the data.
  lemma PointersAligned(data: nat, p2align: nat, maxBlocks: nat, ops: seq<M.Op>, h: M.Heap, numBytes: nat)
    requires data > 0 && maxBlocks > 0 && p2align <= 12 && M.Aligned(data, AlignOf(p2align))
    requires M.Inv(M.Init(data, AlignOf(p2align), maxBlocks, true))
    requires M.Reaches(M.Init(data, AlignOf(p2align), maxBlocks, true), ops, h)
    requires M.AllBlocks(h.free) && h.align > 0 && M.Alloc(h, numBytes).1.Some?
    ensures var ptr := M.Alloc(h, numBytes).1.value;
            && M.Aligned(ptr, Pow2(p2align)) && M.Aligned(ptr, 32)
            && data <= ptr && ptr + numBytes <= data + maxBlocks * AlignOf(p2align)
  {
    var start := M.Init(data, AlignOf(p2align), maxBlocks, true);
    M.RunInv(start, ops, h);
    M.AllocGives(h, numBytes);
    var ptr := M.Alloc(h, numBytes).1.value;
    assert M.Aligned(ptr, AlignOf(p2align));
    hide M.Init, M.Inv, M.Reaches, M.Alloc, M.AllBlocks, AlignOf;
    AlignIs(p2align);
    Divides(ptr, p2align);
  }

  lemma Divides(ptr: nat, p2align: nat)
    requires p2align <= 12 && M.Aligned(ptr, if p2align < 5 then 32 else Pow2(p2align))
    ensures M.Aligned(ptr, Pow2(p2align)) && M.Aligned(ptr, 32)
  {
    assert Pow2(5) == 32;
    Pow2Divides(ptr, p2align, if p2align < 5 then 5 else p2align);
    Pow2Divides(ptr, 5, if p2align < 5 then 5 else p2align);
  }

  // heap_init always turns coalescing on.  `ok` is false when the program takes
  // the first node off an empty spare list and follows the NULL pointer: that
  // happens exactly when a single block was to be had and cannot be aligned.
  method HeapInit(buffer: nat, size: nat, p2align: nat, first: nat, blockBytes: nat, nodeBytes: nat)
      returns (ok: bool, heap: H.HeapAllocator?, l: Layout)
    requires Need(first, AlignOf(p2align), blockBytes + nodeBytes) <= size
    ensures !ok <==>
            && buffer != 0 && buffer % 4 == 0 && first == 1
            && !PadSuffices(buffer, size, 1, AlignOf(p2align), blockBytes + nodeBytes)
    ensures heap == null <==> !ok || buffer == 0 || buffer % 4 != 0 || first == 0
    ensures heap != null ==> Fits(l, buffer, size, AlignOf(p2align), blockBytes, nodeBytes) && l.maxBlocks > 0
    ensures heap != null ==>
              l.maxBlocks == first - (if PadSuffices(buffer, size, first, AlignOf(p2align), blockBytes + nodeBytes)
                  then 0 else 1)
    ensures heap != null ==>
            fresh(heap.Repr()) && heap.Valid() && heap.View() == M.Init(l.data, AlignOf(p2align), l.maxBlocks, true)
    ensures heap != null ==>
              heap.View().align == (if p2align < 5 then 32 else if p2align > 12 then 4096 else Pow2(p2align))
  {
    AlignIs(p2align);
    InitFields(AlignOf(p2align));
    hide PadSuffices, Need, AlignOf, Fits, M.Aligned, M.Init, H.HeapAllocator.Valid, H.HeapAllocator.View;
    ok := true;
    heap := null;
    l := Layout(0, 0, 0, 0);
    var align := AlignOf(p2align);
    if buffer == 0 || buffer % 4 != 0 {
      return;
    }
    var laidOut;
    laidOut, l := CalcOverhead(buffer, size, align, first, blockBytes, nodeBytes);
    if laidOut {
      if l.maxBlocks == 0 {
        ok := false;
      } else {
        BehindBuffer(l, buffer, size, align, blockBytes, nodeBytes);
        heap := H.HeapAllocator.Init(l.data, align, l.maxBlocks, true);
      }
    }
  }

  lemma BehindBuffer(l: Layout, raw: nat, bytesTotal: nat, align: nat, blockBytes: nat, nodeBytes: nat)
    requires align > 0 && raw > 0 && Fits(l, raw, bytesTotal, align, blockBytes, nodeBytes)
    ensures l.data > 0 && M.Aligned(l.data, align)
  {
    Step(l.maxBlocks, blockBytes);
    Step(l.maxBlocks, nodeBytes);
  }

  // Such a buffer: 72 bytes at address 4, with the record sizes of a 64-bit machine.
  lemma TinyBuffer()
    ensures Need(1, AlignOf(5), 16 + 24) == 72 && !PadSuffices(4, 72, 1, AlignOf(5), 16 + 24)
  {
    assert Pow2(5) == 32;
  }
}
