/** The lines of a cache (source/sosal/cache.c) and the flat array they stand for,
    as values: what a read, a write, a flush and an invalidation make of them, when
    that is what a flat array would have made, and what follows for any run.
    What reusing a line that is in use does (the eviction in cache_next) is not
    modelled: an operation fits if it finds the invalid lines it needs. */
module CacheLines {
  import opened Arithmetic
  import opened Bytes

  datatype Policy = WriteThrough | WriteBack

  datatype Line = Line(valid: bool, start: nat, end: nat, data: seq<Byte>)

  predicate Covers(l: Line, x: nat) {
    l.valid && l.start <= x < l.end
  }

  // The first line that is valid and covers `x`; the number of lines if none does.
  function Covering(lines: seq<Line>, x: nat, i: nat): (k: nat)
    requires i <= |lines|
    ensures i <= k <= |lines|
    ensures k < |lines| ==> Covers(lines[k], x)
    ensures forall j :: i <= j < k ==> !Covers(lines[j], x)
    decreases |lines| - i
  {
    if i == |lines| || Covers(lines[i], x) then i else Covering(lines, x, i + 1)
  }

  predicate Cached(lines: seq<Line>, x: nat) {
    Covering(lines, x, 0) < |lines|
  }

  // ---- what the cache stands for --------------------------------------------------

  predicate LineOk(l: Line, lineSize: nat, total: nat)
    requires lineSize > 0
  {
    |l.data| == lineSize && (l.valid ==> l.start % lineSize == 0 && l.end == l.start + lineSize <= total)
  }

  predicate Apart(a: Line, b: Line) {
    a.valid && b.valid ==> a.end <= b.start || b.end <= a.start
  }

  ghost predicate LinesOk(lines: seq<Line>, lineSize: nat, total: nat)
    requires lineSize > 0
  {
    && total % lineSize == 0
    && (forall i {:trigger lines[i]} :: 0 <= i < |lines| ==> LineOk(lines[i], lineSize, total))
    && (forall i, j :: 0 <= i < j < |lines| ==> Apart(lines[i], lines[j]))
  }

  // The byte at `x`: that of the line that covers it, else that of the store.
  function ByteAt(lines: seq<Line>, lineSize: nat, store: seq<Byte>, x: nat): Byte
    requires lineSize > 0 && LinesOk(lines, lineSize, |store|) && x < |store|
  {
    var k := Covering(lines, x, 0);
    if k < |lines| then lines[k].data[x - lines[k].start] else store[x]
  }

  function Flat(lines: seq<Line>, lineSize: nat, store: seq<Byte>): (f: seq<Byte>)
    requires lineSize > 0 && LinesOk(lines, lineSize, |store|)
    ensures |f| == |store| && forall x {:trigger f[x]} :: 0 <= x < |f| ==> f[x] == ByteAt(lines, lineSize, store, x)
  {
    seq(|store|, x requires 0 <= x < |store| => ByteAt(lines, lineSize, store, x))
  }

  // No two valid lines cover the same byte, so which one is found does not matter.
  lemma OnlyCover(lines: seq<Line>, lineSize: nat, total: nat, k: nat, x: nat)
    requires lineSize > 0 && LinesOk(lines, lineSize, total) && k < |lines| && Covers(lines[k], x)
    ensures Covering(lines, x, 0) == k
  {
    var c := Covering(lines, x, 0);
    assert c < k ==> Apart(lines[c], lines[k]);
  }

  lemma NotCached(lines: seq<Line>, x: nat)
    ensures !Cached(lines, x) <==> forall k {:trigger lines[k]} :: 0 <= k < |lines| ==> !Covers(lines[k], x)
  {
  }

  // Line k is replaced.  Bytes that neither the old nor the new line covers keep
  // their value; those the new one covers are read from it; any others fall back
  // to the store.
  lemma LineChanged(lines: seq<Line>, lineSize: nat, store: seq<Byte>, k: nat, l: Line, x: nat)
    requires lineSize > 0 && k < |lines| && x < |store|
    requires LinesOk(lines, lineSize, |store|) && LinesOk(lines[k := l], lineSize, |store|)
    requires LineOk(l, lineSize, |store|)
    ensures ByteAt(lines[k := l], lineSize, store, x) ==
            if Covers(l, x) then l.data[x - l.start] else if Covers(lines[k], x) then store[x]
                else ByteAt(lines, lineSize, store, x)
    ensures Cached(lines[k := l], x) <==> Covers(l, x) || (Cached(lines, x) && !Covers(lines[k], x))
  {
    var after := lines[k := l];
    if Covers(l, x) {
      OnlyCover(after, lineSize, |store|, k, x);
    } else if Covers(lines[k], x) {
      OnlyCover(lines, lineSize, |store|, k, x);
      if Cached(after, x) {
        var j := Covering(after, x, 0);
        assert Covers(lines[j], x);
        OnlyCover(lines, lineSize, |store|, j, x);
      }
    } else if Cached(lines, x) {
      var j := Covering(lines, x, 0);
      assert Covers(after[j], x);
      OnlyCover(after, lineSize, |store|, j, x);
    } else {
      NotCached(lines, x);
      NotCached(after, x);
    }
  }

  // Putting a valid line into slot k, where a line of the same range or an invalid
  // one was, writes the line's bytes to the flat array.
  lemma LinePut(lines: seq<Line>, lineSize: nat, store: seq<Byte>, k: nat, l: Line)
    requires lineSize > 0 && k < |lines| && l.valid && LineOk(l, lineSize, |store|)
    requires LinesOk(lines, lineSize, |store|) && LinesOk(lines[k := l], lineSize, |store|)
    requires lines[k].valid ==> lines[k].start == l.start
    ensures Flat(lines[k := l], lineSize, store) == Patch(Flat(lines, lineSize, store), l.start, l.data)
  {
    hide LinesOk, Patch, Flat;
    var f := Patch(Flat(lines, lineSize, store), l.start, l.data);
    assert LineOk(lines[k], lineSize, |store|) by { hide *; LineIn(lines, lineSize, |store|, k); }
    forall x | 0 <= x < |store| ensures Flat(lines[k := l], lineSize, store)[x] == f[x] {
      LineChanged(lines, lineSize, store, k, l, x);
    }
  }

  lemma LineIn(lines: seq<Line>, lineSize: nat, total: nat, k: nat)
    requires lineSize > 0 && LinesOk(lines, lineSize, total) && k < |lines|
    ensures LineOk(lines[k], lineSize, total)
  {
  }

  // Replacing one invalid line by another changes nothing.
  lemma LineRefilled(lines: seq<Line>, lineSize: nat, store: seq<Byte>, k: nat, l: Line)
    requires lineSize > 0 && k < |lines| && !l.valid && |l.data| == lineSize && !lines[k].valid
    requires LinesOk(lines, lineSize, |store|)
    ensures LinesOk(lines[k := l], lineSize, |store|)
    ensures Flat(lines[k := l], lineSize, store) == Flat(lines, lineSize, store)
    ensures forall x: nat :: Cached(lines[k := l], x) == Cached(lines, x)
  {
    forall x | 0 <= x < |store| ensures ByteAt(lines[k := l], lineSize, store, x) == ByteAt(lines, lineSize, store, x) {
      LineChanged(lines, lineSize, store, k, l, x);
    }
    forall x: nat ensures Cached(lines[k := l], x) == Cached(lines, x) {
      var i, j := Covering(lines, x, 0), Covering(lines[k := l], x, 0);
      assert i < |lines| ==> Covers(lines[k := l][i], x);
      assert j < |lines| ==> Covers(lines[j], x);
    }
  }

  // Committing a line changes the store but not the flat array.
  lemma CommitKeeps(lines: seq<Line>, lineSize: nat, store: seq<Byte>, k: nat)
    requires lineSize > 0 && LinesOk(lines, lineSize, |store|) && k < |lines| && lines[k].valid
    ensures Flat(lines, lineSize, Patch(store, lines[k].start, lines[k].data)) == Flat(lines, lineSize, store)
  {
    hide Patch;
    var after := Patch(store, lines[k].start, lines[k].data);
    forall x | 0 <= x < |store| ensures ByteAt(lines, lineSize, after, x) == ByteAt(lines, lineSize, store, x) {
      if Covers(lines[k], x) {
        OnlyCover(lines, lineSize, |store|, k, x);
      }
    }
  }

  // ---- cutting an access into chunks ------------------------------------------------

  // The source's rule: to the end of the line, or all that is left when that is
  // less than a line.
  function Chunk(lineSize: nat, offset: nat, len: nat): nat
    requires lineSize > 0
  {
    if len < lineSize then len else lineSize - offset % lineSize
  }

  // The offset within its line, and where that line starts.
  function Intra(lineSize: nat, offset: nat): nat
    requires lineSize > 0
  {
    offset % lineSize
  }

  function Round(lineSize: nat, offset: nat): nat
    requires lineSize > 0
  {
    offset / lineSize * lineSize
  }

  lemma RoundMeans(lineSize: nat, offset: nat)
    requires lineSize > 0
    ensures Round(lineSize, offset) == offset - offset % lineSize && Round(lineSize, offset) % lineSize == 0
    ensures Round(lineSize, offset) <= offset < Round(lineSize, offset) + lineSize
  {
    ModOfMultiple(offset / lineSize, lineSize);
  }

  lemma LineFits(lineSize: nat, start: nat, total: nat)
    requires lineSize > 0 && start % lineSize == 0 && total % lineSize == 0 && start < total
    ensures start + lineSize <= total
  {
    Multiples(total, start, lineSize);
  }

  // Every copy of the access stays within its line.
  predicate InLines(lineSize: nat, offset: nat, len: nat)
    requires lineSize > 0
    decreases len
  {
    var size := Chunk(lineSize, offset, len);
    offset % lineSize + size <= lineSize && (size < len ==> InLines(lineSize, offset + size, len - size))
  }

  // Two bytes over the end of a line of four do not.
  lemma OverTheEnd()
    ensures !InLines(4, 3, 2)
  {
  }

  lemma NextAligned(lineSize: nat, offset: nat)
    requires lineSize > 0
    ensures (offset + (lineSize - offset % lineSize)) % lineSize == 0
  {
    var q := offset / lineSize;
    Distribute(q, 1, lineSize);
    ModOfMultiple(q + 1, lineSize);
  }

  // The exact condition: a short access must not cross a line boundary.
  lemma {:induction false} InLinesIff(lineSize: nat, offset: nat, len: nat)
    requires lineSize > 0
    ensures InLines(lineSize, offset, len) <==> len >= lineSize || offset % lineSize + len <= lineSize
    decreases len
  {
    var size := Chunk(lineSize, offset, len);
    if size < len {
      InLinesIff(lineSize, offset + size, len - size);
      NextAligned(lineSize, offset);
    }
  }

  // The lines an access touches, by where they start.
  function LinesOf(lineSize: nat, offset: nat, len: nat): set<nat>
    requires lineSize > 0
    decreases len
  {
    var size := Chunk(lineSize, offset, len);
    {Round(lineSize, offset)} + (if size < len then LinesOf(lineSize, offset + size, len - size) else {})
  }

  // Whether every chunk finds its line or is a whole line.
  predicate HitOrFull(cached: set<nat>, lineSize: nat, offset: nat, len: nat)
    requires lineSize > 0
    decreases len
  {
    var size := Chunk(lineSize, offset, len);
    (Round(lineSize, offset) in cached || size == lineSize)
        && (size < len ==> HitOrFull(cached, lineSize, offset + size, len - size))
  }

  lemma {:induction false} HitOrFullGrows(cached: set<nat>, more: set<nat>, lineSize: nat, offset: nat, len: nat)
    requires lineSize > 0 && cached <= more && HitOrFull(cached, lineSize, offset, len)
    ensures HitOrFull(more, lineSize, offset, len)
    decreases len
  {
    var size := Chunk(lineSize, offset, len);
    if size < len {
      HitOrFullGrows(cached, more, lineSize, offset + size, len - size);
    }
  }

  // Writes of whole lines at a line boundary never need what was in the store.
  lemma {:induction false} WholeLines(cached: set<nat>, lineSize: nat, offset: nat, count: nat)
    requires lineSize > 0 && offset % lineSize == 0 && count > 0
    ensures HitOrFull(cached, lineSize, offset, count * lineSize) && InLines(lineSize, offset, count * lineSize)
    decreases count
  {
    Step(count, lineSize);
    Step(count - 1, lineSize);
    NextAligned(lineSize, offset);
    if count > 1 {
      WholeLines(cached, lineSize, offset + lineSize, count - 1);
    }
  }

  // ---- lines in use and lines to spare -----------------------------------------------

  ghost function Invalid(lines: seq<Line>): set<nat> {
    set i | 0 <= i < |lines| && !lines[i].valid
  }

  // Where the valid lines start.
  ghost function CachedLines(lines: seq<Line>): set<nat> {
    set i | 0 <= i < |lines| && lines[i].valid :: lines[i].start
  }

  lemma CachedIs(lines: seq<Line>, lineSize: nat, total: nat, x: nat)
    requires lineSize > 0 && LinesOk(lines, lineSize, total)
    ensures Cached(lines, x) <==> Round(lineSize, x) in CachedLines(lines)
  {
    RoundMeans(lineSize, x);
    if Round(lineSize, x) in CachedLines(lines) {
      var i :| 0 <= i < |lines| && lines[i].valid && lines[i].start == Round(lineSize, x);
      assert LineOk(lines[i], lineSize, total);
      assert Covers(lines[i], x);
    }
    var k := Covering(lines, x, 0);
    hide Round;
    if k < |lines| {
      LineIn(lines, lineSize, total, k);
      SameLine(lines[k], lineSize, total, x, x);
    }
  }

  // Every line is either in use or to spare, and no two lines in use start alike.
  lemma {:induction false} Counts(lines: seq<Line>, lineSize: nat, total: nat, n: nat)
    requires lineSize > 0 && LinesOk(lines, lineSize, total) && n <= |lines|
    ensures |CachedLines(lines[..n])| + |Invalid(lines[..n])| == n
  {
    if n == 0 {
      assert CachedLines(lines[..n]) == {} && Invalid(lines[..n]) == {};
    } else {
      Counts(lines, lineSize, total, n - 1);
      CountsNext(lines, lineSize, total, n);
    }
  }

  lemma CountsNext(lines: seq<Line>, lineSize: nat, total: nat, n: nat)
    requires lineSize > 0 && LinesOk(lines, lineSize, total) && 0 < n <= |lines|
    ensures |CachedLines(lines[..n])| == |CachedLines(lines[..n - 1])| + (if lines[n - 1].valid then 1 else 0)
    ensures |Invalid(lines[..n])| == |Invalid(lines[..n - 1])| + (if lines[n - 1].valid then 0 else 1)
  {
    forall i | 0 <= i < n - 1 && lines[i].valid && lines[n - 1].valid ensures lines[i].start != lines[n - 1].start {
      assert Apart(lines[i], lines[n - 1]);
      assert LineOk(lines[i], lineSize, total) && LineOk(lines[n - 1], lineSize, total);
    }
    hide LinesOk;
    var less, more := lines[..n - 1], lines[..n];
    assert more == less + [lines[n - 1]];
    OneMore(less, lines[n - 1]);
    OneSpare(less, lines[n - 1]);
  }

  lemma OneMore(less: seq<Line>, l: Line)
    requires l.valid ==> forall i :: 0 <= i < |less| && less[i].valid ==> less[i].start != l.start
    ensures |CachedLines(less + [l])| == |CachedLines(less)| + (if l.valid then 1 else 0)
  {
    var more, n := less + [l], |less|;
    assert more[n] == l && forall i :: 0 <= i < n ==> more[i] == less[i];
    if l.valid {
      assert CachedLines(more) == CachedLines(less) + {l.start};
    } else {
      assert CachedLines(more) == CachedLines(less);
    }
  }

  lemma OneSpare(less: seq<Line>, l: Line)
    ensures |Invalid(less + [l])| == |Invalid(less)| + (if l.valid then 0 else 1)
  {
    if l.valid {
      assert Invalid(less + [l]) == Invalid(less);
    } else {
      assert Invalid(less + [l]) == Invalid(less) + {|less|};
    }
  }

  // The line that a miss takes: the last one that is not in use.
  function LastInvalid(lines: seq<Line>): (k: nat)
    ensures k <= |lines|
    ensures k < |lines| ==> !lines[k].valid
    ensures forall j :: k < j < |lines| ==> lines[j].valid
    ensures k == |lines| ==> forall j :: 0 <= j < |lines| ==> lines[j].valid
  {
    if lines == [] then 0
    else
      var n := |lines| - 1;
      if !lines[n].valid then n
      else
        var k := LastInvalid(lines[..n]);
        assert forall j :: 0 <= j < n ==> lines[..n][j] == lines[j];
        if k == n then n + 1 else k
  }

  // A line that starts where no valid line covers the access lies apart from all.
  lemma NewLineApart(lines: seq<Line>, lineSize: nat, total: nat, k: nat, offset: nat, data: seq<Byte>)
    requires lineSize > 0 && LinesOk(lines, lineSize, total) && k < |lines| && !Cached(lines, offset)
    requires offset < total && |data| == lineSize
    ensures var l := Line(true, Round(lineSize, offset), Round(lineSize, offset) + lineSize, data);
            LineOk(l, lineSize, total) && LinesOk(lines[k := l], lineSize, total)
  {
    RoundMeans(lineSize, offset);
    var start := Round(lineSize, offset);
    hide Round;
    LineFits(lineSize, start, total);
    NotCached(lines, offset);
    var l := Line(true, start, start + lineSize, data);
    forall j | 0 <= j < |lines| && lines[j].valid ensures Apart(lines[j], l) && Apart(l, lines[j]) {
      assert !Covers(lines[j], offset);
      Multiples(start, lines[j].start, lineSize);
      Multiples(lines[j].start, start, lineSize);
    }
  }

  // A valid line that covers one byte of an aligned line is that line.
  lemma SameLine(l: Line, lineSize: nat, total: nat, offset: nat, x: nat)
    requires lineSize > 0 && LineOk(l, lineSize, total) && Covers(l, x)
    requires Round(lineSize, offset) <= x < Round(lineSize, offset) + lineSize
    ensures l.start == Round(lineSize, offset)
  {
    RoundMeans(lineSize, offset);
    hide Round;
    Multiples(l.start, Round(lineSize, offset), lineSize);
    Multiples(Round(lineSize, offset), l.start, lineSize);
  }

  lemma HitBytes(lines: seq<Line>, lineSize: nat, store: seq<Byte>, k: nat, offset: nat, size: nat)
    requires lineSize > 0 && LinesOk(lines, lineSize, |store|) && k < |lines| && Covers(lines[k], offset)
    requires offset % lineSize + size <= lineSize
    ensures LineOk(lines[k], lineSize, |store|) && offset + size <= |store|
    ensures lines[k].start == offset - offset % lineSize
    ensures lines[k].data[offset % lineSize..offset % lineSize + size]
            == Flat(lines, lineSize, store)[offset..offset + size]
  {
    LineIn(lines, lineSize, |store|, k);
    RoundMeans(lineSize, offset);
    SameLine(lines[k], lineSize, |store|, offset, offset);
    hide Round;
    forall x | offset <= x < offset + size ensures Covering(lines, x, 0) == k {
      OnlyCover(lines, lineSize, |store|, k, x);
    }
  }

  lemma MissedLine(lines: seq<Line>, lineSize: nat, total: nat, offset: nat, x: nat)
    requires lineSize > 0 && LinesOk(lines, lineSize, total) && !Cached(lines, offset)
    requires Round(lineSize, offset) <= x < Round(lineSize, offset) + lineSize
    ensures !Cached(lines, x)
  {
    RoundMeans(lineSize, offset);
    var j := Covering(lines, x, 0);
    hide Round;
    NotCached(lines, offset);
    if j < |lines| {
      LineIn(lines, lineSize, total, j);
      SameLine(lines[j], lineSize, total, offset, x);
    }
  }

  // Overwriting part of a valid line.
  lemma StoreHit(lines: seq<Line>, lineSize: nat, store: seq<Byte>, k: nat, offset: nat, bytes: seq<Byte>)
    requires lineSize > 0 && LinesOk(lines, lineSize, |store|) && k < |lines| && Covers(lines[k], offset)
    requires offset % lineSize + |bytes| <= lineSize
    ensures |lines[k].data| == lineSize && offset + |bytes| <= |store|
    ensures var l := lines[k].(data := Patch(lines[k].data, offset % lineSize, bytes));
            && LineOk(l, lineSize, |store|) && l.start == Round(lineSize, offset)
            && LinesOk(lines[k := l], lineSize, |store|)
            && Flat(lines[k := l], lineSize, store) == Patch(Flat(lines, lineSize, store), offset, bytes)
  {
    LineIn(lines, lineSize, |store|, k);
    RoundMeans(lineSize, offset);
    SameLine(lines[k], lineSize, |store|, offset, offset);
    var start, data := lines[k].start, lines[k].data;
    var l := lines[k].(data := Patch(data, offset % lineSize, bytes));
    assert LinesOk(lines[k := l], lineSize, |store|);
    hide Round, LinesOk, Flat, Patch;
    LinePut(lines, lineSize, store, k, l);
    HitBytes(lines, lineSize, store, k, start, lineSize);
    assert data[0..lineSize] == data;
    PatchInside(Flat(lines, lineSize, store), start, data, offset % lineSize, bytes);
    PatchSame(Flat(lines, lineSize, store), start, lineSize);
  }

  // Taking an invalid line into use brings along whatever it still holds.
  lemma StoreMiss(lines: seq<Line>, lineSize: nat, store: seq<Byte>, k: nat, offset: nat, bytes: seq<Byte>)
    requires lineSize > 0 && LinesOk(lines, lineSize, |store|) && k < |lines| && !lines[k].valid
    requires !Cached(lines, offset)
    requires offset < |store| && offset % lineSize + |bytes| <= lineSize
    ensures |lines[k].data| == lineSize && offset + |bytes| <= |store|
    ensures var start := Round(lineSize, offset);
            var l := Line(true, start, start + lineSize, Patch(lines[k].data, offset % lineSize, bytes));
            && LineOk(l, lineSize, |store|)
            && LinesOk(lines[k := l], lineSize, |store|)
            && Flat(lines[k := l], lineSize, store)
                == Patch(Patch(Flat(lines, lineSize, store), start, lines[k].data), offset, bytes)
  {
    LineIn(lines, lineSize, |store|, k);
    RoundMeans(lineSize, offset);
    var start, data := Round(lineSize, offset), lines[k].data;
    var l := Line(true, start, start + lineSize, Patch(data, offset % lineSize, bytes));
    hide Round, LinesOk, Flat, Patch;
    NewLineApart(lines, lineSize, |store|, k, offset, l.data);
    LinePut(lines, lineSize, store, k, l);
    PatchInside(Flat(lines, lineSize, store), start, data, offset % lineSize, bytes);
  }

  // A chunk that misses is written faithfully exactly when it is a full line or
  // the rest of the line taken into use happens to hold the right bytes.
  lemma MissIsFaithful(flat: seq<Byte>, start: nat, leftover: seq<Byte>, at: nat, bytes: seq<Byte>)
    requires start + |leftover| <= |flat| && at + |bytes| <= |leftover|
    ensures Patch(Patch(flat, start, leftover), start + at, bytes) == Patch(flat, start + at, bytes) <==>
              RestMatches(leftover, flat, start, at, |bytes|)
  {
    var one, other := Patch(Patch(flat, start, leftover), start + at, bytes), Patch(flat, start + at, bytes);
    if one == other {
      forall i | 0 <= i < |leftover| && !(at <= i < at + |bytes|) ensures leftover[i] == flat[start + i] {
        assert one[start + i] == leftover[i];
        assert other[start + i] == flat[start + i];
      }
    }
  }

  // Setting a committed line aside.
  lemma LineDropped(lines: seq<Line>, lineSize: nat, store: seq<Byte>, k: nat, l: Line)
    requires lineSize > 0 && LinesOk(lines, lineSize, |store|) && k < |lines| && lines[k].valid && !l.valid
    requires |l.data| == lineSize
    requires LineOk(lines[k], lineSize, |store|) && store[lines[k].start..lines[k].end] == lines[k].data
    ensures LinesOk(lines[k := l], lineSize, |store|)
    ensures Flat(lines[k := l], lineSize, store) == Flat(lines, lineSize, store)
  {
    var start := lines[k].start;
    assert LinesOk(lines[k := l], lineSize, |store|);
    hide LinesOk, Covering;
    forall x | 0 <= x < |store| ensures ByteAt(lines[k := l], lineSize, store, x) == ByteAt(lines, lineSize, store, x) {
      LineChanged(lines, lineSize, store, k, l, x);
      if Covers(lines[k], x) {
        OnlyCover(lines, lineSize, |store|, k, x);
        assert store[start..lines[k].end][x - start] == store[x];
      }
    }
  }

  lemma NoneValid(lines: seq<Line>, lineSize: nat, store: seq<Byte>)
    requires lineSize > 0 && LinesOk(lines, lineSize, |store|) && forall i :: 0 <= i < |lines| ==> !lines[i].valid
    ensures Flat(lines, lineSize, store) == store && CachedLines(lines) == {}
  {
  }

  // ---- when a write is a write ---------------------------------------------------------

  // A miss takes a line into use and leaves its bytes as they are.
  function Claim(lines: seq<Line>, lineSize: nat, at: nat): seq<Line>
    requires lineSize > 0
  {
    var k := LastInvalid(lines);
    if Cached(lines, at) || k == |lines| then lines
    else lines[k := lines[k].(valid := true, start := Round(lineSize, at), end := Round(lineSize, at) + lineSize)]
  }

  // Outside the `size` bytes at `from`, the line holds what the flat array does.
  predicate RestMatches(data: seq<Byte>, flat: seq<Byte>, start: nat, from: nat, size: nat) {
    forall i {:trigger data[i]} :: 0 <= i < |data| && start + i < |flat| && !(from <= i < from + size) ==>
        data[i] == flat[start + i]
  }

  predicate ChunkFaithful(lines: seq<Line>, lineSize: nat, flat: seq<Byte>, at: nat, size: nat)
    requires lineSize > 0
  {
    var k := LastInvalid(lines);
    Cached(lines, at) || (k < |lines| && RestMatches(lines[k].data, flat, Round(lineSize, at), at % lineSize, size))
  }

  // Known before the write: every chunk finds its line, or the line it will take
  // into use already holds the right bytes around it.
  predicate Faithful(lines: seq<Line>, lineSize: nat, flat: seq<Byte>, at: nat, len: nat)
    requires lineSize > 0
    decreases len
  {
    var size := Chunk(lineSize, at, len);
    ChunkFaithful(lines, lineSize, flat, at, size)
    && (size < len ==> Faithful(Claim(lines, lineSize, at), lineSize, flat, at + size, len - size))
  }

  lemma FaithfulStep(lines: seq<Line>, lineSize: nat, flat: seq<Byte>, at: nat, len: nat)
    requires lineSize > 0
    ensures var size := Chunk(lineSize, at, len);
            Faithful(lines, lineSize, flat, at, len) <==>
              ChunkFaithful(lines, lineSize, flat, at, size)
              && (size < len ==> Faithful(Claim(lines, lineSize, at), lineSize, flat, at + size, len - size))
  {
  }

  // Lines that differ at most in the bytes of lines in use.
  ghost predicate SameUse(a: seq<Line>, b: seq<Line>) {
    && |a| == |b|
    && forall i {:trigger a[i]} {:trigger b[i]} :: 0 <= i < |a| ==>
         a[i].valid == b[i].valid && a[i].start == b[i].start && a[i].end == b[i].end
             && (!a[i].valid ==> a[i].data == b[i].data)
  }

  lemma SameUseFacts(a: seq<Line>, b: seq<Line>, lineSize: nat, at: nat)
    requires lineSize > 0 && SameUse(a, b)
    ensures Cached(a, at) == Cached(b, at) && LastInvalid(a) == LastInvalid(b)
    ensures LastInvalid(a) < |a| ==> a[LastInvalid(a)].data == b[LastInvalid(b)].data
    ensures SameUse(Claim(a, lineSize, at), Claim(b, lineSize, at))
  {
    var i, j := Covering(a, at, 0), Covering(b, at, 0);
    assert i < |a| ==> Covers(b[i], at);
    assert j < |b| ==> Covers(a[j], at);
    var k, l := LastInvalid(a), LastInvalid(b);
    assert k < |a| ==> !b[k].valid;
    assert l < |b| ==> !a[l].valid;
  }

  lemma {:induction false} FaithfulSame(a: seq<Line>, b: seq<Line>, lineSize: nat, flat: seq<Byte>, at: nat, len: nat)
    requires lineSize > 0 && SameUse(a, b)
    ensures Faithful(a, lineSize, flat, at, len) == Faithful(b, lineSize, flat, at, len)
    decreases len
  {
    hide *;
    SameUseFacts(a, b, lineSize, at);
    SameUseChunk(a, b, lineSize, flat, at, Chunk(lineSize, at, len));
    FaithfulStep(a, lineSize, flat, at, len);
    FaithfulStep(b, lineSize, flat, at, len);
    ChunkFits(lineSize, at, len);
    var size := Chunk(lineSize, at, len);
    if size < len {
      FaithfulSame(Claim(a, lineSize, at), Claim(b, lineSize, at), lineSize, flat, at + size, len - size);
    }
  }

  lemma SameUseChunk(a: seq<Line>, b: seq<Line>, lineSize: nat, flat: seq<Byte>, at: nat, size: nat)
    requires lineSize > 0 && SameUse(a, b)
    ensures ChunkFaithful(a, lineSize, flat, at, size) == ChunkFaithful(b, lineSize, flat, at, size)
  {
    SameUseFacts(a, b, lineSize, at);
    hide SameUse, Claim, RestMatches, Cached, LastInvalid, Round;
    assert |a| == |b| by { hide *; SameUseLength(a, b); }
  }

  lemma SameUseLength(a: seq<Line>, b: seq<Line>)
    requires SameUse(a, b)
    ensures |a| == |b|
  {
  }

  // What a write asks for: to lie in the store, to stay within lines, lines enough.
  ghost predicate Roomy(lines: seq<Line>, lineSize: nat, total: nat, at: nat, len: nat)
    requires lineSize > 0
  {
    && LinesOk(lines, lineSize, total) && at < total && at + len <= total && InLines(lineSize, at, len)
    && |CachedLines(lines) + LinesOf(lineSize, at, len)| <= |lines|
  }

  lemma RoomyMeans(lines: seq<Line>, lineSize: nat, total: nat, at: nat, len: nat)
    requires lineSize > 0
    ensures Roomy(lines, lineSize, total, at, len) <==>
              && LinesOk(lines, lineSize, total) && at < total && at + len <= total && InLines(lineSize, at, len)
              && |CachedLines(lines) + LinesOf(lineSize, at, len)| <= |lines|
  {
    hide CachedLines, LinesOf, LinesOk, InLines;
  }

  // Hits and whole lines are faithful whatever the lines hold.
  lemma {:induction false} HitOrFullIsFaithful(lines: seq<Line>, lineSize: nat, flat: seq<Byte>, at: nat, len: nat)
    requires lineSize > 0 && Roomy(lines, lineSize, |flat|, at, len)
    requires HitOrFull(CachedLines(lines), lineSize, at, len)
    ensures Faithful(lines, lineSize, flat, at, len)
    decreases len
  {
    hide *;
    HitOrFullChunk(lines, lineSize, flat, at, len);
    RoomyNext(lines, lineSize, |flat|, at, len);
    FaithfulStep(lines, lineSize, flat, at, len);
    ChunkFits(lineSize, at, len);
    var size := Chunk(lineSize, at, len);
    if size < len {
      HitOrFullNext(CachedLines(lines), lineSize, at, len);
      var after := Claim(lines, lineSize, at);
      HitOrFullGrows(CachedLines(lines), CachedLines(after), lineSize, at + size, len - size);
      HitOrFullIsFaithful(after, lineSize, flat, at + size, len - size);
    }
  }

  lemma HitOrFullNext(cached: set<nat>, lineSize: nat, at: nat, len: nat)
    requires lineSize > 0 && HitOrFull(cached, lineSize, at, len)
    ensures var size := Chunk(lineSize, at, len); size < len ==> HitOrFull(cached, lineSize, at + size, len - size)
  {
  }

  lemma HitOrFullChunk(lines: seq<Line>, lineSize: nat, flat: seq<Byte>, at: nat, len: nat)
    requires lineSize > 0 && Roomy(lines, lineSize, |flat|, at, len)
    requires HitOrFull(CachedLines(lines), lineSize, at, len)
    ensures ChunkFaithful(lines, lineSize, flat, at, Chunk(lineSize, at, len))
  {
    CachedIs(lines, lineSize, |flat|, at);
    Room(lines, lineSize, |flat|, at, LinesOf(lineSize, at, len));
    InLinesStep(lineSize, at, len);
    if !Cached(lines, at) {
      LineIn(lines, lineSize, |flat|, LastInvalid(lines));
    }
    hide Round, LinesOk, InLines;
  }

  // What a turn of the write leaves for those behind it.
  lemma RoomyNext(lines: seq<Line>, lineSize: nat, total: nat, at: nat, len: nat)
    requires lineSize > 0 && Roomy(lines, lineSize, total, at, len)
    ensures var size, after := Chunk(lineSize, at, len), Claim(lines, lineSize, at);
            && size <= len && Intra(lineSize, at) + size <= lineSize
            && |after| == |lines| && CachedLines(lines) <= CachedLines(after)
            && (Cached(lines, at) || LastInvalid(lines) < |lines|)
            && (size < len ==> Roomy(after, lineSize, total, at + size, len - size))
  {
    hide *;
    RoomyMeans(lines, lineSize, total, at, len);
    var size, after := Chunk(lineSize, at, len), Claim(lines, lineSize, at);
    LinesStep(lineSize, at, len);
    InLinesStep(lineSize, at, len);
    Room(lines, lineSize, total, at, LinesOf(lineSize, at, len));
    ClaimMeans(lines, lineSize, total, at);
    if size < len {
      Regroup(CachedLines(lines), Round(lineSize, at), LinesOf(lineSize, at + size, len - size));
      RoomyMeans(after, lineSize, total, at + size, len - size);
    }
  }

  // And the other way round: turn by turn, a write that always finds its line.
  lemma RoomyIff(lines: seq<Line>, lineSize: nat, total: nat, at: nat, len: nat)
    requires lineSize > 0 && LinesOk(lines, lineSize, total) && at < total && at + len <= total
    ensures var size, after := Chunk(lineSize, at, len), Claim(lines, lineSize, at);
            && size <= len
            && (Roomy(lines, lineSize, total, at, len) <==>
                  && Intra(lineSize, at) + size <= lineSize && (Cached(lines, at) || LastInvalid(lines) < |lines|)
                  && (size < len ==> Roomy(after, lineSize, total, at + size, len - size)))
  {
    hide *;
    ChunkFits(lineSize, at, len);
    InLinesStep(lineSize, at, len);
    var size, after := Chunk(lineSize, at, len), Claim(lines, lineSize, at);
    if Roomy(lines, lineSize, total, at, len) {
      RoomyNext(lines, lineSize, total, at, len);
    } else if Cached(lines, at) || LastInvalid(lines) < |lines| {
      LinesNext(lines, lineSize, total, at, len);
      ClaimMeans(lines, lineSize, total, at);
      RoomyMeans(lines, lineSize, total, at, len);
      if size < len {
        RoomyMeans(after, lineSize, total, at + size, len - size);
      } else {
        InUseBound(after, lineSize, total);
      }
    }
  }

  lemma InUseBound(lines: seq<Line>, lineSize: nat, total: nat)
    requires lineSize > 0 && LinesOk(lines, lineSize, total)
    ensures |CachedLines(lines)| <= |lines|
  {
    Counts(lines, lineSize, total, |lines|);
    assert lines[..|lines|] == lines;
  }

  lemma InLinesStep(lineSize: nat, at: nat, len: nat)
    requires lineSize > 0
    ensures var size := Chunk(lineSize, at, len);
            InLines(lineSize, at, len) <==>
              Intra(lineSize, at) + size <= lineSize && (size < len ==> InLines(lineSize, at + size, len - size))
  {
  }

  lemma RoomyClaimed(was: seq<Line>, now: seq<Line>, lineSize: nat, total: nat, at: nat, next: nat, left: nat)
    requires lineSize > 0 && LinesOk(was, lineSize, total) && LinesOk(now, lineSize, total) && at < total
    requires Cached(was, at) || LastInvalid(was) < |was|
    requires SameUse(now, Claim(was, lineSize, at))
    ensures Roomy(now, lineSize, total, next, left) <==> Roomy(Claim(was, lineSize, at), lineSize, total, next, left)
  {
    hide *;
    ClaimMeans(was, lineSize, total, at);
    SameUseLines(now, Claim(was, lineSize, at));
    SameUseLength(now, Claim(was, lineSize, at));
    RoomyMeans(now, lineSize, total, next, left);
    RoomyMeans(Claim(was, lineSize, at), lineSize, total, next, left);
  }

  lemma HitHolds(lines: seq<Line>, lineSize: nat, store: seq<Byte>, k: nat, offset: nat)
    requires lineSize > 0 && LinesOk(lines, lineSize, |store|) && k < |lines| && Covers(lines[k], offset)
    ensures Round(lineSize, offset) + lineSize <= |store|
    ensures lines[k].data == Part(Flat(lines, lineSize, store), Round(lineSize, offset), lineSize)
  {
    LineIn(lines, lineSize, |store|, k);
    RoundMeans(lineSize, offset);
    SameLine(lines[k], lineSize, |store|, offset, offset);
    hide LinesOk, Flat, Round;
    LineHolds(lines, lineSize, store, k);
  }

  lemma PartOfLine(flat: seq<Byte>, lineSize: nat, offset: nat, size: nat)
    requires lineSize > 0 && Round(lineSize, offset) + lineSize <= |flat| && Intra(lineSize, offset) + size <= lineSize
    ensures var line := Part(flat, Round(lineSize, offset), lineSize);
            && |line| == lineSize && offset % lineSize + size <= lineSize && offset + size <= |flat|
            && line[offset % lineSize..offset % lineSize + size] == flat[offset..offset + size]
  {
    RoundMeans(lineSize, offset);
    hide Round;
    Slice(flat, Round(lineSize, offset), lineSize, offset % lineSize, offset % lineSize + size);
  }

  // What a read asks for: a line to spare, or nothing missing.
  ghost predicate Readable(lines: seq<Line>, lineSize: nat, at: nat, len: nat)
    requires lineSize > 0
  {
    |CachedLines(lines)| < |lines| || LinesOf(lineSize, at, len) <= CachedLines(lines)
  }

  lemma ReadableIff(lines: seq<Line>, lineSize: nat, total: nat, at: nat, len: nat)
    requires lineSize > 0 && LinesOk(lines, lineSize, total)
    ensures var size := Chunk(lineSize, at, len);
            && size <= len
            && (InLines(lineSize, at, len) && Readable(lines, lineSize, at, len) <==>
                  && Intra(lineSize, at) + size <= lineSize && (Cached(lines, at) || LastInvalid(lines) < |lines|)
                  && (size < len ==>
                        InLines(lineSize, at + size, len - size) && Readable(lines, lineSize, at + size, len - size)))
  {
    InLinesStep(lineSize, at, len);
    LinesStep(lineSize, at, len);
    CachedIs(lines, lineSize, total, at);
    SomeInvalid(lines, lineSize, total);
    hide CachedLines, LinesOf, LinesOk, InLines, Round, Cached, LastInvalid, Chunk, Intra;
  }

  lemma ReadableSame(a: seq<Line>, b: seq<Line>, lineSize: nat, at: nat, len: nat)
    requires lineSize > 0 && |a| == |b| && CachedLines(a) == CachedLines(b)
    ensures Readable(a, lineSize, at, len) == Readable(b, lineSize, at, len)
  {
    hide CachedLines, LinesOf;
  }

  lemma Regroup(a: set<nat>, x: nat, b: set<nat>)
    ensures (a + {x}) + b == a + ({x} + b) && a <= a + {x}
  {
  }

  // With fewer lines in use than there are, a line can be taken.
  lemma Room(lines: seq<Line>, lineSize: nat, total: nat, at: nat, touched: set<nat>)
    requires lineSize > 0 && LinesOk(lines, lineSize, total) && Round(lineSize, at) in touched
    requires |CachedLines(lines) + touched| <= |lines|
    ensures Cached(lines, at) || LastInvalid(lines) < |lines|
  {
    CachedIs(lines, lineSize, total, at);
    var start := Round(lineSize, at);
    hide Round, Cached;
    if start !in CachedLines(lines) {
      Smaller(CachedLines(lines), start, CachedLines(lines) + touched);
      SomeInvalid(lines, lineSize, total);
    }
  }

  lemma Smaller(few: set<nat>, x: nat, many: set<nat>)
    requires few <= many && x in many && x !in few
    ensures |few| < |many|
  {
    var rest := many - {x};
    assert few <= rest;
    Subset(few, rest);
  }

  lemma Subset(few: set<nat>, many: set<nat>)
    requires few <= many
    ensures |few| <= |many|
  {
    assert many == few + (many - few);
  }

  lemma SomeInvalid(lines: seq<Line>, lineSize: nat, total: nat)
    requires lineSize > 0 && LinesOk(lines, lineSize, total)
    ensures |CachedLines(lines)| < |lines| <==> LastInvalid(lines) < |lines|
  {
    Counts(lines, lineSize, total, |lines|);
    assert lines[..|lines|] == lines;
    var k := LastInvalid(lines);
    hide LastInvalid, LinesOk;
    if k < |lines| {
      assert k in Invalid(lines);
    } else {
      assert Invalid(lines) == {};
    }
  }

  lemma ClaimMeans(lines: seq<Line>, lineSize: nat, total: nat, at: nat)
    requires lineSize > 0 && LinesOk(lines, lineSize, total) && at < total
    requires Cached(lines, at) || LastInvalid(lines) < |lines|
    ensures LinesOk(Claim(lines, lineSize, at), lineSize, total) && |Claim(lines, lineSize, at)| == |lines|
    ensures CachedLines(Claim(lines, lineSize, at)) == CachedLines(lines) + {Round(lineSize, at)}
  {
    var k := LastInvalid(lines);
    CachedIs(lines, lineSize, total, at);
    if !Cached(lines, at) {
      LineIn(lines, lineSize, total, k);
      NewLineApart(lines, lineSize, total, k, at, lines[k].data);
      hide LinesOk, Round, LastInvalid, Cached;
      LineAdded(lines, k, Claim(lines, lineSize, at)[k]);
    }
  }

  lemma StillSpare(lines: seq<Line>, k: nat, l: Line)
    requires k < |lines| && !lines[k].valid && !l.valid
    ensures CachedLines(lines[k := l]) == CachedLines(lines)
  {
    var after := lines[k := l];
    assert after[k] == l;
    forall i | 0 <= i < |lines| && lines[i].valid ensures lines[i].start in CachedLines(after) {
      assert after[i] == lines[i];
    }
  }

  lemma LineAdded(lines: seq<Line>, k: nat, l: Line)
    requires k < |lines| && !lines[k].valid && l.valid
    ensures CachedLines(lines[k := l]) == CachedLines(lines) + {l.start}
  {
    var after := lines[k := l];
    assert after[k] == l;
    forall i | 0 <= i < |lines| && lines[i].valid ensures lines[i].start in CachedLines(after) {
      assert after[i] == lines[i];
    }
  }

  // A hit patches the flat array.  A miss patches it with the old bytes of the
  // line it takes first.
  ghost predicate ChunkWritten(lines: seq<Line>, lineSize: nat, flat: seq<Byte>, at: nat, bytes: seq<Byte>,
                               next: seq<Byte>)
    requires lineSize > 0
  {
    var k := LastInvalid(lines);
    && at + |bytes| <= |flat| && Round(lineSize, at) + lineSize <= |flat|
    && if Cached(lines, at) then next == Patch(flat, at, bytes)
       else
         && k < |lines| && |lines[k].data| == lineSize
         && next == Patch(Patch(flat, Round(lineSize, at), lines[k].data), at, bytes)
  }

  lemma HitWritten(lines: seq<Line>, lineSize: nat, store: seq<Byte>, k: nat, offset: nat, bytes: seq<Byte>)
    requires lineSize > 0 && LinesOk(lines, lineSize, |store|) && Cached(lines, offset)
    requires k == Covering(lines, offset, 0)
    requires offset < |store| && offset % lineSize + |bytes| <= lineSize
    ensures |lines[k].data| == lineSize
    ensures var l := lines[k].(data := Patch(lines[k].data, offset % lineSize, bytes));
            && LineOk(l, lineSize, |store|) && LinesOk(lines[k := l], lineSize, |store|)
            && SameUse(lines[k := l], Claim(lines, lineSize, offset))
            && ChunkWritten(lines, lineSize, Flat(lines, lineSize, store), offset, bytes,
                Flat(lines[k := l], lineSize, store))
  {
    StoreHit(lines, lineSize, store, k, offset, bytes);
    RoundMeans(lineSize, offset);
    LineFits(lineSize, Round(lineSize, offset), |store|);
    hide Round, LinesOk, Patch, LastInvalid, Flat;
  }

  lemma MissWritten(lines: seq<Line>, lineSize: nat, store: seq<Byte>, offset: nat, bytes: seq<Byte>)
    requires lineSize > 0 && LinesOk(lines, lineSize, |store|) && !Cached(lines, offset) && LastInvalid(lines) < |lines|
    requires offset < |store| && offset % lineSize + |bytes| <= lineSize
    ensures |lines[LastInvalid(lines)].data| == lineSize
    ensures var k, start := LastInvalid(lines), Round(lineSize, offset);
            var l := Line(true, start, start + lineSize, Patch(lines[k].data, offset % lineSize, bytes));
            && LineOk(l, lineSize, |store|) && LinesOk(lines[k := l], lineSize, |store|)
            && SameUse(lines[k := l], Claim(lines, lineSize, offset))
            && ChunkWritten(lines, lineSize, Flat(lines, lineSize, store), offset, bytes,
                Flat(lines[k := l], lineSize, store))
  {
    StoreMiss(lines, lineSize, store, LastInvalid(lines), offset, bytes);
    RoundMeans(lineSize, offset);
    LineFits(lineSize, Round(lineSize, offset), |store|);
    hide Round, LinesOk, Patch, LastInvalid, Flat, Covering;
  }

  // ---- what a write leaves behind ------------------------------------------------------

  // Writing over an array, as far as it goes.
  function Over(flat: seq<Byte>, at: nat, bytes: seq<Byte>): (f: seq<Byte>)
    ensures |f| == |flat|
  {
    if at + |bytes| <= |flat| then Patch(flat, at, bytes) else flat
  }

  function ChunkLanded(lines: seq<Line>, lineSize: nat, flat: seq<Byte>, at: nat, bytes: seq<Byte>): (f: seq<Byte>)
    requires lineSize > 0
    ensures |f| == |flat|
  {
    var k := LastInvalid(lines);
    Over(if Cached(lines, at) || k == |lines| then flat else Over(flat, Round(lineSize, at), lines[k].data), at, bytes)
  }

  // The flat array after a write, and the lines, up to the bytes of those in use:
  // chunk by chunk, each miss with the old bytes of the line it takes.
  function Landed(lines: seq<Line>, lineSize: nat, flat: seq<Byte>, at: nat, data: seq<Byte>): (f: seq<Byte>)
    requires lineSize > 0
    ensures |f| == |flat|
    decreases |data|
  {
    var size := Chunk(lineSize, at, |data|);
    var next := ChunkLanded(lines, lineSize, flat, at, data[..size]);
    if size < |data| then Landed(Claim(lines, lineSize, at), lineSize, next, at + size, data[size..]) else next
  }

  function ClaimAll(lines: seq<Line>, lineSize: nat, at: nat, len: nat): seq<Line>
    requires lineSize > 0
    decreases len
  {
    var size, after := Chunk(lineSize, at, len), Claim(lines, lineSize, at);
    if size < len then ClaimAll(after, lineSize, at + size, len - size) else after
  }

  lemma LandedStep(lines: seq<Line>, lineSize: nat, flat: seq<Byte>, at: nat, data: seq<Byte>)
    requires lineSize > 0
    ensures var size := Chunk(lineSize, at, |data|);
            && size <= |data|
            && var next, after := ChunkLanded(lines, lineSize, flat, at, data[..size]), Claim(lines, lineSize, at);
            && (size < |data| ==>
                  && Landed(lines, lineSize, flat, at, data) == Landed(after, lineSize, next, at + size, data[size..])
                  && ClaimAll(lines, lineSize, at, |data|) == ClaimAll(after, lineSize, at + size, |data| - size))
            && (size == |data| ==>
                  Landed(lines, lineSize, flat, at, data) == next && ClaimAll(lines, lineSize, at, |data|) == after)
  {
    hide ChunkLanded, Claim;
  }

  // The turn of a write is the one described.
  lemma WrittenLands(lines: seq<Line>, lineSize: nat, flat: seq<Byte>, at: nat, bytes: seq<Byte>, next: seq<Byte>)
    requires lineSize > 0 && ChunkWritten(lines, lineSize, flat, at, bytes, next)
    ensures next == ChunkLanded(lines, lineSize, flat, at, bytes)
  {
    hide Round, Cached, LastInvalid, Patch;
  }

  lemma LandedSame(a: seq<Line>, b: seq<Line>, lineSize: nat, flat: seq<Byte>, at: nat, data: seq<Byte>)
    requires lineSize > 0 && SameUse(a, b)
    ensures Landed(a, lineSize, flat, at, data) == Landed(b, lineSize, flat, at, data)
    ensures SameUse(ClaimAll(a, lineSize, at, |data|), ClaimAll(b, lineSize, at, |data|))
    decreases |data|
  {
    hide *;
    SameUseFacts(a, b, lineSize, at);
    LandedStep(a, lineSize, flat, at, data);
    LandedStep(b, lineSize, flat, at, data);
    ChunkFits(lineSize, at, |data|);
    var size := Chunk(lineSize, at, |data|);
    ChunkLandedSame(a, b, lineSize, flat, at, data[..size]);
    if size < |data| {
      LandedSame(Claim(a, lineSize, at), Claim(b, lineSize, at), lineSize,
                 ChunkLanded(a, lineSize, flat, at, data[..size]), at + size, data[size..]);
    }
  }

  lemma ChunkLandedSame(a: seq<Line>, b: seq<Line>, lineSize: nat, flat: seq<Byte>, at: nat, bytes: seq<Byte>)
    requires lineSize > 0 && SameUse(a, b)
    ensures ChunkLanded(a, lineSize, flat, at, bytes) == ChunkLanded(b, lineSize, flat, at, bytes)
  {
    SameUseFacts(a, b, lineSize, at);
    hide SameUse, Claim, Cached, LastInvalid, Round, Over;
    assert |a| == |b| by { hide *; SameUseLength(a, b); }
  }

  // ---- and when that is what it should be ------------------------------------------------

  // One turn, a hit or a miss.
  lemma ChunkShape(lines: seq<Line>, lineSize: nat, flat: seq<Byte>, at: nat, bytes: seq<Byte>)
    requires lineSize > 0 && LinesOk(lines, lineSize, |flat|) && at < |flat|
    requires Intra(lineSize, at) + |bytes| <= lineSize
    requires Cached(lines, at) || LastInvalid(lines) < |lines|
    ensures Round(lineSize, at) <= at && at + |bytes| <= Round(lineSize, at) + lineSize <= |flat|
    ensures Round(lineSize, at) + at % lineSize == at
    ensures var k, next := LastInvalid(lines), ChunkLanded(lines, lineSize, flat, at, bytes);
            if Cached(lines, at) then next == Patch(flat, at, bytes)
            else
              && |lines[k].data| == lineSize
              && next == Patch(Patch(flat, Round(lineSize, at), lines[k].data), at, bytes)
  {
    if !Cached(lines, at) {
      LineIn(lines, lineSize, |flat|, LastInvalid(lines));
    }
    RoundMeans(lineSize, at);
    LineFits(lineSize, Round(lineSize, at), |flat|);
    hide Round, LinesOk, Cached, LastInvalid, Patch;
  }

  // It writes its bytes, changes nothing outside its line, and nothing else inside
  // it exactly if it is faithful.
  lemma ChunkEffect(lines: seq<Line>, lineSize: nat, flat: seq<Byte>, at: nat, bytes: seq<Byte>)
    requires lineSize > 0 && LinesOk(lines, lineSize, |flat|) && at < |flat|
    requires Intra(lineSize, at) + |bytes| <= lineSize
    requires Cached(lines, at) || LastInvalid(lines) < |lines|
    ensures at + |bytes| <= |flat|
    ensures var next := ChunkLanded(lines, lineSize, flat, at, bytes);
            && (next == Patch(flat, at, bytes) <==> ChunkFaithful(lines, lineSize, flat, at, |bytes|))
            && Turned(flat, next, Round(lineSize, at), Round(lineSize, at) + lineSize, at, bytes)
  {
    hide *;
    ChunkShape(lines, lineSize, flat, at, bytes);
    if Cached(lines, at) {
      HitTurned(flat, Round(lineSize, at), Round(lineSize, at) + lineSize, at, bytes);
    } else {
      MissTurned(flat, Round(lineSize, at), lines[LastInvalid(lines)].data, at, bytes);
    }
    ChunkRight(lines, lineSize, flat, at, bytes);
  }

  lemma ChunkRight(lines: seq<Line>, lineSize: nat, flat: seq<Byte>, at: nat, bytes: seq<Byte>)
    requires lineSize > 0 && LinesOk(lines, lineSize, |flat|) && at < |flat|
    requires Intra(lineSize, at) + |bytes| <= lineSize
    requires Cached(lines, at) || LastInvalid(lines) < |lines|
    ensures at + |bytes| <= |flat|
    ensures ChunkLanded(lines, lineSize, flat, at, bytes) == Patch(flat, at, bytes) <==>
              ChunkFaithful(lines, lineSize, flat, at, |bytes|)
  {
    hide *;
    ChunkShape(lines, lineSize, flat, at, bytes);
    ChunkFaithfulIs(lines, lineSize, flat, at, |bytes|);
    if !Cached(lines, at) {
      MissIsFaithful(flat, Round(lineSize, at), lines[LastInvalid(lines)].data, at % lineSize, bytes);
    }
  }

  lemma ChunkFaithfulIs(lines: seq<Line>, lineSize: nat, flat: seq<Byte>, at: nat, size: nat)
    requires lineSize > 0 && (Cached(lines, at) || LastInvalid(lines) < |lines|)
    ensures Cached(lines, at) ==> ChunkFaithful(lines, lineSize, flat, at, size)
    ensures !Cached(lines, at) ==>
              (ChunkFaithful(lines, lineSize, flat, at, size) <==>
               RestMatches(lines[LastInvalid(lines)].data, flat, Round(lineSize, at), at % lineSize, size))
  {
    hide Round, Cached, LastInvalid, RestMatches;
  }

  // `next` holds the bytes, and differs from `flat` between lo and hi only.
  ghost predicate Turned(flat: seq<Byte>, next: seq<Byte>, lo: nat, hi: nat, at: nat, bytes: seq<Byte>) {
    && |next| == |flat| && lo <= at && at + |bytes| <= hi <= |flat|
    && (forall x {:trigger next[x]} :: 0 <= x < |flat| && !(lo <= x < hi) ==> next[x] == flat[x])
    && (forall x {:trigger next[x]} :: at <= x < at + |bytes| ==> next[x] == bytes[x - at])
  }

  lemma HitTurned(flat: seq<Byte>, lo: nat, hi: nat, at: nat, bytes: seq<Byte>)
    requires lo <= at && at + |bytes| <= hi <= |flat|
    ensures Turned(flat, Patch(flat, at, bytes), lo, hi, at, bytes)
  {
  }

  lemma MissTurned(flat: seq<Byte>, start: nat, leftover: seq<Byte>, at: nat, bytes: seq<Byte>)
    requires start <= at && at + |bytes| <= start + |leftover| <= |flat|
    ensures Turned(flat, Patch(Patch(flat, start, leftover), at, bytes), start, start + |leftover|, at, bytes)
  {
  }

  lemma TurnEdges(lineSize: nat, at: nat, left: nat)
    requires lineSize > 0
    ensures var size := Chunk(lineSize, at, left);
            && Round(lineSize, at) <= at
            && (size < left ==> at + size == Round(lineSize, at) + lineSize == Round(lineSize, at + size) && size > 0)
  {
    RoundMeans(lineSize, at);
    NextAligned(lineSize, at);
    RoundMeans(lineSize, at + Chunk(lineSize, at, left));
  }

  // A write changes nothing before its first line.
  lemma {:induction false} LandedBehind(lines: seq<Line>, lineSize: nat, flat: seq<Byte>, at: nat, data: seq<Byte>,
                                        x: nat)
    requires lineSize > 0 && x < Round(lineSize, at) && x < |flat|
    ensures Landed(lines, lineSize, flat, at, data)[x] == flat[x]
    decreases |data|
  {
    hide Round, Chunk, Claim, ChunkLanded, Landed, ClaimAll;
    LandedStep(lines, lineSize, flat, at, data);
    TurnEdges(lineSize, at, |data|);
    var size := Chunk(lineSize, at, |data|);
    ChunkBehind(lines, lineSize, flat, at, data[..size], x);
    if size < |data| {
      LandedBehind(Claim(lines, lineSize, at), lineSize, ChunkLanded(lines, lineSize, flat, at, data[..size]),
          at + size, data[size..], x);
    }
  }

  lemma ChunkBehind(lines: seq<Line>, lineSize: nat, flat: seq<Byte>, at: nat, bytes: seq<Byte>, x: nat)
    requires lineSize > 0 && x < Round(lineSize, at) && x < |flat|
    ensures ChunkLanded(lines, lineSize, flat, at, bytes)[x] == flat[x]
  {
    RoundMeans(lineSize, at);
    hide Round, Cached, LastInvalid;
  }

  lemma SameChunk(lines: seq<Line>, lineSize: nat, f: seq<Byte>, g: seq<Byte>, at: nat, size: nat)
    requires lineSize > 0 && |f| == |g| && forall x {:trigger f[x]} :: Round(lineSize, at) <= x < |f| ==> f[x] == g[x]
    ensures ChunkFaithful(lines, lineSize, f, at, size) == ChunkFaithful(lines, lineSize, g, at, size)
  {
    hide Round, LastInvalid, Cached;
  }

  // Whether a write is faithful depends on nothing before its first line.
  lemma {:induction false} FaithfulAhead(lines: seq<Line>, lineSize: nat, f: seq<Byte>, g: seq<Byte>, at: nat, len: nat)
    requires lineSize > 0 && |f| == |g| && forall x {:trigger f[x]} :: Round(lineSize, at) <= x < |f| ==> f[x] == g[x]
    ensures Faithful(lines, lineSize, f, at, len) == Faithful(lines, lineSize, g, at, len)
    decreases len
  {
    hide *;
    FaithfulStep(lines, lineSize, f, at, len);
    FaithfulStep(lines, lineSize, g, at, len);
    TurnEdges(lineSize, at, len);
    var size := Chunk(lineSize, at, len);
    SameChunk(lines, lineSize, f, g, at, size);
    if size < len {
      FaithfulAhead(Claim(lines, lineSize, at), lineSize, f, g, at + size, len - size);
    }
  }

  // The first n bytes are the same.
  ghost predicate Agree(a: seq<Byte>, b: seq<Byte>, n: nat) {
    n <= |a| == |b| && forall x {:trigger a[x]} :: 0 <= x < n ==> a[x] == b[x]
  }

  lemma AgreeIs(a: seq<Byte>, b: seq<Byte>, n: nat)
    requires n <= |a| == |b| && forall x {:trigger a[x]} :: 0 <= x < n ==> a[x] == b[x]
    ensures Agree(a, b, n)
  {
  }

  // A turn that is not faithful spoils a byte that no later turn repairs.
  lemma Spoilt(flat: seq<Byte>, next: seq<Byte>, landed: seq<Byte>, lo: nat, hi: nat, at: nat, bytes: seq<Byte>,
               data: seq<Byte>)
    requires Turned(flat, next, lo, hi, at, bytes) && hi == at + |bytes| && bytes <= data
    requires at + |data| <= |flat| == |landed|
    requires Agree(landed, next, hi) && next != Patch(flat, at, bytes)
    ensures landed != Patch(flat, at, data)
  {
    var want := Patch(flat, at, bytes);
    var x :| 0 <= x < |next| && next[x] != want[x];
    assert landed[x] != Patch(flat, at, data)[x];
  }

  lemma SpoiltStays(lines: seq<Line>, lineSize: nat, flat: seq<Byte>, at: nat, data: seq<Byte>, size: nat)
    requires lineSize > 0 && LinesOk(lines, lineSize, |flat|) && at < |flat| && at + |data| <= |flat|
    requires Cached(lines, at) || LastInvalid(lines) < |lines|
    requires size == Chunk(lineSize, at, |data|) && size < |data| && Intra(lineSize, at) + size <= lineSize
    requires !ChunkFaithful(lines, lineSize, flat, at, size)
    ensures Landed(lines, lineSize, flat, at, data) != Patch(flat, at, data)
  {
    hide *;
    TurnEdges(lineSize, at, |data|);
    ChunkEffect(lines, lineSize, flat, at, data[..size]);
    LandedAfter(lines, lineSize, flat, at, data, size);
    FirstPart(data, size);
    Spoilt(flat, ChunkLanded(lines, lineSize, flat, at, data[..size]), Landed(lines, lineSize, flat, at, data),
           Round(lineSize, at), at + size, at, data[..size], data);
  }

  lemma FirstPart(data: seq<Byte>, size: nat)
    requires size <= |data|
    ensures |data[..size]| == size && data[..size] <= data
  {
  }

  // The turns behind the first one leave its line alone.
  lemma LandedAfter(lines: seq<Line>, lineSize: nat, flat: seq<Byte>, at: nat, data: seq<Byte>, size: nat)
    requires lineSize > 0 && size == Chunk(lineSize, at, |data|) && size < |data| && at + size <= |flat|
    ensures Agree(Landed(lines, lineSize, flat, at, data), ChunkLanded(lines, lineSize, flat, at, data[..size]),
            at + size)
  {
    hide *;
    TurnEdges(lineSize, at, |data|);
    LandedStep(lines, lineSize, flat, at, data);
    var landed, next := Landed(lines, lineSize, flat, at, data), ChunkLanded(lines, lineSize, flat, at, data[..size]);
    forall x {:trigger landed[x]} | 0 <= x < at + size ensures landed[x] == next[x] {
      LandedBehind(Claim(lines, lineSize, at), lineSize, next, at + size, data[size..], x);
    }
    AgreeIs(landed, next, at + size);
  }

  lemma PatchBehind(flat: seq<Byte>, at: nat, bytes: seq<Byte>)
    requires at + |bytes| <= |flat|
    ensures forall x {:trigger flat[x]} :: at + |bytes| <= x < |flat| ==> flat[x] == Patch(flat, at, bytes)[x]
  {
  }

  // A write is one to the flat array if and only if `Faithful` holds beforehand.
  lemma {:induction false} LandedIff(lines: seq<Line>, lineSize: nat, flat: seq<Byte>, at: nat, data: seq<Byte>)
    requires lineSize > 0 && Roomy(lines, lineSize, |flat|, at, |data|)
    ensures at + |data| <= |flat|
    ensures Landed(lines, lineSize, flat, at, data) == Patch(flat, at, data) <==>
            Faithful(lines, lineSize, flat, at, |data|)
    decreases |data|
  {
    hide *;
    RoomyMeans(lines, lineSize, |flat|, at, |data|);
    RoomyNext(lines, lineSize, |flat|, at, |data|);
    LandedStep(lines, lineSize, flat, at, data);
    FaithfulStep(lines, lineSize, flat, at, |data|);
    var size := Chunk(lineSize, at, |data|);
    ChunkEffect(lines, lineSize, flat, at, data[..size]);
    if size == |data| {
      assert data[..size] == data;
    } else if !ChunkFaithful(lines, lineSize, flat, at, size) {
      SpoiltStays(lines, lineSize, flat, at, data, size);
    } else {
      TurnEdges(lineSize, at, |data|);
      var after, next := Claim(lines, lineSize, at), Patch(flat, at, data[..size]);
      LandedIff(after, lineSize, next, at + size, data[size..]);
      PatchBehind(flat, at, data[..size]);
      FaithfulAhead(after, lineSize, flat, next, at + size, |data| - size);
      PatchTwice(flat, at, data, size);
    }
  }

  lemma PatchTwice(flat: seq<Byte>, at: nat, data: seq<Byte>, size: nat)
    requires at + |data| <= |flat| && size <= |data|
    ensures Patch(Patch(flat, at, data[..size]), at + size, data[size..]) == Patch(flat, at, data)
  {
    hide Patch;
    PatchJoin(flat, at, data[..size], data[size..]);
    assert data[..size] + data[size..] == data;
  }

  // ---- what a run means ------------------------------------------------------------------

  datatype Op = WriteOp(data: seq<Byte>, offset: nat) | ReadOp(len: nat, offset: nat) | FlushOp | InvalidateOp

  // What a program sees, and what lies behind it.
  datatype Memory = Memory(flat: seq<Byte>, store: seq<Byte>)

  // A cache, up to the bytes of its valid lines: those are in the flat array.
  datatype View = View(lines: seq<Line>, mem: Memory)

  function Part(flat: seq<Byte>, at: nat, n: nat): seq<Byte> {
    if at + n <= |flat| then flat[at..at + n] else []
  }

  // A miss of a read fetches its line into one that is not in use, and leaves it so.
  function FetchOne(lines: seq<Line>, lineSize: nat, flat: seq<Byte>, at: nat): seq<Line>
    requires lineSize > 0
  {
    var k := LastInvalid(lines);
    if Cached(lines, at) || k == |lines| then lines
    else lines[k := lines[k].(data := Part(flat, Round(lineSize, at), lineSize))]
  }

  function Fetched(lines: seq<Line>, lineSize: nat, flat: seq<Byte>, at: nat, len: nat): seq<Line>
    requires lineSize > 0
    decreases len
  {
    var size, after := Chunk(lineSize, at, len), FetchOne(lines, lineSize, flat, at);
    if size < len then Fetched(after, lineSize, flat, at + size, len - size) else after
  }

  // Lines set aside keep their bytes.
  function Flushed(lines: seq<Line>, lineSize: nat, flat: seq<Byte>): (r: seq<Line>)
    ensures |r| == |lines|
  {
    seq(|lines|, i requires 0 <= i < |lines| =>
      if lines[i].valid then lines[i].(valid := false, data := Part(flat, lines[i].start, lineSize)) else lines[i])
  }

  function After(policy: Policy, lineSize: nat, v: View, op: Op): View
    requires lineSize > 0
  {
    match op
    case WriteOp(data, offset) =>
      var flat := Landed(v.lines, lineSize, v.mem.flat, offset, data);
      View(ClaimAll(v.lines, lineSize, offset, |data|),
          Memory(flat, if policy.WriteThrough? then flat else v.mem.store))
    case ReadOp(len, offset) => View(Fetched(v.lines, lineSize, v.mem.flat, offset, len), v.mem)
    case FlushOp => View(Flushed(v.lines, lineSize, v.mem.flat), Memory(v.mem.flat, v.mem.flat))
    case InvalidateOp => View(Flushed(v.lines, lineSize, v.mem.flat), Memory(v.mem.store, v.mem.store))
  }

  function AfterAll(policy: Policy, lineSize: nat, v: View, ops: seq<Op>): View
    requires lineSize > 0
    decreases |ops|
  {
    if ops == [] then v else AfterAll(policy, lineSize, After(policy, lineSize, v, ops[0]), ops[1..])
  }

  function ReadBy(mem: Memory, op: Op): seq<seq<Byte>> {
    if op.ReadOp? then [Part(mem.flat, op.offset, op.len)] else []
  }

  function ReadsOf(policy: Policy, lineSize: nat, v: View, ops: seq<Op>): seq<seq<Byte>>
    requires lineSize > 0
    decreases |ops|
  {
    if ops == [] then []
    else ReadBy(v.mem, ops[0]) + ReadsOf(policy, lineSize, After(policy, lineSize, v, ops[0]), ops[1..])
  }

  // The same without a cache: a flat array over its store.
  function FlatAfter(policy: Policy, mem: Memory, op: Op): Memory {
    match op
    case WriteOp(data, offset) =>
      var flat := Over(mem.flat, offset, data);
      Memory(flat, if policy.WriteThrough? then flat else mem.store)
    case ReadOp(_, _) => mem
    case FlushOp => Memory(mem.flat, mem.flat)
    case InvalidateOp => Memory(mem.store, mem.store)
  }

  function FlatReads(policy: Policy, mem: Memory, ops: seq<Op>): seq<seq<Byte>>
    decreases |ops|
  {
    if ops == [] then [] else ReadBy(mem, ops[0]) + FlatReads(policy, FlatAfter(policy, mem, ops[0]), ops[1..])
  }

  // From start to end the cache and the flat array hold the same.
  ghost predicate Agrees(policy: Policy, lineSize: nat, v: View, mem: Memory, ops: seq<Op>)
    requires lineSize > 0
    decreases |ops|
  {
    v.mem == mem
    && (ops != [] ==>
          Agrees(policy, lineSize, After(policy, lineSize, v, ops[0]), FlatAfter(policy, mem, ops[0]), ops[1..]))
  }

  // Every write finds its lines, or the right bytes in those it takes into use.
  ghost predicate AllFaithful(policy: Policy, lineSize: nat, v: View, ops: seq<Op>)
    requires lineSize > 0
    decreases |ops|
  {
    ops != [] ==>
      && (ops[0].WriteOp? ==> Faithful(v.lines, lineSize, v.mem.flat, ops[0].offset, |ops[0].data|))
      && AllFaithful(policy, lineSize, After(policy, lineSize, v, ops[0]), ops[1..])
  }

  ghost predicate ViewOk(lineSize: nat, v: View)
    requires lineSize > 0
  {
    LinesOk(v.lines, lineSize, |v.mem.flat|) && |v.mem.store| == |v.mem.flat|
  }

  // The exact condition, for any run: the cache is a flat array throughout if and
  // only if every write of the run is faithful when it comes.
  lemma {:induction false} AgreesIff(policy: Policy, lineSize: nat, v: View, ops: seq<Op>)
    requires lineSize > 0 && ViewOk(lineSize, v)
    requires RunFits(lineSize, |v.mem.flat|, |v.lines|, CachedLines(v.lines), ops)
    ensures Agrees(policy, lineSize, v, v.mem, ops) <==> AllFaithful(policy, lineSize, v, ops)
    decreases |ops|
  {
    hide ViewOk, After, FlatAfter, Fits, InUseAfter, CachedLines, Faithful;
    if ops != [] {
      StepAgrees(policy, lineSize, v, ops[0]);
      StepViewOk(policy, lineSize, v, ops[0]);
      if After(policy, lineSize, v, ops[0]).mem == FlatAfter(policy, v.mem, ops[0]) {
        AgreesIff(policy, lineSize, After(policy, lineSize, v, ops[0]), ops[1..]);
      }
    }
  }

  lemma StepAgrees(policy: Policy, lineSize: nat, v: View, op: Op)
    requires lineSize > 0 && ViewOk(lineSize, v) && Fits(lineSize, |v.mem.flat|, |v.lines|, CachedLines(v.lines), op)
    ensures After(policy, lineSize, v, op).mem == FlatAfter(policy, v.mem, op) <==>
              (op.WriteOp? ==> Faithful(v.lines, lineSize, v.mem.flat, op.offset, |op.data|))
  {
    hide LinesOk, Landed, ClaimAll, Faithful, CachedLines, LinesOf, InLines, Patch, Fetched, Flushed;
    if op.WriteOp? {
      RoomyMeans(v.lines, lineSize, |v.mem.flat|, op.offset, |op.data|);
      LandedIff(v.lines, lineSize, v.mem.flat, op.offset, op.data);
    }
  }

  lemma StepViewOk(policy: Policy, lineSize: nat, v: View, op: Op)
    requires lineSize > 0 && ViewOk(lineSize, v) && Fits(lineSize, |v.mem.flat|, |v.lines|, CachedLines(v.lines), op)
    ensures var w := After(policy, lineSize, v, op);
            && ViewOk(lineSize, w) && |w.lines| == |v.lines| && |w.mem.flat| == |v.mem.flat|
            && CachedLines(w.lines) == InUseAfter(lineSize, CachedLines(v.lines), op)
  {
    hide LinesOk, Landed, ClaimAll, CachedLines, LinesOf, InLines, Fetched, Flushed;
    match op
    case WriteOp(data, offset) =>
      RoomyMeans(v.lines, lineSize, |v.mem.flat|, offset, |data|);
      ClaimAllMeans(v.lines, lineSize, |v.mem.flat|, offset, |data|);
    case ReadOp(len, offset) => FetchedMeans(v.lines, lineSize, v.mem.flat, offset, len);
    case FlushOp => FlushedMeans(v.lines, lineSize, v.mem.flat);
    case InvalidateOp => FlushedMeans(v.lines, lineSize, v.mem.flat);
  }

  lemma {:induction false} ClaimAllMeans(lines: seq<Line>, lineSize: nat, total: nat, at: nat, len: nat)
    requires lineSize > 0 && Roomy(lines, lineSize, total, at, len)
    ensures var after := ClaimAll(lines, lineSize, at, len);
            && LinesOk(after, lineSize, total) && |after| == |lines|
            && CachedLines(after) == CachedLines(lines) + LinesOf(lineSize, at, len)
    decreases len
  {
    hide LinesOk, Chunk, Claim, CachedLines, LinesOf, Roomy, Round, Cached, LastInvalid, Intra;
    RoomyMeans(lines, lineSize, total, at, len);
    RoomyNext(lines, lineSize, total, at, len);
    ClaimMeans(lines, lineSize, total, at);
    LinesNext(lines, lineSize, total, at, len);
    ChunkFits(lineSize, at, len);
    var size := Chunk(lineSize, at, len);
    if size < len {
      ClaimAllMeans(Claim(lines, lineSize, at), lineSize, total, at + size, len - size);
    }
  }

  lemma FetchOneMeans(lines: seq<Line>, lineSize: nat, flat: seq<Byte>, at: nat)
    requires lineSize > 0 && LinesOk(lines, lineSize, |flat|) && at < |flat|
    ensures var after := FetchOne(lines, lineSize, flat, at);
            LinesOk(after, lineSize, |flat|) && |after| == |lines| && CachedLines(after) == CachedLines(lines)
  {
    var k := LastInvalid(lines);
    if !Cached(lines, at) && k < |lines| {
      RoundMeans(lineSize, at);
      LineFits(lineSize, Round(lineSize, at), |flat|);
      hide Round, CachedLines, Cached, LastInvalid, LinesOk;
      var l := lines[k].(data := Part(flat, Round(lineSize, at), lineSize));
      StillSpare(lines, k, l);
      LineRefilled(lines, lineSize, flat, k, l);
    }
  }

  lemma {:induction false} FetchedMeans(lines: seq<Line>, lineSize: nat, flat: seq<Byte>, at: nat, len: nat)
    requires lineSize > 0 && LinesOk(lines, lineSize, |flat|) && at < |flat| && at + len <= |flat|
    ensures var after := Fetched(lines, lineSize, flat, at, len);
            LinesOk(after, lineSize, |flat|) && |after| == |lines| && CachedLines(after) == CachedLines(lines)
    decreases len
  {
    hide LinesOk, Chunk, FetchOne, CachedLines;
    FetchOneMeans(lines, lineSize, flat, at);
    ChunkFits(lineSize, at, len);
    var size := Chunk(lineSize, at, len);
    if size < len {
      FetchedMeans(FetchOne(lines, lineSize, flat, at), lineSize, flat, at + size, len - size);
    }
  }

  lemma FetchedStep(lines: seq<Line>, lineSize: nat, flat: seq<Byte>, at: nat, len: nat)
    requires lineSize > 0
    ensures var size, after := Chunk(lineSize, at, len), FetchOne(lines, lineSize, flat, at);
            size <= len
            && Fetched(lines, lineSize, flat, at, len) ==
                 if size < len then Fetched(after, lineSize, flat, at + size, len - size) else after
  {
    hide FetchOne;
  }

  lemma FetchedSame(a: seq<Line>, b: seq<Line>, lineSize: nat, flat: seq<Byte>, at: nat, len: nat)
    requires lineSize > 0 && SameUse(a, b)
    ensures SameUse(Fetched(a, lineSize, flat, at, len), Fetched(b, lineSize, flat, at, len))
    decreases len
  {
    hide *;
    FetchOneSame(a, b, lineSize, flat, at);
    FetchedStep(a, lineSize, flat, at, len);
    FetchedStep(b, lineSize, flat, at, len);
    ChunkFits(lineSize, at, len);
    var size := Chunk(lineSize, at, len);
    if size < len {
      FetchedSame(FetchOne(a, lineSize, flat, at), FetchOne(b, lineSize, flat, at), lineSize, flat, at + size,
          len - size);
    }
  }

  lemma FetchOneSame(a: seq<Line>, b: seq<Line>, lineSize: nat, flat: seq<Byte>, at: nat)
    requires lineSize > 0 && SameUse(a, b)
    ensures SameUse(FetchOne(a, lineSize, flat, at), FetchOne(b, lineSize, flat, at))
  {
    SameUseFacts(a, b, lineSize, at);
    hide Cached, LastInvalid, Round, Claim;
  }

  lemma FlushedMeans(lines: seq<Line>, lineSize: nat, flat: seq<Byte>)
    requires lineSize > 0 && LinesOk(lines, lineSize, |flat|)
    ensures LinesOk(Flushed(lines, lineSize, flat), lineSize, |flat|)
    ensures CachedLines(Flushed(lines, lineSize, flat)) == {}
  {
  }

  // A line in use holds its part of the flat array, and keeps it when it is set aside.
  lemma FlushedIs(was: seq<Line>, now: seq<Line>, view: seq<Line>, lineSize: nat, store: seq<Byte>, flat: seq<Byte>)
    requires lineSize > 0 && LinesOk(was, lineSize, |store|) && flat == Flat(was, lineSize, store) && SameUse(was, view)
    requires |now| == |was| && forall i {:trigger now[i]} :: 0 <= i < |now| ==> now[i] == was[i].(valid := false)
    ensures SameUse(now, Flushed(view, lineSize, flat))
  {
    var want := Flushed(view, lineSize, flat);
    forall i {:trigger now[i]} | 0 <= i < |now| && was[i].valid ensures now[i].data == want[i].data {
      LineHolds(was, lineSize, store, i);
    }
    hide LinesOk, Flat;
  }

  lemma LineHolds(lines: seq<Line>, lineSize: nat, store: seq<Byte>, k: nat)
    requires lineSize > 0 && LinesOk(lines, lineSize, |store|) && k < |lines| && lines[k].valid
    ensures lines[k].data == Part(Flat(lines, lineSize, store), lines[k].start, lineSize)
  {
    LineIn(lines, lineSize, |store|, k);
    hide LinesOk, Flat;
    HitBytes(lines, lineSize, store, k, lines[k].start, lineSize);
    assert lines[k].data[0..lineSize] == lines[k].data;
  }

  // A line that no valid line covers is in the store as it is in the flat array.
  lemma MissedBytes(lines: seq<Line>, lineSize: nat, store: seq<Byte>, offset: nat)
    requires lineSize > 0 && LinesOk(lines, lineSize, |store|) && !Cached(lines, offset) && offset < |store|
    ensures var start := Round(lineSize, offset);
            start + lineSize <= |store|
                && store[start..start + lineSize] == Part(Flat(lines, lineSize, store), start, lineSize)
  {
    RoundMeans(lineSize, offset);
    LineFits(lineSize, Round(lineSize, offset), |store|);
    hide Round, LinesOk, Covering, Covers;
    var f, start := Flat(lines, lineSize, store), Round(lineSize, offset);
    forall x | start <= x < start + lineSize ensures f[x] == store[x] {
      MissedLine(lines, lineSize, |store|, offset, x);
    }
  }

  lemma AfterWrite(policy: Policy, lineSize: nat, v: View, data: seq<Byte>, offset: nat)
    requires lineSize > 0
    ensures var w := After(policy, lineSize, v, WriteOp(data, offset));
            && w.lines == ClaimAll(v.lines, lineSize, offset, |data|)
            && w.mem.flat == Landed(v.lines, lineSize, v.mem.flat, offset, data)
            && w.mem.store == if policy.WriteThrough? then w.mem.flat else v.mem.store
  {
    hide ClaimAll, Landed;
  }

  lemma AfterRead(policy: Policy, lineSize: nat, v: View, len: nat, offset: nat)
    requires lineSize > 0
    ensures var w := After(policy, lineSize, v, ReadOp(len, offset));
            w.mem == v.mem && w.lines == Fetched(v.lines, lineSize, v.mem.flat, offset, len)
    ensures InUseAfter(lineSize, {}, ReadOp(len, offset)) == {}
  {
    hide Fetched;
  }

  lemma AfterFlush(policy: Policy, lineSize: nat, v: View)
    requires lineSize > 0
    ensures var w := After(policy, lineSize, v, FlushOp);
            w.mem == Memory(v.mem.flat, v.mem.flat) && w.lines == Flushed(v.lines, lineSize, v.mem.flat)
  {
    hide Flushed;
  }

  lemma AfterInvalidate(policy: Policy, lineSize: nat, v: View)
    requires lineSize > 0
    ensures var w := After(policy, lineSize, v, InvalidateOp);
            w.mem == Memory(v.mem.store, v.mem.store) && w.lines == Flushed(v.lines, lineSize, v.mem.flat)
  {
    hide Flushed;
  }

  // What an operation asks for: to lie inside the store and within lines, and lines
  // enough, so that none is evicted.
  predicate Fits(lineSize: nat, total: nat, numLines: nat, inUse: set<nat>, op: Op)
    requires lineSize > 0
  {
    match op
    case WriteOp(data, offset) =>
      && offset < total && offset + |data| <= total && InLines(lineSize, offset, |data|)
      && |inUse + LinesOf(lineSize, offset, |data|)| <= numLines
    case ReadOp(len, offset) =>
      && offset < total && offset + len <= total && InLines(lineSize, offset, len)
      && (|inUse| < numLines || LinesOf(lineSize, offset, len) <= inUse)
    case _ => true
  }

  function InUseAfter(lineSize: nat, inUse: set<nat>, op: Op): set<nat>
    requires lineSize > 0
  {
    match op
    case WriteOp(data, offset) => inUse + LinesOf(lineSize, offset, |data|)
    case ReadOp(_, _) => inUse
    case _ => {}
  }

  predicate RunFits(lineSize: nat, total: nat, numLines: nat, inUse: set<nat>, ops: seq<Op>)
    requires lineSize > 0
    decreases |ops|
  {
    ops != [] ==>
      && Fits(lineSize, total, numLines, inUse, ops[0])
      && RunFits(lineSize, total, numLines, InUseAfter(lineSize, inUse, ops[0]), ops[1..])
  }

  // No write of the run needs the rest of a line fetched.
  predicate RunHits(lineSize: nat, inUse: set<nat>, ops: seq<Op>)
    requires lineSize > 0
    decreases |ops|
  {
    ops != [] ==>
      && (ops[0].WriteOp? ==> HitOrFull(inUse, lineSize, ops[0].offset, |ops[0].data|))
      && RunHits(lineSize, InUseAfter(lineSize, inUse, ops[0]), ops[1..])
  }

  // Then all is well, whatever the lines hold.
  lemma {:induction false} HitsAreFaithful(policy: Policy, lineSize: nat, v: View, ops: seq<Op>)
    requires lineSize > 0 && ViewOk(lineSize, v)
    requires RunFits(lineSize, |v.mem.flat|, |v.lines|, CachedLines(v.lines), ops)
    requires RunHits(lineSize, CachedLines(v.lines), ops)
    ensures AllFaithful(policy, lineSize, v, ops)
    decreases |ops|
  {
    hide ViewOk, After, Fits, InUseAfter, CachedLines, Faithful, HitOrFull;
    if ops != [] {
      HitIsFaithful(lineSize, v, ops[0]);
      StepViewOk(policy, lineSize, v, ops[0]);
      HitsAreFaithful(policy, lineSize, After(policy, lineSize, v, ops[0]), ops[1..]);
    }
  }

  lemma HitIsFaithful(lineSize: nat, v: View, op: Op)
    requires lineSize > 0 && ViewOk(lineSize, v) && Fits(lineSize, |v.mem.flat|, |v.lines|, CachedLines(v.lines), op)
    requires op.WriteOp? ==> HitOrFull(CachedLines(v.lines), lineSize, op.offset, |op.data|)
    ensures op.WriteOp? ==> Faithful(v.lines, lineSize, v.mem.flat, op.offset, |op.data|)
  {
    hide LinesOk, CachedLines, LinesOf, InLines, Faithful, HitOrFull;
    if op.WriteOp? {
      RoomyMeans(v.lines, lineSize, |v.mem.flat|, op.offset, |op.data|);
      HitOrFullIsFaithful(v.lines, lineSize, v.mem.flat, op.offset, |op.data|);
    }
  }

  // What agrees throughout reads alike.
  lemma {:induction false} AgreesReads(policy: Policy, lineSize: nat, v: View, ops: seq<Op>)
    requires lineSize > 0 && Agrees(policy, lineSize, v, v.mem, ops)
    ensures ReadsOf(policy, lineSize, v, ops) == FlatReads(policy, v.mem, ops)
    decreases |ops|
  {
    hide After, FlatAfter, ReadBy;
    if ops != [] {
      AgreesReads(policy, lineSize, After(policy, lineSize, v, ops[0]), ops[1..]);
    }
  }

  // An operation of the simplest kind: a write of whole lines, a read of a line at
  // least or within one line, a flush, an invalidation.
  predicate Plain(lineSize: nat, total: nat, op: Op)
    requires lineSize > 0
  {
    match op
    case WriteOp(data, offset) =>
      offset % lineSize == 0 && |data| > 0 && |data| % lineSize == 0 && offset + |data| <= total
    case ReadOp(len, offset) =>
      offset < total && offset + len <= total && (len >= lineSize || offset % lineSize + len <= lineSize)
    case _ => true
  }

  function Written(lineSize: nat, ops: seq<Op>): set<nat>
    requires lineSize > 0
  {
    if ops == [] then {}
    else (if ops[0].WriteOp? then LinesOf(lineSize, ops[0].offset, |ops[0].data|) else {}) + Written(lineSize, ops[1..])
  }

  // Runs of such operations are in order as long as at least one line is never
  // needed.
  lemma {:induction false} PlainRuns(lineSize: nat, total: nat, numLines: nat, inUse: set<nat>, ops: seq<Op>)
    requires lineSize > 0 && forall i :: 0 <= i < |ops| ==> Plain(lineSize, total, ops[i])
    requires |inUse + Written(lineSize, ops)| < numLines
    ensures RunFits(lineSize, total, numLines, inUse, ops) && RunHits(lineSize, inUse, ops)
    decreases |ops|
  {
    if ops != [] {
      var op, next := ops[0], InUseAfter(lineSize, inUse, ops[0]);
      Subset(inUse, inUse + Written(lineSize, ops));
      if op.WriteOp? {
        Subset(inUse + LinesOf(lineSize, op.offset, |op.data|), inUse + Written(lineSize, ops));
      }
      PlainFits(lineSize, total, numLines, inUse, op);
      Subset(next + Written(lineSize, ops[1..]), inUse + Written(lineSize, ops));
      hide Fits, HitOrFull, Plain, InUseAfter;
      PlainRuns(lineSize, total, numLines, next, ops[1..]);
    }
  }

  lemma PlainFits(lineSize: nat, total: nat, numLines: nat, inUse: set<nat>, op: Op)
    requires lineSize > 0 && Plain(lineSize, total, op) && |inUse| < numLines
    requires op.WriteOp? ==> |inUse + LinesOf(lineSize, op.offset, |op.data|)| <= numLines
    ensures Fits(lineSize, total, numLines, inUse, op)
    ensures op.WriteOp? ==> HitOrFull(inUse, lineSize, op.offset, |op.data|)
  {
    hide InLines, HitOrFull, LinesOf;
    if op.WriteOp? {
      PlainWrite(lineSize, inUse, op.offset, |op.data|);
    } else if op.ReadOp? {
      InLinesIff(lineSize, op.offset, op.len);
    }
  }

  lemma PlainWrite(lineSize: nat, inUse: set<nat>, offset: nat, len: nat)
    requires lineSize > 0 && offset % lineSize == 0 && len > 0 && len % lineSize == 0
    ensures HitOrFull(inUse, lineSize, offset, len) && InLines(lineSize, offset, len)
  {
    var count := len / lineSize;
    assert len == count * lineSize;
    Step(count, lineSize);
    WholeLines(inUse, lineSize, offset, count);
  }

  // Inside the store, as every caller sees to.
  predicate InStore(total: nat, op: Op) {
    match op
    case WriteOp(data, offset) => offset < total && offset + |data| <= total
    case ReadOp(len, offset) => offset < total && offset + len <= total
    case _ => true
  }

  lemma FitsWrite(lineSize: nat, total: nat, numLines: nat, inUse: set<nat>, mem: Memory, data: seq<Byte>, offset: nat)
    requires lineSize > 0 && InStore(total, WriteOp(data, offset))
    ensures offset < total && offset + |data| <= total && ReadBy(mem, WriteOp(data, offset)) == []
    ensures Fits(lineSize, total, numLines, inUse, WriteOp(data, offset)) <==>
              InLines(lineSize, offset, |data|) && |inUse + LinesOf(lineSize, offset, |data|)| <= numLines
    ensures InUseAfter(lineSize, inUse, WriteOp(data, offset)) == inUse + LinesOf(lineSize, offset, |data|)
  {
    hide InLines, LinesOf;
  }

  lemma FitsRead(lineSize: nat, total: nat, numLines: nat, inUse: set<nat>, mem: Memory, len: nat, offset: nat)
    requires lineSize > 0 && InStore(total, ReadOp(len, offset)) && |mem.flat| == total
    ensures offset < total && offset + len <= total
    ensures ReadBy(mem, ReadOp(len, offset)) == [mem.flat[offset..offset + len]]
    ensures Fits(lineSize, total, numLines, inUse, ReadOp(len, offset)) <==>
              InLines(lineSize, offset, len) && (|inUse| < numLines || LinesOf(lineSize, offset, len) <= inUse)
    ensures InUseAfter(lineSize, inUse, ReadOp(len, offset)) == inUse
  {
    hide InLines, LinesOf;
  }

  lemma FitsOther(lineSize: nat, total: nat, numLines: nat, inUse: set<nat>, mem: Memory, op: Op)
    requires lineSize > 0 && (op.FlushOp? || op.InvalidateOp?)
    ensures Fits(lineSize, total, numLines, inUse, op) && InUseAfter(lineSize, inUse, op) == {} && ReadBy(mem, op) == []
  {
  }

  // A new cache.
  function Fresh(lineSize: nat, numLines: nat, store: seq<Byte>): View {
    View(seq(numLines, _ => Line(false, 0, 0, seq(lineSize, _ => 0))), Memory(store, store))
  }

  // A line that was flushed keeps its bytes.  A short write that takes it into use
  // brings them along: after a write of two bytes, a flush and a write of one, the
  // flat array is changed beyond that byte.
  lemma ShortWriteCorrupts()
    ensures var v, ops := Fresh(2, 1, [0, 0, 0, 0]), [WriteOp([1, 1], 0), FlushOp, WriteOp([7], 2)];
            && RunFits(2, 4, 1, {}, ops) && AfterAll(WriteBack, 2, v, ops).mem.flat == [1, 1, 7, 1]
            && !Agrees(WriteBack, 2, v, v.mem, ops)
  {
    hide *;
    ShortFits();
    ShortFirst();
    ShortSecond();
    ShortThird();
    RunThree(WriteBack, 2, Fresh(2, 1, [0, 0, 0, 0]), WriteOp([1, 1], 0), FlushOp, WriteOp([7], 2));
    assert Fresh(2, 1, [0, 0, 0, 0]).mem == Memory([0, 0, 0, 0], [0, 0, 0, 0]) by { FreshMemory(2, 1, [0, 0, 0, 0]); }
  }

  lemma FreshMemory(lineSize: nat, numLines: nat, store: seq<Byte>)
    ensures Fresh(lineSize, numLines, store).mem == Memory(store, store)
  {
  }

  lemma ShortFits()
    ensures RunFits(2, 4, 1, {}, [WriteOp([1, 1], 0), FlushOp, WriteOp([7], 2)])
  {
    var ops := [WriteOp([1, 1], 0), FlushOp, WriteOp([7], 2)];
    assert LinesOf(2, 0, 2) == {0} && LinesOf(2, 2, 1) == {2};
    assert ops[1..] == [FlushOp, WriteOp([7], 2)] && ops[1..][1..] == [WriteOp([7], 2)];
  }

  lemma ShortFirst()
    ensures var v := Fresh(2, 1, [0, 0, 0, 0]);
            && After(WriteBack, 2, v, WriteOp([1, 1], 0))
                 == View([Line(true, 0, 2, [0, 0])], Memory([1, 1, 0, 0], [0, 0, 0, 0]))
            && FlatAfter(WriteBack, Memory([0, 0, 0, 0], [0, 0, 0, 0]), WriteOp([1, 1], 0))
                == Memory([1, 1, 0, 0], [0, 0, 0, 0])
  {
    var lines, zero := Fresh(2, 1, [0, 0, 0, 0]).lines, [0, 0, 0, 0];
    assert |lines| == 1 && lines[0].data == [0, 0];
    assert lines == [Line(false, 0, 0, [0, 0])];
    assert !Cached(lines, 0) && LastInvalid(lines) == 0;
    assert [1, 1][..2] == [1, 1];
    assert Over(zero, 0, [0, 0]) == zero && Over(zero, 0, [1, 1]) == [1, 1, 0, 0];
  }

  lemma ShortSecond()
    ensures var v := View([Line(true, 0, 2, [0, 0])], Memory([1, 1, 0, 0], [0, 0, 0, 0]));
            && After(WriteBack, 2, v, FlushOp) == View([Line(false, 0, 2, [1, 1])], Memory([1, 1, 0, 0], [1, 1, 0, 0]))
            && FlatAfter(WriteBack, v.mem, FlushOp) == Memory([1, 1, 0, 0], [1, 1, 0, 0])
  {
    var flat: seq<Byte> := [1, 1, 0, 0];
    assert Part(flat, 0, 2) == [1, 1];
    assert Flushed([Line(true, 0, 2, [0, 0])], 2, flat) == [Line(false, 0, 2, [1, 1])];
  }

  lemma ShortThird()
    ensures var v := View([Line(false, 0, 2, [1, 1])], Memory([1, 1, 0, 0], [1, 1, 0, 0]));
            && After(WriteBack, 2, v, WriteOp([7], 2)).mem.flat == [1, 1, 7, 1]
            && FlatAfter(WriteBack, v.mem, WriteOp([7], 2)).flat == [1, 1, 7, 0]
  {
    var lines: seq<Line>, flat: seq<Byte> := [Line(false, 0, 2, [1, 1])], [1, 1, 0, 0];
    assert !Cached(lines, 2) && LastInvalid(lines) == 0 && [7][..1] == [7];
    assert Over(flat, 2, [1, 1]) == [1, 1, 1, 1] && Over([1, 1, 1, 1], 2, [7]) == [1, 1, 7, 1];
    assert Over(flat, 2, [7]) == [1, 1, 7, 0];
  }

  lemma RunThree(policy: Policy, lineSize: nat, v: View, a: Op, b: Op, c: Op)
    requires lineSize > 0
    ensures var w := After(policy, lineSize, After(policy, lineSize, After(policy, lineSize, v, a), b), c);
            && AfterAll(policy, lineSize, v, [a, b, c]) == w
            && (Agrees(policy, lineSize, v, v.mem, [a, b, c]) ==>
                  w.mem == FlatAfter(policy, FlatAfter(policy, FlatAfter(policy, v.mem, a), b), c))
  {
    hide *;
    var v1 := After(policy, lineSize, v, a);
    var v2 := After(policy, lineSize, v1, b);
    var m1 := FlatAfter(policy, v.mem, a);
    assert [a, b, c] == [a] + ([b] + ([c] + []));
    RunNext(policy, lineSize, v, v.mem, a, [b] + ([c] + []));
    RunNext(policy, lineSize, v1, m1, b, [c] + []);
    RunNext(policy, lineSize, v2, FlatAfter(policy, m1, b), c, []);
    RunOver(policy, lineSize, After(policy, lineSize, v2, c), FlatAfter(policy, FlatAfter(policy, m1, b), c));
  }

  lemma RunNext(policy: Policy, lineSize: nat, v: View, mem: Memory, op: Op, ops: seq<Op>)
    requires lineSize > 0
    ensures AfterAll(policy, lineSize, v, [op] + ops) == AfterAll(policy, lineSize, After(policy, lineSize, v, op), ops)
    ensures Agrees(policy, lineSize, v, mem, [op] + ops) ==>
              Agrees(policy, lineSize, After(policy, lineSize, v, op), FlatAfter(policy, mem, op), ops)
  {
    assert ([op] + ops)[1..] == ops;
    hide After, FlatAfter;
  }

  lemma RunOver(policy: Policy, lineSize: nat, v: View, mem: Memory)
    requires lineSize > 0
    ensures AfterAll(policy, lineSize, v, []) == v && (Agrees(policy, lineSize, v, mem, []) ==> v.mem == mem)
  {
  }

  // ---- what the lines to spare hold ---------------------------------------------------------

  // A single turn: so many bytes of one line.
  predicate OneLine(lineSize: nat, offset: nat, len: nat)
    requires lineSize > 0
  {
    offset % lineSize + len <= lineSize
  }

  lemma OneTurn(lineSize: nat, offset: nat, len: nat)
    requires lineSize > 0 && OneLine(lineSize, offset, len)
    ensures Chunk(lineSize, offset, len) == len && Intra(lineSize, offset) + len <= lineSize
  {
  }

  lemma OneTurnWrite(policy: Policy, lineSize: nat, v: View, data: seq<Byte>, to: nat)
    requires lineSize > 0 && OneLine(lineSize, to, |data|)
    ensures After(policy, lineSize, v, WriteOp(data, to)).mem.flat
         == ChunkLanded(v.lines, lineSize, v.mem.flat, to, data)
  {
    hide ChunkLanded, ClaimAll, Landed;
    OneTurn(lineSize, to, |data|);
    LandedStep(v.lines, lineSize, v.mem.flat, to, data);
    assert data[..|data|] == data;
  }

  lemma OneTurnRead(policy: Policy, lineSize: nat, v: View, at: nat, len: nat)
    requires lineSize > 0 && OneLine(lineSize, at, len)
    ensures After(policy, lineSize, v, ReadOp(len, at)) == View(FetchOne(v.lines, lineSize, v.mem.flat, at), v.mem)
  {
    hide FetchOne;
    OneTurn(lineSize, at, len);
  }

  lemma StillLast(lines: seq<Line>, k: nat, l: Line)
    requires k == LastInvalid(lines) < |lines| && !l.valid
    ensures LastInvalid(lines[k := l]) == k
  {
    var after := lines[k := l];
    assert after[k] == l;
    assert forall j :: k < j < |lines| ==> after[j].valid;
  }

  // The line a read has fetched is the one the next write takes.
  lemma FetchedIsNext(lines: seq<Line>, lineSize: nat, flat: seq<Byte>, at: nat, to: nat, size: nat)
    requires lineSize > 0 && LinesOk(lines, lineSize, |flat|) && at < |flat| && LastInvalid(lines) < |lines|
    requires Round(lineSize, to) == Round(lineSize, at) && !Cached(lines, at)
    ensures ChunkFaithful(FetchOne(lines, lineSize, flat, at), lineSize, flat, to, size)
  {
    var k, start := LastInvalid(lines), Round(lineSize, at);
    var l := lines[k].(data := Part(flat, start, lineSize));
    RoundMeans(lineSize, at);
    LineFits(lineSize, start, |flat|);
    hide LinesOk, Cached, LastInvalid, Round;
    StillLast(lines, k, l);
    assert FetchOne(lines, lineSize, flat, at) == lines[k := l];
    assert RestMatches(l.data, flat, start, to % lineSize, size);
  }

  // A short write behind a read of its line does no harm, as long as a line is to spare.
  lemma ReadThenWrite(policy: Policy, lineSize: nat, v: View, len: nat, at: nat, data: seq<Byte>, to: nat)
    requires lineSize > 0 && ViewOk(lineSize, v) && at < |v.mem.flat| && to < |v.mem.flat|
    requires OneLine(lineSize, at, len) && OneLine(lineSize, to, |data|) && Round(lineSize, to) == Round(lineSize, at)
    requires LastInvalid(v.lines) < |v.lines|
    ensures to + |data| <= |v.mem.flat|
    ensures var w := After(policy, lineSize, After(policy, lineSize, v, ReadOp(len, at)), WriteOp(data, to));
            w.mem.flat == Patch(v.mem.flat, to, data)
  {
    assert LinesOk(v.lines, lineSize, |v.mem.flat|);
    hide *;
    var lines, fetched := v.lines, FetchOne(v.lines, lineSize, v.mem.flat, at);
    OneTurn(lineSize, to, |data|);
    OneTurnRead(policy, lineSize, v, at, len);
    OneTurnWrite(policy, lineSize, After(policy, lineSize, v, ReadOp(len, at)), data, to);
    FetchOneMeans(lines, lineSize, v.mem.flat, at);
    CachedIs(lines, lineSize, |v.mem.flat|, at);
    CachedIs(fetched, lineSize, |v.mem.flat|, to);
    if Cached(lines, at) {
      HitChunk(fetched, lineSize, v.mem.flat, to, |data|);
    } else {
      FetchedIsNext(lines, lineSize, v.mem.flat, at, to, |data|);
      StillSpareLast(lines, lineSize, v.mem.flat, at);
    }
    ChunkEffect(fetched, lineSize, v.mem.flat, to, data);
  }

  lemma HitChunk(lines: seq<Line>, lineSize: nat, flat: seq<Byte>, at: nat, size: nat)
    requires lineSize > 0 && Cached(lines, at)
    ensures ChunkFaithful(lines, lineSize, flat, at, size)
  {
  }

  lemma StillSpareLast(lines: seq<Line>, lineSize: nat, flat: seq<Byte>, at: nat)
    requires lineSize > 0 && LastInvalid(lines) < |lines|
    ensures LastInvalid(FetchOne(lines, lineSize, flat, at)) < |lines|
    ensures |FetchOne(lines, lineSize, flat, at)| == |lines|
  {
    var k := LastInvalid(lines);
    hide LastInvalid, Cached, Round, Part;
    StillLast(lines, k, lines[k].(data := Part(flat, Round(lineSize, at), lineSize)));
  }

  // What a line holds: its bytes of the flat array if it is in use, and what it has
  // held before if not.
  function Holds(l: Line, lineSize: nat, flat: seq<Byte>): seq<Byte> {
    if l.valid then Part(flat, l.start, lineSize) else l.data
  }

  // A flush or an invalidation leaves every line to spare with what it holds; the
  // next short write takes the last of them and brings its bytes along.
  lemma LeftoverLands(policy: Policy, lineSize: nat, v: View, op: Op, data: seq<Byte>, to: nat)
    requires lineSize > 0 && ViewOk(lineSize, v) && (op.FlushOp? || op.InvalidateOp?) && v.lines != []
    requires to < |v.mem.flat| && OneLine(lineSize, to, |data|)
    ensures var leftover := Holds(v.lines[|v.lines| - 1], lineSize, v.mem.flat);
            var mem := if op.FlushOp? then v.mem.flat else v.mem.store;
            && |leftover| == lineSize && Round(lineSize, to) + lineSize <= |mem| && to + |data| <= |mem|
            && After(policy, lineSize, After(policy, lineSize, v, op), WriteOp(data, to)).mem.flat
                == Patch(Patch(mem, Round(lineSize, to), leftover), to, data)
  {
    assert LinesOk(v.lines, lineSize, |v.mem.flat|) && |v.mem.store| == |v.mem.flat|;
    hide *;
    var w := After(policy, lineSize, v, op);
    AfterFlush(policy, lineSize, v);
    AfterInvalidate(policy, lineSize, v);
    FlushedMeans(v.lines, lineSize, v.mem.flat);
    OneTurn(lineSize, to, |data|);
    OneTurnWrite(policy, lineSize, w, data, to);
    CachedIs(w.lines, lineSize, |v.mem.flat|, to);
    LastFlushed(v.lines, lineSize, v.mem.flat);
    ChunkShape(w.lines, lineSize, w.mem.flat, to, data);
  }

  lemma LastFlushed(lines: seq<Line>, lineSize: nat, flat: seq<Byte>)
    requires lines != []
    ensures var after, n := Flushed(lines, lineSize, flat), |lines| - 1;
            |after| == n + 1 && LastInvalid(after) == n && after[n].data == Holds(lines[n], lineSize, flat)
  {
  }

  // ---- a write under way ------------------------------------------------------------------

  // The state of a write before the turn at `at`, or after the last one: what the
  // turns ahead will make of the flat array and the lines.
  ghost predicate Ahead(goal: seq<Byte>, end: seq<Line>, all: set<nat>, lineSize: nat, lines: seq<Line>, cur: seq<Byte>,
                        at: nat, rest: seq<Byte>, more: bool)
    requires lineSize > 0
  {
    if more then
      && Roomy(lines, lineSize, |cur|, at, |rest|)
      && Landed(lines, lineSize, cur, at, rest) == goal && SameUse(ClaimAll(lines, lineSize, at, |rest|), end)
      && CachedLines(lines) + LinesOf(lineSize, at, |rest|) == all
    else
      cur == goal && SameUse(lines, end) && CachedLines(lines) == all
  }

  lemma AheadStart(lines: seq<Line>, lineSize: nat, flat: seq<Byte>, data: seq<Byte>, at: nat)
    requires lineSize > 0 && Roomy(lines, lineSize, |flat|, at, |data|)
    ensures Ahead(Landed(lines, lineSize, flat, at, data), ClaimAll(lines, lineSize, at, |data|),
                  CachedLines(lines) + LinesOf(lineSize, at, |data|), lineSize, lines, flat, at, data[0..], true)
  {
    assert data[0..] == data;
    SameUseSelf(ClaimAll(lines, lineSize, at, |data|));
    hide Landed, ClaimAll, CachedLines, LinesOf, Roomy, SameUse;
  }

  lemma AheadFacts(goal: seq<Byte>, end: seq<Line>, all: set<nat>, lineSize: nat, lines: seq<Line>, cur: seq<Byte>,
                   at: nat, rest: seq<Byte>)
    requires lineSize > 0 && Ahead(goal, end, all, lineSize, lines, cur, at, rest, true)
    ensures Roomy(lines, lineSize, |cur|, at, |rest|) && LinesOk(lines, lineSize, |cur|) && at < |cur|
    ensures Landed(lines, lineSize, cur, at, rest) == goal && SameUse(ClaimAll(lines, lineSize, at, |rest|), end)
    ensures CachedLines(lines) + LinesOf(lineSize, at, |rest|) == all
    ensures Cached(lines, at) || LastInvalid(lines) < |lines|
  {
    hide Landed, ClaimAll, CachedLines, LinesOf, Roomy, SameUse, LinesOk;
    RoomyMeans(lines, lineSize, |cur|, at, |rest|);
    RoomyNext(lines, lineSize, |cur|, at, |rest|);
  }

  lemma AheadNext(goal: seq<Byte>, end: seq<Line>, all: set<nat>, lineSize: nat, was: seq<Line>, cur: seq<Byte>,
                  lines: seq<Line>, at: nat, rest: seq<Byte>, size: nat)
    requires lineSize > 0 && Ahead(goal, end, all, lineSize, was, cur, at, rest, true)
    requires SameUse(lines, Claim(was, lineSize, at)) && LinesOk(lines, lineSize, |cur|)
    requires size == Chunk(lineSize, at, |rest|) <= |rest|
    ensures Ahead(goal, end, all, lineSize, lines, ChunkLanded(was, lineSize, cur, at, rest[..size]), at + size,
            rest[size..], size < |rest|)
  {
    hide *;
    var after, next := Claim(was, lineSize, at), ChunkLanded(was, lineSize, cur, at, rest[..size]);
    AheadClaimed(goal, end, all, lineSize, was, cur, at, rest, size);
    SameUseLines(lines, after);
    SameUseLength(lines, after);
    AheadSame(goal, end, all, lineSize, lines, after, next, at + size, rest[size..], size < |rest|);
  }

  // The same, had the turn only claimed its line.
  lemma AheadClaimed(goal: seq<Byte>, end: seq<Line>, all: set<nat>, lineSize: nat, was: seq<Line>, cur: seq<Byte>,
                     at: nat, rest: seq<Byte>, size: nat)
    requires lineSize > 0 && Ahead(goal, end, all, lineSize, was, cur, at, rest, true)
    requires size == Chunk(lineSize, at, |rest|) <= |rest|
    ensures Ahead(goal, end, all, lineSize, Claim(was, lineSize, at), ChunkLanded(was, lineSize, cur, at, rest[..size]),
                  at + size, rest[size..], size < |rest|)
  {
    hide *;
    AheadFacts(goal, end, all, lineSize, was, cur, at, rest);
    LinesNext(was, lineSize, |cur|, at, |rest|);
    LandedStep(was, lineSize, cur, at, rest);
    var after, next := Claim(was, lineSize, at), ChunkLanded(was, lineSize, cur, at, rest[..size]);
    if size < |rest| {
      RoomyNext(was, lineSize, |cur|, at, |rest|);
      AheadMake(goal, end, all, lineSize, after, next, at + size, rest[size..]);
    } else {
      AheadDone(goal, end, all, lineSize, after, next, at + size, rest[size..]);
    }
  }

  lemma AheadSame(goal: seq<Byte>, end: seq<Line>, all: set<nat>, lineSize: nat, a: seq<Line>, b: seq<Line>,
                  cur: seq<Byte>, at: nat, rest: seq<Byte>, more: bool)
    requires lineSize > 0 && Ahead(goal, end, all, lineSize, b, cur, at, rest, more) && LinesOk(a, lineSize, |cur|)
    requires SameUse(a, b) && |a| == |b| && CachedLines(a) == CachedLines(b)
    ensures Ahead(goal, end, all, lineSize, a, cur, at, rest, more)
  {
    hide Landed, ClaimAll, CachedLines, LinesOf, Roomy, SameUse, LinesOk;
    if more {
      LandedSame(a, b, lineSize, cur, at, rest);
      SameUseChain(ClaimAll(a, lineSize, at, |rest|), ClaimAll(b, lineSize, at, |rest|), end);
      RoomySame(a, b, lineSize, |cur|, at, |rest|);
    } else {
      SameUseChain(a, b, end);
    }
  }

  lemma LinesNext(lines: seq<Line>, lineSize: nat, total: nat, at: nat, len: nat)
    requires lineSize > 0 && LinesOk(lines, lineSize, total) && at < total
    requires Cached(lines, at) || LastInvalid(lines) < |lines|
    ensures var size, after := Chunk(lineSize, at, len), Claim(lines, lineSize, at);
            && size <= len
            && CachedLines(after) + (if size < len then LinesOf(lineSize, at + size, len - size) else {})
                 == CachedLines(lines) + LinesOf(lineSize, at, len)
  {
    hide *;
    LinesStep(lineSize, at, len);
    ClaimMeans(lines, lineSize, total, at);
    var size := Chunk(lineSize, at, len);
    if size < len {
      Regroup(CachedLines(lines), Round(lineSize, at), LinesOf(lineSize, at + size, len - size));
    }
  }

  lemma AheadMake(goal: seq<Byte>, end: seq<Line>, all: set<nat>, lineSize: nat, lines: seq<Line>, cur: seq<Byte>,
                  at: nat, rest: seq<Byte>)
    requires lineSize > 0 && Roomy(lines, lineSize, |cur|, at, |rest|) && Landed(lines, lineSize, cur, at, rest) == goal
    requires SameUse(ClaimAll(lines, lineSize, at, |rest|), end)
    requires CachedLines(lines) + LinesOf(lineSize, at, |rest|) == all
    ensures Ahead(goal, end, all, lineSize, lines, cur, at, rest, true)
  {
    hide Landed, ClaimAll, CachedLines, LinesOf, Roomy, SameUse;
  }

  lemma AheadDone(goal: seq<Byte>, end: seq<Line>, all: set<nat>, lineSize: nat, lines: seq<Line>, cur: seq<Byte>,
                  at: nat, rest: seq<Byte>)
    requires lineSize > 0 && cur == goal && SameUse(lines, end) && CachedLines(lines) == all
    ensures Ahead(goal, end, all, lineSize, lines, cur, at, rest, false)
  {
    hide SameUse, CachedLines;
  }

  lemma RoomySame(a: seq<Line>, b: seq<Line>, lineSize: nat, total: nat, at: nat, len: nat)
    requires lineSize > 0 && Roomy(b, lineSize, total, at, len) && LinesOk(a, lineSize, total)
    requires |a| == |b| && CachedLines(a) == CachedLines(b)
    ensures Roomy(a, lineSize, total, at, len)
  {
    hide *;
    RoomyMeans(b, lineSize, total, at, len);
    RoomyMeans(a, lineSize, total, at, len);
  }

  lemma AheadEnd(goal: seq<Byte>, end: seq<Line>, all: set<nat>, lineSize: nat, lines: seq<Line>, cur: seq<Byte>,
                 at: nat, rest: seq<Byte>)
    requires lineSize > 0 && Ahead(goal, end, all, lineSize, lines, cur, at, rest, false)
    ensures cur == goal && SameUse(lines, end) && CachedLines(lines) == all
  {
    hide SameUse, CachedLines;
  }

  lemma SameUseSelf(a: seq<Line>)
    ensures SameUse(a, a)
  {
  }

  lemma SameUseChain(a: seq<Line>, b: seq<Line>, c: seq<Line>)
    requires SameUse(a, b) && SameUse(b, c)
    ensures SameUse(a, c)
  {
  }

  lemma ChunkFits(lineSize: nat, at: nat, left: nat)
    requires lineSize > 0
    ensures Chunk(lineSize, at, left) <= left && (left > 0 ==> Chunk(lineSize, at, left) > 0)
  {
  }

  lemma LinesStep(lineSize: nat, at: nat, left: nat)
    requires lineSize > 0
    ensures var size := Chunk(lineSize, at, left);
            size <= left && (left > 0 ==> size > 0)
                && LinesOf(lineSize, at, left)
                    == {Round(lineSize, at)} + (if size < left then LinesOf(lineSize, at + size, left - size) else {})
  {
  }

  lemma SameUseLines(a: seq<Line>, b: seq<Line>)
    requires SameUse(a, b)
    ensures CachedLines(a) == CachedLines(b)
  {
    forall i | 0 <= i < |a| && a[i].valid ensures a[i].start in CachedLines(b) {
      assert b[i].valid;
    }
    forall i | 0 <= i < |b| && b[i].valid ensures b[i].start in CachedLines(a) {
      assert a[i].valid;
    }
  }
}
