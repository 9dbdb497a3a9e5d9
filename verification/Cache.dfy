/** The line cache (source/sosal/cache.c).  The backing store that the fill and
    commit callbacks reach is an array of whole lines.

    A copy over the end of a line, and the reuse of a line that is in use (the
    eviction in cache_next, which writes behind the lines), lead out of the cache's
    memory.  Reads and writes return `safe` as false when they come to that.
 */
module Cache {
  import opened Bytes
  import opened CacheLines

  class Cache {
    const lineSize: nat
    const policy: Policy
    const line: array<Line>
    // What fill reads and commit writes.
    const store: array<Byte>

    ghost predicate Valid()
      reads line, store
    {
      && lineSize > 0 && LinesOk(line[..], lineSize, store.Length)
      && (policy == WriteThrough ==> Contents() == store[..])
    }

    // The flat array the cache stands for.
    ghost function Contents(): (f: seq<Byte>)
      reads line, store
      ensures |f| == store.Length
    {
      if lineSize > 0 && LinesOk(line[..], lineSize, store.Length) then Flat(line[..], lineSize, store[..])
      else store[..]
    }

    lemma Ready()
      requires Valid()
      ensures lineSize > 0 && LinesOk(line[..], lineSize, store.Length) && InUse() == CachedLines(line[..])
    {
    }

    // Where the lines in use start.
    ghost function InUse(): set<nat>
      reads line
    {
      CachedLines(line[..])
    }

    constructor (lineSize: nat, numLines: nat, policy: Policy, store: array<Byte>)
      requires lineSize > 0 && store.Length % lineSize == 0
      ensures this.lineSize == lineSize && this.policy == policy && this.store == store && fresh(line)
      ensures line.Length == numLines
      ensures Valid() && Contents() == store[..] && InUse() == {} && Is(Fresh(lineSize, numLines, store[..]))
    {
      this.lineSize, this.policy, this.store := lineSize, policy, store;
      line := new Line[numLines](_ => Line(false, 0, 0, seq(lineSize, _ => 0)));
      new;
      NoneValid(line[..], lineSize, store[..]);
    }

    method Index(offset: nat) returns (found: bool, index: nat)
      ensures found == Cached(line[..], offset) && index == Covering(line[..], offset, 0)
    {
      index := 0;
      while index < line.Length
        invariant index <= line.Length
        invariant Covering(line[..], offset, 0) == Covering(line[..], offset, index)
      {
        if line[index].valid && line[index].start <= offset && offset < line[index].end {
          return true, index;
        }
        index := index + 1;
      }
      found := false;
    }

    // The last line that is not in use, if there is one.
    method Next() returns (found: bool, k: nat)
      ensures found <==> LastInvalid(line[..]) < line.Length
      ensures found ==> k == LastInvalid(line[..])
    {
      found, k := false, 0;
      for i := 0 to line.Length
        invariant found ==> k < i && !line[k].valid && forall j :: k < j < i ==> line[j].valid
        invariant !found ==> forall j :: 0 <= j < i ==> line[j].valid
      {
        if !line[i].valid {
          found, k := true, i;
        }
      }
    }

    // ---- reading --------------------------------------------------------------------

    // Fetch the line of `offset` into a line that is not in use; it stays that way.
    method Fill(offset: nat, index: nat)
      requires Valid() && offset < store.Length && index == LastInvalid(line[..]) < line.Length
      requires !Cached(line[..], offset)
      modifies line
      ensures Valid() && Contents() == old(Contents()) && InUse() == old(InUse())
      ensures Round(lineSize, offset) + lineSize <= store.Length
      ensures line[index].data == store[Round(lineSize, offset)..Round(lineSize, offset) + lineSize]
      ensures !Cached(line[..], offset) && line[..] == FetchOne(old(line[..]), lineSize, old(Contents()), offset)
    {
      hide Round, Flat, CachedLines, LastInvalid;
      RoundMeans(lineSize, offset);
      LineFits(lineSize, Round(lineSize, offset), store.Length);
      var start := Round(lineSize, offset);
      var l := line[index].(data := store[start..start + lineSize]);
      LineRefilled(line[..], lineSize, store[..], index, l);
      StillSpare(line[..], index, l);
      MissedBytes(line[..], lineSize, store[..], offset);
      ghost var was := line[..];
      line[index] := l;
      assert line[..] == was[index := l];
    }

    // A line that holds the bytes around `offset`: the one in use, or one to spare
    // that they are fetched into.
    method Fetch(offset: nat) returns (safe: bool, index: nat)
      requires Valid() && offset < store.Length
      modifies line
      ensures safe <==> Cached(old(line[..]), offset) || LastInvalid(old(line[..])) < line.Length
      ensures Valid() && Contents() == old(Contents()) && InUse() == old(InUse())
      ensures safe ==>
                && index < line.Length && Round(lineSize, offset) + lineSize <= store.Length
                && line[index].data == Part(Contents(), Round(lineSize, offset), lineSize)
                && line[..] == FetchOne(old(line[..]), lineSize, old(Contents()), offset)
    {
      hide Round, Flat, CachedLines, LinesOk, LastInvalid;
      safe, index := Index(offset);
      if safe {
        HitHolds(line[..], lineSize, store[..], index, offset);
      } else {
        safe, index := Next();
        if safe {
          MissedBytes(line[..], lineSize, store[..], offset);
          Fill(offset, index);
        }
      }
    }

    // One turn of the read loop: `size` bytes, all in one line.
    method ReadChunk(offset: nat, size: nat) returns (safe: bool, data: seq<Byte>)
      requires Valid() && offset < store.Length && Intra(lineSize, offset) + size <= lineSize
      modifies line
      ensures safe <==> Cached(old(line[..]), offset) || LastInvalid(old(line[..])) < line.Length
      ensures Valid() && Contents() == old(Contents()) && InUse() == old(InUse())
      ensures safe ==>
                && offset + size <= store.Length && data == Contents()[offset..offset + size]
                && line[..] == FetchOne(old(line[..]), lineSize, old(Contents()), offset)
    {
      hide *;
      data := [];
      Ready();
      var index;
      safe, index := Fetch(offset);
      if safe {
        var intraOffset := offset % lineSize;
        PartOfLine(Contents(), lineSize, offset, size);
        data := line[index].data[intraOffset..intraOffset + size];
      }
    }

    // A line is to spare, or nothing is missing.
    ghost predicate CanRead(offset: nat, len: nat)
      requires lineSize > 0
      reads line
    {
      |InUse()| < line.Length || LinesOf(lineSize, offset, len) <= InUse()
    }

    lemma ReadRoom(offset: nat, len: nat)
      requires lineSize > 0
      ensures CanRead(offset, len) <==> Readable(line[..], lineSize, offset, len)
    {
    }

    lemma ReadNeeds(offset: nat, len: nat)
      requires lineSize > 0
      ensures CanRead(offset, len) <==> |InUse()| < line.Length || LinesOf(lineSize, offset, len) <= InUse()
    {
    }

    // A turn, and what it leaves for the turns behind it.
    method ReadTurn(at: nat, size: nat, ghost left: nat) returns (safe: bool, bytes: seq<Byte>)
      requires Valid() && at < store.Length && size == Chunk(lineSize, at, left)
      modifies line
      ensures Valid() && Contents() == old(Contents()) && InUse() == old(InUse())
      ensures safe ==>
                && at + size <= store.Length && bytes == Contents()[at..at + size]
                && line[..] == FetchOne(old(line[..]), lineSize, old(Contents()), at)
                && size <= left && (left > 0 ==> size > 0)
      ensures InLines(lineSize, at, left) && old(CanRead(at, left)) <==>
                safe && (size < left ==> InLines(lineSize, at + size, left - size) && CanRead(at + size, left - size))
    {
      hide *;
      Ready();
      ReadRoom(at, left);
      ReadableIff(line[..], lineSize, store.Length, at, left);
      ChunkFits(lineSize, at, left);
      bytes := [];
      if Intra(lineSize, at) + size > lineSize {
        return false, bytes;
      }
      safe, bytes := ReadChunk(at, size);
      Ready();
      ReadRoom(at + size, left - size);
      ReadableSame(old(line[..]), line[..], lineSize, at + size, left - size);
    }

    // A read is that of the flat array, and takes no line into use.  It is safe
    // exactly when it stays within lines and a line is to spare or none is missing.
    method Read(len: nat, offset: nat) returns (safe: bool, data: seq<Byte>, bytesRead: nat)
      requires lineSize > 0 && Valid() && offset < store.Length && offset + len <= store.Length
      modifies line
      ensures safe <==> InLines(lineSize, offset, len) && old(CanRead(offset, len))
      ensures Valid() && Contents() == old(Contents()) && InUse() == old(InUse())
      ensures safe ==>
                && bytesRead == len && data == Contents()[offset..offset + len]
                && line[..] == Fetched(old(line[..]), lineSize, old(Contents()), offset, len)
    {
      hide *;
      ghost var end := Fetched(line[..], lineSize, Contents(), offset, len);
      ghost var fits := InLines(lineSize, offset, len) && CanRead(offset, len);
      safe, data, bytesRead := true, [], 0;
      var left: nat, at: nat := len, offset;
      var more := true;
      while more && safe
        invariant Valid() && Contents() == old(Contents()) && InUse() == old(InUse()) && lineSize > 0
        invariant safe ==> at == offset + bytesRead && left + bytesRead == len && (more ==> at < store.Length)
        invariant safe && !more ==> left == 0 && fits
        invariant safe && more ==> (fits <==> InLines(lineSize, at, left) && CanRead(at, left))
        invariant !safe ==> !fits
        invariant safe ==> data == Contents()[offset..at]
        invariant safe ==> if more then Fetched(line[..], lineSize, Contents(), at, left) == end else line[..] == end
        decreases more && safe, left
      {
        Ready();
        var size := Chunk(lineSize, at, left);
        FetchedStep(line[..], lineSize, Contents(), at, left);
        var bytes;
        safe, bytes := ReadTurn(at, size, left);
        if safe {
          data := data + bytes;
          at, left, bytesRead := at + size, left - size, bytesRead + size;
          more := left > 0;
        }
      }
    }

    // ---- writing ------------------------------------------------------------------

    method Commit(k: nat)
      requires lineSize > 0 && LinesOk(line[..], lineSize, store.Length) && k < line.Length && line[k].valid
      modifies store
      ensures LineOk(line[k], lineSize, store.Length)
      ensures store[..] == Patch(old(store[..]), line[k].start, line[k].data)
      ensures store[line[k].start..line[k].end] == line[k].data
      ensures Contents() == old(Contents())
    {
      CommitKeeps(line[..], lineSize, store[..], k);
      LineIn(line[..], lineSize, store.Length, k);
      hide LinesOk, Flat, Patch;
      CommitLine(store, line[k].data, line[k].start);
    }

    // The commit callback.
    static method CommitLine(store: array<Byte>, data: seq<Byte>, start: nat)
      requires start + |data| <= store.Length
      modifies store
      ensures store[..] == Patch(old(store[..]), start, data)
    {
      forall i | 0 <= i < |data| {
        store[start + i] := data[i];
      }
    }

    // One turn of the write loop.  Without a hit the line taken into use is not
    // filled from the store first: its other bytes are what it last held.
    method WriteChunk(bytes: seq<Byte>, offset: nat) returns (safe: bool)
      requires Valid() && offset < store.Length && Intra(lineSize, offset) + |bytes| <= lineSize
      modifies line, store
      ensures safe <==> Cached(old(line[..]), offset) || LastInvalid(old(line[..])) < line.Length
      ensures Valid() && (policy == WriteBack ==> store[..] == old(store[..]))
      ensures safe ==> ChunkWritten(old(line[..]), lineSize, old(Contents()), offset, bytes, Contents())
      ensures safe ==> SameUse(line[..], Claim(old(line[..]), lineSize, offset))
    {
      hide Round, Flat, LinesOk, Patch, LastInvalid, ChunkWritten, SameUse, Claim, Covering, LineOk;
      ghost var was := line[..];
      var index;
      safe, index := Index(offset);
      if !safe {
        safe, index := Next();
        if !safe {
          return;
        }
        MissWritten(was, lineSize, store[..], offset, bytes);
        line[index] := line[index].(start := Round(lineSize, offset), end := Round(lineSize, offset) + lineSize);
      } else {
        HitWritten(was, lineSize, store[..], index, offset, bytes);
      }
      line[index] := line[index].(data := Patch(line[index].data, offset % lineSize, bytes), valid := true);
      ghost var l := line[index];
      assert line[..] == was[index := l];
      if policy == WriteThrough {
        LinePut(was, lineSize, store[..], index, l);
        Commit(index);
      }
    }

    // The line of the next turn is there or can be taken.
    ghost predicate CanWrite(at: nat, left: nat)
      requires lineSize > 0
      reads line
    {
      |InUse() + LinesOf(lineSize, at, left)| <= line.Length
    }

    lemma WriteRoom(at: nat, left: nat)
      requires lineSize > 0
      ensures CanWrite(at, left) <==> |CachedLines(line[..]) + LinesOf(lineSize, at, left)| <= |line[..]|
    {
    }

    // A write is safe exactly when it stays within lines and there are lines enough.
    // Then it leaves what `Landed` says; and that is a write to the flat array
    // exactly when `Faithful` says so beforehand.
    method Write(data: seq<Byte>, offset: nat) returns (safe: bool, written: nat)
      requires Valid() && offset < store.Length && offset + |data| <= store.Length
      modifies line, store
      ensures safe <==> InLines(lineSize, offset, |data|) && old(CanWrite(offset, |data|))
      ensures Valid() && (policy == WriteBack ==> store[..] == old(store[..]))
      ensures safe ==>
                && written == |data| && InUse() == old(InUse()) + LinesOf(lineSize, offset, |data|)
                && Contents() == Landed(old(line[..]), lineSize, old(Contents()), offset, data)
                && SameUse(line[..], ClaimAll(old(line[..]), lineSize, offset, |data|))
      ensures safe ==>
                (Contents() == Patch(old(Contents()), offset, data) <==>
                 Faithful(old(line[..]), lineSize, old(Contents()), offset, |data|))
    {
      hide *;
      Ready();
      WriteRoom(offset, |data|);
      ghost var goal := Landed(line[..], lineSize, Contents(), offset, data);
      ghost var end, all := ClaimAll(line[..], lineSize, offset, |data|), InUse() + LinesOf(lineSize, offset, |data|);
      ghost var fits := InLines(lineSize, offset, |data|) && CanWrite(offset, |data|);
      RoomyMeans(line[..], lineSize, store.Length, offset, |data|);
      if fits {
        LandedIff(line[..], lineSize, Contents(), offset, data);
        AheadStart(line[..], lineSize, Contents(), data, offset);
      }
      safe, written := true, 0;
      var left: nat, at: nat := |data|, offset;
      var more := true;
      while more && safe
        invariant Valid() && (policy == WriteBack ==> store[..] == old(store[..])) && (!safe ==> !fits)
        invariant safe ==> at == offset + written && left + written == |data| && (more ==> at < store.Length)
        invariant safe && !more ==> left == 0 && fits
        invariant safe && more ==> (fits <==> Roomy(line[..], lineSize, store.Length, at, left))
        invariant safe && fits ==> Ahead(goal, end, all, lineSize, line[..], Contents(), at, data[written..], more)
        decreases more && safe, left
      {
        var size := Chunk(lineSize, at, left);
        safe := WriteTurn(goal, end, all, fits, data[written..], at, size);
        if safe {
          assert data[written..][size..] == data[written + size..];
          at, left, written := at + size, left - size, written + size;
          more := left > 0;
        }
      }
      if safe {
        AheadEnd(goal, end, all, lineSize, line[..], Contents(), at, data[written..]);
        Ready();
      }
    }

    // A turn, and what it leaves for the turns behind it.
    method WriteTurn(ghost goal: seq<Byte>, ghost end: seq<Line>, ghost all: set<nat>, ghost fits: bool,
                     rest: seq<Byte>, at: nat, size: nat) returns (safe: bool)
      requires Valid() && at < store.Length && at + |rest| <= store.Length && size == Chunk(lineSize, at, |rest|)
      requires fits <==> Roomy(line[..], lineSize, store.Length, at, |rest|)
      requires fits ==> Ahead(goal, end, all, lineSize, line[..], Contents(), at, rest, true)
      modifies line, store
      ensures Valid() && (policy == WriteBack ==> store[..] == old(store[..])) && (!safe ==> !fits)
      ensures safe ==> size <= |rest| && (|rest| > 0 ==> size > 0)
      ensures safe ==>
                (fits <==> (size < |rest| ==> Roomy(line[..], lineSize, store.Length, at + size, |rest| - size)))
      ensures safe && fits ==>
                Ahead(goal, end, all, lineSize, line[..], Contents(), at + size, rest[size..], size < |rest|)
    {
      hide *;
      Ready();
      ghost var was, cur := line[..], Contents();
      RoomyIff(was, lineSize, store.Length, at, |rest|);
      ChunkFits(lineSize, at, |rest|);
      if Intra(lineSize, at) + size > lineSize {
        return false;
      }
      safe := WriteChunk(rest[..size], at);
      if safe {
        Ready();
        RoomyClaimed(was, line[..], lineSize, store.Length, at, at + size, |rest| - size);
        WrittenLands(was, lineSize, cur, at, rest[..size], Contents());
        if fits {
          AheadNext(goal, end, all, lineSize, was, cur, line[..], at, rest, size);
        }
      }
    }

    // ---- flush and invalidate -----------------------------------------------------

    // The store becomes the flat array; the lines are set aside with the bytes they
    // hold.
    method Flush()
      requires Valid()
      modifies line, store
      ensures Valid() && Contents() == store[..] == old(Contents()) && InUse() == {}
      ensures forall j :: 0 <= j < line.Length ==> line[j] == old(line[j]).(valid := false)
    {
      hide *;
      Ready();
      for i := 0 to line.Length
        invariant LinesOk(line[..], lineSize, store.Length) && Contents() == old(Contents())
        invariant forall j :: 0 <= j < i ==> line[j] == old(line[j]).(valid := false)
        invariant forall j :: i <= j < line.Length ==> line[j] == old(line[j])
      {
        if line[i].valid {
          Commit(i);
          Drop(i);
        }
      }
      Emptied();
    }

    lemma Emptied()
      requires lineSize > 0 && LinesOk(line[..], lineSize, store.Length)
      requires forall i :: 0 <= i < line.Length ==> !line[i].valid
      ensures Valid() && Contents() == store[..] && InUse() == {}
    {
      NoneValid(line[..], lineSize, store[..]);
    }

    method Drop(i: nat)
      requires lineSize > 0 && LinesOk(line[..], lineSize, store.Length) && i < line.Length && line[i].valid
      requires LineOk(line[i], lineSize, store.Length) && store[line[i].start..line[i].end] == line[i].data
      modifies line
      ensures LinesOk(line[..], lineSize, store.Length) && Contents() == old(Contents())
      ensures line[i] == old(line[i]).(valid := false)
      ensures forall j :: 0 <= j < line.Length && j != i ==> line[j] == old(line[j])
    {
      hide Flat, LinesOk;
      LineDropped(line[..], lineSize, store[..], i, line[i].(valid := false));
      ghost var was := line[..];
      line[i] := line[i].(valid := false);
      assert line[..] == was[i := line[i]];
    }

    // Invalidating falls back to the store: nothing is lost under write-through.
    method Invalidate()
      requires Valid()
      modifies line
      ensures Valid() && Contents() == store[..] && InUse() == {}
      ensures policy == WriteThrough ==> Contents() == old(Contents())
      ensures forall j :: 0 <= j < line.Length ==> line[j] == old(line[j]).(valid := false)
    {
      Ready();
      hide Flat, CachedLines;
      for i := 0 to line.Length
        invariant LinesOk(line[..], lineSize, store.Length)
        invariant forall j :: 0 <= j < i ==> line[j] == old(line[j]).(valid := false)
        invariant forall j :: i <= j < line.Length ==> line[j] == old(line[j])
      {
        if line[i].valid {
          line[i] := line[i].(valid := false);
        }
      }
      Emptied();
    }

    // ---- runs -----------------------------------------------------------------------

    // What the cache is, as far as any later operation can tell.
    ghost predicate Is(v: View)
      reads line, store
    {
      v.mem == Memory(Contents(), store[..]) && SameUse(line[..], v.lines)
    }

    // One operation inside the store: safe exactly if it fits, and then the next view.
    method Step(op: Op, ghost v: View) returns (safe: bool, got: seq<seq<Byte>>)
      requires Valid() && InStore(store.Length, op) && Is(v)
      modifies line, store
      ensures safe <==> Fits(lineSize, store.Length, line.Length, old(InUse()), op)
      ensures Valid()
      ensures safe ==>
                && Is(After(policy, lineSize, v, op)) && InUse() == InUseAfter(lineSize, old(InUse()), op)
                && got == ReadBy(v.mem, op)
    {
      hide *;
      Ready();
      Known(v);
      Shows();
      ghost var was, flat := line[..], Contents();
      safe, got := true, [];
      match op
      case WriteOp(data, offset) =>
        FitsWrite(lineSize, store.Length, line.Length, InUse(), v.mem, data, offset);
        WriteRoom(offset, |data|);
        var written;
        safe, written := Write(data, offset);
        if safe {
          LandedSame(was, v.lines, lineSize, flat, offset, data);
          Through();
          AfterWrite(policy, lineSize, v, data, offset);
          SameUseChain(line[..], ClaimAll(was, lineSize, offset, |data|), ClaimAll(v.lines, lineSize, offset, |data|));
          Become(After(policy, lineSize, v, op));
        }
      case ReadOp(len, offset) =>
        FitsRead(lineSize, store.Length, line.Length, InUse(), v.mem, len, offset);
        ReadNeeds(offset, len);
        var data, bytesRead;
        safe, data, bytesRead := Read(len, offset);
        if safe {
          FetchedSame(was, v.lines, lineSize, flat, offset, len);
          AfterRead(policy, lineSize, v, len, offset);
          got := [data];
          Become(After(policy, lineSize, v, op));
        }
      case FlushOp =>
        FitsOther(lineSize, store.Length, line.Length, InUse(), v.mem, op);
        Flush();
        FlushedIs(was, line[..], v.lines, lineSize, old(store[..]), flat);
        AfterFlush(policy, lineSize, v);
        Become(After(policy, lineSize, v, op));
      case InvalidateOp =>
        FitsOther(lineSize, store.Length, line.Length, InUse(), v.mem, op);
        Invalidate();
        FlushedIs(was, line[..], v.lines, lineSize, old(store[..]), flat);
        AfterInvalidate(policy, lineSize, v);
        Become(After(policy, lineSize, v, op));
    }

    lemma Shows()
      requires Valid()
      ensures lineSize > 0 && LinesOk(line[..], lineSize, store.Length)
      ensures Contents() == Flat(line[..], lineSize, store[..])
    {
      hide LinesOk, Flat;
    }

    lemma Known(v: View)
      requires Is(v)
      ensures v.mem.flat == Contents() && v.mem.store == store[..] && SameUse(line[..], v.lines)
    {
      hide SameUse;
    }

    lemma Through()
      requires Valid()
      ensures policy == WriteThrough ==> Contents() == store[..]
    {
    }

    lemma Become(v: View)
      requires v.mem.flat == Contents() && v.mem.store == store[..] && SameUse(line[..], v.lines)
      ensures Is(v)
    {
      hide SameUse;
    }

    // Any run of writes, reads, flushes and invalidations inside the store is safe
    // exactly if it fits, and then does what the views say.
    method Run(ops: seq<Op>, ghost v: View) returns (safe: bool, got: seq<seq<Byte>>)
      requires Valid() && Is(v) && forall op <- ops :: InStore(store.Length, op)
      modifies line, store
      ensures safe <==> RunFits(lineSize, store.Length, line.Length, old(InUse()), ops)
      ensures Valid()
      ensures safe ==> Is(AfterAll(policy, lineSize, v, ops)) && got == ReadsOf(policy, lineSize, v, ops)
      decreases |ops|
    {
      hide Fits, After, ReadBy, InUseAfter, Is, InStore;
      Ready();
      safe, got := true, [];
      if ops != [] {
        safe, got := Step(ops[0], v);
        if safe {
          var rest;
          safe, rest := Run(ops[1..], After(policy, lineSize, v, ops[0]));
          got := got + rest;
        }
      }
    }
  }
}
