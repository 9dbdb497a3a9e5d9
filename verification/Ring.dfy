/** The byte ring (source/sosal/ring.c): a fixed buffer, two wrapping cursors
    and two counters that together hold a bounded sequence of bytes.
 */
module Ring {

  import opened Bytes

  // ---- what the cursors mean ------------------------------------------------

  // A cursor that has run to the end of the buffer stands at its start.
  function Wrap(pos: nat, total: nat): nat {
    if pos < total then pos else pos - total
  }

  // The bytes held, oldest first.
  ghost function View(cells: seq<Byte>, front: nat, used: nat): (v: seq<Byte>)
    requires front <= |cells| && used <= |cells|
    ensures |v| == used
  {
    if front + used <= |cells| then cells[front..front + used]
    else cells[front..] + cells[..front + used - |cells|]
  }

  ghost function Overwrite(cells: seq<Byte>, at: nat, b: seq<Byte>): (r: seq<Byte>)
    requires at + |b| <= |cells|
    ensures |r| == |cells|
  {
    cells[..at] + b + cells[at + |b|..]
  }

  // One contiguous copy behind the newest byte appends to the view ...
  lemma AppendSegment(cells: seq<Byte>, front: nat, used: nat, b: seq<Byte>)
    requires front < |cells| && used + |b| <= |cells|
    requires Wrap(front + used, |cells|) + |b| <= |cells|
    ensures View(Overwrite(cells, Wrap(front + used, |cells|), b), front, used + |b|) == View(cells, front, used) + b
  {
    var at := Wrap(front + used, |cells|);
    var after := Overwrite(cells, at, b);
    hide View, Overwrite, Wrap;
    var v, w := View(after, front, used + |b|), View(cells, front, used) + b;
    forall i | 0 <= i < |v| ensures v[i] == w[i] {
      ViewAt(after, front, used + |b|, i);
      WrapApart(front, used, |b|, |cells|, i);
      OverwriteAt(cells, at, b, Wrap(front + i, |cells|));
      if i < used { ViewAt(cells, front, used, i); }
    }
  }

  lemma OverwriteAt(cells: seq<Byte>, at: nat, b: seq<Byte>, i: nat)
    requires at + |b| <= |cells| && i < |cells|
    ensures Overwrite(cells, at, b)[i] == if at <= i < at + |b| then b[i - at] else cells[i]
  {
  }

  // Where the i-th byte is, seen from the place behind the newest one.
  lemma WrapApart(front: nat, used: nat, len: nat, total: nat, i: nat)
    requires front < total && used + len <= total && i < used + len && Wrap(front + used, total) + len <= total
    ensures var at := Wrap(front + used, total);
            if i < used then !(at <= Wrap(front + i, total) < at + len) else Wrap(front + i, total) == at + (i - used)
  {
  }

  lemma ViewAt(cells: seq<Byte>, front: nat, used: nat, i: nat)
    requires front < |cells| && i < used <= |cells|
    ensures Wrap(front + i, |cells|) < |cells| && View(cells, front, used)[i] == cells[Wrap(front + i, |cells|)]
  {
  }

  lemma TakeTwice(s: seq<Byte>, m: nat, n: nat)
    requires m + n <= |s|
    ensures s[..m] + s[m..][..n] == s[..m + n] && s[m..][n..] == s[m + n..]
  {
  }

  // ... and one contiguous copy from the oldest byte on removes from it.
  lemma RemoveSegment(cells: seq<Byte>, front: nat, used: nat, k: nat)
    requires front < |cells| && k <= used <= |cells| && front + k <= |cells|
    ensures View(cells, front, used)[..k] == cells[front..front + k]
    ensures View(cells, Wrap(front + k, |cells|), used - k) == View(cells, front, used)[k..]
  {
  }

  class RingBuffer {
    const totalNumBytes: nat
    const start: array<Byte>
    var front: nat
    var back: nat
    var numBytesUsed: nat
    var numBytesFree: nat

    ghost predicate Valid()
      reads this
    {
      && start.Length == totalNumBytes
      && numBytesUsed + numBytesFree == totalNumBytes
      && (totalNumBytes == 0 ==> front == back == 0)
      && (totalNumBytes > 0 ==>
            front < totalNumBytes && back < totalNumBytes && back == Wrap(front + numBytesUsed, totalNumBytes))
    }

    ghost function Contents(): (s: seq<Byte>)
      requires Valid()
      reads this, start
      ensures |s| == numBytesUsed
    {
      View(start[..], front, numBytesUsed)
    }

    constructor (totalNumBytes: nat)
      ensures Valid() && fresh(start)
      ensures this.totalNumBytes == totalNumBytes && Contents() == []
    {
      this.totalNumBytes := totalNumBytes;
      start := new Byte[totalNumBytes](_ => 0);
      front, back := 0, 0;
      numBytesFree, numBytesUsed := totalNumBytes, 0;
    }

    method CopyIn(b: seq<Byte>)
      requires start.Length == totalNumBytes && back + |b| <= totalNumBytes
      modifies start
      ensures start[..] == Overwrite(old(start[..]), back, b)
    {
      forall i | 0 <= i < |b| {
        start[back + i] := b[i];
      }
    }

    // The memory copy into the buffer at `back`, with the counters and the
    // cursor moved along; a cursor at the end wraps to the start.
    method Fill(b: seq<Byte>)
      requires Valid() && totalNumBytes > 0
      requires |b| <= numBytesFree && back + |b| <= totalNumBytes
      modifies this`back, this`numBytesUsed, this`numBytesFree, start
      ensures Valid() && Contents() == old(Contents()) + b
      ensures back == Wrap(old(back) + |b|, totalNumBytes) && numBytesFree == old(numBytesFree) - |b|
    {
      hide View, Overwrite;
      ghost var cells := start[..];
      CopyIn(b);
      AppendSegment(cells, front, numBytesUsed, b);
      back := back + |b|;
      if back == totalNumBytes {
        back := 0;
      }
      numBytesFree := numBytesFree - |b|;
      numBytesUsed := numBytesUsed + |b|;
    }

    // The memory copy out of the buffer at `front`.
    method Drain(k: nat) returns (b: seq<Byte>)
      requires Valid() && totalNumBytes > 0
      requires k <= numBytesUsed && front + k <= totalNumBytes
      modifies this`front, this`numBytesUsed, this`numBytesFree
      ensures Valid() && b == old(Contents())[..k] && Contents() == old(Contents())[k..]
      ensures front == Wrap(old(front) + k, totalNumBytes) && numBytesUsed == old(numBytesUsed) - k
    {
      hide View;
      b := start[front..front + k];
      assert b == start[..][front..front + k];
      RemoveSegment(start[..], front, numBytesUsed, k);
      front := front + k;
      if front == totalNumBytes {
        front := 0;
      }
      numBytesFree := numBytesFree + k;
      numBytesUsed := numBytesUsed - k;
    }

    // A copy that may run over the end of the buffer.
    method FillWrapped(b: seq<Byte>)
      requires Valid() && totalNumBytes > 0
      requires |b| <= numBytesFree && back + |b| >= totalNumBytes
      modifies this`back, this`numBytesUsed, this`numBytesFree, start
      ensures Valid() && Contents() == old(Contents()) + b
    {
      var endToBack := totalNumBytes - back;
      var leftOver := |b| - endToBack;
      Fill(b[..endToBack]);
      if leftOver > 0 {
        Fill(b[endToBack..]);
      }
      assert b[..endToBack] + b[endToBack..] == b;
    }

    // Append all of `b` or nothing.  `ok` is false when one of the program's
    // own assertions fails; the others are asserted here and always hold.
    method Write(b: seq<Byte>) returns (written: nat, ok: bool)
      requires Valid()
      modifies this`back, this`numBytesUsed, this`numBytesFree, start
      ensures Valid()
      ensures ok <==> !(|b| == 0 && old(numBytesFree) == 0)
      ensures written == if |b| <= old(numBytesFree) then |b| else 0
      ensures Contents() == old(Contents()) + b[..written]
    {
      var len := |b|;
      assert b[..len] == b && b[..0] == [];
      if len > numBytesFree {
        return 0, true;
      }
      if len == 1 {
        Fill(b);
        return 1, true;
      }
      if back > front {
        var endToBack := totalNumBytes - back;
        if endToBack > len {
          Fill(b);
        } else {
          FillWrapped(b);
        }
        return len, true;
      } else if front > back {
        var frontToBack := front - back;
        assert len <= frontToBack;
        Fill(b);
        return len, true;
      } else if numBytesFree == 0 {
        return 0, false;
      } else {
        assert numBytesUsed == 0;
        assert len <= totalNumBytes;
        var endToBack := totalNumBytes - back;
        if len < endToBack {
          Fill(b);
        } else {
          FillWrapped(b);
        }
        return len, true;
      }
    }

    // Read over the end of the buffer: first what lies before the end, then
    // what is left over, as far as there is any.
    method DrainWrapped(len: nat) returns (b: seq<Byte>)
      requires Valid() && totalNumBytes > 0
      requires back <= front && numBytesUsed == totalNumBytes - front + back && front + len >= totalNumBytes
      modifies this`front, this`numBytesUsed, this`numBytesFree
      ensures Valid()
      ensures |b| == if len < old(numBytesUsed) then len else old(numBytesUsed)
      ensures b == old(Contents())[..|b|] && Contents() == old(Contents())[|b|..]
    {
      hide View;
      ghost var was := Contents();
      var endToFront := totalNumBytes - front;
      var leftOver := len - endToFront;
      b := Drain(endToFront);
      if leftOver > 0 {
        var readLen := if leftOver <= back then leftOver else back;
        if readLen > 0 {
          var rest := Drain(readLen);
          hide Contents;
          TakeTwice(was, endToFront, readLen);
          b := b + rest;
        }
      }
    }

    // Remove the first min(len, used) bytes.
    method Read(len: nat) returns (b: seq<Byte>)
      requires Valid()
      modifies this`front, this`numBytesUsed, this`numBytesFree
      ensures Valid()
      ensures |b| == if len < old(numBytesUsed) then len else old(numBytesUsed)
      ensures b == old(Contents())[..|b|] && Contents() == old(Contents())[|b|..]
    {
      if numBytesUsed == 0 {
        return [];
      }
      if len == 1 {
        b := Drain(1);
      } else if back > front {
        var backToFront := back - front;
        b := Drain(if len < backToFront then len else backToFront);
      } else {
        assert front > back || numBytesFree == 0;
        var endToFront := totalNumBytes - front;
        if len < endToFront {
          b := Drain(len);
        } else {
          b := DrainWrapped(len);
        }
      }
    }
  }
}
