/** The message queue (source/sosal/queue.c): a byte ring cut into messages,
    gated by two manual-reset events.

    Each method is what happens between locking and unlocking the queue's mutex;
    `waited` tells a caller that comes from a blocking wait from one that does
    not.  The waits themselves are steps of the protocol in ThreadPool.dfy.
 */
module Queue {
  import opened Arithmetic
  import opened Bytes
  import opened Ring
  import opened Event
  import Channel

  // ---- messages and bytes ---------------------------------------------------

  ghost function Flatten(msgs: seq<seq<Byte>>): seq<Byte> {
    if msgs == [] then [] else msgs[0] + Flatten(msgs[1..])
  }

  ghost predicate Sized(msgs: seq<seq<Byte>>, size: nat) {
    forall m <- msgs :: |m| == size
  }

  lemma {:induction false} FlattenAppend(msgs: seq<seq<Byte>>, m: seq<Byte>)
    ensures Flatten(msgs + [m]) == Flatten(msgs) + m
  {
    if msgs == [] {
      assert [m][1..] == [];
    } else {
      FlattenAppend(msgs[1..], m);
      assert (msgs + [m])[1..] == msgs[1..] + [m];
    }
  }

  lemma {:induction false} FlattenLength(msgs: seq<seq<Byte>>, size: nat)
    requires Sized(msgs, size)
    ensures |Flatten(msgs)| == |msgs| * size
  {
    if msgs != [] {
      FlattenLength(msgs[1..], size);
      Step(|msgs|, size);
    }
  }

  // The first `size` bytes are the first message, whole.
  lemma FlattenHead(msgs: seq<seq<Byte>>, size: nat)
    requires Sized(msgs, size) && msgs != []
    ensures |Flatten(msgs)| >= size
    ensures Flatten(msgs)[..size] == msgs[0] && Flatten(msgs)[size..] == Flatten(msgs[1..])
  {
  }

  // A message fits into the free bytes exactly when a message slot is free, and
  // bytes are free exactly then, too.
  lemma Slots(count: nat, capacity: nat, size: nat)
    requires size > 0 && count <= capacity
    ensures count * size <= capacity * size
    ensures size <= capacity * size - count * size <==> count < capacity
    ensures 0 < capacity * size - count * size <==> count < capacity
    ensures 0 < count * size <==> 0 < count
  {
    var rest := capacity - count;
    assert capacity * size == count * size + rest * size;
    Step(rest, size);
    Step(count, size);
  }

  class Queue {
    const msgSize: nat
    const numMsgs: nat
    var active: bool
    var popped: bool
    var msgCount: int
    var ringb: RingBuffer
    const readEvent: Event
    const writeEvent: Event

    ghost var Msgs: seq<seq<Byte>>

    ghost predicate Valid()
      reads this, ringb, ringb.start
    {
      && ringb.Valid() && ringb.totalNumBytes == numMsgs * msgSize
      && |Msgs| <= Capacity() && (msgSize > 0 ==> |Msgs| <= msgCount)
      && Sized(Msgs, msgSize) && ringb.Contents() == Flatten(Msgs)
      && readEvent != writeEvent && !readEvent.autoreset && !writeEvent.autoreset
    }

    // A ring for messages of no bytes has no room at all.
    ghost function Capacity(): nat { if msgSize > 0 then numMsgs else 0 }

    ghost function View(): Channel.Channel<seq<Byte>>
      reads this, readEvent, writeEvent
    {
      Channel.Channel(Msgs, Capacity(), active, popped, readEvent.isSet, writeEvent.isSet, msgCount)
    }

    constructor (numMsgs: nat, msgSize: nat)
      ensures Valid() && fresh(ringb) && fresh(ringb.start) && fresh(readEvent) && fresh(writeEvent)
      ensures this.numMsgs == numMsgs && this.msgSize == msgSize
      ensures View() == Channel.Created(Capacity())
    {
      this.msgSize, this.numMsgs := msgSize, numMsgs;
      active, popped, msgCount := true, false, 0;
      readEvent := new Event(false);
      writeEvent := new Event(false);
      ringb := new RingBuffer(numMsgs * msgSize);
      Msgs := [];
      new;
      writeEvent.Set();
      readEvent.Reset();
    }

    // The bytes of the ring, in messages.
    lemma Occupancy()
      requires Valid()
      ensures ringb.numBytesUsed == |Msgs| * msgSize
      ensures ringb.numBytesFree == numMsgs * msgSize - |Msgs| * msgSize
      ensures msgSize > 0 ==> (msgSize <= ringb.numBytesFree <==> |Msgs| < numMsgs)
      ensures 0 < ringb.numBytesFree <==> |Msgs| < Capacity()
      ensures 0 < ringb.numBytesUsed <==> 0 < |Msgs|
    {
      FlattenLength(Msgs, msgSize);
      if msgSize > 0 {
        Slots(|Msgs|, numMsgs, msgSize);
      }
    }

    method Length() returns (length: int)
      requires Valid()
      ensures length == View().count
    {
      length := msgCount;
    }

    // `ok` is false when the ring's own assertion fails.
    method Put(datum: seq<Byte>) returns (ret: bool, ok: bool)
      requires Valid() && |datum| == msgSize
      modifies this`Msgs, this`msgCount, ringb, ringb.start
      ensures Valid() && (ok <==> msgSize > 0)
      ensures ret == (|old(Msgs)| < Capacity())
      ensures Msgs == if ret then old(Msgs) + [datum] else old(Msgs)
      ensures msgCount - |Msgs| == old(msgCount - |Msgs|)
    {
      Occupancy();
      FlattenAppend(Msgs, datum);
      var r;
      r, ok := ringb.Write(datum);
      ret := ok && r == msgSize;
      if ret {
        msgCount := msgCount + 1;
        Msgs := Msgs + [datum];
      }
    }

    // From a ring without room a message of no bytes can always be read.
    method Take() returns (ret: bool, datum: seq<Byte>)
      requires Valid()
      modifies this`Msgs, this`msgCount, ringb
      ensures Valid() && ret == (msgSize == 0 || |old(Msgs)| > 0)
      ensures |old(Msgs)| > 0 ==> datum == old(Msgs)[0] && |datum| == msgSize && Msgs == old(Msgs)[1..]
      ensures |old(Msgs)| == 0 ==> datum == [] && Msgs == old(Msgs)
      ensures msgCount == old(msgCount) - if ret then 1 else 0
    {
      Occupancy();
      if Msgs != [] { FlattenHead(Msgs, msgSize); }
      datum := ringb.Read(msgSize);
      ret := |datum| == msgSize;
      if ret {
        msgCount := msgCount - 1;
        Msgs := if Msgs == [] then [] else Msgs[1..];
      }
    }

    // `ok` is false when the program stops at the ring's assertion.
    method Write(waited: bool, datum: seq<Byte>) returns (ret: bool, ok: bool)
      requires Valid() && |datum| == msgSize
      modifies this`Msgs, this`msgCount, ringb, ringb.start, readEvent, writeEvent
      ensures Valid() && (ok <==> msgSize > 0 || !old(View()).Open())
      ensures ok ==> (View(), ret) == Channel.Write(old(View()), waited, datum)
    {
      hide Flatten, Sized, RingBuffer.Valid, RingBuffer.Contents;
      ret, ok := waited, true;
      if active && !popped {
        ret, ok := Put(datum);
        if !ok {
          return;
        }
        Occupancy();
        if ringb.numBytesFree > 0 {
          writeEvent.Set();
        } else if ringb.numBytesFree == 0 {
          writeEvent.Reset();
        }
        if ringb.numBytesUsed > 0 {
          readEvent.Set();
        }
      } else if popped {
        ret := false;
      }
    }

    // A message of no bytes is read although there is none, and counted.
    method Read(waited: bool) returns (ret: bool, datum: seq<Byte>)
      requires Valid()
      modifies this`Msgs, this`msgCount, ringb, readEvent, writeEvent
      ensures Valid()
      ensures msgSize > 0 || !old(View()).Open() ==>
                (View(), ret, if datum == [] then [] else [datum]) == Channel.Read(old(View()), waited)
      ensures msgSize == 0 && old(View()).Open() ==>
                ret && datum == [] && View() == Channel.ReadSignal(old(View())).(count := old(msgCount) - 1)
    {
      hide Flatten, Sized, RingBuffer.Valid, RingBuffer.Contents;
      ret, datum := waited, [];
      if active && !popped {
        ret, datum := Take();
        Occupancy();
        if ringb.numBytesFree > 0 {
          writeEvent.Set();
        }
        if ringb.numBytesUsed > 0 {
          readEvent.Set();
        } else if ringb.numBytesUsed == 0 {
          readEvent.Reset();
        }
      } else if popped {
        ret := false;
      }
    }

    method Enable()
      requires Valid()
      modifies this`active, readEvent, writeEvent
      ensures Valid() && View() == Channel.Enable(old(View()))
    {
      hide Flatten, Sized, RingBuffer.Valid, RingBuffer.Contents;
      Occupancy();
      if !active {
        if ringb.numBytesFree > 0 {
          writeEvent.Set();
        }
        if ringb.numBytesUsed > 0 {
          readEvent.Set();
        }
        active := true;
      }
    }

    method Disable()
      requires Valid()
      modifies this`active, readEvent, writeEvent
      ensures Valid() && View() == Channel.Disable(old(View()))
    {
      if active {
        readEvent.Reset();
        writeEvent.Reset();
        active := false;
      }
    }

    method Pop()
      requires Valid()
      modifies this`popped, readEvent, writeEvent
      ensures Valid() && View() == Channel.Pop(old(View()))
    {
      popped := true;
      readEvent.Set();
      writeEvent.Set();
    }

    method Unpop()
      requires Valid()
      modifies this`popped, readEvent, writeEvent
      ensures Valid() && View() == Channel.Unpop(old(View()))
    {
      hide Flatten, Sized, RingBuffer.Valid, RingBuffer.Contents;
      Occupancy();
      popped := false;
      readEvent.Reset();
      writeEvent.Reset();
      if ringb.numBytesFree > 0 {
        writeEvent.Set();
      }
      if ringb.numBytesUsed > 0 {
        readEvent.Set();
      }
    }

    // A reset throws the messages away but not their count.
    method Reset()
      requires Valid()
      modifies this, readEvent, writeEvent
      ensures Valid() && fresh(ringb) && fresh(ringb.start)
      ensures View() == Channel.Reset(old(View()))
    {
      active := true;
      popped := false;
      ringb := new RingBuffer(numMsgs * msgSize);
      Msgs := [];
      writeEvent.Set();
      readEvent.Reset();
    }
  }
}
