/** What a message queue means (source/sosal/queue.c), as a value: the waiting
    messages, the two status flags, the two event flags and the message counter,
    and one function for everything a thread does between locking and unlocking
    the queue's mutex.
 */
module Channel {

  datatype Channel<M> = Channel(msgs: seq<M>, capacity: nat, active: bool, popped: bool, readSet: bool, writeSet: bool,
      count: int) {

    predicate Open() { active && !popped }

    // While the queue is open, the events tell exactly whether there is
    // something to read and room to write.  The second half is what makes that
    // survive a queue being disabled, popped and brought back: an event of a
    // queue that is merely disabled never promises what is not there.
    ghost predicate EventsAgree() {
      && |msgs| <= capacity
      && (Open() ==> (readSet <==> |msgs| > 0) && (writeSet <==> |msgs| < capacity))
      && (!popped ==> (readSet ==> |msgs| > 0) && (writeSet ==> |msgs| < capacity))
    }
  }

  function Created<M>(capacity: nat): Channel<M> {
    Channel([], capacity, true, false, false, true, 0)
  }

  // ---- the mutex sections, in the two halves another thread can tell apart ---

  // Moving the message.  `waited` is what the caller's result holds on the way
  // in: true after a blocking wait, false otherwise.
  function WriteData<M>(c: Channel<M>, waited: bool, m: M): (Channel<M>, bool) {
    if c.Open() then
      if |c.msgs| < c.capacity then (c.(msgs := c.msgs + [m], count := c.count + 1), true) else (c, false)
    else (c, if c.popped then false else waited)
  }

  function ReadData<M>(c: Channel<M>, waited: bool): (Channel<M>, bool, seq<M>) {
    if c.Open() then
      if |c.msgs| > 0 then (c.(msgs := c.msgs[1..], count := c.count - 1), true, [c.msgs[0]]) else (c, false, [])
    else (c, if c.popped then false else waited, [])
  }

  // Bringing the events up to date afterwards.
  function WriteSignal<M>(c: Channel<M>): Channel<M> {
    if c.Open() then c.(writeSet := |c.msgs| < c.capacity, readSet := c.readSet || |c.msgs| > 0) else c
  }

  function ReadSignal<M>(c: Channel<M>): Channel<M> {
    if c.Open() then c.(writeSet := c.writeSet || |c.msgs| < c.capacity, readSet := |c.msgs| > 0) else c
  }

  function Write<M>(c: Channel<M>, waited: bool, m: M): (Channel<M>, bool) {
    var (c', ret) := WriteData(c, waited, m);
    (WriteSignal(c'), ret)
  }

  function Read<M>(c: Channel<M>, waited: bool): (Channel<M>, bool, seq<M>) {
    var (c', ret, got) := ReadData(c, waited);
    (ReadSignal(c'), ret, got)
  }

  function Enable<M>(c: Channel<M>): Channel<M> {
    if c.active then c
    else c.(active := true, writeSet := c.writeSet || |c.msgs| < c.capacity, readSet := c.readSet || |c.msgs| > 0)
  }

  function Disable<M>(c: Channel<M>): Channel<M> {
    if c.active then c.(active := false, readSet := false, writeSet := false) else c
  }

  function Pop<M>(c: Channel<M>): Channel<M> {
    c.(popped := true, readSet := true, writeSet := true)
  }

  function Unpop<M>(c: Channel<M>): Channel<M> {
    c.(popped := false, readSet := |c.msgs| > 0, writeSet := |c.msgs| < c.capacity)
  }

  // A reset makes the queue new, except for the counter.
  function Reset<M>(c: Channel<M>): Channel<M> {
    Created(c.capacity).(count := c.count)
  }

  // ---- runs -----------------------------------------------------------------

  datatype Op<M> = WriteOp(waited: bool, m: M) | ReadOp(waited: bool) | EnableOp | DisableOp | PopOp | UnpopOp | ResetOp

  // A queue with everything that has gone in and come out so far; `sent` and
  // `got` record what the callers were told.
  datatype History<M> = History(c: Channel<M>, sent: seq<M>, got: seq<M>)

  function Do<M>(h: History<M>, op: Op<M>): History<M> {
    match op
    case WriteOp(waited, m) =>
      var (c', ret) := Write(h.c, waited, m);
      h.(c := c', sent := if ret then h.sent + [m] else h.sent)
    case ReadOp(waited) =>
      var (c', _, got) := Read(h.c, waited);
      h.(c := c', got := h.got + got)
    case EnableOp => h.(c := Enable(h.c))
    case DisableOp => h.(c := Disable(h.c))
    case PopOp => h.(c := Pop(h.c))
    case UnpopOp => h.(c := Unpop(h.c))
    case ResetOp => h.(c := Reset(h.c))
  }

  function Run<M>(h: History<M>, ops: seq<Op<M>>): History<M>
    decreases |ops|
  {
    if ops == [] then h else Run(Do(h, ops[0]), ops[1..])
  }

  // A blocking write that got past its wait although the queue is disabled is
  // told "written", and nothing was.
  predicate FalseReceipt<M>(c: Channel<M>, op: Op<M>) {
    op.WriteOp? && op.waited && !c.active && !c.popped
  }

  // A reset throws away what waits.
  predicate Discards<M>(c: Channel<M>, op: Op<M>) {
    op.ResetOp? && c.msgs != []
  }

  ghost predicate HonestRun<M>(h: History<M>, ops: seq<Op<M>>)
    decreases |ops|
  {
    ops != [] ==> !FalseReceipt(h.c, ops[0]) && !Discards(h.c, ops[0]) && HonestRun(Do(h, ops[0]), ops[1..])
  }

  // Whatever is done to a queue with room for a message, in whatever order,
  // its events keep agreeing with its contents.
  lemma {:induction false} EventsAgreeAlways<M>(h: History<M>, ops: seq<Op<M>>)
    requires h.c.capacity > 0 && h.c.EventsAgree()
    ensures Run(h, ops).c.EventsAgree() && Run(h, ops).c.capacity == h.c.capacity
    decreases |ops|
  {
    if ops != [] {
      EventsAgreeAlways(Do(h, ops[0]), ops[1..]);
    }
  }

  // A new queue is open and empty.  Its events agree exactly when it has room at
  // all: the write event starts out set even on a queue for no messages.
  lemma CreatedAgrees<M>(capacity: nat)
    ensures Created<M>(capacity).Open() && Created<M>(capacity).msgs == []
    ensures Created<M>(capacity).EventsAgree() <==> capacity > 0
  {
  }

  // First in, first out: what went in is what came out followed by what is
  // still waiting - over exactly the runs without a false receipt and without a
  // reset that throws messages away.
  lemma {:induction false} Fifo<M>(h: History<M>, ops: seq<Op<M>>)
    requires h.sent == h.got + h.c.msgs
    ensures HonestRun(h, ops) ==> Run(h, ops).sent == Run(h, ops).got + Run(h, ops).c.msgs
    ensures !HonestRun(h, ops) ==> |Run(h, ops).sent| > |Run(h, ops).got| + |Run(h, ops).c.msgs|
    decreases |ops|
  {
    if ops != [] {
      FifoStep(h, ops[0]);
      if FalseReceipt(h.c, ops[0]) || Discards(h.c, ops[0]) {
        NeverMadeUp(Do(h, ops[0]), ops[1..]);
      } else {
        Fifo(Do(h, ops[0]), ops[1..]);
      }
    }
  }

  lemma FifoStep<M>(h: History<M>, op: Op<M>)
    requires h.sent == h.got + h.c.msgs
    ensures !FalseReceipt(h.c, op) && !Discards(h.c, op) ==> Do(h, op).sent == Do(h, op).got + Do(h, op).c.msgs
    ensures FalseReceipt(h.c, op) || Discards(h.c, op) ==> |Do(h, op).sent| > |Do(h, op).got| + |Do(h, op).c.msgs|
  {
    if op.ReadOp? && h.c.Open() && |h.c.msgs| > 0 {
      assert h.c.msgs == [h.c.msgs[0]] + h.c.msgs[1..];
    }
  }

  // A receipt without a message is never made good later.
  lemma {:induction false} NeverMadeUp<M>(h: History<M>, ops: seq<Op<M>>)
    requires |h.sent| > |h.got| + |h.c.msgs|
    ensures |Run(h, ops).sent| > |Run(h, ops).got| + |Run(h, ops).c.msgs|
    decreases |ops|
  {
    if ops != [] {
      NeverMadeUp(Do(h, ops[0]), ops[1..]);
    }
  }

  // ---- the message counter ----------------------------------------------------

  // What the resets of a run have thrown away.
  function Discarded<M>(h: History<M>, ops: seq<Op<M>>): nat
    decreases |ops|
  {
    if ops == [] then 0
    else (if ops[0].ResetOp? then |h.c.msgs| else 0) + Discarded(Do(h, ops[0]), ops[1..])
  }

  ghost predicate ResetsOnlyEmpty<M>(h: History<M>, ops: seq<Op<M>>)
    decreases |ops|
  {
    ops != [] ==> !Discards(h.c, ops[0]) && ResetsOnlyEmpty(Do(h, ops[0]), ops[1..])
  }

  // The counter is too high by just that, for good.
  lemma {:induction false} CountDrifts<M>(h: History<M>, ops: seq<Op<M>>)
    ensures Run(h, ops).c.count == |Run(h, ops).c.msgs| + (h.c.count - |h.c.msgs|) + Discarded(h, ops)
    ensures Discarded(h, ops) == 0 <==> ResetsOnlyEmpty(h, ops)
    decreases |ops|
  {
    if ops != [] {
      CountDrifts(Do(h, ops[0]), ops[1..]);
    }
  }

  // Over every run of a new queue the counter is the number of waiting messages
  // if and only if every reset so far has met an empty queue.
  lemma CountIsLength<M>(capacity: nat, ops: seq<Op<M>>)
    ensures var h := History(Created(capacity), [], []);
            Run(h, ops).c.count == |Run(h, ops).c.msgs| <==> ResetsOnlyEmpty(h, ops)
  {
    CountDrifts(History(Created(capacity), [], []), ops);
  }

  // The shortest run that goes wrong: write, reset.
  lemma WriteThenReset<M>(m: M)
    ensures var h := Run(History(Created(1), [], []), [WriteOp(false, m), ResetOp]);
            h.c.msgs == [] && h.c.count == 1
  {
    var h := History(Created(1), [], []);
    var ops := [WriteOp(false, m), ResetOp];
    assert ops[1..] == [ResetOp] && ops[1..][1..] == [];
    var h1 := Do(h, ops[0]);
    assert Run(h, ops) == Run(h1, [ResetOp]);
    assert Run(h1, [ResetOp]) == Run(Do(h1, ResetOp), []);
  }

  // ---- which calls move a message ---------------------------------------------

  function Reads<M>(waits: seq<bool>): seq<Op<M>> {
    seq(|waits|, i requires 0 <= i < |waits| => ReadOp(waits[i]))
  }

  function Writes<M>(waits: seq<bool>, ms: seq<M>): seq<Op<M>>
    requires |waits| == |ms|
  {
    seq(|ms|, i requires 0 <= i < |ms| => WriteOp(waits[i], ms[i]))
  }

  lemma RunFirst<M>(h: History<M>, op: Op<M>, ops: seq<Op<M>>)
    ensures Run(h, [op] + ops) == Run(Do(h, op), ops)
  {
    assert ([op] + ops)[1..] == ops;
  }

  // At most the first n.
  function First<M>(s: seq<M>, n: nat): seq<M> { if n < |s| then s[..n] else s }

  function Behind<M>(s: seq<M>, n: nat): seq<M> { if n < |s| then s[n..] else [] }

  lemma OneThenMore<M>(s: seq<M>, n: nat)
    requires n > 0 && s != []
    ensures First(s, n) == [s[0]] + First(s[1..], n - 1) && Behind(s, n) == Behind(s[1..], n - 1)
  {
  }

  // An open queue gives its messages to as many reads as there are messages, in
  // order, whether they wait or not; every read behind these fails.
  lemma ReadsDrain<M>(h: History<M>, waits: seq<bool>, waited: bool)
    requires h.c.Open()
    ensures var (n, t) := (|waits|, Run(h, Reads(waits)));
            && t.got == h.got + First(h.c.msgs, n) && t.c.msgs == Behind(h.c.msgs, n)
            && Read(t.c, waited).1 == (n < |h.c.msgs|)
            && Read(t.c, waited).2 == (if n < |h.c.msgs| then [h.c.msgs[n]] else [])
  {
    ReadMany(h, waits);
  }

  lemma {:induction false} ReadMany<M>(h: History<M>, waits: seq<bool>)
    requires h.c.Open()
    ensures var (n, t) := (|waits|, Run(h, Reads(waits)));
            t.c.Open() && t.got == h.got + First(h.c.msgs, n) && t.c.msgs == Behind(h.c.msgs, n)
    decreases |waits|
  {
    hide Do, Run, Reads;
    if waits == [] {
      NothingToRead<M>(h);
    } else {
      var h' := Do(h, ReadOp(waits[0]));
      OneRead(h, waits[0]);
      ReadMany(h', waits[1..]);
      ReadsNext<M>(waits);
      RunFirst(h, ReadOp(waits[0]), Reads(waits[1..]));
      if h.c.msgs != [] { OneThenMore(h.c.msgs, |waits|); }
    }
  }

  lemma NothingToRead<M>(h: History<M>)
    ensures Run(h, Reads([])) == h
  {
    assert Reads<M>([]) == [];
  }

  lemma ReadsNext<M>(waits: seq<bool>)
    requires waits != []
    ensures Reads<M>(waits) == [ReadOp(waits[0])] + Reads(waits[1..])
  {
  }

  lemma OneRead<M>(h: History<M>, waited: bool)
    requires h.c.Open()
    ensures var h' := Do(h, ReadOp(waited));
            && h'.c.Open()
            && h'.c.msgs == (if h.c.msgs == [] then [] else h.c.msgs[1..])
            && h'.got == h.got + (if h.c.msgs == [] then [] else [h.c.msgs[0]])
  {
  }

  // An open queue takes messages as long as there is room, whether the writes wait
  // or not; every write behind these fails.
  lemma WritesFill<M>(h: History<M>, waits: seq<bool>, ms: seq<M>, waited: bool, m: M)
    requires h.c.Open() && |h.c.msgs| <= h.c.capacity && |waits| == |ms|
    ensures var (room, t) := (h.c.capacity - |h.c.msgs|, Run(h, Writes(waits, ms)));
            && t.sent == h.sent + First(ms, room) && t.c.msgs == h.c.msgs + First(ms, room)
            && Write(t.c, waited, m).1 == (|ms| < room)
  {
    WriteMany(h, waits, ms);
  }

  lemma {:induction false} WriteMany<M>(h: History<M>, waits: seq<bool>, ms: seq<M>)
    requires h.c.Open() && |h.c.msgs| <= h.c.capacity && |waits| == |ms|
    ensures var (taken, t) := (First(ms, h.c.capacity - |h.c.msgs|), Run(h, Writes(waits, ms)));
            t.c.Open() && t.c.capacity == h.c.capacity && t.sent == h.sent + taken && t.c.msgs == h.c.msgs + taken
    decreases |ms|
  {
    hide Do, Run, Writes;
    if ms == [] {
      NothingToWrite(h, waits, ms);
    } else {
      var op := WriteOp(waits[0], ms[0]);
      OneWrite(h, waits[0], ms[0]);
      WriteMany(Do(h, op), waits[1..], ms[1..]);
      WritesNext(waits, ms);
      RunFirst(h, op, Writes(waits[1..], ms[1..]));
      var room := h.c.capacity - |h.c.msgs|;
      if room > 0 { OneThenMore(ms, room); }
    }
  }

  lemma NothingToWrite<M>(h: History<M>, waits: seq<bool>, ms: seq<M>)
    requires |waits| == |ms| == 0
    ensures Run(h, Writes(waits, ms)) == h
  {
    assert Writes(waits, ms) == [];
  }

  lemma WritesNext<M>(waits: seq<bool>, ms: seq<M>)
    requires |waits| == |ms| > 0
    ensures Writes(waits, ms) == [WriteOp(waits[0], ms[0])] + Writes(waits[1..], ms[1..])
  {
  }

  lemma OneWrite<M>(h: History<M>, waited: bool, m: M)
    requires h.c.Open() && |h.c.msgs| <= h.c.capacity
    ensures var (h', more) := (Do(h, WriteOp(waited, m)), if |h.c.msgs| < h.c.capacity then [m] else []);
            && h'.c.Open() && h'.c.capacity == h.c.capacity
            && h'.c.msgs == h.c.msgs + more && h'.sent == h.sent + more
  {
  }

  // Reads and writes change nothing on a queue that is not open; what a write is
  // told depends on the pop and on its wait alone.
  ghost predicate OnlyTransfers<M>(ops: seq<Op<M>>) {
    forall i {:trigger ops[i]} :: 0 <= i < |ops| ==> ops[i].ReadOp? || ops[i].WriteOp?
  }

  lemma {:induction false} ClosedIsStill<M>(h: History<M>, ops: seq<Op<M>>, waited: bool, m: M)
    requires !h.c.Open() && OnlyTransfers(ops)
    ensures Run(h, ops).c == h.c && Run(h, ops).got == h.got
    ensures Write(h.c, waited, m).1 == Read(h.c, waited).1 == (waited && !h.c.popped)
    decreases |ops|
  {
    if ops != [] {
      ClosedIsStill(Do(h, ops[0]), ops[1..], waited, m);
    }
  }

  // Disabling an open queue lets nobody through, popping it lets everybody through
  // and fails them; and whatever readers and writers try meanwhile, enabling it
  // again, or taking the pop back, gives back the queue there was.  So do both, in
  // either order.
  lemma ClosedLeavesNoTrace<M>(h: History<M>, ops: seq<Op<M>>, waited: bool, m: M)
    requires h.c.Open() && h.c.EventsAgree() && OnlyTransfers(ops)
    ensures var t := Run(h.(c := Disable(h.c)), ops);
            !t.c.readSet && !t.c.writeSet && t.got == h.got && Enable(t.c) == h.c
    ensures var t := Run(h.(c := Pop(h.c)), ops);
            && t.c.readSet && t.c.writeSet && t.got == h.got && Unpop(t.c) == h.c
            && !Read(t.c, waited).1 && !Write(t.c, waited, m).1
    ensures Unpop(Enable(Pop(Disable(h.c)))) == h.c && Enable(Unpop(Disable(Pop(h.c)))) == h.c
  {
    ClosedIsStill(h.(c := Disable(h.c)), ops, waited, m);
    ClosedIsStill(h.(c := Pop(h.c)), ops, waited, m);
  }

  // Behind a reset, everything goes as on a new queue, but for the counter.
  lemma ResetIsNew<M>(h: History<M>, ops: seq<Op<M>>)
    ensures Run(Do(h, ResetOp), ops) == Counted(Run(History(Created(h.c.capacity), h.sent, h.got), ops), h.c.count)
  {
    var young := History(Created(h.c.capacity), h.sent, h.got);
    CounterApart(young, h.c.count, ops);
    assert Do(h, ResetOp) == Counted(young, h.c.count);
  }

  // Nothing but the counter depends on the counter.
  function Counted<M>(h: History<M>, d: int): History<M> { h.(c := h.c.(count := h.c.count + d)) }

  lemma CountedStep<M>(h: History<M>, d: int, op: Op<M>)
    ensures Do(Counted(h, d), op) == Counted(Do(h, op), d)
  {
    match op
    case WriteOp(waited, m) => hide Read, Enable, Disable, Pop, Unpop, Reset;
    case ReadOp(waited) => hide Write, Enable, Disable, Pop, Unpop, Reset;
    case _ => hide Write, Read;
  }

  lemma {:induction false} CounterApart<M>(h: History<M>, d: int, ops: seq<Op<M>>)
    ensures Run(Counted(h, d), ops) == Counted(Run(h, ops), d)
    decreases |ops|
  {
    hide Do, Counted;
    if ops != [] {
      CountedStep(h, d, ops[0]);
      CounterApart(Do(h, ops[0]), d, ops[1..]);
    }
  }

  // ---- returns without a transfer -----------------------------------------------

  // When a section tells its caller "true" although nothing moved.
  lemma TrueWithoutTransfer<M>(c: Channel<M>, waited: bool, m: M)
    ensures Write(c, waited, m).1 && Write(c, waited, m).0.msgs == c.msgs <==> waited && !c.active && !c.popped
    ensures Read(c, waited).1 && Read(c, waited).2 == [] <==> waited && !c.active && !c.popped
  {
    assert |c.msgs + [m]| != |c.msgs|;
  }

  // Such a run: the reader passes its wait, the queue is disabled, the reader
  // gets the lock - and reports a message it does not have.
  lemma DisableBetweenWaitAndLock<M>(m: M)
    ensures var c := Write(Created<M>(1), false, m).0;
            c.readSet && Read(Disable(c), c.readSet).1 && Read(Disable(c), c.readSet).2 == []
  {
    var c := Write(Created<M>(1), false, m).0;
    assert c.msgs == [m];
  }

  // The disabling need not fall into the call: popping and unpopping a disabled
  // queue sets its read event again, and a reader who calls only then passes its
  // wait and reports a message it does not have.
  lemma DisableBeforeTheCall<M>(m: M)
    ensures var c := Unpop(Pop(Disable(Write(Created<M>(1), false, m).0)));
            c.readSet && Read(c, c.readSet).1 && Read(c, c.readSet).2 == []
  {
    var c := Write(Created<M>(1), false, m).0;
    assert c.msgs == [m];
  }

  // Popping and taking the pop back changes nothing on a queue whose events
  // agreed and which was open.
  lemma UnpopUndoesPop<M>(c: Channel<M>)
    requires c.EventsAgree() && c.Open()
    ensures Unpop(Pop(c)) == c
  {
  }
}
