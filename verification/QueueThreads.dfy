/** One message queue (source/sosal/queue.c) under one reader and any number of
    writers, blocking or not, popped, unpopped, disabled and enabled at any time: a
    state machine over atomic steps.  Nothing resets the queue.

    An event wait looks at its event without the queue's mutex, so a mutex section
    that moves a message is two steps, and queue_unpop is three: it takes the flag
    back, then clears both events, then sets them as the contents say.  Pop, enable
    and disable move both events the same way and are one step each: a wait that
    passes between the two events could as well have passed before or behind both.
 */
module QueueThreads {
  import opened Channel

  datatype Lock = Unlocked | ByReader | ByWriter(i: nat) | Unpopping(cleared: bool)

  datatype ReaderPc<M> =
    | Outside
    | Waiting                                             // in the event wait of a blocking read
    | AtLock(blocking: bool)                              // before the mutex
    | Reading(back: Return<M>)                            // inside, message moved

  datatype WriterPc<M> =
    | Idle
    | Awaiting(m: M)                                      // in the event wait of a blocking write
    | Entering(waited: bool, m: M)                        // before the mutex
    | Writing(back: Receipt<M>)                           // inside, message moved

  // What a read comes back with: its result, its message if any, and the queue as
  // it found it when it got the mutex.
  datatype Return<M> = Return(blocking: bool, ret: bool, got: seq<M>, found: Channel<M>)

  // The same for a write.
  datatype Receipt<M> = Receipt(blocking: bool, m: M, ret: bool, found: Channel<M>)

  // A read that has returned: whether the queue was popped at some moment of the
  // call, and whether the call began on a stale event.
  datatype Finished<M> = Finished(back: Return<M>, popSeen: bool, stale: bool)

  datatype State<M> = State(
    queue: Channel<M>, lock: Lock, reader: ReaderPc<M>, writers: seq<WriterPc<M>>,
    woken: bool,                  // popped, and the events not cleared since
    popSeen: bool, stale: bool,   // of the reader's call, as in Finished
    sent: seq<M>, got: seq<M>,    // what writers were told went in, what came out
    unsent: nat,                  // how often a writer was told so and nothing had
    done: seq<Finished<M>>, written: seq<Receipt<M>>)

  ghost predicate Initial<M>(s: State<M>, capacity: nat) {
    && s.queue == Created(capacity) && s.lock == Unlocked && s.reader == Outside
    && (forall i {:trigger s.writers[i]} | 0 <= i < |s.writers| :: s.writers[i] == Idle)
    && !s.woken && !s.popSeen && !s.stale
    && s.sent == [] && s.got == [] && s.unsent == 0 && s.done == [] && s.written == []
  }

  // The read event is set although there is neither a message nor a pop.
  predicate StaleEvent<M>(s: State<M>) {
    s.queue.readSet && !s.queue.popped && s.queue.msgs == []
  }

  // ---- the steps ----------------------------------------------------------------

  datatype Action<M> =
    | BeginRead(blocking: bool) | PassReadWait | LockRead | SignalRead
    | BeginWrite(i: nat, m: M, blocking: bool) | PassWriteWait(i: nat) | LockWrite(i: nat) | SignalWrite(i: nat)
    | PopQueue | UnpopFlag | UnpopClear | UnpopSet | DisableQueue | EnableQueue

  predicate Enabled<M>(s: State<M>, a: Action<M>) {
    match a
    case BeginRead(_) => s.reader.Outside?
    case PassReadWait => s.reader.Waiting? && s.queue.readSet
    case LockRead => s.reader.AtLock? && s.lock.Unlocked?
    case SignalRead => s.reader.Reading?
    case BeginWrite(i, _, _) => i < |s.writers| && s.writers[i].Idle?
    case PassWriteWait(i) => i < |s.writers| && s.writers[i].Awaiting? && s.queue.writeSet
    case LockWrite(i) => i < |s.writers| && s.writers[i].Entering? && s.lock.Unlocked?
    case SignalWrite(i) => i < |s.writers| && s.writers[i].Writing?
    case UnpopClear => s.lock.Unpopping? && !s.lock.cleared
    case UnpopSet => s.lock.Unpopping? && s.lock.cleared
    case _ => s.lock.Unlocked?
  }

  // What the step does to the queue, the mutex and the threads.
  function Move<M>(s: State<M>, a: Action<M>): State<M>
    requires Enabled(s, a)
  {
    match a
    case BeginRead(blocking) => s.(reader := if blocking then Waiting else AtLock(false))
    case PassReadWait => s.(reader := AtLock(true))
    case LockRead =>
      var (queue, ret, got) := ReadData(s.queue, s.reader.blocking);
      var back := Return(s.reader.blocking, ret, got, s.queue);
      s.(queue := queue, lock := ByReader, reader := Reading(back), got := s.got + got)
    case SignalRead =>
      s.(queue := ReadSignal(s.queue), lock := Unlocked, reader := Outside,
         done := s.done + [Finished(s.reader.back, s.popSeen, s.stale)])
    case BeginWrite(i, m, blocking) =>
      s.(writers := s.writers[i := if blocking then Awaiting(m) else Entering(false, m)])
    case PassWriteWait(i) => s.(writers := s.writers[i := Entering(true, s.writers[i].m)])
    case LockWrite(i) =>
      var Entering(waited, m) := s.writers[i];
      var (queue, ret) := WriteData(s.queue, waited, m);
      s.(queue := queue, lock := ByWriter(i), writers := s.writers[i := Writing(Receipt(waited, m, ret, s.queue))],
         sent := if ret then s.sent + [m] else s.sent,
         unsent := if ret && |queue.msgs| == |s.queue.msgs| then s.unsent + 1 else s.unsent)
    case SignalWrite(i) =>
      s.(queue := WriteSignal(s.queue), lock := Unlocked, writers := s.writers[i := Idle],
         written := s.written + [s.writers[i].back])
    case PopQueue => s.(queue := Pop(s.queue))
    case UnpopFlag => s.(queue := s.queue.(popped := false), lock := Unpopping(false))
    case UnpopClear => s.(queue := s.queue.(readSet := false, writeSet := false), lock := Unpopping(true))
    case UnpopSet => s.(queue := Unpop(s.queue), lock := Unlocked)
    case DisableQueue => s.(queue := Disable(s.queue))
    case EnableQueue => s.(queue := Enable(s.queue))
  }

  // ... and to what is remembered of it.
  function Next<M>(s: State<M>, a: Action<M>): State<M>
    requires Enabled(s, a)
  {
    var t := Move(s, a);
    t.(woken := a.PopQueue? || (s.woken && !a.UnpopClear? && !(a.DisableQueue? && s.queue.active)),
       popSeen := t.queue.popped || (s.popSeen && !a.BeginRead?),
       stale := if a.BeginRead? then StaleEvent(s) else s.stale)
  }

  ghost predicate Reaches<M>(s: State<M>, actions: seq<Action<M>>, t: State<M>)
    decreases |actions|
  {
    if actions == [] then s == t
    else Enabled(s, actions[0]) && Reaches(Next(s, actions[0]), actions[1..], t)
  }

  // ---- the invariant ------------------------------------------------------------

  // Somebody inside the mutex is about to bring the events up to date.
  predicate Updating<M>(s: State<M>) {
    s.lock.Unpopping? || ((s.lock.ByReader? || s.lock.ByWriter?) && s.queue.Open())
  }

  // A set read event promises a message to the one reader, except while the reader
  // takes the last one or a pop shows in the events; and what there is to read or
  // room to write on an active queue is never long without its event.
  ghost predicate EventOk<M>(s: State<M>) {
    && |s.queue.msgs| <= s.queue.capacity
    && (s.queue.popped ==> !s.lock.Unpopping?)
    && (s.woken ==> s.queue.readSet && s.queue.writeSet && (s.queue.popped || s.lock == Unpopping(false)))
    && (s.queue.readSet && s.queue.msgs == [] ==> s.woken || (s.lock.ByReader? && s.queue.Open()))
    && (s.queue.active && s.queue.msgs != [] ==> s.queue.readSet || Updating(s))
    && (s.queue.active && |s.queue.msgs| < s.queue.capacity ==> s.queue.writeSet || Updating(s))
  }

  // A queue that is disabled and not popped lets whoever has waited believe so.
  predicate Off<M>(c: Channel<M>) { !c.active && !c.popped }

  // A read takes the first message if the queue it finds is active, not popped and
  // not empty.
  ghost predicate Reads<M>(r: Return<M>) {
    && r.got == (if r.found.active && !r.found.popped && r.found.msgs != [] then [r.found.msgs[0]] else [])
    && (r.ret <==> r.got != [] || (r.blocking && Off(r.found)))
  }

  // A write is accepted if the queue it finds is active, not popped and has room.
  ghost predicate Writes<M>(r: Receipt<M>) {
    r.ret <==>
      || (r.found.active && !r.found.popped && |r.found.msgs| < r.found.capacity)
      || (r.blocking && Off(r.found))
  }

  // What a read may come back with, if the excuse for failing holds or not.
  ghost predicate ReturnOk<M>(r: Return<M>, excused: bool) {
    Reads(r) && (r.blocking && !r.ret ==> excused)
  }

  ghost predicate ReaderOk<M>(s: State<M>) {
    && (s.queue.popped ==> s.popSeen)
    && (s.lock == ByReader <==> s.reader.Reading?)
    && match s.reader
       case Outside => true
       case Waiting => s.queue.readSet && s.queue.msgs == [] ==> s.popSeen || s.stale
       case AtLock(blocking) => blocking && s.queue.msgs == [] ==> s.popSeen || s.stale
       case Reading(back) => ReturnOk(back, s.popSeen || s.stale)
  }

  ghost predicate WritersOk<M>(s: State<M>) {
    && (s.lock.ByWriter? ==> s.lock.i < |s.writers|)
    && (forall i {:trigger s.writers[i]} | 0 <= i < |s.writers| :: s.writers[i].Writing? <==> s.lock == ByWriter(i))
    && (forall i {:trigger s.writers[i]} | 0 <= i < |s.writers| && s.writers[i].Writing? :: Writes(s.writers[i].back))
  }

  ghost predicate OrderOk<M>(s: State<M>) {
    && |s.sent| == |s.got| + |s.queue.msgs| + s.unsent
    && (s.unsent == 0 ==> s.sent == s.got + s.queue.msgs)
  }

  ghost predicate Honest<M>(f: Finished<M>) { ReturnOk(f.back, f.popSeen || f.stale) }

  ghost predicate Inv<M>(s: State<M>) {
    EventOk(s) && ReaderOk(s) && WritersOk(s) && OrderOk(s)
    && (forall f <- s.done :: Honest(f)) && (forall r <- s.written :: Writes(r))
  }

  lemma InitialInv<M>(s: State<M>, capacity: nat)
    requires Initial(s, capacity)
    ensures Inv(s)
  {
  }

  predicate IsRead<M>(a: Action<M>) { a.BeginRead? || a.PassReadWait? || a.LockRead? || a.SignalRead? }

  predicate IsWrite<M>(a: Action<M>) { a.BeginWrite? || a.PassWriteWait? || a.LockWrite? || a.SignalWrite? }

  lemma ReaderEvents<M>(s: State<M>, a: Action<M>)
    requires EventOk(s) && ReaderOk(s) && WritersOk(s) && Enabled(s, a) && IsRead(a)
    ensures EventOk(Next(s, a))
  {
  }

  lemma WriterEvents<M>(s: State<M>, a: Action<M>)
    requires EventOk(s) && ReaderOk(s) && WritersOk(s) && Enabled(s, a) && IsWrite(a)
    ensures EventOk(Next(s, a))
  {
  }

  lemma ControlEvents<M>(s: State<M>, a: Action<M>)
    requires EventOk(s) && Enabled(s, a) && !IsRead(a) && !IsWrite(a)
    ensures EventOk(Next(s, a))
  {
  }

  lemma StepEvents<M>(s: State<M>, a: Action<M>)
    requires EventOk(s) && ReaderOk(s) && WritersOk(s) && Enabled(s, a)
    ensures EventOk(Next(s, a))
  {
    hide EventOk, ReaderOk, WritersOk, Enabled, Next;
    if IsRead(a) {
      ReaderEvents(s, a);
    } else if IsWrite(a) {
      WriterEvents(s, a);
    } else {
      ControlEvents(s, a);
    }
  }

  lemma StepReader<M>(s: State<M>, a: Action<M>)
    requires ReaderOk(s) && WritersOk(s) && Enabled(s, a)
    ensures ReaderOk(Next(s, a))
  {
  }

  lemma StepWriters<M>(s: State<M>, a: Action<M>)
    requires ReaderOk(s) && WritersOk(s) && Enabled(s, a)
    ensures WritersOk(Next(s, a))
  {
  }

  lemma StepOrder<M>(s: State<M>, a: Action<M>)
    requires OrderOk(s) && Enabled(s, a)
    ensures OrderOk(Next(s, a))
  {
    if a.LockRead? && s.queue.Open() && s.queue.msgs != [] {
      assert s.queue.msgs == [s.queue.msgs[0]] + s.queue.msgs[1..];
    }
    if a.LockWrite? {
      assert s.queue.msgs + [s.writers[a.i].m] != s.queue.msgs;
    }
  }

  lemma StepHonest<M>(s: State<M>, a: Action<M>)
    requires ReaderOk(s) && Enabled(s, a) && forall f <- s.done :: Honest(f)
    ensures forall f <- Next(s, a).done :: Honest(f)
  {
  }

  lemma StepWritten<M>(s: State<M>, a: Action<M>)
    requires WritersOk(s) && Enabled(s, a) && forall r <- s.written :: Writes(r)
    ensures forall r <- Next(s, a).written :: Writes(r)
  {
  }

  lemma StepInv<M>(s: State<M>, a: Action<M>)
    requires Inv(s) && Enabled(s, a)
    ensures Inv(Next(s, a))
  {
    hide EventOk, ReaderOk, WritersOk, OrderOk, Next, Enabled, Honest, Writes;
    StepEvents(s, a);
    StepReader(s, a);
    StepWriters(s, a);
    StepOrder(s, a);
    StepHonest(s, a);
    StepWritten(s, a);
  }

  lemma {:induction false} Reachable<M>(s: State<M>, actions: seq<Action<M>>, t: State<M>)
    requires Inv(s) && Reaches(s, actions, t)
    ensures Inv(t)
    decreases |actions|
  {
    hide Inv, Next, Enabled;
    if actions != [] {
      StepInv(s, actions[0]);
      Reachable(Next(s, actions[0]), actions[1..], t);
    }
  }

  // ---- what follows for every run ---------------------------------------------------

  // A read returns true exactly when it brings a message, or comes from a wait and
  // finds the queue disabled and not popped when it gets the mutex.  A blocking read
  // returns false only if the queue was popped at some moment of the call, or the
  // call began on a stale event.
  lemma BlockingReads<M>(s: State<M>, capacity: nat, actions: seq<Action<M>>, t: State<M>)
    requires Initial(s, capacity) && Reaches(s, actions, t)
    ensures forall f <- t.done :: f.back.ret <==> f.back.got != [] || (f.back.blocking && Off(f.back.found))
    ensures forall f <- t.done :: f.back.blocking && !f.back.ret ==> f.popSeen || f.stale
  {
    InitialInv(s, capacity);
    Reachable(s, actions, t);
  }

  // What each call finds when it gets the mutex decides: a read, blocking or not,
  // brings the first message of an open queue and is false exactly if the queue is
  // popped, or open and empty, or disabled and the read has not waited; a write is
  // false exactly if the queue is popped, or open and full, or disabled and the
  // write has not waited.
  lemma CallsDecided<M>(s: State<M>, capacity: nat, actions: seq<Action<M>>, t: State<M>)
    requires Initial(s, capacity) && Reaches(s, actions, t)
    ensures forall f <- t.done :: var (r, c) := (f.back, f.back.found);
              && (!r.ret <==> c.popped || (c.active && c.msgs == []) || (!c.active && !r.blocking))
              && r.got == (if c.popped || !c.active || c.msgs == [] then [] else [c.msgs[0]])
    ensures forall r <- t.written :: var c := r.found;
              !r.ret <==> c.popped || (c.active && |c.msgs| >= c.capacity) || (!c.active && !r.blocking)
  {
    InitialInv(s, capacity);
    Reachable(s, actions, t);
    hide EventOk, ReaderOk, WritersOk, OrderOk;
  }

  // The event is stale in one window only: a pop is being taken back, its flag is
  // already gone, its events are not, and the queue is empty.
  lemma StaleWindow<M>(s: State<M>, capacity: nat, actions: seq<Action<M>>, t: State<M>)
    requires Initial(s, capacity) && Reaches(s, actions, t) && t.reader.Outside?
    ensures StaleEvent(t) <==> t.lock == Unpopping(false) && t.woken && t.queue.msgs == []
  {
    InitialInv(s, capacity);
    Reachable(s, actions, t);
  }

  // First in, first out, whatever the interleaving - unless a writer was told that
  // a message went in when none did, and never again after that.
  lemma InOrder<M>(s: State<M>, capacity: nat, actions: seq<Action<M>>, t: State<M>)
    requires Initial(s, capacity) && Reaches(s, actions, t)
    ensures t.sent == t.got + t.queue.msgs <==> t.unsent == 0
    ensures |t.sent| == |t.got| + |t.queue.msgs| + t.unsent && |t.queue.msgs| <= t.queue.capacity
  {
    InitialInv(s, capacity);
    Reachable(s, actions, t);
  }

  // The next step of whoever is inside the mutex.
  function HolderStep<M>(lock: Lock): Action<M>
    requires !lock.Unlocked?
  {
    match lock
    case ByReader => SignalRead
    case ByWriter(i) => SignalWrite(i)
    case Unpopping(cleared) => if cleared then UnpopSet else UnpopClear
  }

  // No lost wake-up: while the mutex is free, a reader waiting at an active queue
  // can go on exactly if there is a message, or a pop that neither an unpop nor a
  // disable has taken out of the events; and nobody stays inside the mutex.
  lemma NoLostWakeUp<M>(s: State<M>, capacity: nat, actions: seq<Action<M>>, t: State<M>)
    requires Initial(s, capacity) && Reaches(s, actions, t)
    ensures !t.lock.Unlocked? ==> Enabled(t, HolderStep(t.lock))
    ensures t.reader.Waiting? && t.lock.Unlocked? && t.queue.active ==>
              (Enabled(t, PassReadWait) <==> t.queue.msgs != [] || t.woken)
    ensures t.reader.Waiting? && t.woken ==> Enabled(t, PassReadWait)
  {
    InitialInv(s, capacity);
    Reachable(s, actions, t);
  }

  // The same for a writer, as far as it goes with several of them: none misses
  // the room there is, or a pop.
  lemma NoLostRoom<M>(s: State<M>, capacity: nat, actions: seq<Action<M>>, t: State<M>, i: nat)
    requires Initial(s, capacity) && Reaches(s, actions, t) && i < |t.writers| && t.writers[i].Awaiting?
    requires t.lock.Unlocked? && t.queue.active
    requires |t.queue.msgs| < t.queue.capacity || t.woken
    ensures Enabled(t, PassWriteWait(i))
  {
    InitialInv(s, capacity);
    Reachable(s, actions, t);
  }

  // Disabling an active queue stops it: until somebody pops, unpops or enables it,
  // whoever waits goes on waiting and the queue stays as it is.
  lemma {:induction false} DisableStops<M>(s: State<M>, actions: seq<Action<M>>, t: State<M>)
    requires !s.queue.active && !s.queue.readSet && !s.queue.writeSet && !s.lock.Unpopping?
    requires Reaches(s, actions, t)
    requires forall a <- actions :: !a.PopQueue? && !a.UnpopFlag? && !a.EnableQueue?
    ensures t.queue == s.queue && t.got == s.got && forall a <- actions :: !a.PassReadWait? && !a.PassWriteWait?
    decreases |actions|
  {
    if actions != [] {
      assert actions[0] in actions;
      DisableStops(Next(s, actions[0]), actions[1..], t);
    }
  }

  lemma DisableStopsAll<M>(s: State<M>, actions: seq<Action<M>>, t: State<M>)
    requires s.queue.active && s.lock.Unlocked? && Reaches(s, [DisableQueue] + actions, t)
    requires forall a <- actions :: !a.PopQueue? && !a.UnpopFlag? && !a.EnableQueue?
    ensures t.queue.msgs == s.queue.msgs && t.got == s.got
    ensures forall a <- actions :: !a.PassReadWait? && !a.PassWriteWait?
  {
    var u := Next(s, DisableQueue);
    Then(s, DisableQueue, u, actions, t);
    DisableStops(u, actions, t);
  }

  // ---- a call that nobody disturbs ----------------------------------------------------

  function ReadSteps<M>(blocking: bool): seq<Action<M>> {
    [BeginRead(blocking)] + (if blocking then [PassReadWait] + ([LockRead] + ([SignalRead] + []))
                             else [LockRead] + ([SignalRead] + []))
  }

  // A read that does not wait, or whose event is set, is over after its steps, and
  // has done what the queue it found lets it.
  lemma ReadAlone<M>(s: State<M>, blocking: bool) returns (t: State<M>, r: Return<M>)
    requires s.reader.Outside? && s.lock.Unlocked? && (blocking ==> s.queue.readSet)
    ensures Reaches(s, ReadSteps(blocking), t) && t.reader.Outside? && t.lock.Unlocked?
    ensures |t.done| == |s.done| + 1 && t.done[|s.done|].back == r && r.blocking == blocking && r.found == s.queue
    ensures r.ret <==> (s.queue.Open() && s.queue.msgs != []) || (blocking && !s.queue.active && !s.queue.popped)
    ensures r.got == (if s.queue.Open() && s.queue.msgs != [] then [s.queue.msgs[0]] else [])
    ensures t.queue.msgs == (if s.queue.Open() && s.queue.msgs != [] then s.queue.msgs[1..] else s.queue.msgs)
  {
    var s1 := Next(s, BeginRead(blocking));
    var s2 := if blocking then Next(s1, PassReadWait) else s1;
    var s3 := Next(s2, LockRead);
    t := Next(s3, SignalRead);
    r := t.done[|s.done|].back;
    assert Reaches(t, [], t);
    hide Next, Enabled, Reaches;
    Then(s3, SignalRead, t, [], t);
    Then(s2, LockRead, s3, [SignalRead] + [], t);
    if blocking {
      Then(s1, PassReadWait, s2, [LockRead] + ([SignalRead] + []), t);
      Then(s, BeginRead(true), s1, [PassReadWait] + ([LockRead] + ([SignalRead] + [])), t);
    } else {
      Then(s, BeginRead(false), s1, [LockRead] + ([SignalRead] + []), t);
    }
  }

  function WriteSteps<M>(i: nat, m: M, blocking: bool): seq<Action<M>> {
    [BeginWrite(i, m, blocking)] + (if blocking then [PassWriteWait(i)] + ([LockWrite(i)] + ([SignalWrite(i)] + []))
                                    else [LockWrite(i)] + ([SignalWrite(i)] + []))
  }

  // The same for a write.
  lemma WriteAlone<M>(s: State<M>, i: nat, m: M, blocking: bool) returns (t: State<M>, r: Receipt<M>)
    requires i < |s.writers| && s.writers[i].Idle? && s.lock.Unlocked? && (blocking ==> s.queue.writeSet)
    ensures Reaches(s, WriteSteps(i, m, blocking), t) && |t.writers| == |s.writers| && t.writers[i].Idle?
    ensures t.lock.Unlocked? && t.written == s.written + [r]
    ensures r.m == m && r.blocking == blocking && r.found == s.queue
    ensures var room := s.queue.Open() && |s.queue.msgs| < s.queue.capacity;
            && (r.ret <==> room || (blocking && !s.queue.active && !s.queue.popped))
            && t.queue.msgs == (if room then s.queue.msgs + [m] else s.queue.msgs)
  {
    var s1 := Next(s, BeginWrite(i, m, blocking));
    var s2 := if blocking then Next(s1, PassWriteWait(i)) else s1;
    var s3 := Next(s2, LockWrite(i));
    t := Next(s3, SignalWrite(i));
    r := s3.writers[i].back;
    assert Reaches(t, [], t);
    hide Next, Enabled, Reaches;
    Then(s3, SignalWrite(i), t, [], t);
    Then(s2, LockWrite(i), s3, [SignalWrite(i)] + [], t);
    if blocking {
      Then(s1, PassWriteWait(i), s2, [LockWrite(i)] + ([SignalWrite(i)] + []), t);
      Then(s, BeginWrite(i, m, true), s1, [PassWriteWait(i)] + ([LockWrite(i)] + ([SignalWrite(i)] + [])), t);
    } else {
      Then(s, BeginWrite(i, m, false), s1, [LockWrite(i)] + ([SignalWrite(i)] + []), t);
    }
  }

  // ---- exactly when a blocking read can fail without a pop --------------------------

  // A blocking read that begins now can return false although the queue is not
  // popped at any moment of the call.
  ghost predicate CanFailUnpopped<M(!new)>(s: State<M>) {
    exists actions: seq<Action<M>>, t: State<M> ::
      Reaches(s, [BeginRead(true)] + actions, t) && FailedUnpopped(s, t)
  }

  // The first read that has returned in t and not yet in s is such a one.
  ghost predicate FailedUnpopped<M>(s: State<M>, t: State<M>) {
    |t.done| > |s.done| && var f := t.done[|s.done|]; f.back.blocking && !f.back.ret && !f.popSeen
  }

  lemma Then<M>(s: State<M>, a: Action<M>, u: State<M>, actions: seq<Action<M>>, t: State<M>)
    requires Enabled(s, a) && Next(s, a) == u
    ensures Reaches(s, [a] + actions, t) <==> Reaches(u, actions, t)
  {
    assert ([a] + actions)[1..] == actions;
  }

  lemma {:induction false} DoneStays<M>(s: State<M>, actions: seq<Action<M>>, t: State<M>)
    requires Reaches(s, actions, t)
    ensures s.done <= t.done
    decreases |actions|
  {
    if actions != [] {
      DoneStays(Next(s, actions[0]), actions[1..], t);
    }
  }

  // What a call remembers of its beginning is what it is recorded with.
  lemma {:induction false} StaleStays<M>(s: State<M>, actions: seq<Action<M>>, t: State<M>)
    requires Reaches(s, actions, t) && !s.reader.Outside? && |t.done| > |s.done|
    ensures t.done[|s.done|].stale == s.stale
    decreases |actions|
  {
    var u := Next(s, actions[0]);
    if actions[0].SignalRead? {
      DoneStays(u, actions[1..], t);
    } else {
      StaleStays(u, actions[1..], t);
    }
  }

  // A read that begins on a stale event: it passes its wait, the unpop goes on and
  // lets go of the mutex, somebody enables the queue if it is disabled, and the
  // read finds nothing.
  lemma StaleFails<M>(s: State<M>) returns (actions: seq<Action<M>>, t: State<M>)
    requires s.reader.Outside? && s.lock == Unpopping(false) && StaleEvent(s)
    ensures Reaches(s, [BeginRead(true)] + actions, t) && FailedUnpopped(s, t)
  {
    var s1 := Next(s, BeginRead(true));
    var s2 := Next(s1, PassReadWait);
    var s3 := Next(s2, UnpopClear);
    var s4 := Next(s3, UnpopSet);
    var more;
    more, t := FindsNothing(s4);
    hide Next, Enabled, Reaches;
    Then(s3, UnpopSet, s4, more, t);
    Then(s2, UnpopClear, s3, [UnpopSet] + more, t);
    Then(s1, PassReadWait, s2, [UnpopClear] + ([UnpopSet] + more), t);
    actions := [PassReadWait] + ([UnpopClear] + ([UnpopSet] + more));
    Then(s, BeginRead(true), s1, actions, t);
  }

  lemma FindsNothing<M>(s: State<M>) returns (actions: seq<Action<M>>, t: State<M>)
    requires s.reader == AtLock(true) && s.lock.Unlocked? && !s.queue.popped && s.queue.msgs == [] && !s.popSeen
    ensures Reaches(s, actions, t) && FailedUnpopped(s, t)
  {
    var s1 := Next(s, EnableQueue);
    var s2 := Next(s1, LockRead);
    t := Next(s2, SignalRead);
    assert Reaches(t, [], t);
    hide Next, Enabled, Reaches;
    actions := [EnableQueue] + ([LockRead] + ([SignalRead] + []));
    Then(s2, SignalRead, t, [], t);
    Then(s1, LockRead, s2, [SignalRead] + [], t);
    Then(s, EnableQueue, s1, [LockRead] + ([SignalRead] + []), t);
  }

  // In every reachable state in which the reader is outside: a blocking read that
  // begins now can fail without a pop if and only if the event is stale, that is,
  // if and only if the queue is empty, a pop is being taken back, and its flag is
  // already gone while its events are still there.
  lemma FailsExactly<M(!new)>(s: State<M>, capacity: nat, actions: seq<Action<M>>, t: State<M>)
    requires Initial(s, capacity) && Reaches(s, actions, t) && t.reader.Outside?
    ensures CanFailUnpopped(t) <==> t.lock == Unpopping(false) && t.woken && t.queue.msgs == []
  {
    InitialInv(s, capacity);
    Reachable(s, actions, t);
    hide Inv, Initial, Reaches;
    StaleWindow(s, capacity, actions, t);
    if StaleEvent(t) {
      var more, u := StaleFails(t);
    }
    forall more: seq<Action<M>>, u: State<M> | Reaches(t, [BeginRead(true)] + more, u) && FailedUnpopped(t, u)
      ensures StaleEvent(t)
    {
      FailedWasStale(t, more, u);
    }
  }

  lemma FailedWasStale<M>(s: State<M>, actions: seq<Action<M>>, t: State<M>)
    requires Inv(s) && s.reader.Outside? && Reaches(s, [BeginRead(true)] + actions, t) && FailedUnpopped(s, t)
    ensures StaleEvent(s)
  {
    var s1 := Next(s, BeginRead(true));
    Then(s, BeginRead(true), s1, actions, t);
    Reachable(s, [BeginRead(true)] + actions, t);
    StaleStays(s1, actions, t);
    assert Honest(t.done[|s.done|]);
  }

  // ---- runs that go wrong -----------------------------------------------------------

  // The window can be reached: a pop, and the first step of an unpop.
  lemma UnpopRace<M(!new)>(s: State<M>, capacity: nat) returns (t: State<M>)
    requires Initial(s, capacity)
    ensures Reaches(s, [PopQueue] + ([UnpopFlag] + []), t) && !t.queue.popped && CanFailUnpopped(t)
  {
    var s1 := Next(s, PopQueue);
    t := Next(s1, UnpopFlag);
    assert Reaches(t, [], t);
    Then(s1, UnpopFlag, t, [], t);
    Then(s, PopQueue, s1, [UnpopFlag] + [], t);
    var actions, u := StaleFails(t);
  }

  // A pop does not free a reader who waits if the queue is disabled behind it, not
  // even when it is enabled again: the queue is popped and active, the reader waits
  // and cannot go on.
  lemma DisableHidesPop<M>(s: State<M>, capacity: nat) returns (t: State<M>)
    requires Initial(s, capacity)
    ensures Reaches(s, [BeginRead(true)] + ([PopQueue] + ([DisableQueue] + ([EnableQueue] + []))), t)
    ensures t.queue.popped && t.queue.active && t.lock.Unlocked? && t.reader.Waiting? && !Enabled(t, PassReadWait)
  {
    var s1 := Next(s, BeginRead(true));
    var s2 := Next(s1, PopQueue);
    var s3 := Next(s2, DisableQueue);
    t := Next(s3, EnableQueue);
    assert Reaches(t, [], t);
    hide Next, Reaches;
    Then(s3, EnableQueue, t, [], t);
    Then(s2, DisableQueue, s3, [EnableQueue] + [], t);
    Then(s1, PopQueue, s2, [DisableQueue] + ([EnableQueue] + []), t);
    Then(s, BeginRead(true), s1, [PopQueue] + ([DisableQueue] + ([EnableQueue] + [])), t);
  }
}
