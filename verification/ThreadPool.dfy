/** The thread pool (source/sosal/threadpool.c) over its message queues, as a
    state machine.

    A state holds everything the threads share and where each of them is; an
    action is one atomic step of one thread.  Semaphore sections are not atomic:
    the issuer's steps inside one interleave with every worker that does not need
    the semaphore.  A queue's mutex section is two steps (move the message, bring
    the events up to date), because a thread inside an event wait looks at the
    event without the mutex.  There are any number of workers and of issuers, and
    any action that is enabled may come next.
 */
module ThreadPool {
  import opened Channel
  import Event

  // ---- where a thread can be --------------------------------------------------

  // A worker: its loop of queue_read, the user function and the count-down.
  datatype WorkerPc<M> =
    | Waiting                           // in the event wait of a blocking read
    | AtLock                            // past the wait, before the mutex
    | Reading(ret: bool, got: seq<M>)   // inside the mutex, message moved
    | Running(got: seq<M>)              // about to run the user function on it
    | Done                              // function has run, semaphore not taken
    | Counting                          // holds the semaphore, before the decrement
    | Deciding                          // after the decrement, before the test
    | Leaving                           // before the semaphore is posted
    | Exited

  // The variables of one threadpool_issue call: `wrote` is the outcome of the
  // latest queue_write, `tries` the cycle detector.
  datatype Call<M> = Call(items: seq<M>, i: nat, tries: nat, index: nat, wrote: bool)

  datatype IssuerPc<M> =
    | Idle
    | Entered(call: Call<M>)    // holds the semaphore, event not yet reset
    | AtLoop(call: Call<M>)     // head of the loop over the items
    | Picking(call: Call<M>)    // head of the loop over the workers
    | Writing(call: Call<M>)    // counted up, before the queue's mutex
    | Signalling(call: Call<M>) // inside the mutex, message moved or refused
    | Checking(call: Call<M>)   // queue_write has returned
    | Closing(call: Call<M>)    // out of the loops, before the test
    | Posting(call: Call<M>)    // before the semaphore is posted

  datatype Lock = Unlocked | ByWorker | ByIssuer(i: nat)
  datatype Semaphore = Free | HeldByWorker(w: nat) | HeldByIssuer(i: nat)
  datatype Destroyer = NotCalled | Popping(k: nat) | Joining(k: nat) | Destroyed

  // A worker with its queue and that queue's mutex.
  datatype Slot<M> = Slot(queue: Channel<M>, lock: Lock, pc: WorkerPc<M>)

  // A finished threadpool_issue call: what it was given, how many items went
  // in, what it returned.
  datatype Receipt<M> = Receipt(items: seq<M>, taken: nat, ret: bool)

  datatype Pool<M> = Pool(
    slots: seq<Slot<M>>,
    issuers: seq<IssuerPc<M>>,
    sem: Semaphore,
    numCurrentItems: int,
    nextWorkerIndex: nat,
    completed: bool,
    destroyer: Destroyer,
    accepted: multiset<M>,     // every message a queue took
    executed: multiset<M>,     // every message the user function was run on
    receipts: seq<Receipt<M>>
  )

  ghost predicate Initial<M>(p: Pool<M>, capacity: nat) {
    && |p.slots| > 0
    && (forall w {:trigger p.slots[w]} | 0 <= w < |p.slots| :: p.slots[w] == Slot(Created(capacity), Unlocked, Waiting))
    && (forall i {:trigger p.issuers[i]} | 0 <= i < |p.issuers| :: p.issuers[i] == Idle)
    && p.sem == Free && p.numCurrentItems == 0 && p.nextWorkerIndex == 0 && !p.completed
    && p.destroyer == NotCalled
    && p.accepted == multiset{} && p.executed == multiset{} && p.receipts == []
  }

  // ---- the steps ----------------------------------------------------------------

  datatype Action<M> =
    | PassWait(w: nat) | LockAndRead(w: nat) | SignalRead(w: nat) | RunFunction(w: nat)
    | TakeSemaphore(w: nat) | CountDown(w: nat) | TestCount(w: nat) | PostSemaphore(w: nat)
    | Enter(i: nat, items: seq<M>) | ResetEvent(i: nat) | NextItem(i: nat) | PickWorker(i: nat)
    | LockAndWrite(i: nat) | SignalWrite(i: nat) | CheckWrote(i: nat) | Close(i: nat) | Leave(i: nat)
    | BeginDestroy | PopQueue | JoinWorker

  // The worker that takes the step, if a worker does.
  function WorkerOf<M>(a: Action<M>): nat {
    match a
    case PassWait(w) => w
    case LockAndRead(w) => w
    case SignalRead(w) => w
    case RunFunction(w) => w
    case TakeSemaphore(w) => w
    case CountDown(w) => w
    case TestCount(w) => w
    case PostSemaphore(w) => w
    case _ => 0
  }

  predicate SlotEnabled<M>(s: Slot<M>, a: Action<M>) {
    match a
    case PassWait(_) => s.pc.Waiting? && s.queue.readSet
    case LockAndRead(_) => s.pc.AtLock? && s.lock.Unlocked?
    case SignalRead(_) => s.pc.Reading?
    case RunFunction(_) => s.pc.Running?
    case TakeSemaphore(_) => s.pc.Done?
    case CountDown(_) => s.pc.Counting?
    case TestCount(_) => s.pc.Deciding?
    case PostSemaphore(_) => s.pc.Leaving?
    case _ => false
  }

  predicate WorkerEnabled<M>(p: Pool<M>, a: Action<M>) {
    WorkerOf(a) < |p.slots| && SlotEnabled(p.slots[WorkerOf(a)], a) && (a.TakeSemaphore? ==> p.sem.Free?)
  }

  function IssuerOf<M>(a: Action<M>): nat {
    match a
    case Enter(i, _) => i
    case ResetEvent(i) => i
    case NextItem(i) => i
    case PickWorker(i) => i
    case LockAndWrite(i) => i
    case SignalWrite(i) => i
    case CheckWrote(i) => i
    case Close(i) => i
    case Leave(i) => i
    case _ => 0
  }

  predicate CallEnabled<M>(pc: IssuerPc<M>, a: Action<M>) {
    match a
    case Enter(_, _) => pc.Idle?
    case ResetEvent(_) => pc.Entered?
    case NextItem(_) => pc.AtLoop?
    case PickWorker(_) => pc.Picking?
    case LockAndWrite(_) => pc.Writing? && pc.call.i < |pc.call.items|
    case SignalWrite(_) => pc.Signalling?
    case CheckWrote(_) => pc.Checking?
    case Close(_) => pc.Closing?
    case Leave(_) => pc.Posting?
    case _ => false
  }

  predicate IssuerEnabled<M>(p: Pool<M>, a: Action<M>) {
    IssuerOf(a) < |p.issuers|
    && var pc := p.issuers[IssuerOf(a)];
    && CallEnabled(pc, a)
    && (a.Enter? ==> p.sem.Free?)
    && (a.PickWorker? ==> p.nextWorkerIndex < |p.slots|)
    && (a.LockAndWrite? ==> pc.call.index < |p.slots| && p.slots[pc.call.index].lock.Unlocked?)
    && (a.SignalWrite? ==> pc.call.index < |p.slots|)
  }

  predicate DestroyerEnabled<M>(p: Pool<M>, a: Action<M>) {
    match a
    case BeginDestroy => p.destroyer.NotCalled?
    case PopQueue => p.destroyer.Popping? && p.destroyer.k < |p.slots| && p.slots[p.destroyer.k].lock.Unlocked?
    case JoinWorker => p.destroyer.Joining? && p.destroyer.k < |p.slots| && p.slots[p.destroyer.k].pc.Exited?
    case _ => false
  }

  predicate Enabled<M>(p: Pool<M>, a: Action<M>) {
    WorkerEnabled(p, a) || IssuerEnabled(p, a) || DestroyerEnabled(p, a)
  }

  // What the step does to the worker and its queue ...
  function SlotAfter<M>(s: Slot<M>, a: Action<M>): Slot<M>
    requires SlotEnabled(s, a)
  {
    match a
    case PassWait(_) => s.(pc := AtLock)
    case LockAndRead(_) =>
      var (queue, ret, got) := ReadData(s.queue, true);
      Slot(queue, ByWorker, Reading(ret, got))
    case SignalRead(_) => Slot(ReadSignal(s.queue), Unlocked, if s.pc.ret then Running(s.pc.got) else Exited)
    case RunFunction(_) => s.(pc := Done)
    case TakeSemaphore(_) => s.(pc := Counting)
    case CountDown(_) => s.(pc := Deciding)
    case TestCount(_) => s.(pc := Leaving)
    case PostSemaphore(_) => s.(pc := Waiting)
  }

  // ... and to what the pool shares.
  function WorkerStep<M>(p: Pool<M>, a: Action<M>): Pool<M>
    requires WorkerEnabled(p, a)
  {
    var w := WorkerOf(a);
    var q := p.(slots := p.slots[w := SlotAfter(p.slots[w], a)]);
    match a
    case RunFunction(_) => q.(executed := p.executed + Unexecuted(p.slots[w].pc))
    case TakeSemaphore(_) => q.(sem := HeldByWorker(w))
    case CountDown(_) => q.(numCurrentItems := p.numCurrentItems - 1)
    case TestCount(_) => q.(completed := p.completed || p.numCurrentItems <= 0)
    case PostSemaphore(_) => q.(sem := Free)
    case _ => q
  }

  // What an issuer's step does to its own variables; `next` is the pool's
  // nextWorkerIndex, `workers` its number of workers, `took` the outcome of the
  // write if this is one ...
  function CallAfter<M>(pc: IssuerPc<M>, a: Action<M>, next: nat, workers: nat, took: bool): IssuerPc<M>
    requires CallEnabled(pc, a)
  {
    match a
    case Enter(_, items) => Entered(Call(items, 0, 0, 0, false))
    case ResetEvent(_) => AtLoop(pc.call)
    case NextItem(_) => if pc.call.i < |pc.call.items| then Picking(pc.call.(tries := 0)) else Closing(pc.call)
    case PickWorker(_) => Writing(pc.call.(tries := pc.call.tries + 1, index := next))
    case LockAndWrite(_) => Signalling(pc.call.(wrote := took))
    case SignalWrite(_) => Checking(pc.call)
    case CheckWrote(_) =>
      if pc.call.wrote then AtLoop(pc.call.(i := pc.call.i + 1))
      else if pc.call.tries < workers then Picking(pc.call)
      else Closing(pc.call)
    case Close(_) => Posting(pc.call)
    case Leave(_) => Idle
  }

  // ... and to what the pool shares.
  function IssuerStep<M>(p: Pool<M>, a: Action<M>): Pool<M>
    requires IssuerEnabled(p, a)
  {
    var i := IssuerOf(a);
    var pc := p.issuers[i];
    var took := a.LockAndWrite? && WriteData(p.slots[pc.call.index].queue, false, pc.call.items[pc.call.i]).1;
    var q := p.(issuers := p.issuers[i := CallAfter(pc, a, p.nextWorkerIndex, |p.slots|, took)]);
    match a
    case Enter(_, _) => q.(sem := HeldByIssuer(i))
    case ResetEvent(_) => q.(completed := false)
    case PickWorker(_) =>
      q.(nextWorkerIndex := (p.nextWorkerIndex + 1) % |p.slots|, numCurrentItems := p.numCurrentItems + 1)
    case LockAndWrite(_) =>
      var k, item := pc.call.index, pc.call.items[pc.call.i];
      var s := p.slots[k];
      q.(slots := p.slots[k := s.(queue := WriteData(s.queue, false, item).0, lock := ByIssuer(i))],
         accepted := if took then p.accepted + multiset{item} else p.accepted)
    case SignalWrite(_) =>
      var k := pc.call.index;
      q.(slots := p.slots[k := p.slots[k].(queue := WriteSignal(p.slots[k].queue), lock := Unlocked)])
    case CheckWrote(_) => if pc.call.wrote then q else q.(numCurrentItems := p.numCurrentItems - 1)
    case Close(_) => q.(completed := p.completed || p.numCurrentItems == 0)
    case Leave(_) => q.(sem := Free, receipts := p.receipts + [Receipt(pc.call.items, pc.call.i, pc.call.wrote)])
    case _ => q
  }

  function DestroyerStep<M>(p: Pool<M>, a: Action<M>): Pool<M>
    requires DestroyerEnabled(p, a)
  {
    match a
    case BeginDestroy => p.(destroyer := if |p.slots| == 0 then Destroyed else Popping(0))
    case PopQueue =>
      var k := p.destroyer.k;
      p.(destroyer := Joining(k), slots := p.slots[k := p.slots[k].(queue := Pop(p.slots[k].queue))])
    case JoinWorker =>
      var k := p.destroyer.k;
      p.(destroyer := if k + 1 < |p.slots| then Popping(k + 1) else Destroyed)
  }

  function Next<M>(p: Pool<M>, a: Action<M>): Pool<M>
    requires Enabled(p, a)
  {
    if WorkerEnabled(p, a) then WorkerStep(p, a)
    else if IssuerEnabled(p, a) then IssuerStep(p, a)
    else DestroyerStep(p, a)
  }

  ghost predicate Reaches<M>(p: Pool<M>, actions: seq<Action<M>>, q: Pool<M>)
    decreases |actions|
  {
    if actions == [] then p == q
    else Enabled(p, actions[0]) && Reaches(Next(p, actions[0]), actions[1..], q)
  }

  // ---- what is where ----------------------------------------------------------

  // Items a worker has taken and not yet counted off.
  function InFlight<M>(pc: WorkerPc<M>): nat {
    match pc
    case Reading(_, got) => |got|
    case Running(got) => |got|
    case Done => 1
    case Counting => 1
    case _ => 0
  }

  // Items a worker has taken and not yet run the function on.
  function Unexecuted<M>(pc: WorkerPc<M>): multiset<M> {
    match pc
    case Reading(_, got) => multiset(got)
    case Running(got) => multiset(got)
    case _ => multiset{}
  }

  function LoadOf<M>(s: Slot<M>): nat { |s.queue.msgs| + InFlight(s.pc) }

  function Load<M>(slots: seq<Slot<M>>): nat {
    if slots == [] then 0 else LoadOf(slots[0]) + Load(slots[1..])
  }

  function HeldBy<M>(s: Slot<M>): multiset<M> { multiset(s.queue.msgs) + Unexecuted(s.pc) }

  function Held<M>(slots: seq<Slot<M>>): multiset<M> {
    if slots == [] then multiset{} else HeldBy(slots[0]) + Held(slots[1..])
  }

  // One item is counted but nowhere while an issuer is between its increment
  // and the outcome of its write.
  predicate Between<M>(pc: IssuerPc<M>) {
    pc.Writing? || ((pc.Signalling? || pc.Checking?) && !pc.call.wrote)
  }

  function Pending<M>(p: Pool<M>): nat {
    if p.sem.HeldByIssuer? && p.sem.i < |p.issuers| && Between(p.issuers[p.sem.i]) then 1 else 0
  }

  // How many of its items a call has got rid of so far.
  function Taken<M>(pc: IssuerPc<M>): nat {
    if pc.Idle? then 0
    else if (pc.Signalling? || pc.Checking?) && pc.call.wrote then pc.call.i + 1
    else pc.call.i
  }

  ghost function TakenItems<M>(pc: IssuerPc<M>): multiset<M> {
    if pc.Idle? || Taken(pc) > |pc.call.items| then multiset{} else multiset(pc.call.items[..Taken(pc)])
  }

  ghost function TakenSoFar<M>(p: Pool<M>): multiset<M> {
    if p.sem.HeldByIssuer? && p.sem.i < |p.issuers| then TakenItems(p.issuers[p.sem.i]) else multiset{}
  }

  ghost function Receipted<M>(receipts: seq<Receipt<M>>): multiset<M> {
    if receipts == [] then multiset{}
    else
      var last := receipts[|receipts| - 1];
      Receipted(receipts[..|receipts| - 1])
      + if last.taken <= |last.items| then multiset(last.items[..last.taken]) else multiset{}
  }

  // ---- the invariant ------------------------------------------------------------

  predicate HoldsSemaphore<M>(pc: WorkerPc<M>) {
    pc.Counting? || pc.Deciding? || pc.Leaving?
  }

  // A worker, its queue and its mutex.  An event that is set and a queue that is
  // not popped promise a message to the one thread that waits here; a message
  // behind an unlocked mutex is never without its event.
  ghost predicate SlotOk<M>(s: Slot<M>) {
    && s.queue.active && |s.queue.msgs| <= s.queue.capacity
    && (s.queue.popped ==> s.queue.readSet)
    && (s.queue.readSet && !s.queue.popped && s.lock != ByWorker ==> s.queue.msgs != [])
    && (s.queue.msgs != [] && s.lock == Unlocked ==> s.queue.readSet)
    && (s.lock == ByWorker <==> s.pc.Reading?)
    && match s.pc
       case AtLock => s.queue.popped || s.queue.msgs != []
       case Reading(ret, got) => if ret then |got| == 1 else got == [] && s.queue.popped
       case Running(got) => |got| == 1
       case Exited => s.queue.popped
       case _ => true
  }

  // An issuer, with respect to the pool's shared variables.
  ghost predicate IssuerOk<M>(pc: IssuerPc<M>, numCurrentItems: int, completed: bool, workers: nat) {
    match pc
    case Idle => true
    case Entered(c) => c.i == 0 && !c.wrote
    case AtLoop(c) => !completed && c.i <= |c.items| && (c.wrote <==> c.i > 0)
    case Picking(c) => !completed && c.i < |c.items|
    case Writing(c) => !completed && c.i < |c.items| && c.index < workers
    case Signalling(c) => !completed && c.i < |c.items| && c.index < workers
    case Checking(c) => !completed && c.i < |c.items| && c.index < workers
    case Closing(c) => !completed && c.i <= |c.items| && (c.wrote <==> c.i == |c.items| && c.items != [])
    case Posting(c) =>
      (numCurrentItems == 0 ==> completed) && c.i <= |c.items| && (c.wrote <==> c.i == |c.items| && c.items != [])
  }

  // Who holds what.
  ghost predicate Ownership<M>(p: Pool<M>) {
    && (forall w {:trigger p.slots[w]} | 0 <= w < |p.slots| :: HoldsSemaphore(p.slots[w].pc) <==>
        p.sem == HeldByWorker(w))
    && (forall i {:trigger p.issuers[i]} | 0 <= i < |p.issuers| :: !p.issuers[i].Idle? <==> p.sem == HeldByIssuer(i))
    && (p.sem.HeldByWorker? ==> p.sem.w < |p.slots|)
    && (p.sem.HeldByIssuer? ==> p.sem.i < |p.issuers|)
    && (forall i {:trigger p.issuers[i]} | 0 <= i < |p.issuers| && p.issuers[i].Signalling? ::
          p.issuers[i].call.index < |p.slots| && p.slots[p.issuers[i].call.index].lock == ByIssuer(i))
    && (forall w {:trigger p.slots[w]} | 0 <= w < |p.slots| && p.slots[w].lock.ByIssuer? ::
          p.sem == HeldByIssuer(p.slots[w].lock.i) && p.issuers[p.slots[w].lock.i].Signalling?
          && p.issuers[p.slots[w].lock.i].call.index == w)
  }

  ghost predicate ThreadsOk<M>(p: Pool<M>) {
    && |p.slots| > 0 && p.nextWorkerIndex < |p.slots|
    && (forall w {:trigger p.slots[w]} | 0 <= w < |p.slots| :: SlotOk(p.slots[w]))
    && (forall i {:trigger p.issuers[i]} | 0 <= i < |p.issuers| ::
        IssuerOk(p.issuers[i], p.numCurrentItems, p.completed, |p.slots|))
  }

  // The counter and the event.
  ghost predicate CountOk<M>(p: Pool<M>) {
    && p.numCurrentItems == Load(p.slots) + Pending(p)
    && (p.completed ==> p.numCurrentItems == 0)
    && (p.sem.HeldByWorker? && p.sem.w < |p.slots| && p.slots[p.sem.w].pc.Leaving? && p.numCurrentItems == 0 ==>
        p.completed)
    && (p.sem.Free? && p.receipts != [] && p.numCurrentItems == 0 ==> p.completed)
  }

  ghost predicate HonestReceipt<M>(r: Receipt<M>) {
    r.taken <= |r.items| && (r.ret <==> r.taken == |r.items| && r.items != [])
  }

  // Every accepted item is queued, in a worker's hands, or has been run, once;
  // and the accepted items are exactly those the issuers were told about.
  ghost predicate ItemsOk<M>(p: Pool<M>) {
    && p.accepted == p.executed + Held(p.slots)
    && p.accepted == Receipted(p.receipts) + TakenSoFar(p)
    && (forall r <- p.receipts :: HonestReceipt(r))
  }

  function Popped(d: Destroyer, workers: nat): nat {
    match d
    case NotCalled => 0
    case Popping(k) => k
    case Joining(k) => k + 1
    case Destroyed => workers
  }

  function Joined(d: Destroyer, workers: nat): nat {
    match d
    case NotCalled => 0
    case Popping(k) => k
    case Joining(k) => k
    case Destroyed => workers
  }

  ghost predicate DestroyOk<M>(p: Pool<M>) {
    && (p.destroyer.Popping? || p.destroyer.Joining? ==> p.destroyer.k < |p.slots|)
    && (forall w {:trigger p.slots[w]} | 0 <= w < |p.slots| :: p.slots[w].queue.popped <==>
        w < Popped(p.destroyer, |p.slots|))
    && (forall w {:trigger p.slots[w]} | 0 <= w < Joined(p.destroyer, |p.slots|) && w < |p.slots| ::
        p.slots[w].pc.Exited?)
  }

  ghost predicate Inv<M>(p: Pool<M>) {
    ThreadsOk(p) && Ownership(p) && CountOk(p) && ItemsOk(p) && DestroyOk(p)
  }

  // ---- sums over the slots --------------------------------------------------------

  lemma {:induction false} LoadAt<M>(slots: seq<Slot<M>>, w: nat, s: Slot<M>)
    requires w < |slots|
    ensures Load(slots[w := s]) == Load(slots) - LoadOf(slots[w]) + LoadOf(s)
    ensures Load(slots) >= LoadOf(slots[w])
  {
    hide LoadOf;
    if w > 0 {
      LoadAt(slots[1..], w - 1, s);
      assert slots[w := s][1..] == slots[1..][w - 1 := s];
    } else {
      assert slots[w := s][1..] == slots[1..];
    }
  }

  lemma {:induction false} HeldAt<M>(slots: seq<Slot<M>>, w: nat, s: Slot<M>)
    requires w < |slots|
    ensures Held(slots[w := s]) + HeldBy(slots[w]) == Held(slots) + HeldBy(s)
  {
    hide HeldBy;
    if w > 0 {
      HeldAt(slots[1..], w - 1, s);
      assert slots[w := s][1..] == slots[1..][w - 1 := s];
      var rest, rest' := Held(slots[1..]), Held(slots[1..][w - 1 := s]);
      assert slots[1..][w - 1] == slots[w];
      assert HeldBy(slots[0]) + rest' + HeldBy(slots[w]) == HeldBy(slots[0]) + (rest' + HeldBy(slots[w]));
      assert HeldBy(slots[0]) + rest + HeldBy(s) == HeldBy(slots[0]) + (rest + HeldBy(s));
    } else {
      assert slots[w := s][1..] == slots[1..];
    }
  }

  lemma {:induction false} InitiallyNothing<M>(slots: seq<Slot<M>>, capacity: nat)
    requires forall w {:trigger slots[w]} | 0 <= w < |slots| :: slots[w] == Slot(Created(capacity), Unlocked, Waiting)
    ensures Load(slots) == 0 && Held(slots) == multiset{}
  {
    if slots != [] {
      InitiallyNothing(slots[1..], capacity);
    }
  }

  lemma InitialInv<M>(p: Pool<M>, capacity: nat)
    requires Initial(p, capacity)
    ensures Inv(p)
  {
    InitiallyNothing(p.slots, capacity);
  }

  // ---- every worker step keeps the invariant ---------------------------------------

  // While a worker holds the semaphore, no issuer is inside a call.
  lemma IssuersIdle<M>(p: Pool<M>)
    requires Ownership(p) && p.sem.HeldByWorker?
    ensures forall i {:trigger p.issuers[i]} | 0 <= i < |p.issuers| :: p.issuers[i].Idle?
  {
  }

  lemma SlotStaysOk<M>(s: Slot<M>, a: Action<M>)
    requires SlotOk(s) && SlotEnabled(s, a)
    ensures SlotOk(SlotAfter(s, a))
  {
  }

  lemma WorkerFrame<M>(p: Pool<M>, a: Action<M>)
    requires WorkerEnabled(p, a)
    ensures var q := WorkerStep(p, a);
            && q.slots == p.slots[WorkerOf(a) := SlotAfter(p.slots[WorkerOf(a)], a)]
            && q.issuers == p.issuers && q.nextWorkerIndex == p.nextWorkerIndex
            && q.executed == p.executed + (if a.RunFunction? then Unexecuted(p.slots[WorkerOf(a)].pc) else multiset{})
            && (a.CountDown? || a.TestCount? || (q.numCurrentItems == p.numCurrentItems && q.completed == p.completed))
            && (a.CountDown? || a.TestCount? ==> HoldsSemaphore(p.slots[WorkerOf(a)].pc))
  {
  }

  lemma IdleOk<M>(pc: IssuerPc<M>, numCurrentItems: int, completed: bool, workers: nat)
    requires pc.Idle?
    ensures IssuerOk(pc, numCurrentItems, completed, workers)
  {
  }

  // The issuers' part of a worker's step: with a worker counting, all are idle.
  lemma WorkerCalls<M>(p: Pool<M>, a: Action<M>)
    requires ThreadsOk(p) && Ownership(p) && WorkerEnabled(p, a)
    ensures var q := WorkerStep(p, a);
            forall i {:trigger q.issuers[i]} | 0 <= i < |q.issuers| ::
                IssuerOk(q.issuers[i], q.numCurrentItems, q.completed, |q.slots|)
  {
    hide SlotOk, SlotAfter, WorkerStep, IssuerOk, SlotEnabled;
    WorkerFrame(p, a);
    var q := WorkerStep(p, a);
    if a.CountDown? || a.TestCount? {
      IssuersIdle(p);
      forall i {:trigger q.issuers[i]} | 0 <= i < |q.issuers|
        ensures IssuerOk(q.issuers[i], q.numCurrentItems, q.completed, |q.slots|)
      {
        IdleOk(p.issuers[i], q.numCurrentItems, q.completed, |q.slots|);
      }
    }
  }

  lemma WorkerThreads<M>(p: Pool<M>, a: Action<M>)
    requires ThreadsOk(p) && Ownership(p) && WorkerEnabled(p, a)
    ensures ThreadsOk(WorkerStep(p, a))
  {
    hide SlotOk, SlotAfter, WorkerStep, IssuerOk, Ownership;
    WorkerFrame(p, a);
    WorkerCalls(p, a);
    SlotStaysOk(p.slots[WorkerOf(a)], a);
  }

  lemma WorkerOwnership<M>(p: Pool<M>, a: Action<M>)
    requires ThreadsOk(p) && Ownership(p) && WorkerEnabled(p, a)
    ensures Ownership(WorkerStep(p, a))
  {
    if a.LockAndRead? {
    } else if a.SignalRead? {
    } else if a.TakeSemaphore? {
    } else if a.PostSemaphore? {
    }
  }

  lemma ReadMoves<M>(c: Channel<M>)
    ensures var (c', _, got) := ReadData(c, true);
            |c.msgs| == |got| + |c'.msgs| && multiset(c.msgs) == multiset(got) + multiset(c'.msgs)
    ensures ReadSignal(c).msgs == c.msgs
  {
    var (c', _, got) := ReadData(c, true);
    assert c.msgs == got + c'.msgs;
  }

  lemma SlotLoad<M>(s: Slot<M>, a: Action<M>)
    requires SlotOk(s) && SlotEnabled(s, a)
    ensures LoadOf(SlotAfter(s, a)) == LoadOf(s) - (if a.CountDown? then 1 else 0)
  {
    hide ReadData, ReadSignal;
    ReadMoves(s.queue);
  }

  // Inside the mutex the message goes from the queue to the worker.
  lemma SlotReads<M>(s: Slot<M>, a: Action<M>)
    requires SlotEnabled(s, a) && (a.LockAndRead? || (a.SignalRead? && (s.pc.ret || s.pc.got == [])))
    ensures HeldBy(SlotAfter(s, a)) == HeldBy(s)
  {
    hide ReadData, ReadSignal;
    ReadMoves(s.queue);
    var queue, got := ReadData(s.queue, true).0, ReadData(s.queue, true).2;
    if a.LockAndRead? {
      Commute(multiset(queue.msgs), multiset(got));
    }
  }

  lemma Commute<M>(x: multiset<M>, y: multiset<M>)
    ensures x + y == y + x && x + multiset{} == x
  {
  }

  lemma SlotItems<M>(s: Slot<M>, a: Action<M>)
    requires SlotOk(s) && SlotEnabled(s, a)
    ensures HeldBy(SlotAfter(s, a)) + (if a.RunFunction? then Unexecuted(s.pc) else multiset{}) == HeldBy(s)
  {
    if a.LockAndRead? || a.SignalRead? {
      SlotReads(s, a);
      hide SlotOk, SlotAfter;
      Commute(HeldBy(s), multiset{});
    } else {
      hide SlotOk, ReadData, ReadSignal;
      Commute(multiset(s.queue.msgs), multiset{});
      Commute(HeldBy(s), multiset{});
    }
  }

  // What a step does to the slot it touches: items only move within it, except
  // that running the function takes some out and the decrement lets one go.
  lemma SlotMoves<M>(s: Slot<M>, a: Action<M>)
    requires SlotOk(s) && SlotEnabled(s, a)
    ensures LoadOf(SlotAfter(s, a)) == LoadOf(s) - (if a.CountDown? then 1 else 0)
    ensures HeldBy(SlotAfter(s, a)) + (if a.RunFunction? then Unexecuted(s.pc) else multiset{}) == HeldBy(s)
  {
    hide SlotOk, SlotAfter, LoadOf, HeldBy;
    SlotLoad(s, a);
    SlotItems(s, a);
  }

  lemma WorkerKeeps<M>(p: Pool<M>, a: Action<M>)
    requires WorkerEnabled(p, a) && Ownership(p)
    ensures WorkerStep(p, a).accepted == p.accepted && WorkerStep(p, a).receipts == p.receipts
    ensures TakenSoFar(WorkerStep(p, a)) == TakenSoFar(p) && Pending(WorkerStep(p, a)) == Pending(p)
  {
  }

  lemma Exchange<M>(total: multiset<M>, total': multiset<M>, mine: multiset<M>, mine': multiset<M>, out: multiset<M>)
    requires total' + mine == total + mine' && mine' + out == mine
    ensures total == total' + out
  {
    forall m | m in total || m in total' + out ensures total[m] == (total' + out)[m] {
      assert (total' + mine)[m] == (total + mine')[m];
      assert (mine' + out)[m] == mine[m];
    }
  }

  lemma WorkerCount<M>(p: Pool<M>, a: Action<M>)
    requires ThreadsOk(p) && Ownership(p) && CountOk(p) && WorkerEnabled(p, a)
    ensures CountOk(WorkerStep(p, a))
  {
    WorkerSum(p, a);
    WorkerEvent(p, a);
  }

  lemma WorkerSum<M>(p: Pool<M>, a: Action<M>)
    requires ThreadsOk(p) && Ownership(p) && WorkerEnabled(p, a)
    requires p.numCurrentItems == Load(p.slots) + Pending(p)
    ensures WorkerStep(p, a).numCurrentItems == Load(WorkerStep(p, a).slots) + Pending(WorkerStep(p, a))
  {
    var w := WorkerOf(a);
    SlotMoves(p.slots[w], a);
    WorkerKeeps(p, a);
    hide LoadOf, Pending, SlotOk, IssuerOk, Ownership, SlotEnabled, SlotAfter;
    LoadAt(p.slots, w, SlotAfter(p.slots[w], a));
  }

  // Only the last decrement sets the event, and it finds the counter at 0.
  lemma WorkerEvent<M>(p: Pool<M>, a: Action<M>)
    requires Ownership(p) && CountOk(p) && WorkerEnabled(p, a)
    ensures var q := WorkerStep(p, a);
            && (q.completed ==> q.numCurrentItems == 0)
            && (q.sem.HeldByWorker? && q.sem.w < |q.slots| && q.slots[q.sem.w].pc.Leaving? && q.numCurrentItems == 0 ==>
                q.completed)
            && (q.sem.Free? && q.receipts != [] && q.numCurrentItems == 0 ==> q.completed)
  {
    if a.CountDown? {
      LoadAt(p.slots, a.w, p.slots[a.w]);
    }
  }

  lemma WorkerItems<M>(p: Pool<M>, a: Action<M>)
    requires ThreadsOk(p) && Ownership(p) && ItemsOk(p) && WorkerEnabled(p, a)
    ensures ItemsOk(WorkerStep(p, a))
  {
    hide HeldBy, Held, TakenSoFar, SlotOk, IssuerOk, Ownership, SlotEnabled, SlotAfter, Unexecuted, HonestReceipt,
        Receipted, WorkerStep;
    var w := WorkerOf(a);
    WorkerFrame(p, a);
    var ran := if a.RunFunction? then Unexecuted(p.slots[w].pc) else multiset{};
    SlotMoves(p.slots[w], a);
    WorkerKeeps(p, a);
    HeldAt(p.slots, w, SlotAfter(p.slots[w], a));
    Exchange(Held(p.slots), Held(WorkerStep(p, a).slots), HeldBy(p.slots[w]), HeldBy(SlotAfter(p.slots[w], a)), ran);
  }

  lemma WorkerDestroy<M>(p: Pool<M>, a: Action<M>)
    requires DestroyOk(p) && WorkerEnabled(p, a)
    ensures DestroyOk(WorkerStep(p, a))
  {
  }

  // ---- every issuer step keeps the invariant ----------------------------------------

  // Inside the semaphore there is one issuer and no counting worker.
  lemma Alone<M>(p: Pool<M>, i: nat)
    requires Ownership(p) && i < |p.issuers| && !p.issuers[i].Idle?
    ensures p.sem == HeldByIssuer(i)
    ensures forall j {:trigger p.issuers[j]} | 0 <= j < |p.issuers| && j != i :: p.issuers[j].Idle?
    ensures forall w {:trigger p.slots[w]} | 0 <= w < |p.slots| :: !HoldsSemaphore(p.slots[w].pc)
  {
  }

  lemma IssuerSlots<M>(p: Pool<M>, a: Action<M>)
    requires ThreadsOk(p) && Ownership(p) && IssuerEnabled(p, a)
    ensures var q := IssuerStep(p, a);
            |q.slots| == |p.slots| && q.nextWorkerIndex < |q.slots|
                && forall w {:trigger q.slots[w]} | 0 <= w < |q.slots| :: SlotOk(q.slots[w])
  {
    if !a.Enter? {
      Alone(p, IssuerOf(a));
    }
  }

  lemma IssuerCalls<M>(p: Pool<M>, a: Action<M>)
    requires ThreadsOk(p) && Ownership(p) && CountOk(p) && IssuerEnabled(p, a)
    ensures var q := IssuerStep(p, a);
            forall i {:trigger q.issuers[i]} | 0 <= i < |q.issuers| ::
                IssuerOk(q.issuers[i], q.numCurrentItems, q.completed, |q.slots|)
  {
    hide SlotOk;
    if !a.Enter? {
      Alone(p, IssuerOf(a));
    }
  }

  lemma IssuerThreads<M>(p: Pool<M>, a: Action<M>)
    requires ThreadsOk(p) && Ownership(p) && CountOk(p) && IssuerEnabled(p, a)
    ensures ThreadsOk(IssuerStep(p, a))
  {
    hide SlotOk, IssuerOk, Ownership, CountOk, IssuerStep;
    IssuerSlots(p, a);
    IssuerCalls(p, a);
  }

  lemma IssuerOwnership<M>(p: Pool<M>, a: Action<M>)
    requires ThreadsOk(p) && Ownership(p) && IssuerEnabled(p, a)
    ensures Ownership(IssuerStep(p, a))
  {
    if a.Enter? {
    } else {
      Alone(p, IssuerOf(a));
    }
  }

  lemma LoadOfWrite<M>(s: Slot<M>, m: M, lock: Lock)
    ensures var (queue, took) := WriteData(s.queue, false, m);
            LoadOf(s.(queue := queue, lock := lock)) == LoadOf(s) + if took then 1 else 0
  {
  }

  lemma LoadOfSignal<M>(s: Slot<M>, lock: Lock)
    ensures LoadOf(s.(queue := WriteSignal(s.queue), lock := lock)) == LoadOf(s)
  {
  }

  function One(b: bool): nat { if b then 1 else 0 }

  // What an issuer's step does to the counter is what it does to the queues and
  // to its own place between increment and write.
  lemma IssuerCounts<M>(p: Pool<M>, a: Action<M>)
    requires IssuerEnabled(p, a)
    ensures var pc := p.issuers[IssuerOf(a)];
            var q := IssuerStep(p, a);
            && |q.issuers| == |p.issuers|
            && q.sem == (if a.Enter? then HeldByIssuer(IssuerOf(a)) else if a.Leave? then Free else p.sem)
            && q.numCurrentItems - p.numCurrentItems
               == Load(q.slots) - Load(p.slots) + One(Between(q.issuers[IssuerOf(a)])) - One(Between(pc))
  {
    hide WriteData, WriteSignal, LoadOf, Load;
    var c := if a.Enter? then Call([], 0, 0, 0, false) else p.issuers[IssuerOf(a)].call;
    if a.LockAndWrite? {
      LoadOfWrite(p.slots[c.index], c.items[c.i], ByIssuer(IssuerOf(a)));
      LoadAt(p.slots, c.index, IssuerStep(p, a).slots[c.index]);
    } else if a.SignalWrite? {
      LoadOfSignal(p.slots[c.index], Unlocked);
      LoadAt(p.slots, c.index, IssuerStep(p, a).slots[c.index]);
    }
  }

  lemma IssuerEnds<M>(p: Pool<M>, a: Action<M>)
    requires IssuerEnabled(p, a)
    ensures a.Enter? <==> p.issuers[IssuerOf(a)].Idle?
    ensures a.Enter? ==> p.sem.Free?
    ensures a.Leave? ==> IssuerStep(p, a).issuers[IssuerOf(a)].Idle?
  {
    hide WriteData, WriteSignal;
  }

  // One item more in the queues is one less between increment and write.
  lemma IssuerSum<M>(p: Pool<M>, a: Action<M>)
    requires ThreadsOk(p) && Ownership(p) && IssuerEnabled(p, a)
    requires p.numCurrentItems == Load(p.slots) + Pending(p)
    ensures IssuerStep(p, a).numCurrentItems == Load(IssuerStep(p, a).slots) + Pending(IssuerStep(p, a))
  {
    hide ThreadsOk, Ownership, IssuerStep, Load, CallEnabled, CallAfter, WriteData, WriteSignal;
    IssuerCounts(p, a);
    IssuerEnds(p, a);
    if !a.Enter? {
      Alone(p, IssuerOf(a));
    }
  }

  lemma IssuerEvent<M>(p: Pool<M>, a: Action<M>)
    requires ThreadsOk(p) && Ownership(p) && CountOk(p) && IssuerEnabled(p, a)
    ensures var q := IssuerStep(p, a);
            && (q.completed ==> q.numCurrentItems == 0)
            && !q.sem.HeldByWorker?
            && (q.sem.Free? && q.receipts != [] && q.numCurrentItems == 0 ==> q.completed)
  {
    hide SlotOk;
    assert IssuerOk(p.issuers[IssuerOf(a)], p.numCurrentItems, p.completed, |p.slots|);
    if !a.Enter? {
      Alone(p, IssuerOf(a));
    }
  }

  lemma IssuerCount<M>(p: Pool<M>, a: Action<M>)
    requires ThreadsOk(p) && Ownership(p) && CountOk(p) && IssuerEnabled(p, a)
    ensures CountOk(IssuerStep(p, a))
  {
    IssuerSum(p, a);
    IssuerEvent(p, a);
  }

  // What a write puts into a queue is what it counts as accepted.
  lemma HeldGrows<M>(slots: seq<Slot<M>>, w: nat, s: Slot<M>, more: multiset<M>)
    requires w < |slots| && HeldBy(s) == HeldBy(slots[w]) + more
    ensures Held(slots[w := s]) == Held(slots) + more
  {
    hide HeldBy;
    HeldAt(slots, w, s);
    Exchange(Held(slots[w := s]), Held(slots), HeldBy(s), HeldBy(slots[w]), more);
  }

  lemma WriteMoves<M>(s: Slot<M>, m: M, lock: Lock)
    ensures var (queue, took) := WriteData(s.queue, false, m);
            HeldBy(s.(queue := queue, lock := lock)) == HeldBy(s) + (if took then multiset{m} else multiset{})
  {
  }

  lemma SignalMoves<M>(s: Slot<M>, lock: Lock)
    ensures HeldBy(s.(queue := WriteSignal(s.queue), lock := lock)) == HeldBy(s) + multiset{}
  {
    assert HeldBy(s.(queue := WriteSignal(s.queue), lock := lock)) == HeldBy(s);
  }

  lemma IssuerHeld<M>(p: Pool<M>, a: Action<M>)
    requires IssuerEnabled(p, a) && p.accepted == p.executed + Held(p.slots)
    ensures var q := IssuerStep(p, a); q.accepted == q.executed + Held(q.slots)
  {
    hide HeldBy, Held, WriteData, WriteSignal;
    if a.LockAndWrite? {
      WriteHeld(p, a);
    } else if a.SignalWrite? {
      var k := p.issuers[IssuerOf(a)].call.index;
      SignalMoves(p.slots[k], Unlocked);
      HeldGrows(p.slots, k, IssuerStep(p, a).slots[k], multiset{});
    }
  }

  lemma WriteHeld<M>(p: Pool<M>, a: Action<M>)
    requires IssuerEnabled(p, a) && a.LockAndWrite? && p.accepted == p.executed + Held(p.slots)
    ensures var q := IssuerStep(p, a); q.accepted == q.executed + Held(q.slots)
  {
    hide HeldBy, Held, WriteData, CallAfter;
    var i := IssuerOf(a);
    var c := p.issuers[i].call;
    var (queue, took) := WriteData(p.slots[c.index].queue, false, c.items[c.i]);
    WriteMoves(p.slots[c.index], c.items[c.i], ByIssuer(i));
    HeldGrows(p.slots, c.index, p.slots[c.index].(queue := queue, lock := ByIssuer(i)),
        if took then multiset{c.items[c.i]} else multiset{});
  }

  lemma Prefix<M>(items: seq<M>, i: nat)
    requires i < |items|
    ensures multiset(items[..i + 1]) == multiset(items[..i]) + multiset{items[i]}
  {
    assert items[..i + 1] == items[..i] + [items[i]];
  }

  lemma ReceiptAdds<M>(receipts: seq<Receipt<M>>, r: Receipt<M>)
    requires r.taken <= |r.items|
    ensures Receipted(receipts + [r]) == Receipted(receipts) + multiset(r.items[..r.taken])
  {
    assert (receipts + [r])[..|receipts|] == receipts;
  }

  lemma CallTakes<M>(pc: IssuerPc<M>, a: Action<M>, next: nat, workers: nat, took: bool)
    requires CallEnabled(pc, a) && (took ==> a.LockAndWrite?) && !a.Enter? && !a.Leave?
    ensures var pc' := CallAfter(pc, a, next, workers, took);
            !pc'.Idle? && !pc.Idle? && pc'.call.items == pc.call.items
            && Taken(pc') == Taken(pc) + if took then 1 else 0
  {
  }

  lemma ItemsTaken<M>(pc: IssuerPc<M>, a: Action<M>, next: nat, workers: nat, took: bool)
    requires CallEnabled(pc, a) && (took ==> a.LockAndWrite?) && !a.Enter? && !a.Leave?
    ensures TakenItems(CallAfter(pc, a, next, workers, took))
         == TakenItems(pc) + (if took then multiset{pc.call.items[pc.call.i]} else multiset{})
  {
    CallTakes(pc, a, next, workers, took);
    hide CallAfter;
    if took {
      Prefix(pc.call.items, pc.call.i);
    }
  }

  lemma Ends<M>(pc: IssuerPc<M>, a: Action<M>, next: nat, workers: nat)
    requires CallEnabled(pc, a)
    ensures a.Enter? ==> TakenItems(CallAfter(pc, a, next, workers, false)) == multiset{}
    ensures a.Leave? && pc.call.i <= |pc.call.items| ==> TakenItems(pc) == multiset(pc.call.items[..pc.call.i])
  {
    if a.Enter? {
      assert a.items[..0] == [];
    }
  }

  lemma IssuerLeaves<M>(p: Pool<M>, a: Action<M>)
    requires ThreadsOk(p) && IssuerEnabled(p, a) && a.Leave?
    ensures p.issuers[IssuerOf(a)].call.i <= |p.issuers[IssuerOf(a)].call.items|
  {
    assert IssuerOk(p.issuers[IssuerOf(a)], p.numCurrentItems, p.completed, |p.slots|);
  }

  lemma InsideStep<M>(p: Pool<M>, a: Action<M>)
    requires IssuerEnabled(p, a) && !a.Enter? && !a.Leave?
    ensures var i := IssuerOf(a);
            var pc := p.issuers[i];
            var took := a.LockAndWrite? && WriteData(p.slots[pc.call.index].queue, false, pc.call.items[pc.call.i]).1;
            var q := IssuerStep(p, a);
            && q.issuers == p.issuers[i := CallAfter(pc, a, p.nextWorkerIndex, |p.slots|, took)]
            && q.sem == p.sem && q.receipts == p.receipts
            && q.accepted == p.accepted + if took then multiset{pc.call.items[pc.call.i]} else multiset{}
  {
    hide WriteData, WriteSignal, CallAfter;
  }

  // Inside a call the receipts stay and the items grow with each accepted one.
  lemma IssuerInside<M>(p: Pool<M>, a: Action<M>)
    requires Ownership(p) && IssuerEnabled(p, a) && !a.Enter? && !a.Leave?
    requires p.accepted == Receipted(p.receipts) + TakenSoFar(p)
    ensures var q := IssuerStep(p, a); q.accepted == Receipted(q.receipts) + TakenSoFar(q)
  {
    hide Ownership, WriteData, WriteSignal, Receipted, TakenItems, CallAfter, IssuerStep;
    var pc := p.issuers[IssuerOf(a)];
    var took := a.LockAndWrite? && WriteData(p.slots[pc.call.index].queue, false, pc.call.items[pc.call.i]).1;
    IssuerEnds(p, a);
    Alone(p, IssuerOf(a));
    InsideStep(p, a);
    ItemsTaken(pc, a, p.nextWorkerIndex, |p.slots|, took);
  }

  lemma IssuerEnters<M>(p: Pool<M>, a: Action<M>)
    requires IssuerEnabled(p, a) && a.Enter? && p.accepted == Receipted(p.receipts) + TakenSoFar(p)
    ensures var q := IssuerStep(p, a); q.accepted == Receipted(q.receipts) + TakenSoFar(q)
  {
    hide Receipted, TakenItems, CallAfter;
    Ends(p.issuers[IssuerOf(a)], a, p.nextWorkerIndex, |p.slots|);
  }

  lemma LeaveStep<M>(p: Pool<M>, a: Action<M>)
    requires IssuerEnabled(p, a) && a.Leave?
    ensures var pc := p.issuers[IssuerOf(a)];
            var q := IssuerStep(p, a);
            && q.accepted == p.accepted && q.sem == Free
            && q.receipts == p.receipts + [Receipt(pc.call.items, pc.call.i, pc.call.wrote)]
  {
  }

  // Only the issuer that holds the semaphore has taken anything so far.
  lemma TakenByHolder<M>(p: Pool<M>, i: nat)
    requires Ownership(p) && i < |p.issuers| && !p.issuers[i].Idle?
    ensures TakenSoFar(p) == TakenItems(p.issuers[i])
  {
  }

  lemma TakenWhenFree<M>(p: Pool<M>)
    requires p.sem == Free
    ensures TakenSoFar(p) == multiset{}
  {
  }

  // On the way out the receipt takes over what the call had taken.
  lemma IssuerReturns<M>(p: Pool<M>, a: Action<M>)
    requires ThreadsOk(p) && Ownership(p) && IssuerEnabled(p, a) && a.Leave?
    requires p.accepted == Receipted(p.receipts) + TakenSoFar(p)
    ensures var q := IssuerStep(p, a); q.accepted == Receipted(q.receipts) + TakenSoFar(q)
  {
    hide ThreadsOk, Ownership, Receipted, TakenItems, TakenSoFar, CallAfter, IssuerStep;
    var pc := p.issuers[IssuerOf(a)];
    LeaveStep(p, a);
    TakenByHolder(p, IssuerOf(a));
    TakenWhenFree(IssuerStep(p, a));
    IssuerLeaves(p, a);
    Ends(pc, a, p.nextWorkerIndex, |p.slots|);
    ReceiptAdds(p.receipts, Receipt(pc.call.items, pc.call.i, pc.call.wrote));
  }

  lemma IssuerReceipts<M>(p: Pool<M>, a: Action<M>)
    requires ThreadsOk(p) && IssuerEnabled(p, a) && forall r <- p.receipts :: HonestReceipt(r)
    ensures forall r <- IssuerStep(p, a).receipts :: HonestReceipt(r)
  {
    assert IssuerOk(p.issuers[IssuerOf(a)], p.numCurrentItems, p.completed, |p.slots|);
    hide SlotOk;
  }

  lemma IssuerItems<M>(p: Pool<M>, a: Action<M>)
    requires ThreadsOk(p) && Ownership(p) && ItemsOk(p) && IssuerEnabled(p, a)
    ensures ItemsOk(IssuerStep(p, a))
  {
    hide ThreadsOk, Ownership, IssuerEnabled, IssuerStep, Held, Receipted, TakenSoFar, HonestReceipt;
    IssuerHeld(p, a);
    IssuerReceipts(p, a);
    if a.Enter? {
      IssuerEnters(p, a);
    } else if a.Leave? {
      IssuerReturns(p, a);
    } else {
      IssuerInside(p, a);
    }
  }

  lemma IssuerDestroy<M>(p: Pool<M>, a: Action<M>)
    requires DestroyOk(p) && IssuerEnabled(p, a)
    ensures DestroyOk(IssuerStep(p, a))
  {
  }

  // ---- the steps of threadpool_destroy -------------------------------------------------

  lemma DestroyerSum<M>(p: Pool<M>, a: Action<M>)
    requires DestroyerEnabled(p, a)
    ensures Load(DestroyerStep(p, a).slots) == Load(p.slots) && Held(DestroyerStep(p, a).slots) == Held(p.slots)
  {
    if a.PopQueue? {
      var k := p.destroyer.k;
      var s := p.slots[k].(queue := Pop(p.slots[k].queue));
      LoadAt(p.slots, k, s);
      assert HeldBy(s) == HeldBy(p.slots[k]) + multiset{};
      HeldGrows(p.slots, k, s, multiset{});
    }
  }

  lemma DestroyerThreads<M>(p: Pool<M>, a: Action<M>)
    requires ThreadsOk(p) && Ownership(p) && DestroyOk(p) && DestroyerEnabled(p, a)
    ensures ThreadsOk(DestroyerStep(p, a)) && Ownership(DestroyerStep(p, a)) && DestroyOk(DestroyerStep(p, a))
  {
  }

  lemma DestroyerRest<M>(p: Pool<M>, a: Action<M>)
    requires CountOk(p) && ItemsOk(p) && DestroyerEnabled(p, a)
    ensures CountOk(DestroyerStep(p, a)) && ItemsOk(DestroyerStep(p, a))
  {
    hide Held, Load, Receipted, TakenItems;
    DestroyerSum(p, a);
  }

  // ---- every reachable state -------------------------------------------------------------

  lemma StepInv<M>(p: Pool<M>, a: Action<M>)
    requires Inv(p) && Enabled(p, a)
    ensures Inv(Next(p, a))
  {
    hide ThreadsOk, Ownership, CountOk, ItemsOk, DestroyOk;
    hide WorkerEnabled, IssuerEnabled, DestroyerEnabled, WorkerStep, IssuerStep, DestroyerStep;
    if WorkerEnabled(p, a) {
      WorkerThreads(p, a);
      WorkerOwnership(p, a);
      WorkerCount(p, a);
      WorkerItems(p, a);
      WorkerDestroy(p, a);
    } else if IssuerEnabled(p, a) {
      IssuerThreads(p, a);
      IssuerOwnership(p, a);
      IssuerCount(p, a);
      IssuerItems(p, a);
      IssuerDestroy(p, a);
    } else {
      DestroyerThreads(p, a);
      DestroyerRest(p, a);
    }
  }

  lemma {:induction false} Reachable<M>(p: Pool<M>, actions: seq<Action<M>>, q: Pool<M>)
    requires Inv(p) && Reaches(p, actions, q)
    ensures Inv(q)
    decreases |actions|
  {
    hide Inv, Next, Enabled;
    if actions != [] {
      StepInv(p, actions[0]);
      Reachable(Next(p, actions[0]), actions[1..], q);
    }
  }

  // ---- what follows for every run -----------------------------------------------------

  // Nothing is lost and nothing is done twice: what the queues accepted is what
  // has been executed plus what is still queued or in a worker's hands, and it is
  // what the issuers were told.  The counter is the number of items queued or not
  // yet counted off, plus the one an issuer is about to place.
  lemma Conservation<M>(p: Pool<M>, capacity: nat, actions: seq<Action<M>>, q: Pool<M>)
    requires Initial(p, capacity) && Reaches(p, actions, q)
    ensures q.accepted == q.executed + Held(q.slots)
    ensures q.accepted == Receipted(q.receipts) + TakenSoFar(q)
    ensures forall r <- q.receipts :: HonestReceipt(r)
    ensures q.numCurrentItems == Load(q.slots) + Pending(q)
  {
    InitialInv(p, capacity);
    Reachable(p, actions, q);
  }

  lemma {:induction false} EmptyLoad<M>(slots: seq<Slot<M>>)
    requires Load(slots) == 0
    ensures Held(slots) == multiset{}
    ensures forall w {:trigger slots[w]} | 0 <= w < |slots| :: slots[w].queue.msgs == [] && InFlight(slots[w].pc) == 0
  {
    if slots != [] {
      EmptyLoad(slots[1..]);
      assert HeldBy(slots[0]) == multiset{};
      assert forall w {:trigger slots[w]} | 0 < w < |slots| :: slots[w] == slots[1..][w - 1];
    }
  }

  // Whenever the event is set or the counter reads 0, every accepted item's
  // function has run, and every worker is done with it.
  lemma CompleteMeansDone<M>(p: Pool<M>, capacity: nat, actions: seq<Action<M>>, q: Pool<M>)
    requires Initial(p, capacity) && Reaches(p, actions, q)
    requires q.completed || q.numCurrentItems == 0
    ensures q.executed == q.accepted
    ensures forall w {:trigger q.slots[w]} | 0 <= w < |q.slots| ::
            q.slots[w].queue.msgs == [] && InFlight(q.slots[w].pc) == 0
  {
    InitialInv(p, capacity);
    Reachable(p, actions, q);
    EmptyLoad(q.slots);
  }

  // Conversely, once some issue has returned and nobody holds the semaphore, the
  // event is set exactly when nothing is left.
  lemma DoneMeansComplete<M>(p: Pool<M>, capacity: nat, actions: seq<Action<M>>, q: Pool<M>)
    requires Initial(p, capacity) && Reaches(p, actions, q)
    requires q.receipts != [] && q.sem == Free
    ensures q.completed <==> Load(q.slots) == 0
    ensures q.accepted == Receipted(q.receipts)
  {
    InitialInv(p, capacity);
    Reachable(p, actions, q);
  }

  // The ways through threadpool_complete: reading the counter, passing the event
  // because it is set, or sleeping on it first.
  datatype Asking = Polled | Passed | Slept(wakeup: Event.Wakeup)

  // What it returns when the decision falls in state p.
  predicate Completes<M>(p: Pool<M>, asking: Asking) {
    match asking
    case Polled => p.numCurrentItems == 0
    case Passed => p.completed
    case Slept(wakeup) => p.completed && !wakeup.Failed?
  }

  // However threadpool_complete comes by the answer true, all accepted work has
  // been done by then.  The answer is false with nothing left to do only while an
  // issue or a count-down is still under way, before the first issue, or because
  // the sleep failed.
  lemma CompleteAnswers<M>(p: Pool<M>, capacity: nat, actions: seq<Action<M>>, q: Pool<M>, asking: Asking)
    requires Initial(p, capacity) && Reaches(p, actions, q)
    ensures Completes(q, asking) ==>
              && q.executed == q.accepted
              && forall w {:trigger q.slots[w]} | 0 <= w < |q.slots| ::
                  q.slots[w].queue.msgs == [] && InFlight(q.slots[w].pc) == 0
    ensures !Completes(q, asking) && Load(q.slots) == 0 ==>
              q.sem != Free || q.receipts == [] || asking == Slept(Event.Failed)
  {
    if Completes(q, asking) {
      CompleteMeansDone(p, capacity, actions, q);
    } else if q.receipts != [] && q.sem == Free {
      DoneMeansComplete(p, capacity, actions, q);
      Conservation(p, capacity, actions, q);
    }
  }

  // A worker leaves its loop only because its queue was popped, and only
  // threadpool_destroy pops queues.
  lemma WorkersStay<M>(p: Pool<M>, capacity: nat, actions: seq<Action<M>>, q: Pool<M>, w: nat)
    requires Initial(p, capacity) && Reaches(p, actions, q)
    requires w < |q.slots| && q.slots[w].pc.Exited?
    ensures q.slots[w].queue.popped && !q.destroyer.NotCalled?
  {
    InitialInv(p, capacity);
    Reachable(p, actions, q);
    assert SlotOk(q.slots[w]);
  }

  // When threadpool_destroy has joined everybody, no item is half done: what was
  // accepted has been executed or still lies, unread, in a queue.
  lemma {:induction false} QueuedOnly<M>(slots: seq<Slot<M>>)
    requires forall w {:trigger slots[w]} | 0 <= w < |slots| :: slots[w].pc.Exited?
    ensures Held(slots) == Queued(slots)
  {
    if slots != [] {
      QueuedOnly(slots[1..]);
    }
  }

  ghost function Queued<M>(slots: seq<Slot<M>>): multiset<M> {
    if slots == [] then multiset{} else multiset(slots[0].queue.msgs) + Queued(slots[1..])
  }

  lemma AfterDestroy<M>(p: Pool<M>, capacity: nat, actions: seq<Action<M>>, q: Pool<M>)
    requires Initial(p, capacity) && Reaches(p, actions, q) && q.destroyer.Destroyed?
    ensures forall w {:trigger q.slots[w]} | 0 <= w < |q.slots| :: q.slots[w].pc.Exited?
    ensures q.accepted == q.executed + Queued(q.slots)
  {
    InitialInv(p, capacity);
    Reachable(p, actions, q);
    QueuedOnly(q.slots);
  }

  // threadpool_destroy takes the workers one by one: the next queue is popped only
  // when the workers before it have left, and nobody else pops.
  lemma DestroyInTurn<M>(p: Pool<M>, capacity: nat, actions: seq<Action<M>>, q: Pool<M>, w: nat)
    requires Initial(p, capacity) && Reaches(p, actions, q) && w < |q.slots|
    ensures q.destroyer.Popping? ==>
              q.destroyer.k < |q.slots| && (q.slots[w].queue.popped <==> w < q.destroyer.k)
    ensures q.destroyer.Joining? ==>
              q.destroyer.k < |q.slots| && (q.slots[w].queue.popped <==> w <= q.destroyer.k)
    ensures (q.destroyer.Popping? || q.destroyer.Joining?) && w < q.destroyer.k ==> q.slots[w].pc.Exited?
    ensures q.destroyer.NotCalled? ==> !q.slots[w].queue.popped && !q.slots[w].pc.Exited?
  {
    InitialInv(p, capacity);
    Reachable(p, actions, q);
    assert SlotOk(q.slots[w]);
  }

  // ---- no deadlock, no lost wake-up ---------------------------------------------------

  lemma IssuerCanStep<M>(p: Pool<M>, i: nat) returns (a: Action<M>)
    requires ThreadsOk(p) && Ownership(p) && i < |p.issuers| && p.sem == HeldByIssuer(i)
    ensures Enabled(p, a) && !a.Enter? && !a.BeginDestroy?
  {
    var pc := p.issuers[i];
    assert IssuerOk(pc, p.numCurrentItems, p.completed, |p.slots|);
    assert !pc.Idle?;
    if pc.Writing? {
      a := WriterCanStep(p, i);
    } else {
      hide SlotOk, Ownership, WorkerEnabled, DestroyerEnabled;
      a := if pc.Entered? then ResetEvent(i)
           else if pc.AtLoop? then NextItem(i)
           else if pc.Picking? then PickWorker(i)
           else if pc.Signalling? then SignalWrite(i)
           else if pc.Checking? then CheckWrote(i)
           else if pc.Closing? then Close(i)
           else Leave(i);
      assert IssuerEnabled(p, a);
    }
  }

  // An issuer in front of a queue's mutex waits for nobody but the queue's own
  // worker, and that one is inside the mutex.
  lemma WriterCanStep<M>(p: Pool<M>, i: nat) returns (a: Action<M>)
    requires ThreadsOk(p) && Ownership(p) && i < |p.issuers| && p.sem == HeldByIssuer(i) && p.issuers[i].Writing?
    ensures Enabled(p, a) && !a.Enter? && !a.BeginDestroy?
  {
    var c := p.issuers[i].call;
    assert IssuerOk(p.issuers[i], p.numCurrentItems, p.completed, |p.slots|);
    assert SlotOk(p.slots[c.index]);
    if p.slots[c.index].lock == Unlocked {
      a := LockAndWrite(i);
      assert IssuerEnabled(p, a);
    } else {
      a := SignalRead(c.index);
      assert WorkerEnabled(p, a);
    }
  }

  // A worker that is not waiting for its event or for the semaphore can go on.
  lemma SlotCanStep<M>(s: Slot<M>, w: nat) returns (a: Action<M>)
    requires SlotOk(s) && !s.lock.ByIssuer? && !s.pc.Exited? && (s.pc.Waiting? ==> s.queue.readSet)
    ensures SlotEnabled(s, a) && WorkerOf(a) == w && (a.TakeSemaphore? ==> s.pc.Done?) && !a.Enter? && !a.BeginDestroy?
  {
    a := match s.pc
      case Waiting => PassWait(w)
      case AtLock => LockAndRead(w)
      case Reading(_, _) => SignalRead(w)
      case Running(_) => RunFunction(w)
      case Done => TakeSemaphore(w)
      case Counting => CountDown(w)
      case Deciding => TestCount(w)
      case _ => PostSemaphore(w);
  }

  lemma WorkerCanStep<M>(p: Pool<M>, w: nat) returns (a: Action<M>)
    requires ThreadsOk(p) && Ownership(p) && w < |p.slots| && p.sem == Free
    requires !p.slots[w].pc.Exited? && (p.slots[w].queue.popped || LoadOf(p.slots[w]) > 0)
    ensures Enabled(p, a) && !a.Enter? && !a.BeginDestroy?
  {
    assert SlotOk(p.slots[w]) && !p.slots[w].lock.ByIssuer?;
    a := SlotCanStep(p.slots[w], w);
    hide SlotEnabled, SlotOk, LoadOf;
    assert WorkerEnabled(p, a);
  }

  // Whoever holds the semaphore can go on.
  lemma HolderCanStep<M>(p: Pool<M>) returns (a: Action<M>)
    requires ThreadsOk(p) && Ownership(p) && p.sem != Free
    ensures Enabled(p, a) && !a.Enter? && !a.BeginDestroy?
  {
    if p.sem.HeldByIssuer? {
      a := IssuerCanStep(p, p.sem.i);
    } else {
      var w := p.sem.w;
      assert HoldsSemaphore(p.slots[w].pc);
      a := if p.slots[w].pc.Counting? then CountDown(w)
           else if p.slots[w].pc.Deciding? then TestCount(w)
           else PostSemaphore(w);
      assert WorkerEnabled(p, a);
    }
  }

  lemma {:induction false} SomeLoad<M>(slots: seq<Slot<M>>) returns (w: nat)
    requires Load(slots) > 0
    ensures w < |slots| && LoadOf(slots[w]) > 0
  {
    if LoadOf(slots[0]) > 0 {
      w := 0;
    } else {
      w := SomeLoad(slots[1..]);
      w := w + 1;
    }
  }

  // While the pool lives, a state with work outstanding or the semaphore taken is
  // never stuck: some thread that is already engaged can take its next step.
  lemma NeverStuck<M>(p: Pool<M>, capacity: nat, actions: seq<Action<M>>, q: Pool<M>) returns (a: Action<M>)
    requires Initial(p, capacity) && Reaches(p, actions, q)
    requires q.destroyer.NotCalled? && (q.numCurrentItems > 0 || q.sem != Free)
    ensures Enabled(q, a) && !a.Enter? && !a.BeginDestroy?
  {
    InitialInv(p, capacity);
    Reachable(p, actions, q);
    if q.sem != Free {
      a := HolderCanStep(q);
    } else {
      var w := SomeLoad(q.slots);
      a := WorkerCanStep(q, w);
    }
  }

  lemma DestroyerCanStep<M>(p: Pool<M>) returns (a: Action<M>)
    requires ThreadsOk(p) && Ownership(p) && DestroyOk(p) && p.sem == Free
    requires p.destroyer.Popping? || p.destroyer.Joining?
    ensures Enabled(p, a) && !a.Enter? && !a.BeginDestroy?
  {
    var k := p.destroyer.k;
    assert SlotOk(p.slots[k]) && !p.slots[k].lock.ByIssuer?;
    if p.destroyer.Popping? {
      a := if p.slots[k].lock == Unlocked then PopQueue else SignalRead(k);
      assert DestroyerEnabled(p, a) || WorkerEnabled(p, a);
    } else if p.slots[k].pc.Exited? {
      a := JoinWorker;
      assert DestroyerEnabled(p, a);
    } else {
      a := WorkerCanStep(p, k);
    }
  }

  // Destroying the pool is never stuck either: until the last worker has been
  // joined, some thread can take its next step.
  lemma DestroyNeverStuck<M>(p: Pool<M>, capacity: nat, actions: seq<Action<M>>, q: Pool<M>) returns (a: Action<M>)
    requires Initial(p, capacity) && Reaches(p, actions, q)
    requires q.destroyer.Popping? || q.destroyer.Joining? || q.sem != Free
    ensures Enabled(q, a) && !a.Enter? && !a.BeginDestroy?
  {
    InitialInv(p, capacity);
    Reachable(p, actions, q);
    if q.sem != Free {
      a := HolderCanStep(q);
    } else {
      a := DestroyerCanStep(q);
    }
  }

  // ---- the counter fits ---------------------------------------------------------------

  ghost predicate OfCapacity<M>(slots: seq<Slot<M>>, capacity: nat) {
    forall w {:trigger slots[w]} | 0 <= w < |slots| :: slots[w].queue.capacity == capacity
  }

  lemma StepShape<M>(p: Pool<M>, a: Action<M>, capacity: nat)
    requires Enabled(p, a) && OfCapacity(p.slots, capacity)
    ensures |Next(p, a).slots| == |p.slots| && OfCapacity(Next(p, a).slots, capacity)
  {
    if WorkerEnabled(p, a) {
      assert SlotAfter(p.slots[WorkerOf(a)], a).queue.capacity == p.slots[WorkerOf(a)].queue.capacity;
      hide SlotAfter;
    } else if IssuerEnabled(p, a) {
      IssuerShape(p, a, capacity);
      hide IssuerStep;
    }
  }

  lemma IssuerShape<M>(p: Pool<M>, a: Action<M>, capacity: nat)
    requires IssuerEnabled(p, a) && OfCapacity(p.slots, capacity)
    ensures |IssuerStep(p, a).slots| == |p.slots| && OfCapacity(IssuerStep(p, a).slots, capacity)
  {
    hide CallAfter;
  }

  lemma {:induction false} RunShape<M>(p: Pool<M>, actions: seq<Action<M>>, q: Pool<M>, capacity: nat)
    requires Reaches(p, actions, q)
    requires OfCapacity(p.slots, capacity)
    ensures |q.slots| == |p.slots|
    ensures OfCapacity(q.slots, capacity)
    decreases |actions|
  {
    hide Next, Enabled, OfCapacity;
    if actions != [] {
      StepShape(p, actions[0], capacity);
      RunShape(Next(p, actions[0]), actions[1..], q, capacity);
    }
  }

  lemma {:induction false} LoadBound<M>(slots: seq<Slot<M>>, capacity: nat)
    requires forall w {:trigger slots[w]} | 0 <= w < |slots| :: SlotOk(slots[w]) && slots[w].queue.capacity == capacity
    ensures Load(slots) <= |slots| * (capacity + 1)
  {
    if slots != [] {
      assert SlotOk(slots[0]);
      hide SlotOk;
      LoadBound(slots[1..], capacity);
      assert |slots| * (capacity + 1) == (|slots| - 1) * (capacity + 1) + (capacity + 1);
    }
  }

  // A pool whose queues and workers together hold fewer than 2^31 - 1 items never
  // takes its 32-bit counter out of range.
  lemma CounterFits<M>(p: Pool<M>, capacity: nat, actions: seq<Action<M>>, q: Pool<M>)
    requires Initial(p, capacity) && Reaches(p, actions, q)
    ensures 0 <= q.numCurrentItems <= |p.slots| * (capacity + 1) + 1
  {
    InitialInv(p, capacity);
    Reachable(p, actions, q);
    RunShape(p, actions, q, capacity);
    LoadBound(q.slots, capacity);
  }
}
