/** The thread pool gets its work done: every step of every thread uses up some of
    a finite amount of work, which only a new threadpool_issue call adds to, and a
    pool in which no engaged thread has a step left has nothing outstanding.
 */
module PoolProgress {
  import opened Channel
  import opened ThreadPool

  // ---- how much work there is -----------------------------------------------

  // The steps a worker has left until it waits again, counting the three that
  // take it out of its loop at the end.
  function Rank<M>(pc: WorkerPc<M>): nat {
    match pc
    case Waiting => 3
    case AtLock => 2
    case Reading(ret, _) => if ret then 9 else 1
    case Running(_) => 8
    case Done => 7
    case Counting => 6
    case Deciding => 5
    case Leaving => 4
    case Exited => 0
  }

  // Each waiting message takes a worker eight steps.
  function SlotWork<M>(s: Slot<M>): nat { 8 * |s.queue.msgs| + Rank(s.pc) }

  function SlotsWork<M>(slots: seq<Slot<M>>): nat {
    if slots == [] then 0 else SlotWork(slots[0]) + SlotsWork(slots[1..])
  }

  // Placing n items: an item is offered to each worker at most once, at four
  // steps a time, and then costs that worker its eight.
  function ItemsWork(n: nat, workers: nat): nat { n * (4 * workers + 13) }

  function ItemsLeft<M>(c: Call<M>, past: nat): nat {
    if c.i + past <= |c.items| then |c.items| - c.i - past else 0
  }

  function OffersLeft<M>(c: Call<M>, workers: nat): nat {
    if c.tries < workers then 4 * (workers - c.tries) else 0
  }

  function Refused<M>(c: Call<M>, workers: nat): nat {
    if c.tries < workers then OffersLeft(c, workers) + 12 else 8
  }

  function CallWork<M>(pc: IssuerPc<M>, workers: nat): nat {
    match pc
    case Idle => 0
    case Entered(c) => 4 + ItemsWork(ItemsLeft(c, 0), workers)
    case AtLoop(c) => 3 + ItemsWork(ItemsLeft(c, 0), workers)
    case Picking(c) => 15 + ItemsWork(ItemsLeft(c, 1), workers) + OffersLeft(c, workers)
    case Writing(c) => 6 + ItemsWork(ItemsLeft(c, 1), workers) + Refused(c, workers)
    case Signalling(c) => 5 + ItemsWork(ItemsLeft(c, 1), workers) + if c.wrote then 0 else Refused(c, workers)
    case Checking(c) => 4 + ItemsWork(ItemsLeft(c, 1), workers) + if c.wrote then 0 else Refused(c, workers)
    case Closing(c) => 2
    case Posting(c) => 1
  }

  function CallsWork<M>(issuers: seq<IssuerPc<M>>, workers: nat): nat {
    if issuers == [] then 0 else CallWork(issuers[0], workers) + CallsWork(issuers[1..], workers)
  }

  function DestroyerWork(d: Destroyer, workers: nat): nat {
    match d
    case NotCalled => 2 * workers + 1
    case Popping(k) => if k < workers then 2 * (workers - k) else 0
    case Joining(k) => if k < workers then 2 * (workers - k) - 1 else 0
    case Destroyed => 0
  }

  function Work<M>(p: Pool<M>): nat {
    SlotsWork(p.slots) + CallsWork(p.issuers, |p.slots|) + DestroyerWork(p.destroyer, |p.slots|)
  }

  // What a new call adds.
  function Added<M>(a: Action<M>, workers: nat): nat {
    if a.Enter? then 5 + ItemsWork(|a.items|, workers) else 0
  }

  function AddedBy<M>(actions: seq<Action<M>>, workers: nat): nat {
    if actions == [] then 0 else Added(actions[0], workers) + AddedBy(actions[1..], workers)
  }

  // ---- every step does some of it ---------------------------------------------

  lemma {:induction false} SlotsWorkAt<M>(slots: seq<Slot<M>>, w: nat, s: Slot<M>)
    requires w < |slots|
    ensures SlotsWork(slots[w := s]) == SlotsWork(slots) - SlotWork(slots[w]) + SlotWork(s)
  {
    hide SlotWork;
    if w > 0 {
      SlotsWorkAt(slots[1..], w - 1, s);
      assert slots[w := s][1..] == slots[1..][w - 1 := s];
    } else {
      assert slots[w := s][1..] == slots[1..];
    }
  }

  lemma {:induction false} CallsWorkAt<M>(issuers: seq<IssuerPc<M>>, i: nat, pc: IssuerPc<M>, workers: nat)
    requires i < |issuers|
    ensures CallsWork(issuers[i := pc], workers)
         == CallsWork(issuers, workers) - CallWork(issuers[i], workers) + CallWork(pc, workers)
  {
    hide CallWork;
    if i > 0 {
      CallsWorkAt(issuers[1..], i - 1, pc, workers);
      assert issuers[i := pc][1..] == issuers[1..][i - 1 := pc];
    } else {
      assert issuers[i := pc][1..] == issuers[1..];
    }
  }

  lemma WriteWork<M>(s: Slot<M>, m: M, lock: Lock)
    ensures var (queue, took) := WriteData(s.queue, false, m);
            SlotWork(s.(queue := queue, lock := lock)) == SlotWork(s) + if took then 8 else 0
  {
  }

  lemma SignalWork<M>(s: Slot<M>, lock: Lock)
    ensures SlotWork(s.(queue := WriteSignal(s.queue), lock := lock)) == SlotWork(s)
  {
  }

  lemma WorkerWorks<M>(s: Slot<M>, a: Action<M>)
    requires SlotOk(s) && SlotEnabled(s, a)
    ensures SlotWork(SlotAfter(s, a)) < SlotWork(s)
  {
    hide ReadSignal;
    ReadMoves(s.queue);
  }

  lemma OneItemMore(n: nat, workers: nat)
    ensures ItemsWork(n + 1, workers) == ItemsWork(n, workers) + 4 * workers + 13
  {
  }

  // A call's own work shrinks with each of its steps, by another eight when a
  // queue takes an item.
  lemma CallWorks<M>(pc: IssuerPc<M>, a: Action<M>, next: nat, workers: nat, took: bool)
    requires CallEnabled(pc, a) && (took ==> a.LockAndWrite?)
    ensures CallWork(CallAfter(pc, a, next, workers, took), workers) + 1 + (if took then 8 else 0)
         <= CallWork(pc, workers) + Added(a, workers)
  {
    hide ItemsWork;
    if a.NextItem? && pc.call.i < |pc.call.items| {
      OneItemMore(ItemsLeft(pc.call, 1), workers);
    }
  }

  lemma IssuerWorks<M>(p: Pool<M>, a: Action<M>)
    requires IssuerEnabled(p, a)
    ensures |IssuerStep(p, a).slots| == |p.slots|
    ensures Work(IssuerStep(p, a)) + 1 <= Work(p) + Added(a, |p.slots|)
  {
    hide SlotWork, SlotsWork, CallWork, CallsWork, CallAfter, WriteData, WriteSignal, CallEnabled, Added, DestroyerWork;
    var i := IssuerOf(a);
    var pc := p.issuers[i];
    var q := IssuerStep(p, a);
    var took := IssuerTakes(p, a);
    CallWorks(pc, a, p.nextWorkerIndex, |p.slots|, took);
    CallsWorkAt(p.issuers, i, CallAfter(pc, a, p.nextWorkerIndex, |p.slots|, took), |p.slots|);
  }

  // What the step leaves in the queues: `took` tells whether one took an item.
  lemma IssuerTakes<M>(p: Pool<M>, a: Action<M>) returns (took: bool)
    requires IssuerEnabled(p, a)
    ensures took ==> a.LockAndWrite?
    ensures var q := IssuerStep(p, a);
            && |q.slots| == |p.slots| && q.destroyer == p.destroyer
            && SlotsWork(q.slots) == SlotsWork(p.slots) + (if took then 8 else 0)
            && q.issuers == p.issuers[IssuerOf(a) := CallAfter(p.issuers[IssuerOf(a)], a, p.nextWorkerIndex, |p.slots|,
                took)]
  {
    hide SlotWork, SlotsWork, CallAfter, WriteData, WriteSignal;
    took := false;
    var i := IssuerOf(a);
    if a.LockAndWrite? {
      var c := p.issuers[i].call;
      took := WriteData(p.slots[c.index].queue, false, c.items[c.i]).1;
      WriteWork(p.slots[c.index], c.items[c.i], ByIssuer(i));
      SlotsWorkAt(p.slots, c.index, IssuerStep(p, a).slots[c.index]);
    } else if a.SignalWrite? {
      var c := p.issuers[i].call;
      SignalWork(p.slots[c.index], Unlocked);
      SlotsWorkAt(p.slots, c.index, IssuerStep(p, a).slots[c.index]);
    }
  }

  lemma DestroyerWorks<M>(p: Pool<M>, a: Action<M>)
    requires DestroyerEnabled(p, a)
    ensures |DestroyerStep(p, a).slots| == |p.slots|
    ensures Work(DestroyerStep(p, a)) + 1 <= Work(p)
  {
    hide SlotsWork, CallsWork;
    if a.PopQueue? {
      var k := p.destroyer.k;
      SlotsWorkAt(p.slots, k, DestroyerStep(p, a).slots[k]);
    }
  }

  lemma StepWorks<M>(p: Pool<M>, a: Action<M>)
    requires ThreadsOk(p) && Enabled(p, a)
    ensures |Next(p, a).slots| == |p.slots|
    ensures Work(Next(p, a)) + 1 <= Work(p) + Added(a, |p.slots|)
  {
    hide IssuerEnabled, IssuerStep, DestroyerEnabled, DestroyerStep, SlotsWork, CallsWork, SlotWork, SlotAfter,
        DestroyerWork, SlotOk, IssuerOk;
    if WorkerEnabled(p, a) {
      WorkerWorks(p.slots[WorkerOf(a)], a);
      SlotsWorkAt(p.slots, WorkerOf(a), SlotAfter(p.slots[WorkerOf(a)], a));
    } else if IssuerEnabled(p, a) {
      IssuerWorks(p, a);
    } else {
      DestroyerWorks(p, a);
    }
  }

  lemma InvHasThreads<M>(p: Pool<M>)
    requires Inv(p)
    ensures ThreadsOk(p)
  {
    hide ThreadsOk, Ownership, CountOk, ItemsOk, DestroyOk;
  }

  // No run is longer than the work there was and the work the calls it begins
  // bring along: whatever the interleaving, the threads never go round in circles.
  lemma {:induction false} RunsEnd<M>(p: Pool<M>, actions: seq<Action<M>>, q: Pool<M>)
    requires Inv(p) && Reaches(p, actions, q)
    ensures |q.slots| == |p.slots|
    ensures |actions| + Work(q) <= Work(p) + AddedBy(actions, |p.slots|)
    decreases |actions|
  {
    hide Inv, Work, Next, Enabled, Added;
    if actions != [] {
      InvHasThreads(p);
      StepWorks(p, actions[0]);
      StepInv(p, actions[0]);
      RunsEnd(Next(p, actions[0]), actions[1..], q);
    }
  }

  // ---- and at the end everything is done ----------------------------------------

  // Nobody but a new caller can take a step.
  ghost predicate Quiet<M(!new)>(p: Pool<M>) {
    forall a: Action<M> :: Enabled(p, a) ==> a.Enter? || a.BeginDestroy?
  }

  lemma QuietIsIdle<M(!new)>(p: Pool<M>, capacity: nat, actions: seq<Action<M>>, q: Pool<M>)
    requires Initial(p, capacity) && Reaches(p, actions, q)
    requires q.destroyer.NotCalled? && Quiet(q)
    ensures q.sem == Free && q.numCurrentItems == 0
  {
    hide Initial, Reaches, Enabled;
    CounterFits(p, capacity, actions, q);
    if q.numCurrentItems > 0 || q.sem != Free {
      var a := NeverStuck(p, capacity, actions, q);
    }
  }

  // So a run that nobody adds to comes, within its work, to a state in which every
  // accepted item has been run, and `completed` is set if anything was ever issued.
  lemma QuietMeansDone<M(!new)>(p: Pool<M>, capacity: nat, actions: seq<Action<M>>, q: Pool<M>)
    requires Initial(p, capacity) && Reaches(p, actions, q)
    requires q.destroyer.NotCalled? && Quiet(q)
    ensures q.sem == Free && q.numCurrentItems == 0
    ensures q.executed == q.accepted == Receipted(q.receipts)
    ensures q.receipts != [] ==> q.completed
  {
    hide Initial, Reaches, Quiet, Held, Load, Receipted, TakenItems;
    QuietIsIdle(p, capacity, actions, q);
    Conservation(p, capacity, actions, q);
    CompleteMeansDone(p, capacity, actions, q);
    if q.receipts != [] {
      DoneMeansComplete(p, capacity, actions, q);
    }
  }

  // A pool that is being destroyed comes, within its work, to the end of it: where
  // nobody but a new caller can take a step, every worker has been joined, and what
  // was accepted has been run or lies unread in a queue, and is counted.
  lemma QuietMeansDestroyed<M(!new)>(p: Pool<M>, capacity: nat, actions: seq<Action<M>>, q: Pool<M>)
    requires Initial(p, capacity) && Reaches(p, actions, q)
    requires !q.destroyer.NotCalled? && Quiet(q)
    ensures q.destroyer.Destroyed? && q.sem == Free
    ensures forall w {:trigger q.slots[w]} | 0 <= w < |q.slots| :: q.slots[w].pc.Exited?
    ensures q.executed + Queued(q.slots) == q.accepted == Receipted(q.receipts)
    ensures q.numCurrentItems == |Queued(q.slots)|
  {
    hide Initial, Reaches, Enabled, Held, Load, Receipted, TakenItems, Queued;
    if !q.destroyer.Destroyed? || q.sem != Free {
      var a := DestroyNeverStuck(p, capacity, actions, q);
    }
    AfterDestroy(p, capacity, actions, q);
    Conservation(p, capacity, actions, q);
    LoadIsQueued(q.slots);
  }

  lemma {:induction false} LoadIsQueued<M>(slots: seq<Slot<M>>)
    requires forall w {:trigger slots[w]} | 0 <= w < |slots| :: slots[w].pc.Exited?
    ensures Load(slots) == |Queued(slots)|
  {
    if slots != [] {
      LoadIsQueued(slots[1..]);
    }
  }
}
