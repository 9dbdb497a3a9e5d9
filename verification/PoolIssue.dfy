/** What threadpool_issue (source/sosal/threadpool.c) gives its caller: an item is
    offered to every worker in turn, so that it goes in if any queue has room for it.
 */
module PoolIssue {
  import opened Arithmetic
  import opened Channel
  import opened ThreadPool

  predicate HasRoom<M>(s: Slot<M>) {
    s.queue.active && !s.queue.popped && |s.queue.msgs| < s.queue.capacity
  }

  // How many offers from now worker w has its turn.
  function Turns(w: nat, next: nat, workers: nat): nat
    requires w < workers && next < workers
  {
    if next <= w then w - next else w + workers - next
  }

  // The call is not over, and worker w, which has room, has still to be asked for the
  // item that is next to go in.
  ghost predicate Ahead<M>(pc: IssuerPc<M>, w: nat, next: nat, workers: nat)
    requires w < workers && next < workers
  {
    match pc
    case Entered(c) => true
    case AtLoop(c) => true
    case Picking(c) => Turns(w, next, workers) + c.tries < workers
    case Writing(c) => c.index == w || Turns(w, next, workers) + c.tries < workers
    case Signalling(c) => c.wrote || (c.index != w && Turns(w, next, workers) + c.tries < workers)
    case Checking(c) => c.wrote || (c.index != w && Turns(w, next, workers) + c.tries < workers)
    case _ => false
  }

  // Item k of the call has gone in, or will, because worker w has room.
  ghost predicate GoesIn<M>(p: Pool<M>, i: nat, k: nat, w: nat) {
    && i < |p.issuers| && w < |p.slots| && p.nextWorkerIndex < |p.slots| && !p.issuers[i].Idle?
    && var pc := p.issuers[i];
    && k < |pc.call.items| && Taken(pc) >= k
    && (Taken(pc) == k ==> HasRoom(p.slots[w]) && Ahead(pc, w, p.nextWorkerIndex, |p.slots|))
  }

  lemma NextTurn(w: nat, next: nat, workers: nat)
    requires w < workers && next < workers
    ensures (next + 1) % workers < workers
    ensures w != next ==> Turns(w, (next + 1) % workers, workers) + 1 == Turns(w, next, workers)
  {
    if next + 1 == workers {
      assert (next + 1) % workers == 0;
    } else {
      assert (next + 1) % workers == next + 1;
    }
  }

  // ---- one step -------------------------------------------------------------------

  // Nobody else writes while the call holds the semaphore, and nobody takes room away.
  lemma OthersKeep<M>(p: Pool<M>, a: Action<M>, i: nat, w: nat)
    requires Ownership(p) && i < |p.issuers| && p.sem == HeldByIssuer(i) && Enabled(p, a)
    requires w < |p.slots| && Next(p, a).destroyer.NotCalled?
    requires !(IssuerEnabled(p, a) && IssuerOf(a) == i)
    ensures Next(p, a).issuers == p.issuers && Next(p, a).nextWorkerIndex == p.nextWorkerIndex
    ensures |Next(p, a).slots| == |p.slots| && (HasRoom(p.slots[w]) ==> HasRoom(Next(p, a).slots[w]))
    ensures Next(p, a).receipts == p.receipts
  {
    if WorkerEnabled(p, a) {
      assert HasRoom(p.slots[WorkerOf(a)]) ==> HasRoom(SlotAfter(p.slots[WorkerOf(a)], a));
      hide SlotAfter, SlotEnabled;
    } else if IssuerEnabled(p, a) {
      assert false;
    }
  }

  // The call's own steps, but for the last.
  lemma OwnStep<M>(p: Pool<M>, a: Action<M>, i: nat, k: nat, w: nat)
    requires ThreadsOk(p) && IssuerEnabled(p, a) && IssuerOf(a) == i && !a.Leave? && GoesIn(p, i, k, w)
    ensures GoesIn(IssuerStep(p, a), i, k, w) && IssuerStep(p, a).receipts == p.receipts
    ensures IssuerStep(p, a).issuers[i].call.items == p.issuers[i].call.items
  {
    assert IssuerOk(p.issuers[i], p.numCurrentItems, p.completed, |p.slots|);
    hide SlotOk;
    NextTurn(w, p.nextWorkerIndex, |p.slots|);
  }

  lemma ReceiptStep<M>(p: Pool<M>, a: Action<M>)
    requires Enabled(p, a)
    ensures p.receipts <= Next(p, a).receipts && (p.destroyer.NotCalled? || !Next(p, a).destroyer.NotCalled?)
  {
    hide SlotAfter, CallAfter, SlotEnabled, CallEnabled;
  }

  lemma {:induction false} ReceiptsStay<M>(p: Pool<M>, actions: seq<Action<M>>, q: Pool<M>)
    requires Reaches(p, actions, q)
    ensures p.receipts <= q.receipts && (q.destroyer.NotCalled? ==> p.destroyer.NotCalled?)
    decreases |actions|
  {
    hide Next, Enabled;
    if actions != [] {
      ReceiptStep(p, actions[0]);
      ReceiptsStay(Next(p, actions[0]), actions[1..], q);
    }
  }

  // A step of anybody but the call's last one.
  lemma StepGoesIn<M>(p: Pool<M>, a: Action<M>, i: nat, k: nat, w: nat)
    requires Inv(p) && Enabled(p, a) && GoesIn(p, i, k, w) && Next(p, a).destroyer.NotCalled?
    requires !Returns(p, a, i)
    ensures GoesIn(Next(p, a), i, k, w) && Next(p, a).receipts == p.receipts
    ensures Next(p, a).issuers[i].call.items == p.issuers[i].call.items
  {
    hide CountOk, ItemsOk, DestroyOk, IssuerStep, CallEnabled, SlotAfter, SlotEnabled;
    if IssuerEnabled(p, a) && IssuerOf(a) == i {
      IssuerAlone(p, a);
      OwnStep(p, a, i, k, w);
    } else {
      OthersKeep(p, a, i, w);
    }
  }

  lemma IssuerAlone<M>(p: Pool<M>, a: Action<M>)
    requires IssuerEnabled(p, a)
    ensures !WorkerEnabled(p, a) && Next(p, a) == IssuerStep(p, a)
  {
    hide IssuerStep;
  }

  // ---- every run --------------------------------------------------------------------

  lemma {:induction false} RunGoesIn<M>(p: Pool<M>, actions: seq<Action<M>>, q: Pool<M>, i: nat, k: nat, w: nat)
    requires Inv(p) && GoesIn(p, i, k, w)
    requires Reaches(p, actions, q) && q.destroyer.NotCalled? && |q.receipts| > |p.receipts|
    ensures var r := q.receipts[|p.receipts|]; r.items == p.issuers[i].call.items && r.taken > k
    decreases |actions|
  {
    hide Inv, Next, Enabled, IssuerEnabled, GoesIn;
    var a, p' := actions[0], Next(p, actions[0]);
    ReceiptsStay(p', actions[1..], q);
    if Returns(p, a, i) {
      LastStep(p, a, i, k, w);
    } else {
      StepInv(p, a);
      StepGoesIn(p, a, i, k, w);
      RunGoesIn(p', actions[1..], q, i, k, w);
    }
  }

  // The call's last step.
  predicate Returns<M>(p: Pool<M>, a: Action<M>, i: nat) {
    IssuerEnabled(p, a) && IssuerOf(a) == i && a.Leave?
  }

  lemma LastStep<M>(p: Pool<M>, a: Action<M>, i: nat, k: nat, w: nat)
    requires Enabled(p, a) && Returns(p, a, i) && GoesIn(p, i, k, w)
    ensures |Next(p, a).receipts| == |p.receipts| + 1
    ensures var r := Next(p, a).receipts[|p.receipts|]; r.items == p.issuers[i].call.items && r.taken > k
  {
    IssuerAlone(p, a);
  }

  // If any open queue has room when threadpool_issue comes to an item, the item goes
  // in: the call's receipt covers it, whatever the workers do meanwhile.
  lemma RoomMeansTaken<M>(p0: Pool<M>, capacity: nat, before: seq<Action<M>>, p: Pool<M>, i: nat, w: nat,
                          actions: seq<Action<M>>, q: Pool<M>)
    requires Initial(p0, capacity) && Reaches(p0, before, p)
    requires i < |p.issuers| && p.issuers[i].AtLoop? && p.issuers[i].call.i < |p.issuers[i].call.items|
    requires w < |p.slots| && HasRoom(p.slots[w])
    requires Reaches(p, actions, q) && q.destroyer.NotCalled? && |q.receipts| > |p.receipts|
    ensures var c, r := p.issuers[i].call, q.receipts[|p.receipts|]; r.items == c.items && r.taken > c.i
  {
    InitialInv(p0, capacity);
    Reachable(p0, before, p);
    InLoop(p, i);
    hide Inv, Reaches, Initial;
    RunGoesIn(p, actions, q, i, p.issuers[i].call.i, w);
  }

  lemma InLoop<M>(p: Pool<M>, i: nat)
    requires Inv(p)
    ensures p.nextWorkerIndex < |p.slots|
  {
    hide Ownership, CountOk, ItemsOk, DestroyOk, SlotOk, IssuerOk;
  }

  // ---- room for the whole call --------------------------------------------------------

  function RoomOf<M>(s: Slot<M>): nat {
    if HasRoom(s) then s.queue.capacity - |s.queue.msgs| else 0
  }

  function Room<M>(slots: seq<Slot<M>>): nat {
    if slots == [] then 0 else RoomOf(slots[0]) + Room(slots[1..])
  }

  lemma {:induction false} RoomAt<M>(slots: seq<Slot<M>>, w: nat, s: Slot<M>)
    requires w < |slots|
    ensures Room(slots[w := s]) == Room(slots) - RoomOf(slots[w]) + RoomOf(s)
  {
    hide RoomOf;
    if w > 0 {
      RoomAt(slots[1..], w - 1, s);
      assert slots[w := s][1..] == slots[1..][w - 1 := s];
    } else {
      assert slots[w := s][1..] == slots[1..];
    }
  }

  lemma {:induction false} SomeRoom<M>(slots: seq<Slot<M>>) returns (w: nat)
    requires Room(slots) > 0
    ensures w < |slots| && HasRoom(slots[w])
  {
    if HasRoom(slots[0]) {
      w := 0;
    } else {
      w := SomeRoom(slots[1..]);
      w := w + 1;
    }
  }

  // Without the destroyer, room is lost only to the items that go in.
  lemma RoomStep<M>(p: Pool<M>, a: Action<M>, i: nat)
    requires Ownership(p) && i < |p.issuers| && p.sem == HeldByIssuer(i) && Enabled(p, a)
    requires Next(p, a).destroyer.NotCalled? && !Returns(p, a, i)
    ensures |Next(p, a).issuers| == |p.issuers|
    ensures Room(Next(p, a).slots) + Taken(Next(p, a).issuers[i]) >= Room(p.slots) + Taken(p.issuers[i])
  {
    if WorkerEnabled(p, a) {
      var w := WorkerOf(a);
      RoomAt(p.slots, w, SlotAfter(p.slots[w], a));
      assert RoomOf(SlotAfter(p.slots[w], a)) >= RoomOf(p.slots[w]);
      hide SlotAfter, SlotEnabled, Room, RoomOf;
    } else if IssuerEnabled(p, a) {
      IssuerRoom(p, a, i);
    }
  }

  lemma IssuerRoom<M>(p: Pool<M>, a: Action<M>, i: nat)
    requires Ownership(p) && i < |p.issuers| && p.sem == HeldByIssuer(i) && IssuerEnabled(p, a) && !a.Leave?
    ensures |IssuerStep(p, a).issuers| == |p.issuers|
    ensures Room(IssuerStep(p, a).slots) + Taken(IssuerStep(p, a).issuers[i]) >= Room(p.slots) + Taken(p.issuers[i])
  {
    hide Room;
    if a.LockAndWrite? || a.SignalWrite? {
      var k := p.issuers[i].call.index;
      RoomAt(p.slots, k, IssuerStep(p, a).slots[k]);
    }
  }

  // The call's remaining items have room together, and the next of them goes in.
  ghost predicate AllGoIn<M>(p: Pool<M>, i: nat) {
    && i < |p.issuers| && !p.issuers[i].Idle?
    && var pc := p.issuers[i];
    && Taken(pc) <= |pc.call.items| <= Taken(pc) + Room(p.slots)
    && (Taken(pc) < |pc.call.items| ==> exists w: nat :: GoesIn(p, i, Taken(pc), w))
  }

  lemma TakenStep<M>(p: Pool<M>, a: Action<M>, i: nat)
    requires ThreadsOk(p) && Ownership(p) && i < |p.issuers| && p.sem == HeldByIssuer(i) && Enabled(p, a)
    requires !Returns(p, a, i) && Next(p, a).destroyer.NotCalled?
    ensures |Next(p, a).issuers| == |p.issuers| && !Next(p, a).issuers[i].Idle?
    ensures var pc, pc' := p.issuers[i], Next(p, a).issuers[i];
            && pc'.call.items == pc.call.items
            && (Taken(pc') == Taken(pc)
                || (Taken(pc') == Taken(pc) + 1 <= |pc.call.items| && pc'.Signalling? && pc'.call.wrote))
  {
    assert IssuerOk(p.issuers[i], p.numCurrentItems, p.completed, |p.slots|);
    hide SlotOk, IssuerOk;
    if IssuerEnabled(p, a) && IssuerOf(a) == i {
      IssuerAlone(p, a);
      OwnTaken(p, a, i);
    } else {
      OthersKeep(p, a, i, 0);
    }
  }

  lemma OwnTaken<M>(p: Pool<M>, a: Action<M>, i: nat)
    requires IssuerEnabled(p, a) && IssuerOf(a) == i && !a.Leave? && !p.issuers[i].Idle?
    requires IssuerOk(p.issuers[i], p.numCurrentItems, p.completed, |p.slots|)
    ensures |IssuerStep(p, a).issuers| == |p.issuers| && !IssuerStep(p, a).issuers[i].Idle?
    ensures var pc, pc' := p.issuers[i], IssuerStep(p, a).issuers[i];
            && pc'.call.items == pc.call.items
            && (Taken(pc') == Taken(pc)
                || (Taken(pc') == Taken(pc) + 1 <= |pc.call.items| && pc'.Signalling? && pc'.call.wrote))
  {
  }

  lemma NextItemGoesIn<M>(p: Pool<M>, i: nat)
    requires Inv(p) && i < |p.issuers| && Room(p.slots) > 0
    requires var pc := p.issuers[i];
             (pc.AtLoop? || pc.Entered? || (pc.Signalling? && pc.call.wrote)) && Taken(pc) < |pc.call.items|
    ensures exists w: nat :: GoesIn(p, i, Taken(p.issuers[i]), w)
  {
    InLoop(p, i);
    hide Inv, Room;
    var w := SomeRoom(p.slots);
    assert GoesIn(p, i, Taken(p.issuers[i]), w);
  }

  lemma StepAllGoIn<M>(p: Pool<M>, a: Action<M>, i: nat)
    requires Inv(p) && Enabled(p, a) && AllGoIn(p, i) && Next(p, a).destroyer.NotCalled? && !Returns(p, a, i)
    ensures AllGoIn(Next(p, a), i) && Next(p, a).receipts == p.receipts
    ensures Next(p, a).issuers[i].call.items == p.issuers[i].call.items
  {
    var p', k := Next(p, a), Taken(p.issuers[i]);
    StepInv(p, a);
    assert p.sem == HeldByIssuer(i);
    TakenStep(p, a, i);
    RoomStep(p, a, i);
    hide ThreadsOk, Ownership, CountOk, ItemsOk, DestroyOk, Next, Enabled, GoesIn, Taken, Room, Returns;
    ReceiptsKept(p, a, i);
    if Taken(p'.issuers[i]) < |p.issuers[i].call.items| {
      if Taken(p'.issuers[i]) == k {
        var w: nat :| GoesIn(p, i, k, w);
        StepGoesIn(p, a, i, k, w);
      } else {
        NextItemGoesIn(p', i);
      }
    }
  }

  lemma ReceiptsKept<M>(p: Pool<M>, a: Action<M>, i: nat)
    requires Inv(p) && i < |p.issuers| && p.sem == HeldByIssuer(i) && Enabled(p, a)
    requires !Returns(p, a, i) && Next(p, a).destroyer.NotCalled?
    ensures Next(p, a).receipts == p.receipts
  {
    hide ThreadsOk, CountOk, ItemsOk, DestroyOk;
    if IssuerEnabled(p, a) && IssuerOf(a) == i {
      IssuerAlone(p, a);
    } else {
      InLoop(p, i);
      OthersKeep(p, a, i, 0);
    }
  }

  lemma {:induction false} RunAllGoIn<M>(p: Pool<M>, actions: seq<Action<M>>, q: Pool<M>, i: nat)
    requires Inv(p) && AllGoIn(p, i)
    requires Reaches(p, actions, q) && q.destroyer.NotCalled? && |q.receipts| > |p.receipts|
    ensures var r := q.receipts[|p.receipts|]; r.items == p.issuers[i].call.items && r.taken == |r.items|
    decreases |actions|
  {
    hide Inv, Next, Enabled, AllGoIn, Returns;
    var a, p' := actions[0], Next(p, actions[0]);
    ReceiptsStay(p', actions[1..], q);
    if Returns(p, a, i) {
      LastOfAll(p, a, i);
    } else {
      StepInv(p, a);
      StepAllGoIn(p, a, i);
      RunAllGoIn(p', actions[1..], q, i);
    }
  }

  lemma LastOfAll<M>(p: Pool<M>, a: Action<M>, i: nat)
    requires Enabled(p, a) && Returns(p, a, i) && AllGoIn(p, i)
    ensures |Next(p, a).receipts| == |p.receipts| + 1
    ensures var r := Next(p, a).receipts[|p.receipts|]; r.items == p.issuers[i].call.items && r.taken == |r.items|
  {
    IssuerAlone(p, a);
    hide Room;
  }

  // If the open queues have room for all its items together when it begins, a call
  // takes them all and, with at least one, returns true.
  lemma EnoughRoom<M>(p0: Pool<M>, capacity: nat, before: seq<Action<M>>, p: Pool<M>, i: nat,
                      actions: seq<Action<M>>, q: Pool<M>)
    requires Initial(p0, capacity) && Reaches(p0, before, p)
    requires i < |p.issuers| && p.issuers[i].Entered? && |p.issuers[i].call.items| <= Room(p.slots)
    requires Reaches(p, actions, q) && q.destroyer.NotCalled? && |q.receipts| > |p.receipts|
    ensures var items, r := p.issuers[i].call.items, q.receipts[|p.receipts|];
            r.items == items && r.taken == |items| && (r.ret <==> items != [])
  {
    hide Inv, Reaches, Initial, Room, AllGoIn;
    InitialInv(p0, capacity);
    Reachable(p0, before, p);
    Reachable(p, actions, q);
    EntryGoesIn(p, i);
    RunAllGoIn(p, actions, q, i);
    Receipts(q);
    assert q.receipts[|p.receipts|] in q.receipts;
  }

  lemma EntryGoesIn<M>(p: Pool<M>, i: nat)
    requires Inv(p) && i < |p.issuers| && p.issuers[i].Entered? && |p.issuers[i].call.items| <= Room(p.slots)
    ensures AllGoIn(p, i)
  {
    hide Inv, Room, GoesIn;
    AtEntry(p, i);
    if p.issuers[i].call.items != [] {
      NextItemGoesIn(p, i);
    }
  }

  lemma AtEntry<M>(p: Pool<M>, i: nat)
    requires Inv(p) && i < |p.issuers| && p.issuers[i].Entered?
    ensures Taken(p.issuers[i]) == 0
  {
    hide Ownership, CountOk, ItemsOk, DestroyOk, SlotOk;
  }

  lemma Receipts<M>(p: Pool<M>)
    requires Inv(p)
    ensures forall r <- p.receipts :: HonestReceipt(r)
  {
    hide ThreadsOk, Ownership, CountOk, DestroyOk, HonestReceipt;
  }

  // ---- where an item goes ---------------------------------------------------------------

  // Whoever is about to write is at the queue of the worker before the next one.
  ghost predicate AskedLast<M>(p: Pool<M>) {
    |p.slots| > 0
    && forall i {:trigger p.issuers[i]} | 0 <= i < |p.issuers| && p.issuers[i].Writing? ::
         (p.issuers[i].call.index + 1) % |p.slots| == p.nextWorkerIndex
  }

  lemma AskedBy<M>(pc: IssuerPc<M>, a: Action<M>, next: nat, workers: nat, took: bool)
    requires CallEnabled(pc, a)
    ensures var pc' := CallAfter(pc, a, next, workers, took);
            (pc'.Writing? <==> a.PickWorker?) && (pc'.Writing? ==> pc'.call.index == next)
  {
  }

  lemma IssuerMoves<M>(p: Pool<M>, a: Action<M>)
    requires IssuerEnabled(p, a)
    ensures var q, i := IssuerStep(p, a), IssuerOf(a);
            && |q.slots| == |p.slots| && |q.issuers| == |p.issuers|
            && (forall j {:trigger q.issuers[j]} | 0 <= j < |q.issuers| && j != i :: q.issuers[j] == p.issuers[j])
            && (q.issuers[i].Writing? <==> a.PickWorker?)
            && q.nextWorkerIndex == (if a.PickWorker? then (p.nextWorkerIndex + 1) % |p.slots| else p.nextWorkerIndex)
            && (a.PickWorker? ==> q.issuers[i].call.index == p.nextWorkerIndex)
  {
    var pc := p.issuers[IssuerOf(a)];
    var took := a.LockAndWrite? && WriteData(p.slots[pc.call.index].queue, false, pc.call.items[pc.call.i]).1;
    AskedBy(pc, a, p.nextWorkerIndex, |p.slots|, took);
    hide CallAfter, WriteData;
  }

  lemma AskedByIssuer<M>(p: Pool<M>, a: Action<M>)
    requires Ownership(p) && IssuerEnabled(p, a) && AskedLast(p)
    ensures AskedLast(IssuerStep(p, a))
  {
    IssuerMoves(p, a);
    if a.PickWorker? { Alone(p, IssuerOf(a)); }
    hide Ownership, IssuerStep, IssuerEnabled;
  }

  lemma AskedSame<M>(p: Pool<M>, q: Pool<M>)
    requires AskedLast(p) && |q.slots| == |p.slots| && q.issuers == p.issuers && q.nextWorkerIndex == p.nextWorkerIndex
    ensures AskedLast(q)
  {
  }

  lemma OthersFrame<M>(p: Pool<M>, a: Action<M>)
    requires Enabled(p, a) && !IssuerEnabled(p, a)
    ensures var q := Next(p, a);
            |q.slots| == |p.slots| && q.issuers == p.issuers && q.nextWorkerIndex == p.nextWorkerIndex
  {
    hide SlotAfter, SlotEnabled, IssuerEnabled, IssuerStep;
  }

  lemma AskedStep<M>(p: Pool<M>, a: Action<M>)
    requires Inv(p) && Enabled(p, a) && AskedLast(p)
    ensures AskedLast(Next(p, a))
  {
    hide ThreadsOk, Ownership, CountOk, ItemsOk, DestroyOk, Next, AskedLast, IssuerEnabled;
    if IssuerEnabled(p, a) {
      IssuerAlone(p, a);
      AskedByIssuer(p, a);
    } else {
      OthersFrame(p, a);
      AskedSame(p, Next(p, a));
    }
  }

  lemma {:induction false} AskedAlways<M>(p: Pool<M>, actions: seq<Action<M>>, q: Pool<M>)
    requires Inv(p) && AskedLast(p) && Reaches(p, actions, q)
    ensures Inv(q) && AskedLast(q)
    decreases |actions|
  {
    hide Inv, AskedLast, Next, Enabled;
    if actions != [] {
      StepInv(p, actions[0]);
      AskedStep(p, actions[0]);
      AskedAlways(Next(p, actions[0]), actions[1..], q);
    }
  }

  // A write behind an offer goes to the queue of the worker that was offered the
  // item: it is taken exactly if that queue is open and has room, then stands last
  // in it, and every other queue stays as it is.
  lemma WriteGoes<M>(p0: Pool<M>, capacity: nat, actions: seq<Action<M>>, p: Pool<M>, i: nat)
    requires Initial(p0, capacity) && Reaches(p0, actions, p) && IssuerEnabled(p, LockAndWrite(i))
    ensures |p.slots| > 0 && (p.issuers[i].call.index + 1) % |p.slots| == p.nextWorkerIndex
    ensures WritesTo(p, IssuerStep(p, LockAndWrite(i)), i)
  {
    AskedStart(p0, capacity);
    AskedAlways(p0, actions, p);
    WritePlace(p, i);
    hide Inv, Reaches, Initial, WritesTo, IssuerStep;
  }

  ghost predicate WritesTo<M>(p: Pool<M>, q: Pool<M>, i: nat)
    requires IssuerEnabled(p, LockAndWrite(i))
  {
    var c := p.issuers[i].call;
    var k, item := c.index, c.items[c.i];
    && |q.slots| == |p.slots| && |q.issuers| == |p.issuers|
    && (forall w {:trigger q.slots[w]} | 0 <= w < |p.slots| :: q.slots[w].queue.msgs ==
          if w == k && HasRoom(p.slots[k]) then p.slots[w].queue.msgs + [item] else p.slots[w].queue.msgs)
    && q.accepted == (if HasRoom(p.slots[k]) then p.accepted + multiset{item} else p.accepted)
    && Taken(q.issuers[i]) == c.i + (if HasRoom(p.slots[k]) then 1 else 0)
  }

  lemma AskedStart<M>(p: Pool<M>, capacity: nat)
    requires Initial(p, capacity)
    ensures Inv(p) && AskedLast(p)
  {
    InitialInv(p, capacity);
    hide Inv;
  }

  lemma WritePlace<M>(p: Pool<M>, i: nat)
    requires IssuerEnabled(p, LockAndWrite(i))
    ensures WritesTo(p, IssuerStep(p, LockAndWrite(i)), i)
  {
  }

  // ---- whose turn it is -----------------------------------------------------------------

  function Offers<M>(actions: seq<Action<M>>): nat {
    if actions == [] then 0 else (if actions[0].PickWorker? then 1 else 0) + Offers(actions[1..])
  }

  lemma TurnStep<M>(p: Pool<M>, a: Action<M>)
    requires ThreadsOk(p) && Enabled(p, a)
    ensures |Next(p, a).slots| == |p.slots|
    ensures Next(p, a).nextWorkerIndex ==
              if a.PickWorker? then (p.nextWorkerIndex + 1) % |p.slots| else p.nextWorkerIndex
  {
    hide SlotOk, IssuerOk, SlotAfter, CallAfter;
  }

  // The workers are asked in turn over the whole life of the pool: its n-th offer,
  // counted from 0, goes to worker n modulo their number.
  lemma {:induction false} RoundRobin<M>(p: Pool<M>, actions: seq<Action<M>>, q: Pool<M>)
    requires Inv(p) && Reaches(p, actions, q)
    ensures |q.slots| == |p.slots| > 0
    ensures q.nextWorkerIndex == (p.nextWorkerIndex + Offers(actions)) % |p.slots|
    decreases |actions|
  {
    hide Inv, Next, Enabled;
    InLoop(p, 0);
    if actions == [] {
      Small(p.nextWorkerIndex, |p.slots|);
    } else {
      var p' := Next(p, actions[0]);
      HasThreads(p);
      TurnStep(p, actions[0]);
      StepInv(p, actions[0]);
      RoundRobin(p', actions[1..], q);
      if actions[0].PickWorker? {
        ModAdd(p.nextWorkerIndex, 1, Offers(actions[1..]), |p.slots|);
      }
    }
  }

  lemma HasThreads<M>(p: Pool<M>)
    requires Inv(p)
    ensures ThreadsOk(p)
  {
    hide ThreadsOk, Ownership, CountOk, ItemsOk, DestroyOk;
  }

  lemma Small(x: nat, n: nat)
    requires x < n
    ensures x % n == x
  {
  }

  lemma ModAdd(x: nat, one: nat, z: nat, n: nat)
    requires n > 0
    ensures ((x + one) % n + z) % n == (x + (one + z)) % n
  {
    var y := x + one;
    assert y == y / n * n + y % n;
    hide *;
    ModShift(y % n + z, y / n, n);
    assert y % n + z + y / n * n == x + (one + z);
  }

  lemma ModShift(x: nat, q: nat, n: nat)
    requires n > 0
    ensures (x + q * n) % n == x % n
  {
    var y := x + q * n;
    var t := y / n - x / n - q;
    assert y == y / n * n + y % n && x == x / n * n + x % n;
    Distribute(y / n - x / n, q, n);
    Distribute(y / n, x / n, n);
    if x % n >= y % n {
      NoSmallMultiple(t, n, x % n - y % n);
    } else {
      NoSmallMultiple(-t, n, y % n - x % n);
    }
  }
}
