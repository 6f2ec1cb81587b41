/** Scheduling: the counters, the slow-work message, and the absence of lost wakeups. */
module ThreadPoolScheduling {
  import opened Common
  import opened ThreadPool

  // ---------- Counting workers ----------

  datatype Class = Idle | Slow | Free

  predicate In(w: Worker, c: Class) {
    match c
    case Idle => w == Asleep || w == Woken
    case Slow => (w.Picked? && w.slow) || (w.Ran? && w.slow) || (w.After? && w.slow)
    case Free => w == Start || w == Woken || w == Holding
  }

  function CountOf(ws: seq<Worker>, c: Class): nat {
    if ws == [] then 0 else (if In(ws[0], c) then 1 else 0) + CountOf(ws[1..], c)
  }

  lemma {:induction false} CountUpdate(ws: seq<Worker>, i: nat, v: Worker, c: Class)
    requires i < |ws|
    ensures CountOf(ws[i := v], c) == CountOf(ws, c) - (if In(ws[i], c) then 1 else 0) + (if In(v, c) then 1 else 0)
  {
    if i == 0 {
      assert ws[0 := v][1..] == ws[1..];
    } else {
      CountUpdate(ws[1..], i - 1, v, c);
      assert ws[i := v][1..] == ws[1..][i - 1 := v];
    }
  }

  lemma CountUpdates(ws: seq<Worker>, i: nat, v: Worker)
    requires i < |ws|
    ensures forall c :: CountOf(ws[i := v], c) == CountOf(ws, c) - (if In(ws[i], c) then 1 else 0) + (if In(v, c) then 1 else 0)
  {
    forall c
      ensures CountOf(ws[i := v], c) == CountOf(ws, c) - (if In(ws[i], c) then 1 else 0) + (if In(v, c) then 1 else 0)
    {
      CountUpdate(ws, i, v, c);
    }
  }

  lemma {:induction false} CountPositive(ws: seq<Worker>, i: nat, c: Class)
    requires i < |ws| && In(ws[i], c)
    ensures CountOf(ws, c) > 0
  {
    if i > 0 {
      CountPositive(ws[1..], i - 1, c);
    }
  }

  lemma {:induction false} CountNone(ws: seq<Worker>, c: Class)
    requires forall i :: 0 <= i < |ws| ==> !In(ws[i], c)
    ensures CountOf(ws, c) == 0
  {
    if ws != [] {
      CountNone(ws[1..], c);
    }
  }

  // ---------- The invariant ----------

  /** The entries of the queue that a worker could act on now. */
  function Runnable(s: State): int {
    |s.wq| - (if s.slowRunning >= s.Threshold() && RunSlow in s.wq then 1 else 0)
  }

  predicate MessageOnce(wq: seq<Entry>) {
    forall i, j :: 0 <= i < j < |wq| ==> !(wq[i] == RunSlow && wq[j] == RunSlow)
  }

  ghost predicate Scheduled(s: State) {
    && |s.workers| > 0
    && s.idle == CountOf(s.workers, Idle)
    && s.slowRunning == CountOf(s.workers, Slow) <= s.Threshold()
    && MessageOnce(s.wq)
    && (s.slowPending != [] ==> RunSlow in s.wq)
    && (s.SomeAsleep() ==> CountOf(s.workers, Free) >= Runnable(s))
  }

  lemma InitialScheduled(s: State)
    requires Initial(s)
    ensures Scheduled(s)
  {
    CountNone(s.workers, Idle);
    CountNone(s.workers, Slow);
  }

  /** A wakeup that follows a change of the queue restores what the change may have broken. */
  lemma SignalRestores(s: State, wake: Option<nat>)
    requires SignalWakes(s, wake)
    requires |s.workers| > 0 && s.idle == CountOf(s.workers, Idle)
    requires s.slowRunning == CountOf(s.workers, Slow) <= s.Threshold()
    requires MessageOnce(s.wq) && (s.slowPending != [] ==> RunSlow in s.wq)
    requires s.SomeAsleep() ==> CountOf(s.workers, Free) >= Runnable(s) - 1
    ensures Scheduled(Signal(s, wake))
  {
    if wake.Some? {
      CountUpdates(s.workers, wake.value, Woken);
    }
  }

  /** post() signals only if idle_threads is positive, which it is whenever someone sleeps. */
  lemma PostRestores(s: State, wake: Option<nat>)
    requires PostSignals(s, wake)
    requires |s.workers| > 0 && s.idle == CountOf(s.workers, Idle)
    requires s.slowRunning == CountOf(s.workers, Slow) <= s.Threshold()
    requires MessageOnce(s.wq) && (s.slowPending != [] ==> RunSlow in s.wq)
    requires s.SomeAsleep() ==> CountOf(s.workers, Free) >= Runnable(s) - 1
    ensures Scheduled(Signal(s, wake))
  {
    if s.SomeAsleep() {
      var w :| 0 <= w < |s.workers| && s.workers[w] == Asleep;
      CountPositive(s.workers, w, Idle);
    }
    SignalRestores(s, wake);
  }

  // ---------- Every step keeps it ----------

  lemma SubmitKeeps(s: State, l: nat, kind: Kind, wake: Option<nat>)
    requires Scheduled(s) && Enabled(s, Submit(l, kind, wake))
    ensures Scheduled(DoSubmit(s, l, kind, wake))
  {
    var id := |s.items|;
    var place := if kind == SlowIo then InSlow else InQueue;
    var s1 := s.(items := s.items + [Item(kind, l, place, Function, 0, [], false, false)]);
    if kind == SlowIo {
      var s2 := s1.(slowPending := s1.slowPending + [id]);
      if RunSlow !in s.wq {
        PostRestores(s2.(wq := s2.wq + [RunSlow]), wake);
      }
    } else {
      assert RunSlow in s.wq + [Work(id)] <==> RunSlow in s.wq;
      PostRestores(s1.(wq := s1.wq + [Work(id)]), wake);
    }
  }

  lemma PostExitKeeps(s: State, wake: Option<nat>)
    requires Scheduled(s) && Enabled(s, PostExit(wake))
    ensures Scheduled(Apply(s, PostExit(wake)))
  {
    assert RunSlow in s.wq + [Exit] <==> RunSlow in s.wq;
    PostRestores(s.(wq := s.wq + [Exit]), wake);
  }

  lemma WorkerMoves(s: State, step: Step)
    requires Scheduled(s) && Enabled(s, step)
    requires step.Acquire? || step.RunWork? || step.SpuriousWakeup?
    ensures Scheduled(Apply(s, step))
  {
    hide MessageOnce, Without, SignalWakes, PostSignals;
    var v := Apply(s, step).workers[step.w];
    CountUpdates(s.workers, step.w, v);
    forall i | 0 <= i < |s.workers| && i != step.w && Apply(s, step).workers[i] == Asleep ensures s.SomeAsleep() {
      assert s.workers[i] == Asleep;
    }
  }

  /** A worker goes to sleep only when there is nothing it may take. */
  lemma SleepKeeps(s: State, w: nat)
    requires Scheduled(s) && Enabled(s, Sleep(w))
    ensures Scheduled(Apply(s, Sleep(w)))
  {
    CountUpdates(s.workers, w, Asleep);
    if s.wq != [] {
      assert RunSlow in s.wq;
    }
  }

  lemma DeliverKeeps(s: State, w: nat)
    requires Scheduled(s) && Enabled(s, Deliver(w))
    ensures Scheduled(Apply(s, Deliver(w)))
  {
    CountUpdates(s.workers, w, After(s.workers[w].slow));
    forall i | 0 <= i < |s.workers| && i != w && Apply(s, Deliver(w)).workers[i] == Asleep ensures s.SomeAsleep() {
      assert s.workers[i] == Asleep;
    }
  }

  lemma LeaveKeeps(s: State, w: nat, wake: Option<nat>)
    requires Scheduled(s) && Enabled(s, Leave(w, wake))
    ensures Scheduled(Apply(s, Leave(w, wake)))
  {
    CountUpdates(s.workers, w, Exited);
    var s1 := SetWorker(s, w, Exited);
    assert s.SomeAsleep() <==> s1.SomeAsleep() by {
      if i :| 0 <= i < |s.workers| && s.workers[i] == Asleep {
        assert s1.workers[i] == Asleep;
      }
      if i :| 0 <= i < |s1.workers| && s1.workers[i] == Asleep {
        assert s.workers[i] == Asleep;
      }
    }
    SignalRestores(s1, wake);
  }

  lemma PopFacts(wq: seq<Entry>)
    requires wq != [] && MessageOnce(wq)
    ensures MessageOnce(wq[1..])
    ensures wq[0] == RunSlow ==> RunSlow !in wq[1..]
    ensures wq[0] != RunSlow ==> (RunSlow in wq[1..] <==> RunSlow in wq)
    ensures wq[0] == RunSlow ==> MessageOnce(wq[1..] + [RunSlow]) && RunSlow in wq[1..] + [RunSlow]
  {
    if wq[0] != RunSlow && RunSlow in wq {
      var i :| 0 <= i < |wq| && wq[i] == RunSlow;
      assert wq[1..][i - 1] == RunSlow;
    }
    assert wq[0] == RunSlow ==> forall i :: 0 <= i < |wq[1..]| ==> wq[1..][i] == wq[i + 1] != RunSlow;
    assert (wq[1..] + [RunSlow])[|wq| - 1] == RunSlow;
  }

  lemma TakeWorkKeeps(s: State, w: nat)
    requires Scheduled(s) && Enabled(s, TakeWork(w))
    ensures Scheduled(DoTakeWork(s, w))
  {
    PopFacts(s.wq);
    CountUpdates(s.workers, w, Picked(s.wq[0].id, false));
    AsleepElsewhere(s, w, Picked(s.wq[0].id, false));
  }

  lemma AsleepElsewhere(s: State, w: nat, v: Worker)
    requires w < |s.workers| && v != Asleep && s.workers[w] != Asleep
    ensures SetWorker(s, w, v).SomeAsleep() <==> s.SomeAsleep()
  {
    var s1 := SetWorker(s, w, v);
    if i :| 0 <= i < |s.workers| && s.workers[i] == Asleep {
      assert s1.workers[i] == Asleep;
    }
    if i :| 0 <= i < |s1.workers| && s1.workers[i] == Asleep {
      assert s.workers[i] == Asleep;
    }
  }

  lemma MessageMoves(s: State, step: Step)
    requires Scheduled(s) && Enabled(s, step)
    requires step.Reschedule? || step.NothingSlow?
    ensures Scheduled(Apply(s, step))
  {
    PopFacts(s.wq);
    assert RunSlow in s.wq;
  }

  lemma TakeSlowKeeps(s: State, w: nat, wake: Option<nat>)
    requires Scheduled(s) && Enabled(s, TakeSlow(w, wake))
    ensures Scheduled(DoTakeSlow(s, w, wake))
  {
    PopFacts(s.wq);
    var id := s.slowPending[0];
    CountUpdates(s.workers, w, Picked(id, true));
    AsleepElsewhere(s, w, Picked(id, true));
    var s1 := SetWorker(s, w, Picked(id, true))
              .(wq := s.wq[1..], slowPending := s.slowPending[1..], slowRunning := s.slowRunning + 1,
                startedSlow := s.startedSlow + [id]);
    var s2 := if id < |s.items| then SetItem(s1, id, s.items[id].(place := AtWorker(w))) else s1;
    if s2.slowPending != [] {
      PostRestores(s2.(wq := s2.wq + [RunSlow]), wake);
    }
  }

  lemma {:induction false} WithoutEntries(wq: seq<Entry>, e: Entry)
    requires e != RunSlow
    ensures RunSlow in Without(wq, e) <==> RunSlow in wq
    ensures MessageOnce(wq) ==> MessageOnce(Without(wq, e))
    decreases |wq|
  {
    if wq != [] {
      var init, last := wq[..|wq| - 1], wq[|wq| - 1];
      assert wq == init + [last];
      WithoutEntries(init, e);
      if MessageOnce(wq) && last == RunSlow {
        assert forall i :: 0 <= i < |init| ==> init[i] == wq[i] != RunSlow;
      }
    }
  }

  lemma LoopSteps(s: State, step: Step)
    requires Scheduled(s) && Enabled(s, step)
    requires step.Cancel? || step.CancelInsert? || step.DrainStart? || step.DrainNext? || step.DoneReturns?
    ensures Scheduled(Apply(s, step))
  {
    hide Scheduled, Without, MessageOnce, State.MutexFree, Linked;
    if step.Cancel? {
      WithoutEntries(s.wq, Work(step.id));
    }
    FewerEntries(s, Apply(s, step));
  }

  /** Work leaves the queues, and nothing else changes for the workers. */
  lemma FewerEntries(s: State, s': State)
    requires Scheduled(s) && s'.workers == s.workers && s'.idle == s.idle && s'.slowRunning == s.slowRunning
    requires |s'.wq| <= |s.wq| && |s'.slowPending| <= |s.slowPending|
    requires (RunSlow in s'.wq <==> RunSlow in s.wq) && (MessageOnce(s.wq) ==> MessageOnce(s'.wq))
    ensures Scheduled(s')
  {
  }

  lemma StepKeepsScheduled(s: State, step: Step)
    requires Scheduled(s) && Enabled(s, step)
    ensures Scheduled(Apply(s, step))
  {
    hide Scheduled;
    match step
    case Submit(l, kind, wake) => SubmitKeeps(s, l, kind, wake);
    case PostExit(wake) => PostExitKeeps(s, wake);
    case Acquire(w) => WorkerMoves(s, step);
    case Sleep(w) => SleepKeeps(s, w);
    case Leave(w, wake) => LeaveKeeps(s, w, wake);
    case TakeWork(w) => TakeWorkKeeps(s, w);
    case Reschedule(w) => MessageMoves(s, step);
    case NothingSlow(w) => MessageMoves(s, step);
    case TakeSlow(w, wake) => TakeSlowKeeps(s, w, wake);
    case RunWork(w) => WorkerMoves(s, step);
    case Deliver(w) => DeliverKeeps(s, w);
    case SpuriousWakeup(w) => WorkerMoves(s, step);
    case Cancel(id) => LoopSteps(s, step);
    case CancelInsert(l) => LoopSteps(s, step);
    case DrainStart(l) => LoopSteps(s, step);
    case DrainNext(l) => LoopSteps(s, step);
    case DoneReturns(l) => LoopSteps(s, step);
  }
}
