/** That the thread pool gets on: who can move in every reachable state, and what it means if nobody can. */
module ThreadPoolProgress {
  import opened Common
  import opened ThreadPool
  import opened ThreadPoolScheduling
  import opened ThreadPoolItems
  import opened ThreadPoolRuns

  // ---------- Waking ----------

  lemma SomeWake(s: State) returns (wake: Option<nat>)
    ensures SignalWakes(s, wake)
  {
    wake := None;
    if s.SomeAsleep() {
      var w :| 0 <= w < |s.workers| && s.workers[w] == Asleep;
      wake := Some(w);
    }
  }

  lemma SomePost(s: State) returns (wake: Option<nat>)
    ensures PostSignals(s, wake)
  {
    wake := SomeWake(s);
    if s.idle <= 0 {
      wake := None;
    }
  }

  // ---------- Slow work starts ----------

  /**
   * A worker that has the mutex, finds the message for slow work at the head of the queue and
   * some pending, takes it if fewer than half the workers, rounded up, do slow work: it
   * neither waits nor puts the message off.
   */
  lemma SlowWorkStarts(states: seq<State>, steps: seq<Step>, i: nat, w: nat)
    requires IsRun(states, steps) && i < |states| && !states[i].broken
    requires w < |states[i].workers| && states[i].workers[w] == Holding
    requires states[i].wq != [] && states[i].wq[0] == RunSlow && states[i].slowPending != []
    requires CountOf(states[i].workers, Slow) < (|states[i].workers| + 1) / 2
    ensures exists wake :: Enabled(states[i], TakeSlow(w, wake))
    ensures !Enabled(states[i], Sleep(w)) && !Enabled(states[i], Reschedule(w)) && !Enabled(states[i], NothingSlow(w))
  {
    HolderExactly(states, steps, i, w);
  }

  // ---------- The mutex ----------

  predicate OneHolder(s: State) {
    forall v, w :: 0 <= v < |s.workers| && 0 <= w < |s.workers| && s.workers[v] == Holding && s.workers[w] == Holding ==> v == w
  }

  /** Only a worker that takes the mutex comes to have it. */
  lemma HolderStays(s: State, step: Step, w: nat)
    requires Enabled(s, step)
    ensures |Apply(s, step).workers| == |s.workers|
    ensures w < |s.workers| && Apply(s, step).workers[w] == Holding ==> s.workers[w] == Holding || step == Acquire(w)
  {
    hide Without, SignalWakes, PostSignals, State.MutexFree, State.MustWait;
  }

  lemma OneHolderStep(s: State, step: Step)
    requires Enabled(s, step) && OneHolder(s)
    ensures OneHolder(Apply(s, step))
  {
    var s' := Apply(s, step);
    hide Apply;
    forall v, w | 0 <= v < |s'.workers| && 0 <= w < |s'.workers| && s'.workers[v] == Holding && s'.workers[w] == Holding
      ensures v == w
    {
      HolderStays(s, step, v);
      HolderStays(s, step, w);
    }
  }

  /** At most one worker has the mutex, and it is taken, also by users, only when none has it. */
  lemma {:induction false} MutualExclusion(states: seq<State>, steps: seq<Step>, i: nat)
    requires IsRun(states, steps) && i < |states|
    ensures OneHolder(states[i])
    ensures forall step :: Enabled(states[i], step) && (step.Acquire? || step.Submit? || step.PostExit? || step.Cancel?) ==>
              forall w :: 0 <= w < |states[i].workers| ==> states[i].workers[w] != Holding
    decreases i
  {
    if i > 0 {
      MutualExclusion(states, steps, i - 1);
      assert states[i - 1 + 1] == Apply(states[i - 1], steps[i - 1]);
      OneHolderStep(states[i - 1], steps[i - 1]);
    }
  }

  /**
   * What a worker that has the mutex does, by what it finds: it waits if there is nothing to
   * take, or only the message for slow work while half the workers, rounded up, do some;
   * else it takes the head of the queue, or puts the message behind what else is queued.
   */
  lemma HolderExactly(states: seq<State>, steps: seq<Step>, i: nat, w: nat)
    requires IsRun(states, steps) && i < |states| && !states[i].broken
    requires w < |states[i].workers| && states[i].workers[w] == Holding
    ensures var s := states[i];
            var full := CountOf(s.workers, Slow) >= (|s.workers| + 1) / 2;
            && (Enabled(s, Sleep(w)) <==> s.wq == [] || (s.wq == [RunSlow] && full))
            && (Enabled(s, TakeWork(w)) <==> s.wq != [] && s.wq[0].Work?)
            && ((exists wake :: Enabled(s, Leave(w, wake))) <==> s.wq != [] && s.wq[0] == Exit)
            && (Enabled(s, Reschedule(w)) <==> |s.wq| > 1 && s.wq[0] == RunSlow && full)
            && (Enabled(s, NothingSlow(w)) <==> s.wq != [] && s.wq[0] == RunSlow && !full && s.slowPending == [])
            && ((exists wake :: Enabled(s, TakeSlow(w, wake))) <==> s.wq != [] && s.wq[0] == RunSlow && !full && s.slowPending != [])
  {
    EveryState(states, steps, i);
    hide Tracked;
    var s := states[i];
    assert s.wq != [] && |s.wq| == 1 && s.wq[0] == RunSlow ==> s.wq == [RunSlow];
    if s.wq != [] && s.wq[0] == Exit {
      var wake := SomeWake(s);
      assert Enabled(s, Leave(w, wake));
    }
    if s.wq != [] && s.wq[0] == RunSlow && s.slowRunning < s.Threshold() && s.slowPending != [] {
      var wake := None;
      if |s.slowPending| > 1 {
        wake := SomePost(s);
      }
      assert Enabled(s, TakeSlow(w, wake));
    }
  }

  // ---------- Everyone can move ----------

  /**
   * Steps that the pool does not take by itself: calls of users, and wakeups that nobody
   * asked for; and a look at an empty completion queue.
   */
  predicate Outside(s: State, step: Step) {
    || step.Submit? || step.PostExit? || step.Cancel? || step.SpuriousWakeup?
    || (step.DrainStart? && step.loop < |s.loops| && s.loops[step.loop].queue == [])
  }

  lemma HolderMoves(s: State, w: nat) returns (step: Step)
    requires !s.broken && w < |s.workers| && s.workers[w] == Holding
    ensures Enabled(s, step) && !Outside(s, step) && !step.Acquire?
  {
    if s.MustWait() {
      step := Sleep(w);
    } else {
      match s.wq[0] {
        case Work(id) => step := TakeWork(w);
        case Exit =>
          var wake := SomeWake(s);
          step := Leave(w, wake);
        case RunSlow =>
          if s.slowRunning >= s.Threshold() {
            step := Reschedule(w);
          } else if s.slowPending == [] {
            step := NothingSlow(w);
          } else {
            var wake := None;
            if |s.slowPending| > 1 {
              wake := SomePost(s);
            }
            step := TakeSlow(w, wake);
          }
      }
    }
  }

  /**
   * No worker is held up: one that has the mutex, is about to run work, or has run it can go
   * on at once; one that is to take the mutex can when nobody has it; only the others sleep
   * or have exited.
   */
  lemma WorkersMove(states: seq<State>, steps: seq<Step>, i: nat, w: nat)
    requires IsRun(states, steps) && i < |states| && !states[i].broken && w < |states[i].workers|
    ensures states[i].workers[w] == Holding ==> exists step :: Enabled(states[i], step) && !Outside(states[i], step) && !step.Acquire?
    ensures states[i].workers[w].Picked? ==> Enabled(states[i], RunWork(w))
    ensures states[i].workers[w].Ran? ==> Enabled(states[i], Deliver(w))
    ensures (states[i].workers[w] == Start || states[i].workers[w] == Woken || states[i].workers[w].After?) &&
            (forall v :: 0 <= v < |states[i].workers| ==> states[i].workers[v] != Holding) ==>
              Enabled(states[i], Acquire(w))
  {
    EveryState(states, steps, i);
    if states[i].workers[w] == Holding {
      var step := HolderMoves(states[i], w);
    }
  }

  /** Nor is a loop: it can finish a cancel, return from a callback, call the next one, or collect completions. */
  lemma LoopsMove(states: seq<State>, steps: seq<Step>, i: nat, l: nat)
    requires IsRun(states, steps) && i < |states| && !states[i].broken && l < |states[i].loops|
    ensures var s, loop := states[i], states[i].loops[l];
            if loop.cancelling.Some? then Enabled(s, CancelInsert(l))
            else if loop.calling.Some? then Enabled(s, DoneReturns(l))
            else if loop.drain != [] then Enabled(s, DrainNext(l))
            else Enabled(s, DrainStart(l))
  {
    EveryState(states, steps, i);
    assert LoopOk(l, states[i].loops[l], states[i].items);
  }

  /** Work can be submitted, and an item be cancelled, whenever the mutex is free and the loop is not in a cancel. */
  lemma UsersMove(states: seq<State>, steps: seq<Step>, i: nat, l: nat, kind: Kind, id: nat)
    requires IsRun(states, steps) && i < |states| && !states[i].broken
    requires forall v :: 0 <= v < |states[i].workers| ==> states[i].workers[v] != Holding
    ensures l < |states[i].loops| ==> exists wake :: Enabled(states[i], Submit(l, kind, wake))
    ensures id < |states[i].items| && states[i].items[id].loop < |states[i].loops| && states[i].loops[states[i].items[id].loop].cancelling == None ==>
              Enabled(states[i], ThreadPool.Cancel(id))
  {
    var s := states[i];
    EveryState(states, steps, i);
    if l < |s.loops| {
      var wake := None;
      if !(kind == SlowIo && RunSlow in s.wq) {
        wake := SomePost(s);
      }
      assert Enabled(s, Submit(l, kind, wake));
    }
  }

  /**
   * No deadlock and nothing forgotten: in a state in which neither a worker nor a loop can
   * move, and not all workers have exited, every item ever submitted is finished.
   */
  lemma NothingIsStuck(states: seq<State>, steps: seq<Step>, i: nat, id: nat)
    requires IsRun(states, steps) && i < |states| && !states[i].broken && id < |states[i].items|
    requires forall step :: Enabled(states[i], step) ==> Outside(states[i], step)
    requires exists w :: 0 <= w < |states[i].workers| && states[i].workers[w] != Exited
    ensures states[i].items[id].place == Finished
  {
    hide IsRun, Enabled;
    var s := states[i];
    forall w | 0 <= w < |s.workers| ensures s.workers[w] != Holding && !s.workers[w].Picked? && !s.workers[w].Ran? {
      WorkersMove(states, steps, i, w);
    }
    forall w | 0 <= w < |s.workers| ensures s.workers[w] == Asleep || s.workers[w] == Exited {
      WorkersMove(states, steps, i, w);
      assert !Outside(s, Acquire(w));
    }
    forall l | 0 <= l < |s.loops| ensures s.loops[l] == Loop([], [], None, None) {
      LoopsMove(states, steps, i, l);
      LoopRests(s, l);
    }
    var w :| 0 <= w < |s.workers| && s.workers[w] != Exited;
    assert AllStuck(s);
    QuietMeansFinished(states, steps, i, id);
  }

  lemma LoopRests(s: State, l: nat)
    requires l < |s.loops| && forall step :: Enabled(s, step) ==> Outside(s, step)
    ensures !Enabled(s, CancelInsert(l)) && !Enabled(s, DoneReturns(l)) && !Enabled(s, DrainNext(l))
    ensures s.loops[l].queue != [] ==> !Enabled(s, DrainStart(l))
  {
    assert !Outside(s, CancelInsert(l)) && !Outside(s, DoneReturns(l)) && !Outside(s, DrainNext(l));
    assert s.loops[l].queue != [] ==> !Outside(s, DrainStart(l));
  }

  // ---------- What has started ----------

  predicate Underway(it: Item) {
    it.place.AtWorker? || it.runs > 0
  }

  lemma StepStarts(s: State, step: Step, id: nat)
    requires Tracked(s) && Enabled(s, step) && id < |Apply(s, step).items|
    requires id < |s.items| && Underway(s.items[id]) ==> id in s.startedCpu + s.startedSlow
    ensures Underway(Apply(s, step).items[id]) ==> id in Apply(s, step).startedCpu + Apply(s, step).startedSlow
  {
    var s' := Apply(s, step);
    StartedGrows(s, step);
    hide SlowOk, LoopsOk, ItemsOk, Ordered, Underway;
    if id in s.startedCpu + s.startedSlow {
      assert id in s'.startedCpu || id in s'.startedSlow;
    } else if step.RunWork? {
      RunStarts(s, step.w, id);
    } else {
      OthersStart(s, step, id);
    }
  }

  lemma StartedGrows(s: State, step: Step)
    requires Enabled(s, step)
    ensures forall x :: x in s.startedCpu ==> x in Apply(s, step).startedCpu
    ensures forall x :: x in s.startedSlow ==> x in Apply(s, step).startedSlow
    ensures step.TakeWork? ==> s.wq[0].id in Apply(s, step).startedCpu
    ensures step.TakeSlow? ==> s.slowPending[0] in Apply(s, step).startedSlow
  {
    hide Without, SignalWakes, PostSignals;
    var s' := Apply(s, step);
    if step.TakeWork? {
      assert s'.startedCpu[|s.startedCpu|] == s.wq[0].id;
    } else if step.TakeSlow? {
      assert s'.startedSlow[|s.startedSlow|] == s.slowPending[0];
    }
  }

  /** Only an item that a worker has picked is run. */
  lemma RunStarts(s: State, w: nat, id: nat)
    requires Tracked(s) && Enabled(s, RunWork(w)) && id < |s.items| && !Underway(s.items[id])
    ensures !Underway(Apply(s, RunWork(w)).items[id])
  {
  }

  lemma OthersStart(s: State, step: Step, id: nat)
    requires Enabled(s, step) && !step.RunWork? && id < |Apply(s, step).items|
    requires id < |s.items| ==> !Underway(s.items[id])
    ensures Underway(Apply(s, step).items[id]) ==>
              (step.TakeWork? && id == s.wq[0].id) || (step.TakeSlow? && id == s.slowPending[0])
  {
    hide Without, SignalWakes, PostSignals, State.MutexFree, State.MustWait, State.SomeAsleep;
  }

  /** Every item that a worker has, or has run, stands in the order of starts. */
  lemma {:induction false} StartsRecorded(states: seq<State>, steps: seq<Step>, i: nat, id: nat)
    requires IsRun(states, steps) && i < |states| && id < |states[i].items| && Underway(states[i].items[id])
    ensures id in states[i].startedCpu + states[i].startedSlow
    decreases i
  {
    hide Apply, Enabled, Tracked, Scheduled, Underway;
    if i > 0 {
      EveryState(states, steps, i - 1);
      assert states[i - 1 + 1] == Apply(states[i - 1], steps[i - 1]);
      if id < |states[i - 1].items| && Underway(states[i - 1].items[id]) {
        StartsRecorded(states, steps, i - 1, id);
      }
      StepStarts(states[i - 1], steps[i - 1], id);
    }
  }
}
