/** What holds over every run of the thread pool. */
module ThreadPoolRuns {
  import opened Common
  import opened ThreadPool
  import opened ThreadPoolScheduling
  import opened ThreadPoolItems

  /** Both invariants hold in every state of every run. */
  lemma {:induction false} EveryState(states: seq<State>, steps: seq<Step>, i: nat)
    requires IsRun(states, steps) && i < |states|
    ensures Scheduled(states[i]) && Tracked(states[i])
  {
    hide Scheduled, Tracked, Apply, Enabled;
    if i == 0 {
      InitialScheduled(states[0]);
      InitialTracked(states[0]);
    } else {
      EveryState(states, steps, i - 1);
      assert states[i - 1 + 1] == Apply(states[i - 1], steps[i - 1]);
      StepKeepsScheduled(states[i - 1], steps[i - 1]);
      StepKeepsTracked(states[i - 1], steps[i - 1]);
    }
  }

  // ---------- Scheduling ----------

  /** Every worker that has not exited sleeps on the condition variable and was not signalled. */
  ghost predicate AllStuck(s: State) {
    && (exists w :: 0 <= w < |s.workers| && s.workers[w] == Asleep)
    && (forall w :: 0 <= w < |s.workers| ==> s.workers[w] == Asleep || s.workers[w] == Exited)
  }

  /**
   * No lost wakeups: while some worker sleeps unsignalled, at least as many
   * workers are awake and free as there are entries to act on. In particular the
   * queue is empty when all live workers sleep, so that neither work nor the
   * exit message can be left behind with nobody to take it.
   */
  lemma NoLostWakeup(states: seq<State>, steps: seq<Step>, i: nat)
    requires IsRun(states, steps) && i < |states|
    ensures var s := states[i];
      (exists w :: 0 <= w < |s.workers| && s.workers[w] == Asleep) ==>
        CountOf(s.workers, Free) >= |s.wq| - (if CountOf(s.workers, Slow) >= (|s.workers| + 1) / 2 && RunSlow in s.wq then 1 else 0)
    ensures AllStuck(states[i]) ==> states[i].wq == [] && states[i].slowPending == []
  {
    var s := states[i];
    EveryState(states, steps, i);
    if AllStuck(s) {
      CountNone(s.workers, Free);
      CountNone(s.workers, Slow);
      assert s.Threshold() >= 1;
    }
  }

  /** Slow work is bounded by half the workers, rounded up, and is never forgotten. */
  lemma SlowWork(states: seq<State>, steps: seq<Step>, i: nat)
    requires IsRun(states, steps) && i < |states|
    ensures var s := states[i];
      && CountOf(s.workers, Slow) == s.slowRunning <= (|s.workers| + 1) / 2
      && (s.slowPending != [] ==> exists k :: 0 <= k < |s.wq| && s.wq[k] == RunSlow)
      && (forall j, k :: 0 <= j < |s.wq| && 0 <= k < |s.wq| && s.wq[j] == RunSlow && s.wq[k] == RunSlow ==> j == k)
  {
    EveryState(states, steps, i);
  }

  /** Each kind starts in submission order: nothing that still waits was submitted before something started. */
  lemma NoOvertaking(states: seq<State>, steps: seq<Step>, i: nat)
    requires IsRun(states, steps) && i < |states|
    ensures var s := states[i];
      && SortedIds(s.startedCpu) && SortedIds(s.startedSlow)
      && (forall id, k :: 0 <= id < |s.items| && s.items[id].place == InQueue && 0 <= k < |s.startedCpu| ==> s.startedCpu[k] < id)
      && (forall id, k :: 0 <= id < |s.items| && s.items[id].place == InSlow && 0 <= k < |s.startedSlow| ==> s.startedSlow[k] < id)
  {
    EveryState(states, steps, i);
    var s := states[i];
    forall id | 0 <= id < |s.items| && s.items[id].place == InQueue
      ensures forall k :: 0 <= k < |s.startedCpu| ==> s.startedCpu[k] < id
    {
      var j :| 0 <= j < |s.wq| && s.wq[j] == Work(id);
    }
    forall id | 0 <= id < |s.items| && s.items[id].place == InSlow
      ensures forall k :: 0 <= k < |s.startedSlow| ==> s.startedSlow[k] < id
    {
      var j :| 0 <= j < |s.slowPending| && s.slowPending[j] == id;
    }
  }

  // ---------- Cancels through stale links ----------

  /**
   * A uv__work_cancel of an item whose done callback was given UV_ECANCELED, when the links
   * of the item's node are no longer good.
   */
  predicate Breaks(s: State, step: Step) {
    LateCancel(s, step) && s.items[step.id].loop < |s.loops| && !LinksHold(s, step.id)
  }

  lemma BreakingStep(s: State, step: Step)
    requires Tracked(s) && Enabled(s, step)
    ensures Apply(s, step).broken <==> Breaks(s, step)
  {
    assert step.Cancel? ==> ItemOk(s.items[step.id]);
    hide Tracked, Without, SignalWakes, PostSignals;
  }

  /** A run breaks off exactly with such a cancel. */
  lemma {:induction false} BreaksExactly(states: seq<State>, steps: seq<Step>, i: nat)
    requires IsRun(states, steps) && i < |states|
    ensures states[i].broken <==> exists m :: 0 <= m < i && Breaks(states[m], steps[m])
    ensures states[i].broken ==> i == |steps|
  {
    hide Apply, Breaks, LateCancel, Tracked, Scheduled;
    if i > 0 {
      EveryState(states, steps, i - 1);
      BreaksExactly(states, steps, i - 1);
      assert states[i - 1 + 1] == Apply(states[i - 1], steps[i - 1]) && Enabled(states[i - 1], steps[i - 1]);
      BreakingStep(states[i - 1], steps[i - 1]);
    }
    assert i < |steps| ==> Enabled(states[i], steps[i]);
  }

  // ---------- Items ----------

  /** The lists and threads an item is found in are those its place names, and no others. */
  ghost predicate InItsPlaceOnly(s: State, id: nat)
    requires id < |s.items|
  {
    var it := s.items[id];
    && (Work(id) in s.wq <==> it.place == InQueue)
    && (id in s.slowPending <==> it.place == InSlow)
    && (forall w :: 0 <= w < |s.workers| ==> (Holds(s.workers[w], id) <==> it.place == AtWorker(w)))
    && (it.place.AtWorker? ==> it.place.w < |s.workers|)
    && it.loop < |s.loops|
    && (forall l :: 0 <= l < |s.loops| ==>
          && (id in s.loops[l].queue <==> it.place == Completed && it.loop == l)
          && (id in s.loops[l].drain <==> it.place == Draining && it.loop == l)
          && (s.loops[l].cancelling == Some(id) <==> it.place == Cancelling && it.loop == l))
  }

  /** An item is in one place only, occurs there once, and its work runs at most once. */
  lemma OnePlace(states: seq<State>, steps: seq<Step>, i: nat, id: nat)
    requires IsRun(states, steps) && i < |states| && id < |states[i].items| && !states[i].broken
    ensures InItsPlaceOnly(states[i], id)
    ensures SortedWork(states[i].wq) && SortedIds(states[i].slowPending)
    ensures forall l :: 0 <= l < |states[i].loops| ==> NoDuplicates(states[i].loops[l].queue) && NoDuplicates(states[i].loops[l].drain)
    ensures states[i].items[id].runs <= 1
  {
    EveryState(states, steps, i);
    var s := states[i];
    assert ItemOk(s.items[id]);
    forall l | 0 <= l < |s.loops|
      ensures NoDuplicates(s.loops[l].queue) && NoDuplicates(s.loops[l].drain)
      ensures id in s.loops[l].queue <==> s.items[id].place == Completed && s.items[id].loop == l
      ensures id in s.loops[l].drain <==> s.items[id].place == Draining && s.items[id].loop == l
      ensures s.loops[l].cancelling == Some(id) <==> s.items[id].place == Cancelling && s.items[id].loop == l
    {
      assert LoopOk(l, s.loops[l], s.items);
    }
  }

  /** How often, in the first n steps, the item was cancelled after its done callback had been given UV_ECANCELED. */
  function LateCancels(states: seq<State>, steps: seq<Step>, n: nat, id: nat): nat
    requires n <= |steps| && |states| == |steps| + 1
  {
    if n == 0 then 0
    else LateCancels(states, steps, n - 1, id) + if LateCancel(states[n - 1], steps[n - 1]) && steps[n - 1].id == id then 1 else 0
  }

  /** Whether the calls of the done callback are right: one if the item is finished, else none. */
  predicate DoneOnce(it: Item) {
    |it.dones| == if it.place == Finished then 1 else 0
  }

  /** How many calls of done there are beyond the one that a finished item has had. */
  function Extra(it: Item): int {
    |it.dones| - if it.place == Finished then 1 else 0
  }

  /** One step calls done exactly when it finishes the item, and only a late cancel takes an item back. */
  lemma StepCallsDone(s: State, step: Step, id: nat)
    requires Tracked(s) && Enabled(s, step) && id < |s.items| && !Apply(s, step).broken
    ensures var s', late := Apply(s, step), LateCancel(s, step) && step.id == id;
            id < |s'.items| && Extra(s'.items[id]) == Extra(s.items[id]) + (if late then 1 else 0)
  {
    WhereItIs(s, step, id);
    hide Tracked, Extra, ItemOk;
    if step.Cancel? {
      CancelCallsDone(s, step.id, id);
    } else if step.CancelInsert? || step.DrainStart? || step.DrainNext? {
      LoopCallsDone(s, step, id);
    } else {
      WorkerCallsDone(s, step, id);
    }
  }

  lemma CancelCallsDone(s: State, k: nat, id: nat)
    requires Enabled(s, ThreadPool.Cancel(k)) && id < |s.items| && ItemOk(s.items[id]) && !DoCancel(s, k).broken
    ensures var s', late := DoCancel(s, k), LateCancel(s, ThreadPool.Cancel(k)) && k == id;
            id < |s'.items| && Extra(s'.items[id]) == Extra(s.items[id]) + (if late then 1 else 0)
  {
    hide Without, OnlyCancelled;
  }

  lemma LoopCallsDone(s: State, step: Step, id: nat)
    requires Enabled(s, step) && id < |s.items| && (step.CancelInsert? || step.DrainStart? || step.DrainNext?)
    requires step.CancelInsert? && s.loops[step.loop].cancelling.value == id ==> s.items[id].place == Cancelling
    requires step.DrainStart? && id in s.loops[step.loop].queue ==> s.items[id].place == Completed
    requires step.DrainNext? && s.loops[step.loop].drain[0] == id ==> s.items[id].place == Draining
    ensures id < |Apply(s, step).items| && Extra(Apply(s, step).items[id]) == Extra(s.items[id])
  {
  }

  lemma WorkerCallsDone(s: State, step: Step, id: nat)
    requires Enabled(s, step) && id < |s.items|
    requires !step.Cancel? && !step.CancelInsert? && !step.DrainStart? && !step.DrainNext?
    requires step.TakeWork? && s.wq[0].id == id ==> s.items[id].place == InQueue
    requires step.TakeSlow? && s.slowPending[0] == id ==> s.items[id].place == InSlow
    requires (step.RunWork? || step.Deliver?) && s.workers[step.w].id == id ==> s.items[id].place.AtWorker?
    ensures id < |Apply(s, step).items| && Extra(Apply(s, step).items[id]) == Extra(s.items[id])
  {
    hide SignalWakes, PostSignals;
  }

  /** Finished items are in no list and with no worker; this rules out all steps that would move one, but for a cancel. */
  lemma WhereItIs(s: State, step: Step, id: nat)
    requires Tracked(s) && Enabled(s, step) && id < |s.items|
    ensures ItemOk(s.items[id])
    ensures step.TakeWork? && s.wq[0].id == id ==> s.items[id].place == InQueue
    ensures step.TakeSlow? && s.slowPending[0] == id ==> s.items[id].place == InSlow
    ensures (step.RunWork? || step.Deliver?) && s.workers[step.w].id == id ==> s.items[id].place.AtWorker?
    ensures step.CancelInsert? && s.loops[step.loop].cancelling.value == id ==> s.items[id].place == Cancelling
    ensures step.DrainStart? && id in s.loops[step.loop].queue ==> s.items[id].place == Completed
    ensures step.DrainNext? && s.loops[step.loop].drain[0] == id ==> s.items[id].place == Draining
  {
    if step.CancelInsert? || step.DrainStart? || step.DrainNext? {
      assert LoopOk(step.loop, s.loops[step.loop], s.items);
    }
  }

  /**
   * While the links hold, the done callback of every item has been called once for each
   * time the item was finished: once if it is finished, and once more for each late cancel.
   */
  lemma {:induction false} DoneCalls(states: seq<State>, steps: seq<Step>, i: nat, id: nat)
    requires IsRun(states, steps) && i < |states| && id < |states[i].items| && !states[i].broken
    ensures |states[i].items[id].dones| == (if states[i].items[id].place == Finished then 1 else 0) + LateCancels(states, steps, i, id)
    decreases i
  {
    hide Apply, Tracked;
    if i > 0 {
      assert states[i - 1 + 1] == Apply(states[i - 1], steps[i - 1]) && Enabled(states[i - 1], steps[i - 1]);
      hide Enabled;
      EveryState(states, steps, i - 1);
      if id < |states[i - 1].items| {
        DoneCalls(states, steps, i - 1, id);
        StepCallsDone(states[i - 1], steps[i - 1], id);
      } else {
        JustSubmitted(states[i - 1], steps[i - 1], id);
        NoneBefore(states, steps, i - 1, id);
      }
    }
  }

  lemma JustSubmitted(s: State, step: Step, id: nat)
    requires Enabled(s, step) && |s.items| <= id < |Apply(s, step).items|
    ensures Apply(s, step).items[id].dones == [] && Apply(s, step).items[id].place != Finished
    ensures !LateCancel(s, step)
  {
  }

  lemma {:induction false} NoneBefore(states: seq<State>, steps: seq<Step>, i: nat, id: nat)
    requires IsRun(states, steps) && i < |states| && |states[i].items| <= id
    ensures LateCancels(states, steps, i, id) == 0
  {
    hide Apply, Enabled;
    if i > 0 {
      assert states[i - 1 + 1] == Apply(states[i - 1], steps[i - 1]);
      assert Enabled(states[i - 1], steps[i - 1]);
      ItemsStay(states[i - 1], steps[i - 1]);
      NoneBefore(states, steps, i - 1, id);
    }
  }

  lemma ItemsStay(s: State, step: Step)
    requires Enabled(s, step)
    ensures |Apply(s, step).items| >= |s.items|
  {
  }

  /**
   * Exactly once: an item's done callback has been called once if it is finished, and not
   * at all before, exactly if the item was never cancelled late.
   */
  lemma ExactlyOnce(states: seq<State>, steps: seq<Step>, i: nat, id: nat)
    requires IsRun(states, steps) && i < |states| && id < |states[i].items| && !states[i].broken
    ensures InItsPlaceOnly(states[i], id) && states[i].items[id].runs <= 1
    ensures DoneOnce(states[i].items[id]) <==> LateCancels(states, steps, i, id) == 0
  {
    OnePlace(states, steps, i, id);
    DoneCalls(states, steps, i, id);
  }

  /**
   * Which cancels are safe: from a state in which every done callback is right, a cancel
   * leaves them right, and the queues whole, exactly if it is not one of an item whose done
   * callback was given UV_ECANCELED. The caller can tell from that status.
   */
  lemma CancelKeepsDoneOnce(states: seq<State>, steps: seq<Step>, i: nat, id: nat)
    requires IsRun(states, steps) && i < |states| && Enabled(states[i], ThreadPool.Cancel(id))
    requires forall k :: 0 <= k < |states[i].items| ==> DoneOnce(states[i].items[k])
    ensures var s' := Apply(states[i], ThreadPool.Cancel(id));
            (!s'.broken && forall k :: 0 <= k < |s'.items| ==> DoneOnce(s'.items[k])) <==> !LateCancel(states[i], ThreadPool.Cancel(id))
    ensures states[i].items[id].place == Finished ==>
              (LateCancel(states[i], ThreadPool.Cancel(id)) <==> states[i].items[id].dones == [UV_ECANCELED])
  {
    hide Tracked, Scheduled, Enabled, Apply, LateCancel;
    EveryState(states, steps, i);
    CancelAddsNothing(states[i], id);
    LateByStatus(states[i], id);
    CancelDones(states[i], id);
  }

  lemma CancelDones(s: State, id: nat)
    requires Tracked(s) && Enabled(s, ThreadPool.Cancel(id))
    requires forall k :: 0 <= k < |s.items| ==> DoneOnce(s.items[k])
    ensures var s' := Apply(s, ThreadPool.Cancel(id));
            (!s'.broken && forall k :: 0 <= k < |s'.items| ==> DoneOnce(s'.items[k])) <==> !LateCancel(s, ThreadPool.Cancel(id))
  {
    CancelAddsNothing(s, id);
    var step := ThreadPool.Cancel(id);
    BreakingStep(s, step);
    hide Tracked, Enabled, Apply, LateCancel;
    var s' := Apply(s, step);
    if s'.broken {
      return;
    }
    forall k | 0 <= k < |s'.items| ensures DoneOnce(s'.items[k]) <==> !(LateCancel(s, step) && k == id) {
      StepCallsDone(s, step, k);
    }
    assert DoneOnce(s'.items[id]) <==> !LateCancel(s, step);
  }

  /** The status that done was given tells a cancelled item from one whose work ran. */
  lemma LateByStatus(s: State, id: nat)
    requires Tracked(s) && Enabled(s, ThreadPool.Cancel(id)) && DoneOnce(s.items[id])
    ensures s.items[id].place == Finished ==>
              (LateCancel(s, ThreadPool.Cancel(id)) <==> s.items[id].dones == [UV_ECANCELED])
  {
    var it := s.items[id];
    assert ItemOk(it);
    hide Tracked;
    if it.place == Finished && it.cancelled {
      assert |it.dones| == 1 && it.dones[0] == UV_ECANCELED;
    }
  }

  lemma CancelAddsNothing(s: State, id: nat)
    requires Enabled(s, ThreadPool.Cancel(id))
    ensures id < |s.items| == |Apply(s, ThreadPool.Cancel(id)).items|
  {
  }

  // ---------- A run in which done is called twice ----------

  lemma Extend(states: seq<State>, steps: seq<Step>, step: Step) returns (states': seq<State>, steps': seq<Step>)
    requires IsRun(states, steps) && Enabled(states[|states| - 1], step)
    ensures IsRun(states', steps') && |states'| == |states| + 1
    ensures states'[|states|] == Apply(states[|states| - 1], step)
  {
    hide Apply, Enabled;
    states', steps' := states + [Apply(states[|states| - 1], step)], steps + [step];
    forall i | 0 <= i < |steps'| ensures Enabled(states'[i], steps'[i]) && states'[i + 1] == Apply(states'[i], steps'[i]) {
      if i < |steps| {
        assert states'[i] == states[i] && states'[i + 1] == states[i + 1] && steps'[i] == steps[i];
      }
    }
  }

  /** Collecting the only completion of a loop, and calling it. */
  lemma Drain(states: seq<State>, steps: seq<Step>, it: Item) returns (states': seq<State>, steps': seq<Step>)
    requires IsRun(states, steps) && it.place == Completed && it.loop == 0
    requires var s := states[|states| - 1]; !s.broken && s.MutexFree() && s.items == [it] && s.loops == [Loop([0], [], None, None)]
    ensures IsRun(states', steps') && |states'| > 0
    ensures var s := states'[|states'| - 1];
            && !s.broken && s.MutexFree() && s.loops == [Loop([], [], None, Some(Call(0, None)))]
            && s.items == [it.(place := Finished, dones := it.dones + [if it.work == Cancelled then UV_ECANCELED else 0])]
  {
    var s := states[|states| - 1];
    states', steps' := Extend(states, steps, DrainStart(0));
    var s1 := states'[|states'| - 1];
    assert s1.items == [it.(place := Draining)] && s1.loops == [Loop([], [0], None, None)] && s1.workers == s.workers;
    assert [0][1..] == [];
    states', steps' := Extend(states', steps', DrainNext(0));
  }

  /** A cancel that succeeds, both sections of it. */
  lemma CancelIt(states: seq<State>, steps: seq<Step>, it: Item, calling: Option<Call>)
    returns (states': seq<State>, steps': seq<Step>)
    requires IsRun(states, steps) && it.loop == 0 && Linked(it.place) && it.work != Null
    requires it.place == Finished ==> calling == Some(Call(0, None))
    requires var s := states[|states| - 1]; !s.broken && s.MutexFree() && s.items == [it] && s.loops == [Loop([], [], None, calling)]
    ensures IsRun(states', steps') && |states'| > 0
    ensures var s := states'[|states'| - 1];
            && !s.broken && s.MutexFree() && s.loops == [Loop([0], [], None, calling)]
            && s.items == [it.(place := Completed, work := Cancelled, cancelled := true)]
  {
    var s := states[|states| - 1];
    states', steps' := Extend(states, steps, ThreadPool.Cancel(0));
    var s1 := states'[|states'| - 1];
    assert s1.items == [it.(place := Cancelling, cancelled := true)] && s1.workers == s.workers;
    assert s1.loops == [Loop([], [], Some(0), calling)] && !s1.broken;
    assert [] + [0] == [0];
    states', steps' := Extend(states', steps', CancelInsert(0));
  }

  /** Submit, cancel, done. */
  lemma CancelledAndDone() returns (states: seq<State>, steps: seq<Step>)
    ensures IsRun(states, steps) && |states| > 0
    ensures var s := states[|states| - 1];
            && !s.broken && s.MutexFree() && s.loops == [Loop([], [], None, Some(Call(0, None)))]
            && s.items == [Item(Cpu, 0, Finished, Cancelled, 0, [UV_ECANCELED], true, false)]
  {
    states, steps := [State([], [], 0, 0, [Start], [], [Loop([], [], None, None)], [], [], false)], [];
    states, steps := Extend(states, steps, Submit(0, Cpu, None));
    var it := Item(Cpu, 0, InQueue, Function, 0, [], false, false);
    assert states[|states| - 1].items == [it];
    states, steps := CancelIt(states, steps, it, None);
    it := it.(place := Completed, work := Cancelled, cancelled := true);
    states, steps := Drain(states, steps, it);
    assert [] + [UV_ECANCELED] == [UV_ECANCELED];
  }

  /** The only item's done callback has been given UV_ECANCELED twice. */
  predicate CalledTwice(s: State) {
    |s.items| == 1 && s.items[0].dones == [UV_ECANCELED, UV_ECANCELED]
  }

  /** Submit, cancel, done, and cancel again from done: done is called a second time. */
  lemma DoneTwice()
    ensures exists states: seq<State>, steps: seq<Step> :: IsRun(states, steps) && CalledTwice(states[|states| - 1])
  {
    var states, steps := CancelledAndDone();
    var it := Item(Cpu, 0, Finished, Cancelled, 0, [UV_ECANCELED], true, false);
    states, steps := CancelIt(states, steps, it, Some(Call(0, None)));
    it := it.(place := Completed);
    states, steps := Extend(states, steps, DoneReturns(0));
    assert states[|states| - 1].loops == [Loop([0], [], None, None)];
    states, steps := Drain(states, steps, it);
  }

  /** Submit, cancel, done, and cancel again after done has returned: the links are not good any more. */
  lemma StaleCancel()
    ensures exists states: seq<State>, steps: seq<Step> :: IsRun(states, steps) && states[|states| - 1].broken
  {
    var states, steps := CancelledAndDone();
    states, steps := Extend(states, steps, DoneReturns(0));
    states, steps := Extend(states, steps, ThreadPool.Cancel(0));
  }

  /** No loop has completions to collect, to call, or to be cancelled into it. */
  ghost predicate LoopsIdle(s: State) {
    forall l :: 0 <= l < |s.loops| ==> s.loops[l] == Loop([], [], None, None)
  }

  /**
   * Nothing is left behind: when every live worker sleeps unsignalled and no loop has
   * completions left, every item ever submitted is finished: its work has run once and
   * done was called once, with success, or it never ran and done was given UV_ECANCELED.
   */
  lemma QuietMeansFinished(states: seq<State>, steps: seq<Step>, i: nat, id: nat)
    requires IsRun(states, steps) && i < |states| && id < |states[i].items|
    requires AllStuck(states[i]) && LoopsIdle(states[i]) && !states[i].broken
    ensures states[i].items[id].place == Finished
    ensures (states[i].items[id].runs == 1 && states[i].items[id].dones == [0])
         || (states[i].items[id].runs == 0 && states[i].items[id].dones != [] && OnlyCancelled(states[i].items[id].dones))
  {
    var s := states[i];
    NoLostWakeup(states, steps, i);
    OnePlace(states, steps, i, id);
    EveryState(states, steps, i);
    assert ItemOk(s.items[id]);
    hide Scheduled, Tracked;
    assert s.loops[s.items[id].loop] == Loop([], [], None, None);
    assert forall w :: 0 <= w < |s.workers| ==> !Holds(s.workers[w], id);
  }

  /** Items are never forgotten, and neither is what a cancellation reported about them. */
  lemma StepRemembers(s: State, step: Step, id: nat)
    requires Enabled(s, step) && id < |s.items|
    ensures id < |Apply(s, step).items| && Remembers(s.items[id], Apply(s, step).items[id])
  {
    hide Remembers;
    if step.Cancel? || step.CancelInsert? || step.DrainStart? || step.DrainNext? {
      LoopRemembers(s, step, id);
    } else {
      WorkerRemembers(s, step, id);
    }
  }

  predicate Remembers(was: Item, it: Item) {
    (was.cancelled ==> it.cancelled) && (was.busy ==> it.busy)
  }

  lemma LoopRemembers(s: State, step: Step, id: nat)
    requires Enabled(s, step) && id < |s.items|
    requires step.Cancel? || step.CancelInsert? || step.DrainStart? || step.DrainNext?
    ensures id < |Apply(s, step).items| && Remembers(s.items[id], Apply(s, step).items[id])
  {
    hide Without, State.MutexFree, Linked;
  }

  lemma WorkerRemembers(s: State, step: Step, id: nat)
    requires Enabled(s, step) && id < |s.items|
    requires !step.Cancel? && !step.CancelInsert? && !step.DrainStart? && !step.DrainNext?
    ensures id < |Apply(s, step).items| && Remembers(s.items[id], Apply(s, step).items[id])
  {
    hide SignalWakes, PostSignals, State.MutexFree;
  }

  lemma {:induction false} RunRemembers(states: seq<State>, steps: seq<Step>, i: nat, j: nat, id: nat)
    requires IsRun(states, steps) && i <= j < |states| && id < |states[i].items|
    ensures id < |states[j].items|
    ensures states[i].items[id].cancelled ==> states[j].items[id].cancelled
    ensures states[i].items[id].busy ==> states[j].items[id].busy
    decreases j - i
  {
    hide Apply, Enabled;
    if i < j {
      RunRemembers(states, steps, i, j - 1, id);
      assert states[j - 1 + 1] == Apply(states[j - 1], steps[j - 1]);
      StepRemembers(states[j - 1], steps[j - 1], id);
    }
  }

  /** Whether uv__work_cancel returns 0 in this state, and not UV_EBUSY. */
  predicate CancelSucceeds(s: State, id: nat)
    requires id < |s.items|
  {
    Linked(s.items[id].place) && s.items[id].work != Null
  }

  /**
   * Cancellation is honest. If it succeeds, the work has not run and never will, and done
   * is only ever given UV_ECANCELED. If it reports UV_EBUSY, a worker has taken the item
   * or its work has run, and done is called once at most, with success.
   */
  lemma CancelIsHonest(states: seq<State>, steps: seq<Step>, i: nat, j: nat, id: nat)
    requires IsRun(states, steps) && i < |steps| && steps[i] == ThreadPool.Cancel(id) && i < j < |states|
    ensures id < |states[i].items| && id < |states[j].items|
    ensures CancelSucceeds(states[i], id) ==> states[j].items[id].runs == 0 && OnlyCancelled(states[j].items[id].dones)
    ensures !CancelSucceeds(states[i], id) ==>
      && (states[i].items[id].place.AtWorker? || states[i].items[id].runs == 1)
      && !states[j].items[id].cancelled
      && (states[j].items[id].dones == [] || states[j].items[id].dones == [0])
  {
    assert states[i + 1] == Apply(states[i], steps[i]);
    EveryState(states, steps, i);
    EveryState(states, steps, j);
    NotCancelling(states[i], id);
    RunRemembers(states, steps, i + 1, j, id);
    assert ItemOk(states[i].items[id]) && ItemOk(states[j].items[id]);
    assert Enabled(states[i], steps[i]);
  }
}
