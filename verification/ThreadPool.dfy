/**
 * The thread pool as a state machine over any number of workers, loops and
 * work items. A step is what one thread does between taking and releasing a
 * mutex, or one call of a user's function. Workers that sleep on the condition
 * variable are told apart from those that have been signalled but have not yet
 * taken the mutex again; wakeups may be spurious.
 */
module ThreadPool {
  import opened Common

  // ---------- State ----------

  datatype Kind = Cpu | SlowIo

  /** What `wq` links: a work item, run_slow_work_message or exit_message. */
  datatype Entry = Work(id: nat) | RunSlow | Exit

  /** Where a worker stands in its endless loop. */
  datatype Worker =
    | Start                             // about to take the mutex for the first time
    | Holding                           // at the head of the loop, with the mutex
    | Asleep                            // in uv_cond_wait, not signalled
    | Woken                             // in uv_cond_wait, to take the mutex again
    | Picked(id: nat, slow: bool)       // about to call w->work, without the mutex
    | Ran(id: nat, slow: bool)          // about to take the loop's wq_mutex
    | After(slow: bool)                 // about to take the mutex again
    | Exited

  /** The list an item's node is linked into, or the thread that holds it. */
  datatype Place = InQueue | InSlow | AtWorker(w: nat) | Cancelling | Completed | Draining | Finished

  /** The field w->work. */
  datatype WorkField = Function | Null | Cancelled

  /** A work request; runs, dones, cancelled and busy record what happened to it. */
  datatype Item = Item(kind: Kind, loop: nat, place: Place, work: WorkField,
                       runs: nat, dones: seq<int>, cancelled: bool, busy: bool)

  /** A done callback that is running, and what stood behind its item when that was taken off the local queue. */
  datatype Call = Call(id: nat, next: Option<nat>)

  /** loop->wq, the local queue of uv__work_done, a uv__work_cancel between its two sections, and the callback that is running. */
  datatype Loop = Loop(queue: seq<nat>, drain: seq<nat>, cancelling: Option<nat>, calling: Option<Call>)

  /**
   * broken says that a cancel has written through links that were no longer those of a
   * queue: the run ends there.
   */
  datatype State = State(wq: seq<Entry>, slowPending: seq<nat>, idle: int, slowRunning: int,
                         workers: seq<Worker>, items: seq<Item>, loops: seq<Loop>,
                         startedCpu: seq<nat>, startedSlow: seq<nat>, broken: bool)
  {
    /** slow_work_thread_threshold */
    function Threshold(): nat {
      (|workers| + 1) / 2
    }

    predicate MutexFree() {
      forall w :: 0 <= w < |workers| ==> workers[w] != Holding
    }

    predicate SomeAsleep() {
      exists w :: 0 <= w < |workers| && workers[w] == Asleep
    }

    /** The condition of the worker's inner loop. */
    predicate MustWait() {
      wq == [] || (wq[0] == RunSlow && |wq| == 1 && slowRunning >= Threshold())
    }
  }

  // ---------- Pieces of steps ----------

  /** uv_cond_signal wakes one sleeper when there is one. */
  predicate SignalWakes(s: State, wake: Option<nat>) {
    if s.SomeAsleep() then wake.Some? && wake.value < |s.workers| && s.workers[wake.value] == Asleep else wake.None?
  }

  function Signal(s: State, wake: Option<nat>): State {
    if wake.Some? && wake.value < |s.workers| then s.(workers := s.workers[wake.value := Woken]) else s
  }

  function SetWorker(s: State, w: nat, v: Worker): State
    requires w < |s.workers|
  {
    s.(workers := s.workers[w := v])
  }

  function SetItem(s: State, id: nat, v: Item): State
    requires id < |s.items|
  {
    s.(items := s.items[id := v])
  }

  function SetLoop(s: State, l: nat, v: Loop): State
    requires l < |s.loops|
  {
    s.(loops := s.loops[l := v])
  }

  /**
   * What uv__queue_empty(&w->wq) denies. A node that was taken off the local queue of
   * uv__work_done is not initialised again, so it still looks linked.
   */
  predicate Linked(p: Place) {
    p == InQueue || p == InSlow || p == Completed || p == Draining || p == Finished
  }

  // ---------- Steps ----------

  datatype Step =
    | Submit(loop: nat, kind: Kind, wake: Option<nat>)
    | PostExit(wake: Option<nat>)
    | Acquire(w: nat)
    | Sleep(w: nat)
    | Leave(w: nat, wake: Option<nat>)
    | TakeWork(w: nat)
    | Reschedule(w: nat)
    | NothingSlow(w: nat)
    | TakeSlow(w: nat, wake: Option<nat>)
    | RunWork(w: nat)
    | Deliver(w: nat)
    | SpuriousWakeup(w: nat)
    | Cancel(id: nat)
    | CancelInsert(loop: nat)
    | DrainStart(loop: nat)
    | DrainNext(loop: nat)
    | DoneReturns(loop: nat)

  /** The mutex is held by w, which passed the waiting loop and finds e at the head of the queue. */
  predicate AtHead(s: State, w: nat, e: Entry) {
    w < |s.workers| && s.workers[w] == Holding && !s.MustWait() && s.wq != [] && s.wq[0] == e
  }

  /** When post() signals: it only looks at idle_threads. */
  predicate PostSignals(s: State, wake: Option<nat>) {
    if s.idle > 0 then SignalWakes(s, wake) else wake.None?
  }

  /** The loop is neither in a done callback nor in a cancel. */
  predicate LoopFree(s: State, l: nat) {
    l < |s.loops| && s.loops[l].cancelling == None && s.loops[l].calling == None
  }

  predicate Enabled(s: State, step: Step) {
    !s.broken &&
    match step
    case Submit(l, kind, wake) =>
      s.MutexFree() && l < |s.loops| &&
      if kind == SlowIo && RunSlow in s.wq then wake.None? else PostSignals(s, wake)
    case PostExit(wake) => s.MutexFree() && Exit !in s.wq && PostSignals(s, wake)
    case Acquire(w) =>
      s.MutexFree() && w < |s.workers| && (s.workers[w].Start? || s.workers[w].Woken? || s.workers[w].After?)
    case Sleep(w) => w < |s.workers| && s.workers[w] == Holding && s.MustWait()
    case Leave(w, wake) => AtHead(s, w, Exit) && SignalWakes(s, wake)
    case TakeWork(w) => w < |s.workers| && s.workers[w] == Holding && s.wq != [] && s.wq[0].Work?
    case Reschedule(w) => AtHead(s, w, RunSlow) && s.slowRunning >= s.Threshold()
    case NothingSlow(w) => AtHead(s, w, RunSlow) && s.slowRunning < s.Threshold() && s.slowPending == []
    case TakeSlow(w, wake) =>
      AtHead(s, w, RunSlow) && s.slowRunning < s.Threshold() && s.slowPending != [] &&
      if |s.slowPending| > 1 then PostSignals(s, wake) else wake.None?
    case RunWork(w) => w < |s.workers| && s.workers[w].Picked? && s.workers[w].id < |s.items|
    case Deliver(w) =>
      w < |s.workers| && s.workers[w].Ran? && s.workers[w].id < |s.items| &&
      s.items[s.workers[w].id].loop < |s.loops|
    case SpuriousWakeup(w) => w < |s.workers| && s.workers[w] == Asleep
    case Cancel(id) =>
      s.MutexFree() && id < |s.items| && s.items[id].loop < |s.loops| &&
      s.loops[s.items[id].loop].cancelling == None
    case CancelInsert(l) => l < |s.loops| && s.loops[l].cancelling.Some? && s.loops[l].cancelling.value < |s.items|
    case DrainStart(l) => LoopFree(s, l) && s.loops[l].drain == []
    case DrainNext(l) => LoopFree(s, l) && s.loops[l].drain != [] && s.loops[l].drain[0] < |s.items|
    case DoneReturns(l) => l < |s.loops| && s.loops[l].calling.Some? && s.loops[l].cancelling == None
  }

  /** uv__work_submit and post. */
  function DoSubmit(s: State, l: nat, kind: Kind, wake: Option<nat>): State {
    var id := |s.items|;
    var place := if kind == SlowIo then InSlow else InQueue;
    var s1 := s.(items := s.items + [Item(kind, l, place, Function, 0, [], false, false)]);
    if kind == SlowIo then
      var s2 := s1.(slowPending := s1.slowPending + [id]);
      if RunSlow in s.wq then s2 else Signal(s2.(wq := s2.wq + [RunSlow]), wake)
    else
      Signal(s1.(wq := s1.wq + [Work(id)]), wake)
  }

  /** uv_mutex_lock at the head of the loop, after a wait, or after a delivery. */
  function DoAcquire(s: State, w: nat): State
    requires w < |s.workers|
  {
    var s1 := SetWorker(s, w, Holding);
    match s.workers[w]
    case Woken => s1.(idle := s.idle - 1)
    case After(true) => s1.(slowRunning := s.slowRunning - 1)
    case _ => s1
  }

  function DoTakeWork(s: State, w: nat): State
    requires w < |s.workers| && s.wq != [] && s.wq[0].Work?
  {
    var id := s.wq[0].id;
    var s1 := SetWorker(s, w, Picked(id, false)).(wq := s.wq[1..], startedCpu := s.startedCpu + [id]);
    if id < |s.items| then SetItem(s1, id, s.items[id].(place := AtWorker(w))) else s1
  }

  /** A slow item is taken, and the message is queued again when more slow work is pending. */
  function DoTakeSlow(s: State, w: nat, wake: Option<nat>): State
    requires w < |s.workers| && s.wq != [] && s.slowPending != []
  {
    var id := s.slowPending[0];
    var s1 := SetWorker(s, w, Picked(id, true))
              .(wq := s.wq[1..], slowPending := s.slowPending[1..], slowRunning := s.slowRunning + 1,
                startedSlow := s.startedSlow + [id]);
    var s2 := if id < |s.items| then SetItem(s1, id, s.items[id].(place := AtWorker(w))) else s1;
    if s2.slowPending == [] then s2 else Signal(s2.(wq := s2.wq + [RunSlow]), wake)
  }

  function DoDeliver(s: State, w: nat): State
    requires Enabled(s, Deliver(w))
  {
    var id := s.workers[w].id;
    var l := s.items[id].loop;
    var s1 := SetWorker(s, w, After(s.workers[w].slow));
    var s2 := SetItem(s1, id, s.items[id].(work := Null, place := Completed));
    SetLoop(s2, l, s.loops[l].(queue := s.loops[l].queue + [id]))
  }

  function First(s: seq<nat>): Option<nat> {
    if s == [] then None else Some(s[0])
  }

  /**
   * Whether the links of a finished item are still good for removing it once more: its own
   * callback is running, and behind the head of the local queue stands what stood behind
   * the item then. See Queue.RemoveAgain.
   */
  predicate LinksHold(s: State, id: nat)
    requires id < |s.items| && s.items[id].loop < |s.loops|
  {
    var loop := s.loops[s.items[id].loop];
    loop.calling == Some(Call(id, First(loop.drain)))
  }

  /** The section of uv__work_cancel that holds both mutexes. */
  function DoCancel(s: State, id: nat): State
    requires Enabled(s, Cancel(id))
  {
    var item := s.items[id];
    var loop := s.loops[item.loop];
    if !(Linked(item.place) && item.work != Null) then
      SetItem(s, id, item.(busy := true))                       // UV_EBUSY
    else if item.place == Finished && !LinksHold(s, id) then
      s.(broken := true)
    else
      var s1 := SetItem(s, id, item.(place := Cancelling, cancelled := true));
      var loop1 := loop.(queue := Without(loop.queue, id), drain := Without(loop.drain, id), cancelling := Some(id));
      SetLoop(s1.(wq := Without(s.wq, Work(id)), slowPending := Without(s.slowPending, id)), item.loop, loop1)
  }

  /** The rest of uv__work_cancel. */
  function DoCancelInsert(s: State, l: nat): State
    requires Enabled(s, CancelInsert(l))
  {
    var id := s.loops[l].cancelling.value;
    var s1 := SetItem(s, id, s.items[id].(work := Cancelled, place := Completed));
    SetLoop(s1, l, s.loops[l].(queue := s.loops[l].queue + [id], cancelling := None))
  }

  /** uv__queue_move in uv__work_done. */
  function DoDrainStart(s: State, l: nat): State
    requires Enabled(s, DrainStart(l))
  {
    var q := s.loops[l].queue;
    var s1 := SetLoop(s, l, s.loops[l].(queue := [], drain := q));
    s1.(items := seq(|s.items|, i requires 0 <= i < |s.items| =>
      if i in q then s.items[i].(place := Draining) else s.items[i]))
  }

  /** One round of the loop in uv__work_done, up to the call of w->done. */
  function DoDrainNext(s: State, l: nat): State
    requires Enabled(s, DrainNext(l))
  {
    var id := s.loops[l].drain[0];
    var item := s.items[id];
    var status := if item.work == Cancelled then UV_ECANCELED else 0;
    SetLoop(SetItem(s, id, item.(place := Finished, dones := item.dones + [status])),
            l, s.loops[l].(drain := s.loops[l].drain[1..], calling := Some(Call(id, First(s.loops[l].drain[1..])))))
  }

  function Apply(s: State, step: Step): State
    requires Enabled(s, step)
  {
    match step
    case Submit(l, kind, wake) => DoSubmit(s, l, kind, wake)
    case PostExit(wake) => Signal(s.(wq := s.wq + [Exit]), wake)
    case Acquire(w) => DoAcquire(s, w)
    case Sleep(w) => SetWorker(s, w, Asleep).(idle := s.idle + 1)
    case Leave(w, wake) => Signal(SetWorker(s, w, Exited), wake)
    case TakeWork(w) => DoTakeWork(s, w)
    case Reschedule(w) => s.(wq := s.wq[1..] + [RunSlow])
    case NothingSlow(w) => s.(wq := s.wq[1..])
    case TakeSlow(w, wake) => DoTakeSlow(s, w, wake)
    case RunWork(w) =>
      var id := s.workers[w].id;
      SetItem(SetWorker(s, w, Ran(id, s.workers[w].slow)), id, s.items[id].(runs := s.items[id].runs + 1))
    case Deliver(w) => DoDeliver(s, w)
    case SpuriousWakeup(w) => SetWorker(s, w, Woken)
    case Cancel(id) => DoCancel(s, id)
    case CancelInsert(l) => DoCancelInsert(s, l)
    case DrainStart(l) => DoDrainStart(s, l)
    case DrainNext(l) => DoDrainNext(s, l)
    case DoneReturns(l) => SetLoop(s, l, s.loops[l].(calling := None))
  }

  /**
   * A uv__work_cancel, from the done callback or after it, of an item whose done callback
   * was given UV_ECANCELED.
   */
  predicate LateCancel(s: State, step: Step) {
    step.Cancel? && step.id < |s.items| && s.items[step.id].place == Finished && s.items[step.id].work == Cancelled
  }

  // ---------- Runs ----------

  /** After init_threads: at least one worker, nothing queued. */
  predicate Initial(s: State) {
    && |s.workers| > 0 && (forall w :: 0 <= w < |s.workers| ==> s.workers[w] == Start)
    && (forall l :: 0 <= l < |s.loops| ==> s.loops[l] == Loop([], [], None, None))
    && s.wq == [] && s.slowPending == [] && s.idle == 0 && s.slowRunning == 0
    && s.items == [] && s.startedCpu == [] && s.startedSlow == [] && !s.broken
  }

  /** A run: every state follows from the one before by the step named. */
  ghost predicate IsRun(states: seq<State>, steps: seq<Step>) {
    && |states| == |steps| + 1
    && Initial(states[0])
    && forall i :: 0 <= i < |steps| ==> Enabled(states[i], steps[i]) && states[i + 1] == Apply(states[i], steps[i])
  }
}
