/** The life of a work item: one place at a time, one run, one done callback, and honest cancellation. */
module ThreadPoolItems {
  import opened Common
  import opened ThreadPool

  // ---------- Lists ----------

  predicate SortedIds(s: seq<nat>) {
    forall i, j :: 0 <= i < j < |s| ==> s[i] < s[j]
  }

  predicate SortedWork(wq: seq<Entry>) {
    forall i, j :: 0 <= i < j < |wq| && wq[i].Work? && wq[j].Work? ==> wq[i].id < wq[j].id
  }

  lemma {:induction false} WithoutSortedIds(s: seq<nat>, x: nat)
    requires SortedIds(s)
    ensures SortedIds(Without(s, x))
    decreases |s|
  {
    if s != [] {
      var init, last := s[..|s| - 1], s[|s| - 1];
      WithoutSortedIds(init, x);
      assert forall i :: 0 <= i < |Without(init, x)| ==> Without(init, x)[i] in init;
    }
  }

  lemma {:induction false} WithoutSortedWork(wq: seq<Entry>, e: Entry)
    requires SortedWork(wq)
    ensures SortedWork(Without(wq, e))
    decreases |wq|
  {
    if wq != [] {
      var init, last := wq[..|wq| - 1], wq[|wq| - 1];
      WithoutSortedWork(init, e);
      assert forall i :: 0 <= i < |Without(init, e)| ==> Without(init, e)[i] in init;
    }
  }

  // ---------- The invariant, one structure at a time ----------

  /** The queue holds exactly the items whose place is InQueue, in submission order. */
  ghost predicate QueueOk(wq: seq<Entry>, items: seq<Item>) {
    && SortedWork(wq)
    && (forall i :: 0 <= i < |wq| && wq[i].Work? ==> wq[i].id < |items| && items[wq[i].id].place == InQueue)
    && (forall id :: 0 <= id < |items| && items[id].place == InQueue ==> Work(id) in wq)
  }

  ghost predicate SlowOk(pending: seq<nat>, items: seq<Item>) {
    && SortedIds(pending)
    && (forall i :: 0 <= i < |pending| ==> pending[i] < |items| && items[pending[i]].place == InSlow)
    && (forall id :: 0 <= id < |items| && items[id].place == InSlow ==> id in pending)
  }

  predicate Holds(w: Worker, id: nat) {
    (w.Picked? || w.Ran?) && w.id == id
  }

  ghost predicate WorkersOk(workers: seq<Worker>, items: seq<Item>) {
    && (forall w :: 0 <= w < |workers| && (workers[w].Picked? || workers[w].Ran?) ==>
          workers[w].id < |items| && items[workers[w].id].place == AtWorker(w) &&
          items[workers[w].id].runs == if workers[w].Ran? then 1 else 0)
    && (forall id :: 0 <= id < |items| && items[id].place.AtWorker? ==>
          items[id].place.w < |workers| && Holds(workers[items[id].place.w], id))
  }

  ghost predicate LoopOk(l: nat, loop: Loop, items: seq<Item>) {
    && NoDuplicates(loop.queue) && NoDuplicates(loop.drain)
    && (forall i :: 0 <= i < |loop.queue| ==>
          loop.queue[i] < |items| && items[loop.queue[i]].place == Completed && items[loop.queue[i]].loop == l)
    && (forall i :: 0 <= i < |loop.drain| ==>
          loop.drain[i] < |items| && items[loop.drain[i]].place == Draining && items[loop.drain[i]].loop == l)
    && (loop.cancelling.Some? ==>
          loop.cancelling.value < |items| && items[loop.cancelling.value].place == Cancelling && items[loop.cancelling.value].loop == l)
    && (forall id :: 0 <= id < |items| && items[id].loop == l ==>
          && (items[id].place == Completed ==> id in loop.queue)
          && (items[id].place == Draining ==> id in loop.drain)
          && (items[id].place == Cancelling ==> loop.cancelling == Some(id)))
  }

  /** What an item's history can be, place by place. */
  predicate ItemOk(it: Item) {
    match it.place
    case InQueue => it == Item(it.kind, it.loop, InQueue, Function, 0, [], false, false) && it.kind == Cpu
    case InSlow => it == Item(it.kind, it.loop, InSlow, Function, 0, [], false, false) && it.kind == SlowIo
    case AtWorker(_) => it.work == Function && it.runs <= 1 && it.dones == [] && !it.cancelled
    case Cancelling => it.work != Null && it.runs == 0 && it.cancelled && !it.busy && OnlyCancelled(it.dones)
    case Completed => Executed(it) && (if it.cancelled then OnlyCancelled(it.dones) else it.dones == [])
    case Draining => Executed(it) && (if it.cancelled then OnlyCancelled(it.dones) else it.dones == [])
    case Finished => Executed(it) && if it.cancelled then OnlyCancelled(it.dones) && it.dones != [] else it.dones == [0]
  }

  predicate OnlyCancelled(dones: seq<int>) {
    forall k :: 0 <= k < |dones| ==> dones[k] == UV_ECANCELED
  }

  /** Either the work ran and was never cancelled, or it was cancelled and never ran. */
  predicate Executed(it: Item) {
    || (it.work == Null && it.runs == 1 && !it.cancelled)
    || (it.work == Cancelled && it.runs == 0 && it.cancelled && !it.busy)
  }

  ghost predicate ItemsOk(items: seq<Item>, nloops: nat) {
    forall id :: 0 <= id < |items| ==> ItemOk(items[id]) && items[id].loop < nloops
  }

  /** The items started so far, and those waiting, in submission order. */
  ghost predicate Ordered(s: State) {
    && SortedIds(s.startedCpu) && SortedIds(s.startedSlow)
    && (forall i :: 0 <= i < |s.startedCpu| ==> s.startedCpu[i] < |s.items|)
    && (forall i :: 0 <= i < |s.startedSlow| ==> s.startedSlow[i] < |s.items|)
    && (forall i, j :: 0 <= i < |s.startedCpu| && 0 <= j < |s.wq| && s.wq[j].Work? ==> s.startedCpu[i] < s.wq[j].id)
    && (forall i, j :: 0 <= i < |s.startedSlow| && 0 <= j < |s.slowPending| ==> s.startedSlow[i] < s.slowPending[j])
  }

  ghost predicate LoopsOk(loops: seq<Loop>, items: seq<Item>) {
    forall l :: 0 <= l < |loops| ==> LoopOk(l, loops[l], items)
  }

  ghost predicate Tracked(s: State) {
    && QueueOk(s.wq, s.items) && SlowOk(s.slowPending, s.items)
    && WorkersOk(s.workers, s.items) && LoopsOk(s.loops, s.items)
    && ItemsOk(s.items, |s.loops|) && Ordered(s)
  }

  lemma InitialTracked(s: State)
    requires Initial(s)
    ensures Tracked(s)
  {
  }

  // ---------- Frames: an item that moves between other places ----------

  lemma QueueFrame(wq: seq<Entry>, items: seq<Item>, id: nat, v: Item)
    requires QueueOk(wq, items) && id < |items| && items[id].place != InQueue && v.place != InQueue
    ensures QueueOk(wq, items[id := v])
  {
  }

  lemma SlowFrame(pending: seq<nat>, items: seq<Item>, id: nat, v: Item)
    requires SlowOk(pending, items) && id < |items| && items[id].place != InSlow && v.place != InSlow
    ensures SlowOk(pending, items[id := v])
  {
  }

  lemma WorkersFrame(workers: seq<Worker>, items: seq<Item>, id: nat, v: Item)
    requires WorkersOk(workers, items) && id < |items|
    requires (!items[id].place.AtWorker? && !v.place.AtWorker?) || (items[id].place == v.place && items[id].runs == v.runs)
    ensures WorkersOk(workers, items[id := v])
  {
  }

  predicate LoopPlace(p: Place) {
    p == Completed || p == Draining || p == Cancelling
  }

  lemma LoopFrame(l: nat, loop: Loop, items: seq<Item>, id: nat, v: Item)
    requires LoopOk(l, loop, items) && id < |items| && items[id].loop == v.loop
    requires v.loop != l || (!LoopPlace(items[id].place) && !LoopPlace(v.place)) || items[id].place == v.place
    ensures LoopOk(l, loop, items[id := v])
  {
  }

  lemma LoopsFrame(loops: seq<Loop>, items: seq<Item>, id: nat, v: Item)
    requires LoopsOk(loops, items) && id < |items| && items[id].loop == v.loop
    requires (!LoopPlace(items[id].place) && !LoopPlace(v.place)) || items[id].place == v.place
    ensures LoopsOk(loops, items[id := v])
  {
    forall l | 0 <= l < |loops| ensures LoopOk(l, loops[l], items[id := v]) {
      LoopFrame(l, loops[l], items, id, v);
    }
  }

  /** Only the item's own loop changes. */
  lemma LoopsUpdate(loops: seq<Loop>, items: seq<Item>, id: nat, v: Item, loop': Loop)
    requires LoopsOk(loops, items) && id < |items| && items[id].loop == v.loop < |loops|
    requires LoopOk(v.loop, loop', items[id := v])
    ensures LoopsOk(loops[v.loop := loop'], items[id := v])
  {
    var loops' := loops[v.loop := loop'];
    forall l | 0 <= l < |loops'| ensures LoopOk(l, loops'[l], items[id := v]) {
      if l != v.loop {
        LoopFrame(l, loops[l], items, id, v);
      }
    }
  }

  lemma ItemsUpdate(items: seq<Item>, nloops: nat, id: nat, v: Item)
    requires ItemsOk(items, nloops) && id < |items| && ItemOk(v) && v.loop < nloops
    ensures ItemsOk(items[id := v], nloops)
  {
  }

  // ---------- Steps ----------

  lemma SubmitTracked(s: State, l: nat, kind: Kind, wake: Option<nat>)
    requires Tracked(s) && Enabled(s, Submit(l, kind, wake))
    ensures Tracked(DoSubmit(s, l, kind, wake))
  {
    var s' := DoSubmit(s, l, kind, wake);
    var id := |s.items|;
    assert s'.items[..id] == s.items;
    SubmitLoops(s.loops, s.items, s'.items[id]);
    SubmitWorkers(s, s', wake);
    if kind == Cpu {
      assert s'.wq == s.wq + [Work(id)];
      assert s'.wq[|s.wq|] == Work(id);
    } else {
      assert s'.slowPending == s.slowPending + [id];
      assert s'.slowPending[|s.slowPending|] == id;
    }
    SubmitQueues(s, s', kind);
  }

  lemma SubmitQueues(s: State, s': State, kind: Kind)
    requires QueueOk(s.wq, s.items) && SlowOk(s.slowPending, s.items) && Ordered(s)
    requires |s'.items| == |s.items| + 1 && s'.items[..|s.items|] == s.items
    requires s'.startedCpu == s.startedCpu && s'.startedSlow == s.startedSlow
    requires kind == Cpu ==> s'.items[|s.items|].place == InQueue && s'.wq == s.wq + [Work(|s.items|)] && s'.slowPending == s.slowPending
    requires kind == SlowIo ==> s'.items[|s.items|].place == InSlow && s'.slowPending == s.slowPending + [|s.items|] &&
                                (s'.wq == s.wq || s'.wq == s.wq + [RunSlow])
    ensures QueueOk(s'.wq, s'.items) && SlowOk(s'.slowPending, s'.items) && Ordered(s')
  {
    var n := |s.items|;
    assert forall id :: 0 <= id < n ==> s'.items[id] == s.items[id];
    QueueGrows(s.wq, s.items, s'.wq, s'.items);
    SlowGrows(s.slowPending, s.items, s'.slowPending, s'.items);
  }

  lemma QueueGrows(wq: seq<Entry>, items: seq<Item>, wq': seq<Entry>, items': seq<Item>)
    requires QueueOk(wq, items) && |items'| == |items| + 1
    requires forall id :: 0 <= id < |items| ==> items'[id] == items[id]
    requires if items'[|items|].place == InQueue then wq' == wq + [Work(|items|)] else wq' == wq || wq' == wq + [RunSlow]
    ensures QueueOk(wq', items')
  {
    assert forall e :: e in wq ==> e in wq';
    assert items'[|items|].place == InQueue ==> wq'[|wq|] == Work(|items|);
  }

  lemma SlowGrows(pending: seq<nat>, items: seq<Item>, pending': seq<nat>, items': seq<Item>)
    requires SlowOk(pending, items) && |items'| == |items| + 1
    requires forall id :: 0 <= id < |items| ==> items'[id] == items[id]
    requires pending' == if items'[|items|].place == InSlow then pending + [|items|] else pending
    ensures SlowOk(pending', items')
  {
    forall id | 0 <= id < |items'| && items'[id].place == InSlow ensures id in pending' {
      if id == |items| {
        assert pending'[|pending|] == id;
      } else {
        assert id in pending;
      }
    }
  }

  lemma SubmitLoops(loops: seq<Loop>, items: seq<Item>, v: Item)
    requires LoopsOk(loops, items) && !LoopPlace(v.place)
    ensures LoopsOk(loops, items + [v])
  {
    forall l | 0 <= l < |loops| ensures LoopOk(l, loops[l], items + [v]) {
      assert LoopOk(l, loops[l], items);
    }
  }

  lemma SubmitWorkers(s: State, s': State, wake: Option<nat>)
    requires WorkersOk(s.workers, s.items)
    requires |s'.items| == |s.items| + 1 && s'.items[..|s.items|] == s.items && !s'.items[|s.items|].place.AtWorker?
    requires s'.workers == s.workers ||
      (wake.Some? && wake.value < |s.workers| && s.workers[wake.value] == Asleep && s'.workers == s.workers[wake.value := Woken])
    ensures WorkersOk(s'.workers, s'.items)
  {
    assert forall id :: 0 <= id < |s.items| ==> s'.items[id] == s.items[id];
  }

  /** A worker that holds no item changes to a state that holds none. */
  lemma WorkerStateTracked(workers: seq<Worker>, items: seq<Item>, w: nat, v: Worker)
    requires WorkersOk(workers, items) && w < |workers|
    requires !workers[w].Picked? && !workers[w].Ran? && !v.Picked? && !v.Ran?
    ensures WorkersOk(workers[w := v], items)
  {
  }

  lemma SignalTracked(s: State, wake: Option<nat>)
    requires Tracked(s) && (wake.Some? ==> wake.value < |s.workers| && s.workers[wake.value] == Asleep)
    ensures Tracked(Signal(s, wake))
  {
    hide QueueOk, SlowOk, WorkersOk, LoopsOk, ItemsOk;
    if wake.Some? {
      WorkerStateTracked(s.workers, s.items, wake.value, Woken);
    }
  }

  lemma PlainSteps(s: State, step: Step)
    requires Tracked(s) && Enabled(s, step)
    requires step.Acquire? || step.Sleep? || step.SpuriousWakeup?
    ensures Tracked(Apply(s, step))
  {
    hide QueueOk, SlowOk, WorkersOk, LoopsOk, ItemsOk, State.MustWait;
    var v := if step.Acquire? then Holding else if step.Sleep? then Asleep else Woken;
    WorkerStateTracked(s.workers, s.items, step.w, v);
  }

  lemma LeaveTracked(s: State, w: nat, wake: Option<nat>)
    requires Tracked(s) && Enabled(s, Leave(w, wake))
    ensures Tracked(Apply(s, Leave(w, wake)))
  {
    hide QueueOk, SlowOk, WorkersOk, LoopsOk, ItemsOk;
    WorkerStateTracked(s.workers, s.items, w, Exited);
    SignalTracked(SetWorker(s, w, Exited), wake);
  }

  lemma MessageSteps(s: State, step: Step)
    requires Tracked(s) && Enabled(s, step)
    requires step.PostExit? || step.Reschedule? || step.NothingSlow?
    ensures Tracked(Apply(s, step))
  {
    hide QueueOk, SlowOk, WorkersOk, LoopsOk, ItemsOk, Ordered;
    var wq' := if step.PostExit? then s.wq + [Exit] else if step.Reschedule? then s.wq[1..] + [RunSlow] else s.wq[1..];
    if step.PostExit? {
      PushMessage(s.wq, s.items);
    } else {
      PopMessage(s.wq, s.items);
    }
    OrderedShrinks(s, s.(wq := wq'));
    if step.PostExit? {
      SignalTracked(s.(wq := wq'), step.wake);
    }
  }

  lemma PushMessage(wq: seq<Entry>, items: seq<Item>)
    requires QueueOk(wq, items)
    ensures QueueOk(wq + [Exit], items)
  {
    assert forall e :: e in wq ==> e in wq + [Exit];
  }

  /** No work joins the queues, and nothing starts. */
  lemma OrderedShrinks(s: State, s': State)
    requires Ordered(s) && |s'.items| == |s.items| && s'.startedCpu == s.startedCpu && s'.startedSlow == s.startedSlow
    requires forall i :: 0 <= i < |s'.wq| && s'.wq[i].Work? ==> s'.wq[i] in s.wq
    requires forall i :: 0 <= i < |s'.slowPending| ==> s'.slowPending[i] in s.slowPending
    ensures Ordered(s')
  {
  }

  lemma TakeWorkTracked(s: State, w: nat)
    requires Tracked(s) && Enabled(s, TakeWork(w))
    ensures Tracked(DoTakeWork(s, w))
  {
    hide SlowOk, LoopsOk, ItemsOk;
    var id := s.wq[0].id;
    var v := s.items[id].(place := AtWorker(w));
    SlowFrame(s.slowPending, s.items, id, v);
    LoopsFrame(s.loops, s.items, id, v);
    ItemIs(s, id);
    ItemsUpdate(s.items, |s.loops|, id, v);
    PickTracked(s.workers, s.items, w, id, false);
    PopWork(s.wq, s.items, v);
  }

  lemma ItemIs(s: State, id: nat)
    requires Tracked(s) && id < |s.items|
    ensures ItemOk(s.items[id]) && s.items[id].loop < |s.loops|
  {
  }

  lemma PickTracked(workers: seq<Worker>, items: seq<Item>, w: nat, id: nat, slow: bool)
    requires WorkersOk(workers, items) && w < |workers| && workers[w] == Holding
    requires id < |items| && !items[id].place.AtWorker? && items[id].runs == 0
    ensures WorkersOk(workers[w := Picked(id, slow)], items[id := items[id].(place := AtWorker(w))])
  {
  }

  lemma PopWork(wq: seq<Entry>, items: seq<Item>, v: Item)
    requires QueueOk(wq, items) && wq != [] && wq[0].Work? && v.place != InQueue
    ensures QueueOk(wq[1..], items[wq[0].id := v])
  {
    forall id | 0 <= id < |items| && id != wq[0].id && items[id].place == InQueue ensures Work(id) in wq[1..] {
      var i :| 0 <= i < |wq| && wq[i] == Work(id);
      assert wq[1..][i - 1] == Work(id);
    }
  }

  lemma TakeSlowTracked(s: State, w: nat, wake: Option<nat>)
    requires Tracked(s) && Enabled(s, TakeSlow(w, wake))
    ensures Tracked(DoTakeSlow(s, w, wake))
  {
    hide LoopsOk, ItemsOk;
    var id := s.slowPending[0];
    var v := s.items[id].(place := AtWorker(w));
    QueueFrame(s.wq, s.items, id, v);
    LoopsFrame(s.loops, s.items, id, v);
    ItemIs(s, id);
    ItemsUpdate(s.items, |s.loops|, id, v);
    PickTracked(s.workers, s.items, w, id, true);
    PopSlow(s.slowPending, s.items, v);
    PopMessage(s.wq, s.items[id := v]);
    TakeSlowTail(s, w, wake);
  }

  lemma PopSlow(pending: seq<nat>, items: seq<Item>, v: Item)
    requires SlowOk(pending, items) && pending != [] && v.place != InSlow
    ensures SlowOk(pending[1..], items[pending[0] := v])
  {
    forall id | 0 <= id < |items| && id != pending[0] && items[id].place == InSlow ensures id in pending[1..] {
      var i :| 0 <= i < |pending| && pending[i] == id;
      assert pending[1..][i - 1] == id;
    }
  }

  lemma PopMessage(wq: seq<Entry>, items: seq<Item>)
    requires QueueOk(wq, items) && wq != [] && wq[0] == RunSlow
    ensures QueueOk(wq[1..], items) && QueueOk(wq[1..] + [RunSlow], items)
  {
    forall id | 0 <= id < |items| && items[id].place == InQueue ensures Work(id) in wq[1..] && Work(id) in wq[1..] + [RunSlow] {
      var i :| 0 <= i < |wq| && wq[i] == Work(id);
      assert wq[1..][i - 1] == Work(id);
      assert (wq[1..] + [RunSlow])[i - 1] == Work(id);
    }
  }

  lemma TakeSlowOrdered(s: State, s': State)
    requires Ordered(s) && SlowOk(s.slowPending, s.items) && s.slowPending != [] && s.wq != []
    requires s'.startedCpu == s.startedCpu && s'.startedSlow == s.startedSlow + [s.slowPending[0]]
    requires s'.slowPending == s.slowPending[1..] && |s'.items| == |s.items|
    requires s'.wq == s.wq[1..] || s'.wq == s.wq[1..] + [RunSlow]
    ensures Ordered(s')
  {
  }

  lemma TakeSlowTail(s: State, w: nat, wake: Option<nat>)
    requires Tracked(s) && Enabled(s, TakeSlow(w, wake)) && s.slowPending[0] < |s.items|
    requires var id := s.slowPending[0];
      var items := s.items[id := s.items[id].(place := AtWorker(w))];
      && QueueOk(s.wq[1..], items) && QueueOk(s.wq[1..] + [RunSlow], items) && SlowOk(s.slowPending[1..], items)
      && WorkersOk(s.workers[w := Picked(id, true)], items) && LoopsOk(s.loops, items) && ItemsOk(items, |s.loops|)
    ensures Tracked(DoTakeSlow(s, w, wake))
  {
    hide QueueOk, SlowOk, WorkersOk, LoopsOk, ItemsOk, Ordered;
    var id := s.slowPending[0];
    var s1 := SetItem(SetWorker(s, w, Picked(id, true)), id, s.items[id].(place := AtWorker(w)))
              .(wq := s.wq[1..], slowPending := s.slowPending[1..], slowRunning := s.slowRunning + 1,
                startedSlow := s.startedSlow + [id]);
    assert SlowOk(s.slowPending, s.items);
    TakeSlowOrdered(s, s1);
    assert Tracked(s1);
    if s1.slowPending != [] {
      var s2 := s1.(wq := s1.wq + [RunSlow]);
      TakeSlowOrdered(s, s2);
      assert Tracked(s2);
      assert wake.Some? ==> wake.value != w;
      SignalTracked(s2, wake);
    }
  }

  lemma RunWorkTracked(s: State, w: nat)
    requires Tracked(s) && Enabled(s, RunWork(w))
    ensures Tracked(Apply(s, RunWork(w)))
  {
    hide QueueOk, SlowOk, LoopsOk, ItemsOk;
    var id := s.workers[w].id;
    var v := s.items[id].(runs := s.items[id].runs + 1);
    QueueFrame(s.wq, s.items, id, v);
    SlowFrame(s.slowPending, s.items, id, v);
    LoopsFrame(s.loops, s.items, id, v);
    ItemIs(s, id);
    ItemsUpdate(s.items, |s.loops|, id, v);
    RunsTracked(s.workers, s.items, w);
  }

  lemma RunsTracked(workers: seq<Worker>, items: seq<Item>, w: nat)
    requires WorkersOk(workers, items) && w < |workers| && workers[w].Picked?
    ensures var id := workers[w].id;
      id < |items| && WorkersOk(workers[w := Ran(id, workers[w].slow)], items[id := items[id].(runs := items[id].runs + 1)])
  {
  }

  lemma DeliverTracked(s: State, w: nat)
    requires Tracked(s) && Enabled(s, Deliver(w))
    ensures Tracked(Apply(s, Deliver(w)))
  {
    hide QueueOk, SlowOk, LoopsOk, ItemsOk;
    var id := s.workers[w].id;
    var v := s.items[id].(work := Null, place := Completed);
    QueueFrame(s.wq, s.items, id, v);
    SlowFrame(s.slowPending, s.items, id, v);
    ItemIs(s, id);
    ItemsUpdate(s.items, |s.loops|, id, v);
    ReleaseTracked(s.workers, s.items, w, v);
    LoopPush(s.loops, s.items, id, v, None, false);
  }

  lemma ReleaseTracked(workers: seq<Worker>, items: seq<Item>, w: nat, v: Item)
    requires WorkersOk(workers, items) && w < |workers| && workers[w].Ran? && !v.place.AtWorker?
    ensures workers[w].id < |items| && WorkersOk(workers[w := After(workers[w].slow)], items[workers[w].id := v])
  {
  }

  /** An item joins its loop's completion queue, from a worker or from a cancellation. */
  lemma LoopPush(loops: seq<Loop>, items: seq<Item>, id: nat, v: Item, was: Option<nat>, cancelling: bool)
    requires LoopsOk(loops, items) && id < |items| && items[id].loop == v.loop < |loops| && v.place == Completed
    requires if cancelling then items[id].place == Cancelling else !LoopPlace(items[id].place)
    ensures var loop := loops[v.loop];
      LoopsOk(loops[v.loop := loop.(queue := loop.queue + [id], cancelling := if cancelling then None else loop.cancelling)], items[id := v])
  {
    var loop := loops[v.loop];
    assert LoopOk(v.loop, loop, items);
    var loop' := loop.(queue := loop.queue + [id], cancelling := if cancelling then None else loop.cancelling);
    assert loop'.queue[|loop.queue|] == id;
    assert forall x :: x in loop.queue ==> x in loop'.queue;
    LoopsUpdate(loops, items, id, v, loop');
  }

  lemma CancelTracked(s: State, id: nat)
    requires Tracked(s) && Enabled(s, Cancel(id))
    ensures Tracked(DoCancel(s, id))
  {
    hide QueueOk, SlowOk, WorkersOk, LoopsOk, ItemsOk;
    ItemIs(s, id);
    if !(Linked(s.items[id].place) && s.items[id].work != Null) {
      BusyTracked(s, id);
    } else if s.items[id].place == Finished && !LinksHold(s, id) {
      // the state is as it was, but for the mark
    } else {
      var v := s.items[id].(place := Cancelling, cancelled := true);
      ItemsUpdate(s.items, |s.loops|, id, v);
      WorkersFrame(s.workers, s.items, id, v);
      RemoveWork(s.wq, s.items, id, v);
      RemoveSlow(s.slowPending, s.items, id, v);
      RemoveFromLoop(s.loops, s.items, id, v);
      CancelOrdered(s, id);
    }
  }

  lemma NotCancelling(s: State, id: nat)
    requires Tracked(s) && Enabled(s, Cancel(id))
    ensures s.items[id].place != Cancelling
  {
    assert LoopOk(s.items[id].loop, s.loops[s.items[id].loop], s.items);
  }

  /** UV_EBUSY: a worker has taken the item, or its work is done. */
  lemma BusyTracked(s: State, id: nat)
    requires Tracked(s) && Enabled(s, Cancel(id)) && !(Linked(s.items[id].place) && s.items[id].work != Null)
    ensures Tracked(SetItem(s, id, s.items[id].(busy := true)))
  {
    hide QueueOk, SlowOk, WorkersOk, LoopsOk, ItemsOk;
    var v := s.items[id].(busy := true);
    ItemIs(s, id);
    NotCancelling(s, id);
    QueueFrame(s.wq, s.items, id, v);
    SlowFrame(s.slowPending, s.items, id, v);
    WorkersFrame(s.workers, s.items, id, v);
    LoopsFrame(s.loops, s.items, id, v);
    ItemsUpdate(s.items, |s.loops|, id, v);
  }

  lemma RemoveWork(wq: seq<Entry>, items: seq<Item>, id: nat, v: Item)
    requires QueueOk(wq, items) && id < |items| && v.place != InQueue
    ensures QueueOk(Without(wq, Work(id)), items[id := v])
  {
    WithoutSortedWork(wq, Work(id));
    var q := Without(wq, Work(id));
    assert forall i :: 0 <= i < |q| ==> q[i] in wq;
  }

  lemma RemoveSlow(pending: seq<nat>, items: seq<Item>, id: nat, v: Item)
    requires SlowOk(pending, items) && id < |items| && v.place != InSlow
    ensures SlowOk(Without(pending, id), items[id := v])
  {
    WithoutSortedIds(pending, id);
    var q := Without(pending, id);
    assert forall i :: 0 <= i < |q| ==> q[i] in pending;
  }

  lemma RemoveFromLoop(loops: seq<Loop>, items: seq<Item>, id: nat, v: Item)
    requires LoopsOk(loops, items) && id < |items| && items[id].loop == v.loop < |loops|
    requires v.place == Cancelling && loops[v.loop].cancelling == None
    ensures var loop := loops[v.loop];
      LoopsOk(loops[v.loop := loop.(queue := Without(loop.queue, id), drain := Without(loop.drain, id), cancelling := Some(id))], items[id := v])
  {
    hide Without;
    var loop := loops[v.loop];
    assert LoopOk(v.loop, loop, items);
    WithoutNoDuplicates(loop.queue, id);
    WithoutNoDuplicates(loop.drain, id);
    var q, d := Without(loop.queue, id), Without(loop.drain, id);
    RemovedIs(v.loop, loop, items, id, v, q, d);
    LoopsUpdate(loops, items, id, v, loop.(queue := q, drain := d, cancelling := Some(id)));
  }

  lemma RemovedIs(l: nat, loop: Loop, items: seq<Item>, id: nat, v: Item, q: seq<nat>, d: seq<nat>)
    requires LoopOk(l, loop, items) && id < |items| && items[id].loop == v.loop == l
    requires v.place == Cancelling && loop.cancelling == None && NoDuplicates(q) && NoDuplicates(d)
    requires (forall x :: x in loop.queue && x != id ==> x in q) && (forall x :: x in q ==> x in loop.queue && x != id)
    requires (forall x :: x in loop.drain && x != id ==> x in d) && (forall x :: x in d ==> x in loop.drain && x != id)
    ensures LoopOk(l, loop.(queue := q, drain := d, cancelling := Some(id)), items[id := v])
  {
    assert forall i :: 0 <= i < |q| ==> q[i] in loop.queue && q[i] != id;
    assert forall i :: 0 <= i < |d| ==> d[i] in loop.drain && d[i] != id;
  }

  lemma CancelOrdered(s: State, id: nat)
    requires Ordered(s) && Enabled(s, Cancel(id))
    ensures Ordered(DoCancel(s, id))
  {
    hide Ordered, Without;
    OrderedShrinks(s, DoCancel(s, id));
  }

  lemma CancelInsertTracked(s: State, l: nat)
    requires Tracked(s) && Enabled(s, CancelInsert(l))
    ensures Tracked(DoCancelInsert(s, l))
  {
    hide QueueOk, SlowOk, WorkersOk, LoopsOk, ItemsOk;
    var id := s.loops[l].cancelling.value;
    var v := s.items[id].(work := Cancelled, place := Completed);
    CancellingIs(s, l);
    ItemIs(s, id);
    QueueFrame(s.wq, s.items, id, v);
    SlowFrame(s.slowPending, s.items, id, v);
    WorkersFrame(s.workers, s.items, id, v);
    ItemsUpdate(s.items, |s.loops|, id, v);
    LoopPush(s.loops, s.items, id, v, None, true);
  }

  lemma CancellingIs(s: State, l: nat)
    requires Tracked(s) && Enabled(s, CancelInsert(l))
    ensures s.items[s.loops[l].cancelling.value].place == Cancelling && s.items[s.loops[l].cancelling.value].loop == l
  {
    assert LoopOk(l, s.loops[l], s.items);
  }

  lemma DrainStartTracked(s: State, l: nat)
    requires Tracked(s) && Enabled(s, DrainStart(l))
    ensures Tracked(DoDrainStart(s, l))
  {
    var q := s.loops[l].queue;
    var s' := DoDrainStart(s, l);
    assert LoopOk(l, s.loops[l], s.items);
    assert forall id :: 0 <= id < |s.items| && id in q ==> s.items[id].place == Completed && s.items[id].loop == l;
    MovedQueues(s, s', q);
    MovedLoops(s, s', l, q);
  }

  lemma MovedQueues(s: State, s': State, q: seq<nat>)
    requires Tracked(s)
    requires forall id :: 0 <= id < |s.items| && id in q ==> s.items[id].place == Completed
    requires |s'.items| == |s.items| && s'.wq == s.wq && s'.slowPending == s.slowPending && s'.workers == s.workers
    requires |s'.loops| == |s.loops| && s'.startedCpu == s.startedCpu && s'.startedSlow == s.startedSlow
    requires forall id :: 0 <= id < |s.items| ==> s'.items[id] == if id in q then s.items[id].(place := Draining) else s.items[id]
    ensures QueueOk(s'.wq, s'.items) && SlowOk(s'.slowPending, s'.items) && WorkersOk(s'.workers, s'.items)
    ensures ItemsOk(s'.items, |s'.loops|) && Ordered(s')
  {
  }

  lemma MovedLoops(s: State, s': State, l: nat, q: seq<nat>)
    requires LoopsOk(s.loops, s.items) && Enabled(s, DrainStart(l)) && q == s.loops[l].queue && s' == DoDrainStart(s, l)
    ensures LoopsOk(s'.loops, s'.items)
  {
    assert LoopOk(l, s.loops[l], s.items);
    assert forall id :: id in q ==> exists i :: 0 <= i < |q| && q[i] == id;
    forall k | 0 <= k < |s.loops| ensures LoopOk(k, s'.loops[k], s'.items) {
      assert LoopOk(k, s.loops[k], s.items);
      assert forall id :: 0 <= id < |s.items| && id in q ==> s.items[id].place == Completed && s.items[id].loop == l;
    }
  }

  lemma DrainNextTracked(s: State, l: nat)
    requires Tracked(s) && Enabled(s, DrainNext(l))
    ensures Tracked(DoDrainNext(s, l))
  {
    hide QueueOk, SlowOk, WorkersOk, LoopsOk, ItemsOk;
    var loop := s.loops[l];
    var id := loop.drain[0];
    var item := s.items[id];
    var status := if item.work == Cancelled then UV_ECANCELED else 0;
    var v := item.(place := Finished, dones := item.dones + [status]);
    DrainHead(s, l);
    ItemIs(s, id);
    QueueFrame(s.wq, s.items, id, v);
    SlowFrame(s.slowPending, s.items, id, v);
    WorkersFrame(s.workers, s.items, id, v);
    ItemsUpdate(s.items, |s.loops|, id, v);
    DrainPop(s.loops, s.items, l, v, Some(Call(id, First(loop.drain[1..]))));
  }

  lemma DrainHead(s: State, l: nat)
    requires Tracked(s) && Enabled(s, DrainNext(l))
    ensures s.items[s.loops[l].drain[0]].place == Draining && s.items[s.loops[l].drain[0]].loop == l
  {
    assert LoopOk(l, s.loops[l], s.items);
  }

  lemma DrainPop(loops: seq<Loop>, items: seq<Item>, l: nat, v: Item, calling: Option<Call>)
    requires LoopsOk(loops, items) && l < |loops| && loops[l].drain != [] && loops[l].drain[0] < |items|
    requires items[loops[l].drain[0]].loop == v.loop == l && v.place == Finished
    ensures LoopsOk(loops[l := loops[l].(drain := loops[l].drain[1..], calling := calling)], items[loops[l].drain[0] := v])
  {
    var drain := loops[l].drain;
    assert LoopOk(l, loops[l], items);
    forall id | 0 <= id < |items| && id in drain && id != drain[0] ensures id in drain[1..] {
      var i :| 0 <= i < |drain| && drain[i] == id;
      assert drain[1..][i - 1] == id;
    }
    LoopsUpdate(loops, items, drain[0], v, loops[l].(drain := drain[1..], calling := calling));
  }

  lemma ReturnTracked(s: State, l: nat)
    requires Tracked(s) && Enabled(s, DoneReturns(l))
    ensures Tracked(Apply(s, DoneReturns(l)))
  {
    hide QueueOk, SlowOk, WorkersOk, ItemsOk;
    ReturnLoops(s.loops, s.items, l);
  }

  lemma ReturnLoops(loops: seq<Loop>, items: seq<Item>, l: nat)
    requires LoopsOk(loops, items) && l < |loops|
    ensures LoopsOk(loops[l := loops[l].(calling := None)], items)
  {
    var loops' := loops[l := loops[l].(calling := None)];
    forall k | 0 <= k < |loops'| ensures LoopOk(k, loops'[k], items) {
      assert LoopOk(k, loops[k], items);
    }
  }

  lemma StepKeepsTracked(s: State, step: Step)
    requires Tracked(s) && Enabled(s, step)
    ensures Tracked(Apply(s, step))
  {
    hide Tracked;
    match step
    case Submit(l, kind, wake) => SubmitTracked(s, l, kind, wake);
    case PostExit(wake) => MessageSteps(s, step);
    case Acquire(w) => PlainSteps(s, step);
    case Sleep(w) => PlainSteps(s, step);
    case Leave(w, wake) => LeaveTracked(s, w, wake);
    case TakeWork(w) => TakeWorkTracked(s, w);
    case Reschedule(w) => MessageSteps(s, step);
    case NothingSlow(w) => MessageSteps(s, step);
    case TakeSlow(w, wake) => TakeSlowTracked(s, w, wake);
    case RunWork(w) => RunWorkTracked(s, w);
    case Deliver(w) => DeliverTracked(s, w);
    case SpuriousWakeup(w) => PlainSteps(s, step);
    case Cancel(id) => CancelTracked(s, id);
    case CancelInsert(l) => CancelInsertTracked(s, l);
    case DrainStart(l) => DrainStartTracked(s, l);
    case DrainNext(l) => DrainNextTracked(s, l);
    case DoneReturns(l) => ReturnTracked(s, l);
  }
}
