/**
 * The lock-free wakeup of an event loop: any number of senders and one loop
 * thread, one atomic operation a step, sequentially consistent. `token` is the
 * byte, counter or user event that makes the kernel wake the loop.
 */
module Async {
  import opened Common

  // ---------- State ----------

  datatype Phase = Opened | Closing | Closed

  /**
   * pending and busy are the two atomics of uv_async_t; hasCb says that async_cb is not
   * NULL, and calls counts the calls of it.
   */
  datatype Handle = Handle(pending: bool, busy: int, phase: Phase, hasCb: bool, calls: nat)

  /** Where a call of uv_async_send stands: before its load, its increment, its exchange, its write, its decrement. */
  datatype Pc = Loading | Entering | Exchanging | Writing | Leaving | Returned

  /** `served` records that the loop's exchange cleared the flag after this send had seen or set it. */
  datatype Sender = Sender(h: nat, pc: Pc, served: bool)

  /** The loop thread: outside uv__async_io, after its reads, or in its scan. */
  datatype LoopPc = Polling | Drained | Scanning

  datatype State = State(handles: seq<Handle>, senders: seq<Sender>, token: bool,
                         queue: seq<nat>, rest: seq<nat>, pc: LoopPc, closing: Option<nat>)

  // ---------- Steps ----------

  datatype Step =
    | Init(hasCb: bool)         // uv_async_init
    | Send(h: nat)              // a thread enters uv_async_send
    | Load(k: nat)              // the cheap read
    | Enter(k: nat)             // atomic_fetch_add(busy, 1)
    | Exchange(k: nat)          // atomic_exchange(pending, 1)
    | Write(k: nat)             // uv__async_send
    | Leave(k: nat)             // atomic_fetch_add(busy, -1)
    | Read                      // uv__async_io drains the descriptor
    | Move                      // uv__queue_move
    | Visit                     // one handle of the scan, with its callback
    | EndScan
    | CloseStore(h: nat)        // atomic_store(pending, 1) in uv__async_spin
    | CloseRemove               // busy was read as 0: the handle leaves its queue

  /** The loop thread is running user code or its own, and not spinning in a close. */
  predicate LoopFree(s: State) {
    s.closing.None? && s.pc != Drained
  }

  predicate At(s: State, k: nat, pc: Pc) {
    k < |s.senders| && s.senders[k].pc == pc && s.senders[k].h < |s.handles|
  }

  predicate Enabled(s: State, step: Step) {
    match step
    case Init(_) => LoopFree(s)
    case Send(h) => h < |s.handles|
    case Load(k) => At(s, k, Loading)
    case Enter(k) => At(s, k, Entering)
    case Exchange(k) => At(s, k, Exchanging)
    case Write(k) => At(s, k, Writing)
    case Leave(k) => At(s, k, Leaving)
    case Read => s.pc == Polling && s.closing.None?
    case Move => s.pc == Drained
    case Visit => s.pc == Scanning && s.closing.None? && s.rest != [] && s.rest[0] < |s.handles|
    case EndScan => s.pc == Scanning && s.closing.None? && s.rest == []
    case CloseStore(h) => LoopFree(s) && h < |s.handles| && s.handles[h].phase == Opened
    case CloseRemove => s.closing.Some? && s.closing.value < |s.handles| && s.handles[s.closing.value].busy == 0
  }

  function SetPc(s: State, k: nat, pc: Pc): State
    requires k < |s.senders|
  {
    s.(senders := s.senders[k := s.senders[k].(pc := pc)])
  }

  function SetHandle(s: State, h: nat, v: Handle): State
    requires h < |s.handles|
  {
    s.(handles := s.handles[h := v])
  }

  /** The sends to h that have seen or set the flag. */
  function Serve(senders: seq<Sender>, h: nat): (r: seq<Sender>)
    ensures |r| == |senders|
  {
    seq(|senders|, k requires 0 <= k < |senders| =>
      var x := senders[k];
      if x.h == h && (x.pc == Writing || x.pc == Leaving || x.pc == Returned) then x.(served := true) else x)
  }

  function Apply(s: State, step: Step): State
    requires Enabled(s, step)
  {
    match step
    case Init(hasCb) => s.(handles := s.handles + [Handle(false, 0, Opened, hasCb, 0)], queue := s.queue + [|s.handles|])
    case Send(h) => s.(senders := s.senders + [Sender(h, Loading, false)])
    case Load(k) => SetPc(s, k, if s.handles[s.senders[k].h].pending then Returned else Entering)
    case Enter(k) =>
      var h := s.senders[k].h;
      SetHandle(SetPc(s, k, Exchanging), h, s.handles[h].(busy := s.handles[h].busy + 1))
    case Exchange(k) =>
      var h := s.senders[k].h;
      SetHandle(SetPc(s, k, if s.handles[h].pending then Leaving else Writing), h, s.handles[h].(pending := true))
    case Write(k) => SetPc(s, k, Leaving).(token := true)
    case Leave(k) =>
      var h := s.senders[k].h;
      SetHandle(SetPc(s, k, Returned), h, s.handles[h].(busy := s.handles[h].busy - 1))
    case Read => s.(token := false, pc := Drained)
    case Move => s.(rest := s.queue, queue := [], pc := Scanning)
    case Visit =>
      var h := s.rest[0];
      var s1 := s.(rest := s.rest[1..], queue := s.queue + [h]);
      if s.handles[h].pending then
        var calls := s.handles[h].calls + if s.handles[h].hasCb then 1 else 0;
        SetHandle(s1, h, s.handles[h].(pending := false, calls := calls)).(senders := Serve(s.senders, h))
      else s1
    case EndScan => s.(pc := Polling)
    case CloseStore(h) => SetHandle(s, h, s.handles[h].(pending := true, phase := Closing)).(closing := Some(h))
    case CloseRemove =>
      var h := s.closing.value;
      SetHandle(s, h, s.handles[h].(phase := Closed))
      .(queue := Without(s.queue, h), rest := Without(s.rest, h), closing := None)
  }

  predicate Initial(s: State) {
    s == State([], [], false, [], [], Polling, None)
  }

  ghost predicate IsRun(states: seq<State>, steps: seq<Step>) {
    && |states| == |steps| + 1
    && Initial(states[0])
    && forall i :: 0 <= i < |steps| ==> Enabled(states[i], steps[i]) && states[i + 1] == Apply(states[i], steps[i])
  }

  // ---------- The invariant ----------

  predicate IsInside(x: Sender, h: nat) {
    x.h == h && (x.pc == Exchanging || x.pc == Writing || x.pc == Leaving)
  }

  /** The senders between their increment and their decrement of busy. */
  function Inside(senders: seq<Sender>, h: nat): nat {
    if senders == [] then 0 else (if IsInside(senders[0], h) then 1 else 0) + Inside(senders[1..], h)
  }

  ghost predicate SomeWriter(senders: seq<Sender>, h: nat) {
    exists k :: 0 <= k < |senders| && senders[k].h == h && senders[k].pc == Writing
  }

  /** The loop will be woken, or is awake and has yet to look at h. */
  ghost predicate WakeupUnderway(s: State, h: nat) {
    s.token || s.pc == Drained || h in s.rest || SomeWriter(s.senders, h)
  }

  ghost predicate HandleOk(s: State, h: nat)
    requires h < |s.handles|
  {
    var x := s.handles[h];
    && x.busy == Inside(s.senders, h)
    && (x.phase != Closed <==> h in s.queue || h in s.rest)
    && (x.phase == Closing <==> s.closing == Some(h))
    && (x.phase == Opened && x.pending ==> WakeupUnderway(s, h))
    && (x.phase != Opened ==> x.pending)
    && (x.phase == Closed ==> !SomeWriter(s.senders, h))
  }

  /** A send that has seen or set the flag, and that no callback has served, finds it still set. */
  ghost predicate SenderOk(s: State, k: nat)
    requires k < |s.senders|
  {
    var x := s.senders[k];
    && x.h < |s.handles|
    && (!x.served && (x.pc == Writing || x.pc == Leaving || x.pc == Returned) ==> s.handles[x.h].pending)
  }

  ghost predicate Inv(s: State) {
    && (forall h :: 0 <= h < |s.handles| ==> HandleOk(s, h))
    && (forall k :: 0 <= k < |s.senders| ==> SenderOk(s, k))
    && (s.rest != [] ==> s.pc == Scanning)
    && (s.closing.Some? ==> s.closing.value < |s.handles|)
    && (forall h :: h in s.queue || h in s.rest ==> h < |s.handles|)
  }

  // ---------- Counting senders ----------

  lemma {:induction false} InsideUpdate(senders: seq<Sender>, k: nat, v: Sender, h: nat)
    requires k < |senders|
    ensures Inside(senders[k := v], h)
         == Inside(senders, h) - (if IsInside(senders[k], h) then 1 else 0) + (if IsInside(v, h) then 1 else 0)
  {
    if k == 0 {
      assert senders[0 := v][1..] == senders[1..];
    } else {
      InsideUpdate(senders[1..], k - 1, v, h);
      assert senders[k := v][1..] == senders[1..][k - 1 := v];
    }
  }

  lemma {:induction false} InsideAppend(senders: seq<Sender>, v: Sender, h: nat)
    requires v.pc == Loading
    ensures Inside(senders + [v], h) == Inside(senders, h)
  {
    if senders != [] {
      InsideAppend(senders[1..], v, h);
      assert (senders + [v])[1..] == senders[1..] + [v];
    } else {
      assert ([] + [v])[1..] == [];
    }
  }

  lemma {:induction false} InsideSame(a: seq<Sender>, b: seq<Sender>, h: nat)
    requires |a| == |b| && forall k :: 0 <= k < |a| ==> a[k].h == b[k].h && a[k].pc == b[k].pc
    ensures Inside(a, h) == Inside(b, h)
  {
    if a != [] {
      InsideSame(a[1..], b[1..], h);
    }
  }

  lemma {:induction false} InsideNone(senders: seq<Sender>, k: nat, h: nat)
    requires k < |senders| && IsInside(senders[k], h)
    ensures Inside(senders, h) > 0
  {
    if k > 0 {
      InsideNone(senders[1..], k - 1, h);
    }
  }

  // ---------- Every step keeps it ----------

  lemma SenderStep(s: State, step: Step)
    requires Inv(s) && Enabled(s, step)
    requires step.Load? || step.Enter? || step.Exchange? || step.Write? || step.Leave?
    ensures Inv(Apply(s, step))
  {
    var s', k := Apply(s, step), step.k;
    var g := s.senders[k].h;
    assert SenderOk(s, k) && HandleOk(s, g);
    forall h | 0 <= h < |s'.handles| ensures HandleOk(s', h) {
      assert HandleOk(s, h);
      InsideUpdate(s.senders, k, s'.senders[k], h);
      WritersMove(s, s', k, h);
    }
    forall i | 0 <= i < |s'.senders| ensures SenderOk(s', i) {
      assert SenderOk(s, i);
    }
  }

  lemma WritersMove(s: State, s': State, k: nat, h: nat)
    requires k < |s.senders| == |s'.senders| && s'.senders == s.senders[k := s'.senders[k]] && s'.senders[k].h == s.senders[k].h
    ensures SomeWriter(s.senders, h) && !(s.senders[k].h == h && s.senders[k].pc == Writing) ==> SomeWriter(s'.senders, h)
    ensures SomeWriter(s'.senders, h) && !(s'.senders[k].h == h && s'.senders[k].pc == Writing) ==> SomeWriter(s.senders, h)
    ensures s'.senders[k].h == h && s'.senders[k].pc == Writing ==> SomeWriter(s'.senders, h)
  {
    if SomeWriter(s.senders, h) {
      var i :| 0 <= i < |s.senders| && s.senders[i].h == h && s.senders[i].pc == Writing;
      assert i != k ==> s'.senders[i] == s.senders[i];
    }
    if SomeWriter(s'.senders, h) {
      var i :| 0 <= i < |s'.senders| && s'.senders[i].h == h && s'.senders[i].pc == Writing;
      assert i != k ==> s.senders[i] == s'.senders[i];
    }
  }

  lemma NewcomerStep(s: State, step: Step)
    requires Inv(s) && Enabled(s, step) && (step.Init? || step.Send?)
    ensures Inv(Apply(s, step))
  {
    var s' := Apply(s, step);
    var n := |s.handles|;
    if step.Init? {
      forall k | 0 <= k < |s.senders| ensures s.senders[k].h < n {
        assert SenderOk(s, k);
      }
      NoSenders(s.senders, n);
      assert s'.queue[|s.queue|] == n;
    }
    forall h | 0 <= h < |s'.handles| ensures HandleOk(s', h) {
      if step.Send? {
        InsideAppend(s.senders, Sender(step.h, Loading, false), h);
        SameWriters(s.senders, s'.senders, h);
      }
      assert h < n ==> HandleOk(s, h);
      assert forall x :: x in s.queue ==> x in s'.queue;
    }
    forall i | 0 <= i < |s'.senders| ensures SenderOk(s', i) {
      assert i < |s.senders| ==> SenderOk(s, i);
    }
  }

  lemma SameWriters(a: seq<Sender>, b: seq<Sender>, h: nat)
    requires |a| <= |b| && forall k :: 0 <= k < |a| ==> a[k].h == b[k].h && a[k].pc == b[k].pc
    requires forall k :: |a| <= k < |b| ==> b[k].pc != Writing
    ensures SomeWriter(a, h) <==> SomeWriter(b, h)
  {
    if SomeWriter(a, h) {
      var k :| 0 <= k < |a| && a[k].h == h && a[k].pc == Writing;
      assert b[k].h == h && b[k].pc == Writing;
    }
    if SomeWriter(b, h) {
      var k :| 0 <= k < |b| && b[k].h == h && b[k].pc == Writing;
      assert a[k].h == h && a[k].pc == Writing;
    }
  }

  lemma {:induction false} NoSenders(senders: seq<Sender>, h: nat)
    requires forall k :: 0 <= k < |senders| ==> senders[k].h < h
    ensures Inside(senders, h) == 0 && !SomeWriter(senders, h)
  {
    if senders != [] {
      NoSenders(senders[1..], h);
    }
  }

  lemma ScanStep(s: State, step: Step)
    requires Inv(s) && Enabled(s, step) && (step.Read? || step.Move? || step.EndScan?)
    ensures Inv(Apply(s, step))
  {
    var s' := Apply(s, step);
    forall h | 0 <= h < |s'.handles| ensures HandleOk(s', h) {
      assert HandleOk(s, h);
    }
    forall i | 0 <= i < |s'.senders| ensures SenderOk(s', i) {
      assert SenderOk(s, i);
    }
  }

  lemma VisitStep(s: State)
    requires Inv(s) && Enabled(s, Visit)
    ensures Inv(Apply(s, Visit))
  {
    var s' := Apply(s, Visit);
    var g := s.rest[0];
    assert HandleOk(s, g);
    assert s.rest == [g] + s.rest[1..];
    assert s'.rest == s.rest[1..] && s'.queue == s.queue + [g];
    forall h: nat ensures h in s'.queue || h in s'.rest <==> h in s.queue || h in s.rest {
    }
    forall h | 0 <= h < |s'.handles| ensures HandleOk(s', h) {
      assert HandleOk(s, h);
      InsideSame(s.senders, s'.senders, h);
      SameWriters(s.senders, s'.senders, h);
    }
    forall i | 0 <= i < |s'.senders| ensures SenderOk(s', i) {
      assert SenderOk(s, i);
    }
  }

  lemma CloseStep(s: State, step: Step)
    requires Inv(s) && Enabled(s, step) && (step.CloseStore? || step.CloseRemove?)
    ensures Inv(Apply(s, step))
  {
    var s' := Apply(s, step);
    var g := if step.CloseStore? then step.h else s.closing.value;
    assert HandleOk(s, g);
    forall h | 0 <= h < |s'.handles| ensures HandleOk(s', h) {
      assert HandleOk(s, h);
      if h == g && step.CloseRemove? && SomeWriter(s.senders, g) {
        var k :| 0 <= k < |s.senders| && s.senders[k].h == g && s.senders[k].pc == Writing;
        InsideNone(s.senders, k, g);
      }
    }
    forall i | 0 <= i < |s'.senders| ensures SenderOk(s', i) {
      assert SenderOk(s, i);
    }
  }

  lemma StepKeeps(s: State, step: Step)
    requires Inv(s) && Enabled(s, step)
    ensures Inv(Apply(s, step))
  {
    hide Inv, Apply;
    match step
    case Init(_) => NewcomerStep(s, step);
    case Send(_) => NewcomerStep(s, step);
    case Load(_) => SenderStep(s, step);
    case Enter(_) => SenderStep(s, step);
    case Exchange(_) => SenderStep(s, step);
    case Write(_) => SenderStep(s, step);
    case Leave(_) => SenderStep(s, step);
    case Read => ScanStep(s, step);
    case Move => ScanStep(s, step);
    case Visit => VisitStep(s);
    case EndScan => ScanStep(s, step);
    case CloseStore(_) => CloseStep(s, step);
    case CloseRemove => CloseStep(s, step);
  }

  lemma {:induction false} EveryState(states: seq<State>, steps: seq<Step>, i: nat)
    requires IsRun(states, steps) && i < |states|
    ensures Inv(states[i])
  {
    hide Apply, Enabled;
    if i > 0 {
      EveryState(states, steps, i - 1);
      assert states[i - 1 + 1] == Apply(states[i - 1], steps[i - 1]);
      StepKeeps(states[i - 1], steps[i - 1]);
    }
  }

  // ---------- What it means ----------

  /**
   * No lost wakeup: in every reachable state, a completed send to an open handle
   * has been served by a callback that cleared the flag after it, or the flag is
   * still set and the loop has a wakeup token, or is about to get one, or is in
   * a scan that has yet to visit the handle.
   */
  lemma NoLostWakeup(states: seq<State>, steps: seq<Step>, i: nat, k: nat)
    requires IsRun(states, steps) && i < |states| && k < |states[i].senders|
    requires states[i].senders[k].pc == Returned && !states[i].senders[k].served
    requires states[i].senders[k].h < |states[i].handles| && states[i].handles[states[i].senders[k].h].phase == Opened
    ensures states[i].handles[states[i].senders[k].h].pending
    ensures WakeupUnderway(states[i], states[i].senders[k].h)
  {
    EveryState(states, steps, i);
    assert SenderOk(states[i], k);
    assert HandleOk(states[i], states[i].senders[k].h);
  }

  /**
   * When the loop polls without a wakeup token and no sender is about to write one, every
   * completed send to an open handle has been answered by a callback.
   */
  lemma QuietMeansServed(states: seq<State>, steps: seq<Step>, i: nat, k: nat)
    requires IsRun(states, steps) && i < |states| && k < |states[i].senders|
    requires states[i].pc == Polling && !states[i].token && !SomeWriter(states[i].senders, states[i].senders[k].h)
    ensures states[i].senders[k].h < |states[i].handles|
    ensures states[i].senders[k].pc == Returned && states[i].handles[states[i].senders[k].h].phase == Opened ==>
              states[i].senders[k].served
  {
    EveryState(states, steps, i);
    assert SenderOk(states[i], k);
    assert HandleOk(states[i], states[i].senders[k].h);
  }

  // ---------- Which callback answers a send ----------

  /** The sends that have seen or set the flag. */
  predicate HasRung(x: Sender) {
    x.pc == Writing || x.pc == Leaving || x.pc == Returned
  }

  /** The step in which send k sees the flag set, or sets it. */
  predicate Rings(s: State, step: Step, k: nat) {
    || (step == Load(k) && Enabled(s, step) && s.handles[s.senders[k].h].pending)
    || (step == Exchange(k) && Enabled(s, step))
  }

  /** The loop's exchange finds the flag of h set; the callback, if there is one, follows it. */
  predicate Answers(s: State, step: Step, h: nat) {
    step == Visit && Enabled(s, step) && s.rest[0] == h && s.handles[h].pending
  }

  lemma SendersStay(s: State, step: Step, k: nat)
    requires Enabled(s, step) && k < |Apply(s, step).senders|
    ensures k < |s.senders| ==> Apply(s, step).senders[k].h == s.senders[k].h
    ensures k >= |s.senders| ==> !Apply(s, step).senders[k].served && !HasRung(Apply(s, step).senders[k])
  {
  }

  /** A step that makes a send one that has rung, or one that was served. */
  lemma WhatTheStepDid(s: State, step: Step, k: nat)
    requires Enabled(s, step) && k < |s.senders|
    ensures k < |Apply(s, step).senders|
    ensures HasRung(Apply(s, step).senders[k]) && !HasRung(s.senders[k]) ==> Rings(s, step, k)
    ensures Apply(s, step).senders[k].served && !s.senders[k].served ==>
              HasRung(s.senders[k]) && Answers(s, step, s.senders[k].h)
  {
  }

  lemma {:induction false} RungBefore(states: seq<State>, steps: seq<Step>, i: nat, k: nat) returns (m: nat)
    requires IsRun(states, steps) && i < |states| && k < |states[i].senders| && HasRung(states[i].senders[k])
    ensures m < i && Rings(states[m], steps[m], k)
  {
    hide Apply, Enabled, Rings, HasRung;
    assert states[i - 1 + 1] == Apply(states[i - 1], steps[i - 1]);
    SendersStay(states[i - 1], steps[i - 1], k);
    WhatTheStepDid(states[i - 1], steps[i - 1], k);
    if HasRung(states[i - 1].senders[k]) {
      m := RungBefore(states, steps, i - 1, k);
    } else {
      m := i - 1;
    }
  }

  /**
   * Send k saw or set the flag in step m; later, in step i, the loop visited its handle,
   * found the flag set, cleared it, and called the callback if the handle has one.
   */
  ghost predicate AnsweredBy(states: seq<State>, steps: seq<Step>, k: nat, h: nat, m: nat, i: nat)
    requires m < i < |steps| && |states| == |steps| + 1
  {
    && Rings(states[m], steps[m], k) && Answers(states[i], steps[i], h)
    && h < |states[i].handles| && h < |states[i + 1].handles| && !states[i + 1].handles[h].pending
    && states[i + 1].handles[h].calls == states[i].handles[h].calls + if states[i].handles[h].hasCb then 1 else 0
  }

  lemma {:induction false} FindAnswer(states: seq<State>, steps: seq<Step>, j: nat, k: nat) returns (m: nat, i: nat)
    requires IsRun(states, steps) && j < |states| && k < |states[j].senders| && states[j].senders[k].served
    ensures m < i < j && AnsweredBy(states, steps, k, states[j].senders[k].h, m, i)
    decreases j
  {
    hide Apply, Enabled, Rings, HasRung, Answers;
    assert states[j - 1 + 1] == Apply(states[j - 1], steps[j - 1]);
    SendersStay(states[j - 1], steps[j - 1], k);
    WhatTheStepDid(states[j - 1], steps[j - 1], k);
    if states[j - 1].senders[k].served {
      m, i := FindAnswer(states, steps, j - 1, k);
    } else {
      i := j - 1;
      m := RungBefore(states, steps, i, k);
      AnswerCalls(states[i], steps[i], states[j].senders[k].h);
    }
  }

  /** `served` stands for an answer: an exchange of the loop that cleared the flag after this send saw or set it. */
  lemma ServedMeansAnswered(states: seq<State>, steps: seq<Step>, j: nat, k: nat)
    requires IsRun(states, steps) && j < |states| && k < |states[j].senders| && states[j].senders[k].served
    ensures exists m: nat, i: nat :: m < i < j && AnsweredBy(states, steps, k, states[j].senders[k].h, m, i)
  {
    var m, i := FindAnswer(states, steps, j, k);
  }

  lemma AnswerCalls(s: State, step: Step, h: nat)
    requires Enabled(s, step) && Answers(s, step, h)
    ensures h < |s.handles| == |Apply(s, step).handles| && !Apply(s, step).handles[h].pending
    ensures Apply(s, step).handles[h].calls == s.handles[h].calls + if s.handles[h].hasCb then 1 else 0
  {
  }

  /**
   * When the loop polls without a wakeup token and no sender is about to write one, every
   * completed send to an open handle was followed by an exchange that cleared the flag it
   * had seen or set, and by a call of the handle's callback if it has one.
   */
  lemma QuietMeansAnswered(states: seq<State>, steps: seq<Step>, j: nat, k: nat)
    requires IsRun(states, steps) && j < |states| && k < |states[j].senders| && states[j].senders[k].pc == Returned
    requires states[j].pc == Polling && !states[j].token && !SomeWriter(states[j].senders, states[j].senders[k].h)
    requires states[j].senders[k].h < |states[j].handles| && states[j].handles[states[j].senders[k].h].phase == Opened
    ensures exists m: nat, i: nat :: m < i < j && AnsweredBy(states, steps, k, states[j].senders[k].h, m, i)
  {
    QuietMeansServed(states, steps, j, k);
    ServedMeansAnswered(states, steps, j, k);
  }

  /** How many of the first n steps were exchanges of senders that set the flag of h. */
  function Rung(states: seq<State>, steps: seq<Step>, n: nat, h: nat): nat
    requires n <= |steps| && |states| == |steps| + 1
  {
    if n == 0 then 0
    else Rung(states, steps, n - 1, h) + if SetsFlag(states[n - 1], steps[n - 1], h) then 1 else 0
  }

  predicate SetsFlag(s: State, step: Step, h: nat) {
    step.Exchange? && Enabled(s, step) && s.senders[step.k].h == h && !s.handles[h].pending
  }

  lemma CallsStep(s: State, step: Step, h: nat)
    requires Inv(s) && Enabled(s, step) && h < |s.handles|
    ensures var x, x', sets := s.handles[h], Apply(s, step).handles[h], if SetsFlag(s, step, h) then 1 else 0;
            && x'.hasCb == x.hasCb
            && (x'.phase == Opened ==> x.phase == Opened)
            && (x.hasCb && x'.phase == Opened ==>
                  x'.calls + (if x'.pending then 1 else 0) == x.calls + (if x.pending then 1 else 0) + sets)
            && (x.phase == Opened && x'.phase != Opened ==> x'.calls == x.calls && sets == 0)
            && (x.phase != Opened ==> x'.calls == x.calls && sets == 0)
            && (!x.hasCb ==> x'.calls == x.calls)
  {
    assert HandleOk(s, h);
  }

  lemma NoneRung(s: State, step: Step, h: nat)
    requires Inv(s) && Enabled(s, step) && |s.handles| <= h
    ensures !SetsFlag(s, step, h)
    ensures h < |Apply(s, step).handles| ==> Apply(s, step).handles[h].calls == 0 && !Apply(s, step).handles[h].pending
  {
  }

  lemma {:induction false} NoneRungBefore(states: seq<State>, steps: seq<Step>, i: nat, h: nat)
    requires IsRun(states, steps) && i < |states| && |states[i].handles| <= h
    ensures Rung(states, steps, i, h) == 0
  {
    hide Apply, Enabled, Inv, SetsFlag;
    if i > 0 {
      EveryState(states, steps, i - 1);
      assert states[i - 1 + 1] == Apply(states[i - 1], steps[i - 1]);
      HandlesStay(states[i - 1], steps[i - 1]);
      NoneRung(states[i - 1], steps[i - 1], h);
      NoneRungBefore(states, steps, i - 1, h);
    }
  }

  lemma HandlesStay(s: State, step: Step)
    requires Enabled(s, step)
    ensures |s.handles| <= |Apply(s, step).handles|
  {
  }

  /**
   * Sends coalesce and callbacks are never spurious: an open handle's callback has been
   * called once for each time a sender set its flag, but for the one that is still pending;
   * and no handle's callback is ever called more often.
   */
  lemma {:induction false} OneCallPerRing(states: seq<State>, steps: seq<Step>, i: nat, h: nat)
    requires IsRun(states, steps) && i < |states| && h < |states[i].handles|
    ensures var x := states[i].handles[h];
            && x.calls <= Rung(states, steps, i, h)
            && (x.hasCb && x.phase == Opened ==> x.calls + (if x.pending then 1 else 0) == Rung(states, steps, i, h))
    decreases i
  {
    hide Apply, Enabled, Inv, SetsFlag;
    if i > 0 {
      EveryState(states, steps, i - 1);
      assert states[i - 1 + 1] == Apply(states[i - 1], steps[i - 1]);
      if h < |states[i - 1].handles| {
        OneCallPerRing(states, steps, i - 1, h);
        CallsStep(states[i - 1], steps[i - 1], h);
      } else {
        NoneRung(states[i - 1], steps[i - 1], h);
        NoneRungBefore(states, steps, i - 1, h);
      }
    }
  }

  /** busy counts exactly the senders between their increment and their decrement. */
  lemma BusyIsExact(states: seq<State>, steps: seq<Step>, i: nat, h: nat)
    requires IsRun(states, steps) && i < |states| && h < |states[i].handles|
    ensures states[i].handles[h].busy == Inside(states[i].senders, h)
  {
    EveryState(states, steps, i);
    assert HandleOk(states[i], h);
  }

  // ---------- Nobody is held up ----------

  /** A sender can always go on: it is never made to wait. */
  lemma SendersMove(states: seq<State>, steps: seq<Step>, i: nat, k: nat)
    requires IsRun(states, steps) && i < |states| && k < |states[i].senders|
    ensures match states[i].senders[k].pc
            case Loading => Enabled(states[i], Load(k))
            case Entering => Enabled(states[i], Enter(k))
            case Exchanging => Enabled(states[i], Exchange(k))
            case Writing => Enabled(states[i], Write(k))
            case Leaving => Enabled(states[i], Leave(k))
            case Returned => true
  {
    EveryState(states, steps, i);
    assert SenderOk(states[i], k);
  }

  /** The loop can go on, unless it spins in a close, and then some sender is still inside, or it can end the close. */
  lemma LoopMoves(states: seq<State>, steps: seq<Step>, i: nat)
    requires IsRun(states, steps) && i < |states|
    ensures var s := states[i];
            if s.closing.Some? then
              Enabled(s, CloseRemove) || exists k :: 0 <= k < |s.senders| && IsInside(s.senders[k], s.closing.value)
            else match s.pc
                 case Polling => Enabled(s, Read)
                 case Drained => Enabled(s, Move)
                 case Scanning => Enabled(s, Visit) || Enabled(s, EndScan)
  {
    EveryState(states, steps, i);
    var s := states[i];
    if s.closing.Some? {
      assert HandleOk(s, s.closing.value);
      if s.handles[s.closing.value].busy != 0 {
        InsideSome(s.senders, s.closing.value);
      }
    } else if s.pc == Scanning && s.rest != [] {
      assert s.rest[0] in s.rest;
    }
  }

  lemma {:induction false} InsideSome(senders: seq<Sender>, h: nat)
    requires Inside(senders, h) > 0
    ensures exists k :: 0 <= k < |senders| && IsInside(senders[k], h)
  {
    if !IsInside(senders[0], h) {
      InsideSome(senders[1..], h);
      var k :| 0 <= k < |senders[1..]| && IsInside(senders[1..][k], h);
      assert IsInside(senders[k + 1], h);
    }
  }

  // ---------- Which senders write a wakeup ----------

  /** Whether send k has set a flag that was clear, or written a wakeup, in the first n steps. */
  predicate HasSet(states: seq<State>, steps: seq<Step>, n: nat, k: nat)
    requires n <= |steps| && |states| == |steps| + 1
  {
    n > 0 && (HasSet(states, steps, n - 1, k)
              || (steps[n - 1] == Exchange(k) && k < |states[n - 1].senders| && SetsFlag(states[n - 1], steps[n - 1], states[n - 1].senders[k].h)))
  }

  predicate HasWritten(steps: seq<Step>, n: nat, k: nat)
    requires n <= |steps|
  {
    n > 0 && (HasWritten(steps, n - 1, k) || steps[n - 1] == Write(k))
  }

  /** What is known of a sender by where it stands. */
  predicate WriterOk(s: State, k: nat, rang: bool, written: bool) {
    if k >= |s.senders| then !rang && !written
    else
      match s.senders[k].pc
      case Writing => rang && !written
      case Leaving => rang <==> written
      case Returned => rang <==> written
      case _ => !rang && !written
  }

  lemma WriterStep(s: State, step: Step, k: nat, rang: bool, written: bool)
    requires Enabled(s, step) && WriterOk(s, k, rang, written) && (k < |s.senders| ==> s.senders[k].h < |s.handles|)
    ensures WriterOk(Apply(s, step), k,
              rang || (step == Exchange(k) && k < |s.senders| && SetsFlag(s, step, s.senders[k].h)), written || step == Write(k))
  {
  }

  lemma {:induction false} WriterRun(states: seq<State>, steps: seq<Step>, i: nat, k: nat)
    requires IsRun(states, steps) && i < |states|
    ensures WriterOk(states[i], k, HasSet(states, steps, i, k), HasWritten(steps, i, k))
  {
    hide Apply, Enabled, WriterOk, SetsFlag;
    if i == 0 {
      WriterStart(states[0], k);
    } else {
      WriterRun(states, steps, i - 1, k);
      EveryState(states, steps, i - 1);
      assert k < |states[i - 1].senders| ==> SenderOk(states[i - 1], k);
      assert states[i - 1 + 1] == Apply(states[i - 1], steps[i - 1]);
      WriterStep(states[i - 1], steps[i - 1], k, HasSet(states, steps, i - 1, k), HasWritten(steps, i - 1, k));
    }
  }

  lemma WriterStart(s: State, k: nat)
    requires Initial(s)
    ensures WriterOk(s, k, false, false)
  {
  }

  /** A send that has returned has written a wakeup exactly if it set a flag that was clear. */
  lemma OneWakeupPerRing(states: seq<State>, steps: seq<Step>, i: nat, k: nat)
    requires IsRun(states, steps) && i < |states| && k < |states[i].senders| && states[i].senders[k].pc == Returned
    ensures HasWritten(steps, i, k) <==> HasSet(states, steps, i, k)
  {
    WriterRun(states, steps, i, k);
  }

  /** Step m writes, and none of the steps behind it and before i reads. */
  predicate Unread(steps: seq<Step>, m: nat, i: nat)
    requires i <= |steps|
  {
    m < i && steps[m].Write? && forall j :: m < j < i ==> !steps[j].Read?
  }

  ghost predicate WrittenSinceRead(steps: seq<Step>, i: nat)
    requires i <= |steps|
  {
    exists m :: Unread(steps, m, i)
  }

  /** A wakeup token is there exactly if a sender has written since the loop last read. */
  lemma {:induction false} TokenExactly(states: seq<State>, steps: seq<Step>, i: nat)
    requires IsRun(states, steps) && i < |states|
    ensures states[i].token <==> WrittenSinceRead(steps, i)
    decreases i
  {
    hide Apply, Enabled;
    if i > 0 {
      hide WrittenSinceRead;
      TokenExactly(states, steps, i - 1);
      assert states[i - 1 + 1] == Apply(states[i - 1], steps[i - 1]);
      TokenStep(states[i - 1], steps[i - 1]);
      UnreadStep(steps, i - 1);
    }
  }

  lemma UnreadStep(steps: seq<Step>, n: nat)
    requires n < |steps|
    ensures WrittenSinceRead(steps, n + 1) <==> steps[n].Write? || (!steps[n].Read? && WrittenSinceRead(steps, n))
  {
    if steps[n].Write? {
      assert Unread(steps, n, n + 1);
    } else if WrittenSinceRead(steps, n + 1) {
      var m :| Unread(steps, m, n + 1);
      assert Unread(steps, m, n);
    } else if WrittenSinceRead(steps, n) && !steps[n].Read? {
      var m :| Unread(steps, m, n);
      assert Unread(steps, m, n + 1);
      assert false;
    }
  }

  lemma TokenStep(s: State, step: Step)
    requires Enabled(s, step)
    ensures Apply(s, step).token <==> step.Write? || (s.token && !step.Read?)
  {}

  /** A closed handle stays closed. */
  lemma {:induction false} StaysClosed(states: seq<State>, steps: seq<Step>, i: nat, j: nat, h: nat)
    requires IsRun(states, steps) && i <= j < |states|
    requires h < |states[i].handles| && states[i].handles[h].phase == Closed
    ensures h < |states[j].handles| && states[j].handles[h].phase == Closed
    decreases j - i
  {
    hide Apply, Enabled;
    if i < j {
      StaysClosed(states, steps, i, j - 1, h);
      assert states[j - 1 + 1] == Apply(states[j - 1], steps[j - 1]);
      ClosedStep(states[j - 1], steps[j - 1], h);
    }
  }

  lemma ClosedStep(s: State, step: Step, h: nat)
    requires Enabled(s, step) && h < |s.handles| && s.handles[h].phase == Closed
    ensures h < |Apply(s, step).handles| && Apply(s, step).handles[h].phase == Closed
  {
  }

  /**
   * Safe close: once uv__async_close has returned, no sender, whatever it had
   * already read, writes a wakeup for that handle, and the scan does not visit it.
   */
  lemma SafeClose(states: seq<State>, steps: seq<Step>, i: nat, j: nat, h: nat)
    requires IsRun(states, steps) && i <= j < |steps|
    requires h < |states[i].handles| && states[i].handles[h].phase == Closed
    ensures steps[j].Write? ==> states[j].senders[steps[j].k].h != h
    ensures steps[j].Visit? ==> states[j].rest[0] != h
  {
    StaysClosed(states, steps, i, j, h);
    EveryState(states, steps, j);
    assert HandleOk(states[j], h);
    assert Enabled(states[j], steps[j]);
  }
}
