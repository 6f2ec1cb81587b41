/**
 * The portable reusable barrier: an in/out counter protocol over one mutex and
 * one condition variable, for any threshold, any number of threads and any
 * number of rounds. A step is what a thread does from taking the mutex to
 * releasing it; sleepers may wake spuriously.
 */
module Barrier {
  // ---------- State ----------

  /** Where a thread stands; a waiter of the second loop knows the round it was counted in. */
  datatype Thread =
    | Idle                  // not in uv_barrier_wait
    | AsleepOut             // in the first uv_cond_wait, not signalled
    | WokenOut              // in the first uv_cond_wait, to take the mutex again
    | AsleepIn(round: int)  // in the second uv_cond_wait, not signalled
    | WokenIn(round: int)

  /**
   * entered, left and ones count, for every round, the threads that were counted
   * in it, that returned from it, and that returned 1 from it.
   */
  datatype State = State(threshold: nat, ins: int, outs: int, threads: seq<Thread>,
                         entered: seq<nat>, left: seq<nat>, ones: seq<nat>)
  {
    /** The round that threads are being counted in. */
    function Round(): int {
      |entered| - 1
    }
  }

  // ---------- Steps ----------

  datatype Step = Enter(t: nat) | Recheck(t: nat) | Spurious(t: nat)

  /** uv_barrier_init refuses a count of zero. */
  predicate Initial(s: State) {
    && s.threshold > 0 && s.ins == 0 && s.outs == 0
    && (forall t :: 0 <= t < |s.threads| ==> s.threads[t] == Idle)
    && s.entered == [0] && s.left == [0] && s.ones == [0]
  }

  predicate Enabled(s: State, step: Step) {
    match step
    case Enter(t) => t < |s.threads| && (s.threads[t] == Idle || s.threads[t] == WokenOut)
    case Recheck(t) => t < |s.threads| && s.threads[t].WokenIn?
    case Spurious(t) => t < |s.threads| && (s.threads[t].AsleepOut? || s.threads[t].AsleepIn?)
  }

  function Awake(t: Thread): Thread {
    match t
    case AsleepOut => WokenOut
    case AsleepIn(r) => WokenIn(r)
    case _ => t
  }

  /** uv_cond_broadcast. */
  function Broadcast(threads: seq<Thread>): (r: seq<Thread>)
    ensures |r| == |threads|
  {
    seq(|threads|, t requires 0 <= t < |threads| => Awake(threads[t]))
  }

  function SetThread(s: State, t: nat, v: Thread): State
    requires t < |s.threads|
  {
    s.(threads := s.threads[t := v])
  }

  function Bump(s: seq<nat>, i: int): seq<nat> {
    if 0 <= i < |s| then s[i := s[i] + 1] else s
  }

  /** From `last = (--b->out == 0)` on: thread t returns from round r. */
  function Return(s: State, t: nat, r: int): State
    requires t < |s.threads|
  {
    var s1 := SetThread(s, t, Idle).(outs := s.outs - 1, left := Bump(s.left, r));
    if s.outs - 1 == 0 then s1.(threads := Broadcast(s1.threads), ones := Bump(s.ones, r)) else s1
  }

  /** `++b->in`: one more thread is counted in the current round. */
  function Count(s: State): State {
    s.(ins := s.ins + 1, entered := Bump(s.entered, s.Round()))
  }

  /** The round is full: `in = 0`, `out = threshold` and a broadcast; later threads belong to a new round. */
  function Trip(s: State): State {
    s.(ins := 0, outs := s.threshold, threads := Broadcast(s.threads),
       entered := s.entered + [0], left := s.left + [0], ones := s.ones + [0])
  }

  function Apply(s: State, step: Step): State
    requires Enabled(s, step)
  {
    match step
    case Enter(t) => // taking the mutex, on entry or after the first wait
      if s.outs != 0 then SetThread(s, t, AsleepOut)
      else if s.ins + 1 == s.threshold then Return(Trip(Count(s)), t, s.Round())
      else SetThread(Count(s), t, AsleepIn(s.Round()))
    case Recheck(t) => // taking the mutex after the second wait
      if s.ins != 0 then SetThread(s, t, AsleepIn(s.threads[t].round)) else Return(s, t, s.threads[t].round)
    case Spurious(t) => SetThread(s, t, Awake(s.threads[t]))
  }

  // ---------- The invariant ----------

  predicate IsWaiter(x: Thread) {
    x.AsleepIn? || x.WokenIn?
  }

  function Waiters(threads: seq<Thread>): nat {
    if threads == [] then 0 else (if IsWaiter(threads[0]) then 1 else 0) + Waiters(threads[1..])
  }

  /** All rounds below n are over: full, left by all, and won by one. */
  predicate Over(s: State, n: int)
    requires |s.left| == |s.ones| == |s.entered|
  {
    forall r :: 0 <= r < n && r < |s.entered| ==> s.entered[r] == s.threshold && s.left[r] == s.threshold && s.ones[r] == 1
  }

  predicate Filling(s: State)
    requires s.Round() >= 0 && |s.left| == |s.ones| == |s.entered|
  {
    && s.outs == 0 && s.ins < s.threshold
    && s.entered[s.Round()] == s.ins && s.left[s.Round()] == 0 && s.ones[s.Round()] == 0
    && Over(s, s.Round())
    && Waiters(s.threads) == s.ins
    && (forall t :: 0 <= t < |s.threads| ==>
          s.threads[t] != AsleepOut && (IsWaiter(s.threads[t]) ==> s.threads[t].round == s.Round()))
  }

  predicate Emptying(s: State)
    requires s.Round() >= 0 && |s.left| == |s.ones| == |s.entered|
  {
    && 0 < s.outs <= s.threshold && s.ins == 0 && s.Round() >= 1
    && s.entered[s.Round()] == 0 && s.left[s.Round()] == 0 && s.ones[s.Round()] == 0
    && s.entered[s.Round() - 1] == s.threshold
    && s.left[s.Round() - 1] == s.threshold - s.outs && s.ones[s.Round() - 1] == 0
    && Over(s, s.Round() - 1)
    && Waiters(s.threads) == s.outs
    && (forall t :: 0 <= t < |s.threads| ==>
          !s.threads[t].AsleepIn? && (IsWaiter(s.threads[t]) ==> s.threads[t].round == s.Round() - 1))
  }

  predicate Shaped(s: State) {
    s.threshold > 0 && s.Round() >= 0 && |s.left| == |s.ones| == |s.entered|
  }

  predicate Inv(s: State) {
    Shaped(s) && (Filling(s) || Emptying(s))
  }

  // ---------- Counting waiters ----------

  lemma {:induction false} WaitersUpdate(threads: seq<Thread>, t: nat, v: Thread)
    requires t < |threads|
    ensures Waiters(threads[t := v]) == Waiters(threads) - (if IsWaiter(threads[t]) then 1 else 0) + (if IsWaiter(v) then 1 else 0)
  {
    if t == 0 {
      assert threads[0 := v][1..] == threads[1..];
    } else {
      WaitersUpdate(threads[1..], t - 1, v);
      assert threads[t := v][1..] == threads[1..][t - 1 := v];
    }
  }

  lemma {:induction false} WaitersBroadcast(threads: seq<Thread>)
    ensures Waiters(Broadcast(threads)) == Waiters(threads)
  {
    if threads != [] {
      WaitersBroadcast(threads[1..]);
      assert Broadcast(threads)[1..] == Broadcast(threads[1..]);
    }
  }

  lemma {:induction false} WaitersSome(threads: seq<Thread>)
    ensures Waiters(threads) <= |threads|
    ensures Waiters(threads) > 0 <==> exists t :: 0 <= t < |threads| && IsWaiter(threads[t])
    ensures Waiters(threads) == |threads| <==> forall t :: 0 <= t < |threads| ==> IsWaiter(threads[t])
  {
    if threads != [] {
      WaitersSome(threads[1..]);
      assert forall t :: 1 <= t < |threads| ==> threads[t] == threads[1..][t - 1];
      if IsWaiter(threads[0]) {
      } else if t :| 0 <= t < |threads[1..]| && IsWaiter(threads[1..][t]) {
        assert IsWaiter(threads[t + 1]);
      }
    }
  }

  // ---------- Every step keeps it ----------

  /** Emptying, with one thread more to return than there are waiters: the one that filled the round. */
  predicate Leaving(s: State, t: nat)
    requires t < |s.threads| && Shaped(s)
  {
    && 0 < s.outs <= s.threshold && s.ins == 0 && s.Round() >= 1
    && s.entered[s.Round()] == 0 && s.left[s.Round()] == 0 && s.ones[s.Round()] == 0
    && s.entered[s.Round() - 1] == s.threshold
    && s.left[s.Round() - 1] == s.threshold - s.outs && s.ones[s.Round() - 1] == 0
    && Over(s, s.Round() - 1)
    && Waiters(s.threads) == s.outs - (if IsWaiter(s.threads[t]) then 0 else 1)
    && (forall u :: 0 <= u < |s.threads| ==>
          !s.threads[u].AsleepIn? && (IsWaiter(s.threads[u]) ==> s.threads[u].round == s.Round() - 1))
  }

  lemma ReturnKeeps(s: State, t: nat)
    requires t < |s.threads| && Shaped(s) && Leaving(s, t)
    ensures Inv(Return(s, t, s.Round() - 1))
  {
    WaitersUpdate(s.threads, t, Idle);
    var threads := s.threads[t := Idle];
    WaitersBroadcast(threads);
    if s.outs == 1 {
      WaitersSome(Broadcast(threads));
    }
  }

  lemma TripLeaves(s: State, t: nat)
    requires Inv(s) && t < |s.threads| && !IsWaiter(s.threads[t]) && s.outs == 0 && s.ins + 1 == s.threshold
    ensures var s2 := Trip(Count(s)); Shaped(s2) && |s2.threads| == |s.threads| && Leaving(s2, t) && s2.Round() == s.Round() + 1
  {
    WaitersBroadcast(s.threads);
  }

  lemma CountKeeps(s: State, t: nat)
    requires Inv(s) && t < |s.threads| && !IsWaiter(s.threads[t]) && s.outs == 0 && s.ins + 1 < s.threshold
    ensures Inv(SetThread(Count(s), t, AsleepIn(s.Round())))
  {
    WaitersUpdate(s.threads, t, AsleepIn(s.Round()));
  }

  lemma EnterKeeps(s: State, t: nat)
    requires Inv(s) && Enabled(s, Enter(t))
    ensures Inv(Apply(s, Enter(t)))
  {
    if s.outs != 0 {
      WaitersUpdate(s.threads, t, AsleepOut);
    } else if s.ins + 1 == s.threshold {
      hide Return, Trip, Count, Leaving;
      TripLeaves(s, t);
      ReturnKeeps(Trip(Count(s)), t);
    } else {
      CountKeeps(s, t);
    }
  }

  lemma RecheckKeeps(s: State, t: nat)
    requires Inv(s) && Enabled(s, Recheck(t))
    ensures Inv(Apply(s, Recheck(t)))
  {
    WaitersSome(s.threads);
    if s.ins != 0 {
      WaitersUpdate(s.threads, t, AsleepIn(s.threads[t].round));
    } else {
      hide Return;
      ReturnKeeps(s, t);
    }
  }

  lemma StepKeeps(s: State, step: Step)
    requires Inv(s) && Enabled(s, step)
    ensures Inv(Apply(s, step))
  {
    match step
    case Enter(t) => EnterKeeps(s, t);
    case Recheck(t) => RecheckKeeps(s, t);
    case Spurious(t) => WaitersUpdate(s.threads, t, Awake(s.threads[t]));
  }

  lemma {:induction false} InitialKeeps(s: State)
    requires Initial(s)
    ensures Inv(s)
  {
    WaitersSome(s.threads);
  }

  // ---------- Runs ----------

  /** Any interleaving of the threads, from a fresh barrier. */
  ghost predicate IsRun(states: seq<State>, steps: seq<Step>) {
    && |states| == |steps| + 1
    && Initial(states[0])
    && forall i :: 0 <= i < |steps| ==> Enabled(states[i], steps[i]) && states[i + 1] == Apply(states[i], steps[i])
  }

  lemma {:induction false} EveryState(states: seq<State>, steps: seq<Step>, i: nat)
    requires IsRun(states, steps) && i < |states|
    ensures Inv(states[i]) && states[i].threshold == states[0].threshold
  {
    hide Inv;
    if i == 0 {
      InitialKeeps(states[0]);
    } else {
      EveryState(states, steps, i - 1);
      StepKeeps(states[i - 1], steps[i - 1]);
    }
  }

  /**
   * Generations do not mix: nobody has left a round that was not entered by exactly
   * threshold threads; nobody is counted in a round before threshold threads have left
   * every earlier one; and a round has one winner once all have left it, none before.
   */
  lemma Generations(states: seq<State>, steps: seq<Step>, i: nat, r: nat)
    requires IsRun(states, steps) && i < |states| && r < |states[i].entered|
    ensures var s := states[i];
            && |s.left| == |s.ones| == |s.entered|
            && s.entered[r] <= s.threshold && s.left[r] <= s.threshold
            && (s.left[r] > 0 ==> s.entered[r] == s.threshold)
            && s.ones[r] == (if s.left[r] == s.threshold then 1 else 0)
            && (forall q :: r < q < |s.entered| && s.entered[q] > 0 ==> s.left[r] == s.threshold)
  {
    EveryState(states, steps, i);
  }

  /** While a round empties none fills, and `out` is the number of threads that have yet to leave it. */
  lemma OneSideAtATime(states: seq<State>, steps: seq<Step>, i: nat)
    requires IsRun(states, steps) && i < |states|
    ensures states[i].outs != 0 ==> states[i].ins == 0 && Waiters(states[i].threads) == states[i].outs
    ensures states[i].outs == 0 ==> 0 <= states[i].ins < states[i].threshold && Waiters(states[i].threads) == states[i].ins
  {
    EveryState(states, steps, i);
  }

  /** The round a thread leaves if the step ends its call. */
  function RoundOf(s: State, step: Step): int
    requires Enabled(s, step)
  {
    match step
    case Enter(t) => s.Round()
    case Recheck(t) => s.threads[t].round
    case Spurious(t) => -1
  }

  /**
   * A call ends only in a step that counts it in `left` for the round the thread was
   * counted in, with that round full, and it returns 1 (`out` is then 0) exactly if it
   * is the last of its round. No other step touches `left` or `ones` of an old round.
   */
  lemma WhoLeaves(states: seq<State>, steps: seq<Step>, i: nat)
    requires IsRun(states, steps) && i < |steps|
    ensures
      var s, s', r := states[i], states[i + 1], RoundOf(states[i], steps[i]);
      && |s.left| == |s.ones| == |s.entered| <= |s'.left| == |s'.ones| == |s'.entered|
      && (forall q :: 0 <= q < |s.left| && q != r ==> s'.left[q] == s.left[q] && s'.ones[q] == s.ones[q])
      && steps[i].t < |s'.threads|
      && (if s'.threads[steps[i].t] == Idle then
            && 0 <= r < |s.left|
            && s'.entered[r] == s.threshold && s'.left[r] == s.left[r] + 1
            && (s'.ones[r] == s.ones[r] + 1 <==> s'.left[r] == s.threshold)
            && (s'.ones[r] == s.ones[r] + 1 <==> s'.outs == 0)
          else
            s'.left == s.left && s'.ones == s.ones)
  {
    EveryState(states, steps, i);
    WaitersSome(states[i].threads);
  }

  /** A barrier can be made for any number of threads but none. */
  lemma CanStart(threads: nat, threshold: nat)
    requires threshold > 0
    ensures exists s :: Initial(s) && s.threshold == threshold && |s.threads| == threads
  {
    var s := State(threshold, 0, 0, seq(threads, _ => Idle), [0], [0], [0]);
    assert Initial(s);
  }

  /** A thread that comes to the barrier, or was woken in either wait, can go on. */
  lemma ThreadsMove(s: State, t: nat)
    requires t < |s.threads|
    ensures s.threads[t] == Idle || s.threads[t] == WokenOut ==> Enabled(s, Enter(t))
    ensures s.threads[t].WokenIn? ==> Enabled(s, Recheck(t))
  {
  }

  /**
   * No wakeup is lost: if no thread inside the barrier can move, but for a spurious wakeup,
   * and some thread is inside it, then those inside wait for a round that is merely not full
   * yet. In particular nobody is left behind in either wait after the others have returned.
   */
  lemma OnlyAPartialRoundSleeps(states: seq<State>, steps: seq<Step>, i: nat)
    requires IsRun(states, steps) && i < |states|
    requires forall step :: Enabled(states[i], step) ==> step.Spurious? || (step.Enter? && states[i].threads[step.t] == Idle)
    requires exists t :: 0 <= t < |states[i].threads| && !states[i].threads[t].Idle?
    ensures states[i].outs == 0 && 0 < states[i].ins < states[i].threshold
    ensures Waiters(states[i].threads) == states[i].ins
    ensures forall t :: 0 <= t < |states[i].threads| ==>
              states[i].threads[t] == Idle || states[i].threads[t] == AsleepIn(states[i].Round())
  {
    EveryState(states, steps, i);
    var s := states[i];
    forall t | 0 <= t < |s.threads| ensures s.threads[t].Idle? || s.threads[t].AsleepOut? || s.threads[t].AsleepIn? {
      assert Enabled(s, Enter(t)) <==> s.threads[t] == Idle || s.threads[t] == WokenOut;
      assert Enabled(s, Recheck(t)) <==> s.threads[t].WokenIn?;
    }
    WaitersSome(s.threads);
    assert !Emptying(s);
    var t :| 0 <= t < |s.threads| && !s.threads[t].Idle?;
    assert IsWaiter(s.threads[t]);
  }
}
