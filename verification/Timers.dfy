/**
 * The timers of a loop: a heap ordered by timeout and start, and the two phases of
 * uv__run_timers, whose callbacks may start, stop and close any timer.
 */
module Timers {
  import opened Common

  const UINT64_MAX := 0xFFFF_FFFF_FFFF_FFFF
  const INT_MAX := 0x7FFF_FFFF

  /** uv_timer_t; active is UV_HANDLE_ACTIVE, and armed says that timer_cb is set. */
  class Timer {
    var timeout: nat
    var repeat: nat
    var startId: nat
    var armed: bool
    var active: bool
    var closing: bool

    /** uv_timer_init. */
    constructor ()
      ensures !active && !armed && !closing && timeout == 0 && repeat == 0
    {
      timeout, repeat, startId := 0, 0, 0;
      armed, active, closing := false, false, false;
    }

    function Key(): (nat, nat)
      reads this
    {
      (timeout, startId)
    }
  }

  /** timer_less_than. */
  predicate Less(a: (nat, nat), b: (nat, nat)) {
    a.0 < b.0 || (a.0 == b.0 && a.1 < b.1)
  }

  /** Of any timers that were started at different times one is due first, and was started first of those due then. */
  lemma {:induction false} HasLeast(s: set<Timer>)
    requires s != {} && forall t, u :: t in s && u in s && t != u ==> t.startId != u.startId
    ensures exists t :: t in s && forall u :: u in s && u != t ==>
              Less(t.Key(), u.Key()) && (t.timeout < u.timeout || (t.timeout == u.timeout && t.startId < u.startId))
  {
    var x :| x in s;
    var rest := s - {x};
    if rest == {} {
      assert s == rest + {x} == {x};
    } else {
      HasLeast(rest);
      var m :| m in rest && forall u :: u in rest && u != m ==> Less(m.Key(), u.Key());
      var t := if Less(x.Key(), m.Key()) then x else m;
      assert x.startId != m.startId;
      assert forall u :: u in s && u != t ==> Less(t.Key(), u.Key());
    }
  }

  /**
   * What happens while ready timers fire: a callback runs, at a time, for a timer with a
   * repeat value that is due again at some time or not at all; or user code starts, stops
   * or closes a timer.
   */
  datatype Trace =
    | Fired(timer: Timer, now: nat, repeat: nat, due: Option<nat>)
    | Touched(timer: Timer)

  /** When a timer that starts now is due; timeouts stop at the largest 64-bit value. */
  function Due(now: nat, timeout: nat): nat {
    if now + timeout <= UINT64_MAX then now + timeout else UINT64_MAX
  }

  /** By the time its callback runs a repeating timer has been started again, and no other has. */
  predicate Rearmed(trace: seq<Trace>) {
    forall a :: 0 <= a < |trace| && trace[a].Fired? ==>
      trace[a].due == if trace[a].repeat == 0 then None else Some(Due(trace[a].now, trace[a].repeat))
  }

  /** No timer fires after it was started, stopped or closed, and none fires twice. */
  predicate Honest(trace: seq<Trace>) {
    forall a, b :: 0 <= a < b < |trace| && trace[b].Fired? ==> trace[b].timer != trace[a].timer
  }

  /** Timers fire in the order of their keys. */
  predicate Ordered(trace: seq<Trace>, keys: map<Timer, (nat, nat)>) {
    && (forall a :: 0 <= a < |trace| && trace[a].Fired? ==> trace[a].timer in keys)
    && forall a, b :: 0 <= a < b < |trace| && trace[a].Fired? && trace[b].Fired? ==>
         Less(keys[trace[a].timer], keys[trace[b].timer])
  }

  /** Both, in plain comparisons. */
  lemma PlainEvents(events: seq<Trace>, keys: map<Timer, (nat, nat)>)
    requires Honest(events) && Ordered(events, keys)
    ensures forall a, b :: 0 <= a < b < |events| && events[b].Fired? ==> events[b].timer != events[a].timer
    ensures forall a :: 0 <= a < |events| && events[a].Fired? ==> events[a].timer in keys
    ensures forall a, b :: 0 <= a < b < |events| && events[a].Fired? && events[b].Fired? ==>
              var x, y := keys[events[a].timer], keys[events[b].timer];
              x.0 < y.0 || (x.0 == y.0 && x.1 < y.1)
  {
  }

  lemma WithoutTwice(q: seq<Timer>, t: Timer)
    ensures Without(Without(q, t), t) == Without(q, t)
  {}

  // ---------- The events of one call of uv__run_timers ----------

  predicate Named(events: seq<Trace>, t: Timer) {
    exists a :: 0 <= a < |events| && events[a].timer == t
  }

  /** Timers in the order of their keys. */
  ghost predicate SortedBy(q: seq<Timer>, keys: map<Timer, (nat, nat)>) {
    && (forall i :: 0 <= i < |q| ==> q[i] in keys)
    && forall i, j :: 0 <= i < j < |q| ==> Less(keys[q[i]], keys[q[j]])
  }

  /**
   * While ready timers fire: the events so far are honest and in order, no event names a
   * timer that is still ready, those that fired come before those that are ready, and
   * each of the expired timers, whose keys these are, is ready or named by an event.
   */
  ghost predicate FiringOf(events: seq<Trace>, ready: seq<Timer>, keys: map<Timer, (nat, nat)>) {
    && SortedBy(ready, keys)
    && (forall t :: t in ready ==> t in keys && !Named(events, t))
    && Honest(events) && Ordered(events, keys) && Rearmed(events)
    && (forall a, t :: 0 <= a < |events| && events[a].Fired? && t in ready ==> Less(keys[events[a].timer], keys[t]))
    && (forall t :: t in keys ==> t in ready || Named(events, t))
  }

  lemma NamedSnoc(events: seq<Trace>, e: Trace, t: Timer)
    ensures Named(events + [e], t) <==> Named(events, t) || e.timer == t
  {
    if e.timer == t {
      assert (events + [e])[|events|].timer == t;
    }
    if a :| 0 <= a < |events| && events[a].timer == t {
      assert (events + [e])[a].timer == t;
    }
  }

  /** User code stops, restarts or closes a timer: if it was ready, it will not fire. */
  lemma TouchKeeps(events: seq<Trace>, ready: seq<Timer>, keys: map<Timer, (nat, nat)>, t: Timer)
    requires FiringOf(events, ready, keys)
    ensures FiringOf(events + [Touched(t)], Without(ready, t), keys)
  {
    WithoutSorted(ready, keys, t);
    TouchTrace(events, keys, t);
    hide Named, Honest, Rearmed, Without, SortedBy, Less;
    var events', now := events + [Touched(t)], Without(ready, t);
    forall u | u in now ensures !Named(events', u) {
      NamedSnoc(events, Touched(t), u);
    }
    forall u | u in keys ensures u in now || Named(events', u) {
      NamedSnoc(events, Touched(t), u);
    }
    forall a, u | 0 <= a < |events'| && events'[a].Fired? && u in now ensures Less(keys[events'[a].timer], keys[u]) {
      assert events'[a] == events[a];
    }
  }

  lemma TouchTrace(events: seq<Trace>, keys: map<Timer, (nat, nat)>, t: Timer)
    requires Honest(events) && Ordered(events, keys) && Rearmed(events)
    ensures var events' := events + [Touched(t)]; Honest(events') && Ordered(events', keys) && Rearmed(events')
  {
    hide Less;
  }

  lemma {:induction false} WithoutSorted(q: seq<Timer>, keys: map<Timer, (nat, nat)>, t: Timer)
    requires SortedBy(q, keys)
    ensures SortedBy(Without(q, t), keys)
    decreases |q|
  {
    if q != [] {
      var init, last := q[..|q| - 1], q[|q| - 1];
      assert SortedBy(init, keys);
      WithoutSorted(init, keys, t);
      var rest := Without(init, t);
      forall i | 0 <= i < |rest| ensures rest[i] in keys && Less(keys[rest[i]], keys[last]) {
        assert rest[i] in init;
        var j :| 0 <= j < |init| && init[j] == rest[i];
        assert q[j] == rest[i];
      }
      SortedSnoc(rest, keys, last);
    }
  }

  lemma SortedSnoc(q: seq<Timer>, keys: map<Timer, (nat, nat)>, last: Timer)
    requires SortedBy(q, keys) && last in keys
    requires forall i :: 0 <= i < |q| ==> q[i] in keys && Less(keys[q[i]], keys[last])
    ensures SortedBy(q + [last], keys) && SortedBy(q + [], keys)
  {
    assert q + [] == q;
  }

  /** The first ready timer fires. */
  lemma FireKeeps(events: seq<Trace>, ready: seq<Timer>, keys: map<Timer, (nat, nat)>, e: Trace)
    requires FiringOf(events, ready, keys) && ready != [] && e.Fired? && e.timer == ready[0] && Rearmed([e])
    ensures FiringOf(events + [e], ready[1..], keys)
  {
    assert [e][0] == e;
    assert forall u :: u in ready[1..] ==> Less(keys[e.timer], keys[u]);
    forall u | u in ready || u in keys ensures Named(events + [e], u) <==> Named(events, u) || u == e.timer {
      NamedSnoc(events, e, u);
    }
    assert !Named(events, e.timer);
  }

  class Loop {
    var time: nat
    var counter: nat         // timer_counter
    var timers: set<Timer>   // all timers there are
    var heap: set<Timer>
    var ready: seq<Timer>    // the queue of uv__run_timers
    ghost var trace: seq<Trace>

    /** Every timer is in the heap, in the ready queue, or in neither; active means in the heap. */
    ghost predicate Valid()
      reads this, timers
    {
      && time <= UINT64_MAX
      && heap <= timers
      && (forall t :: t in ready ==> t in timers && !t.active && t.armed && !t.closing)
      && NoDuplicates(ready)
      && (forall t :: t in timers ==> (t in heap <==> t.active) && t.timeout <= UINT64_MAX && t.repeat <= UINT64_MAX)
      && (forall t :: t in heap ==> t.armed && !t.closing && t.startId < counter)
      && (forall t, u :: t in heap && u in heap && t != u ==> t.startId != u.startId)
    }

    constructor (time: nat)
      requires time <= UINT64_MAX
      ensures Valid() && timers == {} && ready == [] && this.time == time && trace == []
    {
      this.time, counter, timers, heap, ready, trace := time, 0, {}, {}, [], [];
    }

    /** heap_min. */
    method HeapMin() returns (t: Timer?)
      requires Valid()
      ensures t == null <==> heap == {}
      ensures t != null ==> t in heap && forall u :: u in heap && u != t ==>
                Less(t.Key(), u.Key()) && (t.timeout < u.timeout || (t.timeout == u.timeout && t.startId < u.startId))
    {
      if heap == {} {
        return null;
      }
      HasLeast(heap);
      t :| t in heap && forall u :: u in heap && u != t ==> Less(t.Key(), u.Key());
    }

    /** uv_timer_stop. */
    method Stop(t: Timer)
      requires Valid() && t in timers
      modifies this`heap, this`ready, t`active
      ensures Valid() && !t.active && heap == old(heap) - {t} && ready == Without(old(ready), t)
    {
      WithoutNoDuplicates(ready, t);
      if t.active {
        assert t !in ready;
        heap := heap - {t};
        t.active := false;
      } else {
        ready := Without(ready, t);
      }
    }

    /** uv_timer_start: the timeout is absolute, and stops at the largest 64-bit value. */
    method Start(t: Timer, cb: bool, timeout: nat, repeat: nat) returns (err: int)
      requires Valid() && t in timers && timeout <= UINT64_MAX && repeat <= UINT64_MAX
      modifies this`heap, this`ready, this`counter, t
      ensures Valid()
      ensures err == if old(t.closing) || !cb then UV_EINVAL else 0
      ensures err != 0 ==> unchanged(this) && unchanged(t)
      ensures err == 0 ==> heap == old(heap) + {t} && ready == Without(old(ready), t)
      ensures err == 0 ==> t.timeout == Due(time, timeout)
      ensures err == 0 ==> t.timeout == if time + timeout <= 0xFFFF_FFFF_FFFF_FFFF then time + timeout else 0xFFFF_FFFF_FFFF_FFFF
      ensures err == 0 ==> t.repeat == repeat && t.startId == old(counter) && t.active && t.armed && !t.closing
    {
      if t.closing || !cb {
        return UV_EINVAL;
      }
      hide Without;
      Stop(t);
      var clamped := (time + timeout) % 0x1_0000_0000_0000_0000;
      if clamped < timeout {
        clamped := UINT64_MAX;
      }
      Insert(t, clamped, repeat);
      return 0;
    }

    /** The rest of uv_timer_start, for a timer that is in neither the heap nor the ready queue. */
    method Insert(t: Timer, timeout: nat, repeat: nat)
      requires Valid() && t in timers && timeout <= UINT64_MAX && repeat <= UINT64_MAX && !t.active && !t.closing && t !in ready
      modifies this`heap, this`counter, t
      ensures Valid() && heap == old(heap) + {t}
      ensures t.timeout == timeout && t.repeat == repeat && t.startId == old(counter) && counter == old(counter) + 1
      ensures t.active && t.armed && !t.closing
    {
      t.armed := true;
      t.timeout := timeout;
      t.repeat := repeat;
      t.startId := counter;
      counter := counter + 1;
      heap := heap + {t};
      t.active := true;
    }

    /** uv_timer_again: a repeating timer starts over with its repeat value. */
    method Again(t: Timer) returns (err: int)
      requires Valid() && t in timers
      modifies this`heap, this`ready, this`counter, t
      ensures Valid()
      ensures err == if old(t.armed) then 0 else UV_EINVAL
      ensures err != 0 || old(t.repeat) == 0 ==> unchanged(this) && unchanged(t)
      ensures err == 0 && t.repeat > 0 ==> ready == Without(old(ready), t)
      ensures err == 0 && t.repeat > 0 ==> heap == if old(t.closing) then old(heap) - {t} else old(heap) + {t}
      ensures err == 0 && t.repeat > 0 && !old(t.closing) ==>
                t.timeout == Due(time, t.repeat) && t.active
      ensures t.repeat == old(t.repeat) && t.closing == old(t.closing) && t.armed == old(t.armed)
    {
      if !t.armed {
        return UV_EINVAL;
      }
      if t.repeat > 0 {
        Stop(t);
        WithoutTwice(old(ready), t);
        var r := Start(t, t.armed, t.repeat, t.repeat);
      }
      return 0;
    }

    /** uv_timer_get_due_in. */
    function DueIn(t: Timer): (r: nat)
      reads this, t
      ensures time + r == if time >= t.timeout then time else t.timeout
    {
      if time >= t.timeout then 0 else t.timeout - time
    }

    /** uv__next_timeout: sleeping that long overshoots no timer, and is as long as an int allows. */
    method NextTimeout() returns (r: int)
      requires Valid()
      ensures heap == {} <==> r == -1
      ensures -1 <= r <= INT_MAX
      ensures forall t :: t in heap ==> r <= DueIn(t)
      ensures r >= 0 && r < INT_MAX ==> exists t :: t in heap && r == DueIn(t)
    {
      var t := HeapMin();
      if t == null {
        return -1;
      }
      assert forall u :: u in heap ==> DueIn(t) <= DueIn(u);
      if t.timeout <= time {
        assert DueIn(t) == 0;
        return 0;
      }
      var diff := t.timeout - time;
      if diff > INT_MAX {
        diff := INT_MAX;
      }
      return diff;
    }

    // ---------- Running timers ----------

    /** The ready timers stand in the order of the keys they had when they were collected. */
    ghost predicate Collected(keys: map<Timer, (nat, nat)>)
      reads this
    {
      && (forall t :: t in ready ==> t in keys)
      && forall i, j :: 0 <= i < j < |ready| ==>
           var x, y := keys[ready[i]], keys[ready[j]];
           x.0 < y.0 || (x.0 == y.0 && x.1 < y.1)
    }

    /** While timers are collected: those in keys are split between heap and ready queue, the ready ones first. */
    ghost predicate Collecting(keys: map<Timer, (nat, nat)>)
      reads this, timers
    {
      && Valid() && Collected(keys)
      && (forall t :: t in keys ==> t in timers && t.Key() == keys[t])
      && (forall t :: t in keys ==> t in heap || t in ready)
      && (forall t :: t in heap ==> t in keys)
      && (forall t :: t in ready ==> t.timeout <= time)
      && (forall t, u :: t in ready && u in heap ==> Less(keys[t], keys[u]))
    }

    /** One turn of the first loop of uv__run_timers. */
    method CollectOne(t: Timer, ghost keys: map<Timer, (nat, nat)>)
      requires Collecting(keys) && t in heap && t.timeout <= time
      requires forall u :: u in heap && u != t ==> Less(t.Key(), u.Key())
      modifies this`heap, this`ready, t`active
      ensures Collecting(keys) && heap == old(heap) - {t} && ready == old(ready) + [t]
    {
      hide Without;
      ghost var was := ready;
      assert t !in was;
      Stop(t);
      Append(t);
      assert forall u :: u in ready ==> u in was || u == t;
      assert forall i :: 0 <= i < |was| ==> was[i] in was && Less(keys[was[i]], keys[t]);
      hide Valid;
    }

    /** uv__queue_insert_tail on the ready queue. */
    method Append(t: Timer)
      requires Valid() && t in timers && !t.active && t.armed && !t.closing && t !in ready
      modifies this`ready
      ensures Valid() && ready == old(ready) + [t]
    {
      ready := ready + [t];
    }

    /** The first phase of uv__run_timers: the expired timers move to the ready queue, in order. */
    method Collect() returns (ghost keys: map<Timer, (nat, nat)>)
      requires Valid() && ready == []
      modifies this`heap, this`ready, timers
      ensures Collecting(keys) && keys.Keys == old(heap)
      ensures forall t :: t in heap ==> t.timeout > time
      ensures forall t :: t in keys ==> keys[t] == (old(t.timeout), old(t.startId))
    {
      keys := map t | t in heap :: t.Key();
      hide Collected;
      while true
        invariant Collecting(keys)
        decreases |heap|
      {
        var t := HeapMin();
        if t == null {
          return;
        }
        if t.timeout > time {
          return;
        }
        CollectOne(t, keys);
      }
    }

    ghost predicate Firing(since: nat, keys: map<Timer, (nat, nat)>)
      reads this
    {
      since <= |trace| && FiringOf(trace[since..], ready, keys)
    }

    /** What callbacks leave alone: timers are only added, and events only appended. */
    twostate predicate Continues()
      reads this
    {
      old(trace) <= trace && old(timers) <= timers && forall t :: t in timers ==> t in old(timers) || fresh(t)
    }

    ghost method Touch(t: Timer, since: nat, keys: map<Timer, (nat, nat)>, was: seq<Timer>)
      requires since <= |trace| && FiringOf(trace[since..], was, keys) && ready == Without(was, t)
      modifies this`trace
      ensures Firing(since, keys) && trace == old(trace) + [Touched(t)]
    {
      TouchKeeps(trace[since..], was, keys, t);
      assert (trace + [Touched(t)])[since..] == trace[since..] + [Touched(t)];
      trace := trace + [Touched(t)];
    }

    /** uv_timer_start, called by the user. */
    method UserStart(t: Timer, ghost since: nat, ghost keys: map<Timer, (nat, nat)>)
      requires Valid() && Firing(since, keys) && t in timers
      modifies this`heap, this`ready, this`counter, this`trace, t
      ensures Valid() && Firing(since, keys) && Continues() && |ready| <= |old(ready)|
    {
      hide FiringOf, Without;
      var cb: bool := *;
      var timeout: int := *;
      var repeat: int := *;
      if !(0 <= timeout <= UINT64_MAX && 0 <= repeat <= UINT64_MAX) {
        return;
      }
      var r := Start(t, cb, timeout, repeat);
      if r == 0 {
        Touch(t, since, keys, old(ready));
      }
    }

    /** uv_timer_again, called by the user. */
    method UserAgain(t: Timer, ghost since: nat, ghost keys: map<Timer, (nat, nat)>)
      requires Valid() && Firing(since, keys) && t in timers
      modifies this`heap, this`ready, this`counter, this`trace, t
      ensures Valid() && Firing(since, keys) && Continues() && |ready| <= |old(ready)|
    {
      hide FiringOf, Without;
      var r := Again(t);
      if r == 0 && t.repeat > 0 {
        Touch(t, since, keys, old(ready));
      }
    }

    /** uv_timer_stop, or uv_close with uv__timer_close, called by the user. */
    method UserStop(t: Timer, close: bool, ghost since: nat, ghost keys: map<Timer, (nat, nat)>)
      requires Valid() && Firing(since, keys) && t in timers
      modifies this`heap, this`ready, this`trace, t
      ensures Valid() && Firing(since, keys) && Continues() && |ready| <= |old(ready)|
    {
      WithoutTwice(ready, t);
      hide FiringOf, Without, NoDuplicates;
      Stop(t);
      if close {
        t.closing := true;
      }
      Touch(t, since, keys, old(ready));
    }

    /** One call of a callback: any timer function, a new timer, or uv_update_time. */
    method UserCall(ghost since: nat, ghost keys: map<Timer, (nat, nat)>)
      requires Valid() && Firing(since, keys)
      modifies this, timers
      ensures Valid() && Firing(since, keys) && Continues() && |ready| <= |old(ready)|
    {
      hide FiringOf;
      var choice: int := *;
      if choice == 0 {
        var t := new Timer();
        timers := timers + {t};
      } else if choice == 1 {
        var now: int := *;
        if 0 <= now <= UINT64_MAX {
          time := now;
        }
      } else if timers != {} {
        var t :| t in timers;
        if choice == 2 {
          UserStart(t, since, keys);
        } else if choice == 3 {
          UserAgain(t, since, keys);
        } else if choice == 4 {
          var repeat: int := *;
          if 0 <= repeat <= UINT64_MAX {
            t.repeat := repeat;
          }
        } else {
          UserStop(t, choice == 5, since, keys);
        }
      }
    }

    method UserCode(ghost since: nat, ghost keys: map<Timer, (nat, nat)>)
      requires Valid() && Firing(since, keys)
      modifies this, timers
      ensures Valid() && Firing(since, keys) && Continues() && |ready| <= |old(ready)|
    {
      hide FiringOf;
      var calls: nat := *;
      while calls > 0
        invariant Valid() && Firing(since, keys) && Continues() && |ready| <= |old(ready)|
      {
        calls := calls - 1;
        UserCall(since, keys);
      }
    }

    /** One turn of the second loop of uv__run_timers. */
    method FireOne(ghost since: nat, ghost keys: map<Timer, (nat, nat)>)
      requires Valid() && Firing(since, keys) && ready != []
      modifies this, timers
      ensures Valid() && Firing(since, keys) && Continues() && |ready| < |old(ready)|
    {
      hide FiringOf, Named, Honest, Ordered, Less, Without;
      ghost var was, before := ready, trace;
      var t := ready[0];
      ready := ready[1..];
      assert t !in ready && NoDuplicates(ready);
      hide NoDuplicates;
      var r := Again(t);
      ghost var e := Fired(t, time, t.repeat, if t in heap then Some(t.timeout) else None);
      FireKeeps(before[since..], was, keys, e);
      assert (trace + [e])[since..] == before[since..] + [e];
      trace := trace + [e];
      UserCode(since, keys);
    }

    /**
     * uv__run_timers, with callbacks that do anything with timers. keys has the timers
     * that had expired when it began. They fire in the order of timeout and start, each
     * at most once, none after it was stopped, restarted or closed, and each that was not.
     */
    method RunTimers() returns (ghost keys: map<Timer, (nat, nat)>)
      requires Valid() && ready == []
      modifies this, timers
      ensures Valid() && ready == [] && Continues()
      ensures forall t :: t in keys ==> t in old(heap) && old(t.timeout) <= old(time) && keys[t] == (old(t.timeout), old(t.startId))
      ensures forall t :: t in old(heap) && old(t.timeout) <= old(time) ==> t in keys
      ensures var events := trace[|old(trace)|..];
              Honest(events) && Ordered(events, keys) && Rearmed(events) && forall t :: t in keys ==> Named(events, t)
      ensures var events := trace[|old(trace)|..];
              && (forall a, b :: 0 <= a < b < |events| && events[b].Fired? ==> events[b].timer != events[a].timer)
              && (forall a :: 0 <= a < |events| && events[a].Fired? ==> events[a].timer in keys)
              && (forall a, b :: 0 <= a < b < |events| && events[a].Fired? && events[b].Fired? ==>
                    var x, y := keys[events[a].timer], keys[events[b].timer];
                    x.0 < y.0 || (x.0 == y.0 && x.1 < y.1))
    {
      ghost var all := Collect();
      keys := map t | t in ready :: all[t];
      ghost var since := |trace|;
      assert trace[since..] == [];
      while ready != []
        invariant Valid() && Firing(since, keys) && Continues()
        decreases |ready|
      {
        FireOne(since, keys);
      }
      PlainEvents(trace[since..], keys);
    }
  }
}
