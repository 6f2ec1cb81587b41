/**
 * The table of I/O watchers of a loop, and the dispatch of one batch of kernel events.
 * The table has two hidden slots at its end, through which uv__io_close reaches the batch.
 */
module Watchers {
  import opened Common
  import opened PowerOfTwo

  datatype Poll = In | Out | Pri | RdHup

  const ALL: set<Poll> := {In, Out, Pri, RdHup}

  datatype Filter = Read | Write | OutOfBand | Vnode | User | Proc

  /** struct kevent; ident is -1 once it is invalidated. */
  datatype Event = Event(ident: int, filter: Filter, eof: bool, error: bool)

  /** uv__io_t. */
  class Io {
    const fd: int
    var pevents: set<Poll>
    var events: set<Poll>

    constructor (fd: int)
      ensures this.fd == fd && pevents == {} && events == {}
    {
      this.fd := fd;
      pevents, events := {}, {};
    }
  }

  /** A slot of the table: empty, a watcher, or in the hidden slots the batch and its size. */
  datatype Slot = Null | Watcher(io: Io) | Batch | Size(n: nat)

  /**
   * What happened, in order: the callback for a descriptor ran, with these events and perhaps
   * an error, or a watcher of it was closed, or the signal pipe was read.
   */
  datatype Trace = Called(fd: int, revents: set<Poll>, error: bool) | Closed(fd: int) | Signals

  /** No callback runs for a descriptor after it was closed. */
  predicate NoStale(trace: seq<Trace>) {
    forall a, b :: 0 <= a < b < |trace| && trace[a].Closed? && trace[b].Called? ==> trace[b].fd != trace[a].fd
  }

  function Count(slots: seq<Slot>): nat {
    if slots == [] then 0 else (if slots[0] == Null then 0 else 1) + Count(slots[1..])
  }

  lemma {:induction false} CountUpdate(slots: seq<Slot>, i: nat, v: Slot)
    requires i < |slots|
    ensures Count(slots[i := v]) == Count(slots) - (if slots[i] == Null then 0 else 1) + (if v == Null then 0 else 1)
  {
    if i == 0 {
      assert slots[0 := v][1..] == slots[1..];
    } else {
      CountUpdate(slots[1..], i - 1, v);
      assert slots[i := v][1..] == slots[1..][i - 1 := v];
    }
  }

  lemma {:induction false} CountGrow(slots: seq<Slot>, n: nat)
    ensures Count(slots + seq(n, _ => Null)) == Count(slots)
  {
    if slots == [] {
      assert slots + seq(n, _ => Null) == seq(n, _ => Null);
      if n > 0 {
        CountGrow([], n - 1);
        assert seq(n, _ => Null)[1..] == [] + seq(n - 1, _ => Null);
      }
    } else {
      CountGrow(slots[1..], n);
      assert (slots + seq(n, _ => Null))[1..] == slots[1..] + seq(n, _ => Null);
    }
  }

  /** The part of uv_loop_t that the table is about; watchers is NULL when it is empty. */
  class Loop {
    var watchers: seq<Slot>
    var nwatchers: nat
    var nfds: nat
    var queue: seq<Io>            // watcher_queue: registrations the kernel does not know of yet
    var ios: set<Io>              // all watchers there are
    const events: array<Event>    // the batch, while it is dispatched
    const signalIo: Io            // signal_io_watcher
    const others: nat             // what else is counted in nfds
    ghost var trace: seq<Trace>
    ghost var closedNow: set<int> // the descriptors closed since the batch was read
    ghost var looked: nat         // how many events of the batch have been looked at
    ghost var sawSignal: bool     // an event of the batch was for the signal pipe
    ghost var freed: bool         // the memory that watchers points to was given back

    ghost predicate Table()
      reads this, ios
    {
      && !freed && nwatchers < 0x8000_0000
      && (if watchers == [] then nwatchers == 0 else |watchers| == nwatchers + 2)
      && (forall i :: 0 <= i < nwatchers ==>
            watchers[i].Null? || (watchers[i].Watcher? && watchers[i].io in ios && watchers[i].io.fd == i && watchers[i].io.pevents != {}))
      && nfds == others + Count(watchers[..nwatchers])
    }

    ghost predicate Interests()
      reads this, ios
    {
      && signalIo in ios
      && (forall w :: w in ios && w.pevents != {} ==> 0 <= w.fd < nwatchers)
      && (forall i :: 0 <= i < |queue| ==> queue[i] in ios && queue[i].pevents != {})
      && NoDuplicates(queue)
    }

    /** n events are being dispatched; 0 stands for no batch. */
    ghost predicate Dispatching(n: nat)
      reads this
      requires watchers == [] || |watchers| == nwatchers + 2
    {
      if n == 0 then watchers == [] || (watchers[nwatchers] == Null && watchers[nwatchers + 1] == Null)
      else watchers != [] && watchers[nwatchers] == Batch && watchers[nwatchers + 1] == Size(n) && n <= events.Length
    }

    /** No event of the batch, process events apart, names a descriptor closed since it was read. */
    ghost predicate Clean(n: nat)
      reads this, events
    {
      && n <= events.Length && -1 !in closedNow
      && forall j :: 0 <= j < n ==> events[j].filter.Proc? || (events[j].ident !in closedNow && -1 <= events[j].ident < nwatchers)
    }

    ghost predicate Valid(n: nat)
      reads this, ios, events
    {
      Table() && Interests() && Dispatching(n) && Clean(n)
    }

    constructor (signalIo: Io, others: nat)
      requires signalIo.pevents == {}
      ensures Valid(0) && fresh(events) && ios == {signalIo} && this.signalIo == signalIo
      ensures nfds == this.others == others && watchers == [] && trace == [] && closedNow == {}
    {
      watchers, nwatchers, nfds, queue, ios := [], 0, others, [], {signalIo};
      events := new Event[1024](_ => Event(-1, Read, false, false));
      this.signalIo, this.others := signalIo, others;
      trace, closedNow, looked, freed, sawSignal := [], {}, 0, false, false;
    }

    // ---------- The table ----------

    /**
     * maybe_resize: every slot keeps its content, and so do the two hidden ones. For a length
     * whose power of two does not fit an unsigned int the new size is zero: uv__reallocf
     * then frees the table, and the field keeps pointing to it.
     */
    method MaybeResize(len: nat, ghost n: nat) returns (err: int)
      requires Valid(n) && len <= 0x7FFF_FFFF
      modifies this`watchers, this`nwatchers, this`freed
      ensures err == if len <= old(nwatchers) || len + 2 <= 0x8000_0000 then 0 else UV_ENOMEM
      ensures err != 0 ==> watchers == old(watchers) && nwatchers == old(nwatchers) && (freed <==> watchers != [])
      ensures err == 0 ==> Valid(n)
      ensures nwatchers >= old(nwatchers) && |watchers| >= |old(watchers)|
      ensures err == 0 ==> nwatchers >= len
      ensures watchers[..old(nwatchers)] == old(watchers[..nwatchers])
      ensures forall i :: old(nwatchers) <= i < nwatchers ==> watchers[i] == Null
      ensures len <= old(nwatchers) ==> watchers == old(watchers) && nwatchers == old(nwatchers)
      ensures err == 0 && len > old(nwatchers) ==> nwatchers == NextPowerOfTwo(len + 2) - 2
    {
      hide NextPowerOfTwo, Count, U32, NoDuplicates;
      if len <= nwatchers {
        return 0;
      }
      var fakeList, fakeCount := Null, Null;
      if watchers != [] {
        fakeList, fakeCount := watchers[nwatchers], watchers[nwatchers + 1];
      }
      Grown(len);
      var grown := U32(NextPowerOfTwo(len + 2) - 2);
      if U32(grown + 2) == 0 {
        freed := watchers != [];
        return UV_ENOMEM;
      }
      ghost var slots := watchers[..nwatchers];
      CountGrow(slots, grown - nwatchers);
      var table := Lengthened(watchers[..nwatchers], grown);
      watchers := table + [fakeList, fakeCount];
      nwatchers := grown;
      assert watchers[..nwatchers] == table;
      return 0;
    }

    /** The loop of maybe_resize that clears the new slots. */
    static method Lengthened(slots: seq<Slot>, grown: nat) returns (table: seq<Slot>)
      requires |slots| <= grown
      ensures table == slots + seq(grown - |slots|, _ => Null)
    {
      table := slots;
      var i := |slots|;
      while i < grown
        invariant |slots| <= i <= grown
        invariant table == slots + seq(i - |slots|, _ => Null)
      {
        table := table + [Null];
        i := i + 1;
      }
    }

    // ---------- Watchers ----------

    method Enqueue(w: Io, ghost n: nat)
      requires Valid(n) && w in ios && w.pevents != {}
      modifies this`queue
      ensures Valid(n) && queue == if w in old(queue) then old(queue) else old(queue) + [w]
    {
      if w !in queue {
        queue := queue + [w];
      }
    }

    /** The watcher takes the slot of its descriptor, unless another one has it. */
    method TakeSlot(w: Io, ghost n: nat)
      requires Valid(n) && w in ios && w.pevents != {}
      modifies this`watchers, this`nfds
      ensures Valid(n) && watchers != [] && w.fd < nwatchers
      ensures watchers == old(if watchers[w.fd] == Null then watchers[w.fd := Watcher(w)] else watchers)
    {
      hide Count;
      if watchers[w.fd] == Null {
        CountUpdate(watchers[..nwatchers], w.fd, Watcher(w));
        assert watchers[w.fd := Watcher(w)][..nwatchers] == watchers[..nwatchers][w.fd := Watcher(w)];
        watchers := watchers[w.fd := Watcher(w)];
        nfds := nfds + 1;
      }
    }

    method LeaveSlot(w: Io, ghost n: nat)
      requires Valid(n) && w in ios && 0 <= w.fd < nwatchers
      modifies this`watchers, this`nfds
      ensures Valid(n) && watchers != []
      ensures watchers == old(if watchers[w.fd] == Watcher(w) then watchers[w.fd := Null] else watchers)
    {
      hide Count;
      if watchers[w.fd] == Watcher(w) {
        CountUpdate(watchers[..nwatchers], w.fd, Null);
        assert watchers[w.fd := Null][..nwatchers] == watchers[..nwatchers][w.fd := Null];
        CountSome(watchers[..nwatchers], w.fd);
        watchers := watchers[w.fd := Null];
        nfds := nfds - 1;
      }
    }

    /** uv__io_start. Only the largest descriptor it accepts does not fit the table, and costs the loop its table. */
    method IoStart(w: Io, interest: set<Poll>, ghost n: nat) returns (err: int)
      requires Valid(n) && w in ios && interest != {} && 0 <= w.fd < 0x7FFF_FFFF
      modifies this`watchers, this`nwatchers, this`nfds, this`queue, this`freed, w
      ensures err == if w.fd < old(nwatchers) || w.fd != 0x7FFF_FFFE then 0 else UV_ENOMEM
      ensures w.pevents == old(w.pevents) + interest && w.events == old(w.events)
      ensures err != 0 ==>
        watchers == old(watchers) && nwatchers == old(nwatchers) && queue == old(queue) && nfds == old(nfds) && (freed <==> watchers != [])
      ensures err == 0 ==> Valid(n) && w.fd < nwatchers
      ensures nwatchers >= old(nwatchers) && |watchers| >= |old(watchers)|
      ensures err == 0 && w.events != w.pevents ==>
        && queue == (if w in old(queue) then old(queue) else old(queue) + [w])
        && watchers[w.fd] == if w.fd < old(nwatchers) && old(watchers)[w.fd] != Null then old(watchers)[w.fd] else Watcher(w)
      ensures forall i :: 0 <= i < nwatchers && i != w.fd ==> watchers[i] == if i < old(nwatchers) then old(watchers)[i] else Null
    {
      hide NextPowerOfTwo, Count, Clean;
      err := MaybeResize(w.fd + 1, n);
      w.pevents := w.pevents + interest;
      if err != 0 || w.events == w.pevents {
        return;
      }
      Enqueue(w, n);
      TakeSlot(w, n);
    }

    method Dequeue(w: Io, ghost n: nat)
      requires Valid(n)
      modifies this`queue
      ensures Valid(n) && w !in queue && queue == Without(old(queue), w)
    {
      WithoutNoDuplicates(queue, w);
      queue := Without(queue, w);
      assert forall i :: 0 <= i < |queue| ==> queue[i] in old(queue);
    }

    /** uv__io_stop. A watcher nobody is interested in leaves the queue and its slot. */
    method IoStop(w: Io, interest: set<Poll>, ghost n: nat)
      requires Valid(n) && w in ios && interest != {} && w.fd >= -1
      modifies this`watchers, this`nfds, this`queue, w
      ensures Valid(n) && nwatchers == old(nwatchers) && |watchers| == |old(watchers)|
      ensures w.pevents == old(w.pevents) - interest
      ensures w.pevents == {} ==> w !in queue && (0 <= w.fd < nwatchers ==> watchers[w.fd] != Watcher(w))
      ensures w.pevents != {} ==> queue == if w in old(queue) then old(queue) else old(queue) + [w]
      ensures forall i :: 0 <= i < nwatchers && i != w.fd ==> watchers[i] == old(watchers)[i]
    {
      hide Count, Without;
      if w.fd == -1 || w.fd >= nwatchers {
        return;
      }
      if w.pevents - interest == {} {
        Dequeue(w, n);
        LeaveSlot(w, n);
        w.pevents, w.events := {}, {};
      } else {
        w.pevents := w.pevents - interest;
        Enqueue(w, n);
      }
    }

    /** uv__platform_invalidate_fd: the batch is found through the hidden slots. */
    method InvalidateFd(fd: int, ghost n: nat)
      requires Valid(n) && watchers != [] && fd >= 0
      modifies events, this`closedNow
      ensures Valid(n) && closedNow == old(closedNow) + {fd}
      ensures Invalidated(n)
    {
      if watchers[nwatchers] == Null {
        closedNow := closedNow + {fd};
        return;
      }
      var size := watchers[nwatchers + 1].n;
      var i := 0;
      while i < size
        invariant 0 <= i <= size && closedNow == old(closedNow)
        invariant forall j :: 0 <= j < events.Length ==>
          events[j] == if j < i then Struck(old(events[j]), fd) else old(events[j])
      {
        if events[i].ident == fd && events[i].filter != Proc {
          events[i] := events[i].(ident := -1);
        }
        i := i + 1;
      }
      closedNow := closedNow + {fd};
    }

    /** The event as uv__platform_invalidate_fd leaves it. */
    function Struck(e: Event, fd: int): Event {
      if e.ident == fd && e.filter != Proc then e.(ident := -1) else e
    }

    /** Events of the batch only ever lose their descriptor. */
    twostate predicate Invalidated(n: nat)
      reads events
    {
      n <= events.Length && forall j :: 0 <= j < n ==>
        events[j] == old(events[j]) || (events[j] == old(events[j]).(ident := -1) && !events[j].filter.Proc?)
    }

    /** uv__io_close. */
    method IoClose(w: Io, ghost n: nat)
      requires Valid(n) && w in ios && w.fd >= -1 && (w.fd != -1 ==> watchers != [])
      modifies this`watchers, this`nfds, this`queue, w, events, this`closedNow, this`trace
      ensures Valid(n) && nwatchers == old(nwatchers) && |watchers| == |old(watchers)| && Invalidated(n)
      ensures w !in queue && (0 <= w.fd < nwatchers ==> watchers[w.fd] != Watcher(w))
      ensures w.fd != -1 ==> w.fd in closedNow && trace == old(trace) + [Closed(w.fd)]
      ensures closedNow == old(closedNow) + (if w.fd == -1 then {} else {w.fd})
      ensures w.fd == -1 ==> trace == old(trace)
    {
      AllPolls(w.pevents);
      IoStop(w, ALL, n);
      if w.fd != -1 {
        InvalidateFd(w.fd, n);
        trace := trace + [Closed(w.fd)];
      }
    }

    /** What the batch and the trace have in common while callbacks run. */
    ghost predicate Told(since: nat)
      reads this
    {
      && since <= |trace| && NoStale(trace[since..])
      && forall k :: since <= k < |trace| && trace[k].Closed? ==> trace[k].fd in closedNow
    }

    /** What user code leaves alone. */
    twostate predicate Continues(n: nat)
      reads this, events, ios
    {
      && Invalidated(n) && nwatchers >= old(nwatchers) && |watchers| >= |old(watchers)| && old(trace) <= trace
      && forall w :: w in ios ==> w in old(ios) || fresh(w)
    }

    /** One call of the user: start, stop or close any watcher, or make a new one. */
    method UserCall(ghost n: nat, ghost since: nat)
      requires Valid(n) && Told(since)
      modifies this, ios, events
      ensures Valid(n) && Told(since) && Continues(n) && looked == old(looked) && sawSignal == old(sawSignal)
    {
      hide Count;
      var choice: int := *;
      var interest: set<Poll> := *;
      var w: Io :| w in ios;
      if choice == 0 {
        NewIo(n);
      } else if choice == 1 && w.fd >= -1 && (w.fd != -1 ==> watchers != []) {
        IoClose(w, n);
      } else if choice == 2 && w.fd >= -1 && interest != {} {
        IoStop(w, interest, n);
      } else if 0 <= w.fd < 0x7FFF_FFFE && interest != {} {
        var err := IoStart(w, interest, n);
      }
    }

    /** Anything a callback may do with watchers. */
    method UserCode(ghost n: nat, ghost since: nat)
      requires Valid(n) && Told(since)
      modifies this, ios, events
      ensures Valid(n) && Told(since) && Continues(n) && looked == old(looked) && sawSignal == old(sawSignal)
    {
      hide Table, Interests, NoStale;
      var calls: nat := *;
      while calls > 0
        invariant Valid(n) && Told(since) && Continues(n) && looked == old(looked) && sawSignal == old(sawSignal)
      {
        calls := calls - 1;
        UserCall(n, since);
      }
    }

    // ---------- Polling ----------

    /** The first loop of uv__io_poll: the kernel is told of all interests that are new. */
    method Register(ghost n: nat)
      requires Valid(n)
      modifies this`queue, ios
      ensures Valid(n) && queue == []
      ensures forall i :: 0 <= i < |old(queue)| ==> old(queue)[i].events == old(queue)[i].pevents
      ensures forall w :: w in ios ==> w.pevents == old(w.pevents)
    {
      while queue != []
        invariant Valid(n) && |queue| <= |old(queue)| && queue == old(queue)[|old(queue)| - |queue|..]
        invariant forall w :: w in ios ==> w.pevents == old(w.pevents)
        invariant forall i :: 0 <= i < |old(queue)| - |queue| ==> old(queue)[i].events == old(queue)[i].pevents
        decreases |queue|
      {
        var w := queue[0];
        queue := queue[1..];
        assert w.pevents != {} && 0 <= w.fd < nwatchers;
        w.events := w.pevents;
      }
    }

    /** uv__io_cb: only ever for a watcher in its slot, and not after its descriptor was closed. */
    method RunCallback(w: Io, revents: set<Poll>, error: bool, ghost n: nat, ghost since: nat)
      requires Valid(n) && Told(since)
      requires 0 <= w.fd < nwatchers && watchers[w.fd] == Watcher(w) && w.fd !in closedNow
      modifies this, ios, events
      ensures Valid(n) && Told(since) && Continues(n) && looked == old(looked) && sawSignal == old(sawSignal)
      ensures old(trace) + [Called(w.fd, revents, error)] <= trace
    {
      trace := trace + [Called(w.fd, revents, error)];
      UserCode(n, since);
    }

    /** revents: what the event says, as far as the watcher asked for it; POLLERR apart. */
    function Revents(ev: Event, pevents: set<Poll>): (r: set<Poll>)
      ensures r <= pevents
    {
      match ev.filter
      case Read => (if In in pevents then {In} else {}) + (if ev.eof && RdHup in pevents then {RdHup} else {})
      case OutOfBand => if Pri in pevents then {Pri} else {}
      case Write => if Out in pevents then {Out} else {}
      case _ => {}
    }

    /** Whether an event finds a watcher, for a descriptor that was not closed. */
    predicate Live(ev: Event)
      reads this, ios
      requires Table() && (ev.filter.Proc? || -1 <= ev.ident < nwatchers)
    {
      ev.filter != Proc && ev.ident != -1 && watchers[ev.ident] != Null
    }

    /** A read, write or out-of-band event that the watcher asked for, or one with an error. */
    predicate Asked(ev: Event, pevents: set<Poll>) {
      && ev.filter != User && ev.filter != Vnode
      && (|| ev.error
          || (ev.filter == Read && In in pevents)
          || (ev.filter == Read && ev.eof && RdHup in pevents)
          || (ev.filter == OutOfBand && Pri in pevents)
          || (ev.filter == Write && Out in pevents))
    }

    /** What the callback of a watcher with those interests is told of the event. */
    predicate Tells(t: Trace, ev: Event, pevents: set<Poll>) {
      && t.Called? && t.fd == ev.ident && t.error == ev.error
      && (In in t.revents <==> ev.filter == Read && In in pevents)
      && (RdHup in t.revents <==> ev.filter == Read && ev.eof && RdHup in pevents)
      && (Pri in t.revents <==> ev.filter == OutOfBand && Pri in pevents)
      && (Out in t.revents <==> ev.filter == Write && Out in pevents)
    }

    lemma ReventsTell(ev: Event, pevents: set<Poll>)
      requires ev.filter != User && ev.filter != Vnode && ev.filter != Proc
      ensures Asked(ev, pevents) <==> Revents(ev, pevents) != {} || ev.error
      ensures Tells(Called(ev.ident, Revents(ev, pevents), ev.error), ev, pevents)
    {
      var r := Revents(ev, pevents);
      assert r != {} <==> In in r || Out in r || Pri in r || RdHup in r;
    }

    /**
     * One turn of the dispatch loop; signal says that the signal pipe is to be read at the
     * end. The first thing that happens for an event that was asked for is its callback.
     */
    method DispatchEvent(i: nat, ghost n: nat, ghost since: nat) returns (signal: bool)
      requires Valid(n) && Told(since) && i < n && looked == i
      modifies this, ios, events
      ensures Valid(n) && Told(since) && Continues(n) && looked == i + 1
      ensures sawSignal == (old(sawSignal) || signal)
      ensures old(Live(events[i])) && !signal &&
              old(events[i].filter == User || events[i].filter == Vnode || Asked(events[i], watchers[events[i].ident].io.pevents)) ==>
                |trace| > |old(trace)| && trace[|old(trace)|].Called? && trace[|old(trace)|].fd == old(events[i].ident)
      ensures old(Live(events[i])) && !signal && old(Asked(events[i], watchers[events[i].ident].io.pevents)) ==>
                Tells(trace[|old(trace)|], old(events[i]), old(watchers[events[i].ident].io.pevents))
      ensures old(Live(events[i]) && events[i].filter == User) && !signal ==>
                trace[|old(trace)|] == Called(old(events[i].ident), old(watchers[events[i].ident].io.events), false)
      ensures signal <==> old(Live(events[i]) && watchers[events[i].ident].io == signalIo && Asked(events[i], signalIo.pevents))
      ensures !old(Live(events[i]) && (events[i].filter == User || events[i].filter == Vnode
                                       || Asked(events[i], watchers[events[i].ident].io.pevents))) || signal ==>
                trace == old(trace) && watchers == old(watchers) && queue == old(queue)
    {
      hide Count, NoStale, Revents, Tells;
      looked := looked + 1;
      var ev := events[i];
      if ev.filter == Proc || ev.ident == -1 || watchers[ev.ident] == Null {
        return false;
      }
      var w := watchers[ev.ident].io;
      if ev.filter == User || ev.filter == Vnode {
        RunCallback(w, if ev.filter == User then w.events else {}, false, n, since);
        return false;
      }
      var revents := Revents(ev, w.pevents);
      ReventsTell(ev, w.pevents);
      if revents == {} && !ev.error {
        return false;
      }
      if w == signalIo {
        sawSignal := true;
        return true;
      }
      RunCallback(w, revents, ev.error, n, since);
      return false;
    }

    /**
     * The dispatch loop of uv__io_poll, on n events whose descriptors are in the table.
     * Whatever the callbacks do, even if they make the table grow or open a descriptor
     * again, no callback runs for a descriptor that was closed since the batch was read. The
     * signal pipe is read last, if an event was for it.
     */
    method Dispatch(n: nat)
      requires Valid(0) && watchers != [] && 0 < n <= events.Length
      requires forall j :: 0 <= j < n ==> events[j].filter.Proc? || 0 <= events[j].ident < nwatchers
      modifies this, ios, events
      ensures Valid(0) && looked == n
      ensures old(trace) <= trace && NoStale(trace[|old(trace)|..])
      ensures sawSignal ==> Signals in trace[|old(trace)|..]
    {
      hide Tells, Asked, NoStale, Count;
      ghost var since := |trace|;
      assert trace[since..] == [];
      NothingStale();
      closedNow := {};
      looked, sawSignal := 0, false;
      SetHidden(Batch, Size(n), n);
      var haveSignals := false;
      var i := 0;
      while i < n
        invariant 0 <= i <= n && looked == i && Valid(n) && Told(since) && old(trace) <= trace && sawSignal == haveSignals
        invariant forall w :: w in ios ==> w in old(ios) || fresh(w)
      {
        var signal := DispatchEvent(i, n, since);
        haveSignals := haveSignals || signal;
        i := i + 1;
      }
      if haveSignals {
        ghost var before := trace;
        ReadSignals(n, since);
        assert trace[|before|] == trace[since..][|before| - since] == Signals;
      }
      SetHidden(Null, Null, 0);
    }

    /** uv__signal_event, with the callbacks it runs. */
    method ReadSignals(ghost n: nat, ghost since: nat)
      requires Valid(n) && Told(since)
      modifies this, ios, events
      ensures Valid(n) && Told(since) && Continues(n) && looked == old(looked) && sawSignal == old(sawSignal)
      ensures |trace| > |old(trace)| && trace[|old(trace)|] == Signals
    {
      trace := trace + [Signals];
      UserCode(n, since);
    }

    /** The two hidden slots. */
    method SetHidden(list: Slot, count: Slot, n: nat)
      requires watchers != [] && Table() && Interests() && Clean(n) && n <= events.Length
      requires if n == 0 then list == Null && count == Null else list == Batch && count == Size(n)
      modifies this`watchers
      ensures Valid(n) && |watchers| == |old(watchers)|
    {
      var table := watchers[nwatchers := list][nwatchers + 1 := count];
      assert table[..nwatchers] == watchers[..nwatchers];
      watchers := table;
    }

    /** A new handle, on any descriptor, also one that was closed before. */
    method NewIo(ghost n: nat)
      requires Valid(n)
      modifies this`ios
      ensures Valid(n) && old(ios) <= ios && forall w :: w in ios ==> w in old(ios) || fresh(w)
    {
      var fd: int := *;
      var w := new Io(fd);
      ios := ios + {w};
    }
  }

  lemma NothingStale()
    ensures NoStale([])
  {
  }

  lemma {:induction false} CountSome(slots: seq<Slot>, i: nat)
    requires i < |slots| && slots[i] != Null
    ensures Count(slots) > 0
  {
    if i > 0 {
      CountSome(slots[1..], i - 1);
    }
  }

  lemma AllPolls(polls: set<Poll>)
    ensures polls - ALL == {}
  {
    forall p: Poll ensures p in ALL {
      match p
      case In =>
      case Out =>
      case Pri =>
      case RdHup =>
    }
  }

  lemma Grown(len: nat)
    requires 1 <= len <= 0x7FFF_FFFF
    ensures len + 2 <= 0x8000_0000 ==>
              var size := NextPowerOfTwo(len + 2);
              len + 2 <= size <= 0x8000_0000 && U32(size - 2) == size - 2 && U32(size) == size
    ensures len + 2 > 0x8000_0000 ==> U32(U32(NextPowerOfTwo(len + 2) - 2) + 2) == 0
  {
    NextPowerOfTwoExact(len + 2);
    hide NextPowerOfTwo, U32, Pow2;
    Powers();
    assert IsPow2(0x8000_0000);
    WrappedSize();
  }

  lemma WrappedSize()
    ensures U32(U32(0 - 2) + 2) == 0
  {
  }
}
