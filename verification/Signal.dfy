/**
 * Signal delivery: handlers that run in any thread at any time write messages to the
 * pipes of the loops, loops read and dispatch them, and handles are started, stopped and
 * closed meanwhile. A step is what happens between two points at which another thread or
 * a handler can come in; the global lock is part of the state.
 */
module Signal {
  import opened Common

  // ---------- State ----------

  datatype Message = Message(signum: nat, handle: nat)

  /**
   * uv_signal_t; signum is 0 when it is stopped; finished says that its close callback has
   * run. caught and dispatched are 32-bit counters that wrap.
   */
  datatype Handle = Handle(owner: nat, signum: nat, oneShot: bool, caught: nat, dispatched: nat, closing: bool, finished: bool)

  /** What sigaction has installed for a signal: the default, the handler, or the handler for one delivery. */
  datatype Disposition = Default | Regular | Once

  /**
   * The signal lock: free, or held by a handler that has the handles of todo still to
   * visit and has written, but not yet counted, a message for mid. Other holders do all
   * they do in one step.
   */
  datatype Lock = Free | Scanning(signum: nat, todo: set<nat>, mid: Option<nat>)

  /** A loop: its signal pipe, the messages read but not dispatched, and whether the first of those is in its callback. */
  datatype Loop = Loop(pipe: seq<Message>, batch: seq<Message>, inCallback: bool)

  /**
   * tree is the shared tree of started handles; waiting, the handlers that have not got the
   * lock yet; capacity, how many messages fit into a signal pipe.
   */
  datatype State = State(handles: seq<Handle>, tree: set<nat>, dispositions: map<nat, Disposition>,
                         waiting: multiset<nat>, lock: Lock, loops: seq<Loop>, capacity: nat)
  {
    function Installed(signum: nat): Disposition {
      if signum in dispositions then dispositions[signum] else Default
    }

    predicate Watches(h: nat, signum: nat) {
      h in tree && h < |handles| && handles[h].signum == signum
    }

    /** uv__signal_first_handle: the order of the tree puts handles that are not one-shot first. */
    predicate NoneWatches(signum: nat) {
      forall h :: h in tree ==> !Watches(h, signum)
    }

    predicate OnlyOneShots(signum: nat) {
      forall h :: h in tree && Watches(h, signum) ==> handles[h].oneShot
    }
  }

  // ---------- Steps ----------

  datatype Step =
    | Deliver(signum: nat)                               // the kernel interrupts some thread
    | Acquire(signum: nat)                               // uv__signal_handler gets the lock
    | Write(h: nat, fits: bool)                          // writes a message, unless the pipe is full
    | Count                                              // handle->caught_signals++
    | Release
    | Start(h: nat, signum: nat, oneShot: bool, valid: bool) // uv__signal_start on a stopped handle
    | Stop(h: nat)                                       // uv_signal_stop
    | Close(h: nat)                                      // uv_close
    | Read(l: nat, n: nat)                               // uv__signal_event reads up to 32 messages
    | Call(l: nat)                                       // runs the callback of the first one
    | Dispatched(l: nat)                                 // counts it, and stops a one-shot handle
    | FinishClose(h: nat)                                // uv__finish_close

  function SetHandle(s: State, h: nat, v: Handle): State
    requires h < |s.handles|
  {
    s.(handles := s.handles[h := v])
  }

  function SetLoop(s: State, l: nat, v: Loop): State
    requires l < |s.loops|
  {
    s.(loops := s.loops[l := v])
  }

  predicate Valid(s: State) {
    && (forall h :: 0 <= h < |s.handles| ==> s.handles[h].owner < |s.loops|)
    && (forall h :: h in s.tree ==> h < |s.handles|)
  }

  /** Whether the first message of the batch is for what its handle now watches. */
  predicate Matches(s: State, l: nat)
    requires l < |s.loops|
  {
    && s.loops[l].batch != [] && s.loops[l].batch[0].handle < |s.handles|
    && s.loops[l].batch[0].signum == s.handles[s.loops[l].batch[0].handle].signum
  }

  predicate Enabled(s: State, step: Step) {
    match step
    case Deliver(signum) => s.Installed(signum) != Default
    case Acquire(signum) => s.lock.Free? && s.waiting[signum] > 0
    case Write(h, fits) =>
      && s.lock.Scanning? && s.lock.mid.None? && h in s.lock.todo && h < |s.handles| && s.handles[h].owner < |s.loops|
      && (fits ==> |s.loops[s.handles[h].owner].pipe| < s.capacity)
    case Count => s.lock.Scanning? && s.lock.mid.Some? && s.lock.mid.value < |s.handles|
    case Release => s.lock.Scanning? && s.lock.todo == {} && s.lock.mid.None?
    case Start(h, signum, _, _) =>
      s.lock.Free? && h < |s.handles| && s.handles[h].signum == 0 && !s.handles[h].closing && signum != 0
    case Stop(h) => h < |s.handles| && !s.handles[h].closing && (s.handles[h].signum != 0 ==> s.lock.Free?)
    case Close(h) => h < |s.handles| && !s.handles[h].closing && (s.handles[h].signum != 0 ==> s.lock.Free?)
    case Read(l, n) => l < |s.loops| && s.loops[l].batch == [] && n <= 32 && n <= |s.loops[l].pipe|
    case Call(l) => l < |s.loops| && !s.loops[l].inCallback && Matches(s, l)
    case Dispatched(l) =>
      && l < |s.loops| && s.loops[l].batch != [] && s.loops[l].batch[0].handle < |s.handles|
      && (s.loops[l].inCallback || !Matches(s, l))
      && (s.handles[s.loops[l].batch[0].handle].oneShot && s.handles[s.loops[l].batch[0].handle].signum != 0 ==> s.lock.Free?)
    case FinishClose(h) =>
      && h < |s.handles| && s.handles[h].closing && !s.handles[h].finished
      && s.handles[h].owner < |s.loops| && s.loops[s.handles[h].owner].batch == []
  }

  /** uv__signal_start under the lock; a signal that cannot be caught is refused by sigaction. */
  function DoStart(s: State, h: nat, signum: nat, oneShot: bool, valid: bool): State
    requires h < |s.handles|
  {
    var register := s.NoneWatches(signum) || (!oneShot && s.OnlyOneShots(signum));
    if register && !valid then s
    else
      var s1 := if register then s.(dispositions := s.dispositions[signum := if oneShot then Once else Regular]) else s;
      SetHandle(s1, h, s.handles[h].(signum := signum, oneShot := s.handles[h].oneShot || oneShot)).(tree := s.tree + {h})
  }

  /** uv__signal_stop. */
  function DoStop(s: State, h: nat): State
    requires h < |s.handles|
  {
    var signum := s.handles[h].signum;
    if signum == 0 then s
    else
      var s1 := s.(tree := s.tree - {h});
      var s2 :=
        if s1.NoneWatches(signum) then s1.(dispositions := s.dispositions[signum := Default])
        else if s1.OnlyOneShots(signum) && !s.handles[h].oneShot then s1.(dispositions := s.dispositions[signum := Once])
        else s1;
      SetHandle(s2, h, s.handles[h].(signum := 0))
  }

  /** The first message of the batch is done with, and counted. */
  function Counted(s: State, l: nat): State
    requires l < |s.loops| && s.loops[l].batch != [] && s.loops[l].batch[0].handle < |s.handles|
  {
    var h := s.loops[l].batch[0].handle;
    var s1 := SetLoop(s, l, s.loops[l].(batch := s.loops[l].batch[1..], inCallback := false));
    SetHandle(s1, h, s.handles[h].(dispatched := U32(s.handles[h].dispatched + 1)))
  }

  function Apply(s: State, step: Step): State
    requires Enabled(s, step)
  {
    match step
    case Deliver(signum) =>
      var s1 := s.(waiting := s.waiting + multiset{signum});
      if s.Installed(signum) == Once then s1.(dispositions := s.dispositions[signum := Default]) else s1
    case Acquire(signum) =>
      s.(waiting := s.waiting - multiset{signum},
         lock := Scanning(signum, (set h | h in s.tree && s.Watches(h, signum)), None))
    case Write(h, fits) =>
      if fits then
        var l := s.handles[h].owner;
        SetLoop(s, l, s.loops[l].(pipe := s.loops[l].pipe + [Message(s.lock.signum, h)]))
          .(lock := Scanning(s.lock.signum, s.lock.todo - {h}, Some(h)))
      else s.(lock := Scanning(s.lock.signum, s.lock.todo - {h}, None))
    case Count =>
      var h := s.lock.mid.value;
      SetHandle(s, h, s.handles[h].(caught := U32(s.handles[h].caught + 1))).(lock := s.lock.(mid := None))
    case Release => s.(lock := Free)
    case Start(h, signum, oneShot, valid) => DoStart(s, h, signum, oneShot, valid)
    case Stop(h) => DoStop(s, h)
    case Close(h) => SetHandle(DoStop(s, h), h, DoStop(s, h).handles[h].(closing := true))
    case Read(l, n) => SetLoop(s, l, s.loops[l].(batch := s.loops[l].pipe[..n], pipe := s.loops[l].pipe[n..]))
    case Call(l) => SetLoop(s, l, s.loops[l].(inCallback := true))
    case Dispatched(l) =>
      var h := s.loops[l].batch[0].handle;
      if s.handles[h].oneShot then DoStop(Counted(s, l), h) else Counted(s, l)
    case FinishClose(h) =>
      if s.handles[h].caught > s.handles[h].dispatched then s // back into the queue of closing handles
      else SetHandle(s, h, s.handles[h].(finished := true))
  }

  /** A pipe holds far fewer messages than an unsigned int can count. */
  predicate Initial(s: State) {
    && s.capacity + 32 <= UINT_MAX
    && (forall h :: 0 <= h < |s.handles| ==>
          && s.handles[h].owner < |s.loops| && s.handles[h].signum == 0 && s.handles[h].caught == 0
          && s.handles[h].dispatched == 0 && !s.handles[h].closing && !s.handles[h].finished)
    && s.tree == {} && s.waiting == multiset{} && s.lock == Free && s.dispositions == map[]
    && (forall l :: 0 <= l < |s.loops| ==> s.loops[l] == Loop([], [], false))
  }

  // ---------- Accounting ----------

  function Naming(ms: seq<Message>, h: nat): nat {
    if ms == [] then 0 else (if ms[0].handle == h then 1 else 0) + Naming(ms[1..], h)
  }

  /** Messages that are under way to the handle. */
  function UnderWay(s: State, h: nat): nat
    requires h < |s.handles| && s.handles[h].owner < |s.loops|
  {
    Naming(s.loops[s.handles[h].owner].batch, h) + Naming(s.loops[s.handles[h].owner].pipe, h)
  }

  function Uncounted(s: State, h: nat): nat {
    if s.lock.Scanning? && s.lock.mid == Some(h) then 1 else 0
  }

  /** What is caught, or written and about to be, is what is dispatched or under way: modulo two to the thirty-second. */
  predicate Balanced(s: State, h: nat)
    requires h < |s.handles| && s.handles[h].owner < |s.loops|
  {
    && s.handles[h].caught <= UINT_MAX && s.handles[h].dispatched <= UINT_MAX
    && U32(s.handles[h].caught + Uncounted(s, h)) == U32(s.handles[h].dispatched + UnderWay(s, h))
  }

  lemma WrapTwice(a: nat, b: nat)
    ensures U32(U32(a) + b) == U32(a + b)
  {}

  lemma WrapNext(a: nat, b: nat)
    requires U32(a) == U32(b)
    ensures U32(a + 1) == U32(b + 1)
  {}

  /** Every message names a handle of the loop whose pipe it is in, and a real signal. */
  predicate Routed(s: State, ms: seq<Message>, l: nat) {
    forall i :: 0 <= i < |ms| ==> ms[i].signum != 0 && ms[i].handle < |s.handles| && s.handles[ms[i].handle].owner == l
  }

  predicate Scanners(s: State) {
    s.lock.Scanning? ==>
      && s.lock.signum != 0
      && (forall h :: h in s.lock.todo ==> h in s.tree)
      && (s.lock.mid.Some? ==> s.lock.mid.value in s.tree && s.lock.mid.value !in s.lock.todo)
  }

  predicate Handles(s: State)
    requires Valid(s)
  {
    forall h :: 0 <= h < |s.handles| ==>
      && (h in s.tree <==> s.handles[h].signum != 0)
      && (s.handles[h].closing ==> s.handles[h].signum == 0)
      && (s.handles[h].finished ==> s.handles[h].closing)
  }

  /** A handle that is not one-shot keeps the handler installed for good. */
  predicate Armed(s: State)
    requires Valid(s)
  {
    forall h :: h in s.tree && !s.handles[h].oneShot ==> s.Installed(s.handles[h].signum) == Regular
  }

  predicate Bounded(s: State) {
    && s.capacity + 32 <= UINT_MAX
    && forall l :: 0 <= l < |s.loops| ==> |s.loops[l].pipe| <= s.capacity && |s.loops[l].batch| <= 32
  }

  predicate Inv(s: State) {
    && Valid(s) && Scanners(s) && Handles(s) && Armed(s)
    && (forall h :: 0 <= h < |s.handles| ==> Balanced(s, h))
    && (forall l :: 0 <= l < |s.loops| ==> Routed(s, s.loops[l].pipe, l) && Routed(s, s.loops[l].batch, l))
    && 0 !in s.waiting && s.Installed(0) == Default && Bounded(s)
  }

  lemma {:induction false} NamingConcat(a: seq<Message>, b: seq<Message>, h: nat)
    ensures Naming(a + b, h) == Naming(a, h) + Naming(b, h)
  {
    if a == [] {
      assert a + b == b;
    } else {
      assert (a + b)[1..] == a[1..] + b;
      NamingConcat(a[1..], b, h);
    }
  }

  lemma {:induction false} NamingNone(ms: seq<Message>, h: nat)
    ensures Naming(ms, h) == 0 <==> forall i :: 0 <= i < |ms| ==> ms[i].handle != h
  {
    if ms != [] {
      NamingNone(ms[1..], h);
      assert forall i :: 1 <= i < |ms| ==> ms[i] == ms[1..][i - 1];
    }
  }

  predicate Books(s: State) {
    && Valid(s)
    && (forall h :: 0 <= h < |s.handles| ==> Balanced(s, h))
    && (forall l :: 0 <= l < |s.loops| ==> Routed(s, s.loops[l].pipe, l) && Routed(s, s.loops[l].batch, l))
  }

  /** A step that writes, reads and counts no message leaves the books as they are. */
  predicate SameBooks(s: State, s': State) {
    && |s'.handles| == |s.handles| && |s'.loops| == |s.loops| && Valid(s')
    && (forall h :: 0 <= h < |s.handles| ==>
          && s'.handles[h].owner == s.handles[h].owner && s'.handles[h].caught == s.handles[h].caught
          && s'.handles[h].dispatched == s.handles[h].dispatched)
    && (forall h :: 0 <= h < |s.handles| ==> Uncounted(s', h) == Uncounted(s, h))
    && (forall l :: 0 <= l < |s.loops| ==> s'.loops[l].pipe == s.loops[l].pipe && s'.loops[l].batch == s.loops[l].batch)
  }

  lemma BooksStay(s: State, s': State)
    requires Books(s) && SameBooks(s, s')
    ensures Books(s') && forall h :: 0 <= h < |s.handles| ==> UnderWay(s', h) == UnderWay(s, h)
  {
    forall h | 0 <= h < |s.handles| ensures Balanced(s', h) && UnderWay(s', h) == UnderWay(s, h) {
      assert Balanced(s, h);
    }
  }

  // ---------- The handler ----------

  lemma DeliverKeeps(s: State, signum: nat)
    requires Inv(s) && Enabled(s, Deliver(signum))
    ensures Inv(Apply(s, Deliver(signum)))
  {
    hide UnderWay, Balanced, Routed;
    BooksStay(s, Apply(s, Deliver(signum)));
  }

  lemma AcquireKeeps(s: State, signum: nat)
    requires Inv(s) && Enabled(s, Acquire(signum))
    ensures Inv(Apply(s, Acquire(signum)))
  {
    hide UnderWay, Balanced, Routed;
    BooksStay(s, Apply(s, Acquire(signum)));
  }

  lemma WriteKeeps(s: State, h: nat, fits: bool)
    requires Inv(s) && Enabled(s, Write(h, fits))
    ensures Inv(Apply(s, Write(h, fits)))
  {
    hide Naming, U32;
    var s' := Apply(s, Write(h, fits));
    forall k | 0 <= k < |s.handles| ensures Balanced(s', k) {
      assert Balanced(s, k);
      var l := s.handles[h].owner;
      NamingConcat(s.loops[l].pipe, [Message(s.lock.signum, h)], k);
      NamingOne(Message(s.lock.signum, h), k);
      WrapNext(s.handles[k].caught + Uncounted(s, k), s.handles[k].dispatched + UnderWay(s, k));
    }
  }

  lemma NamingOne(m: Message, h: nat)
    ensures Naming([m], h) == if m.handle == h then 1 else 0
  {
    assert [m][1..] == [];
  }

  lemma CountKeeps(s: State)
    requires Inv(s) && Enabled(s, Count)
    ensures Inv(Apply(s, Count))
  {
    hide Naming, U32;
    var s' := Apply(s, Count);
    forall k | 0 <= k < |s.handles| ensures Balanced(s', k) {
      assert Balanced(s, k);
      WrapTwice(s.handles[k].caught + 1, 0);
    }
  }

  lemma ReleaseKeeps(s: State)
    requires Inv(s) && Enabled(s, Release)
    ensures Inv(Apply(s, Release))
  {
    hide UnderWay, Balanced, Routed;
    BooksStay(s, Apply(s, Release));
  }

  // ---------- Starting, stopping, closing ----------

  lemma StartKeeps(s: State, h: nat, signum: nat, oneShot: bool, valid: bool)
    requires Inv(s) && Enabled(s, Start(h, signum, oneShot, valid))
    ensures Inv(Apply(s, Start(h, signum, oneShot, valid)))
  {
    hide UnderWay, Balanced, Routed;
    BooksStay(s, Apply(s, Start(h, signum, oneShot, valid)));
  }

  lemma StopKeeps(s: State, h: nat)
    requires Inv(s) && h < |s.handles| && (s.handles[h].signum != 0 ==> s.lock.Free?)
    ensures Inv(DoStop(s, h))
  {
    hide UnderWay, Balanced, Routed;
    BooksStay(s, DoStop(s, h));
  }

  lemma CloseKeeps(s: State, h: nat)
    requires Inv(s) && Enabled(s, Close(h))
    ensures Inv(Apply(s, Close(h)))
  {
    StopKeeps(s, h);
    Stopped(s, h);
    hide UnderWay, Balanced, Routed, DoStop;
    BooksStay(DoStop(s, h), Apply(s, Close(h)));
  }

  lemma Stopped(s: State, h: nat)
    requires h < |s.handles|
    ensures var s1 := DoStop(s, h);
            && |s1.handles| == |s.handles| && s1.handles == s.handles[h := s.handles[h].(signum := 0)]
            && s1.loops == s.loops && s1.lock == s.lock && s1.waiting == s.waiting
  {}

  // ---------- The loop ----------

  lemma ReadKeeps(s: State, l: nat, n: nat)
    requires Inv(s) && Enabled(s, Read(l, n))
    ensures Inv(Apply(s, Read(l, n)))
  {
    hide Naming, U32;
    var s' := Apply(s, Read(l, n));
    var pipe := s.loops[l].pipe;
    assert pipe == pipe[..n] + pipe[n..];
    forall k | 0 <= k < |s.handles| ensures Balanced(s', k) {
      assert Balanced(s, k);
      NamingConcat(pipe[..n], pipe[n..], k);
      NamingNone([], k);
    }
  }

  lemma CallKeeps(s: State, l: nat)
    requires Inv(s) && Enabled(s, Call(l))
    ensures Inv(Apply(s, Call(l)))
  {
    hide UnderWay, Balanced, Routed;
    BooksStay(s, Apply(s, Call(l)));
  }

  lemma CountDispatch(s: State, l: nat)
    requires Inv(s) && Enabled(s, Dispatched(l))
    ensures Inv(Counted(s, l))
  {
    hide Naming, U32;
    var m, rest, s2 := s.loops[l].batch[0], s.loops[l].batch[1..], Counted(s, l);
    assert s.loops[l].batch == [m] + rest;
    forall k | 0 <= k < |s.handles| ensures Balanced(s2, k) {
      assert Balanced(s, k);
      NamingConcat([m], rest, k);
      NamingOne(m, k);
      WrapTwice(s.handles[k].dispatched + 1, UnderWay(s2, k));
    }
  }

  lemma DispatchedKeeps(s: State, l: nat)
    requires Inv(s) && Enabled(s, Dispatched(l))
    ensures Inv(Apply(s, Dispatched(l)))
  {
    hide Naming, DoStop;
    CountDispatch(s, l);
    var h := s.loops[l].batch[0].handle;
    if s.handles[h].oneShot {
      StopKeeps(Counted(s, l), h);
    }
  }

  lemma FinishCloseKeeps(s: State, h: nat)
    requires Inv(s) && Enabled(s, FinishClose(h))
    ensures Inv(Apply(s, FinishClose(h)))
  {
    assert Balanced(s, h);
    hide UnderWay, Balanced, Routed;
    BooksStay(s, Apply(s, FinishClose(h)));
  }

  lemma StepKeeps(s: State, step: Step)
    requires Inv(s) && Enabled(s, step)
    ensures Inv(Apply(s, step))
  {
    match step
    case Deliver(signum) => DeliverKeeps(s, signum);
    case Acquire(signum) => AcquireKeeps(s, signum);
    case Write(h, fits) => WriteKeeps(s, h, fits);
    case Count => CountKeeps(s);
    case Release => ReleaseKeeps(s);
    case Start(h, signum, oneShot, valid) => StartKeeps(s, h, signum, oneShot, valid);
    case Stop(h) => StopKeeps(s, h);
    case Close(h) => CloseKeeps(s, h);
    case Read(l, n) => ReadKeeps(s, l, n);
    case Call(l) => CallKeeps(s, l);
    case Dispatched(l) => DispatchedKeeps(s, l);
    case FinishClose(h) => FinishCloseKeeps(s, h);
  }

  // ---------- Runs ----------

  ghost predicate IsRun(states: seq<State>, steps: seq<Step>) {
    && |states| == |steps| + 1
    && Initial(states[0])
    && forall i :: 0 <= i < |steps| ==> Enabled(states[i], steps[i]) && states[i + 1] == Apply(states[i], steps[i])
  }

  lemma {:induction false} EveryState(states: seq<State>, steps: seq<Step>, i: nat)
    requires IsRun(states, steps) && i < |states|
    ensures Inv(states[i])
  {
    hide Inv, Enabled, Apply;
    if i == 0 {
      InitialKeeps(states[0]);
    } else {
      EveryState(states, steps, i - 1);
      StepKeeps(states[i - 1], steps[i - 1]);
    }
  }

  lemma InitialKeeps(s: State)
    requires Initial(s)
    ensures Inv(s)
  {}

  // ---------- What holds in every run ----------

  /**
   * Caught signals, plus one for a handler between its write and its count, are those
   * dispatched and those under way, as far as 32-bit counters can tell.
   */
  lemma Accounting(states: seq<State>, steps: seq<Step>, i: nat, h: nat)
    requires IsRun(states, steps) && i < |states| && h < |states[i].handles|
    ensures states[i].handles[h].owner < |states[i].loops|
    ensures U32(states[i].handles[h].caught + Uncounted(states[i], h)) == U32(states[i].handles[h].dispatched + UnderWay(states[i], h))
    ensures states[i].handles[h].closing ==> Uncounted(states[i], h) == 0
  {
    EveryState(states, steps, i);
    assert Balanced(states[i], h);
  }

  /** No message of any loop names the handle. */
  predicate Unnamed(s: State, h: nat) {
    forall l :: 0 <= l < |s.loops| ==> Naming(s.loops[l].pipe, h) == 0 && Naming(s.loops[l].batch, h) == 0
  }

  lemma UnderWayUnnamed(s: State, h: nat)
    requires Inv(s) && h < |s.handles|
    ensures UnderWay(s, h) == 0 <==> Unnamed(s, h)
  {
    forall l | 0 <= l < |s.loops| && l != s.handles[h].owner
      ensures Naming(s.loops[l].pipe, h) == 0 && Naming(s.loops[l].batch, h) == 0
    {
      assert Routed(s, s.loops[l].pipe, l) && Routed(s, s.loops[l].batch, l);
      NamingNone(s.loops[l].pipe, h);
      NamingNone(s.loops[l].batch, h);
    }
  }

  lemma {:induction false} NamingFew(ms: seq<Message>, h: nat)
    ensures Naming(ms, h) <= |ms|
  {
    if ms != [] {
      NamingFew(ms[1..], h);
    }
  }

  /** What the counters of a closing handle tell: they are equal exactly if no message names it. */
  lemma Compare(s: State, h: nat)
    requires Inv(s) && h < |s.handles| && s.handles[h].closing
    ensures s.handles[h].caught == s.handles[h].dispatched <==> Unnamed(s, h)
    ensures s.handles[h].caught < s.handles[h].dispatched <==> s.handles[h].dispatched + UnderWay(s, h) > UINT_MAX
  {
    hide Naming, Routed, Unnamed, Armed;
    UnderWayUnnamed(s, h);
    assert Balanced(s, h) && Uncounted(s, h) == 0;
    var loop := s.loops[s.handles[h].owner];
    NamingFew(loop.batch, h);
    NamingFew(loop.pipe, h);
    CompareWrapped(s.handles[h].caught, s.handles[h].dispatched, UnderWay(s, h));
  }

  lemma CompareWrapped(caught: nat, dispatched: nat, n: nat)
    requires caught <= UINT_MAX && dispatched <= UINT_MAX && n <= UINT_MAX && U32(caught) == U32(dispatched + n)
    ensures caught == dispatched <==> n == 0
    ensures caught < dispatched <==> dispatched + n > UINT_MAX
  {}

  /**
   * uv__finish_close lets a handle go if no message anywhere names it, and also, wrongly,
   * if `caught` has wrapped and `dispatched` has not: its decision is right exactly if the
   * first counter is not below the second.
   */
  lemma FinishExact(states: seq<State>, steps: seq<Step>, i: nat, h: nat)
    requires IsRun(states, steps) && i < |steps| && steps[i] == FinishClose(h)
    ensures h < |states[i].handles| == |states[i + 1].handles|
    ensures states[i + 1].handles[h].finished <==> Unnamed(states[i], h) || states[i].handles[h].caught < states[i].handles[h].dispatched
    ensures (states[i + 1].handles[h].finished <==> Unnamed(states[i], h)) <==> states[i].handles[h].caught >= states[i].handles[h].dispatched
  {
    EveryState(states, steps, i);
    hide Inv, Unnamed;
    assert states[i + 1] == Apply(states[i], steps[i]);
    Compare(states[i], h);
  }

  /** h is closing, nothing names it, and if it was finished it stays so. */
  predicate ClosedOff(s: State, h: nat, finished: bool) {
    && h < |s.handles| && s.handles[h].closing && s.handles[h].owner < |s.loops|
    && UnderWay(s, h) == 0 && (finished ==> s.handles[h].finished)
  }

  lemma ClosingMessages(s: State, step: Step, h: nat)
    requires Inv(s) && Enabled(s, step) && h < |s.handles| && ClosedOff(s, h, s.handles[h].finished)
    requires step.Write? || step.Read? || step.Dispatched?
    ensures ClosedOff(Apply(s, step), h, s.handles[h].finished)
  {
    hide Naming, Routed, Armed, Balanced, U32, Bounded, DoStop;
    match step {
      case Write(k, fits) =>
        NamingConcat(s.loops[s.handles[k].owner].pipe, [Message(s.lock.signum, k)], h);
        NamingOne(Message(s.lock.signum, k), h);
      case Read(l, n) =>
        assert s.loops[l].pipe == s.loops[l].pipe[..n] + s.loops[l].pipe[n..];
        NamingConcat(s.loops[l].pipe[..n], s.loops[l].pipe[n..], h);
      case Dispatched(l) =>
        var m, rest := s.loops[l].batch[0], s.loops[l].batch[1..];
        assert s.loops[l].batch == [m] + rest;
        NamingConcat([m], rest, h);
        Stopped(Counted(s, l), m.handle);
    }
  }

  /** A handle that is closing, and that no message names, is never named again. */
  lemma ClosingStep(s: State, step: Step, h: nat)
    requires Inv(s) && Enabled(s, step) && h < |s.handles| && ClosedOff(s, h, s.handles[h].finished)
    ensures ClosedOff(Apply(s, step), h, s.handles[h].finished)
  {
    hide Naming, Routed, Armed, Balanced, U32, Bounded, DoStop;
    if step.Write? || step.Read? || step.Dispatched? {
      ClosingMessages(s, step, h);
    } else if step.Stop? || step.Close? {
      Stopped(s, step.h);
    }
  }

  lemma {:induction false} StaysUnnamed(states: seq<State>, steps: seq<Step>, i: nat, j: nat, h: nat)
    requires IsRun(states, steps) && i <= j < |states| && h < |states[i].handles|
    requires states[i].handles[h].closing && Unnamed(states[i], h)
    ensures h < |states[j].handles| && states[j].handles[h].closing && Unnamed(states[j], h) && h !in states[j].tree
    ensures states[i].handles[h].finished ==> states[j].handles[h].finished
    decreases j
  {
    hide Apply, Enabled, UnderWay, Balanced, Routed, Unnamed, Armed;
    EveryState(states, steps, j);
    if i < j {
      StaysUnnamed(states, steps, i, j - 1, h);
      EveryState(states, steps, j - 1);
      UnderWayUnnamed(states[j - 1], h);
      assert states[j - 1 + 1] == Apply(states[j - 1], steps[j - 1]);
      ClosingStep(states[j - 1], steps[j - 1], h);
    }
    UnderWayUnnamed(states[j], h);
  }

  /**
   * The memory of a handle is never reached through a pipe again once it was let go,
   * exactly if it was let go while the two counters did not straddle a wrap.
   */
  lemma CloseIsSafe(states: seq<State>, steps: seq<Step>, i: nat, h: nat)
    requires IsRun(states, steps) && i < |steps| && steps[i] == FinishClose(h)
    requires h < |states[i + 1].handles| && states[i + 1].handles[h].finished
    ensures h < |states[i].handles|
    ensures (forall j :: i < j < |states| ==> Unnamed(states[j], h) && h !in states[j].tree)
       <==> states[i].handles[h].caught >= states[i].handles[h].dispatched
  {
    FinishExact(states, steps, i, h);
    assert states[i + 1] == Apply(states[i], steps[i]) && Enabled(states[i], steps[i]);
    assert Unnamed(states[i + 1], h) <==> Unnamed(states[i], h);
    if states[i].handles[h].caught >= states[i].handles[h].dispatched {
      hide IsRun, Unnamed;
      forall j | i < j < |states| ensures Unnamed(states[j], h) && h !in states[j].tree {
        StaysUnnamed(states, steps, i + 1, j, h);
      }
    }
  }

  /** A signal callback runs only for a handle that watches that signal and is not being closed. */
  lemma CallbackOfAnOpenHandle(states: seq<State>, steps: seq<Step>, i: nat, l: nat)
    requires IsRun(states, steps) && i < |steps| && steps[i] == Call(l)
    ensures var s := states[i];
            && l < |s.loops| && s.loops[l].batch != [] && s.loops[l].batch[0].handle < |s.handles|
            && var h := s.loops[l].batch[0].handle;
               s.handles[h].owner == l && !s.handles[h].closing && s.handles[h].signum == s.loops[l].batch[0].signum != 0
  {
    EveryState(states, steps, i);
    assert Routed(states[i], states[i].loops[l].batch, l);
  }

  /** While a handle that is not one-shot watches a signal, the handler stays installed for every delivery. */
  lemma RegularStaysInstalled(states: seq<State>, steps: seq<Step>, i: nat, h: nat)
    requires IsRun(states, steps) && i < |states| && h < |states[i].handles|
    ensures states[i].handles[h].signum != 0 && !states[i].handles[h].oneShot ==>
              states[i].Installed(states[i].handles[h].signum) == Regular
  {
    EveryState(states, steps, i);
  }

  // ---------- What is installed ----------

  /**
   * Starting a handle installs the handler if nobody watched the signal, for one delivery if
   * the handle is one-shot, and for all if it is not; a handle that is not one-shot also
   * does so if only one-shots watched. Otherwise, and for other signals, nothing changes.
   */
  lemma StartInstalls(s: State, h: nat, signum: nat, oneShot: bool, valid: bool, other: nat)
    requires Enabled(s, Start(h, signum, oneShot, valid)) && Valid(s)
    ensures var s' := Apply(s, Start(h, signum, oneShot, valid));
            var none := forall k :: k in s.tree ==> s.handles[k].signum != signum;
            var onlyOneShots := forall k :: k in s.tree && s.handles[k].signum == signum ==> s.handles[k].oneShot;
            && s'.Installed(signum) == (if valid && (none || (!oneShot && onlyOneShots)) then (if oneShot then Once else Regular)
                                        else s.Installed(signum))
            && (h in s'.tree <==> h in s.tree || valid || !(none || (!oneShot && onlyOneShots)))
            && (other != signum ==> s'.Installed(other) == s.Installed(other))
  {
  }

  /**
   * Stopping the last handle of a signal restores the default; when the last one that is not
   * one-shot stops, the handler stays for one delivery. Otherwise nothing changes.
   */
  lemma StopInstalls(s: State, h: nat, other: nat)
    requires Enabled(s, Stop(h)) && Valid(s) && s.handles[h].signum != 0
    ensures var s', signum := Apply(s, Stop(h)), s.handles[h].signum;
            var none := forall k :: k in s.tree && k != h ==> s.handles[k].signum != signum;
            var onlyOneShots := forall k :: k in s.tree && k != h && s.handles[k].signum == signum ==> s.handles[k].oneShot;
            && s'.Installed(signum) == (if none then Default else if onlyOneShots && !s.handles[h].oneShot then Once
                                        else s.Installed(signum))
            && h !in s'.tree && (other != signum ==> s'.Installed(other) == s.Installed(other))
  {
    var s1 := s.(tree := s.tree - {h});
    forall k | k in s.tree && k != h
      ensures k in s1.tree && (s1.Watches(k, s.handles[h].signum) <==> s.handles[k].signum == s.handles[h].signum)
    {
    }
    forall k | k in s1.tree ensures k in s.tree && k != h {
    }
  }

  // ---------- Messages ----------

  /**
   * Messages are dispatched in the order in which they were written: what a loop has still
   * to dispatch only grows at its end, by a message that names the signal being handled, and
   * shrinks at its front.
   */
  lemma MessagesInOrder(s: State, step: Step, l: nat)
    requires Enabled(s, step) && l < |s.loops|
    ensures var s' := Apply(s, step);
            && l < |s'.loops|
            && var before, after := s.loops[l].batch + s.loops[l].pipe, s'.loops[l].batch + s'.loops[l].pipe;
               after == if step.Write? && step.fits && s.handles[step.h].owner == l then before + [Message(s.lock.signum, step.h)]
                        else if step == Dispatched(l) then before[1..]
                        else before
  {
    hide State.NoneWatches, State.OnlyOneShots;
    if step == Dispatched(l) {
      assert (s.loops[l].batch + s.loops[l].pipe)[1..] == s.loops[l].batch[1..] + s.loops[l].pipe;
    } else if step.Read? && step.l == l {
      assert s.loops[l].pipe[..step.n] + s.loops[l].pipe[step.n..] == s.loops[l].pipe == [] + s.loops[l].pipe;
    }
  }

  /** A dispatched message is counted, and stops a one-shot handle. */
  lemma DispatchStops(s: State, l: nat)
    requires Enabled(s, Dispatched(l))
    ensures var s', h := Apply(s, Dispatched(l)), s.loops[l].batch[0].handle;
            && h < |s'.handles| && s'.handles[h].dispatched == (s.handles[h].dispatched + 1) % 0x1_0000_0000
            && s'.handles[h].signum == (if s.handles[h].oneShot then 0 else s.handles[h].signum)
            && (s.handles[h].oneShot && s.handles[h].signum != 0 ==> h !in s'.tree)
  {
  }

  // ---------- Nobody is held up ----------

  /** A handler that has the lock can go on, and one that waits for it can have it when it is free. */
  lemma HandlersMove(states: seq<State>, steps: seq<Step>, i: nat, signum: nat)
    requires IsRun(states, steps) && i < |states|
    ensures states[i].lock.Free? && states[i].waiting[signum] > 0 ==> Enabled(states[i], Acquire(signum))
    ensures states[i].lock.Scanning? ==>
              Enabled(states[i], Count) || Enabled(states[i], Release) || exists h :: Enabled(states[i], Write(h, false))
    ensures states[i].Installed(signum) != Default ==> Enabled(states[i], Deliver(signum))
  {
    EveryState(states, steps, i);
    var s := states[i];
    if s.lock.Scanning? && s.lock.mid.None? && s.lock.todo != {} {
      var h :| h in s.lock.todo;
      assert Enabled(s, Write(h, false));
    }
  }

  /** A loop can read what is in its pipe, and go on with what it has read unless it has to wait for the lock. */
  lemma LoopsMove(states: seq<State>, steps: seq<Step>, i: nat, l: nat)
    requires IsRun(states, steps) && i < |states| && l < |states[i].loops|
    ensures var s, loop := states[i], states[i].loops[l];
            if loop.batch == [] then
              forall n: nat :: n <= |loop.pipe| && n <= 32 ==> Enabled(s, Read(l, n))
            else
              s.lock.Free? ==> Enabled(s, Call(l)) || Enabled(s, Dispatched(l))
  {
    EveryState(states, steps, i);
    assert Routed(states[i], states[i].loops[l].batch, l);
  }

  // ---------- What a handler does under the lock ----------

  /** How often, in the steps from i on and before j, a message was written, or tried to be, for h. */
  function Writes(steps: seq<Step>, i: nat, j: nat, h: nat): nat
    requires i <= j <= |steps|
  {
    if i == j then 0
    else Writes(steps, i, j - 1, h) + if steps[j - 1].Write? && steps[j - 1].h == h then 1 else 0
  }

  /** While a handler holds the lock, only its own writes change what it still has to visit. */
  lemma ScanStep(s: State, step: Step)
    requires Enabled(s, step) && s.lock.Scanning? && step != Release
    ensures var s' := Apply(s, step);
            && s'.lock.Scanning? && s'.lock.signum == s.lock.signum
            && (step.Write? ==> step.h in s.lock.todo)
            && s'.lock.todo == s.lock.todo - if step.Write? then {step.h} else {}
  {
    hide Matches;
  }

  lemma {:induction false} ScanSoFar(states: seq<State>, steps: seq<Step>, i: nat, j: nat, h: nat)
    requires IsRun(states, steps) && i <= j < |states| && states[i].lock.Scanning?
    requires forall m :: i <= m < j ==> steps[m] != Release
    ensures states[j].lock.Scanning? && states[j].lock.signum == states[i].lock.signum
    ensures Writes(steps, i, j, h) + (if h in states[j].lock.todo then 1 else 0) == if h in states[i].lock.todo then 1 else 0
    decreases j
  {
    hide Apply, Enabled;
    if i < j {
      ScanSoFar(states, steps, i, j - 1, h);
      assert states[j - 1 + 1] == Apply(states[j - 1], steps[j - 1]);
      ScanStep(states[j - 1], steps[j - 1]);
    }
  }

  /**
   * From the time a handler gets the lock until it releases it, one message is written for
   * each handle that watched its signal then, unless the pipe is full, and none for others.
   */
  lemma ScanIsComplete(states: seq<State>, steps: seq<Step>, i: nat, j: nat, signum: nat, h: nat)
    requires IsRun(states, steps) && i < j < |steps| && steps[i] == Acquire(signum)
    requires steps[j] == Release && forall m :: i < m < j ==> steps[m] != Release
    requires h < |states[i].handles|
    ensures Writes(steps, i + 1, j, h) == if states[i].handles[h].signum == signum then 1 else 0
  {
    EveryState(states, steps, i);
    assert states[i + 1] == Apply(states[i], steps[i]) && Enabled(states[i], steps[i]);
    assert states[i + 1].lock.Scanning?;
    assert h in states[i + 1].lock.todo <==> states[i].handles[h].signum == signum;
    hide Inv;
    ScanSoFar(states, steps, i + 1, j, h);
    assert Enabled(states[j], Release);
  }

  // ---------- A run in which a handle is let go too early ----------

  lemma Extend(states: seq<State>, steps: seq<Step>, step: Step) returns (states': seq<State>, steps': seq<Step>)
    requires IsRun(states, steps) && Enabled(states[|states| - 1], step)
    ensures IsRun(states', steps') && |states'| == |states| + 1
    ensures states'[|states|] == Apply(states[|states| - 1], step)
  {
    hide Apply, Enabled;
    states', steps' := states + [Apply(states[|states| - 1], step)], steps + [step];
    forall i | 0 <= i < |steps'| ensures Enabled(states'[i], steps'[i]) && states'[i + 1] == Apply(states'[i], steps'[i]) {
      if i < |steps| {
        assert states'[i] == states[i] && states'[i + 1] == states[i + 1] && steps'[i] == steps[i];
      }
    }
  }

  /** One handle that watches signal 2, with its counters, and the state of its loop. */
  function OneHandle(caught: nat, dispatched: nat, loop: Loop, lock: Lock, waiting: multiset<nat>): State {
    State([Handle(0, 2, false, U32(caught), U32(dispatched), false, false)], {0}, map[2 := Regular], waiting, lock, [loop], 1)
  }

  /** A signal is delivered and caught. */
  lemma CatchOne(states: seq<State>, steps: seq<Step>, n: nat) returns (states': seq<State>, steps': seq<Step>)
    requires IsRun(states, steps) && states[|states| - 1] == OneHandle(n, n, Loop([], [], false), Free, multiset{})
    ensures IsRun(states', steps') && |states'| > 0
    ensures states'[|states'| - 1] == OneHandle(n + 1, n, Loop([Message(2, 0)], [], false), Free, multiset{})
  {
    hide IsRun, U32;
    WrapTwice(n, 1);
    var empty, full := Loop([], [], false), Loop([Message(2, 0)], [], false);
    states', steps' := Extend(states, steps, Deliver(2));
    assert states'[|states'| - 1] == OneHandle(n, n, empty, Free, multiset{2});
    var s1 := states'[|states'| - 1];
    assert (set h | h in s1.tree && s1.Watches(h, 2)) == {0} && s1.waiting - multiset{2} == multiset{};
    states', steps' := Extend(states', steps', Acquire(2));
    assert states'[|states'| - 1] == OneHandle(n, n, empty, Scanning(2, {0}, None), multiset{});
    assert {0} - {0} == {} && [] + [Message(2, 0)] == [Message(2, 0)];
    states', steps' := Extend(states', steps', Write(0, true));
    assert states'[|states'| - 1] == OneHandle(n, n, full, Scanning(2, {}, Some(0)), multiset{});
    states', steps' := Extend(states', steps', Count);
    assert states'[|states'| - 1] == OneHandle(n + 1, n, full, Scanning(2, {}, None), multiset{});
    states', steps' := Extend(states', steps', Release);
  }

  /** The loop reads the message and dispatches it. */
  lemma DispatchOne(states: seq<State>, steps: seq<Step>, n: nat) returns (states': seq<State>, steps': seq<Step>)
    requires IsRun(states, steps) && states[|states| - 1] == OneHandle(n + 1, n, Loop([Message(2, 0)], [], false), Free, multiset{})
    ensures IsRun(states', steps') && |states'| > 0
    ensures states'[|states'| - 1] == OneHandle(n + 1, n + 1, Loop([], [], false), Free, multiset{})
  {
    hide IsRun, U32;
    WrapTwice(n, 1);
    assert [Message(2, 0)][..1] == [Message(2, 0)] && [Message(2, 0)][1..] == [];
    states', steps' := Extend(states, steps, Read(0, 1));
    assert states'[|states'| - 1] == OneHandle(n + 1, n, Loop([], [Message(2, 0)], false), Free, multiset{});
    states', steps' := Extend(states', steps', Call(0));
    assert states'[|states'| - 1] == OneHandle(n + 1, n, Loop([], [Message(2, 0)], true), Free, multiset{});
    states', steps' := Extend(states', steps', Dispatched(0));
  }

  /** n signals are caught and dispatched. */
  lemma {:induction false} Busy(n: nat) returns (states: seq<State>, steps: seq<Step>)
    ensures IsRun(states, steps) && |states| > 0
    ensures states[|states| - 1] == OneHandle(n, n, Loop([], [], false), Free, multiset{})
  {
    if n == 0 {
      states := [State([Handle(0, 0, false, 0, 0, false, false)], {}, map[], multiset{}, Free, [Loop([], [], false)], 1)];
      states, steps := Extend(states, [], Start(0, 2, false, true));
    } else {
      states, steps := Busy(n - 1);
      states, steps := CatchOne(states, steps, n - 1);
      states, steps := DispatchOne(states, steps, n - 1);
    }
  }

  /**
   * After 2^32 - 1 signals one more makes `caught` zero. A handle that is closed then is let
   * go at once, with the message that names it still in the pipe.
   */
  lemma LetGoTooEarly()
    ensures exists states: seq<State>, steps: seq<Step> :: IsRun(states, steps) && Dangling(states[|states| - 1])
  {
    var states, steps := BuildDangling();
  }

  /** The only handle has had its close callback, and the pipe still holds a message for it. */
  predicate Dangling(s: State) {
    |s.handles| == 1 && s.handles[0].finished && !Unnamed(s, 0) && s.loops == [Loop([Message(2, 0)], [], false)]
  }

  lemma BuildDangling() returns (states: seq<State>, steps: seq<Step>)
    ensures IsRun(states, steps) && |states| > 0 && Dangling(states[|states| - 1])
  {
    var last := UINT_MAX as nat;
    states, steps := Busy(last);
    states, steps := CatchOne(states, steps, last);
    states, steps := Extend(states, steps, Close(0));
    states, steps := Extend(states, steps, FinishClose(0));
    NamingOne(Message(2, 0), 0);
    assert states[|states| - 1].loops[0].pipe == [Message(2, 0)];
  }
}
