/**
 * The books of a stream's write queue: where every accepted write request is, what the
 * kernel has taken of it, and what is still owed. Each transition keeps the books sound.
 */
module StreamLedger {
  import opened Buffers
  import opened Common

  // ---------- Requests ----------

  /**
   * uv_write_t. bufs is what is left of the caller's buffers, from writeIndex on;
   * freed says that the C field bufs is NULL. payload is what the caller handed over;
   * only specifications read it, and so is id, the place in submission order.
   */
  datatype Request = Request(id: nat, payload: seq<byte>, bufs: seq<seq<byte>>, writeIndex: nat, freed: bool, error: int)
  {
    function Unsent(): seq<byte> {
      if writeIndex <= |bufs| then Flat(bufs[writeIndex..]) else []
    }

    /** uv__write_req_size, or nothing once bufs is NULL. */
    function Size(): nat {
      if freed then 0 else |Unsent()|
    }

    /** What the kernel has taken: the payload but for the unsent rest. */
    function Accepted(): seq<byte> {
      if Size() <= |payload| then payload[..|payload| - Size()] else []
    }

    /** What is unsent is the tail of the payload. */
    predicate Proper() {
      writeIndex <= |bufs| && Size() <= |payload| && (!freed ==> Unsent() == payload[|payload| - Size()..])
    }

    predicate Pending() {
      !freed && error == 0 && writeIndex < |bufs|
    }

    /** A request is over when all of it was taken, or with an error; only then do buffers stay attached. */
    predicate Settled() {
      freed <==> error == 0
    }

    predicate Untouched() {
      Accepted() == []
    }
  }

  /** A new request: uv_write2 copies the buffers and starts at index 0. */
  function Fresh(id: nat, bufs: seq<seq<byte>>): (r: Request)
    requires bufs != []
    ensures r.Proper() && r.Pending() && r.Untouched() && r.Size() == |Flat(bufs)| && r.payload == Flat(bufs)
  {
    var r := Request(id, Flat(bufs), bufs, 0, false, 0);
    assert bufs[0..] == bufs;
    assert r.payload[..0] == [];
    assert r.payload[0..] == r.payload;
    r
  }

  function Wire(rs: seq<Request>): seq<byte> {
    if rs == [] then [] else rs[0].Accepted() + Wire(rs[1..])
  }

  function Owed(rs: seq<Request>): nat {
    if rs == [] then 0 else rs[0].Size() + Owed(rs[1..])
  }

  lemma {:induction false} WireConcat(a: seq<Request>, b: seq<Request>)
    ensures Wire(a + b) == Wire(a) + Wire(b)
  {
    if a == [] {
      assert a + b == b;
    } else {
      assert (a + b)[1..] == a[1..] + b;
      WireConcat(a[1..], b);
    }
  }

  lemma {:induction false} OwedConcat(a: seq<Request>, b: seq<Request>)
    ensures Owed(a + b) == Owed(a) + Owed(b)
  {
    if a == [] {
      assert a + b == b;
    } else {
      assert (a + b)[1..] == a[1..] + b;
      OwedConcat(a[1..], b);
    }
  }

  lemma {:induction false} UntouchedWire(rs: seq<Request>)
    requires forall i :: 0 <= i < |rs| ==> rs[i].Untouched()
    ensures Wire(rs) == []
  {
    if rs != [] {
      UntouchedWire(rs[1..]);
    }
  }

  // ---------- The books ----------

  /**
   * Requests by where they are: called back; taken by uv__write_callbacks but not called
   * yet; in write_completed_queue; in write_queue. submitted lists the payloads of all
   * accepted uv_write2 calls, wire the bytes the kernel has taken, size is write_queue_size.
   */
  datatype Ledger = Ledger(finished: seq<Request>, draining: seq<Request>, completed: seq<Request>, queue: seq<Request>,
                           submitted: seq<seq<byte>>, wire: seq<byte>, size: int)
  {
    function Over(): seq<Request> {
      finished + draining + completed
    }

    function All(): seq<Request> {
      Over() + queue
    }

    /** Every accepted request is in exactly one place, and the places in a row are the submission order. */
    ghost predicate Numbered() {
      && |All()| == |submitted|
      && forall i :: 0 <= i < |submitted| ==> All()[i].id == i && All()[i].payload == submitted[i] && All()[i].Proper()
    }

    /** Only the head of the write queue can have been served in part. */
    ghost predicate Staged() {
      && (forall i :: 0 <= i < |Over()| ==> Over()[i].Settled())
      && (forall i :: 0 <= i < |queue| ==> queue[i].Pending())
      && (forall i :: 1 <= i < |queue| ==> queue[i].Untouched())
    }

    ghost predicate Sound() {
      && Numbered() && Staged()
      && wire == Wire(All())
      && size == Owed(draining) + Owed(completed) + Owed(queue)
    }

    /** Nothing is unsent: not of a queued request, and not of one that failed and waits for its callback. */
    ghost predicate NothingUnsent() {
      && (forall i :: 0 <= i < |draining| ==> draining[i].Size() == 0)
      && (forall i :: 0 <= i < |completed| ==> completed[i].Size() == 0)
      && (forall i :: 0 <= i < |queue| ==> queue[i].Size() == 0)
    }
  }

  lemma {:induction false} OwedNone(rs: seq<Request>)
    ensures Owed(rs) == 0 <==> forall i :: 0 <= i < |rs| ==> rs[i].Size() == 0
  {
    hide Request.Size;
    if rs != [] {
      OwedNone(rs[1..]);
      assert forall i :: 1 <= i < |rs| ==> rs[i] == rs[1..][i - 1];
      assert forall i :: 0 <= i < |rs[1..]| ==> rs[1..][i] == rs[i + 1];
    }
  }

  /** write_queue_size is zero exactly if no request that is not called back yet has a byte unsent. */
  lemma NothingOwed(l: Ledger)
    requires l.Sound()
    ensures l.size == 0 <==> l.NothingUnsent()
  {
    hide Request.Size, Owed;
    OwedNone(l.draining);
    OwedNone(l.completed);
    OwedNone(l.queue);
  }

  // ---------- Transitions ----------

  /** uv_write2 appends a request. */
  function Submit(l: Ledger, bufs: seq<seq<byte>>): Ledger
    requires bufs != []
  {
    l.(queue := l.queue + [Fresh(|l.submitted|, bufs)], submitted := l.submitted + [Flat(bufs)], size := l.size + |Flat(bufs)|)
  }

  /** The kernel takes the first n unsent bytes of the head, which becomes r. */
  function Accept(l: Ledger, n: nat, r: Request): Ledger
    requires l.queue != [] && n <= |l.queue[0].Unsent()|
  {
    l.(queue := [r] + l.queue[1..], wire := l.wire + l.queue[0].Unsent()[..n], size := l.size - n)
  }

  /** r is the head of the queue but for its place in the buffers, n bytes further. */
  predicate Advances(q: Request, n: nat, r: Request) {
    && n <= |q.Unsent()| && r.id == q.id && r.payload == q.payload && r.freed == q.freed && r.error == q.error
    && r.writeIndex <= |r.bufs| && r.Unsent() == q.Unsent()[n..]
  }

  /** The head leaves the queue for the completed queue, with its buffers freed unless there was an error. */
  function Finish(l: Ledger, error: int): Ledger
    requires l.queue != []
  {
    l.(queue := l.queue[1..], completed := l.completed + [l.queue[0].(error := error, freed := error == 0)])
  }

  /** Requests that all ended with the same error. */
  function WithError(rs: seq<Request>, error: int): (r: seq<Request>)
    ensures |r| == |rs|
  {
    seq(|rs|, i requires 0 <= i < |rs| => rs[i].(error := error))
  }

  /** uv__write_callbacks takes the whole completed queue. */
  function TakeAll(l: Ledger): Ledger {
    l.(draining := l.completed, completed := [])
  }

  /** One callback is about to run: the request's remaining bytes are no longer owed. */
  function CallBack(l: Ledger): Ledger
    requires l.draining != []
  {
    l.(finished := l.finished + [l.draining[0]], draining := l.draining[1..], size := l.size - l.draining[0].Size())
  }

  function Empty(): Ledger {
    Ledger([], [], [], [], [], [], 0)
  }

  // ---------- The transitions keep the books sound ----------

  lemma EmptySound()
    ensures Empty().Sound()
  {
    assert Empty().All() == [];
  }

  lemma SubmitSound(l: Ledger, bufs: seq<seq<byte>>)
    requires l.Sound() && bufs != []
    ensures Submit(l, bufs).Sound()
  {
    hide Ledger.Numbered, Ledger.Staged, Submit, Wire, Owed;
    SubmitNumbered(l, bufs);
    SubmitStaged(l, bufs);
    SubmitBooks(l, bufs);
  }

  lemma SubmitNumbered(l: Ledger, bufs: seq<seq<byte>>)
    requires l.Numbered() && bufs != []
    ensures Submit(l, bufs).Numbered()
  {
    hide Flat, Fresh, Request.Proper;
    FreshIs(|l.submitted|, bufs);
    assert Submit(l, bufs).All() == l.All() + [Fresh(|l.submitted|, bufs)];
  }

  lemma FreshIs(id: nat, bufs: seq<seq<byte>>)
    requires bufs != []
    ensures Fresh(id, bufs).id == id && Fresh(id, bufs).payload == Flat(bufs)
  {}

  lemma SubmitStaged(l: Ledger, bufs: seq<seq<byte>>)
    requires l.Staged() && bufs != []
    ensures Submit(l, bufs).Staged()
  {
    hide Flat, Fresh, Request.Proper, Request.Pending, Request.Untouched, Request.Settled, Request.Size;
    assert Submit(l, bufs).Over() == l.Over();
  }

  lemma SubmitBooks(l: Ledger, bufs: seq<seq<byte>>)
    requires bufs != [] && l.wire == Wire(l.All()) && l.size == Owed(l.draining) + Owed(l.completed) + Owed(l.queue)
    ensures var l' := Submit(l, bufs);
            l'.wire == Wire(l'.All()) && l'.size == Owed(l'.draining) + Owed(l'.completed) + Owed(l'.queue)
  {
    hide Flat, Fresh, Wire, Owed, Request.Proper, Request.Pending, Request.Untouched, Request.Size, Request.Accepted;
    var r := Fresh(|l.submitted|, bufs);
    assert Submit(l, bufs).All() == l.All() + [r];
    WireConcat(l.All(), [r]);
    OwedConcat(l.queue, [r]);
    One(r);
    UntouchedMeans(r);
    assert Wire(l.All()) + [] == Wire(l.All());
  }

  lemma One(r: Request)
    ensures Wire([r]) == r.Accepted() && Owed([r]) == r.Size()
  {
    assert [r][1..] == [];
    assert Wire([r]) == r.Accepted() + [];
  }

  lemma UntouchedMeans(r: Request)
    ensures r.Untouched() <==> r.Accepted() == []
  {}

  lemma AdvanceProper(q: Request, n: nat, r: Request)
    requires q.Proper() && q.Pending() && Advances(q, n, r)
    ensures r.Proper() && r.Accepted() == q.Accepted() + q.Unsent()[..n] && r.Size() == q.Size() - n
  {
    hide Flat, Request.Unsent;
    var k := |q.payload| - |q.Unsent()|;
    assert q.Unsent() == q.payload[k..];
    assert q.payload[k..][n..] == q.payload[k + n..];
    assert q.payload[..k + n] == q.payload[..k] + q.payload[k..][..n];
  }

  lemma AcceptWire(l: Ledger, n: nat, r: Request)
    requires l.Sound() && l.queue != [] && Advances(l.queue[0], n, r)
    ensures Wire(Accept(l, n, r).All()) == l.wire + l.queue[0].Unsent()[..n]
    ensures Owed(Accept(l, n, r).queue) == Owed(l.queue) - n
  {
    hide Flat, Request.Proper, Request.Accepted, Request.Unsent, Request.Size;
    var q := l.queue[0];
    var over, rest := l.Over(), l.queue[1..];
    assert l.All()[|over|] == q;
    AdvanceProper(q, n, r);
    assert l.queue == [q] + rest;
    WireConcat(over, [q] + rest);
    WireConcat(over, [r] + rest);
    WireConcat([q], rest);
    WireConcat([r], rest);
    OwedConcat([q], rest);
    OwedConcat([r], rest);
    One(q);
    One(r);
    forall i | 0 <= i < |rest| ensures rest[i].Untouched() {
      assert rest[i] == l.queue[i + 1];
    }
    UntouchedWire(rest);
    assert Wire(over) + (q.Accepted() + []) == l.wire;
    assert Wire(over) + (r.Accepted() + []) == l.wire + q.Unsent()[..n];
  }

  lemma AcceptSound(l: Ledger, n: nat, r: Request)
    requires l.Sound() && l.queue != [] && Advances(l.queue[0], n, r) && r.writeIndex < |r.bufs|
    ensures Accept(l, n, r).Sound()
  {
    AcceptWire(l, n, r);
    AcceptNumbered(l, n, r);
  }

  lemma AcceptNumbered(l: Ledger, n: nat, r: Request)
    requires l.Sound() && l.queue != [] && Advances(l.queue[0], n, r)
    ensures Accept(l, n, r).Numbered()
    ensures l.queue[0].Pending() && r.Proper()
  {
    hide Flat, Wire, Owed, Request.Proper, Request.Unsent, Request.Size;
    assert l.All()[|l.Over()|] == l.queue[0];
    AdvanceProper(l.queue[0], n, r);
    assert Accept(l, n, r).All() == l.All()[|l.Over()| := r];
  }

  /** All of the head was taken: it is accepted and finished in one go. */
  lemma AcceptLastSound(l: Ledger, n: nat, r: Request)
    requires l.Sound() && l.queue != [] && Advances(l.queue[0], n, r) && r.writeIndex == |r.bufs|
    ensures Finish(Accept(l, n, r), 0).Sound()
  {
    AcceptWire(l, n, r);
    AcceptNumbered(l, n, r);
    assert r.Unsent() == [];
    FinishBooks(Accept(l, n, r), 0);
    FinishStaged(l, Accept(l, n, r), 0);
  }

  /** The head ends with an error; what it still owes stays owed until its callback. */
  lemma FinishSound(l: Ledger, error: int)
    requires l.Sound() && l.queue != [] && error != 0
    ensures Finish(l, error).Sound()
  {
    FinishBooks(l, error);
    FinishStaged(l, l, error);
  }

  lemma FinishPlace(l: Ledger, error: int)
    requires l.queue != []
    ensures var q' := l.queue[0].(error := error, freed := error == 0);
            && |l.Over()| < |l.All()| && l.All()[|l.Over()|] == l.queue[0]
            && Finish(l, error).All() == l.All()[|l.Over()| := q']
            && l.All() == l.Over() + ([l.queue[0]] + l.queue[1..])
            && Finish(l, error).All() == l.Over() + ([q'] + l.queue[1..])
  {
    var q' := l.queue[0].(error := error, freed := error == 0);
    assert l.queue == [l.queue[0]] + l.queue[1..];
    assert Finish(l, error).Over() == l.Over() + [q'];
  }

  lemma FinishBooks(l: Ledger, error: int)
    requires l.Numbered() && l.queue != [] && l.wire == Wire(l.All())
    requires l.size == Owed(l.draining) + Owed(l.completed) + Owed(l.queue)
    requires !l.queue[0].freed && (error == 0 ==> l.queue[0].Unsent() == [])
    ensures var l' := Finish(l, error);
            l'.Numbered() && l'.wire == Wire(l'.All()) && l'.size == Owed(l'.draining) + Owed(l'.completed) + Owed(l'.queue)
  {
    hide Flat, Wire, Owed, Request.Proper, Request.Accepted, Request.Unsent, Request.Size, Ledger.All, Ledger.Over;
    var q, q' := l.queue[0], l.queue[0].(error := error, freed := error == 0);
    FinishPlace(l, error);
    FinishOne(q, error);
    FinishOwed(l, error);
    WireReplace(l.Over(), q, q', l.queue[1..]);
  }

  lemma WireReplace(over: seq<Request>, q: Request, q': Request, rest: seq<Request>)
    requires q.Accepted() == q'.Accepted()
    ensures Wire(over + ([q'] + rest)) == Wire(over + ([q] + rest))
  {
    hide Flat, Wire, Request.Accepted;
    WireConcat(over, [q] + rest);
    WireConcat(over, [q'] + rest);
    WireConcat([q], rest);
    WireConcat([q'], rest);
    One(q);
    One(q');
  }

  lemma FinishOwed(l: Ledger, error: int)
    requires l.queue != [] && l.queue[0].(error := error, freed := error == 0).Size() == l.queue[0].Size()
    ensures Owed(Finish(l, error).completed) + Owed(Finish(l, error).queue) == Owed(l.completed) + Owed(l.queue)
  {
    hide Flat, Wire, Request.Size;
    var q' := l.queue[0].(error := error, freed := error == 0);
    OwedConcat(l.completed, [q']);
    One(q');
  }

  lemma FinishOne(q: Request, error: int)
    requires q.Proper() && !q.freed && (error == 0 ==> q.Unsent() == [])
    ensures var q' := q.(error := error, freed := error == 0);
            q'.Proper() && q'.Size() == q.Size() && q'.Accepted() == q.Accepted() && q'.Settled()
  {}

  lemma FinishStaged(l: Ledger, m: Ledger, error: int)
    requires l.Staged() && l.queue != [] && m.queue != []
    requires m.Over() == l.Over() && m.queue[1..] == l.queue[1..] && m.finished == l.finished && m.draining == l.draining
    ensures Finish(m, error).Staged()
  {
    hide Flat, Wire, Owed, Request.Untouched, Request.Pending;
    var q' := m.queue[0].(error := error, freed := error == 0);
    assert Finish(m, error).Over() == l.Over() + [q'];
    forall i | 0 <= i < |l.queue[1..]| ensures l.queue[1..][i].Pending() && l.queue[1..][i].Untouched() {
      assert l.queue[1..][i] == l.queue[i + 1];
    }
  }

  lemma TakeAllSound(l: Ledger)
    requires l.Sound() && l.draining == []
    ensures TakeAll(l).Sound() && TakeAll(l).All() == l.All()
  {
    hide Flat, Wire, Request.Proper, Request.Untouched, Request.Pending, Request.Settled, Request.Size;
    assert TakeAll(l).Over() == l.Over();
    assert TakeAll(l).All() == l.All();
  }

  lemma CallBackSound(l: Ledger)
    requires l.Sound() && l.draining != []
    ensures CallBack(l).Sound() && CallBack(l).All() == l.All()
    ensures l.size >= l.draining[0].Size()
  {
    hide Flat, Wire, Request.Proper, Request.Untouched, Request.Pending, Request.Settled, Request.Size;
    assert CallBack(l).Over() == l.Over();
    assert CallBack(l).All() == l.All();
  }

  lemma HeadPending(l: Ledger)
    requires l.Sound() && l.queue != []
    ensures l.queue[0].Pending() && l.queue[0].Proper() && |l.queue[0].Unsent()| <= l.size
  {
    assert l.All()[|l.Over()|] == l.queue[0];
  }

  /** With nothing left in any queue, every request was called back and nothing is owed. */
  lemma Settled(l: Ledger)
    requires l.Sound() && l.queue == [] && l.completed == [] && l.draining == []
    ensures l.size == 0 && |l.finished| == |l.submitted|
  {}

  // ---------- What sound books mean ----------

  /**
   * Requests are served in submission order: if the kernel has taken a byte of request j,
   * every earlier request was taken whole or has ended with an error. A request that ended
   * without an error was taken whole.
   */
  lemma InOrder(l: Ledger, i: nat, j: nat)
    requires l.Sound() && i < j < |l.submitted|
    ensures l.All()[j].Accepted() != [] ==> l.All()[i].Accepted() == l.submitted[i] || l.All()[i].error != 0
    ensures i < |l.Over()| && l.All()[i].error == 0 ==> l.All()[i].Accepted() == l.submitted[i]
    ensures l.All()[i].Accepted() <= l.submitted[i]
  {
    hide Flat, Wire, Owed, Request.Unsent;
    assert l.All()[i].Proper();
    if i < |l.Over()| {
      assert l.Over()[i].Settled();
    } else {
      assert l.All()[j] == l.queue[j - |l.Over()|];
    }
  }

  /**
   * Where the bytes of request i stand on the wire: behind those of all requests submitted
   * before it and before those of all later ones, and they are a prefix of its payload.
   */
  lemma PlaceOnTheWire(l: Ledger, i: nat)
    requires l.Sound() && i < |l.submitted|
    ensures var p, r := |Wire(l.All()[..i])|, l.All()[i];
            && p + |r.Accepted()| == |Wire(l.All()[..i + 1])| <= |l.wire|
            && l.wire[p..p + |r.Accepted()|] == r.Accepted() && r.Accepted() <= l.submitted[i]
  {
    hide Flat, Wire, Owed, Request.Unsent, Request.Size, Ledger.All;
    var all := l.All();
    var r := all[i];
    assert r.Proper();
    assert all == all[..i] + ([r] + all[i + 1..]);
    assert all[..i + 1] == all[..i] + [r];
    WireConcat(all[..i], [r]);
    WireConcat(all[..i], [r] + all[i + 1..]);
    WireConcat([r], all[i + 1..]);
    One(r);
  }

  /**
   * When the only request fails, the write queue is empty but the size is still what the
   * request did not send, until its callback.
   */
  lemma FailedWriteStaysOwed(l: Ledger, error: int)
    requires l.Sound() && |l.queue| == 1 && l.completed == [] && l.draining == [] && error != 0
    ensures var l' := Finish(l, error);
            && l'.Sound() && l'.queue == [] && l'.size == |l.queue[0].Unsent()|
            && CallBack(TakeAll(l')).size == 0
  {
    hide Request.Unsent;
    var l' := Finish(l, error);
    FinishSound(l, error);
    HeadPending(l);
    One(l.queue[0]);
    assert l.queue == [l.queue[0]];
    assert TakeAll(l').draining[1..] == [];
    assert TakeAll(l').draining[0].Size() == l.queue[0].Size();
  }
}
