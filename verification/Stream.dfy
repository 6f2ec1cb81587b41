/**
 * The write side of a stream: queueing, partial writes over scatter lists, completion
 * callbacks that may call back into the stream, shutdown, connection and destruction.
 * The kernel and the user are arbitrary: each decision of theirs is a havoc.
 */
module Stream {
  import opened Buffers
  import opened Common
  import opened StreamLedger

  /**
   * The loop of uv__write_req_update: n bytes of the buffers from index on are gone.
   * What is left is exactly the rest of the bytes. The index reaches the end only with
   * the last byte, but not always with it: empty buffers behind the last byte keep the
   * request open, unless one empty buffer was all there was left.
   */
  method Advance(bufs: seq<seq<byte>>, index: nat, n: nat) returns (left: seq<seq<byte>>, at: nat)
    requires index < |bufs| && n <= |Flat(bufs[index..])|
    ensures |left| == |bufs| && index <= at <= |bufs|
    ensures Flat(left[at..]) == Flat(bufs[index..])[n..]
    ensures n == |Flat(bufs[index..])| ==> at > index
    ensures at == |bufs| <==> n == |Flat(bufs[index..])| && (index == |bufs| - 1 || bufs[|bufs| - 1] != [])
  {
    hide Flat;
    left, at := bufs, index;
    var more: nat, first := n, true;
    ghost var all, gone: nat := Flat(bufs[index..]), 0;
    while first || more > 0
      invariant |left| == |bufs| && index <= at <= |bufs| && gone + more == n <= |all|
      invariant forall j :: at < j < |bufs| ==> left[j] == bufs[j]
      invariant Flat(left[at..]) == all[gone..]
      invariant at < |bufs| ==> |left[at]| <= |bufs[at]|
      invariant first ==> at == index && left == bufs && more == n
      invariant !first && n == |all| ==> at > index
      invariant at < |bufs| && (first || left[at] == []) ==> left[at] == bufs[at]
      invariant at == |bufs| ==> more == 0 && !first
      invariant at == |bufs| ==> index == |bufs| - 1 || bufs[|bufs| - 1] != []
      decreases more, first, |bufs| - at
    {
      var len := if more < |left[at]| then more else |left[at]|;
      FlatTake(left, at, len);
      DropDrop(all, gone, len);
      left := left[at := left[at][len..]];
      if |left[at]| == 0 {
        at := at + 1;
      }
      more, gone := more - len, gone + len;
      first := false;
      FlatRest(left, at);
    }
    FlatRest(left, at);
  }

  /** The write side of uv_stream_t. */
  class Stream {
    var queue: seq<Request>      // write_queue
    var completed: seq<Request>  // write_completed_queue
    var size: int                // write_queue_size
    var connecting: bool         // connect_req != NULL
    var delayedError: int
    var shutdownReq: bool        // shutdown_req != NULL
    var writable: bool           // UV_HANDLE_WRITABLE
    var shut: bool               // UV_HANDLE_SHUT
    var closing: bool            // UV_HANDLE_CLOSING; from then on the descriptor is -1
    var closed: bool             // UV_HANDLE_CLOSED
    var pollout: bool            // the watcher waits for POLLOUT
    var fed: bool                // the watcher is in the loop's pending queue
    const blocking: bool         // UV_HANDLE_BLOCKING_WRITES

    // What has happened so far; only specifications read it.
    var submitted: seq<seq<byte>>           // the bytes of every accepted uv_write2
    ghost var finished: seq<Request>        // called back, in that order, as they were just before
    ghost var draining: seq<Request>        // taken by uv__write_callbacks, not called back yet
    ghost var wire: seq<byte>               // all bytes the kernel has taken
    ghost var wireAtShutdown: seq<byte>     // wire when shutdown(2) succeeded
    ghost var stranded: bool                // a connection attempt ended and left a shutdown request with no event
    ghost var asked: nat                    // accepted calls of uv_shutdown
    ghost var answers: seq<int>             // calls of shutdown(2), with what the kernel answered
    ghost var told: seq<int>                // what shutdown callbacks were given

    ghost function Books(): Ledger
      reads this
    {
      Ledger(finished, draining, completed, queue, submitted, wire, size)
    }

    /** An accepted shutdown is pending or its callback has run, once; SHUT means that it was done. */
    ghost predicate ShutdownsTold()
      reads this`asked, this`told, this`answers, this`shutdownReq, this`writable, this`shut
    {
      && asked == |told| + (if shutdownReq then 1 else 0) && asked <= 1 && (writable ==> asked == 0)
      && |answers| <= |told| && (shut <==> |answers| == 1 && answers[0] == 0)
    }

    lemma NoShutdown()
      requires asked == 0 && told == answers == [] && !shutdownReq && !shut
      ensures ShutdownsTold()
    {}

    lemma ToldOnce()
      requires ShutdownsTold()
      ensures |told| == asked - (if shutdownReq then 1 else 0)
      ensures shutdownReq ==> told == answers == [] && !shut
    {}

    /** After a successful shutdown(2) nothing more goes to the kernel. */
    ghost predicate ShutIsFinal()
      reads this`shut, this`writable, this`shutdownReq, this`queue, this`wire, this`wireAtShutdown
    {
      shut ==> !writable && !shutdownReq && queue == [] && wire == wireAtShutdown
    }

    /** Nor does anything after uv_close; each flag goes with those it depends on. */
    ghost predicate Flags()
      reads this
    {
      && delayedError <= 0 && delayedError != UV_EINPROGRESS
      && (shutdownReq ==> !writable)
      && ShutIsFinal()
      && (closing ==> !writable && !pollout && !fed)
      && (closed ==> closing)
      && (connecting ==> completed == [] && !stranded)
      && ShutdownsTold()
    }

    /** No request is stranded: whatever is queued, an event that serves it is armed. */
    ghost predicate QueueArmed()
      reads this
    {
      !closing ==>
        && (connecting ==> pollout || (fed && delayedError < 0))
        && (queue != [] ==> connecting || pollout || fed)
    }

    ghost predicate Armed()
      reads this
    {
      QueueArmed() && (!closing && completed != [] ==> fed)
    }

    /**
     * A shutdown request is not stranded either: it waits for the connection, for what is
     * queued before it, or for an event that will find the queue empty. The exception is a
     * connection attempt that ends with the queue empty: StreamConnect says exactly when.
     */
    ghost predicate ShutdownArmed()
      reads this
    {
      !closing && shutdownReq && !stranded ==> connecting || queue != [] || fed
    }

    /** What user code run inside a callback may change, and what it leaves alone. */
    twostate predicate Continues()
      reads this
    {
      && finished == old(finished) && draining == old(draining)
      && old(submitted) <= submitted && old(wire) <= wire
      && closed == old(closed) && connecting == old(connecting) && delayedError == old(delayedError)
      && shut == old(shut) && wireAtShutdown == old(wireAtShutdown) && stranded == old(stranded)
      && (!old(writable) ==> !writable && shutdownReq == old(shutdownReq))
      && (old(closing) ==> closing && Books() == old(Books()) && shutdownReq == old(shutdownReq))
      && (old(QueueArmed()) ==> QueueArmed())
      && (old(Armed()) ==> Armed())
      && (old(ShutdownArmed()) ==> ShutdownArmed())
      && (!old(writable) && !closing ==> Books() == old(Books()) && fed == old(fed))
    }

    constructor (connecting: bool, delayedError: int, blocking: bool)
      requires delayedError <= 0 && delayedError != UV_EINPROGRESS
      ensures Books() == Empty() && Books().Sound() && Flags() && Armed() && ShutdownArmed()
      ensures !closing && !closed && writable && this.connecting == connecting && this.blocking == blocking
    {
      hide Ledger.Sound, ShutdownsTold;
      queue, completed, size := [], [], 0;
      this.connecting, this.delayedError, this.blocking := connecting, delayedError, blocking;
      shutdownReq, writable, shut, closing, closed := false, true, false, false, false;
      pollout, fed := connecting && delayedError == 0, connecting && delayedError < 0;
      finished, draining, submitted, wire := [], [], [], [];
      wireAtShutdown, stranded := [], false;
      asked, answers, told := 0, [], [];
      new;
      NoShutdown();
      EmptySound();
    }

    // ---------- Writing ----------

    /** uv__try_write: an error, or as many of the offered bytes as the kernel is ready to take. */
    static function TryWrite(offered: nat, reply: int): (n: int)
      ensures n <= offered && (reply < 0 ==> n == reply)
    {
      if reply > offered then offered else reply
    }

    /** uv__write_req_update on the head of the queue. */
    method WriteReqUpdate(n: nat) returns (done: bool)
      requires queue != [] && queue[0].Pending() && n <= |queue[0].Unsent()| <= size
      modifies this`queue, this`size
      ensures queue != [] && queue[1..] == old(queue[1..]) && size == old(size) - n
      ensures Advances(old(queue[0]), n, queue[0]) && |queue[0].bufs| == |old(queue[0]).bufs|
      ensures n == |old(queue[0]).Unsent()| ==> queue[0].writeIndex > old(queue[0]).writeIndex
      ensures done <==> queue[0].writeIndex == |queue[0].bufs|
      ensures done <==> n == |old(queue[0]).Unsent()| &&
                        (old(queue[0]).writeIndex == |old(queue[0]).bufs| - 1
                         || old(queue[0]).bufs[|old(queue[0]).bufs| - 1] != [])
    {
      size := size - n;
      var req := queue[0];
      var left, at := Advance(req.bufs, req.writeIndex, n);
      queue := [req.(bufs := left, writeIndex := at)] + queue[1..];
      done := at == |left|;
    }

    /** uv__write_req_finish on the head of the queue. */
    method WriteReqFinish(error: int)
      requires queue != [] && !queue[0].freed
      modifies this`queue, this`completed, this`fed
      ensures Books() == Finish(old(Books()), error) && fed
    {
      var req := queue[0].(error := error);
      queue := queue[1..];
      if req.error == 0 {
        req := req.(freed := true);
      }
      completed := completed + [req];
      fed := true;
    }

    /** One turn of uv__write: try the head of the queue, and book what the kernel took. */
    method WriteHead(reply: int) returns (n: int, done: bool)
      requires Books().Sound() && Flags() && !closing && !connecting && queue != []
      modifies this`queue, this`completed, this`size, this`wire, this`fed
      ensures Books().Sound() && Flags()
      ensures n == TryWrite(|old(queue[0].Unsent())|, reply)
      ensures Wrote(old(wire), old(queue[0].Unsent()), n, wire)
      ensures old(wire) <= wire && old(completed) <= completed
      ensures done ==> n >= 0 && queue == old(queue[1..]) && fed && |completed| == |old(completed)| + 1
      ensures !done && n >= 0 ==> queue != [] && completed == old(completed) && fed == old(fed)
      ensures !done && n == |old(queue[0].Unsent())| ==>
                queue != [] && |queue[0].bufs| - queue[0].writeIndex < old(|queue[0].bufs| - queue[0].writeIndex)
      ensures n < 0 ==> !done && Books() == old(Books()) && fed == old(fed)
      ensures !done ==> |completed| == |old(completed)|
      ensures queue != [] ==> queue[0].Pending()
    {
      hide Ledger.Sound, Flat, Request.Unsent, Request.Proper, Request.Size, ShutdownsTold;
      HeadPending(Books());
      ghost var before := Books();
      done := false;
      n := TryWrite(|queue[0].Unsent()|, reply);
      if n >= 0 {
        ghost var taken := queue[0].Unsent()[..n];
        done := WriteReqUpdate(n);
        wire := wire + taken;
        assert Books() == Accept(before, n, queue[0]);
        if done {
          AcceptLastSound(before, n, queue[0]);
          WriteReqFinish(0);
        } else {
          AcceptSound(before, n, queue[0]);
        }
      }
      if queue != [] {
        HeadPending(Books());
      }
    }

    /**
     * uv__write. Everything stays booked, and the watcher is armed if something is left.
     * The kernel gives the replies, and once they are used up it takes all it is offered:
     * on a blocking stream the loop keeps trying and ends only if the kernel does not
     * stall forever.
     */
    method Write(replies: seq<int>)
      requires Books().Sound() && Flags() && !closing && !connecting
      modifies this`queue, this`completed, this`size, this`wire, this`pollout, this`fed
      ensures Books().Sound() && Flags()
      ensures old(wire) <= wire && (old(queue) == [] ==> wire == old(wire))
      ensures queue != [] ==> pollout || fed
      ensures old(completed) <= completed && (fed || (completed == old(completed) && !old(fed)))
      ensures |completed| <= |old(completed)| + 33
      ensures blocking && queue != [] ==> |completed| > |old(completed)|
      ensures !old(pollout) && !pollout && queue != [] ==>
                |completed| == |old(completed)| + 33 || (completed != [] && completed[|completed| - 1].error < 0)
      ensures FailsAtOnce(replies) && old(queue) != [] ==> Books() == Finish(old(Books()), replies[0]) && fed && !pollout
      ensures old(queue) == [] ==> Books() == old(Books()) && fed == old(fed)
      ensures old(queue) != [] ==> Served(old(wire), old(queue[0].Unsent()), replies, wire)
    {
      hide Ledger.Sound, Request.Unsent, Finish, ShutdownsTold, Wrote, Served, Flat, Flags;
      var count := 32;
      var k := 0;
      ghost var first, offered := true, if queue == [] then [] else queue[0].Unsent();
      if queue != [] {
        HeadPending(Books());
      }
      while true
        invariant Books().Sound() && Flags() && 0 <= count <= 32 && 0 <= k <= |replies|
        invariant queue != [] ==> queue[0].Pending()
        invariant old(wire) <= wire
        invariant old(completed) <= completed && (fed || (completed == old(completed) && !old(fed)))
        invariant |completed| == |old(completed)| + 32 - count && pollout == old(pollout)
        invariant FailsAtOnce(replies) ==> k == 0 && Books() == old(Books())
        invariant if first then k == 0 && Books() == old(Books()) && fed == old(fed) else old(queue) != [] && Served(old(wire), offered, replies, wire)
        decreases count, |replies| - k, if queue == [] then 0 else |queue[0].bufs| - queue[0].writeIndex
      {
        if queue == [] {
          return;
        }
        ghost var sofar := wire;
        var n, done := WriteHead(if k < |replies| then replies[k] else |queue[0].Unsent()|);
        if first {
          ServedByOne(old(wire), offered, replies, wire);
        } else {
          ServedStays(old(wire), offered, replies, sofar, wire);
        }
        first := false;
        if k < |replies| {
          k := k + 1;
        }
        if n >= 0 {
          if done {
            if count > 0 {
              count := count - 1;
              continue;
            }
            return;
          }
        } else if n != UV_EAGAIN {
          WriteFailed(n);
          return;
        }
        if blocking {
          continue;
        }
        label stalled:
        pollout := true;
        Waits@stalled();
        return;
      }
    }

    /** Waiting for POLLOUT is all that changed. */
    twostate lemma Waits()
      requires old(Flags()) && !closing
      requires unchanged(`queue, `completed, `wire, `connecting, `delayedError, `shutdownReq, `writable, `shut, `closing)
      requires unchanged(`closed, `fed, `wireAtShutdown, `stranded, `asked, `answers, `told)
      ensures Flags()
    {}

    /** What one attempt adds to the wire. */
    static predicate Wrote(before: seq<byte>, offered: seq<byte>, n: int, after: seq<byte>) {
      n <= |offered| && after == if n < 0 then before else before + offered[..n]
    }

    /** What the kernel takes of the bytes that it is offered first. */
    static function Taken(offered: seq<byte>, replies: seq<int>): (taken: seq<byte>)
      ensures taken <= offered
    {
      if replies == [] || replies[0] > |offered| then offered
      else if replies[0] < 0 then [] else offered[..replies[0]]
    }

    /** What was offered first has been tried: as much of it as the kernel took follows on the wire. */
    static predicate Served(before: seq<byte>, offered: seq<byte>, replies: seq<int>, after: seq<byte>) {
      before + Taken(offered, replies) <= after
    }

    static lemma ServedByOne(before: seq<byte>, offered: seq<byte>, replies: seq<int>, after: seq<byte>)
      requires Wrote(before, offered, TryWrite(|offered|, if replies == [] then |offered| else replies[0]), after)
      ensures Served(before, offered, replies, after)
    {}

    static lemma ServedStays(before: seq<byte>, offered: seq<byte>, replies: seq<int>, after: seq<byte>, later: seq<byte>)
      requires Served(before, offered, replies, after) && after <= later
      ensures Served(before, offered, replies, later)
    {}

    /** The kernel's first reply is an error other than UV_EAGAIN. */
    static predicate FailsAtOnce(replies: seq<int>) {
      replies != [] && replies[0] < 0 && replies[0] != UV_EAGAIN
    }

    /** The error exit of uv__write: only the head fails; what it owes is settled by its callback. */
    method WriteFailed(n: int)
      requires Books().Sound() && Flags() && !closing && !connecting && queue != [] && n < 0
      modifies this`queue, this`completed, this`pollout, this`fed
      ensures Books().Sound() && Flags() && Books() == Finish(old(Books()), n)
      ensures completed != [] && completed[|completed| - 1].error == n
      ensures fed && !pollout && old(completed) <= completed && |completed| == |old(completed)| + 1 && wire == old(wire)
    {
      hide Ledger.Sound, Request.Unsent, ShutdownsTold;
      HeadPending(Books());
      FinishSound(Books(), n);
      WriteReqFinish(n);
      pollout := false;
    }

    /** uv__check_before_write. */
    function CheckBeforeWrite(): (err: int)
      reads this
      ensures err == 0 <==> !closing && writable
    {
      if closing then UV_EBADF else if !writable then UV_EPIPE else 0
    }

    /**
     * uv_write2. holds tells whether the source's assertion about blocking streams holds; if
     * it does not, the rest is what a build without assertions does.
     */
    method Write2(bufs: seq<seq<byte>>, replies: seq<int>) returns (r: int, holds: bool)
      requires Books().Sound() && Flags() && bufs != []
      modifies this`queue, this`completed, this`size, this`wire, this`pollout, this`fed, this`submitted
      ensures Books().Sound() && Flags() && Continues()
      ensures r == if old(closing) then UV_EBADF else if !old(writable) then UV_EPIPE else 0
      ensures submitted == if r == 0 then old(submitted) + [Flat(bufs)] else old(submitted)
      ensures r < 0 ==> Books() == old(Books())
      ensures r == 0 ==> (queue != [] ==> connecting || pollout || fed)
      ensures holds <==> !(blocking && r == 0 && !connecting && !old(Books().NothingUnsent()))
      ensures r == 0 && !connecting && old(Books().NothingUnsent()) && FailsAtOnce(replies) ==>
                Books() == Finish(Submit(old(Books()), bufs), replies[0])
    {
      hide Ledger.Sound, Ledger.NothingUnsent, Flat, Fresh, Finish, Wire, Owed;
      hide Request.Size, Request.Unsent, Request.Proper, Request.Pending, Request.Untouched, Request.Accepted;
      holds := true;
      r := CheckBeforeWrite();
      if r < 0 {
        return;
      }
      NothingOwed(Books());
      var emptyQueue := size == 0;
      SubmitSound(Books(), bufs);
      var bytes := CountBufs(bufs);
      queue := queue + [Fresh(|submitted|, bufs)];
      size := size + bytes;
      submitted := submitted + [Flat(bufs)];
      assert Books() == Submit(old(Books()), bufs);
      if connecting {
        // still connecting: stays queued
      } else if emptyQueue {
        Write(replies);
      } else {
        holds := !blocking;
        pollout := true;
      }
    }

    // ---------- Other calls of the user ----------

    /** uv_shutdown: only from a writable stream; the shutdown itself waits for uv__drain. */
    method Shutdown() returns (r: int)
      requires Books().Sound() && Flags()
      modifies this`shutdownReq, this`writable, this`fed, this`asked
      ensures Books().Sound() && Flags() && Continues() && Books() == old(Books())
      ensures asked == old(asked) + (if r == 0 then 1 else 0)
      ensures r == 0 <==> old(writable && !shut && !shutdownReq && !closing)
      ensures r == 0 ==> shutdownReq && !writable
      ensures r != 0 ==> r == UV_ENOTCONN && shutdownReq == old(shutdownReq) && writable == old(writable)
    {
      hide Ledger.Sound;
      if !writable || shut || shutdownReq || closing {
        return UV_ENOTCONN;
      }
      shutdownReq := true;
      writable := false;
      asked := asked + 1;
      if queue == [] {
        fed := true;
      }
      return 0;
    }

    /** uv_close and uv__stream_close: the watcher is taken off the loop and the descriptor is gone. */
    method Close()
      requires Books().Sound() && Flags() && !closing
      modifies this`closing, this`writable, this`pollout, this`fed
      ensures Books().Sound() && Flags() && Continues() && Books() == old(Books()) && closing && Armed()
    {
      hide Ledger.Sound;
      closing := true;
      pollout, fed := false, false;
      writable := false;
    }

    /** Anything a callback of the user may do: any calls, any number of them, in any order. */
    method UserCode()
      requires Books().Sound() && Flags()
      modifies this`queue, this`completed, this`size, this`wire, this`pollout, this`fed, this`submitted
      modifies this`shutdownReq, this`writable, this`closing, this`asked
      ensures Books().Sound() && Flags() && Continues()
    {
      hide Ledger.Sound, Flat, ShutdownsTold;
      var calls: nat := *;
      while calls > 0
        invariant Books().Sound() && Flags() && Continues()
      {
        calls := calls - 1;
        label before:
        var choice: int := *;
        if choice == 0 && !closing {
          Close();
        } else if choice == 1 {
          var r := Shutdown();
        } else {
          var bufs: seq<seq<byte>> := *;
          var replies: seq<int> := *;
          if bufs != [] {
            var r, holds := Write2(bufs, replies);
          }
        }
      }
    }

    // ---------- Completion ----------

    /** uv__stream_flush_write_queue: every queued request ends with the error, in order. */
    method FlushWriteQueue(error: int)
      requires Books().Sound() && error < 0
      modifies this`queue, this`completed
      ensures Books().Sound() && queue == []
      ensures completed == old(completed) + WithError(old(queue), error)
    {
      hide Ledger.Sound;
      while queue != []
        invariant Books().Sound()
        invariant completed + WithError(queue, error) == old(completed) + WithError(old(queue), error)
        decreases |queue|
      {
        HeadPending(Books());
        FinishSound(Books(), error);
        ghost var before := Books();
        var req := queue[0].(error := error);
        assert WithError(queue, error) == [req] + WithError(queue[1..], error);
        assert completed + ([req] + WithError(queue[1..], error)) == (completed + [req]) + WithError(queue[1..], error);
        queue := queue[1..];
        completed := completed + [req];
        assert Books() == Finish(before, error);
      }
      assert WithError([], error) == [];
    }

    /** Callbacks strand no shutdown request, and find nothing else to do once one is pending. */
    twostate predicate LeavesShutdown()
      reads this
    {
      && connecting == old(connecting) && stranded == old(stranded)
      && (old(ShutdownArmed()) ==> ShutdownArmed())
      && (!old(writable) ==> !writable && shutdownReq == old(shutdownReq))
      && (!old(writable) && !closing ==> queue == old(queue) && fed == old(fed))
    }

    /** One turn of uv__write_callbacks: the bytes still owed are written off before the callback runs. */
    method CallBackHead(req: Request)
      requires Books().Sound() && Flags() && Armed() && draining != [] && draining[0] == req
      modifies this`queue, this`completed, this`size, this`wire, this`pollout, this`fed, this`submitted
      modifies this`shutdownReq, this`writable, this`closing, this`asked, this`finished, this`draining
      ensures Books().Sound() && Flags() && Armed()
      ensures draining == old(draining[1..]) && finished == old(finished) + [req]
      ensures old(submitted) <= submitted && old(wire) <= wire
      ensures old(closing) ==> closing && completed == old(completed) && queue == old(queue) && submitted == old(submitted) && wire == old(wire)
      ensures LeavesShutdown()
    {
      hide Ledger.Sound, Request.Unsent, ShutdownsTold;
      CallBackSound(Books());
      if !req.freed {
        assert size >= req.Size();
        size := size - req.Size();
      }
      finished := finished + [req];
      draining := draining[1..];
      assert Books() == CallBack(old(Books()));
      UserCode();
    }

    /** uv__write_callbacks: everything completed so far is called back, in order. */
    method WriteCallbacks()
      requires Books().Sound() && Flags() && draining == [] && QueueArmed()
      modifies this`queue, this`completed, this`size, this`wire, this`pollout, this`fed, this`submitted
      modifies this`shutdownReq, this`writable, this`closing, this`asked, this`finished, this`draining
      ensures Books().Sound() && Flags() && Armed() && draining == []
      ensures finished == old(finished) + old(completed)
      ensures old(submitted) <= submitted && old(wire) <= wire
      ensures old(closing) ==> closing && completed == [] && queue == old(queue) && submitted == old(submitted) && wire == old(wire)
      ensures LeavesShutdown()
      ensures old(completed) == [] ==> Books() == old(Books()) && closing == old(closing) && shutdownReq == old(shutdownReq)
    {
      hide Ledger.Sound, CallBack, Submit, Request.Size, ShutdownsTold;
      if completed == [] {
        assert finished == old(finished) + [];
        return;
      }
      TakeAllSound(Books());
      var pq := completed;
      completed := [];
      draining := pq;
      ghost var all := pq;
      while pq != []
        invariant Books().Sound() && Flags() && Armed() && draining == pq
        invariant finished + pq == old(finished) + all
        invariant old(submitted) <= submitted && old(wire) <= wire
        invariant old(closing) ==> closing && completed == [] && queue == old(queue) && submitted == old(submitted) && wire == old(wire)
        invariant LeavesShutdown()
        decreases |pq|
      {
        ghost var done := finished;
        var req := pq[0];
        assert done + pq == (done + [req]) + pq[1..];
        pq := pq[1..];
        CallBackHead(req);
      }
    }

    /** Flush and callbacks, as a failed connection attempt and the destruction of a stream end. */
    method CancelAll()
      requires Books().Sound() && Flags() && draining == [] && !connecting
      modifies this`queue, this`completed, this`size, this`wire, this`pollout, this`fed, this`submitted
      modifies this`shutdownReq, this`writable, this`closing, this`asked, this`finished, this`draining
      ensures Books().Sound() && Flags() && Armed() && draining == []
      ensures finished == old(finished) + old(completed) + WithError(old(queue), UV_ECANCELED)
      ensures old(submitted) <= submitted && old(wire) <= wire
      ensures old(closing) ==> closing && completed == [] && queue == [] && submitted == old(submitted) && wire == old(wire)
      ensures !old(shutdownReq) ==> ShutdownArmed()
      ensures !old(writable) ==> shutdownReq == old(shutdownReq) && (closing || (queue == [] && fed == old(fed)))
    {
      hide Ledger.Sound, WithError, Ledger.All, Ledger.Over, ShutdownsTold;
      FlushWriteQueue(UV_ECANCELED);
      WriteCallbacks();
    }

    /**
     * uv__drain: shutdown(2) is issued here and nowhere else, with nothing left to write. A
     * pending request ends here, with the kernel's answer, and its callback runs once.
     */
    method Drain(answer: int)
      requires Books().Sound() && Flags() && queue == [] && draining == [] && Armed() && !connecting && answer <= 0
      modifies this`queue, this`completed, this`size, this`wire, this`pollout, this`fed, this`submitted
      modifies this`shutdownReq, this`writable, this`closing, this`asked
      modifies this`shut, this`wireAtShutdown, this`answers, this`told
      ensures Books().Sound() && Flags() && Armed() && ShutdownArmed()
      ensures finished == old(finished) && draining == old(draining)
      ensures old(submitted) <= submitted && old(wire) <= wire
      ensures old(shutdownReq) ==> !shutdownReq
      ensures old(shutdownReq && !closing) ==> old(answers) == old(told) == [] && answers == told == [answer]
      ensures old(shutdownReq && !closing) ==> (shut <==> answer == 0) && (shut ==> wireAtShutdown == old(wire))
      ensures old(shutdownReq && closing) ==> old(told) == answers == [] && told == [UV_ECANCELED]
      ensures !old(shutdownReq) ==> answers == old(answers) && told == old(told) && closing == old(closing)
      ensures old(shut) ==> shut && wireAtShutdown == old(wireAtShutdown)
      ensures old(closing) ==> closing && Books() == old(Books()) && !shutdownReq && shut == old(shut)
      ensures old(!closing && !shutdownReq) ==> !pollout
      ensures old(shutdownReq) && !closing ==> queue == []
    {
      hide Ledger.Sound, ShutdownsTold;
      ToldOnce();
      if !closing {
        pollout := false;
      }
      if !shutdownReq {
        return;
      }
      if closing || !shut {
        EndShutdown(answer);
        UserCode();
      }
    }

    /** uv__drain up to the callback of the request, which is given what told ends with. */
    method EndShutdown(answer: int)
      requires Flags() && shutdownReq && queue == [] && answer <= 0
      modifies this`shutdownReq, this`shut, this`wireAtShutdown, this`answers, this`told
      ensures Flags() && !shutdownReq && told == [if closing then UV_ECANCELED else answer]
      ensures closing ==> shut == old(shut) && answers == []
      ensures !closing ==> answers == [answer] && (shut <==> answer == 0) && (shut ==> wireAtShutdown == wire)
    {
      shutdownReq := false;
      assert told == [] && answers == [];
      var err := 0;
      if closing {
        err := UV_ECANCELED;
      } else {
        err := answer;
        answers := answers + [answer];
        if err == 0 {
          shut := true;
          wireAtShutdown := wire;
        }
      }
      assert [] + [err] == [err];
      told := told + [err];
    }

    // ---------- Events ----------

    /** What a connection attempt ends with: the failure known before, or else what the kernel reports. */
    function ConnectError(error: int): int
      reads this
    {
      if delayedError < 0 then delayedError else error
    }

    /** The part of uv__stream_connect before the connect callback. */
    method EndAttempt(failed: bool)
      requires Flags() && !closing && (pollout || failed)
      modifies this`connecting, this`pollout
      ensures Flags() && !connecting && (pollout <==> !failed && queue != [])
    {
      hide ShutdownsTold, ShutIsFinal;
      connecting := false;
      if failed || queue == [] {
        pollout := false;
      }
    }

    /**
     * uv__stream_connect. An attempt that succeeds leaves a shutdown request without an
     * event exactly if it was pending before, with nothing queued and the watcher no longer
     * in the pending queue. A failed attempt, which flushes the queue, does so exactly if the
     * request was pending before, or by the end of the connect callback, and the watcher
     * was not in the pending queue then: early tells of the callback.
     */
    method StreamConnect(error: int) returns (ghost early: bool)
      requires Books().Sound() && Flags() && !closing && draining == [] && connecting
      requires pollout || delayedError < 0
      modifies this
      ensures Books().Sound() && Flags() && Armed() && ShutdownArmed() && draining == []
      ensures closed == old(closed) && old(finished) <= finished && old(submitted) <= submitted && old(wire) <= wire
      ensures delayedError == 0 && (connecting <==> old(ConnectError(error)) == UV_EINPROGRESS)
      ensures connecting || closing ==> stranded == old(stranded)
      ensures !connecting && !closing && old(ConnectError(error)) >= 0 ==>
                (stranded <==> old(shutdownReq && queue == [] && !fed))
      ensures !connecting && !closing && old(ConnectError(error)) < 0 ==>
                (stranded <==> if old(shutdownReq) then !old(fed) else early)
      ensures stranded ==> shutdownReq && queue == [] && !fed
    {
      hide Ledger.Sound, WithError, Ledger.All, Ledger.Over, ShutdownsTold, ShutIsFinal;
      early := false;
      var err := ConnectError(error);
      delayedError := 0;
      if err == UV_EINPROGRESS {
        return;
      }
      EndAttempt(err < 0);
      UserCode();
      early := shutdownReq && !fed;
      if closing {
        return;
      }
      if err < 0 {
        CancelAll();
      }
      if !closing {
        stranded := shutdownReq && queue == [] && !fed;
      }
    }

    /**
     * uv__stream_io: the watcher reports that the stream can be read (whose callback is
     * user code too), written, or both. An event of the pending queue is a write event
     * that has just been taken off it. error is what a connection attempt has ended with,
     * replies and answer are the kernel's to writes and to shutdown(2).
     */
    method StreamIo(readable: bool, writeable: bool, error: int, replies: seq<int>, answer: int)
      requires Books().Sound() && Flags() && !closing && draining == [] && answer <= 0
      requires Armed() || (writeable && !readable && (connecting ==> pollout || delayedError < 0))
      requires ShutdownArmed() || writeable
      modifies this
      ensures Books().Sound() && Flags() && Armed() && ShutdownArmed() && draining == []
      ensures closed == old(closed) && old(finished) <= finished && old(submitted) <= submitted && old(wire) <= wire
      ensures old(!connecting && queue != []) && writeable && !readable ==>
                Served(old(wire), old(queue[0].Unsent()), replies, wire)
      ensures old(!connecting && shutdownReq) && writeable && !closing ==>
                if queue != [] then shutdownReq else told == [answer] && (shut <==> answer == 0)
    {
      hide Ledger.Sound, ShutdownsTold, Served, Request.Unsent, ShutIsFinal;
      if connecting {
        ghost var early := StreamConnect(error);
        return;
      }
      if readable {
        UserCode();
      }
      if closing {
        return;
      }
      if writeable {
        ServeWrites(replies, answer);
      }
    }

    /** The part of uv__stream_io for a stream that can be written. */
    method ServeWrites(replies: seq<int>, answer: int)
      requires Books().Sound() && Flags() && !closing && !connecting && draining == [] && answer <= 0
      modifies this
      ensures Books().Sound() && Flags() && Armed() && ShutdownArmed() && draining == []
      ensures closed == old(closed) && old(finished) <= finished && old(submitted) <= submitted && old(wire) <= wire
      ensures old(queue) != [] ==> Served(old(wire), old(queue[0].Unsent()), replies, wire)
      ensures old(shutdownReq) && !closing ==>
                if queue != [] then shutdownReq else told == [answer] && (shut <==> answer == 0)
    {
      hide Ledger.Sound, ShutdownsTold, Served, Request.Unsent;
      ghost var before, head := wire, if queue == [] then [] else queue[0].Unsent();
      Write(replies);
      ghost var written := wire;
      WriteCallbacks();
      if queue == [] {
        Drain(answer);
      }
      if old(queue) != [] {
        ServedStays(before, head, replies, written, wire);
      }
    }

    /** The connect callback of a stream that is destroyed before it is connected. */
    method CancelConnect()
      requires Books().Sound() && Flags() && closing
      modifies this`queue, this`completed, this`size, this`wire, this`pollout, this`fed, this`submitted
      modifies this`shutdownReq, this`writable, this`closing, this`asked, this`connecting
      ensures Books().Sound() && Flags() && closing && !connecting
      ensures Books() == old(Books()) && shutdownReq == old(shutdownReq)
    {
      hide Ledger.Sound, ShutdownsTold, ShutIsFinal;
      if connecting {
        UserCode();
        connecting := false;
      }
    }

    /** uv__stream_destroy, once uv__finish_close has marked the handle closed. */
    method Destroy()
      requires Books().Sound() && Flags() && closing && !closed && draining == []
      modifies this
      ensures Books().Sound() && Flags() && closed && closing
      ensures size == 0 && queue == [] && completed == [] && draining == []
      ensures submitted == old(submitted) && wire == old(wire) && |finished| == |submitted|
      ensures finished == old(finished) + old(completed) + WithError(old(queue), UV_ECANCELED)
      ensures !shutdownReq && shut == old(shut) && |told| == asked
    {
      hide Ledger.Sound, ShutdownsTold, ShutIsFinal, WithError, Ledger.All, Ledger.Over;
      closed := true;
      CancelConnect();
      CancelAll();
      Drain(0);
      ToldOnce();
      assert size == 0 by { Settled(Books()); }
      Settled(Books());
    }
  }

  /** The loop takes the watcher off its pending queue and reports a write event. */
  method RunPending(s: Stream)
    requires s.Books().Sound() && s.Flags() && s.Armed() && s.draining == [] && s.fed
    modifies s
    ensures s.Books().Sound() && s.Flags() && s.Armed() && s.ShutdownArmed() && s.draining == []
    ensures s.closed == old(s.closed)
    ensures old(s.finished) <= s.finished && old(s.submitted) <= s.submitted && old(s.wire) <= s.wire
  {
    hide Ledger.Sound;
    s.fed := false;
    var error: int, replies: seq<int> := *, *;
    var answer: int :| answer <= 0;
    s.StreamIo(false, true, error, replies, answer);
  }

  /**
   * Every run of a stream: any calls of the user, any events, any choices of the kernel.
   * At each point the books are sound and nothing accepted is stranded; once the stream
   * is destroyed every accepted request has been called back and nothing is owed.
   */
  method EveryRun(connecting: bool, delayedError: int, blocking: bool) returns (s: Stream)
    requires delayedError <= 0 && delayedError != UV_EINPROGRESS
    ensures fresh(s) && s.Books().Sound() && s.Flags() && s.Armed() && s.ShutdownArmed() && s.draining == []
    ensures s.closed ==> s.size == 0 && |s.finished| == |s.submitted| && |s.told| == s.asked && s.queue == [] && s.completed == []
  {
    hide Ledger.Sound;
    s := new Stream(connecting, delayedError, blocking);
    var events: nat := *;
    while events > 0
      invariant fresh(s) && s.Books().Sound() && s.Flags() && s.Armed() && s.ShutdownArmed() && s.draining == []
      invariant s.closed ==> s.size == 0 && |s.finished| == |s.submitted| && |s.told| == s.asked && s.queue == [] && s.completed == []
    {
      events := events - 1;
      var choice: int := *;
      if s.closed {
        return;
      } else if choice == 0 && s.fed {
        RunPending(s);
      } else if choice == 1 && s.closing {
        s.Destroy();
      } else if choice == 2 && !s.closing {
        var readable: bool := *;
        var writeable: bool := *;
        var error: int, replies: seq<int> := *, *;
        var answer: int :| answer <= 0;
        s.StreamIo(readable, writeable, error, replies, answer);
      } else {
        s.UserCode();
      }
    }
  }

  /**
   * The assertion about blocking streams can fail: a write of one byte that the kernel
   * refuses with UV_EPIPE leaves the size at one until its callback, and the next
   * uv_write2 on the same blocking stream, made before that callback, finds it.
   */
  method BlockingAssertionFails() returns (s: Stream, r: int, holds: bool)
    ensures fresh(s) && s.blocking && r == 0 && !holds
  {
    hide Ledger.Sound, Ledger.NothingUnsent, Submit, Finish, Fresh, Flat, Ledger.All, Ledger.Over;
    s := new Stream(false, 0, true);
    NothingOwed(s.Books());
    r, holds := s.Write2([[1]], [UV_EPIPE]);
    OneByteOwed();
    NothingOwed(s.Books());
    r, holds := s.Write2([[2]], []);
  }

  lemma OneByteOwed()
    ensures Finish(Submit(Empty(), [[1]]), UV_EPIPE).size == 1
  {
    assert Flat([[1]]) == [1] + Flat([[1]][1..]);
  }

  /**
   * A shutdown requested while connecting, with nothing queued, puts the watcher into the
   * pending queue. If that event ends the attempt, the request is left without one, unless
   * the connect callback closes the stream.
   */
  method ShutdownIsStranded() returns (s: Stream)
    ensures fresh(s) && (s.closing || (s.stranded && s.shutdownReq && s.queue == [] && !s.fed && !s.connecting))
  {
    hide Ledger.Sound;
    s := new Stream(true, 0, false);
    var r := s.Shutdown();
    s.fed := false; // the loop takes the watcher off the pending queue
    ghost var early := s.StreamConnect(0);
  }

  /** A full buffer behind which an empty one stands: all bytes are gone, but the request stays open. */
  method EmptyBufferKeepsItOpen() returns (left: seq<seq<byte>>, at: nat)
    ensures at < |left| == 2 && Flat(left[at..]) == []
  {
    var bufs: seq<seq<byte>> := [[1], []];
    assert bufs[0..] == bufs;
    FlatStep(bufs, 0);
    FlatStep(bufs, 1);
    assert bufs[2..] == [];
    assert Flat(bufs) == [1];
    left, at := Advance(bufs, 0, 1);
  }
}
