/**
 * The reader of an IPC pipe: a resumable decoder of frames, under every way the system
 * may cut the bytes into reads and the user may size the read buffers.
 */
module PipeReader {
  import opened Buffers
  import opened Common
  import opened PipeFrames

  /** A transferred socket, and how many data bytes had been delivered before it. */
  datatype Arrival = Arrival(xfer: Xfer, at: nat)

  /** How a read ends: well, at the end of the pipe, with an error of the system, an invalid frame, or without a buffer. */
  datatype Status = Fine | EndOfFile | Failed | Aborted | NoBuffer

  /** Which of the system's reads fails in a call of uv__pipe_read_ipc, if any. */
  datatype Fault = NoFault | FirstRead | SecondRead

  // ---------- What a sequence of messages comes to ----------

  function Bytes(ms: seq<Message>): (r: seq<byte>)
    ensures ms == [] ==> r == []
  {
    if ms == [] then [] else ms[0].Frame() + Bytes(ms[1..])
  }

  function Data(ms: seq<Message>): seq<byte> {
    if ms == [] then [] else ms[0].data + Data(ms[1..])
  }

  /** The transfers of the messages, in order, when `before` data bytes come before the first. */
  function Arrivals(ms: seq<Message>, before: nat): seq<Arrival> {
    if ms == [] then []
    else (if ms[0].xfer.Some? then [Arrival(ms[0].xfer.value, before)] else []) + Arrivals(ms[1..], before + |ms[0].data|)
  }

  lemma {:induction false} DataSnoc(ms: seq<Message>, m: Message)
    ensures Data(ms + [m]) == Data(ms) + m.data
  {
    if ms == [] {
      assert ms + [m] == [m] && [m][1..] == [];
    } else {
      DataSnoc(ms[1..], m);
      assert (ms + [m])[1..] == ms[1..] + [m];
    }
  }

  lemma {:induction false} ArrivalsSnoc(ms: seq<Message>, m: Message, before: nat)
    ensures Arrivals(ms + [m], before) == Arrivals(ms, before) + Arrivals([m], before + |Data(ms)|)
    decreases ms
  {
    if ms == [] {
      assert ms + [m] == [m];
    } else {
      var first := if ms[0].xfer.Some? then [Arrival(ms[0].xfer.value, before)] else [];
      ArrivalsSnoc(ms[1..], m, before + |ms[0].data|);
      assert (ms + [m])[1..] == ms[1..] + [m];
      Regroup(first, Arrivals(ms[1..], before + |ms[0].data|), Arrivals([m], before + |Data(ms)|));
    }
  }

  lemma Regroup(a: seq<Arrival>, b: seq<Arrival>, c: seq<Arrival>)
    ensures (a + b) + c == a + (b + c)
  {}

  lemma ArrivalsOne(m: Message, before: nat)
    ensures Arrivals([m], before) == if m.xfer.Some? then [Arrival(m.xfer.value, before)] else []
  {
    assert [m][1..] == [];
    assert Arrivals([], before + |m.data|) == [];
  }

  // ---------- The reader ----------

  class Reader {
    var pipe: seq<byte>           // what the system has yet to deliver, before the end of file
    var remaining: nat            // payload_remaining
    var arrivals: seq<Arrival>    // ipc_xfer_queue
    var data: seq<byte>           // everything handed to read_cb
    ghost var done: nat           // messages whose header has been read and whose data is complete

    constructor (pipe: seq<byte>)
      ensures this.pipe == pipe && remaining == 0 && arrivals == [] && data == [] && done == 0
    {
      this.pipe, remaining, arrivals, data, done := pipe, 0, [], [], 0;
    }

    /**
     * uv__pipe_read_exactly: waits for as many bytes, in as many pieces as it takes, or
     * reaches the end, or fails at some point.
     */
    method ReadExactly(count: nat, fails: bool) returns (status: Status, buffer: seq<byte>)
      modifies this`pipe
      ensures fails ==> status.Failed?
      ensures !fails ==> status == if |old(pipe)| >= count then Fine else EndOfFile
      ensures status == Fine ==> buffer == old(pipe[..count]) && pipe == old(pipe[count..])
      ensures status == EndOfFile ==> pipe == []
      ensures |pipe| <= |old(pipe)| && pipe == old(pipe)[|old(pipe)| - |pipe|..]
    {
      buffer := [];
      while |buffer| < count
        invariant |buffer| <= count && buffer + pipe == old(pipe)
        decreases count - |buffer|
      {
        var interrupted: bool := *;
        if fails && interrupted {
          return Failed, buffer;
        }
        if pipe == [] {
          assert buffer == old(pipe);
          return if fails then Failed else EndOfFile, buffer;
        }
        var n: int := *;
        if n < 1 || n > |pipe| || n > count - |buffer| {
          n := 1;
        }
        assert buffer + pipe == (buffer + pipe[..n]) + pipe[n..];
        buffer := buffer + pipe[..n];
        pipe := pipe[n..];
      }
      assert old(pipe)[..count] == buffer;
      return if fails then Failed else Fine, buffer;
    }

    /**
     * uv__pipe_read_data, called with the limit also in *bytes_read; n is what it leaves
     * there. size is the length of the user's buffer, ready what the system has at once.
     * Without a buffer nothing is read, and n is still the limit.
     */
    method ReadData(limit: nat, size: nat, ready: nat, fails: bool) returns (n: nat, more: bool, status: Status)
      requires limit > 0
      modifies this`pipe, this`data
      ensures n <= limit
      ensures status == if size == 0 then NoBuffer else if fails then Failed else if old(pipe) == [] then EndOfFile else Fine
      ensures status == Fine ==>
        && n <= |old(pipe)| && data == old(data + pipe[..n]) && pipe == old(pipe[n..])
        && (more <==> n == limit || n == size) && (ready > 0 ==> n > 0)
      ensures status != Fine ==> data == old(data) && pipe == old(pipe) && !more
      ensures status != Fine ==> n == if status == NoBuffer then limit else 0
    {
      if size == 0 {
        return limit, false, NoBuffer;
      }
      var most := if limit > size then size else limit;
      if fails {
        return 0, 0 == most, Failed;
      }
      if pipe == [] {
        return 0, 0 == most, EndOfFile;
      }
      n := if ready < most then ready else most;
      n := if n > |pipe| then |pipe| else n;
      data := data + pipe[..n];
      pipe := pipe[n..];
      return n, n == most, Fine;
    }

    /** uv__pipe_read_ipc, for any bytes whatever: a piece of data, or a header with its socket information. */
    method ReadIpc(size: nat, ready: nat, fault: Fault) returns (more: bool, status: Status)
      modifies this`pipe, this`data, this`remaining, this`arrivals
      ensures old(remaining) > 0 ==> arrivals == old(arrivals) && (more <==> remaining > 0)
      ensures old(remaining) > 0 ==>
        status == if size == 0 then NoBuffer else if fault.FirstRead? then Failed else if old(pipe) == [] then EndOfFile else Fine
      ensures old(remaining) > 0 && status == Fine ==>
                && remaining <= old(remaining)
                && var n: nat := old(remaining) - remaining;
                   n <= |old(pipe)| && data == old(data) + old(pipe)[..n] && pipe == old(pipe)[n..] && (ready > 0 ==> n > 0)
      ensures old(remaining) > 0 && status != Fine ==>
                pipe == old(pipe) && data == old(data) && remaining == if status == NoBuffer then 0 else old(remaining)
      ensures old(remaining) == 0 ==> data == old(data) && (more <==> status == Fine && remaining > 0)
      ensures old(remaining) == 0 && fault.FirstRead? ==> status == Failed && arrivals == old(arrivals) && remaining == 0
      ensures old(remaining) == 0 && !fault.FirstRead? && |old(pipe)| < HEADER_SIZE ==>
                status == EndOfFile && arrivals == old(arrivals) && remaining == 0
      ensures old(remaining) == 0 && !fault.FirstRead? && |old(pipe)| >= HEADER_SIZE ==>
                Started(old(pipe), status, fault.SecondRead?, pipe, remaining, old(arrivals), arrivals, |data|)
    {
      if remaining > 0 {
        var n;
        n, more, status := ReadData(remaining, size, ready, fault.FirstRead?);
        remaining := remaining - n;
        return remaining > 0, status;
      }
      hide ParseHeader;
      var buffer;
      status, buffer := ReadExactly(HEADER_SIZE, fault.FirstRead?);
      if status != Fine {
        return false, status;
      }
      var header := ParseHeader(buffer);
      if header.flags / 8 != 0 {
        return false, Aborted;
      }
      if header.reserved2 != 0 {
        return false, Aborted;
      }
      var kind := None;
      if HasXfer(header.flags) {
        kind := if IsConnection(header.flags) then Some(TcpConnection) else Some(TcpServer);
      } else if IsConnection(header.flags) {
        return false, Aborted;
      }
      if HasData(header.flags) {
        remaining := header.dataLength;
      } else if header.dataLength != 0 {
        return false, Aborted;
      }
      if kind.Some? {
        status, buffer := ReadExactly(XFER_INFO_SIZE, fault.SecondRead?);
        if status != Fine {
          return false, status;
        }
        assert old(pipe)[HEADER_SIZE..][..XFER_INFO_SIZE] == old(pipe)[HEADER_SIZE..HEADER_SIZE + XFER_INFO_SIZE];
        assert old(pipe)[HEADER_SIZE..][XFER_INFO_SIZE..] == old(pipe)[HEADER_SIZE + XFER_INFO_SIZE..];
        arrivals := arrivals + [Arrival(Xfer(kind.value, buffer), |data|)];
      }
      return remaining > 0, Fine;
    }
  }

  /** What reading the start of a frame does, by its header. */
  predicate Started(pipe: seq<byte>, status: Status, fails: bool, rest: seq<byte>, remaining: nat,
                    was: seq<Arrival>, arrivals: seq<Arrival>, at: nat)
    requires |pipe| >= HEADER_SIZE
  {
    var h := ParseHeader(pipe[..HEADER_SIZE]);
    if Invalid(h) then status == Aborted && arrivals == was && remaining == 0
    else
      && remaining == (if HasData(h.flags) then h.dataLength else 0)
      && if HasXfer(h.flags) then
           if fails then status == Failed && arrivals == was
           else if |pipe| < HEADER_SIZE + XFER_INFO_SIZE then status == EndOfFile && arrivals == was
           else
             var info := pipe[HEADER_SIZE..HEADER_SIZE + XFER_INFO_SIZE];
             && status == Fine && rest == pipe[HEADER_SIZE + XFER_INFO_SIZE..]
             && arrivals == was + [Arrival(Xfer(if IsConnection(h.flags) then TcpConnection else TcpServer, info), at)]
         else
           status == Fine && rest == pipe[HEADER_SIZE..] && arrivals == was
  }

  // ---------- Reading what was written ----------

  /**
   * The reader stands in message k: before its header, or with some of its data to come.
   * Everything before it has been delivered, and everything behind it is in the pipe.
   */
  ghost predicate Within(ms: seq<Message>, k: nat, pipe: seq<byte>, remaining: nat, data: seq<byte>, arrivals: seq<Arrival>) {
    k <= |ms| &&
    if remaining == 0 then
      pipe == Bytes(ms[k..]) && data == Data(ms[..k]) && arrivals == Arrivals(ms[..k], 0)
    else
      && k < |ms| && remaining <= |ms[k].data|
      && var read := |ms[k].data| - remaining;
      && pipe == ms[k].data[read..] + Bytes(ms[k + 1..]) && data == Data(ms[..k]) + ms[k].data[..read]
      && arrivals == Arrivals(ms[..k + 1], 0)
  }

  /** A message whose data has all been read is behind the reader. */
  lemma Complete(ms: seq<Message>, k: nat)
    requires k < |ms|
    ensures Data(ms[..k + 1]) == Data(ms[..k]) + ms[k].data
    ensures Arrivals(ms[..k + 1], 0) ==
            Arrivals(ms[..k], 0) + if ms[k].xfer.Some? then [Arrival(ms[k].xfer.value, |Data(ms[..k])|)] else []
  {
    hide Data, Arrivals;
    assert ms[..k] + [ms[k]] == ms[..k + 1];
    DataSnoc(ms[..k], ms[k]);
    ArrivalsSnoc(ms[..k], ms[k], 0);
    ArrivalsOne(ms[k], |Data(ms[..k])|);
  }

  lemma BytesStep(ms: seq<Message>, k: nat)
    requires k < |ms|
    ensures Bytes(ms[k..]) == ms[k].Frame() + Bytes(ms[k + 1..])
  {
    assert ms[k..][1..] == ms[k + 1..];
  }

  /** The start of a frame, as the reader sees it. */
  lemma FrameStart(m: Message, rest: seq<byte>)
    requires m.Fits()
    ensures var pipe := m.Frame() + rest;
            && |pipe| >= HEADER_SIZE + |m.Info()|
            && ParseHeader(pipe[..HEADER_SIZE]) == Header(m.Flags(), 0, |m.data|, 0)
            && pipe[HEADER_SIZE..HEADER_SIZE + |m.Info()|] == m.Info()
            && pipe[HEADER_SIZE + |m.Info()|..] == m.data + rest
  {
    hide HeaderBytes, ParseHeader;
    var h := Header(m.Flags(), 0, |m.data|, 0);
    var pipe := m.Frame() + rest;
    assert pipe == HeaderBytes(h) + (m.Info() + (m.data + rest));
    assert pipe[..HEADER_SIZE] == HeaderBytes(h);
    assert pipe[HEADER_SIZE..] == m.Info() + (m.data + rest);
    ParseHeaderInverts(h);
  }

  lemma BeginMessage(ms: seq<Message>, k: nat, pipe: seq<byte>, data: seq<byte>, was: seq<Arrival>,
                     status: Status, rest: seq<byte>, remaining: nat, arrivals: seq<Arrival>)
    requires k < |ms| && ms[k].Fits() && Within(ms, k, pipe, 0, data, was)
    requires |pipe| >= HEADER_SIZE ==> Started(pipe, status, false, rest, remaining, was, arrivals, |data|)
    ensures |pipe| >= HEADER_SIZE && status == Fine
    ensures Within(ms, if remaining == 0 then k + 1 else k, rest, remaining, data, arrivals)
  {
    hide Bytes, Data, Arrivals, ParseHeader, Message.Frame, Message.Flags;
    var m := ms[k];
    BytesStep(ms, k);
    FrameStart(m, Bytes(ms[k + 1..]));
    FlagsMean(m);
    Complete(ms, k);
    assert rest == m.data + Bytes(ms[k + 1..]);
    assert remaining == |m.data|;
    assert m.data[0..] == m.data && m.data[..0] == [];
    assert data + [] == data;
    if m.data == [] {
      assert m.data + Bytes(ms[k + 1..]) == Bytes(ms[k + 1..]);
    }
  }

  lemma TakePiece(ms: seq<Message>, k: nat, pipe: seq<byte>, remaining: nat, data: seq<byte>, arrivals: seq<Arrival>, n: nat)
    requires remaining > 0 && Within(ms, k, pipe, remaining, data, arrivals) && n <= remaining && n <= |pipe|
    ensures |pipe| >= remaining
    ensures Within(ms, if n == remaining then k + 1 else k, pipe[n..], remaining - n, data + pipe[..n], arrivals)
  {
    hide Bytes, Data, Arrivals;
    var d := ms[k].data;
    var read := |d| - remaining;
    var behind := Bytes(ms[k + 1..]);
    assert pipe[..n] == d[read..][..n] == d[read..read + n];
    assert pipe[n..] == d[read..][n..] + behind;
    assert d[read..][n..] == d[read + n..];
    assert d[..read] + d[read..read + n] == d[..read + n];
    assert Data(ms[..k]) + d[..read] + d[read..read + n] == Data(ms[..k]) + d[..read + n];
    if n == remaining {
      Complete(ms, k);
      assert d[..read + n] == d && d[read + n..] == [];
      assert [] + behind == behind;
    }
  }

  /** If the rest of a message's data is skipped, what is left of the pipe is not the start of any frame that was written. */
  lemma Skipped(ms: seq<Message>, k: nat, pipe: seq<byte>, remaining: nat, data: seq<byte>, arrivals: seq<Arrival>, j: nat)
    requires remaining > 0 && Within(ms, k, pipe, remaining, data, arrivals)
    ensures !Within(ms, j, pipe, 0, data, arrivals)
  {
    hide Data, Arrivals, Message.Frame;
    assert |pipe| == remaining + |Bytes(ms[k + 1..])|;
    BytesStep(ms, k);
    FrameLength(ms[k]);
    if j <= k {
      BytesLess(ms, j, k);
    } else if j <= |ms| {
      BytesLess(ms, k + 1, j);
    }
  }

  lemma FrameLength(m: Message)
    ensures |m.Frame()| >= HEADER_SIZE + |m.data|
  {}

  lemma {:induction false} BytesLess(ms: seq<Message>, i: nat, j: nat)
    requires i <= j <= |ms|
    ensures |Bytes(ms[i..])| >= |Bytes(ms[j..])|
    decreases j - i
  {
    if i < j {
      BytesStep(ms, i);
      BytesLess(ms, i + 1, j);
    }
  }

  /**
   * One call of uv__pipe_read_ipc, on a pipe that frames were written to. It stays within
   * the frames exactly if the user has a buffer, or none is asked for.
   */
  method ReadOne(r: Reader, ms: seq<Message>, size: nat, ready: nat)
    requires forall i :: 0 <= i < |ms| ==> ms[i].Fits()
    requires Within(ms, r.done, r.pipe, r.remaining, r.data, r.arrivals) && (r.remaining > 0 || r.pipe != [])
    modifies r
    ensures old(r.remaining) == 0 || size > 0 ==> Within(ms, r.done, r.pipe, r.remaining, r.data, r.arrivals)
    ensures old(r.remaining) > 0 && size == 0 ==> forall j: nat :: !Within(ms, j, r.pipe, r.remaining, r.data, r.arrivals)
    ensures |r.pipe| <= |old(r.pipe)| && (size > 0 && ready > 0 ==> |r.pipe| < |old(r.pipe)|)
  {
    hide Bytes, Data, Arrivals, Within, Started;
    WithinMeans(ms, r.done, r.pipe, r.remaining, r.data, r.arrivals);
    ghost var pipe, remaining, data, arrivals := r.pipe, r.remaining, r.data, r.arrivals;
    var more, status := r.ReadIpc(size, ready, NoFault);
    if remaining > 0 {
      if size == 0 {
        forall j: nat ensures !Within(ms, j, r.pipe, r.remaining, r.data, r.arrivals) {
          Skipped(ms, r.done, pipe, remaining, data, arrivals, j);
        }
      } else {
        ghost var n := remaining - r.remaining;
        TakePiece(ms, r.done, pipe, remaining, data, arrivals, n);
      }
    } else {
      BeginMessage(ms, r.done, pipe, data, arrivals, status, r.pipe, r.remaining, r.arrivals);
      StartedShrinks(pipe, status, r.pipe, r.remaining, arrivals, r.arrivals, |data|);
    }
    if r.remaining == 0 {
      r.done := r.done + 1;
    }
  }

  /**
   * A frame with one byte of data, and a user without a buffer when that byte is to be read:
   * the byte is taken for the start of a header, and the pipe ends without its delivery.
   */
  method ByteIsLost() returns (r: Reader, status: Status)
    ensures fresh(r) && status == EndOfFile && r.data == [] && r.remaining == 0
  {
    hide ParseHeader, HeaderBytes, Message.Frame;
    var m := Message(None, [7]);
    var pipe := HeaderBytes(Header(1, 0, 1, 0)) + [] + [7];
    OneByteFrame();
    FrameStart(m, []);
    assert pipe == m.Frame() + [];
    r := new Reader(pipe);
    var more;
    more, status := r.ReadIpc(1, 1, NoFault);
    assert r.remaining == 1 && |r.pipe| == 1;
    more, status := r.ReadIpc(0, 1, NoFault);
    assert status == NoBuffer && r.remaining == 0;
    more, status := r.ReadIpc(1, 1, NoFault);
  }

  lemma OneByteFrame()
    ensures Message(None, [7]).Frame() == HeaderBytes(Header(1, 0, 1, 0)) + [] + [7]
    ensures Message(None, [7]).Flags() == 1
  {
    hide HeaderBytes;
  }

  /** What one call meets: the length of the user's buffer, and what the system has at once. */
  datatype Turn = Turn(size: nat, ready: nat)

  /**
   * For every sequence of writes and every schedule of reads in which the user always has
   * a buffer: the reader delivers the same data, and the same sockets at the same places
   * in it, and ends between frames. When the schedule is over, everything is ready.
   */
  method ReadAll(r: Reader, ms: seq<Message>, schedule: seq<Turn>)
    requires forall i :: 0 <= i < |ms| ==> ms[i].Fits()
    requires forall i :: 0 <= i < |schedule| ==> schedule[i].size > 0
    requires r.pipe == Bytes(ms) && r.remaining == 0 && r.data == [] && r.arrivals == [] && r.done == 0
    modifies r
    ensures r.data == Data(ms) && r.arrivals == Arrivals(ms, 0) && r.remaining == 0 && r.pipe == []
  {
    hide Bytes, Data, Arrivals, Within;
    Starting(ms);
    var k := 0;
    while r.remaining > 0 || r.pipe != []
      invariant Within(ms, r.done, r.pipe, r.remaining, r.data, r.arrivals) && 0 <= k <= |schedule|
      decreases |r.pipe| + |schedule| - k
    {
      WithinMeans(ms, r.done, r.pipe, r.remaining, r.data, r.arrivals);
      if k < |schedule| {
        ReadOne(r, ms, schedule[k].size, schedule[k].ready);
        k := k + 1;
      } else {
        ReadOne(r, ms, |r.pipe|, |r.pipe|);
      }
    }
    WithinMeans(ms, r.done, r.pipe, r.remaining, r.data, r.arrivals);
  }

  // ---------- From writer to reader ----------

  /** A call of uv__pipe_write_ipc, with what its array of buffers on the stack holds at first. */
  datatype Call = Call(bufs: seq<seq<byte>>, xfer: Option<Xfer>, stack: seq<seq<byte>>)
  {
    function Meant(): Message {
      Message(xfer, Flat(bufs))
    }

    /** The frame is not too long, and nothing but the frame is written: see WritesTheFrame. */
    predicate Clean() {
      && |stack| == 6 && Meant().Fits()
      && (Flat(bufs) != [] || bufs == [] || |bufs| + (if xfer.Some? then 2 else 1) >= 6)
    }
  }

  function Meant(calls: seq<Call>): (ms: seq<Message>)
    ensures |ms| == |calls| && forall i :: 0 <= i < |ms| ==> ms[i] == calls[i].Meant()
  {
    seq(|calls|, i requires 0 <= i < |calls| => calls[i].Meant())
  }

  lemma {:induction false} BytesSnoc(ms: seq<Message>, m: Message)
    ensures Bytes(ms + [m]) == Bytes(ms) + m.Frame()
  {
    hide Message.Frame;
    if ms == [] {
      assert ms + [m] == [m] && [m][1..] == [];
    } else {
      BytesSnoc(ms[1..], m);
      assert (ms + [m])[1..] == ms[1..] + [m];
    }
  }

  /**
   * A pipe end to end: what the calls were given is what the reader delivers, under every
   * schedule in which the user always has a buffer.
   */
  method WriteThenRead(calls: seq<Call>, schedule: seq<Turn>) returns (r: Reader)
    requires forall i :: 0 <= i < |calls| ==> calls[i].Clean()
    requires forall i :: 0 <= i < |schedule| ==> schedule[i].size > 0
    ensures fresh(r) && r.remaining == 0 && r.pipe == []
    ensures r.data == Data(Meant(calls)) && r.arrivals == Arrivals(Meant(calls), 0)
  {
    hide Bytes, Data, Arrivals, Flat, Leftover, Message.Frame, Call.Clean;
    var pipe: seq<byte> := [];
    var i := 0;
    while i < |calls|
      invariant 0 <= i <= |calls| && pipe == Bytes(Meant(calls[..i]))
    {
      CleanMeans(calls[i]);
      var frame := WriteIpc(calls[i].bufs, calls[i].xfer, calls[i].stack);
      assert Meant(calls[..i + 1]) == Meant(calls[..i]) + [calls[i].Meant()];
      BytesSnoc(Meant(calls[..i]), calls[i].Meant());
      pipe := pipe + frame.value;
      i := i + 1;
    }
    assert calls[..i] == calls;
    forall k | 0 <= k < |calls| ensures Meant(calls)[k].Fits() {
      CleanMeans(calls[k]);
    }
    r := new Reader(pipe);
    ReadAll(r, Meant(calls), schedule);
  }

  lemma CleanMeans(c: Call)
    requires c.Clean()
    ensures |c.stack| == 6 && c.Meant().Fits() && Flat(Leftover(c.bufs, c.xfer, c.stack)) == []
    ensures c.xfer.Some? ==> |c.xfer.value.info| == XFER_INFO_SIZE
    ensures |Flat(c.bufs)| <= UINT_MAX && |c.Meant().Frame()| <= UINT_MAX
    ensures c.Meant().Frame() + Flat(Leftover(c.bufs, c.xfer, c.stack)) == c.Meant().Frame()
  {
    WritesTheFrame(c.bufs, c.xfer);
  }

  lemma Starting(ms: seq<Message>)
    ensures Within(ms, 0, Bytes(ms), 0, [], [])
  {
    assert ms[0..] == ms && ms[..0] == [];
  }

  lemma WithinMeans(ms: seq<Message>, k: nat, pipe: seq<byte>, remaining: nat, data: seq<byte>, arrivals: seq<Arrival>)
    requires Within(ms, k, pipe, remaining, data, arrivals)
    ensures remaining > 0 ==> |pipe| >= remaining
    ensures remaining == 0 && pipe != [] ==> k < |ms|
    ensures remaining == 0 && pipe == [] ==> data == Data(ms) && arrivals == Arrivals(ms, 0)
  {
    hide Data, Arrivals, HeaderBytes;
    if remaining == 0 {
      if k < |ms| {
        BytesStep(ms, k);
        assert |ms[k].Frame()| >= HEADER_SIZE;
      } else {
        assert ms[..k] == ms && ms[k..] == [];
      }
    }
  }

  lemma StartedShrinks(pipe: seq<byte>, status: Status, rest: seq<byte>, remaining: nat,
                       was: seq<Arrival>, arrivals: seq<Arrival>, at: nat)
    requires |pipe| >= HEADER_SIZE && Started(pipe, status, false, rest, remaining, was, arrivals, at) && status == Fine
    ensures |rest| < |pipe|
  {
    hide ParseHeader;
  }
}
