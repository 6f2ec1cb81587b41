/**
 * The frames of an IPC pipe: a 16-byte header, the information about a transferred
 * socket, and data. The writer that builds a frame out of buffers, and the laws of the
 * byte stream that a sequence of frames makes.
 */
module PipeFrames {
  import opened Buffers
  import opened Common

  const HEADER_SIZE := 16
  const XFER_INFO_SIZE := 632

  datatype XferType = TcpConnection | TcpServer

  /** A transferred socket: its type and its exported information. */
  datatype Xfer = Xfer(kind: XferType, info: seq<byte>)

  /** uv__ipc_frame_header_t. */
  datatype Header = Header(flags: nat, reserved1: nat, dataLength: nat, reserved2: nat)

  // Bits of the flags.

  predicate HasData(flags: nat) {
    flags % 2 == 1
  }

  predicate HasXfer(flags: nat) {
    flags / 2 % 2 == 1
  }

  predicate IsConnection(flags: nat) {
    flags / 4 % 2 == 1
  }

  /** Flags outside UV__IPC_FRAME_VALID_FLAGS, or reserved2, or a length without data, or a connection without a socket. */
  predicate Invalid(h: Header) {
    || h.flags / 8 != 0
    || h.reserved2 != 0
    || (IsConnection(h.flags) && !HasXfer(h.flags))
    || (!HasData(h.flags) && h.dataLength != 0)
  }

  // ---------- Bytes ----------

  /** A 32-bit unsigned integer in memory, lowest byte first. */
  function LittleEndian(n: nat): (r: seq<byte>)
    ensures |r| == 4
  {
    [n % 256, n / 256 % 256, n / 0x1_0000 % 256, n / 0x100_0000 % 256]
  }

  function FromLittleEndian(b: seq<byte>): nat
    requires |b| == 4
  {
    var b0: nat, b1: nat, b2: nat, b3: nat := b[0], b[1], b[2], b[3];
    b0 + 256 * b1 + 0x1_0000 * b2 + 0x100_0000 * b3
  }

  lemma LittleEndianInverts(n: nat)
    requires n <= UINT_MAX
    ensures FromLittleEndian(LittleEndian(n)) == n
  {
    var a := n / 256;
    var b := a / 256;
    var c := b / 256;
    assert n / 0x1_0000 == b && n / 0x100_0000 == c && c < 256;
    assert n == 256 * a + n % 256 && a == 256 * b + a % 256 && b == 256 * c + b % 256;
  }

  function HeaderBytes(h: Header): (r: seq<byte>)
    ensures |r| == HEADER_SIZE
  {
    LittleEndian(h.flags) + LittleEndian(h.reserved1) + LittleEndian(h.dataLength) + LittleEndian(h.reserved2)
  }

  function ParseHeader(b: seq<byte>): Header
    requires |b| == HEADER_SIZE
  {
    Header(FromLittleEndian(b[..4]), FromLittleEndian(b[4..8]), FromLittleEndian(b[8..12]), FromLittleEndian(b[12..]))
  }

  lemma ParseHeaderInverts(h: Header)
    requires h.flags <= UINT_MAX && h.reserved1 <= UINT_MAX && h.dataLength <= UINT_MAX && h.reserved2 <= UINT_MAX
    ensures ParseHeader(HeaderBytes(h)) == h
  {
    hide LittleEndian, FromLittleEndian;
    var b := HeaderBytes(h);
    assert b[..4] == LittleEndian(h.flags) && b[4..8] == LittleEndian(h.reserved1);
    assert b[8..12] == LittleEndian(h.dataLength) && b[12..] == LittleEndian(h.reserved2);
    LittleEndianInverts(h.flags);
    LittleEndianInverts(h.reserved1);
    LittleEndianInverts(h.dataLength);
    LittleEndianInverts(h.reserved2);
  }

  // ---------- Frames ----------

  /** One write: a socket to transfer, if any, and data. */
  datatype Message = Message(xfer: Option<Xfer>, data: seq<byte>)
  {
    function Info(): seq<byte> {
      if xfer.Some? then xfer.value.info else []
    }

    /** The whole frame is handed to the system in one piece, whose size is 32 bits. */
    predicate Fits() {
      && (xfer.Some? ==> |xfer.value.info| == XFER_INFO_SIZE)
      && HEADER_SIZE + |Info()| + |data| <= UINT_MAX
    }

    function Flags(): (f: nat)
      ensures f < 8
    {
      (if data != [] then 1 else 0)
      + (if xfer.None? then 0 else if xfer.value.kind.TcpConnection? then 6 else 2)
    }

    function Frame(): seq<byte> {
      HeaderBytes(Header(Flags(), 0, |data|, 0)) + Info() + data
    }
  }

  lemma FlagsMean(m: Message)
    ensures !Invalid(Header(m.Flags(), 0, |m.data|, 0))
    ensures HasData(m.Flags()) <==> m.data != []
    ensures HasXfer(m.Flags()) <==> m.xfer.Some?
    ensures m.xfer.Some? ==> (IsConnection(m.Flags()) <==> m.xfer.value.kind.TcpConnection?)
  {}

  /** The frame of a message in plain bytes. */
  lemma FrameLayout(m: Message)
    requires m.Fits()
    ensures var f, n := m.Frame(), HEADER_SIZE + |m.Info()|;
            && |f| == n + |m.data|
            && f[0] == (if m.data != [] then 1 else 0) + (if m.xfer.None? then 0 else if m.xfer.value.kind.TcpConnection? then 6 else 2)
            && f[1..8] == [0, 0, 0, 0, 0, 0, 0]
            && f[8] as int + 0x100 * f[9] as int + 0x1_0000 * f[10] as int + 0x100_0000 * f[11] as int == |m.data|
            && f[12..16] == [0, 0, 0, 0]
            && f[16..n] == m.Info() && f[n..] == m.data
  {
    hide FromLittleEndian, LittleEndian, Message.Flags;
    var h := Header(m.Flags(), 0, |m.data|, 0);
    var head, info := HeaderBytes(h), m.Info();
    assert m.Frame() == head + (info + m.data);
    assert m.Frame()[..16] == head;
    FlagsLayout(m);
    LittleEndianInverts(|m.data|);
    FromBytes(LittleEndian(|m.data|));
    assert LittleEndian(0) == [0, 0, 0, 0] by { LittleZero(); }
    HeadLayout(LittleEndian(m.Flags()), LittleEndian(|m.data|), head, m.Frame());
  }

  lemma FlagsLayout(m: Message)
    ensures LittleEndian(m.Flags()) ==
            [(if m.data != [] then 1 else 0) + (if m.xfer.None? then 0 else if m.xfer.value.kind.TcpConnection? then 6 else 2), 0, 0, 0]
  {}

  lemma LittleZero()
    ensures LittleEndian(0) == [0, 0, 0, 0]
  {}

  lemma FromBytes(b: seq<byte>)
    requires |b| == 4
    ensures FromLittleEndian(b) == b[0] as int + 0x100 * b[1] as int + 0x1_0000 * b[2] as int + 0x100_0000 * b[3] as int
  {}

  lemma HeadLayout(flags: seq<byte>, length: seq<byte>, head: seq<byte>, f: seq<byte>)
    requires |flags| == |length| == 4 && head == flags + [0, 0, 0, 0] + length + [0, 0, 0, 0] && |f| >= 16 && f[..16] == head
    requires flags[1..] == [0, 0, 0]
    ensures f[0] == flags[0] && f[1..8] == [0, 0, 0, 0, 0, 0, 0] && f[12..16] == [0, 0, 0, 0]
    ensures f[8] == length[0] && f[9] == length[1] && f[10] == length[2] && f[11] == length[3]
  {
    assert forall i :: 0 <= i < 16 ==> f[i] == head[i];
    assert forall i :: 1 <= i < 4 ==> head[i] == flags[1..][i - 1];
  }

  /** Which headers are refused, in plain bytes. */
  lemma InvalidBytes(b: seq<byte>)
    requires |b| == HEADER_SIZE
    ensures Invalid(ParseHeader(b)) <==>
            || b[0] !in {0, 1, 2, 3, 6, 7}
            || b[1..4] != [0, 0, 0]
            || b[12..16] != [0, 0, 0, 0]
            || (b[0] in {0, 2, 6} && b[8..12] != [0, 0, 0, 0])
  {
    hide FromLittleEndian;
    FromBytes(b[..4]);
    FromBytes(b[8..12]);
    FromBytes(b[12..]);
    assert b[12..] == b[12..16];
    SmallFlags(b[..4], ParseHeader(b).flags);
  }

  lemma SmallFlags(b: seq<byte>, flags: nat)
    requires |b| == 4 && flags == FromLittleEndian(b)
    ensures flags / 8 == 0 <==> b[0] < 8 && b[1..4] == [0, 0, 0]
    ensures flags / 8 == 0 ==> flags == b[0]
  {}

  // ---------- Writing ----------

  /** uv__build_coalesced_write_req: one buffer with the bytes of all. */
  method Coalesce(bufs: seq<seq<byte>>) returns (r: Result<seq<byte>>)
    ensures r == if |Flat(bufs)| > UINT_MAX then Err(UV_ENOBUFS) else Ok(Flat(bufs))
  {
    hide Flat;
    var length := CountBufs(bufs);
    if length > UINT_MAX {
      return Err(UV_ENOBUFS);
    }
    var heap := new byte[length](_ => 0);
    var offset: nat, i: nat := 0, 0;
    assert bufs[0..] == bufs;
    assert heap[..0] + Flat(bufs) == Flat(bufs);
    while i < |bufs|
      invariant 0 <= i <= |bufs| && offset + |Flat(bufs[i..])| == length
      invariant heap[..offset] + Flat(bufs[i..]) == Flat(bufs)
    {
      FlatStep(bufs, i);
      ghost var before := heap[..offset];
      forall j | 0 <= j < |bufs[i]| {
        heap[offset + j] := bufs[i][j];
      }
      assert heap[..offset + |bufs[i]|] == before + bufs[i];
      assert before + (bufs[i] + Flat(bufs[i + 1..])) == (before + bufs[i]) + Flat(bufs[i + 1..]);
      offset := offset + |bufs[i]|;
      i := i + 1;
    }
    FlatRest(bufs, i);
    assert heap[..offset] + [] == heap[..];
    return Ok(heap[..]);
  }

  /**
   * Buffers that uv__pipe_write_ipc passes on without having set them: if there are
   * buffers but no data in them, as many as there are buffers, as long as the array is
   * the one on the stack, with whatever it holds.
   */
  function Leftover(dataBufs: seq<seq<byte>>, xfer: Option<Xfer>, stack: seq<seq<byte>>): seq<seq<byte>>
    requires |stack| == 6
  {
    var used := if xfer.Some? then 2 else 1;
    if Flat(dataBufs) == [] && used + |dataBufs| < 6 then stack[used..used + |dataBufs|] else []
  }

  /** The array on the stack, or one on the heap, cleared, if that is too small. */
  method BufferArray(count: nat, stack: seq<seq<byte>>) returns (bufs: array<seq<byte>>)
    requires |stack| == 6
    ensures fresh(bufs) && bufs.Length >= count
    ensures forall i :: 0 <= i < count ==> bufs[i] == if count < 6 then stack[i] else []
  {
    if count < 6 {
      bufs := new seq<byte>[6](i requires 0 <= i < 6 => stack[i]);
    } else {
      bufs := new seq<byte>[count](_ => []);
    }
  }

  /** uv__pipe_write_ipc; stack is what the array of buffers on the stack holds at first. */
  method WriteIpc(dataBufs: seq<seq<byte>>, xfer: Option<Xfer>, stack: seq<seq<byte>>) returns (r: Result<seq<byte>>)
    requires |stack| == 6 && (xfer.Some? ==> |xfer.value.info| == XFER_INFO_SIZE)
    ensures var frame := Message(xfer, Flat(dataBufs)).Frame();
            var written := frame + Flat(Leftover(dataBufs, xfer, stack));
            r == if |Flat(dataBufs)| > UINT_MAX || |written| > UINT_MAX then Err(UV_ENOBUFS) else Ok(written)
  {
    hide Flat, HeaderBytes, Leftover, Message.Frame;
    var dataLength := CountBufs(dataBufs);
    if dataLength > UINT_MAX {
      return Err(UV_ENOBUFS);
    }
    var bufCount := 1 + |dataBufs| + if xfer.Some? then 1 else 0;
    var bufs := BufferArray(bufCount, stack);
    ghost var tail := bufs[bufCount - |dataBufs|..bufCount];
    var index := 1; // the first buffer is the header, which is completed below
    var flags, length := 0, 0;
    if xfer.Some? {
      match xfer.value.kind {
        case TcpConnection => flags := 6;
        case TcpServer => flags := 2;
      }
      bufs[index] := xfer.value.info;
      index := index + 1;
    }
    assert index == bufCount - |dataBufs| && bufs[index..bufCount] == tail;
    ghost var info: seq<seq<byte>> := if xfer.Some? then [xfer.value.info] else [];
    assert bufs[1..index] == info;
    if dataLength > 0 {
      flags := flags + 1;
      length := dataLength;
      AddBuffers(bufs, index, dataBufs);
      tail := dataBufs;
    }
    bufs[0] := HeaderBytes(Header(flags, 0, length, 0));
    assert bufs[..bufCount] == [bufs[0]] + info + tail;
    TailBytes(dataBufs, xfer, stack, tail);
    FrameBytes(Message(xfer, Flat(dataBufs)), bufs[0], info, tail, Flat(Leftover(dataBufs, xfer, stack)));
    r := Coalesce(bufs[..bufCount]);
  }

  lemma FrameBytes(m: Message, header: seq<byte>, info: seq<seq<byte>>, tail: seq<seq<byte>>, left: seq<byte>)
    requires header == HeaderBytes(Header(m.Flags(), 0, |m.data|, 0))
    requires info == if m.xfer.Some? then [m.xfer.value.info] else []
    requires Flat(tail) == m.data + left
    ensures Flat([header] + info + tail) == m.Frame() + left
  {
    hide Flat, HeaderBytes;
    FlatConcat([header] + info, tail);
    FlatTwo(header, info);
  }

  /** The loop that adds the data buffers to the list. */
  method AddBuffers(bufs: array<seq<byte>>, at: nat, dataBufs: seq<seq<byte>>)
    requires at + |dataBufs| <= bufs.Length
    modifies bufs
    ensures bufs[..at] == old(bufs[..at]) && bufs[at..at + |dataBufs|] == dataBufs
  {
    var i := 0;
    while i < |dataBufs|
      invariant 0 <= i <= |dataBufs|
      invariant forall j :: 0 <= j < at ==> bufs[j] == old(bufs[j])
      invariant forall j :: 0 <= j < i ==> bufs[at + j] == dataBufs[j]
    {
      bufs[at + i] := dataBufs[i];
      i := i + 1;
    }
  }

  /** What stands behind the header and the socket information. */
  lemma TailBytes(dataBufs: seq<seq<byte>>, xfer: Option<Xfer>, stack: seq<seq<byte>>, tail: seq<seq<byte>>)
    requires |stack| == 6 && |tail| == |dataBufs|
    requires var used := if xfer.Some? then 2 else 1;
             if Flat(dataBufs) != [] then tail == dataBufs
             else if used + |dataBufs| < 6 then tail == stack[used..used + |dataBufs|]
             else forall i :: 0 <= i < |tail| ==> tail[i] == []
    ensures Flat(tail) == Flat(dataBufs) + Flat(Leftover(dataBufs, xfer, stack))
  {
    FlatNone(tail, |tail|);
  }

  lemma FlatTwo(a: seq<byte>, rest: seq<seq<byte>>)
    requires |rest| <= 1
    ensures Flat([a] + rest) == a + if rest == [] then [] else rest[0]
  {
    assert ([a] + rest)[1..] == rest;
    if rest != [] {
      assert rest[1..] == [];
    }
  }

  lemma {:induction false} FlatNone(bufs: seq<seq<byte>>, n: nat)
    requires n == |bufs|
    ensures (forall i :: 0 <= i < |bufs| ==> bufs[i] == []) ==> Flat(bufs) == []
  {
    if n > 0 {
      FlatNone(bufs[1..], n - 1);
    }
  }

  /**
   * What is written is the frame and nothing else, whatever the stack held, exactly if
   * there is data, or there are no buffers, or too many for the array on the stack.
   */
  lemma WritesTheFrame(dataBufs: seq<seq<byte>>, xfer: Option<Xfer>)
    ensures (forall stack: seq<seq<byte>> :: |stack| == 6 ==> Flat(Leftover(dataBufs, xfer, stack)) == [])
       <==> Flat(dataBufs) != [] || dataBufs == [] || |dataBufs| + (if xfer.Some? then 2 else 1) >= 6
  {
    hide Flat;
    var used := if xfer.Some? then 2 else 1;
    FlatNone([], 0);
    if Flat(dataBufs) == [] && dataBufs != [] && |dataBufs| + used < 6 {
      var stack: seq<seq<byte>> := [[7], [7], [7], [7], [7], [7]];
      StackLeaks(dataBufs, xfer, stack);
      hide Leftover;
    }
  }

  lemma StackLeaks(dataBufs: seq<seq<byte>>, xfer: Option<Xfer>, stack: seq<seq<byte>>)
    requires |stack| == 6 && forall i :: 0 <= i < 6 ==> stack[i] != []
    requires Flat(dataBufs) == [] && dataBufs != [] && |dataBufs| + (if xfer.Some? then 2 else 1) < 6
    ensures Flat(Leftover(dataBufs, xfer, stack)) != []
  {
    hide Flat;
    var left := Leftover(dataBufs, xfer, stack);
    assert left[0] == stack[if xfer.Some? then 2 else 1];
    if Flat(left) == [] {
      FlatEmpty(left, 0);
    }
  }

  /** One buffer without bytes in it: the second entry of the stack's array goes onto the pipe behind the header. */
  lemma EmptyBufferLeaks(stack: seq<seq<byte>>)
    requires |stack| == 6
    ensures Flat(Leftover([[]], None, stack)) == stack[1]
  {
    FlatEmptyOne();
    assert stack[1..2] == [stack[1]];
    FlatTwo(stack[1], []);
    assert [stack[1]] + [] == [stack[1]];
  }

  lemma FlatEmptyOne()
    ensures Flat([[]]) == []
  {
    FlatTwo([], []);
    var one: seq<seq<byte>> := [[]];
    assert one + [] == one;
  }
}
