/** Lists of buffers, read as one sequence of bytes. */
module Buffers {
  import opened Common

  /** The bytes of a buffer list, in order. */
  function Flat(bufs: seq<seq<byte>>): (r: seq<byte>)
    ensures bufs == [] ==> r == []
  {
    if bufs == [] then [] else bufs[0] + Flat(bufs[1..])
  }

  lemma {:induction false} FlatConcat(a: seq<seq<byte>>, b: seq<seq<byte>>)
    ensures Flat(a + b) == Flat(a) + Flat(b)
  {
    if a == [] {
      assert a + b == b;
    } else {
      assert (a + b)[1..] == a[1..] + b;
      FlatConcat(a[1..], b);
    }
  }

  lemma FlatStep(bufs: seq<seq<byte>>, i: nat)
    requires i < |bufs|
    ensures Flat(bufs[i..]) == bufs[i] + Flat(bufs[i + 1..])
  {
    assert bufs[i..][1..] == bufs[i + 1..];
  }

  /** Taking bytes off one buffer takes them off the front of what starts there. */
  lemma FlatTake(bufs: seq<seq<byte>>, i: nat, n: nat)
    requires i < |bufs| && n <= |bufs[i]|
    ensures var left := bufs[i := bufs[i][n..]];
            && |bufs[i]| <= |Flat(bufs[i..])| && (|bufs[i]| == |Flat(bufs[i..])| || i + 1 < |bufs|)
            && Flat(left[i..]) == Flat(bufs[i..])[n..]
            && (n == |bufs[i]| ==> Flat(left[i + 1..]) == Flat(bufs[i..])[n..])
  {
    var left := bufs[i := bufs[i][n..]];
    FlatStep(bufs, i);
    FlatStep(left, i);
    assert left[i + 1..] == bufs[i + 1..];
    assert (bufs[i] + Flat(bufs[i + 1..]))[n..] == bufs[i][n..] + Flat(bufs[i + 1..]);
  }

  lemma {:induction false} FlatEmpty(bufs: seq<seq<byte>>, i: nat)
    requires i < |bufs| && Flat(bufs) == []
    ensures bufs[i] == []
  {
    assert |bufs[0]| + |Flat(bufs[1..])| == 0;
    if i > 0 {
      FlatEmpty(bufs[1..], i - 1);
    }
  }

  lemma DropDrop(s: seq<byte>, i: nat, n: nat)
    requires i + n <= |s|
    ensures s[i..][n..] == s[i + n..]
  {}

  /** Nothing is left at the end of the list, and if nothing is left, the last buffer is empty. */
  lemma FlatRest(bufs: seq<seq<byte>>, i: nat)
    requires i <= |bufs|
    ensures i == |bufs| ==> Flat(bufs[i..]) == []
    ensures i < |bufs| && |Flat(bufs[i..])| == 0 ==> bufs[|bufs| - 1] == []
  {
    if i == |bufs| {
      assert bufs[i..] == [];
    } else if |Flat(bufs[i..])| == 0 {
      FlatEmpty(bufs[i..], |bufs| - 1 - i);
    }
  }

  /** uv__count_bufs. */
  method CountBufs(bufs: seq<seq<byte>>) returns (bytes: nat)
    ensures bytes == |Flat(bufs)|
  {
    bytes := 0;
    var i := 0;
    assert bufs[0..] == bufs;
    while i < |bufs|
      invariant 0 <= i <= |bufs|
      invariant bytes + |Flat(bufs[i..])| == |Flat(bufs)|
    {
      FlatStep(bufs, i);
      bytes := bytes + |bufs[i]|;
      i := i + 1;
    }
  }
}
