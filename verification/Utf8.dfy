/** The UTF-8 decoder that the IDNA code reads host names with. */
module Utf8 {
  import opened Common

  /** What one call leaves behind: the value returned and the advanced cursor. */
  datatype Decoded = Decoded(c: nat, next: nat)

  /** The unsigned -1 that stands for a malformed sequence. */
  const Invalid := UINT_MAX

  /** A Unicode scalar value (section 3 of RFC 3629). */
  predicate IsScalar(c: int) {
    0 <= c < 0xD800 || 0xE000 <= c <= 0x10FFFF
  }

  /** uv__utf8_decode1: the cursor is p, the end is pe. */
  function Decode1(src: seq<byte>, p: nat, pe: nat): (r: Decoded)
    requires p < pe <= |src|
    ensures p < r.next <= pe
    ensures r.c == Invalid || IsScalar(r.c)
  {
    var a := src[p];
    if a < 128 then Decoded(a, p + 1) else DecodeSlow(src, p + 1, pe, a)
  }

  /** uv__utf8_decode1_slow. A lead byte with too few bytes left falls through to the shorter forms. */
  function DecodeSlow(src: seq<byte>, p: nat, pe: nat, a: byte): (r: Decoded)
    requires p <= pe <= |src| && 128 <= a
    ensures p <= r.next <= pe
    ensures r.c == Invalid || IsScalar(r.c)
  {
    var left := pe - p;
    if a > 0xF7 then
      Decoded(Invalid, p)
    else if left >= 3 && a > 0xEF then
      Decoded(Assemble(a % 8, src[p], src[p + 1], src[p + 2], 0x10000), p + 3)
    else if left >= 2 && a > 0xDF then
      Decoded(Assemble(0, 0x80 + a % 16, src[p], src[p + 1], 0x800), p + 2)
    else if left >= 1 && a > 0xBF then
      Decoded(Assemble(0, 0x80, 0x80 + a % 32, src[p], 0x80), p + 1)
    else
      Decoded(Invalid, p)
  }

  /**
   * The test `0x80 == (0xC0 & (b ^ c ^ d))` on the two top bits: an odd number
   * of the three bytes has bit seven set, an even number has bit six set.
   */
  predicate ContinuationXor(b: byte, c: byte, d: byte) {
    (b / 128 + c / 128 + d / 128) % 2 == 1 && (b / 64 % 2 + c / 64 % 2 + d / 64 % 2) % 2 == 0
  }

  function Assemble(a: nat, b: byte, c: byte, d: byte, min: nat): (r: nat)
    requires a < 8
    ensures r == Invalid || IsScalar(r)
  {
    if !ContinuationXor(b, c, d) then Invalid
    else
      var v := a * 0x40000 + b % 64 * 0x1000 + c % 64 * 0x40 + d % 64;
      if v < min || v > 0x10FFFF || 0xD800 <= v <= 0xDFFF then Invalid else v
  }

  /** All code points between two cursors, or None when one sequence is malformed. */
  function CodePoints(src: seq<byte>, s: nat, se: nat): (r: Option<seq<nat>>)
    requires s <= se <= |src|
    ensures r.Some? ==> |r.value| <= se - s && forall i :: 0 <= i < |r.value| ==> IsScalar(r.value[i])
    decreases se - s
  {
    if s == se then Some([])
    else
      var r := Decode1(src, s, se);
      if r.c == Invalid then None
      else
        var rest := CodePoints(src, r.next, se);
        if rest.None? then None else Some([r.c] + rest.value)
  }

  /** The UTF-8 form of a scalar value (section 3 of RFC 3629); for a surrogate, its WTF-8 form. */
  function Encode(c: nat): (r: seq<byte>)
    requires c <= 0x10FFFF
    ensures 1 <= |r| <= 4
  {
    if c < 0x80 then [c]
    else if c < 0x800 then [0xC0 + c / 64, 0x80 + c % 64]
    else if c < 0x10000 then [0xE0 + c / 0x1000, 0x80 + c / 64 % 64, 0x80 + c % 64]
    else [0xF0 + c / 0x40000, 0x80 + c / 0x1000 % 64, 0x80 + c / 64 % 64, 0x80 + c % 64]
  }

  function Payload(e: seq<byte>, i: nat, mark: nat): int
    requires i < |e|
  {
    e[i] as int - mark
  }

  /**
   * The table of section 3 of RFC 3629: how many bytes, in which ranges, and which bits of
   * the number each of them carries.
   */
  lemma EncodeTable(c: nat)
    requires c <= 0x10FFFF
    ensures var e := Encode(c);
            && |e| == (if c <= 0x7F then 1 else if c <= 0x7FF then 2 else if c <= 0xFFFF then 3 else 4)
            && (forall i :: 1 <= i < |e| ==> 0x80 <= e[i] <= 0xBF)
            && (|e| == 1 ==> e[0] == c)
            && (|e| == 2 ==> 0xC0 <= e[0] <= 0xDF && c == Payload(e, 0, 0xC0) * 64 + Payload(e, 1, 0x80))
            && (|e| == 3 ==> 0xE0 <= e[0] <= 0xEF &&
                             c == (Payload(e, 0, 0xE0) * 64 + Payload(e, 1, 0x80)) * 64 + Payload(e, 2, 0x80))
            && (|e| == 4 ==> 0xF0 <= e[0] <= 0xF4 &&
                             c == ((Payload(e, 0, 0xF0) * 64 + Payload(e, 1, 0x80)) * 64 + Payload(e, 2, 0x80)) * 64 + Payload(e, 3, 0x80))
  {
    SixBitDigits(c);
  }

  function EncodeAll(cps: seq<nat>): (r: seq<byte>)
    requires forall i :: 0 <= i < |cps| ==> IsScalar(cps[i])
  {
    if cps == [] then []
    else
      assert IsScalar(cps[0]);
      Encode(cps[0]) + EncodeAll(cps[1..])
  }

  /** Continuation bytes pass the bit test and yield their six payload bits. */
  lemma AssembleContinuation(a: nat, x: nat, y: nat, z: nat, min: nat)
    requires a < 8 && x < 64 && y < 64 && z < 64
    ensures var v := a * 0x40000 + x * 0x1000 + y * 0x40 + z;
      v >= min && IsScalar(v) ==> Assemble(a, 0x80 + x, 0x80 + y, 0x80 + z, min) == v
  {
    assert (0x80 + x) % 64 == x && (0x80 + y) % 64 == y && (0x80 + z) % 64 == z;
    assert ContinuationXor(0x80 + x, 0x80 + y, 0x80 + z) by {
      assert (0x80 + x) / 128 == 1 && (0x80 + y) / 128 == 1 && (0x80 + z) / 128 == 1;
      assert (0x80 + x) / 64 == 2 && (0x80 + y) / 64 == 2 && (0x80 + z) / 64 == 2;
    }
  }

  lemma SixBitDigits(c: nat)
    ensures c == c / 64 * 64 + c % 64
    ensures c / 64 == c / 0x1000 * 64 + c / 64 % 64
    ensures c / 0x1000 == c / 0x40000 * 64 + c / 0x1000 % 64
  {
    assert c / 0x1000 == c / 64 / 64;
    assert c / 0x40000 == c / 0x1000 / 64;
  }

  /** The lead byte's payload and the arithmetic of each length, apart from the text they sit in. */
  lemma LeadPayload(c: nat)
    requires c <= 0x10FFFF
    ensures 0x80 <= c < 0x800 ==> (0xC0 + c / 64) % 32 == c / 64
    ensures 0x800 <= c < 0x10000 ==> (0xE0 + c / 0x1000) % 16 == c / 0x1000
    ensures 0x10000 <= c ==> (0xF0 + c / 0x40000) % 8 == c / 0x40000
  {
  }

  /** Every well-formed sequence decodes to its code point, wherever it stands. */
  lemma DecodeInvertsEncode(src: seq<byte>, p: nat, pe: nat, c: nat)
    requires IsScalar(c)
    requires p + |Encode(c)| <= pe <= |src|
    requires forall i :: 0 <= i < |Encode(c)| ==> src[p + i] == Encode(c)[i]
    ensures Decode1(src, p, pe) == Decoded(c, p + |Encode(c)|)
  {
    assert src[p + 0] == Encode(c)[0];
    if c >= 0x80 {
      LeadPayload(c);
      SixBitDigits(c);
      DecodeTail(src, p, pe, c);
    }
  }

  lemma DecodeTail(src: seq<byte>, p: nat, pe: nat, c: nat)
    requires IsScalar(c) && 0x80 <= c
    requires p + |Encode(c)| <= pe <= |src|
    requires forall i :: 0 <= i < |Encode(c)| ==> src[p + i] == Encode(c)[i]
    requires 0x80 <= c < 0x800 ==> (0xC0 + c / 64) % 32 == c / 64
    requires 0x800 <= c < 0x10000 ==> (0xE0 + c / 0x1000) % 16 == c / 0x1000
    requires 0x10000 <= c ==> (0xF0 + c / 0x40000) % 8 == c / 0x40000
    requires c == c / 64 * 64 + c % 64
    requires c / 64 == c / 0x1000 * 64 + c / 64 % 64
    requires c / 0x1000 == c / 0x40000 * 64 + c / 0x1000 % 64
    ensures DecodeSlow(src, p + 1, pe, Encode(c)[0]) == Decoded(c, p + |Encode(c)|)
  {
    hide Assemble;
    var x, y, z := c / 0x1000 % 64, c / 64 % 64, c % 64;
    assert src[p + 1] == Encode(c)[1];
    if c < 0x800 {
      AssembleContinuation(0, 0, c / 64, z, 0x80);
    } else if c < 0x10000 {
      assert src[p + 2] == Encode(c)[2];
      AssembleContinuation(0, c / 0x1000, y, z, 0x800);
    } else {
      assert src[p + 2] == Encode(c)[2] && src[p + 3] == Encode(c)[3];
      AssembleContinuation(c / 0x40000, x, y, z, 0x10000);
    }
  }

  /** A well-formed text decodes to exactly its code points. */
  lemma {:induction false} CodePointsInvertsEncodeAll(src: seq<byte>, s: nat, cps: seq<nat>)
    requires forall i :: 0 <= i < |cps| ==> IsScalar(cps[i])
    requires s <= |src| && src[s..] == EncodeAll(cps)
    ensures CodePoints(src, s, |src|) == Some(cps)
    decreases |cps|
  {
    hide Decode1, Encode;
    if cps != [] {
      var n := |Encode(cps[0])|;
      assert src[s..] == Encode(cps[0]) + EncodeAll(cps[1..]);
      forall i | 0 <= i < n ensures src[s + i] == Encode(cps[0])[i] {
        assert src[s..][i] == src[s + i];
      }
      DecodeInvertsEncode(src, s, |src|, cps[0]);
      assert src[s + n..] == src[s..][n..] == EncodeAll(cps[1..]);
      CodePointsInvertsEncodeAll(src, s + n, cps[1..]);
      assert [cps[0]] + cps[1..] == cps;
    }
  }

  // ---------- Malformed input ----------

  /** As many bytes are left behind a lead byte as its form needs. */
  predicate Complete(lead: byte, left: nat) {
    left >= if lead >= 0xF0 then 3 else if lead >= 0xE0 then 2 else if lead >= 0xC0 then 1 else 0
  }

  /**
   * What is accepted is a well-formed sequence exactly if it is not cut off by the end and
   * consists of a lead byte and continuation bytes; the decoder itself does not see to that.
   */
  lemma WellFormedExactly(src: seq<byte>, p: nat, pe: nat)
    requires p < pe <= |src| && Decode1(src, p, pe).c != Invalid
    ensures var r := Decode1(src, p, pe);
      src[p..r.next] == Encode(r.c) <==>
      Complete(src[p], pe - p - 1) && forall i :: p < i < r.next ==> 0x80 <= src[i] <= 0xBF
  {
    hide DecodeSlow, Encode;
    var r, a := Decode1(src, p, pe), src[p];
    EncodeTable(r.c);
    if src[p..r.next] == Encode(r.c) {
      forall i | p < i < r.next ensures 0x80 <= src[i] <= 0xBF {
        assert src[i] == Encode(r.c)[i - p];
      }
      assert a == Encode(r.c)[0];
    }
    if Complete(a, pe - p - 1) && forall i :: p < i < r.next ==> 0x80 <= src[i] <= 0xBF {
      if a < 128 {
        assert Encode(a) == [a] by { EncodeTable(a); }
        assert src[p..p + 1] == [a];
      } else {
        AcceptedForm(src, p, pe);
      }
    }
  }

  lemma AcceptedForm(src: seq<byte>, p: nat, pe: nat)
    requires p < pe <= |src| && src[p] >= 0x80 && DecodeSlow(src, p + 1, pe, src[p]).c != Invalid
    requires Complete(src[p], pe - p - 1)
    requires forall i :: p < i < DecodeSlow(src, p + 1, pe, src[p]).next ==> 0x80 <= src[i] <= 0xBF
    ensures src[p..DecodeSlow(src, p + 1, pe, src[p]).next] == Encode(DecodeSlow(src, p + 1, pe, src[p]).c)
  {
    hide Encode, Assemble;
    var a: nat, x: nat := src[p], src[p + 1] - 0x80;
    if a > 0xEF {
      var y: nat, z: nat := src[p + 2] - 0x80, src[p + 3] - 0x80;
      AssembleIs(a - 0xF0, x, y, z, 0x10000);
      EncodeFour(a - 0xF0, x, y, z);
      assert src[p..p + 4] == [src[p], src[p + 1], src[p + 2], src[p + 3]];
    } else if a > 0xDF {
      var y: nat := src[p + 2] - 0x80;
      AssembleIs(0, a - 0xE0, x, y, 0x800);
      EncodeThree(a - 0xE0, x, y);
      assert src[p..p + 3] == [src[p], src[p + 1], src[p + 2]];
    } else {
      AssembleIs(0, 0, a - 0xC0, x, 0x80);
      EncodeTwo(a - 0xC0, x);
      assert src[p..p + 2] == [src[p], src[p + 1]];
    }
  }

  lemma AssembleIs(a: nat, x: nat, y: nat, z: nat, min: nat)
    requires a < 8 && x < 64 && y < 64 && z < 64
    requires Assemble(a, 0x80 + x, 0x80 + y, 0x80 + z, min) != Invalid
    ensures Assemble(a, 0x80 + x, 0x80 + y, 0x80 + z, min) == a * 0x40000 + x * 0x1000 + y * 0x40 + z >= min
    ensures Assemble(a, 0x80 + x, 0x80 + y, 0x80 + z, min) <= 0x10FFFF
  {
    hide ContinuationXor;
    assert (0x80 + x) % 64 == x && (0x80 + y) % 64 == y && (0x80 + z) % 64 == z;
  }

  lemma EncodeTwo(a: nat, x: nat)
    requires a < 32 && x < 64 && a * 64 + x >= 0x80
    ensures Encode(a * 64 + x) == [0xC0 + a, 0x80 + x]
  {}

  lemma LastDigit(high: nat, low: nat)
    requires low < 64
    ensures (high * 64 + low) / 64 == high && (high * 64 + low) % 64 == low
  {}

  lemma EncodeThree(a: nat, x: nat, y: nat)
    requires a < 16 && x < 64 && y < 64 && a * 0x1000 + x * 0x40 + y >= 0x800
    ensures Encode(a * 0x1000 + x * 0x40 + y) == [0xE0 + a, 0x80 + x, 0x80 + y]
  {
    var c := (a * 64 + x) * 64 + y;
    LastDigit(a * 64 + x, y);
    LastDigit(a, x);
    SixBitDigits(c);
    assert c / 0x1000 == a;
  }

  lemma EncodeFour(a: nat, x: nat, y: nat, z: nat)
    requires a < 8 && x < 64 && y < 64 && z < 64
    requires 0x10000 <= a * 0x40000 + x * 0x1000 + y * 0x40 + z <= 0x10FFFF
    ensures Encode(a * 0x40000 + x * 0x1000 + y * 0x40 + z) == [0xF0 + a, 0x80 + x, 0x80 + y, 0x80 + z]
  {
    var c := ((a * 64 + x) * 64 + y) * 64 + z;
    LastDigit((a * 64 + x) * 64 + y, z);
    LastDigit(a * 64 + x, y);
    LastDigit(a, x);
    SixBitDigits(c);
    assert c / 0x1000 == a * 64 + x && c / 0x40000 == a;
  }

  /** The exclusive or of two numbers of two bits. */
  function Xor(i: nat, j: nat): (r: nat)
    requires i < 4 && j < 4
    ensures r < 4
  {
    if i == 0 then j
    else if i == 1 then (if j == 0 then 1 else if j == 1 then 0 else if j == 2 then 3 else 2)
    else if i == 2 then (if j == 0 then 2 else if j == 1 then 3 else if j == 2 then 0 else 1)
    else 3 - j
  }

  lemma XorBits(i: nat, j: nat)
    requires i < 4 && j < 4
    ensures Xor(i, j) / 2 == (i / 2 + j / 2) % 2 && Xor(i, j) % 2 == (i % 2 + j % 2) % 2
  {}

  lemma XorOfThree(i: nat, j: nat, k: nat)
    requires i < 4 && j < 4 && k < 4
    ensures Xor(Xor(i, j), k) == 2 <==> (i / 2 + j / 2 + k / 2) % 2 == 1 && (i % 2 + j % 2 + k % 2) % 2 == 0
  {
    hide Xor;
    var t := Xor(i, j);
    XorBits(i, j);
    XorBits(t, k);
    Parity(i / 2 + j / 2, k / 2);
    Parity(i % 2 + j % 2, k % 2);
    Halves(Xor(t, k));
  }

  lemma Halves(r: nat)
    requires r < 4
    ensures r == 2 <==> r / 2 == 1 && r % 2 == 0
  {}

  lemma Quarter(b: byte)
    ensures b / 64 < 4 && b / 128 == b / 64 / 2
  {}

  /** The test of `0xC0 & (b ^ c ^ d)`, on the top bits of the three bytes. */
  lemma TopBits(b: byte, c: byte, d: byte)
    ensures b / 64 < 4 && c / 64 < 4 && d / 64 < 4
    ensures ContinuationXor(b, c, d) <==> Xor(Xor(b / 64, c / 64), d / 64) == 2
  {
    hide Xor;
    Quarter(b);
    Quarter(c);
    Quarter(d);
    XorOfThree(b / 64, c / 64, d / 64);
  }

  lemma Parity(m: nat, n: nat)
    ensures (m % 2 + n) % 2 == (m + n) % 2
  {}

  /** Two ASCII letters are taken for continuation bytes, since their top bits are alike. */
  lemma MalformedAccepted()
    ensures Decode1([0xE2, 0x41, 0x41], 0, 3) == Decoded(0x2041, 3)
    ensures Encode(0x2041) == [0xE2, 0x81, 0x81]
  {
    hide Assemble, Encode;
    EncodeThree(2, 1, 1);
    var src: seq<byte> := [0xE2, 0x41, 0x41];
    assert Decode1(src, 0, 3) == DecodeSlow(src, 1, 3, 0xE2);
    LettersAssemble();
  }

  lemma LettersAssemble()
    ensures Assemble(0, 0x82, 0x41, 0x41, 0x800) == 0x2041
  {
    assert ContinuationXor(0x82, 0x41, 0x41);
  }

  /** The end of the text only matters to a sequence that runs into it. */
  lemma EndIrrelevant(src: seq<byte>, p: nat, pe: nat, se: nat)
    requires p < pe <= se <= |src|
    requires Decode1(src, p, se).next <= pe
    requires Decode1(src, p, se).c != Invalid
    ensures Decode1(src, p, pe) == Decode1(src, p, se)
  {
  }
}
