/**
 * The Punycode decoder of sections 5, 6.1 and 6.2 of RFC 3492, in unbounded integers, with
 * the parameters of section 5. It is written from the standard and shares nothing with the
 * encoder.
 */
module Rfc3492 {
  import opened Arith
  import opened Common

  /** Sections 3.3 and 6.2: t for the digit at index k. */
  function DigitThreshold(k: nat, bias: nat): nat {
    if k <= bias + 1 then 1 else if k >= bias + 26 then 26 else k - bias
  }

  /** Section 6.1, with damp 700, skew 38, tmin 1, tmax 26 and base 36. */
  function Adapted(delta: nat, numPoints: nat, firstTime: bool): nat
    requires numPoints > 0
  {
    var scaled: nat := if firstTime then delta / 700 else delta / 2;
    DivBounds(scaled, numPoints);
    Settle(scaled + scaled / numPoints, 0)
  }

  /** The while loop of section 6.1 and what follows it. */
  function Settle(delta: nat, k: nat): nat {
    if delta > ((36 - 1) * 26) / 2 then Settle(delta / (36 - 1), k + 36)
    else k + (36 - 1 + 1) * delta / (delta + 38)
  }

  /** Section 5: A to Z and a to z are 0 to 25, 0 to 9 are 26 to 35. */
  function DigitValue(b: byte): Option<nat> {
    if 65 <= b <= 90 then Some(b - 65)
    else if 97 <= b <= 122 then Some(b - 97)
    else if 48 <= b <= 57 then Some(b - 22)
    else None
  }

  datatype Decoder = Decoder(n: nat, i: nat, bias: nat, out: seq<nat>)

  const InitialDecoder := Decoder(128, 0, 72, [])

  /** One generalized variable-length integer: the advanced i and what follows it. */
  function DecodeInt(input: seq<byte>, i: nat, w: nat, k: nat, bias: nat): (r: Option<(nat, seq<byte>)>)
    ensures r.Some? ==> r.value.0 >= i && |r.value.1| < |input|
  {
    if input == [] then None
    else
      match DigitValue(input[0])
      case None => None
      case Some(digit) =>
        var t := DigitThreshold(k, bias);
        NotNegative(digit, w);
        if digit < t then Some((i + digit * w, input[1..]))
        else
          NotNegative(w, 36 - t);
          DecodeInt(input[1..], i + digit * w, w * (36 - t), k + 36, bias)
  }

  lemma NotNegative(a: nat, b: nat)
    ensures a * b >= 0
  {
  }

  function DecodeLoop(input: seq<byte>, d: Decoder): Option<seq<nat>>
    decreases |input|
  {
    if input == [] then Some(d.out)
    else
      match DecodeInt(input, d.i, 1, 36, d.bias)
      case None => None
      case Some((i, rest)) =>
        var n := d.n + i / (|d.out| + 1);
        if n < 128 then None
        else DecodeLoop(rest, Insert(d, i, n))
  }

  /** The state after the insertion: the new bias, and n at position i modulo the new length. */
  function Insert(d: Decoder, i: nat, n: nat): Decoder
    requires i >= d.i
  {
    var points := |d.out| + 1;
    var at := i % points;
    Decoder(n, at + 1, Adapted(i - d.i, points, d.i == 0), d.out[..at] + [n] + d.out[at..])
  }

  /** The index of the last delimiter, a hyphen, or zero if there is none. */
  function BasicLength(input: seq<byte>, upTo: nat): (b: nat)
    requires upTo <= |input|
    ensures 0 < b ==> b < upTo
    decreases upTo
  {
    if upTo == 0 then 0
    else if input[upTo - 1] == 45 then upTo - 1
    else BasicLength(input, upTo - 1)
  }

  /** Bytes as code points. */
  function Widen(s: seq<byte>): (r: seq<nat>)
    ensures |r| == |s| && forall j :: 0 <= j < |s| ==> r[j] == s[j]
  {
    if s == [] then [] else [s[0] as nat] + Widen(s[1..])
  }

  function Decode(input: seq<byte>): Option<seq<nat>> {
    var b := BasicLength(input, |input|);
    if exists j | 0 <= j < b :: input[j] >= 128 then None
    else
      DecodeLoop(if b > 0 then input[b + 1..] else input, InitialDecoder.(out := Widen(input[..b])))
  }
}
