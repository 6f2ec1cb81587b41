/**
 * Punycode: what the label encoder computes, in unbounded arithmetic. The main result is
 * that the decoder of RFC 3492, which shares nothing with it, inverts it.
 */
module Punycode {
  import opened Arith
  import opened Common
  import opened Rfc3492

  // ---------- What the label encoder computes ----------

  /** t for a digit, as the digit loop of the encoder computes it. */
  function Threshold(k: nat, bias: nat): (t: nat)
    ensures 1 <= t <= 26
  {
    if k <= bias then 1 else if k >= bias + 26 then 26 else k - bias
  }

  /** The new bias after a delta was written. */
  function Adapt(delta: nat, numPoints: nat, firstTime: bool): nat
    requires numPoints > 0
  {
    var d := if firstTime then delta / 700 else delta / 2;
    AdaptLoop(d + Div(d, numPoints))
  }

  function AdaptLoop(d: nat): (bias: nat)
    decreases d
  {
    if d > 455 then 36 + AdaptLoop(d / 35) else Div(36 * d, d + 38)
  }

  /** The alphabet of the encoder. */
  function Digit(q: nat): byte
    requires q < 36
  {
    if q < 26 then 97 + q else 48 + (q - 26)
  }

  const Delimiter: byte := 45

  /** n, delta, bias, h and first are the variables of the source. */
  datatype Encoder = Encoder(n: nat, delta: nat, bias: nat, h: nat, first: bool)

  /** The digits of q, least significant first, from weight index k on. */
  function EncodeInt(q: nat, k: nat, bias: nat): (r: seq<byte>)
    ensures |r| > 0
    decreases q
  {
    var t := Threshold(k, bias);
    if q < t then [Digit(q)]
    else
      QuotientShrinks(q, t);
      [Digit(t + (q - t) % (36 - t))] + EncodeInt(Div(q - t, 36 - t), k + 36, bias)
  }

  lemma QuotientShrinks(q: nat, t: nat)
    requires 1 <= t <= 26 && t <= q
    ensures Div(q - t, 36 - t) * 10 <= q && Div(q - t, 36 - t) < q
    ensures t <= t + (q - t) % (36 - t) < 36
  {
    MulMono(10, 36 - t, Div(q - t, 36 - t));
  }

  function Count(cps: seq<nat>, n: nat): (r: nat)
    ensures r <= |cps|
  {
    if cps == [] then 0 else (if cps[0] >= n then 1 else 0) + Count(cps[1..], n)
  }

  /** The smallest code point that is at least n; UINT_MAX when there is none. */
  function MinAtLeast(cps: seq<nat>, n: nat): (m: nat)
    requires Points(cps)
    ensures m <= UINT_MAX
    ensures forall i :: 0 <= i < |cps| && cps[i] >= n ==> m <= cps[i]
    ensures m == UINT_MAX || (m in cps && m >= n)
  {
    if cps == [] then UINT_MAX
    else
      var m := MinAtLeast(cps[1..], n);
      if cps[0] >= n && cps[0] < m then cps[0] else m
  }

  ghost predicate Points(cps: seq<nat>) {
    forall i :: 0 <= i < |cps| ==> cps[i] <= 0x10FFFF
  }

  lemma {:induction false} CountMonotone(cps: seq<nat>, n: nat, n': nat)
    requires n <= n'
    ensures Count(cps, n') <= Count(cps, n)
    ensures (exists c :: c in cps && n <= c < n') ==> Count(cps, n') < Count(cps, n)
  {
    if cps != [] {
      CountMonotone(cps[1..], n, n');
      if c :| c in cps && n <= c < n' {
        assert c == cps[0] || c in cps[1..];
      }
    }
  }

  lemma {:induction false} CountPositive(cps: seq<nat>, n: nat)
    ensures Count(cps, n) > 0 <==> exists c :: c in cps && c >= n
  {
    if cps != [] {
      CountPositive(cps[1..], n);
      if Count(cps, n) > 0 {
        if cps[0] >= n {
          assert cps[0] in cps;
        } else {
          var c :| c in cps[1..] && c >= n;
          assert c in cps;
        }
      }
      if c :| c in cps && c >= n {
        assert c == cps[0] || c in cps[1..];
      }
    }
  }

  lemma {:induction false} NoneAtLeast(cps: seq<nat>, n: nat)
    requires Count(cps, n) == 0
    ensures forall i :: 0 <= i < |cps| ==> cps[i] < n
  {
    if cps != [] {
      NoneAtLeast(cps[1..], n);
    }
  }

  lemma NextMinimum(cps: seq<nat>, n: nat)
    requires Points(cps) && Count(cps, n) > 0
    ensures n <= MinAtLeast(cps, n) <= 0x10FFFF && MinAtLeast(cps, n) in cps
    ensures Count(cps, MinAtLeast(cps, n) + 1) < Count(cps, n)
  {
    CountPositive(cps, n);
    var c :| c in cps && c >= n;
    CountMonotone(cps, n, MinAtLeast(cps, n) + 1);
  }

  /** The outer loop, from its test on: the digits still to be written, or None for an overflow. */
  function Passes(cps: seq<nat>, e: Encoder): Option<seq<byte>>
    requires Points(cps)
    decreases Count(cps, e.n), 0
  {
    if Count(cps, e.n) == 0 then Some([])
    else
      NextMinimum(cps, e.n);
      var m := MinAtLeast(cps, e.n);
      var delta := e.delta + Times(m - e.n, e.h + 1);
      if delta > UINT_MAX then None
      else Scan(cps, 0, e.(n := m, delta := delta))
  }

  /** The inner loop at index j, and what comes after it. */
  function Scan(cps: seq<nat>, j: nat, e: Encoder): Option<seq<byte>>
    requires Points(cps) && j <= |cps|
    decreases Count(cps, e.n + 1), 1 + |cps| - j
  {
    if j == |cps| then Passes(cps, e.(n := e.n + 1, delta := e.delta + 1))
    else
      var delta := if cps[j] < e.n then e.delta + 1 else e.delta;
      if delta > UINT_MAX then None
      else if cps[j] != e.n then Scan(cps, j + 1, e.(delta := delta))
      else
        var rest := Scan(cps, j + 1, Emitted(e));
        if rest.None? then None else Some(EncodeInt(e.delta, 36, e.bias) + rest.value)
  }

  /** The state after the digits of delta are written. */
  function Emitted(e: Encoder): Encoder {
    e.(delta := 0, bias := Adapt(e.delta, e.h + 1, e.first), h := e.h + 1, first := false)
  }

  /** The ASCII code points, in order. */
  function Basic(cps: seq<nat>): (r: seq<byte>) {
    if cps == [] then []
    else (if cps[0] < 128 then [cps[0]] else []) + Basic(cps[1..])
  }

  const AcePrefix: seq<byte> := [120, 110, 45, 45]  // "xn--"

  /** A whole label: unchanged when it is ASCII, prefix and Punycode otherwise. */
  function Label(cps: seq<nat>): Option<seq<byte>>
    requires Points(cps)
  {
    var basic := Basic(cps);
    if Count(cps, 128) == 0 then Some(basic)
    else
      var digits := Passes(cps, Encoder(128, 0, 72, |basic|, true));
      if digits.None? then None
      else Some(AcePrefix + basic + (if |basic| > 0 then [Delimiter] else []) + digits.value)
  }

  // ---------- The decoder inverts the encoder ----------

  lemma ThresholdAgrees(k: nat, bias: nat)
    ensures Threshold(k, bias) == DigitThreshold(k, bias)
  {
  }

  lemma {:induction false} LoopAgrees(d: nat, k: nat)
    ensures Settle(d, k) == k + AdaptLoop(d)
    decreases d
  {
    if d > 455 {
      LoopAgrees(d / 35, k + 36);
    }
  }

  lemma AdaptAgrees(delta: nat, numPoints: nat, firstTime: bool)
    requires numPoints > 0
    ensures Adapt(delta, numPoints, firstTime) == Adapted(delta, numPoints, firstTime)
  {
    hide Settle, AdaptLoop;
    var d := if firstTime then delta / 700 else delta / 2;
    LoopAgrees(d + Div(d, numPoints), 0);
  }

  lemma DigitAgrees(q: nat)
    requires q < 36
    ensures DigitValue(Digit(q)) == Some(q)
  {
  }

  /** Those code points of s that are below n, in order. */
  function Below(s: seq<nat>, n: nat): (r: seq<nat>)
    ensures |r| <= |s|
  {
    if s == [] then []
    else (if s[0] < n then [s[0]] else []) + Below(s[1..], n)
  }

  lemma {:induction false} BelowAppend(a: seq<nat>, b: seq<nat>, n: nat)
    ensures Below(a + b, n) == Below(a, n) + Below(b, n)
  {
    if a == [] {
      assert a + b == b;
    } else {
      assert (a + b)[1..] == a[1..] + b;
      BelowAppend(a[1..], b, n);
    }
  }

  /** How the two halves around index j grow and shrink when the index moves on. */
  lemma BelowStep(cps: seq<nat>, j: nat, n: nat)
    requires j < |cps|
    ensures Below(cps[..j + 1], n + 1) == Below(cps[..j], n + 1) + (if cps[j] <= n then [cps[j]] else [])
    ensures Below(cps[j..], n) == (if cps[j] < n then [cps[j]] else []) + Below(cps[j + 1..], n)
  {
    assert cps[..j + 1] == cps[..j] + [cps[j]];
    assert cps[j..] == [cps[j]] + cps[j + 1..];
    BelowAppend(cps[..j], [cps[j]], n + 1);
  }

  lemma {:induction false} BelowGap(s: seq<nat>, n: nat, n': nat)
    requires n <= n' && forall i :: 0 <= i < |s| && s[i] >= n ==> s[i] >= n'
    ensures Below(s, n) == Below(s, n')
  {
    if s != [] {
      BelowGap(s[1..], n, n');
    }
  }

  lemma BelowNothing(n: nat)
    ensures Below([], n) == []
  {
  }

  lemma {:induction false} BelowAll(s: seq<nat>, n: nat)
    requires forall i :: 0 <= i < |s| ==> s[i] < n
    ensures Below(s, n) == s
  {
    if s != [] {
      BelowAll(s[1..], n);
      assert [s[0]] + s[1..] == s;
    }
  }

  /** One digit of the decoder, with the products named. */
  lemma DecodeIntStep(input: seq<byte>, i: nat, w: nat, k: nat, bias: nat, digit: nat)
    requires input != [] && DigitValue(input[0]) == Some(digit)
    ensures DecodeInt(input, i, w, k, bias)
         == if digit < Threshold(k, bias) then Some((i + Times(digit, w), input[1..]))
            else DecodeInt(input[1..], i + Times(digit, w), Times(w, 36 - Threshold(k, bias)), k + 36, bias)
  {
    ThresholdAgrees(k, bias);
    hide Threshold, DigitThreshold, DigitValue;
  }

  /** The variable-length integers agree digit by digit. */
  lemma {:induction false} DecodeIntInverts(q: nat, k: nat, bias: nat, rest: seq<byte>, i: nat, w: nat)
    ensures DecodeInt(EncodeInt(q, k, bias) + rest, i, w, k, bias) == Some((i + Times(q, w), rest))
    decreases q
  {
    hide Threshold, Times, Div, DecodeInt, Digit, DigitValue;
    var t := Threshold(k, bias);
    var input := EncodeInt(q, k, bias) + rest;
    if q < t {
      DigitAgrees(q);
      assert input[1..] == rest;
      DecodeIntStep(input, i, w, k, bias, q);
    } else {
      QuotientShrinks(q, t);
      var z := Div(q - t, 36 - t);
      var digit := t + (q - t) % (36 - t);
      EncodeIntStep(q, k, bias, rest);
      DecodeIntStep(input, i, w, k, bias, digit);
      DecodeIntInverts(z, k + 36, bias, rest, i + Times(digit, w), Times(w, 36 - t));
      PositionalValue(digit, 36 - t, z, q, w) by { DivModSum(q - t, 36 - t); }
    }
  }

  lemma DivModSum(a: nat, b: nat)
    requires b > 0
    ensures a == Times(Div(a, b), b) + a % b
  {
  }

  lemma EncodeIntStep(q: nat, k: nat, bias: nat, rest: seq<byte>)
    requires q >= Threshold(k, bias)
    ensures var t := Threshold(k, bias);
      var digit := t + (q - t) % (36 - t);
      var input := EncodeInt(q, k, bias) + rest;
      digit < 36 && input != [] && DigitValue(input[0]) == Some(digit) &&
      input[1..] == EncodeInt(Div(q - t, 36 - t), k + 36, bias) + rest
  {
    hide Threshold, Div;
    var t := Threshold(k, bias);
    QuotientShrinks(q, t);
    var digit := t + (q - t) % (36 - t);
    assert EncodeInt(q, k, bias) + rest == [Digit(digit)] + (EncodeInt(Div(q - t, 36 - t), k + 36, bias) + rest);
  }

  lemma PositionalValue(digit: nat, y: nat, z: nat, q: nat, w: nat)
    requires q == digit + Times(z, y)
    ensures Times(digit, w) + Times(z, Times(w, y)) == Times(q, w)
  {
    Distribute(digit, z * y, w);
    assert z * (w * y) == (z * y) * w;
  }

  /**
   * The encoder at index j of a pass and the decoder are in step: the decoder
   * holds every code point emitted so far in its place, and delta is the number
   * of decoder positions between its state and the encoder's.
   */
  ghost predicate InStep(cps: seq<nat>, j: nat, e: Encoder, d: Decoder)
    requires j <= |cps|
  {
    && d.out == Below(cps[..j], e.n + 1) + Below(cps[j..], e.n)
    && e.h == |d.out|
    && e.bias == d.bias
    && (e.first <==> d.i == 0)
    && d.n <= e.n && 128 <= e.n
    && e.delta + d.i == Times(e.n - d.n, e.h + 1) + |Below(cps[..j], e.n + 1)|
  }

  lemma {:induction false} PassesDecode(cps: seq<nat>, e: Encoder, d: Decoder)
    requires Points(cps)
    requires d.out == Below(cps, e.n) && e.h == |d.out| && e.bias == d.bias && (e.first <==> d.i == 0)
    requires d.n <= e.n && 128 <= e.n
    requires e.delta + d.i == Times(e.n - d.n, e.h + 1)
    requires Passes(cps, e).Some?
    ensures DecodeLoop(Passes(cps, e).value, d) == Some(cps)
    decreases Count(cps, e.n), 0
  {
    hide Times, Scan, MinAtLeast, Below, Count;
    if Count(cps, e.n) == 0 {
      NoneAtLeast(cps, e.n);
      BelowAll(cps, e.n);
    } else {
      NextMinimum(cps, e.n);
      var m := MinAtLeast(cps, e.n);
      BelowGap(cps, e.n, m);
      var e' := e.(n := m, delta := e.delta + Times(m - e.n, e.h + 1));
      TimesSum(m - e.n, e.n - d.n, e.h + 1);
      assert cps[0..] == cps;
      ScanDecode(cps, 0, e', d);
    }
  }

  lemma {:induction false} ScanDecode(cps: seq<nat>, j: nat, e: Encoder, d: Decoder)
    requires Points(cps) && j <= |cps|
    requires InStep(cps, j, e, d)
    requires Scan(cps, j, e).Some?
    ensures DecodeLoop(Scan(cps, j, e).value, d) == Some(cps)
    decreases Count(cps, e.n + 1), 1 + |cps| - j
  {
    hide Times, Passes, Count, DecodeLoop, EncodeInt, Insert, Adapt, Adapted, Below;
    if j == |cps| {
      assert cps[..j] == cps && cps[j..] == [];
      BelowNothing(e.n);
      TimesSum(e.n - d.n, 1, e.h + 1);
      assert e.n - d.n + 1 == e.n + 1 - d.n;
      PassesDecode(cps, e.(n := e.n + 1, delta := e.delta + 1), d);
    } else {
      BelowStep(cps, j, e.n);
      if cps[j] != e.n {
        var e' := e.(delta := if cps[j] < e.n then e.delta + 1 else e.delta);
        assert InStep(cps, j + 1, e', d);
        ScanDecode(cps, j + 1, e', d);
      } else {
        EmissionInserts(cps, j, e, d);
        ScanDecode(cps, j + 1, Emitted(e), Insert(d, d.i + e.delta, e.n));
        EmissionDecodes(cps, j, e, d, Scan(cps, j + 1, Emitted(e)).value);
      }
    }
  }

  /** The advanced i splits into the encoder's n and the place among the code points before index j. */
  lemma EmissionPlace(cps: seq<nat>, j: nat, e: Encoder, d: Decoder)
    requires Points(cps) && j < |cps| && cps[j] == e.n
    requires InStep(cps, j, e, d)
    ensures var i := d.i + e.delta;
      var points := |d.out| + 1;
      var at := |Below(cps[..j], e.n + 1)|;
      at <= |d.out| && i / points == e.n - d.n && i % points == at
  {
    hide Below;
    DivUnique(d.i + e.delta, |d.out| + 1, e.n - d.n, |Below(cps[..j], e.n + 1)|);
  }

  /** One emission moves the decoder to the encoder's n and inserts it where it belongs. */
  lemma EmissionInserts(cps: seq<nat>, j: nat, e: Encoder, d: Decoder)
    requires Points(cps) && j < |cps| && cps[j] == e.n
    requires InStep(cps, j, e, d)
    ensures InStep(cps, j + 1, Emitted(e), Insert(d, d.i + e.delta, e.n))
  {
    hide Adapt, Adapted, Times, Div, Below;
    AdaptAgrees(e.delta, e.h + 1, e.first);
    BelowStep(cps, j, e.n);
    EmissionPlace(cps, j, e, d);
    TimesSum(0, 0, e.h + 2);
    var at := |Below(cps[..j], e.n + 1)|;
    assert d.out[..at] == Below(cps[..j], e.n + 1);
    assert d.out[at..] == Below(cps[j + 1..], e.n);
  }

  lemma EmissionDecodes(cps: seq<nat>, j: nat, e: Encoder, d: Decoder, rest: seq<byte>)
    requires Points(cps) && j < |cps| && cps[j] == e.n
    requires InStep(cps, j, e, d)
    ensures DecodeLoop(EncodeInt(e.delta, 36, e.bias) + rest, d) == DecodeLoop(rest, Insert(d, d.i + e.delta, e.n))
  {
    hide Insert, Times, EncodeInt, DecodeInt, Below, Div;
    EmissionPlace(cps, j, e, d);
    DecodeIntInverts(e.delta, 36, e.bias, rest, d.i, 1);
    TimesOne(e.delta);
  }

  lemma TimesOne(a: nat)
    ensures Times(a, 1) == a
  {
  }

  lemma {:induction false} BasicIsBelow(cps: seq<nat>)
    ensures Widen(Basic(cps)) == Below(cps, 128)
  {
    if cps != [] {
      BasicIsBelow(cps[1..]);
    }
  }

  /** Lower-case letters and decimal digits only. */
  ghost predicate AllDigits(s: seq<byte>) {
    forall j :: 0 <= j < |s| ==> 97 <= s[j] <= 122 || 48 <= s[j] <= 57
  }

  lemma {:induction false} DigitsHoldNoDelimiter(q: nat, k: nat, bias: nat)
    ensures AllDigits(EncodeInt(q, k, bias))
    decreases q
  {
    var t := Threshold(k, bias);
    if q >= t {
      QuotientShrinks(q, t);
      DigitsHoldNoDelimiter((q - t) / (36 - t), k + 36, bias);
    }
  }

  lemma {:induction false} PassesAllDigits(cps: seq<nat>, e: Encoder)
    requires Points(cps) && Passes(cps, e).Some?
    ensures AllDigits(Passes(cps, e).value)
    decreases Count(cps, e.n), 0
  {
    if Count(cps, e.n) > 0 {
      NextMinimum(cps, e.n);
      var m := MinAtLeast(cps, e.n);
      ScanAllDigits(cps, 0, e.(n := m, delta := e.delta + Times(m - e.n, e.h + 1)));
    }
  }

  lemma {:induction false} ScanAllDigits(cps: seq<nat>, j: nat, e: Encoder)
    requires Points(cps) && j <= |cps| && Scan(cps, j, e).Some?
    ensures AllDigits(Scan(cps, j, e).value)
    decreases Count(cps, e.n + 1), 1 + |cps| - j
  {
    if j == |cps| {
      PassesAllDigits(cps, e.(n := e.n + 1, delta := e.delta + 1));
    } else if cps[j] != e.n {
      ScanAllDigits(cps, j + 1, e.(delta := if cps[j] < e.n then e.delta + 1 else e.delta));
    } else {
      DigitsHoldNoDelimiter(e.delta, 36, e.bias);
      ScanAllDigits(cps, j + 1, Emitted(e));
    }
  }

  lemma {:induction false} LastDelimiter(input: seq<byte>, b: nat, upTo: nat)
    requires upTo <= |input| && b <= upTo
    requires forall j :: b <= j < upTo ==> input[j] != Delimiter
    ensures BasicLength(input, upTo) == BasicLength(input, b)
    decreases upTo
  {
    if upTo > b {
      LastDelimiter(input, b, upTo - 1);
    }
  }

  /** The encoded form splits at its last delimiter into the basic code points and the digits. */
  lemma SplitAtDelimiter(basic: seq<byte>, digits: seq<byte>)
    requires AllDigits(digits)
    ensures var input := basic + (if |basic| > 0 then [Delimiter] else []) + digits;
      BasicLength(input, |input|) == |basic| && input[..|basic|] == basic &&
      (if |basic| > 0 then input[|basic| + 1..] else input) == digits
  {
    var mark := if |basic| > 0 then [Delimiter] else [];
    var input := basic + mark + digits;
    var b := |basic + mark|;
    forall j | b <= j < |input| ensures input[j] != Delimiter {
      assert input[j] == digits[j - b];
    }
    LastDelimiter(input, b, |input|);
    assert basic == [] ==> input == digits;
  }

  /**
   * The main theorem: a label with a code point outside ASCII encodes to "xn--" followed by
   * a text that the decoder of section 6.2 of RFC 3492 maps back to exactly the label's code
   * points, in order. Its digits are lower case. That leaves one text only: a number has
   * one variable-length form, and code points go in in order.
   */
  lemma RoundTrip(cps: seq<nat>)
    requires Points(cps) && (exists c :: c in cps && c >= 128)
    requires Label(cps).Some?
    ensures |Label(cps).value| > 4 + |Basic(cps)| && Label(cps).value[..4] == [120, 110, 45, 45]
    ensures Decode(Label(cps).value[4..]) == Some(cps)
    ensures AllDigits(Label(cps).value[4 + |Basic(cps)| + (if Basic(cps) == [] then 0 else 1)..])
  {
    hide Decode, Passes, Basic, AllDigits;
    CountPositive(cps, 128);
    PassesAllDigits(cps, Encoder(128, 0, 72, |Basic(cps)|, true));
    PassesWrite(cps, Encoder(128, 0, 72, |Basic(cps)|, true));
    var digits := Passes(cps, Encoder(128, 0, 72, |Basic(cps)|, true)).value;
    var tail := Basic(cps) + (if |Basic(cps)| > 0 then [Delimiter] else []) + digits;
    assert Label(cps).value == AcePrefix + tail;
    assert Label(cps).value[4..] == tail;
    assert Label(cps).value[4 + |Basic(cps)| + (if Basic(cps) == [] then 0 else 1)..] == digits;
    TailDecodes(cps, digits);
  }

  lemma PassesWrite(cps: seq<nat>, e: Encoder)
    requires Points(cps) && Passes(cps, e).Some? && Count(cps, e.n) > 0
    ensures Passes(cps, e).value != []
  {
    hide Scan, Times, MinAtLeast, Count;
    assert cps[0..] == cps;
    NextMinimum(cps, e.n);
    var m := MinAtLeast(cps, e.n);
    ScanWrites(cps, 0, e.(n := m, delta := e.delta + Times(m - e.n, e.h + 1)));
  }

  lemma {:induction false} ScanWrites(cps: seq<nat>, j: nat, e: Encoder)
    requires Points(cps) && j <= |cps| && Scan(cps, j, e).Some? && e.n in cps[j..]
    ensures Scan(cps, j, e).value != []
    decreases |cps| - j
  {
    hide Adapt, EncodeInt;
    assert cps[j..] == [cps[j]] + cps[j + 1..];
    if cps[j] != e.n {
      ScanWrites(cps, j + 1, e.(delta := if cps[j] < e.n then e.delta + 1 else e.delta));
    }
  }

  /** An ASCII label is written as it is. */
  lemma PlainLabel(cps: seq<nat>)
    requires forall i :: 0 <= i < |cps| ==> cps[i] < 128
    ensures Label(cps).Some? && Widen(Label(cps).value) == cps
  {
    CountPositive(cps, 128);
    BasicIsBelow(cps);
    BelowAll(cps, 128);
  }

  // ---------- Which labels are encoded ----------

  /** No delta of a short label leaves 32 bits: the code points below n are at most n times the positions. */
  lemma {:induction false} PassesFit(cps: seq<nat>, e: Encoder)
    requires Points(cps) && |cps| <= 3854
    requires e.h + Count(cps, e.n) == |cps| && e.delta <= Times(e.n, |cps| + 1)
    ensures Passes(cps, e).Some?
    decreases Count(cps, e.n), 0
  {
    hide Times, Scan, MinAtLeast;
    if Count(cps, e.n) > 0 {
      NextMinimum(cps, e.n);
      var m := MinAtLeast(cps, e.n);
      DeltaFits(m - e.n, e.n, e.h + 1, |cps| + 1);
      CountGap(cps, e.n, m);
      CountEqual(cps, m);
      assert cps[0..] == cps;
      ScanFits(cps, 0, e.(n := m, delta := e.delta + Times(m - e.n, e.h + 1)));
    }
  }

  /** How many of s are exactly n. */
  function Same(s: seq<nat>, n: nat): (r: nat)
    ensures r <= |s|
  {
    if s == [] then 0 else (if s[0] == n then 1 else 0) + Same(s[1..], n)
  }

  lemma {:induction false} CountEqual(s: seq<nat>, n: nat)
    ensures Count(s, n) == Count(s, n + 1) + Same(s, n)
  {
    if s != [] {
      CountEqual(s[1..], n);
    }
  }

  lemma {:induction false} CountGap(s: seq<nat>, n: nat, n': nat)
    requires n <= n' && forall i :: 0 <= i < |s| && s[i] >= n ==> s[i] >= n'
    ensures Count(s, n) == Count(s, n')
  {
    if s != [] {
      CountGap(s[1..], n, n');
    }
  }

  lemma DeltaFits(x: nat, n: nat, y: nat, positions: nat)
    requires y <= positions <= 3855 && x + n <= 0x10FFFF
    ensures Times(n, positions) + Times(x, y) <= Times(n + x, positions)
    ensures Times(n + x, positions) + positions <= UINT_MAX
  {
    MulMono(y, positions, x);
    TimesSum(n, x, positions);
    MulMono(n + x, 0x10FFFF, positions);
  }

  lemma {:induction false} ScanFits(cps: seq<nat>, j: nat, e: Encoder)
    requires Points(cps) && j <= |cps| <= 3854 && e.n <= 0x10FFFF
    requires e.h + Count(cps, e.n + 1) + Same(cps[j..], e.n) == |cps| && e.delta <= Times(e.n, |cps| + 1) + j
    ensures Scan(cps, j, e).Some?
    decreases Count(cps, e.n + 1), 1 + |cps| - j
  {
    hide Times, Passes, Adapt, EncodeInt, Count;
    DeltaFits(0, e.n, 0, |cps| + 1);
    if j == |cps| {
      assert cps[j..] == [];
      TimesSum(e.n, 1, |cps| + 1);
      PassesFit(cps, e.(n := e.n + 1, delta := e.delta + 1));
    } else {
      assert cps[j..] == [cps[j]] + cps[j + 1..];
      if cps[j] == e.n {
        ScanFits(cps, j + 1, Emitted(e));
      } else {
        ScanFits(cps, j + 1, e.(delta := if cps[j] < e.n then e.delta + 1 else e.delta));
      }
    }
  }

  /** Labels of up to 3854 code points are always encoded; a name in the DNS has at most 63 bytes a label. */
  lemma ShortLabels(cps: seq<nat>)
    requires Points(cps) && |cps| <= 3854
    ensures Label(cps).Some?
  {
    hide Passes;
    BasicCounts(cps);
    PassesFit(cps, Encoder(128, 0, 72, |Basic(cps)|, true));
  }

  lemma {:induction false} BasicCounts(cps: seq<nat>)
    ensures |Basic(cps)| + Count(cps, 128) == |cps|
  {
    if cps != [] {
      BasicCounts(cps[1..]);
    }
  }

  // ---------- A label, byte by byte ----------

  /** "bücher" is "xn--bcher-kva". */
  lemma Sample()
    ensures Label([98, 252, 99, 104, 101, 114]) == Some([120, 110, 45, 45, 98, 99, 104, 101, 114, 45, 107, 118, 97])
  {
    var cps: seq<nat> := [98, 252, 99, 104, 101, 114];
    SamplePasses(cps);
    SampleBasic(cps);
    hide Passes, Basic, Count;
    var text := AcePrefix + [98, 99, 104, 101, 114] + [45] + [107, 118, 97];
    assert Label(cps) == Some(text);
    assert text == [120, 110, 45, 45, 98, 99, 104, 101, 114, 45, 107, 118, 97];
  }

  lemma SampleBasic(cps: seq<nat>)
    requires cps == [98, 252, 99, 104, 101, 114]
    ensures Basic(cps) == [98, 99, 104, 101, 114] && Count(cps, 128) == 1
  {
    assert cps[1..] == [252, 99, 104, 101, 114] && cps[1..][1..] == [99, 104, 101, 114];
    assert cps[1..][1..][1..] == [104, 101, 114] && cps[1..][1..][1..][1..] == [101, 114];
    assert cps[1..][1..][1..][1..][1..] == [114];
    assert Basic([114]) == [114] && Basic([101, 114]) == [101, 114];
    assert Basic([99, 104, 101, 114]) == [99, 104, 101, 114];
    assert Count([101, 114], 128) == 0 && Count([99, 104, 101, 114], 128) == 0;
  }

  lemma SamplePasses(cps: seq<nat>)
    requires cps == [98, 252, 99, 104, 101, 114]
    ensures Passes(cps, Encoder(128, 0, 72, 5, true)) == Some([107, 118, 97])
  {
    hide Passes, Scan, Adapt, EncodeInt;
    var e := Encoder(252, 744, 72, 5, true);
    PassesStep(cps, Encoder(128, 0, 72, 5, true), 252);
    ScanStep(cps, 0, e);
    ScanStep(cps, 1, e.(delta := 745));
    var e1 := Emitted(e.(delta := 745));
    ScanStep(cps, 2, e1);
    ScanStep(cps, 3, e1.(delta := 1));
    ScanStep(cps, 4, e1.(delta := 2));
    ScanStep(cps, 5, e1.(delta := 3));
    ScanStep(cps, 6, e1.(delta := 4));
    PassesDone(cps, e1.(n := 253, delta := 5));
    SampleDigits();
    assert [107, 118, 97] + [] == [107, 118, 97];
  }

  /** One unfolding of each of the two loops. */
  lemma PassesStep(cps: seq<nat>, e: Encoder, m: nat)
    requires Points(cps) && m in cps && m >= e.n && forall c :: c in cps && c >= e.n ==> c >= m
    requires e.delta + (m - e.n) * (e.h + 1) <= UINT_MAX
    ensures Passes(cps, e) == Scan(cps, 0, e.(n := m, delta := e.delta + (m - e.n) * (e.h + 1)))
  {
    hide Scan, MinAtLeast, Count;
    CountPositive(cps, e.n);
    NextMinimum(cps, e.n);
    MinimumIs(cps, e.n, m);
  }

  lemma MinimumIs(cps: seq<nat>, n: nat, m: nat)
    requires Points(cps) && m in cps && m >= n && forall c :: c in cps && c >= n ==> c >= m
    ensures MinAtLeast(cps, n) == m
  {
    var i :| 0 <= i < |cps| && cps[i] == m;
    hide MinAtLeast;
  }

  lemma PassesDone(cps: seq<nat>, e: Encoder)
    requires Points(cps) && forall c :: c in cps ==> c < e.n
    ensures Passes(cps, e) == Some([])
  {
    CountPositive(cps, e.n);
  }

  lemma ScanStep(cps: seq<nat>, j: nat, e: Encoder)
    requires Points(cps) && j <= |cps| && e.delta < UINT_MAX
    ensures j == |cps| ==> Scan(cps, j, e) == Passes(cps, e.(n := e.n + 1, delta := e.delta + 1))
    ensures j < |cps| && cps[j] < e.n ==> Scan(cps, j, e) == Scan(cps, j + 1, e.(delta := e.delta + 1))
    ensures j < |cps| && cps[j] == e.n && Scan(cps, j + 1, Emitted(e)).Some? ==>
              Scan(cps, j, e) == Some(EncodeInt(e.delta, 36, e.bias) + Scan(cps, j + 1, Emitted(e)).value)
  {
    hide Passes, EncodeInt, Adapt;
  }

  lemma SampleDigits()
    ensures EncodeInt(745, 36, 72) == [107, 118, 97]
  {
    assert EncodeInt(0, 108, 72) == [97];
    assert Div(20, 35) == 0 && Div(744, 35) == 21;
    assert EncodeInt(21, 72, 72) == [118] + EncodeInt(0, 108, 72);
    assert EncodeInt(745, 36, 72) == [107] + EncodeInt(21, 72, 72);
  }

  lemma TailDecodes(cps: seq<nat>, digits: seq<byte>)
    requires Points(cps)
    requires Passes(cps, Encoder(128, 0, 72, |Basic(cps)|, true)) == Some(digits)
    ensures Decode(Basic(cps) + (if |Basic(cps)| > 0 then [Delimiter] else []) + digits) == Some(cps)
  {
    hide Passes, DecodeLoop, BasicLength, Basic, Below, Widen;
    var basic := Basic(cps);
    var e := Encoder(128, 0, 72, |basic|, true);
    var tail := basic + (if |basic| > 0 then [Delimiter] else []) + digits;
    PassesAllDigits(cps, e);
    SplitAtDelimiter(basic, digits);
    BasicIsBelow(cps);
    BasicIsAscii(cps);
    assert forall j :: 0 <= j < |basic| ==> tail[j] == basic[j];
    assert Widen(tail[..|basic|]) == Below(cps, 128);
    TimesSum(0, 0, e.h + 1);
    PassesDecode(cps, e, InitialDecoder.(out := Below(cps, 128)));
  }

  lemma {:induction false} BasicIsAscii(cps: seq<nat>)
    ensures forall j :: 0 <= j < |Basic(cps)| ==> Basic(cps)[j] < 128
  {
    if cps != [] {
      BasicIsAscii(cps[1..]);
    }
  }
}
