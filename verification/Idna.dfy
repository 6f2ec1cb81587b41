/**
 * uv__idna_toascii and its label encoder, as the source runs them: cursors over
 * the input that are decoded afresh on every pass, an output buffer whose full
 * writes are silently skipped, and unsigned 32-bit counters that wrap.
 */
module Idna {
  import opened Arith
  import opened Common
  import opened Utf8
  import opened Punycode
  import opened Rfc3492

  // ---------- The output cursor ----------

  /**
   * The buffer was `was` when the cursor stood at d0; since then the bytes of
   * `full` were offered, and as many were stored as fit below de.
   */
  ghost predicate Wrote(was: seq<byte>, now: seq<byte>, d0: nat, d: nat, de: nat, full: seq<byte>) {
    && d0 <= d <= de <= |was|
    && d == (if d0 + |full| <= de then d0 + |full| else de)
    && now == was[..d0] + full[..d - d0] + was[d..]
  }

  /** `if (*d < de) *(*d)++ = b;` */
  method Put(buf: array<byte>, d: nat, de: nat, b: byte, ghost was: seq<byte>, ghost d0: nat, ghost full: seq<byte>)
    returns (d': nat)
    requires Wrote(was, buf[..], d0, d, de, full)
    modifies buf
    ensures Wrote(was, buf[..], d0, d', de, full + [b])
  {
    d' := d;
    if d < de {
      buf[d] := b;
      d' := d + 1;
      assert full[..d - d0] == full;
      assert (full + [b])[..d' - d0] == full + [b];
    } else {
      assert (full + [b])[..d - d0] == full[..d - d0];
    }
  }

  // ---------- The digits of one delta ----------

  /** An upper bound on q after i digits, which shows that the loop's k stays small. */
  function DigitBound(i: nat): nat {
    if i == 0 then UINT_MAX else DigitBound(i - 1) / 10
  }

  lemma DigitBoundStep(i: nat)
    ensures DigitBound(i) == if i == 0 then UINT_MAX else DigitBound(i - 1) / 10
  {
  }

  lemma DigitBoundEnds()
    ensures DigitBound(10) == 0
  {
    assert DigitBound(2) == 42949672;
    assert DigitBound(4) == 429496;
    assert DigitBound(6) == 4294;
    assert DigitBound(8) == 42;
  }

  method EmitDigits(buf: array<byte>, d: nat, de: nat, delta: nat, bias: nat,
                    ghost was: seq<byte>, ghost d0: nat, ghost full: seq<byte>)
    returns (d': nat)
    requires delta <= UINT_MAX && bias <= UINT_MAX
    requires Wrote(was, buf[..], d0, d, de, full)
    modifies buf
    ensures Wrote(was, buf[..], d0, d', de, full + EncodeInt(delta, 36, bias))
  {
    hide Wrote, EncodeInt, Div, DigitBound;
    d' := d;
    var k: nat, q: nat := 36, delta;
    DigitBoundStep(0);
    ghost var soFar: seq<byte> := full;
    ghost var i: nat := 0;
    assert soFar + EncodeInt(q, k, bias) == full + EncodeInt(delta, 36, bias);
    while true
      invariant Wrote(was, buf[..], d0, d', de, soFar)
      invariant soFar + EncodeInt(q, k, bias) == full + EncodeInt(delta, 36, bias)
      invariant q <= DigitBound(i) && q <= UINT_MAX && i <= 10 && k == 36 * (i + 1)
      decreases q
    {
      var t := 1;
      if k > bias {
        t := U32(k - bias);
      }
      if t > 26 {
        t := 26;
      }
      assert t == Threshold(k, bias);
      if q < t {
        LastDigit(soFar, q, k, bias);
        break;
      }
      if i == 10 {
        DigitBoundEnds();
        assert false;
      }
      QuotientShrinks(q, t);
      var x := U32(q - t);
      var y := U32(36 - t);
      t := U32(t + x % y);
      ghost var before := soFar;
      d' := Put(buf, d', de, Digit(t), was, d0, soFar);
      soFar := soFar + [Digit(t)];
      DigitStep(before, q, k, bias);
      DigitBoundStep(i + 1);
      i := i + 1;
      q := Div(x, y);
      k := U32(k + 36);
    }
    d' := Put(buf, d', de, Digit(q), was, d0, soFar);
  }

  lemma LastDigit(before: seq<byte>, q: nat, k: nat, bias: nat)
    requires q < Threshold(k, bias)
    ensures before + EncodeInt(q, k, bias) == before + [Digit(q)]
  {
  }

  lemma DigitStep(before: seq<byte>, q: nat, k: nat, bias: nat)
    requires q >= Threshold(k, bias)
    ensures var t := Threshold(k, bias);
      var digit := t + (q - t) % (36 - t);
      digit < 36 && before + EncodeInt(q, k, bias) == before + [Digit(digit)] + EncodeInt(Div(q - t, 36 - t), k + 36, bias)
  {
    QuotientShrinks(q, Threshold(k, bias));
  }

  // ---------- The bias ----------

  lemma {:induction false} AdaptLoopSmall(d: nat)
    ensures AdaptLoop(d) <= 36 + d / 10
    decreases d
  {
    hide Div;
    if d > 455 {
      AdaptLoopSmall(d / 35);
    } else if Div(36 * d, d + 38) > 36 {
      MulMono(37, Div(36 * d, d + 38), d + 38);
    }
  }

  /** Halving and then dividing by 350 is the division by damp = 700, and adding delta / h cannot wrap. */
  lemma AdaptScales(delta: nat, h: nat, first: bool)
    requires delta <= UINT_MAX && h > 0
    ensures var half := if first then delta / 2 / 350 else delta / 2;
      half + Div(half, h) <= UINT_MAX && Adapt(delta, h, first) == AdaptLoop(half + Div(half, h))
  {
    hide Div, AdaptLoop;
    assert delta / 2 / 350 == delta / 700;
  }

  lemma AdaptLoopStep(delta: nat)
    ensures AdaptLoop(delta) == if delta > 455 then 36 + AdaptLoop(delta / 35) else Div(36 * delta, delta + 38)
  {
  }

  /** From `delta /= 2` to `bias += 36 * delta / (delta + 38)`; h is already incremented. */
  method AdaptBias(delta0: nat, h: nat, first: bool) returns (bias: nat)
    requires delta0 <= UINT_MAX && 0 < h <= UINT_MAX
    ensures bias == Adapt(delta0, h, first) && bias <= UINT_MAX
  {
    hide Div, Adapt, AdaptLoop;
    AdaptScales(delta0, h, first);
    var delta: nat := delta0 / 2;
    if first {
      delta := delta / 350;
    }
    delta := U32(delta + Div(delta, h));
    ghost var scaled: nat := delta;
    AdaptLoopSmall(scaled);
    bias := 0;
    while delta > 35 * 26 / 2
      invariant delta <= scaled <= UINT_MAX
      invariant bias + AdaptLoop(delta) == AdaptLoop(scaled) <= UINT_MAX
    {
      AdaptLoopStep(delta);
      delta := delta / 35;
      bias := U32(bias + 36);
    }
    AdaptLoopStep(delta);
    bias := U32(bias + Div(U32(36 * delta), U32(delta + 38)));
  }

  // ---------- One label ----------

  /** The cursor s of [ss, se) stands before the code point with index j. */
  ghost predicate At(src: seq<byte>, s: nat, se: nat, cps: seq<nat>, j: nat) {
    s <= se <= |src| && j <= |cps| && CodePoints(src, s, se) == Some(cps[j..])
  }

  lemma CursorStep(src: seq<byte>, s: nat, se: nat, cps: seq<nat>, j: nat)
    requires At(src, s, se, cps, j)
    ensures s < se <==> j < |cps|
    ensures s < se ==> Decode1(src, s, se).c == cps[j] != Invalid && At(src, Decode1(src, s, se).next, se, cps, j + 1)
    ensures s < se ==> cps[j..] == [cps[j]] + cps[j + 1..]
  {
    hide Decode1;
    if s < se {
      var r := Decode1(src, s, se);
      var rest := CodePoints(src, r.next, se).value;
      assert cps[j..] == [r.c] + rest;
      assert cps[j + 1..] == cps[j..][1..] == rest;
    }
  }

  lemma ScalarPoints(src: seq<byte>, s: nat, se: nat)
    requires s <= se <= |src|
    ensures CodePoints(src, s, se).Some? ==> Points(CodePoints(src, s, se).value) && |CodePoints(src, s, se).value| <= se - s
  {
  }

  /** The first pass: counts the ASCII and the other code points in 32 bits, or finds a malformed sequence. */
  method CountKinds(src: seq<byte>, s0: nat, se: nat) returns (err: int, h: nat, todo: nat)
    requires s0 <= se <= |src|
    ensures err == if CodePoints(src, s0, se).None? then UV_EINVAL else 0
    ensures var cps := CodePoints(src, s0, se);
      cps.Some? ==>
        && h == U32(|Basic(cps.value)|) && todo == U32(Count(cps.value, 128))
        && |Basic(cps.value)| + Count(cps.value, 128) == |cps.value| <= se - s0
  {
    hide Decode1, U32;
    var s := s0;
    h, todo := 0, 0;
    ghost var all := CodePoints(src, s0, se);
    ghost var basic: nat, others: nat := 0, 0;
    while s < se
      invariant s0 <= s <= se && basic + others <= s - s0
      invariant h == U32(basic) && todo == U32(others)
      invariant all.Some? <==> CodePoints(src, s, se).Some?
      invariant all.Some? ==>
        var rest := CodePoints(src, s, se).value;
        && |Basic(all.value)| == basic + |Basic(rest)|
        && Count(all.value, 128) == others + Count(rest, 128)
        && |all.value| == basic + others + |rest|
    {
      var r := Decode1(src, s, se);
      s := r.next;
      if r.c == Invalid {
        return UV_EINVAL, h, todo;
      }
      if r.c < 128 {
        h, basic := U32(h + 1), basic + 1;
        WrapNext(basic - 1);
      } else {
        todo, others := U32(todo + 1), others + 1;
        WrapNext(others - 1);
      }
    }
    err := 0;
  }

  lemma WrapNext(n: nat)
    ensures U32(U32(n) + 1) == U32(n + 1)
  {
  }

  /** The second pass: writes the ASCII code points. */
  method WriteBasic(src: seq<byte>, s0: nat, se: nat, buf: array<byte>, d: nat, de: nat, h: nat,
                    ghost cps: seq<nat>, ghost was: seq<byte>, ghost d0: nat, ghost full: seq<byte>)
    returns (d': nat)
    requires At(src, s0, se, cps, 0) && h == |Basic(cps)| <= UINT_MAX
    requires Wrote(was, buf[..], d0, d, de, full)
    modifies buf
    ensures Wrote(was, buf[..], d0, d', de, full + Basic(cps))
  {
    hide Decode1, CodePoints, Wrote, At, Basic;
    d' := d;
    var x: nat, s: nat := 0, s0;
    ghost var j: nat, soFar: seq<byte> := 0, full;
    assert cps[0..] == cps;
    AtBounds(src, s0, se, cps, 0);
    while s < se
      invariant At(src, s, se, cps, j) && s <= se <= |src| && j <= |cps|
      invariant x + |Basic(cps[j..])| == h
      invariant soFar + Basic(cps[j..]) == full + Basic(cps)
      invariant Wrote(was, buf[..], d0, d', de, soFar)
      decreases se - s
    {
      CursorStep(src, s, se, cps, j);
      BasicStep(cps, j);
      var r := Decode1(src, s, se);
      s := r.next;
      j := j + 1;
      AtBounds(src, s, se, cps, j);
      if r.c > 127 {
        continue;
      }
      d' := Put(buf, d', de, r.c, was, d0, soFar);
      soFar := soFar + [r.c as byte];
      x := U32(x + 1);
      if x == h {
        assert Basic(cps[j..]) == [];
        break;
      }
    }
    if s >= se {
      CursorStep(src, s, se, cps, j);
      assert cps[j..] == [];
      BasicNothing();
    }
    assert soFar == soFar + Basic(cps[j..]) == full + Basic(cps);
  }

  lemma BasicNothing()
    ensures Basic([]) == []
  {
  }

  lemma BasicStep(cps: seq<nat>, j: nat)
    requires j < |cps|
    ensures Basic(cps[j..]) == (if cps[j] < 128 then [cps[j] as byte] else []) + Basic(cps[j + 1..])
  {
    assert cps[j..][1..] == cps[j + 1..];
  }

  lemma AtBounds(src: seq<byte>, s: nat, se: nat, cps: seq<nat>, j: nat)
    requires At(src, s, se, cps, j)
    ensures s <= se <= |src| && j <= |cps|
  {
  }

  /** The search for the smallest code point that is at least n. */
  method FindMin(src: seq<byte>, ss: nat, se: nat, n: nat, ghost cps: seq<nat>) returns (m: nat)
    requires At(src, ss, se, cps, 0) && Points(cps)
    ensures m == MinAtLeast(cps, n)
  {
    hide Decode1, CodePoints, At;
    m := UINT_MAX;
    var s := ss;
    ghost var j: nat := 0;
    assert cps[0..] == cps;
    AtBounds(src, s, se, cps, j);
    while s < se
      invariant s <= se <= |src| && j <= |cps| && At(src, s, se, cps, j)
      invariant MinAtLeast(cps, n) == if m < MinAtLeast(cps[j..], n) then m else MinAtLeast(cps[j..], n)
      invariant m <= UINT_MAX
      decreases se - s
    {
      CursorStep(src, s, se, cps, j);
      var r := Decode1(src, s, se);
      s := r.next;
      j := j + 1;
      AtBounds(src, s, se, cps, j);
      if r.c >= n {
        if r.c < m {
          m := r.c;
        }
      }
    }
    CursorStep(src, s, se, cps, j);
  }

  function Prepend(a: seq<byte>, b: Option<seq<byte>>): Option<seq<byte>> {
    if b.None? then None else Some(a + b.value)
  }

  lemma PrependTwice(a: seq<byte>, b: seq<byte>, c: Option<seq<byte>>)
    ensures Prepend(a, Prepend(b, c)) == Prepend(a + b, c)
    ensures Prepend([], c) == c
  {
    if c.Some? {
      assert a + (b + c.value) == a + b + c.value;
      assert [] + c.value == c.value;
    }
  }

  /** Those of s that are exactly n. */
  function Equal(s: seq<nat>, n: nat): (r: nat)
    ensures r <= |s|
  {
    if s == [] then 0 else (if s[0] == n then 1 else 0) + Equal(s[1..], n)
  }

  lemma {:induction false} CountSplits(s: seq<nat>, n: nat)
    ensures Count(s, n) == Count(s, n + 1) + Equal(s, n)
    ensures Equal(s, n) > 0 <==> n in s
  {
    if s != [] {
      CountSplits(s[1..], n);
      assert n in s <==> n == s[0] || n in s[1..];
    }
  }

  /** What the inner loop has done up to index j. */
  ghost predicate Scanned(cps: seq<nat>, j: nat, start: Encoder, e: Encoder, todo: nat, emitted: seq<byte>)
    requires Points(cps) && j <= |cps|
  {
    && e.n == start.n
    && Scan(cps, 0, start) == Prepend(emitted, Scan(cps, j, e))
    && e.delta <= UINT_MAX && e.bias <= UINT_MAX
    && todo == Count(cps, e.n + 1) + Equal(cps[j..], e.n)
    && e.h + todo == |cps|
    && (Equal(cps[j..], e.n) < Equal(cps, e.n) ==> e.delta < j)
  }

  /** The third pass for one n: writes the delta of every occurrence of n. */
  method ScanPass(src: seq<byte>, ss: nat, se: nat, buf: array<byte>, d: nat, de: nat,
                  n: nat, delta0: nat, bias0: nat, h0: nat, todo0: nat, first0: bool,
                  ghost cps: seq<nat>, ghost was: seq<byte>, ghost d0: nat, ghost full: seq<byte>)
    returns (err: int, d': nat, delta: nat, bias: nat, h: nat, todo: nat, first: bool, ghost emitted: seq<byte>)
    requires At(src, ss, se, cps, 0) && Points(cps) && |cps| <= UINT_MAX
    requires delta0 <= UINT_MAX && bias0 <= UINT_MAX && todo0 == Count(cps, n) && h0 + todo0 == |cps|
    requires Wrote(was, buf[..], d0, d, de, full)
    modifies buf
    ensures err == 0 || err == UV_E2BIG
    ensures Wrote(was, buf[..], d0, d', de, full + emitted)
    ensures err < 0 ==> Scan(cps, 0, Encoder(n, delta0, bias0, h0, first0)).None?
    ensures err == 0 ==> Scanned(cps, |cps|, Encoder(n, delta0, bias0, h0, first0), Encoder(n, delta, bias, h, first), todo, emitted)
  {
    hide Decode1, CodePoints, At, Wrote, Adapt, Scanned, Scan;
    err, d', delta, bias, h, todo, first := 0, d, delta0, bias0, h0, todo0, first0;
    emitted := [];
    var s := ss;
    ghost var j: nat := 0;
    ghost var start := Encoder(n, delta0, bias0, h0, first0);
    ScannedStart(cps, start, todo);
    AtBounds(src, s, se, cps, j);
    assert full + [] == full;
    while s < se
      invariant s <= se <= |src| && j <= |cps| && At(src, s, se, cps, j)
      invariant delta <= UINT_MAX && bias <= UINT_MAX
      invariant Scanned(cps, j, start, Encoder(n, delta, bias, h, first), todo, emitted)
      invariant Wrote(was, buf[..], d0, d', de, full + emitted)
      decreases se - s
    {
      CursorStep(src, s, se, cps, j);
      ghost var e := Encoder(n, delta, bias, h, first);
      var r := Decode1(src, s, se);
      s := r.next;
      AtBounds(src, s, se, cps, j + 1);
      ScannedStep(cps, j, start, e, todo, emitted);
      j := j + 1;
      if r.c < n {
        delta := U32(delta + 1);
        if delta == 0 {
          return UV_E2BIG, d', delta, bias, h, todo, first, emitted;
        }
      }
      if r.c != n {
        continue;
      }
      d' := EmitDigits(buf, d', de, delta, bias, was, d0, full + emitted);
      assert full + emitted + EncodeInt(delta, 36, bias) == full + (emitted + EncodeInt(delta, 36, bias));
      emitted := emitted + EncodeInt(delta, 36, bias);
      h := U32(h + 1);
      bias := AdaptBias(delta, h, first);
      first := false;
      delta := 0;
      todo := U32(todo - 1);
    }
    CursorStep(src, s, se, cps, j);
  }

  lemma ScannedStart(cps: seq<nat>, start: Encoder, todo: nat)
    requires Points(cps) && start.delta <= UINT_MAX && start.bias <= UINT_MAX
    requires todo == Count(cps, start.n) && start.h + todo == |cps|
    ensures Scanned(cps, 0, start, start, todo, [])
  {
    hide Scan;
    CountSplits(cps, start.n);
    PrependTwice([], [], Scan(cps, 0, start));
    assert cps[0..] == cps;
  }

  /** One step of the inner loop keeps it, whichever of the three branches it takes. */
  lemma ScannedStep(cps: seq<nat>, j: nat, start: Encoder, e: Encoder, todo: nat, emitted: seq<byte>)
    requires Points(cps) && j < |cps| <= UINT_MAX
    requires Scanned(cps, j, start, e, todo, emitted)
    ensures cps[j] < e.n && e.delta == UINT_MAX ==> Scan(cps, 0, start).None?
    ensures cps[j] < e.n && e.delta < UINT_MAX ==> Scanned(cps, j + 1, start, e.(delta := e.delta + 1), todo, emitted)
    ensures cps[j] > e.n ==> Scanned(cps, j + 1, start, e, todo, emitted)
    ensures cps[j] == e.n && Emitted(e).bias <= UINT_MAX ==>
      todo > 0 && Scanned(cps, j + 1, start, Emitted(e), todo - 1, emitted + EncodeInt(e.delta, 36, e.bias))
    ensures cps[j] == e.n ==> e.h < UINT_MAX && 0 < todo <= UINT_MAX
  {
    hide Adapt, EncodeInt;
    assert cps[j..] == [cps[j]] + cps[j + 1..];
    assert Equal(cps[j..], e.n) == (if cps[j] == e.n then 1 else 0) + Equal(cps[j + 1..], e.n);
    EqualMonotone(cps, j, e.n);
    if cps[j] == e.n {
      PrependTwice(emitted, EncodeInt(e.delta, 36, e.bias), Scan(cps, j + 1, Emitted(e)));
    }
  }

  lemma {:induction false} EqualMonotone(s: seq<nat>, j: nat, n: nat)
    requires j <= |s|
    ensures Equal(s[j..], n) <= Equal(s, n)
    decreases j
  {
    if j > 0 {
      EqualMonotone(s, j - 1, n);
      assert s[j - 1..][1..] == s[j..];
    } else {
      assert s[0..] == s;
    }
  }

  /** An unsigned value returned as an int: from two to the thirty-first on it turns negative. */
  function ToInt(n: nat): (r: int)
    requires n <= UINT_MAX
    ensures r == n <==> n <= 0x7FFF_FFFF
    ensures r < 0 <==> n > 0x7FFF_FFFF
  {
    if n <= 0x7FFF_FFFF then n else n - 0x1_0000_0000
  }

  /** The code points of a label as they go onto the buffer, or the error that is returned instead. */
  function LabelText(cps: seq<nat>): Result<seq<byte>>
    requires Points(cps)
  {
    var text := Label(cps);
    if text.None? then Err(UV_E2BIG)
    else if Count(cps, 128) == 0 && 0x7FFF_FFFF < |cps| <= UINT_MAX then Err(ToInt(|cps|))
    else Ok(text.value)
  }

  /** The label in [s, st). */
  function LabelAt(src: seq<byte>, s: nat, st: nat): Result<seq<byte>>
    requires s <= st <= |src|
  {
    var cps := CodePoints(src, s, st);
    if cps.None? then Err(UV_EINVAL)
    else
      ScalarPoints(src, s, st);
      LabelText(cps.value)
  }

  /** The buffer below the cursor's start and from its end on is untouched. */
  ghost predicate Framed(was: seq<byte>, now: seq<byte>, d0: nat, d: nat, de: nat) {
    d0 <= d <= de <= |was| == |now| && now[..d0] == was[..d0] && now[de..] == was[de..]
  }

  /** The four conditional writes of "xn--". */
  method PutPrefix(buf: array<byte>, d0: nat, de: nat, ghost was: seq<byte>) returns (d: nat)
    requires Wrote(was, buf[..], d0, d0, de, [])
    modifies buf
    ensures Wrote(was, buf[..], d0, d, de, AcePrefix)
  {
    hide Wrote;
    d := Put(buf, d0, de, 120, was, d0, []);
    d := Put(buf, d, de, 110, was, d0, [] + [120]);
    d := Put(buf, d, de, 45, was, d0, [] + [120] + [110]);
    d := Put(buf, d, de, 45, was, d0, [] + [120] + [110] + [45]);
    assert [] + [120] + [110] + [45] + [45] == AcePrefix;
  }

  /** uv__idna_toascii_label: the label is malformed, overflows, or is written as far as it fits. */
  method ToAsciiLabel(src: seq<byte>, s0: nat, se: nat, buf: array<byte>, d0: nat, de: nat)
    returns (rc: int, d: nat)
    requires s0 <= se <= |src| && se - s0 <= UINT_MAX
    requires d0 <= de <= buf.Length
    modifies buf
    ensures rc < 0 ==> LabelAt(src, s0, se) == Err(rc)
    ensures rc >= 0 ==> LabelAt(src, s0, se).Ok? && Wrote(old(buf[..]), buf[..], d0, d, de, LabelAt(src, s0, se).value)
    ensures Framed(old(buf[..]), buf[..], d0, d, de)
  {
    hide CodePoints, Wrote, At, Passes, Basic, Framed, Points, Label, LabelAt;
    ghost var was := buf[..];
    var err, h, todo := CountKinds(src, s0, se);
    WroteStart(was, d0, de);
    WroteFrame(was, was, d0, d0, de, []);
    d := d0;
    if err < 0 {
      LabelFails(src, s0, se);
      return err, d;
    }
    ScalarPoints(src, s0, se);
    ghost var cps := CodePoints(src, s0, se).value;
    AtStart(src, s0, se);
    ghost var full: seq<byte> := [];
    if todo > 0 {
      d := PutPrefix(buf, d, de, was);
      full := AcePrefix;
    }
    d := WriteBasic(src, s0, se, buf, d, de, h, cps, was, d0, full);
    full := full + Basic(cps);
    if todo == 0 {
      LabelParts(src, s0, se);
      assert full == Basic(cps);
      WroteFrame(was, buf[..], d0, d, de, full);
      return ToInt(h), d;
    }
    if h > 0 {
      d := Put(buf, d, de, Delimiter, was, d0, full);
    }
    ghost var mark: seq<byte> := if h > 0 then [Delimiter] else [];
    assert h == 0 ==> full + mark == full;
    LabelParts(src, s0, se);
    rc, d := EncodePasses(src, s0, se, buf, d, de, h, todo, cps, was, d0, full + mark);
  }

  lemma LabelFails(src: seq<byte>, s: nat, st: nat)
    requires s <= st <= |src| && CodePoints(src, s, st).None?
    ensures LabelAt(src, s, st) == Err(UV_EINVAL)
  {
  }

  lemma LabelParts(src: seq<byte>, s: nat, st: nat)
    requires s <= st <= |src| && CodePoints(src, s, st).Some?
    ensures var cps := CodePoints(src, s, st).value;
      Points(cps) &&
      var basic := Basic(cps);
      var digits := Passes(cps, Encoder(128, 0, 72, |basic|, true));
      LabelAt(src, s, st) ==
        if Count(cps, 128) == 0 then (if 0x7FFF_FFFF < |cps| <= UINT_MAX then Err(ToInt(|cps|)) else Ok(basic))
        else if digits.None? then Err(UV_E2BIG)
        else Ok(AcePrefix + basic + (if |basic| > 0 then [Delimiter] else []) + digits.value)
  {
    hide CodePoints, Passes, Basic, Count;
    ScalarPoints(src, s, st);
  }

  lemma WroteStart(was: seq<byte>, d0: nat, de: nat)
    requires d0 <= de <= |was|
    ensures Wrote(was, was, d0, d0, de, [])
  {
  }

  lemma AtStart(src: seq<byte>, s0: nat, se: nat)
    requires s0 <= se <= |src| && CodePoints(src, s0, se).Some?
    ensures At(src, s0, se, CodePoints(src, s0, se).value, 0)
  {
    hide CodePoints;
    assert CodePoints(src, s0, se).value[0..] == CodePoints(src, s0, se).value;
  }

  lemma WroteFrame(was: seq<byte>, now: seq<byte>, d0: nat, d: nat, de: nat, full: seq<byte>)
    requires Wrote(was, now, d0, d, de, full)
    ensures Framed(was, now, d0, d, de)
  {
  }

  /** The outer loop. */
  method EncodePasses(src: seq<byte>, ss: nat, se: nat, buf: array<byte>, d: nat, de: nat, h0: nat, todo0: nat,
                      ghost cps: seq<nat>, ghost was: seq<byte>, ghost d0: nat, ghost full: seq<byte>)
    returns (rc: int, d': nat)
    requires At(src, ss, se, cps, 0) && Points(cps) && |cps| <= UINT_MAX
    requires todo0 == Count(cps, 128) && h0 + todo0 == |cps|
    requires Wrote(was, buf[..], d0, d, de, full)
    modifies buf
    ensures rc == 0 || rc == UV_E2BIG
    ensures rc == 0 <==> Passes(cps, Encoder(128, 0, 72, h0, true)).Some?
    ensures rc == 0 ==> Wrote(was, buf[..], d0, d', de, full + Passes(cps, Encoder(128, 0, 72, h0, true)).value)
    ensures Framed(was, buf[..], d0, d', de)
  {
    hide CodePoints, Wrote, At, Adapt, Scan, Scanned, Count, MinAtLeast, Decode1, Framed, Times, Div;
    d' := d;
    var h, todo := h0, todo0;
    var n: nat, bias: nat, delta: nat, first := 128, 72, 0, true;
    ghost var start := Encoder(128, 0, 72, h0, true);
    ghost var emitted: seq<byte> := [];
    PrependTwice([], [], Passes(cps, start));
    assert full + [] == full;
    while todo > 0
      invariant 128 <= n <= 0x11_0000 && delta <= UINT_MAX && bias <= UINT_MAX
      invariant todo == Count(cps, n) && h + todo == |cps|
      invariant Passes(cps, start) == Prepend(emitted, Passes(cps, Encoder(n, delta, bias, h, first)))
      invariant Wrote(was, buf[..], d0, d', de, full + emitted)
      decreases todo
    {
      var m := FindMin(src, ss, se, n, cps);
      NextMinimum(cps, n);
      SameAbove(cps, n, m);
      var x := U32(m - n);
      var y := U32(h + 1);
      GuardExact(delta, x, y);
      if x > Div(UINT_MAX - delta, y) {
        WroteFrame(was, buf[..], d0, d', de, full + emitted);
        return UV_E2BIG, d';
      }
      delta := U32(delta + U32(Times(x, y)));
      n := m;
      ghost var e := Encoder(n, delta, bias, h, first);
      ghost var more: seq<byte>;
      var err;
      err, d', delta, bias, h, todo, first, more :=
        ScanPass(src, ss, se, buf, d', de, n, delta, bias, h, todo, first, cps, was, d0, full + emitted);
      WroteFrame(was, buf[..], d0, d', de, full + emitted + more);
      if err < 0 {
        return err, d';
      }
      PassEnds(cps, e, Encoder(n, delta, bias, h, first), todo, more);
      PrependTwice(emitted, more, Passes(cps, Encoder(n + 1, delta + 1, bias, h, first)));
      assert full + emitted + more == full + (emitted + more);
      emitted := emitted + more;
      delta := U32(delta + 1);
      n := U32(n + 1);
    }
    assert Passes(cps, Encoder(n, delta, bias, h, first)) == Some([]);
    assert emitted + [] == emitted;
    WroteFrame(was, buf[..], d0, d', de, full + emitted);
    rc := 0;
  }

  /** The guard `x > ~delta / y` is exact: it fires when and only when the sum does not fit. */
  lemma GuardExact(delta: nat, x: nat, y: nat)
    requires delta <= UINT_MAX && y > 0
    ensures x > Div(UINT_MAX - delta, y) <==> delta + Times(x, y) > UINT_MAX
  {
    var q := Div(UINT_MAX - delta, y);
    if x > q {
      MulMono(q + 1, x, y);
      Distribute(q, 1, y);
    } else {
      MulMono(x, q, y);
    }
  }

  lemma {:induction false} SameAbove(cps: seq<nat>, n: nat, m: nat)
    requires n <= m && forall i :: 0 <= i < |cps| && cps[i] >= n ==> cps[i] >= m
    ensures Count(cps, n) == Count(cps, m)
  {
    if cps != [] {
      SameAbove(cps[1..], n, m);
    }
  }

  /** A pass that succeeds wrote at least once, so the two increments after it cannot wrap. */
  lemma PassEnds(cps: seq<nat>, start: Encoder, e: Encoder, todo: nat, more: seq<byte>)
    requires Points(cps) && |cps| <= UINT_MAX && start.n in cps
    requires Scanned(cps, |cps|, start, e, todo, more)
    ensures e.delta < UINT_MAX && e.bias <= UINT_MAX && todo == Count(cps, e.n + 1) && e.h + todo == |cps|
    ensures Scan(cps, 0, start) == Prepend(more, Passes(cps, e.(n := e.n + 1, delta := e.delta + 1)))
  {
    CountSplits(cps, start.n);
    assert cps[|cps|..] == [];
  }

  // ---------- A whole name ----------

  /** U+002E, U+3002, U+FF0E and U+FF61 all separate labels. */
  predicate IsSeparator(c: nat) {
    c == 0x2E || c == 0x3002 || c == 0xFF0E || c == 0xFF61
  }

  const Dot: byte := 46

  /** What is still to be written when a label starts at s and the cursor is at si. */
  function NameFrom(src: seq<byte>, s: nat, si: nat): Result<seq<byte>>
    requires s <= si <= |src|
    decreases |src| - si
  {
    if si == |src| then (if s < si then LabelAt(src, s, si) else Ok([]))
    else
      var r := Decode1(src, si, |src|);
      if r.c == Invalid then Err(UV_EINVAL)
      else if !IsSeparator(r.c) then NameFrom(src, s, r.next)
      else
        var text := LabelAt(src, s, si);
        if text.Err? then text
        else
          var rest := NameFrom(src, r.next, r.next);
          if rest.Err? then rest else Ok(text.value + [Dot] + rest.value)
  }

  function Join(a: seq<byte>, r: Result<seq<byte>>): Result<seq<byte>> {
    if r.Err? then r else Ok(a + r.value)
  }

  lemma ErrJoins(a: seq<byte>, code: int)
    ensures Join(a, Err(code)) == Err(code)
  {
  }

  lemma OkJoins(a: seq<byte>, b: seq<byte>)
    ensures Join(a, Ok(b)) == Ok(a + b)
  {
  }

  lemma JoinTwice(a: seq<byte>, b: seq<byte>, r: Result<seq<byte>>)
    ensures Join(a, Join(b, r)) == Join(a + b, r)
    ensures Join([], r) == r
  {
    if r.Ok? {
      assert a + (b + r.value) == a + b + r.value;
      assert [] + r.value == r.value;
    }
  }

  /** Writing again where the first write ended is one longer write. */
  lemma WroteAgain(was: seq<byte>, mid: seq<byte>, now: seq<byte>, d0: nat, dm: nat, d: nat, de: nat,
                   a: seq<byte>, b: seq<byte>)
    requires Wrote(was, mid, d0, dm, de, a) && Wrote(mid, now, dm, d, de, b)
    ensures Wrote(was, now, d0, d, de, a + b)
  {
    var i, j := dm - d0, d - dm;
    WroteBounds(was, mid, d0, dm, de, a);
    WroteBounds(mid, now, dm, d, de, b);
    assert (i == |a| || j == 0) && i <= |a| && j <= |b|;
    var x, y, y', z := was[..d0], a[..i], b[..j], was[dm..];
    TakeSum(a, b, i, j);
    DropSum(was, dm, j);
    Splice(x, y, y', z, mid, now);
  }

  lemma WroteBounds(was: seq<byte>, now: seq<byte>, d0: nat, d: nat, de: nat, full: seq<byte>)
    requires Wrote(was, now, d0, d, de, full)
    ensures d0 <= d <= de <= |was| == |now| && d - d0 <= |full| && (d - d0 == |full| || d == de)
  {
  }

  lemma DropSum(s: seq<byte>, i: nat, j: nat)
    requires i + j <= |s|
    ensures s[i..][j..] == s[i + j..]
  {
  }

  lemma Splice(x: seq<byte>, y: seq<byte>, y': seq<byte>, z: seq<byte>, mid: seq<byte>, now: seq<byte>)
    requires mid == x + y + z && |y'| <= |z|
    requires now == mid[..|x| + |y|] + y' + mid[|x| + |y| + |y'|..]
    ensures now == x + (y + y') + z[|y'|..]
  {
    assert mid[..|x| + |y|] == x + y;
    assert mid[|x| + |y| + |y'|..] == z[|y'|..];
  }

  lemma TakeSum(a: seq<byte>, b: seq<byte>, i: nat, j: nat)
    requires i <= |a| && j <= |b| && (i == |a| || j == 0)
    ensures (a + b)[..i + j] == a[..i] + b[..j]
  {
  }

  /** Where a complete write leaves the cursor, and what the final NUL makes of the buffer. */
  lemma WroteAll(was: seq<byte>, now: seq<byte>, d0: nat, d: nat, de: nat, full: seq<byte>)
    requires Wrote(was, now, d0, d, de, full)
    ensures Framed(was, now, d0, d0, de)
    ensures d < de <==> d0 + |full| < de
    ensures d < de ==> d == d0 + |full| && now[d := 0] == was[..d0] + full + [0] + was[d + 1..]
    ensures d < de ==> Framed(was, now[d := 0], d0, d0, de)
  {
    if d < de {
      assert full[..d - d0] == full;
      assert now == was[..d0] + full + was[d..];
      assert was[d..][1..] == was[d + 1..];
    }
  }

  lemma NameStep(src: seq<byte>, s: nat, si: nat)
    requires s <= si <= |src|
    ensures si == |src| ==> NameFrom(src, s, si) == if s < si then LabelAt(src, s, si) else Ok([])
    ensures si < |src| ==>
      var r := Decode1(src, si, |src|);
      NameFrom(src, s, si) ==
        if r.c == Invalid then Err(UV_EINVAL)
        else if !IsSeparator(r.c) then NameFrom(src, s, r.next)
        else if LabelAt(src, s, si).Err? then LabelAt(src, s, si)
        else Join(LabelAt(src, s, si).value + [Dot], NameFrom(src, r.next, r.next))
  {
    hide Decode1, LabelAt;
  }

  lemma FramedBounds(was: seq<byte>, now: seq<byte>, d0: nat, d: nat, de: nat)
    requires Framed(was, now, d0, d, de)
    ensures d0 <= d <= de
  {
  }

  lemma FramedAgain(was: seq<byte>, mid: seq<byte>, now: seq<byte>, d0: nat, dm: nat, d: nat, de: nat)
    requires Framed(was, mid, d0, dm, de) && Framed(mid, now, dm, d, de)
    ensures Framed(was, now, d0, d, de) && Framed(was, now, d0, d0, de)
  {
    assert mid[..dm][..d0] == mid[..d0] && now[..dm][..d0] == now[..d0];
  }

  /** The label in [s, st), written where the cursor stands. */
  method AppendLabel(src: seq<byte>, s: nat, st: nat, buf: array<byte>, d: nat, de: nat,
                     ghost was: seq<byte>, ghost d0: nat, ghost full: seq<byte>)
    returns (rc: int, d': nat)
    requires s <= st <= |src| <= UINT_MAX && d0 <= d <= de <= buf.Length
    requires Wrote(was, buf[..], d0, d, de, full) && Framed(was, buf[..], d0, d, de)
    modifies buf
    ensures rc < 0 ==> LabelAt(src, s, st) == Err(rc)
    ensures rc >= 0 ==> LabelAt(src, s, st).Ok? && Wrote(was, buf[..], d0, d', de, full + LabelAt(src, s, st).value)
    ensures Framed(was, buf[..], d0, d', de) && Framed(was, buf[..], d0, d0, de)
  {
    hide Wrote, CodePoints, LabelAt, Framed;
    ghost var before := buf[..];
    rc, d' := ToAsciiLabel(src, s, st, buf, d, de);
    FramedAgain(was, before, buf[..], d0, d, d', de);
    if rc >= 0 {
      WroteAgain(was, before, buf[..], d0, d, d', de, full, LabelAt(src, s, st).value);
    }
  }

  /**
   * A non-negative result means that nothing was skipped: the buffer holds the
   * whole name and its NUL, and the result is the number of bytes written. It
   * is negative exactly when the input is empty, a label fails, or the name
   * and its NUL do not fit.
   */
  method ToAscii(src: seq<byte>, buf: array<byte>, d0: nat, de: nat) returns (rc: int)
    requires |src| <= UINT_MAX && d0 <= de <= buf.Length
    modifies buf
    ensures var name := NameFrom(src, 0, 0);
      if src == [] then rc == UV_EINVAL
      else if name.Err? then rc == name.code
      else if d0 + |name.value| >= de then rc == UV_EINVAL
      else rc == |name.value| + 1 && buf[..] == old(buf[..d0]) + name.value + [0] + old(buf[d0 + |name.value| + 1..])
    ensures Framed(old(buf[..]), buf[..], d0, d0, de)
  {
    hide Wrote, Framed, CodePoints, Decode1, Label, LabelAt, NameFrom, Join;
    ghost var was := buf[..];
    WroteStart(was, d0, de);
    WroteFrame(was, was, d0, d0, de, []);
    if |src| == 0 {
      return UV_EINVAL;
    }
    ghost var name := NameFrom(src, 0, 0);
    ghost var full: seq<byte> := [];
    var d: nat, s: nat, si: nat := d0, 0, 0;
    JoinTwice([], [], name);
    while si < |src|
      invariant s <= si <= |src|
      invariant d0 <= d <= de && Wrote(was, buf[..], d0, d, de, full) && Framed(was, buf[..], d0, d, de)
      invariant name == Join(full, NameFrom(src, s, si))
      decreases |src| - si
    {
      var st := si;
      NameStep(src, s, si);
      var r := Decode1(src, si, |src|);
      si := r.next;
      if r.c == Invalid {
        ErrJoins(full, UV_EINVAL);
        WroteAll(was, buf[..], d0, d, de, full);
        return UV_EINVAL;
      }
      if !IsSeparator(r.c) {
        continue;
      }
      rc, d := AppendLabel(src, s, st, buf, d, de, was, d0, full);
      if rc < 0 {
        ErrJoins(full, rc);
        return rc;
      }
      ghost var text := LabelAt(src, s, st).value;
      d := Put(buf, d, de, Dot, was, d0, full + text);
      JoinTwice(full, text + [Dot], NameFrom(src, si, si));
      assert full + text + [Dot] == full + (text + [Dot]);
      full := full + (text + [Dot]);
      WroteFrame(was, buf[..], d0, d, de, full);
      FramedBounds(was, buf[..], d0, d, de);
      s := si;
    }
    NameStep(src, s, si);
    if s < |src| {
      rc, d := AppendLabel(src, s, |src|, buf, d, de, was, d0, full);
      if rc < 0 {
        ErrJoins(full, rc);
        return rc;
      }
      OkJoins(full, LabelAt(src, s, |src|).value);
      full := full + LabelAt(src, s, |src|).value;
    } else {
      OkJoins(full, []);
      assert full + [] == full;
    }
    WroteAll(was, buf[..], d0, d, de, full);
    if d >= de {
      return UV_EINVAL;
    }
    ghost var before := buf[..];
    buf[d] := 0;
    assert buf[..] == before[d := 0];
    rc := d + 1 - d0;
  }

  // ---------- What a name means, apart from the bytes it is written in ----------

  /** `head` is the label read so far, `tail` the code points still to come. */
  function LabelsFrom(head: seq<nat>, tail: seq<nat>): Result<seq<byte>>
    requires Points(head) && Points(tail)
    decreases |tail|
  {
    if tail == [] then (if head == [] then Ok([]) else LabelText(head))
    else if tail[0] !in {0x2E, 0x3002, 0xFF0E, 0xFF61} then LabelsFrom(head + [tail[0]], tail[1..])
    else if LabelText(head).Err? then LabelText(head)
    else
      var rest := LabelsFrom([], tail[1..]);
      if rest.Err? then rest else Ok(LabelText(head).value + [46] + rest.value)
  }

  /** Decoding with the end of the whole name in sight, the cursor went from s to si and read `head`. */
  ghost predicate Driven(src: seq<byte>, s: nat, si: nat, head: seq<nat>)
    requires s <= si <= |src|
    decreases |head|
  {
    if head == [] then s == si
    else
      s < si &&
      var r := Decode1(src, s, |src|);
      r.c != Invalid && r.c == head[0] && r.next <= si && Driven(src, r.next, si, head[1..])
  }

  /** The label encoder, which stops at the separator, then reads the same code points. */
  lemma {:induction false} DrivenCodePoints(src: seq<byte>, s: nat, si: nat, head: seq<nat>)
    requires s <= si <= |src| && Driven(src, s, si, head)
    ensures CodePoints(src, s, si) == Some(head)
    decreases |head|
  {
    hide Decode1;
    if head != [] {
      var r := Decode1(src, s, |src|);
      EndIrrelevant(src, s, si, |src|);
      DrivenCodePoints(src, r.next, si, head[1..]);
      assert [head[0]] + head[1..] == head;
    }
  }

  lemma {:induction false} DrivenAppend(src: seq<byte>, s: nat, si: nat, head: seq<nat>)
    requires s <= si < |src| && Driven(src, s, si, head)
    requires Decode1(src, si, |src|).c != Invalid
    ensures Driven(src, s, Decode1(src, si, |src|).next, head + [Decode1(src, si, |src|).c])
    decreases |head|
  {
    hide Decode1;
    var last := Decode1(src, si, |src|);
    if head != [] {
      DrivenAppend(src, Decode1(src, s, |src|).next, si, head[1..]);
      assert (head + [last.c])[1..] == head[1..] + [last.c];
    } else {
      assert ([] + [last.c])[1..] == [];
    }
  }

  lemma Separators(c: nat)
    ensures IsSeparator(c) <==> c in {0x2E, 0x3002, 0xFF0E, 0xFF61}
  {
  }

  lemma {:induction false} NameFromIsLabels(src: seq<byte>, s: nat, si: nat, head: seq<nat>)
    requires s <= si <= |src| && Driven(src, s, si, head) && Points(head)
    ensures CodePoints(src, si, |src|).None? ==> NameFrom(src, s, si).Err?
    ensures CodePoints(src, si, |src|).Some? ==>
      Points(CodePoints(src, si, |src|).value) && NameFrom(src, s, si) == LabelsFrom(head, CodePoints(src, si, |src|).value)
    decreases |src| - si
  {
    hide Decode1, Label, Driven, Points;
    DrivenCodePoints(src, s, si, head);
    ScalarPoints(src, si, |src|);
    DrivenEmpty(src, s, si, head);
    if si < |src| {
      var r := Decode1(src, si, |src|);
      Separators(r.c);
      if r.c != Invalid {
        DrivenAppend(src, s, si, head);
        PointsAppend(head, r.c);
        NameFromIsLabels(src, s, r.next, head + [r.c]);
        DrivenNothing(src, r.next);
        NameFromIsLabels(src, r.next, r.next, []);
        if CodePoints(src, r.next, |src|).Some? {
          var rest := CodePoints(src, r.next, |src|).value;
          assert ([r.c] + rest)[1..] == rest;
        }
      }
    }
  }

  lemma DrivenEmpty(src: seq<byte>, s: nat, si: nat, head: seq<nat>)
    requires s <= si <= |src| && Driven(src, s, si, head)
    ensures head == [] <==> s == si
  {
  }

  lemma DrivenNothing(src: seq<byte>, s: nat)
    requires s <= |src|
    ensures Driven(src, s, s, []) && Points([])
  {
  }

  lemma PointsAppend(head: seq<nat>, c: nat)
    requires Points(head) && (c == Invalid || IsScalar(c)) && c != Invalid
    ensures Points(head + [c])
  {
  }

  /**
   * What uv__idna_toascii computes, over the code points of the name: the
   * encodings of its labels, joined by one '.' for every separator.
   */
  lemma NameMeaning(src: seq<byte>)
    ensures CodePoints(src, 0, |src|).None? ==> NameFrom(src, 0, 0).Err?
    ensures CodePoints(src, 0, |src|).Some? ==>
      Points(CodePoints(src, 0, |src|).value) && NameFrom(src, 0, 0) == LabelsFrom([], CodePoints(src, 0, |src|).value)
  {
    DrivenNothing(src, 0);
    NameFromIsLabels(src, 0, 0, []);
  }

  /** The round trip on the bytes of a label: what is written decodes to what was read. */
  lemma LabelRoundTrip(src: seq<byte>, s: nat, st: nat)
    requires s <= st <= |src| && LabelAt(src, s, st).Ok?
    requires exists c :: c in CodePoints(src, s, st).value && c >= 128
    ensures |LabelAt(src, s, st).value| > 4 && LabelAt(src, s, st).value[..4] == [120, 110, 45, 45]
    ensures Decode(LabelAt(src, s, st).value[4..]) == CodePoints(src, s, st)
  {
    hide Decode, CodePoints, Label;
    ScalarPoints(src, s, st);
    RoundTrip(CodePoints(src, s, st).value);
  }

  // ---------- The count of a plain label, returned as an int ----------

  lemma {:induction false} CountNone(cps: seq<nat>)
    ensures Count(cps, 128) == 0 <==> forall i :: 0 <= i < |cps| ==> cps[i] < 128
  {
    if cps != [] {
      CountNone(cps[1..]);
      assert forall i :: 1 <= i < |cps| ==> cps[i] == cps[1..][i - 1];
      assert forall i :: 0 <= i < |cps[1..]| ==> cps[1..][i] == cps[i + 1];
    }
  }

  /**
   * A label that can be encoded is refused exactly if it is ASCII and longer than the
   * largest int: its length, returned as an int, is then negative and taken for an error.
   */
  lemma RefusedExactly(cps: seq<nat>)
    requires Points(cps) && |cps| <= UINT_MAX
    ensures Label(cps).Some? && LabelText(cps).Err? <==> |cps| > 0x7FFF_FFFF && forall i :: 0 <= i < |cps| ==> cps[i] < 128
    ensures Label(cps).Some? && LabelText(cps).Ok? ==> LabelText(cps).value == Label(cps).value
  {
    CountNone(cps);
  }

  /** 2^31 letters are such a label. */
  lemma LongPlainLabel()
    ensures var cps := seq(0x8000_0000, _ => 97 as nat);
            Points(cps) && Label(cps).Some? && LabelText(cps) == Err(-0x8000_0000)
  {
    var cps := seq(0x8000_0000, _ => 97 as nat);
    CountNone(cps);
  }
}
