/** The transcoder between UTF-16, lone surrogates included, and WTF-8. */
module Wtf8 {
  import opened Common
  import Utf8

  /** A uint16_t. */
  type unit = x: int | 0 <= x < 0x10000

  predicate IsHigh(u: unit) { 0xD800 <= u <= 0xDBFF }

  predicate IsLow(u: unit) { 0xDC00 <= u <= 0xDFFF }

  /** A surrogate pair (section 2 of RFC 2781). */
  function Pair(hi: unit, lo: unit): (c: nat)
    requires IsHigh(hi) && IsLow(lo)
    ensures 0x10000 <= c <= 0x10FFFF
  {
    0x10000 + (hi - 0xD800) * 0x400 + (lo - 0xDC00)
  }

  // ---------- The meaning of both directions ----------

  /** The code point at the front of a text, and how many units it takes. */
  function Front(text: seq<unit>): (r: (nat, nat))
    requires text != []
    ensures r.0 <= 0x10FFFF && 1 <= r.1 <= |text| && (r.1 == 2 <==> r.0 > 0xFFFF)
  {
    if |text| >= 2 && IsHigh(text[0]) && IsLow(text[1]) then (Pair(text[0], text[1]), 2) else (text[0], 1)
  }

  function Encoding(text: seq<unit>): seq<byte> {
    if text == [] then [] else Utf8.Encode(Front(text).0) + Encoding(text[Front(text).1..])
  }

  /** The UTF-16 form of a code point; a surrogate stands for itself. */
  function Units(c: nat): (r: seq<unit>)
    requires c <= 0x10FFFF
    ensures |r| == if c > 0xFFFF then 2 else 1
  {
    if c > 0xFFFF then [(c - 0x10000) / 0x400 + 0xD800, (c - 0x10000) % 0x400 + 0xDC00] else [c]
  }

  // ---------- uv__wtf8_decode1 ----------

  /** The string that starts at p ends with a NUL inside s. */
  ghost predicate HasNul(s: seq<int>, p: nat) {
    exists z :: p <= z < |s| && s[z] == 0
  }

  lemma HasNulNext(s: seq<int>, p: nat)
    requires HasNul(s, p)
    ensures p < |s| && (s[p] != 0 ==> HasNul(s, p + 1))
  {
    var z :| p <= z < |s| && s[z] == 0;
    assert s[p] != 0 ==> p + 1 <= z;
  }

  /** The value, -1 when the bytes are invalid, and the position of the last byte read. */
  datatype Decoded = Decoded(c: int, last: nat)

  predicate IsContinuation(b: nat) { b / 64 == 2 }

  function Decode1(src: seq<byte>, p: nat): (r: Decoded)
    requires HasNul(src, p)
    ensures p <= r.last < |src| && -1 <= r.c <= 0x10FFFF
    ensures r.c >= 0 ==> HasNul(src, r.last) && (src[r.last] == 0 ==> r.c == 0)
  {
    HasNulNext(src, p);
    var b1: nat := src[p];
    if b1 <= 0x7F then Decoded(b1, p)
    else if b1 < 0xC2 then Decoded(-1, p)
    else
      HasNulNext(src, p + 1);
      var b2: nat := src[p + 1];
      if !IsContinuation(b2) then Decoded(-1, p + 1)
      else if b1 <= 0xDF then Decoded(b1 % 32 * 64 + b2 % 64, p + 1)
      else
        HasNulNext(src, p + 2);
        var b3: nat := src[p + 2];
        if !IsContinuation(b3) then Decoded(-1, p + 2)
        else if b1 <= 0xEF then Decoded(b1 % 16 * 0x1000 + b2 % 64 * 64 + b3 % 64, p + 2)
        else
          HasNulNext(src, p + 3);
          var b4: nat := src[p + 3];
          if !IsContinuation(b4) then Decoded(-1, p + 3)
          else
            var c := b1 % 8 * 0x40000 + b2 % 64 * 0x1000 + b3 % 64 * 64 + b4 % 64;
            if b1 <= 0xF4 && c <= 0x10FFFF then Decoded(c, p + 3) else Decoded(-1, p + 3)
  }

  /** The units of a NUL-terminated string, its terminator included; None when it is invalid. */
  function Decoding(src: seq<byte>, p: nat): (r: Option<seq<unit>>)
    requires HasNul(src, p)
    decreases |src| - p
  {
    var d := Decode1(src, p);
    if d.c < 0 then None
    else if src[d.last] == 0 then Some(Units(d.c))
    else
      HasNulNext(src, d.last);
      var rest := Decoding(src, d.last + 1);
      if rest.None? then None else Some(Units(d.c) + rest.value)
  }

  /** Whether a code point satisfies `< 0x10FFFF`, which the converter asserts of all above 0xFFFF. */
  ghost predicate BelowMaximum(src: seq<byte>, p: nat)
    requires HasNul(src, p)
    decreases |src| - p
  {
    var d := Decode1(src, p);
    d.c >= 0 ==>
      d.c < 0x10FFFF &&
      (src[d.last] != 0 ==> (HasNulNext(src, d.last); BelowMaximum(src, d.last + 1)))
  }

  /** uv_wtf8_length_as_utf16: exactly the number of units the converter writes. */
  method LengthAsUtf16(src: seq<byte>, p0: nat) returns (n: int)
    requires HasNul(src, p0)
    ensures n == if Decoding(src, p0).None? then -1 else |Decoding(src, p0).value|
  {
    hide Decode1, Units;
    n := 0;
    var p := p0;
    while true
      invariant 0 <= n && HasNul(src, p)
      invariant Decoding(src, p0).Some? <==> Decoding(src, p).Some?
      invariant Decoding(src, p).Some? ==> |Decoding(src, p0).value| == n + |Decoding(src, p).value|
      decreases |src| - p
    {
      var d := Decode1(src, p);
      if d.c < 0 {
        return -1;
      }
      if d.c > 0xFFFF {
        n := n + 1;
      }
      n := n + 1;
      HasNulNext(src, d.last);
      p := d.last + 1;
      if src[d.last] == 0 {
        break;
      }
    }
  }

  /** uv_wtf8_to_utf16, called as it asks to be: with the length computed first. */
  method ToUtf16(src: seq<byte>, p0: nat, target: array<unit>, targetLen: nat)
    requires HasNul(src, p0) && Decoding(src, p0).Some? && BelowMaximum(src, p0)
    requires targetLen == |Decoding(src, p0).value| <= target.Length
    modifies target
    ensures target[..] == Decoding(src, p0).value + old(target[targetLen..])
  {
    hide Decode1, Units;
    var p, w, left := p0, 0, targetLen;
    ghost var all := Decoding(src, p0).value;
    while true
      invariant HasNul(src, p) && Decoding(src, p).Some? && BelowMaximum(src, p)
      invariant 0 <= w && 0 <= left && w + left == targetLen
      invariant target[..w] + Decoding(src, p).value == all
      invariant target[targetLen..] == old(target[targetLen..])
      decreases |src| - p
    {
      var d := Decode1(src, p);
      ghost var before := target[..w];
      ghost var rest := DecodingStep(src, p);
      Store(target, w, d.c);
      assert target[..w + |Units(d.c)|] == before + Units(d.c);
      if d.c > 0xFFFF {
        assert d.c < 0x10FFFF;
        w := w + 2;
        left := left - 2;
      } else {
        w := w + 1;
        left := left - 1;
      }
      HasNulNext(src, d.last);
      p := d.last + 1;
      if src[d.last] == 0 {
        assert before + Units(d.c) == all;
        break;
      }
      assert before + Units(d.c) + rest == all;
    }
    assert left == 0;
  }

  /** What remains after one code point; nothing after the terminator. */
  lemma DecodingStep(src: seq<byte>, p: nat) returns (rest: seq<unit>)
    requires HasNul(src, p) && Decoding(src, p).Some?
    ensures var d := Decode1(src, p);
      d.c >= 0 && Decoding(src, p).value == Units(d.c) + rest &&
      (src[d.last] == 0 ==> rest == []) &&
      (src[d.last] != 0 ==> HasNul(src, d.last + 1) && Decoding(src, d.last + 1) == Some(rest))
  {
    hide Decode1, Units;
    var d := Decode1(src, p);
    if src[d.last] == 0 {
      rest := [];
    } else {
      HasNulNext(src, d.last);
      rest := Decoding(src, d.last + 1).value;
    }
  }

  /** The one or two units of a code point. */
  method Store(target: array<unit>, w: nat, c: nat)
    requires c <= 0x10FFFF && w + |Units(c)| <= target.Length
    modifies target
    ensures target[..] == old(target[..w]) + Units(c) + old(target[w + |Units(c)|..])
  {
    if c > 0xFFFF {
      target[w] := (c - 0x10000) / 0x400 + 0xD800;
      target[w + 1] := (c - 0x10000) % 0x400 + 0xDC00;
    } else {
      target[w] := c;
    }
  }

  // ---------- UTF-16 to WTF-8 ----------

  /** The source text at p: `len` units, or up to the NUL when len is negative. */
  ghost predicate HasText(src: seq<unit>, p: nat, len: int) {
    if len >= 0 then p + len <= |src| else HasNul(src, p)
  }

  function NulAt(src: seq<unit>, p: nat): (z: nat)
    requires HasNul(src, p)
    ensures p <= z < |src| && src[z] == 0 && forall i :: p <= i < z ==> src[i] != 0
    decreases |src| - p
  {
    HasNulNext(src, p);
    if src[p] == 0 then p else NulAt(src, p + 1)
  }

  function Text(src: seq<unit>, p: nat, len: int): seq<unit>
    requires HasText(src, p, len)
  {
    if len >= 0 then src[p..p + len] else src[p..NulAt(src, p)]
  }

  /** uv__get_surrogate_value. */
  function SurrogateValue(src: seq<unit>, p: nat, len: int): (r: nat)
    requires len != 0 && HasText(src, p, len)
    ensures Text(src, p, len) != [] ==> r == Front(Text(src, p, len)).0
    ensures Text(src, p, len) == [] ==> r == 0
  {
    NonEmpty(src, p, len);
    if IsHigh(src[p]) && len != 1 then
      if IsLow(src[p + 1]) then Pair(src[p], src[p + 1]) else src[p]
    else src[p]
  }

  /** In plain numbers: the two halves of a pair are joined, and any other unit stands for itself. */
  lemma SurrogateExact(src: seq<unit>, p: nat, len: int)
    requires len != 0 && HasText(src, p, len)
    ensures p < |src|
    ensures SurrogateValue(src, p, len) == if len != 1 && p + 1 < |src| && 0xD800 <= src[p] < 0xDC00 && 0xDC00 <= src[p + 1] < 0xE000
                 then 0x10000 + (src[p] as int - 0xD800) * 0x400 + (src[p + 1] as int - 0xDC00) else src[p]
  {
    NonEmpty(src, p, len);
  }

  /** What a nonzero length promises about the units at hand. */
  lemma NonEmpty(src: seq<unit>, p: nat, len: int)
    requires len != 0 && HasText(src, p, len)
    ensures p < |src| && (Text(src, p, len) == [] <==> len < 0 && src[p] == 0)
    ensures Text(src, p, len) != [] ==> Text(src, p, len)[0] == src[p]
    ensures IsHigh(src[p]) && len != 1 ==> p + 1 < |src|
    ensures IsHigh(src[p]) && len != 1 && IsLow(src[p + 1]) ==> |Text(src, p, len)| >= 2
    ensures |Text(src, p, len)| >= 2 ==> len != 1 && p + 1 < |src| && Text(src, p, len)[1] == src[p + 1]
  {
    if len < 0 {
      HasNulNext(src, p);
      if src[p] != 0 {
        HasNulNext(src, p + 1);
      }
    }
  }

  /** `w_source_ptr++` with its conditional `w_source_len--`. */
  function Less(len: int, k: nat): int {
    if len > 0 then len - k else len
  }

  lemma Advance(src: seq<unit>, p: nat, len: int, k: nat)
    requires HasText(src, p, len) && k <= |Text(src, p, len)|
    ensures HasText(src, p + k, Less(len, k))
    ensures Text(src, p + k, Less(len, k)) == Text(src, p, len)[k..]
    ensures len < 0 ==> Less(len, k) < 0
  {
    if len < 0 {
      var z := NulAt(src, p);
      assert src[z] == 0;
      var y := NulAt(src, p + k);
      assert y == z;
    } else if len == 0 {
      assert k == 0;
    }
  }

  /** uv_utf16_length_as_wtf8. */
  method LengthAsWtf8(src: seq<unit>, p0: nat, len0: int) returns (n: nat)
    requires HasText(src, p0, len0)
    ensures n == |Encoding(Text(src, p0, len0))|
  {
    hide Text, HasText, Front, SurrogateValue;
    n := 0;
    var p, len := p0, len0;
    while len != 0
      invariant HasText(src, p, len)
      invariant |Encoding(Text(src, p0, len0))| == n + |Encoding(Text(src, p, len))|
      decreases |src| - p
    {
      ghost var text := Text(src, p, len);
      NonEmpty(src, p, len);
      var c := SurrogateValue(src, p, len);
      if len < 0 && c == 0 {
        ZeroEnds(src, p, len);
        return n;
      }
      ZeroEnds(src, p, len);
      FrontAdvance(src, p, len);
      if c < 0x80 {
        n := n + 1;
      } else if c < 0x800 {
        n := n + 2;
      } else if c < 0x10000 {
        n := n + 3;
      } else {
        n := n + 4;
        p := p + 1;
        if len > 0 {
          len := len - 1;
        }
      }
      p := p + 1;
      if len > 0 {
        len := len - 1;
      }
    }
    EmptyText(src, p);
  }

  lemma EmptyText(src: seq<unit>, p: nat)
    requires HasText(src, p, 0)
    ensures Text(src, p, 0) == [] && Encoding([]) == []
  {
  }

  /** In a NUL-terminated text a zero code point is its end. */
  lemma ZeroEnds(src: seq<unit>, p: nat, len: int)
    requires len != 0 && HasText(src, p, len)
    ensures Text(src, p, len) == [] <==> len < 0 && SurrogateValue(src, p, len) == 0
    ensures Encoding([]) == []
  {
    NonEmpty(src, p, len);
  }

  /** The cursor moves over the front code point, and the encoding over its bytes. */
  lemma FrontAdvance(src: seq<unit>, p: nat, len: int)
    requires len != 0 && HasText(src, p, len) && Text(src, p, len) != []
    ensures var c := SurrogateValue(src, p, len);
      var k := if c > 0xFFFF then 2 else 1;
      && c <= 0x10FFFF && p + k <= |src| && (len > 0 ==> k <= len)
      && HasText(src, p + k, Less(len, k))
      && Encoding(Text(src, p, len)) == Utf8.Encode(c) + Encoding(Text(src, p + k, Less(len, k)))
  {
    hide Text, NulAt, Utf8.Encode, Pair, HasText, HasNul;
    NonEmpty(src, p, len);
    var text := Text(src, p, len);
    FrontIsValue(src, p, len);
    hide SurrogateValue, Front;
    var k := Front(text).1;
    Advance(src, p, len, k);
    Bound(src, p, len, k);
    assert Encoding(text) == Utf8.Encode(Front(text).0) + Encoding(text[k..]);
  }

  lemma FrontIsValue(src: seq<unit>, p: nat, len: int)
    requires len != 0 && HasText(src, p, len) && Text(src, p, len) != []
    ensures SurrogateValue(src, p, len) == Front(Text(src, p, len)).0
  {}

  lemma Bound(src: seq<unit>, p: nat, len: int, k: nat)
    requires HasText(src, p, len) && k <= |Text(src, p, len)|
    ensures p + k <= |src| && (len > 0 ==> k <= len)
  {}

  /** The first k bytes of e stand at t0. */
  ghost function Overlay(was: seq<byte>, t0: nat, e: seq<byte>, k: nat): seq<byte>
    requires k <= |e| && t0 + k <= |was|
  {
    was[..t0] + e[..k] + was[t0 + k..]
  }

  /** `*target++ = b`, where b is the next byte of e; `more` is false when that filled the buffer. */
  method StoreByte(target: array<byte>, t: nat, cap: nat, b: byte, ghost was: seq<byte>, ghost t0: nat, ghost e: seq<byte>)
    returns (t': nat, more: bool)
    requires t0 <= t < cap < target.Length == |was| && t - t0 < |e| && e[t - t0] == b
    requires target[..] == Overlay(was, t0, e, t - t0)
    modifies target
    ensures t' == t + 1 && more == (t' != cap)
    ensures target[..] == Overlay(was, t0, e, t' - t0)
  {
    target[t] := b;
    t' := t + 1;
    more := t' != cap;
  }

  /** The branches of the source, which are those of the encoding. */
  lemma EncodingBytes(c: nat)
    requires c <= 0x10FFFF
    ensures c < 0x80 ==> Utf8.Encode(c) == [c]
    ensures 0x80 <= c < 0x800 ==> c / 64 < 32 && Utf8.Encode(c) == [0xC0 + c / 64, 0x80 + c % 64]
    ensures 0x800 <= c < 0x10000 ==> c / 0x1000 < 16 && Utf8.Encode(c) == [0xE0 + c / 0x1000, 0x80 + c / 64 % 64, 0x80 + c % 64]
    ensures 0x10000 <= c ==> c / 0x40000 < 8
    ensures 0x10000 <= c ==> Utf8.Encode(c) == [0xF0 + c / 0x40000, 0x80 + c / 0x1000 % 64, 0x80 + c / 64 % 64, 0x80 + c % 64]
  {
  }

  lemma OverlayNothing(was: seq<byte>, t0: nat, e: seq<byte>)
    requires t0 <= |was|
    ensures Overlay(was, t0, e, 0) == was
  {
  }

  /** The bytes of one code point, with the breaks that leave it unfinished when the buffer fills. */
  method WriteCodePoint(target: array<byte>, t0: nat, cap: nat, c: nat) returns (t: nat, whole: bool)
    requires t0 < cap < target.Length && c <= 0x10FFFF
    modifies target
    ensures var e := Utf8.Encode(c);
      && whole == (t0 + |e| <= cap)
      && t == (if whole then t0 + |e| else cap)
      && target[..] == Overlay(old(target[..]), t0, e, t - t0)
  {
    hide Utf8.Encode, Overlay;
    EncodingBytes(c);
    ghost var was, e := target[..], Utf8.Encode(c);
    assert target[..] == Overlay(was, t0, e, 0) by { OverlayNothing(was, t0, e); }
    var more;
    if c < 0x80 {
      t, more := StoreByte(target, t0, cap, c, was, t0, e);
    } else if c < 0x800 {
      t, more := StoreByte(target, t0, cap, 0xC0 + c / 64, was, t0, e);
      if !more { return t, false; }
      t, more := StoreByte(target, t, cap, 0x80 + c % 64, was, t0, e);
    } else if c < 0x10000 {
      t, more := StoreByte(target, t0, cap, 0xE0 + c / 0x1000, was, t0, e);
      if !more { return t, false; }
      t, more := StoreByte(target, t, cap, 0x80 + c / 64 % 64, was, t0, e);
      if !more { return t, false; }
      t, more := StoreByte(target, t, cap, 0x80 + c % 64, was, t0, e);
    } else {
      t, more := StoreByte(target, t0, cap, 0xF0 + c / 0x40000, was, t0, e);
      if !more { return t, false; }
      t, more := StoreByte(target, t, cap, 0x80 + c / 0x1000 % 64, was, t0, e);
      if !more { return t, false; }
      t, more := StoreByte(target, t, cap, 0x80 + c / 64 % 64, was, t0, e);
      if !more { return t, false; }
      t, more := StoreByte(target, t, cap, 0x80 + c % 64, was, t0, e);
    }
    whole := true;
  }

  /** The length that is reported for a text and a capacity: an overestimate when not even one code point fits. */
  function ReportedLength(text: seq<unit>, cap: nat): (n: nat)
    ensures n >= |Encoding(text)|
    ensures cap == 0 || (text != [] && |Utf8.Encode(Front(text).0)| <= cap) ==> n == |Encoding(text)|
  {
    if |Encoding(text)| > cap && |Utf8.Encode(Front(text).0)| > cap then cap + |Encoding(text)| else |Encoding(text)|
  }

  /**
   * Where the main loop stands: b is the end of the last whole code point, t
   * the end of what is stored, and `rest` the text from the cursor on.
   */
  ghost predicate Filled(was: seq<byte>, now: seq<byte>, text: seq<unit>, rest: seq<unit>, b: nat, t: nat, cap: nat, len: nat) {
    var e := Encoding(text);
    && b <= t <= cap < |was| == |now|
    && t <= |e| && now == e[..t] + was[t..]
    && |e| == b + |Encoding(rest)| && e[b..] == Encoding(rest)
    && (b == 0 ==> rest == text && len == cap)
    && (b > 0 ==> len == b && text != [] && |Utf8.Encode(Front(text).0)| <= b)
    && (b < t ==> t == cap < |e| && rest != [] && b + |Utf8.Encode(Front(rest).0)| > cap)
  }

  lemma FilledStart(was: seq<byte>, text: seq<unit>, cap: nat)
    requires cap < |was|
    ensures Filled(was, was, text, text, 0, 0, cap, cap)
  {
  }

  /** A code point written whole, or cut off by the end of the buffer. */
  lemma FilledStep(was: seq<byte>, before: seq<byte>, now: seq<byte>, text: seq<unit>, rest: seq<unit>, rest': seq<unit>,
                   t0: nat, t: nat, cap: nat, len: nat, c: nat)
    requires Filled(was, before, text, rest, t0, t0, cap, len) && c <= 0x10FFFF && t0 < cap
    requires rest != [] && c == Front(rest).0 && Encoding(rest) == Utf8.Encode(c) + Encoding(rest')
    requires var e := Utf8.Encode(c);
      t == (if t0 + |e| <= cap then t0 + |e| else cap) && now == Overlay(before, t0, e, t - t0)
    ensures t0 + |Utf8.Encode(c)| <= cap ==> Filled(was, now, text, rest', t, t, cap, t)
    ensures t0 + |Utf8.Encode(c)| > cap ==> Filled(was, now, text, rest, t0, t, cap, len)
  {
    hide Front, Utf8.Encode;
    var e := Encoding(text);
    assert e == e[..t0] + Encoding(rest);
    StoredPrefix(e, t0, Utf8.Encode(c), Encoding(rest'), t);
    assert before[..t0] == e[..t0] && before[t..] == was[t..];
    EncodingFront(text);
  }

  lemma StoredPrefix(e: seq<byte>, t0: nat, x: seq<byte>, y: seq<byte>, t: nat)
    requires t0 <= |e| && e[t0..] == x + y && t0 <= t <= t0 + |x|
    ensures t <= |e| && e[..t] == e[..t0] + x[..t - t0]
    ensures e[t0 + |x|..] == y
  {
    assert forall i :: t0 <= i < t ==> e[i] == e[t0..][i - t0] == x[i - t0];
  }

  lemma EncodingFront(text: seq<unit>)
    ensures text == [] ==> Encoding(text) == []
    ensures text != [] ==> |Encoding(text)| >= |Utf8.Encode(Front(text).0)| > 0
  {
  }

  /** uv_utf16_to_wtf8 with a buffer of cap bytes and room for the NUL. */
  method FillWtf8(src: seq<unit>, p0: nat, len0: int, target: array<byte>, cap: nat) returns (rc: int, reported: nat)
    requires HasText(src, p0, len0) && cap < target.Length
    modifies target
    ensures var e := Encoding(Text(src, p0, len0));
      var stored := if |e| <= cap then |e| else cap;
      && rc == (if |e| <= cap then 0 else UV_ENOBUFS)
      && target[..] == e[..stored] + [0] + old(target[stored + 1..])
      && reported == ReportedLength(Text(src, p0, len0), cap)
  {
    hide Text, HasText, Front, SurrogateValue, Encoding, Filled, Utf8.Encode, ReportedLength, Overlay;
    ghost var was := target[..];
    ghost var text := Text(src, p0, len0);
    var p: nat, len, t: nat, targetLen: nat := p0, len0, 0, cap;
    ghost var b := 0;
    FilledStart(was, text, cap);
    TextBound(src, p, len);
    while t != cap && len != 0
      invariant HasText(src, p, len) && p <= |src| && t <= cap && b == t
      invariant Filled(was, target[..], text, Text(src, p, len), b, t, cap, targetLen)
      decreases |src| - p
    {
      var c := SurrogateValue(src, p, len);
      ZeroEnds(src, p, len);
      NonEmpty(src, p, len);
      if len < 0 && c == 0 {
        EmptyTextAt(src, p);
        len := 0;
        break;
      }
      FrontAdvance(src, p, len);
      ghost var before, rest, t0, len' := target[..], Text(src, p, len), t, targetLen;
      ghost var k := if c > 0xFFFF then 2 else 1;
      var whole;
      t, whole := WriteCodePoint(target, t, cap, c);
      FilledStep(was, before, target[..], text, rest, Text(src, p + k, Less(len, k)), t0, t, cap, targetLen, c);
      if !whole {
        break;
      }
      if c > 0xFFFF {
        p := p + 1;
        if len > 0 {
          len := len - 1;
        }
      }
      targetLen := t;
      b := t;
      p := p + 1;
      if len > 0 {
        len := len - 1;
      }
    }
    rc, reported := FinishWtf8(src, p, len, target, t, cap, targetLen, was, text, b);
  }

  /** From the end of the main loop on. */
  method FinishWtf8(src: seq<unit>, p: nat, len0: int, target: array<byte>, t: nat, cap: nat, targetLen: nat,
                    ghost was: seq<byte>, ghost text: seq<unit>, ghost b: nat)
    returns (rc: int, reported: nat)
    requires HasText(src, p, len0) && (len0 != 0 ==> t == cap) && p <= |src|
    requires Filled(was, target[..], text, Text(src, p, len0), b, t, cap, targetLen) && t < target.Length
    modifies target
    ensures var e := Encoding(text);
      var stored := if |e| <= cap then |e| else cap;
      && rc == (if |e| <= cap then 0 else UV_ENOBUFS)
      && stored < |was| && target[..] == e[..stored] + [0] + was[stored + 1..]
      && reported == ReportedLength(text, cap)
  {
    hide Text, HasText, Front, SurrogateValue, Encoding, Utf8.Encode, ReportedLength;
    var len := len0;
    reported := cap;
    if t != cap {
      reported := t;
    }
    if len != 0 {
      NonEmpty(src, p, len);
    }
    EmptyTextAt(src, p);
    if len < 0 && t == cap && src[p] == 0 {
      len := 0;
    }
    ghost var now := target[..];
    FilledEnd(was, now, text, Text(src, p, len), b, t, cap, targetLen);
    target[t] := 0;
    assert target[..] == now[t := 0];
    if len != 0 {
      var n := LengthAsWtf8(src, p, len);
      return UV_ENOBUFS, targetLen + n;
    }
    rc := 0;
  }

  lemma TextBound(src: seq<unit>, p: nat, len: int)
    requires HasText(src, p, len)
    ensures p <= |src|
  {
  }

  lemma EmptyTextAt(src: seq<unit>, p: nat)
    requires p <= |src|
    ensures HasText(src, p, 0) && Text(src, p, 0) == []
  {
  }

  /** What the final NUL completes, with and without text left over. */
  lemma FilledEnd(was: seq<byte>, now: seq<byte>, text: seq<unit>, rest: seq<unit>, b: nat, t: nat, cap: nat, len: nat)
    requires Filled(was, now, text, rest, b, t, cap, len)
    ensures rest == [] ==> t == |Encoding(text)| <= cap
    ensures rest != [] && t == cap ==> |Encoding(text)| > cap && ReportedLength(text, cap) == len + |Encoding(rest)|
    ensures |Encoding(text)| <= cap ==> ReportedLength(text, cap) == |Encoding(text)|
    ensures t <= |Encoding(text)| && now[t := 0] == Encoding(text)[..t] + [0] + was[t + 1..]
  {
    hide Front, Utf8.Encode;
    EncodingFront(rest);
    EncodingFront(text);
    assert was[t..][1..] == was[t + 1..];
  }

  /** uv_utf16_to_wtf8 without a buffer: the length is computed and exactly that much is allocated. */
  method AllocateWtf8(src: seq<unit>, p0: nat, len0: int) returns (rc: int, target: array<byte>, reported: nat)
    requires HasText(src, p0, len0)
    ensures rc == 0 && fresh(target) && reported == |Encoding(Text(src, p0, len0))|
    ensures target[..] == Encoding(Text(src, p0, len0)) + [0]
  {
    var n := LengthAsWtf8(src, p0, len0);
    target := new byte[n + 1];
    rc, reported := FillWtf8(src, p0, len0, target, n);
  }

  // ---------- What the encoding is ----------

  /** Which code point stands at the front, by section 2.2 of RFC 2781; a surrogate without its other half stands for itself. */
  lemma EncodingStep(text: seq<unit>)
    requires text != []
    ensures if |text| > 1 && 0xD800 <= text[0] <= 0xDBFF && 0xDC00 <= text[1] <= 0xDFFF then
              var c := 0x10000 + (text[0] as int - 0xD800) * 0x400 + (text[1] as int - 0xDC00);
              Encoding(text) == Utf8.Encode(c) + Encoding(text[2..])
            else
              Encoding(text) == Utf8.Encode(text[0]) + Encoding(text[1..])
  {
    hide Utf8.Encode, Front, Encoding;
    FrontIs(text);
    if |text| > 1 && 0xD800 <= text[0] <= 0xDBFF && 0xDC00 <= text[1] <= 0xDFFF {
      EncodingUnfolds(text, 0x10000 + (text[0] as int - 0xD800) * 0x400 + (text[1] as int - 0xDC00), 2);
    } else {
      EncodingUnfolds(text, text[0], 1);
    }
  }

  lemma EncodingUnfolds(text: seq<unit>, c: nat, k: nat)
    requires text != [] && Front(text) == (c, k)
    ensures Encoding(text) == Utf8.Encode(c) + Encoding(text[k..])
  {
    hide Utf8.Encode, Front;
  }

  lemma FrontIs(text: seq<unit>)
    requires text != []
    ensures Front(text) == if |text| > 1 && 0xD800 <= text[0] <= 0xDBFF && 0xDC00 <= text[1] <= 0xDFFF then
                             (0x10000 + (text[0] as int - 0xD800) * 0x400 + (text[1] as int - 0xDC00), 2)
                           else (text[0], 1)
  {
  }

  /** The UTF-16 form of scalar values, by section 2.1 of RFC 2781. */
  function Utf16(cps: seq<nat>): seq<unit>
    requires forall i :: 0 <= i < |cps| ==> Utf8.IsScalar(cps[i])
  {
    if cps == [] then []
    else
      assert Utf8.IsScalar(cps[0]);
      (if cps[0] < 0x10000 then [cps[0]]
       else [0xD800 + (cps[0] - 0x10000) / 0x400, 0xDC00 + (cps[0] - 0x10000) % 0x400]) + Utf16(cps[1..])
  }

  /** Of text without lone surrogates the WTF-8 form is the UTF-8 form. */
  lemma {:induction false} EncodingIsUtf8(cps: seq<nat>)
    requires forall i :: 0 <= i < |cps| ==> Utf8.IsScalar(cps[i])
    ensures Encoding(Utf16(cps)) == Utf8.EncodeAll(cps)
  {
    hide Utf8.Encode, Encoding;
    if cps != [] {
      var text := Utf16(cps);
      assert Utf8.IsScalar(cps[0]);
      EncodingIsUtf8(cps[1..]);
      EncodingStep(text);
      if cps[0] < 0x10000 {
        assert text[1..] == Utf16(cps[1..]);
      } else {
        var u: nat := cps[0] - 0x10000;
        assert u == u / 0x400 * 0x400 + u % 0x400;
        assert text[2..] == Utf16(cps[1..]);
      }
    } else {
      EmptyText([], 0);
    }
  }

  // ---------- Which input is decoded ----------

  /** An overlong form of three or four bytes. */
  predicate Overlong(src: seq<byte>, p: nat)
    requires p < |src|
  {
    p + 1 < |src| && ((src[p] == 0xE0 && src[p + 1] < 0xA0) || (src[p] == 0xF0 && src[p + 1] < 0x90))
  }

  /** What is accepted is the encoding of the code point exactly if it is not overlong. */
  lemma DecodedExactly(src: seq<byte>, p: nat)
    requires HasNul(src, p) && Decode1(src, p).c >= 0
    ensures p < |src|
    ensures src[p..Decode1(src, p).last + 1] == Utf8.Encode(Decode1(src, p).c) <==> !Overlong(src, p)
  {
    hide Utf8.Encode, Utf8.IsScalar;
    HasNulNext(src, p);
    var b1: nat, d := src[p], Decode1(src, p);
    if b1 <= 0x7F {
      Utf8.EncodeTable(b1);
      assert src[p..p + 1] == [b1];
    } else {
      var x: nat := src[p + 1] - 0x80;
      if b1 <= 0xDF {
        Utf8.EncodeTwo(b1 - 0xC0, x);
        assert src[p..p + 2] == [src[p], src[p + 1]];
      } else if b1 <= 0xEF {
        DecodedThree(src, p);
      } else {
        DecodedFour(src, p);
      }
    }
  }

  lemma DecodedThree(src: seq<byte>, p: nat)
    requires HasNul(src, p) && Decode1(src, p).c >= 0 && p < |src| && 0xE0 <= src[p] <= 0xEF
    ensures src[p..Decode1(src, p).last + 1] == Utf8.Encode(Decode1(src, p).c) <==> !Overlong(src, p)
  {
    hide Utf8.Encode, Utf8.IsScalar;
    var b1: nat, x: nat, y: nat := src[p], src[p + 1] - 0x80, src[p + 2] - 0x80;
    var c := Decode1(src, p).c;
    assert c == (b1 - 0xE0) * 0x1000 + x * 0x40 + y;
    Utf8.EncodeTable(c);
    assert src[p..p + 3] == [src[p], src[p + 1], src[p + 2]];
    if c >= 0x800 {
      Utf8.EncodeThree(b1 - 0xE0, x, y);
    }
  }

  lemma DecodedFour(src: seq<byte>, p: nat)
    requires HasNul(src, p) && Decode1(src, p).c >= 0 && p < |src| && 0xF0 <= src[p]
    ensures src[p..Decode1(src, p).last + 1] == Utf8.Encode(Decode1(src, p).c) <==> !Overlong(src, p)
  {
    hide Utf8.Encode, Utf8.IsScalar;
    var b1: nat, x: nat, y: nat, z: nat := src[p], src[p + 1] - 0x80, src[p + 2] - 0x80, src[p + 3] - 0x80;
    var c := Decode1(src, p).c;
    assert c == (b1 - 0xF0) * 0x40000 + x * 0x1000 + y * 0x40 + z;
    Utf8.EncodeTable(c);
    assert src[p..p + 4] == [src[p], src[p + 1], src[p + 2], src[p + 3]];
    if c >= 0x10000 {
      Utf8.EncodeFour(b1 - 0xF0, x, y, z);
    }
  }

  // ---------- The round trip ----------

  ghost predicate NoNul(text: seq<unit>) {
    forall i :: 0 <= i < |text| ==> text[i] != 0
  }

  /** The bytes of a nonzero code point decode to it and hold no NUL. */
  lemma DecodeEncoded(src: seq<byte>, p: nat, c: nat)
    requires 0 < c <= 0x10FFFF
    requires p + |Utf8.Encode(c)| <= |src| && src[p..p + |Utf8.Encode(c)|] == Utf8.Encode(c)
    requires HasNul(src, p + |Utf8.Encode(c)|)
    ensures HasNul(src, p) && Decode1(src, p) == Decoded(c, p + |Utf8.Encode(c)| - 1)
    ensures src[p + |Utf8.Encode(c)| - 1] != 0
  {
    hide Utf8.Encode, Decode1, HasNul, IsContinuation;
    var e := Utf8.Encode(c);
    HasNulBefore(src, p, p + |e|);
    forall i | 0 <= i < |e| ensures src[p + i] == e[i] {
      assert src[p..p + |e|][i] == e[i];
    }
    if c < 0x10000 {
      DecodeEncodedShort(src, p, c);
    } else {
      DecodeEncodedLong(src, p, c);
    }
  }

  lemma DecodeEncodedShort(src: seq<byte>, p: nat, c: nat)
    requires 0 < c < 0x10000 && HasNul(src, p)
    requires p + |Utf8.Encode(c)| <= |src| && forall i :: 0 <= i < |Utf8.Encode(c)| ==> src[p + i] == Utf8.Encode(c)[i]
    ensures Decode1(src, p) == Decoded(c, p + |Utf8.Encode(c)| - 1)
    ensures src[p + |Utf8.Encode(c)| - 1] != 0
  {
    hide Utf8.Encode, Decode1, HasNul, IsContinuation;
    EncodingBytes(c);
    Utf8.SixBitDigits(c);
    Utf8.LeadPayload(c);
    var e := Utf8.Encode(c);
    assert src[p + 0] == e[0];
    DecodeSteps(src, p);
    if c < 0x80 {
    } else if c < 0x800 {
      assert src[p + 1] == e[1];
      ContinuationPayload(c % 64);
    } else {
      assert src[p + 1] == e[1] && src[p + 2] == e[2];
      ContinuationPayload(c / 64 % 64);
      ContinuationPayload(c % 64);
    }
  }

  lemma DecodeEncodedLong(src: seq<byte>, p: nat, c: nat)
    requires 0x10000 <= c <= 0x10FFFF && HasNul(src, p)
    requires p + |Utf8.Encode(c)| <= |src| && forall i :: 0 <= i < |Utf8.Encode(c)| ==> src[p + i] == Utf8.Encode(c)[i]
    ensures Decode1(src, p) == Decoded(c, p + |Utf8.Encode(c)| - 1)
    ensures src[p + |Utf8.Encode(c)| - 1] != 0
  {
    hide Utf8.Encode, Decode1, HasNul, IsContinuation;
    EncodingBytes(c);
    Utf8.SixBitDigits(c);
    Utf8.LeadPayload(c);
    var e := Utf8.Encode(c);
    assert src[p + 0] == e[0] && src[p + 1] == e[1] && src[p + 2] == e[2] && src[p + 3] == e[3];
    DecodeSteps(src, p);
    ContinuationPayload(c / 0x1000 % 64);
    ContinuationPayload(c / 64 % 64);
    ContinuationPayload(c % 64);
  }

  lemma HasNulBefore(s: seq<int>, p: nat, q: nat)
    requires p <= q && HasNul(s, q)
    ensures HasNul(s, p)
  {
    var z :| q <= z < |s| && s[z] == 0;
  }

  lemma ContinuationPayload(x: nat)
    requires x < 64
    ensures IsContinuation(0x80 + x) && (0x80 + x) % 64 == x
  {
  }

  /** The accepting paths of the decoder. */
  lemma DecodeSteps(src: seq<byte>, p: nat)
    requires HasNul(src, p)
    ensures p < |src|
    ensures src[p] <= 0x7F ==> Decode1(src, p) == Decoded(src[p], p)
    ensures 0xC2 <= src[p] <= 0xDF && p + 1 < |src| && IsContinuation(src[p + 1]) ==>
      Decode1(src, p) == Decoded((src[p] as int) % 32 * 64 + (src[p + 1] as int) % 64, p + 1)
    ensures 0xE0 <= src[p] <= 0xEF && p + 2 < |src| && IsContinuation(src[p + 1]) && IsContinuation(src[p + 2]) ==>
      Decode1(src, p) == Decoded((src[p] as int) % 16 * 0x1000 + (src[p + 1] as int) % 64 * 64 + (src[p + 2] as int) % 64, p + 2)
    ensures (0xF0 <= src[p] <= 0xF4 && p + 3 < |src| &&
             IsContinuation(src[p + 1]) && IsContinuation(src[p + 2]) && IsContinuation(src[p + 3])) ==>
      var c := (src[p] as int) % 8 * 0x40000 + (src[p + 1] as int) % 64 * 0x1000 + (src[p + 2] as int) % 64 * 64 + (src[p + 3] as int) % 64;
      c <= 0x10FFFF ==> Decode1(src, p) == Decoded(c, p + 3)
  {
    HasNulNext(src, p);
  }

  lemma FrontUnits(text: seq<unit>)
    requires text != []
    ensures Units(Front(text).0) == text[..Front(text).1]
    ensures Front(text).0 == 0 ==> text[0] == 0
  {
    if Front(text).1 == 2 {
      var hi: nat, lo: nat := text[0] - 0xD800, text[1] - 0xDC00;
      assert Front(text).0 - 0x10000 == hi * 0x400 + lo;
    }
  }

  /**
   * The main theorem of this module: whatever the units, lone surrogates
   * included, the encoding of a text without NUL decodes to the text and its
   * terminator.
   */
  lemma {:induction false} RoundTrip(text: seq<unit>, src: seq<byte>, p: nat)
    requires NoNul(text)
    requires p <= |src| && Encoding(text) + [0] <= src[p..]
    ensures HasNul(src, p) && Decoding(src, p) == Some(text + [0])
    decreases |text|
  {
    hide Utf8.Encode, Front, Decode1, Units, Encoding, HasNul;
    if text == [] {
      EmptyEncoding(src, p);
      NulDecodes(src, p);
      assert text + [0] == [0];
    } else {
      var c, k := Front(text).0, Front(text).1;
      FrontUnits(text);
      var n := |Utf8.Encode(c)|;
      FrontBytes(text, src, p);
      RoundTrip(text[k..], src, p + n);
      DecodeEncoded(src, p, c);
      assert text + [0] == text[..k] + (text[k..] + [0]);
    }
  }

  /** The encoding in the source splits after its first code point. */
  lemma FrontBytes(text: seq<unit>, src: seq<byte>, p: nat)
    requires text != [] && p <= |src| && Encoding(text) + [0] <= src[p..]
    ensures var n := |Utf8.Encode(Front(text).0)|;
      && p + n <= |src| && src[p..p + n] == Utf8.Encode(Front(text).0)
      && Encoding(text[Front(text).1..]) + [0] <= src[p + n..]
  {
    hide Utf8.Encode, Front;
    var e, rest := Utf8.Encode(Front(text).0), Encoding(text[Front(text).1..]) + [0];
    assert Encoding(text) + [0] == e + rest;
    assert src[p..p + |e|] == src[p..][..|e|] == e;
    assert src[p + |e|..] == src[p..][|e|..];
  }

  lemma EmptyEncoding(src: seq<byte>, p: nat)
    requires p <= |src| && Encoding([]) + [0] <= src[p..]
    ensures p < |src| && src[p] == 0 && HasNul(src, p) && !HasMaximum([])
  {
    assert src[p..][0] == 0;
  }

  lemma NulDecodes(src: seq<byte>, p: nat)
    requires p < |src| && src[p] == 0
    ensures HasNul(src, p) && Decoding(src, p) == Some([0])
  {
    assert HasNul(src, p);
  }

  /** The pair DBFF DFFF stands somewhere in the text. */
  ghost predicate HasMaximum(text: seq<unit>) {
    exists i :: 0 <= i < |text| - 1 && text[i] == 0xDBFF && text[i + 1] == 0xDFFF
  }

  /**
   * The one exception: the converter's assertion excludes U+10FFFF, and it is
   * met by exactly those texts that do not hold the pair DBFF DFFF.
   */
  lemma {:induction false} MaximumExcluded(text: seq<unit>, src: seq<byte>, p: nat)
    requires NoNul(text)
    requires p <= |src| && Encoding(text) + [0] <= src[p..]
    ensures HasNul(src, p) && (BelowMaximum(src, p) <==> !HasMaximum(text))
    decreases |text|
  {
    hide Utf8.Encode, Front, Decode1, Decoding, Encoding, HasNul, HasMaximum;
    RoundTrip(text, src, p);
    if text == [] {
      EmptyEncoding(src, p);
      DecodeSteps(src, p);
    } else {
      var c, k := Front(text).0, Front(text).1;
      FrontUnits(text);
      var n := |Utf8.Encode(c)|;
      FrontBytes(text, src, p);
      MaximumExcluded(text[k..], src, p + n);
      DecodeEncoded(src, p, c);
      HasMaximumStep(text);
    }
  }

  lemma HasMaximumStep(text: seq<unit>)
    requires text != []
    ensures HasMaximum(text) <==> Front(text).0 == 0x10FFFF || HasMaximum(text[Front(text).1..])
  {
    var k := Front(text).1;
    var rest := text[k..];
    if Front(text).0 == 0x10FFFF {
      assert text[0] == 0xDBFF && text[0 + 1] == 0xDFFF;
    }
    if HasMaximum(rest) {
      var i :| 0 <= i < |rest| - 1 && rest[i] == 0xDBFF && rest[i + 1] == 0xDFFF;
      assert text[i + k] == 0xDBFF && text[i + k + 1] == 0xDFFF;
    }
    if HasMaximum(text) {
      var i :| 0 <= i < |text| - 1 && text[i] == 0xDBFF && text[i + 1] == 0xDFFF;
      if i >= k {
        assert rest[i - k] == 0xDBFF && rest[i - k + 1] == 0xDFFF;
      }
    }
  }
}
