/**
 * uv_inet_ntop and uv_inet_pton: the printers fill character buffers through a moving
 * cursor, the parsers fill byte buffers and shift them in place.
 */
module Inet {
  import opened Common
  import opened InetText
  import opened InetText6
  import opened InetPrinted

  const AF_INET := 2
  const AF_INET6 := 30

  // ---------- Character buffers ----------

  /** The buffer holds the C string t: its characters, none of them NUL, and a NUL. */
  predicate Holds(buf: seq<char>, t: string) {
    |t| < |buf| && buf[..|t|] == t && buf[|t|] == '\0' && '\0' !in t
  }

  /** The sequence with t written over it from position at. */
  function Spliced<T>(s: seq<T>, at: nat, t: seq<T>): (r: seq<T>)
    requires at + |t| <= |s|
    ensures |r| == |s|
    ensures forall i :: 0 <= i < |s| ==> r[i] == if at <= i < at + |t| then t[i - at] else s[i]
  {
    s[..at] + t + s[at + |t|..]
  }

  /** uv__strscpy: copies up to and including the NUL, or as much as fits, always terminated. */
  method Strscpy(d: array<char>, at: nat, s: array<char>, ghost t: string, n: nat) returns (r: int)
    requires d != s && at + n <= d.Length && Holds(s[..], t)
    modifies d
    ensures |t| < n ==> r == |t| && d[..] == Spliced(old(d[..]), at, t + ['\0'])
    ensures n == 0 ==> r == 0 && d[..] == old(d[..])
    ensures 0 < n <= |t| ==> r == UV_E2BIG && d[..] == Spliced(old(d[..]), at, t[..n - 1] + ['\0'])
  {
    assert forall j :: 0 <= j < |t| ==> s[j] == t[j] && t[j] != '\0' by {
      assert s[..][..|t|] == t;
    }
    var i := 0;
    while i < n
      invariant 0 <= i <= n && i <= |t|
      invariant forall j :: 0 <= j < d.Length ==> d[j] == if at <= j < at + i then s[j - at] else old(d[j])
    {
      d[at + i] := s[i];
      if d[at + i] == '\0' {
        return i;
      }
      i := i + 1;
    }
    if i == 0 {
      return 0;
    }
    d[at + i - 1] := '\0';
    return UV_E2BIG;
  }

  /** snprintf at a cursor in a buffer that is large enough. */
  method Put(buf: array<char>, at: nat, text: string) returns (next: nat)
    requires at + |text| < buf.Length
    modifies buf
    ensures next == at + |text| && buf[..next] == old(buf[..at]) + text && buf[next] == '\0'
  {
    forall i | 0 <= i < |text| {
      buf[at + i] := text[i];
    }
    next := at + |text|;
    buf[next] := '\0';
  }

  // ---------- Printing ----------

  /** inet_ntop4: the dotted decimal text with its NUL, or nothing at all if it does not fit. */
  method InetNtop4(src: seq<byte>, dst: array<char>, at: nat, size: nat) returns (err: int)
    requires |src| == 4 && at + size <= dst.Length
    modifies dst
    ensures err == if |Text4(src)| >= size then UV_ENOSPC else 0
    ensures err == 0 ==> dst[..] == Spliced(old(dst[..]), at, Text4(src) + ['\0'])
    ensures err != 0 ==> dst[..] == old(dst[..])
  {
    hide Text4;
    var tmp := new char[16];
    var l := Put(tmp, 0, Text4(src));
    if l <= 0 || l >= size {
      return UV_ENOSPC;
    }
    Text4Plain(src);
    assert tmp[..][..l] == tmp[..l];
    var r := Strscpy(dst, at, tmp, Text4(src), size);
    return 0;
  }

  /** A run of zeros that ends before c is not longer than the best one, and not earlier if as long. */
  ghost predicate BestBelow(ws: seq<nat>, base: int, len: int, c: nat) {
    if base == -1 then forall i :: 0 <= i < c && i < |ws| ==> ws[i] != 0
    else
      && len >= 1 && ZeroRun(ws, base, len) && base + len <= c
      && forall b, n :: ZeroRun(ws, b, n) && n > 0 && b + n <= c ==> n < len || (n == len && base <= b)
  }

  /** The run from cur to i has just ended. */
  lemma RunEnds(ws: seq<nat>, base: int, len: int, cur: nat, i: nat)
    requires cur < i <= |ws| && ZeroRun(ws, cur, i - cur) && (cur > 0 ==> ws[cur - 1] != 0)
    requires BestBelow(ws, base, len, cur)
    ensures if base == -1 || i - cur > len then BestBelow(ws, cur, i - cur, i) else BestBelow(ws, base, len, i)
  {
    forall b, n | ZeroRun(ws, b, n) && n > 0 && b + n <= i
      ensures b + n <= cur || (b >= cur && n <= i - cur)
      ensures base == -1 ==> b >= cur
    {
      assert ws[b] == 0;
    }
  }

  /** A word that is not zero joins the words seen. */
  lemma NoRunEnds(ws: seq<nat>, base: int, len: int, i: nat)
    requires i < |ws| && ws[i] != 0 && BestBelow(ws, base, len, i)
    ensures BestBelow(ws, base, len, i + 1)
  {
    forall b, n | ZeroRun(ws, b, n) && n > 0 && b + n <= i + 1
      ensures b + n <= i
    {
      assert ws[b + n - 1] == 0;
    }
  }

  /** The search of inet_ntop6 for the run of zeros to compress. */
  method FindBest(words: seq<nat>) returns (base: int, len: int)
    ensures Best(words, base, len)
  {
    hide BestBelow;
    base, len := -1, 0;
    var curBase, curLen := -1, 0;
    assert BestBelow(words, -1, 0, 0) by { Nothing(words); }
    for i := 0 to |words|
      invariant curBase == -1 || (0 <= curBase < i && curLen == i - curBase && ZeroRun(words, curBase, curLen))
      invariant curBase > 0 ==> words[curBase - 1] != 0
      invariant curBase == -1 && i > 0 ==> words[i - 1] != 0
      invariant BestBelow(words, base, len, if curBase == -1 then i else curBase)
    {
      if words[i] == 0 {
        if curBase == -1 {
          curBase, curLen := i, 1;
        } else {
          curLen := curLen + 1;
        }
      } else {
        if curBase != -1 {
          RunEnds(words, base, len, curBase, i);
          if base == -1 || curLen > len {
            base, len := curBase, curLen;
          }
          curBase := -1;
        }
        NoRunEnds(words, base, len, i);
      }
    }
    if curBase != -1 {
      RunEnds(words, base, len, curBase, |words|);
      if base == -1 || curLen > len {
        base, len := curBase, curLen;
      }
    }
    BestIsBest(words, base, len);
    if base != -1 && len < 2 {
      base := -1;
    }
  }

  lemma Nothing(ws: seq<nat>)
    ensures BestBelow(ws, -1, 0, 0)
  {}

  lemma BestIsBest(ws: seq<nat>, base: int, len: int)
    requires BestBelow(ws, base, len, |ws|)
    ensures base != -1 && len >= 2 ==> Best(ws, base, len)
    ensures base == -1 || len < 2 ==> Best(ws, -1, len)
  {
    if base == -1 {
      forall b | 0 <= b < |ws| - 1 ensures !ZeroRun(ws, b, 2) {
        assert ws[b] != 0;
      }
    }
  }

  lemma Text4Plain(a: seq<byte>)
    requires |a| == 4
    ensures forall i :: 0 <= i < |Text4(a)| ==> Text4(a)[i] != '%' && Text4(a)[i] != '\0'
  {
    DecPlain(a[0]);
    DecPlain(a[1]);
    DecPlain(a[2]);
    DecPlain(a[3]);
  }

  lemma DecPlain(n: byte)
    ensures forall i :: 0 <= i < |Dec(n)| ==> Dec(n)[i] != '%' && Dec(n)[i] != '\0'
  {
    hide Dec;
    var h, t, u := Decimal(n);
  }

  lemma {:induction false} HexAllPlain(ws: seq<nat>, b: seq<byte>)
    requires |b| == 4 && forall i :: 0 <= i < |ws| ==> ws[i] < 0x10000
    ensures Plain(Tail(HexAll(ws), None)) && Plain(Tail(HexAll(ws), Some(b)))
  {
    hide Hex, Text4;
    Text4Plain(b);
    if ws != [] {
      HexGroup(ws[0]);
      HexAllPlain(ws[1..], b);
      assert HexAll(ws)[1..] == HexAll(ws[1..]);
    }
  }

  /** Neither a NUL nor the sign that starts a zone. */
  predicate Plain(s: string) {
    forall i :: 0 <= i < |s| ==> s[i] != '%' && s[i] != '\0'
  }

  lemma PrintedPlain(a: seq<byte>, base: int, len: int)
    requires |a| == 16 && (base == -1 || ZeroRun(Words(a), base, len)) && WellFormed(Printed(a, base, len))
    ensures Plain(Text(Printed(a, base, len)))
  {
    hide Tail, HexAll, Words, WellFormed;
    var f := Printed(a, base, len);
    var ws := Words(a);
    NoGroups();
    if base == -1 {
      HexAllPlain(ws, a[12..]);
    } else {
      HexAllPlain(ws[..base], a[12..]);
      if Embedded(ws, base, len) {
        HexAllPlain(ws[len..6], a[12..]);
      } else {
        HexAllPlain(ws[base + len..], a[12..]);
      }
    }
  }

  /** The formatting loop of inet_ntop6. */
  method Format(src: seq<byte>, words: seq<nat>, base: int, len: int, tmp: array<char>) returns (tp: nat)
    requires |src| == 16 && words == Words(src) && tmp.Length == 46
    requires base == -1 || (ZeroRun(words, base, len) && len >= 2)
    modifies tmp
    ensures WellFormed(Printed(src, base, len)) && tp < 46
    ensures tmp[..tp] == Text(Printed(src, base, len))
  {
    hide Text, Words, WellFormed, Printed, Built, Text4, Hex;
    PrintedDenotes(src, base, len);
    tp := 0;
    BuiltNone(words, base, len);
    var i := 0;
    while i < 8
      invariant 0 <= i <= 8 && tp < 46 && tmp[..tp] == Built(words, base, len, i)
      invariant i > 6 && base != -1 ==> !Embedded(words, base, len)
    {
      BuiltShort(words, base, len, i);
      if base != -1 && i >= base && i < base + len {
        BuiltRun(words, base, len, i);
        if i == base {
          tp := Put(tmp, tp, ":");
        }
      } else {
        if i != 0 {
          tp := Put(tmp, tp, ":");
        }
        // The source also asks for a run of seven words, but then word 6 lies inside the run.
        if i == 6 && base == 0 && (len == 6 || (len == 5 && words[5] == 0xffff)) {
          BuiltEmbedded(src, len);
          var err := InetNtop4(src[12..], tmp, tp, 46 - tp);
          tp := tp + |Text4(src[12..])|;
          assert tmp[..tp] == Built(words, base, len, 6) + ":" + Text4(src[12..]);
          return;
        }
        BuiltWord(words, base, len, i);
        tp := Put(tmp, tp, Hex(words[i]));
      }
      i := i + 1;
    }
    BuiltShort(words, base, len, 8);
    BuiltAll(src, base, len);
    if base != -1 && base + len == 8 {
      tp := Put(tmp, tp, ":");
    }
  }

  /** The address bytes as words: `words[i / 2] |= src[i] << ((1 - (i % 2)) << 3)`, on words that start as zero. */
  method ReadWords(src: seq<byte>) returns (words: seq<nat>)
    requires |src| == 16
    ensures words == Words(src)
  {
    words := [0, 0, 0, 0, 0, 0, 0, 0];
    var i := 0;
    while i < 16
      invariant 0 <= i <= 16 && |words| == 8
      invariant forall k :: 0 <= k < 8 ==>
        words[k] == (if 2 * k < i then HighByte(src, k) else 0) + (if 2 * k + 1 < i then LowByte(src, k) else 0)
    {
      if i % 2 == 0 {
        words := words[i / 2 := words[i / 2] + HighByte(src, i / 2)];
      } else {
        words := words[i / 2 := words[i / 2] + LowByte(src, i / 2)];
      }
      i := i + 1;
    }
    assert words == Words(src);
  }

  function HighByte(src: seq<byte>, k: nat): nat
    requires 2 * k < |src|
  {
    var b: nat := src[2 * k];
    b * 256
  }

  function LowByte(src: seq<byte>, k: nat): nat
    requires 2 * k + 1 < |src|
  {
    src[2 * k + 1]
  }

  /**
   * inet_ntop6: the text of the address with its best run compressed, and its NUL, or
   * nothing at all if it does not fit.
   */
  method InetNtop6(src: seq<byte>, dst: array<char>, size: nat) returns (err: int)
    requires |src| == 16 && size <= dst.Length
    modifies dst
    ensures exists base, len :: Best(Words(src), base, len) && WellFormed(Printed(src, base, len)) &&
              var text := Text(Printed(src, base, len));
              && |text| <= 45 && err == (if |text| >= size then UV_ENOSPC else 0)
              && dst[..] == if err == 0 then Spliced(old(dst[..]), 0, text + ['\0']) else old(dst[..])
  {
    hide Text, Words, WellFormed, Printed, Best;
    var words := ReadWords(src);
    var base, len := FindBest(words);
    BestRun(words, base, len);
    var tmp := new char[46];
    var tp := Format(src, words, base, len, tmp);
    PrintedDenotes(src, base, len);
    PrintedPlain(src, base, len);
    ghost var text := Text(Printed(src, base, len));
    tp := Put(tmp, tp, "");
    if tp + 1 > size {
      return UV_ENOSPC;
    }
    assert tmp[..][..tp] == tmp[..tp] == text;
    var r := Strscpy(dst, 0, tmp, text, size);
    return 0;
  }

  lemma BestRun(ws: seq<nat>, base: int, len: int)
    requires Best(ws, base, len)
    ensures base == -1 || (ZeroRun(ws, base, len) && len >= 2)
  {}

  // ---------- Parsing ----------

  lemma ScanStop(tmp: seq<byte>, saw: bool)
    requires 1 <= |tmp| <= 4
    ensures Scan4("", tmp, saw) == if (if saw then |tmp| else |tmp| - 1) < 4 then Err(UV_EINVAL) else Ok(tmp)
  {}

  /** inet_pton4 on the text from start on; the four bytes are written at once or not at all. */
  method InetPton4(src: string, start: nat, dst: array<byte>, at: nat) returns (err: int)
    requires start <= |src| && at + 4 <= dst.Length
    modifies dst
    ensures Pton4(src[start..]) == if err == 0 then Ok(dst[at..at + 4]) else Err(err)
    ensures dst[..] == if err == 0 then Spliced(old(dst[..]), at, dst[at..at + 4]) else old(dst[..])
    ensures err == 0 || err == UV_EINVAL
  {
    var saw, octets, p := false, 0, start;
    var tmp := new byte[4];
    var tp := 0;
    tmp[0] := 0;
    assert tmp[..1] == [0];
    while p < |src|
      invariant start <= p <= |src| && 0 <= tp < 4 && octets == if saw then tp + 1 else tp
      invariant Scan4(src[p..], tmp[..tp + 1], saw) == Pton4(src[start..])
      invariant dst[..] == old(dst[..])
    {
      ghost var before := tmp[..tp + 1];
      assert src[p..][1..] == src[p + 1..];
      var ch := src[p];
      p := p + 1;
      var d := XDigit(ch);
      if 0 <= d < 10 {
        var last: nat := tmp[tp];
        var nw := last * 10 + d;
        if saw && last == 0 {
          return UV_EINVAL;
        }
        if nw > 255 {
          return UV_EINVAL;
        }
        tmp[tp] := nw;
        assert tmp[..tp + 1] == before[tp := tmp[tp]];
        if !saw {
          octets := octets + 1;
          saw := true;
        }
      } else if ch == '.' && saw {
        if octets == 4 {
          return UV_EINVAL;
        }
        tp := tp + 1;
        tmp[tp] := 0;
        saw := false;
        assert tmp[..tp + 1] == before + [0];
      } else {
        return UV_EINVAL;
      }
    }
    assert src[p..] == "";
    ScanStop(tmp[..tp + 1], saw);
    if octets < 4 {
      return UV_EINVAL;
    }
    ghost var octet4 := tmp[..tp + 1];
    forall i | 0 <= i < 4 {
      dst[at + i] := tmp[i];
    }
    assert dst[at..at + 4] == octet4;
    return 0;
  }

  /** The shift at the end of inet_pton6, byte by byte within one buffer. */
  method Shift(tmp: array<byte>, tp: nat, colonp: nat)
    requires tmp.Length == 16 && colonp <= tp < 16
    requires forall i :: tp <= i < 16 ==> tmp[i] == 0
    modifies tmp
    ensures tmp[..] == old(tmp[..colonp]) + Zeros(16 - tp) + old(tmp[colonp..tp])
  {
    var n := tp - colonp;
    var i := 1;
    while i <= n
      invariant 1 <= i <= n + 1
      invariant forall j :: 0 <= j < 16 ==>
        tmp[j] == if j > 16 - i then old(tmp[j - (16 - tp)]) else if j > tp - i then 0 else old(tmp[j])
    {
      tmp[16 - i] := tmp[tp - i];
      tmp[tp - i] := 0;
      i := i + 1;
    }
  }

  /** The 16-bit word being read, in network order, at tp. */
  method PutWord(tmp: array<byte>, tp: nat, val: nat)
    requires tp + 2 <= tmp.Length && val < 0x10000
    modifies tmp
    ensures tmp[..] == old(tmp[..tp]) + Word(val) + old(tmp[tp + 2..])
  {
    tmp[tp] := val / 256;
    tmp[tp + 1] := val % 256;
  }

  /** The loop of inet_pton6. */
  method ScanGroups(src: string, start: nat, tmp: array<byte>)
    returns (err: int, tp: nat, colonp: int, seen: nat, val: nat)
    requires start <= |src| && tmp.Length == 16 && forall i :: 0 <= i < 16 ==> tmp[i] == 0
    modifies tmp
    ensures err == 0 || err == UV_EINVAL
    ensures tp <= 16 && tmp[tp..] == Zeros(16 - tp) && (seen > 0 ==> val < 0x10000)
    ensures var r := Loop(src[start..], src[start..], Start);
            if err == 0 then r.Ok? && r.value == Scan(tmp[..tp], colonp, seen, r.value.val) && (seen > 0 ==> val == r.value.val)
            else r == Err(err)
  {
    hide Pton4;
    ghost var result := Loop(src[start..], src[start..], Start);
    tp, colonp, seen, val := 0, -1, 0, 0;
    var curtok, p := start, start;
    assert tmp[..0] == [];
    while p < |src|
      invariant start <= p <= |src| && start <= curtok <= p && tp <= 16
      invariant forall i :: tp <= i < 16 ==> tmp[i] == 0
      invariant Scan(tmp[..tp], colonp, seen, val).Valid()
      invariant Loop(src[p..], src[curtok..], Scan(tmp[..tp], colonp, seen, val)) == result
    {
      assert src[p..][1..] == src[p + 1..];
      var ch := src[p];
      p := p + 1;
      var d := XDigit(ch);
      if d >= 0 {
        val := val * 16 + d;
        seen := seen + 1;
        if seen > 4 {
          return UV_EINVAL, tp, colonp, 0, 0;
        }
      } else if ch == ':' {
        curtok := p;
        if seen == 0 {
          if colonp >= 0 {
            return UV_EINVAL, tp, colonp, 0, 0;
          }
          colonp := tp;
        } else if p == |src| {
          return UV_EINVAL, tp, colonp, 0, 0;
        } else {
          if tp + 2 > 16 {
            return UV_EINVAL, tp, colonp, 0, 0;
          }
          ghost var before := tmp[..tp];
          PutWord(tmp, tp, val);
          assert tmp[..tp + 2] == before + Word(val);
          tp := tp + 2;
          seen, val := 0, 0;
        }
      } else {
        if ch == '.' && tp + 4 <= 16 {
          ghost var before := tmp[..tp];
          err := InetPton4(src, curtok, tmp, tp);
          if err == 0 {
            assert tmp[..tp + 4] == before + tmp[tp..tp + 4];
            return 0, tp + 4, colonp, 0, 0;
          }
        }
        return UV_EINVAL, tp, colonp, 0, 0;
      }
    }
    assert src[p..] == "";
    err := 0;
  }

  /** The end of inet_pton6: a gap is filled with zeros, and the address must be whole. */
  method FillGap(tmp: array<byte>, tp: nat, colonp: int) returns (err: int)
    requires tmp.Length == 16 && -1 <= colonp <= tp <= 16 && tmp[tp..] == Zeros(16 - tp)
    modifies tmp
    ensures err == 0 || err == UV_EINVAL
    ensures Place(old(tmp[..tp]), colonp) == if err == 0 then Ok(tmp[..]) else Err(err)
  {
    var length := tp;
    assert forall i :: tp <= i < 16 ==> tmp[i] == tmp[tp..][i - tp];
    if colonp != -1 {
      if tp == 16 {
        return UV_EINVAL;
      }
      ghost var whole := tmp[..tp];
      assert whole[..colonp] == tmp[..colonp] && whole[colonp..] == tmp[colonp..tp];
      Shift(tmp, tp, colonp);
      length := 16;
    }
    if length != 16 {
      return UV_EINVAL;
    }
    assert tmp[..16] == tmp[..];
    return 0;
  }

  /** inet_pton6: the sixteen bytes are written at once or not at all. */
  method InetPton6(src: string, dst: array<byte>) returns (err: int)
    requires dst.Length >= 16
    modifies dst
    ensures Pton6(src) == if err == 0 then Ok(dst[..16]) else Err(err)
    ensures err == 0 || err == UV_EINVAL
    ensures if err == 0 then dst[16..] == old(dst[16..]) else dst[..] == old(dst[..])
  {
    hide Loop;
    var tmp := new byte[16](_ => 0);
    var start := 0;
    if src != "" && src[0] == ':' {
      start := 1;
      if |src| == 1 || src[1] != ':' {
        return UV_EINVAL;
      }
    }
    assert src[0..] == src;
    var tp, colonp, seen, val;
    err, tp, colonp, seen, val := ScanGroups(src, start, tmp);
    if err != 0 {
      return;
    }
    if seen > 0 {
      if tp + 2 > 16 {
        return UV_EINVAL;
      }
      ghost var before := tmp[..tp];
      PutWord(tmp, tp, val);
      assert tmp[..tp + 2] == before + Word(val);
      tp := tp + 2;
    }
    err := FillGap(tmp, tp, colonp);
    if err != 0 {
      return;
    }
    ghost var address := tmp[..];
    assert tmp[..16] == address;
    forall i | 0 <= i < 16 {
      dst[i] := tmp[i];
    }
    assert dst[..16] == address && dst[16..] == old(dst[16..]);
  }

  // ---------- The public entry points ----------

  /** strchr(src, '%'), or the length if there is none. */
  function Percent(src: string): (p: nat)
    ensures p <= |src| && (p < |src| ==> src[p] == '%') && forall i :: 0 <= i < p ==> src[i] != '%'
  {
    if src == "" || src[0] == '%' then 0
    else
      var p := Percent(src[1..]);
      assert forall i :: 1 <= i < p + 1 ==> src[i] == src[1..][i - 1];
      p + 1
  }

  /** What uv_inet_pton makes of a text: for IPv6, a zone is cut off and not looked at. */
  function PtonText(af: int, src: string): (r: Result<seq<byte>>)
  {
    if af == AF_INET then Pton4(src)
    else if af == AF_INET6 then
      if Percent(src) < |src| && Percent(src) > 45 then Err(UV_EINVAL) else Pton6(src[..Percent(src)])
    else Err(UV_EAFNOSUPPORT)
  }

  method UvInetPton(af: int, src: string, dst: array<byte>) returns (err: int)
    requires dst.Length >= if af == AF_INET6 then 16 else if af == AF_INET then 4 else 0
    modifies dst
    ensures err == 0 <==> PtonText(af, src).Ok?
    ensures err != 0 ==> PtonText(af, src) == Err(err) && dst[..] == old(dst[..])
    ensures err == 0 ==> |PtonText(af, src).value| <= dst.Length &&
                         dst[..] == Spliced(old(dst[..]), 0, PtonText(af, src).value)
  {
    hide Pton4, Pton6;
    if af == AF_INET {
      assert src[0..] == src;
      err := InetPton4(src, 0, dst, 0);
    } else if af == AF_INET6 {
      var s := src;
      var p := Percent(src);
      if p < |src| {
        if p > 45 {
          return UV_EINVAL;
        }
        s := src[..p];
      }
      assert s == src[..p];
      err := InetPton6(s, dst);
      assert err == 0 ==> dst[..] == dst[..16] + dst[16..];
    } else {
      err := UV_EAFNOSUPPORT;
    }
  }

  /** Printing an IPv6 address and parsing the text, with or without a zone behind it, gives the address back. */
  lemma ZoneRoundTrip(a: seq<byte>, base: int, len: int, zone: string)
    requires |a| == 16 && Best(Words(a), base, len)
    ensures WellFormed(Printed(a, base, len))
    ensures PtonText(AF_INET6, Text(Printed(a, base, len))) == Ok(a)
    ensures PtonText(AF_INET6, Text(Printed(a, base, len)) + "%" + zone) == Ok(a)
  {
    hide Text, WellFormed, Words, Printed, Best, Pton6;
    RoundTrip6(a, base, len);
    BestRun(Words(a), base, len);
    PrintedPlain(a, base, len);
    var text := Text(Printed(a, base, len));
    assert text[..Percent(text)] == text;
    var zoned := text + "%" + zone;
    assert zoned[|text|] == '%' && zoned[..|text|] == text;
    assert Percent(zoned) == |text|;
  }
}
