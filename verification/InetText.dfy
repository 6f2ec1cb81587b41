/**
 * Text forms of IPv4 and IPv6 addresses: what the printers write, what the parsers
 * accept, and the laws between them. C strings are given without their NUL.
 */
module InetText {
  import opened Common

  // ---------- Digits ----------

  function Digit(d: nat): (c: char)
    requires d < 16
  {
    if d < 10 then ('0' as int + d) as char else ('a' as int + (d - 10)) as char
  }

  /** strchr in the lower-case and then the upper-case digits; -1 if neither has it. */
  function XDigit(c: char): (d: int)
    ensures d < 16
  {
    if '0' <= c <= '9' then c as int - '0' as int
    else if 'a' <= c <= 'f' then c as int - 'a' as int + 10
    else if 'A' <= c <= 'F' then c as int - 'A' as int + 10
    else -1
  }

  lemma DigitValue(d: nat)
    requires d < 16
    ensures XDigit(Digit(d)) == d && Digit(d) != ':' && Digit(d) != '.' && Digit(d) != '%' && Digit(d) != '\0'
  {}

  lemma DigitPlain(d: nat)
    requires d < 16
    ensures Digit(d) == "0123456789abcdef"[d] && Digit(d) in "0123456789abcdef" && (d != 0 ==> Digit(d) != '0')
  {}

  /** Against the two tables of inet_pton6: a digit counts for its place in either, anything else is none. */
  lemma XDigitExact(c: char)
    ensures forall d :: 0 <= d < 16 ==> XDigit("0123456789abcdef"[d]) == d && XDigit("0123456789ABCDEF"[d]) == d
    ensures XDigit(c) < 0 <==> c !in "0123456789abcdef" && c !in "0123456789ABCDEF"
  {
    if 0 <= XDigit(c) {
      assert c == "0123456789abcdef"[XDigit(c)] || c == "0123456789ABCDEF"[XDigit(c)];
    }
  }

  /** "%u" of an octet. */
  function Dec(n: nat): (s: string)
    requires n < 256
    ensures |s| == if n < 10 then 1 else if n < 100 then 2 else 3
  {
    if n < 10 then [Digit(n)] else Dec(n / 10) + [Digit(n % 10)]
  }

  /** "%x" of a 16-bit word. */
  function Hex(n: nat): (s: string)
    requires n < 0x10000
    ensures 1 <= |s| <= if n < 16 then 1 else if n < 256 then 2 else if n < 4096 then 3 else 4
  {
    if n < 16 then [Digit(n)] else Hex(n / 16) + [Digit(n % 16)]
  }

  // ---------- IPv4 ----------

  /** The dotted decimal form that inet_ntop4 prints. */
  function Text4(a: seq<byte>): (s: string)
    requires |a| == 4
    ensures 7 <= |s| <= 15
  {
    Dec(a[0]) + "." + Dec(a[1]) + "." + Dec(a[2]) + "." + Dec(a[3])
  }

  /**
   * The loop of inet_pton4. tmp holds the octets begun so far, the last being read;
   * saw says that it has a digit. octets is then |tmp|, or one less.
   */
  function Scan4(src: string, tmp: seq<byte>, saw: bool): (r: Result<seq<byte>>)
    requires 1 <= |tmp| <= 4
    ensures r.Ok? ==> |r.value| == 4
    decreases |src|
  {
    var octets := if saw then |tmp| else |tmp| - 1;
    if src == "" then
      if octets < 4 then Err(UV_EINVAL) else Ok(tmp)
    else
      var d := XDigit(src[0]);
      var last := tmp[|tmp| - 1];
      if 0 <= d < 10 then
        if saw && last == 0 then Err(UV_EINVAL)
        else if last * 10 + d > 255 then Err(UV_EINVAL)
        else Scan4(src[1..], tmp[|tmp| - 1 := last * 10 + d], true)
      else if src[0] == '.' && saw then
        if octets == 4 then Err(UV_EINVAL) else Scan4(src[1..], tmp + [0], false)
      else Err(UV_EINVAL)
  }

  function Pton4(src: string): (r: Result<seq<byte>>)
    ensures r.Ok? ==> |r.value| == 4
  {
    Scan4(src, [0], false)
  }

  /** The part of the text that reading tmp up to here has consumed. */
  function Partial(tmp: seq<byte>, saw: bool): string
    requires 1 <= |tmp| <= 4
  {
    (if |tmp| == 1 then "" else Partial(tmp[..|tmp| - 1], true) + ".") + (if saw then Dec(tmp[|tmp| - 1]) else "")
  }

  lemma DecStep(last: nat, d: nat)
    requires d < 10 && last * 10 + d < 256
    ensures last == 0 ==> Dec(last * 10 + d) == [Digit(d)]
    ensures last > 0 ==> Dec(last * 10 + d) == Dec(last) + [Digit(d)]
  {
    var n := last * 10 + d;
    if last > 0 {
      assert n / 10 == last && n % 10 == d;
    }
  }

  lemma PartialWhole(a: seq<byte>)
    requires |a| == 4
    ensures Partial(a, true) == Text4(a)
  {
    assert a[..3][..2] == a[..2] && a[..2][..1] == a[..1];
    assert Partial(a[..1], true) == Dec(a[0]);
    assert Partial(a[..2], true) == Dec(a[0]) + "." + Dec(a[1]);
    assert Partial(a[..3], true) == Dec(a[0]) + "." + Dec(a[1]) + "." + Dec(a[2]);
  }

  lemma PartialDigit(tmp: seq<byte>, saw: bool, d: nat)
    requires 1 <= |tmp| <= 4 && d < 10 && (saw ==> tmp[|tmp| - 1] != 0) && (!saw ==> tmp[|tmp| - 1] == 0)
    requires tmp[|tmp| - 1] * 10 + d < 256
    ensures Partial(tmp[|tmp| - 1 := tmp[|tmp| - 1] * 10 + d], true) == Partial(tmp, saw) + [Digit(d)]
  {
    var last: nat := tmp[|tmp| - 1];
    DecStep(last, d);
    assert tmp[|tmp| - 1 := last * 10 + d][..|tmp| - 1] == tmp[..|tmp| - 1];
  }

  lemma PartialDot(tmp: seq<byte>)
    requires 1 <= |tmp| < 4
    ensures Partial(tmp + [0], false) == Partial(tmp, true) + "."
  {
    assert (tmp + [0])[..|tmp|] == tmp;
  }

  /** Nothing is lost while reading: an accepted text is the text of its result. */
  lemma {:induction false} Scan4Sound(src: string, tmp: seq<byte>, saw: bool)
    requires 1 <= |tmp| <= 4 && (!saw ==> tmp[|tmp| - 1] == 0)
    ensures Scan4(src, tmp, saw).Ok? ==> Partial(tmp, saw) + src == Text4(Scan4(src, tmp, saw).value)
    decreases |src|
  {
    hide Partial, Dec, Text4;
    if Scan4(src, tmp, saw).Ok? {
      if src == "" {
        PartialWhole(tmp);
        assert Partial(tmp, saw) + src == Partial(tmp, saw);
      } else {
        var d := XDigit(src[0]);
        var last: nat := tmp[|tmp| - 1];
        if 0 <= d < 10 {
          Scan4Sound(src[1..], tmp[|tmp| - 1 := last * 10 + d], true);
          PartialDigit(tmp, saw, d);
        } else {
          Scan4Sound(src[1..], tmp + [0], false);
          PartialDot(tmp);
        }
        assert src == [src[0]] + src[1..];
      }
    }
  }

  /** The decimal digits of an octet. */
  lemma Decimal(n: byte) returns (h: nat, t: nat, u: nat)
    ensures h < 10 && t < 10 && u < 10 && n == h * 100 + t * 10 + u
    ensures h > 0 ==> Dec(n) == [Digit(h), Digit(t), Digit(u)]
    ensures h == 0 && t > 0 ==> Dec(n) == [Digit(t), Digit(u)]
    ensures h == 0 && t == 0 ==> Dec(n) == [Digit(u)]
  {
    h, t, u := n / 100, n / 10 % 10, n % 10;
    DecStep(h * 10 + t, u);
    DecStep(h, t);
  }

  /** Reading one printed octet, up to whatever follows it. */
  lemma ScanOctet(n: byte, rest: string, tmp: seq<byte>)
    requires |tmp| < 4
    ensures Scan4(Dec(n) + rest, tmp + [0], false) == Scan4(rest, tmp + [n], true)
  {
    hide Scan4, Dec, Digit;
    var h, t, u := Decimal(n);
    var last := [Digit(u)] + rest;
    if h > 0 {
      assert Dec(n) + rest == [Digit(h)] + ([Digit(t)] + last);
      ScanDigit(h, [Digit(t)] + last, tmp, 0, false);
      ScanDigit(t, last, tmp, h, true);
      ScanDigit(u, rest, tmp, h * 10 + t, true);
    } else if t > 0 {
      assert Dec(n) + rest == [Digit(t)] + last;
      ScanDigit(t, last, tmp, 0, false);
      ScanDigit(u, rest, tmp, t, true);
    } else {
      ScanDigit(u, rest, tmp, 0, false);
    }
  }

  lemma ScanDigit(d: nat, rest: string, tmp: seq<byte>, last: byte, saw: bool)
    requires |tmp| < 4 && d < 10 && last * 10 + d < 256 && (saw ==> last != 0) && (!saw ==> last == 0)
    ensures Scan4([Digit(d)] + rest, tmp + [last], saw) == Scan4(rest, tmp + [last * 10 + d], true)
  {
    DigitValue(d);
    assert ([Digit(d)] + rest)[1..] == rest;
    assert (tmp + [last])[|tmp| := last * 10 + d] == tmp + [last * 10 + d];
  }

  lemma ScanDot(rest: string, tmp: seq<byte>)
    requires 1 <= |tmp| < 4
    ensures Scan4("." + rest, tmp, true) == Scan4(rest, tmp + [0], false)
  {
    assert ("." + rest)[1..] == rest;
  }

  lemma Pton4Ntop4(a: seq<byte>)
    requires |a| == 4
    ensures Pton4(Text4(a)) == Ok(a)
  {
    hide Scan4, Dec;
    var s3 := Dec(a[3]) + "";
    var s2 := Dec(a[2]) + ("." + s3);
    var s1 := Dec(a[1]) + ("." + s2);
    var s0 := Dec(a[0]) + ("." + s1);
    assert Text4(a) == s0;
    ScanOctet(a[0], "." + s1, []);
    assert [] + [0 as byte] == [0];
    assert [] + [a[0]] == a[..1];
    ScanDot(s1, a[..1]);
    ScanOctet(a[1], "." + s2, a[..1]);
    assert a[..1] + [a[1]] == a[..2];
    ScanDot(s2, a[..2]);
    ScanOctet(a[2], "." + s3, a[..2]);
    assert a[..2] + [a[2]] == a[..3];
    ScanDot(s3, a[..3]);
    ScanOctet(a[3], "", a[..3]);
    assert a[..3] + [a[3]] == a;
    ScanEnd(a);
  }

  lemma ScanEnd(a: seq<byte>)
    requires |a| == 4
    ensures Scan4("", a, true) == Ok(a)
  {}

  /** inet_pton4 accepts exactly what inet_ntop4 prints, with the address it was printed from. */
  lemma Pton4Exact(s: string, a: seq<byte>)
    ensures Pton4(s) == Ok(a) <==> |a| == 4 && s == Text4(a)
  {
    if Pton4(s) == Ok(a) {
      Scan4Sound(s, [0], false);
      assert Partial([0], false) + s == s;
    }
    if |a| == 4 && s == Text4(a) {
      Pton4Ntop4(a);
    }
  }

  // The grammar of section 3.2.2 of RFC 3986.

  predicate IsDigit(c: char) {
    '0' <= c <= '9'
  }

  /** dec-octet. */
  predicate DecOctet(s: string) {
    || (|s| == 1 && IsDigit(s[0]))                                              // 0-9
    || (|s| == 2 && '1' <= s[0] <= '9' && IsDigit(s[1]))                        // 10-99
    || (|s| == 3 && s[0] == '1' && IsDigit(s[1]) && IsDigit(s[2]))              // 100-199
    || (|s| == 3 && s[0] == '2' && '0' <= s[1] <= '4' && IsDigit(s[2]))         // 200-249
    || (|s| == 3 && s[0] == '2' && s[1] == '5' && '0' <= s[2] <= '5')           // 250-255
  }

  /** IPv4address. */
  ghost predicate IPv4Address(s: string) {
    exists o: seq<string> ::
      |o| == 4 && (forall i :: 0 <= i < 4 ==> DecOctet(o[i])) && s == o[0] + "." + o[1] + "." + o[2] + "." + o[3]
  }

  function OctetValue(s: string): byte
    requires DecOctet(s)
  {
    if |s| == 1 then XDigit(s[0])
    else if |s| == 2 then XDigit(s[0]) * 10 + XDigit(s[1])
    else XDigit(s[0]) * 100 + XDigit(s[1]) * 10 + XDigit(s[2])
  }

  lemma DecIsOctet(n: byte)
    ensures DecOctet(Dec(n))
  {
    hide Dec;
    var h, t, u := Decimal(n);
  }

  lemma OctetIsDec(s: string)
    requires DecOctet(s)
    ensures s == Dec(OctetValue(s))
  {
    hide Dec;
    var h: nat := XDigit(s[0]);
    if |s| == 1 {
      DecStep(0, h);
    } else if |s| == 2 {
      DecStep(0, h);
      DecStep(h, XDigit(s[1]));
    } else {
      DecStep(0, h);
      DecStep(h, XDigit(s[1]));
      DecStep(h * 10 + XDigit(s[1]), XDigit(s[2]));
    }
    assert s == seq(|s|, i requires 0 <= i < |s| => s[i]);
  }

  /** inet_pton4 accepts exactly the IPv4address grammar. */
  lemma Pton4Grammar(s: string)
    ensures Pton4(s).Ok? <==> IPv4Address(s)
  {
    hide DecOctet, Pton4, Dec;
    if Pton4(s).Ok? {
      var a := Pton4(s).value;
      Pton4Exact(s, a);
      var o := [Dec(a[0]), Dec(a[1]), Dec(a[2]), Dec(a[3])];
      forall i | 0 <= i < 4 ensures DecOctet(o[i]) {
        DecIsOctet(a[i]);
      }
      assert s == o[0] + "." + o[1] + "." + o[2] + "." + o[3];
    }
    if IPv4Address(s) {
      var o: seq<string> :| |o| == 4 && (forall i :: 0 <= i < 4 ==> DecOctet(o[i])) &&
                            s == o[0] + "." + o[1] + "." + o[2] + "." + o[3];
      var a: seq<byte> := [OctetValue(o[0]), OctetValue(o[1]), OctetValue(o[2]), OctetValue(o[3])];
      OctetIsDec(o[0]);
      OctetIsDec(o[1]);
      OctetIsDec(o[2]);
      OctetIsDec(o[3]);
      Pton4Exact(s, a);
    }
  }
}
