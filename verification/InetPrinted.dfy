/**
 * The text that is printed for an IPv6 address, as a form of RFC 4291: it denotes the
 * address again, and it is what the loop of inet_ntop6 writes, piece by piece.
 */
module InetPrinted {
  import opened Common
  import opened InetText
  import opened InetText6

  // ---------- The printed form of an IPv6 address ----------

  function WordAt(a: seq<byte>, i: nat): (w: nat)
    requires 2 * i + 1 < |a|
    ensures w < 0x10000
  {
    var high: nat := a[2 * i];
    var low: nat := a[2 * i + 1];
    high * 256 + low
  }

  function Words(a: seq<byte>): (ws: seq<nat>)
    requires |a| == 16
    ensures |ws| == 8 && forall i :: 0 <= i < 8 ==> ws[i] == WordAt(a, i) < 0x10000
  {
    seq(8, i requires 0 <= i < 8 => WordAt(a, i))
  }

  predicate ZeroRun(ws: seq<nat>, base: int, len: int) {
    0 <= base && 0 <= len && base + len <= |ws| && forall i :: base <= i < base + len ==> ws[i] == 0
  }

  /**
   * Sections 4.2.2 and 4.2.3 of RFC 5952: the run to compress is the first of the longest
   * runs of zeros, and has at least two words; base is -1 if there is none.
   */
  ghost predicate Best(ws: seq<nat>, base: int, len: int) {
    if base == -1 then forall b :: 0 <= b < |ws| - 1 ==> !ZeroRun(ws, b, 2)
    else
      && len >= 2 && ZeroRun(ws, base, len)
      && forall b, n :: ZeroRun(ws, b, n) && n > 0 ==> n < len || (n == len && base <= b)
  }

  /** IPv4-compatible and IPv4-mapped addresses end in dotted decimal. */
  predicate Embedded(ws: seq<nat>, base: int, len: int)
    requires |ws| == 8
  {
    base == 0 && (len == 6 || (len == 5 && ws[5] == 0xffff))
  }

  function HexAll(ws: seq<nat>): (r: seq<string>)
    requires forall i :: 0 <= i < |ws| ==> ws[i] < 0x10000
    ensures |r| == |ws|
  {
    if ws == [] then [] else [Hex(ws[0])] + HexAll(ws[1..])
  }

  /** The form printed for the address when the run of len words at base is compressed. */
  function Printed(a: seq<byte>, base: int, len: int): Form
    requires |a| == 16 && (base == -1 || ZeroRun(Words(a), base, len))
  {
    var ws := Words(a);
    if base == -1 then Form([], false, HexAll(ws), None)
    else if Embedded(ws, base, len) then Form([], true, HexAll(ws[len..6]), Some(a[12..]))
    else Form(HexAll(ws[..base]), true, HexAll(ws[base + len..]), None)
  }

  // ---------- Printed forms denote the address ----------

  lemma {:induction false} HexGroup(w: nat)
    requires w < 0x10000
    ensures Group(Hex(w)) && Value(0, Hex(w)) == w
    ensures forall i :: 0 <= i < |Hex(w)| ==> Hex(w)[i] != '%' && Hex(w)[i] != '\0'
  {
    if w < 16 {
      ValueSnoc(0, "", Digit(w));
      assert "" + [Digit(w)] == [Digit(w)];
    } else {
      HexGroup(w / 16);
      DigitValue(w % 16);
      ValueSnoc(0, Hex(w / 16), Digit(w % 16));
    }
  }

  function WordBytes(ws: seq<nat>): (r: seq<byte>)
    requires forall i :: 0 <= i < |ws| ==> ws[i] < 0x10000
    ensures |r| == 2 * |ws|
  {
    if ws == [] then [] else Word(ws[0]) + WordBytes(ws[1..])
  }

  lemma {:induction false} HexAllBytes(ws: seq<nat>)
    requires forall i :: 0 <= i < |ws| ==> ws[i] < 0x10000
    ensures Groups(HexAll(ws)) && Bytes(HexAll(ws)) == WordBytes(ws)
    ensures |Tail(HexAll(ws), None)| <= 5 * |ws|
    ensures forall b: seq<byte> :: |b| == 4 ==> |Tail(HexAll(ws), Some(b))| <= 5 * |ws| + 15
  {
    hide Hex, Value, Word, Text4;
    if ws != [] {
      HexGroup(ws[0]);
      HexAllBytes(ws[1..]);
      var gs := HexAll(ws);
      assert gs[1..] == HexAll(ws[1..]);
      assert Group(gs[0]);
    }
  }

  lemma WordSplit(a: seq<byte>, i: nat)
    requires 2 * i + 1 < |a|
    ensures Word(WordAt(a, i)) == a[2 * i..2 * i + 2]
  {
    var x: nat, y: nat := a[2 * i], a[2 * i + 1];
    assert (x * 256 + y) / 256 == x && (x * 256 + y) % 256 == y;
  }

  lemma {:induction false} WordsBytes(a: seq<byte>, i: nat, j: nat)
    requires |a| == 16 && i <= j <= 8
    ensures WordBytes(Words(a)[i..j]) == a[2 * i..2 * j]
    decreases j - i
  {
    hide Word, WordAt;
    if i < j {
      WordSplit(a, i);
      WordsBytes(a, i + 1, j);
      assert Words(a)[i..j][1..] == Words(a)[i + 1..j];
      assert a[2 * i..2 * i + 2] + a[2 * i + 2..2 * j] == a[2 * i..2 * j];
    }
  }

  /** The zeros a gap stands for are the bytes of the compressed run. */
  lemma RunBytes(a: seq<byte>, base: nat, len: nat)
    requires |a| == 16 && ZeroRun(Words(a), base, len)
    ensures a[..2 * base] + Zeros(2 * len) + a[2 * (base + len)..] == a
  {
    forall k | 2 * base <= k < 2 * (base + len) ensures a[k] == 0 {
      assert Words(a)[k / 2] == 0;
    }
    assert a[2 * base..2 * (base + len)] == Zeros(2 * len);
  }

  lemma PlainDenotes(a: seq<byte>)
    requires |a| == 16
    ensures WellFormed(Printed(a, -1, 0)) && Address(Printed(a, -1, 0)) == a
    ensures |Text(Printed(a, -1, 0))| <= 45
  {
    hide Bytes, HexAll, WordBytes, Words, Tail;
    var ws := Words(a);
    assert ws[0..8] == ws && a[0..16] == a;
    HexAllBytes(ws);
    WordsBytes(a, 0, 8);
    PrefixStart("");
    assert [] + Zeros(0) + (a + []) == a;
  }

  lemma EmbeddedDenotes(a: seq<byte>, len: nat)
    requires |a| == 16 && ZeroRun(Words(a), 0, len) && Embedded(Words(a), 0, len)
    ensures WellFormed(Printed(a, 0, len)) && Address(Printed(a, 0, len)) == a
    ensures |Text(Printed(a, 0, len))| <= 45
  {
    hide Bytes, HexAll, WordBytes, Words, Tail, Text4, ZeroRun, Zeros, Address, Text;
    var back := Words(a)[len..6];
    HexAllBytes(back);
    WordsBytes(a, len, 6);
    RunBytes(a, 0, len);
    EmbeddedBytes(a, len);
    EmbeddedForm(HexAll(back), a[12..]);
    assert a[2 * len..12] + a[12..] == a[2 * len..];
    assert Address(Printed(a, 0, len)) == Zeros(2 * len) + a[2 * len..] == a;
  }

  /** The form of an address that starts with a gap and ends with an IPv4 address. */
  lemma EmbeddedForm(back: seq<string>, v4: seq<byte>)
    requires Groups(back) && |back| <= 1 && |v4| == 4 && |Tail(back, Some(v4))| <= 20
    ensures var f := Form([], true, back, Some(v4));
            && WellFormed(f) && |Text(f)| <= 45
            && Address(f) == Zeros(12 - 2 * |back|) + (Bytes(back) + v4)
  {
    hide Bytes, Tail, Zeros;
    NoGroups();
    PrefixStart("");
    var f := Form([], true, back, Some(v4));
    assert Address(f) == [] + Zeros(12 - 2 * |back|) + (Bytes(back) + v4);
  }

  lemma EmbeddedBytes(a: seq<byte>, len: nat)
    requires |a| == 16 && len <= 6
    ensures a[2 * len..12] + a[12..] == a[2 * len..]
    ensures a[..0] + Zeros(2 * len) + a[2 * len..] == Zeros(2 * len) + a[2 * len..]
  {}

  lemma GapDenotes(a: seq<byte>, base: nat, len: nat)
    requires |a| == 16 && ZeroRun(Words(a), base, len) && len >= 2 && !Embedded(Words(a), base, len)
    ensures WellFormed(Printed(a, base, len)) && Address(Printed(a, base, len)) == a
    ensures |Text(Printed(a, base, len))| <= 45
  {
    hide Bytes, HexAll, WordBytes, Words, Tail, Text4;
    var ws, n := Words(a), base + len;
    assert ws[..base] == ws[0..base] && ws[n..] == ws[n..8];
    assert a[2 * n..] == a[2 * n..16] && a[..2 * base] == a[0..2 * base];
    HexAllBytes(ws[0..base]);
    HexAllBytes(ws[n..8]);
    WordsBytes(a, 0, base);
    WordsBytes(a, n, 8);
    RunBytes(a, base, len);
    assert WordBytes(ws[n..8]) + [] == a[2 * n..];
  }

  /** The printed form is well formed, short, and denotes the address, whatever run was compressed. */
  lemma PrintedDenotes(a: seq<byte>, base: int, len: int)
    requires |a| == 16 && (base == -1 || (ZeroRun(Words(a), base, len) && len >= 2))
    ensures WellFormed(Printed(a, base, len)) && Address(Printed(a, base, len)) == a
    ensures |Text(Printed(a, base, len))| <= 45
  {
    hide Text, Address, WellFormed, Words;
    if base == -1 {
      PlainDenotes(a);
      assert Printed(a, base, len) == Printed(a, -1, 0);
    } else if Embedded(Words(a), base, len) {
      EmbeddedDenotes(a, len);
    } else {
      hide Printed;
      GapDenotes(a, base, len);
    }
  }

  /** inet_pton6(inet_ntop6(a)) == a, and the text fits 46 bytes with its NUL. */
  lemma RoundTrip6(a: seq<byte>, base: int, len: int)
    requires |a| == 16 && Best(Words(a), base, len)
    ensures WellFormed(Printed(a, base, len))
    ensures Pton6(Text(Printed(a, base, len))) == Ok(a) && |Text(Printed(a, base, len))| + 1 <= 46
  {
    hide Pton6, Text, Address, WellFormed, Printed, Words;
    PrintedDenotes(a, base, len);
    Accepts(Printed(a, base, len));
  }

  // ---------- Building the printed form piece by piece ----------

  /** Groups, each with a colon before it. */
  function Lead(gs: seq<string>): string {
    if gs == [] then "" else ":" + (gs[0] + Lead(gs[1..]))
  }

  /** What inet_ntop6 has written after k words, if it has not come to an embedded IPv4 address. */
  function Built(ws: seq<nat>, base: int, len: int, k: nat): string
    requires k <= |ws| && forall i :: 0 <= i < |ws| ==> ws[i] < 0x10000
    requires base == -1 || (0 <= base && 0 <= len && base + len <= |ws|)
  {
    if base == -1 || k <= base then Tail(HexAll(ws[..k]), None)
    else Tail(HexAll(ws[..base]), None) + ":" + if k > base + len then Lead(HexAll(ws[base + len..k])) else ""
  }

  lemma {:induction false} HexAllSnoc(ws: seq<nat>, w: nat)
    requires w < 0x10000 && forall i :: 0 <= i < |ws| ==> ws[i] < 0x10000
    ensures HexAll(ws + [w]) == HexAll(ws) + [Hex(w)]
  {
    hide Hex;
    if ws == [] {
      assert ws + [w] == [w] && [w][1..] == [];
    } else {
      HexAllSnoc(ws[1..], w);
      assert (ws + [w])[1..] == ws[1..] + [w];
    }
  }

  lemma {:induction false} LeadSnoc(gs: seq<string>, h: string)
    ensures Lead(gs + [h]) == Lead(gs) + (":" + h)
  {
    if gs == [] {
      assert gs + [h] == [h] && [h][1..] == [];
      assert h + "" == h;
    } else {
      LeadSnoc(gs[1..], h);
      assert (gs + [h])[1..] == gs[1..] + [h];
      Regroup(":", gs[0], Lead(gs[1..]), ":" + h);
    }
  }

  /** A colon and a tail, as the loop of inet_ntop6 writes it. */
  lemma {:induction false} LeadTail(gs: seq<string>, b: seq<byte>)
    requires |b| == 4
    ensures gs != [] ==> ":" + Tail(gs, None) == Lead(gs)
    ensures ":" + Tail(gs, Some(b)) == Lead(gs) + (":" + Text4(b))
  {
    hide Text4;
    if gs == [] {
    } else {
      LeadTail(gs[1..], b);
      Regroup(":", gs[0], Lead(gs[1..]), ":" + Text4(b));
      if |gs| == 1 {
        assert gs[1..] == [];
        assert gs[0] + "" == gs[0];
      }
    }
  }

  lemma TailSnoc(gs: seq<string>, h: string)
    ensures Tail(gs + [h], None) == if gs == [] then h else Tail(gs, None) + (":" + h)
  {
    if gs != [] {
      hide Tail;
      var front, last := gs[..|gs| - 1], gs[|gs| - 1];
      assert gs == front + [last];
      TailSep(gs, h, [0, 0, 0, 0]);
      TailSep(front, last, [0, 0, 0, 0]);
      SepSnoc(front, last);
      assert Sep(front) + (last + ":") + h == (Sep(front) + last) + (":" + h);
    } else {
      assert gs + [h] == [h];
    }
  }

  /** One turn of the loop outside the compressed run. */
  lemma BuiltWord(ws: seq<nat>, base: int, len: int, k: nat)
    requires k < |ws| && forall i :: 0 <= i < |ws| ==> ws[i] < 0x10000
    requires base == -1 || (0 <= base && 2 <= len && base + len <= |ws|)
    requires base == -1 || k < base || base + len <= k
    ensures Built(ws, base, len, k + 1) == Built(ws, base, len, k) + (if k != 0 then ":" else "") + Hex(ws[k])
  {
    hide Tail, Lead, Hex, HexAll;
    if base == -1 || k < base {
      assert ws[..k] + [ws[k]] == ws[..k + 1];
      HexAllSnoc(ws[..k], ws[k]);
      TailSnoc(HexAll(ws[..k]), Hex(ws[k]));
      NoGroups();
    } else {
      var from := base + len;
      assert ws[from..k] + [ws[k]] == ws[from..k + 1];
      HexAllSnoc(ws[from..k], ws[k]);
      LeadSnoc(HexAll(ws[from..k]), Hex(ws[k]));
      LeadNone();
      if k == from {
        assert ws[from..k] == [];
        assert HexAll(ws[from..k]) == [];
      }
    }
  }

  lemma LeadNone()
    ensures Lead([]) == ""
  {}

  /** The whole loop, when no IPv4 address is embedded, and the colon behind a trailing run. */
  lemma BuiltAll(a: seq<byte>, base: int, len: int)
    requires |a| == 16 && (base == -1 || (ZeroRun(Words(a), base, len) && len >= 2))
    requires base == -1 || !Embedded(Words(a), base, len)
    requires WellFormed(Printed(a, base, len))
    ensures Text(Printed(a, base, len))
         == Built(Words(a), base, len, 8) + (if base != -1 && base + len == 8 then ":" else "")
  {
    hide Tail, Lead, HexAll, Hex, Words, WellFormed;
    var ws := Words(a);
    assert ws[..8] == ws;
    if base != -1 {
      var front, back := Tail(HexAll(ws[..base]), None), HexAll(ws[base + len..]);
      assert ws[base + len..8] == ws[base + len..];
      LeadTail(back, [0, 0, 0, 0]);
      NoGroups();
      BuiltShape(front, Tail(back, None));
    }
  }

  lemma BuiltShape(front: string, back: string)
    ensures front + "::" + back == front + ":" + (":" + back)
  {}

  /** The loop up to the word at which an embedded IPv4 address begins. */
  lemma BuiltEmbedded(a: seq<byte>, len: int)
    requires |a| == 16 && ZeroRun(Words(a), 0, len) && Embedded(Words(a), 0, len)
    requires WellFormed(Printed(a, 0, len))
    ensures Text(Printed(a, 0, len)) == Built(Words(a), 0, len, 6) + ":" + Text4(a[12..])
  {
    hide Tail, Lead, Hex, Words, WellFormed, Text4;
    var ws := Words(a);
    LeadTail(HexAll(ws[len..6]), a[12..]);
    NoGroups();
    LeadNone();
    assert ws[..0] == [];
    assert HexAll([]) == [];
    if len == 6 {
      assert ws[6..6] == [];
    }
    var lead := Lead(HexAll(ws[len..6]));
    assert Built(ws, 0, len, 6) == "" + ":" + lead;
    BuiltShape("", Tail(HexAll(ws[len..6]), Some(a[12..])));
    assert "" + ":" + (lead + (":" + Text4(a[12..]))) == ("" + ":" + lead) + ":" + Text4(a[12..]);
  }

  lemma BuiltNone(ws: seq<nat>, base: int, len: int)
    requires forall i :: 0 <= i < |ws| ==> ws[i] < 0x10000
    requires base == -1 || (0 <= base && 0 <= len && base + len <= |ws|)
    ensures Built(ws, base, len, 0) == ""
  {
    assert HexAll(ws[..0]) == [];
  }

  /** One turn of the loop inside the compressed run. */
  lemma BuiltRun(ws: seq<nat>, base: int, len: int, k: nat)
    requires forall i :: 0 <= i < |ws| ==> ws[i] < 0x10000
    requires 0 <= base <= k < base + len <= |ws|
    ensures Built(ws, base, len, k + 1) == Built(ws, base, len, k) + (if k == base then ":" else "")
  {
    hide Tail, HexAll;
    assert k == base ==> ws[..k] == ws[..base];
  }

  lemma {:induction false} LeadShort(ws: seq<nat>)
    requires forall i :: 0 <= i < |ws| ==> ws[i] < 0x10000
    ensures |Lead(HexAll(ws))| <= 5 * |ws|
  {
    hide Hex;
    if ws != [] {
      LeadShort(ws[1..]);
      assert HexAll(ws)[1..] == HexAll(ws[1..]);
    }
  }

  lemma BuiltShort(ws: seq<nat>, base: int, len: int, k: nat)
    requires k <= |ws| && forall i :: 0 <= i < |ws| ==> ws[i] < 0x10000
    requires base == -1 || (0 <= base && 2 <= len && base + len <= |ws|)
    ensures |Built(ws, base, len, k)| <= 5 * k
  {
    hide Tail, HexAll, Lead;
    HexAllBytes(ws[..k]);
    if base != -1 {
      HexAllBytes(ws[..base]);
      if base + len < k {
        LeadShort(ws[base + len..k]);
      }
    }
  }

  // ---------- Which text it is ----------

  /** Words are printed in lower case and without leading zeros (sections 4.1 and 4.3 of RFC 5952). */
  lemma {:induction false} HexPlain(w: nat)
    requires w < 0x10000
    ensures forall i :: 0 <= i < |Hex(w)| ==> Hex(w)[i] in "0123456789abcdef"
    ensures w != 0 ==> Hex(w)[0] != '0'
    ensures w < 16 ==> Hex(w) == ["0123456789abcdef"[w]]
    ensures w >= 16 ==> Hex(w) == Hex(w / 16) + ["0123456789abcdef"[w % 16]]
    decreases w
  {
    DigitPlain(w % 16);
    if w >= 16 {
      HexPlain(w / 16);
    }
  }

  /** Words in hexadecimal, with colons between them. */
  function Join(ws: seq<nat>): string
    requires forall i :: 0 <= i < |ws| ==> ws[i] < 0x10000
  {
    if ws == [] then "" else if |ws| == 1 then Hex(ws[0]) else Hex(ws[0]) + (":" + Join(ws[1..]))
  }

  lemma {:induction false} TailJoins(ws: seq<nat>)
    requires forall i :: 0 <= i < |ws| ==> ws[i] < 0x10000
    ensures Tail(HexAll(ws), None) == Join(ws)
  {
    hide Hex;
    if ws == [] {
      NoGroups();
    } else {
      TailJoins(ws[1..]);
      assert HexAll(ws)[1..] == HexAll(ws[1..]);
    }
  }

  /** An IPv4-mapped address, ::ffff:0:0/96. */
  predicate Mapped(a: seq<byte>)
    requires |a| == 16
  {
    a[..12] == [0, 0, 0, 0, 0, 0, 0, 0, 0, 0, 255, 255]
  }

  /** An IPv4-compatible address, ::/96, whose IPv4 address does not start with two zeros. */
  predicate Compatible(a: seq<byte>)
    requires |a| == 16
  {
    a[..12] == [0, 0, 0, 0, 0, 0, 0, 0, 0, 0, 0, 0] && (a[12] != 0 || a[13] != 0)
  }

  /** In bytes: which of its three shapes the text has, whatever address it is of. */
  lemma PrintedText(a: seq<byte>, base: int, len: int)
    requires |a| == 16 && Best(Words(a), base, len)
    ensures WellFormed(Printed(a, base, len))
    ensures forall i :: 0 <= i < 8 ==> Words(a)[i] == 256 * a[2 * i] as nat + a[2 * i + 1] as nat
    ensures Mapped(a) ==> Text(Printed(a, base, len)) == "::ffff:" + Text4(a[12..])
    ensures Compatible(a) ==> Text(Printed(a, base, len)) == "::" + Text4(a[12..])
    ensures !Mapped(a) && !Compatible(a) ==>
              Text(Printed(a, base, len)) == if base == -1 then Join(Words(a))
                                             else Join(Words(a)[..base]) + "::" + Join(Words(a)[base + len..])
  {
    hide Text, Printed, WellFormed, Words, Text4, Join, Best, Mapped, Compatible;
    BestLong(a, base, len);
    PrintedDenotes(a, base, len);
    if Mapped(a) {
      MappedText(a, base, len);
    } else if Compatible(a) {
      CompatibleText(a, base, len);
    } else {
      if base != -1 && Embedded(Words(a), base, len) {
        EmbeddedOnly(a, base, len);
        assert false;
      }
      PlainText(a, base, len);
    }
    Apart(a);
  }

  lemma Apart(a: seq<byte>)
    requires |a| == 16
    ensures !(Mapped(a) && Compatible(a))
  {
    if Mapped(a) {
      assert a[..12][11] == 255;
    }
  }

  lemma BestLong(a: seq<byte>, base: int, len: int)
    requires |a| == 16 && Best(Words(a), base, len)
    ensures base == -1 || (ZeroRun(Words(a), base, len) && len >= 2)
  {}

  lemma MappedText(a: seq<byte>, base: int, len: int)
    requires |a| == 16 && Best(Words(a), base, len) && Mapped(a) && WellFormed(Printed(a, base, len))
    ensures Text(Printed(a, base, len)) == "::ffff:" + Text4(a[12..])
  {
    hide Text4, WellFormed, Best, Hex;
    MappedWords(a);
    MappedRun(Words(a), base, len);
    FfffHex();
    assert Words(a)[5..6] == [0xffff];
    EmbeddedText(a, 5, [0xffff]);
    TailOne("ffff", a[12..]);
    assert HexAll([0xffff]) == ["ffff"];
  }

  /** The text when an IPv4 address is embedded behind the words that are left. */
  lemma EmbeddedText(a: seq<byte>, len: nat, left: seq<nat>)
    requires |a| == 16 && ZeroRun(Words(a), 0, len) && Embedded(Words(a), 0, len) && left == Words(a)[len..6]
    requires WellFormed(Printed(a, 0, len))
    ensures Text(Printed(a, 0, len)) == "::" + Tail(HexAll(left), Some(a[12..]))
  {
    hide WellFormed, HexAll, Text4, Words;
    NoGroups();
  }

  lemma MappedWords(a: seq<byte>)
    requires |a| == 16 && Mapped(a)
    ensures ZeroRun(Words(a), 0, 5) && ZeroRun(Words(a), 0, 2) && Words(a)[5] == 0xffff
  {
    forall i | 0 <= i < 12 ensures a[i] == a[..12][i] {}
    forall i | 0 <= i < 5 ensures Words(a)[i] == 0 {
      assert a[2 * i] == 0 && a[2 * i + 1] == 0;
    }
    assert a[10] == 255 && a[11] == 255;
  }

  lemma MappedRun(ws: seq<nat>, base: int, len: int)
    requires |ws| == 8 && ZeroRun(ws, 0, 5) && ZeroRun(ws, 0, 2) && ws[5] != 0 && Best(ws, base, len)
    ensures base == 0 && len == 5
  {
    assert 5 <= len;
    assert !(base <= 5 < base + len);
  }

  lemma FfffHex()
    ensures Hex(0xffff) == "ffff"
  {
    assert Hex(0xf) == "f";
    assert Hex(0xff) == "ff";
    assert Hex(0xfff) == "fff";
  }

  lemma TailOne(g: string, v: seq<byte>)
    requires |v| == 4
    ensures Tail([g], Some(v)) == g + (":" + Text4(v))
  {
    hide Text4;
    assert [g][1..] == [];
  }

  lemma CompatibleText(a: seq<byte>, base: int, len: int)
    requires |a| == 16 && Best(Words(a), base, len) && Compatible(a) && WellFormed(Printed(a, base, len))
    ensures Text(Printed(a, base, len)) == "::" + Text4(a[12..])
  {
    hide Text4, WellFormed, Best, Hex, Words;
    CompatibleWords(a);
    CompatibleRun(Words(a), base, len);
    assert Words(a)[6..6] == [];
    EmbeddedText(a, 6, []);
    assert HexAll([]) == [];
  }

  lemma CompatibleWords(a: seq<byte>)
    requires |a| == 16 && Compatible(a)
    ensures ZeroRun(Words(a), 0, 6) && ZeroRun(Words(a), 0, 2) && Words(a)[6] != 0
  {
    forall i | 0 <= i < 12 ensures a[i] == a[..12][i] {}
    forall i | 0 <= i < 6 ensures Words(a)[i] == 0 {
      assert a[2 * i] == 0 && a[2 * i + 1] == 0;
    }
  }

  lemma CompatibleRun(ws: seq<nat>, base: int, len: int)
    requires |ws| == 8 && ZeroRun(ws, 0, 6) && ZeroRun(ws, 0, 2) && ws[6] != 0 && Best(ws, base, len)
    ensures base == 0 && len == 6
  {
    assert 6 <= len;
    assert !(base <= 6 < base + len);
  }

  /** No other address is printed with an IPv4 address in it. */
  lemma EmbeddedOnly(a: seq<byte>, base: int, len: int)
    requires |a| == 16 && base != -1 && Best(Words(a), base, len) && Embedded(Words(a), base, len)
    ensures Mapped(a) || Compatible(a)
  {
    hide Best;
    BestLong(a, base, len);
    ZeroBytes(a, len);
    if len == 5 {
      assert WordAt(a, 5) == 0xffff;
      assert a[10] == 255 && a[11] == 255;
      assert a[..12] == [0, 0, 0, 0, 0, 0, 0, 0, 0, 0, 255, 255];
    } else {
      NoLongerRun(Words(a));
      assert WordAt(a, 6) != 0;
      assert a[12] != 0 || a[13] != 0;
      assert a[..12] == [0, 0, 0, 0, 0, 0, 0, 0, 0, 0, 0, 0];
    }
  }

  lemma NoLongerRun(ws: seq<nat>)
    requires |ws| == 8 && Best(ws, 0, 6)
    ensures ws[6] != 0
  {
    assert !ZeroRun(ws, 0, 7);
  }

  lemma ZeroBytes(a: seq<byte>, len: nat)
    requires |a| == 16 && ZeroRun(Words(a), 0, len)
    ensures forall i :: 0 <= i < 2 * len ==> a[i] == 0
  {
    forall i | 0 <= i < 2 * len ensures a[i] == 0 {
      assert Words(a)[i / 2] == WordAt(a, i / 2) == 0;
    }
  }

  lemma PlainText(a: seq<byte>, base: int, len: int)
    requires |a| == 16 && (base == -1 || (ZeroRun(Words(a), base, len) && !Embedded(Words(a), base, len)))
    requires WellFormed(Printed(a, base, len))
    ensures Text(Printed(a, base, len)) == if base == -1 then Join(Words(a))
                                           else Join(Words(a)[..base]) + "::" + Join(Words(a)[base + len..])
  {
    hide WellFormed, HexAll, Tail, Join, Words;
    if base == -1 {
      TailJoins(Words(a));
    } else {
      TailJoins(Words(a)[..base]);
      TailJoins(Words(a)[base + len..]);
    }
  }
}
