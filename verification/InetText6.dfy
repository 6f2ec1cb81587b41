/**
 * The text form of IPv6 addresses: the parser of inet_pton6 as a function, the forms of
 * section 2.2 of RFC 4291, and the proof that it accepts exactly those, with their values.
 */
module InetText6 {
  import opened Common
  import opened InetText

  // ---------- The parser ----------

  /** A 16-bit word in network order. */
  function Word(val: nat): (r: seq<byte>)
    requires val < 0x10000
    ensures |r| == 2
  {
    [val / 256, val % 256]
  }

  /** tp is the bytes written so far; colonp is where they stood at the "::", or -1. */
  datatype Scan = Scan(tp: seq<byte>, colonp: int, seen: nat, val: nat)
  {
    predicate Valid() {
      |tp| <= 16 && -1 <= colonp <= |tp| && seen <= 4 && (seen == 0 ==> val == 0) && val < Pow16(seen)
    }
  }

  function Pow16(n: nat): (r: nat)
    requires n <= 4
  {
    if n == 0 then 1 else if n == 1 then 16 else if n == 2 then 256 else if n == 3 then 4096 else 65536
  }

  const Start := Scan([], -1, 0, 0)

  /** The loop of inet_pton6: src is the text ahead, curtok the text from the current token on. */
  function Loop(src: string, curtok: string, st: Scan): (r: Result<Scan>)
    requires st.Valid()
    ensures r.Ok? ==> |r.value.tp| <= 16 && -1 <= r.value.colonp <= |r.value.tp| && r.value.seen <= 4
    ensures r.Ok? && r.value.seen > 0 ==> r.value.val < 0x10000
    decreases |src|
  {
    if src == "" then Ok(st)
    else
      var d, next := XDigit(src[0]), src[1..];
      if d >= 0 then
        if st.seen + 1 > 4 then Err(UV_EINVAL) else Loop(next, curtok, st.(val := st.val * 16 + d, seen := st.seen + 1))
      else if src[0] == ':' then
        if st.seen == 0 then
          if st.colonp >= 0 then Err(UV_EINVAL) else Loop(next, next, st.(colonp := |st.tp|))
        else if next == "" then Err(UV_EINVAL)
        else if |st.tp| + 2 > 16 then Err(UV_EINVAL)
        else Loop(next, next, Scan(st.tp + Word(st.val), st.colonp, 0, 0))
      else if src[0] == '.' && |st.tp| + 4 <= 16 then
        match Pton4(curtok)
        case Ok(a) => Ok(Scan(st.tp + a, st.colonp, 0, 0))
        case Err(_) => Err(UV_EINVAL)
      else Err(UV_EINVAL)
  }

  function Zeros(n: nat): (r: seq<byte>)
    ensures |r| == n
  {
    seq(n, _ => 0)
  }

  /** The end of inet_pton6: the bytes behind the "::" move to the end, and zeros fill the gap. */
  function Place(tp: seq<byte>, colonp: int): (r: Result<seq<byte>>)
    requires |tp| <= 16 && -1 <= colonp <= |tp|
    ensures r.Ok? ==> |r.value| == 16
  {
    if colonp >= 0 then
      if |tp| == 16 then Err(UV_EINVAL) else Ok(tp[..colonp] + Zeros(16 - |tp|) + tp[colonp..])
    else if |tp| == 16 then Ok(tp)
    else Err(UV_EINVAL)
  }

  function Done(r: Result<Scan>): (a: Result<seq<byte>>)
    requires r.Ok? ==> |r.value.tp| <= 16 && -1 <= r.value.colonp <= |r.value.tp|
    requires r.Ok? && r.value.seen > 0 ==> r.value.val < 0x10000
    ensures a.Ok? ==> |a.value| == 16
  {
    match r
    case Err(code) => Err(code)
    case Ok(st) =>
      if st.seen == 0 then Place(st.tp, st.colonp)
      else if |st.tp| + 2 > 16 then Err(UV_EINVAL)
      else Place(st.tp + Word(st.val), st.colonp)
  }

  function Pton6(src: string): (r: Result<seq<byte>>)
    ensures r.Ok? ==> |r.value| == 16
  {
    if src != "" && src[0] == ':' then
      if |src| == 1 || src[1] != ':' then Err(UV_EINVAL) else Done(Loop(src[1..], src[1..], Start))
    else Done(Loop(src, src, Start))
  }

  // ---------- The forms of RFC 4291 ----------

  /** One to four hexadecimal digits, of either case. */
  predicate Group(h: string) {
    1 <= |h| <= 4 && forall i :: 0 <= i < |h| ==> XDigit(h[i]) >= 0
  }

  /** The value of hexadecimal digits that follow a value read before. */
  function Value(v: nat, h: string): nat
    requires forall i :: 0 <= i < |h| ==> XDigit(h[i]) >= 0
    decreases |h|
  {
    if h == "" then v else Value(v * 16 + XDigit(h[0]), h[1..])
  }

  lemma {:induction false} ValueBound(v: nat, h: string, k: nat)
    requires forall i :: 0 <= i < |h| ==> XDigit(h[i]) >= 0
    requires k + |h| <= 4 && v < Pow16(k)
    ensures Value(v, h) < Pow16(k + |h|)
    decreases |h|
  {
    if h != "" {
      ValueBound(v * 16 + XDigit(h[0]), h[1..], k + 1);
    }
  }

  /**
   * Groups, then possibly an IPv4 address, all separated by colons. With a gap, the front
   * groups and a "::" stand before them; without one, front is empty.
   */
  datatype Form = Form(front: seq<string>, gap: bool, back: seq<string>, v4: Option<seq<byte>>)

  predicate Groups(gs: seq<string>) {
    forall i :: 0 <= i < |gs| ==> Group(gs[i])
  }

  /** Eight words without a gap, at most seven with one; an IPv4 address counts for two. */
  predicate WellFormed(f: Form) {
    && Groups(f.front) && Groups(f.back) && (f.v4.Some? ==> |f.v4.value| == 4)
    && var words := |f.front| + |f.back| + (if f.v4.Some? then 2 else 0);
       if f.gap then words <= 7 else words == 8 && f.front == []
  }

  function Tail(gs: seq<string>, v4: Option<seq<byte>>): string
    requires v4.Some? ==> |v4.value| == 4
  {
    if gs == [] then (if v4.Some? then Text4(v4.value) else "")
    else if |gs| == 1 && v4.None? then gs[0]
    else gs[0] + (":" + Tail(gs[1..], v4))
  }

  function Text(f: Form): string
    requires WellFormed(f)
  {
    (if f.gap then Tail(f.front, None) + "::" else "") + Tail(f.back, f.v4)
  }

  function Bytes(gs: seq<string>): (r: seq<byte>)
    requires Groups(gs)
    ensures |r| == 2 * |gs|
  {
    if gs == [] then []
    else
      ValueBound(0, gs[0], 0);
      Word(Value(0, gs[0])) + Bytes(gs[1..])
  }

  function TailBytes(gs: seq<string>, v4: Option<seq<byte>>): (r: seq<byte>)
    requires Groups(gs) && (v4.Some? ==> |v4.value| == 4)
    ensures |r| == 2 * |gs| + if v4.Some? then 4 else 0
  {
    Bytes(gs) + if v4.Some? then v4.value else []
  }

  /** The address a form denotes: a gap stands for as many zero words as are missing. */
  function Address(f: Form): (r: seq<byte>)
    requires WellFormed(f)
    ensures |r| == 16
  {
    var front, back := Bytes(f.front), TailBytes(f.back, f.v4);
    front + Zeros(16 - |front| - |back|) + back
  }

  // ---------- Every form is accepted ----------

  lemma {:induction false} LoopDigits(h: string, rest: string, curtok: string, st: Scan)
    requires st.Valid() && st.seen + |h| <= 4 && forall i :: 0 <= i < |h| ==> XDigit(h[i]) >= 0
    ensures var st' := st.(val := Value(st.val, h), seen := st.seen + |h|);
            st'.Valid() && Loop(h + rest, curtok, st) == Loop(rest, curtok, st')
    decreases |h|
  {
    if h == "" {
      assert h + rest == rest;
    } else {
      var st1 := st.(val := st.val * 16 + XDigit(h[0]), seen := st.seen + 1);
      assert (h + rest)[0] == h[0] && (h + rest)[1..] == h[1..] + rest;
      LoopDigits(h[1..], rest, curtok, st1);
    }
  }

  lemma LoopColon(rest: string, curtok: string, st: Scan)
    requires st.Valid() && st.seen > 0 && rest != "" && |st.tp| + 2 <= 16
    ensures st.val < 0x10000
    ensures Loop(":" + rest, curtok, st) == Loop(rest, rest, Scan(st.tp + Word(st.val), st.colonp, 0, 0))
  {
    assert (":" + rest)[1..] == rest;
  }

  lemma LoopGap(rest: string, curtok: string, st: Scan)
    requires st.Valid() && st.seen == 0 && st.colonp == -1
    ensures Loop(":" + rest, curtok, st) == Loop(rest, rest, st.(colonp := |st.tp|))
  {
    assert (":" + rest)[1..] == rest;
  }

  /** A group and the colon behind it. */
  lemma LoopGroup(h: string, rest: string, tp: seq<byte>, colonp: int, curtok: string)
    requires Group(h) && rest != "" && |tp| + 2 <= 16 && -1 <= colonp <= |tp|
    ensures Value(0, h) < 0x10000
    ensures Loop(h + (":" + rest), curtok, Scan(tp, colonp, 0, 0))
         == Loop(rest, rest, Scan(tp + Word(Value(0, h)), colonp, 0, 0))
  {
    hide Loop;
    LoopDigits(h, ":" + rest, curtok, Scan(tp, colonp, 0, 0));
    LoopColon(rest, curtok, Scan(tp, colonp, |h|, Value(0, h)));
  }

  /** An IPv4 address in the place of the last two words. */
  lemma LoopV4(a: seq<byte>, tp: seq<byte>, colonp: int)
    requires |a| == 4 && |tp| + 4 <= 16 && -1 <= colonp <= |tp|
    ensures Loop(Text4(a), Text4(a), Scan(tp, colonp, 0, 0)) == Ok(Scan(tp + a, colonp, 0, 0))
  {
    var h := Dec(a[0]);
    var rest := "." + Dec(a[1]) + "." + Dec(a[2]) + "." + Dec(a[3]);
    assert Text4(a) == h + rest;
    forall i | 0 <= i < |h| ensures XDigit(h[i]) >= 0 {
      var x, y, z := Decimal(a[0]);
    }
    LoopDigits(h, rest, Text4(a), Scan(tp, colonp, 0, 0));
    Pton4Ntop4(a);
    assert rest[0] == '.';
  }

  lemma {:induction false} LoopTail(gs: seq<string>, v4: Option<seq<byte>>, tp: seq<byte>, colonp: int)
    requires Groups(gs) && (v4.Some? ==> |v4.value| == 4) && -1 <= colonp <= |tp|
    requires |tp| + |TailBytes(gs, v4)| <= 16
    ensures Done(Loop(Tail(gs, v4), Tail(gs, v4), Scan(tp, colonp, 0, 0))) == Place(tp + TailBytes(gs, v4), colonp)
    decreases |gs|
  {
    hide Loop, Place, Value, Text4, Tail, Bytes, TailBytes, Word;
    TailStep(gs, v4);
    if gs == [] {
      if v4.Some? {
        LoopV4(v4.value, tp, colonp);
      } else {
        LoopEnd(Tail(gs, v4), Scan(tp, colonp, 0, 0));
        assert tp == tp + [];
      }
    } else if |gs| == 1 && v4.None? {
      LoopDigits(gs[0], "", gs[0], Scan(tp, colonp, 0, 0));
      assert gs[0] + "" == gs[0];
      LoopEnd(gs[0], Scan(tp, colonp, |gs[0]|, Value(0, gs[0])));
    } else {
      TailNonempty(gs[1..], v4);
      LoopGroup(gs[0], Tail(gs[1..], v4), tp, colonp, Tail(gs, v4));
      LoopTail(gs[1..], v4, tp + Word(Value(0, gs[0])), colonp);
      assert tp + Word(Value(0, gs[0])) + TailBytes(gs[1..], v4) == tp + TailBytes(gs, v4);
    }
  }

  lemma TailStep(gs: seq<string>, v4: Option<seq<byte>>)
    requires Groups(gs) && (v4.Some? ==> |v4.value| == 4)
    ensures gs == [] ==> TailBytes(gs, v4) == (if v4.Some? then v4.value else [])
    ensures gs == [] ==> Tail(gs, v4) == (if v4.Some? then Text4(v4.value) else "")
    ensures gs != [] ==> Value(0, gs[0]) < 0x10000
    ensures gs != [] ==> TailBytes(gs, v4) == Word(Value(0, gs[0])) + TailBytes(gs[1..], v4)
    ensures gs != [] ==> Tail(gs, v4) == if |gs| == 1 && v4.None? then gs[0] else gs[0] + (":" + Tail(gs[1..], v4))
    ensures |gs| == 1 && v4.None? ==> TailBytes(gs, v4) == Word(Value(0, gs[0]))
  {
    hide Value, Text4, Word;
    if gs != [] {
      ValueBound(0, gs[0], 0);
      if |gs| == 1 && v4.None? {
        assert Bytes(gs[1..]) == [];
      }
    }
  }

  lemma LoopEnd(curtok: string, st: Scan)
    requires st.Valid()
    ensures Loop("", curtok, st) == Ok(st)
  {}

  lemma TailNonempty(gs: seq<string>, v4: Option<seq<byte>>)
    requires Groups(gs) && (v4.Some? ==> |v4.value| == 4) && (gs != [] || v4.Some?)
    ensures Tail(gs, v4) != ""
    ensures gs != [] ==> Tail(gs, v4)[0] == gs[0][0] && XDigit(gs[0][0]) >= 0
    ensures gs == [] ==> XDigit(Tail(gs, v4)[0]) >= 0
  {
    if gs != [] {
      assert Group(gs[0]);
    } else {
      var h, t, u := Decimal(v4.value[0]);
      assert Text4(v4.value)[0] == Dec(v4.value[0])[0];
    }
  }

  lemma FrontStep(gs: seq<string>)
    requires Groups(gs) && gs != []
    ensures Value(0, gs[0]) < 0x10000 && Bytes(gs) == Word(Value(0, gs[0])) + Bytes(gs[1..])
    ensures |gs| == 1 ==> Bytes(gs) == Word(Value(0, gs[0]))
    ensures Tail(gs, None) == if |gs| == 1 then gs[0] else gs[0] + (":" + Tail(gs[1..], None))
  {
    ValueBound(0, gs[0], 0);
    if |gs| == 1 {
      assert Bytes(gs[1..]) == [];
    }
  }

  lemma Colons(rest: string)
    ensures "::" + rest == ":" + (":" + rest)
  {}

  lemma Regroup(a: string, b: string, c: string, d: string)
    ensures (a + (b + c)) + d == a + (b + (c + d))
  {}

  lemma {:induction false} LoopFront(gs: seq<string>, rest: string, tp: seq<byte>, curtok: string)
    requires Groups(gs) && gs != [] && |tp| + |Bytes(gs)| <= 16
    ensures Loop(Tail(gs, None) + ("::" + rest), curtok, Scan(tp, -1, 0, 0))
         == Loop(rest, rest, Scan(tp + Bytes(gs), |tp + Bytes(gs)|, 0, 0))
    decreases |gs|
  {
    hide Loop, Value, Tail, Bytes;
    FrontStep(gs);
    assert Group(gs[0]);
    if |gs| == 1 {
      Colons(rest);
      LoopGroup(gs[0], ":" + rest, tp, -1, curtok);
      LoopGap(rest, ":" + rest, Scan(tp + Word(Value(0, gs[0])), -1, 0, 0));
    } else {
      var more := Tail(gs[1..], None) + ("::" + rest);
      Regroup(gs[0], ":", Tail(gs[1..], None), "::" + rest);
      LoopGroup(gs[0], more, tp, -1, curtok);
      LoopFront(gs[1..], rest, tp + Word(Value(0, gs[0])), more);
      assert tp + Word(Value(0, gs[0])) + Bytes(gs[1..]) == tp + Bytes(gs);
    }
  }

  lemma Accepts(f: Form)
    requires WellFormed(f)
    ensures Pton6(Text(f)) == Ok(Address(f))
  {
    hide Loop, Done, Tail, Text, Address;
    if !f.gap {
      AcceptsPlain(f);
    } else if f.front == [] {
      AcceptsGapFirst(f);
    } else {
      AcceptsGap(f);
    }
  }

  lemma AcceptsPlain(f: Form)
    requires WellFormed(f) && !f.gap
    ensures Pton6(Text(f)) == Ok(Address(f))
  {
    hide Loop, Done, Tail;
    assert Text(f) == Tail(f.back, f.v4);
    TailNonempty(f.back, f.v4);
    LoopTail(f.back, f.v4, [], -1);
    assert [] + TailBytes(f.back, f.v4) == TailBytes(f.back, f.v4) == Address(f);
  }

  lemma AcceptsGapFirst(f: Form)
    requires WellFormed(f) && f.gap && f.front == []
    ensures Pton6(Text(f)) == Ok(Address(f))
  {
    hide Loop, Done, Tail;
    var back := Tail(f.back, f.v4);
    GapPlaces(f);
    NoGroups();
    assert Text(f) == "::" + back && ("::" + back)[1..] == ":" + back;
    LoopGap(back, ":" + back, Start);
  }

  lemma AcceptsGap(f: Form)
    requires WellFormed(f) && f.gap && f.front != []
    ensures Pton6(Text(f)) == Ok(Address(f))
  {
    hide Loop, Done, Tail;
    var back := Tail(f.back, f.v4);
    GapPlaces(f);
    assert Text(f) == Tail(f.front, None) + ("::" + back);
    TailNonempty(f.front, None);
    hide Address;
    LoopFront(f.front, back, [], Text(f));
    assert [] + Bytes(f.front) == Bytes(f.front);
  }

  /** From behind the "::" on, the loop ends with the address. */
  lemma GapPlaces(f: Form)
    requires WellFormed(f) && f.gap
    ensures var back, front := Tail(f.back, f.v4), Bytes(f.front);
            Done(Loop(back, back, Scan(front, |front|, 0, 0))) == Ok(Address(f))
  {
    hide Loop, Done, Tail;
    var front := Bytes(f.front);
    LoopTail(f.back, f.v4, front, |front|);
    var tp := front + TailBytes(f.back, f.v4);
    assert tp[..|front|] == front && tp[|front|..] == TailBytes(f.back, f.v4);
  }

  lemma NoGroups()
    ensures Tail([], None) == ""
  {}

  // ---------- Nothing else is accepted ----------

  /** Groups, each with the colon behind it. */
  function Sep(gs: seq<string>): string {
    if gs == [] then "" else gs[0] + (":" + Sep(gs[1..]))
  }

  /** The text read when the groups before the current token are known. */
  function Prefix(front: seq<string>, gap: bool, back: seq<string>): string {
    (if gap then Tail(front, None) + "::" else "") + Sep(back)
  }

  lemma {:induction false} TailSep(gs: seq<string>, h: string, v4: seq<byte>)
    requires |v4| == 4
    ensures Tail(gs + [h], None) == Sep(gs) + h
    ensures Tail(gs, Some(v4)) == Sep(gs) + Text4(v4)
  {
    hide Text4;
    if gs == [] {
      assert [] + [h] == [h];
    } else {
      TailSep(gs[1..], h, v4);
      assert (gs + [h])[1..] == gs[1..] + [h];
      Regroup(gs[0], ":", Sep(gs[1..]), h);
      Regroup(gs[0], ":", Sep(gs[1..]), Text4(v4));
    }
  }

  lemma {:induction false} SepSnoc(gs: seq<string>, h: string)
    ensures Sep(gs + [h]) == Sep(gs) + (h + ":")
  {
    if gs == [] {
      assert [] + [h] == [h];
      assert [h][1..] == [];
      assert Sep([h]) == h + (":" + "");
    } else {
      SepSnoc(gs[1..], h);
      assert (gs + [h])[1..] == gs[1..] + [h];
      Regroup(gs[0], ":", Sep(gs[1..]), h + ":");
    }
  }

  lemma {:induction false} BytesSnoc(gs: seq<string>, h: string)
    requires Groups(gs) && Group(h)
    ensures Value(0, h) < 0x10000 && Bytes(gs + [h]) == Bytes(gs) + Word(Value(0, h))
  {
    hide Value, Word;
    ValueBound(0, h, 0);
    FrontStep(gs + [h]);
    if gs == [] {
      assert [] + [h] == [h];
    } else {
      BytesSnoc(gs[1..], h);
      assert (gs + [h])[1..] == gs[1..] + [h];
    }
  }

  lemma {:induction false} ValueSnoc(v: nat, h: string, c: char)
    requires (forall i :: 0 <= i < |h| ==> XDigit(h[i]) >= 0) && XDigit(c) >= 0
    ensures Value(v, h + [c]) == Value(v, h) * 16 + XDigit(c)
    decreases |h|
  {
    if h == "" {
      assert h + [c] == [c] && [c][1..] == "";
    } else {
      assert (h + [c])[1..] == h[1..] + [c];
      ValueSnoc(v * 16 + XDigit(h[0]), h[1..], c);
    }
  }

  lemma ValueNone()
    ensures Value(0, "") == 0
  {}

  /** What the parser's state says about the text read: the groups so far, and h digits of the current one. */
  predicate Tracks(front: seq<string>, gap: bool, back: seq<string>, h: string, src: string, curtok: string, st: Scan) {
    && Groups(front) && Groups(back) && |h| <= 4 && (forall i :: 0 <= i < |h| ==> XDigit(h[i]) >= 0)
    && (!gap ==> front == [])
    && st.tp == Bytes(front) + Bytes(back) && st.colonp == (if gap then |Bytes(front)| else -1)
    && st.seen == |h| && st.val == Value(0, h) && curtok == h + src
    && (!gap && back == [] && h == "" ==> src == "" || src[0] != ':')
    && (back != [] && h == "" ==> src != "")
  }

  lemma Placed(front: seq<byte>, gap: bool, tail: seq<byte>)
    requires |front| + |tail| <= 16 && (!gap ==> front == [])
    ensures var r := Place(front + tail, if gap then |front| else -1);
            r.Ok? ==> && r == Ok(front + Zeros(16 - |front| - |tail|) + tail)
                      && (if gap then |front| + |tail| < 16 else |tail| == 16)
  {
    assert (front + tail)[..|front|] == front && (front + tail)[|front|..] == tail;
    assert !gap && |tail| == 16 ==> front + tail == front + Zeros(0) + tail;
  }

  lemma SoundEnd(front: seq<string>, gap: bool, back: seq<string>, h: string, st: Scan) returns (f: Form)
    requires st.Valid() && Tracks(front, gap, back, h, "", h, st) && Done(Ok(st)).Ok?
    ensures WellFormed(f) && Text(f) == Prefix(front, gap, back) + h && Done(Ok(st)) == Ok(Address(f))
  {
    hide Value, Tail, Place, Bytes;
    if h == "" {
      f := Form(front, gap, [], None);
      NoGroups();
      PrefixStart("");
      assert Bytes(front) + [] == st.tp;
      Placed(Bytes(front), gap, []);
    } else {
      f := Form(front, gap, back + [h], None);
      TailSep(back, h, [0, 0, 0, 0]);
      BytesSnoc(back, h);
      assert TailBytes(f.back, None) == Bytes(back) + Word(st.val);
      assert st.tp + Word(st.val) == Bytes(front) + TailBytes(f.back, None);
      Placed(Bytes(front), gap, TailBytes(f.back, None));
      SoundText(front, gap, back, h);
    }
  }

  lemma SoundText(front: seq<string>, gap: bool, back: seq<string>, rest: string)
    ensures Prefix(front, gap, back) + rest == (if gap then Tail(front, None) + "::" else "") + (Sep(back) + rest)
  {}

  lemma SoundV4(front: seq<string>, gap: bool, back: seq<string>, st: Scan, b: seq<byte>) returns (f: Form)
    requires st.Valid() && Groups(front) && Groups(back) && (!gap ==> front == []) && |b| == 4 && |st.tp| + 4 <= 16
    requires st.tp == Bytes(front) + Bytes(back) && st.colonp == (if gap then |Bytes(front)| else -1)
    requires Place(st.tp + b, st.colonp).Ok?
    ensures WellFormed(f) && Text(f) == Prefix(front, gap, back) + Text4(b) && Place(st.tp + b, st.colonp) == Ok(Address(f))
  {
    hide Value, Tail, Text4, Place, Bytes;
    f := Form(front, gap, back, Some(b));
    TailSep(back, "", b);
    SoundText(front, gap, back, Text4(b));
    assert st.tp + b == Bytes(front) + TailBytes(back, f.v4);
    PrefixStart("");
    Placed(Bytes(front), gap, TailBytes(back, f.v4));
  }

  lemma {:induction false} Sound(front: seq<string>, gap: bool, back: seq<string>, h: string, src: string, curtok: string,
                                 st: Scan) returns (f: Form)
    requires st.Valid() && Tracks(front, gap, back, h, src, curtok, st) && Done(Loop(src, curtok, st)).Ok?
    ensures WellFormed(f) && Text(f) == Prefix(front, gap, back) + (h + src) && Done(Loop(src, curtok, st)) == Ok(Address(f))
    decreases |src|
  {
    hide Value, Tail, Text, Prefix, Address, WellFormed, Place, Bytes, Word, Pton4;
    if src == "" {
      assert h + src == h;
      f := SoundEnd(front, gap, back, h, st);
    } else {
      var d, next := XDigit(src[0]), src[1..];
      assert src == [src[0]] + next;
      if d >= 0 {
        ValueSnoc(0, h, src[0]);
        assert (h + [src[0]]) + next == h + src;
        f := Sound(front, gap, back, h + [src[0]], next, curtok, st.(val := st.val * 16 + d, seen := st.seen + 1));
      } else if src[0] == ':' && h == "" {
        GapText(front, back, next);
        f := Sound(back, true, [], "", next, next, st.(colonp := |st.tp|));
      } else if src[0] == ':' {
        BytesSnoc(back, h);
        ValueNone();
        assert Bytes(front) + (Bytes(back) + Word(st.val)) == st.tp + Word(st.val);
        f := Sound(front, gap, back + [h], "", next, next, Scan(st.tp + Word(st.val), st.colonp, 0, 0));
        ColonText(front, gap, back, h, next);
      } else {
        var b := Pton4(curtok).value;
        Pton4Exact(curtok, b);
        f := SoundV4(front, gap, back, st, b);
      }
    }
  }

  /** Reading the second colon of a "::" behind groups. */
  lemma GapText(front: seq<string>, back: seq<string>, next: string)
    ensures back != [] ==> Prefix([], false, back) + ("" + (":" + next)) == Prefix(back, true, []) + ("" + next)
    ensures Bytes([]) == []
  {
    if back != [] {
      TailSep(back[..|back| - 1], back[|back| - 1], [0, 0, 0, 0]);
      SepSnoc(back[..|back| - 1], back[|back| - 1]);
      assert back[..|back| - 1] + [back[|back| - 1]] == back;
    }
  }

  lemma ColonText(front: seq<string>, gap: bool, back: seq<string>, h: string, next: string)
    ensures Prefix(front, gap, back + [h]) + ("" + next) == Prefix(front, gap, back) + (h + (":" + next))
  {
    hide Tail;
    SepSnoc(back, h);
  }

  lemma PrefixStart(s: string)
    ensures Prefix([], true, []) + ("" + s) == "::" + s
    ensures Prefix([], false, []) + ("" + s) == s
    ensures Bytes([]) == [] && Value(0, "") == 0
  {}

  lemma OnlyForms(s: string) returns (f: Form)
    requires Pton6(s).Ok?
    ensures WellFormed(f) && Text(f) == s && Pton6(s) == Ok(Address(f))
  {
    hide Loop, Done, Text, Address, WellFormed, Prefix, Bytes, Value;
    if s != "" && s[0] == ':' {
      var next := s[2..];
      assert s[1..] == ":" + next && "::" + next == s && "" + next == next;
      LoopGap(next, s[1..], Start);
      PrefixStart(next);
      f := Sound([], true, [], "", next, next, Start.(colonp := 0));
    } else {
      PrefixStart(s);
      assert "" + s == s;
      f := Sound([], false, [], "", s, s, Start);
    }
  }

  /**
   * inet_pton6 accepts exactly the forms of section 2.2 of RFC 4291, and gives their address.
   */
  lemma Pton6Exact(s: string, a: seq<byte>)
    ensures Pton6(s) == Ok(a) <==> exists f :: WellFormed(f) && Text(f) == s && Address(f) == a
  {
    hide Text, Address, WellFormed, Pton6;
    if Pton6(s) == Ok(a) {
      var f := OnlyForms(s);
    }
    if f :| WellFormed(f) && Text(f) == s && Address(f) == a {
      Accepts(f);
    }
  }
}
