/**
 * next_power_of_two: five shifts and ors fill every bit below the highest one. The exact
 * condition under which the result is the least power of two that is not smaller.
 */
module PowerOfTwo {
  import opened Common

  function Pow2(k: nat): (r: nat)
    ensures r > 0
  {
    if k == 0 then 1 else 2 * Pow2(k - 1)
  }

  /** Bitwise or. */
  function Or(a: nat, b: nat): (r: nat)
    decreases a + b
  {
    if a == 0 then b
    else if b == 0 then a
    else 2 * Or(a / 2, b / 2) + if a % 2 == 1 || b % 2 == 1 then 1 else 0
  }

  /** next_power_of_two on a 32-bit unsigned int; `v >> k` is division. */
  function NextPowerOfTwo(val: nat): nat
    requires val <= UINT_MAX
  {
    var v := U32(val - 1);
    var v := Or(v, v / 0x2);
    var v := Or(v, v / 0x4);
    var v := Or(v, v / 0x10);
    var v := Or(v, v / 0x100);
    var v := Or(v, v / 0x10000);
    U32(v + 1)
  }

  // ---------- Filling the bits below the highest ----------

  /** x >> k. */
  function Shr(x: nat, k: nat): nat
    decreases k
  {
    if k == 0 then x else Shr(x / 2, k - 1)
  }

  function Step(x: nat, k: nat): nat {
    Or(x, Shr(x, k))
  }

  /** x after j steps, with shifts 1, 2, 4 and so on. */
  function Smear(x: nat, j: nat): nat {
    if j == 0 then x else Step(Smear(x, j - 1), Pow2(j - 1))
  }

  /** Whether one of the lowest n bits is set. */
  predicate AnyLow(x: nat, n: nat)
    decreases n
  {
    n > 0 && (x % 2 == 1 || AnyLow(x / 2, n - 1))
  }

  lemma OrHalf(a: nat, b: nat)
    ensures Or(a, b) / 2 == Or(a / 2, b / 2)
    ensures Or(a, b) % 2 == 1 <==> a % 2 == 1 || b % 2 == 1
  {}

  lemma {:induction false} ShrHalf(x: nat, k: nat)
    ensures Shr(x, k) / 2 == Shr(x / 2, k)
    decreases k
  {
    if k > 0 {
      ShrHalf(x / 2, k - 1);
    }
  }

  lemma {:induction false} ShrAdd(x: nat, a: nat, b: nat)
    ensures Shr(x, a + b) == Shr(Shr(x, a), b)
    decreases a
  {
    if a > 0 {
      ShrAdd(x / 2, a - 1, b);
    }
  }

  lemma {:induction false} AnyLowAdd(x: nat, a: nat, b: nat)
    ensures AnyLow(x, a + b) <==> AnyLow(x, a) || AnyLow(Shr(x, a), b)
    decreases a
  {
    if a > 0 {
      AnyLowAdd(x / 2, a - 1, b);
    }
  }

  lemma {:induction false} SmearHalf(x: nat, j: nat)
    ensures Smear(x, j) / 2 == Smear(x / 2, j)
  {
    if j > 0 {
      var y := Smear(x, j - 1);
      SmearHalf(x, j - 1);
      OrHalf(y, Shr(y, Pow2(j - 1)));
      ShrHalf(y, Pow2(j - 1));
    }
  }

  lemma {:induction false} SmearShift(x: nat, j: nat, k: nat)
    ensures Shr(Smear(x, j), k) == Smear(Shr(x, k), j)
    decreases k
  {
    hide Smear;
    if k > 0 {
      SmearHalf(x, j);
      SmearShift(x / 2, j, k - 1);
    }
  }

  /** After j steps the lowest bit tells whether any of the lowest 2^j bits was set. */
  lemma {:induction false} SmearLow(x: nat, j: nat)
    ensures Smear(x, j) % 2 == 1 <==> AnyLow(x, Pow2(j))
    decreases j
  {
    hide Or, Shr;
    if j == 0 {
      assert AnyLow(x, 1) <==> x % 2 == 1;
    } else {
      var w := Pow2(j - 1);
      var y := Smear(x, j - 1);
      OrHalf(y, Shr(y, w));
      SmearShift(x, j - 1, w);
      SmearLow(x, j - 1);
      SmearLow(Shr(x, w), j - 1);
      AnyLowAdd(x, w, w);
    }
  }

  lemma {:induction false} SmearZero(j: nat)
    ensures Smear(0, j) == 0
  {
    if j > 0 {
      SmearZero(j - 1);
      ShrZero(Pow2(j - 1));
    }
  }

  lemma {:induction false} ShrZero(k: nat)
    ensures Shr(0, k) == 0
  {
    if k > 0 {
      ShrZero(k - 1);
    }
  }

  /** A number below 2^n that is not zero has a bit among the lowest n. */
  lemma {:induction false} SomeBit(x: nat, n: nat)
    requires 0 < x < Pow2(n)
    ensures AnyLow(x, n)
    decreases n
  {
    if x % 2 == 0 {
      SomeBit(x / 2, n - 1);
    }
  }

  lemma Powers()
    ensures Pow2(0) == 1 && Pow2(1) == 2 && Pow2(2) == 4 && Pow2(3) == 8 && Pow2(4) == 16 && Pow2(5) == 32
    ensures Pow2(31) == 0x8000_0000 && Pow2(32) == 0x1_0000_0000
  {
    assert Pow2(8) == 0x100 && Pow2(16) == 0x1_0000 && Pow2(24) == 0x100_0000;
  }

  /** All bits up to the highest are set: one more is the power of two just above x. */
  lemma {:induction false} SmearFills(x: nat) returns (k: nat)
    requires x < 0x1_0000_0000
    ensures Smear(x, 5) + 1 == Pow2(k) && x < Pow2(k) && (k > 0 ==> Pow2(k - 1) <= x)
  {
    hide Smear;
    if x == 0 {
      SmearZero(5);
      k := 0;
    } else {
      var j := SmearFills(x / 2);
      SmearHalf(x, 5);
      SmearLow(x, 5);
      Powers();
      SomeBit(x, 32);
      k := j + 1;
    }
  }

  lemma Shifts(v: nat)
    ensures Shr(v, 1) == v / 0x2 && Shr(v, 2) == v / 0x4 && Shr(v, 4) == v / 0x10
    ensures Shr(v, 8) == v / 0x100 && Shr(v, 16) == v / 0x10000
  {
    hide Shr;
    Shift4(v);
    Shift4(v / 0x10);
    Shift4(v / 0x100);
    Shift4(v / 0x1000);
    ShrAdd(v, 4, 4);
    ShrAdd(v, 8, 8);
    ShrAdd(v / 0x100, 4, 4);
  }

  lemma Shift4(v: nat)
    ensures Shr(v, 1) == v / 0x2 && Shr(v, 2) == v / 0x4 && Shr(v, 4) == v / 0x10
  {
    assert Shr(v / 0x2, 1) == v / 0x4 && Shr(v / 0x4, 1) == v / 0x8 && Shr(v / 0x8, 1) == v / 0x10;
  }

  lemma Unrolled(val: nat)
    requires val <= UINT_MAX
    ensures NextPowerOfTwo(val) == U32(Smear(U32(val - 1), 5) + 1)
  {
    hide Or, Shr;
    Powers();
    var x := U32(val - 1);
    assert Smear(x, 1) == Step(Smear(x, 0), Pow2(0));
    assert Smear(x, 2) == Step(Smear(x, 1), Pow2(1));
    assert Smear(x, 3) == Step(Smear(x, 2), Pow2(2));
    assert Smear(x, 4) == Step(Smear(x, 3), Pow2(3));
    assert Smear(x, 5) == Step(Smear(x, 4), Pow2(4));
    Shifts(x);
    Shifts(Smear(x, 1));
    Shifts(Smear(x, 2));
    Shifts(Smear(x, 3));
    Shifts(Smear(x, 4));
  }

  lemma {:induction false} PowMonotone(a: nat, b: nat)
    requires a < b
    ensures 2 * Pow2(a) <= Pow2(b)
  {
    if a < b - 1 {
      PowMonotone(a, b - 1);
    }
  }

  ghost predicate IsPow2(n: nat) {
    exists k: nat :: n == Pow2(k)
  }

  lemma {:induction false} PowInjective(a: nat, b: nat)
    ensures Pow2(a) <= Pow2(b) <==> a <= b
  {
    if a < b {
      PowMonotone(a, b);
    } else if b < a {
      PowMonotone(b, a);
    }
  }

  /**
   * The result is a power of two, not smaller than the argument, and the least such,
   * exactly for arguments from 1 to 2^31; for all others it is zero.
   */
  lemma NextPowerOfTwoExact(val: nat)
    requires val <= UINT_MAX
    ensures val == 0 || val > 0x8000_0000 ==> NextPowerOfTwo(val) == 0
    ensures 1 <= val <= 0x8000_0000 <==> IsPow2(NextPowerOfTwo(val)) && NextPowerOfTwo(val) >= val
    ensures 1 <= val <= 0x8000_0000 ==> forall p: nat :: IsPow2(p) && p >= val ==> NextPowerOfTwo(val) <= p
  {
    hide NextPowerOfTwo, Smear, Pow2;
    Unrolled(val);
    Powers();
    var k := SmearFills(U32(val - 1));
    PowInjective(k, 31);
    PowInjective(k, 32);
    PowInjective(32, k);
    if k > 0 {
      PowInjective(k - 1, 31);
      PowInjective(32, k - 1);
    }
    if 1 <= val <= 0x8000_0000 {
      assert NextPowerOfTwo(val) == Pow2(k);
      forall p: nat | IsPow2(p) && p >= val ensures Pow2(k) <= p {
        var m: nat :| p == Pow2(m);
        PowInjective(k, m);
        if k > 0 {
          PowInjective(m, k - 1);
        }
      }
    }
  }

  /** The first argument whose power of two does not fit: the additions wrap to zero. */
  lemma TooLarge()
    ensures NextPowerOfTwo(0x8000_0001) == 0
  {
    NextPowerOfTwoExact(0x8000_0001);
  }
}
