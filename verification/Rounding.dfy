/** Rounding a bucket count to a power of two, and the bit-length loops it rests on. */
module Rounding {
  import opened Bits

  /** The number of binary digits of `x`. */
  function BitLength(x: nat): nat {
    if x == 0 then 0 else 1 + BitLength(x / 2)
  }

  /** `n` is the bit length of a positive `x` exactly when `2^(n-1) <= x < 2^n`. */
  lemma BitLengthUnique(x: nat, n: nat)
    requires x > 0
    ensures n == BitLength(x) <==> n > 0 && Pow2(n - 1) <= x < Pow2(n)
  {
    BitLengthBounds(x);
    var l := BitLength(x);
    if n > 0 && Pow2(n - 1) <= x < Pow2(n) {
      if n < l {
        if n < l - 1 { Pow2Monotone(n, l - 1); }
      } else if n > l {
        if l < n - 1 { Pow2Monotone(l, n - 1); }
      }
    }
  }

  lemma {:induction false} BitLengthBounds(x: nat)
    requires x > 0
    ensures BitLength(x) > 0 && Pow2(BitLength(x) - 1) <= x < Pow2(BitLength(x))
  {
    if x > 1 {
      BitLengthBounds(x / 2);
    }
  }

  method GetHighestBitIndex(value: u32) returns (index: nat)
    ensures index == BitLength(value) <= 32
  {
    index := 0;
    var v: nat := value;
    while v > 0
      invariant index + BitLength(v) == BitLength(value)
    {
      index := index + 1;
      v := Shr(v, 1);
    }
    if value > 0 {
      BitLengthBounds(value);
      if index > 32 {
        Pow2Values();
        if index - 1 > 32 { Pow2Monotone(32, index - 1); }
      }
    }
  }

  predicate IsPowerOfTwo(x: u32) {
    x > 0 && And(x, x - 1) == 0
  }

  /** The `x & (x-1)` trick recognises exactly the powers of two. */
  lemma PowerOfTwoTrick(x: nat)
    ensures x > 0 && And(x, x - 1) == 0 <==> IsPow2(x)
  {
    if x > 0 && And(x, x - 1) == 0 {
      var k := TrickExponent(x);
    }
    if IsPow2(x) {
      var k: nat :| x == Pow2(k);
      TrickOnPower(k);
    }
  }

  lemma {:induction false} TrickExponent(x: nat) returns (k: nat)
    requires x > 0 && And(x, x - 1) == 0
    ensures x == Pow2(k)
  {
    if x == 1 {
      k := 0;
    } else {
      AndStep(x, x - 1);
      if x % 2 == 1 {
        assert (x - 1) / 2 == x / 2 > 0;
        AndSelf(x / 2);
      } else {
        assert (x - 1) / 2 == x / 2 - 1;
      }
      k := TrickExponent(x / 2);
      k := k + 1;
    }
  }

  lemma {:induction false} AndSelf(x: nat)
    ensures And(x, x) == x
  {
    if x > 0 {
      AndSelf(x / 2);
    }
  }

  lemma {:induction false} TrickOnPower(k: nat)
    ensures And(Pow2(k), Pow2(k) - 1) == 0
  {
    if k > 0 {
      TrickOnPower(k - 1);
      assert (Pow2(k) - 1) / 2 == Pow2(k - 1) - 1;
    }
  }

  /** What `RoundToPowerOfTwo` computes: `None` where its shift count reaches the width of the
      word, which C leaves undefined. */
  function Rounded(value: u32, roundUpToNext: bool): Option<u32> {
    if value == 0 || IsPowerOfTwo(value) then Some(value)
    else
      var idx := BitLength(value) + if roundUpToNext then 1 else 0;
      if idx < 32 then Some(Shl32(1, idx)) else None
  }

  method RoundToPowerOfTwo(value: u32, roundUpToNext: bool) returns (r: Option<u32>)
    ensures r == Rounded(value, roundUpToNext)
    ensures value == 0 ==> r == Some(0)
  {
    if value == 0 || IsPowerOfTwo(value) {
      return Some(value);
    }
    var idx := GetHighestBitIndex(value);
    if roundUpToNext {
      idx := idx + 1;
    }
    if idx >= 32 {
      return None;
    }
    return Some(Shl32(1, idx));
  }

  ghost predicate LeastPow2AtLeast(p: nat, v: nat) {
    IsPow2(p) && p >= v && forall k: nat :: Pow2(k) >= v ==> p <= Pow2(k)
  }

  /** `roundUpToNext = FALSE` already rounds up: the result is the least power of two that is not
      below the argument, and it is defined exactly up to `2^31`. */
  lemma RoundedIsLeast(v: u32)
    requires v > 0
    ensures Rounded(v, false).Some? <==> v <= 0x8000_0000
    ensures Rounded(v, false).Some? ==> LeastPow2AtLeast(Rounded(v, false).value, v)
  {
    hide And, Pow2, BitLength;
    Pow2Values();
    PowerOfTwoTrick(v);
    BitLengthBounds(v);
    var l := BitLength(v);
    if IsPow2(v) {
      var k: nat :| v == Pow2(k);
      PowerBelow(k, 32);
      PowerBelow(31, k);
    } else {
      PowerBelow(l, 31);
      PowerBelow(31, l);
      assert v != Pow2(l - 1) && v != Pow2(31);
      if l < 32 {
        PowerBelow(l, 32);
        QuotientIs(Pow2(l), TWO_32, 0, Pow2(l));
        forall k: nat | Pow2(k) >= v
          ensures Pow2(l) <= Pow2(k)
        {
          PowerBelow(k, l - 1);
          PowerBelow(l, k);
        }
      } else {
        PowerBelow(31, l - 1);
      }
    }
  }

  lemma PowerBelow(a: nat, b: nat)
    ensures a < b <==> Pow2(a) < Pow2(b)
    ensures a <= b ==> Pow2(a) <= Pow2(b)
  {
    if a < b { Pow2Monotone(a, b); }
    if b < a { Pow2Monotone(b, a); }
  }

  lemma RoundedValue(v: u32, up: bool)
    requires v > 0 && !IsPow2(v)
    ensures var idx := BitLength(v) + if up then 1 else 0;
            Rounded(v, up) == if idx < 32 then Some(Pow2(idx)) else None
  {
    hide And, BitLength, Pow2;
    PowerOfTwoTrick(v);
    var idx := BitLength(v) + if up then 1 else 0;
    if idx < 32 { NoWrap(idx); }
  }

  /** `roundUpToNext = TRUE` doubles that result, unless the argument is a power of two itself. */
  lemma RoundedUpToNextDoubles(v: u32)
    requires v > 0 && !IsPow2(v)
    ensures Rounded(v, true).Some? <==> v < 0x4000_0000
    ensures Rounded(v, true).Some? ==>
              Rounded(v, false).Some? && Rounded(v, true).value == 2 * Rounded(v, false).value
  {
    hide Rounded, BitLength;
    var n := BitLength(v);
    assert Pow2(n + 1) == 2 * Pow2(n);
    hide Pow2;
    Pow2Values();
    RoundedValue(v, false);
    RoundedValue(v, true);
    BitLengthBounds(v);
    PowerBelow(n, 30);
    PowerBelow(30, n - 1);
  }

  /** So rounding up to the next is right, as a least power of two, exactly for powers of two. */
  lemma RoundedUpToNextRightIff(v: u32)
    requires v > 0
    ensures Rounded(v, true).Some? && LeastPow2AtLeast(Rounded(v, true).value, v) <==> IsPow2(v)
  {
    hide And, BitLength, Pow2;
    PowerOfTwoTrick(v);
    if IsPow2(v) {
      var k: nat :| v == Pow2(k);
      assert forall k: nat :: Pow2(k) >= v ==> v <= Pow2(k);
    } else {
      RoundedUpToNextDoubles(v);
      RoundedIsLeast(v);
      if Rounded(v, true).Some? {
        var k: nat :| Rounded(v, false).value == Pow2(k);
        assert Pow2(k) >= v && Pow2(k) < Rounded(v, true).value;
      }
    }
  }

  /** hashtable.h's `ilog2`: the least `l` with `2^l >= v`. The argument is a 32-bit
      `unsigned long`; beyond `2^31` the loop would shift by the full word width. */
  method Ilog2(v: u32) returns (l: nat)
    requires v <= 0x8000_0000
    ensures l <= 31 && v <= Pow2(l)
    ensures forall k: nat :: v <= Pow2(k) ==> l <= k
  {
    Pow2Values();
    l := 0;
    while Shl32(1, l) < v
      invariant l <= 31
      invariant l > 0 ==> Pow2(l - 1) < v
      decreases 31 - l
    {
      NoWrap(l);
      if l == 31 {
        assert false;
      }
      l := l + 1;
    }
    NoWrap(l);
    forall k: nat | v <= Pow2(k)
      ensures l <= k
    {
      if l > 0 { PowerBelow(k, l - 1); PowerBelow(l - 1, k); }
    }
  }

  lemma NoWrap(l: nat)
    requires l <= 31
    ensures Shl32(1, l) == Pow2(l)
  {
    Pow2Values();
    PowerBelow(l, 32);
    QuotientIs(Pow2(l), TWO_32, 0, Pow2(l));
  }

  /** The two loops agree: rounding a count up is shifting 1 by its `ilog2`. */
  lemma RoundedIsShiftedIlog2(v: u32, l: nat)
    requires 0 < v <= 0x8000_0000
    requires v <= Pow2(l) && forall k: nat :: v <= Pow2(k) ==> l <= k
    ensures Rounded(v, false) == Some(Pow2(l))
  {
    RoundedIsLeast(v);
    var p := Rounded(v, false).value;
    var k: nat :| p == Pow2(k);
    PowerBelow(l, k);
  }
}
