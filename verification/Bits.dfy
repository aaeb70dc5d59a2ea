/** Machine words as bounded naturals, C's bitwise operators on them, and the optional value
    that stands for a nullable pointer or an undefined C expression. */
module Bits {

  datatype Option<+T> = None | Some(value: T)

  const TWO_32: nat := 0x1_0000_0000
  const TWO_64: nat := 0x1_0000_0000_0000_0000

  type u8 = x: nat | x < 0x100
  type u16 = x: nat | x < 0x1_0000
  type u32 = x: nat | x < 0x1_0000_0000
  type u64 = x: nat | x < 0x1_0000_0000_0000_0000

  function Pow2(n: nat): (p: nat)
    ensures p > 0
  {
    if n == 0 then 1 else 2 * Pow2(n - 1)
  }

  function And(x: nat, y: nat): (z: nat)
    ensures z <= x && z <= y
    decreases x
  {
    if x == 0 || y == 0 then 0
    else (if x % 2 == 1 && y % 2 == 1 then 1 else 0) + 2 * And(x / 2, y / 2)
  }

  function Or(x: nat, y: nat): nat
    decreases x
  {
    if x == 0 then y
    else (if x % 2 == 1 || y % 2 == 1 then 1 else 0) + 2 * Or(x / 2, y / 2)
  }

  predicate Bit(x: nat, k: nat) {
    x / Pow2(k) % 2 == 1
  }

  function Shr(x: nat, s: nat): nat {
    QuotientNonNegative(x, Pow2(s));
    x / Pow2(s)
  }

  /** Left shift in a 32-bit word: bits moved out of the word are lost. */
  function Shl32(x: nat, s: nat): u32 {
    x * Pow2(s) % TWO_32
  }

  function Shl64(x: nat, s: nat): u64 {
    x * Pow2(s) % TWO_64
  }

  ghost predicate IsPow2(x: nat) {
    exists k: nat :: x == Pow2(k)
  }

  // ---- powers of two

  lemma {:induction false} Pow2Add(a: nat, b: nat)
    ensures Pow2(a + b) == Pow2(a) * Pow2(b)
  {
    if a == 0 {
    } else {
      Pow2Add(a - 1, b);
      assert Pow2(a + b) == 2 * Pow2(a - 1 + b);
      assert Pow2(a) == 2 * Pow2(a - 1);
      hide Pow2;
    }
  }

  lemma {:induction false} Pow2Monotone(a: nat, b: nat)
    requires a < b
    ensures 2 * Pow2(a) <= Pow2(b)
  {
    if a + 1 < b {
      Pow2Monotone(a, b - 1);
    }
  }

  lemma Pow2Values()
    ensures Pow2(5) == 32 && Pow2(8) == 256 && Pow2(16) == 0x1_0000
    ensures Pow2(26) == 0x400_0000 && Pow2(27) == 0x800_0000 && Pow2(30) == 0x4000_0000 && Pow2(31) == 0x8000_0000
    ensures Pow2(32) == TWO_32 && Pow2(64) == TWO_64
  {
    assert Pow2(4) == 16;
    assert Pow2(8) == 256 by { Pow2Add(4, 4); }
    assert Pow2(16) == 0x1_0000 by { Pow2Add(8, 8); }
    assert Pow2(10) == 1024 by { Pow2Add(8, 2); }
    assert Pow2(26) == 0x400_0000 by { Pow2Add(16, 10); }
    assert Pow2(31) == 0x8000_0000 by { Pow2Add(26, 5); }
    assert Pow2(30) == 0x4000_0000 by { Pow2Add(26, 4); }
    assert Pow2(32) == TWO_32;
    Pow2Add(32, 32);
    hide Pow2;
    assert Pow2(64) == TWO_64;
  }

  // ---- the operators, bit by bit

  /** `And` is the conjunction of the two words, position by position. */
  lemma {:induction false} AndBits(x: nat, y: nat, k: nat)
    ensures Bit(And(x, y), k) <==> Bit(x, k) && Bit(y, k)
    decreases k
  {
    if x == 0 || y == 0 {
      assert And(x, y) == 0;
      hide And, Bit;
      BitOfZero(k);
    } else if k == 0 {
      AndStep(x, y);
      hide And, Bit;
      LowBit(x);
      LowBit(y);
      LowBit(And(x, y));
    } else {
      AndStep(x, y);
      hide And, Bit;
      AndBits(x / 2, y / 2, k - 1);
      ShiftedBit(And(x, y), k);
      ShiftedBit(x, k);
      ShiftedBit(y, k);
    }
  }

  /** `Or` is the disjunction of the two words, position by position. */
  lemma {:induction false} OrBits(x: nat, y: nat, k: nat)
    ensures Bit(Or(x, y), k) <==> Bit(x, k) || Bit(y, k)
    decreases k
  {
    if x == 0 {
      BitOfZero(k);
    } else if k == 0 {
      OrStep(x, y);
    } else {
      OrStep(x, y);
      hide Or, Bit;
      OrBits(x / 2, y / 2, k - 1);
      ShiftedBit(Or(x, y), k);
      ShiftedBit(x, k);
      ShiftedBit(y, k);
    }
  }

  lemma LowBit(x: nat)
    ensures Bit(x, 0) <==> x % 2 == 1
  {
  }

  lemma BitOfZero(k: nat)
    ensures !Bit(0, k)
  {
    QuotientIs(0, Pow2(k), 0, 0);
  }

  lemma AndStep(x: nat, y: nat)
    ensures And(x, y) / 2 == And(x / 2, y / 2)
    ensures And(x, y) % 2 == 1 <==> x % 2 == 1 && y % 2 == 1
  {
  }

  lemma OrStep(x: nat, y: nat)
    ensures Or(x, y) / 2 == Or(x / 2, y / 2)
    ensures Or(x, y) % 2 == 1 <==> x % 2 == 1 || y % 2 == 1
  {
  }

  lemma ShiftedBit(x: nat, k: nat)
    requires k > 0
    ensures Bit(x, k) <==> Bit(x / 2, k - 1)
  {
    DivDiv(x, 2, Pow2(k - 1));
  }

  lemma DivDiv(x: nat, a: nat, b: nat)
    requires a > 0 && b > 0
    ensures a * b > 0 && x / (a * b) == x / a / b
  {
    var y, s := x / a, x % a;
    var q, r := y / b, y % b;
    ScaledRemainder(r, s, a, b);
    assert x == y * a + s;
    assert y * a == (q * b) * a + r * a by { assert y == q * b + r; }
    assert (q * b) * a == q * (a * b);
    QuotientIs(x, a * b, q, r * a + s);
  }

  lemma ScaledRemainder(r: nat, s: nat, a: nat, b: nat)
    requires s < a && r < b
    ensures 0 <= r * a + s < a * b
  {
    var t := b - 1 - r;
    assert a * b == (r + t + 1) * a == r * a + t * a + a;
    assert r * a >= 0 && t * a >= 0;
  }

  /** Euclidean division is unique. */
  lemma QuotientIs(x: int, d: int, q: int, r: int)
    requires d > 0 && 0 <= r < d
    requires x == q * d + r
    ensures x / d == q && x % d == r
  {
    SameQuotient(d, q, r, x / d, x % d);
  }

  lemma SameQuotient(d: int, q: int, r: int, q': int, r': int)
    requires d > 0 && 0 <= r < d && 0 <= r' < d
    requires q * d + r == q' * d + r'
    ensures q == q' && r == r'
  {
    if q > q' {
      AtLeastOnce(q - q', d);
    } else if q < q' {
      AtLeastOnce(q' - q, d);
    }
  }

  lemma {:induction false} QuotientNonNegative(x: nat, d: nat)
    requires d > 0
    ensures x / d >= 0
  {
    if x < d {
      QuotientIs(x, d, 0, x);
    } else {
      QuotientNonNegative(x - d, d);
      QuotientIs(x, d, (x - d) / d + 1, (x - d) % d);
    }
  }

  lemma AtLeastOnce(n: int, d: int)
    requires n >= 1 && d > 0
    ensures n * d >= d
  {
    assert n * d == (n - 1) * d + d;
  }

  function Not64(x: u64): u64 {
    0xFFFF_FFFF_FFFF_FFFF - x
  }

  lemma NotBits(x: u64, k: nat)
    ensures Bit(Not64(x), k) <==> k < 64 && !Bit(x, k)
  {
    Pow2Values();
    ComplementBits(x, 64, k);
  }

  lemma {:induction false} ComplementBits(x: nat, w: nat, k: nat)
    requires x < Pow2(w)
    ensures Bit(Pow2(w) - 1 - x, k) <==> k < w && !Bit(x, k)
    decreases w
  {
    if w == 0 {
      BitOfZero(k);
    } else {
      ComplementHalves(Pow2(w), Pow2(w - 1), x);
      hide Bit, Pow2;
      if k == 0 {
        LowBit(Pow2(w) - 1 - x);
        LowBit(x);
      } else {
        ShiftedBit(Pow2(w) - 1 - x, k);
        ShiftedBit(x, k);
        ComplementBits(x / 2, w - 1, k - 1);
      }
    }
  }

  lemma ComplementHalves(p: nat, m: nat, x: nat)
    requires p == 2 * m && x < p
    ensures x / 2 < m && (p - 1 - x) / 2 == m - 1 - x / 2
    ensures (p - 1 - x) % 2 == 1 <==> x % 2 == 0
  {
  }

  /** A word is determined by its bits. */
  lemma {:induction false} SameBits(x: nat, y: nat)
    requires forall k: nat :: Bit(x, k) <==> Bit(y, k)
    ensures x == y
    decreases x + y
  {
    assert Bit(x, 0) <==> Bit(y, 0);
    if x > 0 || y > 0 {
      forall k: nat
        ensures Bit(x / 2, k) <==> Bit(y / 2, k)
      {
        ShiftedBit(x, k + 1);
        ShiftedBit(y, k + 1);
      }
      SameBits(x / 2, y / 2);
    }
  }

  lemma {:induction false} NoHighBits(x: nat, w: nat, k: nat)
    requires x < Pow2(w) && k >= w
    ensures !Bit(x, k)
    decreases k
  {
    if w == 0 {
      BitOfZero(k);
    } else {
      ShiftedBit(x, k);
      NoHighBits(x / 2, w - 1, k - 1);
    }
  }

  lemma {:induction false} OrBelow(x: nat, y: nat, w: nat)
    requires x < Pow2(w) && y < Pow2(w)
    ensures Or(x, y) < Pow2(w)
    decreases w
  {
    if w > 0 && x > 0 {
      OrBelow(x / 2, y / 2, w - 1);
    }
  }

  // ---- masks

  lemma {:induction false} AndCommutes(x: nat, y: nat)
    ensures And(x, y) == And(y, x)
  {
    if x != 0 && y != 0 {
      AndCommutes(x / 2, y / 2);
    }
  }

  /** Masking with the low `k` ones is reduction modulo `2^k`. */
  lemma {:induction false} AndLowMask(k: nat, x: nat)
    ensures And(Pow2(k) - 1, x) == x % Pow2(k)
  {
    if k == 0 {
    } else {
      AndLowMask(k - 1, x / 2);
      AndOnesStep(Pow2(k), Pow2(k - 1), x);
    }
  }

  lemma AndOnesStep(p: nat, m: nat, x: nat)
    requires p == 2 * m > 0 && And(m - 1, x / 2) == x / 2 % m
    ensures And(p - 1, x) == x % p
  {
    HalvedRemainder(x, m);
    var ones := p - 1;
    assert ones / 2 == m - 1 && ones % 2 == 1;
    assert And(ones, x) == x % 2 + 2 * And(m - 1, x / 2);
  }

  lemma HalvedRemainder(x: nat, m: nat)
    requires m > 0
    ensures x % (2 * m) == x % 2 + 2 * (x / 2 % m)
  {
    var h := x / 2;
    assert h == h / m * m + h % m;
    assert x == h / m * (2 * m) + (x % 2 + 2 * (h % m));
    QuotientIs(x, 2 * m, h / m, x % 2 + 2 * (h % m));
  }

  /** Masking with ones from position `f` up to `w` clears the low `f` bits of a `w`-bit word. */
  lemma {:induction false} AndHighMask(w: nat, f: nat, x: nat)
    requires f <= w && x < Pow2(w)
    ensures Pow2(f) <= Pow2(w)
    ensures And(Pow2(w) - Pow2(f), x) == x - x % Pow2(f)
    decreases w
  {
    hide And;
    if f == 0 {
      AndLowMask(w, x);
      QuotientIs(x, Pow2(w), 0, x);
    } else {
      AndHighMask(w - 1, f - 1, x / 2);
      AndZeroStep(Pow2(w) - Pow2(f), Pow2(w - 1) - Pow2(f - 1), Pow2(f), Pow2(f - 1), x);
    }
  }

  lemma AndZeroStep(z: nat, y: nat, p: nat, m: nat, x: nat)
    requires z == 2 * y && p == 2 * m > 0 && And(y, x / 2) == x / 2 - x / 2 % m
    ensures And(z, x) == x - x % p
  {
    HalvedRemainder(x, m);
    assert 2 * y / 2 == y && 2 * y % 2 == 0;
    assert And(2 * y, x) == 2 * And(y, x / 2);
  }

  /** Or-ing fields that do not overlap adds them. */
  lemma {:induction false} OrDisjoint(a: nat, k: nat, b: nat)
    requires b < Pow2(k)
    ensures Or(a * Pow2(k), b) == a * Pow2(k) + b
    decreases k
  {
    if a == 0 {
    } else if k == 0 {
      assert a * Pow2(k) == a;
      OrZero(a);
    } else {
      var m := Pow2(k - 1);
      OrDisjoint(a, k - 1, b / 2);
      Doubled(a, m);
      AtLeastOnce(a, m);
      OrStep(2 * (a * m), b);
    }
  }

  lemma {:induction false} OrZero(a: nat)
    ensures Or(a, 0) == a
  {
    if a > 0 {
      OrZero(a / 2);
    }
  }

  // ---- arithmetic modulo a power of two

  lemma Distribute(a: int, b: int, c: int)
    ensures a * (b + c) == a * b + a * c
  {
  }

  lemma Associate(a: int, b: int, c: int)
    ensures a * (b * c) == (a * b) * c
  {
  }

  lemma ModAbsorb(a: int, b: int, c: int, m: int)
    requires m > 0
    ensures (a + c * (b % m)) % m == (a + c * b) % m
  {
    var q := b / m;
    assert c * b == c * (b % m) + (c * q) * m by { assert b == q * m + b % m; }
    ModShift(a + c * (b % m), c * q, m);
  }

  lemma ModShift(x: int, q: int, m: int)
    requires m > 0
    ensures (x + q * m) % m == x % m
  {
    QuotientIs(x + q * m, m, x / m + q, x % m);
  }

  lemma ScaleMonotone(a: int, b: int, s: nat)
    requires a <= b
    ensures s * a <= s * b
  {
    Distribute(s, a, b - a);
    if b > a && s > 0 { AtLeastOnce(s, b - a); }
  }

  lemma QuotientLess(x: nat, s: nat, n: nat)
    requires s > 0 && x < n * s
    ensures x / s < n
  {
    var q, r := x / s, x % s;
    assert x == s * q + r;
    if q >= n {
      ScaleMonotone(n, q, s);
    }
  }

  /** Reducing modulo `a*b` first does not change the residue modulo `a`. */
  lemma ModMod(x: int, a: int, b: int)
    requires a > 0 && b > 0
    ensures a * b > 0 && x % (a * b) % a == x % a
  {
    var q := x / (a * b);
    assert x == x % (a * b) + (b * q) * a by { assert (a * b) * q == (b * q) * a; }
    ModShift(x % (a * b), b * q, a);
  }

  /** An odd factor can be cancelled from a multiple of a power of two. */
  lemma OddCancel(c: int, d: int, k: nat)
    requires c % 2 == 1
    requires c * d % Pow2(k) == 0
    ensures d % Pow2(k) == 0
  {
    var t := OddFactor(c, d, c * d / Pow2(k), k);
    QuotientIs(d, Pow2(k), t, 0);
  }

  lemma {:induction false} OddFactor(c: int, d: int, q: int, k: nat) returns (t: int)
    requires c % 2 == 1
    requires c * d == q * Pow2(k)
    ensures d == t * Pow2(k)
    decreases k
  {
    if k == 0 {
      t := d;
    } else {
      var m := Pow2(k - 1);
      HalveProduct(c, d, q, m);
      t := OddFactor(c, d / 2, q, k - 1);
      Doubled(t, m);
    }
  }

  lemma HalveProduct(c: int, d: int, q: int, m: int)
    requires c % 2 == 1 && c * d == q * (2 * m)
    ensures d == 2 * (d / 2) && c * (d / 2) == q * m
  {
    var h, z := d / 2, q * m;
    Doubled(q, m);
    OddTimes(c, d);
    assert c * d == 2 * z;
    assert d == 2 * h;
    Doubled(c, h);
  }

  lemma Doubled(a: int, b: int)
    ensures a * (2 * b) == 2 * (a * b)
  {
  }

  lemma EvenPart(z: int, d: int)
    ensures (2 * z + d) % 2 == d % 2
  {
  }

  lemma OddTimes(c: int, d: int)
    requires c % 2 == 1
    ensures c * d % 2 == d % 2
  {
    var a := c / 2;
    var z := a * d;
    assert c * d == (2 * a + 1) * d == 2 * z + d;
    EvenPart(z, d);
  }

  lemma EvenTimes(c: int, d: int)
    requires c % 2 == 0
    ensures c * d % 2 == 0
  {
    var h := c / 2;
    assert c * d == (2 * h) * d == 2 * (h * d);
  }

  lemma SameResidue(x: int, y: int, m: int)
    requires m > 0
    ensures x % m == y % m <==> (x - y) % m == 0
  {
    assert x - y == (x / m - y / m) * m + (x % m - y % m);
    if x % m == y % m {
      QuotientIs(x - y, m, x / m - y / m, 0);
    }
    if (x - y) % m == 0 {
      var q := (x - y) / m;
      ModShift(y, q, m);
    }
  }
}
