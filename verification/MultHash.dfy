/** hash.h and hashtable.h: multiply by an odd constant and keep the top bits. */
module MultHash {
  import opened Bits
  import opened Counting
  import opened Rounding

  const GOLDEN_RATIO_32: u32 := 0x61C8_8647
  const GOLDEN_RATIO_64: u64 := 0x61C8_8646_80B5_83EB

  /** The factors that undo the two multiplications. */
  const INVERSE_32: u32 := 0xEBB3_4377
  const INVERSE_64: u64 := 0x0E21_7C1E_66C8_8CC3

  /** `__hash_32` */
  function Product32(val: u32): u32 {
    val * GOLDEN_RATIO_32 % TWO_32
  }

  function Product64(val: u64): u64 {
    val * GOLDEN_RATIO_64 % TWO_64
  }

  /** A shift by the full word width, `bits == 0`, is undefined. */
  function Hash32(val: u32, bits: nat): u32
    requires 1 <= bits <= 32
  {
    TopBitsFit(val * GOLDEN_RATIO_32, TWO_32, 32 - bits);
    Shr(Product32(val), 32 - bits)
  }

  function Hash64(val: u64, bits: nat): u32
    requires 1 <= bits <= 64
  {
    Shr(Product64(val), 64 - bits) % TWO_32
  }

  lemma TopBitsFit(x: nat, m: nat, s: nat)
    requires m > 0
    ensures Shr(x % m, s) < m
  {
    QuotientBelow(x % m, Pow2(s), m);
  }

  lemma QuotientBelow(x: nat, d: nat, m: nat)
    requires d > 0 && x < m
    ensures 0 <= x / d < m
  {
    QuotientNonNegative(x, d);
    ScaleMonotone(1, d, x / d);
  }

  // ---- balance

  /** The keys below `m` whose product, cut into blocks of `s`, falls in block `b`. */
  ghost function BlockKeys(factor: nat, m: nat, s: nat, b: nat): set<nat>
    requires m > 0 && s > 0
  {
    set v: nat | v < m && Times(v, factor, m) / s == b
  }

  function Times(v: nat, factor: nat, m: nat): nat
    requires m > 0
  {
    v * factor % m
  }

  /** Multiplying by `inverse` after `factor` gives back any residue. */
  lemma Undone(v: nat, factor: nat, inverse: nat, m: nat)
    requires v < m && factor * inverse % m == 1
    ensures v * factor % m * inverse % m == v
  {
    var p := v * factor;
    var q, t := p / m, factor * inverse / m;
    assert p == q * m + p % m;
    assert factor * inverse == t * m + 1;
    assert p * inverse == v * (factor * inverse) == v * (t * m + 1) by {
      Associate(v, factor, inverse);
    }
    Distribute(v, t * m, 1);
    Associate(v, t, m);
    assert p * inverse == (v * t) * m + v;
    ModAbsorb(0, p, inverse, m);
    assert inverse * (p % m) == p % m * inverse && inverse * p == p * inverse;
    QuotientIs(p * inverse, m, v * t, v);
  }

  lemma BlockIff(x: nat, s: nat, b: nat)
    requires s > 0
    ensures x / s == b <==> b * s <= x < b * s + s
  {
    if b * s <= x < b * s + s {
      QuotientIs(x, s, b, x - b * s);
    }
  }

  /** Multiplication by a unit sends the same number of keys into every block. */
  lemma Balanced(factor: nat, inverse: nat, m: nat, s: nat, n: nat, b: nat)
    requires s > 0 && m == n * s && b < n
    requires factor * inverse % m == 1
    ensures m > 0 && |BlockKeys(factor, m, s, b)| == s
  {
    hide Times, Interval;
    AtLeastOnce(n, s);
    BlockInside(n, s, b);
    var lo := b * s;
    var f := (v: nat) => Times(v, factor, m);
    var g := (x: nat) => Times(x, inverse, m);
    var keys, block := BlockKeys(factor, m, s, b), Interval(lo, lo + s);
    forall v | v in keys
      ensures f(v) in block && g(f(v)) == v
    {
      KeyToBlock(v, factor, inverse, m, s, b);
    }
    forall x | x in block
      ensures g(x) in keys && f(g(x)) == x
    {
      BlockToKey(x, factor, inverse, m, s, b);
    }
    Bijection(keys, block, f, g);
    IntervalSize(lo, lo + s);
  }

  lemma KeyToBlock(v: nat, factor: nat, inverse: nat, m: nat, s: nat, b: nat)
    requires s > 0 && v < m && factor * inverse % m == 1 && Times(v, factor, m) / s == b
    ensures b * s <= Times(v, factor, m) < b * s + s
    ensures Times(Times(v, factor, m), inverse, m) == v
  {
    BlockIff(v * factor % m, s, b);
    Undone(v, factor, inverse, m);
  }

  lemma BlockToKey(x: nat, factor: nat, inverse: nat, m: nat, s: nat, b: nat)
    requires s > 0 && m > 0 && factor * inverse % m == 1 && b * s <= x < b * s + s <= m
    ensures Times(x, inverse, m) < m
    ensures Times(Times(x, inverse, m), factor, m) == x && x / s == b
  {
    assert inverse * factor == factor * inverse;
    Undone(x, inverse, factor, m);
    BlockIff(x, s, b);
  }

  lemma BlockInside(n: nat, s: nat, b: nat)
    requires b < n
    ensures 0 <= b * s && b * s + s <= n * s
  {
    var r := n - 1 - b;
    assert n * s == (b + 1 + r) * s == b * s + s + r * s;
    assert r * s >= 0;
  }

  /** Every one of the `2^bits` buckets has exactly `2^(32-bits)` of the 32-bit keys. */
  lemma Hash32Balanced(bits: nat, b: nat)
    requires 1 <= bits <= 32 && b < Pow2(bits)
    ensures |set v: u32 | v < TWO_32 && Hash32(v, bits) == b| == Pow2(32 - bits)
  {
    hide Pow2;
    Pow2Values();
    Pow2Add(bits, 32 - bits);
    Balanced(GOLDEN_RATIO_32, INVERSE_32, TWO_32, Pow2(32 - bits), Pow2(bits), b);
    var keys := set v: u32 | v < TWO_32 && Hash32(v, bits) == b;
    var block := BlockKeys(GOLDEN_RATIO_32, TWO_32, Pow2(32 - bits), b);
    Bijection(keys, block, v => v, v => v);
  }

  /** Up to 32 bits the cast to `u32` loses nothing, and the 64-bit keys are as balanced. */
  lemma Hash64Balanced(bits: nat, b: nat)
    requires 1 <= bits <= 32 && b < Pow2(bits)
    ensures |set v: u64 | v < TWO_64 && Hash64(v, bits) == b| == Pow2(64 - bits)
  {
    hide Pow2;
    Pow2Values();
    Pow2Add(bits, 64 - bits);
    Balanced(GOLDEN_RATIO_64, INVERSE_64, TWO_64, Pow2(64 - bits), Pow2(bits), b);
    var keys := set v: u64 | v < TWO_64 && Hash64(v, bits) == b;
    var block := BlockKeys(GOLDEN_RATIO_64, TWO_64, Pow2(64 - bits), b);
    forall v: u64
      ensures Hash64(v, bits) == Shr(v * GOLDEN_RATIO_64 % TWO_64, 64 - bits)
    {
      Hash64Untruncated(v, bits);
    }
    Bijection(keys, block, v => v, v => v);
  }

  // ---- bounds

  lemma TopBitsBound(x: nat, bits: nat, width: nat)
    requires bits <= width && x < Pow2(width)
    ensures Shr(x, width - bits) < Pow2(bits)
  {
    hide Pow2;
    Pow2Add(bits, width - bits);
    QuotientLess(x, Pow2(width - bits), Pow2(bits));
  }

  lemma Hash64Untruncated(val: u64, bits: nat)
    requires 1 <= bits <= 32
    ensures Hash64(val, bits) == Shr(val * GOLDEN_RATIO_64 % TWO_64, 64 - bits) < Pow2(bits)
  {
    hide Pow2, Shr;
    Pow2Values();
    var top := Shr(val * GOLDEN_RATIO_64 % TWO_64, 64 - bits);
    TopBitsBound(val * GOLDEN_RATIO_64 % TWO_64, bits, 64);
    if bits < 32 { Pow2Monotone(bits, 32); }
    QuotientIs(top, TWO_32, 0, top);
  }

  lemma Hash32Bound(val: u32, bits: nat)
    requires 1 <= bits <= 32
    ensures Hash32(val, bits) < Pow2(bits)
  {
    Pow2Values();
    TopBitsBound(val * GOLDEN_RATIO_32 % TWO_32, bits, 32);
  }

  /** `hash_min`: keys of at most four bytes go through `hash_32`. */
  function HashMin(val: u64, wide: bool, bits: nat): u32
    requires 1 <= bits <= 32
    requires !wide ==> val < TWO_32
  {
    if wide then Hash64(val, bits) else Hash32(val, bits)
  }

  /** Narrow keys: at full width `hash_min` is additive and sends 1 to the golden ratio, which says
      what it is for every key; at a smaller width it keeps the top bits. */
  lemma NarrowKeysMultiply(a: u32, b: u32, bits: nat)
    requires 1 <= bits <= 32
    ensures HashMin(1, false, 32) == 0x61C8_8647
    ensures HashMin((a + b) % TWO_32, false, 32) == (HashMin(a, false, 32) + HashMin(b, false, 32)) % TWO_32
    ensures HashMin(a, false, bits) == Shr(HashMin(a, false, 32), 32 - bits)
  {
    FullWidth(Product32(a));
    FullWidth(Product32(b));
    FullWidth(Product32((a + b) % TWO_32));
    FullWidth(Product32(1));
    ProductAdds(a, b, GOLDEN_RATIO_32, TWO_32);
  }

  /** Wide keys: the product is additive and sends 1 to the golden ratio; `hash_min` keeps its top
      bits, of which the cast loses none. */
  lemma WideKeysMultiply(a: u64, b: u64, bits: nat)
    requires 1 <= bits <= 32
    ensures Product64(1) == 0x61C8_8646_80B5_83EB
    ensures Product64((a + b) % TWO_64) == (Product64(a) + Product64(b)) % TWO_64
    ensures HashMin(a, true, bits) == Shr(Product64(a), 64 - bits)
  {
    ProductAdds(a, b, GOLDEN_RATIO_64, TWO_64);
    Hash64Untruncated(a, bits);
  }

  lemma FullWidth(x: nat)
    ensures Shr(x, 0) == x
  {
    assert Pow2(0) == 1;
  }

  lemma ProductAdds(a: nat, b: nat, factor: nat, m: nat)
    requires m > 0
    ensures (a + b) % m * factor % m == (a * factor % m + b * factor % m) % m
  {
    var p, q := a * factor, b * factor;
    ModAbsorb(0, a + b, factor, m);
    assert factor * (a + b) == p + q;
    assert factor * ((a + b) % m) == (a + b) % m * factor;
    ModAbsorb(q % m, p, 1, m);
    ModAbsorb(p, q, 1, m);
  }

  /** Every bucket gets the same number of the narrow keys, and the same number of the wide ones. */
  lemma HashMinBalanced(bits: nat, b: nat)
    requires 1 <= bits <= 32 && b < Pow2(bits)
    ensures |set v: u32 | v < TWO_32 && HashMin(v, false, bits) == b| == Pow2(32 - bits)
    ensures |set v: u64 | v < TWO_64 && HashMin(v, true, bits) == b| == Pow2(64 - bits)
  {
    Hash32Balanced(bits, b);
    Hash64Balanced(bits, b);
    hide Hash32, Hash64, Pow2;
    assert (set v: u32 | v < TWO_32 && HashMin(v, false, bits) == b) ==
           set v: u32 | v < TWO_32 && Hash32(v, bits) == b;
    assert (set v: u64 | v < TWO_64 && HashMin(v, true, bits) == b) ==
           set v: u64 | v < TWO_64 && Hash64(v, bits) == b;
  }

  /** The least exponent `HASH_BITS` finds for an array of `size` heads. */
  ghost predicate LeastExponent(l: nat, size: nat) {
    size <= Pow2(l) && forall k: nat :: size <= Pow2(k) ==> l <= k
  }

  /** The head that `hash_add` and `hash_for_each_possible` pick in an array of `size` heads. */
  method HeadIndex(size: u32, val: u64, wide: bool) returns (i: u32)
    requires 2 <= size <= 0x8000_0000
    requires !wide ==> val < TWO_32
    ensures IsPow2(size) ==> i < size
    ensures forall l: nat :: LeastExponent(l, size) ==> 1 <= l <= 31 && i == HashMin(val, wide, l)
  {
    var l := Ilog2(size);
    ghost var one := Pow2(0);
    if l == 0 {
      assert false;
    }
    i := HashMin(val, wide, l);
    HashMinBound(val, wide, l);
    if IsPow2(size) {
      var k: nat :| size == Pow2(k);
      assert size <= Pow2(k);
      PowerBelow(l, k);
    }
  }

  lemma HashMinBound(val: u64, wide: bool, bits: nat)
    requires 1 <= bits <= 32
    requires !wide ==> val < TWO_32
    ensures HashMin(val, wide, bits) < Pow2(bits)
  {
    if wide { Hash64Untruncated(val, bits); } else { Hash32Bound(val, bits); }
  }

  /** For a declared table of `1 << bits` heads `HASH_BITS` recovers `bits`. */
  lemma DeclaredBits(bits: nat, l: nat)
    requires LeastExponent(l, Pow2(bits))
    ensures l == bits
  {
    PowerBelow(l, bits);
    assert Pow2(bits) <= Pow2(bits);
  }

  /** The index is in range for every key exactly when the number of heads is a power of two:
      otherwise the rounded-up width has buckets past the end, and balance puts keys in them. */
  lemma InRangeIffPowerOfTwo(size: u32, l: nat)
    requires 2 <= size <= 0x8000_0000 && LeastExponent(l, size) && 1 <= l <= 31
    ensures (forall v: u32 :: HashMin(v, false, l) < size) <==> IsPow2(size)
    ensures (forall v: u64 :: HashMin(v, true, l) < size) <==> IsPow2(size)
  {
    hide Hash32, Hash64;
    if IsPow2(size) {
      var k: nat :| size == Pow2(k);
      DeclaredBits(k, l);
      forall v: u32 ensures HashMin(v, false, l) < size { HashMinBound(v, false, l); }
      forall v: u64 ensures HashMin(v, true, l) < size { HashMinBound(v, true, l); }
    } else {
      assert size < Pow2(l);
      HashMinBalanced(l, size);
      var a := set v: u32 | v < TWO_32 && HashMin(v, false, l) == size;
      assert a != {};
      var x :| x in a;
      var b := set v: u64 | v < TWO_64 && HashMin(v, true, l) == size;
      assert b != {};
      var y :| y in b;
    }
  }
}
