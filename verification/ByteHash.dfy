/** The polynomial byte hash: `hashCode = byte + coefficient * hashCode` in 64-bit arithmetic. */
module ByteHash {
  import opened Bits

  const SEED: u64 := 314159
  const COEFFICIENT: u64 := 37

  /** The same fold over the integers, without the wrap-around. */
  function Exact(bytes: seq<u8>, seed: nat, c: nat): nat {
    if bytes == [] then seed
    else bytes[|bytes| - 1] + c * Exact(bytes[..|bytes| - 1], seed, c)
  }

  function Hash(bytes: seq<u8>, seed: u64, c: u64): u64 {
    Exact(bytes, seed, c) % TWO_64
  }

  lemma HashSnoc(bytes: seq<u8>, b: u8, seed: u64, c: u64)
    ensures Hash(bytes + [b], seed, c) == (b + c * Hash(bytes, seed, c)) % TWO_64
  {
    assert (bytes + [b])[..|bytes|] == bytes;
    ModAbsorb(b, Exact(bytes, seed, c), c, TWO_64);
  }

  /** `size_t` sizes from `2^31` on would overflow the loop's `int` index. */
  method HashBytesGeneric(bytes: array<u8>, size: nat, kMagicNum: u64, coefficient: u64) returns (hashCode: u64)
    requires size <= bytes.Length && size < 0x8000_0000
    ensures hashCode == Hash(bytes[..size], kMagicNum, coefficient)
  {
    hashCode := kMagicNum;
    assert Exact([], kMagicNum, coefficient) == kMagicNum;
    hide Hash, Exact;
    for i := 0 to size
      invariant hashCode == Hash(bytes[..i], kMagicNum, coefficient)
    {
      HashSnoc(bytes[..i], bytes[i], kMagicNum, coefficient);
      assert bytes[..i + 1] == bytes[..i] + [bytes[i]];
      hashCode := (bytes[i] + coefficient * hashCode) % TWO_64;
    }
  }

  function HashBytes(bytes: seq<u8>): u64 {
    Hash(bytes, SEED, COEFFICIENT)
  }

  /** The bytes of a little-endian word. */
  function LittleEndian(value: nat, n: nat): (bytes: seq<u8>)
    ensures |bytes| == n
  {
    if n == 0 then [] else [value % 0x100] + LittleEndian(value / 0x100, n - 1)
  }

  function HashUlongPtr(value: u64): u64 {
    HashBytes(LittleEndian(value, 8))
  }

  /** The word a little-endian byte string stands for. */
  function Value(bytes: seq<u8>): nat {
    if bytes == [] then 0 else bytes[0] + 0x100 * Value(bytes[1..])
  }

  /** The bytes of a word of `n` bytes stand for the word. */
  lemma {:induction false} WordOfBytes(value: nat, n: nat)
    requires value < Pow2(8 * n)
    ensures Value(LittleEndian(value, n)) == value
    decreases n
  {
    if n > 0 {
      BytePowers(n);
      QuotientLess(value, 0x100, Pow2(8 * (n - 1)));
      WordOfBytes(value / 0x100, n - 1);
    }
  }

  /** Byte `i` is bits `8*i` to `8*i+7`. */
  lemma {:induction false} ByteAt(value: nat, n: nat, i: nat)
    requires i < n
    ensures LittleEndian(value, n)[i] == Shr(value, 8 * i) % 0x100
    decreases n
  {
    if i > 0 {
      ByteAt(value / 0x100, n - 1, i - 1);
      BytePowers(i);
      DivDiv(value, 0x100, Pow2(8 * (i - 1)));
    } else {
      assert Pow2(0) == 1;
    }
  }

  lemma BytePowers(n: nat)
    requires n > 0
    ensures Pow2(8 * n) == 0x100 * Pow2(8 * (n - 1))
  {
    hide Pow2;
    Pow2Values();
    Pow2Add(8, 8 * (n - 1));
    assert 8 + 8 * (n - 1) == 8 * n;
  }

  /** The hash in the constants of the source: from 314159, times 37 plus the next byte. */
  lemma HashBytesSteps(bytes: seq<u8>, b: u8)
    ensures HashBytes([]) == 314159
    ensures HashBytes(bytes + [b]) == (b + 37 * HashBytes(bytes)) % 0x1_0000_0000_0000_0000
  {
    HashSnoc(bytes, b, SEED, COEFFICIENT);
  }

  // ---- closed form

  function Power(c: nat, n: nat): nat {
    if n == 0 then 1 else c * Power(c, n - 1)
  }

  /** The sum of `c^(n-1-i) * bytes[i]`. */
  function Weighted(bytes: seq<u8>, c: nat): nat {
    if bytes == [] then 0 else Power(c, |bytes| - 1) * bytes[0] + Weighted(bytes[1..], c)
  }

  /** The loop computes `c^n * seed + sum of c^(n-1-i) * bytes[i]`, modulo `2^64`. */
  lemma HashClosedForm(bytes: seq<u8>, seed: u64, c: u64)
    ensures Hash(bytes, seed, c) == (Power(c, |bytes|) * seed + Weighted(bytes, c)) % TWO_64
  {
    ExactClosedForm(bytes, seed, c);
  }

  lemma {:induction false} ExactClosedForm(bytes: seq<u8>, seed: nat, c: nat)
    ensures Exact(bytes, seed, c) == Power(c, |bytes|) * seed + Weighted(bytes, c)
  {
    if bytes != [] {
      var n := |bytes| - 1;
      ExactClosedForm(bytes[..n], seed, c);
      WeightedSnoc(bytes[..n], bytes[n], c);
      assert bytes == bytes[..n] + [bytes[n]];
      Distribute(c, Power(c, n) * seed, Weighted(bytes[..n], c));
      Associate(c, Power(c, n), seed);
    }
  }

  lemma {:induction false} WeightedSnoc(bytes: seq<u8>, b: u8, c: nat)
    ensures Weighted(bytes + [b], c) == c * Weighted(bytes, c) + b
  {
    if bytes == [] {
      assert [b][1..] == [];
      assert Weighted([b], c) == Power(c, 0) * b + Weighted([], c);
    } else {
      WeightedSnoc(bytes[1..], b, c);
      assert (bytes + [b])[1..] == bytes[1..] + [b];
      var p := Power(c, |bytes| - 1);
      Distribute(c, p * bytes[0], Weighted(bytes[1..], c));
      Associate(c, p, bytes[0]);
    }
  }

  /** Hashing a concatenation is hashing the second part, seeded with the hash of the first. */
  lemma HashConcat(a: seq<u8>, b: seq<u8>, seed: u64, c: u64)
    ensures Hash(a + b, seed, c) == Hash(b, Hash(a, seed, c), c)
  {
    ExactConcat(a, b, seed, c);
    SeedModulo(b, Exact(a, seed, c), c);
  }

  lemma {:induction false} ExactConcat(a: seq<u8>, b: seq<u8>, seed: nat, c: nat)
    ensures Exact(a + b, seed, c) == Exact(b, Exact(a, seed, c), c)
  {
    if b == [] {
      assert a + b == a;
    } else {
      var n := |b| - 1;
      assert (a + b)[..|a + b| - 1] == a + b[..n];
      ExactConcat(a, b[..n], seed, c);
    }
  }

  lemma SeedModulo(bytes: seq<u8>, seed: nat, c: nat)
    ensures Exact(bytes, seed % TWO_64, c) % TWO_64 == Exact(bytes, seed, c) % TWO_64
  {
    ExactClosedForm(bytes, seed, c);
    ExactClosedForm(bytes, seed % TWO_64, c);
    ModAbsorb(Weighted(bytes, c), seed, Power(c, |bytes|), TWO_64);
  }

  // ---- injectivity

  lemma {:induction false} PowerParity(c: nat, n: nat)
    requires n > 0
    ensures Power(c, n) % 2 == c % 2
  {
    if n > 1 {
      PowerParity(c, n - 1);
    }
    var p := Power(c, n - 1);
    if c % 2 == 1 {
      OddTimes(c, p);
    } else {
      EvenTimes(c, p);
    }
  }

  /** Over a non-empty input the hash determines its seed exactly when the coefficient is odd. */
  lemma SeedInjectiveIffOdd(bytes: seq<u8>, c: u64)
    requires bytes != []
    ensures (forall s: u64, t: u64 :: Hash(bytes, s, c) == Hash(bytes, t, c) ==> s == t) <==> c % 2 == 1
  {
    var p := Power(c, |bytes|);
    PowerParity(c, |bytes|);
    if c % 2 == 1 {
      forall s: u64, t: u64 | Hash(bytes, s, c) == Hash(bytes, t, c)
        ensures s == t
      {
        OddPowerSeparates(bytes, s, t, c);
      }
    } else {
      var top: u64 := 0x8000_0000_0000_0000;
      ExactClosedForm(bytes, top, c);
      ExactClosedForm(bytes, 0, c);
      assert p * top == (p / 2) * TWO_64;
      ModShift(Weighted(bytes, c), p / 2, TWO_64);
      assert Hash(bytes, top, c) == Hash(bytes, 0, c);
    }
  }

  lemma OddPowerSeparates(bytes: seq<u8>, s: u64, t: u64, c: u64)
    requires bytes != [] && c % 2 == 1
    requires Hash(bytes, s, c) == Hash(bytes, t, c)
    ensures s == t
  {
    var p := Power(c, |bytes|);
    PowerParity(c, |bytes|);
    Pow2Values();
    ExactClosedForm(bytes, s, c);
    ExactClosedForm(bytes, t, c);
    SameResidue(Exact(bytes, s, c), Exact(bytes, t, c), TWO_64);
    var d: int := (s as int) - (t as int);
    Distribute(p, t, d);
    OddCancel(p, d, 64);
    SmallMultiple(d, TWO_64);
  }

  lemma SmallMultiple(d: int, m: int)
    requires m > 0 && d % m == 0 && -m < d < m
    ensures d == 0
  {
    var q := d / m;
    assert d == q * m;
    if q >= 1 { AtLeastOnce(q, m); }
    if q <= -1 { AtLeastOnce(-q, m); }
  }

  // ---- the exact range of an eight-byte key

  /** Hashing an eight-byte key never wraps: it is the integer polynomial itself. */
  lemma UlongPtrNeverWraps(value: u64)
    ensures HashUlongPtr(value) == Exact(LittleEndian(value, 8), SEED, COEFFICIENT)
  {
    var b := LittleEndian(value, 8);
    ExactAtMost(b);
    assert Ceiling(8) < TWO_64 by { CeilingValues(); }
    QuotientIs(Exact(b, SEED, COEFFICIENT), TWO_64, 0, Exact(b, SEED, COEFFICIENT));
  }

  /** One more byte always takes the integer polynomial past 64 bits. */
  lemma NineBytesAlwaysExceed(bytes: seq<u8>)
    requires |bytes| >= 9
    ensures Exact(bytes, SEED, COEFFICIENT) > TWO_64
  {
    ExactAtLeast(bytes);
    FloorGrows(9, |bytes|);
    assert Floor(9) > TWO_64 by { CeilingValues(); }
  }

  /** The fold over `n` bytes of `0xff`, respectively of zero. */
  function Ceiling(n: nat): nat {
    if n == 0 then SEED else 0xff + COEFFICIENT * Ceiling(n - 1)
  }

  function Floor(n: nat): nat {
    if n == 0 then SEED else COEFFICIENT * Floor(n - 1)
  }

  lemma CeilingValues()
    ensures Ceiling(8) < TWO_64 < Floor(9)
  {
    assert Ceiling(2) == 430093361;
    assert Ceiling(4) == 37 * (37 * 430093361 + 255) + 255;
    assert Ceiling(6) == 37 * (37 * Ceiling(4) + 255) + 255;
    assert Ceiling(8) == 37 * (37 * Ceiling(6) + 255) + 255;
    assert Floor(3) == 37 * 37 * 37 * 314159;
    assert Floor(6) == 37 * 37 * 37 * Floor(3);
    assert Floor(9) == 37 * 37 * 37 * Floor(6);
  }

  lemma {:induction false} ExactAtMost(bytes: seq<u8>)
    ensures Exact(bytes, SEED, COEFFICIENT) <= Ceiling(|bytes|)
  {
    if bytes != [] {
      ExactAtMost(bytes[..|bytes| - 1]);
    }
  }

  lemma {:induction false} ExactAtLeast(bytes: seq<u8>)
    ensures Floor(|bytes|) <= Exact(bytes, SEED, COEFFICIENT)
  {
    if bytes != [] {
      ExactAtLeast(bytes[..|bytes| - 1]);
    }
  }

  lemma {:induction false} FloorGrows(m: nat, n: nat)
    requires m <= n
    ensures Floor(m) <= Floor(n)
  {
    if m < n {
      FloorGrows(m, n - 1);
    }
  }

  // ---- keys that differ in one byte

  /** The byte strings differ at position `p` and nowhere else. */
  ghost predicate DifferOnlyAt(a: seq<u8>, b: seq<u8>, p: nat) {
    p < |a| == |b| && a[p] != b[p] && forall i :: 0 <= i < |a| && i != p ==> a[i] == b[i]
  }

  /** How far apart the strings are at position `p`. */
  function Gap(a: seq<u8>, b: seq<u8>, p: nat): int
    requires p < |a| && p < |b|
  {
    (a[p] as int) - (b[p] as int)
  }

  lemma {:induction false} ExactDifference(a: seq<u8>, b: seq<u8>, p: nat, seed: nat, c: nat)
    requires DifferOnlyAt(a, b, p)
    ensures Exact(a, seed, c) == Exact(b, seed, c) + Power(c, |a| - 1 - p) * Gap(a, b, p)
  {
    var n := |a| - 1;
    if p == n {
      assert a[..n] == b[..n];
    } else {
      var x, y := a[..n], b[..n];
      assert DifferOnlyAt(x, y, p);
      ExactDifference(x, y, p, seed, c);
      var w := Power(c, n - 1 - p);
      Distribute(c, Exact(y, seed, c), w * Gap(a, b, p));
      Associate(c, w, Gap(a, b, p));
    }
  }

  /** Two different words agree above and below byte `p`. */
  ghost predicate OneByteApart(x: nat, y: nat, p: nat) {
    x != y && Shr(x, 8 * p + 8) == Shr(y, 8 * p + 8) && x % Pow2(8 * p) == y % Pow2(8 * p)
  }

  /** That is what it means for their bytes to differ at `p` and nowhere else. */
  lemma {:induction false} OneByteApartIff(x: nat, y: nat, n: nat, p: nat)
    requires x < Pow2(8 * n) && y < Pow2(8 * n)
    ensures OneByteApart(x, y, p) <==> DifferOnlyAt(LittleEndian(x, n), LittleEndian(y, n), p)
    decreases n
  {
    if n == 0 {
    } else {
      BytePowers(n);
      QuotientLess(x, 0x100, Pow2(8 * (n - 1)));
      QuotientLess(y, 0x100, Pow2(8 * (n - 1)));
      var a, b := LittleEndian(x / 0x100, n - 1), LittleEndian(y / 0x100, n - 1);
      if p == 0 {
        SameBytes(x / 0x100, y / 0x100, n - 1);
        FrontDiffers(x % 0x100, a, y % 0x100, b);
        assert Pow2(0) == 1 && Pow2(8) == 0x100 by { Pow2Values(); }
      } else {
        OneByteApartIff(x / 0x100, y / 0x100, n - 1, p - 1);
        BehindDiffers(x % 0x100, a, y % 0x100, b, p);
        ApartBehind(x, y, p);
      }
    }
  }

  lemma SameBytes(x: nat, y: nat, n: nat)
    requires x < Pow2(8 * n) && y < Pow2(8 * n)
    ensures LittleEndian(x, n) == LittleEndian(y, n) <==> x == y
  {
    WordOfBytes(x, n);
    WordOfBytes(y, n);
  }

  lemma FrontDiffers(x: u8, a: seq<u8>, y: u8, b: seq<u8>)
    requires |a| == |b|
    ensures DifferOnlyAt([x] + a, [y] + b, 0) <==> x != y && a == b
  {
    if DifferOnlyAt([x] + a, [y] + b, 0) {
      forall i | 0 <= i < |a|
        ensures a[i] == b[i]
      {
        assert ([x] + a)[i + 1] == a[i] && ([y] + b)[i + 1] == b[i];
      }
    }
  }

  lemma BehindDiffers(x: u8, a: seq<u8>, y: u8, b: seq<u8>, p: nat)
    requires |a| == |b| && p > 0
    ensures DifferOnlyAt([x] + a, [y] + b, p) <==> x == y && DifferOnlyAt(a, b, p - 1)
  {
    if DifferOnlyAt([x] + a, [y] + b, p) {
      assert ([x] + a)[0] == x && ([y] + b)[0] == y;
      forall i | 0 <= i < |a|
        ensures a[i] == b[i] <==> i != p - 1
      {
        assert ([x] + a)[i + 1] == a[i] && ([y] + b)[i + 1] == b[i];
      }
    }
  }

  lemma ApartBehind(x: nat, y: nat, p: nat)
    requires p > 0
    ensures OneByteApart(x, y, p) <==> x % 0x100 == y % 0x100 && OneByteApart(x / 0x100, y / 0x100, p - 1)
  {
    BytePowers(p);
    BytePowers(p + 1);
    var m := Pow2(8 * (p - 1));
    DivDiv(x, 0x100, Pow2(8 * p));
    DivDiv(y, 0x100, Pow2(8 * p));
    SplitRemainder(x, 0x100, m);
    SplitRemainder(y, 0x100, m);
  }

  lemma SplitRemainder(x: nat, a: nat, b: nat)
    requires a > 0 && b > 0
    ensures a * b > 0 && x % (a * b) == x % a + a * (x / a % b)
    ensures x % (a * b) % a == x % a && x % (a * b) / a == x / a % b
  {
    var y, s := x / a, x % a;
    var q, r := y / b, y % b;
    ScaledRemainder(r, s, a, b);
    assert x == y * a + s;
    assert y * a == (q * b) * a + r * a by { assert y == q * b + r; }
    assert (q * b) * a == q * (a * b);
    QuotientIs(x, a * b, q, r * a + s);
    QuotientIs(r * a + s, a, r, s);
  }

  /** Two words that differ in exactly one byte have hashes that never agree modulo `2^k` when
      `k >= 8`. */
  lemma OneByteSeparates(x: u64, y: u64, p: nat, k: nat)
    requires OneByteApart(x, y, p) && k >= 8
    ensures HashUlongPtr(x) % Pow2(k) != HashUlongPtr(y) % Pow2(k)
  {
    hide HashUlongPtr, LittleEndian, Pow2, OneByteApart;
    Pow2Values();
    OneByteApartIff(x, y, 8, p);
    BytesSeparate(x, y, p, k);
  }

  lemma BytesSeparate(x: u64, y: u64, p: nat, k: nat)
    requires DifferOnlyAt(LittleEndian(x, 8), LittleEndian(y, 8), p)
    requires k >= 8
    ensures HashUlongPtr(x) % Pow2(k) != HashUlongPtr(y) % Pow2(k)
  {
    hide HashUlongPtr, Exact, Power, LittleEndian, Pow2;
    var a, b := LittleEndian(x, 8), LittleEndian(y, 8);
    UlongPtrNeverWraps(x);
    UlongPtrNeverWraps(y);
    ExactDifference(a, b, p, SEED, COEFFICIENT);
    WeightedGapIsNoMultiple(7 - p, Gap(a, b, p), k);
    SameResidue(HashUlongPtr(x), HashUlongPtr(y), Pow2(k));
  }

  /** The hashes of two such words are apart by 37 to the power of the bytes that follow, times the
      distance of the byte. */
  lemma OneByteGap(x: u64, y: u64, p: nat)
    requires OneByteApart(x, y, p)
    ensures p < 8
    ensures HashUlongPtr(x) ==
            HashUlongPtr(y) + Power(37, 7 - p) * (Shr(x, 8 * p) % 0x100 - Shr(y, 8 * p) % 0x100)
  {
    hide HashUlongPtr, LittleEndian, Pow2, OneByteApart, Shr, Exact, Power;
    Pow2Values();
    OneByteApartIff(x, y, 8, p);
    UlongPtrNeverWraps(x);
    UlongPtrNeverWraps(y);
    ByteAt(x, 8, p);
    ByteAt(y, 8, p);
    ExactDifference(LittleEndian(x, 8), LittleEndian(y, 8), p, SEED, COEFFICIENT);
  }

  lemma WeightedGapIsNoMultiple(n: nat, d: int, k: nat)
    requires d != 0 && -0x100 < d < 0x100 && k >= 8
    ensures Power(COEFFICIENT, n) * d % Pow2(k) != 0
  {
    if n > 0 { PowerParity(COEFFICIENT, n); }
    if Power(COEFFICIENT, n) * d % Pow2(k) == 0 {
      OddCancel(Power(COEFFICIENT, n), d, k);
      Pow2Values();
      if k > 8 { Pow2Monotone(8, k); }
      SmallMultiple(d, Pow2(k));
    }
  }

  /** Below 256 buckets it can happen: the keys `0` and `2^k` differ in one byte and collide. */
  lemma OneByteCollides(k: nat)
    requires k < 8
    ensures Pow2(k) < 0x100
    ensures OneByteApart(0, Pow2(k), 0)
    ensures HashUlongPtr(0) % Pow2(k) == HashUlongPtr(Pow2(k)) % Pow2(k)
  {
    hide HashUlongPtr, Exact, Power, LittleEndian, Pow2;
    var m := Pow2(k);
    Pow2Values();
    Pow2Monotone(k, 8);
    LowByteOnly(m);
    UlongPtrNeverWraps(0);
    UlongPtrNeverWraps(m);
    ExactDifference(LittleEndian(m, 8), LittleEndian(0, 8), 0, SEED, COEFFICIENT);
    ModShift(HashUlongPtr(0), Power(COEFFICIENT, 7), m);
    OneByteApartIff(0, m, 8, 0);
  }

  lemma LowByteOnly(m: nat)
    requires 0 < m < 0x100
    ensures DifferOnlyAt(LittleEndian(m, 8), LittleEndian(0, 8), 0)
    ensures DifferOnlyAt(LittleEndian(0, 8), LittleEndian(m, 8), 0)
    ensures Gap(LittleEndian(m, 8), LittleEndian(0, 8), 0) == m
  {
    var z := LittleEndian(0, 7);
    assert LittleEndian(0, 8) == [0] + z;
    assert LittleEndian(m, 8) == [m] + z by { assert m % 0x100 == m && m / 0x100 == 0; }
    hide LittleEndian;
  }

  /** Keys that differ in two bytes can share even the full 64-bit hash. */
  lemma TwoBytesCollide()
    ensures HashUlongPtr(0x2500) == HashUlongPtr(0x0001)
  {
    var z := LittleEndian(0, 6);
    assert LittleEndian(0x2500, 8) == [0x00, 0x25] + z;
    assert LittleEndian(0x0001, 8) == [0x01, 0x00] + z;
    HashConcat([0x00, 0x25], z, SEED, COEFFICIENT);
    HashConcat([0x01, 0x00], z, SEED, COEFFICIENT);
    assert Exact([0x00, 0x25], SEED, COEFFICIENT) == Exact([0x01, 0x00], SEED, COEFFICIENT) by {
      assert [0x00, 0x25][..1] == [0x00] && [0x01, 0x00][..1] == [0x01];
    }
  }

  /** The key zero hashes to an odd number. */
  lemma ZeroHashesOdd()
    ensures HashUlongPtr(0) % 2 == 1
  {
    UlongPtrNeverWraps(0);
    ZeroBytesKeepParity(8);
  }

  lemma {:induction false} ZeroBytesKeepParity(n: nat)
    ensures Exact(LittleEndian(0, n), SEED, COEFFICIENT) % 2 == 1
  {
    if n > 0 {
      var z := LittleEndian(0, n - 1);
      ExactZero(z);
      ZeroBytesSnoc(n - 1);
      hide Exact, LittleEndian;
      ZeroBytesKeepParity(n - 1);
    }
  }

  lemma ExactZero(bytes: seq<u8>)
    ensures Exact(bytes + [0], SEED, COEFFICIENT) == 37 * Exact(bytes, SEED, COEFFICIENT)
  {
    assert (bytes + [0])[..|bytes|] == bytes;
  }

  lemma {:induction false} ZeroBytesSnoc(n: nat)
    ensures LittleEndian(0, n + 1) == LittleEndian(0, n) + [0]
  {
    if n > 0 {
      ZeroBytesSnoc(n - 1);
    }
  }

  // ---- the upcased string hash

  function Upcased(upcase: u16 -> u16, chars: seq<u16>): seq<u8> {
    if chars == [] then []
    else Upcased(upcase, chars[..|chars| - 1]) + LittleEndian(upcase(chars[|chars| - 1]), 2)
  }

  /** Every character contributes the low and then the high byte of its upper case. */
  lemma {:induction false} UpcasedAt(upcase: u16 -> u16, chars: seq<u16>, i: nat)
    requires i < |chars|
    ensures |Upcased(upcase, chars)| == 2 * |chars|
    ensures Upcased(upcase, chars)[2 * i] == upcase(chars[i]) % 0x100
    ensures Upcased(upcase, chars)[2 * i + 1] == upcase(chars[i]) / 0x100
    decreases |chars|
  {
    var n := |chars| - 1;
    var last := upcase(chars[n]);
    assert LittleEndian(last, 2) == [last % 0x100, last / 0x100];
    if n > 0 {
      UpcasedAt(upcase, chars[..n], if i < n then i else 0);
    } else {
      assert Upcased(upcase, chars[..n]) == [];
    }
  }

  lemma UpcasedSize(upcase: u16 -> u16, chars: seq<u16>)
    ensures |Upcased(upcase, chars)| == 2 * |chars|
  {
    if chars != [] { UpcasedAt(upcase, chars, 0); }
  }

  lemma {:induction false} SameUpperCase(upcase: u16 -> u16, a: seq<u16>, b: seq<u16>)
    requires |a| == |b| && forall i :: 0 <= i < |a| ==> upcase(a[i]) == upcase(b[i])
    ensures Upcased(upcase, a) == Upcased(upcase, b)
    decreases |a|
  {
    if a != [] {
      SameUpperCase(upcase, a[..|a| - 1], b[..|b| - 1]);
    }
  }

  /** Strings give the same bytes, and so the same hash, exactly when they have the same upper case. */
  lemma SameUpperCaseIff(upcase: u16 -> u16, a: seq<u16>, b: seq<u16>)
    ensures Upcased(upcase, a) == Upcased(upcase, b) <==>
              |a| == |b| && forall i :: 0 <= i < |a| ==> upcase(a[i]) == upcase(b[i])
  {
    UpcasedSize(upcase, a);
    UpcasedSize(upcase, b);
    if |a| == |b| && forall i :: 0 <= i < |a| ==> upcase(a[i]) == upcase(b[i]) {
      SameUpperCase(upcase, a, b);
    }
    hide Upcased;
    if Upcased(upcase, a) == Upcased(upcase, b) {
      forall i | 0 <= i < |a|
        ensures upcase(a[i]) == upcase(b[i])
      {
        SameUpperAt(upcase, a, b, i);
      }
    }
  }

  lemma SameUpperAt(upcase: u16 -> u16, a: seq<u16>, b: seq<u16>, i: nat)
    requires i < |a| == |b| && Upcased(upcase, a) == Upcased(upcase, b)
    ensures upcase(a[i]) == upcase(b[i])
  {
    hide Upcased;
    UpcasedAt(upcase, a, i);
    UpcasedAt(upcase, b, i);
    var u, v := upcase(a[i]), upcase(b[i]);
    assert u == 0x100 * (u / 0x100) + u % 0x100 && v == 0x100 * (v / 0x100) + v % 0x100;
  }

  /** mphashtable.c:4-13 with the loop test on the pointer the loop advances. */
  method HashUStringUpcase(upcase: u16 -> u16, buffer: array<u16>, len: int) returns (kMagicNumber: u64)
    requires len <= buffer.Length
    ensures kMagicNumber == HashBytes(Upcased(upcase, if len > 0 then buffer[..len] else []))
  {
    var p := 0;
    kMagicNumber := SEED;
    while p < len
      invariant 0 <= p && (len > 0 ==> p <= len)
      invariant len <= 0 ==> p == 0
      invariant kMagicNumber == HashBytes(Upcased(upcase, buffer[..p]))
    {
      var upper := upcase(buffer[p]);
      assert buffer[..p + 1][..p] == buffer[..p];
      HashConcat(Upcased(upcase, buffer[..p]), LittleEndian(upper, 2), SEED, COEFFICIENT);
      kMagicNumber := Hash(LittleEndian(upper, 2), kMagicNumber, COEFFICIENT);
      p := p + 1;
    }
    assert buffer[..0] == [];
  }

  /** The two pointers of the loop as written, as offsets into the buffer. */
  datatype UpcaseLoop = UpcaseLoop(start: int, buffer: int, end: int) {
    predicate Guard() { start < end }

    function Step(): UpcaseLoop { this.(buffer := buffer + 1) }

    function After(n: nat): UpcaseLoop {
      if n == 0 then this else After(n - 1).Step()
    }
  }

  /** As written the loop tests a pointer it never moves: it ends exactly when it never starts. */
  lemma UpcaseAsWrittenEndsIffEmpty(len: int)
    ensures (exists n: nat :: !UpcaseLoop(0, 0, len).After(n).Guard()) <==> len <= 0
  {
    var s := UpcaseLoop(0, 0, len);
    forall n: nat
      ensures s.After(n).start == 0 && s.After(n).end == len
    {
      PointersStay(s, n);
    }
    assert s.After(0) == s;
  }

  lemma {:induction false} PointersStay(s: UpcaseLoop, n: nat)
    ensures s.After(n).start == s.start && s.After(n).end == s.end
  {
    if n > 0 {
      PointersStay(s, n - 1);
    }
  }
}
