/** The packed `BucketCount` word (a 27-bit count above five flag bits) and the bucket index. */
module BucketWord {
  import opened Bits
  import opened ByteHash
  import opened Rounding

  const MAX_BUCKETS: u32 := 0x400_0000

  function Count(word: u32): u32 {
    And(Shr(word, 5), 0x7FF_FFFF)
  }

  function Flags(word: u32): u32 {
    And(word, 0x1F)
  }

  /** `(count << 5) | word & 0x1F` */
  function WithCount(count: u32, word: u32): u32 {
    OrWord(Shl32(count, 5), And(word, 0x1F))
  }

  /** `flags & 0x1F | word & 0xFFFFFFE0` */
  function WithFlags(flags: u32, word: u32): u32 {
    OrWord(And(flags, 0x1F), And(word, 0xFFFF_FFE0))
  }

  function OrWord(x: u32, y: u32): u32 {
    Pow2Values();
    OrBelow(x, y, 32);
    Or(x, y)
  }

  ghost predicate ValidCount(count: nat) {
    count == 0 || (IsPow2(count) && count <= MAX_BUCKETS)
  }

  /** Rounded to a power of two and clamped; `None` where the rounding is undefined. */
  function NewCount(requested: u32): (c: Option<u32>)
    ensures c.Some? <==> requested <= 0x8000_0000
    ensures c.Some? ==> ValidCount(c.value) && (c.value == 0 <==> requested == 0)
    ensures 0 < requested <= 0x400_0000 ==> LeastPow2AtLeast(c.value, requested)
    ensures 0x400_0000 < requested <= 0x8000_0000 ==> c.value == 0x400_0000
  {
    NewCountValid(requested);
    match Rounded(requested, false)
    case None => None
    case Some(c) => Some(if c > MAX_BUCKETS then MAX_BUCKETS else c)
  }

  lemma NewCountValid(requested: u32)
    ensures var r := Rounded(requested, false);
            && (r.Some? <==> requested <= 0x8000_0000)
            && (r.Some? ==> r.value == 0 || IsPow2(r.value))
            && (r.Some? ==> (r.value == 0 <==> requested == 0))
            && (r.Some? && requested > 0 ==> LeastPow2AtLeast(r.value, requested))
            && (r.Some? && requested <= MAX_BUCKETS ==> r.value <= MAX_BUCKETS)
            && IsPow2(MAX_BUCKETS)
  {
    Pow2Values();
    assert MAX_BUCKETS == Pow2(26);
    if requested > 0 {
      RoundedIsLeast(requested);
    }
  }

  // ---- the word holds what was stored

  lemma DecodedFields(word: u32)
    ensures Count(word) == word / 32 && Flags(word) == word % 32
  {
    hide Pow2, And, Or;
    Pow2Values();
    AndCommutes(Shr(word, 5), 0x7FF_FFFF);
    AndLowMask(27, word / 32);
    AndCommutes(word, 0x1F);
    AndLowMask(5, word);
  }

  /** Storing a count keeps the flags, and both decode again. */
  lemma CountStored(count: u32, word: u32)
    requires count <= MAX_BUCKETS
    ensures Count(WithCount(count, word)) == count
    ensures Flags(WithCount(count, word)) == Flags(word)
  {
    hide Pow2, And, Or;
    Pow2Values();
    DecodedFields(word);
    OrDisjoint(count, 5, Flags(word));
    assert WithCount(count, word) == count * 32 + Flags(word);
    DecodedFields(WithCount(count, word));
  }

  /** Storing flags keeps the count, and both decode again. */
  lemma FlagsStored(flags: u32, word: u32)
    ensures Count(WithFlags(flags, word)) == Count(word)
    ensures Flags(WithFlags(flags, word)) == flags % 32
  {
    hide Pow2, And, Or;
    Pow2Values();
    DecodedFields(word);
    AndCommutes(flags, 0x1F);
    AndLowMask(5, flags);
    AndCommutes(word, 0xFFFF_FFE0);
    AndHighMask(32, 5, word);
    OrCommutes(flags % 32, word / 32 * 32);
    OrDisjoint(word / 32, 5, flags % 32);
    DecodedFields(WithFlags(flags, word));
  }

  lemma {:induction false} OrCommutes(x: nat, y: nat)
    ensures Or(x, y) == Or(y, x)
  {
    if x == 0 {
      OrZero(y);
    } else if y == 0 {
      OrZero(x);
    } else {
      OrCommutes(x / 2, y / 2);
    }
  }

  // ---- masked keys

  /** `MAXULONG_PTR << flags` */
  function KeyMask(flags: u32): u64 {
    Shl64(0xFFFF_FFFF_FFFF_FFFF, flags)
  }

  function Masked(flags: u32, hashValue: u64): u64 {
    And(KeyMask(flags), hashValue)
  }

  /** Masking clears the low `flags` bits. */
  lemma MaskedClears(flags: u32, hashValue: u64)
    requires flags < 32
    ensures Masked(flags, hashValue) == hashValue - hashValue % Pow2(flags)
  {
    hide Pow2, And;
    Pow2Values();
    Pow2Monotone(flags, 64);
    var p := Pow2(flags);
    assert 0xFFFF_FFFF_FFFF_FFFF * p == (p - 1) * TWO_64 + (TWO_64 - p);
    QuotientIs(0xFFFF_FFFF_FFFF_FFFF * p, TWO_64, p - 1, TWO_64 - p);
    AndHighMask(64, flags, hashValue);
  }

  /** Two hash values have the same key exactly when they agree above the low `flags` bits. */
  lemma SameKeyIff(flags: u32, x: u64, y: u64)
    requires flags < 32
    ensures Masked(flags, x) == Masked(flags, y) <==> Shr(x, flags) == Shr(y, flags)
  {
    hide Masked, Pow2;
    MaskedClears(flags, x);
    MaskedClears(flags, y);
    var p := Pow2(flags);
    assert x - x % p == x / p * p && y - y % p == y / p * p;
    if x / p * p == y / p * p {
      SameQuotient(p, x / p, 0, y / p, 0);
    }
  }

  // ---- the bucket index

  function GetBucketIndex(bucketCount: u32, key: u64): u32 {
    And((bucketCount + 0xFFFF_FFFF) % TWO_32, HashUlongPtr(key))
  }

  /** For a power of two the index is the remainder of the hash, so it is in range; for an empty
      table `bucketCount - 1` wraps and the index is the low word of the hash. */
  lemma IndexIsRemainder(bucketCount: u32, key: u64)
    requires ValidCount(bucketCount)
    ensures bucketCount > 0 ==>
              GetBucketIndex(bucketCount, key) == HashUlongPtr(key) % bucketCount < bucketCount
    ensures bucketCount == 0 ==> GetBucketIndex(bucketCount, key) == HashUlongPtr(key) % TWO_32
  {
    hide HashUlongPtr, Pow2, And;
    Pow2Values();
    if bucketCount > 0 {
      var k: nat :| bucketCount == Pow2(k);
      AndLowMask(k, HashUlongPtr(key));
    } else {
      AndLowMask(32, HashUlongPtr(key));
    }
  }

  /** A table separates every pair of keys that differ in exactly one byte if and only if it has
      at least 256 buckets. */
  lemma OneByteSeparatedIff256(bucketCount: u32)
    requires ValidCount(bucketCount) && bucketCount > 0
    ensures bucketCount >= 0x100 <==>
              forall x: u64, y: u64, p: nat | OneByteApart(x, y, p) ::
                GetBucketIndex(bucketCount, x) != GetBucketIndex(bucketCount, y)
  {
    hide GetBucketIndex, HashUlongPtr, OneByteApart;
    var k: nat :| bucketCount == Pow2(k);
    Pow2Values();
    if k >= 8 {
      if k > 8 { Pow2Monotone(8, k); }
      forall x: u64, y: u64, p: nat | OneByteApart(x, y, p)
        ensures GetBucketIndex(bucketCount, x) != GetBucketIndex(bucketCount, y)
      {
        IndexIsRemainder(bucketCount, x);
        IndexIsRemainder(bucketCount, y);
        OneByteSeparates(x, y, p, k);
      }
    } else {
      Pow2Monotone(k, 8);
      OneByteCollides(k);
      IndexIsRemainder(bucketCount, 0);
      IndexIsRemainder(bucketCount, Pow2(k));
      var x: u64, y: u64, p: nat := 0, Pow2(k), 0;
      assert OneByteApart(x, y, p);
      assert GetBucketIndex(bucketCount, x) == GetBucketIndex(bucketCount, y);
    }
  }
}
