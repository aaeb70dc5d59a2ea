/** Removal by key as a value, intended and as written: the returned link and the table left. */
module KeyRemoval {
  import opened Bits
  import opened BucketWord
  import opened Nodes
  import opened Chains
  import opened Searching

  // ---- one chain

  /** Where the scan as written stops: it compares the key of the node before each entry, which
      for the first entry is the word stored after the bucket head. */
  function FirstKeyed(c: Chain, before: u64, flags: u32, key: u64): (k: nat)
    ensures k <= |c|
  {
    if c == [] || Masked(flags, before) == key then 0 else 1 + FirstKeyed(c[1..], c[0].hashValue, flags, key)
  }

  lemma FirstKeyedStep(c: Chain, i: nat, before: u64, flags: u32, key: u64)
    requires i < |c|
    ensures FirstKeyed(c[i..], before, flags, key) ==
            if Masked(flags, before) == key then 0 else 1 + FirstKeyed(c[i + 1..], c[i].hashValue, flags, key)
  {
    hide Masked;
    assert c[i..][1..] == c[i + 1..];
  }

  lemma FirstKeyedNothing(before: u64, flags: u32, key: u64)
    ensures FirstKeyed([], before, flags, key) == 0
  {
  }

  /** The scan as written picks the entry it should exactly when the word after the head and the
      first entry both have the key, or when nothing it looks at does. */
  lemma {:induction false} FirstKeyedRightIff(c: Chain, before: u64, flags: u32, key: u64)
    ensures FirstKeyed(c, before, flags, key) == FirstMatch(c, flags, key) <==>
              || (c != [] && Masked(flags, before) == key && Masked(flags, c[0].hashValue) == key)
              || ((c == [] || Masked(flags, before) != key)
                  && forall n :: n in c ==> Masked(flags, n.hashValue) != key)
  {
    hide Masked;
    if c != [] {
      assert c[0] in c;
      if Masked(flags, before) != key {
        KeyedAfterMatch(c, before, flags, key);
        var m := FirstMatch(c, flags, key);
        if m < |c| { assert c[m] in c; }
      }
    }
  }

  /** With no match before it, the scan as written stops one entry too late. */
  lemma {:induction false} KeyedAfterMatch(c: Chain, before: u64, flags: u32, key: u64)
    requires Masked(flags, before) != key
    ensures FirstKeyed(c, before, flags, key) ==
            var m := FirstMatch(c, flags, key); if m < |c| then m + 1 else |c|
  {
    hide Masked;
    if c != [] {
      if Masked(flags, c[0].hashValue) != key {
        KeyedAfterMatch(c[1..], c[0].hashValue, flags, key);
      } else if |c| > 1 {
        assert c[1..] != [];
      }
    }
  }

  function ChainRemoved(c: Chain, flags: u32, key: u64): (Option<Link>, Chain) {
    var m := FirstMatch(c, flags, key);
    if m == |c| then (None, c) else (Some(To(c[m])), Without(c, m))
  }

  /** mphashtable.c:202-214 as written, on a chain of table `t`: line 204 decides the position, and
      line 209 returns the link that followed the removed entry. */
  function ChainRemovedAsWritten(c: Chain, before: u64, flags: u32, key: u64, t: object): (Option<Link>, Chain) {
    var i := FirstKeyed(c, before, flags, key);
    if i == |c| then (None, c) else (Some(if i + 1 < |c| then To(c[i + 1]) else End(t)), Without(c, i))
  }

  /** The link returned is the one behind the entry taken out: to the next entry, or the sentinel. */
  lemma ReturnedLinkFollows(a: Chain, n: Node, b: Chain, before: u64, flags: u32, key: u64, t: object)
    requires FirstKeyed(a + ([n] + b), before, flags, key) == |a|
    ensures ChainRemovedAsWritten(a + ([n] + b), before, flags, key, t) ==
            (Some(if b == [] then End(t) else To(b[0])), a + b)
  {
    hide FirstKeyed;
    var c := a + ([n] + b);
    assert c[..|a|] == a && c[|a| + 1..] == b;
  }

  /** On a chain, result and effect as written are right exactly when nothing it looks at has the
      key: whenever it removes an entry it returns the wrong link, or the entry is the wrong one. */
  lemma ChainRemovalRightIff(c: Chain, before: u64, flags: u32, key: u64, t: object)
    requires Distinct(c)
    ensures ChainRemovedAsWritten(c, before, flags, key, t) == ChainRemoved(c, flags, key) <==>
              && (c == [] || Masked(flags, before) != key)
              && forall n :: n in c ==> Masked(flags, n.hashValue) != key
  {
    hide Masked, FirstKeyed;
    FirstKeyedRightIff(c, before, flags, key);
    var i, m := FirstKeyed(c, before, flags, key), FirstMatch(c, flags, key);
    if m < |c| {
      assert c[m] in c;
    }
    if i < |c| && m < |c| && i != m {
      WithoutDiffers(c, i, m);
    }
    if forall n :: n in c ==> Masked(flags, n.hashValue) != key {
      assert m == |c|;
    }
  }

  lemma WithoutDiffers(c: Chain, i: nat, m: nat)
    requires Distinct(c) && i < |c| && m < |c| && i != m
    ensures Without(c, i) != Without(c, m)
  {
    var k := if i < m then i else m;
    assert Without(c, i)[..k] == Without(c, m)[..k];
    assert Without(c, i)[k] != Without(c, m)[k];
  }

  // ---- the table

  lemma EntriesNeedBuckets(s: TableState)
    requires Good(s) && Flat(s.chains) != []
    ensures Count(s.word) > 0
  {
    hide Masked, GetBucketIndex, Count, Flags;
    assert s.chains != [];
  }

  function Bucket(s: TableState, hashValue: u64): Chain
    requires Shaped(s)
  {
    if Count(s.word) == 0 then [] else s.chains[Slot(s, hashValue)]
  }

  function WithBucket(s: TableState, hashValue: u64, c: Chain): TableState
    requires Shaped(s)
  {
    if Count(s.word) == 0 then s else s.(chains := s.chains[Slot(s, hashValue) := c])
  }

  /** What removal by key is meant to return and leave. */
  ghost function Intended(s: TableState, hashValue: u64): (Option<Link>, TableState)
    requires Shaped(s)
  {
    if ReadsZero(|Flat(s.chains)|) then (None, s)
    else
      var (r, rest) := ChainRemoved(Bucket(s, hashValue), Flags(s.word), KeyOf(s, hashValue));
      (r, WithBucket(s, hashValue, rest))
  }

  /** What it returns and leaves as written, for the word stored after the bucket head. */
  ghost function AsWritten(s: TableState, hashValue: u64, before: u64, t: object): (Option<Link>, TableState)
    requires Shaped(s)
  {
    if ReadsZero(|Flat(s.chains)|) then (None, s)
    else
      var (r, rest) :=
        ChainRemovedAsWritten(Bucket(s, hashValue), before, Flags(s.word), KeyOf(s, hashValue), t);
      (r, WithBucket(s, hashValue, rest))
  }

  /** The whole operation as written is right exactly when it has nothing to do: the count reads
      zero, or no entry matches and the word after the head does not look like a match either. */
  lemma AsWrittenRightIff(s: TableState, hashValue: u64, before: u64, t: object)
    requires Good(s)
    ensures AsWritten(s, hashValue, before, t) == Intended(s, hashValue) <==>
              || ReadsZero(|Flat(s.chains)|)
              || (&& Lookup(s, hashValue) == []
                  && (Bucket(s, hashValue) == [] || KeyOf(s, before) != KeyOf(s, hashValue)))
  {
    hide Masked, GetBucketIndex, Count, Flags, ChainRemoved, ChainRemovedAsWritten, Select;
    if !ReadsZero(|Flat(s.chains)|) {
      EntriesNeedBuckets(s);
      var j := Slot(s, hashValue);
      var c, f, key := s.chains[j], Flags(s.word), KeyOf(s, hashValue);
      ChainRemovalRightIff(c, before, f, key, t);
      SelectedNothingIff(c, f, key);
      var (_, x) := ChainRemoved(c, f, key);
      var (_, y) := ChainRemovedAsWritten(c, before, f, key, t);
      assert s.chains[j := x][j] == x && s.chains[j := y][j] == y;
    }
  }

  lemma SelectedNothingIff(c: Chain, flags: u32, key: u64)
    ensures Select(c, flags, key) == [] <==> forall n :: n in c ==> Masked(flags, n.hashValue) != key
  {
    hide Masked;
    forall n
      ensures n in Select(c, flags, key) <==> n in c && Masked(flags, n.hashValue) == key
    {
      SelectMember(c, flags, key, n);
    }
    var l := Select(c, flags, key);
    if l != [] { assert l[0] in l; }
  }

  /** The intended removal returns what a fresh search would, and leaves the table without it. */
  lemma IntendedIsFirstResult(s: TableState, hashValue: u64)
    requires Good(s) && !ReadsZero(|Flat(s.chains)|)
    ensures var l := Lookup(s, hashValue);
            Intended(s, hashValue) == (if l == [] then None else Some(To(l[0])), KeyRemoved(s, hashValue))
  {
    hide Masked, GetBucketIndex, Count, Flags, Select, FirstMatch;
    EntriesNeedBuckets(s);
    KeyRemovedScan(s, hashValue);
    var j := Slot(s, hashValue);
    assert s.chains[j := s.chains[j]] == s.chains;
  }

  /** As written, removing the first of two entries removes the second and returns the sentinel. */
  lemma AsWrittenRemovesTheWrongEntry(n: Node, m: Node, t: object)
    requires n.hashValue == 0 && m.hashValue == 1
    ensures Good(OneBucket([n, m]))
    ensures AsWritten(OneBucket([n, m]), 0, 5, t) == (Some(End(t)), OneBucket([n]))
    ensures Intended(OneBucket([n, m]), 0) == (Some(To(n)), OneBucket([m]))
  {
    hide Masked, GetBucketIndex, Count, Flags, WithCount;
    var c := [n, m];
    OneBucketGood(c, 0);
    NoFlagsKey(0);
    NoFlagsKey(1);
    NoFlagsKey(5);
    assert c[1..] == [m] && [m][1..] == [];
    assert FirstKeyed(c, 5, 0, 0) == 1 + FirstKeyed([m], 0, 0, 0) == 1;
    assert FirstMatch(c, 0, 0) == 0;
    assert Without(c, 1) == [n] && Without(c, 0) == [m];
    assert [c][0 := [n]] == [[n]] && [c][0 := [m]] == [[m]];
  }
}
