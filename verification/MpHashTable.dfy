/** The linked hash table of mphashtable.c: bucket heads supplied by the caller, entries chained
    through their own `Next` words, every chain ending in a tagged pointer to its table. */
module MpHashTable {
  import opened Bits
  import opened Rounding
  import opened BucketWord
  import opened Nodes
  import opened Chains
  import opened Searching
  import opened KeyRemoval
  import opened LinkedChains
  import opened Traversal

  class HashTable {
    var itemCount: u32
    var bucketCount: u32
    var buckets: seq<Node>
    ghost var chains: seq<Chain>

    ghost function State(): TableState
      reads this
    {
      TableState(bucketCount, chains)
    }

    ghost function Footprint(): set<Node>
      reads this
    {
      (set n | n in buckets) + Entries(chains)
    }

    /** The chains hang off distinct heads, are disjoint and acyclic, end in this table's sentinel,
        and are counted modulo the width of `ItemCount`. */
    ghost predicate WellLinked()
      reads this, Footprint()`next
    {
      && Shaped(State())
      && Separate(buckets, chains)
      && AllLinked(buckets, chains, this)
      && itemCount == |Flat(chains)| % TWO_32
    }

    ghost predicate Valid()
      reads this, Footprint()`next
    {
      WellLinked() && Good(State())
    }

    /** What a walk over chain `j` relies on. */
    lemma Walkable(j: nat)
      requires WellLinked() && j < |chains|
      ensures Shaped(State()) && |chains| <= |buckets|
      ensures Linked(buckets[j], chains[j], this) && Distinct(chains[j]) && Apart(chains)
      ensures buckets[j] !in chains[j] && buckets[j] in buckets
      ensures forall i :: 0 <= i <= |chains[j]| ==> At(buckets[j], chains[j], i) in Footprint()
    {
      assert buckets[j] in buckets;
      assert forall i :: 0 <= i < |chains[j]| ==> chains[j][i] in chains[j];
    }

    /** Where a linked entry stands, counting the head as position 0. */
    lemma Located(n: Node) returns (j: nat, i: nat)
      requires WellLinked() && n in Entries(chains)
      ensures j < |chains| <= |buckets| && 0 < i <= |chains[j]| && chains[j][i - 1] == n
      ensures Linked(buckets[j], chains[j], this)
      ensures After(chains, n) == chains[j][i..]
      ensures Good(State()) ==> Count(bucketCount) > 0 && j == Slot(State(), n.hashValue)
    {
      hide Masked, GetBucketIndex, Count, Flags;
      j :| j < |chains| && n in chains[j];
      i := Position(chains[j], n) + 1;
      Walkable(j);
      AfterInChain(chains, j, i - 1);
    }

    lemma AheadAfter(j: nat, k: nat, hashValue: u64)
      requires WellLinked() && j < |chains| && 0 < k <= |chains[j]|
      ensures Ahead(State(), hashValue, chains[j][k - 1]) == chains[j][k..]
      ensures chains[j][k - 1] in Entries(chains)
    {
      Walkable(j);
      AfterInChain(chains, j, k - 1);
      assert chains[j][k - 1] in chains[j];
    }

    lemma Findable(n: Node)
      requires WellLinked()
      ensures n in Lookup(State(), n.hashValue) <==> n in Ahead(State(), n.hashValue, null)
      ensures Good(State()) && n in Entries(chains) ==> n in Ahead(State(), n.hashValue, null)
    {
      hide Masked, GetBucketIndex, Count, Flags, Lookup;
      LookupFromFront(State(), n);
      if Good(State()) && n in Entries(chains) {
        var j, i := Located(n);
      }
    }

    method Initialize(flags: u32, requested: u32, bs: seq<Node>)
      requires NewCount(requested).Some?
      requires Distinct(bs)
      requires bs != [] ==> NewCount(requested).value <= |bs|
      modifies this, bs
      ensures Count(bucketCount) == NewCount(requested).value && Flags(bucketCount) == flags % 32
      ensures buckets == bs && itemCount == 0 && chains == Empty(NewCount(requested).value)
      ensures NewCount(requested).value <= |bs| ==> Valid()
      ensures forall i :: NewCount(requested).value <= i < |bs| ==> bs[i].next == old(bs[i].next)
    {
      hide Masked, GetBucketIndex, Count, Flags, WithCount, WithFlags, Separate, AllLinked, Good;
      var r := RoundToPowerOfTwo(requested, false);
      var count := r.value;
      if count > MAX_BUCKETS {
        count := MAX_BUCKETS;
      }
      itemCount := 0;
      CountStored(count, bucketCount);
      bucketCount := WithCount(count, bucketCount);
      buckets := bs;
      FlagsStored(flags, bucketCount);
      bucketCount := WithFlags(flags, bucketCount);
      if bs != [] {
        var p := 0;
        while p < count
          modifies bs
          invariant p <= count
          invariant forall i :: 0 <= i < p ==> bs[i].next == End(this)
          invariant forall i :: p <= i < |bs| ==> bs[i].next == old(bs[i].next)
        {
          bs[p].next := End(this);
          p := p + 1;
        }
      }
      chains := Empty(count);
      if count <= |bs| { EmptyTable(bs, count, this); }
    }

    method Insert(n: Node) returns (r: u32)
      requires Valid() && Count(bucketCount) > 0 && n !in Footprint()
      modifies this, buckets[Slot(State(), n.hashValue)], n
      ensures Valid() && buckets == old(buckets)
      ensures State() == Inserted(old(State()), n)
      ensures r == itemCount == (old(itemCount) + 1) % TWO_32
    {
      hide Masked, GetBucketIndex, Count, Flags, WithCount, AllLinked, Separate, Linked, Placed, Distinct, Apart;
      EntriesOfFlat(chains);
      InsertedGood(State(), n);
      ghost var cs := chains;
      var count := Count(bucketCount);
      var flags := Flags(bucketCount);
      var key := Masked(flags, n.hashValue);
      var idx := GetBucketIndex(count, key);
      assert idx == Slot(State(), n.hashValue);
      SizePushed(cs, idx, n);
      Walkable(idx);
      PushOnto(n, buckets, idx, cs, this);
      r := (itemCount + 1) % TWO_32;
      itemCount := r;
      chains := Pushed(cs, idx, n);
    }

    /** The next entry with the same masked key, from NULL or from the entry returned before. */
    method FindNext(hashValue: u64, pLink: Node?) returns (r: Node?)
      requires WellLinked()
      requires pLink != null ==> pLink in Entries(chains)
      ensures WellLinked() && r == NextMatch(State(), hashValue, pLink)
    {
      hide Masked, GetBucketIndex, Count, Flags, WithCount, AllLinked, Separate, Select, Linked;
      hide Flat, Placed;
      var flags := Flags(bucketCount);
      var k1 := Masked(flags, hashValue);
      var p: Node;
      ghost var j: nat, i: nat := 0, 0;
      if pLink != null {
        p := pLink;
        j, i := Located(pLink);
      } else {
        var count := Count(bucketCount);
        if count == 0 {
          SelectNothing(flags, k1);
          return null;
        }
        j := Slot(State(), hashValue);
        Walkable(j);
        var idx := GetBucketIndex(count, k1);
        p := buckets[idx];
      }
      hide Apart, Distinct;
      ghost var c := chains[j];
      assert c[i..] == Ahead(State(), hashValue, pLink);
      while !LastLink(p.next)
        invariant i <= |c| && p == At(buckets[j], c, i)
        invariant Select(c[i..], flags, k1) == Select(Ahead(State(), hashValue, pLink), flags, k1)
        decreases |c| - i
      {
        LinkAt(buckets[j], c, i, this);
        SelectStep(c, i, flags, k1);
        var k2 := Masked(flags, p.next.node.hashValue);
        if k1 == k2 {
          return p.next.node;
        }
        p := p.next.node;
        i := i + 1;
      }
      LinkAt(buckets[j], c, i, this);
      SelectNothing(flags, k1);
      assert c[i..] == [];
      return null;
    }

    /** Both removals take an entry out in the same way. */
    method Unlink(p: Node, victim: Node, ghost j: nat, ghost i: nat)
      requires WellLinked() && j < |chains| && i < |chains[j]|
      requires p == At(buckets[j], chains[j], i) && victim == chains[j][i]
      modifies this, p, victim
      ensures WellLinked() && buckets == old(buckets)
      ensures State() == ErasedAt(old(State()), j, i)
      ensures itemCount == (old(itemCount) + 0xFFFF_FFFF) % TWO_32
      ensures victim.next == Removed(old(victim.next))
      ensures victim in old(Entries(chains)) && victim !in Entries(chains)
      ensures old(Good(State())) ==> Good(State())
    {
      hide Good, Placed, Distinct, Apart, Without, AllLinked, Separate, Linked;
      hide Masked, GetBucketIndex, Count, Flags, WithCount;
      hide Flat;
      ghost var cs, c := chains, chains[j];
      if Good(State()) { ErasedGood(State(), j, i); }
      SizeWithout(cs, j, i);
      CountDown(|Flat(cs)|);
      Walkable(j);
      SeparateWithout(buckets, cs, j, i);
      assert victim in c;
      UnlinkFrom(p, victim, buckets, cs, j, i, this);
      itemCount := (itemCount + 0xFFFF_FFFF) % TWO_32;
      chains := cs[j := Without(c, i)];
      assert Shaped(State());
    }

    /** The scan of `HashTableRemoveKey` with line 204 comparing the key of the entry after `p`. */
    method Scan(hashValue: u64) returns (p: Node?)
      requires Valid() && Count(bucketCount) > 0
      ensures var s := State();
              var c := s.chains[Slot(s, hashValue)];
              var m := FirstMatch(c, Flags(s.word), KeyOf(s, hashValue));
              p == if m == |c| then null else At(buckets[Slot(s, hashValue)], c, m)
    {
      hide Masked, GetBucketIndex, Count, Flags, AllLinked, Separate, Distinct, Apart, Linked, Placed;
      var flags := Flags(bucketCount);
      var k1 := Masked(flags, hashValue);
      var count := Count(bucketCount);
      ghost var j := Slot(State(), hashValue);
      Walkable(j);
      var idx := GetBucketIndex(count, k1);
      p := buckets[idx];
      ghost var i, c := 0, chains[j];
      ghost var m := FirstMatch(c, flags, k1);
      while !LastLink(p.next)
        invariant i <= m && p == At(buckets[j], c, i)
        decreases |c| - i
      {
        LinkAt(buckets[j], c, i, this);
        var k2 := Masked(flags, p.next.node.hashValue);
        if k1 == k2 {
          return;
        }
        p := p.next.node;
        i := i + 1;
      }
      LinkAt(buckets[j], c, i, this);
      return null;
    }

    /** mphashtable.c:191-215 with line 204 comparing the key of the entry it unlinks, and line
        209 returning that entry. */
    method RemoveKey(hashValue: u64) returns (r: Node?)
      requires Valid()
      modifies this, Footprint()
      ensures Valid() && buckets == old(buckets)
      ensures old(itemCount) == 0 ==> r == null && State() == old(State())
      ensures old(itemCount) != 0 ==>
                r == First(old(Lookup(State(), hashValue))) && State() == KeyRemoved(old(State()), hashValue)
      ensures (if r == null then None else Some(To(r)), State()) == Intended(old(State()), hashValue)
      ensures r == null ==> itemCount == old(itemCount)
      ensures r != null ==> itemCount == old(itemCount) - 1 && r.next == Removed(old(r.next))
    {
      hide Masked, GetBucketIndex, Count, Flags, WithCount, AllLinked, Separate, Placed, ErasedAt;
      hide KeyRemoved, Lookup, Select, Distinct, Apart, Linked, FirstMatch, WithBucket, ChainRemoved;
      if itemCount == 0 {
        return null;
      }
      IntendedIsFirstResult(State(), hashValue);
      assert chains != [];
      ghost var j := Slot(State(), hashValue);
      ghost var c := chains[j];
      Walkable(j);
      KeyRemovedScan(State(), hashValue);
      var p := Scan(hashValue);
      if p == null {
        return null;
      }
      ghost var m := FirstMatch(c, Flags(bucketCount), KeyOf(State(), hashValue));
      LinkAt(buckets[j], c, m, this);
      var pNext := p.next.node;
      CountDown(|Flat(chains)|);
      assert At(buckets[j], c, m + 1) == pNext;
      Unlink(p, pNext, j, m);
      return pNext;
    }

    /** `HashTableChangeTable` with the count that line 124 indexes by as a parameter; `None` where
        that index passes the new heads, and what the code writes then is undefined. */
    method Relink(requested: u32, bs: seq<Node>, indexCount: u32) returns (r: Option<seq<Node>>)
      requires WellLinked() && NewCount(requested).Some? && NewCount(requested).value <= |bs|
      requires Distinct(bs) && forall n :: n in bs ==> n !in Footprint()
      modifies this, Footprint(), bs
      ensures var s, count := old(State()), NewCount(requested).value;
              && (r.Some? <==> Within(Flat(s.chains), indexCount, Flags(s.word), count))
              && (r.Some? ==> State() == Rehashed(s, count, indexCount))
      ensures r.Some? ==> WellLinked() && buckets == bs && r.value == old(buckets) && itemCount == old(itemCount)
      ensures r.Some? ==> forall k :: 0 <= k < old(|chains|) ==> r.value[k].next == End(this)
    {
      hide Masked, GetBucketIndex, Count, Flags, WithCount, AllLinked, Separate, Linked, Distributed;
      hide Placed, Distinct, Flat, IsPow2, Within, CrossDisjoint, ValidCount;
      var round := RoundToPowerOfTwo(requested, false);
      var count := round.value;
      if count > MAX_BUCKETS {
        count := MAX_BUCKETS;
      }
      ghost var all := chains;
      var hs, flags, oldCount := buckets, Flags(bucketCount), Count(bucketCount);
      FlatEmpty(count);
      CountStored(count, bucketCount);
      PrepareHeads(bs, count, hs, all, this);
      var ok := DrainAll(hs, oldCount, bs, count, indexCount, flags, all, Empty(count), this);
      if !ok {
        return None;
      }
      DistributedContents(Empty(count), Flat(all), indexCount, flags);
      DistributedSize(Empty(count), Flat(all), indexCount, flags);
      r := Some(buckets);
      buckets := bs;
      bucketCount := WithCount(count, bucketCount);
      chains := Distributed(Empty(count), Flat(all), indexCount, flags);
      assert |Flat(chains)| == |Flat(all)| by {
        assert |Flat(chains)| == |multiset(Flat(chains))| == |multiset(Flat(all))|;
      }
    }

    /** mphashtable.c:105-134 with line 124 indexing by the new count. */
    method ChangeTable(requested: u32, bs: seq<Node>) returns (r: seq<Node>)
      requires Valid() && NewCount(requested).Some? && NewCount(requested).value <= |bs|
      requires Distinct(bs) && forall n :: n in bs ==> n !in Footprint()
      requires Flat(chains) != [] ==> requested > 0
      modifies this, Footprint(), bs
      ensures Valid() && buckets == bs && r == old(buckets) && itemCount == old(itemCount)
      ensures State() == Rehashed(old(State()), NewCount(requested).value, NewCount(requested).value)
      ensures forall k :: 0 <= k < old(|chains|) ==> r[k].next == End(this)
    {
      hide WellLinked, Good, Masked, GetBucketIndex, Count, Flags, WithCount, Within;
      var count := NewCount(requested).value;
      RehashedGood(State(), count);
      var o := Relink(requested, bs, count);
      r := o.value;
    }

    /** mphashtable.c:105-134 as written: line 124 indexes by the old count, and an old bucket that
        is not empty may be past the new heads. */
    method ChangeTableAsWritten(requested: u32, bs: seq<Node>) returns (r: Option<seq<Node>>)
      requires WellLinked() && NewCount(requested).Some? && NewCount(requested).value <= |bs|
      requires Distinct(bs) && forall n :: n in bs ==> n !in Footprint()
      modifies this, Footprint(), bs
      ensures var s, count := old(State()), NewCount(requested).value;
              && (r.Some? <==> Within(Flat(s.chains), Count(s.word), Flags(s.word), count))
              && (r.Some? ==> State() == Rehashed(s, count, Count(s.word)))
              && (Good(s) ==> (r.Some? <==> forall j :: count <= j < |s.chains| ==> s.chains[j] == []))
      ensures r.Some? ==> WellLinked() && buckets == bs && r.value == old(buckets) && itemCount == old(itemCount)
      ensures r.Some? ==> forall k :: 0 <= k < old(|chains|) ==> r.value[k].next == End(this)
    {
      hide Masked, GetBucketIndex, Count, Flags, WithCount, Within, Placed, Distinct;
      if Good(State()) { WithinIffUpperEmpty(State(), NewCount(requested).value); }
      r := Relink(requested, bs, Count(bucketCount));
    }

    /** The scan of `HashTableRemoveKey` as written: line 204 compares the key of `p`, and for the
        head that is the word stored after it. */
    method ScanAsWritten(hashValue: u64, wordAfterHead: u64) returns (p: Node?)
      requires Valid() && Count(bucketCount) > 0
      ensures var s := State();
              var c := s.chains[Slot(s, hashValue)];
              var m := FirstKeyed(c, wordAfterHead, Flags(s.word), KeyOf(s, hashValue));
              p == if m == |c| then null else At(buckets[Slot(s, hashValue)], c, m)
    {
      hide Masked, GetBucketIndex, Count, Flags, AllLinked, Separate, Distinct, Apart, Linked, Placed, FirstKeyed;
      var flags := Flags(bucketCount);
      var k1 := Masked(flags, hashValue);
      var count := Count(bucketCount);
      ghost var j := Slot(State(), hashValue);
      Walkable(j);
      var idx := GetBucketIndex(count, k1);
      p := buckets[idx];
      var word := wordAfterHead;
      ghost var i, c := 0, chains[j];
      assert c[0..] == c;
      while !LastLink(p.next)
        invariant i <= |c| && p == At(buckets[j], c, i)
        invariant FirstKeyed(c, wordAfterHead, flags, k1) == i + FirstKeyed(c[i..], word, flags, k1)
        decreases |c| - i
      {
        LinkAt(buckets[j], c, i, this);
        FirstKeyedStep(c, i, word, flags, k1);
        if k1 == Masked(flags, word) {
          return;
        }
        p := p.next.node;
        word := p.hashValue;
        i := i + 1;
      }
      LinkAt(buckets[j], c, i, this);
      assert c[i..] == [];
      FirstKeyedNothing(word, flags, k1);
      return null;
    }

    /** mphashtable.c:191-215 as written: that scan, and line 209 returning the link after the entry
        it unlinks. */
    method RemoveKeyAsWritten(hashValue: u64, wordAfterHead: u64) returns (r: Option<Link>)
      requires Valid()
      modifies this, Footprint()
      ensures Valid() && buckets == old(buckets)
      ensures (r, State()) == AsWritten(old(State()), hashValue, wordAfterHead, this)
      ensures r.Some? ==> exists n :: n in old(Entries(chains)) && n !in Entries(chains)
                                      && old(n.next) == r.value && n.next == Removed(r.value)
      ensures itemCount == if r == None then old(itemCount) else old(itemCount) - 1
    {
      hide Masked, GetBucketIndex, Count, Flags, WithCount, AllLinked, Separate;
      hide Distinct, Apart, Linked, FirstKeyed, Placed;
      if itemCount == 0 {
        return None;
      }
      assert chains != [];
      CountDown(|Flat(chains)|);
      hide Flat, Without, Entries;
      ghost var j := Slot(State(), hashValue);
      ghost var c := chains[j];
      Walkable(j);
      var p := ScanAsWritten(hashValue, wordAfterHead);
      if p == null {
        assert chains[j := c] == chains;
        return None;
      }
      ghost var i := FirstKeyed(c, wordAfterHead, Flags(bucketCount), KeyOf(State(), hashValue));
      LinkAt(buckets[j], c, i, this);
      var pNext := p.next.node;
      assert At(buckets[j], c, i + 1) == pNext;
      LinkAt(buckets[j], c, i + 1, this);
      r := Some(pNext.next);
      Unlink(p, pNext, j, i);
    }

    /** One round of the search loop: how far the result is ahead, and what is left ahead of it. */
    lemma SearchRound(entry: Node, k: nat) returns (k': nat)
      requires WellLinked() && k <= |Ahead(State(), entry.hashValue, null)|
      ensures var c := Ahead(State(), entry.hashValue, null);
              var r := First(Select(c[k..], Flags(bucketCount), KeyOf(State(), entry.hashValue)));
              if r == null then entry !in c[k..]
              else
                && k < k' <= |c| && r == c[k' - 1] && r in Entries(chains)
                && Ahead(State(), entry.hashValue, r) == c[k'..]
                && (if r == entry then entry in c[k..] else (entry in c[k..] <==> entry in c[k'..]))
    {
      hide Masked, GetBucketIndex, Count, Flags, AllLinked, Separate, Placed, Distinct, Apart, Select, FirstMatch;
      var h := entry.hashValue;
      var c, f, key := Ahead(State(), h, null), Flags(bucketCount), KeyOf(State(), h);
      ScanFor(c[k..], f, key, entry);
      var m := FirstMatch(c[k..], f, key);
      k' := k + m + 1;
      if m < |c[k..]| {
        SuffixOfSuffix(c, k, m + 1);
        AheadAfter(Slot(State(), h), k', h);
      }
    }

    /** The search loop of `HashTableGetTable`: feed each result back until it is the entry or NULL.
        It stops at the entry exactly when a search for the entry's own hash value goes through it,
        which it does in every valid table. */
    method SearchFor(entry: Node) returns (e: Node?)
      requires WellLinked()
      ensures WellLinked() && e == (if entry in Lookup(State(), entry.hashValue) then entry else null)
      ensures Good(State()) && entry in Entries(chains) ==> e == entry
    {
      hide Masked, GetBucketIndex, Count, Flags, Good, AllLinked, Separate, Flat, Lookup, Select, Ahead, After;
      var h := entry.hashValue;
      ghost var c, k := Ahead(State(), h, null), 0;
      Findable(entry);
      e := null;
      assert c[0..] == c;
      while true
        invariant WellLinked() && k <= |c|
        invariant e != null ==> e in Entries(chains)
        invariant Ahead(State(), h, e) == c[k..]
        invariant entry in c <==> entry in c[k..]
        decreases |c| - k
      {
        k := SearchRound(entry, k);
        e := FindNext(h, e);
        if e == null || e == entry {
          break;
        }
      }
    }

    /** Walk from an entry to the sentinel, take its owner, and search for the entry there. Only the
        links are needed for the owner; the search may miss an entry that is in the wrong bucket. */
    static method GetTable(entry: Node, ghost t: HashTable) returns (h: HashTable, ghost last: Node?)
      requires t.WellLinked() && entry in Entries(t.chains)
      ensures h == t
      ensures last == if entry in Lookup(t.State(), entry.hashValue) then entry else null
      ensures Good(t.State()) ==> last == entry
    {
      hide Masked, GetBucketIndex, Count, Flags, AllLinked, Separate, Distinct, Apart, Linked, Lookup, Placed;
      ghost var j, i := t.Located(entry);
      ghost var c := t.chains[j];
      var p := entry;
      while !LastLink(p.next)
        invariant i <= |c| && p == At(t.buckets[j], c, i)
        decreases |c| - i
      {
        LinkAt(t.buckets[j], c, i, t);
        p := p.next.node;
        i := i + 1;
      }
      LinkAt(t.buckets[j], c, i, t);
      h := p.next.owner as HashTable;
      last := h.SearchFor(entry);
    }
  }

  /** HASH_TABLE_ITERATOR; `bucket` counts from the first bucket head. */
  class HashTableIterator {
    var hash: HashTable
    var hashEntry: Node?
    var bucket: nat
    ghost var col: nat

    ghost function Place(): Cursor
      reads this, hash
    {
      Cursor(hash.chains, bucket, col)
    }

    ghost predicate Ready()
      reads this, hash, hash.Footprint()`next
    {
      && hash.Valid()
      && Place().Ok()
      && hashEntry == if hash.chains == [] then null else At(hash.buckets[bucket], hash.chains[bucket], col)
    }

    /** A table without buckets has a NULL array. */
    constructor IterInit(h: HashTable)
      requires h.Valid() && (h.chains == [] ==> h.buckets == [])
      ensures hash == h && Ready() && Place() == Start(h.chains)
    {
      hash := h;
      bucket := 0;
      hashEntry := if h.buckets == [] then null else h.buckets[0];
      col := 0;
    }

    /** The search for the next bucket that is not empty. */
    method NextBucket() returns (b: nat)
      requires Ready()
      ensures Ready()
      ensures b >= |hash.chains| ==> NextNonEmpty(hash.chains, bucket + 1) >= |hash.chains|
      ensures b < |hash.chains| ==> b == NextNonEmpty(hash.chains, bucket + 1)
    {
      hide Masked, GetBucketIndex, Count, Flags, AllLinked, Separate, Linked, Good, Distinct, Apart;
      hide Flat;
      var count := Count(hash.bucketCount);
      b := bucket + 1;
      while b < count
        invariant Ready() && b > bucket
        invariant NextNonEmpty(hash.chains, b) == NextNonEmpty(hash.chains, bucket + 1)
      {
        hash.Walkable(b);
        LinkAt(hash.buckets[b], hash.chains[b], 0, hash);
        if !LastLink(hash.buckets[b].next) {
          break;
        }
        b := b + 1;
      }
    }

    method GetNext() returns (r: Node?)
      requires Ready()
      modifies this
      ensures Ready() && hash == old(hash)
      ensures Place() == NextOf(old(Place())).0
      ensures r == (match NextOf(old(Place())).1 case None => null case Some(n) => n)
    {
      hide Masked, GetBucketIndex, Count, Flags, AllLinked, Separate, Linked, Good, Distinct, Apart, NextNonEmpty;
      hide Flat;
      var pLink := hashEntry;
      if hash.chains != [] {
        hash.Walkable(bucket);
        LinkAt(hash.buckets[bucket], hash.chains[bucket], col, hash);
      }
      if pLink == null || LastLink(pLink.next) {
        var pBucket := NextBucket();
        if pBucket >= Count(hash.bucketCount) {
          return null;
        }
        hash.Walkable(pBucket);
        LinkAt(hash.buckets[pBucket], hash.chains[pBucket], 0, hash);
        r := hash.buckets[pBucket].next.node;
        bucket := pBucket;
        hashEntry := r;
        col := 1;
      } else {
        hashEntry := pLink.next.node;
        r := hashEntry;
        col := col + 1;
      }
    }

    /** The search for the node before the current entry, from the bucket head. */
    method Predecessor() returns (p: Node?)
      requires Ready() && hash.chains != []
      ensures Ready()
      ensures p == if col == 0 then null else At(hash.buckets[bucket], hash.chains[bucket], col - 1)
    {
      hide Masked, GetBucketIndex, Count, Flags, AllLinked, Separate, Linked, Good, Distinct, Apart;
      hide Flat, Shaped;
      hash.Walkable(bucket);
      p := hash.buckets[bucket];
      ghost var i, c := 0, hash.chains[bucket];
      while !LastLink(p.next)
        invariant Ready() && p != null && i <= |c| && p == At(hash.buckets[bucket], c, i)
        invariant col == 0 || i < col
        decreases |c| - i
      {
        LinkAt(hash.buckets[bucket], c, i, hash);
        OnlyAt(hash.buckets[bucket], c, col, i);
        if p.next == To(hashEntry) {
          return;
        }
        p := p.next.node;
        i := i + 1;
      }
      LinkAt(hash.buckets[bucket], c, i, hash);
      return null;
    }

    method IterRemove() returns (r: Node?)
      requires Ready() && hash.chains != []
      modifies this, hash, hash.Footprint()
      ensures Ready() && hash == old(hash) && hash.buckets == old(hash.buckets)
      ensures Place() == RemoveOf(old(Place())).0
      ensures r == (match RemoveOf(old(Place())).1 case None => null case Some(n) => n)
      ensures hash.bucketCount == old(hash.bucketCount)
      ensures r == null ==> hash.itemCount == old(hash.itemCount)
      ensures r != null ==> hash.itemCount == (old(hash.itemCount) + 0xFFFF_FFFF) % TWO_32
      ensures r != null ==> r.next == Removed(old(r.next))
    {
      hide Masked, GetBucketIndex, Count, Flags, AllLinked, Separate, Linked, Good, Distinct, Apart;
      hide RemoveOf, ErasedAt, Without, HashTable.WellLinked, Shaped;
      var p := Predecessor();
      if p == null {
        RemoveNothing(Place());
        return null;
      }
      RemoveErases(hash.State(), bucket, col);
      ErasedChain(hash.State(), bucket, col - 1);
      hash.Walkable(bucket);
      StillAt(hash.buckets[bucket], hash.chains[bucket], col - 1, col - 1);
      r := hashEntry;
      assert r == At(hash.buckets[bucket], hash.chains[bucket], col);
      hash.Unlink(p, r, bucket, col - 1);
      hashEntry := p;
      col := col - 1;
    }
  }
}
