/** The table as a value: its packed word and the entries of each bucket, front to back. The
    operations of the linked table are specified here, and what they promise is proved here. */
module Chains {
  import opened Bits
  import ByteHash
  import opened BucketWord
  import opened Nodes

  type Chain = seq<Node>

  datatype TableState = TableState(word: u32, chains: seq<Chain>)

  function Flat(cs: seq<Chain>): Chain {
    if cs == [] then [] else cs[0] + Flat(cs[1..])
  }

  ghost predicate Distinct(c: Chain) {
    forall i, j :: 0 <= i < j < |c| ==> c[i] != c[j]
  }

  function Reverse(c: Chain): Chain {
    if c == [] then [] else Reverse(c[1..]) + [c[0]]
  }

  function Without(c: Chain, k: nat): Chain
    requires k < |c|
  {
    c[..k] + c[k + 1..]
  }

  /** The bucket of a hash value in a table of `count` buckets. */
  function Index(count: u32, flags: u32, hashValue: u64): u32 {
    GetBucketIndex(count, Masked(flags, hashValue))
  }

  /** The entries with a given masked key, in chain order. */
  function Select(c: Chain, flags: u32, key: u64): Chain {
    if c == [] then []
    else (if Masked(flags, c[0].hashValue) == key then [c[0]] else []) + Select(c[1..], flags, key)
  }

  /** The entries that belong in bucket `k` of a table of `count` buckets. */
  function InBucket(c: Chain, count: u32, flags: u32, k: nat): Chain {
    if c == [] then []
    else (if Index(count, flags, c[0].hashValue) == k then [c[0]] else []) + InBucket(c[1..], count, flags, k)
  }

  /** Where a scan for `key` stops: the first match, or the end. */
  function FirstMatch(c: Chain, flags: u32, key: u64): (k: nat)
    ensures k <= |c|
    ensures forall i :: 0 <= i < k ==> Masked(flags, c[i].hashValue) != key
    ensures k < |c| ==> Masked(flags, c[k].hashValue) == key
  {
    if c == [] || Masked(flags, c[0].hashValue) == key then 0 else 1 + FirstMatch(c[1..], flags, key)
  }

  // ---- the invariant

  ghost predicate Placed(cs: seq<Chain>, count: u32, flags: u32) {
    forall j, n :: 0 <= j < |cs| && n in cs[j] ==> Index(count, flags, n.hashValue) == j
  }

  ghost predicate Shaped(s: TableState) {
    ValidCount(Count(s.word)) && |s.chains| == Count(s.word)
  }

  /** Every entry is in the bucket of its masked key, once. */
  ghost predicate Good(s: TableState) {
    && Shaped(s)
    && Placed(s.chains, Count(s.word), Flags(s.word))
    && forall j :: 0 <= j < |s.chains| ==> Distinct(s.chains[j])
  }

  function Slot(s: TableState, hashValue: u64): (i: nat)
    requires Shaped(s) && Count(s.word) > 0
    ensures i < |s.chains|
    ensures i == Index(Count(s.word), Flags(s.word), hashValue)
  {
    IndexIsRemainder(Count(s.word), Masked(Flags(s.word), hashValue));
    Index(Count(s.word), Flags(s.word), hashValue)
  }

  function KeyOf(s: TableState, hashValue: u64): u64 {
    Masked(Flags(s.word), hashValue)
  }

  /** The entries a search for `hashValue` goes through. */
  function Lookup(s: TableState, hashValue: u64): Chain
    requires Shaped(s)
  {
    if Count(s.word) == 0 then [] else Select(s.chains[Slot(s, hashValue)], Flags(s.word), KeyOf(s, hashValue))
  }

  // ---- the operations

  /** `ItemCount` is a 32-bit word, and removal by key gives up when it reads zero. */
  predicate ReadsZero(entries: nat) {
    entries % TWO_32 == 0
  }

  function Pushed(cs: seq<Chain>, j: nat, n: Node): seq<Chain>
    requires j < |cs|
  {
    cs[j := [n] + cs[j]]
  }

  function Inserted(s: TableState, n: Node): TableState
    requires Shaped(s) && Count(s.word) > 0
  {
    s.(chains := Pushed(s.chains, Slot(s, n.hashValue), n))
  }

  function ErasedAt(s: TableState, j: nat, i: nat): TableState
    requires j < |s.chains| && i < |s.chains[j]|
  {
    s.(chains := s.chains[j := Without(s.chains[j], i)])
  }

  function KeyRemoved(s: TableState, hashValue: u64): TableState
    requires Shaped(s)
  {
    if Count(s.word) == 0 then s
    else
      var j := Slot(s, hashValue);
      var i := FirstMatch(s.chains[j], Flags(s.word), KeyOf(s, hashValue));
      if i == |s.chains[j]| then s else ErasedAt(s, j, i)
  }

  function Empty(count: nat): seq<Chain> {
    seq(count, _ => [])
  }

  /** Indexing by `indexCount` sends every entry to one of the first `bound` buckets, as it does
      whenever `indexCount` is a count of at most `bound`. */
  ghost predicate Within(es: Chain, indexCount: u32, flags: u32, bound: nat)
    ensures ValidCount(indexCount) && indexCount <= bound && (es != [] ==> indexCount > 0) ==>
              Within(es, indexCount, flags, bound)
  {
    IndicesBelow(indexCount, flags);
    forall n :: n in es ==> Index(indexCount, flags, n.hashValue) < bound
  }

  lemma IndicesBelow(count: u32, flags: u32)
    ensures ValidCount(count) && count > 0 ==> forall h: u64 :: Index(count, flags, h) < count
  {
    hide Masked, GetBucketIndex;
    forall h: u64 | ValidCount(count) && count > 0
      ensures Index(count, flags, h) < count
    {
      IndexIsRemainder(count, Masked(flags, h));
    }
  }

  /** Push the entries, in order, each onto the front of the bucket its hash selects among
      `indexCount`. */
  function Distributed(cs: seq<Chain>, es: Chain, indexCount: u32, flags: u32): seq<Chain>
    requires Within(es, indexCount, flags, |cs|)
    decreases |es|
  {
    if es == [] then cs
    else
      Distributed(Pushed(cs, Index(indexCount, flags, es[0].hashValue), es[0]), es[1..], indexCount, flags)
  }

  /** `HashTableChangeTable`: all entries moved to `count` empty buckets, indexed by `indexCount`. */
  function Rehashed(s: TableState, count: u32, indexCount: u32): TableState
    requires Within(Flat(s.chains), indexCount, Flags(s.word), count)
  {
    TableState(WithCount(count, s.word),
               Distributed(Empty(count), Flat(s.chains), indexCount, Flags(s.word)))
  }

  // ---- sequences

  lemma {:induction false} FlatMember(cs: seq<Chain>, n: Node)
    ensures n in Flat(cs) <==> exists j :: 0 <= j < |cs| && n in cs[j]
  {
    if cs != [] {
      FlatMember(cs[1..], n);
      if j :| 0 <= j < |cs| && n in cs[j] {
        if j > 0 { assert n in cs[1..][j - 1]; }
      }
      if n in Flat(cs[1..]) {
        var j :| 0 <= j < |cs[1..]| && n in cs[1..][j];
        assert n in cs[j + 1];
      }
    }
  }

  lemma Regroup(a: Chain, b: Chain, c: Chain)
    ensures a + (b + c) == (a + b) + c
  {
  }

  lemma BehindFront(n: Node, c: Chain, i: nat)
    requires i <= |c|
    ensures ([n] + c)[i + 1..] == c[i..]
    ensures i > 0 ==> ([n] + c)[i] == c[i - 1]
  {
  }

  lemma SuffixOfSuffix(c: Chain, a: nat, b: nat)
    requires a + b <= |c|
    ensures c[a..][b..] == c[a + b..]
  {
  }

  lemma SwapSummand(a: multiset<Node>, b: multiset<Node>, b': multiset<Node>, c: multiset<Node>, c': multiset<Node>)
    requires b + c == b' + c'
    ensures (a + b) + c == (a + b') + c'
  {
    assert (a + b) + c == a + (b + c);
    assert (a + b') + c' == a + (b' + c');
  }

  lemma {:induction false} FlatUpdate(cs: seq<Chain>, j: nat, c: Chain)
    requires j < |cs|
    ensures multiset(Flat(cs[j := c])) + multiset(cs[j]) == multiset(Flat(cs)) + multiset(c)
    ensures |Flat(cs[j := c])| + |cs[j]| == |Flat(cs)| + |c|
  {
    if j == 0 {
      assert cs[j := c][1..] == cs[1..];
    } else {
      FlatUpdate(cs[1..], j - 1, c);
      assert cs[j := c][1..] == cs[1..][j - 1 := c];
      var new', old' := Flat(cs[1..][j - 1 := c]), Flat(cs[1..]);
      assert Flat(cs[j := c]) == cs[0] + new';
      SwapSummand(multiset(cs[0]), multiset(new'), multiset(old'), multiset(cs[j]), multiset(c));
    }
  }

  lemma Cancel(a: multiset<Node>, b: multiset<Node>, c: multiset<Node>)
    requires a + c == b + c
    ensures a == b
  {
    forall x
      ensures a[x] == b[x]
    {
      assert (a + c)[x] == (b + c)[x];
    }
  }

  /** Growing a chain by one entry grows the table by that entry. */
  lemma FlatPushed(cs: seq<Chain>, j: nat, n: Node)
    requires j < |cs|
    ensures multiset(Flat(Pushed(cs, j, n))) == multiset(Flat(cs)) + multiset{n}
  {
    var c := [n] + cs[j];
    FlatUpdate(cs, j, c);
    assert multiset(c) == multiset{n} + multiset(cs[j]);
    Cancel(multiset(Flat(Pushed(cs, j, n))), multiset(Flat(cs)) + multiset{n}, multiset(cs[j]));
  }

  lemma WithoutContents(c: Chain, i: nat)
    requires i < |c|
    ensures multiset(c) == multiset(Without(c, i)) + multiset{c[i]}
  {
    assert c == c[..i] + ([c[i]] + c[i + 1..]);
  }

  lemma FlatWithout(cs: seq<Chain>, j: nat, i: nat)
    requires j < |cs| && i < |cs[j]|
    ensures multiset(Flat(cs[j := Without(cs[j], i)])) + multiset{cs[j][i]} == multiset(Flat(cs))
  {
    var c, d := cs[j], Without(cs[j], i);
    FlatUpdate(cs, j, d);
    WithoutContents(c, i);
    var f, g, x := multiset(Flat(cs[j := d])), multiset(Flat(cs)), multiset{c[i]};
    assert (f + x) + multiset(d) == f + multiset(c);
    Cancel(f + x, g, multiset(d));
  }

  lemma {:induction false} FlatSplit(a: seq<Chain>, b: seq<Chain>)
    ensures Flat(a + b) == Flat(a) + Flat(b)
  {
    if a == [] {
      assert a + b == b;
    } else {
      FlatSplit(a[1..], b);
      assert (a + b)[1..] == a[1..] + b;
      assert Flat(a) == a[0] + Flat(a[1..]);
      assert Flat(a + b) == a[0] + Flat(a[1..] + b);
      hide Flat;
      Regroup(a[0], Flat(a[1..]), Flat(b));
    }
  }

  lemma {:induction false} FlatEmpty(count: nat)
    ensures Flat(Empty(count)) == []
  {
    if count > 0 {
      FlatEmpty(count - 1);
      assert Empty(count)[1..] == Empty(count - 1);
    }
  }

  lemma {:induction false} ReverseConcat(a: Chain, b: Chain)
    ensures Reverse(a + b) == Reverse(b) + Reverse(a)
  {
    if a == [] {
      assert a + b == b;
    } else {
      ReverseConcat(a[1..], b);
      assert (a + b)[1..] == a[1..] + b;
    }
  }

  lemma {:induction false} ReverseMember(c: Chain, n: Node)
    ensures n in Reverse(c) <==> n in c
    ensures |Reverse(c)| == |c|
  {
    if c != [] {
      ReverseMember(c[1..], n);
      assert c == [c[0]] + c[1..];
    }
  }

  lemma {:induction false} ReverseDistinct(c: Chain)
    requires Distinct(c)
    ensures Distinct(Reverse(c))
  {
    if c != [] {
      ReverseDistinct(c[1..]);
      ReverseMember(c[1..], c[0]);
      var r := Reverse(c[1..]);
      assert c[0] !in r;
      forall i, j | 0 <= i < j < |Reverse(c)|
        ensures Reverse(c)[i] != Reverse(c)[j]
      {
        if j == |r| { assert r[i] in r; }
      }
    }
  }

  // ---- selection

  lemma {:induction false} SelectMember(c: Chain, flags: u32, key: u64, n: Node)
    ensures n in Select(c, flags, key) <==> n in c && Masked(flags, n.hashValue) == key
  {
    hide Masked;
    if c != [] {
      SelectMember(c[1..], flags, key, n);
      assert c == [c[0]] + c[1..];
    }
  }

  lemma {:induction false} SelectDistinct(c: Chain, flags: u32, key: u64)
    requires Distinct(c)
    ensures Distinct(Select(c, flags, key))
  {
    hide Masked;
    if c != [] {
      SelectDistinct(c[1..], flags, key);
      SelectMember(c[1..], flags, key, c[0]);
      var r := Select(c[1..], flags, key);
      assert c[0] !in r;
      assert forall i :: 0 <= i < |r| ==> r[i] in r;
    }
  }

  lemma SelectFront(n: Node, c: Chain, flags: u32, key: u64)
    ensures Select([n] + c, flags, key) ==
            (if Masked(flags, n.hashValue) == key then [n] else []) + Select(c, flags, key)
  {
    hide Masked;
    assert ([n] + c)[1..] == c;
  }

  lemma {:induction false} SelectConcat(a: Chain, b: Chain, flags: u32, key: u64)
    ensures Select(a + b, flags, key) == Select(a, flags, key) + Select(b, flags, key)
  {
    hide Masked;
    if a == [] {
      assert a + b == b;
    } else {
      SelectConcat(a[1..], b, flags, key);
      SelectFront(a[0], a[1..], flags, key);
      SelectFront(a[0], a[1..] + b, flags, key);
      hide Select;
      assert [a[0]] + a[1..] == a && [a[0]] + (a[1..] + b) == a + b;
      Regroup(if Masked(flags, a[0].hashValue) == key then [a[0]] else [],
              Select(a[1..], flags, key), Select(b, flags, key));
    }
  }

  lemma {:induction false} SelectReverse(c: Chain, flags: u32, key: u64)
    ensures Select(Reverse(c), flags, key) == Reverse(Select(c, flags, key))
  {
    hide Masked;
    if c != [] {
      var r := Select(c[1..], flags, key);
      SelectReverse(c[1..], flags, key);
      SelectConcat(Reverse(c[1..]), [c[0]], flags, key);
      assert [c[0]][1..] == [];
      if Masked(flags, c[0].hashValue) == key {
        ReverseConcat([c[0]], r);
        assert Reverse([c[0]]) == [c[0]] by { assert [c[0]][1..] == []; }
      } else {
        assert Select(c, flags, key) == r;
      }
    }
  }

  lemma FirstMatchFront(n: Node, c: Chain, flags: u32, key: u64)
    ensures FirstMatch([n] + c, flags, key) ==
            if Masked(flags, n.hashValue) == key then 0 else 1 + FirstMatch(c, flags, key)
  {
    hide Masked;
    assert ([n] + c)[1..] == c;
  }

  /** A scan stops at the head of the selection. */
  lemma {:induction false} SelectFromFirstMatch(c: Chain, flags: u32, key: u64)
    ensures var k := FirstMatch(c, flags, key);
            Select(c, flags, key) == if k == |c| then [] else [c[k]] + Select(c[k + 1..], flags, key)
  {
    hide Masked;
    if c != [] {
      var n, rest := c[0], c[1..];
      SelectFromFirstMatch(rest, flags, key);
      SelectFront(n, rest, flags, key);
      FirstMatchFront(n, rest, flags, key);
      hide Select, FirstMatch;
      assert [n] + rest == c;
      var k, s := FirstMatch(rest, flags, key), Select(rest, flags, key);
      if Masked(flags, n.hashValue) != key {
        assert [] + s == s;
        if k < |rest| { BehindFront(n, rest, k + 1); }
      }
    }
  }

  lemma SelectWithout(c: Chain, k: nat, flags: u32, key: u64)
    requires k < |c|
    ensures Select(Without(c, k), flags, key) == Select(c[..k], flags, key) + Select(c[k + 1..], flags, key)
    ensures Select(c, flags, key) ==
            Select(c[..k], flags, key)
            + (if Masked(flags, c[k].hashValue) == key then [c[k]] else [])
            + Select(c[k + 1..], flags, key)
  {
    hide Masked;
    SelectConcat(c[..k], c[k + 1..], flags, key);
    assert c == c[..k] + ([c[k]] + c[k + 1..]);
    SelectConcat(c[..k], [c[k]] + c[k + 1..], flags, key);
    SelectConcat([c[k]], c[k + 1..], flags, key);
    assert [c[k]][1..] == [];
  }

  // ---- Lookup is exact

  /** A search goes through exactly the table's entries with that masked key, each once. */
  lemma LookupExact(s: TableState, hashValue: u64)
    requires Good(s)
    ensures forall n :: n in Lookup(s, hashValue) <==>
                          n in Flat(s.chains) && KeyOf(s, n.hashValue) == KeyOf(s, hashValue)
    ensures Distinct(Lookup(s, hashValue))
  {
    hide Masked, GetBucketIndex, Count, Flags, WithCount;
    var f, key := Flags(s.word), KeyOf(s, hashValue);
    if Count(s.word) > 0 {
      SelectDistinct(s.chains[Slot(s, hashValue)], f, key);
    }
    forall n
      ensures n in Lookup(s, hashValue) <==> n in Flat(s.chains) && KeyOf(s, n.hashValue) == key
    {
      FlatMember(s.chains, n);
      if Count(s.word) > 0 {
        SelectMember(s.chains[Slot(s, hashValue)], f, key, n);
      }
    }
  }

  // ---- the operations keep the invariant and mean what they should

  lemma InsertedGood(s: TableState, n: Node)
    requires Good(s) && Count(s.word) > 0 && n !in Flat(s.chains)
    ensures Good(Inserted(s, n))
  {
    hide Masked, GetBucketIndex, Count, Flags, WithCount;
    var j := Slot(s, n.hashValue);
    FlatMember(s.chains, n);
    var t := Inserted(s, n).chains;
    assert forall k, m :: 0 <= k < |t| && m in t[k] ==> m in s.chains[k] || (k == j && m == n);
  }

  /** Inserting puts the entry in front of those with its key and changes no other search. */
  lemma InsertedLookup(s: TableState, n: Node, hashValue: u64)
    requires Good(s) && Count(s.word) > 0 && n !in Flat(s.chains)
    ensures Lookup(Inserted(s, n), hashValue) ==
            (if KeyOf(s, n.hashValue) == KeyOf(s, hashValue) then [n] else []) + Lookup(s, hashValue)
  {
    hide Masked, GetBucketIndex, Count, Flags, WithCount;
    var c := s.chains[Slot(s, n.hashValue)];
    SelectConcat([n], c, Flags(s.word), KeyOf(s, hashValue));
    assert [n][1..] == [];
  }

  lemma WithoutDistinct(c: Chain, k: nat)
    requires Distinct(c) && k < |c|
    ensures Distinct(Without(c, k))
  {
  }

  lemma ErasedGood(s: TableState, j: nat, i: nat)
    requires Good(s) && j < |s.chains| && i < |s.chains[j]|
    ensures Good(ErasedAt(s, j, i))
    ensures multiset(Flat(ErasedAt(s, j, i).chains)) + multiset{s.chains[j][i]} == multiset(Flat(s.chains))
  {
    hide Masked, GetBucketIndex, Count, Flags, WithCount;
    hide Flat, Index;
    FlatWithout(s.chains, j, i);
    var t := ErasedAt(s, j, i).chains;
    WithoutDistinct(s.chains[j], i);
    assert forall k, m :: 0 <= k < |t| && m in t[k] ==> m in s.chains[k];
  }

  /** Where an entry stands in a chain; the length of the chain when it is not there. */
  function Position(c: Chain, n: Node): (k: nat)
    ensures k <= |c|
    ensures k < |c| ==> c[k] == n
    ensures k < |c| <==> n in c
  {
    if c == [] || c[0] == n then 0 else 1 + Position(c[1..], n)
  }

  function Dropped(c: Chain, n: Node): Chain {
    var k := Position(c, n);
    if k == |c| then c else Without(c, k)
  }

  lemma SelectDropped(c: Chain, i: nat, flags: u32, key: u64)
    requires Distinct(c) && i < |c|
    ensures Select(Without(c, i), flags, key) == Dropped(Select(c, flags, key), c[i])
  {
    hide Masked;
    hide Select, Dropped;
    var n, a, b := c[i], Select(c[..i], flags, key), Select(c[i + 1..], flags, key);
    SelectWithout(c, i, flags, key);
    SelectMember(c[..i], flags, key, n);
    SelectMember(c[i + 1..], flags, key, n);
    assert n !in a;
    assert n !in b;
    if Masked(flags, n.hashValue) == key {
      DroppedAfter(a, n, b);
    } else {
      assert a + [] + b == a + b;
      DroppedAbsent(a + b, n);
    }
  }

  lemma DroppedAbsent(c: Chain, n: Node)
    requires n !in c
    ensures Dropped(c, n) == c
  {
  }

  lemma DroppedAfter(a: Chain, n: Node, b: Chain)
    requires n !in a
    ensures Dropped(a + [n] + b, n) == a + b
  {
    PositionAfter(a, n, b);
    assert Without(a + [n] + b, |a|) == a + b;
  }

  lemma {:induction false} PositionAfter(a: Chain, n: Node, b: Chain)
    requires n !in a
    ensures Position(a + [n] + b, n) == |a|
  {
    if a != [] {
      assert a == [a[0]] + a[1..];
      assert (a + [n] + b)[1..] == a[1..] + [n] + b;
      PositionAfter(a[1..], n, b);
    }
  }

  /** Erasing an entry takes it out of its own search and changes no other. */
  lemma ErasedLookup(s: TableState, j: nat, i: nat, hashValue: u64)
    requires Good(s) && j < |s.chains| && i < |s.chains[j]|
    ensures Lookup(ErasedAt(s, j, i), hashValue) == Dropped(Lookup(s, hashValue), s.chains[j][i])
  {
    hide Masked, GetBucketIndex, Count, Flags, WithCount;
    var n := s.chains[j][i];
    assert n in s.chains[j];
    if Slot(s, hashValue) == j {
      SelectDropped(s.chains[j], i, Flags(s.word), KeyOf(s, hashValue));
    } else {
      SelectMember(s.chains[Slot(s, hashValue)], Flags(s.word), KeyOf(s, hashValue), n);
    }
  }

  /** Removing by key takes out the entry a fresh search returns first, and nothing else. */
  lemma KeyRemovedLookup(s: TableState, removed: u64, hashValue: u64)
    requires Good(s)
    ensures Good(KeyRemoved(s, removed))
    ensures Lookup(KeyRemoved(s, removed), hashValue) ==
            if KeyOf(s, removed) == KeyOf(s, hashValue) && Lookup(s, removed) != []
            then Lookup(s, hashValue)[1..] else Lookup(s, hashValue)
    ensures var l := Lookup(s, removed);
            multiset(Flat(KeyRemoved(s, removed).chains)) + multiset(if l == [] then [] else l[..1])
            == multiset(Flat(s.chains))
  {
    hide Masked, GetBucketIndex, Count, Flags, WithCount;
    if Count(s.word) > 0 {
      var f, key := Flags(s.word), KeyOf(s, removed);
      var j := Slot(s, removed);
      var i := FirstMatch(s.chains[j], f, key);
      SelectFromFirstMatch(s.chains[j], f, key);
      if i < |s.chains[j]| {
        var n := s.chains[j][i];
        ErasedGood(s, j, i);
        ErasedLookup(s, j, i, hashValue);
        LookupExact(s, hashValue);
        assert Lookup(s, removed)[0] == n;
        assert Lookup(s, removed)[..1] == [n];
        if KeyOf(s, hashValue) != key {
          assert n !in Lookup(s, hashValue);
        }
      }
    }
  }

  // ---- changing the bucket array

  lemma {:induction false} DistributedBucket(cs: seq<Chain>, es: Chain, indexCount: u32, flags: u32, k: nat)
    requires Within(es, indexCount, flags, |cs|)
    requires k < |cs|
    ensures |Distributed(cs, es, indexCount, flags)| == |cs|
    ensures Distributed(cs, es, indexCount, flags)[k] == Reverse(InBucket(es, indexCount, flags, k)) + cs[k]
    decreases |es|
  {
    hide Masked, GetBucketIndex, Count, Flags, WithCount;
    if es != [] {
      var j := Index(indexCount, flags, es[0].hashValue);
      DistributedBucket(Pushed(cs, j, es[0]), es[1..], indexCount, flags, k);
      if j == k {
        ReverseConcat([es[0]], InBucket(es[1..], indexCount, flags, k));
        assert Reverse([es[0]]) == [es[0]] by { assert [es[0]][1..] == []; }
      } else {
        assert InBucket(es, indexCount, flags, k) == InBucket(es[1..], indexCount, flags, k);
      }
    }
  }

  lemma {:induction false} DistributedSize(cs: seq<Chain>, es: Chain, indexCount: u32, flags: u32)
    requires Within(es, indexCount, flags, |cs|)
    ensures |Distributed(cs, es, indexCount, flags)| == |cs|
    decreases |es|
  {
    hide Masked, GetBucketIndex;
    if es != [] {
      var j := Index(indexCount, flags, es[0].hashValue);
      DistributedSize(Pushed(cs, j, es[0]), es[1..], indexCount, flags);
    }
  }

  lemma {:induction false} DistributedContents(cs: seq<Chain>, es: Chain, indexCount: u32, flags: u32)
    requires Within(es, indexCount, flags, |cs|)
    ensures multiset(Flat(Distributed(cs, es, indexCount, flags))) == multiset(Flat(cs)) + multiset(es)
    decreases |es|
  {
    hide Masked, GetBucketIndex, Flat;
    if es != [] {
      var n, rest, j := es[0], es[1..], Index(indexCount, flags, es[0].hashValue);
      assert Distributed(cs, es, indexCount, flags) == Distributed(Pushed(cs, j, n), rest, indexCount, flags);
      DistributedContents(Pushed(cs, j, n), rest, indexCount, flags);
      FlatPushed(cs, j, n);
      assert multiset(es) == multiset{n} + multiset(rest) by { assert es == [n] + rest; }
    }
  }

  lemma {:induction false} InBucketMember(c: Chain, count: u32, flags: u32, k: nat, n: Node)
    ensures n in InBucket(c, count, flags, k) <==> n in c && Index(count, flags, n.hashValue) == k
  {
    hide Masked, GetBucketIndex, Count, Flags, WithCount;
    if c != [] {
      InBucketMember(c[1..], count, flags, k, n);
      assert c == [c[0]] + c[1..];
    }
  }

  lemma InBucketFront(n: Node, c: Chain, count: u32, flags: u32, k: nat)
    ensures InBucket([n] + c, count, flags, k) ==
            (if Index(count, flags, n.hashValue) == k then [n] else []) + InBucket(c, count, flags, k)
  {
    hide Index;
    assert ([n] + c)[1..] == c;
  }

  lemma {:induction false} InBucketConcat(a: Chain, b: Chain, count: u32, flags: u32, k: nat)
    ensures InBucket(a + b, count, flags, k) == InBucket(a, count, flags, k) + InBucket(b, count, flags, k)
  {
    hide Index;
    if a == [] {
      assert a + b == b;
    } else {
      InBucketConcat(a[1..], b, count, flags, k);
      InBucketFront(a[0], a[1..], count, flags, k);
      InBucketFront(a[0], a[1..] + b, count, flags, k);
      hide InBucket;
      assert [a[0]] + a[1..] == a && [a[0]] + (a[1..] + b) == a + b;
      Regroup(if Index(count, flags, a[0].hashValue) == k then [a[0]] else [],
              InBucket(a[1..], count, flags, k), InBucket(b, count, flags, k));
    }
  }

  lemma {:induction false} InBucketDistinct(c: Chain, count: u32, flags: u32, k: nat)
    requires Distinct(c)
    ensures Distinct(InBucket(c, count, flags, k))
  {
    hide Masked, GetBucketIndex, Count, Flags, WithCount;
    if c != [] {
      InBucketDistinct(c[1..], count, flags, k);
      InBucketMember(c[1..], count, flags, k, c[0]);
      var r := InBucket(c[1..], count, flags, k);
      assert forall i :: 0 <= i < |r| ==> r[i] in r;
    }
  }

  /** All entries with a key lie in one bucket, so narrowing to that bucket loses none of them. */
  lemma {:induction false} SelectInBucket(c: Chain, count: u32, flags: u32, hashValue: u64)
    ensures Select(InBucket(c, count, flags, Index(count, flags, hashValue)), flags, Masked(flags, hashValue)) ==
            Select(c, flags, Masked(flags, hashValue))
  {
    hide Masked, GetBucketIndex;
    if c != [] {
      var k, key := Index(count, flags, hashValue), Masked(flags, hashValue);
      var n, rest := c[0], c[1..];
      SelectInBucket(rest, count, flags, hashValue);
      SelectFront(n, rest, flags, key);
      SelectFront(n, InBucket(rest, count, flags, k), flags, key);
      InBucketFront(n, rest, count, flags, k);
      hide Select, InBucket;
      var r := InBucket(rest, count, flags, k);
      assert [n] + rest == c;
      assert [] + r == r;
      assert [] + Select(rest, flags, key) == Select(rest, flags, key);
    }
  }

  ghost predicate PlacedFrom(cs: seq<Chain>, base: nat, count: u32, flags: u32) {
    forall j, n :: 0 <= j < |cs| && n in cs[j] ==> Index(count, flags, n.hashValue) == base + j
  }

  /** In a placed table the entries of bucket `k` are chain `k`. */
  lemma {:induction false} InBucketOfFlat(cs: seq<Chain>, base: nat, count: u32, flags: u32, k: nat)
    requires PlacedFrom(cs, base, count, flags)
    ensures InBucket(Flat(cs), count, flags, k) == if base <= k < base + |cs| then cs[k - base] else []
  {
    hide Masked, GetBucketIndex, Count, Flags, WithCount;
    if cs != [] {
      assert forall j, n :: 0 <= j < |cs[1..]| && n in cs[1..][j] ==> n in cs[j + 1];
      InBucketOfFlat(cs[1..], base + 1, count, flags, k);
      InBucketConcat(cs[0], Flat(cs[1..]), count, flags, k);
      assert forall n :: n in cs[0] ==> Index(count, flags, n.hashValue) == base;
      AllOrNone(cs[0], count, flags, base, k);
    }
  }

  lemma InBucketOfTable(s: TableState, k: nat)
    requires Good(s)
    ensures InBucket(Flat(s.chains), Count(s.word), Flags(s.word), k) == if k < |s.chains| then s.chains[k] else []
  {
    hide Index, Count, Flags, Flat, InBucket, Distinct;
    InBucketOfFlat(s.chains, 0, Count(s.word), Flags(s.word), k);
  }

  lemma {:induction false} AllOrNone(c: Chain, count: u32, flags: u32, j: nat, k: nat)
    requires forall n :: n in c ==> Index(count, flags, n.hashValue) == j
    ensures InBucket(c, count, flags, k) == if j == k then c else []
  {
    hide Masked, GetBucketIndex, Count, Flags, WithCount;
    if c != [] {
      assert c == [c[0]] + c[1..];
      AllOrNone(c[1..], count, flags, j, k);
    }
  }

  lemma {:induction false} FlatDistinct(cs: seq<Chain>, base: nat, count: u32, flags: u32)
    requires PlacedFrom(cs, base, count, flags)
    requires forall j :: 0 <= j < |cs| ==> Distinct(cs[j])
    ensures Distinct(Flat(cs))
  {
    hide Masked, GetBucketIndex, Count, Flags, WithCount;
    if cs != [] {
      var rest := Flat(cs[1..]);
      assert forall j, n :: 0 <= j < |cs[1..]| && n in cs[1..][j] ==> n in cs[j + 1];
      FlatDistinct(cs[1..], base + 1, count, flags);
      forall x | x in rest
        ensures Index(count, flags, x.hashValue) > base
      {
        FlatMember(cs[1..], x);
      }
      assert forall i :: 0 <= i < |cs[0]| ==> cs[0][i] in cs[0];
      assert forall i :: 0 <= i < |rest| ==> rest[i] in rest;
    }
  }

  lemma RehashedChain(s: TableState, count: u32, k: nat)
    requires Shaped(s) && ValidCount(count) && (Flat(s.chains) != [] ==> count > 0) && k < count
    ensures var t := Rehashed(s, count, count);
            |t.chains| == count && t.chains[k] == Reverse(InBucket(Flat(s.chains), count, Flags(s.word), k))
  {
    hide Masked, GetBucketIndex, Count, Flags, WithCount, Flat;
    DistributedBucket(Empty(count), Flat(s.chains), count, Flags(s.word), k);
  }

  /** Rehashing by the new count keeps the invariant and the entries. */
  lemma RehashedGood(s: TableState, count: u32)
    requires Good(s) && ValidCount(count) && (Flat(s.chains) != [] ==> count > 0)
    ensures Good(Rehashed(s, count, count))
    ensures multiset(Flat(Rehashed(s, count, count).chains)) == multiset(Flat(s.chains))
  {
    hide Masked, GetBucketIndex, Count, Flags, WithCount, Index, Flat, InBucket, Reverse;
    var f, es := Flags(s.word), Flat(s.chains);
    var t := Rehashed(s, count, count);
    CountStored(count, s.word);
    FlatEmpty(count);
    DistributedContents(Empty(count), es, count, f);
    DistributedSize(Empty(count), es, count, f);
    FlatDistinct(s.chains, 0, Count(s.word), f);
    hide Rehashed, Distributed;
    forall k | 0 <= k < |t.chains|
      ensures Distinct(t.chains[k])
      ensures forall n :: n in t.chains[k] ==> Index(count, f, n.hashValue) == k
    {
      var c := InBucket(es, count, f, k);
      RehashedChain(s, count, k);
      InBucketDistinct(es, count, f, k);
      ReverseDistinct(c);
      forall n | n in t.chains[k]
        ensures Index(count, f, n.hashValue) == k
      {
        ReverseMember(c, n);
        InBucketMember(es, count, f, k, n);
      }
    }
  }

  lemma LookupInFlat(s: TableState, hashValue: u64)
    requires Good(s)
    ensures Lookup(s, hashValue) == Select(Flat(s.chains), Flags(s.word), KeyOf(s, hashValue))
  {
    hide InBucket, Masked, GetBucketIndex, Count, Flags, WithCount;
    if Count(s.word) > 0 {
      InBucketOfTable(s, Slot(s, hashValue));
      SelectInBucket(Flat(s.chains), Count(s.word), Flags(s.word), hashValue);
    }
  }

  /** Rehashing by the new count reverses every search and loses nothing. */
  lemma RehashedLookup(s: TableState, count: u32, hashValue: u64)
    requires Good(s) && ValidCount(count) && (Flat(s.chains) != [] ==> count > 0)
    ensures Good(Rehashed(s, count, count))
    ensures Lookup(Rehashed(s, count, count), hashValue) == Reverse(Lookup(s, hashValue))
  {
    hide Masked, GetBucketIndex, Count, Flags, WithCount;
    var f, es := Flags(s.word), Flat(s.chains);
    CountStored(count, s.word);
    RehashedGood(s, count);
    LookupInFlat(s, hashValue);
    if count > 0 {
      var t := Rehashed(s, count, count);
      var k := Slot(t, hashValue);
      DistributedBucket(Empty(count), es, count, f, k);
      assert t.chains[k] == Reverse(InBucket(es, count, f, k));
      SelectReverse(InBucket(es, count, f, k), f, Masked(f, hashValue));
      SelectInBucket(es, count, f, hashValue);
    }
  }

  /** The old count sends every entry to a bucket the new array has, exactly when the buckets it
      does not have are empty. */
  lemma WithinIffUpperEmpty(s: TableState, count: u32)
    requires Good(s)
    ensures Within(Flat(s.chains), Count(s.word), Flags(s.word), count) <==>
              forall j :: count <= j < |s.chains| ==> s.chains[j] == []
  {
    hide Masked, GetBucketIndex, Count, Flags;
    var es, c, f := Flat(s.chains), Count(s.word), Flags(s.word);
    if Within(es, c, f, count) {
      forall j | count <= j < |s.chains|
        ensures s.chains[j] == []
      {
        if s.chains[j] != [] {
          assert s.chains[j][0] in s.chains[j];
          FlatMember(s.chains, s.chains[j][0]);
        }
      }
    }
    if forall j :: count <= j < |s.chains| ==> s.chains[j] == [] {
      forall n | n in es
        ensures Index(c, f, n.hashValue) < count
      {
        FlatMember(s.chains, n);
      }
    }
  }

  /** mphashtable.c:124 as written indexes by the old count: chain `j` is reversed into the new
      chain `j` and every further new chain stays empty. */
  lemma RehashedByOldCount(s: TableState, count: u32, k: nat)
    requires Good(s) && ValidCount(count) && k < count
    requires Within(Flat(s.chains), Count(s.word), Flags(s.word), count)
    ensures var t := Rehashed(s, count, Count(s.word));
            && Count(t.word) == |t.chains| == count && Flags(t.word) == Flags(s.word)
            && t.chains[k] == if k < |s.chains| then Reverse(s.chains[k]) else []
  {
    assert Reverse([]) == [];
    hide Masked, GetBucketIndex, Count, Flags, WithCount, Distinct, Placed, Flat, Index, InBucket, Reverse, Distributed;
    CountStored(count, s.word);
    DistributedBucket(Empty(count), Flat(s.chains), Count(s.word), Flags(s.word), k);
    InBucketOfTable(s, k);
  }

  /** After the rehash as written an entry can be found exactly when its bucket did not change. */
  lemma FoundAfterOldCountIff(s: TableState, count: u32, n: Node)
    requires Good(s) && ValidCount(count) && n in Flat(s.chains)
    requires Within(Flat(s.chains), Count(s.word), Flags(s.word), count)
    ensures var t := Rehashed(s, count, Count(s.word));
            && Shaped(t)
            && (n in Lookup(t, n.hashValue) <==>
                  Index(count, Flags(s.word), n.hashValue) == Index(Count(s.word), Flags(s.word), n.hashValue))
  {
    hide Masked, GetBucketIndex, Count, Flags, WithCount;
    var f := Flags(s.word);
    var t := Rehashed(s, count, Count(s.word));
    RehashedByOldCount(s, count, 0);
    var k := Slot(t, n.hashValue);
    RehashedByOldCount(s, count, k);
    SelectMember(t.chains[k], f, Masked(f, n.hashValue), n);
    FlatMember(s.chains, n);
    if k < |s.chains| { ReverseMember(s.chains[k], n); }
  }

  /** The line as written, whether the table grows or shrinks, is right exactly when no entry
      changes its bucket and there are buckets for the entries. */
  lemma OldCountRightIff(s: TableState, count: u32)
    requires Good(s) && ValidCount(count)
    ensures && Within(Flat(s.chains), Count(s.word), Flags(s.word), count)
            && Good(Rehashed(s, count, Count(s.word))) <==>
              && (Flat(s.chains) != [] ==> count > 0)
              && forall n :: n in Flat(s.chains) ==>
                               Index(count, Flags(s.word), n.hashValue)
                               == Index(Count(s.word), Flags(s.word), n.hashValue)
  {
    hide Masked, GetBucketIndex, Count, Flags, WithCount, Index, Flat, Placed;
    var c, f, es := Count(s.word), Flags(s.word), Flat(s.chains);
    IndicesBelow(count, f);
    if Within(es, c, f, count) {
      OldCountPlacedIff(s, count);
      if es != [] { assert Index(c, f, es[0].hashValue) < count; }
    } else {
      var n :| n in es && !(Index(c, f, n.hashValue) < count);
    }
  }

  lemma OldCountPlacedIff(s: TableState, count: u32)
    requires Good(s) && ValidCount(count)
    requires Within(Flat(s.chains), Count(s.word), Flags(s.word), count)
    ensures Good(Rehashed(s, count, Count(s.word))) <==>
              forall n :: n in Flat(s.chains) ==>
                            Index(count, Flags(s.word), n.hashValue) == Index(Count(s.word), Flags(s.word), n.hashValue)
  {
    hide Masked, GetBucketIndex, Count, Flags, WithCount, Flat, Reverse, Distributed;
    var c, f := Count(s.word), Flags(s.word);
    var t := Rehashed(s, count, c);
    CountStored(count, s.word);
    DistributedSize(Empty(count), Flat(s.chains), c, f);
    forall k | 0 <= k < count
      ensures Distinct(t.chains[k])
      ensures forall n :: n in t.chains[k] <==> k < c && n in s.chains[k]
    {
      RehashedByOldCount(s, count, k);
      if k < c {
        ReverseDistinct(s.chains[k]);
        forall n
          ensures n in Reverse(s.chains[k]) <==> n in s.chains[k]
        {
          ReverseMember(s.chains[k], n);
        }
      }
    }
    hide Rehashed;
    if Good(t) {
      forall n | n in Flat(s.chains)
        ensures Index(count, f, n.hashValue) == Index(c, f, n.hashValue)
      {
        FlatMember(s.chains, n);
        var j :| 0 <= j < |s.chains| && n in s.chains[j];
        assert Index(c, f, n.hashValue) == j;
        assert n in t.chains[j];
      }
    }
    if forall n :: n in Flat(s.chains) ==> Index(count, f, n.hashValue) == Index(c, f, n.hashValue) {
      forall j, n | 0 <= j < |t.chains| && n in t.chains[j]
        ensures Index(count, f, n.hashValue) == j
      {
        FlatMember(s.chains, n);
      }
    }
  }

  // ---- a table of one bucket

  function OneBucket(c: Chain): TableState {
    TableState(WithCount(1, 0), [c])
  }

  lemma OneBucketGood(c: Chain, hashValue: u64)
    requires Distinct(c)
    ensures Good(OneBucket(c)) && Count(OneBucket(c).word) == 1 && Flags(OneBucket(c).word) == 0
    ensures Slot(OneBucket(c), hashValue) == 0
    ensures Flat(OneBucket(c).chains) == c
  {
    hide Masked, GetBucketIndex, Count, Flags, WithCount;
    CountStored(1, 0);
    assert Flags(0) == 0 by { DecodedFields(0); }
    assert IsPow2(1) by { assert Pow2(0) == 1; }
    assert [c][1..] == [];
    forall h: u64
      ensures Index(1, 0, h) == 0
    {
      IndexIsRemainder(1, Masked(0, h));
    }
  }

  /** Without flag bits the key is the hash value. */
  lemma NoFlagsKey(hashValue: u64)
    ensures Masked(0, hashValue) == hashValue
  {
    hide Masked;
    MaskedClears(0, hashValue);
    assert Pow2(0) == 1;
  }

  /** The line as written loses an entry: one entry in a table of one bucket, rehashed into two. */
  lemma OldCountLosesAnEntry(n: Node)
    requires n.hashValue == 0
    ensures var s := OneBucket([n]);
            && Good(s) && ValidCount(2) && Count(s.word) == 1 && n in Lookup(s, 0)
            && var t := Rehashed(s, 2, 1);
            Shaped(t) && !Good(t) && n in Flat(t.chains) && n !in Lookup(t, 0)
  {
    hide Masked, GetBucketIndex, Count, Flags, WithCount;
    var s := OneBucket([n]);
    OneBucketGood([n], 0);
    LookupExact(s, 0);
    NoFlagsKey(0);
    assert IsPow2(2) by { assert Pow2(1) == 2; }
    IndexIsRemainder(1, 0);
    IndexIsRemainder(2, 0);
    ByteHash.ZeroHashesOdd();
    assert n in Flat(s.chains);
    FoundAfterOldCountIff(s, 2, n);
    OldCountRightIff(s, 2);
    FlatEmpty(2);
    DistributedContents(Empty(2), [n], 1, 0);
    assert n in multiset(Flat(Rehashed(s, 2, 1).chains));
  }

  /** Shrinking to one bucket, the line as written indexes the only entry past it. */
  lemma OldCountPassesTheHeads(n: Node)
    requires n.hashValue == 0
    ensures var s := TableState(WithCount(2, 0), [[], [n]]);
            Good(s) && ValidCount(1) && !Within(Flat(s.chains), Count(s.word), Flags(s.word), 1)
  {
    hide Masked, GetBucketIndex, Count, Flags, WithCount;
    var s := TableState(WithCount(2, 0), [[], [n]]);
    CountStored(2, 0);
    assert Flags(0) == 0 by { DecodedFields(0); }
    assert IsPow2(2) by { assert Pow2(1) == 2; }
    assert IsPow2(1) by { assert Pow2(0) == 1; }
    NoFlagsKey(0);
    IndexIsRemainder(2, 0);
    ByteHash.ZeroHashesOdd();
    assert s.chains[1][0] == n;
    WithinIffUpperEmpty(s, 1);
  }
}
