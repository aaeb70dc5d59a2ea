/** Searching as a value: what is ahead of a link, and the sequence of results a search returns. */
module Searching {
  import opened Bits
  import opened BucketWord
  import opened Nodes
  import opened Chains

  ghost predicate Apart(cs: seq<Chain>) {
    forall j, k, n :: 0 <= j < |cs| && 0 <= k < |cs| && n in cs[j] && n in cs[k] ==> j == k
  }

  function First(c: Chain): Node? {
    if c == [] then null else c[0]
  }

  /** What follows an entry in its chain. */
  function After(cs: seq<Chain>, n: Node): Chain {
    if cs == [] then []
    else if n in cs[0] then cs[0][Position(cs[0], n) + 1..]
    else After(cs[1..], n)
  }

  lemma {:induction false} AfterInChain(cs: seq<Chain>, j: nat, i: nat)
    requires Apart(cs) && j < |cs| && i < |cs[j]| && Distinct(cs[j])
    ensures After(cs, cs[j][i]) == cs[j][i + 1..]
  {
    var n := cs[j][i];
    assert n in cs[j];
    if j > 0 {
      assert n !in cs[0];
      assert forall k :: 0 <= k < |cs[1..]| ==> cs[1..][k] == cs[k + 1];
      AfterInChain(cs[1..], j - 1, i);
    }
  }

  /** What a search from `pLink` has in front of it: from NULL, the bucket of the hash value. */
  function Ahead(s: TableState, hashValue: u64, pLink: Node?): Chain
    requires Shaped(s)
  {
    if pLink != null then After(s.chains, pLink)
    else if Count(s.word) == 0 then []
    else s.chains[Slot(s, hashValue)]
  }

  lemma FirstMatchWithin(c: Chain, k: nat, i: nat, flags: u32, key: u64)
    requires k <= i < |c| && Masked(flags, c[i].hashValue) == key
    ensures k + FirstMatch(c[k..], flags, key) <= i
    ensures First(Select(c[k..], flags, key)) == c[k + FirstMatch(c[k..], flags, key)]
  {
    hide Masked;
    assert c[k..][i - k] == c[i];
    SelectFromFirstMatch(c[k..], flags, key);
  }

  /** A scan that has not reached an entry with the key has it ahead, or has none ahead. */
  lemma ScanFor(c: Chain, flags: u32, key: u64, n: Node)
    requires Masked(flags, n.hashValue) == key
    ensures var m := FirstMatch(c, flags, key);
            && First(Select(c, flags, key)) == (if m == |c| then null else c[m])
            && (m == |c| ==> n !in c)
            && (m < |c| && c[m] != n ==> (n in c <==> n in c[m + 1..]))
  {
    hide Masked, Select, FirstMatch;
    SelectFromFirstMatch(c, flags, key);
    var m := FirstMatch(c, flags, key);
    if m < |c| { assert c == c[..m] + ([c[m]] + c[m + 1..]); }
  }

  /** An entry is found exactly when it is in the bucket of its own hash value. */
  lemma LookupFromFront(s: TableState, n: Node)
    requires Shaped(s)
    ensures n in Lookup(s, n.hashValue) <==> n in Ahead(s, n.hashValue, null)
  {
    hide Masked, GetBucketIndex, Count, Flags;
    SelectMember(Ahead(s, n.hashValue, null), Flags(s.word), KeyOf(s, n.hashValue), n);
  }

  /** Removal by key in terms of the scan: where it stops, and what it returns. */
  lemma KeyRemovedScan(s: TableState, hashValue: u64)
    requires Shaped(s) && Count(s.word) > 0
    ensures var j := Slot(s, hashValue);
            var m := FirstMatch(s.chains[j], Flags(s.word), KeyOf(s, hashValue));
            && First(Lookup(s, hashValue)) == (if m == |s.chains[j]| then null else s.chains[j][m])
            && KeyRemoved(s, hashValue) == (if m == |s.chains[j]| then s else ErasedAt(s, j, m))
  {
    hide Masked, GetBucketIndex, Count, Flags;
    SelectFromFirstMatch(s.chains[Slot(s, hashValue)], Flags(s.word), KeyOf(s, hashValue));
  }

  lemma SelectNothing(flags: u32, key: u64)
    ensures Select([], flags, key) == []
  {
  }

  lemma SelectStep(c: Chain, i: nat, flags: u32, key: u64)
    requires i < |c|
    ensures Select(c[i..], flags, key) ==
            (if Masked(flags, c[i].hashValue) == key then [c[i]] else []) + Select(c[i + 1..], flags, key)
  {
    hide Masked;
    assert c[i..][1..] == c[i + 1..];
  }

  /** What `HashTableFindNext` returns. */
  function NextMatch(s: TableState, hashValue: u64, pLink: Node?): Node?
    requires Shaped(s)
  {
    First(Select(Ahead(s, hashValue, pLink), Flags(s.word), KeyOf(s, hashValue)))
  }

  lemma GoodApart(s: TableState)
    requires Good(s)
    ensures Apart(s.chains)
  {
    hide Masked, GetBucketIndex, Count, Flags;
    forall j, k, n | 0 <= j < |s.chains| && 0 <= k < |s.chains| && n in s.chains[j] && n in s.chains[k]
      ensures j == k
    {
      assert Index(Count(s.word), Flags(s.word), n.hashValue) == j;
    }
  }

  lemma {:induction false} SelectedAt(c: Chain, flags: u32, key: u64, i: nat) returns (m: nat)
    requires i < |Select(c, flags, key)|
    ensures m < |c| && c[m] == Select(c, flags, key)[i]
    ensures Select(c[m + 1..], flags, key) == Select(c, flags, key)[i + 1..]
    decreases |c|
  {
    hide Masked, Select, FirstMatch;
    SelectFromFirstMatch(c, flags, key);
    var k := FirstMatch(c, flags, key);
    var rest := c[k + 1..];
    BehindFront(c[k], Select(rest, flags, key), i);
    if i == 0 {
      m := k;
    } else {
      m := SelectedAt(rest, flags, key, i - 1);
      SuffixOfSuffix(c, k + 1, m + 1);
      m := k + 1 + m;
    }
  }

  /** Starting from NULL and feeding each result back, a search returns the entries of `Lookup` in
      order, each once, and then NULL. */
  lemma SearchEnumeratesLookup(s: TableState, hashValue: u64)
    requires Good(s)
    ensures var l := Lookup(s, hashValue);
            && NextMatch(s, hashValue, null) == First(l)
            && forall i :: 0 <= i < |l| ==> NextMatch(s, hashValue, l[i]) == First(l[i + 1..])
  {
    hide Masked, GetBucketIndex, Count, Flags, Select, After;
    var f, key, l := Flags(s.word), KeyOf(s, hashValue), Lookup(s, hashValue);
    if Count(s.word) == 0 {
      SelectNothing(f, key);
    } else {
      GoodApart(s);
      var j := Slot(s, hashValue);
      forall i | 0 <= i < |l|
        ensures NextMatch(s, hashValue, l[i]) == First(l[i + 1..])
      {
        var m := SelectedAt(s.chains[j], f, key, i);
        AfterInChain(s.chains, j, m);
      }
    }
  }
}
