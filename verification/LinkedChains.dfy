/** Chains of nodes in the heap: families of chains hanging off an array of heads, and the pointer
    updates the table performs on them. */
module LinkedChains {
  import opened Bits
  import opened BucketWord
  import opened Nodes
  import opened Chains
  import opened Searching

  /** The node whose `next` leads to position `i` of a chain: the head, or the entry before. */
  function At(h: Node, c: Chain, i: nat): Node
    requires i <= |c|
  {
    if i == 0 then h else c[i - 1]
  }

  /** The chain `c` hangs off the head `h` and ends in the sentinel of `t`. */
  ghost predicate Linked(h: Node, c: Chain, t: object)
    reads h`next, c`next
  {
    && (forall i {:trigger At(h, c, i)} :: 0 <= i < |c| ==> At(h, c, i).next == To(c[i]))
    && At(h, c, |c|).next == End(t)
  }

  lemma LinkAt(h: Node, c: Chain, i: nat, t: object)
    requires Linked(h, c, t) && i <= |c|
    ensures At(h, c, i).next == if i < |c| then To(c[i]) else End(t)
  {
  }

  ghost function Entries(cs: seq<Chain>): set<Node> {
    set j, n | 0 <= j < |cs| && n in cs[j] :: n
  }

  /** No two heads, no two entries, and no head and entry are the same node. */
  ghost predicate Separate(heads: seq<Node>, cs: seq<Chain>) {
    && |cs| <= |heads|
    && Distinct(heads)
    && (forall j, n :: 0 <= j < |cs| && n in cs[j] ==> n !in heads)
    && Apart(cs)
    && forall j :: 0 <= j < |cs| ==> Distinct(cs[j])
  }

  lemma SeparatePushed(heads: seq<Node>, cs: seq<Chain>, j: nat, n: Node)
    requires Separate(heads, cs) && j < |cs| && n !in heads && n !in Entries(cs)
    ensures Separate(heads, Pushed(cs, j, n))
  {
    var ds := Pushed(cs, j, n);
    assert forall k :: 0 <= k < |cs| ==> n !in cs[k];
    assert forall k, m :: 0 <= k < |ds| && m in ds[k] ==> m in cs[k] || (k == j && m == n);
  }

  lemma SizePushed(cs: seq<Chain>, j: nat, n: Node)
    requires j < |cs|
    ensures |Flat(Pushed(cs, j, n))| == |Flat(cs)| + 1
  {
    FlatUpdate(cs, j, [n] + cs[j]);
  }

  lemma CountDown(n: nat)
    requires n > 0
    ensures (n % TWO_32 + 0xFFFF_FFFF) % TWO_32 == (n - 1) % TWO_32
    ensures n % TWO_32 > 0 ==> (n - 1) % TWO_32 == n % TWO_32 - 1
  {
  }

  lemma SizeWithout(cs: seq<Chain>, j: nat, i: nat)
    requires j < |cs| && i < |cs[j]|
    ensures |Flat(cs[j := Without(cs[j], i)])| == |Flat(cs)| - 1
  {
    FlatUpdate(cs, j, Without(cs[j], i));
  }

  lemma SeparateWithout(heads: seq<Node>, cs: seq<Chain>, j: nat, i: nat)
    requires Separate(heads, cs) && j < |cs| && i < |cs[j]|
    ensures Separate(heads, cs[j := Without(cs[j], i)])
    ensures cs[j][i] !in Entries(cs[j := Without(cs[j], i)])
  {
    var ds := cs[j := Without(cs[j], i)];
    assert cs[j][i] in cs[j];
    assert forall k, m :: 0 <= k < |ds| && m in ds[k] ==> m in cs[k] && m != cs[j][i];
  }

  /** Changing the two nodes around position `i` of one chain leaves the others alone. */
  lemma ForeignPair(heads: seq<Node>, cs: seq<Chain>, j: nat, i: nat)
    requires Separate(heads, cs) && j < |cs| && i < |cs[j]|
    ensures forall k :: 0 <= k < |cs| && k != j ==>
                          var p := At(heads[j], cs[j], i);
                          heads[k] != p && p !in cs[k] && heads[k] != cs[j][i] && cs[j][i] !in cs[k]
  {
    forall k | 0 <= k < |cs| && k != j
      ensures var p := At(heads[j], cs[j], i);
              heads[k] != p && p !in cs[k] && heads[k] != cs[j][i] && cs[j][i] !in cs[k]
    {
      Foreign(heads, cs, j, i, k);
      Foreign(heads, cs, j, i + 1, k);
    }
  }

  lemma ForeignHead(heads: seq<Node>, cs: seq<Chain>, j: nat)
    requires Separate(heads, cs) && j < |cs|
    ensures |cs| <= |heads| && heads[j] in heads && heads[j] !in cs[j] && Distinct(cs[j])
    ensures forall k :: 0 <= k < |cs| && k != j ==> heads[k] != heads[j] && heads[j] !in cs[k]
  {
    assert heads[j] in heads;
  }

  /** A node that `At` gives for one chain is foreign to every other. */
  lemma Foreign(heads: seq<Node>, cs: seq<Chain>, j: nat, i: nat, k: nat)
    requires Separate(heads, cs) && j < |cs| && i <= |cs[j]| && k < |cs| && k != j
    ensures At(heads[j], cs[j], i) != heads[k] && At(heads[j], cs[j], i) !in cs[k]
  {
    assert heads[j] in heads && heads[k] in heads;
    if i > 0 { assert cs[j][i - 1] in cs[j]; }
  }

  lemma EntriesOfFlat(cs: seq<Chain>)
    ensures forall n :: n in Flat(cs) <==> n in Entries(cs)
  {
    forall n
      ensures n in Flat(cs) <==> n in Entries(cs)
    {
      FlatMember(cs, n);
    }
  }

  /** The WDK's head insertion, on a chain that does not hold the node. */
  method PushEntryList(head: Node, n: Node, ghost c: Chain, ghost t: object)
    requires Linked(head, c, t) && n != head && n !in c && head !in c
    modifies head, n
    ensures Linked(head, [n] + c, t)
  {
    assert At(head, c, 0) == head;
    n.next := head.next;
    head.next := To(n);
    ghost var d := [n] + c;
    forall i | 0 <= i < |d|
      ensures At(head, d, i).next == To(d[i])
    {
      if i >= 2 { assert At(head, d, i) == At(head, c, i - 1) && c[i - 2] in c; }
    }
    if c != [] { assert At(head, d, |d|) == At(head, c, |c|) && c[|c| - 1] in c; }
  }

  /** Take position `i` out of a chain and mark the entry removed. */
  method UnlinkEntry(p: Node, victim: Node, ghost head: Node, ghost c: Chain, ghost i: nat, ghost t: object)
    requires Linked(head, c, t) && Distinct(c) && head !in c
    requires i < |c| && p == At(head, c, i) && victim == c[i]
    modifies p, victim
    ensures Linked(head, Without(c, i), t)
    ensures victim.next == Removed(old(victim.next))
  {
    hide Distinct, Without;
    StillAt(head, c, i, i);
    assert At(head, c, i + 1) == victim;
    ghost var d := Without(c, i);
    p.next := victim.next;
    victim.next := Removed(victim.next);
    forall k | 0 <= k <= |d|
      ensures At(head, d, k).next == if k < |d| then To(d[k]) else End(t)
    {
      StillAt(head, c, i, k);
    }
  }

  lemma StillAt(head: Node, c: Chain, i: nat, k: nat)
    requires i < |c| && k < |c| && Distinct(c) && head !in c
    ensures var d := Without(c, i);
            && |d| == |c| - 1
            && At(head, d, k) == At(head, c, if k <= i then k else k + 1) != c[i]
            && (k != i ==> At(head, d, k) != At(head, c, i))
            && (k < |d| ==> d[k] == if k < i then c[k] else c[k + 1])
  {
    if k > 0 { assert Without(c, i)[k - 1] in c; }
    if i > 0 { assert c[i - 1] in c; }
    assert c[i] in c;
  }

  /** The head and the entries of a chain are pairwise different nodes. */
  lemma OnlyAt(head: Node, c: Chain, col: nat, i: nat)
    requires Distinct(c) && head !in c && col <= |c| && i < |c|
    ensures At(head, c, col) == c[i] ==> col == i + 1
  {
    assert c[i] in c;
  }

  lemma InFamily(heads: seq<Node>, cs: seq<Chain>, j: nat)
    requires j < |cs| && j < |heads|
    ensures heads[j] in heads && forall n :: n in cs[j] ==> n in Entries(cs)
  {
  }

  /** Every chain hangs off its head and ends in the sentinel of `t`. */
  ghost predicate AllLinked(heads: seq<Node>, cs: seq<Chain>, t: object)
    reads heads`next, Entries(cs)`next
  {
    forall j :: 0 <= j < |cs| && j < |heads| ==> (InFamily(heads, cs, j); Linked(heads[j], cs[j], t))
  }

  lemma AllLinkedFrom(heads: seq<Node>, cs: seq<Chain>, t: object)
    requires |cs| <= |heads|
    requires forall j :: 0 <= j < |cs| ==> Linked(heads[j], cs[j], t)
    ensures AllLinked(heads, cs, t)
  {
  }

  lemma LinksOf(heads: seq<Node>, cs: seq<Chain>, t: object)
    requires |cs| <= |heads| && AllLinked(heads, cs, t)
    ensures forall j :: 0 <= j < |cs| ==> Linked(heads[j], cs[j], t)
  {
  }

  lemma SeparateBounds(heads: seq<Node>, cs: seq<Chain>)
    requires Separate(heads, cs)
    ensures |cs| <= |heads|
  {
  }

  lemma NotInAny(cs: seq<Chain>, n: Node)
    requires n !in Entries(cs)
    ensures forall k :: 0 <= k < |cs| ==> n !in cs[k]
  {
  }

  /** `PushEntryList` on one chain of a family of separate chains. */
  method PushOnto(n: Node, heads: seq<Node>, j: nat, ghost cs: seq<Chain>, ghost t: object)
    requires Separate(heads, cs) && AllLinked(heads, cs, t)
    requires j < |cs| && n !in heads && n !in Entries(cs)
    modifies heads[j], n
    ensures Separate(heads, Pushed(cs, j, n)) && AllLinked(heads, Pushed(cs, j, n), t)
  {
    hide Linked, AllLinked, Separate;
    ForeignHead(heads, cs, j);
    LinksOf(heads, cs, t);
    SeparatePushed(heads, cs, j, n);
    assert heads[j] in heads;
    assert forall k :: 0 <= k < |cs| ==> n !in cs[k];
    PushEntryList(heads[j], n, cs[j], t);
    ghost var ds := Pushed(cs, j, n);
    forall k | 0 <= k < |ds|
      ensures Linked(heads[k], ds[k], t)
    {
      assert heads[k] in heads;
      if k != j { assert ds[k] == cs[k]; }
    }
    AllLinkedFrom(heads, ds, t);
  }

  lemma HeadLink(heads: seq<Node>, cs: seq<Chain>, j: nat, t: object)
    requires Separate(heads, cs) && AllLinked(heads, cs, t) && j < |cs|
    ensures |cs| <= |heads|
    ensures heads[j].next == if cs[j] == [] then End(t) else To(cs[j][0])
  {
    LinksOf(heads, cs, t);
    assert At(heads[j], cs[j], 0) == heads[j];
  }

  /** `PushOnto`, next to a second family that shares no node with the first. */
  method PushBeside(n: Node, heads: seq<Node>, j: nat, ghost cs: seq<Chain>,
                    ghost hs: seq<Node>, ghost rest: seq<Chain>, ghost t: object)
    requires Separate(heads, cs) && AllLinked(heads, cs, t)
    requires j < |cs| && n !in heads && n !in Entries(cs)
    requires |rest| <= |hs| && AllLinked(hs, rest, t)
    requires CrossDisjoint(hs, rest, heads, cs) && n !in hs && n !in Entries(rest)
    modifies heads[j], n
    ensures Separate(heads, Pushed(cs, j, n)) && AllLinked(heads, Pushed(cs, j, n), t)
    ensures AllLinked(hs, rest, t)
  {
    hide AllLinked, Separate, Linked, Entries;
    ForeignHead(heads, cs, j);
    LinksOf(hs, rest, t);
    NotInAny(rest, n);
    NotInAny(rest, heads[j]);
    assert heads[j] !in hs;
    PushOnto(n, heads, j, cs, t);
    forall k | 0 <= k < |rest|
      ensures Linked(hs[k], rest[k], t)
    {
      assert hs[k] in hs;
    }
    AllLinkedFrom(hs, rest, t);
  }

  /** `DetachFirst`, next to a second family that shares no node with the first. */
  method DetachBeside(hs: seq<Node>, j: nat, ghost rest: seq<Chain>,
                      ghost bs: seq<Node>, ghost nc: seq<Chain>, ghost t: object) returns (e: Node)
    requires Separate(hs, rest) && AllLinked(hs, rest, t) && j < |rest| && rest[j] != []
    requires |nc| <= |bs| && AllLinked(bs, nc, t) && CrossDisjoint(hs, rest, bs, nc)
    modifies hs[j]
    ensures e == rest[j][0]
    ensures Separate(hs, Detached(rest, j)) && AllLinked(hs, Detached(rest, j), t)
    ensures AllLinked(bs, nc, t)
  {
    hide AllLinked, Separate, Linked, Entries;
    ForeignHead(hs, rest, j);
    LinksOf(bs, nc, t);
    NotInAny(nc, hs[j]);
    assert hs[j] !in bs;
    e := DetachFirst(hs, j, rest, t);
    forall k | 0 <= k < |nc|
      ensures Linked(bs[k], nc[k], t)
    {
      assert bs[k] in bs;
    }
    AllLinkedFrom(bs, nc, t);
  }

  /** `UnlinkEntry` on one chain of a family of separate chains. */
  method UnlinkFrom(p: Node, victim: Node, ghost heads: seq<Node>, ghost cs: seq<Chain>,
                    ghost j: nat, ghost i: nat, ghost t: object)
    requires Separate(heads, cs) && AllLinked(heads, cs, t)
    requires j < |cs| && i < |cs[j]| && p == At(heads[j], cs[j], i) && victim == cs[j][i]
    modifies p, victim
    ensures var ds := cs[j := Without(cs[j], i)]; Separate(heads, ds) && AllLinked(heads, ds, t)
    ensures victim.next == Removed(old(victim.next))
  {
    hide Linked, AllLinked, Separate;
    ForeignHead(heads, cs, j);
    LinksOf(heads, cs, t);
    SeparateWithout(heads, cs, j, i);
    ForeignPair(heads, cs, j, i);
    UnlinkEntry(p, victim, heads[j], cs[j], i, t);
    ghost var ds := cs[j := Without(cs[j], i)];
    forall k | 0 <= k < |ds|
      ensures Linked(heads[k], ds[k], t)
    {
      if k != j { assert ds[k] == cs[k]; }
    }
    AllLinkedFrom(heads, ds, t);
  }

  // ---- moving entries from one array of heads to another

  ghost predicate CrossDisjoint(hs: seq<Node>, rest: seq<Chain>, bs: seq<Node>, nc: seq<Chain>) {
    && (forall n :: n in hs ==> n !in bs && n !in Entries(nc))
    && (forall n :: n in bs ==> n !in Entries(rest))
    && Entries(rest) !! Entries(nc)
  }

  function Detached(cs: seq<Chain>, j: nat): seq<Chain>
    requires j < |cs| && cs[j] != []
  {
    cs[j := cs[j][1..]]
  }

  lemma EntriesDetached(heads: seq<Node>, cs: seq<Chain>, j: nat)
    requires Separate(heads, cs) && j < |cs| && cs[j] != []
    ensures Separate(heads, Detached(cs, j))
    ensures Entries(Detached(cs, j)) == Entries(cs) - {cs[j][0]}
    ensures cs[j][0] in Entries(cs) && cs[j][0] !in heads
  {
    var ds := Detached(cs, j);
    assert cs[j][1..] == Without(cs[j], 0);
    assert ds == cs[j := Without(cs[j], 0)];
    SeparateWithout(heads, cs, j, 0);
    assert cs[j][0] in cs[j];
    assert cs[j] == [cs[j][0]] + cs[j][1..];
    assert forall k, n :: 0 <= k < |ds| && n in ds[k] ==> n in cs[k];
    forall n | n in Entries(cs) && n != cs[j][0]
      ensures n in Entries(ds)
    {
      var k :| 0 <= k < |cs| && n in cs[k];
      assert n in ds[k];
    }
  }

  lemma EntriesPushed(cs: seq<Chain>, j: nat, n: Node)
    requires j < |cs|
    ensures Entries(Pushed(cs, j, n)) == Entries(cs) + {n}
  {
    var ds := Pushed(cs, j, n);
    assert n in ds[j];
    forall m | m in Entries(cs)
      ensures m in Entries(ds)
    {
      var k :| 0 <= k < |cs| && m in cs[k];
      assert m in ds[k];
    }
  }

  lemma {:induction false} FlatFirst(cs: seq<Chain>, j: nat)
    requires j < |cs| && cs[j] != []
    requires forall k :: 0 <= k < j ==> cs[k] == []
    ensures Flat(cs) == [cs[j][0]] + Flat(Detached(cs, j))
  {
    if j == 0 {
      assert Detached(cs, j)[1..] == cs[1..];
      assert cs[0] == [cs[0][0]] + cs[0][1..];
    } else {
      FlatFirst(cs[1..], j - 1);
      assert Detached(cs, j)[1..] == Detached(cs[1..], j - 1);
    }
  }

  lemma {:induction false} FlatNothing(cs: seq<Chain>)
    requires forall k :: 0 <= k < |cs| ==> cs[k] == []
    ensures Flat(cs) == []
  {
    if cs != [] {
      FlatNothing(cs[1..]);
    }
  }

  /** `pBucket->Next = pBucket->Next->Next` */
  method DetachFirst(heads: seq<Node>, j: nat, ghost cs: seq<Chain>, ghost t: object) returns (e: Node)
    requires Separate(heads, cs) && AllLinked(heads, cs, t) && j < |cs| && cs[j] != []
    modifies heads[j]
    ensures e == cs[j][0]
    ensures Separate(heads, Detached(cs, j)) && AllLinked(heads, Detached(cs, j), t)
  {
    hide AllLinked, Separate, Distinct, Apart, Linked;
    ForeignHead(heads, cs, j);
    LinksOf(heads, cs, t);
    HeadLink(heads, cs, j, t);
    EntriesDetached(heads, cs, j);
    e := heads[j].next.node;
    AdvanceHead(heads[j], cs[j], t);
    ghost var ds := Detached(cs, j);
    forall k | 0 <= k < |ds|
      ensures Linked(heads[k], ds[k], t)
    {
      if k != j { assert ds[k] == cs[k]; }
    }
    AllLinkedFrom(heads, ds, t);
  }

  method AdvanceHead(head: Node, ghost c: Chain, ghost t: object)
    requires Linked(head, c, t) && c != [] && head !in c
    modifies head
    ensures Linked(head, c[1..], t)
  {
    ghost var d := c[1..];
    LinkAt(head, c, 0, t);
    LinkAt(head, c, 1, t);
    assert At(head, c, 1) == c[0];
    label before:
    head.next := head.next.node.next;
    forall i | 0 <= i <= |d|
      ensures At(head, d, i).next == if i < |d| then To(d[i]) else End(t)
    {
      if i > 0 {
        assert At(head, d, i) == c[i] && c[i] in c;
        assert old@before(At(head, c, i + 1).next) == if i + 1 < |c| then To(c[i + 1]) else End(t);
      }
    }
  }

  /** One round of the inner loop of `HashTableChangeTable`. */
  method MoveFirst(hs: seq<Node>, j: nat, bs: seq<Node>, count: u32, flags: u32,
                   ghost rest: seq<Chain>, ghost nc: seq<Chain>, ghost t: object)
    returns (ghost e: Node)
    requires Separate(hs, rest) && AllLinked(hs, rest, t) && j < |rest| && rest[j] != []
    requires Separate(bs, nc) && AllLinked(bs, nc, t) && CrossDisjoint(hs, rest, bs, nc)
    requires Index(count, flags, rest[j][0].hashValue) < |nc|
    modifies hs[j], bs, rest[j][0]
    ensures e == rest[j][0]
    ensures var ds, ms := Detached(rest, j), Pushed(nc, Index(count, flags, e.hashValue), e);
            && Separate(hs, ds) && AllLinked(hs, ds, t)
            && Separate(bs, ms) && AllLinked(bs, ms, t)
            && CrossDisjoint(hs, ds, bs, ms)
            && Entries(ds) <= Entries(rest) && Entries(ms) == Entries(nc) + {e}
  {
    hide AllLinked, Separate, Linked, Masked, GetBucketIndex;
    ForeignHead(hs, rest, j);
    SeparateBounds(bs, nc);
    EntriesDetached(hs, rest, j);
    var pEntry := DetachBeside(hs, j, rest, bs, nc, t);
    e := pEntry;
    var idx := GetBucketIndex(count, Masked(flags, pEntry.hashValue));
    ForeignHead(bs, nc, idx);
    EntriesPushed(nc, idx, e);
    PushBeside(pEntry, bs, idx, nc, hs, Detached(rest, j), t);
  }

  lemma EmptyTable(heads: seq<Node>, count: nat, t: object)
    requires Distinct(heads) && count <= |heads|
    requires forall j :: 0 <= j < count ==> heads[j].next == End(t)
    ensures Separate(heads, Empty(count)) && AllLinked(heads, Empty(count), t) && Flat(Empty(count)) == []
    ensures forall word: u32 :: Count(word) == count && ValidCount(count) ==> Good(TableState(word, Empty(count)))
  {
    FlatEmpty(count);
    forall j | 0 <= j < count
      ensures Linked(heads[j], [], t)
    {
      assert At(heads[j], [], 0) == heads[j];
    }
    AllLinkedFrom(heads, Empty(count), t);
  }

  /** Old heads with what is left of their chains, beside new heads with what was moved. */
  ghost predicate Moving(hs: seq<Node>, rest: seq<Chain>, bs: seq<Node>, nc: seq<Chain>, t: object)
    reads hs`next, Entries(rest)`next, bs`next, Entries(nc)`next
  {
    && Separate(hs, rest) && AllLinked(hs, rest, t)
    && Separate(bs, nc) && AllLinked(bs, nc, t)
    && CrossDisjoint(hs, rest, bs, nc)
  }

  /** Point the first `count` heads at the table, beside the chains of an older array. */
  method PrepareHeads(bs: seq<Node>, count: u32, ghost hs: seq<Node>, ghost rest: seq<Chain>, t: object)
    requires Distinct(bs) && count <= |bs|
    requires Separate(hs, rest) && AllLinked(hs, rest, t)
    requires forall n :: n in bs ==> n !in hs && n !in Entries(rest)
    modifies bs
    ensures Moving(hs, rest, bs, Empty(count), t)
  {
    hide AllLinked, Separate, Linked;
    SeparateBounds(hs, rest);
    LinksOf(hs, rest, t);
    var p := 0;
    while p < count
      invariant p <= count
      invariant forall i :: 0 <= i < p ==> bs[i].next == End(t)
      invariant forall k :: 0 <= k < |rest| ==> Linked(hs[k], rest[k], t)
    {
      assert bs[p] in bs;
      NotInAny(rest, bs[p]);
      assert forall k :: 0 <= k < |rest| ==> hs[k] in hs;
      bs[p].next := End(t);
      p := p + 1;
    }
    EmptyTable(bs, count, t);
    AllLinkedFrom(hs, rest, t);
    assert Entries(Empty(count)) == {};
  }

  /** The first entry of the first bucket that is not empty decides with the others. */
  lemma WithinFirst(cs: seq<Chain>, j: nat, count: u32, flags: u32, bound: nat)
    requires j < |cs| && cs[j] != [] && forall k :: 0 <= k < j ==> cs[k] == []
    ensures Flat(cs) == [cs[j][0]] + Flat(Detached(cs, j))
    ensures Within(Flat(cs), count, flags, bound) <==>
              Index(count, flags, cs[j][0].hashValue) < bound && Within(Flat(Detached(cs, j)), count, flags, bound)
  {
    hide Index, Detached;
    FlatFirst(cs, j);
    var e, rest := cs[j][0], Flat(Detached(cs, j));
    assert e in [e] + rest;
    assert forall n :: n in [e] + rest <==> n == e || n in rest;
  }

  /** The inner loop of `HashTableChangeTable`: empty one old bucket. An index past the prepared
      heads, for which the code writes to memory it has not prepared, ends the loop with false. */
  method DrainBucket(hs: seq<Node>, j: nat, bs: seq<Node>, width: u32, count: u32, flags: u32,
                     ghost rest: seq<Chain>, ghost nc: seq<Chain>, ghost t: object)
    returns (ok: bool, ghost rest': seq<Chain>, ghost nc': seq<Chain>)
    requires Moving(hs, rest, bs, nc, t) && j < |rest| && width == |nc|
    requires forall k :: 0 <= k < j ==> rest[k] == []
    modifies hs, bs, Entries(rest)
    ensures !ok ==> !Within(Flat(rest), count, flags, width)
    ensures ok ==> Moving(hs, rest', bs, nc', t) && Entries(rest') <= Entries(rest)
    ensures ok ==> |rest'| == |rest| && |nc'| == |nc| && forall k :: 0 <= k <= j ==> rest'[k] == []
    ensures ok ==> (Within(Flat(rest'), count, flags, width) <==> Within(Flat(rest), count, flags, width))
    ensures ok && Within(Flat(rest), count, flags, width) ==>
              Distributed(nc', Flat(rest'), count, flags) == Distributed(nc, Flat(rest), count, flags)
  {
    hide AllLinked, Separate, Linked, Masked, GetBucketIndex, CrossDisjoint, Entries, Within;
    rest', nc' := rest, nc;
    SeparateBounds(hs, rest);
    while !LastLink(hs[j].next)
      invariant Moving(hs, rest', bs, nc', t) && Entries(rest') <= Entries(rest)
      invariant |rest'| == |rest| && |nc'| == |nc|
      invariant forall k :: 0 <= k < j ==> rest'[k] == []
      invariant Within(Flat(rest'), count, flags, width) <==> Within(Flat(rest), count, flags, width)
      invariant Within(Flat(rest), count, flags, width) ==>
                  Distributed(nc', Flat(rest'), count, flags) == Distributed(nc, Flat(rest), count, flags)
      decreases |rest'[j]|
    {
      HeadLink(hs, rest', j, t);
      WithinFirst(rest', j, count, flags, width);
      EntriesDetached(hs, rest', j);
      assert hs[j] in hs;
      if GetBucketIndex(count, Masked(flags, hs[j].next.node.hashValue)) >= width {
        return false, rest', nc';
      }
      ghost var e := MoveFirst(hs, j, bs, count, flags, rest', nc', t);
      nc' := Pushed(nc', Index(count, flags, e.hashValue), e);
      rest' := Detached(rest', j);
    }
    HeadLink(hs, rest', j, t);
    ok := true;
  }

  /** The outer loop: empty all old buckets. It gets through exactly when no entry is indexed past
      the prepared heads. */
  method DrainAll(hs: seq<Node>, oldCount: nat, bs: seq<Node>, width: u32, count: u32, flags: u32,
                  ghost rest: seq<Chain>, ghost nc: seq<Chain>, ghost t: object) returns (ok: bool)
    requires Moving(hs, rest, bs, nc, t) && oldCount == |rest| && width == |nc|
    modifies hs, bs, Entries(rest)
    ensures ok <==> Within(Flat(rest), count, flags, width)
    ensures ok ==> var ds := Distributed(nc, Flat(rest), count, flags);
                   Separate(bs, ds) && AllLinked(bs, ds, t)
    ensures ok ==> |rest| <= |hs| && forall k :: 0 <= k < |rest| ==> hs[k].next == End(t)
  {
    hide AllLinked, Separate, Linked, Masked, GetBucketIndex, CrossDisjoint, Entries;
    ghost var rest', nc' := rest, nc;
    for j := 0 to oldCount
      invariant Moving(hs, rest', bs, nc', t) && Entries(rest') <= Entries(rest)
      invariant |rest'| == |rest| && |nc'| == |nc|
      invariant forall k :: 0 <= k < j ==> rest'[k] == []
      invariant Within(Flat(rest'), count, flags, width) <==> Within(Flat(rest), count, flags, width)
      invariant Within(Flat(rest), count, flags, width) ==>
                  Distributed(nc', Flat(rest'), count, flags) == Distributed(nc, Flat(rest), count, flags)
    {
      ok, rest', nc' := DrainBucket(hs, j, bs, width, count, flags, rest', nc', t);
      if !ok {
        return;
      }
    }
    ok := true;
    FlatNothing(rest');
    SeparateBounds(hs, rest');
    forall k | 0 <= k < |rest|
      ensures hs[k].next == End(t)
    {
      HeadLink(hs, rest', k, t);
    }
  }
}
