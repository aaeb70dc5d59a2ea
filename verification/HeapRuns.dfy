/** Whole runs of calls on the linked table, tied to the runs of `TableRuns`. */
module HeapRuns {
  import opened Bits
  import opened BucketWord
  import opened Nodes
  import opened Chains
  import opened Searching
  import opened LinkedChains
  import opened Traversal
  import opened MpHashTable
  import Runs = TableRuns

  datatype Call =
    | Add(n: Node)
    | RemoveByKey(hashValue: u64)
    | RemoveByIterator(n: Node)
    | NewArray(requested: u32, bs: seq<Node>)

  function OperationOf(c: Call): Runs.Operation {
    match c
    case Add(n) => Runs.Insert(n)
    case RemoveByKey(hashValue) => Runs.RemoveKey(hashValue)
    case RemoveByIterator(n) => Runs.Erase(n)
    case NewArray(requested, _) => Runs.ChangeTable(requested)
  }

  function Operations(calls: seq<Call>): seq<Runs.Operation> {
    if calls == [] then [] else [OperationOf(calls[0])] + Operations(calls[1..])
  }

  /** The nodes a call brings in. */
  ghost function Supplied(c: Call): set<Node> {
    match c
    case Add(n) => {n}
    case RemoveByKey(_) => {}
    case RemoveByIterator(_) => {}
    case NewArray(_, bs) => set n | n in bs
  }

  ghost function AllSupplied(calls: seq<Call>): set<Node> {
    if calls == [] then {} else Supplied(calls[0]) + AllSupplied(calls[1..])
  }

  function BucketsAfter(buckets: seq<Node>, c: Call): seq<Node> {
    if c.NewArray? then c.bs else buckets
  }

  /** Nodes brought in are in no other use: entries are no heads, and the heads of a new array are
      distinct, enough, and new to the table. */
  ghost predicate Fits(s: TableState, buckets: seq<Node>, c: Call) {
    match c
    case Add(n) => n !in buckets
    case RemoveByKey(_) => true
    case RemoveByIterator(_) => true
    case NewArray(requested, bs) =>
      && NewCount(requested).Some? && NewCount(requested).value <= |bs|
      && Distinct(bs) && forall n :: n in bs ==> n !in buckets && n !in Flat(s.chains)
  }

  /** Every call of the run respects its rules where it happens. */
  ghost predicate Feasible(s: TableState, buckets: seq<Node>, calls: seq<Call>)
    decreases |calls|
  {
    if calls == [] then true
    else
      var op := OperationOf(calls[0]);
      && Good(s) && Runs.Enabled(s, op) && Fits(s, buckets, calls[0])
      && Feasible(Runs.Apply(s, op), BucketsAfter(buckets, calls[0]), calls[1..])
  }

  /** The entry a call takes out of the table. */
  ghost function TakenOut(s: TableState, c: Call): Node?
    requires Good(s)
  {
    match c
    case Add(_) => null
    case RemoveByKey(hashValue) => if ReadsZero(|Flat(s.chains)|) then null else First(Lookup(s, hashValue))
    case RemoveByIterator(n) => n
    case NewArray(_, _) => null
  }

  ghost function AllTakenOut(s: TableState, buckets: seq<Node>, calls: seq<Call>): seq<Node?>
    requires Feasible(s, buckets, calls)
    decreases |calls|
  {
    if calls == [] then []
    else
      [TakenOut(s, calls[0])]
      + AllTakenOut(Runs.Apply(s, OperationOf(calls[0])), BucketsAfter(buckets, calls[0]), calls[1..])
  }

  /** A call leaves in the table only what was there and what it brought in. */
  lemma NothingAppears(s: TableState, c: Call, n: Node)
    requires Good(s) && Runs.Enabled(s, OperationOf(c)) && n in Flat(Runs.Apply(s, OperationOf(c)).chains)
    ensures n in Flat(s.chains) || n in Supplied(c)
  {
    hide Masked, GetBucketIndex, Count, Flags, Flat, Lookup, KeyRemoved, Placed, Distinct, ErasedAt, Rehashed;
    var t := Runs.Apply(s, OperationOf(c));
    assert n in multiset(Flat(t.chains));
    match c {
      case Add(m) =>
        FlatPushed(s.chains, Slot(s, m.hashValue), m);
      case RemoveByKey(hashValue) =>
        KeyRemovedLookup(s, hashValue, hashValue);
        assert multiset(Flat(t.chains)) <= multiset(Flat(s.chains));
      case RemoveByIterator(m) =>
        Runs.Whereabouts(s, m);
        var j := Slot(s, m.hashValue);
        ErasedGood(s, j, Position(s.chains[j], m));
        assert multiset(Flat(t.chains)) <= multiset(Flat(s.chains));
      case NewArray(requested, _) =>
        RehashedGood(s, NewCount(requested).value);
    }
  }

  /** Step an iterator to the entry and remove it there. */
  method Erase(t: HashTable, n: Node)
    requires t.Valid() && n in Flat(t.chains)
    modifies t, t.Footprint()
    ensures t.Valid() && t.buckets == old(t.buckets)
    ensures t.State() == Runs.Apply(old(t.State()), Runs.Erase(n))
  {
    hide Masked, GetBucketIndex, Count, Flags, AllLinked, Separate, Linked, Good, Distinct, Apart, Flat;
    hide NextOf, Behind, Remaining, HashTable.WellLinked, RemoveOf, ErasedAt;
    ghost var s := t.State();
    assert t.chains != [] by { FlatNone(); }
    var it := new HashTableIterator.IterInit(t);
    StartRemaining(t.chains);
    var r: Node? := null;
    while r != n
      modifies it
      invariant it.hash == t && it.Ready() && t.State() == s && t.buckets == old(t.buckets)
      invariant r == n ==> it.col > 0 && s.chains[it.bucket][it.col - 1] == n
      invariant r != n ==> n in Remaining(it.Place())
      decreases if r == n then 0 else 1 + |Remaining(it.Place())|
    {
      NextStep(it.Place());
      NextStandsOn(it.Place());
      r := it.GetNext();
    }
    RemoveErases(s, it.bucket, it.col);
    ErasedChain(s, it.bucket, it.col - 1);
    Runs.RemovalIsErasure(s, it.bucket, it.col - 1);
    r := it.IterRemove();
  }

  lemma StartRemaining(chains: seq<Chain>)
    ensures Start(chains).Ok() && Remaining(Start(chains)) == Flat(chains)
  {
  }

  /** A step ends on the entry it returns. */
  lemma NextStandsOn(c: Cursor)
    requires c.Ok()
    ensures var (d, r) := NextOf(c);
            d.Ok() && (r != None ==> d.chains != [] && d.col > 0 && d.chains[d.bucket][d.col - 1] == r.value)
  {
    hide Behind, Remaining, NextNonEmpty, Flat;
    NextStep(c);
  }

  lemma RemovalAddsNothing(c: Cursor)
    requires c.Ok()
    ensures Entries(RemoveOf(c).0.chains) <= Entries(c.chains)
    ensures |RemoveOf(c).0.chains| == |c.chains|
  {
    if c.col > 0 {
      var chain := c.chains[c.bucket];
      var ds := RemoveOf(c).0.chains;
      assert forall n :: n in Without(chain, c.col - 1) ==> n in chain;
      assert forall j, n :: 0 <= j < |ds| && n in ds[j] ==> n in c.chains[j];
    }
  }

  /** Any interleaving of steps and removals through an iterator on a linked table: cursor, results
      and removed entries are what the run of `Traversal` says. */
  method Traverse(it: HashTableIterator, commands: seq<Command>) returns (returned: seq<Node>, removed: seq<Node>)
    requires it.Ready() && (it.hash.chains == [] ==> Remove !in commands)
    modifies it, it.hash, it.hash.Footprint()
    ensures it.Ready() && it.hash == old(it.hash)
    ensures Trace(it.Place(), returned, removed) == Run(old(it.Place()), commands)
    decreases |commands|
  {
    hide Masked, GetBucketIndex, Count, Flags, AllLinked, Separate, Linked, Good, Distinct, Apart;
    hide NextOf, RemoveOf, HashTable.WellLinked;
    if commands == [] {
      return [], [];
    }
    var command, rest := commands[0], commands[1..];
    ghost var c := it.Place();
    assert command in commands && forall x :: x in rest ==> x in commands;
    var r: Node?;
    if command.Next? {
      NextStep(c);
      r := it.GetNext();
    } else {
      RemovalAddsNothing(c);
      r := it.IterRemove();
    }
    returned, removed := Traverse(it, rest);
    if r != null {
      returned := (if command.Next? then [r] else []) + returned;
      removed := (if command.Next? then [] else [r]) + removed;
    }
  }

  method Perform(t: HashTable, c: Call) returns (r: Node?)
    requires t.Valid() && Runs.Enabled(t.State(), OperationOf(c)) && Fits(t.State(), t.buckets, c)
    modifies t, t.Footprint(), Supplied(c)
    ensures t.Valid() && t.State() == Runs.Apply(old(t.State()), OperationOf(c))
    ensures t.buckets == BucketsAfter(old(t.buckets), c)
    ensures t.Footprint() <= old(t.Footprint()) + Supplied(c)
    ensures r == TakenOut(old(t.State()), c)
  {
    hide Masked, GetBucketIndex, Count, Flags, WithCount, Lookup, Placed, Separate, AllLinked, KeyRemoved;
    hide Inserted, ErasedAt, Rehashed, Distinct;
    ghost var s := t.State();
    EntriesOfFlat(t.chains);
    match c {
      case Add(n) =>
        t.Walkable(Slot(s, n.hashValue));
        var _ := t.Insert(n);
        r := null;
      case RemoveByKey(hashValue) =>
        r := t.RemoveKey(hashValue);
      case RemoveByIterator(n) =>
        Erase(t, n);
        r := n;
      case NewArray(requested, bs) =>
        var _ := t.ChangeTable(requested, bs);
        r := null;
    }
    EntriesOfFlat(t.chains);
    forall n | n in t.Footprint()
      ensures n in old(t.Footprint()) || n in Supplied(c)
    {
      if n in Entries(t.chains) {
        NothingAppears(s, c, n);
        EntriesOfFlat(s.chains);
      }
    }
  }

  /** Any feasible run of calls on a linked table: the links, sentinels and count are right at the
      end, the state is what the run of operations gives, and each removal returned its entry. */
  method Execute(t: HashTable, calls: seq<Call>) returns (taken: seq<Node?>)
    requires t.Valid() && Feasible(t.State(), t.buckets, calls)
    modifies t, t.Footprint(), AllSupplied(calls)
    ensures t.Valid() && Runs.Run(old(t.State()), Operations(calls), t.State())
    ensures taken == old(AllTakenOut(t.State(), t.buckets, calls))
    decreases |calls|
  {
    hide HashTable.Valid, HashTable.Footprint, Runs.Enabled, Runs.Apply, Fits, Good, TakenOut, Supplied;
    if calls == [] {
      return [];
    }
    var r := Perform(t, calls[0]);
    var rest := Execute(t, calls[1..]);
    assert Operations(calls)[1..] == Operations(calls[1..]);
    taken := [r] + rest;
  }

  /** What `Initialize` makes. */
  function Initial(flags: u32, requested: u32): (s: TableState)
    requires NewCount(requested).Some?
  {
    var count := NewCount(requested).value;
    TableState(count * 32 + flags % 32, Empty(count))
  }

  lemma FoundIsEntry(s: TableState, hashValue: u64, n: Node)
    requires Good(s) && n in Lookup(s, hashValue)
    ensures n in Entries(s.chains)
  {
    hide Masked, GetBucketIndex, Count, Flags, Lookup, Flat;
    LookupExact(s, hashValue);
    FlatMember(s.chains, n);
  }

  /** Feed each result of a search back until it returns NULL. */
  method SearchAll(t: HashTable, hashValue: u64) returns (found: seq<Node>)
    requires t.Valid()
    ensures t.Valid() && found == Lookup(t.State(), hashValue)
  {
    hide Masked, GetBucketIndex, Count, Flags, Lookup, NextMatch, Placed, Distinct, Separate, AllLinked;
    SearchEnumeratesLookup(t.State(), hashValue);
    ghost var s, l := t.State(), Lookup(t.State(), hashValue);
    found := [];
    assert l[0..] == l;
    var r := t.FindNext(hashValue, null);
    while r != null
      modifies {}
      invariant t.Valid() && t.State() == s
      invariant |found| <= |l| && found == l[..|found|] && r == First(l[|found|..])
      decreases |l| - |found|
    {
      assert r == l[|found|] && r in l;
      FoundIsEntry(s, hashValue, r);
      found := found + [r];
      r := t.FindNext(hashValue, r);
    }
  }

  /** The whole life of a table: initialise it, run the calls, then search for one key to the end.
      The search returns what the plain list of `TableRuns` has under that key, in its order. */
  method Session(t: HashTable, flags: u32, requested: u32, bs: seq<Node>, calls: seq<Call>, hashValue: u64)
    returns (found: seq<Node>)
    requires NewCount(requested).Some? && NewCount(requested).value <= |bs| && Distinct(bs)
    requires Feasible(Initial(flags, requested), bs, calls)
    modifies t, bs, AllSupplied(calls)
    ensures t.Valid()
    ensures var f := flags % 32;
            found == Select(Runs.RunOnList([], f, Operations(calls)), f, Masked(f, hashValue))
  {
    hide Masked, GetBucketIndex, Count, Flags, Flat, Lookup, Select, Feasible, HashTable.Valid;
    t.Initialize(flags, requested, bs);
    DecodedFields(t.bucketCount);
    assert t.State() == Initial(flags, requested);
    assert t.Footprint() == set n | n in bs;
    var _ := Execute(t, calls);
    Runs.RunFromEmpty(Initial(flags, requested).word, Operations(calls), t.State(), hashValue);
    found := SearchAll(t, hashValue);
  }
}
