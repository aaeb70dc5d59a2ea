/** Whole runs of table operations against the simplest model there is: one list of entries. */
module TableRuns {
  import opened Bits
  import opened BucketWord
  import opened Nodes
  import opened Chains

  datatype Operation =
    | Insert(n: Node)
    | RemoveKey(hashValue: u64)
    | Erase(n: Node)
    | ChangeTable(requested: u32)

  /** What the caller must respect: buckets to insert into, no entry linked twice, only linked
      entries erased, and room for the entries in the new array. */
  ghost predicate Enabled(s: TableState, op: Operation) {
    match op
    case Insert(n) => Count(s.word) > 0 && n !in Flat(s.chains)
    case RemoveKey(_) => true
    case Erase(n) => n in Flat(s.chains)
    case ChangeTable(requested) => NewCount(requested).Some? && (Flat(s.chains) != [] ==> requested > 0)
  }

  /** Where a linked entry is. */
  lemma Whereabouts(s: TableState, n: Node)
    requires Good(s) && n in Flat(s.chains)
    ensures Count(s.word) > 0
    ensures var j := Slot(s, n.hashValue); Position(s.chains[j], n) < |s.chains[j]|
  {
    hide Masked, GetBucketIndex, Count, Flags;
    FlatMember(s.chains, n);
  }

  ghost function Apply(s: TableState, op: Operation): TableState
    requires Good(s) && Enabled(s, op)
  {
    match op
    case Insert(n) => Inserted(s, n)
    case RemoveKey(hashValue) => if ReadsZero(|Flat(s.chains)|) then s else KeyRemoved(s, hashValue)
    case Erase(n) =>
      Whereabouts(s, n);
      var j := Slot(s, n.hashValue);
      ErasedAt(s, j, Position(s.chains[j], n))
    case ChangeTable(requested) => Rehashed(s, NewCount(requested).value, NewCount(requested).value)
  }

  /** Removing through an iterator is erasing the entry it stands on, wherever it stands. */
  lemma RemovalIsErasure(s: TableState, j: nat, i: nat)
    requires Good(s) && j < |s.chains| && i < |s.chains[j]|
    ensures Enabled(s, Erase(s.chains[j][i]))
    ensures Apply(s, Erase(s.chains[j][i])) == ErasedAt(s, j, i)
  {
    hide Masked, GetBucketIndex, Count, Flags;
    var n := s.chains[j][i];
    FlatMember(s.chains, n);
    assert n in s.chains[j];
  }

  /** The exit on a zero count is right exactly when there is nothing to remove, or the wrapped
      count does not read zero. */
  lemma ZeroCountExitRightIff(s: TableState, hashValue: u64)
    requires Good(s)
    ensures Apply(s, RemoveKey(hashValue)) == KeyRemoved(s, hashValue) <==>
              !ReadsZero(|Flat(s.chains)|) || Lookup(s, hashValue) == []
  {
    hide Masked, GetBucketIndex, Count, Flags, Flat, Lookup, KeyRemoved;
    KeyRemovedLookup(s, hashValue, hashValue);
    if Lookup(s, hashValue) == [] {
      KeyRemovedNothing(s, hashValue);
    }
  }

  /** With 2^32 entries the count reads zero, and removal gives up on a key that is there. */
  lemma WrappedCountGivesUp(c: Chain)
    requires Distinct(c) && |c| == TWO_32
    requires forall n :: n in c ==> n.hashValue == 0
    ensures Good(OneBucket(c)) && Lookup(OneBucket(c), 0) != []
    ensures Apply(OneBucket(c), RemoveKey(0)) == OneBucket(c) != KeyRemoved(OneBucket(c), 0)
  {
    hide Masked, GetBucketIndex, Count, Flags, WithCount, KeyRemoved;
    var s := OneBucket(c);
    OneBucketGood(c, 0);
    LookupExact(s, 0);
    assert c[0] in Flat(s.chains);
    assert c[0] in Lookup(s, 0);
    ZeroCountExitRightIff(s, 0);
  }

  // ---- the model

  function ApplyToList(es: Chain, flags: u32, op: Operation): Chain {
    match op
    case Insert(n) => [n] + es
    case RemoveKey(hashValue) =>
      var k := FirstMatch(es, flags, Masked(flags, hashValue));
      if ReadsZero(|es|) || k == |es| then es else Without(es, k)
    case Erase(n) => Dropped(es, n)
    case ChangeTable(_) => Reverse(es)
  }

  /** The table answers every search as the list does, and holds the same entries. */
  ghost predicate Refines(s: TableState, es: Chain) {
    && Good(s)
    && Distinct(es)
    && multiset(Flat(s.chains)) == multiset(es)
    && forall hashValue: u64 :: Lookup(s, hashValue) == Select(es, Flags(s.word), KeyOf(s, hashValue))
  }

  lemma SameSizeAndMembers(s: TableState, es: Chain)
    requires Refines(s, es)
    ensures |Flat(s.chains)| == |es|
    ensures forall n :: n in Flat(s.chains) <==> n in es
  {
    hide Good, Lookup, Select, Distinct;
    assert |multiset(Flat(s.chains))| == |multiset(es)|;
    forall n
      ensures n in Flat(s.chains) <==> n in es
    {
      assert n in multiset(Flat(s.chains)) <==> n in multiset(es);
    }
  }

  lemma InsertRefines(s: TableState, es: Chain, n: Node)
    requires Refines(s, es) && Enabled(s, Insert(n))
    ensures Refines(Inserted(s, n), [n] + es)
  {
    hide Masked, GetBucketIndex, Count, Flags, Lookup, Placed, Distinct, Flat;
    SameSizeAndMembers(s, es);
    InsertedGood(s, n);
    FlatPushed(s.chains, Slot(s, n.hashValue), n);
    assert multiset([n] + es) == multiset{n} + multiset(es);
    assert Distinct([n] + es) by { FrontDistinct(n, es); }
    forall hashValue: u64
      ensures Lookup(Inserted(s, n), hashValue) == Select([n] + es, Flags(s.word), KeyOf(s, hashValue))
    {
      InsertedLookup(s, n, hashValue);
      assert ([n] + es)[1..] == es;
    }
  }

  lemma SelectWithoutFirst(es: Chain, flags: u32, key: u64, other: u64)
    requires FirstMatch(es, flags, key) < |es|
    ensures Select(es, flags, key) != []
    ensures Select(Without(es, FirstMatch(es, flags, key)), flags, other) ==
            if key == other then Select(es, flags, other)[1..] else Select(es, flags, other)
  {
    hide Masked, Select, Without, FirstMatch;
    var k := FirstMatch(es, flags, key);
    SelectWithout(es, k, flags, other);
    SelectFromFirstMatch(es, flags, key);
    SelectNone(es[..k], flags, key);
    var rest := Select(es[k + 1..], flags, other);
    assert [] + [es[k]] + rest == [es[k]] + rest;
    assert [] + rest == rest;
    assert ([es[k]] + rest)[1..] == rest;
    if key != other {
      assert Select(es[..k], flags, other) + [] == Select(es[..k], flags, other);
    }
  }

  lemma {:induction false} SelectNone(c: Chain, flags: u32, key: u64)
    requires forall i :: 0 <= i < |c| ==> Masked(flags, c[i].hashValue) != key
    ensures Select(c, flags, key) == []
  {
    hide Masked;
    if c != [] {
      SelectNone(c[1..], flags, key);
    }
  }

  lemma RemoveKeyRefines(s: TableState, es: Chain, removed: u64)
    requires Refines(s, es)
    ensures Refines(Apply(s, RemoveKey(removed)), ApplyToList(es, Flags(s.word), RemoveKey(removed)))
  {
    hide Masked, GetBucketIndex, Count, Flags, Placed, Distinct, Flat, Lookup, Select;
    SameSizeAndMembers(s, es);
    var f, key := Flags(s.word), KeyOf(s, removed);
    var k := FirstMatch(es, f, key);
    SelectFromFirstMatch(es, f, key);
    assert Lookup(s, removed) == Select(es, f, key);
    KeyRemovedLookup(s, removed, removed);
    if !ReadsZero(|es|) {
      var t := KeyRemoved(s, removed);
      if k == |es| {
        KeyRemovedNothing(s, removed);
      } else {
        var n := es[k];
        assert Select(es, f, key)[0] == n;
        assert Lookup(s, removed)[..1] == [n];
        WithoutDistinct(es, k);
        WithoutContents(es, k);
        Cancel(multiset(Flat(t.chains)), multiset(Without(es, k)), multiset{n});
        forall hashValue: u64
          ensures Lookup(t, hashValue) == Select(Without(es, k), f, KeyOf(s, hashValue))
        {
          KeyRemovedLookup(s, removed, hashValue);
          SelectWithoutFirst(es, f, key, KeyOf(s, hashValue));
        }
      }
    }
  }

  lemma FrontDistinct(n: Node, c: Chain)
    requires Distinct(c) && n !in c
    ensures Distinct([n] + c)
  {
  }

  lemma KeyRemovedNothing(s: TableState, removed: u64)
    requires Shaped(s) && Lookup(s, removed) == []
    ensures KeyRemoved(s, removed) == s
  {
    hide Masked, GetBucketIndex, Count, Flags;
    if Count(s.word) > 0 {
      SelectFromFirstMatch(s.chains[Slot(s, removed)], Flags(s.word), KeyOf(s, removed));
    }
  }

  lemma EraseRefines(s: TableState, es: Chain, n: Node)
    requires Refines(s, es) && Enabled(s, Erase(n))
    ensures Refines(Apply(s, Erase(n)), Dropped(es, n))
  {
    hide Masked, GetBucketIndex, Count, Flags, Placed, Flat, Lookup, Select;
    SameSizeAndMembers(s, es);
    Whereabouts(s, n);
    var j := Slot(s, n.hashValue);
    var i := Position(s.chains[j], n);
    ErasedGood(s, j, i);
    var k := Position(es, n);
    WithoutContents(es, k);
    WithoutDistinct(es, k);
    Cancel(multiset(Flat(ErasedAt(s, j, i).chains)), multiset(Without(es, k)), multiset{n});
    forall hashValue: u64
      ensures Lookup(ErasedAt(s, j, i), hashValue) == Select(Dropped(es, n), Flags(s.word), KeyOf(s, hashValue))
    {
      ErasedLookup(s, j, i, hashValue);
      SelectDropped(es, k, Flags(s.word), KeyOf(s, hashValue));
    }
  }

  lemma {:induction false} ReverseContents(c: Chain)
    ensures multiset(Reverse(c)) == multiset(c)
  {
    if c != [] {
      ReverseContents(c[1..]);
      assert c == [c[0]] + c[1..];
    }
  }

  lemma ChangeTableRefines(s: TableState, es: Chain, requested: u32)
    requires Refines(s, es) && Enabled(s, ChangeTable(requested))
    ensures Refines(Apply(s, ChangeTable(requested)), Reverse(es))
  {
    hide Masked, GetBucketIndex, Count, Flags, Placed, Distinct, Flat, Lookup, Select, Reverse, WithCount;
    var count := NewCount(requested).value;
    RehashedGood(s, count);
    CountStored(count, s.word);
    ReverseContents(es);
    ReverseDistinct(es);
    forall hashValue: u64
      ensures Lookup(Rehashed(s, count, count), hashValue) == Select(Reverse(es), Flags(s.word), KeyOf(s, hashValue))
    {
      RehashedLookup(s, count, hashValue);
      SelectReverse(es, Flags(s.word), KeyOf(s, hashValue));
    }
  }

  /** Every operation of the table does to its searches what it does to the list. */
  lemma StepRefines(s: TableState, es: Chain, op: Operation)
    requires Refines(s, es) && Enabled(s, op)
    ensures Refines(Apply(s, op), ApplyToList(es, Flags(s.word), op))
    ensures Flags(Apply(s, op).word) == Flags(s.word)
  {
    hide Masked, GetBucketIndex, Count, Flags, Refines, Flat, Lookup, Select, Reverse, WithCount;
    match op
    case Insert(n) => InsertRefines(s, es, n);
    case RemoveKey(hashValue) => RemoveKeyRefines(s, es, hashValue);
    case Erase(n) => EraseRefines(s, es, n);
    case ChangeTable(requested) =>
      ChangeTableRefines(s, es, requested);
      CountStored(NewCount(requested).value, s.word);
  }

  // ---- runs

  /** The states a run goes through: each step enabled where it happens. */
  ghost predicate Run(s: TableState, ops: seq<Operation>, t: TableState)
    decreases |ops|
  {
    if ops == [] then s == t
    else Good(s) && Enabled(s, ops[0]) && Run(Apply(s, ops[0]), ops[1..], t)
  }

  function RunOnList(es: Chain, flags: u32, ops: seq<Operation>): Chain
    decreases |ops|
  {
    if ops == [] then es else RunOnList(ApplyToList(es, flags, ops[0]), flags, ops[1..])
  }

  /** Every run of a table that refines a list ends refining that list after the same run. */
  lemma {:induction false} RunRefines(s: TableState, es: Chain, ops: seq<Operation>, t: TableState)
    requires Refines(s, es) && Run(s, ops, t)
    ensures Refines(t, RunOnList(es, Flags(s.word), ops))
    decreases |ops|
  {
    hide Refines, Apply, ApplyToList, Enabled, Good;
    if ops != [] {
      StepRefines(s, es, ops[0]);
      RunRefines(Apply(s, ops[0]), ApplyToList(es, Flags(s.word), ops[0]), ops[1..], t);
    }
  }

  lemma EmptyRefines(word: u32)
    requires ValidCount(Count(word))
    ensures Refines(TableState(word, Empty(Count(word))), [])
  {
    hide Masked, GetBucketIndex, Count, Flags;
    FlatEmpty(Count(word));
  }

  /** Every run from a freshly initialised table keeps the invariant and answers each search with
      the matching entries of the list model, in its order. */
  lemma RunFromEmpty(word: u32, ops: seq<Operation>, t: TableState, hashValue: u64)
    requires ValidCount(Count(word)) && Run(TableState(word, Empty(Count(word))), ops, t)
    ensures Good(t)
    ensures var es := RunOnList([], Flags(word), ops);
            && multiset(Flat(t.chains)) == multiset(es)
            && Lookup(t, hashValue) == Select(es, Flags(word), Masked(Flags(word), hashValue))
  {
    var s := TableState(word, Empty(Count(word)));
    EmptyRefines(word);
    hide Masked, GetBucketIndex, Run, RunOnList, Count, Flags, Lookup, Select, Flat, Distinct, Good;
    RunRefines(s, [], ops, t);
    RunKeepsFlags(s, [], ops, t);
  }

  lemma {:induction false} RunKeepsFlags(s: TableState, es: Chain, ops: seq<Operation>, t: TableState)
    requires Refines(s, es) && Run(s, ops, t)
    ensures Flags(t.word) == Flags(s.word)
    decreases |ops|
  {
    hide Refines, Apply, ApplyToList, Enabled, Good;
    if ops != [] {
      StepRefines(s, es, ops[0]);
      RunKeepsFlags(Apply(s, ops[0]), ApplyToList(es, Flags(s.word), ops[0]), ops[1..], t);
    }
  }

  function Inserts(ns: Chain): seq<Operation> {
    if ns == [] then [] else [Insert(ns[0])] + Inserts(ns[1..])
  }

  /** While no rehash intervenes, a search returns the most recently inserted entries first. */
  lemma {:induction false} LastInsertedComesFirst(es: Chain, flags: u32, ns: Chain, key: u64)
    ensures Select(RunOnList(es, flags, Inserts(ns)), flags, key) ==
            Reverse(Select(ns, flags, key)) + Select(es, flags, key)
    decreases |ns|
  {
    if ns != [] {
      LastInsertedComesFirst([ns[0]] + es, flags, ns[1..], key);
      assert Inserts(ns)[1..] == Inserts(ns[1..]);
      assert RunOnList(es, flags, Inserts(ns)) == RunOnList([ns[0]] + es, flags, Inserts(ns[1..]));
      SelectFront(ns[0], es, flags, key);
      ReverseSelectFront(ns[0], ns[1..], flags, key);
      hide Select, Reverse, Masked, RunOnList, Inserts;
      assert [ns[0]] + ns[1..] == ns;
      Regroup(Reverse(Select(ns[1..], flags, key)),
              if Masked(flags, ns[0].hashValue) == key then [ns[0]] else [], Select(es, flags, key));
    }
  }

  lemma ReverseSelectFront(n: Node, c: Chain, flags: u32, key: u64)
    ensures Reverse(Select([n] + c, flags, key)) ==
            Reverse(Select(c, flags, key)) + (if Masked(flags, n.hashValue) == key then [n] else [])
  {
    hide Masked;
    SelectFront(n, c, flags, key);
    var r := Select(c, flags, key);
    ReverseConcat([n], r);
    assert Reverse([n]) == [n] by { assert [n][1..] == []; }
    assert [] + r == r;
  }
}
