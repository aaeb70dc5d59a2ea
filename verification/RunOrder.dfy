/** The order in which searches return entries after a run: newest first, whatever was removed. */
module RunOrder {
  import opened Bits
  import opened BucketWord
  import opened Nodes
  import opened Chains
  import opened TableRuns

  /** `a` is what is left of `b` after striking out some of its entries. */
  ghost predicate Subsequence(a: Chain, b: Chain)
    decreases |b|
  {
    || a == []
    || (&& b != []
        && ((a[0] == b[0] && Subsequence(a[1..], b[1..])) || Subsequence(a, b[1..])))
  }

  lemma {:induction false} Whole(a: Chain)
    ensures Subsequence(a, a)
  {
    if a != [] {
      Whole(a[1..]);
    }
  }

  lemma {:induction false} Transitive(a: Chain, b: Chain, c: Chain)
    requires Subsequence(a, b) && Subsequence(b, c)
    ensures Subsequence(a, c)
    decreases |c|
  {
    if a != [] && b != [] {
      if b[0] == c[0] && Subsequence(b[1..], c[1..]) {
        if a[0] == b[0] && Subsequence(a[1..], b[1..]) {
          Transitive(a[1..], b[1..], c[1..]);
        } else {
          Transitive(a, b[1..], c[1..]);
        }
      } else {
        Transitive(a, b, c[1..]);
      }
    }
  }

  lemma Fronted(n: Node, a: Chain, b: Chain)
    requires Subsequence(a, b)
    ensures Subsequence([n] + a, [n] + b) && Subsequence(a, [n] + b)
  {
    assert ([n] + a)[1..] == a && ([n] + b)[1..] == b;
  }

  lemma {:induction false} Prefixed(p: Chain, a: Chain, b: Chain)
    requires Subsequence(a, b)
    ensures Subsequence(p + a, p + b)
    decreases |p|
  {
    if p == [] {
      assert p + a == a && p + b == b;
    } else {
      Prefixed(p[1..], a, b);
      Fronted(p[0], p[1..] + a, p[1..] + b);
      assert [p[0]] + (p[1..] + a) == p + a && [p[0]] + (p[1..] + b) == p + b;
    }
  }

  lemma StruckOut(c: Chain, k: nat)
    requires k < |c|
    ensures Subsequence(Without(c, k), c)
  {
    Whole(c[k + 1..]);
    Fronted(c[k], c[k + 1..], c[k + 1..]);
    Prefixed(c[..k], c[k + 1..], [c[k]] + c[k + 1..]);
    assert c == c[..k] + ([c[k]] + c[k + 1..]);
  }

  /** Searching keeps the order. */
  lemma {:induction false} Selected(a: Chain, b: Chain, flags: u32, key: u64)
    requires Subsequence(a, b)
    ensures Subsequence(Select(a, flags, key), Select(b, flags, key))
    decreases |b|
  {
    hide Masked;
    if a != [] {
      var rest := Select(b[1..], flags, key);
      if a[0] == b[0] && Subsequence(a[1..], b[1..]) {
        Selected(a[1..], b[1..], flags, key);
        Fronted(a[0], Select(a[1..], flags, key), rest);
        assert [] + Select(a[1..], flags, key) == Select(a[1..], flags, key);
      } else {
        Selected(a, b[1..], flags, key);
        Fronted(b[0], Select(a, flags, key), rest);
      }
      assert [] + rest == rest;
    }
  }

  // ---- runs

  /** The entries a run inserts, oldest first. */
  function Inserted(ops: seq<Operation>): Chain {
    if ops == [] then [] else (if ops[0].Insert? then [ops[0].n] else []) + Inserted(ops[1..])
  }

  lemma StepKeepsOrder(es: Chain, flags: u32, op: Operation)
    requires !op.ChangeTable?
    ensures Subsequence(ApplyToList(es, flags, op), (if op.Insert? then [op.n] else []) + es)
  {
    hide Masked;
    Whole(ApplyToList(es, flags, op));
    match op {
      case Insert(n) =>
      case RemoveKey(hashValue) =>
        var k := FirstMatch(es, flags, Masked(flags, hashValue));
        if k < |es| { StruckOut(es, k); }
        assert [] + es == es;
      case Erase(n) =>
        if Position(es, n) < |es| { StruckOut(es, Position(es, n)); }
        assert [] + es == es;
    }
  }

  /** Without a rehash, a run leaves some of its insertions, newest first, and then some of the
      entries there were, in the order they had. */
  lemma {:induction false} RunKeepsOrder(es: Chain, flags: u32, ops: seq<Operation>)
    requires forall op :: op in ops ==> !op.ChangeTable?
    ensures Subsequence(RunOnList(es, flags, ops), Reverse(Inserted(ops)) + es)
    decreases |ops|
  {
    hide Subsequence, ApplyToList;
    if ops == [] {
      Whole(es);
      assert Reverse([]) + es == es;
    } else {
      var mid, rest := ApplyToList(es, flags, ops[0]), Reverse(Inserted(ops[1..]));
      var new' := if ops[0].Insert? then [ops[0].n] else [];
      RunKeepsOrder(mid, flags, ops[1..]);
      StepKeepsOrder(es, flags, ops[0]);
      Prefixed(rest, mid, new' + es);
      Transitive(RunOnList(es, flags, ops), rest + mid, rest + (new' + es));
      ReverseConcat(new', Inserted(ops[1..]));
      assert Reverse(new') == new' by { assert new'[|new'|..] == []; }
      Regroup(rest, new', es);
    }
  }

  /** Every table answers its searches as the list of its own entries does. */
  lemma RefinesItsEntries(s: TableState)
    requires Good(s)
    ensures Refines(s, Flat(s.chains))
  {
    hide Masked, GetBucketIndex, Count, Flags, Index, Lookup, Select, Flat, Distinct;
    FlatDistinct(s.chains, 0, Count(s.word), Flags(s.word));
    forall hashValue: u64
      ensures Lookup(s, hashValue) == Select(Flat(s.chains), Flags(s.word), KeyOf(s, hashValue))
    {
      LookupInFlat(s, hashValue);
    }
  }

  /** From any table, through any run without a rehash: a search returns entries the run inserted,
      newest first, and then entries it returned before the run, in the order it had then. */
  lemma NewestComeFirst(s: TableState, ops: seq<Operation>, t: TableState, hashValue: u64)
    requires Good(s) && Run(s, ops, t)
    requires forall op :: op in ops ==> !op.ChangeTable?
    ensures Good(t)
    ensures Subsequence(Lookup(t, hashValue),
                        Reverse(Select(Inserted(ops), Flags(s.word), KeyOf(s, hashValue))) + Lookup(s, hashValue))
  {
    var f, key, es := Flags(s.word), KeyOf(s, hashValue), Flat(s.chains);
    RefinesItsEntries(s);
    RunRefines(s, es, ops, t);
    RunKeepsFlags(s, es, ops, t);
    hide Masked, GetBucketIndex, Count, Flags, Lookup, Select, Flat, Run, RunOnList, Subsequence, Reverse;
    RunKeepsOrder(es, f, ops);
    Selected(RunOnList(es, f, ops), Reverse(Inserted(ops)) + es, f, key);
    SelectConcat(Reverse(Inserted(ops)), es, f, key);
    SelectReverse(Inserted(ops), f, key);
  }

  /** While a run only inserts, that is all of them. */
  lemma OnlyInserted(s: TableState, ns: Chain, t: TableState, hashValue: u64)
    requires Good(s) && Run(s, Inserts(ns), t)
    ensures Good(t)
    ensures Lookup(t, hashValue) == Reverse(Select(ns, Flags(s.word), KeyOf(s, hashValue))) + Lookup(s, hashValue)
  {
    var f, key, es := Flags(s.word), KeyOf(s, hashValue), Flat(s.chains);
    RefinesItsEntries(s);
    RunRefines(s, es, Inserts(ns), t);
    RunKeepsFlags(s, es, Inserts(ns), t);
    hide Masked, GetBucketIndex, Count, Flags, Lookup, Select, Flat, Run, RunOnList, Reverse;
    LastInsertedComesFirst(es, f, ns, key);
  }
}
