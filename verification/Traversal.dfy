/** The iterator as a value, and what a whole traversal does. */
module Traversal {
  import opened Bits
  import opened Nodes
  import opened Chains

  /** The chains, the current bucket, and how many entries of its chain are behind the cursor. */
  datatype Cursor = Cursor(chains: seq<Chain>, bucket: nat, col: nat) {
    predicate Ok() {
      if chains == [] then bucket == col == 0 else bucket < |chains| && col <= |chains[bucket]|
    }
  }

  function Start(chains: seq<Chain>): Cursor {
    Cursor(chains, 0, 0)
  }

  function Behind(c: Cursor): Chain
    requires c.Ok()
  {
    if c.chains == [] then [] else Flat(c.chains[..c.bucket]) + c.chains[c.bucket][..c.col]
  }

  function Remaining(c: Cursor): Chain
    requires c.Ok()
  {
    if c.chains == [] then [] else c.chains[c.bucket][c.col..] + Flat(c.chains[c.bucket + 1..])
  }

  function NextNonEmpty(chains: seq<Chain>, b: nat): (k: nat)
    ensures b <= k && (k < |chains| ==> chains[k] != [])
    decreases |chains| - b
  {
    if b >= |chains| || chains[b] != [] then b else NextNonEmpty(chains, b + 1)
  }

  /** `HashTableIterGetNext` */
  function NextOf(c: Cursor): (Cursor, Option<Node>)
    requires c.Ok()
  {
    if c.chains != [] && c.col < |c.chains[c.bucket]| then
      (c.(col := c.col + 1), Some(c.chains[c.bucket][c.col]))
    else
      var b := NextNonEmpty(c.chains, c.bucket + 1);
      if b >= |c.chains| then (c, None) else (c.(bucket := b, col := 1), Some(c.chains[b][0]))
  }

  /** `HashTableIterRemove` */
  function RemoveOf(c: Cursor): (Cursor, Option<Node>)
    requires c.Ok()
  {
    if c.col == 0 then (c, None)
    else
      var chain := c.chains[c.bucket];
      (Cursor(c.chains[c.bucket := Without(chain, c.col - 1)], c.bucket, c.col - 1), Some(chain[c.col - 1]))
  }

  /** Removing through the cursor erases the position it has just passed. */
  lemma RemoveErases(s: TableState, b: nat, col: nat)
    requires Cursor(s.chains, b, col).Ok() && col > 0
    ensures RemoveOf(Cursor(s.chains, b, col)) ==
            (Cursor(ErasedAt(s, b, col - 1).chains, b, col - 1), Some(s.chains[b][col - 1]))
  {
  }

  lemma RemoveNothing(c: Cursor)
    requires c.Ok() && c.col == 0
    ensures RemoveOf(c) == (c, None)
  {
  }

  lemma ErasedChain(s: TableState, j: nat, i: nat)
    requires j < |s.chains| && i < |s.chains[j]|
    ensures ErasedAt(s, j, i).word == s.word && |ErasedAt(s, j, i).chains| == |s.chains|
    ensures ErasedAt(s, j, i).chains[j] == Without(s.chains[j], i)
    ensures |Without(s.chains[j], i)| == |s.chains[j]| - 1
  {
  }

  lemma BehindAndRemaining(c: Cursor)
    requires c.Ok()
    ensures Flat(c.chains) == Behind(c) + Remaining(c)
  {
    if c.chains != [] {
      var b, chain := c.bucket, c.chains[c.bucket];
      var before, rest := c.chains[..b], c.chains[b + 1..];
      assert c.chains == before + ([chain] + rest);
      FlatSplit(before, [chain] + rest);
      assert ([chain] + rest)[1..] == rest;
      assert Flat([chain] + rest) == chain + Flat(rest);
      hide Flat;
      assert chain == chain[..c.col] + chain[c.col..];
      Regroup(chain[..c.col], chain[c.col..], Flat(rest));
      Regroup(Flat(before), chain[..c.col], chain[c.col..] + Flat(rest));
    }
  }

  lemma {:induction false} SkippedAreEmpty(chains: seq<Chain>, b: nat)
    requires b <= |chains|
    ensures var k := NextNonEmpty(chains, b); k <= |chains| && Flat(chains[b..]) == Flat(chains[k..])
    decreases |chains| - b
  {
    if b < |chains| && chains[b] == [] {
      assert chains[b..][1..] == chains[b + 1..];
      SkippedAreEmpty(chains, b + 1);
    }
  }

  /** One step returns the first remaining entry and moves it behind; it returns NULL exactly when
      none remains, and then nothing changes. */
  lemma NextStep(c: Cursor)
    requires c.Ok()
    ensures var (d, r) := NextOf(c);
            && d.Ok() && d.chains == c.chains
            && (r == None <==> Remaining(c) == [])
            && (r == None ==> d == c)
            && (r != None ==> Remaining(c) == [r.value] + Remaining(d) && Behind(d) == Behind(c) + [r.value])
  {
    var (d, r) := NextOf(c);
    if c.chains != [] {
      if c.col < |c.chains[c.bucket]| { NextWithin(c); } else { NextBeyond(c); }
    }
    if r != None {
      BehindAndRemaining(c);
      BehindAndRemaining(d);
      assert Behind(c) + ([r.value] + Remaining(d)) == (Behind(c) + [r.value]) + Remaining(d);
      SameFront(Behind(c) + [r.value], Behind(d), Remaining(d));
    }
  }

  lemma NextWithin(c: Cursor)
    requires c.Ok() && c.chains != [] && c.col < |c.chains[c.bucket]|
    ensures var (d, r) := NextOf(c);
            d.Ok() && d.chains == c.chains && r != None && Remaining(c) == [r.value] + Remaining(d)
  {
    var chain := c.chains[c.bucket];
    assert chain[c.col..] == [chain[c.col]] + chain[c.col + 1..];
  }

  lemma NextBeyond(c: Cursor)
    requires c.Ok() && c.chains != [] && c.col == |c.chains[c.bucket]|
    ensures var (d, r) := NextOf(c);
            && d.Ok() && d.chains == c.chains
            && (if r == None then d == c && Remaining(c) == [] else Remaining(c) == [r.value] + Remaining(d))
  {
    hide Flat;
    var b := NextNonEmpty(c.chains, c.bucket + 1);
    RemainingBeyond(c);
    if b < |c.chains| {
      FlatFrom(c.chains, b);
    } else {
      assert c.chains[b..] == [];
      FlatNone();
    }
  }

  lemma RemainingBeyond(c: Cursor)
    requires c.Ok() && c.chains != [] && c.col == |c.chains[c.bucket]|
    ensures var b := NextNonEmpty(c.chains, c.bucket + 1);
            b <= |c.chains| && Remaining(c) == Flat(c.chains[b..])
  {
    hide Flat;
    SkippedAreEmpty(c.chains, c.bucket + 1);
    assert c.chains[c.bucket][c.col..] == [];
  }

  lemma FlatNone()
    ensures Flat([]) == []
  {
  }

  lemma FlatFrom(chains: seq<Chain>, b: nat)
    requires b < |chains| && chains[b] != []
    ensures Flat(chains[b..]) == [chains[b][0]] + (chains[b][1..] + Flat(chains[b + 1..]))
  {
    assert chains[b..][1..] == chains[b + 1..];
    assert chains[b] == [chains[b][0]] + chains[b][1..];
  }

  lemma SameFront(a: Chain, b: Chain, tail: Chain)
    requires a + tail == b + tail
    ensures a == b
  {
    assert a == (a + tail)[..|a|] && b == (b + tail)[..|b|];
  }

  /** A removal takes out the last entry behind the cursor, and skips nothing. */
  lemma RemoveStep(c: Cursor)
    requires c.Ok()
    ensures var (d, r) := RemoveOf(c);
            && d.Ok() && |d.chains| == |c.chains| && Remaining(d) == Remaining(c)
            && (r == None ==> d == c)
            && (r != None ==> Behind(c) == Behind(d) + [r.value])
            && multiset(Flat(c.chains)) ==
               multiset(Flat(d.chains)) + (if r == None then multiset{} else multiset{r.value})
  {
    var (d, r) := RemoveOf(c);
    if r != None {
      var b, chain := c.bucket, c.chains[c.bucket];
      var k := c.col - 1;
      assert d.chains[..b] == c.chains[..b] && d.chains[b + 1..] == c.chains[b + 1..];
      assert Without(chain, k)[k..] == chain[k + 1..];
      assert Without(chain, k)[..k] == chain[..k];
      assert chain[..c.col] == chain[..k] + [chain[k]];
      FlatWithout(c.chains, b, k);
    }
  }

  // ---- whole runs

  datatype Command = Next | Remove
  datatype Trace = Trace(cursor: Cursor, returned: Chain, removed: Chain)

  function Advance(c: Cursor, command: Command): (a: (Cursor, Option<Node>))
    requires c.Ok()
    ensures a.0.Ok()
  {
    NextStep(c);
    RemoveStep(c);
    if command.Next? then NextOf(c) else RemoveOf(c)
  }

  function Log(r: Option<Node>): Chain {
    match r
    case None => []
    case Some(n) => [n]
  }

  /** The calls in order, with the non-NULL results of each kind. */
  function Run(c: Cursor, commands: seq<Command>): (t: Trace)
    requires c.Ok()
    ensures t.cursor.Ok()
    decreases |commands|
  {
    if commands == [] then Trace(c, [], [])
    else
      var (d, r) := Advance(c, commands[0]);
      var t := Run(d, commands[1..]);
      if commands[0].Next? then t.(returned := Log(r) + t.returned) else t.(removed := Log(r) + t.removed)
  }

  /** Whatever is removed in between, `GetNext` hands out the entries in order, each once, skipping
      none: what it returned and what remains is what was there. */
  lemma {:induction false} RunReturnsInOrder(c: Cursor, commands: seq<Command>)
    requires c.Ok()
    ensures Run(c, commands).returned + Remaining(Run(c, commands).cursor) == Remaining(c)
    decreases |commands|
  {
    hide Remaining, Behind, NextOf, RemoveOf, Cursor.Ok;
    if commands != [] {
      NextStep(c);
      RemoveStep(c);
      var (d, r) := Advance(c, commands[0]);
      RunReturnsInOrder(d, commands[1..]);
    }
  }

  /** Nothing leaves the table but what `IterRemove` returned. */
  lemma {:induction false} RunConservesEntries(c: Cursor, commands: seq<Command>)
    requires c.Ok()
    ensures multiset(Flat(c.chains)) ==
            multiset(Flat(Run(c, commands).cursor.chains)) + multiset(Run(c, commands).removed)
    decreases |commands|
  {
    hide Remaining, Behind, NextOf, RemoveOf, Cursor.Ok, Flat;
    if commands != [] {
      NextStep(c);
      RemoveStep(c);
      var (d, r) := Advance(c, commands[0]);
      RunConservesEntries(d, commands[1..]);
    }
  }

  function NextCount(commands: seq<Command>): nat {
    if commands == [] then 0 else (if commands[0].Next? then 1 else 0) + NextCount(commands[1..])
  }

  lemma {:induction false} RunProgress(c: Cursor, commands: seq<Command>)
    requires c.Ok()
    ensures var n, m := NextCount(commands), |Remaining(c)|;
            |Run(c, commands).returned| == if n <= m then n else m
    decreases |commands|
  {
    hide Remaining, Behind, NextOf, RemoveOf, Cursor.Ok;
    if commands != [] {
      NextStep(c);
      RemoveStep(c);
      RunFront(c, commands[0], commands[1..]);
      assert [commands[0]] + commands[1..] == commands;
      var (d, r) := Advance(c, commands[0]);
      RunProgress(d, commands[1..]);
      hide Run;
    }
  }

  /** Every traversal ends: once `GetNext` has been called as often as there were entries at the
      start, each has been returned exactly once, and from then on it returns NULL. */
  lemma RunTerminates(chains: seq<Chain>, commands: seq<Command>)
    requires NextCount(commands) >= |Flat(chains)|
    ensures Run(Start(chains), commands).returned == Flat(chains)
    ensures NextOf(Run(Start(chains), commands).cursor) == (Run(Start(chains), commands).cursor, None)
  {
    hide Run;
    var c := Start(chains);
    var t := Run(c, commands);
    BehindAndRemaining(c);
    assert Behind(c) == [];
    RunProgress(c, commands);
    RunReturnsInOrder(c, commands);
    assert Remaining(t.cursor) == [];
    NextStep(t.cursor);
  }

  /** `GetNext` once per flag, with `IterRemove` right after it where the flag is set. */
  function Walk(flags: seq<bool>): seq<Command> {
    if flags == [] then [] else (if flags[0] then [Next, Remove] else [Next]) + Walk(flags[1..])
  }

  function Kept(es: Chain, flags: seq<bool>): Chain {
    if es == [] || flags == [] then es
    else (if flags[0] then [] else [es[0]]) + Kept(es[1..], flags[1..])
  }

  function Flagged(es: Chain, flags: seq<bool>): Chain {
    if es == [] || flags == [] then []
    else (if flags[0] then [es[0]] else []) + Flagged(es[1..], flags[1..])
  }

  lemma {:induction false} RunConcat(c: Cursor, a: seq<Command>, b: seq<Command>)
    requires c.Ok()
    ensures var t, u := Run(c, a), Run(Run(c, a).cursor, b);
            Run(c, a + b) == Trace(u.cursor, t.returned + u.returned, t.removed + u.removed)
    decreases |a|
  {
    hide Advance, Cursor.Ok;
    if a == [] {
      assert a + b == b;
    } else {
      var (d, r) := Advance(c, a[0]);
      RunConcat(d, a[1..], b);
      RunFront(c, a[0], a[1..]);
      RunFront(c, a[0], a[1..] + b);
      hide Run, Log;
      assert [a[0]] + a[1..] == a && [a[0]] + (a[1..] + b) == a + b;
      var t, u := Run(d, a[1..]), Run(Run(d, a[1..]).cursor, b);
      Regroup(if a[0].Next? then Log(r) else [], t.returned, u.returned);
      Regroup(if a[0].Next? then [] else Log(r), t.removed, u.removed);
    }
  }

  lemma RunFront(c: Cursor, command: Command, rest: seq<Command>)
    requires c.Ok()
    ensures var (d, r) := Advance(c, command);
            var t := Run(d, rest);
            Run(c, [command] + rest) == Trace(t.cursor, (if command.Next? then Log(r) else []) + t.returned,
                                              (if command.Next? then [] else Log(r)) + t.removed)
  {
    hide Advance, Cursor.Ok, Log;
    assert ([command] + rest)[1..] == rest;
  }

  /** Removing after any subset of the results: every result comes in order, those flagged are
      removed, and the entries that are left keep their order. */
  lemma WalkKeepsTheRest(c: Cursor, flags: seq<bool>)
    requires c.Ok() && |flags| <= |Remaining(c)|
    ensures var t := Run(c, Walk(flags));
            && t.returned == Remaining(c)[..|flags|]
            && t.removed == Flagged(Remaining(c), flags)
            && Flat(t.cursor.chains) == Behind(c) + Kept(Remaining(c), flags)
  {
    WalkReturns(c, flags);
    WalkLeaves(c, flags);
  }

  lemma {:induction false} WalkReturns(c: Cursor, flags: seq<bool>)
    requires c.Ok() && |flags| <= |Remaining(c)|
    ensures var t := Run(c, Walk(flags));
            t.returned == Remaining(c)[..|flags|] && t.removed == Flagged(Remaining(c), flags)
    decreases |flags|
  {
    hide Remaining, Behind, NextOf, RemoveOf, Cursor.Ok, Flat, Run, Walk, Flagged;
    if flags == [] {
      WalkNothing(c);
    } else {
      WalkUnfolds(c, flags);
      var r, e := WalkRound(c, flags[0]);
      KeptStep(Remaining(c), flags);
      WalkReturns(e, flags[1..]);
      assert ([r] + Remaining(e))[..|flags|] == [r] + Remaining(e)[..|flags| - 1];
    }
  }

  lemma {:induction false} WalkLeaves(c: Cursor, flags: seq<bool>)
    requires c.Ok() && |flags| <= |Remaining(c)|
    ensures Flat(Run(c, Walk(flags)).cursor.chains) == Behind(c) + Kept(Remaining(c), flags)
    decreases |flags|
  {
    hide Remaining, Behind, NextOf, RemoveOf, Cursor.Ok, Flat, Run, Walk, Kept;
    if flags == [] {
      WalkNothing(c);
    } else {
      WalkUnfolds(c, flags);
      var r, e := WalkRound(c, flags[0]);
      KeptStep(Remaining(c), flags);
      WalkLeaves(e, flags[1..]);
    }
  }

  /** What one round returns and where it leaves the cursor. */
  lemma WalkRound(c: Cursor, remove: bool) returns (r: Node, e: Cursor)
    requires c.Ok() && Remaining(c) != []
    ensures NextOf(c).1 == Some(r) && NextOf(c).0.Ok()
    ensures e == (if remove then RemoveOf(NextOf(c).0).0 else NextOf(c).0) && e.Ok()
    ensures Remaining(c) == [r] + Remaining(e) && Remaining(c)[0] == r && Remaining(c)[1..] == Remaining(e)
    ensures Behind(e) == Behind(c) + if remove then [] else [r]
  {
    hide Remaining, Behind, NextOf, RemoveOf, Cursor.Ok;
    FirstRound(c, remove);
    NextStep(c);
    var d := NextOf(c).0;
    r := NextOf(c).1.value;
    e := if remove then RemoveOf(d).0 else d;
  }

  lemma KeptStep(es: Chain, flags: seq<bool>)
    requires es != [] && flags != []
    ensures Kept(es, flags) == (if flags[0] then [] else [es[0]]) + Kept(es[1..], flags[1..])
    ensures Flagged(es, flags) == (if flags[0] then [es[0]] else []) + Flagged(es[1..], flags[1..])
  {
  }

  lemma WalkNothing(c: Cursor)
    requires c.Ok()
    ensures Run(c, Walk([])) == Trace(c, [], [])
    ensures Remaining(c)[..0] == [] && Flagged(Remaining(c), []) == []
    ensures Flat(c.chains) == Behind(c) + Kept(Remaining(c), [])
  {
    BehindAndRemaining(c);
  }

  lemma WalkUnfolds(c: Cursor, flags: seq<bool>)
    requires c.Ok() && flags != [] && Remaining(c) != []
    ensures var (d, r) := NextOf(c);
            var e := if flags[0] then RemoveOf(d).0 else d;
            && d.Ok() && e.Ok() && r != None
            && var t := Run(e, Walk(flags[1..]));
            Run(c, Walk(flags)) ==
            Trace(t.cursor, [r.value] + t.returned, (if flags[0] then [r.value] else []) + t.removed)
  {
    hide Remaining, Behind, NextOf, RemoveOf, Cursor.Ok, Run;
    FirstRound(c, flags[0]);
    RunConcat(c, if flags[0] then [Next, Remove] else [Next], Walk(flags[1..]));
  }

  lemma FirstRound(c: Cursor, remove: bool)
    requires c.Ok() && Remaining(c) != []
    ensures var (d, r) := NextOf(c);
            && d.Ok() && r != None && r.value == Remaining(c)[0]
            && Run(c, if remove then [Next, Remove] else [Next])
               == Trace(if remove then RemoveOf(d).0 else d, [r.value], if remove then [r.value] else [])
            && (remove ==> RemoveOf(d).0.Ok() && Behind(RemoveOf(d).0) == Behind(c)
                           && Remaining(RemoveOf(d).0) == Remaining(d))
  {
    hide Remaining, Behind, Cursor.Ok, RemoveOf, NextOf;
    NextStep(c);
    var (d, r) := NextOf(c);
    RemoveStep(d);
    var (e, q) := RemoveOf(d);
    assert [Next, Remove][1..] == [Remove] && [Remove][1..] == [] && [Next][1..] == [];
    RemoveAfterNext(c);
    assert Run(e, []) == Trace(e, [], []) && Run(d, []) == Trace(d, [], []);
    assert Run(d, [Remove]) == Trace(e, [], Log(q));
    if remove {
      assert Run(c, [Next, Remove]) == Trace(e, [r.value], [r.value]);
    }
  }

  lemma RemoveAfterNext(c: Cursor)
    requires c.Ok() && Remaining(c) != []
    ensures var (d, r) := NextOf(c);
            d.Ok() && r != None && RemoveOf(d).1 == r && RemoveOf(d).0.Ok() && Behind(RemoveOf(d).0) == Behind(c)
  {
    hide Remaining, Behind;
    NextStep(c);
    var (d, r) := NextOf(c);
    RemoveStep(d);
    var (e, q) := RemoveOf(d);
    assert d.col > 0;
    assert Behind(c) + [r.value] == Behind(e) + [q.value];
    assert (Behind(c) + [r.value])[|Behind(c)|] == r.value;
    SameFront(Behind(c), Behind(e), [r.value]);
  }
}
