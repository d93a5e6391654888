/** Publishing reserved actions: each pool gets its own, in batches. */
module ValuePublish {

  /** A reserved action of a pool; `id` stands for what it does. */
  datatype Action = Action(poolIndex: nat, id: nat)

  /** The most actions that one call may publish. */
  const BATCH: nat := 32

  /** The actions of one pool, in order. */
  function ForPool(actions: seq<Action>, pool: nat): seq<Action> {
    if actions == [] then []
    else
      var n := |actions| - 1;
      ForPool(actions[..n], pool) + (if actions[n].poolIndex == pool then [actions[n]] else [])
  }

  /** What a sequence of batches publishes. */
  function Concat(batches: seq<seq<Action>>): seq<Action> {
    if batches == [] then []
    else
      var n := |batches| - 1;
      Concat(batches[..n]) + batches[n]
  }

  /** The batches are not empty, none is too large, and only the last may be smaller than the
      largest. */
  ghost predicate BatchesOk(batches: seq<seq<Action>>) {
    forall k :: 0 <= k < |batches| ==>
      0 < |batches[k]| <= BATCH && (k < |batches| - 1 ==> |batches[k]| == BATCH)
  }

  lemma {:induction false} BatchCount(batches: seq<seq<Action>>)
    requires BatchesOk(batches)
    ensures |batches| == (|Concat(batches)| + BATCH - 1) / BATCH
    ensures batches != [] ==>
      |Concat(batches)| == BATCH * (|batches| - 1) + |batches[|batches| - 1]|
  {
    if batches == [] {
    } else {
      var n := |batches| - 1;
      if n > 0 {
        BatchCount(batches[..n]);
        assert |batches[..n][n - 1]| == BATCH;
      }
    }
  }

  /** Every action is published exactly once: as often as it was reserved, by its own pool, and by
      no other. */
  lemma {:induction false} ForPoolConserves(actions: seq<Action>, a: Action, pool: nat)
    ensures multiset(ForPool(actions, pool))[a] == if a.poolIndex == pool then multiset(actions)[a] else 0
  {
    if actions == [] {
    } else {
      var n := |actions| - 1;
      ForPoolConserves(actions[..n], a, pool);
      assert actions == actions[..n] + [actions[n]];
    }
  }

  /** How many of the first `i` actions are for the pool. */
  ghost function CountFor(actions: seq<Action>, pool: nat, i: nat): nat
    requires i <= |actions|
  {
    |set k | 0 <= k < i && actions[k].poolIndex == pool|
  }

  lemma CountOneMore(actions: seq<Action>, pool: nat, i: nat)
    requires i < |actions|
    ensures CountFor(actions, pool, i + 1)
         == CountFor(actions, pool, i) + if actions[i].poolIndex == pool then 1 else 0
  {
    var before := set k | 0 <= k < i && actions[k].poolIndex == pool;
    var after := set k | 0 <= k < i + 1 && actions[k].poolIndex == pool;
    if actions[i].poolIndex == pool {
      assert after == before + {i};
    } else {
      assert after == before;
    }
  }

  lemma CountInPrefix(actions: seq<Action>, pool: nat, n: nat, i: nat)
    requires i <= n <= |actions|
    ensures CountFor(actions[..n], pool, i) == CountFor(actions, pool, i)
  {
    assert (set k | 0 <= k < i && actions[..n][k].poolIndex == pool)
        == set k | 0 <= k < i && actions[k].poolIndex == pool;
  }

  lemma {:induction false} ForPoolLength(actions: seq<Action>, pool: nat)
    ensures |ForPool(actions, pool)| == CountFor(actions, pool, |actions|)
  {
    if actions == [] {
    } else {
      var n := |actions| - 1;
      ForPoolLength(actions[..n], pool);
      CountInPrefix(actions, pool, n, n);
      CountOneMore(actions, pool, n);
    }
  }

  /** The order is kept: an action comes after exactly the earlier ones for its pool. */
  lemma {:induction false} ForPoolAt(actions: seq<Action>, i: nat)
    requires i < |actions|
    ensures var pool := actions[i].poolIndex; var c := CountFor(actions, pool, i);
      c < |ForPool(actions, pool)| && ForPool(actions, pool)[c] == actions[i]
  {
    var n, pool := |actions| - 1, actions[i].poolIndex;
    CountInPrefix(actions, pool, n, i);
    if i == n {
      ForPoolLength(actions[..n], pool);
    } else {
      ForPoolAt(actions[..n], i);
    }
  }

  /** Where an entry of the concatenation is in the batches. */
  lemma {:induction false} ConcatAt(batches: seq<seq<Action>>, c: nat)
    requires BatchesOk(batches) && c < |Concat(batches)|
    ensures c / BATCH < |batches| && c % BATCH < |batches[c / BATCH]|
    ensures batches[c / BATCH][c % BATCH] == Concat(batches)[c]
  {
    var n := |batches| - 1;
    BatchCount(batches);
    if c < |Concat(batches[..n])| {
      ConcatAt(batches[..n], c);
    } else {
      assert c == BATCH * n + (c - BATCH * n);
    }
  }

  lemma ConcatOneMore(batches: seq<seq<Action>>, batch: seq<Action>)
    ensures Concat(batches + [batch]) == Concat(batches) + batch
  {
    assert (batches + [batch])[..|batches|] == batches;
  }

  /** Splits the actions of one pool into batches, each published by one call. */
  method PublishPool(pacts: seq<Action>) returns (batches: seq<seq<Action>>)
    ensures BatchesOk(batches) && Concat(batches) == pacts
    ensures |batches| == (|pacts| + BATCH - 1) / BATCH
  {
    batches := [];
    var count := |pacts|;
    var index := 0;
    while index < count
      invariant 0 <= index <= count
      invariant Concat(batches) == pacts[..index]
      invariant forall k :: 0 <= k < |batches| ==> 0 < |batches[k]| <= BATCH
      invariant forall k :: 0 <= k < |batches| && (index < count || k < |batches| - 1) ==> |batches[k]| == BATCH
    {
      var n := if count - index < BATCH then count - index else BATCH;
      var batch := pacts[index..index + n];
      ConcatOneMore(batches, batch);
      assert pacts[..index] + batch == pacts[..index + n];
      batches := batches + [batch];
      index := index + n;
    }
    assert pacts[..index] == pacts;
    BatchCount(batches);
  }

  /** Publishes all actions: pool by pool, in the order in which they were reserved. An action that
      comes after `c` others of its pool is entry `c % 32` of batch `c / 32`. */
  method KVSPublish(actions: seq<Action>, poolCount: nat) returns (published: seq<seq<seq<Action>>>)
    requires forall i :: 0 <= i < |actions| ==> actions[i].poolIndex < poolCount
    ensures |published| == poolCount
    ensures forall pool :: 0 <= pool < poolCount ==>
      && BatchesOk(published[pool])
      && Concat(published[pool]) == ForPool(actions, pool)
      && |published[pool]| == (|set k | 0 <= k < |actions| && actions[k].poolIndex == pool| + BATCH - 1) / BATCH
    ensures forall i :: 0 <= i < |actions| ==>
      var pool := actions[i].poolIndex;
      var c := |set k | 0 <= k < i && actions[k].poolIndex == pool|;
      && c / BATCH < |published[pool]| && c % BATCH < |published[pool][c / BATCH]|
      && published[pool][c / BATCH][c % BATCH] == actions[i]
  {
    var pactsOfPools: seq<seq<Action>> := seq(poolCount, _ => []);
    var i := 0;
    while i < |actions|
      invariant 0 <= i <= |actions| && |pactsOfPools| == poolCount
      invariant forall pool :: 0 <= pool < poolCount ==> pactsOfPools[pool] == ForPool(actions[..i], pool)
    {
      var pact := actions[i];
      assert actions[..i + 1][..i] == actions[..i];
      pactsOfPools := pactsOfPools[pact.poolIndex := pactsOfPools[pact.poolIndex] + [pact]];
      i := i + 1;
    }
    assert actions[..i] == actions;
    published := [];
    i := 0;
    while i < poolCount
      invariant 0 <= i <= poolCount && |published| == i
      invariant forall pool :: 0 <= pool < i ==>
        && BatchesOk(published[pool])
        && Concat(published[pool]) == ForPool(actions, pool)
        && |published[pool]| == (|ForPool(actions, pool)| + BATCH - 1) / BATCH
    {
      var batches := PublishPool(pactsOfPools[i]);
      published := published + [batches];
      i := i + 1;
    }
    forall pool | 0 <= pool < poolCount
      ensures |ForPool(actions, pool)| == |set k | 0 <= k < |actions| && actions[k].poolIndex == pool|
    {
      ForPoolLength(actions, pool);
    }
    forall i | 0 <= i < |actions|
      ensures var pool := actions[i].poolIndex;
        var c := |set k | 0 <= k < i && actions[k].poolIndex == pool|;
        && c / BATCH < |published[pool]| && c % BATCH < |published[pool][c / BATCH]|
        && published[pool][c / BATCH][c % BATCH] == actions[i]
    {
      ForPoolAt(actions, i);
      ConcatAt(published[actions[i].poolIndex], CountFor(actions, actions[i].poolIndex, i));
    }
  }
}
