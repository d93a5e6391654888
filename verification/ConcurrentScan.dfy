/** A scan by iterator that overlaps with inserts: `SeekToFirst` and then `Next` until the end. */
module ConcurrentScan {
  import opened Keys
  import opened ConcurrentSkipList
  import opened ConcurrentSteps
  import opened ConcurrentRuns

  /** A scan changes nothing shared, so it is described beside the run of the other operations: read
      `j` sees the state `times[j]` of the run, follows the link of level 0 out of the node that read
      `j - 1` came to, or out of the head, and comes to `nodes[j]`. The last read finds the end. */
  ghost predicate IsScan(run: seq<State>, times: seq<nat>, nodes: seq<nat>) {
    && |times| == |nodes| + 1
    && (forall j :: 0 <= j < |times| ==> times[j] < |run| && |run[times[j]].shared.levels| > 0)
    && (forall i, j :: 0 <= i < j < |times| ==> times[i] <= times[j])
    && (forall j {:trigger ReadAt(run, times, nodes, j)} :: 0 <= j < |nodes| ==>
          ReadAt(run, times, nodes, j) == Ptr(nodes[j]))
    && ReadAt(run, times, nodes, |nodes|) == Null
  }

  ghost function From(nodes: seq<nat>, j: nat): Ref
    requires j <= |nodes|
  {
    if j == 0 then Head else Ptr(nodes[j - 1])
  }

  ghost function ReadAt(run: seq<State>, times: seq<nat>, nodes: seq<nat>, j: nat): Ref
    requires j < |times| && j <= |nodes|
    requires times[j] < |run| && |run[times[j]].shared.levels| > 0
  {
    LinkOf(run[times[j]].shared, 0, From(nodes, j))
  }

  ghost predicate LinkedIn(s: State, m: nat) {
    |s.shared.levels| > 0 && m in s.shared.levels[0].linked
  }

  /** What the first `j` reads have come to: sorted, linked, and nothing skipped that was linked when
      the scan began. */
  ghost predicate ScannedOk(cfg: Config, run: seq<State>, times: seq<nat>, nodes: seq<nat>, j: nat)
    requires j <= |nodes| && |times| == |nodes| + 1 && forall k :: 0 <= k < |times| ==> times[k] < |run|
  {
    && (forall k :: 0 <= k < j ==> cfg.IsOp(nodes[k]) && LinkedIn(run[times[k]], nodes[k]))
    && (forall i, k :: 0 <= i < k < j ==> cfg.KeyOf(nodes[i]) < cfg.KeyOf(nodes[k]))
    && (forall m :: LinkedIn(run[times[0]], m) ==>
          cfg.IsOp(m) && (m in nodes[..j] || cfg.After(From(nodes, j), m)))
  }

  /** What is linked at one read is linked at all later reads. */
  lemma StaysLinked(cfg: Config, sched: seq<Choice>, run: seq<State>, times: seq<nat>, nodes: seq<nat>,
                    i: nat, j: nat)
    requires IsRun(cfg, sched, run) && IsScan(run, times, nodes) && i <= j < |times|
    ensures forall m :: LinkedIn(run[times[i]], m) ==> LinkedIn(run[times[j]], m)
  {
    NothingIsLost(cfg, sched, run, times[i], times[j]);
  }

  /** A read from a linked node follows the link to the immediate successor at that instant. */
  lemma ReadsSuccessor(cfg: Config, sched: seq<Choice>, run: seq<State>, times: seq<nat>, nodes: seq<nat>, j: nat)
    requires IsRun(cfg, sched, run) && IsScan(run, times, nodes)
    requires j <= |nodes| && ScannedOk(cfg, run, times, nodes, j)
    ensures var linked := run[times[j]].shared.levels[0].linked;
      IsSuccessor(cfg, linked, From(nodes, j), ReadAt(run, times, nodes, j))
  {
    var l, r := run[times[j]].shared.levels[0], From(nodes, j);
    RunKeepsInv(cfg, sched, run, times[j]);
    assert LevelOk(cfg, l, 0);
    if j > 0 {
      StaysLinked(cfg, sched, run, times, nodes, j - 1, j);
      assert LinkedIn(run[times[j - 1]], nodes[j - 1]);
    }
    assert IsNode(l, r);
  }

  /** One read: nothing linked since the beginning of the scan is skipped. */
  lemma ReadOne(cfg: Config, sched: seq<Choice>, run: seq<State>, times: seq<nat>, nodes: seq<nat>, j: nat)
    requires IsRun(cfg, sched, run) && IsScan(run, times, nodes)
    requires j <= |nodes| && ScannedOk(cfg, run, times, nodes, j)
    ensures j < |nodes| ==> ScannedOk(cfg, run, times, nodes, j + 1)
    ensures j == |nodes| ==> forall m :: LinkedIn(run[times[0]], m) ==> m in nodes
  {
    ReadsSuccessor(cfg, sched, run, times, nodes, j);
    StaysLinked(cfg, sched, run, times, nodes, 0, j);
    if j < |nodes| {
      assert ReadAt(run, times, nodes, j) == Ptr(nodes[j]);
      assert nodes[..j + 1] == nodes[..j] + [nodes[j]];
    } else {
      assert nodes[..j] == nodes;
    }
  }

  lemma {:induction false} ScanSoFar(cfg: Config, sched: seq<Choice>, run: seq<State>, times: seq<nat>,
                                     nodes: seq<nat>, j: nat)
    requires IsRun(cfg, sched, run) && IsScan(run, times, nodes) && j <= |nodes|
    ensures ScannedOk(cfg, run, times, nodes, j)
  {
    if j == 0 {
      RunKeepsInv(cfg, sched, run, times[0]);
      assert LevelOk(cfg, run[times[0]].shared.levels[0], 0);
    } else {
      ScanSoFar(cfg, sched, run, times, nodes, j - 1);
      ReadOne(cfg, sched, run, times, nodes, j - 1);
    }
  }

  /** A scan that overlaps with inserts meets keys in strictly increasing order, only nodes that are
      linked, and every node that was linked when it began. */
  lemma {:induction false} ScanIsSortedAndComplete(cfg: Config, sched: seq<Choice>, run: seq<State>,
                                                   times: seq<nat>, nodes: seq<nat>)
    requires IsRun(cfg, sched, run) && IsScan(run, times, nodes)
    ensures StrictlySorted(cfg, nodes)
    ensures forall k :: 0 <= k < |nodes| ==> LinkedIn(run[times[k]], nodes[k])
    ensures forall m :: LinkedIn(run[times[0]], m) ==> m in nodes
  {
    ScanSoFar(cfg, sched, run, times, nodes, |nodes|);
    ReadOne(cfg, sched, run, times, nodes, |nodes|);
  }
}
