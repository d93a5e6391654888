/** Runs: any number of operations under any interleaving, and what holds in every state they reach. */
module ConcurrentRuns {
  import opened Keys
  import opened ConcurrentSkipList
  import opened ConcurrentSteps

  /** The scheduler picks a thread, and whether a weak CAS of that thread fails spuriously. */
  datatype Choice = Choice(t: nat, spurious: bool)

  predicate HasArrays(cfg: Config, th: Thread, bk: Book) {
    && |th.prev| == |th.next| == SPLICE_SLOTS
    && |bk.start| == |bk.snap| == |bk.fails| == cfg.maxLevels
  }

  ghost predicate Inv(cfg: Config, s: State) {
    && cfg.Valid()
    && |s.threads| == |s.books| == |cfg.ops|
    && SharedOk(cfg, s.shared)
    && (forall t | 0 <= t < |cfg.ops| :: HasArrays(cfg, s.threads[t], s.books[t]))
    && forall t {:trigger ThreadOk(cfg, s.shared, t, s.threads[t], s.books[t])} | 0 <= t < |cfg.ops| ::
         ThreadOk(cfg, s.shared, t, s.threads[t], s.books[t])
  }

  /** The constructor's list: head only, `max_height_` 1; no operation has begun. */
  function Init(cfg: Config): State {
    State(
      Shared(seq(cfg.maxLevels, i => Level(map[Head := Null], {})), 1),
      seq(|cfg.ops|, t => Thread(Idle, seq(SPLICE_SLOTS, i => Null), seq(SPLICE_SLOTS, i => Null), 0)),
      seq(|cfg.ops|, t => Book(seq(cfg.maxLevels, i => {}), seq(cfg.maxLevels, i => {}), seq(cfg.maxLevels, i => 0))))
  }

  lemma InitOk(cfg: Config)
    requires cfg.Valid()
    ensures Inv(cfg, Init(cfg))
  {
    var s := Init(cfg);
    forall i | 0 <= i < |s.shared.levels| ensures LevelOk(cfg, s.shared.levels[i], i) {
      assert s.shared.levels[i] == Level(map[Head := Null], {});
    }
    forall t | 0 <= t < |cfg.ops| ensures ThreadOk(cfg, s.shared, t, s.threads[t], s.books[t]) {
      assert LinkedBelow(s.shared, t, 0);
    }
  }

  /** One step: the scheduled thread takes it, the other threads keep their program state. */
  ghost predicate TakesStep(cfg: Config, s: State, c: Choice, s': State) {
    && cfg.WellFormed() && cfg.IsOp(c.t) && c.t < |s.threads| && c.t < |s.books|
    && var th, bk := s.threads[c.t], s.books[c.t];
    && PhaseFits(cfg, c.t, th) && Shape(cfg, s.shared, th, bk)
    && var l := StepLocal(cfg, s.shared, c.t, th, bk, c.spurious);
    && s' == State(l.shared, s.threads[c.t := l.thread], s.books[c.t := l.book])
  }

  lemma StepKeepsInv(cfg: Config, s: State, c: Choice, s': State)
    requires Inv(cfg, s) && TakesStep(cfg, s, c, s')
    ensures Inv(cfg, s')
    ensures Extends(s.shared, s'.shared, c.t)
  {
    assert ThreadOk(cfg, s.shared, c.t, s.threads[c.t], s.books[c.t]);
    LocalStepOk(cfg, s.shared, c.t, s.threads[c.t], s.books[c.t], c.spurious);
    forall u | 0 <= u < |cfg.ops| ensures ThreadOk(cfg, s'.shared, u, s'.threads[u], s'.books[u]) {
      if u != c.t {
        assert ThreadOk(cfg, s.shared, u, s.threads[u], s.books[u]);
        ThreadStable(cfg, s.shared, s'.shared, c.t, u, s.threads[u], s.books[u]);
      }
    }
  }

  /** A run whose inserts all fit the splice arrays. */
  ghost predicate IsRun(cfg: Config, sched: seq<Choice>, run: seq<State>) {
    cfg.Valid() && IsExecution(cfg, sched, run)
  }

  /** It starts with the empty list, and step `k` is taken by the thread `sched[k]` names. */
  ghost predicate IsExecution(cfg: Config, sched: seq<Choice>, run: seq<State>) {
    && cfg.WellFormed()
    && |run| == |sched| + 1
    && run[0] == Init(cfg)
    && forall k | 0 <= k < |sched| :: StepAt(cfg, sched, run, k)
  }

  ghost predicate StepAt(cfg: Config, sched: seq<Choice>, run: seq<State>, k: nat) {
    k < |sched| && k + 1 < |run| && TakesStep(cfg, run[k], sched[k], run[k + 1])
  }

  /** No step is ever impossible: whichever threads the scheduler picks, there is a run. */
  lemma {:induction false} EveryScheduleHasARun(cfg: Config, sched: seq<Choice>) returns (run: seq<State>)
    requires cfg.Valid() && forall k | 0 <= k < |sched| :: cfg.IsOp(sched[k].t)
    ensures IsRun(cfg, sched, run)
    decreases |sched|
  {
    if sched == [] {
      run := [Init(cfg)];
    } else {
      var c := sched[|sched| - 1];
      var before := EveryScheduleHasARun(cfg, sched[..|sched| - 1]);
      var s := before[|sched| - 1];
      RunKeepsInv(cfg, sched[..|sched| - 1], before, |sched| - 1);
      assert ThreadOk(cfg, s.shared, c.t, s.threads[c.t], s.books[c.t]);
      var l := StepLocal(cfg, s.shared, c.t, s.threads[c.t], s.books[c.t], c.spurious);
      run := before + [State(l.shared, s.threads[c.t := l.thread], s.books[c.t := l.book])];
      forall k | 0 <= k < |sched| ensures StepAt(cfg, sched, run, k) {
        if k < |sched| - 1 {
          assert StepAt(cfg, sched[..|sched| - 1], before, k);
        }
      }
    }
  }

  /** The invariant holds in every reachable state. */
  lemma {:induction false} RunKeepsInv(cfg: Config, sched: seq<Choice>, run: seq<State>, n: nat)
    requires IsRun(cfg, sched, run) && n <= |sched|
    ensures Inv(cfg, run[n])
  {
    if n == 0 {
      InitOk(cfg);
    } else {
      RunKeepsInv(cfg, sched, run, n - 1);
      assert StepAt(cfg, sched, run, n - 1);
      StepKeepsInv(cfg, run[n - 1], sched[n - 1], run[n]);
    }
  }

  /** Step `k` of a run, with the invariant on both sides. */
  lemma {:induction false} RunStep(cfg: Config, sched: seq<Choice>, run: seq<State>, k: nat)
    requires IsRun(cfg, sched, run) && k < |sched|
    ensures Inv(cfg, run[k]) && TakesStep(cfg, run[k], sched[k], run[k + 1]) && Inv(cfg, run[k + 1])
  {
    RunKeepsInv(cfg, sched, run, k);
    RunKeepsInv(cfg, sched, run, k + 1);
    assert StepAt(cfg, sched, run, k);
  }

  // ---------------------------------------------------------------------------------------
  // The lists
  // ---------------------------------------------------------------------------------------

  ghost function NodesAfter(cfg: Config, l: Level, r: Ref): set<nat> {
    set m | m in l.linked && cfg.After(r, m)
  }

  /** The nodes met by following links from `r` to the end of the level. */
  ghost function Walk(cfg: Config, l: Level, level: nat, r: Ref): seq<nat>
    requires LevelOk(cfg, l, level) && IsNode(l, r)
    decreases NodesAfter(cfg, l, r)
  {
    assert IsSuccessor(cfg, l.linked, r, l.next[r]);
    if l.next[r].Null? then []
    else
      var q := l.next[r].id;
      assert q in NodesAfter(cfg, l, r) && q !in NodesAfter(cfg, l, Ptr(q));
      [q] + Walk(cfg, l, level, Ptr(q))
  }

  ghost predicate StrictlySorted(cfg: Config, nodes: seq<nat>) {
    && (forall n | n in nodes :: cfg.IsOp(n))
    && forall i, j | 0 <= i < j < |nodes| ::
         cfg.IsOp(nodes[i]) && cfg.IsOp(nodes[j]) && cfg.KeyOf(nodes[i]) < cfg.KeyOf(nodes[j])
  }

  lemma {:induction false} WalkIsSorted(cfg: Config, l: Level, level: nat, r: Ref)
    requires LevelOk(cfg, l, level) && IsNode(l, r)
    ensures StrictlySorted(cfg, Walk(cfg, l, level, r))
    ensures forall m :: m in Walk(cfg, l, level, r) <==> m in NodesAfter(cfg, l, r)
    decreases NodesAfter(cfg, l, r)
  {
    assert IsSuccessor(cfg, l.linked, r, l.next[r]);
    if l.next[r].Null? {
    } else {
      var q := l.next[r].id;
      assert q in NodesAfter(cfg, l, r) && q !in NodesAfter(cfg, l, Ptr(q));
      WalkIsSorted(cfg, l, level, Ptr(q));
      var rest := Walk(cfg, l, level, Ptr(q));
      assert Walk(cfg, l, level, r) == [q] + rest;
      forall m | m in rest ensures cfg.KeyOf(q) < cfg.KeyOf(m) {
        assert m in NodesAfter(cfg, l, Ptr(q));
      }
    }
  }

  /** In every reachable state, following the links of any level from the head terminates and
      meets exactly the nodes linked there, in strictly increasing key order; and every node of a
      level is on the level below. */
  lemma {:induction false} EveryLevelIsASortedList(cfg: Config, sched: seq<Choice>, run: seq<State>, n: nat, i: nat)
    requires IsRun(cfg, sched, run) && n <= |sched| && i < cfg.maxLevels
    ensures |run[n].shared.levels| == cfg.maxLevels
    ensures var l := run[n].shared.levels[i];
            && LevelOk(cfg, l, i)
            && StrictlySorted(cfg, Walk(cfg, l, i, Head))
            && (forall m :: m in Walk(cfg, l, i, Head) <==> m in l.linked)
    ensures i > 0 ==> run[n].shared.levels[i].linked <= run[n].shared.levels[i - 1].linked
  {
    RunKeepsInv(cfg, sched, run, n);
    var l := run[n].shared.levels[i];
    assert LevelOk(cfg, l, i);
    WalkIsSorted(cfg, l, i, Head);
  }

  ghost predicate Grows(sh: Shared, sh': Shared) {
    && |sh.levels| == |sh'.levels|
    && sh.maxHeight <= sh'.maxHeight
    && forall i | 0 <= i < |sh.levels| :: sh.levels[i].linked <= sh'.levels[i].linked
  }

  /** Nothing that was linked is ever lost, and `max_height_` never shrinks. */
  lemma {:induction false} NothingIsLost(cfg: Config, sched: seq<Choice>, run: seq<State>, m: nat, n: nat)
    requires IsRun(cfg, sched, run) && m <= n <= |sched|
    ensures Grows(run[m].shared, run[n].shared)
    decreases n
  {
    if m == n {
    } else {
      NothingIsLost(cfg, sched, run, m, n - 1);
      RunStep(cfg, sched, run, n - 1);
      StepKeepsInv(cfg, run[n - 1], sched[n - 1], run[n]);
      forall i | 0 <= i < |run[m].shared.levels|
        ensures run[m].shared.levels[i].linked <= run[n].shared.levels[i].linked
      {
        assert LevelExtends(run[n - 1].shared.levels[i], run[n].shared.levels[i], sched[n - 1].t);
      }
    }
  }

  /** The ordering asserts of the source hold at every step of every run: in a search for a bracket
      or for a key to look up, the node reached is smaller than the key and its link leads to
      something larger than itself; and whenever an
      insert attempts its CAS, at whatever level, its key lies strictly between its neighbours, is
      linked on every level below and on no level from here up. */
  lemma {:induction false} OrderingAssertsHold(cfg: Config, sched: seq<Choice>, run: seq<State>, n: nat, t: nat)
    requires IsRun(cfg, sched, run) && n <= |sched| && cfg.IsOp(t)
    ensures Inv(cfg, run[n])
    ensures match run[n].threads[t].phase {
              case Search(i, before, _, _) =>
                && i < cfg.maxLevels && cfg.Before(before, cfg.KeyOf(t))
                && var next := LinkOf(run[n].shared, i, before);
                && (next.Ptr? ==> cfg.IsOp(next.id) && cfg.Before(before, cfg.KeyOf(next.id)))
              case Read(i, x, _) =>
                && i < cfg.maxLevels && cfg.Before(x, cfg.KeyOf(t))
                && var next := LinkOf(run[n].shared, i, x);
                && (next.Ptr? ==> cfg.IsOp(next.id) && cfg.Before(x, cfg.KeyOf(next.id)))
              case Cas(i) =>
                && i < cfg.maxLevels && i < SPLICE_SLOTS
                && cfg.Before(run[n].threads[t].prev[i], cfg.KeyOf(t))
                && (var next := run[n].threads[t].next[i];
                    next.Null? || (next.Ptr? && cfg.IsOp(next.id) && cfg.KeyOf(t) < cfg.KeyOf(next.id)))
                && LinkedBelow(run[n].shared, t, i)
              case _ => true
            }
  {
    RunKeepsInv(cfg, sched, run, n);
    var s := run[n];
    assert ThreadOk(cfg, s.shared, t, s.threads[t], s.books[t]);
    match s.threads[t].phase {
      case Search(i, before, _, _) =>
        assert LevelOk(cfg, s.shared.levels[i], i);
        assert IsSuccessor(cfg, s.shared.levels[i].linked, before, s.shared.levels[i].next[before]);
      case Read(i, x, _) =>
        assert LevelOk(cfg, s.shared.levels[i], i);
        assert IsSuccessor(cfg, s.shared.levels[i].linked, x, s.shared.levels[i].next[x]);
      case Cas(i) =>
        assert SpliceOk(cfg, s.shared.levels[i], s.threads[t].prev[i], s.threads[t].next[i],
                        s.books[t].snap[i], cfg.KeyOf(t));
      case _ =>
    }
  }

  // ---------------------------------------------------------------------------------------
  // The sentinels
  // ---------------------------------------------------------------------------------------

  ghost predicate Overruns(run: seq<State>, n: nat, t: nat) {
    n < |run| && t < |run[n].threads| && run[n].threads[t].phase.Overrun?
  }

  /** However the operations interleave, no insert writes its sentinels behind its arrays. */
  ghost predicate NeverOverruns(cfg: Config) {
    forall sched: seq<Choice>, run: seq<State>, n: nat, t: nat
      {:trigger IsExecution(cfg, sched, run), Overruns(run, n, t)} ::
      IsExecution(cfg, sched, run) ==> !Overruns(run, n, t)
  }

  /** The asserts on heights admit nodes as high as the arrays are long, and these alone break the
      arrays: all inserts stay inside them, in every interleaving, exactly if no node is that high. */
  lemma {:induction false} SentinelsFitIffHeightsFit(cfg: Config)
    requires cfg.WellFormed()
    ensures NeverOverruns(cfg) <==> cfg.HeightsFit()
  {
    if cfg.HeightsFit() {
      forall sched: seq<Choice>, run: seq<State>, n: nat, t: nat | IsExecution(cfg, sched, run)
        ensures !Overruns(run, n, t)
      {
        if n < |run| && t < |run[n].threads| {
          RunKeepsInv(cfg, sched, run, n);
          assert ThreadOk(cfg, run[n].shared, t, run[n].threads[t], run[n].books[t]);
        }
      }
    } else {
      var t :| 0 <= t < |cfg.ops| && cfg.ops[t].Insert? && cfg.ops[t].height >= SPLICE_SLOTS;
      var run := HighestNodeOverruns(cfg, t);
      assert Overruns(run, 2, t);
    }
  }

  /** The failing run: one insert of a node of height 32 by itself raises `max_height_` to 32, which
      the assert that follows admits, and writes index 32 of arrays with 32 entries. */
  lemma HighestNodeOverruns(cfg: Config, t: nat) returns (run: seq<State>)
    requires cfg.WellFormed() && cfg.IsOp(t) && cfg.ops[t].Insert? && cfg.ops[t].height == SPLICE_SLOTS
    ensures IsExecution(cfg, [Choice(t, false), Choice(t, false)], run)
    ensures run[2].shared.maxHeight == SPLICE_SLOTS && Overruns(run, 2, t)
  {
    var sched := [Choice(t, false), Choice(t, false)];
    var s0 := Init(cfg);
    var l1 := StepLocal(cfg, s0.shared, t, s0.threads[t], s0.books[t], false);
    var s1 := State(l1.shared, s0.threads[t := l1.thread], s0.books[t := l1.book]);
    var l2 := StepLocal(cfg, s1.shared, t, s1.threads[t], s1.books[t], false);
    var s2 := State(l2.shared, s1.threads[t := l2.thread], s1.books[t := l2.book]);
    run := [s0, s1, s2];
    assert StepAt(cfg, sched, run, 0) && StepAt(cfg, sched, run, 1);
  }

  // ---------------------------------------------------------------------------------------
  // Concurrent inserts of one key
  // ---------------------------------------------------------------------------------------

  ghost predicate IsInsertOf(cfg: Config, t: nat, key: Key) {
    cfg.IsOp(t) && cfg.ops[t].Insert? && cfg.KeyOf(t) == key
  }

  ghost predicate Returned(s: State, t: nat, result: bool) {
    t < |s.threads| && s.threads[t].phase == Done(result)
  }

  /** An insert that returned true is linked on all levels of its node and on no other; one that
      returned false is linked nowhere. */
  lemma ReturnedInsertIsLinked(cfg: Config, sched: seq<Choice>, run: seq<State>, n: nat, t: nat, i: nat, result: bool)
    requires IsRun(cfg, sched, run) && n <= |sched| && i < cfg.maxLevels
    requires cfg.IsOp(t) && cfg.ops[t].Insert? && Returned(run[n], t, result)
    ensures |run[n].shared.levels| == cfg.maxLevels
    ensures t in run[n].shared.levels[i].linked <==> result && i < cfg.ops[t].height
  {
    RunKeepsInv(cfg, sched, run, n);
    assert ThreadOk(cfg, run[n].shared, t, run[n].threads[t], run[n].books[t]);
  }

  /** Two inserts of the same key never both return true. */
  lemma AtMostOneWinner(cfg: Config, s: State, t: nat, u: nat, key: Key)
    requires Inv(cfg, s) && IsInsertOf(cfg, t, key) && IsInsertOf(cfg, u, key)
    requires Returned(s, t, true) && Returned(s, u, true)
    ensures t == u
  {
    assert ThreadOk(cfg, s.shared, t, s.threads[t], s.books[t]);
    assert ThreadOk(cfg, s.shared, u, s.threads[u], s.books[u]);
    assert LevelOk(cfg, s.shared.levels[0], 0);
  }

  /** An insert that returned false lost to another insert of its key, linked at level 0. */
  lemma LoserHasWinner(cfg: Config, s: State, t: nat, key: Key) returns (winner: nat)
    requires Inv(cfg, s) && IsInsertOf(cfg, t, key) && Returned(s, t, false)
    ensures IsInsertOf(cfg, winner, key) && winner in s.shared.levels[0].linked && !Returned(s, winner, false)
  {
    assert ThreadOk(cfg, s.shared, t, s.threads[t], s.books[t]);
    winner :| winner in s.shared.levels[0].linked && cfg.IsOp(winner) && cfg.KeyOf(winner) == key;
    assert LevelOk(cfg, s.shared.levels[0], 0);
    assert ThreadOk(cfg, s.shared, winner, s.threads[winner], s.books[winner]);
  }

  /** Whenever all inserts of a key have returned, and there is at least one, exactly one of them
      returned true. */
  lemma {:induction false} ExactlyOneWinner(cfg: Config, sched: seq<Choice>, run: seq<State>, n: nat, key: Key, t: nat)
    returns (winner: nat)
    requires IsRun(cfg, sched, run) && n <= |sched| && IsInsertOf(cfg, t, key)
    requires forall u: nat | IsInsertOf(cfg, u, key) :: Returned(run[n], u, true) || Returned(run[n], u, false)
    ensures IsInsertOf(cfg, winner, key) && Returned(run[n], winner, true)
    ensures forall u: nat | IsInsertOf(cfg, u, key) && u != winner :: Returned(run[n], u, false)
  {
    var s := run[n];
    RunKeepsInv(cfg, sched, run, n);
    winner := t;
    if Returned(s, t, false) {
      winner := LoserHasWinner(cfg, s, t, key);
    }
    forall u: nat | IsInsertOf(cfg, u, key) && u != winner ensures Returned(s, u, false) {
      if Returned(s, u, true) {
        AtMostOneWinner(cfg, s, u, winner, key);
      }
    }
  }
}
