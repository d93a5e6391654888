/** Progress of concurrent operations: failed CAS attempts are paid for by other inserts, and every
    operation has a budget of steps fixed before the run. */
module ConcurrentProgress {
  import opened Keys
  import opened ConcurrentSkipList
  import opened ConcurrentSteps
  import opened ConcurrentRuns

  /** In every reachable state, the CAS failures of one insert at a level are at most the number of
      other nodes linked at that level since the insert began. */
  lemma {:induction false} FailuresArePaidFor(cfg: Config, sched: seq<Choice>, run: seq<State>, n: nat, t: nat, i: nat)
    requires IsRun(cfg, sched, run) && n <= |sched| && cfg.IsOp(t) && cfg.ops[t].Insert? && i < cfg.maxLevels
    ensures Inv(cfg, run[n])
    ensures !run[n].threads[t].phase.Idle? ==>
              run[n].books[t].fails[i] <= |run[n].shared.levels[i].linked - run[n].books[t].start[i] - {t}|
  {
    RunKeepsInv(cfg, sched, run, n);
    var s := run[n];
    assert ThreadOk(cfg, s.shared, t, s.threads[t], s.books[t]);
    if !s.threads[t].phase.Idle? {
      var b := s.books[t];
      assert BookOk(s.shared.levels[i], t, b.start[i], b.snap[i], b.fails[i]);
      assert b.snap[i] == b.start[i] + (b.snap[i] - b.start[i]);
      SubsetSize(b.snap[i] - b.start[i], s.shared.levels[i].linked - b.start[i] - {t});
    }
  }

  /** An insert records the linked nodes with its first step, and never again. */
  lemma StartIsKept(cfg: Config, s: State, c: Choice, s': State, t: nat)
    requires Inv(cfg, s) && TakesStep(cfg, s, c, s') && cfg.IsOp(t) && cfg.ops[t].Insert?
    ensures |s'.threads| == |s'.books| == |cfg.ops|
    ensures if t == c.t && s.threads[t].phase.Idle? then
              !s'.threads[t].phase.Idle? && s'.books[t].start == LinkedAt(s.shared)
            else s'.threads[t].phase.Idle? == s.threads[t].phase.Idle? && s'.books[t].start == s.books[t].start
  {
    assert ThreadOk(cfg, s.shared, t, s.threads[t], s.books[t]);
  }

  /** `start` is the state of the levels at the step with which the insert began. */
  lemma {:induction false} StartIsWhenTheCallBegan(cfg: Config, sched: seq<Choice>, run: seq<State>, m: nat, n: nat,
                                                   t: nat)
    requires IsRun(cfg, sched, run) && m < n <= |sched| && sched[m].t == t && cfg.IsOp(t) && cfg.ops[t].Insert?
    requires t < |run[m].threads| && run[m].threads[t].phase.Idle?
    ensures t < |run[n].threads| && !run[n].threads[t].phase.Idle?
    ensures t < |run[n].books| && run[n].books[t].start == LinkedAt(run[m].shared)
    decreases n
  {
    if m == n - 1 {
    } else {
      StartIsWhenTheCallBegan(cfg, sched, run, m, n - 1, t);
    }
    RunStep(cfg, sched, run, n - 1);
    StartIsKept(cfg, run[n - 1], sched[n - 1], run[n], t);
  }

  /** With step `k` the CAS of thread `t` on level `i` fails: the thread attempts it, and its node is
      not linked there afterwards. */
  ghost predicate CasFails(sched: seq<Choice>, run: seq<State>, k: nat, t: nat, i: nat) {
    && k < |sched| && k + 1 < |run| && sched[k].t == t
    && t < |run[k].threads| && run[k].threads[t].phase == Cas(i)
    && i < |run[k + 1].shared.levels| && t !in run[k + 1].shared.levels[i].linked
  }

  lemma FailuresStep(cfg: Config, sched: seq<Choice>, run: seq<State>, k: nat, t: nat, i: nat)
    requires IsRun(cfg, sched, run) && k < |sched| && cfg.IsOp(t) && cfg.ops[t].Insert? && i < cfg.maxLevels
    ensures Inv(cfg, run[k]) && Inv(cfg, run[k + 1])
    ensures |run[k].books[t].fails| == |run[k + 1].books[t].fails| == cfg.maxLevels
    ensures run[k + 1].books[t].fails[i] == run[k].books[t].fails[i] + if CasFails(sched, run, k, t, i) then 1 else 0
  {
    RunStep(cfg, sched, run, k);
    assert ThreadOk(cfg, run[k].shared, t, run[k].threads[t], run[k].books[t]);
    assert ThreadOk(cfg, run[k + 1].shared, t, run[k + 1].threads[t], run[k + 1].books[t]);
  }

  /** How many of the first `n` steps are failures of the CAS. */
  ghost function FailedSteps(sched: seq<Choice>, run: seq<State>, n: nat, t: nat, i: nat): nat {
    if n == 0 then 0
    else FailedSteps(sched, run, n - 1, t, i) + (if CasFails(sched, run, n - 1, t, i) then 1 else 0)
  }

  /** `fails` is the number of steps of the run with which the CAS of the thread on the level failed. */
  lemma {:induction false} FailuresAreCounted(cfg: Config, sched: seq<Choice>, run: seq<State>, n: nat, t: nat, i: nat)
    requires IsRun(cfg, sched, run) && n <= |sched| && cfg.IsOp(t) && cfg.ops[t].Insert? && i < cfg.maxLevels
    ensures Inv(cfg, run[n]) && |run[n].books[t].fails| == cfg.maxLevels
    ensures run[n].books[t].fails[i] == FailedSteps(sched, run, n, t, i)
    decreases n
  {
    if n == 0 {
      RunKeepsInv(cfg, sched, run, 0);
      assert ThreadOk(cfg, run[0].shared, t, run[0].threads[t], run[0].books[t]);
    } else {
      FailuresAreCounted(cfg, sched, run, n - 1, t, i);
      FailuresStep(cfg, sched, run, n - 1, t, i);
    }
  }

  // ---------------------------------------------------------------------------------------
  // max_height_
  // ---------------------------------------------------------------------------------------

  /** The insert has got past the loop that raises `max_height_`. */
  ghost predicate HeightCounted(cfg: Config, s: State, t: nat) {
    cfg.IsOp(t) && t < |s.threads| && cfg.ops[t].Insert? && !s.threads[t].phase.Idle? && !s.threads[t].phase.Raise?
  }

  lemma StepMaxHeight(cfg: Config, s: State, c: Choice, s': State)
    requires Inv(cfg, s) && TakesStep(cfg, s, c, s')
    ensures s'.shared.maxHeight != s.shared.maxHeight ==>
              HeightCounted(cfg, s', c.t) && cfg.ops[c.t].height == s'.shared.maxHeight
    ensures forall t: nat | HeightCounted(cfg, s, t) :: HeightCounted(cfg, s', t)
  {
    assert ThreadOk(cfg, s.shared, c.t, s.threads[c.t], s.books[c.t]);
  }

  lemma {:induction false} MaxHeightWasAttempted(cfg: Config, sched: seq<Choice>, run: seq<State>, n: nat)
    requires IsRun(cfg, sched, run) && n <= |sched|
    ensures var s := run[n];
            || s.shared.maxHeight == 1
            || exists t: nat :: HeightCounted(cfg, s, t) && cfg.ops[t].height == s.shared.maxHeight
    decreases n
  {
    if n == 0 {
    } else {
      MaxHeightWasAttempted(cfg, sched, run, n - 1);
      RunStep(cfg, sched, run, n - 1);
      StepMaxHeight(cfg, run[n - 1], sched[n - 1], run[n]);
    }
  }

  /** `max_height_` is the largest of 1 and the heights of the inserts that got past the raising loop. */
  lemma {:induction false} MaxHeightIsTheMaximum(cfg: Config, sched: seq<Choice>, run: seq<State>, n: nat)
    requires IsRun(cfg, sched, run) && n <= |sched|
    ensures var s := run[n];
            && (forall t: nat | HeightCounted(cfg, s, t) :: cfg.ops[t].height <= s.shared.maxHeight)
            && (|| s.shared.maxHeight == 1
                || exists t: nat :: HeightCounted(cfg, s, t) && cfg.ops[t].height == s.shared.maxHeight)
  {
    var s := run[n];
    RunKeepsInv(cfg, sched, run, n);
    forall t: nat | HeightCounted(cfg, s, t) ensures cfg.ops[t].height <= s.shared.maxHeight {
      assert ThreadOk(cfg, s.shared, t, s.threads[t], s.books[t]);
    }
    MaxHeightWasAttempted(cfg, sched, run, n);
  }

  // ---------------------------------------------------------------------------------------
  // Every operation is bounded
  // ---------------------------------------------------------------------------------------

  /** All nodes of the run that lie after `r`. */
  ghost function Ahead(cfg: Config, r: Ref): set<nat> {
    set m: nat | m < |cfg.ops| && cfg.After(r, m)
  }

  lemma AheadShrinks(cfg: Config, r: Ref, q: nat)
    requires cfg.IsOp(q) && cfg.After(r, q)
    ensures |Ahead(cfg, Ptr(q))| < |Ahead(cfg, r)|
  {
    assert q in Ahead(cfg, r) && q !in Ahead(cfg, Ptr(q));
    SubsetSize(Ahead(cfg, Ptr(q)), Ahead(cfg, r));
  }

  lemma {:induction false} AtMost(s: set<nat>, n: nat)
    requires forall m | m in s :: m < n
    ensures |s| <= n
  {
    if n > 0 {
      AtMost(s - {n - 1}, n - 1);
      SubsetSize(s, (s - {n - 1}) + {n - 1});
    } else {
      assert s == {};
    }
  }

  lemma AheadBound(cfg: Config, r: Ref)
    ensures |Ahead(cfg, r)| <= |cfg.ops|
  {
    AtMost(Ahead(cfg, r), |cfg.ops|);
  }

  /** Steps for one search, one store and one CAS at a level. */
  function Round(cfg: Config): nat { |cfg.ops| + 3 }

  function Times(a: nat, b: nat): nat { a * b }

  lemma TimesSucc(a: nat, b: nat)
    ensures Times(a + 1, b) == Times(a, b) + b
  {
  }

  lemma {:induction false} TimesMonotone(a: nat, b: nat, c: nat)
    requires a <= b
    ensures Times(a, c) <= Times(b, c)
  {
    if a == b {
    } else {
      TimesMonotone(a, b - 1, c);
      TimesSucc(b - 1, c);
    }
  }

  /** Steps for one level: a round for every node another thread can link, and one more. */
  function PerLevel(cfg: Config): nat { Times(|cfg.ops| + 1, Round(cfg)) }

  /** Steps left for linking at levels above `i`. */
  function Above(cfg: Config, height: nat, i: nat): nat
    requires i < height
  {
    Times(height - 1 - i, PerLevel(cfg))
  }

  /** Rounds left at level `i`. */
  ghost function Rounds(cfg: Config, snap: set<nat>): nat {
    if |snap| <= |cfg.ops| then Times(|cfg.ops| - |snap|, Round(cfg)) else 0
  }

  /** An upper bound on the steps thread `t` still takes, whatever the others do. */
  ghost function Budget(cfg: Config, t: nat, th: Thread, bk: Book): nat
    requires cfg.Valid() && cfg.IsOp(t) && |bk.snap| == cfg.maxLevels
  {
    var n := |cfg.ops|;
    var linking := if cfg.ops[t].Insert? then Times(cfg.ops[t].height, PerLevel(cfg)) else 0;
    var descent := Times(cfg.maxLevels, n + 1);
    match th.phase
    case Idle => linking + descent + cfg.maxLevels + 1
    case Raise(seen) => linking + descent + (if seen <= cfg.maxLevels then cfg.maxLevels - seen else 0)
    case Search(i, before, _, false) => linking + Times(i, n + 1) + |Ahead(cfg, before)| + 1
    case Search(i, before, _, true) =>
      if cfg.ops[t].Insert? && i < cfg.ops[t].height then
        Above(cfg, cfg.ops[t].height, i) + Rounds(cfg, bk.snap[i]) + |Ahead(cfg, before)| + 3
      else 0
    case Store(i) =>
      if cfg.ops[t].Insert? && i < cfg.ops[t].height then
        Above(cfg, cfg.ops[t].height, i) + Rounds(cfg, bk.snap[i]) + 2
      else 0
    case Cas(i) =>
      if cfg.ops[t].Insert? && i < cfg.ops[t].height then
        Above(cfg, cfg.ops[t].height, i) + Rounds(cfg, bk.snap[i]) + 1
      else 0
    case Read(i, x, _) => Times(i, n + 1) + |Ahead(cfg, x)| + 1
    case Done(_) => 0
    case Overrun => 0
  }

  /** The weak CAS on `max_height_` fails although the value is as expected. */
  ghost predicate FailsSpuriously(s: State, c: Choice) {
    && c.t < |s.threads|
    && c.spurious && s.threads[c.t].phase.Raise? && s.threads[c.t].phase.seen == s.shared.maxHeight
  }

  /** The step does something: the thread has not returned, and its CAS does not fail for no reason. */
  ghost predicate Effective(s: State, c: Choice) {
    c.t < |s.threads| && !s.threads[c.t].phase.Done? && !FailsSpuriously(s, c)
  }

  lemma RoundsShrink(cfg: Config, snap: set<nat>, snap': set<nat>)
    requires snap <= snap' && |snap'| <= |cfg.ops|
    ensures Rounds(cfg, snap') <= Rounds(cfg, snap) <= Times(|cfg.ops|, Round(cfg))
    ensures snap != snap' ==> Rounds(cfg, snap') + Round(cfg) <= Rounds(cfg, snap)
  {
    SubsetSize(snap, snap');
    var n, a, b := |cfg.ops|, |snap|, |snap'|;
    TimesMonotone(n - b, n - a, Round(cfg));
    TimesMonotone(n - a, n, Round(cfg));
    if snap != snap' {
      TimesMonotone(n - b + 1, n - a, Round(cfg));
      TimesSucc(n - b, Round(cfg));
    }
  }

  lemma LinkedBound(cfg: Config, sh: Shared, i: nat)
    requires SharedOk(cfg, sh) && i < |sh.levels|
    ensures |sh.levels[i].linked| <= |cfg.ops|
  {
    assert LevelOk(cfg, sh.levels[i], i);
    AtMost(sh.levels[i].linked, |cfg.ops|);
  }

  lemma AboveStep(cfg: Config, height: nat, i: nat)
    requires i < height
    ensures Above(cfg, height, i) + PerLevel(cfg) <= Times(height, PerLevel(cfg))
    ensures i + 1 < height ==> Above(cfg, height, i + 1) + PerLevel(cfg) == Above(cfg, height, i)
    ensures PerLevel(cfg) == Times(|cfg.ops|, Round(cfg)) + Round(cfg)
  {
    TimesMonotone(height - i, height, PerLevel(cfg));
    TimesSucc(height - 1 - i, PerLevel(cfg));
    TimesSucc(|cfg.ops|, Round(cfg));
    if i + 1 < height {
      TimesSucc(height - 2 - i, PerLevel(cfg));
    }
  }

  lemma DescentBudget(cfg: Config, max: nat)
    requires 1 <= max <= cfg.maxLevels
    ensures Times(max - 1, |cfg.ops| + 1) + |cfg.ops| + 1 <= Times(cfg.maxLevels, |cfg.ops| + 1)
  {
    TimesMonotone(max, cfg.maxLevels, |cfg.ops| + 1);
    TimesSucc(max - 1, |cfg.ops| + 1);
  }

  lemma SearchBudget(cfg: Config, sh: Shared, t: nat, th: Thread, bk: Book)
    requires cfg.Valid() && SharedOk(cfg, sh) && ThreadOk(cfg, sh, t, th, bk) && th.phase.Search?
    ensures var l := StepSearch(cfg, sh, t, th, bk); Budget(cfg, t, l.thread, l.book) < Budget(cfg, t, th, bk)
  {
    var Search(i, before, after, retry) := th.phase;
    var next := LinkOf(sh, i, before);
    AheadBound(cfg, before);
    ReadLink(cfg, sh.levels[i], i, before, cfg.KeyOf(t));
    if next == after || !cfg.KeyIsAfterNode(cfg.KeyOf(t), next) {
      assert BookOk(sh.levels[i], t, bk.start[i], bk.snap[i], bk.fails[i]);
      LinkedBound(cfg, sh, i);
      RoundsShrink(cfg, bk.snap[i], sh.levels[i].linked);
      RoundsShrink(cfg, {}, sh.levels[i].linked);
      if !retry && i == 0 {
        AboveStep(cfg, cfg.ops[t].height, 0);
      } else if !retry {
        TimesSucc(i - 1, |cfg.ops| + 1);
      }
    } else {
      assert IsSuccessor(cfg, sh.levels[i].linked, before, sh.levels[i].next[before]);
      AheadShrinks(cfg, before, next.id);
    }
  }

  lemma StoreBudget(cfg: Config, sh: Shared, t: nat, th: Thread, bk: Book)
    requires cfg.Valid() && SharedOk(cfg, sh) && ThreadOk(cfg, sh, t, th, bk) && th.phase.Store?
    ensures var l := StepStore(cfg, sh, t, th, bk); Budget(cfg, t, l.thread, l.book) < Budget(cfg, t, th, bk)
  {
  }

  lemma CasBudget(cfg: Config, sh: Shared, t: nat, th: Thread, bk: Book)
    requires cfg.Valid() && SharedOk(cfg, sh) && ThreadOk(cfg, sh, t, th, bk) && th.phase.Cas?
    ensures var l := StepCas(cfg, sh, t, th, bk); Budget(cfg, t, l.thread, l.book) < Budget(cfg, t, th, bk)
  {
    var i := th.phase.level;
    if LinkOf(sh, i, th.prev[i]) == th.next[i] {
      if i + 1 < cfg.ops[t].height {
        AboveStep(cfg, cfg.ops[t].height, i);
        assert BookOk(sh.levels[i + 1], t, bk.start[i + 1], bk.snap[i + 1], bk.fails[i + 1]);
        LinkedBound(cfg, sh, i + 1);
        SubsetSize(bk.snap[i + 1], sh.levels[i + 1].linked);
        RoundsShrink(cfg, {}, bk.snap[i + 1]);
      }
    } else {
      CasFailsOk(cfg, sh, t, th, bk);
      LinkedBound(cfg, sh, i);
      RoundsShrink(cfg, bk.snap[i], sh.levels[i].linked);
      AheadBound(cfg, th.prev[i]);
    }
  }

  lemma ReadBudget(cfg: Config, sh: Shared, t: nat, th: Thread, bk: Book)
    requires cfg.Valid() && SharedOk(cfg, sh) && ThreadOk(cfg, sh, t, th, bk) && th.phase.Read?
    ensures var l := StepRead(cfg, sh, t, th, bk); Budget(cfg, t, l.thread, l.book) < Budget(cfg, t, th, bk)
  {
    var Read(i, x, lastBigger) := th.phase;
    var next := LinkOf(sh, i, x);
    AheadBound(cfg, x);
    ReadLink(cfg, sh.levels[i], i, x, cfg.KeyOf(t));
    if i > 0 {
      TimesSucc(i - 1, |cfg.ops| + 1);
    }
    if cfg.KeyIsAfterNode(cfg.KeyOf(t), next) {
      assert IsSuccessor(cfg, sh.levels[i].linked, x, sh.levels[i].next[x]);
      AheadShrinks(cfg, x, next.id);
    }
  }

  lemma EntryBudget(cfg: Config, sh: Shared, t: nat, th: Thread, bk: Book, spurious: bool)
    requires cfg.Valid() && SharedOk(cfg, sh) && ThreadOk(cfg, sh, t, th, bk) && (th.phase.Idle? || th.phase.Raise?)
    requires th.phase.Raise? && th.phase.seen == sh.maxHeight ==> !spurious
    ensures var l := StepLocal(cfg, sh, t, th, bk, spurious); Budget(cfg, t, l.thread, l.book) < Budget(cfg, t, th, bk)
  {
    AheadBound(cfg, Head);
    DescentBudget(cfg, sh.maxHeight);
    if cfg.ops[t].Insert? {
      DescentBudget(cfg, cfg.ops[t].height);
    }
  }

  /** Every effective step of a thread uses up some of its budget. */
  lemma StepUsesBudget(cfg: Config, s: State, c: Choice, s': State)
    requires Inv(cfg, s) && TakesStep(cfg, s, c, s') && Inv(cfg, s') && Effective(s, c)
    ensures Budget(cfg, c.t, s'.threads[c.t], s'.books[c.t]) < Budget(cfg, c.t, s.threads[c.t], s.books[c.t])
  {
    var sh, th, bk := s.shared, s.threads[c.t], s.books[c.t];
    assert ThreadOk(cfg, sh, c.t, th, bk);
    match th.phase {
      case Search(_, _, _, _) => SearchBudget(cfg, sh, c.t, th, bk);
      case Store(_) => StoreBudget(cfg, sh, c.t, th, bk);
      case Cas(_) => CasBudget(cfg, sh, c.t, th, bk);
      case Read(_, _, _) => ReadBudget(cfg, sh, c.t, th, bk);
      case _ => EntryBudget(cfg, sh, c.t, th, bk, c.spurious);
    }
  }

  /** Any other step changes nothing at all. */
  lemma OtherStepsChangeNothing(cfg: Config, s: State, c: Choice, s': State)
    requires Inv(cfg, s) && TakesStep(cfg, s, c, s') && !Effective(s, c)
    ensures s' == s
  {
    assert ThreadOk(cfg, s.shared, c.t, s.threads[c.t], s.books[c.t]);
  }

  /** The budgets of the threads from `t` on. */
  ghost function Total(cfg: Config, s: State, t: nat): nat
    requires cfg.Valid() && |s.threads| == |s.books| == |cfg.ops| && t <= |cfg.ops|
    requires forall u | 0 <= u < |cfg.ops| :: HasArrays(cfg, s.threads[u], s.books[u])
    decreases |cfg.ops| - t
  {
    if t == |cfg.ops| then 0
    else
      assert HasArrays(cfg, s.threads[t], s.books[t]);
      Budget(cfg, t, s.threads[t], s.books[t]) + Total(cfg, s, t + 1)
  }

  lemma {:induction false} TotalShrinks(cfg: Config, s: State, s': State, c: nat, t: nat)
    requires Inv(cfg, s) && Inv(cfg, s') && cfg.IsOp(c) && t <= |cfg.ops|
    requires forall u | 0 <= u < |cfg.ops| && u != c :: s'.threads[u] == s.threads[u] && s'.books[u] == s.books[u]
    requires Budget(cfg, c, s'.threads[c], s'.books[c]) < Budget(cfg, c, s.threads[c], s.books[c])
    ensures if t <= c then Total(cfg, s', t) < Total(cfg, s, t) else Total(cfg, s', t) == Total(cfg, s, t)
    decreases |cfg.ops| - t
  {
    if t == |cfg.ops| {
    } else {
      TotalShrinks(cfg, s, s', c, t + 1);
    }
  }

  lemma StepShrinksTotal(cfg: Config, s: State, c: Choice, s': State)
    requires Inv(cfg, s) && TakesStep(cfg, s, c, s') && Inv(cfg, s') && Effective(s, c)
    ensures Total(cfg, s', 0) < Total(cfg, s, 0)
  {
    StepUsesBudget(cfg, s, c, s');
    TotalShrinks(cfg, s, s', c.t, 0);
  }

  /** The effective steps among the first `n`. */
  ghost function EffectiveSteps(sched: seq<Choice>, run: seq<State>, n: nat): nat
    requires n <= |sched| < |run|
    decreases n
  {
    if n == 0 then 0
    else EffectiveSteps(sched, run, n - 1) + (if Effective(run[n - 1], sched[n - 1]) then 1 else 0)
  }

  /** Every run ends: whatever the interleaving, the effective steps of a run are at most as many as
      the budgets of its operations allow together, which are fixed before the run. All other steps
      change nothing. So every retry loop and every search loop terminates, whichever threads are
      delayed or stopped, unless the weak CAS on `max_height_` goes on failing for no reason. */
  lemma {:induction false} EveryRunIsFinite(cfg: Config, sched: seq<Choice>, run: seq<State>, n: nat)
    requires IsRun(cfg, sched, run) && n <= |sched|
    ensures Inv(cfg, run[0]) && Inv(cfg, run[n])
    ensures EffectiveSteps(sched, run, n) + Total(cfg, run[n], 0) <= Total(cfg, run[0], 0)
    ensures n > 0 && !Effective(run[n - 1], sched[n - 1]) ==> run[n] == run[n - 1]
    decreases n
  {
    RunKeepsInv(cfg, sched, run, n);
    if n == 0 {
    } else {
      EveryRunIsFinite(cfg, sched, run, n - 1);
      RunStep(cfg, sched, run, n - 1);
      if Effective(run[n - 1], sched[n - 1]) {
        StepShrinksTotal(cfg, run[n - 1], sched[n - 1], run[n]);
      } else {
        OtherStepsChangeNothing(cfg, run[n - 1], sched[n - 1], run[n]);
      }
    }
  }

  /** The effective steps of thread `t` among the first `n`. */
  ghost function EffectiveStepsOf(sched: seq<Choice>, run: seq<State>, n: nat, t: nat): nat
    requires n <= |sched| < |run|
    decreases n
  {
    if n == 0 then 0
    else EffectiveStepsOf(sched, run, n - 1, t)
         + (if sched[n - 1].t == t && Effective(run[n - 1], sched[n - 1]) then 1 else 0)
  }

  /** Every single operation returns within a number of its own effective steps that is fixed before
      the run, however the steps of the others fall. */
  lemma {:induction false} EveryOperationIsBounded(cfg: Config, sched: seq<Choice>, run: seq<State>, n: nat, t: nat)
    requires IsRun(cfg, sched, run) && n <= |sched| && cfg.IsOp(t)
    ensures Inv(cfg, run[0]) && Inv(cfg, run[n])
    ensures EffectiveStepsOf(sched, run, n, t) + Budget(cfg, t, run[n].threads[t], run[n].books[t])
         <= Budget(cfg, t, run[0].threads[t], run[0].books[t])
    decreases n
  {
    RunKeepsInv(cfg, sched, run, n);
    assert HasArrays(cfg, run[n].threads[t], run[n].books[t]);
    if n == 0 {
    } else {
      EveryOperationIsBounded(cfg, sched, run, n - 1, t);
      RunStep(cfg, sched, run, n - 1);
      if !Effective(run[n - 1], sched[n - 1]) {
        OtherStepsChangeNothing(cfg, run[n - 1], sched[n - 1], run[n]);
      } else if sched[n - 1].t == t {
        StepUsesBudget(cfg, run[n - 1], sched[n - 1], run[n]);
      }
    }
  }
}
