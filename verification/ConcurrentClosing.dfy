/** The asserts that close an insert, when it overlaps with others. */
module ConcurrentClosing {
  import opened Keys
  import opened ConcurrentSkipList
  import opened ConcurrentSteps
  import opened ConcurrentRuns

  // ---------------------------------------------------------------------------------------
  // Order from level to level
  // ---------------------------------------------------------------------------------------

  /** `a`, on one level, is at or before `b`, on the level below. */
  predicate PrevLe(cfg: Config, a: Ref, b: Ref) {
    a.Head? || a == b || (a.Ptr? && b.Ptr? && cfg.IsOp(a.id) && cfg.IsOp(b.id) && cfg.KeyOf(a.id) < cfg.KeyOf(b.id))
  }

  /** `a`, on one level, is at or before `b`, on the level above. */
  predicate NextLe(cfg: Config, a: Ref, b: Ref) {
    b.Null? || a == b || (a.Ptr? && b.Ptr? && cfg.IsOp(a.id) && cfg.IsOp(b.id) && cfg.KeyOf(a.id) < cfg.KeyOf(b.id))
  }

  predicate OrderedAt(cfg: Config, prev: seq<Ref>, next: seq<Ref>, i: nat) {
    && i + 1 < |prev| && i + 1 < |next|
    && PrevLe(cfg, prev[i + 1], prev[i]) && NextLe(cfg, next[i], next[i + 1])
  }

  /** Level `i` of the splice of thread `t` brackets its key by linked nodes other than its own. */
  ghost predicate BracketsAt(cfg: Config, sh: Shared, t: nat, prev: seq<Ref>, next: seq<Ref>, i: nat) {
    && cfg.IsOp(t) && i < |sh.levels| && i < |prev| && i < |next|
    && Brackets(cfg, sh.levels[i], prev[i], next[i], cfg.KeyOf(t))
    && next[i] != Ptr(t)
  }

  /** From level `lo` up to the sentinels the splice brackets the key and is ordered. */
  ghost predicate OrderedFrom(cfg: Config, sh: Shared, t: nat, prev: seq<Ref>, next: seq<Ref>, lo: nat, height: nat) {
    && height < |prev| && height < |next|
    && prev[height] == Head && next[height] == Null
    && (forall i {:trigger BracketsAt(cfg, sh, t, prev, next, i)} :: lo <= i < height ==>
          BracketsAt(cfg, sh, t, prev, next, i))
    && (forall i {:trigger OrderedAt(cfg, prev, next, i)} :: lo <= i < height ==> OrderedAt(cfg, prev, next, i))
  }

  /** No CAS has failed above level 0: `splice_is_valid` is still true. */
  ghost predicate SpliceIsValid(bk: Book) {
    forall i :: 1 <= i < |bk.fails| ==> bk.fails[i] == 0
  }

  /** The splice spans the list as the insert found it. */
  ghost predicate SpansList(cfg: Config, sh: Shared, t: nat, th: Thread)
    requires cfg.IsOp(t) && cfg.ops[t].Insert?
  {
    1 <= cfg.ops[t].height <= th.height <= |sh.levels|
  }

  /** How far the splice of an insert is in order, as long as it is valid. */
  ghost predicate ClosingOk(cfg: Config, sh: Shared, t: nat, th: Thread, bk: Book) {
    cfg.IsOp(t) && cfg.ops[t].Insert? ==>
      match th.phase
      case Search(level, before, _, retry) =>
        && SpansList(cfg, sh, t, th) && level < th.height
        && (SpliceIsValid(bk) ==>
              && OrderedFrom(cfg, sh, t, th.prev, th.next, level + 1, th.height)
              && PrevLe(cfg, th.prev[level + 1], before)
              && (retry ==> level == 0))
      case Store(level) =>
        SpansList(cfg, sh, t, th)
        && (SpliceIsValid(bk) ==> OrderedFrom(cfg, sh, t, th.prev, th.next, 0, th.height))
      case Cas(level) =>
        SpansList(cfg, sh, t, th)
        && (SpliceIsValid(bk) ==> OrderedFrom(cfg, sh, t, th.prev, th.next, 0, th.height))
      case Done(result) =>
        result ==>
          SpansList(cfg, sh, t, th)
          && (SpliceIsValid(bk) ==> OrderedFrom(cfg, sh, t, th.prev, th.next, 0, th.height))
      case _ => true
  }

  // ---------------------------------------------------------------------------------------
  // Every step keeps it
  // ---------------------------------------------------------------------------------------

  /** Linking more nodes takes nothing away. */
  lemma OrderedFromStable(cfg: Config, sh: Shared, sh': Shared, t: nat, prev: seq<Ref>, next: seq<Ref>,
                          lo: nat, height: nat)
    requires Grows(sh, sh') && OrderedFrom(cfg, sh, t, prev, next, lo, height)
    ensures OrderedFrom(cfg, sh', t, prev, next, lo, height)
  {
    forall i | lo <= i < height ensures BracketsAt(cfg, sh', t, prev, next, i) {
      assert BracketsAt(cfg, sh, t, prev, next, i);
      assert sh.levels[i].linked <= sh'.levels[i].linked;
    }
  }

  lemma ClosingStable(cfg: Config, sh: Shared, sh': Shared, t: nat, th: Thread, bk: Book)
    requires Grows(sh, sh') && ClosingOk(cfg, sh, t, th, bk)
    ensures ClosingOk(cfg, sh', t, th, bk)
  {
    forall lo: nat | OrderedFrom(cfg, sh, t, th.prev, th.next, lo, th.height)
      ensures OrderedFrom(cfg, sh', t, th.prev, th.next, lo, th.height)
    {
      OrderedFromStable(cfg, sh, sh', t, th.prev, th.next, lo, th.height);
    }
  }

  /** The link of a smaller node is at or before any linked node from the key on, on this level or one
      above. */
  lemma LinkIsBeforeUpper(cfg: Config, l: Level, level: nat, before: Ref, upper: Ref, key: Key)
    requires LevelOk(cfg, l, level) && IsNode(l, before) && cfg.Before(before, key) && NotBefore(cfg, l, upper, key)
    ensures before in l.next && NextLe(cfg, l.next[before], upper)
  {
    assert IsSuccessor(cfg, l.linked, before, l.next[before]);
    if upper.Ptr? {
      assert cfg.After(before, upper.id);
    }
  }

  /** A search that ends on a level puts it in order with the level above. */
  lemma SearchEndOrders(cfg: Config, sh: Shared, t: nat, th: Thread, bk: Book)
    requires cfg.Valid() && SharedOk(cfg, sh) && ThreadOk(cfg, sh, t, th, bk) && th.phase.Search?
    requires ClosingOk(cfg, sh, t, th, bk) && SpliceIsValid(bk)
    requires !cfg.KeyIsAfterNode(cfg.KeyOf(t), LinkOf(sh, th.phase.level, th.phase.before))
    requires t !in sh.levels[th.phase.level].linked
    ensures var i, next := th.phase.level, LinkOf(sh, th.phase.level, th.phase.before);
      OrderedFrom(cfg, sh, t, th.prev[i := th.phase.before], th.next[i := next], i, th.height)
  {
    var i, before := th.phase.level, th.phase.before;
    var l, key := sh.levels[i], cfg.KeyOf(t);
    var next := LinkOf(sh, i, before);
    var prev', next' := th.prev[i := before], th.next[i := next];
    assert LevelOk(cfg, l, i);
    ReadLink(cfg, l, i, before, key);
    if i + 1 < th.height {
      assert BracketsAt(cfg, sh, t, th.prev, th.next, i + 1);
      assert sh.levels[i + 1].linked <= l.linked;
    }
    LinkIsBeforeUpper(cfg, l, i, before, th.next[i + 1], key);
    forall j | i <= j < th.height
      ensures BracketsAt(cfg, sh, t, prev', next', j) && OrderedAt(cfg, prev', next', j)
    {
      if j > i {
        assert BracketsAt(cfg, sh, t, th.prev, th.next, j) && OrderedAt(cfg, th.prev, th.next, j);
      }
    }
  }

  lemma BeginCloses(cfg: Config, sh: Shared, t: nat, th: Thread, bk: Book, max: nat)
    requires cfg.IsOp(t) && cfg.ops[t].Insert? && 1 <= cfg.ops[t].height <= max <= |sh.levels|
    requires max < |th.prev| && max < |th.next|
    ensures ClosingOk(cfg, sh, t, BeginDescent(th, max), bk)
  {
  }

  lemma EntryCloses(cfg: Config, sh: Shared, t: nat, th: Thread, bk: Book, spurious: bool)
    requires cfg.Valid() && SharedOk(cfg, sh) && ThreadOk(cfg, sh, t, th, bk) && (th.phase.Idle? || th.phase.Raise?)
    ensures var l := StepLocal(cfg, sh, t, th, bk, spurious); ClosingOk(cfg, l.shared, t, l.thread, l.book)
  {
    if cfg.ops[t].Insert? {
      var l := StepLocal(cfg, sh, t, th, bk, spurious);
      if l.thread.phase.Search? {
        BeginCloses(cfg, l.shared, t, th, l.book, l.shared.maxHeight);
      }
    }
  }

  lemma SearchCloses(cfg: Config, sh: Shared, t: nat, th: Thread, bk: Book)
    requires cfg.Valid() && SharedOk(cfg, sh) && ThreadOk(cfg, sh, t, th, bk) && th.phase.Search?
    requires ClosingOk(cfg, sh, t, th, bk)
    ensures var l := StepSearch(cfg, sh, t, th, bk); ClosingOk(cfg, l.shared, t, l.thread, l.book)
  {
    var Search(i, before, after, retry) := th.phase;
    var next := LinkOf(sh, i, before);
    assert LevelOk(cfg, sh.levels[i], i);
    ReadLink(cfg, sh.levels[i], i, before, cfg.KeyOf(t));
    if cfg.KeyIsAfterNode(cfg.KeyOf(t), next) {
      SearchMoves(cfg, sh, t, th, bk);
    } else if SpliceIsValid(bk) {
      SearchEndOrders(cfg, sh, t, th, bk);
    }
  }

  lemma SearchMoves(cfg: Config, sh: Shared, t: nat, th: Thread, bk: Book)
    requires cfg.Valid() && SharedOk(cfg, sh) && ThreadOk(cfg, sh, t, th, bk) && th.phase.Search?
    requires ClosingOk(cfg, sh, t, th, bk)
    requires cfg.KeyIsAfterNode(cfg.KeyOf(t), LinkOf(sh, th.phase.level, th.phase.before))
    ensures var l := StepSearch(cfg, sh, t, th, bk); ClosingOk(cfg, l.shared, t, l.thread, l.book)
  {
    var Search(i, before, after, retry) := th.phase;
    assert LevelOk(cfg, sh.levels[i], i);
    assert IsSuccessor(cfg, sh.levels[i].linked, before, sh.levels[i].next[before]);
  }

  lemma CasCloses(cfg: Config, sh: Shared, t: nat, th: Thread, bk: Book)
    requires cfg.Valid() && SharedOk(cfg, sh) && ThreadOk(cfg, sh, t, th, bk) && th.phase.Cas?
    requires ClosingOk(cfg, sh, t, th, bk)
    ensures var l := StepCas(cfg, sh, t, th, bk); ClosingOk(cfg, l.shared, t, l.thread, l.book)
  {
    var i := th.phase.level;
    if LinkOf(sh, i, th.prev[i]) == th.next[i] {
      ClosingStable(cfg, sh, Link(sh, i, th.prev[i], t), t, th, bk);
    } else if i == 0 && SpliceIsValid(bk) {
      assert OrderedAt(cfg, th.prev, th.next, 0);
    } else {
      var bk' := StepCas(cfg, sh, t, th, bk).book;
      assert bk'.fails[i] > 0;
      assert i > 0 ==> !SpliceIsValid(bk');
      assert forall j :: 1 <= j < |bk.fails| && bk.fails[j] != 0 ==> bk'.fails[j] != 0;
    }
  }

  /** Every step of an insert keeps its splice in order. */
  lemma StepCloses(cfg: Config, sh: Shared, t: nat, th: Thread, bk: Book, spurious: bool)
    requires cfg.Valid() && SharedOk(cfg, sh) && ThreadOk(cfg, sh, t, th, bk) && ClosingOk(cfg, sh, t, th, bk)
    ensures var l := StepLocal(cfg, sh, t, th, bk, spurious); ClosingOk(cfg, l.shared, t, l.thread, l.book)
  {
    match th.phase {
      case Search(_, _, _, _) => SearchCloses(cfg, sh, t, th, bk);
      case Store(i) => ClosingStable(cfg, sh, SetLink(sh, i, Ptr(t), th.next[i]), t, th, bk);
      case Cas(_) => CasCloses(cfg, sh, t, th, bk);
      case Read(_, _, _) =>
      case Done(_) =>
      case _ => EntryCloses(cfg, sh, t, th, bk, spurious);
    }
  }

  lemma {:induction false} RunCloses(cfg: Config, sched: seq<Choice>, run: seq<State>, n: nat, t: nat)
    requires IsRun(cfg, sched, run) && n <= |sched| && cfg.IsOp(t)
    ensures Inv(cfg, run[n])
    ensures ClosingOk(cfg, run[n].shared, t, run[n].threads[t], run[n].books[t])
  {
    RunKeepsInv(cfg, sched, run, n);
    if n == 0 {
    } else {
      var s, c, s' := run[n - 1], sched[n - 1], run[n];
      RunCloses(cfg, sched, run, n - 1, t);
      RunStep(cfg, sched, run, n - 1);
      if c.t == t {
        assert ThreadOk(cfg, s.shared, t, s.threads[t], s.books[t]);
        StepCloses(cfg, s.shared, t, s.threads[t], s.books[t], c.spurious);
      } else {
        NothingIsLost(cfg, sched, run, n - 1, n);
        ClosingStable(cfg, s.shared, s'.shared, t, s.threads[t], s.books[t]);
      }
    }
  }

  // ---------------------------------------------------------------------------------------
  // The closing asserts
  // ---------------------------------------------------------------------------------------

  /** The predecessors after the node has taken its place on its levels. */
  function WithNode(prev: seq<Ref>, t: nat, height: nat): seq<Ref> {
    seq(|prev|, i requires 0 <= i < |prev| => if i < height then Ptr(t) else prev[i])
  }

  /** Sentinels in place; the key below every successor and not below any predecessor; both in order
      from level to level. */
  ghost predicate ClosingAsserts(cfg: Config, t: nat, prev: seq<Ref>, next: seq<Ref>, height: nat) {
    && cfg.IsOp(t) && height < |prev| && height < |next|
    && prev[height] == Head && next[height] == Null
    && (forall i :: 0 <= i < height ==>
          && (next[i].Null? || (next[i].Ptr? && cfg.IsOp(next[i].id) && cfg.KeyOf(t) < cfg.KeyOf(next[i].id)))
          && (prev[i].Head? || (prev[i].Ptr? && cfg.IsOp(prev[i].id) && cfg.KeyOf(prev[i].id) <= cfg.KeyOf(t))))
    && (forall i {:trigger OrderedAt(cfg, prev, next, i)} :: 0 <= i < height ==> OrderedAt(cfg, prev, next, i))
  }

  lemma OrderedMeansClosing(cfg: Config, sh: Shared, t: nat, prev: seq<Ref>, next: seq<Ref>, node: nat, height: nat)
    requires SharedOk(cfg, sh) && cfg.IsOp(t) && 1 <= node <= height <= |sh.levels| && t in sh.levels[0].linked
    requires OrderedFrom(cfg, sh, t, prev, next, 0, height)
    ensures ClosingAsserts(cfg, t, WithNode(prev, t, node), next, height)
  {
    var prev' := WithNode(prev, t, node);
    assert LevelOk(cfg, sh.levels[0], 0);
    forall i | 0 <= i < height
      ensures next[i].Null? || (next[i].Ptr? && cfg.IsOp(next[i].id) && cfg.KeyOf(t) < cfg.KeyOf(next[i].id))
      ensures prev'[i].Head? || (prev'[i].Ptr? && cfg.IsOp(prev'[i].id) && cfg.KeyOf(prev'[i].id) <= cfg.KeyOf(t))
      ensures OrderedAt(cfg, prev', next, i)
    {
      assert BracketsAt(cfg, sh, t, prev, next, i) && OrderedAt(cfg, prev, next, i);
      assert sh.levels[i].linked <= sh.levels[0].linked;
      if i + 1 == node && node < height {
        assert BracketsAt(cfg, sh, t, prev, next, i + 1);
      }
    }
  }

  /** In every run, whatever overlaps: when an insert has linked its node on all its levels, and no CAS
      has failed above level 0, the asserts that close it hold. */
  lemma {:induction false} ClosingAssertsHold(cfg: Config, sched: seq<Choice>, run: seq<State>, n: nat, t: nat)
    requires IsRun(cfg, sched, run) && n <= |sched| && cfg.IsOp(t) && cfg.ops[t].Insert?
    ensures Inv(cfg, run[n])
    ensures var th := run[n].threads[t];
      th.phase == Done(true) && SpliceIsValid(run[n].books[t]) ==>
        ClosingAsserts(cfg, t, WithNode(th.prev, t, cfg.ops[t].height), th.next, th.height)
  {
    var s := run[n];
    RunCloses(cfg, sched, run, n, t);
    var th := s.threads[t];
    assert ThreadOk(cfg, s.shared, t, th, s.books[t]);
    if th.phase == Done(true) && SpliceIsValid(s.books[t]) {
      OrderedMeansClosing(cfg, s.shared, t, th.prev, th.next, cfg.ops[t].height, th.height);
    }
  }
}
