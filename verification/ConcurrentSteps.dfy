/** Every step of every thread keeps the invariant of `ConcurrentSkipList`. */
module ConcurrentSteps {
  import opened Keys
  import opened ConcurrentSkipList

  /** What a step of thread `t` may do to one level: link `t` there, and store the link of `t`
      itself. If it links nothing, the links of linked nodes stay. */
  ghost predicate LevelExtends(l: Level, l': Level, t: nat) {
    && l.linked <= l'.linked <= l.linked + {t}
    && (l.linked == l'.linked ==> forall r | IsNode(l, r) && r in l.next :: r in l'.next && l'.next[r] == l.next[r])
    && (forall n | n != t && n !in l.linked && Ptr(n) in l.next ::
          Ptr(n) in l'.next && l'.next[Ptr(n)] == l.next[Ptr(n)])
  }

  ghost predicate Extends(sh: Shared, sh': Shared, t: nat) {
    && |sh.levels| == |sh'.levels|
    && sh.maxHeight <= sh'.maxHeight
    && forall i | 0 <= i < |sh.levels| :: LevelExtends(sh.levels[i], sh'.levels[i], t)
  }

  // ---------------------------------------------------------------------------------------
  // Stability: a step of another thread keeps what a thread knows
  // ---------------------------------------------------------------------------------------

  lemma SplicesStable(cfg: Config, sh: Shared, sh': Shared, t: nat, u: nat, th: Thread, bk: Book, lo: nat, hi: nat)
    requires cfg.IsOp(u) && u != t
    requires Extends(sh, sh', t)
    requires |sh.levels| <= |bk.snap| && |bk.start| == |bk.snap| == |bk.fails|
    requires BooksOk(cfg, sh, u, bk)
    requires SplicesOk(cfg, sh, u, th, bk, lo, hi)
    ensures SplicesOk(cfg, sh', u, th, bk, lo, hi)
  {
    forall j | lo <= j < hi && j < |sh'.levels| && j < |th.prev| && j < |th.next| && j < |bk.snap|
      ensures SpliceOk(cfg, sh'.levels[j], th.prev[j], th.next[j], bk.snap[j], cfg.KeyOf(u))
    {
      assert SpliceOk(cfg, sh.levels[j], th.prev[j], th.next[j], bk.snap[j], cfg.KeyOf(u));
      assert BookOk(sh.levels[j], u, bk.start[j], bk.snap[j], bk.fails[j]);
      assert LevelExtends(sh.levels[j], sh'.levels[j], t);
    }
  }

  lemma LinkedBelowStable(sh: Shared, sh': Shared, t: nat, u: nat, level: nat)
    requires u != t && Extends(sh, sh', t) && LinkedBelow(sh, u, level)
    ensures LinkedBelow(sh', u, level)
  {
    forall j | 0 <= j < |sh'.levels|
      ensures u in sh'.levels[j].linked <==> j < level
    {
      assert LevelExtends(sh.levels[j], sh'.levels[j], t);
    }
  }

  lemma BooksStable(cfg: Config, sh: Shared, sh': Shared, t: nat, u: nat, bk: Book)
    requires u != t && Extends(sh, sh', t) && BooksOk(cfg, sh, u, bk)
    ensures BooksOk(cfg, sh', u, bk)
  {
    forall j | 0 <= j < |sh'.levels| && j < |bk.start| && j < |bk.snap| && j < |bk.fails|
      ensures BookOk(sh'.levels[j], u, bk.start[j], bk.snap[j], bk.fails[j])
    {
      assert BookOk(sh.levels[j], u, bk.start[j], bk.snap[j], bk.fails[j]);
      assert LevelExtends(sh.levels[j], sh'.levels[j], t);
    }
  }

  /** Thread `u` does not notice a step of thread `t`. */
  lemma ThreadStable(cfg: Config, sh: Shared, sh': Shared, t: nat, u: nat, th: Thread, bk: Book)
    requires cfg.Valid() && u != t
    requires Extends(sh, sh', t) && sh'.maxHeight <= cfg.maxLevels
    requires ThreadOk(cfg, sh, u, th, bk)
    ensures ThreadOk(cfg, sh', u, th, bk)
  {
    forall level | LinkedBelow(sh, u, level) ensures LinkedBelow(sh', u, level) {
      LinkedBelowStable(sh, sh', t, u, level);
    }
    if BooksOk(cfg, sh, u, bk) {
      BooksStable(cfg, sh, sh', t, u, bk);
      forall lo, hi | SplicesOk(cfg, sh, u, th, bk, lo, hi) ensures SplicesOk(cfg, sh', u, th, bk, lo, hi) {
        SplicesStable(cfg, sh, sh', t, u, th, bk, lo, hi);
      }
    }
    if KeyPresent(cfg, sh, cfg.KeyOf(u)) {
      var n :| n in sh.levels[0].linked && cfg.IsOp(n) && cfg.KeyOf(n) == cfg.KeyOf(u);
      assert LevelExtends(sh.levels[0], sh'.levels[0], t);
      assert n in sh'.levels[0].linked;
    }
    match th.phase {
      case Search(level, before, after, _) => assert LevelExtends(sh.levels[level], sh'.levels[level], t);
      case Cas(level) => assert LevelExtends(sh.levels[level], sh'.levels[level], t);
      case Read(level, _, _) => assert LevelExtends(sh.levels[level], sh'.levels[level], t);
      case _ =>
    }
  }

  // ---------------------------------------------------------------------------------------
  // Links
  // ---------------------------------------------------------------------------------------

  /** A read of a link of a linked node yields the next bracket. */
  lemma ReadLink(cfg: Config, l: Level, level: nat, before: Ref, key: Key)
    requires LevelOk(cfg, l, level) && IsNode(l, before) && cfg.Before(before, key)
    ensures before in l.next
    ensures l.next[before].Null?
         || (l.next[before].Ptr? && l.next[before].id in l.linked && cfg.IsOp(l.next[before].id))
    ensures cfg.KeyIsAfterNode(key, l.next[before]) ==> IsNode(l, l.next[before]) && cfg.Before(l.next[before], key)
    ensures !cfg.KeyIsAfterNode(key, l.next[before]) ==> NotBefore(cfg, l, l.next[before], key)
  {
    assert IsSuccessor(cfg, l.linked, before, l.next[before]);
  }

  /** If the link of a smaller node leads to the end or to a larger key, the key is not linked. */
  lemma GapMeansAbsent(cfg: Config, l: Level, level: nat, before: Ref, key: Key)
    requires LevelOk(cfg, l, level) && IsNode(l, before) && cfg.Before(before, key) && before in l.next
    requires l.next[before].Ptr? ==> cfg.IsOp(l.next[before].id) && cfg.KeyOf(l.next[before].id) > key
    ensures forall m | m in l.linked :: cfg.IsOp(m) && cfg.KeyOf(m) != key
  {
    assert IsSuccessor(cfg, l.linked, before, l.next[before]);
  }

  /** Storing the link of an unlinked node changes no list. */
  lemma StoreKeepsLevel(cfg: Config, l: Level, level: nat, t: nat, to: Ref)
    requires LevelOk(cfg, l, level) && t !in l.linked
    ensures LevelOk(cfg, l.(next := l.next[Ptr(t) := to]), level)
    ensures LevelExtends(l, l.(next := l.next[Ptr(t) := to]), t)
  {
    var l' := l.(next := l.next[Ptr(t) := to]);
    forall r | IsNode(l', r) ensures r in l'.next && IsSuccessor(cfg, l'.linked, r, l'.next[r]) {
      assert IsNode(l, r);
    }
  }

  /** The linking CAS: a node whose own link is already the successor of `prev` goes between the two. */
  lemma LinkKeepsLevel(cfg: Config, l: Level, level: nat, prev: Ref, t: nat)
    requires LevelOk(cfg, l, level)
    requires cfg.IsOp(t) && cfg.ops[t].Insert? && level < cfg.ops[t].height && t !in l.linked
    requires IsNode(l, prev) && cfg.Before(prev, cfg.KeyOf(t)) && prev in l.next
    requires Ptr(t) in l.next && l.next[Ptr(t)] == l.next[prev]
    requires l.next[prev].Ptr? ==> cfg.IsOp(l.next[prev].id) && cfg.KeyOf(l.next[prev].id) > cfg.KeyOf(t)
    ensures LevelOk(cfg, Level(l.next[prev := Ptr(t)], l.linked + {t}), level)
    ensures LevelExtends(l, Level(l.next[prev := Ptr(t)], l.linked + {t}), t)
  {
    var l' := Level(l.next[prev := Ptr(t)], l.linked + {t});
    GapMeansAbsent(cfg, l, level, prev, cfg.KeyOf(t));
    assert IsSuccessor(cfg, l.linked, prev, l.next[prev]);
    forall r | IsNode(l', r) ensures r in l'.next && IsSuccessor(cfg, l'.linked, r, l'.next[r]) {
      if r == Ptr(t) || r == prev {
      } else {
        assert IsNode(l, r);
        assert IsSuccessor(cfg, l.linked, r, l.next[r]);
      }
    }
  }

  // ---------------------------------------------------------------------------------------
  // One step of one thread
  // ---------------------------------------------------------------------------------------

  ghost predicate StepOk(cfg: Config, sh: Shared, t: nat, l: Local)
    requires cfg.Valid()
  {
    && SharedOk(cfg, l.shared)
    && Extends(sh, l.shared, t)
    && ThreadOk(cfg, l.shared, t, l.thread, l.book)
  }

  lemma ExtendsRefl(sh: Shared, t: nat)
    ensures Extends(sh, sh, t)
  {
  }

  /** Replacing one level keeps the shared invariant when the level stays valid, grows by at most
      `t`, and `t` is already linked below. */
  lemma ReplaceLevel(cfg: Config, sh: Shared, i: nat, l': Level, t: nat)
    requires SharedOk(cfg, sh) && i < |sh.levels|
    requires LevelOk(cfg, l', i) && LevelExtends(sh.levels[i], l', t)
    requires t in l'.linked ==> forall j | 0 <= j < i :: t in sh.levels[j].linked
    ensures SharedOk(cfg, sh.(levels := sh.levels[i := l']))
    ensures Extends(sh, sh.(levels := sh.levels[i := l']), t)
  {
    var sh' := sh.(levels := sh.levels[i := l']);
    forall a, b | 0 <= a <= b < |sh'.levels| ensures sh'.levels[b].linked <= sh'.levels[a].linked {
      assert sh.levels[b].linked <= sh.levels[a].linked;
    }
  }

  /** The sentinels bracket every key at every level. */
  lemma BeginDescentOk(cfg: Config, sh: Shared, t: nat, th: Thread, bk: Book, max: nat)
    requires cfg.Valid() && cfg.IsOp(t) && cfg.ops[t].Insert?
    requires SharedOk(cfg, sh) && Shape(cfg, sh, th, bk)
    requires cfg.ops[t].height <= max <= sh.maxHeight
    requires LinkedBelow(sh, t, 0) && BooksOk(cfg, sh, t, bk)
    ensures ThreadOk(cfg, sh, t, BeginDescent(th, max), bk)
  {
  }

  lemma IdleOk(cfg: Config, sh: Shared, t: nat, th: Thread, bk: Book)
    requires cfg.Valid() && SharedOk(cfg, sh) && ThreadOk(cfg, sh, t, th, bk) && th.phase.Idle?
    ensures StepOk(cfg, sh, t, StepIdle(cfg, sh, t, th, bk))
  {
    if cfg.ops[t].Insert? {
      var begun := Book(LinkedAt(sh), LinkedAt(sh), bk.fails);
      assert BooksOk(cfg, sh, t, begun);
      if cfg.ops[t].height <= sh.maxHeight {
        BeginDescentOk(cfg, sh, t, th, begun, sh.maxHeight);
      }
    }
  }

  lemma RaiseOk(cfg: Config, sh: Shared, t: nat, th: Thread, bk: Book, spurious: bool)
    requires cfg.Valid() && SharedOk(cfg, sh) && ThreadOk(cfg, sh, t, th, bk) && th.phase.Raise?
    ensures StepOk(cfg, sh, t, StepRaise(cfg, sh, t, th, bk, spurious))
  {
    var height := cfg.ops[t].height;
    if sh.maxHeight == th.phase.seen && !spurious {
      var sh' := sh.(maxHeight := height);
      assert LinkedBelow(sh', t, 0) && BooksOk(cfg, sh', t, bk);
      BeginDescentOk(cfg, sh', t, th, bk, height);
    } else if height <= sh.maxHeight {
      BeginDescentOk(cfg, sh, t, th, bk, sh.maxHeight);
    }
  }

  lemma SearchOk(cfg: Config, sh: Shared, t: nat, th: Thread, bk: Book)
    requires cfg.Valid() && SharedOk(cfg, sh) && ThreadOk(cfg, sh, t, th, bk) && th.phase.Search?
    ensures StepOk(cfg, sh, t, StepSearch(cfg, sh, t, th, bk))
  {
    var Search(level, before, after, retry) := th.phase;
    assert LevelOk(cfg, sh.levels[level], level);
    ReadLink(cfg, sh.levels[level], level, before, cfg.KeyOf(t));
    var next := LinkOf(sh, level, before);
    if next == after || !cfg.KeyIsAfterNode(cfg.KeyOf(t), next) {
      SearchEndOk(cfg, sh, t, th, bk);
    } else {
      ExtendsRefl(sh, t);
    }
  }

  lemma SearchEndOk(cfg: Config, sh: Shared, t: nat, th: Thread, bk: Book)
    requires cfg.Valid() && SharedOk(cfg, sh) && ThreadOk(cfg, sh, t, th, bk) && th.phase.Search?
    requires var next := LinkOf(sh, th.phase.level, th.phase.before);
             next == th.phase.after || !cfg.KeyIsAfterNode(cfg.KeyOf(t), next)
    ensures StepOk(cfg, sh, t, StepSearch(cfg, sh, t, th, bk))
  {
    var Search(level, before, after, retry) := th.phase;
    var l := sh.levels[level];
    var next := LinkOf(sh, level, before);
    assert SpliceOk(cfg, l, before, next, l.linked, cfg.KeyOf(t)) by {
      assert LevelOk(cfg, l, level);
      ReadLink(cfg, l, level, before, cfg.KeyOf(t));
    }
    SearchEndBooks(cfg, sh, t, bk, level);
    SearchEndSplices(cfg, sh, t, th, bk, level, before, next);
    if level > 0 {
      assert Brackets(cfg, sh.levels[level - 1], before, next, cfg.KeyOf(t)) by {
        assert sh.levels[level].linked <= sh.levels[level - 1].linked;
      }
    }
    var th' := StepSearch(cfg, sh, t, th, bk).thread;
    var bk' := StepSearch(cfg, sh, t, th, bk).book;
    assert SplicesOk(cfg, sh, t, th', bk', level, cfg.ops[t].height);
    assert InsertOk(cfg, sh, t, th', bk');
    ExtendsRefl(sh, t);
  }

  lemma SearchEndBooks(cfg: Config, sh: Shared, t: nat, bk: Book, level: nat)
    requires |bk.start| == |bk.snap| == |bk.fails| == |sh.levels| && level < |sh.levels|
    requires BooksOk(cfg, sh, t, bk) && t !in sh.levels[level].linked
    ensures BooksOk(cfg, sh, t, bk.(snap := bk.snap[level := sh.levels[level].linked]))
  {
    var l := sh.levels[level];
    assert BookOk(l, t, bk.start[level], bk.snap[level], bk.fails[level]);
    SubsetSize(bk.snap[level], l.linked);
  }

  lemma SubsetSize(a: set<nat>, b: set<nat>)
    requires a <= b
    ensures |a| <= |b|
    ensures a != b ==> |a| < |b|
  {
    assert b == a + (b - a);
  }

  lemma SearchEndSplices(cfg: Config, sh: Shared, t: nat, th: Thread, bk: Book, level: nat, before: Ref, next: Ref)
    requires cfg.Valid() && cfg.IsOp(t) && cfg.ops[t].Insert? && Shape(cfg, sh, th, bk)
    requires level < cfg.maxLevels && level < SPLICE_SLOTS
    requires SplicesOk(cfg, sh, t, th, bk, level + 1, cfg.ops[t].height)
    requires SpliceOk(cfg, sh.levels[level], before, next, sh.levels[level].linked, cfg.KeyOf(t))
    ensures SplicesOk(cfg, sh, t, Thread(th.phase, th.prev[level := before], th.next[level := next], th.height),
                      bk.(snap := bk.snap[level := sh.levels[level].linked]), level, cfg.ops[t].height)
  {
    var th' := Thread(th.phase, th.prev[level := before], th.next[level := next], th.height);
    var snap' := bk.snap[level := sh.levels[level].linked];
    forall j | level <= j < cfg.ops[t].height && j < |sh.levels|
      ensures SpliceOk(cfg, sh.levels[j], th'.prev[j], th'.next[j], snap'[j], cfg.KeyOf(t))
    {
      if j > level {
        assert SpliceOk(cfg, sh.levels[j], th.prev[j], th.next[j], bk.snap[j], cfg.KeyOf(t));
      }
    }
  }

  /** A thread's own steps that change at most its private link keep its splices. */
  lemma OwnSplices(cfg: Config, sh: Shared, sh': Shared, t: nat, th: Thread, bk: Book, lo: nat, hi: nat)
    requires cfg.IsOp(t) && |sh.levels| == |sh'.levels|
    requires |sh.levels| <= |bk.snap|
    requires SplicesOk(cfg, sh, t, th, bk, lo, hi)
    requires forall j | lo <= j < |sh.levels| ::
               LevelExtends(sh.levels[j], sh'.levels[j], t) && sh.levels[j].linked == sh'.levels[j].linked
    ensures SplicesOk(cfg, sh', t, th, bk, lo, hi)
  {
    forall j | lo <= j < hi && j < |sh'.levels| && j < |th.prev| && j < |th.next| && j < |bk.snap|
      ensures SpliceOk(cfg, sh'.levels[j], th.prev[j], th.next[j], bk.snap[j], cfg.KeyOf(t))
    {
      assert SpliceOk(cfg, sh.levels[j], th.prev[j], th.next[j], bk.snap[j], cfg.KeyOf(t));
    }
  }

  /** At level 0 the duplicate tests leave only a strictly larger successor; at an upper level the
      node itself is the only one with its key at level 0, and it is not yet linked up here. */
  lemma UpperLevelsNeedNoTest(cfg: Config, sh: Shared, t: nat, i: nat, next: Ref)
    requires SharedOk(cfg, sh) && cfg.IsOp(t) && 0 < i < |sh.levels| && LinkedBelow(sh, t, i)
    requires NotBefore(cfg, sh.levels[i], next, cfg.KeyOf(t))
    ensures next.Ptr? ==> cfg.KeyOf(next.id) > cfg.KeyOf(t)
  {
    if next.Ptr? {
      assert sh.levels[i].linked <= sh.levels[0].linked;
      assert t in sh.levels[0].linked && next.id in sh.levels[0].linked && next.id != t;
      assert LevelOk(cfg, sh.levels[0], 0);
    }
  }

  lemma StoreOk(cfg: Config, sh: Shared, t: nat, th: Thread, bk: Book)
    requires cfg.Valid() && SharedOk(cfg, sh) && ThreadOk(cfg, sh, t, th, bk) && th.phase.Store?
    ensures StepOk(cfg, sh, t, StepStore(cfg, sh, t, th, bk))
  {
    var i := th.phase.level;
    assert SpliceOk(cfg, sh.levels[i], th.prev[i], th.next[i], bk.snap[i], cfg.KeyOf(t));
    if i == 0 && Duplicate(cfg, t, th.prev[i], th.next[i]) {
      assert th.next[i].id in sh.levels[0].linked && cfg.KeyOf(th.next[i].id) == cfg.KeyOf(t);
      assert KeyPresent(cfg, sh, cfg.KeyOf(t));
      ExtendsRefl(sh, t);
    } else {
      if i > 0 { UpperLevelsNeedNoTest(cfg, sh, t, i, th.next[i]); }
      PrivateStoreOk(cfg, sh, t, th, bk);
    }
  }

  lemma PrivateStoreOk(cfg: Config, sh: Shared, t: nat, th: Thread, bk: Book)
    requires cfg.Valid() && SharedOk(cfg, sh) && ThreadOk(cfg, sh, t, th, bk) && th.phase.Store?
    requires var next := th.next[th.phase.level]; next.Ptr? ==> cfg.IsOp(next.id) && cfg.KeyOf(next.id) > cfg.KeyOf(t)
    ensures StepOk(cfg, sh, t, Local(SetLink(sh, th.phase.level, Ptr(t), th.next[th.phase.level]),
                                     th.(phase := Cas(th.phase.level)), bk))
  {
    var i := th.phase.level;
    var l := sh.levels[i];
    StoreKeepsLevel(cfg, l, i, t, th.next[i]);
    ReplaceLevel(cfg, sh, i, l.(next := l.next[Ptr(t) := th.next[i]]), t);
    var sh' := SetLink(sh, i, Ptr(t), th.next[i]);
    assert forall j | 0 <= j < |sh.levels| :: sh'.levels[j].linked == sh.levels[j].linked;
    OwnSplices(cfg, sh, sh', t, th, bk, i, cfg.ops[t].height);
    OwnBooks(cfg, sh, sh', t, bk);
    assert LinkedBelow(sh', t, i);
  }

  lemma OwnBooks(cfg: Config, sh: Shared, sh': Shared, t: nat, bk: Book)
    requires Extends(sh, sh', t) && BooksOk(cfg, sh, t, bk)
    ensures BooksOk(cfg, sh', t, bk)
  {
    forall j | 0 <= j < |sh'.levels| && j < |bk.start| && j < |bk.snap| && j < |bk.fails|
      ensures BookOk(sh'.levels[j], t, bk.start[j], bk.snap[j], bk.fails[j])
    {
      assert BookOk(sh.levels[j], t, bk.start[j], bk.snap[j], bk.fails[j]);
      assert LevelExtends(sh.levels[j], sh'.levels[j], t);
    }
  }

  lemma CasOk(cfg: Config, sh: Shared, t: nat, th: Thread, bk: Book)
    requires cfg.Valid() && SharedOk(cfg, sh) && ThreadOk(cfg, sh, t, th, bk) && th.phase.Cas?
    ensures StepOk(cfg, sh, t, StepCas(cfg, sh, t, th, bk))
  {
    var i := th.phase.level;
    var l := sh.levels[i];
    assert SpliceOk(cfg, l, th.prev[i], th.next[i], bk.snap[i], cfg.KeyOf(t));
    assert LevelOk(cfg, l, i);
    if LinkOf(sh, i, th.prev[i]) == th.next[i] {
      CasLinksOk(cfg, sh, t, th, bk);
    } else {
      CasFailsOk(cfg, sh, t, th, bk);
    }
  }

  lemma CasLinksOk(cfg: Config, sh: Shared, t: nat, th: Thread, bk: Book)
    requires cfg.Valid() && SharedOk(cfg, sh) && ThreadOk(cfg, sh, t, th, bk) && th.phase.Cas?
    requires LinkOf(sh, th.phase.level, th.prev[th.phase.level]) == th.next[th.phase.level]
    ensures StepOk(cfg, sh, t, StepCas(cfg, sh, t, th, bk))
  {
    var i := th.phase.level;
    var l := sh.levels[i];
    assert SpliceOk(cfg, l, th.prev[i], th.next[i], bk.snap[i], cfg.KeyOf(t));
    LinkKeepsLevel(cfg, l, i, th.prev[i], t);
    var l' := Level(l.next[th.prev[i] := Ptr(t)], l.linked + {t});
    ReplaceLevel(cfg, sh, i, l', t);
    var sh' := Link(sh, i, th.prev[i], t);
    OwnBooks(cfg, sh, sh', t, bk);
    assert forall j | i < j < |sh.levels| :: sh'.levels[j] == sh.levels[j];
    OwnSplices(cfg, sh, sh', t, th, bk, i + 1, cfg.ops[t].height);
    assert LinkedBelow(sh', t, i + 1);
  }

  /** A CAS fails only if another node was linked at the level since the splice was read. */
  lemma CasFailsOk(cfg: Config, sh: Shared, t: nat, th: Thread, bk: Book)
    requires cfg.Valid() && SharedOk(cfg, sh) && ThreadOk(cfg, sh, t, th, bk) && th.phase.Cas?
    requires LinkOf(sh, th.phase.level, th.prev[th.phase.level]) != th.next[th.phase.level]
    ensures bk.snap[th.phase.level] < sh.levels[th.phase.level].linked
    ensures StepOk(cfg, sh, t, StepCas(cfg, sh, t, th, bk))
  {
    var i := th.phase.level;
    var l := sh.levels[i];
    assert SpliceOk(cfg, l, th.prev[i], th.next[i], bk.snap[i], cfg.KeyOf(t));
    assert BookOk(l, t, bk.start[i], bk.snap[i], bk.fails[i]);
    assert bk.snap[i] != l.linked;
    SubsetSize(bk.snap[i], l.linked);
    var bk' := bk.(fails := bk.fails[i := bk.fails[i] + 1], snap := bk.snap[i := l.linked]);
    assert BooksOk(cfg, sh, t, bk');
    assert SplicesOk(cfg, sh, t, th, bk', i + 1, cfg.ops[t].height) by {
      forall j | i + 1 <= j < cfg.ops[t].height && j < |sh.levels|
        ensures SpliceOk(cfg, sh.levels[j], th.prev[j], th.next[j], bk'.snap[j], cfg.KeyOf(t))
      {
        assert SpliceOk(cfg, sh.levels[j], th.prev[j], th.next[j], bk.snap[j], cfg.KeyOf(t));
      }
    }
  }

  lemma ReadOk(cfg: Config, sh: Shared, t: nat, th: Thread, bk: Book)
    requires cfg.Valid() && SharedOk(cfg, sh) && ThreadOk(cfg, sh, t, th, bk) && th.phase.Read?
    ensures StepOk(cfg, sh, t, StepRead(cfg, sh, t, th, bk))
    ensures StepRead(cfg, sh, t, th, bk).thread.phase.Done? ==>
              (StepRead(cfg, sh, t, th, bk).thread.phase.result <==> KeyPresent(cfg, sh, cfg.KeyOf(t)))
  {
    var Read(level, x, lastBigger) := th.phase;
    var key := cfg.KeyOf(t);
    var l := sh.levels[level];
    assert LevelOk(cfg, l, level);
    ReadLink(cfg, l, level, x, key);
    var next := LinkOf(sh, level, x);
    if level > 0 {
      assert l.linked <= sh.levels[level - 1].linked;
    }
    assert l.linked <= sh.levels[0].linked;
    if next.Ptr? && cfg.KeyOf(next.id) == key {
      assert next.id in sh.levels[0].linked;
    } else if level == 0 && !cfg.KeyIsAfterNode(key, next) {
      GapMeansAbsent(cfg, l, 0, x, key);
    }
  }

  /** Every step keeps the invariant. */
  lemma LocalStepOk(cfg: Config, sh: Shared, t: nat, th: Thread, bk: Book, spurious: bool)
    requires cfg.Valid() && SharedOk(cfg, sh) && ThreadOk(cfg, sh, t, th, bk)
    ensures StepOk(cfg, sh, t, StepLocal(cfg, sh, t, th, bk, spurious))
  {
    match th.phase {
      case Idle => IdleOk(cfg, sh, t, th, bk);
      case Raise(_) => RaiseOk(cfg, sh, t, th, bk, spurious);
      case Search(_, _, _, _) => SearchOk(cfg, sh, t, th, bk);
      case Store(_) => StoreOk(cfg, sh, t, th, bk);
      case Cas(_) => CasOk(cfg, sh, t, th, bk);
      case Read(_, _, _) => ReadOk(cfg, sh, t, th, bk);
      case Done(_) => ExtendsRefl(sh, t);
    }
  }
}
