/** Concurrent inserts and lookups on the skip list, as a state machine.

    A state holds the shared links of every level, the shared `max_height_` and the program
    state of every thread. One step is one shared link read, one link CAS, one private link
    store or one access to `max_height_`. Steps are sequentially consistent and nodes are never
    removed. Thread `t` runs operation `ops[t]`; if that is an insert, its node is `Ptr(t)`. */
module ConcurrentSkipList {
  import opened Keys

  datatype Ref = Head | Null | Ptr(id: nat)

  datatype Op = Insert(key: Key, height: nat) | Contains(key: Key)

  /** One level: the link stored in the head and in every node that has one, and the set of
      nodes whose linking CAS at this level has succeeded. */
  datatype Level = Level(next: map<Ref, Ref>, linked: set<nat>)

  datatype Shared = Shared(levels: seq<Level>, maxHeight: nat)

  datatype Phase =
    | Idle
    | Raise(seen: nat)                                            // while (height > max_height)
    | Search(level: nat, before: Ref, after: Ref, retry: bool)    // FindSpliceForLevel
    | Store(level: nat)                                           // duplicate check, private store
    | Cas(level: nat)                                             // CASNext
    | Read(level: nat, x: Ref, lastBigger: Ref)                   // FindGreaterOrEqual
    | Done(result: bool)
    | Overrun                                                     // wrote behind the splice arrays

  /** Program state of one thread; `prev`, `next` and `height` are its local splice. */
  datatype Thread = Thread(phase: Phase, prev: seq<Ref>, next: seq<Ref>, height: nat)

  /** Bookkeeping for one thread, which the program never looks at. Per level: the nodes linked
      when the call began, the nodes linked when the splice was last brought up to date, and
      the number of failed CAS attempts. */
  datatype Book = Book(start: seq<set<nat>>, snap: seq<set<nat>>, fails: seq<nat>)

  datatype State = State(shared: Shared, threads: seq<Thread>, books: seq<Book>)

  /** `kMaxPossibleHeight`, the size of the splice arrays on the stack of `InsertConcurrently`. */
  const SPLICE_SLOTS: nat := 32

  /** The operations of a run and the height limit `kMaxHeight_` of the list. */
  datatype Config = Config(ops: seq<Op>, maxLevels: nat) {
    /** What `RandomHeight` and the asserts on heights admit. */
    predicate WellFormed() {
      && 1 <= maxLevels
      && forall t | 0 <= t < |ops| && ops[t].Insert? ::
           1 <= ops[t].height <= maxLevels && ops[t].height <= SPLICE_SLOTS
    }

    /** No node is as high as the splice arrays are long. */
    predicate HeightsFit() {
      forall t | 0 <= t < |ops| && ops[t].Insert? :: ops[t].height < SPLICE_SLOTS
    }

    predicate Valid() {
      WellFormed() && HeightsFit()
    }

    predicate IsOp(t: nat) { t < |ops| }

    function KeyOf(t: nat): Key
      requires t < |ops|
    {
      ops[t].key
    }

    /** `KeyIsAfterNode(key, n)`: the node exists and its key is smaller. */
    predicate KeyIsAfterNode(key: Key, n: Ref) {
      n.Ptr? && n.id < |ops| && ops[n.id].key < key
    }

    /** The head, or a node with a smaller key. */
    predicate Before(r: Ref, key: Key) {
      r.Head? || KeyIsAfterNode(key, r)
    }

    /** Node `m` lies after `r` in key order. */
    predicate After(r: Ref, m: nat) {
      m < |ops| && Before(r, ops[m].key)
    }
  }

  // ---------------------------------------------------------------------------------------
  // Steps
  // ---------------------------------------------------------------------------------------

  function SetLink(sh: Shared, level: nat, from: Ref, to: Ref): Shared
    requires level < |sh.levels|
  {
    var l := sh.levels[level];
    sh.(levels := sh.levels[level := l.(next := l.next[from := to])])
  }

  function Link(sh: Shared, level: nat, prev: Ref, t: nat): Shared
    requires level < |sh.levels|
  {
    var l := sh.levels[level];
    sh.(levels := sh.levels[level := Level(l.next[prev := Ptr(t)], l.linked + {t})])
  }

  function LinkOf(sh: Shared, level: nat, r: Ref): Ref
    requires level < |sh.levels|
  {
    if r in sh.levels[level].next then sh.levels[level].next[r] else Null
  }

  function LinkedAt(sh: Shared): seq<set<nat>> {
    seq(|sh.levels|, i requires 0 <= i < |sh.levels| => sh.levels[i].linked)
  }

  /** What one thread can touch in one step. */
  datatype Local = Local(shared: Shared, thread: Thread, book: Book)

  /** Enough shape for a step to be defined; part of the invariant below. */
  predicate Shape(cfg: Config, sh: Shared, th: Thread, bk: Book) {
    && |sh.levels| == cfg.maxLevels
    && |th.prev| == |th.next| == SPLICE_SLOTS
    && |bk.start| == |bk.snap| == |bk.fails| == cfg.maxLevels
    && 1 <= sh.maxHeight <= cfg.maxLevels
    && match th.phase {
         case Search(level, _, _, _) => level < cfg.maxLevels && level < SPLICE_SLOTS
         case Store(level) => level < cfg.maxLevels && level < SPLICE_SLOTS
         case Cas(level) => level < cfg.maxLevels && level < SPLICE_SLOTS
         case Read(level, _, _) => level < cfg.maxLevels
         case _ => true
       }
  }

  /** Entry to the search with the local copy `max` of `max_height_`: install the sentinels and
      recompute every level from the top. The sentinels go to index `max` of the arrays. */
  function BeginDescent(th: Thread, max: nat): Thread
    requires 1 <= max
  {
    if max < |th.prev| && max < |th.next| then
      Thread(Search(max - 1, Head, Null, false), th.prev[max := Head], th.next[max := Null], max)
    else
      th.(phase := Overrun)
  }

  function StepIdle(cfg: Config, sh: Shared, t: nat, th: Thread, bk: Book): Local
    requires cfg.WellFormed() && cfg.IsOp(t) && Shape(cfg, sh, th, bk)
  {
    if cfg.ops[t].Contains? then
      Local(sh, th.(phase := Read(sh.maxHeight - 1, Head, Null)), bk)
    else
      var begun := Book(LinkedAt(sh), LinkedAt(sh), bk.fails);
      if cfg.ops[t].height > sh.maxHeight then
        Local(sh, th.(phase := Raise(sh.maxHeight)), begun)
      else
        Local(sh, BeginDescent(th, sh.maxHeight), begun)
  }

  /** `compare_exchange_weak` on `max_height_`: it may fail although the value is as expected. */
  function StepRaise(cfg: Config, sh: Shared, t: nat, th: Thread, bk: Book, spurious: bool): Local
    requires cfg.WellFormed() && cfg.IsOp(t) && cfg.ops[t].Insert? && Shape(cfg, sh, th, bk) && th.phase.Raise?
  {
    var height := cfg.ops[t].height;
    if sh.maxHeight == th.phase.seen && !spurious then
      Local(sh.(maxHeight := height), BeginDescent(th, height), bk)
    else if height > sh.maxHeight then
      Local(sh, th.(phase := Raise(sh.maxHeight)), bk)
    else
      Local(sh, BeginDescent(th, sh.maxHeight), bk)
  }

  function StepSearch(cfg: Config, sh: Shared, t: nat, th: Thread, bk: Book): Local
    requires cfg.WellFormed() && cfg.IsOp(t) && Shape(cfg, sh, th, bk) && th.phase.Search?
  {
    var Search(level, before, after, retry) := th.phase;
    var next := LinkOf(sh, level, before);
    if next == after || !cfg.KeyIsAfterNode(cfg.KeyOf(t), next) then
      var phase := if retry || level == 0 then Store(level) else Search(level - 1, before, next, false);
      Local(sh,
            Thread(phase, th.prev[level := before], th.next[level := next], th.height),
            bk.(snap := bk.snap[level := sh.levels[level].linked]))
    else
      Local(sh, th.(phase := Search(level, next, after, retry)), bk)
  }

  /** The duplicate tests at level 0. */
  predicate Duplicate(cfg: Config, t: nat, prev: Ref, next: Ref)
    requires cfg.IsOp(t)
  {
    || (next.Ptr? && next.id < |cfg.ops| && cfg.KeyOf(t) >= cfg.KeyOf(next.id))
    || (prev.Ptr? && prev.id < |cfg.ops| && cfg.KeyOf(prev.id) >= cfg.KeyOf(t))
  }

  function StepStore(cfg: Config, sh: Shared, t: nat, th: Thread, bk: Book): Local
    requires cfg.WellFormed() && cfg.IsOp(t) && Shape(cfg, sh, th, bk) && th.phase.Store?
  {
    var i := th.phase.level;
    if i == 0 && Duplicate(cfg, t, th.prev[i], th.next[i]) then
      Local(sh, th.(phase := Done(false)), bk)
    else
      Local(SetLink(sh, i, Ptr(t), th.next[i]), th.(phase := Cas(i)), bk)
  }

  function StepCas(cfg: Config, sh: Shared, t: nat, th: Thread, bk: Book): Local
    requires cfg.WellFormed() && cfg.IsOp(t) && cfg.ops[t].Insert? && Shape(cfg, sh, th, bk) && th.phase.Cas?
  {
    var i := th.phase.level;
    if LinkOf(sh, i, th.prev[i]) == th.next[i] then
      var phase := if i + 1 < cfg.ops[t].height then Store(i + 1) else Done(true);
      Local(Link(sh, i, th.prev[i], t), th.(phase := phase), bk)
    else
      Local(sh, th.(phase := Search(i, th.prev[i], Null, true)),
            bk.(fails := bk.fails[i := bk.fails[i] + 1], snap := bk.snap[i := sh.levels[i].linked]))
  }

  /** One iteration of `FindGreaterOrEqual`, and the final test of `Contains` when it returns. */
  function StepRead(cfg: Config, sh: Shared, t: nat, th: Thread, bk: Book): Local
    requires cfg.WellFormed() && cfg.IsOp(t) && Shape(cfg, sh, th, bk) && th.phase.Read?
  {
    var Read(level, x, lastBigger) := th.phase;
    var key := cfg.KeyOf(t);
    var next := LinkOf(sh, level, x);
    var bigger := !next.Ptr? || next == lastBigger || next.id >= |cfg.ops| || cfg.KeyOf(next.id) > key;
    var equal := !bigger && cfg.KeyOf(next.id) == key;
    if equal || (bigger && level == 0) then
      Local(sh, th.(phase := Done(next.Ptr? && next.id < |cfg.ops| && cfg.KeyOf(next.id) == key)), bk)
    else if !bigger then
      Local(sh, th.(phase := Read(level, next, lastBigger)), bk)
    else
      Local(sh, th.(phase := Read(level - 1, x, next)), bk)
  }

  /** A thread's phase fits its operation. */
  predicate PhaseFits(cfg: Config, t: nat, th: Thread) {
    && cfg.IsOp(t)
    && match th.phase {
         case Idle => true
         case Done(_) => true
         case Read(_, _, _) => cfg.ops[t].Contains?
         case _ => cfg.ops[t].Insert?
       }
  }

  function StepLocal(cfg: Config, sh: Shared, t: nat, th: Thread, bk: Book, spurious: bool): Local
    requires cfg.WellFormed() && PhaseFits(cfg, t, th) && Shape(cfg, sh, th, bk)
  {
    match th.phase
    case Idle => StepIdle(cfg, sh, t, th, bk)
    case Raise(_) => StepRaise(cfg, sh, t, th, bk, spurious)
    case Search(_, _, _, _) => StepSearch(cfg, sh, t, th, bk)
    case Store(_) => StepStore(cfg, sh, t, th, bk)
    case Cas(_) => StepCas(cfg, sh, t, th, bk)
    case Read(_, _, _) => StepRead(cfg, sh, t, th, bk)
    case Done(_) => Local(sh, th, bk)
    case Overrun => Local(sh, th, bk)
  }

  // ---------------------------------------------------------------------------------------
  // The invariant
  // ---------------------------------------------------------------------------------------

  predicate IsNode(l: Level, r: Ref) {
    r.Head? || (r.Ptr? && r.id in l.linked)
  }

  /** `s` is the immediate successor of `r` within `nodes`, in key order. */
  ghost predicate IsSuccessor(cfg: Config, nodes: set<nat>, r: Ref, s: Ref) {
    match s
    case Head => false
    case Null => forall m | m in nodes :: !cfg.After(r, m)
    case Ptr(q) =>
      && q in nodes && cfg.After(r, q)
      && forall m | m in nodes && cfg.After(r, m) :: m == q || cfg.Before(s, cfg.KeyOf(m))
  }

  /** Every link of a linked node is the immediate successor, and keys are unique: the level is
      an acyclic strictly sorted list (see `LevelIsSortedList`). */
  ghost predicate LevelOk(cfg: Config, l: Level, level: nat) {
    && (forall n | n in l.linked :: cfg.IsOp(n) && cfg.ops[n].Insert? && level < cfg.ops[n].height)
    && (forall m, n | m in l.linked && n in l.linked && m != n :: cfg.KeyOf(m) != cfg.KeyOf(n))
    && (forall r | IsNode(l, r) :: r in l.next && IsSuccessor(cfg, l.linked, r, l.next[r]))
  }

  ghost predicate SharedOk(cfg: Config, sh: Shared) {
    && |sh.levels| == cfg.maxLevels
    && 1 <= sh.maxHeight <= cfg.maxLevels
    && sh.maxHeight < SPLICE_SLOTS
    && (forall i | 0 <= i < |sh.levels| :: LevelOk(cfg, sh.levels[i], i))
    && (forall i, j | 0 <= i <= j < |sh.levels| :: sh.levels[j].linked <= sh.levels[i].linked)
  }

  /** A possible end of the bracket around `key`: the end of the list, or a linked node whose
      key is not smaller. */
  predicate NotBefore(cfg: Config, l: Level, r: Ref, key: Key) {
    r.Null? || (r.Ptr? && r.id in l.linked && cfg.IsOp(r.id) && cfg.KeyOf(r.id) >= key)
  }

  predicate Brackets(cfg: Config, l: Level, prev: Ref, next: Ref, key: Key) {
    && IsNode(l, prev) && cfg.Before(prev, key)
    && NotBefore(cfg, l, next, key)
  }

  /** The bookkeeping of one level: every failed CAS is paid for by a node that another thread
      linked after the call began. */
  predicate BookOk(l: Level, t: nat, start: set<nat>, snap: set<nat>, fails: nat) {
    && start <= snap <= l.linked
    && t !in snap
    && fails + |start| <= |snap|
  }

  /** The splice of one level: it brackets the key, and it is exact unless another node was
      linked at this level since it was read. */
  predicate SpliceOk(cfg: Config, l: Level, prev: Ref, next: Ref, snap: set<nat>, key: Key) {
    && Brackets(cfg, l, prev, next, key)
    && (snap == l.linked ==> prev in l.next && l.next[prev] == next)
  }

  ghost predicate LinkedBelow(sh: Shared, t: nat, level: nat) {
    forall j | 0 <= j < |sh.levels| :: t in sh.levels[j].linked <==> j < level
  }

  ghost predicate BooksOk(cfg: Config, sh: Shared, t: nat, bk: Book) {
    forall j | 0 <= j < |sh.levels| && j < |bk.start| && j < |bk.snap| && j < |bk.fails| ::
      BookOk(sh.levels[j], t, bk.start[j], bk.snap[j], bk.fails[j])
  }

  ghost predicate SplicesOk(cfg: Config, sh: Shared, t: nat, th: Thread, bk: Book, lo: nat, hi: nat)
    requires cfg.IsOp(t)
  {
    forall j | lo <= j < hi && j < |sh.levels| && j < |th.prev| && j < |th.next| && j < |bk.snap| ::
      SpliceOk(cfg, sh.levels[j], th.prev[j], th.next[j], bk.snap[j], cfg.KeyOf(t))
  }

  ghost predicate KeyPresent(cfg: Config, sh: Shared, key: Key) {
    0 < |sh.levels| && exists n :: n in sh.levels[0].linked && cfg.IsOp(n) && cfg.KeyOf(n) == key
  }

  ghost predicate InsertOk(cfg: Config, sh: Shared, t: nat, th: Thread, bk: Book)
    requires cfg.IsOp(t) && cfg.ops[t].Insert? && Shape(cfg, sh, th, bk)
  {
    var key := cfg.KeyOf(t);
    var height := cfg.ops[t].height;
    match th.phase
    case Idle => LinkedBelow(sh, t, 0) && (forall j | 0 <= j < |bk.fails| :: bk.fails[j] == 0)
    case Raise(seen) => LinkedBelow(sh, t, 0) && BooksOk(cfg, sh, t, bk) && 1 <= seen <= sh.maxHeight && seen < height
    case Search(level, before, after, retry) =>
      && BooksOk(cfg, sh, t, bk)
      && Brackets(cfg, sh.levels[level], before, after, key)
      && height <= sh.maxHeight
      && SplicesOk(cfg, sh, t, th, bk, level + 1, height)
      && LinkedBelow(sh, t, if retry then level else 0)
      && (retry ==> after.Null? && level < height)
    case Store(level) =>
      && BooksOk(cfg, sh, t, bk) && level < height <= sh.maxHeight
      && LinkedBelow(sh, t, level) && SplicesOk(cfg, sh, t, th, bk, level, height)
    case Cas(level) =>
      && BooksOk(cfg, sh, t, bk) && level < height <= sh.maxHeight
      && LinkedBelow(sh, t, level) && SplicesOk(cfg, sh, t, th, bk, level, height)
      && Ptr(t) in sh.levels[level].next && sh.levels[level].next[Ptr(t)] == th.next[level]
      && (th.next[level].Ptr? ==> cfg.IsOp(th.next[level].id) && cfg.KeyOf(th.next[level].id) > key)
    case Done(result) =>
      && BooksOk(cfg, sh, t, bk) && height <= sh.maxHeight
      && (if result then LinkedBelow(sh, t, height) else LinkedBelow(sh, t, 0) && KeyPresent(cfg, sh, key))
    case Read(_, _, _) => false
    case Overrun => false
  }

  ghost predicate ContainsOk(cfg: Config, sh: Shared, t: nat, th: Thread, bk: Book)
    requires cfg.IsOp(t) && Shape(cfg, sh, th, bk)
  {
    && LinkedBelow(sh, t, 0)
    && match th.phase {
         case Idle => true
         case Done(_) => true
         case Read(level, x, lastBigger) =>
           && IsNode(sh.levels[level], x) && cfg.Before(x, cfg.KeyOf(t))
           && NotBefore(cfg, sh.levels[level], lastBigger, cfg.KeyOf(t))
           && (lastBigger.Ptr? ==> cfg.KeyOf(lastBigger.id) > cfg.KeyOf(t))
         case _ => false
       }
  }

  ghost predicate ThreadOk(cfg: Config, sh: Shared, t: nat, th: Thread, bk: Book)
    requires cfg.Valid()
  {
    && PhaseFits(cfg, t, th)
    && Shape(cfg, sh, th, bk)
    && (if cfg.ops[t].Insert? then InsertOk(cfg, sh, t, th, bk) else ContainsOk(cfg, sh, t, th, bk))
  }
}
