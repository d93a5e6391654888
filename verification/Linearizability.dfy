/** Every run of concurrent inserts and lookups is linearizable with respect to a sequential set. */
module Linearizability {
  import opened Keys
  import opened ConcurrentSkipList
  import opened ConcurrentSteps
  import opened ConcurrentRuns

  // ---------------------------------------------------------------------------------------
  // The sequential specification
  // ---------------------------------------------------------------------------------------

  /** The answer of an operation on a set of keys. */
  predicate Answer(op: Op, keys: set<Key>) {
    match op
    case Insert(key, _) => key !in keys
    case Contains(key) => key in keys
  }

  function Effect(op: Op, keys: set<Key>): set<Key> {
    match op
    case Insert(key, _) => keys + {key}
    case Contains(_) => keys
  }

  /** Operation `t` took effect with this answer. */
  datatype Event = Event(t: nat, result: bool)

  ghost predicate EventsFit(cfg: Config, events: seq<Event>) {
    forall k | 0 <= k < |events| :: cfg.IsOp(events[k].t)
  }

  /** The set after a sequence of operations, starting empty. */
  ghost function Replay(cfg: Config, events: seq<Event>): set<Key>
    requires EventsFit(cfg, events)
  {
    if events == [] then {}
    else Effect(cfg.ops[events[|events| - 1].t], Replay(cfg, events[..|events| - 1]))
  }

  /** Every answer is the one the sequential set gives at that point. */
  ghost predicate Legal(cfg: Config, events: seq<Event>)
    requires EventsFit(cfg, events)
  {
    forall k | 0 <= k < |events| :: events[k].result == Answer(cfg.ops[events[k].t], Replay(cfg, events[..k]))
  }

  // ---------------------------------------------------------------------------------------
  // Linearization points
  // ---------------------------------------------------------------------------------------

  /** The operation has taken effect: an insert when its node is linked at level 0 or when it
      gives up on a duplicate, a lookup with its last read. */
  ghost predicate TookEffect(s: State, t: nat) {
    t < |s.threads| && (s.threads[t].phase.Done? || LinkedAtZero(s, t))
  }

  /** The operation answers true once it is linked at level 0, or when it returns true. */
  ghost predicate Answered(s: State, t: nat, result: bool) {
    t < |s.threads| && result == (LinkedAtZero(s, t) || s.threads[t].phase == Done(true))
  }

  ghost predicate LinkedAtZero(s: State, t: nat) {
    0 < |s.shared.levels| && t in s.shared.levels[0].linked
  }

  /** The event of a step, if the stepping operation takes effect with it: it is linked at level 0
      now, or its answer is known now. */
  ghost function EventOf(s: State, c: Choice, s': State): seq<Event> {
    if TookEffect(s, c.t) || !TookEffect(s', c.t) then [] else [Event(c.t, Answered(s', c.t, true))]
  }

  /** The events of the first `n` steps. */
  ghost function Events(sched: seq<Choice>, run: seq<State>, n: nat): (events: seq<Event>)
    requires n <= |sched| < |run|
    decreases n
  {
    if n == 0 then [] else Events(sched, run, n - 1) + EventOf(run[n - 1], sched[n - 1], run[n])
  }

  ghost function KeysOf(cfg: Config, sh: Shared): set<Key> {
    if sh.levels == [] then {} else set n | n in sh.levels[0].linked && cfg.IsOp(n) :: cfg.KeyOf(n)
  }

  // ---------------------------------------------------------------------------------------
  // Forward simulation
  // ---------------------------------------------------------------------------------------

  lemma PresentIffInSet(cfg: Config, sh: Shared, key: Key)
    requires 0 < |sh.levels|
    ensures KeyPresent(cfg, sh, key) <==> key in KeysOf(cfg, sh)
  {
  }

  /** The linking CAS at level 0 adds exactly the key, which was absent. */
  lemma LinkAtLevelZero(cfg: Config, sh: Shared, t: nat, th: Thread, bk: Book)
    requires cfg.Valid() && SharedOk(cfg, sh) && ThreadOk(cfg, sh, t, th, bk) && th.phase == Cas(0)
    requires LinkOf(sh, 0, th.prev[0]) == th.next[0]
    ensures var sh' := StepCas(cfg, sh, t, th, bk).shared;
            cfg.KeyOf(t) !in KeysOf(cfg, sh) && KeysOf(cfg, sh') == KeysOf(cfg, sh) + {cfg.KeyOf(t)}
  {
    var l := sh.levels[0];
    var sh' := StepCas(cfg, sh, t, th, bk).shared;
    assert SpliceOk(cfg, l, th.prev[0], th.next[0], bk.snap[0], cfg.KeyOf(t));
    assert LevelOk(cfg, l, 0);
    GapMeansAbsent(cfg, l, 0, th.prev[0], cfg.KeyOf(t));
    assert sh'.levels[0].linked == l.linked + {t};
    forall k | k in KeysOf(cfg, sh) + {cfg.KeyOf(t)} ensures k in KeysOf(cfg, sh') {
      if k != cfg.KeyOf(t) {
        var n :| n in l.linked && cfg.IsOp(n) && cfg.KeyOf(n) == k;
        assert n in sh'.levels[0].linked;
      } else {
        assert t in sh'.levels[0].linked;
      }
    }
  }

  lemma NoLinkAtLevelZero(cfg: Config, s: State, c: Choice, s': State)
    requires Inv(cfg, s) && TakesStep(cfg, s, c, s') && Inv(cfg, s')
    requires !(s.threads[c.t].phase == Cas(0) && LinkOf(s.shared, 0, s.threads[c.t].prev[0]) == s.threads[c.t].next[0])
    ensures s'.shared.levels[0].linked == s.shared.levels[0].linked
    ensures KeysOf(cfg, s'.shared) == KeysOf(cfg, s.shared)
  {
    assert ThreadOk(cfg, s.shared, c.t, s.threads[c.t], s.books[c.t]);
  }

  /** What one step means for the abstract set: nothing, or one operation with its right answer. */
  ghost predicate Simulates(cfg: Config, s: State, c: Choice, s': State)
    requires cfg.IsOp(c.t)
  {
    var keys, keys' := KeysOf(cfg, s.shared), KeysOf(cfg, s'.shared);
    var e := EventOf(s, c, s');
    if e == [] then keys' == keys
    else e[0].result == Answer(cfg.ops[c.t], keys) && keys' == Effect(cfg.ops[c.t], keys)
  }

  lemma StepSimulates(cfg: Config, s: State, c: Choice, s': State)
    requires Inv(cfg, s) && TakesStep(cfg, s, c, s') && Inv(cfg, s')
    ensures Simulates(cfg, s, c, s')
  {
    var sh, th, bk := s.shared, s.threads[c.t], s.books[c.t];
    assert ThreadOk(cfg, sh, c.t, th, bk);
    if th.phase == Cas(0) && LinkOf(sh, 0, th.prev[0]) == th.next[0] {
      LinkAtLevelZero(cfg, sh, c.t, th, bk);
    } else {
      NoLinkAtLevelZero(cfg, s, c, s');
      PresentIffInSet(cfg, sh, cfg.KeyOf(c.t));
      if EventOf(s, c, s') != [] {
        AnswerIsKnown(cfg, s, c, s');
      }
    }
  }

  /** A step after which the answer of a thread is known, other than by linking at level 0. */
  lemma AnswerIsKnown(cfg: Config, s: State, c: Choice, s': State)
    requires Inv(cfg, s) && TakesStep(cfg, s, c, s') && Inv(cfg, s')
    requires s'.shared.levels[0].linked == s.shared.levels[0].linked
    requires !TookEffect(s, c.t) && TookEffect(s', c.t)
    ensures Answered(s', c.t, true) <==> cfg.ops[c.t].Contains? && KeyPresent(cfg, s.shared, cfg.KeyOf(c.t))
    ensures cfg.ops[c.t].Insert? ==> KeyPresent(cfg, s.shared, cfg.KeyOf(c.t))
  {
    var sh, th, bk := s.shared, s.threads[c.t], s.books[c.t];
    assert ThreadOk(cfg, sh, c.t, th, bk);
    assert ThreadOk(cfg, s'.shared, c.t, s'.threads[c.t], s'.books[c.t]);
    if th.phase.Read? {
      ReadOk(cfg, sh, c.t, th, bk);
    }
  }

  /** One more event with the right answer keeps a history legal. */
  lemma {:induction false} LegalExtends(cfg: Config, before: seq<Event>, e: Event)
    requires EventsFit(cfg, before) && Legal(cfg, before)
    requires cfg.IsOp(e.t) && e.result == Answer(cfg.ops[e.t], Replay(cfg, before))
    ensures EventsFit(cfg, before + [e]) && Legal(cfg, before + [e])
    ensures Replay(cfg, before + [e]) == Effect(cfg.ops[e.t], Replay(cfg, before))
  {
    var all := before + [e];
    assert all[..|all| - 1] == before;
    forall k | 0 <= k < |all| ensures all[k].result == Answer(cfg.ops[all[k].t], Replay(cfg, all[..k])) {
      assert all[..k] == before[..k];
      if k == |before| {
        assert all[..k] == before;
      }
    }
  }

  lemma SimulatedStepIsLegal(cfg: Config, s: State, c: Choice, s': State, before: seq<Event>)
    requires cfg.IsOp(c.t) && Simulates(cfg, s, c, s')
    requires EventsFit(cfg, before) && Legal(cfg, before) && KeysOf(cfg, s.shared) == Replay(cfg, before)
    ensures EventsFit(cfg, before + EventOf(s, c, s')) && Legal(cfg, before + EventOf(s, c, s'))
    ensures KeysOf(cfg, s'.shared) == Replay(cfg, before + EventOf(s, c, s'))
  {
    var e := EventOf(s, c, s');
    if e == [] {
      assert before + e == before;
    } else {
      assert e == [e[0]] && e[0].t == c.t;
      LegalExtends(cfg, before, e[0]);
    }
  }

  /** The events of a run form a legal sequential history, and the keys linked at level 0 are what
      that history leaves. */
  lemma {:induction false} EventsAreLegal(cfg: Config, sched: seq<Choice>, run: seq<State>, n: nat)
    requires IsRun(cfg, sched, run) && n <= |sched|
    ensures EventsFit(cfg, Events(sched, run, n)) && Legal(cfg, Events(sched, run, n))
    ensures KeysOf(cfg, run[n].shared) == Replay(cfg, Events(sched, run, n))
    decreases n
  {
    if n == 0 {
    } else {
      EventsAreLegal(cfg, sched, run, n - 1);
      RunStep(cfg, sched, run, n - 1);
      StepSimulates(cfg, run[n - 1], sched[n - 1], run[n]);
      SimulatedStepIsLegal(cfg, run[n - 1], sched[n - 1], run[n], Events(sched, run, n - 1));
    }
  }

  // ---------------------------------------------------------------------------------------
  // Every operation has its event, inside its interval
  // ---------------------------------------------------------------------------------------

  /** An operation's first effect fixes its answer for good. */
  lemma EffectIsFinal(cfg: Config, s: State, c: Choice, s': State, t: nat)
    requires Inv(cfg, s) && TakesStep(cfg, s, c, s') && Inv(cfg, s') && cfg.IsOp(t)
    requires TookEffect(s, t) || t != c.t
    ensures TookEffect(s', t) == TookEffect(s, t)
    ensures forall r | Answered(s, t, r) :: Answered(s', t, r)
  {
    StepKeepsInv(cfg, s, c, s');
    assert ThreadOk(cfg, s.shared, t, s.threads[t], s.books[t]);
    assert ThreadOk(cfg, s'.shared, t, s'.threads[t], s'.books[t]);
    assert LevelExtends(s.shared.levels[0], s'.shared.levels[0], c.t);
  }

  ghost predicate HasEvent(events: seq<Event>, t: nat) {
    exists k :: 0 <= k < |events| && events[k].t == t
  }

  /** Operation `t` has an event exactly if it took effect, only one, and with its own answer. */
  ghost predicate EventsMatch(s: State, events: seq<Event>, t: nat) {
    && (HasEvent(events, t) <==> TookEffect(s, t))
    && (forall k | 0 <= k < |events| && events[k].t == t :: Answered(s, t, events[k].result))
    && (forall j, k | 0 <= j < |events| && 0 <= k < |events| && events[j].t == t && events[k].t == t :: j == k)
  }

  lemma StepMatches(cfg: Config, s: State, c: Choice, s': State, t: nat, events: seq<Event>)
    requires Inv(cfg, s) && TakesStep(cfg, s, c, s') && Inv(cfg, s') && cfg.IsOp(t) && EventsMatch(s, events, t)
    ensures EventsMatch(s', events + EventOf(s, c, s'), t)
  {
    var e := EventOf(s, c, s');
    var all := events + e;
    if HasEvent(events, t) {
      var k :| 0 <= k < |events| && events[k].t == t;
      assert all[k].t == t;
    }
    if TookEffect(s, t) || t != c.t {
      EffectIsFinal(cfg, s, c, s', t);
      assert forall k | 0 <= k < |e| :: e[k].t != t;
    } else if e != [] {
      assert all[|events|].t == t;
    }
  }

  lemma {:induction false} OneEventEach(cfg: Config, sched: seq<Choice>, run: seq<State>, n: nat, t: nat)
    requires IsRun(cfg, sched, run) && n <= |sched| && cfg.IsOp(t)
    ensures EventsMatch(run[n], Events(sched, run, n), t)
    decreases n
  {
    if n == 0 {
      assert !TookEffect(run[0], t);
    } else {
      OneEventEach(cfg, sched, run, n - 1, t);
      RunStep(cfg, sched, run, n - 1);
      StepMatches(cfg, run[n - 1], sched[n - 1], run[n], t, Events(sched, run, n - 1));
    }
  }

  lemma {:induction false} EventsGrow(sched: seq<Choice>, run: seq<State>, m: nat, n: nat)
    requires m <= n <= |sched| < |run|
    ensures Events(sched, run, m) <= Events(sched, run, n)
    decreases n
  {
    if m == n {
    } else {
      EventsGrow(sched, run, m, n - 1);
    }
  }

  // ---------------------------------------------------------------------------------------
  // Main results
  // ---------------------------------------------------------------------------------------

  /** `order` is a linearization of what has returned: every answer in it is the one the
      sequential set gives there, it leaves the keys now linked, no operation occurs twice, and
      every operation that returned occurs with the answer it returned. */
  ghost predicate Linearizes(cfg: Config, s: State, order: seq<Event>) {
    && EventsFit(cfg, order)
    && |s.threads| == |cfg.ops| && 0 < |s.shared.levels|
    && Legal(cfg, order)
    && Replay(cfg, order) == KeysOf(cfg, s.shared)
    && (forall j, k | 0 <= j < k < |order| :: order[j].t != order[k].t)
    && (forall t: nat, r | cfg.IsOp(t) && s.threads[t].phase == Done(r) :: Event(t, r) in order)
  }

  lemma ReturnedHasEvent(cfg: Config, s: State, order: seq<Event>, t: nat, r: bool)
    requires Inv(cfg, s) && cfg.IsOp(t) && s.threads[t].phase == Done(r)
    requires EventsMatch(s, order, t)
    ensures Event(t, r) in order
  {
    assert ThreadOk(cfg, s.shared, t, s.threads[t], s.books[t]);
    var k :| 0 <= k < |order| && order[k].t == t;
    assert order[k].result == r by {
      assert LevelOk(cfg, s.shared.levels[0], 0);
    }
    assert order[k] == Event(t, r);
  }

  /** Every reachable state has a linearization. */
  lemma {:induction false} RunsAreLinearizable(cfg: Config, sched: seq<Choice>, run: seq<State>, n: nat)
    requires IsRun(cfg, sched, run) && n <= |sched|
    ensures Linearizes(cfg, run[n], Events(sched, run, n))
  {
    var s, order := run[n], Events(sched, run, n);
    RunKeepsInv(cfg, sched, run, n);
    EventsAreLegal(cfg, sched, run, n);
    forall j, k | 0 <= j < k < |order| ensures order[j].t != order[k].t {
      OneEventEach(cfg, sched, run, n, order[j].t);
    }
    forall t: nat, r | cfg.IsOp(t) && s.threads[t].phase == Done(r) ensures Event(t, r) in order {
      OneEventEach(cfg, sched, run, n, t);
      ReturnedHasEvent(cfg, s, order, t, r);
    }
  }

  lemma IdleHasNoEvent(cfg: Config, s: State, order: seq<Event>, t: nat)
    requires Inv(cfg, s) && cfg.IsOp(t) && s.threads[t].phase.Idle? && EventsMatch(s, order, t)
    ensures !HasEvent(order, t)
  {
    assert ThreadOk(cfg, s.shared, t, s.threads[t], s.books[t]);
  }

  /** The linearization respects real time: an operation that returned before another began comes
      before it. */
  lemma {:induction false} LinearizationRespectsRealTime(
      cfg: Config, sched: seq<Choice>, run: seq<State>, m: nat, n: nat, a: nat, b: nat, j: nat, k: nat)
    requires IsRun(cfg, sched, run) && m <= n <= |sched| && cfg.IsOp(a) && cfg.IsOp(b)
    requires Returned(run[m], a, true) || Returned(run[m], a, false)
    requires b < |run[m].threads| && run[m].threads[b].phase.Idle?
    requires j < |Events(sched, run, n)| && Events(sched, run, n)[j].t == a
    requires k < |Events(sched, run, n)| && Events(sched, run, n)[k].t == b
    ensures j < k
  {
    var early, late := Events(sched, run, m), Events(sched, run, n);
    RunKeepsInv(cfg, sched, run, m);
    EventsGrow(sched, run, m, n);
    OneEventEach(cfg, sched, run, m, a);
    OneEventEach(cfg, sched, run, n, a);
    OneEventEach(cfg, sched, run, m, b);
    IdleHasNoEvent(cfg, run[m], early, b);
    var i :| 0 <= i < |early| && early[i].t == a;
    assert late[i].t == a;
    forall l | 0 <= l < |early| ensures late[l].t != b {
      assert late[l] == early[l];
    }
  }

  /** Step `k` of the run is the last read of lookup `t`. */
  ghost predicate IsLastRead(sched: seq<Choice>, run: seq<State>, t: nat, k: nat) {
    && k < |sched| < |run| && sched[k].t == t
    && t < |run[k].threads| && run[k].threads[t].phase.Read?
    && t < |run[k + 1].threads| && run[k + 1].threads[t].phase.Done?
  }

  lemma LastReadStep(cfg: Config, s: State, c: Choice, s': State, t: nat)
    requires Inv(cfg, s) && TakesStep(cfg, s, c, s') && cfg.IsOp(t) && cfg.ops[t].Contains?
    ensures t < |s'.threads|
    ensures s.threads[t].phase.Done? ==> s'.threads[t].phase == s.threads[t].phase
    ensures !s.threads[t].phase.Done? && s'.threads[t].phase.Done? ==>
              && c.t == t && s.threads[t].phase.Read?
              && (s'.threads[t].phase.result <==> KeyPresent(cfg, s.shared, cfg.KeyOf(t)))
  {
    assert ThreadOk(cfg, s.shared, t, s.threads[t], s.books[t]);
    if c.t == t && s.threads[t].phase.Read? {
      ReadOk(cfg, s.shared, t, s.threads[t], s.books[t]);
    }
  }

  /** A lookup that returned answered for the state at its last read, a state between its call and
      its return: true exactly when its key was linked at level 0 there. */
  lemma {:induction false} ContainsAnswersForItsLastRead(cfg: Config, sched: seq<Choice>, run: seq<State>, n: nat,
                                                         t: nat)
    returns (k: nat)
    requires IsRun(cfg, sched, run) && n <= |sched| && cfg.IsOp(t) && cfg.ops[t].Contains?
    requires t < |run[n].threads| && run[n].threads[t].phase.Done?
    ensures k < n && IsLastRead(sched, run, t, k)
    ensures run[n].threads[t].phase.result <==> KeyPresent(cfg, run[k].shared, cfg.KeyOf(t))
    decreases n
  {
    assert n > 0;
    RunStep(cfg, sched, run, n - 1);
    LastReadStep(cfg, run[n - 1], sched[n - 1], run[n], t);
    if run[n - 1].threads[t].phase.Done? {
      k := ContainsAnswersForItsLastRead(cfg, sched, run, n - 1, t);
    } else {
      k := n - 1;
    }
  }
}
