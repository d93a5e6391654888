/** Whole runs of the log: any appends, write-backs, power failures and recoveries, in any order. */
module LogRuns {
  import opened Integers
  import opened Slices
  import opened LogFormat
  import opened LogProgram
  import opened LogCrash

  type Run = seq<State>

  ghost predicate TakesStep(events: seq<Event>, run: Run, n: nat)
    requires n < |events| && n + 1 < |run|
  {
    Enabled(run[n], events[n]) && run[n + 1] == Step(run[n], events[n])
  }

  /** A run starts on a region that holds a log, with everything on the medium: a region made
      before, or a new one, which is all zeros. */
  ghost predicate IsRun(mem: Slice, hist: History, events: seq<Event>, run: Run) {
    && IsLog(mem, hist)
    && |run| == |events| + 1
    && run[0] == Recovered(mem, hist)
    && (forall n {:trigger TakesStep(events, run, n)} :: 0 <= n < |events| ==> TakesStep(events, run, n))
  }

  ghost predicate AllFit32(events: seq<Event>) {
    forall n :: 0 <= n < |events| ==> Fits32(events[n])
  }

  lemma {:induction false} ZerosAreZero(bytes: Slice)
    requires forall i :: 0 <= i < |bytes| ==> bytes[i] == 0
    ensures FromLittleEndian(bytes) == 0
  {
    if bytes == [] {
    } else {
      ZerosAreZero(bytes[1..]);
    }
  }

  /** A new region holds the empty log. */
  lemma NewRegionIsEmptyLog(mem: Slice)
    requires WORD <= |mem| < TWO_TO_64 && forall i :: 0 <= i < |mem| ==> mem[i] == 0
    ensures IsLog(mem, [])
  {
    ZerosAreZero(mem[..WORD]);
  }

  lemma {:induction false} RunKeepsInv(mem: Slice, hist: History, events: seq<Event>, run: Run, n: nat)
    requires IsRun(mem, hist, events, run) && AllFit32(events) && n < |run|
    ensures Inv(run[n])
  {
    if n == 0 {
      LogIsInv(mem, hist);
    } else {
      RunKeepsInv(mem, hist, events, run, n - 1);
      assert TakesStep(events, run, n - 1);
      StepKeepsInv(run[n - 1], events[n - 1]);
    }
  }

  // ---------------------------------------------------------------------------------------
  // Safety
  // ---------------------------------------------------------------------------------------

  /** If the power fails at any point of any run, recovery finds a prefix of the records appended
      so far, so no torn record, no stale one and none out of order, and goes on with a log of
      exactly that prefix. */
  lemma CrashRecoversAPrefix(mem: Slice, hist: History, events: seq<Event>, run: Run, n: nat)
    requires IsRun(mem, hist, events, run) && AllFit32(events) && n < |run|
    ensures run[n].State? && |run[n].medium| >= WORD
    ensures Recover(run[n].medium).Read? && Recover(run[n].medium).value <= run[n].hist
    ensures IsLog(run[n].medium, Recover(run[n].medium).value)
  {
    RunKeepsInv(mem, hist, events, run, n);
    MediumIsLog(run[n]);
  }

  /** An append adds its own record at the end, a power failure cuts the history to what recovery
      finds, and nothing else changes it. */
  ghost predicate HistoryChanges(s: State, e: Event, t: State) {
    && s.State? && t.State?
    && (e.Crash? ==> t.hist <= s.hist && t.call == Idle)
    && (!e.Crash? && s.call.Appending? && t.call == Idle ==> t.hist == s.hist + [s.call.record])
    && (!e.Crash? && !(s.call.Appending? && t.call == Idle) ==> t.hist == s.hist)
  }

  lemma StepChangesHistory(s: State, e: Event)
    requires Inv(s) && Enabled(s, e) && Inv(Step(s, e))
    ensures HistoryChanges(s, e, Step(s, e))
  {
    if e.Crash? {
      CrashKeepsInv(s);
    } else if e.Exec? {
      ExecKeepsCounter(s);
    }
  }

  lemma HistoryStep(mem: Slice, hist: History, events: seq<Event>, run: Run, n: nat)
    requires IsRun(mem, hist, events, run) && AllFit32(events) && n < |events|
    ensures HistoryChanges(run[n], events[n], run[n + 1])
  {
    RunKeepsInv(mem, hist, events, run, n);
    RunKeepsInv(mem, hist, events, run, n + 1);
    assert TakesStep(events, run, n);
    StepChangesHistory(run[n], events[n]);
  }

  /** A failure loses no record whose counter reached the medium: later histories extend it. */
  lemma {:induction false} PersistedRecordsStay(mem: Slice, hist: History, events: seq<Event>, run: Run, i: nat, j: nat)
    requires IsRun(mem, hist, events, run) && AllFit32(events) && i <= j < |run|
    ensures Inv(run[i]) && Inv(run[j])
    ensures run[i].hist[..Counter(run[i].medium)] <= run[j].hist[..Counter(run[j].medium)]
  {
    RunKeepsInv(mem, hist, events, run, i);
    RunKeepsInv(mem, hist, events, run, j);
    if i == j {
    } else {
      PersistedRecordsStay(mem, hist, events, run, i, j - 1);
      assert TakesStep(events, run, j - 1);
      MediumOnlyGains(run[j - 1], events[j - 1]);
    }
  }

  lemma MediumOnlyGains(s: State, e: Event)
    requires Inv(s) && Enabled(s, e) && Fits32(e) && Inv(Step(s, e))
    ensures s.hist[..Counter(s.medium)] <= Step(s, e).hist[..Counter(Step(s, e).medium)]
  {
    var t := Step(s, e);
    match e
    case Begin(_) =>
    case Exec => ExecKeepsCounter(s);
    case Evict(off) => assert t.medium[..WORD] == s.medium[..WORD];
    case EvictCounter => EvictCounterKeepsInv(s);
    case Crash => CrashKeepsInv(s);
  }

  /** Actions of an append leave the counter on the medium alone. */
  lemma ExecKeepsCounter(s: State)
    requires Inv(s) && Enabled(s, Exec)
    ensures Step(s, Exec).State? && |Step(s, Exec).medium| == |s.medium|
    ensures Counter(Step(s, Exec).medium) == Counter(s.medium)
    ensures s.hist <= Step(s, Exec).hist
  {
    AppendIsOrderly(s.endOff, s.call.record, s.call.pc);
    assert Step(s, Exec).medium[..WORD] == s.medium[..WORD];
  }

  // ---------------------------------------------------------------------------------------
  // Durability: nothing persists the counter
  // ---------------------------------------------------------------------------------------

  /** Is event `n` the increment of the counter, which ends an append? */
  ghost predicate IsBump(events: seq<Event>, run: Run, n: nat)
    requires n < |events| && n < |run|
  {
    && events[n].Exec?
    && run[n].State? && run[n].call.Appending?
    && run[n].call.pc == RecordLength(run[n].call.record) - 1
  }

  /** From after `i` until `j` the power does not fail. Other appends may begin and end. */
  ghost predicate NoFailure(events: seq<Event>, i: nat, j: nat)
    requires j <= |events|
  {
    forall n :: i < n < j ==> !events[n].Crash?
  }

  ghost predicate CounterEvicted(events: seq<Event>, i: nat, j: nat)
    requires j <= |events|
  {
    exists n :: i < n < j && events[n].EvictCounter?
  }

  lemma BumpStep(s: State)
    requires Inv(s) && s.call.Appending? && s.call.pc == RecordLength(s.call.record) - 1
    ensures Step(s, Exec).State? && Step(s, Exec).hist == s.hist + [s.call.record]
    ensures Inv(Step(s, Exec)) && Counter(Step(s, Exec).medium) < |Step(s, Exec).hist|
  {
    ExecKeepsCounter(s);
    BumpKeepsInv(s);
  }

  /** The record that the append ending with event `i` adds, behind those before it. */
  ghost function Acknowledged(run: Run, i: nat): History
    requires i < |run| && run[i].State? && run[i].call.Appending?
  {
    run[i].hist + [run[i].call.record]
  }

  lemma {:induction false} CounterPassesWhenEvicted(mem: Slice, hist: History, events: seq<Event>, run: Run,
                                                    i: nat, j: nat)
    requires IsRun(mem, hist, events, run) && AllFit32(events)
    requires i < j <= |events| && IsBump(events, run, i) && NoFailure(events, i, j)
    ensures Inv(run[j]) && Acknowledged(run, i) <= run[j].hist
    ensures Counter(run[j].medium) > |run[i].hist| <==> CounterEvicted(events, i, j)
  {
    var k := j - 1;
    RunKeepsInv(mem, hist, events, run, k);
    assert TakesStep(events, run, k);
    if k == i {
      BumpStep(run[i]);
      assert !CounterEvicted(events, i, j);
    } else {
      CounterPassesWhenEvicted(mem, hist, events, run, i, k);
      RunKeepsInv(mem, hist, events, run, j);
      CounterMoves(run[k], events[k]);
      EvictedBefore(events, i, k);
    }
  }

  lemma EvictedBefore(events: seq<Event>, i: nat, j: nat)
    requires i < j < |events|
    ensures CounterEvicted(events, i, j + 1) <==> CounterEvicted(events, i, j) || events[j].EvictCounter?
  {
  }

  /** Without a failure the history only grows, and only a write-back of the counter moves the counter
      on the medium. */
  lemma CounterMoves(s: State, e: Event)
    requires Inv(s) && Enabled(s, e) && !e.Crash? && Inv(Step(s, e))
    ensures s.hist <= Step(s, e).hist
    ensures Counter(Step(s, e).medium) == if e.EvictCounter? then |s.hist| else Counter(s.medium)
  {
    match e
    case Begin(_) =>
    case Exec => ExecKeepsCounter(s);
    case Evict(off) => assert Step(s, e).medium[..WORD] == s.medium[..WORD];
    case EvictCounter => EvictCounterKeepsInv(s);
  }

  /** After an append has ended, its record survives the next power failure, whenever that comes and
      whatever is appended before, exactly if the cache happens to write the counter back in
      between. */
  lemma DurableIffCounterEvicted(mem: Slice, hist: History, events: seq<Event>, run: Run, i: nat, j: nat)
    requires IsRun(mem, hist, events, run) && AllFit32(events)
    requires i < j <= |events| && IsBump(events, run, i) && NoFailure(events, i, j)
    ensures run[j].State? && Acknowledged(run, i) <= run[j].hist
    ensures |run[j].medium| >= WORD && Recover(run[j].medium).Read?
    ensures Acknowledged(run, i) <= Recover(run[j].medium).value <==> CounterEvicted(events, i, j)
  {
    CounterPassesWhenEvicted(mem, hist, events, run, i, j);
    MediumIsLog(run[j]);
    PrefixReaches(Acknowledged(run, i), run[j].hist, Counter(run[j].medium));
  }

  lemma PrefixReaches(a: History, h: History, m: nat)
    requires a <= h && m <= |h|
    ensures a <= h[..m] <==> m >= |a|
  {
  }

  /** And once the counter has been written back, the record survives every later failure too. */
  lemma EvictedRecordStays(mem: Slice, hist: History, events: seq<Event>, run: Run, i: nat, j: nat, k: nat)
    requires IsRun(mem, hist, events, run) && AllFit32(events)
    requires i < j <= k <= |events| && IsBump(events, run, i) && NoFailure(events, i, j)
    requires CounterEvicted(events, i, j)
    ensures run[k].State? && |run[k].medium| >= WORD && Recover(run[k].medium).Read?
    ensures Acknowledged(run, i) <= Recover(run[k].medium).value
  {
    DurableIffCounterEvicted(mem, hist, events, run, i, j);
    PersistedRecordsStay(mem, hist, events, run, j, k);
    MediumIsLog(run[j]);
    MediumIsLog(run[k]);
  }

  lemma ExtendRun(mem: Slice, hist: History, events: seq<Event>, run: Run, e: Event)
    requires IsRun(mem, hist, events, run) && Enabled(run[|events|], e)
    ensures IsRun(mem, hist, events + [e], run + [Step(run[|events|], e)])
  {
    var events2, run2 := events + [e], run + [Step(run[|events|], e)];
    forall n | 0 <= n < |events2| ensures TakesStep(events2, run2, n) {
      assert n < |events| ==> TakesStep(events, run, n);
    }
  }

  /** The medium after the chosen bytes have been written back. */
  ghost predicate WrittenBack(s: State, t: State, chosen: set<nat>, counter: bool) {
    && s.State? && t.State? && t == s.(medium := t.medium)
    && |t.medium| == |s.medium| == |s.mem|
    && forall x | 0 <= x < |s.mem| ::
         t.medium[x] == if (if x < WORD then counter else x in chosen) then s.mem[x] else s.medium[x]
  }

  lemma OneMoreWrittenBack(s: State, t: State, chosen: set<nat>, counter: bool, off: nat)
    requires WrittenBack(s, t, chosen, counter) && WORD <= off < |s.mem|
    ensures Enabled(t, Evict(off)) && WrittenBack(s, Step(t, Evict(off)), chosen + {off}, counter)
  {
  }

  /** The crash theorems face every partial write-back: from every state of every run, the cache may
      write back any choice of the bytes behind the counter, with or without the counter, and no
      other byte. */
  lemma {:induction false} AnyBytesMayBeWrittenBack(mem: Slice, hist: History, events: seq<Event>, run: Run,
                                                    chosen: set<nat>, counter: bool)
    returns (events2: seq<Event>, run2: Run)
    requires IsRun(mem, hist, events, run) && AllFit32(events)
    requires run[|events|].State? && forall x | x in chosen :: WORD <= x < |run[|events|].mem|
    ensures IsRun(mem, hist, events2, run2) && AllFit32(events2)
    ensures events <= events2 && run <= run2
    ensures WrittenBack(run[|events|], run2[|events2|], chosen, counter)
    decreases chosen
  {
    var s := run[|events|];
    RunKeepsInv(mem, hist, events, run, |events|);
    if chosen != {} {
      var off :| off in chosen;
      events2, run2 := AnyBytesMayBeWrittenBack(mem, hist, events, run, chosen - {off}, counter);
      var t := run2[|events2|];
      OneMoreWrittenBack(s, t, chosen - {off}, counter, off);
      assert chosen - {off} + {off} == chosen;
      ExtendRun(mem, hist, events2, run2, Evict(off));
      events2, run2 := events2 + [Evict(off)], run2 + [Step(t, Evict(off))];
    } else if counter {
      ExtendRun(mem, hist, events, run, EvictCounter);
      events2, run2 := events + [EvictCounter], run + [Step(s, EvictCounter)];
    } else {
      events2, run2 := events, run;
    }
  }

  /** The events of an append that nothing interrupts, up to `pc` of its actions. */
  function AppendEvents(r: Record, pc: nat): (events: seq<Event>)
    ensures |events| == pc + 1
  {
    [Begin(r)] + seq(pc, _ => Exec)
  }

  /** How an uninterrupted append proceeds. */
  ghost predicate AppendsSoFar(mem: Slice, hist: History, r: Record, pc: nat, s: State) {
    && s.State? && WORD <= |s.mem| == |s.medium| == |mem|
    && Counter(s.medium) == |hist|
    && Counter(s.mem) == (if pc < RecordLength(r) then |hist| else |hist| + 1)
    && s.endOff >= WORD
    && (pc < RecordLength(r) ==>
          s.call == Appending(r, pc) && s.hist == hist && s.endOff == WORD + |EncodeAll(hist)|)
    && (pc == RecordLength(r) ==> s.call == Idle && s.hist == hist + [r])
  }

  lemma AppendsOn(mem: Slice, hist: History, r: Record, pc: nat, s: State)
    requires AppendsSoFar(mem, hist, r, pc, s) && pc < RecordLength(r)
    requires |hist| + 1 < TWO_TO_64
    ensures Enabled(s, Exec) && AppendsSoFar(mem, hist, r, pc + 1, Step(s, Exec))
  {
    var a := RecordAction(s.endOff, r, pc);
    ActionsStayBehindCounter(s.endOff, r, pc);
    assert MediumAfter(a, s.mem, s.medium)[..WORD] == s.medium[..WORD];
    if a.Bump? {
      CounterAfterBump(s.mem, |hist|);
    } else {
      assert MemoryAfter(a, s.mem)[..WORD] == s.mem[..WORD];
    }
  }

  lemma ActionsStayBehindCounter(off: nat, r: Record, pc: nat)
    requires off >= WORD && pc < RecordLength(r)
    ensures RecordAction(off, r, pc).Persist? ==> RecordAction(off, r, pc).off >= WORD
    ensures RecordAction(off, r, pc).Put? ==> RecordAction(off, r, pc).off >= WORD
    ensures RecordAction(off, r, pc).Bump? <==> pc == RecordLength(r) - 1
  {
  }

  /** A barrier covers neither the last byte of a key that is too long, nor that of such a value. */
  function MissedByte(off: nat, r: Record): nat {
    if !Coverable(r.key) then off + WORD + |r.key| - 1 else off + RecordSize(r) - 1
  }

  lemma MissedByteIsMissed(off: nat, r: Record, pc: nat)
    requires pc < RecordLength(r) && !(Coverable(r.key) && Coverable(r.val))
    ensures var a := RecordAction(off, r, pc);
      a.Persist? ==> !(a.off <= MissedByte(off, r) < a.off + a.len)
  {
    assert |r.key| % TWO_TO_32 < TWO_TO_32 && |r.val| % TWO_TO_32 < TWO_TO_32;
  }

  ghost predicate KeepsMissedByte(mem: Slice, hist: History, r: Record, s: State) {
    var k := MissedByte(WORD + |EncodeAll(hist)|, r);
    !(Coverable(r.key) && Coverable(r.val)) ==>
      s.State? && k < |mem| && k < |s.medium| && s.medium[k] == mem[k]
  }

  lemma MissedByteStays(mem: Slice, hist: History, r: Record, pc: nat, s: State)
    requires AppendsSoFar(mem, hist, r, pc, s) && pc < RecordLength(r) && Enabled(s, Exec)
    requires KeepsMissedByte(mem, hist, r, s)
    ensures KeepsMissedByte(mem, hist, r, Step(s, Exec))
  {
    if !(Coverable(r.key) && Coverable(r.val)) {
      MissedByteIsMissed(s.endOff, r, pc);
    }
  }

  lemma OneMoreExec(r: Record, pc: nat)
    ensures AppendEvents(r, pc + 1) == AppendEvents(r, pc) + [Exec]
  {
  }

  /** An append can run without interruption, up to any of its actions. */
  lemma {:induction false} AppendRuns(mem: Slice, hist: History, r: Record, pc: nat) returns (run: Run)
    requires IsLog(mem, hist) && WORD + |EncodeAll(hist)| + RecordSize(r) <= |mem| && pc <= RecordLength(r)
    ensures IsRun(mem, hist, AppendEvents(r, pc), run)
    ensures AppendsSoFar(mem, hist, r, pc, run[pc + 1])
    ensures KeepsMissedByte(mem, hist, r, run[pc + 1])
  {
    if pc == 0 {
      run := AppendStarts(mem, hist, r);
    } else {
      var before := AppendRuns(mem, hist, r, pc - 1);
      run := AppendRunsOn(mem, hist, r, pc - 1, before);
    }
  }

  lemma AppendRunsOn(mem: Slice, hist: History, r: Record, pc: nat, before: Run) returns (run: Run)
    requires pc < RecordLength(r) && IsRun(mem, hist, AppendEvents(r, pc), before)
    requires AppendsSoFar(mem, hist, r, pc, before[pc + 1]) && KeepsMissedByte(mem, hist, r, before[pc + 1])
    ensures IsRun(mem, hist, AppendEvents(r, pc + 1), run)
    ensures AppendsSoFar(mem, hist, r, pc + 1, run[pc + 2]) && KeepsMissedByte(mem, hist, r, run[pc + 2])
  {
    var s := before[pc + 1];
    HistoryFits(mem, hist);
    AppendsOn(mem, hist, r, pc, s);
    MissedByteStays(mem, hist, r, pc, s);
    ExtendRun(mem, hist, AppendEvents(r, pc), before, Exec);
    OneMoreExec(r, pc);
    run := before + [Step(s, Exec)];
  }

  lemma HistoryFits(mem: Slice, hist: History)
    requires IsLog(mem, hist)
    ensures |hist| + 1 < TWO_TO_64
  {
    EncodeSize(hist);
  }

  lemma AppendStarts(mem: Slice, hist: History, r: Record) returns (run: Run)
    requires IsLog(mem, hist) && WORD + |EncodeAll(hist)| + RecordSize(r) <= |mem|
    ensures IsRun(mem, hist, AppendEvents(r, 0), run)
    ensures AppendsSoFar(mem, hist, r, 0, run[1]) && KeepsMissedByte(mem, hist, r, run[1])
  {
    var s := Recovered(mem, hist);
    run := [s, Step(s, Begin(r))];
    assert TakesStep(AppendEvents(r, 0), run, 0);
  }

  /** After an append without interruption, and without any write-back, the counter has moved in
      memory but not on the medium. */
  lemma AppendCompletes(mem: Slice, hist: History, r: Record) returns (run: Run)
    requires IsLog(mem, hist) && WORD + |EncodeAll(hist)| + RecordSize(r) <= |mem|
    ensures IsRun(mem, hist, AppendEvents(r, RecordLength(r)), run)
    ensures var s := run[RecordLength(r) + 1];
      && s.State? && s.call == Idle && s.hist == hist + [r]
      && |s.mem| == |s.medium| == |mem|
      && Counter(s.medium) == |hist| && Counter(s.mem) == |hist| + 1
      && KeepsMissedByte(mem, hist, r, s)
  {
    run := AppendRuns(mem, hist, r, RecordLength(r));
  }

  /** So the promise that a record survives once its call has returned is not kept: for every log
      and every record there is a run in which the append has ended, and the failure of the power
      loses the record. */
  lemma AppendedRecordCanBeLost(mem: Slice, hist: History, r: Record)
    requires IsLog(mem, hist) && WORD + |EncodeAll(hist)| + RecordSize(r) <= |mem|
    requires Coverable(r.key) && Coverable(r.val)
    ensures exists events: seq<Event>, run: Run ::
      && IsRun(mem, hist, events, run)
      && var s := run[|events|];
         s.State? && s.call == Idle && s.hist == hist + [r]
         && |s.medium| >= WORD && Recover(s.medium).Read? && Recover(s.medium).value == hist
  {
    var events := AppendEvents(r, RecordLength(r));
    var run := AppendCompletes(mem, hist, r);
    assert AllFit32(events);
    RunKeepsInv(mem, hist, events, run, |events|);
    FailureLosesLast(run[|events|], hist, r);
  }

  lemma FailureLosesLast(s: State, hist: History, r: Record)
    requires Inv(s) && s.hist == hist + [r] && Counter(s.medium) == |hist|
    ensures Recover(s.medium).Read? && Recover(s.medium).value == hist
  {
    MediumIsLog(s);
    assert (hist + [r])[..|hist|] == hist;
  }

  // ---------------------------------------------------------------------------------------
  // Which records are safe: the length of a barrier has 32 bits
  // ---------------------------------------------------------------------------------------

  ghost predicate RecoversPrefix(s: State) {
    && s.State? && |s.medium| >= WORD
    && Recover(s.medium).Read?
    && Recover(s.medium).value <= s.hist
  }

  ghost predicate AppendsOnly(events: seq<Event>, r: Record) {
    forall k :: 0 <= k < |events| && events[k].Begin? ==> events[k].record == r
  }

  /** In every run that appends this record only, to any log, every failure is recovered from. */
  ghost predicate CrashSafe(r: Record) {
    forall mem: Slice, hist: History, events: seq<Event>, run: Run, n: nat ::
      IsRun(mem, hist, events, run) && n < |run| && AppendsOnly(events, r) ==> RecoversPrefix(run[n])
  }

  /** A record is safe exactly if its key and its value are shorter than 2^32 bytes. */
  lemma SafeIffLengthsFit(r: Record)
    requires WORD + RecordSize(r) < TWO_TO_64
    ensures CrashSafe(r) <==> Coverable(r.key) && Coverable(r.val)
  {
    if Coverable(r.key) && Coverable(r.val) {
      forall mem: Slice, hist: History, events: seq<Event>, run: Run, n: nat
        | IsRun(mem, hist, events, run) && n < |run| && AppendsOnly(events, r)
        ensures RecoversPrefix(run[n])
      {
        CrashRecoversAPrefix(mem, hist, events, run, n);
      }
    } else {
      LongRecordIsTorn(r);
    }
  }

  function OtherByte(b: Byte): Byte {
    if b == 0 then 1 else 0
  }

  /** A region that holds the empty log, and otherwise bytes that differ from the record. */
  function Garbage(r: Record): (mem: Slice)
    ensures |mem| == WORD + RecordSize(r)
    ensures forall x :: 0 <= x < WORD ==> mem[x] == 0
    ensures forall x :: WORD <= x < |mem| ==> mem[x] != EncodeRecord(r)[x - WORD]
  {
    var zeros: Slice := seq(WORD, _ => 0);
    var others: Slice := seq(RecordSize(r), x requires 0 <= x < RecordSize(r) => OtherByte(EncodeRecord(r)[x]));
    zeros + others
  }

  /** A slice that is read has its last byte where its length says. */
  lemma LastByteRead(mem: Slice, off: nat)
    requires ReadSlice(mem, off).Read?
    ensures var s := ReadSlice(mem, off).value;
      && ReadSlice(mem, off).end == off + WORD + |s| <= |mem|
      && (|s| > 0 ==> mem[off + WORD + |s| - 1] == s[|s| - 1])
  {
  }

  lemma ReadRecordParts(mem: Slice, off: nat, r: Record)
    requires ReadRecord(mem, off).Read? && ReadRecord(mem, off).value == r
    ensures ReadSlice(mem, off).Read? && ReadSlice(mem, off).value == r.key
    ensures var end := ReadSlice(mem, off).end;
      ReadSlice(mem, end).Read? && ReadSlice(mem, end).value == r.val
  {
  }

  /** The byte of a record that no barrier covers. */
  function MissedValue(r: Record): Byte
    requires !(Coverable(r.key) && Coverable(r.val))
  {
    if !Coverable(r.key) then r.key[|r.key| - 1] else r.val[|r.val| - 1]
  }

  lemma MissedValueIsEncoded(off: nat, r: Record)
    requires !(Coverable(r.key) && Coverable(r.val))
    ensures EncodeRecord(r)[MissedByte(off, r) - off] == MissedValue(r)
  {
  }

  lemma MissedValueIsRead(mem: Slice, off: nat, r: Record)
    requires ReadRecord(mem, off).Read? && ReadRecord(mem, off).value == r
    requires !(Coverable(r.key) && Coverable(r.val)) && MissedByte(off, r) < |mem|
    ensures mem[MissedByte(off, r)] == MissedValue(r)
  {
    ReadRecordParts(mem, off, r);
    LastByteRead(mem, off);
    LastByteRead(mem, ReadSlice(mem, off).end);
  }

  /** The whole record is in memory, but a byte that no barrier covered is still the old one on the
      medium: once the counter gets there, recovery reads something else. */
  lemma TornState(r: Record, s: State)
    requires !(Coverable(r.key) && Coverable(r.val))
    requires s.State? && |s.mem| == |s.medium| == WORD + RecordSize(r)
    requires s.hist == [r] && Counter(s.mem) == 1 && KeepsMissedByte(Garbage(r), [], r, s)
    ensures !RecoversPrefix(Step(s, EvictCounter))
  {
    var t := Step(s, EvictCounter);
    EvictedCounter(s);
    assert EncodeAll([]) == [];
    MissedValueIsEncoded(WORD, r);
    TornIsNotRead(r, t.medium);
    TornIsNoPrefix(r, t);
  }

  lemma LongRecordIsTorn(r: Record)
    requires WORD + RecordSize(r) < TWO_TO_64
    requires !(Coverable(r.key) && Coverable(r.val))
    ensures !CrashSafe(r)
  {
    var mem := Garbage(r);
    ZerosAreZero(mem[..WORD]);
    var events := AppendEvents(r, RecordLength(r));
    var run := AppendCompletes(mem, [], r);
    var s := run[|events|];
    assert [] + [r] == [r];
    TornState(r, s);
    ExtendRun(mem, [], events, run, EvictCounter);
    NotSafe(r, mem, [], events + [EvictCounter], run + [Step(s, EvictCounter)]);
  }

  lemma NotSafe(r: Record, mem: Slice, hist: History, events: seq<Event>, run: Run)
    requires IsRun(mem, hist, events, run)
    requires AppendsOnly(events, r)
    requires !RecoversPrefix(run[|events|])
    ensures !CrashSafe(r)
  {
  }

  lemma EvictedCounter(s: State)
    requires s.State? && WORD <= |s.mem| == |s.medium|
    ensures var t := Step(s, EvictCounter);
      && t.State? && t.hist == s.hist && |t.medium| == |s.medium|
      && Counter(t.medium) == Counter(s.mem)
      && (forall x :: WORD <= x < |s.medium| ==> t.medium[x] == s.medium[x])
  {
    assert Step(s, EvictCounter).medium[..WORD] == s.mem[..WORD];
  }

  lemma TornIsNotRead(r: Record, mem: Slice)
    requires |mem| >= WORD + RecordSize(r) && !(Coverable(r.key) && Coverable(r.val))
    requires mem[MissedByte(WORD, r)] != MissedValue(r)
    ensures ReadRecord(mem, WORD).Read? ==> ReadRecord(mem, WORD).value != r
  {
    if ReadRecord(mem, WORD).Read? && ReadRecord(mem, WORD).value == r {
      MissedValueIsRead(mem, WORD, r);
    }
  }

  lemma OneRecordIsRead(mem: Slice)
    requires |mem| >= WORD && Counter(mem) == 1
    ensures Recover(mem).Read? ==> ReadRecord(mem, WORD).Read? && Recover(mem).value == [ReadRecord(mem, WORD).value]
  {
    assert Replay(mem, WORD, 1) == Recover(mem);
  }

  lemma TornIsNoPrefix(r: Record, t: State)
    requires t.State? && t.hist == [r] && |t.medium| >= WORD && Counter(t.medium) == 1
    requires ReadRecord(t.medium, WORD).Read? ==> ReadRecord(t.medium, WORD).value != r
    ensures !RecoversPrefix(t)
  {
    OneRecordIsRead(t.medium);
    assert forall v: History :: v <= [r] && |v| == 1 ==> v[0] == r;
  }
}
