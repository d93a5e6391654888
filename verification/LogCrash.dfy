/** The log on a medium behind a cache: appends run action by action, the cache may write back any
    byte at any time, and the power may fail between any two events. */
module LogCrash {
  import opened Integers
  import opened Slices
  import opened LogFormat
  import opened LogProgram

  /** Between appends, or `pc` actions into the append of a record. */
  datatype Call = Idle | Appending(record: Record, pc: nat)

  /** `mem` is what loads see, `medium` is what survives a power failure. `hist` are the records
      whose increment of the counter has been executed. A recovery that reads outside the region
      leaves the program broken. */
  datatype State =
    | State(mem: Slice, medium: Slice, endOff: nat, hist: History, call: Call)
    | Broken

  datatype Event =
    | Begin(record: Record)
    | Exec
    | Evict(off: nat)        // the cache writes back one byte behind the counter
    | EvictCounter           // the cache writes back the counter, which is atomic
    | Crash                  // the power fails; on restart, recovery replays the medium

  predicate Enabled(s: State, e: Event) {
    && s.State? && WORD <= |s.mem| == |s.medium|
    && match e
       case Begin(r) => s.call.Idle? && s.endOff + RecordSize(r) <= |s.mem|
       case Exec => s.call.Appending? && s.call.pc < RecordLength(s.call.record)
       case Evict(off) => WORD <= off < |s.mem|
       case EvictCounter => true
       case Crash => true
  }

  function AfterAction(s: State, a: Action): State
    requires s.State? && s.call.Appending? && |s.medium| == |s.mem|
  {
    var mem, medium := MemoryAfter(a, s.mem), MediumAfter(a, s.mem, s.medium);
    var r := s.call.record;
    if a.Bump? then State(mem, medium, s.endOff + RecordSize(r), s.hist + [r], Idle)
    else State(mem, medium, s.endOff, s.hist, Appending(r, s.call.pc + 1))
  }

  function Step(s: State, e: Event): State
    requires Enabled(s, e)
  {
    match e
    case Begin(r) => s.(call := Appending(r, 0))
    case Exec => AfterAction(s, RecordAction(s.endOff, s.call.record, s.call.pc))
    case Evict(off) => s.(medium := s.medium[off := s.mem[off]])
    case EvictCounter => s.(medium := s.mem[..WORD] + s.medium[WORD..])
    case Crash =>
      match Recover(s.medium) {
        case OutOfBounds => Broken
        case Read(hist, end) => State(s.medium, s.medium, end, hist, Idle)
      }
  }

  // ---------------------------------------------------------------------------------------
  // The invariant
  // ---------------------------------------------------------------------------------------

  /** The first `n` bytes behind the counter are those of `log`. */
  ghost predicate Agrees(mem: Slice, log: Slice, n: nat) {
    && n <= |log|
    && WORD + n <= |mem|
    && (forall x :: WORD <= x < WORD + n ==> mem[x] == log[x - WORD])
  }

  /** The bytes of the history, and of the record being appended. */
  function LogOf(s: State): Slice
    requires s.State?
  {
    EncodeAll(s.hist) + (if s.call.Appending? then EncodeRecord(s.call.record) else [])
  }

  function WrittenNow(s: State): nat
    requires s.State?
  {
    if s.call.Appending? then Written(s.call.record, s.call.pc) else 0
  }

  function PersistedNow(s: State): nat
    requires s.State?
  {
    if s.call.Appending? then Persisted(s.call.record, s.call.pc) else 0
  }

  ghost predicate CallOk(s: State)
    requires s.State?
  {
    s.call.Appending? ==>
      && s.call.pc < RecordLength(s.call.record)
      && Coverable(s.call.record.key) && Coverable(s.call.record.val)
      && s.endOff + RecordSize(s.call.record) <= |s.mem|
  }

  ghost predicate CountersOk(s: State)
    requires s.State?
  {
    && WORD <= |s.mem| == |s.medium| < TWO_TO_64
    && Counter(s.mem) == |s.hist|
    && Counter(s.medium) <= |s.hist|
  }

  /** Behind the counter the memory holds the log of the history and `w` bytes more, the medium
      the log of the history and `p` bytes more. */
  ghost predicate BytesOk(s: State, log: Slice, w: nat, p: nat)
    requires s.State?
  {
    && s.endOff == WORD + |EncodeAll(s.hist)|
    && Agrees(s.mem, log, |EncodeAll(s.hist)| + w)
    && Agrees(s.medium, log, |EncodeAll(s.hist)| + p)
  }

  /** The memory is a log of the history, and the medium lags behind in its counter only. */
  ghost predicate Inv(s: State) {
    && s.State?
    && CountersOk(s) && CallOk(s)
    && BytesOk(s, LogOf(s), WrittenNow(s), PersistedNow(s))
  }

  /** Agreement is a log, if the counter is right. */
  lemma AgreesIsLog(mem: Slice, hist: History, log: Slice, n: nat, m: nat)
    requires WORD <= |mem| < TWO_TO_64 && Agrees(mem, log, n)
    requires EncodeAll(hist) <= log && n >= |EncodeAll(hist)|
    requires m <= |hist| && Counter(mem) == m
    ensures IsLog(mem, hist[..m])
  {
    EncodePrefix(hist, m);
    var part := EncodeAll(hist[..m]);
    assert mem[WORD..WORD + |part|] == part;
  }

  /** In every state, recovery from the medium finds a prefix of the history: the records that the
      counter on the medium counts. */
  lemma MediumIsLog(s: State)
    requires Inv(s)
    ensures IsLog(s.mem, s.hist)
    ensures IsLog(s.medium, s.hist[..Counter(s.medium)])
    ensures Recover(s.medium).Read? && Recover(s.medium).value == s.hist[..Counter(s.medium)]
  {
    var n := |EncodeAll(s.hist)|;
    AgreesIsLog(s.mem, s.hist, LogOf(s), n + WrittenNow(s), |s.hist|);
    assert s.hist[..|s.hist|] == s.hist;
    AgreesIsLog(s.medium, s.hist, LogOf(s), n + PersistedNow(s), Counter(s.medium));
    RecoverLog(s.medium, s.hist[..Counter(s.medium)]);
  }

  // ---------------------------------------------------------------------------------------
  // Every step keeps it
  // ---------------------------------------------------------------------------------------

  predicate Fits32(e: Event) {
    e.Begin? ==> Coverable(e.record.key) && Coverable(e.record.val)
  }

  lemma BeginKeepsInv(s: State, r: Record)
    requires Inv(s) && Enabled(s, Begin(r)) && Fits32(Begin(r))
    ensures Inv(Step(s, Begin(r)))
  {
  }

  lemma PutKeepsBytes(s: State, log: Slice, w: nat, p: nat, a: Action)
    requires s.State? && s.call.Appending? && CountersOk(s) && BytesOk(s, log, w, p)
    requires a.Put? && a.off == s.endOff + w && a.off < |s.mem|
    requires |EncodeAll(s.hist)| + w < |log| && a.byte == log[|EncodeAll(s.hist)| + w]
    ensures CountersOk(AfterAction(s, a)) && BytesOk(AfterAction(s, a), log, w + 1, p)
  {
    assert AfterAction(s, a).mem[..WORD] == s.mem[..WORD];
  }

  lemma PersistKeepsBytes(s: State, log: Slice, w: nat, p: nat, a: Action)
    requires s.State? && s.call.Appending? && CountersOk(s) && BytesOk(s, log, w, p)
    requires a.Persist? && a.off == s.endOff + p && a.off + a.len == s.endOff + w
    ensures CountersOk(AfterAction(s, a)) && BytesOk(AfterAction(s, a), log, w, w)
  {
    assert AfterAction(s, a).medium[..WORD] == s.medium[..WORD];
  }

  lemma BumpKeepsBytes(s: State, log: Slice, w: nat)
    requires s.State? && s.call.Appending? && CountersOk(s) && BytesOk(s, log, w, w)
    requires w == RecordSize(s.call.record)
    ensures CountersOk(AfterAction(s, Bump)) && BytesOk(AfterAction(s, Bump), log, 0, 0)
  {
    var t := AfterAction(s, Bump);
    EncodeAppend(s.hist, s.call.record);
    EncodeSize(s.hist);
    CounterAfterBump(s.mem, |s.hist|);
  }

  lemma PutKeepsInv(s: State)
    requires Inv(s) && s.call.Appending? && RecordAction(s.endOff, s.call.record, s.call.pc).Put?
    ensures Inv(Step(s, Exec))
  {
    var a, w := RecordAction(s.endOff, s.call.record, s.call.pc), WrittenNow(s);
    AppendIsOrderly(s.endOff, s.call.record, s.call.pc);
    assert LogOf(s)[|EncodeAll(s.hist)| + w] == EncodeRecord(s.call.record)[w];
    PutKeepsBytes(s, LogOf(s), w, PersistedNow(s), a);
  }

  lemma PersistKeepsInv(s: State)
    requires Inv(s) && s.call.Appending? && RecordAction(s.endOff, s.call.record, s.call.pc).Persist?
    ensures Inv(Step(s, Exec))
  {
    var a := RecordAction(s.endOff, s.call.record, s.call.pc);
    AppendIsOrderly(s.endOff, s.call.record, s.call.pc);
    PersistKeepsBytes(s, LogOf(s), WrittenNow(s), PersistedNow(s), a);
  }

  lemma BumpKeepsInv(s: State)
    requires Inv(s) && s.call.Appending? && RecordAction(s.endOff, s.call.record, s.call.pc).Bump?
    ensures Inv(Step(s, Exec))
    ensures Step(s, Exec).hist == s.hist + [s.call.record]
  {
    AppendIsOrderly(s.endOff, s.call.record, s.call.pc);
    BumpKeepsBytes(s, LogOf(s), WrittenNow(s));
    EncodeAppend(s.hist, s.call.record);
    assert LogOf(Step(s, Exec)) == LogOf(s);
  }

  lemma EvictKeepsInv(s: State, off: nat)
    requires Inv(s) && Enabled(s, Evict(off))
    ensures Inv(Step(s, Evict(off)))
  {
    assert Step(s, Evict(off)).medium[..WORD] == s.medium[..WORD];
    assert PersistedNow(s) <= WrittenNow(s) by {
      if s.call.Appending? {
        AppendIsOrderly(s.endOff, s.call.record, s.call.pc);
      }
    }
  }

  lemma EvictCounterKeepsInv(s: State)
    requires Inv(s)
    ensures Inv(Step(s, EvictCounter))
    ensures Counter(Step(s, EvictCounter).medium) == |s.hist|
  {
    assert Step(s, EvictCounter).medium[..WORD] == s.mem[..WORD];
  }

  lemma CrashKeepsInv(s: State)
    requires Inv(s)
    ensures Inv(Step(s, Crash))
    ensures Step(s, Crash).hist == s.hist[..Counter(s.medium)]
  {
    MediumIsLog(s);
    RecoverLog(s.medium, s.hist[..Counter(s.medium)]);
    LogIsInv(s.medium, s.hist[..Counter(s.medium)]);
  }

  /** The state of a program that has just recovered this log. */
  function Recovered(mem: Slice, hist: History): State {
    State(mem, mem, WORD + |EncodeAll(hist)|, hist, Idle)
  }

  lemma LogIsInv(mem: Slice, hist: History)
    requires IsLog(mem, hist)
    ensures Inv(Recovered(mem, hist))
  {
    var s := Recovered(mem, hist);
    assert LogOf(s) == EncodeAll(hist);
    forall x | WORD <= x < WORD + |EncodeAll(hist)| ensures mem[x] == EncodeAll(hist)[x - WORD] {
      assert mem[WORD..WORD + |EncodeAll(hist)|][x - WORD] == mem[x];
    }
  }

  lemma StepKeepsInv(s: State, e: Event)
    requires Inv(s) && Enabled(s, e) && Fits32(e)
    ensures Inv(Step(s, e))
  {
    match e
    case Begin(r) => BeginKeepsInv(s, r);
    case Exec =>
      match RecordAction(s.endOff, s.call.record, s.call.pc) {
        case Put(_, _) => PutKeepsInv(s);
        case Persist(_, _) => PersistKeepsInv(s);
        case Bump => BumpKeepsInv(s);
      }
    case Evict(off) => EvictKeepsInv(s, off);
    case EvictCounter => EvictCounterKeepsInv(s);
    case Crash => CrashKeepsInv(s);
  }
}
