/** What an append does to the memory and to the medium, action by action. */
module LogProgram {
  import opened Arithmetic
  import opened Integers
  import opened Slices
  import opened LogFormat

  /** A store of one byte, a persist barrier over a range, the increment of the counter. */
  datatype Action = Put(off: nat, byte: Byte) | Persist(off: nat, len: nat) | Bump

  /** Pushing a slice back takes this many actions. */
  function SliceLength(s: Slice): nat {
    WORD + 1 + |s| + 1
  }

  /** Pushing a slice back: its length, a barrier, its bytes, a barrier. The length of a barrier is
      cut to 32 bits. */
  function SliceAction(off: nat, s: Slice, pc: nat): Action
    requires pc < SliceLength(s)
  {
    if pc < WORD then Put(off + pc, Word(|s|)[pc])
    else if pc == WORD then Persist(off, WORD)
    else if pc < WORD + 1 + |s| then Put(off + pc - 1, s[pc - WORD - 1])
    else Persist(off + WORD, |s| % TWO_TO_32)
  }

  function SliceProgram(off: nat, s: Slice): (program: seq<Action>)
    ensures |program| == SliceLength(s)
  {
    seq(SliceLength(s), pc requires 0 <= pc < SliceLength(s) => SliceAction(off, s, pc))
  }

  function RecordLength(r: Record): nat {
    SliceLength(r.key) + SliceLength(r.val) + 1
  }

  /** Appending a record: its key, its value, the counter. */
  function RecordAction(off: nat, r: Record, pc: nat): Action
    requires pc < RecordLength(r)
  {
    if pc < SliceLength(r.key) then SliceAction(off, r.key, pc)
    else if pc < SliceLength(r.key) + SliceLength(r.val) then
      SliceAction(off + WORD + |r.key|, r.val, pc - SliceLength(r.key))
    else Bump
  }

  function RecordProgram(off: nat, r: Record): (program: seq<Action>)
    ensures |program| == RecordLength(r)
  {
    SliceProgram(off, r.key) + SliceProgram(off + WORD + |r.key|, r.val) + [Bump]
  }

  lemma RecordProgramAt(off: nat, r: Record, pc: nat)
    requires pc < RecordLength(r)
    ensures RecordProgram(off, r)[pc] == RecordAction(off, r, pc)
  {
  }

  /** The memory after an action. */
  function MemoryAfter(a: Action, mem: Slice): (next: Slice)
    ensures |next| == |mem|
  {
    match a
    case Put(off, byte) => if off < |mem| then mem[off := byte] else mem
    case Persist(_, _) => mem
    case Bump =>
      if |mem| < WORD then mem else Word((Counter(mem) + 1) % TWO_TO_64) + mem[WORD..]
  }

  lemma CounterAfterBump(mem: Slice, n: nat)
    requires |mem| >= WORD && Counter(mem) == n && n + 1 < TWO_TO_64
    ensures MemoryAfter(Bump, mem) == Word(n + 1) + mem[WORD..]
    ensures Counter(MemoryAfter(Bump, mem)) == n + 1
  {
    SmallRemainder(n + 1, TWO_TO_64);
    var next := Word(n + 1) + mem[WORD..];
    assert next[..WORD] == Word(n + 1);
    ReadWord(n + 1);
  }

  /** The medium after an action: only a barrier is sure to reach it. */
  function MediumAfter(a: Action, mem: Slice, medium: Slice): (next: Slice)
    requires |medium| == |mem|
    ensures |next| == |medium|
  {
    match a
    case Persist(off, len) =>
      if off + len <= |mem| then medium[..off] + mem[off..off + len] + medium[off + len..] else medium
    case _ => medium
  }

  // ---------------------------------------------------------------------------------------
  // How far an append has got
  // ---------------------------------------------------------------------------------------

  /** The bytes of the encoded slice that are written after `pc` actions. */
  function WrittenOfSlice(s: Slice, pc: nat): nat {
    if pc <= WORD then pc
    else if pc <= WORD + 1 + |s| then pc - 1
    else WORD + |s|
  }

  /** The bytes of the encoded slice that are persisted after `pc` actions. */
  function PersistedOfSlice(s: Slice, pc: nat): nat {
    if pc <= WORD then 0
    else if pc <= WORD + 1 + |s| then WORD
    else WORD + |s|
  }

  function Written(r: Record, pc: nat): nat {
    if pc <= SliceLength(r.key) then WrittenOfSlice(r.key, pc)
    else WORD + |r.key| + WrittenOfSlice(r.val, pc - SliceLength(r.key))
  }

  function Persisted(r: Record, pc: nat): nat {
    if pc <= SliceLength(r.key) then PersistedOfSlice(r.key, pc)
    else WORD + |r.key| + PersistedOfSlice(r.val, pc - SliceLength(r.key))
  }

  /** A barrier covers a slice of this size. */
  predicate Coverable(s: Slice) {
    |s| < TWO_TO_32
  }

  /** An append writes the bytes of its record one after another, a barrier covers all that is
      written and not yet persisted, and before the counter moves everything is persisted. */
  lemma AppendIsOrderly(off: nat, r: Record, pc: nat)
    requires pc < RecordLength(r) && Coverable(r.key) && Coverable(r.val)
    ensures var w, p := Written(r, pc), Persisted(r, pc);
      && p <= w <= RecordSize(r)
      && match RecordAction(off, r, pc) {
        case Put(o, b) =>
          && o == off + w && w < RecordSize(r) && b == EncodeRecord(r)[w]
          && Written(r, pc + 1) == w + 1 && Persisted(r, pc + 1) == p
        case Persist(o, l) =>
          && o == off + p && o + l == off + w
          && Written(r, pc + 1) == w && Persisted(r, pc + 1) == w
        case Bump => p == w == RecordSize(r) && pc + 1 == RecordLength(r)
      }
  {
    var k := SliceLength(r.key);
    if pc < k {
      SliceIsOrderly(off, r.key, pc);
    } else if pc < k + SliceLength(r.val) {
      SliceIsOrderly(off + WORD + |r.key|, r.val, pc - k);
    }
  }

  lemma SliceIsOrderly(off: nat, s: Slice, pc: nat)
    requires pc < SliceLength(s) && Coverable(s)
    ensures var w, p := WrittenOfSlice(s, pc), PersistedOfSlice(s, pc);
      && p <= w <= WORD + |s|
      && match SliceAction(off, s, pc) {
        case Put(o, b) =>
          && o == off + w && w < WORD + |s| && b == EncodeSlice(s)[w]
          && WrittenOfSlice(s, pc + 1) == w + 1 && PersistedOfSlice(s, pc + 1) == p
        case Persist(o, l) =>
          && o == off + p && o + l == off + w
          && WrittenOfSlice(s, pc + 1) == w && PersistedOfSlice(s, pc + 1) == w
        case Bump => false
      }
  {
  }

  // ---------------------------------------------------------------------------------------
  // Room
  // ---------------------------------------------------------------------------------------

  /** The action touches no byte behind the region. */
  predicate StaysIn(a: Action, size: nat) {
    match a
    case Put(off, _) => off < size
    case Persist(off, len) => off + len <= size
    case Bump => WORD <= size
  }

  ghost predicate AppendStaysIn(off: nat, r: Record, size: nat) {
    forall pc: nat :: pc < RecordLength(r) ==> StaysIn(RecordAction(off, r, pc), size)
  }

  /** An append, which checks nothing, stays inside the region exactly if its record fits behind the
      end of the log. */
  lemma StaysInIffFits(off: nat, r: Record, size: nat)
    requires WORD <= off
    ensures AppendStaysIn(off, r, size) <==> off + RecordSize(r) <= size
  {
    if off + RecordSize(r) <= size {
      forall pc: nat | pc < RecordLength(r) ensures StaysIn(RecordAction(off, r, pc), size) {
        assert |r.key| % TWO_TO_32 <= |r.key| && |r.val| % TWO_TO_32 <= |r.val|;
      }
    } else {
      var last := if r.val == [] then SliceLength(r.key) + WORD - 1 else SliceLength(r.key) + WORD + |r.val|;
      assert RecordAction(off, r, last).off == off + RecordSize(r) - 1;
      assert !StaysIn(RecordAction(off, r, last), size);
    }
  }
}
