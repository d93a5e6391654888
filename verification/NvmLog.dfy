/** The log appender and the key-value store on top of it. */
module NvmLog {
  import opened Integers
  import opened Slices
  import opened LogFormat
  import opened LogProgram

  /** A slice of the region, or the null slice. */
  datatype SliceRef = Null | At(off: nat, len: nat)

  predicate InRegion(ref: SliceRef, mem: Slice) {
    ref.At? ==> ref.off + ref.len <= |mem|
  }

  /** The bytes of a slice of the region. */
  function Text(ref: SliceRef, mem: Slice): Slice
    requires InRegion(ref, mem)
  {
    match ref
    case Null => []
    case At(off, len) => mem[off..off + len]
  }

  type HashMap = map<Slice, SliceRef>

  /** The hash map binds the keys of the map to slices of the region below `end`, which hold its
      values. */
  ghost predicate Represents(hashMap: HashMap, mem: Slice, end: nat, m: map<Slice, Slice>) {
    && hashMap.Keys == m.Keys
    && (forall k :: k in m ==>
          && k in hashMap && hashMap[k].At?
          && WORD <= hashMap[k].off && hashMap[k].off + hashMap[k].len <= end <= |mem|
          && Text(hashMap[k], mem) == m[k])
  }

  /** Bytes below `end` stay, so slices below `end` keep their text. */
  lemma StillRepresents(hashMap: HashMap, mem: Slice, end: nat, mem2: Slice, end2: nat, m: map<Slice, Slice>)
    requires Represents(hashMap, mem, end, m) && WORD <= end <= end2 <= |mem2| && end <= |mem|
    requires mem2[WORD..end] == mem[WORD..end]
    ensures Represents(hashMap, mem2, end2, m)
  {
    forall k | k in m ensures Text(hashMap[k], mem2) == m[k] {
      var off, len := hashMap[k].off, hashMap[k].len;
      forall x | WORD <= x < end ensures mem2[x] == mem[x] {
        assert mem2[x] == mem2[WORD..end][x - WORD] && mem[x] == mem[WORD..end][x - WORD];
      }
      assert mem2[off..off + len] == mem[off..off + len];
    }
  }

  /** Binding one more key to a slice of the region binds it to the text of that slice. */
  lemma RepresentsOneMore(hashMap: HashMap, mem: Slice, end: nat, hist: History, i: nat,
                          ref: SliceRef, end2: nat)
    requires i < |hist| && Represents(hashMap, mem, end, MapOf(hist[..i])) && WORD <= end <= end2 <= |mem|
    requires ref.At? && WORD <= ref.off && ref.off + ref.len <= end2 && Text(ref, mem) == hist[i].val
    ensures Represents(hashMap[hist[i].key := ref], mem, end2, MapOf(hist[..i + 1]))
  {
    assert hist[..i + 1][..i] == hist[..i];
  }

  /** Where the record `i` of a log is. */
  lemma RecordIsAt(mem: Slice, hist: History, i: nat)
    requires IsLog(mem, hist) && i < |hist|
    ensures HoldsAt(mem, WORD + |EncodeAll(hist[..i])|, EncodeRecord(hist[i]))
    ensures |EncodeAll(hist[..i + 1])| == |EncodeAll(hist[..i])| + RecordSize(hist[i])
  {
    EncodeAppend(hist[..i], hist[i]);
    assert hist[..i] + [hist[i]] == hist[..i + 1];
    EncodeConcat(hist[..i + 1], hist[i + 1..]);
    assert hist[..i + 1] + hist[i + 1..] == hist;
    HoldsParts(mem, WORD, EncodeAll(hist[..i + 1]), EncodeAll(hist[i + 1..]));
    HoldsParts(mem, WORD, EncodeAll(hist[..i]), EncodeRecord(hist[i]));
  }

  /** The memory after a sequence of actions. */
  function MemoryOf(trace: seq<Action>, start: Slice): Slice {
    if trace == [] then start
    else MemoryAfter(trace[|trace| - 1], MemoryOf(trace[..|trace| - 1], start))
  }

  lemma MemoryOfOneMore(trace: seq<Action>, a: Action, start: Slice)
    ensures MemoryOf(trace + [a], start) == MemoryAfter(a, MemoryOf(trace, start))
  {
    assert (trace + [a])[..|trace|] == trace;
  }

  /** The region with these bytes written at `off`. */
  function Overwrite(mem: Slice, off: nat, bytes: Slice): (next: Slice)
    requires off + |bytes| <= |mem|
    ensures |next| == |mem|
  {
    mem[..off] + bytes + mem[off + |bytes|..]
  }

  lemma OverwriteTwice(mem: Slice, off: nat, a: Slice, b: Slice)
    requires off + |a| + |b| <= |mem|
    ensures Overwrite(Overwrite(mem, off, a), off + |a|, b) == Overwrite(mem, off, a + b)
  {
  }

  lemma OverwriteOneMore(mem: Slice, off: nat, bytes: Slice, i: nat)
    requires off + |bytes| <= |mem| && i < |bytes|
    ensures Overwrite(mem, off, bytes[..i])[off + i := bytes[i]] == Overwrite(mem, off, bytes[..i + 1])
  {
    assert bytes[..i + 1] == bytes[..i] + [bytes[i]];
  }

  /** The actions that store these bytes. */
  function Puts(off: nat, bytes: Slice): (puts: seq<Action>)
    ensures |puts| == |bytes|
  {
    seq(|bytes|, i requires 0 <= i < |bytes| => Put(off + i, bytes[i]))
  }

  lemma PutsOneMore(off: nat, bytes: Slice, i: nat)
    requires i < |bytes|
    ensures Puts(off, bytes)[..i] + [Put(off + i, bytes[i])] == Puts(off, bytes)[..i + 1]
  {
  }

  lemma OverwriteHolds(mem: Slice, off: nat, bytes: Slice, off2: nat, bytes2: Slice)
    requires off + |bytes| <= |mem|
    ensures HoldsAt(Overwrite(mem, off, bytes), off, bytes)
    ensures off2 + |bytes2| <= off ==>
      (HoldsAt(Overwrite(mem, off, bytes), off2, bytes2) <==> HoldsAt(mem, off2, bytes2))
  {
    var next := Overwrite(mem, off, bytes);
    if off2 + |bytes2| <= off {
      assert next[off2..off2 + |bytes2|] == mem[off2..off2 + |bytes2|];
    }
  }

  lemma CounterOfOverwrite(mem: Slice, off: nat, bytes: Slice)
    requires WORD <= off && off + |bytes| <= |mem|
    ensures Counter(Overwrite(mem, off, bytes)) == Counter(mem)
  {
    assert Overwrite(mem, off, bytes)[..WORD] == mem[..WORD];
  }

  lemma BumpHolds(mem: Slice, off: nat, bytes: Slice)
    requires WORD <= off && WORD <= |mem|
    ensures HoldsAt(MemoryAfter(Bump, mem), off, bytes) <==> HoldsAt(mem, off, bytes)
  {
    var next := MemoryAfter(Bump, mem);
    if off + |bytes| <= |mem| {
      assert next[off..off + |bytes|] == mem[off..off + |bytes|];
    }
  }

  /** A log with the encoding of a record behind its end, and the counter one higher, is a log of
      one record more. */
  lemma AppendedLog(mem: Slice, hist: History, r: Record)
    requires IsLog(mem, hist) && WORD + |EncodeAll(hist)| + RecordSize(r) <= |mem|
    ensures var end := WORD + |EncodeAll(hist)|;
      var mem2 := MemoryAfter(Bump, Overwrite(mem, end, EncodeRecord(r)));
      && IsLog(mem2, hist + [r])
      && HoldsAt(mem2, WORD, mem[WORD..end])
      && HoldsAt(mem2, end, EncodeRecord(r))
  {
    var end, all, bytes := WORD + |EncodeAll(hist)|, EncodeAll(hist), EncodeRecord(r);
    var mid := Overwrite(mem, end, bytes);
    OverwriteHolds(mem, end, bytes, WORD, all);
    CounterOfOverwrite(mem, end, bytes);
    BumpHolds(mid, end, bytes);
    BumpHolds(mid, WORD, all);
    EncodeSize(hist);
    EncodeAppend(hist, r);
    CounterAfterBump(mid, |hist|);
    HoldsParts(MemoryAfter(Bump, mid), WORD, all, bytes);
  }

  /** The texts of the key and the value of a record in the region. */
  lemma RecordTexts(mem: Slice, off: nat, r: Record)
    requires HoldsAt(mem, off, EncodeRecord(r))
    ensures HoldsAt(mem, off, EncodeSlice(r.key)) && HoldsAt(mem, off + WORD + |r.key|, EncodeSlice(r.val))
    ensures Text(At(off + WORD, |r.key|), mem) == r.key
    ensures Text(At(off + 2 * WORD + |r.key|, |r.val|), mem) == r.val
  {
    HoldsParts(mem, off, EncodeSlice(r.key), EncodeSlice(r.val));
    HoldsParts(mem, off, Word(|r.key|), r.key);
    HoldsParts(mem, off + WORD + |r.key|, Word(|r.val|), r.val);
  }

  lemma AppendedRecord(mem: Slice, hist: History, r: Record, mem2: Slice)
    requires IsLog(mem, hist) && WORD + |EncodeAll(hist)| + RecordSize(r) <= |mem|
    requires mem2 == MemoryAfter(Bump, Overwrite(mem, WORD + |EncodeAll(hist)|, EncodeRecord(r)))
    ensures var end := WORD + |EncodeAll(hist)|;
      && IsLog(mem2, hist + [r])
      && HoldsAt(mem2, WORD, mem[WORD..end])
      && WORD + |EncodeAll(hist + [r])| == end + RecordSize(r) <= |mem2|
      && Text(At(end + WORD, |r.key|), mem2) == r.key
      && Text(At(end + 2 * WORD + |r.key|, |r.val|), mem2) == r.val
  {
    AppendedLog(mem, hist, r);
    EncodeAppend(hist, r);
    RecordTexts(mem2, WORD + |EncodeAll(hist)|, r);
  }

  class LogAppender {
    const pmem: array<Byte>
    var endOff: nat

    /** The records of the log. */
    ghost var hist: History

    /** The memory when the region was mapped, and the actions since. */
    ghost const start: Slice
    ghost var trace: seq<Action>

    ghost predicate Traced()
      reads this, pmem
    {
      pmem[..] == MemoryOf(trace, start)
    }

    ghost predicate Valid()
      reads this, pmem
    {
      && IsLog(pmem[..], hist)
      && endOff == WORD + |EncodeAll(hist)|
      && Traced()
    }

    /** Maps a region that holds a log. */
    constructor (pmem: array<Byte>, ghost hist: History)
      requires IsLog(pmem[..], hist)
      ensures this.pmem == pmem && this.hist == hist && start == pmem[..] && trace == [] && Traced()
    {
      this.pmem := pmem;
      this.endOff := 0;
      this.hist := hist;
      this.start := pmem[..];
      this.trace := [];
    }

    method Store(off: nat, b: Byte)
      requires off < pmem.Length && Traced()
      modifies this`trace, pmem
      ensures Traced() && trace == old(trace) + [Put(off, b)]
      ensures pmem[..] == old(pmem[..])[off := b]
    {
      MemoryOfOneMore(trace, Put(off, b), start);
      pmem[off] := b;
      trace := trace + [Put(off, b)];
    }

    /** The barrier: its length is a 32-bit number. */
    method PersistRange(off: nat, len: nat)
      requires Traced()
      modifies this`trace
      ensures Traced() && trace == old(trace) + [Persist(off, len % TWO_TO_32)]
    {
      MemoryOfOneMore(trace, Persist(off, len % TWO_TO_32), start);
      trace := trace + [Persist(off, len % TWO_TO_32)];
    }

    method StoreBytes(off: nat, bytes: Slice)
      requires off + |bytes| <= pmem.Length && Traced()
      modifies this`trace, pmem
      ensures Traced() && trace == old(trace) + Puts(off, bytes)
      ensures pmem[..] == Overwrite(old(pmem[..]), off, bytes)
    {
      var i := 0;
      while i < |bytes|
        invariant 0 <= i <= |bytes| && Traced()
        invariant trace == old(trace) + Puts(off, bytes)[..i]
        invariant pmem[..] == Overwrite(old(pmem[..]), off, bytes[..i])
      {
        Store(off + i, bytes[i]);
        OverwriteOneMore(old(pmem[..]), off, bytes, i);
        PutsOneMore(off, bytes, i);
        i := i + 1;
      }
      assert Puts(off, bytes)[..i] == Puts(off, bytes) && bytes[..i] == bytes;
    }

    /** Appends a slice behind the end, persisted. */
    method PushBack(s: Slice) returns (ref: SliceRef)
      requires endOff + WORD + |s| <= pmem.Length && Traced()
      modifies this`endOff, this`trace, pmem
      ensures Traced() && trace == old(trace) + SliceProgram(old(endOff), s)
      ensures endOff == old(endOff) + WORD + |s|
      ensures pmem[..] == Overwrite(old(pmem[..]), old(endOff), EncodeSlice(s))
      ensures ref == At(old(endOff) + WORD, |s|)
    {
      var ptr := endOff;
      StoreBytes(ptr, Word(|s|));
      PersistRange(ptr, WORD);
      ptr := ptr + WORD;
      ref := At(ptr, |s|);
      StoreBytes(ptr, s);
      PersistRange(ptr, |s|);
      endOff := endOff + WORD + |s|;
      OverwriteTwice(old(pmem[..]), old(endOff), Word(|s|), s);
      SliceProgramParts(old(trace), old(endOff), s);
    }

    static lemma SliceProgramParts(trace: seq<Action>, off: nat, s: Slice)
      ensures trace + Puts(off, Word(|s|)) + [Persist(off, WORD % TWO_TO_32)] + Puts(off + WORD, s)
              + [Persist(off + WORD, |s| % TWO_TO_32)]
              == trace + SliceProgram(off, s)
    {
    }

    /** Increments the counter. */
    method BumpCounter()
      requires pmem.Length >= WORD && Traced()
      modifies this`trace, pmem
      ensures Traced() && trace == old(trace) + [Bump]
      ensures pmem[..] == MemoryAfter(Bump, old(pmem[..]))
    {
      MemoryOfOneMore(trace, Bump, start);
      var bytes := Word((Counter(pmem[..]) + 1) % TWO_TO_64);
      forall i | 0 <= i < WORD {
        pmem[i] := bytes[i];
      }
      assert pmem[..] == bytes + old(pmem[..])[WORD..];
      trace := trace + [Bump];
    }

    /** Pushes back the key and the value of a record, and counts it. */
    method PushRecord(r: Record) returns (nvmKey: SliceRef, nvmVal: SliceRef)
      requires pmem.Length >= WORD && endOff + RecordSize(r) <= pmem.Length && Traced()
      modifies this`endOff, this`trace, pmem
      ensures Traced() && endOff == old(endOff) + RecordSize(r)
      ensures trace == old(trace) + RecordProgram(old(endOff), r)
      ensures pmem[..] == MemoryAfter(Bump, Overwrite(old(pmem[..]), old(endOff), EncodeRecord(r)))
      ensures nvmKey == At(old(endOff) + WORD, |r.key|)
      ensures nvmVal == At(old(endOff) + 2 * WORD + |r.key|, |r.val|)
    {
      ghost var mem, off := pmem[..], endOff;
      nvmKey := PushBack(r.key);
      nvmVal := PushBack(r.val);
      OverwriteTwice(mem, off, EncodeSlice(r.key), EncodeSlice(r.val));
      BumpCounter();
      InOneGo(old(trace), SliceProgram(off, r.key), SliceProgram(off + WORD + |r.key|, r.val), [Bump]);
    }

    static lemma InOneGo(a: seq<Action>, b: seq<Action>, c: seq<Action>, d: seq<Action>)
      ensures ((a + b) + c) + d == a + (b + c + d)
    {
    }

    /** Appends a record, and returns where its key and its value are. What the log held before
        stays where it was. */
    method Append(key: Slice, val: Slice) returns (nvmKey: SliceRef, nvmVal: SliceRef)
      requires Valid() && endOff + RecordSize(Record(key, val)) <= pmem.Length
      modifies this, pmem
      ensures Valid() && hist == old(hist) + [Record(key, val)]
      ensures endOff == old(endOff) + RecordSize(Record(key, val))
      ensures trace == old(trace) + RecordProgram(old(endOff), Record(key, val))
      ensures HoldsAt(pmem[..], WORD, old(pmem[..])[WORD..old(endOff)])
      ensures nvmKey == At(old(endOff) + WORD, |key|) && Text(nvmKey, pmem[..]) == key
      ensures nvmVal == At(old(endOff) + 2 * WORD + |key|, |val|) && Text(nvmVal, pmem[..]) == val
    {
      var r := Record(key, val);
      ghost var mem, before := pmem[..], hist;
      hist := hist + [r];
      nvmKey, nvmVal := PushRecord(r);
      AppendedRecord(mem, before, r, pmem[..]);
    }

    /** Replays the log into a hash map, and finds its end. */
    method Recovery() returns (hashMap: HashMap)
      requires IsLog(pmem[..], hist) && Traced()
      modifies this`endOff
      ensures Valid()
      ensures Represents(hashMap, pmem[..], endOff, MapOf(hist))
    {
      var helper := new RecoveryHelper(this);
      hashMap := map[];
      assert hist[..0] == [];
      while true
        invariant helper.log == this && helper.Valid()
        invariant Represents(hashMap, pmem[..], endOff, MapOf(hist[..helper.current]))
        decreases helper.sequence - helper.current
      {
        ghost var i, before := helper.current, endOff;
        var key, val := helper.Next();
        if key == Null {
          break;
        }
        RepresentsOneMore(hashMap, pmem[..], before, hist, i, val, endOff);
        hashMap := hashMap[Text(key, pmem[..]) := val];
      }
      assert hist[..helper.current] == hist;
    }
  }

  /** Walks over the records of a log, and moves the end of the log along. */
  class RecoveryHelper {
    const log: LogAppender
    const sequence: nat
    var current: nat

    /** `current` records are behind the end of the log as it is known so far. */
    ghost predicate Valid()
      reads this, log, log.pmem
    {
      && IsLog(log.pmem[..], log.hist)
      && sequence == |log.hist|
      && current <= sequence
      && log.endOff == WORD + |EncodeAll(log.hist[..current])|
    }

    constructor (log: LogAppender)
      requires IsLog(log.pmem[..], log.hist)
      modifies log`endOff
      ensures this.log == log && current == 0 && Valid() && fresh(this)
    {
      this.log, this.sequence, this.current := log, Counter(log.pmem[..]), 0;
      new;
      log.endOff := WORD;
    }

    /** The next record, or null slices behind the last. A record with an empty key is not null. */
    method Next() returns (key: SliceRef, val: SliceRef)
      requires Valid()
      modifies this`current, log`endOff
      ensures Valid()
      ensures old(current) == sequence ==> key == Null && val == Null && current == sequence
      ensures old(current) < sequence ==>
        && current == old(current) + 1
        && key.At? && val.At? && InRegion(key, log.pmem[..]) && InRegion(val, log.pmem[..])
        && WORD <= val.off && val.off + val.len == log.endOff >= old(log.endOff)
        && Text(key, log.pmem[..]) == log.hist[old(current)].key
        && Text(val, log.pmem[..]) == log.hist[old(current)].val
    {
      key, val := Null, Null;
      if current < sequence {
        ghost var mem, r := log.pmem[..], log.hist[current];
        RecordIsAt(mem, log.hist, current);
        RecordTexts(mem, log.endOff, r);
        current := current + 1;
        key, val := GetRecord(r);
      }
    }

    method GetRecord(ghost r: Record) returns (key: SliceRef, val: SliceRef)
      requires |log.pmem[..]| < TWO_TO_64
      requires HoldsAt(log.pmem[..], log.endOff, EncodeSlice(r.key))
      requires HoldsAt(log.pmem[..], log.endOff + WORD + |r.key|, EncodeSlice(r.val))
      modifies log`endOff
      ensures key.At? && InRegion(key, log.pmem[..]) && Text(key, log.pmem[..]) == r.key
      ensures val.At? && InRegion(val, log.pmem[..]) && Text(val, log.pmem[..]) == r.val
      ensures WORD <= val.off && val.off + val.len == log.endOff == old(log.endOff) + RecordSize(r)
    {
      key := GetSlice(r.key);
      val := GetSlice(r.val);
    }

    /** The slice at the end of the log so far, which moves behind it. */
    method GetSlice(ghost s: Slice) returns (ref: SliceRef)
      requires |log.pmem[..]| < TWO_TO_64 && HoldsAt(log.pmem[..], log.endOff, EncodeSlice(s))
      modifies log`endOff
      ensures ref == At(old(log.endOff) + WORD, |s|)
      ensures InRegion(ref, log.pmem[..]) && Text(ref, log.pmem[..]) == s
      ensures log.endOff == old(log.endOff) + WORD + |s|
    {
      ReadEncodedSlice(log.pmem[..], log.endOff, s);
      var addr := log.endOff;
      var size := FromLittleEndian(log.pmem[addr..addr + WORD]);
      addr := addr + WORD;
      ref := At(addr, size);
      addr := addr + size;
      log.endOff := addr;
    }
  }

  datatype Status = Ok | NotFound

  /** A store of keys and values: the log, and a hash map into it. */
  class NvmExample {
    const logger: LogAppender
    var hashMap: HashMap

    ghost predicate Valid()
      reads this, logger, logger.pmem
    {
      logger.Valid() && Represents(hashMap, logger.pmem[..], logger.endOff, MapOf(logger.hist))
    }

    /** Opens the store on a region that holds a log, whoever wrote it: the map is that of its
        history, and appends go on where they ended. */
    constructor (pmem: array<Byte>, ghost hist: History)
      requires IsLog(pmem[..], hist)
      ensures Valid() && fresh(logger) && logger.pmem == pmem && logger.hist == hist
    {
      logger := new LogAppender(pmem, hist);
      hashMap := map[];
      new;
      var m := logger.Recovery();
      hashMap := m;
    }

    /** The value set last for the key, if there is one. */
    method Get(key: Slice) returns (status: Status, value: Slice)
      requires Valid()
      ensures status == Ok <==> key in MapOf(logger.hist)
      ensures status == Ok ==> value == MapOf(logger.hist)[key]
    {
      if key !in hashMap {
        return NotFound, [];
      }
      return Ok, Text(hashMap[key], logger.pmem[..]);
    }

    /** Sets the value of a key, and of no other. */
    method Set(key: Slice, value: Slice) returns (status: Status)
      requires Valid() && logger.endOff + RecordSize(Record(key, value)) <= logger.pmem.Length
      modifies this, logger, logger.pmem
      ensures Valid() && status == Ok
      ensures logger.hist == old(logger.hist) + [Record(key, value)]
      ensures MapOf(logger.hist) == old(MapOf(logger.hist))[key := value]
      ensures logger.endOff == old(logger.endOff) + RecordSize(Record(key, value))
      ensures HoldsAt(logger.pmem[..], WORD, old(logger.pmem[..])[WORD..old(logger.endOff)])
    {
      ghost var mem, hist := logger.pmem[..], logger.hist;
      var nvmKey, nvmVal := logger.Append(key, value);
      SetRepresents(hashMap, mem, logger.pmem[..], hist, Record(key, value), nvmVal);
      hashMap := hashMap[Text(nvmKey, logger.pmem[..]) := nvmVal];
      status := Ok;
    }
  }

  lemma SetRepresents(hashMap: HashMap, mem: Slice, mem2: Slice, hist: History, r: Record, ref: SliceRef)
    requires IsLog(mem, hist) && IsLog(mem2, hist + [r])
    requires var end := WORD + |EncodeAll(hist)|;
      && Represents(hashMap, mem, end, MapOf(hist))
      && HoldsAt(mem2, WORD, mem[WORD..end])
      && ref == At(end + WORD + |r.key| + WORD, |r.val|)
    requires InRegion(ref, mem2) && Text(ref, mem2) == r.val
    ensures MapOf(hist + [r]) == MapOf(hist)[r.key := r.val]
    ensures Represents(hashMap[r.key := ref], mem2, WORD + |EncodeAll(hist + [r])|, MapOf(hist + [r]))
  {
    var end := WORD + |EncodeAll(hist)|;
    EncodeAppend(hist, r);
    StillRepresents(hashMap, mem, end, mem2, end, MapOf(hist));
    assert (hist + [r])[..|hist|] == hist && (hist + [r])[..|hist| + 1] == hist + [r];
    RepresentsOneMore(hashMap, mem2, end, hist + [r], |hist|, ref, end + RecordSize(r));
  }

  /** Closing the store and opening it again changes nothing: whatever store is on the region now
      has the same history, and so the same map and the same end of the log. */
  lemma ReopenedIsSame(closed: NvmExample, reopened: NvmExample)
    requires closed.Valid() && reopened.Valid() && reopened.logger.pmem == closed.logger.pmem
    ensures reopened.logger.hist == closed.logger.hist && reopened.logger.endOff == closed.logger.endOff
    ensures reopened.hashMap.Keys == closed.hashMap.Keys
    ensures forall k :: k in reopened.hashMap ==>
      InRegion(reopened.hashMap[k], reopened.logger.pmem[..]) && InRegion(closed.hashMap[k], closed.logger.pmem[..])
      && Text(reopened.hashMap[k], reopened.logger.pmem[..]) == Text(closed.hashMap[k], closed.logger.pmem[..])
  {
    LogIsUnique(closed.logger.pmem[..], reopened.logger.hist, closed.logger.hist);
  }
}
