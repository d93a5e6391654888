/** The bytes of the log: a counter in the first eight bytes, then the records one after another,
    each a key and a value with their lengths in front. */
module LogFormat {
  import opened Arithmetic
  import opened Integers
  import opened Slices

  /** The size of the counter, and of each length. */
  const WORD: nat := 8

  datatype Record = Record(key: Slice, val: Slice)

  type History = seq<Record>

  // ---------------------------------------------------------------------------------------
  // Words
  // ---------------------------------------------------------------------------------------

  /** Byte `i` of a number, counting from the lowest. */
  function ByteAt(n: nat, i: nat): Byte
    decreases i
  {
    if i == 0 then n % 256 else ByteAt(n / 256, i - 1)
  }

  /** The `k` low bytes of `n`, lowest first. */
  function LittleEndian(n: nat, k: nat): (bytes: Slice)
    ensures |bytes| == k
  {
    seq(k, i requires 0 <= i < k => ByteAt(n, i))
  }

  function FromLittleEndian(bytes: Slice): nat {
    if bytes == [] then 0 else bytes[0] + 256 * FromLittleEndian(bytes[1..])
  }

  function Pow256(k: nat): nat {
    if k == 0 then 1 else 256 * Pow256(k - 1)
  }

  lemma {:induction false} WordRoundTrip(n: nat, k: nat)
    requires n < Pow256(k)
    ensures FromLittleEndian(LittleEndian(n, k)) == n
  {
    if k == 0 {
    } else {
      WordRoundTrip(n / 256, k - 1);
      assert LittleEndian(n, k)[1..] == LittleEndian(n / 256, k - 1);
    }
  }

  function Word(n: nat): (bytes: Slice)
    ensures |bytes| == WORD
  {
    LittleEndian(n, WORD)
  }

  lemma ReadWord(n: nat)
    requires n < TWO_TO_64
    ensures FromLittleEndian(Word(n)) == n
  {
    assert Pow256(4) == TWO_TO_32;
    assert Pow256(8) == TWO_TO_64;
    WordRoundTrip(n, WORD);
  }

  lemma DivideTwice(n: nat, a: nat, b: nat)
    requires a > 0 && b > 0
    ensures a * b > 0 && n / a / b == n / (a * b)
  {
    var q, r := n / a / b, n / a % b;
    assert n == a * (q * b + r) + n % a;
    assert a * (q * b + r) == q * (a * b) + a * r;
    ProductMonotone(r + 1, b, a);
    assert a * r + a <= a * b;
    DivisionIs(n, q, a * b, a * r + n % a);
  }

  /** Byte `i` is the digit of 256^i. */
  lemma {:induction false} ByteIsDigit(n: nat, i: nat)
    ensures Pow256(i) > 0 && ByteAt(n, i) == n / Pow256(i) % 256
  {
    if i == 0 {
    } else {
      ByteIsDigit(n / 256, i - 1);
      DivideTwice(n, 256, Pow256(i - 1));
    }
  }

  lemma {:induction false} BytesRoundTrip(bytes: Slice)
    ensures LittleEndian(FromLittleEndian(bytes), |bytes|) == bytes
  {
    if bytes == [] {
    } else {
      var n, rest := FromLittleEndian(bytes), FromLittleEndian(bytes[1..]);
      BytesRoundTrip(bytes[1..]);
      assert n % 256 == bytes[0] && n / 256 == rest;
      forall i | 0 <= i < |bytes| ensures ByteAt(n, i) == bytes[i] {
        if i > 0 {
          assert LittleEndian(rest, |bytes| - 1)[i - 1] == ByteAt(rest, i - 1);
        }
      }
    }
  }

  // ---------------------------------------------------------------------------------------
  // Records
  // ---------------------------------------------------------------------------------------

  function EncodeSlice(s: Slice): (bytes: Slice)
    ensures |bytes| == WORD + |s|
  {
    Word(|s|) + s
  }

  function EncodeRecord(r: Record): (bytes: Slice)
    ensures |bytes| == RecordSize(r)
  {
    EncodeSlice(r.key) + EncodeSlice(r.val)
  }

  function RecordSize(r: Record): nat {
    2 * WORD + |r.key| + |r.val|
  }

  function EncodeAll(hist: History): Slice {
    if hist == [] then [] else EncodeRecord(hist[0]) + EncodeAll(hist[1..])
  }

  lemma Associate(a: Slice, b: Slice, c: Slice)
    ensures a + (b + c) == (a + b) + c
  {
  }

  lemma {:induction false} EncodeConcat(a: History, b: History)
    ensures EncodeAll(a + b) == EncodeAll(a) + EncodeAll(b)
  {
    if a == [] {
      assert a + b == b;
    } else {
      EncodeConcat(a[1..], b);
      assert (a + b)[0] == a[0] && (a + b)[1..] == a[1..] + b;
      Associate(EncodeRecord(a[0]), EncodeAll(a[1..]), EncodeAll(b));
    }
  }

  lemma EncodeAppend(hist: History, r: Record)
    ensures EncodeAll(hist + [r]) == EncodeAll(hist) + EncodeRecord(r)
  {
    EncodeConcat(hist, [r]);
    assert [r][1..] == [];
  }

  /** The encoding of a prefix of a history is a prefix of its encoding. */
  lemma EncodePrefix(hist: History, m: nat)
    requires m <= |hist|
    ensures EncodeAll(hist[..m]) <= EncodeAll(hist)
  {
    EncodeConcat(hist[..m], hist[m..]);
    assert hist[..m] + hist[m..] == hist;
  }

  lemma {:induction false} EncodeSize(hist: History)
    ensures |EncodeAll(hist)| >= 2 * WORD * |hist|
  {
    if hist == [] {
    } else {
      EncodeSize(hist[1..]);
    }
  }

  // ---------------------------------------------------------------------------------------
  // Recovery
  // ---------------------------------------------------------------------------------------

  /** What reading a slice or a log gives: its value and the offset behind it, or a read outside
      the region. */
  datatype Read<T> = Read(value: T, end: nat) | OutOfBounds

  function Counter(mem: Slice): nat
    requires |mem| >= WORD
  {
    FromLittleEndian(mem[..WORD])
  }

  function ReadSlice(mem: Slice, off: nat): Read<Slice> {
    if off + WORD > |mem| then OutOfBounds
    else
      var size := FromLittleEndian(mem[off..off + WORD]);
      if off + WORD + size > |mem| then OutOfBounds
      else Read(mem[off + WORD..off + WORD + size], off + WORD + size)
  }

  function ReadRecord(mem: Slice, off: nat): Read<Record> {
    var key := ReadSlice(mem, off);
    if key.OutOfBounds? then OutOfBounds
    else
      var val := ReadSlice(mem, key.end);
      if val.OutOfBounds? then OutOfBounds else Read(Record(key.value, val.value), val.end)
  }

  /** Replays `n` records from `off` on. */
  function Replay(mem: Slice, off: nat, n: nat): Read<History>
    decreases n
  {
    if n == 0 then Read([], off)
    else
      var first := ReadRecord(mem, off);
      if first.OutOfBounds? then OutOfBounds
      else
        var rest := Replay(mem, first.end, n - 1);
        if rest.OutOfBounds? then OutOfBounds else Read([first.value] + rest.value, rest.end)
  }

  /** What recovery makes of a region: the counter says how many records to replay. */
  function Recover(mem: Slice): Read<History>
    requires |mem| >= WORD
  {
    Replay(mem, WORD, Counter(mem))
  }

  /** From `off` on, the region holds these bytes. */
  predicate HoldsAt(mem: Slice, off: nat, bytes: Slice) {
    off + |bytes| <= |mem| && mem[off..off + |bytes|] == bytes
  }

  lemma HoldsParts(mem: Slice, off: nat, a: Slice, b: Slice)
    ensures HoldsAt(mem, off, a + b) <==> HoldsAt(mem, off, a) && HoldsAt(mem, off + |a|, b)
  {
    var c := a + b;
    assert c[..|a|] == a && c[|a|..] == b;
    if off + |c| <= |mem| {
      var m := mem[off..off + |c|];
      assert m[..|a|] == mem[off..off + |a|] && m[|a|..] == mem[off + |a|..off + |c|];
      assert m == m[..|a|] + m[|a|..];
    }
  }

  lemma ReadEncodedSlice(mem: Slice, off: nat, s: Slice)
    requires HoldsAt(mem, off, EncodeSlice(s)) && |s| < TWO_TO_64
    ensures ReadSlice(mem, off) == Read(s, off + WORD + |s|)
  {
    HoldsParts(mem, off, Word(|s|), s);
    ReadWord(|s|);
  }

  lemma ReadEncodedRecord(mem: Slice, off: nat, r: Record)
    requires HoldsAt(mem, off, EncodeRecord(r)) && |mem| < TWO_TO_64
    ensures ReadRecord(mem, off) == Read(r, off + RecordSize(r))
  {
    HoldsParts(mem, off, EncodeSlice(r.key), EncodeSlice(r.val));
    ReadEncodedSlice(mem, off, r.key);
    ReadEncodedSlice(mem, off + WORD + |r.key|, r.val);
  }

  lemma ReplayStep(mem: Slice, off: nat, n: nat, r: Record, rest: History, mid: nat, end: nat)
    requires n > 0 && ReadRecord(mem, off) == Read(r, mid) && Replay(mem, mid, n - 1) == Read(rest, end)
    ensures Replay(mem, off, n) == Read([r] + rest, end)
  {
  }

  lemma EncodedFirst(mem: Slice, off: nat, hist: History)
    requires hist != [] && HoldsAt(mem, off, EncodeAll(hist))
    ensures HoldsAt(mem, off, EncodeRecord(hist[0]))
    ensures HoldsAt(mem, off + RecordSize(hist[0]), EncodeAll(hist[1..]))
    ensures |EncodeAll(hist)| == RecordSize(hist[0]) + |EncodeAll(hist[1..])|
  {
    var first, rest := EncodeRecord(hist[0]), EncodeAll(hist[1..]);
    assert EncodeAll(hist) == first + rest;
    HoldsParts(mem, off, first, rest);
  }

  /** Replay undoes encoding. */
  lemma {:induction false} ReplayEncoded(mem: Slice, off: nat, hist: History)
    requires HoldsAt(mem, off, EncodeAll(hist)) && |mem| < TWO_TO_64
    ensures Replay(mem, off, |hist|) == Read(hist, off + |EncodeAll(hist)|)
    decreases hist
  {
    if hist == [] {
    } else {
      var r, rest := hist[0], hist[1..];
      var mid := off + RecordSize(r);
      EncodedFirst(mem, off, hist);
      ReadEncodedRecord(mem, off, r);
      ReplayEncoded(mem, mid, rest);
      ReplayStep(mem, off, |hist|, r, rest, mid, mid + |EncodeAll(rest)|);
      assert [r] + rest == hist;
    }
  }

  /** The region is a log of this history. */
  predicate IsLog(mem: Slice, hist: History) {
    && WORD <= |mem| < TWO_TO_64
    && Counter(mem) == |hist|
    && HoldsAt(mem, WORD, EncodeAll(hist))
  }

  /** Recovery rebuilds the history of a log, and finds its end. */
  lemma RecoverLog(mem: Slice, hist: History)
    requires IsLog(mem, hist)
    ensures Recover(mem) == Read(hist, WORD + |EncodeAll(hist)|)
  {
    ReplayEncoded(mem, WORD, hist);
  }

  /** A region holds at most one log. */
  lemma LogIsUnique(mem: Slice, a: History, b: History)
    requires IsLog(mem, a) && IsLog(mem, b)
    ensures a == b
  {
    RecoverLog(mem, a);
    RecoverLog(mem, b);
  }

  /** At `off` stands the number, its lowest byte first. */
  ghost predicate NumberStandsAt(mem: Slice, off: nat, n: nat) {
    off + 8 <= |mem| && forall i | 0 <= i < 8 :: Pow256(i) > 0 && mem[off + i] == n / Pow256(i) % 256
  }

  /** At `off` stands the length of the slice, and behind that the slice. */
  ghost predicate SliceStandsAt(mem: Slice, off: nat, s: Slice) {
    NumberStandsAt(mem, off, |s|) && off + 8 + |s| <= |mem| && mem[off + 8..off + 8 + |s|] == s
  }

  lemma SliceStands(mem: Slice, off: nat, s: Slice)
    requires HoldsAt(mem, off, EncodeSlice(s))
    ensures SliceStandsAt(mem, off, s)
  {
    HoldsParts(mem, off, Word(|s|), s);
    forall i | 0 <= i < 8 ensures Pow256(i) > 0 && mem[off + i] == |s| / Pow256(i) % 256 {
      ByteIsDigit(|s|, i);
      assert mem[off..off + WORD][i] == Word(|s|)[i];
    }
  }

  /** Every byte of a log: the number of records in the first eight bytes, its lowest byte first, and
      record `k` behind the records before it, first its key and then its value. */
  lemma LogBytes(mem: Slice, hist: History, k: nat)
    requires IsLog(mem, hist)
    ensures NumberStandsAt(mem, 0, |hist|)
    ensures k < |hist| ==>
      var off := 8 + |EncodeAll(hist[..k])|;
      && SliceStandsAt(mem, off, hist[k].key)
      && SliceStandsAt(mem, off + 8 + |hist[k].key|, hist[k].val)
      && 8 + |EncodeAll(hist[..k + 1])| == off + 16 + |hist[k].key| + |hist[k].val|
  {
    CounterBytes(mem);
    if k < |hist| {
      RecordStands(mem, hist, k);
    }
  }

  lemma CounterBytes(mem: Slice)
    requires |mem| >= WORD
    ensures NumberStandsAt(mem, 0, Counter(mem))
  {
    BytesRoundTrip(mem[..WORD]);
    forall i | 0 <= i < 8 ensures Pow256(i) > 0 && mem[i] == Counter(mem) / Pow256(i) % 256 {
      ByteIsDigit(Counter(mem), i);
      assert mem[i] == LittleEndian(Counter(mem), WORD)[i];
    }
  }

  lemma RecordStands(mem: Slice, hist: History, k: nat)
    requires IsLog(mem, hist) && k < |hist|
    ensures var off := WORD + |EncodeAll(hist[..k])|; var r := hist[k];
      && SliceStandsAt(mem, off, r.key) && SliceStandsAt(mem, off + WORD + |r.key|, r.val)
      && WORD + |EncodeAll(hist[..k + 1])| == off + RecordSize(r)
  {
    var off, r := WORD + |EncodeAll(hist[..k])|, hist[k];
    RecordIsHeld(mem, hist, k);
    HoldsParts(mem, off, EncodeSlice(r.key), EncodeSlice(r.val));
    SliceStands(mem, off, r.key);
    SliceStands(mem, off + WORD + |r.key|, r.val);
  }

  lemma RecordIsHeld(mem: Slice, hist: History, k: nat)
    requires IsLog(mem, hist) && k < |hist|
    ensures HoldsAt(mem, WORD + |EncodeAll(hist[..k])|, EncodeRecord(hist[k]))
    ensures |EncodeAll(hist[..k + 1])| == |EncodeAll(hist[..k])| + RecordSize(hist[k])
  {
    EncodeConcat(hist[..k], hist[k..]);
    assert hist[..k] + hist[k..] == hist;
    HoldsParts(mem, WORD, EncodeAll(hist[..k]), EncodeAll(hist[k..]));
    EncodedFirst(mem, WORD + |EncodeAll(hist[..k])|, hist[k..]);
    assert hist[..k] + [hist[k]] == hist[..k + 1];
    EncodeAppend(hist[..k], hist[k]);
  }

  // ---------------------------------------------------------------------------------------
  // The map of a history
  // ---------------------------------------------------------------------------------------

  /** The last value set for each key. */
  function MapOf(hist: History): map<Slice, Slice> {
    if hist == [] then map[]
    else
      var n := |hist| - 1;
      MapOf(hist[..n])[hist[n].key := hist[n].val]
  }

  ghost predicate IsLastSet(hist: History, key: Slice, i: nat) {
    && i < |hist|
    && hist[i].key == key
    && (forall j :: i < j < |hist| ==> hist[j].key != key)
  }

  /** The map binds a key exactly if the history sets it, and then to the value set last. */
  lemma {:induction false} MapHoldsLastSet(hist: History, key: Slice)
    ensures key in MapOf(hist) <==> exists i :: 0 <= i < |hist| && hist[i].key == key
    ensures key in MapOf(hist) ==> exists i: nat :: IsLastSet(hist, key, i) && MapOf(hist)[key] == hist[i].val
  {
    if hist == [] {
    } else {
      var n := |hist| - 1;
      MapHoldsLastSet(hist[..n], key);
      if hist[n].key == key {
        assert IsLastSet(hist, key, n);
      } else if key in MapOf(hist) {
        var i: nat :| IsLastSet(hist[..n], key, i) && MapOf(hist[..n])[key] == hist[..n][i].val;
        assert IsLastSet(hist, key, i);
      } else {
        assert forall i :: 0 <= i < n ==> hist[..n][i].key == hist[i].key;
      }
    }
  }
}
