/** Values kept in pools of persistent memory, behind references. */
module ValueStore {
  import opened Arithmetic
  import opened Integers
  import opened Slices

  datatype Option<T> = None | Some(value: T)

  // ---------------------------------------------------------------------------------------
  // References and what they decode to
  // ---------------------------------------------------------------------------------------

  const RAW_COMPRESSED: Byte := 0
  const RAW_UNCOMPRESSED: Byte := 1
  const PTR_COMPRESSED: Byte := 2
  const PTR_UNCOMPRESSED: Byte := 3

  /** The header in front of a value: its encoding. */
  const HEADER: nat := 1

  datatype KVSRef = KVSRef(encoding: Byte, size: Uint32, poolIndex: nat, offInPool: nat)

  /** What a table keeps for a key: the value itself with its encoding in front, or a reference. */
  datatype Stored = Inline(bytes: Slice) | Indirect(ref: KVSRef)

  /** A compression library; `uncompress` answers nothing for bytes that are not compressed. */
  datatype Codec = Codec(compress: Slice -> Slice, uncompress: Slice -> Option<Slice>)

  ghost predicate RoundTrips(codec: Codec) {
    forall v: Slice :: codec.uncompress(codec.compress(v)) == Some(v)
  }

  type Memory = seq<Slice>

  /** The reference points into the pools. */
  predicate InPools(ref: KVSRef, mem: Memory) {
    ref.poolIndex < |mem| && ref.offInPool + HEADER + ref.size <= |mem[ref.poolIndex]|
  }

  function Payload(ref: KVSRef, mem: Memory): Slice
    requires InPools(ref, mem)
  {
    var start := ref.offInPool + HEADER;
    mem[ref.poolIndex][start..start + ref.size]
  }

  function Unpack(codec: Codec, compressed: bool, bytes: Slice): Option<Slice> {
    if compressed then codec.uncompress(bytes) else Some(bytes)
  }

  /** The value of an item that stands by itself. Nothing stands for the cases in which the program
      gives up. */
  function DecodeInline(codec: Codec, bytes: Slice): Option<Slice> {
    if bytes == [] || !IsRaw(bytes[0]) then None
    else Unpack(codec, bytes[0] == RAW_COMPRESSED, bytes[HEADER..])
  }

  function DecodeRef(codec: Codec, ref: KVSRef, mem: Memory): Option<Slice> {
    if !InPools(ref, mem) || !IsPtr(ref) then None
    else Unpack(codec, ref.encoding == PTR_COMPRESSED, Payload(ref, mem))
  }

  function Decode(codec: Codec, stored: Stored, mem: Memory): Option<Slice> {
    match stored
    case Inline(bytes) => DecodeInline(codec, bytes)
    case Indirect(ref) => DecodeRef(codec, ref, mem)
  }

  // ---------------------------------------------------------------------------------------
  // Blocks
  // ---------------------------------------------------------------------------------------

  /** Where a block begins. */
  datatype Loc = Loc(pool: nat, off: nat)

  /** The blocks in use, with their lengths. */
  type Blocks = map<Loc, nat>

  predicate Apart(p: Loc, pLen: nat, q: Loc, qLen: nat) {
    p.pool != q.pool || p.off + pLen <= q.off || q.off + qLen <= p.off
  }

  ghost predicate BlocksOk(live: Blocks, mem: Memory) {
    && (forall p :: p in live ==> p.pool < |mem| && p.off + live[p] <= |mem[p.pool]| && live[p] > 0)
    && (forall p, q :: p in live && q in live && p != q ==> Apart(p, live[p], q, live[q]))
  }

  /** A block that may be handed out. */
  ghost predicate IsFree(live: Blocks, mem: Memory, p: Loc, len: nat) {
    && p.pool < |mem| && p.off + len <= |mem[p.pool]|
    && (forall q :: q in live ==> Apart(p, len, q, live[q]))
  }

  /** The block of a reference is in use and holds its header and payload. */
  ghost predicate IsLive(live: Blocks, ref: KVSRef) {
    var p := Loc(ref.poolIndex, ref.offInPool);
    p in live && HEADER + ref.size <= live[p]
  }

  /** Bytes of `len` from `p` on are all that may differ. */
  ghost predicate ChangedOnly(mem: Memory, mem2: Memory, p: Loc, len: nat) {
    && |mem2| == |mem|
    && (forall i :: 0 <= i < |mem| ==> |mem2[i]| == |mem[i]|)
    && (forall i, x :: 0 <= i < |mem| && 0 <= x < |mem[i]| && !(i == p.pool && p.off <= x < p.off + len) ==>
          mem2[i][x] == mem[i][x])
  }

  /** Changing one block leaves the decoding of a reference to another as it is. */
  lemma OtherDecodes(codec: Codec, live: Blocks, mem: Memory, mem2: Memory, p: Loc, len: nat, ref: KVSRef)
    requires BlocksOk(live, mem) && ChangedOnly(mem, mem2, p, len) && IsLive(live, ref)
    requires Apart(p, len, Loc(ref.poolIndex, ref.offInPool), live[Loc(ref.poolIndex, ref.offInPool)])
    ensures DecodeRef(codec, ref, mem2) == DecodeRef(codec, ref, mem)
  {
    assert InPools(ref, mem);
    assert Payload(ref, mem2) == Payload(ref, mem);
  }

  // ---------------------------------------------------------------------------------------
  // What the operations do to blocks and memory
  // ---------------------------------------------------------------------------------------

  datatype Heap = Heap(live: Blocks, mem: Memory)

  function BlockOf(ref: KVSRef): Loc {
    Loc(ref.poolIndex, ref.offInPool)
  }

  predicate IsPtr(ref: KVSRef) {
    ref.encoding == PTR_COMPRESSED || ref.encoding == PTR_UNCOMPRESSED
  }

  predicate IsRaw(encoding: Byte) {
    encoding == RAW_COMPRESSED || encoding == RAW_UNCOMPRESSED
  }

  /** The bytes kept for a value. */
  function Packed(codec: Codec, value: Slice, compress: bool): Slice {
    if compress then codec.compress(value) else value
  }

  function EncodingFor(compress: bool): Byte {
    if compress then PTR_COMPRESSED else PTR_UNCOMPRESSED
  }

  /** The bytes of a block that was free are now the encoding and the data; the reference is to it. */
  ghost predicate Placed(h: Heap, encoding: Byte, data: Slice, ref: KVSRef, h2: Heap) {
    var p, len := BlockOf(ref), HEADER + |data|;
    && ref.encoding == encoding && ref.size == |data| % TWO_TO_32
    && p !in h.live && IsFree(h.live, h.mem, p, len) && h2.live == h.live[p := len]
    && ChangedOnly(h.mem, h2.mem, p, len)
    && h2.mem[p.pool][p.off..p.off + len] == [encoding] + data
  }

  /** The header has become that of a value that stands by itself, which is what was handed out; the
      block is given back. */
  ghost predicate Dumped(h: Heap, ref: KVSRef, bytes: Slice, h2: Heap) {
    && IsLive(h.live, ref) && IsPtr(ref)
    && h2.live == h.live - {BlockOf(ref)}
    && ChangedOnly(h.mem, h2.mem, BlockOf(ref), HEADER)
    && InPools(ref, h2.mem)
    && bytes == h2.mem[ref.poolIndex][ref.offInPool..ref.offInPool + HEADER + ref.size]
    && bytes[0] == if ref.encoding == PTR_COMPRESSED then RAW_COMPRESSED else RAW_UNCOMPRESSED
  }

  /** The block is given back. */
  ghost predicate Freed(h: Heap, ref: KVSRef, h2: Heap) {
    IsLive(h.live, ref) && h2 == Heap(h.live - {BlockOf(ref)}, h.mem)
  }

  // ---------------------------------------------------------------------------------------
  // The store
  // ---------------------------------------------------------------------------------------

  class Store {
    const pools: seq<array<Byte>>
    const codec: Codec

    /** Freed bytes after which a full store counts as available again. */
    const availSizeMin: nat

    var nextPoolIndex: nat
    var availSize: nat
    var isAvail: bool

    ghost var live: Blocks

    ghost function Mem(): Memory
      reads pools
    {
      seq(|pools|, i requires 0 <= i < |pools| reads pools => pools[i][..])
    }

    ghost function HeapNow(): Heap
      reads this, pools
    {
      Heap(live, Mem())
    }

    ghost predicate Valid()
      reads this, pools
    {
      && |pools| > 0
      && (forall i, j :: 0 <= i < j < |pools| ==> pools[i] != pools[j])
      && BlocksOk(live, Mem())
    }

    /** What the allocators answer to a request for `size` bytes: pool `i` refuses, or offers a
        block that is free. */
    ghost predicate AnswersOk(answers: seq<Option<nat>>, size: nat)
      reads this, pools
    {
      && |answers| == |pools|
      && (forall i :: 0 <= i < |pools| && answers[i].Some? ==>
            IsFree(live, Mem(), Loc(i, answers[i].value), size))
    }

    /** Asks the pools in turn, beginning with the next in the round. The first that does not
        refuse gives the block: going up from the next in the round, and from the last pool on to
        pool 0, it is the nearest that offers one. If all refuse, the store counts as full. */
    method ReservePmem(size: nat, answers: seq<Option<nat>>) returns (p: Option<Loc>)
      requires Valid() && size > 0 && AnswersOk(answers, size)
      modifies this`nextPoolIndex, this`isAvail, this`live
      ensures Valid()
      ensures nextPoolIndex == (old(nextPoolIndex) + 1) % TWO_TO_64
      ensures p.None? <==> forall i :: 0 <= i < |pools| ==> answers[i].None?
      ensures p.None? ==> live == old(live) && !isAvail
      ensures p.Some? ==>
        && p.value !in old(live) && live == old(live)[p.value := size] && isAvail == old(isAvail)
        && IsFree(old(live), Mem(), p.value, size)
        && p.value.pool < |pools| && answers[p.value.pool] == Some(p.value.off)
      ensures var n := |pools|; var start := old(nextPoolIndex) % n;
        p.Some? ==> forall i | 0 <= i < n && answers[i].Some? ::
          (p.value.pool + n - start) % n <= (i + n - start) % n
    {
      var pool := NextInRound(answers);
      if pool.None? {
        isAvail := false;
        return None;
      }
      ghost var mem := Mem();
      p := Some(Loc(pool.value, answers[pool.value].value));
      assert IsFree(live, mem, p.value, size);
      ReservedIsNew(live, mem, p.value, size);
      live := live[p.value := size];
      assert Mem() == mem;
    }

    /** Moves the round on by one pool, and asks from the pool before on. */
    method NextInRound(answers: seq<Option<nat>>) returns (pool: Option<nat>)
      requires 0 < |pools| == |answers|
      modifies this`nextPoolIndex
      ensures nextPoolIndex == (old(nextPoolIndex) + 1) % TWO_TO_64
      ensures pool.None? <==> forall i :: 0 <= i < |pools| ==> answers[i].None?
      ensures pool.Some? ==> pool.value < |pools| && answers[pool.value].Some?
      ensures var n := |pools|; var start := old(nextPoolIndex) % n;
        pool.Some? ==> forall i | 0 <= i < n && answers[i].Some? ::
          (pool.value + n - start) % n <= (i + n - start) % n
    {
      var start := nextPoolIndex % |pools|;
      nextPoolIndex := (nextPoolIndex + 1) % TWO_TO_64;
      pool := AskInTurn(start, answers);
    }

    /** The first pool from `start` on, in the round, that does not refuse. */
    method AskInTurn(start: nat, answers: seq<Option<nat>>) returns (pool: Option<nat>)
      requires start < |pools| == |answers|
      ensures pool.None? <==> forall i :: 0 <= i < |pools| ==> answers[i].None?
      ensures pool.Some? ==>
        && pool.value < |pools| && answers[pool.value].Some?
        && (forall i | 0 <= i < |pools| && answers[i].Some? ::
              (pool.value + |pools| - start) % |pools| <= (i + |pools| - start) % |pools|)
    {
      RoundDistances(start, |pools|);
      var poolIndex := start;
      var i := 0;
      while i < |pools|
        invariant 0 <= i <= |pools| && 0 <= poolIndex < |pools|
        invariant i < |pools| ==> Distance(start, poolIndex, |pools|) == i
        invariant i == |pools| ==> poolIndex == start
        invariant forall j :: 0 <= j < |pools| && Distance(start, j, |pools|) < i ==> answers[j].None?
      {
        if answers[poolIndex].Some? {
          return Some(poolIndex);
        }
        poolIndex := poolIndex + 1;
        if poolIndex >= |pools| {
          poolIndex := 0;
        }
        i := i + 1;
      }
      return None;
    }

    /** Writes bytes into a pool. */
    method WriteAt(pool: nat, off: nat, bytes: Slice)
      requires pool < |pools| && off + |bytes| <= pools[pool].Length
      requires forall i, j :: 0 <= i < j < |pools| ==> pools[i] != pools[j]
      modifies pools[pool]
      ensures ChangedOnly(old(Mem()), Mem(), Loc(pool, off), |bytes|)
      ensures Mem()[pool][off..off + |bytes|] == bytes
    {
      var buf := pools[pool];
      forall i | 0 <= i < |bytes| {
        buf[off + i] := bytes[i];
      }
    }

    /** Keeps a value in a pool, and returns a reference that decodes to it. No other reference is
        disturbed. The size in the reference is cut to 32 bits. */
    method KVSEncodeValue(value: Slice, compress: bool, answers: seq<Option<nat>>) returns (ref: Option<KVSRef>)
      requires Valid() && AnswersOk(answers, HEADER + |Packed(codec, value, compress)|)
      modifies this, pools
      ensures Valid()
      ensures ref.Some? <==> old(isAvail) && exists i :: 0 <= i < |pools| && answers[i].Some?
      ensures ref.None? ==> HeapNow() == old(HeapNow()) && !isAvail
      ensures ref.Some? ==>
        Placed(old(HeapNow()), EncodingFor(compress), Packed(codec, value, compress), ref.value, HeapNow())
      ensures ref.Some? ==>
        && ref.value.encoding == (if compress then 2 else 3) && InPools(ref.value, Mem())
        && (var start := ref.value.offInPool + HEADER;
            var payload := Mem()[ref.value.poolIndex][start..start + ref.value.size];
            && (!compress && |value| < TWO_TO_32 ==> payload == value)
            && (compress && |codec.compress(value)| < TWO_TO_32 ==> payload == codec.compress(value)))
      ensures ref.Some? && |Packed(codec, value, compress)| < TWO_TO_32 && (compress ==> RoundTrips(codec)) ==>
        DecodeRef(codec, ref.value, Mem()) == Some(value)
      ensures ref.Some? && !compress ==>
        (DecodeRef(codec, ref.value, Mem()) == Some(value) <==> |value| < TWO_TO_32)
      ensures OthersDecode(codec, old(live), old(Mem()), live, Mem())
    {
      NothingDisturbsNone(codec, live, Mem());
      if !isAvail {
        return None;
      }
      ref := Place(EncodingFor(compress), Packed(codec, value, compress), answers);
    }

    /** Puts an encoding and data into a new block. */
    method Place(encoding: Byte, data: Slice, answers: seq<Option<nat>>) returns (ref: Option<KVSRef>)
      requires Valid() && AnswersOk(answers, HEADER + |data|)
      modifies this`nextPoolIndex, this`isAvail, this`live, pools
      ensures Valid()
      ensures ref.Some? <==> exists i :: 0 <= i < |pools| && answers[i].Some?
      ensures ref.None? ==> HeapNow() == old(HeapNow()) && !isAvail
      ensures ref.Some? ==>
        && Placed(old(HeapNow()), encoding, data, ref.value, HeapNow())
        && InPools(ref.value, Mem()) && (Payload(ref.value, Mem()) == data <==> |data| < TWO_TO_32)
      ensures OthersDecode(codec, old(live), old(Mem()), live, Mem())
    {
      NothingDisturbsNone(codec, live, Mem());
      ghost var h := HeapNow();
      var p := ReservePmem(HEADER + |data|, answers);
      if p.None? {
        return None;
      }
      var r := KVSRef(encoding, |data| % TWO_TO_32, p.value.pool, p.value.off);
      assert BlockOf(r) == p.value && Mem() == h.mem;
      WriteAt(p.value.pool, p.value.off, [encoding] + data);
      assert Placed(h, encoding, data, r, HeapNow());
      PlacedOk(codec, h, encoding, data, r, HeapNow());
      return Some(r);
    }

    /** Gives a block back. A store that counts as full counts as available again once more than
        the minimum has been freed since. */
    method FreePmem(ref: KVSRef)
      requires Valid() && IsLive(live, ref)
      modifies this`live, this`availSize, this`isAvail
      ensures Valid() && Freed(old(HeapNow()), ref, HeapNow())
      ensures old(isAvail) ==> isAvail && availSize == old(availSize)
      ensures !old(isAvail) ==>
        var freed := old(availSize) + ref.size;
        isAvail == (freed > availSizeMin) && availSize == if freed > availSizeMin then 0 else freed
    {
      live := live - {BlockOf(ref)};
      if !isAvail {
        availSize := availSize + ref.size;
        if availSize > availSizeMin {
          availSize := 0;
          isAvail := true;
        }
      }
    }

    /** The value of a stored item. */
    method KVSDecodeValueRef(stored: Stored) returns (value: Option<Slice>)
      requires Valid()
      ensures value == Decode(codec, stored, Mem())
    {
      var encoding: Byte;
      var src: Slice;
      match stored {
        case Indirect(ref) =>
          encoding := ref.encoding;
          if encoding != PTR_UNCOMPRESSED && encoding != PTR_COMPRESSED {
            return None;
          }
          if ref.poolIndex >= |pools| || ref.offInPool + HEADER + ref.size > pools[ref.poolIndex].Length {
            return None;
          }
          var start := ref.offInPool + HEADER;
          src := pools[ref.poolIndex][start..start + ref.size];
        case Inline(bytes) =>
          if bytes == [] || (bytes[0] != RAW_UNCOMPRESSED && bytes[0] != RAW_COMPRESSED) {
            return None;
          }
          encoding := bytes[0];
          src := bytes[HEADER..];
      }
      if encoding == RAW_UNCOMPRESSED || encoding == PTR_UNCOMPRESSED {
        return Some(src);
      }
      return codec.uncompress(src);
    }

    /** Takes a value out of its pool: what is added stands by itself and decodes to the same. */
    method KVSDumpFromValueRef(ref: KVSRef) returns (added: Option<Slice>)
      requires Valid()
      requires IsPtr(ref) ==> IsLive(live, ref)
      modifies this`live, this`availSize, this`isAvail, pools
      ensures Valid()
      ensures !IsPtr(ref) ==> added == None && live == old(live) && Mem() == old(Mem())
      ensures IsPtr(ref) ==>
        && added.Some? && Dumped(old(HeapNow()), ref, added.value, HeapNow())
        && |added.value| == HEADER + ref.size && added.value[0] == (if ref.encoding == 2 then 0 else 1)
        && DecodeInline(codec, added.value) == DecodeRef(codec, ref, old(Mem()))
      ensures OthersDecode(codec, old(live) - (if IsPtr(ref) then {BlockOf(ref)} else {}), old(Mem()), live, Mem())
    {
      NothingDisturbsNone(codec, live, Mem());
      if !IsPtr(ref) {
        return None;
      }
      ghost var mem := Mem();
      var raw := if ref.encoding == PTR_COMPRESSED then RAW_COMPRESSED else RAW_UNCOMPRESSED;
      WriteAt(ref.poolIndex, ref.offInPool, [raw]);
      var bytes := pools[ref.poolIndex][ref.offInPool..ref.offInPool + HEADER + ref.size];
      ghost var mem2 := Mem();
      assert bytes == mem2[ref.poolIndex][ref.offInPool..ref.offInPool + HEADER + ref.size];
      assert bytes[0] == mem2[ref.poolIndex][ref.offInPool..ref.offInPool + HEADER][0];
      DumpDecodes(codec, live, ref, mem, mem2, bytes);
      FreedDisturbsNone(codec, live, mem, mem2, ref);
      FreePmem(ref);
      added := Some(bytes);
    }

    /** Frees the block of a stored item that has one, and changes nothing for others. */
    method KVSFreeValue(stored: Option<Stored>)
      requires Valid()
      requires stored.Some? && stored.value.Indirect? && !IsRaw(stored.value.ref.encoding) ==>
        IsLive(live, stored.value.ref)
      requires stored.Some? && stored.value.Inline? ==> stored.value.bytes != [] && IsRaw(stored.value.bytes[0])
      modifies this`live, this`availSize, this`isAvail
      ensures Valid()
      ensures stored.Some? && stored.value.Indirect?
              && stored.value.ref.encoding != 0 && stored.value.ref.encoding != 1 ==>
        && Freed(old(HeapNow()), stored.value.ref, HeapNow())
        && (old(isAvail) ==> isAvail && availSize == old(availSize))
        && (!old(isAvail) ==>
              var freed := old(availSize) + stored.value.ref.size;
              isAvail == (freed > availSizeMin) && availSize == if freed > availSizeMin then 0 else freed)
      ensures stored.None? || stored.value.Inline?
              || stored.value.ref.encoding == 0 || stored.value.ref.encoding == 1 ==>
        HeapNow() == old(HeapNow()) && isAvail == old(isAvail) && availSize == old(availSize)
    {
      if stored.Some? && stored.value.Indirect? && !IsRaw(stored.value.ref.encoding) {
        FreePmem(stored.value.ref);
      }
    }
  }

  /** References that were live are live still and decode as before. */
  ghost predicate OthersDecode(codec: Codec, live: Blocks, mem: Memory, live2: Blocks, mem2: Memory) {
    forall ref: KVSRef {:trigger IsLive(live, ref)} :: IsLive(live, ref) ==>
      IsLive(live2, ref) && DecodeRef(codec, ref, mem2) == DecodeRef(codec, ref, mem)
  }

  lemma NothingDisturbsNone(codec: Codec, live: Blocks, mem: Memory)
    ensures OthersDecode(codec, live, mem, live, mem)
  {
  }

  lemma DumpDecodes(codec: Codec, live: Blocks, ref: KVSRef, mem: Memory, mem2: Memory, bytes: Slice)
    requires BlocksOk(live, mem) && IsLive(live, ref) && IsPtr(ref)
    requires ChangedOnly(mem, mem2, BlockOf(ref), HEADER)
    requires bytes == mem2[ref.poolIndex][ref.offInPool..ref.offInPool + HEADER + ref.size]
    requires bytes[0] == if ref.encoding == PTR_COMPRESSED then RAW_COMPRESSED else RAW_UNCOMPRESSED
    ensures DecodeInline(codec, bytes) == DecodeRef(codec, ref, mem)
  {
    assert InPools(ref, mem);
    assert bytes[HEADER..] == Payload(ref, mem2) == Payload(ref, mem);
  }

  lemma FreedDisturbsNone(codec: Codec, live: Blocks, mem: Memory, mem2: Memory, freed: KVSRef)
    requires BlocksOk(live, mem) && IsLive(live, freed) && ChangedOnly(mem, mem2, BlockOf(freed), HEADER)
    ensures BlocksOk(live, mem2)
    ensures OthersDecode(codec, live - {BlockOf(freed)}, mem, live - {BlockOf(freed)}, mem2)
  {
    forall ref: KVSRef | IsLive(live - {BlockOf(freed)}, ref)
      ensures DecodeRef(codec, ref, mem2) == DecodeRef(codec, ref, mem)
    {
      assert Apart(BlockOf(freed), live[BlockOf(freed)], BlockOf(ref), live[BlockOf(ref)]);
      OtherDecodes(codec, live, mem, mem2, BlockOf(freed), HEADER, ref);
    }
  }

  /** A free block does not begin where one in use begins. */
  lemma ReservedIsNew(live: Blocks, mem: Memory, p: Loc, len: nat)
    requires BlocksOk(live, mem) && IsFree(live, mem, p, len) && len > 0
    ensures p !in live && BlocksOk(live[p := len], mem)
  {
    assert p in live ==> Apart(p, len, p, live[p]);
  }

  lemma NewBlockDisturbsNone(codec: Codec, live: Blocks, mem: Memory, mem2: Memory, p: Loc, len: nat)
    requires BlocksOk(live, mem) && IsFree(live, mem, p, len) && p !in live && len > 0
    requires ChangedOnly(mem, mem2, p, len)
    ensures BlocksOk(live[p := len], mem2)
    ensures OthersDecode(codec, live, mem, live[p := len], mem2)
  {
    forall ref: KVSRef | IsLive(live, ref)
      ensures IsLive(live[p := len], ref)
      ensures DecodeRef(codec, ref, mem2) == DecodeRef(codec, ref, mem)
    {
      OtherDecodes(codec, live, mem, mem2, p, len, ref);
    }
  }

  /** A value put into a block is what its reference leads to, unless its size is cut; no other
      reference is disturbed. */
  lemma PlacedOk(codec: Codec, h: Heap, encoding: Byte, data: Slice, ref: KVSRef, h2: Heap)
    requires BlocksOk(h.live, h.mem) && Placed(h, encoding, data, ref, h2)
    ensures BlocksOk(h2.live, h2.mem)
    ensures OthersDecode(codec, h.live, h.mem, h2.live, h2.mem)
    ensures IsLive(h2.live, ref) && InPools(ref, h2.mem)
    ensures Payload(ref, h2.mem) == data <==> |data| < TWO_TO_32
  {
    NewBlockDisturbsNone(codec, h.live, h.mem, h2.mem, BlockOf(ref), HEADER + |data|);
    PayloadOfNew(ref, h2.mem, ref.encoding, data);
  }

  lemma PayloadOfNew(ref: KVSRef, mem: Memory, encoding: Byte, data: Slice)
    requires ref.poolIndex < |mem| && ref.offInPool + HEADER + |data| <= |mem[ref.poolIndex]|
    requires mem[ref.poolIndex][ref.offInPool..ref.offInPool + HEADER + |data|] == [encoding] + data
    requires ref.size == |data| % TWO_TO_32
    ensures ref.size <= |data| && Payload(ref, mem) == data[..ref.size]
    ensures |data| < TWO_TO_32 ==> Payload(ref, mem) == data
    ensures Payload(ref, mem) == data ==> |data| < TWO_TO_32
  {
    var bytes := mem[ref.poolIndex][ref.offInPool..ref.offInPool + HEADER + |data|];
    forall x | 0 <= x < ref.size ensures Payload(ref, mem)[x] == data[x] {
      assert bytes[HEADER + x] == data[x];
    }
  }

  /** How many pools are asked before pool `i`, if pool `start` is asked first. */
  function Distance(start: nat, i: nat, count: nat): int {
    if i >= start then i - start else i + count - start
  }

  lemma RoundDistances(start: nat, count: nat)
    requires start < count
    ensures forall i {:trigger Distance(start, i, count)} :: 0 <= i < count ==>
      (i + count - start) % count == Distance(start, i, count)
  {
    forall i | 0 <= i < count ensures (i + count - start) % count == Distance(start, i, count) {
      DivisionIs(i + count - start, if i >= start then 1 else 0, count, Distance(start, i, count));
    }
  }
}
