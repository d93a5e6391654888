/** Runs of the value store: any encodes, dumps and frees, in any order. */
module ValueRuns {
  import opened Integers
  import opened Slices
  import opened ValueStore

  /** What a call did; `Refused` is an encode for which no pool had room. */
  datatype Event =
    | Encoded(value: Slice, compress: bool, ref: KVSRef)
    | Gone(ref: KVSRef)
    | Handed(ref: KVSRef, bytes: Slice)
    | Refused

  /** The event is one that the contracts of the store's methods describe. */
  ghost predicate Happens(codec: Codec, h: Heap, e: Event, h2: Heap) {
    match e
    case Encoded(value, compress, ref) =>
      Placed(h, EncodingFor(compress), Packed(codec, value, compress), ref, h2)
    case Gone(ref) => Freed(h, ref, h2)
    case Handed(ref, bytes) => Dumped(h, ref, bytes, h2)
    case Refused => h2 == h
  }

  ghost predicate HappensAt(codec: Codec, events: seq<Event>, heaps: seq<Heap>, n: nat)
    requires n < |events| && n + 1 < |heaps|
  {
    Happens(codec, heaps[n], events[n], heaps[n + 1])
  }

  ghost predicate IsRun(codec: Codec, events: seq<Event>, heaps: seq<Heap>) {
    && |heaps| == |events| + 1
    && BlocksOk(heaps[0].live, heaps[0].mem)
    && forall n {:trigger HappensAt(codec, events, heaps, n)} :: 0 <= n < |events| ==>
         HappensAt(codec, events, heaps, n)
  }

  /** The event gives the block of the reference back. */
  predicate GivesBack(e: Event, ref: KVSRef) {
    (e.Gone? || e.Handed?) && BlockOf(e.ref) == BlockOf(ref)
  }

  /** A reference that is not given back goes on to lead to the same value. */
  lemma StepKeepsRef(codec: Codec, h: Heap, e: Event, h2: Heap, ref: KVSRef)
    requires BlocksOk(h.live, h.mem) && Happens(codec, h, e, h2)
    ensures BlocksOk(h2.live, h2.mem)
    ensures IsLive(h.live, ref) && !GivesBack(e, ref) ==>
              IsLive(h2.live, ref) && DecodeRef(codec, ref, h2.mem) == DecodeRef(codec, ref, h.mem)
  {
    match e
    case Encoded(value, compress, r) =>
      PlacedOk(codec, h, EncodingFor(compress), Packed(codec, value, compress), r, h2);
    case Gone(r) =>
    case Handed(r, bytes) =>
      FreedDisturbsNone(codec, h.live, h.mem, h2.mem, r);
      if IsLive(h.live, ref) && !GivesBack(e, ref) {
        assert IsLive(h.live - {BlockOf(r)}, ref);
      }
    case Refused =>
  }

  lemma {:induction false} BlocksStayApart(codec: Codec, events: seq<Event>, heaps: seq<Heap>, n: nat)
    requires IsRun(codec, events, heaps) && n <= |events|
    ensures BlocksOk(heaps[n].live, heaps[n].mem)
  {
    if n == 0 {
    } else {
      BlocksStayApart(codec, events, heaps, n - 1);
      assert HappensAt(codec, events, heaps, n - 1);
      StepKeepsRef(codec, heaps[n - 1], events[n - 1], heaps[n], KVSRef(0, 0, 0, 0));
    }
  }

  /** The value can be got back at all: its size is not cut, and uncompressing undoes compressing. */
  ghost predicate Recoverable(codec: Codec, e: Event) {
    && e.Encoded?
    && |Packed(codec, e.value, e.compress)| < TWO_TO_32
    && (e.compress ==> RoundTrips(codec))
  }

  /** Whatever is encoded, dumped and freed in between, a reference decodes to the value it was
      encoded from, until its block is given back. */
  lemma {:induction false} RefsKeepTheirValues(codec: Codec, events: seq<Event>, heaps: seq<Heap>, i: nat, j: nat)
    requires IsRun(codec, events, heaps) && i < j <= |events| && Recoverable(codec, events[i])
    requires forall n :: i < n < j ==> !GivesBack(events[n], events[i].ref)
    ensures IsLive(heaps[j].live, events[i].ref)
    ensures DecodeRef(codec, events[i].ref, heaps[j].mem) == Some(events[i].value)
  {
    var ref, k := events[i].ref, j - 1;
    BlocksStayApart(codec, events, heaps, k);
    assert HappensAt(codec, events, heaps, k);
    if k == i {
      var e := events[i];
      PlacedOk(codec, heaps[i], EncodingFor(e.compress), Packed(codec, e.value, e.compress), ref, heaps[j]);
    } else {
      RefsKeepTheirValues(codec, events, heaps, i, k);
      StepKeepsRef(codec, heaps[k], events[k], heaps[j], ref);
    }
  }

  /** And a dump of the reference hands out bytes that decode to that value by themselves. */
  lemma DumpsGiveTheirValues(codec: Codec, events: seq<Event>, heaps: seq<Heap>, i: nat, j: nat)
    requires IsRun(codec, events, heaps) && i < j < |events| && Recoverable(codec, events[i])
    requires forall n :: i < n < j ==> !GivesBack(events[n], events[i].ref)
    requires events[j].Handed? && events[j].ref == events[i].ref
    ensures DecodeInline(codec, events[j].bytes) == Some(events[i].value)
  {
    RefsKeepTheirValues(codec, events, heaps, i, j);
    BlocksStayApart(codec, events, heaps, j);
    assert HappensAt(codec, events, heaps, j);
    DumpDecodes(codec, heaps[j].live, events[j].ref, heaps[j].mem, heaps[j + 1].mem, events[j].bytes);
  }

  /** Different references whose blocks have not been given back are to different blocks. */
  lemma RefsDiffer(codec: Codec, events: seq<Event>, heaps: seq<Heap>, i: nat, j: nat)
    requires IsRun(codec, events, heaps) && i < j < |events| && Recoverable(codec, events[i]) && events[j].Encoded?
    requires forall n :: i < n < j ==> !GivesBack(events[n], events[i].ref)
    ensures BlockOf(events[j].ref) != BlockOf(events[i].ref)
  {
    RefsKeepTheirValues(codec, events, heaps, i, j);
    assert HappensAt(codec, events, heaps, j);
  }
}
