/** The chained hash table of cache handles: what its links mean, and the operations on them. */
module CacheTable {
  import opened Integers
  import opened Slices
  import opened TableLengths

  /** What a handle is found by: its hash and its key. */
  datatype Id = Id(hash: Uint32, key: Slice)

  class LRUHandle {
    const hash: Uint32
    const key: Slice
    var nextHash: LRUHandle?

    constructor (hash: Uint32, key: Slice)
      ensures this.hash == hash && this.key == key
    {
      this.hash, this.key := hash, key;
    }

    function Ident(): (id: Id)
      ensures id.hash == hash && id.key == key
    {
      Id(hash, key)
    }
  }

  // ---------------------------------------------------------------------------------------
  // Slots, links and chains
  // ---------------------------------------------------------------------------------------

  type Slots = seq<LRUHandle?>
  type Links = map<LRUHandle, LRUHandle?>
  type Chains = seq<seq<LRUHandle>>
  type View = map<Id, LRUHandle>

  /** The slot of a hash, in a table of `length` slots. */
  function Bucket(hash: Uint32, length: nat): (b: nat)
    ensures length > 0 ==> b < length
  {
    if length == 0 then 0 else And(hash, length - 1)
  }

  /** The handle at position `k` of a chain, or null at its end. */
  function Target(chain: seq<LRUHandle>, k: nat): LRUHandle? {
    if k < |chain| then chain[k] else null
  }

  /** What the link before position `k` holds: the slot for the first, a `nextHash` for others. */
  ghost function LinkBefore(slot: LRUHandle?, links: Links, chain: seq<LRUHandle>, k: nat): LRUHandle?
    requires k <= |chain| && forall i :: 0 <= i < |chain| ==> chain[i] in links
  {
    if k == 0 then slot else links[chain[k - 1]]
  }

  /** The links spell out the chain and end in null. */
  ghost predicate IsChain(slot: LRUHandle?, links: Links, chain: seq<LRUHandle>) {
    && (forall i :: 0 <= i < |chain| ==> chain[i] in links)
    && (forall k: nat :: k <= |chain| ==> LinkBefore(slot, links, chain, k) == Target(chain, k))
  }

  ghost predicate InView(view: View, h: LRUHandle) {
    h.Ident() in view && view[h.Ident()] == h
  }

  ghost predicate IdsDiffer(chain: seq<LRUHandle>) {
    forall i, j :: 0 <= i < j < |chain| ==> chain[i].Ident() != chain[j].Ident()
  }

  /** Bucket `b` holds handles of the map that hash there, with different ids. */
  ghost predicate ChainOk(chain: seq<LRUHandle>, b: nat, length: nat, view: View) {
    && (forall i :: 0 <= i < |chain| ==> InView(view, chain[i]) && Bucket(chain[i].hash, length) == b)
    && IdsDiffer(chain)
  }

  ghost predicate CoveredAt(chains: Chains, view: View, id: Id)
    requires id in view
  {
    var b := Bucket(id.hash, |chains|);
    b < |chains| && view[id].Ident() == id && view[id] in chains[b]
  }

  /** Every binding of the map is in the chain of its bucket. */
  ghost predicate Covered(chains: Chains, view: View) {
    forall id {:trigger CoveredAt(chains, view, id)} :: id in view ==> CoveredAt(chains, view, id)
  }

  /** The table represents the map: chains are acyclic, disjoint, null-terminated and in the right
      bucket, and together hold exactly the bindings of the map. */
  ghost predicate TableOk(slots: Slots, links: Links, chains: Chains, view: View) {
    && |slots| == |chains|
    && (forall b {:trigger IsChain(slots[b], links, chains[b])} :: 0 <= b < |chains| ==>
          IsChain(slots[b], links, chains[b]))
    && (forall b {:trigger ChainOk(chains[b], b, |chains|, view)} :: 0 <= b < |chains| ==>
          ChainOk(chains[b], b, |chains|, view))
    && Covered(chains, view)
  }

  /** `k` is where the search for `id` along a chain stops: at its handle, or at the end. */
  ghost predicate StopsAt(chain: seq<LRUHandle>, id: Id, k: nat) {
    && k <= |chain|
    && (forall i :: 0 <= i < k ==> chain[i].Ident() != id)
    && (k < |chain| ==> chain[k].Ident() == id)
  }

  /** Where the search for `id` along a chain stops. */
  ghost function StopOf(chain: seq<LRUHandle>, id: Id): (k: nat)
    ensures StopsAt(chain, id, k)
  {
    if chain == [] || chain[0].Ident() == id then 0 else StopOf(chain[1..], id) + 1
  }

  lemma StopIsUnique(chain: seq<LRUHandle>, id: Id, k: nat)
    requires StopsAt(chain, id, k)
    ensures k == StopOf(chain, id)
  {
  }

  /** The search stops at the binding of the map, if there is one. */
  lemma SearchFindsBinding(slots: Slots, links: Links, chains: Chains, view: View, id: Id, k: nat)
    requires |chains| > 0 && TableOk(slots, links, chains, view)
    requires StopsAt(chains[Bucket(id.hash, |chains|)], id, k)
    ensures Target(chains[Bucket(id.hash, |chains|)], k) == (if id in view then view[id] else null)
  {
    var b := Bucket(id.hash, |chains|);
    var chain := chains[b];
    assert ChainOk(chain, b, |chains|, view);
    if k < |chain| {
      assert InView(view, chain[k]);
    }
    assert id in view ==> CoveredAt(chains, view, id);
  }

  /** The slot is the remainder of the hash, since lengths are powers of two. */
  lemma BucketIsRemainder(hash: Uint32, length: nat)
    requires IsPow2(length)
    ensures length > 0 && Bucket(hash, length) == hash % length
  {
    var k: nat :| length == Pow2(k);
    MaskIsRemainder(hash, k);
  }

  /** What a table finds for a hash and a key, told by the fields of the handles: a handle in it
      that has both, or null if no handle in it does. */
  ghost predicate IsFound(handles: set<LRUHandle>, hash: Uint32, key: Slice, found: LRUHandle?) {
    && (found != null ==> found in handles && found.hash == hash && found.key == key)
    && (found == null ==> forall g | g in handles :: g.hash != hash || g.key != key)
  }

  /** The binding of the map is the one handle in the table with this hash and key. */
  lemma BindingIsFound(chains: Chains, view: View, hash: Uint32, key: Slice)
    requires Covered(chains, view)
    ensures var found := if Id(hash, key) in view then view[Id(hash, key)] else null;
      && IsFound(view.Values, hash, key, found)
      && (forall g | g in view.Values && g.hash == hash && g.key == key :: g == found)
  {
    var id := Id(hash, key);
    if id in view {
      assert CoveredAt(chains, view, id);
    }
    forall g | g in view.Values && g.hash == hash && g.key == key ensures id in view && g == view[id] {
      var id2 :| id2 in view && view[id2] == g;
      assert CoveredAt(chains, view, id2);
    }
  }

  /** Binding a handle puts it into the table in the place of the one found, and moves no other. */
  lemma BoundHandles(chains: Chains, view: View, h: LRUHandle)
    requires Covered(chains, view)
    ensures var found := if h.Ident() in view then view[h.Ident()] else null;
      view[h.Ident() := h].Values == (set g | g in view.Values && g != found) + {h}
  {
    var id, newView := h.Ident(), view[h.Ident() := h];
    assert newView[id] == h;
    forall g | g in newView.Values && g != h ensures g in view.Values && (id in view ==> g != view[id]) {
      var id2 :| id2 in newView && newView[id2] == g;
      assert CoveredAt(chains, view, id2);
      assert id in view ==> CoveredAt(chains, view, id);
    }
    forall g | g in view.Values && (id in view ==> g != view[id]) ensures g in newView.Values {
      var id2 :| id2 in view && view[id2] == g;
      assert newView[id2] == g;
    }
  }

  /** Unbinding an id takes the handle found out of the table, and moves no other. */
  lemma UnboundHandles(chains: Chains, view: View, id: Id)
    requires Covered(chains, view)
    ensures var found := if id in view then view[id] else null;
      (view - {id}).Values == set g | g in view.Values && g != found
  {
    var newView := view - {id};
    forall g | g in newView.Values ensures g in view.Values && (id in view ==> g != view[id]) {
      var id2 :| id2 in newView && newView[id2] == g;
      assert CoveredAt(chains, view, id2);
      assert id in view ==> CoveredAt(chains, view, id);
    }
    forall g | g in view.Values && (id in view ==> g != view[id]) ensures g in newView.Values {
      var id2 :| id2 in view && view[id2] == g;
      assert newView[id2] == g;
    }
  }

  // ---------------------------------------------------------------------------------------
  // One edit of one chain
  // ---------------------------------------------------------------------------------------

  /** A chain without positions `k` up to `k2`, and with `mid` in their place. */
  function Edited(chain: seq<LRUHandle>, k: nat, mid: seq<LRUHandle>, k2: nat): seq<LRUHandle>
    requires k <= k2 <= |chain|
  {
    chain[..k] + mid + chain[k2..]
  }

  /** The edit puts at most one handle in the place of at most one other. */
  ghost predicate EditOk(chain: seq<LRUHandle>, k: nat, mid: seq<LRUHandle>, k2: nat) {
    && k <= k2 <= |chain|
    && k2 <= k + 1
    && |mid| <= 1
    && (forall i :: 0 <= i < |chain| && !(k <= i < k2) && mid != [] ==> chain[i].Ident() != mid[0].Ident())
  }

  /** What the link before position `k` holds after the edit. */
  function NewTarget(chain: seq<LRUHandle>, mid: seq<LRUHandle>, k2: nat): LRUHandle? {
    if mid == [] then Target(chain, k2) else mid[0]
  }

  /** Is the `nextHash` of `n` written by the edit? */
  predicate Written(chain: seq<LRUHandle>, k: nat, mid: seq<LRUHandle>, n: LRUHandle)
    requires k <= |chain|
  {
    n in mid || (k > 0 && n == chain[k - 1])
  }

  /** The links after the edit: the one before position `k` and the one of the new handle are
      written, all others stay. */
  ghost predicate LinksEdited(links: Links, newLinks: Links, chain: seq<LRUHandle>, k: nat,
                              mid: seq<LRUHandle>, k2: nat)
    requires k <= |chain|
  {
    && (k > 0 ==> chain[k - 1] in newLinks && newLinks[chain[k - 1]] == NewTarget(chain, mid, k2))
    && (mid != [] ==> mid[0] in newLinks && newLinks[mid[0]] == Target(chain, k2))
    && (forall n :: n in links && !Written(chain, k, mid, n) ==> n in newLinks && newLinks[n] == links[n])
  }

  /** Where the handle at position `i` of the edited chain was before, if it is not the new one. */
  function OldPosition(k: nat, mid: seq<LRUHandle>, k2: nat, i: nat): int {
    if i < k then i else i - |mid| + (k2 - k)
  }

  lemma EditedAt(chain: seq<LRUHandle>, k: nat, mid: seq<LRUHandle>, k2: nat, i: nat)
    requires EditOk(chain, k, mid, k2) && i < |Edited(chain, k, mid, k2)|
    ensures k <= i < k + |mid| ==> Edited(chain, k, mid, k2)[i] == mid[0]
    ensures !(k <= i < k + |mid|) ==>
      var j := OldPosition(k, mid, k2, i);
      0 <= j < |chain| && !(k <= j < k2) && Edited(chain, k, mid, k2)[i] == chain[j]
  {
  }

  /** Handles that stay keep their link, but for the one before the edit. */
  lemma KeptLink(slot: LRUHandle?, links: Links, newLinks: Links, chain: seq<LRUHandle>, k: nat,
                 mid: seq<LRUHandle>, k2: nat, j: nat)
    requires IsChain(slot, links, chain) && IdsDiffer(chain) && EditOk(chain, k, mid, k2)
    requires LinksEdited(links, newLinks, chain, k, mid, k2)
    requires j < |chain| && !(k <= j < k2)
    ensures chain[j] in newLinks
    ensures j + 1 != k ==> newLinks[chain[j]] == Target(chain, j + 1)
  {
    if j + 1 != k {
      assert !Written(chain, k, mid, chain[j]);
      assert LinkBefore(slot, links, chain, j + 1) == Target(chain, j + 1);
    }
  }

  lemma EditedLinkAt(slot: LRUHandle?, links: Links, newLinks: Links, chain: seq<LRUHandle>, k: nat,
                     mid: seq<LRUHandle>, k2: nat, i: nat)
    requires IsChain(slot, links, chain) && IdsDiffer(chain) && EditOk(chain, k, mid, k2)
    requires LinksEdited(links, newLinks, chain, k, mid, k2)
    requires i < |Edited(chain, k, mid, k2)|
    ensures var next := Edited(chain, k, mid, k2);
      next[i] in newLinks && newLinks[next[i]] == Target(next, i + 1)
  {
    EditedAt(chain, k, mid, k2, i);
    if i + 1 < |Edited(chain, k, mid, k2)| {
      EditedAt(chain, k, mid, k2, i + 1);
    }
    if !(k <= i < k + |mid|) {
      KeptLink(slot, links, newLinks, chain, k, mid, k2, OldPosition(k, mid, k2, i));
    }
  }

  lemma EditedIsChain(slot: LRUHandle?, links: Links, newLinks: Links, chain: seq<LRUHandle>, k: nat,
                      mid: seq<LRUHandle>, k2: nat)
    requires IsChain(slot, links, chain) && IdsDiffer(chain) && EditOk(chain, k, mid, k2)
    requires LinksEdited(links, newLinks, chain, k, mid, k2)
    ensures IsChain(if k == 0 then NewTarget(chain, mid, k2) else slot, newLinks, Edited(chain, k, mid, k2))
  {
    var newSlot := if k == 0 then NewTarget(chain, mid, k2) else slot;
    var next := Edited(chain, k, mid, k2);
    forall i | 0 <= i < |next| ensures next[i] in newLinks && newLinks[next[i]] == Target(next, i + 1) {
      EditedLinkAt(slot, links, newLinks, chain, k, mid, k2, i);
    }
    assert LinkBefore(slot, links, chain, 0) == Target(chain, 0);
  }

  /** Members of different chains are different handles. */
  lemma ChainsAreDisjoint(chains: Chains, view: View, b: nat, c: nat, i: nat, j: nat)
    requires b < |chains| && c < |chains| && b != c
    requires ChainOk(chains[b], b, |chains|, view) && ChainOk(chains[c], c, |chains|, view)
    requires i < |chains[b]| && j < |chains[c]|
    ensures chains[b][i] != chains[c][j]
  {
  }

  lemma OtherChainStays(slots: Slots, links: Links, newLinks: Links, chains: Chains, view: View,
                        b: nat, k: nat, mid: seq<LRUHandle>, k2: nat, c: nat)
    requires TableOk(slots, links, chains, view) && b < |chains| && EditOk(chains[b], k, mid, k2)
    requires mid != [] ==> Bucket(mid[0].hash, |chains|) == b
    requires LinksEdited(links, newLinks, chains[b], k, mid, k2)
    requires c < |chains| && c != b
    ensures IsChain(slots[c], newLinks, chains[c])
  {
    var chain := chains[c];
    assert IsChain(slots[c], links, chain);
    forall i | 0 <= i < |chain| ensures chain[i] in newLinks && newLinks[chain[i]] == links[chain[i]] {
      assert ChainOk(chains[c], c, |chains|, view);
      assert ChainOk(chains[b], b, |chains|, view);
      if k > 0 {
        ChainsAreDisjoint(chains, view, b, c, k - 1, i);
      }
      assert !Written(chains[b], k, mid, chain[i]);
    }
    forall p: nat | p <= |chain| ensures LinkBefore(slots[c], newLinks, chain, p) == Target(chain, p) {
      assert LinkBefore(slots[c], links, chain, p) == Target(chain, p);
    }
  }

  /** The map after the edit. */
  ghost function EditedView(view: View, chain: seq<LRUHandle>, k: nat, mid: seq<LRUHandle>, k2: nat): View
    requires k <= k2 <= |chain|
  {
    var rest := if k < k2 then view - {chain[k].Ident()} else view;
    if mid == [] then rest else rest[mid[0].Ident() := mid[0]]
  }

  lemma EditedChainOk(chain: seq<LRUHandle>, b: nat, length: nat, view: View, k: nat,
                      mid: seq<LRUHandle>, k2: nat)
    requires ChainOk(chain, b, length, view) && EditOk(chain, k, mid, k2)
    requires mid != [] ==> Bucket(mid[0].hash, length) == b
    ensures ChainOk(Edited(chain, k, mid, k2), b, length, EditedView(view, chain, k, mid, k2))
  {
    var next, newView := Edited(chain, k, mid, k2), EditedView(view, chain, k, mid, k2);
    forall i | 0 <= i < |next| ensures InView(newView, next[i]) && Bucket(next[i].hash, length) == b {
      EditedAt(chain, k, mid, k2, i);
      if next[i] !in mid {
        var j := OldPosition(k, mid, k2, i);
        assert InView(view, chain[j]);
        assert k < k2 ==> chain[k].Ident() != chain[j].Ident();
      }
    }
    forall i, j | 0 <= i < j < |next| ensures next[i].Ident() != next[j].Ident() {
      EditedAt(chain, k, mid, k2, i);
      EditedAt(chain, k, mid, k2, j);
    }
  }

  lemma OtherChainOk(chains: Chains, view: View, b: nat, k: nat, mid: seq<LRUHandle>, k2: nat, c: nat)
    requires b < |chains| && EditOk(chains[b], k, mid, k2)
    requires mid != [] ==> Bucket(mid[0].hash, |chains|) == b
    requires c < |chains| && c != b
    requires ChainOk(chains[b], b, |chains|, view) && ChainOk(chains[c], c, |chains|, view)
    ensures ChainOk(chains[c], c, |chains|, EditedView(view, chains[b], k, mid, k2))
  {
    forall i | 0 <= i < |chains[c]| ensures InView(EditedView(view, chains[b], k, mid, k2), chains[c][i]) {
      assert InView(view, chains[c][i]);
      if k < k2 {
        ChainsAreDisjoint(chains, view, b, c, k, i);
        assert InView(view, chains[b][k]);
      }
    }
  }

  lemma EditedCovered(chains: Chains, view: View, b: nat, k: nat, mid: seq<LRUHandle>, k2: nat)
    requires b < |chains| && EditOk(chains[b], k, mid, k2)
    requires mid != [] ==> Bucket(mid[0].hash, |chains|) == b
    requires ChainOk(chains[b], b, |chains|, view) && Covered(chains, view)
    ensures Covered(chains[b := Edited(chains[b], k, mid, k2)], EditedView(view, chains[b], k, mid, k2))
  {
    var newView := EditedView(view, chains[b], k, mid, k2);
    var next := Edited(chains[b], k, mid, k2);
    forall id | id in newView ensures CoveredAt(chains[b := next], newView, id) {
      if mid != [] && id == mid[0].Ident() {
        assert next[k] == mid[0];
      } else {
        assert id in view && newView[id] == view[id] && CoveredAt(chains, view, id);
        var i :| 0 <= i < |chains[Bucket(id.hash, |chains|)]| && chains[Bucket(id.hash, |chains|)][i] == view[id];
        if Bucket(id.hash, |chains|) == b {
          assert i < k ==> next[i] == view[id];
          assert i >= k2 ==> next[i + |mid| - (k2 - k)] == view[id];
        }
      }
    }
  }

  /** An edit of one chain is an edit of the map. */
  lemma EditedTableOk(slots: Slots, links: Links, newLinks: Links, chains: Chains, view: View,
                      b: nat, k: nat, mid: seq<LRUHandle>, k2: nat)
    requires TableOk(slots, links, chains, view) && b < |chains| && EditOk(chains[b], k, mid, k2)
    requires mid != [] ==> Bucket(mid[0].hash, |chains|) == b
    requires LinksEdited(links, newLinks, chains[b], k, mid, k2)
    ensures TableOk(if k == 0 then slots[b := NewTarget(chains[b], mid, k2)] else slots, newLinks,
                    chains[b := Edited(chains[b], k, mid, k2)], EditedView(view, chains[b], k, mid, k2))
  {
    var newSlots := if k == 0 then slots[b := NewTarget(chains[b], mid, k2)] else slots;
    var newChains := chains[b := Edited(chains[b], k, mid, k2)];
    assert IsChain(slots[b], links, chains[b]) && ChainOk(chains[b], b, |chains|, view);
    EditedIsChain(slots[b], links, newLinks, chains[b], k, mid, k2);
    EditedChainOk(chains[b], b, |chains|, view, k, mid, k2);
    EditedCovered(chains, view, b, k, mid, k2);
    forall c | 0 <= c < |chains|
      ensures IsChain(newSlots[c], newLinks, newChains[c])
      ensures ChainOk(newChains[c], c, |newChains|, EditedView(view, chains[b], k, mid, k2))
    {
      if c != b {
        OtherChainStays(slots, links, newLinks, chains, view, b, k, mid, k2, c);
        assert ChainOk(chains[c], c, |chains|, view);
        OtherChainOk(chains, view, b, k, mid, k2, c);
      }
    }
  }

  /** A handle put where the search for its id stops binds its id to it. */
  lemma ReplacedTableOk(slots: Slots, links: Links, newLinks: Links, chains: Chains, view: View,
                        b: nat, k: nat, h: LRUHandle)
    requires TableOk(slots, links, chains, view) && b < |chains| && Bucket(h.hash, |chains|) == b
    requires StopsAt(chains[b], h.Ident(), k)
    requires LinksEdited(links, newLinks, chains[b], k, [h], if k < |chains[b]| then k + 1 else k)
    ensures var k2 := if k < |chains[b]| then k + 1 else k;
      TableOk(if k == 0 then slots[b := h] else slots, newLinks,
              chains[b := Edited(chains[b], k, [h], k2)], view[h.Ident() := h])
  {
    var k2 := if k < |chains[b]| then k + 1 else k;
    assert ChainOk(chains[b], b, |chains|, view);
    assert k < |chains[b]| ==> InView(view, chains[b][k]);
    EditedTableOk(slots, links, newLinks, chains, view, b, k, [h], k2);
    assert view[h.Ident() := h] == EditedView(view, chains[b], k, [h], k2);
  }

  /** Only the links of bound handles matter. */
  lemma LinksAgree(slots: Slots, links: Links, links2: Links, chains: Chains, view: View)
    requires TableOk(slots, links, chains, view)
    requires forall id :: id in view ==>
      view[id] in links && view[id] in links2 && links2[view[id]] == links[view[id]]
    ensures TableOk(slots, links2, chains, view)
  {
    forall b | 0 <= b < |chains| ensures IsChain(slots[b], links2, chains[b]) {
      var chain := chains[b];
      assert IsChain(slots[b], links, chain) && ChainOk(chain, b, |chains|, view);
      forall i | 0 <= i < |chain| ensures chain[i] in links2 && links2[chain[i]] == links[chain[i]] {
        assert InView(view, chain[i]);
      }
      forall p: nat | p <= |chain| ensures LinkBefore(slots[b], links2, chain, p) == Target(chain, p) {
        assert LinkBefore(slots[b], links, chain, p) == Target(chain, p);
      }
    }
  }

  // ---------------------------------------------------------------------------------------
  // Moving to a new array of slots
  // ---------------------------------------------------------------------------------------

  /** Has the binding `id` been moved, when the old chain `i` is done up to position `p`? */
  ghost predicate IsMoved(view: View, chains: Chains, i: nat, p: nat, id: Id)
    requires id in view
  {
    var b := Bucket(id.hash, |chains|);
    b < i || (b == i && b < |chains| && exists q :: 0 <= q < p && q < |chains[b]| && chains[b][q] == view[id])
  }

  /** The new table holds exactly the moved bindings. */
  ghost predicate HoldsMoved(view: View, newView: View, chains: Chains, i: nat, p: nat) {
    && (forall id :: id in newView ==> id in view && newView[id] == view[id])
    && (forall id {:trigger IsMoved(view, chains, i, p, id)} :: id in view ==>
          (id in newView <==> IsMoved(view, chains, i, p, id)))
  }

  /** Handles that have not been moved keep their links. */
  ghost predicate Pending(links: Links, chains: Chains, i: nat, p: nat) {
    forall b, q {:trigger KeepsLink(links, chains, b, q)} ::
      i <= b < |chains| && 0 <= q < |chains[b]| && (b == i ==> q >= p) ==> KeepsLink(links, chains, b, q)
  }

  ghost predicate KeepsLink(links: Links, chains: Chains, b: nat, q: nat)
    requires b < |chains| && q < |chains[b]|
  {
    chains[b][q] in links && links[chains[b][q]] == Target(chains[b], q + 1)
  }

  lemma NothingMoved(slots: Slots, links: Links, chains: Chains, view: View)
    requires TableOk(slots, links, chains, view)
    ensures HoldsMoved(view, map[], chains, 0, 0) && Pending(links, chains, 0, 0)
  {
    forall b, q | 0 <= b < |chains| && 0 <= q < |chains[b]|
      ensures KeepsLink(links, chains, b, q)
    {
      assert IsChain(slots[b], links, chains[b]);
      assert LinkBefore(slots[b], links, chains[b], q + 1) == Target(chains[b], q + 1);
    }
  }

  lemma ChainIsMoved(slots: Slots, oldLinks: Links, chains: Chains, view: View, newView: View, links: Links,
                     i: nat)
    requires TableOk(slots, oldLinks, chains, view) && i < |chains|
    requires HoldsMoved(view, newView, chains, i, |chains[i]|) && Pending(links, chains, i, |chains[i]|)
    ensures HoldsMoved(view, newView, chains, i + 1, 0) && Pending(links, chains, i + 1, 0)
  {
    forall id | id in view ensures id in newView <==> IsMoved(view, chains, i + 1, 0, id) {
      assert CoveredAt(chains, view, id);
      assert id in newView <==> IsMoved(view, chains, i, |chains[i]|, id);
    }
  }

  lemma AllMoved(slots: Slots, oldLinks: Links, chains: Chains, view: View, newView: View)
    requires TableOk(slots, oldLinks, chains, view)
    requires HoldsMoved(view, newView, chains, |chains|, 0)
    ensures newView == view
  {
    forall id | id in view ensures id in newView {
      assert CoveredAt(chains, view, id);
      assert IsMoved(view, chains, |chains|, 0, id);
    }
  }

  lemma NextIsNotMoved(view: View, newView: View, chains: Chains, i: nat, p: nat)
    requires i < |chains| && p < |chains[i]| && ChainOk(chains[i], i, |chains|, view)
    requires HoldsMoved(view, newView, chains, i, p)
    ensures chains[i][p].Ident() in view && view[chains[i][p].Ident()] == chains[i][p]
    ensures chains[i][p].Ident() !in newView
  {
    assert InView(view, chains[i][p]);
    assert !IsMoved(view, chains, i, p, chains[i][p].Ident());
  }

  lemma NextIsMoved(view: View, newView: View, chains: Chains, i: nat, p: nat)
    requires i < |chains| && p < |chains[i]| && ChainOk(chains[i], i, |chains|, view)
    requires Covered(chains, view)
    requires HoldsMoved(view, newView, chains, i, p)
    ensures HoldsMoved(view, newView[chains[i][p].Ident() := chains[i][p]], chains, i, p + 1)
  {
    var h := chains[i][p];
    NextIsNotMoved(view, newView, chains, i, p);
    forall id | id in view
      ensures IsMoved(view, chains, i, p + 1, id) <==> IsMoved(view, chains, i, p, id) || id == h.Ident()
    {
      assert CoveredAt(chains, view, id);
    }
  }

  lemma OthersStayPending(chains: Chains, view: View, links: Links, newLinks: Links, i: nat, p: nat)
    requires i < |chains| && p < |chains[i]|
    requires forall b :: 0 <= b < |chains| ==> ChainOk(chains[b], b, |chains|, view)
    requires Pending(links, chains, i, p)
    requires forall n :: n in links && n != chains[i][p] ==> n in newLinks && newLinks[n] == links[n]
    ensures Pending(newLinks, chains, i, p + 1)
  {
    forall b, q | i <= b < |chains| && 0 <= q < |chains[b]| && (b == i ==> q >= p + 1)
      ensures KeepsLink(newLinks, chains, b, q)
    {
      assert KeepsLink(links, chains, b, q);
      assert ChainOk(chains[b], b, |chains|, view) && ChainOk(chains[i], i, |chains|, view);
      if b != i {
        ChainsAreDisjoint(chains, view, b, i, q, p);
      } else {
        assert chains[i][p].Ident() != chains[i][q].Ident();
      }
    }
  }

  // ---------------------------------------------------------------------------------------
  // The table
  // ---------------------------------------------------------------------------------------

  ghost function LinksOf(nodes: set<LRUHandle>): Links
    reads nodes
  {
    map n | n in nodes :: n.nextHash
  }

  lemma NodesAgree(slots: Slots, from: set<LRUHandle>, to: set<LRUHandle>, chains: Chains, view: View)
    requires TableOk(slots, LinksOf(from), chains, view)
    requires forall id :: id in view ==> view[id] in from && view[id] in to
    ensures TableOk(slots, LinksOf(to), chains, view)
  {
    LinksAgree(slots, LinksOf(from), LinksOf(to), chains, view);
  }

  /** A table with no bindings. */
  lemma EmptyTable(slots: Slots, chains: Chains)
    requires |slots| == |chains| > 0
    requires forall b :: 0 <= b < |slots| ==> slots[b] == null && chains[b] == []
    ensures TableOk(slots, map[], chains, map[])
  {
  }

  lemma SlotHoldsFirst(slots: Slots, links: Links, chains: Chains, view: View, b: nat)
    requires TableOk(slots, links, chains, view) && b < |chains|
    ensures slots[b] == Target(chains[b], 0)
  {
    assert IsChain(slots[b], links, chains[b]);
    assert LinkBefore(slots[b], links, chains[b], 0) == Target(chains[b], 0);
  }

  lemma ChainLink(slots: Slots, links: Links, chains: Chains, view: View, b: nat, i: nat)
    requires TableOk(slots, links, chains, view) && b < |chains| && i < |chains[b]|
    ensures InView(view, chains[b][i])
    ensures chains[b][i] in links && links[chains[b][i]] == Target(chains[b], i + 1)
  {
    assert IsChain(slots[b], links, chains[b]) && ChainOk(chains[b], b, |chains|, view);
    assert LinkBefore(slots[b], links, chains[b], i + 1) == Target(chains[b], i + 1);
  }

  /** Puts a handle at the front of its chain. */
  method PushFront(list: array<LRUHandle?>, h: LRUHandle, ghost nodes: set<LRUHandle>,
                   ghost chains: Chains, ghost view: View)
    returns (ghost newChains: Chains, ghost newView: View)
    requires list.Length > 0 && h in nodes && h.Ident() !in view
    requires TableOk(list[..], LinksOf(nodes), chains, view)
    modifies list, h
    ensures newView == view[h.Ident() := h] && TableOk(list[..], LinksOf(nodes), newChains, newView)
    ensures forall n :: n in nodes && n != h ==> n.nextHash == old(n.nextHash)
  {
    var b := Bucket(h.hash, list.Length);
    ghost var slots, links := list[..], LinksOf(nodes);
    assert IsChain(slots[b], links, chains[b]) && ChainOk(chains[b], b, |chains|, view);
    assert LinkBefore(slots[b], links, chains[b], 0) == Target(chains[b], 0);
    assert EditOk(chains[b], 0, [h], 0) by {
      forall i | 0 <= i < |chains[b]| ensures chains[b][i].Ident() != h.Ident() {
        assert InView(view, chains[b][i]);
      }
    }
    h.nextHash := list[b];
    list[b] := h;
    assert list[..] == slots[b := h];
    EditedTableOk(slots, links, LinksOf(nodes), chains, view, b, 0, [h], 0);
    newChains, newView := chains[b := Edited(chains[b], 0, [h], 0)], view[h.Ident() := h];
  }

  /** A pointer to a link: a slot of the table, or the `nextHash` of a handle. */
  datatype Link = Slot(bucket: nat) | NextOf(handle: LRUHandle)

  /** The pointer to the link before position `k` of a chain. */
  function LinkTo(bucket: nat, chain: seq<LRUHandle>, k: nat): Link
    requires k <= |chain|
  {
    if k == 0 then Slot(bucket) else NextOf(chain[k - 1])
  }

  /** One handle too many for a power of two asks for exactly the double. */
  lemma LengthDoubles(before: nat, after: nat)
    requires IsPow2(before) && IsPow2(after) && before < after < 2 * before + 2 && before > 1
    ensures after == 2 * before
  {
    var k: nat :| before == Pow2(k);
    assert Pow2(k + 1) == 2 * before;
    if after < 2 * before {
      NoPowerBetween(before, after);
    } else {
      NoPowerBetween(2 * before, after);
    }
  }

  class HandleTable {
    var length: Uint32
    var elems: Uint32
    var list: array<LRUHandle?>

    ghost var chains: Chains

    /** The bindings. */
    ghost var view: View

    /** Calls of `Insert` so far, and handles relinked by `Resize` so far. */
    ghost var inserts: nat
    ghost var moved: nat

    ghost predicate Linked()
      reads this, list, view.Values
    {
      && list.Length == length == |chains|
      && elems == |view|
      && TableOk(list[..], LinksOf(view.Values), chains, view)
    }

    /** The load bound, and what pays for the resizing so far. */
    ghost predicate Paid()
      reads this
    {
      && elems <= length
      && elems <= inserts
      && (length == 4 || 2 * (inserts - 1) >= length)
      && 2 * moved <= 3 * length - 12
    }

    ghost predicate Valid()
      reads this, list, view.Values
    {
      Linked() && IsPow2(length) && length >= 4 && Paid()
    }

    constructor ()
      ensures Valid() && fresh(list)
      ensures view == map[] && length == 4 && inserts == 0
    {
      length, elems, list := 0, 0, new LRUHandle?[0];
      chains, view, inserts, moved := [], map[], 0, 0;
      new;
      Resize();
      assert IsPow2(4) by {
        assert 4 == Pow2(2);
      }
    }

    /** Moves every handle to a new array, whose length is the least power of two from 4 that is at
        least the number of handles. */
    method Resize()
      requires Linked() && elems <= TWO_TO_31
      modifies this`length, this`list, this`chains, this`moved, view.Values
      ensures Linked() && fresh(list)
      ensures IsPow2(length) && elems <= length && (length == 4 || 4 < length < 2 * elems)
      ensures moved == old(moved) + elems
    {
      var newLength := NewLength(elems);
      var newList, newChains, newView := EmptyList(newLength);
      var count;
      count, newChains := MoveAll(newList, newChains, newView);
      assert elems == count;
      moved := moved + count;
      Install(newList, newLength, newChains);
    }

    /** Moves the old chains one by one. */
    method MoveAll(newList: array<LRUHandle?>, ghost chainsBefore: Chains, ghost viewBefore: View)
      returns (count: nat, ghost newChains: Chains)
      requires Linked() && newList.Length > 0 && newList != list
      requires viewBefore == map[] && Moving(newList, chainsBefore, viewBefore, 0, 0)
      modifies newList, view.Values
      ensures TableOk(newList[..], LinksOf(view.Values), newChains, view)
      ensures count == |view|
    {
      ghost var links := LinksOf(view.Values);
      ghost var newView;
      count, newChains, newView := 0, chainsBefore, viewBefore;
      var i := 0;
      while i < length
        invariant 0 <= i <= length
        invariant Moving(newList, newChains, newView, i, 0)
        invariant count == |newView|
      {
        count, newChains, newView := MoveChain(i, newList, count, links, newChains, newView);
        i := i + 1;
      }
      AllMoved(list[..], links, chains, view, newView);
    }

    /** A new array of slots, to which nothing has been moved. */
    method EmptyList(newLength: Uint32)
      returns (newList: array<LRUHandle?>, ghost newChains: Chains, ghost newView: View)
      requires Linked() && newLength > 0
      ensures fresh(newList) && newList.Length == newLength
      ensures newView == map[] && Moving(newList, newChains, newView, 0, 0)
    {
      newList := new LRUHandle?[newLength](_ => null);
      newChains, newView := seq(newLength, _ => []), map[];
      ghost var links := LinksOf(view.Values);
      EmptyTable(newList[..], newChains);
      LinksAgree(newList[..], map[], links, newChains, newView);
      NothingMoved(list[..], links, chains, view);
    }

    method Install(newList: array<LRUHandle?>, newLength: Uint32, ghost newChains: Chains)
      requires newList.Length == newLength == |newChains| > 0 && elems == |view|
      requires TableOk(newList[..], LinksOf(view.Values), newChains, view)
      modifies this`length, this`list, this`chains
      ensures list == newList && length == newLength && Linked()
    {
      list, length, chains := newList, newLength, newChains;
    }

    /** The old chains before `i`, and the first `p` handles of chain `i`, are in the new table. */
    ghost predicate Moving(newList: array<LRUHandle?>, newChains: Chains, newView: View, i: nat, p: nat)
      reads this, newList, view.Values
    {
      && TableOk(newList[..], LinksOf(view.Values), newChains, newView)
      && HoldsMoved(view, newView, chains, i, p)
      && Pending(LinksOf(view.Values), chains, i, p)
    }

    /** Moves one handle to the front of its new chain. */
    method MoveHandle(h: LRUHandle, newList: array<LRUHandle?>, ghost i: nat, ghost p: nat, ghost slots: Slots,
                      ghost links: Links, ghost chainsBefore: Chains, ghost viewBefore: View)
      returns (next: LRUHandle?, ghost newChains: Chains, ghost newView: View)
      requires newList.Length > 0 && i < |chains| && p < |chains[i]| && h == chains[i][p]
      requires TableOk(slots, links, chains, view) && Moving(newList, chainsBefore, viewBefore, i, p)
      modifies newList, view.Values
      ensures Moving(newList, newChains, newView, i, p + 1)
      ensures next == Target(chains[i], p + 1) && |newView| == |viewBefore| + 1
    {
      assert ChainOk(chains[i], i, |chains|, view) && InView(view, h);
      NextIsNotMoved(view, viewBefore, chains, i, p);
      NextIsMoved(view, viewBefore, chains, i, p);
      ghost var before := LinksOf(view.Values);
      assert KeepsLink(before, chains, i, p);
      next := h.nextHash;
      newChains, newView := PushFront(newList, h, view.Values, chainsBefore, viewBefore);
      OthersStayPending(chains, view, before, LinksOf(view.Values), i, p);
    }

    /** Moves one old chain, handle by handle. */
    method MoveChain(i: nat, newList: array<LRUHandle?>, countBefore: nat, ghost links: Links,
                     ghost chainsBefore: Chains, ghost viewBefore: View)
      returns (count: nat, ghost newChains: Chains, ghost newView: View)
      requires newList.Length > 0 && newList != list && i < list.Length && countBefore == |viewBefore|
      requires TableOk(list[..], links, chains, view) && Moving(newList, chainsBefore, viewBefore, i, 0)
      modifies newList, view.Values
      ensures Moving(newList, newChains, newView, i + 1, 0)
      ensures count == |newView|
    {
      count, newChains, newView := countBefore, chainsBefore, viewBefore;
      var h := list[i];
      ghost var slots, p := list[..], 0;
      SlotHoldsFirst(slots, links, chains, view, i);
      while h != null
        invariant 0 <= p <= |chains[i]| && h == Target(chains[i], p)
        invariant Moving(newList, newChains, newView, i, p)
        invariant count == |newView|
        decreases |chains[i]| - p
      {
        h, newChains, newView := MoveHandle(h, newList, i, p, slots, links, newChains, newView);
        count := count + 1;
        p := p + 1;
      }
      ChainIsMoved(slots, links, chains, view, newView, LinksOf(view.Values), i);
    }

    /** The least power of two from 4 that is at least the number of handles. */
    static method NewLength(elems: Uint32) returns (n: Uint32)
      requires elems <= TWO_TO_31
      ensures IsPow2(n) && elems <= n && (n == 4 || 4 < n < 2 * elems)
    {
      n := 4;
      assert 4 == Pow2(2);
      ghost var k: nat := 2;
      while n < elems
        invariant n == Pow2(k) && (n == 4 || 4 < n < 2 * elems)
        decreases elems - n
      {
        n := 2 * n;
        k := k + 1;
      }
    }

    /** The pointer to the link that holds the handle with this id, or to the null that ends its
        chain. */
    method FindPointer(key: Slice, hash: Uint32) returns (ptr: Link)
      requires Valid()
      ensures var b := Bucket(hash, length); var chain := chains[b];
        var k := StopOf(chain, Id(hash, key));
        && b == hash % length
        && ptr == LinkTo(b, chain, k)
        && (forall i :: 0 <= i < k ==> chain[i].hash != hash || chain[i].key != key)
        && (k < |chain| ==> chain[k].hash == hash && chain[k].key == key)
    {
      var b := Bucket(hash, length);
      BucketIsRemainder(hash, length);
      ghost var links := LinksOf(view.Values);
      SlotHoldsFirst(list[..], links, chains, view, b);
      ghost var k := 0;
      ptr := Slot(b);
      var h := list[b];
      while h != null && (h.hash != hash || key != h.key)
        invariant k <= |chains[b]| && h == Target(chains[b], k) && ptr == LinkTo(b, chains[b], k)
        invariant forall i :: 0 <= i < k ==> chains[b][i].Ident() != Id(hash, key)
        decreases |chains[b]| - k
      {
        ChainLink(list[..], links, chains, view, b, k);
        ptr := NextOf(h);
        h := h.nextHash;
        k := k + 1;
      }
      StopIsUnique(chains[b], Id(hash, key), k);
    }

    /** Reads the link pointed to. */
    method Load(ptr: Link, ghost b: nat, ghost k: nat) returns (h: LRUHandle?)
      requires Linked() && b < length && k <= |chains[b]| && ptr == LinkTo(b, chains[b], k)
      ensures h == Target(chains[b], k)
    {
      SlotHoldsFirst(list[..], LinksOf(view.Values), chains, view, b);
      if k > 0 {
        ChainLink(list[..], LinksOf(view.Values), chains, view, b, k - 1);
      }
      match ptr
      case Slot(bucket) => h := list[bucket];
      case NextOf(handle) => h := handle.nextHash;
    }

    /** Writes the link pointed to. */
    method Store(ptr: Link, h: LRUHandle?)
      requires ptr.Slot? ==> ptr.bucket < list.Length
      modifies if ptr.Slot? then {} else {ptr.handle}, if ptr.Slot? then {list} else {}
      ensures ptr.Slot? ==> list[..] == old(list[..])[ptr.bucket := h]
      ensures ptr.NextOf? ==> ptr.handle.nextHash == h
    {
      match ptr
      case Slot(bucket) => list[bucket] := h;
      case NextOf(handle) => handle.nextHash := h;
    }

    /** The pointer to the link where the search for the id stops, and what the link holds. */
    method FindBinding(key: Slice, hash: Uint32)
      returns (ptr: Link, found: LRUHandle?, ghost b: nat, ghost k: nat)
      requires Valid()
      ensures b == Bucket(hash, length) < length && StopsAt(chains[b], Id(hash, key), k)
      ensures ptr == LinkTo(b, chains[b], k) && found == Target(chains[b], k)
      ensures found == (if Id(hash, key) in view then view[Id(hash, key)] else null)
    {
      ptr := FindPointer(key, hash);
      b := Bucket(hash, length);
      k := StopOf(chains[b], Id(hash, key));
      SearchFindsBinding(list[..], LinksOf(view.Values), chains, view, Id(hash, key), k);
      found := Load(ptr, b, k);
    }

    /** The handle bound to the id, or null. */
    method Lookup(key: Slice, hash: Uint32) returns (h: LRUHandle?)
      requires Valid()
      ensures h == (if Id(hash, key) in view then view[Id(hash, key)] else null)
      ensures h != null ==> h in view.Values && h.hash == hash && h.key == key
      ensures h == null ==> forall g | g in view.Values :: g.hash != hash || g.key != key
    {
      BindingIsFound(chains, view, hash, key);
      var ptr, found, b, k := FindBinding(key, hash);
      h := found;
    }

    /** Writes the link of `h` and the link that is to hold `h`. */
    method WriteLinks(h: LRUHandle, ptr: Link, ghost nodes: set<LRUHandle>, ghost chain: seq<LRUHandle>,
                      ghost b: nat, ghost k: nat, found: LRUHandle?)
      requires b < list.Length && k <= |chain| && ptr == LinkTo(b, chain, k) && found == Target(chain, k)
      requires h in nodes && (k > 0 ==> chain[k - 1] in nodes && chain[k - 1] != h)
      requires k < |chain| ==> chain[k].nextHash == Target(chain, k + 1)
      modifies list, nodes
      ensures list[..] == if k == 0 then old(list[..])[b := h] else old(list[..])
      ensures LinksEdited(old(LinksOf(nodes)), LinksOf(nodes), chain, k, [h], if k < |chain| then k + 1 else k)
    {
      h.nextHash := if found == null then null else found.nextHash;
      Store(ptr, h);
    }

    /** Points the link at `h`, which takes the place of the handle found there. */
    method LinkIn(h: LRUHandle, ptr: Link, ghost b: nat, ghost k: nat, found: LRUHandle?)
      requires Linked() && b < length && b == Bucket(h.hash, length)
      requires StopsAt(chains[b], h.Ident(), k) && ptr == LinkTo(b, chains[b], k)
      requires found == Target(chains[b], k)
      modifies list, view.Values, h, this`chains, this`view
      ensures view == old(view)[h.Ident() := h] && |chains| == |old(chains)|
      ensures TableOk(list[..], LinksOf(view.Values), chains, view)
    {
      ghost var slots, chain, nodes := list[..], chains[b], view.Values + {h};
      ghost var k2 := if k < |chain| then k + 1 else k;
      ghost var links := LinksOf(nodes);
      NodesAgree(slots, view.Values, nodes, chains, view);
      assert ChainOk(chain, b, |chains|, view);
      if k > 0 {
        assert InView(view, chain[k - 1]);
      }
      if found != null {
        ChainLink(slots, links, chains, view, b, k);
      }
      WriteLinks(h, ptr, nodes, chain, b, k, found);
      ReplacedTableOk(slots, links, LinksOf(nodes), chains, view, b, k, h);
      chains := chains[b := Edited(chain, k, [h], k2)];
      view := view[h.Ident() := h];
      NodesAgree(list[..], nodes, view.Values, chains, view);
    }

    /** Points the link past `found`, which leaves the chain. */
    method LinkOut(found: LRUHandle, ptr: Link, ghost b: nat, ghost k: nat)
      requires Linked() && b < length && k < |chains[b]|
      requires ptr == LinkTo(b, chains[b], k) && found == chains[b][k]
      modifies list, view.Values, this`chains, this`view, this`elems
      ensures view == old(view) - {found.Ident()} && found.Ident() in old(view) && elems == old(elems) - 1
      ensures Linked()
    {
      ghost var slots, chain, nodes := list[..], chains[b], view.Values;
      ghost var links := LinksOf(nodes);
      assert ChainOk(chain, b, |chains|, view);
      if k > 0 {
        assert InView(view, chain[k - 1]);
      }
      ChainLink(slots, links, chains, view, b, k);
      Store(ptr, found.nextHash);
      elems := elems - 1;
      assert list[..] == if k == 0 then slots[b := NewTarget(chain, [], k + 1)] else slots;
      EditedTableOk(slots, links, LinksOf(nodes), chains, view, b, k, [], k + 1);
      chains := chains[b := Edited(chain, k, [], k + 1)];
      view := view - {found.Ident()};
      NodesAgree(list[..], nodes, view.Values, chains, view);
    }

    /** Binds the id of `h` to `h`, and returns the handle that was bound to it before, or null.
        The handle may be new, may have been removed before, or may be in the table already. */
    method Insert(h: LRUHandle) returns (replaced: LRUHandle?)
      requires Valid()
      requires h.Ident() in view || elems < TWO_TO_31
      modifies this, list, view.Values, h
      ensures Valid()
      ensures view == old(view)[h.Ident() := h]
      ensures replaced == old(if h.Ident() in view then view[h.Ident()] else null)
      ensures replaced != null ==> replaced in old(view.Values) && replaced.hash == h.hash && replaced.key == h.key
      ensures replaced == null ==> forall g | g in old(view.Values) :: g.hash != h.hash || g.key != h.key
      ensures view.Values == (set g | g in old(view.Values) && g != replaced) + {h}
      ensures inserts == old(inserts) + 1
      ensures length == old(length) || length == 2 * old(length)
      ensures list == old(list) || fresh(list)
    {
      BindingIsFound(chains, view, h.hash, h.key);
      BoundHandles(chains, view, h);
      var ptr, found, b, k := FindBinding(h.key, h.hash);
      replaced := found;
      inserts := inserts + 1;
      LinkIn(h, ptr, b, k, replaced);
      if replaced == null {
        CountOne();
      }
    }

    /** Counts a new handle, and makes room if the table is full. */
    method CountOne()
      requires list.Length == length == |chains| && elems + 1 == |view| && elems < TWO_TO_31
      requires TableOk(list[..], LinksOf(view.Values), chains, view)
      requires IsPow2(length) && length >= 4 && elems <= length && elems < inserts
      requires length == 4 || 2 * (inserts - 2) >= length
      requires 2 * moved <= 3 * length - 12
      modifies this`elems, this`length, this`list, this`chains, this`moved, view.Values
      ensures Valid()
      ensures length == old(length) || length == 2 * old(length)
      ensures list == old(list) || fresh(list)
    {
      elems := elems + 1;
      if elems > length {
        ghost var before := length;
        Resize();
        LengthDoubles(before, length);
      }
    }

    /** Unbinds the id, and returns the handle that was bound to it, or null. */
    method Remove(key: Slice, hash: Uint32) returns (removed: LRUHandle?)
      requires Valid()
      modifies this, list, view.Values
      ensures Valid()
      ensures view == old(view) - {Id(hash, key)}
      ensures removed == old(if Id(hash, key) in view then view[Id(hash, key)] else null)
      ensures removed != null ==> removed in old(view.Values) && removed.hash == hash && removed.key == key
      ensures removed == null ==> forall g | g in old(view.Values) :: g.hash != hash || g.key != key
      ensures view.Values == set g | g in old(view.Values) && g != removed
      ensures length == old(length) && list == old(list) && inserts == old(inserts) && moved == old(moved)
    {
      BindingIsFound(chains, view, hash, key);
      UnboundHandles(chains, view, Id(hash, key));
      var ptr, found, b, k := FindBinding(key, hash);
      removed := found;
      if removed != null {
        LinkOut(removed, ptr, b, k);
      }
    }

    /** A handle of the table is in the chain that begins in the slot of its hash, and in no other;
        and no other handle has both its hash and its key. */
    lemma HandleIsInItsSlot(h: LRUHandle)
      requires Valid() && h in view.Values
      ensures h in chains[h.hash % length]
      ensures forall b | 0 <= b < length && h in chains[b] :: b == h.hash % length
      ensures forall g | g in view.Values && g.hash == h.hash && g.key == h.key :: g == h
    {
      BucketIsRemainder(h.hash, length);
      BindingIsFound(chains, view, h.hash, h.key);
      assert CoveredAt(chains, view, Id(h.hash, h.key));
      forall b | 0 <= b < length && h in chains[b] ensures b == h.hash % length {
        assert ChainOk(chains[b], b, |chains|, view);
      }
    }

    /** The cost of resizing, spread over the calls of `Insert`: at most three relinked handles
        for each. */
    lemma ResizingIsAmortised()
      requires Valid()
      ensures moved <= 3 * inserts
      ensures |view| <= length
    {
    }
  }
}
