/** The skip list as a mutable structure: searches, the sequential insert with its cached splice,
    and inserts that link by CAS but do not overlap with others. */
module SkipList {
  import opened Keys
  import opened SkipListOrder

  /** `kMaxPossibleHeight`. */
  const MAX_POSSIBLE_HEIGHT: nat := 32

  /** Cached search path: on every level below `height` a predecessor and a successor, with
      sentinels at index `height`. */
  class Splice {
    var height: nat
    const prev: array<Node?>
    const next: array<Node?>

    /** `AllocateSplice`: room for one entry more than the list has levels. */
    constructor (maxLevels: nat)
      ensures height == 0 && prev != next && fresh(prev) && fresh(next)
      ensures prev.Length == next.Length == maxLevels + 1
    {
      height := 0;
      prev := new Node?[maxLevels + 1](i => null);
      next := new Node?[maxLevels + 1](i => null);
    }

    /** Store the bracket of one level through the out-pointers `&prev_[i]` and `&next_[i]`. */
    method SetLevel(i: nat, p: Node, n: Node?)
      requires prev != next && i < prev.Length && i < next.Length
      modifies prev, next
      ensures prev[..] == old(prev[..])[i := p]
      ensures next[..] == old(next[..])[i := n]
    {
      prev[i] := p;
      next[i] := n;
    }

    /** The inserted node becomes the predecessor on the levels it occupies, below `n`. */
    method SetPredecessors(x: Node, n: nat)
      requires n <= prev.Length
      modifies prev
      ensures prev[..] == WithPrev(old(prev[..]), x, n)
    {
      for i := 0 to n
        invariant forall j | 0 <= j < prev.Length :: prev[j] == if j < i then x else old(prev[j])
      {
        prev[i] := x;
      }
    }
  }

  method Record(a: array<Node?>, i: nat, x: Node)
    requires i < a.Length
    modifies a
    ensures a[..] == old(a[..])[i := x]
  {
    a[i] := x;
  }

  class SkipList {
    const maxLevels: nat
    const head: Node
    const seqSplice: Splice
    var maxHeight: nat
    /** The nodes linked on each level. */
    ghost var levels: Levels

    ghost function Nodes(): set<Node>
      reads this
    {
      if levels == [] then {head} else levels[0] + {head}
    }

    /** The links as the heap holds them. */
    ghost function Links(): LinkMap
      reads this, Nodes()
    {
      map n | n in Nodes() :: n.next
    }

    /** Every level is a strictly sorted list of exactly its linked nodes, and levels are nested. */
    ghost predicate Valid()
      reads this, Nodes()
    {
      && 1 <= maxHeight <= maxLevels == |levels|
      && seqSplice.prev.Length == maxLevels + 1
      && ListOk(head, levels, Links())
    }

    ghost predicate Fits(splice: Splice)
      reads this, splice, splice.prev, splice.next
    {
      && splice.prev != splice.next
      && SpliceOk(head, levels, maxHeight, splice.height, splice.prev[..], splice.next[..])
    }

    /** What the list is for: the set of its keys. */
    ghost function KeySet(): set<Key>
      reads this
    {
      if levels == [] then {} else set n | n in levels[0] :: n.key
    }

    constructor (maxLevels: nat)
      requires 1 <= maxLevels
      ensures Valid() && Fits(seqSplice) && KeySet() == {} && maxHeight == 1 && this.maxLevels == maxLevels
      ensures fresh(head) && fresh(seqSplice) && fresh(seqSplice.prev) && fresh(seqSplice.next)
    {
      this.maxLevels := maxLevels;
      head := new Node(0.0, maxLevels);
      maxHeight := 1;
      seqSplice := new Splice(maxLevels);
      levels := seq(maxLevels, i => {});
    }

    // -------------------------------------------------------------------------------------
    // Searches
    // -------------------------------------------------------------------------------------

    /** The nodes after `x` on level 0: what a search can still move over. */
    ghost function Ahead(x: Node): set<Node>
      reads this
    {
      if levels == [] then {} else set m | m in levels[0] && Before(head, x, m.key)
    }

    /** One read of a link during a search for `key`. */
    lemma ReadNext(x: Node, i: nat, key: Key)
      requires Valid() && i < maxLevels && IsNode(head, levels[i], x) && Before(head, x, key)
      ensures i < |x.next| && IsSuccessor(head, levels[i], x, x.next[i])
      ensures KeyIsAfterNode(key, x.next[i]) ==>
                x.next[i] in levels[i] && x.next[i] != head && Ahead(x.next[i]) < Ahead(x)
      ensures !KeyIsAfterNode(key, x.next[i]) ==>
                && IsLastBefore(head, levels[i], x, key)
                && IsFirstFrom(levels[i], x.next[i], key) && NotBefore(levels[i], x.next[i], key)
    {
      assert LinkOk(head, levels, Links(), i, x);
      ReadLink(head, levels[i], x, x.next[i], key);
      if KeyIsAfterNode(key, x.next[i]) {
        var s := x.next[i];
        assert s in Ahead(x) && s !in Ahead(s);
      }
    }

    method FindGreaterOrEqual(key: Key) returns (r: Node?)
      requires Valid()
      ensures IsFirstFrom(levels[0], r, key)
    {
      var x := head;
      var level := maxHeight - 1;
      var lastBigger: Node? := null;
      while true
        invariant 0 <= level < maxHeight
        invariant IsNode(head, levels[level], x) && Before(head, x, key)
        invariant lastBigger != null ==> lastBigger in levels[level] && lastBigger.key > key
        decreases level, Ahead(x)
      {
        ReadNext(x, level, key);
        var next := x.next[level];
        assert x == head || next == null || KeyIsAfterNode(next.key, x);
        assert x == head || KeyIsAfterNode(key, x);
        var bigger := next == null || next == lastBigger || next.key > key;
        if (!bigger && next.key == key) || (bigger && level == 0) {
          return next;
        } else if !bigger {
          x := next;
        } else {
          lastBigger := next;
          level := level - 1;
        }
      }
    }

    method Contains(key: Key) returns (found: bool)
      requires Valid()
      ensures found <==> key in KeySet()
    {
      var x := FindGreaterOrEqual(key);
      found := x != null && x.key == key;
    }

    /** The five-argument `FindLessThan`; `prev` may be null. */
    method FindLessThanFrom(key: Key, prev: array?<Node?>, root: Node, top: nat, bottom: nat) returns (r: Node)
      requires Valid() && bottom < top <= maxLevels
      requires IsNode(head, levels[top - 1], root) && Before(head, root, key)
      requires prev != null ==> top <= prev.Length
      modifies prev
      ensures IsLastBefore(head, levels[bottom], r, key)
      ensures prev != null ==>
                && LastBeforeOn(head, levels, prev[..], bottom, top, key)
                && prev[..bottom] == old(prev[..bottom]) && prev[top..] == old(prev[top..])
    {
      var level := top - 1;
      var x := root;
      var lastNotAfter: Node? := null;
      ghost var found: seq<Node?> := if prev == null then seq(top, i => null) else prev[..];
      ghost var before := found;
      while true
        invariant bottom <= level < top <= |found|
        invariant IsNode(head, levels[level], x) && Before(head, x, key)
        invariant lastNotAfter != null ==> lastNotAfter in levels[level] && lastNotAfter.key >= key
        invariant LastBeforeOn(head, levels, found, level + 1, top, key)
        invariant |found| == |before| && found[..bottom] == before[..bottom] && found[top..] == before[top..]
        invariant prev != null ==> prev[..] == found
        decreases level, Ahead(x)
      {
        ReadNext(x, level, key);
        var next := x.next[level];
        assert x == head || next == null || KeyIsAfterNode(next.key, x);
        assert x == head || KeyIsAfterNode(key, x);
        if next != lastNotAfter && KeyIsAfterNode(key, next) {
          x := next;
        } else {
          LastBeforeOnExtends(head, levels, found, level, bottom, top, key, x);
          found := found[level := x];
          if prev != null {
            Record(prev, level, x);
          }
          if level == bottom {
            return x;
          }
          lastNotAfter := next;
          level := level - 1;
        }
      }
    }

    method FindLessThan(key: Key, prev: array?<Node?>) returns (r: Node)
      requires Valid() && (prev != null ==> maxHeight <= prev.Length)
      modifies prev
      ensures IsLastBefore(head, levels[0], r, key)
      ensures prev != null ==>
                LastBeforeOn(head, levels, prev[..], 0, maxHeight, key) && prev[maxHeight..] == old(prev[maxHeight..])
    {
      r := FindLessThanFrom(key, prev, head, maxHeight, 0);
    }

    /** The last node of level 0, or the head of an empty list. */
    ghost predicate IsLast(r: Node)
      reads this
      requires levels != []
    {
      IsNode(head, levels[0], r) && forall m | m in levels[0] :: r != head && m.key <= r.key
    }

    method FindLast() returns (r: Node)
      requires Valid()
      ensures IsLast(r)
    {
      var x := head;
      var level := maxHeight - 1;
      while true
        invariant 0 <= level < maxHeight
        invariant IsNode(head, levels[level], x)
        decreases level, Ahead(x)
      {
        assert LinkOk(head, levels, Links(), level, x);
        var next := x.next[level];
        if next == null {
          if level == 0 {
            return x;
          }
          level := level - 1;
        } else {
          assert next in Ahead(x) && next !in Ahead(next);
          x := next;
        }
      }
    }

    // -------------------------------------------------------------------------------------
    // Splices
    // -------------------------------------------------------------------------------------

    /** `FindSpliceForLevel`: the exact bracket of the key on one level. */
    method FindSpliceForLevel(key: Key, before: Node, after: Node?, level: nat) returns (outPrev: Node, outNext: Node?)
      requires Valid() && level < maxLevels
      requires IsNode(head, levels[level], before) && Before(head, before, key) && NotBefore(levels[level], after, key)
      ensures IsLastBefore(head, levels[level], outPrev, key) && IsFirstFrom(levels[level], outNext, key)
    {
      var x := before;
      while true
        invariant IsNode(head, levels[level], x) && Before(head, x, key)
        decreases Ahead(x)
      {
        ReadNext(x, level, key);
        var next := x.next[level];
        assert x == head || next == null || KeyIsAfterNode(next.key, x);
        assert x == head || KeyIsAfterNode(key, x);
        if next == after || !KeyIsAfterNode(key, next) {
          return x, next;
        }
        x := next;
      }
    }

    /** The exact bracket is what the links say. */
    lemma ExactMeansLinked(i: nat, p: Node, s: Node?, key: Key)
      requires Valid() && i < maxLevels && IsLastBefore(head, levels[i], p, key)
      ensures i < |p.next|
      ensures IsFirstFrom(levels[i], s, key) ==> p.next[i] == s
      ensures p.next[i] == s && NotBefore(levels[i], s, key) ==> IsFirstFrom(levels[i], s, key)
    {
      assert LinkOk(head, levels, Links(), i, p);
      if IsFirstFrom(levels[i], s, key) {
        LinkIsFirst(head, levels[i], p, p.next[i], s, key);
      }
      ReadLink(head, levels[i], p, p.next[i], key);
    }

    /** `RecomputeSpliceLevels`: from the bracket on level `r` down to level 0. */
    method RecomputeSpliceLevels(key: Key, splice: Splice, r: nat)
      requires Valid() && 0 < r <= splice.height && splice.prev != splice.next
      requires SpliceFrom(head, levels, r, splice.height, splice.prev[..], splice.next[..])
      requires r < splice.height ==> BracketsAt(head, levels, splice.prev[..], splice.next[..], r, key)
      modifies splice.prev, splice.next
      ensures Valid()
      ensures SpliceFrom(head, levels, 0, splice.height, splice.prev[..], splice.next[..])
      ensures ExactOn(head, levels, splice.prev[..], splice.next[..], 0, r, key)
      ensures splice.prev[..][r..] == old(splice.prev[..][r..]) && splice.next[..][r..] == old(splice.next[..][r..])
    {
      ghost var p, n := splice.prev[..], splice.next[..];
      ghost var p0, n0 := p, n;
      var i := r;
      while i > 0
        invariant 0 <= i <= r
        invariant splice.prev[..] == p && splice.next[..] == n
        invariant SpliceFrom(head, levels, i, splice.height, p, n)
        invariant i < splice.height ==> BracketsAt(head, levels, p, n, i, key)
        invariant ExactOn(head, levels, p, n, i, r, key)
        invariant p[r..] == p0[r..] && n[r..] == n0[r..]
      {
        i := i - 1;
        assert levels[i + 1..] != [] ==> levels[i + 1] <= levels[i];
        var outPrev, outNext := FindSpliceForLevel(key, splice.prev[i + 1], splice.next[i + 1], i);
        ExactLevelBelow(head, levels, splice.height, p, n, i, outPrev, outNext, key);
        ExactOnExtends(head, levels, p, n, i, r, key, outPrev, outNext);
        p, n := p[i := outPrev], n[i := outNext];
        splice.SetLevel(i, outPrev, outNext);
      }
    }

    /** Lines 497 to 542 of the source: decide from which level down the splice must be recomputed
        for `key`, and recompute it. From there up it already brackets the key. */
    method PrepareSplice(key: Key, splice: Splice, allowPartialSpliceFix: bool) returns (r: nat)
      requires Valid() && Fits(splice) && maxHeight < splice.prev.Length
      modifies splice, splice.prev, splice.next
      ensures Valid() && splice.height == maxHeight && r <= maxHeight
      ensures SpliceFrom(head, levels, 0, maxHeight, splice.prev[..], splice.next[..])
      ensures ExactOn(head, levels, splice.prev[..], splice.next[..], 0, r, key)
      ensures BracketsOn(head, levels, splice.prev[..], splice.next[..], r, maxHeight, key)
    {
      if splice.height < maxHeight {
        splice.SetLevel(maxHeight, head, null);
        splice.height := maxHeight;
        r := maxHeight;
      } else {
        r := FirstBracket(key, splice, allowPartialSpliceFix);
      }
      ghost var p, n := splice.prev[..], splice.next[..];
      if r > 0 {
        RecomputeSpliceLevels(key, splice, r);
      }
      BracketsAbove(p, n, splice.prev[..], splice.next[..], r, key);
    }

    lemma BracketsAbove(p: seq<Node?>, n: seq<Node?>, p': seq<Node?>, n': seq<Node?>, r: nat, key: Key)
      requires LevelsOk(head, levels) && maxHeight <= |levels|
      requires SpliceFrom(head, levels, r, maxHeight, p, n) && SpliceFrom(head, levels, 0, maxHeight, p', n')
      requires r <= maxHeight && p'[r..] == p[r..] && n'[r..] == n[r..]
      requires r < maxHeight ==> BracketsAt(head, levels, p, n, r, key)
      ensures BracketsOn(head, levels, p', n', r, maxHeight, key)
    {
      forall i | r <= i < maxHeight ensures BracketsAt(head, levels, p', n', i, key) {
        assert p'[r] == p'[r..][0] && n'[r] == n'[r..][0] && p[r] == p[r..][0] && n[r] == n[r..][0];
        BracketsUpwards(head, levels, maxHeight, maxHeight, p', n', r, i, key);
      }
    }

    /** The loop of lines 504 to 537: the lowest level it settles on brackets the key, or it is the
        sentinel level. */
    method FirstBracket(key: Key, splice: Splice, allowPartialSpliceFix: bool) returns (r: nat)
      requires Valid() && Fits(splice) && splice.height == maxHeight
      ensures r <= maxHeight
      ensures r < maxHeight ==> BracketsAt(head, levels, splice.prev[..], splice.next[..], r, key)
    {
      r := 0;
      while r < maxHeight
        invariant r <= maxHeight
      {
        assert IsNode(head, levels[r], splice.prev[..][r]);
        if splice.prev[r].next[r] != splice.next[r] {
          r := r + 1;
        } else if splice.prev[r] != head && !KeyIsAfterNode(key, splice.prev[r]) {
          // the key is from before the splice
          if allowPartialSpliceFix {
            r := SkipSame(splice.prev, r);
          } else {
            r := maxHeight;
          }
        } else if KeyIsAfterNode(key, splice.next[r]) {
          // the key is from after the splice
          if allowPartialSpliceFix {
            r := SkipSame(splice.next, r);
          } else {
            r := maxHeight;
          }
        } else {
          break;
        }
      }
    }

    /** Skip all levels with the same node; the sentinel ends the loop. */
    method SkipSame(nodes: array<Node?>, r: nat) returns (r': nat)
      requires r < maxHeight < nodes.Length && nodes[r] != nodes[maxHeight]
      ensures r < r' <= maxHeight && nodes[r'] != nodes[r]
      ensures forall i | r <= i < r' :: nodes[i] == nodes[r]
    {
      r' := r;
      while nodes[r'] == nodes[r]
        invariant r <= r' <= maxHeight
        invariant forall i | r <= i < r' :: nodes[i] == nodes[r]
        decreases maxHeight - r'
      {
        r' := r' + 1;
      }
    }

    // -------------------------------------------------------------------------------------
    // Linking
    // -------------------------------------------------------------------------------------

    /** Lines 594 to 599: `x` goes between `p` and its successor `s` on level `i`. */
    method LinkAt(x: Node, i: nat, p: Node, s: Node?)
      requires Valid() && Linkable(head, levels, x, i) && |x.next| == x.height
      requires IsNode(head, levels[i], p) && Before(head, p, x.key) && (s != null ==> x.key < s.key)
      requires i < |p.next| && p.next[i] == s
      modifies this`levels, x, p
      ensures Valid() && levels == old(levels)[i := old(levels)[i] + {x}]
      ensures |x.next| == x.height && (i + 1 < x.height ==> Linkable(head, levels, x, i + 1))
    {
      ghost var links, own := Links(), x.next;
      LinkingKeepsList(head, levels, links, x, own, i, p, s);
      LinkedLevelsOk(head, levels, x, i);
      x.SetNext(i, s);
      p.SetNext(i, x);
      levels := levels[i := levels[i] + {x}];
      assert Links() == Relinked(links, x, own, i, p, s);
    }

    /** Lines 563 to 564: store the private link, then attempt the CAS, which links exactly if the
        link of `p` is still `s`. Nothing runs in between here. */
    method CasAt(x: Node, i: nat, p: Node, s: Node?) returns (ok: bool)
      requires Valid() && Linkable(head, levels, x, i) && |x.next| == x.height
      requires IsNode(head, levels[i], p) && Before(head, p, x.key) && (s != null ==> x.key < s.key)
      modifies this`levels, x, p
      ensures i < |old(p.next)| && ok == (old(p.next)[i] == s)
      ensures Valid() && levels == if ok then old(levels)[i := old(levels)[i] + {x}] else old(levels)
      ensures |x.next| == x.height && (ok && i + 1 < x.height ==> Linkable(head, levels, x, i + 1))
    {
      ReadNext(p, i, x.key);
      ok := p.next[i] == s;
      if ok {
        LinkAt(x, i, p, s);
      } else {
        StorePrivately(x, i, s);
      }
    }

    method StorePrivately(x: Node, i: nat, s: Node?)
      requires Valid() && Linkable(head, levels, x, i) && |x.next| == x.height
      modifies x
      ensures Valid() && x.next == old(x.next)[i := s]
    {
      ghost var links := Links();
      if x in links {
        PrivateStoreKeepsList(head, levels, links, x, i, s);
      }
      x.SetNext(i, s);
      assert x in links ==> Links() == links[x := links[x][i := s]];
      assert x !in links ==> Links() == links;
    }

    /** While `x` is being linked on level `i`: the list as it was before is `was`. */
    ghost predicate InsertState(was: Levels, x: Node, splice: Splice, i: nat, r: nat)
      reads this, Nodes(), x, splice, splice.prev, splice.next
    {
      && Valid() && LevelsOk(head, was) && |was| == |levels| && |x.next| == x.height
      && levels == WithNode(was, x, i) && x.height <= maxHeight
      && (i < x.height ==> Linkable(head, levels, x, i))
      && splice.prev != splice.next
      && Linking(head, was, maxHeight, splice.prev[..], splice.next[..], i, r, x.key)
      && (i > 0 ==> Absent(was, x.key))
    }

    /** Lines 568 to 569 and 579 to 580: search level `i` again from its predecessor. */
    method RefreshLevel(ghost was: Levels, x: Node, splice: Splice, i: nat, ghost r: nat)
      requires InsertState(was, x, splice, i, r) && r <= i < x.height
      modifies splice.prev, splice.next
      ensures InsertState(was, x, splice, i, r)
      ensures IsLevelExact(was, splice, i, x.key)
    {
      ghost var p, n := splice.prev[..], splice.next[..];
      WithNodeNext(was, x, i);
      assert BracketsAt(head, was, p, n, i, x.key);
      var outPrev, outNext := FindSpliceForLevel(x.key, splice.prev[i], null, i);
      LinkingRefreshed(head, was, maxHeight, p, n, i, r, x.key, outPrev, outNext);
      splice.SetLevel(i, outPrev, outNext);
    }

    ghost predicate IsLevelExact(was: Levels, splice: Splice, i: nat, key: Key)
      reads splice, splice.prev, splice.next
    {
      && i < splice.prev.Length && i < splice.next.Length && i < |was|
      && splice.prev[i] != null && IsLastBefore(head, was[i], splice.prev[i], key)
      && IsFirstFrom(was[i], splice.next[i], key)
    }

    /** Level `i` of the splice agrees with the link, or is exact already: both mean the same. */
    lemma ExactWhenLinked(was: Levels, x: Node, splice: Splice, i: nat, r: nat)
      requires InsertState(was, x, splice, i, r) && i < x.height
      ensures i < splice.prev.Length && i < splice.next.Length && splice.prev[i] != null && i < |splice.prev[i].next|
      ensures IsNode(head, levels[i], splice.prev[i]) && Before(head, splice.prev[i], x.key)
      ensures i < r ==> IsLevelExact(was, splice, i, x.key)
      ensures IsLevelExact(was, splice, i, x.key) <==> splice.prev[i].next[i] == splice.next[i]
    {
      ghost var p, n := splice.prev[..], splice.next[..];
      WithNodeNext(was, x, i);
      assert BracketsAt(head, was, p, n, i, x.key);
      ReadNext(splice.prev[i], i, x.key);
      if IsLevelExact(was, splice, i, x.key) {
        ExactMeansLinked(i, splice.prev[i], splice.next[i], x.key);
      }
      if i < r {
        assert p[i] == splice.prev[i] && n[i] == splice.next[i];
      }
    }

    /** The stores of one level, and the splice for the next. */
    method LinkLevel(ghost was: Levels, x: Node, splice: Splice, i: nat, ghost r: nat)
      requires InsertState(was, x, splice, i, r) && i < x.height
      requires IsLevelExact(was, splice, i, x.key) && Absent(was, x.key)
      modifies this`levels, x, Nodes()
      ensures InsertState(was, x, splice, i + 1, r)
    {
      WithNodeNext(was, x, i);
      ExactWhenLinked(was, x, splice, i, r);
      StrictSuccessor(head, was, i, splice.prev[i], splice.next[i], x.key);
      LinkingStep(head, was, maxHeight, splice.prev[..], splice.next[..], i, r, x.key);
      LinkAt(x, i, splice.prev[i], splice.next[i]);
    }

    /** Lines 576 to 600: link without CAS, level by level from the bottom. */
    method LinkLevels(ghost was: Levels, x: Node, splice: Splice, r: nat) returns (ok: bool)
      requires InsertState(was, x, splice, 0, r) && 0 < x.height
      modifies this`levels, x, Nodes(), splice.prev, splice.next
      ensures ok == Absent(was, x.key)
      ensures InsertState(was, x, splice, if ok then x.height else 0, r)
    {
      var i := 0;
      while i < x.height
        invariant 0 <= i <= x.height && InsertState(was, x, splice, i, r)
      {
        ExactWhenLinked(was, x, splice, i, r);
        if i >= r && splice.prev[i].next[i] != splice.next[i] {
          RefreshLevel(was, x, splice, i, r);
        }
        StrictSuccessor(head, was, i, splice.prev[i], splice.next[i], x.key);
        if i == 0 && splice.next[i] != null && x.key >= splice.next[i].key {
          return false;
        }
        if i == 0 && splice.prev[i] != head && splice.prev[i].key >= x.key {
          return false;
        }
        assert splice.next[i] == null || x.key < splice.next[i].key;
        assert splice.prev[i] == head || splice.prev[i].key < x.key;
        LinkLevel(was, x, splice, i, r);
        i := i + 1;
      }
      ok := true;
    }

    /** Lines 546 to 574: link by CAS. A CAS fails here only because the splice was stale. */
    method LinkLevelsByCas(ghost was: Levels, x: Node, splice: Splice, ghost r: nat)
      returns (ok: bool, spliceIsValid: bool)
      requires InsertState(was, x, splice, 0, r) && 0 < x.height
      modifies this`levels, x, Nodes(), splice.prev, splice.next
      ensures ok == Absent(was, x.key)
      ensures InsertState(was, x, splice, if ok then x.height else 0, r)
    {
      spliceIsValid := true;
      var i := 0;
      while i < x.height
        invariant 0 <= i <= x.height && InsertState(was, x, splice, i, r)
      {
        ghost var failures;
        ok, spliceIsValid, failures := LinkLevelByCas(was, x, splice, i, r, spliceIsValid);
        if !ok {
          return;
        }
        i := i + 1;
      }
      ok := true;
    }

    /** What the duplicate tests see on a level that only brackets the key. */
    lemma BracketTest(was: Levels, x: Node, splice: Splice, i: nat, r: nat)
      requires InsertState(was, x, splice, i, r) && i < x.height
      ensures i < splice.prev.Length && i < splice.next.Length && splice.prev[i] != null
      ensures splice.prev[i] == head || splice.prev[i].key < x.key
      ensures splice.next[i] == null || x.key < splice.next[i].key || (i == 0 && !Absent(was, x.key))
    {
      assert BracketsAt(head, was, splice.prev[..], splice.next[..], i, x.key);
      assert was[i] <= was[0];
    }

    /** One CAS attempt on level `i`. */
    method CasLevel(ghost was: Levels, x: Node, splice: Splice, i: nat, ghost r: nat) returns (linked: bool)
      requires InsertState(was, x, splice, i, r) && i < x.height
      requires i < splice.prev.Length && i < splice.next.Length
      requires splice.next[i] != null ==> x.key < splice.next[i].key
      modifies this`levels, x, Nodes()
      ensures InsertState(was, x, splice, if linked then i + 1 else i, r)
      ensures linked == old(IsLevelExact(was, splice, i, x.key)) && (!linked ==> r <= i)
    {
      WithNodeNext(was, x, i);
      ExactWhenLinked(was, x, splice, i, r);
      if IsLevelExact(was, splice, i, x.key) {
        StrictSuccessor(head, was, i, splice.prev[i], splice.next[i], x.key);
        LinkingStep(head, was, maxHeight, splice.prev[..], splice.next[..], i, r, x.key);
      }
      linked := CasAt(x, i, splice.prev[i], splice.next[i]);
    }

    /** The retry loop of one level: one search is enough when nothing runs in between. */
    method LinkLevelByCas(ghost was: Levels, x: Node, splice: Splice, i: nat, ghost r: nat, spliceWasValid: bool)
      returns (ok: bool, spliceIsValid: bool, ghost failures: nat)
      requires InsertState(was, x, splice, i, r) && i < x.height
      modifies this`levels, x, Nodes(), splice.prev, splice.next
      ensures ok == Absent(was, x.key) && failures <= 1
      ensures InsertState(was, x, splice, if ok then i + 1 else 0, r)
    {
      spliceIsValid, failures := spliceWasValid, 0;
      while true
        invariant InsertState(was, x, splice, i, r)
        invariant failures <= 1 && (failures == 1 ==> IsLevelExact(was, splice, i, x.key))
        decreases 1 - failures
      {
        BracketTest(was, x, splice, i, r);
        if i == 0 && splice.next[i] != null && x.key >= splice.next[i].key {
          return false, spliceIsValid, failures;
        }
        if i == 0 && splice.prev[i] != head && splice.prev[i].key >= x.key {
          return false, spliceIsValid, failures;
        }
        assert splice.next[i] == null || x.key < splice.next[i].key;
        assert splice.prev[i] == head || splice.prev[i].key < x.key;
        ExactWhenLinked(was, x, splice, i, r);
        var linked := CasLevel(was, x, splice, i, r);
        if linked {
          return true, spliceIsValid, failures;
        }
        RefreshLevel(was, x, splice, i, r);
        failures := failures + 1;
        if i > 0 {
          spliceIsValid := false;
        }
      }
    }

    // -------------------------------------------------------------------------------------
    // Insert
    // -------------------------------------------------------------------------------------

    /** The template `Insert<UseCAS>(key, splice, allow_partial_splice_fix)`, for a node `x` that is
        not in the list, with any splice that earlier inserts have left behind. The arrays of the
        splice need an entry for the sentinels, at the raised `max_height_`. */
    method InsertWith(x: Node, splice: Splice, useCAS: bool, allowPartialSpliceFix: bool) returns (ok: bool)
      requires Valid() && Fits(splice)
      requires maxHeight < splice.prev.Length && x.height < splice.prev.Length
      requires x !in Nodes() && 1 <= x.height <= maxLevels && |x.next| == x.height
      modifies this, x, Nodes(), splice, splice.prev, splice.next
      ensures Valid() && Fits(splice)
      ensures ok == Absent(old(levels), x.key)
      ensures levels == if ok then WithNode(old(levels), x, x.height) else old(levels)
      ensures maxHeight == if x.height > old(maxHeight) then x.height else old(maxHeight)
    {
      ghost var was := levels;
      RaiseMaxHeight(x.height, splice);
      var r := PrepareSplice(x.key, splice, allowPartialSpliceFix);
      assert r <= maxHeight;
      BeginLinking(was, x, splice, r);
      var spliceIsValid := true;
      if useCAS {
        ok, spliceIsValid := LinkLevelsByCas(was, x, splice, r);
      } else {
        ok := LinkLevels(was, x, splice, r);
      }
      if ok {
        FinishSplice(was, x, splice, r, spliceIsValid);
      }
    }

    /** `max_height_` after the raising loop. It is also the index at which an insert with a fresh
        splice writes its sentinels, which therefore fit arrays of `MAX_POSSIBLE_HEIGHT` entries
        exactly if the list and the node are both lower than that. */
    function Raised(height: nat): nat
      reads this
    {
      if height > maxHeight then height else maxHeight
    }

    /** The list is at least as high as the node from now on. The splice stays fit, though it may be
        lower than the list now. */
    method RaiseMaxHeight(height: nat, ghost splice: Splice)
      requires Valid() && Fits(splice) && height <= maxLevels
      modifies this`maxHeight
      ensures Valid() && Fits(splice)
      ensures maxHeight == old(Raised(height))
    {
      if height > maxHeight {
        maxHeight := height;
        assert Links() == old(Links());
      }
    }

    lemma BeginLinking(was: Levels, x: Node, splice: Splice, r: nat)
      requires Valid() && was == levels && splice.prev != splice.next
      requires x !in Nodes() && 1 <= x.height <= maxHeight && |x.next| == x.height && r <= maxHeight
      requires SpliceFrom(head, levels, 0, maxHeight, splice.prev[..], splice.next[..])
      requires ExactOn(head, levels, splice.prev[..], splice.next[..], 0, r, x.key)
      requires BracketsOn(head, levels, splice.prev[..], splice.next[..], r, maxHeight, x.key)
      ensures InsertState(was, x, splice, 0, r)
    {
      ExactBrackets(head, levels, splice.prev[..], splice.next[..], 0, r, x.key);
      assert WithNode(was, x, 0) == was;
      forall j | 0 <= j < |levels| ensures x !in levels[j] {
        assert levels[j] <= levels[0];
      }
    }

    /** Hands the splice to the next insert: either the new node becomes the predecessor on its
        levels, and the closing asserts hold, or the splice is marked as useless by height zero. */
    method FinishSplice(ghost was: Levels, x: Node, splice: Splice, ghost r: nat, spliceIsValid: bool)
      requires InsertState(was, x, splice, x.height, r) && 1 <= x.height && x != head && splice.height == maxHeight
      modifies splice, splice.prev
      ensures Valid() && Fits(splice)
      ensures spliceIsValid ==>
                && splice.height == maxHeight
                && ClosingAsserts(head, splice.height, splice.prev[..], splice.next[..], x.key)
      ensures !spliceIsValid ==> splice.height == 0
    {
      if spliceIsValid {
        ghost var p, n := splice.prev[..], splice.next[..];
        assert BracketsOn(head, was, p, n, 0, maxHeight, x.key) by {
          ExactBrackets(head, was, p, n, 0, if x.height < r then r else x.height, x.key);
        }
        NodeBecomesPredecessor(head, was, maxHeight, p, n, x);
        ClosingAssertsHold(head, was, maxHeight, p, n, x);
        splice.SetPredecessors(x, x.height);
        assert ClosingAsserts(head, splice.height, splice.prev[..], splice.next[..], x.key);
      } else {
        splice.height := 0;
      }
    }

    /** The set of keys grows by exactly the new one. */
    lemma KeySetAfter(was: Levels, keys: set<Key>, x: Node, ok: bool)
      requires was != [] && 0 < x.height && keys == set n | n in was[0] :: n.key
      requires ok == Absent(was, x.key)
      requires levels == if ok then WithNode(was, x, x.height) else was
      ensures ok == (x.key !in keys)
      ensures KeySet() == if ok then keys + {x.key} else keys
    {
      if ok {
        assert levels[0] == was[0] + {x};
        forall k | k in keys + {x.key} ensures k in KeySet() {
          if k == x.key {
            assert x in levels[0];
          } else {
            var n :| n in was[0] && n.key == k;
            assert n in levels[0];
          }
        }
      }
    }

    /** `Insert(key)`: with the list's own splice, pessimistically. */
    method Insert(x: Node) returns (ok: bool)
      requires Valid() && Fits(seqSplice)
      requires x !in Nodes() && 1 <= x.height <= maxLevels && |x.next| == x.height
      modifies this, x, Nodes(), seqSplice, seqSplice.prev, seqSplice.next
      ensures Valid() && Fits(seqSplice)
      ensures ok == (x.key !in old(KeySet()))
      ensures KeySet() == if ok then old(KeySet()) + {x.key} else old(KeySet())
      ensures levels == if ok then WithNode(old(levels), x, x.height) else old(levels)
      ensures maxHeight == if x.height > old(maxHeight) then x.height else old(maxHeight)
    {
      ok := InsertWith(x, seqSplice, false, false);
      KeySetAfter(old(levels), old(KeySet()), x, ok);
    }

    /** `InsertConcurrently(key)`, run without overlap: a splice of its own, on arrays of
        `kMaxPossibleHeight` entries. It leaves the list's own splice stale but fit. */
    method InsertConcurrently(x: Node) returns (ok: bool)
      requires Valid() && Fits(seqSplice)
      requires maxHeight < MAX_POSSIBLE_HEIGHT && x.height < MAX_POSSIBLE_HEIGHT
      requires x !in Nodes() && 1 <= x.height <= maxLevels && |x.next| == x.height
      modifies this, x, Nodes()
      ensures Valid() && Fits(seqSplice)
      ensures ok == (x.key !in old(KeySet()))
      ensures KeySet() == if ok then old(KeySet()) + {x.key} else old(KeySet())
      ensures levels == if ok then WithNode(old(levels), x, x.height) else old(levels)
      ensures maxHeight == if x.height > old(maxHeight) then x.height else old(maxHeight)
    {
      var splice := new Splice(MAX_POSSIBLE_HEIGHT - 1);
      ok := InsertWith(x, splice, true, false);
      KeySetAfter(old(levels), old(KeySet()), x, ok);
      StaleSpliceStaysOk(head, old(levels), levels, old(maxHeight), maxHeight,
                         seqSplice.height, seqSplice.prev[..], seqSplice.next[..]);
    }

    // -------------------------------------------------------------------------------------
    // Order
    // -------------------------------------------------------------------------------------

    /** The nodes in the order of the links of level 0. */
    ghost function Order(): seq<Node>
      requires Valid()
      reads this, Nodes()
    {
      Walk(head, levels, Links(), 0, head)
    }

    lemma OrderIsSorted()
      requires Valid()
      ensures Enumerates(Order(), levels[0])
    {
      WalkEnumerates(head, levels, Links(), 0, head);
    }
  }

  /** The iterator; `node` is null when it is not valid. */
  class Iterator {
    const list: SkipList
    var node: Node?

    constructor (list: SkipList)
      ensures this.list == list && node == null
    {
      this.list, node := list, null;
    }

    /** The iterator stands on entry `k` of the sorted enumeration, or is invalid if there is none. */
    ghost predicate At(k: int)
      requires list.Valid()
      reads this, list, list.Nodes()
    {
      node == if 0 <= k < |list.Order()| then list.Order()[k] else null
    }

    method Next()
      requires list.Valid() && node != null && node in list.levels[0]
      modifies this`node
      ensures forall k | 0 <= k < |list.Order()| && old(At(k)) :: At(k + 1)
    {
      list.OrderIsSorted();
      assert LinkOk(list.head, list.levels, list.Links(), 0, node);
      forall k | 0 <= k < |list.Order()| && At(k)
        ensures node.next[0] == if k + 1 < |list.Order()| then list.Order()[k + 1] else null
      {
        NeighboursInOrder(list.head, list.levels[0], list.Order(), k);
      }
      node := node.next[0];
    }

    method Prev()
      requires list.Valid() && node != null && node in list.levels[0]
      modifies this`node
      ensures node == null || (node in list.levels[0] && IsLastBefore(list.head, list.levels[0], node, old(node).key))
      ensures node == null ==> IsLastBefore(list.head, list.levels[0], list.head, old(node).key)
      ensures forall k | 0 <= k < |list.Order()| && old(At(k)) :: At(k - 1)
    {
      list.OrderIsSorted();
      ghost var order := list.Order();
      var p := list.FindLessThan(node.key, null);
      forall k | 0 <= k < |order| && order[k] == node
        ensures p == if k > 0 then order[k - 1] else list.head
      {
        NeighboursInOrder(list.head, list.levels[0], order, k);
      }
      node := if p == list.head then null else p;
      assert list.Order() == order;
    }

    method Seek(target: Key)
      requires list.Valid()
      modifies this`node
      ensures IsFirstFrom(list.levels[0], node, target)
    {
      node := list.FindGreaterOrEqual(target);
    }

    method SeekToFirst()
      requires list.Valid()
      modifies this`node
      ensures At(0)
    {
      assert LinkOk(list.head, list.levels, list.Links(), 0, list.head);
      node := list.head.next[0];
    }

    method SeekToLast()
      requires list.Valid()
      modifies this`node
      ensures At(|list.Order()| - 1)
      ensures node == null ==> list.levels[0] == {}
      ensures node != null ==> node in list.levels[0] && forall m | m in list.levels[0] :: m.key <= node.key
    {
      list.OrderIsSorted();
      var last := list.FindLast();
      var order := list.Order();
      assert order != [] ==> order[|order| - 1] in list.levels[0];
      assert last != list.head ==> last in order;
      node := if last == list.head then null else last;
    }

    /** Lands on the greatest key not above the target, after at most one `Prev`; invalid exactly if
        there is none. */
    method SeekForPrev(target: Key) returns (ghost prevs: nat)
      requires list.Valid()
      modifies this`node
      ensures node == null ==> forall m | m in list.levels[0] :: m.key > target
      ensures node != null ==>
                && node in list.levels[0] && node.key <= target
                && forall m | m in list.levels[0] && m.key <= target :: m.key <= node.key
      ensures prevs <= 1
    {
      Seek(target);
      if node == null {
        SeekToLast();
      }
      prevs := 0;
      while node != null && target < node.key
        invariant node != null ==> node in list.levels[0]
        invariant node == null ==> forall m | m in list.levels[0] :: m.key > target
        invariant node != null && node.key <= target ==>
                    forall m | m in list.levels[0] && m.key <= target :: m.key <= node.key
        invariant node != null && target < node.key ==> prevs == 0 && IsFirstFrom(list.levels[0], node, target)
        invariant prevs <= 1
        decreases 1 - prevs
      {
        Prev();
        prevs := prevs + 1;
      }
    }
  }
}
