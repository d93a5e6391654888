/** Nodes of the sequential skip list and the order theory of its levels and splices. Keys and
    heights of nodes never change, so everything here is about values: a level is the set of nodes
    linked on it, whatever the heap holds. */
module SkipListOrder {
  import opened Keys

  class Node {
    const key: Key
    const height: nat
    /** `next[i]` is the link at level `i`. */
    var next: seq<Node?>

    constructor (key: Key, height: nat)
      ensures this.key == key && this.height == height && next == seq(height, i => null)
    {
      this.key, this.height, this.next := key, height, seq(height, i => null);
    }

    method SetNext(i: nat, x: Node?)
      requires i < |next|
      modifies this
      ensures next == old(next)[i := x]
    {
      next := next[i := x];
    }
  }

  /** The nodes linked on each level. */
  type Levels = seq<set<Node>>

  /** The links of each node. */
  type LinkMap = map<Node, seq<Node?>>

  /** `KeyIsAfterNode(key, n)`. */
  predicate KeyIsAfterNode(key: Key, n: Node?) {
    n != null && n.key < key
  }

  /** The head, or a node with a smaller key. */
  predicate Before(head: Node, n: Node, key: Key) {
    n == head || n.key < key
  }

  /** The head, or a node of the level. */
  predicate IsNode(head: Node, level: set<Node>, n: Node?) {
    n != null && (n == head || n in level)
  }

  /** The end of the list, or a node of the level whose key is not smaller. */
  predicate NotBefore(level: set<Node>, n: Node?, key: Key) {
    n != null ==> n in level && key <= n.key
  }

  /** `s` is the immediate successor of `n` within the level, in key order. */
  ghost predicate IsSuccessor(head: Node, level: set<Node>, n: Node, s: Node?) {
    if s == null then
      forall m | m in level :: !Before(head, n, m.key)
    else
      && s in level && Before(head, n, s.key)
      && forall m | m in level && Before(head, n, m.key) :: m == s || s.key < m.key
  }

  /** `p` is the last node of the level with a key below `key`, or the head if there is none. */
  ghost predicate IsLastBefore(head: Node, level: set<Node>, p: Node, key: Key) {
    && IsNode(head, level, p) && Before(head, p, key)
    && forall m | m in level && m.key < key :: p != head && m.key <= p.key
  }

  /** `s` is the first node of the level with a key of at least `key`, or null if there is none. */
  ghost predicate IsFirstFrom(level: set<Node>, s: Node?, key: Key) {
    if s == null then forall m | m in level :: m.key < key
    else s in level && key <= s.key && forall m | m in level && key <= m.key :: m == s || s.key < m.key
  }

  /** On each of the levels `lo` to `hi`, `prev` holds the last node before `key`. */
  ghost predicate LastBeforeOn(head: Node, levels: Levels, prev: seq<Node?>, lo: nat, hi: nat, key: Key) {
    && hi <= |prev| && hi <= |levels|
    && forall i | lo <= i < hi :: prev[i] != null && IsLastBefore(head, levels[i], prev[i], key)
  }

  lemma LastBeforeOnExtends(head: Node, levels: Levels, prev: seq<Node?>, level: nat, lo: nat, hi: nat, key: Key,
                            x: Node)
    requires lo <= level < hi && LastBeforeOn(head, levels, prev, level + 1, hi, key)
    requires IsLastBefore(head, levels[level], x, key)
    ensures LastBeforeOn(head, levels, prev[level := x], level, hi, key)
    ensures prev[level := x][..lo] == prev[..lo] && prev[level := x][hi..] == prev[hi..]
  {
  }

  /** The head is no member of a level, and keys are unique. */
  ghost predicate IsLevel(head: Node, level: set<Node>) {
    head !in level && forall m, n | m in level && n in level && m != n :: m.key != n.key
  }

  /** Linked nodes per level: the head is not among them, keys are unique, and every level is
      contained in the one below. */
  ghost predicate LevelsOk(head: Node, levels: Levels) {
    && (forall i, j | 0 <= i <= j < |levels| :: levels[j] <= levels[i])
    && (forall i, n | 0 <= i < |levels| && n in levels[i] :: i < n.height)
    && (forall i | 0 <= i < |levels| :: IsLevel(head, levels[i]))
  }

  /** The link of `n` on level `i`, if `n` is a node of that level, is its immediate successor. */
  ghost predicate LinkOk(head: Node, levels: Levels, links: LinkMap, i: nat, n: Node) {
    i < |levels| && IsNode(head, levels[i], n) ==>
      n in links && i < |links[n]| && IsSuccessor(head, levels[i], n, links[n][i])
  }

  /** The list with these linked nodes and these links: every level is a strictly sorted list of
      exactly its nodes, and levels are nested. */
  ghost predicate ListOk(head: Node, levels: Levels, links: LinkMap) {
    && levels != [] && head.height == |levels|
    && LevelsOk(head, levels)
    && links.Keys == levels[0] + {head}
    && (forall n | n in links :: |links[n]| == n.height)
    && (forall i, n {:trigger LinkOk(head, levels, links, i, n)} | 0 <= i < |levels| && n in links ::
          LinkOk(head, levels, links, i, n))
  }

  /** Levels only grow. */
  ghost predicate Grows(levels: Levels, levels': Levels) {
    |levels| == |levels'| && forall i | 0 <= i < |levels| :: levels[i] <= levels'[i]
  }

  /** The levels after linking `x` on the levels below `n`. */
  ghost function WithNode(levels: Levels, x: Node, n: nat): Levels {
    seq(|levels|, i requires 0 <= i < |levels| => if i < n then levels[i] + {x} else levels[i])
  }

  // ---------------------------------------------------------------------------------------
  // Links
  // ---------------------------------------------------------------------------------------

  /** Reading a link of a smaller node either moves on or closes the bracket around the key. */
  lemma ReadLink(head: Node, level: set<Node>, n: Node, s: Node?, key: Key)
    requires IsNode(head, level, n) && Before(head, n, key) && IsSuccessor(head, level, n, s)
    requires IsLevel(head, level)
    ensures KeyIsAfterNode(key, s) ==> s in level && s != head
    ensures !KeyIsAfterNode(key, s) ==>
              IsLastBefore(head, level, n, key) && IsFirstFrom(level, s, key) && NotBefore(level, s, key)
  {
  }

  /** Putting `x` between a node and its successor: both new links lead to the immediate successor. */
  lemma NewLinks(head: Node, level: set<Node>, p: Node, s: Node?, x: Node)
    requires IsLevel(head, level) && x != head && x !in level
    requires IsNode(head, level, p) && Before(head, p, x.key) && (s != null ==> x.key < s.key)
    requires IsSuccessor(head, level, p, s)
    ensures IsSuccessor(head, level + {x}, p, x)
    ensures IsSuccessor(head, level + {x}, x, s)
    ensures IsLevel(head, level + {x})
  {
  }

  /** The other links are still the immediate successors. */
  lemma OtherLinks(head: Node, level: set<Node>, p: Node, s: Node?, x: Node, n: Node, t: Node?)
    requires IsLevel(head, level) && x != head && x !in level
    requires IsNode(head, level, p) && Before(head, p, x.key) && (s != null ==> x.key < s.key)
    requires IsSuccessor(head, level, p, s)
    requires IsNode(head, level, n) && n != p && IsSuccessor(head, level, n, t)
    ensures IsSuccessor(head, level + {x}, n, t)
  {
  }

  /** `x` may be linked on level `i` next: it is linked on exactly the levels below. */
  ghost predicate Linkable(head: Node, levels: Levels, x: Node, i: nat) {
    && x != head && 0 <= i < x.height <= |levels|
    && forall j | 0 <= j < |levels| :: x in levels[j] <==> j < i
  }

  lemma LinkedLevelsOk(head: Node, levels: Levels, x: Node, i: nat)
    requires LevelsOk(head, levels) && Linkable(head, levels, x, i) && IsLevel(head, levels[i] + {x})
    ensures LevelsOk(head, levels[i := levels[i] + {x}])
    ensures i + 1 < x.height ==> Linkable(head, levels[i := levels[i] + {x}], x, i + 1)
  {
    var levels' := levels[i := levels[i] + {x}];
    forall a, b | 0 <= a <= b < |levels| ensures levels'[b] <= levels'[a] {
      assert levels[b] <= levels[a];
    }
  }

  /** The links after the two stores that put `x` between `p` and `s` on level `i`. */
  ghost function Relinked(links: LinkMap, x: Node, own: seq<Node?>, i: nat, p: Node, s: Node?): LinkMap
    requires p in links && i < |links[p]| && i < |own|
  {
    links[x := own[i := s]][p := links[p][i := x]]
  }

  /** The two stores that link `x` on level `i`, after `p` and before `s`, give a list again. */
  lemma LinkingKeepsList(head: Node, levels: Levels, links: LinkMap, x: Node, own: seq<Node?>, i: nat, p: Node,
                         s: Node?)
    requires ListOk(head, levels, links) && Linkable(head, levels, x, i)
    requires |own| == x.height && (x in links ==> own == links[x])
    requires IsNode(head, levels[i], p) && Before(head, p, x.key) && (s != null ==> x.key < s.key)
    requires p in links && i < |links[p]| && links[p][i] == s
    ensures p != x
    ensures ListOk(head, levels[i := levels[i] + {x}], Relinked(links, x, own, i, p, s))
  {
    var level := levels[i];
    var levels', links' := levels[i := level + {x}], Relinked(links, x, own, i, p, s);
    assert LinkOk(head, levels, links, i, p);
    NewLinks(head, level, p, s, x);
    LinkedLevelsOk(head, levels, x, i);
    forall j, n | 0 <= j < |levels| && n in links' ensures LinkOk(head, levels', links', j, n) {
      if n in links {
        assert LinkOk(head, levels, links, j, n);
        if j == i && n != p && IsNode(head, level, n) {
          OtherLinks(head, level, p, s, x, n, links[n][i]);
        }
      }
    }
  }

  /** Storing the link of `x` on a level where it is not linked changes no list. */
  lemma PrivateStoreKeepsList(head: Node, levels: Levels, links: LinkMap, x: Node, i: nat, s: Node?)
    requires ListOk(head, levels, links) && x in links && x != head && i < |links[x]| && i < |levels| && x !in levels[i]
    ensures ListOk(head, levels, links[x := links[x][i := s]])
  {
    var links' := links[x := links[x][i := s]];
    forall j, n | 0 <= j < |levels| && n in links' ensures LinkOk(head, levels, links', j, n) {
      assert LinkOk(head, levels, links, j, n);
    }
  }

  // ---------------------------------------------------------------------------------------
  // Following links
  // ---------------------------------------------------------------------------------------

  ghost function NodesAfter(head: Node, level: set<Node>, n: Node): set<Node> {
    set m | m in level && Before(head, n, m.key)
  }

  /** The nodes met by following the links of level `i` from `n` to the end. */
  ghost function Walk(head: Node, levels: Levels, links: LinkMap, i: nat, n: Node): seq<Node>
    requires ListOk(head, levels, links) && i < |levels| && IsNode(head, levels[i], n)
    decreases NodesAfter(head, levels[i], n)
  {
    assert n in links && LinkOk(head, levels, links, i, n);
    var s := links[n][i];
    if s == null then []
    else
      assert s in NodesAfter(head, levels[i], n) && s !in NodesAfter(head, levels[i], s);
      [s] + Walk(head, levels, links, i, s)
  }

  ghost predicate StrictlySorted(nodes: seq<Node>) {
    forall i, j | 0 <= i < j < |nodes| :: nodes[i].key < nodes[j].key
  }

  /** `nodes` is the sorted enumeration of the set. */
  ghost predicate Enumerates(nodes: seq<Node>, s: set<Node>) {
    && StrictlySorted(nodes)
    && (forall k | 0 <= k < |nodes| :: nodes[k] in s)
    && (forall m | m in s :: m in nodes)
  }

  /** Following the links of a level from the head terminates and meets exactly its nodes, in
      strictly increasing key order. */
  lemma {:induction false} WalkEnumerates(head: Node, levels: Levels, links: LinkMap, i: nat, n: Node)
    requires ListOk(head, levels, links) && i < |levels| && IsNode(head, levels[i], n)
    ensures Enumerates(Walk(head, levels, links, i, n), NodesAfter(head, levels[i], n))
    decreases NodesAfter(head, levels[i], n)
  {
    assert n in links && LinkOk(head, levels, links, i, n);
    var s := links[n][i];
    if s == null {
    } else {
      assert IsLevel(head, levels[i]);
      assert s in NodesAfter(head, levels[i], n) && s !in NodesAfter(head, levels[i], s);
      WalkEnumerates(head, levels, links, i, s);
      var rest := Walk(head, levels, links, i, s);
      forall m | m in NodesAfter(head, levels[i], n) ensures m in [s] + rest {
        assert m == s || m in NodesAfter(head, levels[i], s);
      }
    }
  }

  /** In a sorted enumeration of a level, the immediate successor and the last node before are the
      neighbours. */
  lemma NeighboursInOrder(head: Node, level: set<Node>, order: seq<Node>, k: nat)
    requires IsLevel(head, level) && Enumerates(order, level) && k < |order|
    ensures forall s :: IsSuccessor(head, level, order[k], s) ==> s == if k + 1 < |order| then order[k + 1] else null
    ensures forall p :: IsLastBefore(head, level, p, order[k].key) ==> p == if k > 0 then order[k - 1] else head
  {
    forall s | IsSuccessor(head, level, order[k], s) ensures s == if k + 1 < |order| then order[k + 1] else null {
      if s != null {
        var j :| 0 <= j < |order| && order[j] == s;
      }
    }
    forall p | IsLastBefore(head, level, p, order[k].key) ensures p == if k > 0 then order[k - 1] else head {
      if p != head {
        var j :| 0 <= j < |order| && order[j] == p;
      }
    }
  }

  /** `Next` and `Prev` undo each other away from the ends. */
  lemma NextAndPrevAreInverse(head: Node, level: set<Node>, n: Node, s: Node, p: Node)
    requires IsLevel(head, level) && n in level
    ensures IsSuccessor(head, level, n, s) && IsLastBefore(head, level, p, s.key) ==> p == n
    ensures IsLastBefore(head, level, p, n.key) && p != head && IsSuccessor(head, level, p, s) ==> s == n
  {
  }

  // ---------------------------------------------------------------------------------------
  // Splices
  // ---------------------------------------------------------------------------------------

  /** `a` is at or before `b` in the list of a level or the one below. */
  predicate PrevLe(head: Node, a: Node?, b: Node?) {
    a == head || a == b || (a != null && b != null && b != head && a.key < b.key)
  }

  predicate NextLe(a: Node?, b: Node?) {
    b == null || a == b || (a != null && a.key < b.key)
  }

  /** The splice from level `lo` up: on every level it names nodes that are linked there; going up,
      predecessors never increase and successors never decrease. Nothing is said about links: the
      splice may be stale. */
  ghost predicate SpliceFrom(head: Node, levels: Levels, lo: nat, height: nat, prev: seq<Node?>, next: seq<Node?>) {
    && |prev| == |next| > height && height <= |levels|
    && (height > 0 ==> prev[height] == head && next[height] == null)
    && (forall i | lo <= i < height :: IsNode(head, levels[i], prev[i]) && (next[i] == null || next[i] in levels[i]))
    && (forall i | lo <= i < height :: OrderedAt(head, prev, next, i))
  }

  predicate OrderedAt(head: Node, prev: seq<Node?>, next: seq<Node?>, i: nat) {
    && i + 1 < |prev| && i + 1 < |next|
    && PrevLe(head, prev[i + 1], prev[i]) && NextLe(next[i], next[i + 1])
  }

  /** A splice of `height` levels with sentinels at index `height`. */
  ghost predicate SpliceOk(head: Node, levels: Levels, maxHeight: nat, height: nat, prev: seq<Node?>,
                           next: seq<Node?>) {
    height <= maxHeight <= |levels| && SpliceFrom(head, levels, 0, height, prev, next)
  }

  /** A splice stays good when other inserts link nodes and raise the height. */
  lemma StaleSpliceStaysOk(head: Node, levels: Levels, levels': Levels, maxHeight: nat, maxHeight': nat,
                           height: nat, prev: seq<Node?>, next: seq<Node?>)
    requires SpliceOk(head, levels, maxHeight, height, prev, next)
    requires Grows(levels, levels') && maxHeight <= maxHeight' <= |levels|
    ensures SpliceOk(head, levels', maxHeight', height, prev, next)
  {
  }

  /** The splice brackets the key on level `i`. */
  ghost predicate BracketsAt(head: Node, levels: Levels, prev: seq<Node?>, next: seq<Node?>, i: nat, key: Key) {
    && i < |levels| && i < |prev| && i < |next|
    && IsNode(head, levels[i], prev[i]) && Before(head, prev[i], key)
    && NotBefore(levels[i], next[i], key)
  }

  /** If one level brackets the key, so do all levels above it. */
  lemma {:induction false} BracketsUpwards(head: Node, levels: Levels, maxHeight: nat, height: nat, prev: seq<Node?>,
                                           next: seq<Node?>,
                                           r: nat, i: nat, key: Key)
    requires SpliceOk(head, levels, maxHeight, height, prev, next)
    requires r <= i < height && BracketsAt(head, levels, prev, next, r, key)
    ensures BracketsAt(head, levels, prev, next, i, key)
    decreases i
  {
    if r == i {
    } else {
      BracketsUpwards(head, levels, maxHeight, height, prev, next, r, i - 1, key);
      assert OrderedAt(head, prev, next, i - 1);
    }
  }

  /** Between the last node before the key and the first one from it there is no other link. */
  lemma LinkIsFirst(head: Node, level: set<Node>, p: Node, s: Node?, t: Node?, key: Key)
    requires IsLevel(head, level)
    requires IsLastBefore(head, level, p, key) && IsSuccessor(head, level, p, s) && IsFirstFrom(level, t, key)
    ensures s == t
  {
  }

  /** The last node before the key dominates every other candidate, and so does the first from it. */
  lemma ExactDominates(head: Node, level: set<Node>, p: Node, s: Node?, key: Key, before: Node?, after: Node?)
    requires IsLevel(head, level)
    requires IsLastBefore(head, level, p, key) && IsFirstFrom(level, s, key)
    requires IsNode(head, level, before) && Before(head, before, key) && NotBefore(level, after, key)
    ensures PrevLe(head, before, p) && NextLe(s, after)
  {
  }

  /** On the levels `lo` to `hi` the splice is exact for `key`. */
  ghost predicate ExactOn(head: Node, levels: Levels, prev: seq<Node?>, next: seq<Node?>, lo: nat, hi: nat, key: Key) {
    && hi <= |prev| && hi <= |next| && hi <= |levels|
    && forall i | lo <= i < hi ::
         prev[i] != null && IsLastBefore(head, levels[i], prev[i], key) && IsFirstFrom(levels[i], next[i], key)
  }

  lemma ExactOnExtends(head: Node, levels: Levels, prev: seq<Node?>, next: seq<Node?>, i: nat, hi: nat, key: Key,
                       p: Node, s: Node?)
    requires i < hi && ExactOn(head, levels, prev, next, i + 1, hi, key)
    requires IsLastBefore(head, levels[i], p, key) && IsFirstFrom(levels[i], s, key)
    ensures ExactOn(head, levels, prev[i := p], next[i := s], i, hi, key)
    ensures prev[i := p][hi..] == prev[hi..] && next[i := s][hi..] == next[hi..]
  {
  }

  /** On the levels `lo` to `hi` the splice brackets `key`. */
  ghost predicate BracketsOn(head: Node, levels: Levels, prev: seq<Node?>, next: seq<Node?>, lo: nat, hi: nat,
                             key: Key) {
    forall i | lo <= i < hi :: BracketsAt(head, levels, prev, next, i, key)
  }

  /** Replacing level `i` by the exact bracket extends a splice one level down. */
  lemma ExactLevelBelow(head: Node, levels: Levels, height: nat, prev: seq<Node?>, next: seq<Node?>,
                        i: nat, p: Node, s: Node?, key: Key)
    requires LevelsOk(head, levels) && i < height && SpliceFrom(head, levels, i + 1, height, prev, next)
    requires IsLastBefore(head, levels[i], p, key) && IsFirstFrom(levels[i], s, key)
    requires i + 1 < height ==> BracketsAt(head, levels, prev, next, i + 1, key)
    ensures SpliceFrom(head, levels, i, height, prev[i := p], next[i := s])
    ensures BracketsAt(head, levels, prev[i := p], next[i := s], i, key)
  {
    if i + 1 < height {
      assert levels[i + 1] <= levels[i];
      ExactDominates(head, levels[i], p, s, key, prev[i + 1], next[i + 1]);
    }
    var prev', next' := prev[i := p], next[i := s];
    forall j | i <= j < height
      ensures OrderedAt(head, prev', next', j)
    {
      if j > i { assert OrderedAt(head, prev, next, j); }
    }
  }

  /** Replacing level `i` by the exact bracket keeps a splice whose level below is exact already. */
  lemma ExactLevelBetween(head: Node, levels: Levels, height: nat, prev: seq<Node?>, next: seq<Node?>,
                          i: nat, p: Node, s: Node?, key: Key)
    requires LevelsOk(head, levels) && i < height && SpliceFrom(head, levels, 0, height, prev, next)
    requires IsLastBefore(head, levels[i], p, key) && IsFirstFrom(levels[i], s, key)
    requires i + 1 < height ==> BracketsAt(head, levels, prev, next, i + 1, key)
    requires i > 0 ==> ExactOn(head, levels, prev, next, i - 1, i, key)
    ensures SpliceFrom(head, levels, 0, height, prev[i := p], next[i := s])
  {
    ExactLevelBelow(head, levels, height, prev, next, i, p, s, key);
    if i > 0 {
      assert levels[i] <= levels[i - 1];
      ExactDominates(head, levels[i - 1], prev[i - 1], next[i - 1], key, p, s);
    }
    var prev', next' := prev[i := p], next[i := s];
    forall j | 0 <= j < height
      ensures OrderedAt(head, prev', next', j)
    {
      if j < i - 1 { assert OrderedAt(head, prev, next, j); }
      else if j > i - 1 { assert OrderedAt(head, prev', next', j); }
    }
  }

  lemma ExactBrackets(head: Node, levels: Levels, prev: seq<Node?>, next: seq<Node?>, lo: nat, hi: nat, key: Key)
    requires ExactOn(head, levels, prev, next, lo, hi, key)
    ensures BracketsOn(head, levels, prev, next, lo, hi, key)
  {
  }

  /** What is known about the splice while `x` is being linked on level `i`, in terms of the levels
      before the insert: below `i`, and below `r`, it is exact; above, it brackets the key. */
  ghost predicate Linking(head: Node, levels: Levels, height: nat, prev: seq<Node?>, next: seq<Node?>, i: nat,
                          r: nat, key: Key) {
    && i <= height && r <= height
    && SpliceFrom(head, levels, 0, height, prev, next)
    && ExactOn(head, levels, prev, next, 0, if i < r then r else i, key)
    && BracketsOn(head, levels, prev, next, i, height, key)
  }

  lemma LinkingStep(head: Node, levels: Levels, height: nat, prev: seq<Node?>, next: seq<Node?>, i: nat, r: nat,
                    key: Key)
    requires Linking(head, levels, height, prev, next, i, r, key) && i < height
    requires i < r ||
             (prev[i] != null && IsLastBefore(head, levels[i], prev[i], key) && IsFirstFrom(levels[i], next[i], key))
    ensures Linking(head, levels, height, prev, next, i + 1, r, key)
  {
  }

  /** Making level `i` exact by a fresh search. */
  lemma LinkingRefreshed(head: Node, levels: Levels, height: nat, prev: seq<Node?>, next: seq<Node?>, i: nat, r: nat,
                         key: Key,
                         p: Node, s: Node?)
    requires LevelsOk(head, levels) && Linking(head, levels, height, prev, next, i, r, key) && r <= i < height
    requires IsLastBefore(head, levels[i], p, key) && IsFirstFrom(levels[i], s, key)
    ensures Linking(head, levels, height, prev[i := p], next[i := s], i, r, key)
  {
    var prev', next' := prev[i := p], next[i := s];
    if i + 1 < height { assert BracketsAt(head, levels, prev, next, i + 1, key); }
    ExactLevelBetween(head, levels, height, prev, next, i, p, s, key);
    forall j | i <= j < height ensures BracketsAt(head, levels, prev', next', j, key) {
      if j > i { assert BracketsAt(head, levels, prev, next, j, key); }
    }
  }

  ghost predicate Absent(levels: Levels, key: Key) {
    levels == [] || forall n | n in levels[0] :: n.key != key
  }

  /** The duplicate test of level 0 is exact; on upper levels it is not needed. */
  lemma StrictSuccessor(head: Node, levels: Levels, i: nat, p: Node, s: Node?, key: Key)
    requires LevelsOk(head, levels) && i < |levels|
    requires IsLastBefore(head, levels[i], p, key) && IsFirstFrom(levels[i], s, key)
    ensures i == 0 ==> (Absent(levels, key) <==> s == null || key < s.key)
    ensures i > 0 && Absent(levels, key) ==> s == null || key < s.key
  {
    assert levels[i] <= levels[0];
  }

  lemma WithNodeNext(levels: Levels, x: Node, i: nat)
    requires i < |levels| && x !in levels[i]
    ensures WithNode(levels, x, i)[i] == levels[i]
    ensures WithNode(levels, x, i)[i := levels[i] + {x}] == WithNode(levels, x, i + 1)
    ensures WithNode(levels, x, 0) == levels
  {
  }

  /** The predecessors of a splice after `x` has replaced them below level `n`. */
  function WithPrev(prev: seq<Node?>, x: Node, n: nat): seq<Node?> {
    seq(|prev|, i requires 0 <= i < |prev| => if i < n then x else prev[i])
  }

  /** After a successful insert the new node is its own predecessor on the levels it occupies. */
  lemma NodeBecomesPredecessor(head: Node, levels: Levels, height: nat, prev: seq<Node?>, next: seq<Node?>, x: Node)
    requires LevelsOk(head, levels) && SpliceFrom(head, levels, 0, height, prev, next)
    requires 1 <= x.height <= height && x != head
    requires BracketsOn(head, levels, prev, next, 0, height, x.key)
    ensures SpliceFrom(head, WithNode(levels, x, x.height), 0, height, WithPrev(prev, x, x.height), next)
  {
    var prev', levels' := WithPrev(prev, x, x.height), WithNode(levels, x, x.height);
    forall i | 0 <= i < height
      ensures OrderedAt(head, prev', next, i)
      ensures IsNode(head, levels'[i], prev'[i]) && (next[i] == null || next[i] in levels'[i])
    {
      assert OrderedAt(head, prev, next, i);
      if i == x.height - 1 && i + 1 < height {
        assert BracketsAt(head, levels, prev, next, i + 1, x.key);
      }
    }
  }

  /** The asserts that close `Insert`: sentinels in place, the new key strictly below every
      successor and not below any predecessor, and both ordered from level to level. */
  ghost predicate ClosingAsserts(head: Node, height: nat, prev: seq<Node?>, next: seq<Node?>, key: Key) {
    && height < |prev| && height < |next|
    && prev[height] == head && next[height] == null
    && forall i | 0 <= i < height ::
         && (next[i] == null || key < next[i].key)
         && prev[i] != null && (prev[i] == head || prev[i].key <= key)
         && OrderedAt(head, prev, next, i)
  }

  lemma ClosingAssertsHold(head: Node, levels: Levels, height: nat, prev: seq<Node?>, next: seq<Node?>, x: Node)
    requires LevelsOk(head, levels) && SpliceFrom(head, levels, 0, height, prev, next)
    requires 1 <= x.height <= height && x != head && Absent(levels, x.key)
    requires BracketsOn(head, levels, prev, next, 0, height, x.key)
    ensures ClosingAsserts(head, height, WithPrev(prev, x, x.height), next, x.key)
  {
    NodeBecomesPredecessor(head, levels, height, prev, next, x);
    var prev' := WithPrev(prev, x, x.height);
    forall i | 0 <= i < height
      ensures next[i] == null || x.key < next[i].key
      ensures prev'[i] != null && (prev'[i] == head || prev'[i].key <= x.key)
    {
      assert BracketsAt(head, levels, prev, next, i, x.key);
      assert levels[i] <= levels[0];
    }
  }
}
