/** `TEST_Validate`: one joint walk over all levels that breaks off early, and yet accepts exactly
    the lists whose levels are strictly sorted and nested. */
module SkipListValidate {
  import opened Keys
  import opened SkipList
  import opened SkipListOrder

  /** `nodes` is what following the links of level `i` from the head meets, up to the final null.
      Nothing is assumed about order. */
  ghost predicate IsChain(head: Node, i: nat, nodes: seq<Node>)
    reads head, nodes
  {
    && i < |head.next| && head.next[i] == EntryAt(nodes, 0)
    && forall k | 0 <= k < |nodes| :: i < |nodes[k].next| && nodes[k].next[i] == EntryAt(nodes, k + 1)
  }

  function EntryAt(nodes: seq<Node>, k: nat): Node? {
    if k < |nodes| then nodes[k] else null
  }

  /** What a valid list is: every level strictly sorted, and contained in the level below. */
  ghost predicate ValidLevels(lists: seq<seq<Node>>) {
    && (forall i | 0 <= i < |lists| :: StrictlySorted(lists[i]))
    && (forall i | 0 < i < |lists| :: ContainedIn(lists[i], lists[i - 1]))
  }

  ghost predicate ContainedIn(upper: seq<Node>, lower: seq<Node>) {
    forall k | 0 <= k < |upper| :: upper[k] in lower
  }

  lemma {:induction false} ContainedInBottom(lists: seq<seq<Node>>, j: nat, i: nat)
    requires ValidLevels(lists) && j <= i < |lists|
    ensures ContainedIn(lists[i], lists[j])
    decreases i
  {
    if j < i {
      ContainedInBottom(lists, j, i - 1);
      assert ContainedIn(lists[i], lists[i - 1]);
      forall k | 0 <= k < |lists[i]| ensures lists[i][k] in lists[j] {
        var m :| 0 <= m < |lists[i - 1]| && lists[i - 1][m] == lists[i][k];
      }
    } else {
      forall k | 0 <= k < |lists[i]| ensures lists[i][k] in lists[j] {
      }
    }
  }

  // ---------------------------------------------------------------------------------------
  // The joint walk: `pos[i]` nodes of level `i` have been passed
  // ---------------------------------------------------------------------------------------

  ghost predicate InRange(lists: seq<seq<Node>>, pos: seq<nat>) {
    |pos| == |lists| && forall i | 0 <= i < |pos| :: pos[i] <= |lists[i]|
  }

  /** What has been passed is sorted and nested, and no key above the last one on level 0. */
  ghost predicate PassedOk(lists: seq<seq<Node>>, pos: seq<nat>, i: nat)
    requires InRange(lists, pos) && i < |lists|
  {
    && StrictlySorted(lists[i][..pos[i]])
    && (i > 0 ==> ContainedIn(lists[i][..pos[i]], lists[i - 1][..pos[i - 1]]))
    && (i > 0 ==> forall k | 0 <= k < pos[i] :: pos[0] > 0 && lists[i][k].key <= lists[0][pos[0] - 1].key)
  }

  ghost predicate AllPassedOk(lists: seq<seq<Node>>, pos: seq<nat>) {
    InRange(lists, pos) && forall i | 0 <= i < |lists| :: PassedOk(lists, pos, i)
  }

  /** The next node of level `i` has a key above `key`. */
  ghost predicate NextAbove(lists: seq<seq<Node>>, pos: seq<nat>, i: nat, key: Key) {
    i < |lists| && i < |pos| && (pos[i] < |lists[i]| ==> lists[i][pos[i]].key > key)
  }

  ghost predicate NextsAbove(lists: seq<seq<Node>>, pos: seq<nat>, lo: nat, hi: nat, key: Key) {
    forall i | lo <= i < hi :: NextAbove(lists, pos, i, key)
  }

  /** Nothing has been skipped: on every level the next node lies beyond the last one passed on level 0. */
  ghost predicate NothingSkipped(lists: seq<seq<Node>>, pos: seq<nat>) {
    |pos| == |lists| > 0 && 0 < pos[0] <= |lists[0]| ==> NextsAbove(lists, pos, 0, |lists|, lists[0][pos[0] - 1].key)
  }

  /** In a valid list the next node of a level is at or beyond the node just passed on level 0, and
      the same node if the keys are equal. */
  lemma NextIsBeyond(lists: seq<seq<Node>>, pos: seq<nat>, i: nat)
    requires ValidLevels(lists) && InRange(lists, pos) && NothingSkipped(lists, pos)
    requires 0 < i < |lists| && pos[0] < |lists[0]| && pos[i] < |lists[i]|
    ensures lists[0][pos[0]].key <= lists[i][pos[i]].key
    ensures lists[0][pos[0]].key == lists[i][pos[i]].key ==> lists[0][pos[0]] == lists[i][pos[i]]
  {
    ContainedInBottom(lists, 0, i);
    assert StrictlySorted(lists[0]);
    assert pos[0] > 0 ==> NextAbove(lists, pos, i, lists[0][pos[0] - 1].key);
    var k :| 0 <= k < |lists[0]| && lists[0][k] == lists[i][pos[i]];
  }

  /** If level `i` does not advance with node `e` of level 0, no level above may. */
  lemma UpperLevelsStay(lists: seq<seq<Node>>, pos: seq<nat>, i: nat, j: nat)
    requires ValidLevels(lists) && NothingSkipped(lists, pos) && AllPassedOk(lists, pos)
    requires 0 < i <= j < |lists| && pos[0] < |lists[0]| && NextAbove(lists, pos, i, lists[0][pos[0]].key)
    ensures NextAbove(lists, pos, j, lists[0][pos[0]].key)
  {
    if pos[j] < |lists[j]| {
      ContainedInBottom(lists, i, j);
      assert StrictlySorted(lists[i]) && PassedOk(lists, pos, i);
      assert pos[0] > 0 ==> NextAbove(lists, pos, j, lists[0][pos[0] - 1].key);
      assert lists[j][pos[j]] in lists[i];
      var k :| 0 <= k < |lists[i]| && lists[i][k] == lists[j][pos[j]];
      assert k >= pos[i];
    }
  }

  /** Level 0 advances. */
  lemma BottomAdvances(lists: seq<seq<Node>>, pos: seq<nat>)
    requires AllPassedOk(lists, pos) && |lists| > 0 && pos[0] < |lists[0]|
    requires pos[0] > 0 ==> lists[0][pos[0] - 1].key < lists[0][pos[0]].key
    ensures AllPassedOk(lists, pos[0 := pos[0] + 1])
  {
    var pos' := pos[0 := pos[0] + 1];
    forall i | 0 <= i < |lists| ensures PassedOk(lists, pos', i) {
      assert PassedOk(lists, pos, i) && PassedOk(lists, pos, 0);
      var old0, new0 := lists[0][..pos[0]], lists[0][..pos[0] + 1];
      assert new0 == old0 + [lists[0][pos[0]]];
      if i == 0 && pos[0] > 0 {
        assert forall k | 0 <= k < |old0| :: old0[k].key <= old0[pos[0] - 1].key;
      }
    }
  }

  /** Level `i` advances with the node that level 0, and every level in between, has just passed. */
  lemma UpperAdvances(lists: seq<seq<Node>>, pos: seq<nat>, i: nat, e: Node)
    requires AllPassedOk(lists, pos) && 0 < i < |lists| && pos[i] < |lists[i]| && lists[i][pos[i]] == e
    requires pos[0] > 0 && lists[0][pos[0] - 1] == e
    requires pos[i - 1] > 0 && lists[i - 1][pos[i - 1] - 1] == e
    requires forall k | 0 <= k < pos[i] :: lists[i][k].key < e.key
    ensures AllPassedOk(lists, pos[i := pos[i] + 1])
  {
    var pos' := pos[i := pos[i] + 1];
    forall j | 0 <= j < |lists| ensures PassedOk(lists, pos', j) {
      assert PassedOk(lists, pos, j) && PassedOk(lists, pos, i);
      var old', new' := lists[i][..pos[i]], lists[i][..pos[i] + 1];
      assert new' == old' + [e];
      if j == i {
        assert lists[i - 1][..pos[i - 1]][pos[i - 1] - 1] == e;
      }
    }
  }

  /** Once everything has been passed, the levels are valid. */
  lemma AllPassedMeansValid(lists: seq<seq<Node>>, pos: seq<nat>)
    requires AllPassedOk(lists, pos) && forall i | 0 <= i < |lists| :: pos[i] == |lists[i]|
    ensures ValidLevels(lists)
  {
    forall i | 0 <= i < |lists| ensures StrictlySorted(lists[i]) && (i > 0 ==> ContainedIn(lists[i], lists[i - 1])) {
      assert PassedOk(lists, pos, i);
      assert lists[i][..pos[i]] == lists[i];
      if i > 0 { assert lists[i - 1][..pos[i - 1]] == lists[i - 1]; }
    }
  }

  /** In a valid list level 0 can always advance. */
  lemma BottomIsSorted(lists: seq<seq<Node>>, pos: seq<nat>)
    requires ValidLevels(lists) && InRange(lists, pos) && |lists| > 0 && 0 < pos[0] < |lists[0]|
    ensures lists[0][pos[0] - 1].key < lists[0][pos[0]].key
  {
    assert StrictlySorted(lists[0]);
  }

  /** The last key of level 0 bounds the keys of every level. */
  lemma LastKeyIsLargest(lists: seq<seq<Node>>, i: nat, m: nat)
    requires ValidLevels(lists) && i < |lists| && m < |lists[i]|
    ensures |lists[0]| > 0 && lists[i][m].key <= lists[0][|lists[0]| - 1].key
  {
    ContainedInBottom(lists, 0, i);
    assert StrictlySorted(lists[0]);
    assert lists[i][m] in lists[0];
    var k :| 0 <= k < |lists[0]| && lists[0][k] == lists[i][m];
  }

  /** In a valid list, when level 0 is used up so is every other level. */
  lemma AllUsedUp(lists: seq<seq<Node>>, pos: seq<nat>, i: nat)
    requires ValidLevels(lists) && AllPassedOk(lists, pos) && NothingSkipped(lists, pos)
    requires i < |lists| && pos[0] == |lists[0]|
    ensures pos[i] == |lists[i]|
  {
    assert pos[0] > 0 ==> NextAbove(lists, pos, i, lists[0][pos[0] - 1].key);
    if pos[i] < |lists[i]| {
      LastKeyIsLargest(lists, i, pos[i]);
    }
  }

  /** The state of the walk: `nodes[i]` is the last node passed on level `i`. */
  ghost predicate Walking(head: Node, lists: seq<seq<Node>>, nodes: seq<Node>, pos: seq<nat>) {
    && AllPassedOk(lists, pos) && |nodes| == |lists| > 0
    && forall i | 0 <= i < |lists| :: nodes[i] == if pos[i] == 0 then head else lists[i][pos[i] - 1]
  }

  ghost function NodesOf(lists: seq<seq<Node>>): set<Node> {
    set i, k | 0 <= i < |lists| && 0 <= k < |lists[i]| :: lists[i][k]
  }

  ghost predicate AreChains(head: Node, lists: seq<seq<Node>>)
    reads head, NodesOf(lists)
  {
    forall i | 0 <= i < |lists| :: IsChain(head, i, lists[i])
  }

  /** If the head occurs at `k`, the chain repeats itself from there. */
  lemma {:induction false} ChainRepeats(head: Node, i: nat, nodes: seq<Node>, k: nat, j: nat)
    requires IsChain(head, i, nodes) && k < |nodes| && nodes[k] == head && k + 1 + j <= |nodes|
    ensures EntryAt(nodes, k + 1 + j) == EntryAt(nodes, j)
    decreases j
  {
    if j == 0 {
      assert nodes[k].next[i] == EntryAt(nodes, k + 1);
    } else {
      ChainRepeats(head, i, nodes, k, j - 1);
      assert nodes[k + j].next[i] == EntryAt(nodes, k + j + 1);
      assert nodes[j - 1].next[i] == EntryAt(nodes, j);
    }
  }

  /** A chain that ends never comes back to the head. */
  lemma {:induction false} HeadNotInChain(head: Node, i: nat, nodes: seq<Node>)
    requires IsChain(head, i, nodes)
    ensures forall k | 0 <= k < |nodes| :: nodes[k] != head
  {
    if k :| 0 <= k < |nodes| && nodes[k] == head {
      ChainRepeats(head, i, nodes, k, |nodes| - k - 1);
    }
  }

  /** The link out of the last node passed on level `i`. */
  lemma NextOf(head: Node, lists: seq<seq<Node>>, nodes: seq<Node>, pos: seq<nat>, i: nat)
    requires AreChains(head, lists) && Walking(head, lists, nodes, pos) && i < |lists|
    ensures i < |nodes[i].next| && nodes[i].next[i] == EntryAt(lists[i], pos[i])
    ensures nodes[i] == head <==> pos[i] == 0
  {
    assert IsChain(head, i, lists[i]);
    HeadNotInChain(head, i, lists[i]);
  }

  lemma PassedOneMore(head: Node, lists: seq<seq<Node>>, nodes: seq<Node>, pos: seq<nat>, i: nat)
    requires Walking(head, lists, nodes, pos) && i < |lists| && pos[i] < |lists[i]|
    requires AllPassedOk(lists, pos[i := pos[i] + 1])
    ensures Walking(head, lists, nodes[i := lists[i][pos[i]]], pos[i := pos[i] + 1])
  {
  }

  /** One node of level 0 has been passed; levels 1 to `i` have advanced with it. */
  ghost predicate Advancing(lists: seq<seq<Node>>, was: seq<nat>, pos: seq<nat>, i: nat) {
    && AllPassedOk(lists, was) && AllPassedOk(lists, pos) && 0 < i <= |lists|
    && was[0] < |lists[0]|
    && (forall j | 0 <= j < |lists| :: pos[j] == if j < i then was[j] + 1 else was[j])
    && (forall j | 0 <= j < i :: pos[j] > 0 && lists[j][pos[j] - 1] == lists[0][was[0]])
    && (was[0] > 0 ==> lists[0][was[0] - 1].key < lists[0][was[0]].key)
  }

  /** Keys passed on an upper level are below the node now passed on level 0. */
  lemma EarlierKeysAreSmaller(lists: seq<seq<Node>>, was: seq<nat>, pos: seq<nat>, i: nat)
    requires Advancing(lists, was, pos, i) && i < |lists|
    ensures forall k | 0 <= k < pos[i] :: lists[i][k].key < lists[0][was[0]].key
  {
    assert PassedOk(lists, was, i);
  }

  lemma AdvanceOne(lists: seq<seq<Node>>, was: seq<nat>, pos: seq<nat>, i: nat)
    requires Advancing(lists, was, pos, i) && i < |lists| && pos[i] < |lists[i]| && lists[i][pos[i]] == lists[0][was[0]]
    ensures Advancing(lists, was, pos[i := pos[i] + 1], i + 1)
  {
    EarlierKeysAreSmaller(lists, was, pos, i);
    UpperAdvances(lists, pos, i, lists[0][was[0]]);
  }

  /** In a valid list: after the inner loop nothing has been skipped. */
  lemma NothingSkippedAfter(lists: seq<seq<Node>>, was: seq<nat>, pos: seq<nat>, i: nat)
    requires Advancing(lists, was, pos, i) && ValidLevels(lists) && NothingSkipped(lists, was)
    requires i < |lists| ==> NextAbove(lists, pos, i, lists[0][was[0]].key)
    ensures NothingSkipped(lists, pos)
  {
    var e := lists[0][was[0]];
    forall j | 0 <= j < |lists| ensures NextAbove(lists, pos, j, e.key) {
      if j < i {
        assert StrictlySorted(lists[j]);
      } else {
        assert NextAbove(lists, was, i, e.key);
        UpperLevelsStay(lists, was, i, j);
      }
    }
  }

  /** Lines 654 to 669: advance the upper levels whose next node is the one level 0 has just passed. */
  method AdvanceUpperLevels(head: Node, maxHeight: nat, l0Next: Node, nodes: seq<Node>,
                            ghost lists: seq<seq<Node>>, ghost was: seq<nat>, ghost pos: seq<nat>)
    returns (ok: bool, nodes': seq<Node>, ghost pos': seq<nat>)
    requires 0 < maxHeight == |lists| && AreChains(head, lists)
    requires Walking(head, lists, nodes, pos) && Advancing(lists, was, pos, 1) && nodes[0] == l0Next
    requires ValidLevels(lists) ==> NothingSkipped(lists, was)
    ensures !ok ==> !ValidLevels(lists)
    ensures ok ==> Walking(head, lists, nodes', pos') && pos'[0] == pos[0]
    ensures ok && ValidLevels(lists) ==> NothingSkipped(lists, pos')
  {
    nodes', pos' := nodes, pos;
    var i := 1;
    while i < maxHeight
      invariant 1 <= i <= maxHeight
      invariant Walking(head, lists, nodes', pos') && Advancing(lists, was, pos', i) && nodes'[0] == l0Next
    {
      NextOf(head, lists, nodes', pos', i);
      var next := nodes'[i].next[i];
      if next == null {
        break;
      }
      if ValidLevels(lists) {
        NextIsBeyond(lists, was, i);
      }
      if nodes'[0].key > next.key {
        return false, nodes', pos';
      }
      if nodes'[0].key < next.key {
        break;
      }
      if next != nodes'[0] {
        return false, nodes', pos';
      }
      AdvanceOne(lists, was, pos', i);
      PassedOneMore(head, lists, nodes', pos', i);
      nodes' := nodes'[i := l0Next];
      pos' := pos'[i := pos'[i] + 1];
      i := i + 1;
    }
    if ValidLevels(lists) {
      NothingSkippedAfter(lists, was, pos', i);
    }
    ok := true;
  }

  /** Lines 671 to 673: every upper level has been walked to its end. */
  method UpperLevelsEnded(head: Node, maxHeight: nat, nodes: seq<Node>, ghost lists: seq<seq<Node>>,
                          ghost pos: seq<nat>)
    returns (ok: bool)
    requires 0 < maxHeight == |lists| && AreChains(head, lists)
    requires Walking(head, lists, nodes, pos) && pos[0] == |lists[0]|
    ensures ok <==> forall j | 0 <= j < |lists| :: pos[j] == |lists[j]|
  {
    for i := 1 to maxHeight
      invariant forall j | 0 <= j < i :: pos[j] == |lists[j]|
    {
      NextOf(head, lists, nodes, pos, i);
      if nodes[i].next[i] != null {
        return false;
      }
    }
    return true;
  }

  /** Lines 647 to 652: level 0 takes one step; false stands for its failed assert. */
  method AdvanceBottom(head: Node, nodes: seq<Node>, l0Next: Node, ghost lists: seq<seq<Node>>, ghost was: seq<nat>)
    returns (ok: bool, nodes': seq<Node>, ghost pos: seq<nat>)
    requires AreChains(head, lists) && Walking(head, lists, nodes, was)
    requires was[0] < |lists[0]| && lists[0][was[0]] == l0Next
    ensures !ok ==> !ValidLevels(lists)
    ensures ok ==> Walking(head, lists, nodes', pos) && Advancing(lists, was, pos, 1) && nodes'[0] == l0Next
  {
    NextOf(head, lists, nodes, was, 0);
    if ValidLevels(lists) && was[0] > 0 {
      BottomIsSorted(lists, was);
    }
    ok := nodes[0] == head || nodes[0].key < l0Next.key;
    nodes', pos := nodes, was;
    if ok {
      BottomAdvances(lists, was);
      PassedOneMore(head, lists, nodes, was, 0);
      nodes', pos := nodes[0 := l0Next], was[0 := was[0] + 1];
    }
  }

  /** `TEST_Validate` on a list whose levels below `maxHeight` end: false stands for a failed
      assert. It passes exactly when the levels are strictly sorted and nested. */
  method TestValidate(head: Node, maxHeight: nat, ghost lists: seq<seq<Node>>) returns (ok: bool)
    requires 0 < maxHeight == |lists| && AreChains(head, lists)
    ensures ok <==> ValidLevels(lists)
  {
    var nodes: seq<Node> := seq(maxHeight, i => head);
    ghost var pos: seq<nat> := seq(maxHeight, i => 0);
    while true
      invariant Walking(head, lists, nodes, pos)
      invariant ValidLevels(lists) ==> NothingSkipped(lists, pos)
      decreases |lists[0]| - pos[0]
    {
      NextOf(head, lists, nodes, pos, 0);
      var l0Next := nodes[0].next[0];
      if l0Next == null {
        break;
      }
      ghost var was := pos;
      var advanced: bool;
      advanced, nodes, pos := AdvanceBottom(head, nodes, l0Next, lists, was);
      if !advanced {
        return false;
      }
      advanced, nodes, pos := AdvanceUpperLevels(head, maxHeight, l0Next, nodes, lists, was, pos);
      if !advanced {
        return false;
      }
    }
    ok := UpperLevelsEnded(head, maxHeight, nodes, lists, pos);
    EndOfWalk(head, lists, nodes, pos);
  }

  lemma EndOfWalk(head: Node, lists: seq<seq<Node>>, nodes: seq<Node>, pos: seq<nat>)
    requires Walking(head, lists, nodes, pos) && pos[0] == |lists[0]|
    requires ValidLevels(lists) ==> NothingSkipped(lists, pos)
    ensures ValidLevels(lists) <==> forall j | 0 <= j < |lists| :: pos[j] == |lists[j]|
  {
    if ValidLevels(lists) {
      forall j | 0 <= j < |lists| ensures pos[j] == |lists[j]| {
        AllUsedUp(lists, pos, j);
      }
    } else if forall j | 0 <= j < |lists| :: pos[j] == |lists[j]| {
      AllPassedMeansValid(lists, pos);
    }
  }

  // ---------------------------------------------------------------------------------------
  // The lists that inserts build
  // ---------------------------------------------------------------------------------------

  /** What following the links of the lowest `n` levels from the head meets. */
  ghost function WalksOf(head: Node, levels: Levels, links: LinkMap, n: nat): seq<seq<Node>>
    requires ListOk(head, levels, links) && n <= |levels|
  {
    seq(n, i requires 0 <= i < n => Walk(head, levels, links, i, head))
  }

  /** A walk follows the links. */
  lemma {:induction false} WalkIsChain(head: Node, levels: Levels, links: LinkMap, i: nat, n: Node)
    requires ListOk(head, levels, links) && i < |levels| && IsNode(head, levels[i], n)
    ensures var nodes := Walk(head, levels, links, i, n);
      && n in links && i < |links[n]| && links[n][i] == EntryAt(nodes, 0)
      && forall k | 0 <= k < |nodes| ::
           nodes[k] in links && i < |links[nodes[k]]| && links[nodes[k]][i] == EntryAt(nodes, k + 1)
    decreases NodesAfter(head, levels[i], n)
  {
    assert n in links && LinkOk(head, levels, links, i, n);
    var s := links[n][i];
    if s == null {
    } else {
      assert IsLevel(head, levels[i]);
      assert s in NodesAfter(head, levels[i], n) && s !in NodesAfter(head, levels[i], s);
      WalkIsChain(head, levels, links, i, s);
      var rest := Walk(head, levels, links, i, s);
      forall k | 0 <= k < |[s] + rest|
        ensures ([s] + rest)[k] in links && i < |links[([s] + rest)[k]]|
        ensures links[([s] + rest)[k]][i] == EntryAt([s] + rest, k + 1)
      {
        assert k > 0 ==> ([s] + rest)[k] == rest[k - 1] && EntryAt([s] + rest, k + 1) == EntryAt(rest, k);
      }
    }
  }

  lemma WalksAreValid(head: Node, levels: Levels, links: LinkMap, n: nat)
    requires ListOk(head, levels, links) && n <= |levels|
    ensures ValidLevels(WalksOf(head, levels, links, n))
  {
    var lists := WalksOf(head, levels, links, n);
    forall i | 0 <= i < n ensures Enumerates(lists[i], NodesAfter(head, levels[i], head)) {
      WalkEnumerates(head, levels, links, i, head);
    }
    forall i | 0 < i < n ensures ContainedIn(lists[i], lists[i - 1]) {
      assert levels[i] <= levels[i - 1];
      forall k | 0 <= k < |lists[i]| ensures lists[i][k] in lists[i - 1] {
        assert lists[i][k] in NodesAfter(head, levels[i - 1], head);
      }
    }
  }

  /** `TEST_Validate` accepts every list that inserts have built. */
  lemma ValidListPasses(list: SkipList)
    requires list.Valid()
    ensures var lists := WalksOf(list.head, list.levels, list.Links(), list.maxHeight);
      |lists| == list.maxHeight && AreChains(list.head, lists) && ValidLevels(lists)
  {
    var lists := WalksOf(list.head, list.levels, list.Links(), list.maxHeight);
    WalksAreValid(list.head, list.levels, list.Links(), list.maxHeight);
    forall i | 0 <= i < |lists| ensures IsChain(list.head, i, lists[i]) {
      WalkIsChain(list.head, list.levels, list.Links(), i, list.head);
    }
  }
}
