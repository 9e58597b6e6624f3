/** Building the tree: `initialize_nodes` (one leaf per character, in a fixed
    order) and `construct_tree` (repeatedly merge the two nodes of smallest
    count) of src/main.rs. */
module TreeBuilder {
  import opened Outcomes
  import opened HuffmanTree
  import opened StableSort

  // ---------------------------------------------------------------------------
  // initialize_nodes

  /** The sort key of `initialize_nodes`, `(Reverse(count), char as u64)`,
      compared lexicographically. Every code point is below 0x11_0000, so the
      same order is that of one integer. */
  function EntryKey(e: (char, nat)): int
  {
    -(e.1 as int) * 0x11_0000 + e.0 as int
  }

  lemma {:induction false} EntryKeyOrder(a: (char, nat), b: (char, nat))
    ensures EntryKey(a) < EntryKey(b) <==> a.1 > b.1 || (a.1 == b.1 && a.0 < b.0)
    ensures EntryKey(a) == EntryKey(b) <==> a == b
  {
  }

  /** The order of the leaf list: larger count first, then smaller code point. */
  ghost predicate Precedes(a: Node, b: Node)
  {
    a.count > b.count || (a.count == b.count && a.Leaf? && b.Leaf? && a.ch < b.ch)
  }

  /** `nodes` is what `initialize_nodes(counts)` returns: exactly one leaf per
      entry of `counts`, carrying that entry's character and count, in the
      order `Precedes`. */
  ghost predicate IsLeafList(counts: map<char, nat>, nodes: seq<Node>)
  {
    && |nodes| == |counts|
    && (forall i :: 0 <= i < |nodes| ==>
          nodes[i].Leaf? && nodes[i].ch in counts && nodes[i].count == counts[nodes[i].ch])
    && (forall c :: c in counts ==> Leaf(c, counts[c]) in nodes)
    && (forall i, j :: 0 <= i < j < |nodes| ==> Precedes(nodes[i], nodes[j]))
  }

  /** `initialize_nodes`: push every entry of the map, in the map's (unspecified)
      iteration order, sort by `EntryKey`, and turn every entry into a leaf. */
  method InitializeNodes(counts: map<char, nat>) returns (nodes: seq<Node>)
    ensures IsLeafList(counts, nodes)
  {
    var entries: seq<(char, nat)> := [];
    var unvisited := counts.Keys;
    while unvisited != {}
      invariant unvisited <= counts.Keys
      invariant |entries| + |unvisited| == |counts|
      invariant forall i :: 0 <= i < |entries| ==>
        entries[i].0 in counts && entries[i].0 !in unvisited && entries[i].1 == counts[entries[i].0]
      invariant forall c :: c in counts && c !in unvisited ==> (c, counts[c]) in entries
      invariant forall i, j :: 0 <= i < j < |entries| ==> entries[i].0 != entries[j].0
      decreases unvisited
    {
      var c :| c in unvisited;  // the HashMap's iteration order is unspecified
      entries := entries + [(c, counts[c])];
      unvisited := unvisited - {c};
    }
    nodes := ToLeaves(SortByKey(entries, EntryKey));
    SortedEntriesMakeLeafList(counts, entries);
  }

  /** `.map(|(char, count)| TreeNode::new_leaf(*char, *count)).collect()`. */
  function ToLeaves(entries: seq<(char, nat)>): (nodes: seq<Node>)
    ensures |nodes| == |entries|
    ensures forall i :: 0 <= i < |entries| ==> nodes[i] == NewLeaf(entries[i].0, entries[i].1)
  {
    seq(|entries|, i requires 0 <= i < |entries| => NewLeaf(entries[i].0, entries[i].1))
  }

  lemma {:induction false} LeafOfEntry(entries: seq<(char, nat)>, e: (char, nat))
    requires e in entries
    ensures Leaf(e.0, e.1) in ToLeaves(entries)
  {
    var k :| 0 <= k < |entries| && entries[k] == e;
    assert ToLeaves(entries)[k] == Leaf(e.0, e.1);
  }

  /** Entries sorted by `EntryKey` with no key twice become leaves in the
      order `Precedes`. */
  lemma {:induction false} SortedEntriesOrdered(sorted: seq<(char, nat)>)
    requires SortedByKey(sorted, EntryKey) && DistinctKeys(sorted, EntryKey)
    ensures forall i, j :: 0 <= i < j < |sorted| ==> Precedes(ToLeaves(sorted)[i], ToLeaves(sorted)[j])
  {
    var nodes := ToLeaves(sorted);
    forall i, j | 0 <= i < j < |nodes|
      ensures Precedes(nodes[i], nodes[j])
    {
      EntryKeyOrder(sorted[i], sorted[j]);
      assert EntryKey(sorted[i]) <= EntryKey(sorted[j]);
      assert EntryKey(sorted[i]) != EntryKey(sorted[j]);
    }
  }

  /** Entries with distinct characters have distinct keys. */
  lemma {:induction false} DistinctCharsDistinctKeys(entries: seq<(char, nat)>)
    requires forall i, j :: 0 <= i < j < |entries| ==> entries[i].0 != entries[j].0
    ensures DistinctKeys(entries, EntryKey)
  {
    forall i, j | 0 <= i < j < |entries|
      ensures EntryKey(entries[i]) != EntryKey(entries[j])
    {
      EntryKeyOrder(entries[i], entries[j]);
    }
  }

  /** The entries of `counts`, each once and in any order, become the leaf list
      once sorted by `EntryKey`. */
  lemma {:induction false} SortedEntriesMakeLeafList(counts: map<char, nat>, entries: seq<(char, nat)>)
    requires |entries| == |counts|
    requires forall i :: 0 <= i < |entries| ==>
      entries[i].0 in counts && entries[i].1 == counts[entries[i].0]
    requires forall c :: c in counts ==> (c, counts[c]) in entries
    requires forall i, j :: 0 <= i < j < |entries| ==> entries[i].0 != entries[j].0
    ensures IsLeafList(counts, ToLeaves(SortByKey(entries, EntryKey)))
  {
    var sorted := SortByKey(entries, EntryKey);
    var nodes := ToLeaves(sorted);
    SortIsSorted(entries, EntryKey);
    SortPermutes(entries, EntryKey);
    DistinctCharsDistinctKeys(entries);
    SortKeepsKeysDistinct(entries, EntryKey);
    SortedEntriesOrdered(sorted);
    forall i | 0 <= i < |nodes|
      ensures nodes[i].Leaf? && nodes[i].ch in counts && nodes[i].count == counts[nodes[i].ch]
    {
      assert sorted[i] in multiset(entries);
      assert sorted[i] in entries;
    }
    forall c | c in counts
      ensures Leaf(c, counts[c]) in nodes
    {
      assert (c, counts[c]) in multiset(sorted);
      LeafOfEntry(sorted, (c, counts[c]));
    }
  }

  /** In a list strictly ordered by `Precedes`, the head precedes every other
      element. */
  lemma {:induction false} FirstIsLeast(a: seq<Node>, x: Node)
    requires forall i, j :: 0 <= i < j < |a| ==> Precedes(a[i], a[j])
    requires x in a
    ensures x == a[0] || Precedes(a[0], x)
  {
    var k :| 0 <= k < |a| && a[k] == x;
    if k != 0 {
      assert Precedes(a[0], a[k]);
    }
  }

  /** Two lists strictly ordered by `Precedes` with the same elements are equal. */
  lemma {:induction false} OrderedListsEqual(a: seq<Node>, b: seq<Node>)
    requires forall i, j :: 0 <= i < j < |a| ==> Precedes(a[i], a[j])
    requires forall i, j :: 0 <= i < j < |b| ==> Precedes(b[i], b[j])
    requires forall x :: x in a <==> x in b
    ensures a == b
    decreases |a|
  {
    if a != [] { assert a[0] in a; }
    if b != [] { assert b[0] in b; }
    if a != [] {
      FirstIsLeast(a, b[0]);
      FirstIsLeast(b, a[0]);
      assert a[0] == b[0];
      forall x
        ensures x in a[1..] <==> x in b[1..]
      {
        if x in a[1..] {
          var i :| 1 <= i < |a| && a[i] == x;
          assert Precedes(a[0], a[i]);
          assert x in a && x in b;
        }
        if x in b[1..] {
          var i :| 1 <= i < |b| && b[i] == x;
          assert Precedes(b[0], b[i]);
          assert x in b && x in a;
        }
      }
      OrderedListsEqual(a[1..], b[1..]);
      assert a == [a[0]] + a[1..] && b == [b[0]] + b[1..];
    }
  }

  /** The leaf list does not depend on the map's iteration order: there is
      exactly one list that `initialize_nodes` can return for a map. */
  lemma {:induction false} LeafListIsUnique(counts: map<char, nat>, a: seq<Node>, b: seq<Node>)
    requires IsLeafList(counts, a) && IsLeafList(counts, b)
    ensures a == b
  {
    forall x
      ensures x in a <==> x in b
    {
      if x in a {
        var i :| 0 <= i < |a| && a[i] == x;
        assert x == Leaf(x.ch, counts[x.ch]);
      }
      if x in b {
        var i :| 0 <= i < |b| && b[i] == x;
        assert x == Leaf(x.ch, counts[x.ch]);
      }
    }
    OrderedListsEqual(a, b);
  }

  // ---------------------------------------------------------------------------
  // construct_tree

  /** The sort key of `construct_tree`, `Reverse(count)`. */
  function DescendingCount(n: Node): int
  {
    -(n.count as int)
  }

  /** Counts never increase from left to right. */
  ghost predicate Descending(v: seq<Node>)
  {
    forall i, j :: 0 <= i < j < |v| ==> v[i].count >= v[j].count
  }

  lemma {:induction false} DescendingIsSorted(v: seq<Node>)
    ensures Descending(v) <==> SortedByKey(v, DescendingCount)
  {
    if Descending(v) {
      forall i, j | 0 <= i < j < |v|
        ensures DescendingCount(v[i]) <= DescendingCount(v[j])
      {
      }
    }
    if SortedByKey(v, DescendingCount) {
      forall i, j | 0 <= i < j < |v|
        ensures v[i].count >= v[j].count
      {
        assert DescendingCount(v[i]) <= DescendingCount(v[j]);
      }
    }
  }

  /** The sum of the counts of a node list. */
  function SumCounts(v: seq<Node>): nat
    decreases |v|
  {
    if v == [] then 0 else SumCounts(v[..|v| - 1]) + v[|v| - 1].count
  }

  /** The leaf characters of a node list. */
  function ForestBag(v: seq<Node>): multiset<char>
    decreases |v|
  {
    if v == [] then multiset{} else ForestBag(v[..|v| - 1]) + LeafBag(v[|v| - 1])
  }

  /** One iteration of the loop of `construct_tree`: pop the last node, pop
      the one before it, merge them with the first popped as the left child,
      push the result and stably re-sort by descending count. */
  function Merged(v: seq<Node>): (w: seq<Node>)
    requires |v| >= 2
    ensures |w| == |v| - 1
  {
    SortByKey(v[..|v| - 2] + [NewInternal(v[|v| - 1], v[|v| - 2])], DescendingCount)
  }

  /** What `construct_tree` computes: merge until one node is left. An empty
      list reaches `nodes.pop().unwrap()` on an empty vector and panics. */
  function GreedyTree(v: seq<Node>): (r: Outcome<Node>)
    ensures r.Panics? <==> v == []
    ensures r.Panics? ==> r.reason == EmptyNodeList
    decreases |v|
  {
    if |v| == 0 then Panics(EmptyNodeList)
    else if |v| == 1 then Returns(v[0])
    else GreedyTree(Merged(v))
  }

  lemma {:induction false} InsertKeepsTotals(s: seq<Node>, x: Node)
    ensures SumCounts(Insert(s, x, DescendingCount)) == SumCounts(s) + x.count
    ensures ForestBag(Insert(s, x, DescendingCount)) == ForestBag(s) + LeafBag(x)
    decreases |s|
  {
    var r := Insert(s, x, DescendingCount);
    if s == [] || DescendingCount(s[|s| - 1]) <= DescendingCount(x) {
      assert r[..|r| - 1] == s;
    } else {
      var t := s[..|s| - 1];
      InsertKeepsTotals(t, x);
      assert r[..|r| - 1] == Insert(t, x, DescendingCount);
    }
  }

  lemma {:induction false} SortKeepsTotals(s: seq<Node>)
    ensures SumCounts(SortByKey(s, DescendingCount)) == SumCounts(s)
    ensures ForestBag(SortByKey(s, DescendingCount)) == ForestBag(s)
    decreases |s|
  {
    if s != [] {
      var t := s[..|s| - 1];
      SortKeepsTotals(t);
      InsertKeepsTotals(SortByKey(t, DescendingCount), s[|s| - 1]);
    }
  }

  /** Popping two nodes and pushing their merge keeps the totals. */
  lemma {:induction false} PushKeepsTotals(v: seq<Node>)
    requires |v| >= 2
    ensures var pushed := v[..|v| - 2] + [NewInternal(v[|v| - 1], v[|v| - 2])];
      SumCounts(pushed) == SumCounts(v) && ForestBag(pushed) == ForestBag(v)
  {
    var n := |v|;
    var m := NewInternal(v[n - 1], v[n - 2]);
    var pushed := v[..n - 2] + [m];
    var init := v[..n - 2];
    assert pushed[..|pushed| - 1] == init;
    assert v[..n - 1][..n - 2] == init;
    assert SumCounts(pushed) == SumCounts(init) + m.count;
    assert ForestBag(pushed) == ForestBag(init) + LeafBag(m);
    assert SumCounts(v[..n - 1]) == SumCounts(init) + v[n - 2].count;
    assert ForestBag(v[..n - 1]) == ForestBag(init) + LeafBag(v[n - 2]);
  }

  /** A merge step keeps the total count and the leaves of the list. */
  lemma {:induction false} MergedKeepsTotals(v: seq<Node>)
    requires |v| >= 2
    ensures SumCounts(Merged(v)) == SumCounts(v)
    ensures ForestBag(Merged(v)) == ForestBag(v)
  {
    PushKeepsTotals(v);
    SortKeepsTotals(v[..|v| - 2] + [NewInternal(v[|v| - 1], v[|v| - 2])]);
  }

  /** A merge step keeps every node well-weighted. */
  lemma {:induction false} MergedKeepsWeights(v: seq<Node>)
    requires |v| >= 2
    requires forall x :: x in v ==> WellWeighted(x)
    ensures forall x :: x in Merged(v) ==> WellWeighted(x)
  {
    var n := |v|;
    var pushed := v[..n - 2] + [NewInternal(v[n - 1], v[n - 2])];
    assert forall i :: 0 <= i < |pushed| ==> WellWeighted(pushed[i]) by {
      forall i | 0 <= i < |pushed|
        ensures WellWeighted(pushed[i])
      {
        if i < n - 2 {
          assert pushed[i] == v[i];
        } else {
          assert v[n - 1] in v && v[n - 2] in v;
        }
      }
    }
    var w := Merged(v);
    SortPermutes(pushed, DescendingCount);
    assert multiset(w) == multiset(pushed);
    forall x | x in w
      ensures WellWeighted(x)
    {
      assert x in multiset(pushed);
      var i :| 0 <= i < |pushed| && pushed[i] == x;
    }
  }

  /** One iteration of the loop shrinks the list by one and leaves it sorted
      by descending count. */
  lemma {:induction false} MergeStepSorts(v: seq<Node>)
    requires |v| >= 2
    ensures |Merged(v)| == |v| - 1
    ensures Descending(Merged(v))
  {
    var n := |v|;
    SortIsSorted(v[..n - 2] + [NewInternal(v[n - 1], v[n - 2])], DescendingCount);
    DescendingIsSorted(Merged(v));
  }

  /** One iteration on a list sorted by descending count: the two popped
      nodes are the two of smallest count, the first popped becomes the left
      child, and the merged node lands after every node of equal or larger
      count and before every node of smaller count, the others keeping their
      order. */
  lemma {:induction false} MergeStepPlacement(v: seq<Node>)
    requires |v| >= 2 && Descending(v)
    ensures forall i :: 0 <= i < |v| - 1 ==> v[i].count >= v[|v| - 1].count
    ensures forall i :: 0 <= i < |v| - 2 ==> v[i].count >= v[|v| - 2].count
    ensures var n := |v|;
      var m := Internal(v[n - 1], v[n - 2], v[n - 1].count + v[n - 2].count);
      var rest := v[..n - 2];
      var j := InsertionPoint(rest, m, DescendingCount);
        && Merged(v) == rest[..j] + [m] + rest[j..]
        && (forall i :: 0 <= i < j ==> rest[i].count >= m.count)
        && (forall i :: j <= i < |rest| ==> rest[i].count < m.count)
  {
    var n := |v|;
    var rest := v[..n - 2];
    assert Descending(rest) by {
      forall i, j | 0 <= i < j < |rest|
        ensures rest[i].count >= rest[j].count
      {
        assert rest[i] == v[i] && rest[j] == v[j];
      }
    }
    InsertIntoDescending(rest, NewInternal(v[n - 1], v[n - 2]));
  }

  /** Stably sorting a descending list with one more node appended puts that
      node after every node of equal or larger count and before every node of
      smaller count. */
  lemma {:induction false} InsertIntoDescending(rest: seq<Node>, m: Node)
    requires Descending(rest)
    ensures var j := InsertionPoint(rest, m, DescendingCount);
        && SortByKey(rest + [m], DescendingCount) == rest[..j] + [m] + rest[j..]
        && (forall i :: 0 <= i < j ==> rest[i].count >= m.count)
        && (forall i :: j <= i < |rest| ==> rest[i].count < m.count)
  {
    DescendingIsSorted(rest);
    SortOfSortedPlusOne(rest, m, DescendingCount);
    InsertAt(rest, m, DescendingCount);
    AfterInsertionPoint(rest, m, DescendingCount);
    BeforeInsertionPoint(rest, m, DescendingCount);
  }

  /** What the greedy construction returns for a non-empty list: one node that
      carries the list's total count and all of its leaves, well-weighted when
      the list was, an internal node when there were at least two nodes. */
  lemma {:induction false} GreedyTreeShape(v: seq<Node>)
    requires |v| >= 1
    ensures GreedyTree(v).Returns?
    ensures GreedyTree(v).value.count == SumCounts(v)
    ensures LeafBag(GreedyTree(v).value) == ForestBag(v)
    ensures (forall x :: x in v ==> WellWeighted(x)) ==> WellWeighted(GreedyTree(v).value)
    ensures |v| == 1 ==> GreedyTree(v).value == v[0]
    ensures |v| >= 2 ==> GreedyTree(v).value.Internal?
    decreases |v|
  {
    if |v| == 1 {
      assert v[..0] == [];
    } else {
      var w := Merged(v);
      GreedyTreeShape(w);
      MergedKeepsTotals(v);
      if forall x :: x in v ==> WellWeighted(x) {
        MergedKeepsWeights(v);
      }
      if |w| == 1 {
        var n := |v|;
        var pushed := v[..n - 2] + [NewInternal(v[n - 1], v[n - 2])];
        SortPermutes(pushed, DescendingCount);
        assert pushed == [NewInternal(v[n - 1], v[n - 2])];
        assert w[0] in multiset(pushed);
      }
    }
  }

  /** `construct_tree`. */
  method ConstructTree(nodes: seq<Node>) returns (r: Outcome<Node>)
    ensures r == GreedyTree(nodes)
    ensures r.Panics? <==> nodes == []
    ensures r.Returns? ==> r.value.count == SumCounts(nodes) && LeafBag(r.value) == ForestBag(nodes)
    ensures r.Returns? && (forall x :: x in nodes ==> WellWeighted(x)) ==> WellWeighted(r.value)
  {
    var v := nodes;
    while |v| > 1
      invariant GreedyTree(v) == GreedyTree(nodes)
      invariant |v| <= |nodes| && (nodes != [] ==> v != [])
      decreases |v|
    {
      ghost var before := v;
      var first := v[|v| - 1];
      v := v[..|v| - 1];
      var second := v[|v| - 1];
      v := v[..|v| - 1];
      v := v + [NewInternal(first, second)];
      v := SortByKey(v, DescendingCount);
      assert before[..|before| - 1][..|before| - 2] == before[..|before| - 2];
      assert v == Merged(before);
    }
    if v == [] {
      r := Panics(EmptyNodeList);
    } else {
      r := Returns(v[0]);
    }
    if nodes != [] {
      GreedyTreeShape(nodes);
    }
  }
}
