/** The stages put together: `calculate_huffman_tree`,
    `calculate_huffman_table`, and the compress-and-restore run of `main` in
    src/main.rs. */
module Pipeline {
  import opened Outcomes
  import opened HuffmanTree
  import opened StableSort
  import opened Frequencies
  import opened TreeBuilder
  import opened CodeTable
  import opened Codec

  /** The leaves before the last one are leaves of the other characters. */
  lemma {:induction false} InitLeavesOfRest(counts: map<char, nat>, nodes: seq<Node>,
                                            rest: map<char, nat>, init: seq<Node>)
    requires IsLeafList(counts, nodes) && nodes != []
    requires init == nodes[..|nodes| - 1] && rest == counts - {nodes[|nodes| - 1].ch}
    ensures forall i :: 0 <= i < |init| ==>
      init[i].Leaf? && init[i].ch in rest && init[i].count == rest[init[i].ch]
  {
    var n := |nodes|;
    forall i | 0 <= i < n - 1
      ensures init[i] == nodes[i] && nodes[i].ch != nodes[n - 1].ch
    {
      assert Precedes(nodes[i], nodes[n - 1]);
    }
  }

  /** Every other character has its leaf before the last one. */
  lemma {:induction false} RestLeavesInInit(counts: map<char, nat>, nodes: seq<Node>,
                                            rest: map<char, nat>, init: seq<Node>)
    requires IsLeafList(counts, nodes) && nodes != []
    requires init == nodes[..|nodes| - 1] && rest == counts - {nodes[|nodes| - 1].ch}
    ensures forall c :: c in rest ==> Leaf(c, rest[c]) in init
  {
    var n := |nodes|;
    forall c | c in rest
      ensures Leaf(c, rest[c]) in init
    {
      var k :| 0 <= k < n && nodes[k] == Leaf(c, counts[c]);
      assert init[k] == nodes[k];
    }
  }

  /** The leaves before the last one keep their order. */
  lemma {:induction false} InitOrdered(nodes: seq<Node>, init: seq<Node>)
    requires nodes != [] && forall i, j :: 0 <= i < j < |nodes| ==> Precedes(nodes[i], nodes[j])
    requires init == nodes[..|nodes| - 1]
    ensures forall i, j :: 0 <= i < j < |init| ==> Precedes(init[i], init[j])
  {
    forall i, j | 0 <= i < j < |init|
      ensures Precedes(init[i], init[j])
    {
      assert init[i] == nodes[i] && init[j] == nodes[j];
    }
  }

  /** Removing a key makes a map one entry smaller. */
  lemma {:induction false} RemoveShrinks(counts: map<char, nat>, c: char)
    requires c in counts
    ensures |counts - {c}| == |counts| - 1
  {
    assert (counts - {c}).Keys == counts.Keys - {c};
  }

  /** The leaf list without its last leaf is the leaf list of the other
      characters. */
  lemma {:induction false} LeafListDropLast(counts: map<char, nat>, nodes: seq<Node>)
    requires IsLeafList(counts, nodes) && nodes != []
    ensures nodes[|nodes| - 1].ch in counts
    ensures IsLeafList(counts - {nodes[|nodes| - 1].ch}, nodes[..|nodes| - 1])
  {
    var init, rest := nodes[..|nodes| - 1], counts - {nodes[|nodes| - 1].ch};
    RemoveShrinks(counts, nodes[|nodes| - 1].ch);
    InitLeavesOfRest(counts, nodes, rest, init);
    RestLeavesInInit(counts, nodes, rest, init);
    InitOrdered(nodes, init);
  }

  /** The leaves of `initialize_nodes` carry the counts of the map. */
  lemma {:induction false} LeafListSum(counts: map<char, nat>, nodes: seq<Node>)
    requires IsLeafList(counts, nodes)
    ensures SumCounts(nodes) == Total(counts)
    decreases |nodes|
  {
    if nodes == [] {
      assert counts.Keys == {};
      assert counts == map[];
    } else {
      var last := nodes[|nodes| - 1];
      LeafListDropLast(counts, nodes);
      LeafListSum(counts - {last.ch}, nodes[..|nodes| - 1]);
      TotalRemove(counts, last.ch);
    }
  }

  /** The leaves of `initialize_nodes` hold each character of the map exactly
      once. */
  lemma {:induction false} LeafListBag(counts: map<char, nat>, nodes: seq<Node>)
    requires IsLeafList(counts, nodes)
    ensures forall c :: ForestBag(nodes)[c] == if c in counts then 1 else 0
    decreases |nodes|
  {
    if nodes == [] {
      assert counts.Keys == {};
    } else {
      var last := nodes[|nodes| - 1];
      var init := nodes[..|nodes| - 1];
      LeafListDropLast(counts, nodes);
      LeafListBag(counts - {last.ch}, init);
      assert ForestBag(nodes) == ForestBag(init) + multiset{last.ch};
    }
  }

  /** The leaves are trivially well-weighted. */
  lemma {:induction false} LeafListWeights(counts: map<char, nat>, nodes: seq<Node>)
    requires IsLeafList(counts, nodes)
    ensures forall x :: x in nodes ==> WellWeighted(x)
  {
    forall x | x in nodes
      ensures WellWeighted(x)
    {
      var k :| 0 <= k < |nodes| && nodes[k] == x;
      assert nodes[k].Leaf?;
    }
  }

  /** A string has at least two distinct characters exactly when its leaf
      list has at least two leaves. */
  lemma {:induction false} LeafListLength(s: string, counts: map<char, nat>, nodes: seq<Node>)
    requires s != [] && (forall c :: c in counts <==> c in s) && IsLeafList(counts, nodes)
    ensures |nodes| >= 1
    ensures |nodes| >= 2 <==> exists i :: 0 <= i < |s| && s[i] != s[0]
  {
    assert s[0] in counts;
    assert Leaf(s[0], counts[s[0]]) in nodes;
    if |nodes| >= 2 {
      var other := if nodes[0].ch != s[0] then nodes[0].ch else nodes[1].ch;
      assert Precedes(nodes[0], nodes[1]);
      assert other in s && other != s[0];
      var i :| 0 <= i < |s| && s[i] == other;
    }
    if exists i :: 0 <= i < |s| && s[i] != s[0] {
      var i :| 0 <= i < |s| && s[i] != s[0];
      assert s[i] in counts;
      assert Leaf(s[i], counts[s[i]]) in nodes;
    }
  }

  /** The greedy tree of the leaf list of a non-empty string weighs the
      whole string and holds each of its characters at exactly one leaf. */
  lemma {:induction false} StringTreeWeights(s: string, counts: map<char, nat>, nodes: seq<Node>)
    requires IsFrequencyMap(counts, s) && IsLeafList(counts, nodes) && s != []
    ensures GreedyTree(nodes).Returns?
    ensures WellWeighted(GreedyTree(nodes).value) && GreedyTree(nodes).value.count == |s|
    ensures forall c :: LeafBag(GreedyTree(nodes).value)[c] == if c in s then 1 else 0
  {
    assert s[0] in counts;
    LeafListSum(counts, nodes);
    LeafListBag(counts, nodes);
    LeafListWeights(counts, nodes);
    CountsSumToLength(counts, s);
    GreedyTreeShape(nodes);
  }

  /** The greedy tree of the leaf list of a non-empty string is a lone leaf
      exactly when the string repeats one character. */
  lemma {:induction false} StringTreeShape(s: string, counts: map<char, nat>, nodes: seq<Node>)
    requires IsFrequencyMap(counts, s) && IsLeafList(counts, nodes) && s != []
    ensures GreedyTree(nodes).Returns?
    ensures GreedyTree(nodes).value.Internal? <==> exists i :: 0 <= i < |s| && s[i] != s[0]
  {
    LeafListLength(s, counts, nodes);
    GreedyTreeShape(nodes);
    if |nodes| == 1 {
      assert nodes[0].Leaf?;
    }
  }

  /** A string has one frequency map and that map one leaf list. */
  lemma {:induction false} StringTreeIsDetermined(s: string, counts: map<char, nat>, nodes: seq<Node>)
    requires IsFrequencyMap(counts, s) && IsLeafList(counts, nodes)
    ensures forall counts', nodes' :: IsFrequencyMap(counts', s) && IsLeafList(counts', nodes') ==>
      nodes' == nodes
  {
    forall counts', nodes' | IsFrequencyMap(counts', s) && IsLeafList(counts', nodes')
      ensures nodes' == nodes
    {
      assert counts' == counts;
      LeafListIsUnique(counts, nodes, nodes');
    }
  }

  /** `calculate_huffman_tree`: count, make the leaves, merge. The empty
      string panics; otherwise the tree weighs the whole string, holds every
      character of it at exactly one leaf, and is a lone leaf exactly when the
      string repeats one character. */
  method CalculateHuffmanTree(s: string) returns (r: Outcome<Node>)
    ensures r.Panics? <==> s == []
    ensures r.Panics? ==> r.reason == EmptyNodeList
    ensures r.Returns? ==> WellWeighted(r.value) && r.value.count == |s|
    ensures r.Returns? ==> forall c :: c in LeafBag(r.value) <==> c in s
    ensures r.Returns? ==> UniqueLeaves(r.value)
    ensures r.Returns? ==> (r.value.Internal? <==> exists i :: 0 <= i < |s| && s[i] != s[0])
    // The result does not depend on the map's iteration order: it is the
    // greedy tree of the one leaf list of the one frequency map of `s`.
    ensures forall counts, nodes :: IsFrequencyMap(counts, s) && IsLeafList(counts, nodes) ==>
      r == GreedyTree(nodes)
  {
    var counts := CountChars(s);
    var nodes := InitializeNodes(counts);
    r := ConstructTree(nodes);
    assert IsFrequencyMap(counts, s);
    StringTreeIsDetermined(s, counts, nodes);
    if s == [] {
      assert counts.Keys == {};
    } else {
      StringTreeWeights(s, counts, nodes);
      StringTreeShape(s, counts, nodes);
    }
  }

  /** `calculate_huffman_table`: the table of the tree of `s`. It holds a code
      for every character of `s` and no other, and no code is a prefix of
      another character's code. */
  method CalculateHuffmanTable(s: string) returns (r: Outcome<map<char, seq<bool>>>)
    ensures r.Panics? <==> s == []
    ensures r.Panics? ==> r.reason == EmptyNodeList
    ensures r.Returns? ==> forall c :: c in r.value <==> c in s
    ensures r.Returns? ==> forall c, d :: c in r.value && d in r.value && c != d ==>
      !IsPrefix(r.value[c], r.value[d])
    // The table is the one `calculate_encodings` builds for the tree of `s`.
    ensures forall counts, nodes :: IsFrequencyMap(counts, s) && IsLeafList(counts, nodes) ==>
      GreedyTree(nodes).Returns? ==> r == Returns(Codes(GreedyTree(nodes).value))
  {
    var tree := CalculateHuffmanTree(s);
    if tree.Panics? {
      return Panics(tree.reason);
    }
    var table := CalculateEncodings(tree.value);
    r := Returns(table);
    forall c
      ensures c in table <==> c in s
    {
      CodesCoverLeaves(tree.value, c);
    }
    forall c, d | c in table && d in table && c != d
      ensures !IsPrefix(table[c], table[d])
    {
      CodesArePrefixFree(tree.value, c, d);
    }
  }

  /** A string that repeats one character gets a lone-leaf tree, which gives
      that character the empty code: the string encodes to no bits, and those
      decode to the empty string (the case marked FIXME in the source). */
  lemma {:induction false} LoneCharacterRun(s: string, counts: map<char, nat>, nodes: seq<Node>)
    requires IsFrequencyMap(counts, s) && IsLeafList(counts, nodes)
    requires s != [] && forall i :: 0 <= i < |s| ==> s[i] == s[0]
    ensures GreedyTree(nodes) == Returns(Leaf(s[0], |s|))
    ensures Encoded(s, Codes(Leaf(s[0], |s|))) == Returns([])
    ensures Decode([], Leaf(s[0], |s|)) == Returns([])
  {
    StringTreeWeights(s, counts, nodes);
    StringTreeShape(s, counts, nodes);
    var t := GreedyTree(nodes).value;
    assert LeafBag(t)[s[0]] == 1;
    LoneLeafEncodesToNothing(s, s[0]);
  }

  /** The run of `main`: build the tree of the input, its table, encode the
      input, decode the bits with the tree and compare the result with the
      input. Returns the bits and the decoded string. */
  method CompressAndRestore(s: string) returns (r: Outcome<(seq<bool>, string)>)
    ensures r.Panics? <==> !exists i :: 0 <= i < |s| && s[i] != s[0]
    ensures s == [] ==> r == Panics(EmptyNodeList)
    // With two distinct characters or more, `assert!(y == input)` holds and
    // the bits are the encoding of the input with the table of its tree.
    ensures (exists i :: 0 <= i < |s| && s[i] != s[0]) ==> r.Returns? && r.value.1 == s
    ensures forall counts, nodes :: IsFrequencyMap(counts, s) && IsLeafList(counts, nodes) ==>
      r.Returns? ==> GreedyTree(nodes).Returns? && Encoded(s, Codes(GreedyTree(nodes).value)) == Returns(r.value.0)
    // A string of one repeated character is encoded as no bits at all, which
    // decode to the empty string, so `assert!(y == input)` fails (the case
    // marked FIXME in the source).
    ensures s != [] && (forall i :: 0 <= i < |s| ==> s[i] == s[0]) ==> r == Panics(RoundTripMismatch)
  {
    var tree := CalculateHuffmanTree(s);
    if tree.Panics? {
      return Panics(tree.reason);
    }
    var table := CalculateEncodings(tree.value);
    forall i | 0 <= i < |s|
      ensures s[i] in table
    {
      CodesCoverLeaves(tree.value, s[i]);
    }
    var bits := HuffmanEncode(s, table);
    assert bits.Returns?;
    if tree.value.Leaf? {
      assert forall i :: 0 <= i < |s| ==> s[i] == tree.value.ch;
      LoneLeafEncodesToNothing(s, tree.value.ch);
    }
    var decoded := HuffmanDecode(bits.value, tree.value);
    assert decoded.Returns?;
    if tree.value.Internal? {
      RoundTrip(tree.value, s);
    }
    if decoded.value != s {
      return Panics(RoundTripMismatch);
    }
    r := Returns((bits.value, decoded.value));
  }
}
