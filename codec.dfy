/** Encoding and decoding: `huffman_encode` and `huffman_decode` of
    src/main.rs. A `BitVec` is a sequence of booleans. */
module Codec {
  import opened Outcomes
  import opened HuffmanTree
  import opened CodeTable

  // ---------------------------------------------------------------------------
  // huffman_encode

  /** The total length of the codes of the characters of `s` that have one. */
  function CodeLengths(s: string, table: map<char, seq<bool>>): nat
    decreases |s|
  {
    if s == [] then 0
    else (if s[0] in table then |table[s[0]]| else 0) + CodeLengths(s[1..], table)
  }

  /** What `huffman_encode` returns: the codes of the characters of `s`, one
      after the other; a character without a code stops it with a panic. */
  function Encoded(s: string, table: map<char, seq<bool>>): (r: Outcome<seq<bool>>)
    ensures r.Panics? <==> exists i :: 0 <= i < |s| && s[i] !in table
    ensures r.Panics? ==> r.reason.CharNotInTable? && r.reason.c in s && r.reason.c !in table
    ensures r.Returns? ==> |r.value| == CodeLengths(s, table)
    decreases |s|
  {
    if s == [] then Returns([])
    else if s[0] !in table then Panics(CharNotInTable(s[0]))
    else
      var rest := Encoded(s[1..], table);
      assert forall i :: 1 <= i < |s| ==> s[i] == s[1..][i - 1];
      assert rest.Panics? ==> rest.reason.c in s;
      Prepend(table[s[0]], rest)
  }

  /** Encoding is a homomorphism: the encoding of `s + t` is the encoding of
      `s` followed by that of `t`, and it panics when either does. */
  lemma {:induction false} EncodedAppend(s: string, t: string, table: map<char, seq<bool>>)
    ensures Encoded(s + t, table).Returns? <==> Encoded(s, table).Returns? && Encoded(t, table).Returns?
    ensures Encoded(s + t, table).Returns? ==>
      Encoded(s + t, table).value == Encoded(s, table).value + Encoded(t, table).value
    decreases |s|
  {
    if s == [] {
      assert s + t == t;
    } else {
      assert (s + t)[0] == s[0] && (s + t)[1..] == s[1..] + t;
      EncodedAppend(s[1..], t, table);
      if s[0] in table && Encoded(s + t, table).Returns? {
        var code := table[s[0]];
        assert code + (Encoded(s[1..], table).value + Encoded(t, table).value)
            == (code + Encoded(s[1..], table).value) + Encoded(t, table).value;
      }
    }
  }

  /** `huffman_encode`: append the code of every character in turn. */
  method HuffmanEncode(s: string, table: map<char, seq<bool>>) returns (r: Outcome<seq<bool>>)
    ensures r == Encoded(s, table)
  {
    var bits: seq<bool> := [];
    assert s[0..] == s;
    PrependNothing(Encoded(s, table));
    for i := 0 to |s|
      invariant Encoded(s, table) == Prepend(bits, Encoded(s[i..], table))
    {
      assert s[i..][0] == s[i] && s[i..][1..] == s[i + 1..];
      if s[i] !in table {
        return Panics(CharNotInTable(s[i]));
      }
      PrependTwice(bits, table[s[i]], Encoded(s[i + 1..], table));
      bits := bits + table[s[i]];
    }
    assert s[|s|..] == [];
    r := Returns(bits);
    assert bits + [] == bits;
  }

  // ---------------------------------------------------------------------------
  // huffman_decode

  /** What `huffman_decode` returns from the middle of a walk: `node` is where
      the walk down from `root` stands. Every bit moves to a child; reaching a
      leaf emits its character and starts over at the root. Stepping down from
      a leaf panics; bits left over when the input ends are dropped. */
  function DecodeFrom(bits: seq<bool>, root: Node, node: Node): (r: Outcome<string>)
    ensures r.Panics? ==> r.reason == UnreachableLeaf
    ensures root.Internal? && node.Internal? ==> r.Returns?
    ensures r.Returns? ==> |r.value| <= |bits|
    decreases |bits|
  {
    if bits == [] then Returns([])
    else if node.Leaf? then Panics(UnreachableLeaf)
    else
      var next := Child(node, bits[0]);
      if next.Leaf? then Prepend([next.ch], DecodeFrom(bits[1..], root, root))
      else DecodeFrom(bits[1..], root, next)
  }

  /** What `huffman_decode(bits, tree)` returns. */
  function Decode(bits: seq<bool>, tree: Node): (r: Outcome<string>)
    ensures r.Panics? <==> tree.Leaf? && bits != []
    ensures r.Panics? ==> r.reason == UnreachableLeaf
  {
    DecodeFrom(bits, tree, tree)
  }

  /** `huffman_decode`. The source reverses the bit vector and pops from its
      end; that reads the bits front to back, as the index `i` does here. */
  method HuffmanDecode(bits: seq<bool>, tree: Node) returns (r: Outcome<string>)
    ensures r == Decode(bits, tree)
  {
    var result: string := [];
    var node := tree;
    var i := 0;
    assert bits[0..] == bits;
    PrependNothing(Decode(bits, tree));
    while i < |bits|
      invariant 0 <= i <= |bits|
      invariant Decode(bits, tree) == Prepend(result, DecodeFrom(bits[i..], tree, node))
      decreases |bits| - i
    {
      assert bits[i..][0] == bits[i] && bits[i..][1..] == bits[i + 1..];
      var bit := bits[i];
      i := i + 1;
      if node.Leaf? {
        return Panics(UnreachableLeaf);
      }
      node := Child(node, bit);
      if node.Leaf? {
        PrependTwice(result, [node.ch], DecodeFrom(bits[i..], tree, tree));
        result := result + [node.ch];
        node := tree;
      }
    }
    assert bits[i..] == [];
    r := Returns(result);
    assert result + [] == result;
  }

  // ---------------------------------------------------------------------------
  // Decoding what was encoded

  /** The remaining bits of a code lead the decoder, standing at `node`, to
      the code's leaf: it emits that character and starts over at the root. */
  lemma {:induction false} DecodeCode(root: Node, node: Node, code: seq<bool>, c: char, rest: seq<bool>)
    requires node.Internal? && ReachesLeaf(node, code, c)
    ensures DecodeFrom(code + rest, root, node) == Prepend([c], DecodeFrom(rest, root, root))
    decreases |code|
  {
    assert code != [];
    var next := Child(node, code[0]);
    assert Walk(node, code) == Walk(next, code[1..]);
    assert (code + rest)[0] == code[0] && (code + rest)[1..] == code[1..] + rest;
    if next.Leaf? {
      assert code[1..] + rest == rest;
    } else {
      DecodeCode(root, next, code[1..], c, rest);
    }
  }

  /** Bits that stop inside the tree, short of a leaf, decode to nothing. */
  lemma {:induction false} DecodeUnfinishedPath(root: Node, node: Node, tail: seq<bool>)
    requires node.Internal? && Walk(node, tail).Some? && Walk(node, tail).value.Internal?
    ensures DecodeFrom(tail, root, node) == Returns([])
    decreases |tail|
  {
    if tail != [] {
      DecodeUnfinishedPath(root, Child(node, tail[0]), tail[1..]);
    }
  }

  /** Every code of `table` is a path from the root of `tree` to a leaf
      holding its character, as `CodeReachesLeaf` shows of `Codes(tree)`. */
  ghost predicate LeadsToLeaves(tree: Node, table: map<char, seq<bool>>)
  {
    forall c :: c in table ==> ReachesLeaf(tree, table[c], c)
  }

  lemma {:induction false} CodesLeadToLeaves(tree: Node)
    ensures LeadsToLeaves(tree, Codes(tree))
  {
    forall c | c in Codes(tree)
      ensures ReachesLeaf(tree, Codes(tree)[c], c)
    {
      CodeReachesLeaf(tree, c);
    }
  }

  /** Decoding the encoding of `s`, followed by bits that stop short of a
      leaf, gives `s` back: the unfinished bits are silently dropped. */
  lemma {:induction false} DecodeEncodedWithTail(tree: Node, table: map<char, seq<bool>>, s: string, tail: seq<bool>)
    requires tree.Internal? && LeadsToLeaves(tree, table)
    requires forall i :: 0 <= i < |s| ==> s[i] in table
    requires Walk(tree, tail).Some? && Walk(tree, tail).value.Internal?
    ensures Encoded(s, table).Returns?
    ensures Decode(Encoded(s, table).value + tail, tree) == Returns(s)
    decreases |s|
  {
    if s == [] {
      DecodeUnfinishedPath(tree, tree, tail);
      assert [] + tail == tail;
    } else {
      var code := table[s[0]];
      var more := Encoded(s[1..], table);
      DecodeEncodedWithTail(tree, table, s[1..], tail);
      assert Encoded(s, table).value + tail == code + (more.value + tail);
      DecodeCode(tree, tree, code, s[0], more.value + tail);
      assert [s[0]] + s[1..] == s;
    }
  }

  /** The round trip: with a tree whose root is internal, decoding the
      encoding of a string over the tree's characters gives the string. */
  lemma {:induction false} RoundTrip(tree: Node, s: string)
    requires tree.Internal?
    requires forall i :: 0 <= i < |s| ==> s[i] in Codes(tree)
    ensures Encoded(s, Codes(tree)).Returns?
    ensures Decode(Encoded(s, Codes(tree)).value, tree) == Returns(s)
  {
    CodesLeadToLeaves(tree);
    DecodeEncodedWithTail(tree, Codes(tree), s, []);
    assert Encoded(s, Codes(tree)).value + [] == Encoded(s, Codes(tree)).value;
  }

  /** Encoding one more character appends its code. */
  lemma {:induction false} EncodedSnoc(s: string, c: char, table: map<char, seq<bool>>)
    requires Encoded(s, table).Returns? && c in table
    ensures Encoded(s + [c], table).Returns?
    ensures Encoded(s + [c], table).value == Encoded(s, table).value + table[c]
  {
    EncodedAppend(s, [c], table);
    assert [c][1..] == [];
    assert Encoded([c], table).value == table[c] + [];
  }

  /** A proper prefix of a path to a leaf stops at an internal node. */
  lemma {:induction false} PathPrefixStopsInside(tree: Node, code: seq<bool>, c: char, k: nat)
    requires ReachesLeaf(tree, code, c) && k < |code|
    ensures Walk(tree, code[..k]).Some?
    ensures Walk(tree, code[..k]).value.Internal?
  {
    assert code[..k] + code[k..] == code;
    WalkPrefix(tree, code[..k], code[k..]);
    if Walk(tree, code[..k]).value.Leaf? {
      WalkPastLeaf(tree, code[..k], code[k..]);
    }
  }

  lemma {:induction false} CutInsideLast(bits: seq<bool>, code: seq<bool>, k: nat)
    requires k < |code|
    ensures (bits + code)[..|bits| + k] == bits + code[..k]
  {
  }

  /** Cutting the encoding of `s + [c]` inside the code of `c` decodes to `s`. */
  lemma {:induction false} CutInsideCode(tree: Node, table: map<char, seq<bool>>, s: string, c: char, k: nat)
    requires tree.Internal? && LeadsToLeaves(tree, table)
    requires forall i :: 0 <= i < |s| ==> s[i] in table
    requires c in table && k < |table[c]|
    ensures Encoded(s, table).Returns? && Encoded(s + [c], table).Returns?
    ensures |Encoded(s, table).value| + k < |Encoded(s + [c], table).value|
    ensures Decode(Encoded(s + [c], table).value[..|Encoded(s, table).value| + k], tree) == Returns(s)
  {
    var code := table[c];
    PathPrefixStopsInside(tree, code, c, k);
    DecodeEncodedWithTail(tree, table, s, code[..k]);
    var bits := Encoded(s, table).value;
    EncodedSnoc(s, c, table);
    CutInsideLast(bits, code, k);
  }

  /** A stream cut short inside a code loses that character without any
      error: the decoder returns the characters before the cut. */
  lemma {:induction false} TruncatedStream(tree: Node, s: string, c: char, k: nat)
    requires tree.Internal?
    requires forall i :: 0 <= i < |s| ==> s[i] in Codes(tree)
    requires c in Codes(tree) && k < |Codes(tree)[c]|
    ensures Encoded(s, Codes(tree)).Returns? && Encoded(s + [c], Codes(tree)).Returns?
    ensures |Encoded(s, Codes(tree)).value| + k < |Encoded(s + [c], Codes(tree)).value|
    ensures Decode(Encoded(s + [c], Codes(tree)).value[..|Encoded(s, Codes(tree)).value| + k], tree)
         == Returns(s)
  {
    CodesLeadToLeaves(tree);
    CutInsideCode(tree, Codes(tree), s, c, k);
  }

  /** A tree that is one leaf gives its character the empty code, so a
      string of that character alone encodes to no bits, which decode to the
      empty string. */
  lemma {:induction false} LoneLeafEncodesToNothing(s: string, c: char)
    requires forall i :: 0 <= i < |s| ==> s[i] == c
    ensures Encoded(s, map[c := []]) == Returns([])
    decreases |s|
  {
    if s != [] {
      LoneLeafEncodesToNothing(s[1..], c);
    }
  }
}
