/** The code table: `calculate_encodings` of src/main.rs walks the tree with an
    explicit stack and records, for every leaf, the path that reaches it. */
module CodeTable {
  import opened Outcomes
  import opened HuffmanTree

  /** `a` is a prefix of `b`. */
  predicate IsPrefix(a: seq<bool>, b: seq<bool>)
  {
    |a| <= |b| && a == b[..|a|]
  }

  /** Every code of `m` gets `p` in front. */
  function Shift(p: seq<bool>, m: map<char, seq<bool>>): (r: map<char, seq<bool>>)
    ensures r.Keys == m.Keys
    ensures forall c :: c in r ==> r[c] == p + m[c]
  {
    map c | c in m :: p + m[c]
  }

  /** The table `calculate_encodings` builds for a tree: a leaf gets the path
      to it, `false` for every step to a left child and `true` for every step
      to a right child. The leaves are visited left to right and a later
      insertion for the same character replaces an earlier one, so on a
      character held by two leaves the right one wins. */
  function Codes(t: Node): map<char, seq<bool>>
  {
    match t
    case Leaf(c, _) => map[c := []]
    case Internal(l, r, _) => Shift([false], Codes(l)) + Shift([true], Codes(r))
  }

  /** Every character at a leaf, and no other, gets a code. */
  lemma {:induction false} CodesCoverLeaves(t: Node, c: char)
    ensures c in Codes(t) <==> c in LeafBag(t)
  {
    match t
    case Leaf(_, _) =>
    case Internal(l, r, _) =>
      CodesCoverLeaves(l, c);
      CodesCoverLeaves(r, c);
  }

  /** The explicit stack of `calculate_encodings`: pairs of a node and the path
      to it, the top at the end. */
  type Stack = seq<(Node, seq<bool>)>

  /** The table that results from `table` once the stack has been drained:
      every entry of the stack, from the top down, adds its subtree's codes
      behind the entry's path. */
  function Pending(table: map<char, seq<bool>>, stack: Stack): map<char, seq<bool>>
    decreases |stack|
  {
    if stack == [] then table
    else
      var top := stack[|stack| - 1];
      Pending(table + Shift(top.1, Codes(top.0)), stack[..|stack| - 1])
  }

  /** The number of nodes still to be visited. */
  function StackSize(stack: Stack): nat
    decreases |stack|
  {
    if stack == [] then 0 else StackSize(stack[..|stack| - 1]) + Size(stack[|stack| - 1].0)
  }

  lemma {:induction false} ShiftEmpty(m: map<char, seq<bool>>)
    ensures Shift([], m) == m
  {
    assert forall c :: c in m ==> [] + m[c] == m[c];
  }

  lemma {:induction false} ShiftLeaf(p: seq<bool>, c: char)
    ensures Shift(p, map[c := []]) == map[c := p]
  {
    assert p + [] == p;
  }

  /** Shifting the table of an internal node is shifting the tables of its
      children one step further down. */
  lemma {:induction false} ShiftInternal(p: seq<bool>, a: map<char, seq<bool>>, b: map<char, seq<bool>>)
    ensures Shift(p, Shift([false], a) + Shift([true], b))
         == Shift(p + [false], a) + Shift(p + [true], b)
  {
    var lhs := Shift(p, Shift([false], a) + Shift([true], b));
    var rhs := Shift(p + [false], a) + Shift(p + [true], b);
    assert lhs.Keys == rhs.Keys;
    forall c | c in lhs
      ensures lhs[c] == rhs[c]
    {
      if c in b {
        assert p + ([true] + b[c]) == p + [true] + b[c];
      } else {
        assert p + ([false] + a[c]) == p + [false] + a[c];
      }
    }
  }

  /** Popping the top entry adds its subtree's codes behind its path. */
  lemma {:induction false} PendingPop(table: map<char, seq<bool>>, rest: Stack, top: (Node, seq<bool>))
    ensures Pending(table, rest + [top]) == Pending(table + Shift(top.1, Codes(top.0)), rest)
  {
    var stack := rest + [top];
    assert stack[..|stack| - 1] == rest;
  }

  /** Popping a leaf records its path as its character's code. */
  lemma {:induction false} PendingLeaf(table: map<char, seq<bool>>, rest: Stack, c: char, n: nat, path: seq<bool>)
    ensures Pending(table, rest + [(Leaf(c, n), path)]) == Pending(table[c := path], rest)
  {
    PendingPop(table, rest, (Leaf(c, n), path));
    ShiftLeaf(path, c);
    assert table + Shift(path, Codes(Leaf(c, n))) == table[c := path];
  }

  lemma {:induction false} UnionAssociates(a: map<char, seq<bool>>, b: map<char, seq<bool>>, c: map<char, seq<bool>>)
    ensures a + (b + c) == a + b + c
  {
  }

  /** Popping an internal node and pushing its right child and then its left
      child, each with one more step of path, leaves the result unchanged. */
  lemma {:induction false} PendingInternal(table: map<char, seq<bool>>, rest: Stack, l: Node, r: Node, n: nat, path: seq<bool>)
    ensures Pending(table, rest + [(Internal(l, r, n), path)])
         == Pending(table, rest + [(r, path + [true])] + [(l, path + [false])])
  {
    var a, b := Codes(l), Codes(r);
    var sa, sb := Shift(path + [false], a), Shift(path + [true], b);
    PendingPop(table, rest, (Internal(l, r, n), path));
    assert Codes(Internal(l, r, n)) == Shift([false], a) + Shift([true], b);
    ShiftInternal(path, a, b);
    UnionAssociates(table, sa, sb);
    PendingPop(table, rest + [(r, path + [true])], (l, path + [false]));
    PendingPop(table + sa, rest, (r, path + [true]));
  }

  lemma {:induction false} StackSizeShrinks(rest: Stack, l: Node, r: Node, n: nat, path: seq<bool>)
    ensures StackSize(rest + [(r, path + [true])] + [(l, path + [false])])
          < StackSize(rest + [(Internal(l, r, n), path)])
  {
    var before := rest + [(Internal(l, r, n), path)];
    var after := rest + [(r, path + [true])] + [(l, path + [false])];
    assert before[..|before| - 1] == rest;
    assert after[..|after| - 1] == rest + [(r, path + [true])];
    assert after[..|after| - 1][..|rest|] == rest;
  }

  /** `calculate_encodings`. */
  method CalculateEncodings(tree: Node) returns (table: map<char, seq<bool>>)
    ensures table == Codes(tree)
  {
    table := map[];
    var stack: Stack := [(tree, [])];
    ShiftEmpty(Codes(tree));
    assert Pending(table, stack) == Codes(tree) by {
      assert stack[..0] == [];
      assert table + Codes(tree) == Codes(tree);
    }
    while stack != []
      invariant Pending(table, stack) == Codes(tree)
      decreases StackSize(stack)
    {
      ghost var before := stack;
      var (node, path) := stack[|stack| - 1];
      stack := stack[..|stack| - 1];
      assert before == stack + [(node, path)];
      match node
      case Leaf(c, n) =>
        PendingLeaf(table, stack, c, n, path);
        table := table[c := path];
      case Internal(left, right, n) =>
        PendingInternal(table, stack, left, right, n, path);
        StackSizeShrinks(stack, left, right, n, path);
        stack := stack + [(right, path + [true])];
        stack := stack + [(left, path + [false])];
    }
  }

  // ---------------------------------------------------------------------------
  // What the table promises

  /** Every character's code is a path from the root to a leaf holding it. */
  lemma {:induction false} CodeReachesLeaf(t: Node, c: char)
    requires c in Codes(t)
    ensures ReachesLeaf(t, Codes(t)[c], c)
  {
    match t
    case Leaf(_, _) =>
    case Internal(l, r, _) =>
      var code := Codes(t)[c];
      if c in Codes(r) {
        CodeReachesLeaf(r, c);
        assert code[1..] == Codes(r)[c];
      } else {
        CodeReachesLeaf(l, c);
        assert code[1..] == Codes(l)[c];
      }
  }

  /** A path to one leaf is never a prefix of a path to a leaf holding a
      different character. */
  lemma {:induction false} LeafPathsPrefixFree(t: Node, a: seq<bool>, b: seq<bool>, c: char, d: char)
    requires ReachesLeaf(t, a, c) && ReachesLeaf(t, b, d) && c != d
    ensures !IsPrefix(a, b)
  {
    if IsPrefix(a, b) {
      var tail := b[|a|..];
      assert b == a + tail;
      WalkAppend(t, a, tail);
      assert false;  // `b` would end at the leaf of `c`, or step past it
    }
  }

  /** The table is prefix-free: no code is a prefix of another character's
      code, so in particular no two characters share a code. */
  lemma {:induction false} CodesArePrefixFree(t: Node, c: char, d: char)
    requires c in Codes(t) && d in Codes(t) && c != d
    ensures !IsPrefix(Codes(t)[c], Codes(t)[d])
  {
    CodeReachesLeaf(t, c);
    CodeReachesLeaf(t, d);
    LeafPathsPrefixFree(t, Codes(t)[c], Codes(t)[d], c, d);
  }

  /** A tree that is a single leaf gives its character the empty code; in a
      tree with an internal root every code has at least one bit. */
  lemma {:induction false} EmptyCodeIffLoneLeaf(t: Node, c: char)
    requires c in Codes(t)
    ensures Codes(t)[c] == [] <==> t.Leaf?
  {
    CodeReachesLeaf(t, c);
  }

  lemma {:induction false} UniqueChildren(t: Node)
    requires t.Internal? && UniqueLeaves(t)
    ensures UniqueLeaves(t.left) && UniqueLeaves(t.right)
  {
    forall x
      ensures LeafBag(t.left)[x] <= 1 && LeafBag(t.right)[x] <= 1
    {
      assert LeafBag(t)[x] == LeafBag(t.left)[x] + LeafBag(t.right)[x];
    }
  }

  /** With every character at one leaf only, the table holds, for every leaf,
      exactly the path to it. */
  lemma {:induction false} LeafPathIsCode(t: Node, path: seq<bool>)
    requires UniqueLeaves(t)
    requires Walk(t, path).Some? && Walk(t, path).value.Leaf?
    ensures Walk(t, path).value.ch in Codes(t)
    ensures Codes(t)[Walk(t, path).value.ch] == path
    decreases |path|
  {
    var c := Walk(t, path).value.ch;
    if path != [] {
      var l, r := t.left, t.right;
      UniqueChildren(t);
      LeafPathIsCode(Child(t, path[0]), path[1..]);
      assert path == [path[0]] + path[1..];
      if !path[0] {
        CodesCoverLeaves(l, c);
        CodesCoverLeaves(r, c);
        assert LeafBag(t)[c] == LeafBag(l)[c] + LeafBag(r)[c];
        assert c !in Codes(r);
      }
    }
  }
}
