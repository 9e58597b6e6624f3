/** `TreeNode` of src/main.rs. The program builds the tree bottom-up and never
    mutates it afterwards, so the `Rc<RefCell<_>>` nodes are an ordinary
    inductive datatype here: every node owns its children. */
module HuffmanTree {
  import opened Outcomes

  /** A leaf carries a character and its count; an internal node carries its
      two children and a cached count. */
  datatype Node =
    | Leaf(ch: char, count: nat)
    | Internal(left: Node, right: Node, count: nat)

  /** The characters at the leaves, with multiplicity. */
  function LeafBag(t: Node): multiset<char>
  {
    match t
    case Leaf(c, _) => multiset{c}
    case Internal(l, r, _) => LeafBag(l) + LeafBag(r)
  }

  /** The sum of the counts stored at the leaves. */
  function LeafTotal(t: Node): nat
  {
    match t
    case Leaf(_, n) => n
    case Internal(l, r, _) => LeafTotal(l) + LeafTotal(r)
  }

  /** The number of nodes, used to bound explicit traversals. */
  function Size(t: Node): nat
  {
    match t
    case Leaf(_, _) => 1
    case Internal(l, r, _) => 1 + Size(l) + Size(r)
  }

  /** Every internal node's count is the sum of its children's counts. */
  ghost predicate WellWeighted(t: Node)
  {
    match t
    case Leaf(_, _) => true
    case Internal(l, r, n) => n == l.count + r.count && WellWeighted(l) && WellWeighted(r)
  }

  /** No character sits at two leaves. */
  ghost predicate UniqueLeaves(t: Node)
  {
    forall c :: LeafBag(t)[c] <= 1
  }

  /** `TreeNode::new_leaf`. */
  function NewLeaf(c: char, n: nat): (t: Node)
    ensures WellWeighted(t) && LeafBag(t) == multiset{c} && LeafTotal(t) == n
    ensures t.count == n
  {
    Leaf(c, n)
  }

  /** `TreeNode::new_internal`: the count is the sum of the two children's counts. */
  function NewInternal(left: Node, right: Node): (t: Node)
    ensures t.Internal? && t.left == left && t.right == right
    ensures t.count == left.count + right.count
    ensures WellWeighted(left) && WellWeighted(right) ==> WellWeighted(t)
    ensures LeafBag(t) == LeafBag(left) + LeafBag(right)
    ensures Size(t) == Size(left) + Size(right) + 1
  {
    Internal(left, right, left.count + right.count)
  }

  /** The weight invariant: in a well-weighted tree, a node's count is the
      total count of the leaves below it. */
  lemma {:induction false} CountIsLeafTotal(t: Node)
    requires WellWeighted(t)
    ensures t.count == LeafTotal(t)
  {
    match t
    case Leaf(_, _) =>
    case Internal(l, r, _) =>
      CountIsLeafTotal(l);
      CountIsLeafTotal(r);
  }

  /** The child a bit selects: `true` goes right, `false` goes left. */
  function Child(t: Node, bit: bool): Node
    requires t.Internal?
  {
    if bit then t.right else t.left
  }

  /** Follows a root-to-node path; `None` when the path steps past a leaf. */
  function Walk(t: Node, path: seq<bool>): Option<Node>
    decreases |path|
  {
    if path == [] then Some(t)
    else if t.Leaf? then None
    else Walk(Child(t, path[0]), path[1..])
  }

  /** The path leads from `t` to a leaf holding `c`. */
  ghost predicate ReachesLeaf(t: Node, path: seq<bool>, c: char)
  {
    Walk(t, path).Some? && Walk(t, path).value.Leaf? && Walk(t, path).value.ch == c
  }

  /** Walking `a + b` walks `a` and then `b` from where `a` ended. */
  lemma {:induction false} WalkAppend(t: Node, a: seq<bool>, b: seq<bool>)
    requires Walk(t, a).Some?
    ensures Walk(t, a + b) == Walk(Walk(t, a).value, b)
  {
    if a != [] {
      assert (a + b)[0] == a[0] && (a + b)[1..] == a[1..] + b;
      WalkAppend(Child(t, a[0]), a[1..], b);
    } else {
      assert a + b == b;
    }
  }

  /** A path that ends at a leaf cannot be extended. */
  lemma {:induction false} WalkPastLeaf(t: Node, a: seq<bool>, b: seq<bool>)
    requires Walk(t, a).Some? && Walk(t, a).value.Leaf? && b != []
    ensures Walk(t, a + b) == None
  {
    WalkAppend(t, a, b);
  }

  /** Every prefix of a path that can be walked can be walked. */
  lemma {:induction false} WalkPrefix(t: Node, a: seq<bool>, b: seq<bool>)
    requires Walk(t, a + b).Some?
    ensures Walk(t, a).Some?
  {
    if a != [] {
      assert (a + b)[0] == a[0] && (a + b)[1..] == a[1..] + b;
      WalkPrefix(Child(t, a[0]), a[1..], b);
    }
  }
}
