/** What a call of the Huffman program ends in: it returns a value or it panics.
    The program has no error type of its own; every failure is a panic. */
module Outcomes {

  /** The four places where the program can panic. */
  datatype Panic =
    | EmptyNodeList          // `nodes.pop().unwrap()` after the merge loop of construct_tree
    | CharNotInTable(c: char) // `expect("char should be in the table")` in huffman_encode
    | UnreachableLeaf        // `unreachable!()` when huffman_decode steps down from a leaf
    | RoundTripMismatch      // `assert!(y == input)` in main

  datatype Outcome<T> = Returns(value: T) | Panics(reason: Panic)

  datatype Option<T> = None | Some(value: T)

  /** Puts `prefix` in front of a returned sequence; a panic stays a panic. */
  function Prepend<T>(prefix: seq<T>, o: Outcome<seq<T>>): (r: Outcome<seq<T>>)
    ensures r.Returns? <==> o.Returns?
    ensures r.Returns? ==> r.value == prefix + o.value
    ensures r.Panics? ==> r == o
  {
    match o
    case Returns(rest) => Returns(prefix + rest)
    case Panics(p) => Panics(p)
  }

  lemma {:induction false} PrependNothing<T>(o: Outcome<seq<T>>)
    ensures Prepend([], o) == o
  {
    if o.Returns? {
      assert [] + o.value == o.value;
    }
  }

  lemma {:induction false} PrependTwice<T>(a: seq<T>, b: seq<T>, o: Outcome<seq<T>>)
    ensures Prepend(a, Prepend(b, o)) == Prepend(a + b, o)
  {
    if o.Returns? {
      assert a + (b + o.value) == (a + b) + o.value;
    }
  }
}
