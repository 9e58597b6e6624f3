# Huffman coder: a Dafny model

This project models the Huffman coder in `src/main.rs` and proves what it
promises. The coder:

1. counts the characters of a string (`count_chars`);
2. turns every distinct character into a leaf, sorted by descending count and
   then by ascending code point (`initialize_nodes`);
3. repeatedly pops the two last nodes, merges them and re-sorts stably by
   descending count until one node is left (`construct_tree`);
4. walks the tree with an explicit stack to give every leaf its path as a
   code, with `false` for left and `true` for right (`calculate_encodings`);
5. encodes a string as the concatenation of its characters' codes
   (`huffman_encode`);
6. decodes bits by walking down from the root and starting over at the root
   after every leaf (`huffman_decode`).

Modules, one per stage:

- `Outcomes` (`outcome.dfy`): a call returns a value or panics. The program
  has no error type. Each of its four panics is a `Panic` value:
  - `unwrap` on an empty vector;
  - `expect` on a missing character;
  - `unreachable!` when stepping down from a leaf;
  - `assert!(y == input)` in `main` when the decoded string differs.
- `HuffmanTree` (`tree.dfy`): the `TreeNode` enum as an inductive datatype.
  `TreeNode::count` is the `count` field, which both variants share. The
  module also has the path walk used by the table and decoder proofs.
- `StableSort` (`sorting.dfy`): `Vec::sort_by_key` as a stable insertion sort
  on sequences. It is proved sorted, a permutation and stable. It is also
  proved to be the only sorted result with those properties, so any stable
  sort gives the same answer.
- `Frequencies` (`frequencies.dfy`): `count_chars`.
- `TreeBuilder` (`builder.dfy`): `initialize_nodes` and `construct_tree`.
- `CodeTable` (`codetable.dfy`): `calculate_encodings`.
- `Codec` (`codec.dfy`): `huffman_encode` and `huffman_decode`.
- `Pipeline` (`pipeline.dfy`): `calculate_huffman_tree`,
  `calculate_huffman_table`, and the run of `main`: build, encode, decode, and
  compare the decoded string with the input.

Operations that change local state step by step are methods with loop
invariants: counting, the push loop of `initialize_nodes`, the merge loop, the
stack walk, the encode loop and the decode loop. Each method's `ensures` ties
its result to a specification function, such as `GreedyTree`, `Codes`,
`Encoded` or `Decode`. The lemmas are proved about those functions.

How the code behaves at its edges:

- **Empty input.** `construct_tree` reaches `nodes.pop().unwrap()`
  (src/main.rs:66) on an empty vector and panics. The model returns
  `Panics(EmptyNodeList)`.
- **Missing character.** `huffman_encode` panics in `expect`
  (src/main.rs:128). The model returns `Panics(CharNotInTable(c))`.
- **Truncated stream.** `huffman_decode` (src/main.rs:138-162) silently drops
  the bits left over when the stream ends inside a code.
  `Codec.TruncatedStream` proves this: the decoder returns the characters
  before the cut.
- **One distinct character.** The lone leaf gets the empty code (the FIXME at
  src/main.rs:165). Such an input encodes to no bits, which decode to the
  empty string (`Pipeline.LoneCharacterRun`), so `assert!(y == input)`
  (src/main.rs:184) fails. `Pipeline.CompressAndRestore` returns
  `Panics(RoundTripMismatch)` there.

## Model

| member | source | states |
|---|---|---|
| `HuffmanTree.NewLeaf` | src/main.rs:27-29 | the leaf carries the given character and count, holds just that character and is well-weighted |
| `HuffmanTree.NewInternal` | src/main.rs:31-36 | the node's children are `left` and `right` in that order; its leaves are theirs; its count is the sum of their counts, so it is well-weighted when they are |
| `HuffmanTree.CountIsLeafTotal` | src/main.rs:20-36 | weight invariant: in a tree built by `new_leaf`/`new_internal`, a node's count is the total count of the leaves below it |
| `StableSort.SortIsSorted` | src/main.rs:54 | the result of `sort_by_key` is ordered by its key |
| `StableSort.SortPermutes` | src/main.rs:54 | `sort_by_key` neither loses nor duplicates an element (same multiset) |
| `StableSort.SortIsStable` | src/main.rs:64 | elements with equal keys keep their relative order (stability, which `construct_tree` relies on) |
| `StableSort.SortIsUnique` | src/main.rs:54 | any sequence that is sorted by the key and holds the same elements of each key in the same order equals the result: a stable sort's result is determined |
| `StableSort.SortedWithSameFiltersEqual` | src/main.rs:54 | two sequences sorted by the key that hold the same elements of each key in the same order are equal |
| `StableSort.SortKeepsKeysDistinct` | src/main.rs:54 | sorting keeps keys pairwise distinct |
| `Frequencies.CountChars` | src/main.rs:41-47 | the map holds exactly the characters of the string, each with its exact number of occurrences, which is at least 1 |
| `Frequencies.CountsSumToLength` | src/main.rs:41-47 | the counts of the frequency map add up to the number of characters of the string |
| `Frequencies.FrequencyMapDropLast` | src/main.rs:41-47 | the frequency map of a string, with its last character counted once less, is the frequency map of the rest of the string |
| `Frequencies.TotalRemove` | src/main.rs:41-47 | the total of the counts does not depend on the order in which the map is read |
| `TreeBuilder.EntryKeyOrder` | src/main.rs:54 | the single integer key orders entries exactly as `(Reverse(count), char as u64)` does lexicographically, and two entries share a key only when they are equal |
| `TreeBuilder.InitializeNodes` | src/main.rs:49-58 | whatever the map's iteration order: one leaf per map entry with that entry's character and count, strictly ordered by larger count first and then smaller code point |
| `TreeBuilder.ToLeaves` | src/main.rs:55-57 | every entry becomes a leaf in the same position |
| `TreeBuilder.SortedEntriesMakeLeafList` | src/main.rs:54-57 | the entries of a map, each once and in any order, give the leaf list once sorted by the key and mapped to leaves |
| `TreeBuilder.DistinctCharsDistinctKeys` | src/main.rs:51-54 | map entries, which have distinct characters, have distinct sort keys, so the sort has no ties to break |
| `TreeBuilder.SortedEntriesOrdered` | src/main.rs:54-57 | entries sorted by the key with no key twice become leaves strictly ordered by larger count first and then smaller code point |
| `TreeBuilder.LeafListIsUnique` | src/main.rs:49-58 | there is exactly one list that `initialize_nodes` can return for a map, so the HashMap iteration order does not matter |
| `TreeBuilder.OrderedListsEqual` | src/main.rs:54 | two lists strictly ordered by (count, code point) with the same elements are equal |
| `TreeBuilder.FirstIsLeast` | src/main.rs:54 | in the strictly ordered leaf list the head precedes every other element |
| `TreeBuilder.DescendingIsSorted` | src/main.rs:64 | sorted by the key `Reverse(count)` means counts never increase from left to right |
| `TreeBuilder.GreedyTree` | src/main.rs:60-66 | the merge loop panics, in the final `unwrap`, exactly on an empty node list |
| `TreeBuilder.MergeStepSorts` | src/main.rs:61-65 | one iteration shrinks the list by one and leaves it sorted by descending count |
| `TreeBuilder.MergeStepPlacement` | src/main.rs:62-64 | on a list sorted by descending count the two popped nodes have the smallest counts; the merged node has the first-popped node as its left child; it lands after every node of equal or larger count and before every node of smaller count, with the others keeping their order |
| `TreeBuilder.InsertIntoDescending` | src/main.rs:63-64 | pushing a node onto a list sorted by descending count and re-sorting stably puts it after every node of equal or larger count and before every node of smaller count, the others keeping their order |
| `TreeBuilder.PushKeepsTotals` | src/main.rs:62-63 | popping two nodes and pushing their merge keeps the total count and the leaves of the list |
| `TreeBuilder.MergedKeepsTotals` | src/main.rs:62-64 | one iteration keeps the total count and the leaves of the list |
| `TreeBuilder.MergedKeepsWeights` | src/main.rs:62-64 | one iteration keeps every node well-weighted |
| `TreeBuilder.SortKeepsTotals` | src/main.rs:64 | re-sorting keeps the total count and the leaves of the list |
| `TreeBuilder.GreedyTreeShape` | src/main.rs:60-66 | on a non-empty list the loop returns one node: it carries the list's total count and all of its leaves; it is well-weighted when the list was; it is the only node for a one-node list and an internal node otherwise |
| `TreeBuilder.ConstructTree` | src/main.rs:60-70 | the loop computes the greedy tree; it panics exactly on an empty list; otherwise the root's count is the sum of the counts, its leaves are those of the list, and it is well-weighted |
| `CodeTable.CalculateEncodings` | src/main.rs:72-98 | the stack walk (pop, record a leaf's path, push the right child with `true` and then the left child with `false`) builds exactly the table `Codes` of the tree |
| `CodeTable.ShiftInternal` | src/main.rs:86-92 | extending a path by one step and then by a child's codes is the same as extending it by the parent's codes |
| `CodeTable.PendingPop` | src/main.rs:76-77 | popping the top of the stack leaves the final table unchanged, once the popped subtree's codes behind its path are added |
| `CodeTable.PendingLeaf` | src/main.rs:79-81 | popping a leaf and recording its path as its character's code leaves the final table unchanged |
| `CodeTable.PendingInternal` | src/main.rs:82-93 | popping an internal node and pushing its right child with `true` and then its left child with `false` leaves the final table unchanged |
| `CodeTable.StackSizeShrinks` | src/main.rs:82-93 | replacing an internal node on the stack by its two children leaves fewer nodes to visit, so the walk ends |
| `CodeTable.CodesCoverLeaves` | src/main.rs:72-98 | a character has a code if and only if it sits at a leaf of the tree |
| `CodeTable.CodeReachesLeaf` | src/main.rs:76-93 | every code is a path (`false` = left, `true` = right) from the root to a leaf holding that character |
| `CodeTable.LeafPathsPrefixFree` | src/main.rs:76-93 | a path to a leaf is never a prefix of a path to a leaf holding a different character |
| `CodeTable.CodesArePrefixFree` | src/main.rs:72-98 | no character's code is a prefix of, or equal to, another character's code |
| `CodeTable.EmptyCodeIffLoneLeaf` | src/main.rs:74-81 | a code is empty exactly when the tree is a lone leaf (the case marked FIXME at line 165) |
| `CodeTable.LeafPathIsCode` | src/main.rs:72-98 | when no character sits at two leaves, every leaf's character is in the table and its code is exactly the path to that leaf |
| `Codec.Encoded` | src/main.rs:125-132 | encoding panics if and only if some character of the input has no code, and the panic names such a character; otherwise the length of the bits is the sum of the code lengths |
| `Codec.EncodedAppend` | src/main.rs:127-130 | the encoding of `s + t` is the encoding of `s` followed by that of `t`, and it panics exactly when either does |
| `Codec.HuffmanEncode` | src/main.rs:125-132 | the loop returns the encoding, or the panic, of `Encoded` |
| `Codec.DecodeFrom` | src/main.rs:134-163 | the decode walk panics only by stepping down from a leaf, and never does when root and current node are internal; it emits at most one character per bit |
| `Codec.Decode` | src/main.rs:134-163 | decoding panics exactly when the tree is a lone leaf and there is at least one bit |
| `Codec.HuffmanDecode` | src/main.rs:134-163 | the loop returns what `Decode` specifies |
| `Codec.DecodeCode` | src/main.rs:138-160 | feeding the rest of a code to the decoder emits that code's character and resets it to the root |
| `Codec.DecodeUnfinishedPath` | src/main.rs:138-162 | bits that stop at an internal node emit nothing and raise no error |
| `Codec.CodesLeadToLeaves` | src/main.rs:72-98 | every code of the table of a tree leads from its root to the leaf of its character |
| `Codec.DecodeEncodedWithTail` | src/main.rs:134-163 | with a table whose codes lead to their leaves, decoding an encoding followed by a partial code gives the input back and drops the partial code |
| `Codec.RoundTrip` | src/main.rs:178-184 | with an internal root, decoding the encoding of any string over the tree's characters gives the string back |
| `Codec.CutInsideCode` | src/main.rs:138-162 | with a table whose codes lead to their leaves, cutting the bits inside the last code decodes to the characters before it |
| `Codec.TruncatedStream` | src/main.rs:138-162 | cutting the bits inside the last code loses that character silently: the decoder returns the characters before it |
| `Codec.PathPrefixStopsInside` | src/main.rs:138-160 | a proper prefix of a path to a leaf stops at an internal node |
| `Codec.EncodedSnoc` | src/main.rs:127-130 | encoding one more character appends its code |
| `Codec.LoneLeafEncodesToNothing` | src/main.rs:165 | with the lone-leaf table, a string of that one character encodes to no bits |
| `Pipeline.LeafListDropLast` | src/main.rs:49-58 | dropping the last leaf of the leaf list gives the leaf list of the remaining characters |
| `Pipeline.LeafListSum` | src/main.rs:49-58 | the counts of the leaves of `initialize_nodes` add up to the map's total |
| `Pipeline.LeafListBag` | src/main.rs:49-58 | the leaves of `initialize_nodes` hold each character of the map exactly once |
| `Pipeline.LeafListWeights` | src/main.rs:55-57 | every leaf of `initialize_nodes` is well-weighted |
| `Pipeline.LeafListLength` | src/main.rs:49-58 | the leaf list has two leaves or more exactly when the string has two distinct characters |
| `Pipeline.StringTreeWeights` | src/main.rs:100-104 | the greedy tree of a non-empty string exists, is well-weighted, weighs the number of characters of the string and holds each of its characters at exactly one leaf |
| `Pipeline.StringTreeShape` | src/main.rs:100-104 | the greedy tree of a non-empty string is an internal node exactly when the string has two distinct characters |
| `Pipeline.StringTreeIsDetermined` | src/main.rs:100-104 | a string has one frequency map and that map one leaf list, so the tree does not depend on the map's iteration order |
| `Pipeline.CalculateHuffmanTree` | src/main.rs:100-104 | panics exactly on the empty string; otherwise the tree is well-weighted, its root count is the number of characters of the string, and it holds every character of the string at exactly one leaf; it is a lone leaf exactly when the string repeats one character; it is the greedy tree of the unique leaf list of the string |
| `Pipeline.CalculateHuffmanTable` | src/main.rs:106-111 | panics exactly on the empty string; otherwise the table is `Codes` of the string's unique greedy tree, which the stack walk builds: it has a code for every character of the string and no other, and it is prefix-free |
| `Pipeline.LoneCharacterRun` | src/main.rs:165 | a string of one repeated character gets a lone-leaf tree, encodes to no bits, and those decode to the empty string |
| `Pipeline.CompressAndRestore` | src/main.rs:178-184 | panics exactly on the empty string (in `unwrap`) and on a string of one repeated character (in `assert!(y == input)`); with two distinct characters or more it returns the encoding of the input with the table of its tree, and the decoded string equals the input |

## Left out

- The printing is left out because it is output only: `print_encodings` (src/main.rs:115-121) and the `println!` calls.
- The size and ratio report (src/main.rs:186-191) is left out: it is floating-point arithmetic on sizes, reported and never checked.
- The sample texts in `main` are left out. `CompressAndRestore` takes the input as a parameter instead.
- `Rc<RefCell<_>>` sharing is not modelled. The tree is never mutated after construction, so nodes are plain values. Aliasing is not modelled.
- `BiMap<char, BitVec>` is a `map<char, seq<bool>>`:
  - the lookup by bits is never used;
  - eviction of an existing pair with the same bits is not modelled. It never fires: the walk inserts each leaf's own path, and a path to one leaf is never a prefix of, or equal to, a path to a leaf holding another character (`CodeTable.LeafPathsPrefixFree`).
- `BitVec` is `seq<bool>`. Its memory layout is not modelled.
- In `huffman_decode`, `reverse` followed by `pop` is modelled as one front-to-back pass over the bits.
- A `&str` is modelled as the sequence of its `chars()`. "Length of the string" in this model counts characters, not the bytes `str::len` counts.
- `usize` arithmetic is unbounded here. Every count is at most the number of characters of the input, and a `&str` holds at most `isize::MAX` bytes, so the `+= 1` of `count_chars` and the additions of `new_internal` cannot overflow.
- `HashMap` iteration order is an arbitrary choice in `InitializeNodes`. The leaf list is proved not to depend on it.
- `char as u64` is the code point, so `char` comparison in Dafny is the same order.
- Codec.Encoded: the model records the first character that has no code, but the contract says only that the panic names some character of the input without a code. The panic message of `expect` (src/main.rs:128) is fixed and names no character.
