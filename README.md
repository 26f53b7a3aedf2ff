# Huffman coding tree, modelled in Dafny

This project models `HuffmanTree.py`: a Huffman coding tree built from a text,
and the encoder and decoder that work against it.

- **Nodes** (`nodes.dfy`, module `Nodes`). A `Node` is a datatype. A leaf holds a
  character string and a frequency. An internal node also holds its left and
  right children. `Node.__init__` is the `Leaf` constructor: `frequency` is a
  `nat`, which covers its `frequency >= 0` assertion.
  - `Node.fromNodes` is `FromNodes`.
  - `Node.__lt__` is `Less`.
  - `Node.__contains__` is `Contains`.
  - `WellFormed` is the shape of every node the tree builder creates. The
    leaves built at line 61 hold exactly one character each. A parent built by
    `fromNodes` holds its children's characters, left then right, and the sum
    of their frequencies. `fromNodes` does not check its children: the parent
    is well-formed exactly when both children are.
- **Frequency table** (`frequencies.dfy`, module `Frequencies`). The counting
  loop of `constructTree` is the method `CountFrequencies`. Python's dict
  remembers key insertion order, and the builder depends on it to break ties.
  So the table is a `map` of counts plus the sequence of its keys in insertion
  order. That order is `Distinct(text)`, the characters in order of first
  occurrence.
- **Stable sort** (`stable_sort.dfy`, module `StableSorting`). Python's
  `sorted` on nodes compares only by frequency (`__lt__`) and is stable. It is
  modelled as `StableSort`, an insertion sort. The lemmas prove:
  - it sorts;
  - it is a permutation;
  - it is stable;
  - it leaves sorted input alone;
  - re-sorting a sorted list with one node appended puts that node behind every
    node of equal or lower frequency.
- **Construction** (`construction.dfy`, module `Construction`).
  - The merge loop of `constructTree` is specified by `MergeStep`, `Merge` and
    `BuildTree`.
  - `BuildTree` returns `None` where the source fails, on an empty text.
  - `WorklistInv` is the loop invariant: the worklist is sorted, its nodes are
    well-formed with exact leaf counts, their frequencies sum to the text's
    length and their characters are the text's distinct characters.
- **Codec** (`codec.dfy`, module `Codec`). These are the specification functions
  for the three query methods:
  - `Codeword` specifies `getCharEncoding`;
  - `Encoded` and `Flatten` specify `getEncoded`;
  - `DecodeFrom` and `Decoded` specify `getDecoded`.

  The lemmas prove that the code is prefix-free and round-trips. They also prove
  how decoding behaves on malformed and truncated input.
- **The class** (`huffman_tree.dfy`, module `Huffman`). `HuffmanTree` is a class
  with the `text` it was built from and a mutable `root`. Each of its methods is
  imperative code like the source's loops, proved equal to the specification
  functions above. The constructor and `ConstructTree` establish
  `BuildTree(text) == Some(root)` and `Valid()`. `Valid()` says that the root
  is a well-formed tree with no repeated character, that its leaves hold their
  characters' exact counts in `text`, and that its frequency is the length of
  `text`. The query methods require only `Valid()`.
- **Worked example** (`scenario.dfy`, module `Scenario`). The text `xxyyyzz` is
  built for any three distinct characters, which shows the tie-breaking:
  - x and z, which tie at 2, merge first, x on the left;
  - the root has y's leaf on the left and the x-z parent on the right;
  - the codes are y = 0, x = 10 and z = 11.

Where the code raises no error, neither does the model. A bit value other than
0 or 1 and a truncated trailing codeword are not errors: decoding silently
stops at the first non-bit and drops an incomplete trailing path, and the
lemmas state exactly that. A text with a single distinct character gives a
single-leaf tree whose codes are empty, so the bits of any text over it decode
to nothing (`Huffman.SingleSymbolText`). Where the code fails, the model says
so. The empty text has no tree (`Construction.BuildTree` gives `None`). An
unknown character makes `getCharEncoding` loop forever, or raise when the root
is a leaf, so the codeword operations require the character to be in the tree.

## Model

| member | source | states |
|---|---|---|
| Nodes.FromNodes | HuffmanTree.py:14-24 | the parent has exactly the two given nodes as left and right child; its characters are the left child's followed by the right child's and its frequency is the sum of theirs; it is well-formed iff both children are; its characters are the children's together and a character is in it iff it is in one of the children |
| Nodes.LessOrder | HuffmanTree.py:32-33 | `__lt__` is irreflexive and transitive, and two nodes tie, neither less than the other, exactly when their frequencies are equal |
| Nodes.ContainsBelow | HuffmanTree.py:35-36 | on a well-formed node, a leaf contains exactly its own character and an internal node contains a character iff one of its children does |
| Nodes.SubtreeSnoc | HuffmanTree.py:86-91 | appending 0 (1) to a path that reaches an internal node reaches that node's left (right) child |
| Nodes.CharSetSize | HuffmanTree.py:84 | a well-formed node holds at least one character, and it holds exactly one iff it is a leaf, so the `len(charSet) == 1` test recognises leaves |
| Nodes.SubtreeWithin | HuffmanTree.py:86-91 | every node reached by descending from a well-formed node is well-formed and holds only characters of the node it was reached from |
| Frequencies.Distinct | HuffmanTree.py:58-60 | the keys of the table in insertion order hold exactly the characters of the text |
| Frequencies.DistinctNoDup | HuffmanTree.py:58-60 | no key is listed twice |
| Frequencies.CountsSumToLength | HuffmanTree.py:58-60 | the counts of the distinct characters sum to the length of the text |
| Frequencies.CountFrequencies | HuffmanTree.py:58-60 | the counting loop returns the keys in first-occurrence order and a table whose keys are exactly the text's characters, each mapped to its exact, positive number of occurrences |
| Construction.LeafNodesTotals | HuffmanTree.py:61 | the leaves built from the table keys have frequencies summing to the keys' total count, and their characters are the keys in order |
| Construction.LeavesTotals | HuffmanTree.py:61 | any list that holds, key by key, that key's one-character leaf with its count has frequencies summing to the keys' total count and characters equal to the keys in order |
| Construction.InitialWorklist | HuffmanTree.py:58-61 | the worklist the loop starts from has one node per distinct character, so it is empty exactly when the text is |
| StableSorting.Insert | HuffmanTree.py:61 | inserting a node into the list adds exactly that node |
| StableSorting.InsertKeepsSorted | HuffmanTree.py:61 | inserting into a list sorted by frequency keeps it sorted |
| StableSorting.StableSort | HuffmanTree.py:61 | `sorted` (here and at line 68) returns a permutation of its input: the same length and the same nodes with the same multiplicities |
| StableSorting.StableSortSorts | HuffmanTree.py:61 | the result of `sorted` (here and at line 68) is ascending by frequency |
| StableSorting.StableSortIsStable | HuffmanTree.py:61 | for every frequency, the nodes of that frequency appear in the same relative order after sorting as before |
| StableSorting.StableSortOfSorted | HuffmanTree.py:68 | sorting a list that is already sorted leaves it unchanged |
| StableSorting.ResortAfterAppend | HuffmanTree.py:65-68 | re-sorting a sorted list with a node appended places the node behind every node of frequency at most its own and in front of every node of greater frequency; the others keep their order |
| Construction.MergeStep | HuffmanTree.py:64-68 | one loop turn shortens the worklist by exactly one |
| Construction.Merge | HuffmanTree.py:63-68 | the loop ends with no node for an empty worklist and with exactly one node otherwise |
| Construction.InitialWorklistInv | HuffmanTree.py:58-61 | the initial worklist has one leaf per distinct character and satisfies the loop invariant: sorted, well-formed nodes with exact leaf counts, frequencies summing to the text length, characters equal to the distinct characters |
| Construction.MergeStepInv | HuffmanTree.py:63-68 | a loop turn preserves the invariant; the two merged nodes have the lowest frequencies of the worklist; the parent is placed behind every node of frequency at most its own and the others keep their order |
| Construction.MergeInv | HuffmanTree.py:63-68 | running the loop to its end preserves the invariant |
| Construction.BuildTree | HuffmanTree.py:57-70 | there is no root (the source's `nodes[0]` fails) exactly when the text is empty |
| Construction.BuildTreeRoot | HuffmanTree.py:57-70 | for a non-empty text the root is well-formed, its frequency is the length of the text, its characters are the text's distinct characters each exactly once, and every leaf holds its character's exact count |
| Construction.BuildTreeSingleSymbol | HuffmanTree.py:61-70 | the root is a leaf iff the text has one distinct character, and it is then that character's leaf with the length of the text as frequency |
| Construction.SubtreeCounted | HuffmanTree.py:57-70 | every node below the root has leaves with exact counts |
| Codec.Codeword | HuffmanTree.py:78-91 | the codeword of a character is a list of 0s and 1s, and following it from the root ends at a leaf that holds that character alone |
| Codec.CodewordUnique | HuffmanTree.py:78-91 | in a tree with no repeated character, any path that ends at a node holding only `c` is `c`'s codeword |
| Codec.PrefixFree | HuffmanTree.py:78-91 | no character's codeword is a prefix of another character's codeword |
| Codec.Encoded | HuffmanTree.py:72-76 | `getEncoded` yields exactly one codeword per character of the string |
| Codec.EncodedLeadsToLeaves | HuffmanTree.py:72-91 | the `i`-th codeword yielded leads from the root to the leaf that holds the `i`-th character alone |
| Codec.DecodeFrom | HuffmanTree.py:93-110 | every character the decoder emits is a character of the tree |
| Codec.Decoded | HuffmanTree.py:93-110 | every character emitted from the root is a character of the tree |
| Codec.DecodeCodeword | HuffmanTree.py:98-110 | decoding a codeword emits its character and returns to the root for the bits after it |
| Codec.DecodeEncoded | HuffmanTree.py:72-76 | decoding the concatenated codewords of a string emits the string, then continues from the root on what follows |
| Codec.RoundTrip | HuffmanTree.py:72-110 | for a tree with two leaves or more, decoding the concatenated codewords of any string over its characters gives the string back |
| Codec.PartialCodeword | HuffmanTree.py:98-110 | an incomplete codeword emits nothing |
| Codec.TrailingPartialCodeword | HuffmanTree.py:98-110 | a trailing incomplete codeword after complete ones is silently dropped |
| Codec.StopsAtNonBit | HuffmanTree.py:99-106 | decoding stops at the first value that is neither 0 nor 1; the output is that of the bits before it |
| Codec.DecodedStopsAtNonBit | HuffmanTree.py:99-106 | the same from the root: what the decoder emits for the whole list is what it emits for the bits before the first non-bit |
| Codec.MalformedTail | HuffmanTree.py:99-106 | an encoded string followed by a non-bit and anything else decodes to the string |
| Codec.SingleLeafLosesText | HuffmanTree.py:84-85 | against a single-leaf tree every codeword is empty, so the encoded bits are empty and decode to nothing |
| Huffman.HuffmanTree.constructor | HuffmanTree.py:51-55 | a new tree keeps its text and its root is the tree built from that text (`Valid`) |
| Huffman.HuffmanTree.ConstructTree | HuffmanTree.py:57-70 | the counting loop, the sort and the append-pop-pop-sort loop leave the root equal to `BuildTree(text)`, with the properties `Valid` lists |
| Huffman.HuffmanTree.InitialNodes | HuffmanTree.py:58-61 | the counting loop and the first sort give the worklist `InitialWorklist` defines: one leaf per distinct character, with its count, stably sorted by frequency |
| Huffman.HuffmanTree.MergeNodes | HuffmanTree.py:63-68 | the append, pop, pop, sort loop ends with exactly one node, the one `Merge` defines |
| Huffman.MergeTurn | HuffmanTree.py:64-68 | appending the parent, popping the front twice and sorting is exactly one `MergeStep`, which shortens the list by one and leaves the loop's final result unchanged |
| Huffman.HuffmanTree.GetCharEncoding | HuffmanTree.py:78-91 | the walk from the root returns the character's codeword, which leads to the leaf holding that character with its exact count |
| Huffman.HuffmanTree.GetEncoded | HuffmanTree.py:72-76 | the method yields one codeword per character, in order; when the root is not a leaf their bits decode back to the string |
| Huffman.HuffmanTree.GetDecoded | HuffmanTree.py:93-110 | the decoding loop emits exactly what the decoding state machine `Decoded` defines |
| Huffman.BuiltRoot | HuffmanTree.py:57-70 | a root that construction yields has no repeated character, exact leaf counts, the length of the text as frequency, and exactly the text's characters |
| Huffman.BuiltTreeRoundTrip | HuffmanTree.py:57-110 | for a text with two distinct characters or more, any string over its characters encodes to bits that decode back to the string |
| Huffman.BuiltTreePrefixFree | HuffmanTree.py:57-91 | in a tree built from a text, no character's codeword is a prefix of another's |
| Huffman.SingleSymbolText | HuffmanTree.py:61-70 | a text with one distinct character builds a single leaf whose codeword is empty, so the text encodes to no bits and decodes to nothing |
| Scenario.ExampleDistinct | HuffmanTree.py:58-60 | the table for `xxyyyzz` lists x, y, z in that order |
| Scenario.ExampleLeaves | HuffmanTree.py:58-61 | the leaves for `xxyyyzz` are x:2, y:3, z:2 in table order |
| Scenario.ExampleSort | HuffmanTree.py:61 | sorting those leaves gives x:2, z:2, y:3; the tie keeps x in front of z |
| Scenario.ExampleFirstMerge | HuffmanTree.py:64-68 | the first turn merges x and z into a node of 4 placed behind y:3 |
| Scenario.ExampleSecondMerge | HuffmanTree.py:64-68 | the second turn merges y and the x-z node into the root |
| Scenario.ExampleTree | HuffmanTree.py:57-70 | the tree built from `xxyyyzz` has y's leaf on the left and the x-z node on the right |
| Scenario.ExampleCodewords | HuffmanTree.py:78-91 | in that tree y is coded 0, x is coded 10 and z is coded 11 |
| Scenario.ExampleEncodedBits | HuffmanTree.py:72-76 | `xyz` encodes to the bits 1 0 0 1 1 |
| Scenario.ExampleDecoding | HuffmanTree.py:93-110 | the bits 1 0 0 1 1 decode to `xyz` |

## Left out

- `Node.__add__` (HuffmanTree.py:26-30): the algorithm never calls it, and it only returns a frequency sum.
- `Node.__str__`, `Node.__repr__` and `HuffmanTree.__str__` (HuffmanTree.py:38-47, 112-113): diagnostic text rendering with no behaviour to verify.
- `isinstance` assertions (HuffmanTree.py:5-6, 16-17, 52, 73, 79, 94): the Dafny types enforce them.
- Generator laziness: `getEncoded` and `getDecoded` return their whole output as a finished sequence. Laziness does not change the values yielded.
- `Node()` with no arguments: the placeholder root set before construction is modelled as the empty leaf `Leaf([], 0)`.
- The sort of `(character, count)` pairs: line 61 sorts the pairs by count, then builds the leaves. The model builds the leaves in table order, then sorts them by frequency. Both sorts are stable on the same key, so the result is the same list.
- Huffman.HuffmanTree.constructor: requires a non-empty text. The source raises `IndexError` on an empty one; `Construction.BuildTree` models that failure as `None`.
- Huffman.HuffmanTree.GetCharEncoding: requires the character to be in the tree. The source loops forever or raises on an unknown character.
- Huffman.HuffmanTree.GetEncoded: requires every character of the string to be in the tree, for the same reason.
- Huffman.HuffmanTree.GetDecoded: requires `DecodeDefined`. A single-leaf root with a first bit of 0 or 1 makes the source descend into a missing child and raise.
- Dict insertion order and `sorted` are the model's own definitions (`Distinct`, `StableSort`). Python's implementations are not part of this model, only the documented behaviour they are modelled on.
