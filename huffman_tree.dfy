/**
 The `HuffmanTree` class of HuffmanTree.py: it keeps the text it was built
 from and the root of the tree, builds the tree once when it is created and
 then answers encoding and decoding queries against it.

 Each method is proved against the specification functions of the
 Construction and Codec modules; the lemmas at the end state the properties
 of a tree built from a text.
 */
module Huffman {
  import opened Wrappers
  import opened Nodes
  import opened StableSorting
  import opened Frequencies
  import opened Construction
  import opened Codec

  class HuffmanTree {
    const text: seq<char>
    var root: Node

    /**
     The properties of the root that the queries rely on: a code tree whose
     leaves hold the counts of `text` and whose frequency is the length of
     `text`.
     */
    ghost predicate Valid()
      reads this
    {
      && CodeTree(root)
      && CountedLeaves(root, text)
      && root.frequency == |text|
    }

    /** `HuffmanTree.__init__`: stores the text and builds the tree from it. */
    constructor (text: seq<char>)
      requires text != []
      ensures this.text == text && BuildTree(text) == Some(root) && Valid()
      ensures forall c :: c in root.charSet <==> c in text
    {
      this.text := text;
      root := Leaf([], 0);
      new;
      ConstructTree();
    }

    /** `HuffmanTree.constructTree`: counts the characters, then merges the worklist down to one root. */
    method ConstructTree()
      requires text != []
      modifies this
      ensures BuildTree(text) == Some(root) && Valid()
      ensures forall c :: c in root.charSet <==> c in text
    {
      var nodes := InitialNodes(text);
      nodes := MergeNodes(nodes);
      root := nodes[0];
      assert BuildTree(text) == Some(root);
      BuiltRoot(text, root);
    }

    /**
     The merge loop of `constructTree`: while more than one node is left,
     merge the first two, append their parent, pop the two from the front and
     re-sort the list.
     */
    static method MergeNodes(initial: seq<Node>) returns (nodes: seq<Node>)
      requires initial != []
      ensures nodes == Merge(initial) && |nodes| == 1
    {
      ghost var result := Merge(initial);
      nodes := initial;
      while |nodes| > 1
        invariant 1 <= |nodes|
        invariant Merge(nodes) == result
        decreases |nodes|
      {
        ghost var before := nodes;
        var combinedNode := FromNodes(nodes[0], nodes[1]);
        MergeTurn(before, combinedNode);
        nodes := nodes + [combinedNode];
        nodes := nodes[1..];
        nodes := nodes[1..];
        nodes := StableSort(nodes);
      }
    }

    /**
     The start of `constructTree`: one leaf per entry of the frequency table,
     in table order, sorted by frequency.
     */
    static method InitialNodes(text: seq<char>) returns (nodes: seq<Node>)
      ensures nodes == InitialWorklist(text)
    {
      var order, freq := CountFrequencies(text);
      var leaves := seq(|order|, i requires 0 <= i < |order| => Leaf([order[i]], freq[order[i]]));
      assert leaves == LeafNodes(Distinct(text), text);
      nodes := StableSort(leaves);
    }

    /**
     `HuffmanTree.getCharEncoding`: the codeword of `c`, which leads from the
     root to the leaf that holds `c` with its count.
     */
    method GetCharEncoding(c: char) returns (encoding: seq<int>)
      requires Valid() && c in root.charSet
      ensures encoding == Codeword(root, c)
      ensures Subtree(root, encoding) == Some(Leaf([c], Count(text, c)))
    {
      var node := root;
      encoding := [];
      while true
        invariant WellFormed(node) && Contains(node, c)
        invariant Subtree(root, encoding) == Some(node)
        decreases node
      {
        CharSetSize(node);
        if Contains(node, c) && |node.charSet| == 1 {
          assert node.charSet == [c];
          CodewordUnique(root, c, encoding);
          SubtreeCounted(root, encoding, text);
          return;
        } else if Contains(node.left, c) {
          SubtreeSnoc(root, encoding, 0);
          encoding := encoding + [0];
          node := node.left;
        } else if Contains(node.right, c) {
          SubtreeSnoc(root, encoding, 1);
          encoding := encoding + [1];
          node := node.right;
        }
      }
    }

    /**
     `HuffmanTree.getEncoded`: the codeword of every character of `s`, in
     order; against a tree of two leaves or more, its bits decode back to `s`.
     */
    method GetEncoded(s: seq<char>) returns (codes: seq<seq<int>>)
      requires Valid()
      requires forall c :: c in s ==> c in root.charSet
      ensures codes == Encoded(root, s)
      ensures root.Internal? ==> Decoded(root, Flatten(codes)) == s
    {
      codes := [];
      for i := 0 to |s|
        invariant codes == Encoded(root, s[..i])
      {
        var code := GetCharEncoding(s[i]);
        assert s[..i + 1] == s[..i] + [s[i]];
        codes := codes + [code];
      }
      assert s[..|s|] == s;
      if root.Internal? {
        RoundTrip(root, s);
      }
    }

    /**
     `HuffmanTree.getDecoded`: walks the tree bit by bit, emitting a
     character and going back to the root at each single-character node, and
     stops at the first value that is neither 0 nor 1.
     */
    method GetDecoded(bits: seq<int>) returns (decoded: seq<char>)
      requires Valid()
      requires DecodeDefined(root, bits)
      ensures decoded == Decoded(root, bits)
    {
      var node := root;
      var offset := 0;
      decoded := [];
      DecodeLoopStart(root, bits);
      while offset != |bits|
        invariant DecodeLoopInv(root, bits, offset, node, decoded)
        decreases |bits| - offset
      {
        if bits[offset] == 0 {
          DecodeLoopStep(root, bits, offset, node, decoded);
          node := node.left;
          offset := offset + 1;
        } else if bits[offset] == 1 {
          DecodeLoopStep(root, bits, offset, node, decoded);
          node := node.right;
          offset := offset + 1;
        } else {
          break;
        }
        if |node.charSet| == 1 {
          decoded := decoded + [node.charSet[0]];
          node := root;
        }
      }
      DecodeLoopEnd(root, bits, offset, node, decoded);
    }
  }

  /**
   One turn of the merge loop, written with the list operations of
   `constructTree` (append, pop the front twice, sort), is `MergeStep`: it
   shortens the list by one and leaves the final result of the loop as it is.
   */
  lemma MergeTurn(w: seq<Node>, combined: Node)
    requires |w| >= 2 && combined == FromNodes(w[0], w[1])
    ensures StableSort((w + [combined])[1..][1..]) == MergeStep(w)
    ensures |MergeStep(w)| == |w| - 1 && Merge(MergeStep(w)) == Merge(w)
  {
    assert (w + [combined])[1..][1..] == w[2..] + [combined];
  }

  /** The root `BuildTree` gives has the properties of `Valid`. */
  lemma BuiltRoot(text: seq<char>, root: Node)
    requires BuildTree(text) == Some(root)
    ensures CodeTree(root) && CountedLeaves(root, text)
    ensures root.frequency == |text|
    ensures forall c :: c in root.charSet <==> c in text
  {
    BuildTreeRoot(text);
  }

  /**
   Round trip on a built tree: when the text has two distinct characters or
   more, any string over its characters encodes to bits that decode back to
   the string.
   */
  lemma BuiltTreeRoundTrip(text: seq<char>, s: seq<char>)
    requires |Distinct(text)| >= 2
    requires forall c :: c in s ==> c in text
    ensures BuildTree(text).Some? && WellFormed(BuildTree(text).value) && BuildTree(text).value.Internal?
    ensures forall c :: c in s ==> c in BuildTree(text).value.charSet
    ensures Decoded(BuildTree(text).value, Flatten(Encoded(BuildTree(text).value, s))) == s
  {
    BuildTreeRoot(text);
    BuildTreeSingleSymbol(text);
    RoundTrip(BuildTree(text).value, s);
  }

  /** The code of a built tree is prefix-free. */
  lemma BuiltTreePrefixFree(text: seq<char>, c: char, d: char)
    requires c in text && d in text && c != d
    ensures BuildTree(text).Some? && WellFormed(BuildTree(text).value)
    ensures c in BuildTree(text).value.charSet && d in BuildTree(text).value.charSet
    ensures !IsPrefix(Codeword(BuildTree(text).value, c), Codeword(BuildTree(text).value, d))
  {
    BuildTreeRoot(text);
    PrefixFree(BuildTree(text).value, c, d);
  }

  /**
   A text of a single distinct character gives a tree of a single leaf whose
   codeword is empty, so encoding any such text and decoding the bits gives
   nothing back.
   */
  lemma SingleSymbolText(text: seq<char>)
    requires text != [] && |Distinct(text)| == 1
    ensures BuildTree(text) == Some(Leaf([text[0]], |text|))
    ensures Codeword(BuildTree(text).value, text[0]) == []
    ensures Flatten(Encoded(BuildTree(text).value, text)) == []
    ensures Decoded(BuildTree(text).value, Flatten(Encoded(BuildTree(text).value, text))) == []
  {
    BuildTreeSingleSymbol(text);
    BuildTreeRoot(text);
    SingleLeafLosesText(BuildTree(text).value, text);
  }
}
