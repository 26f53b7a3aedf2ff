/**
 A worked example of the tree builder on a text of seven characters, `xxyyyzz`
 for any three different characters x, y and z, showing how ties are broken.

 The frequency table lists x (2), y (3), z (2) in that order. The stable sort
 keeps x in front of z, since they tie; x and z are merged first, their
 parent (4) goes behind y (3), and the root is y's leaf on the left and the
 x-z parent on the right. So y is coded 0, x is coded 10 and z is coded 11.
 */
module Scenario {
  import opened Wrappers
  import opened Nodes
  import opened StableSorting
  import opened Frequencies
  import opened Construction
  import opened Codec

  /** The frequency table lists the characters in the order of their first occurrence. */
  lemma ExampleDistinct(x: char, y: char, z: char)
    requires x != y && y != z && x != z
    ensures Distinct([x, x, y, y, y, z, z]) == [x, y, z]
  {
    DistinctXY(x, y);
    DistinctSnoc([x, x, y, y, y], z);
    assert [x, x, y, y, y] + [z] == [x, x, y, y, y, z];
    DistinctSnoc([x, x, y, y, y, z], z);
    assert [x, x, y, y, y, z] + [z] == [x, x, y, y, y, z, z];
  }

  lemma DistinctXY(x: char, y: char)
    requires x != y
    ensures Distinct([x, x, y, y, y]) == [x, y]
  {
    DistinctX(x);
    DistinctSnoc([x, x], y);
    assert [x, x] + [y] == [x, x, y];
    DistinctSnoc([x, x, y], y);
    assert [x, x, y] + [y] == [x, x, y, y];
    DistinctSnoc([x, x, y, y], y);
    assert [x, x, y, y] + [y] == [x, x, y, y, y];
  }

  lemma DistinctX(x: char)
    ensures Distinct([x, x]) == [x]
  {
    calc {
      Distinct([x, x]);
      { assert [x, x] == [x] + [x]; DistinctSnoc([x], x); }
      Distinct([x]) + (if x in [x] then [] else [x]);
      { assert x in [x]; }
      Distinct([x]);
      { assert [x] == [] + [x]; DistinctSnoc([], x); }
      [x];
    }
  }

  /** One leaf per character, with its count, in table order. */
  lemma ExampleLeaves(x: char, y: char, z: char)
    requires x != y && y != z && x != z
    ensures LeafNodes(Distinct([x, x, y, y, y, z, z]), [x, x, y, y, y, z, z]) == [Leaf([x], 2), Leaf([y], 3), Leaf([z], 2)]
  {
    ExampleDistinct(x, y, z);
    assert multiset([x, x, y, y, y, z, z]) == multiset{x, x, y, y, y, z, z};
  }

  /** The stable sort moves z's leaf in front of y's and keeps it behind x's, its equal. */
  lemma ExampleSort(x: char, y: char, z: char)
    ensures StableSort([Leaf([x], 2), Leaf([y], 3), Leaf([z], 2)]) == [Leaf([x], 2), Leaf([z], 2), Leaf([y], 3)]
  {
    var a, b, c := Leaf([x], 2), Leaf([y], 3), Leaf([z], 2);
    assert [a, b, c][..2] == [a, b];
    assert [a, b][..1] == [a];
    assert [a][..0] == [];
    assert StableSort([a]) == [a];
    assert StableSort([a, b]) == Insert([a], b) == [a, b];
    assert Insert([a], c) == [a, c];
    assert Insert([a, b], c) == [a, c, b];
  }

  /** First turn: the two leaves of frequency 2 merge, and their parent goes behind the leaf of frequency 3. */
  lemma ExampleFirstMerge(x: char, y: char, z: char)
    ensures MergeStep([Leaf([x], 2), Leaf([z], 2), Leaf([y], 3)])
         == [Leaf([y], 3), Internal([x, z], 4, Leaf([x], 2), Leaf([z], 2))]
  {
    var a, b, c := Leaf([x], 2), Leaf([y], 3), Leaf([z], 2);
    var ac := Internal([x, z], 4, a, c);
    assert a.charSet + c.charSet == [x, z];
    assert FromNodes(a, c) == ac;
    assert [a, c, b][2..] + [ac] == [b, ac];
    StableSortOfSorted([b, ac]);
  }

  /** Second turn: the last two nodes merge into the root. */
  lemma ExampleSecondMerge(x: char, y: char, z: char)
    ensures MergeStep([Leaf([y], 3), Internal([x, z], 4, Leaf([x], 2), Leaf([z], 2))]) == [ExampleRoot(x, y, z)]
  {
    var b, ac := Leaf([y], 3), Internal([x, z], 4, Leaf([x], 2), Leaf([z], 2));
    var root := ExampleRoot(x, y, z);
    assert b.charSet + ac.charSet == [y, x, z];
    assert FromNodes(b, ac) == root;
    assert [b, ac][2..] + [root] == [root];
    assert [root][..0] == [];
  }

  /** The tree built from `xxyyyzz`. */
  function ExampleRoot(x: char, y: char, z: char): Node {
    Internal([y, x, z], 7, Leaf([y], 3), Internal([x, z], 4, Leaf([x], 2), Leaf([z], 2)))
  }

  /** The whole construction: table, leaves, sort and two merges give `ExampleRoot`. */
  lemma ExampleTree(x: char, y: char, z: char)
    requires x != y && y != z && x != z
    ensures BuildTree([x, x, y, y, y, z, z]) == Some(ExampleRoot(x, y, z))
  {
    var text := [x, x, y, y, y, z, z];
    var w := [Leaf([x], 2), Leaf([z], 2), Leaf([y], 3)];
    ExampleLeaves(x, y, z);
    ExampleSort(x, y, z);
    assert InitialWorklist(text) == w;
    ExampleFirstMerge(x, y, z);
    var w1 := MergeStep(w);
    ExampleSecondMerge(x, y, z);
    var w2 := MergeStep(w1);
    assert w2 == [ExampleRoot(x, y, z)];
    assert Merge(w1) == Merge(w2) == w2;
    assert Merge(w) == Merge(w1);
  }

  /** The codewords of the three characters in the tree built from `xxyyyzz`. */
  lemma ExampleCodewords(x: char, y: char, z: char)
    requires x != y && y != z && x != z
    ensures WellFormed(ExampleRoot(x, y, z))
    ensures Codeword(ExampleRoot(x, y, z), y) == [0]
    ensures Codeword(ExampleRoot(x, y, z), x) == [1, 0]
    ensures Codeword(ExampleRoot(x, y, z), z) == [1, 1]
  {
    var t := ExampleRoot(x, y, z);
    assert [x] + [z] == [x, z];
    assert [y] + [x, z] == [y, x, z];
    assert WellFormed(t.left) && WellFormed(t.right.left) && WellFormed(t.right.right);
    assert WellFormed(t.right);
    assert WellFormed(t);
    assert Codeword(t.right, x) == [0] + Codeword(t.right.left, x);
    assert Codeword(t.right, z) == [1] + Codeword(t.right.right, z);
  }

  /** Encoding `xyz` gives the bits 1 0 0 1 1. */
  lemma ExampleEncodedBits(x: char, y: char, z: char)
    requires x != y && y != z && x != z
    ensures WellFormed(ExampleRoot(x, y, z))
    ensures Flatten(Encoded(ExampleRoot(x, y, z), [x, y, z])) == [1, 0, 0, 1, 1]
  {
    ExampleCodewords(x, y, z);
    var codes := Encoded(ExampleRoot(x, y, z), [x, y, z]);
    assert codes == [[1, 0], [0], [1, 1]];
    assert Flatten(codes[2..]) == [1, 1];
    assert Flatten(codes[1..]) == [0, 1, 1];
  }

  /** Those bits decode back to `xyz`. */
  lemma ExampleDecoding(x: char, y: char, z: char)
    requires x != y && y != z && x != z
    ensures WellFormed(ExampleRoot(x, y, z))
    ensures Decoded(ExampleRoot(x, y, z), [1, 0, 0, 1, 1]) == [x, y, z]
  {
    ExampleEncodedBits(x, y, z);
    RoundTrip(ExampleRoot(x, y, z), [x, y, z]);
  }
}
