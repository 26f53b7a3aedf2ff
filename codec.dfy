/**
 Codewords, encoding and decoding over a built tree: the specification
 functions behind `HuffmanTree.getCharEncoding`, `getEncoded` and
 `getDecoded`, and the properties of the code they define.

 A bit is an `int`, as in the source's lists of bits; 0 means left and 1
 means right.
 */
module Codec {
  import opened Nodes
  import opened Frequencies

  /** A tree that serves as a code: well-formed, and no character under it twice. */
  ghost predicate CodeTree(root: Node) {
    WellFormed(root) && NoDup(root.charSet)
  }

  predicate IsBit(b: int) {
    b == 0 || b == 1
  }

  /** `a` is a prefix of `b`. */
  predicate IsPrefix(a: seq<int>, b: seq<int>) {
    |a| <= |b| && b[..|a|] == a
  }

  /**
   The codeword of `c`: the turns from `n` down to the leaf of `c`, going
   left whenever `c` is under the left child. Following it from `n` ends at
   a leaf that holds `c` alone.
   */
  function Codeword(n: Node, c: char): (r: seq<int>)
    requires WellFormed(n) && c in n.charSet
    ensures forall i :: 0 <= i < |r| ==> IsBit(r[i])
    ensures Subtree(n, r).Some? && Subtree(n, r).value.Leaf? && Subtree(n, r).value.charSet == [c]
    decreases n
  {
    if n.Leaf? then []
    else if c in n.left.charSet then
      var r' := Codeword(n.left, c);
      assert ([0] + r')[1..] == r';
      [0] + r'
    else
      var r' := Codeword(n.right, c);
      assert ([1] + r')[1..] == r';
      [1] + r'
  }

  /** The characters of a duplicate-free concatenation are duplicate-free and split between its halves. */
  lemma NoDupSplit(l: seq<char>, r: seq<char>)
    requires NoDup(l + r)
    ensures NoDup(l) && NoDup(r)
    ensures forall c :: c in l ==> c !in r
  {
    assert multiset(l + r) == multiset(l) + multiset(r);
    forall c ensures multiset(l)[c] <= 1 && multiset(r)[c] <= 1 && (c in l ==> c !in r) {
      assert multiset(l + r)[c] <= 1;
      assert c in l ==> c in multiset(l);
      assert c in r ==> c in multiset(r);
    }
  }

  /** Dropping the first bit of both keeps a prefix a prefix. */
  lemma PrefixTail(a: seq<int>, b: seq<int>)
    requires a != []
    ensures IsPrefix(a, b) ==> IsPrefix(a[1..], b[1..])
  {
    if IsPrefix(a, b) {
      assert b[1..][..|a| - 1] == b[..|a|][1..];
    }
  }

  /**
   The codeword is the only path from `n` to a node holding `c` alone: any
   path that ends at such a node is the codeword of `c`.
   */
  lemma {:induction false} CodewordUnique(n: Node, c: char, path: seq<int>)
    requires CodeTree(n)
    requires Subtree(n, path).Some? && Subtree(n, path).value.charSet == [c]
    ensures c in n.charSet && path == Codeword(n, c)
    decreases n
  {
    if path == [] {
      CharSetSize(n);
    } else {
      var rest := path[1..];
      var child := if path[0] == 0 then n.left else n.right;
      assert Subtree(child, rest) == Subtree(n, path);
      assert CodeTree(child) && forall x :: x in child.charSet ==> x !in (if path[0] == 0 then n.right else n.left).charSet by {
        NoDupSplit(n.left.charSet, n.right.charSet);
      }
      assert c in child.charSet && rest == Codeword(child, c) by {
        CodewordUnique(child, c, rest);
      }
      assert path == [path[0]] + rest;
    }
  }

  /** No codeword is a prefix of the codeword of another character. */
  lemma {:induction false} PrefixFree(n: Node, c: char, d: char)
    requires CodeTree(n)
    requires c in n.charSet && d in n.charSet && c != d
    ensures !IsPrefix(Codeword(n, c), Codeword(n, d))
    decreases n
  {
    if n.Internal? {
      NoDupSplit(n.left.charSet, n.right.charSet);
      var cc, cd := Codeword(n, c), Codeword(n, d);
      if c in n.left.charSet && d in n.left.charSet {
        PrefixFree(n.left, c, d);
        assert cc[1..] == Codeword(n.left, c) && cd[1..] == Codeword(n.left, d);
        PrefixTail(cc, cd);
      } else if c in n.right.charSet && d in n.right.charSet {
        PrefixFree(n.right, c, d);
        assert cc[1..] == Codeword(n.right, c) && cd[1..] == Codeword(n.right, d);
        PrefixTail(cc, cd);
      } else {
        assert cc[0] != cd[0];
      }
    }
  }

  /** `getEncoded`: one codeword per character of `s`, in the order of `s`. */
  function Encoded(root: Node, s: seq<char>): (codes: seq<seq<int>>)
    requires WellFormed(root) && forall c :: c in s ==> c in root.charSet
    ensures |codes| == |s|
  {
    seq(|s|, i requires 0 <= i < |s| => Codeword(root, s[i]))
  }

  /**
   The `i`-th codeword of an encoded string leads from the root to the leaf
   that holds the `i`-th character alone.
   */
  lemma EncodedLeadsToLeaves(root: Node, s: seq<char>, i: int)
    requires WellFormed(root) && forall c :: c in s ==> c in root.charSet
    requires 0 <= i < |s|
    ensures var path := Encoded(root, s)[i];
      Subtree(root, path).Some? && Subtree(root, path).value.Leaf? && Subtree(root, path).value.charSet == [s[i]]
  {
  }

  /** The codewords written one after the other, as a flat list of bits. */
  function Flatten(codes: seq<seq<int>>): seq<int>
    decreases |codes|
  {
    if codes == [] then [] else codes[0] + Flatten(codes[1..])
  }

  /**
   The decoding state machine of `getDecoded`, from the current node `node`:
   0 descends left, 1 descends right, any other value stops. Arriving at a
   node that holds a single character emits it and starts again at `root`.
   Whatever it emits is a character of the tree.
   */
  function DecodeFrom(root: Node, node: Node, bits: seq<int>): (out: seq<char>)
    requires WellFormed(node) && node.Internal?
    requires forall c :: c in node.charSet ==> c in root.charSet
    requires WellFormed(root) && root.Internal?
    ensures forall c :: c in out ==> c in root.charSet
    decreases |bits|
  {
    if bits == [] || !IsBit(bits[0]) then []
    else
      var next := if bits[0] == 0 then node.left else node.right;
      CharSetSize(next);
      if |next.charSet| == 1 then [next.charSet[0]] + DecodeFrom(root, root, bits[1..])
      else DecodeFrom(root, next, bits[1..])
  }

  /**
   The inputs on which `getDecoded` runs without failing: a leaf root has no
   children to descend to, so against it the bits must be empty or start
   with a value that stops decoding at once.
   */
  predicate DecodeDefined(root: Node, bits: seq<int>) {
    root.Internal? || bits == [] || !IsBit(bits[0])
  }

  /** `getDecoded`: the characters decoded from `bits`, all of them characters of the tree. */
  function Decoded(root: Node, bits: seq<int>): (out: seq<char>)
    requires WellFormed(root) && DecodeDefined(root, bits)
    ensures forall c :: c in out ==> c in root.charSet
  {
    if root.Leaf? then [] else DecodeFrom(root, root, bits)
  }

  /**
   The state of the loop of `getDecoded` after reading `bits[..offset]`: the
   current node `node` is under the root, and what was emitted so far,
   followed by what the state machine emits from `node` on the rest, is the
   whole output. Against a leaf root nothing has been read.
   */
  ghost predicate DecodeLoopInv(root: Node, bits: seq<int>, offset: int, node: Node, decoded: seq<char>) {
    && WellFormed(root) && DecodeDefined(root, bits)
    && 0 <= offset <= |bits|
    && WellFormed(node) && (forall c :: c in node.charSet ==> c in root.charSet)
    && (root.Leaf? ==> node == root && offset == 0 && decoded == [])
    && (root.Internal? ==> node.Internal? && decoded + DecodeFrom(root, node, bits[offset..]) == Decoded(root, bits))
  }

  /** The loop starts at the root with nothing emitted. */
  lemma DecodeLoopStart(root: Node, bits: seq<int>)
    requires WellFormed(root) && DecodeDefined(root, bits)
    ensures DecodeLoopInv(root, bits, 0, root, [])
  {
    assert bits[0..] == bits;
  }

  /**
   One bit of the loop: descending to the child the bit names and, if that
   child holds a single character, emitting it and going back to the root,
   keeps the loop state.
   */
  lemma DecodeLoopStep(root: Node, bits: seq<int>, offset: int, node: Node, decoded: seq<char>)
    requires DecodeLoopInv(root, bits, offset, node, decoded)
    requires offset < |bits| && IsBit(bits[offset])
    ensures root.Internal? && node.Internal?
    ensures var next := if bits[offset] == 0 then node.left else node.right;
      if |next.charSet| == 1 then DecodeLoopInv(root, bits, offset + 1, root, decoded + [next.charSet[0]])
      else DecodeLoopInv(root, bits, offset + 1, next, decoded)
  {
    var rest := bits[offset..];
    assert rest[1..] == bits[offset + 1..];
    var next := if bits[offset] == 0 then node.left else node.right;
    CharSetSize(next);
    if |next.charSet| == 1 {
      assert (decoded + [next.charSet[0]]) + DecodeFrom(root, root, rest[1..]) == decoded + DecodeFrom(root, node, rest);
    }
  }

  /** The loop stops at the end of the bits or at a value other than 0 and 1, having emitted the whole output. */
  lemma DecodeLoopEnd(root: Node, bits: seq<int>, offset: int, node: Node, decoded: seq<char>)
    requires DecodeLoopInv(root, bits, offset, node, decoded)
    requires offset == |bits| || !IsBit(bits[offset])
    ensures decoded == Decoded(root, bits)
  {
    if root.Internal? {
      assert decoded + [] == decoded;
    }
  }

  /** Decoding a codeword from the node it starts at emits its character and returns to the root. */
  lemma {:induction false} DecodeCodeword(root: Node, node: Node, c: char, rest: seq<int>)
    requires WellFormed(root) && root.Internal?
    requires WellFormed(node) && node.Internal? && c in node.charSet
    requires forall x :: x in node.charSet ==> x in root.charSet
    ensures DecodeFrom(root, node, Codeword(node, c) + rest) == [c] + DecodeFrom(root, root, rest)
    decreases node
  {
    var child := if c in node.left.charSet then node.left else node.right;
    var bits := Codeword(node, c) + rest;
    assert bits[0] == (if c in node.left.charSet then 0 else 1);
    assert bits[1..] == Codeword(child, c) + rest;
    CharSetSize(child);
    if child.Internal? {
      DecodeCodeword(root, child, c, rest);
    }
  }

  /** The bits of a non-empty text are the codeword of its first character followed by the bits of the rest. */
  lemma EncodedCons(root: Node, s: seq<char>)
    requires WellFormed(root) && forall c :: c in s ==> c in root.charSet
    requires s != []
    ensures Flatten(Encoded(root, s)) == Codeword(root, s[0]) + Flatten(Encoded(root, s[1..]))
  {
    var codes := Encoded(root, s);
    assert codes[1..] == Encoded(root, s[1..]);
  }

  /** The first codeword of an encoded string decodes to its first character and returns to the root. */
  lemma DecodeEncodedHead(root: Node, s: seq<char>, rest: seq<int>)
    requires WellFormed(root) && root.Internal?
    requires forall c :: c in s ==> c in root.charSet
    requires s != []
    ensures DecodeFrom(root, root, Flatten(Encoded(root, s)) + rest)
         == [s[0]] + DecodeFrom(root, root, Flatten(Encoded(root, s[1..])) + rest)
  {
    var first, more := Codeword(root, s[0]), Flatten(Encoded(root, s[1..]));
    EncodedCons(root, s);
    assert (first + more) + rest == first + (more + rest);
    DecodeCodeword(root, root, s[0], more + rest);
  }

  /** The bits of an encoded text, followed by anything, decode to the text and then to what follows. */
  lemma {:induction false} DecodeEncoded(root: Node, s: seq<char>, rest: seq<int>)
    requires WellFormed(root) && root.Internal?
    requires forall c :: c in s ==> c in root.charSet
    ensures DecodeFrom(root, root, Flatten(Encoded(root, s)) + rest) == s + DecodeFrom(root, root, rest)
    decreases |s|
  {
    if s != [] {
      var t, after := s[1..], DecodeFrom(root, root, rest);
      calc {
        DecodeFrom(root, root, Flatten(Encoded(root, s)) + rest);
        { DecodeEncodedHead(root, s, rest); }
        [s[0]] + DecodeFrom(root, root, Flatten(Encoded(root, t)) + rest);
        { DecodeEncoded(root, t, rest); }
        [s[0]] + (t + after);
        { assert [s[0]] + t == s; }
        s + after;
      }
    } else {
      EncodedNil(root, s, rest);
      assert s + DecodeFrom(root, root, rest) == DecodeFrom(root, root, rest);
    }
  }

  /** The empty text has no bits. */
  lemma EncodedNil(root: Node, s: seq<char>, rest: seq<int>)
    requires WellFormed(root) && s == []
    ensures Flatten(Encoded(root, s)) + rest == rest
  {
    assert Encoded(root, s) == [];
  }

  /** Round trip: against a tree with two leaves or more, decoding the encoded text gives the text back. */
  lemma RoundTrip(root: Node, s: seq<char>)
    requires WellFormed(root) && root.Internal?
    requires forall c :: c in s ==> c in root.charSet
    ensures Decoded(root, Flatten(Encoded(root, s))) == s
  {
    DecodeEncoded(root, s, []);
    assert Flatten(Encoded(root, s)) + [] == Flatten(Encoded(root, s));
  }

  /** The first bits of a codeword, short of the whole codeword, decode to nothing. */
  lemma {:induction false} PartialCodeword(root: Node, node: Node, c: char, part: seq<int>)
    requires WellFormed(root) && root.Internal?
    requires WellFormed(node) && node.Internal? && c in node.charSet
    requires forall x :: x in node.charSet ==> x in root.charSet
    requires |part| < |Codeword(node, c)| && part == Codeword(node, c)[..|part|]
    ensures DecodeFrom(root, node, part) == []
    decreases node
  {
    if part != [] {
      var child := if c in node.left.charSet then node.left else node.right;
      assert part[0] == Codeword(node, c)[0];
      assert Codeword(node, c)[1..] == Codeword(child, c);
      CharSetSize(child);
      if child.Internal? {
        assert part[1..] == Codeword(child, c)[..|part| - 1];
        PartialCodeword(root, child, c, part[1..]);
      }
    }
  }

  /** A trailing incomplete codeword is dropped: the text before it decodes and nothing else. */
  lemma TrailingPartialCodeword(root: Node, s: seq<char>, c: char, part: seq<int>)
    requires WellFormed(root) && root.Internal?
    requires forall x :: x in s ==> x in root.charSet
    requires c in root.charSet
    requires |part| < |Codeword(root, c)| && part == Codeword(root, c)[..|part|]
    ensures Decoded(root, Flatten(Encoded(root, s)) + part) == s
  {
    DecodeEncoded(root, s, part);
    PartialCodeword(root, root, c, part);
  }

  /** Decoding stops at a value that is not a bit: nothing from there on is read. */
  lemma {:induction false} StopsAtNonBit(root: Node, node: Node, bits: seq<int>, k: nat)
    requires WellFormed(root) && root.Internal?
    requires WellFormed(node) && node.Internal?
    requires forall x :: x in node.charSet ==> x in root.charSet
    requires k < |bits| && !IsBit(bits[k])
    ensures DecodeFrom(root, node, bits) == DecodeFrom(root, node, bits[..k])
    decreases k
  {
    if k > 0 && IsBit(bits[0]) {
      var next := if bits[0] == 0 then node.left else node.right;
      assert bits[..k][1..] == bits[1..][..k - 1];
      CharSetSize(next);
      if |next.charSet| == 1 {
        StopsAtNonBit(root, root, bits[1..], k - 1);
      } else {
        StopsAtNonBit(root, next, bits[1..], k - 1);
      }
    }
  }

  /**
   On a value that is not a bit, decoding stops having emitted exactly the
   characters decoded from the bits before it.
   */
  lemma DecodedStopsAtNonBit(root: Node, bits: seq<int>, k: nat)
    requires WellFormed(root) && DecodeDefined(root, bits)
    requires k < |bits| && !IsBit(bits[k])
    ensures DecodeDefined(root, bits[..k])
    ensures Decoded(root, bits) == Decoded(root, bits[..k])
  {
    if root.Internal? {
      StopsAtNonBit(root, root, bits, k);
    }
  }

  /** Encoded text followed by a value that is not a bit, and anything after it, decodes to the text. */
  lemma MalformedTail(root: Node, s: seq<char>, b: int, junk: seq<int>)
    requires WellFormed(root) && root.Internal?
    requires forall x :: x in s ==> x in root.charSet
    requires !IsBit(b)
    ensures Decoded(root, Flatten(Encoded(root, s)) + [b] + junk) == s
  {
    var bits := Flatten(Encoded(root, s));
    assert (bits + [b] + junk)[..|bits|] == bits;
    DecodedStopsAtNonBit(root, bits + [b] + junk, |bits|);
    RoundTrip(root, s);
  }

  /**
   A tree of a single leaf gives its character the empty codeword, so any
   encoded text is an empty list of bits and decodes to nothing.
   */
  lemma {:induction false} SingleLeafLosesText(root: Node, s: seq<char>)
    requires WellFormed(root) && root.Leaf?
    requires forall c :: c in s ==> c in root.charSet
    ensures Flatten(Encoded(root, s)) == []
    ensures Decoded(root, Flatten(Encoded(root, s))) == []
    decreases |s|
  {
    if s != [] {
      assert Encoded(root, s)[1..] == Encoded(root, s[1..]);
      SingleLeafLosesText(root, s[1..]);
    } else {
      assert Encoded(root, s) == [];
    }
  }
}
