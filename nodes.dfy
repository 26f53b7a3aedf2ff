/** The Option wrapper the rest of the model uses for "no value". */
module Wrappers {
  datatype Option<+T> = None | Some(value: T)
}

/**
 The `Node` class of HuffmanTree.py as an immutable value.

 A leaf is what `Node(charSet, frequency)` builds (no children); an internal
 node is what `Node.fromNodes` builds. Every field is written once, when the
 node is created, and never again, so a datatype captures the class exactly.
 */
module Nodes {
  import opened Wrappers

  datatype Node =
    | Leaf(charSet: seq<char>, frequency: nat)
    | Internal(charSet: seq<char>, frequency: nat, left: Node, right: Node)

  /** `Node.__lt__`: nodes are ordered by frequency and nothing else. */
  predicate Less(a: Node, b: Node) {
    a.frequency < b.frequency
  }

  /** `Node.__contains__`: is `c` one of the characters under `n`? */
  predicate Contains(n: Node, c: char) {
    c in n.charSet
  }

  /**
   `__lt__` is a strict weak order, and two nodes tie, neither less than the
   other, exactly when their frequencies are equal: a sort by `Less` alone
   leaves the order of equal-frequency nodes to the sort.
   */
  lemma LessOrder(a: Node, b: Node, c: Node)
    ensures !Less(a, a)
    ensures Less(a, b) && Less(b, c) ==> Less(a, c)
    ensures !Less(a, b) && !Less(b, a) <==> a.frequency == b.frequency
  {
  }

  /**
   `__contains__` on a well-formed node: a leaf contains only its own
   character, and an internal node contains what either child contains.
   */
  lemma ContainsBelow(n: Node, c: char)
    requires WellFormed(n)
    ensures n.Leaf? ==> (Contains(n, c) <==> n.charSet == [c])
    ensures n.Internal? ==> (Contains(n, c) <==> Contains(n.left, c) || Contains(n.right, c))
  {
    if n.Leaf? {
      assert n.charSet == [n.charSet[0]];
    }
  }

  /**
   The shape of every node the tree builder creates: a leaf holds exactly one
   character, an internal node holds the concatenation of its children's
   characters and the sum of their frequencies.
   */
  ghost predicate WellFormed(n: Node) {
    match n
    case Leaf(cs, _) => |cs| == 1
    case Internal(cs, f, l, r) =>
      && cs == l.charSet + r.charSet
      && f == l.frequency + r.frequency
      && WellFormed(l)
      && WellFormed(r)
  }

  /** `Node.fromNodes`: the parent of `l` (left) and `r` (right). */
  function FromNodes(l: Node, r: Node): (p: Node)
    ensures p.Internal? && p.left == l && p.right == r
    ensures p.charSet == l.charSet + r.charSet && p.frequency == l.frequency + r.frequency
    ensures WellFormed(p) <==> WellFormed(l) && WellFormed(r)
    ensures multiset(p.charSet) == multiset(l.charSet) + multiset(r.charSet)
    ensures forall c :: Contains(p, c) <==> Contains(l, c) || Contains(r, c)
  {
    Internal(l.charSet + r.charSet, l.frequency + r.frequency, l, r)
  }

  /** A well-formed node is never empty, and only a leaf holds a single character. */
  lemma {:induction false} CharSetSize(n: Node)
    requires WellFormed(n)
    ensures |n.charSet| >= 1
    ensures |n.charSet| == 1 <==> n.Leaf?
  {
    match n
    case Leaf(_, _) =>
    case Internal(_, _, l, r) =>
      CharSetSize(l);
      CharSetSize(r);
  }

  /**
   The node reached from `n` by following `path`, 0 meaning left and 1 meaning
   right; None when the path leaves the tree or holds another value.
   */
  function Subtree(n: Node, path: seq<int>): Option<Node>
    decreases |path|
  {
    if path == [] then Some(n)
    else if n.Leaf? then None
    else if path[0] == 0 then Subtree(n.left, path[1..])
    else if path[0] == 1 then Subtree(n.right, path[1..])
    else None
  }

  /** One more turn below the node a path reaches leads to that node's child. */
  lemma {:induction false} SubtreeSnoc(n: Node, path: seq<int>, b: int)
    requires Subtree(n, path).Some? && Subtree(n, path).value.Internal?
    requires b == 0 || b == 1
    ensures Subtree(n, path + [b]) == Some(if b == 0 then Subtree(n, path).value.left else Subtree(n, path).value.right)
    decreases |path|
  {
    if path == [] {
      assert [] + [b] == [b] && [b][1..] == [];
    } else {
      assert (path + [b])[1..] == path[1..] + [b];
      if path[0] == 0 {
        SubtreeSnoc(n.left, path[1..], b);
      } else {
        SubtreeSnoc(n.right, path[1..], b);
      }
    }
  }

  /** Every node below a well-formed node is well-formed and holds only characters of it. */
  lemma {:induction false} SubtreeWithin(n: Node, path: seq<int>)
    requires WellFormed(n) && Subtree(n, path).Some?
    ensures WellFormed(Subtree(n, path).value)
    ensures forall c :: c in Subtree(n, path).value.charSet ==> c in n.charSet
    decreases |path|
  {
    if path != [] {
      if path[0] == 0 {
        SubtreeWithin(n.left, path[1..]);
      } else {
        SubtreeWithin(n.right, path[1..]);
      }
    }
  }
}
