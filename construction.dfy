/**
 Tree construction, `HuffmanTree.constructTree`, as functions on the worklist
 of nodes, and the properties the algorithm promises.

 The worklist starts as one leaf per distinct character, in the order the
 frequency table lists them, stably sorted by frequency. Each step merges the
 first two nodes into a parent, appends it, drops the two and re-sorts the
 list; the last node left is the root.
 */
module Construction {
  import opened Wrappers
  import opened Nodes
  import opened StableSorting
  import opened Frequencies

  /** Every leaf under `n` holds one character together with its count in `text`. */
  ghost predicate CountedLeaves(n: Node, text: seq<char>) {
    match n
    case Leaf(cs, f) => |cs| == 1 && f == Count(text, cs[0])
    case Internal(_, _, l, r) => CountedLeaves(l, text) && CountedLeaves(r, text)
  }

  /** One leaf per key, in key order, each with the key's count in `text`. */
  function LeafNodes(keys: seq<char>, text: seq<char>): seq<Node> {
    seq(|keys|, i requires 0 <= i < |keys| => Leaf([keys[i]], Count(text, keys[i])))
  }

  /**
   The list of leaves, sorted by frequency, that the merge loop starts from:
   one per distinct character, so empty exactly for the empty text.
   */
  function InitialWorklist(text: seq<char>): (w: seq<Node>)
    ensures |w| == |Distinct(text)|
    ensures w == [] <==> text == []
  {
    assert text != [] ==> text[0] in Distinct(text);
    StableSort(LeafNodes(Distinct(text), text))
  }

  /** One turn of the merge loop. */
  function MergeStep(w: seq<Node>): (r: seq<Node>)
    requires |w| >= 2
    ensures |r| == |w| - 1
  {
    StableSort(w[2..] + [FromNodes(w[0], w[1])])
  }

  /** The merge loop, run until at most one node is left. */
  function Merge(w: seq<Node>): (r: seq<Node>)
    ensures |r| == if w == [] then 0 else 1
    decreases |w|
  {
    if |w| <= 1 then w else Merge(MergeStep(w))
  }

  /**
   The root `constructTree` stores: there is none, where `nodes[0]` fails,
   exactly when the text is empty.
   */
  function BuildTree(text: seq<char>): (root: Option<Node>)
    ensures root.None? <==> text == []
  {
    var w := Merge(InitialWorklist(text));
    if w == [] then None else Some(w[0])
  }

  /** The sum of the frequencies of the nodes of `w`. */
  function SumFreq(w: seq<Node>): nat
    decreases |w|
  {
    if w == [] then 0 else SumFreq(w[..|w| - 1]) + w[|w| - 1].frequency
  }

  /** The characters of the nodes of `w`, node after node. */
  function AllChars(w: seq<Node>): seq<char>
    decreases |w|
  {
    if w == [] then [] else AllChars(w[..|w| - 1]) + w[|w| - 1].charSet
  }

  lemma {:induction false} SumFreqAppend(a: seq<Node>, b: seq<Node>)
    ensures SumFreq(a + b) == SumFreq(a) + SumFreq(b)
    decreases |b|
  {
    if b == [] {
      assert a + b == a;
    } else {
      assert (a + b)[..|a + b| - 1] == a + b[..|b| - 1];
      SumFreqAppend(a, b[..|b| - 1]);
    }
  }

  lemma {:induction false} AllCharsAppend(a: seq<Node>, b: seq<Node>)
    ensures AllChars(a + b) == AllChars(a) + AllChars(b)
    decreases |b|
  {
    if b == [] {
      assert a + b == a;
    } else {
      assert (a + b)[..|a + b| - 1] == a + b[..|b| - 1];
      AllCharsAppend(a, b[..|b| - 1]);
    }
  }

  /** Inserting a node adds its frequency to the sum. */
  lemma {:induction false} InsertSumFreq(t: seq<Node>, x: Node)
    ensures SumFreq(Insert(t, x)) == SumFreq(t) + x.frequency
    decreases |t|
  {
    if t == [] || !Less(x, t[|t| - 1]) {
      assert (t + [x])[..|t|] == t;
    } else {
      var t' := t[..|t| - 1];
      assert (Insert(t', x) + [t[|t| - 1]])[..|t|] == Insert(t', x);
      InsertSumFreq(t', x);
    }
  }

  /** Inserting a node adds its characters to those of the list. */
  lemma {:induction false} InsertChars(t: seq<Node>, x: Node)
    ensures multiset(AllChars(Insert(t, x))) == multiset(AllChars(t)) + multiset(x.charSet)
    decreases |t|
  {
    if t == [] || !Less(x, t[|t| - 1]) {
      assert (t + [x])[..|t|] == t;
    } else {
      var t', y := t[..|t| - 1], t[|t| - 1];
      assert (Insert(t', x) + [y])[..|t|] == Insert(t', x);
      assert AllChars(Insert(t, x)) == AllChars(Insert(t', x)) + y.charSet;
      InsertChars(t', x);
    }
  }

  /** Re-sorting neither adds nor loses frequency. */
  lemma {:induction false} SortKeepsSumFreq(s: seq<Node>)
    ensures SumFreq(StableSort(s)) == SumFreq(s)
    decreases |s|
  {
    if s != [] {
      var s' := s[..|s| - 1];
      SortKeepsSumFreq(s');
      InsertSumFreq(StableSort(s'), s[|s| - 1]);
    }
  }

  /** Re-sorting neither adds nor loses characters. */
  lemma {:induction false} SortKeepsChars(s: seq<Node>)
    ensures multiset(AllChars(StableSort(s))) == multiset(AllChars(s))
    decreases |s|
  {
    if s != [] {
      var s' := s[..|s| - 1];
      SortKeepsChars(s');
      InsertChars(StableSort(s'), s[|s| - 1]);
    }
  }

  /**
   What holds of the worklist before and after every turn of the merge loop:
   it is sorted, its nodes are well-formed with counted leaves, their
   frequencies add up to the length of the text and their characters are,
   together, the distinct characters of the text.
   */
  ghost predicate WorklistInv(w: seq<Node>, text: seq<char>) {
    && Sorted(w)
    && GoodNodes(w, text)
    && SumFreq(w) == |text|
    && multiset(AllChars(w)) == multiset(Distinct(text))
  }

  /** The leaves built from the keys carry the keys' counts and, in key order, the keys themselves. */
  lemma LeafNodesTotals(keys: seq<char>, text: seq<char>)
    ensures SumFreq(LeafNodes(keys, text)) == SumCounts(keys, text)
    ensures AllChars(LeafNodes(keys, text)) == keys
  {
    LeavesTotals(keys, text, LeafNodes(keys, text));
  }

  /** Any list holding, key by key, the key's leaf with its count has the keys' totals. */
  lemma {:induction false} LeavesTotals(keys: seq<char>, text: seq<char>, leaves: seq<Node>)
    requires |leaves| == |keys|
    requires forall i :: 0 <= i < |keys| ==> leaves[i] == Leaf([keys[i]], Count(text, keys[i]))
    ensures SumFreq(leaves) == SumCounts(keys, text)
    ensures AllChars(leaves) == keys
    decreases |keys|
  {
    if keys != [] {
      var k, c := keys[..|keys| - 1], keys[|keys| - 1];
      LeavesTotals(k, text, leaves[..|leaves| - 1]);
      assert keys == k + [c];
    }
  }

  /** The worklist the loop starts from: one counted leaf per distinct character. */
  lemma InitialWorklistInv(text: seq<char>)
    ensures |InitialWorklist(text)| == |Distinct(text)|
    ensures WorklistInv(InitialWorklist(text), text)
  {
    var leaves := LeafNodes(Distinct(text), text);
    var w := InitialWorklist(text);
    assert Sorted(w) by {
      StableSortSorts(leaves);
    }
    assert GoodNodes(w, text) by {
      SortKeepsGoodNodes(leaves, text);
    }
    assert SumFreq(w) == |text| by {
      LeafNodesTotals(Distinct(text), text);
      CountsSumToLength(text);
      SortKeepsSumFreq(leaves);
    }
    assert multiset(AllChars(w)) == multiset(Distinct(text)) by {
      LeafNodesTotals(Distinct(text), text);
      SortKeepsChars(leaves);
    }
  }

  /** The totals of a list of one node are that node's. */
  lemma SingletonTotals(n: Node)
    ensures SumFreq([n]) == n.frequency
    ensures AllChars([n]) == n.charSet
  {
    assert [n][..0] == [];
  }

  /** Merging the front two nodes and appending the parent keeps the totals of the list. */
  lemma MergeTotals(w: seq<Node>)
    requires |w| >= 2
    ensures SumFreq(w[2..] + [FromNodes(w[0], w[1])]) == SumFreq(w)
    ensures multiset(AllChars(w[2..] + [FromNodes(w[0], w[1])])) == multiset(AllChars(w))
  {
    SplitFrontTwo(w);
    ParentTotals(w[0], w[1], w[2..]);
  }

  /** A list of at least two nodes is its first two nodes followed by the rest. */
  lemma SplitFrontTwo<T>(w: seq<T>)
    requires |w| >= 2
    ensures w == [w[0], w[1]] + w[2..]
  {
    assert w[..2] == [w[0], w[1]];
  }

  /** The parent of `x` and `y` appended behind `rest` carries the totals of `x`, `y` and `rest`. */
  lemma ParentTotals(x: Node, y: Node, rest: seq<Node>)
    ensures SumFreq(rest + [FromNodes(x, y)]) == SumFreq([x, y] + rest)
    ensures multiset(AllChars(rest + [FromNodes(x, y)])) == multiset(AllChars([x, y] + rest))
  {
    var p := FromNodes(x, y);
    assert (rest + [p])[..|rest|] == rest;
    FrontTwoTotals(x, y, rest);
  }

  /** The totals of a list are those of its first two nodes and of the rest. */
  lemma FrontTwoTotals(x: Node, y: Node, rest: seq<Node>)
    ensures SumFreq([x, y] + rest) == x.frequency + y.frequency + SumFreq(rest)
    ensures AllChars([x, y] + rest) == (x.charSet + y.charSet) + AllChars(rest)
  {
    assert SumFreq([x, y]) == x.frequency + y.frequency by {
      assert [x, y][..1] == [x];
      SingletonTotals(x);
    }
    assert AllChars([x, y]) == x.charSet + y.charSet by {
      assert [x, y][..1] == [x];
      SingletonTotals(x);
    }
    SumFreqAppend([x, y], rest);
    AllCharsAppend([x, y], rest);
  }

  /** The nodes of the worklist are well-formed and their leaves counted. */
  ghost predicate GoodNodes(w: seq<Node>, text: seq<char>) {
    forall n :: n in w ==> WellFormed(n) && CountedLeaves(n, text)
  }

  /** Sorting a worklist keeps its nodes. */
  lemma SortKeepsGoodNodes(s: seq<Node>, text: seq<char>)
    requires GoodNodes(s, text)
    ensures GoodNodes(StableSort(s), text)
  {
    forall n | n in StableSort(s) ensures WellFormed(n) && CountedLeaves(n, text) {
      assert n in multiset(StableSort(s));
    }
  }

  /**
   One turn keeps the worklist invariant. The two nodes it merges have the
   lowest frequencies of the list, and the parent is placed behind every node
   whose frequency is at most its own, the others keeping their order.
   */
  lemma MergeStepInv(w: seq<Node>, text: seq<char>)
    requires |w| >= 2 && WorklistInv(w, text)
    ensures WorklistInv(MergeStep(w), text)
    ensures forall i :: 2 <= i < |w| ==> w[0].frequency <= w[i].frequency && w[1].frequency <= w[i].frequency
    ensures exists k :: PlacedAt(w[2..], FromNodes(w[0], w[1]), MergeStep(w), k)
  {
    var p := FromNodes(w[0], w[1]);
    var s := w[2..] + [p];
    var r := MergeStep(w);
    assert Sorted(r) by {
      StableSortSorts(s);
    }
    assert GoodNodes(r, text) by {
      MergeKeepsGoodNodes(w, text);
      SortKeepsGoodNodes(s, text);
    }
    assert SumFreq(r) == |text| by {
      MergeTotals(w);
      SortKeepsSumFreq(s);
    }
    assert multiset(AllChars(r)) == multiset(Distinct(text)) by {
      MergeTotals(w);
      SortKeepsChars(s);
    }
    assert Sorted(w[2..]) by {
      forall i, j | 0 <= i < j < |w[2..]| ensures w[2..][i].frequency <= w[2..][j].frequency {
        assert w[2..][i] == w[i + 2] && w[2..][j] == w[j + 2];
      }
    }
    ResortAfterAppend(w[2..], p);
  }

  /** Replacing the front two nodes by their parent keeps the nodes well-formed with counted leaves. */
  lemma MergeKeepsGoodNodes(w: seq<Node>, text: seq<char>)
    requires |w| >= 2 && GoodNodes(w, text)
    ensures GoodNodes(w[2..] + [FromNodes(w[0], w[1])], text)
  {
    var p := FromNodes(w[0], w[1]);
    assert w[0] in w && w[1] in w;
    forall n | n in w[2..] + [p] ensures WellFormed(n) && CountedLeaves(n, text) {
      if n != p {
        assert n in w;
      }
    }
  }

  /** Running the loop to the end keeps the invariant. */
  lemma {:induction false} MergeInv(w: seq<Node>, text: seq<char>)
    requires WorklistInv(w, text)
    ensures WorklistInv(Merge(w), text)
    decreases |w|
  {
    if |w| > 1 {
      MergeStepInv(w, text);
      MergeInv(MergeStep(w), text);
    }
  }

  /** Two sequences with the same multiset hold the same characters. */
  lemma SameMembers(a: seq<char>, b: seq<char>)
    requires multiset(a) == multiset(b)
    ensures forall c :: c in a <==> c in b
  {
    forall c ensures c in a <==> c in b {
      assert c in a <==> c in multiset(a);
      assert c in b <==> c in multiset(b);
    }
  }

  /** The node left at the end of the loop. */
  lemma LastNode(w: seq<Node>, text: seq<char>)
    requires WorklistInv(w, text) && |w| == 1
    ensures WellFormed(w[0]) && CountedLeaves(w[0], text)
    ensures w[0].frequency == |text|
    ensures multiset(w[0].charSet) == multiset(Distinct(text))
  {
    assert w == [w[0]];
    SingletonTotals(w[0]);
    assert w[0] in w;
  }

  /**
   For a non-empty text the root is a well-formed tree whose frequency is
   the length of the text, whose characters are the distinct characters of
   the text, each once, and whose every leaf holds its character's count.
   */
  lemma BuildTreeRoot(text: seq<char>)
    requires text != []
    ensures BuildTree(text).Some?
    ensures WellFormed(BuildTree(text).value)
    ensures CountedLeaves(BuildTree(text).value, text)
    ensures BuildTree(text).value.frequency == |text|
    ensures multiset(BuildTree(text).value.charSet) == multiset(Distinct(text))
    ensures NoDup(BuildTree(text).value.charSet)
    ensures forall c :: c in BuildTree(text).value.charSet <==> c in text
  {
    InitialWorklistInv(text);
    MergeInv(InitialWorklist(text), text);
    var w := Merge(InitialWorklist(text));
    LastNode(w, text);
    DistinctNoDup(text);
    SameMembers(w[0].charSet, Distinct(text));
  }

  /**
   The root is a leaf exactly when the text has a single distinct character;
   it is then that character's leaf, with the length of the text as frequency.
   */
  lemma BuildTreeSingleSymbol(text: seq<char>)
    requires text != []
    ensures BuildTree(text).value.Leaf? <==> |Distinct(text)| == 1
    ensures |Distinct(text)| == 1 ==> BuildTree(text) == Some(Leaf([text[0]], |text|))
  {
    BuildTreeRoot(text);
    var root := BuildTree(text).value;
    CharSetSize(root);
    assert |root.charSet| == |Distinct(text)| by {
      assert |multiset(root.charSet)| == |multiset(Distinct(text))|;
    }
    if root.Leaf? {
      assert text[0] in root.charSet;
      assert root.charSet == [text[0]];
    }
  }

  /** Every node below a node with counted leaves has counted leaves. */
  lemma {:induction false} SubtreeCounted(n: Node, path: seq<int>, text: seq<char>)
    requires CountedLeaves(n, text) && Subtree(n, path).Some?
    ensures CountedLeaves(Subtree(n, path).value, text)
    decreases |path|
  {
    if path != [] {
      if path[0] == 0 {
        SubtreeCounted(n.left, path[1..], text);
      } else {
        SubtreeCounted(n.right, path[1..], text);
      }
    }
  }
}
