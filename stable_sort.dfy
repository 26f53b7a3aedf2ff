/**
 Python's built-in `sorted` as the tree builder uses it on a list of nodes:
 a stable sort whose only comparison is `Node.__lt__` (frequency).

 `StableSort` is insertion sort: each node, taken in list order, moves left
 past the nodes it is strictly less than and stops behind every node of equal
 frequency. The lemmas show it is a sort (sorted, a permutation) and that it
 is stable (the nodes of each frequency keep their relative order).
 */
module StableSorting {
  import opened Nodes

  /** Ascending by frequency: no node is `Less` than a node before it. */
  ghost predicate Sorted(s: seq<Node>) {
    forall i, j :: 0 <= i < j < |s| ==> s[i].frequency <= s[j].frequency
  }

  /** Inserts `x` behind the last node of `t` that `x` is not `Less` than. */
  function Insert(t: seq<Node>, x: Node): (r: seq<Node>)
    ensures |r| == |t| + 1
    ensures multiset(r) == multiset(t) + multiset{x}
    decreases |t|
  {
    if t == [] || !Less(x, t[|t| - 1]) then
      t + [x]
    else
      assert t == t[..|t| - 1] + [t[|t| - 1]];
      Insert(t[..|t| - 1], x) + [t[|t| - 1]]
  }

  lemma {:induction false} InsertKeepsSorted(t: seq<Node>, x: Node)
    requires Sorted(t)
    ensures Sorted(Insert(t, x))
    decreases |t|
  {
    if t == [] || !Less(x, t[|t| - 1]) {
      PlacedLast(t, x);
      SortedSnoc(t, x);
    } else {
      var t', y := t[..|t| - 1], t[|t| - 1];
      SortedPrefix(t);
      InsertKeepsSorted(t', x);
      var r' := Insert(t', x);
      forall i | 0 <= i < |r'| ensures r'[i].frequency <= y.frequency {
        assert r'[i] in multiset(r');
        if r'[i] != x {
          assert r'[i] in t';
        }
      }
      SortedSnoc(r', y);
    }
  }

  /** Appending a node whose frequency is at least every other keeps a list sorted. */
  lemma SortedSnoc(r: seq<Node>, y: Node)
    requires Sorted(r)
    requires forall i :: 0 <= i < |r| ==> r[i].frequency <= y.frequency
    ensures Sorted(r + [y])
  {
    var s := r + [y];
    forall i, j | 0 <= i < j < |s| ensures s[i].frequency <= s[j].frequency {
      if j < |r| {
        assert s[i] == r[i] && s[j] == r[j];
      } else {
        assert s[i] == r[i];
      }
    }
  }

  /**
   `sorted`: each node, in list order, is inserted into the sorted list of
   the nodes before it. The result is a permutation of the input; that it
   is sorted is `StableSortSorts`.
   */
  function StableSort(s: seq<Node>): (r: seq<Node>)
    ensures |r| == |s|
    ensures multiset(r) == multiset(s)
    decreases |s|
  {
    if s == [] then []
    else
      assert s == s[..|s| - 1] + [s[|s| - 1]];
      Insert(StableSort(s[..|s| - 1]), s[|s| - 1])
  }

  /** `sorted` returns its input ascending by frequency. */
  lemma {:induction false} StableSortSorts(s: seq<Node>)
    ensures Sorted(StableSort(s))
    decreases |s|
  {
    if s != [] {
      StableSortSorts(s[..|s| - 1]);
      InsertKeepsSorted(StableSort(s[..|s| - 1]), s[|s| - 1]);
    }
  }

  /** The nodes of `s` whose frequency is `f`, in their order in `s`. */
  function WithFrequency(s: seq<Node>, f: nat): seq<Node>
    decreases |s|
  {
    if s == [] then []
    else WithFrequency(s[..|s| - 1], f) + (if s[|s| - 1].frequency == f then [s[|s| - 1]] else [])
  }

  lemma {:induction false} WithFrequencyAppend(a: seq<Node>, b: seq<Node>, f: nat)
    ensures WithFrequency(a + b, f) == WithFrequency(a, f) + WithFrequency(b, f)
    decreases |b|
  {
    if b == [] {
      assert a + b == a;
    } else {
      var b' := b[..|b| - 1];
      assert (a + b)[..|a + b| - 1] == a + b';
      WithFrequencyAppend(a, b', f);
    }
  }

  /** The nodes of frequency `f` in a one-node list. */
  lemma WithFrequencySingle(x: Node, f: nat)
    ensures WithFrequency([x], f) == if x.frequency == f then [x] else []
  {
    assert [x][..0] == [];
  }

  /** Inserting `x` keeps the order among the nodes of every frequency and puts `x` last among its own. */
  lemma {:induction false} InsertStable(t: seq<Node>, x: Node, f: nat)
    ensures WithFrequency(Insert(t, x), f) == WithFrequency(t, f) + WithFrequency([x], f)
    decreases |t|
  {
    if t == [] || !Less(x, t[|t| - 1]) {
      WithFrequencyAppend(t, [x], f);
    } else {
      var t', y := t[..|t| - 1], t[|t| - 1];
      assert t == t' + [y];
      var before, mine, last := WithFrequency(t', f), WithFrequency([x], f), WithFrequency([y], f);
      calc {
        WithFrequency(Insert(t, x), f);
        WithFrequency(Insert(t', x) + [y], f);
        { WithFrequencyAppend(Insert(t', x), [y], f); }
        WithFrequency(Insert(t', x), f) + last;
        { InsertStable(t', x, f); }
        before + mine + last;
        { WithFrequencySingle(x, f); WithFrequencySingle(y, f); SwapDisjoint(before, mine, last); }
        before + last + mine;
        { WithFrequencyAppend(t', [y], f); }
        WithFrequency(t, f) + mine;
      }
    }
  }

  /** Two parts of which one is empty can be swapped. */
  lemma SwapDisjoint(a: seq<Node>, b: seq<Node>, c: seq<Node>)
    requires b == [] || c == []
    ensures a + b + c == a + c + b
  {
    if b == [] {
      assert a + b == a && a + c + b == a + c;
    } else {
      assert a + c == a && a + b + c == a + b;
    }
  }

  /** Stability: sorting keeps the relative order of the nodes of each frequency. */
  lemma {:induction false} StableSortIsStable(s: seq<Node>, f: nat)
    ensures WithFrequency(StableSort(s), f) == WithFrequency(s, f)
    decreases |s|
  {
    if s != [] {
      var s' := s[..|s| - 1];
      StableSortIsStable(s', f);
      InsertStable(StableSort(s'), s[|s| - 1], f);
      WithFrequencySingle(s[|s| - 1], f);
    }
  }

  /** Sorting a list that is already sorted leaves it as it is. */
  lemma {:induction false} StableSortOfSorted(s: seq<Node>)
    requires Sorted(s)
    ensures StableSort(s) == s
    decreases |s|
  {
    if s != [] {
      var s', last := s[..|s| - 1], s[|s| - 1];
      assert StableSort(s') == s' by {
        SortedPrefix(s);
        StableSortOfSorted(s');
      }
      assert Insert(s', last) == s' + [last] by {
        if s' != [] {
          assert s'[|s'| - 1].frequency <= last.frequency;
        }
      }
      assert s' + [last] == s;
    }
  }

  /**
   `r` is `t` with `x` placed at index `k`, behind every node whose frequency
   is at most `x`'s and in front of every node of greater frequency.
   */
  ghost predicate PlacedAt(t: seq<Node>, x: Node, r: seq<Node>, k: int) {
    && 0 <= k <= |t|
    && r == t[..k] + [x] + t[k..]
    && (forall i :: 0 <= i < k ==> t[i].frequency <= x.frequency)
    && (forall i :: k <= i < |t| ==> x.frequency < t[i].frequency)
  }

  /**
   Appending `x` to a sorted list and re-sorting it, as the tree builder does
   with each new parent, puts `x` behind every node whose frequency is at most
   its own and in front of every node of greater frequency; the other nodes
   keep their order.
   */
  lemma {:induction false} ResortAfterAppend(t: seq<Node>, x: Node)
    requires Sorted(t)
    ensures exists k :: PlacedAt(t, x, StableSort(t + [x]), k)
  {
    assert (t + [x])[..|t|] == t;
    StableSortOfSorted(t);
    assert StableSort(t + [x]) == Insert(t, x);
    var k := InsertPosition(t, x);
    assert PlacedAt(t, x, StableSort(t + [x]), k);
  }

  lemma {:induction false} InsertPosition(t: seq<Node>, x: Node) returns (k: int)
    requires Sorted(t)
    ensures PlacedAt(t, x, Insert(t, x), k)
    decreases |t|
  {
    if t == [] || !Less(x, t[|t| - 1]) {
      k := |t|;
      PlacedLast(t, x);
    } else {
      var t', y := t[..|t| - 1], t[|t| - 1];
      SortedPrefix(t);
      k := InsertPosition(t', x);
      PlacedBeforeLast(t', x, Insert(t', x), y, k);
      assert t == t' + [y];
    }
  }

  /** Dropping the last node keeps a list sorted. */
  lemma SortedPrefix(t: seq<Node>)
    requires Sorted(t) && t != []
    ensures Sorted(t[..|t| - 1])
  {
    var t' := t[..|t| - 1];
    forall i, j | 0 <= i < j < |t'| ensures t'[i].frequency <= t'[j].frequency {
      assert t'[i] == t[i] && t'[j] == t[j];
    }
  }

  /** A node not less than the last node of a sorted list is placed at its end. */
  lemma PlacedLast(t: seq<Node>, x: Node)
    requires Sorted(t)
    requires t == [] || !Less(x, t[|t| - 1])
    ensures PlacedAt(t, x, t + [x], |t|)
  {
    assert t[..|t|] == t && t[|t|..] == [];
    forall i | 0 <= i < |t| ensures t[i].frequency <= x.frequency {
      assert t[i].frequency <= t[|t| - 1].frequency;
    }
  }

  /** A placement in `t'` stays a placement when a node of greater frequency is appended behind both. */
  lemma PlacedBeforeLast(t': seq<Node>, x: Node, r': seq<Node>, y: Node, k: int)
    requires PlacedAt(t', x, r', k) && Less(x, y)
    ensures PlacedAt(t' + [y], x, r' + [y], k)
  {
    var t := t' + [y];
    assert t[..k] == t'[..k];
    assert t[k..] == t'[k..] + [y];
    forall i | 0 <= i < k ensures t[i].frequency <= x.frequency {
      assert t[i] == t'[i];
    }
    forall i | k <= i < |t| ensures x.frequency < t[i].frequency {
      if i < |t'| {
        assert t[i] == t'[i];
      }
    }
  }
}
