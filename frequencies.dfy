/**
 The character frequency table that `HuffmanTree.constructTree` fills in a
 `defaultdict(int)` before building any node.

 A Python dict remembers the order in which its keys were first inserted, and
 the tree builder depends on that order to break ties between characters of
 equal frequency. A Dafny map has no order, so the table is a map of counts
 together with the sequence of its keys in insertion order.
 */
module Frequencies {

  /** How often `c` occurs in `s`: the reference the counting loop is proved against. */
  function Count(s: seq<char>, c: char): nat {
    multiset(s)[c]
  }

  /** No character occurs twice in `s`. */
  ghost predicate NoDup(s: seq<char>) {
    forall c :: multiset(s)[c] <= 1
  }

  /** The distinct characters of `s`, in the order of their first occurrence. */
  function Distinct(s: seq<char>): (r: seq<char>)
    ensures forall c :: c in r <==> c in s
    decreases |s|
  {
    if s == [] then []
    else
      var t, c := s[..|s| - 1], s[|s| - 1];
      assert s == t + [c];
      Distinct(t) + if c in t then [] else [c]
  }

  /** No character is listed twice by `Distinct`. */
  lemma {:induction false} DistinctNoDup(s: seq<char>)
    ensures NoDup(Distinct(s))
    decreases |s|
  {
    if s != [] {
      var t, c := s[..|s| - 1], s[|s| - 1];
      DistinctNoDup(t);
      if c !in t {
        assert c !in multiset(Distinct(t));
      }
    }
  }

  /** The sum of the counts in `text` of the characters listed in `keys`. */
  function SumCounts(keys: seq<char>, text: seq<char>): nat
    decreases |keys|
  {
    if keys == [] then 0
    else SumCounts(keys[..|keys| - 1], text) + Count(text, keys[|keys| - 1])
  }

  /** One more character `c` of text adds one to the sum once for each time `c` is listed. */
  lemma {:induction false} SumCountsSnoc(keys: seq<char>, text: seq<char>, c: char)
    ensures SumCounts(keys, text + [c]) == SumCounts(keys, text) + Count(keys, c)
    decreases |keys|
  {
    if keys != [] {
      var k := keys[..|keys| - 1];
      SumCountsSnoc(k, text, c);
      assert keys == k + [keys[|keys| - 1]];
    }
  }

  /** The counts of the distinct characters of `text` sum to its length. */
  lemma {:induction false} CountsSumToLength(text: seq<char>)
    ensures SumCounts(Distinct(text), text) == |text|
    decreases |text|
  {
    if text != [] {
      var t, c := text[..|text| - 1], text[|text| - 1];
      assert text == t + [c];
      var d := Distinct(t);
      CountsSumToLength(t);
      DistinctNoDup(t);
      DistinctSnoc(t, c);
      SumCountsSnoc(d, t, c);
      assert SumCounts(d, text) == |t| + Count(d, c);
      if c in t {
        assert Distinct(text) == d by {
          assert d + [] == d;
        }
        assert c in multiset(d);
        assert Count(d, c) == 1;
      } else {
        assert Distinct(text) == d + [c];
        assert Count(d, c) == 0 by {
          assert c !in multiset(d);
        }
        assert Count(text, c) == 1 by {
          assert c !in multiset(t);
          CountSnoc(t, c, c);
        }
        SumCountsSnocKey(d, c, text);
      }
    }
  }

  /** Listing one more key adds its count to the sum. */
  lemma SumCountsSnocKey(keys: seq<char>, c: char, text: seq<char>)
    ensures SumCounts(keys + [c], text) == SumCounts(keys, text) + Count(text, c)
  {
    assert (keys + [c])[..|keys|] == keys;
  }

  /** One more character adds it to the distinct characters unless it was already there. */
  lemma DistinctSnoc(s: seq<char>, c: char)
    ensures Distinct(s + [c]) == Distinct(s) + if c in s then [] else [c]
  {
    assert (s + [c])[..|s|] == s;
  }

  /**
   `order` and `freq` are the frequency table of `s`: the keys in insertion
   order, and a map from exactly the characters of `s` to their counts.
   */
  ghost predicate TableOf(order: seq<char>, freq: map<char, nat>, s: seq<char>) {
    && order == Distinct(s)
    && (forall c :: c in freq <==> c in s)
    && (forall c :: c in freq ==> freq[c] == Count(s, c))
  }

  /** Counting one more occurrence of a character that is already a key increments its count. */
  lemma TableSnocKnown(order: seq<char>, freq: map<char, nat>, s: seq<char>, c: char)
    requires TableOf(order, freq, s) && c in freq
    ensures TableOf(order, freq[c := freq[c] + 1], s + [c])
  {
    DistinctSnoc(s, c);
    KeysSnoc(freq, s, c, freq[c] + 1);
    CountsSnoc(freq, s, c, freq[c] + 1);
  }

  /** Counting a character that is not yet a key appends it to the keys with count 1. */
  lemma TableSnocNew(order: seq<char>, freq: map<char, nat>, s: seq<char>, c: char)
    requires TableOf(order, freq, s) && c !in freq
    ensures TableOf(order + [c], freq[c := 1], s + [c])
  {
    DistinctSnoc(s, c);
    KeysSnoc(freq, s, c, 1);
    assert Count(s, c) == 0 by {
      assert c !in multiset(s);
    }
    CountsSnoc(freq, s, c, 1);
  }

  /** Adding `c` as a key keeps the keys those of the counted text. */
  lemma KeysSnoc(freq: map<char, nat>, s: seq<char>, c: char, v: nat)
    requires forall d :: d in freq <==> d in s
    ensures forall d :: d in freq[c := v] <==> d in s + [c]
  {
    forall d ensures d in freq[c := v] <==> d in s + [c] {
      assert d in s + [c] <==> d in s || d == c;
    }
  }

  /** Setting the count of `c` to one more than its count in `s` keeps every count exact for `s + [c]`. */
  lemma CountsSnoc(freq: map<char, nat>, s: seq<char>, c: char, v: nat)
    requires forall d :: d in freq ==> freq[d] == Count(s, d)
    requires v == Count(s, c) + 1
    ensures forall d :: d in freq[c := v] ==> freq[c := v][d] == Count(s + [c], d)
  {
    forall d | d in freq[c := v] ensures freq[c := v][d] == Count(s + [c], d) {
      CountSnoc(s, c, d);
    }
  }

  /** One more character `c` adds one to the count of `c` and leaves the other counts. */
  lemma CountSnoc(s: seq<char>, c: char, d: char)
    ensures Count(s + [c], d) == Count(s, d) + if d == c then 1 else 0
  {
    assert multiset(s + [c]) == multiset(s) + multiset{c};
  }

  /**
   The counting loop of `constructTree`. It returns the table's keys in the
   order they were inserted and the table itself: every character of `text`
   is a key, no other character is, each key maps to its exact count, and so
   every count is positive.
   */
  method CountFrequencies(text: seq<char>) returns (order: seq<char>, freq: map<char, nat>)
    ensures order == Distinct(text)
    ensures forall c :: c in freq <==> c in text
    ensures forall c :: c in freq ==> freq[c] == Count(text, c) && freq[c] > 0
  {
    order, freq := [], map[];
    for i := 0 to |text|
      invariant TableOf(order, freq, text[..i])
    {
      var c := text[i];
      assert text[..i + 1] == text[..i] + [c];
      if c in freq {
        TableSnocKnown(order, freq, text[..i], c);
        freq := freq[c := freq[c] + 1];
      } else {
        TableSnocNew(order, freq, text[..i], c);
        order := order + [c];
        freq := freq[c := 1];
      }
    }
    assert text[..|text|] == text;
    forall c | c in freq ensures freq[c] > 0 {
      assert c in multiset(text);
    }
  }
}
