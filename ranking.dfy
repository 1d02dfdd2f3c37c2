/**
 * The ranking step of the word counter: the ascending counting-sort result is
 * reversed, cut to the requested number of items and mapped to its words
 * (`Reverse`, `Take` and `Select` of LINQ, evaluated eagerly).
 */
module Ranking {
  import opened CharClass
  import opened Sorting

  /** `Enumerable.Reverse`. */
  function Reverse<T>(s: seq<T>): (r: seq<T>)
    ensures |r| == |s|
  {
    if s == [] then [] else [s[|s| - 1]] + Reverse(s[..|s| - 1])
  }

  /** `Enumerable.Take`: the first `n` elements, all of them when there are fewer,
      none when `n` is not positive. */
  function Take<T>(s: seq<T>, n: int): (r: seq<T>)
    ensures r <= s
    ensures |r| == if n <= 0 then 0 else if n < |s| then n else |s|
  {
    if n <= 0 then [] else if n < |s| then s[..n] else s
  }

  /** `Select(s => s.Word)`. */
  function SelectWords(s: seq<WordCountPair>): (r: seq<Text>)
    ensures |r| == |s|
    ensures forall i :: 0 <= i < |s| ==> r[i] == s[i].word
  {
    seq(|s|, i requires 0 <= i < |s| => s[i].word)
  }

  /** The pairs that are reported: the last `numWords` of the ascending sort,
      highest key first. */
  function TopPairs(sorted: seq<WordCountPair>, numWords: int): (r: seq<WordCountPair>)
    ensures |r| == if numWords <= 0 then 0 else if numWords < |sorted| then numWords else |sorted|
    ensures forall i :: 0 <= i < |r| ==> r[i] == sorted[|sorted| - 1 - i]
  {
    ReverseIndex(sorted);
    Take(Reverse(sorted), numWords)
  }

  /** The reported words. */
  function Rank(sorted: seq<WordCountPair>, numWords: int): (r: seq<Text>)
    ensures |r| == if numWords <= 0 then 0 else if numWords < |sorted| then numWords else |sorted|
    ensures forall i :: 0 <= i < |r| ==> r[i] == sorted[|sorted| - 1 - i].word
  {
    SelectWords(TopPairs(sorted, numWords))
  }

  /** Descending by key. */
  ghost predicate DescendingByKey(s: seq<WordCountPair>) {
    forall i, j :: 0 <= i < j < |s| ==> s[i].key >= s[j].key
  }

  // ---------------------------------------------------------------------------
  // Reverse

  /** Reversing maps position `i` to position `|s| - 1 - i`. */
  lemma {:induction false} ReverseIndex<T>(s: seq<T>)
    ensures forall i :: 0 <= i < |s| ==> Reverse(s)[i] == s[|s| - 1 - i]
    decreases |s|
  {
    if s != [] {
      var p := s[..|s| - 1];
      ReverseIndex(p);
      var rp := Reverse(p);
      var r := [s[|s| - 1]] + rp;
      assert Reverse(s) == r;
      forall i | 0 <= i < |s| ensures r[i] == s[|s| - 1 - i] {
        if i > 0 {
          assert r[i] == rp[i - 1] == p[|p| - 1 - (i - 1)];
        }
      }
    }
  }

  /** Reversing a concatenation reverses and swaps its parts. */
  lemma ReverseAppend<T>(a: seq<T>, b: seq<T>)
    ensures Reverse(a + b) == Reverse(b) + Reverse(a)
  {
    ReverseIndex(a);
    ReverseIndex(b);
    ReverseIndex(a + b);
    var ab := a + b;
    var lhs, rhs := Reverse(ab), Reverse(b) + Reverse(a);
    forall i | 0 <= i < |lhs| ensures lhs[i] == rhs[i] {
      if i < |b| {
        assert lhs[i] == ab[|ab| - 1 - i] == b[|b| - 1 - i];
      } else {
        assert lhs[i] == ab[|ab| - 1 - i] == a[|a| - 1 - (i - |b|)];
      }
    }
  }

  /** Reversing keeps every element and its multiplicity. */
  lemma {:induction false} ReverseMultiset<T>(s: seq<T>)
    ensures multiset(Reverse(s)) == multiset(s)
    decreases |s|
  {
    if s != [] {
      var p := s[..|s| - 1];
      ReverseMultiset(p);
      assert s == p + [s[|s| - 1]];
    }
  }

  /** The reverse of an ascending sequence is descending. */
  lemma ReverseDescending(s: seq<WordCountPair>)
    requires SortedByKey(s)
    ensures DescendingByKey(Reverse(s))
  {
    ReverseIndex(s);
  }

  /** The pairs of key `k` in a reversed sequence are those of the sequence, reversed. */
  lemma {:induction false} FilterReverse(s: seq<WordCountPair>, k: int)
    ensures Filter(Reverse(s), k) == Reverse(Filter(s, k))
    decreases |s|
  {
    if s != [] {
      var p, x := s[..|s| - 1], s[|s| - 1];
      var f := if x.key == k then [x] else [];
      FilterReverse(p, k);
      FilterAppend([x], Reverse(p), k);
      assert Filter([x], k) == f by {
        assert [x][..0] == [];
      }
      ReverseAppend(Filter(p, k), f);
      assert Reverse(f) == f;
    }
  }

  // ---------------------------------------------------------------------------
  // What is reported

  /** The reversed sort is descending and holds the input's pairs. */
  lemma ReversedSort(s: seq<WordCountPair>, n: nat)
    requires KeysInRange(s, n)
    ensures var r := Reverse(Layout(s, n));
            && |r| == |s|
            && DescendingByKey(r)
            && multiset(r) == multiset(s)
  {
    LayoutLength(s, n);
    LayoutSorted(s, n);
    LayoutPermutation(s, n);
    ReverseDescending(Layout(s, n));
    ReverseMultiset(Layout(s, n));
  }

  /** As many pairs are reported as asked for, or all of them when there are
      fewer; they come highest key first and are drawn from the input. */
  lemma TopPairsShape(s: seq<WordCountPair>, n: nat, numWords: int)
    requires KeysInRange(s, n) && numWords > 0
    ensures var top := TopPairs(Layout(s, n), numWords);
            && |top| == (if numWords < |s| then numWords else |s|)
            && DescendingByKey(top)
            && multiset(top) <= multiset(s)
  {
    ReversedSort(s, n);
    var r := Reverse(Layout(s, n));
    var top := Take(r, numWords);
    var rest := r[|top|..];
    assert r == top + rest;
    assert multiset(r) == multiset(top) + multiset(rest);
  }

  /** Every input pair that is left out has a key no higher than any reported one. */
  lemma TopPairsBest(s: seq<WordCountPair>, n: nat, numWords: int)
    requires KeysInRange(s, n) && numWords > 0
    ensures var top := TopPairs(Layout(s, n), numWords);
            forall p, q :: p in s && p !in top && q in top ==> p.key <= q.key
  {
    ReversedSort(s, n);
    var r := Reverse(Layout(s, n));
    var top := Take(r, numWords);
    forall p, q | p in s && p !in top && q in top ensures p.key <= q.key {
      assert p in multiset(r);
      var j :| 0 <= j < |r| && r[j] == p;
      var i :| 0 <= i < |top| && top[i] == q;
    }
  }

  /** Among pairs with equal keys, the reported ones are the last such pairs of
      the input, last first. */
  lemma TopPairsTies(s: seq<WordCountPair>, n: nat, numWords: int)
    requires KeysInRange(s, n)
    ensures var top := TopPairs(Layout(s, n), numWords);
            forall k :: Filter(top, k) <= Reverse(Filter(s, k))
  {
    var sorted := Layout(s, n);
    LayoutStableInRange(s, n);
    var r := Reverse(sorted);
    var top := Take(r, numWords);
    var rest := r[|top|..];
    assert r == top + rest;
    forall k ensures Filter(top, k) <= Reverse(Filter(s, k)) {
      FilterAppend(top, rest, k);
      FilterReverse(sorted, k);
    }
  }

  // ---------------------------------------------------------------------------
  // Distinct pairs

  /** No element occurs twice. */
  ghost predicate Distinct<T>(s: seq<T>) {
    forall i, j :: 0 <= i < j < |s| ==> s[i] != s[j]
  }

  /** In a sequence without repetitions every element occurs at most once. */
  lemma {:induction false} DistinctMultiset<T>(s: seq<T>)
    requires Distinct(s)
    ensures forall x :: multiset(s)[x] <= 1
    decreases |s|
  {
    if s != [] {
      var p, y := s[..|s| - 1], s[|s| - 1];
      assert Distinct(p);
      DistinctMultiset(p);
      assert s == p + [y];
      assert y !in p;
    }
  }

  /** An element found at two positions occurs at least twice. */
  lemma TwiceInMultiset<T>(t: seq<T>, i: nat, j: nat)
    requires i < j < |t| && t[i] == t[j]
    ensures multiset(t)[t[i]] >= 2
  {
    assert t == t[..i] + [t[i]] + t[i + 1..j] + [t[j]] + t[j + 1..];
  }

  /** Distinct input pairs are reported at most once each. */
  lemma TopPairsDistinct(s: seq<WordCountPair>, n: nat, numWords: int)
    requires KeysInRange(s, n) && numWords > 0 && Distinct(s)
    ensures Distinct(TopPairs(Layout(s, n), numWords))
  {
    var top := TopPairs(Layout(s, n), numWords);
    TopPairsShape(s, n, numWords);
    DistinctMultiset(s);
    forall i, j | 0 <= i < j < |top| ensures top[i] != top[j] {
      if top[i] == top[j] {
        TwiceInMultiset(top, i, j);
        assert false;
      }
    }
  }

  /** The group of a sequence without repetitions has none either. */
  lemma {:induction false} FilterDistinct(s: seq<WordCountPair>, k: int)
    requires Distinct(s)
    ensures Distinct(Filter(s, k))
    decreases |s|
  {
    if s != [] {
      var p, y := s[..|s| - 1], s[|s| - 1];
      assert Distinct(p);
      FilterDistinct(p, k);
      FilterKeys(p, k);
      assert y !in p;
    }
  }

  /** A later pair of the input with the key of a reported pair is reported
      before it: reported pairs of equal key come latest first, and a pair of
      that key is left out only when it came before all the reported ones. */
  lemma TopPairsLatestFirst(s: seq<WordCountPair>, n: nat, numWords: int)
    requires KeysInRange(s, n) && Distinct(s)
    ensures var top := TopPairs(Layout(s, n), numWords);
            forall i, a, b :: 0 <= i < |top| && 0 <= a < b < |s| && top[i] == s[a] && s[b].key == s[a].key ==>
              s[b] in top[..i]
  {
    var top := TopPairs(Layout(s, n), numWords);
    forall i, a, b | 0 <= i < |top| && 0 <= a < b < |s| && top[i] == s[a] && s[b].key == s[a].key
      ensures s[b] in top[..i]
    {
      LatestFirstAt(s, n, numWords, i, a, b);
    }
  }

  lemma LatestFirstAt(s: seq<WordCountPair>, n: nat, numWords: int, i: nat, a: nat, b: nat)
    requires KeysInRange(s, n) && Distinct(s)
    requires var top := TopPairs(Layout(s, n), numWords);
             i < |top| && a < b < |s| && top[i] == s[a] && s[b].key == s[a].key
    ensures s[b] in TopPairs(Layout(s, n), numWords)[..i]
  {
    var top := TopPairs(Layout(s, n), numWords);
    var k := s[a].key;
    var f := Filter(s, k);
    var ft := Filter(top, k);
    var x := |Filter(top[..i], k)|;
    FilterAt(top, i);
    TopPairsTies(s, n, numWords);
    var ya, yb := GroupPositions(s, a, b);
    FilterDistinct(s, k);
    var z := ReversedEarlier(f, ft, x, ya, yb);
    PrefixGroup(top, i, k, z);
  }

  /** The pairs at `a < b` of equal key sit at group positions `ya < yb`. */
  lemma GroupPositions(s: seq<WordCountPair>, a: nat, b: nat) returns (ya: nat, yb: nat)
    requires a < b < |s| && s[b].key == s[a].key
    ensures var f := Filter(s, s[a].key);
            ya < yb < |f| && f[ya] == s[a] && f[yb] == s[b]
  {
    var k := s[a].key;
    ya, yb := |Filter(s[..a], k)|, |Filter(s[..b], k)|;
    FilterAt(s, a);
    FilterAt(s, b);
    FilterPrefixBound(s[..b]);
    assert s[..b][..a + 1] == s[..a + 1];
    FilterSnoc(s, a);
  }

  /** Within a prefix `ft` of the reverse of a sequence `f` without repetitions,
      the element at position `yb` of `f` comes before the one at `ya < yb`. */
  lemma ReversedEarlier(f: seq<WordCountPair>, ft: seq<WordCountPair>, x: nat, ya: nat, yb: nat)
    returns (z: nat)
    requires Distinct(f) && ft <= Reverse(f)
    requires x < |ft| && ya < yb < |f| && ft[x] == f[ya]
    ensures z < x && ft[z] == f[yb]
  {
    ReverseIndex(f);
    var m := |f|;
    assert ft[x] == f[m - 1 - x];
    assert m - 1 - x == ya;
    z := m - 1 - yb;
  }

  /** An element of `t`'s group of key `k` that comes before position
      `|Filter(t[..i], k)|` of the group lies in `t[..i]`. */
  lemma PrefixGroup(t: seq<WordCountPair>, i: nat, k: int, z: nat)
    requires i <= |t| && z < |Filter(t[..i], k)| && z < |Filter(t, k)|
    ensures Filter(t, k)[z] in t[..i]
  {
    assert t == t[..i] + t[i..];
    FilterAppend(t[..i], t[i..], k);
    FilterKeys(t[..i], k);
    assert Filter(t, k)[z] == Filter(t[..i], k)[z];
  }
}
