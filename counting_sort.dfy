/**
 * The counting sort of the word counter, keyed on each word's count.
 *
 * The reference definition `Layout(s, k)` lists the pairs of `s` with keys below
 * `k`, key by key in ascending order, each key's pairs in their order in `s`: the
 * stable ascending sort. `CountingSort` builds it with a histogram pass, a
 * prefix-sum pass and a placement pass over arrays.
 */
module Sorting {
  import opened CharClass

  /** A word with its count as the sort key. */
  datatype WordCountPair = WordCountPair(key: int, word: Text)

  /** The pairs of `s` whose key is `k`, in their order in `s`. */
  function Filter(s: seq<WordCountPair>, k: int): seq<WordCountPair> {
    if s == [] then []
    else Filter(s[..|s| - 1], k) + (if s[|s| - 1].key == k then [s[|s| - 1]] else [])
  }

  /** The pairs of `s` with keys in `[0, k)`, grouped by ascending key, each group
      in its order in `s`. */
  function Layout(s: seq<WordCountPair>, k: nat): seq<WordCountPair> {
    if k == 0 then [] else Layout(s, k - 1) + Filter(s, k - 1)
  }

  /** Where the block of key `k` starts: the number of pairs with keys in `[0, k)`. */
  ghost function Start(s: seq<WordCountPair>, k: nat): nat {
    if k == 0 then 0 else Start(s, k - 1) + |Filter(s, k - 1)|
  }

  /** The pairs of `s` whose key lies in `[0, k)`, in their order in `s`. */
  function Below(s: seq<WordCountPair>, k: int): seq<WordCountPair> {
    if s == [] then []
    else Below(s[..|s| - 1], k) + (if 0 <= s[|s| - 1].key < k then [s[|s| - 1]] else [])
  }

  /** Every key indexes an array of length `n`. */
  predicate KeysInRange(s: seq<WordCountPair>, n: int) {
    forall i :: 0 <= i < |s| ==> 0 <= s[i].key < n
  }

  /** Ascending by key. */
  ghost predicate SortedByKey(s: seq<WordCountPair>) {
    forall i, j :: 0 <= i < j < |s| ==> s[i].key <= s[j].key
  }

  /** The histogram after `i` pairs: `counts[k]` is how many of them have key `k`. */
  ghost predicate Histogram(input: seq<WordCountPair>, i: nat, counts: seq<int>)
    requires i <= |input|
  {
    forall k :: 0 <= k < |counts| ==> counts[k] == |Filter(input[..i], k)|
  }

  /** The prefix-sum pass after `i` slots: below `i`, `counts[k]` is the number of
      pairs with keys in `[0, k)`; from `i` on it is still the histogram. */
  ghost predicate PrefixSums(input: seq<WordCountPair>, i: nat, counts: seq<int>) {
    && (forall k :: 0 <= k < i && k < |counts| ==> counts[k] == Start(input, k))
    && (forall k :: i <= k < |counts| ==> counts[k] == |Filter(input, k)|)
  }

  /** The placement pass after `i` pairs: `counts[k]` is the next free slot of
      key `k`'s block, just past the pairs of key `k` among the first `i`. */
  ghost predicate Cursors(input: seq<WordCountPair>, i: nat, counts: seq<int>)
    requires i <= |input|
  {
    forall k :: 0 <= k < |counts| ==> counts[k] == Start(input, k) + |Filter(input[..i], k)|
  }

  /** The slots of key `k`'s block below `cursor` hold that key's pairs, in order. */
  ghost predicate BlockFilled(input: seq<WordCountPair>, k: nat, cursor: int, output: seq<WordCountPair>) {
    && (Start(input, k) < cursor ==>
          0 <= Start(input, k) && cursor <= |output| && cursor - Start(input, k) <= |Filter(input, k)|)
    && forall pos :: Start(input, k) <= pos < cursor ==> output[pos] == Filter(input, k)[pos - Start(input, k)]
  }

  /** Key `k`'s block is filled to its end. */
  ghost predicate BlockFull(input: seq<WordCountPair>, k: nat, output: seq<WordCountPair>) {
    BlockFilled(input, k, Start(input, k + 1), output)
  }

  /** Every block is filled up to its cursor. */
  ghost predicate Placed(input: seq<WordCountPair>, counts: seq<int>, output: seq<WordCountPair>) {
    forall k :: 0 <= k < |counts| ==> BlockFilled(input, k, counts[k], output)
  }

  /** Sorts `input` by key into a new list, stably. The keys must index the count
      array, which has `totalNumItems` slots. */
  method CountingSort(input: seq<WordCountPair>, totalNumItems: nat) returns (sorted: seq<WordCountPair>)
    requires KeysInRange(input, totalNumItems)
    ensures sorted == Layout(input, totalNumItems)
    ensures |sorted| == |input| && multiset(sorted) == multiset(input)
    ensures SortedByKey(sorted)
    ensures forall k :: Filter(sorted, k) == Filter(input, k)
  {
    var n := |input|;
    var count := new int[totalNumItems](_ => 0);
    assert count[..] == seq(totalNumItems, _ => 0);
    CountKeys(input, count);
    var total := PrefixSum(input, count);
    var output := new WordCountPair[n](_ => WordCountPair(0, []));
    PlacePairs(input, count, output);
    sorted := output[..];
    Finish(sorted, input, count[..]);
  }

  /** The histogram pass: `count[k]` becomes the number of pairs with key `k`. */
  method CountKeys(input: seq<WordCountPair>, count: array<int>)
    requires KeysInRange(input, count.Length)
    requires forall k :: 0 <= k < count.Length ==> count[k] == 0
    modifies count
    ensures forall k :: 0 <= k < count.Length ==> count[k] == |Filter(input, k)|
  {
    assert input[..0] == [];
    for i := 0 to |input|
      invariant Histogram(input, i, count[..])
    {
      var val := input[i];
      ghost var before := count[..];
      HistogramStep(input, i, before);
      count[val.key] := count[val.key] + 1;
      assert count[..] == before[val.key := before[val.key] + 1];
    }
    assert input[..|input|] == input;
  }

  /** The prefix-sum pass: `count[k]` becomes the start of key `k`'s block, the
      number of pairs with keys below `k`; the running total ends as the number
      of pairs with keys below `count.Length`, which is all of them when every
      key is in range. */
  method PrefixSum(input: seq<WordCountPair>, count: array<int>) returns (total: int)
    requires forall k :: 0 <= k < count.Length ==> count[k] == |Filter(input, k)|
    modifies count
    ensures total == Start(input, count.Length)
    ensures KeysInRange(input, count.Length) ==> total == |input|
    ensures forall k :: 0 <= k < count.Length ==> count[k] == Start(input, k)
  {
    total := 0;
    for i := 0 to count.Length
      invariant total == Start(input, i)
      invariant PrefixSums(input, i, count[..])
    {
      var oldCount := count[i];
      ghost var before := count[..];
      PrefixStep(input, i, before);
      count[i] := total;
      total := total + oldCount;
      assert count[..] == before[i := Start(input, i)];
    }
    if KeysInRange(input, count.Length) {
      LayoutLength(input, count.Length);
    }
  }

  /** The placement pass: each pair goes to the next free slot of its key's
      block, and that key's cursor advances; at the end every block is full. */
  method PlacePairs(input: seq<WordCountPair>, count: array<int>, output: array<WordCountPair>)
    requires KeysInRange(input, count.Length) && output.Length == |input|
    requires forall k :: 0 <= k < count.Length ==> count[k] == Start(input, k)
    modifies count, output
    ensures Cursors(input, |input|, count[..]) && Placed(input, count[..], output[..])
  {
    assert input[..0] == [];
    for i := 0 to |input|
      invariant Cursors(input, i, count[..])
      invariant Placed(input, count[..], output[..])
    {
      var j := input[i];
      var currCount := count[j.key];
      ghost var counts, placed := count[..], output[..];
      PlaceStep(input, i, counts, placed);
      output[currCount] := j;
      count[j.key] := currCount + 1;
      assert count[..] == counts[j.key := currCount + 1];
      assert output[..] == placed[currCount := j];
    }
  }

  // ---------------------------------------------------------------------------
  // The three passes, one step at a time.

  lemma HistogramStep(input: seq<WordCountPair>, i: nat, counts: seq<int>)
    requires i < |input| && KeysInRange(input, |counts|)
    requires Histogram(input, i, counts)
    ensures Histogram(input, i + 1, counts[input[i].key := counts[input[i].key] + 1])
  {
    FilterSnoc(input, i);
  }

  lemma PrefixStep(input: seq<WordCountPair>, i: nat, counts: seq<int>)
    requires i < |counts| && PrefixSums(input, i, counts)
    ensures PrefixSums(input, i + 1, counts[i := Start(input, i)])
    ensures Start(input, i) + counts[i] == Start(input, i + 1)
  {
  }

  /** Placing `input[i]` at its key's cursor and advancing that cursor. */
  lemma PlaceStep(input: seq<WordCountPair>, i: nat, counts: seq<int>, output: seq<WordCountPair>)
    requires i < |input| && KeysInRange(input, |counts|) && |output| == |input|
    requires Cursors(input, i, counts) && Placed(input, counts, output)
    ensures var k := input[i].key;
            && 0 <= counts[k] < |output|
            && Cursors(input, i + 1, counts[k := counts[k] + 1])
            && Placed(input, counts[k := counts[k] + 1], output[counts[k] := input[i]])
  {
    var n := |counts|;
    var x := input[i];
    var key := x.key;
    var p := counts[key];
    FilterAt(input, i);
    BlockEnd(input, n, key);
    var counts', output' := counts[key := p + 1], output[p := x];
    FilterSnoc(input, i);
    forall k | 0 <= k < n ensures BlockFilled(input, k, counts'[k], output') {
      if k == key {
        assert BlockFilled(input, k, counts[k], output);
      } else {
        CursorOutside(input, i, counts, k);
        BlockUntouched(input, k, counts[k], output, p, x);
      }
    }
  }

  /** The pair `s[i]` sits in its key's group right after the earlier pairs of
      that key. */
  lemma FilterAt(s: seq<WordCountPair>, i: nat)
    requires i < |s|
    ensures |Filter(s[..i], s[i].key)| < |Filter(s, s[i].key)|
    ensures Filter(s, s[i].key)[|Filter(s[..i], s[i].key)|] == s[i]
  {
    var k := s[i].key;
    FilterSnoc(s, i);
    assert s == s[..i + 1] + s[i + 1..];
    FilterAppend(s[..i + 1], s[i + 1..], k);
  }

  /** A block lies inside the array. */
  lemma BlockEnd(s: seq<WordCountPair>, n: nat, k: int)
    requires KeysInRange(s, n) && 0 <= k < n
    ensures Start(s, k) + |Filter(s, k)| <= |s|
  {
    LayoutLength(s, n);
    LayoutMonotone(s, n);
    if k + 1 < n {
      assert Start(s, k) + |Filter(s, k)| <= Start(s, n);
    }
  }

  /** Writing a slot outside a block's filled part leaves the block filled. */
  lemma BlockUntouched(input: seq<WordCountPair>, k: nat, cursor: int, output: seq<WordCountPair>,
                       p: int, x: WordCountPair)
    requires 0 <= p < |output| && (p < Start(input, k) || cursor <= p)
    requires BlockFilled(input, k, cursor, output)
    ensures BlockFilled(input, k, cursor, output[p := x])
  {
    var output' := output[p := x];
    forall pos | Start(input, k) <= pos < cursor
      ensures output'[pos] == Filter(input, k)[pos - Start(input, k)]
    {
      assert output'[pos] == output[pos];
    }
  }

  /** The cursor of key `input[i].key` lies outside the filled part of every other
      key's block. */
  lemma CursorOutside(input: seq<WordCountPair>, i: nat, counts: seq<int>, k: nat)
    requires i < |input| && KeysInRange(input, |counts|)
    requires Cursors(input, i, counts) && k < |counts| && k != input[i].key
    ensures var p := counts[input[i].key]; p < Start(input, k) || counts[k] <= p
  {
    var key := input[i].key;
    LayoutMonotone(input, |counts|);
    FilterAt(input, i);
    FilterPrefixBound(input);
    assert |Filter(input[..i], k)| <= |Filter(input, k)|;
    if k < key {
      assert Start(input, k) + |Filter(input, k)| <= Start(input, key);
    } else {
      assert Start(input, key) + |Filter(input, key)| <= Start(input, k);
    }
  }

  // ---------------------------------------------------------------------------
  // Filter

  lemma FilterSnoc(s: seq<WordCountPair>, i: nat)
    requires i < |s|
    ensures forall k :: Filter(s[..i + 1], k) == Filter(s[..i], k) + (if s[i].key == k then [s[i]] else [])
  {
    assert s[..i + 1][..i] == s[..i];
  }

  lemma {:induction false} FilterAppend(a: seq<WordCountPair>, b: seq<WordCountPair>, k: int)
    ensures Filter(a + b, k) == Filter(a, k) + Filter(b, k)
    decreases |b|
  {
    if b == [] {
      assert a + b == a;
    } else {
      var b' := b[..|b| - 1];
      assert (a + b)[..|a + b| - 1] == a + b';
      FilterAppend(a, b', k);
    }
  }

  /** A prefix holds at most as many pairs of each key as the whole. */
  lemma FilterPrefixBound(s: seq<WordCountPair>)
    ensures forall i, k :: 0 <= i <= |s| ==> |Filter(s[..i], k)| <= |Filter(s, k)|
  {
    forall i, k | 0 <= i <= |s| ensures |Filter(s[..i], k)| <= |Filter(s, k)| {
      assert s == s[..i] + s[i..];
      FilterAppend(s[..i], s[i..], k);
    }
  }

  /** A group holds only pairs of the input, all with its key. */
  lemma {:induction false} FilterKeys(s: seq<WordCountPair>, k: int)
    ensures forall x :: x in Filter(s, k) ==> x in s && x.key == k
    decreases |s|
  {
    if s != [] {
      var p := s[..|s| - 1];
      FilterKeys(p, k);
      assert forall x :: x in p ==> x in s;
    }
  }

  /** Filtering twice by the same key changes nothing; by two keys leaves nothing. */
  lemma {:induction false} FilterFilter(s: seq<WordCountPair>, j: int, k: int)
    ensures Filter(Filter(s, j), k) == if j == k then Filter(s, j) else []
    decreases |s|
  {
    if s != [] {
      var s' := s[..|s| - 1];
      var tail := if s[|s| - 1].key == j then [s[|s| - 1]] else [];
      FilterFilter(s', j, k);
      FilterAppend(Filter(s', j), tail, k);
      if tail != [] {
        assert tail[..0] == [];
      }
    }
  }

  // ---------------------------------------------------------------------------
  // Layout

  /** The blocks of the layout are laid end to end in key order. */
  lemma {:induction false} LayoutMonotone(s: seq<WordCountPair>, n: nat)
    ensures forall k, k' {:trigger Start(s, k), Start(s, k')} :: 0 <= k < k' <= n ==> Start(s, k) + |Filter(s, k)| <= Start(s, k')
    decreases n
  {
    if n > 0 {
      LayoutMonotone(s, n - 1);
      assert Start(s, n) == Start(s, n - 1) + |Filter(s, n - 1)|;
    }
  }

  lemma {:induction false} BelowStep(s: seq<WordCountPair>, k: nat)
    ensures multiset(Below(s, k + 1)) == multiset(Below(s, k)) + multiset(Filter(s, k))
    decreases |s|
  {
    if s != [] {
      BelowStep(s[..|s| - 1], k);
    }
  }

  lemma {:induction false} BelowAll(s: seq<WordCountPair>, n: int)
    requires KeysInRange(s, n)
    ensures Below(s, n) == s
    decreases |s|
  {
    if s != [] {
      var s' := s[..|s| - 1];
      assert KeysInRange(s', n) by {
        forall i | 0 <= i < |s'| ensures 0 <= s'[i].key < n {
          assert s'[i] == s[i];
        }
      }
      BelowAll(s', n);
      assert s == s' + [s[|s| - 1]];
    }
  }

  lemma {:induction false} LayoutBelow(s: seq<WordCountPair>, k: nat)
    ensures multiset(Layout(s, k)) == multiset(Below(s, k))
    decreases k
  {
    if k == 0 {
      BelowNone(s);
    } else {
      var j := k - 1;
      LayoutBelow(s, j);
      BelowStep(s, j);
      LayoutStep(s, j);
      var layout, layout', block := multiset(Layout(s, k)), multiset(Layout(s, j)), multiset(Filter(s, j));
      var below, below' := multiset(Below(s, k)), multiset(Below(s, j));
      assert layout == layout' + block && below == below' + block;
    }
  }

  lemma LayoutStep(s: seq<WordCountPair>, k: nat)
    ensures multiset(Layout(s, k + 1)) == multiset(Layout(s, k)) + multiset(Filter(s, k))
  {
  }

  lemma {:induction false} BelowNone(s: seq<WordCountPair>)
    ensures Below(s, 0) == []
    decreases |s|
  {
    if s != [] {
      BelowNone(s[..|s| - 1]);
    }
  }

  /** With every key in range the layout is a permutation of the input. */
  lemma LayoutPermutation(s: seq<WordCountPair>, n: nat)
    requires KeysInRange(s, n)
    ensures multiset(Layout(s, n)) == multiset(s)
  {
    LayoutBelow(s, n);
    BelowAll(s, n);
  }

  /** The layout below `n` holds every pair when all keys are below `n`. */
  lemma LayoutLength(s: seq<WordCountPair>, n: nat)
    requires KeysInRange(s, n)
    ensures |Layout(s, n)| == Start(s, n) == |s|
  {
    LayoutPermutation(s, n);
    StartLength(s, n);
    assert |multiset(Layout(s, n))| == |multiset(s)|;
  }

  lemma {:induction false} StartLength(s: seq<WordCountPair>, k: nat)
    ensures Start(s, k) == |Layout(s, k)|
    decreases k
  {
    if k > 0 {
      StartLength(s, k - 1);
    }
  }

  /** The layout is ascending, and holds only keys in `[0, n)`. */
  lemma {:induction false} LayoutSorted(s: seq<WordCountPair>, n: nat)
    ensures SortedByKey(Layout(s, n))
    ensures forall x :: x in Layout(s, n) ==> 0 <= x.key < n
    decreases n
  {
    if n > 0 {
      LayoutSorted(s, n - 1);
      FilterKeys(s, n - 1);
      var a := Layout(s, n - 1);
      var b := Filter(s, n - 1);
      var ab: seq<WordCountPair> := a + b;
      assert ab == Layout(s, n);
      forall i: int, j: int | 0 <= i < j < |ab| ensures ab[i].key <= ab[j].key {
        if j < |a| {
          assert ab[i] == a[i] && ab[j] == a[j];
        } else if i < |a| {
          assert ab[i] == a[i];
          assert ab[j] == b[j - |a|];
        } else {
          assert ab[i] == b[i - |a|];
          assert ab[j] == b[j - |a|];
        }
      }
    }
  }

  /** The layout is stable: the pairs of each key keep their input order. */
  lemma {:induction false} LayoutStable(s: seq<WordCountPair>, n: nat)
    ensures forall k :: Filter(Layout(s, n), k) == if 0 <= k < n then Filter(s, k) else []
    decreases n
  {
    if n > 0 {
      LayoutStable(s, n - 1);
      forall k ensures Filter(Layout(s, n), k) == if 0 <= k < n then Filter(s, k) else [] {
        FilterAppend(Layout(s, n - 1), Filter(s, n - 1), k);
        FilterFilter(s, n - 1, k);
      }
    }
  }

  /** With every key in range, the layout keeps each key's pairs in input order. */
  lemma LayoutStableInRange(s: seq<WordCountPair>, n: nat)
    requires KeysInRange(s, n)
    ensures forall k :: Filter(Layout(s, n), k) == Filter(s, k)
  {
    LayoutStable(s, n);
    forall k | !(0 <= k < n) ensures Filter(s, k) == [] {
      FilterNone(s, k);
    }
  }

  /** No pair has the key. */
  lemma {:induction false} FilterNone(s: seq<WordCountPair>, k: int)
    requires forall i :: 0 <= i < |s| ==> s[i].key != k
    ensures Filter(s, k) == []
    decreases |s|
  {
    if s != [] {
      FilterNone(s[..|s| - 1], k);
    }
  }

  /** The array left by the placement pass is the layout, hence a stable sort. */
  lemma Finish(a: seq<WordCountPair>, s: seq<WordCountPair>, counts: seq<int>)
    requires KeysInRange(s, |counts|) && |a| == |s|
    requires Cursors(s, |s|, counts) && Placed(s, counts, a)
    ensures a == Layout(s, |counts|)
    ensures multiset(a) == multiset(s)
    ensures SortedByKey(a)
    ensures forall k :: Filter(a, k) == Filter(s, k)
  {
    Assemble(a, s, counts);
    LayoutPermutation(s, |counts|);
    LayoutSorted(s, |counts|);
    LayoutStableInRange(s, |counts|);
  }

  /** An array whose every block is filled to its end is the layout. */
  lemma Assemble(a: seq<WordCountPair>, s: seq<WordCountPair>, counts: seq<int>)
    requires KeysInRange(s, |counts|) && |a| == |s|
    requires Cursors(s, |s|, counts) && Placed(s, counts, a)
    ensures a == Layout(s, |counts|)
  {
    var n := |counts|;
    LayoutLength(s, n);
    assert s[..|s|] == s;
    assert forall k :: 0 <= k < n ==> counts[k] == Start(s, k + 1);
    assert forall k :: 0 <= k < n ==> BlockFull(s, k, a);
    AssemblePrefix(a, s, n);
    assert a[..|a|] == a;
  }

  /** The first `k` blocks of an array whose first `k` blocks are full are the
      layout below `k`. */
  lemma {:induction false} AssemblePrefix(a: seq<WordCountPair>, s: seq<WordCountPair>, k: nat)
    requires Start(s, k) <= |a|
    requires forall j :: 0 <= j < k ==> BlockFull(s, j, a)
    ensures a[..Start(s, k)] == Layout(s, k)
    decreases k
  {
    if k > 0 {
      AssemblePrefix(a, s, k - 1);
      AssembleBlock(a, s, k - 1);
    }
  }

  /** One more block of the layout. */
  lemma AssembleBlock(a: seq<WordCountPair>, s: seq<WordCountPair>, k: nat)
    requires Start(s, k + 1) <= |a| && a[..Start(s, k)] == Layout(s, k)
    requires BlockFull(s, k, a)
    ensures a[..Start(s, k + 1)] == Layout(s, k + 1)
  {
    var lo, hi := Start(s, k), Start(s, k + 1);
    var f := Filter(s, k);
    StartLength(s, k);
    assert a[lo..hi] == f by {
      forall m | 0 <= m < |f| ensures a[lo..hi][m] == f[m] {
        assert a[lo..hi][m] == a[lo + m];
      }
    }
    assert a[..hi] == a[..lo] + a[lo..hi];
  }
}
