/** Bounded-size combinations of selector fragments (getCombinations.ts).
    `getCombinations(items, k)` lists, for every size l = 1..k, every l-subset of
    the item positions in lexicographic order, each rendered as the
    concatenation of its items. The specification works on index sequences. */
module Combinations {
  import opened Seqs

  /** Every index lies in [lo, n) and the indices strictly increase. */
  predicate IncreasingIn(s: seq<nat>, lo: nat, n: nat)
  {
    && (forall i :: 0 <= i < |s| ==> lo <= s[i] < n)
    && (forall i, j :: 0 <= i < j < |s| ==> s[i] < s[j])
  }

  /** Lexicographic order on index sequences of equal length. */
  predicate LexLess(a: seq<nat>, b: seq<nat>)
  {
    |a| > 0 && |b| > 0 && (a[0] < b[0] || (a[0] == b[0] && LexLess(a[1..], b[1..])))
  }

  function Cons(x: nat, ss: seq<seq<nat>>): seq<seq<nat>>
  {
    seq(|ss|, k requires 0 <= k < |ss| => [x] + ss[k])
  }

  /** All m-subsets of [lo, n) as increasing index sequences, in the order the
      classic recursive enumeration visits them: those holding lo first. */
  function Subsets(lo: nat, n: nat, m: nat): seq<seq<nat>>
    decreases n - lo
  {
    if m == 0 then [[]]
    else if lo >= n then []
    else Cons(lo, Subsets(lo + 1, n, m - 1)) + Subsets(lo + 1, n, m)
  }

  /** The items at the given positions (positions are always in range where
      it is used; an out-of-range position would contribute nothing). */
  function Pick(items: seq<string>, s: seq<nat>): seq<string>
  {
    seq(|s|, j requires 0 <= j < |s| => if s[j] < |items| then items[s[j]] else "")
  }

  /** The string pushed for each index set when `prefix` already fills the
      first slots of the shared buffer: the buffer contents joined with ''. */
  function Render(items: seq<string>, ss: seq<seq<nat>>, prefix: seq<string>): (r: seq<string>)
    ensures |r| == |ss|
  {
    if ss == [] then [] else [Join(prefix + Pick(items, ss[0]), "")] + Render(items, ss[1..], prefix)
  }

  /** What one call `kCombinations(result, items, data, lo, n - 1, index, index + m)`
      appends to `result` when `data[0..index)` holds `prefix`: the direct
      recursive reading of the enumeration, on strings. */
  function Pushed(items: seq<string>, lo: nat, m: nat, prefix: seq<string>): seq<string>
    decreases |items| - lo
  {
    if m == 0 then [Join(prefix, "")]
    else if lo >= |items| then []
    else Pushed(items, lo + 1, m - 1, prefix + [items[lo]]) + Pushed(items, lo + 1, m, prefix)
  }

  /** The output of `getCombinations(items, k)`: sizes 1..k in turn. */
  function Combinations(items: seq<string>, k: nat): seq<string>
  {
    if k == 0 then []
    else Combinations(items, k - 1) + Pushed(items, 0, k, [])
  }

  /** The index sets behind `Combinations(items, k)`, in the same order. */
  function CombinationIndices(n: nat, k: nat): seq<seq<nat>>
  {
    if k == 0 then [] else CombinationIndices(n, k - 1) + Subsets(0, n, k)
  }

  function Binomial(n: nat, m: nat): nat
  {
    if m == 0 then 1
    else if n == 0 then 0
    else Binomial(n - 1, m - 1) + Binomial(n - 1, m)
  }

  /** C(n, 1) + ... + C(n, k). */
  function SumBinomials(n: nat, k: nat): nat
  {
    if k == 0 then 0 else SumBinomials(n, k - 1) + Binomial(n, k)
  }

  // ---------------------------------------------------------------------------
  // The imperative enumeration of getCombinations.ts

  /** `kCombinations(result, items, data, start, end, index, k)`: `data[0..index)`
      holds the items chosen at the depths above; the loop chooses the item of
      depth `index` and recurses, pruning when too few items remain. */
  method KCombinations(result: seq<string>, items: seq<string>, data: array<string>,
                       start: nat, end: int, index: nat, k: nat) returns (res: seq<string>)
    requires end == |items| - 1 && start <= |items|
    requires index <= k <= data.Length
    modifies data
    ensures data[..index] == old(data[..index])
    ensures res == result + Pushed(items, start, k - index, old(data[..index]))
    ensures |items| - start >= k - index ==> |res| > |result|
    decreases k - index
  {
    if index == k {
      return result + [Join(data[..index], "")];
    }
    ghost var prefix := data[..index];
    ghost var m := k - index;
    res := result;
    var i := start;
    while i <= end && end - i + 1 >= k - index
      invariant start <= i <= |items|
      invariant data[..index] == prefix
      invariant res + Pushed(items, i, m, prefix) == result + Pushed(items, start, m, prefix)
      invariant i > start ==> |res| > |result|
      decreases end - i
    {
      ghost var before := res;
      data[index] := items[i];
      assert data[..index + 1] == prefix + [items[i]];
      res := KCombinations(res, items, data, i + 1, end, index + 1, k);
      assert data[..index] == data[..index + 1][..index];
      i := i + 1;
    }
    PushedTooFew(items, i, m, prefix);
    if |items| - start >= m {
      PushedNonEmpty(items, start, m, prefix);
    }
  }

  /** `getCombinations(items, k)`. */
  method GetCombinations(items: seq<string>, k: nat) returns (result: seq<string>)
    ensures result == Combinations(items, k)
  {
    result := [];
    var n := |items|;
    var data := new string[k](_ => "");
    var l := 1;
    while l <= k
      invariant 1 <= l <= k + 1
      invariant result == Combinations(items, l - 1)
    {
      result := KCombinations(result, items, data, 0, n - 1, 0, l);
      l := l + 1;
    }
  }

  // ---------------------------------------------------------------------------
  // Lemmas about the enumeration

  lemma {:induction false} RenderAppend(items: seq<string>, a: seq<seq<nat>>, b: seq<seq<nat>>, prefix: seq<string>)
    ensures Render(items, a + b, prefix) == Render(items, a, prefix) + Render(items, b, prefix)
  {
    if a == [] {
      assert a + b == b;
    } else {
      assert (a + b)[0] == a[0];
      assert (a + b)[1..] == a[1..] + b;
      RenderAppend(items, a[1..], b, prefix);
    }
  }

  /** The k-th rendered string is the buffer prefix and the k-th index set's items, joined. */
  lemma {:induction false} RenderAt(items: seq<string>, ss: seq<seq<nat>>, prefix: seq<string>, k: nat)
    requires k < |ss|
    ensures Render(items, ss, prefix)[k] == Join(prefix + Pick(items, ss[k]), "")
  {
    if k > 0 {
      RenderAt(items, ss[1..], prefix, k - 1);
    }
  }

  lemma {:induction false} RenderCons(items: seq<string>, x: nat, ss: seq<seq<nat>>, prefix: seq<string>)
    requires x < |items|
    ensures Render(items, Cons(x, ss), prefix) == Render(items, ss, prefix + [items[x]])
  {
    if ss != [] {
      assert Cons(x, ss)[1..] == Cons(x, ss[1..]);
      RenderCons(items, x, ss[1..], prefix);
      assert Pick(items, [x] + ss[0]) == [items[x]] + Pick(items, ss[0]);
      assert prefix + Pick(items, Cons(x, ss)[0]) == prefix + [items[x]] + Pick(items, ss[0]);
    }
  }

  /** The feasibility prune only skips branches that would push nothing. */
  lemma {:induction false} PushedTooFew(items: seq<string>, lo: nat, m: nat, prefix: seq<string>)
    requires lo <= |items| && |items| - lo < m
    ensures Pushed(items, lo, m, prefix) == []
    decreases |items| - lo
  {
    if lo < |items| {
      PushedTooFew(items, lo + 1, m, prefix);
      PushedTooFew(items, lo + 1, m - 1, prefix + [items[lo]]);
    }
  }

  /** Every branch the loop enters reaches depth k and pushes some string. */
  lemma {:induction false} PushedNonEmpty(items: seq<string>, lo: nat, m: nat, prefix: seq<string>)
    requires |items| - lo >= m
    ensures |Pushed(items, lo, m, prefix)| > 0
    decreases |items| - lo
  {
    if m > 0 {
      PushedNonEmpty(items, lo + 1, m - 1, prefix + [items[lo]]);
    }
  }

  /** The string enumeration is the rendering of the index enumeration. */
  lemma {:induction false} PushedIsRender(items: seq<string>, lo: nat, m: nat, prefix: seq<string>)
    requires lo <= |items|
    ensures Pushed(items, lo, m, prefix) == Render(items, Subsets(lo, |items|, m), prefix)
    decreases |items| - lo
  {
    if m == 0 {
      assert prefix + Pick(items, []) == prefix;
    } else if lo < |items| {
      var with := prefix + [items[lo]];
      PushedIsRender(items, lo + 1, m - 1, with);
      PushedIsRender(items, lo + 1, m, prefix);
      RenderSplit(items, lo, m, prefix);
    }
  }

  /** Rendering the subsets of [lo, n) is rendering those holding `lo`, with
      `items[lo]` in the buffer, followed by the rest. */
  lemma RenderSplit(items: seq<string>, lo: nat, m: nat, prefix: seq<string>)
    requires lo < |items| && m > 0
    ensures Render(items, Subsets(lo, |items|, m), prefix)
         == Render(items, Subsets(lo + 1, |items|, m - 1), prefix + [items[lo]])
          + Render(items, Subsets(lo + 1, |items|, m), prefix)
  {
    var first := Subsets(lo + 1, |items|, m - 1);
    var rest := Subsets(lo + 1, |items|, m);
    assert Subsets(lo, |items|, m) == Cons(lo, first) + rest;
    RenderCons(items, lo, first, prefix);
    RenderAppend(items, Cons(lo, first), rest, prefix);
  }

  // ---------------------------------------------------------------------------
  // What the enumeration produces, stated on index sets

  /** Entry i of `getCombinations(items, k)` concatenates, in increasing index
      order and with no separator, the items at the i-th index set. */
  lemma {:induction false} CombinationsAreGluedIndices(items: seq<string>, k: nat)
    ensures |Combinations(items, k)| == |CombinationIndices(|items|, k)|
    ensures forall i :: 0 <= i < |Combinations(items, k)| ==>
              Combinations(items, k)[i] == Join(Pick(items, CombinationIndices(|items|, k)[i]), "")
  {
    CombinationsIsRender(items, k);
    var ss := CombinationIndices(|items|, k);
    forall i | 0 <= i < |ss|
      ensures Render(items, ss, [])[i] == Join(Pick(items, ss[i]), "")
    {
      RenderAt(items, ss, [], i);
      assert [] + Pick(items, ss[i]) == Pick(items, ss[i]);
    }
  }

  /** Combinations of non-empty items are non-empty. */
  lemma CombinationsNonEmpty(items: seq<string>, k: nat)
    requires forall i :: 0 <= i < |items| ==> items[i] != ""
    ensures forall c :: c in Combinations(items, k) ==> c != ""
  {
    CombinationsAreGluedIndices(items, k);
    var all := Combinations(items, k);
    var ss := CombinationIndices(|items|, k);
    forall c | c in all ensures c != "" {
      var i :| 0 <= i < |all| && all[i] == c;
      CombinationIndicesMembers(|items|, k, ss[i]);
      assert ss[i] in ss;
      var picked := Pick(items, ss[i]);
      assert picked[0] == items[ss[i][0]];
      JoinNonEmpty(picked, "");
    }
  }

  lemma {:induction false} CombinationsIsRender(items: seq<string>, k: nat)
    ensures Combinations(items, k) == Render(items, CombinationIndices(|items|, k), [])
  {
    if k > 0 {
      CombinationsIsRender(items, k - 1);
      PushedIsRender(items, 0, k, []);
      RenderAppend(items, CombinationIndices(|items|, k - 1), Subsets(0, |items|, k), []);
    }
  }

  /** Every enumerated index set has m increasing indices in [lo, n). */
  lemma {:induction false} SubsetsShape(lo: nat, n: nat, m: nat)
    ensures forall s :: s in Subsets(lo, n, m) ==> |s| == m && IncreasingIn(s, lo, n)
    decreases n - lo
  {
    if m > 0 && lo < n {
      SubsetsShape(lo + 1, n, m - 1);
      SubsetsShape(lo + 1, n, m);
      var first := Subsets(lo + 1, n, m - 1);
      forall s | s in Cons(lo, first) ensures |s| == m && IncreasingIn(s, lo, n) {
        var k :| 0 <= k < |first| && s == [lo] + first[k];
        assert first[k] in first;
        ConsIncreasing(lo, first[k], n);
      }
    }
  }

  lemma ConsIncreasing(lo: nat, t: seq<nat>, n: nat)
    requires IncreasingIn(t, lo + 1, n) && lo < n
    ensures IncreasingIn([lo] + t, lo, n)
  {
    var s := [lo] + t;
    assert forall i :: 1 <= i < |s| ==> s[i] == t[i - 1];
  }

  /** Every set of m increasing indices in [lo, n) is enumerated. */
  lemma {:induction false} SubsetsComplete(lo: nat, n: nat, m: nat, s: seq<nat>)
    requires |s| == m && IncreasingIn(s, lo, n)
    ensures s in Subsets(lo, n, m)
    decreases n - lo
  {
    if m > 0 {
      assert lo <= s[0] < n;
      if s[0] == lo {
        SubsetsComplete(lo + 1, n, m - 1, s[1..]);
        var first := Subsets(lo + 1, n, m - 1);
        var k :| 0 <= k < |first| && first[k] == s[1..];
        assert Cons(lo, first)[k] == s;
      } else {
        SubsetsComplete(lo + 1, n, m, s);
      }
    }
  }

  predicate LexSorted(ss: seq<seq<nat>>)
  {
    forall i, j :: 0 <= i < j < |ss| ==> LexLess(ss[i], ss[j])
  }

  /** The enumeration of one size is strictly increasing in lexicographic order. */
  lemma {:induction false} SubsetsSorted(lo: nat, n: nat, m: nat)
    ensures LexSorted(Subsets(lo, n, m))
    decreases n - lo
  {
    if m > 0 && lo < n {
      var first := Subsets(lo + 1, n, m - 1);
      var rest := Subsets(lo + 1, n, m);
      SubsetsSorted(lo + 1, n, m - 1);
      SubsetsSorted(lo + 1, n, m);
      ConsSorted(lo, first);
      SubsetsShape(lo + 1, n, m);
      forall a, b | a in Cons(lo, first) && b in rest ensures LexLess(a, b) {
        assert |b| == m && IncreasingIn(b, lo + 1, n);
      }
      SortedAppend(Cons(lo, first), rest);
    }
  }

  lemma ConsSorted(x: nat, ss: seq<seq<nat>>)
    requires LexSorted(ss)
    ensures LexSorted(Cons(x, ss))
  {
    forall i, j | 0 <= i < j < |ss| ensures LexLess(Cons(x, ss)[i], Cons(x, ss)[j]) {
      LexLessCons(x, ss[i], ss[j]);
    }
  }

  lemma SortedAppend(a: seq<seq<nat>>, b: seq<seq<nat>>)
    requires LexSorted(a) && LexSorted(b)
    requires forall x, y :: x in a && y in b ==> LexLess(x, y)
    ensures LexSorted(a + b)
  {
    var ab := a + b;
    forall i, j | 0 <= i < j < |ab| ensures LexLess(ab[i], ab[j]) {
      if j < |a| {
        assert ab[i] == a[i] && ab[j] == a[j];
      } else if i < |a| {
        assert ab[i] == a[i] && ab[j] == b[j - |a|];
        assert a[i] in a && b[j - |a|] in b;
      } else {
        assert ab[i] == b[i - |a|] && ab[j] == b[j - |a|];
      }
    }
  }

  lemma {:induction false} SubsetsCount(lo: nat, n: nat, m: nat)
    requires lo <= n
    ensures |Subsets(lo, n, m)| == Binomial(n - lo, m)
    decreases n - lo
  {
    if m > 0 && lo < n {
      SubsetsCount(lo + 1, n, m - 1);
      SubsetsCount(lo + 1, n, m);
    }
  }

  /** The index sets of `getCombinations(items, k)` are exactly the sets of
      1..k increasing positions of `items`. */
  lemma {:induction false} CombinationIndicesMembers(n: nat, k: nat, s: seq<nat>)
    ensures s in CombinationIndices(n, k) <==> 1 <= |s| <= k && IncreasingIn(s, 0, n)
  {
    if k > 0 {
      CombinationIndicesMembers(n, k - 1, s);
      SubsetsShape(0, n, k);
      if |s| == k && IncreasingIn(s, 0, n) {
        SubsetsComplete(0, n, k, s);
      }
    }
  }

  /** The order of `getCombinations`: smaller sets first, then lexicographic. */
  predicate Precedes(a: seq<nat>, b: seq<nat>)
  {
    |a| < |b| || (|a| == |b| && LexLess(a, b))
  }

  predicate SizeLexSorted(ss: seq<seq<nat>>)
  {
    forall i, j :: 0 <= i < j < |ss| ==> Precedes(ss[i], ss[j])
  }

  /** Smaller index sets come first and, within a size, the order is strictly
      lexicographic. */
  lemma {:induction false} CombinationIndicesOrdered(n: nat, k: nat)
    ensures SizeLexSorted(CombinationIndices(n, k))
  {
    if k > 0 {
      var before := CombinationIndices(n, k - 1);
      var block := Subsets(0, n, k);
      CombinationIndicesOrdered(n, k - 1);
      SubsetsSorted(0, n, k);
      SubsetsShape(0, n, k);
      CombinationIndicesShorter(n, k - 1);
      assert SizeLexSorted(block) by {
        forall i, j | 0 <= i < j < |block| ensures Precedes(block[i], block[j]) {
          assert block[i] in block && block[j] in block;
        }
      }
      forall a, b | a in before && b in block ensures Precedes(a, b) {
        var i :| 0 <= i < |before| && before[i] == a;
      }
      OrderedAppend(before, block);
    }
  }

  lemma OrderedAppend(a: seq<seq<nat>>, b: seq<seq<nat>>)
    requires SizeLexSorted(a) && SizeLexSorted(b)
    requires forall x, y :: x in a && y in b ==> Precedes(x, y)
    ensures SizeLexSorted(a + b)
  {
    var ab := a + b;
    forall i, j | 0 <= i < j < |ab| ensures Precedes(ab[i], ab[j]) {
      if j < |a| {
        assert ab[i] == a[i] && ab[j] == a[j];
      } else if i < |a| {
        assert ab[i] == a[i] && ab[j] == b[j - |a|];
        assert a[i] in a && b[j - |a|] in b;
      } else {
        assert ab[i] == b[i - |a|] && ab[j] == b[j - |a|];
      }
    }
  }

  lemma {:induction false} CombinationIndicesShorter(n: nat, k: nat)
    ensures forall i :: 0 <= i < |CombinationIndices(n, k)| ==> |CombinationIndices(n, k)[i]| <= k
  {
    var all := CombinationIndices(n, k);
    forall i | 0 <= i < |all| ensures |all[i]| <= k {
      assert all[i] in all;
      CombinationIndicesMembers(n, k, all[i]);
    }
  }

  /** Hence no index set is listed twice: each subset appears exactly once. */
  lemma CombinationIndicesDistinct(n: nat, k: nat)
    ensures forall i, j :: 0 <= i < j < |CombinationIndices(n, k)| ==>
              CombinationIndices(n, k)[i] != CombinationIndices(n, k)[j]
  {
    CombinationIndicesOrdered(n, k);
    var all := CombinationIndices(n, k);
    forall i, j | 0 <= i < j < |all| ensures all[i] != all[j] {
      assert Precedes(all[i], all[j]);
      if |all[i]| == |all[j]| {
        LexLessIrreflexive(all[i]);
      }
    }
  }

  lemma LexLessCons(x: nat, a: seq<nat>, b: seq<nat>)
    requires LexLess(a, b)
    ensures LexLess([x] + a, [x] + b)
  {
    assert ([x] + a)[1..] == a && ([x] + b)[1..] == b;
  }

  lemma {:induction false} LexLessIrreflexive(a: seq<nat>)
    ensures !LexLess(a, a)
  {
    if |a| > 0 {
      LexLessIrreflexive(a[1..]);
    }
  }

  /** `getCombinations(items, k)` has C(n, 1) + ... + C(n, k) entries. */
  lemma {:induction false} CombinationsCount(items: seq<string>, k: nat)
    ensures |Combinations(items, k)| == SumBinomials(|items|, k)
  {
    if k > 0 {
      CombinationsCount(items, k - 1);
      PushedIsRender(items, 0, k, []);
      SubsetsCount(0, |items|, k);
    }
  }

  /** Sizes above n contribute nothing, so the count is the sum up to min(k, n). */
  lemma {:induction false} SumBinomialsCapped(n: nat, k: nat)
    ensures SumBinomials(n, k) == SumBinomials(n, if k < n then k else n)
  {
    if k > n {
      SumBinomialsCapped(n, k - 1);
      BinomialAbove(n, k);
    }
  }

  lemma {:induction false} BinomialAbove(n: nat, m: nat)
    requires m > n
    ensures Binomial(n, m) == 0
  {
    if n > 0 {
      BinomialAbove(n - 1, m - 1);
      BinomialAbove(n - 1, m);
    }
  }

  /** No items, or k = 0, give no combination at all. */
  lemma {:induction false} CombinationsEmpty(items: seq<string>, k: nat)
    requires items == [] || k == 0
    ensures Combinations(items, k) == []
  {
    if k > 0 {
      CombinationsEmpty(items, k - 1);
      PushedTooFew(items, 0, k, []);
    }
  }

  /** The documented example: `getCombinations(['a', 'b', 'c'], 2)`. */
  lemma CombinationsExample()
    ensures Combinations(["a", "b", "c"], 2) == ["a", "b", "c", "ab", "ac", "bc"]
  {
    var items := ["a", "b", "c"];
    SinglesExample();
    PairsExample();
    assert Combinations(items, 1) == [] + Pushed(items, 0, 1, []);
    assert Combinations(items, 2) == Combinations(items, 1) + Pushed(items, 0, 2, []);
    assert ["a", "b", "c"] + ["ab", "ac", "bc"] == ["a", "b", "c", "ab", "ac", "bc"];
  }

  /** The size-1 round of the example: one string per item. */
  lemma SinglesExample()
    ensures Pushed(["a", "b", "c"], 0, 1, []) == ["a", "b", "c"]
  {
    var items := ["a", "b", "c"];
    assert Pushed(items, 3, 1, []) == [];
    assert Pushed(items, 2, 1, []) == ["c"];
    assert Pushed(items, 1, 1, []) == ["b", "c"];
  }

  /** The size-2 round of the example: the pairs in lexicographic order. */
  lemma PairsExample()
    ensures Pushed(["a", "b", "c"], 0, 2, []) == ["ab", "ac", "bc"]
  {
    var items := ["a", "b", "c"];
    assert Pushed(items, 2, 1, ["b"]) == ["bc"] by {
      assert Join(["b", "c"], "") == "bc";
    }
    assert Pushed(items, 1, 1, ["a"]) == ["ab", "ac"] by {
      assert Join(["a", "b"], "") == "ab";
      assert Join(["a", "c"], "") == "ac";
    }
    assert Pushed(items, 2, 2, []) == [] by {
      PushedTooFew(items, 2, 2, []);
    }
    assert Pushed(items, 1, 2, []) == ["bc"];
  }
}
