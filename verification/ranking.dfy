/**
 Ranking of the scrape command: `usort` with the `descendingSort`
 comparator, which orders products by annual cost, dearest first. The
 comparator answers 0 on equal costs and PHP 8's `usort` is stable, so
 products of equal cost keep document order. The model is a stable
 insertion sort, and any stable non-increasing reordering is shown to be
 the same sequence.
 */
module Ranking {
  import opened Results
  import opened Listings

  /** The entry's annual cost, if it has one, is never negative. */
  predicate NonNegativeCost(p: RankedProduct) {
    p.annualPrice.Some? ==> p.annualPrice.value >= 0.0
  }

  /**
   The cost the comparator reads. The 0 for an entry without an
   `annual_price` key is never compared by the command (see
   ReadsMissingCost); under PHP's default error handler, where the read
   yields null, null compares exactly like 0 (see NullComparesAsZero).
   */
  function AnnualKey(p: RankedProduct): (k: real)
    ensures p.annualPrice.Some? ==> k == p.annualPrice.value
    ensures NonNegativeCost(p) ==> k >= 0.0
  {
    p.annualPrice.GetOr(0.0)
  }

  /**
   PHP 8's loose `==` on a possibly missing cost: two numbers compare by
   value; null against a number compares false with the number's truth
   value, so null equals exactly 0.
   */
  predicate LooseEq(a: Option<real>, b: Option<real>) {
    match (a, b)
    case (Some(x), Some(y)) => x == y
    case (None, Some(y)) => y == 0.0
    case (Some(x), None) => x == 0.0
    case (None, None) => true
  }

  /** PHP 8's loose `<` on a possibly missing cost: null is false, a number is true when non-zero, and false < true. */
  predicate LooseLt(a: Option<real>, b: Option<real>) {
    match (a, b)
    case (Some(x), Some(y)) => x < y
    case (None, Some(y)) => y != 0.0
    case (Some(x), None) => false
    case (None, None) => false
  }

  /** `descendingSort` exactly as PHP evaluates it on the raw, possibly missing keys. */
  function LooseDescendingSort(a: RankedProduct, b: RankedProduct): (c: int)
    ensures -1 <= c <= 1
  {
    if LooseEq(a.annualPrice, b.annualPrice) then 0
    else if LooseLt(a.annualPrice, b.annualPrice) then 1
    else -1
  }

  /**
   `usort` on two or more entries hands every entry to the comparator at
   least once, and each call reads both entries' `annual_price`. So the sort
   reads a missing key exactly when this holds; the command's error handler
   turns that read into an exception.
   */
  predicate ReadsMissingCost(s: seq<RankedProduct>) {
    |s| >= 2 && exists i :: 0 <= i < |s| && s[i].annualPrice.None?
  }

  /** `descendingSort`: 0 on equal costs, 1 when the first is cheaper, -1 when it is dearer. */
  function DescendingSort(a: RankedProduct, b: RankedProduct): (c: int)
    ensures c == 0 <==> AnnualKey(a) == AnnualKey(b)
    ensures c == 1 <==> AnnualKey(a) < AnnualKey(b)
    ensures c == -1 <==> AnnualKey(a) > AnnualKey(b)
  {
    if AnnualKey(a) == AnnualKey(b) then 0
    else if AnnualKey(a) < AnnualKey(b) then 1
    else -1
  }

  /**
   For non-negative costs, PHP's comparison of the raw keys (null for a
   missing one) gives the same answer as comparing costs with a missing one
   read as 0.
   */
  lemma NullComparesAsZero(a: RankedProduct, b: RankedProduct)
    requires NonNegativeCost(a) && NonNegativeCost(b)
    ensures LooseDescendingSort(a, b) == DescendingSort(a, b)
  {
  }

  /** The comparator is antisymmetric and its "not after" relation is transitive and total, as `usort` requires. */
  lemma ComparatorIsConsistent(a: RankedProduct, b: RankedProduct, c: RankedProduct)
    ensures DescendingSort(a, b) == -DescendingSort(b, a)
    ensures DescendingSort(a, b) <= 0 || DescendingSort(b, a) <= 0
    ensures DescendingSort(a, b) <= 0 && DescendingSort(b, c) <= 0 ==> DescendingSort(a, c) <= 0
  {
  }

  /** Annual cost never increases along the sequence. */
  predicate NonIncreasing(s: seq<RankedProduct>) {
    forall i, j :: 0 <= i < j < |s| ==> AnnualKey(s[i]) >= AnnualKey(s[j])
  }

  /** Being non-increasing is having every pair in comparator order. */
  lemma NonIncreasingIsComparatorOrder(s: seq<RankedProduct>)
    ensures NonIncreasing(s) <==> forall i, j :: 0 <= i < j < |s| ==> DescendingSort(s[i], s[j]) <= 0
  {
  }

  /** The entries of cost k, in their order in s. */
  function WithKey(s: seq<RankedProduct>, k: real): (r: seq<RankedProduct>)
    ensures |r| <= |s|
    ensures forall y :: y in r ==> y in s && AnnualKey(y) == k
  {
    if |s| == 0 then []
    else (if AnnualKey(s[0]) == k then [s[0]] else []) + WithKey(s[1..], k)
  }

  /**
   `after` reorders `before` stably: for every cost, the entries of that
   cost appear in the same order in both.
   */
  ghost predicate StableReorder(after: seq<RankedProduct>, before: seq<RankedProduct>) {
    forall k :: WithKey(after, k) == WithKey(before, k)
  }

  lemma {:induction false} WithKeyAppend(a: seq<RankedProduct>, b: seq<RankedProduct>, k: real)
    ensures WithKey(a + b, k) == WithKey(a, k) + WithKey(b, k)
    decreases |a|
  {
    if |a| > 0 {
      assert (a + b)[1..] == a[1..] + b;
      WithKeyAppend(a[1..], b, k);
    } else {
      assert a + b == b;
    }
  }

  /** The first entry of s leads the selection of its own cost. */
  lemma WithKeyOfHead(s: seq<RankedProduct>)
    requires |s| > 0
    ensures |WithKey(s, AnnualKey(s[0]))| > 0 && WithKey(s, AnnualKey(s[0]))[0] == s[0]
  {
  }

  /** No entry of s has cost k, so the selection is empty. */
  lemma {:induction false} WithKeyNone(s: seq<RankedProduct>, k: real)
    requires forall i :: 0 <= i < |s| ==> AnnualKey(s[i]) != k
    ensures WithKey(s, k) == []
    decreases |s|
  {
    if |s| > 0 {
      WithKeyNone(s[1..], k);
    }
  }

  /**
   Inserts x, which comes after every entry of s in document order, behind
   every entry at least as dear.
   */
  function Insert(x: RankedProduct, s: seq<RankedProduct>): (r: seq<RankedProduct>)
    ensures |r| == |s| + 1
    ensures multiset(r) == multiset(s) + multiset{x}
  {
    if |s| == 0 || AnnualKey(s[0]) < AnnualKey(x) then [x] + s
    else
      assert s == [s[0]] + s[1..];
      [s[0]] + Insert(x, s[1..])
  }

  lemma {:induction false} InsertKeepsOrder(x: RankedProduct, s: seq<RankedProduct>)
    requires NonIncreasing(s)
    ensures NonIncreasing(Insert(x, s))
    decreases |s|
  {
    if |s| == 0 || AnnualKey(s[0]) < AnnualKey(x) {
    } else {
      InsertKeepsOrder(x, s[1..]);
      var r := Insert(x, s[1..]);
      forall y | y in r
        ensures AnnualKey(y) <= AnnualKey(s[0])
      {
        assert y in multiset(r);
        if y != x {
          assert y in multiset(s[1..]);
          var j :| 0 <= j < |s[1..]| && s[1..][j] == y;
          assert s[j + 1] == y;
        }
      }
      assert forall j :: 0 <= j < |r| ==> r[j] in r;
    }
  }

  /** x goes in front of a sequence of cheaper entries. */
  lemma InsertInFrontIsStable(x: RankedProduct, s: seq<RankedProduct>, k: real)
    requires NonIncreasing(s)
    requires |s| == 0 || AnnualKey(s[0]) < AnnualKey(x)
    ensures WithKey([x] + s, k) == WithKey(s, k) + WithKey([x], k)
  {
    WithKeyAppend([x], s, k);
    if AnnualKey(x) == k {
      assert forall i :: 0 <= i < |s| ==> AnnualKey(s[i]) <= AnnualKey(s[0]);
      WithKeyNone(s, k);
    } else {
      assert WithKey([x], k) == [];
    }
  }

  /** Putting the same entry in front of both sides keeps an insertion stable. */
  lemma StableBehindHead(h: RankedProduct, rest: seq<RankedProduct>, t: seq<RankedProduct>,
                         x: RankedProduct, k: real)
    requires WithKey(rest, k) == WithKey(t, k) + WithKey([x], k)
    ensures WithKey([h] + rest, k) == WithKey([h] + t, k) + WithKey([x], k)
  {
    WithKeyAppend([h], rest, k);
    WithKeyAppend([h], t, k);
  }

  lemma {:induction false} InsertIsStable(x: RankedProduct, s: seq<RankedProduct>, k: real)
    requires NonIncreasing(s)
    ensures WithKey(Insert(x, s), k) == WithKey(s, k) + WithKey([x], k)
    decreases |s|
  {
    if |s| == 0 || AnnualKey(s[0]) < AnnualKey(x) {
      InsertInFrontIsStable(x, s, k);
    } else {
      var rest := Insert(x, s[1..]);
      assert Insert(x, s) == [s[0]] + rest;
      assert NonIncreasing(s[1..]);
      InsertIsStable(x, s[1..], k);
      StableBehindHead(s[0], rest, s[1..], x, k);
      assert [s[0]] + s[1..] == s;
    }
  }

  /** Stable insertion sort by annual cost, dearest first. */
  function SortDesc(s: seq<RankedProduct>): (r: seq<RankedProduct>)
    ensures |r| == |s|
    ensures multiset(r) == multiset(s)
  {
    if |s| == 0 then []
    else
      assert s == s[..|s| - 1] + [s[|s| - 1]];
      Insert(s[|s| - 1], SortDesc(s[..|s| - 1]))
  }

  /** SortDesc returns a stable, non-increasing permutation of its input. */
  lemma {:induction false} SortDescCorrect(s: seq<RankedProduct>)
    ensures NonIncreasing(SortDesc(s))
    ensures multiset(SortDesc(s)) == multiset(s)
    ensures StableReorder(SortDesc(s), s)
    decreases |s|
  {
    if |s| > 0 {
      var init, last := s[..|s| - 1], s[|s| - 1];
      assert s == init + [last];
      SortDescCorrect(init);
      InsertKeepsOrder(last, SortDesc(init));
      forall k
        ensures WithKey(SortDesc(s), k) == WithKey(s, k)
      {
        InsertIsStable(last, SortDesc(init), k);
        WithKeyAppend(init, [last], k);
      }
    }
  }

  /**
   There is only one stable non-increasing reordering: two of them of the
   same entries are the same sequence. So whichever stable algorithm sorts,
   the result is SortDesc's.
   */
  lemma {:induction false} StableSortUnique(a: seq<RankedProduct>, b: seq<RankedProduct>)
    requires NonIncreasing(a) && NonIncreasing(b)
    requires StableReorder(a, b)
    ensures a == b
    decreases |a|
  {
    if |a| == 0 {
      if |b| > 0 {
        WithKeyOfHead(b);
        assert false;
      }
    } else if |b| == 0 {
      WithKeyOfHead(a);
      assert false;
    } else {
      var ka, kb := AnnualKey(a[0]), AnnualKey(b[0]);
      assert ka <= kb by {
        assert WithKey(a, ka)[0] == a[0];
        var y := WithKey(b, ka)[0];
        assert y in WithKey(b, ka);
        var j :| 0 <= j < |b| && b[j] == y;
      }
      assert kb <= ka by {
        assert WithKey(b, kb)[0] == b[0];
        var y := WithKey(a, kb)[0];
        assert y in WithKey(a, kb);
        var j :| 0 <= j < |a| && a[j] == y;
      }
      assert a[0] == b[0] by {
        assert WithKey(a, ka)[0] == a[0];
        assert WithKey(b, ka)[0] == b[0];
      }
      forall k
        ensures WithKey(a[1..], k) == WithKey(b[1..], k)
      {
        var head := if ka == k then [a[0]] else [];
        assert WithKey(a, k) == head + WithKey(a[1..], k);
        assert WithKey(b, k) == head + WithKey(b[1..], k);
        assert WithKey(a[1..], k) == WithKey(a, k)[|head|..];
      }
      StableSortUnique(a[1..], b[1..]);
      assert a == [a[0]] + a[1..];
      assert b == [b[0]] + b[1..];
    }
  }

  /**
   The `usort` call: insertion sort in a loop over the products in document
   order, keeping the part sorted so far stable and non-increasing.
   */
  method SortByAnnualCost(products: seq<RankedProduct>) returns (sorted: seq<RankedProduct>)
    ensures NonIncreasing(sorted)
    ensures multiset(sorted) == multiset(products)
    ensures StableReorder(sorted, products)
  {
    sorted := [];
    var i := 0;
    while i < |products|
      invariant 0 <= i <= |products|
      invariant NonIncreasing(sorted)
      invariant multiset(sorted) == multiset(products[..i])
      invariant StableReorder(sorted, products[..i])
    {
      var x := products[i];
      assert products[..i + 1] == products[..i] + [x];
      InsertKeepsOrder(x, sorted);
      forall k
        ensures WithKey(Insert(x, sorted), k) == WithKey(products[..i + 1], k)
      {
        InsertIsStable(x, sorted, k);
        WithKeyAppend(products[..i], [x], k);
      }
      sorted := Insert(x, sorted);
      i := i + 1;
    }
    assert products[..i] == products;
  }
}
