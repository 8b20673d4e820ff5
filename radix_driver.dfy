/**
  The driver of the LSD radix sort (`radix_sort`): repeated counting-sort
  passes on the digits of `v - min` at weights `1, radix, radix^2, ...`,
  until the weight exceeds the spread `max - min` of the input.

  After the pass at weight `exp` the sequence is ordered by the residue of
  `v - min` modulo `exp * radix`: the last pass sorted by the digit at weight
  `exp`, and its stability kept, among equal digits, the order of the lower
  digits that the earlier passes established. Once `exp > max - min` the
  residue is `v - min` itself, so the sequence is sorted.
*/
module RadixDriver {
  import opened Digits
  import opened CountingPass

  /** The smallest element: Python's `min` on a non-empty list. */
  function Min(s: seq<int>): (m: int)
    requires |s| > 0
    ensures m in s
    ensures forall p :: 0 <= p < |s| ==> m <= s[p]
  {
    if |s| == 1 then s[0]
    else
      var rest := Min(s[1..]);
      if s[0] <= rest then s[0] else rest
  }

  /** The largest element: Python's `max` on a non-empty list. */
  function Max(s: seq<int>): (m: int)
    requires |s| > 0
    ensures m in s
    ensures forall p :: 0 <= p < |s| ==> s[p] <= m
  {
    if |s| == 1 then s[0]
    else
      var rest := Max(s[1..]);
      if s[0] >= rest then s[0] else rest
  }

  /** `b` raised to the power `e`. */
  function Pow(b: int, e: nat): int
  {
    if e == 0 then 1 else b * Pow(b, e - 1)
  }

  /** Ascending order. */
  predicate Sorted(s: seq<int>)
  {
    forall p, q :: 0 <= p < q < |s| ==> s[p] <= s[q]
  }

  /** Ascending order of the residues of `v - minElement` modulo `m`: the order
      of the digits of weight below `m` when `m` is a power of the radix. */
  predicate SortedByResidue(s: seq<int>, minElement: int, m: int)
    requires m >= 1
  {
    forall p, q :: 0 <= p < q < |s| ==>
      Residue(s[p], minElement, m) <= Residue(s[q], minElement, m)
  }

  // ---------------------------------------------------------------------------
  // One pass extends the sorted digits by one
  // ---------------------------------------------------------------------------

  /** Lexicographic order on (digit, lower residue) pairs is the order of
      `digit * exp + residue` when residues are below `exp`. */
  lemma LexBound(ku: int, ru: int, kv: int, rv: int, exp: int)
    requires exp >= 1 && 0 <= ru < exp && 0 <= rv
    requires ku < kv || (ku == kv && ru <= rv)
    ensures ku * exp + ru <= kv * exp + rv
  {
    if ku < kv {
      MulMonotone(ku + 1, kv, exp);
      assert (ku + 1) * exp == ku * exp + exp;
    }
  }

  /** Residues modulo `exp * radix` compare like the pair (digit at weight
      `exp`, residue modulo `exp`). */
  lemma ResidueOrder(u: int, v: int, radix: int, exp: int, minElement: int)
    requires radix >= 1 && exp >= 1
    requires var ku, kv := BucketKey(u, radix, exp, minElement), BucketKey(v, radix, exp, minElement);
      ku < kv || (ku == kv && Residue(u, minElement, exp) <= Residue(v, minElement, exp))
    ensures exp * radix >= 1
    ensures Residue(u, minElement, exp * radix) <= Residue(v, minElement, exp * radix)
  {
    ResidueSplit(u, radix, exp, minElement);
    ResidueSplit(v, radix, exp, minElement);
    LexBound(BucketKey(u, radix, exp, minElement), Residue(u, minElement, exp),
             BucketKey(v, radix, exp, minElement), Residue(v, minElement, exp), exp);
  }

  /** Every element among the first `n` with digit `d` has a residue no larger
      than that of `s[n]`, when `s` is ordered by residue. */
  lemma {:induction false} BucketBelowNext(s: seq<int>, n: nat, d: int, key: int -> int, radix: int, minElement: int, m: int)
    requires IsDigitKey(key, radix) && m >= 1 && n < |s|
    requires SortedByResidue(s, minElement, m)
    ensures forall p :: 0 <= p < |Bucket(s, n, d, key, radix)| ==>
      Residue(Bucket(s, n, d, key, radix)[p], minElement, m) <= Residue(s[n], minElement, m)
  {
    if n > 0 {
      BucketBelowNext(s, n - 1, d, key, radix, minElement, m);
      var pre := Bucket(s, n - 1, d, key, radix);
      var t := Bucket(s, n, d, key, radix);
      forall p | 0 <= p < |t|
        ensures Residue(t[p], minElement, m) <= Residue(s[n], minElement, m)
      {
        if p < |pre| {
          assert t[p] == pre[p];
        }
      }
    }
  }

  /** Filtering a sequence ordered by residue keeps it ordered by residue. */
  lemma {:induction false} BucketSorted(s: seq<int>, n: nat, d: int, key: int -> int, radix: int, minElement: int, m: int)
    requires IsDigitKey(key, radix) && m >= 1 && n <= |s|
    requires SortedByResidue(s, minElement, m)
    ensures SortedByResidue(Bucket(s, n, d, key, radix), minElement, m)
  {
    if n > 0 {
      BucketSorted(s, n - 1, d, key, radix, minElement, m);
      BucketBelowNext(s, n - 1, d, key, radix, minElement, m);
      var pre := Bucket(s, n - 1, d, key, radix);
      var t := Bucket(s, n, d, key, radix);
      forall p, q | 0 <= p < q < |t|
        ensures Residue(t[p], minElement, m) <= Residue(t[q], minElement, m)
      {
        if q < |pre| {
          assert t[p] == pre[p] && t[q] == pre[q];
        } else {
          assert t[p] == pre[p];
        }
      }
    }
  }

  /** Two elements with the same digit keep, in the result of a pass, the
      order they have in its input. */
  lemma SameDigitInInputOrder(s: seq<int>, p: nat, q: nat, key: int -> int, radix: int, minElement: int, m: int)
    requires IsDigitKey(key, radix) && m >= 1
    requires SortedByResidue(s, minElement, m)
    requires p < q < |StableByDigit(s, key, radix)|
    requires var r := StableByDigit(s, key, radix); KeyOf(key, radix, r[p]) == KeyOf(key, radix, r[q])
    ensures var r := StableByDigit(s, key, radix);
      Residue(r[p], minElement, m) <= Residue(r[q], minElement, m)
  {
    var r := StableByDigit(s, key, radix);
    var k := KeyOf(key, radix, r[p]);
    SlotInBlock(s, radix, p, key, radix);
    SlotInBlock(s, radix, q, key, radix);
    var g, w := Grouped(s, k, key, radix), WithDigit(s, k, key, radix);
    assert Grouped(s, k + 1, key, radix) == g + w;
    GroupedAt(s, k, p - |g|, radix, key, radix);
    GroupedAt(s, k, q - |g|, radix, key, radix);
    BucketSorted(s, |s|, k, key, radix, minElement, m);
  }

  /** The step of the induction over passes: if the input of the pass at weight
      `exp` is ordered by the residues modulo `exp`, its result is ordered by
      the residues modulo `exp * radix`. */
  lemma PassExtendsOrder(s: seq<int>, radix: int, exp: int, minElement: int)
    requires radix >= 1 && exp >= 1
    requires SortedByResidue(s, minElement, exp)
    ensures exp * radix >= 1
    ensures SortedByResidue(StableByDigit(s, DigitKey(radix, exp, minElement), radix), minElement, exp * radix)
  {
    MulMonotone(1, radix, exp);
    var key := DigitKey(radix, exp, minElement);
    var r := StableByDigit(s, key, radix);
    StableByDigitCorrect(s, key, radix);
    forall p, q | 0 <= p < q < |r|
      ensures Residue(r[p], minElement, exp * radix) <= Residue(r[q], minElement, exp * radix)
    {
      var u, v := r[p], r[q];
      assert KeyOf(key, radix, u) <= KeyOf(key, radix, v);
      if KeyOf(key, radix, u) == KeyOf(key, radix, v) {
        SameDigitInInputOrder(s, p, q, key, radix, minElement, exp);
      }
      ResidueOrder(u, v, radix, exp, minElement);
    }
  }

  /** Once the weight exceeds the spread of the values, ordered by residue is sorted. */
  lemma ResidueOrderIsOrder(s: seq<int>, minElement: int, maxElement: int, m: int)
    requires m >= 1 && maxElement - minElement < m
    requires forall p :: 0 <= p < |s| ==> minElement <= s[p] <= maxElement
    requires SortedByResidue(s, minElement, m)
    ensures Sorted(s)
  {
    forall p | 0 <= p < |s|
      ensures Residue(s[p], minElement, m) == s[p] - minElement
    {
      DivModUnique(s[p] - minElement, m, 0, s[p] - minElement);
    }
  }

  /** A permutation of `s` ordered by residue modulo a weight above the spread
      of `s` is sorted. */
  lemma FinalWeightSorts(s: seq<int>, r: seq<int>, m: int)
    requires |s| > 0 && multiset(r) == multiset(s)
    requires m >= 1 && Max(s) - Min(s) < m
    requires SortedByResidue(r, Min(s), m)
    ensures Sorted(r)
  {
    forall p | 0 <= p < |r|
      ensures Min(s) <= r[p] <= Max(s)
    {
      assert r[p] in multiset(s);
    }
    ResidueOrderIsOrder(r, Min(s), Max(s), m);
  }

  /** Every sequence is ordered by its residues modulo 1, which are all 0. */
  lemma SortedByResidueOne(s: seq<int>, minElement: int)
    ensures SortedByResidue(s, minElement, 1)
  {
    forall p | 0 <= p < |s|
      ensures Residue(s[p], minElement, 1) == 0
    {
      DivModUnique(s[p] - minElement, 1, s[p] - minElement, 0);
    }
  }

  // ---------------------------------------------------------------------------
  // The sort
  // ---------------------------------------------------------------------------

  /** The LSD radix sort. A list of length 0 or 1, or one whose elements are
      all equal, is returned as it is, after no pass; otherwise one
      counting-sort pass runs per base-`radix` digit of `max - min`, and
      `passes` counts them. A radix below 2 is accepted only where no pass runs: with
      radix 1 the weight never grows and the loop would not end, and with a
      smaller radix the bucket table is empty. */
  method RadixSort(s: seq<int>, radix: int) returns (r: seq<int>, ghost passes: nat)
    requires |s| <= 1 || Max(s) == Min(s) || radix >= 2
    ensures |s| <= 1 || Max(s) == Min(s) ==> r == s && passes == 0
    ensures |r| == |s| && multiset(r) == multiset(s)
    ensures Sorted(r)
    ensures |s| > 1 ==> Max(s) - Min(s) < Pow(radix, passes)
    ensures |s| > 1 && passes > 0 ==> Pow(radix, passes - 1) <= Max(s) - Min(s)
  {
    passes := 0;
    if |s| <= 1 {
      return s, passes;
    }
    var minElement := Min(s);
    var maxElement := Max(s);
    var exp := 1;
    r := s;
    SortedByResidueOne(r, minElement);
    while maxElement - minElement >= exp
      invariant exp >= 1 && exp == Pow(radix, passes)
      invariant passes > 0 ==> Pow(radix, passes - 1) <= maxElement - minElement
      invariant passes > 0 ==> radix >= 2
      invariant passes == 0 ==> r == s
      invariant |r| == |s| && multiset(r) == multiset(s)
      invariant SortedByResidue(r, minElement, exp)
      decreases maxElement - minElement - exp
    {
      assert radix >= 2;
      PassExtendsOrder(r, radix, exp, minElement);
      r := CountingSort(r, radix, exp, minElement);
      MulMonotone(2, radix, exp);
      exp := exp * radix;
      passes := passes + 1;
    }
    if passes > 0 {
      PowPositive(radix, passes - 1);
    }
    FinalWeightSorts(s, r, exp);
  }

  /** A power of a radix of at least 2 is positive. */
  lemma {:induction false} PowPositive(radix: int, e: nat)
    requires radix >= 2
    ensures Pow(radix, e) >= 1
  {
    if e > 0 {
      PowPositive(radix, e - 1);
      MulMonotone(1, radix, Pow(radix, e - 1));
    }
  }

  /** The first element of a sorted sequence is at most every element of a
      sequence with the same elements. */
  lemma HeadIsLeast(a: seq<int>, b: seq<int>)
    requires Sorted(b) && |a| > 0 && multiset(a) == multiset(b)
    ensures |b| > 0 && b[0] <= a[0]
  {
    assert a[0] in multiset(b);
    var j :| 0 <= j < |b| && b[j] == a[0];
  }

  /** The tail of a sorted sequence is sorted. */
  lemma SortedTail(a: seq<int>)
    requires Sorted(a) && |a| > 0
    ensures Sorted(a[1..])
  {
    var t := a[1..];
    forall p, q | 0 <= p < q < |t|
      ensures t[p] <= t[q]
    {
      assert t[p] == a[p + 1] && t[q] == a[q + 1];
    }
  }

  /** Removing the same first element from two sequences with the same
      elements leaves sequences with the same elements. */
  lemma MultisetTail(a: seq<int>, b: seq<int>)
    requires |a| > 0 && |b| > 0 && a[0] == b[0] && multiset(a) == multiset(b)
    ensures multiset(a[1..]) == multiset(b[1..])
  {
    assert a == [a[0]] + a[1..];
    assert b == [b[0]] + b[1..];
    assert multiset(a[1..]) == multiset(a) - multiset{a[0]};
    assert multiset(b[1..]) == multiset(b) - multiset{b[0]};
  }

  /** Two sorted sequences with the same elements are equal: the result of
      `RadixSort` is the one sorted arrangement of its input. */
  lemma {:induction false} SortedPermutationUnique(a: seq<int>, b: seq<int>)
    requires Sorted(a) && Sorted(b) && multiset(a) == multiset(b)
    ensures a == b
  {
    assert |a| == |b| by {
      assert |multiset(a)| == |multiset(b)|;
    }
    if |a| > 0 {
      HeadIsLeast(a, b);
      HeadIsLeast(b, a);
      MultisetTail(a, b);
      SortedTail(a);
      SortedTail(b);
      SortedPermutationUnique(a[1..], b[1..]);
      assert a == [a[0]] + a[1..] && b == [b[0]] + b[1..];
    }
  }

  /** Sorting a sorted result again gives it back unchanged. */
  method SortTwice(s: seq<int>, radix: int) returns (once: seq<int>, twice: seq<int>)
    requires radix >= 2
    ensures Sorted(once) && multiset(once) == multiset(s)
    ensures twice == once
  {
    ghost var passes;
    once, passes := RadixSort(s, radix);
    twice, passes := RadixSort(once, radix);
    SortedPermutationUnique(twice, once);
  }

  /** The result does not depend on the radix: only the number of passes does. */
  method SortInTwoRadices(s: seq<int>, radix: int, otherRadix: int) returns (r: seq<int>, other: seq<int>)
    requires radix >= 2 && otherRadix >= 2
    ensures Sorted(r) && multiset(r) == multiset(s)
    ensures other == r
  {
    ghost var passes;
    r, passes := RadixSort(s, radix);
    other, passes := RadixSort(s, otherRadix);
    SortedPermutationUnique(other, r);
  }

  /** Appending an element no smaller than the last keeps a sequence sorted. */
  lemma SortedSnoc(s: seq<int>, x: int)
    requires Sorted(s) && (|s| == 0 || s[|s| - 1] <= x)
    ensures Sorted(s + [x])
  {
    var t := s + [x];
    forall p, q | 0 <= p < q < |t|
      ensures t[p] <= t[q]
    {
      if q < |s| {
        assert t[p] == s[p] && t[q] == s[q];
      } else {
        assert t[p] == s[p] && s[p] <= s[|s| - 1];
      }
    }
  }

  /** `s` with the elements at `i` and `j` exchanged. */
  function Swap(s: seq<int>, i: nat, j: nat): seq<int>
    requires i < |s| && j < |s|
  {
    s[i := s[j]][j := s[i]]
  }

  /** Exchanging two elements keeps the elements. */
  lemma SwapKeepsElements(s: seq<int>, i: nat, j: nat)
    requires i < |s| && j < |s|
    ensures |Swap(s, i, j)| == |s| && multiset(Swap(s, i, j)) == multiset(s)
  {
  }

  /** The demonstration input of the source and its sorted arrangement. */
  const ExampleInput: seq<int> := [55, 1, 4, 23, 53, 39, 42, 49, 12, 40, 74, 72]
  const ExampleSorted: seq<int> := [1, 4, 12, 23, 39, 40, 42, 49, 53, 55, 72, 74]

  /** Seven exchanges that turn `ExampleInput` into `ExampleSorted`; they keep its elements. */
  lemma ExampleSwapsKeepElements(a: seq<int>, b: seq<int>)
    requires |a| == 12
    requires b == Swap(Swap(Swap(Swap(Swap(Swap(Swap(a, 0, 1), 1, 2), 2, 8), 4, 5), 5, 9), 8, 9), 10, 11)
    ensures multiset(b) == multiset(a)
  {
    var t := a;
    SwapKeepsElements(t, 0, 1);
    t := Swap(t, 0, 1);
    SwapKeepsElements(t, 1, 2);
    t := Swap(t, 1, 2);
    SwapKeepsElements(t, 2, 8);
    t := Swap(t, 2, 8);
    SwapKeepsElements(t, 4, 5);
    t := Swap(t, 4, 5);
    SwapKeepsElements(t, 5, 9);
    t := Swap(t, 5, 9);
    SwapKeepsElements(t, 8, 9);
    t := Swap(t, 8, 9);
    SwapKeepsElements(t, 10, 11);
  }

  /** `ExampleSorted` has the elements of `ExampleInput`. */
  lemma ExampleIsPermutation()
    ensures multiset(ExampleSorted) == multiset(ExampleInput)
  {
    ExampleSwapsKeepElements(ExampleInput, ExampleSorted);
  }

  /** `ExampleSorted` is sorted: it is built by appending ever larger elements. */
  lemma ExampleIsSorted()
    ensures Sorted(ExampleSorted)
  {
    var e := [1, 4, 12, 23];
    assert Sorted(e);
    SortedSnoc(e, 39);
    e := e + [39];
    SortedSnoc(e, 40);
    e := e + [40];
    SortedSnoc(e, 42);
    e := e + [42];
    SortedSnoc(e, 49);
    e := e + [49];
    SortedSnoc(e, 53);
    e := e + [53];
    SortedSnoc(e, 55);
    e := e + [55];
    SortedSnoc(e, 72);
    e := e + [72];
    SortedSnoc(e, 74);
    e := e + [74];
    assert e == ExampleSorted;
  }

  /** The list of the source's demonstration, sorted in base 10. */
  method SortExample() returns (r: seq<int>)
    ensures r == ExampleSorted
  {
    ghost var passes;
    r, passes := RadixSort(ExampleInput, 10);
    ExampleIsPermutation();
    ExampleIsSorted();
    SortedPermutationUnique(r, ExampleSorted);
  }
}
