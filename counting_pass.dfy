/**
  One counting-sort pass of the LSD radix sort (`counting_sort`): a histogram
  of the digits, its inclusive prefix sums, and a reverse walk that places
  every element into a fresh output buffer.

  The stages and their specification are stated for a digit function `key`
  whose values lie in `0 .. radix - 1`; `CountingSort` runs them with the
  digit of `calculate_bucket_key`, `DigitKey(radix, exp, minElement)`.
  The result of a pass is specified by `StableByDigit`: the elements with
  digit 0 in their input order, then those with digit 1, and so on. The
  method `CountingSort` is proved to compute exactly that, and the lemmas
  below prove what the pass promises about it: a permutation of the input,
  ordered by digit, stable within each digit.
*/
module CountingPass {
  import opened Digits

  datatype Option<T> = None | Some(value: T)

  /** `key` maps every value to a bucket index `0 .. radix - 1`. */
  ghost predicate IsDigitKey(key: int -> int, radix: int)
  {
    radix >= 1 && forall v :: 0 <= key(v) < radix
  }

  /** The bucket index `key` gives the value `v`. */
  function KeyOf(key: int -> int, radix: int, v: int): (d: int)
    requires IsDigitKey(key, radix)
    ensures 0 <= d < radix
  {
    key(v)
  }

  /** The digit function of one pass: `calculate_bucket_key` at weight `exp`. */
  function DigitKey(radix: int, exp: int, minElement: int): (key: int -> int)
    requires radix >= 1 && exp >= 1
    ensures IsDigitKey(key, radix)
    ensures forall v :: key(v) == BucketKey(v, radix, exp, minElement)
  {
    v => BucketKey(v, radix, exp, minElement)
  }

  /** The elements among the first `n` of `s` whose digit is `d`,
      in their order in `s`. */
  function Bucket(s: seq<int>, n: nat, d: int, key: int -> int, radix: int): seq<int>
    requires IsDigitKey(key, radix) && n <= |s|
  {
    if n == 0 then []
    else
    if KeyOf(key, radix, s[n - 1]) == d then Bucket(s, n - 1, d, key, radix) + [s[n - 1]]
    else Bucket(s, n - 1, d, key, radix)
  }

  /** The elements of `s` whose digit is `d`, in their order in `s`. */
  function WithDigit(s: seq<int>, d: int, key: int -> int, radix: int): seq<int>
    requires IsDigitKey(key, radix)
  {
    Bucket(s, |s|, d, key, radix)
  }

  /** The blocks of digits `0 .. d - 1` laid end to end, each block in input order. */
  function Grouped(s: seq<int>, d: nat, key: int -> int, radix: int): seq<int>
    requires IsDigitKey(key, radix)
  {
    if d == 0 then []
    else Grouped(s, d - 1, key, radix) + WithDigit(s, d - 1, key, radix)
  }

  /** What one pass produces: every digit's block, in ascending digit order. */
  function StableByDigit(s: seq<int>, key: int -> int, radix: int): seq<int>
    requires IsDigitKey(key, radix)
  {
    Grouped(s, radix, key, radix)
  }

  /** Every element of `t` has digit `d`. */
  predicate AllHaveDigit(t: seq<int>, d: int, key: int -> int, radix: int)
    requires IsDigitKey(key, radix)
  {
    forall p :: 0 <= p < |t| ==> KeyOf(key, radix, t[p]) == d
  }

  /** The digits of `t` never decrease from left to right. */
  predicate OrderedByDigit(t: seq<int>, key: int -> int, radix: int)
    requires IsDigitKey(key, radix)
  {
    forall p, q :: 0 <= p < q < |t| ==>
      KeyOf(key, radix, t[p]) <= KeyOf(key, radix, t[q])
  }

  // ---------------------------------------------------------------------------
  // Facts about one digit's block
  // ---------------------------------------------------------------------------

  /** The block of digit `d` holds only elements whose digit is `d`. */
  lemma {:induction false} BucketMembers(s: seq<int>, n: nat, d: int, key: int -> int, radix: int)
    requires IsDigitKey(key, radix) && n <= |s|
    ensures AllHaveDigit(Bucket(s, n, d, key, radix), d, key, radix)
  {
    if n > 0 {
      BucketMembers(s, n - 1, d, key, radix);
      var pre := Bucket(s, n - 1, d, key, radix);
      var t := Bucket(s, n, d, key, radix);
      forall p | 0 <= p < |t|
        ensures KeyOf(key, radix, t[p]) == d
      {
        if p < |pre| {
          assert t[p] == pre[p];
        }
      }
    }
  }

  /** No element has a digit outside `0 .. radix - 1`. */
  lemma {:induction false} BucketOutOfRange(s: seq<int>, n: nat, d: int, key: int -> int, radix: int)
    requires IsDigitKey(key, radix) && n <= |s| && !(0 <= d < radix)
    ensures Bucket(s, n, d, key, radix) == []
  {
    if n > 0 {
      BucketOutOfRange(s, n - 1, d, key, radix);
    }
  }

  /** The block of a shorter prefix is a prefix of the block of a longer one. */
  lemma {:induction false} BucketPrefix(s: seq<int>, m: nat, n: nat, d: int, key: int -> int, radix: int)
    requires IsDigitKey(key, radix) && m <= n <= |s|
    ensures var pre, all := Bucket(s, m, d, key, radix), Bucket(s, n, d, key, radix);
      |pre| <= |all| && pre == all[..|pre|]
  {
    if m < n {
      BucketPrefix(s, m, n - 1, d, key, radix);
      var pre, mid := Bucket(s, m, d, key, radix), Bucket(s, n - 1, d, key, radix);
      var all := Bucket(s, n, d, key, radix);
      assert all[..|mid|] == mid;
      assert all[..|pre|] == mid[..|pre|];
    }
  }

  /** The element at input index `i` sits in its digit's block right after the
      earlier elements with the same digit. */
  lemma BucketSlot(s: seq<int>, i: nat, key: int -> int, radix: int)
    requires IsDigitKey(key, radix) && i < |s|
    ensures var k := KeyOf(key, radix, s[i]);
      var o := |Bucket(s, i, k, key, radix)|;
      o < |WithDigit(s, k, key, radix)| && WithDigit(s, k, key, radix)[o] == s[i]
  {
    var k := KeyOf(key, radix, s[i]);
    BucketPrefix(s, i + 1, |s|, k, key, radix);
    var next := Bucket(s, i + 1, k, key, radix);
    assert next[|next| - 1] == s[i];
  }

  /** The blocks of two sequences that agree on their first `n` elements agree up to `n`. */
  lemma {:induction false} BucketAgree(s: seq<int>, t: seq<int>, n: nat, d: int, key: int -> int, radix: int)
    requires IsDigitKey(key, radix) && n <= |s| && n <= |t|
    requires forall j :: 0 <= j < n ==> s[j] == t[j]
    ensures Bucket(s, n, d, key, radix) == Bucket(t, n, d, key, radix)
  {
    if n > 0 {
      BucketAgree(s, t, n - 1, d, key, radix);
    }
  }

  /** The block of `a + b` up to `|a| + m` is the block of `a` followed by the
      block of `b` up to `m`. */
  lemma {:induction false} BucketAppend(a: seq<int>, b: seq<int>, m: nat, d: int, key: int -> int, radix: int)
    requires IsDigitKey(key, radix) && m <= |b|
    ensures Bucket(a + b, |a| + m, d, key, radix)
         == WithDigit(a, d, key, radix) + Bucket(b, m, d, key, radix)
  {
    if m == 0 {
      BucketAgree(a + b, a, |a|, d, key, radix);
    } else {
      BucketAppend(a, b, m - 1, d, key, radix);
      assert (a + b)[|a| + m - 1] == b[m - 1];
    }
  }

  /** The block of `a + b` is the block of `a` followed by the block of `b`. */
  lemma WithDigitAppend(a: seq<int>, b: seq<int>, d: int, key: int -> int, radix: int)
    requires IsDigitKey(key, radix)
    ensures WithDigit(a + b, d, key, radix)
         == WithDigit(a, d, key, radix) + WithDigit(b, d, key, radix)
  {
    BucketAppend(a, b, |b|, d, key, radix);
  }

  /** The block of a one-element sequence. */
  lemma WithDigitSingle(v: int, d: int, key: int -> int, radix: int)
    requires IsDigitKey(key, radix)
    ensures WithDigit([v], d, key, radix)
         == if KeyOf(key, radix, v) == d then [v] else []
  {
    assert Bucket([v], 1, d, key, radix)
        == Bucket([v], 0, d, key, radix) + (if KeyOf(key, radix, v) == d then [v] else []);
  }

  /** Taking the block of digit `d` of the block of digit `e` up to `n` gives
      the block of `d` up to `n` when `d == e`, and nothing otherwise. */
  lemma {:induction false} BucketOfBucket(s: seq<int>, n: nat, e: int, d: int, key: int -> int, radix: int)
    requires IsDigitKey(key, radix) && n <= |s|
    ensures WithDigit(Bucket(s, n, e, key, radix), d, key, radix)
         == if d == e then Bucket(s, n, d, key, radix) else []
  {
    if n > 0 {
      var v := s[n - 1];
      var pre := Bucket(s, n - 1, e, key, radix);
      BucketOfBucket(s, n - 1, e, d, key, radix);
      if KeyOf(key, radix, v) == e {
        assert Bucket(s, n, e, key, radix) == pre + [v];
        WithDigitAppend(pre, [v], d, key, radix);
        WithDigitSingle(v, d, key, radix);
      } else {
        assert Bucket(s, n, e, key, radix) == pre + [];
        assert pre + [] == pre;
      }
    }
  }

  /** Taking the block of digit `d` of the block of digit `e` gives the block
      of `d` when `d == e`, and nothing otherwise. */
  lemma WithDigitOfBlock(s: seq<int>, e: int, d: int, key: int -> int, radix: int)
    requires IsDigitKey(key, radix)
    ensures WithDigit(WithDigit(s, e, key, radix), d, key, radix)
         == if d == e then WithDigit(s, d, key, radix) else []
  {
    BucketOfBucket(s, |s|, e, d, key, radix);
  }

  // ---------------------------------------------------------------------------
  // Facts about the blocks laid end to end
  // ---------------------------------------------------------------------------

  /** The first `d` blocks are a prefix of the first `e` blocks when `d <= e`. */
  lemma {:induction false} GroupedPrefix(s: seq<int>, d: nat, e: nat, key: int -> int, radix: int)
    requires IsDigitKey(key, radix) && d <= e
    ensures var g, h := Grouped(s, d, key, radix), Grouped(s, e, key, radix);
      |g| <= |h| && g == h[..|g|]
    decreases e - d
  {
    if d < e {
      GroupedPrefix(s, d, e - 1, key, radix);
    }
  }

  /** Offset `o` of digit `k`'s block lies at index `|Grouped(s, k)| + o` of the
      first `e` blocks, for every `e > k`. */
  lemma GroupedAt(s: seq<int>, k: nat, o: nat, e: nat, key: int -> int, radix: int)
    requires IsDigitKey(key, radix) && k < e
    requires o < |WithDigit(s, k, key, radix)|
    ensures |Grouped(s, k, key, radix)| + o < |Grouped(s, k + 1, key, radix)|
    ensures |Grouped(s, k + 1, key, radix)| <= |Grouped(s, e, key, radix)|
    ensures Grouped(s, e, key, radix)[|Grouped(s, k, key, radix)| + o]
         == WithDigit(s, k, key, radix)[o]
  {
    GroupedPrefix(s, k + 1, e, key, radix);
  }

  /** The elements among the first `n` of `s` whose digit is below `d`, in their order in `s`. */
  function Below(s: seq<int>, n: nat, d: int, key: int -> int, radix: int): seq<int>
    requires IsDigitKey(key, radix) && n <= |s|
  {
    if n == 0 then []
    else
    if KeyOf(key, radix, s[n - 1]) < d then Below(s, n - 1, d, key, radix) + [s[n - 1]]
    else Below(s, n - 1, d, key, radix)
  }

  /** Raising the bound from `d` to `d + 1` adds exactly the elements with digit `d`. */
  lemma {:induction false} BelowStep(s: seq<int>, n: nat, d: int, key: int -> int, radix: int)
    requires IsDigitKey(key, radix) && n <= |s|
    ensures multiset(Below(s, n, d + 1, key, radix))
         == multiset(Below(s, n, d, key, radix)) + multiset(Bucket(s, n, d, key, radix))
  {
    if n > 0 {
      BelowStep(s, n - 1, d, key, radix);
    }
  }

  /** No digit is below 0. */
  lemma {:induction false} BelowZero(s: seq<int>, n: nat, key: int -> int, radix: int)
    requires IsDigitKey(key, radix) && n <= |s|
    ensures Below(s, n, 0, key, radix) == []
  {
    if n > 0 {
      BelowZero(s, n - 1, key, radix);
    }
  }

  /** Every digit is below `radix`. */
  lemma {:induction false} BelowRadix(s: seq<int>, n: nat, key: int -> int, radix: int)
    requires IsDigitKey(key, radix) && n <= |s|
    ensures Below(s, n, radix, key, radix) == s[..n]
  {
    if n > 0 {
      BelowRadix(s, n - 1, key, radix);
      assert s[..n] == s[..n - 1] + [s[n - 1]];
    }
  }

  /** Multiset bookkeeping for appending one block. */
  lemma MultisetJoin(g: seq<int>, w: seq<int>, a: seq<int>, b: seq<int>)
    requires multiset(g) == multiset(a) && multiset(b) == multiset(a) + multiset(w)
    ensures multiset(g + w) == multiset(b)
  {
  }

  /** The first `d` blocks hold the same elements as the input's elements with digit below `d`. */
  lemma {:induction false} GroupedMultiset(s: seq<int>, d: nat, key: int -> int, radix: int)
    requires IsDigitKey(key, radix)
    ensures multiset(Grouped(s, d, key, radix)) == multiset(Below(s, |s|, d, key, radix))
  {
    if d == 0 {
      BelowZero(s, |s|, key, radix);
    } else {
      var e := d - 1;
      var g, w, a, b := Grouped(s, e, key, radix), WithDigit(s, e, key, radix),
                        Below(s, |s|, e, key, radix), Below(s, |s|, d, key, radix);
      assert Grouped(s, d, key, radix) == g + w;
      GroupedMultiset(s, e, key, radix);
      BelowStep(s, |s|, e, key, radix);
      MultisetJoin(g, w, a, b);
    }
  }

  /** The `radix` blocks together hold every element of the input exactly once. */
  lemma GroupedIsPermutation(s: seq<int>, key: int -> int, radix: int)
    requires IsDigitKey(key, radix)
    ensures multiset(Grouped(s, radix, key, radix)) == multiset(s)
    ensures |Grouped(s, radix, key, radix)| == |s|
  {
    GroupedMultiset(s, radix, key, radix);
    BelowRadix(s, |s|, key, radix);
    assert s[..|s|] == s;
    assert |multiset(Grouped(s, radix, key, radix))| == |Grouped(s, radix, key, radix)|;
  }

  /** Blocks ordered by digit with digits below `d`, followed by a block of
      digit `d`, are ordered by digit with digits below `d + 1`. */
  lemma AppendBlockOrdered(g: seq<int>, w: seq<int>, d: int, key: int -> int, radix: int)
    requires IsDigitKey(key, radix)
    requires OrderedByDigit(g, key, radix)
    requires forall p :: 0 <= p < |g| ==> KeyOf(key, radix, g[p]) < d
    requires AllHaveDigit(w, d, key, radix)
    ensures OrderedByDigit(g + w, key, radix)
    ensures forall p :: 0 <= p < |g + w| ==> KeyOf(key, radix, (g + w)[p]) < d + 1
  {
    var t := g + w;
    forall p, q | 0 <= p < q < |t|
      ensures KeyOf(key, radix, t[p]) <= KeyOf(key, radix, t[q])
    {
      if q < |g| {
        assert t[p] == g[p] && t[q] == g[q];
      } else if p < |g| {
        assert t[p] == g[p] && t[q] == w[q - |g|];
      } else {
        assert t[p] == w[p - |g|] && t[q] == w[q - |g|];
      }
    }
    forall p | 0 <= p < |t|
      ensures KeyOf(key, radix, t[p]) < d + 1
    {
      if p < |g| {
        assert t[p] == g[p];
      } else {
        assert t[p] == w[p - |g|];
      }
    }
  }

  /** The first `d` blocks are ordered by digit, and all their digits are below `d`. */
  lemma {:induction false} GroupedOrdered(s: seq<int>, d: nat, key: int -> int, radix: int)
    requires IsDigitKey(key, radix)
    ensures OrderedByDigit(Grouped(s, d, key, radix), key, radix)
    ensures forall p :: 0 <= p < |Grouped(s, d, key, radix)| ==>
      KeyOf(key, radix, Grouped(s, d, key, radix)[p]) < d
  {
    if d > 0 {
      var g, w := Grouped(s, d - 1, key, radix), WithDigit(s, d - 1, key, radix);
      assert Grouped(s, d, key, radix) == g + w;
      GroupedOrdered(s, d - 1, key, radix);
      BucketMembers(s, |s|, d - 1, key, radix);
      AppendBlockOrdered(g, w, d - 1, key, radix);
    }
  }

  /** The block of digit `d` of the first `e` blocks is the block of `d` of the
      input when `d < e`, and empty otherwise. */
  lemma {:induction false} WithDigitOfGrouped(s: seq<int>, e: nat, d: int, key: int -> int, radix: int)
    requires IsDigitKey(key, radix)
    ensures WithDigit(Grouped(s, e, key, radix), d, key, radix)
         == if 0 <= d < e then WithDigit(s, d, key, radix) else []
  {
    if e > 0 {
      WithDigitOfGrouped(s, e - 1, d, key, radix);
      WithDigitAppend(Grouped(s, e - 1, key, radix), WithDigit(s, e - 1, key, radix),
                      d, key, radix);
      WithDigitOfBlock(s, e - 1, d, key, radix);
    }
  }

  /** What a pass promises about its result: the same elements, ordered by
      digit, and for every digit the elements with that digit in their input order. */
  lemma StableByDigitCorrect(s: seq<int>, key: int -> int, radix: int)
    requires IsDigitKey(key, radix)
    ensures var r := StableByDigit(s, key, radix);
      && |r| == |s|
      && multiset(r) == multiset(s)
      && OrderedByDigit(r, key, radix)
      && forall d :: WithDigit(r, d, key, radix) == WithDigit(s, d, key, radix)
  {
    GroupedIsPermutation(s, key, radix);
    GroupedOrdered(s, radix, key, radix);
    forall d
      ensures WithDigit(StableByDigit(s, key, radix), d, key, radix)
           == WithDigit(s, d, key, radix)
    {
      WithDigitOfGrouped(s, radix, d, key, radix);
      if !(0 <= d < radix) {
        BucketOutOfRange(s, |s|, d, key, radix);
      }
    }
  }

  // ---------------------------------------------------------------------------
  // The counter table
  // ---------------------------------------------------------------------------

  /** The first `d` blocks hold as many elements as the input has with a digit below `d`. */
  lemma GroupedCount(s: seq<int>, d: nat, key: int -> int, radix: int)
    requires IsDigitKey(key, radix)
    ensures |Grouped(s, d, key, radix)| == |Below(s, |s|, d, key, radix)|
  {
    GroupedMultiset(s, d, key, radix);
    assert |multiset(Grouped(s, d, key, radix))| == |Grouped(s, d, key, radix)|;
    assert |multiset(Below(s, |s|, d, key, radix))| == |Below(s, |s|, d, key, radix)|;
  }

  /** The sum of the counters in `b`. */
  function Total(b: seq<int>): int
  {
    if |b| == 0 then 0 else Total(b[..|b| - 1]) + b[|b| - 1]
  }

  /** The first `k` counters of a histogram add up to the size of the first `k` blocks. */
  lemma {:induction false} HistogramPrefixTotal(s: seq<int>, b: seq<int>, k: nat, key: int -> int, radix: int)
    requires IsDigitKey(key, radix) && |b| == radix && k <= radix
    requires forall d :: 0 <= d < radix ==> b[d] == |WithDigit(s, d, key, radix)|
    ensures Total(b[..k]) == |Grouped(s, k, key, radix)|
  {
    if k > 0 {
      HistogramPrefixTotal(s, b, k - 1, key, radix);
      assert b[..k][..k - 1] == b[..k - 1];
    }
  }

  /** The counters of a histogram add up to the length of the input. */
  lemma HistogramTotal(s: seq<int>, b: seq<int>, key: int -> int, radix: int)
    requires IsDigitKey(key, radix) && |b| == radix
    requires forall d :: 0 <= d < radix ==> b[d] == |WithDigit(s, d, key, radix)|
    ensures Total(b) == |s|
  {
    HistogramPrefixTotal(s, b, radix, key, radix);
    assert b[..radix] == b;
    GroupedIsPermutation(s, key, radix);
  }

  /** The block ends the prefix sums compute never decrease, and the last is
      the length of the input. */
  lemma PrefixSumsShape(s: seq<int>, key: int -> int, radix: int)
    requires IsDigitKey(key, radix)
    ensures forall d: nat, e: nat :: d <= e ==> |Grouped(s, d, key, radix)| <= |Grouped(s, e, key, radix)|
    ensures |Grouped(s, radix, key, radix)| == |s|
  {
    forall d: nat, e: nat | d <= e
      ensures |Grouped(s, d, key, radix)| <= |Grouped(s, e, key, radix)|
    {
      GroupedPrefix(s, d, e, key, radix);
    }
    GroupedIsPermutation(s, key, radix);
  }

  // ---------------------------------------------------------------------------
  // The pass itself
  // ---------------------------------------------------------------------------

  /** Stage 1 (histogram): a fresh table of `radix` counters, counter `d`
      holding the number of elements whose digit is `d`. */
  method CountDigits(s: seq<int>, key: int -> int, radix: int) returns (buckets: array<int>)
    requires IsDigitKey(key, radix)
    ensures fresh(buckets) && buckets.Length == radix
    ensures forall d :: 0 <= d < radix ==> buckets[d] == |WithDigit(s, d, key, radix)|
    ensures Total(buckets[..]) == |s|
  {
    buckets := new int[radix](_ => 0);
    for i := 0 to |s|
      invariant forall d :: 0 <= d < radix ==> buckets[d] == |Bucket(s, i, d, key, radix)|
    {
      var index := KeyOf(key, radix, s[i]);
      buckets[index] := buckets[index] + 1;
    }
    HistogramTotal(s, buckets[..], key, radix);
  }

  /** Stage 2 (prefix sums, in place): counter `d` becomes the number of
      elements whose digit is at most `d`, the end of digit `d`'s block. */
  method AccumulateCounts(buckets: array<int>, ghost s: seq<int>, key: int -> int, radix: int)
    requires IsDigitKey(key, radix) && buckets.Length == radix
    requires forall d :: 0 <= d < radix ==> buckets[d] == |WithDigit(s, d, key, radix)|
    modifies buckets
    ensures forall d :: 0 <= d < radix ==> buckets[d] == |Grouped(s, d + 1, key, radix)|
    ensures forall d, e :: 0 <= d <= e < radix ==> buckets[d] <= buckets[e]
    ensures buckets[radix - 1] == |s|
  {
    for i := 1 to radix
      invariant forall d :: 0 <= d < i ==> buckets[d] == |Grouped(s, d + 1, key, radix)|
      invariant forall d :: i <= d < radix ==> buckets[d] == |WithDigit(s, d, key, radix)|
    {
      buckets[i] := buckets[i] + buckets[i - 1];
    }
    PrefixSumsShape(s, key, radix);
  }

  /** Slot `p` of the first `d` blocks lies inside the block of its own digit:
      between `|Grouped(s, k)|` and `|Grouped(s, k + 1)|` for that digit `k`. */
  lemma {:induction false} SlotInBlock(s: seq<int>, d: nat, p: nat, key: int -> int, radix: int)
    requires IsDigitKey(key, radix) && p < |Grouped(s, d, key, radix)|
    ensures var k := KeyOf(key, radix, Grouped(s, d, key, radix)[p]);
      && k < d
      && |Grouped(s, k, key, radix)| <= p < |Grouped(s, k + 1, key, radix)|
  {
    var e := d - 1;
    var g, w := Grouped(s, e, key, radix), WithDigit(s, e, key, radix);
    assert Grouped(s, d, key, radix) == g + w;
    if p < |g| {
      SlotInBlock(s, e, p, key, radix);
      var k := KeyOf(key, radix, g[p]);
      GroupedPrefix(s, k + 1, e, key, radix);
    } else {
      BucketMembers(s, |s|, e, key, radix);
      assert (g + w)[p] == w[p - |g|];
    }
  }

  /** The counters once the walk has handled every element from index `n` on:
      the counter of digit `d` stands `|Bucket(s, n, d)|` slots above the start
      of `d`'s block in the result of the pass. */
  ghost function Cursors(s: seq<int>, n: nat, key: int -> int, radix: int): (b: seq<int>)
    requires IsDigitKey(key, radix) && n <= |s|
    ensures |b| == radix
  {
    seq(radix, d requires 0 <= d < radix =>
      |Grouped(s, d, key, radix)| + |Bucket(s, n, d, key, radix)|)
  }

  /** The output buffer once the walk has handled every element from index `n`
      on: slot `p` is empty below the counter of its digit's block and holds
      the element the result of the pass has there from the counter on. */
  ghost function Buffer(s: seq<int>, n: nat, key: int -> int, radix: int): (o: seq<Option<int>>)
    requires IsDigitKey(key, radix) && n <= |s|
    ensures |o| == |s|
  {
    var r := StableByDigit(s, key, radix);
    var b := Cursors(s, n, key, radix);
    seq(|s|, p requires 0 <= p < |s| =>
      if p < |r| && b[KeyOf(key, radix, r[p])] <= p then Some(r[p]) else None)
  }

  /** The element at input index `i` belongs, in the result of the pass, at the
      start of its digit's block plus the number of earlier elements with that digit. */
  lemma SlotOfElement(s: seq<int>, i: nat, key: int -> int, radix: int)
    requires IsDigitKey(key, radix) && i < |s|
    ensures var k := KeyOf(key, radix, s[i]);
      var q := |Grouped(s, k, key, radix)| + |Bucket(s, i, k, key, radix)|;
      q < |StableByDigit(s, key, radix)| && StableByDigit(s, key, radix)[q] == s[i]
  {
    var k := KeyOf(key, radix, s[i]);
    BucketSlot(s, i, key, radix);
    GroupedAt(s, k, |Bucket(s, i, k, key, radix)|, radix, key, radix);
  }

  /** Handling `s[n - 1]` moves its digit's counter down by one and leaves the others. */
  lemma CursorsStep(s: seq<int>, n: nat, key: int -> int, radix: int)
    requires IsDigitKey(key, radix) && 0 < n <= |s|
    ensures var k := KeyOf(key, radix, s[n - 1]);
      var b := Cursors(s, n, key, radix);
      && b[k] - 1 == |Grouped(s, k, key, radix)| + |Bucket(s, n - 1, k, key, radix)|
      && b[k := b[k] - 1] == Cursors(s, n - 1, key, radix)
  {
    var k := KeyOf(key, radix, s[n - 1]);
    var b, c := Cursors(s, n, key, radix), Cursors(s, n - 1, key, radix);
    forall d | 0 <= d < radix
      ensures b[k := b[k] - 1][d] == c[d]
    {
    }
  }

  /** Handling `s[n - 1]` writes it at the slot just below its digit's counter,
      a slot that was empty, and changes no other slot. */
  lemma BufferStep(s: seq<int>, n: nat, key: int -> int, radix: int)
    requires IsDigitKey(key, radix) && 0 < n <= |s|
    ensures var q := Cursors(s, n, key, radix)[KeyOf(key, radix, s[n - 1])] - 1;
      var o := Buffer(s, n, key, radix);
      && 0 <= q < |o| && o[q] == None
      && o[q := Some(s[n - 1])] == Buffer(s, n - 1, key, radix)
  {
    var r := StableByDigit(s, key, radix);
    var k := KeyOf(key, radix, s[n - 1]);
    var b, c := Cursors(s, n, key, radix), Cursors(s, n - 1, key, radix);
    var q := b[k] - 1;
    CursorsStep(s, n, key, radix);
    assert q < |r| && r[q] == s[n - 1] by {
      SlotOfElement(s, n - 1, key, radix);
    }
    assert |r| == |s| by {
      GroupedIsPermutation(s, key, radix);
    }
    var o, u := Buffer(s, n, key, radix), Buffer(s, n - 1, key, radix);
    forall p | 0 <= p < |s|
      ensures o[q := Some(s[n - 1])][p] == u[p]
    {
      assert c[KeyOf(key, radix, r[p])] == b[k := q][KeyOf(key, radix, r[p])];
    }
  }

  /** Before the walk: each counter is at the end of its block and the buffer is empty. */
  lemma InitialState(s: seq<int>, b: seq<int>, o: seq<Option<int>>, key: int -> int, radix: int)
    requires IsDigitKey(key, radix) && |b| == radix && |o| == |s|
    requires forall d :: 0 <= d < radix ==> b[d] == |Grouped(s, d + 1, key, radix)|
    requires forall p :: 0 <= p < |o| ==> o[p] == None
    ensures b == Cursors(s, |s|, key, radix) && o == Buffer(s, |s|, key, radix)
  {
    var c := Cursors(s, |s|, key, radix);
    forall d | 0 <= d < radix
      ensures b[d] == c[d]
    {
      assert Grouped(s, d + 1, key, radix)
          == Grouped(s, d, key, radix) + WithDigit(s, d, key, radix);
    }
    var r := StableByDigit(s, key, radix);
    var u := Buffer(s, |s|, key, radix);
    forall p | 0 <= p < |o|
      ensures o[p] == u[p]
    {
      if p < |r| {
        SlotInBlock(s, radix, p, key, radix);
      }
    }
  }

  /** After the walk: every counter is at the start of its block and every slot
      holds the element the result of the pass has there. */
  lemma FinalState(s: seq<int>, key: int -> int, radix: int)
    requires IsDigitKey(key, radix)
    ensures |StableByDigit(s, key, radix)| == |s|
    ensures forall d :: 0 <= d < radix ==> Cursors(s, 0, key, radix)[d] == |Grouped(s, d, key, radix)|
    ensures forall p :: 0 <= p < |s| ==> Buffer(s, 0, key, radix)[p] == Some(StableByDigit(s, key, radix)[p])
  {
    var r := StableByDigit(s, key, radix);
    GroupedIsPermutation(s, key, radix);
    var b := Cursors(s, 0, key, radix);
    forall p | 0 <= p < |s|
      ensures b[KeyOf(key, radix, r[p])] <= p
    {
      SlotInBlock(s, radix, p, key, radix);
    }
  }

  /** Stage 3 (stable placement): walking the input from its last element to
      its first, decrement the element's counter and write the element at that
      slot. Every slot of `out` is written exactly once, with the element the
      specified result has there, and every counter ends at the start of its block. */
  method PlaceElements(s: seq<int>, key: int -> int, radix: int, buckets: array<int>, out: array<Option<int>>)
    requires IsDigitKey(key, radix) && buckets.Length == radix && out.Length == |s|
    requires forall d :: 0 <= d < radix ==> buckets[d] == |Grouped(s, d + 1, key, radix)|
    requires forall p :: 0 <= p < out.Length ==> out[p] == None
    modifies buckets, out
    ensures |StableByDigit(s, key, radix)| == out.Length
    ensures forall d :: 0 <= d < radix ==> buckets[d] == |Grouped(s, d, key, radix)|
    ensures forall p :: 0 <= p < out.Length ==> out[p] == Some(StableByDigit(s, key, radix)[p])
  {
    InitialState(s, buckets[..], out[..], key, radix);
    ReverseWalk(s, key, radix, buckets, out);
    FinalState(s, key, radix);
  }

  /** The loop of stage 3: the elements from the last to the first, each one
      written just below its digit's counter. */
  method ReverseWalk(s: seq<int>, key: int -> int, radix: int, buckets: array<int>, out: array<Option<int>>)
    requires IsDigitKey(key, radix)
    requires buckets[..] == Cursors(s, |s|, key, radix) && out[..] == Buffer(s, |s|, key, radix)
    modifies buckets, out
    ensures buckets[..] == Cursors(s, 0, key, radix) && out[..] == Buffer(s, 0, key, radix)
  {
    var n := |s|;
    while n > 0
      invariant 0 <= n <= |s|
      invariant buckets[..] == Cursors(s, n, key, radix) && out[..] == Buffer(s, n, key, radix)
    {
      PlaceOne(s, n, key, radix, buckets, out);
      n := n - 1;
    }
  }

  /** One step of the reverse walk, for the element `s[n - 1]`: decrement the
      counter of its digit and write it at the slot the counter then names, a
      slot not written before. */
  method PlaceOne(s: seq<int>, n: nat, key: int -> int, radix: int, buckets: array<int>, out: array<Option<int>>)
    requires IsDigitKey(key, radix) && 0 < n <= |s|
    requires buckets[..] == Cursors(s, n, key, radix) && out[..] == Buffer(s, n, key, radix)
    modifies buckets, out
    ensures buckets[..] == Cursors(s, n - 1, key, radix) && out[..] == Buffer(s, n - 1, key, radix)
  {
    CursorsStep(s, n, key, radix);
    BufferStep(s, n, key, radix);
    var index := KeyOf(key, radix, s[n - 1]);
    ghost var b0, o0 := buckets[..], out[..];
    buckets[index] := buckets[index] - 1;
    var q := buckets[index];
    assert buckets[..] == b0[index := q];
    out[q] := Some(s[n - 1]);
    assert out[..] == o0[q := Some(s[n - 1])];
  }

  /** One counting-sort pass on the digit at weight `exp`. The bucket table and
      the output buffer are fresh arrays; the input is only read. */
  method CountingSort(s: seq<int>, radix: int, exp: int, minElement: int) returns (output: seq<int>)
    requires radix >= 1 && exp >= 1
    ensures output == StableByDigit(s, DigitKey(radix, exp, minElement), radix)
    ensures |output| == |s| && multiset(output) == multiset(s)
    ensures OrderedByDigit(output, DigitKey(radix, exp, minElement), radix)
    ensures forall d :: WithDigit(output, d, DigitKey(radix, exp, minElement), radix)
                     == WithDigit(s, d, DigitKey(radix, exp, minElement), radix)
  {
    var key := DigitKey(radix, exp, minElement);
    var buckets := CountDigits(s, key, radix);
    var seqLength := |s|;
    var out := new Option<int>[seqLength](_ => None);
    AccumulateCounts(buckets, s, key, radix);
    PlaceElements(s, key, radix, buckets, out);
    output := seq(seqLength, p requires 0 <= p < seqLength && out[p].Some? reads out => out[p].value);
    StableByDigitCorrect(s, key, radix);
  }
}
