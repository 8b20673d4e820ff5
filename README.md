# LSD radix sort

A Dafny model of the least-significant-digit radix sort in
`sorts/radix_lsd_sort.py`:

- `calculate_bucket_key` is the digit of `v - min_element` at weight `exp` in
  base `radix` (module `Digits`, file `digits.dfy`);
- `counting_sort` is one stable counting-sort pass on that digit: build a
  histogram of the digits, turn it into inclusive prefix sums, then walk the
  input from the last element to the first and place each element just below
  its digit's counter in a fresh output buffer (module `CountingPass`, file
  `counting_pass.dfy`);
- `radix_sort` returns a list of length 0 or 1 unchanged, and runs no pass
  when `max == min`. Otherwise it runs one pass per base-`radix` digit of
  `max - min`, at weights `1, radix, radix^2, ...` (module `RadixDriver`, file
  `radix_driver.dfy`).

The pass works on arrays, as the source does: an `int` array for the counters
and an `Option<int>` array for the output buffer (the source's `[None] * n`).
The method `CountingSort`, and each of its three stages, is proved against the
specification function `StableByDigit` and the blocks it is built from
(`WithDigit`, the elements of one digit in input order, and `Grouped`, the
first blocks laid end to end). `StableByDigit` is the elements with digit 0,
in their input order, then those with digit 1, and so on. Lemmas then prove what the
pass promises about `StableByDigit`:

- it is a permutation of the input;
- it is ordered by digit;
- it is stable within each digit.

The driver is proved to return a sorted permutation of its input. The argument
is the usual LSD invariant: after the pass at weight `exp`, the sequence is
ordered by `(v - min) mod (exp * radix)`. Two sorted permutations of one
sequence are equal, so the source's demonstration list has exactly one
possible result, and `SortExample` proves that result.

The source reads digits with floating-point division, a float `%` and
`math.floor`. The model uses integer floor division and floor modulo instead.
Two lemmas prove that, over exact reals, the source's expression (line 29) and
its loop guard (line 114) equal the integer forms.

## Model

| member | source | states |
|---|---|---|
| Digits.BucketKey | sorts/radix_lsd_sort.py:29 | the bucket index of any element is a valid index `0 .. radix - 1` of the bucket table |
| Digits.BucketKeyMatchesFloatDigit | sorts/radix_lsd_sort.py:29 | over exact reals, `floor(((v - min) / exp) % radix)` equals the integer digit `BucketKey`, for every integer `v`, including values below `min` |
| Digits.ResidueSplit | sorts/radix_lsd_sort.py:29 | `(v - min) mod (exp * radix)` splits into the digit at weight `exp`, times `exp`, plus `(v - min) mod exp` |
| Digits.LoopGuardMatchesFloatGuard | sorts/radix_lsd_sort.py:114 | over exact reals, the guard `(max - min) / exp >= 1` holds exactly when `max - min >= exp` |
| CountingPass.KeyOf | sorts/radix_lsd_sort.py:60 | the digit used to index the bucket table lies in `0 .. radix - 1`, so `buckets[index]` is always in range |
| CountingPass.DigitKey | sorts/radix_lsd_sort.py:29 | the digit function of a pass maps every value into `0 .. radix - 1`, and agrees with `BucketKey` on every value |
| CountingPass.CountDigits | sorts/radix_lsd_sort.py:44-61 | a fresh table of `radix` counters; counter `d` is the number of input elements with digit `d`, and the counters add up to the input length |
| CountingPass.HistogramTotal | sorts/radix_lsd_sort.py:59-61 | any histogram of digits adds up to the length of the input |
| CountingPass.HistogramPrefixTotal | sorts/radix_lsd_sort.py:59-61 | the first `k` counters of a histogram add up to the number of elements in the first `k` digit blocks |
| CountingPass.AccumulateCounts | sorts/radix_lsd_sort.py:80-81 | after the prefix sums, counter `d` is the end of digit `d`'s block in the result, the table is non-decreasing, and the last counter is the input length |
| CountingPass.PrefixSumsShape | sorts/radix_lsd_sort.py:80-81 | block ends never decrease with the digit, and all `radix` blocks together are as long as the input |
| CountingPass.GroupedCount | sorts/radix_lsd_sort.py:80-81 | the end of the first `d` blocks equals the number of input elements with a digit below `d` |
| CountingPass.GroupedMultiset | sorts/radix_lsd_sort.py:83-95 | the first `d` blocks hold exactly the input elements with a digit below `d`, with multiplicity |
| CountingPass.GroupedIsPermutation | sorts/radix_lsd_sort.py:83-95 | the result of a pass holds every input element exactly once: a permutation of the input, of the same length |
| CountingPass.SlotOfElement | sorts/radix_lsd_sort.py:85-93 | input element `i` belongs at the start of its digit's block, plus the number of earlier elements with the same digit |
| CountingPass.CursorsStep | sorts/radix_lsd_sort.py:85-89 | handling one element lowers only its own digit's counter, by one, to that element's slot in the result |
| CountingPass.BufferStep | sorts/radix_lsd_sort.py:89-93 | the slot written for one element is in range and still empty, and writing it produces the next state of the buffer; no slot is written twice |
| CountingPass.InitialState | sorts/radix_lsd_sort.py:44-48 | the prefix-sum table and the all-`None` buffer are the state of the reverse walk before any element is handled |
| CountingPass.FinalState | sorts/radix_lsd_sort.py:83-95 | after the walk, every counter is at the start of its block and every slot holds the element of the specified result |
| CountingPass.PlaceOne | sorts/radix_lsd_sort.py:85-93 | one step of the reverse walk takes the counter table and the buffer from their state before element `n - 1` to their state after it |
| CountingPass.ReverseWalk | sorts/radix_lsd_sort.py:83-93 | the reverse walk takes the counters and the buffer from their initial state to their final state |
| CountingPass.PlaceElements | sorts/radix_lsd_sort.py:83-93 | after placement, every slot of the output buffer is filled with the element of the specified result, and each counter is at the start of its block |
| CountingPass.StableByDigitCorrect | sorts/radix_lsd_sort.py:32-95 | the result of a pass has the input's elements, its digits never decrease, and the elements of each digit keep their input order (a stable pass) |
| CountingPass.CountingSort | sorts/radix_lsd_sort.py:32-95 | the pass returns exactly the stable grouping by digit, a permutation of the input ordered by digit that keeps the input order within each digit |
| RadixDriver.Min | sorts/radix_lsd_sort.py:109 | the result is an element of the list and no element is smaller |
| RadixDriver.Max | sorts/radix_lsd_sort.py:110 | the result is an element of the list and no element is larger |
| RadixDriver.ResidueOrder | sorts/radix_lsd_sort.py:114-118 | ordering by (digit at weight `exp`, residue mod `exp`) is ordering by residue mod `exp * radix` |
| RadixDriver.SameDigitInInputOrder | sorts/radix_lsd_sort.py:116 | two result elements with the same digit keep their input order, so when the input is ordered by residue they are too |
| RadixDriver.PassExtendsOrder | sorts/radix_lsd_sort.py:114-118 | a pass at weight `exp` on a sequence ordered by residue mod `exp` yields a sequence ordered by residue mod `exp * radix` |
| RadixDriver.SortedByResidueOne | sorts/radix_lsd_sort.py:111 | before any pass (weight 1), every sequence is ordered by residue |
| RadixDriver.ResidueOrderIsOrder | sorts/radix_lsd_sort.py:114-120 | once the weight exceeds `max - min`, ordered by residue is sorted |
| RadixDriver.FinalWeightSorts | sorts/radix_lsd_sort.py:114-120 | when the loop stops, the weight exceeds `max - min`, and a permutation of the input ordered by residue modulo that weight is sorted |
| RadixDriver.RadixSort | sorts/radix_lsd_sort.py:98-120 | a list of length 0 or 1, or with all elements equal, comes back unchanged after no pass; every result is a sorted permutation of the input; when `max > min` the number of passes is the number of base-`radix` digits of `max - min` |
| RadixDriver.SortTwice | sorts/radix_lsd_sort.py:98-120 | sorting a result again gives the same result (the sort is idempotent) |
| RadixDriver.SortInTwoRadices | sorts/radix_lsd_sort.py:98-120 | any two radices of at least 2 give the same result; only the number of passes depends on the radix |
| RadixDriver.SortedPermutationUnique | sorts/radix_lsd_sort.py:103 | two sorted arrangements of the same elements are equal, so the promise of line 103 fixes the result |
| RadixDriver.SortExample | sorts/radix_lsd_sort.py:126-127 | sorting `[55, 1, 4, 23, 53, 39, 42, 49, 12, 40, 74, 72]` in base 10 gives `[1, 4, 12, 23, 39, 40, 42, 49, 53, 55, 72, 74]` |

## Left out

- Printing the result and the commented-out input parsing (lines 123-127) are I/O. `SortExample` models only the call.
- Floating-point rounding is not modelled. The source divides with floats. `BucketKeyMatchesFloatDigit` and `LoopGuardMatchesFloatGuard` relate the integer model to the exact-real reading only. Rounding for very large values is not covered.
- The `OverflowError` Python raises when the quotient of an integer division is too large for a float (about 1.8e308) is not modelled; the model's integers are unbounded. In `radix_sort` this happens exactly when `max - min` is that large: the first guard, at `exp = 1`, raises before any pass runs.
- The complexity claims in the module docstring (lines 7-13) are not modelled.
- The docstring says the sort is not stable (line 6). The code is stable, and the model follows the code: `StableByDigitCorrect` proves stability.
- The default `radix=10` (line 98) is not modelled; callers always pass `radix`. `SortExample` passes 10.
- RadixSort: the source never checks `radix`. Below 2 it loops forever (radix 1) or fails (radix 0 and below) whenever a pass runs. So the model requires `radix >= 2` except when no pass runs (length 0 or 1, or all elements equal).
- RadixSort: Python returns the caller's own list object whenever no pass runs (length 0 or 1, or all elements equal), and otherwise a new list. Aliasing is not modelled; the model returns values.
- CountingSort: the source states no precondition. The model requires `radix >= 1` and `exp >= 1`, which every call from `radix_sort` meets. `min_element` need not be the minimum: the digit is defined, and the pass is proved, for values below it too.
- The stages of the pass are stated for any digit function with values in `0 .. radix - 1`. `CountingSort` uses them with the digit of `calculate_bucket_key`. The argument list of `calculate_bucket_key` (a list and an index) becomes the element itself.
- After placement, the output is read out of the `Option` buffer as a sequence. Every slot is proved to be filled.
- The reverse loop `for i in range(n - 1, -1, -1)` is written with `n = i + 1` counting down from `len(seq)` to 1.
