# Verified model of the Go algorithm exercises

This project models the algorithm exercises of the repository in Dafny and
proves what each exercise promises. The exercises are the LeetCode-style
functions under `task01/` and the pointer exercise under `task02/indexTask`:

- removing duplicates from a sorted slice (two solutions);
- finding the single number (three solutions);
- two-sum (two solutions);
- merging intervals;
- validating brackets;
- palindrome numbers (two solutions);
- longest common prefix;
- adding through an `*int` and doubling a slice through a pointer.

Each Go file becomes one module:

| module | file |
|---|---|
| `Dedup` | `remove_duplicates.dfy` |
| `SingleNumber` | `single_number.dfy` |
| `TwoSum` | `two_sum.dfy` |
| `Intervals` | `merge.dfy` |
| `Brackets` | `is_valid.dfy` |
| `Palindromes` | `is_palindrome.dfy` |
| `Prefixes` | `longest_common_prefix.dfy` |
| `Pointers` | `index_task.dfy` |

Two shared modules sit underneath:

- `GoBuiltins` (`go_builtins.dfy`) models Go's `int`, `byte`, wrap-around arithmetic and `^`.
- `Sorting` (`sorting.dfy`) models `sort.Sort` and `sort.Slice` by their contract.

How Go is modelled:

- **Integers.** A Go `int` is the 64-bit newtype `int64`. Every sum, difference and product the code computes on element values goes through `Wrap`, which is the explicit modulo-2^64 wrap-around. Counts and indices are unbounded `int`s: they never exceed the length of a slice, so they cannot overflow.
- **XOR.** `^` is the exclusive or of the two's-complement bit patterns (`Bits`, `Xor`, `XorInt`).
- **Reading.** Slices that a function only reads are arrays without `modifies`, or sequences.
- **Writing in place.** Slices that a function writes are `array`s, and the function's contract states the new contents.
- **Strings.**
  - Go strings indexed byte by byte are `seq<byte>`.
  - The text `strconv.Itoa` writes is a `seq<char>` of ASCII characters.
- **Panics.** Out-of-range indexing panics in Go. Where the code can panic, the Dafny member requires what prevents the panic.
- **Map order.** Go ranges over a map in an unspecified order. The model ranges by an arbitrary choice (`:|`), so the proofs hold for every order.
- **Library sorts.** `sort.Sort` and `sort.Slice` are specified only by their contract: the result is sorted by the key and is a permutation of the input (`Sorting.SortInPlace`). The insertion sort behind that contract is one sort that meets it, not the library's algorithm.

## Model

| member | source | states |
|---|---|---|
| GoBuiltins.Wrap | task02/indexTask/main.go:11 | The value a Go `int` holds after an arithmetic result overflows: it equals the result when that fits in 64 bits, and is congruent to it modulo 2^64 in every case. |
| GoBuiltins.WrapIff | task01/twoSum/main.go:32 | `Wrap(x) == y` holds exactly when `x` and `y` are congruent modulo 2^64. |
| GoBuiltins.WrapSubAdd | task01/twoSum/main.go:57-61 | Under wrap-around, `target - b == a` holds exactly when `a + b == target`. So the complement lookup agrees with the direct sum check even when the arithmetic overflows. |
| GoBuiltins.XorZero | task01/singleNumber/main.go:69 | `a ^ 0 == a`. |
| GoBuiltins.XorSelf | task01/singleNumber/main.go:68 | `a ^ a == 0`. |
| GoBuiltins.XorComm | task01/singleNumber/main.go:70 | `^` is commutative. |
| GoBuiltins.XorAssoc | task01/singleNumber/main.go:70 | `^` is associative. |
| GoBuiltins.XorInt | task01/singleNumber/main.go:76 | Go's `result ^= num` on two `int`s: the bit pattern of the result is the exclusive or of the operands' bit patterns. |
| Sorting.SortInPlace | task01/singleNumber/main.go:20 | `sort.Sort` and `sort.Slice` by contract: afterwards the slice is non-decreasing by the comparison key, and it holds the same multiset of elements as before. |
| Sorting.SortBy | task01/merge/main.go:37-39 | A reference sort: its result is a sorted permutation of its input, of the same length. |
| Dedup.Compress | task01/removeDuplicates/main.go:24-30 | The elements kept by the scan (the first element, then each element that differs from its predecessor). The result is empty iff the input is, is no longer than it, and starts and ends with its first and last elements. |
| Dedup.CompressSorted | task01/removeDuplicates/main.go:7-10 | On a non-decreasing slice, the kept elements are strictly increasing and are exactly the distinct values of the slice. |
| Dedup.CompressValues | task01/removeDuplicates/main.go:24-30 | The scan keeps every value of the slice and invents none. |
| Dedup.StrictlyIncreasingCount | task01/removeDuplicates/main.go:9 | A strictly increasing sequence has as many elements as distinct values. |
| Dedup.CompressCountsDistinct | task01/removeDuplicates/main.go:9 | On a non-decreasing slice, the number of kept elements is the number of distinct values. |
| Dedup.RemoveDuplicates | task01/removeDuplicates/main.go:20-32 | `removeDuplicates` on a non-empty slice, without writing to it. It returns the length of the compressed slice, which lies between 1 and the slice length. For a non-decreasing slice this is the number of distinct values. |
| Dedup.RemoveDuplicatesInPlace | task01/removeDuplicates/main.go:36-54 | `removeDuplicatesSZZ`. On a non-empty slice it returns `k`, the length of the compressed original. Afterwards `nums[:k]` is that compressed sequence and `nums[k:]` still holds the original values. On an empty slice it returns 1. |
| Dedup.CompactedReads | task01/removeDuplicates/main.go:44-46 | Since writes happen only at `slow <= fast`, the two positions each iteration compares still hold their original values. |
| Dedup.CompactedCopy | task01/removeDuplicates/main.go:46-48 | Copying a new value to `nums[slow]` extends the kept prefix by exactly that value and keeps the tail original. |
| Dedup.CompactedSkip | task01/removeDuplicates/main.go:46 | Skipping a repeated value keeps the loop's state as it is. |
| Dedup.CountsAgree | task01/removeDuplicates/main.go:20-54 | On every non-empty slice the two solutions return the same count. |
| Dedup.CompressShortExample | task01/removeDuplicates/main.go:12-14 | [1,1,2] compresses to [1,2]. |
| Dedup.RemoveDuplicatesShortExample | task01/removeDuplicates/main.go:12-14 | [1,1,2] run through both solutions: both return 2, and the in-place one leaves [1,2] at the front of the slice. |
| Dedup.CompressExample | task01/removeDuplicates/main.go:16-17 | [0,0,1,1,1,2,2,3,3,4] compresses to [0,1,2,3,4]. |
| Dedup.EmptySliceExample | task01/removeDuplicates/main.go:38-52 | On an empty slice the fast/slow solution returns 1: `slow` starts at 1 and the loop never runs. |
| Dedup.RemoveDuplicatesExample | task01/removeDuplicates/main.go:56-62 | The program's input [0,0,1,1,1,2,2,3,3,4]: both solutions return 5, and the in-place one leaves [0,1,2,3,4] at the front of the slice. |
| SingleNumber.LonelyIffOnce | task01/singleNumber/main.go:22-33 | In a sorted slice, an element differs from each neighbour it has exactly when its value occurs once. |
| SingleNumber.LonelyAlone | task01/singleNumber/main.go:27 | In a sorted slice, a value that differs from its neighbours occurs nowhere else. |
| SingleNumber.CountAround | task01/singleNumber/main.go:27 | The count of the value at `i` is its occurrences before `i`, plus one, plus its occurrences after `i`. |
| SingleNumber.FirstLonelyIsLeastSingle | task01/singleNumber/main.go:22-30 | The first position that differs from its neighbours holds the least value that occurs exactly once. |
| SingleNumber.NoLonelyNoSingle | task01/singleNumber/main.go:32-36 | When no position differs from its neighbours, no value occurs once, so -1 is the right answer. |
| SingleNumber.OnceIsSingle | task01/singleNumber/main.go:10-11 | Under the problem's promise, any value that occurs once is the single number. |
| SingleNumber.LeastIsSingle | task01/singleNumber/main.go:10-11 | Under the problem's promise, the least value occurring once is the single number. |
| SingleNumber.SingleNumberSort | task01/singleNumber/main.go:18-38 | `singleNumber` on a slice of at least two elements. It leaves `nums` as a sorted permutation of the input. It returns the least value that occurs exactly once, or -1 when no value does. |
| SingleNumber.SingleNumberMap | task01/singleNumber/main.go:44-62 | `singleNUmberMap`, for every map iteration order. It returns a value that occurs exactly once if there is one, and -1 otherwise. Under the problem's promise it returns the single number. It does not write to `nums`. |
| SingleNumber.XorAll | task01/singleNumber/main.go:74-78 | The loop `result ^= num` from 0, as a left fold over bit patterns. It has no contract of its own. What it equals is stated by XorAllEven (0 when every count is even), XorAllSingle (the single number under the promise) and SingleNumberXor. |
| SingleNumber.XorAllRemove | task01/singleNumber/main.go:70 | Any one element can be taken out of the XOR fold and applied last. |
| SingleNumber.PairedLast | task01/singleNumber/main.go:68 | When every value occurs an even number of times, the last element also occurs earlier. |
| SingleNumber.DropPair | task01/singleNumber/main.go:68 | Removing two equal elements keeps every count even. |
| SingleNumber.XorAllEven | task01/singleNumber/main.go:66-70 | If every value occurs an even number of times, the XOR of all elements is 0. |
| SingleNumber.XorAllSingle | task01/singleNumber/main.go:66-70 | Under the problem's promise, the XOR of all elements is the single number's bit pattern. |
| SingleNumber.SingleNumberXor | task01/singleNumber/main.go:72-81 | `singleNumberYh` returns the XOR of all elements. Under the problem's promise, that is the single number. |
| SingleNumber.ExampleInput | task01/singleNumber/main.go:85 | [4,1,2,1,2] meets the problem's promise, with 4 as the single number. |
| SingleNumber.SingleNumberExample | task01/singleNumber/main.go:85 | [4,1,2,1,2]: all three solutions return 4. |
| SingleNumber.MainInputOnce | task01/singleNumber/main.go:86 | In [4,5,2,4,5,2,1,2,1,3], 2 occurs three times, so the problem's promise does not hold. Still, 3 is the only value that occurs once. |
| SingleNumber.MainInputXor | task01/singleNumber/main.go:86 | The exclusive or of [4,5,2,4,5,2,1,2,1,3] is 1: the third 2 is left over, and 2 ^ 3 is 1. |
| SingleNumber.SingleNumberMainExample | task01/singleNumber/main.go:83-92 | The program's input [4,5,2,4,5,2,1,2,1,3]: the map solution (the one `main` prints) returns 3, the documented answer, and so does the sort solution. The exclusive-or solution returns 1, because the input breaks the promise it relies on. |
| TwoSum.Hits | task01/twoSum/main.go:32 | The test `nums[i]+nums[j] == target` for two positions `i < j`, with the sum wrapped as Go computes it. It has no contract of its own; TwoSum and TwoSumMap are stated in terms of it. |
| TwoSum.TwoSum | task01/twoSum/main.go:28-38 | `twoSum` returns `nil` exactly when no pair `i < j` sums (with wrap-around) to `target`. Otherwise it returns such a pair, and it is the lexicographically least one. |
| TwoSum.ComplementHit | task01/twoSum/main.go:57-60 | An earlier index `k` pairs with `i` exactly when `nums[k]` equals the complement `target - nums[i]`. |
| TwoSum.RemembersStep | task01/twoSum/main.go:65 | Storing `nums[i] -> i` keeps the map's meaning: it maps every value seen so far to the latest index holding it. |
| TwoSum.TwoSumMap | task01/twoSum/main.go:40-69 | `toSumMap` returns `nil` exactly when no pair exists. Otherwise it returns a pair `idx < i` that sums to `target`. Its `i` is the least second index of any pair, and `idx` is the latest partner of that `i`. |
| TwoSum.TwoSumExample1 | task01/twoSum/main.go:15-17 | [2,7,11,15] with target 9 gives [0,1] from both solutions. |
| TwoSum.TwoSumExample2 | task01/twoSum/main.go:20-21 | [3,2,4] with target 6 gives [1,2] from both solutions. |
| TwoSum.TwoSumExample3 | task01/twoSum/main.go:24-25 | [3,3] with target 6 gives [0,1] from both solutions. |
| Intervals.Absorb | task01/merge/main.go:52-60 | One sweep step either keeps the number of merged intervals or adds one. |
| Intervals.Sweep | task01/merge/main.go:42-61 | The merged intervals of a sorted slice: between 1 and as many as the input when it is non-empty, none when it is empty. |
| Intervals.AbsorbInside | task01/merge/main.go:52-54 | An interval that lies inside the last merged interval changes nothing. |
| Intervals.SweepEndpoints | task01/merge/main.go:42-59 | Every merged start is an input start, and every merged end is an input end. |
| Intervals.SweepCovers | task01/merge/main.go:12 | On input sorted by start, the merged intervals cover exactly the points the input covers. Points are real numbers, so the gap between [1,2] and [3,4] counts and the two are not merged. |
| Intervals.SweepSeparated | task01/merge/main.go:52-60 | On well-formed input, each merged interval is well formed and ends strictly before the next one starts. So touching intervals are merged. |
| Intervals.SweepOfPermutation | task01/merge/main.go:10-61 | What `merge` promises about its input, for any sorted permutation of it. The merged intervals cover exactly the input's real points (so only overlapping or touching intervals are joined) and take their endpoints from the input. On well-formed input they are well formed and separated. |
| Intervals.ExtendStep | task01/merge/main.go:54-55 | Extending `last[1]` writes through to the input entry that the last merged interval shares. The loop state is kept. |
| Intervals.KeepStep | task01/merge/main.go:52-54 | An interval inside the last merged one changes neither the result nor the input. |
| Intervals.AppendStep | task01/merge/main.go:57-59 | Appending `current` makes its input entry the one that the new last merged interval shares. |
| Intervals.Merge | task01/merge/main.go:30-65 | `merge`. Slices of length 0 or 1 are returned unchanged and unsorted. Otherwise the slice is sorted in place by start, and the result is the sweep of that order. Each result entry shares storage with one input entry: the entry of the sorted order at which the sweep opens that merged interval. So extended ends also appear in the input, at a fixed place even when starts repeat. The result has between 1 and as many intervals as the input. |
| Intervals.SweepExample | task01/merge/main.go:15-16 | [[1,3],[2,6],[8,10],[15,18]] merges to [[1,6],[8,10],[15,18]]. |
| Intervals.TouchingExample | task01/merge/main.go:20-22 | [[1,4],[4,5]] merges to [[1,5]]. |
| Intervals.AdjacentExample | task01/merge/main.go:52-59 | [[1,2],[3,4]] stays as it is: 3 is after 2, so the intervals neither overlap nor touch, and the point 2.5 lies in neither. |
| Intervals.UnsortedExample | task01/merge/main.go:25-27 | [[4,7],[1,4]] sorts to [[1,4],[4,7]] and merges to [[1,7]]. |
| Intervals.UnsortedExampleShared | task01/merge/main.go:37-55 | After merging [[4,7],[1,4]], the input slice itself reads [[1,7],[4,7]], because the merged interval is its first entry. |
| Intervals.RepeatedStartShared | task01/merge/main.go:42-55 | With two equal starts, sorted as [[1,2],[1,3]], the only head is entry 0. `last[1] = 3` widens it, so the input ends as [[1,3],[1,3]]. |
| Intervals.MergeExample | task01/merge/main.go:25-27 | [[4,7],[1,4]] run through `merge`: the result is [[1,7]], and the input slice afterwards reads [[1,7],[4,7]]. |
| Brackets.Pairs | task01/isValid/main.go:38-42 | The `paris` table maps exactly the three closing brackets, and each one to an opening bracket. |
| Brackets.Step | task01/isValid/main.go:45-62 | One loop iteration: a closing bracket pops the matching opening bracket off the top, or fails when the stack is empty or its top differs; any other byte is pushed. It has no contract of its own; RunIffBalanced states what the steps add up to. |
| Brackets.Run | task01/isValid/main.go:44-64 | The loop: the stack after feeding the bytes one by one from a starting stack, or failure at the first early `return false`. It has no contract of its own; RunIffBalanced and IsValid state its meaning. |
| Brackets.RunSnoc | task01/isValid/main.go:44-64 | Reading one more byte is one more stack step. |
| Brackets.RunAppend | task01/isValid/main.go:44-64 | Reading `u + v` is reading `u` and then `v`, and a failure stays a failure. |
| Brackets.RunFrame | task01/isValid/main.go:52-61 | Entries below the starting stack are never inspected while a run succeeds. |
| Brackets.RunUnframe | task01/isValid/main.go:52-61 | A run that never digs below its starting stack does not depend on it. |
| Brackets.RunPrefix | task01/isValid/main.go:52-54 | Every prefix of a successful run succeeds. |
| Brackets.BalancedRuns | task01/isValid/main.go:8-11 | Soundness: reading a well-nested string returns any stack to what it was. |
| Brackets.FirstPushed | task01/isValid/main.go:52-61 | A successful run from the empty stack starts by pushing a non-closing byte. |
| Brackets.FirstReturn | task01/isValid/main.go:52-57 | The first time the stack is empty again, the byte read closes the first byte, and the part in between returns the empty stack to empty. |
| Brackets.RunsBalanced | task01/isValid/main.go:8-11 | Completeness: a string that takes the empty stack back to empty is well nested. |
| Brackets.RunIffBalanced | task01/isValid/main.go:44-65 | The stack loop ends with an empty stack exactly when the string is well nested. |
| Brackets.BalancedBrackets | task01/isValid/main.go:48-61 | A well-nested string holds only the six bracket bytes. Any other byte is pushed and never popped, so the answer is false. |
| Brackets.BalancedEven | task01/isValid/main.go:30-32 | Well-nested strings have even length, so the early `false` for odd lengths loses nothing. |
| Brackets.IsValid | task01/isValid/main.go:28-66 | `isValid` returns true exactly when the string is well nested. The loop invariant is that the stack is what the bytes read so far leave on the empty stack. |
| Brackets.PairBalanced | task01/isValid/main.go:13-14 | An opening bracket, its closer, then a well-nested rest, is well nested. |
| Brackets.ValidFlatExample | task01/isValid/main.go:13-14 | "()" and "()[]{}" are valid. |
| Brackets.ValidNestedExample | task01/isValid/main.go:16 | "([])" is valid. |
| Brackets.InvalidExamples | task01/isValid/main.go:15-17 | "(]" and "([)]" are not valid. |
| Brackets.IsValidExamples | task01/isValid/main.go:13-17 | The five documented strings run through `isValid`: "()", "()[]{}" and "([])" give true; "(]" and "([)]" give false. |
| Palindromes.DigitChar | task01/isPalindrome/main.go:26 | The character of a decimal digit, from '0' to '9'. |
| Palindromes.Digits | task01/isPalindrome/main.go:26 | The decimal digits of a natural number. There is at least one, all are digits, and there is no leading zero (a leading '0' only for 0). There is a single digit exactly below 10. |
| Palindromes.Itoa | task01/isPalindrome/main.go:26 | `strconv.Itoa`: a leading '-' exactly for negative numbers, then decimal digits. |
| Palindromes.ValueDigits | task01/isPalindrome/main.go:26 | The digits denote the number. |
| Palindromes.AtoiItoa | task01/isPalindrome/main.go:26 | Reading `Itoa`'s text back as a number gives the original number. |
| Palindromes.ItoaInjective | task01/isPalindrome/main.go:26 | Different numbers have different texts. |
| Palindromes.Reverse | task01/isPalindrome/main.go:30-32 | The reverse of a text: same length, with position `k` holding position `len-1-k`. |
| Palindromes.ReverseReverse | task01/isPalindrome/main.go:30-32 | Reversing twice gives the original. |
| Palindromes.MirroredIffReverse | task01/isPalindrome/main.go:51-54 | The two-pointer condition (each character equals its mirror image) holds exactly when the text equals its reverse. |
| Palindromes.ReverseInPlace | task01/isPalindrome/main.go:30-32 | The swap loop turns the rune slice into exactly its reverse. |
| Palindromes.IsPalindrome | task01/isPalindrome/main.go:24-39 | `isPalindrome` returns true exactly when the `Itoa` text equals its reverse. |
| Palindromes.IsPalindromeStr | task01/isPalindrome/main.go:45-60 | `isPalindromeStr` returns true exactly when each character of the `Itoa` text equals its mirror image. |
| Palindromes.SolutionsAgree | task01/isPalindrome/main.go:24-60 | The two solutions agree on every `int`. |
| Palindromes.NegativeNotPalindrome | task01/isPalindrome/main.go:47-53 | No negative number is a palindrome: its leading '-' never matches its last digit. |
| Palindromes.DigitPalindrome | task01/isPalindrome/main.go:49-51 | Every number from 0 to 9 is a palindrome. |
| Palindromes.TrailingZeroNotPalindrome | task01/isPalindrome/main.go:47-53 | No positive multiple of ten is a palindrome. |
| Palindromes.ItoaExamples | task01/isPalindrome/main.go:15 | The texts of 121, 454 and 123 are "121", "454" and "123". |
| Palindromes.IsPalindromeExamples | task01/isPalindrome/main.go:62-72 | The inputs of `main`: 121 and 454 are palindromes and 123 is not. Also -121 is not. |
| Prefixes.PrefixTrans | task01/longestCommonPrefix/main.go:38 | A prefix of a prefix is a prefix, so each cut keeps the candidate a prefix of the strings seen so far. |
| Prefixes.PrefixesOrdered | task01/longestCommonPrefix/main.go:33-38 | Of two prefixes of one string, the shorter one is a prefix of the longer one. |
| Prefixes.LongestCommonPrefix | task01/longestCommonPrefix/main.go:21-47 | `longestCommonPrefix` returns "" for an empty list and the string itself for a one-element list. Otherwise it returns a prefix of every string, and every common prefix is a prefix of the result, so the result is the longest common prefix. The early `""` return agrees with this. |
| Prefixes.FlowerBytes | task01/longestCommonPrefix/main.go:11 | The bytes of "flower", "flow", "flight" and "fl". |
| Prefixes.LongestCommonPrefixExamples | task01/longestCommonPrefix/main.go:9-17 | ["flower","flow","flight"] gives "fl", and ["dog","racecar","car"] gives "". |
| Pointers.IntVar.constructor | task02/indexTask/main.go:28 | A fresh variable holds its initial value. |
| Pointers.PlusTen | task02/indexTask/main.go:11 | The value `*nums += 10` stores: exactly `x + 10` when that fits, and wrapped around past the largest `int` otherwise. |
| Pointers.PlusTenUndo | task02/indexTask/main.go:11 | Adding 10 loses no information: subtracting 10 (with wrap-around) restores the old value. |
| Pointers.Increase | task02/indexTask/main.go:10-12 | `increase` sets the pointed-to variable to its old value plus 10, and changes nothing else. |
| Pointers.Twice | task02/indexTask/main.go:21 | The value `x *= 2` stores: exactly `2x` when that fits, and always even (wrap-around keeps parity). |
| Pointers.Doubled | task02/indexTask/main.go:20-22 | Every element doubled, with the same length. |
| Pointers.DoubleSlice | task02/indexTask/main.go:18-24 | `doubleSlice` leaves every element twice its old value (with wrap-around) and keeps the length. An empty slice stays unchanged. |
| Pointers.PointersExample | task02/indexTask/main.go:26-42 | The program's `main`: 5 becomes 15, and [1,2,3,4,5,7] becomes [2,4,6,8,10,14]. |

## Left out

- The blog backend (`blog-backend/`) is not part of this model. It is HTTP handlers over a web framework and an ORM, with password hashing and tokens from libraries.
- The database tutorials (`task03/`) are not part of this model. They are sequential calls against a live database.
- The concurrency demos and the geometry demo under `task02/` are not part of this model. Their point is goroutines, channels, locks and floating point.
- All `main` functions and `fmt` printing are left out. The documented inputs and the inputs each `main` passes appear as example members instead. The one exception is the commented-out alternative input `[3,4,5,4,5,3,2,1,2]` at task01/singleNumber/main.go:87, which has no example.
- The internals of `sort.Sort` and `sort.Slice` are left out. Only their contract is modelled: sorted by the key, and a permutation of the input. Which permutation the library picks among equal keys is therefore not fixed by the model.
- Go map hashing and iteration order are left out. `SingleNumber.SingleNumberMap` ranges by an arbitrary choice, and its contract holds for every order.
- Index-out-of-range panics are preconditions, not modelled failures: `removeDuplicates` on an empty slice, and `singleNumber` on fewer than two elements.
- The interval model takes every inner slice to have exactly two elements. An inner slice of another length would panic, or be ignored beyond index 1.
- A 32-bit `int` platform is not modelled. `int` is 64 bits throughout.
- `strconv.Itoa` is modelled on its ASCII output. The `[]rune` conversion in `isPalindrome` is then one rune per byte, so runes are modelled as `char`s.
- The pointer to the slice header in `doubleSlice` is not modelled separately. The function only writes elements through it, never the header, so the slice is its backing array.
- Intervals.Merge: the method's own contract states only that the result is the sweep of a sorted permutation of the input. What that means for the input (coverage, endpoints, separation) is stated once, by `Intervals.SweepOfPermutation`, rather than repeated on the method.
- The fast/slow pointer solution returns 1 on an empty slice, because `slow` starts at 1 and the loop never runs. The model keeps that answer. The problem statement never passes an empty slice, so this is not reported as a defect.
- Intervals.Merge: the inner slices of the input are modelled as values, so the model assumes that no two of them share storage. In Go they may. For `buf := []int{1,5,9}` and the input `[][]int{buf[0:2], buf[1:3]}`, the write `last[1] = 9` also changes the start of the second entry, and the input ends as [[1,9],[9,9]], while `Shared` says [[1,9],[5,9]]. The result agrees in that case. The model also keeps no link between the result's entries and the input's inner slices after `merge` returns, so a later write through one is not seen in the other.
