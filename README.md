# Verified models of competitive-programming kernels

This repository is a set of C++ solutions to competitive-programming problems,
under `lvl2/` (course modules) and `contests/`. Each solution is one `main()`
that reads test cases, computes and prints. This project lifts the computation
of 29 of them out of the I/O loop. Each becomes one Dafny module, named after
what it computes, in a file named after its source (`m2_day5_2_bit_buying.dfy`
for `lvl2/module_2/day5_2.cpp`, `c4_1_cost_relax.dfy` for
`contests/contest4/1.cpp`).

The solutions work step by step, so almost all of them are modelled as methods
with loops. Arrays are filled in place where the C++ fills a `vector`. Each
method is proved against specification functions, and lemmas state what those
functions mean: the subarrays counted, the cheapest path, the largest
affordable value, the shortest array. The XOR/MEX solution
(`lvl2/module_3/day5_1.cpp`) is a closed formula with no loop, so it is
modelled as functions and lemmas.

Shared modules:

- `Sums`: sums and prefix sums.
- `Sorting`: `std::sort` as a functional insertion sort, and in-place array
  sorts specified by it.
- `Bits`: bits, XOR, OR, AND and popcount on natural numbers.
- `CppInt`: C++ `/` and `%`, which truncate toward zero.
- `Coverage`: the difference-array technique shared by two solutions.

Library containers are modelled by their values:

- `std::map<long long, int>` counters are multisets.
- `std::set<int, greater<int>>` is a strictly descending sequence.
- `priority_queue` is a sequence kept in descending order.
- `deque` is a sequence.
- `queue` is a sequence popped at the front.

## Model

| member | source | states |
|---|---|---|
| RangeSum.BuildPrefixSums | lvl2/day1_1.cpp:12-16 | `ps[i]` is the sum of `a[0..i]` for every `i`; the array must be non-empty, as `ps[0] = a[0]` reads `a[0]` |
| RangeSum.RangeQuery | lvl2/day1_1.cpp:24-28 | the answer to the 1-based query `l r` is the sum of `a[l-1..r-1]`, and for `l == 1` it is `ps[r-1]` alone |
| SubarraySum.StartsFromPrefixBag | lvl2/module_1/day1_2.cpp:16 | the number of starts `i < k` whose subarray `a[i..j-1]` sums to `x` equals the count of `P(j) - x` among the first `k` prefix sums |
| SubarraySum.CountSubarrays | lvl2/module_1/day1_2.cpp:11-19 | `ans` is the number of subarrays that sum to `x`, as counted by a direct definition over all `(i, j)`; the map ends holding all `n + 1` prefix sums |
| SortedRangeSums.Precompute | lvl2/module_1/day2_2.cpp:12-24 | `pre` holds the prefix sums of `a`, `sorted_a` is `a` sorted ascending, and `pre_cost` holds the prefix sums of `sorted_a` |
| SortedRangeSums.Query | lvl2/module_1/day2_2.cpp:26-36 | type 1 answers the sum of `a[l-1..r-1]`; any other type answers the sum of the same range of the sorted copy |
| SortedRangeSums.TotalsAgree | lvl2/module_1/day2_2.cpp:12-24 | both prefix arrays end at the same total, because sorting only reorders `a` |
| StarGrid.Cell | lvl2/module_1/day3_1.cpp:16 | a cell counts 1 exactly when it holds `*` and 0 otherwise |
| StarGrid.StarsSplitRows | lvl2/module_1/day3_1.cpp:24-27 | a rectangle's star count is the sum of the counts above and below any middle row, the identity behind the inclusion-exclusion recurrence |
| StarGrid.StarsSplitCols | lvl2/module_1/day3_1.cpp:24-27 | a rectangle's star count is the sum of the counts left and right of any middle column |
| StarGrid.StarsBounds | lvl2/module_1/day3_1.cpp:36-39 | a rectangle holds between 0 and its area of stars |
| StarGrid.PrefixMonotone | lvl2/module_1/day3_1.cpp:21-29 | prefix rectangles never hold fewer stars as either corner grows |
| StarGrid.ReadGrid | lvl2/module_1/day3_1.cpp:11-18 | the `n x n` 0/1 matrix holds 1 exactly at the stars of the grid |
| StarGrid.BuildPrefix | lvl2/module_1/day3_1.cpp:21-29 | `pre[i][j]` is the number of stars in rows `0..i` and columns `0..j` |
| StarGrid.Query | lvl2/module_1/day3_1.cpp:31-40 | the answer is the number of stars in the rectangle with 1-based corners `(l1, r1)` and `(l2, r2)`, between 0 and its area |
| DivisibleSubarrays.Residue | lvl2/module_1/day3_2.cpp:17 | `(sum % n + n) % n` lies in `[0, n)` and is the mathematical residue of `sum` |
| DivisibleSubarrays.ResidueAgrees | lvl2/module_1/day3_2.cpp:17 | with C++'s truncating `%`, `(sum % n + n) % n` equals the non-negative residue for sums of either sign |
| DivisibleSubarrays.ModDifference | lvl2/module_1/day3_2.cpp:17-25 | two prefix sums differ by a multiple of `n` exactly when their residues agree |
| DivisibleSubarrays.PairsSmall | lvl2/module_1/day3_2.cpp:21-25 | the `== 2` branch's single increment, and the skipped counts 0 and 1, agree with the pair count `c(c-1)/2` |
| DivisibleSubarrays.StartsFromResidueBag | lvl2/module_1/day3_2.cpp:14-18 | the number of starts `i < k` whose subarray ending before `j` has a sum divisible by `n` is the count of `P(j)`'s residue among the first `k` prefix residues |
| DivisibleSubarrays.PairTotalCountsSubarrays | lvl2/module_1/day3_2.cpp:20-26 | summing `c(c-1)/2` over the residue buckets counts exactly the subarrays whose sum `n` divides |
| DivisibleSubarrays.CountDivisible | lvl2/module_1/day3_2.cpp:11-26 | `ans` is the number of non-empty subarrays whose sum is divisible by `n`, the length of `a`; the map holds `n + 1` residues, each in `[0, n)` |
| Coverage.CoveredBound | lvl2/module_1/day4_1.cpp:18-25 | no index is covered by more ranges than there are |
| Coverage.DiffAtBeyond | lvl2/module_1/day4_1.cpp:24 | no difference cell at or beyond the limit is marked |
| Coverage.CoveredAtZero | lvl2/module_1/day4_1.cpp:29 | index 0 is covered by exactly the ranges its difference cell counts |
| Coverage.CoveredStep | lvl2/module_1/day4_1.cpp:30-32 | moving from `t - 1` to `t` changes the coverage by the difference cell at `t` |
| Coverage.GuardOnlyAtLimit | lvl2/module_1/day4_1.cpp:15 | below the limit, a difference array one cell longer holds the same marks, so the extra cell changes no prefix |
| Coverage.PrefixIsCoverage | lvl2/module_1/day4_1.cpp:28-32 | the running sum of the difference cells up to `m - 1` is the number of ranges covering `m - 1` |
| Coverage.AddSpans | lvl2/module_1/day4_1.cpp:18-25 | after `diff[l]++` and the guarded `diff[r + 1]--` for every range, each cell holds the starts minus the ends that fall on it |
| QuerySum.ClippedSumStep | lvl2/module_1/day4_1.cpp:38-41 | one more index `m` adds `v[m]` to the part of a range lying below `m + 1` exactly when the range covers `m` |
| QuerySum.DotCoverageStep | lvl2/module_1/day4_1.cpp:38-41 | removing the last query takes its range sum, clipped to the first `m` indices, off the coverage-weighted total |
| QuerySum.CoverageRow | lvl2/module_1/day4_1.cpp:38-41 | the last index adds its value times its coverage to the weighted total |
| QuerySum.DotCoverageIsQueryTotal | lvl2/module_1/day4_1.cpp:38-41 | weighting each value by its coverage count gives the total of all query answers over those values |
| QuerySum.CoverageCounts | lvl2/module_1/day4_1.cpp:15-32 | `prefix` is the coverage count of each index, each between 0 and the number of queries |
| QuerySum.DotProduct | lvl2/module_1/day4_1.cpp:38-41 | `ans` is the sum of `a[i] * prefix[i]` |
| QuerySum.MaxQuerySum | lvl2/module_1/day4_1.cpp:15-41 | `a` ends sorted descending in place, and the answer is the dot product of that order with the coverage counts sorted descending |
| Recommended.HotFlags | lvl2/module_1/day5_1.cpp:19-30 | the corrected flag of a temperature is 1 exactly when at least `k` recipes cover it, and 0 exactly when fewer do |
| Recommended.HotCountBound | lvl2/module_1/day5_1.cpp:39-45 | a range holds no more admissible temperatures than it has temperatures |
| Recommended.FlagSumCounts | lvl2/module_1/day5_1.cpp:32-37 | summing the corrected flags over a range counts its admissible temperatures |
| Recommended.CappedFlagMissesOverlap | lvl2/module_1/day5_1.cpp:23 | the capped running sum as written loses the coverage: recipes `1..2` and `2..2` with `k = 2` cover temperature 2 twice, yet its flag is 0 |
| Recommended.FlagStep | lvl2/module_1/day5_1.cpp:23-29 | each flag as written is 1 exactly when the previous, already capped, flag plus the next difference cell reaches `k` |
| Recommended.CappedFlagsAsWritten | lvl2/module_1/day5_1.cpp:20-30 | the array as written: cell 0 is the raw difference cell and every later cell is the capped flag, 0 or 1 |
| Recommended.HotFlagArray | lvl2/module_1/day5_1.cpp:20-30 | corrected loop: the flags array is exactly the corrected flags, 1 where at least `k` recipes cover the temperature |
| Recommended.QueryAnswer | lvl2/module_1/day5_1.cpp:39-45 | an answer read off the prefix sums of the flags is the number of admissible temperatures in `l..r`, between 0 and `r - l + 1` |
| Recommended.AnswerQuestions | lvl2/module_1/day5_1.cpp:39-45 | one answer per question, each the number of admissible temperatures in `l..r` and at most `r - l + 1` |
| Recommended.Recommend | lvl2/module_1/day5_1.cpp:11-45 | the whole kernel with the corrected flags: one answer per question, each the number of temperatures in `l..r` covered by at least `k` recipes |
| PopCount.BitCountCountsPositions | lvl2/module_2/day1_2.cpp:11-15 | for any width that holds `x`, counting the positions with a 1 bit gives the number of set bits |
| PopCount.LowCountsPositions | lvl2/module_2/day1_2.cpp:12-14 | the set bits of the low `i` bits of `x` are its 1 positions below `i` |
| PopCount.CountBits | lvl2/module_2/day1_2.cpp:11-15 | `count` is the number of set bits of `x`; 0 for `x == 0`, at most 31 for an `int` |
| XorShift.ShiftedInRange | lvl2/module_2/day2_1.cpp:31 | for `k < 1024`, every `a[j] ^ k` is below 1024 and so indexes `temp_freq` |
| XorShift.CountsDetermine | lvl2/module_2/day2_1.cpp:33 | two bags of values below 1024 are equal exactly when their 1024 counts agree |
| XorShift.FrequencyTablesAgree | lvl2/module_2/day2_1.cpp:33 | two frequency tables are equal exactly when the bags they count are equal |
| XorShift.Frequencies | lvl2/module_2/day2_1.cpp:19-22 | `freq[v]` is the number of occurrences of `v`, for all 1024 values |
| XorShift.SmallestStableShift | lvl2/module_2/day2_1.cpp:19-37 | `k` is -1 exactly when no `1 <= i < 1024` maps the bag of values onto itself; otherwise `k` does and no smaller positive `i` does |
| PowerBlocks.Block | lvl2/module_2/day2_3.cpp:15-16 | the block starting at `2^m`, cut at `n`, has between 1 and `2^m` elements |
| PowerBlocks.TopExp | lvl2/module_2/day2_3.cpp:14 | the exponent of the largest power of two not above `n`: `2^e <= n < 2^(e+1)` |
| PowerBlocks.TopExpUnique | lvl2/module_2/day2_3.cpp:14-18 | the loop stops after exactly `TopExp(n) + 1` doublings: no other exponent `e` has `2^(e-1) <= n < 2^e` |
| PowerBlocks.FullBlocks | lvl2/module_2/day2_3.cpp:15-16 | every block below the top one is full, so the longest of them is the previous power of two |
| PowerBlocks.BestBlockClosedForm | lvl2/module_2/day2_3.cpp:12-18 | the answer is the longer of the last full block and the cut top block, between 1 and `n` |
| PowerBlocks.LongestBlock | lvl2/module_2/day2_3.cpp:12-19 | `ans` is the longest block `[2^m, min(n, 2^(m+1) - 1)]`, in closed form the larger of `2^e / 2` and `n - 2^e + 1`, between 1 and `n`; 0 when `n <= 0` |
| EarlierBits.SeenBeforeMeans | lvl2/module_2/day3_2.cpp:21-25 | the `found` flag for bit `i` at position `j` is set exactly when some earlier element has bit `i` |
| EarlierBits.YBit | lvl2/module_2/day3_2.cpp:20-29 | bit `i` of `y[j]` is set exactly when `i < 30`, some earlier element has bit `i`, and `arr[j]` lacks it |
| EarlierBits.YDisjoint | lvl2/module_2/day3_2.cpp:26-27 | `y[j] & arr[j] == 0` and `y[j] < 2^30` |
| EarlierBits.YFirst | lvl2/module_2/day3_2.cpp:18-29 | nothing precedes the first element, so `y[0] == 0` |
| EarlierBits.YCellStep | lvl2/module_2/day3_2.cpp:23-28 | `y[j] += 1 << i` adds bit `i` to the value exactly when `found` is set and `arr[j]` lacks bit `i` |
| EarlierBits.BuildY | lvl2/module_2/day3_2.cpp:18-30 | `y[j]` is, for every `j`, the number whose bits are those of the earlier elements missing from `arr[j]`, below bit 30 |
| PowersOfK.Power | lvl2/module_2/day4_1.cpp:22-25 | `k^e` is at least 1 |
| PowersOfK.PowerStep | lvl2/module_2/day4_1.cpp:23-24 | each multiplication by `k` makes the power strictly larger, and dividing by `k` undoes it |
| PowersOfK.NextPower | lvl2/module_2/day4_1.cpp:40 | `max_power_k /= k` steps from `k^e` to `k^(e-1)`, and from `k^0 = 1` to 0, which ends the loop |
| PowersOfK.Largest | lvl2/module_2/day4_1.cpp:21 | `*max_element` is at least every element |
| PowersOfK.LargestIn | lvl2/module_2/day4_1.cpp:21 | `*max_element` is one of the elements |
| PowersOfK.LeastExp | lvl2/module_2/day4_1.cpp:22-25 | the least exponent `r >= e` with `k^r >= v` |
| PowersOfK.Decompose | lvl2/module_2/day4_1.cpp:28-41 | each element is what it keeps plus the powers it takes |
| PowersOfK.TakenIsUsers | lvl2/module_2/day4_1.cpp:29-35 | the pass's `count` is the number of elements that take that power |
| PowersOfK.UsersShift | lvl2/module_2/day4_1.cpp:28-41 | after the pass with `k^e`, the takers of each lower power are the same as before |
| PowersOfK.RunCharacterized | lvl2/module_2/day4_1.cpp:27-41 | the run stops with `found` set exactly when some power has two takers; otherwise every element ends at its own greedy remainder |
| PowersOfK.YesMeansDisjointPowers | lvl2/module_2/day4_1.cpp:43-47 | a "Yes" means every element is exactly the sum of the powers it took, and no power was taken by two elements |
| PowersOfK.RunKeepsNonNegative | lvl2/module_2/day4_1.cpp:31-32 | subtracting only from elements at least `p` never makes one negative |
| PowersOfK.LargestZero | lvl2/module_2/day4_1.cpp:43 | on non-negative values the largest is 0 exactly when all are 0 |
| PowersOfK.LeastPowerAtLeast | lvl2/module_2/day4_1.cpp:22-25 | `max_power_k` ends as the least power of `k` that reaches the maximum |
| PowersOfK.SubtractPass | lvl2/module_2/day4_1.cpp:29-35 | the array becomes one pass of `p`, and `count` is the number of elements that were at least `p` |
| PowersOfK.PowersVerdict | lvl2/module_2/day4_1.cpp:20-47 | the array ends as the run from the least power reaching the maximum down to `k^0`, and "Yes" is printed exactly when no power clashed and every element reached 0 |
| GreedyOr.OrAllBit | lvl2/module_2/day4_2.cpp:16 | a bit is set in the OR of a sequence exactly when some element has it |
| GreedyOr.CurrentStep | lvl2/module_2/day4_2.cpp:23-25 | taking one more element ORs it into `cur_or` |
| GreedyOr.SaturatedIsOrAll | lvl2/module_2/day4_2.cpp:22 | once no untaken element raises `cur_or`, it is the OR of the whole array |
| GreedyOr.SaturatedBit | lvl2/module_2/day4_2.cpp:22 | once saturated, `cur_or` has exactly the bits of the whole array's OR |
| GreedyOr.PickGrows | lvl2/module_2/day4_2.cpp:17-25 | a best pick makes `cur_or` strictly larger |
| GreedyOr.OrStrictlyGrows | lvl2/module_2/day4_2.cpp:12-26 | along a run of best picks, every pick makes `cur_or` strictly larger |
| GreedyOr.RestBelow | lvl2/module_2/day4_2.cpp:24 | flagging an index at or beyond `m` leaves the untaken elements among the first `m` as they were |
| GreedyOr.RestTakeAt | lvl2/module_2/day4_2.cpp:24 | flagging index `b` removes exactly one element, `a[b]`, from the untaken elements, at the position given by the untaken elements before `b` |
| GreedyOr.RestTake | lvl2/module_2/day4_2.cpp:23-24 | flagging `b` moves `a[b]` out of the bag of untaken elements |
| GreedyOr.RestHas | lvl2/module_2/day4_2.cpp:29-30 | an unflagged index leaves its element among the untaken ones |
| GreedyOr.BestUnused | lvl2/module_2/day4_2.cpp:13-21 | `best` is -1, with `best_val == cur_or`, exactly when no untaken element raises the OR; otherwise `best` is untaken, raises it, gives the largest OR, and is the first index that does |
| GreedyOr.GreedyPhase | lvl2/module_2/day4_2.cpp:12-26 | the picks are distinct indices, each a best pick at its step, the phase ends saturated, `used` flags exactly the picks, and `ans` holds the picked elements in order, which with the untaken ones make up `a` |
| GreedyOr.AppendUnused | lvl2/module_2/day4_2.cpp:29-30 | the untaken elements are appended in index order |
| GreedyOr.ArrangeForOr | lvl2/module_2/day4_2.cpp:4-31 | the printed sequence is the best picks followed by the untaken elements in index order, a permutation of `a`; the final `cur_or` is the OR of the whole array |
| GreedyOr.ScanMeans | lvl2/module_2/day4_2.cpp:13-22 | the scan's -1 means saturated, and any other index is a best pick |
| GreedyOr.Advance | lvl2/module_2/day4_2.cpp:23-25 | one best pick keeps every invariant of the greedy phase and ORs the element into `cur_or` |
| GreedyOr.FlagsTake | lvl2/module_2/day4_2.cpp:24 | `used[best] = 1` sets exactly the flag of the new pick |
| GreedyOr.FlagsMean | lvl2/module_2/day4_2.cpp:15 | a flag is set exactly for a taken index |
| GreedyOr.BagStep | lvl2/module_2/day4_2.cpp:23-24 | the taken and the untaken elements stay a permutation of `a` after a pick |
| GreedyOr.AllTakenSaturated | lvl2/module_2/day4_2.cpp:12 | after `n` picks nothing is left untaken, so the phase is saturated |
| GreedyOr.UntakenInRest | lvl2/module_2/day4_2.cpp:29-30 | every unflagged index has its element among the untaken ones |
| GreedyOr.ExtendPicks | lvl2/module_2/day4_2.cpp:12-26 | one more best pick extends the record of best picks |
| EvenOddXor.XorAllSplit | lvl2/module_2/day5_1.cpp:77-79 | the XOR of all elements is the XOR of the even-position XOR with the odd-position XOR |
| EvenOddXor.BalancedIffZero | lvl2/module_2/day5_1.cpp:77-79 | the even and odd positions have equal XORs exactly when the XOR of all elements is 0 |
| EvenOddXor.Fill | lvl2/module_2/day5_1.cpp:22-30 | the filling loops write `i + 2` at every position `i < m` |
| EvenOddXor.XorAllFill | lvl2/module_2/day5_1.cpp:22-30 | the first `h` pairs `(2i + 2, 2i + 3)` XOR to the parity of `h` |
| EvenOddXor.FlipRepairs | lvl2/module_2/day5_1.cpp:41 | flipping the low bit of an odd element turns a total XOR of 1 into 0 |
| EvenOddXor.SetBitInTwo | lvl2/module_2/day5_1.cpp:42-43 | setting one bit, clear in both, in two different elements keeps the total XOR |
| EvenOddXor.ThreeElements | lvl2/module_2/day5_1.cpp:11-13 | the fixed answer `1 2 3` is balanced and repeats no value |
| EvenOddXor.FillPairs | lvl2/module_2/day5_1.cpp:22-30 | the loop with its `even` counter writes `i + 2` at every `i < m` and leaves the other cells alone |
| EvenOddXor.FillAll | lvl2/module_2/day5_1.cpp:16-75 | all `n` cells filled for even `n`, the first `n - 1` and a final 0 for odd `n`; the total XOR is the parity of `n / 2` |
| EvenOddXor.RepairEvenAsWritten | lvl2/module_2/day5_1.cpp:41-43 | after the flip and the two bit-17 writes the total XOR is 0, the prefix is untouched, and `a[n-2]` and `a[n-1]` hold the same value `n OR (1 << 17)` |
| EvenOddXor.EvenAsWrittenXor | lvl2/module_2/day5_1.cpp:41-43 | giving `a[n-1]` and `a[n-2]`, equal after the flip, one common value keeps the total XOR at 0 |
| EvenOddXor.RepairOddAsWritten | lvl2/module_2/day5_1.cpp:70-73 | after the flip and the two bit-20 writes the total XOR is 0, and `a[n-3]` and `a[n-2]` hold the same value `(n - 1) OR (1 << 20)` |
| EvenOddXor.OddAsWrittenXor | lvl2/module_2/day5_1.cpp:70-73 | giving `a[n-2]` and `a[n-3]`, equal after the flip, one common value keeps the total XOR at 0 |
| EvenOddXor.BuildAsWritten | lvl2/module_2/day5_1.cpp:11-75 | the construction as written is always balanced, with the shape of each residue of `n % 4` spelled out; for `n % 4 == 2`, and for `n % 4 == 3` with `n > 3`, it repeats a value |
| EvenOddXor.FillTailDistinct | lvl2/module_2/day5_1.cpp:22-30 | the filled values followed by a repetition-free tail that avoids `2..m+1` repeat nothing |
| EvenOddXor.CorrectedDistinct | lvl2/module_2/day5_1.cpp:41-43 | the corrected construction repeats no value and stays below `1 << 31` while `n + 2 <= 1 << 29` |
| EvenOddXor.RepairEvenDistinct | lvl2/module_2/day5_1.cpp:41-43 | corrected tweak for `n % 4 == 2`: the flip and bit 29 in `a[n-1]`, and bit 29 in `a[n-3]`; the total XOR is 0 and the tail is `n - 1 + 2^29, n, n + 2^29` |
| EvenOddXor.RepairOddDistinct | lvl2/module_2/day5_1.cpp:70-73 | corrected tweak for `n % 4 == 3`: the flip and bit 30 in `a[n-2]`, and bit 30 in `a[n-4]`; the total XOR is 0 and the tail is `n - 2 + 2^30, n - 1, n - 1 + 2^30, 0` |
| EvenOddXor.CorrectedTail | lvl2/module_2/day5_1.cpp:41-73 | the corrected sequence spelled out for the two repaired residues |
| EvenOddXor.RepairTail | lvl2/module_2/day5_1.cpp:41-73 | the corrected tweak turns either filled array into the corrected sequence, whose total XOR is 0 |
| EvenOddXor.BuildRepaired | lvl2/module_2/day5_1.cpp:16-75 | for `n >= 4` the array is the corrected sequence and its total XOR is 0 |
| EvenOddXor.BuildDistinct | lvl2/module_2/day5_1.cpp:11-75 | the corrected construction: balanced, repetition-free, every value below `1 << 31` |
| PowerSplit.Pow2IsPow2 | lvl2/module_3/day1_1.cpp:13 | every `1 << i` pushed is a power of two |
| PowerSplit.Pow2BitCount | lvl2/module_3/day1_1.cpp:18 | a power of two is at least 1 and has exactly one set bit |
| PowerSplit.BitCountAdd | lvl2/module_3/day1_1.cpp:18 | the set bits of a sum are at most those of the two summands together |
| PowerSplit.PartsBounds | lvl2/module_3/day1_1.cpp:18 | `k` powers of two sum to at least `k` and their sum has at most `k` set bits, so `k` outside `popcount(n)..n` is impossible |
| PowerSplit.Push | lvl2/module_3/day1_1.cpp:13 | the priority queue after a push stays sorted largest first and gains exactly the pushed value |
| PowerSplit.PushFacts | lvl2/module_3/day1_1.cpp:28-29 | a push adds its value to the queue's sum and keeps it all powers of two |
| PowerSplit.SetPowersOrdered | lvl2/module_3/day1_1.cpp:11-15 | the powers pushed for the bits below `i` are below `2^i`, sorted largest first, and all powers of two |
| PowerSplit.SetPowersSum | lvl2/module_3/day1_1.cpp:11-15 | the powers pushed for the bits below `i` sum to the low `i` bits of `n`, one per set bit |
| PowerSplit.SetPowersMembers | lvl2/module_3/day1_1.cpp:12-13 | `2^j` is pushed exactly when `j < i` and bit `j` of `n` is set |
| PowerSplit.SetPowersStep | lvl2/module_3/day1_1.cpp:12-14 | bit `i` pushes `2^i` when it is set and nothing otherwise |
| PowerSplit.Decompose | lvl2/module_3/day1_1.cpp:9-15 | the queue holds one power of two per set bit of `n`, largest first, summing to `n` |
| PowerSplit.SetPowersDone | lvl2/module_3/day1_1.cpp:11 | the loop stops at the first `2^i` above `n`, when every set bit has been pushed |
| PowerSplit.SetPowersBeyond | lvl2/module_3/day1_1.cpp:11 | bits at or above a width that holds `n` push nothing |
| PowerSplit.SplitLargest | lvl2/module_3/day1_1.cpp:24-30 | splitting the largest until there are `k` parts keeps the sum, keeps every part a power of two, keeps the queue sorted, and ends with exactly `k` parts |
| PowerSplit.Drain | lvl2/module_3/day1_1.cpp:34-38 | popping the queue into `result` lists its contents largest first |
| PowerSplit.SplitIntoPowers | lvl2/module_3/day1_1.cpp:4-43 | "YES" exactly when `popcount(n) <= k <= n`, and then `result` is `k` powers of two summing to `n`, largest first; after "NO" no sequence of powers of two summing to `n` has `k` parts |
| CountDivisors.CountBit | lvl2/module_3/day4_2.cpp:19-26 | the number of elements among the first `n` with bit `j` is at most `n` |
| CountDivisors.DividesCombine | lvl2/module_3/day4_2.cpp:48 | a common divisor of `u` and `v` divides `u * c + v`, the step behind Euclid's algorithm |
| CountDivisors.DivisorAtMost | lvl2/module_3/day4_2.cpp:54-61 | a divisor of a positive number is at most that number |
| CountDivisors.GcdDivides | lvl2/module_3/day4_2.cpp:48 | `__gcd(x, y)` divides both `x` and `y` |
| CountDivisors.GcdGreatest | lvl2/module_3/day4_2.cpp:48 | every common divisor of `x` and `y` divides `__gcd(x, y)` |
| CountDivisors.CountBits | lvl2/module_3/day4_2.cpp:19-26 | `cnt[j]` is the number of elements with bit `j`, for each of the 30 bits |
| CountDivisors.AllZero | lvl2/module_3/day4_2.cpp:29-35 | `all_zero` is set exactly when no count is positive |
| CountDivisors.FoldGcd | lvl2/module_3/day4_2.cpp:45-50 | `g` is 0 exactly when all counts are 0, and its divisors are exactly the common divisors of all counts |
| CountDivisors.CoDivisor | lvl2/module_3/day4_2.cpp:57-58 | for a divisor `k` of `g`, `g / k` is a divisor of `g` whose partner is `k` |
| CountDivisors.FoundStepAt | lvl2/module_3/day4_2.cpp:55-59 | moving from `k` to `k + 1` collects `x` exactly when `k` divides `g` and `x` is `k` or `g / k` |
| CountDivisors.FoundStep | lvl2/module_3/day4_2.cpp:55-59 | while `k * k <= g`, the step collects exactly `k` and `g / k` when `k` divides `g`, and neither was collected before |
| CountDivisors.PairsCovered | lvl2/module_3/day4_2.cpp:54 | once `k * k > g`, every divisor of `g` has been collected |
| CountDivisors.RepeatCounted | lvl2/module_3/day4_2.cpp:57 | a value at two positions is counted twice in the list's bag |
| CountDivisors.SortedStrictly | lvl2/module_3/day4_2.cpp:62 | sorting a list without repeats gives a strictly increasing list with the same members |
| CountDivisors.Divisors | lvl2/module_3/day4_2.cpp:53-62 | `ans` holds exactly the divisors of `g`, strictly increasing |
| CountDivisors.UpTo | lvl2/module_3/day4_2.cpp:37-39 | `1, 2, ..., n` in order |
| CountDivisors.DivisorsAreValid | lvl2/module_3/day4_2.cpp:44-62 | with some bit set, the divisors of the gcd are exactly the `k` in `1..n` that divide every bit count |
| CountDivisors.ValidSizes | lvl2/module_3/day4_2.cpp:18-68 | the printed list holds exactly the `k` in `1..n` that divide the count of every bit, strictly increasing |
| XorMex.EvenPair | lvl2/module_3/day5_1.cpp:15-19 | an even number and its successor XOR to 1, and `1 ^ e == e + 1` |
| XorMex.PrefixXorStep | lvl2/module_3/day5_1.cpp:15-19 | one more value moves the closed form on by one residue: `f(p + 1) == f(p) ^ p` |
| XorMex.PrefixXorIsXorUpTo | lvl2/module_3/day5_1.cpp:13-19 | the closed form read off `a % 4` is the XOR of `0, 1, ..., a - 1` for every `a` |
| XorMex.Range | lvl2/module_3/day5_1.cpp:23 | the array `[0, 1, ..., a - 1]` |
| XorMex.XorSeqAppend | lvl2/module_3/day5_1.cpp:21 | the XOR of a concatenation is the XOR of the two parts' XORs |
| XorMex.XorSeqRange | lvl2/module_3/day5_1.cpp:23 | `[0, ..., a - 1]` XORs to the XOR of `0..a-1` |
| Bits.Pow2AboveIndex | lvl2/module_3/day5_1.cpp:26-27 | `i < 2^i`, so `2^a` is never `a` |
| XorMex.XorCancel | lvl2/module_3/day5_1.cpp:21 | `x ^ (x ^ y) == y`: appending `sum ^ b` turns XOR `sum` into `b` |
| XorMex.ExtendRange | lvl2/module_3/day5_1.cpp:21-31 | `0..a-1` followed by `t` contains every value below `a`, contains `a` exactly when `t` does, and XORs to `XorUpTo(a) ^ XorSeq(t)` |
| XorMex.TwoExtra | lvl2/module_3/day5_1.cpp:25-27 | two values other than `a`, `2^a` and `2^a ^ a`, XOR to `a` |
| XorMex.ShortestLengthReached | lvl2/module_3/day5_1.cpp:14-31 | an array of the printed length exists: `0..a-1`, plus `sum ^ b` when needed, or two extra values when `sum ^ b == a`; it has MEX `a` and XOR `b` |
| XorMex.Remove | lvl2/module_3/day5_1.cpp:22-31 | removing one copy of a value keeps only elements of the original |
| XorMex.RemoveFacts | lvl2/module_3/day5_1.cpp:22-31 | removing one copy of `v` shortens the array by one, takes `v` out of its XOR, and keeps every other value |
| XorMex.LeftoverMembers | lvl2/module_3/day5_1.cpp:22-31 | an array holding every value below `a` has at least `a` elements, and taking one copy of each out leaves all but `a` of its elements, among them every element at least `a` |
| XorMex.LeftoverFacts | lvl2/module_3/day5_1.cpp:22-31 | the XOR of such an array is the XOR of what remains with the XOR of `0..a-1` |
| XorMex.XorRegroup | lvl2/module_3/day5_1.cpp:21 | `(x ^ y) ^ z == x ^ (z ^ y)` |
| XorMex.ShortestLengthIsLeast | lvl2/module_3/day5_1.cpp:14-31 | no array with MEX `a` and XOR `b` is shorter than the printed length |
| BudgetGreedy.CheapestFirst | lvl2/module_4/day1_3.cpp:20-30 | any choice of `m` costs adds up to at least the `m` cheapest ones |
| BudgetGreedy.RemoveSmallest | lvl2/module_4/day1_3.cpp:20-30 | taking the cheapest cost out of the list, and a matching element out of a choice, keeps the choice within the remaining costs |
| BudgetGreedy.PrefixGrows | lvl2/module_4/day1_3.cpp:23-30 | with sorted costs from a non-negative one on, longer prefixes cost no less |
| BudgetGreedy.LongestAffordable | lvl2/module_4/day1_3.cpp:23-30 | where the scan stops, no longer sorted prefix and no larger choice of costs fits the budget |
| BudgetGreedy.CountAffordable | lvl2/module_4/day1_3.cpp:13-32 | the costs are sorted ascending in place, the `cnt` cheapest fit the budget and no longer prefix does, and no choice of more than `cnt` positions fits it |
| SortWindow.FirstDiff | lvl2/module_4/day2_1.cpp:21-25 | `l` is the first index where `a` and `b` differ, or `n` when none does |
| SortWindow.LastDiff | lvl2/module_4/day2_1.cpp:26-30 | `r` is the last index where `a` and `b` differ, or -1 when none does |
| SortWindow.WindowUnique | lvl2/module_4/day2_1.cpp:21-37 | the answer is determined by `a` and `b`: two windows coincide |
| SortWindow.PrefixAgrees | lvl2/module_4/day2_1.cpp:21-25 | left of the window `a` and `b` agree |
| SortWindow.SuffixAgrees | lvl2/module_4/day2_1.cpp:26-30 | right of the window `a` and `b` agree |
| SortWindow.LeftEndUnique | lvl2/module_4/day2_1.cpp:34-36 | the left end of a window is as far left as any other window's |
| SortWindow.RightEndUnique | lvl2/module_4/day2_1.cpp:31-33 | the right end of a window is as far right as any other window's |
| SortWindow.PrefixBeforeDiff | lvl2/module_4/day2_1.cpp:21-25 | a prefix on which `a` and `b` agree ends before their first difference |
| SortWindow.SuffixAfterDiff | lvl2/module_4/day2_1.cpp:26-30 | a suffix on which `a` and `b` agree starts after their last difference |
| SortWindow.WindowOf | lvl2/module_4/day2_1.cpp:31-36 | widening over the non-decreasing runs of `b` until they break gives a window |
| SortWindow.Window | lvl2/module_4/day2_1.cpp:20-37 | `l..r` covers every difference, `b` does not decrease from `l` to the first difference or from the last difference to `r`, and neither end can move further out |
| MedianCost.DevAppend | lvl2/module_4/day2_2.cpp:17-20 | the cost of moving two pieces to one target is the sum of their costs |
| MedianCost.DevPrefixStep | lvl2/module_4/day2_2.cpp:18-20 | one more element adds its distance to the running cost |
| MedianCost.DevRemove | lvl2/module_4/day2_2.cpp:15-20 | taking one element out takes its distance out of the cost |
| MedianCost.DevPermutation | lvl2/module_4/day2_2.cpp:15-20 | the cost does not depend on the order, so sorting first leaves it unchanged |
| MedianCost.DevEnds | lvl2/module_4/day2_2.cpp:17-20 | the cost splits into the two ends and the inner part |
| MedianCost.DevAtLeastSpread | lvl2/module_4/day2_2.cpp:15-20 | no target costs less than the sum of the gaps between paired ends |
| MedianCost.DevAtMedian | lvl2/module_4/day2_2.cpp:16-20 | on sorted values, a target between the two middle elements costs exactly that sum |
| MedianCost.EndsAround | lvl2/module_4/day2_2.cpp:16 | such a target lies between the smallest and the largest element |
| MedianCost.InnerMedian | lvl2/module_4/day2_2.cpp:16 | without its two ends the sequence stays sorted with the target between its middle elements |
| MedianCost.MedianBetween | lvl2/module_4/day2_2.cpp:16 | the target, the midpoint truncated toward zero for an even count, lies between the two middle elements |
| MedianCost.MedianOptimal | lvl2/module_4/day2_2.cpp:15-20 | the target taken from the sorted values costs no more than any other integer target |
| MedianCost.SumDistances | lvl2/module_4/day2_2.cpp:17-20 | the loop adds up the distances of all elements to the target |
| MedianCost.MinimalCost | lvl2/module_4/day2_2.cpp:10-22 | the printed cost is that of moving every element to the target, and no integer target is cheaper |
| MexRaise.MexUnique | lvl2/module_4/day2_3.cpp:23-26 | the MEX is determined by the frequencies |
| MexRaise.CountAll | lvl2/module_4/day2_3.cpp:18-21 | the frequency map holds the count of every value of the array |
| MexRaise.ComputeMex | lvl2/module_4/day2_3.cpp:23-26 | counting up from 0 stops at the MEX: every smaller value occurs, the result does not |
| MexRaise.CoverOccurrences | lvl2/module_4/day2_3.cpp:30-40 | `l` and `r` are the first and last occurrences of `mex + 1`, and exactly the positions from `l` to `r` become `mex` |
| MexRaise.ReplaceDuplicate | lvl2/module_4/day2_3.cpp:42-49 | the first element below `mex` that occurs more than once becomes `mex`; when none does nothing changes |
| MexRaise.ReplaceLarge | lvl2/module_4/day2_3.cpp:50-57 | the first element above `mex + 1` becomes `mex`; when none is, nothing changes |
| MexRaise.FirstWhere | lvl2/module_4/day2_3.cpp:31-57 | the result is the first position whose element satisfies the test, or the length when none does |
| MexRaise.LastOf | lvl2/module_4/day2_3.cpp:31-37 | the result is the last position holding the value, or -1 when none does |
| MexRaise.Operated | lvl2/module_4/day2_3.cpp:28-59 | the operation keeps the array's length |
| MexRaise.OperatedShape | lvl2/module_4/day2_3.cpp:28-59 | the operation only writes `mex` and removes every `mex + 1`; it changes the array exactly when `mex + 1` occurs, a value below `mex` occurs twice, or a value exceeds `mex + 1` |
| MexRaise.ApplyOperation | lvl2/module_4/day2_3.cpp:28-59 | the array afterwards is `Operated` of the array before: the `mex + 1` run covered, else the first repeated small value replaced, else the first large value replaced, else unchanged |
| MexRaise.RaisedExactly | lvl2/module_4/day2_3.cpp:61-75 | after such a change the MEX is `mex + 1` exactly when something changed and every value below `mex` survived |
| MexRaise.OperatedVerdict | lvl2/module_4/day2_3.cpp:61-75 | on `Operated(a, mex)` the MEX becomes `mex + 1` exactly when the operation changed something and every value below `mex` survived |
| MexRaise.Solve | lvl2/module_4/day2_3.cpp:18-75 | on the array in place: `mex` is the MEX before, the array becomes `Operated` of the old array, and the verdict says whether its MEX is `mex + 1` |
| MexRaise.MexIs | lvl2/module_4/day2_3.cpp:61-75 | recounting and comparing says whether the new MEX is the target |
| MexRaise.MexPlusOne | lvl2/module_4/day2_3.cpp:13-75 | `mex` is the MEX of the input and the changed array is `Operated` of it; the answer is YES exactly when the changed array's MEX is `mex + 1`, that is when something changed and every value below `mex` is still present |
| PairCounts.PairsCountStarts | lvl2/module_4/day3_1.cpp:17-23 | the running count of pairs is the number of positions where a pair starts |
| PairCounts.PairsShareLength | lvl2/module_4/day3_1.cpp:17-23 | a position starts a `00` pair or a `11` pair, never both, so the two counts add up to at most the number of positions scanned |
| PairCounts.MaxPairs | lvl2/module_4/day3_1.cpp:15-25 | the two counters are the numbers of `00` and `11` pairs, together at most `n - 1`, and the answer is the larger of them |
| PairGaps.GapsToClosedForm | lvl2/module_4/day3_2.cpp:20 | the differences from `a[q]` to the `p` earlier elements add up to `a[q] * p` minus their prefix sum |
| PairGaps.GapsToNonNegative | lvl2/module_4/day3_2.cpp:20 | on ascending input each element's differences to the earlier ones add up to a non-negative amount |
| PairGaps.SortedGapsNonNegative | lvl2/module_4/day3_2.cpp:19-22 | on ascending input the total of all pair differences is non-negative |
| PairGaps.SumOfPairGaps | lvl2/module_4/day3_2.cpp:14-22 | the result is the sum of `a[q] - a[p]` over all pairs `p < q`, and 0 for at most one element |
| InsertPairs.ZerosAppend | lvl2/module_4/day4_1.cpp:17-20 | the '0' count of two joined strings is the sum of their counts |
| InsertPairs.ZerosUniform | lvl2/module_4/day4_1.cpp:17-20 | a string of only '0' counts its length, one without '0' counts nothing |
| InsertPairs.InsertZeros | lvl2/module_4/day4_1.cpp:36-45 | inserting "01" adds one '0' and two characters |
| InsertPairs.ApplyImbalance | lvl2/module_4/day4_1.cpp:22-25 | no sequence of insertions changes how far the string is from having equal counts |
| InsertPairs.GoodIsBalanced | lvl2/module_4/day4_1.cpp:22-25 | a good string has as many '0' as other characters |
| InsertPairs.NeverGood | lvl2/module_4/day4_1.cpp:22-25 | with unequal counts no sequence of insertions makes the string good, so -1 is right |
| InsertPairs.CountChars | lvl2/module_4/day4_1.cpp:16-20 | `no_0` counts the '0' characters and `no_0 + no_1` is the length |
| InsertPairs.LeadAppend | lvl2/module_4/day4_1.cpp:36-39 | appending after a non-'0' character keeps the leading run of '0' |
| InsertPairs.TrailPrepend | lvl2/module_4/day4_1.cpp:40-43 | prepending before a '0' keeps the trailing run of non-'0' characters |
| InsertPairs.InnerOther | lvl2/module_4/day4_1.cpp:35 | a balanced deque with equal ends holds the other character strictly inside |
| InsertPairs.BackRotates | lvl2/module_4/day4_1.cpp:36-39 | "01" behind two '0' ends gives differing ends, and peeling them shortens the deque or its leading '0' run |
| InsertPairs.FrontRotates | lvl2/module_4/day4_1.cpp:40-43 | "01" before two '1' ends gives differing ends, and peeling them shortens the deque or its trailing '1' run |
| InsertPairs.Recorded | lvl2/module_4/day4_1.cpp:39-43 | recording a position within the current string extends the applied insertions by that one |
| InsertPairs.InsertAt | lvl2/module_4/day4_1.cpp:36-43 | inserting at `p` keeps the characters before `p`, puts "01" at `p` and shifts the rest by two |
| InsertPairs.OuterKept | lvl2/module_4/day4_1.cpp:36-45 | an insertion inside the unpeeled middle keeps the string binary and its outer pairs mirrored |
| InsertPairs.BackShape | lvl2/module_4/day4_1.cpp:36-39 | "01" at position `n - d` of the string is "01" at the back of the deque |
| InsertPairs.FrontShape | lvl2/module_4/day4_1.cpp:40-43 | "01" at position `d` of the string is "01" at the front of the deque |
| InsertPairs.PairBalanced | lvl2/module_4/day4_1.cpp:37-42 | adding one '0' and one '1' keeps the deque balanced |
| InsertPairs.InsertBackStep | lvl2/module_4/day4_1.cpp:36-39 | the back insertion, recorded as `n - d`, keeps the loop state |
| InsertPairs.InsertFrontStep | lvl2/module_4/day4_1.cpp:40-43 | the front insertion, recorded as `d`, keeps the loop state |
| InsertPairs.PeelShape | lvl2/module_4/day4_1.cpp:47-51 | differing ends of the deque are a mirrored pair of the string, and the inner deque stays framed |
| InsertPairs.PeelBalanced | lvl2/module_4/day4_1.cpp:47-51 | peeling one '0' and one other character keeps the deque balanced |
| InsertPairs.PopStep | lvl2/module_4/day4_1.cpp:47-51 | one pop at each end, with `d` counted up, keeps the loop state |
| InsertPairs.EmptyIsGood | lvl2/module_4/day4_1.cpp:34-52 | when the deque is empty the string with the recorded insertions is good |
| InsertPairs.InsertPair | lvl2/module_4/day4_1.cpp:35-45 | equal ends get "01" at the back (both '0') or at the front (both '1'), recorded as `n - d` or `d`, `n` grows by two, and the new ends differ |
| InsertPairs.PeelEnds | lvl2/module_4/day4_1.cpp:47-51 | ends are peeled while they differ, `d` counts the peeled pairs, and the deque left is empty or has equal ends |
| InsertPairs.PeelProgress | lvl2/module_4/day4_1.cpp:34-52 | each round of the outer loop shortens the deque or its outer runs, so the loop ends |
| InsertPairs.MakeGood | lvl2/module_4/day4_1.cpp:16-52 | -1 exactly when the counts differ, and then no insertions make the string good; otherwise the recorded positions, applied in order, each within the string, make it good |
| CostRelax.XorOne | contests/contest4/1.cpp:37 | `u ^ 1` is `u + 1` for even `u` and `u - 1` for odd `u` |
| CostRelax.PathSnoc | contests/contest4/1.cpp:31-41 | extending a path by a move that stays below 200 adds that move's cost |
| CostRelax.PathCostNonNegative | contests/contest4/1.cpp:31-41 | with non-negative `x` and `y` every path costs at least 0 |
| CostRelax.RelaxedIsLowerBound | contests/contest4/1.cpp:27-42 | once every reached state is relaxed, no path from `a` is cheaper than the cost recorded for its end |
| CostRelax.PathStaysReachable | contests/contest4/1.cpp:31-41 | moves never lead below `a`, except to `a - 1` from an odd `a` |
| CostRelax.IncsPath | contests/contest4/1.cpp:31-34 | `k` increments lead from `a` to `a + k` for `k * x` |
| CostRelax.ScaledBelow | contests/contest4/1.cpp:21 | at most 200 steps of cost `x` stay within `200 * (x + y)` |
| CostRelax.CheapPath | contests/contest4/1.cpp:21-42 | every reachable state below 200 has a path of cost at most `200 * (x + y)` |
| CostRelax.FlipPath | contests/contest4/1.cpp:37-41 | from an odd `a` one `^1` reaches `a - 1` for `y` |
| CostRelax.SumUpdate | contests/contest4/1.cpp:32 | overwriting one entry changes the total by the difference |
| CostRelax.RelaxMove | contests/contest4/1.cpp:31-41 | a move is pushed exactly when it stays below 200 and improves the target's cost, which then becomes `cost[cur] + w`; otherwise nothing changes |
| CostRelax.RelaxKeeps | contests/contest4/1.cpp:31-41 | an improving move keeps every finite cost witnessed by a path and every unqueued reached state relaxed, and lowers the total cost |
| CostRelax.LowerKeepsRelaxed | contests/contest4/1.cpp:31-41 | lowering another state's cost keeps a relaxed state relaxed |
| CostRelax.MoveKeeps | contests/contest4/1.cpp:31-41 | one relaxation from `cur` keeps the loop invariant and leaves the target no dearer than `cost[cur]` plus the move |
| CostRelax.RelaxedCur | contests/contest4/1.cpp:28-41 | after both moves from `cur` are tried, `cur` is relaxed |
| CostRelax.DropCur | contests/contest4/1.cpp:28 | a relaxed `cur` can leave the queue without breaking the invariant |
| CostRelax.TryMove | contests/contest4/1.cpp:31-41 | one move from `cur` keeps the invariant, lowers costs only, and leaves the target within `cost[cur] + w` |
| CostRelax.Visit | contests/contest4/1.cpp:28-41 | popping and relaxing `cur` keeps the invariant, and either lowers the total cost or changes nothing but the queue |
| CostRelax.Relax | contests/contest4/1.cpp:21-42 | when the queue empties `cost[a]` is 0, every finite entry is the cost of a path from `a`, and every reached state is relaxed |
| CostRelax.StayCheapest | contests/contest4/1.cpp:15-17 | staying at `a` costs 0 and no path back to `a` is cheaper |
| CostRelax.Conclude | contests/contest4/1.cpp:44-47 | an unreached entry means no path leads to `b`; otherwise no path to `b` is cheaper than its entry |
| CostRelax.MinCost | contests/contest4/1.cpp:15-47 | 0 when `a == b`; -1 exactly when no path of moves within `0..199` leads from `a` to `b`; otherwise the cost of such a path, and no such path is cheaper |
| PrefixMinSum.MinOf | contests/contest5/2.cpp:10-13 | the minimum of a non-empty sequence lies at or below every element |
| PrefixMinSum.MinOfIn | contests/contest5/2.cpp:10-13 | the minimum is one of the elements |
| PrefixMinSum.PrefixMinsShape | contests/contest5/2.cpp:30-35 | prefix minima never increase, each lies at or below its own element, and each is an element |
| PrefixMinSum.BelowEmpty | contests/contest5/2.cpp:44-57 | no candidate is kept exactly when every candidate is at least the total |
| PrefixMinSum.PrintedBounded | contests/contest5/2.cpp:44-57 | something is always printed, nothing printed exceeds the sum of prefix minima, and that sum alone is printed exactly when no candidate is below it |
| PrefixMinSum.ComputePrefixMinSum | contests/contest5/2.cpp:7-16 | the helper returns the sum of the prefix minima |
| PrefixMinSum.PrefixMinArray | contests/contest5/2.cpp:30-35 | `prefix_min[i]` is the minimum of `a[0..i]` |
| PrefixMinSum.NextCandidate | contests/contest5/2.cpp:48-49 | candidate `i` is the sum of the first `i` prefix minima plus the smaller of `prefix_min[i]` and `a[i] + a[i+1]` |
| PrefixMinSum.BelowStep | contests/contest5/2.cpp:50-53 | one more candidate is printed exactly when it lies below the total |
| PrefixMinSum.Solve | contests/contest5/2.cpp:25-57 | the printed values are the candidates below the sum of prefix minima, in order, or that sum alone when there are none |
| DistinctRank.DistinctCount | contests/contest3/2.cpp:23 | a strictly descending sequence has as many distinct values as entries |
| DistinctRank.AboveIsPrefix | contests/contest3/2.cpp:24-30 | in the descending set the values above `s[p]` are exactly the first `p` entries |
| DistinctRank.RankAt | contests/contest3/2.cpp:24-30 | the 1-based position of a value in the descending set is its rank among the distinct values |
| DistinctRank.SameAbove | contests/contest3/2.cpp:23 | the set and the array have the same values above any `v` |
| DistinctRank.RankBounds | contests/contest3/2.cpp:24-30 | for a non-empty array the rank lies between 1 and the number of distinct values |
| DistinctRank.ReadValue | contests/contest3/2.cpp:14-21 | `value` is `a[j - 1]` when `j` is in range and 0 otherwise |
| DistinctRank.Insert | contests/contest3/2.cpp:23 | inserting keeps the set strictly descending and adds exactly the new value |
| DistinctRank.BuildSet | contests/contest3/2.cpp:23 | the set holds exactly the distinct values of `a`, largest first |
| DistinctRank.CountRank | contests/contest3/2.cpp:24-30 | `rem` is one more than the number of distinct values above `value` when it occurs, and the number of distinct values when it does not |
| DistinctRank.Solve | contests/contest3/2.cpp:14-44 | the rank of `a[j - 1]` is one more than the distinct values above it, and the verdict is YES exactly when the rank is at most 2 or at most `k` |
| DistinctRank.Answers | contests/contest3/2.cpp:10-45 | one verdict per query, each that query's own |
| DistinctRank.AsWrittenIsPrefix | contests/contest3/2.cpp:32-35 | the loop as written answers a prefix of the queries, each correctly |
| DistinctRank.AsWrittenStopsShort | contests/contest3/2.cpp:34 | the loop as written stops short exactly when a query other than the last has rank 1 |
| DistinctRank.BreakSkipsQueries | contests/contest3/2.cpp:34 | two queries whose first has rank 1 get one verdict from the loop as written instead of two |
| DistinctRank.AnswerAll | contests/contest3/2.cpp:10-45 | without the `break`, every query gets its own verdict |
| DistinctRank.AnswersSnoc | contests/contest3/2.cpp:10-45 | one more query adds its verdict at the end |
| DistinctRank.AsWrittenStep | contests/contest3/2.cpp:32-35 | the loop as written continues past a query exactly when its rank is not 1 |
| DistinctRank.AnswerAllAsWritten | contests/contest3/2.cpp:10-45 | the loop with the `break` prints the as-written verdicts |
| ModBuckets.BucketClosedForm | contests/contest3/1.cpp:14-21 | the number of indices below `n` with `i % 4 == r` is `(n + 3 - r) / 4` |
| ModBuckets.BucketOfSplit | contests/contest3/1.cpp:14-21 | for `n = 4k + t`, bucket `r` holds `k` indices plus one more when `r < t` |
| ModBuckets.BucketFacts | contests/contest3/1.cpp:14-23 | the four buckets add up to `n`, decrease from bucket 0 to 3 by at most one overall, and `min(c0, c3) + min(c1, c2)` is `c2 + c3` |
| ModBuckets.Tally | contests/contest3/1.cpp:14-21 | `c_r` is the number of indices below `n` with `i % 4 == r` |
| ModBuckets.Winner | contests/contest3/1.cpp:14-26 | the counts are the bucket sizes, `pairs` is `min(c0, c3) + min(c1, c2)`, and Alice wins exactly when `n / 4 + (n + 1) / 4` is odd |
| BitBuying.Missing | lvl2/module_2/day5_2.cpp:15-19 | at most `n` of the first `n` elements lack a bit |
| BitBuying.ShrOfSmall | lvl2/module_2/day5_2.cpp:14 | a value below `1 << 31` has nothing left above bit 30 |
| BitBuying.GreedyBelow | lvl2/module_2/day5_2.cpp:14-25 | the greedy answer is below `1 << 31` |
| BitBuying.RunInvariant | lvl2/module_2/day5_2.cpp:13-25 | the remaining budget is the initial budget minus what the bought bits cost, never negative for a non-negative budget, and the answer so far has only the bits tried |
| BitBuying.ShrStep | lvl2/module_2/day5_2.cpp:14-18 | shifting by one more bit halves the shifted value |
| BitBuying.ShrBelow | lvl2/module_2/day5_2.cpp:14-18 | shifting a value below `2^b` right by `b` leaves 0 |
| BitBuying.CostOfHigh | lvl2/module_2/day5_2.cpp:15-21 | dropping the low bits of a target never raises what it costs |
| BitBuying.HighPartBounded | lvl2/module_2/day5_2.cpp:13-25 | every affordable `y` is, above bit `b`, at most the greedy answer there |
| BitBuying.BitBought | lvl2/module_2/day5_2.cpp:20-23 | when an affordable `y` agrees with the greedy answer above bit `b` and has bit `b`, the greedy buys bit `b` too |
| BitBuying.GreedyIsLargest | lvl2/module_2/day5_2.cpp:13-25 | with a non-negative budget the greedy answer is affordable and is the largest affordable value below `1 << 31` |
| BitBuying.PlaceOfZero | lvl2/module_2/day5_2.cpp:11 | shifting 0 left gives 0 |
| BitBuying.PlaceAppend | lvl2/module_2/day5_2.cpp:20-23 | appending a bit below the high part adds that bit's value |
| BitBuying.OrLowerBit | lvl2/module_2/day5_2.cpp:22 | OR-ing in a bit below all set bits adds its value |
| BitBuying.OrZero | lvl2/module_2/day5_2.cpp:22 | OR with 0 changes nothing |
| BitBuying.BuyStep | lvl2/module_2/day5_2.cpp:20-23 | a bit whose cost the budget covers is set and paid for; otherwise the answer and the budget stay as they are |
| BitBuying.CountMissing | lvl2/module_2/day5_2.cpp:15-19 | `cnt` is the number of elements lacking bit `b` |
| BitBuying.MaximiseAnd | lvl2/module_2/day5_2.cpp:11-25 | the printed value is below `1 << 31`, affordable for a non-negative budget, and no larger affordable value exists |
| Sorting.InsertAsc | lvl2/module_1/day2_2.cpp:19 | inserting into an ascending sequence keeps it ascending and adds exactly the new element |
| Sorting.SortAsc | lvl2/module_1/day2_2.cpp:19 | the ascending sort is an ascending permutation of its input |
| Sorting.ReversePermutes | lvl2/module_1/day4_1.cpp:35-36 | reversing keeps the elements |
| Sorting.SortDesc | lvl2/module_1/day4_1.cpp:35-36 | the descending sort, `greater<int>()`, is a descending permutation of its input |
| Sorting.SortArrayAsc | lvl2/module_4/day2_2.cpp:15 | the array afterwards holds the ascending sort of what it held before |
| Sorting.SortArrayDesc | lvl2/module_1/day4_1.cpp:35-36 | the array afterwards holds the descending sort of what it held before |
| Sums.SumSlice | lvl2/day1_1.cpp:24-28 | the sum of a slice is the difference of two prefix sums |
| Sums.SumPermutation | lvl2/module_1/day2_2.cpp:12-24 | rearranging a sequence keeps its sum |
| CppInt.TruncRem | lvl2/module_1/day3_2.cpp:17 | C++ `%` rounds the quotient toward zero: the remainder takes the sign of the dividend and is smaller than the divisor in size |
| CppInt.TruncMidpoint | lvl2/module_4/day2_2.cpp:16 | the midpoint of two values, truncated toward zero, lies between them |

## Left out

- Input parsing, test-case loops and output formatting are not modelled. Each kernel takes its input as parameters and returns what it prints.
- Integers are unbounded. The C++ `int` and `long long` overflow is not modelled: sums, products and `1 << bit` are exact. The bounds of the original problems keep them in range.
- Inputs are assumed well-formed where the program trusts its input. This covers non-negative array elements (`NonNegative` on the bit kernels), `1 <= l <= r <= n` queries, spans within the array, values below 1024 in `lvl2/module_2/day2_1.cpp`, and a binary string in `lvl2/module_4/day4_1.cpp`.
- PopCount.CountBits: requires `x >= 0`. Shifting a negative `int` right never reaches 0 in C++, and that case is not modelled.
- BudgetGreedy.CountAffordable: requires a budget `c >= 0`, as the original problem guarantees. A negative budget is not modelled.
- SortWindow.Window: requires `a != b`. The original problem guarantees it. With `a == b` the C++ reads out of bounds.
- SortWindow.Window: tests the bound before reading `b[r + 1]`. Line 31 of `lvl2/module_4/day2_1.cpp` reads `b[n]` before testing `r < n - 1`. That read is out of bounds and is not modelled.
- PowersOfK.YesMeansDisjointPowers: proves only that a "Yes" yields a split of the elements into distinct powers of `k`. The converse is not proved: that a "No" means no such split exists, which rests on base-`k` digits being unique.
- QuerySum.MaxQuerySum: does not prove that the sorted pairing maximises the total of the query answers over all rearrangements of `a` (the rearrangement inequality). QuerySum.DotCoverageIsQueryTotal stands on its own: it states that weighting the values by their coverage counts gives that total for a fixed arrangement.
- PowersOfK.PowersVerdict: requires `k >= 2`. With `k = 1` the power never changes, and the program loops forever unless two elements are taken in the first round.
- CostRelax.MinCost: requires `x, y >= 0` and `200 * (x + y)` below `LLONG_MAX`. A negative move cost can make the queue loop run forever, and overflow is not modelled.
- CountDivisors.ValidSizes: states that the printed sizes are exactly the `k` in `1..n` dividing every bit count, in ascending order. It does not prove that these are the `k` for which repeated AND-subtraction clears the array.
- PowerSplit.SplitLargest: states the sum, the count, the order and that every part is a power of two. It does not state which of the equal-sized splits the heap makes.
- EvenOddXor.BuildDistinct: requires `n + 2 <= 2^29`, so it does not cover `n > 2^29 - 2`. The corrected construction sets bits 29 and 30 instead of the program's bits 17 and 20, so that the tweak bits stay above every filled value for every `n` up to that bound.
- Sorting: `std::sort` is modelled by its result, the sorted permutation, not by its algorithm.
- `contests/contest 1/two.cpp`, `contests/contest 2/one.cpp` and `contests/contest 2/third.cpp` are not part of this model.

## Findings

| source | as written | input that shows it | evidently intended | confidence | as-written member | corrected member |
|---|---|---|---|---|---|---|
| lvl2/module_1/day5_1.cpp:23 | each flag adds `a[i]` to the previous flag, already capped to 0 or 1, instead of to the running coverage | recipes `[1,2]` and `[2,2]` with `k = 2`: temperature 2 is covered twice but gets flag 0 | temperature `i` is flagged when at least `k` recipes cover it | not executed | Recommended.CappedFlagMissesOverlap | Recommended.HotFlagArray |
| lvl2/module_2/day5_1.cpp:41-43 | for `n % 4 == 2`, the last two elements both become `n OR 2^17` | `n = 6`: `a[4] == a[5]` | distinct elements with equal XOR at even and odd positions | not executed | EvenOddXor.BuildAsWritten | EvenOddXor.BuildDistinct |
| lvl2/module_2/day5_1.cpp:70-73 | for `n % 4 == 3` and `n > 3`, `a[n-3]` and `a[n-2]` both become `(n - 1) OR 2^20` | `n = 7`: `a[4] == a[5]` | distinct elements with equal XOR at even and odd positions | not executed | EvenOddXor.BuildAsWritten | EvenOddXor.BuildDistinct |
| contests/contest3/2.cpp:34 | `break` after a rank-1 query leaves the whole query loop | two queries, each `a = [5]`, `j = 1`, `k = 1`: one verdict is printed instead of two | one verdict per query | not executed | DistinctRank.BreakSkipsQueries | DistinctRank.AnswerAll |
