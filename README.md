# gitopenlib core, modelled in Dafny

gitopenlib is a Python toolbox for bibliometrics and text processing
(RefWorks records, tag and author co-occurrence, diversity indicators). This
project models and verifies its computational core:

- **Co-occurrence matrices.**
  - `generate_CoMatrix` in `gitopenlib/utils/comatrix.py` is module `TagCoMatrix`.
    It counts tags, filters them, sorts them, counts tag pairs, zeroes the
    diagonal and builds the frequency and Ochiai matrices.
  - The class `CoMatrix` in `gitopenlib/comatrix.py` is module `AuthorCoMatrix`.
    It is a Dafny `class` with the fields `target` and `normal`. It counts names
    and ordered pair keys of comma-separated strings, then fills a symmetric,
    optionally normalised matrix held in an `array2`.
- **Diversity indicators** of `gitopenlib/indicators/diversity.py` (module
  `Diversity`): the Simpson family, category count, the Gini coefficient,
  disparity, DIV / DIV* and Rao-Stirling / True Diversity. All are over exact
  `real` arithmetic.
- **The ten sorts** of `gitopenlib/utils/sorts.py`.
  - The in-place sorts work on an `array<int>`: bubble, select, insert, shell,
    heap and quick (modules `SortsSimple`, `SortsHeap`, `SortsQuick`).
  - The sorts that clear and refill a list return the new contents: count,
    bucket and radix (modules `SortsCount`, `SortsRadix`).
  - `merge_sort` is recursive and returns a new list (module `SortsMerge`).
  - `insert_sort` is broken as written; see Findings.
- **Statistics kernels** of `gitopenlib/indicators/statistics.py`.
  - Module `Bins`: `divide_interval` and `divide_bins`.
  - Module `Statistics`: CDF / CCDF / PMF over counters, `counter2percenter`,
    `calculate_list_count_percent`, the empirical `Cdf`, `percentile_rank`,
    `percentile` and `get_extremum`.
- **List and string helpers** of `gitopenlib/utils/basics.py` (module `Basics`):
  `chunks`, `remove_0_str`, `strips` and `sort_list`. The copies in
  `gitopenlib/utils.py` have the same logic, so the one model serves both.
  The empty-key branch of `sort_list` is broken as written; see Findings.
- **The RefWorks record loop** of `parse_refworks` in
  `gitopenlib/utils/parser.py` (module `RefWorks`).
- **Character-class string functions** of `gitopenlib/utils/nlp.py` (module
  `Nlp`). `english_word_cut` is broken as written; see Findings.

Shared support modules:

- `Wrappers`: `Option`, `Result` and the Python exceptions as `PyError`.
- `PyStr`: `str.strip`, `str.split`, whitespace splitting, `replace`, and code-point order.
- `PyDict`: dicts in insertion order as item lists, and `Counter`.
- `Seqs`: filter and subsequence.
- `Sums`: sums of reals.
- `RealArith`: small facts of real arithmetic.
- `Sorting`: the sortedness predicates and `sorted()`.

Python exceptions become the `Err` case of a `Result`:

- `ZeroDivisionError` is `ZeroDivision`.
- `IndexError` is `IndexOutOfRange`.
- `KeyError` is `KeyMissing`.
- `ValueError` of `max`/`min` on an empty list is `EmptySequence`.
- Any other `ValueError` is `BadValue(msg)`, with its message.
- `UnboundLocalError` is `UnboundName`.
- An explicit `raise Exception(msg)` is `Raised(msg)`.

Python dicts whose order matters are lists of `(key, value)` items in
insertion order. `gb.dict_sorted` is not in the repository's source files and
is modelled as sorting the items by ascending key. The calls `math.sqrt`,
`sorted` and `list.sort` are modelled by their contracts: a positive root of a
positive count, and an ascending permutation.

## Model

| member | source | states |
|---|---|---|
| TagCoMatrix.TallySpec | gitopenlib/utils/comatrix.py:66-69 | a `defaultdict(int)` incremented once per item holds exactly the items seen, each with its number of occurrences |
| TagCoMatrix.CountTags | gitopenlib/utils/comatrix.py:66-69 | `kw_num_dict` has a key for every tag of every tag-set, and its value counts every occurrence, repeats within one tag-set included |
| TagCoMatrix.CountSum | gitopenlib/utils/comatrix.py:67-69 | each tag-set adds its own number of occurrences of a tag to the count |
| TagCoMatrix.FilterByCount | gitopenlib/utils/comatrix.py:73-78 | exactly the tags counted at least `filter_num` times survive, with their counts unchanged |
| TagCoMatrix.SortTags | gitopenlib/utils/comatrix.py:81-87 | `sorted(kws)` is strictly ascending and holds exactly the given tags |
| TagCoMatrix.SortedUnique | gitopenlib/utils/comatrix.py:87 | two strictly ascending lists with the same tags are equal, so the ordering of the tag list is determined |
| TagCoMatrix.InsertTag | gitopenlib/utils/comatrix.py:87 | putting a new tag into a strictly ascending list keeps it strictly ascending and adds exactly that tag |
| TagCoMatrix.SurvivorsSpec | gitopenlib/utils/comatrix.py:73-87 | a surviving tag occurs at least once and at least `filter_num` times, is in `filter_tags` when that list is non-empty, and co-occurs with itself |
| TagCoMatrix.CountPairs | gitopenlib/utils/comatrix.py:90-95 | `pair_count_dict` has the pair `(a, b)` exactly when both tags survive and co-occur, and its value is the sum over tag-sets of (occurrences of a) times (occurrences of b) |
| TagCoMatrix.CountItemPairs | gitopenlib/utils/comatrix.py:92-95 | the pairs of `product(item, item)` whose tags both survive are added to the counter |
| TagCoMatrix.CountRowPairs | gitopenlib/utils/comatrix.py:93-95 | the pairs `(x, y)` for `y` in one tag-set, both tags surviving, are added to the counter |
| TagCoMatrix.TallyPairs | gitopenlib/utils/comatrix.py:90-95 | the counter after all tag-sets holds each pair of surviving tags with its co-occurrence count, and nothing else |
| TagCoMatrix.ProductCount | gitopenlib/utils/comatrix.py:92 | `product(xs, ys)` yields `(a, b)` (occurrences of a in xs) times (occurrences of b in ys) times |
| TagCoMatrix.KeepPairsCount | gitopenlib/utils/comatrix.py:94-95 | a pair is counted as often as it occurs when both its tags survive, and not at all otherwise |
| TagCoMatrix.StreamCount | gitopenlib/utils/comatrix.py:91-95 | the pairs produced over all tag-sets hold `(a, b)` exactly `PairCount` times |
| TagCoMatrix.PairCountSymmetric | gitopenlib/utils/comatrix.py:92-95 | `product(item, item)` yields `(a, b)` as often as `(b, a)` |
| TagCoMatrix.SelfPairCount | gitopenlib/utils/comatrix.py:92-95 | a tag is paired with itself at least as often as it occurs, so every surviving tag gets a row |
| TagCoMatrix.ZeroDiagonal | gitopenlib/utils/comatrix.py:98-103 | the same pairs are kept, a self-pair's count becomes 0, and every other count is unchanged |
| TagCoMatrix.Ochiai | gitopenlib/utils/comatrix.py:139-141 | an Ochiai coefficient is never negative, and it is zero exactly when the pair count is zero |
| TagCoMatrix.BuildRow | gitopenlib/utils/comatrix.py:113-142 | one completed row holds, for every surviving tag in sorted order, its pair count (0 when never counted) and its Ochiai coefficient |
| TagCoMatrix.BuildMatrices | gitopenlib/utils/comatrix.py:108-147 | the completed and sorted table is a square over the sorted tags, holding the zeroed pair counts and their Ochiai coefficients in the same order |
| TagCoMatrix.FrequencyFromCounts | gitopenlib/utils/comatrix.py:98-137 | the completed table of the zeroed counts is the frequency matrix: pair counts off the diagonal and zeros on it |
| TagCoMatrix.OchiaiFromCounts | gitopenlib/utils/comatrix.py:135-147 | coefficients computed from the filtered counter are those of the tags' total counts |
| TagCoMatrix.GenerateCoMatrix | gitopenlib/utils/comatrix.py:65-147 | the tags are exactly the survivors, strictly ascending; `frequency_vector` is the square of their pair counts with a zero diagonal; `ochiia_correlation_vector` holds the Ochiai coefficients in the same order |
| TagCoMatrix.FrequencySymmetric | gitopenlib/utils/comatrix.py:92-103 | the frequency matrix is symmetric and its diagonal is zero |
| TagCoMatrix.OchiaiZeroes | gitopenlib/utils/comatrix.py:135-147 | an Ochiai entry is non-negative, and it is zero exactly where the frequency entry is zero |
| TagCoMatrix.WorkedExample | gitopenlib/utils/comatrix.py:189-190 | on the commented example the tags are `abc, bcd, cde, def`, `abc` and `cde` co-occur twice, and `bcd` and `def` never co-occur |
| AuthorCoMatrix.PairKeySymmetric | gitopenlib/comatrix.py:38-41 | after the swap a pair and its reverse share one key, the first name is not greater than the second, and the key names the same two names |
| AuthorCoMatrix.PairKeySplit | gitopenlib/comatrix.py:41 | splitting a key on "," gives back its two names, since names never contain "," |
| AuthorCoMatrix.PairKeyInjective | gitopenlib/comatrix.py:38-41 | two pairs share a key exactly when they are the same two names in either order |
| AuthorCoMatrix.PairKeysLength | gitopenlib/comatrix.py:29-37 | a string of n names yields n(n-1)/2 pair keys, because `authors_co` loses one name per step |
| AuthorCoMatrix.PairKeysMembers | gitopenlib/comatrix.py:29-41 | the keys of one string are exactly those of its position pairs p < q, each visited once |
| AuthorCoMatrix.KeyRowSpec | gitopenlib/comatrix.py:36-41 | the inner loop over positions below m yields m - i - 1 keys, exactly the keys of name i with each later name |
| AuthorCoMatrix.WrittenSymmetric | gitopenlib/comatrix.py:63-64 | writing both `loc[A, B]` and `loc[B, A]` keeps the matrix symmetric |
| AuthorCoMatrix.GroupErrorPersists | gitopenlib/comatrix.py:53-57 | once an entry has raised, the later entries do not change the error |
| AuthorCoMatrix.GroupErrorNone | gitopenlib/comatrix.py:53-61 | when no single entry raises, the whole loop raises nothing |
| AuthorCoMatrix.WrittenAbsent | gitopenlib/comatrix.py:50-64 | a pair of names with no key in `au_group` keeps its identity value: 1 on the diagonal, 0 elsewhere |
| AuthorCoMatrix.WrittenPresent | gitopenlib/comatrix.py:53-64 | a pair whose key occurs exactly once in `au_group` holds the value that entry writes |
| AuthorCoMatrix.WrittenLast | gitopenlib/comatrix.py:53-64 | a later entry for a pair overrides the value an earlier one wrote |
| AuthorCoMatrix.StatEntries | gitopenlib/comatrix.py:23-61 | every key `authors_stat` counts names two counted names, none repeats, and none makes `generate_matrix` raise |
| AuthorCoMatrix.StatMatrix | gitopenlib/comatrix.py:79-82 | `generate_matrix` of the output of `authors_stat` never raises; the cell of two names that never occur together keeps the identity (1 on the diagonal, 0 elsewhere), and any other cell holds their co-occurrence count c, or c squared over the product of their counts when normalising |
| AuthorCoMatrix.StatPresent | gitopenlib/comatrix.py:56-64 | a co-occurring pair's cell is count squared over the product of the two names' counts when normalising, and the count otherwise |
| AuthorCoMatrix.KeyedPair | gitopenlib/comatrix.py:54-61 | the value an entry writes depends only on the two names, not on which comes first in the key |
| AuthorCoMatrix.EntryValueSwap | gitopenlib/comatrix.py:59 | the normalised value is the same whichever name's count is `Fi` |
| AuthorCoMatrix.RepeatedNameExample | gitopenlib/comatrix.py:97 | for a string `x,x,y` in normal mode, key `x,x` overwrites the diagonal cell of x with 1/4, and the cells of `(x, y)` and `(y, y)` are 2 and 1 |
| AuthorCoMatrix.ApplyEntry | gitopenlib/comatrix.py:53-64 | one entry raises the error `EntryError` names (IndexError, KeyError or ZeroDivisionError), or writes its value into both cells of its names and leaves every other cell alone |
| AuthorCoMatrix.WriteCells | gitopenlib/comatrix.py:63-64 | the two cells `(A, B)` and `(B, A)` get the value and no other cell changes |
| AuthorCoMatrix.CoMatrix.constructor | gitopenlib/comatrix.py:19-21 | the object holds the given `target` and `normal` |
| AuthorCoMatrix.CoMatrix.AuthorsStat | gitopenlib/comatrix.py:23-46 | `au_dict` counts every name of every string, in order of first appearance; `au_group` counts the ordered key of every position pair i < j of every string |
| AuthorCoMatrix.CoMatrix.StatOne | gitopenlib/comatrix.py:27-45 | one string adds its names to `au_dict` and its pair keys to `au_group` |
| AuthorCoMatrix.CoMatrix.CoKey | gitopenlib/comatrix.py:38-41 | the key of two names is the ordered pair joined by "," |
| AuthorCoMatrix.CoMatrix.PairLoop | gitopenlib/comatrix.py:36-45 | the inner loop adds the keys of one name with every later name |
| AuthorCoMatrix.CoMatrix.GenerateMatrix | gitopenlib/comatrix.py:48-65 | it raises exactly when some entry of `au_group` raises, and then with that entry's error; otherwise it returns a new square matrix over the names of `au_dict`, in order, whose cells are the identity overwritten by each entry, in order |
| AuthorCoMatrix.CoMatrix.Run | gitopenlib/comatrix.py:78-82 | the labels are the names of `target` in order of first appearance, and every cell of the new square matrix holds the value `StatMatrix` states for its two names |
| Diversity.SimpsonIndex | gitopenlib/indicators/diversity.py:243-245 | the Simpson index is never negative |
| Diversity.SharesOfTotal | gitopenlib/indicators/diversity.py:243-244 | the relative abundances of a non-zero total sum to 1 |
| Diversity.SimpsonZeroTotal | gitopenlib/indicators/diversity.py:244 | counts summing to 0 give a Simpson index of 0 |
| Diversity.SimpsonBounds | gitopenlib/indicators/diversity.py:233-245 | for non-negative counts the Simpson index lies in [0, 1] |
| Diversity.SimpsonAtLeastReciprocal | gitopenlib/indicators/diversity.py:243-245 | with a non-zero total the Simpson index is at least 1 / (number of categories) |
| Diversity.UnitCauchySchwarz | gitopenlib/indicators/diversity.py:244 | shares summing to 1 have squares summing to at least 1 / (number of shares) |
| Diversity.SimpsonSingleCategory | gitopenlib/indicators/diversity.py:233-245 | exactly one non-zero category gives a Simpson index of 1 |
| Diversity.CategoryCount | gitopenlib/indicators/diversity.py:139 | the category count is the length of the list, zero counts included |
| Diversity.InverseSimpsonIndex | gitopenlib/indicators/diversity.py:260-261 | the inverse Simpson index is 0 exactly when the Simpson index is 0, and otherwise its reciprocal |
| Diversity.GuardedReciprocal | gitopenlib/indicators/diversity.py:112 | `1 / x if x != 0 else 0` is 0 exactly for x = 0 and otherwise the reciprocal |
| Diversity.InverseSimpsonBounds | gitopenlib/indicators/diversity.py:251-261 | for non-negative counts with a positive total the inverse Simpson index lies between 1 and the number of categories |
| Diversity.GiniSimpsonIndex | gitopenlib/indicators/diversity.py:277 | the Gini-Simpson index and the Simpson index add up to 1 |
| Diversity.GiniSimpsonBounds | gitopenlib/indicators/diversity.py:269-277 | for non-negative counts the Gini-Simpson index lies in [0, 1], and it is 1 when the counts sum to 0 |
| Diversity.GiniCoefficient | gitopenlib/indicators/diversity.py:117-127 | the method's loop over the sorted copy returns the coefficient `GiniOf` defines |
| Diversity.LorenzSums | gitopenlib/indicators/diversity.py:121-124 | the loop leaves `height` as the running total and `area` as the area under the Lorenz curve |
| Diversity.HeightIsTotal | gitopenlib/indicators/diversity.py:123 | `height` after k values is the sum of those values |
| Diversity.TotalSortedCopy | gitopenlib/indicators/diversity.py:120 | sorting a copy keeps the sum of the values |
| Diversity.GiniFromFails | gitopenlib/indicators/diversity.py:125-127 | the closing division fails exactly when the total or the length is 0 |
| Diversity.GiniFails | gitopenlib/indicators/diversity.py:117-127 | the coefficient raises ZeroDivisionError exactly when the values sum to 0, the empty list included |
| Diversity.GiniOrderFree | gitopenlib/indicators/diversity.py:120 | the coefficient depends only on the multiset of values, not on their order |
| Diversity.GiniOfEqual | gitopenlib/indicators/diversity.py:117-127 | equal positive values give a coefficient of 0 |
| Diversity.Combinations | gitopenlib/indicators/diversity.py:159 | `combinations(fields, 2)` has V(V-1)/2 pairs |
| Diversity.PairsWith | gitopenlib/indicators/diversity.py:159 | the pairs of one field with each later field, in order |
| Diversity.CombinationsHas | gitopenlib/indicators/diversity.py:159 | every pair of positions i < j is among the combinations |
| Diversity.CombinationsFrom | gitopenlib/indicators/diversity.py:159 | every combination is the pair of some positions i < j |
| Diversity.DistancesSpec | gitopenlib/indicators/diversity.py:160-168 | `dij_list` is built exactly when every pair has a distance, and then it holds those distances in pair order |
| Diversity.DistancesErrorStays | gitopenlib/indicators/diversity.py:161-168 | the first pair that raises ends the loop with its error |
| Diversity.DistanceList | gitopenlib/indicators/diversity.py:160-168 | the loop appending `1 - cosine[a][b]` per pair computes `Distances` |
| Diversity.KnownIffPairsKnown | gitopenlib/indicators/diversity.py:95-102 | for a known table kind, every pair has a distance exactly when every two fields are in the table |
| Diversity.DisparityFromFails | gitopenlib/indicators/diversity.py:171-172 | the division by V(V-1) fails exactly for V at most 1 |
| Diversity.DisparityFails | gitopenlib/indicators/diversity.py:159-172 | disparity raises ZeroDivisionError for fewer than two fields, and otherwise raises exactly when a pair is missing from the table |
| Diversity.UnitDistances | gitopenlib/indicators/diversity.py:166 | similarities in [0, 1] give distances in [0, 1] |
| Diversity.DisparityFromBound | gitopenlib/indicators/diversity.py:171-172 | V(V-1)/2 distances in [0, 1] give a disparity in [0, 1/2] |
| Diversity.DisparityBounds | gitopenlib/indicators/diversity.py:159-172 | with similarities in [0, 1] the disparity lies in [0, 1/2] |
| Diversity.CalculateDisparity | gitopenlib/indicators/diversity.py:142-174 | the method (`N` unused) returns the sum of the pair distances over V(V-1) |
| Diversity.DIVFromDisparity | gitopenlib/indicators/diversity.py:56-63 | the closing line fails exactly when disparity's does or N is 0, and DIV is (V/N) times balance times disparity |
| Diversity.DIVIsDisparity | gitopenlib/indicators/diversity.py:43-63 | DIV fails exactly when disparity does or N is 0, and otherwise it is (V/N) times balance times `calculate_disparity` |
| Diversity.DIVStarIsDisparity | gitopenlib/indicators/diversity.py:56-66 | DIV* is V times balance times the sum of the pair distances, that is V times balance times V(V-1) times the disparity |
| Diversity.CalculateDIV | gitopenlib/indicators/diversity.py:21-68 | the method returns the pair `(DIV, DIV*)` that `DIVOf` defines |
| Diversity.Weights | gitopenlib/indicators/diversity.py:96 | one weight `one[1] * two[1]` per pair |
| Diversity.RaoStirlingErrorStays | gitopenlib/indicators/diversity.py:95-107 | the first pair whose distance raises ends the loop with its error |
| Diversity.RaoStirlingLoop | gitopenlib/indicators/diversity.py:93-107 | the loop appends `p d` to `RSs` and `p (1 - d)` to `TDs` for every pair |
| Diversity.RaoStirlingShape | gitopenlib/indicators/diversity.py:95-107 | the terms exist exactly when every pair's distance does, and each rs term is the pair's weight times its distance |
| Diversity.RaoStirlingSum | gitopenlib/indicators/diversity.py:104-110 | the rs and td sums add up to the total weight of the pairs |
| Diversity.RaoStirlingKinds | gitopenlib/indicators/diversity.py:99-102 | reading the table as similarities ("s") swaps the rs and td lists of reading it as distances ("d") |
| Diversity.CalculateRSTD | gitopenlib/indicators/diversity.py:71-114 | the method returns `(RS, TD)` as `RSTDOf` defines |
| Diversity.RSTDFails | gitopenlib/indicators/diversity.py:95-114 | with a known kind the indicator raises exactly when a pair is missing from the table |
| Diversity.TrueDiversityFromRS | gitopenlib/indicators/diversity.py:104-112 | True Diversity is the guarded reciprocal of the total pair weight less Rao-Stirling |
| Diversity.RSTDUnknownKind | gitopenlib/indicators/diversity.py:99-104 | a kind other than "s" and "d" raises UnboundLocalError when there is a pair, and gives `(0, 0)` when there is none |
| Diversity.RSTDKinds | gitopenlib/indicators/diversity.py:99-112 | the two kinds succeed together, and each one's TD is the guarded reciprocal of the other's RS |
| Sorting.SortedCopy | gitopenlib/indicators/diversity.py:120 | `sorted(data)` is an ascending permutation of the data |
| Sorting.MinOf | gitopenlib/utils/sorts.py:189 | `min` of a non-empty list is one of its values and no larger than any |
| Sorting.MaxOf | gitopenlib/utils/sorts.py:190 | `max` of a non-empty list is one of its values and no smaller than any |
| SortsSimple.BubbleSort | gitopenlib/utils/sorts.py:13-23 | the list ends as an ascending permutation of itself |
| SortsSimple.BubblePass | gitopenlib/utils/sorts.py:20-22 | a pass moves the largest of the unsorted prefix to its end, permutes only that prefix, and keeps the prefix at or below the sorted tail |
| SortsSimple.SelectSort | gitopenlib/utils/sorts.py:95-110 | the list ends as an ascending permutation of itself |
| SortsSimple.GapInsert | gitopenlib/utils/sorts.py:84-90 | moving one item back by swaps with the item `gap` before it permutes the list; with gap 1 and a sorted prefix it extends that prefix by one |
| SortsSimple.InsertStep | gitopenlib/utils/sorts.py:86-88 | one swap of an item with a larger predecessor keeps the insertion invariant |
| SortsSimple.InsertDone | gitopenlib/utils/sorts.py:89-90 | stopping at a predecessor that is not larger leaves the prefix sorted |
| SortsSimple.ShellSort | gitopenlib/utils/sorts.py:76-92 | the list ends as an ascending permutation of itself, the closing pass with gap 1 being an insertion sort |
| SortsSimple.InsertSort | gitopenlib/utils/sorts.py:61-73 | insert_sort with line 70 swapping `alist[j]` ends with an ascending permutation of the list |
| SortsSimple.InsertSortWritten | gitopenlib/utils/sorts.py:66-72 | as written, insert_sort keeps the length, and leaves lists of at most one item alone |
| SortsSimple.InsertSortAsWritten | gitopenlib/utils/sorts.py:61-73 | the loops exactly as written leave the list as `InsertSortWritten` of its old contents |
| SortsSimple.InsertSortWrittenCounterexample | gitopenlib/utils/sorts.py:70 | as written, [3, 2, 1] becomes [3, 2, 3], which is neither sorted nor a permutation |
| SortsQuick.ScanDown | gitopenlib/utils/sorts.py:41-42 | the right scan stops at the left bound or at a value below the pivot, all cells it passed being at or above the pivot |
| SortsQuick.ScanUp | gitopenlib/utils/sorts.py:47-48 | the left scan stops at the right bound or at a value above the pivot, all cells it passed being at or below the pivot |
| SortsQuick.Partition | gitopenlib/utils/sorts.py:35-53 | the slice is permuted around the pivot, which ends at `mid` with no larger value before it and no smaller one after it, and cells outside the slice do not change |
| SortsQuick.CombineSides | gitopenlib/utils/sorts.py:56-57 | sorting both sides of a partitioned slice sorts the slice |
| SortsQuick.QuickSort | gitopenlib/utils/sorts.py:26-58 | the slice `[left..right]` ends sorted and permuted; every cell outside it is unchanged; nothing changes when left >= right |
| SortsQuick.QuickSortAll | gitopenlib/utils/sorts.py:26-58 | `quick_sort(l, 0, len(l) - 1)` leaves an ascending permutation |
| SortsHeap.HeapRootMax | gitopenlib/utils/sorts.py:144-147 | in a max-heap the root is a maximum of the heap's cells |
| SortsHeap.MaxHeap | gitopenlib/utils/sorts.py:119-133 | sifting down makes the subtree at `root` a max-heap, permutes the list, changes only that subtree, and puts the old root or one of its children at `root` |
| SortsHeap.SwapKeepsLower | gitopenlib/utils/sorts.py:131-132 | swapping the root with its larger child leaves the heap order of the later nodes alone |
| SortsHeap.SiftCombine | gitopenlib/utils/sorts.py:131-133 | the swap followed by the recursive sift makes the subtree at `root` a max-heap |
| SortsHeap.SubtreeOfChild | gitopenlib/utils/sorts.py:133 | a child's subtree lies in its parent's subtree |
| SortsHeap.BuildMaxHeap | gitopenlib/utils/sorts.py:135-142 | after `build_max_heap` every parent is at least its children, and the list is a permutation of itself |
| SortsHeap.HeapSortRound | gitopenlib/utils/sorts.py:145-147 | one swap-and-sift round moves the maximum of the heap to the front of the sorted tail |
| SortsHeap.SwapOut | gitopenlib/utils/sorts.py:146 | swapping the root out extends the ascending tail, which stays at or above the heap |
| SortsHeap.SortStep | gitopenlib/utils/sorts.py:147 | sifting the first i cells again completes the round |
| SortsHeap.HeapSort | gitopenlib/utils/sorts.py:113-148 | the list ends as an ascending permutation of itself |
| SortsMerge.Merge | gitopenlib/utils/sorts.py:157-170 | `merge` holds the union multiset of both lists, and it is ascending when both lists are |
| SortsMerge.TakeLeft | gitopenlib/utils/sorts.py:162-164 | taking the smaller left head keeps the merge invariant |
| SortsMerge.TakeRight | gitopenlib/utils/sorts.py:165-167 | taking the right head when it is not larger keeps the merge invariant |
| SortsMerge.MergeTailSorted | gitopenlib/utils/sorts.py:168-169 | once one side is used up, appending both rests keeps the output ascending |
| SortsMerge.MergeTailElems | gitopenlib/utils/sorts.py:168-169 | and the output then holds both lists |
| SortsMerge.MergeSort | gitopenlib/utils/sorts.py:151-180 | `merge_sort` returns an ascending permutation, and a list of fewer than two items itself |
| SortsCount.CountValues | gitopenlib/utils/sorts.py:192-195 | `count_list` has max - min + 1 slots, and slot v counts the occurrences of v + min |
| SortsCount.AppendCopies | gitopenlib/utils/sorts.py:199-201 | the innermost loop appends `count` copies of the value |
| SortsCount.WriteBack | gitopenlib/utils/sorts.py:196-201 | the refill holds, in ascending order, exactly the input's values below the bound |
| SortsCount.BeyondMax | gitopenlib/utils/sorts.py:198-201 | past the maximum the refill is the whole input, ascending |
| SortsCount.CountSort | gitopenlib/utils/sorts.py:183-202 | an empty list raises the ValueError of `min`; otherwise the list is refilled with an ascending permutation of itself |
| SortsCount.BucketIndexInRange | gitopenlib/utils/sorts.py:213-218 | with `bucket_size = (max - min) / len`, every value's bucket index lies in [0, len] |
| SortsCount.ZeroSize | gitopenlib/utils/sorts.py:213 | `bucket_size` is 0 exactly when max equals min |
| SortsCount.BucketIndexMonotone | gitopenlib/utils/sorts.py:218 | a larger value never goes to an earlier bucket |
| SortsCount.AllInBuckets | gitopenlib/utils/sorts.py:217-218 | every value of the list lands in one of the len + 1 buckets |
| SortsCount.Distribute | gitopenlib/utils/sorts.py:215-218 | bucket b holds exactly the values whose index is b, in list order |
| SortsCount.DistributeStep | gitopenlib/utils/sorts.py:218 | one append keeps every bucket holding exactly the values of its index |
| SortsCount.Gather | gitopenlib/utils/sorts.py:219-224 | refilling from the sorted buckets in order gathers, ascending, the values of all buckets |
| SortsCount.GatherStep | gitopenlib/utils/sorts.py:222-223 | appending one sorted bucket extends the gathered ascending output |
| SortsCount.InAllBuckets | gitopenlib/utils/sorts.py:221-224 | once every bucket is gathered the output is an ascending permutation of the input |
| SortsCount.BucketPasses | gitopenlib/utils/sorts.py:215-224 | with a positive `bucket_size` the two loops refill the list with an ascending permutation |
| SortsCount.BucketSort | gitopenlib/utils/sorts.py:205-224 | an empty list raises the ValueError of `min`; when max equals min the floor division at line 218 raises ZeroDivisionError; otherwise an ascending permutation |
| SortsRadix.Pow10 | gitopenlib/utils/sorts.py:242 | `10 ** i` is positive |
| SortsRadix.Digit | gitopenlib/utils/sorts.py:242 | `int(num / 10 ** i % 10)` is a digit in [0, 9] |
| SortsRadix.ShiftIsDiv | gitopenlib/utils/sorts.py:242 | dropping i digits one at a time is the floor division by `10 ** i` |
| SortsRadix.DecimalLength | gitopenlib/utils/sorts.py:236 | `len(str(n))` is at least 1 |
| SortsRadix.BelowPow10 | gitopenlib/utils/sorts.py:235-236 | a number is below 10 to the power of its number of characters |
| SortsRadix.LowSplit | gitopenlib/utils/sorts.py:242 | a number is its digits above k followed by its lowest k digits |
| SortsRadix.LowByDigit | gitopenlib/utils/sorts.py:241-247 | a smaller digit i makes the value of the lowest i + 1 digits smaller |
| SortsRadix.BucketDigits | gitopenlib/utils/sorts.py:241-242 | every value in bucket d has digit d |
| SortsRadix.BucketsBelowSorted | gitopenlib/utils/sorts.py:244-247 | buckets written back in order sort a list ordered by its lowest i digits by its lowest i + 1 digits |
| SortsRadix.RadixPassStep | gitopenlib/utils/sorts.py:239-247 | one pass distributes the values into the ten buckets of digit i and writes them back in bucket order |
| SortsRadix.RadixPassesSpec | gitopenlib/utils/sorts.py:237-249 | the passes permute the list and, pass by pass, order it by more of its lowest digits |
| SortsRadix.RadixPassesPerm | gitopenlib/utils/sorts.py:237-249 | the passes permute the list whatever the signs of its values |
| SortsRadix.RadixPassesSort | gitopenlib/utils/sorts.py:235-249 | on non-negative integers the `len(str(max))` passes leave an ascending permutation |
| SortsRadix.RadixNegativeCounterexample | gitopenlib/utils/sorts.py:235-247 | on [-1, 1] one pass runs and leaves [1, -1], so a negative value can end out of order |
| SortsRadix.RadixSort | gitopenlib/utils/sorts.py:227-250 | an empty list raises; otherwise the list is refilled with a permutation of itself, ascending when no value is negative |
| Bins.MaxReal | gitopenlib/indicators/statistics.py:95 | `max(data)` is one of its values and no smaller than any |
| Bins.MinReal | gitopenlib/indicators/statistics.py:95 | `min(data)` is one of its values and no larger than any |
| Bins.PointWidth | gitopenlib/indicators/statistics.py:96-97 | a one-point range has width 0 |
| Bins.DivideInterval | gitopenlib/indicators/statistics.py:93-113 | the loop that closes each pending interval with the next end computes `IntervalsOf` |
| Bins.IntervalAt | gitopenlib/indicators/statistics.py:102-111 | interval i runs from end i to end i + 1 |
| Bins.EdgeStep | gitopenlib/indicators/statistics.py:103 | consecutive ends are one width apart |
| Bins.EdgeLess | gitopenlib/indicators/statistics.py:103 | with a positive width the ends strictly increase |
| Bins.LastEdge | gitopenlib/indicators/statistics.py:103 | end `number` is the maximum |
| Bins.IntervalsOfPositive | gitopenlib/indicators/statistics.py:93-113 | for a non-empty list and a positive `number` the intervals are the equal parts of [min, max] |
| Bins.IntervalsSpec | gitopenlib/indicators/statistics.py:93-113 | exactly `number` adjacent intervals of equal width, the first starting at min(data), the last ending at max(data) |
| Bins.Fractions | gitopenlib/indicators/statistics.py:72-73 | each percentage times `len(data)` is the count |
| Bins.DivideBins | gitopenlib/indicators/statistics.py:22-76 | the nested counting loop computes `BinsOf` |
| Bins.TallyTable | gitopenlib/indicators/statistics.py:54-65 | `res_dict` holds every bin once, keyed by its left end, in bin order, with the number of values in it |
| Bins.OneBin | gitopenlib/indicators/statistics.py:60-65 | with half-open bins and a closed last bin, every value between min and max falls in exactly one bin |
| Bins.CountsAddUp | gitopenlib/indicators/statistics.py:56-65 | when every value falls in exactly one bin, the counts add up to the number of values |
| Bins.SortedTally | gitopenlib/indicators/statistics.py:67-69 | sorting `res_dict` by key changes nothing, so the counts are in bin order |
| Bins.HistogramOf | gitopenlib/indicators/statistics.py:51-70 | the "count" histogram lists each bin's count in order, and the counts sum to the number of values |
| Bins.AllInOneBin | gitopenlib/indicators/statistics.py:56-65 | every value of the data lies in exactly one interval of `divide_interval` |
| Bins.ValueInOneBin | gitopenlib/indicators/statistics.py:51-65 | every value lies in exactly one bin of `divide_bins` |
| Bins.BinsSpec | gitopenlib/indicators/statistics.py:51-70 | when max > min there are `bins` counts, each the number of values in its bin, summing to len(data) |
| Bins.BinsFlat | gitopenlib/indicators/statistics.py:51-70 | when all values are equal there are still `bins` intervals, but a single count holding every value |
| Bins.BinsFormats | gitopenlib/indicators/statistics.py:68-76 | "percent" succeeds with "count" and gives count / len(data); any other `fmt` raises once the intervals exist |
| Statistics.CounterCounts | gitopenlib/indicators/statistics.py:136 | every entry of `Counter(data)` holds its key's number of occurrences |
| Statistics.ObservationsSpec | gitopenlib/indicators/statistics.py:135-136 | a list as a dict has one entry per distinct value, with its count, the counts summing to the length |
| Statistics.SortedSum | gitopenlib/indicators/statistics.py:138 | sorting a dict by key keeps the sum of its values |
| Statistics.SortedEntries | gitopenlib/indicators/statistics.py:138 | sorting moves entries without changing them |
| Statistics.PercenterShares | gitopenlib/indicators/statistics.py:506-508 | each key keeps its place and gets its share of the total, and the shares sum to 1 |
| Statistics.PMFSpec | gitopenlib/indicators/statistics.py:175-186 | the PMF keys ascend, each entry gets its share of the total, and the values sum to 1 |
| Statistics.PMFOfList | gitopenlib/indicators/statistics.py:175-186 | over a non-empty list the PMF maps each distinct value, ascending, to its occurrences over the length |
| Statistics.ListCountPercentSpec | gitopenlib/indicators/statistics.py:597-612 | it never raises; the counter counts every item and the percenter gives each its occurrences over the length, summing to 1 |
| Statistics.CalculateCDF | gitopenlib/indicators/statistics.py:124-148 | the method computes `CDFOf` |
| Statistics.Cumulate | gitopenlib/indicators/statistics.py:144-146 | the loop yields the cumulative share at every index, and raises at the first index when the total is 0 |
| Statistics.CumulativeSpec | gitopenlib/indicators/statistics.py:140-146 | over non-negative values the cumulative shares never decrease, stay in [0, 1] and end at 1 |
| Statistics.CDFSpec | gitopenlib/indicators/statistics.py:124-148 | the CDF keys are sorted, its values never decrease, stay in [0, 1] and end at 1 |
| Statistics.CDFKeysAscending | gitopenlib/indicators/statistics.py:138-148 | a dict with distinct keys gets a CDF with strictly ascending keys |
| Statistics.CCDFSpec | gitopenlib/indicators/statistics.py:151-161 | the CCDF has the CDF's keys, adds up with it to 1 key by key, never increases, stays in [0, 1] and ends at 0 |
| Statistics.CountIsSize | gitopenlib/indicators/statistics.py:307-310 | the count is the number of positions holding a value at or below x |
| Statistics.CountMono | gitopenlib/indicators/statistics.py:308-310 | a larger x counts no fewer values |
| Statistics.CountExtremes | gitopenlib/indicators/statistics.py:308-310 | an x at or above every value counts them all, and one below every value counts none |
| Statistics.Cdf | gitopenlib/indicators/statistics.py:293-312 | the counting loop over a sample of int or float values, as reals, computes `CdfOf`, and an empty sample raises |
| Statistics.CdfSpec | gitopenlib/indicators/statistics.py:307-312 | the empirical CDF lies in [0, 1], never decreases in x, is 1 at or above the maximum and 0 below the minimum |
| Statistics.PercentileRank | gitopenlib/indicators/statistics.py:315-333 | the counting loop over int or float scores and an int or float `your_score`, all as reals, computes `RankOf` |
| Statistics.RankIsCdf | gitopenlib/indicators/statistics.py:328-332 | the percentile rank is 100 times `Cdf`, and they fail together |
| Statistics.SortScores | gitopenlib/indicators/statistics.py:346 | `scores.sort()` leaves the int or float scores, as reals, an ascending permutation of themselves |
| Statistics.Percentile | gitopenlib/indicators/statistics.py:336-350 | the int or float scores, as reals, end as an ascending permutation of themselves, and the result is the first whose rank reaches `prank` |
| Statistics.PercentileSpec | gitopenlib/indicators/statistics.py:347-350 | the result is the smallest score whose rank reaches `prank`, and nothing is returned exactly when no score reaches it |
| Statistics.EqualTo | gitopenlib/indicators/statistics.py:400-410 | the kept keys are exactly those whose value equals the extremum, and every kept value is the extremum |
| Statistics.KeptIsEqual | gitopenlib/indicators/statistics.py:400-410 | keeping values at or above the maximum (at or below the minimum) keeps exactly the values equal to it, in order |
| Statistics.GetExtremum | gitopenlib/indicators/statistics.py:384-410 | the method computes `ExtremumOf` |
| Statistics.ExtremumSpec | gitopenlib/indicators/statistics.py:393-410 | the result holds every key or index whose value is the max (or min), in order, with those values, and at least one |
| Statistics.ExtremumErrors | gitopenlib/indicators/statistics.py:386-398 | a non-dict, non-list argument or an unknown `type` raises its message; an empty container raises in `max`/`min` |
| Basics.CeilDivSpec | gitopenlib/utils/basics.py:139 | for m > 0, `ceil(len / m)` is the least number of m-sized parts that covers the list |
| Basics.CeilDivNegative | gitopenlib/utils/basics.py:139 | for m < 0 the ceiling is 0 exactly when the list is shorter than -m, and negative otherwise |
| Basics.PiecesFlatten | gitopenlib/utils/basics.py:140 | the pieces put back together give the list |
| Basics.PiecesShape | gitopenlib/utils/basics.py:140 | every piece but the last has length n, the last has length 1 to n, and there are none only for an empty list |
| Basics.OffsetIsProduct | gitopenlib/utils/basics.py:140 | piece k starts at `k * n` |
| Basics.PieceAt | gitopenlib/utils/basics.py:140 | piece k is the slice `arr[k * n : k * n + n]`, cut at the end of the list |
| Basics.ChunksSpec | gitopenlib/utils/basics.py:129-140 | for m > 0 and a non-empty list there are at most m pieces of length `ceil(len / m)`, the last of 1 to n items, and together they give the list back |
| Basics.ChunksErrors | gitopenlib/utils.py:138-139 | m = 0 raises ZeroDivisionError; an empty list, or a negative m with fewer than -m items, makes a zero step that `range` rejects with a ValueError; a negative m with at least -m items gives no pieces |
| Basics.RemoveEmptySpec | gitopenlib/utils/basics.py:126 | exactly the items with a non-empty `str` are kept, in their order, and a second pass changes nothing |
| Basics.RemoveEmptyStrings | gitopenlib/utils.py:125 | on strings exactly the non-empty ones are kept |
| Basics.StripsSpec | gitopenlib/utils/basics.py:54 | `strips` strips both ends and deletes every line feed and carriage return; the last `replace("\r\n", "")` never finds anything |
| Basics.FilterTwice | gitopenlib/utils/basics.py:54 | deleting line feeds and then carriage returns deletes both |
| Basics.StripsIdempotent | gitopenlib/utils.py:53 | `strips` is idempotent |
| Basics.GetOr | gitopenlib/utils/basics.py:40 | `x.get(key, 0)` is the value of the first item holding the key, and 0 when no item does |
| Basics.TupleLessTransitive | gitopenlib/utils/basics.py:35 | tuple `<` is transitive |
| Basics.TupleLessTotal | gitopenlib/utils/basics.py:35 | any two tuples are equal or one is smaller |
| Basics.TupleLessAsymmetric | gitopenlib/utils/basics.py:35 | no two tuples are each smaller than the other |
| Basics.NaturalTotal | gitopenlib/utils/basics.py:35 | any two items compare under the order flag 0 sorts by |
| Basics.NaturalTransitive | gitopenlib/utils/basics.py:35 | that order is transitive |
| Basics.ResolveKeyAsWrittenFails | gitopenlib/utils/basics.py:38-39 | as written an empty key never resolves: indexing `dict_items` raises TypeError, so `[{"a": 1}]` raises where the key "a" was meant |
| Basics.ResolveKeySpec | gitopenlib/utils/basics.py:38-39 | the corrected empty key resolves exactly when the first item is a non-empty dict, and then to its first key |
| Basics.FirstKeyError | gitopenlib/utils/basics.py:40-45 | no error is raised exactly when every item has a sort key |
| Basics.BeforeTotalPreorder | gitopenlib/utils/basics.py:33-45 | the order of each flag, ascending or descending, is a total preorder |
| Basics.SortList | gitopenlib/utils/basics.py:19-47 | a failing key (flags 1 and 2) leaves the list as it was, a failing comparison (flag 0) a permutation of it; otherwise it is permuted into the natural order of its items (flag 0) or into key order (flags 1 and 2), ascending or descending, and left alone for any other flag |
| Basics.SortBy | gitopenlib/utils/basics.py:35-45 | `list.sort` permutes the list so that every item may stand before every later one |
| Basics.InsertBy | gitopenlib/utils/basics.py:35-45 | one insertion step extends the ordered prefix and permutes the list |
| Basics.KeysAfterSort | gitopenlib/utils/basics.py:40-45 | sorting only moves items, so every sort key still exists |
| Basics.RankOrderIsKeyOrder | gitopenlib/utils/basics.py:40-45 | sorting by the possibly negated key is sorting in ascending (or descending) key order |
| Basics.NaturalErrors | gitopenlib/utils/basics.py:33-35 | flag 0 raises exactly when two or more items are not all numbers, all strings or all tuples |
| Basics.NaturalExamples | gitopenlib/utils/basics.py:168-170 | the source's own number and string examples raise nothing under flag 0, neither do tuples, and a number beside a string raises TypeError |
| Basics.SortNumbers | gitopenlib/utils.py:32-34 | flag 0 sorts numbers by value, ascending or descending |
| Basics.SortStrings | gitopenlib/utils/basics.py:33-35 | flag 0 sorts strings by code points, ascending or descending |
| Basics.SortTupleItems | gitopenlib/utils/basics.py:33-35 | flag 0 sorts tuples element by element, ascending or descending |
| Basics.SortRecords | gitopenlib/utils/basics.py:36-40 | with flag 1 a dict without the key sorts as 0; an empty key raises exactly the error of resolving it, IndexError on an empty list; a list of dicts with a resolvable key raises nothing |
| Basics.SortTuples | gitopenlib/utils.py:40-44 | with flag 2 a position outside the first tuple is clamped to 0, and an empty list raises IndexError |
| Basics.SortUnknownFlag | gitopenlib/utils/basics.py:33-47 | an unknown flag never raises |
| RefWorks.ParseRows | gitopenlib/utils/parser.py:39-56 | the loop over the rows of one file returns the finished records `Feed` defines, or the error it raises |
| RefWorks.FeedErrPersists | gitopenlib/utils/parser.py:43-53 | once a row has raised, later rows do not matter |
| RefWorks.StepBlank | gitopenlib/utils/parser.py:44-46 | a row that is blank after `strip()` is skipped |
| RefWorks.StepOtherTag | gitopenlib/utils/parser.py:48-50 | a row whose tag is not two characters long changes nothing |
| RefWorks.StepFails | gitopenlib/utils/parser.py:48-53 | a row raises IndexError exactly when it is a bare two-character tag with no value |
| RefWorks.StepTagged | gitopenlib/utils/parser.py:48-56 | a row `TAG value` stores the value under its tag, replacing an earlier one and leaving the other tags alone; a DS row appends the record, DS field included, and starts an empty one |
| RefWorks.PiecesSpec | gitopenlib/utils/parser.py:51-52 | a list value's pieces are the non-empty ";"-separated parts, in order |
| RefWorks.PiecesExample | gitopenlib/utils/parser.py:51-52 | pieces are not trimmed: "a;; b" gives "a" and " b" |
| RefWorks.FeedFails | gitopenlib/utils/parser.py:43-53 | the loop raises IndexError exactly when some row is a bare two-character tag |
| RefWorks.FeedRecordsGrow | gitopenlib/utils/parser.py:54-56 | finished records are never changed by later rows |
| RefWorks.StepData | gitopenlib/utils/parser.py:53-56 | a row appends a record exactly when its tag is DS, and only one |
| RefWorks.FeedTrailing | gitopenlib/utils/parser.py:54-56 | fields after the last DS row are never emitted |
| RefWorks.FeedSnoc | gitopenlib/utils/parser.py:43 | reading one more row is one more step of the loop body |
| Nlp.RemovePuncDeletes | gitopenlib/utils/nlp.py:29-31 | with the default `repl` the kept characters of the text remain, in order |
| Nlp.RemovePuncSpec | gitopenlib/utils/nlp.py:29-31 | the output holds only ASCII letters, digits and characters of U+4E00..U+9FA5, is a subsequence of the text, and a second pass changes nothing |
| Nlp.RemovePuncReplaces | gitopenlib/utils/nlp.py:29-30 | a one-character `repl` keeps the length: each kept character stays in place and every other one becomes `repl` |
| Nlp.AllChineseSpec | gitopenlib/utils/nlp.py:39-42 | the scan is true exactly when every character is Chinese |
| Nlp.AnyChineseSpec | gitopenlib/utils/nlp.py:48-51 | the scan is true exactly when some character is Chinese |
| Nlp.IsAllChineseSpec | gitopenlib/utils/nlp.py:34-42 | `is_all_chinese` is true exactly when the text has no ASCII letter or digit, so an empty or all-punctuation text passes |
| Nlp.IsContainsChineseSpec | gitopenlib/utils/nlp.py:45-51 | `is_contains_chinese` is true exactly when some character of the text is in U+4E00..U+9FA5 |
| Nlp.EnglishWordCutSpec | gitopenlib/utils/nlp.py:128-130 | no stop word comes out, each word is non-empty and without white space, and a word comes out exactly when it is a word of the text and no stop word |
| Nlp.EnglishWordCutOneWord | gitopenlib/utils/nlp.py:128-130 | with punctuation removed the spaces go too, so at most one word, the whole remaining text, comes out |
| Nlp.CleanWords | gitopenlib/utils/nlp.py:101-104 | removing the punctuation word by word and dropping empty words leaves non-empty words of kept characters |
| Nlp.EnglishWordCutIntendedSpec | gitopenlib/utils/nlp.py:124-130 | the corrected cut gives non-empty, punctuation-free words that are not stop words, and on a text without punctuation it splits at the white space as plain `split()` does |
| Nlp.WordsKept | gitopenlib/utils/nlp.py:130 | the words of a text without punctuation hold only kept characters |
| Nlp.CleanKeptWords | gitopenlib/utils/nlp.py:101-104 | words that are already clean are kept as they are |
| Nlp.EnglishWordCutCounterexample | gitopenlib/utils/nlp.py:128-130 | as written "a b" gives ["ab"]; the corrected cut gives ["a", "b"] |

## Left out

- Floating point: every rational formula is exact `real` arithmetic, and all `round(..., decimals)` calls are left out. This covers `divide_interval`'s `decimal`, the percentages of `divide_bins` and `calculate_list_count_percent`'s `decimals`.
- TagCoMatrix.GenerateCoMatrix: `math.sqrt` is a parameter, assumed positive on positive counts; the cosine similarity and distance matrices (sklearn), CSV saving and the final print are not modelled.
- SortsQuick.QuickSort: requires `left >= right` or a slice inside the list, as every call in the source has; the IndexError of a `right` past the end and Python's negative indices are not modelled.
- TagCoMatrix.GenerateCoMatrix: `filter_tags` of None and of `[]` are the same, as `if filter_tags:` treats them.
- AuthorCoMatrix.CoMatrix.Run: models only the matrix `run` builds; the CSV and TSV files, the prints and `CoMatrix.to_tsv` are file I/O and are left out.
- AuthorCoMatrix.CoMatrix.GenerateMatrix: the pandas DataFrame is an `array2` indexed by the position of a label in `au_dict`. Because of this it requires distinct labels, which a Python dict always has.
- Diversity: `shannon_index`, `shannon_evenness` and `brillouin_diversity_index` use logarithms and factorials of floats and are not modelled.
- Diversity.GiniCoefficient: input is a list of integers; numpy arrays are not modelled.
- Diversity.CalculateDisparity: the similarity DataFrame is a map of maps; a missing label is the KeyError case.
- SortsMerge.Merge: on ties `merge` takes from the right list first. For integers this cannot be observed in the output, so it is not stated.
- SortsRadix.RadixSort: sorted only for non-negative input; signs are handled through Python's floored `%` and modelled exactly; float rounding of `num / 10 ** i` for very large numbers is not modelled.
- SortsRadix.RadixSort: negative input is shown left unsorted by `RadixNegativeCounterexample`. No corrected version is modelled, since the source documents no behaviour for negatives.
- SortsCount.BucketSort: `(num - min) // bucket_size` is exact floor division of reals; float rounding is not modelled.
- Sorting.SortedCopy, Basics.SortBy and Statistics.SortScores: `sorted` and `list.sort` are modelled by insertion sorts proved to give an ordered permutation; Python's Timsort itself is not modelled.
- Basics.SortList: the stability of `list.sort` is not stated. A non-dict item under flag 1 raises AttributeError, which is modelled as `TypeMismatch`.
- Basics.SortList: items are ints, strings, dicts from strings to ints, and tuples of ints; floats, booleans, nested values and tuples holding strings are not modelled. Under flag 2 Python indexes a string item into a one-character key; the model raises `TypeMismatch` for a string item instead.
- Basics.SortList: when a flag-0 comparison raises, CPython may leave the list partly sorted; the model promises only that the list is a permutation of what it was.
- Basics.SortList: with flag 1 and an empty key, the model resolves the key as the first key of the first dict, the evidently intended behaviour; the code as written always raises (see Findings).
- Basics.ChunksSpec: `math.ceil(len / float(m))` is the exact ceiling. The docstring of `chunks` in `gitopenlib/utils.py` calls m the number of elements per sublist, while the code uses it as the number of parts. The model follows the code.
- Nlp.RemovePunc: `repl` is inserted literally; the backslash escapes `re.sub` processes in a replacement string are not modelled.
- Nlp: `chinese_word_cut` (jieba), `char_is_emoji`, `text_has_emoji` (emoji table) and `generate_random_strs` (randomness) are not modelled.
- RefWorks.ParseRows: directory globbing, `open`, `json.dumps`, `file_writer` and `parse_func` are I/O. Records are maps from tag to value, so the key order `json.dumps` writes is not modelled.
- Statistics.Cdf, Statistics.PercentileRank, Statistics.Percentile: int and float values are both modelled as exact reals.
- Statistics: `percentile2` (it multiplies the function object `percentile_rank`) and `calculate_percent` (it only prints) are not modelled, nor are the numpy/scipy functions of the module.
- Statistics: `gb.dict_sorted` is not among the repository's source files and is modelled as a stable sort of the items by ascending key.
- The rest of the repository is I/O, networking, databases, concurrency, plotting or library wrappers, and is not part of this model.

## Findings

| source | as written | input that shows it | evidently intended | confidence | as-written member | corrected member |
|---|---|---|---|---|---|---|
| gitopenlib/utils/sorts.py:70 | the swap writes `alist[i]` into `alist[j - 1]` | [3, 2, 1] becomes [3, 2, 3] | `alist[j], alist[j - 1] = alist[j - 1], alist[j]`, an insertion sort | not executed | SortsSimple.InsertSortWrittenCounterexample | SortsSimple.InsertSort |
| gitopenlib/utils/basics.py:39 | `data[0].items()[0]` indexes a `dict_items` view, which raises TypeError | `sort_list([{"a": 1}], flag=1)` raises instead of sorting by "a" | `list(data[0].items())[0]`, the first key of the first dict | not executed; high | Basics.ResolveKeyAsWrittenFails | Basics.ResolveKeySpec |
| gitopenlib/utils/nlp.py:128-129 | `remove_punc` runs on the whole text and deletes its spaces before `split()` | `english_word_cut("a b")` gives ["ab"] | split first, then remove the punctuation of each word and drop empty ones, as `chinese_word_cut` does at lines 101-104 | not executed; medium | Nlp.EnglishWordCutCounterexample | Nlp.EnglishWordCutIntendedSpec |
