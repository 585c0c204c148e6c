# Advent of Code 2024 solvers, modelled in Dafny

The repository holds twenty-five unrelated puzzle solvers, `src/bin/01.rs` to
`src/bin/25.rs`. Each reads one text input and computes a "part one" and a
"part two" answer. Among them are two-column list distances, report safety,
instruction scanning, word search, page ordering and a guard patrol. There
are also calibration equations, antennas, disk compaction, trailheads,
stones, garden regions, claw machines and robots on a torus. The rest are a
warehouse push simulation, a reindeer maze, a three-bit computer, falling
bytes, towel designs, race-track cheats, nested keypads, monkey-market
secrets, a LAN party, wire gates and lock/key schematics.

This project models every solver in one Dafny module per day (`Day01` …
`Day25`, files `day01.dfy` … `day25.dfy`). Four shared modules support them:

- `Common` (`common.dfy`): arithmetic the solvers rely on. It covers
  truncating division and remainder as Rust defines them for signed
  integers, exclusive-or on unbounded integers, and the flat index of a
  grid cell.
- `Text` (`text.dfy`): decimal parsing and printing, `split_once`,
  collecting per-line parses, and sorting and joining names.
- `Grids` (`grids.dfy`): positions and bounds, reachability over a
  neighbour function, shortest distances, and flag arrays marking sets of
  cells.
- `Counting` (`counting.dfy`): counting hits in a row or a box of cells.
  The race-track cheats use it.

Each day follows the source's own form:

- Loops that update variables become `method`s with loop invariants. Each
  such method is proved against a specification function on values: a
  recursive definition, a set comprehension or a shortest-path predicate.
- Solvers that work in place keep their arrays. Examples are the disk
  compaction, the warehouse grid, the page sort and the breadth-first
  searches' visited flags.
- The three-bit computer of day 17 is a `class` whose registers and
  instruction index (`ip`) the methods update.
- Pure helpers become functions. Lemmas state what the source promises of
  them: round trips, bounds, symmetry, permutation and sortedness, and
  optimality of the searches (except day 16's part two, see below).

A panic that depends on the puzzle data becomes a `None` (or `Panic`)
result, so that the failing inputs are characterised. Examples are an
unwrap on a failed parse, an index past the end, and a bad opcode. Loops
the source runs with no bound take a `fuel` parameter. Rust's `HashMap`,
`HashSet` and `BinaryHeap` become Dafny `map`, `set` and `multiset`.

## Model

| member | source | states |
|---|---|---|
| Day01.SortColumn | src/bin/01.rs:13-14 | the sorted column is ascending and a permutation of the parsed column |
| Day01.SortedUnique | src/bin/01.rs:13-14 | two ascending arrangements of one multiset are equal, so the unstable sort's order does not matter |
| Day01.PartOne | src/bin/01.rs:3-23 | with columns of equal length, the summed distance is zero exactly when the two columns hold the same multiset of ids |
| Day01.DistanceZero | src/bin/01.rs:16-22 | the pairwise absolute distance of two equal-length columns is zero iff they are equal |
| Day01.DistanceIgnoresOrder | src/bin/01.rs:13-22 | reordering either input column leaves the part-one answer unchanged |
| Day01.Frequencies | src/bin/01.rs:35-38 | the frequency map holds exactly the ids of the right column, each mapped to its number of occurrences |
| Day01.ScoreIsSimilarity | src/bin/01.rs:40-46 | summing left id times its frequency (0 when absent) equals the pair-counting similarity score |
| Day01.PartTwo | src/bin/01.rs:25-49 | the score is the similarity of the two columns |
| Day01.SimilarityAppendRight | src/bin/01.rs:40-46 | one more right id y adds y times its number of occurrences on the left |
| Day01.SimilaritySymmetric | src/bin/01.rs:40-46 | swapping the columns keeps the similarity score |
| Day01.SimilarityNone | src/bin/01.rs:43 | with an empty right column every lookup defaults to 0 and the score is 0 |
| Day02.IsValidSequence | src/bin/02.rs:11-29 | as written: panics (None) exactly on reports of fewer than two levels; otherwise true iff every difference is 1 to 3 in magnitude and all go the same way |
| Day02.IsSafe | src/bin/02.rs:11-29 | the intended check: true iff the report is gradual and monotone, reports of fewer than two levels included |
| Day02.Remove | src/bin/02.rs:53-54 | the copy without index i is one shorter and keeps every other level in order |
| Day02.Dampened | src/bin/02.rs:45-57 | the part-two filter holds iff the report is safe or safe after removing one level |
| Day02.DampenedAsWritten | src/bin/02.rs:45-57 | as written: panics exactly on reports under two levels and on unsafe two-level reports; otherwise agrees with the tolerance predicate |
| Day02.TwoLevelReport | src/bin/02.rs:15 | the report "1 10" is unsafe with two levels yet tolerable, so the filter as written panics on a report it should count |
| Day02.PartOne | src/bin/02.rs:31-39 | the count is the number of safe reports |
| Day02.PartTwo | src/bin/02.rs:41-61 | the count is the number of tolerable reports |
| Day02.SafeAtMostTolerable | src/bin/02.rs:31-61 | part two counts at least every report part one counts |
| Day03.SplitDo | src/bin/03.rs:35 | the first piece of `split("do")` is a prefix of the line |
| Day03.SplitJoin | src/bin/03.rs:35 | joining the pieces with "do" gives the line back |
| Day03.SplitPiecesFree | src/bin/03.rs:35 | no piece still contains "do" |
| Day03.SplitAfterFree | src/bin/03.rs:35 | a line a + "do" + b with no "do" in a is cut after a, then b is split |
| Day03.AsWrittenIgnoresFlag | src/bin/03.rs:37-48 | as written, the text kept after the first piece is exactly the pieces starting "()", whatever the flag is |
| Day03.PlainDoDropsText | src/bin/03.rs:37-48 | on "mul(1,2)domul(3,4)", which never disables, the fold as written keeps only "mul(1,2)" |
| Day03.FoldsAgreeOnFlag | src/bin/03.rs:42-46 | the written and corrected folds end with the same flag: "n't()" clears it, "()" sets it, any other piece leaves it |
| Day03.UnmarkedLine | src/bin/03.rs:37-48 | with no marker after the first piece, the corrected fold keeps the whole line when enabled and nothing when disabled |
| Day03.UnmarkedLineKept | src/bin/03.rs:34-50 | a line without `do()`/`don't()` markers passes whole while enabled |
| Day03.ValidParts | src/bin/03.rs:34-50 | the kept text and the outgoing flag are the corrected fold of the line's pieces from the incoming flag |
| Day03.FilterLines | src/bin/03.rs:22-24 | every line is filtered with the flag left behind by the lines before it, starting enabled |
| Day04.DirCount | src/bin/04.rs:31-51 | at most one word per direction tried |
| Day04.CellCount | src/bin/04.rs:14-51 | a cell starts at most eight words, and none unless it holds `X` |
| Day04.NoWordWithoutX | src/bin/04.rs:15-17 | no direction spells XMAS from a cell that is not `X` |
| Day04.EndInGrid | src/bin/04.rs:32-41 | when the start and the cell three steps away are in the grid, so are the cells between them, so every indexed cell is in bounds |
| Day04.Matches | src/bin/04.rs:32-50 | the bounds check of the end and the M, A, S comparisons succeed iff XMAS is spelt in that direction |
| Day04.CountFrom | src/bin/04.rs:31-51 | the count added at an `X` is the number of directions spelling XMAS |
| Day04.PartOne | src/bin/04.rs:3-56 | the count is the number of (cell, direction) occurrences of XMAS in the grid |
| Day04.IsCross | src/bin/04.rs:86-89 | the four listed corner patterns are exactly the corners where both diagonals read M-S in either direction |
| Day04.CrossRow | src/bin/04.rs:67-94 | a row adds at most one cross per interior column |
| Day04.CrossCount | src/bin/04.rs:66-67 | a grid with fewer than three rows or columns has no cross |
| Day04.NoInteriorColumns | src/bin/04.rs:67 | with fewer than three columns no interior column exists |
| Day04.PartTwo | src/bin/04.rs:58-98 | the count is the number of interior `A` cells with MAS on both diagonals |
| Day05.CheckOrder | src/bin/05.rs:45-55 | the pair loops pass iff no pair i < j has the rule (update[j], update[i]) |
| Day05.Middle | src/bin/05.rs:58 | the middle page exists iff the update is non-empty (indexing an empty one panics) and is one of its pages |
| Day05.PartOne | src/bin/05.rs:38-62 | the result is the sum of the middle pages of the updates that break no rule, None when such an update is empty |
| Day05.SumInOrderStaysNone | src/bin/05.rs:58 | once an empty in-order update panics, the whole sum is None |
| Day05.InsertionSort | src/bin/05.rs:108-121 | the insertion branch permutes only a[start..=end], and sorts it when the rules order its pages strictly and totally |
| Day05.InsertOne | src/bin/05.rs:109-119 | one pass swaps the page left while (left neighbour, page) is a rule and extends the sorted prefix by one |
| Day05.InsertSwap | src/bin/05.rs:111-112 | a swap of the insertion loop keeps its invariants one place to the left |
| Day05.InsertExit | src/bin/05.rs:111 | when the insertion loop stops, the prefix up to i is sorted |
| Day05.SwapInSegment | src/bin/05.rs:112-134 | a swap exchanges two cells of the segment and keeps its multiset and everything outside it |
| Day05.Partition | src/bin/05.rs:123-134 | the pivot ends at p, with every page it has a rule to on its left and every other page on its right, as a permutation of the segment |
| Day05.Quicksort | src/bin/05.rs:102-140 | returns at once when start >= end; otherwise permutes only a[start..=end] and sorts it when its pages are strictly totally ordered |
| Day05.QuicksortPart | src/bin/05.rs:135-139 | a recursive call on a[lo..=hi] permutes only that part and sorts it when its pages are strictly totally ordered |
| Day05.PartitionAndSort | src/bin/05.rs:123-139 | partition plus the two recursive calls sort the segment as a permutation |
| Day05.AfterRecursion | src/bin/05.rs:134-139 | the partition facts and the two sorted sides give a sorted permutation of the segment |
| Day05.CombineSorted | src/bin/05.rs:134-139 | a pivot with its rule-successors left and the rest right, both sides sorted, is sorted as a whole |
| Day05.SortedUnique | src/bin/05.rs:102-140 | under a strict total order of the pages there is one sorted arrangement, so any correct sort gives this result |
| Day05.SortedIsReversedOrder | src/bin/05.rs:108-134 | the sort produces the reverse of rule order: sorted iff its reverse breaks no rule |
| Day05.ReversedMiddle | src/bin/05.rs:96 | for an odd number of pages both readings share the middle page part two adds |
| Day05.ReorderUpdate | src/bin/05.rs:68-93 | flags exactly the updates that break a rule and leaves them permuted and sorted, the others untouched |
| Day05.PartTwo | src/bin/05.rs:64-100 | every update is left reordered as above, and the sum is the middle pages of the updates that broke a rule |
| Day05.MiddleSumPrefix | src/bin/05.rs:68-97 | updates beyond those summed do not change the sum |
| Day06.TurnRight | src/bin/06.rs:12-19 | a right turn always changes the direction |
| Day06.Delta | src/bin/06.rs:21-28 | each delta is a unit (row, column) step: Up (-1,0), Right (0,1), Down (1,0), Left (0,-1) |
| Day06.TurnsCycle | src/bin/06.rs:12-28 | four right turns are the identity and two reverse the step |
| Day06.StartPos | src/bin/06.rs:31-40 | None iff no row holds `^`; otherwise the first `^` in row-major order |
| Day06.FirstIndex | src/bin/06.rs:33-36 | the first index of a character in a row, None iff absent |
| Day06.GetStartPos | src/bin/06.rs:31-40 | the nested scan with its early return finds the first `^` in row-major order |
| Day06.StartPosInRow | src/bin/06.rs:32-36 | a row whose first `^` is at column j yields (row, j) |
| Day06.StartPosSkipRow | src/bin/06.rs:32-37 | a row without `^` is skipped |
| Day06.Advance | src/bin/06.rs:55-134 | the guard exits iff the next cell is off the grid; it steps forward only onto an in-bounds non-`#` cell, and otherwise turns |
| Day06.WalkVisitsWalkable | src/bin/06.rs:54-70 | the walk only adds in-bounds non-`#` cells to the visited set and never removes any |
| Day06.WalkFuelMonotone | src/bin/06.rs:54-70 | more fuel never changes a walk that already ended |
| Day06.PartOne | src/bin/06.rs:42-73 | the count is the size of the visited set of the walk from the first `^` facing up, which ends only when the next step leaves the grid |
| Day06.PartOneCountsWalkable | src/bin/06.rs:48-72 | the counted cells include the start, and all others are walkable |
| Day06.RunTrial | src/bin/06.rs:104-135 | the trial loop reports a loop iff a (position, direction) state repeats before the guard leaves or records more than rows * cols states |
| Day06.PartTwo | src/bin/06.rs:75-143 | the count is the number of `.` cells whose obstruction makes the trial loop, and the grid rows end as they began |
| Day06.RepeatMeansForever | src/bin/06.rs:108-111 | once a state repeats, the guard stays on the grid for ever |
| Day06.StateAtShift | src/bin/06.rs:107-135 | after a repeat the states recur with the period of the repeat |
| Day06.StateAtPrefix | src/bin/06.rs:107-135 | a guard still on the grid at step j was on it at every earlier step |
| Day06.SeenEarlier | src/bin/06.rs:118 | every recorded state is the state at some earlier step |
| Day06.TrialFromSound | src/bin/06.rs:107-135 | a trial reporting a loop has two steps i < j with the same state |
| Day06.TrialStep | src/bin/06.rs:118-134 | a trial that goes on from step n goes on from step n + 1 |
| Day06.TrialLoopsForever | src/bin/06.rs:107-112 | a trial that counts a loop is right: on the obstructed grid the guard never leaves |
| Day07.StripDigits | src/bin/07.rs:25-37 | the digit loop with its early break yields the stripped prefix exactly as the recursive definition does |
| Day07.StripSuffixIsConcat | src/bin/07.rs:25-41 | the loop strips the operand iff the target is the decimal concatenation of a positive prefix and the operand |
| Day07.Check | src/bin/07.rs:3-45 | `check` with its subtraction guarded: with positive operands a zero test value never checks out |
| Day07.CheckIsExact | src/bin/07.rs:3-45 | the guarded check succeeds iff some left-to-right choice of operators over the operands produces the target |
| Day07.InResults | src/bin/07.rs:12-41 | the target is reachable with one more operand iff undoing a sum, a product (operand divides target) or a concatenation leads to a reachable value |
| Day07.InSums | src/bin/07.rs:12 | undoing an addition needs operand <= target |
| Day07.InProducts | src/bin/07.rs:17-18 | a product is undone exactly when the operand divides the target |
| Day07.InConcatenations | src/bin/07.rs:24-41 | a concatenation is undone exactly when the operand's digits are a suffix leaving a positive prefix |
| Day07.ResultsPositive | src/bin/07.rs:3-45 | with positive operands no combination produces 0 |
| Day07.PartOneImpliesPartTwo | src/bin/07.rs:12-24 | success with part1 = true implies success with part1 = false |
| Day07.AsWrittenAgrees | src/bin/07.rs:3-45 | whenever the unguarded check does not panic, it agrees with the guarded one |
| Day07.UnderflowExample | src/bin/07.rs:12 | on "1: 1 2" the unguarded subtraction 1 - 2 panics, though the equation is simply false in both parts |
| Day07.PartOneAtMostPartTwo | src/bin/07.rs:47-75 | part two's total is at least part one's |
| Day07.Calibration | src/bin/07.rs:47-66 | `process_input`: at most the sum of all test values, and exactly that sum when every equation checks out |
| Day07.CalibrationCountsSolvable | src/bin/07.rs:47-66 | `process_input` sums exactly the targets some operator choice produces |
| Day08.RowAntennasAre | src/bin/08.rs:8-12 | a row scan lists exactly the columns holding c, in increasing order |
| Day08.AntennasAre | src/bin/08.rs:7-13 | the list of c holds exactly the cells of c, in strictly increasing row-major order |
| Day08.AntennasDistinct | src/bin/08.rs:7-13 | no antenna is listed twice |
| Day08.FoundStep | src/bin/08.rs:9-10 | one more cell appends itself to its character's list when it holds that character |
| Day08.RecordCell | src/bin/08.rs:9-11 | a non-`.` cell is appended to its character's list, created when missing, and the map invariant advances one cell |
| Day08.ScanRow | src/bin/08.rs:8-12 | the map invariant advances one row |
| Day08.GetPositions | src/bin/08.rs:5-15 | the map holds exactly the non-`.` characters of the grid, each with all its cells in row-major order |
| Day08.DoubledAreTwiceAsFar | src/bin/08.rs:29-38 | part one's points are exactly the in-bounds points pos1 + 2d and pos2 - 2d |
| Day08.FarOut | src/bin/08.rs:43-56 | for distinct antennas both points leave the grid after finitely many steps, so the loop stops |
| Day08.HarmonicsInBounds | src/bin/08.rs:50-59 | every point part two records is in bounds |
| Day08.PairAntinodesInBounds | src/bin/08.rs:37-59 | every recorded antinode passes the bounds filter |
| Day08.Convex | src/bin/08.rs:43-56 | along the line the in-bounds multiples form an interval, so stopping at the first all-out step misses nothing |
| Day08.BackShift | src/bin/08.rs:47 | pos2 - n·d equals pos1 + (1 - n)·d |
| Day08.HarmonicsFrom | src/bin/08.rs:43-62 | from step n the loop records exactly the in-bounds points pos1 + m·d and pos2 - m·d for m >= n |
| Day08.HarmonicsAreLine | src/bin/08.rs:41-62 | part two's points of a pair are exactly the in-bounds points of the line through both antennas at whole multiples of d, the antennas themselves included |
| Day08.DoubledInHarmonics | src/bin/08.rs:29-62 | part one's points of a pair are among part two's |
| Day08.PartnersOfHas | src/bin/08.rs:25 | the antinodes of antenna i are those of its pairs with the later antennas |
| Day08.PairsOfHas | src/bin/08.rs:24-25 | a point is collected iff some pair i < j gives it, each unordered pair being taken once |
| Day08.FrequencyInBounds | src/bin/08.rs:19-59 | the antinodes of a frequency lie within the first row's width and the row count |
| Day08.AntinodeSetIs | src/bin/08.rs:17-67 | the collected set holds exactly the antinodes of the grid |
| Day08.StepPoints | src/bin/08.rs:45-48 | the two points of step n are pos1 + n·d and pos2 - n·d |
| Day08.HarmonicsStep | src/bin/08.rs:44-61 | a step that goes on adds its in-bounds points and continues with n + 1 |
| Day08.HarmonicsStop | src/bin/08.rs:44-56 | a step past the cap, or with both points out of bounds, ends the loop |
| Day08.StepPair | src/bin/08.rs:45-48 | computes pos1 + n·d and pos2 - n·d |
| Day08.Extend | src/bin/08.rs:36-59 | the set grows by exactly the in-bounds points among the two |
| Day08.AddPair | src/bin/08.rs:26-62 | the set grows by exactly the antinodes of the pair, for the cap given |
| Day08.PartnersStep | src/bin/08.rs:25 | one more partner j adds the antinodes of that pair |
| Day08.AddPartner | src/bin/08.rs:25-63 | the inner-loop body keeps the invariant one partner further |
| Day08.AddPartners | src/bin/08.rs:25-63 | antenna i against every later antenna |
| Day08.AddPairs | src/bin/08.rs:24-64 | the pairs loop over one frequency adds all antinodes of its pairs |
| Day08.UnionOverAdd | src/bin/08.rs:23 | one more frequency adds its antinodes to the union |
| Day08.CollectedAll | src/bin/08.rs:23-66 | the union over the map's frequencies is the grid's antinode set |
| Day08.AddFrequency | src/bin/08.rs:23-65 | one frequency's pass adds exactly its antinodes |
| Day08.FindAntinodes | src/bin/08.rs:17-67 | the result is exactly the antinode set of the grid |
| Day08.PartOne | src/bin/08.rs:69-75 | the count is the number of distinct antinodes with cap 2 |
| Day08.PartTwo | src/bin/08.rs:77-80 | the count is the number of distinct uncapped antinodes |
| Day08.AntennaPair | src/bin/08.rs:23-25 | two antennas of a frequency on a rectangular grid are distinct in-bounds cells |
| Day08.AntinodeWithinPartTwo | src/bin/08.rs:29-62 | an antinode of part one is one of part two |
| Day08.PartOneWithinPartTwo | src/bin/08.rs:69-80 | on a rectangular grid part one's set is contained in part two's |
| Day09.Repeat | src/bin/09.rs:10 | n copies of the value |
| Day09.Parse | src/bin/09.rs:3-13 | panics (None) iff some byte is below '0'; otherwise digit i becomes that many copies of i/2 (even i) or of -1 (odd i) |
| Day09.ExpandFileCounts | src/bin/09.rs:6-12 | file j occurs as many times as the digit at index 2j says |
| Day09.ExpandFilesAscending | src/bin/09.rs:6-12 | after expansion the files appear in increasing id order |
| Day09.FirstFree | src/bin/09.rs:23-25 | the leftmost free block: every block before it is a file block |
| Day09.LastFile | src/bin/09.rs:28-30 | the rightmost file block: every block after it is free |
| Day09.SwapMovesEnds | src/bin/09.rs:32-38 | trading the leftmost free block with the rightmost file block moves the first gap right and the last file block left, so the compaction ends |
| Day09.CompactKeepsFreeTail | src/bin/09.rs:15-41 | the compaction keeps the disk's length, and the free blocks after the last file block stay free |
| Day09.CompactIsCompacted | src/bin/09.rs:15-41 | the compaction is a permutation of the blocks with every free block after every file block, and a block that is a file block before and after keeps its id |
| Day09.CompactSwapStep | src/bin/09.rs:32-38 | in the loop's state, the swap at the two cursors is one trade of the leftmost gap with the rightmost file block |
| Day09.CompactDone | src/bin/09.rs:21 | with no free block before a file block the compaction changes nothing |
| Day09.CompactExample | src/bin/09.rs:15-41 | the disk [0, ., ., 1, 2] of input "12101" compacts to [0, 2, 1, ., .], checksum 4 |
| Day09.MoveFilesToRight | src/bin/09.rs:15-41 | panics (None) iff the disk is empty; otherwise exactly the compaction that trades the leftmost gap with the rightmost file block until none is left of a file block |
| Day09.SkipFiles | src/bin/09.rs:23-25 | `left` stops at the first free block before `right` |
| Day09.SkipFree | src/bin/09.rs:28-30 | `right` stops at the last file block after `left` |
| Day09.SkipKeeps | src/bin/09.rs:21-31 | moving the cursors keeps the loop invariant |
| Day09.SwapKeeps | src/bin/09.rs:32-38 | swapping a free block at `left` with a file block at `right` keeps the invariant one step further |
| Day09.SwapKeepsMultiset | src/bin/09.rs:33-35 | a swap preserves the multiset |
| Day09.CursorsMet | src/bin/09.rs:21-40 | when the cursors meet no free block precedes a file block |
| Day09.Checksum | src/bin/09.rs:43-51 | the sum of position times id over non-free blocks |
| Day09.ChecksumIgnoresFreeTail | src/bin/09.rs:43-51 | free blocks at the end do not change the checksum |
| Day09.ChecksumNonNegative | src/bin/09.rs:43-51 | with only file ids and free blocks the checksum is never negative |
| Day09.PositionsIn | src/bin/09.rs:72-78 | the ascending positions of a file id |
| Day09.MaxIdInIsLargest | src/bin/09.rs:76 | the largest id bounds every block and is 0 or the id of one of them |
| Day09.FirstFit | src/bin/09.rs:92-111 | the least start of a run of free blocks of the file's size ending before its first block, None iff there is none |
| Day09.MoveBlocks | src/bin/09.rs:117-120 | the batch update keeps the disk length |
| Day09.MoveBlocksEffect | src/bin/09.rs:117-120 | the id fills the whole target run, its old blocks become free, and every other block is unchanged |
| Day09.MoveBlocksStep | src/bin/09.rs:117-120 | one iteration of the batch update |
| Day09.ProcessFile | src/bin/09.rs:82-122 | one file id keeps the disk length |
| Day09.ProcessFileSteps | src/bin/09.rs:87-122 | the scan and the move compose to the one-file step |
| Day09.CompactFrom | src/bin/09.rs:81-123 | files are processed in decreasing id order and the disk length is kept |
| Day09.FindGap | src/bin/09.rs:92-115 | the gap scan returns exactly the least fitting run before the file |
| Day09.FirstFitUnique | src/bin/09.rs:92-115 | any least fitting start is the one the scan finds |
| Day09.MoveFile | src/bin/09.rs:117-120 | the array becomes the batch update of its old contents |
| Day09.MoveFileStep | src/bin/09.rs:117-120 | one iteration of the move loop on values |
| Day09.GatherFiles | src/bin/09.rs:67-78 | succeeds iff every id is below the number of blocks; then records each id's count and ascending positions and the largest id |
| Day09.MoveFilesToEarliestGaps | src/bin/09.rs:63-126 | panics (None) iff the disk is empty or an id is out of range; otherwise the whole-file compaction |
| Day09.MoveOneFile | src/bin/09.rs:81-122 | one iteration of the loop over file ids |
| Day09.MoveBlocksMultiset | src/bin/09.rs:117-120 | moving a file into a free run keeps the multiset of blocks |
| Day09.MoveOneBlock | src/bin/09.rs:118-119 | moving one block keeps the multiset and the rest of the move possible |
| Day09.ProcessFileKeeps | src/bin/09.rs:82-122 | one file step preserves the multiset and leaves smaller files unmoved |
| Day09.CompactFromKeeps | src/bin/09.rs:81-123 | the whole loop preserves the multiset of blocks |
| Day09.MoveWholeFilesPermutes | src/bin/09.rs:63-126 | part two only rearranges blocks |
| Day09.PartOne | src/bin/09.rs:53-56 | answers iff every byte is at least '0' and the expansion is non-empty, and the answer is the checksum of the expansion's compaction (determined: see CompactExample) |
| Day09.PartTwo | src/bin/09.rs:58-61 | when every byte is at least '0', the expansion is non-empty and ids are in range, the checksum of the whole-file compaction; None on a byte below '0' |
| Day10.DigitOf | src/bin/10.rs:28 | `to_digit(10)` succeeds exactly on '0'..'9' and gives the digit's value |
| Day10.ParseLineDigits | src/bin/10.rs:27-29 | a line parses iff every character is a digit, each cell holding its value |
| Day10.ParseInput | src/bin/10.rs:23-32 | the grid parses iff every line does, one row per line, each the parse of its line |
| Day10.ParseInputDigits | src/bin/10.rs:23-32 | the input parses iff every character is a digit, and then each cell holds its digit's value |
| Day10.SuccessorsAmongClimb | src/bin/10.rs:57-72 | the first k directions contribute exactly the neighbours one higher |
| Day10.SuccessorsClimb | src/bin/10.rs:57-72 | the successors of a cell are its four neighbours that are exactly one higher |
| Day10.SuccessorReachable | src/bin/10.rs:57-72 | a successor of a reachable cell is reachable |
| Day10.ClosedHoldsReach | src/bin/10.rs:52-73 | a set holding the start and closed under successors holds every reachable cell |
| Day10.NinesStep | src/bin/10.rs:53-55 | dequeuing a new cell adds one to the count exactly when it is a 9 |
| Day10.NoneMarked | src/bin/10.rs:41 | the fresh `visited` vector marks no cell |
| Day10.MarkOne | src/bin/10.rs:45-68 | setting the flag at index i·cols + j marks exactly that cell in addition |
| Day10.PushOne | src/bin/10.rs:58-71 | a neighbour is marked and queued iff it is on the grid, unvisited and one higher, so each cell is enqueued at most once |
| Day10.PushStep | src/bin/10.rs:57-72 | one more direction keeps the marking and queue invariants |
| Day10.PushSuccessors | src/bin/10.rs:57-72 | after the four directions all successors are marked and the fresh ones queued |
| Day10.QueueStep | src/bin/10.rs:67-70 | queueing the fresh members keeps the queue equal to the fresh successors found so far |
| Day10.Dequeue | src/bin/10.rs:52 | the front of a queue of distinct cells is not in the rest |
| Day10.SearchStep | src/bin/10.rs:52-73 | one turn keeps the search invariant (queue entries carry their cell's height, every seen cell is reachable) and shrinks the unexplored cells |
| Day10.SearchDone | src/bin/10.rs:52-75 | with the queue empty, the count is the number of reachable height-9 cells |
| Day10.CountReachableNines | src/bin/10.rs:34-76 | the score of a trailhead is the number of 9 cells reachable by +1 steps |
| Day10.Explore | src/bin/10.rs:125-172 | one neighbour test recurses exactly on an in-bounds, off-path neighbour one higher, adds that branch's paths, and restores the path |
| Day10.Dfs | src/bin/10.rs:106-175 | adds the number of +1-step trails from the cell to a 9, restores `current_path`, and never holds more than 9 cells before a push |
| Day10.CountDistinctPaths | src/bin/10.rs:96-187 | the rating of a trailhead is its number of distinct trails |
| Day10.InGridCell | src/bin/10.rs:62 | an in-bounds cell is a grid cell |
| Day10.NineReach | src/bin/10.rs:53-72 | a 9 has no successor, so it reaches only itself |
| Day10.NinesOfNine | src/bin/10.rs:53-55 | from a 9 the only reachable 9 is itself |
| Day10.ReachFirst | src/bin/10.rs:57-72 | a trail of k + 1 steps begins with a step to a successor |
| Day10.ReachPrepend | src/bin/10.rs:57-72 | a successor step followed by a trail is a trail |
| Day10.NineThroughSuccessor | src/bin/10.rs:125-172 | a 9 reached from a cell below 9 is reached through one of its successors |
| Day10.NineFromSuccessor | src/bin/10.rs:125-172 | a 9 reached from a successor is reached from the cell |
| Day10.NinesSplit | src/bin/10.rs:125-172 | below 9, the reachable nines are the union over the four directions |
| Day10.ScoreAtMostRating | src/bin/10.rs:34-187 | a trailhead's score never exceeds its rating, and the rating is zero exactly when no 9 is reachable |
| Day10.ViaBound | src/bin/10.rs:125-172 | per direction, the reachable nines are at most the trails, and zero together |
| Day10.RowSumBound | src/bin/10.rs:13-16 | a pointwise bound carries over to a row sum |
| Day10.TotalBound | src/bin/10.rs:10-18 | a pointwise bound carries over to the grid total |
| Day10.ScoresAtMostRatings | src/bin/10.rs:5-94 | the total score never exceeds the total rating, and one is zero exactly when the other is |
| Day10.RowScores | src/bin/10.rs:13-16 | one row's sum over its trailheads of their scores |
| Day10.PartOne | src/bin/10.rs:5-21 | answers iff the input parses to a valid grid (else a panic); then the sum of the scores of the 0 cells |
| Day10.RowRatings | src/bin/10.rs:86-89 | one row's sum over its trailheads of their ratings |
| Day10.PartTwo | src/bin/10.rs:78-94 | answers iff the input parses to a valid grid; then the sum of the ratings of the 0 cells |
| Day11.Decimal | src/bin/11.rs:9 | `to_string` yields at least one digit |
| Day11.TrimZeros | src/bin/11.rs:12-13 | trimming leading zeros never lengthens the digits |
| Day11.ApplyRules | src/bin/11.rs:5-20 | a stone always becomes one or two stones |
| Day11.DecimalValue | src/bin/11.rs:9 | the decimal digits read back as the number |
| Day11.ValueAppend | src/bin/11.rs:11-13 | the value of concatenated digits is the left value shifted by the right length plus the right value |
| Day11.ValueBound | src/bin/11.rs:9-13 | k digits are worth less than 10^k |
| Day11.TrimZerosValue | src/bin/11.rs:12-13 | trimming leading zeros and parsing with 0 as the default gives the value of the digits, 0 for an all-zero half |
| Day11.SplitIsDivMod | src/bin/11.rs:9-14 | an even-length number splits into n div 10^h and n mod 10^h, h being half its digit count |
| Day11.SplitDigits | src/bin/11.rs:11-13 | cutting digits after h places is division and remainder by a power of ten |
| Day11.Blink | src/bin/11.rs:25-33 | a blink never removes a stone |
| Day11.FlatMapLength | src/bin/11.rs:28 | replacing each stone by one or more keeps at least as many stones |
| Day11.TotalsNeverDecrease | src/bin/11.rs:25-35 | the number of stones never decreases from one blink to a later one |
| Day11.FlatMapAppend | src/bin/11.rs:27-31 | a blink over two lists is the concatenation of the two blinks |
| Day11.FlatMapSingle | src/bin/11.rs:28 | a blink over one stone is its rule |
| Day11.FlatMapPermutation | src/bin/11.rs:27 | the multiset after a blink depends only on the multiset before, so the map's iteration order does not matter |
| Day11.RemoveOne | src/bin/11.rs:27 | removing one stone from equal multisets keeps them equal |
| Day11.Repeat | src/bin/11.rs:29 | n copies of a stone form the multiset with n of it |
| Day11.CopiesSucc | src/bin/11.rs:29 | one more count adds one more copy of the rule's output |
| Day11.CopiesZero | src/bin/11.rs:29 | zero copies give nothing |
| Day11.FlatMapRepeat | src/bin/11.rs:27-30 | c equal stones give c copies of what one gives |
| Day11.BlinkCounts | src/bin/11.rs:26-32 | the new count map is the multiset of the stones after one blink |
| Day11.AddCopies | src/bin/11.rs:28-30 | adding `count` for every output stone adds count copies of the output |
| Day11.SimulateBlinks | src/bin/11.rs:22-36 | counting each input stone once per occurrence, the total is the number of stones after the blinks |
| Day11.InitialCounts | src/bin/11.rs:23 | the intended start counts every occurrence, so it holds as many stones as the input |
| Day11.CountOccurrences | src/bin/11.rs:23 | a value's multiplicity is its number of positions |
| Day11.InitialCountsAsWritten | src/bin/11.rs:23 | as written each distinct input value starts with count 1 |
| Day11.DuplicateStonesCollapse | src/bin/11.rs:23 | on "0 0" the map as written starts with one stone where there are two |
| Day11.PartOne | src/bin/11.rs:38-41 | the number of stones after 25 blinks |
| Day11.PartTwo | src/bin/11.rs:43-46 | the number of stones after 75 blinks |
| Day12.NewGrid | src/bin/12.rs:12-23 | `Grid::new` divides by zero (None) iff there is no line or the last line is empty; otherwise data is the concatenated lines, width the last line's length, height data length / width |
| Day12.RowsFit | src/bin/12.rs:21-27 | with height = len / width, every full row lies inside the data |
| Day12.Adjacent | src/bin/12.rs:130-135 | four neighbours, each one step away along a row or a column |
| Day12.AlikeAmongIff | src/bin/12.rs:58-146 | the first k neighbour tests find exactly the in-bounds neighbours of the same plant among the first k directions |
| Day12.LinkIff | src/bin/12.rs:130-146 | the links of a cell are its in-bounds 4-neighbours growing the same plant |
| Day12.LinkSymmetric | src/bin/12.rs:130-146 | links are symmetric |
| Day12.RegionPlant | src/bin/12.rs:50-140 | every cell of a region is in bounds and grows the start's plant |
| Day12.RegionClosed | src/bin/12.rs:122-147 | a region is closed under links |
| Day12.RegionStart | src/bin/12.rs:123-125 | a region holds its start |
| Day12.RegionWithin | src/bin/12.rs:122-147 | a closed set holding the start holds its region, so the region is the least such set |
| Day12.PerimeterAdd | src/bin/12.rs:57-80 | adding a cell adds its fence units to the perimeter |
| Day12.RegionPatch | src/bin/12.rs:122-147 | the region is a connected patch of one plant holding its start |
| Day12.ReachOutside | src/bin/12.rs:40-101 | nothing reachable from a start outside a closed set lies in it |
| Day12.RegionOutside | src/bin/12.rs:40-101 | a new region meets none of the earlier ones |
| Day12.MeasureAdd | src/bin/12.rs:54-80 | marking one more cell adds one to the area and its fence units to the perimeter |
| Day12.CoversAfterMark | src/bin/12.rs:54-80 | marking the popped cell and pushing its unseen links keeps every link of a marked cell marked or stacked |
| Day12.Look | src/bin/12.rs:58-79 | one neighbour test pushes the neighbour iff it is in bounds, unvisited and of the plant, and counts a fence iff it is off the grid or another plant |
| Day12.PushesCover | src/bin/12.rs:58-79 | the pushed cells are links, and with the seen cells they cover every link |
| Day12.LookAround | src/bin/12.rs:58-79 | the four tests count exactly the cell's fence units and push its unseen links |
| Day12.OutsideClosed | src/bin/12.rs:40-101 | a link of a cell outside a closed set is outside it |
| Day12.SkipFilling | src/bin/12.rs:50-52 | popping an already marked cell keeps the fill's state |
| Day12.MarkFilling | src/bin/12.rs:54-80 | marking the popped cell and pushing its unseen links advances the fill |
| Day12.FillStep | src/bin/12.rs:48-81 | one turn keeps the fill invariant and the area/perimeter tally |
| Day12.MarkStep | src/bin/12.rs:54-80 | the marking branch adds the cell to the region and shrinks the unmarked cells |
| Day12.MarkCell | src/bin/12.rs:54-80 | the flag of the cell is set and nothing else, and its neighbour tests run |
| Day12.FillingStart | src/bin/12.rs:45-46 | the state before the first turn |
| Day12.FillingDone | src/bin/12.rs:48 | with the stack empty the fill has marked exactly the start's region |
| Day12.FillRegion | src/bin/12.rs:40-83 | marks exactly the start's region, disjoint from earlier regions, with area its size and perimeter its fence count |
| Day12.CoveredClosed | src/bin/12.rs:37-40 | the union of the regions found so far is closed under links |
| Day12.CoveredHoldsEarlier | src/bin/12.rs:37-40 | every cell before the scan position is in an earlier region |
| Day12.RegionsCover | src/bin/12.rs:37-86 | the regions of the scan cover the grid, each cell marked exactly once |
| Day12.CoveredInCells | src/bin/12.rs:37-40 | the regions found lie inside the grid |
| Day12.PriceCellOne | src/bin/12.rs:39-84 | an unvisited cell starts a fill whose area × perimeter is added |
| Day12.ScanRowOne | src/bin/12.rs:38-85 | one row of the scan of part one |
| Day12.PartOne | src/bin/12.rs:31-89 | None iff `Grid::new` divides by zero; else the sum over regions of area × perimeter |
| Day12.GatherPush | src/bin/12.rs:138-144 | marking and pushing an unmarked same-plant neighbour advances the collection |
| Day12.GatherSkip | src/bin/12.rs:138-140 | passing over an off-grid, other-plant or marked neighbour keeps the collection |
| Day12.GatherFinish | src/bin/12.rs:128-147 | a popped cell whose links are all marked is done |
| Day12.GatherNeighbour | src/bin/12.rs:137-146 | one neighbour test of `collect_region` |
| Day12.GatherStep | src/bin/12.rs:128-147 | one turn keeps the collection invariant and shrinks the unmarked cells or the stack |
| Day12.GatherStart | src/bin/12.rs:122-126 | the state after the start is marked |
| Day12.GatherDone | src/bin/12.rs:128 | with nothing pending the collected cells are exactly the region |
| Day12.CollectRegion | src/bin/12.rs:114-148 | yields the 4-connected same-plant region of the start, disjoint from earlier regions, and marks it visited |
| Day12.CalculateDiscount | src/bin/12.rs:150-187 | the sum over the region's cells, in any order, of the four side tests; at most 4 per cell |
| Day12.SidesAtMostFences | src/bin/12.rs:153-185 | in a region closed under links, each cell's side count is at most its fence count |
| Day12.DiscountAtMostPerimeter | src/bin/12.rs:150-187 | a region's sides are at most its perimeter |
| Day12.PriceSumMonotone | src/bin/12.rs:98-109 | pricing every region no higher prices the map no higher |
| Day12.SidePriceAtMostFencePrice | src/bin/12.rs:31-112 | part two's total is never above part one's |
| Day12.RegionPriceBound | src/bin/12.rs:104-106 | area × sides is at most area × perimeter |
| Day12.PriceCellTwo | src/bin/12.rs:100-107 | an unvisited cell starts a collection whose area × sides is added |
| Day12.ScanRowTwo | src/bin/12.rs:99-108 | one row of the scan of part two |
| Day12.PartTwo | src/bin/12.rs:91-112 | None iff `Grid::new` divides by zero; else the sum over regions of area × sides |
| Day13.DividesWitness | src/bin/13.rs:80-83 | divisibility gives the quotient |
| Day13.MultipleDivides | src/bin/13.rs:80 | d divides every multiple of d |
| Day13.DividesLinear | src/bin/13.rs:78-84 | a common divisor of a and b divides every a·x + b·y |
| Day13.ExtendedGcd | src/bin/13.rs:68-75 | with truncating `%` and `/`, the coefficients satisfy a·x + b·y = g, base case (a, 1, 0) when b = 0 |
| Day13.BezoutStep | src/bin/13.rs:72-73 | the back-substitution of the recursive case keeps Bezout's identity |
| Day13.GcdDivides | src/bin/13.rs:68-75 | g divides both arguments |
| Day13.CommonDivisorDividesGcd | src/bin/13.rs:68-75 | every common divisor divides g, so g is a greatest common divisor |
| Day13.GcdZero | src/bin/13.rs:79-80 | g is zero exactly when both arguments are, the only case where `c % gcd` divides by zero |
| Day13.TruncRemZero | src/bin/13.rs:80 | Rust's `c % g == 0` is divisibility |
| Day13.FindParticular | src/bin/13.rs:78-85 | None exactly when g does not divide c; otherwise (x, y) with a·x + b·y = c |
| Day13.ScaleSolution | src/bin/13.rs:83-84 | scaling Bezout's coefficients by c / g solves for c |
| Day13.ParticularComplete | src/bin/13.rs:78-85 | whenever some integers solve a·x + b·y = c, a solution is found |
| Day13.Solve | src/bin/13.rs:87-113 | a prize is reported only with non-negative presses solving both equations; a panic exactly on a zero determinant or, once A is found, bX = 0 |
| Day13.Eliminate | src/bin/13.rs:92-100 | every solution satisfies det·A = tX·bY - tY·bX |
| Day13.SolveComplete | src/bin/13.rs:99-112 | with non-zero determinant and bX, a machine some non-negative presses win is solved with exactly those presses |
| Day13.PressesUnique | src/bin/13.rs:99-104 | with non-zero determinant and bX, at most one pair of presses wins |
| Day13.Tokens | src/bin/13.rs:18-61 | one machine adds 3A + B when won, 0 when not, never a negative amount |
| Day13.Total | src/bin/13.rs:3-28 | the total is non-negative and defined iff no machine panics |
| Day13.TotalTokens | src/bin/13.rs:7-62 | the loop over the machines computes the total |
| Day13.TotalStaysNone | src/bin/13.rs:7-25 | once a machine panics so does the whole run |
| Day13.PartOne | src/bin/13.rs:3-28 | the total with the prizes where they are |
| Day13.PartTwo | src/bin/13.rs:42-65 | the total with both prize coordinates moved by 10^13 |
| Day13.ExampleMachine | src/bin/13.rs:87-113 | the machine A (94, 34), B (22, 67), prize (8400, 5400) costs 280 tokens |
| Day14.CoordsShape | src/bin/14.rs:8-12 | a written pair is its two-character tag, then two numbers around a comma, with no space |
| Day14.ParseRobot | src/bin/14.rs:6-18 | a parsed robot has every coordinate in the `i32` range |
| Day14.ParseFormat | src/bin/14.rs:6-18 | parsing the written line `p=x,y v=vx,vy` of an i32-range robot gives that robot back |
| Day14.ParseAllLines | src/bin/14.rs:66-80 | the lines parse together iff each does, and then the robots are theirs in order |
| Day14.WrapIsMod | src/bin/14.rs:27-38 | with the position in range and the velocity at most the dimension, the branch wrap is the Euclidean remainder |
| Day14.ModAdd | src/bin/14.rs:24-38 | adding to a remainder and reducing again is reducing once |
| Day14.MoveIsMod | src/bin/14.rs:24-41 | a step moves a fitting robot to (p + v) mod the dimensions, keeps its velocity, and it still fits |
| Day14.StepsClosedForm | src/bin/14.rs:71-85 | after n steps every robot is at (p + n·v) mod the dimensions with its velocity, and the robot count is unchanged |
| Day14.SimulateStep | src/bin/14.rs:20-44 | the robots are replaced in place by their moved selves, nothing else changes |
| Day14.QuadrantsPartition | src/bin/14.rs:46-63 | every robot is counted exactly once, in one quadrant or among those on a middle line |
| Day14.CountRobotsInQuadrants | src/bin/14.rs:46-63 | the four counts are the robots strictly inside each quadrant, robots on the middle row or column ignored |
| Day14.ToArray | src/bin/14.rs:66 | a fresh array holding the robots |
| Day14.PartOne | src/bin/14.rs:65-77 | None iff a line does not parse; else the product of the quadrant counts after 100 steps on 101 × 103, truncated to 32 bits |
| Day14.OccupiedIffCount | src/bin/14.rs:88-92 | on the grid a cell's count is positive iff a robot stands there |
| Day14.Occupancy | src/bin/14.rs:88-92 | each cell's entry is the number of robots on it |
| Day14.RunAt | src/bin/14.rs:96-102 | the sixteen-cell test succeeds iff all sixteen cells from (x, y) are occupied |
| Day14.FindRun | src/bin/14.rs:94-107 | with every start column up to width - 16 tried, finds a run iff some row holds sixteen occupied cells in a row |
| Day14.PartTwo | src/bin/14.rs:79-110 | returns the first second (within the fuel) at which a run of sixteen appears, and None only if none appears within the fuel |
| Day14.LastRunMissed | src/bin/14.rs:95 | sixteen robots on columns 85..100 of the top row form a run the scan as written never tries |
| Day14.AsWrittenFindsLess | src/bin/14.rs:95 | every run the written scan finds, the full scan finds |
| Day15.ScanBoxes | src/bin/15.rs:67-72 | the scan past the boxes stops at a non-box cell on the robot's side of the run (None where the column goes below zero or off the grid) |
| Day15.HorizontalPush | src/bin/15.rs:66-81 | a push that applies keeps the grid's size and a valid neighbour column |
| Day15.MoveHorizontal | src/bin/15.rs:66-81 | in place: succeeds iff the functional push applies, and then the array is the pushed grid; otherwise it is unchanged |
| Day15.FindRunEnd | src/bin/15.rs:68-72 | the scan loop returns the end of the box run exactly as ScanBoxes |
| Day15.ShiftRun | src/bin/15.rs:73-80 | the swap loop leaves the array as the run shifted one cell, the empty cell carried back to the start |
| Day15.ShiftedStep | src/bin/15.rs:75-78 | one swap moves the empty cell one step toward the robot |
| Day15.ShiftedIsRotation | src/bin/15.rs:73-80 | shifting a run is a permutation of the grid's bytes |
| Day15.HorizontalPushPermutes | src/bin/15.rs:66-81 | a horizontal push neither creates nor destroys any byte |
| Day15.HorizontalPushFreesNeighbour | src/bin/15.rs:73-138 | after a push that applies, the cell beside the robot is '.' and the robot's own cell is unchanged |
| Day15.HorizontalPushLocal | src/bin/15.rs:66-81 | only cells strictly beyond the robot and within the scanned run change |
| Day15.NextRow | src/bin/15.rs:4-35 | the next row in direction dy, absent above the first row where `checked_add_signed` panics |
| Day15.NextRowOfRow | src/bin/15.rs:4-35 | on row starts the next row is `(y + dy) * w`, and None exactly when y + dy < 0 |
| Day15.Check | src/bin/15.rs:12-54 | each of the five neighbour checks looks at one of the two box columns and names a box containing it, at most two wide |
| Day15.PushAll | src/bin/15.rs:37-55 | pushing every blocking box in turn keeps the grid's size |
| Day15.PushStep | src/bin/15.rs:38-55 | one neighbour check's push keeps the grid's size |
| Day15.MoveVert | src/bin/15.rs:34-64 | a vertical move that applies keeps the grid's size |
| Day15.Relocate | src/bin/15.rs:57-63 | moving the box's two cells to the next row keeps the grid's size |
| Day15.PushIf | src/bin/15.rs:39-54 | the push of a box at column x of the next row keeps the grid's size and stays on it |
| Day15.MoveVertical | src/bin/15.rs:34-64 | in place: succeeds iff the functional move applies, and then the array is the moved grid |
| Day15.MoveVertCompose | src/bin/15.rs:34-64 | pushing the boxes in the way and then relocating the box is the whole vertical move |
| Day15.MovePushAll | src/bin/15.rs:37-55 | in place: the two check loops leave the array as PushAll |
| Day15.MovePushStep | src/bin/15.rs:38-55 | in place: one check leaves the array as PushStep |
| Day15.MoveRelocate | src/bin/15.rs:57-63 | in place: the final four writes leave the array as Relocate |
| Day15.MovePushIf | src/bin/15.rs:39-54 | in place: a conditional recursive push leaves the array as PushIf |
| Day15.Movable | src/bin/15.rs:3-32 | a movable box has a next row in direction dy, on the grid and not a wall in both of its columns |
| Day15.MovableStopsAtWall | src/bin/15.rs:6-9 | a wall in either pushed column of the next row makes the box immovable |
| Day15.MoveVertParts | src/bin/15.rs:34-64 | a vertical move that applies is the pushes of the boxes in the way followed by moving this box's two cells |
| Day15.MoveVertEmptiesOldCells | src/bin/15.rs:61-63 | the cells the box left hold '.' |
| Day15.MoveVertAddsNothing | src/bin/15.rs:34-64 | a vertical move writes only bytes already on the grid or '.' |
| Day15.RelocateAddsNothing | src/bin/15.rs:57-63 | relocating writes only bytes already on the grid or '.' |
| Day15.PushAllAddsNothing | src/bin/15.rs:37-55 | pushing the blocking boxes writes only bytes already on the grid or '.' |
| Day15.TryVertical | src/bin/15.rs:148-150 | test then move keeps the grid's size |
| Day15.PushVertical | src/bin/15.rs:142-165 | the push started by the robot onto 'O', '[' or ']' keeps the grid's size |
| Day15.Move | src/bin/15.rs:124-173 | one instruction keeps the grid's size (None on an unknown instruction or an index the source would panic on) |
| Day15.Run | src/bin/15.rs:124-174 | the instructions in order keep the grid's size |
| Day15.MoveLandsOnEmpty | src/bin/15.rs:126-172 | a completed move came from one of `<>^v`; the robot stays or moves one step onto a cell that is '.' after the push |
| Day15.MoveAddsNothing | src/bin/15.rs:124-173 | a move brings no byte other than '.' into the grid that it did not hold |
| Day15.PushVerticalAddsNothing | src/bin/15.rs:142-165 | the robot's vertical push brings no new byte other than '.' |
| Day15.RunKeepsRobotOut | src/bin/15.rs:99-174 | a grid without '@' never gains one over a whole run |
| Day15.RunKnowsOnlyArrows | src/bin/15.rs:172 | a run that completes consisted only of `<>^v` |
| Day15.TryMoveVertical | src/bin/15.rs:148-150 | in place: test-then-move leaves the array as TryVertical |
| Day15.PushVerticalInPlace | src/bin/15.rs:142-165 | in place: the robot's vertical push leaves the array as PushVertical |
| Day15.Step | src/bin/15.rs:124-173 | in place: one loop iteration succeeds iff Move applies and then leaves the array and the robot as Move |
| Day15.StepAcross | src/bin/15.rs:126-138 | in place: the '<' and '>' arms succeed iff Move applies, and then leave the array and the robot as Move does |
| Day15.StepUpDown | src/bin/15.rs:140-170 | in place: the '^' and 'v' arms succeed iff Move applies, and then leave the array and the robot as Move does |
| Day15.RunInstructions | src/bin/15.rs:117-188 | succeeds iff the whole run applies; then the array is the final grid and the total its GPS score |
| Day15.Score | src/bin/15.rs:176-187 | the total is the sum of 100·y + x over the 'O' and '[' cells of the h rows |
| Day15.GpsStep | src/bin/15.rs:179-183 | one more cell adds its GPS coordinate iff it is 'O' or '[' |
| Day15.GpsSumWithoutBoxes | src/bin/15.rs:180-182 | a grid without 'O' or '[' scores zero |
| Day15.GpsSumPlaceBox | src/bin/15.rs:181 | placing a box on an empty cell (y, x) raises the score by 100·y + x |
| Day15.GpsSumPlaceAt | src/bin/15.rs:181 | placing a box on an empty cell at flat index i raises the score by 100·(i / w) + i % w |
| Day15.GpsSumUnchanged | src/bin/15.rs:180-182 | grids agreeing on where 'O' and '[' are score alike |
| Day15.Flatten | src/bin/15.rs:90 | the joined lines are at least as long as the first |
| Day15.FirstIndex | src/bin/15.rs:94-97 | None iff the byte is absent; else the first index that holds it |
| Day15.Instructions | src/bin/15.rs:101-232 | line breaks removed, every other byte kept with its count |
| Day15.ProcessGrid | src/bin/15.rs:83-109 | the width is the first line's length, the robot is at the first '@', its cell emptied; None where the source panics |
| Day15.PartOne | src/bin/15.rs:111-115 | the score after the run on the grid as read, truncated to 32 bits; None where the source panics |
| Day15.PartOneRobotOut | src/bin/15.rs:99-174 | with a single '@' in the input, no '@' is on the grid before or after the run |
| Day15.WidenBytes | src/bin/15.rs:211-229 | every cell becomes two, so the wide sequence is twice as long |
| Day15.LastIndex | src/bin/15.rs:222-226 | None iff the byte is absent; else the last index holding it, as the overwritten `robot_pos` ends up |
| Day15.WideOf | src/bin/15.rs:194-236 | the wide grid is 2·width by h, the robot inside it on a cell set to '.' |
| Day15.FirstNonEmptyWidth | src/bin/15.rs:194-203 | the width is 0 iff every grid line is empty; otherwise it is the length of the first non-empty line |
| Day15.Dimensions | src/bin/15.rs:194-203 | the line loop yields the first non-empty line's length as the width and the number of lines as the height |
| Day15.WidthSkipsEmptyLine | src/bin/15.rs:197-199 | for the grid lines "" and "#@." the width is 3, not 0 |
| Day15.WideGridEmptyFirstLine | src/bin/15.rs:194-226 | for the grid lines "" and "#@." the wide warehouse is 6 by 2, with the robot at (2, 0) |
| Day15.Widen | src/bin/15.rs:194-236 | builds exactly the wide warehouse that WideGrid describes, its width being the first non-empty line's length doubled |
| Day15.WidenInto | src/bin/15.rs:207-229 | the loop succeeds iff every cell is known and fits; then the buffer is the doubled cells padded with '.' and the robot is at the last '@' |
| Day15.WidenPrefix | src/bin/15.rs:211-229 | a prefix of a widenable sequence is widenable |
| Day15.WidenPointwise | src/bin/15.rs:213-227 | cell j of the input becomes cells 2j and 2j + 1 of the wide grid |
| Day15.WidenCountsBoxes | src/bin/15.rs:218-221 | the wide grid has as many '[' and as many ']' as the input has 'O' |
| Day15.PartTwo | src/bin/15.rs:190-240 | the score after the run on the widened grid (the width is the first non-empty line's length), truncated to 32 bits; None where the source panics |
| Day16.Turns | src/bin/16.rs:99-117 | the left turn is `(di + 3) % 4`, the right turn `(di + 1) % 4`, and each undoes the other |
| Day16.DirsSteps | src/bin/16.rs:6 | direction d steps by the d-th entry of `DIRS` |
| Day16.WalkMove | src/bin/16.rs:81-117 | a walk extended by one move is a walk with the move's cost added |
| Day16.ExpandMoves | src/bin/16.rs:81-117 | the entries pushed when a state is expanded are exactly its moves, each with its cost added |
| Day16.LeastExists | src/bin/16.rs:64-70 | a non-empty heap has an entry of least score to pop |
| Day16.Frontier | src/bin/16.rs:64-118 | every walk to a key not yet visited passes a heap entry whose score is no larger |
| Day16.SoundStep | src/bin/16.rs:81-117 | every heap entry after an expansion still ends a walk with its score |
| Day16.SettledStep | src/bin/16.rs:76-79 | the least entry of a key not yet visited carries that key's lowest walk score |
| Day16.WaitingNew | src/bin/16.rs:81-117 | the moves out of an expanded key wait in the heap |
| Day16.WaitingOld | src/bin/16.rs:64-70 | removing the popped entry keeps every waiting move to another key |
| Day16.WaitingJoin | src/bin/16.rs:76-117 | once a key is visited, the moves out of every visited key to unvisited keys wait in the heap |
| Day16.WaitingStep | src/bin/16.rs:76-117 | after an expansion the moves out of visited keys still wait |
| Day16.SettleStep | src/bin/16.rs:76-117 | popping the least entry of an unvisited key away from the end keeps the search invariant with that key settled |
| Day16.SkipStep | src/bin/16.rs:76-79 | popping an entry of a visited key keeps the search invariant |
| Day16.EndStep | src/bin/16.rs:72-74 | the least entry popped on the end carries the lowest score of any walk to the end |
| Day16.EmptyStep | src/bin/16.rs:120 | with the heap empty, no walk reaches the end |
| Day16.ExpandInUniverse | src/bin/16.rs:81-117 | expansions stay among the maze's keys and the start's |
| Day16.WithinStep | src/bin/16.rs:76-117 | expanding an unvisited key keeps the heap inside the universe and leaves one key fewer to visit |
| Day16.Visit | src/bin/16.rs:76-117 | marking a key visited and pushing its moves keeps the search invariant and shrinks the keys left |
| Day16.Cheapest | src/bin/16.rs:53-120 | Some(c) only when c is the lowest score of a walk to the end; None only when no walk reaches it |
| Day16.PartOne | src/bin/16.rs:35-121 | from 'S' facing east: the lowest walk score to 'E' (1 per step, 1000 per turn), or None iff 'E' is unreachable |
| Day16.DirFromShift | src/bin/16.rs:181-182 | the direction of a step by `DIRS[d]` is d |
| Day16.OppositeTurns | src/bin/16.rs:172-180 | the reverse is `(prev_di + 2) % 4`, and any other new direction is a quarter turn |
| Day16.RouteOpen | src/bin/16.rs:184-188 | every cell of a route is its start or not a wall |
| Day16.RouteWalk | src/bin/16.rs:171-203 | a part-two route is a part-one walk with the same score (1 straight on, 1001 after a turn) |
| Day16.RouteAtLeast | src/bin/16.rs:162-168 | no route to the end scores below part one's lowest score |
| Day16.TracksStep | src/bin/16.rs:176-200 | a step from a tracked heap element is again a route from the start with its score |
| Day16.FrontExists | src/bin/16.rs:154-160 | a non-empty heap has an element of least score |
| Day16.Branch | src/bin/16.rs:171-203 | only pushes: every new element is a route extension scoring above its parent |
| Day16.PendingPop | src/bin/16.rs:154-160 | the popped element is tracked and every remaining element scores at least as much |
| Day16.PendingPush | src/bin/16.rs:171-203 | the pushed steps keep the heap at or above the popped score |
| Day16.KeptAdd | src/bin/16.rs:166-167 | keeping a path at the current minimum keeps every kept path a route to the end with that score |
| Day16.KeptAtLeast | src/bin/16.rs:162-168 | the score of the kept paths is at least part one's lowest score to the end |
| Day16.RouteStarts | src/bin/16.rs:146-152 | every route begins at the start cell pushed first |
| Day16.KeptTiles | src/bin/16.rs:205-213 | once a path is kept, the start and end cells are among the counted tiles |
| Day16.KeptPaths | src/bin/16.rs:141-204 | every kept path is a route from start to end, all of one score; none kept means min stays `usize::MAX` |
| Day16.CountTiles | src/bin/16.rs:206-213 | the count is the number of distinct cells on the kept paths |
| Day16.PartTwo | src/bin/16.rs:123-216 | the count of distinct cells of some set of equal-score routes from 'S' to 'E' (their score is bounded below by part one's: see KeptAtLeast) |
| Day17.Combo | src/bin/17.rs:19-27 | operands 0..3 are literals, 4, 5, 6 read A, B, C; any other operand is a panic |
| Day17.OneShiftedLeft | src/bin/17.rs:61-65 | `1 << k` on an i64 is never zero, so bdv and cdv never divide by zero |
| Day17.Step | src/bin/17.rs:34-70 | one instruction prints at most one value, and only `out` prints; only a taken `jnz` moves `ip` anywhere but two ahead |
| Day17.Computer.constructor | src/bin/17.rs:11-17 | registers A, B, C as given, `ip` at 0, the program kept |
| Day17.Computer.Run | src/bin/17.rs:29-74 | the registers, `ip`, output and status after the loop are those of the instruction-by-instruction execution within the fuel |
| Day17.PartOne | src/bin/17.rs:77-104 | the output and status are those of running the program from A with B = C = 0 |
| Day17.ExecHaltsPastEnd | src/bin/17.rs:32 | the run halts exactly when `ip` has left the program, and printed values are never taken back |
| Day17.ExecFuelMonotone | src/bin/17.rs:32-71 | a run that finished within some fuel finishes the same way with more |
| Day17.StepKeepsNonNegative | src/bin/17.rs:39-68 | on a 3-bit program one instruction keeps the registers non-negative 64-bit words and prints an octal digit |
| Day17.ExecPrintsOctalDigits | src/bin/17.rs:29-74 | on a 3-bit program from non-negative registers every printed value is in 0..7 |
| Day17.DivisionInstructionsAgree | src/bin/17.rs:40-66 | for A ≥ 0 and a shift below 63, adv, bdv and cdv all compute A / 2^k, differing only in the register written |
| Day17.BxlTwiceRestores | src/bin/17.rs:41-43 | bxl twice with the same literal leaves B as it was |
| Day17.FindSelfPrintingA | src/bin/17.rs:106-151 | an A it returns is non-negative, is the sum of factor times 8^i over one factor per program digit, and makes the program halt printing exactly itself |
| Day17.ExampleLoopPass | src/bin/17.rs:40-58 | one pass of `adv 3, out 4, jnz 0` divides A by 8, prints its new low octal digit and repeats while A is not zero |
| Day17.ShiftedOctalDigits | src/bin/17.rs:56-58 | the digits printed by that loop end with the 0 printed when A reaches zero |
| Day17.ExampleLoopOutput | src/bin/17.rs:29-74 | the example loop halts after its passes having printed the octal digits of A / 8 |
| Day17.SelfPrintingExample | src/bin/17.rs:163-167 | A = 117440 makes `0,3,5,4,3,0` halt printing itself, the answer the part-two test expects |
| Day17.ExampleDigits | src/bin/17.rs:163-167 | 117440 takes six passes, printing 0, 3, 5, 4, 3, 0 |
| Day18.OpenAmongIff | src/bin/18.rs:24-82 | a cell is among the open neighbours found by the first k directions iff it is one step away along one of them, inside the 71 × 71 grid and not fallen |
| Day18.ParseCoord | src/bin/18.rs:48-51 | a parsed line held a comma, and both numbers fit an i32 |
| Day18.ParseShowCoord | src/bin/18.rs:48-51 | reading back a written `x,y` gives (x, y) |
| Day18.ParseShowCoordMore | src/bin/18.rs:48-51 | text after a second comma is ignored, as `split(',')` taking two parts ignores it |
| Day18.ParseAllLines | src/bin/18.rs:44-97 | the lines parse together iff each does, and then the coordinates are theirs in order |
| Day18.FlagsNone | src/bin/18.rs:14 | the all-false flags mark no cell |
| Day18.FlagsMark | src/bin/18.rs:17-33 | setting a cell's flag at `y * 71 + x` marks exactly that cell in addition |
| Day18.SearchStart | src/bin/18.rs:16-17 | with only the start queued and seen, the search invariant holds |
| Day18.SearchStep | src/bin/18.rs:19-37 | finishing the front cell and queuing its unseen open neighbours keeps the search invariant |
| Day18.SearchExhausted | src/bin/18.rs:39 | an empty queue means every reachable cell was finished, so the target is unreachable |
| Day18.SeenGrows | src/bin/18.rs:19-38 | seeing new cells leaves fewer unseen, which bounds both searches |
| Day18.Look | src/bin/18.rs:25-36 | a neighbour is flagged and queued iff it is inside the grid, not fallen and not flagged yet |
| Day18.GatherStep | src/bin/18.rs:24-37 | one more direction keeps the gathered neighbours exactly the open unseen ones so far |
| Day18.Enqueue | src/bin/18.rs:24-37 | the queued neighbours are distinct, unseen before, and exactly the open neighbours not seen |
| Day18.ReachingStart | src/bin/18.rs:13-17 | the flags and queue after queuing the start satisfy the loop invariant |
| Day18.ArrayStep | src/bin/18.rs:19-37 | one dequeue that is not the target keeps the flags, the queue and the finished cells consistent, and queuing shrinks the unseen cells |
| Day18.CanReachTarget | src/bin/18.rs:8-40 | true iff the target can be reached from the start through open cells |
| Day18.QueueCellsFront | src/bin/18.rs:61 | the queued cells are the rest's plus the front's |
| Day18.QueueCellsAppend | src/bin/18.rs:79 | appending entries adds their cells |
| Day18.QueuedFar | src/bin/18.rs:61-83 | no queued cell is fewer steps from (0, 0) than the front entry's count |
| Day18.SeenWithin | src/bin/18.rs:61-83 | every cell within the front entry's steps of (0, 0) has been seen |
| Day18.VisitAround | src/bin/18.rs:67-82 | queues exactly the open unvisited neighbours, each with one step more, and marks them visited |
| Day18.PushedDistance | src/bin/18.rs:67-82 | each newly queued neighbour is exactly one step farther than the front, its shortest distance from (0, 0) |
| Day18.OrderedStep | src/bin/18.rs:61-79 | appending entries with one step more than the front keeps the queue's steps non-decreasing and within one |
| Day18.BfsSearchStep | src/bin/18.rs:61-83 | one dequeue of part one keeps the search invariant |
| Day18.DistanceStep | src/bin/18.rs:61-83 | every queued entry still carries its cell's shortest distance |
| Day18.LayeredStep | src/bin/18.rs:61-83 | the queue stays ordered by distance after a dequeue |
| Day18.BfsStart | src/bin/18.rs:56-59 | queuing (0, 0) at step 0 establishes the breadth-first invariant |
| Day18.BfsStep | src/bin/18.rs:61-83 | one dequeue that is not the corner keeps the invariant and, when it queues, shrinks the unseen cells |
| Day18.ShortestPath | src/bin/18.rs:55-85 | Some iff (70, 70) is reachable from (0, 0), and then the number of steps of a shortest path |
| Day18.PartOne | src/bin/18.rs:42-86 | with the first 1024 bytes fallen: Some iff the corners are connected, and then the shortest distance |
| Day18.FallUntilCut | src/bin/18.rs:106-115 | the first coordinate whose fall disconnects the corners, all earlier falls leaving them connected; None iff none does |
| Day18.PartTwo | src/bin/18.rs:88-116 | "0,0" when the corners start apart, else the first cutting byte, or None when none cuts |
| Day18.ReachInFewerBlocks | src/bin/18.rs:106-113 | more fallen bytes never make a cell reachable in fewer steps |
| Day18.ConnectedFewerBlocks | src/bin/18.rs:106-113 | if the corners are connected with more bytes fallen, they are with fewer |
| Day18.CutStays | src/bin/18.rs:109-112 | once a fall separates the corners every later fall leaves them apart, so stopping at the first cut is right |
| Day18.ReachNext | src/bin/18.rs:67-82 | an open neighbour of a cell within k - 1 steps is within k |
| Day18.StraightPath | src/bin/18.rs:101-104 | with nothing fallen, (x, y) is within x + y steps of (0, 0) |
| Day18.NothingFallenConnected | src/bin/18.rs:101-104 | the corners are connected before anything falls, so the "0,0" answer is never given |
| Day19.PositiveTry | src/bin/19.rs:41-45 | a positive total from the first k patterns comes from one that starts the rest of the design and has a positive count after it |
| Day19.TryContributes | src/bin/19.rs:41-45 | a matching pattern adds its whole count to the total |
| Day19.LayoutOf | src/bin/19.rs:27-49 | a positive count comes with a list of patterns that laid end to end make the rest of the design |
| Day19.LayoutCounts | src/bin/19.rs:27-49 | a list of patterns making the rest of the design makes the count positive |
| Day19.PositiveIffLayout | src/bin/19.rs:14-16 | a design passes part one's filter iff some list of patterns laid end to end makes it |
| Day19.DuplicatePatternsCountTwice | src/bin/19.rs:41-45 | a pattern listed twice is counted twice: "w" with patterns [w, w] has two arrangements |
| Day19.CountMemo | src/bin/19.rs:27-49 | returns the number of arrangements of the design from index i; the memo only grows and every entry stays correct |
| Day19.CountArrangements | src/bin/19.rs:21-25 | the number of arrangements of the whole design |
| Day19.PossibleAtMostArrangements | src/bin/19.rs:5-65 | part one's count never exceeds part two's sum |
| Day19.PartOne | src/bin/19.rs:14-16 | the number of designs with at least one arrangement |
| Day19.PartTwo | src/bin/19.rs:60-62 | the sum of the designs' arrangement counts |
| Day20.Manhattan | src/bin/20.rs:25-27 | the distance is zero exactly between equal points |
| Day20.Adjacent | src/bin/20.rs:16-23 | four points, each at distance 1 |
| Day20.AdjacentIff | src/bin/20.rs:16-27 | the four adjacent points are exactly those at Manhattan distance 1 |
| Day20.ManhattanSymmetric | src/bin/20.rs:25-27 | the Manhattan distance is symmetric |
| Day20.PassableAmongIff | src/bin/20.rs:70-80 | a point is among the neighbours found so far iff it is adjacent along one of them, in the grid and not a wall |
| Day20.MovesIff | src/bin/20.rs:70-80 | a move goes from a cell of the grid to an adjacent non-wall cell |
| Day20.ReachInGrid | src/bin/20.rs:59-80 | every cell reached in one or more steps is in the grid |
| Day20.FarIs | src/bin/20.rs:47-88 | a cell's distance is its shortest step count from the start |
| Day20.WallUnreached | src/bin/20.rs:75 | walls are never entered, so a wall other than the start has no distance |
| Day20.SpotInTable | src/bin/20.rs:50 | every cell of the grid has an entry in the table |
| Day20.SpotInjective | src/bin/20.rs:50 | two cells of the grid never share an entry |
| Day20.HoldsNone | src/bin/20.rs:50 | the table filled with `u32::MAX` records no cell |
| Day20.HoldsAt | src/bin/20.rs:63-76 | an entry differs from `u32::MAX` iff its cell was reached |
| Day20.HoldsSet | src/bin/20.rs:68 | writing a new cell's distance records exactly it in addition |
| Day20.LayerStart | src/bin/20.rs:54-55 | the start alone at cost 0 is the first layer |
| Day20.SweepStart | src/bin/20.rs:57-58 | the state at the start of a layer satisfies the sweep invariant |
| Day20.SweepSkip | src/bin/20.rs:59-66 | popping a cell off the grid or already set changes nothing else |
| Day20.SettleShortest | src/bin/20.rs:68 | a popped cell of the grid not yet set is exactly the current cost away |
| Day20.SweepSettle | src/bin/20.rs:68-80 | taking in the popped cell and queueing its unset neighbours keeps the sweep invariant |
| Day20.NextCovered | src/bin/20.rs:70-80 | every cell of the grid one step beyond the layer is seen or queued next |
| Day20.LayerGrown | src/bin/20.rs:57-85 | after layer cost the cells taken in are exactly the grid cells within cost steps |
| Day20.LayerNext | src/bin/20.rs:83-84 | swapping queues starts the next layer, and a layer that took nothing in leaves the next queue empty |
| Day20.DoneAt | src/bin/20.rs:57-87 | once a layer is empty every grid cell's entry is its distance or `u32::MAX` |
| Day20.Dry | src/bin/20.rs:57 | an empty layer means every cell cost steps away is nearer |
| Day20.LayerDone | src/bin/20.rs:57-87 | when the queues run dry the table holds every cell's distance |
| Day20.PushAround | src/bin/20.rs:70-80 | pushes exactly the passable neighbours whose distance is still unset |
| Day20.SkipStep | src/bin/20.rs:59-66 | popping a cell off the grid or already set keeps the table and the sweep invariant |
| Day20.Settle | src/bin/20.rs:68-80 | writes the popped cell's distance, nothing else, and pushes its unset passable neighbours |
| Day20.Sweep | src/bin/20.rs:58-81 | drains the current queue, filling the table for this layer and the next queue with the layer after |
| Day20.CalculateDistances | src/bin/20.rs:47-88 | every cell's entry is its shortest distance from the start, `u32::MAX` when unreachable |
| Day20.TableAgrees | src/bin/20.rs:47-88 | the table agrees with the distance function on every cell |
| Day20.CheatsFrom | src/bin/20.rs:105-181 | the count from the offset loops is the number of box cells passing the cheat test |
| Day20.CellTallySkip | src/bin/20.rs:101-150 | a wall or a cell the start does not reach starts no cheat |
| Day20.CheatsInRow | src/bin/20.rs:106-180 | the column-offset loop counts the cells of its row passing the test |
| Day20.Lands | src/bin/20.rs:107-179 | an offset is counted iff its end is in the grid, not a wall, reached from the end, within the rule's distance, and saves at least 100 |
| Day20.CountCheats | src/bin/20.rs:98-183 | the count over the whole track is the sum of the cells' tallies |
| Day20.CheatsInLine | src/bin/20.rs:99-182 | the count over one line is the sum of its cells' tallies |
| Day20.CellCount | src/bin/20.rs:100-131 | one cell adds exactly its tally |
| Day20.LineStep | src/bin/20.rs:99 | one more column adds its cell's tally |
| Day20.Race | src/bin/20.rs:90-186 | None where the source panics; else the number of cheats saving at least 100 |
| Day20.PartOne | src/bin/20.rs:90-135 | the number of (start, end) cell pairs at distance exactly 2 whose cheat saves at least 100 |
| Day20.PartTwo | src/bin/20.rs:137-186 | the number of pairs at distance at most 20 whose cheat saves at least 100 |
| Day20.CheatNear | src/bin/20.rs:105-154 | a counted cheat ends within the radius in both rows and columns, so the offset box misses none |
| Day20.EndsInBox | src/bin/20.rs:105-130 | the ends of counted cheats from a cell are exactly the box cells passing its test |
| Day20.CellTallyCounts | src/bin/20.rs:105-181 | what a cell adds is the number of distinct cells its counted cheats end on |
| Day20.CheatWidens | src/bin/20.rs:108-159 | every part-one cheat is a part-two cheat |
| Day20.CellTallyWidens | src/bin/20.rs:105-181 | a cell's part-one tally is at most its part-two tally |
| Day20.LineTallyWidens | src/bin/20.rs:99-182 | a line's part-one tally is at most its part-two tally |
| Day20.GridTallyWidens | src/bin/20.rs:98-183 | the grid's part-one tally is at most its part-two tally |
| Day20.PartOneWithinPartTwo | src/bin/20.rs:90-186 | part two never counts fewer cheats than part one |
| Day21.Keys | src/bin/21.rs:18-24 | each keypad has rows of three keys, at most four rows, and holds an `A` key |
| Day21.HashShifts | src/bin/21.rs:26-34 | the packed key is the sum of the fields shifted by 0, 8, 16, 24 and 32 bits |
| Day21.HashInjective | src/bin/21.rs:26-45 | with coordinates below 256, different steps have different memo keys |
| Day21.IndexOf | src/bin/21.rs:123-132 | `position`: None iff the key is not in the row, else its first index there |
| Day21.FindFrom | src/bin/21.rs:120-134 | `find_map`: the key at the first row holding it and its first column there; None iff no row holds it |
| Day21.MovesOnDirection | src/bin/21.rs:60-104 | every route the search builds, followed by `A`, can be typed on the directional keypad |
| Day21.Prefixed | src/bin/21.rs:73-99 | putting a move before each route keeps every route made of moves |
| Day21.Routes | src/bin/21.rs:60-104 | the routes the search finishes are made of the four moves only |
| Day21.Across | src/bin/21.rs:70-86 | the routes starting with the move along x are made of moves |
| Day21.Down | src/bin/21.rs:87-103 | the routes starting with the move along y are made of moves |
| Day21.WalksPrefixed | src/bin/21.rs:70-103 | a first move towards next followed by a walk from its target is a walk |
| Day21.RoutesWalk | src/bin/21.rs:60-104 | every route found is a shortest walk from pos to next that never stands on the gap |
| Day21.AcrossWalk | src/bin/21.rs:70-86 | the routes starting along x are such walks |
| Day21.DownWalk | src/bin/21.rs:87-103 | the routes starting along y are such walks |
| Day21.CheapestBounded | src/bin/21.rs:48-63 | the minimum starts at `usize::MAX` and never exceeds it |
| Day21.CheapestAtMost | src/bin/21.rs:63 | the minimum is at most every route's cost |
| Day21.CheapestLe | src/bin/21.rs:63 | routes that include all of another list's cost at most what that list costs |
| Day21.SameMembers | src/bin/21.rs:60-104 | two lists with the same routes contain each other's members |
| Day21.CheapestSame | src/bin/21.rs:60-104 | the order in which routes are found does not change the minimum |
| Day21.CheapestAppend | src/bin/21.rs:63 | one more route gives the smaller of the minimum so far and its cost |
| Day21.TailStacked | src/bin/21.rs:63 | the keypads after the first form a chain again |
| Day21.MemoInsert | src/bin/21.rs:106 | recording one step's cost under its key keeps every memo entry correct |
| Day21.PrefixAllConcat | src/bin/21.rs:73-99 | prefixing distributes over joined route lists |
| Day21.PrefixAllPrefixed | src/bin/21.rs:73-99 | prefixing with s the routes prefixed by c is prefixing with s + c |
| Day21.PendingConcat | src/bin/21.rs:60-104 | the routes still to come from a joined queue are those of its two parts |
| Day21.Successors | src/bin/21.rs:70-103 | an entry queues at most two entries, each one move nearer to next |
| Day21.AcrossEntry | src/bin/21.rs:70-86 | the move along x, queued only when x differs, is one step nearer |
| Day21.DownEntry | src/bin/21.rs:87-103 | the move along y, queued only when y differs, is one step nearer |
| Day21.PendingOne | src/bin/21.rs:60-104 | a one-entry queue's routes to come are that entry's completions |
| Day21.AcrossCompletions | src/bin/21.rs:70-86 | the completions through the x move are the routes starting along x, prefixed by the presses so far |
| Day21.DownCompletions | src/bin/21.rs:87-103 | the completions through the y move are the routes starting along y, prefixed |
| Day21.CompletionsSplit | src/bin/21.rs:66-103 | the routes from an entry not at next and not on the gap are the routes from the entries it queues |
| Day21.WeightConcat | src/bin/21.rs:60 | a queue's weight is the sum of its parts' |
| Day21.SuccessorsLighter | src/bin/21.rs:70-103 | replacing an entry by what it queues makes the queue lighter, so the search ends |
| Day21.Reached | src/bin/21.rs:61-65 | an entry at next leaves the queue as one more finished route |
| Day21.Expanded | src/bin/21.rs:66-103 | expanding the front entry keeps the routes to come and lightens the queue |
| Day21.Enqueue | src/bin/21.rs:70-103 | the queue gains the x move, then the y move |
| Day21.CostStep | src/bin/21.rs:36-108 | the cost is the cheapest route from pos to next plus `A` at the next keypad, and the memo stays correct |
| Day21.Search | src/bin/21.rs:48-107 | the breadth-first loop finds the cheapest cost of all the shortest routes and remembers it |
| Day21.CostRecursive | src/bin/21.rs:110-139 | the cost is the sum of the step costs from `A` through each key, or the length with no keypad left, and the memo stays correct |
| Day21.CheapestUniform | src/bin/21.rs:63 | routes that all cost v, at most `usize::MAX`, have v as their minimum |
| Day21.LastStep | src/bin/21.rs:60-107 | on a real keypad some route from any key to any key avoids the gap |
| Day21.Pads | src/bin/21.rs:151-171 | the chain is the numeric keypad followed by n directional ones |
| Day21.Chain | src/bin/21.rs:151-171 | pushing n directional keypads after the numeric one builds that chain |
| Day21.Complexities | src/bin/21.rs:160-178 | one complexity per line |
| Day21.ComplexitiesAt | src/bin/21.rs:160-178 | the i-th complexity is that of the i-th code |
| Day21.AddSomeValue | src/bin/21.rs:161-177 | adding a present complexity to a present total adds the values |
| Day21.SumSomeNone | src/bin/21.rs:158-163 | the total is missing iff some complexity is, where the source panics |
| Day21.SumSomeStep | src/bin/21.rs:160-162 | the total over one more line adds that line's complexity |
| Day21.SumSomeAppend | src/bin/21.rs:160-162 | summing one value more adds it to the total |
| Day21.CodeComplexity | src/bin/21.rs:141-148 | the code's cost times the number before its last key, None where the source panics, memo kept correct |
| Day21.LineComplexity | src/bin/21.rs:161-177 | the complexity of the i-th line |
| Day21.Solve | src/bin/21.rs:157-180 | the sum of the complexities of the lines with one memo shared, None where the source panics |
| Day21.PartOne | src/bin/21.rs:150-164 | the sum of complexities with two directional keypads after the numeric one |
| Day21.PartTwo | src/bin/21.rs:166-181 | the sum of complexities with twenty-five directional keypads |
| Day21.RoutesDownToLeft | src/bin/21.rs:60-104 | from `v` to `<` the only route is `<` |
| Day21.RoutesUpToLeft | src/bin/21.rs:60-104 | from `^` to `<` the only route is `v<`, since `<v` would pass the gap |
| Day21.RoutesRightToLeft | src/bin/21.rs:60-104 | from `>` to `<` the only route is `<<` |
| Day21.RoutesAToLeft | src/bin/21.rs:60-104 | from `A` to `<` the routes are `<v<` and `v<<` |
| Day21.PruneGivesUp | src/bin/21.rs:53-58 | typing "<A" on one directional keypad, the step from `A` to `<` is pruned to `usize::MAX` although it costs 4 |
| Day22.MixPrune | src/bin/22.rs:7-16 | mixing by exclusive-or then pruning modulo 16777216 leaves a value below 2^24 |
| Day22.NextSecret | src/bin/22.rs:5-19 | the next secret is below 2^24 |
| Day22.ModulusIsPow | src/bin/22.rs:8 | 16777216 is 2^24 |
| Day22.StagesFitU64 | src/bin/22.rs:5-19 | for a u64 input below 2^58 no stage's product overflows u64, and the division stage needs no prune |
| Day22.NextSecretLowBits | src/bin/22.rs:5-19 | only the low 24 bits of the input affect the next secret |
| Day22.FirstStageLowBits | src/bin/22.rs:6-8 | the multiply-by-64 stage depends only on the low 24 bits |
| Day22.MixMultipleLowBits | src/bin/22.rs:6-16 | mixing in a multiple of the secret and reducing agrees for secrets with the same low bits |
| Day22.Nth | src/bin/22.rs:27-29 | after one or more steps the secret is below 2^24 |
| Day22.PartOne | src/bin/22.rs:21-34 | the sum over buyers of the 2000th secret, below the number of buyers times 2^24 |
| Day22.Prices | src/bin/22.rs:51-73 | n prices, one per secret from the initial one on |
| Day22.PriceAt | src/bin/22.rs:51-73 | the i-th price is the last decimal digit of the i-th secret |
| Day22.PatternAt | src/bin/22.rs:58-63 | each of the four changes across a window of five prices lies in -9..9 |
| Day22.RecordedIsFirstOccurrence | src/bin/22.rs:64-67 | a recorded pattern occurs, and the price recorded ends its first occurrence |
| Day22.OccurrenceIsRecorded | src/bin/22.rs:64-67 | every pattern occurring in the windows so far is recorded |
| Day22.MergeEmpty | src/bin/22.rs:66 | merging an empty record changes nothing |
| Day22.MergePush | src/bin/22.rs:66 | merging a record with one more entry pushes that price onto the pattern's list |
| Day22.RecordStep | src/bin/22.rs:64-67 | a window's pattern is recorded, with the price ending it, iff it has not been seen before |
| Day22.RecordBuyer | src/bin/22.rs:46-74 | one buyer's pass adds exactly its first-occurrence prices to the shared values |
| Day22.Visit | src/bin/22.rs:58-67 | the seen set and the values after window k are those of the first k + 1 windows |
| Day22.WindowSlides | src/bin/22.rs:69-73 | after the shift and append the window holds the next five prices |
| Day22.WindowPattern | src/bin/22.rs:58-63 | the differences of the window are the pattern at that position |
| Day22.FirstWindow | src/bin/22.rs:48-55 | the window holds the first five prices and the secret is the fourth after the initial one |
| Day22.SlideWindow | src/bin/22.rs:69-73 | the window moves one place left and ends with the next secret's price |
| Day22.Records | src/bin/22.rs:45-75 | one record per buyer, in input order, each its first-occurrence prices |
| Day22.SumAppend | src/bin/22.rs:79 | summing joined lists adds their sums |
| Day22.CollectedSums | src/bin/22.rs:66-79 | the summed list of a pattern is its bananas over all buyers; an absent pattern earns none |
| Day22.CollectedKeys | src/bin/22.rs:66 | a pattern has a list iff some buyer recorded it |
| Day22.Best | src/bin/22.rs:77-80 | None iff the map is empty; else the greatest list sum, attained by some pattern |
| Day22.PartTwo | src/bin/22.rs:36-81 | None iff there are no buyers; else the most bananas any single pattern earns, and no pattern earns more |
| Day22.BuyerRecordNonEmpty | src/bin/22.rs:57-67 | every buyer records at least its first pattern |
| Day22.BestIsMostBananas | src/bin/22.rs:77-80 | the maximum over the collected sums is the maximum of bananas over every pattern |
| Day23.NetworkKeys | src/bin/23.rs:9-13 | the graph's keys are exactly the computers named in some link |
| Day23.NetworkNeighbours | src/bin/23.rs:9-13 | b is a neighbour of a iff some link joins them, in either direction |
| Day23.NetworkLoopless | src/bin/23.rs:9-13 | links between two different computers never make a self-link |
| Day23.NetworkSymmetric | src/bin/23.rs:11-12 | each link is inserted both ways, so the graph is symmetric and every neighbour is a key |
| Day23.BuildGraph | src/bin/23.rs:6-45 | builds exactly the network of the links, symmetric and closed |
| Day23.ThirdStep | src/bin/23.rs:22-29 | one more third computer adds one iff it closes a triangle with a `t` computer |
| Day23.SecondStep | src/bin/23.rs:20-31 | one more second computer adds the triples through it |
| Day23.FirstStep | src/bin/23.rs:18-32 | one more first computer adds the triples starting at it |
| Day23.CountThird | src/bin/23.rs:22-30 | the innermost loop counts the triples from (a, b) that close with a `t` computer |
| Day23.CountSecond | src/bin/23.rs:20-31 | the middle loop counts the triples starting at a |
| Day23.CountTriangles | src/bin/23.rs:15-32 | the count is the number of ordered triples (a, b, c) forming a triangle with a computer starting with `t` |
| Day23.OrdersCounted | src/bin/23.rs:22-28 | on a symmetric graph without self-links a counted triple has three distinct computers and all its reorderings are counted |
| Day23.OrdersCard | src/bin/23.rs:34-35 | three distinct computers have six distinct orders |
| Day23.Reordered | src/bin/23.rs:34-35 | a triple of three distinct computers with corners a, b, c is one of their orders |
| Day23.OrdersCorners | src/bin/23.rs:34-35 | every order of a, b, c has corners a, b, c |
| Day23.FiberSix | src/bin/23.rs:34-35 | every triangle is counted exactly six times |
| Day23.OverSplit | src/bin/23.rs:34-35 | the triples of a set of triangles split into one triangle's and the rest's, disjointly |
| Day23.SixEach | src/bin/23.rs:34-35 | a set of triangles accounts for six times as many counted triples |
| Day23.CountedSixTimes | src/bin/23.rs:34-35 | the ordered count is six times the number of triangles, so the division is exact |
| Day23.PartOne | src/bin/23.rs:5-36 | the ordered count divided by 6, which is the number of triangles with a `t` computer when no line links a computer to itself |
| Day23.Joined | src/bin/23.rs:84-85 | on a symmetric graph a clique grows by a computer adjacent to all its members |
| Day23.CoveredNow | src/bin/23.rs:80-92 | a clique covered only once node leaves the candidates contains node, and lies within the recursive call's reach |
| Day23.ExploredStep | src/bin/23.rs:80-94 | taking node out of the candidates keeps every clique reachable so far explored |
| Day23.FindMaxClique | src/bin/23.rs:69-96 | the best set stays a clique, changes only to a larger clique within current + candidates, and is at least as large as every clique between current and current + candidates |
| Day23.StartCovers | src/bin/23.rs:51-62 | a search from {start} with its neighbours as candidates finds a clique at least as large as any clique containing start |
| Day23.LargestClique | src/bin/23.rs:47-62 | the result is a clique of the network, and no clique of a loop-free network is larger |
| Day23.PartTwo | src/bin/23.rs:38-67 | the names of a largest clique of the network's computers, distinct, sorted ascending and joined by commas |
| Day24.OperationNames | src/bin/24.rs:16-25 | exactly "AND", "XOR" and "OR" parse, each to its own operation; any other text is a panic |
| Day24.SignalLine | src/bin/24.rs:64-67 | a line `name: value` reads back as the wire with value true iff the value is "1" |
| Day24.ToMapLast | src/bin/24.rs:68 | collecting into a map keeps, for each wire, the value of its last line |
| Day24.ToMapKeys | src/bin/24.rs:68 | a wire is in the map iff some line names it |
| Day24.ParseSignals | src/bin/24.rs:62-68 | the first section fails iff one of its lines lacks ": " |
| Day24.GateLine | src/bin/24.rs:77-78 | a line `in1 op in2 -> out` parses to the gate (in1, op, in2) under out |
| Day24.ParseGates | src/bin/24.rs:73-81 | at most one gate per line: a later line for the same wire replaces the earlier |
| Day24.ParseGatesKeys | src/bin/24.rs:73-81 | the wires with a gate are the outputs of the lines of five fields, each with its line's gate |
| Day24.SplitAtEmpty | src/bin/24.rs:60 | the split at the first empty line: None iff there is none, and the two parts and that line rebuild the lines |
| Day24.Sections | src/bin/24.rs:60 | `split_once("\n\n")` on the lines: None iff no line after the first is empty; else the break is the first such line, the second section the lines after it, and the first the lines before it (none when that is a single empty line) |
| Day24.SectionsLeadingEmpty | src/bin/24.rs:60 | a leading empty line is not the break but the first line of the first section |
| Day24.SectionsEmptyFirst | src/bin/24.rs:60 | two leading empty lines are the break, with an empty first section |
| Day24.InitialWins | src/bin/24.rs:27-30 | a gate on a wire with an initial value is never evaluated, even when it feeds itself |
| Day24.EvaluateGate | src/bin/24.rs:27-42 | succeeds iff the wire has a value; then the map keeps every entry, holds the wire, and every entry is its wire's value |
| Day24.EvaluateAll | src/bin/24.rs:87-89 | succeeds iff every gate evaluates, and then the map is exactly the value of every wire with an initial value or a gate, whatever the order |
| Day24.TotalRemove | src/bin/24.rs:44-57 | the sum over the wires may take any wire first |
| Day24.TotalAgree | src/bin/24.rs:44-57 | maps agreeing on the wires give the same sum |
| Day24.SignalValueAdd | src/bin/24.rs:47-56 | a new wire adds 2^n when it is true and named prefix followed by n, and nothing otherwise, an unreadable number included |
| Day24.CalculateSignalValue | src/bin/24.rs:44-57 | the sum of 2^n over the true wires named prefix followed by n, in any iteration order |
| Day24.PartOne | src/bin/24.rs:83-91 | None iff there is no section break, a first-section line lacks ": ", or some gate cannot be evaluated; else the number on the z wires of the evaluated circuit |
| Day24.SignalsAppend | src/bin/24.rs:114 | pushing an entry adds its wire to the listed wires |
| Day24.GroupedStep | src/bin/24.rs:101-115 | one more gate lands in its category's list, or in none when it has none |
| Day24.Categorise | src/bin/24.rs:98-115 | each category's list holds exactly the gates of that category, each with its own gate |
| Day24.ElemsAppend | src/bin/24.rs:132-156 | pushing a wire adds it to the flagged wires |
| Day24.ProcessNamed | src/bin/24.rs:127-209 | adds exactly the wires of the category whose names break its naming rule |
| Day24.UsedIn | src/bin/24.rs:152-175 | true iff some gate of the list reads the wire on either input |
| Day24.ProcessUnread | src/bin/24.rs:141-181 | adds the wires of the category, except those on x00 or y00, that are z wires or that no gate of the reading category reads |
| Day24.NamedAdded | src/bin/24.rs:127-209 | with the gates grouped, a naming rule adds the wrongly named gates of its category |
| Day24.UnreadAdded | src/bin/24.rs:141-181 | with the gates grouped, a reader rule adds the unread gates of its category |
| Day24.FlagWires | src/bin/24.rs:97-122 | the flagged wires are exactly those breaking one of the five adder rules |
| Day24.PartTwo | src/bin/24.rs:93-125 | None iff there is no section break; else the flagged wires, sorted and joined by commas |
| Day25.RowClashes | src/bin/25.rs:36-38 | true iff some cell from x on holds `#` in both rows |
| Day25.RowsReject | src/bin/25.rs:33-39 | true iff some row from y on differs in length from the key's or has a cell filled in both |
| Day25.IsCompatible | src/bin/25.rs:30-40 | true iff the schematics have the same number of rows, each of the same length, and no cell is `#` in both |
| Day25.CompatibleSymmetric | src/bin/25.rs:30-40 | whether two schematics fit does not depend on which is the lock |
| Day25.Select | src/bin/25.rs:7-18 | the non-empty sections that start with `#` (locks) or do not (keys), each from the input |
| Day25.SelectPartitions | src/bin/25.rs:7-18 | every non-empty section becomes exactly one lock or key; empty ones are skipped |
| Day25.Classify | src/bin/25.rs:4-18 | builds the locks and the keys in input order |
| Day25.Fitting | src/bin/25.rs:22-24 | at most as many keys fit as there are keys |
| Day25.Pairs | src/bin/25.rs:20-26 | at most locks × keys pairs fit |
| Day25.PairsAppendKey | src/bin/25.rs:20-26 | one more key adds the number of locks it fits |
| Day25.PairsSwap | src/bin/25.rs:20-26 | counting from the keys' side gives the same total |
| Day25.PartOne | src/bin/25.rs:3-27 | the number of (lock, key) pairs that fit |
| Common.TruncDiv | src/bin/17.rs:61-65 | Rust's signed `/`: for a positive divisor the quotient is truncated toward zero |
| Common.TruncRem | src/bin/17.rs:45-57 | Rust's signed `%`: for a positive divisor the remainder takes the dividend's sign |
| Common.TruncRemSmall | src/bin/17.rs:45-61 | the truncated remainder is smaller than the divisor in magnitude, and quotient and remainder rebuild the dividend |
| Common.TruncDivExact | src/bin/13.rs:98-108 | dividing an exact multiple truncates nothing and leaves no remainder |
| Common.XorInvolution | src/bin/17.rs:41-43 | exclusive-or with the same value twice is the identity |
| Common.XorBounded | src/bin/17.rs:41-55 | the exclusive-or of two values below 2^n is below 2^n |
| Common.XorLowBits | src/bin/22.rs:7-8 | the low n bits of an exclusive-or depend only on the low n bits of its operands |
| Common.FlatIndexInjective | src/bin/18.rs:17-31 | different cells of a row-major grid have different indices |
| Text.ParseI32 | src/bin/14.rs:15-16 | `parse::<i32>` succeeds only with a value in the i32 range |
| Text.DecimalDigits | src/bin/18.rs:49-50 | the decimal text of a number is non-empty, all digits, and reads back as the number |
| Text.ParseShowInt | src/bin/14.rs:15-16 | reading back a written i32 gives the number |
| Text.ShowIntPlain | src/bin/14.rs:7-12 | a written integer holds neither a space nor a comma, so the splits find the right separators |
| Text.SplitOnce | src/bin/23.rs:10-42 | `split_once` on a character: None iff it is absent, else the text before and after its first occurrence |
| Text.SplitOnceAt | src/bin/23.rs:10 | splitting `a` + sep + `b` when `a` lacks sep gives back (a, b) |
| Text.CollectAllLines | src/bin/24.rs:62-68 | collecting Options fails iff some line fails, and otherwise yields each line's value in order |
| Text.ParseUsize | src/bin/24.rs:50-53 | `parse::<usize>` succeeds only with a value at most `usize::MAX` |
| Text.ParseShowUsize | src/bin/24.rs:50-53 | reading back a written number at most `usize::MAX` gives it |
| Text.FirstAt | src/bin/24.rs:60-65 | the first position from `from` on where the separator starts, None iff there is none |
| Text.SplitOnceStr | src/bin/24.rs:60-65 | `split_once` on a string: None iff the separator never occurs, else the text around its first occurrence |
| Text.SplitOnceStrAt | src/bin/24.rs:65 | splitting `a` + sep + `b`, where sep does not start inside `a`, gives (a, b) |
| Text.BeforeTotal | src/bin/23.rs:65 | of two different names one sorts before the other |
| Text.Insert | src/bin/23.rs:64-65 | putting a name into a sorted list keeps it sorted, one longer, with exactly that name added |
| Text.SortNames | src/bin/23.rs:64-65 | the members of the set, each once, in ascending order |
| Text.SplitJoin | src/bin/24.rs:77 | splitting names joined by a separator none of them holds gives the names back |
| Grids.LastOfIsLast | src/bin/16.rs:43-51 | when the mark occurs, the scan's result is its last occurrence in reading order; otherwise (0, 0) |
| Grids.FindMarks | src/bin/20.rs:30-45 | the scan of every line remembers the last 'S' and the last 'E' |
| Grids.ClosedHoldsReachable | src/bin/18.rs:19-39 | a set closed under steps and holding the start holds every cell reachable from it |
| Grids.ShortestExists | src/bin/18.rs:61-65 | a cell reached in k steps has a shortest distance of at most k |
| Grids.ShortestUnique | src/bin/18.rs:61-65 | a cell's shortest distance is unique |
| Counting.CountRowCard | src/bin/20.rs:106-129 | the row loop's count is the number of cells of the row passing the test |
| Counting.CountBoxCard | src/bin/20.rs:105-130 | the box loops' count is the number of cells of the box passing the test |

## Left out

- Reading the input file, the `solution!` entry-point macro, benchmarking and the `#[ignore]`d example tests are outside the model. Each solver's input is a parameter.
- Day 3's regular-expression matching of `mul(a,b)` and the sums of the products (`src/bin/03.rs:7-15, 20-31`) are not modelled. Day 3's model covers the `valid_parts` filter of each line and the flag it carries from line to line.
- Parsing that only splits lines and calls `unwrap` is not modelled; those days take pre-parsed values:
  - day 1's `filter_map` over the two columns;
  - day 2's `parse_levels`;
  - day 5's `parse_rules_and_input`;
  - day 13's `parse_button` and `parse_prize`;
  - day 17's register and program lines;
  - day 19's pattern and design lines;
  - day 22's per-line `parse`;
  - day 23's `split_once` on each edge.
  - day 11's `split_whitespace().filter_map(|s| s.parse().ok())`. Day 11 takes the stones as numbers, so the tokens the source drops are not modelled. These are tokens that are not decimal numbers, and numbers above `u64::MAX`.
  - day 25's `split("\n\n")` into sections. Day 25 takes each section as its list of lines; an empty section is the empty list, and a section that starts with a line break has an empty first line.
  The parsers of days 14, 18, 20 and 24 are modelled.
- Machine-width overflow is not modelled. Sums and products in `u32`, `u64` and `usize` are unbounded `int`/`nat` except where the model states a bound. Examples are day 11's `n * 2024`, day 21's memo hash and day 24's `1 << n` for n ≥ 64.
- Day22.NextSecret: requires secrets below 2^58, so that the multiplication by 64 stays inside `u64` as in the source. Larger initial secrets are outside the model.
- Day04.PartOne: requires every row to have the first row's non-empty width. The source only indexes rows up to the first row's width, so its longer rows are not modelled.
- Day04.PartTwo: same rectangular precondition as part one.
- Day07.Calibration: requires every equation to have at least one operand, and no operand to be zero. With no operand, the source's `numbers.len() - 1` underflows. Zero operands are excluded because the guarded check and its exactness proof rely on positive operands; the source handles some of them. A zero first operand is only compared with the target, so the source counts "5: 0 5". A later zero operand reaches the `%` test only when the addition branch fails first: "5: 5 0" counts, while "6: 5 0" divides by zero.
- Day08.PartOne: requires a non-empty grid, because the source indexes `grid[0]`.
- Day08.PartTwo: requires a non-empty grid. The `i32::MAX` repetition cap is not modelled; the harmonic loop stops at the grid's edge anyway.
- Day09.PartTwo: states its value only when every file id lies inside the expanded disk. On other inputs the source indexes out of bounds; the model returns `None` there without characterising it further.
- Day06.PartOne: the unobstructed walk takes a fuel bound, because the source loops with no bound.
- Day06.PartTwo: soundness only. Every counted obstruction is proved to make the guard loop forever; that every looping obstruction is counted is not proved.
- Day14.PartTwo: requires that every line parses and every robot lies inside the 101 × 103 room, because the source indexes its grid by the robot's position. It also requires every velocity to be at most 101 across and 103 down in magnitude, because only then is the branchy wrap the remainder (see Day14.WrapIsMod). The search takes a fuel bound.
- Day14.WrapIsMod: the branchy wrap equals the Euclidean remainder only for velocities no larger than the room. This bound holds for the puzzle's robots.
- Day15.MoveVertical: proves that a vertical push adds no new kind of cell, but not that it preserves the multiset of cells. Around row ends, flat-index aliasing would need a border-wall assumption that the source does not check.
- Day16.PartTwo: the path search takes a fuel bound. The kept paths are proved to be routes from start to end, all of one score. That score is proved to be at least part one's lowest (KeptAtLeast). A kept path is proved to put 'S' and 'E' among the tiles (KeptTiles). It is not proved that a reachable 'E' yields a kept path. It is not proved that the kept score equals part one's lowest, nor that every lowest-score route is kept. So the count is not pinned to the cells of all best routes.
- Day16.KeptPaths: as for Day16.PartTwo, `min` is not proved to be the lowest score, and an empty `paths` is not ruled out when 'E' is reachable.
- Day16.PartOne: requires a non-empty maze whose rows all have the first row's width. The source reads `grid[0]`, which panics on an empty input. It then indexes each row only up to the first row's width: a shorter row panics, and the extra cells of a longer row are never read. Neither case is modelled.
- Day16.PartTwo: the same requirement of a non-empty rectangular maze. The source reads `lines[0]`, which panics on an empty input. It then reads a flattened grid at `y * width + x`, with the first line's width, so ragged lines shift its cells. That shift is not modelled.
- Day16.KeptPaths: the `seen` table starts at `usize::MAX - 1000`, as in the source.
- Day17.Computer.Run: the machine runs under a fuel bound, because the source's loop need not terminate.
- Day17.FindSelfPrintingA: the part-two search for a self-printing register value takes fuel bounds for both the program runs and the search.
- Day18.PartOne: requires the first 1024 lines to parse; the source unwraps each one.
- Day18.PartTwo: requires every line to parse. The answer is the position, not its `format!`ted text.
- Day19.PartOne: requires every towel pattern to be non-empty. With an empty pattern the source recurses forever.
- Day19.PartTwo: same non-empty-pattern precondition as part one.
- Day20.PartOne: requires the grid to have fewer than `u32::MAX` cells, because `u32::MAX` marks unreached cells.
- Day20.PartTwo: same size precondition as part one.
- Day23.PartTwo: the password is proved to name a clique of the network's computers in which every member is linked to the others. Maximality is proved only for networks without self-links. Which of several largest cliques the source picks is left to the iteration order.
- Day24.PartOne: requires every gate whose wire has no initial value to sit above its inputs in a ghost rank on wires. Gates on wires with an initial value are never evaluated, so they may form cycles (InitialWins). On a cycle through gates without initial values the source recurses until the stack overflows.
- `HashMap` iteration order is not modelled. Where the source iterates a `HashMap` or `HashSet` (days 8, 12, 23, 24), the model picks an arbitrary element.
- Day 25's `part_two` returns `None` in the source and is not modelled.

## Findings

| source | as written | input that shows it | evidently intended | confidence | as-written member | corrected member |
|---|---|---|---|---|---|---|
| src/bin/02.rs:15 | `is_valid_sequence` reads `nums[1]`, so a report with fewer than two levels panics. In part two the dampener removes a level from a failing two-level report, which leaves one level. | the report "1 10": unsafe, and removing a level leaves "1" or "10" | a report of fewer than two levels is safe; part two counts "1 10" as safe | not executed | Day02.TwoLevelReport | Day02.Dampened |
| src/bin/03.rs:37-48 | after splitting on "do", a piece that starts with "()" re-enables the text. A piece that starts with anything else is dropped even while the text is enabled, though "do" only appeared inside it. | "mul(1,2)domul(3,4)": the second multiplication is dropped | while enabled, "do" plus the piece is kept | not executed | Day03.PlainDoDropsText | Day03.ValidParts |
| src/bin/07.rs:12 | the reverse check subtracts an operand from the target in `u64` without checking that the target is at least the operand | "1: 1 2": `1 - 2` underflows and panics | an operand larger than the target rules out addition | not executed | Day07.UnderflowExample | Day07.CheckIsExact |
| src/bin/11.rs:23 | the input stones are collected into a `HashMap` with count 1 each, so equal stones collapse into one | "0 0": counts {0: 1} instead of {0: 2} | each occurrence of a stone is counted | not executed | Day11.DuplicateStonesCollapse | Day11.SimulateBlinks |
| src/bin/14.rs:95 | the row scan for sixteen robots in a row runs `0..width-16`, so the run starting at column `width-16` is never tried | 16 robots at x = 85..100, y = 0 | every start column whose run fits in the row is tried | not executed | Day14.LastRunMissed | Day14.FindRun |
| src/bin/21.rs:53-58 | a step whose Manhattan distance exceeds the length of the code being typed is pruned to `usize::MAX`, whatever its real cost | typing "<A" on one directional keypad: the step from A to '<' has distance 3, more than the code's 2 keys, and is pruned, but its true cost is 4 | the cheapest sequence of presses is found for every step | not executed | Day21.PruneGivesUp | Day21.CostStep |
