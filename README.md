# Advent of Code 2022 solutions, modelled in Dafny

This project models the puzzle solvers of a Rust repository of Advent of
Code 2022 solutions, one Dafny module per Rust source file:

- `Common` holds Rust's integer operators (truncating `/` and `%`) and small
  arithmetic and sequence facts.
- `Util` covers the text helpers of `src/util.rs`.
- `Day01` … `Day25` cover `src/day_NN.rs` (days 21 and 23 are not modelled).

Pure code (parsers, comparisons, scoring) is modelled as datatypes,
functions and lemmas. Code that changes state in place becomes a Dafny
`class` with the same fields. Examples are the crate stacks of day 5, the
directory tree of day 7, the rope of day 9, the monkeys of day 11, the cave
search of day 16, the chamber of day 17, the geode search of day 19, the
mixing arrays of day 20 and the board walkers of days 22 and 24. Each of
those methods states its result or its new state in terms of the old state
or of a specification function, or states outright the property the source
promises (a shortest-distance matrix, for instance). Lemmas then state
what the puzzle answer means: a count of visible trees, the set of cells a
rope's tail visits, the shortest climb, the outer surface of a droplet, the
best plan of valves, the SNAFU round trip.

Where the Rust code panics (`unwrap` on `None`, an index out of range, an
`assert!`), the model returns `None` or a failure flag. Reading files and
printing answers are left to the caller: the models take the parsed lines
or blocks as parameters.

## Model

| member | source | states |
|---|---|---|
| Common.RustRem | src/day_02.rs:59 | Rust's `%` on signed integers: truncating, so the remainder has the dividend's sign and lies strictly inside `(-|b|, |b|)` |
| Common.RustDiv | src/day_25.rs:39 | Rust's `/`: quotient times divisor plus `RustRem` gives back the dividend |
| Common.RustRemCongruent | src/day_20.rs:41-44 | Rust's remainder differs from the dividend by a multiple of the divisor |
| Common.MaxOf | src/day_01.rs:11 | `iter().max()` on a non-empty sequence: the result is an element, and no element exceeds it |
| Common.ParseNat | src/day_05.rs:66 | `str::parse::<usize>`: a result only for an optional `+` followed by at least one digit |
| Common.ParseInt | src/day_04.rs:8 | `str::parse::<i32>`/`<i64>`: a result only for an optional sign followed by at least one digit |
| Common.ParseShowNat | src/day_05.rs:66 | a printed natural number parses back to itself |
| Common.ParseShowInt | src/day_04.rs:8 | a printed integer, negative ones included, parses back to itself |
| Common.SortAsc | src/day_01.rs:16 | `sort()`: the result is in ascending order and is a permutation of the input |
| Common.InsertAsc | src/day_01.rs:16 | insertion into an ascending sequence keeps it ascending and adds exactly the one element |
| Common.Reverse | src/day_01.rs:17 | `reverse()`: element `i` of the result is element `n-1-i` of the input |
| Common.ReverseSnoc | src/day_25.rs:41 | reversing `s + [x]` puts `x` first, then `s` reversed |
| Util.LinesToBlocks | src/util.rs:13-31 | the loop over the lines returns exactly `Blocks(lines)`, the split at empty lines |
| Util.BlocksContents | src/util.rs:13-31 | no block is empty, and the blocks concatenated are exactly the non-empty input lines in order |
| Util.SplitNonEmpty | src/util.rs:17-28 | a block is pushed only when non-empty |
| Util.SplitFlatten | src/util.rs:17-28 | the blocks hold the pending block followed by the non-empty remaining lines, in order |
| Util.BlocksOfJoin | src/util.rs:16-28 | any non-empty blocks of non-empty lines, joined with gaps of empty lines (at least one between two blocks, any number before the first and after the last), split back into exactly those blocks |
| Util.SplitBlock | src/util.rs:22-24 | non-empty lines extend the pending block |
| Util.SplitGap | src/util.rs:17-21 | a run of empty lines with nothing pending adds no block |
| Util.CloseBlock | src/util.rs:17-21 | an empty line after a pending block pushes the block, and the lines after the run of empty lines split on their own |
| Util.TokensFrom | src/util.rs:34-36 | whitespace splitting from a partly read token: no token is empty or holds whitespace, and the tokens concatenated are the pending token followed by the non-whitespace characters |
| Util.Tokenize | src/util.rs:34-36 | `split_whitespace`: no empty token, no whitespace inside a token, and together they hold every non-whitespace character in order |
| Util.TokenizeUnwords | src/util.rs:34-36 | non-empty words without whitespace, joined by single spaces, tokenize back to the same words |
| Util.TokensOfWord | src/util.rs:34-36 | the characters of a word without whitespace all go into the current token |
| Day01.ElfCalories | src/day_01.rs:3-8 | one total per block, in block order, each the sum of its block |
| Day01.ElfCaloriesTotal | src/day_01.rs:3-8 | the totals add up to the sum of every number of the input |
| Day01.MostCalories | src/day_01.rs:10-12 | None exactly when there is no block (the `unwrap` panic); otherwise a block total that no block total exceeds |
| Day01.RemoveOne | src/day_01.rs:16-18 | the sequence is one shorter and has the same elements less one copy of `x` |
| Day01.TopK | src/day_01.rs:14-19 | (reference for part 2) the largest total, then the largest of the rest, `min(k, n)` times |
| Day01.HeadIsMax | src/day_01.rs:16-17 | a non-increasing arrangement of the totals starts with the largest one |
| Day01.TailArrangement | src/day_01.rs:16-18 | after the first entry, the rest of the arrangement holds the other totals |
| Day01.PrefixIsTopK | src/day_01.rs:16-18 | the first `min(k, n)` entries of any non-increasing arrangement of the totals are exactly those `TopK` picks |
| Day01.TopThreeCalories | src/day_01.rs:14-19 | the sort-reverse-take-3 loop returns the sum of the three totals `TopK` picks (all of them when fewer than three); the ghost `top` is that prefix, the largest `min(3, n)` totals in non-increasing order, and every other total is at most each of them |
| Day01.TopOfNonIncreasing | src/day_01.rs:16-18 | the first `min(3, n)` entries of a non-increasing permutation of the totals are the top ones |
| Day01.ReverseOfSorted | src/day_01.rs:16-17 | ascending order reversed is non-increasing |
| Day01.ReverseMultiset | src/day_01.rs:17 | reversing keeps the same elements |
| Day01.TopAtLeastMost | src/day_01.rs:10-19 | with no negative total, part 2 is at least part 1 |
| Day02.ShapeValue | src/day_02.rs:3-8 | the discriminants 0, 1 and 2 |
| Day02.IntToShape | src/day_02.rs:12-19 | a shape exactly for 0..2 (None for the panic), and its discriminant is the input |
| Day02.IntToShapeOfValue | src/day_02.rs:3-19 | `int_to_shape` inverts `as i32` |
| Day02.Score1 | src/day_02.rs:57-66 | the score equals the shape value plus one plus 0/3/6 for the outcome under the rules of the game (an independent definition), and lies in 1..9 |
| Day02.ShapeFor | src/day_02.rs:68-74 | the shape chosen for a requested result reaches that result under the rules of the game |
| Day02.ShapeForUnique | src/day_02.rs:68-74 | it is the only shape that does |
| Day02.Score2 | src/day_02.rs:68-76 | the score of some shape that reaches the requested result; minus the result's bonus it is 1, 2 or 3 |
| Day02.ParseOppShape | src/day_02.rs:30-37 | a shape exactly for "A", "B" and "C" |
| Day02.ParseMyShape | src/day_02.rs:39-46 | a shape exactly for "X", "Y" and "Z" |
| Day02.ParseResult | src/day_02.rs:48-55 | a result exactly for "X", "Y" and "Z" |
| Day02.ParseLetters | src/day_02.rs:30-55 | each letter reads back as the shape or result it is written for |
| Day02.ParseRound1 | src/day_02.rs:78-88 | a parsed line of part 1 has at least two tokens, and they are exactly the letters of the parsed opponent shape and own shape; None where the source panics |
| Day02.ParseRound2 | src/day_02.rs:90-100 | a parsed line of part 2 has at least two tokens, and they are exactly the letters of the parsed opponent shape and result; None where the source panics |
| Day02.ParseRound1OfLetters | src/day_02.rs:78-88 | a line of two letters reads back as its round (part 1) |
| Day02.ParseRound2OfLetters | src/day_02.rs:90-100 | a line of two letters reads back as its round (part 2) |
| Day02.TotalScore1 | src/day_02.rs:102-107 | the total lies between the number of rounds and nine times it |
| Day02.TotalScore2 | src/day_02.rs:109-114 | the total minus the bonuses of the requested results lies between one and three per round |
| Day03.SharedItem | src/day_03.rs:8-13 | an item exactly when the two strings share one, and then it is in both |
| Day03.FindDuplicate | src/day_03.rs:4-14 | an item present in both halves (split at `len >> 1`) exactly when there is one; None for the panic |
| Day03.HalvesMeaning | src/day_03.rs:5-7 | the halves make up the line and the second is longer by `len % 2` |
| Day03.SharedItem3 | src/day_03.rs:36-39 | an item exactly when the three strings share one, and then it is in all three |
| Day03.FindSharedItem | src/day_03.rs:32-40 | an item present in all three lines exactly when there is one |
| Day03.CharPrio | src/day_03.rs:15-22 | a priority in 1..52, or None for the panic |
| Day03.CharPrioOfPrioChar | src/day_03.rs:15-22 | each priority 1..52 belongs to a letter that maps back to it |
| Day03.CharPrioOfLetter | src/day_03.rs:15-22 | every ASCII letter has a priority, and the priority names the letter back |
| Day03.CharPrioKeepsLowByte | src/day_03.rs:16 | `c as u8` keeps the low byte: a non-ASCII character whose low byte is 'a' gets priority 1 |
| Day03.DuplicatesTotal | src/day_03.rs:24-30 | defined exactly when every line has a duplicate with a priority; then between one and 52 per line |
| Day03.GroupsTotal | src/day_03.rs:42-55 | defined only when the lines split into groups of three; then between one and 52 per group |
| Day03.GroupPriorities | src/day_03.rs:42-55 | the while loop in steps of three returns `GroupsTotal`, and None where the source indexes out of range or panics |
| Day04.SplitOn | src/day_04.rs:7 | `split` on one character: at least one piece, none holding the separator |
| Day04.SplitJoin | src/day_04.rs:7 | splitting undoes joining pieces that do not hold the separator |
| Day04.ParseI32 | src/day_04.rs:8 | a value only within the 32-bit range |
| Day04.ParseAll | src/day_04.rs:6-9 | every piece parsed, in order, or None when some piece does not parse |
| Day04.ParseShowAssign | src/day_04.rs:5-11 | a written assignment with 32-bit bounds reads back as itself |
| Day04.ParseShowAssignments | src/day_04.rs:13-16 | a written pair of assignments reads back as itself |
| Day04.AssignContainsIsNotContainment | src/day_04.rs:18-20 | the test as written rejects 3-7 inside 2-8 and accepts 3-7 against 2-3 |
| Day04.ContainsMeaning | src/day_04.rs:18-20 | the corrected test holds exactly when every section of the non-empty `sub` lies in `assign` |
| Day04.AsWrittenHoldsApart | src/day_04.rs:22-24 | as written, 1-2 and 5-6 pass the containment test though they do not overlap |
| Day04.OneContainsAnotherSymmetric | src/day_04.rs:22-24 | both the written and the corrected test are symmetric |
| Day04.OneContainsAnotherMeaning | src/day_04.rs:22-24 | the corrected test holds exactly when one range holds every section of the other, and then they overlap |
| Day04.OverlapMeaning | src/day_04.rs:26-28 | overlap is symmetric and, for non-empty ranges, holds exactly when some section lies in both |
| Day04.CountWhere | src/day_04.rs:30-44 | `filter(..).count()`: at most one count per pair |
| Day04.CountWhereMeaning | src/day_04.rs:30-44 | the count is the number of pairs that pass the test |
| Day04.CountContainingAsWritten | src/day_04.rs:30-36 | `part_1` as written: the number of pairs that pass `one_contains_another` as written |
| Day04.CountContaining | src/day_04.rs:30-36 | `part_1` with the corrected test: the number of pairs where one range holds the other |
| Day04.CountOverlapping | src/day_04.rs:38-44 | `part_2`: the number of overlapping pairs |
| Day04.AsWrittenCounts | src/day_04.rs:18-36 | as written, part 1 counts 1-2, 5-6 (which does not overlap) and misses 2-8, 3-7 (which the corrected count takes) |
| Day04.ContainingAtMostOverlapping | src/day_04.rs:22-44 | with non-empty ranges, the corrected part 1 never exceeds part 2 (as written it can: see `AsWrittenCounts`) |
| Day05.RowOf | src/day_05.rs:16-18 | the characters at positions 1, 5, 9, ... of a drawing line, one per column |
| Day05.Rows | src/day_05.rs:12-19 | the drawing rows bottom first, the stack-number line skipped |
| Day05.PushRow | src/day_05.rs:22-29 | the loop over one row returns `AddCells`: each crate of the row pushed on the stack of its column |
| Day05.ParseStacks | src/day_05.rs:9-32 | `State::parse` returns `AddRows` over the rows bottom first, or None where `stacks[i]` would be out of range |
| Day05.AddCellsFacts | src/day_05.rs:22-29 | one row adds its crate in column `i` to stack `i` and nothing else, and no stack is empty |
| Day05.PutCrate | src/day_05.rs:24-27 | a crate lands on its own stack, a new stack being made right after the last |
| Day05.AddRowsFacts | src/day_05.rs:21-30 | every stack gains the crates of its column, bottom row first |
| Day05.ParsedColumns | src/day_05.rs:9-32 | after a parse without panic each stack lists the crates of its column bottom to top, no stack is empty, and no crate lies beyond the last stack |
| Day05.ParsedTops | src/day_05.rs:51-53 | a freshly parsed drawing has a top crate on every stack |
| Day05.ParseShowStep | src/day_05.rs:63-69 | a written step "move A from F to T" reads back, with 1-based stack numbers turned 0-based |
| Day05.TransferFacts | src/day_05.rs:34-49 | a transfer between two different stacks shortens one and lengthens the other by `n`, keeps every other stack and the total number of crates |
| Day05.TotalCratesUpdate | src/day_05.rs:34-49 | replacing one stack changes the crate count by the difference in its length |
| Day05.StepsAgree | src/day_05.rs:34-49 | the two kinds of step take the same top `n` crates off the same stack; step one puts them on reversed, step two in order; both keep the total |
| Day05.Tops | src/day_05.rs:51-53 | defined exactly when no stack is empty; then one character per stack, the top crate |
| Day05.State.constructor | src/day_05.rs:31 | the state holds the given stacks |
| Day05.State.ApplyStep1 | src/day_05.rs:34-39 | the pop/push loop ends with `Step1(old stacks)`, or reports the panic (index out of range, too few crates) exactly when `Step1` is None |
| Day05.State.PushReversed | src/day_05.rs:46-48 | the second loop of `apply_step_2` appends the buffer reversed to stack `to` and changes nothing else |
| Day05.State.ApplyStep2 | src/day_05.rs:41-49 | pop into a buffer, then push it back reversed: ends with `Step2(old stacks)`, or reports the panic exactly when `Step2` is None |
| Day05.PoppedNone | src/day_05.rs:42-43 | before the first pop the buffer is empty and the stacks untouched |
| Day05.PopNext | src/day_05.rs:43-45 | each pop moves the next crate from the top of `from` to the end of the buffer |
| Day05.PoppedThenPushed | src/day_05.rs:41-49 | the buffer of `n` pops pushed back in reverse gives `Step2` |
| Day05.MovedNone | src/day_05.rs:35 | before the first move nothing has changed |
| Day05.MovedNext | src/day_05.rs:35-38 | each single-crate move takes the top of `from` and puts it on `to` |
| Day05.ReverseTwice | src/day_05.rs:46 | reversing twice gives back the sequence: the buffer filled top first and emptied in reverse keeps the block's order |
| Day06.DistinctCard | src/day_06.rs:6-7 | a window has as many different characters as it is long exactly when no character repeats, so the hash-set test is the pairwise test |
| Day06.DetectFrom | src/day_06.rs:5-11 | the loop from end position `n` on returns the first position whose window qualifies, and None exactly when none up to the length of `s` does |
| Day06.DetectStartOfPacket | src/day_06.rs:4-12 | the result is the first end position, from `packet_len` on, whose window of `packet_len` characters has no repeat, and None exactly when no end position up to the length qualifies |
| Day06.DetectMeaning | src/day_06.rs:4-12 | `detect_start_of_packet` returns the smallest end of a window of `packet_len` pairwise different characters, and None exactly when there is no such window |
| Day06.RepeatInWindow | src/day_06.rs:6-7 | a character repeated inside the window rules out a marker there |
| Day06.DistinctWindow | src/day_06.rs:6-8 | a window of pairwise different characters ends a marker |
| Day06.FirstExample | src/day_06.rs:33 | any stream starting "mjqjpqm" has its packet marker at 7 |
| Day06.MessageWindow | src/day_06.rs:46 | the fourteen characters before position 19 of "mjqjpqmgbljsphdztnv" differ pairwise |
| Day06.SecondExample | src/day_06.rs:46 | any stream starting "mjqjpqmgbljsphdztnv" has its message marker at 19 |
| Day07.MapSumPick | src/day_07.rs:76 | the sum of a directory's file sizes does not depend on the order the hash map yields them |
| Day07.MapSumSame | src/day_07.rs:76-81 | maps that agree on the keys summed have the same sum |
| Day07.MapSumUpdate | src/day_07.rs:57 | inserting a size changes the sum by the new size less the size replaced |
| Day07.ChildTotals | src/day_07.rs:77-81 | one total per sub-directory, under the same names |
| Day07.ChildTotalAt | src/day_07.rs:80 | the total listed for a sub-directory is that sub-directory's total size |
| Day07.TotalsOverPick | src/day_07.rs:77-81 | the totals below a directory do not depend on the order its sub-directories are visited |
| Day07.ReplaceMeaning | src/day_07.rs:32-38 | replacing the directory at a path works exactly where the path leads somewhere; the path then leads to the new directory and the root's total changes by the difference |
| Day07.ReplaceChild | src/day_07.rs:51-57 | replacing one sub-directory changes the parent's total by that sub-directory's change |
| Day07.CdUndo | src/day_07.rs:40-48 | `cd name` then `cd ..` returns to the same path |
| Day07.WithDirTotal | src/day_07.rs:50-54 | a fresh empty sub-directory drops the total by whatever directory of that name it replaces |
| Day07.EmptyTotal | src/day_07.rs:12-17 | a new directory has total zero |
| Day07.WithFileTotal | src/day_07.rs:56-58 | recording a file grows the total by its size less any size it replaces |
| Day07.AddDirMeaning | src/day_07.rs:50-54 | `add_dir` works exactly where the current path exists; the new directory is empty and reachable, the current directory keeps its files and gains the name, and the root's total drops by the replaced directory's |
| Day07.AddFileMeaning | src/day_07.rs:56-58 | `add_file` works exactly where the current path exists; it records the size, keeps the sub-directories, and grows the root's total by the size less any size replaced |
| Day07.LookupAppend | src/day_07.rs:32-38 | walking one name further finds that sub-directory of the current one, or fails |
| Day07.OtherCommandKeeps | src/day_07.rs:60-67 | a command other than `cd` leaves the tree and the path unchanged |
| Day07.FileLineRecords | src/day_07.rs:69 | a line "<size> <name>" records the file in the current directory and keeps the path |
| Day07.FileSystem.constructor | src/day_07.rs:26-31 | an empty root and an empty path |
| Day07.FileSystem.CurrentDir | src/day_07.rs:32-38 | the walk along the path finds `Lookup(root, path)`, None where `expect` panics |
| Day07.FileSystem.ApplyCd | src/day_07.rs:40-48 | the path becomes `Cd(old path, dir)`: root, parent or child; fails exactly at ".." from the root |
| Day07.FileSystem.AddDir | src/day_07.rs:50-54 | the root becomes `AddDirAt(old root, path, name)`; fails exactly when that is None |
| Day07.FileSystem.AddFile | src/day_07.rs:56-58 | the root becomes `AddFileAt(old root, path, name, size)`; fails exactly when that is None |
| Day07.FileSystem.ApplyLine | src/day_07.rs:60-71 | the tree and the path become `LineEffect` of the line, and the method fails exactly when the source panics |
| Day07.FileSystem.ListTotalSizes | src/day_07.rs:73-88 | one total per directory (a permutation of `Totals(root)`), the root's total last |
| Day07.FileSum | src/day_07.rs:76 | the sum of the directory's own file sizes |
| Day07.ListStart | src/day_07.rs:77-81 | before the loop over sub-directories nothing is summed or listed |
| Day07.ListStep | src/day_07.rs:80 | visiting one more sub-directory adds its total and appends all totals below it |
| Day07.ListEnd | src/day_07.rs:77-81 | after all sub-directories, the sum is that of their totals and the list holds every total below them |
| Day07.ListDone | src/day_07.rs:82-84 | file sum plus directory sum is the directory's total, and pushing it completes its totals |
| Day07.RecList | src/day_07.rs:75-85 | `rec_list` returns the directory's total, keeps what was listed before, appends a permutation of all totals below and including it, its own last |
| Day07.ListChildren | src/day_07.rs:77-81 | the loop returns the sum of the sub-directories' totals and appends all their totals |
| Day07.SmallTotalAppend | src/day_07.rs:98 | the filtered sum over a concatenation is the sum of the parts |
| Day07.SmallTotalPermutation | src/day_07.rs:97-98 | the order of the listed totals does not change part 1's answer |
| Day07.SmallestAtLeast | src/day_07.rs:113-117 | the minimum of the totals at least `need`: one of them, no larger than any, and present exactly when some total qualifies |
| Day07.SmallestToDeleteMeaning | src/day_07.rs:101-118 | when the subtractions stay in range an answer exists, deleting it frees at least 30000000 and no smaller total would |
| Day08.RowOf | src/day_08.rs:15-17 | one height 0..9 per character, the value of its digit |
| Day08.Parse | src/day_08.rs:11-23 | one row per line, each `RowOf` its line, rows = number of lines, cols = length of the first; None exactly when a character is not a digit or there are no lines |
| Day08.EdgeVisible | src/day_08.rs:25-31 | a tree on the edge of the grid is visible |
| Day08.VisibleCellsOfRowCount | src/day_08.rs:59-61 | the count of a row is the number of its visible trees |
| Day08.VisibleCellsMeaning | src/day_08.rs:57-62 | a cell is among the cells counted for the first `n` rows exactly when it lies in those rows and its tree is visible |
| Day08.VisibleCountCounts | src/day_08.rs:53-64 | the sum over the rows counts every visible tree of the grid exactly once |
| Day08.ViewingDistanceMeaning | src/day_08.rs:33-42 | the view stops at the first tree at least as tall, counting it, and every tree before it is lower |
| Day08.ClearView | src/day_08.rs:27-30 | all trees in a direction are lower exactly when the whole view is seen and its far end is lower |
| Day08.Up | src/day_08.rs:46 | the cells above, nearest first |
| Day08.Down | src/day_08.rs:47 | the cells below, nearest first |
| Day08.Left | src/day_08.rs:48 | the cells to the left, nearest first |
| Day08.Right | src/day_08.rs:49 | the cells to the right, nearest first |
| Day08.ViewUp | src/day_08.rs:27 | the heights above, nearest first |
| Day08.ViewDown | src/day_08.rs:28 | the heights below, nearest first |
| Day08.ViewLeft | src/day_08.rs:29 | the heights to the left, nearest first |
| Day08.ViewRight | src/day_08.rs:30 | the heights to the right, nearest first |
| Day08.HeightsAt | src/day_08.rs:35-37 | the heights of the visited cells in their order |
| Day08.ScenicDir | src/day_08.rs:33-42 | the loop returns `ViewingDistance` of the heights it walks past |
| Day08.FirstTall | src/day_08.rs:37-38 | when the first tree at least as tall is at index `k`, the distance is `k + 1` |
| Day08.AllLower | src/day_08.rs:41 | when every tree is lower, the whole view is seen |
| Day08.CellsMatchViews | src/day_08.rs:46-49 | the cells walked in each direction carry the heights of that view |
| Day08.ScenicScore | src/day_08.rs:44-51 | the product of the viewing distances up, down, left and right |
| Day08.EdgeScoresZero | src/day_08.rs:44-51 | a tree on the edge scores 0 |
| Day08.ClearAbove | src/day_08.rs:27 | all trees above lower exactly when the upward view is clear |
| Day08.ClearBelow | src/day_08.rs:28 | all trees below lower exactly when the downward view is clear |
| Day08.ClearLeft | src/day_08.rs:29 | all trees to the left lower exactly when the leftward view is clear |
| Day08.ClearRight | src/day_08.rs:30 | all trees to the right lower exactly when the rightward view is clear |
| Day08.VisibleMeaning | src/day_08.rs:25-31 | visible exactly when, in some direction, the scenic walk sees the whole view and its far end is lower |
| Day08.BestInRow | src/day_08.rs:73-76 | the largest scenic score of the row, attained at some column |
| Day08.BestScenicScore | src/day_08.rs:67-80 | the largest scenic score of the grid, attained at some tree; None exactly when there are no rows or no columns |
| Day09.StepTowardsFacts | src/day_09.rs:54-64 | a knot at most two away from the one it follows ends up touching it, moving at most one unit per coordinate; a knot already touching stays |
| Day09.Follow | src/day_09.rs:84-87 | the knots after a head move: as many as before, the head at its new place |
| Day09.FollowSnoc | src/day_09.rs:85-87 | one more pass of the loop adds knot `i` stepped towards the new position of knot `i - 1` |
| Day09.FollowTaut | src/day_09.rs:83-89 | moving the head of a taut rope by at most one unit keeps every pair of adjacent knots touching, and no knot moves more than one unit |
| Day09.Rope.constructor | src/day_09.rs:73-81 | `knot_count` knots at the origin, the origin recorded, the rope taut |
| Day09.Rope.MoveKnots | src/day_09.rs:84-87 | the in-place loop leaves `Follow(old knots, head)` |
| Day09.Rope.MoveHead | src/day_09.rs:83-89 | the knots become `Follow` of the moved head, the new last knot is added to the recorded set and nothing else, the rope stays taut under a unit move; fails exactly on a rope without knots |
| Day09.ParseCommand | src/day_09.rs:98-111 | a parsed command moves one unit along one axis |
| Day09.ParseShowCommand | src/day_09.rs:98-111 | writing a command "R 4" and reading it back gives the command |
| Day09.MovesPrefix | src/day_09.rs:116-121 | the moves of the lines read so far are defined whenever those of all lines are, and are no longer |
| Day09.MovesSteps | src/day_09.rs:116-121 | the commands expand to one unit move per step |
| Day09.SimulateVisited | src/day_09.rs:83-89 | over a run of moves the visited positions only grow, by at most one per move |
| Day09.SimulateTaut | src/day_09.rs:83-89 | a taut rope stays taut under any run of unit moves |
| Day09.TailCountBound | src/day_09.rs:114-134 | the answer counts the origin and at most one new position per step of the commands |
| Day09.RunCommand | src/day_09.rs:118-120 | the inner loop moves the head `steps` times, matching the simulation of those moves; on a rope without knots it panics exactly when there is a step |
| Day09.CountTailPositions | src/day_09.rs:114-134 | an answer exists exactly when every line parses and the rope has knots (or nothing moves); it is the number of positions the last knot visits in the simulation of all the moves from the origin |
| Day10.ParseInstr | src/day_10.rs:29-39 | an addx operand fits an `i64`; None on an empty line, an unknown command or a bad operand |
| Day10.ParseShowInstr | src/day_10.rs:29-39 | writing a command ("noop", "addx -5") and reading it back gives the command |
| Day10.RunFacts | src/day_10.rs:23-41 | running the commands records one state per cycle, numbered consecutively; during each cycle x is the start value plus the operands of every addx completed before it |
| Day10.ParseAll | src/day_10.rs:44-46 | all lines parse exactly when each does, one command per line in order |
| Day10.ParseAllSnoc | src/day_10.rs:44-46 | one more line adds its command at the end |
| Day10.ParseAllFails | src/day_10.rs:44-46 | one bad line makes the whole input fail |
| Day10.Device.constructor | src/day_10.rs:15-21 | cycle 1, x = 1, empty history |
| Day10.Device.NextCycle | src/day_10.rs:23-26 | the current state is recorded and the cycle advances, x unchanged |
| Day10.Device.ApplyCommand | src/day_10.rs:28-41 | history and state advance as `Run` of the parsed command; fails exactly when the line does not parse |
| Day10.Device.ApplyNext | src/day_10.rs:44-46 | one pass of the loop extends the commands run so far by the line's command |
| Day10.Device.ApplyAll | src/day_10.rs:43-48 | history and state become `Run` of all the commands followed by one more recorded cycle; fails exactly when some line does not parse |
| Day10.RunAppend | src/day_10.rs:44-46 | running one more command continues from the state the others left |
| Day10.SignalSumProbes | src/day_10.rs:54-59 | for a history numbered from cycle 1, part one adds `cycle * x` exactly at cycles 20, 60, 100, ... that the history reaches |
| Day10.ProbesPrefix | src/day_10.rs:57 | the probes within a prefix are the same in any longer history |
| Day10.DrawScreen | src/day_10.rs:65-78 | the loop builds `Render` of the history |
| Day10.WithoutNewlinesAppend | src/day_10.rs:69 | dropping line breaks distributes over concatenation |
| Day10.Pixels | src/day_10.rs:71-76 | one pixel per state |
| Day10.PixelsMeaning | src/day_10.rs:71-76 | pixel `i` is lit exactly when state `i`'s sprite covers its column |
| Day10.RenderPixels | src/day_10.rs:62-79 | apart from line breaks the screen holds exactly one pixel per state, in order |
| Day10.ChunkPixel | src/day_10.rs:67-76 | each state adds its one pixel, and possibly a line break |
| Day11.ModOfMod | src/day_11.rs:153 | reducing twice modulo the same number is reducing once |
| Day11.ModAdd | src/day_11.rs:14 | `+` commutes with taking remainders |
| Day11.ModMul | src/day_11.rs:15 | `*` commutes with taking remainders |
| Day11.ModOfMultiple | src/day_11.rs:153-156 | a remainder modulo a multiple of `d` keeps the remainder modulo `d` |
| Day11.ApplyMod | src/day_11.rs:12-17 | an operation (`old`/number operands, `+` or `*`) commutes with taking remainders |
| Day11.ReducedWorryAgrees | src/day_11.rs:148-160 | without relief, a worry kept modulo a multiple of the divisor agrees with the full worry after the operation, and on divisibility by the divisor |
| Day11.InspectWithoutRelief | src/day_11.rs:148-160 | without relief, the reduced worry is thrown where the full worry would be, and stays congruent to it |
| Day11.DivisorDividesProduct | src/day_11.rs:128 | every test divisor divides `mod_divisor`, the product of all of them |
| Day11.TotalItemsUpdate | src/day_11.rs:162 | changing one queue changes the item count by its change in length |
| Day11.TurnFacts | src/day_11.rs:135-165 | a turn empties the acting monkey's queue, counts one inspection per item it held, keeps every monkey's rules and the number of items, and only appends to the other queues |
| Day11.ThrowFacts | src/day_11.rs:136-162 | one throw takes the front item of the acting monkey, counts it, and appends the new worry to the target |
| Day11.RoundFromFacts | src/day_11.rs:167-171 | the turns of monkeys `from` onwards keep the rules, the number of items, and never lower an activeness |
| Day11.RoundFacts | src/day_11.rs:167-171 | a round keeps the rules, the number of items, and never lowers an activeness |
| Day11.Activenesses | src/day_11.rs:189-193 | one activeness per monkey, in order |
| Day11.AboveMultiset | src/day_11.rs:195 | the elements above `x` are those of the multiset above `x` |
| Day11.AboveCount | src/day_11.rs:195 | sorting does not change how many values exceed `x` |
| Day11.AboveGrows | src/day_11.rs:196 | a longer prefix has at least as many values above `x` |
| Day11.TwoAbove | src/day_11.rs:196 | two positions above `x` give two values above `x` |
| Day11.SortedAbove | src/day_11.rs:195-196 | in ascending order at most the last value exceeds the one before it |
| Day11.NoneAbove | src/day_11.rs:196 | nothing exceeds an upper bound |
| Day11.MulMonotone | src/day_11.rs:197 | a product of natural numbers grows with its factors |
| Day11.TopTwo | src/day_11.rs:195-196 | the last two sorted values, in order |
| Day11.TopTwoFacts | src/day_11.rs:195-196 | two distinct monkeys hold the last two sorted values; none exceeds the largest and at most one the second largest |
| Day11.SortedTop | src/day_11.rs:195-196 | the last two of any ascending rearrangement of the activeness values have those properties |
| Day11.MonkeyBusiness | src/day_11.rs:188-201 | defined exactly when there are at least two monkeys |
| Day11.MonkeyBusinessIsBestPair | src/day_11.rs:188-201 | the monkey business is the largest product of the activeness values of two distinct monkeys, and two distinct monkeys attain it |
| Day11.BestPair | src/day_11.rs:197 | no product of two distinct values exceeds that of the two largest |
| Day11.PairIndices | src/day_11.rs:196 | the last two sorted values sit at two distinct monkeys |
| Day11.OtherIndex | src/day_11.rs:196 | a value occurring twice occurs at a second monkey |
| Day11.Monkeys.constructor | src/day_11.rs:126-133 | the reduction modulus is the product of all test divisors |
| Day11.Monkeys.MakeTurn | src/day_11.rs:135-165 | the while-let loop leaves the queues `Turn` describes, or fails exactly where `Turn` is None |
| Day11.Monkeys.RunRound | src/day_11.rs:167-171 | the for loop leaves the queues `Round` describes, or fails exactly where `Round` is None |
| Day12.Heights | src/day_12.rs:26-39 | one height per byte, 'S' read as 'a' and 'E' as 'z' |
| Day12.LastInRow | src/day_12.rs:26-37 | the last column of a row holding the byte, and no later column holds it |
| Day12.LastInMeaning | src/day_12.rs:21-41 | the recorded start (end) is the last 'S' ('E') in reading order, and stays (0, 0) ((0, 1)) when there is none |
| Day12.RecordedSnoc | src/day_12.rs:26-37 | one more byte moves the record to it exactly when it is the byte looked for |
| Day12.ParseRow | src/day_12.rs:25-39 | the inner loop gives the row's heights and moves the start and end to the row's last 'S' and 'E' |
| Day12.Parse | src/day_12.rs:18-49 | the heights row by row, start and end as `LastIn` gives them, width the first line's length and height the number of lines; None exactly when there are no lines |
| Day12.NeighboursMeaning | src/day_12.rs:55-70 | from a cell of the map the neighbours are exactly the cells of the map one step away, at most four, none twice |
| Day12.ReachMonotone | src/day_12.rs:85-101 | a larger frontier reaches at least as much |
| Day12.Bfs | src/day_12.rs:81-104 | an answer lies between the current layer and the last layer the fuel allows |
| Day12.ReachUnion | src/day_12.rs:85 | the cells reached from a union are those reached from either part |
| Day12.MovedGrows | src/day_12.rs:81-104 | a cell reachable in `j` moves is reachable in one to `n` moves for `j <= n` |
| Day12.ReachUpto | src/day_12.rs:92-98 | a move from a cell reached in fewer than `n` moves lands within `n` moves |
| Day12.FrontierFacts | src/day_12.rs:84-103 | the frontier is reached in exactly `layer - 1` moves, and everything so reached is in it or seen earlier |
| Day12.NextLayer | src/day_12.rs:85-101 | moves from the frontier reach exactly the cells of the next layer, up to cells seen before |
| Day12.ReachNStep | src/day_12.rs:85-101 | the cells reached in `n` moves are one move from those reached in `n - 1` |
| Day12.LayerStep | src/day_12.rs:81-104 | one layer without a hit keeps the search state layered: seen is everything within the moves so far, the frontier what first appears at this distance |
| Day12.LayerSets | src/day_12.rs:92-98 | the set algebra of one layer: the new frontier is the newly reached cells |
| Day12.LayeredAt | src/day_12.rs:76-79 | the frontier and seen cells the search holds before each layer are layered |
| Day12.LayerStepAt | src/day_12.rs:81-104 | a layer that misses the end hands on to the next layer of the same search |
| Day12.BfsFewestMoves | src/day_12.rs:72-105 | the search's answer is the fewest moves, at least one, reaching the end from a start |
| Day12.FoundHere | src/day_12.rs:89-90 | a layer whose moves reach the end returns that layer, the fewest moves |
| Day12.BfsUnfold | src/day_12.rs:81-104 | a layer that misses the end continues with the new frontier and seen set |
| Day12.BfsComplete | src/day_12.rs:72-105 | with enough layers the search finds the end whenever some number of moves reaches it |
| Day12.NotYet | src/day_12.rs:81-104 | a layer that misses the end leaves it to a later one |
| Day12.ShortestPathMeaning | src/day_12.rs:72-105 | `shortest_path` returns the fewest moves, at least one, from some start to the end, and finds it whenever there is one within the fuel |
| Day12.ReachOne | src/day_12.rs:86-88 | the cells one allowed move from `p`: neighbours at most one unit higher |
| Day12.ReachInsert | src/day_12.rs:85 | adding a cell to the frontier adds its one-move cells |
| Day12.ReachInBounds | src/day_12.rs:55-70 | on a rectangular map every allowed move stays on the map |
| Day12.BfsHit | src/day_12.rs:89-90 | a layer whose moves reach the end returns its number |
| Day12.ExpandPoint | src/day_12.rs:86-101 | the neighbour loop for one cell hits the end exactly when one allowed move does; otherwise cells without an entry get `steps` and join the next frontier, old entries unchanged |
| Day12.ExpandSkip | src/day_12.rs:88-93 | a neighbour that cannot be moved to, or already has an entry, changes nothing |
| Day12.ExpandAdd | src/day_12.rs:94-97 | a new reachable neighbour gets an entry and joins the next frontier |
| Day12.AllowedSnoc | src/day_12.rs:87-88 | one more neighbour adds itself exactly when the move is allowed |
| Day12.CanMoveNeighbour | src/day_12.rs:86-88 | a neighbour can be moved to exactly when it is at most one unit higher |
| Day12.ExtendsAdd | src/day_12.rs:95 | a new entry with `steps` keeps the entries before it |
| Day12.ExpandLayer | src/day_12.rs:84-103 | a layer hits the end exactly when some move from the frontier does; otherwise the next frontier is the reached cells without an entry, and each now has one |
| Day12.ShortestPathSearch | src/day_12.rs:72-105 | the loop returns `ShortestPath` of the starts |
| Day12.LowestPoints | src/day_12.rs:107-118 | exactly the cells of height 'a', column by column and top to bottom |
| Day12.Part1 | src/day_12.rs:121-124 | the fewest moves from the start |
| Day12.LowSet | src/day_12.rs:107-118 | the set of cells of height 'a' |
| Day12.Part2 | src/day_12.rs:126-129 | the fewest moves from any cell of height 'a' |
| Day13.Compare | src/day_13.rs:14-57 | the result is -1, 0 or 1 |
| Day13.CompareLists | src/day_13.rs:26-47 | the list loop returns -1, 0 or 1 |
| Day13.NumberAgainstList | src/day_13.rs:48-55 | a number meeting a list compares as the one-element list holding it, on either side |
| Day13.CompareReflexive | src/day_13.rs:14-57 | every packet compares 0 to itself |
| Day13.CompareListsReflexive | src/day_13.rs:26-47 | the list loop on equal lists returns 0 |
| Day13.CompareAntisymmetric | src/day_13.rs:14-57 | swapping the operands negates the result |
| Day13.CompareListsAntisymmetric | src/day_13.rs:26-47 | swapping the lists negates the loop's result |
| Day13.CompareListsLexicographic | src/day_13.rs:27-46 | lists compare lexicographically: after equal elements the next position (or the end of a list) decides |
| Day13.PrefixSmaller | src/day_13.rs:33-35 | a proper prefix compares smaller |
| Day13.DigitRun | src/day_13.rs:85-88 | the digits collected are the whole run of digits at the start |
| Day13.DigitRunIs | src/day_13.rs:85-88 | the run ends exactly at the first character that is not a digit |
| Day13.NumberOf | src/day_13.rs:83-92 | a number parsed fits an `i64` and leaves a non-empty rest starting with a character that is not a digit |
| Day13.ExprOf | src/day_13.rs:94-100 | a parse consumes at least one character |
| Day13.ItemsOf | src/day_13.rs:101-112 | the list loop consumes at least one character |
| Day13.ShowStart | src/day_13.rs:94-100 | a printed packet starts with '[' or a digit, the two cases `parse_expr` tells apart |
| Day13.ExprOfShow | src/day_13.rs:94-112 | a printed packet is read back exactly, when a number is followed by a character that stops it |
| Day13.ItemsOfShow | src/day_13.rs:101-112 | printed items followed by ']' are read back and the rest returned |
| Day13.LastItemOfShow | src/day_13.rs:104-110 | the last item of a printed list is read and then its closing ']' |
| Day13.ItemStep | src/day_13.rs:105-108 | one item is read, then one ',' skipped |
| Day13.ParseStrictShow | src/day_13.rs:114-123 | the corrected parse reads every printed list back and rejects it once anything follows |
| Day13.ParseAcceptsTrailingChar | src/day_13.rs:114-123 | as written, `Parser::parse` accepts any one character after a packet |
| Day13.TrailingCharExample | src/day_13.rs:114-123 | "[1]x" reads as [1] as written, and is rejected by the corrected parse |
| Day13.Parser.constructor | src/day_13.rs:66-73 | the parser starts at the first character |
| Day13.Parser.ParseNumber | src/day_13.rs:83-92 | the loop reads `NumberOf` the rest of the line and leaves the position after the digits |
| Day13.Parser.ParseExpr | src/day_13.rs:94-100 | reads `ExprOf` the rest of the line |
| Day13.Parser.ParseList | src/day_13.rs:101-112 | reads `ItemsOf` the rest after '[' and leaves the position after ']' |
| Day13.Parser.ParseItem | src/day_13.rs:105-108 | one pass of the loop reads an item and one ',' and continues `ItemsOf` from there |
| Day13.Parse | src/day_13.rs:114-123 | `Parser::parse` returns `ParseLine`, the expression followed by at most one character |
| Day13.InsertSorted | src/day_13.rs:158-164 | `e` goes before the first element it is less than, or at the end; the result is a permutation of the old elements and `e`, and a sequence sorted pair by pair stays so |
| Day13.InsertKeepsSorted | src/day_13.rs:158-164 | placing `e` after elements at most it and before one above it keeps neighbours in order |
| Day13.FindPacket | src/day_13.rs:188-191 | the 1-based position of the first element comparing equal, None exactly when none does |
| Day13.IndexSumsPartition | src/day_13.rs:145-156 | each pair index is counted once, as in order, equal or out of order: the three sums make 1 + 2 + ... + n |
| Day13.SwappedInOrderSum | src/day_13.rs:140-142 | a pair is out of order exactly when it is in order once its packets are swapped |
| Day13.Packets | src/day_13.rs:180-187 | two packets per pair |
| Day13.PacketsGrow | src/day_13.rs:180-187 | the packets of one more pair come at the end |
| Day13.InsertPair | src/day_13.rs:181-186 | inserting a pair's two packets keeps a permutation and neighbours in order |
| Day13.SortPackets | src/day_13.rs:171-187 | the sequence built holds exactly the two dividers and all packets, neighbours in order |
| Day13.DividerProduct | src/day_13.rs:188-194 | both dividers are found, and the answer is the product of their first 1-based positions |
| Day13.DecoderKey | src/day_13.rs:166-195 | `part_2` sorts [[2]], [[6]] and every packet in, and multiplies the first positions of the dividers; the `expect`s never fail |
| Day14.Step | src/day_14.rs:26-44 | one step moves one unit (two for a diagonal) with y growing downwards; up and down keep x |
| Day14.DirOf | src/day_14.rs:46-54 | defined exactly for distinct points on one axis; the direction found is an axis direction and a step in it brings the point one unit nearer |
| Day14.DirOfStep | src/day_14.rs:81-88 | until the end is reached, a step towards it keeps the same direction |
| Day14.SegmentFacts | src/day_14.rs:82-88 | a segment has one point per unit of distance, each one step after the previous, and ends at the corner |
| Day14.PointsDefined | src/day_14.rs:76-91 | a path is drawable exactly when it has corners and consecutive corners are distinct and axis aligned |
| Day14.PointsShape | src/day_14.rs:76-91 | the points of a drawable path start and end at its ends, are each one step from the next, and pass through every corner |
| Day14.JoinSteps | src/day_14.rs:81-88 | joining two walks one step apart gives one walk |
| Day14.PointsNoneGrows | src/day_14.rs:81-82 | once a corner pair is not drawable, neither is any longer path |
| Day14.WalkSegment | src/day_14.rs:82-88 | the inner loop appends `Segment(current, end)` |
| Day14.PathPoints | src/day_14.rs:76-91 | `Path::points` returns `Points(path)` |
| Day14.LowestYFacts | src/day_14.rs:103-113 | `max_y` is at least 0, no rock lies below it, and it is 0 or the row of some rock |
| Day14.FallFacts | src/day_14.rs:126-148 | a grain rests with the cells below, down-left and down-right occupied, inside the cone below its start, above row `max_y + 3`, on a free cell unless it never moved |
| Day14.WalledFallRests | src/day_14.rs:122-148 | with the floor at `max_y + 2` every grain above it comes to rest |
| Day14.InRow | src/day_14.rs:126-148 | the cells of a row segment, exactly |
| Day14.InCone | src/day_14.rs:126-148 | the cells of the cone, exactly |
| Day14.RestInRegion | src/day_14.rs:126-148 | a grain from the entry (500, 0) rests within the columns `max_y + 2` of it, down to row `max_y + 2` |
| Day14.FallBounds | src/day_14.rs:128-144 | a grain rests below where it started, within one column per row |
| Day14.InRegion | src/day_14.rs:126-148 | the cells a grain can rest on, exactly |
| Day14.Shrinks | src/day_14.rs:145 | taking a free cell leaves fewer free cells |
| Day14.Settle | src/day_14.rs:150-157 | pouring only adds cells, and only cells grains can rest on |
| Day14.PourStep | src/day_14.rs:152-155 | a grain resting on a free cell takes it and the pour carries on to the same end |
| Day14.SandStep | src/day_14.rs:126-157 | one call of `simulate_one_sand`: a grain on a free cell adds one cell and keeps the pour's outcome; any other grain ends the pour |
| Day14.PourStop | src/day_14.rs:145-147 | a grain that falls out or lands on a taken cell ends the pour |
| Day14.WalledPourBlocksEntry | src/day_14.rs:166-170 | with the floor, the pour ends only once the entry (500, 0) is filled |
| Day14.Grid.constructor | src/day_14.rs:115-119 | the grid holds the rock, `max_y` and the mode |
| Day14.Grid.SimulateOneSand | src/day_14.rs:126-148 | drops one grain: true exactly when it rests on a free cell, which is then added; nothing else changes |
| Day14.Grid.SimulateAll | src/day_14.rs:150-157 | the cells become `Settle` of the old ones, and the count is the number of grains added |
| Day14.ParseGrid | src/day_14.rs:101-120 | every point of every path is rock and `max_y` is the lowest rock row; None exactly when a path cannot be drawn |
| Day14.AddRock | src/day_14.rs:107-113 | the inner loop adds a path's points and lowers `max_y` to them |
| Day14.AddPoint | src/day_14.rs:109-112 | one point more adds it to the rock and takes the larger row |
| Day14.AllPointsNoneGrows | src/day_14.rs:104-107 | once a path cannot be drawn, the whole input fails |
| Day15.Distance | src/day_15.rs:14-23 | the Manhattan distance, zero exactly for equal points |
| Day15.DistanceSymmetric | src/day_15.rs:14-23 | the distance does not depend on the order of the points |
| Day15.MakeSensor | src/day_15.rs:55-60 | a sensor's radius is the distance to its closest beacon |
| Day15.CoverMeaning | src/day_15.rs:63-74 | a column of the row is in the cover exactly when the sensor reaches it, and the cover exists exactly when the sensor reaches the row |
| Day15.BeaconCovered | src/day_15.rs:63-74 | a sensor's own beacon lies in its cover of the beacon's row |
| Day15.Range | src/day_15.rs:104 | the columns `first..last + 1`, exactly |
| Day15.CoveredMeaning | src/day_15.rs:90-112 | a column is counted exactly when it holds no beacon and some sensor reaches it |
| Day15.CoveredCount | src/day_15.rs:90-112 | `covered_count` returns the number of such columns |
| Day15.InsertRange | src/day_15.rs:104-108 | the inner loop adds the beacon-free columns of the cover |
| Day15.Covers | src/day_15.rs:124-130 | every cover collected is a non-empty range |
| Day15.CoversMeaning | src/day_15.rs:124-130 | a column lies in some collected cover exactly when some sensor reaches it |
| Day15.InsertByFirst | src/day_15.rs:131 | inserting keeps the covers ordered by first column and adds exactly one cover |
| Day15.SortByFirst | src/day_15.rs:131 | the covers ordered by first column, a permutation of them |
| Day15.Gap | src/day_15.rs:137-146 | the columns of a gap lie between its ends and hold no beacon |
| Day15.LineCandidatesUncovered | src/day_15.rs:132-148 | every column reported for a row holds no beacon, lies at or after the start, and outside every cover |
| Day15.RowPoints | src/day_15.rs:143 | the cells of row `y` at the reported columns |
| Day15.RowCandidatesUncovered | src/day_15.rs:116-148 | every column reported for row `y` is at least 0, holds no beacon, and no sensor reaches it |
| Day15.CandidatesUnfold | src/day_15.rs:116 | the rows from `y` on are row `y` then the later rows |
| Day15.CandidatesStep | src/day_15.rs:116-148 | one more row scanned extends what is recorded |
| Day15.ConcatShift | src/day_15.rs:116 | moving the first row onto what is done keeps the whole |
| Day15.RowPointsAppend | src/day_15.rs:137-146 | the cells of joined column lists are the joined cells |
| Day15.CandidatesDone | src/day_15.rs:150 | after every row, what was recorded is the answer |
| Day15.CandidatesUncovered | src/day_15.rs:114-151 | every reported cell lies in the rows asked for, at a column at least 0 that holds no beacon and that no sensor reaches |
| Day15.OnlySenderUncovered | src/day_15.rs:114-151 | the only cell found has a non-negative column and a row inside the searched square, and no sensor reaches it |
| Day15.CollectCovers | src/day_15.rs:124-130 | the loop collects `Covers` of the row |
| Day15.AsSeq | src/day_15.rs:115 | `only_result` holds at most one cell |
| Day15.GapSplit | src/day_15.rs:137 | a gap splits at any column between its ends |
| Day15.ScanGap | src/day_15.rs:137-146 | records the beacon-free columns of a gap, failing exactly at a second record |
| Day15.ScanLine | src/day_15.rs:132-148 | records the row's reported columns, failing exactly at a second record |
| Day15.ScanRow | src/day_15.rs:118-148 | one row: beacons, sorted covers and the scan, failing exactly at a second record |
| Day15.FindOnlySender | src/day_15.rs:114-151 | the loop over the rows returns `OnlySender` |
| Day15.TuningDecodes | src/day_15.rs:159-163 | for a cell of the searched square the answer does not overflow a `u64` and gives back x and y |
| Day16.CaveSystem.constructor | src/day_16.rs:49-57 | parsing starts from an empty system with "AA" registered as valve 0, rate 0 and no tunnels |
| Day16.CaveSystem.GetIndex | src/day_16.rs:15-30 | a known name keeps its index and leaves the system unchanged; an unknown name is appended with rate 0 and no tunnels and gets the old count as index |
| Day16.Add | src/day_16.rs:15-30 | registering one name keeps every earlier name in place, contains exactly the earlier names and the new one, and keeps names distinct |
| Day16.Register | src/day_16.rs:61-71 | registering names one after another keeps every earlier name in place, contains exactly the earlier and the registered names, and keeps names distinct |
| Day16.CaveSystem.ApplyLine | src/day_16.rs:60-75 | one input line registers the valve and then its targets in order (`Register(Add(old names, name), targets)`), sets that valve's rate and keeps every other rate (new valves get 0), appends the targets' indices in order to that valve's tunnels and leaves every other tunnel list as it was, and leaves every row of the rebuilt matrix a shortest-distance row |
| Day16.CaveSystem.AddTunnels | src/day_16.rs:68-71 | the tunnel loop registers the targets in order, keeps every rate and every other valve's tunnels, and appends the targets' indices to the valve's tunnels (`TunnelsAdded`) |
| Day16.CaveSystem.AddTunnel | src/day_16.rs:69-70 | one target is registered and its index appended to the valve's tunnels; nothing else changes but the registration |
| Day16.TunnelsStep | src/day_16.rs:69-70 | appending the index of one more registered target keeps the valve's tunnel list the old list followed by the targets' indices, in order, even after more names were registered |
| Day16.TunnelsAddedStep | src/day_16.rs:68-71 | one more iteration of the tunnel loop keeps the loop's relation between the state before the line and the current state |
| Day16.CaveSystem.RebuildDistances | src/day_16.rs:72-75 | after resetting the matrix to the 9999 sentinel and relaxing from every source, every row is 0 at its source, relaxed along every tunnel and witnessed by walks |
| Day16.CaveSystem.FindShortestPaths | src/day_16.rs:32-35 | only the source's row changes; its diagonal is 0, entries only go down, every changed entry is relaxed and every finite entry is the length of a walk |
| Day16.CaveSystem.RecFindPath | src/day_16.rs:37-46 | the relaxation terminates (the row's sum strictly drops before each recursive call), only lowers entries, leaves every entry it changes relaxed and keeps every finite entry witnessed by a walk |
| Day16.RelaxedRowBoundsWalks | src/day_16.rs:37-46 | a relaxed row with 0 at the source is at most the length of every walk from the source, so with walk witnesses each entry is a shortest distance |
| Day16.ExtendWalk | src/day_16.rs:40-43 | lowering the entry of a tunnel's target to one more than a walk's length keeps the row witnessed by walks |
| Day16.StepKeepsRelaxed | src/day_16.rs:40-44 | one turn of the loop over tunnels keeps every changed entry relaxed and leaves the explored valve at most `len + 1` |
| Day16.RowSumDecreases | src/day_16.rs:41-43 | strictly lowering one entry strictly lowers the row's sum, the measure under which the relaxation terminates |
| Day16.LinksValidPush | src/day_16.rs:68-70 | adding a tunnel to a known valve keeps every tunnel pointing at a valve that exists |
| Day16.CountLeftZero | src/day_16.rs:148-150 | the count of candidate valves is zero exactly when no valve is closed with a positive rate |
| Day16.NextMinute | src/day_16.rs:165-167 | a move advances the clock by at least one minute and never past the 30-minute deadline |
| Day16.CaveSystem.FindMaxFlow | src/day_16.rs:94-100 | the answer is the best leaf of the search from "AA" at minute 0 with every valve closed |
| Day16.CaveSystem.RecFindMaxFlow | src/day_16.rs:138-185 | the running maximum becomes the larger of its old value and the best leaf under this node, and `is_open` and `history` are restored |
| Day16.CaveSystem.TryMove | src/day_16.rs:163-182 | a closed valve with a positive rate is moved to, opened, searched from and closed again; any other valve leaves the maximum as it was |
| Day16.BestMoveCoversChild | src/day_16.rs:163-182 | the search's value is at least the value of every candidate move |
| Day16.BestFloor | src/day_16.rs:151-155 | the search never does worse than letting the current flow run until the deadline |
| Day16.BestCeiling | src/day_16.rs:151-182 | no leaf beats the current flow plus the rate of every closed valve run for all remaining minutes |
| Day16.ClosedRatesOpen | src/day_16.rs:172-173 | opening a closed valve moves its rate from the closed total into the flow |
| Day16.BestBeatsEveryPlan | src/day_16.rs:138-185 | the search is exhaustive: no order of opening valves yields more total flow |
| Day16.BestMoveAttained | src/day_16.rs:138-185 | the best move over the first k valves is 0 when none of them is a candidate, and otherwise equals the value of some candidate's branch |
| Day16.ChildBeatsEveryPlan | src/day_16.rs:163-180 | a plan that opens a candidate valve first yields no more than the search's branch for that valve |
| Day16.BestAttained | src/day_16.rs:138-185 | the search's value is attained: some order of opening valves yields exactly that total flow, so with BestBeatsEveryPlan it is the maximum over all plans |
| Day16.ChildAttained | src/day_16.rs:163-180 | some plan that opens the given candidate valve first yields exactly the value of that branch of the search |
| Day17.ParseRock | src/day_17.rs:29-42 | a template's points are exactly its '#' cells, the last line being row 0, listed bottom row first and left to right |
| Day17.RowsBelowFacts | src/day_17.rs:31-40 | the points read from the lines below row `y` are '#' cells below `y`, include every such cell, and come in reading order |
| Day17.RawMove | src/day_17.rs:44-48 | every point of the rock moves by the offset, and moving back by the opposite offset restores the rock |
| Day17.ShiftKeepsOrder | src/day_17.rs:44-48 | moving a rock keeps its points in reading order |
| Day17.Chamber.constructor | src/day_17.rs:65-88 | a parsed chamber holds the templates and the left/right jets, an empty floor with highest row -1, and empty histories |
| Day17.Chamber.NextRock | src/day_17.rs:90-98 | the current template placed two units from the left wall and three empty rows above the highest rock; the template index advances cyclically |
| Day17.Chamber.NextDirection | src/day_17.rs:100-104 | the current jet, one step left or right; the jet index advances cyclically |
| Day17.Chamber.TryMove | src/day_17.rs:106-122 | the rock moves exactly when every moved point is inside the walls, not below the floor and not on a taken cell; otherwise it stays |
| Day17.Push | src/day_17.rs:130 | a jet push leaves the rock where it was or moves it by the jet |
| Day17.FallFrom | src/day_17.rs:126-134 | (where a rock rests) the resting rock has as many points as the falling one, and the next jet index is in range |
| Day17.FallRests | src/day_17.rs:126-134 | from where `FallFrom` leaves the rock a step down is blocked, and a rock that fits where it starts still fits there |
| Day17.MaxRowMeaning | src/day_17.rs:139-141 | the highest row after marking is at least the old one and every row of the rock, and is one of them |
| Day17.MarkOne | src/day_17.rs:136-140 | marking one point takes its cell, adds at most the row just above the top, and changes no other cell |
| Day17.MarkShape | src/day_17.rs:135-144 | after marking, rows still have the chamber's width, the top row is the highest of the old top and the rock's rows, and every point lies inside the walls and the rows |
| Day17.MarkCells | src/day_17.rs:135-144 | after marking, a cell is taken exactly when it was taken before or holds a point of the rock |
| Day17.Chamber.DropRock | src/day_17.rs:124-148 | the rock rests exactly where `FallFrom` puts it, starting from the placed template with the current jet, and the jet index becomes the one after the last jet used; a step down from there is blocked; the cells, highest row and histories are then those `Settled` describes (as `Mark` and `MaxRow` give them); `ok` is false exactly where the source panics (no templates, no jets, or a cell the marking loop cannot index) |
| Day17.Chamber.NextFall | src/day_17.rs:125-134 | the template index moves on, the rock rests where `FallFrom` puts it from the placed template, and a step down from there is blocked |
| Day17.Chamber.FallRock | src/day_17.rs:126-134 | the push-and-fall loop ends with the rock and jet index `FallFrom` gives |
| Day17.Chamber.Settle | src/day_17.rs:133-145 | the marking loop fails exactly where `Mark` is None; otherwise the cells become `Mark` of the old ones, the highest row becomes `MaxRow` of the old one and the rock, and the growth and jet index are appended to the histories |
| Day17.Chamber.TowerHeight | src/day_17.rs:213-217 | after dropping `count` rocks the histories have grown by `count`, and the tower height `heighest + 1` is the sum of the recorded growths, at least the old height |
| Day17.Chamber.CheckForCycle | src/day_17.rs:182-207 | a result is reported only right after a full round of templates with at least 21 rounds recorded; it is the smallest positive whole number of rounds back at which the last 20 rounds of growth and jets recur, and no result means no whole round back recurs |
| Day17.Chamber.LookBack | src/day_17.rs:191-204 | stepping back one round at a time finds the nearest recurring start, or shows that none fits |
| Day18.NeighboursMeaning | src/day_18.rs:23-57 | the six neighbours are exactly the cubes one unit step away, all distinct, and being a neighbour is symmetric |
| Day18.Extent | src/day_18.rs:73-78 | the minimum and maximum of a non-empty list of coordinates occur in it and bound every entry |
| Day18.MakeMap | src/day_18.rs:71-88 | a map exists exactly when at least one cube was read (an empty input panics at `min().unwrap()`) |
| Day18.MakeMapMeaning | src/day_18.rs:71-88 | the map holds exactly the cubes read, all inside its box, and each of the six sides of the box touches a cube |
| Day18.ListSurfaces | src/day_18.rs:90-100 | the result lists exactly the (cube, neighbour) pairs whose neighbour is not a cube, each once, at most six per cube |
| Day18.CountSurfaces | src/day_18.rs:102-104 | the surface area is the number of uncovered faces, at most six per cube |
| Day18.AddZSides | src/day_18.rs:111-124 | adds exactly the cells just below and just above the box within its x and y extent |
| Day18.AddYSides | src/day_18.rs:125-138 | adds exactly the cells just in front of and just behind the box within its x and z extent |
| Day18.AddXSides | src/day_18.rs:139-152 | adds exactly the cells just left and just right of the box within its y and z extent |
| Day18.BoundingBox | src/day_18.rs:106-154 | the result is exactly the one-cell shell around the six sides of the box, and no cell of it is on the map |
| Day18.CheckPoint | src/day_18.rs:178-193 | each cube next to the cell adds one counted face, and each neighbour on the map that is not a cube and not checked joins the next round |
| Day18.CheckRound | src/day_18.rs:173-195 | after a round the checked cells grow by the round, the counted faces are the cube faces next to checked cells, and every step from a newly checked cell leads to a checked cell or one queued for the next round |
| Day18.CountOuterSurfaces | src/day_18.rs:165-200 | the exterior surface is the number of cube faces touched by steam reaching from outside the box, and is at most the total surface area |
| Day18.VisitPoint | src/day_18.rs:173-194 | one cell of a round keeps the round invariant: checked cells are the earlier ones plus the cells visited so far, the counted faces are exactly the block faces next to checked cells, and every queued cell is an open cell of the box reachable from outside |
| Day18.RoundKeeps | src/day_18.rs:172-198 | each round keeps every queued or checked cell reachable from outside and either checks a new cell of the widened box or ends the search, so the flood terminates |
| Day18.FloodResult | src/day_18.rs:172-199 | when nothing is left to check, the checked cells are exactly the outside-reachable cells and the counted faces are exactly the outer faces |
| Day18.RouteEnds | src/day_18.rs:172-198 | a set holding the shell and closed under steam steps holds every cell steam reaches from outside |
| Day18.FlipBound | src/day_18.rs:182-188 | every outer face, turned round, is a face listed by part 1, so there are no more outer faces than faces |
| Day19.Add | src/day_19.rs:32-41 | the element-wise sum, which covers both operands |
| Day19.Sub | src/day_19.rs:43-52 | the element-wise difference, defined only where no unsigned counter would go below zero; adding the subtrahend back gives the original |
| Day19.MinusPlus | src/day_19.rs:32-52 | taking away what was added gives back the original stock |
| Day19.MaxRequired | src/day_19.rs:94-101 | each element of the result is the largest cost in that element over all actions, 0 when none costs it |
| Day19.ParseBlueprint | src/day_19.rs:76-107 | a blueprint exists exactly when the six cost tokens at positions 6, 12, 18, 21, 27 and 30 are present and numeric; its robots come geode first and its maximum costs are the per-element maxima |
| Day19.RobotsWellFormed | src/day_19.rs:78-93 | each of the four robots raises exactly its own production counter by one |
| Day19.CanApply | src/day_19.rs:131-138 | an action can be applied exactly when the stock covers its cost in every element |
| Day19.Apply | src/day_19.rs:139-142 | the cost is paid without underflow and the production is raised by the robot |
| Day19.Search.constructor | src/day_19.rs:154-159 | a search starts with the blueprint, the time available and a best-so-far of 0 |
| Day19.Search.TimeStep | src/day_19.rs:164-176 | one minute of production; at the deadline the geode stock raises the best-so-far and the branch stops, otherwise the best-so-far is unchanged |
| Day19.Search.ShouldEventuallyApply | src/day_19.rs:178-190 | an action is rejected exactly when it needs a non-geode element nobody produces or raises a non-geode production that already matches the largest cost in it |
| Day19.Search.MaxPossibleGeodes | src/day_19.rs:192-202 | the bound is the geode stock plus the remaining minutes times production plus a triangular number, as if a geode robot were added every minute |
| Day19.TriClosedForm | src/day_19.rs:196-200 | twice 0 + 1 + ... + (n - 1) is n(n - 1) |
| Day19.Await | src/day_19.rs:229-236 | waiting for an action either reaches the deadline or builds the robot strictly later and before the deadline |
| Day19.AwaitBound | src/day_19.rs:229-237 | waiting and building never raise the bound |
| Day19.ExploreBound | src/day_19.rs:192-242 | no leaf below a state has more geodes than its bound, so pruning with it is sound |
| Day19.Search.FindMaxGeodes | src/day_19.rs:204-242 | the pruned search raises the best-so-far to the maximum of its old value and the unpruned search's best leaf |
| Day19.Run | src/day_19.rs:153-162 | the result is the best leaf of the full search from one ore robot at minute 0, at most the triangular bound of the time available |
| Day20.EncryptedFile.constructor | src/day_20.rs:12-15 | the numbers in file order and the identity arrangement, which is valid |
| Day20.EncryptedFile.FindPosition | src/day_20.rs:34-39 | the first slot holding the index; a valid arrangement always holds it, so the `expect` never fires |
| Day20.EncryptedFile.AsPosition | src/day_20.rs:41-44 | adding the length after Rust's truncating remainder yields the Euclidean remainder, a slot of the list |
| Day20.AsPositionEuclidean | src/day_20.rs:41-44 | `((p % len) + len) % len` with truncating remainders equals the Euclidean remainder of `p` |
| Day20.EndPosition | src/day_20.rs:46-57 | with at least two items the slot lies in 1..len-1 and differs from `start + item` by a multiple of `len - 1`; with fewer the remainder by zero panics |
| Day20.EndPositionFacts | src/day_20.rs:49-54 | the two reductions bring any position into 1..m while changing it by a multiple of m |
| Day20.EncryptedFile.MoveRight | src/day_20.rs:59-64 | slots start+1..end shift one towards the front and the item lands in slot `end` |
| Day20.EncryptedFile.MoveLeft | src/day_20.rs:66-71 | slots end..start-1 shift one towards the back and the item lands in slot `end` |
| Day20.ShiftedRightShape | src/day_20.rs:59-64 | moving right takes the item out of its slot and reinserts it at `end`, keeping the others in order: a rearrangement |
| Day20.ShiftedLeftShape | src/day_20.rs:66-71 | moving left takes the item out of its slot and reinserts it at `end`, keeping the others in order: a rearrangement |
| Day20.EncryptedFile.MoveItem | src/day_20.rs:73-88 | a zero stays put, any other item moves to its end position; the arrangement stays valid and the move fails only for a nonzero item in a one-item file |
| Day20.MovedArrangement | src/day_20.rs:73-88 | a move keeps every index exactly once |
| Day20.EncryptedFile.MixStep | src/day_20.rs:91-94 | one turn of the mixing loop moves the next item or fails the whole round |
| Day20.EncryptedFile.MoveAll | src/day_20.rs:90-95 | one mixing round moves every item once in file order and keeps the arrangement valid |
| Day20.MixedArrangement | src/day_20.rs:90-95 | a full mixing round leaves a valid arrangement of the same length |
| Day20.EncryptedFile.GetItem | src/day_20.rs:97-99 | the number at a circular position, counted from slot 0, is one of the file's numbers |
| Day20.EncryptedFile.GetItemPeriodic | src/day_20.rs:97-99 | positions one whole length apart hold the same number |
| Day20.EncryptedFile.ApplyDecryptionKey | src/day_20.rs:112-116 | every number is multiplied by the key and the arrangement is unchanged |
| Day22.RotationFacts | src/day_22.rs:45-70 | the two rotations undo each other, four of either is no turn, and a right turn adds one to the facing modulo 4 |
| Day22.FacingInjective | src/day_22.rs:63-70 | different directions have different facings |
| Day22.ToFacing | src/day_22.rs:63-70 | the facing is one of 0..3 |
| Day22.FirstColFrom | src/day_22.rs:86-90 | the first column from `col` on where the row is on the map, with no map cell before it |
| Day22.LastColBelow | src/day_22.rs:92-97 | the last column below `end` where the row is on the map, with no map cell after it |
| Day22.FirstRowFrom | src/day_22.rs:99-103 | the first row from `row` on where the column is on the map, with no map cell before it |
| Day22.LastRowBelow | src/day_22.rs:105-110 | the last row below `end` where the column is on the map, with no map cell after it |
| Day22.NeighbourFacts | src/day_22.rs:112-148 | from a map cell the neighbour is always a map cell: the adjacent one when that is on the map, otherwise the far end of the same column or row, beyond which nothing is on the map |
| Day22.GoFacts | src/day_22.rs:205-229 | from a map cell a step never panics and ends on a map cell; a turn keeps the cell, a forward step keeps the direction and either moves onto an open tile or stays before a wall |
| Day22.WalkStaysOnMap | src/day_22.rs:231-237 | a walk that starts on the map never panics and stays on the map |
| Day22.PasswordDecodes | src/day_22.rs:250-252 | while the column is below 249 the password determines the 1-based row, the column and the facing |
| Day22.ParseRow | src/day_22.rs:11-18 | a parsed row has one tile per character, each the tile of that character; any other character panics |
| Day22.ParseMap | src/day_22.rs:74-80 | the map has one parsed row per line |
| Day22.ParseShowMoves | src/day_22.rs:173-197 | reading a written path gives each number as that many forward steps, each followed by its turn |
| Day22.TurnAfterNumber | src/day_22.rs:177-188 | a turn letter closes a pending number and is recorded after its forward steps |
| Day22.NumberStepsShow | src/day_22.rs:179-181 | a printed count within `i32` reads back as that many forward steps |
| Day22.PushForwards | src/day_22.rs:179-181 | pushing forward steps one at a time appends exactly `n` of them |
| Day22.ReadPath | src/day_22.rs:173-197 | the path loop computes the recursive reading of the line, including its panics on a bad number |
| Day22.Solver.constructor | src/day_22.rs:198-202 | a solver starts with the given tiles, position and path |
| Day22.Solver.GoStep | src/day_22.rs:205-229 | the position becomes the result of the step, and the call fails exactly when the step would panic |
| Day22.Solver.Run | src/day_22.rs:231-237 | the position becomes the end of the walk over the whole path, and the call fails exactly when some step would panic |
| Day22.ParseSolver | src/day_22.rs:165-203 | a solver exists exactly when the map parses with a map cell in row 0 and the path parses; it starts facing right on the first map cell of the top row |
| Day22.StartOnMap | src/day_22.rs:168-172 | the start cell is on the map, so the whole walk succeeds |
| Day24.MovedFacts | src/day_24.rs:35-66 | a blizzard keeps its direction and moves only along it; one inside the walls stays inside, its coordinate advancing by one modulo the interior length |
| Day24.WrapForward | src/day_24.rs:52-63 | stepping down or right moves one cell on, and from the last interior cell back to the first |
| Day24.WrapBackward | src/day_24.rs:38-49 | stepping up or left moves one cell back, and from the first interior cell to the last |
| Day24.MoveAll | src/day_24.rs:34-67 | every blizzard is moved on its own, the number of blizzards is unchanged, and the whole move fails if one of them panics |
| Day24.MoveAllInterior | src/day_24.rs:34-67 | blizzards all inside the walls never panic, stay inside and keep their directions |
| Day24.MoveAllNone | src/day_24.rs:34-67 | a failed move has a blizzard whose own move panics |
| Day24.CandidatesNear | src/day_24.rs:159-171 | the cells tried from a position are exactly those at most one step away |
| Day24.NextMeaning | src/day_24.rs:149-172 | a cell is possible next exactly when it is free of walls and blizzards and at most one step from a cell possible now |
| Day24.Advance | src/day_24.rs:146-172 | one iteration advances the clock by one and keeps the number of blizzards |
| Day24.SearchFirst | src/day_24.rs:142-180 | the answer is the time of the first iteration after which the target is possible, and more iterations do not change it |
| Day24.SearchFinds | src/day_24.rs:142-180 | when the target is possible after some iteration within the bound, the search answers, and no later than that iteration |
| Day24.RowBlizzardsMeaning | src/day_24.rs:77-98 | a row yields a blizzard exactly for each arrow in it, at the arrow's cell and in its direction |
| Day24.BlizzardsInMeaning | src/day_24.rs:76-99 | the map yields a blizzard exactly for each arrow drawn on it |
| Day24.ScanRow | src/day_24.rs:77-98 | the loop over a row's characters collects that row's blizzards in order |
| Day24.Solver.constructor | src/day_24.rs:102-110 | a solver starts at time 0 with only the start (1, 0) possible and the goal at (width - 2, height - 1) |
| Day24.Solver.MoveBlizzards | src/day_24.rs:34-67 | the blizzards are replaced by their moved copies, and the call fails exactly when one of the moves would underflow |
| Day24.Solver.NextPositions | src/day_24.rs:149-171 | the positions loop computes exactly the possible positions of the next minute |
| Day24.Solver.InsertCandidates | src/day_24.rs:159-171 | one possible cell adds exactly its free candidates |
| Day24.Solver.InsertOne | src/day_24.rs:159-171 | one candidate cell added to the next positions keeps them the free cells among the candidates handled so far |
| Day24.Solver.MaybeInsert | src/day_24.rs:150-158 | a cell is added exactly when it is neither a wall cell other than the start and the goal nor under a blizzard |
| Day24.Solver.Tick | src/day_24.rs:146-172 | one iteration of the loop is one step of the world: clock, blizzards, then positions |
| Day24.Solver.Run | src/day_24.rs:142-180 | the result is `Search` of the starting world: by `SearchFirst` an answer is the time of the first iteration after which the target is possible, and by `SearchFinds` there is an answer whenever the target becomes possible within the iteration bound |
| Day24.ParseSolver | src/day_24.rs:69-113 | a solver exists exactly when the map has a first line of at least two cells; its size, start, goal and blizzards come from the lines |
| Day25.SnafuToNum | src/day_25.rs:5-19 | a number exists exactly when every character is a SNAFU digit, and it is the string's balanced base-five value |
| Day25.ValuePrepend | src/day_25.rs:7-17 | a digit written in front weighs five to the power of the number of digits behind it |
| Day25.DigitFor | src/day_25.rs:29-36 | the digit emitted for a remainder has value minus the correction, and the correction makes the number divisible by five |
| Day25.NumToSnafu | src/day_25.rs:21-42 | the string reads back as the number, is "0" for zero and otherwise has no leading '0' |
| Day25.RemainderAgrees | src/day_25.rs:28 | `((x % 5) + 5) % 5` with Rust's truncating remainder is the Euclidean remainder |
| Day25.ExactDivision | src/day_25.rs:38-39 | after the correction the truncating division by five is exact |
| Day25.SnafuStep | src/day_25.rs:27-40 | one loop step keeps the emitted digits plus the number left over equal to the input, and strictly shrinks the number, so the loop terminates |
| Day25.Finished | src/day_25.rs:41 | with nothing left over, the reversed digits are a canonical string for the input |
| Day25.ValueRange | src/day_25.rs:5-19 | a SNAFU string of length n has magnitude at most (5^n - 1) / 2 |
| Day25.SameLengthUnique | src/day_25.rs:5-19 | equally long SNAFU strings with equal values are equal |
| Day25.CanonicalUnique | src/day_25.rs:21-42 | canonical strings with equal values are equal, so encoding a decoded canonical string gives it back |
| Day25.LongerIsLarger | src/day_25.rs:5-19 | a string with a non-zero leading digit has a different value from every shorter string |

## Left out

- File reading and printing are not modelled. This covers `read_lines`, `read_blocks` and `read_int_blocks` (src/util.rs:2-10, 39-54), `src/main.rs`, every `run`/`part_*` wrapper that reads a file or prints, and the debug printers of days 11, 16, 17 and 24. The models start from the lines or blocks those helpers would return.
- src/day_21.rs is not modelled. All its arithmetic is `f64`, and part 2 is a floating-point bisection.
- src/day_23.rs is not modelled: its logic is `todo!()`.
- Machine-word overflow is not modelled. Counters, sums and coordinates are unbounded `int`/`nat`. This covers the `i32` sums of days 1, 2 and 4, the `u32`/`i32` rope coordinates of day 9, and the unreduced part-1 worries of day 11. It also covers the `i32` coordinates of days 17, 18 and 22, the `u8` height plus one of day 12, the `usize` subtraction of day 7 and the `i64` values of day 25.
- `HashSet`/`HashMap` iteration order is not modelled. Where the source takes "the first" element of an intersection (day 3) or walks a map (day 7), the model states the property of every element, or uses an order-independent total.
- Util.Tokenize: splits at the ASCII whitespace characters (space, tab, line feed, vertical tab, form feed, carriage return). Rust's `split_whitespace` also splits at the other Unicode `White_Space` characters; those do not occur in the puzzle inputs.
- Day03: the item types are ASCII letters; the byte-slicing of the Rust string is modelled on characters.
- Day06.DetectMeaning: works on characters, while the source indexes the line's bytes (`as_bytes`). The two agree on ASCII input, which the puzzle input is; on other input a window of bytes is not a window of characters.
- Day06: the `part_1`/`part_2` wrappers that trim and unwrap the input line are left out; the marker search itself is modelled.
- Day08: the queries require every row to be at least as long as the first (`Covers`); on a ragged grid the source indexes out of range and panics.
- Day11: `Monkey::parse` text munging and the fixed 20- and 10000-round drivers are left out; the model starts from parsed monkeys and proves the rounds.
- Day11.Monkeys.MakeTurn: requires that the monkey does not throw to itself, which the source does not demand. With a self-throw the source's loop may never end (an item whose worry keeps sending it back to the same monkey), though it can also end (with relief, worry 3 under `old + 3` and divisor 2 goes back once, then moves on). Such monkeys are excluded because a turn must be shown to end, and the model gives no answer for them.
- Day11.Monkeys.RunRound: requires that no monkey throws to itself, for the same reason; so do `Turn`, `Round` and the lemmas about them (`TurnFacts`, `RoundFromFacts`, `RoundFacts`).
- Day12: the breadth-first search carries a `fuel` bound, because the source loops forever when the end cannot be reached. It also requires a rectangular grid with the start inside it; on other grids the source may index out of range and panic.
- Day13.InsertSorted: keeps only the order of neighbours (`AdjacentSorted`), because transitivity of `Compare` is not proved.
- Day13.SortPackets: states neighbour order only, for the same reason.
- Day13: `PacketPair::parse` over blocks is left out; the packet parser is modelled line by line.
- Day14: `Path::parse` text splitting is left out; `Grid::parse` takes the parsed paths.
- Day15: `SensorData::parse` and `SensorMap::parse` text munging are left out; sensors are built from coordinates.
- Day15.FindOnlySender: the result is sound (an uncovered cell of the square), but not proved complete. The scan looks only at gaps between sorted covers, never past the last cover, exactly as the source does.
- Day15.OnlySenderUncovered: soundness only, for the same reason. The column is bounded below by 0 but not above by `max_xy`: the source scans each gap up to the start of the next cover, which may lie past the square, and so may the reported column.
- Day16: only the single-agent search with 30 minutes is modelled. `find_max_two_threads` calls a function that does not exist under that name, and the defined copy ignores its second agent. The token extraction of the valve lines (`split_whitespace`, stripping `rate=`, `;` and `,`) is left out; `CaveSystem.ApplyLine` takes the valve name, its rate and its target names.
- Day17: the part 2 extrapolation to 10^12 rocks in `run` is left out; the cycle detection it relies on is modelled.
- Day18: `Point3D::parse` text splitting is left out.
- Day19.Run: requires at least one minute. With no time the source never stops: the minute is incremented before it is compared with the time available, so the comparison never holds.
- Day19: the commented-out cache, the debug `history` field and the quality-sum and product driver in `run` are left out.
- Day20: `find_zero` and `get_coordinates` (used only for printing) are left out. The unit tests of src/day_20.rs expect states that `move_right` and `move_item` do not produce, so no property is taken from them.
- Day24.Solver.Run: carries an iteration bound, because the source loops forever when the target is never reached.
- Day24: positions are not proved to stay inside the grid. The wall test does not reject rows below the bottom, and after restarting from the goal such cells can enter the set of positions.

## Findings

| source | as written | input that shows it | evidently intended | confidence | as-written member | corrected member |
|---|---|---|---|---|---|---|
| src/day_13.rs:114-123 | `Parser::parse` reads one packet, consumes one more character and only then checks that the input has ended, so one trailing character is accepted | the line `[1]x` parses as `[1]` | a line parses only when nothing follows the packet | not executed | Day13.ParseAcceptsTrailingChar, Day13.TrailingCharExample | Day13.ParseStrictShow |
| src/day_04.rs:18-20 | `assign_contains` compares the ends the wrong way round (`assign.end() <= sub.end()`) | 2-8 holds all of 3-7 but the test fails; 2-3 passes the test against 3-7 | `assign` starts no later and ends no earlier than `sub` | not executed | Day04.AssignContainsIsNotContainment, Day04.CountContainingAsWritten, Day04.AsWrittenCounts | Day04.ContainsMeaning, Day04.CountContaining |
