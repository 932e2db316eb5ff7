# Advent of Code 2025, days 1–4 and 6, in Dafny

This project models the puzzle solvers of the Rust repository `adventofcode` (2025 edition) in Dafny
and proves what each solver computes. Each day's `main.rs` reads a puzzle input, parses it,
and folds it into one number. The model covers these days:

- **Day 1 — the safe dial** (`dial.dfy`, module `Dial`). A dial with positions 0–99 starts at 50.
  Each line `L<n>` or `R<n>` turns it left or right by n clicks. `count_zeros` adds up how many
  times the pointer lands on or passes position 0. The model proves that the closed-form count in
  the source (`abs(raw) / 100`, plus one when crossing from a non-zero position) equals a
  click-by-click count of landings on zero.
- **Day 2 — doubled ids** (`doubles.dfy`, module `Doubles`). The input holds comma-separated ranges
  `low-high`. `find_doubles` adds every number in each range whose decimal text is some digit
  string written twice (`is_double`). A range whose two ends have the same odd length is skipped
  without being parsed. A parse failure ends the whole run with an `InvalidData` error.
- **Day 3 — battery joltage, two versions.**
  - `joltage_sift.dfy` (module `JoltageSift`) models `day3_v2`. `sift` keeps a window of the last
    n digits and walks the line from right to left, pushing each earlier digit in front when it
    is at least the window's first digit. This proves that the window ends up as the
    lexicographically largest n-digit subsequence (`Subsequences.Best`), so its value is the
    largest n-digit number the line contains in order.
  - `joltage_tree.dfy` (module `JoltageTree`) models `day3`. It is a tree of candidate digit
    paths, pruned after every insertion, whose answer is the leftmost deepest path. The model
    proves:
    - the tree's shape and ordering invariants;
    - the depth bookkeeping;
    - that every path is a subsequence of the inserted digits.

    So the tree's answer is never larger than the day-3 v2 optimum.
- **Day 4 — paper rolls on a grid** (`forklift.dfy`, module `Forklift`). The lines become one
  row-major vector of `Option<Point>`, with `@` marking a roll, plus a map from every cell to
  `Some(0)` or `None`. A roll can be removed when fewer than four of its eight neighbours hold
  a roll. Part 1 is the number of removable rolls.
- **Day 6 — the math worksheet** (`worksheet.dfy`, module `Worksheet`). All lines but the last
  are operand rows. The last line holds `+`/`*` operators. Each operator takes the next run of
  columns that are not all blanks.
  - Part 1 reads each row of a block as a number.
  - Part 2 reads each column of a block as a number.

  The model proves:
  - the operator-line round trip;
  - that each equation is exactly a maximal run of columns;
  - that part 2 is part 1 applied to the transposed blocks.

Several modules are shared:

- `Options` holds the `Option` datatype.
- `Digits` holds decimal values of digit lists, together with the `iter().rev().enumerate()`
  conversion loop shared by day 3 and day 6.
- `Text` holds:
  - Rust's whitespace set, with `trim` and `split_whitespace`;
  - `char::to_digit(10)`;
  - `i64::from_str`;
  - `to_string`.
- `Subsequences` holds order-preserving subsequences and dictionary order.

Loops in the source are `method`s with loop invariants, each proved equal to a specification
function. The day-3 tree is a `class Tree` whose `root` field `insert` replaces. The day-3 v2
window is an `array` rotated in place by `PushInto`.

## Model

| member | source | states |
|---|---|---|
| Digits.ValueAppend | 2025/day3_v2/src/main.rs:34-39 | the value of a concatenation is the value of the front times 10^(length of the back) plus the value of the back |
| Digits.ValueFront | 2025/day6/src/main.rs:79-81 | the first of n digits weighs 10^(n-1): the value is ds[0]·10^(n-1) plus the value of the rest |
| Digits.ValueBounds | 2025/day6/src/main.rs:77-83 | n decimal digits have a value in [0, 10^n) |
| Digits.ValueLeading | 2025/day2/src/main.rs:26 | n digits with a non-zero leading digit are worth at least 10^(n-1) |
| Digits.FromDigits | 2025/day3_v2/src/main.rs:34-39 | the loop that adds digit i from the right times 10^i returns exactly the decimal value of the list |
| Text.SkipWhitespace | 2025/day6/src/main.rs:32 | returns the first non-whitespace position at or after `from`, with only whitespace skipped |
| Text.SkipToken | 2025/day6/src/main.rs:32 | returns the end of the maximal run of non-whitespace starting at `from` |
| Text.TrimStart | 2025/day4/src/main.rs:22 | the result is no longer than the input and does not start with whitespace |
| Text.TrimEnd | 2025/day4/src/main.rs:22 | the result is no longer than the input and does not end with whitespace |
| Text.TrimStartDrops | 2025/day4/src/main.rs:22 | trim_start removes exactly a prefix made only of whitespace |
| Text.TrimEndKeeps | 2025/day4/src/main.rs:22 | trim_end keeps a prefix and removes only whitespace after it |
| Text.TrimIsSlice | 2025/day2/src/main.rs:9 | trim returns the slice s[lo..hi] between whitespace-only margins, with no whitespace at either end, and is empty only for all-whitespace input |
| Text.TrimIdempotent | 2025/day4/src/main.rs:22 | trimming twice is trimming once |
| Text.TrimToken | 2025/day6/src/main.rs:32-33 | trimming a split_whitespace token changes nothing |
| Text.SplitWhitespace | 2025/day6/src/main.rs:31-32 | every token is non-empty and contains no whitespace |
| Text.SplitAtEnd | 2025/day6/src/main.rs:31-32 | split_whitespace yields no tokens once the whole line has been consumed |
| Text.NonWhitespaceAppend | 2025/day6/src/main.rs:31-32 | deleting whitespace distributes over concatenation |
| Text.SplitWhitespaceKeepsText | 2025/day6/src/main.rs:31-32 | the tokens, concatenated, are exactly the non-whitespace characters of the line in order |
| Text.SkipWhitespaceUnique | 2025/day6/src/main.rs:31-32 | a whitespace run that stops at a non-whitespace character or the end is exactly what is skipped before a token |
| Text.SkipTokenUnique | 2025/day6/src/main.rs:31-32 | a whitespace-free run that stops at whitespace or the end is exactly one token |
| Text.SplitAt | 2025/day6/src/main.rs:31-32 | when a token is left, split_whitespace yields it and goes on after it |
| Text.SkippedIsBlank | 2025/day6/src/main.rs:31-32 | what is skipped before a token is whitespace only |
| Text.BlankSplits | 2025/day6/src/main.rs:31-32 | an all-whitespace rest of the line yields no tokens |
| Text.LayoutSkipsGap | 2025/day6/src/main.rs:31-32 | in tokens laid out between whitespace gaps, the first gap is what is skipped |
| Text.LayoutTokenEnd | 2025/day6/src/main.rs:31-32 | in such a layout, the first token is followed by whitespace or the end of the line |
| Text.LayoutSkipsToken | 2025/day6/src/main.rs:31-32 | in such a layout, the first token is exactly the first maximal non-whitespace run |
| Text.LayoutStep | 2025/day6/src/main.rs:31-32 | in such a layout, split_whitespace yields the first token and continues at the rest of the layout |
| Text.LayoutSplits | 2025/day6/src/main.rs:31-32 | whitespace-free tokens separated by non-empty whitespace gaps are exactly what split_whitespace returns |
| Text.SplitIsLayout | 2025/day6/src/main.rs:31-32 | every line is its split_whitespace tokens laid out between whitespace gaps, non-empty between two tokens, so the tokens are the maximal non-whitespace runs |
| Text.Utf8Width | 2025/day2/src/main.rs:10 | a character takes one to four UTF-8 bytes, and exactly one when it is ASCII |
| Text.Utf8Length | 2025/day2/src/main.rs:10 | str::len counts between one and four bytes per character |
| Text.Utf8LengthAscii | 2025/day2/src/main.rs:10 | the byte length equals the character count exactly when every character is ASCII |
| Text.DigitsUtf8Length | 2025/day2/src/main.rs:10 | a digit string's byte length is its number of digits |
| Text.DigitChar | 2025/day2/src/main.rs:26 | the character for a digit below 10 is a decimal digit |
| Text.ToDigit | 2025/day6/src/main.rs:91 | to_digit(10) succeeds exactly on '0'..'9' and returns the digit that character spells |
| Text.DigitValues | 2025/day6/src/main.rs:89-92 | filter_map(to_digit) keeps only digits, never lengthens the line, and keeps every character of an all-digit line in order |
| Text.ParseNatIsValue | 2025/day2/src/main.rs:14-23 | parsing a digit string gives the decimal value of its digits |
| Text.ParseNatLeading | 2025/day2/src/main.rs:14-23 | a digit string with a non-zero leading digit parses to a positive number |
| Text.NatToString | 2025/day2/src/main.rs:26 | to_string of a number is never empty |
| Text.NatToStringCanonical | 2025/day2/src/main.rs:26 | to_string has no leading zero except for "0" itself |
| Text.ParseDigitsIsParseNat | 2025/day2/src/main.rs:14-23 | the digit parser succeeds exactly on all-digit strings and agrees with the decimal value |
| Text.ParseSigned | 2025/day2/src/main.rs:14-23 | a string with a leading sign parses exactly when the rest is digits, negated for '-' |
| Text.ParseUnsigned | 2025/day2/src/main.rs:14-23 | a string without a sign parses exactly when it is non-empty digits |
| Text.ParseIntAccepts | 2025/day2/src/main.rs:14-23 | parse::<i64> accepts exactly optional-sign-then-digits, and digit strings parse to their value |
| Text.NatToStringValue | 2025/day2/src/main.rs:26 | to_string of n is canonical and parses back to n |
| Text.CanonicalRoundTrip | 2025/day2/src/main.rs:26 | a canonical digit string is the to_string of its own value |
| Text.NatToStringLengthMono | 2025/day2/src/main.rs:10-13 | a larger number never has shorter decimal text |
| Text.IntRoundTrip | 2025/day2/src/main.rs:26 | every i64 printed with to_string parses back to itself |
| Subsequences.SubseqRefl | 2025/day3_v2/src/main.rs:20-40 | a line is a subsequence of itself |
| Subsequences.SubseqTrans | 2025/day3_v2/src/main.rs:20-40 | subsequences compose |
| Subsequences.SubseqLength | 2025/day3_v2/src/main.rs:20-40 | a subsequence is never longer, and one of full length is the line itself |
| Subsequences.SubseqDigits | 2025/day3_v2/src/main.rs:20-40 | a subsequence of a digit line is a digit line |
| Subsequences.LexTotal | 2025/day3_v2/src/main.rs:28-31 | dictionary order on equal-length digit lists is total |
| Subsequences.LexAntisym | 2025/day3_v2/src/main.rs:28-31 | dictionary order is antisymmetric |
| Subsequences.LexTrans | 2025/day3_v2/src/main.rs:28-31 | dictionary order is transitive |
| Subsequences.LexMaxUpper | 2025/day3_v2/src/main.rs:28-31 | the larger of two lists bounds both and is one of them |
| Subsequences.Best | 2025/day3_v2/src/main.rs:20-40 | the reference choice of n digits from a line has length n |
| Subsequences.BestIsSubseq | 2025/day3_v2/src/main.rs:20-40 | the reference choice takes digits of the line in their order |
| Subsequences.BestIsMax | 2025/day3_v2/src/main.rs:20-40 | no n-digit subsequence comes after the reference choice in dictionary order |
| Subsequences.LexValue | 2025/day3_v2/src/main.rs:34-39 | for equal-length digit lists, dictionary order implies value order |
| Dial.ParseMoveRoundTrip | 2025/day1/src/main.rs:8-11 | a move printed as direction letter plus distance parses back to the same move |
| Dial.Turn | 2025/day1/src/main.rs:13-21 | the new position is cur+mv taken modulo 100 with rem_euclid, always in 0..99 |
| Dial.ClicksUp | 2025/day1/src/main.rs:17-18 | turning right n clicks from p lands on zero (p+n)/100 − p/100 times |
| Dial.ClicksDown | 2025/day1/src/main.rs:15-16 | turning left n clicks from p lands on zero (p−1)/100 − (p−n−1)/100 times |
| Dial.ZeroPassesCountsClicks | 2025/day1/src/main.rs:12-19 | the closed-form zero_passes of one move equals the number of single clicks that land on 0 |
| Dial.PassesCountsClicks | 2025/day1/src/main.rs:6-23 | the running total of zero_passes over all moves equals the total click count |
| Dial.PassesPrefix | 2025/day1/src/main.rs:22 | the answer over a prefix of the moves never exceeds the answer over all of them |
| Dial.PassesSnoc | 2025/day1/src/main.rs:13-22 | one more move adds its own zero_passes from the current position and turns the dial |
| Dial.Offsets | 2025/day1/src/main.rs:6-11 | every line yields one signed offset |
| Dial.CountZeros | 2025/day1/src/main.rs:3-25 | starting at 50, the loop returns the total zero passes, which is also the click-by-click count |
| Doubles.PairsMatchIsEquality | 2025/day2/src/main.rs:38-44 | the zip loop over both halves succeeds exactly when the halves are equal |
| Doubles.IsDoubleIff | 2025/day2/src/main.rs:34-45 | is_double holds exactly for even-length text whose two halves are equal; odd lengths are never doubles |
| Doubles.FindFrom | 2025/day2/src/main.rs:54 | a found position lies in the searched part of the text |
| Doubles.FindFromFirst | 2025/day2/src/main.rs:54 | the search returns the first occurrence of the character, or None when there is none |
| Doubles.SplitOnceFirst | 2025/day2/src/main.rs:53-56 | split_once cuts at the first dash: the low part has no dash, and the high part is everything after it |
| Doubles.SplitOnceSplits | 2025/day2/src/main.rs:53-56 | split_once fails exactly when there is no dash, and otherwise low + "-" + high is the input |
| Doubles.SplitOnceUnique | 2025/day2/src/main.rs:53-56 | any split with a dash-free low part is the one split_once returns |
| Doubles.TotalFailsFromPrefix | 2025/day2/src/main.rs:14-23 | once a chunk fails to parse, the whole run returns InvalidData |
| Doubles.NoOddDoubles | 2025/day2/src/main.rs:10-13 | a range whose ends have the same odd number of digits contains no double |
| Doubles.SkipIsSound | 2025/day2/src/main.rs:9-29 | for canonical ends, skipping a chunk gives the same total as parsing it and summing its doubles |
| Doubles.SumDoubles | 2025/day2/src/main.rs:25-29 | the inner loop adds exactly the doubles in low..=high |
| Doubles.ChunkSum | 2025/day2/src/main.rs:9-29 | one chunk contributes its trimmed range's doubles, or zero when both ends have the same odd length in UTF-8 bytes, or InvalidData |
| Doubles.NonAsciiIsParsed | 2025/day2/src/main.rs:10 | the skip test counts bytes, so "é-1" (two bytes against one) is not skipped and fails to parse |
| Doubles.AddChunk | 2025/day2/src/main.rs:6-29 | adding one chunk extends the running total, and an error fails the whole run |
| Doubles.FindDoubles | 2025/day2/src/main.rs:3-32 | find_doubles returns the total over all chunks, or InvalidData after the first unparsable one |
| JoltageSift.Push | 2025/day3_v2/src/main.rs:25-33 | one step keeps the window length |
| JoltageSift.FirstRise | 2025/day3_v2/src/main.rs:28-31 | the position where a swap chain stops lies inside the window |
| JoltageSift.RemoveAt | 2025/day3_v2/src/main.rs:28-31 | removing one entry shortens the window by one |
| JoltageSift.PushShape | 2025/day3_v2/src/main.rs:25-33 | a digit below the window's first is dropped; otherwise it goes in front and the first entry that rises to its successor leaves |
| JoltageSift.PushFront | 2025/day3_v2/src/main.rs:28 | after a step the window's first digit never gets smaller |
| JoltageSift.RemoveAtSubseq | 2025/day3_v2/src/main.rs:28-31 | removing an entry leaves a subsequence |
| JoltageSift.Drop | 2025/day3_v2/src/main.rs:28-31 | dropping the first rise shortens a list by one |
| JoltageSift.DropAboveTail | 2025/day3_v2/src/main.rs:28-31 | dropping the first rise is at least as large as dropping the first entry |
| JoltageSift.DropBest | 2025/day3_v2/src/main.rs:28-31 | dropping the first rise from the best n digits gives the best n−1 digits |
| JoltageSift.PushBest | 2025/day3_v2/src/main.rs:25-33 | one step on the best window of a suffix gives the best window of the suffix one digit longer |
| JoltageSift.PushBestAbove | 2025/day3_v2/src/main.rs:27-31 | a digit at least the best window's first, in front of the best n−1, is at least as large as the best n |
| JoltageSift.SiftFrom | 2025/day3_v2/src/main.rs:21-33 | the window from any starting position has length n |
| JoltageSift.SiftFromSubseq | 2025/day3_v2/src/main.rs:21-33 | the window is always a subsequence of the suffix walked so far |
| JoltageSift.SiftFrontGrows | 2025/day3_v2/src/main.rs:27-28 | walking one more digit never lowers the window's first digit |
| JoltageSift.SiftFromIsBest | 2025/day3_v2/src/main.rs:21-33 | the window after walking a suffix is the reference best choice of n digits of that suffix |
| JoltageSift.SiftedSubseq | 2025/day3_v2/src/main.rs:20-33 | the final window has n digits taken from the line in order |
| JoltageSift.SiftedIsLargest | 2025/day3_v2/src/main.rs:20-40 | no n-digit subsequence of the line has a larger value than the final window |
| JoltageSift.Sift | 2025/day3_v2/src/main.rs:20-40 | sift returns the value of the final window, the largest n-digit number in the line |
| JoltageSift.PushInto | 2025/day3_v2/src/main.rs:25-33 | the in-place swap loop on the array performs one window step |
| JoltageSift.SwapStep | 2025/day3_v2/src/main.rs:29-31 | one swap moves the carried digit one place to the right |
| JoltageTree.MaxDeepestIsMax | 2025/day3/src/main.rs:137-140 | the deepest-leaf maximum bounds every child and is reached by one |
| JoltageTree.MaxDeepestAtMost | 2025/day3/src/main.rs:137-140 | a common bound on the children bounds their maximum |
| JoltageTree.KeepReachingMembers | 2025/day3/src/main.rs:144-155 | retain keeps exactly the children that reach the bound |
| JoltageTree.KeepReachingDeepest | 2025/day3/src/main.rs:144-155 | retain keeps the deepest-leaf maximum when it reaches the bound |
| JoltageTree.MaxDeepestCons | 2025/day3/src/main.rs:137-140 | the maximum over a child list is the larger of the first child's depth and the rest's maximum |
| JoltageTree.KeepReachingDescending | 2025/day3/src/main.rs:144-155 | retain keeps the children in descending value order |
| JoltageTree.PruneMembers | 2025/day3/src/main.rs:142-155 | pruning always keeps the first child and keeps exactly the others that reach at least its depth |
| JoltageTree.PruneDescending | 2025/day3/src/main.rs:62 | pruning keeps the children in descending value order |
| JoltageTree.PruneKeepsDeepest | 2025/day3/src/main.rs:142-156 | pruning never changes the deepest-leaf depth |
| JoltageTree.InsertKidsFrame | 2025/day3/src/main.rs:130-139 | the child loop keeps the number of children and their values, and leaves already-visited children alone |
| JoltageTree.LeafWellFormed | 2025/day3/src/main.rs:126-128 | a new leaf one level down is well formed |
| JoltageTree.InsertKeepsShape | 2025/day3/src/main.rs:121-157 | insertion keeps the tree well formed, and returns the new deepest depth, between the node's depth and the maximum |
| JoltageTree.WithLeafShape | 2025/day3/src/main.rs:125-129 | pushing a leaf in front keeps the children well formed and accounts for its depth |
| JoltageTree.InsertKidsKeepShape | 2025/day3/src/main.rs:130-139 | the child loop keeps every child well formed and returns the maximum of their depths |
| JoltageTree.InsertKeepsOrder | 2025/day3/src/main.rs:125-155 | insertion keeps every child list in descending value order and does not change the node's value |
| JoltageTree.WithLeafOrder | 2025/day3/src/main.rs:125-129 | a leaf is pushed in front only when its value tops the first child, keeping the order |
| JoltageTree.InsertKidsKeepOrder | 2025/day3/src/main.rs:130-139 | the child loop keeps every child sorted |
| JoltageTree.InsertFront | 2025/day3/src/main.rs:125-129 | a value above the first child becomes a new first leaf; otherwise the first child keeps its value |
| JoltageTree.InsertGrows | 2025/day3/src/main.rs:121-157 | insertion deepens the tree by exactly one level, up to the maximum depth |
| JoltageTree.InsertKidsGrow | 2025/day3/src/main.rs:130-140 | the child loop's depth lies between its start and any bound on the children's grown depths |
| JoltageTree.InsertChildShape | 2025/day3/src/main.rs:137-138 | one step of the child loop keeps the children well formed and grows that child by one level, up to the maximum |
| JoltageTree.UpdateWellFormed | 2025/day3/src/main.rs:133-135 | replacing one child by a well-formed node keeps the list well formed and changes nothing else |
| JoltageTree.InsertChain | 2025/day3/src/main.rs:121-157 | after inserting a digit, every root-to-leaf path is a subsequence of the digits inserted so far |
| JoltageTree.InsertedChildren | 2025/day3/src/main.rs:125-155 | below the maximum depth, the new children are the pruned result of the child loop over the list with the optional new leaf |
| JoltageTree.WithLeafChain | 2025/day3/src/main.rs:125-129 | the new front leaf holds the inserted digit, and the older children still come from the earlier history |
| JoltageTree.InsertKidsChain | 2025/day3/src/main.rs:130-139 | the child loop extends every child's history by the new digit |
| JoltageTree.ChildFromExtend | 2025/day3/src/main.rs:130-139 | a child built from a history stays so when the history grows |
| JoltageTree.ChainExtend | 2025/day3/src/main.rs:130-139 | a tree built from a history stays so when the history grows |
| JoltageTree.PlantedValid | 2025/day3/src/main.rs:23-28 | after inserting a line, the tree is well formed and sorted, its paths come from the line, and its depth is min(length, maximum) |
| JoltageTree.FirstComplete | 2025/day3/src/main.rs:168-175 | max follows the first child that reaches the maximum depth, or none when no child does |
| JoltageTree.PathLength | 2025/day3/src/main.rs:163-180 | the followed path never passes the maximum depth, and reaches it exactly when the node's deepest leaf does |
| JoltageTree.PathFromHistory | 2025/day3/src/main.rs:163-180 | the followed path is a subsequence of the inserted digits |
| JoltageTree.Answer | 2025/day3/src/main.rs:159-161 | the answer buffer has maxDepth entries |
| JoltageTree.TreeAnswerBound | 2025/day3/src/main.rs:23-34 | for a line at least maxDepth long, the answer is the full path, a subsequence of the line, and never larger than the day-3 v2 optimum |
| JoltageTree.Retain | 2025/day3/src/main.rs:142-155 | the retain loop computes the pruned child list |
| JoltageTree.InsertInternal | 2025/day3/src/main.rs:121-157 | the recursive method returns the inserted node and its deepest depth, as the specification function does |
| JoltageTree.MaxInternal | 2025/day3/src/main.rs:163-180 | the method writes the followed path into the buffer at the node's depth and leaves other entries alone |
| JoltageTree.Tree.constructor | 2025/day3/src/main.rs:111-115 | a new tree is a root leaf at depth 0 with the given maximum depth |
| JoltageTree.Tree.Insert | 2025/day3/src/main.rs:117-119 | insert replaces the root by the inserted tree and returns min(number inserted, maximum depth) |
| JoltageTree.Tree.Max | 2025/day3/src/main.rs:159-161 | max returns a fresh buffer holding the answer path |
| JoltageTree.ToNumber | 2025/day3/src/main.rs:29-34 | the conversion loop returns the decimal value of the buffer |
| JoltageTree.PlantedStep | 2025/day3/src/main.rs:24-27 | inserting one more digit of the line is one more tree insertion |
| JoltageTree.Plant | 2025/day3/src/main.rs:24-27 | the insertion loop builds the tree of the whole line |
| JoltageTree.Part1 | 2025/day3/src/main.rs:23-35 | part_1 returns the value of the tree's answer for the line |
| Forklift.EightCellsAreTheNeighbours | 2025/day4/src/main.rs:71-80 | EIGHT_CELLS lists each of the eight neighbour offsets exactly once |
| Forklift.TruncIsEuclid | 2025/day4/src/main.rs:94-98 | for non-negative indices, Rust's truncating / and % agree with Euclidean division |
| Digits.DivMod | 2025/day4/src/main.rs:114-122 | a row-major index w·y + x with x < w divides to y and leaves x |
| Forklift.GridRoundTrip | 2025/day4/src/main.rs:114-122 | from_index places index i at row i / w and column i % w, inside the width, and to_index maps it back to i |
| Forklift.IndexRoundTrip | 2025/day4/src/main.rs:114-122 | a point inside the width maps to w·y + x and back to itself |
| Forklift.ToGridInjective | 2025/day4/src/main.rs:23-33 | distinct cells get distinct points, so no map key is overwritten |
| Forklift.ValidateGrid | 2025/day4/src/main.rs:124-129 | validate_grid returns the point exactly when it lies inside height × width |
| Forklift.Points | 2025/day4/src/main.rs:23-33 | the point vector has one entry per trimmed cell |
| Forklift.PointsAt | 2025/day4/src/main.rs:23-33 | entry i is Some(from_index(i)) exactly when cell i is '@' |
| Forklift.RollsKeys | 2025/day4/src/main.rs:23-33 | the rolls map has exactly one key per cell |
| Forklift.RollsAt | 2025/day4/src/main.rs:26-32 | each cell's point maps to Some(0) for '@' and to None otherwise |
| Forklift.CountFrom | 2025/day4/src/main.rs:39-45 | counting from offset k finds at most the offsets that are left |
| Forklift.NeighbourCount | 2025/day4/src/main.rs:39-45 | at most eight neighbours are counted |
| Forklift.OccupiedStep | 2025/day4/src/main.rs:39-45 | the occupied offsets from k are those from k + 1, plus k when its neighbour holds a roll |
| Forklift.CountIsOccupied | 2025/day4/src/main.rs:39-45 | the count equals the number of in-grid neighbour offsets whose cell holds a roll |
| Forklift.Removal | 2025/day4/src/main.rs:37-49 | a cell is removable exactly when it holds a roll with fewer than four neighbouring rolls |
| Forklift.RemovesStep | 2025/day4/src/main.rs:35-51 | one more cell adds one removal when it is removable and none otherwise |
| Forklift.RemovesLength | 2025/day4/src/main.rs:35-51 | there are never more removals than cells |
| Forklift.RemovesMembers | 2025/day4/src/main.rs:35-51 | a point is in the removal list exactly when some cell makes it removable |
| Forklift.RemovableStep | 2025/day4/src/main.rs:35-51 | the set of removable cell indices below n grows by n−1 exactly when cell n−1 is removable |
| Forklift.RemovesCount | 2025/day4/src/main.rs:35-51 | the removal list has one entry per removable cell |
| Forklift.ReadRow | 2025/day4/src/main.rs:22-33 | reading one trimmed line extends the vector, the map and the running index by that line's cells |
| Forklift.ReadStep | 2025/day4/src/main.rs:24-32 | one more cell appends one entry and sets one map key |
| Forklift.CellsStep | 2025/day4/src/main.rs:22-23 | one more line appends its trimmed characters |
| Forklift.CellsPrefix | 2025/day4/src/main.rs:16-34 | the cells of the first k lines are never more than all the cells |
| Forklift.ReadGrid | 2025/day4/src/main.rs:11-34 | the reading loop produces the height, the first line's width, the point vector and the rolls map of all trimmed cells |
| Forklift.Forklift | 2025/day4/src/main.rs:7-61 | forklift with part_1 returns the length of the removal list, which is the number of cells holding a roll with fewer than four neighbouring rolls |
| Forklift.RowFits | 2025/day4/src/main.rs:114-117 | a point inside the grid has an index below the cell count |
| Forklift.CellsLength | 2025/day4/src/main.rs:22-34 | equal-width trimmed lines give width × height cells |
| Forklift.RectangularCell | 2025/day4/src/main.rs:114-117 | in a rectangular grid, index w·y + x holds the character at column x of line y |
| Forklift.RectangularReachable | 2025/day4/src/main.rs:42-43 | in a rectangular grid of non-blank lines, every neighbour lookup stays inside the vector, so the source never panics there |
| Worksheet.ParseOperator | 2025/day6/src/main.rs:33-37 | an operator is recognised only when the trimmed token is exactly its symbol |
| Worksheet.OperatorsOf | 2025/day6/src/main.rs:31-38 | the operator line parses exactly when every token is "+" or "*", giving one operator per token in order |
| Worksheet.OperatorLine | 2025/day6/src/main.rs:31-38 | a printed operator line has two characters per operator |
| Worksheet.OperatorLineAt | 2025/day6/src/main.rs:31-38 | the printed line holds each symbol followed by a blank |
| Worksheet.SplitStep | 2025/day6/src/main.rs:32 | a one-character token followed by one blank splits off on its own |
| Worksheet.SymbolIsToken | 2025/day6/src/main.rs:33-35 | the operator symbols `+` and `*` are not whitespace while a blank is, so split_whitespace separates them |
| Worksheet.OperatorLineStep | 2025/day6/src/main.rs:31-32 | from the k-th symbol, split_whitespace yields that symbol alone and carries on after its blank |
| Worksheet.SymbolTokensFrom | 2025/day6/src/main.rs:31-35 | the tokens of the operators from k on are the k-th symbol followed by those of the rest |
| Worksheet.SplitOperatorLine | 2025/day6/src/main.rs:31-32 | split_whitespace of a printed operator line gives the symbols one by one |
| Worksheet.SymbolTokensParse | 2025/day6/src/main.rs:33-37 | the symbol tokens parse back to the operators |
| Worksheet.ParseOperatorLine | 2025/day6/src/main.rs:31-38 | parsing a printed operator line gives back the operators |
| Worksheet.SliceIsColumn | 2025/day6/src/main.rs:60-75 | next_slice is None exactly past the first row's end or on an all-blank column, and otherwise returns that column top to bottom |
| Worksheet.NextSlice | 2025/day6/src/main.rs:60-75 | the loop over the rows computes next_slice |
| Worksheet.RunEnd | 2025/day6/src/main.rs:45-50 | a run ends at or after its start, and within the first row unless it is empty |
| Worksheet.RunEndIsMaximal | 2025/day6/src/main.rs:45-50 | every column of a run has a slice, and the column that ends it has none |
| Worksheet.BlockIsSlice | 2025/day6/src/main.rs:44-48 | a block holds, for every row, that row's characters across the run |
| Worksheet.Equations | 2025/day6/src/main.rs:41-56 | there is one equation per operator |
| Worksheet.EquationsStep | 2025/day6/src/main.rs:43-56 | the first operator takes the run at the current index, and the rest start one column after it |
| Worksheet.EquationsTail | 2025/day6/src/main.rs:49-56 | equation k > 0 is equation k−1 of the remaining operators, read from the column after the first run |
| Worksheet.EquationsShaped | 2025/day6/src/main.rs:43-56 | equation k carries operator k and one row of characters per operand line, all of one width |
| Worksheet.EquationsAreRuns | 2025/day6/src/main.rs:42-56 | equation k is operator k applied to the maximal run that starts where run k−1 ended |
| Worksheet.EquationAt | 2025/day6/src/main.rs:42-56 | equation k takes the maximal run from its start column s and is built with operator k |
| Worksheet.StartShift | 2025/day6/src/main.rs:49-51 | for k > 0, run k starts where run k−1 starts when counting from the column after the first run |
| Worksheet.PushColumn | 2025/day6/src/main.rs:46-48 | pushing a slice appends its j-th character to row j |
| Worksheet.BlockSnoc | 2025/day6/src/main.rs:46-49 | widening a block by one column appends that column to every row |
| Worksheet.TakeRun | 2025/day6/src/main.rs:44-51 | the while loop collects the run's block and stops one column past the run |
| Worksheet.ReadLines | 2025/day6/src/main.rs:25-40 | every line but the last is an operand row, and the last line gives the operators |
| Worksheet.Group | 2025/day6/src/main.rs:41-56 | the operator loop builds the equations from column 0 |
| Worksheet.Math | 2025/day6/src/main.rs:17-58 | math returns the equations of the operand rows and the operator line |
| Worksheet.ToInt | 2025/day6/src/main.rs:77-83 | to_int returns the decimal value of the digits, below 10^(number of digits) |
| Worksheet.Values | 2025/day6/src/main.rs:89-96 | each digit list becomes its decimal value, in order |
| Worksheet.ApplySnoc | 2025/day6/src/main.rs:95-96 | folding one more number adds it for '+' and multiplies by it for '*' |
| Worksheet.Fold | 2025/day6/src/main.rs:95-96 | the fold returns the sum or the product of the numbers' values |
| Worksheet.Part1 | 2025/day6/src/main.rs:86-100 | part_1 adds up every equation applied to its rows read as numbers |
| Worksheet.ReadColumns | 2025/day6/src/main.rs:106-115 | the nested loops read each column's digits top to bottom |
| Worksheet.ReadColumn | 2025/day6/src/main.rs:108-113 | the inner loop collects exactly the digits of one column, top to bottom, skipping spaces |
| Worksheet.Part2 | 2025/day6/src/main.rs:103-122 | part_2 adds up every equation applied to its columns read as numbers |
| Worksheet.TransposeTwice | 2025/day6/src/main.rs:107-115 | transposing a rectangular block twice gives the block back |
| Worksheet.ColumnsAreTransposedRows | 2025/day6/src/main.rs:107-115 | reading columns is reading the rows of the transposed block |
| Worksheet.TransposeAll | 2025/day6/src/main.rs:103-115 | transposing keeps one equation per equation |
| Worksheet.Part2IsTransposedPart1 | 2025/day6/src/main.rs:86-122 | the part-2 total is the part-1 total of the transposed worksheet |
| Worksheet.Part1IsTransposedPart2 | 2025/day6/src/main.rs:86-122 | on rectangular operand blocks, the part-1 total is the part-2 total of the transposed worksheet |
| Worksheet.Total1Append | 2025/day6/src/main.rs:88-97 | the total over two lists of equations is the sum of their totals |
| Worksheet.EquationsReadable | 2025/day6/src/main.rs:44-56 | every equation math builds has non-empty, rectangular operands, so part_2 can index them |

## Left out

- Days 5 and 7 are not part of this model.
- Day 4 `part_2` is not modelled, because it returns the constant 10 as written. `Forklift.Forklift`
  composes `forklift` with `part_1` instead of taking the `part` function argument. In the same
  way, `Worksheet.Math` is followed by `Worksheet.Part1` or `Worksheet.Part2`.
- Input comes from `include_str!` files. The model leaves out reading them, the `BufRead` line
  and comma splitting, UTF-8 decoding errors of day-2 chunks, the `main` functions and their
  output, and the `Display`/`Default` impls. Each operation takes the lines, or the chunks,
  as a sequence of strings.
- The joltage line drivers `joltage` (day 3, lines 10-21; day 3 v2, lines 7-18) are not
  modelled. They trim each line and call `to_digit(10).unwrap()`. The model starts from the
  digit list of one line.
- The panicking paths are preconditions, not Results:
  - `expect`/`unwrap` in day 1;
  - `split_once("-").unwrap()` in day 2 (`HasDash`, required only of the chunks the run reaches);
  - the unknown operator `panic!` in day 6 (`Operators(lines).Some?`).
  Day 2's `parse::<i64>` errors are returned as `io::Error` in the source, and are modelled as
  the `InvalidData` outcome.
- Fixed-width integer overflow is not modelled. Dafny's integers are unbounded, and the puzzle
  inputs stay far from the limits. This covers the i32/i64/u64/usize arithmetic of days 1–4
  and 6, and the `as` casts.
- Dial.CountZeros: this does not model i64 overflow of the running total.
- Doubles.SkipIsSound: holds only for canonical decimal ends, with no sign and no leading
  zero. With ends like "011-099", the source's length test skips a range that contains
  doubles.
- Doubles.IsDouble: counts characters where `is_double` counts bytes with `x.len()`. It is only
  applied to `to_string` output, which is ASCII, so the two counts agree.
- JoltageTree: the answer is proved to be a subsequence of the line and never larger than
  the day-3 v2 optimum. That the tree answer always equals the optimum is not claimed: the
  source's own fourth test of that is disabled. Children are immutable `Node` values that each
  insertion rebuilds, not boxes mutated through `&mut`. Nothing in the source shares a child,
  so no aliasing is lost.
- Forklift: the model takes the width as the first untrimmed line's length in characters. The
  source's `line.len()` counts bytes. The two agree on ASCII input.
- Forklift.Forklift: requires every neighbour lookup to stay inside the point vector
  (`AllReachable`). The source panics otherwise, for example on a first line shorter than a
  later one, or on a zero width. `Forklift.RectangularReachable` proves that rectangular grids
  meet this. The rolls map is built and proved, but `part_1` never reads it.
- Worksheet.Math: requires every operand row to be at least as long as the first row. The
  source only needs this at the columns it visits, and panics on a shorter row there.
- Worksheet.ToInt: requires every term `10^i · digit` to fit in a u32 (`FitsU32`). The source
  computes in u32, and a larger term overflows, which panics in debug builds and wraps in
  release builds. The wrapped result is not modelled.
- Worksheet.Part1, Worksheet.Part2 and Worksheet.Fold: these inherit ToInt's u32
  precondition. The i64/u64 sums and products are unbounded here.
- The source's `#[test]` functions over the puzzle examples are not restated as Dafny lemmas.
  Evaluating the sample worksheet and grid symbolically is beyond what the verifier can do
  cheaply. The general lemmas above cover the properties those tests exercise.
