# Advent of Code 2023 solutions, modelled in Dafny

This project models the puzzle solutions of the Advent23 repository, one
Dafny module per day file `src/dN.rs`. Every day is an independent, pure
function from the lines of a puzzle input to a number, so every module is a
small functional core: immutable datatypes, total functions and, where the
solution works imperatively over a grid or a queue, short methods with loop
invariants. Three shared modules hold what several days need: `Wrappers`
(`Result` and `Option`), `Text` (splitting, trimming, number parsing and
printing, with their round trips) and `Collections` (sums over sequences,
the sorted keys of a set, least elements).

Conventions used throughout:

- A panic of the source (`unwrap`, `expect`, an out-of-range index, an
  `assert!`, an explicit `panic!`) becomes an `Err` or `None` result, and
  the contract says when it happens. A few members return `Err` on inputs
  where the source does not panic: a grid with a row shorter than the
  first in days 16 and 17, which the model refuses up front even when the
  search never reaches the missing cells, and the cases under "Left out"
  that name `Err`.
- Loops of the source that would not end on some inputs (a workflow cycle,
  a pulse network that never settles) run on a fuel parameter; running out
  of fuel is an `Err`.
- Integers are unbounded. Fixed-width behaviour is written out where the
  result depends on it: the 8-bit wrap of the day 15 HASH, the `as u16`
  truncation of day 19 thresholds, the byte arithmetic of day 17 heat
  digits, and the unsigned subtraction of day 6, which may not go below zero. The unsigned underflow of
  day 8 is recorded under Findings.
- Queues are sequences, and hash maps and sets are Dafny maps and sets.
  Where the source iterates over a hash map's keys (the start nodes of
  day 8, part 2), the iteration order is a parameter that must list every
  key once, and the result is stated for whatever order is given.

The days:

- Day 1 (`Calibration`): the first and last digit of a line, in digit mode
  and in spelled-word mode; `src/bin/d1/main.rs` is a textual copy and
  shares the model.
- Day 2 (`CubeGame`): parsing games of draws, the possibility test and the
  minimal cube set with its power.
- Day 3 (`Schematic`): symbols, numbers (whose running value doubles as the
  "inside a number" flag), part numbers and gear ratios.
- Day 4 (`Scratchcards`): card parsing, the doubling score and the copy
  propagation.
- Day 5 (`Almanac`): remap windows, the three-way split of a range, range
  mapping through a chain of mappings and range merging.
- Day 6 (`Races`): race distances, the count of winning choices and the
  kerned parse.
- Day 7 (`CamelCards`): card values, hand types with jokers and the total
  order on hands.
- Day 8 (`Wasteland`): the desert walk, cycle detection and the pairwise
  combination of cycles.
- Day 9 (`Predict`): extrapolation by repeated differences, forwards and
  backwards.
- Day 10 (`PipeMaze`): direction algebra, pipe and character conversions,
  start-pipe inference and the inside/outside flood fill.
- Day 11 (`Galaxies`): distances in an expanding universe.
- Day 12 (`Springs`): counting the spring arrangements that match the
  damaged-run lengths.
- Day 13 (`Mirrors`): lines of reflection, with and without one smudge.
- Day 14 (`ReflectorDish`): tilting, rotating, the spin cycle, the north
  load and the cycle skip.
- Day 15 (`LensLibrary`): the HASH fold and the 256-box lens table.
- Day 16 (`Beams`): mirrors and splitters and the energised-cell count.
- Day 17 (`Crucible`): the constrained-run successor relation and the
  cheapest-first search over it.
- Day 18 (`Lagoon`): dig plans in plain and colour form, the trench and
  the lagoon area.
- Day 19 (`Aplenty`): workflow rules over part ratings and the partition of
  the rating box.
- Day 20 (`Pulses`): the flip-flop and conjunction machine, button presses
  and the search for repeating patterns.
- Day 21 (`StepCounter`): the breadth-first search and the parity count of
  reachable plots.
- Day 22 (`SandSlabs`): bricks, settling and the chain reaction of
  removals.
- Day 23 (`LongWalk`): the trail graph, its compaction and the longest
  path.
- Day 24 (`Hailstones`): integer vectors, rays, exact division and the
  collision times of the thrown rock.
- Day 25 (`Snowverload`): the name cache, the wiring graph, node
  contraction and the Stoer–Wagner loop.

## Model

| member | source | states |
|---|---|---|
| Calibration.FirstDigit | src/d1.rs:35 | the first numeric character is found exactly when one exists, and no digit comes before it |
| Calibration.LastDigit | src/d1.rs:37 | the last numeric character is found exactly when one exists, and no digit comes after it |
| Calibration.DigitValue | src/d1.rs:34-38 | part 1 value is missing (the unwrap panics) exactly when the line has no digit; otherwise it is at most 99 |
| Calibration.DigitValueSpec | src/d1.rs:34-38 | for the first digit at i and the last at j the value is 10 * digit(i) + digit(j) |
| Calibration.SingleDigit | src/bin/d1/main.rs:38-42 | a line with a single digit d yields 11 * d |
| Calibration.LeastAt | src/d1.rs:17-29 | the earliest candidate in list order that occurs at an index; none exactly when no candidate occurs there |
| Calibration.ScanLoSpec | src/d1.rs:18-23 | the `find` pass ends at the smallest index where any word occurs (or the line length), and its value is that of the first listed word occurring there |
| Calibration.ScanHiSpec | src/d1.rs:24-29 | the `rfind` pass ends at the greatest index where any word occurs (or -1), and its value is that of the first listed word occurring there |
| Calibration.WordValue | src/d1.rs:2-32 | the part 2 value never exceeds 99 |
| Calibration.WordValueSpec | src/d1.rs:17-32 | with a first match at `first` and a last match at `last`, the value is 10 * value(first word) + value(last word) |
| Calibration.WordValueNoMatch | src/d1.rs:3-32 | a line where no word occurs yields 0 (both accumulators keep their initial 0) |
| Calibration.TwoneExample | src/d1.rs:17-32 | overlapping words are both seen: "twone" yields 21 |
| Calibration.ExtractValue | src/bin/d1/main.rs:5-44 | with words allowed the value always exists and equals the word scan; without words it is the digit value |
| Calibration.Run | src/d1.rs:42-47 | the sum exists exactly when every line has a value, always with words allowed, and is at most 99 per line |
| Calibration.RunAppend | src/bin/d1/main.rs:46-51 | the sum over a concatenation of inputs is the sum of the two sums |
| CubeGame.Possible | src/d2.rs:21-28 | a game is possible exactly when every drawn set fits within the maximum in all three colours |
| CubeGame.MinimumSet | src/d2.rs:69-80 | the required set covers every drawn set and each colour is 0 or attained by some draw |
| CubeGame.MinimumSetIsLeast | src/d2.rs:21-28 | a game is possible under a maximum exactly when its minimum set fits within that maximum (part 1 and part 2 agree) |
| CubeGame.ParsePart | src/d2.rs:42-49 | a parsed part changes at most one colour of the set |
| CubeGame.ParsePartOk | src/d2.rs:42-49 | a part parses exactly when it splits at a space into a number and one of "red", "green", "blue" |
| CubeGame.PartRoundTrip | src/d2.rs:42-47 | a printed part " n colour" parses back to setting that colour to n |
| CubeGame.SetRoundTrip | src/d2.rs:38-51 | a printed set naming all three colours parses back to the same counts |
| CubeGame.SetsRoundTrip | src/d2.rs:37-52 | printed sets parse back, one by one, to the same sets |
| CubeGame.ParsePartsSpec | src/d2.rs:41-50 | after a set's parts each colour holds the count of the last part naming it, or its initial value |
| CubeGame.UnnamedColourIsZero | src/d2.rs:38-51 | a colour that no part of a set names is 0 |
| CubeGame.ParseSets | src/d2.rs:37-52 | one set per `;`-separated piece, each parsed on its own |
| CubeGame.ParseGame | src/d2.rs:31-54 | a game parses only when the line has a `:`, and has one set per `;`-separated piece after it |
| CubeGame.GameParses | src/d2.rs:31-54 | "Game ", a number, ':' and sets that parse give the game with that id and those sets |
| CubeGame.GameRoundTrip | src/d2.rs:31-54 | a printed game with at least one set parses back to the same game (the inverse of parsing) |
| CubeGame.ParseGames | src/d2.rs:58-60 | one game per line, each parsed on its own |
| CubeGame.Run | src/d2.rs:56-85 | fails exactly when some line fails to parse; part 1 sums ids of games possible with 12 red, 13 green, 14 blue; part 2 sums the powers of the minimum sets |
| CubeGame.SumPossibleBounds | src/d2.rs:57-63 | the part 1 answer never exceeds the sum of all ids and equals it when every minimum set fits in the bag |
| Schematic.ParseSymbols | src/d3.rs:3-13 | the map holds exactly the cells that are neither a digit nor '.', each with its character |
| Schematic.ParseSymbolsMap | src/d3.rs:3-13 | any map with that membership and those characters is the reference symbol map of the schematic |
| Schematic.RunEnd | src/d3.rs:28-35 | the end of a digit run: every column before it is a digit and the column at it is not (or the row ends) |
| Schematic.SkipZeros | src/d3.rs:30-32 | the running value stays 0 over leading zeros, so a number starts at the first non-zero digit of a run |
| Schematic.ScanInRun | src/d3.rs:28-52 | inside a run the scan emits one number from its start to the run end, valued by its digits, then continues as the reference reading |
| Schematic.ScanOutside | src/d3.rs:26-53 | the row scan of `parse_numbers` equals the run-by-run reference reading from any column where no number is open |
| Schematic.RunsLeadingZero | src/d3.rs:30-34 | a leading '0' contributes nothing: the reading from it equals the reading from the next column |
| Schematic.LineNumbersAreRuns | src/d3.rs:25-53 | the numbers of a row are its maximal digit runs with leading zeros dropped, in order |
| Schematic.RunsShape | src/d3.rs:36-51 | every number lies on its row, inside the line, starts with a non-zero digit, covers only digits, ends at a non-digit or the line end, and has a positive value equal to its digits |
| Schematic.NonZeroLeading | src/d3.rs:33-34 | a digit string starting with a non-zero digit has a positive value |
| Schematic.RunsSkip | src/d3.rs:35-43 | columns without digits add no numbers |
| Schematic.SingleRun | src/d3.rs:115-139 | a row with one digit run not starting with '0' yields exactly that number, as in the "123" and "..123.." tests |
| Schematic.HasSymbolNeighbour | src/d3.rs:64-78 | the neighbour search finds a symbol exactly when one lies in the box around the number |
| Schematic.Part1 | src/d3.rs:61-80 | the part 1 total is the sum of the numbers that have an adjacent symbol |
| Schematic.GearOfTwo | src/d3.rs:91-102 | when exactly two numbers touch a cell, its ratio is the product of those two numbers |
| Schematic.GearOfOne | src/d3.rs:91-95 | when one number touches a cell, its ratio is that number's value |
| Schematic.GearOfNone | src/d3.rs:95 | a cell no number touches keeps the initial ratio 1 |
| Schematic.Run | src/d3.rs:57-107 | part 1 is the sum over numbers next to a symbol; part 2 sums, over '*' cells with exactly two adjacent numbers, the product of those numbers |
| Scratchcards.ParseNumbers | src/d4.rs:21-27 | one number per non-empty space-separated word of the trimmed text |
| Scratchcards.ParseNumbersShow | src/d4.rs:21-27 | printing numbers space-separated and parsing them back gives the same numbers |
| Scratchcards.ParseCard | src/d4.rs:10-18 | a card parses only when the line has a `:`, at least five characters before it, and a `|` after it |
| Scratchcards.PaddedNumbers | src/d4.rs:21-27 | printed numbers with a space on either side, or only before, still parse back to the same numbers, and hold no `|` |
| Scratchcards.CardRoundTrip | src/d4.rs:10-18 | a printed card (id, winning numbers, `|`, held numbers) parses back to the same id and the same two lists (the inverse of parsing) |
| Scratchcards.ParseCards | src/d4.rs:32-33 | one card per line, each parsed on its own |
| Scratchcards.Matches | src/d4.rs:62-67 | the match count is at most the numbers held; 0 exactly when none is winning; all exactly when every one is |
| Scratchcards.Pow2 | src/d4.rs:37-41 | the doubling score never drops below 1 once started |
| Scratchcards.CardScore | src/d4.rs:34-43 | the start-at-1-then-double loop yields the score of the card's match count |
| Scratchcards.ScoreNext | src/d4.rs:36-42 | one more match turns score 0 into 1 and doubles any other score |
| Scratchcards.Part1 | src/d4.rs:30-46 | the part 1 total is 0 exactly when no card has a matching number, and no card scores more than the total |
| Scratchcards.Part1Append | src/d4.rs:31-46 | the part 1 total of two runs of cards is the sum of their totals |
| Scratchcards.MatchMap | src/d4.rs:50-54 | the card map is keyed by exactly the ids of the parsed cards |
| Scratchcards.AddCopies | src/d4.rs:72-77 | adding c copies to the next m ids fails (index panic) exactly when one of them is unknown, and otherwise adds c to exactly those ids |
| Scratchcards.Ones | src/d4.rs:58 | every known id starts with one copy |
| Scratchcards.PropagateOk | src/d4.rs:60-78 | the copy loop fails exactly when some card's winning range reaches past the known ids |
| Scratchcards.PropagateCopies | src/d4.rs:60-78 | when the loop succeeds, its total is the sum over cards of their copies by definition (one original plus the copies of every earlier card whose range reaches it) |
| Scratchcards.SumCopiesAtLeast | src/d4.rs:69-70 | every card counts at least its original copy |
| Scratchcards.PropagateAllOk | src/d4.rs:55-78 | from sorted ids and one copy each, the loop succeeds exactly when the card map is closed under winning ranges |
| Scratchcards.CopyLoop | src/d4.rs:55-78 | visiting the sorted ids with one copy each fails exactly when some winning range reaches past the known ids, and otherwise totals the copy counts by definition, at least one per card |
| Scratchcards.Part2 | src/d4.rs:47-80 | part 2 fails exactly when some card wins copies of an id no card has, and otherwise equals the sum of copies by definition and is at least the number of distinct cards |
| Scratchcards.Run | src/d4.rs:29-81 | the answer exists exactly when every line parses and, for part 2, the card map is closed; a part 1 answer is 0 exactly when no card matches, and a part 2 answer counts at least one copy per distinct card |
| Almanac.FromPairs | src/d5.rs:12-22 | pairing succeeds exactly when the count is even (the assert), giving one range (start, length) per consecutive pair |
| Almanac.Pairs | src/d5.rs:16-20 | the i-th range is built from the numbers at 2i and 2i+1 |
| Almanac.Singles | src/d5.rs:196-199 | in part 1 every seed number becomes a range of length 1 |
| Almanac.ApplyRange | src/d5.rs:37-44 | a slice inside the source range moves to the destination with the same length, value by value, and nothing else lands in the result |
| Almanac.SplitInputMap | src/d5.rs:46-61 | the three pieces tile the input in order: the first lies below the source range, the middle inside it, the last above it |
| Almanac.SplitCovers | src/d5.rs:46-61 | a value is in the input exactly when it is in one of the pieces, and the piece lengths add up to the input length |
| Almanac.SplitMiddle | src/d5.rs:53-58 | the middle piece is exactly the input values that the remap covers |
| Almanac.StepLength | src/d5.rs:93-106 | one remap pass keeps the total length: mapped plus left-over equals the input |
| Almanac.StepLeft | src/d5.rs:96-101 | the left-over values are exactly the input values the remap does not cover |
| Almanac.StepMapped | src/d5.rs:102-105 | the mapped output is exactly the translation of the covered input values |
| Almanac.ApplyRawLength | src/d5.rs:92-111 | the remaps together keep the total length of the ranges |
| Almanac.ApplyRawForward | src/d5.rs:86-111 | every input value appears in the output translated by the first remap covering it (or unchanged) |
| Almanac.ApplyRawBackward | src/d5.rs:86-111 | every output value is the translation of some input value |
| Almanac.Insert | src/d5.rs:122-126 | inserting into sorted ranges keeps them sorted by start and adds exactly one element |
| Almanac.Sort | src/d5.rs:122-126 | the ranges come out sorted by start and are a permutation of the input |
| Almanac.SortCovers | src/d5.rs:122-126 | sorting keeps the covered values |
| Almanac.MergeLoop | src/d5.rs:128-145 | the merge emits at least one range, the first starting at the current start |
| Almanac.MergeRanges | src/d5.rs:117-146 | merging yields nothing exactly when there is nothing to merge |
| Almanac.MergeLoopSeparated | src/d5.rs:129-144 | merged ranges are strictly increasing and separated by gaps |
| Almanac.MergeLoopCovers | src/d5.rs:129-144 | over sorted input, the merged ranges cover exactly the values the current range and the rest cover |
| Almanac.MergeRangesSpec | src/d5.rs:117-146 | merging keeps exactly the covered values and yields separated ranges |
| Almanac.ApplyRangesForward | src/d5.rs:86-114 | every value of the input ranges is mapped into the output |
| Almanac.ApplyRangesBackward | src/d5.rs:86-114 | every output value is the mapping of some input value |
| Almanac.SplitExamples | src/d5.rs:314-315 | the split test cases for inputs inside and overlapping the start of the source range |
| Almanac.SplitExampleAfter | src/d5.rs:316 | the split test case for an input overlapping the end of the source range |
| Almanac.SplitExamplesPartial | src/d5.rs:318-322 | the split test cases for inputs before, after and straddling the source range |
| Almanac.ApplyExamples | src/d5.rs:292-299 | the range mapping test cases (the second compared as covered values) |
| Almanac.ApplyExampleBefore | src/d5.rs:300-303 | the range mapping test case for an input starting below the source range, as covered values |
| Almanac.LocationsForward | src/d5.rs:163-169 | every seed's location is among the location ranges |
| Almanac.LocationsBackward | src/d5.rs:163-169 | every location in the ranges is the location of some seed |
| Almanac.MinValue | src/d5.rs:216-221 | the least value covered by the ranges, or none (the unwrap panics) when they cover nothing |
| Almanac.RunAlmanacSpec | src/d5.rs:214-222 | the answer exists exactly when some seed is given, is the location of some seed, and is at most the location of every seed |
| Almanac.ParseRemap | src/d5.rs:64-78 | a remap line parses exactly when its first three words are numbers |
| Almanac.ParseRemapShow | src/d5.rs:229-238 | "dst src len" parses back to the same remap, as in the "37 52 2" test |
| Almanac.ParseMapping | src/d5.rs:148-154 | one remap per body line, each parsed on its own |
| Almanac.ParseSeeds | src/d5.rs:187-200 | the seed numbers become pairs of (start, length) for part 2 and single-value ranges for part 1 |
| Almanac.ReadBody | src/d5.rs:204-206 | non-empty lines inside a block only queue up as waiting lines |
| Almanac.ReadLinesCons | src/d5.rs:179-207 | the line-by-line reader processes the first line, then the rest, and stops at the first failure |
| Almanac.ReadBlock | src/d5.rs:180-206 | a header, its non-empty body and a blank line add exactly one mapping built from the body |
| Almanac.SeedRangesLine | src/d5.rs:272-280 | a lone "seeds:" line read as ranges gives the pairs and no mappings, as in the ranges test |
| Almanac.ReadOneSeedLine | src/d5.rs:187-195 | a seeds line outside a block sets the seeds and opens no block |
| Almanac.Run | src/d5.rs:214-222 | part 1 reads the seeds as single values and part 2 as (start, length) ranges; on a parsed almanac the answer exists exactly when some seed is given, is the location of some seed, and no seed reaches a lower location |
| Races.DistanceShape | src/d6.rs:1-5 | the distance is symmetric in charge time and travel time, at most a quarter of the race time squared, and 0 at both ends |
| Races.CountGoodChoices | src/d6.rs:7-16 | the loop over charge times 1..t-1 counts exactly the charge times that beat the record |
| Races.GoodChoicesBound | src/d6.rs:9 | at most t-1 charge times can win (the loop range) |
| Races.GoodSymmetric | src/d6.rs:1-5 | charging c wins exactly when charging t-c wins |
| Races.GoodContiguous | src/d6.rs:7-16 | the winning charge times form an interval |
| Races.GoodMonotone | src/d6.rs:11 | a higher record never adds winning charge times |
| Races.RemoveSpaces | src/d6.rs:28-30 | the kerned text keeps no whitespace and is no longer than the line |
| Races.Concat | src/d6.rs:28-30 | gluing digit words gives a digit string starting with the first word |
| Races.ParseLine | src/d6.rs:23-41 | a line parses only with the prefix; with kerning it yields the single number formed by all non-space characters, otherwise one number per word |
| Races.RemoveSpacesJoin | src/d6.rs:28-30 | removing the spaces from space-joined words glues the words together |
| Races.ParseLineSeparate | src/d6.rs:34-39 | a prefix followed by space-separated numbers parses back to those numbers |
| Races.ParseLineKerned | src/d6.rs:24-32 | with kerning the same line reads as the single number whose digits are all the numbers' digits in order |
| Races.Counts | src/d6.rs:62-64 | one count of winning charge times per race |
| Races.ProductZero | src/d6.rs:61-65 | a race without a winning charge time makes the product 0 |
| Races.ParseInput | src/d6.rs:43-51 | the input parses exactly when there are two lines, "Time:" then "Distance:", each parsing on its own |
| Races.Run | src/d6.rs:53-66 | fails exactly when parsing fails or the two lists differ in length (the assert); otherwise the product of the per-race counts |
| Races.ProductOfCounts | src/d6.rs:61-65 | the accumulating loop yields the product of the counts |
| CamelCards.ParseCard | src/d7.rs:3-13 | a card character parses exactly when it is A, K, Q, J, T or 2..9; J is 1 with jokers and 11 without; every other card is 2..14 and not 11 |
| CamelCards.ParseShowCard | src/d7.rs:3-13 | every card value 2..14 prints to a character that parses back to it (jokers aside) |
| CamelCards.RankInjective | src/d7.rs:60-69 | the hand types are ordered by seven distinct ranks, HighCard lowest |
| CamelCards.MaxType | src/d7.rs:27-29 | keeping the better of two types yields one of them, ranked at least as high as both |
| CamelCards.ClassifyByPairs | src/d7.rs:34-56 | the counter-based classification is decided by the number of equal card pairs, which is one of 0, 1, 2, 3, 4, 6, 10 |
| CamelCards.TypeExamplesGroups | src/d7.rs:125-127 | the five-, four-of-a-kind and full-house test cases |
| CamelCards.TypeExamplesWeak | src/d7.rs:128-131 | the three-of-a-kind, two-pairs, one-pair and high-card test cases |
| CamelCards.Replace | src/d7.rs:22-25 | setting one card changes that position only |
| CamelCards.FirstJoker | src/d7.rs:20-21 | the first joker position: a joker, with no joker before it |
| CamelCards.TypeOf | src/d7.rs:19-57 | a hand without jokers has the type its number of equal card pairs gives; with jokers, JokerIsBestReplacement and JokerIsSomeReplacement fix the type as the best over replacements of the first joker |
| CamelCards.BestTryAtLeast | src/d7.rs:23-30 | the search over replacements never ranks below its starting best |
| CamelCards.BestTryBeats | src/d7.rs:24-30 | the search ranks at least as high as each replacement it tries |
| CamelCards.JokerIsBestReplacement | src/d7.rs:19-33 | a hand with a joker is at least as strong as any replacement 2..14 of its first joker |
| CamelCards.JokerIsSomeReplacement | src/d7.rs:19-33 | a hand with a joker has the type of some replacement of its first joker |
| CamelCards.SingleJoker | src/d7.rs:19-33 | with a single leading joker, the type is that of replacing it by the most frequent other card |
| CamelCards.MostFrequentJoker | src/d7.rs:24-29 | replacing the joker by the most frequent card makes the most equal pairs |
| CamelCards.TypeOfPairsMonotone | src/d7.rs:40-56 | more equal pairs never give a weaker type |
| CamelCards.JokerFiveExample | src/d7.rs:136 | the joker test case for five of a kind |
| CamelCards.JokerFourExample | src/d7.rs:137 | the joker test case for four of a kind |
| CamelCards.JokerFullHouseExample | src/d7.rs:138 | the joker test case for a full house |
| CamelCards.JokerThreeExamples | src/d7.rs:139-140 | the joker test cases for three of a kind, including a joker next to two pairs |
| CamelCards.JokerPairExamples | src/d7.rs:141-142 | the joker test cases for one pair |
| CamelCards.JokersAsJacks | src/d7.rs:8 | reading the jokers back as jacks leaves no joker and changes nothing else |
| CamelCards.JokersOnlyHelp | src/d7.rs:19-33 | jokers never make a hand weaker than the same hand with jacks |
| CamelCards.CompareNat | src/d7.rs:87 | the card comparison is equal or less exactly as the values are |
| CamelCards.CompareFrom | src/d7.rs:85-92 | the card-by-card comparison from a position is equal exactly when the remaining cards are |
| CamelCards.CompareFromLess | src/d7.rs:85-92 | the card-by-card comparison is less exactly when the first differing card is lower |
| CamelCards.Compare | src/d7.rs:82-95 | hands compare equal exactly when identical, and a hand of lower type is always less and of higher type always greater, whatever the cards |
| CamelCards.CompareEqualSymmetric | src/d7.rs:82-95 | hands compare equal only when identical, and swapping the hands flips the result |
| CamelCards.CompareTransitive | src/d7.rs:82-95 | the hand ordering is transitive |
| CamelCards.SortExample | src/d7.rs:157-160 | the first steps of the sort test order (high card, one pair, two pairs) |
| CamelCards.SortExampleMiddle | src/d7.rs:160-162 | the middle steps of the sort test order (two pairs, three of a kind, full house) |
| CamelCards.SortExampleStrong | src/d7.rs:162-164 | the last steps of the sort test order (full house, four and five of a kind) |
| CamelCards.Insert | src/d7.rs:111 | inserting a hand keeps the hands sorted and adds exactly that hand |
| CamelCards.InsertStable | src/d7.rs:111 | an inserted hand goes in front of every hand with the same cards |
| CamelCards.SortHands | src/d7.rs:111 | the hands come out sorted by strength and are a permutation of the input |
| CamelCards.SortHandsStable | src/d7.rs:111 | the sort is stable: hands with the same cards keep their input order |
| CamelCards.SortedStableUnique | src/d7.rs:111 | two sorted, stable orderings of the same hands are identical, so the ranks are fixed even when cards tie |
| CamelCards.TiesKeepOrder | src/d7.rs:111-116 | two hands with equal cards keep their input order, so bids b1 then b2 win b1 + 2 * b2 |
| CamelCards.Winnings | src/d7.rs:112-116 | the winnings are 0 exactly when every bid is 0, and each hand at 0-based position i contributes at least (i + 1) times its bid |
| CamelCards.WinningsBounds | src/d7.rs:112-116 | the winnings lie between the sum of the bids and the hand count times that sum |
| CamelCards.ParseHand | src/d7.rs:100-110 | a line parses exactly when it has five valid cards and a number from column 6 on |
| CamelCards.ParseShowHand | src/d7.rs:100-110 | a printed hand without jokers parses back to itself, whatever the separator |
| CamelCards.ParseHands | src/d7.rs:99-110 | the input parses exactly when every line does, one hand per line |
| CamelCards.Run | src/d7.rs:97-117 | fails exactly when a line fails; otherwise the winnings of a sorted, stable permutation of the hands |
| CamelCards.RunUnique | src/d7.rs:97-117 | the answer is the winnings of every sorted, stable ordering of the parsed hands |
| Wasteland.Next | src/d8.rs:31-35 | a step exists exactly when the node is in the network (otherwise the unwrap panics), and follows the right target on 'R' and the left one otherwise |
| Wasteland.WalkInNodes | src/d8.rs:17-37 | every node the walk reaches is the start or a target of the network |
| Wasteland.WalkPeriodic | src/d8.rs:19-26 | two walk positions with the same node and the same instruction index stay equal from then on |
| Wasteland.ZOffsets | src/d8.rs:27-29 | the recorded offsets increase, lie before n, and are exactly the steps at which the walk stands on a node ending in 'Z' |
| Wasteland.CacheExtend | src/d8.rs:26 | recording the current (instruction index, node) keeps the cache exact: it maps each state seen so far to its first step |
| Wasteland.CacheHit | src/d8.rs:20-25 | a cache hit means the current state was seen first at the cached step and no earlier repeat happened |
| Wasteland.CycleRepeats | src/d8.rs:21-24 | after the cycle starts, the walk repeats with the reported length |
| Wasteland.FindCycle | src/d8.rs:11-38 | the result is a cycle of the walk; it fails only with no instructions or a walk that leaves the network |
| Wasteland.WalkStep | src/d8.rs:27-36 | one loop iteration records the step when the node ends in 'Z' and moves along the instruction |
| Wasteland.EventuallyPeriodic | src/d8.rs:18-37 | once a state repeats, every later node was already seen before the repeat |
| Wasteland.Quot | src/d8.rs:57 | exact division of a multiple |
| Wasteland.Gcd | src/d8.rs:57 | the gcd divides both arguments and is positive unless both are 0 |
| Wasteland.GcdGreatest | src/d8.rs:57 | every common divisor divides the gcd |
| Wasteland.Lcm | src/d8.rs:57 | the product over the gcd is a positive common multiple of both positive lengths |
| Wasteland.FirstMatch | src/d8.rs:45-52 | the least n below the right length whose candidate la + n * ll is congruent to ra modulo the right length, or none when no n is |
| Wasteland.MatchRight | src/d8.rs:44-52 | each offset pushed for one left offset matches some right offset |
| Wasteland.MatchAll | src/d8.rs:43-54 | each offset pushed matches some left offset and some right offset |
| Wasteland.MatchAllComplete | src/d8.rs:43-54 | every left and right offset pair with a congruent candidate contributes its first match |
| Wasteland.Intersect | src/d8.rs:41-59 | fails (division by zero) exactly when both lengths are 0; the offsets are all first matches and the length is a positive common multiple of two positive lengths |
| Wasteland.MatchTestAsWritten | src/d8.rs:47 | the written test underflows exactly when x + rl < ra, and otherwise decides congruence |
| Wasteland.IntersectUnderflows | src/d8.rs:45-49 | for la = 1, ll = 1, ra = 6, rl = 2 the first candidate underflows the written test though n = 1 matches |
| Wasteland.ParseNode | src/d8.rs:67 | a node line parses only when it contains '=' |
| Wasteland.ParseTargets | src/d8.rs:68-75 | the target part parses only when it contains ',' |
| Wasteland.ParseShowNode | src/d8.rs:66-78 | a printed "NAME = (LEFT, RIGHT)" line parses back to the same node and targets |
| Wasteland.ParseNodes | src/d8.rs:66-78 | the node lines parse exactly when each does, one entry per line |
| Wasteland.BuildDefines | src/d8.rs:77 | the network defines exactly the names that some line defines |
| Wasteland.BuildLastWins | src/d8.rs:77 | for a name defined twice, the last line wins |
| Wasteland.StepsTo | src/d8.rs:80-92 | an answer is a step count at which the walk first reaches the goal; failure means no instructions, a walk leaving the network, or a walk that repeats a state without ever reaching the goal |
| Wasteland.NeverArrives | src/d8.rs:83-91 | once a state repeats before the goal is reached, the goal is never reached |
| Wasteland.Least | src/d8.rs:103-104 | the minimum of a non-empty list |
| Wasteland.Cycles | src/d8.rs:94-98 | one cycle per start node; failure means no instructions or some start's walk leaves the network |
| Wasteland.Combine | src/d8.rs:99-100 | combining positive-length cycles gives a positive length that is a multiple of every cycle's length |
| Wasteland.Part2 | src/d8.rs:99-104 | the answer exists exactly when there is a start node and the combined cycle has an offset, and it is the least such offset |
| Wasteland.Run | src/d8.rs:61-106 | fails without the two header lines; part 1 is the number of steps from "AAA" to the first arrival at "ZZZ"; part 2 is the least common offset of the cycles of the start nodes, taken in the order the key listing gives, and fails only without instructions, with a stuck start node, or without a common offset |
| Wasteland.Ghosts | src/d8.rs:93-105 | the answer is the least common offset of one cycle per start node, in order; failure means no instructions, a start node whose walk leaves the network, or cycles without a common offset |
| Wasteland.Filter | src/d8.rs:94-97 | the start nodes are exactly the network's nodes ending in 'A', in the given key order, each once when the keys are listed once |
| Predict.Diffs | src/d9.rs:6-9 | the difference row is one shorter and holds each neighbouring difference |
| Predict.ForwardExtends | src/d9.rs:11-13 | appending the forward prediction to a row appends the difference row's own prediction to its differences |
| Predict.BackwardExtends | src/d9.rs:11-15 | prepending the backward prediction prepends the difference row's own backward prediction |
| Predict.Predict | src/d9.rs:1-17 | a constant row predicts the same constant in both directions, and an arithmetic row of two or more values predicts one more step of the same difference at either end; ForwardExtends and BackwardExtends characterise every other prediction |
| Predict.Reverse | src/d9.rs:14-15 | the row read back to front |
| Predict.Negate | src/d9.rs:15 | the row with every value negated |
| Predict.PredictNegate | src/d9.rs:1-17 | negating a row negates its prediction |
| Predict.DiffsNegate | src/d9.rs:6-9 | the differences of a negated row are the negated differences |
| Predict.DiffsReverse | src/d9.rs:6-9 | the differences of a reversed row are the reversed, negated differences |
| Predict.BackwardIsReversedForward | src/d9.rs:12-16 | the backward prediction of a row is the forward prediction of the reversed row |
| Predict.ParseHistories | src/d9.rs:22 | the input parses exactly when each line is numbers separated by single spaces, one row per line |
| Predict.Run | src/d9.rs:19-27 | fails exactly when some line fails to parse; otherwise the sum of the predictions in the chosen direction |
| Predict.TotalAppend | src/d9.rs:20-26 | the total over concatenated inputs is the sum of the two totals |
| Predict.TotalBackward | src/d9.rs:19-27 | part 2 equals part 1 over the reversed rows |
| Predict.ReverseAll | src/d9.rs:21-25 | every row reversed in place |
| PipeMaze.QuarterInjective | src/d10.rs:5-11 | the four directions are distinct quarter turns |
| PipeMaze.Opposite | src/d10.rs:14-22 | the opposite direction is two quarter turns away |
| PipeMaze.RotatedCw | src/d10.rs:24-32 | clockwise rotation is one quarter turn |
| PipeMaze.RotatedCcw | src/d10.rs:34-36 | counter-clockwise rotation is three quarter turns |
| PipeMaze.DirTurns | src/d10.rs:13-37 | the opposite is an involution without fixed points, four clockwise turns are the identity, the two rotations undo each other and two clockwise turns are the opposite |
| PipeMaze.Dirs | src/d10.rs:55-66 | every pipe joins two different directions |
| PipeMaze.PipeEnds | src/d10.rs:50-66 | a pipe has exactly two ends, and two pipes with the same ends are the same pipe |
| PipeMaze.ParsePipe | src/d10.rs:82-96 | a character parses to the pipe that prints as it, and fails exactly when no pipe prints as it |
| PipeMaze.PipeCharRoundTrip | src/d10.rs:69-96 | printing a pipe and parsing the character gives the pipe back |
| PipeMaze.PipeOfDirs | src/d10.rs:98-114 | a pair of directions names a pipe exactly when they differ, and that pipe connects exactly those two directions |
| PipeMaze.PipeOfDirsInverts | src/d10.rs:98-114 | a pipe's own direction pair, in either order, names it back, and the order never matters |
| PipeMaze.NeighborCoords | src/d10.rs:160-191 | the neighbour exists exactly when the step stays on the grid, and is the cell one step that way |
| PipeMaze.ConnectingDirs | src/d10.rs:202-224 | the directions whose neighbour pipe connects back to the start cell, without repeats |
| PipeMaze.InferPipe | src/d10.rs:202-234 | fails exactly when not exactly two neighbours connect; otherwise only the start cell changes, getting the pipe that connects exactly those two |
| PipeMaze.SwapColoring | src/d10.rs:309-321 | within the first row's width, swapping exchanges Inside and Outside and keeps pipes, Path marks and blank cells; tiles past that width are untouched |
| PipeMaze.SwapTwice | src/d10.rs:309-321 | swapping twice restores the grid |
| PipeMaze.SwapCounts | src/d10.rs:309-321 | when no tile past the width is marked, after a swap the Inside count is the old Outside count and the reverse |
| PipeMaze.UnmarkedShrinks | src/d10.rs:331-341 | marking cells never unmarks any, and each newly marked cell lowers the count of blank cells |
| PipeMaze.Spread | src/d10.rs:333-339 | colouring towards one direction keeps earlier marks, marks the neighbour, and reports exactly the newly marked cells |
| PipeMaze.Visit | src/d10.rs:331-341 | visiting a queued cell marks all its neighbours and reports exactly the newly marked cells |
| PipeMaze.Flood | src/d10.rs:328-341 | the flood from a coloured cell keeps earlier marks, leaves tiles past the first row's width untouched, and leaves no blank cell next to a cell it coloured |
| PipeMaze.FillColoring | src/d10.rs:323-346 | after filling, every Inside or Outside cell has all its neighbours marked |
| PipeMaze.MarkPathSpot | src/d10.rs:236-254 | the cell becomes Path, marked cells elsewhere keep their mark, blank side neighbours get Outside on the clockwise side and Inside on the other, and tiles past the first row's width are untouched |
| PipeMaze.MarkSide | src/d10.rs:239-253 | a blank side neighbour gets the colour, marked cells keep theirs, and tiles past the first row's width are untouched |
| PipeMaze.ParseSpot | src/d10.rs:365-384 | a character parses exactly when it is 'S', '.' or a pipe; it starts unmarked and has a pipe exactly for pipe characters |
| PipeMaze.LastStart | src/d10.rs:366-368 | the last 'S' of a line, or none |
| PipeMaze.StartOf | src/d10.rs:359-389 | the start is the last 'S' in reading order, or (0, 0) when there is none |
| PipeMaze.ParseGrid | src/d10.rs:359-389 | the grid parses exactly when every character does, one spot per character, with the start position |
| PipeMaze.MarkCount | src/d10.rs:351-355 | the count of cells with a colour is at most the number of cells |
| Galaxies.NewBoard | src/d11.rs:10-19 | the board keeps the galaxies; its "rows" set is exactly their x coordinates and its "columns" set exactly their y coordinates |
| Galaxies.AxisDistance | src/d11.rs:27-35 | the distance along one axis is 0 exactly when the coordinates coincide |
| Galaxies.AdjustedDistance | src/d11.rs:21-48 | the distance between two galaxies is 0 exactly when they are at the same position |
| Galaxies.AxisClosedForm | src/d11.rs:27-44 | along one axis the distance is the plain difference with each empty line strictly between counting `expansion` instead of 1 |
| Galaxies.UnitExpansion | src/d11.rs:27-45 | with expansion 1 the distance is the Manhattan distance |
| Galaxies.DistanceSymmetricMonotone | src/d11.rs:21-48 | the distance is symmetric and never decreases as the expansion grows |
| Galaxies.RowGalaxies | src/d11.rs:55-59 | the galaxies found on a row are exactly its '#' cells |
| Galaxies.GalaxiesFrom | src/d11.rs:54-60 | the galaxies found from a row on are exactly the '#' cells of those rows |
| Galaxies.ParseBoard | src/d11.rs:51-63 | the board's galaxies are exactly the '#' cells of the input |
| Galaxies.PairSumIsHalf | src/d11.rs:65-75 | summing over pairs i1 < i2 gives exactly half the sum over all ordered pairs |
| Galaxies.Run | src/d11.rs:65-75 | the answer over unordered pairs of parsed galaxies is half the sum of distances over all ordered pairs, and 0 when there is at most one galaxy |
| Springs.FillOne | src/d12.rs:32-37 | writing '#' or '.' into a '?' leaves fewer unknowns, so the recursion ends |
| Springs.CountMatches | src/d12.rs:18-70 | a pattern of '#', '.' and '?' from the start index on always gets a count (CountMatchesCorrect says which count); only another character can make it fail |
| Springs.Scan | src/d12.rs:20-69 | the loop never fails while every character from the start index on is '#', '.' or '?' |
| Springs.CountMatchesCorrect | src/d12.rs:18-70 | for groups of at least 1 and a pattern of '?', '#', '.', the count equals the number of ways to fill the '?'s from p on so that the runs of '#' are exactly the groups |
| Springs.ScanCorrect | src/d12.rs:20-69 | the loop, after passing dots then `count` hashes, counts exactly the completions of the rest |
| Springs.EndCase | src/d12.rs:59-69 | at the end of the pattern the result is 1 exactly when no group remains and no run is open, or one group remains equal to the open run |
| Springs.QuestionCase | src/d12.rs:23-41 | the '?' branch counts the completions with '#' (only while groups remain) plus those with '.' |
| Springs.DotCase | src/d12.rs:46-53 | a '.' closing a run fails unless the run equals the first group, and otherwise continues with the remaining groups |
| Springs.NoRunsAfterHash | src/d12.rs:31-34 | with no groups left a '#' can never match, so a '?' can only become '.' |
| Springs.RunsPrefix | src/d12.rs:43-53 | the runs of a passed prefix of dots then `count` hashes continue from an open run of `count` |
| Springs.CountExamples | src/d12.rs:18-70 | "?#" with group 2 has one arrangement |
| Springs.TwoUnknowns | src/d12.rs:23-41 | "??" with group 1 has two arrangements |
| Springs.ZeroGroup | src/d12.rs:59-63 | as written, a final group of 0 is matched by an empty run, though no arrangement has a run of length 0 |
| Springs.UnknownCharacter | src/d12.rs:55 | a character other than '?', '#', '.' is an error |
| Springs.Unfold | src/d12.rs:75-76 | `folds` copies joined by one separator have length folds·n + folds − 1 |
| Springs.ParseLine | src/d12.rs:73-82 | a line parses only with a space, and its pattern is the first part repeated `folds` times joined by '?' |
| Springs.UnfoldGroups | src/d12.rs:76-79 | splitting the repeated group text at ',' gives the group pieces repeated `folds` times |
| Springs.ParseRepeated | src/d12.rs:79 | the repeated pieces parse exactly when the pieces do, giving the groups repeated |
| Springs.ParseNatsAppend | src/d12.rs:79 | number lists parse piecewise: the concatenation parses exactly when both halves do, to the concatenated numbers |
| Springs.ParseLineGroups | src/d12.rs:73-82 | a line parses exactly when it has a space and its groups are numbers; the groups are repeated `folds` times |
| Springs.Run | src/d12.rs:84-92 | the total exists only when every line parses with 1 fold for part 1 and 5 for part 2 |
| Mirrors.ScanMirrorCorrect | src/d13.rs:12-23 | the inner loop accepts a line exactly when every row pair around it matches until one side reaches the edge |
| Mirrors.ReflectionsFrom | src/d13.rs:11-24 | the lines found after row y are exactly the reflection lines there, ascending |
| Mirrors.HorizontalReflections | src/d13.rs:8-27 | the result is exactly the reflection lines of the board, in ascending order |
| Mirrors.ReflectionExamples | src/d13.rs:11 | a one-row board has no reflection; two equal rows reflect at 1, two different rows nowhere |
| Mirrors.Transposed | src/d13.rs:50-64 | the transpose swaps the dimensions and puts cell (x, y) at (y, x) |
| Mirrors.TransposeTwice | src/d13.rs:50-64 | transposing a rectangular board twice gives it back |
| Mirrors.VerticalReflections | src/d13.rs:94 | the reflections of the transpose are exactly the column reflection lines of the board |
| Mirrors.Flip | src/d13.rs:34-35 | flipping changes exactly one cell |
| Mirrors.FlipTwice | src/d13.rs:34-37 | flipping the same cell back restores the board, so the board is unchanged on return |
| Mirrors.FirstNew | src/d13.rs:39-43 | the first reflection found after a flip that was not an original one, or none when all were |
| Mirrors.FindSmudge | src/d13.rs:32-45 | the first cell in row-major order whose flip yields a new reflection, with that reflection; none when no cell does |
| Mirrors.FuzzySpec | src/d13.rs:29-48 | a fuzzy result is a reflection after flipping some cell and not an original one; none exactly when no flip creates a new reflection |
| Mirrors.ParseBoard | src/d13.rs:67-73 | one row of booleans per line, one per character |
| Mirrors.ParseShowBoard | src/d13.rs:67-73 | '#' reads as true and anything else as false: printing and parsing round-trip, and boards of '#' and '.' print back to their lines |
| Mirrors.BlockEnd | src/d13.rs:80-82 | a board's rows run up to the next empty line |
| Mirrors.BlocksComplete | src/d13.rs:78-108 | when no two empty lines are adjacent, the boards read cover the whole input, with one empty line after each |
| Mirrors.BlocksPrefix | src/d13.rs:78-108 | the boards read are always a prefix of the input, so reading stops at the first empty board |
| Mirrors.BoardScore | src/d13.rs:90-107 | scoring a board fails (index panic in the transpose) exactly when some row is shorter than the first |
| Mirrors.ScoreBlocks | src/d13.rs:75-111 | the total fails exactly when some board does, and is at least the first board's score |
| Mirrors.Run | src/d13.rs:75-111 | the answer exists exactly when every board read up to the first empty one has no row shorter than its first, and it is at least the first board's score |
| ReflectorDish.LoadExample | src/d14.rs:181-191 | the total-load test: a round stone in the top row of two counts 2 and one in the bottom row counts 1 |
| ReflectorDish.Column | src/d14.rs:41-49 | a column reads each row's tile at that position, top to bottom |
| ReflectorDish.MovedTrans | src/d14.rs:20-36 | stones moved within their columns, twice, are still moved within their columns |
| ReflectorDish.SwapMoved | src/d14.rs:28-31 | swapping a round stone into the empty cell above it moves it within its column without passing a cube |
| ReflectorDish.SwapColumn | src/d14.rs:28-31 | a swap keeps the tiles of every column |
| ReflectorDish.SwapBelowCube | src/d14.rs:28-31 | a swap keeps the tiles below every cube stone of every column |
| ReflectorDish.SwapMeasuresAt | src/d14.rs:28-31 | a swap raises the load by exactly 1 and lowers the sum of round-stone row indices by exactly 1 |
| ReflectorDish.ShiftFrom | src/d14.rs:26-34 | the rest of a pass moves stones within columns, reports a change exactly when some swappable pair remains, and a productive pass strictly lowers the row-index sum |
| ReflectorDish.ShiftNorth | src/d14.rs:24-36 | one pass reports a change exactly when some round stone sits below an empty cell; without a change the board is unchanged, with one the row-index sum strictly drops and the load rises |
| ReflectorDish.TiltNorth | src/d14.rs:20-22 | repeated passes end in a board where no round stone sits below an empty cell, with stones moved only within their columns and the load not lower |
| ReflectorDish.TiltSettled | src/d14.rs:20-22 | tilting a settled board changes nothing |
| ReflectorDish.RotateCw | src/d14.rs:38-56 | the rotation swaps the dimensions and new row x is old column x read bottom to top |
| ReflectorDish.RotateTwice | src/d14.rs:38-56 | two rotations turn the board upside down |
| ReflectorDish.RotateFour | src/d14.rs:38-56 | four rotations give the board back |
| ReflectorDish.RotateExample | src/d14.rs:163-179 | the rotation test case |
| ReflectorDish.Cycle | src/d14.rs:58-63 | a spin cycle keeps the board rectangular |
| ReflectorDish.IterateAdd | src/d14.rs:111-123 | m cycles then n cycles are m + n cycles |
| ReflectorDish.IteratePeriodic | src/d14.rs:112-118 | once the board after i + p cycles equals the board after i, the board after i + a cycles is the one after i + (a mod p) |
| ReflectorDish.FirstIndex | src/d14.rs:112 | the position of a board in the history, found exactly when it is there |
| ReflectorDish.SkipCorrect | src/d14.rs:110-123 | the cycle skip, which runs only (steps − i) mod (i − j) more cycles after a repeat, lands on the board that all `steps` cycles reach |
| ReflectorDish.SpunLoad | src/d14.rs:106-125 | the part 2 load is the load of the board after all the spin cycles |
| ReflectorDish.ParseTile | src/d14.rs:87-92 | a character parses exactly when it is '.', 'O' or '#', to the tile that prints as it |
| ReflectorDish.TileCharRoundTrip | src/d14.rs:87-92 | printing a tile and parsing it gives it back |
| ReflectorDish.ParseBoard | src/d14.rs:81-98 | the board parses exactly when every character is '.', 'O' or '#', one tile per character |
| ReflectorDish.ParseExample | src/d14.rs:133-141 | the parsing test case |
| ReflectorDish.Run | src/d14.rs:100-126 | the answer exists exactly when every character parses and the board is wide (part 1) or wide with a non-empty first row (part 2); part 1 is the load of a settled board whose stones moved only within their columns, never less than the starting load; part 2 is the load after all 1000000000 spin cycles |
| LensLibrary.HashStep | src/d15.rs:27 | one wrapping step (add the byte, multiply by 17, both mod 256) stays below 256 |
| LensLibrary.Hash | src/d15.rs:24-30 | the hash is below 256 and the empty string hashes to 0 |
| LensLibrary.CalcHash | src/d15.rs:24-30 | the byte loop computes the hash fold |
| LensLibrary.HashIsWeightedMod | src/d15.rs:24-30 | wrapping at every step equals computing the unbounded sum of bytes weighted by powers of 17 and reducing it mod 256 once |
| LensLibrary.HashAppend | src/d15.rs:26-28 | hashing a concatenation continues the fold from the first part's hash |
| LensLibrary.HashExample | src/d15.rs:24-30 | "HASH" hashes to 52 |
| LensLibrary.Empty | src/d15.rs:42-46 | the new table has 256 empty boxes and is well formed |
| LensLibrary.Position | src/d15.rs:52 | the first slot holding the label, or none exactly when no slot holds it |
| LensLibrary.Add | src/d15.rs:48-57 | only the label's box changes: a lens with the same label is replaced in its slot, otherwise the lens is appended at the end |
| LensLibrary.Remove | src/d15.rs:59-66 | only the label's box changes, and an absent label changes nothing |
| LensLibrary.AddValid | src/d15.rs:48-57 | adding keeps every lens in its label's box and the labels of each box unique |
| LensLibrary.RemoveValid | src/d15.rs:59-66 | removing keeps every lens in its label's box and the labels of each box unique |
| LensLibrary.AddLookup | src/d15.rs:48-57 | after adding, the label's focal length is the new one and every other label's is unchanged |
| LensLibrary.RemoveLookup | src/d15.rs:59-66 | after removing, the label is absent and every other label's focal length is unchanged |
| LensLibrary.RemoveFromBoxIsFilter | src/d15.rs:63-65 | removing from a box with unique labels keeps the other lenses in order |
| LensLibrary.RemoveUndoesFreshAdd | src/d15.rs:48-66 | removing a label that was just added fresh restores the table |
| LensLibrary.FreshAddPower | src/d15.rs:68-76 | adding a fresh lens raises the focusing power by (box + 1) · (new slot + 1) · focal length |
| LensLibrary.BoxPowerReplace | src/d15.rs:53 | replacing a lens changes the box power by (slot + 1) times the change of focal length |
| LensLibrary.ApplyStep | src/d15.rs:9-18 | a step keeps the table well formed, and fails exactly when it is "label=value" with a value that is not a number |
| LensLibrary.ApplySteps | src/d15.rs:9-18 | the steps in order keep the table well formed |
| LensLibrary.SumHashes | src/d15.rs:5 | the part 1 sum is at most 255 per step |
| LensLibrary.Run | src/d15.rs:1-22 | part 1 always succeeds, with at most 255 per comma-separated step |
| Beams.Apply | src/d16.rs:29-57 | an empty tile passes the beam on; a splitter passes parallel beams and splits perpendicular ones into its two directions; a mirror turns the beam by a quarter |
| Beams.MirrorsReversible | src/d16.rs:36-47 | each mirror is an involution, and a beam sent back the way it left returns reversed |
| Beams.CoordsInFront | src/d16.rs:70-77 | the cell in front exists exactly when the step stays on the grid, and is one step that way |
| Beams.Forward | src/d16.rs:94-96 | at most one next state, on the grid, keeping the new direction |
| Beams.Next | src/d16.rs:90-105 | every successor state of a beam is on the grid |
| Beams.ReachedStep | src/d16.rs:85-105 | a successor of a reachable state is reachable |
| Beams.BeamNew | src/d16.rs:85-105 | handling an unseen state keeps the loop invariant and strictly shrinks the set of unseen states, so the loop ends |
| Beams.BeamSeen | src/d16.rs:86-88 | skipping an already seen state keeps the loop invariant |
| Beams.BeamDone | src/d16.rs:85-106 | when the queue is empty the visited states are exactly the states reachable from the start |
| Beams.GridCells | src/d16.rs:138-139 | the cells of a w by h grid number w · h |
| Beams.EnergizedRange | src/d16.rs:108 | at least the start cell and at most every cell is energized |
| Beams.SimulateBeam | src/d16.rs:79-109 | the visited states are exactly the reachable ones and the count is the number of distinct cells among them |
| Beams.ParseTile | src/d16.rs:118-125 | a character parses exactly when it is one of ". \ / \| -", to the tile that prints as it |
| Beams.TileCharRoundTrip | src/d16.rs:118-125 | printing a tile and parsing it gives it back |
| Beams.ParseGrid | src/d16.rs:112-131 | the grid parses exactly when every character is a tile, one tile per character |
| Beams.EdgeStarts | src/d16.rs:143-163 | the part 2 starts are the 2w + 2h inward-facing edge states, all on the grid |
| Beams.BestStart | src/d16.rs:141-165 | the best is the energized count of some edge start and at least that of every edge start |
| Beams.Run | src/d16.rs:133-167 | fails exactly when parsing fails, the grid or its first row is empty, or a row is shorter than the first (longer rows are fine); part 1 starts at the top left facing right; part 2 is the best edge start |
| Crucible.Rotations | src/d17.rs:16-38 | clockwise and counter-clockwise rotation undo each other, never keep or reverse the direction, and twice either way is the opposite |
| Crucible.MovedForward | src/d17.rs:58-79 | on the grid, no move exactly when no forward steps are left or the step leaves the grid; otherwise one step ahead with one fewer forward step |
| Crucible.StartStates | src/d17.rs:94-95 | both start states sit at the top left with every forward step left |
| Crucible.Successors | src/d17.rs:116-134 | the pushed states are exactly the legal moves, each with the heat of the cell entered added |
| Crucible.SuccessorsComplete | src/d17.rs:116-134 | every legal move comes from going on straight or, after at least the minimum run, turning either way |
| Crucible.WalkExtend | src/d17.rs:130-132 | a walk extended by a legal move is a walk whose heat grows by the entered cell |
| Crucible.AllStatesHas | src/d17.rs:92-100 | every on-grid state with at most the maximum forward steps is in the finite state space |
| Crucible.SeenShrinks | src/d17.rs:97-100 | inserting an unseen state strictly shrinks the unseen part of the state space, so the search ends |
| Crucible.Cheapest | src/d17.rs:97 | the popped entry has the least heat in the queue |
| Crucible.RemoveAt | src/d17.rs:97 | popping removes exactly that entry and keeps the rest in order |
| Crucible.StartsWitnessed | src/d17.rs:94-95 | each start entry is backed by a one-state walk of heat 0 |
| Crucible.PopWitnessed | src/d17.rs:97 | the popped entry is backed by a walk ending in its state with its heat, and the rest of the queue stays backed |
| Crucible.AppendWitnessed | src/d17.rs:130-133 | two backed queues joined are backed |
| Crucible.SuccessorsWitnessed | src/d17.rs:116-134 | every successor entry is backed by the popped walk extended by one move |
| Crucible.PushWitnessed | src/d17.rs:116-134 | after pushing the successors every queue entry is still backed by a walk with its heat |
| Crucible.PopCheapest | src/d17.rs:97 | takes a least-heat entry from the queue, backed by a walk, and leaves a backed queue one shorter |
| Crucible.Push | src/d17.rs:116-134 | appends exactly the successors and keeps every entry backed by a walk |
| Crucible.ListedAdd | src/d17.rs:98-100 | the expanded states stay distinct and match the seen set |
| Crucible.WalkPrefix | src/d17.rs:116-134 | a walk without its last move is a walk, that move is legal, and the heat of the last cell entered comes off |
| Crucible.WalkEnd | src/d17.rs:58-79 | a walk ends on the grid within its straight-step allowance, and in the bottom-right corner only heading right or down |
| Crucible.CornerStuck | src/d17.rs:109-112 | a walk in the corner with too short a run has no legal move, so skipping its expansion loses no walk |
| Crucible.CheapestLeast | src/d17.rs:97 | the popped entry costs no more than any entry in the queue |
| Crucible.RemoveKeeps | src/d17.rs:97-100 | popping one entry keeps every entry for another state |
| Crucible.QueueCovers | src/d17.rs:97-134 | every walk ending in an unseen state is matched by a queued entry costing no more than the walk |
| Crucible.StartsOptimal | src/d17.rs:94-95 | with nothing seen and both starts queued, the least-cost invariant holds |
| Crucible.SkipKeeps | src/d17.rs:98-100 | popping an already-seen state keeps the least-cost invariant |
| Crucible.SettleKeeps | src/d17.rs:97-134 | marking the popped cheapest state seen at its heat and queueing all its moves keeps the least-cost invariant |
| Crucible.StuckKeeps | src/d17.rs:109-112 | marking a too-early corner state seen without pushing anything keeps the least-cost invariant |
| Crucible.AcceptedCheapest | src/d17.rs:109-113 | the first accepted pop costs no more than any accepting walk |
| Crucible.ExhaustedNoWalk | src/d17.rs:97-137 | once the queue runs dry no walk is accepting, so the panic means there is no route |
| Crucible.SettleSearching | src/d17.rs:98-100 | seeing a new state keeps the seen set and the expansion list in step with the settled costs |
| Crucible.SearchStep | src/d17.rs:97-134 | one pop either skips a seen state with a shorter queue, settles a new one with fewer states unseen, or answers with the heat of an accepting walk that no accepting walk beats |
| Crucible.FindBestPath | src/d17.rs:87-138 | expands each state at most once; an answer is the heat of a legal walk into the bottom-right corner after at least the minimum run and no such walk loses less; there is no answer (the panic) exactly when no walk is accepting |
| Crucible.ParseHeat | src/d17.rs:145 | the byte subtraction succeeds exactly when the character's low byte is at least '0'; a digit gives its value |
| Crucible.HeatCharRoundTrip | src/d17.rs:145 | a digit printed and parsed back gives itself |
| Crucible.ParseHeatmap | src/d17.rs:141-149 | parses exactly when every character does, row by row and cell by cell |
| Crucible.Run | src/d17.rs:151-158 | part 1 uses runs of 1 to 3 and part 2 of 4 to 10; an answer is the heat of an accepting walk for those bounds and no accepting walk has less; on a parsed, wide map an `Err` means no walk is accepting |
| Lagoon.Turns | src/d18.rs:13-42 | left and right turns undo each other, four of either is the identity, a left turn rotates the step vector, and stepping forward then back returns |
| Lagoon.ParseLetter | src/d18.rs:81-87 | exactly "U", "L", "D" and "R" parse, each to the direction that prints as it |
| Lagoon.ParseHexDir | src/d18.rs:67-74 | exactly the digits 0 to 3 parse, each to the direction that prints as it |
| Lagoon.ParseColor | src/d18.rs:57-79 | the colour parses exactly when it is "(#" … ")" with a valid direction digit at position 5 and five hex digits before it, to that direction and hex count |
| Lagoon.StripColor | src/d18.rs:59-65 | each strip succeeds exactly when its delimiter is there, and the inner text is what lies between "(#" and ")" |
| Lagoon.FromLine | src/d18.rs:51-95 | fails unless the line has exactly three space-separated fields; with colours it is the colour parse; otherwise it parses exactly when the letter and the count do |
| Lagoon.PlainRoundTrip | src/d18.rs:80-94 | a printed plain step parses back to itself |
| Lagoon.LetterRoundTrip | src/d18.rs:81-87 | a printed direction letter parses back to itself |
| Lagoon.HexChar | src/d18.rs:76 | each value below 16 prints as a hex digit of that value |
| Lagoon.ShowHex | src/d18.rs:76 | prints exactly k hex digits |
| Lagoon.ShowHexValue | src/d18.rs:76 | a number below 16^k printed as k hex digits reads back as itself |
| Lagoon.ColorField | src/d18.rs:57-79 | a step prints as a nine-character "(#" … ")" field holding its count and direction digit |
| Lagoon.ParseColorField | src/d18.rs:57-79 | a printed colour field has no space and parses back to the step |
| Lagoon.ColorRoundTrip | src/d18.rs:51-79 | a line printed with a colour field parses back to the step in colour mode |
| Lagoon.Advance | src/d18.rs:118-133 | moving n steps ends n cells along the direction |
| Lagoon.DigStep | src/d18.rs:110-133 | one plan step ends where its direction and count lead |
| Lagoon.KeepsTrans | src/d18.rs:112-117 | keeping earlier dug cells is transitive |
| Lagoon.MarkSidesKeeps | src/d18.rs:112-117 | marking the side cells only fills empty cells and never digs |
| Lagoon.DigMid | src/d18.rs:111 | digging a cell adds exactly that cell to the dug set and keeps the rest |
| Lagoon.AdvanceDigs | src/d18.rs:118-133 | a run of steps digs exactly the cells of its segment and keeps all earlier dug cells |
| Lagoon.DigPlanDigs | src/d18.rs:110-134 | the whole plan digs exactly the cells along its path |
| Lagoon.Hull | src/d18.rs:136-148 | the hull of two boxes holds every cell of both |
| Lagoon.Span | src/d18.rs:136-148 | the span of two cells holds both |
| Lagoon.SegmentInSpan | src/d18.rs:118-133 | every cell of a segment lies in the box spanned by its ends |
| Lagoon.PlanBox | src/d18.rs:110-134 | the plan's box holds the start and every dug cell |
| Lagoon.RowHoles | src/d18.rs:136-148 | a row's hole list is ascending and holds exactly the dug cells of that row |
| Lagoon.Gaps | src/d18.rs:158-179 | fails exactly when some gap wider than one cell has no colouring left of its right end (the unwrap); the filled cells never exceed the empty cells between the holes |
| Lagoon.Between | src/d18.rs:163-168 | the cells strictly inside a gap, as many as the gap is wide less one |
| Lagoon.CountedNext | src/d18.rs:158-179 | a counted cell past a hole lies in the filled gap after it or counts from the next hole on |
| Lagoon.CountedPrev | src/d18.rs:158-179 | a cell counted from the next hole on is counted from this one |
| Lagoon.CountedSplit | src/d18.rs:158-179 | the counted cells from a hole on are that hole, the gap after it when its left-of-right-end colouring is the inside one, and the counted cells from the next hole on |
| Lagoon.CountedLast | src/d18.rs:153 | from the last hole on only that hole counts |
| Lagoon.GapsStep | src/d18.rs:162-169 | each gap adds its undug cells exactly when it is filled |
| Lagoon.GapsCount | src/d18.rs:153-179 | the holes from the k-th on plus the filled gaps are exactly the counted cells: every hole, and every cell of a gap whose cell left of the right hole has the inside colouring |
| Lagoon.ScanRow | src/d18.rs:152-181 | a row's total counts at least its holes and at most the span from its first to its last hole |
| Lagoon.ScanRowCount | src/d18.rs:152-181 | a row's total is the number of its counted cells, the inside colouring being the other one from the colouring left of its first hole, which is never Mid |
| Lagoon.RowWithinBox | src/d18.rs:152-181 | a row's total lies between its hole count and the box width |
| Lagoon.Area | src/d18.rs:150-184 | the total is at least the number of dug cells and at most the cells of the box |
| Lagoon.AreaOk | src/d18.rs:152-182 | the area scan fails exactly when the scan of some row fails |
| Lagoon.AreaCounts | src/d18.rs:150-184 | the area is the number of counted cells summed over the rows |
| Lagoon.BoxCells | src/d18.rs:150-184 | a box of rows by width holds their product of cells |
| Lagoon.ExecutePlan | src/d18.rs:105-185 | the lagoon size is the number of counted cells over the rows of the dug plan, at least the number of dug cells and at most the plan's bounding box |
| Lagoon.DugInBox | src/d18.rs:110-148 | the dug cells are exactly the path and all lie in the plan's box |
| Lagoon.Run | src/d18.rs:187-195 | succeeds exactly when every line parses (in colour mode for part 2) and the area scan of the dug plan succeeds |
| Aplenty.EvalCondition | src/d19.rs:9-28 | fails (the panic) exactly for a category other than x, m, a, s; otherwise compares that rating strictly against the bound |
| Aplenty.ParseCondition | src/d19.rs:30-38 | a text with '<' gives a less-than test, one with only '>' a greater-than test, and one with neither fails |
| Aplenty.ConditionRoundTrip | src/d19.rs:30-38 | a printed condition parses back to itself |
| Aplenty.ParseDestination | src/d19.rs:47-53 | "A" is accepted, "R" rejected, and any other text names a workflow |
| Aplenty.DestinationRoundTrip | src/d19.rs:47-53 | a printed destination parses back to itself |
| Aplenty.ParseRule | src/d19.rs:71-82 | a rule without ':' is an unconditional jump to its destination; a conditional rule had a ':' |
| Aplenty.RuleRoundTrip | src/d19.rs:71-82 | a printed rule has no comma and parses back to itself |
| Aplenty.EvalRule | src/d19.rs:61-68 | an unconditional rule always fires; a conditional one fails only on a bad category; when it fires it gives its destination |
| Aplenty.EvalRules | src/d19.rs:90-97 | succeeds exactly when some rule fires, and then gives the destination of the first rule that fires; no firing rule is the panic |
| Aplenty.ParseWorkflow | src/d19.rs:100-105 | a parsed workflow has a name without '{' and at least one rule |
| Aplenty.WorkflowRoundTrip | src/d19.rs:100-105 | a printed workflow parses back to itself |
| Aplenty.IndexLastWins | src/d19.rs:287-290 | a name is in the index exactly when some workflow has it, and then maps to its last definition |
| Aplenty.SplitSpan | src/d19.rs:122-130 | the low half holds exactly the values below the cut and the high half the rest, and their lengths add up |
| Aplenty.SplitBox | src/d19.rs:133-189 | fails exactly on a bad category; otherwise splits that category's range at the bound truncated to 16 bits and keeps the other three |
| Aplenty.SplitBoxParts | src/d19.rs:133-189 | a part is in the low box exactly when it is in the box and its rating is below the cut, and in the high box exactly when it is at or above it |
| Aplenty.VolumeFactors | src/d19.rs:323 | a box's volume is one category's length times the other three |
| Aplenty.SplitOthers | src/d19.rs:133-189 | splitting leaves the product of the other categories unchanged |
| Aplenty.SplitBoxVolume | src/d19.rs:133-189 | the two halves' volumes add up to the box's volume |
| Aplenty.TotalVolumeAppend | src/d19.rs:216-226 | the volume of joined result lists is the sum of their volumes |
| Aplenty.CombineHalves | src/d19.rs:209-227 | results from two disjoint halves of a box join into disjoint boxes within it, no bigger than it |
| Aplenty.RuleSplit | src/d19.rs:209-227 | a conditional rule sends the matching half to its destination and the other half on to the next rules, and the halves partition the box |
| Aplenty.RuleSplitPart | src/d19.rs:209-227 | a part lies in exactly one half; in the matching half the first rule fires, in the other evaluation goes on with the next rules |
| Aplenty.FilterSound | src/d19.rs:197-201 | the accepted boxes are disjoint, lie within the start box and hold no more volume than it |
| Aplenty.FilterRulesSound | src/d19.rs:203-237 | the boxes accepted through a rule list are disjoint, within the box, and no bigger than it |
| Aplenty.FilterToSound | src/d19.rs:239-245 | the boxes accepted through a destination are disjoint, within the box, and no bigger than it |
| Aplenty.FilterAgrees | src/d19.rs:197-201 | for every part in the box, the range filter covers it exactly when routing the part alone ends in acceptance |
| Aplenty.FilterRulesAgrees | src/d19.rs:203-237 | for every part in the box, evaluating the rules and routing on agrees with whether the filtered boxes cover it |
| Aplenty.FilterToAgrees | src/d19.rs:239-245 | for every part in the box, routing from a destination agrees with whether the filtered boxes cover it |
| Aplenty.CoveredAppend | src/d19.rs:216-217 | boxes inside a half that misses the part do not change whether it is covered |
| Aplenty.CoveredAppendRight | src/d19.rs:216-217 | boxes inside a half that misses the part do not change whether it is covered, on the other side |
| Aplenty.Assign | src/d19.rs:256-265 | a field assigns exactly when it is "c=n" with c a category and n a number, setting that rating and keeping the rest |
| Aplenty.FieldsOkCons | src/d19.rs:256-265 | a field list is well formed exactly when its head and its tail are |
| Aplenty.AssignAll | src/d19.rs:256-266 | all fields assign exactly when each is well formed |
| Aplenty.ParsePart | src/d19.rs:248-268 | a parsed part line was wrapped in braces |
| Aplenty.WithRating | src/d19.rs:260-263 | setting a rating changes that category and no other |
| Aplenty.AssignSwap | src/d19.rs:256-266 | assignments to different categories commute |
| Aplenty.FieldReads | src/d19.rs:256-265 | a printed field assigns its value to its category |
| Aplenty.FieldsRead | src/d19.rs:256-266 | the four printed fields of a part assign back that part from any start |
| Aplenty.FieldsSplit | src/d19.rs:256 | the joined fields split on commas back into the four fields |
| Aplenty.PartRoundTrip | src/d19.rs:248-268 | a printed part parses back to itself |
| Aplenty.Sections | src/d19.rs:275-285 | the workflow lines are those before the first empty line, and the part lines all lines after it |
| Aplenty.AcceptedTotal | src/d19.rs:295-310 | succeeds exactly when routing every part from "in" succeeds |
| Aplenty.Run | src/d19.rs:270-328 | the part 2 count never exceeds the 4000^4 possible parts |
| Aplenty.Part2CountsAccepted | src/d19.rs:311-325 | in a well formed system, each part in the 1 to 4000 cube is in the part 2 boxes exactly when routing it from "in" accepts it |
| Pulses.ParseLeft | src/d20.rs:68-76 | parses exactly a '%' or '&' prefixed name or "broadcaster", as a flip-flop, a conjunction or the broadcaster with the prefix removed |
| Pulses.ParseLine | src/d20.rs:65-83 | fails without " -> "; with it, parses exactly when the left side does |
| Pulses.LeftRoundTrip | src/d20.rs:68-76 | a module's printed left side parses back to its name and type |
| Pulses.ModuleRoundTrip | src/d20.rs:65-83 | a printed module line parses back to the module |
| Pulses.DeclaredLastWins | src/d20.rs:118-130 | a name is declared exactly when some line declares it, and a redeclaration replaces the earlier one |
| Pulses.SeedInputs | src/d20.rs:146-152 | every conjunction gains a low memory for each module that sends to it; other states are unchanged |
| Pulses.SeedFrom | src/d20.rs:146-152 | seeding from one more sender keeps the seeding invariant |
| Pulses.SeedFinish | src/d20.rs:146-152 | once every sender is done, each conjunction remembers exactly its senders as low |
| Pulses.Unseeded | src/d20.rs:114-144 | every declared module gets its initial state and destinations, every undeclared destination becomes an output conjunction with no destinations, and every destination is a known module |
| Pulses.FromLines | src/d20.rs:114-158 | the states cover the declared modules and their destinations; flip-flops start off, conjunctions remember each sender as low, outputs have no destinations |
| Pulses.SeededOne | src/d20.rs:118-152 | a declared module keeps its destinations, and its state is its initial one with a conjunction seeded from its senders |
| Pulses.SeededUndeclared | src/d20.rs:141-152 | an undeclared output has no destinations and a conjunction state over its senders |
| Pulses.Send | src/d20.rs:388-392 | one pulse per destination, in order, carrying the output signal |
| Pulses.React | src/d20.rs:370-386 | a flip-flop ignores high and toggles on low, sending high exactly when it turns on; a conjunction records the input and sends low exactly when all inputs are high; the broadcaster repeats the signal |
| Pulses.Deliver | src/d20.rs:364-394 | a pulse to an unknown module does nothing; otherwise only the receiver's state changes, to its reaction, and its output goes to all its destinations |
| Pulses.Drain | src/d20.rs:364-394 | processing the queue counts at least every queued pulse by signal, keeps the wiring, and processes at most `fuel` pulses |
| Pulses.CountAppend | src/d20.rs:364-368 | the pulse counts of joined queues add up |
| Pulses.Processed | src/d20.rs:364-394 | the pulses a press works off start with the queued ones and number at most `fuel`; the configuration keeps its wiring and modules |
| Pulses.DrainTrace | src/d20.rs:356-397 | the counting loop succeeds exactly when the pulses can be worked off, and then adds exactly the low and the high pulses processed to its counts |
| Pulses.ProcessedFuel | src/d20.rs:364-394 | once a queue is worked off, more fuel gives the same pulses and configuration |
| Pulses.Press | src/d20.rs:356-397 | a press succeeds exactly when its pulses can be worked off; it ends in the configuration that processing leaves and returns the number of low and of high pulses processed, the button's low pulse first |
| Pulses.PressMany | src/d20.rs:424-428 | k presses count at least k low pulses and at most k times the per-press bound |
| Pulses.PressManyTrace | src/d20.rs:424-428 | the sums over k presses succeed exactly when the k presses can be worked off in turn, and are exactly the low and the high pulses of all of them |
| Pulses.PressesFuel | src/d20.rs:424-428 | once k presses are worked off, more fuel gives the same pulses and configuration |
| Pulses.FromLinesInitial | src/d20.rs:114-158 | building from the parsed lines gives exactly the initial configuration: declared modules with their destinations, undeclared destinations as outputs, flip-flops off and every conjunction remembering each of its senders as low |
| Pulses.Part1 | src/d20.rs:417-430 | succeeds exactly when every line parses and a thousand presses from the initial configuration can be worked off; the answer is the number of low pulses times the number of high pulses of those presses, so it is zero or at least a thousand |
| Pulses.Watch | src/d20.rs:319-349 | a press checked before each delivery for a low pulse to the target; when it finishes the configuration stays well formed |
| Pulses.WatchTrace | src/d20.rs:315-349 | a watched press that can be worked off stops early exactly when a low pulse to the target is among the pulses the unwatched press processes, and otherwise ends in the same configuration |
| Pulses.Pressed | src/d20.rs:315-350 | the state after k presses none of which reached the target with a low pulse is well formed |
| Pulses.SearchPresses | src/d20.rs:312-352 | the press found lies after those already made and within the limit of 100000 |
| Pulses.SearchStep | src/d20.rs:315-350 | the search stops at a press that reaches the target with a low pulse and otherwise goes on from the state after that press |
| Pulses.PressedNext | src/d20.rs:315-350 | a press that finishes without reaching the target extends the run of such presses |
| Pulses.SearchFirst | src/d20.rs:315-352 | the press number found is the first: all earlier presses finish without a low pulse to the target and that one sends one |
| Pulses.FindFirstLow | src/d20.rs:309-353 | the answer is a press number between 1 and 100000 |
| Pulses.FindFirstLowIsFirst | src/d20.rs:309-353 | the answer is the first press during which the target receives a low pulse |
| Pulses.SearchStart | src/d20.rs:87-104 | the start found is the first below the period plus 2000 from which ten periods fit, the event is low and the events repeat; none found means none exists |
| Pulses.SearchLength | src/d20.rs:86-106 | the period found is the shortest with an acceptable start, and the start is the earliest for it; none found means none exists up to half the length |
| Pulses.FindRepeatingPattern | src/d20.rs:85-107 | a pattern found starts with a low event, fits ten periods and repeats to the end, with no shorter period acceptable; none means no period up to half the length is |
| StepCounter.Plain | src/d21.rs:22-30 | each row keeps its length with the start 'S' replaced by '.' and every other character kept |
| StepCounter.LastIn | src/d21.rs:22-25 | finds the last position of the character in a row, or none when it does not occur |
| StepCounter.StartIn | src/d21.rs:20-32 | the start is an 'S' with no 'S' after it in reading order; none when no row holds one |
| StepCounter.FromLines | src/d21.rs:12-42 | needs at least one row; width is the first row's length, height the row count, rows with 'S' made plain, and the start the last 'S' or (0, 0) |
| StepCounter.MoveFromIndex | src/d21.rs:96-99 | the four moves are (2k+1) % 3 - 1 and (2k+1) / 3 - 1 |
| StepCounter.TruncRem | src/d21.rs:107 | the remainder truncates toward zero, taking the sign of the dividend |
| StepCounter.Wrap | src/d21.rs:107 | ((a % m) + m) % m with truncating % is the mathematical remainder |
| StepCounter.WrapPeriodic | src/d21.rs:104-109 | wrapping is periodic in the grid size in both directions |
| StepCounter.WrapInside | src/d21.rs:104-109 | wrapping leaves a coordinate already on the grid unchanged |
| StepCounter.CellAt | src/d21.rs:111-113 | a cell exists exactly on the grid and holds that row's character |
| StepCounter.NotMissing | src/d21.rs:104-116 | when no row is shorter than the first, no looked-up cell is missing in either mode |
| StepCounter.OpenRepeats | src/d21.rs:104-109 | on the repeating map a plot is open exactly when its copy a width or a height away is |
| StepCounter.OpenInside | src/d21.rs:104-116 | on the grid the repeating and the bounded map agree |
| StepCounter.NeighboursFrom | src/d21.rs:96-117 | the queued neighbours are exactly the open plots one step away |
| StepCounter.ReachedGrows | src/d21.rs:60-118 | the plots within i steps are among those within j ≥ i steps |
| StepCounter.RingIsDistance | src/d21.rs:60-118 | a plot first reached at distance d is within d steps and not within fewer |
| StepCounter.DistanceIsRing | src/d21.rs:60-118 | a plot within d steps and not within fewer lies at distance exactly d |
| StepCounter.ReachedNear | src/d21.rs:60-118 | every plot within d steps is within Manhattan distance d of the start |
| StepCounter.StepManhattan | src/d21.rs:96-102 | one move changes the Manhattan distance by at most one and flips the checkerboard colour |
| StepCounter.ReachedInside | src/d21.rs:110-116 | on the bounded map every reached plot other than the start is an open cell on the grid |
| StepCounter.RingNext | src/d21.rs:60-118 | the neighbours of distance d lie within d + 1 steps, and the new ones are exactly distance d + 1 |
| StepCounter.NextBelow | src/d21.rs:60-118 | the neighbours of the plots nearer than d lie within d steps |
| StepCounter.NextMono | src/d21.rs:96-117 | more plots have more neighbours |
| StepCounter.RingParity | src/d21.rs:92-94 | a plot at distance d has the start's colour exactly when d is even, so parity of the distance is parity of position |
| StepCounter.RingStep | src/d21.rs:96-117 | every plot at distance d > 0 is one open move from a plot at distance d − 1 |
| StepCounter.ElemsAppend | src/d21.rs:108 | the elements of joined queues are the union of their elements |
| StepCounter.NextAdd | src/d21.rs:96-117 | the neighbours of one more plot add exactly its open neighbours |
| StepCounter.VisitOne | src/d21.rs:60-117 | visiting an unseen plot adds one visited plot and queues exactly its open neighbours |
| StepCounter.VisitLayer | src/d21.rs:60-117 | processing one distance layer visits exactly its plots, queues exactly their neighbours and counts the new plots when counted |
| StepCounter.VisitStep | src/d21.rs:60-117 | one dequeued plot keeps the layer invariant, whether seen before or not |
| StepCounter.LayerDone | src/d21.rs:60-117 | after a layer the visited plots are those within d steps, the new ones are distance d, and the queue is the next layer |
| StepCounter.Bfs | src/d21.rs:51-118 | visits exactly the plots within the step budget, and counts those whose distance has the budget's parity |
| StepCounter.ShellSize | src/d21.rs:48 | the shell size lcm(w, h) · 2 is positive |
| StepCounter.Run | src/d21.rs:45-136 | succeeds exactly for a non-empty grid, a budget below one shell, and no plot within the budget with a neighbour looked up past the end of its row (the index panic); then counts the plots reachable in exactly the budget on the chosen map |
| StepCounter.WideNeverPanics | src/d21.rs:104-116 | a map with no row shorter than the first never panics on a lookup |
| StepCounter.ShortRowPanics | src/d21.rs:111-113 | ["S..", "."] with budget 2 and no repeat reaches a lookup past the end of the short second row |
| SandSlabs.Cells | src/d22.rs:67-79 | a brick's cubes are exactly the points from its start along its axis up to its length |
| SandSlabs.ParsePoint | src/d22.rs:11-19 | parses exactly when there are at least three comma-separated fields and every field is an integer, to the first three |
| SandSlabs.ParseShowPoint | src/d22.rs:11-19 | a printed point parses back to itself |
| SandSlabs.ParsePointOf | src/d22.rs:11-19 | three integer fields parse to the point they name |
| SandSlabs.SplitShowPoint | src/d22.rs:12 | a printed point splits on commas into its three printed coordinates |
| SandSlabs.FromPoints | src/d22.rs:107-119 | succeeds exactly when at most one coordinate differs, to a brick covering exactly the points between the ends; equal ends give a length-0 brick along X |
| SandSlabs.ParseBrick | src/d22.rs:125-130 | a parsed line held a '~' |
| SandSlabs.ParseShowBrick | src/d22.rs:125-130 | a printed pair of ends parses to the brick built from them |
| SandSlabs.AboveTouches | src/d22.rs:96-105 | a brick above another, not overlapping it, starts right on top of it |
| SandSlabs.WillFall | src/d22.rs:81-94 | the occupied spots come back unchanged with the brick's own cubes in them |
| SandSlabs.Dropped | src/d22.rs:159-163 | the dropped brick occupies exactly the cells one below the brick's cells |
| SandSlabs.Lower | src/d22.rs:143-169 | a brick moves exactly when it can fall, and then by exactly one step down; otherwise it stays |
| SandSlabs.HeightUpdate | src/d22.rs:159-164 | replacing one brick changes the total height by the change in that brick's height |
| SandSlabs.Pass | src/d22.rs:142-170 | a pass only lowers bricks; if anything moved the total height dropped, otherwise nothing changed |
| SandSlabs.Settle | src/d22.rs:140-174 | settling only lowers bricks and keeps their number |
| SandSlabs.OthersRest | src/d22.rs:147-149 | taking a brick's cubes out of the spots leaves exactly the other bricks' cubes |
| SandSlabs.UnionUpdate | src/d22.rs:159-163 | after replacing a brick the spots are the other bricks' cubes plus the new ones |
| SandSlabs.DropFree | src/d22.rs:151-161 | a brick with nothing under any cube can drop without overlapping anything |
| SandSlabs.DisjointUpdate | src/d22.rs:159-163 | a replacement that overlaps no other brick keeps the bricks disjoint |
| SandSlabs.LowerGood | src/d22.rs:143-169 | lowering one brick keeps the bricks disjoint and the spots equal to their cubes |
| SandSlabs.PassGood | src/d22.rs:142-170 | a pass keeps the bricks disjoint and the spots exact |
| SandSlabs.PassStill | src/d22.rs:171-173 | a pass with no move leaves the spots unchanged, and no brick from there on can fall |
| SandSlabs.LowerStill | src/d22.rs:165-169 | a brick that cannot fall changes neither itself nor the spots |
| SandSlabs.SettleRests | src/d22.rs:140-174 | after settling the bricks are still disjoint, the spots exact, and no brick can fall |
| SandSlabs.FirstFalling | src/d22.rs:178 | the brick found is at or after the search position |
| SandSlabs.FirstFallingGood | src/d22.rs:178-180 | none is found exactly when no brick can fall, and one found can fall |
| SandSlabs.RestingSupported | src/d22.rs:81-94 | a brick cannot fall exactly when it is on the ground or some brick supports it |
| SandSlabs.HeldUp | src/d22.rs:185-192 | a brick with another brick's cube under one of its cubes has a support |
| SandSlabs.Held | src/d22.rs:185-192 | a brick with a support has another brick's cube under one of its cubes |
| SandSlabs.Supports | src/d22.rs:185-192 | the supports of a brick are other bricks |
| SandSlabs.ForcedAdd | src/d22.rs:215-224 | a brick left without support is in every closed set containing what went before |
| SandSlabs.LeastUnique | src/d22.rs:212-229 | the least closed set is unique |
| SandSlabs.ChainReaction | src/d22.rs:205-232 | on success, the bricks removed are the least set closed under "all supports gone", and the count is its size less one; on failure every closed set reaches a brick the removed one rests on |
| SandSlabs.CountZero | src/d22.rs:234-238 | a brick's count is zero exactly when every brick it supports off the ground has another support |
| SandSlabs.AllChains | src/d22.rs:203-232 | every count is its brick's chain reaction size; failure means some chain reaches a brick its starter rests on |
| SandSlabs.Settled | src/d22.rs:133-174 | settling keeps the number of bricks |
| SandSlabs.SettledRest | src/d22.rs:176-180 | after settling from their cubes, no brick can fall, so the panic check passes |
| SandSlabs.Run | src/d22.rs:122-239 | an answer is the sum of the chain counts of the settled bricks, or the number of zero counts; failing on parsed disjoint bricks means a chain reached a support |
| LongWalk.AllDirs | src/d23.rs:13-15 | every direction is set |
| LongWalk.NoDirs | src/d23.rs:17-19 | no direction is set |
| LongWalk.With | src/d23.rs:21-24 | adds exactly the given direction |
| LongWalk.CellMoves | src/d23.rs:64-84 | a cell is accepted exactly when it is one of "#.^>v<"; its moves are none for a wall, all for a path, and the slope's own direction unless slopes are ignored |
| LongWalk.CellDirs | src/d23.rs:61-112 | a direction is open exactly when the cell allows it and the neighbour that way is not a wall |
| LongWalk.WallSides | src/d23.rs:87-110 | each of the four neighbour checks tests exactly the wall on that side, on the grid |
| LongWalk.Prune | src/d23.rs:87-110 | a direction is dropped exactly when it is the one checked and a wall lies there |
| LongWalk.FromLines | src/d23.rs:51-121 | succeeds exactly for a non-empty map with no line shorter than the first and known cells within the first line's width; each cell's open directions are those it allows without a wall beyond |
| LongWalk.RowNodes | src/d23.rs:127-139 | lists exactly the cells of a row from x on that have an open direction, left to right |
| LongWalk.IncreasingAppend | src/d23.rs:127-139 | joining two ordered lists with all of the first before the second stays ordered |
| LongWalk.NodesFrom | src/d23.rs:127-139 | lists exactly the cells with an open direction from row y on, in reading order |
| LongWalk.Positions | src/d23.rs:124-139 | the nodes are exactly the cells with an open direction, in reading order |
| LongWalk.NodeIndex | src/d23.rs:132-137 | a node's index points at it; a cell that is no node maps to 0 |
| LongWalk.NodeIndexCounts | src/d23.rs:132-137 | a node's index is the number of nodes before it in reading order |
| LongWalk.EdgesFrom | src/d23.rs:148-176 | at most one unit edge per remaining direction, each leading to the neighbour's index |
| LongWalk.RawGraph | src/d23.rs:141-179 | one node per open cell, with the edges of its open on-grid directions, all in range |
| LongWalk.RawEdges | src/d23.rs:148-176 | every raw edge has length 1 and goes through an open on-grid direction to that neighbour's node |
| LongWalk.Redirect | src/d23.rs:215-226 | every edge to the bypassed node is replaced and no other |
| LongWalk.Bypass | src/d23.rs:207-227 | a two-edge node loses its edges, and its two neighbours' edges to it become one edge to each other with the summed length; nothing else changes |
| LongWalk.RedirectAt | src/d23.rs:214-226 | only the one node's edges change, by redirection |
| LongWalk.Simplify | src/d23.rs:204-230 | the graph keeps its nodes and each node with exactly two edges is emptied while the others keep their edge count |
| LongWalk.Compact | src/d23.rs:123-182 | one node per open cell, with every edge in range |
| LongWalk.PathCons | src/d23.rs:253-265 | a path starting with an edge to an unvisited neighbour is valid exactly when the rest is from that neighbour, and its length adds up |
| LongWalk.Longest | src/d23.rs:244-268 | away from the target, a node whose every neighbour is already visited reaches nothing; LongestSpec fixes every other answer as the length of the longest simple path |
| LongWalk.BestFrom | src/d23.rs:253-265 | the loop never loses a best found so far nor lowers it, and returns it unchanged when every remaining neighbour is visited |
| LongWalk.LongestSpec | src/d23.rs:244-268 | a result is the length of some simple path to the target, and no simple path is longer; none means no path exists |
| LongWalk.BestSpec | src/d23.rs:253-265 | the loop over edges keeps the best found so far as achieved and as an upper bound of the edges seen |
| LongWalk.SkipVisited | src/d23.rs:255 | an edge to a visited node adds no path |
| LongWalk.NarrowFrom | src/d23.rs:253-265 | a length achieved from later edges is achieved from earlier ones too |
| LongWalk.TakeSlot | src/d23.rs:256-262 | a path from the neighbour extends to one from the source through that edge |
| LongWalk.TakeCover | src/d23.rs:256-262 | a best that beats the neighbour's longest plus the edge bounds every path through that edge |
| LongWalk.BestStep | src/d23.rs:253-265 | one loop step keeps the loop invariant |
| LongWalk.Run | src/d23.rs:271-281 | an answer is the length of a simple path from the first node to the last that no other is longer than; failure on a parsed map means the two are not connected |
| Hailstones.Sub | src/d24.rs:18-28 | the difference added back gives the minuend, and it is zero exactly for equal vectors |
| Hailstones.EvalStep | src/d24.rs:48-54 | a ray is at its start at time 0 and moves by its direction each time step |
| Hailstones.InMovingFrame | src/d24.rs:41-46 | a ray seen from the moving frame keeps its start |
| Hailstones.MovingFrameEval | src/d24.rs:41-54 | in the moving frame the ray is at its position less v · t at every time t |
| Hailstones.DivRem | src/d24.rs:58 | the truncating quotient and remainder recombine to the dividend, the remainder is smaller than the divisor in size and has the dividend's sign |
| Hailstones.QuotientUnique | src/d24.rs:57-63 | when the division is exact the remainder is zero and the quotient is the only one |
| Hailstones.TryDivInt | src/d24.rs:57-63 | a result times the divisor is the dividend |
| Hailstones.TryDivIntExact | src/d24.rs:57-63 | the result is q exactly when q times the divisor is the dividend |
| Hailstones.SolveIn | src/d24.rs:75-87 | with a non-zero determinant in a plane, a result is a pair of times at which both rays are at the same point |
| Hailstones.Collide | src/d24.rs:66-118 | a result is a pair of times at which both rays meet; rays with all three determinants zero give none |
| Hailstones.Cramer | src/d24.rs:75-78 | the two numerators are the determinant times the two unknowns of a solved 2×2 system |
| Hailstones.MeetEquations | src/d24.rs:70-71 | rays that meet satisfy both linear equations in any plane |
| Hailstones.SolveInFinds | src/d24.rs:75-87 | with a non-zero determinant, rays meeting at times a, b are found at exactly those times |
| Hailstones.CollideExactly | src/d24.rs:66-118 | the result is (a, b) exactly when some determinant is non-zero and the rays meet at those times |
| Hailstones.ConvergingStep | src/d24.rs:136-148 | when every ray meets the rock at its time, each consecutive pair collides at exactly those times |
| Hailstones.ConvergingSteps | src/d24.rs:136-148 | every converging time list makes each consecutive pair collide at its times |
| Hailstones.Extend | src/d24.rs:139-147 | a consecutive collision that starts at the previous time extends the chained prefix by a non-negative time |
| Hailstones.ExtendOne | src/d24.rs:139-147 | a time found this way is the next entry of every converging time list |
| Hailstones.CollisionTimes | src/d24.rs:123-151 | fewer than two rays give no result (the source panics indexing the second); a result is a chain of non-negative times linking consecutive rays; when the rays converge on v the result is exactly those times |
| Hailstones.AgreesFully | src/d24.rs:123-151 | a complete agreeing chain is the only converging time list |
| Hailstones.ChainedCommonPoint | src/d24.rs:123-151 | in the moving frame every ray is at the first ray's point at its time |
| Hailstones.ChainedHitsAll | src/d24.rs:153-163 | the rock thrown from the computed start with velocity v hits every ray at its time, so the convergence check cannot panic |
| Hailstones.ParseVec3 | src/d24.rs:165-168 | parses exactly when there are at least three comma fields that are integers after trimming, to the first three |
| Hailstones.ParseRay | src/d24.rs:170-181 | parses exactly when there is an '@' with a vector on each trimmed side |
| Hailstones.ParseInput | src/d24.rs:170-181 | parses exactly when every line does, one ray per line |
| Hailstones.ShowIntTrimmed | src/d24.rs:166 | a printed integer has no surrounding space, so trimming keeps it |
| Hailstones.ShowVecParts | src/d24.rs:166 | a printed vector splits on commas into its printed coordinates |
| Hailstones.ParseShowVec | src/d24.rs:165-168 | a printed vector parses back to itself |
| Hailstones.ParseShowRay | src/d24.rs:170-181 | a printed ray parses back to itself |
| Hailstones.RaySplit | src/d24.rs:174 | a printed ray splits at the '@' into its padded start and direction |
| Snowverload.Insert | src/d25.rs:18-28 | a known name keeps the cache and returns its index; a new name is appended and gets the next index; the cache stays a bijection between names and indices |
| Snowverload.Connected | src/d25.rs:40 | lists exactly the nodes from i on that have a neighbour, in increasing order |
| Snowverload.NewGraph | src/d25.rs:39-47 | keeps the adjacency, makes active exactly the nodes with a neighbour, in order, and gives every node cardinality 1 |
| Snowverload.NewGraphTotal | src/d25.rs:41 | the cardinalities of a new graph add up to its node count |
| Snowverload.Position | src/d25.rs:72 | finds the first occurrence of a value, or none exactly when it is absent |
| Snowverload.SwapRemove | src/d25.rs:71-72 | removing an entry by swap keeps every other entry, one fewer in all |
| Snowverload.Rename | src/d25.rs:65-69 | a neighbour's edges to t become edges to s, no other count changes, and the list keeps its length |
| Snowverload.Contract | src/d25.rs:56-70 | s gets the edges of s and t except those between them, t's self-wires become s's unless t lists itself exactly once, s's list length is the two lengths less the shared entries, and t is left without edges |
| Snowverload.MoveCard | src/d25.rs:74-75 | t's cardinality moves to s, keeping the total |
| Snowverload.Merge | src/d25.rs:53-76 | fails exactly when s equals t or t is not active (the assert and the unwrap); otherwise t leaves the active list, its cardinality moves to s and the total stays |
| Snowverload.ContractEntries | src/d25.rs:56-70 | the adjacency after a merge is exactly the contraction of t into s |
| Snowverload.ContractEntry | src/d25.rs:56-70 | each edge count after the merge: zero at t, s's self-wires plus t's on s's loop, summed for s, and unchanged elsewhere |
| Snowverload.ContractedWellFormed | src/d25.rs:53-76 | contraction keeps the graph symmetric, in range and with every node listing itself an even number of times |
| Snowverload.MergeContracts | src/d25.rs:53-76 | a merge keeps the graph well formed, contracts t into s, and s's degree is the two degrees less twice the edges between them |
| Snowverload.MergeWellFormed | src/d25.rs:53-76 | a merge keeps the graph well formed |
| Snowverload.MergeActive | src/d25.rs:71-72 | after a merge every active node is still a node |
| Snowverload.MergeDegree | src/d25.rs:56-70 | the merged node's degree is the two degrees less twice the edges between them |
| Snowverload.Phase | src/d25.rs:99-110 | a phase fails exactly when the chosen pair cannot be merged; otherwise it keeps the node count and total cardinality, and records t's cardinality as the split size |
| Snowverload.PhaseWellFormed | src/d25.rs:99-110 | a phase keeps the graph well formed |
| Snowverload.Phases | src/d25.rs:98-111 | k phases record exactly k cuts |
| Snowverload.PhasesSnoc | src/d25.rs:98-111 | one more successful phase appends its cut |
| Snowverload.PhasesSnocFail | src/d25.rs:98-111 | a failed phase fails the run |
| Snowverload.PhasesFailLater | src/d25.rs:98-111 | once the phases fail, more phases fail too |
| Snowverload.SizesSnoc | src/d25.rs:101-102 | every recorded split size stays within the total cardinality |
| Snowverload.FirstMinNext | src/d25.rs:106-109 | keeping a cut only when strictly lighter keeps the first lightest cut |
| Snowverload.Calculate | src/d25.rs:94-117 | succeeds exactly for at least two nodes when all node-count-minus-one phases succeed, and returns the first lightest phase cut, whose split size is within the total cardinality |
| Snowverload.AddName | src/d25.rs:151-163 | the node for a name exists and holds that name; names and nodes only grow |
| Snowverload.Connect | src/d25.rs:165-166 | a wire adds one edge each way between its two ends and nothing else |
| Snowverload.AddTargets | src/d25.rs:158-167 | adding a line's targets only grows the names |
| Snowverload.AddLine | src/d25.rs:150-167 | a line fails exactly when it has no ':' |
| Snowverload.BuildFrom | src/d25.rs:150-168 | building keeps one node per name |
| Snowverload.Targets | src/d25.rs:158-167 | one wire per target, each from the line's name |
| Snowverload.MalformedCons | src/d25.rs:151 | the lines are malformed exactly when the first has no ':' or the rest are malformed |
| Snowverload.Wires | src/d25.rs:150-168 | the wires are read exactly when no line lacks a ':' |
| Snowverload.CountUnknown | src/d25.rs:165-166 | a name that starts no wire has no wires from it |
| Snowverload.CountUnknownTarget | src/d25.rs:165-166 | a name that ends no wire has no wires to it |
| Snowverload.AddNameReads | src/d25.rs:151-163 | naming a new node keeps the graph in step with the wires read |
| Snowverload.AddNameEntry | src/d25.rs:151-163 | every edge count of the grown graph is the number of wires between the two names, either way |
| Snowverload.CountSnoc | src/d25.rs:165-166 | one more wire adds one to exactly its own count |
| Snowverload.NamesDistinct | src/d25.rs:18-28 | distinct indices in a valid cache hold distinct names |
| Snowverload.ConnectReads | src/d25.rs:165-166 | connecting a wire keeps the graph in step with the wires read |
| Snowverload.ConnectInRange | src/d25.rs:165-166 | connecting known nodes keeps every edge in range |
| Snowverload.ConnectEntry | src/d25.rs:165-166 | every edge count after connecting is the number of wires between the two names, either way |
| Snowverload.AddTargetsReads | src/d25.rs:158-167 | a line's targets keep the graph in step with its wires |
| Snowverload.TargetsCons | src/d25.rs:158-167 | the wires of a line are its first target's wire then the rest |
| Snowverload.AddLineReads | src/d25.rs:150-167 | a line keeps the graph in step with its wires |
| Snowverload.WiresCons | src/d25.rs:150-168 | the wires of the lines are the first line's wires then the rest's |
| Snowverload.BuildFromReads | src/d25.rs:150-168 | building succeeds exactly when the wires read, and each edge count is the number of wires between the two names, either way |
| Snowverload.BuildReads | src/d25.rs:145-168 | the built diagram succeeds exactly when the wires read, matches them, is symmetric, and lists every self-wire twice |
| Snowverload.ReadsSymmetric | src/d25.rs:165-166 | a graph in step with the wires is symmetric and every node lists itself an even number of times |
| Snowverload.FirstMinUnique | src/d25.rs:94-117 | the first lightest cut is unique |
| Snowverload.AnswerFrom | src/d25.rs:174-181 | a cut of weight 3 gives the product of the two group sizes as the answer; any other weight gives none (the assert) |
| Snowverload.NewGraphWellFormed | src/d25.rs:39-47 | a symmetric diagram in range whose nodes list themselves an even number of times gives a well formed graph |
| Snowverload.Run | src/d25.rs:145-182 | a line without ':' fails; an answer, self-wires included, is the product of the group sizes of the first lightest cut when it weighs 3, and failure means no answer exists |
| Text.Find | src/d1.rs:18 | finds the first position where the word occurs, and none exactly when it never occurs |
| Text.RFind | src/d1.rs:24 | finds the last position where the word occurs, and none exactly when it never occurs |
| Text.StripPrefix | src/d18.rs:59-62 | succeeds exactly when the text starts with the prefix, and gives what follows it |
| Text.StripSuffix | src/d18.rs:64 | succeeds exactly when the text ends with the suffix, and gives what precedes it |
| Text.Trim | src/d24.rs:166 | the trimmed text is a slice of the input with only white space outside it, and neither starts nor ends with white space |
| Text.TrimIs | src/d24.rs:166 | any slice with only white space outside it and no white space at its ends is the trimmed text |
| Text.Split | src/d22.rs:12 | splitting gives at least one field, none holding the separator, and joining them back gives the text |
| Text.SplitJoin | src/d9.rs:22 | fields without the separator, joined and split again, give the same fields |
| Text.SplitOnce | src/d25.rs:151 | fails exactly when the separator is absent; otherwise splits at its first occurrence |
| Text.SplitOnceStr | src/d20.rs:66 | fails exactly when the pattern never occurs; otherwise splits at its first occurrence |
| Text.SplitStr | src/d20.rs:81 | splitting on a pattern gives at least one field, none holding the pattern, and the fields joined with the pattern give back the text |
| Text.SplitStrJoin | src/d20.rs:81 | fields joined with the pattern and split again give the same fields |
| Text.Words | src/d4.rs:22-25 | the words are exactly the non-empty fields of the split on ' ', in order, and hold no space |
| Text.NonEmptyPicks | src/d4.rs:22-25 | filtering out empty fields keeps exactly the non-empty ones, at increasing positions |
| Text.WordsJoin | src/d4.rs:22-25 | non-empty fields without spaces, joined with spaces, come back as the same fields |
| Text.ParseNat | src/d2.rs:43 | parses exactly an optional '+' followed by digits, to their decimal value |
| Text.ParseShowNat | src/d2.rs:43 | a printed natural number parses back to itself |
| Text.ParseInt | src/d9.rs:22 | a leading '-' needs digits after it and negates their value; otherwise parses as a natural number |
| Text.ParseShowInt | src/d9.rs:22 | a printed integer parses back to itself |
| Text.ParseNats | src/d4.rs:22-26 | all fields parse exactly when each does, value by value |
| Text.ParseInts | src/d9.rs:22 | all fields parse exactly when each does, value by value |
| Text.ParseHex | src/d18.rs:76 | a non-empty text without '+' parses exactly when every character is a hex digit, to its base-16 value |

## Left out

- The unit-test modules of every day file are not modelled as such; the examples they check that are cheap to state are lemmas listed in the table above.
- The integration tests under `tests/` compare answers with puzzle-input fixture files that are not part of this model.
- The `main` of `src/bin/d1/main.rs` (lines 1-3) reads input and prints; it is I/O.
- Formatting code: the `Display` implementations (src/d10.rs:134-157, src/d20.rs:15-32), `_make_state_str` (src/d20.rs:408-415) and the `println` at src/d19.rs:298.
- Machine-width overflow of `u8`/`u16`/`u32`/`u64`/`i64` arithmetic is not modelled beyond the cases named in the conventions above; the puzzle inputs stay far from the limits.
- Unicode: input is taken to be ASCII, so `is_numeric` in day 1 is the ASCII digit test and `ch as u8` in day 15 is the character code modulo 256.
- The first example of `parse_game` (src/d2.rs:92-102) is not stated as a lemma; its sets name only some colours, while the round trip `CubeGame.GameRoundTrip` prints all three.
- Day 5: `merge_ranges` sorts by start, so the two tests at src/d5.rs:296-303, which list ranges in another order, are read as sets of ranges.
- Day 10: `calc_cycle`, `enclosed_area` and `run` (the walk around the loop and the final count) are not modelled; the direction algebra, the conversions, start-pipe inference and the two colouring passes are.
- Day 12: the memo cache of `count_matches` is left out; only the count it computes is specified.
- Day 14: the tilt example at src/d14.rs:143-161 is not stated as a lemma; the fixpoint property of `tilt_north` is proved for every board instead.
- Day 14: the billion spin cycles are not unrolled; the cycle skip is proved correct for any iterated function.
- Day 18: the concrete area of the example plan is not stated as a lemma.
- Day 20: the "rx" branch of `find_first_low` (src/d20.rs:161-308) names modules of one particular puzzle input and is left out, and so is part 2 of `run` that relies on it.
- Day 21: the extrapolation over repeated map shells (src/d21.rs:66-90 and 120-133) is a heuristic for one input shape; a step budget that would reach it gives `Err`.
- Day 24: the floating-point `find_xy_intersection` and the part-1 count (src/d24.rs:183-231) and the brute-force velocity search (src/d24.rs:233-255) are left out, and so is `run`, which consists of them.
- Day 25: the priority-queue search inside `min_cut_phase` is a parameter, an oracle that returns the last two active nodes of a phase; adjacency lists are multisets, and the final product is unbounded.
- Day 23: node indices and distances, `u16` in the source, are unbounded.
- Day 17: the frontier is a sequence from which the first cheapest entry is taken, instead of the `priority_queue` crate, which merges an equal entry pushed twice and breaks ties in its own order; neither changes the answer, which is proved to be the least heat of any accepting walk.
- Wasteland.Intersect: the combined cycle length is proved to be a positive common multiple of both lengths, not the least one.
- Crucible.Run: a heat map with a row shorter than the first is an `Err` even when the search never enters the missing cells, where the source would still answer.
- Beams.Run: a grid with a row shorter than the first is an `Err` even when no beam reaches the missing cells, where the source would still answer.
- Lagoon.Gaps: its own contract gives the error case exactly but only an upper bound on the count; GapsCount states the count itself (the filled gap cells).
- Lagoon.ScanRow: its own contract only bounds a row's total; ScanRowCount states the total itself (the row's counted cells).
- Lagoon.ExecutePlan: the size is proved to be the number of cells the row scan counts (every dug cell, and every gap cell whose gap has the inside colouring left of its right end); that these are exactly the cells enclosed by the trench is not proved.
- Lagoon.Area: equals the counted cells of its rows (AreaCounts); that they are the enclosed cells is not proved.
- Lagoon.Run: states when it succeeds; the area it returns is that of ExecutePlan.
- Pulses.Part1: `fuel` bounds the pulses of each press; a press that never settles makes the source loop forever and the model return `Err`. PressesFuel shows that more fuel changes no result that succeeds.
- Pulses.Watch: its own contract states only well-formedness; WatchTrace relates it to the pulses of the unwatched press, for a press that can be worked off.
- Pulses.Pressed: states well-formedness of the state after the presses; each press in it is a Watch, which WatchTrace relates to the processed pulses.
- Aplenty.Run: for part 2 only the bound of 4000^4 is stated here; Part2CountsAccepted relates the count to the accepted parts.
- Aplenty.ParsePart: one direction only; the round trip with the printed part is the partner.
- Aplenty.ParseWorkflow: one direction only; the round trip with the printed workflow is the partner.
- Aplenty.ParseCondition: one direction only; the round trip with the printed condition is the partner.
- SandSlabs.ParseBrick: one direction only; the round trip with the printed brick is the partner.
- SandSlabs.Settled: states only that the number of bricks is kept; SettledRest states that no brick can fall afterwards.
- SandSlabs.Settle: states that bricks are only lowered and their number kept, not their final heights; SettleRests states that no brick can fall afterwards.
- StepCounter.Run: specified only for step budgets below one shell of the repeated map; larger budgets give `Err` instead of the extrapolated count.
- ReflectorDish.Cycle: states only that the board stays rectangular; the effect of each tilt and rotation is stated on those members.
- Springs.Run: states when parsing fails, not the sum of counts; CountMatchesCorrect specifies each count.
- Snowverload.AddTargets: states sizes only; BuildFromReads is the partner that states the edge counts.
- Snowverload.BuildFrom: states sizes only; BuildFromReads is the partner that states the edge counts.

## Findings

| source | as written | input that shows it | evidently intended | confidence | as-written member | corrected member |
|---|---|---|---|---|---|---|
| src/d8.rs:47 | `intersect` tests `(x + r.length - ra)` for divisibility by `r.length` in `u64`; when `x + r.length < ra` the subtraction underflows, which panics in a debug build and wraps in a release build | left offset 1, left length 1, right offset 6, right length 2: the first candidate x = 1 gives 1 + 2 - 6 < 0, although x = 2 (n = 1) is congruent to 6 modulo 2 | keep the candidates x with x ≡ ra (mod r.length) for every x, by testing `(x + r.length) % r.length == ra % r.length` or working in signed arithmetic | not executed | Wasteland.MatchTestAsWritten, Wasteland.IntersectUnderflows | Wasteland.FirstMatch |
