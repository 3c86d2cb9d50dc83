# Advent of Code 2023 solutions, modelled in Dafny

This project models the puzzle scripts of the Advent of Code 2023 PHP
repository. Each script reads an input file, runs one deterministic
computation on integers, strings or character grids, and prints a number.
Here each core script is one Dafny module, `DayNPartM` in `dayN_partM.dfy`.
Most modules take the already-parsed input (`seq<int>`, `seq<seq<char>>`,
`map`) and return what the script would print. A few also model the part of
the parsing that shapes the answer: the digit clean-up of day 1, the seed
pairs of day 5 part 2, the race pairing of day 6, the network lines of day 8,
the colour codes of day 18 part 2, the module lines of day 20 (type
characters, declaration order, last line wins), and the bricks built from
the six numbers of a day 22 line. Where the PHP would throw,
die or return `null`, the module mostly returns `None` or an outcome
constructor. The exceptions are preconditions that exclude such inputs;
each one is listed under "## Left out".

Shared pieces have modules of their own:
- `Common` holds `Option`, sums and products, and the digit helpers.
- `Day14Cycles` models the cycle detection of day 14 for any step function and state hash.
- `Day17Search` models the priority-queue search that both day 17 scripts run.
- `Day20Circuits` holds small concrete circuits for day 20.
- `Day22Bricks` models the brick construction, overlap test and settling that both day 22 scripts share.

Loops that may never stop take a `fuel: nat` bound. These are the walks of
days 8 and 10, the workflow runs of day 19 and the button presses of day 20.
Running out of fuel is an answer of its own, never a guess.

Each module relates what its script computes to a reference definition:
a sum over the matching items, a least-cost walk, the set of reachable
cells, the per-number conversion, the first round at which a walk ends. It
also proves the invariants that the script's loops keep. Where the meaning
of an answer is only partly stated, "## Left out" names the member and what
is missing.

## Model

| member | source | states |
|---|---|---|
| Day1Part1.CleanLine | day_1/part1.php:15 | the cleaned line holds only digits and is no longer than the line |
| Day1Part1.CleanLineConcat | day_1/part1.php:15 | cleaning keeps exactly the digit characters in their order: it distributes over concatenation |
| Day1Part1.CleanLineIdempotent | day_1/part1.php:15 | cleaning a cleaned line changes nothing |
| Day1Part1.CalibrationValue | day_1/part1.php:16 | a line's value is a two-digit number, below 100 |
| Day1Part1.CalibrationValueMeaning | day_1/part1.php:16 | the value is 10 x the line's first digit + its last digit (one digit counts twice), and 0 for a line without digits |
| Day1Part1.GetCalibrationSum | day_1/part1.php:14-18 | the total is the sum of the line values, between 0 and 99 per line |
| Day2Part1.IsGamePossible | day_2/part1.php:33-41 | true iff every draw's count is at most the limit of its colour |
| Day2Part1.EmptyGamePossible | day_2/part1.php:35-40 | a game without draws is possible under any limits |
| Day2Part1.PossibleMonotone | day_2/part1.php:36 | raising limits never makes a possible game impossible |
| Day2Part1.PossibleIdsMembers | day_2/part1.php:56-63 | an ID is summed iff some possible game carries it |
| Day2Part1.GetGameIds | day_2/part1.php:50-64 | the total is the sum of the IDs of the possible games, in order |
| Day2Part2.MinimumCubeSetMeaning | day_2/part2.php:32-43 | a colour is in the set iff drawn; its value bounds every draw of that colour and equals one of them |
| Day2Part2.MinimumCubeSetIsLeast | day_2/part2.php:32-43 | the game is possible with the minimum set, and with given limits iff they cover the set |
| Day2Part2.CubeProduct | day_2/part2.php:51-54 | the power is never negative |
| Day2Part2.CubeProductPositive | day_2/part2.php:51-54 | the power is positive iff no colour in the set has maximum 0 (absent colours count as 1) |
| Day2Part2.ProcessGames | day_2/part2.php:62-74 | the total is the sum of the game powers and is non-negative |
| Day3Part1.OffsetsAreNeighbours | day_3/part1.php:70-74 | the offset list holds exactly the eight displacements around a cell |
| Day3Part1.HasAdjacentSymbolFrom | day_3/part1.php:76-88 | the offset loop from offset k is true iff a later offset lands on an in-bounds symbol |
| Day3Part1.HasAdjacentSymbolMeaning | day_3/part1.php:68-89 | true iff one of the eight neighbours is inside the grid and holds a character other than a digit, '.' or ' ' |
| Day3Part1.RunEnd | day_3/part1.php:19-25 | the run continues over digits only and stops at the row end or at a non-digit |
| Day3Part1.NoStartsInsideRun | day_3/part1.php:33 | no number starts inside a run, so skipping to the run's end loses nothing |
| Day3Part1.ScanRowCountsEachRunOnce | day_3/part1.php:15-35 | the jumping column scan adds exactly the maximal digit runs, each once |
| Day3Part1.SumOfPartNumbers | day_3/part1.php:9-39 | the sum is, over all rows, the sum over maximal digit runs adjacent to a symbol of their values |
| Day3Part2.CleanRow | day_3/part2.php:19-21 | cleaning keeps the length and maps each character to itself if a digit or '*', else to '.' |
| Day3Part2.Clean | day_3/part2.php:19-21 | every row is cleaned and the row count is kept |
| Day3Part2.CleanMeaning | day_3/part2.php:19-21 | after cleaning only '*' is a symbol, digits stay digits, and cleaning is idempotent |
| Day3Part2.CheckFromMeaning | day_3/part2.php:94-106 | nothing is found iff no offset qualifies; otherwise the result is the first qualifying neighbour in offset order |
| Day3Part2.CheckForAdjacentGearAsWritten | day_3/part2.php:86-107 | as written: the returned position passes PHP's isset, which admits negative string offsets |
| Day3Part2.CheckForAdjacentGear | day_3/part2.php:86-107 | corrected: the returned position is an in-grid symbol next to the cell; none is returned iff no neighbour holds one |
| Day3Part2.InBoundsCheckMeaning | day_3/part2.php:94-106 | with in-bounds lookups the offset scan finds exactly the adjacent in-grid symbols |
| Day3Part2.FindAdjacentGearMeaning | day_3/part2.php:67-76 | a number has no gear iff none of its columns has one; otherwise it gets the first column's gear |
| Day3Part2.FoundGearIsStar | day_3/part2.php:67-76 | with in-bounds lookups a found gear is a '*' of the original schematic |
| Day3Part2.AttachRowGearsAreStars | day_3/part2.php:24-46 | every number attached while scanning a row is attached to a real '*' |
| Day3Part2.AttachmentsGearsAreStars | day_3/part2.php:24-46 | every attachment of the whole scan names a real '*' |
| Day3Part2.KeysPartitionAttachments | day_3/part2.php:37-53 | gears are listed once each, exactly those with attachments, and every number sits in exactly one gear's group |
| Day3Part2.PhantomGearExample | day_3/part2.php:98-101 | on ["5..*", "6..."] the as-written sum is 30 through the phantom gear "0--1"; with in-bounds lookups it is 0 |
| Day4Part1.MatchCount | day_4/part1.php:25-26 | the match count never exceeds the number of winning entries |
| Day4Part1.MatchCountIsMatchedPositions | day_4/part1.php:25-26 | the match count is the number of winning positions whose number the card holds |
| Day4Part1.MatchCountExtremes | day_4/part1.php:25-26 | all winning numbers held gives the full count; none held gives 0 |
| Day4Part1.PointsDoubling | day_4/part1.php:29 | a card scores iff it has a match; one match is 1 point and each further match doubles it |
| Day4Part1.CalculateTotalPoints | day_4/part1.php:9-35 | the total is the sum of the cards' points and is non-negative |
| Day4Part2.CopiesLoop | day_4/part2.php:42-47 | after t rounds the loop has added at least t copies |
| Day4Part2.CopiesBounds | day_4/part2.php:29-48 | a card wins at least one copy per match, none without matches, and exactly one per match when the won cards win nothing |
| Day4Part2.LoopWithoutDescendants | day_4/part2.php:43-45 | rounds whose won cards win nothing add exactly one each |
| Day4Part2.LastCardCopies | day_4/part2.php:30-32 | wins past the last card add 1 each and recurse to 0 |
| Day4Part2.CountCards | day_4/part2.php:9-20 | a bottom-up pass from the last card equals the card count plus the recursive copies of every card |
| Day5Part1.Convert | day_5/part1.php:20-28 | a number no line covers is unchanged; otherwise the first covering line shifts it by dst − src |
| Day5Part1.FirstMappingWins | day_5/part1.php:21-25 | when two lines both cover a number, whichever comes first decides its conversion |
| Day5Part1.GetLowestLocation | day_5/part1.php:37-49 | null exactly when there are no seeds; otherwise the smallest location reached by some seed |
| Day5Part2.ParseSeedRanges | day_5/part2.php:45-54 | one inclusive range per pair, starting at the pair's start and covering exactly start .. start + length − 1 (a missing length reads as 0) |
| Day5Part2.ConvertRange | day_5/part2.php:14-36 | the conversion of a range is never empty |
| Day5Part2.EmittedMeaning | day_5/part2.php:18-28 | the loop emits nothing exactly when no line overlaps the range; each emitted piece is an overlap shifted by its line |
| Day5Part2.ConvertRangeMeaning | day_5/part2.php:14-36 | a range overlapping no line is returned unchanged; otherwise only the shifted overlaps are returned, all non-empty |
| Day5Part2.LowestFold | day_5/part2.php:97-100 | the fold from PHP_INT_MAX is a lower bound of every endpoint and is either the sentinel or one of the endpoints |
| Day5Part2.LowestLocation | day_5/part2.php:97-102 | null for no ranges; a value is an endpoint below PHP_INT_MAX bounding all endpoints; any start below the sentinel gives a value |
| Day5Part2.OutsideAllMeaning | day_5/part2.php:30-33 | the pieces left uncovered by a line are exactly the input numbers that line does not cover |
| Day5Part2.InsideAllMeaning | day_5/part2.php:22-26 | the shifted pieces of a line hold exactly the images of the covered input numbers |
| Day5Part2.ConvertRangeCorrected | day_5/part2.php:14-36 | with uncovered parts kept, the output ranges hold every converted number of the range and nothing else |
| Day5Part2.ConvertPiecesComplete | day_5/part2.php:18-33 | every number of the input pieces has its per-number conversion among the output pieces |
| Day5Part2.ConvertPiecesSound | day_5/part2.php:18-33 | every number of the output pieces is the conversion of some input number |
| Day5Part2.ApplyMapsCorrectedExact | day_5/part2.php:88-95 | pushing ranges through all maps yields exactly the seed numbers' part-1 locations, in non-empty ranges |
| Day5Part2.LowestLocationCorrected | day_5/part2.php:87-103 | the corrected range answer is the smallest part-1 location of any seed number (none when all are at or above the sentinel) |
| Day5Part2.DroppedRangeExample | day_5/part2.php:30-33 | seeds 0..9 with the single line (100, 5, 5): as written the answer is 100 although seed 0 reaches location 0 |
| Day6Part1.WinsBelow | day_6/part1.php:38-47 | the count of winning holds below a bound never exceeds the number of holds tried |
| Day6Part1.CalculateWinningStrategies | day_6/part1.php:34-50 | the loop returns the number of holds h in 1 .. time − 1 with h·(time − h) above the record, at most max(0, time − 1) |
| Day6Part1.WinsSymmetric | day_6/part1.php:39-41 | holding h wins exactly when holding time − h wins |
| Day6Part1.WinnersContiguous | day_6/part1.php:38-47 | any hold lying between two winning holds also wins, so the winners form one run |
| Day6Part1.WinsBelowMonotone | day_6/part1.php:38 | trying more hold times never lowers the count |
| Day6Part1.AllWinIffFullCount | day_6/part1.php:44-46 | the count equals the number of holds tried exactly when every hold wins |
| Day6Part1.NoneWinIffZero | day_6/part1.php:44-46 | the count is zero exactly when no hold wins |
| Day6Part1.PairRaces | day_6/part1.php:17-22 | races pair times and records position by position, as many as the shorter list |
| Day6Part1.CalculateTotalWinningWays | day_6/part1.php:58-68 | the product of the per-race counts: 1 with no races, never negative, and zero exactly when some race cannot be won |
| Day6Part2.ConcatenatedNumber | day_6/part2.php:13-16 | a line without digits reads as 0 |
| Day6Part2.DigitsConcatenate | day_6/part2.php:13-16 | the number of a line is the digits of its left part followed by those of its right part |
| Day6Part2.SpacesIgnored | day_6/part2.php:13 | the spaces separating numbers vanish: the kerning is ignored |
| Day6Part2.ParseConcatenatedRaceData | day_6/part2.php:9-17 | the single race has a non-negative time and record |
| Day6Part2.CalculateTotalWinningWaysForLongRace | day_6/part2.php:27-55 | the answer is the winning count of the concatenated time and record, at most time − 1 |
| Day6Part2.RecordMonotone | day_6/part2.php:37 | raising the record never increases the count |
| Day7Part1.CardValue | day_7/part1.php:29-33 | every valid card has a value between 2 and 14 |
| Day7Part1.CardValueInjective | day_7/part1.php:31 | two cards have the same value exactly when they are the same card |
| Day7Part1.HandRank | day_7/part1.php:42-72 | every hand gets a type between High card (3) and Five of a kind (9) |
| Day7Part1.FiveOfAKindIff | day_7/part1.php:51-52 | a hand is Five of a kind exactly when all its cards are equal |
| Day7Part1.HighCardIff | day_7/part1.php:53-69 | a five-card hand is High card exactly when no card repeats |
| Day7Part1.TwoDistinctCounts | day_7/part1.php:53-58 | five cards of two kinds always split 4 + 1 or 3 + 2, so the fall-through to High card never happens there |
| Day7Part1.MaxCountRange | day_7/part1.php:45-58 | the largest count times the number of distinct cards is at least the hand size, and the two add up to at most the hand size plus one |
| Day7Part1.Profile | day_7/part1.php:51-69 | for five cards: one distinct card exactly when the largest count is 5, two force 3 or 4, a count of 4 forces two, three force 2 or 3, four force 2, five exactly when no card repeats |
| Day7Part1.FourOfAKindIff | day_7/part1.php:53-55 | a five-card hand is Four of a kind exactly when some card occurs four times |
| Day7Part1.FullHouseIff | day_7/part1.php:53-58 | a five-card hand is Full house exactly when it holds two kinds of card and the largest count is 3 |
| Day7Part1.ThreeOfAKindIff | day_7/part1.php:59-61 | a five-card hand is Three of a kind exactly when it holds three kinds of card and the largest count is 3 |
| Day7Part1.TwoPairIff | day_7/part1.php:59-64 | a five-card hand is Two pair exactly when it holds three kinds of card and none more than twice |
| Day7Part1.OnePairIff | day_7/part1.php:65-66 | a five-card hand is One pair exactly when it holds four kinds of card, and then the largest count is 2 |
| Day7Part1.Pigeonhole | day_7/part1.php:45 | a hand drawn from D with no card more than k times has at most k·\|D\| cards |
| Day7Part1.DistinctCount | day_7/part1.php:45 | the count table has at most as many keys as the hand has cards, and exactly as many when no card repeats |
| Day7Part1.RankIgnoresOrder | day_7/part1.php:45-46 | the type depends only on which cards the hand holds, not on their order |
| Day7Part1.CompareValues | day_7/part1.php:88-95 | the card loop returns 0 exactly when all five values agree, and otherwise ±1 |
| Day7Part1.CompareKeysOrder | day_7/part1.php:76-99 | the comparator is antisymmetric, returns 0 only on equal keys, and its ≤ is transitive |
| Day7Part1.CompareHandsZeroIff | day_7/part1.php:76-99 | two valid hands compare equal exactly when they are the same hand |
| Day7Part1.Insert | day_7/part1.php:76 | inserting an entry adds exactly that entry to the multiset of entries |
| Day7Part1.InsertSorted | day_7/part1.php:76-99 | inserting into a comparator-sorted list keeps it sorted |
| Day7Part1.SortEntries | day_7/part1.php:74-102 | usort's result is a permutation of the hands in ascending comparator order |
| Day7Part1.InsertWithKey | day_7/part1.php:76-99 | inserting an entry places it after every entry with its key, leaving the others of each key in order |
| Day7Part1.SortStable | day_7/part1.php:74-102 | the sort is stable, as PHP 8's `usort` is: the hands of each key come out in their input order |
| Day7Part1.SortedStableUnique | day_7/part1.php:74-102 | two sorted lists that list the hands of every key in the same order are equal, so the order and the winnings are fully determined |
| Day7Part1.WinningsAtLeastBids | day_7/part1.php:116-120 | with non-negative bids the winnings are non-negative and at least every hand's position times its bid |
| Day7Part1.CalculateTotalWinnings | day_7/part1.php:110-123 | the total is Σ (position + 1) × bid over a sorted permutation of the hands that keeps equal hands in input order |
| Day7Part2.JokerValueOrder | day_7/part2.php:30-34 | J is worth less than every other card, and values still tell cards apart |
| Day7Part2.CountMap | day_7/part2.php:45 | the count table's keys are the hand's cards, each mapped to its number of copies |
| Day7Part2.MapMax | day_7/part2.php:67 | max($counts) bounds every count and is one of them; 0 for an empty table |
| Day7Part2.TopCard | day_7/part2.php:118-129 | the card that receives the jokers has the highest count and is the greatest among such cards |
| Day7Part2.AdjustCountsBasedOnJokers | day_7/part2.php:117-134 | only the top card's count changes, by the number of jokers; keys are unchanged and the maximum grows by the number of jokers |
| Day7Part2.JokerCount | day_7/part2.php:49 | the joker count is the table's J entry, or 0 when there is none |
| Day7Part2.AllJokers | day_7/part2.php:53-55 | a hand of jokers only is Five of a kind |
| Day7Part2.NoJokersAsBefore | day_7/part2.php:42-83 | a non-empty hand without jokers gets the same type as in part 1 |
| Day7Part2.SubstituteCount | day_7/part2.php:130-131 | turning every joker into the top card moves the jokers' count onto that card, so the total is unchanged |
| Day7Part2.JokersBecomeTopCard | day_7/part2.php:49-82 | a hand with some non-joker has the part-1 type of the hand in which every joker became the top card |
| Day7Part2.CompareJokerHandsZeroIff | day_7/part2.php:145-168 | with joker values, two valid hands compare equal exactly when they are the same hand |
| Day7Part2.CalculateTotalWinningsWithJokers | day_7/part2.php:179-192 | the total is Σ (position + 1) × bid over the hands sorted stably by the joker comparator |
| Day8Part1.ExplodeWithoutSeparator | day_8/part1.php:16 | a line without the separator explodes into itself alone |
| Day8Part1.ParseNode | day_8/part1.php:16 | splitting "N = rest" on " = " yields exactly the node name and the rest |
| Day8Part1.ParseSuccessors | day_8/part1.php:17 | splitting "L, R" on ", " yields exactly the two successors |
| Day8Part1.TrimParentheses | day_8/part1.php:17 | trimming parentheses from "(inner)" gives back inner |
| Day8Part1.ParseLineRoundTrip | day_8/part1.php:16-17 | a well-formed "N = (L, R)" line parses back to N with successors [L, R] |
| Day8Part1.AddNode | day_8/part1.php:17 | storing a node overwrites its successors and keeps the key order free of duplicates |
| Day8Part1.ParseNetwork | day_8/part1.php:14-19 | the parsed network's key order lists each node once and matches the map's keys |
| Day8Part1.ParseNetworkNodes | day_8/part1.php:14-19 | the network's nodes are exactly the names of the non-falsy lines |
| Day8Part1.ParseNetworkLastWins | day_8/part1.php:17 | when a node is defined twice the later line wins |
| Day8Part1.ParseInput | day_8/part1.php:9-22 | parsing fails only on an empty file |
| Day8Part1.Direction | day_8/part1.php:42 | the direction is 1 exactly when the instruction at step mod length is 'R', else 0 |
| Day8Part1.Next | day_8/part1.php:42-43 | a step follows the chosen successor when the node lists it, and otherwise lands on PHP's `null`, which behaves as the name "" |
| Day8Part1.NavigateNetworkMeaning | day_8/part1.php:32-48 | navigation returns n exactly when the walk from AAA first stands on ZZZ after n steps, within the fuel |
| Day8Part1.NavigateNetwork | day_8/part1.php:32-48 | a walk that arrives takes at least one step; the exact count is stated by NavigateNetworkMeaning |
| Day8Part1.NavigateFromFuel | day_8/part1.php:36-45 | a walk that arrives never takes more steps than its fuel |
| Day8Part1.NavigateFrom | day_8/part1.php:36-45 | a walk resumed at step s that arrives reports at least s steps; the exact count is stated by NavigateNetworkMeaning |
| Day8Part2.FindStartingNodes | day_8/part2.php:30-34 | the starting nodes are exactly the network's nodes whose name ends in 'A' |
| Day8Part2.CycleFrom | day_8/part2.php:50-56 | the loop either answers a step count within its fuel, runs out of fuel, or fails on an empty instruction line, and it fails exactly then; a missing node or successor does not stop it |
| Day8Part2.LostForever | day_8/part2.php:50-54 | a walk that reaches PHP's `null` (a name absent from the network) never ends |
| Day8Part2.FindCycleLengthMeaning | day_8/part2.php:46-57 | the cycle length is n exactly when n ≥ 1 is the first step whose node ends in 'Z', within the fuel |
| Day8Part2.FindCycleLength | day_8/part2.php:46-57 | a found cycle length lies between 1 and the fuel; the exact length is stated by FindCycleLengthMeaning |
| Day8Part2.GcdIsGreatest | day_8/part2.php:77-82 | for non-negative inputs gcd is a common divisor that every common divisor divides, and 0 only for 0 and 0 |
| Day8Part2.LcmIsCommonMultiple | day_8/part2.php:66-68 | for positive inputs lcm is a positive common multiple no larger than their product |
| Day8Part2.GcdScale | day_8/part2.php:77-82 | scaling both inputs of gcd scales the result |
| Day8Part2.LcmIsLeast | day_8/part2.php:59-68 | for positive inputs lcm divides every common multiple, so it is the least one |
| Day8Part2.CalculateLcm | day_8/part2.php:93-99 | the fold is positive, a multiple of every length, and 1 for no lengths |
| Day8Part2.CalculateLcmLeast | day_8/part2.php:84-99 | the fold divides every common multiple of the lengths and is no larger than any positive one |
| Day8Part2.CycleLengths | day_8/part2.php:112-114 | each start gets its own cycle length in order, or the walk's failure is passed on |
| Day8Part2.NavigateGhosts | day_8/part2.php:108-117 | the answer is positive and every start's cycle length divides it |
| Day8Part2.NavigateGhostsLeast | day_8/part2.php:108-117 | the answer divides every common multiple of the starts' cycle lengths, so no smaller positive number is one |
| Day9Part1.Differences | day_9/part1.php:40-44 | each level is one element shorter and holds the pairwise differences of the level above |
| Day9Part1.DifferenceLevel | day_9/part1.php:40-44 | the inner loop builds exactly the next difference level |
| Day9Part1.ExtrapolateHistory | day_9/part1.php:35-52 | the loop computes the history's next value: its last element plus the last element of every difference level |
| Day9Part1.Extrapolate | day_9/part1.php:27-56 | the result is the sum of the next values of all histories |
| Day9Part1.NextRecurrence | day_9/part1.php:39-51 | the next value of a non-empty history is its last value plus the next value of its difference level |
| Day9Part1.ExtendsDifferences | day_9/part1.php:39-51 | appending the next value extends the difference level by that level's own next value |
| Day9Part1.ZeroHistory | day_9/part1.php:42-51 | a history of zeros extrapolates to zero |
| Day9Part1.ConstantHistory | day_9/part1.php:39-51 | a constant history, a single value in particular, extrapolates to that constant |
| Day9Part1.ArithmeticDifferences | day_9/part1.php:42 | an arithmetic history's differences all equal its step |
| Day9Part1.ArithmeticHistory | day_9/part1.php:39-51 | a + d·i for i < n (n ≥ 2) extrapolates to a + d·n |
| Day9Part1.NextLinear | day_9/part1.php:39-51 | extrapolation is linear: the next value of a pointwise sum is the sum of next values |
| Day9Part2.ExtrapolateBackwards | day_9/part2.php:29-60 | the result is the sum of the values extrapolated from the reversed histories |
| Day9Part2.NextNegate | day_9/part2.php:35-55 | negating a history negates its extrapolated value |
| Day9Part2.DifferencesReverse | day_9/part2.php:35-53 | the differences of a reversed history are the reversed differences negated |
| Day9Part2.PreviousRecurrence | day_9/part2.php:35-55 | the value before a non-empty history is its first value minus the value before its difference level |
| Day9Part2.ExtendsDifferencesBackwards | day_9/part2.php:43-55 | prepending the computed value extends the difference level backwards by that level's own previous value |
| Day9Part2.ArithmeticPrevious | day_9/part2.php:35-55 | a + d·i for i < n (n ≥ 2) extrapolates backwards to a − d |
| Day9Part2.SinglePrevious | day_9/part2.php:43-55 | a single value extrapolates backwards to itself |
| Day10Part1.Slot | day_10/part1.php:14-25 | a lookup is set on an array row exactly in bounds; on a row after the start's row, still a string, also for x from -len to -1, which reads index len + x from the row's end |
| Day10Part1.Cell | day_10/part1.php:14-25 | the character read is the row's character at that index, the plain in-bounds read on every row up to the start's |
| Day10Part1.AcceptsIsOpensBack | day_10/part1.php:14-25 | a tile accepts a move in a direction exactly when it is a pipe (not 'S') opening back the opposite way |
| Day10Part1.AdjacentCoordinates | day_10/part1.php:11-27 | the result lists exactly the neighbours the tile opens toward and that open back; at most four, each a set cell one step away and never 'S' |
| Day10Part1.AdjacentIff | day_10/part1.php:14-25 | the neighbour in a direction is listed exactly when the two tiles connect in that direction |
| Day10Part1.AdjacencySymmetric | day_10/part1.php:14-25 | away from 'S' tiles, b is adjacent to a exactly when a is adjacent to b |
| Day10Part1.WrapsOnStringRow | day_10/part1.php:14-16 | on a row after the start's row (never split), a tile at column 0 opening left connects to the row's last tile when that tile opens right |
| Day10Part1.NoWrapOnArrayRow | day_10/part1.php:14-16 | on a row up to the start's row (split into an array) nothing connects left of column 0 |
| Common.DecimalValueBound | day_3/part1.php:29 | a run of k digits cast with `(int)` is below 10^k |
| Common.IndexOf | day_10/part1.php:39 | array_search finds the first occurrence, or none exactly when the character is absent |
| Day10Part1.InitialPosition | day_10/part1.php:35-45 | the start is the first 'S' in row-major order, and there is none exactly when no row holds an 'S' |
| Day10Part1.Mark | day_10/part1.php:64 | marking writes 'S' at the character the position reads (through a negative offset too), changes no cell read through another index, and keeps every 'S' |
| Day10Part1.MoveWalkers | day_10/part1.php:62-69 | a round only writes 'S' marks; each walker it moves ends one step from where it stood, on a set cell, and the tile it left reads 'S'; a stopped round has marked the stuck walker's tile |
| Day10Part1.Loop | day_10/part1.php:59-76 | a finished loop counts at least the moves already made and at most one more per round of fuel |
| Day10Part1.IterateShift | day_10/part1.php:61-74 | i + 1 rounds from a state are i rounds from the state after its first round |
| Day10Part1.LoopFirstEnd | day_10/part1.php:61-74 | when round i is the first after which a walker stopped or the first two walkers met, the loop counts one move per round up to it, the stopping round not counted |
| Day10Part1.LoopEndExists | day_10/part1.php:61-74 | a loop that returns a count ended after some round within the fuel |
| Day10Part1.LoopOutOfFuel | day_10/part1.php:61-74 | the loop runs out of fuel exactly when no round within the fuel ends it |
| Day10Part1.RoundsOne | day_10/part1.php:62-69 | the first round is one pass of the `foreach` over the starting walkers |
| Day10Part1.RoundsNext | day_10/part1.php:62-69 | every later round is one pass of the `foreach` from where the previous round left the map and the walkers |
| Day10Part1.Traverse | day_10/part1.php:61-74 | a finished walk counts at least the moves already made and at most one more per round of fuel |
| Day10Part1.TraverseFirstEnd | day_10/part1.php:59-76 | the count is the moves up to the first round after which a walker stops or the first two walkers meet; a count implies such a round within the fuel; the walk runs out of fuel exactly when no round within the fuel ends it |
| Day10Part1.ComputeMapTraversal | day_10/part1.php:53-77 | the walk fails for want of a start exactly when the map has no 'S', and otherwise counts between 1 and fuel + 1 moves |
| Day10Part1.ComputeMapTraversalRounds | day_10/part1.php:53-77 | from the start's neighbours with one move counted, the answer is the moves up to the first round that ends the walk |
| Day10Part1.NoStepBack | day_10/part1.php:63-64 | once a walker's old tile is marked, it is not adjacent to the walker's new tile |
| Day10Part2.Block | day_10/part2.php:9-45 | every expansion block is 3×3 with the tile itself at its centre |
| Day10Part2.BlockOpenings | day_10/part2.php:15-44 | a pipe's block reaches exactly the edge midpoints of the directions the pipe opens toward |
| Day10Part2.Expand | day_10/part2.php:148-165 | expanded cell (r, c) is cell (r mod 3, c mod 3) of the block of tile (r div 3, c div 3), with 'S' expanded as the starting pipe |
| Day10Part2.ExpandCell | day_10/part2.php:157-161 | cell (3y + a, 3x + b) of the expansion is cell (a, b) of tile (y, x)'s block |
| Day10Part2.StartingPipe | day_10/part2.php:117-139 | the pipe is one of the six pipe shapes; no neighbours give '-'; there is none (the function falls off its end) exactly with a single neighbour above or below a start in column 0 |
| Day10Part2.StartingPipeConnects | day_10/part2.php:124-138 | the inferred pipe opens toward each of the (at most two) neighbours it was inferred from |
| Day10Part2.LastStartFrom | day_10/part2.php:175-181 | the start is the first 'S' of the last row holding one, and none exactly when no row holds an 'S' |
| Day10Part2.MoveWalkersOnce | day_10/part2.php:189-196 | a pass only writes 'S' marks and keeps every walker on a cell of the map |
| Day10Part2.WalkLoop | day_10/part2.php:188-201 | the walk only ever writes 'S' marks onto the map |
| Day10Part2.KeepLoop | day_10/part2.php:203-207 | marked tiles keep their character and every other tile becomes '.' |
| Day10Part2.Fill | day_10/part2.php:82-108 | the fill only turns fillable cells into 'O', never increases the number of fillable cells, and leaves its seed unfillable |
| Day10Part2.FillClosed | day_10/part2.php:82-108 | every cell the fill turns into 'O' ends with no fillable neighbour |
| Day10Part2.FillWithin | day_10/part2.php:82-108 | a fill started inside a set of cells closed under fillable neighbours turns only cells of that set into 'O' |
| Day10Part2.FillAllWithin | day_10/part2.php:89-92 | the four-direction loop around a cell of such a set turns only cells of that set into 'O' |
| Day10Part2.FloodExact | day_10/part2.php:221-235 | a filling that leaves no fillable cell on the border or next to an 'O', and turns only cells of every seeded closed set, turned exactly the fillable cells the border reaches |
| Day10Part2.FillCoordinates | day_10/part2.php:221-235 | afterwards no border cell is fillable and only fillable cells became 'O'; on a map without 'O' the 'O' cells are exactly the fillable cells that a path of fillable cells joins to the border |
| Day10Part2.ExpandHasNoO | day_10/part2.php:9-45 | an expanded map contains no 'O' yet |
| Day10Part2.CountOccurrences | day_10/part2.php:243-251 | the count is the number of '.' cells over all rows |
| Day10Part2.FloodCount | day_10/part2.php:243-251 | after the flood the '.' cells left are exactly the '.' cells the border does not reach |
| Day10Part2.Prepare | day_10/part2.php:173-209 | no start tile exactly when no row holds 'S'; no starting pipe only for a start with a single neighbour; a prepared map is three times as tall as the input and holds no 'O' |
| Day10Part2.ComputeEnclosed | day_10/part2.php:173-213 | fails for want of a start exactly when no row holds 'S'; otherwise gives the error that stops the script before the flood, or the number of '.' cells of the expanded map that no path of fillable cells joins to the border |
| Day10Part2.LoneStart | day_10/part2.php:173-213 | a lone 'S' gets the pipe '-', its walk ends at once, and nothing is enclosed |
| Day11Part1.RowGalaxies | day_11/part1.php:28-32 | the galaxies of one row are exactly its '#' cells, left to right |
| Day11Part1.FindGalaxies | day_11/part1.php:24-35 | a position is listed iff it holds '#', and the list is in row-major order |
| Day11Part1.Without | day_11/part1.php:62-63 | a value survives `array_diff` iff it is in the range and not among the galaxy coordinates |
| Day11Part1.EmptyColumns | day_11/part1.php:58-65 | a column is expanded iff it lies inside the first row's width and no row has a galaxy in it |
| Day11Part1.EmptyRows | day_11/part1.php:58-65 | a row is expanded iff it is a row of the image holding no galaxy |
| Day11Part1.GalaxyNotExpanded | day_11/part1.php:58-65 | no galaxy lies on an expanded column or row |
| Day11Part1.AxisDistanceExpanded | day_11/part1.php:79-90 | the axis distance with one extra per empty line strictly between equals the plain distance after doubling every empty line |
| Day11Part1.PairDistanceExpanded | day_11/part1.php:79-90 | the pair distance is the Manhattan distance between the two galaxies' images in the expanded image |
| Day11Part1.PairDistanceProperties | day_11/part1.php:79-90 | the pair distance is symmetric, zero for a galaxy and itself, and at least the Manhattan distance |
| Day11Part1.CountBelowDifference | day_11/part1.php:82 | the lines strictly between two coordinates are those below the larger and not below the smaller, less the smaller itself |
| Day11Part1.EachPairOnce | day_11/part1.php:109-113 | popping each position and summing its distances to the rest counts every unordered pair exactly once |
| Day11Part1.SumPairs | day_11/part1.php:108-114 | the popping loop's total is half the sum over all ordered pairs |
| Day11Part1.TotalDistance | day_11/part1.php:103-115 | fails only for an empty image; otherwise twice the answer is the sum over ordered galaxy pairs of their expanded distance |
| Day11Part2.ShouldExpand | day_11/part2.php:150-153 | a line is expanded for a pair iff it lies strictly between the two coordinates, whichever order they come in |
| Day11Part2.ExpansionPerLine | day_11/part2.php:122-139 | each expanded line strictly between the coordinates adds factor − 1 to the plain gap |
| Day11Part2.FactorTwo | day_11/part2.php:129-135 | with factor 2 the axis distance is the one of part 1 |
| Day11Part2.AtLeastPlain | day_11/part2.php:124-137 | a factor of at least 1 never makes a distance shorter than the plain gap |
| Day11Part2.ImageGap | day_11/part2.php:127-137 | the images of two coordinates lie apart by their gap plus factor − 1 per expanded line between |
| Day11Part2.AxisExpansionExpanded | day_11/part2.php:122-139 | for factor ≥ 1 the axis distance is the plain distance between the coordinates' images in the expanded image |
| Day11Part2.ScalingMetric | day_11/part2.php:122-139 | the scaled distance is symmetric and zero for a galaxy and itself |
| Day11Part2.FactorTwoTotal | day_11/part2.php:98-109 | with factor 2 the total equals the total of part 1 |
| Day11Part2.PrepareData | day_11/part2.php:77-86 | fails only for an empty image; the selected columns and rows hold no galaxy coordinate and lie inside the image |
| Day11Part2.TotalScaledDistance | day_11/part2.php:59-63 | fails only for an empty image; otherwise twice the answer is the sum over ordered galaxy pairs of their scaled distance |
| Day12Part1.ProcessSpring | day_12/part1.php:15-36 | a '.' closing a run continues only when the run equals the current group and moves to the next group; a '#' continues only while a group is left and the run stays within it; any other character throws |
| Day12Part1.ScanRuns | day_12/part1.php:46-55 | scanning a row of '.' and '#' from a pending run accepts exactly when the runs still to come are the remaining groups |
| Day12Part1.PossibleIffRuns | day_12/part1.php:46-55 | `isArrangementPossible` accepts a row of '.' and '#' iff its maximal '#' blocks have exactly the listed lengths |
| Day12Part1.RunsFromPending | day_12/part1.php:26-31 | a pending run always yields a first group at least as long as it |
| Day12Part1.ReplaceChar | day_12/part1.php:85-87 | the length is kept, the given place holds the new character and every other place is unchanged |
| Day12Part1.ReplaceUnknown | day_12/part1.php:70-73 | resolving a '?' leaves one '?' fewer |
| Day12Part1.Arrangements | day_12/part1.php:65-74 | every listed row completes the input and is accepted, no row is listed twice, and there are at most 2^k for k '?' |
| Day12Part1.ArrangementsComplete | day_12/part1.php:65-74 | on a well-formed row every completion with the listed groups is listed |
| Day12Part1.ArrangementsDefined | day_12/part1.php:65-74 | on a row of '.', '#' and '?' nothing throws |
| Day12Part1.ArrangementsExactly | day_12/part1.php:65-74 | the list holds each completion whose groups are the listed ones, exactly once |
| Day12Part1.TotalArrangements | day_12/part1.php:96-105 | the sum is defined exactly when no line throws, and is then the number of arrangements of each line added up over the lines |
| Day12Part2.ValidPlacementIff | day_12/part2.php:97-132 | a block inside the row may start at an index iff all its springs may be damaged and its neighbours, where present, may be operational |
| Day12Part2.MaxIndex | day_12/part2.php:142-149 | the bound never grows, and a '#' at the index lowers it to just past the index |
| Day12Part2.HashEndsScan | day_12/part2.php:51-52 | after the start at a '#' no later start is tried |
| Day12Part2.NoGroupLeft | day_12/part2.php:22-29 | with no group left, or a first group below one, the count is 1 iff no '#' remains, else 0 |
| Day12Part2.RemainingDetermined | day_12/part2.php:77-86 | the remaining length handed to a call equals the sum of its later groups, so the result depends only on the row and the groups |
| Day12Part2.WaysShort | day_12/part2.php:49 | no arrangement exists when the row is shorter than the groups plus their gaps, which is what makes the loop bound safe |
| Day12Part2.LoopWays | day_12/part2.php:46-67 | the loop from a start with no '#' before it counts the reference arrangements of the rest of the row |
| Day12Part2.CountWays | day_12/part2.php:15-34 | on a well-formed row with positive groups the count equals the reference count by first spring |
| Day12Part2.WaysSplit | day_12/part2.php:46-67 | the reference count of a row is the sum of the counts with one '?' resolved to '.' and to '#' |
| Day12Part2.RunsFromLeading | day_12/part1.php:15-36 | the leading '#' together with a pending run form the first group, and the rest starts after the '.' that ends it |
| Day12Part2.WaysNoUnknown | day_12/part2.php:15-34 | on a row without '?' the reference count is 1 iff the row's groups are the listed ones |
| Day12Part2.CountMatchesEnumeration | day_12/part2.php:15-67 | the count of part 2 equals the number of arrangements part 1 lists, for every well-formed row with positive groups |
| Day12Part2.UnfoldSprings | day_12/part2.php:209-225 | five copies joined by '?' are 5n + 4 long and hold 5k + 4 unknowns |
| Day12Part2.RepeatProperties | day_12/part2.php:235-240 | the repeated groups sum to n times as much, keep positivity and hold only the original values |
| Day12Part2.UnfoldedCount | day_12/part2.php:191-204 | the unfolded count is the number of arrangements of the unfolded row |
| Day12Part2.TotalArrangements | day_12/part2.php:177-204 | the total is the sum of the unfolded counts of the lines, lines of other shapes adding nothing |
| Day13Part1.MirrorPointsSpec | day_13/part1.php:103-112 | the listed lines are exactly the reflecting lines among 1..n-1, each inside that range, in strictly ascending order |
| Day13Part1.IsSymmetryOnLine | day_13/part1.php:219-230 | true exactly when the two rows hold the same cell (or both nothing) at every column below the width |
| Day13Part1.CheckVertical | day_13/part1.php:149-176 | true exactly when every column pair mirrored across the line, both inside the width, agrees in every row; pairs leaving the block are ignored |
| Day13Part1.CheckHorizontal | day_13/part1.php:189-206 | true exactly when every row pair mirrored across the line, both inside the block, agrees across the width of row 0 |
| Day13Part1.Reflections | day_13/part1.php:103-139 | the candidate lines 1..dimension-1 that pass the axis check, in ascending order |
| Day13Part1.TotalReflectionScore | day_13/part1.php:63-76 | the sum of the vertical lines plus 100 times the sum of the horizontal lines |
| Day13Part1.PatternBlockScore | day_13/part1.php:50-54 | the block score is that total over the block's reflecting lines, and never negative |
| Day13Part1.ReflectionSummary | day_13/part1.php:27-39 | the summary is the sum of the block scores of the blocks in order |
| Day13Part1.Transpose | day_13/part1.php:121-139 | the transposed block swaps row and column indices of every cell |
| Day13Part1.HorizontalIsTransposedVertical | day_13/part1.php:149-206 | a rectangular block reflects across a horizontal line exactly when its transpose reflects across the vertical line of the same index |
| Day13Part1.HorizontalPointsTransposed | day_13/part1.php:121-139 | the horizontal lines of a rectangular block are the vertical lines of its transpose |
| Day13Part2.FlipAt | day_13/part2.php:32-33 | the copy has the block's shape, the chosen cell flipped 0/1 and every other cell unchanged |
| Day13Part2.FlipTwice | day_13/part2.php:33 | on a 0/1 cell, flipping twice restores the block |
| Day13Part2.NewLineValue | day_13/part2.php:52-79 | the script stops only when the original had a vertical line and the flipped block keeps just its first one of a longer list |
| Day13Part2.NewLineMeaning | day_13/part2.php:52-79 | with exactly one original line, the value is defined, nonzero exactly when the flipped block has a new line, and then it is that new vertical line or 100 times that new horizontal line |
| Day13Part2.SmudgeValueMeaning | day_13/part2.php:30-36 | on a one-line block every flip has a value, nonzero exactly when the flipped block shows a new line |
| Day13Part2.SearchFromFound | day_13/part2.php:30-40 | a found value is nonzero and is the value of a cell at or after the start in row-major order |
| Day13Part2.SearchFromFinds | day_13/part2.php:30-40 | on a one-line block, if some flip shows a new line the search does not stop the script |
| Day13Part2.HasNewValidReflectionLine | day_13/part2.php:52-79 | the value compares the flipped block's own reflection lines with the original ones |
| Day13Part2.FixSmudge | day_13/part2.php:20-41 | the first nonzero flip value in row-major order, or a stop when none is found |
| Day13Part2.SmudgeTotalDefined | day_13/part2.php:6-18 | the summary is defined exactly when no block stops the script |
| Day13Part2.ReflectionSummaryWithSmudgeFix | day_13/part2.php:6-18 | the summary is the sum of the per-block smudge values, or a stop |
| Day14Part1.SlideTarget | day_14/part1.php:26-29 | a rock slides back over empty cells only and stops at the edge or at the first non-empty cell |
| Day14Part1.RollKeeps | day_14/part1.php:30-33 | moving one rock swaps it with an empty cell: cube rocks and the rock count stay, later cells are untouched |
| Day14Part1.RollSettles | day_14/part1.php:24-34 | after a rock of a row is moved, no rock up to that row has an empty cell north of it |
| Day14Part1.RollNorth | day_14/part1.php:26-33 | a move never lowers the rock count above any row |
| Day14Part1.RollBarrier | day_14/part1.php:26-33 | a move never carries a rock past a cube rock: the rock count north of a `#` stays |
| Day14Part1.ProcessedBarrier | day_14/part1.php:24-35 | after any number of handled rows the rock count north of every cube rock is that of the input |
| Day14Part1.ProcessedKeeps | day_14/part1.php:24-35 | after rows `0..r-1` of a column the frame and rock count are kept, the prefix is settled, the rest untouched, no prefix loses rocks, and the prefix north of every cube rock keeps its rock count |
| Day14Part1.TiltLineKeeps | day_14/part1.php:23-36 | a tilted column keeps its cube rocks and rock count, is settled, and holds as many rocks north of every cube rock as before, so no rock passes a `#` |
| Day14Part1.ProcessedSettled | day_14/part1.php:24-35 | on a settled column the row loop moves nothing |
| Day14Part1.TiltLineIdempotent | day_14/part1.php:19-39 | tilting a tilted column changes nothing |
| Day14Part1.TiltNorthColumns | day_14/part1.php:19-39 | each column of the tilted platform is that column tilted on its own |
| Day14Part1.TiltNorth | day_14/part1.php:19-39 | the tilted platform keeps the row count and every row's length; the rock movement is stated by TiltNorthColumns and TiltNorthMovesRocksNorth |
| Day14Part1.TiltNorthMovesRocksNorth | day_14/part1.php:19-39 | the tilt keeps every cube rock and the shape, each column's rock count, never lowers the rock count above any row, and keeps it above every cube rock, so each stretch between cube rocks keeps its rocks |
| Day14Part1.TiltNorthSettled | day_14/part1.php:19-39 | after the tilt no rock has an empty cell directly north of it |
| Day14Part1.TiltNorthIdempotent | day_14/part1.php:19-39 | tilting north twice is tilting north once |
| Day14Part1.CountRounded | day_14/part1.php:53 | the number of `O` cells in a row |
| Day14Part1.CalculateTotalLoad | day_14/part1.php:47-58 | the load is each row's rock count times its distance to the south edge, and is never negative |
| Day14Part1.NorthLoad | day_14/part1.php:60-68 | the answer is the load of the north-tilted platform, and exists exactly for a platform with rows |
| Day14Part2.BubbleUp | day_14/part2.php:34-38 | swapping a rock north one cell at a time ends where the part 1 slide puts it |
| Day14Part2.RollClears | day_14/part2.php:34-38 | the cells a rock passes over are empty after it moves |
| Day14Part2.BubbleLine | day_14/part2.php:31-41 | the `N` pass over a line, with its re-scan after every swap, gives the part 1 tilt of that line |
| Day14Part2.SlideTargetRev | day_14/part2.php:56-60 | sliding toward the far end is the slide toward the start in the reversed line |
| Day14Part2.BubbleDown | day_14/part2.php:56-60 | a rock swapped south cell by cell stops where the reversed slide puts it |
| Day14Part2.BubbleLineBack | day_14/part2.php:53-63 | the `S` pass is the `N` pass applied to the reversed line, read back |
| Day14Part2.RevKeeps | day_14/part2.php:53-74 | reversing keeps cube rocks and rock counts |
| Day14Part2.TiltTowardKeeps | day_14/part2.php:30-75 | a pass in any direction keeps the cube rocks and rock count of a line and settles it toward that direction |
| Day14Part2.TiltedLines | day_14/part2.php:25-76 | every line of the tilted platform is that line tilted on its own |
| Day14Part2.TiltedFrame | day_14/part2.php:25-76 | a pass keeps every cube rock and empty-or-rock cell class in place |
| Day14Part2.TiltedRocks | day_14/part2.php:25-76 | each line keeps its rock count through a pass |
| Day14Part2.TiltedSettled | day_14/part2.php:25-76 | after a pass no rock has an empty neighbour in the direction of the tilt |
| Day14Part2.MoveRocks | day_14/part2.php:25-76 | the in-place pass over all lines gives the line-by-line tilt |
| Day14Part2.TiltPattern | day_14/part2.php:128-133 | one spin cycle tilts north, west, south and east in turn |
| Day14Part2.SpinCycle | day_14/part2.php:128-133 | a spin cycle keeps the row count and every row's length; the tilts it runs are stated by TiltPattern |
| Day14Part2.TiltAllFrame | day_14/part2.php:128-133 | any run of tilts keeps the shape and every cube rock |
| Day14Part2.CalculateLoad | day_14/part2.php:103-117 | the load counts each rock by its distance to the south edge, the same load as part 1 |
| Day14Part2.HashMembers | day_14/part2.php:84-95 | the hash lists a cell exactly when it holds a rounded rock |
| Day14Part2.HashIffLayout | day_14/part2.php:84-95 | on platforms of one shape, equal hashes iff the same rock layout; with the same cube rocks, equal hashes mean equal platforms |
| Day14Part2.NoRocksAtRest | day_14/part2.php:25-76 | a platform without rounded rocks is left unchanged by any run of tilts |
| Day14Part2.OrbitFrame | day_14/part2.php:150-168 | every platform reached by spin cycles has the shape and cube rocks of the first |
| Day14Part2.OrbitHash | day_14/part2.php:151-153 | along the spin cycles equal hashes mean equal platforms |
| Day14Cycles.IterateFixed | day_14/part2.php:150-168 | a state the step leaves alone stays forever |
| Day14Cycles.IteratePeriodic | day_14/part2.php:170-171 | once state `j` recurs after `d` steps, the state after `n` steps is the one after `j + (n - j) % d` |
| Day14Cycles.RepeatIndex | day_14/part2.php:153-159 | after the first repeat at `start`, the next hash repeat comes exactly one period after `start + 1` |
| Day14Cycles.KeyBase | day_14/part2.php:171 | the cache key is at the same point of the period as the cycle count |
| Day14Cycles.FreshStep | day_14/part2.php:161-164 | a new hash is remembered and its state cached, keeping the loop's knowledge |
| Day14Cycles.FirstRepeat | day_14/part2.php:154-156 | the first repeated hash marks a state that repeats an earlier one |
| Day14Cycles.SecondRepeat | day_14/part2.php:157-159 | the second repeat makes `period` the true period |
| Day14Cycles.CacheRead | day_14/part2.php:170-172 | the cache entry read is the state after `cycles` steps; only the entry at `start` may be missing |
| Day14Cycles.FindState | day_14/part2.php:142-176 | any state returned is the state after `cycles` steps; a state at rest makes the uncached lookup fail after 4 or more cycles |
| Day14Part2.LoadAfterCycles | day_14/part2.php:142-176 | any load returned is the load after `cycles` spin cycles; with the repeat cached there is always one |
| Day14Part2.CalculateLoadAfterCycles | day_14/part2.php:142-176 | as written: a returned load is the true one, but a platform at rest gets none after 4 or more cycles |
| Day14Part2.CalculateLoadAfterCyclesFixed | day_14/part2.php:142-176 | with the first repeat cached, the load after `cycles` spin cycles, always |
| Day14Part2.EmptyCellUnanswered | day_14/part2.php:142-176 | a one-cell empty platform is at rest and its load after 10^9 cycles is 0 |
| Day15Part1.Hash | day_15/part1.php:12-22 | every HASH value is a byte value, 0 to 255 |
| Day15Part1.HashFromConcat | day_15/part1.php:15-20 | hashing a concatenation continues the hash of the first part over the second |
| Day15Part1.HashSnoc | day_15/part1.php:15-20 | one more byte is one more add-multiply-reduce step on the hash so far |
| Day15Part1.HashRange | day_15/part1.php:14-21 | starting from a byte value the hash stays a byte value, and the empty string keeps the start value |
| Day15Part1.HashAlgorithm | day_15/part1.php:12-22 | the byte loop computes HASH of the whole string, a value in 0..255 |
| Day15Part1.Hashes | day_15/part1.php:35-37 | one hash per step, each the HASH of that step |
| Day15Part1.SumHashResults | day_15/part1.php:30-39 | the answer is the sum of the hashes of the comma-separated steps, at most 255 per step |
| Day15Part1.HashExamples | day_15/part1.php:12-22 | HASH of "HASH" is 52, and a trailing newline left on a step changes its hash (to 30) |
| Day15Part2.GetHash | day_15/part2.php:11-19 | the label hash is the same HASH as part 1, a box number in 0..255 |
| Day15Part2.Find | day_15/part2.php:42-45 | the lookup finds the first slot holding the label, and none when no slot does |
| Day15Part2.FindDistinct | day_15/part2.php:42-45 | with distinct labels a lens is found in exactly its own slot |
| Day15Part2.RemoveLensSpec | day_15/part2.php:40-42 | removal leaves the label absent, every other label's focal length unchanged, one slot fewer exactly when it was present, labels distinct; the result is the box's other lenses in their original order, i.e. the box with the label's one slot cut out |
| Day15Part2.PutLensSpec | day_15/part2.php:43-46 | an update stores the new focal length, keeps an existing lens in its slot, appends a new one at the back, leaves other lenses in place |
| Day15Part2.ApplySpec | day_15/part2.php:33-47 | a step keeps every lens in the box its label hashes to with distinct labels, and changes no box but the label's |
| Day15Part2.InitializeWellFiled | day_15/part2.php:28-50 | after any number of steps every box holds only labels hashing to it, each once |
| Day15Part2.InitializeBoxes | day_15/part2.php:28-50 | the loop applies the steps in order to 256 empty boxes and leaves them well filed |
| Day15Part2.Initialize | day_15/part2.php:28-50 | there are always 256 boxes; their contents are stated by InitializeWellFiled and InitializeBoxes |
| Day15Part2.BoxPowerFactor | day_15/part2.php:66-68 | a box's power is its box number times the slot-weighted sum of its focal lengths |
| Day15Part2.SlotSumUpdate | day_15/part2.php:66-68 | changing one slot's focal length changes the slot-weighted sum by slot number times the change |
| Day15Part2.PowerUpdate | day_15/part2.php:62-69 | changing one box changes the total power by the change of that box's power only |
| Day15Part2.BoxRefocus | day_15/part2.php:66-68 | re-focusing one slot changes its box's power by box number times slot number times the change |
| Day15Part2.RefocusPower | day_15/part2.php:43-46 | re-focusing a lens already present changes the total focusing power by box number times slot number times the change |
| Day15Part2.CalculateFocusingPower | day_15/part2.php:59-72 | the loops add box number times slot number times focal length over every lens, empty boxes contributing nothing |
| Day15Part2.FocusingPower | day_15/part2.php:74-75 | the answer is the focusing power of the boxes after every step |
| Day16Part1.ReflectSpec | day_16/part1.php:32-53 | `\` swaps right with down and left with up, `/` swaps right with up and left with down; a mirror always turns a quarter turn and reflecting twice restores the direction; other characters leave it |
| Day16Part1.NextSpec | day_16/part1.php:84-101 | a splitter met side-on sends the two perpendicular beams; anything else sends one beam in the (possibly reflected) direction; every beam moves one cell in its own direction |
| Day16Part1.ReachesStep | day_16/part1.php:85-101 | a beam leaving a cell some beam reached is reached too |
| Day16Part1.ClosedHoldsReached | day_16/part1.php:66-102 | any set of beams closed under the beam rules and holding the start holds every on-grid beam the start reaches |
| Day16Part1.FollowStep | day_16/part1.php:81-101 | following a (cell, direction) pair seen for the first time keeps every followed pair reached and every on-grid successor followed or pending |
| Day16Part1.DropStep | day_16/part1.php:68-79 | dropping a beam off the grid or a pair already followed loses no pending work |
| Day16Part1.FollowShrinks | day_16/part1.php:76-82 | each (cell, direction) pair is followed at most once, so the pairs left to follow decrease; the followed pair's cell is marked |
| Day16Part1.Visit | day_16/part1.php:66-102 | one visit marks an on-grid cell on entry, before the repeat check, and follows only a new (cell, direction) pair |
| Day16Part1.Traverse | day_16/part1.php:66-102 | the followed pairs are exactly the on-grid beams reachable from the start, and the marked cells exactly the cells they enter |
| Day16Part1.ExploredAll | day_16/part1.php:66-102 | with no beam pending, the followed pairs are closed under the beam rules, so they are all the reachable on-grid beams |
| Day16Part1.EnergizedBound | day_16/part1.php:121-124 | no start energizes more tiles than the grid has cells |
| Day16Part1.EnergizedCount | day_16/part1.php:118-126 | corrected: the count of marked cells is the number of cells some reachable beam enters |
| Day16Part1.MarkedEnergized | day_16/part1.php:118-126 | the cells a finished traversal marks are exactly the cells some reachable beam enters |
| Day16Part1.EnergizedTiles | day_16/part1.php:109-127 | corrected: the answer is the number of tiles energized by a beam entering the top-left cell heading right |
| Day16Part1.Ones | day_16/part1.php:123-124 | the cells holding '1', which `array_count_values` files under the same key as a mark |
| Day16Part1.EnergizedCountAsWritten | day_16/part1.php:118-126 | as written: the count is the energized tiles together with every cell holding '1'; it equals the energized count exactly when every '1' cell is energized |
| Day16Part1.EnergizedTilesAsWritten | day_16/part1.php:109-127 | as written, from the top-left cell heading right: energized tiles together with the '1' cells, the true count on a grid without '1' |
| Day16Part1.StrayOneCounted | day_16/part1.php:118-126 | on the one-row grid of a vertical splitter followed by '1', one tile is energized but the script's count is 2 |
| Day16Part1.CellsCount | day_16/part2.php:114-115 | a grid whose rows all have the first row's length has height times width cells |
| Day16Part1.RowCellsSplit | day_16/part2.php:114-115 | the cells of the first n rows are those of the first n-1 rows plus, disjointly, those of row n-1 |
| Day16Part2.RowStarts | day_16/part2.php:118-121 | for each row in order: the left edge heading right, then the right edge of the first row's width heading left |
| Day16Part2.ColumnStarts | day_16/part2.php:122-125 | for each column of the first row in order: the top edge heading down, then the bottom edge heading up |
| Day16Part2.Starts | day_16/part2.php:113-127 | two starts per row and two per column of the first row |
| Day16Part2.BestStep | day_16/part2.php:119-124 | taking the max with one more start's count keeps the best at least every count so far and equal to one of them or 0 |
| Day16Part2.Consider | day_16/part2.php:119 | one update computes the start's count afresh and keeps the running-maximum property |
| Day16Part2.MaxOver | day_16/part2.php:113-127 | the running maximum from 0 over the starts is at least each start's count, one of them or 0, and within the bound |
| Day16Part2.MaxEnergized | day_16/part2.php:111-128 | corrected count per start: the answer is at least every edge start's energized count, equals one of them unless 0, and is at most height times width for a rectangular grid |
| Day17Search.CostPrefix | day_17/part1.php:169-170 | heat loss only accumulates: a prefix of a walk loses no more heat than the whole walk |
| Day17Search.PushHas | day_17/part1.php:166-172 | every successor of an expanded state is queued with the heat loss so far plus the heat lost entering it |
| Day17Search.PushOnly | day_17/part1.php:166-172 | nothing but the successors is queued on expanding a state |
| Day17Search.Remove | day_17/part1.php:77 | extraction takes exactly one entry off the queue and keeps every other entry |
| Day17Search.MinExists | day_17/part1.php:57 | a non-empty queue always has an entry of least heat loss to extract (priority is the negated heat loss) |
| Day17Search.WalkStaysIn | day_17/part1.php:83-86 | every state along a walk stays in any set that holds the seeds and is closed under the successor relation |
| Day17Search.WalkExtend | day_17/part1.php:169-170 | a walk followed by one successor is a walk whose heat loss grows by the block entered |
| Day17Search.InitInv | day_17/part1.php:53-60 | the queue of seeds satisfies the search invariant: each entry ends a walk of its heat loss |
| Day17Search.Chase | day_17/part1.php:71-89 | following any goal walk through expanded states leads to a queued entry no dearer than the walk |
| Day17Search.Covered | day_17/part1.php:71-89 | while searching, every goal walk has a queued entry no dearer than it |
| Day17Search.EmptyDone | day_17/part1.php:88 | an empty queue means no walk reaches the destination |
| Day17Search.FoundGoal | day_17/part1.php:79-81 | a least entry extracted at the destination is the least heat loss over all walks to it, and some walk loses exactly that |
| Day17Search.SkipStep | day_17/part1.php:83-86 | dropping a least entry whose state was already expanded loses nothing reachable |
| Day17Search.RemoveReached | day_17/part1.php:83-86 | taking off an entry whose state was already expanded within its heat loss keeps every reached state reached |
| Day17Search.PushSound | day_17/part1.php:166-172 | the queued successors end walks of their heat loss and are no cheaper than the expanded state |
| Day17Search.ExpandSound | day_17/part1.php:83-86 | after an expansion every queued entry still ends a walk of its heat loss and none is cheaper than the last extraction |
| Day17Search.ExpandReached | day_17/part1.php:83-86 | after an expansion everything reached before is still reached |
| Day17Search.ExpandStep | day_17/part1.php:83-86 | expanding a least, new, non-goal state keeps the search invariant |
| Day17Search.Shrinks | day_17/part1.php:83-84 | marking a new state visited leaves fewer unvisited states, which bounds the loop |
| Day17Search.Expand | day_17/part1.php:84-85 | marking and expanding a new state keeps the invariant and shrinks the unvisited states |
| Day17Search.Step | day_17/part1.php:74-87 | one pass of the loop either answers with the least goal heat loss or keeps the invariant and makes progress |
| Day17Search.Search | day_17/part1.php:71-89 | the search answers exactly when some walk reaches the destination, and the answer is the least heat loss over all such walks |
| Day17Part1.Enqueue | day_17/part1.php:166-172 | a block is queued exactly when it is inside the square, with the heat of that block |
| Day17Part1.Turns | day_17/part1.php:128-132 | the turn entries are those of the directions in the list, each turn taken when allowed |
| Day17Part1.SuccessorsSpec | day_17/part1.php:123-133 | the successors are exactly the straight move (only from a run below three, run one longer) and the turns into directions that are neither the current one nor its reverse (run reset to one), each inside the map and costing the block entered |
| Day17Part1.Universe | day_17/part1.php:186-189 | the valid states are exactly the in-map states with one of the four directions and a run of one to three |
| Day17Part1.SuccessorsValid | day_17/part1.php:123-133 | a successor of a valid state is valid |
| Day17Part1.UniverseClosed | day_17/part1.php:37-44 | the seeds (the blocks right of and below the source, run one) are valid and validity is closed under successors |
| Day17Part1.WalksValid | day_17/part1.php:125-127 | no state on any walk leaves the map or has a run longer than three |
| Day17Part1.HeatLoss | day_17/part1.php:15-27 | the result exists exactly when a walk reaches the bottom-right block and is then the least heat loss over such walks |
| Day17Part2.TurnsSpec | day_17/part2.php:89-115 | a right turn and a left turn are quarter turns in opposite senses and undo each other, so a turn never continues or reverses |
| Day17Part2.SlideFour | day_17/part2.php:92-98 | sliding four blocks succeeds exactly when all four are on the map and loses the heat of all four |
| Day17Part2.TurnSpec | day_17/part2.php:86-128 | a turn is queued exactly when its four blocks are on the map, ending on the fourth with four moves and the heat of all four |
| Day17Part2.SuccessorsSpec | day_17/part2.php:47-49 | the successors are exactly the left turn, the right turn and the straight move (only from at most nine moves) that stay on the map |
| Day17Part2.Universe | day_17/part2.php:137-140 | the valid states are exactly the seeds and the in-map states with a direction index 0..3 and four to ten moves |
| Day17Part2.TurnValid | day_17/part2.php:86-128 | a turn lands on the map with four moves |
| Day17Part2.StraightValid | day_17/part2.php:66-77 | going straight keeps a run of at most ten, and the seeds cannot go straight |
| Day17Part2.SuccessorsValid | day_17/part2.php:46-49 | every successor of a valid state is valid |
| Day17Part2.UniverseClosed | day_17/part2.php:28-29 | the two seeds are valid and validity is closed under successors |
| Day17Part2.WalksValid | day_17/part2.php:9-10 | every state on a walk past the seeds is on the map after a run of four to ten moves |
| Day17Part2.MinimalHeatLoss | day_17/part2.php:17-53 | the result exists exactly when a walk reaches the bottom-right block and is then the least heat loss over such walks |
| Day18Part2.DecodeAll | day_18/part2.php:19-24 | the codes decode exactly when each does, position by position |
| Day18Part2.Hex | day_18/part2.php:22 | the written digits have the requested count |
| Day18Part2.ModUnique | day_18/part2.php:22 | any quotient-remainder split of a number gives its remainder and quotient |
| Day18Part2.HexStepArith | day_18/part2.php:22 | one hex digit more keeps the number modulo one more power of 16 |
| Day18Part2.HexRoundTrip | day_18/part2.php:22 | reading back k written hex digits gives the number modulo 16 to the k |
| Day18Part2.EncodeShape | day_18/part2.php:21-22 | in a code the character before the last is the direction digit and the five after `(#` are the distance digits |
| Day18Part2.HexFive | day_18/part2.php:22 | five hex digits read back any distance below 16 to the 5th |
| Day18Part2.DecodeEncode | day_18/part2.php:21-22 | decoding the colour code of an instruction gives the instruction back: direction from the second-to-last character indexing R, D, L, U and distance from five hex digits |
| Day18Part2.DecodeExample | day_18/part2.php:21-22 | the code `(#70c710)` decodes to 461937 to the right |
| Day18Part2.NextSpec | day_18/part2.php:65-73 | a move changes one coordinate only, by exactly its distance, and the opposite move undoes it |
| Day18Part2.CrossStep | day_18/part2.php:49 | the shoelace term of an axis-parallel edge is its length times the fixed coordinate, with the direction's sign |
| Day18Part2.AreaAndBorder | day_18/part2.php:38-55 | the loop yields twice the area as the absolute shoelace sum over the trench's edges and the border as the sum of the distances |
| Day18Part2.Rectangle | day_18/part2.php:38-85 | a rectangle a by b closes, has shoelace sum 2ab and border 2a+2b, and its volume by Pick's theorem is (a+1)(b+1) |
| Day18Part2.LavaVolume | day_18/part2.php:88-93 | the answer (doubled) is area + border/2 + 1 of the decoded trench, and exists exactly when every code has a valid direction |
| Day19Part1.PassesSpec | day_19/part1.php:124-136 | a one-piece rule always passes; a rule naming a missing rating never passes; otherwise `>` passes iff the rating is strictly greater and `<` iff strictly less than the threshold |
| Day19Part1.Pick | day_19/part1.php:103-108 | the result is the destination of the first passing rule, and is absent exactly when no rule passes |
| Day19Part1.RunMonotone | day_19/part1.php:82-91 | a walk that ends within some number of hops ends the same way when allowed more |
| Day19Part1.Run | day_19/part1.php:82-91 | a walk that ends stops at `A` or `R` |
| Day19Part1.Stuck | day_19/part1.php:84-109 | a workflow in which no rule passes (or that does not exist) keeps the walk there for ever |
| Day19Part1.ProcessPart | day_19/part1.php:82-91 | the value is the part's rating sum when its walk from `in` ends at `A`, 0 when it ends at `R`, and absent when it does not end |
| Day19Part1.TotalStep | day_19/part1.php:141 | one more part adds its `processPart` value to the total of the accepted parts |
| Day19Part1.TotalRatings | day_19/part1.php:141 | the total exists exactly when every walk ends, and is then the sum of the rating sums of the accepted parts |
| Day19Part1.ExampleHops | day_19/part1.php:102-136 | each hop of the worked example goes where the first passing rule sends it |
| Day19Part1.ExampleWalk | day_19/part1.php:82-108 | the worked part walks `in`, `qqz`, `qs`, `lnx`, `A` in four hops, not three, and adds 7540 |
| Day19Part2.With | day_19/part2.php:79-84 | replacing one rating's interval leaves the other three as they were |
| Day19Part2.EmptySpec | day_19/part2.php:129-137 | a box counts as empty exactly when no part lies in it |
| Day19Part2.CalculateRange | day_19/part2.php:51-68 | the interval never widens; `>` n raises the start to at least n+1, `<` n lowers the end to at most n-1, `>=` and `<=` are inclusive |
| Day19Part2.CalculateRangeSpec | day_19/part2.php:51-68 | a value lies in the cut interval exactly when it lies in the interval and satisfies the bound |
| Day19Part2.Complement | day_19/part2.php:211 | the complementary bound (`<=` for `>`, `>=` for `<`) holds exactly when the rule's own comparison fails |
| Day19Part2.Split | day_19/part2.php:79-84 | only the named rating's interval is cut, the other three are copied, and a name other than x, m, a, s is an error |
| Day19Part2.SplitPartition | day_19/part2.php:208-214 | the piece sent on holds exactly the parts of the box that pass the rule as part 1 evaluates it, the piece kept exactly those that fail it |
| Day19Part2.Volume | day_19/part2.php:146-162 | a non-empty box has a positive product of interval sizes |
| Day19Part2.ProcessShape | day_19/part2.php:184-197 | the boxes one box sends to `A` are non-empty, lie inside it and share no part |
| Day19Part2.RulesShape | day_19/part2.php:193-215 | the boxes a workflow's rules send to `A` are non-empty, lie inside the box and share no part |
| Day19Part2.ProcessRoutes | day_19/part2.php:174-219 | a part of the box lies in one of the boxes that reach `A` exactly when its own part 1 walk ends at `A` within the same hops |
| Day19Part2.RulesRoutes | day_19/part2.php:193-215 | through a workflow's rules a part lies in an accepted box exactly when the first rule it passes leads to `A` |
| Day19Part2.CountItems | day_19/part2.php:170-226 | the count from `in` with 1..4000 everywhere is the total volume of the accepted boxes, and exists exactly when every box's run ends |
| Day19Part2.CountItemsMeaning | day_19/part2.php:170-226 | the count adds up boxes that share no part, and a part is in one of them exactly when its ratings are in 1..4000 and part 1 accepts it |
| Day19Part3.Pick | day_19/part3.php:27-46 | no destination exactly when no rule passes |
| Day19Part3.PassesAgree | day_19/part3.php:29-38 | for a rule naming x, m, a or s the rule test is part 1's `evaluateRule` |
| Day19Part3.PickAgree | day_19/part3.php:27-46 | for rules naming only x, m, a, s the first passing rule is part 1's |
| Day19Part3.RunAgree | day_19/part3.php:26-47 | with workflows naming only x, m, a, s the walk is part 1's |
| Day19Part3.RatingsAgree | day_19/part3.php:19-47 | with such workflows the part 1 answer exists exactly when every walk ends and is the sum over the parts part 1 accepts |
| Day19Part3.Split | day_19/part3.php:62-72 | a known rating is cut as in part 2; an unknown name leaves the box unchanged |
| Day19Part3.ProcessAgree | day_19/part3.php:74-99 | with such workflows a box reaches `A` in the same pieces as in part 2 |
| Day19Part3.RulesAgree | day_19/part3.php:87-98 | with such rules a workflow shares a box out as in part 2 |
| Day19Part3.Count | day_19/part3.php:74-102 | the part 2 answer is the total volume of the boxes reaching `A` from the full box |
| Day19Part3.CountAgree | day_19/part3.php:74-99 | with such workflows the part 2 answer is `countItems`'s |
| Day19Part3.UnknownRatingDiffers | day_19/part3.php:33-72 | on `in{q<5:A,R}` this script accepts every part and counts 4000^4, part 1 rejects every part, part 2 stops with an error |
| Day20Part1.Sends | day_20/part1.php:135-137 | a module sends one pulse to each destination, in order, all of the same level |
| Day20Part1.CountSplit | day_20/part1.php:126-130 | every pulse taken from the queue is counted exactly once, as high or as low |
| Day20Part1.CountConcat | day_20/part1.php:126-130 | the counts of two runs of pulses add up |
| Day20Part1.PrepareModuleDetails | day_20/part1.php:59-74 | every flip-flop starts off |
| Day20Part1.PrepareModuleDetailsKeys | day_20/part1.php:59-74 | a name has destinations, is a flip-flop or is a conjunction exactly when some line of that kind names it, with its `%` or `&` removed |
| Day20Part1.LastLineWins | day_20/part1.php:61-73 | a module's destinations are those of the last line that names it |
| Day20Part1.Prepare | day_20/part1.php:39-48 | every conjunction gets a memory with a low entry for each module that lists it as a destination and for no other |
| Day20Part1.InitialMemoryUnique | day_20/part1.php:39-48 | the memory `prepare` builds is determined by the destinations alone |
| Day20Part1.HandleKeys | day_20/part1.php:132-153 | handling a pulse neither adds nor removes a flip-flop or a conjunction |
| Day20Part1.BroadcasterSpec | day_20/part1.php:134-137 | the broadcaster repeats its pulse to each destination and changes no state |
| Day20Part1.FlipFlopSpec | day_20/part1.php:138-145 | a flip-flop ignores a high pulse; a low pulse toggles it, it sends its new state to each destination, and nothing else changes |
| Day20Part1.FlipFlopTwice | day_20/part1.php:138-145 | two low pulses put a flip-flop back where it was |
| Day20Part1.ConjunctionSpec | day_20/part1.php:146-153 | a conjunction records the pulse under its sender, keeps its other entries, and sends low exactly when every entry is high |
| Day20Part1.Drain | day_20/part1.php:121-154 | the pulse loop handles every queued pulse and at most `fuel` pulses in all |
| Day20Part1.DrainFifo | day_20/part1.php:123-124 | pulses are handled first in, first out: the pulses already queued come first, in queue order |
| Day20Part1.DrainKeys | day_20/part1.php:121-154 | the pulse loop keeps the set of flip-flops and the set of conjunctions |
| Day20Part1.Press | day_20/part1.php:121-124 | a press handles the low pulse from the button to `broadcaster` first |
| Day20Part1.PressLoop | day_20/part1.php:93-104 | as written, the early exit with a fractional factor happens only for a press count that does not divide 1000 |
| Day20Part1.Run | day_20/part1.php:82-105 | `run` as written: presses from the flip-flops the last press left but from the starting conjunction memory |
| Day20Part1.Step | day_20/part1.php:93-94 | a counted press exists exactly when the press finishes |
| Day20Part1.RepeatAdd | day_20/part1.php:93-104 | pressing `a` times and then `b` times is pressing `a + b` times |
| Day20Part1.RepeatPrefix | day_20/part1.php:93-104 | if `n` presses finish, fewer presses finish too |
| Day20Part1.RepeatShift | day_20/part1.php:93-104 | the pulses a run of presses adds do not depend on the counts it starts from |
| Day20Part1.RepeatCycle | day_20/part1.php:93-104 | `q` repetitions of a run of presses that returns to its start multiply its counts by `q` |
| Day20Part1.PressLoopFixedCorrect | day_20/part1.php:93-104 | with the state kept and the early exit scaled by 1000/L for both counts, the loop answers the product of the high and low counts of 1000 presses |
| Day20Part1.RunFixed | day_20/part1.php:82-105 | the corrected `run` answers the product of the high and low counts over 1000 presses |
| Day20Circuits.Circuit1Start | day_20/part1.php:39-74 | on `broadcaster -> a`, `%a -> b, con`, `%b -> con`, `&con -> out` the modules and starting memory are as listed |
| Day20Circuits.ForgottenMemory | day_20/part1.php:119-153 | on that circuit the third press sends low to `out` with the memory kept and high as written, after the same two presses |
| Day20Circuits.EarlyExitOvercounts | day_20/part1.php:96-102 | on `broadcaster -> a`, `%a -> out` the script answers 2,500,000, the corrected loop 1,250,000, which is 500 high times 2500 low pulses |
| Day20Part2.Put | day_20/part2.php:38-42 | writing a key into a PHP array sets that key to the value, keeps every other key's value, and keeps the array consistent |
| Day20Part2.PutOrder | day_20/part2.php:38-42 | a key already in the array keeps its place; a new key goes after all the others |
| Day20Part2.PutTwice | day_20/part2.php:51-54 | writing the same entry twice leaves the array as writing it once |
| Day20Part2.DeclareKeys | day_20/part2.php:33-43 | the first loop makes a module for exactly the names of the lines, each with its type character removed unless it starts with `b` |
| Day20Part2.DeclareLast | day_20/part2.php:33-43 | a module has the type, destinations and starting state of the last line under its name |
| Day20Part2.DeclareFresh | day_20/part2.php:38-42 | right after the first loop exactly the `&` modules hold an array, and it is empty |
| Day20Part2.WiringFails | day_20/part2.php:45-57 | the second loop stops with an error exactly when some module lists as a destination a declared module that would note its inputs into a number |
| Day20Part2.WiringMeaning | day_20/part2.php:45-57 | after the second loop the modules are those declared plus every destination; declared ones keep type and destinations; made-up ones are typed by their own name with no destinations; each array holds low for exactly the modules listing its holder |
| Day20Part2.WiringKinded | day_20/part2.php:33-57 | after the wiring every `&` module holds a well-formed array |
| Day20Part2.FlipFlopSpec | day_20/part2.php:135-147 | a flip-flop ignores a high pulse; a low pulse toggles it, it sends its new state to each destination in order, and no other module changes |
| Day20Part2.FlipFlopTwice | day_20/part2.php:135-147 | two low pulses put a flip-flop back where it was |
| Day20Part2.ConjunctionSpec | day_20/part2.php:158-171 | a conjunction notes the pulse under its sender, keeps its other entries and sends low to each destination exactly when every entry is then high |
| Day20Part2.ForwardSpec | day_20/part2.php:194-199 | any other module repeats the pulse to each destination and changes nothing |
| Day20Part2.ProcessKeeps | day_20/part2.php:183-201 | handling a pulse adds or removes no module, changes no type or destinations, and leaves every conjunction holding an array |
| Day20Part2.Watch | day_20/part2.php:80-89 | a cycle length is recorded only for a watched module receiving low whose recorded press number is nonzero, as this press's number minus the recorded one |
| Day20Part2.WatchTracks | day_20/part2.php:80-89 | the bookkeeping keeps the set of watched modules and the counts, and stops the press exactly when every watched module has a cycle length |
| Day20Part2.Tally | day_20/part2.php:78 | each pulse taken from the queue adds one to the count of its level and to nothing else |
| Day20Part2.DrainTracks | day_20/part2.php:76-94 | a press keeps the bookkeeping consistent; a press that returns early has a cycle length for every watched module and for no other |
| Day20Part2.DrainFifo | day_20/part2.php:76-77 | a press that empties its queue handled the pulses already queued first, in queue order |
| Day20Part2.DrainCounts | day_20/part2.php:76-78 | a press that empties its queue counted each pulse it handled once, as high or as low |
| Day20Part2.GmpLcm | day_20/part2.php:106 | `gmp_lcm` is never negative and is 0 exactly when one argument is 0 |
| Day20Part2.LcmFoldZero | day_20/part2.php:103-109 | one cycle length of 0 makes the answer 0 |
| Day20Part2.LcmFoldAgrees | day_20/part2.php:103-109 | with positive cycle lengths the fold equals day 8's lcm fold: positive and a multiple of each length |
| Day20Part2.LcmFoldLeast | day_20/part2.php:103-109 | with positive cycle lengths the fold divides every common multiple of them, so it is the least one |
| Day20Part2.FinalResult | day_20/part2.php:103-109 | `calculateFinalResult` stops with an error exactly when at most one cycle length was found, since only `gmp_lcm` yields the GMP number it is declared to return; otherwise it answers the lcm fold, which is 0 exactly when some length is 0 |
| Day20Part2.PressesCrash | day_20/part2.php:103-127 | the press loop stops with an error only when exactly one module is watched, never reaching the `null` case |
| Day20Part2.PressesValue | day_20/part2.php:103-127 | an answer is the lcm fold of one cycle length per watched module, of which there are at least two |
| Day20Part2.PressesUnwatched | day_20/part2.php:117-127 | with no watched module the press loop never answers |
| Day20Part2.CyclesOf | day_20/part2.php:119-123 | reading the watched modules fails exactly when `rx` is missing or holds a number, or its first feeder is missing or holds a number (a `null` or `0` passed as `array &$cycles`); otherwise the watched modules are that feeder's inputs |
| Day20Part2.RunCrash | day_20/part2.php:117-127 | the script stops with an error whenever the wiring fails or the watched modules cannot be read; after that, only when exactly one module is watched |
| Day20Part2.RunSingle | day_20/part2.php:103-127 | with exactly one watched module the script never prints an answer |
| Day20Part2.RunUnwatched | day_20/part2.php:117-127 | when the module first feeding `rx` holds an empty array, the script presses for ever |
| Day21Part1.Shortest | day_21/part1.php:21-28 | a cell has a shortest walk from the starts exactly when some walk reaches it, and the walk chosen is a shortest one |
| Day21Part1.LeastUnique | day_21/part1.php:21-28 | the shortest walk length to a cell is unique |
| Day21Part1.CellsCount | day_21/part1.php:36 | the distance array covers rows × columns cells |
| Day21Part1.StartList | day_21/part1.php:40-47 | the queue starts with exactly the `S` cells |
| Day21Part1.Initial | day_21/part1.php:36-47 | every `S` starts at distance 0 and every other cell at `PHP_INT_MAX`, in an array shaped like the map |
| Day21Part1.InitialSearching | day_21/part1.php:36-47 | before the first pass the search invariant holds: sound distances, starts seeded, queue ordered |
| Day21Part1.AssignedAdd | day_21/part1.php:62 | giving an unreached cell a distance adds exactly that cell to the reached ones |
| Day21Part1.NextLeast | day_21/part1.php:60-62 | an open neighbour not within `h` steps of a start, next to a cell at shortest distance `h`, is at shortest distance `h + 1` |
| Day21Part1.RelaxNew | day_21/part1.php:60-63 | the distance written to a newly reached neighbour is the length of a shortest walk to it |
| Day21Part1.RelaxExpanding | day_21/part1.php:56-65 | one pass of the direction loop keeps distances shortest and the queue ordered within `h` and `h + 1`, and covers one more direction |
| Day21Part1.PopSearching | day_21/part1.php:50-54 | taking the head of the queue leaves a cell at the smallest queued distance to expand |
| Day21Part1.FrontierAdvance | day_21/part1.php:50-66 | once every queued distance exceeds `h`, every cell within `h + 1` steps of a start has a distance |
| Day21Part1.FinalSearching | day_21/part1.php:50-68 | when the queue empties, each cell holds the length of its shortest walk, or `PHP_INT_MAX` when no walk reaches it |
| Day21Part1.Bfs | day_21/part1.php:29-69 | `bfs` gives each cell of the map the length of a shortest walk from an `S` around rocks, or `PHP_INT_MAX` when none reaches it |
| Day21Part1.CountWhereSet | day_21/part1.php:78-89 | the nested count is the number of cells whose entries pass the test |
| Day21Part1.CountWhereMono | day_21/part1.php:78-89 | a weaker test never counts fewer entries |
| Day21Part1.CountedMeaning | day_21/part1.php:83 | an entry is counted exactly when its cell's shortest walk is within the steps and of the same parity |
| Day21Part1.ReachablePlots | day_21/part1.php:91-101 | an empty map has no first row; otherwise the answer is the number of plots whose shortest walk from an `S` is at most 64 steps, an even number |
| Day21Part2.OriginIsSources | day_21/part2.php:35-43 | on a map with a single `S`, searching from it starts from the same cells as part 1's search |
| Day21Part2.InitialSolving | day_21/part2.php:41-43 | with every cell unreached and the start queued at 0, the loop invariant holds |
| Day21Part2.BelowAdvance | day_21/part2.php:45-58 | once every queued distance exceeds `h`, every cell within `h` steps of the start has a distance |
| Day21Part2.SkipSolving | day_21/part2.php:46-48 | dropping a queued cell that already has a distance, or lies off the map, keeps the loop invariant |
| Day21Part2.SettleSound | day_21/part2.php:49 | the distance fixed at a cell's first dequeue is the length of a shortest walk to it |
| Day21Part2.SettleSolving | day_21/part2.php:46-49 | fixing the head's distance adds one reached cell and leaves its neighbours to be queued |
| Day21Part2.PushReach | day_21/part2.php:55-56 | a neighbour is queued at a distance some walk from the start takes |
| Day21Part2.PushKeeps | day_21/part2.php:56 | appending to the queue keeps every earlier promise and waiting start |
| Day21Part2.PushSettling | day_21/part2.php:55-57 | queuing an open, unreached neighbour at the next distance keeps the invariant and covers one more direction |
| Day21Part2.EnqueueSettling | day_21/part2.php:51-58 | one pass of the direction loop keeps the invariant and covers one more direction |
| Day21Part2.SettledSolving | day_21/part2.php:51-59 | after the four directions the loop invariant holds again |
| Day21Part2.SolvedExpected | day_21/part2.php:45-61 | when the queue empties, each cell holds its shortest walk length, and every shortest walk is shorter than the number of cells |
| Day21Part2.Solve | day_21/part2.php:35-62 | `solve` gives each cell of the map the length of a shortest walk from the start, or `PHP_INT_MAX`; a start off the map reaches nothing |
| Day21Part2.NoOriginNoWalk | day_21/part2.php:46-48 | with the start off the map no walk reaches any cell |
| Day21Part2.Runs | day_21/part2.php:85-95 | the nine searches start from row and column `half * u`, `half * v` and each holds shortest walk lengths |
| Day21Part2.EvenFarRunUnreached | day_21/part2.php:87-93 | on a map with an even number of rows the searches from the far edge start off the map and leave every cell unreached |
| Day21Part2.OfParityMeaning | day_21/part2.php:102 | a cell passes the parity test exactly when its shortest walk has that remainder |
| Day21Part2.CountParityMeaning | day_21/part2.php:97-107 | `$results[$bit]` counts the plots whose shortest walk from the search's start has remainder `bit` |
| Day21Part2.ParityCells | day_21/part2.php:99-107 | with no negative entries, the reached cells are those of even and those of odd distance |
| Day21Part2.ParityDisjoint | day_21/part2.php:102 | no cell is counted for both parities |
| Day21Part2.ParitySplit | day_21/part2.php:97-107 | with no negative entries, the two parity counts add up to the number of reached cells |
| Day21Part2.TraversalWithinParity | day_21/part2.php:161-173 | a traversal never counts more cells than the parity count for its maximum's remainder |
| Day21Part2.TraversalMeaning | day_21/part2.php:161-173 | a traversal counts the plots whose shortest walk is within the maximum and of its parity; a negative maximum counts nothing |
| Day22Bricks.ParseBrick | day_22/part1.php:33-41 | each brick has its lower bound at most its upper bound on every axis, and the two bounds are the two ends the line gives for that axis |
| Day22Bricks.ParseBrickSwap | day_22/part1.php:34-39 | naming a brick's two ends in the other order gives the same brick |
| Day22Bricks.ParseBrickNormal | day_22/part1.php:34-39 | a brick written out end to end reads back as itself |
| Day22Bricks.ParseInput | day_22/part1.php:29-44 | one brick per line, in order, each with its bounds sorted |
| Day22Bricks.MeetMeaning | day_22/part1.php:64-66 | the three max/min tests pass exactly when the two bricks share a unit cube |
| Day22Bricks.CheckBrickOverlap | day_22/part1.php:59-67 | two bricks of the array overlap exactly when they are different bricks sharing a cube, whichever is named first |
| Day22Bricks.OverlapFrom | day_22/part1.php:79-84 | the loop from an index on finds an overlap exactly when some brick from there on overlaps the target |
| Day22Bricks.DoesOverlapExist | day_22/part1.php:77-85 | true exactly when some other brick of the array shares a cube with the target |
| Day22Bricks.RemovedEmpty | day_22/part1.php:115 | a brick less than 1000 high, with 1000 taken off its top, holds no cube |
| Day22Bricks.OverlapIgnoresEmpty | day_22/part1.php:77-85 | only bricks that hold cubes can overlap the target, so a brick taken out by the marker is invisible to the search |
| Day22Bricks.BeforeMeaning | day_22/part1.php:96-98 | the comparator orders by lowest level, then lowest x, then lowest y, and any two bricks are comparable |
| Day22Bricks.Insert | day_22/part1.php:96-98 | inserting a brick adds exactly that brick to the others |
| Day22Bricks.InsertSorted | day_22/part1.php:96-98 | inserting into a sorted array keeps it sorted |
| Day22Bricks.Sort | day_22/part1.php:96-98 | the sorted array is a permutation of the input, ordered by the comparator |
| Day22Bricks.SortLifts | day_22/part1.php:96-98 | sorting does not change how far the bricks can still fall in total |
| Day22Bricks.SortForms | day_22/part1.php:96-98 | sorting keeps every brick's footprint and height |
| Day22Bricks.SortGrounded | day_22/part1.php:96-98 | sorting keeps every brick at level 1 or above |
| Day22Bricks.Fall | day_22/part1.php:101-109 | only the one brick moves, keeping footprint and height; it stops at level 1 or where one more level would meet another brick; it reports a move exactly when it came down |
| Day22Bricks.Pass | day_22/part1.php:100-110 | a pass keeps every brick's form, never raises the stack, lowers it whenever something moved, and when nothing moved every brick is already resting |
| Day22Bricks.Settle | day_22/part1.php:95-111 | the settled stack holds the same bricks in form, is sorted, every brick rests on the ground or another brick, and no brick goes below level 1 |
| Day22Part1.Scan | day_22/part1.php:117-126 | the flag is set exactly when some later brick right above the taken one could drop; only such bricks change, each by its bottom going one level down |
| Day22Part1.SafeMeaning | day_22/part1.php:117-126 | a brick can be taken away exactly when every later brick right on top of it has a third brick under it |
| Day22Part1.Turn | day_22/part1.php:113-131 | a brick counts exactly when it is safe to take away; its own top is restored, and the array is untouched when it counts |
| Day22Part1.CountFrom | day_22/part1.php:113-131 | never counts more bricks than it visits |
| Day22Part1.CountAll | day_22/part1.php:112-132 | every brick counts exactly when every brick is safe to take away |
| Day22Part1.CalculateBrickOverlap | day_22/part1.php:93-133 | at most the number of bricks, and all of them exactly when every brick of the settled stack can be taken away |
| Day22Part1.Answer | day_22/part1.php:135-136 | the answer never exceeds the number of input lines |
| Day22Part2.FallsMeaning | day_22/part2.php:122-124 | a brick above level 1 falls exactly when every brick under it has already been taken out or has fallen |
| Day22Part2.Chain | day_22/part2.php:121-130 | counts at most the other bricks it visits, changes only bricks it counts, each marked out, and the count is the number of bricks it marked |
| Day22Part2.Unmark | day_22/part2.php:131-135 | every marked brick gets its top back and the others are left alone |
| Day22Part2.Turn | day_22/part2.php:118-136 | at most one less than the number of bricks fall with one taken out |
| Day22Part2.TurnRestores | day_22/part2.php:118-135 | with every top between 0 and 999, a pass leaves the stack exactly as it found it |
| Day22Part2.TotalFrom | day_22/part2.php:118-137 | no more than one less than the number of bricks for each brick visited |
| Day22Part2.TotalIndependent | day_22/part2.php:118-137 | with every top between 0 and 999, the total is the sum of the counts for each brick taken out of the same settled stack |
| Day22Part2.CalculateBrickOverlap | day_22/part2.php:96-139 | the answer is at most the number of ordered pairs of distinct bricks |
| Day22Part2.CalculateIndependent | day_22/part2.php:116-138 | with every settled top between 0 and 999, the answer adds up, brick by brick, the falls when that brick alone is taken out of the settled stack |
| Day22Part2.Answer | day_22/part2.php:141-142 | the answer never exceeds the number of ordered pairs of distinct input lines |
| Day25Part1.Append | day_25/part1.php:74-75 | appending to a component's list adds that one neighbour at the end and leaves every other list alone; a component seen for the first time becomes the last key |
| Day25Part1.Wires | day_25/part1.php:70-73 | the wires are exactly the pairs of a line's first component with one of the components listed after it |
| Day25Part1.ConnectNeighbours | day_25/part1.php:73-76 | entering a wire appends its other end to the list of each of its ends |
| Day25Part1.Build | day_25/part1.php:70-77 | the finished map has distinct keys that are exactly the components with a list |
| Day25Part1.BuildListed | day_25/part1.php:70-77 | each component's list holds the other ends of its wires, in the order the wires appear |
| Day25Part1.ListedSymmetric | day_25/part1.php:73-76 | a component appears in another's list as often as the other appears in its own |
| Day25Part1.BuildSymmetric | day_25/part1.php:73-76 | the map is symmetric, and every listed wire appears in the lists of both its ends |
| Day25Part1.DedupMeaning | day_25/part1.php:74-75 | first appearances hold each component of the input once and nothing else |
| Day25Part1.BuildKeys | day_25/part1.php:70-77 | the keys are the wires' ends in order of first appearance |
| Day25Part1.StartIsFirst | day_25/part1.php:79 | with at least one wire, the start is the first wire's first end |
| Day25Part1.ScanFrom | day_25/part1.php:36-46 | scanning a dequeued component's neighbours reaches the target exactly when the target is among them; otherwise every component queued passed the line-42 test and carries its path extended by itself |
| Day25Part1.ClearExtend | day_25/part1.php:42-43 | extending a clear path by an admitted neighbour of its end keeps it clear |
| Day25Part1.ScanClear | day_25/part1.php:42-44 | after a scan that misses the target, every queued path is still clear |
| Day25Part1.Search | day_25/part1.php:33-47 | the search terminates, and a path it returns starts at the neighbour it began from, follows wires, repeats nothing, avoids the target and, after its head, the components already visited, and ends next to the target |
| Day25Part1.SoundStep | day_25/part1.php:38-40 | adding a found path to the visited list keeps all gathered paths sound |
| Day25Part1.Trace | day_25/part1.php:22-48 | the count is the direct wires to the target plus the paths found, one at most per neighbour of the start, and no path is found once the count has reached the cap |
| Day25Part1.AttemptClear | day_25/part1.php:28-47 | a search runs only below the cap, and a path it finds is clear and ends next to the target |
| Day25Part1.TraceSound | day_25/part1.php:22-48 | the gathered paths number at most the count and at most four, and each avoids the start and every earlier path after its head |
| Day25Part1.ProcessConnectedComponents | day_25/part1.php:17-51 | the connection count is the wires from the start straight to the target plus the paths found, never more than the start's neighbours, with at most four paths |
| Day25Part1.PathsDisjoint | day_25/part1.php:39-42 | every path found starts at a neighbour of the start, ends next to the target, and after its head shares no component with the start or any earlier path |
| Day25Part1.Groups | day_25/part1.php:81-89 | every key from the given one on is counted in exactly one group, and the first group counts exactly the keys with at least four connections |
| Day25Part1.MultipleSizesOfGroups | day_25/part1.php:61-92 | no keys give 0; otherwise the product of the start's group, the start and the keys with at least four connections, and the group of all other keys |
| Day25Part1.Answer | day_25/part1.php:67-91 | no wires give 0; otherwise the same product with the first wire's first end as the start |

## Left out

- Reading the input files and `echo` are not modelled. Outside the parsing steps the introduction names, the line splitting (`file`, `explode`, `preg_split`, `preg_match`) is not modelled either: those modules start from the values it yields.
- PHP's 64-bit integers are unbounded `int`s here. No script's arithmetic is checked against overflow.
- The loops of day 8 (walks to `ZZZ` or a `Z` node), day 10 (the two walkers), day 19 (workflow runs) and day 20 (button presses, and the part 2 loop at day_20/part2.php:122) take a `fuel` bound. An answer after more steps than the fuel allows is not modelled.
- Day10Part2.Expand: a row without tiles gets no expanded rows in PHP, so `count($inputData)` in fillCoordinates shrinks and the border scan stops short of the last rows. The model expands such a row into three empty rows, so it matches the script on maps without empty rows.
- Day 13 block functions require at least one line, which `explode` always returns.
- Day 14 requires a platform with at least one row. Both scripts read `count($platform[0])`, which throws on an empty platform.
- Day 16 part 2 requires a non-empty grid, because it reads `count($grid[0])`.
- The `SplPriorityQueue` heap and its tie-break order are not modelled. Day 17 extracts any least-cost entry, so its results hold for every tie-break.
- The progress output in the day 17 searches and the `ini_set` memory limits are not modelled.
- Dead code in day_17/part2.php:216-435 is not part of this model, because nothing calls it.
- Day 17 part 1 requires at least two rows, at least two cells in row 0 and one in row 1. With fewer, a seed cell is missing and the script throws a TypeError. Part 2 requires a non-empty map, because it reads `count($map[0])`.
- The entry line of day_3/part1.php calls the undefined `sumOfGearRatios` and is not modelled. Only the summing scan and its helpers are.
- The static memo cache of day_12/part2.php:17-21 is not modelled. The plain recurrence gives the same counts.
- Day12Part2: the agreement with part 1's enumeration assumes positive group sizes.
- Day7Part1.CalculateTotalWinnings: requires every hand to be five cards from `23456789TJQKA`. The script takes any string. `handRank` (day_7/part1.php:42-72) ranks any string, and the `usort` comparator (day_7/part1.php:76-99) calls `cardValue` only at the first differing card of two hands of equal rank. So a lone hand such as `ZZZZZ 7` answers 7, and so do malformed hands that never tie on rank. When a comparison does reach an invalid or missing card, `cardValue` (day_7/part1.php:29-33) returns null from an `int` function and throws a TypeError. Whether that happens depends on which pairs PHP's sort compares, so these inputs are not modelled.
- Day7Part2.CalculateTotalWinningsWithJokers: the same restriction to valid five-card hands. The joker comparator (day_7/part2.php:145-168) reaches `cardValue` (day_7/part2.php:30-34) only at the first differing card of two hands of equal type, and an invalid card there throws a TypeError.
- Day 11: ragged grids take their column count from row 0, as the script does.
- The halving `/` of day_18/part2.php:53 and 84 can give PHP floats. The model computes twice the area and twice the volume.
- Only day_18/part2.php is modelled for day 18.
- Day18Part2.LavaVolume: the formula area + border/2 + 1 is tied to the number of dug cells only for a rectangle (Day18Part2.Rectangle). The general statement, Pick's theorem for any simple rectilinear loop, is not proved.
- Day 19 part 1 adds parsed workflows with `+=`, so the first duplicate name wins. Parsing is left out, so this is not modelled.
- Day19Part2.CountItemsMeaning: the accepted boxes are shown disjoint and to contain exactly the parts part 1 accepts. That their volumes sum to the number of such parts is not stated.
- The float shortcut of day_20/part1.php:96-102 is not modelled when 1000 is not a multiple of the cycle length. That case is the `FloatExit` outcome.
- Day 20 reads names with PHP's loose `in_array`, so numeric-string keys and duplicate lines behave in PHP-specific ways. These are not modelled.
- Day 20 part 2: two low pulses to a watched module within one press record 0, and the lcm fold then gives 0. This depends on the input's shape and is stated, not corrected.
- The 26501365-step extrapolation of day_21/part2.php (line 83, line 98 and lines 109-148, with `calculateResult`) is tied to the input's shape and is not modelled. Neither is the dead search for `S` at lines 75-81.
- Day 21 requires a rectangular map with fewer cells than `PHP_INT_MAX`.
- Day 21 part 1 takes the step count as a parameter. The script's top level fixes it at 64.
- Day 22 coordinates are PHP strings from `preg_split`. They are modelled as integers, and `min`/`max` compare such strings numerically.
- Day22Bricks.Sort: the order it leaves among bricks with equal keys is not stated, though `usort` is stable.
- Day22Part1.SafeMeaning requires a brick less than 1000 levels tall, so that the taken-out brick meets nothing.
- Day22Part2.TurnRestores requires every top between 0 and 999, because the restore loop relies on the 1000 marker. So do Day22Part2.TotalIndependent and Day22Part2.CalculateIndependent.
- Day22Part1.CalculateBrickOverlap characterises the answer exactly only when it equals the number of bricks. Otherwise only the bound is stated.
- day_24/part1.php is not part of this model: it is floating-point arithmetic on line intersections.
- day_24/part2.ts is not part of this model: it calls the Z3 solver and reads files asynchronously.
- Day 25 components are natural numbers. The names are interned while parsing, which is itself left out.
- Day 25 also leaves out PHP's loose `==` and `in_array` on numeric-looking names.
- Day25Part1.Search: a found path is proved sound. A `null` answer is not proved to mean that no path exists.
- Day16Part2.MaxEnergized: each start is counted with the corrected count, which leaves out the unmarked cells holding '1' that the script also counts (day_16/part2.php:142-148), as the first day 16 row under "## Findings" describes.

## Findings

| source | as written | input that shows it | evidently intended | confidence | as-written member | corrected member |
|---|---|---|---|---|---|---|
| day_3/part2.php:98-101 | `isset($schematic[$r][$c])` with `$c = -1` is true on a non-empty row, and reads the row's last character | `["5..*", "6..."]`: both numbers attach to the phantom gear "0--1" and the sum is 30 | only in-grid neighbours count, so the sum is 0 | not executed | Day3Part2.CheckForAdjacentGearAsWritten | Day3Part2.CheckForAdjacentGear |
| day_5/part2.php:14-36 | once some mapping line overlaps a range, the parts of the range that no line covers are dropped | seeds 0..9 and the single line `100 5 5`: the answer is 100, though seed 0 stays at location 0 | uncovered parts map to themselves, so the answer is 0 | not executed | Day5Part2.DroppedRangeExample | Day5Part2.LowestLocationCorrected |
| day_14/part2.php:142-176 | on the first repeat the state at the cycle start is not stored under its index, so the lookup at the end can miss and `calculateLoad(null)` throws | `[['.']]` with 1000000000 cycles: the platform never changes and no load is returned | the load after the given number of spin cycles, here 0 | not executed | Day14Part2.CalculateLoadAfterCycles | Day14Part2.CalculateLoadAfterCyclesFixed |
| day_20/part1.php:82-105 | `processEvents` gets `$relatedModules` by value, so every press starts from the initial conjunction memory | `broadcaster -> a`, `%a -> b, con`, `%b -> con`, `&con -> out`: the third press sends high to `out` where kept memory sends low | conjunction memory carries over between presses like flip-flop state | not executed | Day20Circuits.ForgottenMemory | Day20Part1.RunFixed |
| day_20/part1.php:96-102 | when the state repeats after L presses, the counts are multiplied by 1000, not 1000/L, and the second term reads a missing key as 0 | `broadcaster -> a`, `%a -> out` repeats after 2 presses: the script answers 2,500,000 | 1000/L repetitions of both counts, 1,250,000 | not executed | Day20Circuits.EarlyExitOvercounts | Day20Part1.PressLoopFixedCorrect |
| day_16/part1.php:118-126 | the energized map starts as a copy of the grid and `array_count_values($row)[1]` also counts the string "1", so an unmarked cell holding '1' counts as energized; part 2 does the same at day_16/part2.php:142-148 | a single row holding a vertical splitter and then '1': one tile is energized but the answer is 2 (Day16Part1.StrayOneCounted) | only cells a beam entered count, as the grid docblock at day_16/part2.php:133 says (1 energized, 0 not), so 1 | not executed | Day16Part1.EnergizedCountAsWritten | Day16Part1.EnergizedCount |
