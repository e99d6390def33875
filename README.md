# Advent of Code 2018, days 1 to 19, in Dafny

This project models the puzzle solutions of a Rust crate for Advent of Code
2018. It covers days 1 to 19, and it proves what each solution computes.
Each day is one module in a file named after it. Day 15, the cave combat
simulator, is split into four modules: grid, path search, combat and
display. The day 13 track display also has its own file. `Common` holds
text handling shared by the days: splitting lines, trimming, parsing and
showing integers, sums, and picking a maximal or minimal key.

The models follow the source's own form:

- State that the source updates in place becomes a class, or a method
  over an `array` or `seq`. Examples are the marble ring and game runner,
  the cart tracks, the combat, the opcode interpreter with its instruction
  pointer, the recipe iterator, the water course and the lumber area.
- Loops become methods with invariants. Each method is proved against a
  specification function written on values.
- The puzzle texts' facts are lemmas about those functions. These include
  reading order, the opcode semantics, the shortest-path search with its
  pop counter, the round and outcome rules of the combat, and the cycle
  skipping of the lumber automaton. So are parse/display round trips, and
  the worked examples from the crate's tests.

A panic in the source is the error value of an `Option` or `Result` in the
model. A loop that may run forever is modelled with a precondition that it
ends. That precondition is a step count or a fuel bound under an
existential.

## Model

| member | source | states |
|---|---|---|
| Day01.ParseLine | src/day01/mod.rs:74 | a line is read as a trimmed `i32`, so any value returned lies in the `i32` range |
| Day01.Parse | src/day01/mod.rs:68-83 | reads the input's lines as changes, skipping empty lines: it fails exactly when some non-empty line is not a trimmed `i32`, and every change it returns is in the `i32` range; Day01.ParseRoundTrip proves that changes written one per line read back as themselves |
| Day01.ParseChanges | src/day01/mod.rs:68-83 | the result has at most one change per line, each in the `i32` range, and None holds exactly when some non-empty line is not an `i32`, the source's panic |
| Day01.ParseChangesCons | src/day01/mod.rs:71-81 | a non-empty first line that parses puts its value in front of the values of the rest |
| Day01.ParseExample | src/day01/tests.rs:5-12 | the example input "1, -2, 3, 1" with surrounding blanks parses to [1, -2, 3, 1] |
| Day01.ShowChange | src/day01/mod.rs:74 | an `i32` written in decimal is a non-empty line that reads back as that value |
| Day01.ParseChangesShown | src/day01/mod.rs:68-83 | `i32` changes written one per line parse back to the same changes, in order |
| Day01.ParseRoundTrip | src/day01/mod.rs:68-83 | an input listing `i32` changes one per line, joined with line feeds, parses to exactly those changes in order, and the empty input to no changes |
| Day01.Accumulate | src/day01/mod.rs:86-88 | the frequency after applying all changes is their sum |
| Day01.AccumulateExamples | src/day01/tests.rs:17-51 | the four part-one examples give 3, 3, 0 and -6 |
| Day01.OnePassIsAccumulate | src/day01/mod.rs:91-103 | after `k` changes of the first pass the running total of `calibrate` is `accumulate` of those `k` changes |
| Day01.Calibrate | src/day01/mod.rs:91-103 | when some total repeats, the result is the total at the first step whose total was already seen (counting the initial 0) |
| Day01.CalibrateStep | src/day01/mod.rs:97-100 | one change either yields the first repeat or adds the new total to the history, with no repeat so far |
| Day01.FirstRepeatUnique | src/day01/mod.rs:91-103 | the first repeat is unique, so `calibrate`'s answer is determined |
| Day01.RepeatIsLater | src/day01/mod.rs:91-103 | any repeat comes after every step with no repeat so far |
| Day01.SeenExactly | src/day01/mod.rs:92-100 | the history after `k` steps holds exactly the totals reached in steps 0..k |
| Day01.PosIsMod | src/day01/mod.rs:95-96 | the change applied after `k` earlier ones is number `k mod n`, the list being rerun from the start |
| Day01.TableRepeat | src/day01/mod.rs:91-103 | a table of running totals that follows the rerun changes and has its first repeat at step `n` gives `calibrate`'s answer |
| Day01.CalibrateExample1 | src/day01/tests.rs:64-71 | [+1, -2, +3, +1] first reaches 2 twice |
| Day01.CalibrateExample2 | src/day01/tests.rs:73-80 | [+1, -1] first reaches 0 twice |
| Day01.CalibrateExample3 | src/day01/tests.rs:82-89 | [+3, +3, +4, -2, -4] first reaches 10 twice |
| Day01.CalibrateExample4 | src/day01/tests.rs:91-98 | [-6, +3, +8, +5, -6] first reaches 5 twice |
| Day01.CalibrateExample5 | src/day01/tests.rs:100-107 | [+7, +7, -2, -7, -4] first reaches 14 twice |
| Day02.NonEmpty | src/day02/mod.rs:57 | the kept pieces are non-empty and come from the input |
| Day02.Parse | src/day02/mod.rs:54-60 | splits the input at line feeds and drops the empty pieces, so no parsed id is empty; Day02.ParseJoined proves that ids written one per line read back as themselves |
| Day02.ParseIds | src/day02/mod.rs:54-60 | every parsed box id is non-empty and holds no line feed |
| Day02.ParseJoined | src/day02/mod.rs:54-60 | ids written one per line are parsed back as the same ids (round trip) |
| Day02.CountLetters | src/day02/mod.rs:67-76 | the per-id loop counts each letter's occurrences, as the reference letter count does |
| Day02.LetterCountsStep | src/day02/mod.rs:69-75 | one more letter increments its count or inserts it with count 1 |
| Day02.CountsHaveTimes | src/day02/mod.rs:77-86 | some count equals `k` exactly when some letter occurs `k` times in the id |
| Day02.CountIds | src/day02/mod.rs:63-90 | the number of ids with a letter occurring `k` times is at most the number of ids |
| Day02.Checksum | src/day02/mod.rs:63-90 | the checksum is the number of ids with a doubled letter times the number with a tripled letter |
| Day02.ChecksumExample | src/day02/tests.rs:13-21 | the example list has four ids with a doubled letter and three with a tripled one, giving 12 |
| Day03.ParseClaim | src/day03/mod.rs:121-174 | the character loop of `from_str` gives the claim, or the error, that the scanner specification gives |
| Day03.ScanDigits | src/day03/mod.rs:138-145 | digits after a marker are appended to the field of the current token |
| Day03.SkipSpace | src/day03/mod.rs:137 | whitespace is skipped without changing the fields |
| Day03.FieldStep | src/day03/mod.rs:132-145 | a marker with blanks around it, then digits, selects the marker's field and fills it |
| Day03.ScanFormat | src/day03/mod.rs:121-166 | scanning the text of a claim yields its five fields as decimal digits |
| Day03.FormatRoundTrip | src/day03/mod.rs:121-174 | a claim within the `u32`/`u16` ranges, written as "#id @ left,top: widthxheight", parses back to itself |
| Day03.LeadingDigitRejected | src/day03/mod.rs:145-150 | a digit before any marker is an unknown-token error |
| Day03.MissingFieldRejected | src/day03/mod.rs:163-167 | a missing height field is a number-parsing error |
| Day03.IntersectionExact | src/day03/mod.rs:202-224 | the rectangle chosen by the case analysis for a pair holds exactly the squares both claims cover |
| Day03.RowUnionExact | src/day03/mod.rs:200-231 | the squares inserted for claim `i` against the later claims are those it shares with one of them |
| Day03.PairsUnionExact | src/day03/mod.rs:194-232 | the squares inserted for the first `i` claims are those shared by such a claim and a later one |
| Day03.OverlapCellsExact | src/day03/mod.rs:190-234 | a square is inserted exactly when two different claims cover it |
| Day03.InCells | src/day03/mod.rs:225-229 | the loops over `y1..y2` and `x1..x2` insert exactly the squares of the half-open rectangle |
| Day03.InsertCells | src/day03/mod.rs:225-229 | the double loop adds the rectangle's squares to the set |
| Day03.OverlappingArea | src/day03/mod.rs:190-234 | the result is the number of squares covered by two or more claims |
| Day03.CellsCard | src/day03/mod.rs:225-229 | a rectangle holds width times height squares |
| Day03.OverlapExample1 | src/day03/tests.rs:9-37 | the example claims share 4 squares |
| Day03.OverlapExample2 | src/day03/tests.rs:40-68 | the second example's claims share 16 squares |
| Day03.InclusiveOverlapShares | src/day03/mod.rs:256-258 | for claims of positive size, part two's inclusive-bounds test holds exactly when the claims share a square |
| Day03.InclusiveOverlapSymmetric | src/day03/mod.rs:256-258 | the inclusive-bounds test does not depend on the order of the pair |
| Day03.Ids | src/day03/mod.rs:238-239 | the starting set holds the id of every claim |
| Day03.NonOverlappingClaims | src/day03/mod.rs:237-266 | `None` (the source's panic) exactly when every id belongs to an overlapping pair; otherwise an id of no overlapping pair |
| Day03.RowIdsExact | src/day03/mod.rs:247-261 | the ids removed for claim `i` are its id and its partners' ids, for each later claim it overlaps |
| Day03.PairIdsUpTo | src/day03/mod.rs:241-262 | the ids removed for the first `i` claims are the ids of the pairs found so far |
| Day03.PairIdsExact | src/day03/mod.rs:241-262 | the removed ids are exactly the ids of claims in some overlapping pair, whichever comes first |
| Day03.NonOverlapExample | src/day03/tests.rs:82-110 | in the example only claim 3 overlaps no other |
| Day04.SortLinesSpec | src/day04/mod.rs:125 | the lines are put in lexicographic order and are a permutation of the input lines |
| Day04.InsertSorted | src/day04/mod.rs:125 | inserting one line into sorted lines keeps them sorted |
| Day04.InsertPermutes | src/day04/mod.rs:125 | inserting one line adds exactly that line to the multiset |
| Day04.LexTotal | src/day04/mod.rs:125 | any two lines are ordered one way or the other |
| Day04.ParseEntry | src/day04/mod.rs:129-171 | a line is a shift (guard id in the `u16` range) or a falls/wakes event (hour and minute in the `u8` range), and anything else is the source's panic |
| Day04.ShiftLine | src/day04/mod.rs:130-138 | a "Guard" line yields the number made of the digits after column 26 |
| Day04.EventLine | src/day04/mod.rs:139-168 | a "falls"/"wakes" line yields its day, hour and minute from the fixed columns |
| Day04.Parse | src/day04/mod.rs:123-176 | sorts the lines and reads them in order into records, and every record's minute is in the `u8` range; Day04.RecordGuards states which guard each record carries |
| Day04.ParseRecords | src/day04/mod.rs:128-175 | every record's minute is in the `u8` range |
| Day04.RecordGuards | src/day04/mod.rs:128-175 | every record carries the initial guard 0 or a guard named by some shift line |
| Day04.RecordsShift | src/day04/mod.rs:130-138 | a shift line only changes the current guard |
| Day04.RecordsEvent | src/day04/mod.rs:139-168 | an event line adds one record for the current guard in front of the later records |
| Day04.ParseFallsAsleep | src/day04/tests.rs:5-22 | the two-line example parses to a single falls-asleep record of guard 577 at 00:03 on 1518-05-20 |
| Day04.FallsAsleepSorted | src/day04/mod.rs:125 | the example's two lines are already in order |
| Day04.PeriodsFromSpec | src/day04/mod.rs:184-200 | the loop collects, for every guard, the periods from each falling asleep to the next waking up, in order |
| Day04.SleepingPeriodsSpec | src/day04/mod.rs:184-200 | a guard has an entry exactly when it has some sleeping period, and the entry lists those periods |
| Day04.SleepingPeriods | src/day04/mod.rs:184-200 | the loop returns the map of sleeping periods the specification describes |
| Day04.MinuteCount | src/day04/mod.rs:220-228 | a minute is counted at most once per period |
| Day04.MinuteCountAppend | src/day04/mod.rs:220-228 | counting over two lists of periods adds the counts |
| Day04.CountMinutes | src/day04/mod.rs:219-228 | the minute table holds exactly the minutes slept at least once, each with the number of periods covering it |
| Day04.MostAsleepMinute | src/day04/mod.rs:202-237 | the result is a guard with the largest total sleep and a minute that guard sleeps most often; `None` (a panic in the source) when no guard sleeps or the sleepiest guard never sleeps a minute |
| Day04.MostFrequentlyAsleepMinute | src/day04/mod.rs:245-278 | the result is a guard, a minute and a positive count no other guard and minute exceed; `None` (a panic in the source) exactly when no guard sleeps or some guard has no minute asleep |
| Day04.Strategy1 | src/day04/mod.rs:179-182 | part one is the guard id times its most slept minute |
| Day04.Strategy2 | src/day04/mod.rs:240-243 | part two is the guard id times its most frequent minute |
| Day04.NightRecordsPeriods | src/day04/mod.rs:184-200 | nights of falling asleep and waking up yield exactly the guard's periods |
| Day04.ExamplePeriods | src/day04/tests.rs:44-60 | in the example records guard 10 sleeps 5-25, 30-55 and 24-29, and guard 99 sleeps 40-50, 36-46 and 45-55 |
| Day04.MostAsleepExample | src/day04/tests.rs:64-71 | on the example records part one's guard and minute are (10, 24) |
| Day04.MostFrequentExample | src/day04/tests.rs:84-91 | on the example records part two's guard, minute and count are (99, 45, 3) |
| Day05.Pass | src/day05/mod.rs:84-104 | one pass over the polymer never makes it longer |
| Day05.ReducePass | src/day05/mod.rs:84-104 | the zip over adjacent pairs with the `skip_next` flag, plus the decision about the last unit, computes exactly one left-to-right reaction pass |
| Day05.PassAt | src/day05/mod.rs:88-97 | at each unit the pass either drops a reacting pair or keeps the unit |
| Day05.ReducePolymer | src/day05/mod.rs:79-112 | the loop returns the polymer reached by repeating passes until one removes nothing |
| Day05.PassFixpoint | src/day05/mod.rs:105-107 | a pass keeps the length exactly when no two adjacent units react, and then changes nothing |
| Day05.ReduceInert | src/day05/mod.rs:79-112 | the reduced polymer has no adjacent reacting units |
| Day05.ReduceIdempotent | src/day05/mod.rs:79-112 | reducing a reduced polymer changes nothing |
| Day05.ReduceSubsequence | src/day05/mod.rs:79-112 | the reduced polymer is a subsequence of the input and no longer than it |
| Day05.PassSubsequence | src/day05/mod.rs:84-104 | one pass keeps a subsequence of its input |
| Day05.ReduceRemovesPairs | src/day05/mod.rs:79-112 | reduction removes an even number of units |
| Day05.PassRemovesPairs | src/day05/mod.rs:84-104 | one pass removes an even number of units |
| Day05.PassAppend | src/day05/mod.rs:84-104 | a pass over two pieces that cannot react at the seam is the two passes joined |
| Day05.ReduceStep | src/day05/mod.rs:105-111 | a pass that removed something leaves the same final polymer to reach |
| Day05.ReduceExample1 | src/day05/tests.rs:9-15 | "aA" reduces to "" |
| Day05.ReduceExample2 | src/day05/tests.rs:18-24 | "abBA" reduces to "" |
| Day05.ReduceExample3 | src/day05/tests.rs:27-33 | "aabAAB" is already inert |
| Day05.ReduceExample4 | src/day05/tests.rs:36-42 | "dabAcCaCBAcCcaDA" reduces to "dabCBAcaDA" |
| Day05.ReduceExample5 | src/day05/tests.rs:45-51 | "abcCcd" reduces to "abcd" |
| Day05.ReduceExample6 | src/day05/tests.rs:54-60 | "abcCcdD" reduces to "abc" |
| Day05.ReduceExample7 | src/day05/tests.rs:63-69 | "aaBbaAB" reduces to "aaB" |
| Day05.UnitTypesSpec | src/day05/mod.rs:121-124 | the unit types are exactly the lower-cased units of the polymer, and there are none only for the empty polymer |
| Day05.UnitTypesAppend | src/day05/mod.rs:121-124 | the types of two joined pieces are the types of each |
| Day05.Without | src/day05/mod.rs:128-132 | dropping a type never makes the polymer longer |
| Day05.WithoutFilters | src/day05/mod.rs:128-132 | a unit survives the filter exactly when its lower-case form is not the dropped type |
| Day05.WithoutAppend | src/day05/mod.rs:128-132 | filtering two joined pieces is joining the filtered pieces |
| Day05.ImprovePolymer | src/day05/mod.rs:120-141 | the result is a type of the polymer whose removal gives a shortest reduced polymer, with that polymer; `None` (the source's panic) exactly for the empty polymer |
| Day05.UniqueShortest | src/day05/mod.rs:137-140 | when one type gives a strictly shortest result, it is the one chosen |
| Day05.ImproveExampleA | src/day05/mod.rs:53-54 | without a/A the example reduces to "dbCBcD" |
| Day05.ImproveExampleB | src/day05/mod.rs:55-56 | without b/B the example reduces to "daCAcaDA" |
| Day05.ImproveExampleC | src/day05/mod.rs:57-58 | without c/C the example reduces to "daDA" |
| Day05.ImproveExampleD | src/day05/mod.rs:59-60 | without d/D the example reduces to "abCBAc" |
| Day05.ImproveExample | src/day05/tests.rs:83-89 | on "dabAcCaCBAcCcaDA" part two removes 'c' and gets "daDA" |
| Day06.ParsePoint | src/day06/mod.rs:136-153 | a parsed point has `i32` coordinates; a line without a comma is a missing-y-coordinate error, and the missing-x error is never produced |
| Day06.ParseFormatPoint | src/day06/mod.rs:136-153 | a point with `i32` coordinates written as "x, y" parses back to itself |
| Day06.SplitFormatPoint | src/day06/mod.rs:137-143 | splitting "x, y" at the comma gives the two numbers' texts |
| Day06.Distance | src/day06/mod.rs:167-169 | the Manhattan distance is zero exactly between equal points |
| Day06.DistanceSymmetric | src/day06/mod.rs:167-169 | the distance does not depend on the order of the points |
| Day06.DistanceTriangle | src/day06/mod.rs:167-169 | the distance obeys the triangle inequality |
| Day06.MinOf | src/day06/mod.rs:179-188 | the minimum of a non-empty list is one of its values and no value is smaller |
| Day06.MaxOf | src/day06/mod.rs:184-198 | the maximum of a non-empty list is one of its values and no value is larger |
| Day06.PointsInBox | src/day06/mod.rs:178-198 | every point lies in the bounding box of the points |
| Day06.BoxCells | src/day06/mod.rs:201-202 | the cells visited by the two loops are exactly the cells of the bounding box |
| Day06.OwnerUnique | src/day06/mod.rs:216-219 | a cell has at most one point strictly nearest to it |
| Day06.OwnsItself | src/day06/mod.rs:200-219 | every point owns the cell it stands on (distance 0 is unique to it, duplicates in the list included) |
| Day06.NearestOwner | src/day06/mod.rs:203-218 | for one cell, the distance map and the filter on the smallest distance give the strictly nearest point, or none when the nearest distance is shared |
| Day06.SoleNearestOwns | src/day06/mod.rs:208-218 | a unique smallest distance names the owner of the cell |
| Day06.TiedNearestNoOwner | src/day06/mod.rs:208-218 | a shared smallest distance leaves the cell without owner |
| Day06.OwnerMap | src/day06/mod.rs:200-220 | the point map holds exactly the cells of the box that have a strictly nearest point, each mapped to it |
| Day06.OwnerColumn | src/day06/mod.rs:202-219 | one column of the box adds exactly its owned cells and leaves earlier entries alone |
| Day06.CountOwned | src/day06/mod.rs:222-228 | each point is counted exactly the number of cells it owns, and points owning none have no entry |
| Day06.CountedAdd | src/day06/mod.rs:224-227 | counting one more cell increments its owner's count or inserts it with 1 |
| Day06.EnclosedPoints | src/day06/mod.rs:230-250 | the valid points are exactly the points with other points strictly inside all four diagonal quadrants |
| Day06.OwnedCellsArea | src/day06/mod.rs:200-228 | the cells counted for a point are the box cells it owns |
| Day06.CountsAreAreas | src/day06/mod.rs:200-228 | every point's count is its area within the box |
| Day06.CandidatesMeetSpec | src/day06/mod.rs:252-256 | the largest count among valid points answers the puzzle |
| Day06.LargestArea | src/day06/mod.rs:178-257 | the result is an enclosed point with the largest area among enclosed points, with that area; `None` (the source's panic) when there are no points or none is enclosed |
| Day06.ExampleEnclosed | src/day06/tests.rs:9-21 | in the example, points D (3,4) and E (5,5) are enclosed |
| Day06.ExampleOutside | src/day06/tests.rs:9-21 | in the example, points A, B, C and F are not enclosed |
| Day07.WithPrerequisite | src/day07/mod.rs:108-116 | adding a prerequisite puts it into the step's set (creating the set if needed), makes the prior step a key, and leaves every other step's set alone |
| Day07.ExecutionPlan.constructor | src/day07/mod.rs:88-98 | a new plan has no steps |
| Day07.ExecutionPlan.Insert | src/day07/mod.rs:100-106 | inserting replaces the step's prerequisite set and changes nothing else |
| Day07.ExecutionPlan.AddPrerequisite | src/day07/mod.rs:108-116 | the new plan is the old plan with the prerequisite added |
| Day07.ExecutionPlan.Prerequisites | src/day07/mod.rs:118-120 | the step's prerequisite set when the step is known; `None` where the source's index panics |
| Day07.ExecutionPlan.Len | src/day07/mod.rs:122-124 | the number of steps in the plan |
| Day07.ParseLine | src/day07/mod.rs:160-170 | a line of at least 37 characters gives (character 36, character 5) as (step, prerequisite); a shorter line is the source's panic |
| Day07.ParseStepLine | src/day07/mod.rs:160-170 | the sentence "Step P must be finished before step S can begin." parses to (S, P) |
| Day07.ParseLinesAll | src/day07/mod.rs:158-171 | when every line parses, the parsed pairs are the lines' pairs in order |
| Day07.ParseLinesFails | src/day07/mod.rs:158-171 | one malformed line makes the whole parse fail |
| Day07.ParseLinesStep | src/day07/mod.rs:158-171 | parsing one more line appends its pair and adds its prerequisite to the plan |
| Day07.Parse | src/day07/mod.rs:156-172 | the parsed plan is the plan built by adding each line's prerequisite in order, and the parse fails exactly when a line is too short |
| Day07.PlanOfRecords | src/day07/mod.rs:108-116 | every parsed pair's step and prerequisite are keys, and the prerequisite is in the step's set |
| Day07.PlanOfSteps | src/day07/mod.rs:108-116 | the plan's steps are exactly the steps and prerequisites named in the pairs |
| Day07.PlanOfPrerequisitesFromPairs | src/day07/mod.rs:108-116 | every prerequisite in the plan comes from a parsed pair |
| Day07.Ready | src/day07/mod.rs:144-147 | the ready steps are steps of the plan |
| Day07.LeastExists | src/day07/mod.rs:148-149 | a non-empty set of steps has an alphabetically smallest member |
| Day07.LeastUnique | src/day07/mod.rs:148-149 | the smallest member is unique |
| Day07.Progress | src/day07/mod.rs:150-153 | marking a ready step done shrinks the steps still to do, so iteration ends |
| Day07.InOrder.constructor | src/day07/mod.rs:126-131 | iteration starts over the plan with nothing done |
| Day07.InOrder.Next | src/day07/mod.rs:143-153 | returns the alphabetically smallest step that is not done and whose prerequisites are all done and marks it done; returns `None` and changes nothing exactly when no step is ready |
| Day07.ExecutionOrder | src/day07/mod.rs:175-177 | the string collected from the iterator is the order the iteration specification gives from nothing done |
| Day07.OrderStep | src/day07/mod.rs:143-153 | the order starts with the smallest ready step and continues from the state with it done |
| Day07.OrderDistinct | src/day07/mod.rs:143-153 | no step is yielded twice, and each yielded step is a step of the plan that was not done |
| Day07.OrderRespectsPrerequisites | src/day07/mod.rs:144-147 | every yielded step's prerequisites were all done or yielded earlier |
| Day07.OrderStopsWhenNothingReady | src/day07/mod.rs:144-149 | when iteration ends, no step is ready |
| Day07.CycleNeverYielded | src/day07/mod.rs:144-149 | steps on a dependency cycle are never yielded |
| Day07.CycleNotInPrefix | src/day07/mod.rs:144-149 | no step of a cycle appears in any prefix of the order |
| Day07.ExamplePlanParsed | src/day07/tests.rs:16-46 | the example's seven lines give the plan of six steps with the listed prerequisite sets |
| Day07.ExampleOrder | src/day07/tests.rs:51-58 | the example plan's order is "CABDFE" |
| Day07.ExampleParsedOrder | src/day07/tests.rs:51-58 | parsing the example's seven lines and iterating gives "CABDFE" |
| Day08.Piece | src/day08/mod.rs:143-147 | a token that parses is a `u32` value; anything else is the source's "other data than digits" panic |
| Day08.Pieces | src/day08/mod.rs:143-147 | the numbers are the tokens parsed one by one, in order |
| Day08.Number | src/day08/mod.rs:149-153 | reading a number succeeds only inside the input; past its end is the "no more input data" panic |
| Day08.ReadChild | src/day08/mod.rs:189-193 | reading a child consumes at least its two-number header and stays inside the input |
| Day08.ReadChildren | src/day08/mod.rs:172-195 | reading children never moves backwards and stays inside the input |
| Day08.ReadBody | src/day08/mod.rs:172-195 | reading a node's children and metadata never moves backwards and stays inside the input |
| Day08.ReadMetadata | src/day08/mod.rs:173-180 | reading a node's metadata never moves backwards and stays inside the input |
| Day08.AppendMetadata | src/day08/mod.rs:177-180 | reading a node's metadata consumes exactly its metadata count |
| Day08.AppendMetadataFacts | src/day08/mod.rs:174-180 | the node's metadata list grows by exactly the next entries of the input; nodes, ids and the other nodes' lists are unchanged |
| Day08.AppendEntries | src/day08/mod.rs:177-180 | the entry-reading loop gives the recursive metadata reading and leaves nodes and ids unchanged |
| Day08.ResumePop | src/day08/mod.rs:181-184 | finishing a node pops its parent with one child fewer and carries on with it |
| Day08.ResumePush | src/day08/mod.rs:189-193 | reading a child header pushes the current node and carries on with the new child |
| Day08.ResumeNone | src/day08/mod.rs:149-153 | once input has run out, parsing stays failed |
| Day08.HeaderMissing | src/day08/mod.rs:189-191 | a missing child header makes parsing fail |
| Day08.BodyWithoutChildren | src/day08/mod.rs:173-180 | a node without children reads only its metadata |
| Day08.BodyAfterChild | src/day08/mod.rs:173-194 | a node with children reads one child and then the rest of its body |
| Day08.ChildRead | src/day08/mod.rs:189-193 | a child gets the next id, the current node as parent, and its own header |
| Day08.ParseNumbers | src/day08/mod.rs:155-201 | the explicit-stack loop over the numbers gives the recursive reading of the license |
| Day08.Parse | src/day08/mod.rs:136-202 | parsing reads the first line of the trimmed input, splits it on spaces and reads the license from those numbers; no line is a failure |
| Day08.ChildShape | src/day08/mod.rs:189-194 | reading a child keeps every earlier node, numbers the new nodes consecutively and gives each new node a metadata entry |
| Day08.ChildrenShape | src/day08/mod.rs:172-195 | reading children keeps every earlier node, numbers the new nodes consecutively and gives each new node a metadata entry |
| Day08.BodyShape | src/day08/mod.rs:172-195 | reading a node's body keeps every earlier node and gives the node and its new descendants metadata entries |
| Day08.LicenseIsTree | src/day08/mod.rs:155-201 | a parsed license has root 0 with itself as parent, ids 0 to n-1 in header order, a metadata entry for every node, and every other node's parent is an earlier node |
| Day08.DenseCard | src/day08/mod.rs:157-161 | ids numbered 0 to n without gaps are n+1 ids |
| Day08.Checksum | src/day08/mod.rs:126-132 | the checksum is the sum of every metadata entry of every node |
| Day08.MetaTotalRemove | src/day08/mod.rs:126-132 | the total splits into one node's sum plus the rest |
| Day08.MetaTotalAgree | src/day08/mod.rs:126-132 | the total depends only on the lists of the nodes summed |
| Day08.MetaTotalAppend | src/day08/mod.rs:177-180 | appending entries to a node's list adds their sum to the total |
| Day08.MetaTotalOpen | src/day08/mod.rs:174-176 | opening an empty metadata list does not change the total |
| Day08.AppendRead | src/day08/mod.rs:177-180 | reading the metadata of an encoded node yields exactly its entries |
| Day08.ReadsSplit | src/day08/mod.rs:149-153 | reading a concatenation reads each part in turn |
| Day08.ChildEncoded | src/day08/mod.rs:172-195 | reading an encoded child tree consumes exactly its encoding, adds exactly its nodes and adds exactly its metadata sum |
| Day08.ChildrenEncoded | src/day08/mod.rs:172-195 | reading encoded sibling trees consumes exactly their encodings and adds exactly their nodes and metadata sums |
| Day08.BodyEncoded | src/day08/mod.rs:172-195 | reading an encoded node's body consumes exactly the encoding and adds exactly its metadata sum |
| Day08.LicenseEncoded | src/day08/mod.rs:136-207 | parsing the encoding of any tree succeeds, has as many nodes as the tree, and its checksum is the tree's metadata sum |
| Day08.ExampleEncoding | src/day08/mod.rs:33-50 | the example tree encodes to "2 3 0 3 10 11 12 1 1 0 1 99 2 1 1 2" |
| Day08.ExampleTreeFacts | src/day08/mod.rs:33-50 | the example tree has four nodes and metadata sum 138 |
| Day08.ExampleChecksum | src/day08/mod.rs:33-50 | parsing the example gives four nodes and checksum 138 |
| Day09.RemoveInserted | src/day09/mod.rs:264-270 | removing at the index where an item was inserted gives back the ring |
| Day09.InsertRemoved | src/day09/mod.rs:264-270 | re-inserting a removed item at its index gives back the ring |
| Day09.InsertKeepsOrder | src/day09/mod.rs:264-266 | inserting puts the item at the index, keeps the items before it and shifts the rest by one, in order |
| Day09.RemoveKeepsOrder | src/day09/mod.rs:268-270 | removing keeps the items before the index and shifts the rest down by one, in order |
| Day09.Ring.constructor | src/day09/mod.rs:239-247 | a new ring is empty |
| Day09.Ring.IndexOf | src/day09/mod.rs:249-254 | the index of the first occurrence of the item, or `None` when it is absent |
| Day09.Ring.Insert | src/day09/mod.rs:264-266 | the ring's list becomes the list with the item inserted at the index |
| Day09.Ring.Remove | src/day09/mod.rs:268-270 | returns the item at the index and the list loses exactly that item |
| Day09.FirstIndex | src/day09/mod.rs:249-254 | the first position holding the item, or `None` exactly when the item does not occur |
| Day09.InitialScores | src/day09/mod.rs:321-323 | players 1 to n, each with score zero, and no other entry |
| Day09.SpecialRingLength | src/day09/mod.rs:368-374 | whenever a multiple of 23 is played the ring holds at least 23 marbles, so moving 7 back stays inside it |
| Day09.Step | src/day09/mod.rs:362-390 | one turn keeps the game state well-formed |
| Day09.PlayerAfter | src/day09/mod.rs:341-347 | the player after the current one is at least player 1, and is at most the player count when the current player is in range (the last player is followed by player 1) |
| Day09.StepTurn | src/day09/mod.rs:341-367 | a turn is refused exactly when the current marble is the last one; otherwise the marble goes up by one and the player cycles through 1 to n |
| Day09.OrdinaryMarble | src/day09/mod.rs:381-389 | a marble that is not a multiple of 23 goes two places clockwise (wrapping past the end), the ring grows by exactly it, and no score changes |
| Day09.OrdinaryStepIs | src/day09/mod.rs:381-389 | the ordinary turn is the insertion at the wrapped index with the next player and marble |
| Day09.SpecialMarble | src/day09/mod.rs:368-380 | for a multiple of 23 the index moves 7 back with wrap-around, that marble leaves the ring, and only the current player's score rises, by the played marble plus the removed one |
| Day09.SpecialStep | src/day09/mod.rs:368-380 | the special turn is the removal at the wrapped index and the score update, with the next player and marble |
| Day09.Run | src/day09/mod.rs:353-356 | running to the end leaves a well-formed state whose current marble is the last one |
| Day09.InsertDistinct | src/day09/mod.rs:381-389 | inserting a new marble keeps the marbles distinct |
| Day09.RemoveDistinct | src/day09/mod.rs:368-380 | removing a marble keeps the marbles distinct |
| Day09.InitialInv | src/day09/mod.rs:304-323 | the starting game (ring [0], marble 0, player 0, zero scores) satisfies the game invariant |
| Day09.StepInv | src/day09/mod.rs:362-390 | every turn preserves the game invariant: distinct marbles, the marbles on the ring are the ones played and not removed, the current marble's index, and scores for exactly players 1 to n |
| Day09.SpecialStepInv | src/day09/mod.rs:368-380 | a special turn preserves the game invariant |
| Day09.OrdinaryStepInv | src/day09/mod.rs:381-389 | an ordinary turn preserves the game invariant |
| Day09.RunInv | src/day09/mod.rs:353-356 | playing to the end preserves the game invariant |
| Day09.FinalPlayers | src/day09/mod.rs:321-323 | at the end of a game with at least one player, exactly players 1 to n have scores |
| Day09.GameRunner.constructor | src/day09/mod.rs:304-323 | a new runner is in the starting game state |
| Day09.GameRunner.NextPlayer | src/day09/mod.rs:341-347 | the player goes from n back to 1 and otherwise up by one; nothing else changes |
| Day09.GameRunner.NextMarble | src/day09/mod.rs:349-351 | the marble goes up by one; nothing else changes |
| Day09.GameRunner.Next | src/day09/mod.rs:362-390 | returns "no more" and changes nothing exactly when the last marble was played; otherwise the runner's new state is one turn of the game |
| Day09.GameRunner.Finish | src/day09/mod.rs:353-356 | the scores after playing the game to the end |
| Day09.MarbleHighscore | src/day09/mod.rs:410-418 | the highest final score, and `None` (the source's panic) exactly when no player has a score |
| Day09.MarbleHighscore100 | src/day09/mod.rs:422-431 | the highest final score of the game with a hundred times as many marbles |
| Day09.HighscoreExists | src/day09/mod.rs:410-418 | with at least one player there is always a highscore |
| Day09.Parse | src/day09/mod.rs:394-406 | a result is a pair of numbers in the u32 range |
| Day09.SentenceShape | src/day09/mod.rs:396-401 | the puzzle sentence with two whitespace-free number fields is one line, trimming leaves it alone, and splitting at spaces gives back its eight words |
| Day09.SentenceParses | src/day09/mod.rs:394-406 | such a sentence parses exactly when both number fields read as u32, to (last marble, players); otherwise the result is the source's panic |
| Day09.ParseSentence | src/day09/mod.rs:394-406 | the sentence written with a u32 player count and a u32 last marble reads back as those two numbers, and a player count past the u32 range is refused |
| Day09.ExampleRemoval | src/day09/tests.rs:197-235 | at marble 23 of the example, marble 9 leaves the ring |
| Day09.ExampleInsertion | src/day09/tests.rs:237-275 | marble 24 of the example goes in after marble 19 |
| Day09.ExampleGame | src/day09/tests.rs:282-288 | in the 9-player, 25-marble example, player 5 ends with 32 and everyone else with 0 |
| Day09.ExampleHighscore | src/day09/tests.rs:282-288 | the highscore of the example is 32 |
| Day10.EvolvedAll | src/day10/mod.rs:227-230 | every star moves by its velocity once, keeping count and order |
| Day10.After | src/day10/mod.rs:253-255 | evolving any number of seconds keeps the number of stars |
| Day10.Evolved | src/day10/mod.rs:227-230 | one second of motion keeps a star's velocity; Day10.AfterMoves proves that after n seconds the star has moved n times its velocity |
| Day10.AfterMoves | src/day10/mod.rs:227-230 | after n seconds a star stands at its position plus n times its velocity, with the same velocity |
| Day10.AfterAfter | src/day10/mod.rs:253-255 | evolving m seconds and then n seconds is evolving m + n seconds |
| Day10.CornersBound | src/day10/mod.rs:257-283 | every star lies between the box's corners and each side of the box touches a star |
| Day10.Sky.constructor | src/day10/mod.rs:245-247 | the sky holds the given stars |
| Day10.Sky.Copy | src/day10/mod.rs:333-350 | a clone is a new sky with the same stars |
| Day10.Sky.Evolve | src/day10/mod.rs:253-255 | every star of the sky moves by its velocity once, in place |
| Day10.Sky.Area | src/day10/mod.rs:257-283 | the component-wise minimum and maximum of the star positions |
| Day10.Sky.StarPositions | src/day10/mod.rs:285-287 | exactly the positions some star stands at |
| Day10.PositionsAtMostStars | src/day10/mod.rs:285-287 | there are no more positions than stars |
| Day10.FirstGrowthUnique | src/day10/mod.rs:333-370 | there is only one first second in which the box grows, so both solvers stop at the same moment |
| Day10.ShrinksUntil | src/day10/mod.rs:340-347 | before the first growth the box never grows from one second to the next |
| Day10.AlignedIsSmallerThanNext | src/day10/mod.rs:340-347 | the state returned is strictly smaller than the next one and no larger than any earlier one |
| Day10.NoGrowthExtends | src/day10/mod.rs:340-347 | a second without growth before the first growth extends the stretch without growth |
| Day10.AlignStars | src/day10/mod.rs:333-350 | returns a new sky holding the stars as they were one second before the box first grows (the first time the `i64` area increases) |
| Day10.TimeToAlignedStars | src/day10/mod.rs:353-370 | the count of evolutions before the box first grows, that is one less than the first second of growth |
| Day10.AlignedAfterDuration | src/day10/mod.rs:333-370 | the sky `align_stars` returns is the sky after `time_to_aligned_stars` seconds |
| Day10.Separated | src/day10/mod.rs:318 | splitting on '<', '>' and ',' treats all three alike (each becomes a comma), keeping the length |
| Day10.SeparatedAppend | src/day10/mod.rs:318 | the separator rewriting works piecewise |
| Day10.SeparatedKeeps | src/day10/mod.rs:318 | text without brackets is unchanged by it |
| Day10.ParseStar | src/day10/mod.rs:317-327 | a parsed star has `i32` position and velocity taken from fields 1, 2, 4 and 5 of the split line; anything else is the source's panic |
| Day10.ParseStars | src/day10/mod.rs:313-329 | the stars are the lines' stars in input order, all `i32` |
| Day10.ParsePieces | src/day10/mod.rs:317-327 | a line whose trimmed fields 1, 2, 4 and 5 read as the star's numbers parses to that star |
| Day10.SplitFormat | src/day10/mod.rs:318 | "position=<x, y> velocity=<vx, vy>" splits into the expected seven fields |
| Day10.ParseFormatStar | src/day10/mod.rs:317-327 | a star written as "position=<x, y> velocity=<vx, vy>" parses back to itself |
| Day10.ParseStarsStep | src/day10/mod.rs:313-329 | parsing lines is parsing the first line and then the rest |
| Day10.ParseFormatStars | src/day10/mod.rs:313-329 | the formatted lines of any `i32` stars parse back to those stars |
| Day10.Parse | src/day10/mod.rs:312-330 | reads one star per line of the trimmed input; on success there are exactly as many stars as lines, each in the `i32` range; Day10.ParseFormatSky proves that a formatted sky reads back as itself |
| Day10.ParseFormatSky | src/day10/mod.rs:312-330 | the text of any non-empty list of `i32` stars, one per line, parses back to that list |
| Day10.SkyLines | src/day10/mod.rs:313-316 | trimming and splitting the sky's text gives back its lines |
| Day10.ShapedLines | src/day10/mod.rs:313-316 | lines that start with 'p' and end with '>' survive joining, trimming and splitting |
| Day11.RackId | src/day11/mod.rs:174-176 | the rack id of a cell with x at least 1 is above 10; Day11.CellPowerIsHundredsDigit uses it to fix the power level |
| Day11.CellPower | src/day11/mod.rs:203-206 | the power level of every cell lies in -5 to 4; Day11.CellPowerIsHundredsDigit proves it is the hundreds digit of the product minus 5 |
| Day11.CellPowerIsHundredsDigit | src/day11/mod.rs:173-206 | for cells with non-negative coordinates the power level is the hundreds digit of ((x+10)·y + serial)·(x+10) minus 5, so it lies between −5 and 4 |
| Day11.CellPowerOf | src/day11/mod.rs:203-206 | the power level is the product's `% 1000 / 100` minus 5, as the source computes it |
| Day11.CellPowerExamples | src/day11/tests.rs:8-46 | cells (3,5) with serial 8, (122,79) with 57, (217,196) with 39 and (101,153) with 71 have powers 4, −5, 0 and 4 |
| Day11.Row | src/day11/mod.rs:294-305 | one row of a group has as many cells as the group is wide |
| Day11.BlockLength | src/day11/mod.rs:268-306 | a block of rows has width times height cells |
| Day11.BlockCells | src/day11/mod.rs:268-306 | a cell is in the block exactly when it lies inside the rectangle |
| Day11.SquareCells | src/day11/mod.rs:268-306 | a cell is in the square exactly when it lies inside it |
| Day11.BlockDistinct | src/day11/mod.rs:268-306 | no cell appears twice |
| Day11.BlockPrefix | src/day11/mod.rs:294-305 | the cells yielded so far, row-major, are a prefix of the block |
| Day11.CursorWithin | src/day11/mod.rs:294-305 | what the cells iterator has yielded is a prefix of the square |
| Day11.CursorRight | src/day11/mod.rs:295-297 | moving right yields the next cell of the current row |
| Day11.CursorDown | src/day11/mod.rs:298-301 | moving down yields the first cell of the next row |
| Day11.CursorEnd | src/day11/mod.rs:302-304 | the iterator is at the last cell exactly when it has yielded the whole square |
| Day11.Cells.constructor | src/day11/mod.rs:276-288 | a new cells iterator over a group has yielded nothing and covers the group's square |
| Day11.Cells.Next | src/day11/mod.rs:294-305 | each call yields the next cell of the group in row-major order, and `None` (without change) exactly when all size² cells were yielded |
| Day11.Groups.constructor | src/day11/mod.rs:242-248 | a new groups iterator has yielded nothing, with `max` = grid size − group size |
| Day11.Groups.Next | src/day11/mod.rs:254-265 | each call yields the next top-left corner (1 ≤ x, y ≤ max + 1) row by row with the group size, and `None` (without change) exactly when all corners were yielded |
| Day11.SumPowerBounds | src/day11/mod.rs:227-231 | a sum of cell powers lies between −5 and 4 times the number of cells |
| Day11.GroupPowerBounds | src/day11/mod.rs:227-231 | a group's power lies between −5·size² and 4·size² |
| Day11.PowerLevel | src/day11/mod.rs:227-231 | the group's power is the sum of the powers of its cells, summed over what the cells iterator yields |
| Day11.SumPowerAppend | src/day11/mod.rs:227-231 | the power sum of two lists of cells adds up |
| Day11.RowPower3 | src/day11/mod.rs:227-231 | a row of three cells sums its three powers |
| Day11.GroupPower3 | src/day11/mod.rs:227-231 | a 3×3 group sums its three rows |
| Day11.GroupPowerExample18 | src/day11/tests.rs:52-60 | with serial 18 the group at (33,45) has power 29 |
| Day11.GroupPowerExample42 | src/day11/tests.rs:62-70 | with serial 42 the group at (21,61) has power 30 |
| Day11.ScanFirst | src/day11/mod.rs:338-345 | the first group scanned is the best so far |
| Day11.ScanStep | src/day11/mod.rs:338-345 | `max_by_key` keeps the later of equal maxima: a group with at least the best power so far takes over |
| Day11.ScanDone | src/day11/mod.rs:338-345 | when the scan ends its result is the last group of largest power |
| Day11.BestGroup | src/day11/mod.rs:357-364 | for one group size, a group of that size with the largest power over all corners, and no later corner has as much |
| Day11.MaxPowerCellGroup | src/day11/mod.rs:335-346 | the last 3×3 group of largest power on the 300×300 grid |
| Day11.BestPerSize | src/day11/mod.rs:357-366 | for each size from 1 to the grid size, the best group of that size |
| Day11.LastMax | src/day11/mod.rs:368-371 | the position of the last largest power in the list |
| Day11.PerSizeBest | src/day11/mod.rs:354-372 | the last best among the per-size bests beats or equals every group of every size, and every larger size has strictly less |
| Day11.BestGroupOfAnySize | src/day11/mod.rs:354-372 | a group whose power no group of any size exceeds, the last such by size, and the best of its own size |
| Day11.MaxPowerCellGroupSize | src/day11/mod.rs:354-372 | the best group of any size on the 300×300 grid |
| Day11.CornersFit | src/day11/mod.rs:241-266 | the corners are exactly the top-left cells of groups that fit in the grid |
| Day11.CornersOnce | src/day11/mod.rs:241-266 | every corner is yielded once |
| Day11.Parse | src/day11/mod.rs:324-326 | a parsed serial number is a `u32` |
| Day11.ParseShow | src/day11/mod.rs:324-326 | a `u32` serial number written out in decimal parses back to itself |
| Day12.OutcomeIsFirstMatch | src/day12/mod.rs:306-318 | a window's new centre pot is the outcome of the first rule whose pattern equals it, or empty when no rule matches |
| Day12.OutcomeNoMatch | src/day12/mod.rs:316-318 | with no matching rule the pot is left empty |
| Day12.OutcomeFirstMatch | src/day12/mod.rs:308-315 | the first matching rule decides the pot, whatever later rules say |
| Day12.Outer | src/day12/mod.rs:285 | the empty pattern-sized row has pattern-size pots |
| Day12.OuterEmpty | src/day12/mod.rs:285 | a row equals the empty row exactly when none of its pots is planted |
| Day12.AliveFromShift | src/day12/mod.rs:282-350 | generations of a row commute with shifting its numbering |
| Day12.AliveFromCompose | src/day12/mod.rs:299-349 | m generations followed by k generations are m + k generations |
| Day12.AliveFromPeriodic | src/day12/mod.rs:335-338 | a row whose next generation is itself shifted by `delta` stands, after k generations, shifted by k·`delta` |
| Day12.Breed | src/day12/mod.rs:300-319 | one generation keeps the row's length |
| Day12.BreedIsGeneration | src/day12/mod.rs:300-319 | on a padded row, updating every full window's centre pot is one generation of the infinite row of pots, provided an empty window breeds nothing |
| Day12.AlivePrepend | src/day12/mod.rs:294-297 | prepending empty pots and lowering the offset by as many leaves every numbered pot alone |
| Day12.AliveAppend | src/day12/mod.rs:291-293 | appending empty pots leaves every numbered pot alone |
| Day12.AliveDrop | src/day12/mod.rs:322-325 | dropping leading empty pots and raising the offset by as many leaves every numbered pot alone |
| Day12.PadEnd | src/day12/mod.rs:291-293 | pushes at most pattern-size empty pots until the last pattern-size pots are empty; the numbered pots are unchanged |
| Day12.PadFront | src/day12/mod.rs:294-297 | inserts at most pattern-size empty pots in front, one offset step each, until the first pattern-size pots are empty; the numbered pots are unchanged |
| Day12.PadRow | src/day12/mod.rs:288-297 | the padded row has empty pattern-size borders at both ends, an offset of at most 0, and the same numbered pots |
| Day12.NextGeneration | src/day12/mod.rs:300-319 | the loop over windows computes one generation of the row |
| Day12.Renormalise | src/day12/mod.rs:321-333 | fails (the source's out-of-range panic) exactly when the new row is all empty; otherwise leading padding is exactly pattern-size empty pots, the trailing border is empty, and `delta` keeps the numbered pots unchanged |
| Day12.GenerationStep | src/day12/mod.rs:299-349 | renumbering the bred row by `delta` gives the next generation at offset + `delta` |
| Day12.GenerationExtinct | src/day12/mod.rs:321-325 | an all-empty bred row means no pot is planted in that generation |
| Day12.StableRowDrifts | src/day12/mod.rs:335-338 | when a generation reproduces the previous row, jumping the offset by the remaining generations times `delta` gives generation n |
| Day12.EvolveNGenerations | src/day12/mod.rs:282-350 | when an empty window breeds nothing: the returned padded row at the returned offset is generation n of the initial row, shortcut included; failure means the plants died out within n generations |
| Day12.LineSumSame | src/day12/mod.rs:274-280 | the sum over a range depends only on which numbered pots are planted |
| Day12.LineSumEmpty | src/day12/mod.rs:274-280 | a range with no planted pot sums to 0 |
| Day12.LineSumSplit | src/day12/mod.rs:274-280 | a range's sum splits at any point |
| Day12.PotSum | src/day12/mod.rs:274-280 | a row with no plant sums to 0, and a row numbered from 0 or above sums to at least 0; Day12.PotSumIsLineSum and Day12.PotSumOfSameLine prove the sum depends only on where the plants stand |
| Day12.PotSumIsLineSum | src/day12/mod.rs:274-280 | the fold over the row sums the numbers of its planted pots |
| Day12.PotSumOver | src/day12/mod.rs:274-280 | summing over a wider range adds nothing |
| Day12.PotSumOfSameLine | src/day12/mod.rs:274-280 | two rows that plant the same numbered pots have the same sum, whatever their padding and offset |
| Day12.GenerationSumUnique | src/day12/mod.rs:274-280 | the sum of generation n is the same for every representation of it |
| Day12.SumOfPotNumbersAfter | src/day12/mod.rs:269-280 | when an empty window breeds nothing, a result is the sum of the pot numbers of generation n, and None means the plants died out within n generations (so n > 0) |
| Day12.SumOfPotNumbersAfter20Generations | src/day12/mod.rs:268-272 | when an empty window breeds nothing, a result is the sum of the pot numbers of generation 20, and None means the plants died out within 20 generations |
| Day12.SumOfPotNumbersAfter50000000000Generations | src/day12/mod.rs:352-356 | when an empty window breeds nothing, a result is the sum of the pot numbers of generation 50 000 000 000, and None means the plants died out by then |
| Day12.ShowPots | src/day12/mod.rs:127-133 | one character per pot |
| Day12.ReadPots | src/day12/mod.rs:239-241 | one pot per character |
| Day12.ReadShowPots | src/day12/mod.rs:127-133 | reading a row of '#' and '.' gives back the row it shows (see also lines 239-241) |
| Day12.FindArrow | src/day12/mod.rs:246 | a found "=>" is inside the line |
| Day12.FindArrowAt | src/day12/mod.rs:246 | the first '=' followed by '>' is where the line splits |
| Day12.FindArrowNone | src/day12/mod.rs:246 | a line without '=' has no arrow |
| Day12.ParseRules | src/day12/mod.rs:245-263 | every rule line gives one rule, in order |
| Day12.RuleLines | src/day12/mod.rs:142-150 | each rule is written on its own line |
| Day12.ParseRuleLine | src/day12/mod.rs:142-150 | a rule written as "pattern => outcome" parses back to itself (see also lines 245-263) |
| Day12.ParseRuleLines | src/day12/mod.rs:245-263 | written rules parse back to themselves, in order |
| Day12.TrimPotsSpace | src/day12/mod.rs:237-240 | trimming the initial-state line drops only the trailing space |
| Day12.Parse | src/day12/mod.rs:236-266 | has no contract of its own; it reads the initial row after the 15-character prefix and one rule per line from the third line on, or fails where the source panics; Day12.ParseFormat and Day12.ParseFormatEmptyRow state when it reads back |
| Day12.ParseFormat | src/day12/mod.rs:236-266 | a plantation with a non-empty row written as "initial state: …", a blank line and its rules parses back to itself |
| Day12.ParseFormatEmptyRow | src/day12/mod.rs:239 | an empty initial row is a parse failure (the source's out-of-range slice) |
| Day13.CmpIsReadingOrder | src/day13/mod.rs:295-309 | positions compare by row first, then column; equal exactly when identical, and the order is antisymmetric |
| Day13.CmpTransitive | src/day13/mod.rs:295-309 | the position order is transitive |
| Day13.Next | src/day13/mod.rs:353-360 | the next intersection choice always differs from the current one |
| Day13.NewCart | src/day13/mod.rs:404-411 | a new cart turns left at its first intersection; Day13.NextHasPeriodThree proves that its choices then cycle left, straight, right |
| Day13.NextHasPeriodThree | src/day13/mod.rs:347-360 | the choices cycle left, straight, right with period three, starting from left |
| Day13.RailOf | src/day13/mod.rs:557-566 | a cart's direction gives the straight rail it stands on, which it can ride |
| Day13.QuarterTurns | src/day13/mod.rs:413-530 | left and right turns are inverse quarter turns; four left turns return to the start |
| Day13.CurvesAreMirrors | src/day13/mod.rs:413-530 | both curve kinds always turn, and each is its own mirror image |
| Day13.AheadIsNeighbour | src/day13/mod.rs:413-530 | one step ahead is a neighbouring cell, and stepping back the opposite way returns |
| Day13.StepSpec | src/day13/mod.rs:413-530 | a move is illegal exactly when the rail does not fit the direction; otherwise the cart keeps its number, moves one cell in its new direction, keeps its direction on straight rails, turns on curves, and advances its intersection choice exactly on an intersection |
| Day13.MoveOneStep | src/day13/mod.rs:413-530 | returns `Moved` with the stepped cart, or `IllegalMove(direction, rail)` with the cart unchanged exactly when the step is illegal |
| Day13.InsertElements | src/day13/mod.rs:608 | insertion keeps the carts as a multiset |
| Day13.InsertSorted | src/day13/mod.rs:608 | insertion keeps the carts sorted by position |
| Day13.InsertDistinct | src/day13/mod.rs:608 | inserting a cart at a fresh position with a fresh number keeps the carts distinct |
| Day13.SortByPositionSpec | src/day13/mod.rs:608 | sorting by position yields a sorted permutation of the carts |
| Day13.SortKeepsDistinct | src/day13/mod.rs:608 | sorting keeps the carts distinct |
| Day13.FindOther | src/day13/mod.rs:627-633 | a different cart at the same position, or `None` exactly when there is none |
| Day13.IndexOf | src/day13/mod.rs:646 | the index of the cart, or `None` exactly when it is absent (see also lines 762-763) |
| Day13.RemoveAt | src/day13/mod.rs:650 | removing one cart shortens the list by one (see also line 764) |
| Day13.RemoveAtElements | src/day13/mod.rs:650 | removing keeps every other cart and adds none (see also line 764) |
| Day13.RemoveAtKeepsDistinct | src/day13/mod.rs:650 | removing keeps the carts distinct |
| Day13.Remove | src/day13/mod.rs:645-651 | removing a present cart shortens the list by one and lowers `processed` by at most one; an absent cart changes nothing |
| Day13.RemoveEach | src/day13/mod.rs:645-652 | removing the collided carts never increases the work left |
| Day13.RemoveEachPair | src/day13/mod.rs:645-652 | removing the pair removes the other cart first, then the moved one |
| Day13.FreeStep | src/day13/mod.rs:617-625 | a move to a free cell keeps the carts distinct |
| Day13.OtherRemovedDistinct | src/day13/mod.rs:627-651 | removing the cart that was hit keeps the carts distinct |
| Day13.CrashStep | src/day13/mod.rs:627-651 | a collision removes exactly the two colliding carts, keeps the rest, and keeps them distinct |
| Day13.FreeMove | src/day13/mod.rs:617-625 | when the new cell is not in the position set, the tick goes on with the moved cart |
| Day13.CrashMove | src/day13/mod.rs:621-651 | when the new cell is taken, both carts are removed and the first collision of the tick is recorded |
| Day13.StaleMove | src/day13/mod.rs:617-625 | a cell left in the position set by a removed cart does not stop the tick, as in the source |
| Day13.TickFromStep | src/day13/mod.rs:614-652 | one step of the tick either moves the cart on or removes both colliding carts |
| Day13.TickKeepsDistinct | src/day13/mod.rs:605-661 | a tick keeps the carts distinct |
| Day13.CrashSticks | src/day13/mod.rs:637-640 | once a collision is recorded, later ones in the same tick do not replace it |
| Day13.TickShrinks | src/day13/mod.rs:605-661 | a tick never adds carts, and a collision removes at least two |
| Day13.TickCrashMeets | src/day13/mod.rs:637-640 | a recorded collision is between two different carts at the same position |
| Day13.MovedFromStep | src/day13/mod.rs:614-625 | a tick without collision moves every cart one step in order |
| Day13.CrashNeverMoved | src/day13/mod.rs:621-640 | a tick with a collision does not end `Moved` |
| Day13.TickWithoutCrash | src/day13/mod.rs:605-661 | a tick that ends `Moved` moved every cart exactly one step |
| Day13.RemoveCollided | src/day13/mod.rs:645-652 | the removal loop removes the collided carts as the specification does |
| Day13.MoveNext | src/day13/mod.rs:614-625 | one iteration of the inner loop moves the next cart and reports a collision or an illegal move |
| Day13.MoveUntilCrash | src/day13/mod.rs:614-626 | the inner loop moves carts until one collides or all are processed |
| Day13.ResolveCrash | src/day13/mod.rs:627-653 | removing the colliding pair keeps the work measure decreasing and the position set covering the carts |
| Day13.MoveCartsOn | src/day13/mod.rs:605-661 | for distinct carts, the outcome and the carts left are those of the tick specification |
| Day13.TickSpec | src/day13/mod.rs:605-661 | a tick never adds carts or numbers, keeps carts distinct, moves every cart one step when it ends `Moved`, and a recorded collision is between two different carts in one cell with both removed |
| Day13.ReplaceKeepsNumbers | src/day13/mod.rs:617-619 | moving a cart keeps the set of cart numbers |
| Day13.MembersKeepNumbers | src/day13/mod.rs:645-651 | removing carts adds no numbers |
| Day13.TickKeepsNumbers | src/day13/mod.rs:605-661 | a tick adds no cart numbers |
| Day13.TakeIn | src/day13/mod.rs:588-601 | one loop step widens the box to take in the position |
| Day13.WidenStep | src/day13/mod.rs:588-601 | widening the box of some cells by a new cell gives the box of all of them |
| Day13.AreaOfNothing | src/day13/mod.rs:586-587 | the box of no rails is (`u32::MAX`, `u32::MAX`)–(0, 0) |
| Day13.AreaUnique | src/day13/mod.rs:585-603 | the box of a set of cells is unique |
| Day13.Area | src/day13/mod.rs:585-603 | the component-wise minimum and maximum of the rail positions, or the empty-box sentinels |
| Day13.CartsNTracks.constructor | src/day13/mod.rs:737-743 | a new state has no carts, no rails and a cart counter of 0 |
| Day13.CartsNTracks.Clone | src/day13/mod.rs:823-825 | a clone has the same counter, carts and rails |
| Day13.CartsNTracks.InsertCart | src/day13/mod.rs:753-758 | the counter goes up by one, a cart with that number is appended, the straight rail for its direction is put under it, and the carts stay distinct when the cell was free |
| Day13.CartsNTracks.RemoveCart | src/day13/mod.rs:760-765 | removes the first equal cart and returns it, or returns `None` and changes nothing when the cart is absent |
| Day13.CartsNTracks.InsertRail | src/day13/mod.rs:767-769 | the rail map gets the rail at the position and nothing else changes |
| Day13.CartsNTracks.MoveCarts | src/day13/mod.rs:771-773 | the carts and the outcome after one tick, by the tick specification; rails and counter unchanged |
| Day13.RailUnder | src/day13/mod.rs:783-810 | a character puts a rail under its cell exactly when it is a rail or a cart symbol |
| Day13.Numbered | src/day13/mod.rs:753-758 | numbering gives one cart per cell |
| Day13.RowCartsOrdered | src/day13/mod.rs:779-780 | the carts of one line are read left to right |
| Day13.CartsAboveOrdered | src/day13/mod.rs:779-780 | the carts are read in reading order, row by row |
| Day13.NumberedDistinct | src/day13/mod.rs:753-758 | the parsed carts are distinct and numbered 1 to the number of carts (see also lines 777-820) |
| Day13.NumberedAppend | src/day13/mod.rs:753-758 | each cart read gets the next number |
| Day13.ReadSymbol | src/day13/mod.rs:781-815 | a symbol is accepted exactly when it is a rail, a cart or whitespace; rails and carts are inserted as the source does |
| Day13.RailsReadStep | src/day13/mod.rs:781-815 | reading one more symbol keeps the rail map equal to what the text shows so far |
| Day13.RowsSupportedNext | src/day13/mod.rs:812 | one more row is accepted exactly when all its symbols are |
| Day13.RowsSupportedPrefix | src/day13/mod.rs:812 | accepted rows stay accepted in a prefix |
| Day13.RailsReadRow | src/day13/mod.rs:779-817 | finishing a row moves to the next one |
| Day13.ReadRow | src/day13/mod.rs:780-816 | reading one line accepts it exactly when all symbols are supported, and appends its carts and rails |
| Day13.Parse | src/day13/mod.rs:777-820 | fails (the source's panic) exactly when some character is unsupported; otherwise the carts are those of the text in reading order numbered from 1, and the rails are those the text shows |
| Day13.TickNext | src/day13/mod.rs:823-836 | one more tick of the loop gives the carts after n + 1 ticks |
| Day13.MovedThroughNext | src/day13/mod.rs:829-831 | a tick that ends `Moved` extends the run of uneventful ticks |
| Day13.AfterTicksDistinct | src/day13/mod.rs:823-836 | the carts stay distinct over any number of ticks |
| Day13.LocationOfFirstCrash | src/day13/mod.rs:823-836 | the first tick that does not end `Moved` decides: the moved cart's position for a collision, `None` for an illegal move or a missing rail (the source's panics) |
| Day13.FirstCrashIsMeeting | src/day13/mod.rs:823-836 | at the first crash two different carts stand on the same cell |
| Day13.WentOnThroughNext | src/day13/mod.rs:845-856 | a tick that lets the loop go on extends the run |
| Day13.LocationOfLastCart | src/day13/mod.rs:839-860 | the loop stops at the first collision tick that leaves at most one cart (or at a panic): the position of the remaining cart, `None` when none is left or the tick panicked |
| Day13.LastTickNext | src/day13/mod.rs:845-856 | whether the loop goes on and the last cart are read from one tick's outcome |
| Day13.LastCartIsAlone | src/day13/mod.rs:847-853 | when the loop stops on a collision at most one cart is left, and the collision removed at least two |
| Day13Display.CartAt | src/day13/mod.rs:696-709 | the first cart standing on the cell, or `None` exactly when no cart stands there |
| Day13Display.RowTextCells | src/day13/mod.rs:693-719 | a drawn row has one character per cell of the box, each the cell's symbol |
| Day13Display.TrimBlanksKeeps | src/day13/mod.rs:720-725 | trimming pops only trailing blanks and leaves a line that does not end in a blank |
| Day13Display.DrawRow | src/day13/mod.rs:692-727 | the loop over one row's cells and the trailing-blank trim draw that row |
| Day13Display.DrawRows | src/day13/mod.rs:690-730 | the loop over the rows draws every row of the box, each ended by a line feed |
| Day13Display.Display | src/day13/mod.rs:688-733 | the text is the drawing of the box of the rails: carts over rails over blanks, trailing blanks trimmed, one line per row |
| Day13Display.SymbolPlain | src/day13/mod.rs:696-719 | every drawn symbol is one the parser accepts and none is a line break; a rail cell is never blank (see also lines 794-812) |
| Day13Display.ShownRowsRead | src/day13/mod.rs:688-733 | splitting the drawing into lines gives back its rows (see also line 779) |
| Day13Display.ShownRowsPlain | src/day13/mod.rs:720-727 | no drawn row holds a line feed or ends in a carriage return |
| Day13Display.RowPlain | src/day13/mod.rs:720-727 | a trimmed row holds no line feed and does not end in a carriage return |
| Day13Display.ShownCell | src/day13/mod.rs:688-733 | for a box anchored at (0, 0), the character at (x, y) of the drawing is that cell's symbol, and every rail cell is on the drawing |
| Day13Display.CartAtNumbered | src/day13/mod.rs:696-709 | for carts read in order, a cell shows a cart facing d exactly when such a cart was read there (see also lines 753-758) |
| Day13Display.InOrderDistinct | src/day13/mod.rs:779-780 | carts read in reading order stand on different cells |
| Day13Display.SymbolOnCells | src/day13/mod.rs:696-719 | reading back a drawn symbol gives the cell's rail and, for carts on straight rails, its cart (see also lines 781-815) |
| Day13Display.RowCartsComplete | src/day13/mod.rs:779-815 | every cart symbol in a line is read as a cart |
| Day13Display.CartsAboveComplete | src/day13/mod.rs:779-815 | every cart symbol in the text is read as a cart |
| Day13Display.InOrderUnique | src/day13/mod.rs:779-780 | two lists in reading order with the same members are equal |
| Day13Display.RailsReadUnique | src/day13/mod.rs:781-815 | the text determines the rail map |
| Day13Display.ShownDepicts | src/day13/mod.rs:688-733 | the drawing depicts exactly the carts and rails it was drawn from |
| Day13Display.DepictedSupported | src/day13/mod.rs:812 | text that depicts carts and rails uses only accepted characters |
| Day13Display.DepictedRails | src/day13/mod.rs:781-815 | reading depicting text gives the depicted rails |
| Day13Display.DepictedCarts | src/day13/mod.rs:779-815 | reading depicting text gives the depicted carts, in order |
| Day13Display.FoundDepicted | src/day13/mod.rs:779-815 | every cart read from the text was depicted |
| Day13Display.DepictedFound | src/day13/mod.rs:779-815 | every depicted cart is read from the text |
| Day13Display.ShowRoundTrip | src/day13/mod.rs:688-733 | parsing the drawing of numbered carts standing on straight rails, with the box anchored at (0, 0), accepts it and gives back the same carts in reading order and the same rails (see also lines 777-820) |
| Day14.NewRecipesAreDigits | src/day14/mod.rs:204-208 | the new recipes are single digits: the sum itself below 10, otherwise a 1 followed by the last digit, together spelling the sum |
| Day14.Advance | src/day14/mod.rs:209-211 | an elf's new index is inside the board |
| Day14.Wrap | src/day14/mod.rs:209-211 | wrapping keeps an index inside the board |
| Day14.WrapIsMod | src/day14/mod.rs:209-211 | wrapping is the source's `%` |
| Day14.Grow | src/day14/mod.rs:203-212 | one growth step keeps both elves on the board and adds one or two recipes |
| Day14.GrowFields | src/day14/mod.rs:203-212 | the grown board appends the new recipes and moves each elf 1 + its score forward, modulo the new length |
| Day14.Grown | src/day14/mod.rs:203-212 | n growth steps keep the elves on the board and add at least n recipes |
| Day14.GrownNext | src/day14/mod.rs:203-212 | n + 1 growth steps are one more step after n |
| Day14.GrownDigits | src/day14/mod.rs:204-208 | a board of digits stays a board of digits |
| Day14.GrownPrefix | src/day14/mod.rs:203-212 | growing only appends: an earlier board is a prefix of a later one |
| Day14.GrowExtends | src/day14/mod.rs:203-212 | one step only appends |
| Day14.RecipeIn | src/day14/mod.rs:203-215 | every grown board agrees with the endless scoreboard at every index it holds |
| Day14.Start | src/day14/mod.rs:224-237 | the puzzle's start board [3, 7] has both elves on it |
| Day14.Recipes.constructor | src/day14/mod.rs:189-196 | a new iterator has board [r1, r2], elves 0 and 1, and has yielded nothing |
| Day14.Recipes.Next | src/day14/mod.rs:202-216 | yields the recipe at `current` of the endless scoreboard, grows the board by at most two recipes only as needed, and only appends |
| Day14.Recipes.AddRecipes | src/day14/mod.rs:203-212 | one pass of the growth loop is one growth step of the board |
| Day14.Take | src/day14/mod.rs:227 | taking n recipes yields the next n recipes of the endless scoreboard, in order |
| Day14.ScoreSeqAfterNumRecipes | src/day14/mod.rs:220-229 | for input n, the ten recipes after the first n; an input that is not an integer is the source's panic |
| Day14.DigitsOfShowScores | src/day14/mod.rs:135-144 | digit strings and digit sequences convert into each other both ways |
| Day14.ParseScoreSeq | src/day14/mod.rs:135-144 | succeeds exactly on strings of decimal digits, giving their digits in order |
| Day14.WindowOccurs | src/day14/mod.rs:240-245 | comparing a window of the grown board is asking whether the pattern occurs there on the endless scoreboard |
| Day14.LastWindowsMiss | src/day14/mod.rs:239-247 | when neither of the last two windows holds the pattern, no window does |
| Day14.AbsentGrows | src/day14/mod.rs:247-248 | a step adds at most two recipes, so after a miss only the last two windows are new |
| Day14.AheadOf | src/day14/mod.rs:238-248 | an occurrence not yet seen lies near the end of the board or beyond it |
| Day14.FoundAt | src/day14/mod.rs:240-245 | a window found at the end is an occurrence, and no earlier unchecked one exists |
| Day14.FoundAtEnd | src/day14/mod.rs:240-242 | a match in the last window is an occurrence with no earlier one but possibly the one just before |
| Day14.FoundFirstAtEnd | src/day14/mod.rs:240-245 | a match in the last window, with the one before it missing, is the first occurrence |
| Day14.FoundBeforeEnd | src/day14/mod.rs:243-245 | a match in the second-to-last window is the first occurrence |
| Day14.MissedAt | src/day14/mod.rs:240-245 | a window that differs from the pattern is not an occurrence |
| Day14.MatchAtEndAsWritten | src/day14/mod.rs:238-246 | as written, the last window is compared before the one ending a recipe earlier, and only on a board longer than the pattern, so offset 0 is reported only from a board of exactly one recipe more than the pattern has digits |
| Day14.FindScoresAsWritten | src/day14/mod.rs:232-250 | as written, the answer r is an occurrence and no occurrence starts at any offset from 1 to r - 2; offsets 0 and r - 1 may still hold the pattern, and 0 is reported only if some board has exactly one recipe more than the pattern has digits |
| Day14.AsWrittenMissesStart | src/day14/mod.rs:232-250 | "37" occurs at offset 0, yet no board has exactly 3 recipes (the first step takes the board from 2 to 4), so the as-written loop cannot report offset 0 for it |
| Day14.MatchAtEnd | src/day14/mod.rs:238-246 | the empty pattern is found at 0; otherwise, with the earlier of the last two windows compared first and a board as long as the pattern compared too, a found offset is the first occurrence, and None means no window of the board holds the pattern |
| Day14.FindScores | src/day14/mod.rs:232-250 | the number of recipes before the first occurrence of the pattern, for every pattern including the empty one |
| Day14.NumNeededRecipes | src/day14/mod.rs:232-250 | for a digit string, the number of recipes left of its first occurrence (0 for the empty string); Err exactly when the trimmed input has a non-digit, the source's panic |
| Day14.FifthBoard | src/day14/mod.rs:39-45 | after five steps the board is 3 7 1 0 1 0 1 2 4 with the elves at 4 and 8 |
| Day14.FirstRecipes | src/day14/mod.rs:39-45 | the first nine recipes are 3 7 1 0 1 0 1 2 4 |
| Day15Grid.Cmp | src/day15/mod.rs:597-612 | positions compare in reading order: equal exactly when identical, otherwise the one on the earlier row, or on the same row the one further left, comes first |
| Day15Grid.BeforeIsStrictTotalOrder | src/day15/mod.rs:597-612 | reading order is irreflexive, asymmetric, transitive and total, as `Ord` requires |
| Day15Grid.North | src/day15/mod.rs:626-635 | there is no cell to the north exactly in row 0; otherwise the cell is adjacent and comes earlier in reading order |
| Day15Grid.South | src/day15/mod.rs:637-646 | there is no cell to the south exactly in the last `usize` row; otherwise the cell is adjacent and comes later in reading order |
| Day15Grid.East | src/day15/mod.rs:648-657 | there is no cell to the east exactly in the last `usize` column; otherwise the cell is adjacent and comes later in reading order |
| Day15Grid.West | src/day15/mod.rs:659-668 | there is no cell to the west exactly in column 0; otherwise the cell is adjacent and comes earlier in reading order |
| Day15Grid.NeighboursAtEdges | src/day15/mod.rs:626-668 | north, west, south and east are missing exactly at the coordinate limits 0 and `usize::MAX`, and otherwise move one step along one axis |
| Day15Grid.OppositeNeighbours | src/day15/mod.rs:626-668 | q is north of p exactly when p is south of q, and likewise for west and east |
| Day15Grid.ManhattanDistance | src/day15/mod.rs:670-684 | the distance is zero exactly from a cell to itself; Day15Grid.ManhattanDistanceSpec adds that it is symmetric and the sum of the absolute coordinate differences |
| Day15Grid.ManhattanDistanceSpec | src/day15/mod.rs:670-684 | the distance is the sum of the absolute coordinate differences; it is symmetric and zero exactly between equal positions |
| Day15Grid.Neighbours | src/day15/mod.rs:1286-1302 | at most four neighbours, all different |
| Day15Grid.NeighboursAreAdjacent | src/day15/mod.rs:1286-1302 | q is among p's neighbours exactly when the two are one step apart horizontally or vertically |
| Day15Grid.AdjacentSymmetric | src/day15/mod.rs:626-668 | being neighbours is symmetric |
| Day15Grid.TileAt | src/day15/mod.rs:951-957 | a position is a wall exactly when it is in the wall set, otherwise open cavern |
| Day15Grid.Area | src/day15/mod.rs:959-977 | the smallest box holding every wall, each side touched by some wall; with no walls the empty box from `Position::MAX` to `Position::MIN` |
| Day15Grid.InsertSorted | src/day15/mod.rs:1143 | inserting a new position into a list in reading order keeps it in order and adds exactly that position |
| Day15Grid.SortedUnique | src/day15/mod.rs:1143 | two lists in strict reading order with the same members are equal, so the order of the sorted units does not depend on how they were collected |
| Day15Grid.FirstExists | src/day15/mod.rs:1143 | a non-empty set of positions has a first one in reading order |
| Day15Grid.First | src/day15/mod.rs:1143 | the first position of a non-empty set in reading order |
| Day15Grid.Ordered | src/day15/mod.rs:1135-1143 | a set of positions listed in strict reading order, one entry per member |
| Day15Grid.OrderedMembers | src/day15/mod.rs:1135-1143 | the listed positions are exactly the members of the set |
| Day15Grid.SortPositions | src/day15/mod.rs:1135-1143 | the unit positions sorted with `sort_unstable`: exactly the set, in strict reading order |
| Day15Search.KeepFree | src/day15/mod.rs:1286-1302 | keeps exactly the candidate positions that are the target or not blocked, without introducing duplicates |
| Day15Search.AdjacentFree | src/day15/mod.rs:1286-1302 | the free neighbours list has no duplicates |
| Day15Search.AdjacentFreeSpec | src/day15/mod.rs:1280-1302 | q is listed exactly when it is a neighbour of p and is either the target or a position that is neither wall nor unit |
| Day15Search.Visit | src/day15/mod.rs:1325-1339 | visiting a neighbour records it as a vertex, and puts it on the open list exactly when it was not yet known |
| Day15Search.VisitAll | src/day15/mod.rs:1324-1340 | after visiting all neighbours the vertices are the old ones plus the neighbours, and the open list gains exactly the neighbours not seen before |
| Day15Search.VisitAllCounts | src/day15/mod.rs:1324-1340 | visiting never increases the count of unknown positions weighed against the open list, and each open entry added is a new vertex |
| Day15Search.PopCounts | src/day15/mod.rs:1320-1356 | one pass of the exploring loop keeps the popped position known and strictly lowers the termination measure, so the exploring loop ends |
| Day15Search.InsertOpen | src/day15/mod.rs:1347-1354 | inserting into the open list adds exactly that position |
| Day15Search.SortOpen | src/day15/mod.rs:1347-1354 | sorting the open list keeps its length and its members |
| Day15Search.OpenBeforeOrder | src/day15/mod.rs:1347-1354 | the open list's comparator (descending global score, ties by descending position) is asymmetric and its negation transitive |
| Day15Search.InsertOpenSorted | src/day15/mod.rs:1347-1354 | inserting into a sorted open list keeps it sorted |
| Day15Search.SortOpenSorted | src/day15/mod.rs:1347-1354 | the re-sorted open list is sorted by the comparator, so `pop` takes the lowest global score, ties broken by the smallest position |
| Day15Search.InsertOpenPermutes | src/day15/mod.rs:1347-1354 | inserting into the open list is a permutation of the old list plus the new position |
| Day15Search.SortOpenPermutes | src/day15/mod.rs:1347-1354 | sorting the open list is a permutation |
| Day15Search.Explore | src/day15/mod.rs:1320-1355 | the exploring loop keeps every vertex, only ever finds the start, and counts no more steps than vertices |
| Day15Search.Trace | src/day15/mod.rs:1358-1363 | following `previous` links from a found start gives a path beginning there, and nothing when nothing was found |
| Day15Search.VisitEffect | src/day15/mod.rs:1325-1339 | visiting leaves known vertices' links and distances as they were, and a new vertex gets the current position as predecessor at the current distance |
| Day15Search.CurrIsOlder | src/day15/mod.rs:1321-1323 | the position being expanded was reached at a smaller distance than the current one |
| Day15Search.VisitKeeps | src/day15/mod.rs:1325-1339 | visiting one free neighbour keeps every predecessor link pointing at an adjacent known cell with a smaller `local` |
| Day15Search.VisitAllKeeps | src/day15/mod.rs:1324-1340 | visiting all free neighbours keeps every predecessor link pointing at an adjacent known cell with a smaller `local` |
| Day15Search.StartVisiting | src/day15/mod.rs:1320-1323 | a settled vertex map is ready for the next pass |
| Day15Search.SettledTraced | src/day15/mod.rs:1320-1355 | a settled vertex map has only well-formed links |
| Day15Search.PopKeeps | src/day15/mod.rs:1320-1340 | one pass of the exploring loop keeps the vertex map settled |
| Day15Search.ExploreTraced | src/day15/mod.rs:1320-1355 | the whole exploring loop keeps the links well formed: every cell is the end, the start or free, and each predecessor link points at an adjacent known cell with a smaller `local` |
| Day15Search.TracedChain | src/day15/mod.rs:1358-1363 | well-formed links form no cycle, so the trace-back loop ends |
| Day15Search.SearchTraced | src/day15/mod.rs:1304-1367 | the vertex map of the search has well-formed, acyclic links |
| Day15Search.TraceShape | src/day15/mod.rs:1358-1363 | a traced path starts at the given position, walks through adjacent free cells with strictly falling `local`, and ends at a position with no predecessor |
| Day15Search.LocalsFall | src/day15/mod.rs:1358-1363 | `local` falls strictly along a traced path |
| Day15Search.SearchPathShape | src/day15/mod.rs:1304-1367 | a non-empty shortest path starts at the unit, moves one step at a time through free positions (or the end), never returns to the start and visits no position twice |
| Day15Search.SettledRooted | src/day15/mod.rs:1320-1355 | while distances stay below `MAX_DISTANCE`, every link chain leads back to the end |
| Day15Search.ExploreInRegion | src/day15/mod.rs:1320-1355 | the search never leaves a region enclosed by walls and units |
| Day15Search.SearchPathEndsAtEnd | src/day15/mod.rs:1304-1367 | inside a region enclosed by walls and units and smaller than `MAX_DISTANCE`, a non-empty path ends at the target |
| Day15Search.PopFrontier | src/day15/mod.rs:1320-1355 | until the start is popped, every known position is either open or has had all its free neighbours recorded |
| Day15Search.PopFrontierAll | src/day15/mod.rs:1324-1340 | expanding a position keeps every known position open or expanded |
| Day15Search.PopFrontierCell | src/day15/mod.rs:1324-1340 | after one expansion a known position is open or expanded |
| Day15Search.ExploreExhausts | src/day15/mod.rs:1320-1355 | when the search ends without finding the start, every known position had all its free neighbours recorded |
| Day15Search.WalkBack | src/day15/mod.rs:1320-1355 | in an exhausted search, any walk through free positions from the start to the end would have put the start among the vertices |
| Day15Search.SearchPathComplete | src/day15/mod.rs:1304-1367 | whenever some walk through free positions joins the unit to the target, the shortest path is not empty |
| Day15Search.VisitOne | src/day15/mod.rs:1325-1339 | the loop body for one neighbour updates the vertex map and open list as the visit function says |
| Day15Search.VisitNeighbours | src/day15/mod.rs:1324-1340 | the loop over the free neighbours updates the vertex map and open list as the visit function says |
| Day15Search.ReadPath | src/day15/mod.rs:1356-1366 | the trace-back loop returns the chain of `previous` links from the found start |
| Day15Search.ShortestPath | src/day15/mod.rs:1304-1367 | the imperative search returns the search path (whose shape, end point and completeness the lemmas above state) |
| Day15Combat.WeakerOrder | src/day15/mod.rs:1395-1404 | the attack comparator (fewer hit points first, ties by reading order) is a strict total order on the enemies |
| Day15Combat.Weakest | src/day15/mod.rs:1394-1407 | the chosen candidate is an enemy, weaker than every other candidate enemy, and there is none exactly when no candidate is an enemy |
| Day15Combat.EnemyToAttack | src/day15/mod.rs:1381-1408 | there is an enemy to attack exactly when a neighbouring cell holds an enemy, and the chosen one stands on a neighbouring cell; Day15Combat.EnemyToAttackSpec adds that it has the fewest hit points, the first in reading order among equals |
| Day15Combat.EnemyToAttackSpec | src/day15/mod.rs:1381-1408 | a unit attacks an adjacent enemy with the fewest hit points, the first in reading order among ties, and attacks nobody exactly when no enemy is adjacent |
| Day15Combat.Attacked | src/day15/mod.rs:1410-1430 | an attack lowers the target's hit points by the attack power and removes it exactly when they reach zero or less; no other unit changes |
| Day15Combat.AttackEnemy | src/day15/mod.rs:1410-1430 | the imperative attack leaves the enemies as the attack function says, and returns the fallen enemy with its id exactly when the target died |
| Day15Combat.Moved | src/day15/mod.rs:1370-1379 | moving a unit takes it from its cell to the target with its id and hit points; an absent unit changes nothing; every other cell keeps its unit |
| Day15Combat.MoveUnit | src/day15/mod.rs:1370-1379 | the imperative move updates the units as the move function says and returns the target exactly when the unit was there |
| Day15Combat.Blocked | src/day15/mod.rs:1280-1284 | a position is free exactly when it is open cavern and holds no unit of either side |
| Day15Combat.TargetsSpec | src/day15/mod.rs:1201-1224 | a position is a target exactly when it is free, is not the moving unit's own cell, and is next to some enemy |
| Day15Combat.CollectTargets | src/day15/mod.rs:1201-1224 | the loop over the enemies collects exactly the targets |
| Day15Combat.CollectAround | src/day15/mod.rs:1203-1213 | the loop over one enemy's neighbours adds exactly its free neighbours other than the moving unit |
| Day15Combat.TargetsAdd | src/day15/mod.rs:1215-1218 | adding one enemy adds exactly its free neighbours to the targets |
| Day15Combat.NearerOrder | src/day15/mod.rs:1270-1277 | the path comparator (shorter first, ties by the earlier last cell) is asymmetric, transitive, and its negation transitive |
| Day15Combat.NextBest | src/day15/mod.rs:1269-1277 | keeping the better of the best so far and an empty-or-not path never keeps an empty path |
| Day15Combat.NearestFrom | src/day15/mod.rs:1266-1277 | the minimum over the non-empty paths: one of them (or the best so far), and no non-empty path is nearer; nothing exactly when all are empty |
| Day15Combat.ShortestPathsShaped | src/day15/mod.rs:1304-1367 | the search used by the combat returns well-shaped paths: from the unit, one step at a time through free cells |
| Day15Combat.NearestPathSpec | src/day15/mod.rs:1261-1278 | the nearest path is the search path to one of the targets, no other non-empty one is nearer, and there is none exactly when no target is reachable |
| Day15Combat.NearestStep | src/day15/mod.rs:1266-1277 | folding the targets one at a time is the same minimum |
| Day15Combat.PathToNearestTarget | src/day15/mod.rs:1261-1278 | the imperative loop over the targets returns the nearest path |
| Day15Combat.StepIsFree | src/day15/mod.rs:1220-1223 | a step taken is to an adjacent open cell holding no unit |
| Day15Combat.MoveTowards | src/day15/mod.rs:1201-1259 | a unit moves to the second cell of the nearest path to a target, if there is one, and otherwise stays |
| Day15Combat.TurnApart | src/day15/mod.rs:1146-1166 | a unit's turn never puts an Elf and a Goblin on the same cell |
| Day15Combat.MovedApart | src/day15/mod.rs:1370-1379 | a move onto a cell without an enemy keeps the sides apart |
| Day15Combat.TurnCounts | src/day15/mod.rs:1146-1166 | a unit's turn keeps the number of its own side and never adds enemies |
| Day15Combat.TurnAlive | src/day15/mod.rs:1146-1166 | after a turn every remaining unit still has positive hit points |
| Day15Combat.TakeTurn | src/day15/mod.rs:1146-1166 | one unit's turn: attack an adjacent enemy if any, else move towards the nearest target and then attack if now adjacent |
| Day15Combat.UnitTurnKeeps | src/day15/mod.rs:1145-1163 | a turn keeps the walls, powers and round count, keeps the sides apart, never grows a side, and keeps every unit alive |
| Day15Combat.Turns | src/day15/mod.rs:1145-1171 | the units act in order until one side is wiped out; the count of units that acted reaches all of them unless the fight ended early |
| Day15Combat.TurnsStep | src/day15/mod.rs:1145-1171 | one unit acts, then the loop stops if a side is gone and continues with the rest otherwise |
| Day15Combat.Round | src/day15/mod.rs:1134-1177 | a round keeps the walls and both attack powers and raises the round count by at most one; Day15Combat.RoundKeeps adds that the sides stay apart, no unit is added and a round after which both sides stand counts |
| Day15Combat.RoundKeeps | src/day15/mod.rs:1134-1177 | a round keeps the walls and powers and the sides apart, never grows a side, and counts as a full round exactly when every unit got to act, which it does while both sides remain |
| Day15Combat.RoundKeepsShortest | src/day15/mod.rs:1134-1177 | a round of the actual combat keeps the sides apart and never adds Elves |
| Day15Combat.RoundOf | src/day15/mod.rs:1134-1177 | sorting the unit positions, playing them in turn and counting the round only when all acted is the round |
| Day15Combat.SumHitPointsFirst | src/day15/mod.rs:1183-1196 | the hit-point total splits off the first unit |
| Day15Combat.SumHitPointsRemove | src/day15/mod.rs:1183-1196 | the hit-point total splits off any one unit, so the fold's order does not matter |
| Day15Combat.SumHitPointsAlive | src/day15/mod.rs:1183-1196 | living units have at least one hit point each in total |
| Day15Combat.Outcome | src/day15/mod.rs:1179-1199 | a tie exactly when both sides are gone, ongoing exactly when both remain, otherwise the surviving side wins with its total hit points |
| Day15Combat.CalculateOutcome | src/day15/mod.rs:1472-1494 | a tie scores 0; a win with hit points left scores at least the number of full rounds, and 0 only when no full round was fought; Day15Combat.FinalScore states this for every finished battle |
| Day15Combat.FinalScore | src/day15/mod.rs:1472-1494 | the outcome of a finished fight is zero exactly on a tie or after no full round, and otherwise at least the rounds times the survivors |
| Day15Combat.UndecidedBefore | src/day15/mod.rs:1113-1122 | no earlier round of an undecided fight ended it |
| Day15Combat.FirstEndUnique | src/day15/mod.rs:1113-1122 | the round in which a fight first ends is unique |
| Day15Combat.PlayShift | src/day15/mod.rs:1124-1132 | k + 1 rounds are one round followed by k |
| Day15Combat.UndecidedShift | src/day15/mod.rs:1113-1122 | a first round that decides nothing extends an undecided stretch by one |
| Day15Combat.FirstRound | src/day15/mod.rs:1113-1122 | one round played is the round itself, and if it decides the fight it is the first end |
| Day15Combat.FirstEndShift | src/day15/mod.rs:1113-1122 | after a round that decides nothing, the first end is one later |
| Day15Combat.FinishSome | src/day15/mod.rs:1113-1122 | a fight that ends within n rounds is finished by the `fight` loop within n rounds |
| Day15Combat.FinishFirst | src/day15/mod.rs:1113-1122 | the `fight` loop stops at the first round that decides the fight |
| Day15Combat.FinishAdvance | src/day15/mod.rs:1113-1122 | one pass of the `fight` loop either ends at the goal or leaves one round fewer to play |
| Day15Combat.PlayStep | src/day15/mod.rs:1124-1132 | n + 1 rounds are n rounds followed by one |
| Day15Combat.PlayNext | src/day15/mod.rs:1124-1132 | one more pass of the `n_fights` loop is one more round |
| Day15Combat.Trial | src/day15/mod.rs:1510-1526 | an attempt at a fixed power stops at a round that costs an Elf or decides the fight |
| Day15Combat.TrialMore | src/day15/mod.rs:1510-1526 | an attempt that ends within k rounds ends the same way given more |
| Day15Combat.TrialMoreLater | src/day15/mod.rs:1510-1526 | the same after a round that decides nothing |
| Day15Combat.PowerSearch | src/day15/mod.rs:1503-1531 | an answer has a power no lower than the first one tried, and its fight is decided with no Elf lost; Day15Combat.PowerSearchLeast proves that every power passed over costs an Elf |
| Day15Combat.PowerSearchLeast | src/day15/mod.rs:1503-1531 | the power found is at least the starting power, and every power from the start below it costs an Elf |
| Day15Combat.PowerSearchLeastLater | src/day15/mod.rs:1514-1521 | the same once an attempt has cost an Elf and the search moved one power up |
| Day15Combat.PowerSearchEnd | src/day15/mod.rs:1503-1531 | the power found has an attempt that decides the fight with no Elf lost, so the Elves win whenever there were Elves |
| Day15Combat.PowerSearchFound | src/day15/mod.rs:1503-1531 | the power found has an attempt ending with no Elf lost, and its result is that attempt's |
| Day15Combat.PowerSearchFoundLater | src/day15/mod.rs:1514-1521 | the same once an attempt has cost an Elf |
| Day15Combat.NoLossWins | src/day15/mod.rs:1179-1199 | a decided fight with all Elves alive is an Elf victory when there were Elves |
| Day15Combat.PowerSearchWins | src/day15/mod.rs:1503-1531 | the intended search from power 4 answers with the least power at which no Elf falls, with that fight's rounds and result |
| Day15Combat.LeastWinningUnique | src/day15/mod.rs:1503-1531 | the least winning power, its rounds and its result are unique |
| Day15Combat.TrialAgree | src/day15/mod.rs:1510-1526 | two attempts at the same power that both end agree |
| Day15Combat.SearchAsWritten | src/day15/mod.rs:1503-1531 | as written, the loop answers only with a decided fight: it breaks on the first round whose result is not ongoing, whether or not that round also made it start over |
| Day15Combat.SearchStopsOnLostElf | src/day15/mod.rs:1509-1530 | when the round that decides a fight also kills an Elf, the source answers with a power it never tried, the round count of the fresh copy and the abandoned fight's result, a Goblin victory if the last Elf fell |
| Day15Combat.PowerAttempt | src/day15/mod.rs:1510-1526 | each power tried has an attempt, and an attempt with no Elf lost is the answer |
| Day15Combat.PowerAdvance | src/day15/mod.rs:1514-1521 | an attempt that costs an Elf moves the search one power up |
| Day15Combat.TrialAdvance | src/day15/mod.rs:1510-1526 | one round of an attempt keeps the sides apart, never adds Elves, and either ends the attempt or leaves one round fewer |
| Day15Combat.IdSequence.constructor | src/day15/mod.rs:553-559 | a new id sequence has the given step and has handed out nothing |
| Day15Combat.IdSequence.NextVal | src/day15/mod.rs:561-564 | each id handed out is one more than the last |
| Day15Combat.Combat.constructor | src/day15/mod.rs:1075-1091 | a new combat has the given walls and units, no round fought, and both sides at attack power 3 |
| Day15Combat.Combat.Clone | src/day15/mod.rs:1007-1015 | a clone is a fresh combat in the same state |
| Day15Combat.Combat.PlayUnit | src/day15/mod.rs:1146-1166 | one unit's turn on the combat changes its state as the turn function says |
| Day15Combat.Combat.PlayUnits | src/day15/mod.rs:1145-1171 | the loop over the sorted units plays their turns in order until a side is wiped out, counting those that acted |
| Day15Combat.Combat.PlayRound | src/day15/mod.rs:1134-1177 | a round on the combat is the round function of its old state |
| Day15Combat.Combat.Status | src/day15/mod.rs:1179-1199 | the status is the outcome of the current units |
| Day15Combat.Combat.FightOneRound | src/day15/mod.rs:1134-1177 | plays one round and reports the resulting status |
| Day15Combat.Combat.Fight | src/day15/mod.rs:1113-1122 | plays rounds until the first one that decides the fight and returns that result |
| Day15Combat.Combat.FightUntil | src/day15/mod.rs:1113-1122 | the `fight` loop reaches the first decided state |
| Day15Combat.Combat.FightTowards | src/day15/mod.rs:1114-1121 | one pass of the `fight` loop either ends at the goal or leaves fewer rounds to play |
| Day15Combat.Combat.NFights | src/day15/mod.rs:1124-1132 | n rounds are played, even past the end of the fight, and the last round's status is returned (`Ongoing` for none) |
| Day15Combat.Combat.TrialRounds | src/day15/mod.rs:1510-1526 | the rounds of one attempt run until an Elf falls or the fight is decided |
| Day15Combat.Combat.TrialStep | src/day15/mod.rs:1510-1526 | one round of an attempt either ends it or leaves fewer rounds |
| Day15Combat.Part1 | src/day15/mod.rs:1467-1470 | the part one answer is the outcome of the fight played to its first end |
| Day15Combat.TryPower | src/day15/mod.rs:1503-1531 | one attempt: with an Elf lost the search goes on one power higher, otherwise it is the answer |
| Day15Combat.LeastAttackPower | src/day15/mod.rs:1503-1531 | the least Elf attack power from 4 on at which no Elf falls, with the rounds and result of that fight (the corrected search) |
| Day15Combat.Part2 | src/day15/mod.rs:1497-1501 | the part two answer is the outcome of the fight at the least winning power |
| Day15Combat.CharAt | src/day15/mod.rs:1440-1441 | a character exists exactly inside the rows and their lengths |
| Day15Combat.ReadApart | src/day15/mod.rs:1433-1464 | a parsed cave puts no unit in a wall, no Elf and Goblin on one cell, and gives each Elf its own id |
| Day15Combat.NumberedAdd | src/day15/mod.rs:1451-1458 | adding a unit after all others with the next id keeps the side numbered in reading order |
| Day15Combat.DrawnStep | src/day15/mod.rs:1440-1446 | reading one more cell keeps the collected cells exactly those drawn so far |
| Day15Combat.KnownStep | src/day15/mod.rs:1440-1462 | one more accepted character keeps every read character accepted |
| Day15Combat.SeenBefore | src/day15/mod.rs:1440-1441 | cells read earlier come before the current one in reading order |
| Day15Combat.UnitsStep | src/day15/mod.rs:1451-1458 | reading a unit character adds one unit with the next id |
| Day15Combat.ReadStep | src/day15/mod.rs:1440-1462 | reading one accepted character keeps walls, Elves and Goblins exactly what has been read, numbered in reading order |
| Day15Combat.ReadCell | src/day15/mod.rs:1442-1461 | the match on one character succeeds exactly on `.`, `#`, `E`, `G` or whitespace, and records it |
| Day15Combat.ReadCave | src/day15/mod.rs:1433-1464 | reading fails exactly when some character is not accepted (the source's panic); otherwise it collects exactly the walls, Elves and Goblins drawn, numbered in reading order |
| Day15Combat.RowDone | src/day15/mod.rs:1439-1440 | finishing a row moves on to the start of the next |
| Day15Combat.Parse | src/day15/mod.rs:1433-1464 | parsing fails exactly on an unexpected character; otherwise a fresh combat holding exactly the drawn walls and units, apart, with no round fought and default powers |
| Day15Display.Display | src/day15/mod.rs:1017-1047 | the picture covers the bounding box of the walls, row by row |
| Day15Display.DrawRow | src/day15/mod.rs:1021-1043 | one row of the picture, left to right across the box, each cell `E`, `G`, `#` or `.`, ended by a newline |
| Day15Display.SymbolPlain | src/day15/mod.rs:1024-1040 | every drawn symbol is one `parse` accepts and is not whitespace |
| Day15Display.ShownRowsRead | src/day15/mod.rs:1020-1045 | splitting the picture into lines gives back its rows |
| Day15Display.ShownCharAt | src/day15/mod.rs:1020-1045 | a picture anchored at (0, 0) shows at each position the symbol of that cell, and nothing outside the box |
| Day15Display.ShowReadsBack | src/day15/mod.rs:1017-1047 | reading back the picture of a cave anchored at (0, 0), with its units inside the box, apart and numbered, gives exactly that cave |
| Day15Display.PicturedReads | src/day15/mod.rs:1433-1464 | a text showing each cell's symbol reads back as that cave |
| Day15Display.PicturedAt | src/day15/mod.rs:1024-1040 | a cell shows `#`, `E` or `G` exactly when it holds a wall, an Elf or a Goblin |
| Day15Display.IdsCard | src/day15/mod.rs:1451-1458 | the units of a numbered side have distinct ids |
| Day15Display.NumberedRank | src/day15/mod.rs:1451-1458 | a unit's id is one more than the number of its side's units before it in reading order |
| Day15Display.SplitAround | src/day15/mod.rs:1451-1458 | a side's units split into those before a unit, the unit, and those after |
| Day15Display.IdsBelow | src/day15/mod.rs:1451-1458 | units before a unit have smaller ids |
| Day15Display.IdsAbove | src/day15/mod.rs:1451-1458 | units after a unit have larger ids |
| Day15Display.NumberedUnique | src/day15/mod.rs:1451-1458 | a side's ids are determined by its cells |
| Day15Display.ReadFromUnique | src/day15/mod.rs:1433-1464 | an input reads as at most one cave |
| Day15Display.ShowRoundTrip | src/day15/mod.rs:1017-1047 | the picture of a cave anchored at (0, 0), with its units inside the box, apart and numbered, is accepted by `parse` and reads back as exactly that cave and no other |
| Day16.InstructionSetComplete | src/day16/mod.rs:145-167 | the instruction set lists each of the 16 mnemonics exactly once |
| Day16.Name | src/day16/mod.rs:169-191 | every mnemonic is written as four lower-case letters |
| Day16.ParseMnemonic | src/day16/mod.rs:193-217 | a mnemonic read from text is one whose name is that text |
| Day16.ParseName | src/day16/mod.rs:169-217 | reading a mnemonic's name gives the mnemonic back |
| Day16.NameParse | src/day16/mod.rs:193-217 | reading succeeds exactly on the sixteen names, and gives the mnemonic of that name |
| Day16.BitAnd | src/day16/mod.rs:390-391 | bitwise AND is at most each operand |
| Day16.BitOr | src/day16/mod.rs:392-393 | bitwise OR is at least each operand and at most their sum |
| Day16.BitIdempotent | src/day16/mod.rs:390-393 | AND and OR of a value with itself is the value |
| Day16.Operate | src/day16/mod.rs:382-405 | an instruction succeeds exactly when its register operands address the register file, writes the mnemonic's value into register C, and leaves every other register unchanged |
| Day16.ComparisonsStoreFlags | src/day16/mod.rs:396-401 | the comparison mnemonics store 0 or 1; `gtrr` stores 1 exactly when register A exceeds register B, `eqrr` exactly when they are equal |
| Day16.ExecuteMnemonic | src/day16/mod.rs:382-405 | executing in place on the register array updates it as the operation says, and fails, leaving it alone, exactly when an operand is out of range (the source's index panic) |
| Day16.Matching | src/day16/mod.rs:407-417 | filtering keeps at most the mnemonics it is given |
| Day16.MatchingExactly | src/day16/mod.rs:407-417 | a mnemonic is kept exactly when it is in the list and the sample behaves like it |
| Day16.Possible | src/day16/mod.rs:407-417 | every mnemonic it lists reproduces the sample's recorded registers; Day16.PossiblePanics adds when it panics and that it lists exactly those mnemonics |
| Day16.PossiblePanics | src/day16/mod.rs:407-417 | the possible mnemonics of a sample are exactly those it behaves like; there is no answer exactly when an operand is out of range |
| Day16.PossibleMnemonics | src/day16/mod.rs:407-417 | the loop over the instruction set collects the possible mnemonics |
| Day16.ManualSample | src/day16/mod.rs:88-117 | the sample `Before: [3, 2, 1, 1]`, `9 2 1 2`, `After: [3, 2, 2, 1]` behaves exactly like `addi`, `mulr` and `seti` |
| Day16.ManualSampleBehaves | src/day16/mod.rs:107-117 | that sample behaves like a mnemonic exactly when it is `addi`, `mulr` or `seti` |
| Day16.MatchingAppend | src/day16/mod.rs:407-417 | filtering a concatenation filters each part |
| Day16.CandidatesUnion | src/day16/mod.rs:419-428 | each opcode seen in a sample gets exactly the union of its samples' possible mnemonics, and no other opcode gets any; there is no answer exactly when a sample has an operand out of range |
| Day16.CandidatesNone | src/day16/mod.rs:419-428 | collecting fails exactly when some sample fails |
| Day16.CandidatesKeys | src/day16/mod.rs:419-428 | the opcodes collected are exactly those of the samples |
| Day16.CandidatesMembers | src/day16/mod.rs:419-428 | an opcode's candidates are exactly the possible mnemonics of its samples |
| Day16.Pick | src/day16/mod.rs:435 | an element is picked from a non-empty set |
| Day16.Clarified | src/day16/mod.rs:432-440 | the clarified opcodes are exactly those with a single candidate, each mapped to that candidate |
| Day16.Pass | src/day16/mod.rs:431-447 | one pass of the decoding loop keeps only opcodes with candidates left, each a subset of what it had |
| Day16.Without | src/day16/mod.rs:441-447 | removing the clarified mnemonics leaves each opcode its old candidates minus those, dropping opcodes with none |
| Day16.PassProgress | src/day16/mod.rs:429-448 | a pass drops an opcode exactly when some opcode had at most one candidate, and otherwise changes nothing |
| Day16.PassDrops | src/day16/mod.rs:441-447 | an opcode with at most one candidate is gone after the pass |
| Day16.PassKeepsAll | src/day16/mod.rs:429-448 | when every opcode has two or more candidates, the pass changes nothing, so the source's loop would never end |
| Day16.NothingClarified | src/day16/mod.rs:432-440 | when every opcode has two or more candidates, nothing is clarified |
| Day16.DecodeWithin | src/day16/mod.rs:429-448 | every decoded mnemonic is one of its opcode's original candidates |
| Day16.DecodedBySamples | src/day16/mod.rs:419-450 | every decoded opcode has a sample with that opcode that behaves like its mnemonic |
| Day16.CollectCandidates | src/day16/mod.rs:419-428 | the loop over the samples collects the candidates |
| Day16.ApplyPass | src/day16/mod.rs:429-448 | one pass of the decoding loop, in place, is the pass function, and records the clarified opcodes |
| Day16.MinusStep | src/day16/mod.rs:441-445 | removing mnemonics one at a time is removing them all at once |
| Day16.RetainMinus | src/day16/mod.rs:441-447 | removing and then retaining the non-empty sets is the pass's removal |
| Day16.DecodeOpcodes | src/day16/mod.rs:419-450 | the decoded opcode table, when the decoding loop ends |
| Day16.Interpreter.Step | src/day16/mod.rs:319-330 | an instruction with an unknown opcode fails; a known one succeeds exactly when its operands address the registers, with the mnemonic's effect |
| Day16.Interpreter.Trace | src/day16/mod.rs:332-337 | running a program keeps the register count |
| Day16.Interpreter.Execute | src/day16/mod.rs:319-330 | executing in place updates the registers as the step says, and leaves them alone on failure |
| Day16.Interpreter.Run | src/day16/mod.rs:332-337 | the loop over the program stops at the first failing instruction, and leaves the registers as traced |
| Day16.TraceAppend | src/day16/mod.rs:332-337 | running two programs in sequence is running their concatenation, unless the first fails |
| Day16.NumSamplesLikeThreeOrMore | src/day16/mod.rs:532-542 | counts the samples behaving like three or more mnemonics: at most all samples, zero exactly when none does; no answer exactly when a sample has an out-of-range operand |
| Day16.NumSamplesExample | src/day16/tests.rs:27-34 | the manual's single sample counts 1 |
| Day16.RunProgram | src/day16/mod.rs:544-553 | the registers after running the program from all zeros with the decoded opcodes |
| Day16.CloseAt | src/day16/mod.rs:456-466 | the index of the first `]`, or the end |
| Day16.KeptAppend | src/day16/mod.rs:456-476 | the characters kept from a concatenation are those kept from each part |
| Day16.ParseAll | src/day16/mod.rs:462-470 | parsing all pieces gives one value per piece |
| Day16.ParseAllFails | src/day16/mod.rs:462-470 | one piece that is not a `u64` fails the whole register |
| Day16.ParseRegister | src/day16/mod.rs:452-482 | the character loop reads a register exactly as its specification: four comma-separated `u64`s up to the first `]`, anything else an error |
| Day16.UnexpectedCharacter | src/day16/mod.rs:475 | a character other than digits, `[`, `,`, space or `]` before the first `]` is an error |
| Day16.TerminatedAtComma | src/day16/mod.rs:468-472 | a comma after a fifth value or after a piece that is not a number is an error |
| Day16.RegisterRoundTrip | src/day16/mod.rs:233-240 | a register of four `u64`s written as `[a, b, c, d]` reads back as itself (see also lines 452-482) |
| Day16.ParseInstruction | src/day16/mod.rs:484-505 | an instruction read from text has a `u8` opcode and `u64` operands |
| Day16.ReadField | src/day16/mod.rs:493-505 | a field written in decimal reads back as itself when in range |
| Day16.ShowInstruction | src/day16/mod.rs:277-281 | has no contract of its own; it writes an instruction with all four fields in decimal; Day16.InstructionRoundTrip proves that every in-range instruction reads back as itself |
| Day16.InstructionRoundTrip | src/day16/mod.rs:277-281 | an in-range instruction written with a decimal opcode reads back as itself (see also lines 484-505) |
| Day16.ShowHex | src/day16/mod.rs:221-225 | the hexadecimal text of an opcode is never empty |
| Day16.AsWrittenAgreesBelowTen | src/day16/mod.rs:221-225 | for opcodes below ten, the written form is the decimal one (see also lines 277-281) |
| Day16.AsWrittenLosesOpcodeTen | src/day16/mod.rs:221-225 | opcode 10 is written `a 0 0 0`, which `parse_instruction` refuses (see also lines 484-498) |
| Day16.LetterFieldRefused | src/day16/mod.rs:493-498 | a line whose first field is `a` is refused |
| Day16.PrependTwice | src/day16/mod.rs:508-530 | collecting samples and instructions in two steps is collecting them at once |
| Day16.ReadNext | src/day16/mod.rs:511-527 | reading one item: a three-line sample after `Before:`, a program instruction otherwise, or a blank line; a malformed item is an error |
| Day16.Parse | src/day16/mod.rs:508-530 | parsing the input succeeds exactly as its line-by-line specification, giving the samples and program in order |
| Day16.ProgramLines | src/day16/mod.rs:277-281 | the program is written one instruction per line |
| Day16.ReadSampleLines | src/day16/mod.rs:347-353 | a written sample reads back as that sample (see also lines 511-521) |
| Day16.ReadInstructionLine | src/day16/mod.rs:522-525 | a written instruction line reads back as that instruction |
| Day16.ParseSamplesLines | src/day16/mod.rs:508-530 | written samples, each followed by a blank line, read back in order |
| Day16.ParseProgramLines | src/day16/mod.rs:522-525 | written program lines read back as the program |
| Day16.ParseLinesStep | src/day16/mod.rs:510-528 | one item read, then the rest |
| Day16.LinesOfPlain | src/day16/mod.rs:510 | text joined with newlines splits back into the same lines |
| Day16.ParseInputLines | src/day16/mod.rs:508-530 | the lines of written samples, a blank line and a written program read back as exactly those samples and that program |
| Day16.InputRoundTrip | src/day16/mod.rs:347-353 | the text of samples and a program reads back as exactly those (see also lines 508-530) |
| Day16.ManualSampleShown | src/day16/tests.rs:5-9 | the manual's sample is written as the three lines of the example |
| Day16.ManualSampleRead | src/day16/tests.rs:14-21 | the example text parses to the one sample and no program |
| Day16.ReadShownSample | src/day16/tests.rs:14-21 | the text of any well-formed sample parses to that one sample |
| Day17.WetsTransitive | src/day17/mod.rs:372-496 | only adding water is transitive over several steps |
| Day17.AreaUnique | src/day17/mod.rs:278-296 | the bounding box of a set of tiles is unique |
| Day17.AreaExists | src/day17/mod.rs:278-296 | every set of tiles in range has a bounding box |
| Day17.WidenArea | src/day17/mod.rs:281-294 | widening the box by one more tile gives the box of the larger set |
| Day17.AreaOf | src/day17/mod.rs:278-296 | the least and greatest coordinates over the tiles, or the empty box from `Position::MAX` to `Position::MIN` |
| Day17.TakeIn | src/day17/mod.rs:281-294 | one pass of the loop widens the box to the tile |
| Day17.AreaOfTiles | src/day17/mod.rs:278-296 | the loop over the tiles computes their bounding box |
| Day17.FlowWets | src/day17/mod.rs:376-491 | a drop only writes water (settled or falling), never removes a tile, touches only its own row and the one above, and passes on at most two drops |
| Day17.DownRules | src/day17/mod.rs:377-398 | a falling drop writes only its own tile: onto a falling drop nothing changes; onto clay it settles and spreads sideways; through sand it falls on down to the lowest scanned row; onto water it falls and spreads on the water unless the tile under that is falling |
| Day17.FlowOfIs | src/day17/mod.rs:376-491 | the water course's rule only adds water |
| Day17.PassWets | src/day17/mod.rs:375-493 | a pass over all drops only adds water |
| Day17.RestepsWets | src/day17/mod.rs:372-496 | `next` only adds water; it answers `Some` exactly when drops remain, and then it has added a tile |
| Day17.RestepsStable | src/day17/mod.rs:488-495 | more re-steps change nothing once a step has added a tile or the drops have run out |
| Day17.SettledIs | src/day17/mod.rs:488-495 | the re-stepping of `next` ends in one well-defined state |
| Day17.SettledWets | src/day17/mod.rs:372-496 | what `next` leaves has only added water; it answers `Some` exactly when drops remain, and then the tile count has grown |
| Day17.WaterCourse.constructor | src/day17/mod.rs:349-358 | a new course has the given tiles, spring and lowest row, and one drop falling from just below the spring |
| Day17.WaterCourse.Next | src/day17/mod.rs:372-496 | one call of `next` in place leaves what the passes settle on; it only adds water, answers `Some` exactly when drops remain, and then has added a tile |
| Day17.WaterCourse.Drain | src/day17/mod.rs:375-493 | the body of `next`: every drained drop flows in turn, and the drops they pass on replace them |
| Day17.WalkWets | src/day17/mod.rs:372-496 | a walk that ends has only added water and leaves no drop moving |
| Day17.WalkStable | src/day17/mod.rs:372-496 | a walk that ends gives the same result with more steps allowed |
| Day17.FinalIs | src/day17/mod.rs:372-496 | the end of the walk is one well-defined state |
| Day17.FinalAgree | src/day17/mod.rs:372-496 | every rule that is the water course's rule walks the course to the same end |
| Day17.WalkWaterCourse | src/day17/mod.rs:615-622 | both solvers put the spring at x 500, one row above the scan's least row, and walk the course to its end |
| Day17.RunDry | src/day17/mod.rs:622-624 | calling `next` until it answers `None` reaches the end of the walk |
| Day17.WalkStep | src/day17/mod.rs:622-624 | each call of `next` either ends the walk or leaves a shorter walk to the same end |
| Day17.Reached | src/day17/mod.rs:626-629 | the tiles holding water, settled or falling |
| Day17.Retained | src/day17/mod.rs:645-648 | the tiles holding settled water |
| Day17.NumTilesFloodedByWater | src/day17/mod.rs:613-630 | part one counts the tiles water reaches at the end of the walk |
| Day17.NumTilesRetained | src/day17/mod.rs:632-649 | part two counts the tiles of settled water at the end of the walk |
| Day17.RetainedWithinReached | src/day17/mod.rs:613-649 | settled water is within the reached tiles, the clay stays, and every tile added or changed holds water |
| Day17.Save | src/day17/mod.rs:555-569 | saving a pending value succeeds exactly when it is a non-empty number that fits a `u16` (the source's `unwrap` panics otherwise), and clears it |
| Day17.ScanReads | src/day17/mod.rs:547-608 | the scan reads exactly when every line does, and its clay is every tile some line adds |
| Day17.ClayTiles | src/day17/mod.rs:547-610 | the map built holds clay exactly on the set's tiles |
| Day17.ReadThen | src/day17/mod.rs:571-594 | reading two strings is reading the first, then the second from where it left off |
| Day17.ScanStuck | src/day17/mod.rs:592 | a line with a foreign character makes the scan fail (the source's panic) |
| Day17.Parse | src/day17/mod.rs:536-611 | parsing fails exactly where the source panics, and otherwise puts clay exactly on the tiles the lines name |
| Day17.ParseLine | src/day17/mod.rs:547-608 | one line read character by character adds its clay, or fails |
| Day17.Read | src/day17/mod.rs:571-594 | one character read as the line's match says |
| Day17.OverlayClay | src/day17/mod.rs:601-605 | adding clay to a clay map is clay on the union |
| Day17.FillClay | src/day17/mod.rs:601-605 | the two loops put clay on every tile of the rectangle, both ends included |
| Day17.FillRow | src/day17/mod.rs:602-604 | the inner loop puts clay on every tile of the row, both ends included |
| Day17.ReadDigits | src/day17/mod.rs:590 | digits are collected into the pending value |
| Day17.ReadsVein | src/day17/mod.rs:547-608 | a vein written `x=A, y=B..C` or `y=A, x=B..C` reads as the clay between its bounds, both ends included |
| Day17.ReadsRange | src/day17/mod.rs:547-608 | the reading of `p=A, q=B..C` for the two axis orders |
| Day17.ReadsSeparator | src/day17/mod.rs:585-590 | `, q=` after a value saves it and switches the axis |
| Day17.ReadsDots | src/day17/mod.rs:574-584 | `..` after a minimum saves it and moves on to the maximum |
| Day18.Adjacent | src/day18/mod.rs:204-213 | the iterator yields eight positions (see also lines 290-308) |
| Day18.AdjacentExactly | src/day18/mod.rs:204-213 | it yields exactly the eight surrounding positions, each once, and never the centre (see also lines 290-308) |
| Day18.ResourceAt | src/day18/mod.rs:394-396 | a resource other than open ground is reported only at a position where it is stored; open ground is reported everywhere else |
| Day18.SetResource | src/day18/mod.rs:394-402 | setting an acre returns its previous resource (open ground when absent), stores the new one there, and changes no other acre |
| Day18.CountResource | src/day18/mod.rs:404-409 | the count is at most the number of stored acres; Day18.CountPartition proves that trees and lumberyards together count every stored acre |
| Day18.CountPartition | src/day18/mod.rs:404-409 | with open ground never stored, open ground counts zero, trees and lumberyards together count every stored acre, and a stored acre counts for its resource exactly when that is its resource |
| Day18.CornersUnique | src/day18/mod.rs:374-392 | the corners of a set of acres are unique |
| Day18.CornersExist | src/day18/mod.rs:374-392 | every set of acres in range has corners |
| Day18.WidenCorners | src/day18/mod.rs:377-390 | widening the corners by one more acre gives the corners of the larger set |
| Day18.CornersOf | src/day18/mod.rs:374-392 | the least and greatest coordinates of the stored acres, or `Position::MAX` and `Position::MIN` when none |
| Day18.TakeIn | src/day18/mod.rs:377-390 | one pass of the loop widens the corners to the acre |
| Day18.Corners | src/day18/mod.rs:374-392 | the loop over the stored acres computes their corners |
| Day18.CornersOfIs | src/day18/mod.rs:374-392 | any corners of the acres are the computed ones |
| Day18.CountIn | src/day18/mod.rs:460-494 | a count of neighbours is at most their number |
| Day18.CountInStep | src/day18/mod.rs:460-494 | counting one more neighbour adds one exactly when it matches |
| Day18.Neighbours | src/day18/mod.rs:460-494 | every acre has eight neighbours' resources to look at |
| Day18.EvolveStores | src/day18/mod.rs:454-511 | the next generation stores an acre exactly when it is inside the fixed box and its next resource is not open ground; every acre's resource is the rule's outcome inside the box and open ground outside; open ground is never stored |
| Day18.GrowTrees | src/day18/mod.rs:459-470 | the early-exit loop over the neighbours turns open ground into trees exactly when three or more neighbours are trees |
| Day18.BuildLumberyard | src/day18/mod.rs:471-485 | the early-exit loop turns trees into a lumberyard exactly when three or more neighbours are lumberyards, and keeps trees otherwise |
| Day18.KeepLumberyard | src/day18/mod.rs:486-503 | the early-exit loop keeps a lumberyard exactly when it has at least one tree and one lumberyard next to it, and clears it otherwise |
| Day18.NextGeneration | src/day18/mod.rs:454-511 | the two loops over the box build a fresh area from the old one by the rules |
| Day18.IterateNext | src/day18/mod.rs:414-418 | k + 1 minutes are k minutes followed by one |
| Day18.Shift | src/day18/mod.rs:421-451 | once a state recurs after d minutes, it recurs after d minutes from every later minute too |
| Day18.Periodic | src/day18/mod.rs:421-451 | after a recurrence, any number of whole cycles can be skipped |
| Day18.Congruent | src/day18/mod.rs:421-451 | after a recurrence of length d from minute a, the state at minute k is the one at a + (k - a) mod d |
| Day18.NthGeneration | src/day18/mod.rs:411-452 | below 1000 minutes the loop applies n minutes; from 1000 on the cycle search ends on the same state as n minutes |
| Day18.SkipCycles | src/day18/mod.rs:421-451 | the cycle search remembers each state's minute, and stops at a minute congruent to n modulo the cycle, which holds the state of minute n |
| Day18.Advance | src/day18/mod.rs:425-426 | one pass of the cycle search's loop advances one minute |
| Day18.StepOf | src/day18/mod.rs:454-511 | a minute of the fixed box is a function of the area |
| Day18.StepRepeats | src/day18/mod.rs:411-452 | repeating that minute k times is k generations |
| Day18.SeenAgain | src/day18/mod.rs:427-436 | a state already remembered recurs, after the difference of the two minutes |
| Day18.Record | src/day18/mod.rs:427 | remembering the current state keeps the record of states and their minutes |
| Day18.BreakCongruent | src/day18/mod.rs:430-448 | the break minute set at the check point holds the same state as minute n |
| Day18.IterateInBox | src/day18/mod.rs:454-511 | after at least one minute every stored acre lies in the box and none is open ground |
| Day18.TotalResourceValue | src/day18/mod.rs:534-544 | the product of the tree and lumberyard counts after the given minutes |
| Day18.TotalResourceValueAfter10Minutes | src/day18/mod.rs:534-538 | part one is the resource value after 10 minutes |
| Day18.TotalResourceValueAfterBillionMinutes | src/day18/mod.rs:540-544 | part two is the resource value after 1000000000 minutes |
| Day18.Row | src/day18/mod.rs:339-346 | one row of the picture has one symbol per acre (open ground, trees or lumberyard) of the box |
| Day18.Rows | src/day18/mod.rs:338-350 | the picture has one row per row of the box |
| Day18.Display | src/day18/mod.rs:334-352 | the picture of the area over its corners |
| Day18.RowAt | src/day18/mod.rs:339-346 | each symbol of a row is the symbol of that acre's resource |
| Day18.ReadGlyph | src/day18/mod.rs:518-524 | a resource read from a character is the one whose symbol it is |
| Day18.ReadSymbol | src/day18/mod.rs:318-326 | each resource's symbol reads back as that resource (see also lines 518-524) |
| Day18.I16 | src/day18/mod.rs:200-202 | the `as i16` cast keeps a coordinate in range, and keeps it unchanged when it fits (see also line 527) |
| Day18.Parse | src/day18/mod.rs:514-532 | the character loops read the area as its specification says |
| Day18.RowStaysFailed | src/day18/mod.rs:523 | a foreign character in a row fails the rest of the row |
| Day18.RowsStayFailed | src/day18/mod.rs:523 | a failed row fails the whole input |
| Day18.RowReads | src/day18/mod.rs:517-530 | a row reads exactly when it has no foreign character, stores its trees and lumberyards at their columns and leaves open ground unstored |
| Day18.RowsRead | src/day18/mod.rs:514-532 | reading the first k lines succeeds exactly when none of them holds a character that is neither an acre symbol nor whitespace, and then stores exactly the trees and lumberyards those lines draw |
| Day18.ParseArea | src/day18/mod.rs:514-532 | has no contract of its own; it reads every line of the input into one area; Day18.ParseReads proves that it fails exactly at a foreign character and otherwise stores the text's trees and lumberyards and no open ground |
| Day18.ParseReads | src/day18/mod.rs:514-532 | parsing fails exactly on a foreign character (the source's panic); otherwise each acre holds what the input draws, and open ground is never stored |
| Day18.SameAcres | src/day18/mod.rs:394-396 | two areas that store no open ground and agree on every acre are equal |
| Day18.ShownLines | src/day18/mod.rs:334-352 | the lines of the picture are its rows |
| Day18.DisplayRoundTrip | src/day18/mod.rs:334-352 | the picture of an area anchored at (0, 0) that stores no open ground parses back as that area (see also lines 514-532) |
| Day18.RowsReadBack | src/day18/mod.rs:514-532 | rows drawn from (0, 0) to a corner read back as the area they draw |
| Day19.Effect | src/day19/mod.rs:200-206 | One instruction under a bound instruction pointer succeeds exactly when the bound register and every operand register exist, and keeps the register file's size |
| Day19.Jumps | src/day19/mod.rs:200-206 | The pointer is written into its register before the instruction and read back plus one after it; only the target and bound registers change; `seti`/`setr`/`addi`/`addr` into the bound register jump to the stated addresses |
| Day19.Shortcut | src/day19/mod.rs:366-373 | The divisor shortcut is defined exactly when register 5 is non-zero (the source divides by it) and yields six registers |
| Day19.ScanAddsDivisor | src/day19/mod.rs:344-365 | The inner loop of the background process, run from counter k to r4, adds r5 to register 0 exactly when r5 times some j in that range equals r4, and leaves the counters at 1 and r4 + 1 |
| Day19.MultipleDivides | src/day19/mod.rs:366-373 | r5 times some j in 1..=r4 equals r4 if and only if r4 % r5 == 0, which is the test the shortcut makes |
| Day19.ShortcutMatchesScan | src/day19/mod.rs:344-373 | From the loop's entry state the shortcut produces the same register 0, the same untouched registers 3..5 and the counter values the scanned loop leaves |
| Day19.Optimize | src/day19/mod.rs:210-213 | The shortcut succeeds exactly when register 5 is non-zero; then the registers become the shortcut's result and execution resumes at address 12; otherwise nothing changes (see also lines 366-373) |
| Day19.Next | src/day19/mod.rs:208-219 | One step of the run (the shortcut at address 3, an instruction elsewhere) keeps six registers |
| Day19.RunFor | src/day19/mod.rs:208-219 | A run that halts within n steps halts with the pointer past the program and six registers |
| Day19.RunForStable | src/day19/mod.rs:208-219 | Once a run has halted or failed within n steps, more steps change nothing |
| Day19.FinalAfter | src/day19/mod.rs:208-219 | A run that ends within some bound stops, and its final outcome is the one reached within that bound |
| Day19.Interpreter.constructor | src/day19/mod.rs:196-198 | A new interpreter binds the given register and starts at address 0 |
| Day19.Interpreter.Execute | src/day19/mod.rs:200-206 | Executing an instruction in place succeeds exactly when its effect is defined, and then the pointer and registers are that effect |
| Day19.Interpreter.Run | src/day19/mod.rs:208-219 | Running in place to the end reports success with the final pointer and registers exactly when the run halts, and failure when it panics |
| Day19.RunBackgroundProcess | src/day19/mod.rs:323-331 | The answer is register 0 after running the program from all-zero registers |
| Day19.RunBackgroundProcess2 | src/day19/mod.rs:333-342 | The answer is register 0 after running the program with register 0 starting at 1 |
| Day19.ParseLine | src/day19/mod.rs:298-321 | A parsed `#ip` line binds a register that fits u64; a parsed code line starts with the four-letter mnemonic name and has operands that fit u64 |
| Day19.ParseOperands | src/day19/mod.rs:306-317 | Parsed operands each fit u64 |
| Day19.Parse | src/day19/mod.rs:298-321 | The parsing loop returns the line-by-line fold over the input's lines, starting from binding register 6 and no instructions |
| Day19.ParseLinesFails | src/day19/mod.rs:298-321 | The first line that fails to parse decides the result: later lines are not looked at |
| Day19.ParseLinesSnoc | src/day19/mod.rs:298-321 | Parsing one more line either rebinds the pointer register, appends one instruction, or propagates the error |
| Day19.ReadBinding | src/day19/mod.rs:271-278 | The shown `#ip v` line reads back as that binding (see also lines 298-321) |
| Day19.ReadInstruction | src/day19/mod.rs:271-278 | Every shown instruction with u64 operands reads back as itself (see also lines 298-321) |
| Day19.CodeLine | src/day19/mod.rs:306-317 | A line starting with a lower-case four-letter mnemonic and a space parses to that mnemonic with the operands of the rest, or to the operands' error |
| Day19.ReadOperands | src/day19/mod.rs:306-317 | Three space-separated numbers that fit u64 read back as themselves |
| Day19.ProgramLinesSnoc | src/day19/mod.rs:271-278 | Showing a program with one more instruction shows one more line |
| Day19.ParseProgramLines | src/day19/mod.rs:271-278 | The shown lines of a program whose numbers fit u64 parse back to that program (see also lines 298-321) |
| Day19.ProgramRoundTrip | src/day19/mod.rs:271-278 | Parsing the displayed text of a program whose numbers fit u64 gives the program back (see also lines 298-321) |
| Day19.ReadShown | src/day19/tests.rs:40-45 | Any text that is the display of an in-range program parses to that program |
| Day19.Example1Shown | src/day19/tests.rs:51-56 | The example program displays as the example text |
| Day19.Example1LinesShown | src/day19/tests.rs:51-56 | The example program's shown lines are the seven example lines |
| Day19.Example1Parsed | src/day19/tests.rs:19-38 | The example text parses to `#ip 0` and the seven listed instructions, and displays back unchanged |
| Day19.Example1InRange | src/day19/tests.rs:19-38 | The example program's numbers fit u64 |
| Day19.EffectIs | src/day19/mod.rs:200-206 | An instruction's effect is the write of its value into the target after storing the pointer, followed by reading the pointer back plus one |
| Day19.Example1Runs | src/day19/tests.rs:62-86 | The example program stops, halting with registers [6, 5, 6, 0, 0, 9], so the background process answers 6 |

## Left out

General:

- Puzzle inputs read from files, the runner's `#[aoc]` wiring, logging and printing are not modelled. Answers that depend on a puzzle input file are not stated.
- `src/lib.rs` and the stale `src/day1` directory are not part of this model.
- Common.Trim: whitespace is the ASCII set (space, tab, line feed, vertical tab, form feed, carriage return). Rust's `trim` and `char::is_whitespace` also accept the other Unicode white-space characters. Inputs that use those are outside the model.
- Strings are sequences of characters. The source's byte lengths and byte slicing (`line[4..]`, `line[0..4]`) agree with that only for ASCII text, so lines holding multi-byte characters are outside the model.
- Choices that the source makes by iterating a `HashMap` or `HashSet` (`max_by_key`, `min_by_key`, `.next()`) are modelled as "some maximiser" or "some minimiser", with `:|`. The model does not fix which of several tied keys is returned.

Day 1:

- Day01.Calibrate requires that some running total repeats, because the source's loop has no other exit.
- Day01.ParseChanges: a line that is not an integer is an error value here, where the source panics.

Day 3:

- Day03.OverlappingArea: `left + width` and `top + height` are unbounded. In the source they are `u16` sums that overflow past 65535.
- Day03.NonOverlappingClaims: the inclusive corners `left + width - 1` and `top + height - 1` are integers. In the source they are `u16`, which overflows past 65535 and underflows for a zero-width or zero-height claim at coordinate 0.
- Day03.InclusiveOverlapShares: the agreement between the inclusive test and shared cells is stated only for claims of positive width and height. An empty claim covers no cell, but the inclusive test can still report it as overlapping, as the source's test does.

Day 4:

- Day04.MostAsleepMinute: each period's length `till - from` is an integer subtraction. The source subtracts two `u8` minutes, which underflows when a guard wakes at an earlier minute than the one it fell asleep at.
- The example parse of the full log is proved only for its first two lines (Day04.ParseFallsAsleep). The example periods and answers are proved from the records.

Day 5:

- Day05.ReducePass: the source decides whether to keep the last unit from the parity of `polymer.len() - reduced.len()`, counted in bytes. The model keeps the last unit exactly when it was not consumed by a reaction. The two agree when every unit is one byte, and ASCII letters are.

Day 6:

- `parse` (src/day06/mod.rs:85-94), which splits the input into lines of points, is not modelled. `Point::from_str` is.
- Day06.LargestArea: the example answers ((5,5), 17) and ((3,4), 9) are not proved. The lemmas prove only which of the example's points are enclosed. The count of the 72 cells of the example box against its six points is not proved.
- Day06.Distance: coordinates are unbounded integers, not `i32`.

Day 8:

- Day08.Checksum: the sum is unbounded. The source sums into `u32` and would overflow past 4294967295.
- The example's text-to-numbers step is not proved. The example's checksum 138 is proved from its numbers.

Day 9:

- Day09.ParseSentence: the round trip is proved for the puzzle sentence only. Other text whose first and seventh words are numbers parses as well; no lemma states what it parses to.
- Day09.MarbleHighscore: scores and marbles are unbounded. The source keeps them in `u32`.
- Day09.MarbleHighscore: the fixtures (1618, 10) → 8317 and (7999, 13) → 146373 are not proved. Only the (25, 9) → 32 example is proved, move by move.
- Ring insertion and removal are modelled on a sequence field that the methods reassign. The source shifts a `Vec` in place; the order of the other marbles is the same in both.

Day 10:

- Day10.AlignStars and Day10.TimeToAlignedStars require that the bounding box grows at some step, because the source's loop has no other exit.
- Day10.Sky.Area: coordinates and the area product are unbounded. The source uses `i32` coordinates and an `i64` product.
- The example (31 stars, aligned after 3 s) is not proved.
- The `Display` of `Sky`, which draws the message, is not modelled.

Day 11:

- Day11.CellPowerIsHundredsDigit: products are unbounded integers. The source computes them in `i32`, and the model does not bound them.
- Day11.BestGroupOfAnySize: the fixtures 90,269,16 (power 113) and 232,251,12 (power 119) are not proved, because they need the full 300 × 300 search. Day11.BestGroup's fixtures are proved only as the powers of the named squares (29 and 30), not as maximality over the grid.

Day 12:

- Day12.EvolveNGenerations requires at least one rule and a pattern size between 1 and the row's length. The source panics on `rules[0]` without a rule and on `len - pattern_size` for a longer pattern.
- Day12.EvolveNGenerations, Day12.SumOfPotNumbersAfter, Day12.SumOfPotNumbersAfter20Generations and Day12.SumOfPotNumbersAfter50000000000Generations: the result and the None case are characterised only under BarrenStaysBarren, the condition that an empty window breeds nothing. Without it the source's padding would not capture the infinite row. The three sums carry the same requires as EvolveNGenerations.
- Day12.SumOfPotNumbersAfter20Generations: the example's row after 20 generations and its sum 325 are not proved.

Day 13:

- Day13.StepSpec: positions are integers, so a step north or west from coordinate 0 reaches -1. There the source's `u32` subtraction underflows.
- Day13.Parse: cart numbers are unbounded. The source counts them in a `u8`, which overflows past 255 carts.
- Day13.SortByPositionSpec: the carts are sorted by position only. Carts are on distinct positions, so the stability of the source's sort does not matter.
- Day13.LocationOfFirstCrash and Day13.LocationOfLastCart require that the run ends, because the source's loops have no other exit.
- The fixtures (7,3) and (6,4) are not proved.
- Day13Display.ShowRoundTrip requires the carts to stand on straight rails, in reading order and freshly numbered, and a non-empty map to start at (0,0). Those are the maps that parsing produces.

Day 14:

- The `Display` of `ScoreSeq` and `Scoreboard` is not modelled.
- Day14.ScoreSeqAfterNumRecipes: the fixtures 5158916779, 0124515891, 9251071085 and 5941429882 are not proved. Only the first nine recipes are.
- Day14.NumNeededRecipes requires that the pattern occurs on the scoreboard, because the source's loop has no other exit. The fixtures 51589 → 9 and 59414 → 2018 are not proved.
- Day14.FindScores answers 0 for the empty digit string, which stands first at 0. The source's loop answers 2 there, because on the board [3, 7] it compares the empty last window first. This follows from the Findings row for src/day14/mod.rs:232-250.

Day 15:

- Day15Grid.NeighboursAtEdges: coordinates are naturals bounded by the constant `usize::MAX`, kept as MAX_COORD. Machine wrap-around is not otherwise modelled.
- Day15Combat.Parse requires that the number of lines and each line's length fit in a `usize` coordinate.
- Day15Combat.Part1 and Day15Combat.Part2 require that the fight ends (Part1) or that the power search ends within some number of restarts (Part2), because the source's loops have no other exit.
- The outcome fixtures (47 rounds, 590 HP, 27730 and the other examples) are not proved.
- Day15Display.ShowRoundTrip requires a non-empty cave to start at (0,0), with the units inside the walls' box, apart from walls and from each other, and numbered as parsing numbers them.
- The combat maps are modelled as `map` fields that the methods reassign. The turn order and every per-unit update follow the source; aliasing is not modelled.

Day 16:

- Day16.DecodeOpcodes and Day16.RunProgram require that the decoding loop ends. The source loops forever when no opcode has a single candidate.
- Day16.Operate: register values are unbounded. The source's `u64` additions and multiplications could overflow.
- Day16.Interpreter.Execute: an operand that names a register outside 0..3 is an error value here, where the source panics on the index.
- The answers 646 and [681, 681, 3, 0] depend on the puzzle input and are not stated.

Day 17:

- Day17.FlowWets: coordinates are integers, so water spreading left past x = 0, or a spring above y = 0, reaches -1. There the source's `u16` subtractions `c_pos.x - 1` and `top_left.y - 1` underflow. The scan itself is required to lie in the `u16` range (InRange).
- Day17.NumTilesFloodedByWater and Day17.NumTilesRetained require that the water course runs dry (RunsDry), because the source's loop has no other exit.
- The example fixtures (34 clay tiles, 57 and 29) are not proved.
- The `Display` of `WaterCourse` is not modelled.

Day 18:

- Day18.Adjacent: coordinates are `i16` in the source. The model uses integers and requires the area to fit (InRange and Fits), so the source's `Add` never overflows inside the model.
- Day18.NthGeneration: the source detects a repeated area by comparing rendered strings. The model compares the areas themselves. Two areas that render alike but sit at different offsets would repeat in the source and not in the model.
- The ten example minutes and the fixture 37 × 31 = 1147 are not proved.
- Day18.DisplayRoundTrip requires a non-empty area to start at (0,0) and to store no open acres, as parsing produces.

Day 19:

- Day19.Shortcut and Day19.Optimize fail when register 5 is 0. The source divides by it there and panics.
- Day19.Interpreter.Run, Day19.RunBackgroundProcess and Day19.RunBackgroundProcess2 require that the run stops, because the source's loop has no other exit.
- Day19.Effect: register values are unbounded. The source's `u64` arithmetic could overflow.
- Day19.ParseLine: a line shorter than five characters, or one with fewer than three operands, is an error value here. The source panics on the slice or on `unwrap`.
- The answer of the background process on the puzzle input is not stated. The input is not part of this model.

## Findings

| source | as written | input that shows it | evidently intended | confidence | as-written member | corrected member |
|---|---|---|---|---|---|---|
| src/day14/mod.rs:232-250 | offset 0 is compared only on a board of exactly one recipe more than the pattern has digits, and the board grows by one or two recipes a step; for a two-digit pattern the board goes 2 → 4 and never has 3 recipes, and the last window is compared before the one a recipe earlier | the pattern "37": the board [3, 7] holds it at offset 0, but no board has 3 recipes, so the loop goes on and reports a later offset | report the first offset at which the pattern stands, comparing the earlier window first and a board as long as the pattern too | not executed | Day14.FindScoresAsWritten, Day14.AsWrittenMissesStart | Day14.FindScores, Day14.NumNeededRecipes |
| src/day16/mod.rs:221-225, 277-281 | an instruction is displayed with its opcode in hexadecimal (`{:x}`), while `parse_instruction` reads the opcode as decimal | opcode 10 is displayed as "a 0 0 0", which does not parse back | display the opcode in decimal, so that parse and display are inverse | not executed | Day16.ShowInstructionAsWritten, Day16.AsWrittenLosesOpcodeTen | Day16.ShowInstruction, Day16.InstructionRoundTrip |
| src/day15/mod.rs:1503-1531 | when a round both costs an Elf and decides the fight, the loop starts over with power + 1 and still breaks on that round's result, answering with the fresh combat's power and round count | a round that kills an Elf and also decides the fight, as when the last Elf falls: the loop restarts with power + 1, then breaks with the old result and a combat at 0 rounds | carry on fighting the fresh combat at the new power until it ends without an Elf loss | not executed | Day15Combat.SearchAsWritten, Day15Combat.SearchStopsOnLostElf | Day15Combat.PowerSearch, Day15Combat.PowerSearchWins, Day15Combat.LeastAttackPower |
