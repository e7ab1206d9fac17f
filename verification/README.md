# Advent of Code 2020, days 1 to 9, in Dafny

A model of the puzzle solutions of the `aoc2020` Rust repository, one Dafny module per
day, with the properties each solution relies on proved about the model.

- **Day1** (`day1.dfy`): the fixed-sum search. The first pair, in row-major order, and the
  first triple, in lexicographic order, of entries adding up to 2020. An entry may be
  used more than once. The result is the product, or 0 when nothing sums to 2020.
- **Day2** (`day2.dfy`): password policies. Decoding `a-b c: password`, the occurrence
  policy, the "exactly one of two positions" policy, and the two counts.
  `src/day_two.rs` holds the same `Entry` logic and the same counts as free functions.
  Both files are modelled by this one module, and its rows cite whichever file they follow.
- **Day3** (`day3.dfy`): the toroidal tree grid. `Grid::get` wraps columns round a row, the
  cell decoding drops unknown characters, and the walks along fixed slopes count trees.
  The second part multiplies the five counts.
- **Day4** (`day4.dfy`): passport records. Blank-line grouping, `key:value` tokenising
  where the last value wins, the seven-field presence check and the field validators.
  The three regular expressions are written as character predicates with the regex
  engine's matching rules: unanchored search, then greedy `\d+` followed by `\w+`. The
  engine's `\d` and `\w` are Unicode classes; the model narrows them to ASCII (see
  "Left out").
- **Day5** (`day5.dfy`): boarding passes read as binary. The row comes from `B` bits and
  the column from `R` bits, and the id is `row * 8 + col`. The first part is the highest
  id; the second is the first free id between the lowest and the highest.
- **Day6** (`day6.dfy`): customs answers. Blank-line grouping, then per group the union
  (anyone) and the intersection (everyone) of the answer sets.
- **Day7** (`day7.dfy`): luggage rules. Decoding of a rule line, `can_contain`
  reachability and the `part_one` count, and the weighted total of `add_bags`.
- **Day8** (`day8.dfy`): the three-opcode machine. Decoding, the run with loop detection,
  the first part (which has no halt check), and the repair search that swaps one
  `jmp`/`nop` at a time.
- **Day9** (`day9.dfy`): sliding-window checks. The first number past the preamble that
  is not the sum of two different values in its window, and the first contiguous run
  that sums to a target.
- Shared modules:
  - **Text** (`text.dfy`): Rust's `split`, `split_whitespace`, `trim` and integer
    `parse`, with their inverses, and blank-line paragraphs.
  - **Counting** (`counting.dfy`): `filter(..).count()`.
  - **Wrappers** (`wrappers.dfy`): `Option` and `Result`.
  - **Arith** (`arith.dfy`): two small multiplication facts.

How the code was turned into Dafny:

- Code written as loops is a `method` with a `while` or `for` loop. Examples are the
  searches of days 1 and 9, the walks of day 3, `Seat::from_str`, the grouping loops of
  days 4 and 6, `part_one` and `add_bags` of day 7, and `run` and both parts of day 8.
- Each such method is proved against a function or a predicate of the inputs.
- Code written as expressions is a function.
- Parsers are paired with a formatter and a round-trip lemma, and the blank-line
  grouping with the writer that puts the blank lines back.

Panics of the source become error values:

- day 2, 7 and 8 decoding: `Option` or `Result`.
- day 8: `Fault` for a program counter outside `[0, len]`.
- day 9 `unreachable!` and `max().unwrap()`: `RunError`.
- day 8 `unreachable!`: `RepairError`.

Samples come from the puzzle statements, since the repository's data files are not part
of this model. They are stated as lemmas and as a method (Day1.Sample).

## Model

| member | source | states |
|---|---|---|
| Day1.FirstPairUnique | src/day1.rs:20-26 | there is at most one first summing pair in row-major order |
| Day1.FirstTripleUnique | src/day1.rs:32-40 | there is at most one first summing triple in lexicographic order |
| Day1.PartOne | src/day1.rs:19-29 | returns the product of the first pair (positions may coincide) summing to 2020, and 0 when no pair sums to 2020 |
| Day1.PartTwo | src/day1.rs:31-43 | returns the product of the first triple summing to 2020, and 0 when no triple does |
| Day1.Sample | src/day1.rs:19-43 | on the puzzle's six entries the parts give 514579 and 241861950 |
| Day2.Occurrences | src/day2.rs:13 | the count of a character in a password is at most its length |
| Day2.OccurrencesMultiplicity | src/day2.rs:12-15 | the occurrence count is the character's multiplicity in the password |
| Day2.ValidPartOne | src/day2.rs:12-15 | the first policy holds iff the character's multiplicity in the password lies between the two bounds, inclusive |
| Day2.CharAt | src/day2.rs:18-20 | `Vec::get`: some character exactly when the position is in range, and then the character at it |
| Day2.ValidPartTwo | src/day2.rs:17-22 | when the second policy holds, the password contains the character and the two positions differ |
| Day2.ValidPartTwoExactlyOne | src/day2.rs:17-22 | the second policy holds iff exactly one of the two 1-based positions holds the character; it never holds when both positions are equal |
| Day2.ParseEntry | src/day2.rs:25-41 | a decoded entry has a non-empty, whitespace-free password and a non-whitespace character; a failing `unwrap` gives `None` |
| Day2.ParseFormatEntry | src/day2.rs:25-41 | decoding the text form `a-b c: password` of any printable entry gives back the entry |
| Day2.PartOne | src/day_two.rs:43-48 | the first-policy count is at most the number of entries |
| Day2.PartTwo | src/day_two.rs:50-55 | the second-policy count is at most the number of entries |
| Day2.PartOneCounts | src/day2.rs:56-61 | the first part is the number of positions whose entry meets the first policy |
| Day2.PartTwoCounts | src/day2.rs:63-68 | the second part is the number of positions whose entry meets the second policy |
| Day2.SampleDecodes | src/day_two.rs:74-84 | the three sample lines decode to the three sample entries |
| Day2.SamplePartOne | src/day2.rs:76-81 | two sample entries meet the first policy |
| Day2.SamplePartTwo | src/day2.rs:83-88 | one sample entry meets the second policy |
| Day3.Get | src/day3.rs:14-25 | the lookup gives nothing exactly when the row is past the last row |
| Day3.GetInside | src/day3.rs:24 | inside a row the lookup gives the cell at the column |
| Day3.GetWraps | src/day3.rs:19-24 | in any row the lookup gives the cell at the column modulo the row width |
| Day3.ParseRow | src/day3.rs:39-47 | a decoded row has at most as many cells as the line has characters |
| Day3.ParseRenderRow | src/day3.rs:42-46 | `.` decodes to an open square and `#` to a tree: decoding a rendered row gives the row back |
| Day3.ParseRowAppend | src/day3.rs:39-47 | decoding works character by character: decoding a concatenation concatenates the decodings |
| Day3.ParseRowDrops | src/day3.rs:45 | every character other than `.` and `#` is dropped |
| Day3.TreesFrom | src/day3.rs:58-65 | a walk from a row counts at most one tree per remaining row, and none past the last row |
| Day3.Walk | src/day3.rs:74-84 | the `while let` walk along a slope returns the tree count of that slope |
| Day3.PartOne | src/day3.rs:54-68 | the first part is the tree count along (3, 1), at most the number of rows below the first |
| Day3.PartOneTrees | src/day3.rs:55-65 | the count along (3, 1) is the number of rows k >= 1 whose lookup at column 3k is a tree |
| Day3.SlopeCounts | src/day3.rs:71-87 | one tree count per slope, in the order (1,1), (3,1), (5,1), (7,1), (1,2) |
| Day3.PartTwo | src/day3.rs:70-90 | the second part is the product of the five slope counts |
| Day3.ProductAppend | src/day3.rs:89 | the product fold of a concatenation is the product of the two folds |
| Day3.PartTwoHasPartOne | src/day3.rs:70-90 | the second part is the first part's count times the product of the other four counts |
| Day3.Grid | src/day3.rs:36-51 | the grid has one decoded row per input line, in the order of the lines |
| Day3.ParseClean | src/day3.rs:40-46 | a line of `.` and `#` only decodes to exactly one cell per character, `#` to a tree and `.` to an open square |
| Day3.SampleDecodes | src/day3.rs:36-51 | the eleven example lines decode to an 11 by 11 grid whose cells follow the characters |
| Day3.SamplePartOne | src/day3.rs:98-103 | on the example grid the first part meets 7 trees |
| Day3.SampleCounts | src/day3.rs:70-87 | on the example grid the five slopes meet 2, 7, 3, 4 and 2 trees |
| Day3.SamplePartTwo | src/day3.rs:105-110 | on the example grid the second part is 336 |
| Day4.HeightMatch | src/day4.rs:6 | a match of `(\d+)(\w+)` is a non-empty digit run followed by a non-empty word-character run |
| Day4.HeightMatchExists | src/day4.rs:6 | the pattern matches iff some position holds a digit followed by a word character |
| Day4.ParseHeight | src/day4.rs:17-31 | a parsed height comes from text where a digit is followed by a word character, and its value fits `u16` |
| Day4.HeightValid | src/day4.rs:33-44 | a valid height parses, and its value lies in 59..=193, the union of the two unit ranges |
| Day4.HeightMatchOfNumber | src/day4.rs:17-31 | on `<digits><unit>` the captures are the digits and the unit |
| Day4.ParseFormatHeight | src/day4.rs:17-31 | a height in `u16` written as `<n>cm` or `<n>in` parses back to itself |
| Day4.HeightValidOfNumber | src/day4.rs:33-44 | `<n><unit>` is a valid height iff it is `cm` with 150 <= n <= 193 or `in` with 59 <= n <= 76 |
| Day4.DigitsAreNoHeight | src/day4.rs:33-44 | a bare number is never a valid height |
| Day4.DigitsMatchOneDigitUnit | src/day4.rs:6 | on a bare number the greedy pattern leaves a one-digit unit |
| Day4.ParseEyeColor | src/day4.rs:58-69 | only a three-letter lower-case text names a colour |
| Day4.EyeColorValid | src/day4.rs:71-78 | an eye colour is valid iff it is one of `amb`, `blu`, `brn`, `gry`, `grn`, `hzl`, `oth` |
| Day4.ParseEyeColorName | src/day4.rs:58-69 | each of the seven colour names parses to its colour, and only that name does |
| Day4.EyeColorValidNames | src/day4.rs:71-78 | an eye colour is valid iff it is one of the seven names |
| Day4.HairColorMatch | src/day4.rs:7 | `is_match` holds iff some position starts `#` followed by six lower-case hex digits |
| Day4.HairColorFrom | src/day4.rs:7 | the unanchored search for `#` and six lower-case hex digits succeeds iff such a position exists |
| Day4.PassportIdMatch | src/day4.rs:8 | the anchored `^\d{9}$`: exactly nine digits; no contract of its own, see Day4.PassportIdExamples |
| Day4.KeyValue | src/day4.rs:98-100 | a token has a key and a value iff it holds `:`; the key holds no `:` and the token starts with the key and `:` |
| Day4.KeyValueOfPieces | src/day4.rs:98-100 | a token `k:v[:...]` gives the first two pieces as key and value |
| Day4.LastValueIsLast | src/day4.rs:96-113 | a field is absent iff no token names it, and otherwise holds the value of the last token naming it |
| Day4.LastValueNamed | src/day4.rs:96-113 | a field has a value exactly when some token names its key |
| Day4.PassportOf | src/day4.rs:94-114 | the passport has every required field iff each of the seven keys is named by some token |
| Day4.PassportOfAppend | src/day4.rs:101-111 | one more token sets the field it names, leaving the others |
| Day4.ParseStep | src/day4.rs:97-111 | one iteration of the token loop keeps the passport equal to that of the tokens read so far |
| Day4.UnknownKeyIgnored | src/day4.rs:110 | a token with an unknown key changes nothing |
| Day4.ParsePassport | src/day4.rs:94-114 | the loop fails iff some token has no `:`, and otherwise builds the passport of the record's words |
| Day4.ParseRecords | src/day4.rs:185-200 | one record per blank-line block, its lines joined by single spaces; the last block is always emitted; Text.ParagraphsShape fixes where the blocks split |
| Day4.ParseInput | src/day4.rs:185-202 | one passport per block, or failure iff some block has a token without `:` |
| Day4.ValidYear | src/day4.rs:116-144 | a valid year field is present, and its range is non-empty and starts inside `u16` |
| Day4.ValidByr | src/day4.rs:116-124 | a valid birth year is present |
| Day4.ValidIyr | src/day4.rs:126-134 | a valid issue year is present |
| Day4.ValidEyr | src/day4.rs:136-144 | a valid expiration year is present |
| Day4.ValidEcl | src/day4.rs:146-152 | a valid eye colour is present and three characters long |
| Day4.ValidHgt | src/day4.rs:154-160 | a valid height is present and holds a digit followed by a word character |
| Day4.ValidHcl | src/day4.rs:162-167 | a valid hair colour is present and at least seven characters long |
| Day4.ValidPid | src/day4.rs:169-174 | a valid passport id is present and nine characters long |
| Day4.HasRequiredFields | src/day4.rs:204-217 | the presence check holds iff every one of the seven required keys has a field |
| Day4.ValidYearOfNumber | src/day4.rs:116-144 | a written year is valid iff it lies in the inclusive range |
| Day4.PartOne | src/day4.rs:204-217 | the first count is at most the number of passports |
| Day4.PartTwo | src/day4.rs:219-232 | the second count is at most the number of passports |
| Day4.PartOneCounts | src/day4.rs:204-217 | the first part counts the passports holding byr, iyr, eyr, hgt, hcl, ecl and pid |
| Day4.PartTwoCounts | src/day4.rs:219-232 | the second part counts the passports whose seven checks all pass |
| Day4.CountryIdIgnored | src/day4.rs:204-232 | neither part depends on `cid` |
| Day4.AllFieldsValid | src/day4.rs:116-174 | a passport passing every check has every required field |
| Day4.PartTwoAtMostPartOne | src/day4.rs:204-232 | the second part never exceeds the first |
| Day4.EyeColorExamples | src/day4.rs:254-258 | `brn` is a valid eye colour and `moo` is not |
| Day4.HeightExamples | src/day4.rs:260-266 | `60in` and `190cm` are valid heights; `190in` and `190` are not |
| Day4.HairColorExamples | src/day4.rs:268-273 | `#123abc` matches; `#123abz` and `123abc` do not |
| Day4.PassportIdExamples | src/day4.rs:275-279 | `123456789` matches; `0123456789` does not |
| Day5.Binary | src/day5.rs:17-23 | the bits of a position range read as binary give less than 2 to the power of the range width |
| Day5.Row | src/day5.rs:20 | the row is at most 127 |
| Day5.Col | src/day5.rs:19 | the column is at most 7 |
| Day5.FromStr | src/day5.rs:14-26 | the loop over the characters gives the binary row and column |
| Day5.RowStep | src/day5.rs:20 | position idx adds 2^(6-idx) to the row iff idx <= 6 and it holds `B` |
| Day5.ColStep | src/day5.rs:19 | position idx adds 2^(9-idx) to the column iff 7 <= idx <= 9 and it holds `R` |
| Day5.DecodeEncode | src/day5.rs:14-26 | every seat with row <= 127 and column <= 7 is decoded from its ten-character pass |
| Day5.Id | src/day5.rs:10-12 | the id lies in the row's block of eight: row * 8 <= id, and id < (row + 1) * 8 when the column is below 8 |
| Day5.IdBound | src/day5.rs:10-12 | every decoded seat's id is at most 1023, so it fits `u16` |
| Day5.IdInjective | src/day5.rs:10-12 | the id determines the seat: row = id / 8 and column = id % 8 |
| Day5.Ids | src/day5.rs:49 | the id list holds each seat's id at its position |
| Day5.MaxId | src/day5.rs:45 | the maximum is some seat's id and bounds all of them; 0 for no seats |
| Day5.MinId | src/day5.rs:51 | the minimum is some seat's id and is below all of them; 0 for no seats |
| Day5.PartOne | src/day5.rs:44-46 | the first part bounds every seat's id and is some seat's id when there are seats |
| Day5.PartTwo | src/day5.rs:48-58 | the smallest id in [min, max) no seat has, or 0 when every id there is taken |
| Day5.DecodeFirstExample | src/day5.rs:68 | `FBFBBFFRLR` is row 44, column 5 |
| Day5.DecodeSecondExample | src/day5.rs:69 | `BFFFBBFRRR` is row 70, column 7 |
| Day5.DecodeThirdExample | src/day5.rs:70 | `FFFBBBFRRR` is row 14, column 7 |
| Day5.DecodeFourthExample | src/day5.rs:71 | `BBFFBBFRLL` is row 102, column 4 |
| Day5.IdExamples | src/day5.rs:76-79 | the four seats have ids 357, 567, 119 and 820 |
| Day5.PartOneExample | src/day5.rs:83-93 | the highest id of the four seats is 820 |
| Day6.ParseGroups | src/day6.rs:18-33 | the grouping loop yields exactly the blank-line blocks of the lines, whose shape Day6.GroupsShape states |
| Day6.GroupsShape | src/day6.rs:22-31 | there is one group more than there are blank lines, the groups hold all non-empty lines in order, no group holds an empty line, and the groups written back out with one blank line between neighbours give the lines |
| Day6.CharSet | src/day6.rs:38 | a member's set holds exactly the characters of its line |
| Day6.Anyone | src/day6.rs:36-39 | the union contains each member's set |
| Day6.Everyone | src/day6.rs:44-60 | the intersection is within each member's set |
| Day6.AnyoneMembers | src/day6.rs:36-39 | the union holds exactly the characters some member answered |
| Day6.EveryoneMembers | src/day6.rs:44-60 | the intersection holds exactly the characters every member answered; it is empty for no members |
| Day6.EveryoneSingle | src/day6.rs:51-53 | for one member the intersection is that member's set, equal to the union |
| Day6.EveryoneWithinAnyone | src/day6.rs:36-62 | the intersection is within the union |
| Day6.PartOne | src/day6.rs:35-41 | the first part is at least each group's union size |
| Day6.PartTwo | src/day6.rs:43-63 | the second part is at least each group's intersection size |
| Day6.PartOnePrefix | src/day6.rs:40 | the first part adds each group's union size |
| Day6.PartTwoPrefix | src/day6.rs:62 | the second part adds each group's intersection size |
| Day6.EmptyGroupAddsNothing | src/day6.rs:35-63 | a group with no members adds 0 to both parts |
| Day6.PartTwoAtMostPartOne | src/day6.rs:35-63 | the second part never exceeds the first |
| Day6.ExamplePartOne | src/day6.rs:71-76 | the puzzle's five groups give 11 |
| Day6.ExamplePartTwo | src/day6.rs:78-83 | the puzzle's five groups give 6 |
| Day7.ParseItem | src/day7.rs:27-34 | an item without a space fails; a decoded colour stops before its first ` bag` |
| Day7.DecodeAll | src/day7.rs:24-35 | decoding a list fails iff some element fails, and otherwise decodes every element in order |
| Day7.ParseRule | src/day7.rs:11-39 | a line without exactly one `bags contain` fails; `no other bags.` gives an empty list |
| Day7.ParseItemOf | src/day7.rs:28-33 | ` <n> <colour> bag...` decodes to n bags of that colour |
| Day7.ParseFormatRule | src/day7.rs:11-39 | decoding the written form `<colour> bags contain <n> <c> bag(s), ....` (or `no other bags.`) of any writable rule gives the rule back |
| Day7.ParseRuleOfTwo | src/day7.rs:11-39 | `<colour> bags contain <n1> <c1> bag, <n2> <c2> bags.` decodes to that colour and those two entries |
| Day7.ParseRuleExample | src/day7.rs:118-128 | the light red line decodes to (1, bright white) and (2, muted yellow) |
| Day7.Lookup | src/day7.rs:98-101 | `find` gives nothing iff no rule has the colour, and otherwise a rule of that colour |
| Day7.LookupFirst | src/day7.rs:98 | `find` gives the first rule of the colour |
| Day7.CanContain | src/day7.rs:93-110 | `can_contain` over a ranked rule set; no contract of its own, see Day7.CanContainAgrees |
| Day7.AnyCanContain | src/day7.rs:103-107 | the loop over a rule's bags; no contract of its own, see Day7.AnyCanContainAgrees |
| Day7.CanContainAgrees | src/day7.rs:93-110 | with a sound and complete known set, `can_contain` holds iff the colour directly or transitively holds shiny gold |
| Day7.AnyCanContainAgrees | src/day7.rs:103-107 | the loop over a rule's bags succeeds iff some listed colour can contain shiny gold |
| Day7.EventuallyReachesGold | src/day7.rs:93-110 | with one rule per colour, the computed notion is the puzzle's "can eventually contain shiny gold" |
| Day7.HoldersStep | src/day7.rs:62-67 | each visited entry adds one to the count iff its colour can contain shiny gold |
| Day7.PartOne | src/day7.rs:53-70 | the count is the number of entries whose colour can contain shiny gold, at most the number of entries |
| Day7.Total | src/day7.rs:89 | a colour without a rule holds no bags |
| Day7.TotalOfEmpty | src/day7.rs:17-22 | a rule with no bags gives a total of 0 |
| Day7.TotalOfTwo | src/day7.rs:82-87 | a rule with entries (n1, c1), (n2, c2) holds n1*(1+total(c1)) + n2*(1+total(c2)) |
| Day7.BagsTotalStep | src/day7.rs:82-87 | each entry (n, inner) adds n*(1 + total(inner)) |
| Day7.AddBags | src/day7.rs:79-91 | the recursion adds the colour's total to the running count |
| Day7.PartTwo | src/day7.rs:72-76 | the second part is the total inside one shiny gold bag |
| Day7.TotalCountsInside | src/day7.rs:79-91 | the total is the number of bags in the nested expansion of the colour |
| Day7.SamplePartOne | src/day7.rs:130-135 | in the puzzle's nine rules exactly four rules have a colour that can eventually hold a shiny gold bag, so the first part counts 4 |
| Day7.SampleHolders | src/day7.rs:53-70 | light red, dark orange, bright white and muted yellow reach a shiny gold bag; shiny gold and the four colours inside it do not |
| Day7.EventuallyOf | src/day7.rs:102-107 | a colour whose rule lists a colour that can hold a shiny gold bag can hold one too |
| Day7.NotEventuallyOf | src/day7.rs:93-110 | a colour listed by no rule holding shiny gold directly, whose rule lists no such colour, cannot hold one |
| Day7.SamplePartTwo | src/day7.rs:137-142 | the puzzle's nine rules are acyclic and a shiny gold bag holds 32 bags |
| Day8.ParseInstruction | src/day8.rs:10-21 | a decoded instruction has the line's first piece as opcode and its second piece as operand |
| Day8.ParseFormat | src/day8.rs:10-21 | decoding `<op> <n>` gives back `nop`, `acc` or `jmp` with operand n |
| Day8.ParseRejectsUnknownOpcode | src/day8.rs:14-18 | any other opcode is an error |
| Day8.Step | src/day8.rs:94-101 | only `acc` inside the program changes the accumulator; `nop` and `acc` move to the next index |
| Day8.FreshBound | src/day8.rs:85-89 | a run executes each index at most once, so it takes at most `len` fresh steps |
| Day8.FindStop | src/day8.rs:88-102 | every run stops |
| Day8.StopsAtUnique | src/day8.rs:84-105 | a run stops at one step only |
| Day8.StopIndex | src/day8.rs:84-105 | the stop step exists and is at most `len` |
| Day8.StopOutside | src/day8.rs:90-92 | a counter outside the program stops the run with that state |
| Day8.StopRevisit | src/day8.rs:88 | a counter already executed stops the run as a loop, with the accumulator before the repeat |
| Day8.HaltedMeansEnd | src/day8.rs:90-92 | a halt means the counter reached exactly `len` |
| Day8.LoopedMeansRevisit | src/day8.rs:88-104 | a loop means the counter came back to an index already executed |
| Day8.Run | src/day8.rs:84-105 | the interpreter returns the outcome of the trace: halt, loop or fault |
| Day8.PartOne | src/day8.rs:38-55 | the first part reports the loop's accumulator, and a fault where the program reaches its end |
| Day8.Repaired | src/day8.rs:58-77 | a trial swaps `jmp`/`nop` at one index, keeping the operand and every other instruction |
| Day8.FirstNonLoopingUnique | src/day8.rs:58-78 | there is at most one first trial that does not loop |
| Day8.ResultAtFirst | src/day8.rs:58-81 | the result is decided by the first trial that does not loop |
| Day8.RepairResultUnique | src/day8.rs:57-81 | the repair result is a function of the program |
| Day8.PartTwo | src/day8.rs:57-81 | returns the halting accumulator of the first swapped program that does not loop, or the matching error |
| Day8.ExampleLoops | src/day8.rs:111-116 | the puzzle's program loops with accumulator 5 |
| Day8.ExampleRepair | src/day8.rs:118-123 | repairing the puzzle's program gives 8 |
| Day9.Window | src/day9.rs:32 | the window is the p numbers just before the position |
| Day9.FirstUncheckedUnique | src/day9.rs:27-47 | there is at most one first number past the preamble without a pair |
| Day9.PartOneResultUnique | src/day9.rs:27-47 | the first part's result is a function of the list and the preamble |
| Day9.PartOne | src/day9.rs:26-48 | returns the first number past the preamble that is not the sum of two different values in its window, or `None` when every number is such a sum |
| Day9.EmptyPreamble | src/day9.rs:27-44 | with an empty preamble the first number is returned |
| Day9.PairSumByValues | src/day9.rs:35 | a target is a pair sum iff two different values of the window add up to it; a window of one repeated value has no pair |
| Day9.Max | src/day9.rs:56 | the maximum of a non-empty run is in it and bounds it |
| Day9.Min | src/day9.rs:56 | the minimum of a non-empty run is in it and is below all of it |
| Day9.Run | src/day9.rs:54 | `skip(i).take(j)` is the numbers from i on, at most j of them |
| Day9.Sum | src/day9.rs:55 | the `fold` sum; no contract of its own, see Day9.RunStep and Day9.SumOfNonNegative |
| Day9.SumOfNonNegative | src/day9.rs:55 | over numbers that are not negative the sum is not negative and is at least each number |
| Day9.RunStep | src/day9.rs:54-55 | a run one longer adds the next number to the sum |
| Day9.RunSumGrows | src/day9.rs:55 | over non-negative numbers a longer run never sums to less |
| Day9.FirstHitUnique | src/day9.rs:52-57 | there is at most one first start and length that finds the target |
| Day9.ResultAtFirstHit | src/day9.rs:54-57 | the result is min plus max of the first run found |
| Day9.PartTwoResultUnique | src/day9.rs:52-64 | the second part's result is a function of the list and the target |
| Day9.PartTwo | src/day9.rs:50-65 | returns min plus max of the first run summing to the target, leaving a start once a sum exceeds it; `EmptyRun` or `NoRun` for the panics |
| Day9.ZeroTarget | src/day9.rs:56-57 | a target of 0 is met by the empty run at the first start, which has no maximum |
| Day9.NonNegativeFindsRun | src/day9.rs:52-59 | over non-negative numbers, a run shorter than the list that sums to the target is found |
| Day9.SamplePartOne | src/day9.rs:74-78 | with preamble 5 the puzzle's list gives 127 |
| Day9.SamplePartTwo | src/day9.rs:81-85 | with target 127 the puzzle's list gives 15 + 47 = 62 |
| Text.NatToString | src/day2.rs:29-30 | the decimal text of a number is non-empty and all digits |
| Text.ParseUnsignedOfNatToString | src/day2.rs:29-30 | unsigned `parse` reads back every number's decimal text |
| Text.ParseSignedOfIntToString | src/day8.rs:13 | signed `parse` reads back every integer's text, with sign |
| Text.ParseU16 | src/day4.rs:120 | `parse::<u16>` gives values below 65536 |
| Text.ParseU16OfNatToString | src/day4.rs:120 | `parse::<u16>` reads back every number below 65536 |
| Text.SplitOn | src/day7.rs:13 | `split` gives at least one piece |
| Text.JoinSplitOn | src/day7.rs:13 | joining the pieces of a split with the separator gives the text back |
| Text.SplitOnJoin | src/day2.rs:28 | splitting joined pieces that avoid the separator character gives the pieces |
| Text.SplitOnFirstPiece | src/day7.rs:32 | the first piece of a split holds no occurrence of the separator |
| Text.FirstIndex | src/day7.rs:28 | the first position of a character that occurs |
| Text.TrimPadded | src/day7.rs:16 | `trim` removes exactly the surrounding whitespace |
| Text.Words | src/day4.rs:96 | `split_whitespace` gives non-empty pieces without whitespace |
| Text.WordsOfJoin | src/day2.rs:27 | `split_whitespace` of words joined by spaces gives the words back |
| Text.Paragraphs | src/day6.rs:22-31 | the blank-line grouping always gives at least one block |
| Text.ParagraphsShape | src/day4.rs:189-200 | one block more than blank lines, the blocks concatenate to the non-empty lines, no block holds an empty line, and the blocks split exactly at the blank lines |
| Text.ParagraphsJoin | src/day6.rs:22-31 | writing the blocks back out with one blank line between neighbours gives the lines: a blank line closes a block, other lines join the current one |
| Text.ParagraphsOfJoin | src/day4.rs:189-200 | blocks without empty lines, written out and grouped again, come back unchanged |
| Counting.CountIf | src/day2.rs:56-61 | `filter(..).count()` is at most the length |
| Counting.CountIfMatching | src/day2.rs:56-61 | the count is the number of positions whose element passes |
| Counting.CountIfMonotone | src/day4.rs:204-232 | a weaker filter never counts fewer |

## Left out

- `src/io.rs`, `src/main.rs` and `src/day_one.rs` are not part of this model. They read
  files, print, and sequence the days; `day_one.rs` repeats the search of `day1.rs`.
- The `run` function of `src/day_two.rs` (file reading and printing) is not modelled.
- Each `parse_input` is modelled from the list of lines on. The lines are a parameter.
  - For days 1 and 9 the line-to-number `parse().unwrap()` is left out, and the input is
    the list of numbers.
  - For day 5 the input is the list of pass strings.
- The repository's data files are not part of this model. Samples follow the puzzle
  statements. These tests from data files have no counterpart:
  - day 4: 2 and 4.
- Integer widths are not modelled; all numbers are unbounded. This covers:
  - `i64` sums and products (days 1 and 9);
  - `isize` accumulators (day 8);
  - the `usize` bag count (day 7);
  - the wrap of `(idx as isize + j) as usize` in day 8. A jump to a negative counter is
    reported as `Fault` with that counter, where the source wraps it to a huge `usize`
    and panics on the index.
  - Seat ids are proved to fit `u16` (Day5.IdBound).
- Day3.Get: requires a non-empty row wherever a walk can land (row 1 on). The source
  takes a remainder by zero on an empty row and panics.
- Day2.ValidPartTwo, Day2.PartTwo: require both positions to be at least 1. For position
  0, `num_left - 1` underflows in the source: it panics in debug builds and wraps to
  `usize::MAX` in release builds, where the lookup then finds nothing.
- Day7.PartOne, Day7.PartTwo, Day7.AddBags, Day7.CanContain, Day7.AnyCanContain,
  Day7.Total, Day7.BagsTotal: require an acyclic rule set,
  witnessed by a ghost ranking of colours. This also excludes cyclic rule sets on which
  the source terminates. `can_contain` returns at its first success, and `add_bags` only
  visits colours reachable from shiny gold. For example, the source's `part_one` stops on
  rules where A holds shiny gold and C holds A and C. The exponential running time of
  `add_bags`, which recurses once per bag, is not modelled; only its result is.
- Day7.ParseFormatRule: stated for writable rules. A colour must not contain `bags
  contain`, and a listed colour must not contain `,` or ` bag`, because the written form
  would then split differently. The rule's own colour must have no blank ends.
- Day7.ParseRuleOfTwo: a sample-sized instance whose preconditions are conditions on the
  characters of the colours; Day7.ParseFormatRule is the general round trip.
- Day4.ParseFormatHeight: the round trip is stated for the `<digits><unit>` shape only.
  The full regex engine (`captures` on arbitrary text) is written as the leftmost-first
  match of `(\d+)(\w+)`, not as a general regex.
- Day4.HeightMatch, Day4.ParseHeight, Day4.HeightValid, Day4.PassportIdMatch: `\d` and `\w`
  are narrowed to ASCII digits and ASCII word characters. The regex engine uses the
  Unicode classes. So `150cmé` is a valid height in the model but not in the source,
  where `\w+` also takes `é` and the unit is no longer `cm`. Nine Arabic-Indic digits
  match `^\d{9}$` in the source but not in the model.
- `HashSet` hashing and iteration order (days 6 and 7) are modelled by Dafny `set`.
- Day9.PartTwo: the target is a parameter; the source hard-codes 144381670. The source's
  test expecting 62 holds only for the target 127, which Day9.SamplePartTwo uses.
- Day9.PartTwo: as in the source, lengths run over `0..len`, so the whole list is never
  tried as a run from the first start. Day9.NonNegativeFindsRun is stated for runs
  shorter than the list for this reason.
