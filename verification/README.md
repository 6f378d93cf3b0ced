# Advent of Code 2022 solvers, modelled in Dafny

This project models the puzzle logic of a set of Advent of Code 2022 solvers written in Rust, one per day, and proves properties of that logic. Each solver reads its puzzle input, computes two answers and prints them. The model covers what happens between the reading and the printing: the data types, the parsing of single lines where it is hand-written, and the algorithms. File reading and printing are left out.

There is one Dafny module per solver. Day 22 is split into several modules, and three small modules hold shared definitions:

- `Common`: `Option` and `Ordering`, plus small arithmetic helpers.
- `Parsing`: splitting a string on a character, and the `str::parse` of unsigned and signed integers.
- `Sorting`: a sort by a total preorder, which stands in for itertools' `sorted()`.

| module | day | what it models |
|---|---|---|
| `Calories` | 1 | grouping calorie lines by blank lines; the sum of the k largest totals |
| `Rps` | 2 | rock-paper-scissors shapes, results, scores and the input letters |
| `Rucksacks` | 3 | halving a rucksack, common items, item priorities |
| `Sections` | 4 | section ranges, containment and overlap, range parsing |
| `Crates` | 5 | the crate drawing parser and the two crane models |
| `Marker` | 6 | the first window of n distinct characters |
| `DirTree` | 7 | the directory tree with aggregated sizes and its depth-first iterator |
| `Trees` | 8 | tree visibility, viewing distances and scenic scores |
| `Rope` | 9 | dragging rope knots; the positions the tail visits |
| `Cpu` | 10 | the instruction executor, its state iterator and the CRT lines |
| `Monkeys` | 11 | the monkeys' item passing and the modular worry reduction |
| `Hills` | 12 | elevations, legal moves and breadth-first distances |
| `Packets` | 13 | the recursive ordering of packets |
| `Sand` | 14 | rock paths and falling sand |
| `Sensors`, `Sorting` | 15 | sensor diamonds and the union of ranges |
| `Rocktris`, `RocktrisInvariant` | 17 | falling rocks pushed by jets; the invariant every move keeps |
| `Cubes` | 18 | surface area, and the exterior surface found by flood fill |
| `LinkedList` | 20 | the array-backed circular doubly linked list used for mixing |
| `MonkeyMath` | 21 | expression evaluation in `usize`, and the search for the human's number |
| `Polynomials` | 21 (second version) | evaluation over integer polynomials, and the root of a linear one |
| `Terrain`, `FlatDirections`, `FlatMap` | 22 | the map and the flat walker with wrap-around |
| `CubeTables`, `CubeWalk`, `CubeNet` | 22 | orientations and direction tables; the edge rules and the cube walker; folding the net into a cube |
| `Elves` | 23 | the elves' proposal rounds and the empty ground in their bounding box |
| `Blizzards` | 24 | blizzard motion and the blizzard-free cells over time |
| `Snafu` | 25 | SNAFU (balanced base-5) numbers and the conversion from decimal |

## Conventions

- A panic that depends on the input data is mostly modelled as `None`. Examples are a malformed line, moving more crates than a stack holds, or a `usize` subtraction below zero on day 21. Four exceptions keep a precondition instead, each listed under "Left out": a mixing list of fewer than two numbers on day 20, an unusable monkey test on day 11, an empty droplet on day 18 and a cyclic monkey definition on day 21.
- A panic on an internal precondition becomes a `requires`: an index the caller guarantees to be in range, or a ragged grid where the source reads row 0's length.
- A `HashMap` or `HashSet` becomes a Dafny `map` or `set`, or a sequence in the map's iteration order where the source iterates. That order is unspecified, so the properties proved hold for every order.
- Integers are unbounded except on day 21, whose `usize` overflow and underflow panics are part of what the search relies on.

## Model

| member | source | states |
|---|---|---|
| Parsing.ShowNat | src/bin/04.rs:29 | The decimal form of a number is a non-empty digit string with no leading zero whose value is the number |
| Parsing.ParseNat | src/bin/04.rs:29 | Parsing an unsigned number succeeds exactly on an optional `+` followed by at least one digit |
| Parsing.ParseInt | src/bin/10.rs:106 | Parsing a signed number accepts a leading `-` before the digits and otherwise behaves as the unsigned parse |
| Parsing.ParseShowRoundTrip | src/bin/04.rs:29 | Parsing the decimal form of a number gives the number back, as an unsigned value, a signed value, or negated after a `-` |
| Parsing.Split | src/bin/04.rs:28 | Splitting gives at least one piece and no piece contains the separator |
| Parsing.JoinSplit | src/bin/04.rs:28 | Putting the pieces back together with the separator gives the original string |
| Parsing.SplitJoin | src/bin/04.rs:35 | Splitting pieces joined with a separator they do not contain gives the pieces back |
| Sorting.Insert | src/bin/15.rs:64 | Inserting into a sorted sequence keeps it sorted and adds exactly the new element |
| Sorting.Sort | src/bin/15.rs:64 | The result is sorted by the given total preorder and is a permutation of the input |
| Calories.Groups | src/bin/01.rs:12 | The groups are non-empty runs of non-empty lines |
| Calories.GroupsPartitionLines | src/bin/01.rs:12 | Together the groups hold exactly the non-empty lines, in order, and there is one group per maximal run of non-empty lines |
| Calories.GroupTotal | src/bin/01.rs:13-14 | A group's total exists exactly when every line of the group parses as a number |
| Calories.GroupTotalIsSum | src/bin/01.rs:13-14 | When every line parses, the total is the sum of the parsed values |
| Calories.TotalsGroupedByEmptyLines | src/bin/01.rs:11-16 | Succeeds exactly when every line in every group parses, and then gives one total per group, in order |
| Calories.Descending | src/bin/01.rs:19 | The values, reordered so that each is at least the next |
| Calories.SumOfPermutation | src/bin/01.rs:19 | Reordering values does not change their sum |
| Calories.TopKOfAll | src/bin/01.rs:18-20 | Asking for at least as many values as there are gives the sum of all of them |
| Calories.TopKBounded | src/bin/01.rs:18-20 | The top-k sum lies between 0 and the sum of all values |
| Calories.TopKMonotone | src/bin/01.rs:18-20 | Taking one more value never lowers the top-k sum |
| Calories.SumOfTopKValues | src/bin/01.rs:18-20 | The result is the sum of some k of the values, or of all of them when there are fewer |
| Calories.TopKIsMaximum | src/bin/01.rs:18-20 | No choice of at most k of the values sums to more than the result, so it is the largest sum of k values |
| Calories.TakeIsMaxSum | src/bin/01.rs:19 | In a descending sequence the first k elements have the largest sum of any at most k elements drawn from it |
| Calories.TopOneIsMaximum | src/bin/01.rs:18-20 | With k = 1 the result is the largest value |
| Rps.ResultScore | src/bin/02.rs:20-26 | A win is worth 6, a draw 3 and a loss 0, and the score identifies the outcome |
| Rps.ShapeScore | src/bin/02.rs:44-50 | Rock, paper and scissors are worth 1, 2 and 3, and the score identifies the shape |
| Rps.ResultAgainst | src/bin/02.rs:52-70 | A shape draws against itself, wins exactly against the shape it defeats (rock beats scissors, scissors beat paper, paper beats rock), and loses exactly to the shape that defeats it |
| Rps.ScoreAgainst | src/bin/02.rs:72-74 | A round scores between 1 and 9; a draw scores the shape's value plus 3 |
| Rps.FromResultAndOpponent | src/bin/02.rs:76-94 | The chosen shape, played against the opponent, gives exactly the requested outcome |
| Rps.ResultIsAntisymmetric | src/bin/02.rs:52-70 | One player wins exactly when the other loses, and draws are mutual |
| Rps.FromResultInvertsResult | src/bin/02.rs:52-94 | Against a fixed opponent, choosing a shape for an outcome and computing the outcome of a shape are inverse |
| Rps.ScoreOfChosenShape | src/bin/02.rs:142-146 | Playing the shape chosen for an outcome earns that outcome's points, and only the winning shape earns the most outcome points |
| Rps.ShapeFrom | src/bin/02.rs:97-108 | `A`/`X` read as rock, `B`/`Y` as paper and `C`/`Z` as scissors; every other string is an error |
| Rps.ResultFrom | src/bin/02.rs:29-40 | `X` reads as lose, `Y` as draw and `Z` as win; every other string is an error |
| Rucksacks.SplitInHalf | src/bin/03.rs:12-15 | The two compartments concatenate back to the rucksack, and the first is the shorter by at most one |
| Rucksacks.FindCommonBytes | src/bin/03.rs:17-21 | A byte is common exactly when it occurs in both strings |
| Rucksacks.FindCommonBytesIter | src/bin/03.rs:23-28 | An empty group is an error; otherwise a byte is common exactly when it occurs in every item |
| Rucksacks.CommonOfTwo | src/bin/03.rs:17-28 | For a group of two, the group intersection is the pairwise one |
| Rucksacks.Priority | src/bin/03.rs:30-36 | Exactly the ASCII letters have a priority, between 1 and 52, and lower-case letters are the ones at most 26 |
| Rucksacks.PriorityIsBijective | src/bin/03.rs:30-36 | Every priority from 1 to 52 belongs to exactly one letter |
| Rucksacks.PriorityIsInjective | src/bin/03.rs:30-36 | Two letters with the same priority are the same letter |
| Sections.FullyContainsMeansSubset | src/bin/04.rs:13-15 | For a non-empty range, comparing the bounds decides containment of every section |
| Sections.OverlapsMeansSharedSection | src/bin/04.rs:17-19 | For non-empty ranges, comparing the bounds decides whether some section is in both |
| Sections.RangeRelations | src/bin/04.rs:13-19 | Containment is reflexive and transitive, overlap is symmetric, and containing a non-empty range implies overlapping it |
| Sections.ParseRange | src/bin/04.rs:27-32 | A range parses exactly when the text splits on `-` into two numbers, which become its bounds |
| Sections.ParseRangeRoundTrip | src/bin/04.rs:27-32 | Writing a range as `lo-hi` and parsing it gives the range back |
| Sections.ParseLine | src/bin/04.rs:34-36 | A line is accepted exactly when splitting it at commas gives two pieces that both parse as ranges, and the pair is those ranges in order; the partner lemmas ParseLineHasOneComma, ParseLineOfParts and ParseLineRoundTrip state what that means for a line and prove that writing two ranges and parsing them gives them back |
| Sections.ShowRange | src/bin/04.rs:27-32 | A range written as `lo-hi` holds no comma and parses back to the same range |
| Sections.ParseLineHasOneComma | src/bin/04.rs:34-36 | A line that parses is two comma-free texts joined by exactly one comma; lines with no comma or with more than one are rejected |
| Sections.ParseLineOfParts | src/bin/04.rs:34-36 | Two comma-free texts joined by a comma parse exactly when both halves parse as ranges, giving that pair of ranges in order |
| Sections.ParseLineRoundTrip | src/bin/04.rs:34-36 | Writing two ranges as `lo-hi,lo-hi` and parsing the line gives the same pair back |
| Crates.ParseCrate | src/bin/05.rs:20-25 | A slot gives a crate exactly when it starts with `[`, and the crate is the character after it |
| Crates.CrateAt | src/bin/05.rs:33 | A drawing line shows a crate in column idx exactly when its slot there starts with `[`, and the crate is the slot's second character |
| Crates.AddLine | src/bin/05.rs:31-34 | Reading a line opens stacks up to its last slot and puts each crate it shows at the bottom of its column's stack, leaving earlier columns alone |
| Crates.ParseCrates | src/bin/05.rs:27-38 | A drawing is accepted exactly when every line is a whole number of slots (length 3 modulo 4), since otherwise the last slot's slice runs past the line and the source panics; an accepted drawing has one stack per column of the widest line |
| Crates.ParseCratesColumns | src/bin/05.rs:27-38 | Each stack holds its column's crates in reverse reading order, bottom line at the bottom; columns past the widest line are empty |
| Crates.FirstLineOnTop | src/bin/05.rs:33 | Because crates are pushed to the front, a crate on the first line read ends up on top of its stack |
| Crates.TotalCratesUpdate | src/bin/05.rs:61-71 | Replacing one stack changes the crate total by exactly the change in that stack's height |
| Crates.MoveOne | src/bin/05.rs:63-64 | Moving one crate succeeds exactly when both stack numbers are valid and the source is not empty (the source's pop panics otherwise) |
| Crates.ApplyInstructionPart1 | src/bin/05.rs:61-66 | On success there are as many stacks as before and the total number of crates is conserved |
| Crates.ApplyInstructionPart2 | src/bin/05.rs:68-71 | Succeeds exactly when both stack numbers are valid and the source holds at least `amount` crates (the subtraction underflows otherwise); conserves the crates; moving onto the same stack changes nothing |
| Crates.TopCrates | src/bin/05.rs:69 | The top `amount` crates are the source stack's last `amount` entries |
| Crates.MoveOneThenRest | src/bin/05.rs:62-65 | Moving one crate and then the rest of a block one at a time is moving the whole block reversed |
| Crates.Part1MovesReversedBlock | src/bin/05.rs:61-66 | Between different stacks, part 1 puts the top `amount` crates of the source onto the destination in reversed order, the source keeps the rest, and every other stack is untouched |
| Crates.Part2MovesBlock | src/bin/05.rs:68-71 | Between different stacks, part 2 moves the same block keeping its order, and every other stack is untouched |
| Crates.Part1TooMany | src/bin/05.rs:63 | Between different stacks, part 1 fails exactly when the source holds fewer than `amount` crates |
| Crates.Part1SameStack | src/bin/05.rs:61-66 | Part 1 onto the same non-empty stack puts every crate straight back, changing nothing |
| Marker.IsAllUnique | src/bin/06.rs:10 | Reports true exactly when no character occurs twice |
| Marker.CharactersUntilNDistinct | src/bin/06.rs:9-11 | Returns the end of the first window of n pairwise different characters, so no earlier window qualifies; fails exactly when no window qualifies |
| DirTree.NewDirectory | src/bin/07.rs:110 | The parser builds a directory node holding exactly the parsed contents |
| DirTree.NewDirectoryConsistent | src/bin/07.rs:110 | A directory built from consistent children records the sum of their sizes and is itself consistent |
| DirTree.SizeIsFileTotal | src/bin/07.rs:26-31 | In a consistent tree the size a node records is the total size of every file below it |
| DirTree.Next | src/bin/07.rs:52-61 | `next` yields None exactly when the stack is empty, otherwise the top of the stack, and the nodes still to come shrink by exactly one |
| DirTree.TraverseYieldsEachNodeOnce | src/bin/07.rs:52-61 | Running the iterator to exhaustion yields every node of every tree on the stack exactly once, as a multiset |
| DirTree.IterVisitsEveryNodeOnce | src/bin/07.rs:37-46 | Iterating a tree yields the root first and every node of the tree exactly once, so as many items as the tree has nodes |
| DirTree.NodesConsistent | src/bin/07.rs:110 | Every subtree of a tree the parser builds records its children's size sums too |
| DirTree.IteratedSizesAreFileTotals | src/bin/07.rs:128-129 | Every node the iterator yields from a parsed tree records the total size of the files below it, which is what both answers sum and compare |
| DirTree.IterFile | src/bin/07.rs:52-61 | Iterating a file node yields just that file |
| Trees.ParseTrees | src/bin/08.rs:12-14 | The grid parses exactly when every character is a decimal digit; it then has one row per line, as long as the line, of heights 0 to 9 |
| Trees.ParseRenderRoundTrip | src/bin/08.rs:12-14 | Parsing and writing the grid back as digits are inverse |
| Trees.VisibleIffSomeDirectionShorter | src/bin/08.rs:16-23 | A tree is visible exactly when, in some direction, every tree between it and the edge is shorter |
| Trees.BorderTreesVisible | src/bin/08.rs:16-23 | Every tree on the border is visible, since nothing stands between it and the edge |
| Trees.TakeUntilCount | src/bin/08.rs:30-33 | The count runs over the shorter trees and includes the first tree at least as tall, if there is one; it is zero only for an empty view |
| Trees.TakeUntilStopsAtFirstBlocker | src/bin/08.rs:30-33 | When the first tree at least as tall is at index k, the count is exactly k + 1 |
| Trees.TakeUntilSeesEverythingShorter | src/bin/08.rs:30-33 | When every tree in view is shorter, the count is the whole view |
| Trees.ViewingDistance | src/bin/08.rs:30-33 | A viewing distance is at most the distance to the edge and zero exactly at the edge |
| Trees.ViewingDistanceStopsAtBlocker | src/bin/08.rs:30-33 | Each viewing distance stops at and includes the first tree at least as tall, and runs to the edge when there is none |
| Trees.ScenicScoreIsProduct | src/bin/08.rs:29-36 | The scenic score is the product of the four viewing distances |
| Trees.ScenicScoreZeroIffBorder | src/bin/08.rs:29-36 | The scenic score is zero exactly for trees on the border |
| Trees.ScenicScoreBounded | src/bin/08.rs:29-36 | The scenic score is at most the product of the four distances to the edges |
| Trees.VisibleDirectionSeesToEdge | src/bin/08.rs:16-36 | In a direction from which the tree is visible, its viewing distance reaches the edge |
| Trees.VisibleCount | src/bin/08.rs:25-27 | The count is the number of visible positions in the grid, at most its size |
| Trees.BorderPositionsVisible | src/bin/08.rs:25-27 | Every border position of the grid is among those counted |
| Trees.MaxOverGrid | src/bin/08.rs:39 | The result is a score reached at some position and no position scores more |
| Trees.MaximumScenicScore | src/bin/08.rs:38-40 | The result is the scenic score of some tree and no tree scores more |
| Rope.ParseMovement | src/bin/09.rs:15-25 | `R`, `L`, `D` and `U` give the steps (0, 1), (0, -1), (1, 0) and (-1, 0) with the parsed amount; a line with another direction, another item count or a bad amount is rejected (the source panics) |
| Rope.DragPosition | src/bin/09.rs:27-33 | A follower touching its leader stays put; otherwise it moves by the sign of each difference, so at most one place per axis; from Chebyshev distance at most 2 it ends up touching |
| Rope.DragAll | src/bin/09.rs:37-39 | Each later knot is dragged toward the already moved knot before it |
| Rope.ApplyMovement | src/bin/09.rs:35-40 | The head moves by exactly the step and every later knot is dragged toward its updated predecessor |
| Rope.ApplyMovementKeepsTaut | src/bin/09.rs:35-40 | When consecutive knots touch and the step is a king move, they still touch afterwards and every knot moved by at most one place per axis |
| Rope.DragAfterKingStep | src/bin/09.rs:38 | A follower touching a leader that made a king move makes a king move itself and ends up touching the leader |
| Rope.Steps | src/bin/09.rs:43 | One unit step per unit of amount: as many steps as the amounts add up to |
| Rope.Ropes | src/bin/09.rs:44-47 | The rope after each step is the movement applied to the rope after the step before |
| Rope.TailPositions | src/bin/09.rs:42-48 | Exactly one tail position per unit step, each the last knot of the rope after that step |
| Rope.RopesStayTaut | src/bin/09.rs:42-48 | A rope that starts taut is taut after every step of parsed movements |
| Cpu.Cycles | src/bin/10.rs:11-16 | An instruction takes one or two cycles, two exactly for `addx` |
| Cpu.ApplyInstruction | src/bin/10.rs:30-35 | `noop` leaves the state alone and `addx` adds its amount to the register |
| Cpu.InitialIsReachable | src/bin/10.rs:26-28 | A new executor starts with register 1 at the first instruction, with the whole program's cycles still to run |
| Cpu.Step | src/bin/10.rs:59-68 | A finished executor does not change; otherwise one more cycle of the current instruction is counted, and on its last cycle the instruction takes effect and the counter moves to the next one with the cycle count reset; StepKeepsReachable proves this keeps the executor invariant and TraceMatchesExpected that iterating it yields the register values the puzzle defines |
| Cpu.StepKeepsReachable | src/bin/10.rs:60-69 | A step keeps the counter within the program, the cycle count below the current instruction's cycles and the register at 1 plus the completed amounts, and uses up exactly one cycle unless the executor has finished |
| Cpu.Next | src/bin/10.rs:84-96 | The iterator first yields the initial state, then the state after each step, and None once the executor has finished, changing nothing |
| Cpu.Collect | src/bin/10.rs:81-97 | The iterator yields exactly as many states as it has items left |
| Cpu.Trace | src/bin/10.rs:122-123 | The iterator over a whole program yields 1 plus its total cycles register values |
| Cpu.CollectStep | src/bin/10.rs:89-91 | Past its first item the iterator yields the state after one step, then continues from there |
| Cpu.CollectOneInstruction | src/bin/10.rs:60-69 | From an instruction boundary, running the instruction yields the unchanged register for each cycle but the last, then the register plus the instruction's amount |
| Cpu.CollectFromBoundary | src/bin/10.rs:84-96 | From any instruction boundary the executor yields exactly the register values the puzzle describes for the rest of the program |
| Cpu.TraceMatchesExpected | src/bin/10.rs:84-96 | The register values the iterator yields are 1 followed by the value after each cycle, where `addx` takes effect after its second cycle |
| Cpu.CrtLine | src/bin/10.rs:112-117 | A line takes at most 40 sprite positions and is None only when none remain; pixel idx is `#` exactly when the sprite is within one of idx, and the rest of the input is left for the next line |
| Cpu.CrtScreenPixels | src/bin/10.rs:126-130 | The drawn lines hold one pixel per sprite position, every line but the last has 40 pixels, and pixel k is `#` exactly when sprite k is within one of k mod 40 |
| Cpu.ParseLine | src/bin/10.rs:103-109 | A line is `noop` exactly when it starts with that name, and `addx` exactly when it starts with that name and its amount from the sixth character parses as a signed number; everything else is an error |
| Cpu.ParseLineRoundTrip | src/bin/10.rs:103-109 | Writing an instruction as the input does and parsing it back gives the instruction |
| Monkeys.ApplyOperation | src/bin/11.rs:30-38 | Only multiplying by zero can lower a worry level, and adding raises it by exactly the amount |
| Monkeys.GetTarget | src/bin/11.rs:47-51 | The item goes to one of the test's two targets: the true target exactly when the modulus divides its worry level |
| Monkeys.ApplyWorry | src/bin/11.rs:58-65 | Relief never raises a worry level; the remainder manager keeps it below its amount; dividing by 1 keeps it exact |
| Monkeys.RulesAndQueuesDetermineMonkeys | src/bin/11.rs:16-21 | Splitting monkeys into their fixed rules and their queues loses nothing: two troops agree exactly when both parts agree |
| Monkeys.ThrowAllContents | src/bin/11.rs:134-138 | Each queue grows by exactly the items thrown to it, with their new worry levels, in the order they were thrown |
| Monkeys.TurnContents | src/bin/11.rs:133-139 | After a turn the acting monkey holds nothing, and every other monkey's queue is its old queue followed by what was thrown to it |
| Monkeys.TurnConserves | src/bin/11.rs:133-139 | A turn neither loses nor creates items |
| Monkeys.TakeTurn | src/bin/11.rs:133-139 | Popping and throwing items one at a time ends in the whole-turn result, with the acting queue empty and every item still held by some monkey |
| Monkeys.InspectionCounts | src/bin/11.rs:145-154 | The loop computes the state and counts of the round-by-round definition, and the troop still holds every item |
| Monkeys.RoundFromCountsGrow | src/bin/11.rs:148-151 | Inspection counts never go down during a round |
| Monkeys.RoundFromConserves | src/bin/11.rs:148-151 | A round neither loses nor creates items |
| Monkeys.ModulusIsCommonMultiple | src/bin/11.rs:141-143 | The product of the test moduli is a positive multiple of every one of them |
| Monkeys.OperationModular | src/bin/11.rs:31-37 | Every operation commutes with taking a remainder |
| Monkeys.ModOfMultiple | src/bin/11.rs:62 | Reducing modulo a multiple of h keeps the remainder by h |
| Monkeys.InspectCongruent | src/bin/11.rs:135-136 | Inspecting exact and reduced worry levels that agree modulo M gives results that agree modulo M and the same target |
| Monkeys.TurnEquiv | src/bin/11.rs:133-139 | A turn with exact and with reduced worry levels keeps the queues congruent modulo M |
| Monkeys.RoundFromEquiv | src/bin/11.rs:148-151 | A round with exact and with reduced worry levels keeps the queues congruent and produces identical counts |
| Monkeys.SimulateEquiv | src/bin/11.rs:145-154 | Any number of rounds with worry levels reduced modulo a common multiple gives exactly the counts of the exact simulation |
| Monkeys.ReducedCountsAreExact | src/bin/11.rs:164-166 | Keeping worry levels modulo the product of the test moduli gives exactly the inspection counts of unbounded worry levels |
| Hills.Elevation | src/bin/12.rs:13-20 | Exactly the lower-case letters, `S` and `E` have an elevation, between 0 and 25; `S` is 0 and `E` is 25 |
| Hills.ElevationLetterRoundTrip | src/bin/12.rs:13-20 | Lower-case letters and elevations 0 to 25 correspond one to one |
| Hills.Neighbours | src/bin/12.rs:38-47 | The neighbours are exactly the adjacent grid cells at most one lower than the current cell, so the search runs backwards from the summit; at most four, none repeated |
| Hills.Discover | src/bin/12.rs:58-63 | Every neighbour ends up with a distance; exactly the newly found ones get the current distance plus one and are queued in order, and known distances are kept |
| Hills.Expand | src/bin/12.rs:56-63 | Processing the queue head gives each undiscovered neighbour the head's distance plus one and queues it, leaving everything else as it was |
| Hills.AscendingStep | src/bin/12.rs:56-64 | Processing the queue head keeps distances non-decreasing along the queue |
| Hills.ClosedStep | src/bin/12.rs:56-64 | After the head is processed, every cell one step from a processed cell has a distance at most one more |
| Hills.DiscoveredStep | src/bin/12.rs:56-64 | Every discovered cell other than the start still has a neighbour one closer to the start |
| Hills.ProcessKeepsSearching | src/bin/12.rs:56-64 | Processing the queue head keeps the whole breadth-first-search invariant |
| Hills.CalculateMinimumDistances | src/bin/12.rs:49-67 | The start has distance 0, every other discovered cell was reached from a cell one closer, and every cell one step from a discovered cell is discovered at most one further |
| Hills.DiscoveredHasWalk | src/bin/12.rs:49-67 | Every discovered cell is the end of a walk from the start with exactly its distance in steps |
| Hills.NoShorterWalk | src/bin/12.rs:49-67 | No walk from the start reaches a cell in fewer steps than its distance |
| Hills.DistancesAreShortest | src/bin/12.rs:49-67 | A cell gets a distance exactly when some walk from the start reaches it, and the distance is the length of the shortest such walk |
| Packets.PartialCmp | src/bin/13.rs:28-37 | The comparison of two packets is always defined (it never returns None) |
| Packets.PartialCmpLists | src/bin/13.rs:35 | The comparison of two lists of packets is always defined |
| Packets.NumbersCompareAsIntegers | src/bin/13.rs:32 | Two integers are less, equal or greater exactly as the integers are |
| Packets.NumberIsWrapped | src/bin/13.rs:33-34 | An integer met by a list compares as the one-element list holding it, on either side |
| Packets.CmpReflexive | src/bin/13.rs:22-26 | Every packet compares Equal to itself, so `eq` is reflexive |
| Packets.NumberEqualsSingleton | src/bin/13.rs:22-34 | An integer and the list holding just that integer are equal, in both argument orders |
| Packets.CmpAntisymmetric | src/bin/13.rs:28-37 | Swapping the two packets reverses the ordering |
| Packets.CmpListsAntisymmetric | src/bin/13.rs:35 | Swapping two lists reverses the lexicographic ordering |
| Packets.ProperPrefixIsLess | src/bin/13.rs:35 | A list compares Less than any proper extension of it |
| Packets.FirstDifferenceDecides | src/bin/13.rs:35 | After a run of Equal items the first non-Equal pair of items decides the comparison of the lists |
| Sand.ExtendPath | src/bin/14.rs:72-81 | Extending succeeds exactly when the new point shares a row or column with the path's end; the old path is kept as a prefix, the new part moves one unit per step and ends at the new point, and a connected path stays connected |
| Sand.FillPath | src/bin/14.rs:66-70 | Filling succeeds exactly when each corner shares a row or column with the one before it; the result is connected, starts at the first corner, ends at the last and passes through every corner |
| Sand.ContentsAt | src/bin/14.rs:36-38 | A point has contents exactly when it lies inside its row of the grid |
| Sand.PointToFallTo | src/bin/14.rs:40-42 | The result is the first of down, down-left, down-right that holds air, one row lower; there is none exactly when no candidate holds air |
| Sand.FinalDestination | src/bin/14.rs:46-48 | A grain comes to rest at a point from which it cannot fall, never above where it started, and on air if it started on air |
| Sand.DropSand | src/bin/14.rs:44-58 | A grain is placed only when the entry point holds air, and then exactly at its resting point; without a floor it is placed exactly when it rests above the last row, with a floor always; a failed drop changes nothing |
| Sand.DropSandCounts | src/bin/14.rs:50 | A successful drop turns exactly one air cell into sand and leaves the rock count unchanged |
| Sensors.Radius | src/bin/15.rs:20-22 | The radius is the Manhattan distance between the sensor and its nearest beacon, in either order |
| Sensors.CoveredXForFixedY | src/bin/15.rs:24-28 | None exactly when the row is further from the sensor than the radius; otherwise a non-empty interval holding exactly the x of that row inside the diamond |
| Sensors.DiamondEdges | src/bin/15.rs:30-44 | Over the diamond x + y ranges over [top_left, bottom_right] and y - x over [top_right, bottom_left], the diamond is exactly the intersection of the two strips, and each bound is attained at a corner |
| Sensors.LexLeIsTotalPreorder | src/bin/15.rs:64 | Tuple order on ranges is total and transitive, so the ranges can be sorted |
| Sensors.ContainedIsOrderFree | src/bin/15.rs:75-77 | Whether a value is contained in some range does not depend on the order of the ranges |
| Sensors.MergeKeepsCoverage | src/bin/15.rs:66 | Widening the last output range by an overlapping range covers exactly the values of the old ranges and the new one |
| Sensors.Absorb | src/bin/15.rs:65-70 | One merge step covers exactly the old output plus the new range, stays separated, grows by at most one range and ends with a range starting no later than the new one |
| Sensors.MergeStep | src/bin/15.rs:64-71 | Absorbing the next range in sorted order keeps the merge invariant: coverage equals that of the ranges seen so far, the output is separated and no longer than them |
| Sensors.UnionOfRanges | src/bin/15.rs:62-73 | The union covers exactly the values the input covers, each range ends strictly before the next starts, it is no longer than the input, and it has no empty range when the input has none |
| Rocktris.MovementFromChar | src/bin/17.rs:15-21 | `<` pushes left, `>` pushes right; no character is a downward move and every other character is an error |
| Rocktris.CollectMovements | src/bin/17.rs:166-168 | The input is accepted exactly when every character is a jet; the moves then alternate between the jets, in order, and single downward steps |
| Rocktris.NextShapeCycles | src/bin/17.rs:34-43 | The shapes fall in one cycle of five: every shape comes exactly once before the first returns |
| Rocktris.NewRockLayout | src/bin/17.rs:52-63 | A new rock has 4 cells, or 5 for the plus and the vee, all distinct, inside the shape's bounding box and touching all four of its sides |
| Rocktris.NewRocktris | src/bin/17.rs:76-84 | A new chamber has the floor at height 0 in every column, no rocks placed or moves made, and a horizontal rock at (3, 4) |
| Rocktris.MoveRight | src/bin/17.rs:112-116 | Only the falling rock changes; the whole rock moves one column right exactly when every cell to its right is inside the walls and free, and otherwise nothing changes |
| Rocktris.MoveLeft | src/bin/17.rs:118-122 | Only the falling rock changes; the whole rock moves one column left exactly when every cell to its left is inside the walls and free, and otherwise nothing changes |
| Rocktris.HeightUpTo | src/bin/17.rs:144-146 | The result is the highest occupied cell among the columns up to c, and some such column holds it |
| Rocktris.Height | src/bin/17.rs:144-146 | The height is the highest occupied cell of any column, and some column holds it |
| Rocktris.DiscardBelow | src/bin/17.rs:155 | Every column except the wall keeps exactly its cells at or above the given height |
| Rocktris.FirstCompleteLine | src/bin/17.rs:152-159 | The index found is a complete line, or past the end when there is none |
| Rocktris.FirstCompleteLineIsFirst | src/bin/17.rs:153-157 | No height checked before the one found is a complete line |
| Rocktris.CheckDiscardsBelowFirstComplete | src/bin/17.rs:152-159 | With no complete line among the heights the chamber is unchanged; otherwise the cells below the first complete line are dropped |
| Rocktris.DiscardKeepsHeight | src/bin/17.rs:155 | Dropping the cells below a complete line keeps every column non-empty and keeps the height |
| Rocktris.CheckKeepsHeight | src/bin/17.rs:152-159 | Checking for complete lines never changes the height |
| Rocktris.RowsDescending | src/bin/17.rs:139 | The rows of the rock are listed once each, strictly from the highest down |
| Rocktris.InsertCells | src/bin/17.rs:138 | Afterwards a column holds exactly its earlier cells plus the rock's cells in that column |
| Rocktris.Settle | src/bin/17.rs:137-139 | After settling every column is still non-empty and no cell of the settled rock is above the height |
| Rocktris.LockFallingRock | src/bin/17.rs:136-142 | Locking counts one more rock, settles the rock's cells, and spawns the next shape at column 3, four rows above the new height |
| Rocktris.MoveDown | src/bin/17.rs:124-130 | The rock falls one row exactly when every cell below it is inside the walls, above the floor and free; otherwise it is locked |
| Rocktris.ApplyMovement | src/bin/17.rs:102-110 | Every move is counted; a sideways move never touches the settled cells, and at most one rock is placed |
| RocktrisInvariant.NewIsValid | src/bin/17.rs:76-84 | A new chamber of width at least 6 satisfies the invariant: the rock is between the walls, above a floor that every column shares, and clear of every settled cell |
| RocktrisInvariant.SpawnIsClear | src/bin/17.rs:148-150 | A rock spawned four rows above the height is clear of every settled cell |
| RocktrisInvariant.SettleHasFloor | src/bin/17.rs:136-139 | After a rock settles, the columns still share a lowest cell: the old floor or the complete line that was cleared |
| RocktrisInvariant.LockKeepsValid | src/bin/17.rs:136-142 | After a lock the new rock is clear of the settled cells, above the shared floor |
| RocktrisInvariant.SidewaysKeepsValid | src/bin/17.rs:112-122 | A sideways push keeps the invariant |
| RocktrisInvariant.DownKeepsValid | src/bin/17.rs:124-130 | A downward step keeps the invariant, whether the rock falls or locks |
| RocktrisInvariant.ApplyMovementKeepsValid | src/bin/17.rs:102-134 | Every move keeps the invariant, so a falling rock never enters a wall, the floor or a settled cell, and the subtractions in the moves never underflow |
| Cubes.Neighbours | src/bin/18.rs:18-20 | The six results are distinct and are exactly the positions sharing a face with the cube |
| Cubes.ExposedFacesAll | src/bin/18.rs:23 | A cube shows all six faces exactly when no other cube touches it |
| Cubes.SurfaceAreaAtMost | src/bin/18.rs:22-24 | The surface area is at most six faces per cube |
| Cubes.SurfaceAreaFullIff | src/bin/18.rs:22-24 | The area is six faces per cube exactly when no two cubes touch |
| Cubes.SingleCubeArea | src/bin/18.rs:22-24 | A single cube has surface area 6 |
| Cubes.BoundingBox | src/bin/18.rs:26-32 | Every cube lies strictly inside the box |
| Cubes.BoundingBoxTight | src/bin/18.rs:26-32 | On each of the six sides some cube lies exactly one cell inside the box |
| Cubes.Visit | src/bin/18.rs:38-45 | Processing a cell pushes, once each, exactly its unvisited in-box air neighbours, marks them visited, and counts one face per touching cube |
| Cubes.FillStep | src/bin/18.rs:37-46 | One step of the fill keeps its invariant and shrinks the unexplored part of the box plus the stack, so the fill terminates |
| Cubes.FillDone | src/bin/18.rs:37-46 | When the stack is empty, the visited cells and the corner are exactly the air reachable from the corner, and the count is the number of cube faces they touch |
| Cubes.ClosedRegionIsExteriorAir | src/bin/18.rs:37-46 | Reachable air that no air step can leave, containing the corner, is all the air reachable from the corner |
| Cubes.ExteriorSurfaceArea | src/bin/18.rs:34-48 | The fill visits exactly the air reachable from the box corner, and the result is the number of cube faces touching that air |
| LinkedList.RepresentsConsistent | src/bin/20.rs:4-11 | Any node array that links its nodes into one cycle satisfies the doubly-linked invariant: following `next` then `prev`, or `prev` then `next`, returns to the node |
| LinkedList.RepresentsUnique | src/bin/20.rs:4-11 | The cyclic order of the nodes determines every link |
| LinkedList.WithLength | src/bin/20.rs:15-22 | A fresh list has one node per index |
| LinkedList.WithLengthIsCycle | src/bin/20.rs:15-22 | The fresh list links 0, 1, ..., len - 1 into one cycle, with `next` of i at (i + 1) mod len and `prev` at (i + len - 1) mod len |
| LinkedList.FollowAlongCycle | src/bin/20.rs:26 | On a cycle, following `next` j times from position k reaches position k + j, wrapping round once |
| LinkedList.StepForward | src/bin/20.rs:24-28 | Stepping forward by `amount` follows `next` exactly `amount mod len` times |
| LinkedList.StepAroundCycle | src/bin/20.rs:24-28 | On a cycle, `len` steps return to the start and `amount` steps from position k land on position (k + amount mod len) mod len |
| LinkedList.FreshStepForward | src/bin/20.rs:24-28 | On a fresh list, stepping forward from i by `amount` reaches (i + amount mod len) mod len |
| LinkedList.RotatedIsPermutation | src/bin/20.rs:4-11 | Reading a permutation from another starting position gives a permutation |
| LinkedList.RepresentsRotated | src/bin/20.rs:4-11 | A cycle can be read from any of its nodes: the links describe every rotation of the order |
| LinkedList.ShiftRightOnce | src/bin/20.rs:40-46 | One forward relinking keeps the array length and every link in range |
| LinkedList.ShiftLeftOnce | src/bin/20.rs:50-56 | One backward relinking keeps the array length and every link in range |
| LinkedList.ShiftRightOnceEffect | src/bin/20.rs:41-45 | The six rewritten links: `idx` sits between its old successor and its old successor's successor, the old predecessor points to the old successor, and every other node keeps its links |
| LinkedList.SwapFrontIsPermutation | src/bin/20.rs:41-45 | Swapping the first two entries of a cycle order keeps it a permutation |
| LinkedList.ShiftRightOnceSwaps | src/bin/20.rs:41-45 | With at least three nodes a forward move swaps `idx` with its successor and leaves the cyclic order of every other node unchanged |
| LinkedList.ShiftRightOnceMoves | src/bin/20.rs:40-46 | Read from `idx`, one forward move carries the first node after `idx` to the back |
| LinkedList.ShiftLeftIsShiftRightOfPrev | src/bin/20.rs:50-56 | A backward move of `idx` rewrites exactly the links a forward move of its predecessor would |
| LinkedList.ShiftLeftOnceMoves | src/bin/20.rs:50-56 | With at least three nodes, read from `idx`, one backward move carries the last node to just after `idx` |
| LinkedList.CycleLeftClosedForm | src/bin/20.rs:40 | Up to a full turn, k left rotations move the first k entries to the back |
| LinkedList.CycleRightClosedForm | src/bin/20.rs:50 | Up to a full turn, k right rotations move the last k entries to the front |
| LinkedList.CycleRightIsCycleLeft | src/bin/20.rs:32-36 | k right rotations of the other nodes equal len - 1 - k left rotations, which is why either direction may be chosen |
| LinkedList.ShiftRight | src/bin/20.rs:39-47 | `amount` forward moves keep the links in range and, on a cycle of at least three nodes, rotate the nodes after `idx` left `amount` times |
| LinkedList.ShiftLeft | src/bin/20.rs:49-57 | `amount` backward moves keep the links in range and, on a cycle of at least three nodes, rotate the nodes after `idx` right `amount` times |
| LinkedList.ShiftNode | src/bin/20.rs:30-37 | The shift is reduced modulo len - 1 (Euclidean, as `rem_euclid`), at most (len - 1) / 2 single moves are made, and on a cycle the nodes after `idx` end up rotated left by the reduced shift |
| LinkedList.ShiftRightBreaksPair | src/bin/20.rs:39-47 | With only two nodes a single forward move breaks the doubly-linked invariant |
| MonkeyMath.AddUsize | src/bin/21.rs:46 | `usize` addition succeeds exactly when the sum fits in 64 bits, and then yields the sum |
| MonkeyMath.SubUsize | src/bin/21.rs:47 | `usize` subtraction succeeds exactly when it does not go below zero, and the result added back to the subtrahend gives the minuend |
| MonkeyMath.MulUsize | src/bin/21.rs:48 | `usize` multiplication succeeds exactly when the product fits in 64 bits |
| MonkeyMath.DivUsize | src/bin/21.rs:49 | `usize` division succeeds exactly when the divisor is non-zero, and the quotient is the largest q with q * b <= a |
| MonkeyMath.Apply | src/bin/21.rs:45-50 | Any operation on two `usize` numbers that does not panic yields a `usize` number |
| MonkeyMath.DivisionBounds | src/bin/21.rs:49 | Truncating division brackets the dividend between q * b and (q + 1) * b and never exceeds it |
| MonkeyMath.Evaluate | src/bin/21.rs:42-52 | Looking up an unknown monkey panics; a number monkey yells its number; whatever is yelled fits in a `usize` |
| MonkeyMath.EvaluateIgnoresRank | src/bin/21.rs:42-52 | The number a monkey yells depends only on the monkeys, not on the ranking used to show the recursion terminates |
| MonkeyMath.WithHumanWellFounded | src/bin/21.rs:55 | Rebinding the human to a `usize` number keeps the monkey graph acyclic |
| MonkeyMath.RebindingHumanIsLocal | src/bin/21.rs:55-56 | A monkey whose expression never reaches the human yells the same number whatever the human is set to |
| MonkeyMath.Compare | src/bin/21.rs:54-57 | When neither side panics, the comparison is the ordering of the two numbers the monkeys yell with the human rebound |
| MonkeyMath.NoPowerBetween | src/bin/21.rs:61-62 | No power of two lies strictly between a power of two and its double, so the doubling phase leaves the search interval between consecutive powers |
| MonkeyMath.Double | src/bin/21.rs:60-61 | Doubling from 1 stops at the first power of two at least 2 whose ordering differs from the ordering at 1, and when the ordering differs throughout [t, 2t) it stops below 2t |
| MonkeyMath.Bisect | src/bin/21.rs:62-69 | The binary search between lo and hi returns a human number in that interval for which the two sides compare equal |
| MonkeyMath.SearchForEquality | src/bin/21.rs:59-70 | For a comparison that runs from one ordering through Equal to the other and is defined on every number it can probe (all below twice the end of the Equal run), the doubling plus bisection finds a human number that makes it Equal |
| MonkeyMath.RootComparison | src/bin/21.rs:54-57 | The function the search probes is the comparison of the root's two children with the human rebound |
| MonkeyMath.BinarySearchForEquality | src/bin/21.rs:59-70 | The number returned makes the root's two children yield the same number without any panic |
| MonkeyMath.SearchableExample | src/bin/21.rs:59-70 | The search's precondition can be met: comparing the human with a monkey yelling 3 runs from Less through Equal at 3 to Greater, with nothing panicking |
| Polynomials.CoeffAt | src/bin/21a.rs:39-41 | Coefficient i is the stored one up to the degree and zero above it |
| Polynomials.Degree | src/bin/21a.rs:35-37 | The degree is the index of the last stored coefficient |
| Polynomials.Constant | src/bin/21a.rs:27-29 | The constant c has degree 0, coefficient 0 equal to c, and value c everywhere |
| Polynomials.Identity | src/bin/21a.rs:31-33 | The identity polynomial is normal, has degree 1 and value x at every x |
| Polynomials.Normalise | src/bin/21a.rs:43-48 | Normalising only drops trailing zeros, never empties the coefficients, and leaves no trailing zero except in `[0]` |
| Polynomials.NormaliseKeepsValue | src/bin/21a.rs:43-48 | Normalising keeps every coefficient and so the value at every x |
| Polynomials.PolyAdd | src/bin/21a.rs:60-64 | The sum is normal and coefficientwise: coefficient i is the sum of the operands' coefficients i |
| Polynomials.PolySub | src/bin/21a.rs:70-74 | The difference is normal and coefficientwise: coefficient i is the difference of the operands' coefficients i |
| Polynomials.PolyMul | src/bin/21a.rs:80-85 | The product is normal and coefficient `deg` is the convolution sum over idx <= deg of a[idx] * b[deg - idx] |
| Polynomials.EvalOfConv | src/bin/21a.rs:82 | Coefficients given by the convolution sum evaluate to the product of the two values |
| Polynomials.EvalHomomorphism | src/bin/21a.rs:57-86 | Sum, difference and product of polynomials evaluate to the sum, difference and product of their values |
| Polynomials.SumOfRoots | src/bin/21a.rs:50-54 | Below degree 1 the fraction is 0 / 1; otherwise it is minus the second-highest coefficient over the highest |
| Polynomials.SumOfRootsIsRoot | src/bin/21a.rs:126-127 | For a normal linear polynomial the denominator is non-zero, and when it divides the numerator the quotient is a root |
| Polynomials.EvaluateMonkey | src/bin/21a.rs:109-119 | A value monkey yields its stored polynomial; an unknown name yields nothing (the source panics); every result has a coefficient |
| Polynomials.EvaluateMonkeyAgrees | src/bin/21a.rs:109-119 | The polynomial a monkey yields, evaluated at x, is the number it yells when the human says x, and one exists exactly when the other does |
| Terrain.FirstSolid | src/bin/22.rs:66 | The starting column is the first cell of the row that is part of the net; it is absent exactly when the whole row is empty space |
| FlatDirections.RotationLaws | src/bin/22.rs:23-50 | Turning left undoes turning right, reversing is two right turns and its own inverse, four right turns are nothing, each right turn adds one to the facing value modulo 4, and reversing negates the step |
| FlatMap.CoordinatesInFront | src/bin/22.rs:104-111 | The cell in front is one row up or down modulo the number of rows (same column), or one column left or right modulo the length of the current row (same row) |
| FlatMap.AheadIsOffset | src/bin/22.rs:99 | Repeating the step k times, for up to one full row or column, is a single move by k with wrap-around |
| FlatMap.AheadFullPeriod | src/bin/22.rs:99-101 | A full row length (or number of rows) of steps returns to the starting cell, so the search for the next space always ends |
| FlatMap.StepsToNextSpace | src/bin/22.rs:98-102 | The search stops at the first step, within one period, whose cell is part of the net, and every cell skipped on the way is empty space |
| FlatMap.NextSpaceWrapping | src/bin/22.rs:98-102 | The next space is a cell of the net in the same row for a horizontal move and the same column for a vertical one |
| FlatMap.NextSpaceIsFirstSolid | src/bin/22.rs:98-102 | The next space is reached after some number of steps within one period and every cell before it is empty space |
| FlatMap.TryStepForward | src/bin/22.rs:88-96 | A step succeeds exactly when the next space is open floor, and then moves there; when it fails the position is unchanged; the facing never changes |
| FlatMap.WalkExtend | src/bin/22.rs:78-82 | One more successful step extends a walk of k steps by that step |
| FlatMap.WalkKeepsDirection | src/bin/22.rs:78-82 | Every position reached by walking is on the net and faces the starting direction |
| FlatMap.MoveForward | src/bin/22.rs:78-82 | Moving forward takes at most the requested number of steps, each onto open floor, and stops early only when the next step is blocked by a wall |
| FlatMap.ApplyMovement | src/bin/22.rs:70-76 | A turn changes only the facing, by one quarter turn; a forward movement keeps the facing and ends where a walk of k <= amount steps ends, with k short of the amount only when the next step is blocked by a wall |
| FlatMap.Start | src/bin/22.rs:65-68 | The walker starts facing right in the top row at its first cell on the net; there is no start exactly when the top row is missing or empty space |
| CubeTables.OrientationIndexIsPosition | src/bin/22.rs:124-128 | The discriminant of every orientation is its position in the declaration order, so indexing the fold tables by it is well defined |
| CubeTables.OrientationFaceRotationBijective | src/bin/22.rs:124-141 | An orientation is determined by its top face and its discriminant modulo 4, and every such pair names exactly one orientation |
| CubeTables.FoldInverseAndMoves | src/bin/22.rs:390-398 | Folding over an edge and then back over the same edge restores the orientation, and every fold brings a different face to the top |
| CubeTables.FoldsReachDistinctFaces | src/bin/22.rs:390-398 | The four folds from one orientation bring four different faces to the top |
| CubeTables.TurnTableLaws | src/bin/22.rs:156-178 | On every face the left and right turn tables undo each other, keep the four in-plane directions in plane, turn a legal direction by a quarter (neither fixing nor reversing it), and four right turns are the identity |
| CubeTables.TranslationRowShape | src/bin/22.rs:367-388 | A stored direction translator is defined exactly on the in-plane directions of its face and sends distinct ones to distinct flat directions |
| CubeTables.TranslationRowHasTwoNones | src/bin/22.rs:367-388 | Each translator row leaves exactly the two out-of-plane directions untranslated |
| CubeTables.RotateByClassInjective | src/bin/22.rs:380-386 | Rotating by an orientation's class is a bijection of the flat directions and commutes with a right turn |
| CubeTables.TurnAgreesWithNet | src/bin/22.rs:379-388 | Turning right on the cube corresponds, through the stored translator, to turning right on the unfolded map, whatever the rotation of the face in the net |
| CubeWalk.NextPositionStaysLegal | src/bin/22.rs:267-348 | The edge-transition table panics exactly on directions that leave the plane of the face, and from a legal state always reaches a legal state on the same cube |
| CubeWalk.NextPositionSameFaceMove | src/bin/22.rs:278-348 | A step either stays on the face, keeping its direction and moving one cell the way the direction points in the canonical net, or happens only when that cell would leave the face and lands on an edge of another face |
| CubeWalk.NextPositionInvolution | src/bin/22.rs:278-348 | Stepping back from where a step landed, facing the other way, returns to the starting cell facing the other way: the face gluings are consistent in both directions |
| CubeWalk.Target | src/bin/22.rs:258-276 | The state a step aims at is always a legal state on the cube |
| CubeWalk.TryStepForward | src/bin/22.rs:257-265 | A step moves to the target exactly when the target is open floor, and otherwise leaves face, cell and direction unchanged |
| CubeWalk.WalkExtend | src/bin/22.rs:251-255 | One more successful step extends a walk of k steps by that step |
| CubeWalk.MoveForward | src/bin/22.rs:251-255 | Moving forward takes at most the requested number of successful steps and stops early only when the next target is not open floor |
| CubeWalk.ApplyMovement | src/bin/22.rs:243-249 | A turn changes only the direction, through the face's turn table; a forward movement ends where a walk of k <= amount steps ends, with k short of the amount only when the cell ahead is not open floor |
| CubeWalk.StartIsLegal | src/bin/22.rs:240 | The starting state, the first cell of the top face facing right, is legal on any cube with a positive side |
| CubeNet.CanonicalPositionBijective | src/bin/22.rs:357-365 | For each rotation class the face-local mapping of a block is a bijection of the n-by-n cells, undone by the opposite class |
| CubeNet.CanonicalPositionInjective | src/bin/22.rs:357-365 | Two cells of a block land on the same face-local cell only if they are the same cell |
| CubeNet.NetStepIsFaceStep | src/bin/22.rs:357-365 | Moving inside a block in a flat direction rotated by the block's class is moving by the unrotated direction in face-local coordinates |
| CubeNet.TranslatorMatchesFaceStep | src/bin/22.rs:220-227 | A step inside a face in a legal cube direction moves in the net by the direction the stored translator gives, so the recorded positions and directions agree |
| CubeNet.SearchPositions | src/bin/22.rs:350-355 | The neighbouring blocks are below and to the right always, to the left only when the block is not in the leftmost column of blocks, above only when it is not in the top row of blocks, each one block away in its fold direction and in that order |
| CubeNet.BlockCopiesEveryCell | src/bin/22.rs:220-224 | Copying a block writes each of its cells to the face-local cell the orientation sends it to and records the net cell it came from |
| CubeNet.NeighboursToPush | src/bin/22.rs:230-237 | Every neighbouring block that is part of the net and whose folded face has not been copied is pushed; every pushed block is part of the net, of an unseen face, and is some neighbour folded over its shared edge (the next orientation for that fold direction, at that neighbour's corner) |
| CubeNet.NeighboursToPushInOrder | src/bin/22.rs:230-237 | The pushed blocks are a subsequence of the folded neighbours in search order, so the stack pops them latest neighbour first |
| CubeNet.ReachedStep | src/bin/22.rs:230-234 | A block across an edge of the net from a reached block, folded over that edge, is reached too |
| CubeNet.StackStaysReached | src/bin/22.rs:214-237 | Popping a reached block and pushing its fresh neighbours leaves only blocks reached by chains of folds from the starting block on the stack |
| CubeNet.FoldStart | src/bin/22.rs:205-213 | The traversal starts with nothing copied and only the first block of the top row, seen from above, on the stack |
| CubeNet.FoldStep | src/bin/22.rs:216-237 | One pass of the traversal loop keeps the copies consistent with the net, keeps every stacked block reached from the starting block, and never pushes the top face again once it is copied |
| CubeNet.RecordKeepsConsistent | src/bin/22.rs:219-227 | Copying one reached block marks its face as seen, records that block of the net on that face, and leaves every other face untouched |
| CubeNet.FoldNet | src/bin/22.rs:197-241 | The folded cube has six n-by-n faces; each is either the copy of some block of the net, in the orientation that a chain of folds along edges of the net from the starting block gives it and that brings that face to the top, with its positions and direction translator, or untouched; the top face is the block at the first net cell of the top row seen from above; a map with no rows or an empty top row gives no cube |
| Elves.AllNeighbours | src/bin/23.rs:29-31 | The eight results are distinct and are exactly the positions touching the elf, diagonals included |
| Elves.ShouldMoveIffTouching | src/bin/23.rs:37-39 | An elf wants to move exactly when another elf touches it |
| Elves.MovementRequiredIffTouching | src/bin/23.rs:33-35 | Movement is needed exactly when some two elves touch |
| Elves.FirstClear | src/bin/23.rs:46-47 | The result is the first movement in the order whose three checked cells are free, or none when no movement is clear |
| Elves.Proposal | src/bin/23.rs:45-50 | An elf with no neighbours, or with no clear direction, stays put; otherwise it proposes the step of the first clear movement |
| Elves.FirstIsUnique | src/bin/23.rs:46-47 | There is only one first clear movement |
| Elves.MovesAreUncontested | src/bin/23.rs:54-56 | An elf that moves lands on an empty cell that no other elf proposed |
| Elves.NoCollisions | src/bin/23.rs:41-57 | No two elves end a round on the same cell |
| Elves.RoundKeepsElfCount | src/bin/23.rs:41-57 | A round neither loses nor merges elves |
| Elves.StillWhenNoneTouch | src/bin/23.rs:41-57 | When no two elves touch, a round changes nothing |
| Elves.FinalIsProposalOrStay | src/bin/23.rs:55 | Each elf either takes its proposal or stays where it was |
| Elves.MovesOneStep | src/bin/23.rs:41-57 | With movements that step to a touching cell, each elf stays or moves to a touching cell |
| Elves.Movements | src/bin/23.rs:69-74 | The puzzle's four movements (north, south, west, east) each step to a touching cell that they check first |
| Elves.Rotate | src/bin/23.rs:79-80 | Rotating moves the first movement to the back and shifts the others forward |
| Elves.RotateIsPermutation | src/bin/23.rs:79-80 | Rotating only reorders the movements |
| Elves.RotateTimesSplits | src/bin/23.rs:79-80 | Rotating k times moves the first k movements to the back, in order |
| Elves.RotationCycles | src/bin/23.rs:79-80 | Rotating as many times as there are movements restores the order |
| Elves.RotateChecksTarget | src/bin/23.rs:79-80 | Rotating keeps every movement checking its own target |
| Elves.RoundsKeepElfCount | src/bin/23.rs:76-81 | Any number of rounds keeps the number of elves |
| Elves.FirstStillIsStill | src/bin/23.rs:86-91 | When the loop stops, no two elves touch in the positions it stopped at |
| Elves.FirstStillIsFirst | src/bin/23.rs:86-91 | The loop stops at the first round count after which no two elves touch |
| Elves.FirstStillRoundIsFirst | src/bin/23.rs:85-92 | The reported round is one more than the number of rounds after which, for the first time, no two elves touch; when the bound runs out, elves touched after every round up to it |
| Elves.BoxHoldsElves | src/bin/23.rs:59-64 | The extreme coordinates give a rectangle holding every elf, with an elf on each side |
| Elves.BoundingBoxArea | src/bin/23.rs:59-65 | None exactly when there are no elves (the source's `unwrap` of an empty minimum panics); otherwise the area of the smallest rectangle holding every elf, with an elf on each of its sides |
| Elves.RectangleCard | src/bin/23.rs:64 | A rectangle of w by h cells holds w times h points |
| Elves.AreaCoversElves | src/bin/23.rs:59-65 | For at least one elf the bounding-box area exists and is at least the number of elves |
| Elves.EmptyGround | src/bin/23.rs:82-83 | None exactly when there are no elves; otherwise the empty ground plus the number of elves is the bounding-box area, so the subtraction never underflows |
| Blizzards.ParseChar | src/bin/24.rs:23-32 | Exactly the four arrows are blizzards; every other character is empty ground |
| Blizzards.MoveInDirection | src/bin/24.rs:43-50 | A move changes only the coordinate along its axis and keeps a position inside the grid |
| Blizzards.MoveThenOppositeReturns | src/bin/24.rs:43-50 | Moving by an amount and then by the same amount the opposite way returns to the start |
| Blizzards.MoveIsPeriodic | src/bin/24.rs:43-50 | Only the amount modulo the axis length matters |
| Blizzards.MoveByPeriodReturns | src/bin/24.rs:54 | After height times width minutes every blizzard is back at its start |
| Blizzards.MoveShiftedByPeriod | src/bin/24.rs:54 | Moving for a further height times width minutes lands every blizzard on the same cell as before |
| Blizzards.HitsShiftedByPeriod | src/bin/24.rs:54 | A blizzard covers a cell at time t plus height times width exactly when it covers it at time t |
| Blizzards.FreeAtIsPeriodic | src/bin/24.rs:54-59 | A cell is free at time t plus height times width exactly when it is free at time t, so the free-cell layers repeat with that period |
| Blizzards.Neighbours | src/bin/24.rs:72-79 | Waiting comes first; all moves are one minute later on the repeating clock, go at most one cell along one axis and stay in the grid |
| Blizzards.NeighboursDistinct | src/bin/24.rs:72-79 | No move is listed twice |
| Blizzards.NeighboursComplete | src/bin/24.rs:72-79 | Every in-grid cell next to the position is among the moves, one minute later |
| Blizzards.Layer | src/bin/24.rs:56-66 | A cell of the layer for minute t is free exactly when no blizzard is on it at minute t |
| Blizzards.AddTimeDimension | src/bin/24.rs:52-70 | There is one layer per minute of the period, each the shape of the grid, and a cell of layer t is free exactly when no blizzard is on it at minute t |
| Snafu.ParseChar | src/bin/25.rs:11-20 | Exactly the five characters `=`, `-`, `0`, `1`, `2` are accepted, each as a digit in -2..2; every other character is the panic arm, returned as None |
| Snafu.DigitRoundTrip | src/bin/25.rs:46-48 | Displaying a digit and parsing the character gives the digit back; a character that parses displays back as itself |
| Snafu.ParseLine | src/bin/25.rs:22-24 | A line parses exactly when every character is a digit character, giving one digit per character in order |
| Snafu.DisplaySnafu | src/bin/25.rs:46-49 | One character per digit, in order, each the display character of its digit |
| Snafu.DisplayParseRoundTrip | src/bin/25.rs:46-49 | Parsing a displayed SNAFU number gives back its digits |
| Snafu.SnafuIsHorner | src/bin/25.rs:26-28 | The place-value sum with the last digit least significant equals most-significant-first Horner evaluation |
| Snafu.ReverseValue | src/bin/25.rs:43 | Reversing least-significant-first digits gives digits whose place-value sum is the same number |
| Snafu.DecimalToQuinary | src/bin/25.rs:30-34 | Base-5 digits in 0..4, least significant first, that recompose to a positive input and end in a non-zero digit; zero or a negative input gives no digits |
| Snafu.CarryKeepsValue | src/bin/25.rs:39-41 | Lowering a digit by 5 and carrying 1 into the next place keeps the value |
| Snafu.CarryStep | src/bin/25.rs:37-42 | One iteration of the carry loop keeps the value, leaves the digit at the current place in -2..2 and the next one in 0..5, and appends a place only at the top |
| Snafu.QuinaryToSnafu | src/bin/25.rs:36-44 | The output has the input's length or one more; on base-5 input every output digit is in -2..2 and the output, read most significant first, has the input's value |
| Snafu.EncodeSnafu | src/bin/25.rs:55 | Round trip: converting a non-negative total to base 5 and then to SNAFU gives SNAFU digits that decode to the total |

## Left out

- Reading the input file, printing, and every `main`: these are I/O. The final answer formulas in `main` are left out too, such as the password of day 22 and the sum of signal strengths on day 10.
- The parsers built on `nom` or `regex` are thin layers over library combinators whose code is not part of this model. They occur on days 7, 11, 13, 15 and 21, in `parse_move_instruction` on day 5, and in `parse_input` on day 23. Each model starts from the parsed values.
- These hand-written input readers are also left out, as input handling outside the puzzle logic:
  - `parse_map` on days 12 and 24, including the detection of the start and end cells on day 12;
  - `parse_position` on day 18;
  - `parse_coordinate`, `parse_path` and `with_walls` on day 14;
  - `parse_map_row`, `parse_movements` and `parse_input` on day 22;
  - the round parsers `parse_to_round_data`, `parse_round_as_two_shapes` and `parse_round_as_shape_and_result` on day 2.
- Days 16 and 19 are exhaustive branch-and-bound searches. Their only contract is "the optimum", and they have no local invariant worth stating.
- `shortest_route` on day 24 is the interleaved multi-entry search of that puzzle. Only its helpers are modelled: `move_in_direction`, `neighbours` and `add_time_dimension`.
- The day 17 drivers `simulate_drop`, `height_after_n_drops_naive`, `height_after_n_drops_short_circuit` and `state_key` are left out. The short circuit trusts hashed state snapshots to detect a cycle, which the code does not establish.
- RocktrisInvariant.ApplyMovementKeepsValid: the invariant is proved for chambers at least 6 wide, so that a new rock fits beside the wall. The solver uses width 7.
- The diagonal sweep of day 15 is left out: `find_a_point_not_covered_by_constraints` and `values_not_covered_by_sorted_ranges`. Its parity decoding and bound arithmetic are not stated precisely enough to verify.
- The side length of the day 22 cube is computed with an `f64` square root. The model takes it as a parameter instead: CubeNet.FoldNet and the cube walker receive n. Like the source, the fold does not check that all six faces were found, so the contract allows a face that was never copied.
- The mixing loop and the grove coordinates of day 20 live in `main`, which is left out. The linked-list operations it calls are modelled.
- Machine integers are not modelled outside day 21. `usize` and `isize` are unbounded `nat` and `int`, so the `checked_*` overflow panics of day 21's second version are absent. Rust's `rem_euclid` agrees with Dafny's `%`.
- MonkeyMath.BinarySearchForEquality: the result is proved only when the root comparison has the shape the search is built for. That shape runs from one ordering, through Equal, to the other as the human's number grows, and the evaluation does not panic for any number below twice the end of the Equal run. For other comparison functions the source may loop forever or panic, and the model requires the shape. The end of the Equal run must also be at most 2^62, so that the midpoint sum `lo + hi` fits a `usize`; the overflow above that is not modelled.
- Crates.CrateAt and Crates.AddLine require a line whose length is 3 modulo 4, so that every slot's slice is in range. The panic on any other line is modelled once, as Crates.ParseCrates rejecting the drawing.
- LinkedList.ShiftNode requires at least two nodes. For a file with a single number, `shift_node` reduces the shift with `rem_euclid(0)` and panics (src/bin/20.rs:31); for an empty file `len() - 1` underflows. Neither crash is modelled.
- Monkeys.Turn, Monkeys.TakeTurn, Monkeys.RoundFrom, Monkeys.Simulate and the lemmas about them require `Troop(rules)`: every modulus is positive and every target is another monkey in range. On a zero modulus the source panics at `item % self.modulus` (src/bin/11.rs:49), on an out-of-range target it panics at `monkeys[target]` (src/bin/11.rs:137), and a monkey throwing to itself never finishes its turn. These crashes come from the parsed input and are not modelled.
- Cubes.BoundingBox, Cubes.BoundingBoxTight and Cubes.ExteriorSurfaceArea require at least one cube. On an empty droplet the source panics at `min().unwrap()` (src/bin/18.rs:28); that crash is not modelled.
- MonkeyMath.Evaluate, Polynomials.EvaluateMonkey and the members built on them require `WellFounded(monkeys, rank)`: no monkey's definition depends on itself. On a cyclic definition the source recurses until the stack overflows (src/bin/21.rs:42-52 and src/bin/21a.rs:109-119); that crash is not modelled.
- Elves.FirstStillRound: the second part's loop runs until no elf moves. The model bounds the number of rounds with a fuel parameter and answers None when the fuel runs out.
- Parsing.ParseNat: the overflow error of `str::parse` is absent because integers are unbounded.
- Sand.PointToFallTo: on day 14 the down-left candidate of a grain in column 0 is `x - 1` in `usize`. A debug build panics there. A release build wraps to a column no row has, so that cell never holds air. The model treats the candidate as missing, which agrees with the release build.
- Trees.VisibleCount and Trees.MaximumScenicScore require a non-empty rectangular grid. The source reads the length of row 0 and takes the maximum of a non-empty iterator.
