# Spring Challenge 2023 bot — a verified model of its decision core

The bot (`src/main.rs`) plays the CodinGame "Spring Challenge 2023" game. At start-up it reads a map of hexagonal cells, each holding nothing, eggs or crystals, with up to six neighbours. Each turn it reads the cells' resources and ant counts, builds a snapshot (`AllData`), asks a strategy for a list of actions, and writes them as one line. An action is `LINE <source> <target> <strength>` or `WAIT`.

This project models that decision core in Dafny and proves properties of it:

- **`pathfinder.dfy`** models the brute-force nearest-resource search, `BrutalPathFinder::nearest_element`, and its two wrappers. The search is modelled as written:
  - it is a depth-first recursion;
  - each branch carries its own list of seen ids;
  - the answer's distance is the recursion depth plus one;
  - recursive answers are stable-sorted by distance and then filtered on the cell's amount.

  The proved facts cover:
  - termination, because the unseen part of the finite id set shrinks at every call;
  - what a found answer names;
  - which answer is selected: the first matching neighbour slot; otherwise, on maps whose ids are unique (`PathFinder.NearestFromRecursion`), the recursive answer of least distance with ties going to the earliest slot. Without that assumption, the selection is the earliest least-distance answer among those whose first cell with that id still holds resources (`PathFinder.ChooseSelects`).
- **`sorting.dfy` and `helpers.dfy`** model `sort_immut`. It is a stable ascending sort by amount, specified by an insertion-sort function, followed by a reversal. Both steps are also in-place array algorithms proved equal to their specifications.
- **`model.dfy` and `helpers.dfy`** hold the cell record and the `AllData` counters. They also model the merge step of `update_cellules`, which joins one turn's readings with the start-up cells.
- **`behaviors.dfy`** models every strategy:
  - the stateless ones are functions behind a closed `Strategy` datatype, which stands for the boxed strategy objects;
  - `BasicIA`, which keeps a target between turns, is a class whose methods update that field.
- **`commands.dfy`** models the join of `execute_actions`, with a reader that proves the written line carries exactly the built actions.
- **`game.dfy`** models the turn loop of `main`, whose turn counter starts at 1.

Points of the code's behaviour that a reader might not expect, all modelled as written:

- **The search.** It is a depth-first recursion. Each branch copies its own seen list, and ties are broken by neighbour slot order through a stable sort. The distance it reports is the hop count plus one. The base itself can be answered at a deeper level (`PathFinder.BaseFoundThroughNeighbour`).
- **An empty action list.** It writes an empty line, not `WAIT` (`Behaviors.ExecuteLineReadsBack`).
- **Sentinel checks.** The nest-seeking strategy tests `id > -1`, while the tiered strategy tests `id != -1`.

## Model

| member | source | states |
|---|---|---|
| Model.Lookup | src/main.rs:473-475 | the `find(..).unwrap()` on an id that exists returns a cell of the list with that id |
| Model.LookupAt | src/main.rs:722-725 | the lookup of cell `k`'s id finds cell `k` when no earlier cell shares the id |
| Model.UniqueLookup | src/main.rs:514-517 | with unique ids, the amount `AmountOf` looks up for a cell's id is that cell's amount |
| Model.OfKind | src/main.rs:600-605 | the filter keeps exactly the cells of the kind |
| Model.OfKindCount | src/main.rs:586-612 | the filter keeps every occurrence of each cell of the kind and nothing else, so the counters' `count()` is the number of such cells |
| Model.PositiveOfKindCount | src/main.rs:593-612 | the filter keeps every occurrence of each cell of the kind holding resources and nothing else |
| Model.PositiveOfKind | src/main.rs:607-612 | the filter keeps exactly the cells of the kind with a positive amount |
| Model.Positive | src/main.rs:63-67 | the filter keeps exactly the cells with a positive amount |
| Model.UnknownAntsSumToZero | src/main.rs:566-576 | with every ant count unknown (`None` counted as 0), both insect totals are 0 |
| Sorting.InsertBy | src/main.rs:640-642 | one insertion step of the stable sort adds exactly one element |
| Sorting.SortBy | src/main.rs:640-642 | the stable sort keeps the length |
| Sorting.InsertByPermutation | src/main.rs:640-642 | an insertion step adds exactly the inserted element to the multiset |
| Sorting.SortByPermutation | src/main.rs:640-642 | the sort is a permutation of its input |
| Sorting.InsertByBounded | src/main.rs:640-642 | an insertion step keeps a common upper bound of the keys |
| Sorting.InsertBySorted | src/main.rs:640-642 | inserting into a sorted list keeps it sorted |
| Sorting.SortBySorted | src/main.rs:640-642 | the result is ordered by ascending key |
| Sorting.WithKeyAppend | src/main.rs:640-642 | selecting the elements of one key distributes over concatenation |
| Sorting.WithKeyInsert | src/main.rs:640-642 | an insertion step places the new element after every element of the same key |
| Sorting.SortByStable | src/main.rs:640-642 | elements of equal key keep their input order (stability) |
| Sorting.Reverse | src/main.rs:643 | reversal keeps the length |
| Sorting.ReverseAt | src/main.rs:643 | position `k` of the reversal holds position `len-1-k` of the input |
| Sorting.ReverseMultiset | src/main.rs:643 | reversal is a permutation |
| Sorting.WithKeyReverse | src/main.rs:643 | the elements of one key come out in reverse input order |
| Sorting.WithKey | src/main.rs:640-642 | the selection of one key holds only elements of that key and is no longer than the input |
| Sorting.FirstWhere | src/main.rs:485-489 | `find` gives none exactly when no element passes, otherwise the earliest passing element |
| Sorting.FirstWhereAppend | src/main.rs:511-519 | `find` on a concatenation looks in the second part only when the first has no passing element |
| Sorting.FirstWhereInsert | src/main.rs:509-519 | inserting into a sorted list changes the first passing element only for an earlier-key passing element |
| Sorting.FirstWhereSortBy | src/main.rs:509-520 | the first passing element after the stable sort is the reference scan's earliest least-key passing element |
| Sorting.BestOfIsEarliestMin | src/main.rs:509-520 | the reference scan yields a passing element of least key, the earliest among equal keys, or none when nothing passes |
| Sorting.InsertByAt | src/main.rs:640-642 | an insertion step splices the element in at the position after the last element whose key is not larger |
| Sorting.InsertLast | src/main.rs:640-642 | the in-place step inserts element `i` into the sorted prefix as the insertion function does and leaves the suffix alone |
| Sorting.SortInPlace | src/main.rs:640-642 | the in-place sort leaves the array equal to the stable sort of its old contents |
| Sorting.ReverseInPlace | src/main.rs:643 | the in-place reversal leaves the array equal to the reversal of its old contents |
| Helpers.SortedDescending | src/main.rs:637-645 | `sort_immut`'s result has the input's length |
| Helpers.SortedDescendingSpec | src/main.rs:637-645 | the result is a permutation of the input with non-increasing amounts; cells of equal amount come out in reverse input order |
| Helpers.SortedDescendingMembers | src/main.rs:637-645 | the result holds exactly the input's cells |
| Helpers.SortedDescendingOrdered | src/main.rs:637-645 | the result's amounts never increase |
| Helpers.SortedDescendingFirstIsMax | src/main.rs:637-645 | the first cell of a non-empty result is an input cell holding the largest amount |
| Helpers.SortImmut | src/main.rs:637-645 | cloning, sorting in place and reversing in place gives the specified result; the input is a value and stays unchanged |
| Helpers.UpdateCells | src/main.rs:722-734 | cell `k` of a turn has id `k`, the `k`-th reading's resources and ant counts, and the kind and neighbours of the start-up cell with id `k` |
| Helpers.UpdateCellsDense | src/main.rs:722-725 | when start-up cell `k` has id `k`, the merge pairs reading `k` with start-up cell `k` |
| Helpers.KindCountSplits | src/main.rs:600-612 | the start-up cells of a kind split into those still holding resources and those whose reading shows them emptied |
| Helpers.SumMyAntsZip | src/main.rs:566-570 | the merged cells' insect total is the sum of the ant readings |
| Helpers.DestroyedCountsAfterUpdate | src/main.rs:578-612 | on a turn's snapshot, `DestroyedNestCount` and `DestroyedCrystalCount` are the number of emptied cells of that kind, never negative; `CurrentNestCount` and `CurrentCrystalCount` lie between 0 and `InitialNestCount` and `InitialCrystalCount` |
| Helpers.SumOppAntsZip | src/main.rs:572-576 | the merged cells' opponent insect total is the sum of the opponent ant readings |
| Helpers.InsectTotalsAfterUpdate | src/main.rs:566-576 | on a turn's snapshot `MyTotalInsects` and `EnemyTotalInsects` are the sums of each side's ant readings |
| Helpers.UpdateKeepsIds | src/main.rs:727-734 | a turn's snapshot has the start-up id set, and its ids are unique |
| Helpers.UpdateKeepsNeighbors | src/main.rs:727-734 | every neighbour slot of a turn's snapshot is -1 or the id of one of its cells |
| Helpers.UpdateKeepsGraph | src/main.rs:727-734 | a turn's snapshot keeps the id set, the ids stay unique and every neighbour slot stays valid |
| PathFinder.Unseen | src/main.rs:477-480 | the existing-neighbour list holds exactly the slots that are an edge and not yet seen |
| PathFinder.SeenGrows | src/main.rs:494-504 | the seen list passed to the recursive calls is a strictly larger set, and the unvisited ids strictly fewer (termination) |
| PathFinder.NearestElement | src/main.rs:463-522 | the answer is exactly (-1, -1), or a cell of the kind holding resources at a distance from `iteration + 1` to `iteration` plus the number of unseen ids |
| PathFinder.Answers | src/main.rs:494-505 | one search answer per neighbour, each (-1, -1) or a matching cell within the distance bounds |
| PathFinder.KeepFound | src/main.rs:506 | the filter keeps only answers whose distance is not -1, each taken from the input, and never lengthens the list |
| PathFinder.Explore | src/main.rs:494-507 | the recursive answers kept are at most one per neighbour, each a matching cell within the distance bounds |
| PathFinder.KeepFoundAppend | src/main.rs:506 | the filter of a concatenation is the concatenation of the filters |
| PathFinder.KeepFoundKeeps | src/main.rs:506 | every answer whose distance is not -1 survives the filter |
| PathFinder.KeepFoundOrder | src/main.rs:506 | two surviving answers keep their relative order |
| PathFinder.ExploreKeepsFound | src/main.rs:494-507 | every neighbour whose own search found something has its answer in the list |
| PathFinder.ExploreOnlyFound | src/main.rs:494-507 | every answer in the list found something and is the answer of one of the neighbours |
| PathFinder.ExploreInSlotOrder | src/main.rs:494-507 | an earlier neighbour's found answer comes before a later neighbour's |
| PathFinder.Choose | src/main.rs:509-520 | the selection is (-1, -1) or one of the recursive answers |
| PathFinder.NearestEggs | src/main.rs:448-450 | the egg search from the base gives (-1, -1) or an egg cell holding eggs at a distance from 2 to 1 plus the number of cells |
| PathFinder.NearestCrystals | src/main.rs:452-454 | the crystal search gives (-1, -1) or a crystal cell holding crystals at a distance from 2 to 1 plus the number of cells |
| PathFinder.FirstHitInSlotOrder | src/main.rs:477-489 | the first matching existing neighbour is the first neighbour slot that is an edge, unseen and matching |
| PathFinder.NearestDirectHit | src/main.rs:482-492 | when a neighbour slot is an unseen match, the answer is the first such slot at distance `iteration + 1` |
| PathFinder.ChooseSelects | src/main.rs:509-520 | the selection is (-1, -1) when no answer passes the amount filter, else a passing answer of least distance, the earliest among equal distances |
| PathFinder.ExploreAllPositive | src/main.rs:513-518 | with unique ids every recursive answer passes the amount filter |
| PathFinder.NearestWithoutHit | src/main.rs:493-521 | without a first-level match the answer is the selection among the recursive answers, (-1, -1) when no neighbour is unseen |
| PathFinder.ChooseLeast | src/main.rs:509-520 | when all answers pass the filter, the selection is (-1, -1) exactly for no answers, else the least-distance answer, ties to the earliest |
| PathFinder.NearestFromRecursion | src/main.rs:494-520 | without a first-level match the answer is (-1, -1) exactly when no recursion found anything, else a recursive answer of least distance, ties to the earliest neighbour slot |
| PathFinder.NearestEggsAdjacent | src/main.rs:448-450 | a base next to an egg cell answers the first such neighbour slot at distance 2 |
| PathFinder.TwoCellMapFacts | src/main.rs:473-489 | on the two-cell example map the lookups and the match test give the cells the map lists |
| PathFinder.TwoCellMapSecondLevel | src/main.rs:482-492 | from the neighbour, with the neighbour seen, the base is a first-level match at distance 3 |
| PathFinder.BaseFoundThroughNeighbour | src/main.rs:452-454 | the base, skipped at the first level, is answered through its neighbour at distance 3 |
| Commands.NatToString | src/main.rs:73-78 | the decimal text of a natural number is a non-empty string of digits |
| Commands.IntToString | src/main.rs:73-78 | the decimal text of an integer is non-empty and holds no space and no ";" |
| Commands.DigitsRoundTrip | src/main.rs:73-78 | reading the digits of a natural number gives the number |
| Commands.IntRoundTrip | src/main.rs:73-78 | reading the decimal text of an integer gives the integer |
| Commands.Join | src/main.rs:536 | joining no words gives the empty string; joining words with a non-empty first word gives a non-empty string |
| Commands.SplitNoSep | src/main.rs:536 | a word without the separator splits into itself |
| Commands.SplitPrefix | src/main.rs:536 | splitting a word, the separator and a rest gives the word and then the split of the rest |
| Commands.SplitJoin | src/main.rs:536 | splitting a join gives back the words when no word holds the separator |
| Commands.Render | src/main.rs:157-166 | the text of an action is non-empty and holds no ";" |
| Commands.RenderRoundTrip | src/main.rs:157-166 | reading back the text of an action gives the action |
| Commands.Renders | src/main.rs:536 | one non-empty, ";"-free text per action |
| Commands.Encode | src/main.rs:535-538 | the written line is empty exactly when there are no actions |
| Commands.ParseAll | src/main.rs:536 | a successful reading gives one action per piece |
| Commands.ParseAllRenders | src/main.rs:536 | reading the texts of actions gives the actions |
| Commands.EncodeRoundTrip | src/main.rs:535-538 | reading the written line gives exactly the action list, the empty list included |
| Behaviors.RankedSpec | src/main.rs:108-113 | the filtered and `sort_immut`-ranked cells are exactly the cells of the kind holding resources, with non-increasing amounts |
| Behaviors.ResourceLines | src/main.rs:108-125 | one LINE per cell of the kind holding resources: from the base, with the strength, to a matching cell, and every such cell is reached |
| Behaviors.ResourceLinesOrdered | src/main.rs:108-125 | with unique ids the lines reach cells in order of non-increasing amount |
| Behaviors.LineOrWait | src/main.rs:301-310 | a search answer becomes WAIT exactly when its id is -1, and otherwise a LINE from the base to the found id with the given strength |
| Behaviors.AttrapeToutActions | src/main.rs:107-126 | one LINE of strength 20 from the base per crystal cell holding crystals, reaching every one; empty exactly when there is none |
| Behaviors.AttrapeToutOrdered | src/main.rs:107-126 | with unique ids, the crystal cells targeted come in `sort_immut` order: amounts never increase along the list |
| Behaviors.RechercheNidProcheActions | src/main.rs:148-171 | exactly one action: WAIT when the search finds nothing, the strength-10 LINE to the found egg cell when its id is not negative, any LINE goes to the search's cell; with non-negative ids, WAIT exactly when nothing is found |
| Behaviors.WithEggsFirstActions | src/main.rs:197-236 | before turn 7, one LINE of strength 1 to an egg cell holding the most eggs; later, one LINE of strength 2 per crystal cell holding crystals, reaching every one |
| Behaviors.WithPathFinderActions | src/main.rs:272-385 | 1, 2 or 1 + crystal-cell-count actions by turn tier; the egg and crystal slots are WAIT exactly when their search finds nothing, else LINE with the tier's strength; the late tier's tail is the strength-2 lines |
| Behaviors.BronzeActions | src/main.rs:415-423 | in the nest phase (`NestPhase`: no nest destroyed and fewer than 30 ants), a single action: WAIT when the egg search finds nothing, the strength-10 LINE to the found cell when its id is not negative, and WAIT exactly when nothing is found on maps with non-negative ids; otherwise one strength-20 LINE per crystal cell holding crystals, every such cell reached |
| Behaviors.BronzeOnTurn | src/main.rs:418 | on a turn's snapshot the nest phase (`NestPhase`) holds exactly when no egg cell's reading shows it emptied and my ant readings sum below 30 |
| Behaviors.BuildActions | src/main.rs:532-533 | whatever the strategy, every LINE starts at my base, has positive strength and ends at a cell holding eggs or crystals |
| Behaviors.ExecuteLineReadsBack | src/main.rs:535-538 | the line `ExecuteLine` writes is empty exactly when there are no actions, and reads back as exactly those actions |
| Behaviors.NextTarget | src/main.rs:87-95 | a kept target names a listed cell; a listed target persists; a change happens only when the target is not listed, and picks the first listed cell |
| Behaviors.NextTargetIdempotent | src/main.rs:87-95 | updating the target twice with the same list is updating it once |
| Behaviors.BasicTargetChoice | src/main.rs:62-70 | the target names a cell holding resources, and a newly picked one holds the largest amount |
| Behaviors.ContainsId | src/main.rs:88-90 | the search answers whether some listed cell has the id |
| Behaviors.BasicIA.constructor | src/main.rs:57-59 | the strategy starts with the given target |
| Behaviors.BasicIA.UpdateTarget | src/main.rs:87-95 | the stored target becomes the target-update function of the old target and the list |
| Behaviors.BasicIA.BuildActions | src/main.rs:62-83 | the target is updated from the ranked cells holding resources, and the only action is a LINE of strength 1 to it, to cell 1 when there is none |
| Behaviors.BasicIA.ExecuteActions | src/main.rs:535-538 | the written line reads back as that single LINE |
| Game.TurnLineReadsBack | src/main.rs:33-43 | the line `TurnLine` writes for a turn reads back as the nest-seeking action or the crystal lines, chosen by the turn's readings |
| Game.PlayMatch | src/main.rs:26-44 | one line per turn, the `k`-th written for the snapshot of the `k`-th readings with turn number `k + 1` |

## Left out

- Input parsing (`load_cellules`, `load_index_base`, `load_nombre_de_bases`, the reading half of `update_cellules`, `parse_input!`) is I/O. The model starts from parsed cells and `Reading` triples.
- `println!` in `execute_actions` and every `eprintln!` are output. The model returns the line as a string.
- The `main` loop runs forever. `Game.PlayMatch` plays a finite sequence of turns.
- Integer width is not modelled: the model uses unbounded integers, not 32-bit `i32`, so no overflow or wrap-around occurs in the distance, sums or counts. On real maps these stay far below the limit.
- The search's cost is not modelled: it can take exponential time. The model gives its result and its termination only.
- `BasicIAWithEggsFirst::update_target` is never called; it is not modelled.
- Values that are computed but never used are not modelled: the two search distances and the two insect totals in `BasicIAWithPathFinder`, and the `path_finder` field of `BasicIABronze`.
- `BasicIA` keeps a target between turns, so it is a class outside the `Strategy` datatype, which covers the stateless strategies and Bronze.
- The searches `sort_by` their result vector in place. Because the search is a recursive function, the model uses the stable-sort function `Sorting.SortBy` there; `Sorting.SortInPlace` is proved to compute the same result.
- `Game.PlayMatch`: it requires every neighbour slot of the start-up cells to be -1 or an existing id, and the base to exist, on every turn. The code needs this only on turns where Bronze runs the search, where a missing id would make an `unwrap` panic.
- `Behaviors.BronzeActions`: in the nest phase, WAIT exactly when the search finds nothing is stated only for maps with non-negative ids, for the same reason as the next line; a found cell with a negative id gives WAIT in the code.
- `Behaviors.RechercheNidProcheActions`: WAIT exactly when the search finds nothing is stated only for maps with non-negative ids. Ids are the cell indexes, so this always holds for real input; the code tests `id > -1`.
- `PathFinder.NearestElement`: the model does not claim the answer is a shortest path. The code's per-branch seen lists do not make it one.
