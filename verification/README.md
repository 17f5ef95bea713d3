# Sudoku as a search problem, modelled in Dafny

This project models the pure core of a course project that solves Sudoku with generic
state-space search. The grid is a tuple of 81 cells in row-major order: cell (i, j) is at
index 9i + j, and 0 means blank. The core has three problem formulations and their helpers:

- **`Sudoku` / `RandomizedSudoku`** (module `Sudoku`). An action writes one legal digit into
  one blank cell, and the goal is a grid without blanks. The randomized variant shuffles the
  action list.
- **`FilledSudoku`** (module `Filled`). The constructor fills every blank with the smallest
  digit missing from its 3x3 box. A move is three swaps of two cells, one swap in each of three
  boxes that share a row band, a column stack or a diagonal. `value` counts duplicates in rows
  and columns.
- **`NormalizedSudoku`** (modules `Propagation` and `Normalized`). A cell is a set of
  candidate digits. `normalize_state` propagates every singleton to its row, column and box
  peers until a pass adds no new singleton. An action fixes one undecided cell and
  re-normalizes.
- **Helpers** (modules `Utils` and `Heuristics`): `validate_state`, `count_possibilities`,
  `compact` and the loader's line parse, plus five scalar heuristics over the digit grid.

Two modules hold shared facts. `Seqs` has sums, occurrence counts, repetition-freedom,
order-preserving selection and small cardinality facts. `Grid` has the index geometry of rows,
columns and boxes.

Every operation is modelled on immutable sequences; `normalize_state`, the `FilledSudoku`
constructor and the shuffle are methods with loops. Each operation is paired with the property
that gives it meaning: an iff characterisation of the action lists, a round trip for
`compact`, an invariant for `normalize_state`, and complementarity for the heuristics against
the problem values.

Where the comments in the code and the code disagree, the model follows the code:

- `normalize_state` promises to return `None` on an invalid state but never does. It always
  returns the state after the last pass.
- `NormalizedSudoku.value` says 81 is subtracted, but it is the plain sum of candidate-set
  sizes, so a goal state is worth 81.
- The comment at sudoku.py:216 bounds the conflicts by 324, which would keep
  `FilledSudoku.value` non-negative. The bound needs the premise of the docstring
  (sudoku.py:203-205) that no box repeats a value: each row and column then crosses three
  repetition-free boxes, holds a value at most three times, and gives each cell at most four
  conflicts. Without the premise the bound fails: the grid of 81 ones is worth -972. The
  constructor establishes the premise when no box of the puzzle repeats a given, and every
  move keeps it.

## Model

| member | source | states |
|---|---|---|
| Utils.CountLegalFrom | utils.py:49 | counts the legal digits from d to 9: at most 10 - d, and zero exactly when none of them is legal |
| Utils.CountPossibilities | utils.py:40-49 | the number of digits 1..9 absent from the row, the column and the square is at most 9, and is 0 exactly when no digit is legal |
| Utils.ValidateStateByGroups | utils.py:25-38 | the check as written accepts a grid exactly when every row, column and box either has at most two non-zero entries or repeats no non-zero digit |
| Utils.ConsistentIsAccepted | utils.py:25-38 | the check as written accepts every grid whose rows, columns and boxes repeat no non-zero digit |
| Utils.ValidateStrictIffConsistent | utils.py:33-37 | with the guard corrected, the check accepts exactly the grids in which no two cells of one row, column or box hold the same non-zero digit |
| Utils.TwoEqualGivensAccepted | utils.py:33 | a grid whose first row starts with two 5s is accepted as written, although it is inconsistent and the corrected check rejects it |
| Utils.Compact | utils.py:11-14 | on a digit state the rendering has one character per cell, the decimal digit of that cell |
| Utils.CompactSets | utils.py:12-13 | on a candidate-set state each singleton is rendered as its element and every other cell as '0' |
| Utils.ParseDigits | utils.py:19 | `tuple(map(int, text))` succeeds exactly when every character is a decimal digit, and then yields each digit's value in order |
| Utils.CompactThenParse | utils.py:11-19 | rendering a digit state and parsing the line back, whatever its last character, returns the state |
| Utils.ParseThenCompact | utils.py:11-19 | a line that parses is the rendering of its parse followed by its last character |
| Sudoku.CellActions | sudoku.py:51-56 | the actions of one cell are exactly its legal digits, in ascending order, as many as the cell's legal count |
| Sudoku.ActionsFromFacts | sudoku.py:47-56 | the actions enumerated from a cell on are legal actions of that cell or later ones, in row-major then ascending-digit order, one per remaining possibility of those cells |
| Sudoku.Actions | sudoku.py:46-56 | an action is yielded exactly when its cell is blank and its digit is absent from the row, column and box; cells come in row-major order, then digits ascending; one action per remaining possibility |
| Sudoku.Result | sudoku.py:65-68 | the written cell holds the digit and the other 80 cells are unchanged |
| Sudoku.ResultKeepsConsistent | sudoku.py:47-68 | applying a yielded action to a grid without repeated digits leaves it without repeated digits |
| Sudoku.Value | sudoku.py:79-86 | the value lies in 0..729, is 729 at the goal, and is 729 minus the number of actions |
| Sudoku.Shuffle | sudoku.py:92 | the shuffled list is a permutation of its input |
| Sudoku.RandomizedActions | sudoku.py:90-93 | the randomized actions are a permutation of the actions of `Sudoku.actions` |
| Filled.MissingFrom | sudoku.py:111 | the first digit from d on that the box lacks, with every digit below it present |
| Filled.MinMissing | sudoku.py:110-112 | for a box that still holds a blank, `possibilities[0]` is a digit in 1..9 that the box lacks, and every smaller digit is present |
| Filled.FillStep | sudoku.py:109-112 | one fill step keeps earlier fills the smallest missing digit of their box |
| Filled.FillBoxes | sudoku.py:103-114 | the filled grid has no blank and keeps every given; it is exactly the row-major walk's grid, each blank holding the smallest digit missing from its box as the walk finds the box; boxes free of repeats stay so and hold no value twice once filled, and a repeat-free box of a digit grid becomes a permutation of 1..9 |
| Filled.FillAdvance | sudoku.py:109-112 | writing the smallest missing digit into the next blank extends everything the walk has established to one more cell |
| Filled.WalkAvoidsGivens | sudoku.py:109-112 | a filled blank holds a digit 1..9 different from every given of its box |
| Filled.WalkIncreasesInBox | sudoku.py:109-112 | within a box, the blanks receive strictly increasing digits in row-major order |
| Filled.WalkUnique | sudoku.py:109-112 | the walk leaves no choice: two grids that both follow it from the same puzzle are equal |
| Filled.FilledBoxIsPermutation | sudoku.py:108-114 | a filled box whose digits are distinct holds each of 1..9 exactly once |
| Filled.BlankPositions | sudoku.py:106 | `zip(*np.where(state == 0))` lists exactly the blank cells, in row-major order |
| Filled.NewFilledSudoku | sudoku.py:101-114 | the constructor as written fills the grid by the row-major walk (no blank, givens kept, each blank the smallest digit missing from its box at that point, a box repeating no given holds no value twice, repeat-free boxes of a digit grid become permutations of 1..9) and freezes exactly the blank cells |
| Filled.NewRepairProblem | sudoku.py:101-114 | the corrected constructor fills the grid by the same walk, with the same guarantees, and freezes exactly the given cells |
| Filled.MutableCells | sudoku.py:131-132 | the mutable positions of a box are exactly its cells that are not frozen, in row-major order |
| Filled.CombosMembers | sudoku.py:136 | `combinations(cells, 2)` of an increasing list yields exactly the two-element subsets, smaller cell first |
| Filled.Product3Members | sudoku.py:136 | `reduce(product, [a, b, c])` yields exactly the triples with one element from each list |
| Filled.GroupBoxes | sudoku.py:134-151 | each of the eight groupings names three distinct boxes |
| Filled.CombosOfBox | sudoku.py:132-136 | the swaps offered in a box are exactly the pairs of two distinct non-frozen cells of that box |
| Filled.GroupMovesMembers | sudoku.py:134-154 | the moves of one grouping are exactly the triples with one swap in each of its three boxes |
| Filled.MovesFromMembers | sudoku.py:134-154 | the moves of the groupings from g on are exactly the moves of some grouping from g on |
| Filled.Actions | sudoku.py:130-154 | a move is offered exactly when it is one in-box swap of non-frozen cells in each box of some row band, column stack or diagonal |
| Filled.SwapsFrame | sudoku.py:174-176 | cells no swap touches keep their value |
| Filled.SwapsSwap | sudoku.py:172-176 | with disjoint swaps, each swapped cell receives its partner's original value |
| Filled.Result | sudoku.py:172-178 | untouched cells are unchanged and each swapped cell holds its partner's original value |
| Filled.MoveFacts | sudoku.py:130-154 | an offered move has three disjoint swaps, each of two distinct cells of one box, none frozen |
| Filled.SwapsAreSequential | sudoku.py:172-178 | reading values from the unmodified original equals performing the disjoint swaps one after another |
| Filled.SwapKeepsBoxes | sudoku.py:175-176 | a swap inside one box keeps every box's multiset of digits and the grid's |
| Filled.ResultKeepsBoxes | sudoku.py:172-178 | an offered move keeps the multiset of digits of every box and of the grid |
| Filled.ConflictTerm | sudoku.py:212-215 | a cell's term `count in row + count in column - 2` is non-negative, and zero exactly when its value occurs once in its row and once in its column |
| Filled.GoalIffNoConflicts | sudoku.py:189-196 | the goal test (no repeated value in any row or column) holds exactly when no cell has a conflict |
| Filled.Value | sudoku.py:207-217 | the value is at most 324, equals 324 exactly when no unfrozen cell has a conflict, and is 324 at every goal state |
| Filled.ConflictTermAtMostFour | sudoku.py:212-215 | when no box repeats a value, a cell's conflict term is at most 4 |
| Filled.ValueNonNegative | sudoku.py:203-216 | when no box repeats a value, the conflicts are at most 324 and the value is non-negative |
| Filled.AllOnesValue | sudoku.py:207-216 | without that premise the bound fails: the all-ones grid with nothing frozen is worth -972 |
| Filled.ResultKeepsValueNonNegative | sudoku.py:172-178 | an offered move keeps every box free of repeats, so the value stays non-negative along the search |
| Filled.GroupSwapsIsMove | sudoku.py:130-154 | three pairs of non-frozen cells in the boxes of a grouping form an offered move |
| Filled.GivensSwappedAsWritten | sudoku.py:106 | with the blank cells frozen, three pairs of givens in the boxes of a grouping form an offered move, and applying it overwrites a given with another given's value |
| Filled.RepairKeepsGivens | sudoku.py:106 | with the given cells frozen, no offered move changes a given cell |
| Propagation.ReduceFacts | utils.py:74-75 | reducing a peer by a singleton only removes candidates, never changes a singleton or empties a set, is idempotent, and leaves the singleton no longer strictly inside the peer |
| Propagation.SingletonInsideIff | utils.py:74 | a singleton is not strictly inside a set exactly when the two are disjoint or equal |
| Propagation.ReduceCells | utils.py:73-86 | one reduction loop reduces exactly the listed cells by the singleton and leaves every other cell alone |
| Propagation.Eliminate | utils.py:65-86 | the three loops of one singleton reduce exactly its row, column and box peers, and leave every other cell alone |
| Propagation.EliminateRefines | utils.py:70-86 | one singleton's reductions only shrink cells, keep singletons and keep cells non-empty |
| Propagation.SingletonPositions | utils.py:65 | the pass visits exactly the singleton cells |
| Propagation.SingletonCount | utils.py:64 | the singleton count lies between 0 and 81 |
| Propagation.SingletonCountGrows | utils.py:64-88 | a refinement never lowers the singleton count, and an unchanged count means the same singleton cells |
| Propagation.Pass | utils.py:65-86 | one pass only shrinks cells, keeps singletons and keeps non-empty cells non-empty |
| Propagation.PassSettles | utils.py:65-86 | after a pass, every singleton visited is unchanged and no longer strictly inside any peer |
| Propagation.PassOnStable | utils.py:65-86 | on a state where no singleton is strictly inside a peer, a pass changes nothing |
| Propagation.PassFixpoint | utils.py:88-89 | when a pass adds no singleton, no singleton is left strictly inside any peer |
| Propagation.JustifiedTrans | utils.py:63-89 | removals justified by singleton peers stay justified across further refinement, since those singletons persist |
| Propagation.EliminateSound | utils.py:65-86 | one singleton's reductions remove only its digit and only from its peers, and keep every completed grid without repeats that the state admits |
| Propagation.PassSound | utils.py:65-86 | a pass over singleton cells removes only candidates justified by a singleton peer and keeps every admitted completed grid |
| Propagation.Normalize | utils.py:54-91 | the loop terminates, and the result refines the input: cells only shrink, singletons stay, non-empty cells stay non-empty. No singleton is left strictly inside a peer, and a stable input is returned unchanged, so normalizing is idempotent. Every removed candidate is the digit of a singleton peer in the result, and every completed grid without repeats that the input admits is still admitted |
| Normalized.Initial | sudoku.py:271-272 | blanks start with all nine digits and a given k starts as {k}; a cell is a singleton exactly when it holds a given |
| Normalized.NewNormalized | sudoku.py:268-276 | the initial state has only non-empty cells, each within its starting candidates, every given stays decided, and propagation is complete; every dropped candidate is the digit of a singleton peer, and every solution of the puzzle is still admitted |
| Normalized.Actions | sudoku.py:287-291 | an action is offered exactly when its cell has more than one candidate and its digit is one of them |
| Normalized.Value | sudoku.py:318-324 | the value is the number of candidates, non-negative, and at least 81 when no cell is empty |
| Normalized.GoalIffValue81 | sudoku.py:311-324 | on a grid of non-empty cells, every cell is a singleton exactly when the value is 81 |
| Normalized.RefinesLowersValue | sudoku.py:318-324 | a refinement that strictly shrinks some cell strictly lowers the value |
| Normalized.Result | sudoku.py:293-309 | the chosen cell ends as {k}, other cells only lose candidates, non-empty cells stay non-empty, the result is stable, and an offered action strictly lowers the value; every other dropped candidate is the digit of a singleton peer, and every admitted completed grid with k at (i, j) is still admitted |
| Heuristics.RemainingBlanks | heuristics.py:25-28 | the number of blanks is zero exactly when the digit-assignment goal test holds |
| Heuristics.RemainingPossibilities | heuristics.py:7-15 | the remaining possibilities plus `Sudoku.value` is 729; they are at most nine per blank and zero on a grid without blanks |
| Heuristics.NonInferableCells | heuristics.py:37-51 | the non-inferable cells are at most the blanks, and twice their number is at most the remaining possibilities |
| Heuristics.Pow2 | heuristics.py:22 | a power of two is at least 1, and at least 2 for a positive exponent |
| Heuristics.LineTermsSum | heuristics.py:20-23 | the row terms sum to at least 9, and to exactly 9 precisely when no blank is left |
| Heuristics.RemainingLines | heuristics.py:17-23 | the value is at least 9, and equals 9 exactly when the grid has no blank |
| Heuristics.Conflicts | heuristics.py:53-63 | the conflicts are non-negative and zero exactly when the swap formulation's goal test holds |
| Heuristics.ConflictsBoundValue | heuristics.py:57-63 | the conflicts are at least 324 minus `FilledSudoku.value`, since the value subtracts the same terms over a subset of the cells |

## Left out

- The command-line drivers numero2.py to numero5.py, the file reading, CSV output and timing, and the external search algorithms: these are I/O and foreign code.
- test12.py is an earlier, broken iteration and is not part of this model.
- The file handling of `load_examples`: only the pure line-to-tuple parse is modelled (`Utils.ParseLine`).
- `numpify_state` and other numpy representation details: the model uses flat 81-cell sequences with row, column and box index helpers.
- Sudoku.RandomizedActions: the random source is a parameter `draw`, so the contract states a permutation and not a distribution.
- Sudoku.Shuffle: for the same reason it is stated as a permutation only.
- Normalized.Actions: frozensets have no defined iteration order, so the actions are a set and their enumeration order is not stated.
- Filled.CombosMembers: `combinations` over a Python set follows the set's iteration order; the model lists the mutable cells in ascending order, so each swap has its smaller cell first.
- Filled.Value: the function's own contract gives no lower bound, because the bound of 324 conflicts holds only when no box repeats a value; `Filled.ValueNonNegative` proves it under that premise and `Filled.AllOnesValue` shows it fails without it.
- Heuristics.RemainingBlanks: the lines after the first `return` (heuristics.py:29-35) never run and are not modelled.
- The heuristics take a search node and read `node.state`; the model takes the state.
- `FilledSudoku.path_cost` (sudoku.py:198-199) returns c + 1, a unit step cost, and carries no property of the core.
- `most_constrained_cell` is imported by two drivers but is not defined in heuristics.py, so there is nothing to model.
- The commented-out single-swap `actions` and `result` (sudoku.py:122-126, 160-168) are dead code.
- `np.bincount` raises on negative entries: the validation lemmas require non-negative cells rather than modelling the exception.
- Filled.GivensSwappedAsWritten is stated generically: for every puzzle with two given cells in each box of a grouping, the swap of those givens is an offered move. Any concrete puzzle of that shape, for example one with two givens in each of boxes 0, 4 and 8, is an instance; no single 81-cell grid is spelled out.

## Findings

| source | as written | input that shows it | evidently intended | confidence | as-written member | corrected member |
|---|---|---|---|---|---|---|
| sudoku.py:106 | `initial_positions` collects the cells where `state == 0`, the blanks, so moves avoid the blanks and swap the givens, and `value` skips the blanks | any puzzle with two different givens in each of boxes 0, 4 and 8 (the main-diagonal grouping); the move swapping those pairs is offered and overwrites the givens | freeze the givens (`state != 0`), so that moves only permute the cells the constructor filled | not executed | Filled.GivensSwappedAsWritten | Filled.RepairKeepsGivens |
| utils.py:33 | `np.bincount(x) if len(x)>2 else [0]` skips every group with at most two non-zero entries (same line at sudoku.py:22) | a grid whose first row is 5 5 followed by blanks, everything else blank: accepted | reject every group with a repeated non-zero digit; the guard only has to avoid `bincount` on an empty group | not executed | Utils.TwoEqualGivensAccepted | Utils.ValidateStrictIffConsistent |
