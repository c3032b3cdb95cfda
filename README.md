# Tic-tac-toe on an n × n board: game classes and computer player

This project models the core of a Python tic-tac-toe game played on a square board with a
configurable win condition, written in Dafny, and proves properties of that model. The model
covers:

- the value validators of `common_functions.py`;
- the game classes `Cell`, `Player`, `Board` and `Game` (`game_classes/`). Their validating
  property setters become methods that either store a value or raise an exception;
- the computer player of `computer_player.py`. It covers who moves next, the heuristic that
  proposes candidate moves, the depth-bounded minimax search and the move `autoturn` picks.

Modules follow the source files:

| module | file | form |
|---|---|---|
| `PyValues` | (shared) | the Python values the setters inspect (`int`, `bool`, `str`, `None`, tuples, lists) and `Outcome`, which is a returned value or a raised exception |
| `CommonFunctions` | `common_functions.py` | methods with the source's flag-clearing loops, proved equal to specification functions |
| `Cells` | `game_classes/cell.py` | class `Cell` |
| `Players` | `game_classes/player.py` | class `Player` |
| `Boards` | `game_classes/board.py` | class `Board`, which holds a map of `Cell` objects, plus `Snapshot`, the value a board denotes |
| `Games` | `game_classes/game.py` | class `Game` |
| `StableSort` | `computer_player.py:71` | Python's stable `sorted(..., reverse=True)` by a key |
| `ComputerPlayer` | `computer_player.py` | methods with the source's loops, proved against functions on board values |

The search works on board values. `minimax` rebuilds a board from its string form, and every
child it plays on is a copy, so the model's search works on `Snapshot` values.
`Board.State()` connects each `Board` object to its value.

### Behaviour of the code worth noting

- `autoturn` picks at random only when every candidate's score ties. Otherwise it returns the
  first candidate with the best score.
- With no candidates, `max([])` or `min([])` raises ValueError.
- `get_possible_combos` can return an empty list. This happens exactly when no filled cell has
  an empty neighbour.
- `single_turn` calls `player.put_mark`, whose definition in `Player` is commented out. See
  "Findings".

## Model

| member | source | states |
|---|---|---|
| CommonFunctions.IntAccepted | common_functions.py:26-43 | `int_verification` raises exactly when a maximum is given and the value is not an int instance, and the exception is TypeError |
| CommonFunctions.IntVerification | common_functions.py:26-43 | The method's answer is `IntAccepted`: True exactly for a non-negative int instance (bools included) that does not exceed the maximum, when one is given |
| CommonFunctions.IntVerificationBounds | common_functions.py:26-43 | Without a maximum it never raises and accepts exactly the non-negative int instances. With a maximum and an int instance it accepts exactly 0 ≤ v ≤ maximum |
| CommonFunctions.TupleAccepted | common_functions.py:5-23 | `tuple_verification` raises only TypeError: for a non-iterable value, or when an item's check raises |
| CommonFunctions.TupleVerification | common_functions.py:5-23 | The loop's answer is `TupleAccepted`: True exactly for a tuple of `length` items that all pass `int_verification` |
| CommonFunctions.TupleVerificationRejectsShape | common_functions.py:5-23 | A value that is not a tuple, or is a tuple of the wrong length, is never accepted |
| CommonFunctions.DefaultTupleVerification | common_functions.py:5-23 | The default call accepts exactly a pair of non-negative int instances, and never raises for a tuple |
| Cells.NameAccepted | game_classes/cell.py:32-44 | The `name` setter raises only TypeError (the value is not iterable) or ValueError (the item test fails) |
| Cells.NameAcceptedExactly | game_classes/cell.py:32-44 | The names accepted are exactly the pairs of non-bool ints and the iterables with no items. The test sits inside the loop, so the setter lets an empty iterable through |
| Cells.Cell.constructor | game_classes/cell.py:20-22 | A new cell stores its name and reads `' '` |
| Cells.Cell.GetMarkMeaning | game_classes/cell.py:62-70 | `get_mark` reads `' '` exactly when the slot is empty (or holds `' '` itself), and otherwise reads the stored mark |
| Cells.Cell.SetName | game_classes/cell.py:32-44 | The outcome is `NameAccepted(name)`. The name changes only on success, and the mark never changes |
| Cells.Cell.SetMark | game_classes/cell.py:46-60 | Succeeds iff the mark is None or the cell reads `' '`. On success it stores the mark; on refusal the cell keeps its non-empty mark. The name never changes |
| Players.Player.constructor | game_classes/player.py:16-18 | A new player stores its name and has no mark |
| Players.Player.SetName | game_classes/player.py:28-38 | Succeeds iff the value is a str, which is stored unchanged. Otherwise ValueError, and the old name stays |
| Players.Player.SetMark | game_classes/player.py:56-67 | Succeeds iff the value is a str or None, which is stored. Otherwise ValueError, and the old mark stays |
| Boards.RowMajor | game_classes/board.py:28-31 | The cell dictionary's iteration order holds exactly the board's positions |
| Boards.RowMajorStartsAtOrigin | game_classes/board.py:28-31 | The dictionary order starts at cell (0, 0) |
| Boards.GridCard | game_classes/board.py:28-31 | A board of size n has exactly n² positions |
| Boards.FreshIsConsistent | game_classes/board.py:23-31 | A new board is valid and has n² cells, all empty. Its counter, 0, agrees with the cells. Its condition is the requested one clamped to the size |
| Boards.Board.constructor | game_classes/board.py:23-31 | The constructed board is valid, and its value is the fresh board with condition `min(condition, size)` |
| Boards.Board.AddRow | game_classes/board.py:29-31 | One pass of the inner loop adds an empty cell, named by its position, for each column of the row |
| Boards.Board.AddCell | game_classes/board.py:30-31 | A new cell named (i, j) is filed, and no other field changes |
| Boards.Board.SetSize | game_classes/board.py:41-51 | Succeeds iff the value is a positive int, which is stored. Otherwise ValueError, and nothing changes |
| Boards.Board.SetCondition | game_classes/board.py:61-76 | Succeeds iff the value is a non-negative int. It then stores `min(condition, size)`, which is at most both. Otherwise ValueError |
| Boards.Board.SetFilledCells | game_classes/board.py:86-97 | Succeeds iff the value is an int in [0, size²]. A value that is not a number raises TypeError and a bool or out-of-range int raises ValueError. Validity is kept, and only the counter changes |
| Boards.Board.SetCell | game_classes/board.py:107-113 | The cell is filed under its own name, and nothing else changes |
| Boards.WinCombo | game_classes/board.py:115-159 | A game-over answer that is not a draw names the cell's own mark |
| Boards.Board.CheckWinCombo | game_classes/board.py:115-159 | The answer is a win for the cell's mark iff some row, column or diagonal through the cell holds `condition` consecutive cells reading that mark. Otherwise it is a draw iff the counter equals the number of cells, else "go on". It modifies nothing |
| Boards.Board.ScanLines | game_classes/board.py:129-154 | The loop ends with a win iff a winning run through the cell exists |
| Boards.Board.CountStep | game_classes/board.py:130-149 | Each of the four counters becomes its line's run length ending at the current index, including the diagonal bounds tests |
| Boards.Board.ReadsLine | game_classes/board.py:130-149 | Index t of a line matches iff that position has a cell reading the mark. The run grows by one on a match and resets to 0 otherwise |
| Boards.StreakIsRun | game_classes/board.py:130-154 | Every index a counter has counted matches the mark |
| Boards.WinFromStreak | game_classes/board.py:150-154 | A counter that reaches the condition shows a winning run |
| Boards.SomeStreakWins | game_classes/board.py:150-154 | The `max(...) >= condition` test passing shows a winning run |
| Boards.RunGivesStreak | game_classes/board.py:129-154 | A run is seen by the counter at its end |
| Boards.NoRunWhenQuiet | game_classes/board.py:129-154 | If no counter ever reaches the condition, there is no winning run, so the loop misses no win |
| Boards.RowRunWins | game_classes/board.py:130-133 | `condition` matching cells in a row make a win at every cell of that row |
| Boards.Play | game_classes/game.py:131-146 | A turn on a board value keeps the size, the condition and the set of positions. The counter-overflow ValueError is not modelled here (see Left out) |
| Boards.PlayChangesOneCell | game_classes/game.py:131-146 | A move on an empty cell changes that cell alone and bumps the counter. Any other move changes nothing |
| Boards.PlayKeepsConsistent | game_classes/game.py:139-141 | Marking an empty cell with a real mark keeps the counter equal to the number of non-empty cells |
| Boards.ConsistentRoom | game_classes/game.py:141 | On a consistent board with an empty cell the counter is below size² |
| Boards.FirstWinnerMeaning | computer_player.py:103 | The first winning cell found is filled and wins for its own mark. When none is found, no filled cell of the list wins |
| Boards.Terminal | computer_player.py:103 | The model's own definition of the zero-argument `check_win_combo()` that the search calls, which the source does not show: `(True, mark)` for the first filled cell in dictionary order that wins under `check_win_combo(cell)`, else `(True, '-')` when the counter equals the number of cells, else `(False, '-')`. Its contract states that a board that is not over answers `'-'`, and that a winner's mark is read by some cell |
| Boards.TerminalMeaning | computer_player.py:103-106 | A board that is over with a winner has a filled cell that wins for that mark. A board that is not over has no winning cell and a counter short of the number of cells |
| Boards.CornerWinIsTerminal | computer_player.py:103-106 | A board whose cell (0, 0) wins is over, won by that cell's mark |
| Boards.StateIsValid | game_classes/board.py:23-113 | A board that keeps the setters' invariant denotes a valid board value |
| Games.SettersAcceptExactly | game_classes/game.py:58-114 | `state` accepts exactly 0 and 1, and `curr_turn` exactly None, 0 and 1 (each also as the equal bool) |
| Games.Game.constructor | game_classes/game.py:26-30 | A new game has no board, state 0, the given players and no turn |
| Games.Game.SetState | game_classes/game.py:58-68 | Succeeds iff the value is 0 or 1, which is stored. Otherwise ValueError. No other field changes |
| Games.Game.SetPlayers | game_classes/game.py:78-94 | Succeeds iff the list has two items that are both Players, which are stored. Otherwise ValueError, and the old list stays |
| Games.Game.SetCurrTurn | game_classes/game.py:104-114 | Succeeds iff the value is None, 0 or 1, which is stored. Otherwise ValueError |
| Games.Game.CreateBoard | game_classes/game.py:116-129 | Succeeds iff size > 0 and condition ≥ 0, with a fresh valid board whose condition is `min(condition, size)`. Otherwise ValueError, and the old board stays |
| Games.MarkEmptyCell | game_classes/game.py:140 | The mark goes on that cell alone. Every other cell reads as before, and the board stays valid |
| Games.Game.SingleTurn | game_classes/game.py:131-146 | Without a board: AttributeError. The answer is True iff the cell exists and was empty, and the board's new value is that move played. When the counter is already at size² it raises ValueError after the mark is placed |
| Games.Game.StartGame | game_classes/game.py:148-161 | Raises iff the board cannot be created. Otherwise: a fresh valid board, state 0, 'o' for the other player, 'x' for the first (unless both entries are one Player), and it returns the first player's index |
| Games.Game.AssignMarks | game_classes/game.py:157-158 | 'x' goes to the first player, then 'o' to the other, and the names are kept |
| Games.OthersDiffer | game_classes/board.py:28-31 | Each position of a valid board holds its own Cell object, so marking one cell cannot change another |
| Games.PlayAllKeepsConsistent | game_classes/game.py:131-146 | Any sequence of turns with real marks keeps the counter equal to the number of marked cells |
| Games.TurnsKeepCounter | game_classes/game.py:131-146 | From a fresh board, any sequence of turns keeps the counter consistent and the board well formed |
| Games.ConsistentTurnDoesNotOverflow | game_classes/game.py:141 | On a consistent board the counter increment stays within size², so the `filled_cells` setter does not raise |
| Games.SingleTurnAsWritten | game_classes/game.py:138-146 | As written, `single_turn` never returns True |
| Games.AsWrittenFirstMoveRaises | game_classes/game.py:140 | As written, the first move on any board raises AttributeError |
| Games.RowWinExample | game_classes/board.py:115-159 | Three 'x' marks in row 0 under condition 3 make `check_win_combo` report a win for 'x' at the last cell, and the board is over, won by 'x' |
| ComputerPlayer.GameResult | computer_player.py:18 | An 'x' win scores 1 and an 'o' win -1. Anything else, including a draw, scores 0 |
| ComputerPlayer.GetPlayer | computer_player.py:22-35 | The mover is 'x' or 'o' |
| ComputerPlayer.GetPlayerAlternates | computer_player.py:22-35 | On an alternating board, the mover's mark on an empty cell gives an alternating board where the other mark moves |
| ComputerPlayer.FreshBoardXMovesFirst | computer_player.py:22-35 | On an empty board 'x' moves first |
| ComputerPlayer.Surround | computer_player.py:54-58 | The `surrounding` dict holds exactly the directions whose neighbour has a cell |
| ComputerPlayer.SurroundingMembers | computer_player.py:54-58 | A direction is in `surrounding` iff it is one of the eight and its neighbour is on the board |
| ComputerPlayer.Walk | computer_player.py:61-69 | The `while` walk adds `DirPotential` to the potential |
| ComputerPlayer.DirPotentialOfRun | computer_player.py:60-69 | A run of exactly r ≥ 1 matching cells beside the cell adds r + 1 (the first test counts the neighbour, then each step); a non-matching neighbour adds 0 |
| ComputerPlayer.CellPotential | computer_player.py:61-69 | The walks over every direction of `surrounding` sum to the cell's potential |
| ComputerPlayer.ScoreCell | computer_player.py:49-70 | A cell gets an entry, holding its potential, iff it is filled and some neighbour reads `' '` |
| ComputerPlayer.ScoreCells | computer_player.py:48-70 | The first loop builds the `result` dict over the cells in dictionary order |
| ComputerPlayer.ScoredMembers | computer_player.py:48-70 | Exactly the qualifying cells get an entry, and each entry holds that cell's potential |
| ComputerPlayer.ScoredInStep | computer_player.py:48-70 | Scoring one more cell appends its entry, if it has one |
| ComputerPlayer.ScoredEmptyIff | computer_player.py:48-70 | The `result` dict is empty iff no filled cell has an empty neighbour |
| ComputerPlayer.AtLeastMembers | computer_player.py:80 | The filter keeps exactly the entries at or above the limit |
| ComputerPlayer.RetainedMembers | computer_player.py:82 | The retained entries come from the sorted list, and some are retained whenever that list is non-empty |
| ComputerPlayer.RetainedRule | computer_player.py:71-82 | The sort is a permutation into descending order that keeps ties in row-major order. With more than five entries at or above 3, exactly those are retained. Otherwise the first five (or all) are retained, and none has a lower potential than an entry left out |
| ComputerPlayer.SortFacts | computer_player.py:71 | The sort keeps the items, orders them by descending potential and keeps equal potentials in order |
| ComputerPlayer.RetainedOfSorted | computer_player.py:79-82 | On any sorted list with the same entries, the retention rule holds as in `RetainedRule` |
| ComputerPlayer.EmptyNeighboursMembers | computer_player.py:89-92 | The inner loop collects exactly the neighbours that have a cell reading `' '` |
| ComputerPlayer.GatherEmpty | computer_player.py:88-92 | The second loop collects the empty neighbours of every retained cell, in order |
| ComputerPlayer.GatheredMembers | computer_player.py:88-92 | A position is gathered iff it is an empty neighbour of some retained cell |
| ComputerPlayer.DedupMembers | computer_player.py:94 | `list(set(...))` keeps exactly the gathered positions, with no repeats |
| ComputerPlayer.GetPossibleCombos | computer_player.py:38-95 | The method's result is `Candidates`, the value the lemmas below describe |
| ComputerPlayer.CandidatesSound | computer_player.py:38-95 | Every candidate is an empty cell on the board next to a filled cell, and no candidate repeats |
| ComputerPlayer.CandidatesEmptyIffScored | computer_player.py:38-95 | There are candidates iff some cell was scored |
| ComputerPlayer.CandidatesEmptyIff | computer_player.py:38-95 | There are no candidates iff no filled cell has an empty neighbour |
| ComputerPlayer.OpenBoardHasCandidate | computer_player.py:119 | A board that is not over, has a filled cell and has a consistent counter has a candidate move |
| ComputerPlayer.FoldBounds | computer_player.py:116-126 | Folding with max (or min) gives a value no worse than the start or any item, and equal to one of them |
| ComputerPlayer.FoldFromStart | computer_player.py:118-126 | From the infinity start, no scores give the start value back. Otherwise the fold is one of the scores, and real scores give a real score |
| ComputerPlayer.FoldSnoc | computer_player.py:125-126 | Folding one more score combines it with the fold so far |
| ComputerPlayer.MinimaxInRange | computer_player.py:100-136 | The search's value lies between the two infinities |
| ComputerPlayer.ChildScoresInRange | computer_player.py:119-123 | Every child value lies between the two infinities |
| ComputerPlayer.ChildScoresAt | computer_player.py:119-123 | The k-th child value is the search on the board after the k-th move |
| ComputerPlayer.ChildScoresStep | computer_player.py:119-123 | The child values of one more move are the earlier values followed by its value |
| ComputerPlayer.MinimaxStops | computer_player.py:103-109 | A terminal board scores its winner (0 for a draw). Once the incremented depth reaches 4, a board that is not over scores 0 |
| ComputerPlayer.MinimaxUnfolds | computer_player.py:110-136 | Below the cutoff, the value is the max ('x' to move) or min fold of the candidates' child values |
| ComputerPlayer.FoldOfChildren | computer_player.py:116-126 | No child beats the fold, some child attains it, and with no moves the start value comes back |
| ComputerPlayer.MinimaxIsExtremal | computer_player.py:110-136 | Below the cutoff, the value is the best child for the mover: no child is better and one attains it. With no candidates, the infinity start value is returned |
| ComputerPlayer.MinimaxIsScore | computer_player.py:100-136 | On a consistent board with a filled cell and real player marks, the value is a real score in [-1, 1] |
| ComputerPlayer.ChildIsScore | computer_player.py:119-123 | Each child of such a board has a real score |
| ComputerPlayer.Minimax | computer_player.py:100-136 | The method's result is `MinimaxValue`, the value described by the lemmas above |
| ComputerPlayer.Descend | computer_player.py:110-136 | Below the cutoff, the candidates are `get_possible_combos` and the value is their child values folded from the mover's infinity |
| ComputerPlayer.FoldCandidates | computer_player.py:110-136 | With the mover's mark and `max`/`min` taken from `get_player`, the value is the fold of the given moves' child values from the mover's infinity |
| ComputerPlayer.FoldChildren | computer_player.py:118-126 | The loop's `value` is the max or min fold of its moves' child values |
| ComputerPlayer.FoldChildrenStep | computer_player.py:125-126 | One more loop iteration combines the fold so far with the new child's value |
| ComputerPlayer.ChildSearch | computer_player.py:120-123 | One iteration plays the mover's mark on a copy and searches one level deeper |
| ComputerPlayer.Test | computer_player.py:177-180 | `test` scores a move as player 2's mark played, then searched from depth 0 |
| ComputerPlayer.ScoresOf | computer_player.py:165 | The list of scores has one item per result, in order |
| ComputerPlayer.Extreme | computer_player.py:165 | `max`/`min` of a non-empty list is one of its items and no item beats it |
| ComputerPlayer.CountScore | computer_player.py:166-167 | The count of results with the target score equals the length iff every result has it |
| ComputerPlayer.FirstIndex | computer_player.py:171-173 | The index found holds the target score, and no earlier entry does |
| ComputerPlayer.SelectPicksExtremal | computer_player.py:159-174 | Raises ValueError iff there are no results. Otherwise it returns a result with the best score for the mover: the first such result, or the randomly picked one when all scores tie |
| ComputerPlayer.SelectMove | computer_player.py:159-174 | The selection loop's answer is `Select` |
| ComputerPlayer.TestedAt | computer_player.py:147-155 | The k-th result is the k-th combo with its `test` score |
| ComputerPlayer.TestedStep | computer_player.py:147-155 | The results of one more combo are the earlier results followed by its entry |
| ComputerPlayer.TestAll | computer_player.py:145-155 | Every combo is scored by `test`, and the results are collected in start order |
| ComputerPlayer.TestedPicksBest | computer_player.py:159-174 | The selected move is one of the scored moves, and its score is the best for the mover among them. It raises only when there are none |
| ComputerPlayer.AutoTurn | computer_player.py:139-174 | The answer is `AutoTurnChoice` on the board's value and the players' marks |
| ComputerPlayer.AutoTurnOn | computer_player.py:139-174 | The same answer, on a board value |
| ComputerPlayer.AutoTurnOpening | computer_player.py:141-142 | On an empty board the answer is the middle cell, (4, 4) for size 10, without any search |
| ComputerPlayer.AutoTurnPicksBestCandidate | computer_player.py:143-174 | Otherwise it raises iff there are no candidates. It returns a candidate whose `test` score is best for the mover among all candidates, and the randomly picked candidate when all scores tie |
| ComputerPlayer.CandidateScoresReal | computer_player.py:177-180 | On a consistent board with real marks, every candidate's `test` score is real, never an infinity |
| StableSort.InsertDescPermutes | computer_player.py:71 | Inserting one item adds it and keeps every other item |
| StableSort.SortDescPermutes | computer_player.py:71 | `sorted` is a permutation |
| StableSort.InsertKeepsSorted | computer_player.py:71 | Inserting into a descending list keeps it descending |
| StableSort.SortDescSorted | computer_player.py:71 | `sorted(..., reverse=True)` gives descending keys |
| StableSort.InsertWithKey | computer_player.py:71 | Inserting an item changes only the items with its key, and puts it ahead of them |
| StableSort.SortDescStable | computer_player.py:71 | The sort is stable: items with equal keys keep their original order |

## Left out

- The interface (`interface_classes/`, `events.py`, `main.py`, `run_game.py`, `config.py`) is not part of this model. Neither are logging and `print` calls.
- Concurrency: `autoturn` runs one process per candidate and reads their results off a queue. The model scores the candidates in the order they were started. The order in which processes finish is not modelled.
- Randomness: `random.randint` in `start_game` and `autoturn` becomes a parameter (`first`, `pick`).
- The `datetime` timing in `autoturn`, the `lru_cache` memoisation of `minimax` (a cache does not change a pure function's value) and the commented-out `numba` decorator are left out.
- Floating point: the search's start values `-math.inf` and `math.inf` become -2 and 2, which lie below and above every score.
- ComputerPlayer.DedupMembers: `list(set(...))` has hash order. `Dedup` keeps first occurrences, and the contracts state only membership and the absence of repeats.
- The `Board` methods that `minimax` and `test` call are not part of this model: `fill_cells`, `copy`, `__str__`, `single_turn` on a board and the zero-argument `check_win_combo`. `Play` and `Terminal` give them their evident meaning on board values. Their definitions are documented in boards.dfy.
- Boards.Play: does not model the ValueError that the `filled_cells` setter raises in `single_turn` when the counter already reads size² (game_classes/game.py:141). On such a board `Play` leaves the counter at size² + 1. Every board that turns produce from a fresh board has a counter that agrees with its cells (`Games.TurnsKeepCounter`). On such boards `Games.ConsistentTurnDoesNotOverflow` proves the increment stays within size². `Games.Game.SingleTurn` does model the raise.
- Cells.Cell.constructor, Players.Player.constructor, Boards.Board.constructor, Games.Game.constructor: these require arguments their setters accept. The raising paths are modelled by the setter methods themselves.
- The `board` setter of `Game` is a plain assignment and is modelled by the field.
- Games.Game.SingleTurn: models `put_mark` as `cell.set_mark(player.mark)`, its commented-out definition. `SingleTurnAsWritten` models the code as written (see Findings).
- Boards.Board.CheckWinCombo: requires the cell to be one of the board's positions. For another cell the source's dictionary lookup raises KeyError, which is not modelled.
- Board sizes are unbounded integers. The source relies on Python's arbitrary-precision int as well.
- The `__main__` demonstration at the end of `computer_player.py`, and the commented-out code throughout, are not modelled.

## Findings

| source | as written | input that shows it | evidently intended | confidence | as-written member | corrected member |
|---|---|---|---|---|---|---|
| game_classes/game.py:140 | `single_turn` calls `player.put_mark(cell)`, but `Player` defines no `put_mark` (game_classes/player.py:40-46 is commented out), so it raises AttributeError | any first move on an empty cell of a fresh board, e.g. (0, 0) on a 3 × 3 board | `cell.set_mark(player.mark)`, the body of the commented-out `put_mark`, then the counter increment | not executed | Games.AsWrittenFirstMoveRaises | Games.Game.SingleTurn |
