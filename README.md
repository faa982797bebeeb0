# Abalone rules engine and selection model in Dafny

This project models two parts of an Abalone game written in Python: the rules engine in `core/board.py`, and the click-to-select state machine of the user interface in `ui/model/__init__.py`.

The board part is the `Board` class. It loads a board from a row-major layout of integer codes and keeps a lazily built enumeration of `(cell, occupant)` pairs, which every write to an on-board cell invalidates. It answers point queries. It decides whether a move is legal in each of its three shapes:

- a single marble;
- an inline line, which may push, or "sumito", a weaker run of opposing marbles;
- a sidestep.

It scans runs of one colour, applies moves in place (pushing the opposing run first and dropping marbles pushed off the edge), and scores a player by comparing the starting layout with the live board.

The interface part holds an optional selection. Each click starts the selection, re-anchors it, turns it into a proposed move (only when the board says the move is legal), or drops it.

Files, one module each:

| file | module | contents |
|---|---|---|
| `wrappers.dfy` | `Wrappers` | `Option` |
| `hex.dfy` | `Hexes` | axial cells, the six directions, stepping, adjacency, `resolve` |
| `color.dfy` | `Colors` | the two colours, `next`, the integer codes |
| `grid.dfy` | `Grid` | the size-5 hexagon: rows, offsets, containment |
| `selection.dfy` | `Selections` | `Selection` and `Move` with their derived cells, front, back and destinations |
| `occupancy.dfy` | `Occupancy` | cell storage as a map, reads and writes, the enumeration, marble counts |
| `layout.dfy` | `Layouts` | layouts, what loading one yields, code counts |
| `rules.dfy` | `Rules` | legality of the three move shapes, the line scan |
| `effects.dfy` | `Effects` | applying moves, scoring, and what moves do to marble counts and scores |
| `board.dfy` | `Boards` | the `Board` class: the state the Python object mutates, and its methods |
| `model.dfy` | `UiModel` | `select_cell` in closed form, and the `Model` class |

Each imperative Python method is a Dafny method proved against a pure function of the board's contents, for example `Board.ApplySumitoMove` against `Effects.Sumito`. The properties of the game are proved as lemmas about those functions.

The collaborators `Hex`, `HexDirection`, `HexGrid`, `Selection`, `Move` and `Color` live in files that are not part of this model (`core/hex.py`, `lib/hex/hex_grid.py`, `core/selection.py`, `core/move.py`, `core/color.py`). Their Dafny versions follow how `core/board.py` and `ui/model/__init__.py` use them:

- the grid is the hexagon of size `BOARD_SIZE = 5`;
- row `r`'s slots start at axial `q = offset(r) = max(4 - r, 0)`;
- `to_array` lists the cells from `start` to `end` one step at a time, and is empty when the two ends share no axis;
- `get_player` is the occupant of `start`;
- `is_sumito` means an inline move whose front faces a marble of the other colour;
- the colour codes are 1 and 2.

## Model

| member | source | states |
|---|---|---|
| Boards.Board.constructor | core/board.py:44-50 | a new board has every cell empty, no layout and no cached enumeration |
| Boards.Board.Set | core/board.py:238-248 | a write changes exactly that cell when it is on the board and invalidates the cache then; a write off the board changes nothing |
| Boards.Board.CreateFromData | core/board.py:24-42 | the fresh board holds, at `(k + offset(r), r)`, the colour coded by `data[r][k]` or nothing for any other code, elsewhere nothing; its layout is `data` |
| Layouts.Loaded | core/board.py:32-42 | the loaded contents cover the grid, and each cell holds the colour its layout entry codes |
| Layouts.LoadNext | core/board.py:35-41 | storing entry `k` of row `r` extends the loaded prefix by exactly that entry |
| Layouts.LoadedCount | core/board.py:32-42 | a layout that fits the grid loads as many marbles of a colour as it has codes for it |
| Boards.Board.Enumerate | core/board.py:60-72 | returns and caches the full row-major list of cells and occupants, rebuilding when no list or an empty one is cached; the contents do not change |
| Occupancy.EntriesExact | core/board.py:60-72 | the enumeration lists every in-bounds cell exactly once, with its current occupant, and nothing else |
| Boards.Board.CellInBounds | core/board.py:74-78 | true exactly for cells of the hexagon |
| Grid.InBoundsByDistance | core/board.py:74-78 | the cells in bounds are exactly those within BOARD_SIZE - 1 steps of the centre |
| Boards.Board.CellOwnedBy | core/board.py:80-84 | true exactly when the cell is on the board and holds a marble of the player |
| Boards.Board.IsValidMove | core/board.py:86-96 | the verdict is the single rule for a single marble, else the inline rule for an inline move, else the sidestep rule |
| Boards.Board.IsValidSingleMove | core/board.py:120-133 | legal exactly when the cell one step ahead is on the board and empty |
| Boards.Board.IsValidInlineMove | core/board.py:135-156 | the verdict is the inline rule at the move's front for a line of the selection's size |
| Boards.Board.InlineWalk | core/board.py:140-156 | the walk of at most MAX_SUMITO cells ahead of the front returns exactly the closed-form inline rule: the movers outnumber the opposing run, and the cell after it is empty, or off the board after a push |
| Rules.WalkStop | core/board.py:143-149 | a walk that stops on a cell not held by the opponent succeeds exactly when that cell is empty, or off the board after a push |
| Rules.WalkOn | core/board.py:150-154 | an opposing marble at step `i` lengthens the run, and rejects the move once `i` reaches the selection's size |
| Rules.WalkFull | core/board.py:156 | a walk that passes MAX_SUMITO opposing marbles succeeds |
| Rules.InlineVerdict | core/board.py:142-156 | after `i - 1` opposing marbles and a cell that does not oppose, the move is legal exactly when the movers outnumber those marbles and the cell is empty, or off the board after at least one push |
| Rules.InlineVerdictFull | core/board.py:142-156 | with MAX_SUMITO opposing marbles ahead, the move is legal exactly when the line is longer than MAX_SUMITO |
| Rules.OwnMarbleBlocks | core/board.py:148-149 | stepping onto one's own marble, after any opposing ones, is illegal |
| Rules.OutnumberedPushRejected | core/board.py:150-152 | meeting an opposing marble at step `i >= size` is illegal |
| Rules.EqualNumbersCannotPush | core/board.py:150-152 | two cannot push two, and three cannot push three |
| Rules.EmptyAheadLegal | core/board.py:146-147 | reaching an empty cell past a run that the movers outnumber is legal |
| Rules.EdgeVerdict | core/board.py:144-145 | leaving the board is legal exactly after at least one opposing marble that the movers outnumber; a line cannot walk off on its own |
| Boards.Board.IsValidSidestepMove | core/board.py:158-172 | legal exactly when every member's next cell is on the board and empty |
| Boards.Board.ShiftWalk | core/board.py:163-172 | the loop returns true exactly when no listed cell's next cell is off the board or taken |
| Rules.SidestepBlocked | core/board.py:166-170 | a sidestep onto a cell held by either colour, or off the board, is rejected |
| Rules.SingleIsOneCellSidestep | core/board.py:120-133 | the single-marble rule is the sidestep rule for a one-cell selection |
| Boards.Board.GetScore | core/board.py:98-112 | the score is the opponent's codes in the layout minus the opponent's marbles the enumeration lists; the contents do not change |
| Effects.LoadedScoreZero | core/board.py:98-112 | a board freshly loaded from a layout that fits the grid scores 0 for both players |
| Effects.SumitoScore | core/board.py:98-112 | a sumito by a line of one colour, whose pushed run ends at an empty cell or the edge, raises the mover's score by one exactly when the last pushed marble leaves the board, and leaves the opponent's score alone |
| Effects.FirstPushOffScoresOne | core/board.py:98-112 | from a board freshly loaded from a layout that fits the grid, a sumito by a line of one colour that pushes a marble off scores exactly 1 |
| Boards.Board.ApplyMove | core/board.py:114-118 | the new contents are the sumito's effect for a sumito and the base move's effect otherwise |
| Boards.Board.ApplyBaseMove | core/board.py:174-185 | the new contents are every member cleared and then every destination written with the mover's colour |
| Boards.Board.WriteAll | core/board.py:181-185 | each listed cell is written in turn, and cells off the board are left alone |
| Effects.BaseEffect | core/board.py:174-185 | after a base move every destination holds the mover's colour, every member that is not a destination is empty, and every other cell is unchanged |
| Effects.LegalBaseFreesDestinations | core/board.py:174-185 | a legal non-sumito move sends every marble to an on-board cell that is empty or vacated by the move |
| Effects.BaseRoundTrip | core/board.py:174-185 | a base move by a line of one colour into free or vacated on-board cells is undone by moving the destinations back |
| Effects.LegalBaseMoveUndone | core/board.py:114-118 | applying a legal non-sumito move by a line of one colour and then its inverse, both through `apply_move`, restores the board |
| Effects.InverseNotSumito | core/board.py:114-118 | after a base move by a line of one colour whose start cell holds a marble, `apply_move` treats the inverse move as a base move: an inline inverse faces the cell the move vacated |
| Selections.InverseShape | core/board.py:114-118 | the inverse of a move is inline exactly when the move is, and then the cell ahead of its front is the move's back end |
| Boards.Board.SelectMarblesInLine | core/board.py:187-206 | returns the line scan from `start` along the direction |
| Rules.LineSelectionMaximal | core/board.py:187-206 | the scan returns nothing exactly when `start` is empty; otherwise it runs from `start` to the last of a gapless run of `start`'s colour, and the next cell is off the board or holds something else |
| Boards.Board.ApplySumitoMove | core/board.py:208-232 | the new contents are the opposing run pushed one step on, then the base move |
| Effects.PushEffect | core/board.py:214-230 | the push clears the first opposing cell, moves the run one step on, drops a marble pushed off the board, and changes nothing else |
| Effects.SumitoEffect | core/board.py:208-232 | after a sumito the back cell is empty, the mover fills the next `size` cells, the pushed run the `L` cells after where they are on the board, and nothing else changes |
| Effects.SumitoMarbles | core/board.py:208-232 | a sumito by a line of one colour, whose pushed run ends at an empty cell or the edge, keeps the mover's marbles, and loses one opposing marble exactly when the run's tail leaves the board |
| Effects.LegalSumitoPushes | core/board.py:135-156 | a legal sumito by a line of at most MAX_SUMITO marbles pushes at least one and fewer marbles than it moves, and the run ends at an empty cell or the edge |
| Effects.OppRunMatchesRun | core/board.py:196-205 | the inline walk and the line scan count the same opposing run, the walk capped at MAX_SUMITO |
| UiModel.ClickStarts | ui/model/__init__.py:29-35 | without a selection, a click starts the one-cell selection exactly on a marble of the player to move, and never proposes a move |
| UiModel.ClickOffBoardClears | ui/model/__init__.py:37-39 | with a selection, a click off the board drops it and proposes nothing |
| UiModel.ReanchorKeptIffHeld | ui/model/__init__.py:41-51 | a click on a marble of the player to move re-anchors the selection from the old head to that cell, and keeps it exactly when it is 1 to MAX_SELECTION_SIZE cells all of that player |
| UiModel.ClickMoves | ui/model/__init__.py:53-58 | a click one step from the head proposes the move in that direction exactly when the cell is on the board, not the mover's, and the move is legal; the selection is then kept |
| UiModel.ProposedMoveLegal | ui/model/__init__.py:53-58 | any proposed move moves the current selection towards the clicked neighbour of its head, and is legal |
| UiModel.ClickOutcomes | ui/model/__init__.py:28-61 | with a selection, a click either drops it, or re-anchors it onto a marble of the player to move, or proposes a move and keeps it |
| UiModel.ClickKeepsHeld | ui/model/__init__.py:28-61 | a click never turns a held selection, or none, into one that is not 1 to MAX_SELECTION_SIZE marbles of the player to move |
| UiModel.Model.constructor | ui/model/__init__.py:12-18 | a new model holds the given board and player to move, with nothing selected |
| UiModel.Model.SelectCell | ui/model/__init__.py:28-61 | the new selection and the result are those of the closed form; the board and turn are untouched, and a held selection stays held |
| Selections.ToArrayContiguous | ui/model/__init__.py:44 | the assumed contract of `to_array`, whose code is not part of this model: the cells of a selection form an unbroken line, each a neighbour of the one before |
| UiModel.Model.AnyOther | ui/model/__init__.py:48-49 | true exactly when some listed cell's occupant differs from the start's |
| UiModel.Model.ApplyMove | ui/model/__init__.py:63-66 | the selection is dropped, and the move comes back exactly when the game accepted it |

## Left out

- `Board.__str__` (core/board.py:234-236) delegates to a superclass that is not part of this model.
- The `print` at core/board.py:224 is diagnostic output on a branch for pushed cells off the board. That branch is modelled as skipping the cell, since a scanned run lies on the board.
- The in-bounds guards of the sumito's two write loops (core/board.py:223, 229) are not written out. A write off the board changes nothing in this storage model, so they do not change the outcome.
- `HexGrid` storage: a read off the board yields nothing and a write off the board changes nothing. The source leaves the behaviour there to the unseen superclass.
- The enumeration assumes the grid's row storage holds exactly the in-bounds cells, row by row.
- `Game`, `Config` and `GameHistory` are reduced to the game's board and the player to move. `apply_config` (ui/model/__init__.py:68-69) is left out, because it only builds a foreign `Game`.
- UiModel.Model.ApplyMove: the game's verdict and its effect on the board and the turn belong to `Game.apply_move`, which is not part of this model. The verdict is a parameter, and the board and the turn are left unchanged.
- ui/model/__init__.py:57 passes `self.game_turn.value`, an integer, where `is_valid_move` compares cells with a `Color`. The model passes the `Color`. Whether the integer compares equal to a `Color` depends on `core/color.py`, which is not part of this model.
- `select_cell` mutates the existing `Selection` object in place (ui/model/__init__.py:42-43). The model builds the re-anchored selection as a new value, so aliasing of that object, and of the `Move` that holds it, is not captured.
- Boards.Board.GetScore requires a layout. On a board built without one, the source fails when it iterates `None`.
- Effects.LegalSumitoPushes is stated for lines of at most MAX_SUMITO marbles. For a longer line, the walk accepts the move after MAX_SUMITO opposing marbles without looking further (core/board.py:156, `Rules.InlineVerdictFull`). The push can then land on the mover's own marble, and the model reproduces this. The interface never builds such a line, because it caps selections at MAX_SELECTION_SIZE (ui/model/__init__.py:47).
- Effects.BaseRoundTrip, Effects.LegalBaseMoveUndone, Effects.SumitoMarbles and Effects.SumitoScore are stated for a selection whose cells all hold the mover's colour. `is_valid_move` does not check who owns the selected cells (core/board.py:120-172), so a legal move may include an empty or opposing cell. Such a move is not undone by its inverse, and it can change marble counts and scores in other ways. The interface only proposes moves for selections of the mover's own marbles (`UiModel.ClickKeepsHeld`).
- Effects.SumitoMarbles and Effects.SumitoScore also require the pushed run to end at an empty cell or the edge. `Effects.LegalSumitoPushes` shows this holds for legal sumitos by lines of at most MAX_SUMITO marbles.
- Boards.Board.ApplySumitoMove requires a sumito, as the source's docstring demands (core/board.py:212).
- The views (`ui/view/game.py`, `ui/view/board.py`) are drawing and animation only.
