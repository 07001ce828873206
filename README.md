# Minesweeper engine, modelled in Dafny

This project models the game engine of the browser Minesweeper in
`antigravity2/script.js`: the `Minesweeper` class, its board of cell records, and the
handlers that change it. The class keeps the board in an `array2<Cell>` that its
methods update in place. Each method's contract is stated through a ghost field
`cells`, which holds the same board as a value (`seq<seq<Cell>>`).

- `grid.dfy` (module `Grid`) has the cell record, positions, and the sets of mines,
  flags and hidden cells. It also has the brute-force neighbour count. It states each
  board-to-board effect as a relation: one cell replaced, mines added, counts filled,
  cells revealed, flags changed, mines flagged. Next to these are the lemmas about
  them.
- `flood.dfy` (module `FloodFill`) has the predicate `Flood`, which states what one
  call of the recursive `revealCell` does. It also has the lemmas that build `Flood`
  from the eight recursive calls a zero cell makes, and the flood-fill safety theorem.
- `rules.dfy` (module `Rules`) has the session invariant `Session`, broken down by
  game state (before the first click, playing, won, lost). It has one lemma per
  transition of the engine showing that the transition keeps the invariant.
- `minesweeper.dfy` (module `Engine`) has the difficulty table and the class
  `Minesweeper`. Its methods follow the source's methods: `InitGame`, `CreateBoard`,
  `PlaceMines`, `CalculateNeighbors`, `HandleLeftClick`, `HandleRightClick`,
  `RevealCell`, `CheckWin`, `GameOver`, `RevealAllMines` and `FlagAllMines`. The
  loops and the recursion are kept as `while` and `for` loops and a recursive
  method. The class invariant `Valid()` is the `Session` invariant plus three facts:
  the array equals `cells`, the dimensions are a preset, and the timer is consistent.

Math.random is replaced by a parameter `picks: seq<Pos>`. Each pick is the pair of
draws of one attempt of `placeMines`, and each is in range, as `Math.floor(Math.random()
* n)` is. The DOM side effects (element classes, text, modal, face) have no counterpart
in the model. `revealAllMines` only changes element classes, so it is modelled as
returning the marks it would set.

## Model

| member | source | states |
|---|---|---|
| Engine.Preset | antigravity2/script.js:14-18 | The three presets are 9x9 with 10 mines, 16x16 with 40, and 16x30 with 99. |
| Engine.PresetRoom | antigravity2/script.js:14-18 | Every preset has positive dimensions and fewer mines than cells. |
| Engine.Minesweeper.constructor | antigravity2/script.js:20-31 | A new engine is a valid session on the easy preset: every cell is blank, no flag is placed, and the timer is zero and stopped. |
| Engine.Minesweeper.InitGame | antigravity2/script.js:52-72 | After a new game the session is valid. The dimensions and mine count are the chosen preset's. Every cell is unrevealed, unflagged, mine-free and has count 0. flagsPlaced is 0, gameActive and firstClick are set, and the timer is 0 and stopped. |
| Engine.Minesweeper.CreateBoard | antigravity2/script.js:74-107 | A fresh rows x cols array whose every cell is the blank record, equal to the board value. |
| Rules.SessionInit | antigravity2/script.js:63-70 | A blank non-empty board with no flags satisfies the session invariant in the state before the first click. |
| Engine.Minesweeper.StartTimer | antigravity2/script.js:109-115 | The one-second interval is set. |
| Engine.Minesweeper.Tick | antigravity2/script.js:110-114 | One interval tick adds 1 to the timer. It never passes 999, and the interval stays set exactly while the timer is below 999. The session stays valid. |
| Engine.Minesweeper.RemainingMines | antigravity2/script.js:121-124 | The counter is totalMines minus the number of flags actually on the board, whenever the game is not won. It has no lower bound. |
| Engine.Minesweeper.FlagElevenOnEasy | antigravity2/script.js:188-200 | Flags are not capped: on a fresh easy board (10 mines), eleven right clicks on distinct cells flag all eleven, the session stays valid and idle, and the mine counter shows -1. |
| Engine.Minesweeper.PlaceMines | antigravity2/script.js:126-139 | The picks it draws are a prefix of the picks sequence. The mines added are exactly the distinct picked cells other than the safe cell, and no other field of any cell changes. On success exactly totalMines mines are added. If the picks run out first, they were all used and fewer mines were added. |
| Engine.Minesweeper.TryMine | antigravity2/script.js:129-137 | One attempt adds a mine exactly when the drawn cell is neither the safe cell nor already mined. The mine set then grows by that cell and the mine count by one; otherwise nothing changes. |
| Grid.PickedAccount | antigravity2/script.js:134-137 | The rejection rule, stated on sets: after one more pick the mines are still the earlier mines plus the non-safe cells among the picks seen so far. |
| Grid.AddMine | antigravity2/script.js:136-137 | Turning a mine-free cell into a mine adds exactly that cell to the set of mines and adds one to its size. |
| Rules.ArmedByPlacing | antigravity2/script.js:172-173 | placeMines on a mine-free board, keeping the clicked unflagged cell safe, then calculateNeighbors, gives a board with exactly totalMines mines and correct counts. The clicked cell is safe, nothing is revealed, and the flags are those of the board before. |
| Engine.Minesweeper.CountAdjacent | antigravity2/script.js:152-159 | The loop over the eight offsets counts exactly the mines adjacent to the cell, by the brute-force definition, and the count is at most 8. |
| Grid.MinesSeenAll | antigravity2/script.js:142-146 | The eight offsets reach exactly the cells adjacent to a position, so scanning them sees exactly its adjacent mines. |
| Grid.MinesAroundBound | antigravity2/script.js:152-159 | A neighbour count lies in 0..8. |
| Engine.Minesweeper.CalculateNeighbors | antigravity2/script.js:141-163 | Every safe cell gets the number of mines adjacent to it. Mine cells and every other field stay as they were. |
| Grid.CountsFilledBeforeStep | antigravity2/script.js:149-160 | One step of the nested scan keeps its loop invariant: the cells before (r, c) in row-major order have their counts, and the rest are untouched. |
| Grid.CountsFilledCorrect | antigravity2/script.js:148-162 | After calculateNeighbors the mines, flags, hidden cells and hidden safe cells are those of the board before. Every safe cell's count equals its adjacent mines, and every changed count is at most 8. |
| Engine.Minesweeper.RevealCell | antigravity2/script.js:203-229 | A call is a no-op on a revealed or flagged cell. Otherwise it reveals the target first and then only cells reached from zero cells, each once and never a flagged one. Around every newly revealed zero cell, no unflagged neighbour stays hidden. It changes nothing but isRevealed. It terminates because each call that goes on shrinks the set of hidden cells. |
| FloodFill.FloodNoop | antigravity2/script.js:204-205 | A reveal on a revealed or flagged cell changes nothing and reveals nothing. |
| FloodFill.FloodSingle | antigravity2/script.js:207-212 | A hidden cell with a positive count is revealed alone. |
| FloodFill.PartialStart | antigravity2/script.js:207-220 | A hidden zero cell, once revealed, starts the visit of its neighbours in the reveal's invariant. |
| FloodFill.PartialStep | antigravity2/script.js:221-226 | Visiting an in-bounds neighbour with a recursive reveal keeps the invariant, and that neighbour is then revealed unless flagged. |
| FloodFill.PartialSkip | antigravity2/script.js:224 | An offset off the board is skipped without breaking the invariant. |
| FloodFill.PartialDone | antigravity2/script.js:221-227 | After all eight offsets the partial visit is a complete reveal of the zero cell. |
| FloodFill.PartialShrinks | antigravity2/script.js:207 | During the visit the target is revealed, so the hidden cells are a proper subset of those at the call. This is the recursion's decreasing measure. |
| FloodFill.FloodShrinks | antigravity2/script.js:203-229 | A reveal never hides a cell: the hidden cells after it are a subset of those before. |
| FloodFill.FloodSafe | antigravity2/script.js:203-229 | Flood-fill safety: once every safe cell holds its true count, a reveal started on a safe cell reveals no mine. |
| FloodFill.ChainSafe | antigravity2/script.js:210-227 | Every cell in the reveal order is safe, because each is adjacent to an earlier cell with no adjacent mine. |
| Grid.RevealsOnlyKeeps | antigravity2/script.js:207 | Revealing cells keeps the mines, the flags and correct counts, and only shrinks the hidden cells. |
| Engine.Minesweeper.HandleLeftClick | antigravity2/script.js:165-186 | Nothing happens when the game is inactive or the cell is revealed or flagged. Otherwise the board is armed, with totalMines mines, correct counts and the first-clicked cell safe, and firstClick is cleared. On a first click the armed board is still concealed, keeps the flags the board had, and its mines are exactly the distinct picks used other than the clicked cell. Clicking a mine ends the game as lost with the board unchanged, so that cell is not revealed. A safe cell is flood-revealed; the game is then won, with every mine flagged, exactly when no safe cell is hidden, and otherwise play goes on, with the timer running after a first click and as before after a later one. The session stays valid. |
| Engine.Minesweeper.Arm | antigravity2/script.js:171-176 | The first accepted click places the mines everywhere but the clicked cell, starts the timer and clears firstClick. The mines are exactly the distinct picks used other than the clicked cell. No cell is revealed, the flags are those of the board before, the clicked cell is still hidden and unflagged, and the session is valid. |
| Engine.Minesweeper.ArmBoard | antigravity2/script.js:172-173 | placeMines then calculateNeighbors on an untouched board gives an armed board with (r, c) safe and still hidden, nothing revealed, and the same flags. Its mines are exactly the distinct picks used other than (r, c). |
| Engine.Minesweeper.Begin | antigravity2/script.js:174-175 | With firstClick cleared and the timer started on an armed board, the session is valid and in play from the first cell. |
| Rules.SessionIdle | antigravity2/script.js:171-173 | Before the first click the board has no mine and nothing revealed, and flagsPlaced counts its flags. |
| Rules.SessionArm | antigravity2/script.js:171-176 | An armed board with nothing revealed, whose flags flagsPlaced counts, is a session in play. |
| Engine.Minesweeper.Resolve | antigravity2/script.js:178-185 | On an armed board, a mine ends the game as lost with the board unchanged. A safe cell is flood-revealed, then the win check runs. If play goes on, the timer state is unchanged. |
| Rules.SessionLose | antigravity2/script.js:178-179 | Ending an armed game on a mine keeps the invariant, and the state is Lost. |
| Rules.SessionReady | antigravity2/script.js:178-181 | After the first click, an active session is ready for play. |
| Rules.ReadyReveal | antigravity2/script.js:180-181 | A reveal started on a safe cell of a ready board leaves it ready: no mine is shown, no flagged cell is revealed, and flags, mines and counts are kept. |
| Engine.Minesweeper.HandleRightClick | antigravity2/script.js:188-201 | Nothing happens when the game is inactive or the cell is revealed. Otherwise only that cell changes: its flag flips, and flagsPlaced moves by +1 or -1 in the same direction. There is no cap against totalMines. The game state (idle, playing, won, lost) and the hidden safe cells are unchanged, and the session stays valid. |
| Engine.Minesweeper.ToggleFlag | antigravity2/script.js:194-198 | Flipping the flag of a hidden cell of an active game changes that cell alone and moves flagsPlaced with it, keeping the session valid and the hidden safe cells unchanged. |
| Engine.Minesweeper.StoreFlag | antigravity2/script.js:194-198 | The write of the toggled cell and the counter: the board becomes the board with that one cell replaced, and the counter moves by one. |
| Rules.SessionToggle | antigravity2/script.js:194-198 | Flipping a hidden cell's flag and moving the counter by one keeps the invariant in both active states (before the first click and in play), and keeps the hidden safe cells. |
| Grid.FlagFlipCount | antigravity2/script.js:194-198 | Flipping one flag changes only flags, and changes the number of flags on the board by +1 or -1 in the direction of the flip. So the counter keeps tracking the board. |
| Grid.FlagFlipTwice | antigravity2/script.js:194 | Flipping the same cell's flag twice gives back the original board. |
| Engine.Minesweeper.CountSafeUnknown | antigravity2/script.js:273-280 | The nested count loop returns the number of safe cells not yet revealed. |
| Grid.HiddenSafeBeforeNext | antigravity2/script.js:276-278 | Scanning one more cell adds one to the count exactly when that cell is safe and hidden. |
| Engine.Minesweeper.CheckWin | antigravity2/script.js:272-285 | The game is won, and ends with every mine flagged, exactly when no safe cell is hidden. Otherwise the board and the game state are unchanged and play goes on. |
| Rules.ReadyWin | antigravity2/script.js:282-284 | A ready board with no hidden safe cell, after flagAllMines, is a won session with every mine flagged. flagsPlaced is unchanged. |
| Rules.ReadyContinue | antigravity2/script.js:282-284 | A ready board with a hidden safe cell left is a session in play. |
| Engine.Minesweeper.GameOver | antigravity2/script.js:231-244 | The game stops and the interval is cleared. A win flags every mine; a loss leaves the board unchanged. |
| Engine.Minesweeper.RevealAllMines | antigravity2/script.js:246-258 | The marks are exactly a "mine" mark for every mine and a "wrong flag" mark for every flagged safe cell, and the board is not changed. |
| Engine.Minesweeper.FlagAllMines | antigravity2/script.js:260-270 | Every mine ends up flagged and every other cell and field is left as it was. |
| Grid.MinesFlaggedKeeps | antigravity2/script.js:260-270 | After flagAllMines the mines, hidden cells and correct counts are kept, and every mine is flagged. |
| Grid.MinesFlaggedBeforeStep | antigravity2/script.js:263-267 | One step of the nested scan of flagAllMines keeps its loop invariant. |
| Engine.Minesweeper.SetCell | antigravity2/script.js:136 | A store into the board changes exactly one cell, both in the array and in the board value. |

## Left out

- DOM handles and presentation: the board element, cell elements and their classes and
  text, the modal (`showModal`/`closeModal`), the face emoji and its `setTimeout` reset,
  and `bindEvents`. They have no effect on game state. The reset and difficulty buttons
  only call `initGame`, which is modelled. `currentDifficulty` is not modelled.
- Timers: `setInterval`/`clearInterval` become the flag `timerRunning`, and one
  callback run is the method `Tick`. The clock that schedules the callback is not
  modelled.
- `updateTimerDisplay` and the `padStart` formatting of the counters are left out,
  because they only format strings.
- `mineCount` is set by `initGame` and never read. It is kept as a field, and it
  appears only in `Engine.Minesweeper.InitGame`'s `ensures mineCount == totalMines`.
- Math.random: the draws are the parameter `picks`. The `while` loop of `placeMines`
  stops when the picks run out, so it has a bound. That is the `ok == false` outcome
  of `Engine.Minesweeper.PlaceMines`.
- Engine.Minesweeper.HandleLeftClick: on the first click it requires the picks to have at
  least totalMines distinct cells other than the clicked one. The source has no such
  precondition; its loop just draws until enough mines are placed, which happens with
  probability 1.
- Engine.Minesweeper.CheckWin: it is specified for the state in which handleLeftClick calls
  it, after a reveal on an armed board in play. That is its only caller.
- The difficulty is the enumeration `Difficulty`, so the source's path for an unknown
  key is not modelled. In the source, `this.difficulties[key]` is then undefined and
  reading `config.rows` throws an exception in `initGame` (antigravity2/script.js:57-58).
- `js/main.js` and `assets/js/main.js` are not part of this model. They are menu and
  scroll-event page glue with no game logic.
