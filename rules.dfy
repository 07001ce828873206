/** The invariant that a Minesweeper session keeps between two user inputs, and one
    lemma per transition of script.js that shows the transition keeps it. */
module Rules {
  import opened Grid
  import opened FloodFill

  /** The session states of the engine: before the first click, playing, won, lost. */
  datatype Status = Idle | Playing | Won | Lost

  /** The state, read off the session fields and the board: a finished game is won
      exactly when no safe cell is left hidden. */
  ghost function StatusOf(g: Board, gameActive: bool, firstClick: bool): Status {
    if gameActive then (if firstClick then Idle else Playing)
    else if HiddenSafe(g) == {} then Won else Lost
  }

  ghost predicate NoRevealedFlag(g: Board) {
    forall p :: Inside(g, p) ==> !(At(g, p).isRevealed && At(g, p).isFlagged)
  }

  ghost predicate NoRevealedMine(g: Board) {
    forall p :: Inside(g, p) && At(g, p).isRevealed ==> !At(g, p).isMine
  }

  /** Before the first click: no mine and nothing revealed. */
  ghost predicate Untouched(g: Board) {
    forall p :: Inside(g, p) ==> !At(g, p).isMine && !At(g, p).isRevealed
  }

  /** After the first click: exactly totalMines mines, the first cell safe, and every
      safe cell holding its true count. */
  ghost predicate Armed(g: Board, totalMines: int, firstCell: Pos) {
    |Mines(g)| == totalMines && Inside(g, firstCell) && !At(g, firstCell).isMine && CountsCorrect(g)
  }

  /** A board in play, before the win check: armed, no mine shown, no revealed cell
      flagged, and the flag counter equal to the number of flags. */
  ghost predicate Ready(g: Board, totalMines: int, flagsPlaced: int, firstCell: Pos) {
    NoRevealedFlag(g) && NoRevealedMine(g) && Armed(g, totalMines, firstCell) &&
    flagsPlaced == |Flagged(g)|
  }

  /** The session invariant, by the state of the game. Before the first click the board
      is untouched and flagsPlaced counts its flags. Once the mines are placed the board
      is armed and shows neither a mine nor a flagged revealed cell; in play a safe cell
      is always left to find and flagsPlaced counts the flags; a lost game keeps the
      count; a won game has every mine flagged (flagAllMines adds flags without counting
      them). */
  ghost predicate Session(g: Board, totalMines: int, flagsPlaced: int, gameActive: bool,
                          firstClick: bool, firstCell: Pos) {
    match StatusOf(g, gameActive, firstClick)
    case Idle => Untouched(g) && HiddenSafe(g) != {} && flagsPlaced == |Flagged(g)|
    case Playing => HiddenSafe(g) != {} && Ready(g, totalMines, flagsPlaced, firstCell)
    case Lost => !firstClick && Ready(g, totalMines, flagsPlaced, firstCell)
    case Won =>
      !firstClick && NoRevealedFlag(g) && NoRevealedMine(g) && Armed(g, totalMines, firstCell) &&
      forall p :: p in Mines(g) ==> At(g, p).isFlagged
  }

  /** A fresh board of blank cells starts a session with no flags placed. */
  lemma SessionInit(g: Board, totalMines: int, firstCell: Pos)
    requires Filled(g, Blank) && |g| > 0 && |g[0]| > 0
    ensures Session(g, totalMines, 0, true, true, firstCell)
    ensures StatusOf(g, true, true) == Idle
  {
    assert Pos(0, 0) in HiddenSafe(g);
    assert Flagged(g) == {};
  }

  /** Right-clicking a hidden cell of an active game flips its flag and moves the
      counter by one in the same direction. */
  lemma SessionToggle(g: Board, h: Board, p: Pos, totalMines: int, flagsPlaced: int,
                      firstClick: bool, firstCell: Pos)
    requires Session(g, totalMines, flagsPlaced, true, firstClick, firstCell)
    requires Inside(g, p) && !At(g, p).isRevealed
    requires OnlyAt(g, h, p) && At(h, p) == At(g, p).(isFlagged := !At(g, p).isFlagged)
    ensures Session(h, totalMines, flagsPlaced + (if At(h, p).isFlagged then 1 else -1), true, firstClick, firstCell)
    ensures HiddenSafe(h) == HiddenSafe(g)
  {
    FlagFlipCount(g, h, p);
    FlagsOnlyKeeps(g, h);
  }

  /** No cell of g is revealed. */
  ghost predicate Concealed(g: Board) {
    forall p :: Inside(g, p) ==> !At(g, p).isRevealed
  }

  /** placeMines on an untouched board, keeping t safe, followed by calculateNeighbors:
      the result is armed with t as its first cell, still has nothing revealed, and
      carries the flags of the board it started from. */
  lemma ArmedByPlacing(g: Board, m: Board, s: Board, t: Pos, totalMines: int)
    requires Untouched(g) && Inside(g, t) && !At(g, t).isFlagged
    requires MinesAdded(g, m) && |Mines(m)| == totalMines && t !in Mines(m)
    requires CountsFilled(m, s)
    ensures Armed(s, totalMines, t) && Concealed(s) && Flagged(s) == Flagged(g)
    ensures !At(s, t).isRevealed && !At(s, t).isFlagged
    ensures Mines(s) == Mines(m)
  {
    CountsFilledCorrect(m, s);
    assert Flagged(m) == Flagged(g);
  }

  /** Before the first click the board is untouched and flagsPlaced counts its flags. */
  lemma SessionIdle(g: Board, totalMines: int, flagsPlaced: int, firstCell: Pos)
    requires Session(g, totalMines, flagsPlaced, true, true, firstCell)
    ensures Untouched(g) && flagsPlaced == |Flagged(g)|
  {
  }

  /** The first click: an armed board with nothing revealed, whose flags flagsPlaced
      counts, makes a session in play from the cell t. */
  lemma SessionArm(s: Board, t: Pos, totalMines: int, flagsPlaced: int)
    requires Armed(s, totalMines, t) && Concealed(s) && flagsPlaced == |Flagged(s)|
    ensures Session(s, totalMines, flagsPlaced, true, false, t)
  {
    assert t in HiddenSafe(s);
  }

  /** A later click finds the board ready for play. */
  lemma SessionReady(g: Board, totalMines: int, flagsPlaced: int, firstCell: Pos)
    requires Session(g, totalMines, flagsPlaced, true, false, firstCell)
    ensures Ready(g, totalMines, flagsPlaced, firstCell)
  {
  }

  /** Revealing a safe cell keeps the board ready: the flood fill shows no mine, and
      touches neither flags nor counts. */
  lemma ReadyReveal(s: Board, h: Board, t: Pos, order: seq<Pos>, totalMines: int, flagsPlaced: int, firstCell: Pos)
    requires Ready(s, totalMines, flagsPlaced, firstCell)
    requires Flood(s, h, t, order) && !At(s, t).isMine
    ensures Ready(h, totalMines, flagsPlaced, firstCell)
  {
    FloodSafe(s, h, t, order);
    RevealsOnlyKeeps(s, h);
  }

  /** checkWin with a safe cell left: the game goes on. */
  lemma ReadyContinue(h: Board, totalMines: int, flagsPlaced: int, firstCell: Pos)
    requires Ready(h, totalMines, flagsPlaced, firstCell) && HiddenSafe(h) != {}
    ensures Session(h, totalMines, flagsPlaced, true, false, firstCell)
    ensures StatusOf(h, true, false) == Playing
  {
  }

  /** checkWin with no safe cell left: the game is won and flagAllMines flags every
      mine, leaving flagsPlaced as it was. */
  lemma ReadyWin(h: Board, w: Board, totalMines: int, flagsPlaced: int, firstCell: Pos)
    requires Ready(h, totalMines, flagsPlaced, firstCell) && HiddenSafe(h) == {}
    requires MinesFlagged(h, w)
    ensures Session(w, totalMines, flagsPlaced, false, false, firstCell)
    ensures StatusOf(w, false, false) == Won
  {
    MinesFlaggedKeeps(h, w);
  }

  /** Clicking a mine ends an armed game as lost, with the board unchanged. */
  lemma SessionLose(g: Board, totalMines: int, flagsPlaced: int, firstCell: Pos)
    requires Session(g, totalMines, flagsPlaced, true, false, firstCell)
    ensures Session(g, totalMines, flagsPlaced, false, false, firstCell)
    ensures StatusOf(g, false, false) == Lost
  {
  }
}
