/** The Minesweeper class of script.js: the board is a two-dimensional array of cell
    records that the event handlers update in place. Each method is specified through
    the ghost field cells, which holds the array as a value, and the relations of the
    Grid, FloodFill and Rules modules. */
module Engine {
  import opened Grid
  import opened FloodFill
  import opened Rules

  datatype Difficulty = Easy | Medium | Hard

  datatype Config = Config(rows: nat, cols: nat, mines: nat)

  /** The table of difficulties. */
  function Preset(level: Difficulty): Config {
    match level
    case Easy => Config(9, 9, 10)
    case Medium => Config(16, 16, 40)
    case Hard => Config(16, 30, 99)
  }

  /** Every preset has positive dimensions and fewer mines than cells. */
  lemma PresetRoom(level: Difficulty)
    ensures var cfg := Preset(level); 0 < cfg.rows && 0 < cfg.cols && cfg.mines < cfg.rows * cfg.cols
  {
  }

  /** The cells at and after row-major index k of a board with the easy preset's 9 columns
      are blank. */
  ghost predicate EasyBlankFrom(g: Board, k: int) {
    forall p :: Inside(g, p) && 9 * p.row + p.col >= k ==> At(g, p) == Blank
  }

  lemma EasyBlankFromNext(g: Board, h: Board, k: nat)
    requires EasyBlankFrom(g, k) && OnlyAt(g, h, Pos(k / 9, k % 9))
    ensures EasyBlankFrom(h, k + 1)
  {
  }

  predicate IsPreset(cfg: Config) {
    cfg == Preset(Easy) || cfg == Preset(Medium) || cfg == Preset(Hard)
  }

  /** The timer cap: the interval stops once the counter reaches it. */
  const TimerCap := 999

  /** What revealAllMines marks on the board of a lost game. */
  datatype Mark = ShowMine(p: Pos) | WrongFlag(p: Pos)

  class Minesweeper {
    var rows: nat
    var cols: nat
    var totalMines: nat
    var mineCount: int
    var board: array2<Cell>
    var gameActive: bool
    var firstClick: bool
    var flagsPlaced: int
    var timer: nat
    /** Whether the one-second interval of startTimer is set. */
    var timerRunning: bool
    /** The cell of the first click, which placeMines keeps free of mines. */
    ghost var firstCell: Pos

    /** The board as a value, kept equal to the array by every update. */
    ghost var cells: Board

    /** The array holds exactly the board cells, with the dimensions of the game. */
    ghost predicate Mirror()
      reads this`rows, this`cols, this`cells, this`board, board
    {
      board.Length0 == rows && board.Length1 == cols && |cells| == rows &&
      (forall i :: 0 <= i < rows ==> |cells[i]| == cols) &&
      forall i, j :: 0 <= i < rows && 0 <= j < cols ==> cells[i][j] == board[i, j]
    }

    /** Stores v at (r, c) and nothing else. */
    method SetCell(r: int, c: int, v: Cell)
      requires Mirror() && 0 <= r < rows && 0 <= c < cols
      modifies this`cells, board
      ensures Mirror() && OnlyAt(old(cells), cells, Pos(r, c)) && At(cells, Pos(r, c)) == v
      ensures cells == Put(old(cells), Pos(r, c), v)
    {
      board[r, c] := v;
      cells := Put(cells, Pos(r, c), v);
    }

    /** The timer runs only during play, stays below the cap while it runs, and is zero
        before the first click. */
    ghost predicate Clock()
      reads this`timer, this`timerRunning, this`gameActive, this`firstClick
    {
      timer <= TimerCap && (timerRunning ==> timer < TimerCap && gameActive && !firstClick) &&
      (firstClick ==> timer == 0 && !timerRunning)
    }

    ghost predicate Valid()
      reads this, board
    {
      Mirror() && IsPreset(Config(rows, cols, totalMines)) && Clock() &&
      Session(cells, totalMines, flagsPlaced, gameActive, firstClick, firstCell)
    }

    ghost function Status(): Status
      reads this, board
    {
      StatusOf(cells, gameActive, firstClick)
    }

    /** The page loads on the easy board. */
    constructor ()
      ensures Valid() && fresh(board)
      ensures Config(rows, cols, totalMines) == Preset(Easy)
      ensures Filled(cells, Blank) && Status() == Idle
      ensures flagsPlaced == 0 && timer == 0 && !timerRunning
    {
      rows, cols, totalMines := 0, 0, 0;
      board := new Cell[0, 0];
      gameActive := false;
      mineCount := 0;
      flagsPlaced := 0;
      timer := 0;
      timerRunning := false;
      firstClick := true;
      firstCell := Pos(0, 0);
      new;
      InitGame(Easy);
    }

    /** A new game: the timer is stopped and reset, the counters are reset, and the board
        is replaced by a blank one of the chosen size. */
    method InitGame(level: Difficulty)
      modifies this
      ensures Valid() && fresh(board)
      ensures Config(rows, cols, totalMines) == Preset(level) && mineCount == totalMines
      ensures flagsPlaced == 0 && gameActive && firstClick && timer == 0 && !timerRunning
      ensures Filled(cells, Blank) && Status() == Idle
    {
      timerRunning := false;
      timer := 0;
      var config := Preset(level);
      rows, cols, totalMines := config.rows, config.cols, config.mines;
      mineCount := totalMines;
      flagsPlaced := 0;
      gameActive := true;
      firstClick := true;
      CreateBoard();
      SessionInit(cells, totalMines, firstCell);
    }

    /** A rows x cols board of blank cells. */
    method CreateBoard()
      modifies this`board, this`cells
      ensures fresh(board) && Mirror()
      ensures Filled(cells, Blank)
    {
      board := new Cell[rows, cols];
      for r := 0 to rows
        invariant fresh(board) && board.Length0 == rows && board.Length1 == cols
        invariant forall i, j :: 0 <= i < r && 0 <= j < cols ==> board[i, j] == Blank
      {
        for c := 0 to cols
          invariant fresh(board) && board.Length0 == rows && board.Length1 == cols
          invariant forall i, j :: 0 <= i < r && 0 <= j < cols ==> board[i, j] == Blank
          invariant forall j :: 0 <= j < c ==> board[r, j] == Blank
        {
          board[r, c] := Blank;
        }
      }
      ghost var blankRow := seq(cols, j => Blank);
      cells := seq(rows, i => blankRow);
    }

    /** One tick of the interval: the counter goes up by one and the interval is cleared
        when it reaches the cap. */
    method Tick()
      requires Valid() && timerRunning
      modifies this`timer, this`timerRunning
      ensures Valid()
      ensures timer == old(timer) + 1 && timer <= TimerCap
      ensures timerRunning <==> timer < TimerCap
    {
      timer := timer + 1;
      if timer >= TimerCap {
        timerRunning := false;
      }
    }

    /** startTimer: the one-second interval is set. */
    method StartTimer()
      modifies this`timerRunning
      ensures timerRunning
    {
      timerRunning := true;
    }

    /** The number the mine counter shows: while the game is not won, the mines not yet
        matched by a flag on the board. */
    function RemainingMines(): (n: int)
      reads this, board
      ensures Valid() && Status() != Won ==> n == totalMines - |Flagged(cells)|
    {
      totalMines - flagsPlaced
    }

    /** Places mines by drawing cells from picks until totalMines mines have been placed,
        skipping the safe cell and the cells already mined. Each pick stands for the pair of
        Math.random draws of one attempt; picks running out stops the loop with ok false.
        The mines added are exactly the distinct non-safe cells of the picks used. */
    method PlaceMines(safeR: int, safeC: int, picks: seq<Pos>) returns (ok: bool, ghost used: nat)
      requires Mirror()
      requires forall i :: 0 <= i < |picks| ==> 0 <= picks[i].row < rows && 0 <= picks[i].col < cols
      modifies this`cells, board
      ensures Mirror() && used <= |picks|
      ensures MinesAdded(old(cells), cells)
      ensures Mines(cells) == Mines(old(cells)) + Picked(picks, used, Pos(safeR, safeC))
      ensures ok ==> |Mines(cells)| == |Mines(old(cells))| + totalMines
      ensures !ok ==> used == |picks| && |Mines(cells)| < |Mines(old(cells))| + totalMines
    {
      ghost var g0 := cells;
      var placed := 0;
      var i := 0;
      while placed < totalMines && i < |picks|
        invariant Mirror() && 0 <= i <= |picks| && 0 <= placed <= totalMines
        invariant MinesAdded(g0, cells)
        invariant Mines(cells) == Mines(g0) + Picked(picks, i, Pos(safeR, safeC))
        invariant |Mines(cells)| == |Mines(g0)| + placed
        decreases |picks| - i
      {
        var added := TryMine(picks, i, safeR, safeC, g0, placed);
        i := i + 1;
        if added {
          placed := placed + 1;
        }
      }
      ok := placed == totalMines;
      used := i;
    }

    /** One attempt of the loop of placeMines, on the pick i: the drawn cell becomes a mine
        unless it is the safe cell or already a mine. The mines added since the board g0
        are then exactly the distinct non-safe cells of the first i + 1 picks. */
    method TryMine(picks: seq<Pos>, i: nat, safeR: int, safeC: int, ghost g0: Board, ghost placed: nat)
      returns (added: bool)
      requires Mirror() && i < |picks| && 0 <= picks[i].row < rows && 0 <= picks[i].col < cols
      requires MinesAdded(g0, cells) && Mines(cells) == Mines(g0) + Picked(picks, i, Pos(safeR, safeC))
      requires |Mines(cells)| == |Mines(g0)| + placed
      modifies this`cells, board
      ensures Mirror() && MinesAdded(g0, cells)
      ensures added <==> picks[i] != Pos(safeR, safeC) && picks[i] !in old(Mines(cells))
      ensures Mines(cells) == if added then old(Mines(cells)) + {picks[i]} else old(Mines(cells))
      ensures Mines(cells) == Mines(g0) + Picked(picks, i + 1, Pos(safeR, safeC))
      ensures |Mines(cells)| == |Mines(g0)| + placed + if added then 1 else 0
    {
      ghost var before := cells;
      var r, c := picks[i].row, picks[i].col;
      if (r == safeR && c == safeC) || board[r, c].isMine {
        added := false;
      } else {
        SetCell(r, c, board[r, c].(isMine := true));
        AddMine(before, cells, Pos(r, c));
        MinesAddedTrans(g0, before, cells);
        added := true;
      }
      PickedAccount(Mines(g0), Mines(before), Mines(cells), picks, i, Pos(safeR, safeC));
    }

    /** The count loop of calculateNeighbors for the cell (r, c): walking the eight
        offsets and counting the mined cells on the board gives the number of mines
        adjacent to the cell. */
    method CountAdjacent(r: int, c: int) returns (count: nat)
      requires Mirror()
      ensures count == |MinesAround(cells, Pos(r, c))| && count <= 8
    {
      ghost var g := cells;
      ghost var p := Pos(r, c);
      count := 0;
      for k := 0 to |Directions|
        invariant count == |MinesSeen(g, p, k)|
      {
        var (dr, dc) := Directions[k];
        var nr, nc := r + dr, c + dc;
        assert Step(p, Directions[k]) == Pos(nr, nc);
        MinesSeenNext(g, p, k);
        if 0 <= nr < rows && 0 <= nc < cols {
          assert Pos(nr, nc) in Mines(g) <==> board[nr, nc].isMine;
          if board[nr, nc].isMine {
            count := count + 1;
          }
        } else {
          assert Pos(nr, nc) !in Mines(g);
        }
      }
      MinesSeenAll(g, p);
      MinesAroundBound(g, p);
    }

    /** Every safe cell gets the number of mines adjacent to it; mined cells and all other
        fields are left as they were. */
    method CalculateNeighbors()
      requires Mirror()
      modifies this`cells, board
      ensures Mirror() && CountsFilled(old(cells), cells)
    {
      ghost var g0 := cells;
      for r := 0 to rows
        invariant Mirror() && CountsFilledBefore(g0, cells, r, 0)
      {
        for c := 0 to cols
          invariant Mirror() && CountsFilledBefore(g0, cells, r, c)
        {
          ghost var g := cells;
          if board[r, c].isMine {
            CountsFilledBeforeStep(g0, g, g, r, c);
            continue;
          }
          CountsFilledBeforeMines(g0, g, r, c);
          var count := CountAdjacent(r, c);
          MinesAroundAgree(g0, g, Pos(r, c));
          SetCell(r, c, board[r, c].(neighborMines := count));
          CountsFilledBeforeStep(g0, g, cells, r, c);
        }
        CountsFilledBeforeRow(g0, cells, r);
      }
      CountsFilledBeforeAll(g0, cells);
    }

    /** revealCell: nothing happens on a revealed or flagged cell; otherwise the cell is
        revealed and, when no mine touches it, the reveal spreads to its neighbours in the
        order of the offsets. The recursion ends because every call that goes on reveals
        a hidden cell. */
    method RevealCell(r: int, c: int) returns (ghost order: seq<Pos>)
      requires Mirror() && 0 <= r < rows && 0 <= c < cols
      modifies this`cells, board
      ensures Mirror() && Flood(old(cells), cells, Pos(r, c), order)
      decreases Hidden(cells)
    {
      ghost var g0 := cells;
      var cell := board[r, c];
      if cell.isRevealed || cell.isFlagged {
        FloodNoop(g0, Pos(r, c));
        order := [];
        return;
      }
      SetCell(r, c, cell.(isRevealed := true));
      if cell.neighborMines > 0 {
        FloodSingle(g0, cells, Pos(r, c));
        order := [Pos(r, c)];
        return;
      }
      PartialStart(g0, cells, Pos(r, c));
      order := [Pos(r, c)];
      for k := 0 to |Directions|
        invariant Mirror() && Partial(g0, cells, Pos(r, c), order, k)
      {
        var (dr, dc) := Directions[k];
        var nr, nc := r + dr, c + dc;
        assert Step(Pos(r, c), Directions[k]) == Pos(nr, nc);
        if 0 <= nr < rows && 0 <= nc < cols {
          ghost var gk := cells;
          PartialShrinks(g0, gk, Pos(r, c), order, k);
          var sub := RevealCell(nr, nc);
          PartialStep(g0, gk, cells, Pos(r, c), order, sub, k);
          order := order + sub;
        } else {
          PartialSkip(g0, cells, Pos(r, c), order, k);
        }
      }
      PartialDone(g0, cells, Pos(r, c), order);
    }

    /** handleRightClick: in an active game a hidden cell has its flag flipped and the flag
        counter follows; otherwise nothing changes. */
    method HandleRightClick(r: int, c: int)
      requires Valid() && 0 <= r < rows && 0 <= c < cols
      modifies this`cells, this`flagsPlaced, board
      ensures Valid()
      ensures old(gameActive && !board[r, c].isRevealed) ==>
        OnlyAt(old(cells), cells, Pos(r, c)) &&
        board[r, c] == old(board[r, c]).(isFlagged := !old(board[r, c].isFlagged)) &&
        flagsPlaced == old(flagsPlaced) + (if board[r, c].isFlagged then 1 else -1)
      ensures !old(gameActive && !board[r, c].isRevealed) ==> cells == old(cells) && flagsPlaced == old(flagsPlaced)
      ensures Status() == old(Status()) && HiddenSafe(cells) == old(HiddenSafe(cells))
    {
      if !gameActive {
        return;
      }
      if board[r, c].isRevealed {
        return;
      }
      ToggleFlag(r, c);
    }

    /** Flags are not capped by the number of mines: eleven right clicks on distinct cells
        of a fresh easy board flag all eleven, and the mine counter then shows -1. */
    method FlagElevenOnEasy()
      modifies this
      ensures Valid() && Status() == Idle && Config(rows, cols, totalMines) == Preset(Easy)
      ensures flagsPlaced == 11 && |Flagged(cells)| == 11 && RemainingMines() == -1
    {
      InitGame(Easy);
      var k := 0;
      while k < 11
        invariant k <= 11 && Valid() && fresh(board)
        invariant rows == 9 && cols == 9 && totalMines == 10 && gameActive && firstClick
        invariant flagsPlaced == k && EasyBlankFrom(cells, k)
      {
        FlagNext(k);
        k := k + 1;
      }
    }

    /** One step of FlagElevenOnEasy: the right click on the blank cell at index k. */
    method FlagNext(k: nat)
      requires Valid() && rows == 9 && cols == 9 && k < 81 && gameActive && EasyBlankFrom(cells, k)
      modifies this`cells, this`flagsPlaced, board
      ensures Valid() && flagsPlaced == old(flagsPlaced) + 1 && EasyBlankFrom(cells, k + 1)
    {
      var r, c := k / 9, k % 9;
      assert 9 * r + c == k && 0 <= r < 9 && 0 <= c < 9 && At(cells, Pos(r, c)) == Blank;
      ghost var g := cells;
      HandleRightClick(r, c);
      assert board[r, c].isFlagged;
      EasyBlankFromNext(g, cells, k);
    }

    /** The flag toggle of handleRightClick on a hidden cell of an active game. */
    method ToggleFlag(r: int, c: int)
      requires Valid() && 0 <= r < rows && 0 <= c < cols
      requires gameActive && !board[r, c].isRevealed
      modifies this`cells, this`flagsPlaced, board
      ensures Valid()
      ensures OnlyAt(old(cells), cells, Pos(r, c))
      ensures board[r, c] == old(board[r, c]).(isFlagged := !old(board[r, c].isFlagged))
      ensures flagsPlaced == old(flagsPlaced) + (if board[r, c].isFlagged then 1 else -1)
      ensures HiddenSafe(cells) == old(HiddenSafe(cells))
    {
      var cell := board[r, c];
      var v := cell.(isFlagged := !cell.isFlagged);
      SessionToggle(cells, Put(cells, Pos(r, c), v), Pos(r, c), totalMines, flagsPlaced, firstClick, firstCell);
      StoreFlag(r, c, v);
    }

    /** Writes the toggled cell v at (r, c) and moves the counter with it, given that the
        result is a session. */
    method StoreFlag(r: int, c: int, v: Cell)
      requires Mirror() && IsPreset(Config(rows, cols, totalMines)) && Clock() && gameActive
      requires 0 <= r < rows && 0 <= c < cols
      requires Session(Put(cells, Pos(r, c), v), totalMines, flagsPlaced + (if v.isFlagged then 1 else -1),
                       true, firstClick, firstCell)
      modifies this`cells, this`flagsPlaced, board
      ensures Valid() && cells == Put(old(cells), Pos(r, c), v)
      ensures flagsPlaced == old(flagsPlaced) + (if v.isFlagged then 1 else -1)
    {
      flagsPlaced := flagsPlaced + if v.isFlagged then 1 else -1;
      SetCell(r, c, v);
    }

    /** The count loop of checkWin: the number of safe cells still hidden. */
    method CountSafeUnknown() returns (unknown: nat)
      requires Mirror()
      ensures unknown == |HiddenSafe(cells)|
    {
      unknown := 0;
      for r := 0 to rows
        invariant unknown == |HiddenSafeBefore(cells, r, 0)|
      {
        for c := 0 to cols
          invariant unknown == |HiddenSafeBefore(cells, r, c)|
        {
          HiddenSafeBeforeNext(cells, r, c);
          if !board[r, c].isMine && !board[r, c].isRevealed {
            unknown := unknown + 1;
          }
        }
        HiddenSafeBeforeRow(cells, r);
      }
      HiddenSafeBeforeAll(cells);
    }

    /** checkWin, on the board a left click has just revealed: the game is won, and ends
        with every mine flagged, exactly when no safe cell is hidden; otherwise play goes
        on. Either way the session invariant is restored. */
    method CheckWin()
      requires Mirror() && IsPreset(Config(rows, cols, totalMines)) && Clock()
      requires gameActive && !firstClick && Ready(cells, totalMines, flagsPlaced, firstCell)
      modifies this`gameActive, this`timerRunning, this`cells, board
      ensures Valid()
      ensures old(HiddenSafe(cells)) == {} ==>
        !gameActive && !timerRunning && MinesFlagged(old(cells), cells) && Status() == Won
      ensures old(HiddenSafe(cells)) != {} ==>
        cells == old(cells) && gameActive && timerRunning == old(timerRunning) && Status() == Playing
    {
      ghost var h := cells;
      var unknown := CountSafeUnknown();
      if unknown == 0 {
        GameOver(true);
        ReadyWin(h, cells, totalMines, flagsPlaced, firstCell);
      } else {
        ReadyContinue(h, totalMines, flagsPlaced, firstCell);
      }
    }

    /** gameOver: the game stops and the interval is cleared; a won game has every mine
        flagged, a lost one only has its mines shown. */
    method GameOver(won: bool)
      requires Mirror()
      modifies this`gameActive, this`timerRunning, this`cells, board
      ensures Mirror() && !gameActive && !timerRunning
      ensures won ==> MinesFlagged(old(cells), cells)
      ensures !won ==> cells == old(cells)
    {
      gameActive := false;
      timerRunning := false;
      if won {
        FlagAllMines();
      } else {
        var marks := RevealAllMines();
      }
    }

    /** revealAllMines: the marks of a lost board. Every mine is shown and
        every flag on a safe cell is marked wrong; the board itself is not changed. */
    method RevealAllMines() returns (marks: seq<Mark>)
      requires Mirror()
      ensures forall p :: ShowMine(p) in marks <==> p in Mines(cells)
      ensures forall p :: WrongFlag(p) in marks <==> p in Flagged(cells) && p !in Mines(cells)
    {
      marks := [];
      for r := 0 to rows
        invariant forall p :: ShowMine(p) in marks <==> p in Mines(cells) && Before(p, r, 0)
        invariant forall p :: WrongFlag(p) in marks <==> p in Flagged(cells) && p !in Mines(cells) && Before(p, r, 0)
      {
        for c := 0 to cols
          invariant forall p :: ShowMine(p) in marks <==> p in Mines(cells) && Before(p, r, c)
          invariant forall p :: WrongFlag(p) in marks <==> p in Flagged(cells) && p !in Mines(cells) && Before(p, r, c)
        {
          var cell := board[r, c];
          if cell.isMine {
            marks := marks + [ShowMine(Pos(r, c))];
          } else if cell.isFlagged {
            marks := marks + [WrongFlag(Pos(r, c))];
          }
        }
      }
    }

    /** flagAllMines: every mine ends up flagged and nothing else changes. */
    method FlagAllMines()
      requires Mirror()
      modifies this`cells, board
      ensures Mirror() && MinesFlagged(old(cells), cells)
    {
      ghost var g0 := cells;
      for r := 0 to rows
        invariant Mirror() && MinesFlaggedBefore(g0, cells, r, 0)
      {
        for c := 0 to cols
          invariant Mirror() && MinesFlaggedBefore(g0, cells, r, c)
        {
          ghost var g := cells;
          var cell := board[r, c];
          if cell.isMine && !cell.isFlagged {
            SetCell(r, c, cell.(isFlagged := true));
          }
          MinesFlaggedBeforeStep(g0, g, cells, r, c);
        }
        MinesFlaggedBeforeRow(g0, cells, r);
      }
      MinesFlaggedBeforeAll(g0, cells);
    }

    /** A left click on (r, c) is acted on: the game is active and the cell is neither
        revealed nor flagged. */
    ghost predicate Accepts(r: int, c: int)
      requires 0 <= r < board.Length0 && 0 <= c < board.Length1
      reads this, board
    {
      gameActive && !board[r, c].isRevealed && !board[r, c].isFlagged
    }

    /** handleLeftClick. The first accepted click places the mines from picks, keeping the
        clicked cell free of them, computes the counts and starts the timer; then a mine
        ends the game as lost, and a safe cell is flood-revealed and the win is checked.
        The ghost results are the board before the reveal (armed), the cells revealed
        (order) and the board after the reveal (shown). */
    method HandleLeftClick(r: int, c: int, picks: seq<Pos>)
        returns (ghost armed: Board, ghost used: nat, ghost order: seq<Pos>, ghost shown: Board)
      requires Valid() && 0 <= r < rows && 0 <= c < cols
      requires forall i :: 0 <= i < |picks| ==> 0 <= picks[i].row < rows && 0 <= picks[i].col < cols
      requires firstClick ==> |Picked(picks, |picks|, Pos(r, c))| >= totalMines
      modifies this`cells, this`gameActive, this`firstClick, this`timerRunning, this`firstCell, board
      ensures Valid()
      ensures !old(Accepts(r, c)) ==>
        cells == old(cells) && gameActive == old(gameActive) && firstClick == old(firstClick) &&
        timerRunning == old(timerRunning)
      ensures old(Accepts(r, c)) ==> !firstClick && Armed(armed, totalMines, firstCell)
      ensures old(Accepts(r, c) && firstClick) ==>
        firstCell == Pos(r, c) && Concealed(armed) && Flagged(armed) == old(Flagged(cells)) &&
        used <= |picks| && Mines(armed) == Picked(picks, used, Pos(r, c))
      ensures old(Accepts(r, c) && !firstClick) ==> armed == old(cells) && firstCell == old(firstCell)
      ensures old(Accepts(r, c)) && Pos(r, c) in Mines(armed) ==> cells == armed && Status() == Lost
      ensures old(Accepts(r, c)) && Pos(r, c) !in Mines(armed) ==>
        Flood(armed, shown, Pos(r, c), order) &&
        if HiddenSafe(shown) == {} then MinesFlagged(shown, cells) && Status() == Won
        else cells == shown && Status() == Playing
      ensures old(Accepts(r, c)) && Status() == Playing ==> timerRunning == old(firstClick || timerRunning)
    {
      armed, used, order, shown := cells, 0, [], cells;
      if !gameActive {
        return;
      }
      var cell := board[r, c];
      if cell.isRevealed || cell.isFlagged {
        return;
      }
      if firstClick {
        used := Arm(r, c, picks);
      }
      armed := cells;
      order, shown := Resolve(r, c);
    }

    /** The first-click block of handleLeftClick. */
    method Arm(r: int, c: int, picks: seq<Pos>) returns (ghost used: nat)
      requires Valid() && firstClick && 0 <= r < rows && 0 <= c < cols && !board[r, c].isFlagged
      requires forall i :: 0 <= i < |picks| ==> 0 <= picks[i].row < rows && 0 <= picks[i].col < cols
      requires |Picked(picks, |picks|, Pos(r, c))| >= totalMines
      modifies this`cells, this`firstClick, this`timerRunning, this`firstCell, board
      ensures Valid() && !firstClick && timerRunning && firstCell == Pos(r, c)
      ensures gameActive && !board[r, c].isRevealed && !board[r, c].isFlagged
      ensures Concealed(cells) && Flagged(cells) == old(Flagged(cells))
      ensures used <= |picks| && Mines(cells) == Picked(picks, used, Pos(r, c))
    {
      SessionIdle(cells, totalMines, flagsPlaced, firstCell);
      used := ArmBoard(r, c, picks);
      Begin(r, c);
    }

    /** The session part of the first click: the flag is cleared, the timer starts, and
        the first cell is recorded, on a board that ArmBoard has armed. */
    method Begin(r: int, c: int)
      requires Mirror() && IsPreset(Config(rows, cols, totalMines)) && Clock()
      requires gameActive && firstClick && 0 <= r < rows && 0 <= c < cols
      requires Armed(cells, totalMines, Pos(r, c)) && Concealed(cells) && flagsPlaced == |Flagged(cells)|
      modifies this`firstClick, this`timerRunning, this`firstCell
      ensures Valid() && !firstClick && timerRunning && firstCell == Pos(r, c)
    {
      firstClick := false;
      StartTimer();
      firstCell := Pos(r, c);
      SessionArm(cells, firstCell, totalMines, flagsPlaced);
    }

    /** The board part of the first click: placeMines keeping (r, c) safe, then
        calculateNeighbors. The board is then armed with (r, c) as its first cell, and
        reveals and flags nothing new. */
    method ArmBoard(r: int, c: int, picks: seq<Pos>) returns (ghost used: nat)
      requires Mirror() && 0 <= r < rows && 0 <= c < cols && !board[r, c].isFlagged
      requires Untouched(cells)
      requires forall i :: 0 <= i < |picks| ==> 0 <= picks[i].row < rows && 0 <= picks[i].col < cols
      requires |Picked(picks, |picks|, Pos(r, c))| >= totalMines
      modifies this`cells, board
      ensures Mirror() && Armed(cells, totalMines, Pos(r, c))
      ensures Concealed(cells) && Flagged(cells) == Flagged(old(cells))
      ensures !board[r, c].isRevealed && !board[r, c].isFlagged
      ensures used <= |picks| && Mines(cells) == Picked(picks, used, Pos(r, c))
    {
      ghost var g := cells;
      assert Mines(g) == {};
      var ok;
      ok, used := PlaceMines(r, c, picks);
      assert ok;
      ghost var placed := cells;
      CalculateNeighbors();
      ArmedByPlacing(g, placed, cells, Pos(r, c), totalMines);
    }

    /** The rest of handleLeftClick, on an armed board. The cell is read again here: in
        script.js it is a reference to the cell record, so it sees the mines that the
        first click has just placed. */
    method Resolve(r: int, c: int) returns (ghost order: seq<Pos>, ghost shown: Board)
      requires Valid() && !firstClick && 0 <= r < rows && 0 <= c < cols
      requires gameActive && !board[r, c].isRevealed && !board[r, c].isFlagged
      modifies this`cells, this`gameActive, this`timerRunning, board
      ensures Valid()
      ensures Pos(r, c) in old(Mines(cells)) ==> cells == old(cells) && Status() == Lost
      ensures Pos(r, c) !in old(Mines(cells)) ==>
        Flood(old(cells), shown, Pos(r, c), order) &&
        if HiddenSafe(shown) == {} then MinesFlagged(shown, cells) && Status() == Won
        else cells == shown && Status() == Playing
      ensures Status() == Playing ==> timerRunning == old(timerRunning)
      ensures old(Armed(cells, totalMines, firstCell))
    {
      ghost var g := cells;
      order, shown := [], cells;
      SessionReady(g, totalMines, flagsPlaced, firstCell);
      var cell := board[r, c];
      if cell.isMine {
        SessionLose(g, totalMines, flagsPlaced, firstCell);
        GameOver(false);
        assert cells == g && !gameActive;
        return;
      }
      order := RevealCell(r, c);
      shown := cells;
      ReadyReveal(g, shown, Pos(r, c), order, totalMines, flagsPlaced, firstCell);
      CheckWin();
    }
  }
}
