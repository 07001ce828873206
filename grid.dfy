/** The logical board of the Minesweeper engine, as a value: a sequence of rows of
    cell records, the shape of the `board` array of arrays in script.js. The class in
    minesweeper.dfy keeps the board in an array2 and states its contracts through a
    snapshot of this type. */
module Grid {

  /** The logical part of one cell record; its DOM element is not modelled, and its
      position is the index at which it is stored. */
  datatype Cell = Cell(isMine: bool, isRevealed: bool, isFlagged: bool, neighborMines: nat)

  /** The record createBoard stores at every position. */
  const Blank: Cell := Cell(false, false, false, 0)

  datatype Pos = Pos(row: int, col: int)

  type Board = seq<seq<Cell>>

  predicate Inside(g: Board, p: Pos) {
    0 <= p.row < |g| && 0 <= p.col < |g[p.row]|
  }

  function At(g: Board, p: Pos): Cell
    requires Inside(g, p)
  {
    g[p.row][p.col]
  }

  predicate SameShape(g: Board, h: Board) {
    |g| == |h| && forall i :: 0 <= i < |g| ==> |g[i]| == |h[i]|
  }

  /** Every position of g holds c. */
  ghost predicate Filled(g: Board, c: Cell) {
    forall p :: Inside(g, p) ==> At(g, p) == c
  }

  // ----- Sets of positions -------------------------------------------------------

  /** Every position of the board. */
  ghost function Cells(g: Board): (m: set<Pos>)
    ensures forall p :: p in m <==> Inside(g, p)
  {
    set i, j | 0 <= i < |g| && 0 <= j < |g[i]| :: Pos(i, j)
  }

  ghost function Mines(g: Board): (m: set<Pos>)
    ensures forall p :: p in m <==> Inside(g, p) && At(g, p).isMine
  {
    set p | p in Cells(g) && At(g, p).isMine
  }

  ghost function Flagged(g: Board): (m: set<Pos>)
    ensures forall p :: p in m <==> Inside(g, p) && At(g, p).isFlagged
  {
    set p | p in Cells(g) && At(g, p).isFlagged
  }

  /** The cells not yet revealed: the measure that the recursive reveal shrinks. */
  ghost function Hidden(g: Board): (m: set<Pos>)
    ensures forall p :: p in m <==> Inside(g, p) && !At(g, p).isRevealed
  {
    set p | p in Cells(g) && !At(g, p).isRevealed
  }

  /** The safe cells the player has not revealed yet (checkWin's `safeCellsUnknown`). */
  ghost predicate HiddenSafeCell(g: Board, p: Pos) {
    Inside(g, p) && !At(g, p).isMine && !At(g, p).isRevealed
  }

  ghost function HiddenSafe(g: Board): (m: set<Pos>)
    ensures forall p :: p in m <==> HiddenSafeCell(g, p)
  {
    set p | p in Cells(g) && HiddenSafeCell(g, p)
  }

  /** The hidden safe cells that a row-major scan has passed before reaching (i, j). */
  ghost function HiddenSafeBefore(g: Board, i: int, j: int): (m: set<Pos>)
    ensures forall p :: p in m <==> HiddenSafeCell(g, p) && (p.row < i || (p.row == i && p.col < j))
  {
    set p | p in Cells(g) && HiddenSafeCell(g, p) && Before(p, i, j)
  }

  /** Scanning one more cell adds it to the set when it is hidden and safe. */
  lemma HiddenSafeBeforeNext(g: Board, i: int, j: int)
    requires 0 <= i < |g| && 0 <= j < |g[i]|
    ensures |HiddenSafeBefore(g, i, j + 1)|
         == |HiddenSafeBefore(g, i, j)| + if HiddenSafeCell(g, Pos(i, j)) then 1 else 0
  {
    var p := Pos(i, j);
    if HiddenSafeCell(g, p) {
      assert HiddenSafeBefore(g, i, j + 1) == HiddenSafeBefore(g, i, j) + {p};
    } else {
      assert HiddenSafeBefore(g, i, j + 1) == HiddenSafeBefore(g, i, j);
    }
  }

  /** The end of a row is the start of the next one. */
  lemma HiddenSafeBeforeRow(g: Board, i: int)
    requires 0 <= i < |g|
    ensures HiddenSafeBefore(g, i, |g[i]|) == HiddenSafeBefore(g, i + 1, 0)
  {
  }

  /** A scan over every row has passed every hidden safe cell. */
  lemma HiddenSafeBeforeAll(g: Board)
    ensures HiddenSafeBefore(g, |g|, 0) == HiddenSafe(g)
  {
  }

  // ----- Neighbours --------------------------------------------------------------

  /** The eight offsets of calculateNeighbors and revealCell, in their order. */
  const Directions: seq<(int, int)> :=
    [(-1, -1), (-1, 0), (-1, 1),
     (0, -1),           (0, 1),
     (1, -1),  (1, 0),  (1, 1)]

  function Step(p: Pos, d: (int, int)): Pos {
    Pos(p.row + d.0, p.col + d.1)
  }

  /** The brute-force neighbour relation: a different cell at most one row and one
      column away. */
  predicate Adjacent(p: Pos, q: Pos) {
    p != q && -1 <= q.row - p.row <= 1 && -1 <= q.col - p.col <= 1
  }

  lemma DirectionIsAdjacent(p: Pos, k: int)
    requires 0 <= k < |Directions|
    ensures Adjacent(p, Step(p, Directions[k]))
  {
  }

  lemma AdjacentIsDirection(p: Pos, q: Pos) returns (k: int)
    requires Adjacent(p, q)
    ensures 0 <= k < |Directions| && q == Step(p, Directions[k])
  {
    var dr, dc := q.row - p.row, q.col - p.col;
    k := if dr == -1 then 1 + dc
         else if dr == 0 then (if dc == -1 then 3 else 4)
         else 6 + dc;
  }

  lemma DirectionsDistinct(p: Pos, i: int, k: int)
    requires 0 <= i < k < |Directions|
    ensures Step(p, Directions[i]) != Step(p, Directions[k])
  {
  }

  /** The mines around p: the brute-force reference for neighborMines. */
  ghost function MinesAround(g: Board, p: Pos): set<Pos> {
    set q | q in Mines(g) && Adjacent(p, q)
  }

  /** Every safe cell holds the number of mines around it. */
  ghost predicate CountsCorrect(g: Board) {
    forall p :: Inside(g, p) && !At(g, p).isMine ==> At(g, p).neighborMines == |MinesAround(g, p)|
  }

  /** The mines found among the first k offsets of Directions around p. */
  ghost function MinesSeen(g: Board, p: Pos, k: nat): set<Pos>
    requires k <= |Directions|
  {
    set i | 0 <= i < k && Step(p, Directions[i]) in Mines(g) :: Step(p, Directions[i])
  }

  /** Looking at one more offset adds one to the count exactly when it lands on a mine. */
  lemma MinesSeenNext(g: Board, p: Pos, k: nat)
    requires k < |Directions|
    ensures |MinesSeen(g, p, k + 1)| == |MinesSeen(g, p, k)| + if Step(p, Directions[k]) in Mines(g) then 1 else 0
  {
    var q := Step(p, Directions[k]);
    NotSeenBefore(g, p, k);
    if q in Mines(g) {
      MinesSeenGrows(g, p, k, {q});
    } else {
      MinesSeenGrows(g, p, k, {});
    }
  }

  lemma NotSeenBefore(g: Board, p: Pos, k: nat)
    requires k < |Directions|
    ensures Step(p, Directions[k]) !in MinesSeen(g, p, k)
  {
    if Step(p, Directions[k]) in MinesSeen(g, p, k) {
      var i :| 0 <= i < k && Step(p, Directions[k]) == Step(p, Directions[i]);
      DirectionsDistinct(p, i, k);
    }
  }

  lemma MinesSeenGrows(g: Board, p: Pos, k: nat, added: set<Pos>)
    requires k < |Directions|
    requires added == if Step(p, Directions[k]) in Mines(g) then {Step(p, Directions[k])} else {}
    ensures MinesSeen(g, p, k + 1) == MinesSeen(g, p, k) + added
  {
    forall x | x in MinesSeen(g, p, k + 1) ensures x in MinesSeen(g, p, k) + added {
      var i :| 0 <= i < k + 1 && Step(p, Directions[i]) in Mines(g) && x == Step(p, Directions[i]);
      if i < k { assert x in MinesSeen(g, p, k); }
    }
  }

  /** The eight offsets reach exactly the adjacent cells, so they see exactly the mines
      around p. */
  lemma MinesSeenAll(g: Board, p: Pos)
    ensures MinesSeen(g, p, |Directions|) == MinesAround(g, p)
  {
    forall q | q in MinesAround(g, p) ensures q in MinesSeen(g, p, |Directions|) {
      var k := AdjacentIsDirection(p, q);
    }
    forall q | q in MinesSeen(g, p, |Directions|) ensures q in MinesAround(g, p) {
      var k :| 0 <= k < |Directions| && q == Step(p, Directions[k]);
      DirectionIsAdjacent(p, k);
    }
  }

  lemma {:induction false} MinesSeenBound(g: Board, p: Pos, k: nat)
    requires k <= |Directions|
    ensures |MinesSeen(g, p, k)| <= k
    decreases k
  {
    if k > 0 {
      MinesSeenBound(g, p, k - 1);
      MinesSeenNext(g, p, k - 1);
    }
  }

  /** A neighbour count lies in 0..8. */
  lemma MinesAroundBound(g: Board, p: Pos)
    ensures |MinesAround(g, p)| <= 8
  {
    MinesSeenBound(g, p, |Directions|);
    MinesSeenAll(g, p);
  }

  /** Two boards with the same mines have the same neighbour sets. */
  lemma MinesAroundAgree(g: Board, h: Board, p: Pos)
    requires Mines(g) == Mines(h)
    ensures MinesAround(g, p) == MinesAround(h, p)
  {
  }

  // ----- Mine placement ----------------------------------------------------------

  /** The cells among the first n picks other than the safe cell. */
  ghost function Picked(picks: seq<Pos>, n: nat, safe: Pos): (m: set<Pos>)
    requires n <= |picks|
    ensures safe !in m
  {
    set i | 0 <= i < n && picks[i] != safe :: picks[i]
  }

  lemma PickedNext(picks: seq<Pos>, n: nat, safe: Pos)
    requires n < |picks|
    ensures Picked(picks, n + 1, safe) == Picked(picks, n, safe) + (if picks[n] == safe then {} else {picks[n]})
  {
  }

  /** One more pick adds its cell to a set of mines unless it is the safe cell or
      already mined. */
  lemma PickedAccount(m0: set<Pos>, m: set<Pos>, m': set<Pos>, picks: seq<Pos>, n: nat, safe: Pos)
    requires n < |picks| && m == m0 + Picked(picks, n, safe)
    requires m' == if picks[n] == safe || picks[n] in m then m else m + {picks[n]}
    ensures m' == m0 + Picked(picks, n + 1, safe)
  {
    PickedNext(picks, n, safe);
  }

  /** p comes before (i, j) in the row-major order of the nested loops of script.js. */
  predicate Before(p: Pos, i: int, j: int) {
    p.row < i || (p.row == i && p.col < j)
  }

  // ----- Relations between a board and its successor ----------------------------

  /** g with the cell at t replaced by v. */
  ghost function Put(g: Board, t: Pos, v: Cell): (h: Board)
    requires Inside(g, t)
    ensures OnlyAt(g, h, t) && At(h, t) == v
  {
    g[t.row := g[t.row][t.col := v]]
  }

  /** h is g with one cell, at t, replaced. */
  ghost predicate OnlyAt(g: Board, h: Board, t: Pos) {
    SameShape(g, h) && Inside(g, t) &&
    forall p :: Inside(g, p) && p != t ==> At(h, p) == At(g, p)
  }

  /** h is g with some mines added (placeMines). */
  ghost predicate MinesAdded(g: Board, h: Board) {
    SameShape(g, h) &&
    forall p :: Inside(g, p) ==> At(h, p) == At(g, p).(isMine := At(h, p).isMine) && (At(g, p).isMine ==> At(h, p).isMine)
  }

  /** Adding one mine where there was none grows the set of mines by that cell. */
  lemma AddMine(g: Board, h: Board, p: Pos)
    requires OnlyAt(g, h, p) && !At(g, p).isMine && At(h, p) == At(g, p).(isMine := true)
    ensures MinesAdded(g, h)
    ensures p !in Mines(g) && Mines(h) == Mines(g) + {p} && |Mines(h)| == |Mines(g)| + 1
  {
  }

  lemma MinesAddedTrans(g: Board, h: Board, k: Board)
    requires MinesAdded(g, h) && MinesAdded(h, k)
    ensures MinesAdded(g, k)
  {
  }

  /** h is g with the count of every safe cell computed (calculateNeighbors). */
  ghost predicate CountsFilled(g: Board, h: Board) {
    SameShape(g, h) &&
    forall p :: Inside(g, p) ==>
      At(h, p) == if At(g, p).isMine then At(g, p) else At(g, p).(neighborMines := |MinesAround(g, p)|)
  }

  /** h is g with some cells revealed and nothing else changed (revealCell). */
  ghost predicate RevealsOnly(g: Board, h: Board) {
    SameShape(g, h) &&
    forall p :: Inside(g, p) ==>
      At(h, p) == At(g, p).(isRevealed := At(h, p).isRevealed) && (At(g, p).isRevealed ==> At(h, p).isRevealed)
  }

  /** h is g with every mine flagged (flagAllMines). */
  ghost predicate MinesFlagged(g: Board, h: Board) {
    SameShape(g, h) &&
    forall p :: Inside(g, p) ==>
      At(h, p) == if At(g, p).isMine then At(g, p).(isFlagged := true) else At(g, p)
  }

  /** The scan of calculateNeighbors has computed the counts of the safe cells before
      (i, j) and left the others as they were. */
  ghost predicate CountsFilledBefore(g: Board, h: Board, i: int, j: int) {
    SameShape(g, h) &&
    forall p :: Inside(g, p) ==>
      At(h, p) == if Before(p, i, j) && !At(g, p).isMine then At(g, p).(neighborMines := |MinesAround(g, p)|) else At(g, p)
  }

  lemma CountsFilledBeforeMines(g: Board, h: Board, i: int, j: int)
    requires CountsFilledBefore(g, h, i, j)
    ensures Mines(h) == Mines(g)
  {
    assert forall p :: Inside(g, p) ==> At(h, p).isMine == At(g, p).isMine;
  }

  /** One step of the scan: (i, j) gets its count if it is safe. */
  lemma CountsFilledBeforeStep(g0: Board, g: Board, h: Board, i: int, j: int)
    requires CountsFilledBefore(g0, g, i, j) && Inside(g0, Pos(i, j))
    requires OnlyAt(g, h, Pos(i, j))
    requires At(h, Pos(i, j)) == if At(g, Pos(i, j)).isMine then At(g, Pos(i, j))
                                else At(g, Pos(i, j)).(neighborMines := |MinesAround(g0, Pos(i, j))|)
    ensures CountsFilledBefore(g0, h, i, j + 1)
  {
  }

  lemma CountsFilledBeforeRow(g0: Board, g: Board, i: int)
    requires 0 <= i < |g0| && CountsFilledBefore(g0, g, i, |g0[i]|)
    ensures CountsFilledBefore(g0, g, i + 1, 0)
  {
  }

  lemma CountsFilledBeforeAll(g: Board, h: Board)
    requires CountsFilledBefore(g, h, |g|, 0)
    ensures CountsFilled(g, h)
  {
  }

  /** The scan of flagAllMines has flagged the mines before (i, j). */
  ghost predicate MinesFlaggedBefore(g: Board, h: Board, i: int, j: int) {
    SameShape(g, h) &&
    forall p :: Inside(g, p) ==>
      At(h, p) == if Before(p, i, j) && At(g, p).isMine then At(g, p).(isFlagged := true) else At(g, p)
  }

  /** One step of the scan: (i, j) gets a flag if it is a mine. */
  lemma MinesFlaggedBeforeStep(g0: Board, g: Board, h: Board, i: int, j: int)
    requires MinesFlaggedBefore(g0, g, i, j) && Inside(g0, Pos(i, j))
    requires OnlyAt(g, h, Pos(i, j))
    requires At(h, Pos(i, j)) == if At(g, Pos(i, j)).isMine then At(g, Pos(i, j)).(isFlagged := true) else At(g, Pos(i, j))
    ensures MinesFlaggedBefore(g0, h, i, j + 1)
  {
  }

  lemma MinesFlaggedBeforeRow(g0: Board, g: Board, i: int)
    requires 0 <= i < |g0| && MinesFlaggedBefore(g0, g, i, |g0[i]|)
    ensures MinesFlaggedBefore(g0, g, i + 1, 0)
  {
  }

  lemma MinesFlaggedBeforeAll(g: Board, h: Board)
    requires MinesFlaggedBefore(g, h, |g|, 0)
    ensures MinesFlagged(g, h)
  {
  }

  /** Computing the counts keeps every mine and gives every safe cell a correct count in
      0..8. */
  lemma CountsFilledCorrect(g: Board, h: Board)
    requires CountsFilled(g, h)
    ensures Mines(h) == Mines(g) && Flagged(h) == Flagged(g) && Hidden(h) == Hidden(g)
    ensures HiddenSafe(h) == HiddenSafe(g)
    ensures CountsCorrect(h)
    ensures forall p :: Inside(h, p) ==> At(h, p).neighborMines <= 8 || At(h, p) == At(g, p)
  {
    assert Mines(h) == Mines(g);
    forall p | Inside(h, p) ensures At(h, p).neighborMines <= 8 || At(h, p) == At(g, p) {
      MinesAroundBound(g, p);
    }
    forall p | Inside(h, p) && !At(h, p).isMine ensures At(h, p).neighborMines == |MinesAround(h, p)| {
      MinesAroundAgree(g, h, p);
    }
  }

  lemma RevealsOnlyKeeps(g: Board, h: Board)
    requires RevealsOnly(g, h)
    ensures Mines(h) == Mines(g) && Flagged(h) == Flagged(g)
    ensures Hidden(h) <= Hidden(g) && HiddenSafe(h) <= HiddenSafe(g)
    ensures CountsCorrect(g) ==> CountsCorrect(h)
  {
    assert Mines(h) == Mines(g);
    assert Flagged(h) == Flagged(g);
    if CountsCorrect(g) {
      forall p | Inside(h, p) && !At(h, p).isMine ensures At(h, p).neighborMines == |MinesAround(h, p)| {
        MinesAroundAgree(g, h, p);
      }
    }
  }

  lemma RevealsOnlyTrans(g: Board, h: Board, k: Board)
    requires RevealsOnly(g, h) && RevealsOnly(h, k)
    ensures RevealsOnly(g, k)
  {
  }

  /** h is g with some flags changed and nothing else. */
  ghost predicate FlagsOnly(g: Board, h: Board) {
    SameShape(g, h) &&
    forall p :: Inside(g, p) ==> At(h, p) == At(g, p).(isFlagged := At(h, p).isFlagged)
  }

  lemma FlagsOnlyKeeps(g: Board, h: Board)
    requires FlagsOnly(g, h)
    ensures Mines(h) == Mines(g) && Hidden(h) == Hidden(g) && HiddenSafe(h) == HiddenSafe(g)
    ensures CountsCorrect(g) ==> CountsCorrect(h)
  {
    assert Mines(h) == Mines(g);
    if CountsCorrect(g) {
      forall p | Inside(h, p) && !At(h, p).isMine ensures At(h, p).neighborMines == |MinesAround(h, p)| {
        MinesAroundAgree(g, h, p);
      }
    }
  }

  /** Flipping the flag of one cell moves the number of flags by one. */
  lemma FlagFlipCount(g: Board, h: Board, p: Pos)
    requires OnlyAt(g, h, p) && At(h, p) == At(g, p).(isFlagged := !At(g, p).isFlagged)
    ensures FlagsOnly(g, h)
    ensures |Flagged(h)| == |Flagged(g)| + if At(h, p).isFlagged then 1 else -1
  {
    FlagFlipOnly(g, h, p);
    FlagFlipSets(g, h, p);
  }

  /** Flipping the flag of a cell twice gives back the board it started from. */
  lemma FlagFlipTwice(g: Board, p: Pos)
    requires Inside(g, p)
    ensures var h := Put(g, p, At(g, p).(isFlagged := !At(g, p).isFlagged));
            Put(h, p, At(h, p).(isFlagged := !At(h, p).isFlagged)) == g
  {
    var h := Put(g, p, At(g, p).(isFlagged := !At(g, p).isFlagged));
    assert h[p.row][p.col := At(h, p).(isFlagged := !At(h, p).isFlagged)] == g[p.row];
  }

  lemma FlagFlipOnly(g: Board, h: Board, p: Pos)
    requires OnlyAt(g, h, p) && At(h, p) == At(g, p).(isFlagged := !At(g, p).isFlagged)
    ensures FlagsOnly(g, h)
  {
  }

  lemma FlagFlipSets(g: Board, h: Board, p: Pos)
    requires OnlyAt(g, h, p) && At(h, p) == At(g, p).(isFlagged := !At(g, p).isFlagged)
    ensures if At(h, p).isFlagged then Flagged(h) == Flagged(g) + {p} && p !in Flagged(g)
            else Flagged(g) == Flagged(h) + {p} && p !in Flagged(h)
  {
    var fg, fh := Flagged(g), Flagged(h);
    if At(h, p).isFlagged {
      forall q ensures q in fh <==> q in fg + {p} {
        if q != p && Inside(g, q) { assert At(h, q) == At(g, q); }
      }
    } else {
      forall q ensures q in fg <==> q in fh + {p} {
        if q != p && Inside(g, q) { assert At(h, q) == At(g, q); }
      }
    }
  }

  lemma MinesFlaggedKeeps(g: Board, h: Board)
    requires MinesFlagged(g, h)
    ensures Mines(h) == Mines(g) && Hidden(h) == Hidden(g) && HiddenSafe(h) == HiddenSafe(g)
    ensures CountsCorrect(g) ==> CountsCorrect(h)
    ensures forall p :: p in Mines(h) ==> At(h, p).isFlagged
  {
    assert Mines(h) == Mines(g);
    if CountsCorrect(g) {
      forall p | Inside(h, p) && !At(h, p).isMine ensures At(h, p).neighborMines == |MinesAround(h, p)| {
        MinesAroundAgree(g, h, p);
      }
    }
  }
}
