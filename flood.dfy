/** What one call of revealCell (script.js) does to the board, stated as a relation
    between the board before (g) and after (h), and the lemmas that compose it over
    the eight recursive calls that a zero cell makes. */
module FloodFill {
  import opened Grid

  /** p was hidden in g and is revealed in h. */
  ghost predicate Newly(g: Board, h: Board, p: Pos) {
    Inside(g, p) && Inside(h, p) && !At(g, p).isRevealed && At(h, p).isRevealed
  }

  /** p is a cell whose neighbour count is zero: the only cells the reveal spreads from. */
  ghost predicate Zero(g: Board, p: Pos) {
    Inside(g, p) && At(g, p).neighborMines == 0
  }

  /** Every cell of order after the first touches an earlier zero cell of order: the
      cells were reached one at a time, spreading from zero cells only. */
  ghost predicate Chain(g: Board, order: seq<Pos>) {
    forall i :: 0 < i < |order| ==> exists j :: 0 <= j < i && Zero(g, order[j]) && Adjacent(order[j], order[i])
  }

  ghost predicate Distinct(order: seq<Pos>) {
    forall i, j :: 0 <= i < j < |order| ==> order[i] != order[j]
  }

  /** order lists exactly the cells revealed between g and h. */
  ghost predicate Lists(g: Board, h: Board, order: seq<Pos>) {
    (forall i :: 0 <= i < |order| ==> Newly(g, h, order[i])) &&
    (forall p :: Newly(g, h, p) ==> p in order)
  }

  /** No flagged cell was revealed. */
  ghost predicate Unflagged(g: Board, h: Board) {
    forall p :: Newly(g, h, p) ==> !At(g, p).isFlagged
  }

  /** q is revealed in h unless it is off the board or flagged. */
  ghost predicate Covered(h: Board, q: Pos) {
    Inside(h, q) && !At(h, q).isFlagged ==> At(h, q).isRevealed
  }

  ghost predicate CoveredAround(h: Board, p: Pos) {
    forall q :: Adjacent(p, q) ==> Covered(h, q)
  }

  /** Every newly revealed zero cell (except t, when skip is set) has all its unflagged
      neighbours revealed. */
  ghost predicate Closed(g: Board, h: Board, t: Pos, skip: bool) {
    forall p :: Newly(g, h, p) && Zero(h, p) && !(skip && p == t) ==> CoveredAround(h, p)
  }

  /** The effect of revealCell(t.row, t.col) taking g to h, revealing the cells of order
      in that order: a no-op on a revealed or flagged cell; otherwise t first, then the
      cells reached from zero cells, exactly those, each once, never a flagged one, and
      around every zero cell revealed nothing unflagged is left hidden. Nothing but
      isRevealed changes. */
  ghost predicate Flood(g: Board, h: Board, t: Pos, order: seq<Pos>) {
    Inside(g, t) && RevealsOnly(g, h) &&
    (if At(g, t).isRevealed || At(g, t).isFlagged then h == g && order == []
     else |order| > 0 && order[0] == t) &&
    Lists(g, h, order) && Distinct(order) && Chain(g, order) && Unflagged(g, h) &&
    Closed(g, h, t, false)
  }

  /** The state of a reveal of the zero cell t once t is revealed and the first k
      neighbours of Directions have been visited. */
  ghost predicate Partial(g0: Board, g: Board, t: Pos, order: seq<Pos>, k: nat) {
    k <= |Directions| &&
    Inside(g0, t) && !At(g0, t).isRevealed && !At(g0, t).isFlagged && Zero(g0, t) &&
    RevealsOnly(g0, g) && |order| > 0 && order[0] == t &&
    Lists(g0, g, order) && Distinct(order) && Chain(g0, order) && Unflagged(g0, g) &&
    Closed(g0, g, t, true) &&
    forall i :: 0 <= i < k ==> Covered(g, Step(t, Directions[i]))
  }

  // ----- The three ways a call starts -----------------------------------------

  /** revealCell returns at once on a revealed or flagged cell. */
  lemma FloodNoop(g: Board, t: Pos)
    requires Inside(g, t) && (At(g, t).isRevealed || At(g, t).isFlagged)
    ensures Flood(g, g, t, [])
  {
  }

  /** A cell with a positive count is revealed alone. */
  lemma FloodSingle(g: Board, h: Board, t: Pos)
    requires Inside(g, t) && !At(g, t).isRevealed && !At(g, t).isFlagged && At(g, t).neighborMines > 0
    requires OnlyAt(g, h, t) && At(h, t) == At(g, t).(isRevealed := true)
    ensures Flood(g, h, t, [t])
  {
    forall p | Newly(g, h, p) ensures p == t {
    }
  }

  /** A zero cell, once revealed, starts the visit of its neighbours. */
  lemma PartialStart(g: Board, h: Board, t: Pos)
    requires Inside(g, t) && !At(g, t).isRevealed && !At(g, t).isFlagged && At(g, t).neighborMines == 0
    requires OnlyAt(g, h, t) && At(h, t) == At(g, t).(isRevealed := true)
    ensures Partial(g, h, t, [t], 0)
  {
    forall p | Newly(g, h, p) ensures p == t {
    }
  }

  // ----- Visiting one neighbour -------------------------------------------------

  /** An offset that falls off the board is skipped. */
  lemma PartialSkip(g0: Board, g: Board, t: Pos, order: seq<Pos>, k: nat)
    requires Partial(g0, g, t, order, k) && k < |Directions|
    requires !Inside(g, Step(t, Directions[k]))
    ensures Partial(g0, g, t, order, k + 1)
  {
  }

  lemma CoveredGrows(g: Board, h: Board, q: Pos)
    requires RevealsOnly(g, h) && Covered(g, q)
    ensures Covered(h, q)
  {
  }

  lemma CoveredAroundGrows(g: Board, h: Board, p: Pos)
    requires RevealsOnly(g, h) && CoveredAround(g, p)
    ensures CoveredAround(h, p)
  {
    forall q | Adjacent(p, q) ensures Covered(h, q) {
      CoveredGrows(g, h, q);
    }
  }

  /** A cell revealed by g0 -> g1 was revealed by g0 -> gk or by gk -> g1. */
  lemma NewlySplit(g0: Board, gk: Board, g1: Board, p: Pos)
    requires RevealsOnly(g0, gk) && RevealsOnly(gk, g1)
    ensures Newly(g0, g1, p) <==> Newly(g0, gk, p) || Newly(gk, g1, p)
  {
  }

  lemma ListsAppend(g0: Board, gk: Board, g1: Board, order: seq<Pos>, sub: seq<Pos>)
    requires RevealsOnly(g0, gk) && RevealsOnly(gk, g1)
    requires Lists(g0, gk, order) && Lists(gk, g1, sub)
    ensures Lists(g0, g1, order + sub)
  {
    forall i | 0 <= i < |order + sub| ensures Newly(g0, g1, (order + sub)[i]) {
      NewlySplit(g0, gk, g1, (order + sub)[i]);
    }
    forall p | Newly(g0, g1, p) ensures p in order + sub {
      NewlySplit(g0, gk, g1, p);
    }
  }

  lemma DistinctAppend(g0: Board, gk: Board, g1: Board, order: seq<Pos>, sub: seq<Pos>)
    requires Lists(g0, gk, order) && Lists(gk, g1, sub)
    requires Distinct(order) && Distinct(sub)
    ensures Distinct(order + sub)
  {
    var s := order + sub;
    forall i, j | 0 <= i < j < |s| ensures s[i] != s[j] {
      if i < |order| <= j {
        assert Newly(g0, gk, order[i]) && Newly(gk, g1, sub[j - |order|]);
      }
    }
  }

  /** Revealing cells changes no count, so a zero cell after was a zero cell before. */
  lemma ZeroBefore(g0: Board, gk: Board, q: Pos)
    requires RevealsOnly(g0, gk) && Zero(gk, q)
    ensures Zero(g0, q)
  {
    assert Inside(g0, q);
    assert At(gk, q) == At(g0, q).(isRevealed := At(gk, q).isRevealed);
  }

  /** Appending the cells reached from the neighbour n of the zero cell t = order[0]
      keeps the chain. */
  lemma ChainAppend(g0: Board, gk: Board, order: seq<Pos>, sub: seq<Pos>, n: Pos)
    requires RevealsOnly(g0, gk)
    requires Chain(g0, order) && |order| > 0 && Zero(g0, order[0]) && Adjacent(order[0], n)
    requires Chain(gk, sub) && (|sub| > 0 ==> sub[0] == n)
    ensures Chain(g0, order + sub)
  {
    var s := order + sub;
    forall i | 0 < i < |s| ensures exists j :: 0 <= j < i && Zero(g0, s[j]) && Adjacent(s[j], s[i]) {
      if i < |order| {
        var j :| 0 <= j < i && Zero(g0, order[j]) && Adjacent(order[j], order[i]);
        assert s[j] == order[j];
      } else if i == |order| {
        assert s[0] == order[0];
      } else {
        var i' := i - |order|;
        var j' :| 0 <= j' < i' && Zero(gk, sub[j']) && Adjacent(sub[j'], sub[i']);
        ZeroBefore(g0, gk, sub[j']);
        assert s[|order| + j'] == sub[j'];
      }
    }
    assert forall i :: 0 < i < |s| ==> exists j :: 0 <= j < i && Zero(g0, s[j]) && Adjacent(s[j], s[i]);
  }

  lemma ClosedAppend(g0: Board, gk: Board, g1: Board, t: Pos, n: Pos, sub: seq<Pos>)
    requires RevealsOnly(g0, gk) && Closed(g0, gk, t, true)
    requires Flood(gk, g1, n, sub)
    ensures Closed(g0, g1, t, true)
  {
    forall p | Newly(g0, g1, p) && Zero(g1, p) && p != t ensures CoveredAround(g1, p) {
      NewlySplit(g0, gk, g1, p);
      if Newly(g0, gk, p) {
        CoveredAroundGrows(gk, g1, p);
      }
    }
  }

  /** Visiting the neighbour n = t + Directions[k] with a recursive reveal that takes gk
      to g1 advances the visit to k + 1. */
  lemma PartialStep(g0: Board, gk: Board, g1: Board, t: Pos, order: seq<Pos>, sub: seq<Pos>, k: nat)
    requires Partial(g0, gk, t, order, k) && k < |Directions|
    requires Flood(gk, g1, Step(t, Directions[k]), sub)
    ensures Partial(g0, g1, t, order + sub, k + 1)
  {
    var n := Step(t, Directions[k]);
    DirectionIsAdjacent(t, k);
    RevealsOnlyTrans(g0, gk, g1);
    ListsAppend(g0, gk, g1, order, sub);
    DistinctAppend(g0, gk, g1, order, sub);
    ChainAppend(g0, gk, order, sub, n);
    ClosedAppend(g0, gk, g1, t, n, sub);
    forall p | Newly(g0, g1, p) ensures !At(g0, p).isFlagged {
      NewlySplit(g0, gk, g1, p);
    }
    forall i | 0 <= i < k + 1 ensures Covered(g1, Step(t, Directions[i])) {
      if i < k {
        CoveredGrows(gk, g1, Step(t, Directions[i]));
      } else if !At(gk, n).isRevealed && !At(gk, n).isFlagged {
        assert Newly(gk, g1, sub[0]);
      }
    }
  }

  /** Once all eight neighbours are visited the reveal of t is complete. */
  lemma PartialDone(g0: Board, g: Board, t: Pos, order: seq<Pos>)
    requires Partial(g0, g, t, order, |Directions|)
    ensures Flood(g0, g, t, order)
  {
    forall q | Adjacent(t, q) ensures Covered(g, q) {
      var k := AdjacentIsDirection(t, q);
    }
    assert CoveredAround(g, t);
  }

  // ----- What a reveal guarantees ----------------------------------------------

  /** Each recursive call sees fewer hidden cells than its caller. */
  lemma PartialShrinks(g0: Board, g: Board, t: Pos, order: seq<Pos>, k: nat)
    requires Partial(g0, g, t, order, k)
    ensures Hidden(g) < Hidden(g0)
  {
    RevealsOnlyKeeps(g0, g);
    assert t in Hidden(g0) && t !in Hidden(g);
  }

  lemma FloodShrinks(g: Board, h: Board, t: Pos, order: seq<Pos>)
    requires Flood(g, h, t, order)
    ensures Hidden(h) <= Hidden(g)
  {
    RevealsOnlyKeeps(g, h);
  }

  lemma {:induction false} ChainSafe(g: Board, order: seq<Pos>, i: nat)
    requires CountsCorrect(g) && Chain(g, order) && i < |order|
    requires forall j :: 0 <= j < |order| ==> Inside(g, order[j])
    requires !At(g, order[0]).isMine
    ensures !At(g, order[i]).isMine
    decreases i
  {
    if i > 0 {
      var j :| 0 <= j < i && Zero(g, order[j]) && Adjacent(order[j], order[i]);
      ChainSafe(g, order, j);
      assert |MinesAround(g, order[j])| == 0;
      assert order[i] !in MinesAround(g, order[j]);
    }
  }

  /** Flood-fill safety: once every safe cell holds its true count, a reveal started on
      a safe cell reveals no mine, because it spreads only from cells with no mine
      around them. */
  lemma FloodSafe(g: Board, h: Board, t: Pos, order: seq<Pos>)
    requires Flood(g, h, t, order) && CountsCorrect(g) && !At(g, t).isMine
    ensures forall p :: Newly(g, h, p) ==> !At(g, p).isMine
  {
    forall p | Newly(g, h, p) ensures !At(g, p).isMine {
      var i :| 0 <= i < |order| && order[i] == p;
      ChainSafe(g, order, i);
    }
  }
}
