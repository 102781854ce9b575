/** What the warehouse's counting and traversal queries read about one ground
    cell, as a value: its active occupant (kind and moving flag) and the kind of
    its passive occupant. `MarkerCount`, `MatchedMarkerCount` and
    `HasMarkerWinCondition` of WarehouseManager.cs are defined on a grid of
    these. */
module Occupancy {
  import opened Wrappers
  import opened Kinds
  import Traversal
  import opened GridLayout

  datatype CellState = CellState(occupant: Option<Traversal.Occupant>, passive: Option<Kind>)

  /** `Ground.OccupantAsMarker`, by colour: the active occupant's colour if it
      is a marker, else the passive occupant's if that is a marker. */
  function MarkerOf(cell: CellState): (m: Option<BoxType>)
    ensures m.Some? <==> (cell.occupant.Some? && cell.occupant.value.kind.Marker?) || (cell.passive.Some? && cell.passive.value.Marker?)
  {
    if cell.occupant.Some? && cell.occupant.value.kind.Marker? then Some(cell.occupant.value.kind.markerType)
    else if cell.passive.Some? && cell.passive.value.Marker? then Some(cell.passive.value.markerType)
    else None
  }

  /** A cell holding a marker, counted by `MarkerCount`. */
  predicate Marked(cell: CellState)
  {
    MarkerOf(cell).Some?
  }

  /** A marker covered by a box of its own colour, counted by
      `MatchedMarkerCount`. */
  predicate Matched(cell: CellState)
  {
    MarkerOf(cell).Some? && cell.occupant.Some? && cell.occupant.value.kind.Box?
    && cell.occupant.value.kind.boxType == MarkerOf(cell).value
  }

  /** The ground cells of a column satisfying `p`. */
  function CountColumn(column: seq<Option<CellState>>, p: CellState -> bool): nat
  {
    if column == [] then 0
    else CountColumn(column[..|column| - 1], p) + (if column[|column| - 1].Some? && p(column[|column| - 1].value) then 1 else 0)
  }

  /** The ground cells of the grid satisfying `p`. */
  function CountGrid(g: Grid<CellState>, p: CellState -> bool): nat
  {
    if g == [] then 0 else CountGrid(g[..|g| - 1], p) + CountColumn(g[|g| - 1], p)
  }

  function MarkerCount(g: Grid<CellState>): nat
  {
    CountGrid(g, Marked)
  }

  function MatchedMarkerCount(g: Grid<CellState>): nat
  {
    CountGrid(g, Matched)
  }

  predicate HasMarkerWinCondition(g: Grid<CellState>)
  {
    MarkerCount(g) == MatchedMarkerCount(g)
  }

  /** Counting a weaker property never gives less, and gives the same exactly
      when the two agree on every ground cell of the column. */
  lemma {:induction false} CountColumnMonotone(column: seq<Option<CellState>>, p: CellState -> bool, q: CellState -> bool)
    requires forall cell :: p(cell) ==> q(cell)
    ensures CountColumn(column, p) <= CountColumn(column, q)
    ensures CountColumn(column, p) == CountColumn(column, q)
            <==> forall r :: 0 <= r < |column| && column[r].Some? && q(column[r].value) ==> p(column[r].value)
  {
    if column != [] {
      var front := column[..|column| - 1];
      CountColumnMonotone(front, p, q);
      if CountColumn(column, p) == CountColumn(column, q) {
        forall r | 0 <= r < |column| && column[r].Some? && q(column[r].value)
          ensures p(column[r].value)
        {
          if r < |front| {
            assert front[r] == column[r];
          }
        }
      } else {
        if CountColumn(front, p) == CountColumn(front, q) {
          var r := |column| - 1;
          assert column[r].Some? && q(column[r].value) && !p(column[r].value);
        } else {
          var r :| 0 <= r < |front| && front[r].Some? && q(front[r].value) && !p(front[r].value);
          assert column[r] == front[r];
        }
      }
    }
  }

  /** The same for a whole grid, cell by cell. */
  lemma {:induction false} CountGridMonotone(g: Grid<CellState>, p: CellState -> bool, q: CellState -> bool)
    requires forall cell :: p(cell) ==> q(cell)
    ensures CountGrid(g, p) <= CountGrid(g, q)
    ensures CountGrid(g, p) == CountGrid(g, q)
            <==> forall c, r :: HasCell(g, c, r) && q(g[c][r].value) ==> p(g[c][r].value)
  {
    if g != [] {
      var front := g[..|g| - 1];
      var last := g[|g| - 1];
      CountGridMonotone(front, p, q);
      CountColumnMonotone(last, p, q);
      if CountGrid(g, p) == CountGrid(g, q) {
        forall c, r | HasCell(g, c, r) && q(g[c][r].value)
          ensures p(g[c][r].value)
        {
          if c < |front| {
            assert front[c] == g[c];
            assert HasCell(front, c, r);
          }
        }
      } else if CountGrid(front, p) == CountGrid(front, q) {
        var r :| 0 <= r < |last| && last[r].Some? && q(last[r].value) && !p(last[r].value);
        assert HasCell(g, |g| - 1, r);
      } else {
        var c, r :| HasCell(front, c, r) && q(front[c][r].value) && !p(front[c][r].value);
        assert front[c] == g[c];
        assert HasCell(g, c, r);
      }
    }
  }

  /** No more markers are matched than exist, and the win condition holds
      exactly when every marker on the grid is covered by a box of its own
      colour (so a grid without markers is already won). */
  lemma WinIffAllMatched(g: Grid<CellState>)
    ensures MatchedMarkerCount(g) <= MarkerCount(g)
    ensures HasMarkerWinCondition(g) <==> forall c, r :: HasCell(g, c, r) && Marked(g[c][r].value) ==> Matched(g[c][r].value)
  {
    CountGridMonotone(g, Matched, Marked);
  }

  /** A matched cell's marker colour is the colour of the box on it. */
  lemma MatchedColours(cell: CellState)
    ensures Matched(cell) <==> exists t :: MarkerOf(cell) == Some(t) && cell.occupant.Some? && cell.occupant.value.kind == Box(t)
  {
    if Matched(cell) {
      var t := MarkerOf(cell).value;
      assert MarkerOf(cell) == Some(t) && cell.occupant.value.kind == Box(t);
    }
  }

  /** A box on a ground is never itself the marker, so a matched cell's
      marker is its passive occupant. */
  lemma MatchedMarkerIsPassive(cell: CellState)
    requires Matched(cell)
    ensures cell.passive.Some? && cell.passive.value == Marker(MarkerOf(cell).value)
  {
  }

  /** The traversal rule's view of a cell. */
  function SlotOf(cell: Option<CellState>): (s: Traversal.Slot)
    ensures s.Hole? <==> cell.None?
    ensures cell.Some? ==> s.occupant == cell.value.occupant
  {
    if cell.None? then Traversal.Hole else Traversal.Ground(cell.value.occupant)
  }

  /** The traversal rule's view of the grid: same shape, each cell through `SlotOf`. */
  function Slots(g: Grid<CellState>): (s: seq<seq<Traversal.Slot>>)
    ensures |s| == |g| && forall c :: 0 <= c < |g| ==> |s[c]| == |g[c]|
    ensures forall c, r :: InBounds(g, c, r) ==> s[c][r] == SlotOf(g[c][r])
  {
    seq(|g|, c requires 0 <= c < |g| => seq(|g[c]|, r requires 0 <= r < |g[c]| => SlotOf(g[c][r])))
  }
}
