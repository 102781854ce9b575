/** The layout of the level grid (`WarehouseManager.Data.grounds`): a jagged
    array of columns whose cells hold a ground or nothing, and the array
    arithmetic behind `ResizeGrounds`, `GrowGrounds`, `CondenseGrounds` and
    `CalculateMissingGround`. A null cell is `None`. */
module GridLayout {
  import opened Wrappers
  import opened MovementTypes
  import opened LevelRecords
  import opened EnumerableExtensions

  type Grid<T> = seq<seq<Option<T>>>

  predicate InBounds<T>(g: Grid<T>, c: int, r: int)
  {
    0 <= c < |g| && 0 <= r < |g[c]|
  }

  /** `Data.HasGround`: the index is inside the jagged array and the cell is
      not null. */
  predicate HasCell<T>(g: Grid<T>, c: int, r: int)
  {
    InBounds(g, c, r) && g[c][r].Some?
  }

  /** Every column as long as the first. */
  predicate Rectangular<T>(g: Grid<T>)
  {
    forall c :: 0 <= c < |g| ==> |g[c]| == |g[0]|
  }

  /** The objects held by the grid. */
  function Contents<T(==)>(g: Grid<T>): set<T>
  {
    set c, r | 0 <= c < |g| && 0 <= r < |g[c]| && g[c][r].Some? :: g[c][r].value
  }

  /** No object is held at two indices. */
  ghost predicate Distinct<T>(g: Grid<T>)
  {
    forall c1, r1, c2, r2 :: HasCell(g, c1, r1) && HasCell(g, c2, r2) && g[c1][r1] == g[c2][r2] ==> c1 == c2 && r1 == r2
  }

  function Min(a: int, b: int): int { if a <= b then a else b }

  function Max(a: int, b: int): int { if a >= b then a else b }

  // ----- ResizeGrounds -----

  /** Moved by (fc, fr), every non-null cell lands inside cols × rows. */
  predicate Fits<T>(g: Grid<T>, fc: int, fr: int, cols: int, rows: int)
  {
    forall c, r :: 0 <= c < |g| && 0 <= r < |g[c]| && g[c][r].Some? ==> 0 <= c + fc < cols && 0 <= r + fr < rows
  }

  /** A cols × rows array holding every cell of `g` moved by (fc, fr). */
  function Shifted<T>(g: Grid<T>, fc: int, fr: int, cols: nat, rows: nat): Grid<T>
  {
    seq(cols, c requires 0 <= c < cols =>
      seq(rows, r requires 0 <= r < rows =>
        if InBounds(g, c - fc, r - fr) then g[c - fc][r - fr] else None))
  }

  /** How `ResizeGrounds` fails: a negative array length, no first column to
      read the row count from, a ground that would fall outside, or (after the
      array has been replaced) no column to read the new row count from. */
  datatype ResizeError = NegativeLength | NoFirstColumn | Truncated | NoColumns

  /** The array `ResizeGrounds(fc, bc, fr, br)` builds from `g`, or the
      exception it throws first. The row count is read from column 0, and is
      never read when there are no new columns. */
  function Resize<T>(g: Grid<T>, fc: int, bc: int, fr: int, br: int): Result<Grid<T>, ResizeError>
  {
    var cols := |g| + fc + bc;
    if cols < 0 then Err(NegativeLength)
    else if cols == 0 then (if Fits(g, fc, fr, 0, 0) then Ok([]) else Err(Truncated))
    else if |g| == 0 then Err(NoFirstColumn)
    else
      var rows := |g[0]| + fr + br;
      if rows < 0 then Err(NegativeLength)
      else if Fits(g, fc, fr, cols, rows) then Ok(Shifted(g, fc, fr, cols, rows))
      else Err(Truncated)
  }

  /** The array-building part of `ResizeGrounds`: allocate the new array, then
      walk the old one column by column, copying each cell to its moved index
      and throwing on a ground that would fall outside. */
  method ShiftGrid<T>(g: Grid<T>, fc: int, bc: int, fr: int, br: int) returns (result: Result<Grid<T>, ResizeError>)
    ensures result == Resize(g, fc, bc, fr, br)
  {
    var cols := |g| + fc + bc;
    if cols < 0 {
      return Err(NegativeLength);
    }
    var rows := 0;
    if cols > 0 {
      if |g| == 0 {
        return Err(NoFirstColumn);
      }
      rows := |g[0]| + fr + br;
      if rows < 0 {
        return Err(NegativeLength);
      }
    }
    var next: Grid<T> := seq(cols, c => seq(rows, r => None));
    var x := 0;
    while x < |g|
      invariant 0 <= x <= |g|
      invariant |next| == cols && forall c :: 0 <= c < cols ==> |next[c]| == rows
      invariant forall c, r :: 0 <= c < cols && 0 <= r < rows ==>
        next[c][r] == if InBounds(g, c - fc, r - fr) && c - fc < x then g[c - fc][r - fr] else None
      invariant forall c, r :: InBounds(g, c, r) && c < x && g[c][r].Some? ==> 0 <= c + fc < cols && 0 <= r + fr < rows
    {
      var y := 0;
      while y < |g[x]|
        invariant 0 <= y <= |g[x]|
        invariant |next| == cols && forall c :: 0 <= c < cols ==> |next[c]| == rows
        invariant forall c, r :: 0 <= c < cols && 0 <= r < rows ==>
          next[c][r] == if InBounds(g, c - fc, r - fr) && (c - fc < x || (c - fc == x && r - fr < y)) then g[c - fc][r - fr] else None
        invariant forall c, r :: InBounds(g, c, r) && (c < x || (c == x && r < y)) && g[c][r].Some? ==> 0 <= c + fc < cols && 0 <= r + fr < rows
      {
        var nx, ny := x + fc, y + fr;
        if nx < 0 || ny < 0 || nx >= cols || ny >= rows {
          if g[x][y].Some? {
            assert !Fits(g, fc, fr, cols, rows);
            return Err(Truncated);
          }
        } else {
          next := next[nx := next[nx][ny := g[x][y]]];
        }
        y := y + 1;
      }
      x := x + 1;
    }
    assert Fits(g, fc, fr, cols, rows);
    if cols == 0 {
      return Ok([]);
    }
    assert next == Shifted(g, fc, fr, cols, rows) by {
      forall c | 0 <= c < cols
        ensures next[c] == Shifted(g, fc, fr, cols, rows)[c]
      {
      }
    }
    return Ok(next);
  }

  /** A successful resize has the requested dimensions and holds every cell
      of the old array at its moved index; every cell of the new array is
      either such a moved cell or null. */
  lemma ResizeMovesCells<T>(g: Grid<T>, fc: int, bc: int, fr: int, br: int)
    requires Resize(g, fc, bc, fr, br).Ok?
    ensures var ng := Resize(g, fc, bc, fr, br).value;
      && |ng| == |g| + fc + bc
      && (|ng| > 0 ==> Rectangular(ng) && |ng[0]| == |g[0]| + fr + br)
      && (forall c, r :: HasCell(g, c, r) ==> InBounds(ng, c + fc, r + fr) && ng[c + fc][r + fr] == g[c][r])
      && (forall c, r :: HasCell(ng, c, r) ==> InBounds(g, c - fc, r - fr) && g[c - fc][r - fr] == ng[c][r])
  {
  }

  /** `ResizeGrounds` throws `Truncated` exactly when some ground would fall
      outside the new dimensions, and then only if no length was negative. */
  lemma ResizeTruncatesOnlyGround<T>(g: Grid<T>, fc: int, bc: int, fr: int, br: int)
    requires |g| > 0 && |g| + fc + bc > 0 && |g[0]| + fr + br >= 0
    ensures Resize(g, fc, bc, fr, br) == Err(Truncated)
            <==> exists c, r :: HasCell(g, c, r) && !(0 <= c + fc < |g| + fc + bc && 0 <= r + fr < |g[0]| + fr + br)
  {
    var cols, rows := |g| + fc + bc, |g[0]| + fr + br;
    if exists c, r :: HasCell(g, c, r) && !(0 <= c + fc < cols && 0 <= r + fr < rows) {
      var c, r :| HasCell(g, c, r) && !(0 <= c + fc < cols && 0 <= r + fr < rows);
      assert !Fits(g, fc, fr, cols, rows);
    } else {
      forall c, r | 0 <= c < |g| && 0 <= r < |g[c]| && g[c][r].Some?
        ensures 0 <= c + fc < cols && 0 <= r + fr < rows
      {
        assert HasCell(g, c, r);
      }
    }
  }

  /** A successful resize loses no object and keeps them at distinct indices. */
  lemma ResizeKeepsContents<T>(g: Grid<T>, fc: int, bc: int, fr: int, br: int)
    requires Resize(g, fc, bc, fr, br).Ok?
    ensures var ng := Resize(g, fc, bc, fr, br).value;
      Contents(ng) == Contents(g) && (Distinct(g) ==> Distinct(ng))
  {
    var ng := Resize(g, fc, bc, fr, br).value;
    ResizeMovesCells(g, fc, bc, fr, br);
    forall x | x in Contents(g)
      ensures x in Contents(ng)
    {
      var c, r :| 0 <= c < |g| && 0 <= r < |g[c]| && g[c][r].Some? && g[c][r].value == x;
      assert HasCell(g, c, r);
      assert ng[c + fc][r + fr] == g[c][r];
    }
    forall x | x in Contents(ng)
      ensures x in Contents(g)
    {
      var c, r :| 0 <= c < |ng| && 0 <= r < |ng[c]| && ng[c][r].Some? && ng[c][r].value == x;
      assert HasCell(ng, c, r);
      assert g[c - fc][r - fr] == ng[c][r];
    }
    if Distinct(g) {
      forall c1, r1, c2, r2 | HasCell(ng, c1, r1) && HasCell(ng, c2, r2) && ng[c1][r1] == ng[c2][r2]
        ensures c1 == c2 && r1 == r2
      {
        assert HasCell(g, c1 - fc, r1 - fr) && HasCell(g, c2 - fc, r2 - fr);
      }
    }
  }

  // ----- GrowGrounds -----

  /** The paddings `GrowGrounds(c, r)` asks for: in front, enough to bring a
      negative index to 0; behind, enough to reach an index past the end. */
  function FrontPadding(index: int): int
  {
    -Min(0, index)
  }

  function BackPadding(length: int, index: int): int
  {
    Max(length - 1, index) - (length - 1)
  }

  /** `GrowGrounds(c, r)`; it reads the row count from column 0. */
  function Grow<T>(g: Grid<T>, c: int, r: int): Result<Grid<T>, ResizeError>
  {
    if |g| == 0 then Err(NoFirstColumn)
    else Resize(g, FrontPadding(c), BackPadding(|g|, c), FrontPadding(r), BackPadding(|g[0]|, r))
  }

  /** Growing a rectangular array never fails, keeps it rectangular, moves
      every ground by the front paddings, and makes the clamped index
      (max(c, 0), max(r, 0)) a valid index. */
  lemma GrowReaches<T>(g: Grid<T>, c: int, r: int)
    requires |g| > 0 && Rectangular(g)
    ensures Grow(g, c, r).Ok?
    ensures var ng := Grow(g, c, r).value;
      && Rectangular(ng)
      && |ng| >= |g| && |ng[0]| >= |g[0]|
      && InBounds(ng, Max(c, 0), Max(r, 0))
      && (forall x, y :: HasCell(g, x, y) ==> ng[x + FrontPadding(c)][y + FrontPadding(r)] == g[x][y])
  {
    var fc, bc := FrontPadding(c), BackPadding(|g|, c);
    var fr, br := FrontPadding(r), BackPadding(|g[0]|, r);
    assert Fits(g, fc, fr, |g| + fc + bc, |g[0]| + fr + br);
    ResizeMovesCells(g, fc, bc, fr, br);
  }

  // ----- CondenseGrounds -----

  predicate ColumnEmpty<T>(column: seq<Option<T>>)
  {
    forall r :: 0 <= r < |column| ==> column[r].None?
  }

  /** Row `i` is null in every column (`grounds.All(x => x[i] == null)`). */
  predicate RowEmpty<T>(g: Grid<T>, i: int)
    requires Rectangular(g) && (|g| > 0 ==> 0 <= i < |g[0]|)
  {
    forall c :: 0 <= c < |g| ==> g[c][i].None?
  }

  /** The index of the first column holding a ground (`FirstOrDefault` then
      `Array.IndexOf`), 0 when there is none. */
  function FirstOccupied<T>(g: Grid<T>): (i: nat)
    ensures i < |g| || i == 0
    ensures forall j :: 0 <= j < i ==> ColumnEmpty(g[j])
    ensures i < |g| ==> (!ColumnEmpty(g[i]) || forall j :: 0 <= j < |g| ==> ColumnEmpty(g[j]))
  {
    FirstOccupiedFrom(g, 0)
  }

  function FirstOccupiedFrom<T>(g: Grid<T>, from: nat): (i: nat)
    requires from <= |g|
    requires forall j :: 0 <= j < from ==> ColumnEmpty(g[j])
    ensures i < |g| || i == 0
    ensures forall j :: 0 <= j < i ==> ColumnEmpty(g[j])
    ensures i < |g| ==> (!ColumnEmpty(g[i]) || forall j :: 0 <= j < |g| ==> ColumnEmpty(g[j]))
    decreases |g| - from
  {
    if from == |g| then 0
    else if !ColumnEmpty(g[from]) then from
    else FirstOccupiedFrom(g, from + 1)
  }

  /** The index of the last column holding a ground (`LastOrDefault` then
      `Array.IndexOf`), 0 when there is none. */
  function LastOccupied<T>(g: Grid<T>): (i: nat)
    ensures i < |g| || i == 0
    ensures forall j :: i < j < |g| ==> ColumnEmpty(g[j])
    ensures i < |g| ==> (!ColumnEmpty(g[i]) || forall j :: 0 <= j < |g| ==> ColumnEmpty(g[j]))
  {
    LastOccupiedBelow(g, |g|)
  }

  function LastOccupiedBelow<T>(g: Grid<T>, below: nat): (i: nat)
    requires below <= |g|
    requires forall j :: below <= j < |g| ==> ColumnEmpty(g[j])
    ensures i < |g| || i == 0
    ensures forall j :: i < j < |g| ==> ColumnEmpty(g[j])
    ensures i < |g| ==> (!ColumnEmpty(g[i]) || forall j :: 0 <= j < |g| ==> ColumnEmpty(g[j]))
    decreases below
  {
    if below == 0 then 0
    else if !ColumnEmpty(g[below - 1]) then below - 1
    else LastOccupiedBelow(g, below - 1)
  }

  /** The number of null rows at the front: rows 0 .. n-1 are null in every
      column and row n, if it exists, is not. */
  predicate LeadingEmptyRows<T>(g: Grid<T>, n: int)
    requires |g| > 0 && Rectangular(g)
  {
    && 0 <= n <= |g[0]|
    && (forall i :: 0 <= i < n ==> RowEmpty(g, i))
    && (n < |g[0]| ==> !RowEmpty(g, n))
  }

  /** The number of null rows at the back. */
  predicate TrailingEmptyRows<T>(g: Grid<T>, n: int)
    requires |g| > 0 && Rectangular(g)
  {
    && 0 <= n <= |g[0]|
    && (forall i :: |g[0]| - n <= i < |g[0]| ==> RowEmpty(g, i))
    && (n < |g[0]| ==> !RowEmpty(g, |g[0]| - 1 - n))
  }

  /** The counting loop of the front half of `CondenseGrounds`. */
  method CountLeadingEmptyRows<T>(g: Grid<T>) returns (n: int)
    requires |g| > 0 && Rectangular(g)
    ensures LeadingEmptyRows(g, n)
  {
    n := 0;
    var i := 0;
    while i < |g[0]|
      invariant 0 <= i <= |g[0]| && n == i
      invariant forall k :: 0 <= k < i ==> RowEmpty(g, k)
    {
      if !RowEmpty(g, i) {
        break;
      }
      n := n + 1;
      i := i + 1;
    }
  }

  /** The counting loop of the back half of `CondenseGrounds`. */
  method CountTrailingEmptyRows<T>(g: Grid<T>) returns (n: int)
    requires |g| > 0 && Rectangular(g)
    ensures TrailingEmptyRows(g, n)
  {
    n := 0;
    var i := |g[0]| - 1;
    while i >= 0
      invariant -1 <= i < |g[0]| && n == |g[0]| - 1 - i
      invariant forall k :: i < k < |g[0]| ==> RowEmpty(g, k)
    {
      if !RowEmpty(g, i) {
        break;
      }
      n := n + 1;
      i := i - 1;
    }
  }

  /** Dropping null columns and rows in front never truncates a ground. */
  lemma CondenseFrontFits<T>(g: Grid<T>, rows: int)
    requires |g| > 0 && Rectangular(g) && LeadingEmptyRows(g, rows)
    ensures Resize(g, -(FirstOccupied(g) as int), 0, -rows, 0).Ok?
  {
    var cc := FirstOccupied(g) as int;
    forall c, r | 0 <= c < |g| && 0 <= r < |g[c]| && g[c][r].Some?
      ensures 0 <= c - cc < |g| - cc && 0 <= r - rows < |g[0]| - rows
    {
      assert !ColumnEmpty(g[c]);
      assert !RowEmpty(g, r);
    }
    assert Fits(g, -cc, -rows, |g| - cc, |g[0]| - rows);
  }

  /** Dropping null columns and rows at the back never truncates a ground. */
  lemma CondenseBackFits<T>(g: Grid<T>, rows: int)
    requires |g| > 0 && Rectangular(g) && TrailingEmptyRows(g, rows)
    ensures Resize(g, 0, -(|g| - 1 - LastOccupied(g)), 0, -rows).Ok?
  {
    var last := LastOccupied(g);
    forall c, r | 0 <= c < |g| && 0 <= r < |g[c]| && g[c][r].Some?
      ensures 0 <= c <= last && 0 <= r < |g[0]| - rows
    {
      assert !ColumnEmpty(g[c]);
      assert !RowEmpty(g, r);
    }
    assert Fits(g, 0, 0, last + 1, |g[0]| - rows);
  }

  /** The front half of `CondenseGrounds`, given the count of null rows in
      front: drop the null columns and rows in front, if there are any. */
  function CondenseFront<T>(g: Grid<T>, rows: int): Grid<T>
    requires |g| > 0 && Rectangular(g) && LeadingEmptyRows(g, rows)
  {
    var cc := FirstOccupied(g) as int;
    if cc > 0 || rows > 0 then
      CondenseFrontFits(g, rows);
      Resize(g, -cc, 0, -rows, 0).value
    else g
  }

  /** A grid that needs condensing at the front condenses to its resize. */
  lemma CondenseFrontIsResize<T>(g: Grid<T>, rows: int, ng: Grid<T>)
    requires |g| > 0 && Rectangular(g) && LeadingEmptyRows(g, rows)
    requires var cc := FirstOccupied(g) as int;
      (cc > 0 || rows > 0) && Resize(g, -cc, 0, -rows, 0).Ok? && ng == Resize(g, -cc, 0, -rows, 0).value
    ensures CondenseFront(g, rows) == ng
  {
  }

  /** The back half, given the count of null rows at the back. */
  function CondenseBack<T>(g: Grid<T>, rows: int): Grid<T>
    requires |g| > 0 && Rectangular(g) && TrailingEmptyRows(g, rows)
  {
    var cc := |g| - 1 - LastOccupied(g);
    if cc > 0 || rows > 0 then
      CondenseBackFits(g, rows);
      Resize(g, 0, -cc, 0, -rows).value
    else g
  }

  /** A grid that needs condensing at the back condenses to its resize. */
  lemma CondenseBackIsResize<T>(g: Grid<T>, rows: int, ng: Grid<T>)
    requires |g| > 0 && Rectangular(g) && TrailingEmptyRows(g, rows)
    requires var cc := |g| - 1 - LastOccupied(g);
      (cc > 0 || rows > 0) && Resize(g, 0, -cc, 0, -rows).Ok? && ng == Resize(g, 0, -cc, 0, -rows).value
    ensures CondenseBack(g, rows) == ng
  {
  }

  ghost predicate Occupied<T>(g: Grid<T>)
  {
    exists c, r :: HasCell(g, c, r)
  }

  /** The first and last column and row each hold a ground (when any ground
      is left at all). */
  ghost predicate Tight<T>(g: Grid<T>)
    requires |g| > 0 && Rectangular(g)
  {
    Occupied(g) ==> && !ColumnEmpty(g[0]) && !ColumnEmpty(g[|g| - 1])
                    && |g[0]| > 0 && !RowEmpty(g, 0) && !RowEmpty(g, |g[0]| - 1)
  }

  /** The dimensions of a successful resize. */
  lemma ResizeShape<T>(g: Grid<T>, fc: int, bc: int, fr: int, br: int)
    requires Resize(g, fc, bc, fr, br).Ok?
    ensures var ng := Resize(g, fc, bc, fr, br).value;
      |ng| == |g| + fc + bc && (|ng| > 0 ==> Rectangular(ng) && |ng[0]| == |g[0]| + fr + br)
  {
  }

  /** One ground cell through a successful resize, forwards. */
  lemma ResizeCell<T>(g: Grid<T>, fc: int, bc: int, fr: int, br: int, c: int, r: int)
    requires Resize(g, fc, bc, fr, br).Ok? && HasCell(g, c, r)
    ensures HasCell(Resize(g, fc, bc, fr, br).value, c + fc, r + fr)
  {
    ResizeMovesCells(g, fc, bc, fr, br);
  }

  /** One ground cell through a successful resize, backwards. */
  lemma ResizeCellBack<T>(g: Grid<T>, fc: int, bc: int, fr: int, br: int, c: int, r: int)
    requires Resize(g, fc, bc, fr, br).Ok? && HasCell(Resize(g, fc, bc, fr, br).value, c, r)
    ensures HasCell(g, c - fc, r - fr)
  {
    ResizeMovesCells(g, fc, bc, fr, br);
  }

  /** A successful resize of an occupied grid leaves a non-empty rectangle
      that is still occupied, and an unoccupied one stays unoccupied. */
  lemma ResizeKeepsOccupied<T>(g: Grid<T>, fc: int, bc: int, fr: int, br: int)
    requires Resize(g, fc, bc, fr, br).Ok?
    ensures var ng := Resize(g, fc, bc, fr, br).value;
      (Occupied(ng) <==> Occupied(g)) && (|ng| > 0 ==> Rectangular(ng))
  {
    var ng := Resize(g, fc, bc, fr, br).value;
    ResizeMovesCells(g, fc, bc, fr, br);
    if Occupied(g) {
      var c, r :| HasCell(g, c, r);
      ResizeCell(g, fc, bc, fr, br, c, r);
    }
    if Occupied(ng) {
      var c, r :| HasCell(ng, c, r);
      ResizeCellBack(g, fc, bc, fr, br, c, r);
    }
  }

  /** Condensing the front loses no ground and keeps them at distinct
      indices. */
  lemma CondenseFrontKeeps<T>(g: Grid<T>, rows: int)
    requires |g| > 0 && Rectangular(g) && LeadingEmptyRows(g, rows)
    ensures var ng := CondenseFront(g, rows);
      Contents(ng) == Contents(g) && (Distinct(g) ==> Distinct(ng))
  {
    var cc := FirstOccupied(g) as int;
    if cc > 0 || rows > 0 {
      CondenseFrontFits(g, rows);
      var ng := Resize(g, -cc, 0, -rows, 0).value;
      CondenseFrontIsResize(g, rows, ng);
      ResizeKeepsContents(g, -cc, 0, -rows, 0);
    } else {
      assert CondenseFront(g, rows) == g;
    }
  }

  /** Condensing the back loses no ground and keeps them at distinct
      indices. */
  lemma CondenseBackKeeps<T>(g: Grid<T>, rows: int)
    requires |g| > 0 && Rectangular(g) && TrailingEmptyRows(g, rows)
    ensures var ng := CondenseBack(g, rows);
      Contents(ng) == Contents(g) && (Distinct(g) ==> Distinct(ng))
  {
    var cc := |g| - 1 - LastOccupied(g);
    if cc > 0 || rows > 0 {
      CondenseBackFits(g, rows);
      var ng := Resize(g, 0, -cc, 0, -rows).value;
      CondenseBackIsResize(g, rows, ng);
      ResizeKeepsContents(g, 0, -cc, 0, -rows);
    } else {
      assert CondenseBack(g, rows) == g;
    }
  }

  /** Condensing the front leaves a non-empty rectangle, occupied exactly
      when the grid was, whose first column and row hold a ground. */
  lemma CondenseFrontTightens<T>(g: Grid<T>, rows: int)
    requires |g| > 0 && Rectangular(g) && LeadingEmptyRows(g, rows)
    ensures var ng := CondenseFront(g, rows);
      && |ng| > 0 && Rectangular(ng)
      && (Occupied(ng) <==> Occupied(g))
      && (Occupied(ng) ==> !ColumnEmpty(ng[0]) && |ng[0]| > 0 && !RowEmpty(ng, 0))
  {
    var cc := FirstOccupied(g) as int;
    if cc > 0 || rows > 0 {
      CondenseFrontFits(g, rows);
      CondenseFrontShifted(g, rows, cc);
    } else if Occupied(g) {
      FrontCells(g, rows, cc);
      var r0 :| HasCell(g, 0, r0);
      var c0 :| HasCell(g, c0, 0);
      assert g[c0][0].Some?;
    }
  }

  /** The resizing case of `CondenseFrontTightens`. */
  lemma CondenseFrontShifted<T>(g: Grid<T>, rows: int, cc: int)
    requires |g| > 0 && Rectangular(g) && LeadingEmptyRows(g, rows)
    requires cc == FirstOccupied(g) as int && Resize(g, -cc, 0, -rows, 0).Ok?
    ensures var ng := Resize(g, -cc, 0, -rows, 0).value;
      && |ng| > 0 && Rectangular(ng)
      && (Occupied(ng) <==> Occupied(g))
      && (Occupied(ng) ==> !ColumnEmpty(ng[0]) && |ng[0]| > 0 && !RowEmpty(ng, 0))
  {
    ResizeShape(g, -cc, 0, -rows, 0);
    ResizeKeepsOccupied(g, -cc, 0, -rows, 0);
    if Occupied(g) {
      FrontCells(g, rows, cc);
      FrontColumnKept(g, rows, cc);
      FrontRowKept(g, rows, cc);
    }
  }

  /** The first occupied column becomes the first column. */
  lemma FrontColumnKept<T>(g: Grid<T>, rows: int, cc: int)
    requires Resize(g, -cc, 0, -rows, 0).Ok? && exists r :: HasCell(g, cc, r)
    ensures var ng := Resize(g, -cc, 0, -rows, 0).value;
      |ng| > 0 && !ColumnEmpty(ng[0])
  {
    var ng: Grid<T> := Resize(g, -cc, 0, -rows, 0).value;
    var r0 :| HasCell(g, cc, r0);
    ResizeCell(g, -cc, 0, -rows, 0, cc, r0);
    assert ng[0][r0 - rows].Some?;
  }

  /** The first non-null row becomes the first row. */
  lemma FrontRowKept<T>(g: Grid<T>, rows: int, cc: int)
    requires Resize(g, -cc, 0, -rows, 0).Ok? && exists c :: HasCell(g, c, rows)
    ensures var ng := Resize(g, -cc, 0, -rows, 0).value;
      |ng| > 0 && Rectangular(ng) && |ng[0]| > 0 && !RowEmpty(ng, 0)
  {
    var ng: Grid<T> := Resize(g, -cc, 0, -rows, 0).value;
    ResizeShape(g, -cc, 0, -rows, 0);
    var c0 :| HasCell(g, c0, rows);
    ResizeCell(g, -cc, 0, -rows, 0, c0, rows);
    assert ng[c0 - cc][0].Some?;
  }

  /** In an occupied grid the first occupied column and the first non-null
      row each hold a ground. */
  lemma FrontCells<T>(g: Grid<T>, rows: int, cc: int)
    requires |g| > 0 && Rectangular(g) && LeadingEmptyRows(g, rows) && Occupied(g)
    requires cc == FirstOccupied(g) as int
    ensures exists r :: HasCell(g, cc, r)
    ensures exists c :: HasCell(g, c, rows)
  {
    var c, r :| HasCell(g, c, r);
    assert !ColumnEmpty(g[c]);
    var r0 :| 0 <= r0 < |g[cc]| && g[cc][r0].Some?;
    assert HasCell(g, cc, r0);
    assert !RowEmpty(g, r);
    var c0 :| 0 <= c0 < |g| && g[c0][rows].Some?;
    assert HasCell(g, c0, rows);
  }

  /** In an occupied grid the last occupied column and the last non-null
      row each hold a ground. */
  lemma BackCells<T>(g: Grid<T>, rows: int, last: int, bottom: int)
    requires |g| > 0 && Rectangular(g) && TrailingEmptyRows(g, rows) && Occupied(g)
    requires last == LastOccupied(g) as int && bottom == |g[0]| - 1 - rows
    ensures exists r :: HasCell(g, last, r)
    ensures exists c :: HasCell(g, c, bottom)
  {
    var c, r :| HasCell(g, c, r);
    assert !ColumnEmpty(g[c]);
    var r0 :| 0 <= r0 < |g[last]| && g[last][r0].Some?;
    assert HasCell(g, last, r0);
    assert !RowEmpty(g, r);
    var c0 :| 0 <= c0 < |g| && g[c0][|g[0]| - 1 - rows].Some?;
    assert HasCell(g, c0, |g[0]| - 1 - rows);
  }

  /** Condensing the back keeps what the front half established and makes
      the last column and row hold a ground: the result is `Tight`. */
  lemma CondenseBackTightens<T>(g: Grid<T>, rows: int)
    requires |g| > 0 && Rectangular(g) && TrailingEmptyRows(g, rows)
    requires Occupied(g) ==> !ColumnEmpty(g[0]) && |g[0]| > 0 && !RowEmpty(g, 0)
    ensures var ng := CondenseBack(g, rows);
      && |ng| > 0 && Rectangular(ng)
      && (Occupied(ng) <==> Occupied(g))
      && Tight(ng)
  {
    var cc := |g| - 1 - LastOccupied(g);
    if cc > 0 || rows > 0 {
      CondenseBackFits(g, rows);
      CondenseBackShifted(g, rows, cc);
    } else if Occupied(g) {
      BackCells(g, rows, |g| - 1, |g[0]| - 1);
      var r1 :| HasCell(g, |g| - 1, r1);
      var c1 :| HasCell(g, c1, |g[0]| - 1);
      assert g[c1][|g[0]| - 1].Some?;
    }
  }

  /** The resizing case of `CondenseBackTightens`. */
  lemma CondenseBackShifted<T>(g: Grid<T>, rows: int, cc: int)
    requires |g| > 0 && Rectangular(g) && TrailingEmptyRows(g, rows)
    requires Occupied(g) ==> !ColumnEmpty(g[0]) && |g[0]| > 0 && !RowEmpty(g, 0)
    requires cc == |g| - 1 - LastOccupied(g) && Resize(g, 0, -cc, 0, -rows).Ok?
    ensures var ng := Resize(g, 0, -cc, 0, -rows).value;
      && |ng| > 0 && Rectangular(ng)
      && (Occupied(ng) <==> Occupied(g))
      && Tight(ng)
  {
    var ng: Grid<T> := Resize(g, 0, -cc, 0, -rows).value;
    ResizeShape(g, 0, -cc, 0, -rows);
    ResizeKeepsOccupied(g, 0, -cc, 0, -rows);
    if Occupied(g) {
      BackKeepsFront(g, rows, cc);
      BackReachesBack(g, rows, cc);
    }
  }

  /** Dropping columns and rows at the back leaves the first column and row. */
  lemma BackKeepsFront<T>(g: Grid<T>, rows: int, cc: int)
    requires |g| > 0 && Rectangular(g) && TrailingEmptyRows(g, rows) && Occupied(g)
    requires !ColumnEmpty(g[0]) && |g[0]| > 0 && !RowEmpty(g, 0)
    requires cc == |g| - 1 - LastOccupied(g) && Resize(g, 0, -cc, 0, -rows).Ok?
    ensures var ng := Resize(g, 0, -cc, 0, -rows).value;
      |ng| > 0 && Rectangular(ng) && !ColumnEmpty(ng[0]) && |ng[0]| > 0 && !RowEmpty(ng, 0)
  {
    ResizeShape(g, 0, -cc, 0, -rows);
    BackKeepsFirstColumn(g, rows, cc);
    BackKeepsFirstRow(g, rows, cc);
  }

  lemma BackKeepsFirstColumn<T>(g: Grid<T>, rows: int, cc: int)
    requires |g| > 0 && !ColumnEmpty(g[0])
    requires Resize(g, 0, -cc, 0, -rows).Ok?
    ensures var ng := Resize(g, 0, -cc, 0, -rows).value;
      |ng| > 0 && !ColumnEmpty(ng[0])
  {
    var ng: Grid<T> := Resize(g, 0, -cc, 0, -rows).value;
    var r0 :| 0 <= r0 < |g[0]| && g[0][r0].Some?;
    assert HasCell(g, 0, r0);
    ResizeCell(g, 0, -cc, 0, -rows, 0, r0);
    assert ng[0][r0].Some?;
  }

  lemma BackKeepsFirstRow<T>(g: Grid<T>, rows: int, cc: int)
    requires |g| > 0 && Rectangular(g) && |g[0]| > 0 && !RowEmpty(g, 0)
    requires Resize(g, 0, -cc, 0, -rows).Ok?
    ensures var ng := Resize(g, 0, -cc, 0, -rows).value;
      |ng| > 0 && |ng[0]| > 0 && !RowEmpty(ng, 0)
  {
    var ng: Grid<T> := Resize(g, 0, -cc, 0, -rows).value;
    ResizeShape(g, 0, -cc, 0, -rows);
    var c0 :| 0 <= c0 < |g| && g[c0][0].Some?;
    ResizeCell(g, 0, -cc, 0, -rows, c0, 0);
    assert ng[c0][0].Some?;
  }

  /** Dropping columns and rows at the back leaves a ground in the new last
      column and row. */
  lemma BackReachesBack<T>(g: Grid<T>, rows: int, cc: int)
    requires |g| > 0 && Rectangular(g) && TrailingEmptyRows(g, rows) && Occupied(g)
    requires cc == |g| - 1 - LastOccupied(g) && Resize(g, 0, -cc, 0, -rows).Ok?
    ensures var ng := Resize(g, 0, -cc, 0, -rows).value;
      |ng| > 0 && Rectangular(ng) && !ColumnEmpty(ng[|ng| - 1]) && |ng[0]| > 0 && !RowEmpty(ng, |ng[0]| - 1)
  {
    ResizeShape(g, 0, -cc, 0, -rows);
    var last := LastOccupied(g) as int;
    var bottom := |g[0]| - 1 - rows;
    BackCells(g, rows, last, bottom);
    LastColumnKept(g, rows, cc, last);
    LastRowKept(g, rows, cc, bottom);
  }

  /** The last occupied column becomes the last column. */
  lemma LastColumnKept<T>(g: Grid<T>, rows: int, cc: int, last: int)
    requires Resize(g, 0, -cc, 0, -rows).Ok? && |g| - cc > 0 && last == |g| - 1 - cc
    requires exists r :: HasCell(g, last, r)
    ensures var ng := Resize(g, 0, -cc, 0, -rows).value;
      |ng| > 0 && !ColumnEmpty(ng[|ng| - 1])
  {
    var ng: Grid<T> := Resize(g, 0, -cc, 0, -rows).value;
    ResizeShape(g, 0, -cc, 0, -rows);
    var r1 :| HasCell(g, last, r1);
    ResizeCell(g, 0, -cc, 0, -rows, last, r1);
    assert ng[|ng| - 1][r1].Some?;
  }

  /** The last non-null row becomes the last row. */
  lemma LastRowKept<T>(g: Grid<T>, rows: int, cc: int, bottom: int)
    requires Resize(g, 0, -cc, 0, -rows).Ok? && |g| - cc > 0 && |g| > 0 && bottom == |g[0]| - 1 - rows
    requires exists c :: HasCell(g, c, bottom)
    ensures var ng := Resize(g, 0, -cc, 0, -rows).value;
      |ng| > 0 && Rectangular(ng) && |ng[0]| > 0 && !RowEmpty(ng, |ng[0]| - 1)
  {
    var ng: Grid<T> := Resize(g, 0, -cc, 0, -rows).value;
    ResizeShape(g, 0, -cc, 0, -rows);
    var c1 :| HasCell(g, c1, bottom);
    ResizeCell(g, 0, -cc, 0, -rows, c1, bottom);
    assert ng[c1][|ng[0]| - 1].Some?;
  }

  // ----- CalculateMissingGround -----

  /** The holes of one column `c`, bottom to top. */
  function ColumnHoles<T>(column: seq<Option<T>>, c: int): seq<MissingGround>
  {
    if column == [] then []
    else
      var last := |column| - 1;
      ColumnHoles(column[..last], c) + (if column[last].None? then [MissingGround(c, last)] else [])
  }

  /** The holes of a grid, column by column. */
  function GridHoles<T>(g: Grid<T>): seq<MissingGround>
  {
    if g == [] then []
    else GridHoles(g[..|g| - 1]) + ColumnHoles(g[|g| - 1], |g| - 1)
  }

  /** The callback `CalculateMissingGround` hands to the 2-D `ForEach`. */
  function HoleAt<T>(cell: Option<T>, position: Vec): Option<MissingGround>
  {
    if cell.None? then Some(MissingGround(position.x, position.y)) else None
  }

  /** The grid as the 2-D `ForEach` sees it: no column is null. */
  function Columns<T>(g: Grid<T>): seq<Option<seq<Option<T>>>>
  {
    seq(|g|, c requires 0 <= c < |g| => Some(g[c]))
  }

  lemma {:induction false} ColumnHolesAreVisited<T>(column: seq<Option<T>>, c: int)
    ensures NonNull(ColumnResults(Some(column), c, HoleAt)) == ColumnHoles(column, c)
    decreases |column|
  {
    if column != [] {
      var last := |column| - 1;
      var init := column[..last];
      ColumnHolesAreVisited(init, c);
      assert ColumnResults(Some(column), c, HoleAt)
             == ColumnResults(Some(init), c, HoleAt) + [HoleAt(column[last], Vec(c, last))];
      NonNullAppend(ColumnResults(Some(init), c, HoleAt), [HoleAt(column[last], Vec(c, last))]);
      assert NonNull([HoleAt(column[last], Vec(c, last))])
             == NonNull([HoleAt(column[last], Vec(c, last))][..0]) + (if column[last].None? then [MissingGround(c, last)] else []);
    }
  }

  /** The filtered column-major enumeration is exactly `GridHoles`. */
  lemma {:induction false} GridHolesAreVisited<T>(g: Grid<T>)
    ensures NonNull(Visit(Columns(g), HoleAt)) == GridHoles(g)
    decreases |g|
  {
    if g != [] {
      var last := |g| - 1;
      assert Columns(g)[..last] == Columns(g[..last]);
      GridHolesAreVisited(g[..last]);
      ColumnHolesAreVisited(g[last], last);
      NonNullAppend(Visit(Columns(g[..last]), HoleAt), ColumnResults(Some(g[last]), last, HoleAt));
    }
  }

  lemma {:induction false} ColumnHolesExact<T>(column: seq<Option<T>>, c: int, m: MissingGround)
    ensures m in ColumnHoles(column, c) <==> m.x == c && 0 <= m.y < |column| && column[m.y].None?
    ensures forall h :: h in ColumnHoles(column, c) ==> h.x == c && 0 <= h.y < |column|
    decreases |column|
  {
    if column != [] {
      var last := |column| - 1;
      ColumnHolesExact(column[..last], c, m);
    }
  }

  /** `missingGround` lists exactly the in-range null cells. */
  lemma {:induction false} GridHolesExact<T>(g: Grid<T>, m: MissingGround)
    ensures m in GridHoles(g) <==> InBounds(g, m.x, m.y) && g[m.x][m.y].None?
    decreases |g|
  {
    if g != [] {
      var last := |g| - 1;
      GridHolesExact(g[..last], m);
      ColumnHolesExact(g[last], last, m);
    }
  }

  lemma {:induction false} ColumnHolesSorted<T>(column: seq<Option<T>>, c: int)
    ensures SortedBy(ColumnHoles(column, c), GroundKey)
    decreases |column|
  {
    if column != [] {
      var last := |column| - 1;
      ColumnHolesSorted(column[..last], c);
      ColumnHolesExact(column[..last], c, MissingGround(c, last));
    }
  }

  lemma {:induction false} GridHolesBounded<T>(g: Grid<T>, h: MissingGround)
    requires h in GridHoles(g)
    ensures 0 <= h.x < |g|
  {
    GridHolesExact(g, h);
  }

  /** Column-major order is ascending (x, y) order, the order the level
      comparer sorts by. */
  lemma {:induction false} GridHolesSorted<T>(g: Grid<T>)
    ensures SortedBy(GridHoles(g), GroundKey)
    decreases |g|
  {
    if g != [] {
      var last := |g| - 1;
      var front, back := GridHoles(g[..last]), ColumnHoles(g[last], last);
      GridHolesSorted(g[..last]);
      ColumnHolesSorted(g[last], last);
      forall i, j | 0 <= i < |front| && 0 <= j < |back|
        ensures KeyLe(GroundKey(front[i]), GroundKey(back[j]))
      {
        GridHolesBounded(g[..last], front[i]);
        ColumnHolesExact(g[last], last, back[j]);
      }
    }
  }
  // ----- Enumerating the held objects -----

  /** The callback that hands each cell through unchanged. */
  function Keep<T>(cell: Option<T>, position: Vec): Option<T>
  {
    cell
  }

  /** `grid.ForEach((x, position) => x).WithNonNull()`: the held objects in
      column-major order. */
  function Present<T>(g: Grid<T>): seq<T>
  {
    NonNull(Visit(Columns(g), Keep))
  }

  /** Exactly the objects held somewhere in the grid are enumerated. */
  lemma PresentExact<T>(g: Grid<T>, x: T)
    ensures x in Present(g) <==> exists c, r :: InBounds(g, c, r) && g[c][r] == Some(x)
  {
    NonNullMembers(Visit(Columns(g), Keep), x);
    if x in Present(g) {
      VisitMembers(Columns(g), Keep, Some(x));
      var c, r :| 0 <= c < |Columns(g)| && Columns(g)[c].Some? && 0 <= r < |Columns(g)[c].value|
                  && Some(x) == Keep(Columns(g)[c].value[r], Vec(c, r));
      assert InBounds(g, c, r) && g[c][r] == Some(x);
    }
    if exists c, r :: InBounds(g, c, r) && g[c][r] == Some(x) {
      var c, r :| InBounds(g, c, r) && g[c][r] == Some(x);
      VisitAt(Columns(g), Keep, c, r);
    }
  }
}
