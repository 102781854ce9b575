/** Null-aware sequence helpers and the column-major enumeration of jagged grids
    (Extensions/EnumerableExtensions.cs). A sequence that may be null is an
    `Option<seq<T>>`; a nullable element is an `Option<T>`. */
module EnumerableExtensions {
  import opened Wrappers
  import opened MovementTypes

  /** Non-null and non-empty. */
  predicate HasItems<T>(sequence: Option<seq<T>>)
  {
    sequence.Some? && |sequence.value| > 0
  }

  /** Null becomes the empty sequence; anything else is returned as is. */
  function AsNotNull<T>(sequence: Option<seq<T>>): (r: seq<T>)
    ensures sequence.None? ==> r == []
    ensures sequence.Some? ==> r == sequence.value
  {
    sequence.GetOr([])
  }

  /** Whether `index` addresses an element of a jagged sequence whose columns may
      be null. */
  predicate HasIndex<T>(sequence: Option<seq<Option<seq<T>>>>, index: Vec)
  {
    HasItems(sequence)
      && index.x >= 0 && index.y >= 0
      && |sequence.value| > index.x && sequence.value[index.x].Some?
      && |sequence.value[index.x].value| > index.y
  }

  /** The results one column contributes: `f` applied to each element with its
      (column, row) position; nothing for a null column. */
  function ColumnResults<T, R>(column: Option<seq<T>>, c: int, f: (T, Vec) -> R): (r: seq<R>)
    ensures column.None? ==> r == []
    ensures column.Some? ==> |r| == |column.value|
    ensures column.Some? ==> forall row :: 0 <= row < |r| ==> r[row] == f(column.value[row], Vec(c, row))
  {
    if column.None? then []
    else seq(|column.value|, row requires 0 <= row < |column.value| => f(column.value[row], Vec(c, row)))
  }

  /** Column-major enumeration of `columns` through `f`. */
  function Visit<T, R>(columns: seq<Option<seq<T>>>, f: (T, Vec) -> R): seq<R>
  {
    if columns == [] then []
    else Visit(columns[..|columns| - 1], f) + ColumnResults(columns[|columns| - 1], |columns| - 1, f)
  }

  /** The number of elements held by non-null columns. */
  function Count<T>(columns: seq<Option<seq<T>>>): nat
  {
    if columns == [] then 0
    else
      var last := columns[|columns| - 1];
      Count(columns[..|columns| - 1]) + (if last.Some? then |last.value| else 0)
  }

  /** The 2-D `ForEach`: visits every element column by column, counting columns
      (null ones included) and rows, and collects `f`'s results. */
  method ForEach<T, R>(sequence: Option<seq<Option<seq<T>>>>, f: (T, Vec) -> R) returns (results: seq<R>)
    ensures sequence.None? ==> results == []
    ensures sequence.Some? ==> results == Visit(sequence.value, f)
  {
    results := [];
    if sequence.None? {
      return;
    }
    var columns := sequence.value;
    var column := 0;
    while column < |columns|
      invariant 0 <= column <= |columns|
      invariant results == Visit(columns[..column], f)
    {
      if columns[column].Some? {
        results := VisitColumn(results, columns[column].value, column, f);
      }
      assert columns[..column + 1][..column] == columns[..column];
      column := column + 1;
    }
    assert columns[..column] == columns;
  }

  /** The inner loop of the 2-D `ForEach`: one column's results, row by row,
      after those already collected. */
  method VisitColumn<T, R>(results: seq<R>, cells: seq<T>, column: int, f: (T, Vec) -> R) returns (out: seq<R>)
    ensures out == results + ColumnResults(Some(cells), column, f)
  {
    out := results;
    var row := 0;
    while row < |cells|
      invariant 0 <= row <= |cells|
      invariant out == results + ColumnResults(Some(cells[..row]), column, f)
    {
      ColumnResultsStep(cells, row, column, f);
      out := out + [f(cells[row], Vec(column, row))];
      row := row + 1;
    }
    assert cells[..row] == cells;
  }

  /** One more row adds its result at the end of the column's results. */
  lemma ColumnResultsStep<T, R>(cells: seq<T>, row: nat, column: int, f: (T, Vec) -> R)
    requires row < |cells|
    ensures ColumnResults(Some(cells[..row + 1]), column, f)
            == ColumnResults(Some(cells[..row]), column, f) + [f(cells[row], Vec(column, row))]
  {
  }

  /** The enumeration holds exactly as many results as the non-null columns hold
      elements. */
  lemma {:induction false} VisitLength<T, R>(columns: seq<Option<seq<T>>>, f: (T, Vec) -> R)
    ensures |Visit(columns, f)| == Count(columns)
    decreases |columns|
  {
    if columns != [] {
      VisitLength(columns[..|columns| - 1], f);
    }
  }

  /** Column-major order: the element at (c, r) comes after everything of the
      earlier columns, at offset `Count(columns[..c]) + r`. */
  lemma {:induction false} VisitAt<T, R>(columns: seq<Option<seq<T>>>, f: (T, Vec) -> R, c: nat, r: nat)
    requires c < |columns| && columns[c].Some? && r < |columns[c].value|
    ensures Count(columns[..c]) + r < |Visit(columns, f)|
    ensures Visit(columns, f)[Count(columns[..c]) + r] == f(columns[c].value[r], Vec(c, r))
    decreases |columns|
  {
    var last := |columns| - 1;
    var init := columns[..last];
    var tail := ColumnResults(columns[last], last, f);
    assert Visit(columns, f) == Visit(init, f) + tail;
    VisitLength(init, f);
    if c == last {
      assert columns[..c] == init;
      assert Visit(columns, f)[Count(init) + r] == tail[r];
    } else {
      assert init[..c] == columns[..c];
      VisitAt(init, f, c, r);
      assert Visit(columns, f)[Count(init[..c]) + r] == Visit(init, f)[Count(init[..c]) + r];
    }
  }

  /** Every result comes from some element at its (column, row) position. */
  lemma {:induction false} VisitMembers<T, R>(columns: seq<Option<seq<T>>>, f: (T, Vec) -> R, y: R)
    requires y in Visit(columns, f)
    ensures exists c, r :: 0 <= c < |columns| && columns[c].Some? && 0 <= r < |columns[c].value|
                           && y == f(columns[c].value[r], Vec(c, r))
    decreases |columns|
  {
    var last := |columns| - 1;
    var init := columns[..last];
    if y in Visit(init, f) {
      VisitMembers(init, f, y);
      var c, r :| 0 <= c < |init| && init[c].Some? && 0 <= r < |init[c].value| && y == f(init[c].value[r], Vec(c, r));
      assert columns[c] == init[c];
    } else {
      var results := ColumnResults(columns[last], last, f);
      assert y in results;
      var r :| 0 <= r < |results| && results[r] == y;
      assert columns[last].Some? && y == f(columns[last].value[r], Vec(last, r));
    }
  }

  /** The non-null elements of a sequence, in their original order; null gives
      the empty sequence. */
  function WithNonNull<T>(sequence: Option<seq<Option<T>>>): seq<T>
  {
    NonNull(AsNotNull(sequence))
  }

  function NonNull<T>(s: seq<Option<T>>): seq<T>
  {
    if s == [] then []
    else NonNull(s[..|s| - 1]) + (if s[|s| - 1].Some? then [s[|s| - 1].value] else [])
  }

  /** Filtering distributes over concatenation, so relative order is kept. */
  lemma {:induction false} NonNullAppend<T>(a: seq<Option<T>>, b: seq<Option<T>>)
    ensures NonNull(a + b) == NonNull(a) + NonNull(b)
    decreases |b|
  {
    if b == [] {
      assert a + b == a;
    } else {
      assert (a + b)[..|a + b| - 1] == a + b[..|b| - 1];
      NonNullAppend(a, b[..|b| - 1]);
    }
  }

  /** Exactly the non-null elements survive. */
  lemma {:induction false} NonNullMembers<T>(s: seq<Option<T>>, x: T)
    ensures x in NonNull(s) <==> Some(x) in s
    decreases |s|
  {
    if s != [] {
      NonNullMembers(s[..|s| - 1], x);
      assert s == s[..|s| - 1] + [s[|s| - 1]];
    }
  }
}
