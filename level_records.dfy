/** The serialised records of a level (`WarehouseManager.Data`,
    `WarehouseBuildItemRequest`, `WarehouseMissingGround`, `LevelMetaData`) and
    the equality comparers the game uses to decide whether two levels have the
    same content. */
module LevelRecords {
  import opened Wrappers
  import opened Kinds
  import opened StringExtensions
  import opened EnumerableExtensions

  /** The level categories, in declaration order. */
  datatype Category = Easy | Medium | Hard

  const Categories: seq<Category> := [Easy, Medium, Hard]

  /** One item of a level file. `id` stands for the request's own GUID: a
      request compares equal to itself by reference only, which the model
      renders as equality of the whole value, `id` included. */
  datatype BuildItemRequest = BuildItemRequest(
    id: nat,
    column: int,
    row: int,
    boxType: Option<BoxType>,
    markerType: Option<BoxType>,
    itemType: Option<string>)
  {
    function Position(): (int, int)
    {
      (column, row)
    }
  }

  /** A cell of the level rectangle that has no ground. */
  datatype MissingGround = MissingGround(x: int, y: int)

  /** `WarehouseMissingGround.Equals`: the other object is present and has the
      same coordinates. */
  predicate MissingGroundEquals(self: MissingGround, other: Option<MissingGround>)
  {
    other.Some? && other.value.x == self.x && other.value.y == self.y
  }

  /** Coordinate equality is exactly value equality of the optional record. */
  lemma MissingGroundEqualsIsValueEquality(self: MissingGround, other: Option<MissingGround>)
    ensures MissingGroundEquals(self, other) <==> other == Some(self)
  {
  }

  /** `WarehouseBuildItemRequest.Comparer.Equals`: two absent requests are equal,
      one absent request is unequal, otherwise every serialised field matches. */
  predicate RequestEquals(x: Option<BuildItemRequest>, y: Option<BuildItemRequest>)
  {
    match (x, y)
    case (None, None) => true
    case (Some(a), Some(b)) =>
      a.column == b.column && a.row == b.row && a.boxType == b.boxType
      && a.markerType == b.markerType && a.itemType == b.itemType
    case _ => false
  }

  /** The request comparer ignores only the identity: it is an equivalence, and
      two requests are equal iff they agree once their ids agree. */
  lemma RequestEqualsIgnoresIdentity(x: BuildItemRequest, y: BuildItemRequest)
    ensures RequestEquals(Some(x), Some(y)) <==> x.(id := y.id) == y
    ensures RequestEquals(Some(x), Some(x))
    ensures RequestEquals(Some(x), Some(y)) == RequestEquals(Some(y), Some(x))
  {
  }

  /** The serialised part of a level (`WarehouseManager.Data`). Lists that JSON
      may leave out are optional. */
  datatype LevelRecord = LevelRecord(
    localIdentifier: NullableString,
    globalIdentifier: NullableString,
    buildItems: Option<seq<BuildItemRequest>>,
    missingGround: Option<seq<MissingGround>>,
    columns: int,
    rows: int,
    runtimeIndex: int,
    runtimeCategory: Option<Category>)
  {
    /** `BaseData.Identifier`: the local id, falling back to the global one. */
    function Identifier(): NullableString
    {
      OnNullOrEmpty(localIdentifier, globalIdentifier)
    }
  }

  /** `LevelMetaData`: what the player has done with one level. Dates are
      abstract time stamps. */
  datatype LevelMeta = LevelMeta(
    localIdentifier: NullableString,
    globalIdentifier: NullableString,
    relativePath: NullableString,
    firstCompletionDate: Option<int>)
  {
    /** `BaseData.Identifier`. */
    function Identifier(): NullableString
    {
      OnNullOrEmpty(localIdentifier, globalIdentifier)
    }

    predicate IsCompleted()
    {
      firstCompletionDate.Some?
    }

    function FileName(): string
    {
      AsFileName(relativePath)
    }
  }

  /** A level meta created for a level copies that level's identifiers. */
  function MetaFor(level: LevelRecord, relativePath: NullableString): (m: LevelMeta)
    ensures m.localIdentifier == level.localIdentifier && m.globalIdentifier == level.globalIdentifier
    ensures !m.IsCompleted() && m.relativePath == relativePath
  {
    LevelMeta(level.localIdentifier, level.globalIdentifier, relativePath, None)
  }

  // ----- LINQ OrderBy(..).ThenBy(..): a stable sort on a two-part key -----

  datatype SortKey = SortKey(major: int, minor: int)

  predicate KeyLe(a: SortKey, b: SortKey)
  {
    a.major < b.major || (a.major == b.major && a.minor <= b.minor)
  }

  function RequestKey(r: BuildItemRequest): SortKey
  {
    SortKey(r.row, r.column)
  }

  function GroundKey(m: MissingGround): SortKey
  {
    SortKey(m.x, m.y)
  }

  predicate SortedBy<T>(s: seq<T>, key: T -> SortKey)
  {
    forall i, j :: 0 <= i < j < |s| ==> KeyLe(key(s[i]), key(s[j]))
  }

  /** Insert `x` in front of the first element whose key is not smaller. */
  function InsertBy<T>(x: T, s: seq<T>, key: T -> SortKey): (r: seq<T>)
    ensures |r| == |s| + 1
  {
    if s == [] || KeyLe(key(x), key(s[0])) then [x] + s
    else [s[0]] + InsertBy(x, s[1..], key)
  }

  /** A stable sort: elements with equal keys keep their relative order. */
  function SortBy<T>(s: seq<T>, key: T -> SortKey): (r: seq<T>)
    ensures |r| == |s|
  {
    if s == [] then [] else InsertBy(s[0], SortBy(s[1..], key), key)
  }

  lemma {:induction false} InsertByProperties<T>(x: T, s: seq<T>, key: T -> SortKey)
    requires SortedBy(s, key)
    ensures SortedBy(InsertBy(x, s, key), key)
    ensures multiset(InsertBy(x, s, key)) == multiset(s) + multiset{x}
  {
    if s == [] || KeyLe(key(x), key(s[0])) {
      var r := [x] + s;
      forall i, j | 0 <= i < j < |r|
        ensures KeyLe(key(r[i]), key(r[j]))
      {
        if i > 0 {
          assert r[i] == s[i - 1] && r[j] == s[j - 1];
        } else {
          assert r[j] == s[j - 1];
        }
      }
    } else {
      var tail := s[1..];
      assert SortedBy(tail, key) by {
        forall i, j | 0 <= i < j < |tail| ensures KeyLe(key(tail[i]), key(tail[j])) {
          assert tail[i] == s[i + 1] && tail[j] == s[j + 1];
        }
      }
      InsertByProperties(x, tail, key);
      var rest := InsertBy(x, tail, key);
      var r := [s[0]] + rest;
      forall k | 0 <= k < |rest|
        ensures KeyLe(key(s[0]), key(rest[k]))
      {
        assert rest[k] in multiset(rest);
        if rest[k] == x {
        } else {
          assert rest[k] in multiset(tail);
          var m :| 0 <= m < |tail| && tail[m] == rest[k];
          assert tail[m] == s[m + 1];
        }
      }
      forall i, j | 0 <= i < j < |r|
        ensures KeyLe(key(r[i]), key(r[j]))
      {
        if i > 0 {
          assert r[i] == rest[i - 1] && r[j] == rest[j - 1];
        } else {
          assert r[j] == rest[j - 1];
        }
      }
      assert s == [s[0]] + tail;
    }
  }

  /** The sort yields a sorted permutation of its input. */
  lemma {:induction false} SortByProperties<T>(s: seq<T>, key: T -> SortKey)
    ensures SortedBy(SortBy(s, key), key)
    ensures multiset(SortBy(s, key)) == multiset(s)
  {
    if s != [] {
      SortByProperties(s[1..], key);
      InsertByProperties(s[0], SortBy(s[1..], key), key);
      assert s == [s[0]] + s[1..];
    }
  }

  /** Sorting an already sorted sequence changes nothing. */
  lemma {:induction false} SortBySorted<T>(s: seq<T>, key: T -> SortKey)
    requires SortedBy(s, key)
    ensures SortBy(s, key) == s
  {
    if s != [] {
      var tail := s[1..];
      assert SortedBy(tail, key) by {
        forall i, j | 0 <= i < j < |tail| ensures KeyLe(key(tail[i]), key(tail[j])) {
          assert tail[i] == s[i + 1] && tail[j] == s[j + 1];
        }
      }
      SortBySorted(tail, key);
      if |tail| > 0 {
        assert tail[0] == s[1];
      }
      assert s == [s[0]] + tail;
    }
  }

  /** The elements of `s` whose key is `k`, in order. */
  function WithKey<T>(s: seq<T>, key: T -> SortKey, k: SortKey): seq<T>
  {
    if s == [] then [] else (if key(s[0]) == k then [s[0]] else []) + WithKey(s[1..], key, k)
  }

  /** Inserting `x` passes only elements with smaller keys. */
  lemma {:induction false} InsertByStable<T>(x: T, s: seq<T>, key: T -> SortKey, k: SortKey)
    ensures WithKey(InsertBy(x, s, key), key, k) == (if key(x) == k then [x] else []) + WithKey(s, key, k)
  {
    if s == [] || KeyLe(key(x), key(s[0])) {
      assert ([x] + s)[1..] == s;
    } else {
      InsertByStable(x, s[1..], key, k);
      assert ([s[0]] + InsertBy(x, s[1..], key))[1..] == InsertBy(x, s[1..], key);
      assert key(s[0]) != key(x);
    }
  }

  /** `SortBy` is stable: the elements of any one key keep their relative
      order. */
  lemma {:induction false} SortByStable<T>(s: seq<T>, key: T -> SortKey, k: SortKey)
    ensures WithKey(SortBy(s, key), key, k) == WithKey(s, key, k)
  {
    if s != [] {
      SortByStable(s[1..], key, k);
      InsertByStable(s[0], SortBy(s[1..], key), key, k);
    }
  }

  // ----- WarehouseManager.Data.Comparer -----

  /** `Enumerable.SequenceEqual` with the request comparer. */
  predicate SameRequests(a: seq<BuildItemRequest>, b: seq<BuildItemRequest>)
  {
    |a| == |b| && forall i :: 0 <= i < |a| ==> RequestEquals(Some(a[i]), Some(b[i]))
  }

  predicate SameBuildItems(one: LevelRecord, two: LevelRecord)
  {
    SameRequests(SortBy(AsNotNull(one.buildItems), RequestKey), SortBy(AsNotNull(two.buildItems), RequestKey))
  }

  /** `Data.Comparer.Equals` as written: the build items of both levels are
      sorted by (row, column), but only the first level's missing ground is
      sorted by (x, y); the second is taken in its stored order. */
  predicate DataEqualsAsWritten(one: Option<LevelRecord>, two: Option<LevelRecord>)
  {
    match (one, two)
    case (None, None) => true
    case (Some(a), Some(b)) =>
      SameBuildItems(a, b) && SortBy(AsNotNull(a.missingGround), GroundKey) == AsNotNull(b.missingGround)
    case _ => false
  }

  /** `Data.Comparer.Equals` as intended: both missing-ground lists sorted. */
  predicate DataEquals(one: Option<LevelRecord>, two: Option<LevelRecord>)
  {
    match (one, two)
    case (None, None) => true
    case (Some(a), Some(b)) =>
      SameBuildItems(a, b)
      && SortBy(AsNotNull(a.missingGround), GroundKey) == SortBy(AsNotNull(b.missingGround), GroundKey)
    case _ => false
  }

  /** A level whose missing ground was stored out of (x, y) order. */
  function UnsortedLevel(): LevelRecord
  {
    LevelRecord(None, None, None, Some([MissingGround(1, 0), MissingGround(0, 0)]), 2, 1, -1, None)
  }

  /** The comparer as written is not reflexive: a level whose missing ground is
      stored out of order differs from itself, and it is not symmetric. */
  lemma AsWrittenNotReflexive()
    ensures !DataEqualsAsWritten(Some(UnsortedLevel()), Some(UnsortedLevel()))
    ensures var sorted := UnsortedLevel().(missingGround := Some([MissingGround(0, 0), MissingGround(1, 0)]));
            DataEqualsAsWritten(Some(UnsortedLevel()), Some(sorted))
            && !DataEqualsAsWritten(Some(sorted), Some(UnsortedLevel()))
  {
    var level := UnsortedLevel();
    var stored := [MissingGround(1, 0), MissingGround(0, 0)];
    assert SortBy(stored[1..], GroundKey) == [MissingGround(0, 0)];
    assert SortBy(stored, GroundKey) == [MissingGround(0, 0), MissingGround(1, 0)];
    var sortedGround := [MissingGround(0, 0), MissingGround(1, 0)];
    assert SortBy(sortedGround[1..], GroundKey) == [MissingGround(1, 0)];
    assert SortBy(sortedGround, GroundKey) == sortedGround;
  }

  /** The intended comparer is an equivalence relation. */
  lemma DataEqualsIsEquivalence(a: Option<LevelRecord>, b: Option<LevelRecord>, c: Option<LevelRecord>)
    ensures DataEquals(a, a)
    ensures DataEquals(a, b) == DataEquals(b, a)
    ensures DataEquals(a, b) && DataEquals(b, c) ==> DataEquals(a, c)
  {
  }

  /** Both comparers agree whenever the second level's missing ground is stored
      in (x, y) order, which is how `CalculateMissingGround` lists it. */
  lemma AsWrittenAgreesOnSortedGround(one: Option<LevelRecord>, two: Option<LevelRecord>)
    requires two.Some? ==> SortedBy(AsNotNull(two.value.missingGround), GroundKey)
    ensures DataEqualsAsWritten(one, two) == DataEquals(one, two)
  {
    if two.Some? {
      SortBySorted(AsNotNull(two.value.missingGround), GroundKey);
    }
  }
}
