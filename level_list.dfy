/** The level picker (Behaviors/Managers/LevelListManager.cs): the sorted
    level files of a category are grouped into pages of `LevelsPerPage`
    entries; a page is listed as buttons that know their position in the
    category, whether they may be played and whether they are purchased.
    The level file listing, the stored meta records and the store are
    parameters; prefabs, colours, icons and selection handling are left to
    the engine. */
module LevelList {
  import opened Wrappers
  import opened StringExtensions
  import opened EnumExtensions
  import opened LevelRecords
  import opened IAP

  /** `IsAllAvailable`: a debugging switch that, when set, makes every level
      playable. */
  const IsAllAvailable: bool := false

  /** `Recalculate` fixes one row of buttons per page. */
  const LevelsPerColumn: int := 1

  /** How listing can fail: grouping by a page size of zero divides by
      zero, a page number outside the pages, and a level that the pages do
      not hold (`GetPagedIndex` throws), or whose previous page is empty
      (`Last` throws). */
  datatype ListError = DivideByZero | NoSuchPage(pageIndex: int) | NotListed | EmptyPreviousPage

  // ----- Grouping into pages -----

  /** Consecutive chunks of `size` entries; only the last may be shorter. */
  function Paginate<T>(levels: seq<T>, size: nat): seq<seq<T>>
    requires size > 0
    decreases |levels|
  {
    if levels == [] then []
    else if |levels| <= size then [levels]
    else [levels[..size]] + Paginate(levels[size..], size)
  }

  /** C#'s `/` on `int`, which truncates toward zero. */
  function TruncatedDiv(a: int, b: int): int
    requires b != 0
  {
    if (a >= 0) == (b > 0) then Abs(a) / Abs(b) else -(Abs(a) / Abs(b))
  }

  function Abs(a: int): nat
  {
    if a < 0 then -a else a
  }

  /** `GroupBy(x => IndexOf(levels, x) / LevelsPerPage)` keys positions by
      truncated division; for positions (never negative) two keys agree
      exactly when the positions fall in the same chunk of |LevelsPerPage|,
      so a negative page size pages like its magnitude. */
  lemma GroupKeyIsChunk(i: nat, j: nat, perPage: int)
    requires perPage != 0
    ensures TruncatedDiv(i, perPage) == TruncatedDiv(j, perPage) <==> i / Abs(perPage) == j / Abs(perPage)
    ensures TruncatedDiv(i, perPage) == if perPage > 0 then i / Abs(perPage) else -(i / Abs(perPage))
  {
  }

  /** None of the pages is empty, none exceeds the size, and every page
      but the last is full. */
  lemma {:induction false} PaginateShape<T>(levels: seq<T>, size: nat)
    requires size > 0
    ensures var pages := Paginate(levels, size);
      && (forall p :: 0 <= p < |pages| ==> 0 < |pages[p]| <= size)
      && (forall p :: 0 <= p < |pages| - 1 ==> |pages[p]| == size)
    decreases |levels|
  {
    if |levels| > size {
      PaginateShape(levels[size..], size);
      assert Paginate(levels, size) == [levels[..size]] + Paginate(levels[size..], size);
    }
  }

  lemma MulPred(p: nat, size: nat)
    requires p > 0
    ensures (p - 1) * size == p * size - size && p * size >= size
  {
    assert (p - 1) * size >= 0;
  }

  /** The level at sorted position p * size + k (k < size) is entry k of
      page p, and conversely every entry of every page is such a level. */
  lemma {:induction false} PaginatePlaces<T>(levels: seq<T>, size: nat, p: nat, k: nat)
    requires 0 <= k < size && p * size + k < |levels|
    ensures var pages := Paginate(levels, size);
      p < |pages| && k < |pages[p]| && pages[p][k] == levels[p * size + k]
    decreases |levels|
  {
    var pages := Paginate(levels, size);
    if p == 0 {
      assert p * size == 0;
      assert pages[0] == if |levels| <= size then levels else levels[..size];
    } else {
      MulPred(p, size);
      var q := (p - 1) * size;
      assert |levels| > size;
      var rest := levels[size..];
      assert pages == [levels[..size]] + Paginate(rest, size);
      PaginatePlaces(rest, size, p - 1, k);
      assert rest[q + k] == levels[p * size + k];
    }
  }

  /** Conversely, entry k of page p is the level at sorted position
      p * size + k. */
  lemma {:induction false} PaginateEntry<T>(levels: seq<T>, size: nat, p: nat, k: nat)
    requires size > 0
    requires p < |Paginate(levels, size)| && k < |Paginate(levels, size)[p]|
    ensures k < size && p * size + k < |levels| && Paginate(levels, size)[p][k] == levels[p * size + k]
    decreases |levels|
  {
    var pages := Paginate(levels, size);
    if |levels| <= size {
      assert pages == [levels] && p == 0;
      assert p * size == 0;
    } else {
      var rest := levels[size..];
      assert pages == [levels[..size]] + Paginate(rest, size);
      if p == 0 {
        assert p * size == 0;
      } else {
        PaginateEntry(rest, size, p - 1, k);
        MulPred(p, size);
        var q := (p - 1) * size;
        assert rest[q + k] == levels[p * size + k];
      }
    }
  }

  /** A position splits into its page and its place on the page. */
  lemma Split(i: nat, size: nat) returns (page: nat, place: nat)
    requires size > 0
    ensures place < size && page * size + place == i
  {
    page, place := i / size, i % size;
  }

  /** The meta record shown for a level file: the first stored record with
      that path, or a fresh record holding only the path. */
  function MetaForPath(stored: seq<LevelMeta>, path: string): (m: LevelMeta)
    ensures m.relativePath == Some(path)
    ensures (forall i :: 0 <= i < |stored| ==> stored[i].relativePath != Some(path)) ==>
              m == LevelMeta(None, None, Some(path), None)
    ensures forall i :: 0 <= i < |stored| && stored[i].relativePath == Some(path) ==> m in stored[..i + 1]
  {
    if stored == [] then LevelMeta(None, None, Some(path), None)
    else if stored[0].relativePath == Some(path) then stored[0]
    else MetaForPath(stored[1..], path)
  }

  /** The records of the listed files, in listing order. */
  function MetasFor(stored: seq<LevelMeta>, paths: seq<string>): (r: seq<LevelMeta>)
    ensures |r| == |paths| && forall i :: 0 <= i < |paths| ==> r[i] == MetaForPath(stored, paths[i])
  {
    seq(|paths|, i requires 0 <= i < |paths| => MetaForPath(stored, paths[i]))
  }

  /** The files of one directory are distinct, and so are their records. */
  lemma MetasForDistinct(stored: seq<LevelMeta>, paths: seq<string>)
    requires Distinct(paths)
    ensures Distinct(MetasFor(stored, paths))
  {
    var r := MetasFor(stored, paths);
    forall i, j | 0 <= i < j < |r|
      ensures r[i] != r[j]
    {
      assert r[i].relativePath == Some(paths[i]) && r[j].relativePath == Some(paths[j]);
    }
  }

  // ----- Finding a level and the unlock rule -----

  /** The first page, from page p on, that holds `entry`, with the entry's
      first index in it. */
  function PagedIndexFrom(pages: seq<seq<LevelMeta>>, entry: LevelMeta, p: nat): (r: Option<(nat, nat)>)
    ensures r.Some? ==> p <= r.value.0 < |pages| && r.value.1 < |pages[r.value.0]|
                        && pages[r.value.0][r.value.1] == entry
    ensures r.Some? ==> forall i :: 0 <= i < r.value.1 ==> pages[r.value.0][i] != entry
    ensures r.Some? ==> forall q :: p <= q < r.value.0 ==> entry !in pages[q]
    ensures r.None? <==> forall q :: p <= q < |pages| ==> entry !in pages[q]
    decreases |pages| - p
  {
    if p >= |pages| then None
    else if entry in pages[p] then Some((p, IndexOf(pages[p], entry) as nat))
    else PagedIndexFrom(pages, entry, p + 1)
  }

  /** Where `GetPagedIndex` finds `entry`: the first page holding it and the
      first position there, or nothing when no page holds it. */
  function PagedIndex(pages: seq<seq<LevelMeta>>, entry: LevelMeta): Option<(nat, nat)>
  {
    PagedIndexFrom(pages, entry, 0)
  }

  /** `IsPlayableLevel`, on the pages: a level is playable when the entry
      just before it (on its page, or the last of the previous page) is
      completed; the very first level always is. */
  function Playable(pages: seq<seq<LevelMeta>>, entry: LevelMeta): (r: Result<bool, ListError>)
    ensures r == Err(NotListed) <==> PagedIndex(pages, entry).None?
  {
    match PagedIndex(pages, entry)
    case None => Err(NotListed)
    case Some((page, pageIndex)) =>
      if pageIndex > 0 then Ok(pages[page][pageIndex - 1].IsCompleted())
      else if page > 0 then
        if |pages[page - 1]| == 0 then Err(EmptyPreviousPage)
        else Ok(pages[page - 1][|pages[page - 1]| - 1].IsCompleted())
      else Ok(true)
  }

  /** On pages none of which is empty, as `Paginate` makes them, the unlock
      rule never fails for an entry that is on a page: it is found, and a
      previous page has a last entry. So the buttons of a listed page never
      meet the exceptions of `IsPlayableLevel`. */
  lemma PlayableOnPages(pages: seq<seq<LevelMeta>>, p: nat, i: nat)
    requires p < |pages| && i < |pages[p]|
    requires forall q :: 0 <= q < |pages| ==> |pages[q]| > 0
    ensures Playable(pages, pages[p][i]).Ok?
  {
  }

  /** In a category paged from distinct records, the level at sorted
      position k is playable exactly when k is 0 or the level at k - 1 is
      completed: the unlock rule does not depend on the page size. */
  lemma PlayableIffPreviousCompleted(levels: seq<LevelMeta>, size: nat, k: nat)
    requires size > 0 && Distinct(levels) && k < |levels|
    ensures Playable(Paginate(levels, size), levels[k]) == Ok(k == 0 || levels[k - 1].IsCompleted())
  {
    var pages := Paginate(levels, size);
    LocateInPages(levels, size, k);
    var p, i := PagedIndex(pages, levels[k]).value.0, PagedIndex(pages, levels[k]).value.1;
    if i > 0 {
      var pos := EntryPosition(levels, size, p, i - 1);
      assert pos == k - 1;
      assert pages[p][i - 1] == levels[k - 1];
      assert Playable(pages, levels[k]) == Ok(levels[k - 1].IsCompleted());
    } else if p > 0 {
      PaginateShape(levels, size);
      var last := |pages[p - 1]| - 1;
      var pos := EntryPosition(levels, size, p - 1, last);
      MulPred(p, size);
      assert pos == k - 1;
      assert pages[p - 1][last] == levels[k - 1];
      assert Playable(pages, levels[k]) == Ok(levels[k - 1].IsCompleted());
    } else {
      assert k == 0;
    }
  }

  /** In pages of distinct levels, the level at sorted position k is found
      on its own page at its own place. */
  lemma LocateInPages(levels: seq<LevelMeta>, size: nat, k: nat)
    requires size > 0 && Distinct(levels) && k < |levels|
    ensures var found := PagedIndex(Paginate(levels, size), levels[k]);
      found.Some? && found.value.0 * size + found.value.1 == k
  {
    var pages := Paginate(levels, size);
    var page, place := Split(k, size);
    PaginatePlaces(levels, size, page, place);
    assert pages[page][place] == levels[k];
    assert levels[k] in pages[page];
    var found := PagedIndex(pages, levels[k]);
    assert found.Some?;
    var pos := EntryPosition(levels, size, found.value.0, found.value.1);
    assert levels[pos] == levels[k];
  }

  /** `PaginateEntry`, with the position named. */
  lemma EntryPosition<T>(levels: seq<T>, size: nat, p: nat, k: nat) returns (pos: nat)
    requires size > 0
    requires p < |Paginate(levels, size)| && k < |Paginate(levels, size)[p]|
    ensures pos == p * size + k && pos < |levels| && Paginate(levels, size)[p][k] == levels[pos]
  {
    PaginateEntry(levels, size, p, k);
    pos := p * size + k;
  }

  // ----- Button layout -----

  /** Button i of a page sits in row i / levelsPerRow at column
      i - row * levelsPerRow. */
  function ButtonCell(i: nat, levelsPerRow: int): (cell: (int, int))
    requires levelsPerRow > 0
  {
    var row := i / levelsPerRow;
    (row, i - row * levelsPerRow)
  }

  /** The layout fills rows left to right: the column stays within a row,
      and row and column give back the button's number. */
  lemma ButtonCellFillsRows(i: nat, levelsPerRow: int)
    requires levelsPerRow > 0
    ensures var (row, col) := ButtonCell(i, levelsPerRow);
      0 <= col < levelsPerRow && 0 <= row && row * levelsPerRow + col == i
      && (i < levelsPerRow ==> row == 0 && col == i)
  {
  }

  /** A listed level button: its number in the category, the record it
      opens, and how it is shown. */
  datatype Button = Button(
    runtimeIndex: int,
    entry: LevelMeta,
    playable: bool,
    purchased: bool,
    completed: bool,
    row: int,
    column: int)

  /** The page listing state of `LevelListManager`. `prefabCount` is the
      number of button objects created so far (they are reused). */
  class LevelListManager {
    var levelsPerRow: int
    var activeCategory: Category
    var iapManager: IAPManager?
    var metaData: Option<seq<LevelMeta>>
    var pagedLevelData: map<Category, seq<seq<LevelMeta>>>
    var activePagedLevelData: seq<seq<LevelMeta>>
    var currentIndex: int
    var prefabCount: nat

    constructor (levelsPerRow: int, iapManager: IAPManager?)
      ensures this.levelsPerRow == levelsPerRow && this.iapManager == iapManager
      ensures activeCategory == Easy && metaData.None? && pagedLevelData == map[]
      ensures activePagedLevelData == [] && currentIndex == 0 && prefabCount == 0
    {
      this.levelsPerRow := levelsPerRow;
      this.iapManager := iapManager;
      activeCategory := Easy;
      metaData := None;
      pagedLevelData := map[];
      activePagedLevelData := [];
      currentIndex := 0;
      prefabCount := 0;
    }

    function LevelsPerPage(): int
      reads this
    {
      levelsPerRow * LevelsPerColumn
    }

    /** `IsPurchased`: a level is purchased when there is an IAP manager,
        the level has a file name, and the level either needs no pak or its
        pak is granted. */
    predicate IsPurchased(meta: LevelMeta, store: Store)
      reads this, iapManager
    {
      var fileName := meta.FileName();
      if iapManager == null || IsInvalid(Some(fileName)) then false
      else
        var iapKey := GetIAPRequirement(fileName);
        IsInvalid(Some(iapKey)) || iapManager.Granted(store, iapKey)
    }

    /** `BuildPages`: the stored records are read once; the first time a
        category is shown its sorted files are grouped into pages of their
        records, which are kept for later visits; the category's pages
        become the active ones. `listing` is the sorted file list of the
        active category, `stored` the records on file. */
    method BuildPages(listing: seq<string>, stored: seq<LevelMeta>) returns (error: Option<ListError>)
      modifies this
      ensures metaData == if old(metaData).Some? then old(metaData) else Some(stored)
      ensures var isNew := activeCategory !in old(pagedLevelData);
        && (error.Some? <==> isNew && |listing| > 0 && LevelsPerPage() == 0)
        && (error.Some? ==> error == Some(DivideByZero) && pagedLevelData == old(pagedLevelData)
                            && activePagedLevelData == old(activePagedLevelData))
        && (error.None? && isNew ==>
              pagedLevelData == old(pagedLevelData)[activeCategory :=
                if |listing| == 0 then [] else Paginate(MetasFor(metaData.value, listing), Abs(LevelsPerPage()))])
        && (!isNew ==> pagedLevelData == old(pagedLevelData))
        && (error.None? ==> activeCategory in pagedLevelData
                            && activePagedLevelData == pagedLevelData[activeCategory])
      ensures levelsPerRow == old(levelsPerRow) && activeCategory == old(activeCategory)
      ensures iapManager == old(iapManager) && currentIndex == old(currentIndex) && prefabCount == old(prefabCount)
    {
      if metaData.None? {
        metaData := Some(stored);
      }
      var category := activeCategory;
      if category !in pagedLevelData {
        if |listing| == 0 {
          pagedLevelData := pagedLevelData[category := []];
        } else if LevelsPerPage() == 0 {
          return Some(DivideByZero);
        } else {
          var records := MetasFor(metaData.value, listing);
          pagedLevelData := pagedLevelData[category := Paginate(records, Abs(LevelsPerPage()))];
        }
      }
      activePagedLevelData := pagedLevelData[category];
      return None;
    }

    /** `GetPagedIndex`: the pages are searched in order, each from its
        start; a level in no page is an error. */
    method GetPagedIndex(entry: LevelMeta) returns (r: Result<(nat, nat), ListError>)
      ensures PagedIndex(activePagedLevelData, entry).Some? ==> r == Ok(PagedIndex(activePagedLevelData, entry).value)
      ensures PagedIndex(activePagedLevelData, entry).None? ==> r == Err(NotListed)
    {
      var pages := activePagedLevelData;
      var page := 0;
      while page < |pages|
        invariant 0 <= page <= |pages|
        invariant PagedIndex(pages, entry) == PagedIndexFrom(pages, entry, page)
      {
        var pageIndex := 0;
        while pageIndex < |pages[page]|
          invariant 0 <= pageIndex <= |pages[page]|
          invariant forall i :: 0 <= i < pageIndex ==> pages[page][i] != entry
        {
          if pages[page][pageIndex] == entry {
            assert IndexOf(pages[page], entry) == pageIndex;
            return Ok((page, pageIndex));
          }
          pageIndex := pageIndex + 1;
        }
        assert entry !in pages[page];
        page := page + 1;
      }
      return Err(NotListed);
    }

    /** `IsPlayableLevel` on the active pages. */
    method IsPlayableLevel(entry: LevelMeta) returns (r: Result<bool, ListError>)
      ensures r == Playable(activePagedLevelData, entry)
    {
      var pages: seq<seq<LevelMeta>> := activePagedLevelData;
      var found := GetPagedIndex(entry);
      if found.Err? {
        return Err(found.error);
      }
      var (page, pageIndex) := found.value;
      if pageIndex > 0 {
        return Ok(pages[page][pageIndex - 1].IsCompleted());
      } else if page > 0 {
        if |pages[page - 1]| == 0 {
          return Err(EmptyPreviousPage);
        }
        return Ok(pages[page - 1][|pages[page - 1]| - 1].IsCompleted());
      }
      return Ok(true);
    }

    /** What a listed page shows in the button for entry i: its number in
        the category, whether it is playable (unlocked and purchased),
        purchased and completed, and its place in the button grid. */
    predicate ShowsEntry(button: Button, pageIndex: int, i: nat, store: Store)
      reads this, iapManager
      requires 0 <= pageIndex < |activePagedLevelData| && i < |activePagedLevelData[pageIndex]|
      requires levelsPerRow > 0
    {
      var entry := activePagedLevelData[pageIndex][i];
      && button.entry == entry
      && button.runtimeIndex == pageIndex * LevelsPerPage() + i
      && button.purchased == IsPurchased(entry, store)
      && button.playable == (Playable(activePagedLevelData, entry) == Ok(true) && button.purchased)
      && button.completed == entry.IsCompleted()
      && (button.row, button.column) == ButtonCell(i, levelsPerRow)
    }

    /** The loop of `ListPage` that fills the buttons of one page: one for
        each of the page's first `LevelsPerPage` entries. An error from
        `IsPlayableLevel` shows the level as locked, where the source would
        throw; on pages made by `Paginate` no error arises (`PlayableOnPages`
        with `PaginateShape`). */
    method ListButtons(pageIndex: int, store: Store) returns (buttons: seq<Button>)
      requires 0 <= pageIndex < |activePagedLevelData|
      ensures |buttons| == Min(Max(LevelsPerPage(), 0), |activePagedLevelData[pageIndex]|)
      ensures forall i :: 0 <= i < |buttons| ==> levelsPerRow > 0 && ShowsEntry(buttons[i], pageIndex, i, store)
    {
      var page := activePagedLevelData[pageIndex];
      buttons := [];
      var i := 0;
      while i < LevelsPerPage() && i < |page|
        invariant 0 <= i <= |page| && i <= Max(LevelsPerPage(), 0)
        invariant |buttons| == i
        invariant forall k :: 0 <= k < i ==> levelsPerRow > 0 && ShowsEntry(buttons[k], pageIndex, k, store)
      {
        var levelData := page[i];
        var runtimeIndex := pageIndex * LevelsPerPage() + i;
        var isPurchased := IsPurchased(levelData, store);
        var isPlayable := false;
        if IsAllAvailable {
          isPlayable := true;
        } else {
          var unlocked := IsPlayableLevel(levelData);
          isPlayable := unlocked == Ok(true) && isPurchased;
        }
        var row := i / levelsPerRow;
        var col := i - row * levelsPerRow;
        buttons := buttons + [Button(runtimeIndex, levelData, isPlayable, isPurchased, levelData.IsCompleted(), row, col)];
        i := i + 1;
      }
    }

    /** `ListPage(pageNumber)`: page `pageNumber - 1` becomes current and
        its first `LevelsPerPage` entries are listed as buttons; button
        objects are created only when more are needed than exist (the model
        counts them once the number is known). With no levels per page the
        loop ends at once, so any page number lists nothing. */
    method ListPage(pageNumber: int, store: Store) returns (r: Result<seq<Button>, ListError>)
      modifies this
      ensures currentIndex == pageNumber - 1
      ensures LevelsPerPage() <= 0 ==> r == Ok([]) && prefabCount == old(prefabCount)
      ensures LevelsPerPage() > 0 && !(0 <= pageNumber - 1 < |activePagedLevelData|) ==> r == Err(NoSuchPage(pageNumber - 1))
      ensures r.Ok? && LevelsPerPage() > 0 ==> 0 <= pageNumber - 1 < |activePagedLevelData|
      ensures r.Ok? && LevelsPerPage() > 0 ==>
        && |r.value| == Min(Max(LevelsPerPage(), 0), |activePagedLevelData[pageNumber - 1]|)
        && prefabCount == Max(old(prefabCount), |r.value|)
        && forall i :: 0 <= i < |r.value| ==> levelsPerRow > 0 && ShowsEntry(r.value[i], pageNumber - 1, i, store)
      ensures levelsPerRow == old(levelsPerRow) && activeCategory == old(activeCategory)
      ensures iapManager == old(iapManager) && metaData == old(metaData)
      ensures pagedLevelData == old(pagedLevelData) && activePagedLevelData == old(activePagedLevelData)
    {
      var pageIndex := pageNumber - 1;
      currentIndex := pageIndex;
      if LevelsPerPage() <= 0 {
        // The loop test fails on `LevelsPerPage` before the page is looked up.
        return Ok([]);
      }
      if !(0 <= pageIndex < |activePagedLevelData|) {
        return Err(NoSuchPage(pageIndex));
      }
      prefabCount := Max(prefabCount, Min(Max(LevelsPerPage(), 0), |activePagedLevelData[pageIndex]|));
      var buttons := ListButtons(pageIndex, store);
      return Ok(buttons);
    }
  }

  function Max(a: int, b: int): int
  {
    if a >= b then a else b
  }

  function Min(a: int, b: int): int
  {
    if a <= b then a else b
  }

  /** With an IAP manager, a level that no pak lists is purchased exactly
      when it has a file name; a level of the pak is purchased exactly when
      the pak is granted. Without a manager nothing is purchased. */
  lemma PurchaseRule(list: LevelListManager, meta: LevelMeta, store: Store)
    ensures list.iapManager == null ==> !list.IsPurchased(meta, store)
    ensures list.iapManager != null && meta.FileName() !in LevelPak1Levels ==>
              (list.IsPurchased(meta, store) <==> meta.FileName() != "")
    ensures list.iapManager != null && meta.FileName() in LevelPak1Levels ==>
              (list.IsPurchased(meta, store) <==> list.iapManager.Granted(store, LevelPak1))
  {
    RequirementIsActivePak(meta.FileName());
    if meta.FileName() in LevelPak1Levels {
      assert meta.FileName() != "" by {
        assert "" !in LevelPak1Levels;
      }
    }
  }
}
