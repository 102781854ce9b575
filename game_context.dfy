/** The game-wide context (GameContext.cs): whether gameplay is running, the
    active level with its meta record, the movement history of the current
    attempt, and the choice of the next level to play. The level files and the
    stored meta records are parameters: `listing(c)` is the sorted list of level
    paths of category `c`, `load(p)` the level stored at path `p`. */
module GameContext {
  import opened Wrappers
  import opened StringExtensions
  import opened EnumExtensions
  import opened MovementTypes
  import opened LevelRecords
  import opened IAP

  /** One logged step: its direction, its time, and the identity of the build
      request of the item that moved (absent when the item has none). */
  datatype MovementHistory = MovementHistory(movementType: MovementType, timeMs: nat, reference: Option<nat>)

  /** Position of a category in declaration order. */
  function CategoryRank(c: Category): (r: nat)
    ensures r < |Categories| && Categories[r] == c
  {
    match c
    case Easy => 0
    case Medium => 1
    case Hard => 2
  }

  /** `GetNext` on categories either stays put (on the last one) or moves one
      step forward. */
  lemma NextCategory(c: Category)
    ensures GetNext(Categories, c) == c <==> c == Hard
    ensures GetNext(Categories, c) != c ==> CategoryRank(GetNext(Categories, c)) == CategoryRank(c) + 1
  {
    assert Categories[0] == Easy && Categories[1] == Medium && Categories[2] == Hard;
    assert IndexOf(Categories, c) == CategoryRank(c);
  }

  /** The level `MoveNext` settles on. */
  datatype Selection = Selection(levelPath: string, runtimeIndex: nat, category: Category)

  /** Why `MoveNext` throws: `First()` of an empty listing, or a pak check
      without an IAP manager. */
  datatype MoveError = EmptyListing(category: Category) | MissingIAPManager

  /** The choice made by `Data.MoveNext`. When the current path is missing or
      not listed it takes the first level of the category. Otherwise it takes
      the following level, unless there is none or its pak is not granted: then
      it recurses into the next category without an IAP manager, or stays on
      the current level when the category is the last. `grants` is the set of
      keys the IAP manager grants, absent when there is no manager. */
  function SelectNext(currentPath: NullableString, category: Category, listing: Category -> seq<string>,
                      grants: Option<set<string>>): (r: Result<Selection, MoveError>)
    ensures r.Ok? ==> r.value.runtimeIndex < |listing(r.value.category)|
                      && r.value.levelPath == listing(r.value.category)[r.value.runtimeIndex]
    ensures r.Ok? ==> CategoryRank(r.value.category) >= CategoryRank(category)
    ensures r == Err(MissingIAPManager) ==> IsValid(currentPath)
    decreases |Categories| - CategoryRank(category)
  {
    var levels := listing(category);
    var currentIndex := if IsValid(currentPath) then IndexOf(levels, currentPath.value) else -1;
    if currentIndex < 0 then
      if levels == [] then Err(EmptyListing(category)) else Ok(Selection(levels[0], 0, category))
    else
      var runtimeIndex := currentIndex + 1;
      var iapKey := if runtimeIndex >= |levels| then "" else GetIAPRequirement(levels[runtimeIndex]);
      if iapKey != "" && grants.None? then Err(MissingIAPManager)
      else if runtimeIndex >= |levels| || (iapKey != "" && iapKey !in grants.value) then
        var next := GetNext(Categories, category);
        NextCategory(category);
        if next == category then Ok(Selection(levels[currentIndex], currentIndex, category))
        else SelectNext(currentPath, next, listing, None)
      else Ok(Selection(levels[runtimeIndex], runtimeIndex, category))
  }

  /** Without a valid current path, or one the category does not list, the
      first level of the category is chosen. */
  lemma StartsAtFirstLevel(currentPath: NullableString, category: Category, listing: Category -> seq<string>,
                           grants: Option<set<string>>)
    requires !IsValid(currentPath) || currentPath.value !in listing(category)
    requires listing(category) != []
    ensures SelectNext(currentPath, category, listing, grants) == Ok(Selection(listing(category)[0], 0, category))
  {
  }

  /** From a listed level with a free or granted successor, the successor is
      chosen. */
  lemma AdvancesToSuccessor(currentPath: string, category: Category, listing: Category -> seq<string>,
                            grants: Option<set<string>>, i: nat)
    requires i + 1 < |listing(category)| && IndexOf(listing(category), currentPath) == i
    requires currentPath != []
    requires GetIAPRequirement(listing(category)[i + 1]) == ""
             || (grants.Some? && GetIAPRequirement(listing(category)[i + 1]) in grants.value)
    ensures SelectNext(Some(currentPath), category, listing, grants)
            == Ok(Selection(listing(category)[i + 1], i + 1, category))
  {
  }

  /** From the last level of the last category the choice stays put. */
  lemma StaysOnLastLevel(currentPath: string, listing: Category -> seq<string>, grants: Option<set<string>>)
    requires |listing(Hard)| > 0 && IndexOf(listing(Hard), currentPath) == |listing(Hard)| - 1
    requires currentPath != []
    ensures SelectNext(Some(currentPath), Hard, listing, grants)
            == Ok(Selection(currentPath, |listing(Hard)| - 1, Hard))
  {
    NextCategory(Hard);
  }

  /** From the last level of any other category the choice is made in the next
      category, with no IAP manager. */
  lemma SpillsIntoNextCategory(currentPath: string, category: Category, listing: Category -> seq<string>,
                               grants: Option<set<string>>)
    requires category != Hard
    requires |listing(category)| > 0 && IndexOf(listing(category), currentPath) == |listing(category)| - 1
    requires currentPath != []
    ensures SelectNext(Some(currentPath), category, listing, grants)
            == SelectNext(Some(currentPath), GetNext(Categories, category), listing, None)
  {
    NextCategory(category);
  }

  /** `MoveNext`'s result as written: `levelPath.Equals(currentPath)`. */
  predicate ReportAsWritten(levelPath: string, currentPath: NullableString)
  {
    currentPath == Some(levelPath)
  }

  /** `MoveNext`'s result as its comment intends: true when it progressed. */
  predicate Progressed(levelPath: string, currentPath: NullableString)
  {
    currentPath != Some(levelPath)
  }

  /** On the last level of the last category `MoveNext` cannot progress, yet
      the result as written is true; the intended result is false. */
  lemma ReportInvertedOnLastLevel(currentPath: string, listing: Category -> seq<string>)
    requires |listing(Hard)| > 0 && IndexOf(listing(Hard), currentPath) == |listing(Hard)| - 1
    requires currentPath != []
    ensures var r := SelectNext(Some(currentPath), Hard, listing, None);
            r.Ok? && ReportAsWritten(r.value.levelPath, Some(currentPath))
            && !Progressed(r.value.levelPath, Some(currentPath))
  {
    StaysOnLastLevel(currentPath, listing, None);
  }

  /** The intended result is false exactly where the choice cannot move on:
      from a level listed only in its own category (level files live in one
      directory per category), `MoveNext` stays put exactly when the category
      is the last one and the level has no playable successor there. */
  lemma ProgressedUnlessStuck(currentPath: string, category: Category, listing: Category -> seq<string>,
                              grants: Option<set<string>>)
    requires currentPath != [] && currentPath in listing(category) && Distinct(listing(category))
    requires forall c :: c != category ==> currentPath !in listing(c)
    requires SelectNext(Some(currentPath), category, listing, grants).Ok?
    ensures var levels := listing(category);
            var i := IndexOf(levels, currentPath);
            var blocked := i + 1 >= |levels|
                           || (GetIAPRequirement(levels[i + 1]) != ""
                               && (grants.None? || GetIAPRequirement(levels[i + 1]) !in grants.value));
            !Progressed(SelectNext(Some(currentPath), category, listing, grants).value.levelPath, Some(currentPath))
            <==> category == Hard && blocked
  {
    var levels := listing(category);
    var i := IndexOf(levels, currentPath);
    var r := SelectNext(Some(currentPath), category, listing, grants);
    NextCategory(category);
    var next := GetNext(Categories, category);
    if i + 1 < |levels| {
      assert levels[i + 1] != levels[i];
    }
    if next != category {
      var spill := SelectNext(Some(currentPath), next, listing, None);
      assert IndexOf(listing(next), currentPath) == -1;
      if spill.Ok? {
        assert spill.value.levelPath in listing(next);
      }
    }
  }

  /** The identifier of the previously active level; `null` when there is none. */
  function PreviousIdentifier(previous: Option<LevelRecord>): NullableString
  {
    if previous.Some? then previous.value.Identifier() else None
  }

  /** `FirstOrDefault` over the stored meta records, by identifier. */
  function FirstMetaWith(metas: seq<LevelMeta>, id: NullableString): (r: Option<LevelMeta>)
    ensures r.Some? ==> r.value in metas && r.value.Identifier() == id
    ensures r.None? ==> forall m :: m in metas ==> m.Identifier() != id
  {
    if metas == [] then None
    else if metas[0].Identifier() == id then Some(metas[0])
    else FirstMetaWith(metas[1..], id)
  }

  /** `GameContext.Data`: the active level, its meta record and the movement
      history of the current attempt. */
  class ContextData {
    var activeData: Option<LevelRecord>
    var activeMeta: Option<LevelMeta>
    var history: seq<MovementHistory>

    constructor ()
      ensures activeData == None && activeMeta == None && history == []
    {
      activeData := None;
      activeMeta := None;
      history := [];
    }

    /** The history handed out to callers: a copy of every entry. */
    function RecentMovementHistory(): seq<MovementHistory>
      reads this
    {
      history
    }

    /** Record one step of the item built from `origin`. */
    method LogMovement(origin: Option<BuildItemRequest>, movementType: MovementType, timeMs: nat)
      modifies this
      ensures RecentMovementHistory()
              == old(RecentMovementHistory()) + [MovementHistory(movementType, timeMs, if origin.Some? then Some(origin.value.id) else None)]
      ensures activeData == old(activeData) && activeMeta == old(activeMeta)
    {
      var reference := if origin.Some? then Some(origin.value.id) else None;
      history := history + [MovementHistory(movementType, timeMs, reference)];
    }

    /** Install `data` as the active level. When it has the identifier of the
        level already active but different content, its local identifier is
        replaced by `freshGuid`; with equal content the active meta record is
        kept. Otherwise the meta comes from the stored records, or a new one is
        made. The meta takes `relativePath` and the history is emptied. */
    method SetActiveData(data: LevelRecord, relativePath: NullableString, storedMetas: seq<LevelMeta>, freshGuid: string)
      modifies this
      ensures var sameId := PreviousIdentifier(old(activeData)) == data.Identifier();
              var rotate := sameId && !DataEquals(old(activeData), Some(data));
              activeData == Some(if rotate then data.(localIdentifier := Some(freshGuid)) else data)
      ensures PreviousIdentifier(old(activeData)) == data.Identifier() && DataEquals(old(activeData), Some(data))
              && old(activeMeta).Some?
              ==> activeMeta == Some(old(activeMeta).value.(relativePath := relativePath))
      ensures !(PreviousIdentifier(old(activeData)) == data.Identifier() && DataEquals(old(activeData), Some(data))
                && old(activeMeta).Some?)
              ==> var stored := FirstMetaWith(storedMetas, activeData.value.Identifier());
                  activeMeta == Some((if stored.Some? then stored.value else MetaFor(activeData.value, None))
                                     .(relativePath := relativePath))
      ensures history == []
    {
      var previousData := activeData;
      var installed := data;
      var levelMetaData: Option<LevelMeta> := None;
      if PreviousIdentifier(previousData) == data.Identifier() {
        if !DataEquals(previousData, Some(data)) {
          installed := data.(localIdentifier := Some(freshGuid));
        } else {
          levelMetaData := activeMeta;
        }
      }
      if levelMetaData.None? {
        levelMetaData := FirstMetaWith(storedMetas, installed.Identifier());
      }
      if levelMetaData.None? {
        levelMetaData := Some(MetaFor(installed, None));
      }
      activeData := Some(installed);
      activeMeta := Some(levelMetaData.value.(relativePath := relativePath));
      history := [];
    }

    /** `MoveNext`: choose the next level (see `SelectNext`), load it, stamp
        its runtime index and category, and make it active. The result says
        whether the active path changed; on an error nothing changes. */
    method MoveNext(categoryOverride: Option<Category>, grants: Option<set<string>>,
                    listing: Category -> seq<string>, load: string -> LevelRecord,
                    storedMetas: seq<LevelMeta>, freshGuid: string) returns (r: Result<bool, MoveError>)
      modifies this
      ensures var currentPath := if old(activeMeta).Some? then old(activeMeta).value.relativePath else None;
              var category := if categoryOverride.Some? then categoryOverride.value
                              else if old(activeData).Some? && old(activeData).value.runtimeCategory.Some?
                              then old(activeData).value.runtimeCategory.value else Easy;
              var choice := SelectNext(currentPath, category, listing, grants);
              (choice.Err? ==> r == Err(choice.error) && activeData == old(activeData)
                               && activeMeta == old(activeMeta) && history == old(history))
              && (choice.Ok? ==> r == Ok(Progressed(choice.value.levelPath, currentPath))
                                 && activeData.Some? && activeMeta.Some?
                                 && activeData.value.runtimeIndex == choice.value.runtimeIndex
                                 && activeData.value.runtimeCategory == Some(choice.value.category)
                                 && activeMeta.value.relativePath == Some(choice.value.levelPath)
                                 && history == [])
    {
      var currentPath := if activeMeta.Some? then activeMeta.value.relativePath else None;
      var category := if categoryOverride.Some? then categoryOverride.value
                      else if activeData.Some? && activeData.value.runtimeCategory.Some?
                      then activeData.value.runtimeCategory.value else Easy;
      var choice := SelectNext(currentPath, category, listing, grants);
      if choice.Err? {
        return Err(choice.error);
      }
      var levelPath := choice.value.levelPath;
      var levelData := load(levelPath).(runtimeIndex := choice.value.runtimeIndex,
                                         runtimeCategory := Some(choice.value.category));
      SetActiveData(levelData, Some(levelPath), storedMetas, freshGuid);
      r := Ok(Progressed(levelPath, currentPath));
    }
  }

  /** The context itself: the running flag and the data. */
  class Context {
    var isRunning: bool
    const data: ContextData

    constructor (data: ContextData)
      ensures isRunning && this.data == data
    {
      isRunning := true;
      this.data := data;
    }

    predicate IsPaused()
      reads this
    {
      !isRunning
    }

    /** Set the running flag; an equal value leaves the state as it is. */
    method SetRunning(running: bool)
      modifies this
      ensures isRunning == running && IsPaused() == !running
      ensures old(isRunning) == running ==> unchanged(this)
    {
      if isRunning == running {
        return;
      }
      isRunning := running;
    }
  }
}
