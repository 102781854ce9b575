# Sokoban Unity client: a verified model of the gameplay core

This project models the gameplay core of the Sokoban Unity client in Dafny.
The model covers:

- the four movement directions and their vectors;
- the item kinds and their capabilities: boxes of each colour, markers, the player and the ground;
- the traversal rule: whether an item may step onto a cell, pushing a chain of boxes when its push strength allows;
- the warehouse grid of grounds and how it is built, grown, resized and condensed;
- the occupants of the grounds, and the counts of markers and matched markers that decide a win;
- the items' movement cycle: start a destination, arrive, continue into a queued destination, cancel;
- the gameplay handlers that react to selection, start and arrival;
- the game context: the active level, the movement history, the running flag, and the choice of the next level;
- in-app purchase grants and their queued callbacks;
- the level list: pages, the unlock rule, purchases;
- the locale lookup tables;
- the small string, enum and collection helpers these parts rely on.

The modules follow the source:

- `MovementTypes`, `Kinds`, `StringExtensions`, `EnumExtensions` and `EnumerableExtensions` are pure functions and lemmas.
- `LevelRecords` holds the stored level records and their comparers.
- `GridLayout` holds the grid arithmetic of the warehouse data.
- `Traversal` is `IsTraversable` on a value snapshot of the board.
- `Occupancy` holds the marker counts.
- `Warehouse` holds the classes `Item` (`BaseItem` together with the fields `Player` adds), `Ground`, `LevelData` (`WarehouseManager.Data`), `WarehouseManager` and `GameplayManager`. They share one module because their handlers call each other synchronously. `Item.ArriveDestination` fires the arrival handler, and that handler runs `Ground.SetOccupant`, which can force another item to arrive. That recursion terminates because the set of moving items shrinks.
- `GameContext`, `IAP`, `LevelList` and `Locale` are classes with the state their source classes update. Each comes with pure specification functions.

Unity events are direct method calls. Exceptions are `Err` results, or a `Threw` step for `Update`; the few cases where the model does nothing instead are listed under "## Left out". The wall clock, GUIDs, the store SDK, the level file listing and the saved receipts are parameters.

## Model

Source paths are relative to the repository root.

| member | source | states |
|---|---|---|
| MovementTypes.FirstWithVector | Sokoban.UnityClient/Assets/Scripts/Types/MovementType.cs:21-34 | returns a movement whose vector is the given one; returns none only when no movement has that vector |
| MovementTypes.AsMovementType | Sokoban.UnityClient/Assets/Scripts/Types/MovementType.cs:21-34 | a vector converts to a movement exactly when it is one of the four unit vectors, and that movement's vector is the input |
| MovementTypes.GetAngle | Sokoban.UnityClient/Assets/Scripts/Types/MovementType.cs:36-40 | no movement gives the zero vector; a movement gives its unit vector (Down (0,-1), Right (1,0), Up (0,1), Left (-1,0)) |
| MovementTypes.VectorInjective | Sokoban.UnityClient/Assets/Scripts/Types/MovementType.cs:4-17 | distinct movements have distinct vectors |
| MovementTypes.AngleRoundTrip | Sokoban.UnityClient/Assets/Scripts/Types/MovementType.cs:21-40 | converting a movement's vector back gives the movement |
| MovementTypes.UnitRoundTrip | Sokoban.UnityClient/Assets/Scripts/Types/MovementType.cs:21-40 | converting a unit vector to a movement and back gives the vector |
| MovementTypes.OppositeProperties | Sokoban.UnityClient/Assets/Scripts/Types/MovementType.cs:42-57 | the opposite is an involution, never the movement itself, and its vector is the negated vector |
| Kinds.ZSort | Sokoban.UnityClient/Assets/Scripts/Behaviors/Items/BaseItem.cs:110-117 | an indexed item sorts by (MaxSize - row) * 100, a marker one less so it draws beneath; an unindexed item sorts at (MaxSize + 1) * 100 plus its adjustment |
| Kinds.StrengthTable | Sokoban.UnityClient/Assets/Scripts/Behaviors/Items/Gameplay/Box.cs:43-55 | every push strength lies in 0..MaxSize; only a blue box has more than 1; the other boxes have 0 |
| Kinds.OnlyMarkersArePassive | Sokoban.UnityClient/Assets/Scripts/Behaviors/Items/Gameplay/Marker.cs:16 | an item stays underneath an arriving occupant exactly when it is a marker |
| Kinds.ZSortOrder | Sokoban.UnityClient/Assets/Scripts/Behaviors/Items/BaseItem.cs:110-117 | an item on a smaller row index sorts higher; on one row a marker sorts exactly one below any other item |
| StringExtensions.OnNullOrEmpty | Sokoban.UnityClient/Assets/Scripts/Extensions/StringExtensions.cs:18-21 | the fallback replaces exactly the null and empty strings |
| StringExtensions.LastIndexOf | Sokoban.UnityClient/Assets/Scripts/Extensions/StringExtensions.cs:30-43 | the position of the last occurrence of the character, or -1 when it does not occur |
| StringExtensions.LastSegment | Sokoban.UnityClient/Assets/Scripts/Extensions/StringExtensions.cs:30-43 | the part of the path after its last '/': a suffix of the string that holds no '/' |
| StringExtensions.GetFileExtension | Sokoban.UnityClient/Assets/Scripts/Extensions/StringExtensions.cs:30-43 | the extension is read after the last '.' of the file name, so it holds no '.' and no '/' |
| StringExtensions.ToLower | Sokoban.UnityClient/Assets/Scripts/Extensions/StringExtensions.cs:23-28 | lower-casing keeps the length and maps each character by itself |
| StringExtensions.ValidityDual | Sokoban.UnityClient/Assets/Scripts/Extensions/StringExtensions.cs:8-16 | a string is invalid exactly when it is not valid, that is when it is null or empty |
| StringExtensions.AsFileNameIdentity | Sokoban.UnityClient/Assets/Scripts/Extensions/StringExtensions.cs:50-66 | the conversion returns its input, with null as the empty string, whatever the input |
| StringExtensions.LastDotOfAppended | Sokoban.UnityClient/Assets/Scripts/Extensions/StringExtensions.cs:30-43 | in a name followed by '.' and a dotless extension, the last dot is the appended one |
| StringExtensions.LastIndexOfAppend | Sokoban.UnityClient/Assets/Scripts/Extensions/StringExtensions.cs:30-43 | appending characters that do not include c leaves the last position of c where it was |
| StringExtensions.LastSegmentAppend | Sokoban.UnityClient/Assets/Scripts/Extensions/StringExtensions.cs:30-43 | appending text without '/' extends the last path segment by that text |
| StringExtensions.ExtensionOfAppended | Sokoban.UnityClient/Assets/Scripts/Extensions/StringExtensions.cs:30-43 | appending '.' and an extension without '.' or '/' makes that the file's extension |
| StringExtensions.RemoveAppendedExtension | Sokoban.UnityClient/Assets/Scripts/Extensions/StringExtensions.cs:45-48 | removing the extension just appended gives back the name |
| StringExtensions.RemoveWithoutExtension | Sokoban.UnityClient/Assets/Scripts/Extensions/StringExtensions.cs:45-48 | a name without an extension is left as it is |
| StringExtensions.ExtensionMatch | Sokoban.UnityClient/Assets/Scripts/Extensions/StringExtensions.cs:23-28 | a name ending in '.' and an extension matches that extension in any letter case, and matches a null query |
| EnumExtensions.IndexOf | Sokoban.UnityClient/Assets/Scripts/Extensions/EnumExtensions.cs:8-20 | the position of the first occurrence of a value in the declared order, or -1 when it does not occur |
| EnumExtensions.IndexOfDistinct | Sokoban.UnityClient/Assets/Scripts/Extensions/EnumExtensions.cs:8-20 | in a declaration without repeats, the value at position k is found at k |
| EnumExtensions.NextFixedIffLast | Sokoban.UnityClient/Assets/Scripts/Extensions/EnumExtensions.cs:8-13 | the next value equals the value exactly when it is the last one |
| EnumExtensions.NextPreviousInverse | Sokoban.UnityClient/Assets/Scripts/Extensions/EnumExtensions.cs:8-20 | previous undoes next except on the last value, and next undoes previous except on the first |
| EnumerableExtensions.AsNotNull | Sokoban.UnityClient/Assets/Scripts/Extensions/EnumerableExtensions.cs:13-16 | a null sequence becomes empty; any other is kept |
| EnumerableExtensions.ColumnResults | Sokoban.UnityClient/Assets/Scripts/Extensions/EnumerableExtensions.cs:50-75 | one result for each cell of one column, in row order |
| EnumerableExtensions.ForEach | Sokoban.UnityClient/Assets/Scripts/Extensions/EnumerableExtensions.cs:50-75 | the loop over the grid returns exactly the column-major visit of every cell |
| EnumerableExtensions.VisitColumn | Sokoban.UnityClient/Assets/Scripts/Extensions/EnumerableExtensions.cs:62-71 | the inner loop appends exactly one column's results, in row order, after those already collected |
| EnumerableExtensions.VisitLength | Sokoban.UnityClient/Assets/Scripts/Extensions/EnumerableExtensions.cs:50-75 | the visit has one result for each cell of the grid |
| EnumerableExtensions.VisitAt | Sokoban.UnityClient/Assets/Scripts/Extensions/EnumerableExtensions.cs:50-75 | the result for cell (c, r) follows the results of all earlier columns at place r, and is computed from that cell and its position |
| EnumerableExtensions.VisitMembers | Sokoban.UnityClient/Assets/Scripts/Extensions/EnumerableExtensions.cs:50-75 | every result of the visit comes from some cell, and every cell gives a result |
| EnumerableExtensions.NonNullAppend | Sokoban.UnityClient/Assets/Scripts/Extensions/EnumerableExtensions.cs:102-116 | filtering out nulls distributes over concatenation |
| EnumerableExtensions.NonNullMembers | Sokoban.UnityClient/Assets/Scripts/Extensions/EnumerableExtensions.cs:102-116 | an element is in the filtered sequence exactly when it is present (non-null) in the input |
| LevelRecords.MissingGroundEqualsIsValueEquality | Sokoban.UnityClient/Assets/Scripts/Behaviors/Managers/WarehouseManager.cs:1084-1088 | two missing-ground records are equal exactly when both coordinates agree; null equals nothing |
| LevelRecords.RequestEqualsIgnoresIdentity | Sokoban.UnityClient/Assets/Scripts/Behaviors/Managers/WarehouseManager.cs:1161-1176 | the request comparer holds exactly when the requests agree on everything but their identity; it is reflexive and symmetric |
| LevelRecords.MetaFor | Sokoban.UnityClient/Assets/Scripts/Behaviors/Managers/WarehouseManager.cs:1045-1053 | a new meta record copies the level's identifiers and path and starts not completed |
| LevelRecords.InsertBy | Sokoban.UnityClient/Assets/Scripts/Behaviors/Managers/WarehouseManager.cs:988-990 | insertion adds exactly one element; InsertByProperties proves the result sorted and a permutation |
| LevelRecords.SortBy | Sokoban.UnityClient/Assets/Scripts/Behaviors/Managers/WarehouseManager.cs:988-990 | the stable sort keeps the length; SortByProperties proves it sorted and a permutation |
| LevelRecords.InsertByProperties | Sokoban.UnityClient/Assets/Scripts/Behaviors/Managers/WarehouseManager.cs:988-990 | insertion gives a sorted permutation of the element and the list |
| LevelRecords.SortByProperties | Sokoban.UnityClient/Assets/Scripts/Behaviors/Managers/WarehouseManager.cs:988-990 | the sort gives a sorted permutation of its input |
| LevelRecords.SortByStable | Sokoban.UnityClient/Assets/Scripts/Behaviors/Managers/WarehouseManager.cs:988-990 | the sort is stable: the elements of any one key keep their relative order, as LINQ's `OrderBy` promises |
| LevelRecords.SortBySorted | Sokoban.UnityClient/Assets/Scripts/Behaviors/Managers/WarehouseManager.cs:988-990 | sorting an already sorted list changes nothing |
| LevelRecords.AsWrittenNotReflexive | Sokoban.UnityClient/Assets/Scripts/Behaviors/Managers/WarehouseManager.cs:974-992 | the level comparer as written finds a level with unsorted missing ground unequal to itself |
| LevelRecords.DataEqualsIsEquivalence | Sokoban.UnityClient/Assets/Scripts/Behaviors/Managers/WarehouseManager.cs:974-992 | the corrected comparer, which sorts both sides, is reflexive, symmetric and transitive |
| LevelRecords.AsWrittenAgreesOnSortedGround | Sokoban.UnityClient/Assets/Scripts/Behaviors/Managers/WarehouseManager.cs:974-992 | the written and corrected comparers agree whenever the second level's missing ground is stored sorted |
| GridLayout.ShiftGrid | Sokoban.UnityClient/Assets/Scripts/Behaviors/Managers/WarehouseManager.cs:861-890 | the copying loops of ResizeGrounds build exactly the resized grid, or report the error Resize reports |
| GridLayout.ResizeMovesCells | Sokoban.UnityClient/Assets/Scripts/Behaviors/Managers/WarehouseManager.cs:861-890 | the new grid has the padded size, every old ground moves by the front padding, and every ground of the new grid comes from such an old cell |
| GridLayout.ResizeTruncatesOnlyGround | Sokoban.UnityClient/Assets/Scripts/Behaviors/Managers/WarehouseManager.cs:871-877 | a resize fails exactly when it would cut off a cell that holds a ground |
| GridLayout.ResizeKeepsContents | Sokoban.UnityClient/Assets/Scripts/Behaviors/Managers/WarehouseManager.cs:861-890 | a successful resize keeps exactly the grounds of the grid and keeps them at distinct cells |
| GridLayout.GrowReaches | Sokoban.UnityClient/Assets/Scripts/Behaviors/Managers/WarehouseManager.cs:852-859 | growing a non-empty grid succeeds, keeps it rectangular, brings the requested cell (clamped to 0) inside, and shifts old cells by the front padding |
| GridLayout.FirstOccupied | Sokoban.UnityClient/Assets/Scripts/Behaviors/Managers/WarehouseManager.cs:398-399 | the first column holding a ground, or 0 when none does; every column before it is empty |
| GridLayout.LastOccupied | Sokoban.UnityClient/Assets/Scripts/Behaviors/Managers/WarehouseManager.cs:423-424 | the last column holding a ground, or 0 when none does; every column after it is empty |
| GridLayout.CountLeadingEmptyRows | Sokoban.UnityClient/Assets/Scripts/Behaviors/Managers/WarehouseManager.cs:404-411 | the row loop counts exactly the empty rows at the front of the grid |
| GridLayout.CountTrailingEmptyRows | Sokoban.UnityClient/Assets/Scripts/Behaviors/Managers/WarehouseManager.cs:429-436 | the row loop counts exactly the empty rows at the back of the grid |
| GridLayout.CondenseFrontFits | Sokoban.UnityClient/Assets/Scripts/Behaviors/Managers/WarehouseManager.cs:398-421 | the front trimming of CondenseGrounds never throws: it cuts only empty columns and rows |
| GridLayout.CondenseBackFits | Sokoban.UnityClient/Assets/Scripts/Behaviors/Managers/WarehouseManager.cs:423-446 | the back trimming of CondenseGrounds never throws |
| GridLayout.ResizeCell | Sokoban.UnityClient/Assets/Scripts/Behaviors/Managers/WarehouseManager.cs:861-890 | a ground of the old grid lies at its shifted cell of the new grid |
| GridLayout.ResizeCellBack | Sokoban.UnityClient/Assets/Scripts/Behaviors/Managers/WarehouseManager.cs:861-890 | a ground of the new grid comes from the cell shifted back in the old grid |
| GridLayout.ResizeKeepsOccupied | Sokoban.UnityClient/Assets/Scripts/Behaviors/Managers/WarehouseManager.cs:861-890 | a successful resize keeps the grid rectangular and occupied exactly when it was |
| GridLayout.CondenseFrontKeeps | Sokoban.UnityClient/Assets/Scripts/Behaviors/Managers/WarehouseManager.cs:398-421 | front trimming keeps the grid rectangular, its grounds and their distinctness |
| GridLayout.CondenseBackKeeps | Sokoban.UnityClient/Assets/Scripts/Behaviors/Managers/WarehouseManager.cs:423-446 | back trimming keeps the grid rectangular, its grounds and their distinctness |
| GridLayout.CondenseFrontTightens | Sokoban.UnityClient/Assets/Scripts/Behaviors/Managers/WarehouseManager.cs:398-421 | front trimming keeps the grid rectangular and occupied exactly when it was, and an occupied grid then has a ground in its first column and in its first row |
| GridLayout.CondenseFrontShifted | Sokoban.UnityClient/Assets/Scripts/Behaviors/Managers/WarehouseManager.cs:398-421 | the resize the front part performs, by the first occupied column and the empty leading rows, has the same effect |
| GridLayout.CondenseBackTightens | Sokoban.UnityClient/Assets/Scripts/Behaviors/Managers/WarehouseManager.cs:423-446 | back trimming of a grid tight at the front keeps it occupied exactly when it was and leaves it tight on every side |
| GridLayout.CondenseBackShifted | Sokoban.UnityClient/Assets/Scripts/Behaviors/Managers/WarehouseManager.cs:423-446 | the resize the back part performs, by the columns after the last occupied one and the empty trailing rows, leaves the grid tight on every side |
| GridLayout.BackKeepsFront | Sokoban.UnityClient/Assets/Scripts/Behaviors/Managers/WarehouseManager.cs:423-446 | the back resize keeps a ground in the first column and in the first row |
| GridLayout.BackKeepsFirstRow | Sokoban.UnityClient/Assets/Scripts/Behaviors/Managers/WarehouseManager.cs:423-446 | the back resize keeps a ground in the first row |
| GridLayout.BackReachesBack | Sokoban.UnityClient/Assets/Scripts/Behaviors/Managers/WarehouseManager.cs:423-446 | after the back resize the last column and the last row hold a ground |
| GridLayout.ColumnHolesAreVisited | Sokoban.UnityClient/Assets/Scripts/Behaviors/Managers/WarehouseManager.cs:831-839 | visiting a column with the hole test and dropping the nulls gives exactly the holes of the column |
| GridLayout.GridHolesAreVisited | Sokoban.UnityClient/Assets/Scripts/Behaviors/Managers/WarehouseManager.cs:831-839 | ForEach over the grid with the hole test, then WithNonNull, gives exactly the grid's holes in column-major order |
| GridLayout.ColumnHolesExact | Sokoban.UnityClient/Assets/Scripts/Behaviors/Managers/WarehouseManager.cs:831-839 | a cell of a column is reported exactly when it is empty |
| GridLayout.GridHolesExact | Sokoban.UnityClient/Assets/Scripts/Behaviors/Managers/WarehouseManager.cs:831-839 | a position is reported missing exactly when it is an empty cell of the grid |
| GridLayout.ColumnHolesSorted | Sokoban.UnityClient/Assets/Scripts/Behaviors/Managers/WarehouseManager.cs:831-839 | the holes of a column come in increasing row order |
| GridLayout.GridHolesBounded | Sokoban.UnityClient/Assets/Scripts/Behaviors/Managers/WarehouseManager.cs:831-839 | every reported missing ground lies in a column of the grid |
| GridLayout.GridHolesSorted | Sokoban.UnityClient/Assets/Scripts/Behaviors/Managers/WarehouseManager.cs:831-839 | the missing grounds come in (column, row) order, so the stored list needs no sorting |
| GridLayout.PresentExact | Sokoban.UnityClient/Assets/Scripts/Extensions/EnumerableExtensions.cs:102-116 | the non-null cells of a grid, in column-major order, are exactly the objects the grid holds |
| Traversal.GetOccupant | Sokoban.UnityClient/Assets/Scripts/Behaviors/Managers/WarehouseManager.cs:219-227 | reading an occupant fails exactly where there is no ground; otherwise it gives that ground's occupant |
| Traversal.FirstInbound | Sokoban.UnityClient/Assets/Scripts/Behaviors/Managers/WarehouseManager.cs:229-232 | an active item headed for the position, or none exactly when no item is headed there |
| Traversal.FirstInboundIsFirst | Sokoban.UnityClient/Assets/Scripts/Behaviors/Managers/WarehouseManager.cs:229-232 | the item found is the first one headed for the position (`FirstOrDefault`): every item before it is headed elsewhere |
| Traversal.NoGroundBlocks | Sokoban.UnityClient/Assets/Scripts/Behaviors/Managers/WarehouseManager.cs:563-594 | a cell without ground is never traversable |
| Traversal.OpenIsTraversable | Sokoban.UnityClient/Assets/Scripts/Behaviors/Managers/WarehouseManager.cs:563-594 | ground with no occupant and no inbound item is always traversable |
| Traversal.NeverThrowsFromGround | Sokoban.UnityClient/Assets/Scripts/Behaviors/Managers/WarehouseManager.cs:563-594 | when the origin has ground, the check never throws, including in its recursive calls |
| Traversal.ThrowsExactly | Sokoban.UnityClient/Assets/Scripts/Behaviors/Managers/WarehouseManager.cs:563-594 | the check throws exactly when the destination has ground and the origin behind it has none |
| Traversal.StrengthMonotone | Sokoban.UnityClient/Assets/Scripts/Behaviors/Managers/WarehouseManager.cs:563-594 | a cell traversable with some push strength stays traversable with any greater strength |
| Traversal.ImmovableBlocks | Sokoban.UnityClient/Assets/Scripts/Behaviors/Managers/WarehouseManager.cs:563-594 | a resting gray box can never be pushed |
| Traversal.UnboostedChain | Sokoban.UnityClient/Assets/Scripts/Behaviors/Managers/WarehouseManager.cs:563-594 | a chain of cells that ends in open ground is traversable |
| Traversal.PlayerPushesOneBox | Sokoban.UnityClient/Assets/Scripts/Behaviors/Managers/WarehouseManager.cs:563-594 | the player can push one pushable box onto open ground |
| Traversal.PlayerCannotPushTwo | Sokoban.UnityClient/Assets/Scripts/Behaviors/Managers/WarehouseManager.cs:563-594 | the player cannot push a resting box that has another resting occupant behind it |
| Traversal.StrengthFromBehind | Sokoban.UnityClient/Assets/Scripts/Behaviors/Managers/WarehouseManager.cs:563-594 | the effective push strength is the larger of the given one and the strength of the item behind |
| Traversal.StrengthAtBounds | Sokoban.UnityClient/Assets/Scripts/Behaviors/Items/Gameplay/Box.cs:43-55 | the strength an occupant lends lies in 0..MaxSize |
| Traversal.BlueBoxPushesChain | Sokoban.UnityClient/Assets/Scripts/Behaviors/Items/Gameplay/Box.cs:43-55 | the player can push a blue box into a chain of boxes that ends in open ground |
| Occupancy.MarkerOf | Sokoban.UnityClient/Assets/Scripts/Behaviors/Items/Gameplay/Ground.cs:30-45 | a ground shows a marker exactly when its occupant or its passive occupant is a marker |
| Occupancy.CountColumnMonotone | Sokoban.UnityClient/Assets/Scripts/Behaviors/Managers/WarehouseManager.cs:98-123 | a stricter condition counts no more cells of a column, and the same number exactly when the two agree on it |
| Occupancy.CountGridMonotone | Sokoban.UnityClient/Assets/Scripts/Behaviors/Managers/WarehouseManager.cs:98-123 | a stricter condition counts no more cells of the grid, and the same number exactly when the two agree on it |
| Occupancy.WinIffAllMatched | Sokoban.UnityClient/Assets/Scripts/Behaviors/Managers/WarehouseManager.cs:125-131 | matched markers never outnumber markers, and the level is won exactly when every marker holds a box of its colour |
| Occupancy.MatchedColours | Sokoban.UnityClient/Assets/Scripts/Behaviors/Managers/WarehouseManager.cs:110-123 | a cell is matched exactly when it shows a marker and its occupant is a box of that colour |
| Occupancy.MatchedMarkerIsPassive | Sokoban.UnityClient/Assets/Scripts/Behaviors/Items/Gameplay/Ground.cs:30-45 | on a matched cell the marker is the passive occupant under the box |
| GameContext.CategoryRank | Sokoban.UnityClient/Assets/Scripts/GameContext.cs:152-195 | the position of a category in the declared order |
| GameContext.NextCategory | Sokoban.UnityClient/Assets/Scripts/Extensions/EnumExtensions.cs:8-13 | the next category is the same one only for the last category, and otherwise ranks one higher |
| GameContext.SelectNext | Sokoban.UnityClient/Assets/Scripts/GameContext.cs:152-190 | a chosen level is listed in its category at the returned index, in the same or a later category; the store error arises only for a valid current path |
| GameContext.StartsAtFirstLevel | Sokoban.UnityClient/Assets/Scripts/GameContext.cs:152-190 | without a current level listed in the category, the first level of the category is chosen |
| GameContext.AdvancesToSuccessor | Sokoban.UnityClient/Assets/Scripts/GameContext.cs:152-190 | from a listed level whose successor is free or purchased, the successor is chosen |
| GameContext.StaysOnLastLevel | Sokoban.UnityClient/Assets/Scripts/GameContext.cs:152-190 | from the last level of the last category the current level is chosen again |
| GameContext.SpillsIntoNextCategory | Sokoban.UnityClient/Assets/Scripts/GameContext.cs:152-190 | from the last level of another category the choice starts in the next category |
| GameContext.ReportInvertedOnLastLevel | Sokoban.UnityClient/Assets/Scripts/GameContext.cs:193-194 | as written, the result on the last level of the last category says true although nothing changed |
| GameContext.ProgressedUnlessStuck | Sokoban.UnityClient/Assets/Scripts/GameContext.cs:152-194 | from a level listed only in its own category, the corrected result is false exactly when the category is the last and the level has no playable successor there |
| GameContext.FirstMetaWith | Sokoban.UnityClient/Assets/Scripts/GameContext.cs:104-150 | the first stored meta record with the identifier, or none when no record has it |
| GameContext.ContextData.constructor | Sokoban.UnityClient/Assets/Scripts/GameContext.cs:37-82 | no active level, no meta record and an empty movement history |
| GameContext.ContextData.LogMovement | Sokoban.UnityClient/Assets/Scripts/GameContext.cs:84-97 | appends one entry (direction, time, id of the item's origin) to the history and changes nothing else |
| GameContext.ContextData.SetActiveData | Sokoban.UnityClient/Assets/Scripts/GameContext.cs:104-150 | the same level with different content, judged by the corrected comparer `DataEquals`, gets a new GUID; equal content keeps the meta record; otherwise the stored meta or a new one is used; the history is cleared |
| GameContext.ContextData.MoveNext | Sokoban.UnityClient/Assets/Scripts/GameContext.cs:152-195 | loads the level SelectNext chooses, stamps its index and category, and returns the corrected result `Progressed` (the source returns its negation, see Findings); an error leaves the state unchanged |
| GameContext.Context.constructor | Sokoban.UnityClient/Assets/Scripts/GameContext.cs:203 | the game starts running |
| GameContext.Context.SetRunning | Sokoban.UnityClient/Assets/Scripts/GameContext.cs:240-248 | the running flag takes the value and paused is its negation; an equal value changes nothing |
| IAP.FirstPak | Sokoban.UnityClient/Assets/Scripts/Behaviors/Managers/IAPManager.cs:289-303 | "" or one of the given paks |
| IAP.RequirementIsActivePak | Sokoban.UnityClient/Assets/Scripts/Behaviors/Managers/IAPManager.cs:244-303 | the requirement is "" or an active pak, and it is "" exactly when no active pak lists the level |
| IAP.LocalGrantSuffices | Sokoban.UnityClient/Assets/Scripts/Behaviors/Managers/IAPManager.cs:211-234 | a local grant is enough, whatever the store reports |
| IAP.UninitialisedStoreIsLocalOnly | Sokoban.UnityClient/Assets/Scripts/Behaviors/Managers/IAPManager.cs:211-239 | with the store not initialised only the local grants count |
| IAP.ActionsFor | Sokoban.UnityClient/Assets/Scripts/Behaviors/Managers/IAPManager.cs:195-209 | at most one action per queue entry; GrantRunsEachMatch proves exactly one per entry with the key |
| IAP.CallbacksFor | Sokoban.UnityClient/Assets/Scripts/Behaviors/Managers/IAPManager.cs:195-209 | at most the whole queue; CallbacksForMembers proves it holds exactly the entries with the key |
| IAP.Except | Sokoban.UnityClient/Assets/Scripts/Behaviors/Managers/IAPManager.cs:195-209 | the distinct elements of the first list that are not in the second, each once |
| IAP.RunCallbacks | Sokoban.UnityClient/Assets/Scripts/Behaviors/Managers/IAPManager.cs:195-209 | the loop over the queue runs and collects exactly the entries for the key |
| IAP.IAPManager.constructor | Sokoban.UnityClient/Assets/Scripts/Behaviors/Managers/IAPManager.cs:35-37 | no local grants, an empty queue, not initialised, no action run and no grant recorded |
| IAP.IAPManager.WithGrant | Sokoban.UnityClient/Assets/Scripts/Behaviors/Managers/IAPManager.cs:91-104 | before the manager and the store are both ready the action is queued; once they are, it runs at once when the key is granted and is dropped otherwise |
| IAP.IAPManager.Grant | Sokoban.UnityClient/Assets/Scripts/Behaviors/Managers/IAPManager.cs:195-209 | runs every queued action for the key in queue order and removes those entries; the rest of the queue is de-duplicated; the grant is recorded |
| IAP.IAPManager.AttemptLocalGrants | Sokoban.UnityClient/Assets/Scripts/Behaviors/Managers/IAPManager.cs:106-120 | every single purchase with a saved receipt becomes a local grant; the ones not granted before are granted in `IAPSingles` order, each raising its grant event, running its queued callbacks and leaving the rest queued |
| IAP.IAPManager.GrantSaved | Sokoban.UnityClient/Assets/Scripts/Behaviors/Managers/IAPManager.cs:106-120 | the scan over any key list: the local grants, events, callbacks run and queue left are those of `Grant` for each pending key in turn |
| IAP.IAPManager.GrantIfSaved | Sokoban.UnityClient/Assets/Scripts/Behaviors/Managers/IAPManager.cs:108-118 | one key: granted and moved out of the pending grants exactly when it has a saved receipt and no local grant |
| IAP.PendingExact | Sokoban.UnityClient/Assets/Scripts/Behaviors/Managers/IAPManager.cs:106-120 | a key is granted exactly when it is listed, has a saved receipt and no earlier local grant, and each such key once |
| IAP.QueueStep | Sokoban.UnityClient/Assets/Scripts/Behaviors/Managers/IAPManager.cs:195-209 | scanning one more queue entry extends the run actions exactly when the entry has the key |
| IAP.CallbacksForMembers | Sokoban.UnityClient/Assets/Scripts/Behaviors/Managers/IAPManager.cs:195-209 | an entry is run exactly when it is queued and has the key |
| IAP.GrantKeepsOthers | Sokoban.UnityClient/Assets/Scripts/Behaviors/Managers/IAPManager.cs:195-209 | after a grant the queue holds exactly the entries for other keys |
| IAP.GrantRunsEachMatch | Sokoban.UnityClient/Assets/Scripts/Behaviors/Managers/IAPManager.cs:195-209 | the number of actions run equals the number of queue entries with the key |
| Warehouse.Distance | Sokoban.UnityClient/Assets/Scripts/Behaviors/Items/BaseItem.cs:369-372 | defined exactly when both indices are set, and the destination plus the distance is the origin |
| Warehouse.KindOf | Sokoban.UnityClient/Assets/Scripts/Behaviors/Managers/WarehouseManager.cs:461-505 | a box colour builds that box; otherwise a marker colour builds that marker; otherwise only the player item type builds an item |
| Warehouse.Item.constructor | Sokoban.UnityClient/Assets/Scripts/Behaviors/Items/BaseItem.cs:42-50 | a new item is unplaced and idle, with no destination, nothing queued, and the animation index on the last frame |
| Warehouse.Item.AsBuildItem | Sokoban.UnityClient/Assets/Scripts/Behaviors/Items/BaseItem.cs:129-139 | the item's origin request, with its column and row taken from the index, or -1 when there is none |
| Warehouse.Item.SetParent | Sokoban.UnityClient/Assets/Scripts/Behaviors/Items/BaseItem.cs:374-381 | the item takes the parent, and a non-null parent's index; its motion is unchanged |
| Warehouse.Item.Remove | Sokoban.UnityClient/Assets/Scripts/Behaviors/Items/BaseItem.cs:361-367 | the item is detached from its parent and marked removed; its index and motion stay |
| Warehouse.Item.CancelDestination | Sokoban.UnityClient/Assets/Scripts/Behaviors/Items/BaseItem.cs:269-275 | the item stops, with no direction, no destination and nothing queued |
| Warehouse.Item.Animate | Sokoban.UnityClient/Assets/Scripts/Behaviors/Items/Gameplay/Player.cs:73-91 | while moving and when the frame time has elapsed, the frame advances and wraps to 0 after the last one; otherwise it stays |
| Warehouse.Item.StartDestination | Sokoban.UnityClient/Assets/Scripts/Behaviors/Items/BaseItem.cs:254-267 | when the destination is one step away the item starts moving in that direction, and the occupant there is sent on in the same direction; the item keeps its destination unless it is that occupant itself; otherwise nothing changes |
| Warehouse.Item.Launch | Sokoban.UnityClient/Assets/Scripts/Behaviors/Items/BaseItem.cs:257-260 | the item moves in the given direction and nothing else about it changes |
| Warehouse.Item.Flag | Sokoban.UnityClient/Assets/Scripts/Behaviors/Managers/GameplayManager.cs:319-378 | sets the queued destination and the marker animation and nothing else |
| Warehouse.Item.ArriveDestination | Sokoban.UnityClient/Assets/Scripts/Behaviors/Items/BaseItem.cs:238-252 | the queue is consumed and the item ends moving exactly when it has a direction (a queued destination started); the player logs the step in the history and keeps its last direction |
| Warehouse.Item.Depart | Sokoban.UnityClient/Assets/Scripts/Behaviors/Items/BaseItem.cs:240-242 | the item stops and forgets its destination, so fewer items are moving; the player logs its step |
| Warehouse.Item.Resume | Sokoban.UnityClient/Assets/Scripts/Behaviors/Items/BaseItem.cs:244-251 | after the handler: without a queued destination the item ends idle with no direction and its destination kept; a queued destination becomes the destination and, one step away, the move towards it starts in that direction; nothing stays queued |
| Warehouse.Item.Dequeue | Sokoban.UnityClient/Assets/Scripts/Behaviors/Items/BaseItem.cs:246-251 | the queued destination becomes the destination; the item moves in the direction of the step to it when that is one step, and is idle with no direction otherwise; nothing stays queued |
| Warehouse.Item.Update | Sokoban.UnityClient/Assets/Scripts/Behaviors/Items/BaseItem.cs:186-222 | a paused game changes nothing; an idle item without an index whose destination has one throws with nothing changed; otherwise an idle item starts moving exactly when its destination is one step away, and else stays idle with nothing changed; a moving item throws without a destination, index or direction or when the traversal test throws, is cancelled exactly when the test says not traversable, and otherwise arrives or keeps moving as `arrives` says |
| Warehouse.Item.Advance | Sokoban.UnityClient/Assets/Scripts/Behaviors/Items/BaseItem.cs:204-236 | the moving half of Update: throws without a destination, index or direction or when the traversal test throws, is cancelled exactly when the test says not traversable (all motion cleared), and otherwise arrives or moves as `arrives` says; a throw or a move changes nothing |
| Warehouse.Item.Begin | Sokoban.UnityClient/Assets/Scripts/Behaviors/Items/BaseItem.cs:204-221 | the idle half of Update: an indexed destination with the item's own index unset throws before anything changes; a destination one step away starts the move in that direction and the move advances in the same frame; otherwise the item stays idle and nothing changes |
| Warehouse.Item.Halt | Sokoban.UnityClient/Assets/Scripts/Behaviors/Items/BaseItem.cs:213-216 | a blocked item stops with no direction, destination or queue |
| Warehouse.Ground.constructor | Sokoban.UnityClient/Assets/Scripts/Behaviors/Items/Gameplay/Ground.cs:18-22 | a new ground at its index, with no occupants and no events |
| Warehouse.Ground.OccupantAsMarker | Sokoban.UnityClient/Assets/Scripts/Behaviors/Items/Gameplay/Ground.cs:30-45 | the active occupant when it is a marker, else the passive occupant when it is a marker, else none |
| Warehouse.Ground.AsBuildItem | Sokoban.UnityClient/Assets/Scripts/Behaviors/Items/Gameplay/Ground.cs:64-79 | none exactly without an occupant, otherwise the occupant's request at its current index |
| Warehouse.Ground.SetOccupant | Sokoban.UnityClient/Assets/Scripts/Behaviors/Items/Gameplay/Ground.cs:82-123 | the new occupant is placed here, a marker stays beneath, clearing restores the marker, a displaced occupant is removed on request, and the events fire |
| Warehouse.Ground.Settle | Sokoban.UnityClient/Assets/Scripts/Behaviors/Items/Gameplay/Ground.cs:96-122 | the placing half of SetOccupant: occupy or vacate, tell the warehouse, and remove the old occupant on request |
| Warehouse.Ground.Occupy | Sokoban.UnityClient/Assets/Scripts/Behaviors/Items/Gameplay/Ground.cs:96-108 | the item becomes the occupant and is reparented here; a marker it meets becomes the passive occupant |
| Warehouse.Ground.Vacate | Sokoban.UnityClient/Assets/Scripts/Behaviors/Items/Gameplay/Ground.cs:109-116 | clearing the ground restores its passive marker as the occupant |
| Warehouse.Ground.Evict | Sokoban.UnityClient/Assets/Scripts/Behaviors/Items/Gameplay/Ground.cs:118-122 | the previous occupant is removed and the removal event fires |
| Warehouse.Ground.SetIndex | Sokoban.UnityClient/Assets/Scripts/Behaviors/Items/Gameplay/Ground.cs:47-62 | the ground takes the index and its occupant takes it too, without changing its motion |
| Warehouse.Ground.Remove | Sokoban.UnityClient/Assets/Scripts/Behaviors/Items/Gameplay/Ground.cs:125-135 | the ground is removed with index (-1, -1); its occupant is removed but stays parented here with index (-1, -1) and its motion unchanged |
| Warehouse.MovingShrinks | Sokoban.UnityClient/Assets/Scripts/Behaviors/Items/BaseItem.cs:238-252 | a step that leaves idle items idle never adds to the moving items |
| Warehouse.Cells | Sokoban.UnityClient/Assets/Scripts/Behaviors/Managers/WarehouseManager.cs:98-131 | the grid as the counting queries read it, cell by cell |
| Warehouse.Movers | Sokoban.UnityClient/Assets/Scripts/Behaviors/Managers/WarehouseManager.cs:229-232 | the active items as the traversal rule reads them, item by item |
| Warehouse.IndexedIsDistinct | Sokoban.UnityClient/Assets/Scripts/Behaviors/Managers/WarehouseManager.cs:899-902 | grounds that carry their own positions are held at one cell each |
| Warehouse.FirstIndexOfIsFirst | Sokoban.UnityClient/Assets/Scripts/Behaviors/Managers/WarehouseManager.cs:370-377 | the position found is the first holding the element: none before it does, and it is the list's length exactly when the element is missing |
| Warehouse.WithoutFirst | Sokoban.UnityClient/Assets/Scripts/Behaviors/Managers/WarehouseManager.cs:370-377 | list removal drops exactly the first occurrence, and nothing when there is none |
| Warehouse.WithoutKeeps | Sokoban.UnityClient/Assets/Scripts/Behaviors/Managers/WarehouseManager.cs:370-377 | list removal adds no element |
| Warehouse.FirstWithIdIsFirst | Sokoban.UnityClient/Assets/Scripts/Behaviors/Managers/WarehouseManager.cs:370-377 | the position found is that of the first request with the id: none before it has the id, and it is the list's length when no request has it |
| Warehouse.WithoutRequestFirst | Sokoban.UnityClient/Assets/Scripts/Behaviors/Managers/WarehouseManager.cs:370-377 | removing an item's request drops exactly the first request of that origin |
| Warehouse.PutContents | Sokoban.UnityClient/Assets/Scripts/Behaviors/Managers/WarehouseManager.cs:274-306 | setting one cell keeps the grid's shape, adds only the new ground, and keeps the grounds distinct |
| Warehouse.ClearContents | Sokoban.UnityClient/Assets/Scripts/Behaviors/Managers/WarehouseManager.cs:384-394 | clearing one cell keeps the grid's shape and removes at most that cell's ground |
| Warehouse.Collect | Sokoban.UnityClient/Assets/Scripts/Extensions/EnumerableExtensions.cs:102-116 | the loop collects exactly the non-null cells of the grid in column-major order |
| Warehouse.LevelData.constructor | Sokoban.UnityClient/Assets/Scripts/Behaviors/Managers/WarehouseManager.cs:774-789 | the runtime data copies the stored size, missing ground and build requests, with no grid and no active items |
| Warehouse.LevelData.CalculateMissingGround | Sokoban.UnityClient/Assets/Scripts/Behaviors/Managers/WarehouseManager.cs:831-839 | the missing ground becomes exactly the empty cells of the grid |
| Warehouse.LevelData.ResizeGrounds | Sokoban.UnityClient/Assets/Scripts/Behaviors/Managers/WarehouseManager.cs:861-890 | the grid becomes the resized grid, with the size read back from it, or the resize error leaves it unchanged |
| Warehouse.LevelData.CondenseFront | Sokoban.UnityClient/Assets/Scripts/Behaviors/Managers/WarehouseManager.cs:398-421 | keeps the grounds and tightens the first column and row of an occupied grid |
| Warehouse.LevelData.CondenseBack | Sokoban.UnityClient/Assets/Scripts/Behaviors/Managers/WarehouseManager.cs:423-446 | keeps the grounds and leaves the grid tight on every side |
| Warehouse.LevelData.GrowGrounds | Sokoban.UnityClient/Assets/Scripts/Behaviors/Managers/WarehouseManager.cs:852-859 | the grid is padded so that the requested cell is inside it, or an empty grid reports the error |
| Warehouse.LevelData.ValidateIndicies | Sokoban.UnityClient/Assets/Scripts/Behaviors/Managers/WarehouseManager.cs:899-902 | every ground takes its position as its index and reparents its occupants; no item's motion changes |
| Warehouse.LevelData.ValidateBuildItems | Sokoban.UnityClient/Assets/Scripts/Behaviors/Managers/WarehouseManager.cs:904-928 | the build requests and the active items are rebuilt from the grid in column-major order |
| Warehouse.LevelData.ValidateActiveItems | Sokoban.UnityClient/Assets/Scripts/Behaviors/Managers/WarehouseManager.cs:930-952 | a removed occupant's request and item are dropped from the lists; without an occupant the active items are rebuilt |
| Warehouse.MaxOf | Sokoban.UnityClient/Assets/Scripts/Behaviors/Managers/WarehouseManager.cs:234-267 | the largest element, which occurs in the sequence |
| Warehouse.InferredSizeCovers | Sokoban.UnityClient/Assets/Scripts/Behaviors/Managers/WarehouseManager.cs:234-267 | a level stored as 0 by 0 gets a size that holds every listed missing ground and build request |
| Warehouse.Blank | Sokoban.UnityClient/Assets/Scripts/Behaviors/Managers/WarehouseManager.cs:234-267 | a grid of the given size whose cells are all empty |
| Warehouse.WarehouseManager.constructor | Sokoban.UnityClient/Assets/Scripts/Behaviors/Managers/WarehouseManager.cs:159-179 | a manager over the level's data, with no grounds, no items and no gameplay listener |
| Warehouse.WarehouseManager.Attach | Sokoban.UnityClient/Assets/Scripts/Behaviors/Managers/GameplayManager.cs:313-317 | the gameplay manager starts listening, and nothing else changes |
| Warehouse.WarehouseManager.GetGround | Sokoban.UnityClient/Assets/Scripts/Behaviors/Managers/WarehouseManager.cs:548-552 | a ground exactly where the grid holds one; in an indexed grid that ground carries the position |
| Warehouse.WarehouseManager.OccupantAgrees | Sokoban.UnityClient/Assets/Scripts/Behaviors/Managers/WarehouseManager.cs:209-227 | the object query and the board query agree on whether an occupant read fails and on what it finds |
| Warehouse.WarehouseManager.InboundAgrees | Sokoban.UnityClient/Assets/Scripts/Behaviors/Managers/WarehouseManager.cs:229-232 | the object query and the board query find the same inbound item |
| Warehouse.WarehouseManager.WinIffEveryMarkerCovered | Sokoban.UnityClient/Assets/Scripts/Behaviors/Managers/WarehouseManager.cs:98-131 | the level is won exactly when every ground showing a marker holds a box of that colour |
| Warehouse.WarehouseManager.OnOccupantAdded | Sokoban.UnityClient/Assets/Scripts/Behaviors/Managers/WarehouseManager.cs:379-382 | the build requests and the active items are rebuilt from the grid |
| Warehouse.WarehouseManager.OnOccupantRemoved | Sokoban.UnityClient/Assets/Scripts/Behaviors/Managers/WarehouseManager.cs:370-377 | a departed occupant leaves the active items and the build requests |
| Warehouse.WarehouseManager.Validate | Sokoban.UnityClient/Assets/Scripts/Behaviors/Managers/WarehouseManager.cs:892-896 | indices first, then the lists: the warehouse becomes valid and the grid is unchanged |
| Warehouse.WarehouseManager.Reindex | Sokoban.UnityClient/Assets/Scripts/Behaviors/Managers/WarehouseManager.cs:899-902 | every ground of a consistent warehouse takes its position as its index |
| Warehouse.WarehouseManager.PlaceItem | Sokoban.UnityClient/Assets/Scripts/Behaviors/Managers/WarehouseManager.cs:181-197 | the item is placed exactly where there is ground, becomes its occupant, and the old occupant is removed |
| Warehouse.WarehouseManager.BuildItem | Sokoban.UnityClient/Assets/Scripts/Behaviors/Managers/WarehouseManager.cs:461-505 | an item is built exactly on ground that is free or may be cleared, from a request naming a known kind; it is a new item of that kind and origin |
| Warehouse.WarehouseManager.Enlist | Sokoban.UnityClient/Assets/Scripts/Behaviors/Managers/WarehouseManager.cs:468-494 | a new idle, unplaced item of the kind joins the manager |
| Warehouse.WarehouseManager.BuildItems | Sokoban.UnityClient/Assets/Scripts/Behaviors/Managers/WarehouseManager.cs:449-459 | keeps the grid and every item, and each new item comes from a stored build request |
| Warehouse.WarehouseManager.BuildGrounds | Sokoban.UnityClient/Assets/Scripts/Behaviors/Managers/WarehouseManager.cs:234-267 | the grid is laid at the stored or inferred size with a new empty ground on every cell not listed as missing; a negative column count fails with the grid kept, and a negative row count with positive columns fails after the grid has become that many columns without cells |
| Warehouse.WarehouseManager.RecountHoles | Sokoban.UnityClient/Assets/Scripts/Behaviors/Managers/WarehouseManager.cs:269-272 | the missing ground becomes exactly the empty cells and nothing else changes |
| Warehouse.WarehouseManager.PutGround | Sokoban.UnityClient/Assets/Scripts/Behaviors/Managers/WarehouseManager.cs:286-300 | a new empty ground with the cell's index fills the cell |
| Warehouse.WarehouseManager.LayGrounds | Sokoban.UnityClient/Assets/Scripts/Behaviors/Managers/WarehouseManager.cs:254-266 | every cell of the grid not listed as missing gets a new empty ground, and the missing list is exactly the empty cells |
| Warehouse.WarehouseManager.LayBlank | Sokoban.UnityClient/Assets/Scripts/Behaviors/Managers/WarehouseManager.cs:254 | the grid is replaced by an empty grid of the size |
| Warehouse.WarehouseManager.LayColumn | Sokoban.UnityClient/Assets/Scripts/Behaviors/Managers/WarehouseManager.cs:257-264 | every cell of one column not listed as missing gets a new empty ground |
| Warehouse.WarehouseManager.Regrow | Sokoban.UnityClient/Assets/Scripts/Behaviors/Managers/WarehouseManager.cs:278-284 | the grid grows to hold the cell, or an empty grid reports the error unchanged |
| Warehouse.WarehouseManager.AddGround | Sokoban.UnityClient/Assets/Scripts/Behaviors/Managers/WarehouseManager.cs:274-306 | fails exactly when a needed resize has no column or the cell is outside without resizing; otherwise a new ground fills the (grown) cell |
| Warehouse.WarehouseManager.Install | Sokoban.UnityClient/Assets/Scripts/Behaviors/Managers/WarehouseManager.cs:286-305 | a new ground fills the cell and the holes are recounted on request |
| Warehouse.WarehouseManager.RemoveGround | Sokoban.UnityClient/Assets/Scripts/Behaviors/Managers/WarehouseManager.cs:384-394 | null changes nothing; a ground without an index or outside the grid is an error; otherwise that cell is emptied, the grid condensed and the holes recounted |
| Warehouse.WarehouseManager.Unset | Sokoban.UnityClient/Assets/Scripts/Behaviors/Managers/WarehouseManager.cs:384-394 | the ground is removed and its cell emptied |
| Warehouse.WarehouseManager.CondenseGrounds | Sokoban.UnityClient/Assets/Scripts/Behaviors/Managers/WarehouseManager.cs:396-447 | fails exactly on an empty grid; otherwise keeps every ground and leaves the grid tight on every side |
| Warehouse.WarehouseManager.TrimFront | Sokoban.UnityClient/Assets/Scripts/Behaviors/Managers/WarehouseManager.cs:398-421 | keeps the grounds and tightens the first column and row |
| Warehouse.WarehouseManager.TrimBack | Sokoban.UnityClient/Assets/Scripts/Behaviors/Managers/WarehouseManager.cs:423-446 | keeps the grounds and tightens the last column and row |
| Warehouse.FirstHeadedForAgrees | Sokoban.UnityClient/Assets/Scripts/Behaviors/Managers/WarehouseManager.cs:229-232 | the first item headed for a cell is the one the traversal rule's list finds |
| Warehouse.GameplayManager.constructor | Sokoban.UnityClient/Assets/Scripts/Behaviors/Managers/GameplayManager.cs:111-113 | the handlers act on the warehouse and its player |
| Warehouse.GameplayManager.SelectionExact | Sokoban.UnityClient/Assets/Scripts/Behaviors/Managers/GameplayManager.cs:263-311 | a ground is a valid selection exactly when it is one step from the player's current or queued position, no item is headed there, and it is traversable |
| Warehouse.GameplayManager.OnItemSelected | Sokoban.UnityClient/Assets/Scripts/Behaviors/Managers/GameplayManager.cs:263-311 | a valid selection becomes the player's destination, or its queued destination while it moves; anything else leaves the player unchanged |
| Warehouse.GameplayManager.OnStartDestination | Sokoban.UnityClient/Assets/Scripts/Behaviors/Managers/GameplayManager.cs:431-438 | an active occupant of the target is sent one step on in the same direction; a marker is left alone |
| Warehouse.GameplayManager.OnItemArriveDestination | Sokoban.UnityClient/Assets/Scripts/Behaviors/Managers/GameplayManager.cs:319-360 | the arriving item becomes the destination's occupant and takes its index |
| Warehouse.GameplayManager.OnBoxArrived | Sokoban.UnityClient/Assets/Scripts/Behaviors/Managers/GameplayManager.cs:323-358 | a blue box that can go on is queued one step further; a box on its marker starts the animation, and a win stops the game; any other box stops the animation |
| Warehouse.GameplayManager.ApplyArrival | Sokoban.UnityClient/Assets/Scripts/Behaviors/Managers/GameplayManager.cs:362-429 | carries out a decided arrival: queue, animation flag, and the stop on a win |
| LevelList.GroupKeyIsChunk | Sokoban.UnityClient/Assets/Scripts/Behaviors/Managers/LevelListManager.cs:113-121 | the source's truncating division puts two levels on one page exactly when their indices fall in the same chunk of the page size, also for a negative size |
| LevelList.PaginateShape | Sokoban.UnityClient/Assets/Scripts/Behaviors/Managers/LevelListManager.cs:113-121 | no page is empty or larger than the page size, and every page but the last is full |
| LevelList.PaginatePlaces | Sokoban.UnityClient/Assets/Scripts/Behaviors/Managers/LevelListManager.cs:113-121 | level p * size + k lands on page p at place k |
| LevelList.PaginateEntry | Sokoban.UnityClient/Assets/Scripts/Behaviors/Managers/LevelListManager.cs:113-121 | place k of page p holds level p * size + k |
| LevelList.MetaForPath | Sokoban.UnityClient/Assets/Scripts/Behaviors/Managers/LevelListManager.cs:104-124 | the first stored meta record for the path, or a new one for that path |
| LevelList.MetasFor | Sokoban.UnityClient/Assets/Scripts/Behaviors/Managers/LevelListManager.cs:104-124 | one meta record for each listed path, in order |
| LevelList.MetasForDistinct | Sokoban.UnityClient/Assets/Scripts/Behaviors/Managers/LevelListManager.cs:104-124 | distinct paths give distinct meta records |
| LevelList.PagedIndexFrom | Sokoban.UnityClient/Assets/Scripts/Behaviors/Managers/LevelListManager.cs:295-308 | the first page and place holding the entry; none exactly when no page holds it |
| LevelList.Playable | Sokoban.UnityClient/Assets/Scripts/Behaviors/Managers/LevelListManager.cs:281-293 | fails exactly for an unlisted level |
| LevelList.PlayableIffPreviousCompleted | Sokoban.UnityClient/Assets/Scripts/Behaviors/Managers/LevelListManager.cs:281-293 | a listed level is playable exactly when it is the first or the level before it is completed, across page boundaries |
| LevelList.LocateInPages | Sokoban.UnityClient/Assets/Scripts/Behaviors/Managers/LevelListManager.cs:295-308 | level k of a paged list without repeats is found at page p and place i with p * size + i = k |
| LevelList.ButtonCellFillsRows | Sokoban.UnityClient/Assets/Scripts/Behaviors/Managers/LevelListManager.cs:222-223 | button i sits in a column within the row, and row * perRow + column = i, so no two buttons share a cell |
| LevelList.LevelListManager.constructor | Sokoban.UnityClient/Assets/Scripts/Behaviors/Managers/LevelListManager.cs:37-41 | starts on the first category with no pages and page 0 |
| LevelList.LevelListManager.BuildPages | Sokoban.UnityClient/Assets/Scripts/Behaviors/Managers/LevelListManager.cs:104-124 | a new category is paged from the listing; a zero page size is an error; a known category keeps its pages; the active pages are the category's |
| LevelList.LevelListManager.GetPagedIndex | Sokoban.UnityClient/Assets/Scripts/Behaviors/Managers/LevelListManager.cs:295-308 | the page and place of the entry, or an error when no page holds it |
| LevelList.LevelListManager.IsPlayableLevel | Sokoban.UnityClient/Assets/Scripts/Behaviors/Managers/LevelListManager.cs:281-293 | the result of the unlock rule on the active pages |
| LevelList.LevelListManager.ListButtons | Sokoban.UnityClient/Assets/Scripts/Behaviors/Managers/LevelListManager.cs:158-228 | one button per level of the page, up to the page size, each showing its number in the category, playability, purchase, completion and cell |
| LevelList.PlayableOnPages | Sokoban.UnityClient/Assets/Scripts/Behaviors/Managers/LevelListManager.cs:281-293 | on pages none of which is empty, the unlock rule never fails for an entry on a page |
| LevelList.LevelListManager.ListPage | Sokoban.UnityClient/Assets/Scripts/Behaviors/Managers/LevelListManager.cs:146-251 | the current index becomes the page number minus one; with no levels per page nothing is listed, whatever the page; otherwise a missing page is an error, and an existing one gives its buttons, leaving the pages unchanged |
| LevelList.PurchaseRule | Sokoban.UnityClient/Assets/Scripts/Behaviors/Managers/LevelListManager.cs:253-262 | without a purchase manager nothing is purchased; outside the first pak a level with a file name is purchased; inside it, purchased exactly when the pak is granted |
| Locale.GetLocalePath | Sokoban.UnityClient/Assets/Scripts/Text/LocaleLookup.cs:24-31 | a path exactly for the supported languages |
| Locale.LocalePathsDistinct | Sokoban.UnityClient/Assets/Scripts/Text/LocaleLookup.cs:9-31 | different supported languages have different paths |
| Locale.LocalePathsAreJson | Sokoban.UnityClient/Assets/Scripts/Text/LocaleLookup.cs:24-31 | every locale path ends in ".json" |
| Locale.NamesParse | Sokoban.UnityClient/Assets/Scripts/Types/LocaleTextType.cs:5-38 | every text type's name parses back to the type |
| Locale.NameParses | Sokoban.UnityClient/Assets/Scripts/Types/LocaleTextType.cs:5-38 | one text type's name parses back to the type |
| Locale.FirstRowFor | Sokoban.UnityClient/Assets/Scripts/Text/LocaleLookup.cs:57-79 | the first row whose key parses to the type, or -1 when none does |
| Locale.Table | Sokoban.UnityClient/Assets/Scripts/Text/LocaleLookup.cs:57-79 | a type has an entry exactly when some row names it, and its value is that first row's value |
| Locale.TableAppend | Sokoban.UnityClient/Assets/Scripts/Text/LocaleLookup.cs:57-79 | a further row adds its key only when the key is new, and never overrides an earlier row |
| Locale.FirstRowAppend | Sokoban.UnityClient/Assets/Scripts/Text/LocaleLookup.cs:57-79 | a further row is the first for a key only when no earlier row has that key |
| Locale.TableEmptyIff | Sokoban.UnityClient/Assets/Scripts/Text/LocaleLookup.cs:57-79 | the table has items exactly when some row has a key that parses |
| Locale.StringView | Sokoban.UnityClient/Assets/Scripts/Text/LocaleLookup.cs:41-55 | the string-keyed table holds each type's value under its name, and only those names |
| Locale.LocaleLookup.constructor | Sokoban.UnityClient/Assets/Scripts/Text/LocaleLookup.cs:57-79 | the table is built from the rows, or empty without a file, with no string cache yet |
| Locale.LocaleLookup.StringLookup | Sokoban.UnityClient/Assets/Scripts/Text/LocaleLookup.cs:86-89 | a name of a text type reads that type's value or the default; any other string gives the default; the string cache is built |
| Locale.LookupReadsFirstRow | Sokoban.UnityClient/Assets/Scripts/Text/LocaleLookup.cs:81-84 | a lookup reads the first row for the type, or the default when no row names it |

## Left out

- Rendering, sprites, particles, audio, tweening and positions in world units are not modelled. They are presentation only.
- Frame timing, velocities and `Time.deltaTime` are not modelled. Whether an item reaches its destination this frame is a boolean parameter of `Update`, and whether the animation frame time has elapsed is a parameter of `Animate`.
- `MoveToDestination` is not modelled beyond that boolean. Its float arithmetic only moves the sprite.
- Floor generation and placement scoring (`GenerateFloor`, `PlacementScore`) are not modelled. They only decorate the scene.
- File I/O, JSON (de)serialisation, the network and `FileManager` are left out. The level file listing, the stored meta records and the loaded level are parameters.
- The store SDK is a `Store` parameter: whether the store is initialised, and whether it reports a receipt for a key. Purchasing itself is left out.
- UI widgets, `ChangeCategory`, the pager, selection highlighting and the prefab instantiation of buttons are left out. The prefab list is a count.
- `Recalculate` is left out. Its layout is float arithmetic, and its one discrete result is modelled as a constant: one level per column.
- Sorting of the level listing by culture order is left out. The listing is a parameter that arrives already sorted.
- `Enum.TryParse` accepts numeric and padded forms that are not modelled. Only exact member names parse.
- The asynchronous locale manager is left out. The `async void` handlers are modelled as direct calls that end where the source would throw.
- GUIDs are a fresh-identifier parameter. Clocks are a `timeMs` value held by the warehouse.
- Unity events are direct calls to the listening manager.
- `LevelMetaData` reference equality is modelled as value equality. Two stored records with the same fields are the same record.
- The `HashSet` of local grants is a set. The callback queue is a sequence.
- CategoryType.cs is not part of this model. The categories are assumed to be Easy, Medium and Hard, in that order.
- Exceptions are modelled as `Err` results, or as the `Threw` step of `Update`, except for the cases named below where the model does nothing instead.
- Warehouse.WarehouseManager.BuildGrounds: a negative size is reported as `NegativeSize` where the source throws. With a negative row count and a positive column count the source has already replaced the grid by that many unallocated columns before the inner allocation throws. The model gives them as columns without cells: a later access to one finds no cell, where the source throws.
- Warehouse.Item.StartDestination: with the destination indexed and the item's own index unset, the source throws (BaseItem.cs:256) and the model does nothing. `Begin` reports this case as `Threw`, but a queued destination started after an arrival (`Dequeue`) goes on without the throw. It does not arise in play: an item takes its index from the ground it is placed on, and every ground of the grid carries its position.
- Warehouse.GameplayManager.OnStartDestination: an active occupant without an index makes the source throw (GameplayManager.cs:435); the model leaves that occupant's destination alone. Occupants take their index from the ground they sit on, so this does not arise in play.
- Warehouse.LevelData.constructor: the missing ground is a sequence in stored order, not a `HashSet`, and duplicates are not excluded. The stored order is what the level comparer in Findings reads.
- LevelList.LevelListManager.ListButtons: an error from `IsPlayableLevel` shows the level as locked, where the source throws. On pages made by `Paginate` no page is empty, so by `PlayableOnPages` the error does not arise.
- Warehouse.KindOf: an item type other than the player's is not built. The source instantiates whatever type the request names through reflection, which the model does not have.
- Warehouse.WarehouseManager.BuildItems: does not state which requests get placed. It states only that every new item comes from a stored request and that the grid is kept.
- Warehouse.WarehouseManager.RemoveGround: does not state that the removed ground is flagged as removed. `Unset`, which it calls, states that.
- Warehouse.GameplayManager.OnItemArriveDestination: states the placement only. What happens to a box is stated by `OnBoxArrived`, which it calls.
- Warehouse.Item.Update: for a move and an arrival it states the item's resulting motion, not the full state of every other item the arrival handler touches. For an item that starts moving in the same frame, the outcome of the traversal test is not tied to the starting state, because the test then reads the board with the item already moving. An arrival that starts a queued destination while the item's own index is unset, or that sends on an occupant without an index, goes on where the source throws (see the `StartDestination` and `OnStartDestination` lines).
- GameContext.ContextData.SetActiveData: decides whether to rotate the GUID with the corrected comparer `DataEquals`, not with the comparer as written (see Findings). The two differ only for a level with the same identifier and content whose new missing-ground list is stored out of order: the source then rotates the GUID and takes the stored meta record, the model keeps both.
- GameContext.ContextData.MoveNext: returns the corrected result `Progressed`, true when a different level was chosen. The source returns `levelPath.Equals(currentPath)`, its negation (see Findings). The source's only caller ignores the result.
- StringExtensions.ToLower: lower-cases only the ASCII letters A to Z. C#'s `ToLower` follows the current culture and the whole of Unicode.
- Warehouse.GameplayManager.OnBoxArrived: the win handler's other effects (saving progress, statistics, the win screen) are left out. Only its stop of the running flag is modelled.

## Findings

| source | as written | input that shows it | evidently intended | confidence | as-written member | corrected member |
|---|---|---|---|---|---|---|
| Sokoban.UnityClient/Assets/Scripts/Behaviors/Managers/WarehouseManager.cs:988-990 | the level comparer sorts only the first level's missing ground before comparing it with the second level's list as stored | a level whose missing ground is stored as [(1,0), (0,0)] compared with itself is reported unequal | both lists are sorted, so that the comparer is an equivalence | not executed | LevelRecords.AsWrittenNotReflexive | LevelRecords.DataEqualsIsEquivalence |
| Sokoban.UnityClient/Assets/Scripts/GameContext.cs:193-194 | `MoveNext` returns whether the chosen path equals the current one | on the last level of the last category nothing changes, yet the result is true; on any real progression it is false | the result reports whether a different level was chosen | not executed | GameContext.ReportInvertedOnLastLevel | GameContext.ProgressedUnlessStuck |
