/** The kinds of warehouse item and their capability table (Box.cs, Marker.cs,
    Player.cs and the defaults of BaseItem.cs). */
module Kinds {
  import opened Wrappers
  import opened MovementTypes

  /** Maximum width or height of any warehouse (WarehouseManager.MaxSize). */
  const MaxSize: int := 10

  datatype BoxType = Blue | Brown | Gray | Green | Red

  /** The colour a freshly created Box or Marker carries. */
  const DefaultBoxType: BoxType := Brown

  /** A gameplay item: the player, a box of a colour, or a marker of a colour. */
  datatype Kind = Player | Box(boxType: BoxType) | Marker(markerType: BoxType)

  /** Red and gray boxes never move; everything else keeps the default `true`. */
  predicate IsPushable(k: Kind)
  {
    match k
    case Box(t) => t != Red && t != Gray
    case _ => true
  }

  /** How many further cells an item can push: the player one, a blue box
      `MaxSize`, everything else zero. */
  function PushStrength(k: Kind): int
  {
    match k
    case Player => 1
    case Box(t) => if t == Blue then MaxSize else 0
    case Marker(_) => 0
  }

  /** Only markers stay underneath other items. */
  predicate IsPassiveOccupant(k: Kind)
  {
    k.Marker?
  }

  function SortAdjustment(k: Kind): int
  {
    if k.Marker? then -1 else 0
  }

  /** The drawing order of an item: lower rows are drawn in front; a missing
      index counts as row -1. */
  function ZSort(k: Kind, index: Option<Vec>): (z: int)
    ensures index.Some? && k.Marker? ==> z == (MaxSize - index.value.y) * 100 - 1
    ensures index.Some? && !k.Marker? ==> z == (MaxSize - index.value.y) * 100
    ensures index.None? ==> z == (MaxSize + 1) * 100 + SortAdjustment(k)
  {
    var y := if index.Some? then index.value.y else -1;
    (MaxSize - y) * 100 + SortAdjustment(k)
  }

  /** Push strengths are never negative, and only a blue box exceeds the player's. */
  lemma StrengthTable(k: Kind)
    ensures 0 <= PushStrength(k) <= MaxSize
    ensures PushStrength(k) > 1 <==> k == Box(Blue)
    ensures k.Box? && k.boxType != Blue ==> PushStrength(k) == 0
  {
  }

  /** Passive occupants are exactly the markers; boxes and the player never are. */
  lemma OnlyMarkersArePassive(k: Kind)
    ensures IsPassiveOccupant(k) <==> k.Marker?
    ensures k.Marker? ==> IsPushable(k) && PushStrength(k) == 0
  {
  }

  /** A marker is drawn exactly one step behind a box or the player on its row,
      and an item on a lower row is always drawn in front of one on a higher row. */
  lemma ZSortOrder(k1: Kind, k2: Kind, v1: Vec, v2: Vec)
    ensures v1.y == v2.y && k1.Marker? && !k2.Marker? ==> ZSort(k1, Some(v1)) == ZSort(k2, Some(v2)) - 1
    ensures v1.y < v2.y ==> ZSort(k1, Some(v1)) > ZSort(k2, Some(v2))
  {
  }
}
