/** The live warehouse: the items on the board (`BaseItem` with the `Player`
    extras), the ground cells (`Ground`), the level's runtime data
    (`WarehouseManager.Data`), the manager that builds and queries the grid
    (`WarehouseManager`) and the gameplay handlers that react to items starting
    and finishing a move (`GameplayManager`).

    Unity events are direct calls: an item's start and arrive events go to the
    gameplay manager when there is one, and a ground's occupant events go to
    the warehouse manager's data unless the ground has been removed (removing
    a ground drops its listeners). The ground's events are also appended to
    its `events` log. */
module Warehouse {
  import opened Wrappers
  import opened MovementTypes
  import opened Kinds
  import Traversal
  import opened LevelRecords
  import opened GameContext
  import opened GridLayout
  import Occupancy
  import opened EnumerableExtensions

  /** The length of each of the player's walking animation series. */
  const SeriesLength: int := 3

  /** What `Update` did in one frame. `Threw` stands for the exceptions a
      moving item with a lost destination or direction raises, and for the
      one an idle item without an index raises when its destination has one. */
  datatype Step = Paused | Idle | Cancelled | Moved | Arrived | Threw

  /** An occupant event of a ground, in the order they fired. */
  datatype OccupantEvent = Added(item: Item) | Removed(item: Item)

  /** `BaseItem.Distance`: the index difference, when both indices are set
      (the source throws otherwise). */
  function Distance(from: Option<Vec>, to: Option<Vec>): (d: Option<Vec>)
    ensures d.Some? <==> from.Some? && to.Some?
    ensures d.Some? ==> to.value.Plus(d.value) == from.value
  {
    if from.Some? && to.Some? then Some(from.value.Minus(to.value)) else None
  }

  /** The item a build request creates (`WarehouseManager.BuildItem`): a box
      when it names a box colour, else a marker when it names a marker colour,
      else the item type it names. Only the player is a named item type here. */
  function KindOf(request: BuildItemRequest): (k: Option<Kind>)
    ensures request.boxType.Some? ==> k == Some(Box(request.boxType.value))
    ensures request.boxType.None? && request.markerType.Some? ==> k == Some(Marker(request.markerType.value))
    ensures k.Some? && k.value.Player? <==> request.boxType.None? && request.markerType.None? && request.itemType == Some("Player")
  {
    if request.boxType.Some? then Some(Box(request.boxType.value))
    else if request.markerType.Some? then Some(Marker(request.markerType.value))
    else if request.itemType == Some("Player") then Some(Player)
    else None
  }

  /** A gameplay item (`BaseItem`, with the fields `Player` adds). */
  class Item {
    const kind: Kind
    /** The build request the item came from (`origin`). */
    const origin: BuildItemRequest
    var index: Option<Vec>
    var parent: Ground?
    var isMoving: bool
    var movementDirection: Option<MovementType>
    var destination: Ground?
    var destinationQueue: Ground?
    var removed: bool
    /** `Box.StartMarkerAnimation` / `StopMarkerAnimation`. */
    var markerAnimation: bool
    var lastMovementDirection: Option<MovementType>
    /** `frameResetStep > 0`: the player returns to its standing frame. */
    var frameResetPending: bool
    var animateIndex: int

    constructor (kind: Kind, origin: BuildItemRequest)
      ensures this.kind == kind && this.origin == origin
      ensures index.None? && parent == null && !isMoving && movementDirection.None?
      ensures destination == null && destinationQueue == null && !removed && !markerAnimation
      ensures lastMovementDirection.None? && !frameResetPending && animateIndex == SeriesLength - 1
    {
      this.kind := kind;
      this.origin := origin;
      index := None;
      parent := null;
      isMoving := false;
      movementDirection := None;
      destination := null;
      destinationQueue := null;
      removed := false;
      markerAnimation := false;
      lastMovementDirection := None;
      frameResetPending := false;
      animateIndex := SeriesLength - 1;
    }

    /** `AsBuildItem`: the origin request with its column and row taken from
        the current index, or -1 for an unset index. The source writes them
        into the shared origin object; here they are read off the item. */
    function AsBuildItem(): (r: BuildItemRequest)
      reads this
      ensures r.id == origin.id && r.boxType == origin.boxType && r.markerType == origin.markerType
      ensures r.itemType == origin.itemType
      ensures index.Some? ==> r.Position() == (index.value.x, index.value.y)
      ensures index.None? ==> r.Position() == (-1, -1)
    {
      origin.(column := if index.Some? then index.value.x else -1,
              row := if index.Some? then index.value.y else -1)
    }

    /** `SetParent`: a non-null parent also gives the item its index. */
    method SetParent(ground: Ground?)
      modifies this
      ensures parent == ground
      ensures ground != null ==> index == ground.index
      ensures ground == null ==> index == old(index)
      ensures isMoving == old(isMoving) && movementDirection == old(movementDirection)
      ensures destination == old(destination) && destinationQueue == old(destinationQueue)
      ensures removed == old(removed) && markerAnimation == old(markerAnimation)
      ensures lastMovementDirection == old(lastMovementDirection) && frameResetPending == old(frameResetPending)
      ensures animateIndex == old(animateIndex)
    {
      parent := ground;
      if ground != null {
        index := ground.index;
      }
    }

    /** `Remove`: detach from the parent and leave the game. */
    method Remove()
      modifies this
      ensures parent == null && removed
      ensures index == old(index) && isMoving == old(isMoving) && movementDirection == old(movementDirection)
      ensures destination == old(destination) && destinationQueue == old(destinationQueue)
      ensures markerAnimation == old(markerAnimation) && lastMovementDirection == old(lastMovementDirection)
      ensures frameResetPending == old(frameResetPending) && animateIndex == old(animateIndex)
    {
      parent := null;
      removed := true;
    }

    /** `CancelDestination`: the move, its direction, the destination and the
        queued destination are all dropped together. */
    method CancelDestination()
      modifies this
      ensures !isMoving && movementDirection.None? && destination == null && destinationQueue == null
      ensures index == old(index) && parent == old(parent) && removed == old(removed)
      ensures markerAnimation == old(markerAnimation) && lastMovementDirection == old(lastMovementDirection)
      ensures frameResetPending == old(frameResetPending) && animateIndex == old(animateIndex)
    {
      movementDirection := None;
      isMoving := false;
      destination := null;
      destinationQueue := null;
    }

    /** `Player.Animate` when `elapsed` (the frame time passed one animation
        step): the next frame of the series, wrapping to 0. */
    method Animate(elapsed: bool)
      requires 0 <= animateIndex < SeriesLength
      modifies this
      ensures 0 <= animateIndex < SeriesLength
      ensures movementDirection.Some? && elapsed ==> animateIndex == (old(animateIndex) + 1) % SeriesLength
      ensures movementDirection.None? || !elapsed ==> animateIndex == old(animateIndex)
      ensures index == old(index) && parent == old(parent) && isMoving == old(isMoving)
      ensures movementDirection == old(movementDirection) && destination == old(destination)
      ensures destinationQueue == old(destinationQueue) && removed == old(removed)
      ensures markerAnimation == old(markerAnimation) && lastMovementDirection == old(lastMovementDirection)
      ensures frameResetPending == old(frameResetPending)
    {
      if movementDirection.None? || !elapsed {
        return;
      }
      animateIndex := animateIndex + 1;
      if animateIndex >= SeriesLength {
        animateIndex := 0;
      }
    }

    /** `StartDestination`: begin moving when the destination is one step
        away along an axis, and tell the gameplay manager, which may send the
        destination's occupant on in the same direction. Otherwise nothing
        changes. The source throws when either index is unset; the model
        then does nothing here, and `Begin` reports the case of its caller
        in `Update` as `Threw`. */
    method StartDestination(wm: WarehouseManager)
      requires wm.Valid() && this in wm.Items && destination != null
      modifies this, destination.occupant
      ensures wm.Valid()
      ensures var d := StartDirection(old(destination), old(index));
        && (d.Some? ==> isMoving && movementDirection == d)
        && (d.None? ==> isMoving == old(isMoving) && movementDirection == old(movementDirection))
      ensures SamePlace(this) && destinationQueue == old(destinationQueue) && StillBut(wm, this)
      ensures var o := old(destination.occupant);
        o != null && o != this ==>
          (SamePlace(o) && o.isMoving == old(o.isMoving)
           && o.movementDirection == old(o.movementDirection) && o.destinationQueue == old(o.destinationQueue))
      ensures var o := old(destination.occupant); var d := StartDirection(old(destination), old(index));
        (o != null && d.Some? && wm.gameplay != null && !IsPassiveOccupant(o.kind) && old(o.index).Some?) ==>
          o.destination == wm.GetGround(Some(old(o.index).value.Plus(Vector(d.value))))
      ensures var o := old(destination.occupant); var d := StartDirection(old(destination), old(index));
        !(o != null && d.Some? && wm.gameplay != null && !IsPassiveOccupant(o.kind) && old(o.index).Some?) ==>
          (destination == old(destination) && (o != null ==> o.destination == old(o.destination)))
      ensures old(destination.occupant) != this ==> destination == old(destination)
      ensures StartDirection(old(destination), old(index)).None? ==> unchanged(wm.Items)
    {
      var direction := StartDirection(destination, index);
      if direction.Some? {
        Launch(wm, direction.value);
        if wm.gameplay != null {
          wm.gameplay.OnStartDestination(destination, this, direction.value);
        }
      }
    }

    /** The move starts in direction `d`; nothing else about the item changes. */
    method Launch(wm: WarehouseManager, d: MovementType)
      requires wm.Valid() && this in wm.Items
      modifies this
      ensures wm.Valid()
      ensures isMoving && movementDirection == Some(d)
      ensures SamePlace(this) && destination == old(destination) && destinationQueue == old(destinationQueue)
      ensures StillBut(wm, this)
    {
      isMoving := true;
      movementDirection := Some(d);
    }

    /** The arrival handler sets the queued destination and the marker
        animation of a box, and nothing else. */
    method Flag(wm: WarehouseManager, queue: Ground?, animate: bool)
      requires wm.Valid() && this in wm.Items && (queue != null ==> queue in wm.Grounds)
      modifies this
      ensures wm.Valid() && Unwound(wm) && OnlyFlags(this)
      ensures destinationQueue == queue && markerAnimation == animate
    {
      destinationQueue, markerAnimation := queue, animate;
    }

    /** `ArriveDestination` (with `Player`'s override around it): the player
        logs one step in its current direction first; the move ends and the
        destination is cleared before the gameplay manager hears of the
        arrival, with the direction still set; then the direction is cleared
        and a queued destination becomes the next move. A player with no
        destination left schedules its standing frame. */
    method ArriveDestination(wm: WarehouseManager)
      requires wm.Valid() && this in wm.Items && isMoving
      modifies wm.data, wm.Grounds, wm.Items, wm.context, wm.context.data
      ensures wm.Valid() && Unwound(wm)
      ensures destinationQueue == null
      ensures isMoving <==> movementDirection.Some?
      ensures kind == Player && old(movementDirection).Some? ==>
        |wm.context.data.history| > |old(wm.context.data.history)|
        && wm.context.data.history[|old(wm.context.data.history)|]
           == MovementHistory(old(movementDirection).value, wm.timeMs, Some(origin.id))
      ensures kind == Player ==> lastMovementDirection == old(movementDirection)
      ensures kind == Player && destination == null ==> frameResetPending
      decreases wm.Moving(), 0, 0
    {
      var arrivedAt := Depart(wm);
      if wm.gameplay != null {
        wm.gameplay.OnItemArriveDestination(arrivedAt, this);
      }
      Resume(wm);
    }

    /** The part of `ArriveDestination` before the arrival event: the player
        records its step, and the move ends with the destination cleared. */
    method Depart(wm: WarehouseManager) returns (arrivedAt: Ground?)
      requires wm.Valid() && this in wm.Items && isMoving
      modifies this, wm.context.data
      ensures wm.Valid() && Unwound(wm) && wm.Moving() < old(wm.Moving())
      ensures arrivedAt == old(destination) && !isMoving && destination == null
      ensures movementDirection == old(movementDirection) && destinationQueue == old(destinationQueue)
      ensures kind == Player ==> lastMovementDirection == old(movementDirection)
      ensures kind == Player && old(movementDirection).Some? ==>
        wm.context.data.history == old(wm.context.data.history)
                                   + [MovementHistory(old(movementDirection).value, wm.timeMs, Some(origin.id))]
    {
      if kind == Player {
        RecordStep(wm);
      }
      arrivedAt := Stop(wm);
    }

    /** The player remembers the step it is finishing and logs it. */
    method RecordStep(wm: WarehouseManager)
      requires wm.Valid() && this in wm.Items && isMoving && kind == Player
      modifies this, wm.context.data
      ensures wm.Valid() && Unwound(wm) && wm.Moving() == old(wm.Moving())
      ensures isMoving && destination == old(destination)
      ensures movementDirection == old(movementDirection) && destinationQueue == old(destinationQueue)
      ensures lastMovementDirection == old(movementDirection)
      ensures old(movementDirection).Some? ==>
        wm.context.data.history == old(wm.context.data.history)
                                   + [MovementHistory(old(movementDirection).value, wm.timeMs, Some(origin.id))]
    {
      lastMovementDirection := movementDirection;
      if movementDirection.Some? {
        wm.context.data.LogMovement(Some(origin), movementDirection.value, wm.timeMs);
      }
    }

    /** The move ends: the item stops and its destination is cleared. */
    method Stop(wm: WarehouseManager) returns (arrivedAt: Ground?)
      requires wm.Valid() && this in wm.Items && isMoving
      modifies this
      ensures wm.Valid() && Unwound(wm) && wm.Moving() < old(wm.Moving())
      ensures arrivedAt == old(destination) && !isMoving && destination == null
      ensures movementDirection == old(movementDirection) && destinationQueue == old(destinationQueue)
      ensures lastMovementDirection == old(lastMovementDirection)
    {
      ghost var before := wm.Moving();
      arrivedAt := destination;
      isMoving := false;
      destination := null;
      assert this in before && this !in wm.Moving();
    }

    /** The part of `ArriveDestination` after the arrival event: the
        direction is cleared and a queued destination becomes the next move;
        a player with no destination left schedules its standing frame. */
    method Resume(wm: WarehouseManager)
      requires wm.Valid() && this in wm.Items && !isMoving
      modifies this, if destinationQueue == null then {} else {destinationQueue.occupant}
      ensures wm.Valid()
      ensures destinationQueue == null && (isMoving <==> movementDirection.Some?)
      ensures old(destinationQueue) == null ==> !isMoving && destination == old(destination)
      ensures var q := old(destinationQueue); q != null && old(q.occupant) != this ==> destination == q
      ensures var d := old(StartDirection(destinationQueue, index));
        old(destinationQueue) != null && d.Some? ==> isMoving && movementDirection == d
      ensures kind == Player && destination == null ==> frameResetPending
      ensures lastMovementDirection == old(lastMovementDirection)
      ensures StillBut(wm, this)
    {
      movementDirection := None;
      if destinationQueue != null {
        Dequeue(wm);
      }
      if kind == Player && destination == null {
        frameResetPending := true;
      }
    }

    /** A new target: the destination of an idle item, the queued
        destination of a moving one. */
    method Retarget(wm: WarehouseManager, ground: Ground)
      requires wm.Valid() && this in wm.Items && ground in wm.Grounds
      modifies this
      ensures wm.Valid()
      ensures if old(isMoving) then destinationQueue == ground && destination == old(destination)
              else destination == ground && destinationQueue == old(destinationQueue)
      ensures SamePlace(this) && isMoving == old(isMoving) && movementDirection == old(movementDirection)
    {
      if isMoving {
        destinationQueue := ground;
      } else {
        destination := ground;
      }
    }

    /** A queued destination becomes the destination, and the next move
        starts towards it. */
    method Dequeue(wm: WarehouseManager)
      requires wm.Valid() && this in wm.Items && !isMoving && movementDirection.None? && destinationQueue != null
      modifies this, destinationQueue.occupant
      ensures wm.Valid() && StillBut(wm, this)
      ensures destinationQueue == null
      ensures var q := old(destinationQueue); old(q.occupant) != this ==> destination == q
      ensures var d := old(StartDirection(destinationQueue, index));
        && (d.Some? ==> isMoving && movementDirection == d)
        && (d.None? ==> !isMoving && movementDirection.None?)
      ensures lastMovementDirection == old(lastMovementDirection) && frameResetPending == old(frameResetPending)
    {
      destination := destinationQueue;
      destinationQueue := null;
      StartDestination(wm);
    }

    /** The decision part of `Update` for one frame. A paused game does
        nothing. An idle item whose destination is set and differs from its
        index starts moving. A moving item whose destination is no longer
        traversable is cancelled; otherwise it either arrives (`arrives`: the
        step this frame covers the remaining distance) or keeps moving. */
    method Update(wm: WarehouseManager, arrives: bool) returns (step: Step)
      requires wm.Valid() && this in wm.Items
      modifies wm.data, wm.Grounds, wm.Items, wm.context, wm.context.data
      ensures wm.Valid()
      ensures old(wm.context.isRunning) == false ==> step == Paused && unchanged(wm.Items) && unchanged(wm.Grounds)
      ensures var lost := old(destination != null && destination.index.Some? && index.None?);
        old(wm.context.isRunning) && !old(isMoving) && lost ==>
          step == Threw && unchanged(wm.Items) && unchanged(wm.Grounds)
      ensures var lost := old(destination != null && destination.index.Some? && index.None?);
        var starts := old(destination != null && destination.index.Some? && destination.index != index)
                      && old(StartDirection(destination, index)).Some?;
        old(wm.context.isRunning) && !old(isMoving) ==>
          && (!starts && !lost ==> step == Idle && unchanged(wm.Items) && unchanged(wm.Grounds))
          && (starts ==> step in {Threw, Cancelled, Moved, Arrived})
          && (starts && step == Moved ==> isMoving && movementDirection == old(StartDirection(destination, index)))
      ensures old(wm.context.isRunning && isMoving) ==>
        && (old(destination == null || destination.index.None? || movementDirection.None?) ==> step == Threw)
        && (old(destination != null && destination.index.Some? && movementDirection.Some?) ==>
              var t := old(wm.IsTraversable(destination.index.value, movementDirection.value, PushStrength(kind)));
              && (t.Err? ==> step == Threw)
              && (t == Ok(false) ==> step == Cancelled)
              && (t == Ok(true) && !arrives ==> step == Moved)
              && (t == Ok(true) && arrives ==> step == Arrived))
      ensures step == Cancelled ==> !isMoving && destination == null && destinationQueue == null && movementDirection.None?
      ensures step == Arrived ==> destinationQueue == null && (isMoving <==> movementDirection.Some?)
    {
      if !wm.context.isRunning {
        return Paused;
      }
      if isMoving {
        step := Advance(wm, arrives);
      } else {
        step := Begin(wm, arrives);
      }
    }

    /** `Update` for an idle item in a running game: a destination one step
        away starts the move, which then advances in the same frame;
        otherwise the item stays idle. An indexed destination with the
        item's own index unset throws in `StartDestination` before anything
        changes. */
    method Begin(wm: WarehouseManager, arrives: bool) returns (step: Step)
      requires wm.Valid() && this in wm.Items && !isMoving
      modifies wm.data, wm.Grounds, wm.Items, wm.context, wm.context.data
      ensures wm.Valid()
      ensures old(destination != null && destination.index.Some? && index.None?) ==>
        step == Threw && unchanged(wm.Items) && unchanged(wm.Grounds)
      ensures var lost := old(destination != null && destination.index.Some? && index.None?);
        var starts := old(destination != null && destination.index.Some? && destination.index != index)
                      && old(StartDirection(destination, index)).Some?;
        && (!starts && !lost ==> step == Idle && unchanged(wm.Items) && unchanged(wm.Grounds))
        && (starts ==> step in {Threw, Cancelled, Moved, Arrived})
        && (starts && step == Moved ==> isMoving && movementDirection == old(StartDirection(destination, index)))
      ensures step == Cancelled ==> !isMoving && destination == null && destinationQueue == null && movementDirection.None?
      ensures step == Arrived ==> destinationQueue == null && (isMoving <==> movementDirection.Some?)
    {
      if destination != null && destination.index.Some? && destination.index != index {
        if index.None? {
          return Threw;
        }
        StartDestination(wm);
      }
      if !isMoving {
        return Idle;
      }
      step := Advance(wm, arrives);
    }

    /** `Update` for a moving item: it is cancelled when its destination is
        no longer traversable, and otherwise arrives or keeps moving. A lost
        destination or direction throws. */
    method Advance(wm: WarehouseManager, arrives: bool) returns (step: Step)
      requires wm.Valid() && this in wm.Items && isMoving
      modifies wm.data, wm.Grounds, wm.Items, wm.context, wm.context.data
      ensures wm.Valid()
      ensures step in {Threw, Cancelled, Moved, Arrived}
      ensures old(destination == null || destination.index.None? || movementDirection.None?) ==> step == Threw
      ensures old(destination != null && destination.index.Some? && movementDirection.Some?) ==>
        var t := old(wm.IsTraversable(destination.index.value, movementDirection.value, PushStrength(kind)));
        && (t.Err? ==> step == Threw)
        && (t == Ok(false) ==> step == Cancelled)
        && (t == Ok(true) && !arrives ==> step == Moved)
        && (t == Ok(true) && arrives ==> step == Arrived)
      ensures step == Threw || step == Moved ==> unchanged(wm.Items) && unchanged(wm.Grounds)
      ensures step == Cancelled ==> !isMoving && destination == null && destinationQueue == null && movementDirection.None?
      ensures step == Arrived ==> destinationQueue == null && (isMoving <==> movementDirection.Some?)
    {
      if destination == null || destination.index.None? || movementDirection.None? {
        return Threw;
      }
      var traversable := wm.IsTraversable(destination.index.value, movementDirection.value, PushStrength(kind));
      if traversable.Err? {
        return Threw;
      }
      if !traversable.value {
        Halt(wm);
        return Cancelled;
      }
      if !arrives {
        return Moved;
      }
      ArriveDestination(wm);
      return Arrived;
    }

    /** `CancelDestination` inside the warehouse: the invariant survives. */
    method Halt(wm: WarehouseManager)
      requires wm.Valid() && this in wm.Items
      modifies this
      ensures wm.Valid()
      ensures !isMoving && movementDirection.None? && destination == null && destinationQueue == null
    {
      CancelDestination();
    }
  }

  /** The direction `StartDestination` moves in: the unit step from `index`
      to the destination's index, if it is one. */
  function StartDirection(destination: Ground?, index: Option<Vec>): Option<MovementType>
    reads destination
  {
    if destination == null || destination.index.None? || index.None? then None
    else AsMovementType(destination.index.value.Minus(index.value))
  }

  /** A ground cell (`Ground`) with its active and passive occupant. */
  class Ground {
    var index: Option<Vec>
    var occupant: Item?
    var passiveOccupant: Item?
    /** `Remove` was called: the warehouse no longer hears its events. */
    var removed: bool
    var events: seq<OccupantEvent>

    constructor (index: Vec)
      ensures this.index == Some(index) && occupant == null && passiveOccupant == null
      ensures !removed && events == []
    {
      this.index := Some(index);
      occupant := null;
      passiveOccupant := null;
      removed := false;
      events := [];
    }

    /** `OccupantAsMarker`: the active occupant if it is a marker, else the
        passive occupant if it is a marker, else null. */
    function OccupantAsMarker(): (m: Item?)
      reads this
      ensures m != null ==> m.kind.Marker? && (m == occupant || m == passiveOccupant)
      ensures m == null <==> (occupant == null || !occupant.kind.Marker?) && (passiveOccupant == null || !passiveOccupant.kind.Marker?)
      ensures occupant != null && occupant.kind.Marker? ==> m == occupant
    {
      if occupant != null && occupant.kind.Marker? then occupant
      else if passiveOccupant != null && passiveOccupant.kind.Marker? then passiveOccupant
      else null
    }

    /** `AsBuildItem`: the occupant's request, or none for an empty cell. */
    function AsBuildItem(): (r: Option<BuildItemRequest>)
      reads this, occupant
      ensures r.None? <==> occupant == null
      ensures r.Some? ==> r.value == occupant.AsBuildItem()
    {
      if occupant == null then None else Some(occupant.AsBuildItem())
    }

    /** `SetOccupant(item, removePrevious)`.

        1. A moving previous occupant is made to arrive first.
        2. If `item` is still the occupant of its parent ground, that ground
           is emptied (`SetOccupant(null, false)`).
        3. `item` becomes the occupant and takes this ground as its parent.
        4. Without `removePrevious`, a passive previous occupant (a marker)
           becomes the passive occupant.
        5. A non-null `item` fires the added event; a null one, without
           `removePrevious`, brings the passive occupant back as the occupant.
        6. With `removePrevious`, the removed event fires for the previous
           occupant, which is then removed. */
    method SetOccupant(item: Item?, removePrevious: bool, wm: WarehouseManager)
      requires wm.Valid() && this in wm.Grounds && (item != null ==> item in wm.Items)
      modifies wm.data, wm.Grounds, wm.Items, wm.context, wm.context.data
      ensures wm.Valid() && Unwound(wm)
      // the item is placed
      ensures item != null && !(removePrevious && item == old(occupant)) ==>
        occupant == item && item.parent == this && item.index == index
      // a passive previous occupant is kept underneath
      ensures old(occupant) != null && !removePrevious && IsPassiveOccupant(old(occupant).kind) ==>
        passiveOccupant == old(occupant)
      // emptying without removal restores the passive occupant
      ensures item == null && !removePrevious ==>
        occupant == passiveOccupant && (occupant != null ==> occupant.parent == this)
      ensures item == null && (old(occupant) == null || !old(occupant.isMoving)) ==>
        passiveOccupant == (if old(occupant) != null && !removePrevious && IsPassiveOccupant(old(occupant).kind)
                            then old(occupant) else old(passiveOccupant))
      ensures item == null && removePrevious ==> occupant == null
      // the previous occupant is removed
      ensures old(occupant) != null && removePrevious ==> old(occupant).removed && old(occupant).parent == null
      // events
      ensures old(occupant) != null && removePrevious ==>
        |events| >= 1 && events[|events| - 1] == Removed(old(occupant))
        && (item != null ==> |events| >= 2 && events[|events| - 2] == Added(item))
      ensures item != null && !(old(occupant) != null && removePrevious) ==>
        |events| >= 1 && events[|events| - 1] == Added(item)
      ensures item == null && (old(occupant) == null || (!removePrevious && !old(occupant.isMoving))) ==>
        events == old(events)
      decreases wm.Moving(), 1, if item == null then 0 else 1
    {
      var previous := occupant;
      if previous != null && previous.isMoving {
        previous.ArriveDestination(wm);
      }
      if item != null && item.parent != null && item.parent.occupant == item {
        MovingShrinks(wm);
        item.parent.SetOccupant(null, false, wm);
      }
      Settle(item, previous, removePrevious, wm);
    }

    /** Steps 3 to 6 of `SetOccupant`, once `previous` has arrived and
        `item` has left its old ground. */
    method Settle(item: Item?, previous: Item?, removePrevious: bool, wm: WarehouseManager)
      requires wm.Valid() && this in wm.Grounds
      requires item != null ==> item in wm.Items
      requires previous != null ==> previous in wm.Items
      modifies this, item, previous, passiveOccupant, wm.data
      ensures wm.Valid() && Unwound(wm)
      ensures item != null && !(removePrevious && item == previous) ==>
        occupant == item && item.parent == this && item.index == index
      ensures previous != null && !removePrevious && IsPassiveOccupant(previous.kind) ==> passiveOccupant == previous
      ensures item == null ==>
        passiveOccupant == (if previous != null && !removePrevious && IsPassiveOccupant(previous.kind)
                            then previous else old(passiveOccupant))
      ensures item == null ==> occupant == (if removePrevious then null else passiveOccupant)
      ensures occupant != null && !(previous != null && removePrevious) ==> occupant.parent == this
      ensures previous != null && removePrevious ==> previous.removed && previous.parent == null
      ensures events == old(events) + (if item != null then [Added(item)] else [])
                                    + (if previous != null && removePrevious then [Removed(previous)] else [])
    {
      if item != null {
        Occupy(item, previous, removePrevious, wm);
        if !removed {
          wm.OnOccupantAdded();
        }
      } else {
        Vacate(previous, removePrevious, wm);
      }
      if previous != null && removePrevious {
        Evict(previous, wm);
      }
    }

    /** Steps 3 and 4 of `SetOccupant`, and the added event of step 5, for a
        non-null `item`: it takes the cell and this ground as its parent, and
        a passive `previous` goes underneath. */
    method Occupy(item: Item, previous: Item?, removePrevious: bool, wm: WarehouseManager)
      requires wm.Valid() && this in wm.Grounds && item in wm.Items
      requires previous != null ==> previous in wm.Items
      modifies this, item
      ensures wm.Valid() && Unwound(wm)
      ensures passiveOccupant == (if previous != null && !removePrevious && IsPassiveOccupant(previous.kind)
                                  then previous else old(passiveOccupant))
      ensures occupant == item && item.parent == this && item.index == index
      ensures events == old(events) + [Added(item)]
      ensures index == old(index) && removed == old(removed)
    {
      var passive := if previous != null && !removePrevious && IsPassiveOccupant(previous.kind) then previous else passiveOccupant;
      occupant, passiveOccupant, events := item, passive, events + [Added(item)];
      item.SetParent(this);
    }

    /** Steps 3 to 5 of `SetOccupant` for a null item: the cell is emptied, a
        passive `previous` goes underneath, and without `removePrevious` the
        passive occupant comes back as the occupant. */
    method Vacate(previous: Item?, removePrevious: bool, wm: WarehouseManager)
      requires wm.Valid() && this in wm.Grounds
      requires previous != null ==> previous in wm.Items
      modifies this, previous, passiveOccupant
      ensures wm.Valid() && Unwound(wm)
      ensures passiveOccupant == (if previous != null && !removePrevious && IsPassiveOccupant(previous.kind)
                                  then previous else old(passiveOccupant))
      ensures occupant == (if removePrevious then null else passiveOccupant)
      ensures occupant != null ==> occupant.parent == this && occupant.index == index
      ensures events == old(events) && index == old(index) && removed == old(removed)
    {
      occupant := null;
      if previous != null && !removePrevious && IsPassiveOccupant(previous.kind) {
        passiveOccupant := previous;
      }
      if passiveOccupant != null && !removePrevious {
        var passive := passiveOccupant;
        occupant := passive;
        passive.SetParent(this);
      }
    }

    /** Step 6 of `SetOccupant`: the removed event, then the removal of the
        previous occupant. */
    method Evict(previous: Item, wm: WarehouseManager)
      requires wm.Valid() && this in wm.Grounds && previous in wm.Items
      modifies this, previous, wm.data
      ensures wm.Valid() && Unwound(wm)
      ensures events == old(events) + [Removed(previous)]
      ensures previous.removed && previous.parent == null
      ensures occupant == old(occupant) && passiveOccupant == old(passiveOccupant)
      ensures index == old(index) && removed == old(removed)
    {
      events := events + [Removed(previous)];
      if !removed {
        wm.OnOccupantRemoved(this, previous);
      }
      previous.Remove();
    }

    /** The `WarehouseIndex` setter of a ground: the index changes and the
        occupant is re-parented to this ground, taking the same index. */
    method SetIndex(position: Option<Vec>)
      modifies this, occupant
      ensures index == position
      ensures occupant == old(occupant) && passiveOccupant == old(passiveOccupant)
      ensures removed == old(removed) && events == old(events)
      ensures occupant != null ==> occupant.parent == this && occupant.index == position && SameMotion(occupant)
    {
      index := position;
      if occupant != null {
        occupant.SetParent(this);
      }
    }

    /** `Remove`: the ground drops its listeners and removes its occupant;
        resetting the index to (-1, -1) afterwards re-parents that removed
        occupant to this ground, with the same index. */
    method Remove()
      modifies this, occupant
      ensures removed && index == Some(Vec(-1, -1))
      ensures occupant == old(occupant) && passiveOccupant == old(passiveOccupant) && events == old(events)
      ensures occupant != null ==>
        occupant.removed && occupant.parent == this && occupant.index == Some(Vec(-1, -1))
        && occupant.isMoving == old(occupant.isMoving) && occupant.destination == old(occupant.destination)
        && occupant.destinationQueue == old(occupant.destinationQueue)
    {
      removed := true;
      if occupant != null {
        occupant.Remove();
      }
      SetIndex(Some(Vec(-1, -1)));
    }
  }

  /** What an item keeps while only its movement changes. */
  twostate predicate SamePlace(i: Item)
    reads i
  {
    && i.index == old(i.index) && i.parent == old(i.parent) && i.removed == old(i.removed)
    && i.markerAnimation == old(i.markerAnimation) && i.lastMovementDirection == old(i.lastMovementDirection)
    && i.frameResetPending == old(i.frameResetPending) && i.animateIndex == old(i.animateIndex)
  }

  /** What an item keeps while it is only re-parented. */
  twostate predicate SameMotion(i: Item)
    reads i
  {
    && i.isMoving == old(i.isMoving) && i.movementDirection == old(i.movementDirection)
    && i.destination == old(i.destination) && i.destinationQueue == old(i.destinationQueue)
    && i.removed == old(i.removed) && i.markerAnimation == old(i.markerAnimation)
    && i.lastMovementDirection == old(i.lastMovementDirection) && i.frameResetPending == old(i.frameResetPending)
    && i.animateIndex == old(i.animateIndex)
  }

  /** What a box keeps while the arrival handler sets its queue and its
      marker animation. */
  twostate predicate OnlyFlags(i: Item)
    reads i
  {
    && i.index == old(i.index) && i.parent == old(i.parent) && i.removed == old(i.removed)
    && i.isMoving == old(i.isMoving) && i.movementDirection == old(i.movementDirection)
    && i.destination == old(i.destination) && i.lastMovementDirection == old(i.lastMovementDirection)
    && i.frameResetPending == old(i.frameResetPending) && i.animateIndex == old(i.animateIndex)
  }

  /** What a ground keeps while it is only re-indexed. */
  twostate predicate SameHolding(g: Ground)
    reads g
  {
    g.occupant == old(g.occupant) && g.passiveOccupant == old(g.passiveOccupant)
    && g.removed == old(g.removed) && g.events == old(g.events)
  }

  /** What the moving machinery never does: the known objects and the grid
      stay, the movement history only grows, and no idle item starts moving
      or changes direction. */
  twostate predicate Unwound(wm: WarehouseManager)
    reads wm, wm.data, wm.Items, wm.context.data
  {
    && wm.Items == old(wm.Items) && wm.Grounds == old(wm.Grounds)
    && wm.data.grounds == old(wm.data.grounds)
    && (forall i :: i in old(wm.Items) && !old(i.isMoving) ==>
          && !i.isMoving && i.movementDirection == old(i.movementDirection)
          && i.lastMovementDirection == old(i.lastMovementDirection))
    && old(wm.context.data.history) <= wm.context.data.history
  }

  /** No item other than `x` changes its movement. */
  twostate predicate StillBut(wm: WarehouseManager, x: Item)
    reads wm, wm.Items
  {
    && wm.Items == old(wm.Items)
    && forall i :: i in wm.Items && i != x ==>
         i.isMoving == old(i.isMoving) && i.movementDirection == old(i.movementDirection)
         && i.lastMovementDirection == old(i.lastMovementDirection)
  }

  /** No item starts moving under `Unwound`. */
  twostate lemma MovingShrinks(wm: WarehouseManager)
    requires Unwound(wm)
    ensures wm.Moving() <= old(wm.Moving())
  {
  }

  // ----- Value snapshots of the object graph -----

  /** The active occupants of the grid's grounds. */
  function Occupants(g: Grid<Ground>): set<Item>
    reads Contents(g)
  {
    set gr | gr in Contents(g) && gr.occupant != null :: gr.occupant as Item
  }

  /** What the counting and traversal queries read off one ground. */
  function CellOf(ground: Ground): Occupancy.CellState
    reads ground, ground.occupant
  {
    Occupancy.CellState(
      if ground.occupant == null then None else Some(Traversal.Occupant(ground.occupant.kind, ground.occupant.isMoving)),
      if ground.passiveOccupant == null then None else Some(ground.passiveOccupant.kind))
  }

  function CellAt(g: Grid<Ground>, c: int, r: int): Option<Occupancy.CellState>
    requires InBounds(g, c, r)
    reads Contents(g), Occupants(g)
  {
    if g[c][r].None? then None else Some(CellOf(g[c][r].value))
  }

  /** The grid as the counting and traversal queries see it. */
  function Cells(g: Grid<Ground>): (cells: Grid<Occupancy.CellState>)
    reads Contents(g), Occupants(g)
    ensures |cells| == |g| && forall c :: 0 <= c < |g| ==> |cells[c]| == |g[c]|
    ensures forall c, r :: InBounds(g, c, r) ==> cells[c][r] == CellAt(g, c, r)
  {
    seq(|g|, c requires 0 <= c < |g| reads Contents(g), Occupants(g) =>
      seq(|g[c]|, r requires 0 <= r < |g[c]| reads Contents(g), Occupants(g) => CellAt(g, c, r)))
  }

  /** The destinations the items are headed for. */
  function Destinations(items: seq<Item>): set<Ground>
    reads items
  {
    set i | i in items && i.destination != null :: i.destination as Ground
  }

  function MoverOf(item: Item): Traversal.Mover
    reads item, item.destination
  {
    Traversal.Mover(item.kind, if item.destination == null then None else item.destination.index)
  }

  /** The active items as the traversal rule sees them. */
  function Movers(items: seq<Item>): (movers: seq<Traversal.Mover>)
    reads items, Destinations(items)
    ensures |movers| == |items| && forall k :: 0 <= k < |items| ==> movers[k] == MoverOf(items[k])
  {
    seq(|items|, k requires 0 <= k < |items| reads items, Destinations(items) => MoverOf(items[k]))
  }

  function OccupantAt(g: Grid<Ground>, c: int, r: int): Option<Item>
    requires InBounds(g, c, r)
    reads Contents(g)
  {
    if g[c][r].None? || g[c][r].value.occupant == null then None else Some(g[c][r].value.occupant as Item)
  }

  /** `grounds.ForEach((ground, position) => ground?.occupant)`. */
  function OccupantGrid(g: Grid<Ground>): (occupants: Grid<Item>)
    reads Contents(g)
  {
    seq(|g|, c requires 0 <= c < |g| reads Contents(g) =>
      seq(|g[c]|, r requires 0 <= r < |g[c]| reads Contents(g) => OccupantAt(g, c, r)))
  }

  function RequestAt(g: Grid<Ground>, c: int, r: int): Option<BuildItemRequest>
    requires InBounds(g, c, r)
    reads Contents(g), Occupants(g)
  {
    if g[c][r].None? then None else g[c][r].value.AsBuildItem()
  }

  /** `grounds.ForEach((ground, position) => ground?.AsBuildItem)`. */
  function RequestGrid(g: Grid<Ground>): (requests: Grid<BuildItemRequest>)
    reads Contents(g), Occupants(g)
  {
    seq(|g|, c requires 0 <= c < |g| reads Contents(g), Occupants(g) =>
      seq(|g[c]|, r requires 0 <= r < |g[c]| reads Contents(g), Occupants(g) => RequestAt(g, c, r)))
  }

  /** Every ground's index is its position in the grid. */
  ghost predicate Indexed(g: Grid<Ground>)
    reads Contents(g)
  {
    forall c, r :: HasCell(g, c, r) ==> g[c][r].value.index == Some(Vec(c, r))
  }

  /** Grounds that carry their positions are held at one position each. */
  lemma IndexedIsDistinct(g: Grid<Ground>)
    requires Indexed(g)
    ensures Distinct(g)
  {
    forall c1, r1, c2, r2 | HasCell(g, c1, r1) && HasCell(g, c2, r2) && g[c1][r1] == g[c2][r2]
      ensures c1 == c2 && r1 == r2
    {
      assert g[c1][r1].value.index == Some(Vec(c1, r1));
    }
  }

  /** An occupant whose parent is a ground of the grid holding it, with the
      parent's index. */
  ghost predicate Reparented(o: Item, g: Grid<Ground>)
    reads o, Contents(g)
  {
    o.parent != null && o.parent in Contents(g) && o.parent.occupant == o && o.index == o.parent.index
  }

  /** A cell of the grid that carries its position and whose occupant is
      re-parented to a ground of the grid. */
  ghost predicate CellDone(g: Grid<Ground>, c: int, r: int)
    reads Contents(g), Occupants(g)
  {
    HasCell(g, c, r) ==>
      var ground := g[c][r].value;
      ground.index == Some(Vec(c, r)) && (ground.occupant != null ==> Reparented(ground.occupant, g))
  }

  /** Every cell before (c, r) in column-major order is finished. */
  ghost predicate DoneBefore(g: Grid<Ground>, c: int, r: int)
    reads Contents(g), Occupants(g)
  {
    forall x, y :: InBounds(g, x, y) && (x < c || (x == c && y < r)) ==> CellDone(g, x, y)
  }

  /** `List.Remove`: the sequence without its first occurrence of `x`. */
  function Without<T(==)>(s: seq<T>, x: T): seq<T>
  {
    if s == [] then []
    else if s[0] == x then s[1..]
    else [s[0]] + Without(s[1..], x)
  }

  /** Dropping position `k` of `rest` and then putting `head` in front is
      dropping position `k + 1` of `[head] + rest`. */
  lemma DropAfterHead<T>(s: seq<T>, k: int)
    requires 0 <= k < |s| - 1
    ensures [s[0]] + (s[1..][..k] + s[1..][k + 1..]) == s[..k + 1] + s[k + 2..]
  {
    assert s[..k + 1] == [s[0]] + s[1..][..k];
    assert s[k + 2..] == s[1..][k + 1..];
  }

  /** The position of the first occurrence of `x`, or the length of `s`
      when there is none. */
  function FirstIndexOf<T(==)>(s: seq<T>, x: T): nat
  {
    if s == [] || s[0] == x then 0 else 1 + FirstIndexOf(s[1..], x)
  }

  /** `FirstIndexOf` is the first position holding `x`: no earlier one
      does, and it is the length exactly when `x` is missing. */
  lemma {:induction false} FirstIndexOfIsFirst<T>(s: seq<T>, x: T)
    ensures var k := FirstIndexOf(s, x);
      && k <= |s| && (k < |s| <==> x in s)
      && (forall j :: 0 <= j < k ==> s[j] != x)
      && (k < |s| ==> s[k] == x)
  {
    if s != [] && s[0] != x {
      FirstIndexOfIsFirst(s[1..], x);
      assert x in s <==> x in s[1..];
    }
  }

  /** `Without` removes exactly the first occurrence, and nothing when there
      is none. */
  lemma {:induction false} WithoutFirst<T>(s: seq<T>, x: T)
    ensures var k := FirstIndexOf(s, x);
      Without(s, x) == if k < |s| then s[..k] + s[k + 1..] else s
  {
    if s == [] {
    } else if s[0] == x {
      assert FirstIndexOf(s, x) == 0;
      assert s[..0] + s[1..] == s[1..];
    } else {
      var rest := s[1..];
      WithoutFirst(rest, x);
      WithoutStep(s, x);
      var k := FirstIndexOf(rest, x);
      if k < |rest| {
        DropAfterHead(s, k);
      } else {
        assert [s[0]] + rest == s;
      }
    }
  }

  /** One step of `Without` and `FirstIndexOf` past a head that differs. */
  lemma WithoutStep<T>(s: seq<T>, x: T)
    requires s != [] && s[0] != x
    ensures Without(s, x) == [s[0]] + Without(s[1..], x)
    ensures FirstIndexOf(s, x) == 1 + FirstIndexOf(s[1..], x)
  {
  }

  /** `Without` keeps only elements of the original. */
  lemma {:induction false} WithoutKeeps<T>(s: seq<T>, x: T)
    ensures forall y :: y in Without(s, x) ==> y in s
  {
    if s != [] && s[0] != x {
      WithoutKeeps(s[1..], x);
    }
  }

  /** `buildItems.Remove(occupant.AsBuildItem)`: the list without the first
      request of the occupant's origin (the source compares the request
      objects by reference; each origin has its own `id`). */
  function WithoutRequest(requests: seq<BuildItemRequest>, id: nat): seq<BuildItemRequest>
  {
    if requests == [] then []
    else if requests[0].id == id then requests[1..]
    else [requests[0]] + WithoutRequest(requests[1..], id)
  }

  /** The position of the first request with the id, or the length of the
      list when none has it. */
  function FirstWithId(requests: seq<BuildItemRequest>, id: nat): nat
  {
    if requests == [] || requests[0].id == id then 0 else 1 + FirstWithId(requests[1..], id)
  }

  /** `FirstWithId` is the first position of a request with the id, and
      the length when no request has it. */
  lemma {:induction false} FirstWithIdIsFirst(requests: seq<BuildItemRequest>, id: nat)
    ensures var k := FirstWithId(requests, id);
      && k <= |requests|
      && (forall j :: 0 <= j < k ==> requests[j].id != id)
      && (k < |requests| ==> requests[k].id == id)
  {
    if requests != [] && requests[0].id != id {
      FirstWithIdIsFirst(requests[1..], id);
    }
  }

  /** `WithoutRequest` drops exactly the first request with the id, and
      nothing when no request has it. */
  lemma {:induction false} WithoutRequestFirst(requests: seq<BuildItemRequest>, id: nat)
    ensures var k := FirstWithId(requests, id);
      WithoutRequest(requests, id) == if k < |requests| then requests[..k] + requests[k + 1..] else requests
  {
    if requests == [] {
    } else if requests[0].id == id {
      assert FirstWithId(requests, id) == 0;
      assert requests[..0] + requests[1..] == requests[1..];
    } else {
      var rest := requests[1..];
      var k := FirstWithId(rest, id);
      WithoutRequestFirst(rest, id);
      assert WithoutRequest(requests, id) == [requests[0]] + WithoutRequest(rest, id);
      assert FirstWithId(requests, id) == k + 1;
      if k < |rest| {
        DropAfterHead(requests, k);
      } else {
        assert [requests[0]] + rest == requests;
      }
    }
  }

  /** `g` with the cell (c, r) set. */
  function Put<T>(g: Grid<T>, c: int, r: int, x: T): Grid<T>
    requires InBounds(g, c, r)
  {
    g[c := g[c][r := Some(x)]]
  }

  /** Setting a cell keeps the grid's shape and its other objects, and a
      fresh object keeps the objects apart. */
  lemma PutContents<T>(g: Grid<T>, c: int, r: int, x: T)
    requires InBounds(g, c, r)
    ensures var ng := Put(g, c, r, x);
      && |ng| == |g| && (forall k :: 0 <= k < |g| ==> |ng[k]| == |g[k]|)
      && Contents(ng) <= Contents(g) + {x}
      && (Rectangular(g) ==> Rectangular(ng))
      && (Distinct(g) && x !in Contents(g) ==> Distinct(ng))
  {
    var ng: Grid<T> := Put(g, c, r, x);
    forall y | y in Contents(ng)
      ensures y in Contents(g) + {x}
    {
      var c1, r1 :| 0 <= c1 < |ng| && 0 <= r1 < |ng[c1]| && ng[c1][r1].Some? && ng[c1][r1].value == y;
      if c1 != c || r1 != r {
        assert g[c1][r1] == ng[c1][r1];
      }
    }
    if Distinct(g) && x !in Contents(g) {
      forall c1, r1 | HasCell(ng, c1, r1) && (c1, r1) != (c, r)
        ensures ng[c1][r1] == g[c1][r1] && ng[c1][r1].value != x
      {
        assert g[c1][r1].value in Contents(g);
      }
    }
  }

  /** `g` with the cell (c, r) nulled. */
  function Clear<T>(g: Grid<T>, c: int, r: int): Grid<T>
    requires InBounds(g, c, r)
  {
    g[c := g[c][r := None]]
  }

  /** Nulling a cell keeps the grid's shape and loses exactly the object
      that cell held. */
  lemma ClearContents<T>(g: Grid<T>, c: int, r: int)
    requires InBounds(g, c, r) && Distinct(g)
    ensures var ng := Clear(g, c, r);
      && |ng| == |g| && (forall k :: 0 <= k < |g| ==> |ng[k]| == |g[k]|)
      && Contents(ng) == Contents(g) - (if g[c][r].Some? then {g[c][r].value} else {})
      && (Rectangular(g) ==> Rectangular(ng))
      && Distinct(ng)
  {
    var ng: Grid<T> := Clear(g, c, r);
    forall y | y in Contents(ng)
      ensures y in Contents(g) && (g[c][r].Some? ==> y != g[c][r].value)
    {
      var c1, r1 :| 0 <= c1 < |ng| && 0 <= r1 < |ng[c1]| && ng[c1][r1].Some? && ng[c1][r1].value == y;
      assert HasCell(g, c1, r1) && g[c1][r1] == ng[c1][r1];
    }
    forall y | y in Contents(g) && (g[c][r].None? || y != g[c][r].value)
      ensures y in Contents(ng)
    {
      var c1, r1 :| 0 <= c1 < |g| && 0 <= r1 < |g[c1]| && g[c1][r1].Some? && g[c1][r1].value == y;
      assert ng[c1][r1] == g[c1][r1];
    }
  }

  /** `grid.ForEach((x, position) => x).WithNonNull()`: the objects the
      grid holds, column by column. */
  method Collect<T>(grid: Grid<T>) returns (present: seq<T>)
    ensures present == Present(grid)
  {
    var visited := ForEach(Some(Columns(grid)), Keep);
    present := NonNull(visited);
  }

  // ----- WarehouseManager.Data -----

  /** `WarehouseManager.Data` at run time: the grid of grounds, the level's
      size, its missing ground and build requests, and the active items. A
      null list is the empty sequence, and the `missingGround` hash set is a
      sequence without repeats. */
  class LevelData {
    var grounds: Grid<Ground>
    var missingGround: seq<MissingGround>
    var columns: int
    var rows: int
    var buildItems: seq<BuildItemRequest>
    var activeItems: seq<Item>

    /** The runtime data of a stored level, before its grid is built. */
    constructor (record: LevelRecord)
      ensures grounds == [] && activeItems == []
      ensures missingGround == record.missingGround.GetOr([]) && buildItems == record.buildItems.GetOr([])
      ensures columns == record.columns && rows == record.rows
    {
      grounds := [];
      activeItems := [];
      missingGround := record.missingGround.GetOr([]);
      buildItems := record.buildItems.GetOr([]);
      columns := record.columns;
      rows := record.rows;
    }

    /** `CalculateMissingGround`: the null cells, column by column. */
    method CalculateMissingGround()
      modifies this
      ensures missingGround == GridHoles(grounds)
      ensures grounds == old(grounds) && columns == old(columns) && rows == old(rows)
      ensures buildItems == old(buildItems) && activeItems == old(activeItems)
    {
      var holes := ForEach(Some(Columns(grounds)), HoleAt);
      missingGround := NonNull(holes);
      GridHolesAreVisited(grounds);
    }

    /** `ResizeGrounds`: the new array, then the size read back from it. An
        array left without columns throws when its row count is read, after
        the column count has been stored. */
    method ResizeGrounds(frontColumns: int, backColumns: int, frontRows: int, backRows: int)
      returns (error: Option<ResizeError>)
      modifies this
      ensures var result := Resize(old(grounds), frontColumns, backColumns, frontRows, backRows);
        && (result.Err? ==> error == Some(result.error) && grounds == old(grounds)
                            && columns == old(columns) && rows == old(rows))
        && (result.Ok? ==> grounds == result.value && columns == |grounds|
                           && (|grounds| == 0 ==> error == Some(NoColumns) && rows == old(rows))
                           && (|grounds| > 0 ==> error.None? && rows == |grounds[0]|))
      ensures Resize(old(grounds), frontColumns, backColumns, frontRows, backRows).Ok? ==>
        grounds == Resize(old(grounds), frontColumns, backColumns, frontRows, backRows).value
      ensures missingGround == old(missingGround) && buildItems == old(buildItems) && activeItems == old(activeItems)
    {
      var result := ShiftGrid(grounds, frontColumns, backColumns, frontRows, backRows);
      if result.Err? {
        return Some(result.error);
      }
      grounds := result.value;
      columns := |grounds|;
      if |grounds| == 0 {
        return Some(NoColumns);
      }
      rows := |grounds[0]|;
      return None;
    }

    /** The grid work of the front half of `CondenseGrounds`: count the
        null rows in front and drop them with the null columns in front, if
        there are any. No ground is lost, and the first column and row then
        hold a ground. */
    method CondenseFront() returns (resized: bool)
      requires |grounds| > 0 && Rectangular(grounds)
      modifies this
      ensures |grounds| > 0 && Rectangular(grounds)
      ensures Contents(grounds) == old(Contents(grounds)) && (old(Distinct(grounds)) ==> Distinct(grounds))
      ensures Occupied(grounds) <==> old(Occupied(grounds))
      ensures Occupied(grounds) ==> !ColumnEmpty(grounds[0]) && |grounds[0]| > 0 && !RowEmpty(grounds, 0)
      ensures !resized ==> grounds == old(grounds)
      ensures missingGround == old(missingGround) && buildItems == old(buildItems) && activeItems == old(activeItems)
    {
      var g := grounds;
      var rows := CountLeadingEmptyRows(g);
      resized := DropFront(g, rows);
      CondenseFrontKeeps(g, rows);
      CondenseFrontTightens(g, rows);
    }

    /** The resize of the front half, once the null rows are counted. */
    method DropFront(g: Grid<Ground>, rows: int) returns (resized: bool)
      requires grounds == g && |g| > 0 && Rectangular(g) && LeadingEmptyRows(g, rows)
      modifies this
      ensures grounds == GridLayout.CondenseFront(g, rows)
      ensures !resized ==> grounds == g
      ensures missingGround == old(missingGround) && buildItems == old(buildItems) && activeItems == old(activeItems)
    {
      var columns: int := FirstOccupied(g);
      resized := columns > 0 || rows > 0;
      if resized {
        CondenseFrontFits(g, rows);
        var _ := ResizeGrounds(-columns, 0, -rows, 0);
        CondenseFrontIsResize(g, rows, grounds);
      }
    }

    /** The grid work of the back half of `CondenseGrounds`, on a grid whose
        front is tight: afterwards the grid is `Tight`. */
    method CondenseBack() returns (resized: bool)
      requires |grounds| > 0 && Rectangular(grounds)
      requires Occupied(grounds) ==> !ColumnEmpty(grounds[0]) && |grounds[0]| > 0 && !RowEmpty(grounds, 0)
      modifies this
      ensures |grounds| > 0 && Rectangular(grounds) && Tight(grounds)
      ensures Contents(grounds) == old(Contents(grounds)) && (old(Distinct(grounds)) ==> Distinct(grounds))
      ensures Occupied(grounds) <==> old(Occupied(grounds))
      ensures !resized ==> grounds == old(grounds)
      ensures missingGround == old(missingGround) && buildItems == old(buildItems) && activeItems == old(activeItems)
    {
      var g := grounds;
      var rows := CountTrailingEmptyRows(g);
      resized := DropBack(g, rows);
      CondenseBackKeeps(g, rows);
      CondenseBackTightens(g, rows);
    }

    /** The resize of the back half, once the null rows are counted. */
    method DropBack(g: Grid<Ground>, rows: int) returns (resized: bool)
      requires grounds == g && |g| > 0 && Rectangular(g) && TrailingEmptyRows(g, rows)
      modifies this
      ensures grounds == GridLayout.CondenseBack(g, rows)
      ensures !resized ==> grounds == g
      ensures missingGround == old(missingGround) && buildItems == old(buildItems) && activeItems == old(activeItems)
    {
      var columns := |g| - 1 - LastOccupied(g);
      resized := columns > 0 || rows > 0;
      if resized {
        CondenseBackFits(g, rows);
        var _ := ResizeGrounds(0, -columns, 0, -rows);
        CondenseBackIsResize(g, rows, grounds);
      }
    }

    /** `GrowGrounds(c, r)`: pad so that (c, r), clamped to 0, is an index. */
    method GrowGrounds(column: int, row: int) returns (error: Option<ResizeError>)
      modifies this
      ensures var result := Grow(old(grounds), column, row);
        && (result.Err? ==> error == Some(result.error) && grounds == old(grounds)
                            && columns == old(columns) && rows == old(rows))
        && (result.Ok? ==> grounds == result.value && columns == |grounds|
                           && (|grounds| > 0 ==> error.None? && rows == |grounds[0]|))
      ensures missingGround == old(missingGround) && buildItems == old(buildItems) && activeItems == old(activeItems)
    {
      if |grounds| == 0 {
        return Some(NoFirstColumn);
      }
      error := ResizeGrounds(FrontPadding(column), BackPadding(|grounds|, column),
                             FrontPadding(row), BackPadding(|grounds[0]|, row));
    }

    /** `ValidateIndicies`: every ground takes its position as its index and
        re-parents its occupant. An item that occupies two grounds ends up
        with the later one as its parent. */
    method ValidateIndicies()
      requires Distinct(grounds)
      modifies Contents(grounds), Occupants(grounds)
      ensures Indexed(grounds)
      ensures forall gr :: gr in Contents(grounds) ==> SameHolding(gr)
      ensures forall gr :: gr in Contents(grounds) && gr.occupant != null ==> Reparented(gr.occupant, grounds)
      ensures forall gr :: gr in Contents(grounds) && old(gr.occupant) != null ==> SameMotion(old(gr.occupant))
    {
      var c := 0;
      while c < |grounds|
        invariant 0 <= c <= |grounds|
        invariant DoneBefore(grounds, c, 0)
        invariant forall gr :: gr in Contents(grounds) ==> SameHolding(gr)
        invariant forall gr :: gr in Contents(grounds) && old(gr.occupant) != null ==> SameMotion(old(gr.occupant))
      {
        var r := 0;
        while r < |grounds[c]|
          invariant 0 <= r <= |grounds[c]|
          invariant DoneBefore(grounds, c, r)
          invariant forall gr :: gr in Contents(grounds) ==> SameHolding(gr)
          invariant forall gr :: gr in Contents(grounds) && old(gr.occupant) != null ==> SameMotion(old(gr.occupant))
        {
          if grounds[c][r].Some? {
            IndexCell(c, r);
          }
          r := r + 1;
        }
        c := c + 1;
      }
      forall x, y | HasCell(grounds, x, y) ensures grounds[x][y].value.index == Some(Vec(x, y)) {
        assert CellDone(grounds, x, y);
      }
    }

    /** One step of `ValidateIndicies`: the ground at (c, r) takes its
        position and re-parents its occupant; the cells before it stay done. */
    method IndexCell(c: int, r: int)
      requires Distinct(grounds) && HasCell(grounds, c, r) && DoneBefore(grounds, c, r)
      modifies grounds[c][r].value, grounds[c][r].value.occupant
      ensures DoneBefore(grounds, c, r + 1)
      ensures forall gr :: gr in Contents(grounds) ==> SameHolding(gr)
      ensures forall gr :: gr in Contents(grounds) && old(gr.occupant) != null ==> SameMotion(old(gr.occupant))
    {
      var ground := grounds[c][r].value;
      ground.SetIndex(Some(Vec(c, r)));
      forall x, y | InBounds(grounds, x, y) && (x < c || (x == c && y < r))
        ensures CellDone(grounds, x, y)
      {
        if HasCell(grounds, x, y) {
          assert old(CellDone(grounds, x, y));
          var o := grounds[x][y].value.occupant;
          if o != null && o != ground.occupant {
            assert old(Reparented(o, grounds));
          }
        }
      }
    }

    /** `ValidateBuildItems()` without a ground: both lists are rebuilt from
        the grid, column by column. */
    method ValidateBuildItems()
      modifies this
      ensures buildItems == old(Present(RequestGrid(grounds))) && activeItems == old(Present(OccupantGrid(grounds)))
      ensures grounds == old(grounds) && missingGround == old(missingGround)
      ensures columns == old(columns) && rows == old(rows)
    {
      var requests := RequestGrid(grounds);
      ValidateActiveItems(null, null);
      buildItems := Collect(requests);
    }

    /** `ValidateActiveItems`. With an occupant that no longer occupies the
        ground it was reported from, the occupant and its request are
        dropped; with one that does, it is added if missing. Without an
        occupant the list is rebuilt from the grid. */
    method ValidateActiveItems(ground: Ground?, occupant: Item?)
      requires occupant != null ==> ground != null
      modifies this
      ensures occupant == null ==> activeItems == old(Present(OccupantGrid(grounds))) && buildItems == old(buildItems)
      ensures occupant != null && ground.occupant != occupant ==>
        activeItems == Without<Item>(old(activeItems), occupant) && buildItems == WithoutRequest(old(buildItems), occupant.origin.id)
      ensures occupant != null && ground.occupant == occupant ==>
        buildItems == old(buildItems)
        && activeItems == (if occupant in old(activeItems) then old(activeItems) else old(activeItems) + [occupant])
      ensures grounds == old(grounds) && missingGround == old(missingGround)
      ensures columns == old(columns) && rows == old(rows)
    {
      if occupant != null {
        if ground.occupant != occupant {
          activeItems := Without<Item>(activeItems, occupant);
          buildItems := WithoutRequest(buildItems, occupant.origin.id);
        } else if occupant !in activeItems {
          activeItems := activeItems + [occupant];
        }
      } else {
        activeItems := Collect(OccupantGrid(grounds));
      }
    }
  }

  // ----- WarehouseManager -----

  /** The size `BuildGrounds` uses for a level that has none. */
  const DefaultColumns: int := 6
  const DefaultRows: int := 4

  /** The largest element of a non-empty sequence. */
  function MaxOf(s: seq<int>): (m: int)
    requires |s| > 0
    ensures (forall k :: 0 <= k < |s| ==> s[k] <= m) && exists k :: 0 <= k < |s| && s[k] == m
  {
    if |s| == 1 then s[0]
    else
      var front := MaxOf(s[..|s| - 1]);
      if s[|s| - 1] > front then s[|s| - 1] else front
  }

  function HoleColumns(missing: seq<MissingGround>): seq<int>
  {
    seq(|missing|, k requires 0 <= k < |missing| => missing[k].x)
  }

  function HoleRows(missing: seq<MissingGround>): seq<int>
  {
    seq(|missing|, k requires 0 <= k < |missing| => missing[k].y)
  }

  function RequestColumns(requests: seq<BuildItemRequest>): seq<int>
  {
    seq(|requests|, k requires 0 <= k < |requests| => requests[k].column)
  }

  function RequestRows(requests: seq<BuildItemRequest>): seq<int>
  {
    seq(|requests|, k requires 0 <= k < |requests| => requests[k].row)
  }

  /** One more than the largest of `s`, or 0 for none. */
  function Extent(s: seq<int>): int
  {
    if |s| > 0 then MaxOf(s) + 1 else 0
  }

  /** The size `BuildGrounds` builds: the stored size unless it is 0 by 0;
      then one more than the largest index any missing ground or build
      request names, or the default size for a level with neither. */
  function InferredSize(columns: int, rows: int, missing: seq<MissingGround>, requests: seq<BuildItemRequest>): (int, int)
  {
    if columns != 0 || rows != 0 then (columns, rows)
    else if |missing| == 0 && |requests| == 0 then (DefaultColumns, DefaultRows)
    else (Max(Extent(HoleColumns(missing)), Extent(RequestColumns(requests))),
          Max(Extent(HoleRows(missing)), Extent(RequestRows(requests))))
  }

  /** Stored as 0 by 0, a level that lists missing grounds or build
      requests is built large enough to hold every one of them, and no
      larger: a positive size is reached by one of them. */
  lemma InferredSizeCovers(missing: seq<MissingGround>, requests: seq<BuildItemRequest>)
    requires |missing| > 0 || |requests| > 0
    ensures var size := InferredSize(0, 0, missing, requests);
      && (forall m :: m in missing ==> m.x < size.0 && m.y < size.1)
      && (forall q :: q in requests ==> q.column < size.0 && q.row < size.1)
      && (size.0 > 0 ==> (exists m :: m in missing && m.x == size.0 - 1) || (exists q :: q in requests && q.column == size.0 - 1))
      && (size.1 > 0 ==> (exists m :: m in missing && m.y == size.1 - 1) || (exists q :: q in requests && q.row == size.1 - 1))
  {
    var size := InferredSize(0, 0, missing, requests);
    forall m | m in missing
      ensures m.x < size.0 && m.y < size.1
    {
      var k :| 0 <= k < |missing| && missing[k] == m;
      assert HoleColumns(missing)[k] == m.x && HoleRows(missing)[k] == m.y;
    }
    forall q | q in requests
      ensures q.column < size.0 && q.row < size.1
    {
      var k :| 0 <= k < |requests| && requests[k] == q;
      assert RequestColumns(requests)[k] == q.column && RequestRows(requests)[k] == q.row;
    }
    if size.0 > 0 {
      if size.0 == Extent(HoleColumns(missing)) {
        var k :| 0 <= k < |missing| && HoleColumns(missing)[k] == size.0 - 1;
        assert missing[k] in missing;
      } else {
        var k :| 0 <= k < |requests| && RequestColumns(requests)[k] == size.0 - 1;
        assert requests[k] in requests;
      }
    }
    if size.1 > 0 {
      if size.1 == Extent(HoleRows(missing)) {
        var k :| 0 <= k < |missing| && HoleRows(missing)[k] == size.1 - 1;
        assert missing[k] in missing;
      } else {
        var k :| 0 <= k < |requests| && RequestRows(requests)[k] == size.1 - 1;
        assert requests[k] in requests;
      }
    }
  }

  /** A cols × rows grid of nulls (no columns for a negative count). */
  function Blank<T>(cols: int, rows: int): (g: Grid<T>)
    ensures |g| == Max(cols, 0) && forall c :: 0 <= c < |g| ==> |g[c]| == Max(rows, 0)
    ensures forall c, r :: InBounds(g, c, r) ==> g[c][r].None?
  {
    var column: seq<Option<T>> := seq(Max(rows, 0), _ => None);
    seq(Max(cols, 0), _ => column)
  }

  /** `BuildGrounds` has laid out the cells before (c, r) in column-major
      order: the grid is cols × rows, and a cell holds a ground exactly when
      it comes before (c, r) and is not listed as missing. */
  ghost predicate LaidBefore(g: Grid<Ground>, cols: int, rows: int, missing: seq<MissingGround>, c: int, r: int)
  {
    && |g| == Max(cols, 0) && (forall x :: 0 <= x < |g| ==> |g[x]| == rows)
    && forall x, y :: InBounds(g, x, y) ==>
         (g[x][y].Some? <==> (x < c || (x == c && y < r)) && MissingGround(x, y) !in missing)
  }

  /** One step of `BuildGrounds`: a ground added at (c, r), which is not
      missing, extends the layout by one cell. */
  lemma LaidStep(g: Grid<Ground>, cols: int, rows: int, missing: seq<MissingGround>, c: int, r: int, ground: Ground)
    requires LaidBefore(g, cols, rows, missing, c, r) && InBounds(g, c, r) && MissingGround(c, r) !in missing
    ensures LaidBefore(Put(g, c, r, ground), cols, rows, missing, c, r + 1)
  {
  }

  /** How a grid operation of the manager fails: a resize that throws, a
      negative size, an index outside the array, a ground without an index,
      or a grid without columns. */
  datatype LayoutError =
    | ResizeFailed(reason: ResizeError)
    | NegativeSize
    | IndexOutside(at: Vec)
    | MissingIndex
    | EmptyGrid

  /** Whether `AddGround(column, row, allowResize)` grows the grid first. The
      row is compared with column 0 only when there is one. */
  predicate NeedsResize(g: Grid<Ground>, column: int, row: int, allowResize: bool)
  {
    allowResize && (column < 0 || row < 0 || column >= |g| || (|g| > 0 && row >= |g[0]|))
  }

  /** `WarehouseManager`: builds the grid and its items from the active
      level's data and answers the board queries the items and the gameplay
      manager ask. `Grounds` and `Items` are every ground and item created so
      far. */
  class WarehouseManager {
    const data: LevelData
    const context: Context
    var gameplay: GameplayManager?
    /** `timeProvider.TimeMs`: the clock the player's history entries read. */
    var timeMs: nat
    ghost var Grounds: set<Ground>
    ghost var Items: set<Item>

    constructor (data: LevelData, context: Context)
      requires data.grounds == [] && data.activeItems == []
      ensures this.data == data && this.context == context && gameplay == null && timeMs == 0
      ensures Valid() && Grounds == {} && Items == {}
    {
      this.data := data;
      this.context := context;
      gameplay := null;
      timeMs := 0;
      Grounds := {};
      Items := {};
    }

    /** The object graph is closed: grid grounds, occupants, parents,
        destinations and the gameplay manager's player are all known, a
        passive occupant is a marker, and no ground sits at two positions. */
    ghost predicate Consistent()
      reads this, data, Grounds, Items
    {
      && Rectangular(data.grounds) && Distinct(data.grounds)
      && Contents(data.grounds) <= Grounds
      && (forall i :: i in data.activeItems ==> i in Items)
      && (forall g :: g in Grounds && g.occupant != null ==> g.occupant in Items)
      && (forall g :: g in Grounds && g.passiveOccupant != null ==>
            g.passiveOccupant in Items && IsPassiveOccupant(g.passiveOccupant.kind))
      && (forall i :: i in Items ==>
            && (i.parent != null ==> i.parent in Grounds)
            && (i.destination != null ==> i.destination in Grounds)
            && (i.destinationQueue != null ==> i.destinationQueue in Grounds))
      && (gameplay != null ==> gameplay.warehouse == this && gameplay.player in Items)
    }

    /** Consistent, and every ground of the grid carries its position. */
    ghost predicate Valid()
      reads this, data, Grounds, Items
    {
      Consistent() && Indexed(data.grounds)
    }

    ghost function Moving(): set<Item>
      reads this, Items
    {
      set i | i in Items && i.isMoving
    }

    /** The gameplay manager starts listening to the items. */
    method Attach(gameplay: GameplayManager)
      requires Valid() && gameplay.warehouse == this && gameplay.player in Items
      modifies this
      ensures Valid() && this.gameplay == gameplay
      ensures Grounds == old(Grounds) && Items == old(Items) && timeMs == old(timeMs)
    {
      this.gameplay := gameplay;
    }

    // ----- queries -----

    /** The objects the board queries read. */
    function BoardFrame(): set<object>
      reads data, Contents(data.grounds), data.activeItems
    {
      {data} + Contents(data.grounds) + Occupants(data.grounds) + (set i | i in data.activeItems) + Destinations(data.activeItems)
    }

    /** The board as the traversal rule sees it. */
    function Board(): Traversal.Board
      reads BoardFrame()
    {
      Traversal.Board(Occupancy.Slots(Cells(data.grounds)), Movers(data.activeItems))
    }

    /** `GetGround`: the ground at a position, or null off the grid and on a
        hole. In a valid warehouse it carries the position as its index. */
    function GetGround(position: Option<Vec>): (ground: Ground?)
      reads data, Contents(data.grounds)
      ensures ground != null <==> position.Some? && HasCell(data.grounds, position.value.x, position.value.y)
      ensures ground != null ==> ground in Contents(data.grounds)
      ensures ground != null && Indexed(data.grounds) ==> ground.index == position
    {
      if position.Some? && HasCell(data.grounds, position.value.x, position.value.y)
      then data.grounds[position.value.x][position.value.y].value else null
    }

    /** `HasOccupant(column, row)`, which throws where there is no ground. */
    function HasOccupant(column: int, row: int): (r: Result<bool, Traversal.Error>)
      reads data, Contents(data.grounds)
    {
      if HasCell(data.grounds, column, row) then Ok(data.grounds[column][row].value.occupant != null)
      else Err(Traversal.NoGround(Vec(column, row)))
    }

    /** `GetOccupant`: null for no position or an empty ground. */
    function GetOccupant(position: Option<Vec>): (r: Result<Item?, Traversal.Error>)
      reads data, Contents(data.grounds)
    {
      if position.None? then Ok(null)
      else match HasOccupant(position.value.x, position.value.y)
        case Err(e) => Err(e)
        case Ok(has) => Ok(if has then data.grounds[position.value.x][position.value.y].value.occupant else null)
    }

    /** The object-level occupant query agrees with the board's: it throws
        exactly where the board has no ground, and otherwise reports the same
        occupant. */
    lemma OccupantAgrees(p: Vec)
      ensures var o := GetOccupant(Some(p)); var t := Traversal.GetOccupant(Board(), p);
        && (o.Err? <==> t.Err?)
        && (o.Ok? ==> (o.value == null <==> t.value.None?)
                      && (o.value != null ==> t.value.value == Traversal.Occupant(o.value.kind, o.value.isMoving)))
    {
      var g := data.grounds;
      if HasCell(g, p.x, p.y) {
        assert Board().grounds[p.x][p.y] == Occupancy.SlotOf(CellAt(g, p.x, p.y));
      }
    }

    /** `GetInboundOccupant`: the first active item headed for the position. */
    function GetInboundOccupant(position: Option<Vec>): (item: Item?)
      reads data, data.activeItems, Destinations(data.activeItems)
    {
      if position.None? then null else FirstHeadedFor(data.activeItems, position.value)
    }

    /** The object-level inbound query finds the item the board's does. */
    lemma InboundAgrees(p: Vec)
      ensures var i := GetInboundOccupant(Some(p)); var m := Traversal.GetInboundOccupant(Board(), p);
        (i == null <==> m.None?) && (i != null ==> m.value == MoverOf(i))
    {
      FirstHeadedForAgrees(data.activeItems, p);
    }

    /** `IsTraversable` of the manager, on its board. */
    function IsTraversable(destination: Vec, m: MovementType, pushStrength: int): Result<bool, Traversal.Error>
      reads BoardFrame()
    {
      Traversal.IsTraversable(Board(), destination, m, pushStrength)
    }

    function MarkerCount(): nat
      reads BoardFrame()
    {
      Occupancy.MarkerCount(Cells(data.grounds))
    }

    function MatchedMarkerCount(): nat
      reads BoardFrame()
    {
      Occupancy.MatchedMarkerCount(Cells(data.grounds))
    }

    predicate HasMarkerWinCondition()
      reads BoardFrame()
    {
      MarkerCount() == MatchedMarkerCount()
    }

    /** The level is won exactly when every ground showing a marker holds a
        box of the marker's colour. */
    lemma WinIffEveryMarkerCovered()
      ensures HasMarkerWinCondition() <==>
        forall gr :: gr in Contents(data.grounds) && gr.OccupantAsMarker() != null ==>
          gr.occupant != null && gr.occupant.kind == Box(gr.OccupantAsMarker().kind.markerType)
    {
      var g := data.grounds;
      var cells := Cells(g);
      Occupancy.WinIffAllMatched(cells);
      forall gr | gr in Contents(g)
        ensures Occupancy.Marked(CellOf(gr)) <==> gr.OccupantAsMarker() != null
        ensures Occupancy.Matched(CellOf(gr)) <==>
          gr.OccupantAsMarker() != null && gr.occupant != null && gr.occupant.kind == Box(gr.OccupantAsMarker().kind.markerType)
      {
      }
      if HasMarkerWinCondition() {
        forall gr | gr in Contents(g) && gr.OccupantAsMarker() != null
          ensures gr.occupant != null && gr.occupant.kind == Box(gr.OccupantAsMarker().kind.markerType)
        {
          var c, r :| 0 <= c < |g| && 0 <= r < |g[c]| && g[c][r].Some? && g[c][r].value == gr;
          assert HasCell(cells, c, r) && cells[c][r] == Some(CellOf(gr));
        }
      } else {
        var c, r :| HasCell(cells, c, r) && Occupancy.Marked(cells[c][r].value) && !Occupancy.Matched(cells[c][r].value);
        var gr := g[c][r].value;
        assert cells[c][r] == Some(CellOf(gr));
        assert gr in Contents(g);
      }
    }

    // ----- layout -----

    /** `OnOccupantAdded`: the build requests and active items are rebuilt
        from the grid. */
    method OnOccupantAdded()
      requires Valid()
      modifies data
      ensures Valid() && Unwound(this)
      ensures data.grounds == old(data.grounds) && data.missingGround == old(data.missingGround)
      ensures data.columns == old(data.columns) && data.rows == old(data.rows)
      ensures data.buildItems == old(Present(RequestGrid(data.grounds)))
      ensures data.activeItems == old(Present(OccupantGrid(data.grounds)))
    {
      ActiveItemsKnown();
      data.ValidateBuildItems();
    }

    /** `OnOccupantRemoved`: the active items (and build requests) are
        updated for the one occupant reported by `ground`. */
    method OnOccupantRemoved(ground: Ground, occupant: Item)
      requires Valid() && occupant in Items
      modifies data
      ensures Valid() && Unwound(this)
      ensures data.grounds == old(data.grounds) && data.missingGround == old(data.missingGround)
      ensures data.columns == old(data.columns) && data.rows == old(data.rows)
      ensures ground.occupant != occupant ==>
        data.activeItems == Without(old(data.activeItems), occupant)
        && data.buildItems == WithoutRequest(old(data.buildItems), occupant.origin.id)
      ensures ground.occupant == occupant ==>
        data.buildItems == old(data.buildItems)
        && data.activeItems == (if occupant in old(data.activeItems) then old(data.activeItems) else old(data.activeItems) + [occupant])
    {
      data.ValidateActiveItems(ground, occupant);
      WithoutKeeps(old(data.activeItems), occupant);
    }

    /** `Validate`: indices first, then the build requests and the active
        items, both rebuilt from the grid. */
    method Validate()
      requires Consistent()
      modifies data, Grounds, Items
      ensures Valid()
      ensures data.grounds == old(data.grounds) && data.missingGround == old(data.missingGround)
      ensures data.columns == old(data.columns) && data.rows == old(data.rows)
    {
      Reindex();
      OnOccupantAdded();
    }

    /** The first step of `Validate`: every ground of the grid takes its
        position as its index, and occupants follow their grounds. */
    method Reindex()
      requires Consistent()
      modifies Grounds, Items
      ensures Valid()
    {
      OccupantsKnown();
      data.ValidateIndicies();
    }

    /** `PlaceItem(item, column, row)`: where there is ground, the item
        becomes its occupant and the one there before is removed (the
        default `removePrevious`). Without ground nothing happens. */
    method PlaceItem(item: Item, column: int, row: int) returns (placed: bool)
      requires Valid() && item in Items
      modifies data, Grounds, Items, context, context.data
      ensures Valid() && Unwound(this)
      ensures placed == HasCell(data.grounds, column, row)
      ensures placed ==> var ground := GetGround(Some(Vec(column, row)));
        && (old(ground.occupant) != item ==> ground.occupant == item && item.parent == ground && item.index == Some(Vec(column, row)))
        && (old(ground.occupant) != null ==> old(ground.occupant).removed)
    {
      if !HasCell(data.grounds, column, row) {
        return false;
      }
      var ground := data.grounds[column][row].value;
      ground.SetOccupant(item, true, this);
      return true;
    }

    /** `BuildItem(request, removeExisting)`: on ground that is free (or
        with `removeExisting`), a new item of the request's kind is created
        and placed. A request naming no known kind builds nothing. */
    method BuildItem(request: BuildItemRequest, removeExisting: bool) returns (placed: bool)
      requires Valid()
      modifies this, data, Grounds, Items, context, context.data
      ensures Valid() && Grounds == old(Grounds) && data.grounds == old(data.grounds)
      ensures placed <==>
        && old(HasCell(data.grounds, request.column, request.row))
        && (removeExisting || old(HasOccupant(request.column, request.row)) == Ok(false))
        && KindOf(request).Some?
      ensures !placed ==> Items == old(Items)
      ensures placed ==> var o := GetGround(Some(Vec(request.column, request.row))).occupant;
        && o != null && fresh(o) && Items == old(Items) + {o}
        && o.kind == KindOf(request).value && o.origin == request
    {
      if !HasCell(data.grounds, request.column, request.row)
        || (HasOccupant(request.column, request.row) == Ok(true) && !removeExisting) {
        return false;
      }
      var kind := KindOf(request);
      if kind.None? {
        return false;
      }
      var item := Enlist(kind.value, request);
      placed := PlaceItem(item, request.column, request.row);
    }

    /** A new item joins the manager, on no ground yet. */
    method Enlist(kind: Kind, origin: BuildItemRequest) returns (item: Item)
      requires Valid()
      modifies this
      ensures Valid() && fresh(item) && Items == old(Items) + {item} && Grounds == old(Grounds)
      ensures item.kind == kind && item.origin == origin && item.parent == null && !item.isMoving
      ensures gameplay == old(gameplay) && timeMs == old(timeMs)
    {
      item := new Item(kind, origin);
      Items := Items + {item};
    }

    /** `BuildItems`: one `BuildItem` per stored request, in order. The
        requests are read once; the lists that placing rebuilds do not
        change what is built. Every new item comes from one of the
        requests. */
    method BuildItems()
      requires Valid()
      modifies this, data, Grounds, Items, context, context.data
      ensures Valid() && Grounds == old(Grounds) && data.grounds == old(data.grounds)
      ensures old(Items) <= Items
      ensures forall i :: i in Items && i !in old(Items) ==> i.origin in old(data.buildItems)
    {
      var requests := data.buildItems;
      var k := 0;
      while k < |requests|
        invariant 0 <= k <= |requests|
        invariant Valid() && Grounds == old(Grounds) && data.grounds == old(data.grounds)
        invariant old(Items) <= Items && fresh(Items - old(Items))
        invariant forall i :: i in Items && i !in old(Items) ==> i.origin in requests[..k]
      {
        var _ := BuildItem(requests[k], false);
        k := k + 1;
      }
    }

    /** `BuildGrounds`: the size is taken from the level (inferred when it
        is 0 by 0), a ground is added at every cell of that size that is not
        listed as missing, and the holes are recounted. A negative size
        throws when the array is allocated; with no columns, a negative row
        count is never used. A negative column count throws before the grid
        is touched, but a negative row count throws only once the grid has
        been replaced by one of `columns` unallocated columns, which are
        columns without cells here. */
    method BuildGrounds() returns (error: Option<LayoutError>)
      requires Valid()
      modifies this, data
      ensures Valid() && Items == old(Items)
      ensures var size := InferredSize(old(data.columns), old(data.rows), old(data.missingGround), old(data.buildItems));
        && data.columns == size.0 && data.rows == size.1
        && (error.Some? <==> size.0 < 0 || (size.0 > 0 && size.1 < 0))
        && (error.Some? ==> error == Some(NegativeSize) && data.missingGround == old(data.missingGround))
        && (size.0 < 0 ==> data.grounds == old(data.grounds))
        && (size.0 > 0 && size.1 < 0 ==> data.grounds == Blank(size.0, 0))
        && (error.None? ==> LaidBefore(data.grounds, size.0, size.1, old(data.missingGround), size.0, 0)
                            && forall m :: m in data.missingGround <==>
                                 m in old(data.missingGround) && 0 <= m.x < size.0 && 0 <= m.y < size.1)
      ensures error.None? ==> forall gr :: gr in Contents(data.grounds) ==> fresh(gr) && gr.occupant == null
    {
      var size := InferredSize(data.columns, data.rows, data.missingGround, data.buildItems);
      var columns, rows := size.0, size.1;
      data.columns, data.rows := columns, rows;
      if columns < 0 {
        return Some(NegativeSize);
      }
      if columns > 0 && rows < 0 {
        LayBlank(columns, 0);
        return Some(NegativeSize);
      }
      LayGrounds(columns, rows);
      return None;
    }

    /** `CalculateMissingGround` of the manager: the holes are read off the
        grid again; nothing else changes. */
    method RecountHoles()
      requires Valid()
      modifies data
      ensures Valid() && Unwound(this)
      ensures data.missingGround == GridHoles(data.grounds)
      ensures data.grounds == old(data.grounds) && data.columns == old(data.columns) && data.rows == old(data.rows)
      ensures data.buildItems == old(data.buildItems) && data.activeItems == old(data.activeItems)
    {
      data.CalculateMissingGround();
    }

    /** The part of `AddGround` that creates the ground: a new ground with
        the index (c, r) takes that cell, replacing any ground there. */
    method PutGround(c: int, r: int) returns (ground: Ground)
      requires Valid() && InBounds(data.grounds, c, r)
      modifies this, data
      ensures Valid() && fresh(ground)
      ensures Grounds == old(Grounds) + {ground} && Items == old(Items)
      ensures gameplay == old(gameplay) && timeMs == old(timeMs)
      ensures data.grounds == Put(old(data.grounds), c, r, ground)
      ensures ground.index == Some(Vec(c, r)) && ground.occupant == null && ground.passiveOccupant == null
      ensures data.missingGround == old(data.missingGround) && data.columns == old(data.columns) && data.rows == old(data.rows)
      ensures data.buildItems == old(data.buildItems) && data.activeItems == old(data.activeItems)
    {
      ground := new Ground(Vec(c, r));
      Grounds := Grounds + {ground};
      PutContents(data.grounds, c, r, ground);
      data.grounds := Put(data.grounds, c, r, ground);
    }

    /** The layout step of `BuildGrounds`, once the size is known to be
        usable: a fresh ground wherever the level lists no missing ground
        inside the size, then the holes recounted. */
    method LayGrounds(columns: int, rows: int)
      requires Valid() && columns >= 0 && (columns > 0 ==> rows >= 0)
      modifies this, data
      ensures Valid() && Items == old(Items)
      ensures data.columns == old(data.columns) && data.rows == old(data.rows)
      ensures LaidBefore(data.grounds, columns, rows, old(data.missingGround), columns, 0)
      ensures forall m :: m in data.missingGround <==>
                m in old(data.missingGround) && 0 <= m.x < columns && 0 <= m.y < rows
      ensures forall gr :: gr in Contents(data.grounds) ==> fresh(gr) && gr.occupant == null
    {
      var missing := data.missingGround;
      LayBlank(columns, rows);
      var c := 0;
      while c < columns
        invariant 0 <= c <= columns
        invariant Valid() && Items == old(Items)
        invariant data.columns == old(data.columns) && data.rows == old(data.rows) && data.missingGround == missing
        invariant LaidBefore(data.grounds, columns, rows, missing, c, 0)
        invariant forall gr :: gr in Contents(data.grounds) ==> fresh(gr) && gr.occupant == null
      {
        LayColumn(c, rows, missing);
        c := c + 1;
      }
      RecountHoles();
      forall m ensures m in data.missingGround <==> m in missing && 0 <= m.x < columns && 0 <= m.y < rows {
        GridHolesExact(data.grounds, m);
      }
    }

    /** The start of `BuildGrounds`: the grid is replaced by one of the
        given size with no ground in it. */
    method LayBlank(columns: int, rows: int)
      requires Valid() && (columns > 0 ==> rows >= 0)
      modifies data
      ensures Valid() && Items == old(Items) && Grounds == old(Grounds)
      ensures data.grounds == Blank(columns, rows) && LaidBefore(data.grounds, columns, rows, data.missingGround, 0, 0)
      ensures data.missingGround == old(data.missingGround) && data.columns == old(data.columns) && data.rows == old(data.rows)
      ensures data.buildItems == old(data.buildItems) && data.activeItems == old(data.activeItems)
    {
      data.grounds := Blank(columns, rows);
      assert Contents(data.grounds) == {};
    }

    /** The inner loop of `BuildGrounds`: a ground is added at every cell of
        column c that is not listed as missing (as `AddGround(c, r)` inside
        the grid, which does not resize). */
    method LayColumn(c: int, rows: int, missing: seq<MissingGround>)
      requires Valid() && 0 <= c < |data.grounds| && data.missingGround == missing
      requires LaidBefore(data.grounds, |data.grounds|, rows, missing, c, 0)
      modifies this, data
      ensures Valid() && Items == old(Items)
      ensures data.columns == old(data.columns) && data.rows == old(data.rows) && data.missingGround == missing
      ensures |data.grounds| == |old(data.grounds)|
      ensures LaidBefore(data.grounds, |data.grounds|, rows, missing, c + 1, 0)
      ensures forall gr :: gr in Contents(data.grounds) ==>
                gr in Contents(old(data.grounds)) || (fresh(gr) && gr.occupant == null)
    {
      var columns := |data.grounds|;
      assert |data.grounds[c]| == rows;
      var r := 0;
      while r < rows
        invariant 0 <= r <= rows && |data.grounds| == columns
        invariant Valid() && Items == old(Items)
        invariant data.columns == old(data.columns) && data.rows == old(data.rows) && data.missingGround == missing
        invariant LaidBefore(data.grounds, columns, rows, missing, c, r)
        invariant forall gr :: gr in Contents(data.grounds) ==>
                    gr in Contents(old(data.grounds)) || (fresh(gr) && gr.occupant == null)
      {
        if MissingGround(c, r) !in missing {
          var g := data.grounds;
          var ground := PutGround(c, r);
          PutContents(g, c, r, ground);
          LaidStep(g, columns, rows, missing, c, r, ground);
        }
        r := r + 1;
      }
    }

    /** The growing step of `AddGround`: `GrowGrounds` and then `Validate`.
        A grid without columns cannot grow. */
    method Regrow(column: int, row: int) returns (error: Option<ResizeError>)
      requires Valid()
      modifies data, Grounds, Items
      ensures Valid()
      ensures old(|data.grounds|) == 0 ==> error == Some(NoFirstColumn) && data.grounds == old(data.grounds)
      ensures old(|data.grounds|) > 0 ==>
        error.None? && data.grounds == Grow(old(data.grounds), column, row).value
        && InBounds(data.grounds, Max(column, 0), Max(row, 0))
      ensures data.missingGround == old(data.missingGround)
    {
      var g := data.grounds;
      if |g| == 0 {
        error := data.GrowGrounds(column, row);
        return;
      }
      GrowReaches(g, column, row);
      ResizeKeepsContents(g, FrontPadding(column), BackPadding(|g|, column), FrontPadding(row), BackPadding(|g[0]|, row));
      error := data.GrowGrounds(column, row);
      Validate();
    }

    /** `AddGround(column, row, allowResize)`. With `allowResize` and an index
        outside the grid, the grid grows first and the index is clamped to 0;
        the new ground then takes its cell, and the holes are recounted.
        Without `allowResize`, an index outside the grid throws. */
    method AddGround(column: int, row: int, allowResize: bool) returns (r: Result<Ground, LayoutError>)
      requires Valid()
      modifies this, data, Grounds, Items
      ensures Valid()
      ensures var g := old(data.grounds); var grows := NeedsResize(g, column, row, allowResize);
        && (r.Err? <==> (grows && |g| == 0) || (!grows && !InBounds(g, column, row)))
        && (grows && |g| == 0 ==> r == Err(ResizeFailed(NoFirstColumn)))
        && (!grows && !InBounds(g, column, row) ==> r == Err(IndexOutside(Vec(column, row))))
        && (r.Err? ==> data.grounds == g)
    ensures r.Ok? ==>
        var at := if NeedsResize(old(data.grounds), column, row, allowResize) then Vec(Max(column, 0), Max(row, 0)) else Vec(column, row);
        && fresh(r.value) && r.value.occupant == null && r.value.index == Some(at)
        && GetGround(Some(at)) == r.value
        && data.grounds == Put(if NeedsResize(old(data.grounds), column, row, allowResize)
                               then Grow(old(data.grounds), column, row).value else old(data.grounds),
                               at.x, at.y, r.value)
      ensures r.Ok? && allowResize ==> data.missingGround == GridHoles(data.grounds)
      ensures r.Ok? && !allowResize ==> data.missingGround == old(data.missingGround)
    {
      var c, w := column, row;
      if NeedsResize(data.grounds, column, row, allowResize) {
        var error := Regrow(column, row);
        if error.Some? {
          return Err(ResizeFailed(error.value));
        }
        c, w := Max(column, 0), Max(row, 0);
      } else if !InBounds(data.grounds, c, w) {
        return Err(IndexOutside(Vec(c, w)));
      }
      var ground := Install(c, w, allowResize);
      return Ok(ground);
    }

    /** The tail of `AddGround`: the new ground takes the cell, and the holes
        are recounted when the grid may have grown. */
    method Install(c: int, r: int, recount: bool) returns (ground: Ground)
      requires Valid() && InBounds(data.grounds, c, r)
      modifies this, data
      ensures Valid() && fresh(ground) && ground.occupant == null && ground.index == Some(Vec(c, r))
      ensures data.grounds == Put(old(data.grounds), c, r, ground) && GetGround(Some(Vec(c, r))) == ground
      ensures recount ==> data.missingGround == GridHoles(data.grounds)
      ensures !recount ==> data.missingGround == old(data.missingGround)
    {
      ground := PutGround(c, r);
      if recount {
        RecountHoles();
      }
    }

    /** `RemoveGround(ground)`: the cell at the ground's index is nulled, the
        ground (and its occupant) removed, the grid condensed and the holes
        recounted. A ground without an index, or with one outside the grid,
        throws. */
    method RemoveGround(ground: Ground?) returns (error: Option<LayoutError>)
      requires Valid() && (ground != null ==> ground in Grounds)
      modifies data, Grounds, Items
      ensures Valid()
      ensures ground == null ==> error.None? && data.grounds == old(data.grounds)
      ensures ground != null && old(ground.index).None? ==> error == Some(MissingIndex) && data.grounds == old(data.grounds)
      ensures ground != null && old(ground.index).Some? && !old(InBounds(data.grounds, ground.index.value.x, ground.index.value.y)) ==>
        error == Some(IndexOutside(old(ground.index).value)) && data.grounds == old(data.grounds)
      ensures ground != null && old(ground.index).Some? && old(InBounds(data.grounds, ground.index.value.x, ground.index.value.y)) ==>
        && error.None?
        && var at := old(ground.index).value; var cleared := old(data.grounds)[at.x][at.y];
        && Contents(data.grounds) == old(Contents(data.grounds)) - (if cleared.Some? then {cleared.value} else {})
        && ground !in Contents(data.grounds)
        && |data.grounds| > 0 && Rectangular(data.grounds) && Tight(data.grounds)
        && data.missingGround == GridHoles(data.grounds)
    {
      if ground == null {
        return None;
      }
      if ground.index.None? {
        return Some(MissingIndex);
      }
      var at := ground.index.value;
      if !InBounds(data.grounds, at.x, at.y) {
        return Some(IndexOutside(at));
      }
      Unset(ground, at.x, at.y);
      var _ := CondenseGrounds();
      RecountHoles();
      return None;
    }

    /** The first steps of `RemoveGround`: the cell is nulled and the ground
        removed. */
    method Unset(ground: Ground, c: int, r: int)
      requires Valid() && ground in Grounds && InBounds(data.grounds, c, r) && ground.index == Some(Vec(c, r))
      modifies data, ground, ground.occupant
      ensures Valid() && ground.removed && |data.grounds| > 0
      ensures var cleared := old(data.grounds)[c][r];
        Contents(data.grounds) == old(Contents(data.grounds)) - (if cleared.Some? then {cleared.value} else {})
      ensures ground !in Contents(data.grounds)
      ensures data.missingGround == old(data.missingGround)
    {
      ClearContents(data.grounds, c, r);
      data.grounds := Clear(data.grounds, c, r);
      ground.Remove();
    }

    /** `CondenseGrounds`: null columns and rows are dropped, first in front
        and then at the back, so that the first and last column and row each
        hold a ground. No ground is lost. A grid without columns throws when
        its row count is read. */
    method CondenseGrounds() returns (error: Option<LayoutError>)
      requires Valid()
      modifies data, Grounds, Items
      ensures Valid()
      ensures error.Some? <==> old(|data.grounds|) == 0
      ensures error.Some? ==> error == Some(EmptyGrid) && data.grounds == old(data.grounds)
      ensures error.None? ==>
        && |data.grounds| > 0 && Rectangular(data.grounds) && Tight(data.grounds)
        && Contents(data.grounds) == old(Contents(data.grounds))
        && (Occupied(data.grounds) <==> old(Occupied(data.grounds)))
      ensures data.missingGround == old(data.missingGround)
    {
      if |data.grounds| == 0 {
        return Some(EmptyGrid);
      }
      TrimFront();
      TrimBack();
      return None;
    }

    /** The front half of `CondenseGrounds`. */
    method TrimFront()
      requires Valid() && |data.grounds| > 0
      modifies data, Grounds, Items
      ensures Valid() && |data.grounds| > 0 && Rectangular(data.grounds)
      ensures Contents(data.grounds) == old(Contents(data.grounds))
      ensures Occupied(data.grounds) <==> old(Occupied(data.grounds))
      ensures Occupied(data.grounds) ==> !ColumnEmpty(data.grounds[0]) && |data.grounds[0]| > 0 && !RowEmpty(data.grounds, 0)
      ensures data.missingGround == old(data.missingGround)
    {
      var resized := data.CondenseFront();
      if resized {
        Validate();
      }
    }

    /** The back half of `CondenseGrounds`, once the front is tight. */
    method TrimBack()
      requires Valid() && |data.grounds| > 0
      requires Occupied(data.grounds) ==> !ColumnEmpty(data.grounds[0]) && |data.grounds[0]| > 0 && !RowEmpty(data.grounds, 0)
      modifies data, Grounds, Items
      ensures Valid() && |data.grounds| > 0 && Rectangular(data.grounds) && Tight(data.grounds)
      ensures Contents(data.grounds) == old(Contents(data.grounds))
      ensures Occupied(data.grounds) <==> old(Occupied(data.grounds))
      ensures data.missingGround == old(data.missingGround)
    {
      var resized := data.CondenseBack();
      if resized {
        Validate();
      }
    }

    /** The occupants of the grid's grounds are known items. */
    lemma OccupantsKnown()
      requires Consistent()
      ensures Contents(data.grounds) <= Grounds && Occupants(data.grounds) <= Items
    {
    }

    /** The rebuilt active items are known items. */
    lemma ActiveItemsKnown()
      requires Contents(data.grounds) <= Grounds
      requires forall g :: g in Grounds && g.occupant != null ==> g.occupant in Items
      ensures forall i :: i in Present(OccupantGrid(data.grounds)) ==> i in Items
    {
      var g := data.grounds;
      forall i | i in Present(OccupantGrid(g))
        ensures i in Items
      {
        PresentExact(OccupantGrid(g), i);
        var c, r :| InBounds(OccupantGrid(g), c, r) && OccupantGrid(g)[c][r] == Some(i);
        assert g[c][r].value in Contents(g);
      }
    }
  }

  /** The first item in `items` headed for the ground at `p`. */
  function FirstHeadedFor(items: seq<Item>, p: Vec): (r: Item?)
    reads items, Destinations(items)
  {
    if items == [] then null
    else if items[0].destination != null && items[0].destination.index == Some(p) then items[0]
    else FirstHeadedFor(items[1..], p)
  }

  /** The object-level search finds the item whose traversal view the
      value-level search finds. */
  lemma {:induction false} FirstHeadedForAgrees(items: seq<Item>, p: Vec)
    ensures var i := FirstHeadedFor(items, p); var m := Traversal.FirstInbound(Movers(items), p);
      (i == null <==> m.None?) && (i != null ==> i in items && m.value == MoverOf(i))
  {
    if items != [] {
      assert Movers(items)[1..] == Movers(items[1..]);
      FirstHeadedForAgrees(items[1..], p);
    }
  }

  // ----- GameplayManager -----

  /** What the arrival handler does with a box that has arrived: nothing
      when it throws first (no direction, or a blue box without an index or
      with a throwing traversal check); a blue box that can go on queues the
      next cell; otherwise a box matching its marker starts the marker
      animation (and `won` says the level is complete), and any other box
      stops it. */
  datatype Arrival = Aborted | Continues(next: Vec) | Matches(won: bool) | Unmatched

  /** `GameplayManager`: turns selections into player moves and reacts to
      items starting and finishing a move. */
  class GameplayManager {
    const warehouse: WarehouseManager
    const player: Item

    constructor (warehouse: WarehouseManager, player: Item)
      ensures this.warehouse == warehouse && this.player == player
    {
      this.warehouse := warehouse;
      this.player := player;
    }

    /** Where a selection is measured from: the player when idle, else its
        pending destination, else its parent ground. */
    function StepOrigin(): Option<Vec>
      reads player, player.destination, player.parent
    {
      if !player.isMoving then player.index
      else if player.destination != null then player.destination.index
      else if player.parent != null then player.parent.index
      else None
    }

    /** The direction `OnItemSelected` accepts for a selected ground, if any:
        the selection must be one step from the step origin, nothing may be
        headed there already, and the player must be able to go there. */
    function Selection(ground: Ground): Option<MovementType>
      reads player, player.destination, player.parent, ground, warehouse.data, warehouse.BoardFrame()
    {
      var d := Distance(ground.index, StepOrigin());
      if d.None? then None
      else
        var m := AsMovementType(d.value);
        if m.None? || warehouse.GetInboundOccupant(ground.index) != null then None
        else if warehouse.IsTraversable(ground.index.value, m.value, PushStrength(player.kind)) == Ok(true) then m
        else None
    }

    /** A selection is accepted in direction `m` exactly when the ground lies
        one step along `m` from the step origin, no item is headed for it and
        the traversal rule lets the player there. */
    lemma SelectionExact(ground: Ground, m: MovementType)
      ensures Selection(ground) == Some(m) <==>
        && ground.index.Some? && StepOrigin().Some?
        && ground.index.value == StepOrigin().value.Plus(Vector(m))
        && warehouse.GetInboundOccupant(ground.index) == null
        && warehouse.IsTraversable(ground.index.value, m, PushStrength(player.kind)) == Ok(true)
    {
      if ground.index.Some? && StepOrigin().Some? && ground.index.value == StepOrigin().value.Plus(Vector(m)) {
        var d := Distance(ground.index, StepOrigin());
        assert d.value == Vector(m);
        AngleRoundTrip(m);
      }
    }

    /** `OnItemSelected`: an accepted selection becomes the player's
        destination, or its queued destination while it is moving. */
    method OnItemSelected(ground: Ground?)
      requires warehouse.Valid() && player in warehouse.Items && (ground != null ==> ground in warehouse.Grounds)
      modifies player
      ensures warehouse.Valid()
      ensures ground == null || old(Selection(ground)).None? ==> unchanged(player)
      ensures ground != null && old(Selection(ground)).Some? ==>
        if old(player.isMoving) then player.destinationQueue == ground && player.destination == old(player.destination)
        else player.destination == ground && player.destinationQueue == old(player.destinationQueue)
      ensures SamePlace(player) && player.isMoving == old(player.isMoving)
      ensures player.movementDirection == old(player.movementDirection)
    {
      if ground == null || Selection(ground).None? {
        return;
      }
      player.Retarget(warehouse, ground);
    }

    /** `OnStartDestination`: a non-passive occupant of the destination is
        sent one step further in the same direction (to no ground when that
        cell has none). The source throws for an occupant without an index;
        the model then does nothing. That case does not arise in play: an
        occupant takes its ground's index when it is placed (`SetParent`),
        and every ground of the grid is indexed. */
    method OnStartDestination(destination: Ground, item: Item, movement: MovementType)
      requires warehouse.Valid() && destination in warehouse.Grounds
      modifies destination.occupant
      ensures warehouse.Valid()
      ensures var o := old(destination.occupant);
        o != null && !IsPassiveOccupant(o.kind) && old(o.index).Some? ==>
          o.destination == warehouse.GetGround(Some(old(o.index).value.Plus(Vector(movement))))
      ensures var o := old(destination.occupant);
        o != null && !(!IsPassiveOccupant(o.kind) && old(o.index).Some?) ==> o.destination == old(o.destination)
      ensures var o := old(destination.occupant);
        o != null ==> SamePlace(o) && o.isMoving == old(o.isMoving) && o.movementDirection == old(o.movementDirection)
                      && o.destinationQueue == old(o.destinationQueue)
    {
      var o := destination.occupant;
      if o != null && !IsPassiveOccupant(o.kind) && o.index.Some? {
        o.destination := warehouse.GetGround(Some(o.index.value.Plus(Vector(movement))));
      }
    }

    /** What the arrival handler does with `box` once it occupies
        `destination`. */
    function ArrivalOf(destination: Ground, box: Item): Arrival
      reads box, destination, destination.occupant, warehouse.data, warehouse.BoardFrame()
    {
      if box.movementDirection.None? then Aborted
      else
        var m := box.movementDirection.value;
        if box.kind == Box(Blue) && box.index.None? then Aborted
        else
          var next := if box.kind == Box(Blue) then Some(box.index.value.Plus(Vector(m))) else None;
          var traversable := if next.Some? then warehouse.IsTraversable(next.value, m, PushStrength(box.kind)) else Ok(false);
          if traversable.Err? then Aborted
          else if traversable.value then Continues(next.value)
          else if Occupancy.Matched(CellOf(destination)) then Matches(warehouse.HasMarkerWinCondition())
          else Unmatched
    }

    /** `OnItemArriveDestination`: the item becomes the destination's
        occupant (keeping a marker underneath); then a box is handled by
        `OnBoxArrived`. */
    method OnItemArriveDestination(destination: Ground?, item: Item)
      requires warehouse.Valid() && item in warehouse.Items && (destination != null ==> destination in warehouse.Grounds)
      modifies warehouse.data, warehouse.Grounds, warehouse.Items, warehouse.context, warehouse.context.data
      ensures warehouse.Valid() && Unwound(warehouse)
      ensures destination != null ==>
        destination.occupant == item && item.parent == destination && item.index == destination.index
      decreases warehouse.Moving(), 2, 0
    {
      if destination == null {
        return;
      }
      destination.SetOccupant(item, false, warehouse);
      if item.kind.Box? {
        OnBoxArrived(destination, item);
      }
    }

    /** The box part of `OnItemArriveDestination`, once `box` occupies
        `destination`: it does what `ArrivalOf` says. A blue box that can go
        on is queued one step further and its marker animation stops; a box
        matching its marker starts the animation and a win stops the game;
        any other box stops the animation. The source's handler runs
        asynchronously, so where it throws it just stops. */
    method OnBoxArrived(destination: Ground, box: Item)
      requires warehouse.Valid() && box in warehouse.Items
      modifies box, warehouse.context
      ensures warehouse.Valid() && Unwound(warehouse) && OnlyFlags(box)
      ensures match old(ArrivalOf(destination, box))
        case Aborted => box.destinationQueue == old(box.destinationQueue) && box.markerAnimation == old(box.markerAnimation)
        case Continues(next) => box.destinationQueue == old(warehouse.GetGround(Some(next))) && !box.markerAnimation
        case Matches(won) =>
          && box.destinationQueue == old(box.destinationQueue) && box.markerAnimation
          && warehouse.context.isRunning == (old(warehouse.context.isRunning) && !won)
        case Unmatched => box.destinationQueue == old(box.destinationQueue) && !box.markerAnimation
      ensures !old(ArrivalOf(destination, box)).Matches? ==> warehouse.context.isRunning == old(warehouse.context.isRunning)
    {
      ApplyArrival(box, ArrivalOf(destination, box));
    }

    /** What `OnBoxArrived` does to the box and the game for a decided
        `arrival`. */
    method ApplyArrival(box: Item, arrival: Arrival)
      requires warehouse.Valid() && box in warehouse.Items
      modifies box, warehouse.context
      ensures warehouse.Valid() && Unwound(warehouse) && OnlyFlags(box)
      ensures match arrival
        case Aborted => box.destinationQueue == old(box.destinationQueue) && box.markerAnimation == old(box.markerAnimation)
        case Continues(next) => box.destinationQueue == old(warehouse.GetGround(Some(next))) && !box.markerAnimation
        case Matches(won) =>
          && box.destinationQueue == old(box.destinationQueue) && box.markerAnimation
          && warehouse.context.isRunning == (old(warehouse.context.isRunning) && !won)
        case Unmatched => box.destinationQueue == old(box.destinationQueue) && !box.markerAnimation
      ensures !arrival.Matches? ==> warehouse.context.isRunning == old(warehouse.context.isRunning)
    {
      match arrival
      case Aborted =>
      case Continues(next) =>
        box.Flag(warehouse, warehouse.GetGround(Some(next)), false);
      case Matches(won) =>
        box.Flag(warehouse, box.destinationQueue, true);
        if won {
          warehouse.context.SetRunning(false);
        }
      case Unmatched =>
        box.Flag(warehouse, box.destinationQueue, false);
    }
  }
}
