/** The traversal rule of the warehouse (WarehouseManager.IsTraversable), stated
    over a value snapshot of exactly what the rule reads: which cells have ground,
    the kind and moving flag of each occupant, and where each active item is headed. */
module Traversal {
  import opened Wrappers
  import opened MovementTypes
  import opened Kinds

  /** What the rule reads about an occupant. */
  datatype Occupant = Occupant(kind: Kind, isMoving: bool)

  /** One slot of the jagged grid: a hole, or ground with its active occupant. */
  datatype Slot = Hole | Ground(occupant: Option<Occupant>)

  /** An active item: its kind and the index of its warehouse destination. */
  datatype Mover = Mover(kind: Kind, destination: Option<Vec>)

  /** `grounds[column][row]`, column-major, plus the active item list. */
  datatype Board = Board(grounds: seq<seq<Slot>>, activeItems: seq<Mover>)

  /** The exception `HasOccupant` throws for a cell without ground. */
  datatype Error = NoGround(at: Vec)

  predicate HasGround(b: Board, p: Vec)
  {
    0 <= p.x < |b.grounds| && 0 <= p.y < |b.grounds[p.x]| && b.grounds[p.x][p.y].Ground?
  }

  /** `GetOccupant`: the occupant of a cell, throwing where there is no ground. */
  function GetOccupant(b: Board, p: Vec): (r: Result<Option<Occupant>, Error>)
    ensures r.Err? <==> !HasGround(b, p)
  {
    if HasGround(b, p) then Ok(b.grounds[p.x][p.y].occupant) else Err(NoGround(p))
  }

  /** The first mover in `items` headed for `p`. */
  function FirstInbound(items: seq<Mover>, p: Vec): (r: Option<Mover>)
    ensures r.Some? ==> r.value in items && r.value.destination == Some(p)
    ensures r.None? ==> forall i :: 0 <= i < |items| ==> items[i].destination != Some(p)
  {
    if items == [] then None
    else if items[0].destination == Some(p) then Some(items[0])
    else FirstInbound(items[1..], p)
  }

  /** `FirstInbound` returns the first mover headed for `p`: every mover
      before it is headed elsewhere. */
  lemma {:induction false} FirstInboundIsFirst(items: seq<Mover>, p: Vec)
    ensures var r := FirstInbound(items, p);
            r.Some? ==> exists k :: 0 <= k < |items| && items[k] == r.value
                                    && forall j :: 0 <= j < k ==> items[j].destination != Some(p)
  {
    if items != [] && items[0].destination != Some(p) {
      var r := FirstInbound(items, p);
      FirstInboundIsFirst(items[1..], p);
      if r.Some? {
        var k :| 0 <= k < |items[1..]| && items[1..][k] == r.value
                 && forall j :: 0 <= j < k ==> items[1..][j].destination != Some(p);
        assert items[k + 1] == r.value;
        assert forall j :: 0 <= j < k + 1 ==> items[j].destination != Some(p) by {
          forall j | 0 <= j < k + 1
            ensures items[j].destination != Some(p)
          {
            if j > 0 {
              assert items[j] == items[1..][j - 1];
            }
          }
        }
      }
    } else if items != [] {
      assert items[0] == FirstInbound(items, p).value;
    }
  }

  /** `GetInboundOccupant`: the first active item whose destination is `p`. */
  function GetInboundOccupant(b: Board, p: Vec): Option<Mover>
  {
    FirstInbound(b.activeItems, p)
  }

  /** An occupant that does not block: none, a passive one, one already moving,
      or the player. */
  predicate GivesWay(o: Option<Occupant>)
  {
    o.None? || IsPassiveOccupant(o.value.kind) || o.value.isMoving || o.value.kind == Player
  }

  /** The strength a cell lends to a push from behind: the larger of its
      occupant's and its inbound item's push strength (0 for none). */
  function StrengthAt(b: Board, p: Vec): int
    requires HasGround(b, p)
  {
    var o := b.grounds[p.x][p.y].occupant;
    var i := GetInboundOccupant(b, p);
    Max(if o.Some? then PushStrength(o.value.kind) else 0,
        if i.Some? then PushStrength(i.value.kind) else 0)
  }

  function Max(a: int, b: int): int { if a < b then b else a }

  /** Cells left along `m` before leaving the grid; drops by one per step. */
  function Steps(b: Board, p: Vec, m: MovementType): nat
  {
    if !HasGround(b, p) then 0
    else match m
      case Right => |b.grounds| - p.x
      case Left => p.x + 1
      case Up => |b.grounds[p.x]| - p.y
      case Down => p.y + 1
  }

  /** Whether an item may move onto `dest` in direction `m`, pushing what is
      there with `pushStrength`. `Err` is the exception `GetOccupant` throws when
      the destination blocks and the cell behind it has no ground. */
  function IsTraversable(b: Board, dest: Vec, m: MovementType, pushStrength: int): Result<bool, Error>
    decreases Steps(b, dest, m)
  {
    if !HasGround(b, dest) then Ok(false)
    else
      var occupant := b.grounds[dest.x][dest.y].occupant;
      if GivesWay(occupant) then Ok(true)
      else
        var origin := dest.Minus(Vector(m));
        if !HasGround(b, origin) then Err(NoGround(origin))
        else
          var s := Max(pushStrength, StrengthAt(b, origin)) - 1;
          if IsPushable(occupant.value.kind) && s >= 0 then
            IsTraversable(b, dest.Plus(Vector(m)), m, s)
          else Ok(false)
  }

  /** A cell holding a box that blocks and can be pushed. */
  predicate ChainCell(b: Board, p: Vec)
  {
    HasGround(b, p) && !GivesWay(b.grounds[p.x][p.y].occupant)
      && IsPushable(b.grounds[p.x][p.y].occupant.value.kind)
  }

  /** A cell with ground whose occupant gives way. */
  predicate Open(b: Board, p: Vec)
  {
    HasGround(b, p) && GivesWay(b.grounds[p.x][p.y].occupant)
  }

  /** The number of consecutive pushable blockers from `p` along `m`. */
  function ChainLength(b: Board, p: Vec, m: MovementType): nat
    decreases Steps(b, p, m)
  {
    if ChainCell(b, p) then 1 + ChainLength(b, p.Plus(Vector(m)), m) else 0
  }

  /** The cell right after the chain that starts at `p` is open. */
  predicate EndsOpen(b: Board, p: Vec, m: MovementType)
    decreases Steps(b, p, m)
  {
    if ChainCell(b, p) then EndsOpen(b, p.Plus(Vector(m)), m) else Open(b, p)
  }

  /** No cell of the chain except its last lends any strength to the push. */
  predicate Unboosted(b: Board, p: Vec, m: MovementType)
    decreases Steps(b, p, m)
  {
    ChainCell(b, p) ==>
      (ChainCell(b, p.Plus(Vector(m))) ==> StrengthAt(b, p) == 0) && Unboosted(b, p.Plus(Vector(m)), m)
  }

  /** No ground: never traversable, whatever the push strength. */
  lemma NoGroundBlocks(b: Board, dest: Vec, m: MovementType, s: int)
    requires !HasGround(b, dest)
    ensures IsTraversable(b, dest, m, s) == Ok(false)
  {
  }

  /** An empty cell, a marker, a moving item or the player: always traversable. */
  lemma OpenIsTraversable(b: Board, dest: Vec, m: MovementType, s: int)
    requires Open(b, dest)
    ensures IsTraversable(b, dest, m, s) == Ok(true)
  {
  }

  /** When the cell behind the destination has ground the rule never throws; so
      no recursive call throws, since its back cell is the previous destination. */
  lemma {:induction false} NeverThrowsFromGround(b: Board, dest: Vec, m: MovementType, s: int)
    requires HasGround(b, dest.Minus(Vector(m)))
    ensures IsTraversable(b, dest, m, s).Ok?
    decreases Steps(b, dest, m)
  {
    if HasGround(b, dest) && !GivesWay(b.grounds[dest.x][dest.y].occupant) {
      var next := dest.Plus(Vector(m));
      assert next.Minus(Vector(m)) == dest;
      var s' := Max(s, StrengthAt(b, dest.Minus(Vector(m)))) - 1;
      if IsPushable(b.grounds[dest.x][dest.y].occupant.value.kind) && s' >= 0 {
        NeverThrowsFromGround(b, next, m, s');
      }
    }
  }

  /** The rule throws exactly when the destination blocks and the cell behind it
      has no ground. */
  lemma ThrowsExactly(b: Board, dest: Vec, m: MovementType, s: int)
    ensures IsTraversable(b, dest, m, s).Err? <==>
      (HasGround(b, dest) && !GivesWay(b.grounds[dest.x][dest.y].occupant)
        && !HasGround(b, dest.Minus(Vector(m))))
  {
    if HasGround(b, dest.Minus(Vector(m))) {
      NeverThrowsFromGround(b, dest, m, s);
    }
  }

  /** More push strength never turns a traversable move into a blocked one. */
  lemma {:induction false} StrengthMonotone(b: Board, dest: Vec, m: MovementType, s1: int, s2: int)
    requires s1 <= s2
    requires IsTraversable(b, dest, m, s1) == Ok(true)
    ensures IsTraversable(b, dest, m, s2) == Ok(true)
    decreases Steps(b, dest, m)
  {
    if HasGround(b, dest) && !GivesWay(b.grounds[dest.x][dest.y].occupant) {
      var origin := dest.Minus(Vector(m));
      var t1 := Max(s1, StrengthAt(b, origin)) - 1;
      var t2 := Max(s2, StrengthAt(b, origin)) - 1;
      StrengthMonotone(b, dest.Plus(Vector(m)), m, t1, t2);
    }
  }

  /** Gray and red boxes never move, whatever pushes them. */
  lemma ImmovableBlocks(b: Board, dest: Vec, m: MovementType, s: int)
    requires HasGround(b, dest)
    requires b.grounds[dest.x][dest.y].occupant == Some(Occupant(Box(Gray), false))
          || b.grounds[dest.x][dest.y].occupant == Some(Occupant(Box(Red), false))
    ensures IsTraversable(b, dest, m, s) != Ok(true)
  {
  }

  /** The exact rule for a chain that nothing boosts: a push from a cell lending
      at most `s` succeeds iff the chain of pushable boxes ends in an open cell
      and is no longer than `s`. */
  lemma {:induction false} UnboostedChain(b: Board, p: Vec, m: MovementType, s: int)
    requires HasGround(b, p.Minus(Vector(m))) && StrengthAt(b, p.Minus(Vector(m))) <= s
    requires Unboosted(b, p, m)
    ensures IsTraversable(b, p, m, s)
      == Ok(EndsOpen(b, p, m) && (ChainLength(b, p, m) == 0 || ChainLength(b, p, m) <= s))
    decreases Steps(b, p, m)
  {
    var next := p.Plus(Vector(m));
    if ChainCell(b, p) {
      ChainStep(b, p, m, s);
      assert ChainLength(b, p, m) == 1 + ChainLength(b, next, m);
      assert EndsOpen(b, p, m) == EndsOpen(b, next, m);
      if s >= 1 {
        assert next.Minus(Vector(m)) == p;
        if ChainCell(b, next) {
          assert StrengthAt(b, p) == 0 && Unboosted(b, next, m);
          UnboostedChain(b, next, m, s - 1);
        } else {
          assert ChainLength(b, next, m) == 0 && EndsOpen(b, next, m) == Open(b, next);
          ChainEnd(b, next, m, s - 1);
        }
      }
    } else {
      assert ChainLength(b, p, m) == 0 && EndsOpen(b, p, m) == Open(b, p);
      ChainEnd(b, p, m, s);
    }
  }

  /** A push into a chain cell passes on one less than the push strength, the
      cell behind lending no more than the push already has. */
  lemma ChainStep(b: Board, p: Vec, m: MovementType, s: int)
    requires ChainCell(b, p)
    requires HasGround(b, p.Minus(Vector(m))) && StrengthAt(b, p.Minus(Vector(m))) <= s
    ensures IsTraversable(b, p, m, s) == if s >= 1 then IsTraversable(b, p.Plus(Vector(m)), m, s - 1) else Ok(false)
  {
    assert Max(s, StrengthAt(b, p.Minus(Vector(m)))) == s;
  }

  /** Past the chain, with ground behind, the move succeeds exactly when the
      cell is open. */
  lemma ChainEnd(b: Board, p: Vec, m: MovementType, s: int)
    requires HasGround(b, p.Minus(Vector(m))) && !ChainCell(b, p)
    ensures IsTraversable(b, p, m, s) == Ok(Open(b, p))
  {
  }

  /** The player (strength 1) pushes one box of an unboosted colour into an
      open cell. */
  lemma PlayerPushesOneBox(b: Board, dest: Vec, m: MovementType, c: BoxType)
    requires c != Red && c != Gray && c != Blue
    requires HasGround(b, dest) && b.grounds[dest.x][dest.y].occupant == Some(Occupant(Box(c), false))
    requires HasGround(b, dest.Minus(Vector(m))) && StrengthAt(b, dest.Minus(Vector(m))) <= PushStrength(Player)
    requires Open(b, dest.Plus(Vector(m)))
    ensures IsTraversable(b, dest, m, PushStrength(Player)) == Ok(true)
  {
    var next := dest.Plus(Vector(m));
    assert !ChainCell(b, next);
    assert ChainLength(b, dest, m) == 1;
    assert EndsOpen(b, dest, m);
    UnboostedChain(b, dest, m, PushStrength(Player));
  }

  /** The player cannot push two boxes in a row when nothing behind the first one
      lends strength. */
  lemma PlayerCannotPushTwo(b: Board, dest: Vec, m: MovementType)
    requires HasGround(b, dest) && !GivesWay(b.grounds[dest.x][dest.y].occupant)
    requires StrengthAt(b, dest) == 0
    requires HasGround(b, dest.Plus(Vector(m))) && !GivesWay(b.grounds[dest.x + Vector(m).x][dest.y + Vector(m).y].occupant)
    requires HasGround(b, dest.Minus(Vector(m))) && StrengthAt(b, dest.Minus(Vector(m))) <= PushStrength(Player)
    ensures IsTraversable(b, dest, m, PushStrength(Player)) == Ok(false)
  {
    var next := dest.Plus(Vector(m));
    assert next.Minus(Vector(m)) == dest;
  }

  /** Only the larger of the requested strength and the strength lent from behind
      matters. */
  lemma StrengthFromBehind(b: Board, dest: Vec, m: MovementType, s: int)
    requires HasGround(b, dest.Minus(Vector(m)))
    ensures IsTraversable(b, dest, m, s) == IsTraversable(b, dest, m, Max(s, StrengthAt(b, dest.Minus(Vector(m)))))
  {
  }

  /** Every cell lends between 0 and `MaxSize`. */
  lemma StrengthAtBounds(b: Board, p: Vec)
    requires HasGround(b, p)
    ensures 0 <= StrengthAt(b, p) <= MaxSize
  {
    var o := b.grounds[p.x][p.y].occupant;
    var i := GetInboundOccupant(b, p);
    if o.Some? { StrengthTable(o.value.kind); }
    if i.Some? { StrengthTable(i.value.kind); }
  }

  /** The player pushing a resting blue box moves it together with up to
      `MaxSize` unboosted boxes lined up behind it: the blue box lends its own
      strength to the push of the boxes in front of it. */
  lemma BlueBoxPushesChain(b: Board, dest: Vec, m: MovementType)
    requires HasGround(b, dest) && b.grounds[dest.x][dest.y].occupant == Some(Occupant(Box(Blue), false))
    requires HasGround(b, dest.Minus(Vector(m))) && StrengthAt(b, dest.Minus(Vector(m))) <= PushStrength(Player)
    requires Unboosted(b, dest.Plus(Vector(m)), m)
    ensures IsTraversable(b, dest, m, PushStrength(Player))
      == Ok(EndsOpen(b, dest.Plus(Vector(m)), m) && ChainLength(b, dest.Plus(Vector(m)), m) <= MaxSize)
  {
    var next := dest.Plus(Vector(m));
    assert next.Minus(Vector(m)) == dest;
    StrengthAtBounds(b, dest);
    assert StrengthAt(b, dest) == MaxSize;
    assert IsTraversable(b, dest, m, PushStrength(Player)) == IsTraversable(b, next, m, 0);
    StrengthFromBehind(b, next, m, 0);
    UnboostedChain(b, next, m, MaxSize);
  }
}
