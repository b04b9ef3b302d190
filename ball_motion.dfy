/** The pure geometry of one Ball.Update sub-step (Ball.js): where the ball's centre
    is, how far it is from its cell's centre and leading edge, which of the two it
    reaches first this step, where it ends up and how much of the step is left. */
module BallMotion {
  import opened GameConstants
  import Vec2D
  import GeneralMath

  type Vec = Vec2D.Vec

  /** A ball is three quarters of a cell wide; its radius is half that. */
  const BallSize: real := 36.0
  const Radius: real := 18.0
  /** How far past a centre or an edge the ball is pushed so it does not hit it again. */
  const Overshoot: real := 0.001

  lemma SizesFromCell()
    ensures BallSize == 0.75 * CellSize && Radius == BallSize / 2.0
    ensures HalfCellSize - Radius == 6.0
  {
  }

  /** The direction a ball turns to when it bounces back. */
  function Reverse(d: Direction): (r: Direction)
    ensures r != d
  {
    match d
    case Up => Down
    case Down => Up
    case Left => Right
    case Right => Left
  }

  lemma ReverseInvolution(d: Direction)
    ensures Reverse(Reverse(d)) == d
  {
  }

  /** The position after MoveInCurrentDirection(m) facing d; screen y grows downwards. */
  function Moved(p: Vec, d: Direction, m: real): Vec
  {
    match d
    case Up => p.Add(Vec2D.Vec(0.0, -m))
    case Down => p.Add(Vec2D.Vec(0.0, m))
    case Left => p.Add(Vec2D.Vec(-m, 0.0))
    case Right => p.Add(Vec2D.Vec(m, 0.0))
  }

  /** A move changes one coordinate only, covers distance |m|, is undone by the same
      move in the reverse direction, and two moves add up. */
  lemma MovedAlongAxis(p: Vec, d: Direction, m: real, n: real)
    ensures d == Up ==> Moved(p, d, m) == Vec2D.Vec(p.x, p.y - m)
    ensures d == Down ==> Moved(p, d, m) == Vec2D.Vec(p.x, p.y + m)
    ensures d == Left ==> Moved(p, d, m) == Vec2D.Vec(p.x - m, p.y)
    ensures d == Right ==> Moved(p, d, m) == Vec2D.Vec(p.x + m, p.y)
    ensures p.DistanceToPointSquared(Moved(p, d, m)) == m * m
    ensures Moved(Moved(p, d, m), Reverse(d), m) == p
    ensures Moved(Moved(p, d, m), d, n) == Moved(p, d, m + n)
  {
  }

  /** The distance from p to q along the grid's axes. */
  function Manhattan(p: Vec, q: Vec): (r: real)
    ensures r >= 0.0
  {
    GeneralMath.Abs(q.x - p.x) + GeneralMath.Abs(q.y - p.y)
  }

  /** Going from p to r by way of q is never shorter. */
  lemma ManhattanTriangle(p: Vec, q: Vec, r: Vec)
    ensures Manhattan(p, r) <= Manhattan(p, q) + Manhattan(q, r)
  {
  }

  /** A move of m covers |m| along the axes. */
  lemma MovedDistance(p: Vec, d: Direction, m: real)
    ensures Manhattan(p, Moved(p, d, m)) == GeneralMath.Abs(m)
  {
  }

  /** The ball's centre, from its upper-left corner. */
  function Center(pos: Vec): (c: Vec)
    ensures c.Sub(pos) == Vec2D.Vec(Radius, Radius)
  {
    Vec2D.Vec(pos.x + Radius, pos.y + Radius)
  }

  /** The signed distance still to travel to the cell centre; negative once past it. */
  function DistanceToCenter(c: Vec, cellCenter: Vec, d: Direction): real
  {
    match d
    case Up => c.y - cellCenter.y
    case Down => cellCenter.y - c.y
    case Left => c.x - cellCenter.x
    case Right => cellCenter.x - c.x
  }

  /** The signed distance from the ball's leading side to the cell's leading edge. */
  function DistanceToEdge(c: Vec, cellCenter: Vec, d: Direction): real
  {
    match d
    case Up => (c.y - Radius) - (cellCenter.y - HalfCellSize)
    case Down => (cellCenter.y + HalfCellSize) - (c.y + Radius)
    case Left => (c.x - Radius) - (cellCenter.x - HalfCellSize)
    case Right => (cellCenter.x + HalfCellSize) - (c.x + Radius)
  }

  /** The edge is always six pixels further than the centre. */
  lemma EdgeIsSixPastCenter(c: Vec, cellCenter: Vec, d: Direction)
    ensures DistanceToEdge(c, cellCenter, d) == DistanceToCenter(c, cellCenter, d) + 6.0
  {
  }

  /** Moving m in the travel direction shortens both distances by exactly m. */
  lemma MovingShortensDistances(pos: Vec, cellCenter: Vec, d: Direction, m: real)
    ensures DistanceToCenter(Center(Moved(pos, d, m)), cellCenter, d) ==
      DistanceToCenter(Center(pos), cellCenter, d) - m
    ensures DistanceToEdge(Center(Moved(pos, d, m)), cellCenter, d) ==
      DistanceToEdge(Center(pos), cellCenter, d) - m
  {
  }

  predicate WillHitCenter(dCenter: real, move: real)
  {
    0.0 < dCenter <= move
  }

  /** The edge counts only within one radius: a ball just past the centre is still
      inside its cell. */
  predicate WillHitEdge(dEdge: real, move: real)
  {
    0.0 < dEdge <= move && dEdge <= Radius
  }

  datatype Event = Glide | CenterHit | EdgeHit

  /** The event a sub-step resolves; the centre wins a tie. */
  function Classify(dCenter: real, dEdge: real, move: real): Event
  {
    var hitCenter := WillHitCenter(dCenter, move);
    var hitEdge := WillHitEdge(dEdge, move);
    if !hitCenter && !hitEdge then Glide
    else if (hitCenter && !hitEdge) || (hitCenter && dCenter <= dEdge) then CenterHit
    else EdgeHit
  }

  /** Which event happens, stated through the two tests: a centre that qualifies
      wins unless the edge qualifies and is strictly nearer. */
  lemma ClassifyMeaning(dCenter: real, dEdge: real, move: real)
    ensures Classify(dCenter, dEdge, move) == Glide <==>
      !WillHitCenter(dCenter, move) && !WillHitEdge(dEdge, move)
    ensures Classify(dCenter, dEdge, move) == CenterHit <==>
      WillHitCenter(dCenter, move) && (dCenter <= dEdge || !WillHitEdge(dEdge, move))
    ensures Classify(dCenter, dEdge, move) == EdgeHit <==>
      WillHitEdge(dEdge, move) && (!WillHitCenter(dCenter, move) || dEdge < dCenter)
  {
  }

  /** With the edge six past the centre, the centre is resolved whenever it is in
      reach, and the edge only once the centre is behind the ball (-6 < dCenter <= 0). */
  lemma CenterAlwaysFirst(dCenter: real, move: real)
    ensures Classify(dCenter, dCenter + 6.0, move) == CenterHit <==> WillHitCenter(dCenter, move)
    ensures Classify(dCenter, dCenter + 6.0, move) == EdgeHit <==>
      -6.0 < dCenter <= 0.0 && dCenter + 6.0 <= move
  {
  }

  /** The fraction of the step left after travelling d of move: dt * (1 - d/move). */
  function Remaining(dt: real, d: real, move: real): real
    requires move != 0.0
  {
    dt * (1.0 - d / move)
  }

  lemma QuotientInUnit(d: real, move: real)
    requires 0.0 < d <= move
    ensures 0.0 < d / move <= 1.0
  {
  }

  lemma ScaleBelow(dt: real, f: real)
    requires 0.0 <= f < 1.0
    ensures 0.0 < dt ==> 0.0 <= dt * f < dt
    ensures dt < 0.0 ==> dt < dt * f <= 0.0
    ensures dt == 0.0 ==> dt * f == 0.0
  {
  }

  /** The leftover keeps the sign of dt and is strictly smaller in size, and the
      distance it will cover at the same speed is exactly what was not travelled. */
  lemma RemainingBounds(dt: real, d: real, move: real, speed: real)
    requires 0.0 < d <= move
    ensures 0.0 < dt ==> 0.0 <= Remaining(dt, d, move) < dt
    ensures dt < 0.0 ==> dt < Remaining(dt, d, move) <= 0.0
    ensures dt == 0.0 ==> Remaining(dt, d, move) == 0.0
    ensures move == speed * dt ==> speed * Remaining(dt, d, move) == move - d
  {
    QuotientInUnit(d, move);
    ScaleBelow(dt, 1.0 - d / move);
    if move == speed * dt {
      calc {
        speed * Remaining(dt, d, move);
        speed * dt * (1.0 - d / move);
        move * (1.0 - d / move);
        move - move * (d / move);
        move - d;
      }
    }
  }

  /** The grid cell one step in direction d. */
  function Neighbour(cell: (int, int), d: Direction): (int, int)
  {
    match d
    case Up => (cell.0, cell.1 - 1)
    case Down => (cell.0, cell.1 + 1)
    case Left => (cell.0 - 1, cell.1)
    case Right => (cell.0 + 1, cell.1)
  }

  lemma NeighbourBack(cell: (int, int), d: Direction)
    ensures Neighbour(Neighbour(cell, d), Reverse(d)) == cell
    ensures Neighbour(cell, d) != cell
  {
  }

  datatype Motion = Motion(pos: Vec, direction: Direction)

  /** One sub-step as recorded before the tile reacts: the time it was given, the
      distance speed*dt, the ball before it, the ball's cell and its centre, and
      whether the neighbour in the travel direction refuses the ball. */
  datatype SubStep = SubStep(dt: real, move: real, before: Motion, cell: (int, int),
                             cellCenter: Vec, blocked: bool)
  {
    function ToCenter(): real
    {
      DistanceToCenter(Center(before.pos), cellCenter, before.direction)
    }

    function ToEdge(): real
    {
      DistanceToEdge(Center(before.pos), cellCenter, before.direction)
    }

    function Resolved(): Event
    {
      Classify(ToCenter(), ToEdge(), move)
    }

    /** The distance the ball moves: all of move, centre plus overshoot, or the edge
        with (open neighbour) or without (blocked neighbour) the overshoot. */
    function Travel(): real
    {
      match Resolved()
      case Glide => move
      case CenterHit => ToCenter() + Overshoot
      case EdgeHit => if blocked then ToEdge() else ToEdge() + Overshoot
    }

    /** The ball after the move; only a blocked edge turns it around. */
    function After(): Motion
    {
      var turned := Resolved() == EdgeHit && blocked;
      Motion(Moved(before.pos, before.direction, Travel()),
             if turned then Reverse(before.direction) else before.direction)
    }

    /** The distance that counts as travelled when the leftover time is worked out;
        a glide uses up the whole move. */
    function Consumed(): (d: real)
      ensures Resolved() != Glide ==> 0.0 < d <= move
    {
      match Resolved()
      case Glide => move
      case CenterHit => ToCenter()
      case EdgeHit => ToEdge()
    }

    /** The time the Update goes on with; after a glide there is none. */
    function Leftover(): real
    {
      if Resolved() == Glide then 0.0 else Remaining(dt, Consumed(), move)
    }
  }

  /** A sub-step that hits nothing moves the whole distance and keeps its direction. */
  lemma GlideMovesFully(s: SubStep)
    requires s.Resolved() == Glide
    ensures s.After() == Motion(Moved(s.before.pos, s.before.direction, s.move), s.before.direction)
  {
  }

  /** After a centre hit the ball is Overshoot past the centre, facing the same way. */
  lemma CenterHitPassesCenter(s: SubStep)
    requires s.Resolved() == CenterHit
    ensures s.After().direction == s.before.direction
    ensures DistanceToCenter(Center(s.After().pos), s.cellCenter, s.before.direction) == -Overshoot
  {
    MovingShortensDistances(s.before.pos, s.cellCenter, s.before.direction, s.Travel());
  }

  /** At a blocked edge the ball stops exactly on the edge and turns around; at an
      open edge it goes Overshoot past it and keeps going. */
  lemma EdgeHitOutcome(s: SubStep)
    requires s.Resolved() == EdgeHit
    ensures s.blocked ==> s.After().direction == Reverse(s.before.direction)
    ensures s.blocked ==> DistanceToEdge(Center(s.After().pos), s.cellCenter, s.before.direction) == 0.0
    ensures !s.blocked ==> s.After().direction == s.before.direction
    ensures !s.blocked ==> DistanceToEdge(Center(s.After().pos), s.cellCenter, s.before.direction) == -Overshoot
  {
    MovingShortensDistances(s.before.pos, s.cellCenter, s.before.direction, s.Travel());
  }

  /** A resolved event moves the ball further than it counts as travelled, by the
      overshoot, unless the edge it reached is blocked. */
  lemma TravelExceedsCharge(s: SubStep)
    requires s.Resolved() != Glide
    ensures s.Travel() == s.Consumed() + (if s.Resolved() == EdgeHit && s.blocked then 0.0 else Overshoot)
    ensures Manhattan(s.before.pos, s.After().pos) == s.Travel()
  {
    MovedDistance(s.before.pos, s.before.direction, s.Travel());
  }

  /** A glide moves the ball by exactly |move|. */
  lemma GlideDistance(s: SubStep)
    requires s.Resolved() == Glide
    ensures Manhattan(s.before.pos, s.After().pos) == GeneralMath.Abs(s.move)
  {
    MovedDistance(s.before.pos, s.before.direction, s.move);
  }

  /** The leftover of every resolved event lies in [0, dt) for a positive dt. */
  lemma LeftoverShrinks(s: SubStep, speed: real)
    requires s.Resolved() != Glide
    ensures 0.0 < s.dt ==> 0.0 <= s.Leftover() < s.dt
    ensures s.move == speed * s.dt ==> speed * s.Leftover() == s.move - s.Consumed()
  {
    RemainingBounds(s.dt, s.Consumed(), s.move, speed);
  }
}
