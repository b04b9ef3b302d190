/** The whole of one Ball.Update (Ball.js) as a function of what the ball can see:
    the grid geometry and, per cell, the tile kind and a switch's current direction.
    Nothing a collision changes (crack state, the active-ball list, the game state)
    feeds back into where the ball goes, so the trajectory is a value of its own. */
module BallTrajectory {
  import opened Wrappers
  import opened GameConstants
  import opened TileKinds
  import opened BallMotion
  import GeneralMath
  import GridGeometry

  /** What a moving ball reads from a tile. */
  datatype TileView = TileView(kind: Kind, facing: Direction)

  /** The level as the ball sees it: the grid geometry and the tile in each occupied
      cell; a cell without an entry is empty (null). */
  datatype Board = Board(upperLeft: Vec, width: int, height: int, cells: map<(int, int), TileView>)
  {
    /** GetLevelObjectAtGridCoords: out of bounds reads as empty. */
    function At(c: (int, int)): Option<TileView>
    {
      if 0 <= c.0 < width && 0 <= c.1 < height && c in cells then Some(cells[c]) else None
    }
  }

  /** The ball's direction after the tile's OnBallCollision: an arrow turns a
      compatible ball its way, a switch turns it the way the switch currently points,
      and every other tile leaves it alone. */
  function Deflect(t: TileView, flavor: Flavor, d: Direction): (r: Direction)
    ensures t.kind.Arrow? && Interacts(flavor, t.kind.flavor) ==> r == t.kind.direction
    ensures t.kind.Switch? && Interacts(flavor, t.kind.flavor) ==> r == t.facing
    ensures !((t.kind.Arrow? || t.kind.Switch?) && Interacts(flavor, t.kind.flavor)) ==> r == d
  {
    match t.kind
    case Arrow(dir, f) => if Interacts(flavor, f) then dir else d
    case Switch(_, _, f) => if Interacts(flavor, f) then t.facing else d
    case _ => d
  }

  /** The neighbour refuses the ball: there is a tile and its CanBallEnter is false.
      An empty or out-of-bounds neighbour does not block. */
  predicate Blocks(t: Option<TileView>)
  {
    t.Some? && !AdmitsBalls(t.value.kind)
  }

  /** Why an Update stopped: the centre left the grid, the move was (nearly) zero,
      the ball moved freely to the end of dt, it passed the centre of an empty cell,
      or the sub-step bound ran out. */
  datatype Stop = OffGrid | Still | Glided | FellOff | Exhausted

  /** A resolved centre or edge event: the sub-step, the ball after it (turned by the
      tile at a centre), the distance it counts as travelled and the time left. */
  datatype Hop = Hop(step: SubStep, motion: Motion, travelled: real, leftover: real)

  /** One sub-step: either the Update ends here, or an event was resolved and the
      Update carries on with the leftover time. */
  datatype Next =
    | Halt(motion: Motion, stop: Stop)
    | Continue(hop: Hop)
  {
    /** The ball after this sub-step. */
    function Ball(): Motion
    {
      if Halt? then motion else hop.motion
    }
  }

  /** The sub-step of a ball whose centre lies in `cell`, moving speed*dt. */
  function StepIn(b: Board, m: Motion, speed: real, dt: real, cell: (int, int)): SubStep
  {
    SubStep(dt, speed * dt, m, cell, GridGeometry.CellCenter(b.upperLeft, cell),
            Blocks(b.At(Neighbour(cell, m.direction))))
  }

  /** One pass through the body of Ball.Update, up to the recursive call. */
  function Advance(b: Board, m: Motion, flavor: Flavor, speed: real, dt: real): Next
  {
    AdvanceFrom(b, m, flavor, speed, dt, GridGeometry.GridCoords(b.upperLeft, b.width, b.height, Center(m.pos)))
  }

  /** The same pass once the cell holding the ball's centre has been looked up. */
  function AdvanceFrom(b: Board, m: Motion, flavor: Flavor, speed: real, dt: real, cell: Option<(int, int)>): Next
  {
    if cell.None? then Halt(m, OffGrid)
    else if GeneralMath.ApproxEqual(speed * dt, 0.0) then Halt(m, Still)
    else Outcome(StepIn(b, m, speed, dt, cell.value), b.At(cell.value), flavor)
  }

  /** How a sub-step ends, given the tile (if any) in the ball's cell: a glide ends
      the Update, a centre hit fails on an empty cell and otherwise turns the ball by
      the tile, and an edge hit goes on with the ball as the move left it. */
  function Outcome(s: SubStep, tile: Option<TileView>, flavor: Flavor): Next
  {
    match s.Resolved()
    case Glide => Halt(s.After(), Glided)
    case CenterHit =>
      if tile.None? then Halt(s.After(), FellOff)
      else
        var turned := Motion(s.After().pos, Deflect(tile.value, flavor, s.After().direction));
        Continue(Hop(s, turned, s.Consumed(), s.Leftover()))
    case EdgeHit => Continue(Hop(s, s.After(), s.Consumed(), s.Leftover()))
  }

  /** A resolved event starts from the ball it was given, with the time it was given. */
  predicate Follows(h: Hop, m: Motion, dt: real)
  {
    h.step.before == m && h.step.dt == dt
  }

  /** A resolved event counts a distance in (0, speed*dt] and leaves exactly the time
      that covers the rest of speed*dt at the same speed, less time than it was given. */
  predicate Accounts(h: Hop, speed: real, dt: real)
  {
    0.0 < h.travelled <= speed * dt && speed * h.leftover == speed * dt - h.travelled &&
    (0.0 < dt ==> 0.0 <= h.leftover < dt) && dt != 0.0
  }

  /** The arithmetic of one resolved sub-step. */
  lemma StepAccounts(s: SubStep, motion: Motion, speed: real)
    requires s.Resolved() != Glide && s.move == speed * s.dt && s.move != 0.0
    ensures Accounts(Hop(s, motion, s.Consumed(), s.Leftover()), speed, s.dt)
  {
    LeftoverShrinks(s, speed);
  }

  lemma NotNearZero(x: real)
    requires !GeneralMath.ApproxEqual(x, 0.0)
    ensures x != 0.0
  {
  }

  lemma AdvanceFromFacts(b: Board, m: Motion, flavor: Flavor, speed: real, dt: real, cell: Option<(int, int)>)
    ensures var n := AdvanceFrom(b, m, flavor, speed, dt, cell);
      (n.Halt? ==> n.stop != Exhausted) &&
      (n.Continue? ==> Follows(n.hop, m, dt) && Accounts(n.hop, speed, dt))
  {
    if cell.Some? && !GeneralMath.ApproxEqual(speed * dt, 0.0) {
      var s := StepIn(b, m, speed, dt, cell.value);
      NotNearZero(speed * dt);
      assert s.move == speed * s.dt;
      assert s.move != 0.0;
      var n := AdvanceFrom(b, m, flavor, speed, dt, cell);
      if n.Continue? {
        assert n.hop.step == s && n.hop.travelled == s.Consumed() && n.hop.leftover == s.Leftover();
        StepAccounts(s, n.hop.motion, speed);
      }
    }
  }

  lemma AdvanceFacts(b: Board, m: Motion, flavor: Flavor, speed: real, dt: real)
    ensures var n := Advance(b, m, flavor, speed, dt);
      (n.Halt? ==> n.stop != Exhausted) &&
      (n.Continue? ==> Follows(n.hop, m, dt) && Accounts(n.hop, speed, dt))
  {
    AdvanceFromFacts(b, m, flavor, speed, dt, GridGeometry.GridCoords(b.upperLeft, b.width, b.height, Center(m.pos)));
  }

  lemma StepInAt(b: Board, m: Motion, speed: real, dt: real, cell: (int, int), cellCenter: Vec, blocked: bool)
    requires cellCenter == GridGeometry.CellCenter(b.upperLeft, cell)
    requires blocked == Blocks(b.At(Neighbour(cell, m.direction)))
    ensures StepIn(b, m, speed, dt, cell) == SubStep(dt, speed * dt, m, cell, cellCenter, blocked)
  {
  }

  /** A sub-step function: Advance on a fixed board, flavour and speed. */
  type Stepper = (Motion, real) -> Next

  function Stepping(b: Board, flavor: Flavor, speed: real): Stepper
  {
    (m: Motion, dt: real) => Advance(b, m, flavor, speed, dt)
  }

  /** What the run lemmas need of a sub-step function. */
  ghost predicate Sound(advance: Stepper, speed: real)
  {
    forall m: Motion, dt: real ::
      (advance(m, dt).Halt? ==> advance(m, dt).stop != Exhausted) &&
      (advance(m, dt).Continue? ==> Follows(advance(m, dt).hop, m, dt) && Accounts(advance(m, dt).hop, speed, dt))
  }

  lemma SteppingSound(b: Board, flavor: Flavor, speed: real)
    ensures Sound(Stepping(b, flavor, speed), speed)
  {
    forall m: Motion, dt: real
      ensures var n := Stepping(b, flavor, speed)(m, dt);
        (n.Halt? ==> n.stop != Exhausted) &&
        (n.Continue? ==> Follows(n.hop, m, dt) && Accounts(n.hop, speed, dt))
    {
      AdvanceFacts(b, m, flavor, speed, dt);
    }
  }

  /** The result of a whole Update: the final ball, why it stopped, the resolved
      events in order, and the time the stopping sub-step was given. */
  datatype Trip = Trip(motion: Motion, stop: Stop, hops: seq<Hop>, left: real)

  /** The recursion of Ball.Update, at most fuel sub-steps deep; the source recurses
      without a bound. */
  function Run(advance: Stepper, m: Motion, dt: real, fuel: nat): (r: Trip)
    ensures |r.hops| <= fuel
    decreases fuel
  {
    if fuel == 0 then Trip(m, Exhausted, [], dt)
    else
      match advance(m, dt)
      case Halt(m', stop) => Trip(m', stop, [], dt)
      case Continue(h) =>
        var r := Run(advance, h.motion, h.leftover, fuel - 1);
        Trip(r.motion, r.stop, [h] + r.hops, r.left)
  }

  /** The Update of a ball on a board. */
  function Trajectory(b: Board, m: Motion, flavor: Flavor, speed: real, dt: real, fuel: nat): Trip
  {
    Run(Stepping(b, flavor, speed), m, dt, fuel)
  }

  /** The bound is what ends a run exactly when it is used up: a run stops for
      another reason only before it has taken fuel events. */
  lemma {:induction false} RunExhausted(advance: Stepper, speed: real, m: Motion, dt: real, fuel: nat)
    requires Sound(advance, speed)
    ensures Run(advance, m, dt, fuel).stop == Exhausted ==> |Run(advance, m, dt, fuel).hops| == fuel
    decreases fuel
  {
    if fuel > 0 && advance(m, dt).Continue? {
      var h := advance(m, dt).hop;
      RunExhausted(advance, speed, h.motion, h.leftover, fuel - 1);
    }
  }

  /** A run that did not run out of sub-steps ends the same way with any larger
      bound: the bound only matters to runs that exhaust it. */
  lemma {:induction false} FuelSuffices(advance: Stepper, m: Motion, dt: real, fuel: nat, more: nat)
    requires fuel <= more
    requires Run(advance, m, dt, fuel).stop != Exhausted
    ensures Run(advance, m, dt, more) == Run(advance, m, dt, fuel)
    decreases fuel
  {
    if advance(m, dt).Continue? {
      var h := advance(m, dt).hop;
      FuelSuffices(advance, h.motion, h.leftover, fuel - 1, more - 1);
    }
  }

  /** The distance the resolved events count as travelled. */
  function Travelled(hops: seq<Hop>): real
    decreases |hops|
  {
    if |hops| == 0 then 0.0 else hops[0].travelled + Travelled(hops[1..])
  }

  /** No distance is lost or made up: what the resolved events count as travelled plus
      the distance the last sub-step was given add up to speed*dt, and for a
      non-negative dt the time left only shrinks. */
  lemma {:induction false} RunAccounting(advance: Stepper, speed: real, m: Motion, dt: real, fuel: nat)
    requires Sound(advance, speed)
    ensures var r := Run(advance, m, dt, fuel);
      Travelled(r.hops) + speed * r.left == speed * dt &&
      (0.0 <= dt ==> 0.0 <= r.left <= dt)
    decreases fuel
  {
    if fuel > 0 && advance(m, dt).Continue? {
      var h := advance(m, dt).hop;
      RunAccounting(advance, speed, h.motion, h.leftover, fuel - 1);
      var r := Run(advance, h.motion, h.leftover, fuel - 1);
      assert ([h] + r.hops)[1..] == r.hops;
    }
  }

  /** How far one sub-step moves the ball: a resolved event at most the distance it
      counts as travelled plus the overshoot, and a sub-step that ends the Update at
      most |speed*dt|, plus the overshoot when it passes an empty cell's centre. */
  predicate MovesWithin(m: Motion, n: Next, speed: real, dt: real)
  {
    (n.Halt? ==>
      Manhattan(m.pos, n.motion.pos) <= GeneralMath.Abs(speed * dt) + (if n.stop == FellOff then Overshoot else 0.0)) &&
    (n.Continue? ==> Manhattan(m.pos, n.hop.motion.pos) <= n.hop.travelled + Overshoot)
  }

  ghost predicate Bounded(advance: Stepper, speed: real)
  {
    forall m: Motion, dt: real :: MovesWithin(m, advance(m, dt), speed, dt)
  }

  lemma AdvanceFromBounded(b: Board, m: Motion, flavor: Flavor, speed: real, dt: real, cell: Option<(int, int)>)
    ensures MovesWithin(m, AdvanceFrom(b, m, flavor, speed, dt, cell), speed, dt)
  {
    if cell.Some? && !GeneralMath.ApproxEqual(speed * dt, 0.0) {
      var s := StepIn(b, m, speed, dt, cell.value);
      assert s.before == m && s.move == speed * dt;
      if s.Resolved() == Glide {
        GlideDistance(s);
      } else {
        TravelExceedsCharge(s);
      }
    }
  }

  lemma AdvanceBounded(b: Board, m: Motion, flavor: Flavor, speed: real, dt: real)
    ensures MovesWithin(m, Advance(b, m, flavor, speed, dt), speed, dt)
  {
    AdvanceFromBounded(b, m, flavor, speed, dt, GridGeometry.GridCoords(b.upperLeft, b.width, b.height, Center(m.pos)));
  }

  lemma SteppingBounded(b: Board, flavor: Flavor, speed: real)
    ensures Bounded(Stepping(b, flavor, speed), speed)
  {
    forall m: Motion, dt: real
      ensures MovesWithin(m, Stepping(b, flavor, speed)(m, dt), speed, dt)
    {
      AdvanceBounded(b, m, flavor, speed, dt);
    }
  }

  /** The arithmetic of one resolved event followed by the rest of the run. */
  lemma HopThenRest(first: real, rest: real, travelled: real, move: real, left: real, k: nat)
    requires first <= travelled + Overshoot && 0.0 < travelled <= move && left == move - travelled
    requires rest <= GeneralMath.Abs(left) + Overshoot * k as real
    ensures first + rest <= GeneralMath.Abs(move) + Overshoot * (k + 1) as real
  {
  }

  /** How many times a run moved the ball past the distance it counted: once per
      resolved event, and once more when it ended on an empty cell's centre. */
  function Overshoots(r: Trip): nat
  {
    |r.hops| + (if r.stop == FellOff then 1 else 0)
  }

  lemma StepFacts(advance: Stepper, speed: real, m: Motion, dt: real)
    requires Sound(advance, speed) && Bounded(advance, speed)
    ensures MovesWithin(m, advance(m, dt), speed, dt)
    ensures advance(m, dt).Continue? ==> Accounts(advance(m, dt).hop, speed, dt)
  {
  }

  /** The run from m ends at most |speed*dt| from m along the axes, plus one
      overshoot per push past a centre or an open edge. */
  predicate WithinReach(advance: Stepper, speed: real, m: Motion, dt: real, fuel: nat)
  {
    var r := Run(advance, m, dt, fuel);
    Manhattan(m.pos, r.motion.pos) <= GeneralMath.Abs(speed * dt) + Overshoot * Overshoots(r) as real
  }

  /** A run that stops at once stays within the bound. */
  lemma HaltDisplacement(advance: Stepper, speed: real, m: Motion, dt: real, fuel: nat)
    requires Sound(advance, speed) && Bounded(advance, speed)
    requires fuel == 0 || advance(m, dt).Halt?
    ensures WithinReach(advance, speed, m, dt, fuel)
  {
    if fuel > 0 {
      StepFacts(advance, speed, m, dt);
    }
  }

  /** A run whose first sub-step resolves an event stays within the bound when the
      rest of it does. */
  lemma ContinueDisplacement(advance: Stepper, speed: real, m: Motion, dt: real, fuel: nat)
    requires fuel > 0 && advance(m, dt).Continue?
    requires MovesWithin(m, advance(m, dt), speed, dt) && Accounts(advance(m, dt).hop, speed, dt)
    requires WithinReach(advance, speed, advance(m, dt).hop.motion, advance(m, dt).hop.leftover, fuel - 1)
    ensures WithinReach(advance, speed, m, dt, fuel)
  {
    var h := advance(m, dt).hop;
    var r := Run(advance, h.motion, h.leftover, fuel - 1);
    assert Run(advance, m, dt, fuel) == Trip(r.motion, r.stop, [h] + r.hops, r.left);
    HopDisplacement(m, h, r, speed, dt);
  }

  /** A resolved event followed by the rest of the run stays within the bound. */
  lemma HopDisplacement(m: Motion, h: Hop, r: Trip, speed: real, dt: real)
    requires Accounts(h, speed, dt) && Manhattan(m.pos, h.motion.pos) <= h.travelled + Overshoot
    requires Manhattan(h.motion.pos, r.motion.pos) <= GeneralMath.Abs(speed * h.leftover) + Overshoot * Overshoots(r) as real
    ensures var t := Trip(r.motion, r.stop, [h] + r.hops, r.left);
      Manhattan(m.pos, t.motion.pos) <= GeneralMath.Abs(speed * dt) + Overshoot * Overshoots(t) as real
  {
    ManhattanTriangle(m.pos, h.motion.pos, r.motion.pos);
    HopThenRest(Manhattan(m.pos, h.motion.pos), Manhattan(h.motion.pos, r.motion.pos),
                h.travelled, speed * dt, speed * h.leftover, Overshoots(r));
  }

  /** Where a run leaves the ball: at most |speed*dt| from where it started along the
      axes, plus the overshoot of every event that pushed the ball past a centre or
      an open edge. */
  lemma {:induction false} RunDisplacement(advance: Stepper, speed: real, m: Motion, dt: real, fuel: nat)
    requires Sound(advance, speed) && Bounded(advance, speed)
    ensures WithinReach(advance, speed, m, dt, fuel)
    decreases fuel
  {
    if fuel > 0 && advance(m, dt).Continue? {
      RunDisplacement(advance, speed, advance(m, dt).hop.motion, advance(m, dt).hop.leftover, fuel - 1);
      StepFacts(advance, speed, m, dt);
      ContinueDisplacement(advance, speed, m, dt, fuel);
    } else {
      HaltDisplacement(advance, speed, m, dt, fuel);
    }
  }

  /** The Update of a ball on a board moves it at most |speed*dt| along the axes, plus
      the overshoots. */
  lemma TrajectoryDisplacement(b: Board, m: Motion, flavor: Flavor, speed: real, dt: real, fuel: nat)
    ensures var r := Trajectory(b, m, flavor, speed, dt, fuel);
      Manhattan(m.pos, r.motion.pos) <= GeneralMath.Abs(speed * dt) + Overshoot * Overshoots(r) as real
  {
    SteppingSound(b, flavor, speed);
    SteppingBounded(b, flavor, speed);
    RunDisplacement(Stepping(b, flavor, speed), speed, m, dt, fuel);
  }

  /** The events follow on from each other: each starts where the one before left the
      ball, with the time it left, and the first from the starting ball with dt. */
  predicate Chain(m: Motion, dt: real, hops: seq<Hop>)
    decreases |hops|
  {
    |hops| == 0 ||
    (Follows(hops[0], m, dt) && Chain(hops[0].motion, hops[0].leftover, hops[1..]))
  }

  lemma {:induction false} RunChains(advance: Stepper, speed: real, m: Motion, dt: real, fuel: nat)
    requires Sound(advance, speed)
    ensures Chain(m, dt, Run(advance, m, dt, fuel).hops)
    decreases fuel
  {
    if fuel > 0 && advance(m, dt).Continue? {
      var h := advance(m, dt).hop;
      RunChains(advance, speed, h.motion, h.leftover, fuel - 1);
      var r := Run(advance, h.motion, h.leftover, fuel - 1);
      assert ([h] + r.hops)[1..] == r.hops;
    }
  }

  /** A sub-step in which the ball reaches its cell's centre, the only place a tile
      reacts to it. */
  predicate HitsCenter(n: Next)
  {
    (n.Halt? && n.stop == FellOff) || (n.Continue? && n.hop.step.Resolved() == CenterHit)
  }

  /** advance is the sub-step function of a ball of this flavour and speed on board b.
      The trigger lets the equation be used only where a pass of Advance is named. */
  ghost predicate Models(advance: Stepper, b: Board, flavor: Flavor, speed: real)
  {
    forall m: Motion, dt: real {:trigger Advance(b, m, flavor, speed, dt)} :: advance(m, dt) == Advance(b, m, flavor, speed, dt)
  }

  lemma SteppingModels(b: Board, flavor: Flavor, speed: real)
    ensures Models(Stepping(b, flavor, speed), b, flavor, speed)
  {
  }

  /** The first sub-step, once the pass has looked up the ball's cell. */
  lemma ModelsAt(advance: Stepper, b: Board, flavor: Flavor, speed: real, m: Motion, dt: real, cell: Option<(int, int)>)
    requires Models(advance, b, flavor, speed)
    requires cell == GridGeometry.GridCoords(b.upperLeft, b.width, b.height, Center(m.pos))
    ensures advance(m, dt) == AdvanceFrom(b, m, flavor, speed, dt, cell)
  {
    assert Advance(b, m, flavor, speed, dt) == AdvanceFrom(b, m, flavor, speed, dt, cell);
  }

  /** A run after its first sub-step: it ends where the rest of the run ends, and
      reaches no centre exactly when neither the sub-step nor the rest does. */
  lemma RunFirst(advance: Stepper, m: Motion, dt: real, fuel: nat)
    requires fuel > 0
    ensures var n := advance(m, dt);
      var t := Run(advance, m, dt, fuel);
      n.Halt? ==> t.motion == n.motion && t.stop == n.stop && (AvoidsCenters(t) <==> !HitsCenter(n))
    ensures var n := advance(m, dt);
      var t := Run(advance, m, dt, fuel);
      n.Continue? ==>
        var r := Run(advance, n.hop.motion, n.hop.leftover, fuel - 1);
        t.motion == r.motion && t.stop == r.stop && (AvoidsCenters(t) <==> !HitsCenter(n) && AvoidsCenters(r))
  {
    RunAvoidsCenters(advance, m, dt, fuel);
  }

  /** A run in which the ball reaches no cell centre. */
  predicate AvoidsCenters(t: Trip)
  {
    t.stop != FellOff && forall i :: 0 <= i < |t.hops| ==> t.hops[i].step.Resolved() != CenterHit
  }

  /** A run reaches no centre exactly when its first sub-step does not and, if that
      sub-step resolved an event, the rest of the run reaches none either. */
  lemma RunAvoidsCenters(advance: Stepper, m: Motion, dt: real, fuel: nat)
    requires fuel > 0
    ensures advance(m, dt).Halt? ==> (AvoidsCenters(Run(advance, m, dt, fuel)) <==> !HitsCenter(advance(m, dt)))
    ensures advance(m, dt).Continue? ==>
      var h := advance(m, dt).hop;
      (AvoidsCenters(Run(advance, m, dt, fuel)) <==>
        !HitsCenter(advance(m, dt)) && AvoidsCenters(Run(advance, h.motion, h.leftover, fuel - 1)))
  {
    if advance(m, dt).Continue? {
      var h := advance(m, dt).hop;
      var r := Run(advance, h.motion, h.leftover, fuel - 1);
      var t := Run(advance, m, dt, fuel);
      assert t.hops == [h] + r.hops && t.stop == r.stop;
      if AvoidsCenters(t) {
        assert t.hops[0] == h;
        forall i | 0 <= i < |r.hops|
          ensures r.hops[i].step.Resolved() != CenterHit
        {
          assert t.hops[i + 1] == r.hops[i];
        }
      }
      if !HitsCenter(advance(m, dt)) && AvoidsCenters(r) {
        forall i | 0 <= i < |t.hops|
          ensures t.hops[i].step.Resolved() != CenterHit
        {
          if i > 0 {
            assert t.hops[i] == r.hops[i - 1];
          }
        }
      }
    }
  }

  /** The centre test comes first: a ball whose centre is off the grid stays where it
      is and the level fails, even for a zero dt. */
  lemma OffGridFirst(b: Board, m: Motion, flavor: Flavor, speed: real, dt: real, fuel: nat)
    requires fuel > 0
    requires GridGeometry.GridCoords(b.upperLeft, b.width, b.height, Center(m.pos)).None?
    ensures Trajectory(b, m, flavor, speed, dt, fuel) == Trip(m, OffGrid, [], dt)
  {
    assert Stepping(b, flavor, speed)(m, dt) == Halt(m, OffGrid);
  }

  /** A move within the tolerance of zero changes nothing and reaches no tile. */
  lemma NoMoveNoChange(b: Board, m: Motion, flavor: Flavor, speed: real, dt: real, fuel: nat)
    requires fuel > 0
    requires GridGeometry.GridCoords(b.upperLeft, b.width, b.height, Center(m.pos)).Some?
    requires GeneralMath.ApproxEqual(speed * dt, 0.0)
    ensures Trajectory(b, m, flavor, speed, dt, fuel) == Trip(m, Still, [], dt)
  {
    assert Stepping(b, flavor, speed)(m, dt) == Halt(m, Still);
  }

  /** A sub-step that reaches neither the centre nor the edge moves the ball by
      exactly speed*dt along its axis and keeps its direction. */
  lemma GlideIsExact(b: Board, m: Motion, flavor: Flavor, speed: real, dt: real)
    requires Advance(b, m, flavor, speed, dt).Halt? && Advance(b, m, flavor, speed, dt).stop == Glided
    ensures Advance(b, m, flavor, speed, dt).motion == Motion(Moved(m.pos, m.direction, speed * dt), m.direction)
  {
    var cell := GridGeometry.GridCoords(b.upperLeft, b.width, b.height, Center(m.pos)).value;
    GlideMovesFully(StepIn(b, m, speed, dt, cell));
  }

  /** A centre hit on a cell without a tile ends the Update with the ball moved just
      past the centre and the level failed; with a tile the ball goes on from just past
      the centre, turned only by an arrow or a switch. */
  lemma CenterHitOutcome(b: Board, m: Motion, flavor: Flavor, speed: real, dt: real)
    requires var n := Advance(b, m, flavor, speed, dt);
      (n.Halt? && n.stop == FellOff) || (n.Continue? && n.hop.step.Resolved() == CenterHit)
    ensures var n := Advance(b, m, flavor, speed, dt);
      var cell := GridGeometry.GridCoords(b.upperLeft, b.width, b.height, Center(m.pos)).value;
      var c := GridGeometry.CellCenter(b.upperLeft, cell);
      DistanceToCenter(Center(n.Ball().pos), c, m.direction) == -Overshoot &&
      (n.Halt? <==> b.At(cell).None?) &&
      (n.Continue? ==> n.Ball().direction == Deflect(b.At(cell).value, flavor, m.direction))
  {
    var cell := GridGeometry.GridCoords(b.upperLeft, b.width, b.height, Center(m.pos)).value;
    CenterHitPassesCenter(StepIn(b, m, speed, dt, cell));
  }

  /** An edge hit turns the ball around exactly on the edge when the next cell's tile
      refuses balls, and otherwise takes it just past the edge. */
  lemma EdgeHitBounce(b: Board, m: Motion, flavor: Flavor, speed: real, dt: real)
    requires var n := Advance(b, m, flavor, speed, dt); n.Continue? && n.hop.step.Resolved() == EdgeHit
    ensures var n := Advance(b, m, flavor, speed, dt);
      var cell := GridGeometry.GridCoords(b.upperLeft, b.width, b.height, Center(m.pos)).value;
      var c := GridGeometry.CellCenter(b.upperLeft, cell);
      var blocked := Blocks(b.At(Neighbour(cell, m.direction)));
      (blocked ==> n.Ball().direction == Reverse(m.direction) &&
                   DistanceToEdge(Center(n.Ball().pos), c, m.direction) == 0.0) &&
      (!blocked ==> n.Ball().direction == m.direction &&
                    DistanceToEdge(Center(n.Ball().pos), c, m.direction) == -Overshoot)
  {
    var n := Advance(b, m, flavor, speed, dt);
    EdgeHitOutcome(n.hop.step);
  }
}
