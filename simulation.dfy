/** The running game: balls, tiles, levels, the level manager and the game manager
    (Ball.js, LevelObject.js and its subclasses, Level.js, LevelManager.js and
    GameManager.js). The classes refer to each other the way the source's objects do,
    so they share one module. The source's two globals, the level manager and the game
    manager, are passed explicitly: every method that uses them takes the game manager,
    which holds the level manager. */
module Simulation {
  import opened Wrappers
  import opened GameConstants
  import opened TileKinds
  import opened BallMotion
  import opened BallTrajectory
  import GeneralMath
  import GridGeometry
  import Vec2D
  import LevelLegend
  import CrackedRoadRules
  import FireRules
  import LauncherRules
  import SwitchRules
  import GameFlow
  import JsArray

  /** The bound on the sub-steps of one Ball.Update. */
  const MaxSubSteps: nat := 1000

  const Zero: Vec := Vec2D.Vec(0.0, 0.0)

  /** A ball rolling over the level. */
  class Ball {
    /** Upper-left corner. */
    var pos: Vec
    var direction: Direction
    const flavor: Flavor
    const speed: real
    /** How many times Free released the ball's circle shape. */
    ghost var freed: nat

    constructor(p: Vec, f: Flavor, s: real, d: Direction)
      ensures pos == p && flavor == f && speed == s && direction == d && freed == 0
    {
      pos := p;
      flavor := f;
      speed := s;
      direction := d;
      freed := 0;
    }

    /** The ball as the trajectory model sees it. */
    function Now(): Motion
      reads this`pos, this`direction
    {
      Motion(pos, direction)
    }

    method SetPos(p: Vec)
      modifies this`pos
      ensures pos == p
    {
      pos := p;
    }

    method SetDirection(d: Direction)
      modifies this`direction
      ensures direction == d
    {
      direction := d;
    }

    /** Moves one coordinate by m, along the current direction. */
    method MoveInCurrentDirection(m: real)
      modifies this`pos
      ensures pos == Moved(old(pos), direction, m)
    {
      match direction
      case Up => SetPos(pos.Add(Vec2D.Vec(0.0, -m)));
      case Down => SetPos(pos.Add(Vec2D.Vec(0.0, m)));
      case Left => SetPos(pos.Add(Vec2D.Vec(-m, 0.0)));
      case Right => SetPos(pos.Add(Vec2D.Vec(m, 0.0)));
    }

    method Free()
      modifies this`freed
      ensures freed == old(freed) + 1
    {
      freed := freed + 1;
    }

    /** Ball.Update: the ball ends where the trajectory model puts it on the board it
        started on, which the update does not change, and the level has failed if the
        ball left the grid or passed the centre of an empty cell. Balls only ever
        leave the active list. */
    method Update(dt: real, game: GameManager)
      requires game.levels.Valid()
      modifies this`pos, this`direction, this`freed, game`state
      modifies game.levels`activeBalls, game.levels`ballsLeft, game.levels.Tiles()`crack
      ensures game.levels.Board() == old(game.levels.Board())
      ensures var t := Trajectory(old(game.levels.Board()), old(Now()), flavor, speed, dt, MaxSubSteps);
        Now() == t.motion && (t.stop == OffGrid || t.stop == FellOff ==> game.state == GameFlow.LevelFailed)
      ensures var t := Trajectory(old(game.levels.Board()), old(Now()), flavor, speed, dt, MaxSubSteps);
        AvoidsCenters(t) ==>
          Untouched(this, game.levels, old(game.levels.Tiles())) &&
          game.state == if t.stop == OffGrid then GameFlow.LevelFailed else old(game.state)
      ensures Dropped(game.levels.activeBalls, old(game.levels.activeBalls))
      ensures game.levels.ballsLeft <= old(game.levels.ballsLeft)
    {
      SteppingModels(game.levels.Board(), flavor, speed);
      Roll(dt, MaxSubSteps, game, game.levels.Board(), Stepping(game.levels.Board(), flavor, speed));
      BoardUnchanged(game.levels);
    }

    /** The body of Ball.Update, calling itself at most fuel times. */
    method Roll(dt: real, fuel: nat, game: GameManager, ghost b: Board, ghost advance: Stepper)
      requires game.levels.Valid() && b == game.levels.Board() && Models(advance, b, flavor, speed)
      modifies this`pos, this`direction, this`freed, game`state
      modifies game.levels`activeBalls, game.levels`ballsLeft, game.levels.Tiles()`crack
      ensures Now() == Run(advance, old(Now()), dt, fuel).motion
      ensures var t := Run(advance, old(Now()), dt, fuel);
        t.stop == OffGrid || t.stop == FellOff ==> game.state == GameFlow.LevelFailed
      ensures var t := Run(advance, old(Now()), dt, fuel);
        AvoidsCenters(t) ==>
          Untouched(this, game.levels, old(game.levels.Tiles())) &&
          game.state == if t.stop == OffGrid then GameFlow.LevelFailed else old(game.state)
      ensures Dropped(game.levels.activeBalls, old(game.levels.activeBalls))
      ensures game.levels.ballsLeft <= old(game.levels.ballsLeft)
      decreases fuel
    {
      if fuel == 0 {
        return;
      }
      label Before:
      ghost var m := Now();
      var more, left, cell := Step(dt, game, b, advance);
      BoardUnchanged@Before(game.levels);
      RunFirst(advance, m, dt, fuel);
      if more {
        Roll(left, fuel - 1, game, b, advance);
      }
    }

    /** One pass through the body of Ball.Update up to its recursive call: whether
        the update goes on, and with how much time. The pass looks up the cell under
        the ball's centre, which it also returns. */
    method Step(dt: real, game: GameManager, ghost b: Board, ghost advance: Stepper) returns (more: bool, left: real, ghost cell: Option<(int, int)>)
      requires game.levels.Valid() && b == game.levels.Board() && Models(advance, b, flavor, speed)
      modifies this`pos, this`direction, this`freed, game`state
      modifies game.levels`activeBalls, game.levels`ballsLeft, game.levels.Tiles()`crack
      ensures cell == GridGeometry.GridCoords(b.upperLeft, b.width, b.height, Center(old(pos)))
      ensures var n := advance(old(Now()), dt);
        Now() == n.Ball() && (more <==> n.Continue?) && (more ==> left == n.hop.leftover) &&
        (n.Halt? && (n.stop == OffGrid || n.stop == FellOff) ==> game.state == GameFlow.LevelFailed)
      ensures var n := advance(old(Now()), dt);
        !HitsCenter(n) ==>
          Untouched(this, game.levels, old(game.levels.Tiles())) &&
          game.state == if n.Halt? && n.stop == OffGrid then GameFlow.LevelFailed else old(game.state)
      ensures Dropped(game.levels.activeBalls, old(game.levels.activeBalls))
      ensures game.levels.ballsLeft <= old(game.levels.ballsLeft)
    {
      ghost var m := Now();
      var c := game.levels.GetGridCoordsFromScreenCoords(Center(pos));
      cell := c;
      ModelsAt(advance, b, flavor, speed, m, dt, cell);
      if c.None? {
        game.OnLevelFailed();
        return false, 0.0, cell;
      }
      if GeneralMath.ApproxEqual(speed * dt, 0.0) {
        return false, 0.0, cell;
      }
      more, left := Resolve(dt, game, b, c.value);
    }

    /** The rest of the pass once the ball's cell is known and the move is not
        (nearly) zero: the event the sub-step reaches and what it does. */
    method Resolve(dt: real, game: GameManager, ghost b: Board, c: (int, int)) returns (more: bool, left: real)
      requires game.levels.Valid() && b == game.levels.Board()
      modifies this`pos, this`direction, this`freed, game`state
      modifies game.levels`activeBalls, game.levels`ballsLeft, game.levels.Tiles()`crack
      ensures var n := Outcome(StepIn(b, old(Now()), speed, dt, c), b.At(c), flavor);
        Now() == n.Ball() && (more <==> n.Continue?) && (more ==> left == n.hop.leftover) &&
        (n.Halt? && n.stop == FellOff ==> game.state == GameFlow.LevelFailed)
      ensures var n := Outcome(StepIn(b, old(Now()), speed, dt, c), b.At(c), flavor);
        !HitsCenter(n) ==> Untouched(this, game.levels, old(game.levels.Tiles())) && game.state == old(game.state)
      ensures Dropped(game.levels.activeBalls, old(game.levels.activeBalls))
      ensures game.levels.ballsLeft <= old(game.levels.ballsLeft)
    {
      var lm := game.levels;
      ghost var m := Now();
      var move := speed * dt;
      var cellCenter := lm.GetScreenCoordsCenterOfGridCoords(c);
      var center := Center(pos);
      var toCenter := DistanceToCenter(center, cellCenter, direction);
      var toEdge := DistanceToEdge(center, cellCenter, direction);
      StepInAt(b, m, speed, dt, c, cellCenter, Blocks(b.At(Neighbour(c, direction))));
      ghost var s := StepIn(b, m, speed, dt, c);
      match Classify(toCenter, toEdge, move)
      case Glide =>
        MoveInCurrentDirection(move);
        return false, 0.0;
      case CenterHit =>
        more, left := CenterStep(dt, game, b, c, toCenter, move, s);
      case EdgeHit =>
        more, left := EdgeStep(dt, game, b, c, toEdge, move, s);
    }

    /** A sub-step that reaches the centre of cell c. */
    method CenterStep(dt: real, game: GameManager, ghost b: Board, c: (int, int), toCenter: real, move: real,
                      ghost s: SubStep) returns (more: bool, left: real)
      requires game.levels.Valid() && b == game.levels.Board()
      requires s == StepIn(b, Now(), speed, dt, c) && s.Resolved() == CenterHit
      requires toCenter == s.ToCenter() && move == s.move
      modifies this`pos, this`direction, this`freed, game`state
      modifies game.levels`activeBalls, game.levels`ballsLeft, game.levels.Tiles()`crack
      ensures var n := Outcome(s, b.At(c), flavor);
        Now() == n.Ball() && (more <==> n.Continue?) && (more ==> left == n.hop.leftover) &&
        (n.Halt? ==> game.state == GameFlow.LevelFailed)
      ensures Dropped(game.levels.activeBalls, old(game.levels.activeBalls))
      ensures game.levels.ballsLeft <= old(game.levels.ballsLeft)
    {
      var tile := game.levels.GetLevelObjectAtGridCoords(c);
      var taken := HitCenter(toCenter, tile, game);
      if !taken {
        return false, 0.0;
      }
      return true, Remaining(dt, toCenter, move);
    }

    /** A sub-step that reaches the leading edge of cell c; only the ball moves. */
    method EdgeStep(dt: real, game: GameManager, ghost b: Board, c: (int, int), toEdge: real, move: real,
                    ghost s: SubStep) returns (more: bool, left: real)
      requires game.levels.Valid() && b == game.levels.Board()
      requires s == StepIn(b, Now(), speed, dt, c) && s.Resolved() == EdgeHit
      requires toEdge == s.ToEdge() && move == s.move
      modifies this`pos, this`direction
      ensures var n := Outcome(s, b.At(c), flavor);
        Now() == n.Ball() && more && n.Continue? && left == n.hop.leftover
    {
      var next := game.levels.GetLevelObjectAtGridCoords(Neighbour(c, direction));
      HitEdge(toEdge, next);
      return true, Remaining(dt, toEdge, move);
    }

    /** The ball reaches the centre of its cell: it moves just past it, and the tile
        there handles it, or, on an empty cell, the level fails. */
    method HitCenter(toCenter: real, tile: LevelObject?, game: GameManager) returns (taken: bool)
      requires tile != null ==> tile in game.levels.Tiles()
      modifies this`pos, this`direction, this`freed, game`state
      modifies game.levels`activeBalls, game.levels`ballsLeft, game.levels.Tiles()`crack
      ensures pos == Moved(old(pos), old(direction), toCenter + Overshoot)
      ensures taken <==> tile != null
      ensures tile == null ==>
        direction == old(direction) && game.state == GameFlow.LevelFailed &&
        Untouched(this, game.levels, old(game.levels.Tiles()))
      ensures tile != null ==>
        direction == Deflect(old(tile.View()), flavor, old(direction)) && Collided(tile, this, game) &&
        forall o :: o in old(game.levels.Tiles()) && o != tile ==> o.crack == old(o.crack)
      ensures Dropped(game.levels.activeBalls, old(game.levels.activeBalls))
    {
      MoveInCurrentDirection(toCenter + Overshoot);
      if tile == null {
        game.OnLevelFailed();
        return false;
      }
      tile.OnBallCollision(this, game);
      return true;
    }

    /** The ball reaches the edge of its cell: it stops there and turns around when the
        next cell holds a tile that refuses balls, and moves just past it otherwise. */
    method HitEdge(toEdge: real, next: LevelObject?)
      modifies this`pos, this`direction
      ensures var blocked := Blocks(if next == null then None else Some(next.View()));
        pos == Moved(old(pos), old(direction), if blocked then toEdge else toEdge + Overshoot) &&
        direction == if blocked then Reverse(old(direction)) else old(direction)
    {
      if next != null && !next.CanBallEnter() {
        MoveInCurrentDirection(toEdge);
        direction := Reverse(direction);
      } else {
        MoveInCurrentDirection(toEdge + Overshoot);
      }
    }
  }

  /** One grid tile. The source's subclasses become the constant `kind`; the fields
      below `parent` are the mutable state of the variants that have one, and keep
      their initial values on every other kind. */
  class LevelObject {
    const kind: Kind
    /** Upper-left corner. */
    var pos: Vec
    var parent: Level?
    /** The direction a Switch currently points. */
    var facing: Direction
    /** The break state of a CrackedRoad. */
    var crack: CrackedRoadRules.Crack
    /** The flicker state of a Fire. */
    var fire: FireRules.FireState
    /** The launch state of a Launcher. */
    var launch: LauncherRules.Launch
    /** How many times Free released the tile's renderables. */
    ghost var freed: nat

    constructor(k: Kind, p: Vec)
      ensures kind == k && pos == p && parent == null && freed == 0
      ensures facing == (if k.Switch? then k.start else Up)
      ensures crack == CrackedRoadRules.Initial
      ensures fire == (if k.Fire? then FireRules.Initial(k.onDuration, k.offset) else FireRules.FireState(true, 0.0))
      ensures launch == (if k.Launcher? then LauncherRules.Initial(k.total) else LauncherRules.Launch(0, 0.0))
    {
      kind := k;
      pos := p;
      parent := null;
      facing := if k.Switch? then k.start else Up;
      crack := CrackedRoadRules.Initial;
      fire := if k.Fire? then FireRules.Initial(k.onDuration, k.offset) else FireRules.FireState(true, 0.0);
      launch := if k.Launcher? then LauncherRules.Initial(k.total) else LauncherRules.Launch(0, 0.0);
      freed := 0;
    }

    /** What a ball reads from this tile. */
    function View(): TileView
      reads this`facing
    {
      TileView(kind, facing)
    }

    method SetPos(p: Vec)
      modifies this`pos
      ensures pos == p
    {
      pos := p;
    }

    method SetParentLevel(l: Level?)
      modifies this`parent
      ensures parent == l
    {
      parent := l;
    }

    /** Only a Launcher refuses balls. */
    function CanBallEnter(): (r: bool)
      ensures r <==> !kind.Launcher?
    {
      AdmitsBalls(kind)
    }

    method Free()
      modifies this`freed
      ensures freed == old(freed) + 1
    {
      freed := freed + 1;
    }

    /** A ball reached this tile's centre. Arrows and switches turn a ball they interact
        with, a goal takes it off the level, a cracked road starts breaking or, when
        already cracked, fails the level, and a fire that is on fails the level. */
    method OnBallCollision(ball: Ball, game: GameManager)
      modifies ball`direction, ball`freed, this`crack, game`state
      modifies game.levels`activeBalls, game.levels`ballsLeft
      ensures ball.direction == Deflect(View(), ball.flavor, old(ball.direction))
      ensures Collided(this, ball, game)
      ensures Dropped(game.levels.activeBalls, old(game.levels.activeBalls))
    {
      match kind
      case Arrow(d, f) =>
        if Interacts(ball.flavor, f) {
          ball.SetDirection(d);
        }
      case Switch(_, _, f) =>
        if Interacts(ball.flavor, f) {
          ball.SetDirection(facing);
        }
      case Goal(f) =>
        if Interacts(ball.flavor, f) {
          game.levels.RemoveBallFromLevel(ball, game);
          assert Dropped(game.levels.activeBalls, old(game.levels.activeBalls));
        }
      case CrackedRoad =>
        var r := CrackedRoadRules.Collide(crack);
        crack := r.state;
        if r.fails {
          game.OnLevelFailed();
        }
      case Fire(_, _, _) =>
        if FireRules.FailsOnCollision(fire) {
          game.OnLevelFailed();
        }
      case _ =>
    }

    /** One frame of the tile's own clock: a cracked road goes on breaking, a fire
        flickers, a launcher counts towards its next launch and launches a ball onto
        the level when it is due; every other tile does nothing. */
    method Update(dt: real, game: GameManager)
      modifies this`crack, this`fire, this`launch, game.levels`activeBalls
      ensures crack == (if kind.CrackedRoad? then CrackedRoadRules.Tick(old(crack), dt) else old(crack))
      ensures fire == (if kind.Fire? then FireRules.Flicker(kind.onDuration, kind.offDuration, old(fire), dt) else old(fire))
      ensures kind.Launcher? ==>
        var r := LauncherRules.Tick(kind.total, kind.firstDelay, kind.interval, old(launch), dt);
        launch == r.state &&
        (r.launched ==> Launched(game.levels.activeBalls, old(game.levels.activeBalls), kind, pos)) &&
        (!r.launched ==> game.levels.activeBalls == old(game.levels.activeBalls))
      ensures !kind.Launcher? ==> launch == old(launch) && game.levels.activeBalls == old(game.levels.activeBalls)
    {
      match kind
      case CrackedRoad =>
        crack := CrackedRoadRules.Tick(crack, dt);
      case Fire(_, _, _) =>
        Flicker(dt);
      case Launcher(d, f, total, ballSpeed, firstDelay, interval) =>
        var r := LauncherRules.Tick(total, firstDelay, interval, launch, dt);
        if r.launched {
          var ball := new Ball(LaunchPosition(pos), f, ballSpeed, d);
          game.levels.AddBallToLevel(ball);
        }
        launch := r.state;
      case _ =>
    }

    /** Fire.Update: advances the timer, toggles once the current state's duration is
        reached and carries the rest of the time into the new state, calling itself
        again when that rest overruns it too. A fire whose durations are both below 0.1
        does nothing. */
    method Flicker(dt: real)
      requires kind.Fire?
      modifies this`fire
      ensures fire == FireRules.Flicker(kind.onDuration, kind.offDuration, old(fire), dt)
      decreases if FireRules.Frozen(kind.onDuration, kind.offDuration) then 0.0
        else FireRules.Phases(kind.onDuration, kind.offDuration, fire, dt)
    {
      var onDuration, offDuration := kind.onDuration, kind.offDuration;
      if FireRules.Frozen(onDuration, offDuration) {
        return;
      }
      ghost var start := fire;
      fire := fire.(timer := fire.timer + dt);
      if (fire.on && fire.timer >= onDuration) || (!fire.on && fire.timer >= offDuration) {
        fire := fire.(on := !fire.on);
        if fire.on {
          var left := fire.timer - offDuration;
          FireRules.PhasesStep(onDuration, offDuration, onDuration + fire.timer, left);
          if left > onDuration {
            fire := FireRules.FireState(true, 0.0);
            Flicker(left);
          } else {
            fire := fire.(timer := left);
          }
        } else {
          var left := fire.timer - onDuration;
          if left > offDuration {
            fire := FireRules.FireState(false, 0.0);
            Flicker(left);
          } else {
            fire := fire.(timer := left);
          }
        }
      }
    }

    /** A click turns a Switch by its configuration; every other tile ignores it. */
    method OnClick()
      modifies this`facing
      ensures kind.Switch? ==> facing == SwitchRules.Click(kind.configuration, old(facing))
      ensures !kind.Switch? ==> facing == old(facing)
    {
      if kind.Switch? {
        facing := SwitchRules.Click(kind.configuration, facing);
      }
    }
  }

  /** A level under construction: its name, grid size and the tile each cell holds.
      The source creates the columns but leaves every cell unassigned; a key missing
      from `cells` is such an unassigned cell, a key mapped to null an empty one. */
  class Level {
    const name: string
    const width: int
    const height: int
    var cells: map<(int, int), LevelObject?>

    constructor(n: string, w: int, h: int)
      ensures name == n && width == w && height == h && cells == map[]
    {
      name := n;
      width := w;
      height := h;
      cells := map[];
    }

    /** Every cell of the grid is assigned. */
    ghost predicate Complete()
      reads this
    {
      forall x: int, y: int :: 0 <= x < width && 0 <= y < height ==> (x, y) in cells
    }

    /** The tiles the level holds. */
    ghost function Objects(): set<LevelObject>
      reads this
    {
      set c | c in cells && cells[c] != null :: cells[c]
    }

    /** No tile sits in two cells. */
    ghost predicate Distinct()
      reads this
    {
      forall c, d {:trigger SameTile(c, d)} :: SameTile(c, d) ==> c == d
    }

    /** Cells c and d hold the same tile. */
    ghost predicate SameTile(c: (int, int), d: (int, int))
      reads this
    {
      c in cells && d in cells && cells[c] != null && cells[c] == cells[d]
    }

    /** GetLevelObjectAtCoords: the tile or null, None for an unassigned cell. */
    function GetLevelObjectAtCoords(x: int, y: int): (r: Option<LevelObject?>)
      reads this
      requires 0 <= x < width
      ensures r.None? <==> (x, y) !in cells
      ensures r.Some? ==> r.value == cells[(x, y)]
    {
      if (x, y) in cells then Some(cells[(x, y)]) else None
    }

    /** Puts o into an assigned cell, first freeing the tile it held; no other cell
        changes. */
    method SetLevelObjectAtCoords(o: LevelObject?, x: int, y: int)
      requires 0 <= x < width && (x, y) in cells
      modifies this`cells, if cells[(x, y)] != null then {cells[(x, y)]} else {}
      ensures cells == old(cells)[(x, y) := o]
      ensures old(cells[(x, y)]) != null ==> old(cells[(x, y)]).freed == old(cells[(x, y)].freed) + 1
    {
      var previous := cells[(x, y)];
      if previous != null {
        previous.Free();
      }
      cells := cells[(x, y) := o];
    }

    /** One character of a legend string: a fresh tile of its kind, or null, in cell
        (x, y). */
    method Fill(x: int, y: int, c: char)
      modifies this`cells
      ensures (x, y) in cells && Filled(cells[(x, y)], c)
      ensures cells[(x, y)] != null ==> fresh(cells[(x, y)])
      ensures cells == old(cells)[(x, y) := cells[(x, y)]]
    {
      var o: LevelObject? := null;
      var kind := LevelLegend.Legend(c);
      if kind.Some? {
        o := new LevelObject(kind.value, Zero);
      }
      cells := cells[(x, y) := o];
    }

    /** Fills the cells from a legend string: commas, new lines and tabs are skipped,
        every other character fills the next cell in row-major order with a fresh
        tile or null. Tiles already in the cells are not freed. */
    method SetLevelFromString(s: string)
      requires width > 0 || |LevelLegend.Kept(s)| == 0
      modifies this`cells
      ensures var n := |LevelLegend.Kept(s)|;
        forall c :: c in cells <==> c in old(cells) || (width > 0 && LevelLegend.Placed(c, width, n))
      ensures var n := |LevelLegend.Kept(s)|;
        forall c :: c in old(cells) && !(width > 0 && LevelLegend.Placed(c, width, n)) ==> cells[c] == old(cells)[c]
      ensures var k := LevelLegend.Kept(s);
        forall i :: 0 <= i < |k| ==> LevelLegend.Cell(i, width) in cells && Filled(cells[LevelLegend.Cell(i, width)], k[i])
      ensures var k := LevelLegend.Kept(s);
        forall i :: 0 <= i < |k| ==>
          LevelLegend.Cell(i, width) in cells &&
          (cells[LevelLegend.Cell(i, width)] != null ==> fresh(cells[LevelLegend.Cell(i, width)]))
    {
      var x, y := -1, 0;
      var i := 0;
      ghost var k: string := [];
      ghost var made: set<LevelObject> := {};
      while i < |s|
        invariant 0 <= i <= |s|
        invariant k == LevelLegend.Kept(s[..i])
        invariant Parsed(k, x, y, old(cells), made) && fresh(made)
      {
        LevelLegend.KeptStep(s, i);
        if !LevelLegend.Ignored(s[i]) {
          KeptPrefixBound(s, i);
          x, y, made := PlaceNext(x, y, s[i], k, old(cells), made);
          k := k + [s[i]];
        }
        i := i + 1;
      }
      assert s[..|s|] == s;
    }

    /** The state of SetLevelFromString after the kept characters k: the cursor is
        on the cell of the last of them, the cells are those of start plus the cells
        of k, each cell of k holds a tile of its character (made holds those tiles),
        and every other cell of start is as it was. */
    ghost predicate Parsed(k: string, x: int, y: int, start: map<(int, int), LevelObject?>, made: set<LevelObject>)
      reads this, made
    {
      (width > 0 || |k| == 0) &&
      (|k| == 0 ==> x == -1 && y == 0) &&
      (|k| > 0 ==> (x, y) == LevelLegend.Cell(|k| - 1, width)) &&
      (forall c :: c in cells <==> c in start || (width > 0 && LevelLegend.Placed(c, width, |k|))) &&
      (forall c :: c in start && !(width > 0 && LevelLegend.Placed(c, width, |k|)) ==> cells[c] == start[c]) &&
      (forall j :: 0 <= j < |k| ==>
        LevelLegend.Cell(j, width) in cells &&
        (cells[LevelLegend.Cell(j, width)] != null ==> cells[LevelLegend.Cell(j, width)] in made) &&
        Filled(cells[LevelLegend.Cell(j, width)], k[j]))
    }

    /** One kept character of SetLevelFromString: the cursor moves to the next cell
        in row-major order and that cell gets a fresh tile of the character, or null. */
    method PlaceNext(x0: int, y0: int, c: char, ghost k: string, ghost start: map<(int, int), LevelObject?>,
                     ghost made0: set<LevelObject>)
      returns (x: int, y: int, ghost made: set<LevelObject>)
      requires width > 0 && Parsed(k, x0, y0, start, made0)
      modifies this`cells
      ensures Parsed(k + [c], x, y, start, made)
      ensures made0 <= made && fresh(made - made0)
    {
      x, y := x0 + 1, y0;
      if x == width {
        x := 0;
        y := y + 1;
      }
      assert (x, y) == LevelLegend.Cell(|k|, width) by {
        if |k| > 0 {
          LevelLegend.CursorStep(|k| - 1, width);
        }
      }
      ghost var before := cells;
      FillNext(x, y, c, k);
      LevelLegend.AssignedStep(before, start, width, |k|, cells[(x, y)]);
      made := if cells[(x, y)] != null then made0 + {cells[(x, y)]} else made0;
    }

    /** One kept character of SetLevelFromString: it fills the cell after the first
        |k| filled ones and leaves those as they were. */
    method FillNext(x: int, y: int, c: char, ghost k: string)
      requires width > 0 && (x, y) == LevelLegend.Cell(|k|, width)
      requires forall j :: 0 <= j < |k| ==> LevelLegend.Cell(j, width) in cells && Filled(cells[LevelLegend.Cell(j, width)], k[j])
      modifies this`cells
      ensures (x, y) in cells && cells == old(cells)[(x, y) := cells[(x, y)]]
      ensures forall j :: 0 <= j < |k| + 1 ==>
        LevelLegend.Cell(j, width) in cells && Filled(cells[LevelLegend.Cell(j, width)], (k + [c])[j])
      ensures forall j :: 0 <= j < |k| ==> cells[LevelLegend.Cell(j, width)] == old(cells)[LevelLegend.Cell(j, width)]
      ensures cells[(x, y)] != null ==> fresh(cells[(x, y)])
    {
      ghost var n := |k|;
      ghost var before := cells;
      label Before:
      Fill(x, y, c);
      forall j | 0 <= j < n + 1
        ensures Filled(cells[LevelLegend.Cell(j, width)], (k + [c])[j])
      {
        if j < n {
          var d := LevelLegend.Cell(j, width);
          assert cells[d] == before[d];
          assert old@Before(Filled(before[d], k[j]));
        }
      }
    }
  }

  /** The cell a legend character fills holds a tile of its kind at the origin with
      no parent, or null when the legend gives none. */
  ghost predicate Filled(o: LevelObject?, c: char)
    reads o
  {
    (o == null <==> LevelLegend.Legend(c).None?) &&
    (o != null ==> o.kind == LevelLegend.Legend(c).value && o.pos == Zero &&
                   o.parent == null && o.freed == 0)
  }

  /** A string whose next character is kept has a width to place it in. */
  lemma KeptPrefixBound(s: string, i: nat)
    requires i < |s| && !LevelLegend.Ignored(s[i])
    ensures |LevelLegend.Kept(s[..i])| < |LevelLegend.Kept(s)|
  {
    KeptMonotone(s, i + 1);
    LevelLegend.KeptStep(s, i);
  }

  lemma {:induction false} KeptMonotone(s: string, i: nat)
    requires i <= |s|
    ensures |LevelLegend.Kept(s[..i])| <= |LevelLegend.Kept(s)|
    decreases |s| - i
  {
    if i < |s| {
      LevelLegend.KeptStep(s, i);
      KeptMonotone(s, i + 1);
    } else {
      assert s[..i] == s;
    }
  }

  /** A goal takes a ball it interacts with. */
  predicate TakesBall(k: Kind, ball: Flavor)
  {
    k.Goal? && Interacts(ball, k.flavor)
  }

  /** A collision fails the level: a cracked road already cracked, a fire that is on. */
  predicate FailsBall(k: Kind, crack: CrackedRoadRules.Crack, fire: FireRules.FireState)
  {
    (k.CrackedRoad? && CrackedRoadRules.Collide(crack).fails) || (k.Fire? && FireRules.FailsOnCollision(fire))
  }

  /** Where a launcher puts a new ball: centred on the launcher's cell. */
  function LaunchPosition(tile: Vec): (p: Vec)
    ensures Center(p) == tile.Add(Vec2D.Vec(HalfCellSize, HalfCellSize))
  {
    tile.Add(Vec2D.Vec(HalfCellSize, HalfCellSize)).Sub(Vec2D.Vec(Radius, Radius))
  }

  /** A ball launched from a loaded launcher starts centred on the launcher's cell,
      so the grid places it in that cell. */
  lemma LaunchedInLauncherCell(upperLeft: Vec, width: int, height: int, x: int, y: int)
    requires 0 <= x < width && 0 <= y < height
    ensures var center := Center(LaunchPosition(GridGeometry.CellCorner(upperLeft, (x, y))));
      center == GridGeometry.CellCenter(upperLeft, (x, y)) &&
      GridGeometry.GridCoords(upperLeft, width, height, center) == Some((x, y))
  {
    GridGeometry.CenterRoundTrip(upperLeft, width, height, x, y);
  }

  /** The active balls gained one fresh ball of the launcher's flavour, speed and
      direction, centred on the launcher. */
  twostate predicate Launched(new balls: seq<Ball>, before: seq<Ball>, k: Kind, tile: Vec)
    requires k.Launcher?
    reads if |balls| > 0 then {balls[|balls| - 1]} else {}
  {
    |balls| == |before| + 1 && balls[..|before|] == before &&
    var b := balls[|before|];
    fresh(b) && b.pos == LaunchPosition(tile) && b.flavor == k.flavor && b.speed == k.ballSpeed &&
    b.direction == k.direction && b.freed == 0
  }

  /** The number of cells 0 .. n-1, or 0 for a negative n. */
  function Span(n: int): nat
  {
    if n < 0 then 0 else n
  }

  /** The balls a launcher holds; every other cell holds none. */
  function CellBalls(o: LevelObject?): int
  {
    if o != null && o.kind.Launcher? then o.kind.total else 0
  }

  /** The balls the launchers in cells (x, 0) .. (x, n-1) hold. */
  function ColumnBalls(cells: map<(int, int), LevelObject?>, x: int, n: int): int
    decreases n
  {
    if n <= 0 then 0
    else ColumnBalls(cells, x, n - 1) + (if (x, n - 1) in cells then CellBalls(cells[(x, n - 1)]) else 0)
  }

  /** The balls the launchers of columns 0 .. w-1, rows 0 .. h-1, hold. */
  function LevelBalls(cells: map<(int, int), LevelObject?>, w: int, h: int): int
    decreases w
  {
    if w <= 0 then 0 else LevelBalls(cells, w - 1, h) + ColumnBalls(cells, w - 1, h)
  }

  /** n empty cells. */
  function Nulls(n: nat): (s: seq<LevelObject?>)
    ensures |s| == n && forall j :: 0 <= j < n ==> s[j] == null
  {
    if n == 0 then [] else Nulls(n - 1) + [null]
  }

  /** No tile sits in two cells. */
  ghost predicate GridDistinct(grid: seq<seq<LevelObject?>>)
  {
    forall i, j, k, l {:trigger SharedCell(grid, i, j, k, l)} :: SharedCell(grid, i, j, k, l) ==> i == k && j == l
  }

  /** Cells (i, j) and (k, l) of the grid hold the same tile. */
  predicate SharedCell(grid: seq<seq<LevelObject?>>, i: int, j: int, k: int, l: int)
  {
    0 <= i < |grid| && 0 <= j < |grid[i]| && 0 <= k < |grid| && 0 <= l < |grid[k]| &&
    grid[i][j] != null && grid[i][j] == grid[k][l]
  }

  /** No ball is in the list twice. */
  predicate BallsDistinct(balls: seq<Ball>)
  {
    forall i, j :: 0 <= i < |balls| && 0 <= j < |balls| && balls[i] == balls[j] ==> i == j
  }

  /** Cell c is one of the first n cells of column x. */
  predicate InColumn(c: (int, int), x: int, n: int)
  {
    c.0 == x && 0 <= c.1 < n
  }

  /** Cell c lies in one of the columns 0 .. x-1 of a grid of the given height. */
  predicate InColumns(c: (int, int), x: int, height: int)
  {
    0 <= c.0 < x && 0 <= c.1 < height
  }

  /** Cell (i, j) comes before cell (x, y) in the column-major order of the grid loops. */
  predicate Before(i: int, j: int, x: int, y: int)
  {
    i < x || (i == x && j < y)
  }

  /** The loaded level: geometry, tiles, ball counts and the balls in play. */
  class LevelManager {
    const canvasWidth: real
    const canvasHeight: real
    var gridWidth: int
    var gridHeight: int
    var displaySize: Vec
    var upperLeft: Vec
    /** Columns of cells, indexed [x][y]. */
    var grid: seq<seq<LevelObject?>>
    var totalBalls: int
    var ballsLeft: int
    var activeBalls: seq<Ball>

    constructor(w: real, h: real)
      ensures canvasWidth == w && canvasHeight == h
      ensures gridWidth == 0 && gridHeight == 0 && displaySize == Zero && upperLeft == Zero
      ensures grid == [] && totalBalls == 0 && ballsLeft == 0 && activeBalls == []
    {
      canvasWidth, canvasHeight := w, h;
      gridWidth, gridHeight := 0, 0;
      displaySize, upperLeft := Zero, Zero;
      grid := [];
      totalBalls, ballsLeft := 0, 0;
      activeBalls := [];
    }

    /** The grid has gridWidth columns of gridHeight cells. */
    ghost predicate Valid()
      reads this`grid, this`gridWidth, this`gridHeight
    {
      |grid| == Span(gridWidth) && forall x :: 0 <= x < |grid| ==> |grid[x]| == Span(gridHeight)
    }

    /** The tiles in the grid. */
    ghost function Tiles(): set<LevelObject>
      reads this`grid
    {
      set x, y | 0 <= x < |grid| && 0 <= y < |grid[x]| && grid[x][y] != null :: grid[x][y]
    }

    /** The level as a ball sees it. */
    ghost function Board(): (b: Board)
      reads this`grid, this`upperLeft, this`gridWidth, this`gridHeight, Tiles()`facing
      ensures b.upperLeft == upperLeft && b.width == gridWidth && b.height == gridHeight
    {
      BallTrajectory.Board(upperLeft, gridWidth, gridHeight,
        map x, y | 0 <= x < |grid| && 0 <= y < |grid[x]| && grid[x][y] != null :: (x, y) := grid[x][y].View())
    }

    function GetGridCoordsFromScreenCoords(p: Vec): (c: Option<(int, int)>)
      reads this`upperLeft, this`gridWidth, this`gridHeight
    {
      GridGeometry.GridCoords(upperLeft, gridWidth, gridHeight, p)
    }

    function GetScreenCoordsCenterOfGridCoords(c: (int, int)): Vec
      reads this`upperLeft
    {
      GridGeometry.CellCenter(upperLeft, c)
    }

    /** The tile at a cell, null for an empty or out-of-bounds cell: what Board() has
        there. */
    function GetLevelObjectAtGridCoords(c: (int, int)): (r: LevelObject?)
      requires Valid()
      reads this`grid, this`upperLeft, this`gridWidth, this`gridHeight, Tiles()`facing
      ensures r == null <==> Board().At(c).None?
      ensures r != null ==> r in Tiles() && Board().At(c) == Some(r.View())
    {
      if c.0 < 0 || c.1 < 0 || c.0 >= gridWidth || c.1 >= gridHeight then null
      else
        assert (grid[c.0][c.1] != null) == (c in Board().cells);
        grid[c.0][c.1]
    }

    /** The grid shows the level: its size and every cell. */
    ghost predicate Shows(level: Level)
      reads this`grid, this`gridWidth, this`gridHeight, level
    {
      level.Complete() && gridWidth == level.width && gridHeight == level.height && Valid() &&
      forall x, y :: 0 <= x < level.width && 0 <= y < level.height ==> grid[x][y] == level.cells[(x, y)]
    }

    /** After LoadLevel the grid shows the level, so every tile in play is one of
        the level's. */
    lemma ShowsLoaded(level: Level)
      requires level.Complete() && gridWidth == level.width && gridHeight == level.height && Valid()
      requires forall x, y :: 0 <= x < level.width && 0 <= y < level.height ==> grid[x][y] == level.cells[(x, y)]
      ensures Shows(level) && Tiles() <= level.Objects()
    {
      forall o | o in Tiles()
        ensures o in level.Objects()
      {
        var x, y :| 0 <= x < |grid| && 0 <= y < |grid[x]| && grid[x][y] == o;
        assert level.cells[(x, y)] == o;
      }
    }

    /** The tile a click at p lands on, null when it misses the grid or lands on an
        empty cell. */
    ghost function TileAt(p: Vec): (r: LevelObject?)
      requires Valid()
      reads this`grid, this`upperLeft, this`gridWidth, this`gridHeight, Tiles()`facing
      ensures r != null ==> r in Tiles()
    {
      var coords := GetGridCoordsFromScreenCoords(p);
      if coords.Some? then GetLevelObjectAtGridCoords(coords.value) else null
    }

    /** Clear: frees every tile in the grid and every active ball and empties the
        grid. The active list and the ball counts are left as they were. */
    method Clear()
      requires Valid()
      modifies this`gridWidth, this`gridHeight, this`displaySize, this`upperLeft, this`grid
      modifies Tiles()`freed, activeBalls
      ensures gridWidth == 0 && gridHeight == 0 && displaySize == Zero && upperLeft == Zero && grid == []
      ensures GridDistinct(old(grid)) ==> forall o :: o in old(Tiles()) ==> o.freed == old(o.freed) + 1
      ensures BallsDistinct(activeBalls) ==>
        forall i :: 0 <= i < |activeBalls| ==> activeBalls[i].freed == old(activeBalls[i].freed) + 1
      ensures Valid() && Tiles() == {}
    {
      var x := 0;
      while x < gridWidth
        invariant 0 <= x <= Span(gridWidth)
        invariant grid == old(grid) && gridWidth == old(gridWidth) && gridHeight == old(gridHeight)
        invariant forall j :: 0 <= j < |activeBalls| ==> activeBalls[j].freed == old(activeBalls[j].freed)
        invariant GridDistinct(grid) ==> forall i, j :: 0 <= i < |grid| && 0 <= j < |grid[i]| && grid[i][j] != null ==>
          grid[i][j].freed == old(grid[i][j].freed) + (if i < x then 1 else 0)
      {
        FreeColumn(x);
        x := x + 1;
      }
      var i := 0;
      while i < |activeBalls|
        invariant 0 <= i <= |activeBalls|
        invariant grid == old(grid)
        invariant GridDistinct(grid) ==> forall o :: o in old(Tiles()) ==> o.freed == old(o.freed) + 1
        invariant BallsDistinct(activeBalls) ==> forall j :: 0 <= j < |activeBalls| ==>
          activeBalls[j].freed == old(activeBalls[j].freed) + (if j < i then 1 else 0)
      {
        activeBalls[i].Free();
        i := i + 1;
      }
      gridWidth, gridHeight := 0, 0;
      displaySize, upperLeft := Zero, Zero;
      grid := [];
    }

    /** One column of Clear's tile loop: frees each tile in column x. */
    method FreeColumn(x: int)
      requires Valid() && 0 <= x < |grid|
      modifies Tiles()`freed
      ensures GridDistinct(grid) ==> forall i, j :: 0 <= i < |grid| && 0 <= j < |grid[i]| && grid[i][j] != null ==>
        grid[i][j].freed == old(grid[i][j].freed) + (if i == x then 1 else 0)
    {
      var y := 0;
      while y < gridHeight
        invariant 0 <= y <= Span(gridHeight)
        invariant GridDistinct(grid) ==> forall i, j :: 0 <= i < |grid| && 0 <= j < |grid[i]| && grid[i][j] != null ==>
          grid[i][j].freed == old(grid[i][j].freed) + (if i == x && j < y then 1 else 0)
      {
        if grid[x][y] != null {
          grid[x][y].Free();
          forall i, j | 0 <= i < |grid| && 0 <= j < |grid[i]| && grid[i][j] == grid[x][y]
            ensures SharedCell(grid, i, j, x, y)
          {
          }
        }
        y := y + 1;
      }
    }

    /** LoadLevel: clears the old level, sizes and centres the grid for the new one,
        and moves each tile of the level into its cell: at the cell's upper-left pixel,
        tagged with the level, its launchers' balls counted. No ball is in play yet. */
    method LoadLevel(level: Level)
      requires Valid() && level.Complete()
      modifies this`gridWidth, this`gridHeight, this`displaySize, this`upperLeft, this`grid
      modifies this`totalBalls, this`ballsLeft, this`activeBalls, Tiles()`freed, activeBalls
      modifies level.Objects()`pos, level.Objects()`parent
      ensures gridWidth == level.width && gridHeight == level.height && Valid()
      ensures displaySize == Vec2D.Vec(level.width as real * CellSize, level.height as real * CellSize)
      ensures upperLeft == GridGeometry.UpperLeft(canvasWidth, canvasHeight, level.width, level.height)
      ensures forall x, y :: 0 <= x < level.width && 0 <= y < level.height ==> grid[x][y] == level.cells[(x, y)]
      ensures forall x, y :: 0 <= x < level.width && 0 <= y < level.height && grid[x][y] != null ==> grid[x][y].parent == level
      ensures level.Distinct() ==> forall x, y :: 0 <= x < level.width && 0 <= y < level.height && grid[x][y] != null ==>
        grid[x][y].pos == GridGeometry.CellCorner(upperLeft, (x, y))
      ensures totalBalls == LevelBalls(level.cells, level.width, level.height) && ballsLeft == totalBalls && activeBalls == []
    {
      Clear();
      totalBalls := 0;
      Resize(level.width, level.height);
      Place(level, level.Objects());
      ballsLeft := totalBalls;
      activeBalls := [];
    }

    /** The first steps of LoadLevel: the grid's size, its size on screen, its
        position centred on the canvas below the top buffer, and w columns of h empty
        cells. */
    method Resize(w: int, h: int)
      modifies this`gridWidth, this`gridHeight, this`displaySize, this`upperLeft, this`grid
      ensures gridWidth == w && gridHeight == h
      ensures displaySize == Vec2D.Vec(w as real * CellSize, h as real * CellSize)
      ensures upperLeft == GridGeometry.UpperLeft(canvasWidth, canvasHeight, w, h)
      ensures |grid| == Span(w) && forall x :: 0 <= x < |grid| ==> grid[x] == Nulls(Span(h))
    {
      gridWidth, gridHeight := w, h;
      displaySize := Vec2D.Vec(gridWidth as real * CellSize, gridHeight as real * CellSize);
      upperLeft := GridGeometry.UpperLeft(canvasWidth, canvasHeight, gridWidth, gridHeight);
      grid := [];
      var x := 0;
      while x < gridWidth
        invariant 0 <= x <= Span(gridWidth) && |grid| == x
        invariant forall i :: 0 <= i < x ==> grid[i] == Nulls(Span(gridHeight))
        invariant gridWidth == w && gridHeight == h
        invariant displaySize == Vec2D.Vec(w as real * CellSize, h as real * CellSize)
        invariant upperLeft == GridGeometry.UpperLeft(canvasWidth, canvasHeight, w, h)
      {
        var column: seq<LevelObject?> := [];
        var y := 0;
        while y < gridHeight
          invariant 0 <= y <= Span(gridHeight) && column == Nulls(y)
        {
          column := column + [null];
          y := y + 1;
        }
        grid := grid + [column];
        x := x + 1;
      }
    }

    /** The filling loop of LoadLevel, on a grid of empty cells. */
    method Place(level: Level, ghost objs: set<LevelObject>)
      requires level.Complete() && gridWidth == level.width && gridHeight == level.height
      requires objs == level.Objects()
      requires |grid| == Span(gridWidth) && forall x :: 0 <= x < |grid| ==> grid[x] == Nulls(Span(gridHeight))
      requires totalBalls == 0
      modifies this`grid, this`totalBalls, objs`pos, objs`parent
      ensures gridWidth == level.width && gridHeight == level.height && upperLeft == old(upperLeft)
      ensures displaySize == old(displaySize) && ballsLeft == old(ballsLeft) && activeBalls == old(activeBalls)
      ensures Valid()
      ensures forall x, y :: 0 <= x < level.width && 0 <= y < level.height ==> grid[x][y] == level.cells[(x, y)]
      ensures forall x, y :: 0 <= x < level.width && 0 <= y < level.height && grid[x][y] != null ==> grid[x][y].parent == level
      ensures level.Distinct() ==> forall x, y :: 0 <= x < level.width && 0 <= y < level.height && grid[x][y] != null ==>
        grid[x][y].pos == GridGeometry.CellCorner(upperLeft, (x, y))
      ensures totalBalls == LevelBalls(level.cells, level.width, level.height)
    {
      var x := 0;
      while x < gridWidth
        invariant 0 <= x <= Span(gridWidth) && Placed(level, x)
      {
        PlaceNextColumn(level, x, objs);
        x := x + 1;
      }
    }

    /** The first x columns of the grid hold the level's tiles, tagged with the level
        and, when no tile sits in two cells, moved to their cells; the other columns
        are still empty; and the balls of the first x columns are counted. */
    ghost predicate Placed(level: Level, x: int)
      reads this, level, Tiles()
    {
      level.Complete() && gridWidth == level.width && gridHeight == level.height &&
      0 <= x <= Span(gridWidth) && |grid| == Span(gridWidth) &&
      (forall i :: 0 <= i < x ==> |grid[i]| == Span(gridHeight)) &&
      (forall i, j :: 0 <= i < x && 0 <= j < |grid[i]| ==> grid[i][j] == level.cells[(i, j)]) &&
      (forall i :: x <= i < |grid| ==> grid[i] == Nulls(Span(gridHeight))) &&
      (forall i, j :: 0 <= i < x && 0 <= j < |grid[i]| && grid[i][j] != null ==> grid[i][j].parent == level) &&
      (level.Distinct() ==> forall i, j :: 0 <= i < x && 0 <= j < |grid[i]| && grid[i][j] != null ==>
        grid[i][j].pos == GridGeometry.CellCorner(upperLeft, (i, j))) &&
      totalBalls == LevelBalls(level.cells, x, level.height)
    }

    /** One turn of the filling loop: column x of the grid gets the level's tiles. */
    method PlaceNextColumn(level: Level, x: int, ghost objs: set<LevelObject>)
      requires Placed(level, x) && x < gridWidth && objs == level.Objects()
      modifies this`grid, this`totalBalls, objs`pos, objs`parent
      ensures Placed(level, x + 1)
    {
      var column := PlaceColumn(level, x, grid[x], objs);
      grid := grid[x := column];
    }

    /** One column of the filling loop: the column of cells x gets the level's tiles
        in column x, each moved to its cell and tagged with the level and its balls
        counted. A tile already tagged stays tagged, and, when no tile sits in two
        cells, the tiles of the other columns keep their position. */
    method PlaceColumn(level: Level, x: int, empty: seq<LevelObject?>, ghost objs: set<LevelObject>)
      returns (column: seq<LevelObject?>)
      requires level.Complete() && 0 <= x < level.width && empty == Nulls(Span(level.height))
      requires objs == level.Objects()
      modifies this`totalBalls, objs`pos, objs`parent
      ensures |column| == Span(level.height)
      ensures forall j :: 0 <= j < |column| ==> column[j] == level.cells[(x, j)]
      ensures forall j :: 0 <= j < |column| && column[j] != null ==> column[j].parent == level
      ensures level.Distinct() ==> forall j :: 0 <= j < |column| && column[j] != null ==>
        column[j].pos == GridGeometry.CellCorner(upperLeft, (x, j))
      ensures forall c :: c in level.cells && level.cells[c] != null && old(level.cells[c].parent) == level ==>
        level.cells[c].parent == level
      ensures level.Distinct() ==> forall c :: c in level.cells && level.cells[c] != null && c.0 != x ==>
        level.cells[c].pos == old(level.cells[c].pos)
      ensures totalBalls == old(totalBalls) + ColumnBalls(level.cells, x, level.height)
    {
      column := empty;
      ghost var done: set<LevelObject> := {};
      var y := 0;
      while y < level.height
        invariant 0 <= y <= Span(level.height) && |column| == Span(level.height)
        invariant forall j :: 0 <= j < y ==> column[j] == level.cells[(x, j)]
        invariant forall j :: y <= j < |column| ==> column[j] == null
        invariant forall j :: 0 <= j < y && column[j] != null ==> column[j].parent == level
        invariant level.Distinct() ==> forall j :: 0 <= j < y && column[j] != null ==>
          column[j].pos == GridGeometry.CellCorner(upperLeft, (x, j))
        invariant forall o :: o in done ==> o.parent == level
        invariant forall c :: c in level.cells && level.cells[c] != null && level.cells[c] !in done ==>
          level.cells[c].pos == old(level.cells[c].pos) && level.cells[c].parent == old(level.cells[c].parent)
        invariant level.Distinct() ==> forall c :: c in level.cells && level.cells[c] != null && !InColumn(c, x, y) ==>
          level.cells[c] !in done
        invariant totalBalls == old(totalBalls) + ColumnBalls(level.cells, x, y)
      {
        var o := PlaceCell(level, x, y, objs);
        if o != null {
          column := column[y := o];
          done := done + {o};
          forall c | c in level.cells && level.cells[c] == o
            ensures level.SameTile(c, (x, y))
          {
          }
        }
        y := y + 1;
      }
    }

    /** One cell of the filling loop: the tile in cell (x, y), if any, is moved to
        the cell's upper-left pixel, tagged with the level and its balls counted. No
        other tile changes. */
    method PlaceCell(level: Level, x: int, y: int, ghost objs: set<LevelObject>) returns (o: LevelObject?)
      requires 0 <= x < level.width && (x, y) in level.cells && objs == level.Objects()
      modifies this`totalBalls, objs`pos, objs`parent
      ensures o == level.cells[(x, y)]
      ensures o != null ==> o.pos == GridGeometry.CellCorner(upperLeft, (x, y)) && o.parent == level
      ensures forall p :: p in objs && p != o ==> p.pos == old(p.pos) && p.parent == old(p.parent)
      ensures totalBalls == old(totalBalls) + CellBalls(o)
    {
      var cell := level.GetLevelObjectAtCoords(x, y);
      o := cell.value;
      if o == null {
        return;
      }
      assert o in objs;
      o.SetPos(GridGeometry.CellCorner(upperLeft, (x, y)));
      if o.kind.Launcher? {
        totalBalls := totalBalls + o.kind.total;
      }
      o.SetParentLevel(level);
    }

    method AddBallToLevel(b: Ball)
      modifies this`activeBalls
      ensures activeBalls == old(activeBalls) + [b]
    {
      activeBalls := activeBalls + [b];
    }

    /** Takes a ball out of play: removes it from the active balls with
        splice(indexOf(b), 1), frees it, and wins the level when no ball is left. */
    method RemoveBallFromLevel(b: Ball, game: GameManager)
      requires game.levels == this
      modifies this`activeBalls, this`ballsLeft, b`freed, game`state
      ensures activeBalls == JsArray.SpliceOne(old(activeBalls), JsArray.IndexOf(old(activeBalls), b))
      ensures b in old(activeBalls) ==> multiset(activeBalls) == multiset(old(activeBalls)) - multiset{b}
      ensures Dropped(activeBalls, old(activeBalls))
      ensures ballsLeft == old(ballsLeft) - 1 && b.freed == old(b.freed) + 1
      ensures game.state == if ballsLeft <= 0 then GameFlow.LevelWon else old(game.state)
    {
      var i := JsArray.IndexOf(activeBalls, b);
      JsArray.SpliceOneShape(activeBalls, i);
      if b in activeBalls {
        JsArray.RemoveFirstOccurrence(activeBalls, b);
      }
      activeBalls := JsArray.SpliceOne(activeBalls, i);
      b.Free();
      ballsLeft := ballsLeft - 1;
      if ballsLeft <= 0 {
        game.OnLevelWon();
      }
    }

    /** LevelManager.Update: first every tile's own clock, column by column, then
        every active ball. The level's board stays as it was, the tiles' flicker and
        launch timers have advanced by one frame, and the balls in play are old
        ones or ones launched during the frame. */
    method Update(dt: real, game: GameManager)
      requires game.levels == this && Valid()
      modifies Tiles()`crack, Tiles()`fire, Tiles()`launch, this`activeBalls, this`ballsLeft, game`state
      modifies activeBalls
      ensures Board() == old(Board())
      ensures GridDistinct(grid) ==> forall i, j :: 0 <= i < |grid| && 0 <= j < |grid[i]| && grid[i][j] != null ==>
        Clocked(grid[i][j], dt)
      ensures forall b :: b in activeBalls ==> b in old(activeBalls) || fresh(b)
    {
      UpdateTiles(dt, game);
      UpdateBalls(dt, game);
      BoardUnchanged(this);
    }

    /** The tile loop of Update: each tile in the grid advances by one frame, in
        column-major order; launchers append fresh balls to the active list. */
    method UpdateTiles(dt: real, game: GameManager)
      requires game.levels == this && Valid()
      modifies Tiles()`crack, Tiles()`fire, Tiles()`launch, this`activeBalls
      ensures Grown(activeBalls, old(activeBalls))
      ensures GridDistinct(grid) ==> forall i, j :: 0 <= i < |grid| && 0 <= j < |grid[i]| && grid[i][j] != null ==>
        Ticked(grid[i][j], dt)
    {
      var x := 0;
      while x < gridWidth
        invariant 0 <= x <= Span(gridWidth)
        invariant Grown(activeBalls, old(activeBalls))
        invariant GridDistinct(grid) ==> forall i, j :: 0 <= i < |grid| && 0 <= j < |grid[i]| && grid[i][j] != null ==>
          if i < x then Ticked(grid[i][j], dt) else Idle(grid[i][j])
      {
        UpdateColumn(dt, game, x);
        x := x + 1;
      }
    }

    /** One column of the tile loop. */
    method UpdateColumn(dt: real, game: GameManager, x: int)
      requires game.levels == this && Valid() && 0 <= x < |grid|
      modifies Tiles()`crack, Tiles()`fire, Tiles()`launch, this`activeBalls
      ensures Grown(activeBalls, old(activeBalls))
      ensures GridDistinct(grid) ==> forall i, j :: 0 <= i < |grid| && 0 <= j < |grid[i]| && grid[i][j] != null ==>
        if i == x then Ticked(grid[i][j], dt) else Idle(grid[i][j])
    {
      var y := 0;
      while y < gridHeight
        invariant 0 <= y <= Span(gridHeight)
        invariant Grown(activeBalls, old(activeBalls))
        invariant GridDistinct(grid) ==> forall i, j :: 0 <= i < |grid| && 0 <= j < |grid[i]| && grid[i][j] != null ==>
          if i == x && j < y then Ticked(grid[i][j], dt) else Idle(grid[i][j])
      {
        var tile := grid[x][y];
        if tile != null {
          assert tile in Tiles();
          tile.Update(dt, game);
          forall i, j | 0 <= i < |grid| && 0 <= j < |grid[i]| && grid[i][j] == tile
            ensures SharedCell(grid, i, j, x, y)
          {
          }
        }
        y := y + 1;
      }
    }

    /** The ball loop of Update: an index walk over the active list while the balls'
        own updates may take balls out of it, so the ball after a removed one waits
        for the next frame. No ball joins the list and the board does not change. */
    method UpdateBalls(dt: real, game: GameManager)
      requires game.levels == this && Valid()
      modifies Tiles()`crack, this`activeBalls, this`ballsLeft, game`state, activeBalls
      ensures forall b :: b in activeBalls ==> b in old(activeBalls)
    {
      var i := 0;
      while i < |activeBalls|
        invariant 0 <= i
        invariant forall b :: b in activeBalls ==> b in old(activeBalls)
        decreases |activeBalls| - i
      {
        assert activeBalls[i] in old(activeBalls);
        assert Tiles() == old(Tiles());
        activeBalls[i].Update(dt, game);
        i := i + 1;
      }
    }
  }

  /** What a ball reaching the centre of `tile` does besides turning the ball: a
      cracked road moves on by Collide, a goal that takes the ball splices it out of
      the active list at its first occurrence, counts it off and frees it, and the
      level fails on a cracked road already cracked or a fire that is on, or is won
      when the goal took the last ball. */
  twostate predicate Collided(tile: LevelObject, ball: Ball, game: GameManager)
    reads tile, ball, game, game.levels
  {
    var lm := game.levels;
    tile.crack == (if tile.kind.CrackedRoad? then CrackedRoadRules.Collide(old(tile.crack)).state else old(tile.crack)) &&
    (if TakesBall(tile.kind, ball.flavor) then
       lm.activeBalls == JsArray.SpliceOne(old(lm.activeBalls), JsArray.IndexOf(old(lm.activeBalls), ball)) &&
       lm.ballsLeft == old(lm.ballsLeft) - 1 && ball.freed == old(ball.freed) + 1
     else
       lm.activeBalls == old(lm.activeBalls) && lm.ballsLeft == old(lm.ballsLeft) && ball.freed == old(ball.freed)) &&
    game.state ==
      if FailsBall(tile.kind, old(tile.crack), tile.fire) then GameFlow.LevelFailed
      else if TakesBall(tile.kind, ball.flavor) && lm.ballsLeft <= 0 then GameFlow.LevelWon
      else old(game.state)
  }

  /** Nothing but the ball's motion changed: the active list, the ball count, the
      ball's release count and the crack state of every tile are as they were. */
  twostate predicate Untouched(ball: Ball, lm: LevelManager, tiles: set<LevelObject>)
    reads ball, lm, tiles
  {
    lm.activeBalls == old(lm.activeBalls) && lm.ballsLeft == old(lm.ballsLeft) && ball.freed == old(ball.freed) &&
    forall o :: o in tiles ==> o.crack == old(o.crack)
  }

  /** The active list lost balls and gained none. */
  predicate Dropped(balls: seq<Ball>, before: seq<Ball>)
  {
    |balls| <= |before| && forall b :: b in balls ==> b in before
  }

  /** The active list kept its balls in order and gained only fresh ones at the end. */
  twostate predicate Grown(new balls: seq<Ball>, before: seq<Ball>)
  {
    |before| <= |balls| && balls[..|before|] == before &&
    forall k :: |before| <= k < |balls| ==> fresh(balls[k])
  }

  /** A tile's timers advanced by one frame: a flicker for a fire, a launch tick for
      a launcher. */
  twostate predicate Clocked(o: LevelObject, dt: real)
    reads o
  {
    o.fire == (if o.kind.Fire? then FireRules.Flicker(o.kind.onDuration, o.kind.offDuration, old(o.fire), dt)
               else old(o.fire)) &&
    o.launch == (if o.kind.Launcher?
                 then LauncherRules.Tick(o.kind.total, o.kind.firstDelay, o.kind.interval, old(o.launch), dt).state
                 else old(o.launch))
  }

  /** A tile advanced by one frame: its timers, and a breaking cracked road's timer. */
  twostate predicate Ticked(o: LevelObject, dt: real)
    reads o
  {
    Clocked(o, dt) &&
    o.crack == if o.kind.CrackedRoad? then CrackedRoadRules.Tick(old(o.crack), dt) else old(o.crack)
  }

  /** A tile's clock state as it was. */
  twostate predicate Idle(o: LevelObject)
    reads o
  {
    unchanged(o`crack, o`fire, o`launch)
  }

  /** The board depends only on the grid, its geometry and the switches' directions. */
  twostate lemma BoardUnchanged(lm: LevelManager)
    requires unchanged(lm`grid, lm`upperLeft, lm`gridWidth, lm`gridHeight)
    requires forall o :: o in old(lm.Tiles()) ==> unchanged(o`facing)
    ensures lm.Tiles() == old(lm.Tiles()) && lm.Board() == old(lm.Board())
  {
  }

  /** The game: which level is loaded and what state play is in. */
  class GameManager {
    var currentLevel: int
    var state: GameFlow.GameState
    const levels: LevelManager

    constructor(l: LevelManager)
      ensures currentLevel == -1 && state == GameFlow.WaitToStart && levels == l
    {
      currentLevel := -1;
      state := GameFlow.WaitToStart;
      levels := l;
    }

    method OnLevelFailed()
      modifies this`state
      ensures state == GameFlow.LevelFailed
    {
      state := GameFlow.LevelFailed;
    }

    method OnLevelWon()
      modifies this`state
      ensures state == GameFlow.LevelWon
    {
      state := GameFlow.LevelWon;
    }

    /** LoadLevel: `level` is the level the catalogue builds for the index; it
        replaces the loaded level in the level manager and the index becomes
        current. The game state stays as it was. */
    method LoadLevel(index: int, level: Level)
      requires 0 <= index < GameFlow.NumLevels && levels.Valid() && level.Complete()
      modifies this`currentLevel, levels`gridWidth, levels`gridHeight, levels`displaySize, levels`upperLeft
      modifies levels`grid, levels`totalBalls, levels`ballsLeft, levels`activeBalls
      modifies levels.Tiles()`freed, levels.activeBalls, level.Objects()`pos, level.Objects()`parent
      ensures currentLevel == index && state == old(state)
      ensures levels.Shows(level) && levels.Tiles() <= level.Objects()
      ensures levels.ballsLeft == levels.totalBalls && levels.activeBalls == []
    {
      levels.LoadLevel(level);
      levels.ShowsLoaded(level);
      currentLevel := index;
    }

    /** Update: the first frame loads the first level; the level manager only
        advances while the game is running. */
    method Update(dt: real, level: Level)
      requires -1 <= currentLevel < GameFlow.NumLevels && levels.Valid()
      requires currentLevel == -1 ==> level.Complete()
      modifies this`currentLevel, this`state, levels`gridWidth, levels`gridHeight, levels`displaySize
      modifies levels`upperLeft, levels`grid, levels`totalBalls, levels`ballsLeft, levels`activeBalls
      modifies levels.Tiles()`freed, levels.Tiles()`crack, levels.Tiles()`fire, levels.Tiles()`launch
      modifies levels.activeBalls, level.Objects()`pos, level.Objects()`parent
      modifies level.Objects()`crack, level.Objects()`fire, level.Objects()`launch
      ensures currentLevel == (if old(currentLevel) == -1 then 0 else old(currentLevel))
      ensures old(currentLevel) == -1 ==> levels.Shows(level)
      ensures old(state) != GameFlow.InGame ==> state == old(state)
      ensures old(state) != GameFlow.InGame && old(currentLevel) == -1 ==>
        levels.ballsLeft == levels.totalBalls && levels.activeBalls == []
      ensures old(state) != GameFlow.InGame && old(currentLevel) != -1 ==>
        unchanged(levels) && unchanged(old(levels.Tiles())) && unchanged(old(levels.activeBalls))
      ensures old(state) == GameFlow.InGame && old(currentLevel) != -1 ==> levels.Board() == old(levels.Board())
      ensures old(state) == GameFlow.InGame && old(currentLevel) != -1 && GridDistinct(old(levels.grid)) ==>
        forall o :: o in old(levels.Tiles()) ==> Clocked(o, dt)
    {
      if currentLevel == -1 {
        LoadLevel(0, level);
      }
      if state != GameFlow.InGame {
        return;
      }
      levels.Update(dt, this);
    }

    /** OnClick: in a running game the tile under the click, if any, is clicked;
        otherwise the click moves the game on as GameFlow.Click says, loading the
        level it names. `level` is the level the catalogue builds for that index. */
    method OnClick(p: Vec, level: Level)
      requires -1 <= currentLevel < GameFlow.NumLevels && levels.Valid()
      requires state == GameFlow.LevelFailed ==> 0 <= currentLevel
      requires state == GameFlow.LevelFailed || state == GameFlow.LevelWon ==> level.Complete()
      modifies this`currentLevel, this`state, levels`gridWidth, levels`gridHeight, levels`displaySize
      modifies levels`upperLeft, levels`grid, levels`totalBalls, levels`ballsLeft, levels`activeBalls
      modifies levels.Tiles()`freed, levels.Tiles()`facing, levels.activeBalls
      modifies level.Objects()`pos, level.Objects()`parent
      ensures state == GameFlow.Click(old(state), old(currentLevel)).state
      ensures var load := GameFlow.Click(old(state), old(currentLevel)).load;
        load.Some? ==> currentLevel == load.value && levels.Shows(level) && levels.ballsLeft == levels.totalBalls
      ensures var load := GameFlow.Click(old(state), old(currentLevel)).load;
        load.Some? ==> levels.activeBalls == []
      ensures var load := GameFlow.Click(old(state), old(currentLevel)).load;
        load.None? ==> currentLevel == old(currentLevel) && unchanged(levels)
      ensures old(state) == GameFlow.WaitToStart ==> unchanged(old(levels.Tiles()))
      ensures old(state) == GameFlow.InGame ==>
        forall o :: o in old(levels.Tiles()) ==>
          o.facing == (if o == old(levels.TileAt(p)) && o.kind.Switch?
                       then SwitchRules.Click(o.kind.configuration, old(o.facing)) else old(o.facing))
    {
      if state == GameFlow.InGame {
        var coords := levels.GetGridCoordsFromScreenCoords(p);
        if coords.Some? {
          var tile := levels.GetLevelObjectAtGridCoords(coords.value);
          if tile != null {
            tile.OnClick();
          }
        }
      } else if state == GameFlow.WaitToStart {
        state := GameFlow.InGame;
      } else if state == GameFlow.LevelFailed {
        LoadLevel(currentLevel, level);
        state := GameFlow.InGame;
      } else {
        if currentLevel + 1 == GameFlow.NumLevels {
          LoadLevel(0, level);
        } else {
          LoadLevel(currentLevel + 1, level);
        }
        state := GameFlow.WaitToStart;
      }
    }
  }
}
