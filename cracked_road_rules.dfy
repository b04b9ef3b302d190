/** The break-state machine of a CrackedRoad tile (CrackedRoad.js): the first ball to
    reach its centre cracks it, it finishes breaking half a second later, and any ball
    reaching it after the first fails the level. */
module CrackedRoadRules {

  datatype Stage = Unbroken | Breaking | Broken

  /** The CrackedRoad.UNBROKEN .. BROKEN enum values, which are also the order the
      stages are passed through. */
  function StageCode(s: Stage): (n: nat)
    ensures n < 3
  {
    match s
    case Unbroken => 0
    case Breaking => 1
    case Broken => 2
  }

  const BreakingDuration: real := 0.5

  /** `_m_nBreakState` and `_m_dBreakingTimer`. */
  datatype Crack = Crack(stage: Stage, timer: real)

  const Initial: Crack := Crack(Unbroken, 0.0)

  /** The result of a ball reaching the centre: the new state and whether the level fails. */
  datatype CollisionResult = CollisionResult(state: Crack, fails: bool)

  function Collide(c: Crack): CollisionResult
  {
    if c.stage == Unbroken then CollisionResult(Crack(Breaking, 0.0), false)
    else CollisionResult(c, true)
  }

  function Tick(c: Crack, dt: real): Crack
  {
    if c.stage == Breaking then
      var timer := c.timer + dt;
      Crack(if timer >= BreakingDuration then Broken else Breaking, timer)
    else c
  }

  /** A collision fails the level exactly when the road is already cracked, and
      then leaves it as it was; the first collision starts the break with timer 0. */
  lemma CollideMeaning(c: Crack)
    ensures Collide(c).fails <==> c.stage != Unbroken
    ensures Collide(c).fails ==> Collide(c).state == c
    ensures !Collide(c).fails ==> Collide(c).state == Crack(Breaking, 0.0)
  {
  }

  /** Only a breaking road changes on a tick: its timer grows by dt, and it is broken
      once the timer reaches the breaking duration. */
  lemma TickMeaning(c: Crack, dt: real)
    ensures c.stage != Breaking ==> Tick(c, dt) == c
    ensures c.stage == Breaking ==> Tick(c, dt).timer == c.timer + dt
    ensures c.stage == Breaking ==>
      (Tick(c, dt).stage == Broken <==> c.timer + dt >= BreakingDuration)
  {
  }

  /** A collision or a tick never moves the stage backwards. */
  lemma NeverBackwards(c: Crack, dt: real)
    ensures StageCode(Collide(c).state.stage) >= StageCode(c.stage)
    ensures StageCode(Tick(c, dt).stage) >= StageCode(c.stage)
  {
  }

  function Sum(dts: seq<real>): real
    decreases |dts|
  {
    if |dts| == 0 then 0.0 else dts[0] + Sum(dts[1..])
  }

  function Run(c: Crack, dts: seq<real>): Crack
    decreases |dts|
  {
    if |dts| == 0 then c else Run(Tick(c, dts[0]), dts[1..])
  }

  /** Over a run of ticks the stage only moves forwards, and a breaking road given
      at least one tick, all non-negative and adding up to the rest of the breaking
      time, ends broken. */
  lemma {:induction false} RunForwards(c: Crack, dts: seq<real>)
    ensures StageCode(Run(c, dts).stage) >= StageCode(c.stage)
    ensures c.stage == Broken ==> Run(c, dts) == c
    ensures (c.stage == Breaking && |dts| > 0 && (forall i :: 0 <= i < |dts| ==> dts[i] >= 0.0) &&
             c.timer + Sum(dts) >= BreakingDuration) ==> Run(c, dts).stage == Broken
    decreases |dts|
  {
    if |dts| > 0 {
      var next := Tick(c, dts[0]);
      RunForwards(next, dts[1..]);
      if c.stage == Breaking && (forall i :: 0 <= i < |dts| ==> dts[i] >= 0.0) &&
         c.timer + Sum(dts) >= BreakingDuration
      {
        if next.stage == Breaking {
          assert forall i :: 0 <= i < |dts[1..]| ==> dts[1..][i] == dts[i + 1];
          assert next.timer + Sum(dts[1..]) >= BreakingDuration;
        }
      }
    }
  }
}
