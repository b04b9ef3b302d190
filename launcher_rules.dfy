/** The launch timer of a Launcher tile (Launcher.js): it accumulates time and, after
    a first delay and then at a fixed interval, launches one ball until none are left. */
module LauncherRules {

  /** `_m_nNumBallsLeft` and `_m_dLaunchTimer`. */
  datatype Launch = Launch(ballsLeft: int, timer: real)

  /** The state after construction: every ball still to launch, timer at zero. */
  function Initial(total: int): (s: Launch)
    ensures s.ballsLeft == total && s.timer == 0.0
  {
    Launch(total, 0.0)
  }

  /** The result of one Update: the new state and whether a ball was launched. */
  datatype TickResult = TickResult(state: Launch, launched: bool)

  /** One Update(dt): the timer always grows by dt first; with balls left it fires
      once it reaches the first delay (before any launch) or the interval (after). A
      launch uses up one ball and resets the timer, dropping any overshoot. */
  function Tick(total: int, firstDelay: real, interval: real, s: Launch, dt: real): TickResult
  {
    var timer := s.timer + dt;
    if s.ballsLeft == 0 then TickResult(Launch(0, timer), false)
    else
      var wait := if total == s.ballsLeft then firstDelay else interval;
      if timer >= wait then TickResult(Launch(s.ballsLeft - 1, 0.0), true)
      else TickResult(Launch(s.ballsLeft, timer), false)
  }

  /** What one tick does, case by case. */
  lemma TickMeaning(total: int, firstDelay: real, interval: real, s: Launch, dt: real)
    ensures var r := Tick(total, firstDelay, interval, s, dt);
      (s.ballsLeft == 0 ==> !r.launched && r.state == Launch(0, s.timer + dt)) &&
      (s.ballsLeft != 0 && s.ballsLeft == total ==> (r.launched <==> s.timer + dt >= firstDelay)) &&
      (s.ballsLeft != 0 && s.ballsLeft != total ==> (r.launched <==> s.timer + dt >= interval)) &&
      (r.launched ==> r.state == Launch(s.ballsLeft - 1, 0.0)) &&
      (!r.launched ==> r.state == Launch(s.ballsLeft, s.timer + dt))
  {
  }

  /** Balls left stays between 0 and the total on every tick. */
  lemma TickKeepsBounds(total: int, firstDelay: real, interval: real, s: Launch, dt: real)
    requires 0 <= s.ballsLeft <= total
    ensures var r := Tick(total, firstDelay, interval, s, dt);
      0 <= r.state.ballsLeft <= total &&
      r.state.ballsLeft == (if r.launched then s.ballsLeft - 1 else s.ballsLeft)
  {
  }

  /** The state after a run of Updates, and the number of balls it launched. */
  function Run(total: int, firstDelay: real, interval: real, s: Launch, dts: seq<real>): Launch
    decreases |dts|
  {
    if |dts| == 0 then s
    else Run(total, firstDelay, interval, Tick(total, firstDelay, interval, s, dts[0]).state, dts[1..])
  }

  function Launched(total: int, firstDelay: real, interval: real, s: Launch, dts: seq<real>): nat
    decreases |dts|
  {
    if |dts| == 0 then 0
    else
      var r := Tick(total, firstDelay, interval, s, dts[0]);
      (if r.launched then 1 else 0) + Launched(total, firstDelay, interval, r.state, dts[1..])
  }

  /** Over any run starting within bounds, each launch uses up exactly one ball: the
      launches and the balls left add up to the balls left at the start, so a launcher
      never launches more than its total. */
  lemma {:induction false} RunAccounting(total: int, firstDelay: real, interval: real, s: Launch, dts: seq<real>)
    requires 0 <= s.ballsLeft <= total
    ensures var e := Run(total, firstDelay, interval, s, dts);
      0 <= e.ballsLeft <= total &&
      Launched(total, firstDelay, interval, s, dts) + e.ballsLeft == s.ballsLeft
    decreases |dts|
  {
    if |dts| > 0 {
      TickKeepsBounds(total, firstDelay, interval, s, dts[0]);
      var r := Tick(total, firstDelay, interval, s, dts[0]);
      RunAccounting(total, firstDelay, interval, r.state, dts[1..]);
    }
  }

  /** The single ball of a one-ball launcher with a first delay of 1 second goes out
      on the tick that brings the timer to 1, and nothing follows. */
  lemma OneBallExample()
    ensures Tick(1, 1.0, 1.0, Initial(1), 0.5) == TickResult(Launch(1, 0.5), false)
    ensures Tick(1, 1.0, 1.0, Launch(1, 0.5), 0.5) == TickResult(Launch(0, 0.0), true)
    ensures Tick(1, 1.0, 1.0, Launch(0, 0.0), 5.0) == TickResult(Launch(0, 5.0), false)
  {
  }
}
