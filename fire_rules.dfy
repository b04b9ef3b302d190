/** The flicker of a Fire tile (Fire.js): it is on for one duration, off for another,
    and an update that overruns the state it switches into carries the rest of the
    time on into the next switch. */
module FireRules {
  import opened Wrappers

  /** `_m_bOn` and `_m_dFlickerTimer`. */
  datatype FireState = FireState(on: bool, timer: real)

  /** A new fire is on; its timer starts at the given offset when there is one that
      does not exceed the on duration, and at 0 otherwise. */
  function Initial(onDuration: real, offset: Option<real>): FireState
  {
    FireState(true, if offset.Some? && offset.value <= onDuration then offset.value else 0.0)
  }

  lemma InitialMeaning(onDuration: real, offset: Option<real>)
    ensures Initial(onDuration, offset).on
    ensures offset.Some? && offset.value <= onDuration ==> Initial(onDuration, offset).timer == offset.value
    ensures offset.None? || offset.value > onDuration ==> Initial(onDuration, offset).timer == 0.0
    ensures (offset.None? || offset.value >= 0.0) && onDuration >= 0.0 ==>
      0.0 <= Initial(onDuration, offset).timer <= onDuration
  {
  }

  /** A fire whose durations are both below 0.1 never changes, which keeps the
      recursion from running away. */
  predicate Frozen(onDuration: real, offDuration: real)
  {
    offDuration < 0.1 && onDuration < 0.1
  }

  /** How long the current state lasts. */
  function Duration(onDuration: real, offDuration: real, on: bool): real
  {
    if on then onDuration else offDuration
  }

  /** Twice the number of half-cycles the update still covers, counted from the start
      of the on phase; each recursive call uses up one. */
  function Phases(onDuration: real, offDuration: real, s: FireState, dt: real): real
    requires onDuration >= 0.0 && offDuration >= 0.0 && !Frozen(onDuration, offDuration)
  {
    var t := s.timer + dt;
    var sinceOn := if s.on then t else onDuration + t;
    2.0 * sinceOn / (onDuration + offDuration) + (if s.on then 1.0 else 0.0)
  }

  lemma PhasesStep(onDuration: real, offDuration: real, a: real, b: real)
    requires onDuration >= 0.0 && offDuration >= 0.0 && !Frozen(onDuration, offDuration)
    requires b == a - (onDuration + offDuration)
    ensures 2.0 * b / (onDuration + offDuration) == 2.0 * a / (onDuration + offDuration) - 2.0
  {
    var p := onDuration + offDuration;
    assert p > 0.0;
    assert 2.0 * b == 2.0 * a - 2.0 * p;
    assert (2.0 * a - 2.0 * p) / p == 2.0 * a / p - 2.0 * p / p;
    assert 2.0 * p / p == 2.0;
  }

  /** Fire.Update(dt). */
  function Flicker(onDuration: real, offDuration: real, s: FireState, dt: real): FireState
    requires onDuration >= 0.0 && offDuration >= 0.0
    decreases if Frozen(onDuration, offDuration) then 0.0 else Phases(onDuration, offDuration, s, dt)
  {
    if Frozen(onDuration, offDuration) then s
    else
      var t := s.timer + dt;
      if s.on && t >= onDuration then
        var left := t - onDuration;
        if left > offDuration then Flicker(onDuration, offDuration, FireState(false, 0.0), left)
        else FireState(false, left)
      else if !s.on && t >= offDuration then
        var left := t - offDuration;
        assert onDuration + left == t + onDuration - offDuration;
        PhasesStep(onDuration, offDuration, onDuration + t, left);
        if left > onDuration then Flicker(onDuration, offDuration, FireState(true, 0.0), left)
        else FireState(true, left)
      else FireState(s.on, t)
  }

  /** Below the current state's duration only the timer moves. */
  lemma FlickerSteady(onDuration: real, offDuration: real, s: FireState, dt: real)
    requires onDuration >= 0.0 && offDuration >= 0.0 && !Frozen(onDuration, offDuration)
    requires s.timer + dt < Duration(onDuration, offDuration, s.on)
    ensures Flicker(onDuration, offDuration, s, dt) == FireState(s.on, s.timer + dt)
  {
  }

  /** A frozen fire ignores every update. */
  lemma FlickerFrozen(onDuration: real, offDuration: real, s: FireState, dt: real)
    requires onDuration >= 0.0 && offDuration >= 0.0 && Frozen(onDuration, offDuration)
    ensures Flicker(onDuration, offDuration, s, dt) == s
  {
  }

  /** An update that reaches the current duration ends with the timer inside the span
      of the state it finishes in. */
  lemma {:induction false} FlickerToggledBounds(onDuration: real, offDuration: real, s: FireState, dt: real)
    requires onDuration >= 0.0 && offDuration >= 0.0 && !Frozen(onDuration, offDuration)
    requires s.timer + dt >= Duration(onDuration, offDuration, s.on)
    ensures var r := Flicker(onDuration, offDuration, s, dt);
      0.0 <= r.timer <= Duration(onDuration, offDuration, r.on)
    decreases Phases(onDuration, offDuration, s, dt)
  {
    var t := s.timer + dt;
    if s.on {
      var left := t - onDuration;
      if left > offDuration {
        FlickerToggledBounds(onDuration, offDuration, FireState(false, 0.0), left);
      }
    } else {
      var left := t - offDuration;
      PhasesStep(onDuration, offDuration, onDuration + t, left);
      if left > onDuration {
        FlickerToggledBounds(onDuration, offDuration, FireState(true, 0.0), left);
      }
    }
  }

  /** Starting with the timer inside the current span and a non-negative dt, every
      update keeps the timer inside the span of the state it ends in. */
  lemma FlickerKeepsTimerInSpan(onDuration: real, offDuration: real, s: FireState, dt: real)
    requires onDuration >= 0.0 && offDuration >= 0.0 && !Frozen(onDuration, offDuration)
    requires 0.0 <= s.timer && 0.0 <= dt
    ensures var r := Flicker(onDuration, offDuration, s, dt);
      0.0 <= r.timer <= Duration(onDuration, offDuration, r.on)
  {
    if s.timer + dt >= Duration(onDuration, offDuration, s.on) {
      FlickerToggledBounds(onDuration, offDuration, s, dt);
    }
  }

  /** A fire with no off time that runs strictly past its on duration in one update
      ends that update on again: it never shows as off between updates. */
  lemma {:induction false} Unblinking(onDuration: real, s: FireState, dt: real)
    requires onDuration >= 0.0 && s.on && s.timer + dt > onDuration
    ensures Flicker(onDuration, 0.0, s, dt).on
    decreases if Frozen(onDuration, 0.0) then 0.0 else Phases(onDuration, 0.0, s, dt)
  {
    if !Frozen(onDuration, 0.0) {
      var left := s.timer + dt - onDuration;
      var off := FireState(false, 0.0);
      assert Flicker(onDuration, 0.0, s, dt) == Flicker(onDuration, 0.0, off, left);
      PhasesStep(onDuration, 0.0, onDuration + left, left);
      if left > onDuration {
        assert Flicker(onDuration, 0.0, off, left) == Flicker(onDuration, 0.0, FireState(true, 0.0), left);
        Unblinking(onDuration, FireState(true, 0.0), left);
      }
    }
  }

  /** Landing exactly on the on duration, that same fire is off until the next update. */
  lemma UnblinkingBoundary()
    ensures Flicker(1.0, 0.0, FireState(true, 0.5), 0.5) == FireState(false, 0.0)
  {
  }

  /** A ball reaching the centre fails the level exactly when the fire is on. */
  predicate FailsOnCollision(s: FireState)
  {
    s.on
  }
}
