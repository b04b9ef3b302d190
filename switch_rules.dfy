/** How a Switch tile turns when clicked (Switch.js): the configuration fixes the set of
    directions it can face and the order a click steps through them. */
module SwitchRules {
  import opened GameConstants

  datatype Configuration =
    | TwoWay           // up/down or left/right, flipping
    | FourWay          // every direction, clockwise
    | CornerUpRight
    | CornerRightDown
    | CornerDownLeft
    | CornerLeftUp

  /** The Switch.TWO_WAY .. Switch.CORNER_LEFT_UP enum values. */
  function ConfigurationCode(c: Configuration): (n: nat)
    ensures 1 <= n <= 6
  {
    match c
    case TwoWay => 1
    case FourWay => 2
    case CornerUpRight => 3
    case CornerRightDown => 4
    case CornerDownLeft => 5
    case CornerLeftUp => 6
  }

  /** The direction a switch faces after one click. */
  function Click(c: Configuration, d: Direction): Direction
  {
    match c
    case TwoWay =>
      (match d case Up => Down case Down => Up case Left => Right case Right => Left)
    case FourWay =>
      (match d case Up => Right case Right => Down case Down => Left case Left => Up)
    case CornerUpRight =>
      if d == Up then Right else if d == Right then Up else d
    case CornerRightDown =>
      if d == Right then Down else if d == Down then Right else d
    case CornerDownLeft =>
      if d == Down then Left else if d == Left then Down else d
    case CornerLeftUp =>
      if d == Left then Up else if d == Up then Left else d
  }

  /** The direction after n clicks. */
  function Clicks(c: Configuration, d: Direction, n: nat): Direction
    decreases n
  {
    if n == 0 then d else Clicks(c, Click(c, d), n - 1)
  }

  /** The two directions of a corner configuration. */
  function Corner(c: Configuration): (pair: (Direction, Direction))
    requires c != TwoWay && c != FourWay
    ensures pair.0 != pair.1
  {
    match c
    case CornerUpRight => (Up, Right)
    case CornerRightDown => (Right, Down)
    case CornerDownLeft => (Down, Left)
    case CornerLeftUp => (Left, Up)
  }

  /** A two-way switch flips to the opposite direction, so two clicks restore it. */
  lemma TwoWayFlips(d: Direction)
    ensures Click(TwoWay, d) != d
    ensures Clicks(TwoWay, d, 2) == d
  {
  }

  /** A four-way switch visits all four directions and comes back after four clicks. */
  lemma FourWayCycles(d: Direction)
    ensures Click(FourWay, d) != d && Clicks(FourWay, d, 2) != d && Clicks(FourWay, d, 3) != d
    ensures Clicks(FourWay, d, 4) == d
  {
  }

  /** A corner switch facing one of its two directions toggles to the other one;
      facing any other direction a click leaves it as it is. */
  lemma CornerToggles(c: Configuration, d: Direction)
    requires c != TwoWay && c != FourWay
    ensures d == Corner(c).0 ==> Click(c, d) == Corner(c).1
    ensures d == Corner(c).1 ==> Click(c, d) == Corner(c).0
    ensures d != Corner(c).0 && d != Corner(c).1 ==> Click(c, d) == d
  {
  }

  /** Every configuration returns to its start after two or four clicks, so the
      number of clicks only matters modulo 4. */
  lemma {:induction false} ClicksPeriodic(c: Configuration, d: Direction, n: nat)
    ensures Clicks(c, d, n + 4) == Clicks(c, d, n)
    decreases n
  {
    if n == 0 {
      assert Clicks(c, d, 4) == d by {
        if c == FourWay {
          FourWayCycles(d);
        } else if c == TwoWay {
          TwoWayFlips(d);
          TwoWayFlips(Clicks(TwoWay, d, 2));
        } else {
          CornerToggles(c, d);
        }
      }
    } else {
      ClicksPeriodic(c, Click(c, d), n - 1);
    }
  }
}
