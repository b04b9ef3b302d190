/** The game-wide constants and enums (GameConstants.js) and the flavour rule every
    tile's ball handler applies before it acts. */
module GameConstants {

  /** The side of one grid cell in pixels, and half of it. */
  const CellSize: real := 48.0
  const HalfCellSize: real := 24.0
  /** The band at the top of the canvas that the level is centred below. */
  const TopBufferSize: real := 64.0

  datatype Direction = Up | Down | Left | Right
  datatype Flavor = Red | Blue | Purple

  /** The enum values of GameConstants.UP .. RIGHT and RED .. PURPLE. */
  function DirectionCode(d: Direction): (n: nat)
    ensures n < 4
  {
    match d
    case Up => 0
    case Down => 1
    case Left => 2
    case Right => 3
  }

  function FlavorCode(f: Flavor): (n: nat)
    ensures n < 3
  {
    match f
    case Red => 0
    case Blue => 1
    case Purple => 2
  }

  /** The codes tell the values apart, so the enums are modelled without loss. */
  lemma CodesInjective(d: Direction, e: Direction, f: Flavor, g: Flavor)
    ensures DirectionCode(d) == DirectionCode(e) ==> d == e
    ensures FlavorCode(f) == FlavorCode(g) ==> f == g
  {
  }

  /** A tile reacts to a ball unless one is Red and the other Blue. */
  predicate Interacts(ball: Flavor, tile: Flavor)
  {
    !((ball == Blue && tile == Red) || (ball == Red && tile == Blue))
  }

  /** Equal flavours interact, and Purple on either side interacts with everything. */
  lemma InteractsMeaning(ball: Flavor, tile: Flavor)
    ensures Interacts(ball, tile) <==> ball == tile || ball == Purple || tile == Purple
    ensures Interacts(ball, tile) <==> Interacts(tile, ball)
  {
  }
}
