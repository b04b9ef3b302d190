/** The kinds of level tile (LevelObject.js and its subclasses) with their
    construction parameters, which no tile changes afterwards. */
module TileKinds {
  import opened Wrappers
  import opened GameConstants
  import SwitchRules

  /** Durations are never negative: a negative flicker duration would make the fire's
      update recurse without end. */
  type Duration = r: real | 0.0 <= r

  datatype Kind =
    | Plain
    | Road
    | Launcher(direction: Direction, flavor: Flavor, total: int, ballSpeed: real,
               firstDelay: real, interval: real)
    | Arrow(direction: Direction, flavor: Flavor)
    | Switch(configuration: SwitchRules.Configuration, start: Direction, flavor: Flavor)
    | Goal(flavor: Flavor)
    | CrackedRoad
    | Fire(onDuration: Duration, offDuration: Duration, offset: Option<real>)

  /** The LevelObject.LEVEL_OBJECT .. FIRE enum values, stored as `_m_nType`. */
  function TypeCode(k: Kind): (n: nat)
    ensures n < 8
  {
    match k
    case Plain => 0
    case Road => 1
    case Launcher(_, _, _, _, _, _) => 2
    case Arrow(_, _) => 3
    case Switch(_, _, _) => 4
    case Goal(_) => 5
    case CrackedRoad => 6
    case Fire(_, _, _) => 7
  }

  /** Two tiles have the same type code exactly when they are the same kind of tile. */
  lemma TypeCodeIdentifiesKind(a: Kind, b: Kind)
    ensures TypeCode(a) == TypeCode(b) <==>
      (a.Plain? && b.Plain?) || (a.Road? && b.Road?) || (a.Launcher? && b.Launcher?) ||
      (a.Arrow? && b.Arrow?) || (a.Switch? && b.Switch?) || (a.Goal? && b.Goal?) ||
      (a.CrackedRoad? && b.CrackedRoad?) || (a.Fire? && b.Fire?)
  {
  }

  /** CanBallEnter: every tile admits balls except a Launcher. */
  predicate AdmitsBalls(k: Kind)
  {
    !k.Launcher?
  }

  /** The flavour a tile's ball handler checks, for the kinds that have one. */
  function FlavorOf(k: Kind): Option<Flavor>
  {
    match k
    case Launcher(_, f, _, _, _, _) => Some(f)
    case Arrow(_, f) => Some(f)
    case Switch(_, _, f) => Some(f)
    case Goal(f) => Some(f)
    case _ => None
  }
}
