/** The game-flow rules of GameManager.js: the four game states, what a click does in
    each of them, and the order the levels are played in. */
module GameFlow {
  import opened Wrappers

  datatype GameState = InGame | WaitToStart | LevelFailed | LevelWon

  /** The GameManager.IN_GAME .. LEVEL_WON enum values. */
  function StateCode(s: GameState): (n: nat)
    ensures n < 4
  {
    match s
    case InGame => 0
    case WaitToStart => 1
    case LevelFailed => 2
    case LevelWon => 3
  }

  lemma StateCodeInjective(a: GameState, b: GameState)
    ensures StateCode(a) == StateCode(b) <==> a == b
  {
  }

  /** LevelCreationFunctions.nNumLevels. */
  const NumLevels: int := 10

  /** The level a won level is followed by: the next one, wrapping to the first
      after the last. */
  function NextLevel(index: int): int
  {
    if index + 1 == NumLevels then 0 else index + 1
  }

  /** Starting from any level of the catalogue, the next level is in the catalogue
      too, and it is the following index except after the last level. */
  lemma NextLevelInRange(index: int)
    requires 0 <= index < NumLevels
    ensures 0 <= NextLevel(index) < NumLevels
    ensures index < NumLevels - 1 ==> NextLevel(index) == index + 1
    ensures index == NumLevels - 1 ==> NextLevel(index) == 0
  {
  }

  /** The level after n wins. */
  function Advanced(index: int, n: nat): int
    decreases n
  {
    if n == 0 then index else Advanced(NextLevel(index), n - 1)
  }

  /** Winning every level in a row cycles through the catalogue: after k wins from
      the first level the game is at level k, and after NumLevels wins it is back
      at the start. */
  lemma {:induction false} AdvancedFromStart(k: nat)
    requires k <= NumLevels
    ensures Advanced(0, k) == k % NumLevels
  {
    AdvancedSplit(0, k);
  }

  lemma {:induction false} AdvancedSplit(index: int, k: nat)
    requires 0 <= index < NumLevels && index + k <= NumLevels
    ensures Advanced(index, k) == (index + k) % NumLevels
    decreases k
  {
    if k > 0 && index + 1 < NumLevels {
      AdvancedSplit(index + 1, k - 1);
    }
  }

  lemma CatalogueCycles(index: int)
    requires 0 <= index < NumLevels
    ensures Advanced(index, NumLevels as nat) == index
  {
    AdvancedFrom(index, NumLevels - index);
    AdvancedFromStart(index);
    AdvancedCompose(index, (NumLevels - index) as nat, index as nat);
  }

  lemma {:induction false} AdvancedFrom(index: int, k: nat)
    requires 0 <= index < NumLevels && index + k == NumLevels
    ensures Advanced(index, k) == 0
  {
    AdvancedSplit(index, k);
  }

  lemma {:induction false} AdvancedCompose(index: int, j: nat, k: nat)
    ensures Advanced(index, j + k) == Advanced(Advanced(index, j), k)
    decreases j
  {
    if j > 0 {
      AdvancedCompose(NextLevel(index), j - 1, k);
    }
  }

  /** What a click does to the game state and which level, if any, it loads. */
  datatype ClickOutcome = ClickOutcome(state: GameState, load: Option<int>)

  function Click(s: GameState, level: int): ClickOutcome
  {
    match s
    case InGame => ClickOutcome(InGame, None)
    case WaitToStart => ClickOutcome(InGame, None)
    case LevelFailed => ClickOutcome(InGame, Some(level))
    case LevelWon => ClickOutcome(WaitToStart, Some(NextLevel(level)))
  }

  /** A click starts a waiting level, restarts a failed one, moves a won game on to
      the next level and leaves a running game running; it loads a level exactly
      when the level is over. */
  lemma ClickMeaning(s: GameState, level: int)
    ensures Click(s, level).load.Some? <==> s == LevelFailed || s == LevelWon
    ensures s == LevelFailed ==> Click(s, level).load == Some(level)
    ensures s == LevelWon ==> Click(s, level).load == Some(NextLevel(level))
    ensures Click(s, level).state == (if s == LevelWon then WaitToStart else InGame)
  {
  }

  /** From a won level two clicks start the next level. */
  lemma WinThenStart(level: int)
    ensures var c := Click(LevelWon, level);
      c.state == WaitToStart && Click(c.state, c.load.value).state == InGame &&
      Click(c.state, c.load.value).load.None?
  {
  }
}
