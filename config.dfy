/**
 * The game's difficulty levels (src/main.rs:22-48) and the mapping from the
 * difficulty chooser's selected index to a level (src/main.rs:154-158).
 */
module Config {
  import opened UInt32

  datatype Difficulty = Easy | Medium | Hard

  /** Rust's `RangeInclusive<u32>`: every `x` with `lo <= x <= hi`. */
  datatype Interval = Interval(lo: u32, hi: u32)

  predicate Contains(r: Interval, x: int) {
    r.lo <= x <= r.hi
  }

  /**
   * `Difficulty::range`: the secret is drawn from a non-empty interval that
   * starts at 1 and ends at 100, 500 or 1000 (which one goes with which level
   * is fixed by `HarderIsHarder`).
   */
  function Range(d: Difficulty): (r: Interval)
    ensures r.lo == 1 && r.lo <= r.hi
    ensures r.hi == 100 || r.hi == 500 || r.hi == 1000
  {
    match d
    case Easy => Interval(1, 100)
    case Medium => Interval(1, 500)
    case Hard => Interval(1, 1000)
  }

  /** `Difficulty::attempts`: the attempt budget, 10, 9 or 8, so never zero. */
  function Attempts(d: Difficulty): (n: u32)
    ensures 1 <= n
    ensures n == 8 || n == 9 || n == 10
  {
    match d
    case Easy => 10
    case Medium => 9
    case Hard => 8
  }

  /** The position of each level in the chooser, in the order the choices are added. */
  function ChoiceIndex(d: Difficulty): (i: int)
    ensures 0 <= i <= 2
  {
    match d
    case Easy => 0
    case Medium => 1
    case Hard => 2
  }

  /** The chooser's initial selection. */
  const DefaultChoice: int := 0

  /**
   * The `NewGame` handler's reading of the chooser: each listed position
   * gives its own level, and any other value (no selection, say) falls back
   * to `Easy`.
   */
  function FromChoice(i: int): (d: Difficulty)
    ensures 0 <= i <= 2 ==> ChoiceIndex(d) == i
    ensures !(0 <= i <= 2) ==> d == Easy
  {
    match i
    case 1 => Medium
    case 2 => Hard
    case _ => Easy
  }

  /** Reading back a level's own position selects that level; the default selection is the level of the first game. */
  lemma ChoiceRoundTrip(d: Difficulty)
    ensures FromChoice(ChoiceIndex(d)) == d
    ensures FromChoice(DefaultChoice) == Easy
  {
  }

  /** Further down the chooser, the secret range widens and the budget shrinks. */
  lemma HarderIsHarder(d1: Difficulty, d2: Difficulty)
    requires ChoiceIndex(d1) < ChoiceIndex(d2)
    ensures Range(d1).hi < Range(d2).hi
    ensures Attempts(d1) > Attempts(d2)
  {
  }
}
