/** src/utils/gameSettings.ts: bringing requested board settings into the playable ranges. */
module Settings {
  import opened JsValues
  import opened MathUtils

  /** `GameSettings` with integer fields, as the game uses them once normalised. */
  datatype GameSettings = GameSettings(width: int, height: int, bombs: int)

  /** Settings as requested: any JavaScript numbers, NaN included. */
  datatype NumberSettings = NumberSettings(width: Number, height: Number, bombs: Number)

  function AsNumbers(g: GameSettings): NumberSettings
  {
    NumberSettings(Int(g.width), Int(g.height), Int(g.bombs))
  }

  const MinWidth := 9
  const MaxWidth := 30
  const MinHeight := 9
  const MaxHeight := 24
  const MinBombs := 10

  /** The largest bomb count a board of this size allows. */
  function MaxBombs(width: int, height: int): int
  {
    (width - 1) * (height - 1)
  }

  /**
   * `normalizeValue`: NaN counts as 0, the fraction is dropped, and the value
   * is clamped. An infinity is clamped to the bound on its side.
   */
  function NormalizeValue(value: Number, min: int, max: int): (r: int)
    ensures min <= max ==> min <= r <= max
    ensures value.Int? && min <= value.n <= max ==> r == value.n
    ensures value.NaN? ==> r == ClampNumber(0, min, max)
    ensures value.Int? ==> r == ClampNumber(value.n, min, max)
    ensures value.Fraction? ==> r == ClampNumber(value.trunc, min, max)
    ensures value == Infinity(true) ==> r == max
    ensures value == Infinity(false) ==> r == min
  {
    var normalized := if value.NaN? then Int(0) else value;
    match Trunc(normalized)
    case Int(n) => ClampNumber(n, min, max)
    case Infinity(positive) => if positive then max else min
    case _ => min // NaN was replaced by 0 and `Trunc` leaves no fraction
  }

  /** A board of at least the minimum size allows at least 64 bombs, more than the minimum. */
  lemma MaxBombsAtLeast(width: int, height: int)
    requires width >= MinWidth && height >= MinHeight
    ensures MaxBombs(width, height) >= 64
  {
    var a, b := width - 1, height - 1;
    assert a * b >= 8 * b by {
      assert (a - 8) * b >= 0;
    }
  }

  /** Settings the game can be played with. */
  predicate IsNormalized(g: GameSettings)
  {
    && MinWidth <= g.width <= MaxWidth
    && MinHeight <= g.height <= MaxHeight
    && MinBombs <= g.bombs <= MaxBombs(g.width, g.height)
  }

  /** `normalizeGameSettings`: the bomb range depends on the width and height already normalised. */
  function NormalizeGameSettings(s: NumberSettings): (g: GameSettings)
    ensures IsNormalized(g)
  {
    var width := NormalizeValue(s.width, MinWidth, MaxWidth);
    var height := NormalizeValue(s.height, MinHeight, MaxHeight);
    MaxBombsAtLeast(width, height);
    GameSettings(width, height, NormalizeValue(s.bombs, MinBombs, MaxBombs(width, height)))
  }

  /** Settings already in range come back unchanged. */
  lemma NormalizeKeepsNormalized(g: GameSettings)
    requires IsNormalized(g)
    ensures NormalizeGameSettings(AsNumbers(g)) == g
  {
  }

  /** Normalising normalised settings changes nothing. */
  lemma NormalizeIdempotent(s: NumberSettings)
    ensures NormalizeGameSettings(AsNumbers(NormalizeGameSettings(s))) == NormalizeGameSettings(s)
  {
    NormalizeKeepsNormalized(NormalizeGameSettings(s));
  }

  /** NaN is read as 0, which is below every lower bound: it becomes the minimum. */
  lemma NaNBecomesMinimum(s: NumberSettings)
    ensures s.width.NaN? ==> NormalizeGameSettings(s).width == MinWidth
    ensures s.height.NaN? ==> NormalizeGameSettings(s).height == MinHeight
    ensures s.bombs.NaN? ==> NormalizeGameSettings(s).bombs == MinBombs
  {
  }

  /** A worked example: too narrow, too tall and a negative bomb count. */
  lemma NormalizeExample()
    ensures NormalizeGameSettings(NumberSettings(Int(5), Int(999), Int(-1))) == GameSettings(9, 24, 10)
  {
  }

  /** A normalised board always leaves at least one cell free of bombs, so the first click can be safe. */
  lemma NormalizedBombsFit(g: GameSettings)
    requires IsNormalized(g)
    ensures 0 <= g.bombs <= g.width * g.height - 1
  {
    assert (g.width - 1) * (g.height - 1) == g.width * g.height - g.width - g.height + 1;
  }
}
