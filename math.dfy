/** src/utils/math.ts: clamping, the integer-like text test and the integer type guard. */
module MathUtils {
  import opened Decimal
  import opened JsValues

  /** `clampNumber`: the lower bound is tested first, so with `min > max` a small value still gives `min`. */
  function ClampNumber(value: int, min: int, max: int): (r: int)
    ensures min <= max ==> min <= r <= max
    ensures min <= value <= max ==> r == value
    ensures r == value || r == min || r == max
  {
    if value < min then min
    else if value > max then max
    else value
  }

  /** Clamping into a non-empty range twice is clamping once. */
  lemma ClampIdempotent(value: int, min: int, max: int)
    requires min <= max
    ensures ClampNumber(ClampNumber(value, min, max), min, max) == ClampNumber(value, min, max)
  {
  }

  /** Clamping into a non-empty range is monotone: a larger value never clamps to a smaller result. */
  lemma ClampMonotone(a: int, b: int, min: int, max: int)
    requires min <= max && a <= b
    ensures ClampNumber(a, min, max) <= ClampNumber(b, min, max)
  {
  }

  /** One match of the pattern `-?[1-9]\d*|0`. */
  predicate IntToken(t: string)
  {
    t == "0" ||
    (var u := if |t| > 0 && t[0] == '-' then t[1..] else t;
     1 <= |u| && '1' <= u[0] <= '9' && AllDigits(u))
  }

  /** `isLikeInt`: the pattern is not anchored, so a match anywhere in the text is enough. */
  predicate IsLikeInt(s: string)
  {
    exists i, j | 0 <= i <= j <= |s| :: IntToken(s[i..j])
  }

  /** Because the pattern is not anchored, `isLikeInt` holds exactly when the text has a digit somewhere. */
  lemma IsLikeIntIffDigit(s: string)
    ensures IsLikeInt(s) <==> exists k :: 0 <= k < |s| && IsDigit(s[k])
  {
    if IsLikeInt(s) {
      var i, j :| 0 <= i <= j <= |s| && IntToken(s[i..j]);
      var t := s[i..j];
      if t == "0" {
        assert s[i] == t[0];
      } else if t[0] == '-' {
        assert s[i + 1] == t[1];
      } else {
        assert s[i] == t[0];
      }
    }
    if exists k :: 0 <= k < |s| && IsDigit(s[k]) {
      var k :| 0 <= k < |s| && IsDigit(s[k]);
      var t := s[k..k + 1];
      assert t == [s[k]];
      assert IntToken(t);
    }
  }

  /** `isInteger` (`Number.isInteger`): only a number without a fractional part; never NaN or an infinity. */
  predicate IsInteger(v: JsValue)
  {
    v.JsNumber? && v.num.Int?
  }
}
