/**
 * Integer rectangles and the few numeric conversions of the C# code that the
 * model needs written out: C#'s truncating integer division by two, the
 * truncating `(int)` cast of a float, and Unity's Mathf.Lerp and Mathf.Clamp.
 * Floats are modelled as exact reals (no rounding).
 */
module Geometry {

  /** Unity's RectInt: an integer origin and an integer size. */
  datatype RectInt = RectInt(x: int, y: int, width: int, height: int) {
    function XMax(): int { x + width }
    function YMax(): int { y + height }
  }

  /** C#'s `n / 2` on int: the quotient is truncated toward zero. */
  function HalfTowardZero(n: int): (r: int)
    ensures 0 <= n ==> 0 <= r && 0 <= n - 2 * r <= 1
    ensures n < 0 ==> r <= 0 && 0 <= 2 * r - n <= 1
  {
    if n >= 0 then n / 2 else -((-n) / 2)
  }

  /** C#'s `(int)` cast of a float: truncation toward zero. */
  function TruncateToInt(v: real): (r: int)
    ensures 0.0 <= v ==> r as real <= v < r as real + 1.0
    ensures v < 0.0 ==> r as real - 1.0 < v <= r as real
  {
    if v >= 0.0 then v.Floor else -((-v).Floor)
  }

  function Clamp01(t: real): (r: real)
    ensures 0.0 <= r <= 1.0
  {
    if t < 0.0 then 0.0 else if t > 1.0 then 1.0 else t
  }

  /** Mathf.Lerp: interpolation with the parameter clamped to [0, 1]. */
  function Lerp(a: real, b: real, t: real): real {
    a + (b - a) * Clamp01(t)
  }

  /** Mathf.Clamp: `min` if below it, otherwise `max` if above that. */
  function Clamp(v: real, min: real, max: real): (r: real)
    ensures min <= max ==> min <= r <= max
    ensures min <= v <= max ==> r == v
  {
    if v < min then min else if v > max then max else v
  }

  function Max(a: int, b: int): int { if a >= b then a else b }
  function Min(a: int, b: int): int { if a <= b then a else b }

  /**
   * AlgorithmsUtils.Intersect, whose source is not part of this model: the
   * axis-aligned overlap of the two rectangles, and the empty RectInt when
   * they do not overlap.
   */
  function Intersect(a: RectInt, b: RectInt): (r: RectInt)
    ensures r.width >= 0 && r.height >= 0
    ensures r.width > 0 ==> a.x <= r.x && b.x <= r.x && r.XMax() <= a.XMax() && r.XMax() <= b.XMax()
    ensures r.height > 0 ==> a.y <= r.y && b.y <= r.y && r.YMax() <= a.YMax() && r.YMax() <= b.YMax()
  {
    var x := Max(a.x, b.x);
    var y := Max(a.y, b.y);
    var w := Min(a.XMax(), b.XMax()) - x;
    var h := Min(a.YMax(), b.YMax()) - y;
    if w <= 0 || h <= 0 then RectInt(0, 0, 0, 0) else RectInt(x, y, w, h)
  }
}
