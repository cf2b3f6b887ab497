/** Value types shared by the palette, the bucket table, the canvas and the
    bitmap encoder (utility.h), plus the growth rule of std::vector::resize
    that every Create method of the program relies on. */
module Types {

  /** An RGB triple; channels are plain ints, not clamped to 0..255. */
  datatype RGB = RGB(r: int, g: int, b: int)

  /** The default-constructed colour (0, 0, 0). */
  const Black: RGB := RGB(0, 0, 0)

  /** A pair of ints: a grid size, a pixel count or a position. */
  datatype Vector2n = Vector2n(x: int, y: int)

  datatype Option<T> = None | Some(value: T)

  /** Integer division rounding toward zero, which is what
      static_cast<int>(a / static_cast<double>(b)) yields on exact values. */
  function TruncDiv(a: int, b: int): (q: int)
    requires b > 0
    ensures a >= 0 ==> 0 <= q * b <= a < q * b + b
    ensures a < 0 ==> q * b - b < a <= q * b <= 0
  {
    if a >= 0 then DivFloor(a, b); a / b else DivFloor(-a, b); -((-a) / b)
  }

  /** Euclidean division of a non-negative number: q * b <= a < q * b + b. */
  lemma DivFloor(a: int, b: int)
    requires a >= 0 && b > 0
    ensures 0 <= (a / b) * b <= a < (a / b) * b + b
  {
    var q, r := a / b, a % b;
    assert a == q * b + r && 0 <= r < b;
    assert q >= 0;
  }

  /** std::vector::resize(n, fill): a shorter vector is cut to n entries, a
      longer one keeps its entries and is extended with copies of fill. */
  function Resize<T>(s: seq<T>, n: nat, fill: T): (r: seq<T>)
    ensures |r| == n
    ensures forall k :: 0 <= k < n && k < |s| ==> r[k] == s[k]
    ensures forall k :: |s| <= k < n ==> r[k] == fill
  {
    if n <= |s| then s[..n] else s + seq(n - |s|, _ => fill)
  }
}
