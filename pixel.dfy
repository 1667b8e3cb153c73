/** The `Pixel2D` interface and what its two implementations, `Index2D` and
    `PointInt2D`, share: an immutable pair of `int` coordinates, equality by
    coordinates across both classes, the hash `31*x + y` and the text `"x,y"`.
    Both classes spell these three methods identically, so they are defined once here. */
module Pixel {
  import opened JavaInt

  /** A non-null `Pixel2D`: which class it is, and its coordinates. */
  datatype Pixel2D = Index2D(x: int32, y: int32) | PointInt2D(x: int32, y: int32)

  /** A `PointInt2D` reference, the parameter type of its copy constructor. */
  type PointInt = p: Pixel2D | p.PointInt2D? witness PointInt2D(0, 0)

  /** What `equals(Object)` may be handed: null, a pixel of either class, or
      any other object (a `String`, an `Integer`, ...). */
  datatype Object = Null | PixelObject(pixel: Pixel2D) | OtherObject

  /** Why a constructor threw. */
  datatype PixelError = NullArgument | BadPositionString

  /** `toString()`: `x + "," + y`. */
  function ToString(p: Pixel2D): string
  {
    DecimalString(p.x) + "," + DecimalString(p.y)
  }

  /** `equals(Object)`: `o` is a `Pixel2D` (of either class) with the same `x` and `y`. */
  predicate Equals(p: Pixel2D, o: Object)
  {
    o.PixelObject? && p.x == o.pixel.x && p.y == o.pixel.y
  }

  /** `hashCode()`: `31 * x + y` in wrapping 32-bit arithmetic. */
  function HashCode(p: Pixel2D): int32
  {
    Wrap32(31 * p.x + p.y)
  }

  /** `equals` restricted to pixels is an equivalence relation. */
  lemma EqualsIsEquivalence(p: Pixel2D, q: Pixel2D, r: Pixel2D)
    ensures Equals(p, PixelObject(p))
    ensures Equals(p, PixelObject(q)) == Equals(q, PixelObject(p))
    ensures Equals(p, PixelObject(q)) && Equals(q, PixelObject(r)) ==> Equals(p, PixelObject(r))
  {
  }

  /** Equal pixels hash equally, as the `hashCode` contract of `Object` demands. */
  lemma EqualPixelsHashEqually(p: Pixel2D, q: Pixel2D)
    requires Equals(p, PixelObject(q))
    ensures HashCode(p) == HashCode(q)
  {
  }

  /** The text of a pixel is the decimal `x`, one comma, and the decimal `y`:
      the comma is the only one, and the two parts can be read back. */
  lemma ToStringShape(p: Pixel2D)
    ensures var s := ToString(p); var i := |DecimalString(p.x)|;
      0 < i < |s| - 1 && s[i] == ',' && s[..i] == DecimalString(p.x) && s[i + 1..] == DecimalString(p.y)
      && forall j :: 0 <= j < |s| && j != i ==> s[j] != ','
  {
    DecimalStringIsPlain(p.x);
    DecimalStringIsPlain(p.y);
    var a, b := DecimalString(p.x), DecimalString(p.y);
    var s := ToString(p);
    assert s == a + [','] + b;
    forall j | 0 <= j < |s| && j != |a| ensures s[j] != ',' {
      if j < |a| { assert s[j] == a[j]; } else { assert s[j] == b[j - |a| - 1]; }
    }
  }

  /** Two pixels print the same text only if they have the same coordinates. */
  lemma ToStringInjective(p: Pixel2D, q: Pixel2D)
    requires ToString(p) == ToString(q)
    ensures p.x == q.x && p.y == q.y
  {
    ToStringShape(p);
    ToStringShape(q);
    var s := ToString(p);
    var i, j := |DecimalString(p.x)|, |DecimalString(q.x)|;
    assert s[i] == ',' && s[j] == ',';
    assert i == j;
    ParseDecimalString(p.x);
    ParseDecimalString(q.x);
    ParseDecimalString(p.y);
    ParseDecimalString(q.y);
  }

  /** Two pixels are equal exactly when they print the same text, whichever
      classes they are: the text identifies the point. */
  lemma EqualsIffSameText(p: Pixel2D, q: Pixel2D)
    ensures Equals(p, PixelObject(q)) <==> ToString(p) == ToString(q)
  {
    if ToString(p) == ToString(q) {
      ToStringInjective(p, q);
    }
  }

  /** Distinct pixels can share a hash, so `hashCode` does not identify a
      point: `(1, 0)` and `(0, 31)` both hash to 31, and wrap-around sends
      `(2^31 - 1, -(2^31 - 31))` to the hash 0 of `(0, 0)`. */
  lemma HashCollisions()
    ensures !Equals(Index2D(1, 0), PixelObject(Index2D(0, 31)))
    ensures HashCode(Index2D(1, 0)) == HashCode(Index2D(0, 31)) == 31
    ensures !Equals(Index2D(0, 0), PixelObject(PointInt2D(MaxInt, -0x7fff_ffe1)))
    ensures HashCode(Index2D(0, 0)) == HashCode(PointInt2D(MaxInt, -0x7fff_ffe1)) == 0
  {
  }
}
