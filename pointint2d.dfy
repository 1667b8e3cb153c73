/** `PointInt2D`: the pixel class the game uses for Pacman's position. It stores
    any pair of `int`s unchanged and shares `equals`, `hashCode` and `toString`
    with `Index2D` (module Pixel). */
module PointInt {
  import opened JavaInt
  import opened Wrappers
  import opened Pixel

  /** `new PointInt2D()`. */
  function Default(): (p: PointInt)
    ensures p.x == 0 && p.y == 0
    ensures Equals(p, PixelObject(Index2D(0, 0)))
  {
    PointInt2D(0, 0)
  }

  /** `new PointInt2D(other)`: throws on null, otherwise a point equal to `other`. */
  function Copy(other: Option<PointInt>): (r: Result<PointInt, PixelError>)
    ensures r.Failure? <==> other.None?
    ensures r.Failure? ==> r.error == NullArgument
    ensures r.Success? ==> Equals(r.value, PixelObject(other.value)) && Equals(other.value, PixelObject(r.value))
  {
    match other
    case None => Failure(NullArgument)
    case Some(q) => Success(PointInt2D(q.x, q.y))
  }

  /** `toString()` of some points: `x + "," + y`, minus signs included. */
  lemma ToStringExamples()
    ensures ToString(PointInt2D(3, 4)) == "3,4"
    ensures ToString(PointInt2D(0, 0)) == "0,0"
    ensures ToString(PointInt2D(-5, -12)) == "-5,-12"
  {
  }

  /** `hashCode()` of some points, and its agreement with `Index2D`. */
  lemma HashCodeExamples(q: PointInt)
    ensures HashCode(PointInt2D(3, 4)) == 97
    ensures HashCode(PointInt2D(0, 0)) == 0
    ensures HashCode(PointInt2D(1, 0)) == 31
    ensures HashCode(q) == HashCode(Index2D(q.x, q.y))
  {
  }

  /** The hash wraps around like Java's `int`: `31 * (2^31 - 1)` is taken modulo
      `2^32`, which leaves `2^31 - 31`. */
  lemma HashCodeWraps()
    ensures HashCode(PointInt2D(MaxInt, 0)) == 0x7fff_ffe1
  {
  }
}
