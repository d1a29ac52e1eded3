/**
 The two geometric value types the engine works with: the 2-D point `V`
 and Android's integer rectangle `Rect`.
 */
module Geometry {
  import opened Numerics

  /**
   A 2-D point. Its float coordinates are modelled as reals; the engine only
   copies points, except where it builds one from two `Int`s.
   */
  datatype V = V(x: real, y: real)

  /** The `V(x: Int, y: Int)` overload: each coordinate converted to a float. */
  function FromInts(x: Int32, y: Int32): V {
    V(x as real, y as real)
  }

  /** `android.graphics.Rect`: four `Int` edges. */
  datatype Rect = Rect(left: Int32, top: Int32, right: Int32, bottom: Int32) {

    /** `Rect.width()`: `right - left` in `Int` arithmetic, so it may wrap. */
    function Width(): (w: Int32)
      ensures InInt32(right - left) ==> w == right - left
      ensures (w - (right - left)) % TWO_32 == 0
    {
      Sub32(right, left)
    }

    /** `Rect.height()`: `bottom - top` in `Int` arithmetic, so it may wrap. */
    function Height(): (h: Int32)
      ensures InInt32(bottom - top) ==> h == bottom - top
      ensures (h - (bottom - top)) % TWO_32 == 0
    {
      Sub32(bottom, top)
    }
  }

  /** `Rect()`: the rectangle whose four edges are all 0. */
  const EmptyRect: Rect := Rect(0, 0, 0, 0)

}
