/** Plain values the layout engine passes around: element handles, sizes and rectangles. */
module Values {

  datatype Option<+T> = None | Some(value: T)

  /** Handle of an element in the visual-tree arena. */
  type NodeId = nat

  /** A coordinate or extent, a double. The layout engine never computes with these
      values: it only compares them for equality and tests them for not-a-number. So a
      finite double is kept opaque, as `value` under some injective encoding of the finite
      doubles into the integers. */
  datatype Length = Finite(value: int) | Infinity | NaN

  datatype Size = Size(width: Length, height: Length)

  datatype Rect = Rect(x: Length, y: Length, width: Length, height: Length)

  /** `new Size(0, 0)`, which is also `new Size()`. */
  const ZeroSize: Size := Size(Finite(0), Finite(0))

  /** `default(Rect)`: every component zero. */
  const DefaultRect: Rect := Rect(Finite(0), Finite(0), Finite(0), Finite(0))

  predicate HasNaN(s: Size) {
    s.width.NaN? || s.height.NaN?
  }
}
