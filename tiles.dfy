/**
 * A tile copied from the tileset image. Pixel data is not modelled: a bitmap
 * is identified by the extraction from the (fixed, read-only) tileset image
 * that produced it.
 */
module Tiles {
  import opened Geometry

  datatype Bitmap =
    /** `ImageBitmap.getSubImage(at)`: the cell whose scaled top-left pixel is `at`. */
    | SubImage(at: AbsolutePoint)
    /** `getSubimage(left, top, size, size)` on the unscaled tileset image. */
    | RawSubImage(left: int, top: int, size: int)

  /** A bitmap together with the tileset cell it was cut from. */
  datatype CopiedImage = CopiedImage(bufferedImage: Bitmap, origin: IndexPoint)

  /**
   * The extension `ImageBitmap.getSubImage`, kept opaque: the bitmap is known
   * only as the cut made at `at`, so cuts at different positions differ.
   */
  function GetSubImage(at: AbsolutePoint): (b: Bitmap)
    ensures b.SubImage? && b.at == at
  {
    SubImage(at)
  }

  /**
   * The image copied from tileset cell `p`: the sub-image at the cell's
   * absolute point, tagged with `p` itself.
   */
  function Tile(p: IndexPoint, s: CellSize): (c: CopiedImage)
    ensures c.origin == p
    ensures c.bufferedImage == GetSubImage(ToAbsolutePoint(p, s))
  {
    CopiedImage(GetSubImage(ToAbsolutePoint(p, s)), p)
  }

  /** Distinct cells give distinct copied images, whatever their bitmaps. */
  lemma TileInjective(p: IndexPoint, q: IndexPoint, s: CellSize)
    ensures Tile(p, s) == Tile(q, s) <==> p == q
  {
  }
}
