/**
 * The grid coordinate system of the editor: cells are addressed by an
 * `IndexPoint`, and a cell's top-left pixel is its `AbsolutePoint`. One side of
 * a cell measures `SCALED_CASE_SIZE` pixels; that constant is not part of this
 * model, so it is passed around as a positive `CellSize`.
 */
module Geometry {

  /** A positive number of pixels per side of a grid cell. */
  type CellSize = n: int | 0 < n witness 1

  /** A grid cell, `IndexPoint(x = 0, y = 0)` by default in the source. */
  datatype IndexPoint = IndexPoint(x: int, y: int)

  /** A pixel position in the scaled drawing. */
  datatype AbsolutePoint = AbsolutePoint(x: int, y: int)

  /** A pointer position whose coordinates have already been rounded to integers. */
  datatype Offset = Offset(x: int, y: int)

  /**
   * Kotlin's `Int / Int`, which truncates toward zero. The remainder
   * `a - q * b` takes the sign of `a`, unlike Dafny's Euclidean `/`.
   */
  function TruncDiv(a: int, b: CellSize): (q: int)
    ensures a >= 0 ==> 0 <= a - q * b < b
    ensures a < 0 ==> q * b - b < a <= q * b
  {
    if a >= 0 then a / b else -((-a) / b)
  }

  /** The two postconditions of `TruncDiv` single out its result. */
  lemma TruncDivUnique(a: int, b: CellSize, q: int)
    requires a >= 0 ==> 0 <= a - q * b < b
    requires a < 0 ==> q * b - b < a <= q * b
    ensures TruncDiv(a, b) == q
  {
    var r := TruncDiv(a, b);
    // (a - r * b) and (a - q * b) lie in the same interval of width b
    assert 0 < (q - r) * b + b && (q - r) * b < b by {
      assert (q - r) * b == (a - r * b) - (a - q * b);
    }
    MulStrict(q - r, 1, b);
    MulStrict(-1, q - r, b);
  }

  lemma MulMonotone(m: int, n: int, b: CellSize)
    requires m <= n
    ensures m * b <= n * b
  {
    assert n * b - m * b == (n - m) * b;
  }

  /** `IndexPoint.toAbsolutePoint()`: the top-left pixel of a cell. */
  function ToAbsolutePoint(g: IndexPoint, s: CellSize): (p: AbsolutePoint)
    ensures g == IndexPoint(0, 0) ==> p == AbsolutePoint(0, 0)
  {
    AbsolutePoint(g.x * s, g.y * s)
  }

  /** `Offset.toIndexPoint()`: the cell a rounded pointer position falls in. */
  function ToIndexPoint(o: Offset, s: CellSize): (g: IndexPoint)
    ensures o.x >= 0 ==> g.x >= 0 && g.x * s <= o.x < g.x * s + s
    ensures o.y >= 0 ==> g.y >= 0 && g.y * s <= o.y < g.y * s + s
    ensures o.x < 0 ==> g.x <= 0 && g.x * s - s < o.x <= g.x * s
    ensures o.y < 0 ==> g.y <= 0 && g.y * s - s < o.y <= g.y * s
  {
    IndexPoint(TruncDiv(o.x, s), TruncDiv(o.y, s))
  }

  /** The pixel position of a cell's top-left corner, read back as a pointer position. */
  function AsOffset(p: AbsolutePoint): (o: Offset) {
    Offset(p.x, p.y)
  }

  /** Scaling by a positive cell size keeps the order of each coordinate, strictly. */
  lemma ToAbsolutePointMonotone(a: IndexPoint, b: IndexPoint, s: CellSize)
    ensures a.x < b.x <==> ToAbsolutePoint(a, s).x < ToAbsolutePoint(b, s).x
    ensures a.y < b.y <==> ToAbsolutePoint(a, s).y < ToAbsolutePoint(b, s).y
  {
    MulStrict(a.x, b.x, s);
    MulStrict(a.y, b.y, s);
  }

  lemma MulStrict(m: int, n: int, b: CellSize)
    ensures m < n <==> m * b < n * b
  {
    if m < n {
      MulMonotone(m + 1, n, b);
    } else {
      MulMonotone(n, m, b);
    }
  }

  /** Every cell, negative ones included, is found again from its top-left pixel. */
  lemma {:induction false} IndexOfAbsolutePoint(g: IndexPoint, s: CellSize)
    ensures ToIndexPoint(AsOffset(ToAbsolutePoint(g, s)), s) == g
  {
    TruncDivUnique(g.x * s, s, g.x);
    TruncDivUnique(g.y * s, s, g.y);
  }

  /** A pixel inside a cell of non-negative index resolves to that cell. */
  lemma IndexOfPixelInCell(g: IndexPoint, o: Offset, s: CellSize)
    requires g.x >= 0 && g.y >= 0
    requires g.x * s <= o.x < g.x * s + s
    requires g.y * s <= o.y < g.y * s + s
    ensures ToIndexPoint(o, s) == g
  {
    MulMonotone(0, g.x, s);
    MulMonotone(0, g.y, s);
    TruncDivUnique(o.x, s, g.x);
    TruncDivUnique(o.y, s, g.y);
  }

  /**
   * Truncation toward zero makes index 0 span the pixels `-s + 1 .. s - 1`:
   * a pixel just left of (or above) the origin resolves to 0, where floor
   * division (Dafny's `/`) would give -1.
   */
  lemma IndexZeroSpan(p: int, s: CellSize)
    ensures TruncDiv(p, s) == 0 <==> 0 < p + s && p < s
    ensures 0 < p + s && p < 0 ==> TruncDiv(p, s) == 0 && p / s == -1
  {
    if 0 < p + s && p < s {
      TruncDivUnique(p, s, 0);
    }
    if 0 < p + s && p < 0 {
      assert p == -1 * s + (p + s);
    }
  }
}
