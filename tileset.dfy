/**
 * The tileset window: a press picks one tileset cell, a drag picks the
 * inclusive rectangle between the pressed cell and the current one, and a
 * red rectangle outlines what is picked.
 */
module Tileset {
  import opened Wrappers
  import opened Geometry
  import opened Tiles

  function Min(a: int, b: int): (m: int) { if a <= b then a else b }
  function Max(a: int, b: int): (m: int) { if a <= b then b else a }
  function Abs(a: int): (n: nat) { if a < 0 then -a else a }

  // ---------------------------------------------------------------------------
  // The rectangle of copied cells

  /** The copied images of the cells `x0..x1` by `y0..y1`, bounds included. */
  function Block(x0: int, x1: int, y0: int, y1: int, s: CellSize): (images: set<CopiedImage>) {
    set x: int, y: int | x0 <= x <= x1 && y0 <= y <= y1 :: Tile(IndexPoint(x, y), s)
  }

  /**
   * The copied images of the cells `y0..y1` of column `x`: the set the inner
   * `minY..maxY` loop has added so far. It is the one-column `Block`, kept
   * separate so that the loop invariants and the size induction can add one
   * cell at a time.
   */
  function Column(x: int, y0: int, y1: int, s: CellSize): (images: set<CopiedImage>) {
    set y: int | y0 <= y <= y1 :: Tile(IndexPoint(x, y), s)
  }

  /** What a drag from cell `o` to cell `d` copies. */
  function Selection(o: IndexPoint, d: IndexPoint, s: CellSize): (images: set<CopiedImage>) {
    Block(Min(o.x, d.x), Max(o.x, d.x), Min(o.y, d.y), Max(o.y, d.y), s)
  }

  lemma InBlock(c: CopiedImage, x0: int, x1: int, y0: int, y1: int, s: CellSize)
    ensures c in Block(x0, x1, y0, y1, s) <==>
              x0 <= c.origin.x <= x1 && y0 <= c.origin.y <= y1 && c == Tile(c.origin, s)
  {
    if x0 <= c.origin.x <= x1 && y0 <= c.origin.y <= y1 && c == Tile(c.origin, s) {
      assert c == Tile(IndexPoint(c.origin.x, c.origin.y), s);
    }
  }

  /**
   * A drag selection holds exactly the cells between the two corners, each
   * tagged with its own point and cut from its own position in the tileset.
   */
  lemma SelectionMembership(o: IndexPoint, d: IndexPoint, s: CellSize, c: CopiedImage)
    ensures c in Selection(o, d, s) <==>
              && Min(o.x, d.x) <= c.origin.x <= Max(o.x, d.x)
              && Min(o.y, d.y) <= c.origin.y <= Max(o.y, d.y)
              && c.bufferedImage == GetSubImage(ToAbsolutePoint(c.origin, s))
  {
    InBlock(c, Min(o.x, d.x), Max(o.x, d.x), Min(o.y, d.y), Max(o.y, d.y), s);
  }

  /** The pressed cell and the cell under the cursor are both copied. */
  lemma SelectionHasCorners(o: IndexPoint, d: IndexPoint, s: CellSize)
    ensures Tile(o, s) in Selection(o, d, s)
    ensures Tile(d, s) in Selection(o, d, s)
  {
    SelectionMembership(o, d, s, Tile(o, s));
    SelectionMembership(o, d, s, Tile(d, s));
  }

  /** It does not matter which corner was pressed and which is under the cursor. */
  lemma SelectionSymmetric(o: IndexPoint, d: IndexPoint, s: CellSize)
    ensures Selection(o, d, s) == Selection(d, o, s)
  {
    forall c
      ensures c in Selection(o, d, s) <==> c in Selection(d, o, s)
    {
      SelectionMembership(o, d, s, c);
      SelectionMembership(d, o, s, c);
    }
  }

  /** A drag that has not left the pressed cell copies that one cell, as the press does. */
  lemma SelectionOfOneCell(c: IndexPoint, s: CellSize)
    ensures Selection(c, c, s) == {Tile(c, s)}
  {
    forall t
      ensures t in Selection(c, c, s) <==> t == Tile(c, s)
    {
      SelectionMembership(c, c, s, t);
    }
  }

  lemma ColumnAddCell(x: int, y0: int, y1: int, s: CellSize)
    requires y0 <= y1
    ensures Column(x, y0, y1, s) == Column(x, y0, y1 - 1, s) + {Tile(IndexPoint(x, y1), s)}
    ensures Tile(IndexPoint(x, y1), s) !in Column(x, y0, y1 - 1, s)
  {
  }

  lemma BlockAddColumn(x0: int, x1: int, y0: int, y1: int, s: CellSize)
    requires x0 <= x1
    ensures Block(x0, x1, y0, y1, s) == Block(x0, x1 - 1, y0, y1, s) + Column(x1, y0, y1, s)
    ensures Block(x0, x1 - 1, y0, y1, s) * Column(x1, y0, y1, s) == {}
  {
    forall c
      ensures c in Block(x0, x1, y0, y1, s) <==>
                c in Block(x0, x1 - 1, y0, y1, s) + Column(x1, y0, y1, s)
    {
      InBlock(c, x0, x1, y0, y1, s);
      InBlock(c, x0, x1 - 1, y0, y1, s);
    }
    forall c | c in Block(x0, x1 - 1, y0, y1, s)
      ensures c !in Column(x1, y0, y1, s)
    {
      InBlock(c, x0, x1 - 1, y0, y1, s);
    }
  }

  lemma {:induction false} ColumnSize(x: int, y0: int, y1: int, s: CellSize)
    requires y0 <= y1 + 1
    ensures |Column(x, y0, y1, s)| == y1 - y0 + 1
    decreases y1 - y0
  {
    if y0 <= y1 {
      ColumnSize(x, y0, y1 - 1, s);
      ColumnAddCell(x, y0, y1, s);
    } else {
      assert Column(x, y0, y1, s) == {};
    }
  }

  lemma {:induction false} BlockSize(x0: int, x1: int, y0: int, y1: int, s: CellSize)
    requires x0 <= x1 + 1 && y0 <= y1 + 1
    ensures |Block(x0, x1, y0, y1, s)| == (x1 - x0 + 1) * (y1 - y0 + 1)
    decreases x1 - x0
  {
    var h := y1 - y0 + 1;
    if x0 <= x1 {
      var left, column := Block(x0, x1 - 1, y0, y1, s), Column(x1, y0, y1, s);
      BlockSize(x0, x1 - 1, y0, y1, s);
      BlockAddColumn(x0, x1, y0, y1, s);
      ColumnSize(x1, y0, y1, s);
      assert |left| == (x1 - x0) * h;
      assert |column| == h;
      assert |left + column| == |left| + |column|;
      MulSucc(x1 - x0, h);
    } else {
      BlockEmpty(x0, x1, y0, y1, s);
    }
  }

  lemma BlockEmpty(x0: int, x1: int, y0: int, y1: int, s: CellSize)
    requires x1 < x0
    ensures Block(x0, x1, y0, y1, s) == {}
  {
    forall c | c in Block(x0, x1, y0, y1, s) ensures false {
      InBlock(c, x0, x1, y0, y1, s);
    }
  }

  lemma MulSucc(w: int, h: int)
    ensures (w + 1) * h == w * h + h
  {
  }

  /** One distinct image per cell of the rectangle. */
  lemma SelectionSize(o: IndexPoint, d: IndexPoint, s: CellSize)
    ensures |Selection(o, d, s)| == (Abs(d.x - o.x) + 1) * (Abs(d.y - o.y) + 1)
  {
    BlockSize(Min(o.x, d.x), Max(o.x, d.x), Min(o.y, d.y), Max(o.y, d.y), s);
  }

  /**
   * The drag handler's copy: every cell of the rectangle spanned by `o` and
   * `d`, row by row of a nested loop over `minX..maxX` and `minY..maxY`.
   */
  method CopySelection(o: IndexPoint, d: IndexPoint, s: CellSize) returns (images: set<CopiedImage>)
    ensures images == Selection(o, d, s)
  {
    var minX, maxX := Min(o.x, d.x), Max(o.x, d.x);
    var minY, maxY := Min(o.y, d.y), Max(o.y, d.y);
    images := {};
    for x := minX to maxX + 1
      invariant images == Block(minX, x - 1, minY, maxY, s)
    {
      for y := minY to maxY + 1
        invariant images == Block(minX, x - 1, minY, maxY, s) + Column(x, minY, y - 1, s)
      {
        ColumnAddCell(x, minY, y, s);
        images := images + {Tile(IndexPoint(x, y), s)};
      }
      BlockAddColumn(minX, x, minY, maxY, s);
    }
  }

  // ---------------------------------------------------------------------------
  // The highlight rectangle

  /** A rectangle of pixels: `left..left + width - 1` by `top..top + height - 1`. */
  datatype Rect = Rect(left: int, top: int, width: int, height: int)

  predicate Contains(r: Rect, px: int, py: int) {
    r.left <= px < r.left + r.width && r.top <= py < r.top + r.height
  }

  /** The pixels of one cell. */
  function CellRect(g: IndexPoint, s: CellSize): (r: Rect) {
    Rect(ToAbsolutePoint(g, s).x, ToAbsolutePoint(g, s).y, s, s)
  }

  /**
   * The red outline around the pressed cell `origin` and, once the cursor
   * has been recorded, the cell `destination`. Its size counts `caseSize`
   * pixels per cell while its corner is placed at the scaled grid position.
   */
  function Highlight(origin: IndexPoint, destination: Option<IndexPoint>, caseSize: CellSize, s: CellSize): (r: Rect)
    ensures destination.None? ==> r == Rect(ToAbsolutePoint(origin, s).x, ToAbsolutePoint(origin, s).y, caseSize, caseSize)
    ensures destination.Some? ==>
              && r.width == (Abs(destination.value.x - origin.x) + 1) * caseSize
              && r.height == (Abs(destination.value.y - origin.y) + 1) * caseSize
              && AbsolutePoint(r.left, r.top) ==
                   ToAbsolutePoint(IndexPoint(Min(origin.x, destination.value.x), Min(origin.y, destination.value.y)), s)
  {
    match destination
    case Some(d) =>
      Rect(
        if origin.x <= d.x then ToAbsolutePoint(origin, s).x else ToAbsolutePoint(d, s).x,
        if origin.y <= d.y then ToAbsolutePoint(origin, s).y else ToAbsolutePoint(d, s).y,
        caseSize + Abs(d.x - origin.x) * caseSize,
        caseSize + Abs(d.y - origin.y) * caseSize)
    case None =>
      Rect(ToAbsolutePoint(origin, s).x, ToAbsolutePoint(origin, s).y, caseSize, caseSize)
  }

  /** Right after a press the cursor cell is the pressed cell: the same one-cell outline. */
  lemma HighlightAfterPress(origin: IndexPoint, caseSize: CellSize, s: CellSize)
    ensures Highlight(origin, Some(origin), caseSize, s) == Highlight(origin, None, caseSize, s)
  {
  }

  /** Along one axis: pixel `p` lies in cells `lo..hi` exactly when the cell `p / s` does. */
  lemma SpanOfCells(lo: int, hi: int, s: CellSize, p: int)
    requires lo <= hi
    ensures (p / s) * s <= p < (p / s) * s + s
    ensures lo * s <= p < (hi + 1) * s <==> lo <= p / s <= hi
  {
    var k := p / s;
    assert p == k * s + p % s;
    MulStrict(lo, k + 1, s);
    MulStrict(k, hi + 1, s);
    assert (k + 1) * s == k * s + s;
  }

  lemma OutlineExtent(a: int, b: int, s: CellSize)
    ensures Min(a, b) * s + (Abs(b - a) + 1) * s == (Max(a, b) + 1) * s
  {
    assert Min(a, b) + Abs(b - a) + 1 == Max(a, b) + 1;
    assert (Min(a, b) + (Abs(b - a) + 1)) * s == Min(a, b) * s + (Abs(b - a) + 1) * s;
  }

  /**
   * When a cell measures the same in both sizes, the outline covers exactly
   * the pixels of the copied cells: a pixel is inside it if and only if it
   * lies in the cell of some copied image.
   */
  lemma HighlightOutlinesSelection(o: IndexPoint, d: IndexPoint, s: CellSize, px: int, py: int)
    ensures Contains(Highlight(o, Some(d), s, s), px, py) <==>
              exists c :: c in Selection(o, d, s) && Contains(CellRect(c.origin, s), px, py)
  {
    var r := Highlight(o, Some(d), s, s);
    OutlineExtent(o.x, d.x, s);
    OutlineExtent(o.y, d.y, s);
    assert r.left + r.width == (Max(o.x, d.x) + 1) * s;
    assert r.top + r.height == (Max(o.y, d.y) + 1) * s;
    SpanOfCells(Min(o.x, d.x), Max(o.x, d.x), s, px);
    SpanOfCells(Min(o.y, d.y), Max(o.y, d.y), s, py);
    if Contains(r, px, py) {
      var c := Tile(IndexPoint(px / s, py / s), s);
      SelectionMembership(o, d, s, c);
      assert c in Selection(o, d, s) && Contains(CellRect(c.origin, s), px, py);
    }
    if exists c :: c in Selection(o, d, s) && Contains(CellRect(c.origin, s), px, py) {
      var c :| c in Selection(o, d, s) && Contains(CellRect(c.origin, s), px, py);
      SelectionMembership(o, d, s, c);
      MulMonotone(Min(o.x, d.x), c.origin.x, s);
      MulMonotone(c.origin.x + 1, Max(o.x, d.x) + 1, s);
      MulMonotone(Min(o.y, d.y), c.origin.y, s);
      MulMonotone(c.origin.y + 1, Max(o.y, d.y) + 1, s);
      assert (c.origin.x + 1) * s == c.origin.x * s + s;
      assert (c.origin.y + 1) * s == c.origin.y * s + s;
    }
  }

  /**
   * The outline's size counts `caseSize` pixels per cell, whatever the scale,
   * while the cells it surrounds measure `s`. When the two differ, already the
   * one-cell outline after a press disagrees with the pressed cell at the
   * pixel `min(caseSize, s)` to the right of the cell's corner: for a smaller
   * `caseSize` that pixel is in the cell but not in the outline, for a larger
   * one it is in the outline but in no copied cell.
   */
  lemma HighlightMisfitsWhenSizesDiffer(o: IndexPoint, caseSize: CellSize, s: CellSize)
    requires caseSize != s
    ensures var px, py := ToAbsolutePoint(o, s).x + Min(caseSize, s), ToAbsolutePoint(o, s).y;
            Contains(Highlight(o, Some(o), caseSize, s), px, py) <==>
              !exists c :: c in Selection(o, o, s) && Contains(CellRect(c.origin, s), px, py)
  {
    SelectionOfOneCell(o, s);
    assert forall c :: c in Selection(o, o, s) <==> c == Tile(o, s);
  }

  // ---------------------------------------------------------------------------
  // The window's state and its gesture handlers

  /** Why a handler threw. */
  datatype SelectorError = NullOrigin

  /**
   * A pointer position on the window plus the window's scroll position: the
   * position in tileset coordinates. Subtracting the scroll gives the window
   * position back, and with no scroll the two coincide.
   */
  function Scrolled(position: Offset, scroll: Offset): (r: Offset)
    ensures Offset(r.x - scroll.x, r.y - scroll.y) == position
    ensures scroll == Offset(0, 0) ==> r == position
  {
    Offset(position.x + scroll.x, position.y + scroll.y)
  }

  class TilesetSelector {
    /** `SCALED_CASE_SIZE`, the grid step. */
    const scaled: CellSize
    /** `CASE_SIZE.value`, the per-cell size of the outline. */
    const caseSize: CellSize
    var originIndexPoint: Option<IndexPoint>
    var destinationIndexPoint: Option<IndexPoint>

    /**
     * A press records both corners at once and nothing clears them, so either
     * both are null or both are set.
     */
    ghost predicate Valid()
      reads this
    {
      originIndexPoint.Some? <==> destinationIndexPoint.Some?
    }

    constructor (scaled: CellSize, caseSize: CellSize)
      ensures Valid()
      ensures this.scaled == scaled && this.caseSize == caseSize
      ensures originIndexPoint == None && destinationIndexPoint == None
    {
      this.scaled := scaled;
      this.caseSize := caseSize;
      originIndexPoint := None;
      destinationIndexPoint := None;
    }

    /**
     * `onPress`: the pressed cell becomes both corners, and that one cell is
     * copied.
     */
    method OnPress(position: Offset, scroll: Offset) returns (copied: set<CopiedImage>)
      requires Valid()
      modifies this
      ensures Valid()
      ensures var c := ToIndexPoint(Scrolled(position, scroll), scaled);
              && originIndexPoint == Some(c)
              && destinationIndexPoint == Some(c)
              && copied == {Tile(c, scaled)}
    {
      var c := ToIndexPoint(Scrolled(position, scroll), scaled);
      copied := {CopiedImage(GetSubImage(ToAbsolutePoint(c, scaled)), c)};
      originIndexPoint := Some(c);
      destinationIndexPoint := originIndexPoint;
    }

    /**
     * `onDrag`: the cell under the cursor becomes the second corner and the
     * whole rectangle is copied. Without a pressed cell the handler throws
     * before anything is assigned.
     */
    method OnDrag(position: Offset, scroll: Offset) returns (copied: Result<set<CopiedImage>, SelectorError>)
      requires Valid()
      modifies this
      ensures Valid()
      ensures old(originIndexPoint).None? ==>
                copied == Failure(NullOrigin) && unchanged(this)
      ensures old(originIndexPoint).Some? ==>
                var c := ToIndexPoint(Scrolled(position, scroll), scaled);
                && originIndexPoint == old(originIndexPoint)
                && destinationIndexPoint == Some(c)
                && copied == Success(Selection(originIndexPoint.value, c, scaled))
    {
      var c := ToIndexPoint(Scrolled(position, scroll), scaled);
      match originIndexPoint
      case None =>
        copied := Failure(NullOrigin);
      case Some(o) =>
        var images := CopySelection(o, c, scaled);
        copied := Success(images);
        destinationIndexPoint := Some(c);
    }

    /**
     * The outline drawn over the tileset, present once a cell has been
     * pressed. In a valid state the cursor cell is then always set, so the
     * one-cell branch for a missing cursor is never taken.
     */
    function HighlightRect(): (r: Option<Rect>)
      reads this
      ensures r.Some? <==> originIndexPoint.Some?
      ensures r.Some? ==> r.value == Highlight(originIndexPoint.value, destinationIndexPoint, caseSize, scaled)
      ensures Valid() && r.Some? ==>
                r.value == Highlight(originIndexPoint.value, Some(destinationIndexPoint.value), caseSize, scaled)
    {
      match originIndexPoint
      case Some(o) => Some(Highlight(o, destinationIndexPoint, caseSize, scaled))
      case None => None
    }
  }

  /**
   * With a 32-pixel grid, pressing in tileset cell (1, 0) and dragging into
   * cell (2, 1) copies the four cells (1, 0), (2, 0), (1, 1) and (2, 1).
   */
  method DragSession() {
    var selector := new TilesetSelector(32, 32);
    assert ToIndexPoint(Scrolled(Offset(70, 40), Offset(0, 0)), 32) == IndexPoint(2, 1);
    assert ToIndexPoint(Scrolled(Offset(40, 5), Offset(0, 0)), 32) == IndexPoint(1, 0);
    var none := selector.OnDrag(Offset(70, 40), Offset(0, 0));
    assert none == Failure(NullOrigin);

    var pressed := selector.OnPress(Offset(40, 5), Offset(0, 0));
    assert pressed == {Tile(IndexPoint(1, 0), 32)};
    var dragged := selector.OnDrag(Offset(70, 40), Offset(0, 0));
    assert dragged == Success(Selection(IndexPoint(1, 0), IndexPoint(2, 1), 32));
    SelectionSize(IndexPoint(1, 0), IndexPoint(2, 1), 32);
    SelectionHasCorners(IndexPoint(1, 0), IndexPoint(2, 1), 32);
    assert |dragged.value| == 4;
    assert Tile(IndexPoint(2, 1), 32) in dragged.value;
    assert selector.HighlightRect() == Some(Rect(32, 0, 64, 64));
  }
}
