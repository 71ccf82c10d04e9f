/**
 * The editor window: it holds the image last copied from the tileset and the
 * map of images pasted so far, pastes on a tap, and replaces the whole map
 * when a saved map is loaded.
 */
module Editor {
  import opened Wrappers
  import opened Geometry
  import opened Tiles
  import opened Persistence
  import Tileset

  /**
   * `pastedImages.toMutableMap().apply { set(k, c) }`: a new map that holds
   * `c` at `k` and agrees with the old one everywhere else.
   */
  function Paste(pastedImages: PastedImages, k: IndexPoint, c: CopiedImage): (r: PastedImages)
    ensures k in r && r[k] == c
    ensures r.Keys == pastedImages.Keys + {k}
    ensures forall d :: d in pastedImages && d != k ==> r[d] == pastedImages[d]
  {
    pastedImages[k := c]
  }

  /** Pasting twice at one cell keeps only the later image there. */
  lemma PasteOverwrites(pastedImages: PastedImages, k: IndexPoint, first: CopiedImage, second: CopiedImage)
    ensures Paste(Paste(pastedImages, k, first), k, second) == Paste(pastedImages, k, second)
  {
  }

  /** Saving after a paste records the pasted image's origin at the tapped cell. */
  lemma SaveAfterPaste(pastedImages: PastedImages, k: IndexPoint, c: CopiedImage)
    ensures From(Paste(pastedImages, k, c)).points == From(pastedImages).points[k := c.origin]
  {
    assert From(Paste(pastedImages, k, c)).points.Keys == From(pastedImages).points[k := c.origin].Keys;
  }

  /**
   * The map `loadMap` builds: for each destination, the origin cell cut
   * straight out of the unscaled tileset image at `origin * caseSizeInt`.
   */
  function LoadedImages(saved: SavedMap, caseSizeInt: CellSize): (pastedImages: PastedImages)
    ensures pastedImages.Keys == saved.points.Keys
    ensures forall d :: d in pastedImages ==> pastedImages[d].origin == saved.points[d]
    ensures forall d :: d in pastedImages ==>
              pastedImages[d].bufferedImage ==
                RawSubImage(saved.points[d].x * caseSizeInt, saved.points[d].y * caseSizeInt, caseSizeInt)
  {
    map d | d in saved.points ::
      var origin := saved.points[d];
      CopiedImage(RawSubImage(origin.x * caseSizeInt, origin.y * caseSizeInt, caseSizeInt), origin)
  }

  /** Saving right after `loadMap` writes back the points that were loaded. */
  lemma SaveAfterLoadMap(saved: SavedMap, caseSizeInt: CellSize)
    ensures From(LoadedImages(saved, caseSizeInt)) == saved
  {
    assert From(LoadedImages(saved, caseSizeInt)).points == saved.points;
  }

  /**
   * `loadMap` and `toPastedImages` cut their bitmaps through different calls
   * (kept as distinct `Bitmap` constructors here) but agree on everything
   * that is saved.
   */
  lemma LoadMapAgreesWithToPastedImages(saved: SavedMap, caseSizeInt: CellSize, s: CellSize)
    ensures From(LoadedImages(saved, caseSizeInt)) == From(ToPastedImages(saved, s))
  {
    FromIgnoresBitmaps(LoadedImages(saved, caseSizeInt), ToPastedImages(saved, s));
  }

  class EditorState {
    /** `SCALED_CASE_SIZE`, the grid step used to resolve a tap. */
    const scaled: CellSize
    /** `CASE_SIZE.value.toInt()`, the unscaled cell size used by `loadMap`. */
    const caseSizeInt: CellSize
    var copiedImage: Option<CopiedImage>
    var pastedImages: PastedImages

    constructor (scaled: CellSize, caseSizeInt: CellSize)
      ensures this.scaled == scaled && this.caseSizeInt == caseSizeInt
      ensures copiedImage == None && pastedImages == map[]
    {
      this.scaled := scaled;
      this.caseSizeInt := caseSizeInt;
      copiedImage := None;
      pastedImages := map[];
    }

    /** The tileset window's callback: remember the copied image. */
    method OnImageCopied(image: CopiedImage)
      modifies this
      ensures copiedImage == Some(image)
      ensures pastedImages == old(pastedImages)
    {
      copiedImage := Some(image);
    }

    /**
     * A tap pastes the copied image at the tapped cell, replacing whatever
     * was there; with nothing copied it does nothing. The old map value is
     * not changed: a new one is assigned.
     */
    method OnTap(position: Offset)
      modifies this
      ensures copiedImage == old(copiedImage)
      ensures old(copiedImage).None? ==> pastedImages == old(pastedImages)
      ensures old(copiedImage).Some? ==>
                pastedImages == Paste(old(pastedImages), ToIndexPoint(position, scaled), old(copiedImage).value)
    {
      match copiedImage
      case Some(c) =>
        pastedImages := Paste(pastedImages, ToIndexPoint(position, scaled), c);
      case None =>
    }

    /** `loadMap`: discard the current map and rebuild it from `saved`. */
    method LoadMap(saved: SavedMap)
      modifies this
      ensures pastedImages == LoadedImages(saved, caseSizeInt)
      ensures copiedImage == old(copiedImage)
    {
      pastedImages := LoadedImages(saved, caseSizeInt);
    }

    /** "Save As...": the saved form of the current map. */
    method SaveAs() returns (saved: SavedMap)
      ensures saved.points.Keys == pastedImages.Keys
      ensures forall d :: d in pastedImages ==> saved.points[d] == pastedImages[d].origin
    {
      saved := From(pastedImages);
    }
  }

  /**
   * A session with a 32-pixel grid: a tap before anything is copied places
   * nothing; after tileset cell (0, 0) is pressed and copied, a tap at pixel
   * (10, 10) places it at cell (0, 0), and a map value held from before the
   * tap is unaffected.
   */
  method TapSession() {
    var selector := new Tileset.TilesetSelector(32, 32);
    var editor := new EditorState(32, 32);
    editor.OnTap(Offset(10, 10));
    assert editor.pastedImages == map[];

    assert Tileset.Scrolled(Offset(5, 5), Offset(0, 0)) == Offset(5, 5);
    assert ToIndexPoint(Offset(5, 5), 32) == IndexPoint(0, 0);
    var copied := selector.OnPress(Offset(5, 5), Offset(0, 0));
    assert copied == {Tile(IndexPoint(0, 0), 32)};
    editor.OnImageCopied(Tile(IndexPoint(0, 0), 32));

    var held := editor.pastedImages;
    editor.OnTap(Offset(10, 10));
    assert editor.pastedImages[IndexPoint(0, 0)].origin == IndexPoint(0, 0);
    assert held == map[];

    var saved := editor.SaveAs();
    assert saved.points == map[IndexPoint(0, 0) := IndexPoint(0, 0)];
  }
}
