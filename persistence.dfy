/**
 * The saved form of a map: each destination cell of the editor is stored with
 * the tileset cell its image was copied from, never with the pixels.
 */
module Persistence {
  import opened Geometry
  import opened Tiles

  /** `SavedMap(points)`: destination cell to tileset origin cell. */
  datatype SavedMap = SavedMap(points: map<IndexPoint, IndexPoint>)

  /** The editor's placed tiles, keyed by destination cell. */
  type PastedImages = map<IndexPoint, CopiedImage>

  /** `SavedMap.from`: keep each destination and the origin of its image. */
  function From(pastedImages: PastedImages): (saved: SavedMap)
    ensures saved.points.Keys == pastedImages.Keys
    ensures forall d :: d in pastedImages ==> saved.points[d] == pastedImages[d].origin
  {
    SavedMap(map d | d in pastedImages :: pastedImages[d].origin)
  }

  /**
   * `SavedMap.toPastedImages`: rebuild an image for each destination by
   * cutting its origin cell out of the tileset image.
   */
  function ToPastedImages(saved: SavedMap, s: CellSize): (pastedImages: PastedImages)
    ensures pastedImages.Keys == saved.points.Keys
    ensures forall d :: d in pastedImages ==> pastedImages[d].origin == saved.points[d]
    ensures forall d :: d in pastedImages ==>
              pastedImages[d].bufferedImage == GetSubImage(ToAbsolutePoint(saved.points[d], s))
  {
    map d | d in saved.points :: Tile(saved.points[d], s)
  }

  /** Every image of `pastedImages` is the sub-image of its own origin cell. */
  predicate Canonical(pastedImages: PastedImages, s: CellSize) {
    forall d :: d in pastedImages ==> pastedImages[d] == Tile(pastedImages[d].origin, s)
  }

  /** Saving an empty map stores no points. */
  lemma FromEmpty()
    ensures From(map[]).points == map[]
  {
  }

  /** What is saved depends on the origins only, never on the bitmaps. */
  lemma FromIgnoresBitmaps(a: PastedImages, b: PastedImages)
    requires a.Keys == b.Keys
    requires forall d :: d in a ==> a[d].origin == b[d].origin
    ensures From(a) == From(b)
  {
    assert From(a).points == From(b).points;
  }

  /** Saving what was loaded gives back the same points. */
  lemma SaveAfterLoad(saved: SavedMap, s: CellSize)
    ensures From(ToPastedImages(saved, s)) == saved
  {
    assert From(ToPastedImages(saved, s)).points == saved.points;
  }

  /** Loading always produces canonical images. */
  lemma LoadIsCanonical(saved: SavedMap, s: CellSize)
    ensures Canonical(ToPastedImages(saved, s), s)
  {
  }

  /** Loading what was saved gives back the same images, when they were canonical. */
  lemma LoadAfterSave(pastedImages: PastedImages, s: CellSize)
    requires Canonical(pastedImages, s)
    ensures ToPastedImages(From(pastedImages), s) == pastedImages
  {
    var loaded := ToPastedImages(From(pastedImages), s);
    forall d | d in pastedImages
      ensures loaded[d] == pastedImages[d]
    {
    }
  }
}
