/**
 The example data source: it gives every tile a photo id that stays the same
 for the life of the data source. The first lookup of a tile takes the next
 unused id; later lookups return the stored one.
 */
module PhotosDataSource {
  import opened Wrappers
  import opened Positions
  import opened SegmentedGrid

  /** The segment size the data source builds its store with. */
  const GridSegmentSize := 20

  class RandomPicsumPhotosDataSource {
    const gridData: SegmentedGridData<int>
    var nextPhotoId: int

    /** Every stored id was handed out before (it lies below the counter), and
        no two tiles share an id. */
    ghost predicate Valid()
      reads this, gridData
    {
      && gridData.Valid()
      && gridData.segmentSize == GridSegmentSize
      && 0 <= nextPhotoId
      && (forall p :: gridData.Get(p).Some? ==> 0 <= gridData.Get(p).value < nextPhotoId)
      && (forall p, q :: p != q && gridData.Get(p).Some? && gridData.Get(q).Some? ==>
            gridData.Get(p).value != gridData.Get(q).value)
    }

    constructor ()
      ensures Valid() && fresh(gridData)
      ensures nextPhotoId == 0
      ensures forall p :: gridData.Get(p) == None
    {
      gridData := new SegmentedGridData(GridSegmentSize);
      nextPhotoId := 0;
    }

    /** `urlForTile(at:)`, returning the photo id the URL is built from. */
    method UrlForTile(position: TilePosition) returns (id: int)
      requires Valid()
      modifies this`nextPhotoId, gridData
      ensures Valid()
      ensures gridData.Get(position) == Some(id)
      ensures old(gridData.Get(position)).Some? ==>
        id == old(gridData.Get(position)).value && nextPhotoId == old(nextPhotoId) &&
        gridData.segments == old(gridData.segments)
      ensures old(gridData.Get(position)).None? ==>
        id == old(nextPhotoId) && nextPhotoId == old(nextPhotoId) + 1
      ensures nextPhotoId >= old(nextPhotoId)
      ensures forall q :: q != position ==> gridData.Get(q) == old(gridData.Get(q))
    {
      var stored := gridData.Get(position);
      if stored.None? {
        id := nextPhotoId;
        nextPhotoId := nextPhotoId + 1;
        gridData.Set(position, Some(id));
      } else {
        id := stored.value;
      }
    }
  }
}
