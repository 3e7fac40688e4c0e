/**
 * lib/photos-optimized.ts: the generated catalog served with every `src`
 * rebuilt from the file name under /wedding_photos, and the four-bucket menu
 * of lib/photos.ts computed from the catalog's ids.
 */
module PhotosOptimized {
  import opened PhotoTypes
  import opened Seqs
  import opened CatalogGrouping
  import RangeBuckets

  /** `{ ...photo, src: `${PHOTOS_PATH}/${photo.filename}` }`. */
  function WithSrc(p: Photo): (q: Photo)
    ensures q.src == "/wedding_photos/" + p.filename
    ensures q.(src := p.src) == p
  {
    p.(src := Src(p.filename))
  }

  /** getAllPhotos: every entry in catalog order, only its path rewritten. */
  function GetAllPhotos(catalog: seq<Photo>): (r: seq<Photo>)
    ensures |r| == |catalog|
    ensures forall i :: 0 <= i < |catalog| ==>
              r[i].src == "/wedding_photos/" + catalog[i].filename && r[i].(src := catalog[i].src) == catalog[i]
  {
    seq(|catalog|, i requires 0 <= i < |catalog| => WithSrc(catalog[i]))
  }

  /** Rewriting the path keeps the ids, in order. */
  lemma GetAllPhotosKeepsIds(catalog: seq<Photo>)
    ensures IdsOf(GetAllPhotos(catalog)) == IdsOf(catalog)
  {
    var a := GetAllPhotos(catalog);
    forall i | 0 <= i < |catalog| ensures IdsOf(a)[i] == IdsOf(catalog)[i] {
      assert a[i].id == a[i].(src := catalog[i].src).id;
    }
  }

  /** getPhotoById: the first entry with that id, its path rewritten; None when no entry has it. */
  function GetPhotoById(catalog: seq<Photo>, id: string): (r: Option<Photo>)
    ensures r.None? <==> id !in IdsOf(catalog)
    ensures r.Some? ==> r.value.id == id && r.value.src == "/wedding_photos/" + r.value.filename
    ensures r.Some? ==> exists i :: 0 <= i < |catalog| && r.value == WithSrc(catalog[i]) &&
                                    (forall j :: 0 <= j < i ==> catalog[j].id != id)
  {
    match FindById(catalog, id)
    case None => None
    case Some(p) => Some(WithSrc(p))
  }

  /** Looking one id up gives what the full listing holds first under that id. */
  lemma GetPhotoByIdAgrees(catalog: seq<Photo>, id: string)
    ensures GetPhotoById(catalog, id) == FindById(GetAllPhotos(catalog), id)
  {
    var a := GetAllPhotos(catalog);
    GetAllPhotosKeepsIds(catalog);
    var r, s := GetPhotoById(catalog, id), FindById(a, id);
    if r.Some? {
      var i :| 0 <= i < |catalog| && r.value == WithSrc(catalog[i]) &&
               (forall j :: 0 <= j < i ==> catalog[j].id != id);
      var k :| 0 <= k < |a| && a[k] == s.value && (forall j :: 0 <= j < k ==> a[j].id != id);
      SameFirstMatch(catalog, a, id, i, k);
      assert a[i] == WithSrc(catalog[i]);
    }
  }

  /** Two lists with the same ids in the same order have their first match for an id at the same place. */
  lemma SameFirstMatch(catalog: seq<Photo>, a: seq<Photo>, id: string, i: nat, k: nat)
    requires IdsOf(a) == IdsOf(catalog)
    requires i < |catalog| && catalog[i].id == id && forall j :: 0 <= j < i ==> catalog[j].id != id
    requires k < |a| && a[k].id == id && forall j :: 0 <= j < k ==> a[j].id != id
    ensures i == k
  {
  }

  /**
   * getPhotoCategories: the four-bucket menu over the entries' ids, which the
   * path rewrite does not change; no listed group is empty.
   */
  function GetPhotoCategories(catalog: seq<Photo>): (cats: seq<PhotoCategory>)
    ensures cats == RangeBuckets.PhotoCategories(IdsOf(GetAllPhotos(catalog)))
    ensures forall i :: 0 <= i < |cats| ==> |cats[i].photoIds| > 0
  {
    GetAllPhotosKeepsIds(catalog);
    RangeBuckets.PhotoCategories(IdsOf(catalog))
  }
}
