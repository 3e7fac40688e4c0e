/**
 * The category menu that lib/photos.ts and lib/photos-optimized.ts both build,
 * with the same table, from a list of photo ids: "all" first, then four
 * number ranges read from each id, and only the non-empty groups kept.
 */
module RangeBuckets {
  import opened PhotoTypes
  import opened Seqs
  import opened FileNames

  /**
   * The reference table: the bucket a photo number falls in. Numbers up to 15
   * fall in none of the four ranges.
   */
  function BucketOf(n: nat): (b: Option<string>)
    ensures b.None? <==> n <= 15
    ensures b.Some? ==> b.value in ["portraits", "ceremony", "reception", "details"]
  {
    if n <= 15 then None
    else if n <= 100 then Some("portraits")
    else if n <= 300 then Some("ceremony")
    else if n <= 500 then Some("reception")
    else Some("details")
  }

  /** One row of the table: `num >= lo && num <= hi`, or `num > lo - 1` when there is no upper end. */
  datatype Range = Range(id: string, name: string, lo: nat, hi: Option<nat>)

  predicate InRange(r: Range, n: nat) {
    r.lo <= n && (r.hi.None? || n <= r.hi.value)
  }

  /** The four range rows in menu order; "details" is `num > 500`. */
  const Ranges: seq<Range> := [
    Range("portraits", "Portraits", 16, Some(100)),
    Range("ceremony", "Ceremony", 101, Some(300)),
    Range("reception", "Reception", 301, Some(500)),
    Range("details", "Details", 501, None)]

  /** The rows are the reference table: a number is in row k exactly when BucketOf names row k. */
  lemma RangesAreTable(k: nat, n: nat)
    requires k < 4
    ensures InRange(Ranges[k], n) <==> BucketOf(n) == Some(Ranges[k].id)
  {
  }

  /** The group of one row: the ids whose number lies in the row's range, in list order. */
  function RangeGroup(key: string -> nat, r: Range, ids: seq<string>): (c: PhotoCategory)
    ensures c.id == r.id && c.name == r.name
    ensures forall i :: 0 <= i < |c.photoIds| ==> InRange(r, key(c.photoIds[i]))
    ensures forall i :: 0 <= i < |ids| && InRange(r, key(ids[i])) ==> ids[i] in c.photoIds
    ensures IsSubsequence(c.photoIds, ids)
  {
    PhotoCategory(r.id, r.name, Filter((id: string) => InRange(r, key(id)), ids))
  }

  /** The five groups before the empty ones are dropped, over the number `key` reads from an id. */
  function GroupsBy(key: string -> nat, ids: seq<string>): (g: seq<PhotoCategory>)
    ensures |g| == 5 && g[0] == PhotoCategory("all", "All Photos", ids)
    ensures forall k :: 1 <= k < 5 ==> g[k] == RangeGroup(key, Ranges[k - 1], ids)
  {
    [PhotoCategory("all", "All Photos", ids)] +
    seq(4, k requires 0 <= k < 4 => RangeGroup(key, Ranges[k], ids))
  }

  /** The groups of getPhotoCategories, keyed by `parseInt(id.match(/\d+/)?.[0] || "0")`. */
  function AllGroups(ids: seq<string>): seq<PhotoCategory> {
    GroupsBy(NumberKey, ids)
  }

  predicate NonEmpty(c: PhotoCategory) {
    |c.photoIds| > 0
  }

  /** getPhotoCategories over the given id list. */
  function PhotoCategories(ids: seq<string>): (cats: seq<PhotoCategory>)
    ensures forall i :: 0 <= i < |cats| ==> NonEmpty(cats[i])
    ensures IsSubsequence(cats, AllGroups(ids))
  {
    Filter(NonEmpty, AllGroups(ids))
  }

  /**
   * The menu: "all" heads it exactly when there is some id; every id whose
   * number is in a range is listed under the group for that range, which is
   * then in the menu; every other group lists only ids from its own range; and
   * an id numbered 15 or lower is listed only under "all".
   */
  lemma PhotoCategoriesSpec(ids: seq<string>)
    ensures var cats := PhotoCategories(ids);
      && (ids != [] <==> (cats != [] && cats[0] == PhotoCategory("all", "All Photos", ids)))
      && (forall c | c in cats :: c in AllGroups(ids))
      && (forall c | c in cats && c.id != "all" ::
            forall i :: 0 <= i < |c.photoIds| ==> BucketOf(NumberKey(c.photoIds[i])) == Some(c.id))
      && (forall i :: 0 <= i < |ids| && BucketOf(NumberKey(ids[i])).Some? ==>
            exists c :: c in cats && c.id == BucketOf(NumberKey(ids[i])).value && ids[i] in c.photoIds)
      && (forall c, i | c in cats && 0 <= i < |c.photoIds| && NumberKey(c.photoIds[i]) <= 15 :: c.id == "all")
  {
    MenuHead(NumberKey, ids);
    MenuFromGroups(NumberKey, ids);
    MenuOwnRange(NumberKey, ids);
    MenuCovers(NumberKey, ids);
    MenuLowOnlyAll(NumberKey, ids);
  }

  /** The menu holds only groups of the table. */
  lemma MenuFromGroups(key: string -> nat, ids: seq<string>)
    ensures forall c | c in Filter(NonEmpty, GroupsBy(key, ids)) :: c in GroupsBy(key, ids)
  {
    var cats := Filter(NonEmpty, GroupsBy(key, ids));
    forall c | c in cats ensures c in GroupsBy(key, ids) {
      var i :| 0 <= i < |cats| && cats[i] == c;
    }
  }

  /** Every group of the menu other than "all" lists only ids of its own bucket. */
  lemma MenuOwnRange(key: string -> nat, ids: seq<string>)
    ensures forall c | c in Filter(NonEmpty, GroupsBy(key, ids)) && c.id != "all" ::
              forall i :: 0 <= i < |c.photoIds| ==> BucketOf(key(c.photoIds[i])) == Some(c.id)
  {
    MenuFromGroups(key, ids);
    forall c | c in Filter(NonEmpty, GroupsBy(key, ids)) && c.id != "all"
      ensures forall i :: 0 <= i < |c.photoIds| ==> BucketOf(key(c.photoIds[i])) == Some(c.id)
    {
      GroupOwnRange(key, ids, c);
    }
  }

  lemma GroupOwnRange(key: string -> nat, ids: seq<string>, c: PhotoCategory)
    requires c in GroupsBy(key, ids) && c.id != "all"
    ensures forall i :: 0 <= i < |c.photoIds| ==> BucketOf(key(c.photoIds[i])) == Some(c.id)
  {
    var g := GroupsBy(key, ids);
    var k :| 0 <= k < 5 && g[k] == c;
    assert k != 0;
    GroupInTable(key, ids, k);
  }

  /** Every id in a bucket is listed under that bucket's group in the menu. */
  lemma MenuCovers(key: string -> nat, ids: seq<string>)
    ensures forall i :: 0 <= i < |ids| && BucketOf(key(ids[i])).Some? ==>
              exists c :: c in Filter(NonEmpty, GroupsBy(key, ids)) &&
                          c.id == BucketOf(key(ids[i])).value && ids[i] in c.photoIds
  {
    var g := GroupsBy(key, ids);
    forall i | 0 <= i < |ids| && BucketOf(key(ids[i])).Some?
      ensures exists c :: c in Filter(NonEmpty, g) && c.id == BucketOf(key(ids[i])).value && ids[i] in c.photoIds
    {
      var k := TableCovers(key, ids, i);
      assert g[k] in Filter(NonEmpty, g);
    }
  }

  /** An id numbered 15 or lower is listed only under "all". */
  lemma MenuLowOnlyAll(key: string -> nat, ids: seq<string>)
    ensures forall c, i | c in Filter(NonEmpty, GroupsBy(key, ids)) && 0 <= i < |c.photoIds| &&
                          key(c.photoIds[i]) <= 15 :: c.id == "all"
  {
    MenuOwnRange(key, ids);
  }

  /** "all" survives the drop exactly when there is some id, and then it comes first. */
  lemma MenuHead(key: string -> nat, ids: seq<string>)
    ensures var cats := Filter(NonEmpty, GroupsBy(key, ids));
      ids != [] <==> (cats != [] && cats[0] == PhotoCategory("all", "All Photos", ids))
  {
    var g := GroupsBy(key, ids);
    var rest := g[1..];
    assert g == [g[0]] + rest;
    FilterAppend(NonEmpty, [g[0]], rest);
    FilterSingleton(NonEmpty, g[0]);
    if ids == [] {
      forall k | 0 <= k < |rest| ensures !NonEmpty(rest[k]) {
        SubsequenceLength(rest[k].photoIds, ids);
      }
      FilterNone(rest);
    }
  }

  /** A range group lists only ids that the reference table puts in its bucket. */
  lemma GroupInTable(key: string -> nat, ids: seq<string>, k: nat)
    requires 1 <= k < 5
    ensures var c := GroupsBy(key, ids)[k];
      forall i :: 0 <= i < |c.photoIds| ==> BucketOf(key(c.photoIds[i])) == Some(c.id)
  {
    var c := GroupsBy(key, ids)[k];
    forall i | 0 <= i < |c.photoIds| ensures BucketOf(key(c.photoIds[i])) == Some(c.id) {
      RangesAreTable(k - 1, key(c.photoIds[i]));
    }
  }

  /** An id that the reference table puts in a bucket is listed in that bucket's group, which is not empty. */
  lemma TableCovers(key: string -> nat, ids: seq<string>, i: nat) returns (k: nat)
    requires i < |ids| && BucketOf(key(ids[i])).Some?
    ensures 1 <= k < 5
    ensures var c := GroupsBy(key, ids)[k];
      c.id == BucketOf(key(ids[i])).value && ids[i] in c.photoIds && NonEmpty(c)
  {
    var n := key(ids[i]);
    var r: nat := if n <= 100 then 0 else if n <= 300 then 1 else if n <= 500 then 2 else 3;
    RangesAreTable(r, n);
    k := r + 1;
  }

  /** Dropping groups that all fail the test leaves nothing. */
  lemma {:induction false} FilterNone(s: seq<PhotoCategory>)
    requires forall i :: 0 <= i < |s| ==> !NonEmpty(s[i])
    ensures Filter(NonEmpty, s) == []
    decreases |s|
  {
    if s != [] {
      FilterNone(s[..|s| - 1]);
    }
  }

  /** The four range groups never share an id: a photo sits in one range at most. */
  lemma RangesDisjoint(ids: seq<string>, id: string, k: nat, l: nat)
    requires 1 <= k < l < 5
    requires id in AllGroups(ids)[k].photoIds
    ensures id !in AllGroups(ids)[l].photoIds
  {
    GroupsDisjoint(NumberKey, ids, id, k, l);
  }

  lemma GroupsDisjoint(key: string -> nat, ids: seq<string>, id: string, k: nat, l: nat)
    requires 1 <= k < l < 5
    requires id in GroupsBy(key, ids)[k].photoIds
    ensures id !in GroupsBy(key, ids)[l].photoIds
  {
    var g := GroupsBy(key, ids);
    var i :| 0 <= i < |g[k].photoIds| && g[k].photoIds[i] == id;
    assert InRange(Ranges[k - 1], key(id));
  }
}
