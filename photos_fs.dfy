/**
 * lib/photos.ts: the catalog read straight from the photo directory. Each
 * listed JPEG becomes a record with fixed 6000 by 4000 dimensions and its file
 * size; an id already handed out gets the file's list position appended once.
 */
module PhotosFs {
  import opened PhotoTypes
  import opened Seqs
  import opened FileNames
  import RangeBuckets

  /** The record pushed for one file. */
  function FileRecord(filename: string, id: string, size: nat): FilePhoto {
    FilePhoto(id, filename, Src(filename), 6000, 4000, 1.5, size)
  }

  function Ids(photos: seq<FilePhoto>): (ids: seq<string>)
    ensures |ids| == |photos|
    ensures forall i :: 0 <= i < |photos| ==> ids[i] == photos[i].id
  {
    seq(|photos|, i requires 0 <= i < |photos| => photos[i].id)
  }

  /** The ids the extension-stripping replace gives, file by file. */
  function Bases(files: seq<string>): (bases: seq<string>)
    ensures |bases| == |files|
    ensures forall i :: 0 <= i < |files| ==> bases[i] == StripJpeg(files[i])
  {
    seq(|files|, i requires 0 <= i < |files| => StripJpeg(files[i]))
  }

  /** `if (uniqueIds.has(id)) id = `${id}_${index}``: one suffix, and no second look. */
  function PickId(used: set<string>, base: string, index: nat): string {
    if base in used then base + "_" + NatToString(index) else base
  }

  /** The ids the code hands out for a list of bases, the set of earlier ids in hand. */
  function AssignIds(bases: seq<string>): seq<string> {
    if bases == [] then []
    else
      var prev := AssignIds(bases[..|bases| - 1]);
      prev + [PickId(Elems(prev), bases[|bases| - 1], |bases| - 1)]
  }

  /**
   * getAllPhotosSync over a sorted file list: a statSync that throws ends the
   * call (None); otherwise one record per file, ids as the code assigns them.
   */
  function ReadPhotos(stat: string -> Option<nat>, files: seq<string>): Option<seq<FilePhoto>> {
    if files == [] then Some([])
    else
      var last := files[|files| - 1];
      match ReadPhotos(stat, files[..|files| - 1])
      case None => None
      case Some(photos) =>
        match stat(last)
        case None => None
        case Some(size) =>
          Some(photos + [FileRecord(last, PickId(Elems(Ids(photos)), StripJpeg(last), |photos|), size)])
  }

  /** The call returns exactly when every statSync does. */
  lemma {:induction false} ReadPhotosReturns(stat: string -> Option<nat>, files: seq<string>)
    ensures ReadPhotos(stat, files).Some? <==> AllStatsSucceed(stat, files)
    decreases |files|
  {
    if files != [] {
      ReadPhotosReturns(stat, files[..|files| - 1]);
      AllStatsSucceedStep(stat, files);
    }
  }

  /**
   * When the call returns, record i is the record of file i: its name, path,
   * fixed dimensions and size.
   */
  lemma {:induction false} ReadPhotosRecords(stat: string -> Option<nat>, files: seq<string>)
    requires AllStatsSucceed(stat, files)
    ensures ReadPhotos(stat, files).Some?
    ensures var photos := ReadPhotos(stat, files).value;
      && |photos| == |files|
      && forall i :: 0 <= i < |files| ==> photos[i] == FileRecord(files[i], photos[i].id, stat(files[i]).value)
    decreases |files|
  {
    ReadPhotosReturns(stat, files);
    if files != [] {
      var init := files[..|files| - 1];
      assert AllStatsSucceed(stat, init) by {
        forall i | 0 <= i < |init| ensures stat(init[i]).Some? {
          assert init[i] == files[i];
        }
      }
      ReadPhotosRecords(stat, init);
      var photos := ReadPhotos(stat, init).value;
      var all := ReadPhotos(stat, files).value;
      assert all[..|init|] == photos;
      forall i | 0 <= i < |files|
        ensures all[i] == FileRecord(files[i], all[i].id, stat(files[i]).value)
      {
        if i < |init| {
          assert files[i] == init[i] && all[i] == photos[i];
        }
      }
    }
  }

  /** When the call returns, its ids are the ids AssignIds gives the bases of the files. */
  lemma {:induction false} ReadPhotosIds(stat: string -> Option<nat>, files: seq<string>)
    requires ReadPhotos(stat, files).Some?
    ensures Ids(ReadPhotos(stat, files).value) == AssignIds(Bases(files))
    decreases |files|
  {
    if files != [] {
      var init := files[..|files| - 1];
      var photos := ReadLast(stat, files);
      ReadPhotosIds(stat, init);
      BasesLast(files);
      AssignIdsShape(Bases(init));
    }
  }

  /** The last record of a call that returns, from the records before it. */
  lemma ReadLast(stat: string -> Option<nat>, files: seq<string>) returns (photos: seq<FilePhoto>)
    requires files != [] && ReadPhotos(stat, files).Some?
    ensures ReadPhotos(stat, files[..|files| - 1]) == Some(photos)
    ensures var last := files[|files| - 1];
      Ids(ReadPhotos(stat, files).value) == Ids(photos) + [PickId(Elems(Ids(photos)), StripJpeg(last), |photos|)]
  {
    photos := ReadPhotos(stat, files[..|files| - 1]).value;
    var last := files[|files| - 1];
    var p := FileRecord(last, PickId(Elems(Ids(photos)), StripJpeg(last), |photos|), stat(last).value);
    assert Ids(photos + [p]) == Ids(photos) + [p.id];
  }

  lemma BasesLast(files: seq<string>)
    requires files != []
    ensures Bases(files) == Bases(files[..|files| - 1]) + [StripJpeg(files[|files| - 1])]
  {
  }

  /** One more file: its record at the end, or the call throws. */
  lemma ReadStep(stat: string -> Option<nat>, files: seq<string>, i: nat)
    requires i < |files|
    ensures ReadPhotos(stat, files[..i + 1]) ==
            match ReadPhotos(stat, files[..i])
            case None => None
            case Some(photos) =>
              match stat(files[i])
              case None => None
              case Some(size) =>
                Some(photos + [FileRecord(files[i], PickId(Elems(Ids(photos)), StripJpeg(files[i]), |photos|), size)])
  {
    assert files[..i + 1][..i] == files[..i];
  }

  /** A statSync that throws on one file makes the whole call throw. */
  lemma ReadFailsAt(stat: string -> Option<nat>, files: seq<string>, i: nat)
    requires i < |files| && stat(files[i]).None?
    ensures ReadPhotos(stat, files).None?
  {
    ReadPhotosReturns(stat, files);
  }

  /** One more file whose statSync returns: its record at the end, its id added to the ids held. */
  lemma ReadStepSome(stat: string -> Option<nat>, files: seq<string>, i: nat, photos: seq<FilePhoto>, size: nat)
    requires i < |files| && ReadPhotos(stat, files[..i]) == Some(photos) && stat(files[i]) == Some(size)
    ensures var p := FileRecord(files[i], PickId(Elems(Ids(photos)), StripJpeg(files[i]), |photos|), size);
      && ReadPhotos(stat, files[..i + 1]) == Some(photos + [p])
      && Elems(Ids(photos + [p])) == Elems(Ids(photos)) + {p.id}
  {
    ReadStep(stat, files, i);
    var p := FileRecord(files[i], PickId(Elems(Ids(photos)), StripJpeg(files[i]), |photos|), size);
    assert Ids(photos + [p]) == Ids(photos) + [p.id];
    ElemsAppend(Ids(photos), p.id);
  }

  /**
   * getAllPhotosSync: the sorted JPEG listing of `dir`, one record per file,
   * a set of the ids handed out so far consulted before each id is settled.
   */
  method GetAllPhotosSync(dir: seq<string>, stat: string -> Option<nat>) returns (r: Option<seq<FilePhoto>>)
    ensures r == ReadPhotos(stat, ListPhotoFiles(dir))
  {
    var filenames := ListPhotoFiles(dir);
    var uniqueIds: set<string> := {};
    var photos: seq<FilePhoto> := [];
    for index := 0 to |filenames|
      invariant ReadPhotos(stat, filenames[..index]) == Some(photos)
      invariant |photos| == index
      invariant uniqueIds == Elems(Ids(photos))
    {
      var filename := filenames[index];
      var stats := stat(filename);
      if stats.None? {
        ReadFailsAt(stat, filenames, index);
        return None;
      }
      var id := StripJpeg(filename);
      if id in uniqueIds {
        id := id + "_" + NatToString(index);
      }
      assert id == PickId(uniqueIds, StripJpeg(filename), index);
      uniqueIds := uniqueIds + {id};
      var photo := FilePhoto(id, filename, Src(filename), 6000, 4000, 1.5, stats.value);
      ReadStepSome(stat, filenames, index, photos, stats.value);
      photos := photos + [photo];
    }
    assert filenames[..|filenames|] == filenames;
    r := Some(photos);
  }

  /** getAllPhotos: the same body as getAllPhotosSync, behind a promise. */
  method GetAllPhotos(dir: seq<string>, stat: string -> Option<nat>) returns (r: Option<seq<FilePhoto>>)
    ensures r == ReadPhotos(stat, ListPhotoFiles(dir))
  {
    r := GetAllPhotosSync(dir, stat);
  }

  /** `photos.find((photo) => photo.id === id)`: the first record with that id. */
  function FindFilePhoto(photos: seq<FilePhoto>, id: string): (r: Option<FilePhoto>)
    ensures r.None? <==> id !in Ids(photos)
    ensures r.Some? ==> r.value.id == id
    ensures r.Some? ==> exists i :: 0 <= i < |photos| && photos[i] == r.value &&
                                    (forall j :: 0 <= j < i ==> photos[j].id != id)
  {
    var i := FirstIndex((p: FilePhoto) => p.id == id, photos);
    if i < |photos| then Some(photos[i]) else None
  }

  /** getPhotoById: a fresh read of the directory, then the first record with the id; None when the read throws. */
  method GetPhotoById(dir: seq<string>, stat: string -> Option<nat>, id: string)
    returns (r: Option<Option<FilePhoto>>)
    ensures r.None? <==> ReadPhotos(stat, ListPhotoFiles(dir)).None?
    ensures r.Some? ==> r.value == FindFilePhoto(ReadPhotos(stat, ListPhotoFiles(dir)).value, id)
  {
    var photos := GetAllPhotosSync(dir, stat);
    if photos.None? {
      return None;
    }
    r := Some(FindFilePhoto(photos.value, id));
  }

  /** getPhotoCategories: the shared range menu over the ids of a fresh read; None when the read throws. */
  method GetPhotoCategories(dir: seq<string>, stat: string -> Option<nat>)
    returns (r: Option<seq<PhotoCategory>>)
    ensures r.None? <==> ReadPhotos(stat, ListPhotoFiles(dir)).None?
    ensures r.Some? ==> r.value == RangeBuckets.PhotoCategories(Ids(ReadPhotos(stat, ListPhotoFiles(dir)).value))
  {
    var photos := GetAllPhotosSync(dir, stat);
    if photos.None? {
      return None;
    }
    var photoIds := Ids(photos.value);
    r := Some(RangeBuckets.PhotoCategories(photoIds));
  }

  // ---------------------------------------------------------------------------
  // Uniqueness of the ids the code hands out.

  /** The digits a string ends with. */
  function TrailingDigits(s: string): (d: string)
    ensures AllDigits(d) && |d| <= |s|
  {
    if s != [] && IsDigit(s[|s| - 1]) then TrailingDigits(s[..|s| - 1]) + [s[|s| - 1]] else []
  }

  /** A suffix `_<digits>` is read back whole: the underscore stops the run. */
  lemma {:induction false} TrailingDigitsOfSuffix(x: string, d: string)
    requires AllDigits(d)
    ensures TrailingDigits(x + "_" + d) == d
    decreases |d|
  {
    var s := x + "_" + d;
    if d == [] {
      assert s == x + "_";
    } else {
      assert s[..|s| - 1] == x + "_" + d[..|d| - 1];
      TrailingDigitsOfSuffix(x, d[..|d| - 1]);
    }
  }

  /** Two suffixed ids made from different positions differ. */
  lemma SuffixesDiffer(a: string, b: string, i: nat, j: nat)
    requires i != j
    ensures a + "_" + NatToString(i) != b + "_" + NatToString(j)
  {
    TrailingDigitsOfSuffix(a, NatToString(i));
    TrailingDigitsOfSuffix(b, NatToString(j));
    if NatToString(i) == NatToString(j) {
      NatToStringInjective(i, j);
    }
  }

  /** Every id is its base, or its base with its own position appended; a suffixed id's base was taken before. */
  lemma {:induction false} AssignIdsShape(bases: seq<string>)
    ensures var ids := AssignIds(bases);
      && |ids| == |bases|
      && forall j :: 0 <= j < |bases| ==>
           ids[j] == bases[j] || ids[j] == bases[j] + "_" + NatToString(j)
    decreases |bases|
  {
    if bases != [] {
      var init := bases[..|bases| - 1];
      AssignIdsShape(init);
      forall j | 0 <= j < |init| ensures init[j] == bases[j] { }
    }
  }

  /** No base extends another base with an underscore (such as "7a" and "7a_2"). */
  predicate NoUnderscoreExtension(bases: seq<string>) {
    forall i, j :: 0 <= i < |bases| && 0 <= j < |bases| ==> !(bases[i] + "_" <= bases[j])
  }

  /** When no base extends another with an underscore, the suffixed candidate is always free. */
  lemma SuffixIsFresh(bases: seq<string>, i: nat)
    requires i < |bases| && NoUnderscoreExtension(bases)
    ensures bases[i] + "_" + NatToString(i) !in Elems(AssignIds(bases[..i]))
  {
    var c := bases[i] + "_" + NatToString(i);
    var prefix := bases[..i];
    var ids := AssignIds(prefix);
    AssignIdsShape(prefix);
    if c in Elems(ids) {
      var j :| 0 <= j < |ids| && ids[j] == c;
      assert prefix[j] == bases[j];
      if ids[j] != bases[j] {
        SuffixesDiffer(bases[i], bases[j], i, j);
      }
    }
  }

  /** Under that condition the code's ids are pairwise distinct. */
  lemma AsWrittenIdsDistinct(bases: seq<string>)
    requires NoUnderscoreExtension(bases)
    ensures Distinct(AssignIds(bases))
  {
    forall p, q | 0 <= p < q < |bases| ensures bases[p] != bases[q] + "_" + NatToString(q) {
      assert bases[q] + "_" + NatToString(q) == (bases[q] + "_") + NatToString(q);
      assert !(bases[q] + "_" <= bases[p]);
    }
    IdsDistinctWhenBasesFirst(bases);
  }

  /**
   * No base equals a later base with that later base's own position appended.
   * This holds whenever every `b.jpg`/`b.JPG` is listed before every `b_<k>.jpg`.
   */
  predicate BasesBeforeSuffixed(bases: seq<string>) {
    forall p, q :: 0 <= p < q < |bases| ==> bases[p] != bases[q] + "_" + NatToString(q)
  }

  /** Under that listing condition the suffixed candidate is always free. */
  lemma SuffixIsFreshWhenBasesFirst(bases: seq<string>, i: nat)
    requires i < |bases| && BasesBeforeSuffixed(bases)
    ensures bases[i] + "_" + NatToString(i) !in Elems(AssignIds(bases[..i]))
  {
    var c := bases[i] + "_" + NatToString(i);
    var prefix := bases[..i];
    var ids := AssignIds(prefix);
    AssignIdsShape(prefix);
    if c in Elems(ids) {
      var j :| 0 <= j < |ids| && ids[j] == c;
      assert prefix[j] == bases[j];
      if ids[j] != bases[j] {
        SuffixesDiffer(bases[i], bases[j], i, j);
      }
    }
  }

  /**
   * The code's ids are pairwise distinct whenever no base is a later base with
   * that base's position appended: the clash of DuplicateIdFromListing needs a
   * listing that puts `b_<k>.jpg` before the second file with base b.
   */
  lemma {:induction false} IdsDistinctWhenBasesFirst(bases: seq<string>)
    requires BasesBeforeSuffixed(bases)
    ensures Distinct(AssignIds(bases))
    decreases |bases|
  {
    if bases != [] {
      var n := |bases| - 1;
      var init := bases[..n];
      assert BasesBeforeSuffixed(init) by {
        forall p, q | 0 <= p < q < |init| ensures init[p] != init[q] + "_" + NatToString(q) {
          assert init[p] == bases[p] && init[q] == bases[q];
        }
      }
      IdsDistinctWhenBasesFirst(init);
      AssignIdsShape(init);
      var prev := AssignIds(init);
      var x := PickId(Elems(prev), bases[n], n);
      if bases[n] in Elems(prev) {
        SuffixIsFreshWhenBasesFirst(bases, n);
      }
      assert x !in Elems(prev);
      var ids := prev + [x];
      forall i, j | 0 <= i < j < |ids| ensures ids[i] != ids[j] {
        if j == n {
          assert ids[i] == prev[i];
        } else {
          assert ids[i] == prev[i] && ids[j] == prev[j];
        }
      }
    }
  }

  /**
   * "7a_2.jpg" listed between "7a.jpg" and "7a.JPG" (all three are numbered 7), and
   * the third file's suffixed id "7a_2" is the second file's plain id.
   */
  lemma DuplicateIdCounterexample()
    ensures AssignIds(["7a", "7a_2", "7a"]) == ["7a", "7a_2", "7a_2"]
    ensures !Distinct(AssignIds(["7a", "7a_2", "7a"]))
  {
    var b := ["7a", "7a_2", "7a"];
    AsWrittenFirstTwo();
    assert b[..2] == ["7a", "7a_2"];
    assert "7a" in Elems(["7a", "7a_2"]);
    assert "7a" + "_" + NatToString(2) == "7a_2";
    assert AssignIds(b)[1] == AssignIds(b)[2];
  }

  /**
   * The same from a directory listing given in the order "7a.jpg", "7a_2.jpg",
   * "7a.JPG": all three are numbered 7, so the stable sort keeps that order,
   * and the read hands out the id "7a_2" twice. The listing's order is a
   * parameter here; one sorted by code units puts "7a_2.jpg" last, and then
   * IdsDistinctWhenBasesFirst applies.
   */
  lemma DuplicateIdFromListing(stat: string -> Option<nat>)
    requires stat("7a.jpg").Some? && stat("7a_2.jpg").Some? && stat("7a.JPG").Some?
    ensures var r := ReadPhotos(stat, ListPhotoFiles(["7a.jpg", "7a_2.jpg", "7a.JPG"]));
      r.Some? && Ids(r.value) == ["7a", "7a_2", "7a_2"]
  {
    var files := ["7a.jpg", "7a_2.jpg", "7a.JPG"];
    ListingKeepsOrder();
    assert AllStatsSucceed(stat, files);
    ListingBases();
    DuplicateIdCounterexample();
    ReadIdsOf(stat, files, ["7a", "7a_2", "7a"], ["7a", "7a_2", "7a_2"]);
  }

  /** A read where every statSync returns hands out the ids AssignIds gives the bases. */
  lemma ReadIdsOf(stat: string -> Option<nat>, files: seq<string>, bases: seq<string>, ids: seq<string>)
    requires AllStatsSucceed(stat, files) && Bases(files) == bases && AssignIds(bases) == ids
    ensures ReadPhotos(stat, files).Some? && Ids(ReadPhotos(stat, files).value) == ids
  {
    ReadPhotosReturns(stat, files);
    ReadPhotosIds(stat, files);
  }

  /** The three names pass the filter and share the key 7, so the listing keeps their order. */
  lemma ListingKeepsOrder()
    ensures ListPhotoFiles(["7a.jpg", "7a_2.jpg", "7a.JPG"]) == ["7a.jpg", "7a_2.jpg", "7a.JPG"]
  {
    var files := ["7a.jpg", "7a_2.jpg", "7a.JPG"];
    assert IsJpegName(files[0]) && IsJpegName(files[1]) && IsJpegName(files[2]);
    FilterAll(IsJpegName, files);
    ListingSortKeepsOrder();
  }

  /** The three names share the key 7, so sorting them changes nothing. */
  lemma ListingSortKeepsOrder()
    ensures SortBy(NumberKey, ["7a.jpg", "7a_2.jpg", "7a.JPG"]) == ["7a.jpg", "7a_2.jpg", "7a.JPG"]
  {
    var files := ["7a.jpg", "7a_2.jpg", "7a.JPG"];
    KeyIsSeven(files[0]);
    KeyIsSeven(files[1]);
    KeyIsSeven(files[2]);
    EqualKeysSorted(NumberKey, files, 7);
    SortedIsFixed(NumberKey, files);
  }

  /** A name that starts with the digit 7 followed by a non-digit is numbered 7. */
  lemma KeyIsSeven(s: string)
    requires |s| >= 2 && s[0] == '7' && !IsDigit(s[1])
    ensures NumberKey(s) == 7
  {
    FirstDigitAtIs(s, 0);
    assert s[0..] == "7" + s[1..];
    DigitPrefixOfDigits("7", s[1..]);
    assert "7"[..0] == [];
  }

  /** The three names strip to "7a", "7a_2" and "7a". */
  lemma ListingBases()
    ensures Bases(["7a.jpg", "7a_2.jpg", "7a.JPG"]) == ["7a", "7a_2", "7a"]
  {
    var f := ["7a.jpg", "7a_2.jpg", "7a.JPG"];
    assert IsJpegName(f[0]) && IsJpegName(f[1]) && IsJpegName(f[2]);
    assert f[0][..|f[0]| - 4] == "7a" && f[1][..|f[1]| - 4] == "7a_2" && f[2][..|f[2]| - 4] == "7a";
  }

  /** The first two names keep their bases. */
  lemma AsWrittenFirstTwo()
    ensures AssignIds(["7a", "7a_2"]) == ["7a", "7a_2"]
  {
    var b := ["7a", "7a_2"];
    assert b[..1] == ["7a"] && b[..1][..0] == [];
    assert Elems<string>([]) == {};
    assert AssignIds(["7a"]) == ["7a"];
    assert "7a_2" !in Elems(["7a"]);
  }

  /** Two files with the same base, "img.jpg" and "img.JPG": the second, at position 1, gets "img_1". */
  lemma BothCasesGetDistinctIds()
    ensures AssignIds(Bases(["img.jpg", "img.JPG"])) == ["img", "img_1"]
  {
    BothCasesShareBase();
    SecondImgIsSuffixed();
  }

  /** Both spellings of the extension strip to the same base. */
  lemma BothCasesShareBase()
    ensures Bases(["img.jpg", "img.JPG"]) == ["img", "img"]
  {
    var f := ["img.jpg", "img.JPG"];
    assert IsJpegName(f[0]) && IsJpegName(f[1]);
    assert f[0][..|f[0]| - 4] == "img" && f[1][..|f[1]| - 4] == "img";
  }

  /** A repeated base gets its position appended. */
  lemma SecondImgIsSuffixed()
    ensures AssignIds(["img", "img"]) == ["img", "img_1"]
  {
    var b := ["img", "img"];
    assert b[..1] == ["img"];
    assert AssignIds(["img"]) == ["img"] by {
      assert ["img"][..0] == [];
      assert Elems<string>([]) == {};
    }
    assert "img" in Elems(["img"]);
    assert NatToString(1) == "1";
    assert "img" + "_" + NatToString(1) == "img_1";
  }

  // ---------------------------------------------------------------------------
  // The evident intent: an id nobody holds yet, whatever the names.

  /** The ids held whose length is at least n. */
  function LongIds(used: set<string>, n: nat): set<string> {
    set u | u in used && |u| >= n
  }

  /** Moving to a longer candidate drops the held candidate itself from the measure. */
  lemma LongIdsShrink(used: set<string>, id: string, next: string)
    requires id in used && |next| > |id|
    ensures LongIds(used, |next|) < LongIds(used, |id|)
  {
    assert id in LongIds(used, |id|);
    assert id !in LongIds(used, |next|);
    forall u | u in LongIds(used, |next|) ensures u in LongIds(used, |id|) { }
  }

  /** Keep appending `_<index>` until the id is free. */
  function FreshId(used: set<string>, id: string, index: nat): (r: string)
    ensures r !in used
    ensures id !in used ==> r == id
    decreases LongIds(used, |id|)
  {
    if id in used then
      var next := id + "_" + NatToString(index);
      LongIdsShrink(used, id, next);
      FreshId(used, next, index)
    else id
  }

  /** The corrected id assignment: each id is fresh against all earlier ones. */
  function AssignUniqueIds(bases: seq<string>): (ids: seq<string>)
    ensures |ids| == |bases|
    ensures Distinct(ids)
  {
    if bases == [] then []
    else
      var prev := AssignUniqueIds(bases[..|bases| - 1]);
      var x := FreshId(Elems(prev), bases[|bases| - 1], |bases| - 1);
      var ids := prev + [x];
      assert forall i :: 0 <= i < |prev| ==> ids[i] == prev[i] && prev[i] != x;
      ids
  }

  /**
   * The corrected read: as ReadPhotos, but each id is fresh against every id
   * handed out before it.
   */
  function ReadPhotosUnique(stat: string -> Option<nat>, files: seq<string>): Option<seq<FilePhoto>> {
    if files == [] then Some([])
    else
      var last := files[|files| - 1];
      match ReadPhotosUnique(stat, files[..|files| - 1])
      case None => None
      case Some(photos) =>
        match stat(last)
        case None => None
        case Some(size) =>
          Some(photos + [FileRecord(last, FreshId(Elems(Ids(photos)), StripJpeg(last), |photos|), size)])
  }

  /** The corrected read returns exactly when every statSync does. */
  lemma {:induction false} ReadUniqueReturns(stat: string -> Option<nat>, files: seq<string>)
    ensures ReadPhotosUnique(stat, files).Some? <==> AllStatsSucceed(stat, files)
    decreases |files|
  {
    if files != [] {
      ReadUniqueReturns(stat, files[..|files| - 1]);
      AllStatsSucceedStep(stat, files);
    }
  }

  /** When it returns, its ids are those of AssignUniqueIds, one per file, and so pairwise distinct. */
  lemma {:induction false} ReadUniqueIds(stat: string -> Option<nat>, files: seq<string>)
    requires ReadPhotosUnique(stat, files).Some?
    ensures Ids(ReadPhotosUnique(stat, files).value) == AssignUniqueIds(Bases(files))
    ensures Distinct(Ids(ReadPhotosUnique(stat, files).value))
    decreases |files|
  {
    if files != [] {
      var init, last := files[..|files| - 1], files[|files| - 1];
      ReadUniqueIds(stat, init);
      var photos := ReadPhotosUnique(stat, init).value;
      var p := FileRecord(last, FreshId(Elems(Ids(photos)), StripJpeg(last), |photos|), stat(last).value);
      assert ReadPhotosUnique(stat, files).value == photos + [p];
      assert Ids(photos + [p]) == Ids(photos) + [p.id];
      BasesLast(files);
    }
  }

  /** Where no base extends another with an underscore, the corrected read is the code's read. */
  lemma {:induction false} ReadUniqueAgrees(stat: string -> Option<nat>, files: seq<string>)
    requires NoUnderscoreExtension(Bases(files))
    ensures ReadPhotosUnique(stat, files) == ReadPhotos(stat, files)
    decreases |files|
  {
    if files != [] {
      var n := |files| - 1;
      var init, last := files[..n], files[n];
      var bases := Bases(files);
      BasesLast(files);
      assert bases[..n] == Bases(init) && bases[n] == StripJpeg(last);
      NoUnderscorePrefix(bases, n);
      ReadUniqueAgrees(stat, init);
      if ReadPhotos(stat, init).Some? {
        var photos := ReadPhotos(stat, init).value;
        ReadPhotosIds(stat, init);
        ReadPhotosLength(stat, init);
        FreshIdIsPickId(bases, n, Elems(Ids(photos)));
      }
      AgreeStep(stat, files);
    }
  }

  /**
   * One more file: if the two reads agree on the files before it, and the two
   * rules pick the same id for it, the reads agree with it.
   */
  lemma AgreeStep(stat: string -> Option<nat>, files: seq<string>)
    requires files != []
    requires ReadPhotosUnique(stat, files[..|files| - 1]) == ReadPhotos(stat, files[..|files| - 1])
    requires var r, last := ReadPhotos(stat, files[..|files| - 1]), files[|files| - 1];
      r.Some? ==> FreshId(Elems(Ids(r.value)), StripJpeg(last), |r.value|) == PickId(Elems(Ids(r.value)), StripJpeg(last), |r.value|)
    ensures ReadPhotosUnique(stat, files) == ReadPhotos(stat, files)
  {
    var init, last := files[..|files| - 1], files[|files| - 1];
    if ReadPhotos(stat, init).None? || stat(last).None? {
      ReadBothThrow(stat, files);
    } else {
      ReadBothStep(stat, files, ReadPhotos(stat, init).value);
    }
  }

  /** A read that returns has one record per file. */
  lemma ReadPhotosLength(stat: string -> Option<nat>, files: seq<string>)
    requires ReadPhotos(stat, files).Some?
    ensures |ReadPhotos(stat, files).value| == |files|
  {
    ReadPhotosIds(stat, files);
  }

  /** Both reads throw when the files before the last make them throw, or the last statSync does. */
  lemma ReadBothThrow(stat: string -> Option<nat>, files: seq<string>)
    requires files != []
    requires ReadPhotosUnique(stat, files[..|files| - 1]) == ReadPhotos(stat, files[..|files| - 1])
    requires ReadPhotos(stat, files[..|files| - 1]).None? || stat(files[|files| - 1]).None?
    ensures ReadPhotos(stat, files).None? && ReadPhotosUnique(stat, files).None?
  {
  }

  /** Both reads append the record of the last file, with the id their rule picks. */
  lemma ReadBothStep(stat: string -> Option<nat>, files: seq<string>, photos: seq<FilePhoto>)
    requires files != [] && stat(files[|files| - 1]).Some?
    requires ReadPhotosUnique(stat, files[..|files| - 1]) == ReadPhotos(stat, files[..|files| - 1]) == Some(photos)
    ensures var last, used := files[|files| - 1], Elems(Ids(photos));
      && ReadPhotos(stat, files) == Some(photos + [FileRecord(last, PickId(used, StripJpeg(last), |photos|), stat(last).value)])
      && ReadPhotosUnique(stat, files) == Some(photos + [FileRecord(last, FreshId(used, StripJpeg(last), |photos|), stat(last).value)])
  {
  }

  /** The condition carries over to a prefix. */
  lemma NoUnderscorePrefix(bases: seq<string>, n: nat)
    requires n <= |bases| && NoUnderscoreExtension(bases)
    ensures NoUnderscoreExtension(bases[..n])
  {
    forall i, j | 0 <= i < n && 0 <= j < n ensures !(bases[..n][i] + "_" <= bases[..n][j]) {
      assert bases[..n][i] == bases[i] && bases[..n][j] == bases[j];
    }
  }

  /** Under the condition, the corrected rule picks what the code picks for the base at position n. */
  lemma FreshIdIsPickId(bases: seq<string>, n: nat, used: set<string>)
    requires n < |bases| && NoUnderscoreExtension(bases)
    requires used == Elems(AssignIds(bases[..n]))
    ensures FreshId(used, bases[n], n) == PickId(used, bases[n], n)
  {
    if bases[n] in used {
      SuffixIsFresh(bases, n);
      var c := bases[n] + "_" + NatToString(n);
      assert FreshId(used, c, n) == c;
    }
  }

  /** A statSync that throws on one file makes the corrected read throw. */
  lemma ReadUniqueFailsAt(stat: string -> Option<nat>, files: seq<string>, i: nat)
    requires i < |files| && stat(files[i]).None?
    ensures ReadPhotosUnique(stat, files).None?
  {
    ReadUniqueReturns(stat, files);
  }

  /** One more file whose statSync returns, under the corrected rule. */
  lemma ReadUniqueStepSome(stat: string -> Option<nat>, files: seq<string>, i: nat, photos: seq<FilePhoto>,
                           size: nat, id: string)
    requires i < |files| && ReadPhotosUnique(stat, files[..i]) == Some(photos) && stat(files[i]) == Some(size)
    requires |photos| == i && id == FreshId(Elems(Ids(photos)), StripJpeg(files[i]), i)
    ensures var p := FileRecord(files[i], id, size);
      && ReadPhotosUnique(stat, files[..i + 1]) == Some(photos + [p])
      && Elems(Ids(photos + [p])) == Elems(Ids(photos)) + {id}
  {
    assert files[..i + 1][..i] == files[..i];
    var p := FileRecord(files[i], id, size);
    assert Ids(photos + [p]) == Ids(photos) + [id];
    ElemsAppend(Ids(photos), id);
  }

  /**
   * getAllPhotosSync with the corrected rule: while the candidate id is held,
   * `_<index>` is appended again.
   */
  method GetAllPhotosSyncCorrected(dir: seq<string>, stat: string -> Option<nat>) returns (r: Option<seq<FilePhoto>>)
    ensures r == ReadPhotosUnique(stat, ListPhotoFiles(dir))
  {
    var filenames := ListPhotoFiles(dir);
    var uniqueIds: set<string> := {};
    var photos: seq<FilePhoto> := [];
    for index := 0 to |filenames|
      invariant ReadPhotosUnique(stat, filenames[..index]) == Some(photos)
      invariant |photos| == index
      invariant uniqueIds == Elems(Ids(photos))
    {
      var filename := filenames[index];
      var stats := stat(filename);
      if stats.None? {
        ReadUniqueFailsAt(stat, filenames, index);
        return None;
      }
      var base := StripJpeg(filename);
      var id := base;
      while id in uniqueIds
        invariant FreshId(uniqueIds, id, index) == FreshId(uniqueIds, base, index)
        decreases LongIds(uniqueIds, |id|)
      {
        var next := id + "_" + NatToString(index);
        LongIdsShrink(uniqueIds, id, next);
        id := next;
      }
      ReadUniqueStepSome(stat, filenames, index, photos, stats.value, id);
      uniqueIds := uniqueIds + {id};
      photos := photos + [FileRecord(filename, id, stats.value)];
    }
    assert filenames[..|filenames|] == filenames;
    r := Some(photos);
  }

  /**
   * The correction changes nothing where the code was already right: when no
   * base extends another with an underscore, both assignments agree.
   */
  lemma {:induction false} CorrectionAgrees(bases: seq<string>)
    requires NoUnderscoreExtension(bases)
    ensures AssignUniqueIds(bases) == AssignIds(bases)
    decreases |bases|
  {
    if bases != [] {
      var n := |bases| - 1;
      var init := bases[..n];
      assert NoUnderscoreExtension(init) by {
        forall i, j | 0 <= i < |init| && 0 <= j < |init| ensures !(init[i] + "_" <= init[j]) {
          assert init[i] == bases[i] && init[j] == bases[j];
        }
      }
      CorrectionAgrees(init);
      var prev := AssignIds(init);
      if bases[n] in Elems(prev) {
        SuffixIsFresh(bases, n);
        var c := bases[n] + "_" + NatToString(n);
        assert FreshId(Elems(prev), c, n) == c;
      }
    }
  }

  /** The corrected assignment also breaks the counterexample: "7a", "7a_2", "7a_2_2". */
  lemma CorrectedCounterexample()
    ensures AssignUniqueIds(["7a", "7a_2", "7a"]) == ["7a", "7a_2", "7a_2_2"]
  {
    var b := ["7a", "7a_2", "7a"];
    CorrectedFirstTwo();
    assert b[..2] == ["7a", "7a_2"];
    FreshAfterTwoSteps();
  }

  /** The first two names keep their bases under the correction too. */
  lemma CorrectedFirstTwo()
    ensures AssignUniqueIds(["7a", "7a_2"]) == ["7a", "7a_2"]
  {
    var b := ["7a", "7a_2"];
    assert b[..1] == ["7a"] && b[..1][..0] == [];
    assert Elems<string>([]) == {};
    assert AssignUniqueIds(["7a"]) == ["7a"];
    assert "7a_2" !in Elems(["7a"]);
  }

  /** "7a" is held, so is "7a_2"; "7a_2_2" is the first free candidate. */
  lemma FreshAfterTwoSteps()
    ensures FreshId(Elems(["7a", "7a_2"]), "7a", 2) == "7a_2_2"
  {
    var used := Elems(["7a", "7a_2"]);
    assert NatToString(2) == "2";
    assert "7a_2_2" !in used && "7a_2" in used && "7a" in used;
    assert "7a" + "_" + NatToString(2) == "7a_2";
    assert "7a_2" + "_" + NatToString(2) == "7a_2_2";
    assert FreshId(used, "7a_2_2", 2) == "7a_2_2";
    assert FreshId(used, "7a_2", 2) == "7a_2_2";
  }
}
