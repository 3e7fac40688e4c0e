/**
 * The catalog builder of scripts/generate-photo-data.ts: for each listed JPEG,
 * in numeric order, stat it, probe its size and blur placeholder with the image
 * library, classify it, and keep the record; a file whose processing throws is
 * skipped and the run goes on.
 */
module GeneratePhotoData {
  import opened PhotoTypes
  import opened Seqs
  import opened FileNames
  import opened Categorize

  const Location: string := "Majestic Mirage, Punta Cana"
  const DefaultWidth: nat := 6000
  const DefaultHeight: nat := 4000

  /** What the image library's metadata() reports; a dimension it leaves out is None. */
  datatype Dimensions = Dimensions(width: Option<nat>, height: Option<nat>)

  /**
   * The calls into code outside the model, per file name: the file size from
   * statSync, the image metadata and the blur placeholder from the image
   * library. None stands for a call that throws.
   */
  datatype Probe = Probe(
    stat: string -> Option<nat>,
    metadata: string -> Option<Dimensions>,
    blurDataURL: string -> Option<string>)

  /** `value || fallback` on a number that may be undefined: undefined and 0 fall back. */
  function OrFallback(v: Option<nat>, fallback: nat): nat {
    if v.Some? && v.value != 0 then v.value else fallback
  }

  /** The body of the `try` block for one file: its record, or None when a call throws. */
  function ProcessFile(probe: Probe, filename: string): (r: Option<Photo>)
    ensures r.Some? <==>
      probe.stat(filename).Some? && probe.metadata(filename).Some? && probe.blurDataURL(filename).Some?
    ensures r.Some? ==>
      var p := r.value;
      && p.filename == filename
      && p.src == "/wedding_photos/" + filename
      && (IsJpegName(filename) ==> |p.id| == |filename| - 4 && p.id + filename[|filename| - 4..] == filename)
      && p.fileSize == probe.stat(filename).value
      && p.blurDataURL == probe.blurDataURL(filename)
      && p.category == CategorizePhoto(filename, NumberKey(filename)).category
      && p.description == CategorizePhoto(filename, NumberKey(filename)).description
      && p.tags == CategorizePhoto(filename, NumberKey(filename)).tags
      && p.location == Some(Location)
  {
    match probe.stat(filename)
    case None => None
    case Some(size) =>
      var photoNumber := NumberKey(filename);
      var id := StripJpeg(filename);
      match probe.metadata(filename)
      case None => None
      case Some(dims) =>
        match probe.blurDataURL(filename)
        case None => None
        case Some(blur) =>
          var analysis := CategorizePhoto(filename, photoNumber);
          var width := OrFallback(dims.width, DefaultWidth);
          var height := OrFallback(dims.height, DefaultHeight);
          Some(Photo(id, filename, Src(filename), width, height, width as real / height as real,
                     size, Some(blur), analysis.category, analysis.description, analysis.tags,
                     Some(Location)))
  }

  /**
   * Missing or zero dimensions fall back to 6000 by 4000, and the aspect ratio
   * is computed from the same values the record stores.
   */
  lemma DimensionFallback(probe: Probe, filename: string)
    requires ProcessFile(probe, filename).Some?
    ensures var p := ProcessFile(probe, filename).value;
            var dims := probe.metadata(filename).value;
            && p.width > 0 && p.height > 0
            && p.aspectRatio == p.width as real / p.height as real
            && (dims.width.None? || dims.width == Some(0) ==> p.width == 6000)
            && (dims.width.Some? && dims.width.value != 0 ==> p.width == dims.width.value)
            && (dims.height.None? || dims.height == Some(0) ==> p.height == 4000)
            && (dims.height.Some? && dims.height.value != 0 ==> p.height == dims.height.value)
  {
  }

  /** The records of the files whose processing succeeds, in file order. */
  function Generated(probe: Probe, files: seq<string>): seq<Photo> {
    if files == [] then []
    else
      Generated(probe, files[..|files| - 1]) +
      match ProcessFile(probe, files[|files| - 1])
      case None => []
      case Some(p) => [p]
  }

  /** One more file: its record, if any, goes at the end. */
  lemma GeneratedStep(probe: Probe, files: seq<string>, i: nat)
    requires i < |files|
    ensures Generated(probe, files[..i + 1]) ==
            Generated(probe, files[..i]) + match ProcessFile(probe, files[i]) case None => [] case Some(p) => [p]
  {
    assert files[..i + 1][..i] == files[..i];
  }

  function Filenames(photos: seq<Photo>): (names: seq<string>)
    ensures |names| == |photos|
    ensures forall i :: 0 <= i < |photos| ==> names[i] == photos[i].filename
  {
    seq(|photos|, i requires 0 <= i < |photos| => photos[i].filename)
  }

  predicate Processes(probe: Probe, filename: string) {
    ProcessFile(probe, filename).Some?
  }

  /**
   * Skipping never reorders: the output is, record by record, the files whose
   * processing succeeds, in the order of the file list; so it is a
   * subsequence of the files and no longer than them.
   */
  lemma GeneratedIsSkipOnly(probe: Probe, files: seq<string>)
    ensures Filenames(Generated(probe, files)) == Filter((f: string) => Processes(probe, f), files)
    ensures forall i :: 0 <= i < |Generated(probe, files)| ==>
              ProcessFile(probe, Generated(probe, files)[i].filename) == Some(Generated(probe, files)[i])
    ensures IsSubsequence(Filenames(Generated(probe, files)), files)
    ensures |Generated(probe, files)| <= |files|
  {
    GeneratedFilenames(probe, files);
    GeneratedRecords(probe, files);
  }

  /** The names of the records are the names of the files that process. */
  lemma {:induction false} GeneratedFilenames(probe: Probe, files: seq<string>)
    ensures Filenames(Generated(probe, files)) == Filter((f: string) => Processes(probe, f), files)
    decreases |files|
  {
    if files != [] {
      var init, last := files[..|files| - 1], files[|files| - 1];
      GeneratedFilenames(probe, init);
      var g0 := Generated(probe, init);
      match ProcessFile(probe, last)
      case None =>
      case Some(p) =>
        assert Filenames(g0 + [p]) == Filenames(g0) + [last];
    }
  }

  /** Each record is what processing its own file gives. */
  lemma {:induction false} GeneratedRecords(probe: Probe, files: seq<string>)
    ensures forall i :: 0 <= i < |Generated(probe, files)| ==>
              ProcessFile(probe, Generated(probe, files)[i].filename) == Some(Generated(probe, files)[i])
    decreases |files|
  {
    if files != [] {
      var init, last := files[..|files| - 1], files[|files| - 1];
      GeneratedRecords(probe, init);
      var g0, g := Generated(probe, init), Generated(probe, files);
      match ProcessFile(probe, last)
      case None =>
      case Some(p) =>
        assert g == g0 + [p];
        forall i | 0 <= i < |g| ensures ProcessFile(probe, g[i].filename) == Some(g[i]) {
          if i < |g0| { assert g[i] == g0[i]; }
        }
    }
  }

  /** When nothing throws, there is one record per file, in file order. */
  lemma {:induction false} GeneratedAllSucceed(probe: Probe, files: seq<string>)
    requires forall i :: 0 <= i < |files| ==> Processes(probe, files[i])
    ensures Filenames(Generated(probe, files)) == files
  {
    GeneratedIsSkipOnly(probe, files);
    FilterAll((f: string) => Processes(probe, f), files);
  }

  /**
   * generatePhotoMetadata: the sorted JPEG listing of `dir`, processed in
   * order, skipping the files whose processing throws.
   */
  method GeneratePhotoMetadata(dir: seq<string>, probe: Probe) returns (metadata: seq<Photo>)
    ensures metadata == Generated(probe, ListPhotoFiles(dir))
  {
    var files := ListPhotoFiles(dir);
    metadata := [];
    for i := 0 to |files|
      invariant metadata == Generated(probe, files[..i])
    {
      var filename := files[i];
      GeneratedStep(probe, files, i);
      var stats := probe.stat(filename);
      if stats.None? {
        continue;
      }
      var photoNumber := NumberKey(filename);
      var id := StripJpeg(filename);
      var dims := probe.metadata(filename);
      if dims.None? {
        continue;
      }
      var blurDataURL := probe.blurDataURL(filename);
      if blurDataURL.None? {
        continue;
      }
      var analysis := CategorizePhoto(filename, photoNumber);
      var width := OrFallback(dims.value.width, DefaultWidth);
      var height := OrFallback(dims.value.height, DefaultHeight);
      var photo := Photo(id, filename, Src(filename), width, height,
                         width as real / height as real, stats.value,
                         blurDataURL, analysis.category, analysis.description,
                         analysis.tags, Some(Location));
      assert ProcessFile(probe, filename) == Some(photo);
      metadata := metadata + [photo];
    }
    assert files[..|files|] == files;
  }
}
