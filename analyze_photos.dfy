/**
 * The second builder, scripts/analyze-and-categorize-photos.ts: the same
 * sorted JPEG listing, one record per file with fixed 6000 by 4000 dimensions
 * and no image probing, no `try` and no id de-duplication. The file calls a
 * categorizePhoto it neither defines nor imports; here it is a parameter.
 */
module AnalyzePhotos {
  import opened PhotoTypes
  import opened FileNames

  const Location: string := "Majestic Mirage, Punta Cana"

  /** The record the forEach body pushes for one file of the given size. */
  function AnalysisRecord(categorizePhoto: (string, int) -> Analysis, filename: string, size: nat): Photo {
    var analysis := categorizePhoto(filename, NumberKey(filename));
    Photo(StripJpeg(filename), filename, Src(filename), 6000, 4000, 1.5, size, None,
          analysis.category, analysis.description, analysis.tags, Some(Location))
  }

  /**
   * The whole run over a file list: a statSync that throws ends the run with
   * nothing written (None); otherwise one record per file, in file order.
   */
  function Analyzed(stat: string -> Option<nat>, categorizePhoto: (string, int) -> Analysis,
                    files: seq<string>): Option<seq<Photo>>
  {
    if files == [] then Some([])
    else
      var last := files[|files| - 1];
      match Analyzed(stat, categorizePhoto, files[..|files| - 1])
      case None => None
      case Some(init) =>
        match stat(last)
        case None => None
        case Some(size) => Some(init + [AnalysisRecord(categorizePhoto, last, size)])
  }

  /**
   * The run succeeds exactly when every statSync does, and then record i is
   * the record of file i: its name, id, path, fixed dimensions, size, no blur
   * placeholder, the venue and the category the classifier picks.
   */
  lemma AnalyzedSpec(stat: string -> Option<nat>, categorizePhoto: (string, int) -> Analysis, files: seq<string>)
    ensures var r := Analyzed(stat, categorizePhoto, files);
      && (r.Some? <==> AllStatsSucceed(stat, files))
      && (r.Some? ==> |r.value| == |files|)
      && (r.Some? ==> forall i :: 0 <= i < |files| ==>
            && r.value[i] == AnalysisRecord(categorizePhoto, files[i], stat(files[i]).value)
            && r.value[i].filename == files[i]
            && r.value[i].id == StripJpeg(files[i])
            && r.value[i].src == "/wedding_photos/" + files[i]
            && r.value[i].width == 6000 && r.value[i].height == 4000 && r.value[i].aspectRatio == 1.5
            && r.value[i].fileSize == stat(files[i]).value
            && r.value[i].blurDataURL.None?
            && r.value[i].location == Some(Location)
            && r.value[i].category == categorizePhoto(files[i], NumberKey(files[i])).category)
  {
    AnalyzedReturns(stat, categorizePhoto, files);
    AnalyzedRecords(stat, categorizePhoto, files);
  }

  /** The run succeeds exactly when every statSync does. */
  lemma {:induction false} AnalyzedReturns(stat: string -> Option<nat>, categorizePhoto: (string, int) -> Analysis,
                                           files: seq<string>)
    ensures Analyzed(stat, categorizePhoto, files).Some? <==> AllStatsSucceed(stat, files)
    decreases |files|
  {
    if files != [] {
      AnalyzedReturns(stat, categorizePhoto, files[..|files| - 1]);
      AllStatsSucceedStep(stat, files);
    }
  }

  /** A run that succeeds holds one record per file, record i being that of file i. */
  lemma {:induction false} AnalyzedRecords(stat: string -> Option<nat>, categorizePhoto: (string, int) -> Analysis,
                                           files: seq<string>)
    ensures var r := Analyzed(stat, categorizePhoto, files);
      r.Some? ==>
        && |r.value| == |files|
        && (forall i :: 0 <= i < |files| ==>
              stat(files[i]).Some? && r.value[i] == AnalysisRecord(categorizePhoto, files[i], stat(files[i]).value))
    decreases |files|
  {
    if files != [] {
      var init := files[..|files| - 1];
      AnalyzedRecords(stat, categorizePhoto, init);
      var r := Analyzed(stat, categorizePhoto, files);
      if r.Some? {
        var r0 := Analyzed(stat, categorizePhoto, init).value;
        forall i | 0 <= i < |files|
          ensures stat(files[i]).Some? && r.value[i] == AnalysisRecord(categorizePhoto, files[i], stat(files[i]).value)
        {
          if i < |init| { assert r.value[i] == r0[i] && files[i] == init[i]; }
        }
      }
    }
  }

  /** One more file: the run so far extended by that file's record, or ended. */
  lemma AnalyzedStep(stat: string -> Option<nat>, categorizePhoto: (string, int) -> Analysis,
                     files: seq<string>, i: nat)
    requires i < |files|
    ensures Analyzed(stat, categorizePhoto, files[..i + 1]) ==
            match Analyzed(stat, categorizePhoto, files[..i])
            case None => None
            case Some(init) =>
              match stat(files[i])
              case None => None
              case Some(size) => Some(init + [AnalysisRecord(categorizePhoto, files[i], size)])
  {
    assert files[..i + 1][..i] == files[..i];
  }

  /** A run that already failed on a prefix fails on the whole list. */
  lemma AnalyzedFailsFromPrefix(stat: string -> Option<nat>, categorizePhoto: (string, int) -> Analysis,
                                files: seq<string>, i: nat)
    requires i <= |files| && Analyzed(stat, categorizePhoto, files[..i]).None?
    ensures Analyzed(stat, categorizePhoto, files).None?
  {
    AnalyzedReturns(stat, categorizePhoto, files[..i]);
    AnalyzedReturns(stat, categorizePhoto, files);
    var k :| 0 <= k < i && stat(files[..i][k]).None?;
    assert files[..i][k] == files[k];
  }

  /**
   * generatePhotoMetadata: the forEach over the sorted JPEG listing of `dir`,
   * pushing one record per file.
   */
  method GeneratePhotoMetadata(dir: seq<string>, stat: string -> Option<nat>,
                               categorizePhoto: (string, int) -> Analysis)
    returns (r: Option<seq<Photo>>)
    ensures r == Analyzed(stat, categorizePhoto, ListPhotoFiles(dir))
  {
    var files := ListPhotoFiles(dir);
    var metadata: seq<Photo> := [];
    for index := 0 to |files|
      invariant Analyzed(stat, categorizePhoto, files[..index]) == Some(metadata)
    {
      var filename := files[index];
      AnalyzedStep(stat, categorizePhoto, files, index);
      var stats := stat(filename);
      if stats.None? {
        AnalyzedFailsFromPrefix(stat, categorizePhoto, files, index + 1);
        return None;
      }
      var photoNumber := NumberKey(filename);
      var id := StripJpeg(filename);
      var analysis := categorizePhoto(filename, photoNumber);
      var photo := Photo(id, filename, Src(filename), 6000, 4000, 1.5, stats.value, None,
                         analysis.category, analysis.description, analysis.tags, Some(Location));
      assert photo == AnalysisRecord(categorizePhoto, filename, stats.value);
      metadata := metadata + [photo];
    }
    assert files[..|files|] == files;
    r := Some(metadata);
  }

  /**
   * This builder does not de-duplicate ids: "img.jpg" and "img.JPG" both get
   * the id "img".
   */
  lemma SameIdForBothCases(stat: string -> Option<nat>, categorizePhoto: (string, int) -> Analysis)
    requires stat("img.jpg").Some? && stat("img.JPG").Some?
    ensures var r := Analyzed(stat, categorizePhoto, ["img.jpg", "img.JPG"]);
            r.Some? && |r.value| == 2 && r.value[0].id == "img" && r.value[1].id == "img"
  {
    var files := ["img.jpg", "img.JPG"];
    AnalyzedSpec(stat, categorizePhoto, files);
    assert IsJpegName(files[0]) && IsJpegName(files[1]);
    assert files[0][..|files[0]| - 4] == "img";
    assert files[1][..|files[1]| - 4] == "img";
  }
}
