/** The records the gallery passes around (lib/photo-types.ts) and the constants it shares. */
module PhotoTypes {

  datatype Option<+T> = None | Some(value: T)

  /** The seven values of PhotoCategoryType. */
  datatype Category = GettingReady | Ceremony | Portraits | CocktailHour | Reception | Party | Details
  {
    /** The category as it is spelled in the catalog. */
    function Name(): string {
      match this
      case GettingReady => "Getting Ready"
      case Ceremony => "Ceremony"
      case Portraits => "Portraits"
      case CocktailHour => "Cocktail Hour"
      case Reception => "Reception"
      case Party => "Party"
      case Details => "Details"
    }
  }

  /** The seven category names, in the order the type lists them. */
  const CategoryNames: seq<string> :=
    ["Getting Ready", "Ceremony", "Portraits", "Cocktail Hour", "Reception", "Party", "Details"]

  /**
   * One catalog entry. `category` is kept as the string the catalog holds: the
   * readers compare it as a string and nothing checks it against the enumeration.
   * `aspectRatio` is an exact quotient (the program's floating point is not modelled).
   */
  datatype Photo = Photo(
    id: string,
    filename: string,
    src: string,
    width: nat,
    height: nat,
    aspectRatio: real,
    fileSize: nat,
    blurDataURL: Option<string>,
    category: string,
    description: string,
    tags: seq<string>,
    location: Option<string>)

  /** The smaller record that lib/photos.ts derives straight from the file system. */
  datatype FilePhoto = FilePhoto(
    id: string,
    filename: string,
    src: string,
    width: nat,
    height: nat,
    aspectRatio: real,
    fileSize: nat)

  /** A named group of photo ids, as the category menus consume it. */
  datatype PhotoCategory = PhotoCategory(id: string, name: string, photoIds: seq<string>)

  /** What a categorizePhoto function returns. */
  datatype Analysis = Analysis(category: string, description: string, tags: seq<string>)

  /** PHOTOS_PER_LOAD (lib/constants.ts). */
  const PhotosPerLoad: nat := 20

  /** The public directory the images are served from. */
  const PhotosPath: string := "/wedding_photos"

  /** Every statSync over the files returns; None stands for one that throws. */
  predicate AllStatsSucceed(stat: string -> Option<nat>, files: seq<string>) {
    forall i :: 0 <= i < |files| ==> stat(files[i]).Some?
  }

  /** Every statSync over a list returns exactly when they do up to the last file and on it. */
  lemma AllStatsSucceedStep(stat: string -> Option<nat>, files: seq<string>)
    requires files != []
    ensures AllStatsSucceed(stat, files) <==>
            AllStatsSucceed(stat, files[..|files| - 1]) && stat(files[|files| - 1]).Some?
  {
    var init := files[..|files| - 1];
    if AllStatsSucceed(stat, init) && stat(files[|files| - 1]).Some? {
      forall i | 0 <= i < |files| ensures stat(files[i]).Some? {
        if i < |init| { assert files[i] == init[i]; }
      }
    }
    if AllStatsSucceed(stat, files) {
      forall i | 0 <= i < |init| ensures stat(init[i]).Some? {
        assert init[i] == files[i];
      }
    }
  }

  /** `${PHOTOS_PATH}/${filename}`. */
  function Src(filename: string): (src: string)
    ensures src == "/wedding_photos/" + filename
  {
    PhotosPath + "/" + filename
  }
}
