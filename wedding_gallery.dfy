/**
 * components/WeddingGallery.tsx: the per-category counts shown in the menu and
 * the selected category handed down to the grid.
 */
module WeddingGallery {
  import opened PhotoTypes
  import opened CatalogGrouping

  /** The record of counts: `all`, then one count per catalog category. */
  datatype CategoryCounts = CategoryCounts(
    all: nat,
    gettingReady: nat,
    ceremony: nat,
    portraits: nat,
    cocktailHour: nat,
    reception: nat,
    party: nat,
    details: nat)
  {
    /** The count shown for category c. */
    function Get(c: Category): nat {
      match c
      case GettingReady => gettingReady
      case Ceremony => ceremony
      case Portraits => portraits
      case CocktailHour => cocktailHour
      case Reception => reception
      case Party => party
      case Details => details
    }

    /** The seven named counts added up. */
    function NamedSum(): nat {
      gettingReady + ceremony + portraits + cocktailHour + reception + party + details
    }
  }

  /** What the memoised computation yields for a photo list. */
  function GalleryCounts(photos: seq<Photo>): CategoryCounts {
    CategoryCounts(
      |photos|,
      CountCategory(photos, "Getting Ready"),
      CountCategory(photos, "Ceremony"),
      CountCategory(photos, "Portraits"),
      CountCategory(photos, "Cocktail Hour"),
      CountCategory(photos, "Reception"),
      CountCategory(photos, "Party"),
      CountCategory(photos, "Details"))
  }

  /** `counts[name] || 0`: a key the reduce never created reads as 0. */
  function CountOrZero(counts: map<string, nat>, name: string): nat {
    if name in counts then counts[name] else 0
  }

  /**
   * categoryCounts: the reduce into a dictionary of counts, then the record
   * literal reading each of the seven names from it.
   */
  method ComputeCategoryCounts(photos: seq<Photo>) returns (counts: CategoryCounts)
    ensures counts == GalleryCounts(photos)
  {
    var acc := CountByCategory(photos);
    counts := CategoryCounts(
      |photos|,
      CountOrZero(acc, "Getting Ready"),
      CountOrZero(acc, "Ceremony"),
      CountOrZero(acc, "Portraits"),
      CountOrZero(acc, "Cocktail Hour"),
      CountOrZero(acc, "Reception"),
      CountOrZero(acc, "Party"),
      CountOrZero(acc, "Details"));
  }

  /**
   * Each named count is the number of photos with that category, and it is 0
   * exactly when no photo has it.
   */
  lemma CountIsNumberWithCategory(photos: seq<Photo>, c: Category)
    ensures GalleryCounts(photos).Get(c) == |WithCategory(photos, c.Name())|
    ensures GalleryCounts(photos).Get(c) == 0 <==> forall i :: 0 <= i < |photos| ==> photos[i].category != c.Name()
  {
    CountIsFilterLength(photos, c.Name());
    CountPositive(photos, c.Name());
  }

  /** When every photo carries one of the seven names, the seven counts add up to `all`. */
  lemma {:induction false} NamedCountsSumToAll(photos: seq<Photo>)
    requires forall i :: 0 <= i < |photos| ==> photos[i].category in CategoryNames
    ensures GalleryCounts(photos).NamedSum() == GalleryCounts(photos).all
    decreases |photos|
  {
    if photos != [] {
      var init := photos[..|photos| - 1];
      forall i | 0 <= i < |init| ensures init[i].category in CategoryNames {
        assert init[i] == photos[i];
      }
      NamedCountsSumToAll(init);
    }
  }

  /** Reordering the photos changes no count. */
  lemma CountsIgnoreOrder(s: seq<Photo>, t: seq<Photo>)
    requires multiset(s) == multiset(t)
    ensures GalleryCounts(s) == GalleryCounts(t)
  {
    assert |s| == |multiset(s)| == |multiset(t)| == |t|;
    CountPermutation(s, t, "Getting Ready");
    CountPermutation(s, t, "Ceremony");
    CountPermutation(s, t, "Portraits");
    CountPermutation(s, t, "Cocktail Hour");
    CountPermutation(s, t, "Reception");
    CountPermutation(s, t, "Party");
    CountPermutation(s, t, "Details");
  }

  /** The gallery's own state: the photo list, its memoised counts and the selected category. */
  class Gallery {
    const photos: seq<Photo>
    const categoryCounts: CategoryCounts
    var selectedCategory: string

    constructor(photos: seq<Photo>)
      ensures this.photos == photos
      ensures categoryCounts == GalleryCounts(photos)
      ensures selectedCategory == "all"
    {
      var counts := ComputeCategoryCounts(photos);
      this.photos := photos;
      categoryCounts := counts;
      selectedCategory := "all";
    }

    /** handleCategoryChange: the new selection (the scroll into view is left out). */
    method HandleCategoryChange(category: string)
      modifies this
      ensures selectedCategory == category
    {
      selectedCategory := category;
    }
  }
}
