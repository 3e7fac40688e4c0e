/**
 * components/PhotoGrid.tsx: the grid's category filter, its page-of-20
 * loading and the lightbox selection it keeps.
 */
module PhotoGrid {
  import opened PhotoTypes
  import opened Seqs
  import opened CatalogGrouping
  import opened Slugs
  import opened Lightbox

  /**
   * filteredPhotos: every photo for "" or "all"; otherwise the photos whose
   * category is the slug turned back into Title Case, in order.
   */
  function FilteredPhotos(photos: seq<Photo>, category: string): (r: seq<Photo>)
    ensures category == "" || category == "all" ==> r == photos
    ensures category != "" && category != "all" ==>
      && (forall i :: 0 <= i < |r| ==> r[i].category == TitleCase(category) && r[i] in photos)
      && (forall i :: 0 <= i < |photos| && photos[i].category == TitleCase(category) ==> photos[i] in r)
    ensures IsSubsequence(r, photos)
  {
    if category == "" || category == "all" then
      SubsequenceRefl(photos);
      photos
    else
      WithCategory(photos, TitleCase(category))
  }

  /**
   * Selecting a category by the slug getPhotoCategories gives it shows
   * exactly the photos of that category.
   */
  lemma FilterBySlug(photos: seq<Photo>, c: Category)
    ensures FilteredPhotos(photos, Slug(c.Name())) == WithCategory(photos, c.Name())
  {
    SlugRoundTrip(c);
    SlugIsNotAll(c);
  }

  /** `slice(start, end)` with non-negative bounds: clamped to the sequence, empty when crossed. */
  function Slice<T>(s: seq<T>, start: nat, end: nat): (r: seq<T>)
    ensures |r| == if start <= end && start <= |s| then Min(end, |s|) - start else 0
    ensures forall i :: 0 <= i < |r| ==> r[i] == s[start + i]
  {
    if start <= end && start <= |s| then s[start..Min(end, |s|)] else []
  }

  function Min(a: int, b: int): int {
    if a <= b then a else b
  }

  function Max(a: int, b: int): int {
    if a <= b then b else a
  }

  /** A prefix of s followed by the next slice of s is a longer prefix. */
  lemma SlicePrefix<T>(s: seq<T>, cur: nat, n: nat)
    requires cur <= |s|
    ensures s[..cur] + Slice(s, cur, cur + n) == s[..Min(cur + n, |s|)]
  {
  }

  /** handleNavigate's new index: one step, clamped to the visible list. */
  function NavigateIndex(i: int, len: nat, dir: Direction): int {
    match dir
    case Next => Min(i + 1, len - 1)
    case Prev => Max(i - 1, 0)
  }

  /**
   * From an index in range, navigation stays in range; it moves exactly one
   * step when the lightbox shows the button for that side, and stays put otherwise.
   */
  lemma NavigateInRange(i: int, len: nat, dir: Direction)
    requires 0 <= i < len
    ensures 0 <= NavigateIndex(i, len, dir) < len
    ensures dir == Next ==> NavigateIndex(i, len, dir) == if HasNextAt(i, len) then i + 1 else i
    ensures dir == Prev ==> NavigateIndex(i, len, dir) == if HasPrevAt(i) then i - 1 else i
  {
  }

  /** A category for which filteredPhotos is the `photos` array itself. */
  predicate ShowsAll(category: string) {
    category == "" || category == "all"
  }

  /**
   * Whether moving from one category to another gives filteredPhotos a new
   * array (and so re-runs the first-page effect): any change except one
   * between "" and "all".
   */
  predicate ListChanges(from: string, to: string) {
    from != to && !(ShowsAll(from) && ShowsAll(to))
  }

  /** Between "" and "all" the filtered list is the same. */
  lemma SameListWithoutChange(photos: seq<Photo>, from: string, to: string)
    requires !ListChanges(from, to)
    ensures FilteredPhotos(photos, from) == FilteredPhotos(photos, to)
  {
  }

  /** The lightbox's hasNext for an index into a list of len photos. */
  predicate HasNextAt(i: int, len: nat) {
    i < len - 1
  }

  /** The lightbox's hasPrev. */
  predicate HasPrevAt(i: int) {
    i > 0
  }

  /** The grid's state. */
  class Grid {
    const photos: seq<Photo>
    var category: string
    var visible: seq<Photo>
    var hasMore: bool
    var loadingMore: bool
    var selectedPhoto: Option<Photo>
    var selectedIndex: int

    /** The memoised filtered list for the current category. */
    function Filtered(): seq<Photo>
      reads this
    {
      FilteredPhotos(photos, category)
    }

    /**
     * The paging invariant: what is shown is a prefix of the filtered list,
     * and more is available exactly when the prefix is shorter than it.
     */
    predicate Valid()
      reads this
    {
      && visible <= Filtered()
      && (hasMore <==> |visible| < |Filtered()|)
      && !loadingMore
    }

    /** The open lightbox shows the visible photo at the selected index. */
    predicate SelectionInView()
      reads this
    {
      selectedPhoto.Some? ==> 0 <= selectedIndex < |visible| && selectedPhoto.value == visible[selectedIndex]
    }

    /**
     * The grid once mounted: the category from `selectedCategory || initialCategory`,
     * then replaced by the selectedCategory prop when one is given (the
     * effect), no selection, and the first page loaded.
     */
    constructor(photos: seq<Photo>, initialCategory: string, selectedCategory: Option<string>)
      ensures this.photos == photos
      ensures category == if selectedCategory.Some? then selectedCategory.value else initialCategory
      ensures visible == Filtered()[..Min(PhotosPerLoad, |Filtered()|)]
      ensures hasMore <==> |Filtered()| > PhotosPerLoad
      ensures selectedPhoto == None && selectedIndex == -1
      ensures Valid() && SelectionInView()
    {
      this.photos := photos;
      category := if selectedCategory.Some? && selectedCategory.value != "" then selectedCategory.value
                  else initialCategory;
      visible := [];
      hasMore := true;
      loadingMore := false;
      selectedPhoto := None;
      selectedIndex := -1;
      new;
      LoadInitialPhotos();
      SyncSelectedCategory(selectedCategory);
    }

    /** loadInitialPhotos: the first page of the filtered list, and whether there is more. */
    method LoadInitialPhotos()
      modifies this
      ensures visible == Filtered()[..Min(PhotosPerLoad, |Filtered()|)]
      ensures hasMore <==> |Filtered()| > PhotosPerLoad
      ensures category == old(category) && loadingMore == old(loadingMore)
      ensures selectedPhoto == old(selectedPhoto) && selectedIndex == old(selectedIndex)
      ensures !loadingMore ==> Valid()
    {
      var filtered := Filtered();
      visible := Slice(filtered, 0, PhotosPerLoad);
      hasMore := |filtered| > PhotosPerLoad;
    }

    /**
     * loadMorePhotos, with its delayed part run at once: nothing while a load
     * is under way or when everything is shown; otherwise the next page of at
     * most 20 photos is appended.
     */
    method LoadMorePhotos()
      requires Valid()
      modifies this
      ensures Valid()
      ensures old(SelectionInView()) ==> SelectionInView()
      ensures old(loadingMore || !hasMore) ==> visible == old(visible) && hasMore == old(hasMore)
      ensures !old(loadingMore || !hasMore) ==>
        visible == Filtered()[..Min(|old(visible)| + PhotosPerLoad, |Filtered()|)] && |visible| > |old(visible)|
      ensures category == old(category) && loadingMore == old(loadingMore)
      ensures selectedPhoto == old(selectedPhoto) && selectedIndex == old(selectedIndex)
    {
      if loadingMore || !hasMore {
        return;
      }
      loadingMore := true;
      var filtered := Filtered();
      var currentLength := |visible|;
      var nextPhotos := Slice(filtered, currentLength, currentLength + PhotosPerLoad);
      SlicePrefix(filtered, currentLength, PhotosPerLoad);
      assert visible == filtered[..currentLength];
      visible := visible + nextPhotos;
      hasMore := currentLength + PhotosPerLoad < |filtered|;
      loadingMore := false;
    }

    /**
     * The selectedCategory prop changed: the category follows it. The first
     * page is reloaded only when the memoised filtered list is a new one;
     * between "" and "all" the memo hands back the same `photos` array, the
     * loadInitialPhotos callback keeps its identity and its effect does not
     * run again, so the pages loaded so far stay.
     */
    method SyncSelectedCategory(selectedCategory: Option<string>)
      requires Valid()
      modifies this
      ensures category == if selectedCategory.Some? then selectedCategory.value else old(category)
      ensures !ListChanges(old(category), category) ==> visible == old(visible) && hasMore == old(hasMore)
      ensures ListChanges(old(category), category) ==>
        visible == Filtered()[..Min(PhotosPerLoad, |Filtered()|)] && (hasMore <==> |Filtered()| > PhotosPerLoad)
      ensures Valid()
      ensures selectedPhoto == old(selectedPhoto) && selectedIndex == old(selectedIndex)
    {
      if selectedCategory.Some? && selectedCategory.value != category {
        var reload := ListChanges(category, selectedCategory.value);
        category := selectedCategory.value;
        if reload {
          LoadInitialPhotos();
        }
      }
    }

    /** handlePhotoClick: a card of the grid opens the lightbox on its photo. */
    method HandlePhotoClick(photo: Photo, index: int)
      requires 0 <= index < |visible| && visible[index] == photo
      modifies this
      ensures selectedPhoto == Some(photo) && selectedIndex == index
      ensures SelectionInView()
      ensures visible == old(visible) && hasMore == old(hasMore) && category == old(category)
      ensures loadingMore == old(loadingMore)
    {
      selectedPhoto := Some(photo);
      selectedIndex := index;
    }

    /**
     * handleNavigate: nothing without a selection (index -1); otherwise one
     * step, clamped, and the photo at the new index (none when the visible
     * list has no such index).
     */
    method HandleNavigate(dir: Direction)
      modifies this
      ensures old(selectedIndex) == -1 ==> selectedIndex == -1 && selectedPhoto == old(selectedPhoto)
      ensures old(selectedIndex) != -1 ==>
        && selectedIndex == NavigateIndex(old(selectedIndex), |visible|, dir)
        && selectedPhoto == if 0 <= selectedIndex < |visible| then Some(visible[selectedIndex]) else None
      ensures old(SelectionInView()) ==> SelectionInView()
      ensures visible == old(visible) && hasMore == old(hasMore) && category == old(category)
      ensures loadingMore == old(loadingMore)
    {
      if selectedIndex == -1 {
        return;
      }
      var newIndex := NavigateIndex(selectedIndex, |visible|, dir);
      selectedIndex := newIndex;
      selectedPhoto := if 0 <= newIndex < |visible| then Some(visible[newIndex]) else None;
    }

    /** The lightbox's onClose: no selection. */
    method Close()
      modifies this
      ensures selectedPhoto == None && selectedIndex == -1
      ensures visible == old(visible) && hasMore == old(hasMore) && category == old(category)
      ensures loadingMore == old(loadingMore)
    {
      selectedPhoto := None;
      selectedIndex := -1;
    }

    /** The hasNext the lightbox is given. */
    function HasNext(): bool
      reads this
    {
      HasNextAt(selectedIndex, |visible|)
    }

    /** The hasPrev the lightbox is given. */
    function HasPrev(): bool
      reads this
    {
      HasPrevAt(selectedIndex)
    }
  }
}
