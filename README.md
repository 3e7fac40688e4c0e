# Wedding gallery catalog, modelled in Dafny

This project models the photo catalog of a wedding photo gallery built with Next.js. It covers three parts:

- **The builders.** Two scripts turn a directory listing into catalog records. Each keeps the `.jpg`/`.JPG` names and sorts them stably by the first run of digits in the name. Each then derives the record's `id` and `src`. One script also classifies the photo into one of five parts of the day by its number.
- **The readers.** `lib/photos.ts` reads the directory itself and de-duplicates ids. `lib/photos-with-metadata.ts` and `lib/photos-optimized.ts` query a catalog that is already loaded: look up by id, filter by category, group into a category menu, count.
- **The gallery state.** `WeddingGallery` holds the per-category counts. `PhotoGrid` handles the category filter, loading 20 photos at a time, and the selection in the lightbox. `Lightbox` handles keyboard dispatch, zoom and its buttons.

Calls into code outside the model become function parameters that return `Option`, where `None` means the call throws:

- `fs.statSync`, which gives the file size;
- the image library's `metadata()` and blur placeholder.

The directory listing is a plain `seq<string>` parameter, and the catalog JSON import a `seq<Photo>` parameter. Each module follows one source file:

| module | file |
|---|---|
| `PhotoTypes` | lib/photo-types.ts, lib/constants.ts |
| `Seqs` | filter, find, stable sort, subsequences (shared) |
| `FileNames` | the name filter, the number key, id stripping, the sorted listing |
| `Categorize` | `categorizePhoto` of scripts/generate-photo-data.ts |
| `GeneratePhotoData` | scripts/generate-photo-data.ts |
| `AnalyzePhotos` | scripts/analyze-and-categorize-photos.ts |
| `PhotosFs` | lib/photos.ts |
| `RangeBuckets` | the four-bucket menu of lib/photos.ts and lib/photos-optimized.ts |
| `CatalogGrouping` | category filter, counts, first-appearance order (shared) |
| `Slugs` | menu ids from names, and names back from menu ids |
| `PhotosWithMetadata` | lib/photos-with-metadata.ts |
| `PhotosOptimized` | lib/photos-optimized.ts |
| `WeddingGallery` | components/WeddingGallery.tsx |
| `PhotoGrid` | components/PhotoGrid.tsx |
| `Lightbox` | components/Lightbox.tsx |

Loops in the source are methods with loop invariants, each proved equal to a specification function. The properties are proved about those functions:

- the builder loops;
- the `forEach`/`Set` loop of lib/photos.ts;
- the `reduce` accumulators.

Components that update state are classes whose methods state the new state.

Two points about what the code does:

- **Id de-duplication.** Only lib/photos.ts de-duplicates ids, under its `// Ensure unique ID` comment (lib/photos.ts:72): a second file with the base `img` at position 1 gets `img_1` (`PhotosFs.BothCasesGetDistinctIds`). Even there the ids are not always unique (see Findings). The two scripts do no de-duplication (`AnalyzePhotos.SameIdForBothCases`).
- **`categorizePhoto` in the second script.** scripts/analyze-and-categorize-photos.ts calls a `categorizePhoto` it never defines, so here the classifier is a parameter.

## Model

| member | source | states |
|---|---|---|
| Categorize.CategorizePhoto | scripts/generate-photo-data.ts:24-70 | The table is total. Ceremony exactly for n ≤ 150, Portraits for 151-300, Reception for 301-450, Party for 451-700, Details above 700; always one of these five. |
| Categorize.CategoryMonotone | scripts/generate-photo-data.ts:32-69 | n ≤ m implies rank(category n) ≤ rank(category m), in the order Ceremony < Portraits < Reception < Party < Details, whatever the file names. |
| Categorize.CategoryFixesText | scripts/generate-photo-data.ts:33-68 | Two calls that pick the same category return the same description and tags; the file name plays no part. |
| Categorize.CategoryIsEnumerated | scripts/generate-photo-data.ts:24-70 | Every category the table picks is one of the seven names of PhotoCategoryType. |
| Categorize.Rank | scripts/generate-photo-data.ts:32-69 | The rank of each of the five categories is its position in the order of the ranges. |
| FileNames.FirstDigitAt | scripts/generate-photo-data.ts:89-90 | None exactly when the name has no ASCII digit; otherwise the position of a digit with none before it. |
| FileNames.DigitPrefix | scripts/generate-photo-data.ts:89-90 | A digit-only prefix of its argument that stops at the first non-digit: the extent of `\d+`. |
| FileNames.NumberKey | scripts/generate-photo-data.ts:89-90 | A name without digits keys as 0 (the `\|\| "0"` fallback). |
| FileNames.SuffixSetsNumber | lib/photos.ts:73-75 | A digit-free base keys as 0, but the base with `_<n>` appended keys as n: a de-dup suffix changes the number later read from the id. |
| FileNames.NatToString | lib/photos.ts:74 | The decimal spelling of an index is a non-empty digit string. |
| FileNames.ParseNatToString | lib/photos.ts:74 | Reading back the decimal spelling of n gives n. |
| FileNames.NatToStringInjective | lib/photos.ts:74 | Different indexes have different spellings. |
| FileNames.StripJpeg | scripts/generate-photo-data.ts:105 | For a `.jpg`/`.JPG` name, the id is 4 characters shorter, and the id followed by the extension is the file name; any other name is left as it is. |
| FileNames.StripKeepsKey | lib/photos.ts:70-106 | An id keys as the same number as its file name. |
| FileNames.SortByNumber | scripts/generate-photo-data.ts:88-92 | The sorted listing is a permutation of its input and is non-decreasing in the number key. |
| FileNames.ListPhotoFiles | scripts/generate-photo-data.ts:85-92 | The filtered, sorted listing is sorted by key and is a permutation of the `.jpg`/`.JPG` names. |
| FileNames.ListPhotoFilesSpec | scripts/generate-photo-data.ts:85-92 | Every kept name ends in `.jpg` or `.JPG`, and every such name of the directory is kept. Names with equal keys keep their directory order (the sort is stable). |
| Seqs.Filter | scripts/generate-photo-data.ts:87 | The filter keeps exactly the elements that pass, in order, as a subsequence no longer than its input. |
| Seqs.FilterIdempotent | lib/photos-with-metadata.ts:21-28 | Filtering the result of a filter again changes nothing. |
| Seqs.SortBy | scripts/generate-photo-data.ts:88-92 | Insertion sort by a key yields a sorted permutation. |
| Seqs.SortIsStable | scripts/generate-photo-data.ts:88-92 | For every key, the elements with that key come out in the order they went in. |
| Seqs.StableSortIsUnique | scripts/generate-photo-data.ts:88-92 | Any sorted sequence that keeps, for every key, the input's elements in order equals SortBy. So the stable `Array.prototype.sort` computes exactly SortBy. |
| Seqs.FirstIndex | lib/photos.ts:50 | The first position whose element passes, or the length when none does (`find`). |
| GeneratePhotoData.ProcessFile | scripts/generate-photo-data.ts:101-126 | A record exactly when stat, metadata and blur all return. Its name, `src` = "/wedding_photos/" + name, id + extension = name, size, blur, the classified category, description and tags, and the venue. |
| GeneratePhotoData.DimensionFallback | scripts/generate-photo-data.ts:116-118 | A missing or zero width or height falls back to 6000 or 4000, others are kept. The aspect ratio is computed from the stored values. |
| GeneratePhotoData.GeneratedIsSkipOnly | scripts/generate-photo-data.ts:98-131 | The output names are the filter of the sorted files by "processing succeeds", in order. Each record is what processing its own file gives. The output is a subsequence of the listing, no longer than it. |
| GeneratePhotoData.GeneratedAllSucceed | scripts/generate-photo-data.ts:98-131 | When no file throws, there is one record per file, in file order. |
| GeneratePhotoData.GeneratePhotoMetadata | scripts/generate-photo-data.ts:81-132 | The loop with its try/catch skip yields exactly the skip-only specification over the sorted JPEG listing. |
| AnalyzePhotos.AnalyzedSpec | scripts/analyze-and-categorize-photos.ts:40-65 | The run returns exactly when every statSync does. Then there is one record per file in order, with the file's name, stripped id, `src`, 6000×4000, ratio 1.5, size, venue and the classifier's category. |
| AnalyzePhotos.AnalyzedFailsFromPrefix | scripts/analyze-and-categorize-photos.ts:40-42 | A statSync that throws ends the whole run. |
| AnalyzePhotos.GeneratePhotoMetadata | scripts/analyze-and-categorize-photos.ts:23-65 | The `forEach` over the sorted JPEG listing yields exactly that specification. |
| AnalyzePhotos.SameIdForBothCases | scripts/analyze-and-categorize-photos.ts:44 | This builder gives both "img.jpg" and "img.JPG" the id "img": no de-duplication. |
| PhotosFs.ReadPhotosReturns | lib/photos.ts:67-69 | The read returns exactly when every statSync does. |
| PhotosFs.ReadPhotosRecords | lib/photos.ts:67-87 | One record per sorted file, in order: its name, `src`, 6000×4000, ratio 1.5 and size. The records carry no category. |
| PhotosFs.ReadPhotosIds | lib/photos.ts:70-76 | The ids are the de-dup rule applied to the stripped bases: the base if not yet held, else base + "_" + its list position. |
| PhotosFs.GetAllPhotosSync | lib/photos.ts:53-90 | The loop computes exactly the read specification. Its invariant keeps the `uniqueIds` set equal to the set of ids emitted so far. |
| PhotosFs.GetAllPhotos | lib/photos.ts:9-46 | The async version computes the same result as getAllPhotosSync. |
| PhotosFs.FindFilePhoto | lib/photos.ts:50 | None exactly when no record has the id; otherwise the first record with it. |
| PhotosFs.GetPhotoById | lib/photos.ts:48-51 | A fresh read, then the first record with the id; it throws exactly when the read does. |
| PhotosFs.GetPhotoCategories | lib/photos.ts:92-137 | The range menu over the ids of a fresh read; it throws exactly when the read does. |
| PhotosFs.AssignIdsShape | lib/photos.ts:73-76 | Each id is its base or its base with its own position appended. |
| PhotosFs.SuffixIsFresh | lib/photos.ts:73-75 | When no base extends another with "_", the suffixed candidate is never already held. |
| PhotosFs.AsWrittenIdsDistinct | lib/photos.ts:72-76 | Under that condition the ids handed out are pairwise distinct. |
| PhotosFs.SuffixIsFreshWhenBasesFirst | lib/photos.ts:73-75 | When no base equals a later base with that later base's position appended, the suffixed candidate is never already held. |
| PhotosFs.IdsDistinctWhenBasesFirst | lib/photos.ts:72-76 | Under that listing condition the ids handed out are pairwise distinct. It holds whenever every `b.jpg`/`b.JPG` is listed before every `b_<k>.jpg`. |
| PhotosFs.DuplicateIdCounterexample | lib/photos.ts:72-76 | The bases "7a", "7a_2", "7a" get the ids "7a", "7a_2", "7a_2", which are not distinct. |
| PhotosFs.DuplicateIdFromListing | lib/photos.ts:53-90 | A listing given in the order "7a.jpg", "7a_2.jpg", "7a.JPG" keeps that order (all keyed 7), and the read hands out "7a_2" twice. |
| PhotosFs.BothCasesGetDistinctIds | lib/photos.ts:70-76 | "img.jpg", "img.JPG" get "img" and "img_1". |
| PhotosFs.FreshId | lib/photos.ts:73-75 | The corrected rule: the result is never held, and an id not held is kept. |
| PhotosFs.AssignUniqueIds | lib/photos.ts:72-76 | The corrected assignment: one id per base, pairwise distinct, for every input. |
| PhotosFs.CorrectionAgrees | lib/photos.ts:72-76 | Where no base extends another with "_", the corrected assignment equals the code's. |
| PhotosFs.ReadUniqueReturns | lib/photos.ts:67-69 | The corrected read returns exactly when every statSync does. |
| PhotosFs.ReadUniqueIds | lib/photos.ts:72-76 | The corrected read's ids are AssignUniqueIds of the bases, so they are pairwise distinct. |
| PhotosFs.ReadUniqueAgrees | lib/photos.ts:53-90 | Where no base extends another with "_", the corrected read equals the read as written. |
| PhotosFs.GetAllPhotosSyncCorrected | lib/photos.ts:53-90 | The loop with the corrected rule computes the corrected read. Its inner loop appends `_<index>` until the id is free. |
| PhotosFs.CorrectedCounterexample | lib/photos.ts:72-76 | The corrected assignment gives the counterexample "7a", "7a_2", "7a_2_2". |
| RangeBuckets.BucketOf | lib/photos.ts:102-133 | The reference table: no bucket exactly for numbers up to 15, else one of the four bucket ids. |
| RangeBuckets.RangesAreTable | lib/photos.ts:105-132 | A number lies in row k of the code's four ranges exactly when the reference table names row k. |
| RangeBuckets.RangeGroup | lib/photos.ts:105-108 | A bucket lists exactly the ids whose number lies in its range, as an order-preserving subsequence of "all". |
| RangeBuckets.GroupsBy | lib/photos.ts:96-134 | Five groups: "all" with every id in order, then the four ranges in the order portraits, ceremony, reception, details. |
| RangeBuckets.PhotoCategories | lib/photos.ts:136 | No group of the menu is empty, and the menu is a subsequence of the five groups, in their order. |
| RangeBuckets.PhotoCategoriesSpec | lib/photos.ts:92-137 | "all" heads the menu exactly when there is some id. Every bucketed id is listed under its own group, which is present. Other groups list only ids of their own bucket. An id numbered 15 or lower is listed only under "all". |
| RangeBuckets.RangesDisjoint | lib/photos.ts:105-132 | No id is in two of the four range groups. |
| CatalogGrouping.WithCategory | lib/photos-with-metadata.ts:22-23 | Exactly the entries of the category, as an order-preserving subsequence. |
| CatalogGrouping.CountIsFilterLength | lib/photos-with-metadata.ts:62-69 | The count of a category is the length of its filter. |
| CatalogGrouping.CountPositive | lib/photos-with-metadata.ts:62-69 | The count is positive exactly when some entry has the category. |
| CatalogGrouping.CountPermutation | components/WeddingGallery.tsx:23-26 | A reordering of the entries changes no count. |
| CatalogGrouping.CountByCategory | lib/photos-with-metadata.ts:62-69 | The `acc[cat] = (acc[cat] \|\| 0) + 1` reduce yields one key per category present, holding its count. |
| CatalogGrouping.IdsOf | lib/photos-with-metadata.ts:45 | The ids of the entries, in order. |
| CatalogGrouping.FindById | lib/photos-with-metadata.ts:12 | None exactly when no entry has the id; otherwise the first entry with it. |
| CatalogGrouping.FirstAppearance | lib/photos-with-metadata.ts:31-39 | Each category present, without repeats, and only categories present. |
| CatalogGrouping.FirstAppearancePrefix | lib/photos-with-metadata.ts:31-50 | The categories of any prefix of the catalog come first, in the same order: first-appearance order. |
| CatalogGrouping.CountsSumToTotal | lib/photos-with-metadata.ts:61-75 | Summed over the categories present, the counts make up the catalog length. |
| Slugs.Slug | lib/photos-with-metadata.ts:52 | The menu id has no white space and no upper-case letter, and is no longer than the name. |
| Slugs.SlugNoSpace | lib/photos-with-metadata.ts:52 | The menu id of a name without white space is the name lower-cased. |
| Slugs.SlugRun | lib/photos-with-metadata.ts:52 | A space-free part, a maximal run of white space and a rest give the part lower-cased, one "-", then the menu id of the rest. With SlugNoSpace this fixes the id of every name. |
| Slugs.DashRuns | lib/photos-with-metadata.ts:52 | `replace(/\s+/g, "-")` leaves no white space, and never lengthens. |
| Slugs.DashRunsNoSpace | lib/photos-with-metadata.ts:52 | A string without white space is left as it is. |
| Slugs.DashRunsRun | lib/photos-with-metadata.ts:52 | A maximal run of white space after a space-free part becomes exactly one "-", and the replacement carries on after it. |
| Slugs.DropSpacesRun | lib/photos-with-metadata.ts:52 | The `+` of `\s+` takes the whole run, up to the first character that is not white space. |
| Slugs.TwoWordSlug | lib/photos-with-metadata.ts:52 | Two capitalised words joined by a space slug to their lower-case forms joined by "-" ("Cocktail Hour" gives "cocktail-hour"). |
| Slugs.TitleCase | components/PhotoGrid.tsx:34-36 | Recovering a name keeps the length. |
| Slugs.CapitalizeWords | components/PhotoGrid.tsx:36 | A character is upper-cased exactly when it is a word character not preceded by one. |
| Slugs.SlugRoundTrip | components/PhotoGrid.tsx:34-36 | For each of the seven category names, TitleCase of its slug is the name. |
| Slugs.SlugIsNotAll | components/PhotoGrid.tsx:33 | No category's slug is "" or "all", so none is mistaken for "show everything". |
| PhotosWithMetadata.GetAllPhotos | lib/photos-with-metadata.ts:4-9 | The catalog comes back unchanged: length, order and every field. |
| PhotosWithMetadata.GetPhotoById | lib/photos-with-metadata.ts:11-19 | The first entry with the id, fields as they are; None exactly when no entry has it. |
| PhotosWithMetadata.GetPhotosByCategory | lib/photos-with-metadata.ts:21-28 | Exactly the entries of the category, in catalog order; as many as its count. |
| PhotosWithMetadata.GetPhotosByCategoryIdempotent | lib/photos-with-metadata.ts:21-28 | Applying it to its own result changes nothing. |
| PhotosWithMetadata.GroupIdsKeys | lib/photos-with-metadata.ts:31-39 | The reduce's keys are exactly the categories present. |
| PhotosWithMetadata.GroupIdsValues | lib/photos-with-metadata.ts:31-39 | Each key holds its category's ids in catalog order. |
| PhotosWithMetadata.CollectIds | lib/photos-with-metadata.ts:31-39 | The reduce loop (create on first sight, then push) yields that map and its keys in first-appearance order. |
| PhotosWithMetadata.GetPhotoCategories | lib/photos-with-metadata.ts:30-59 | The method yields "all" followed by one entry per key, in insertion order. |
| PhotosWithMetadata.MetadataCategoriesOrder | lib/photos-with-metadata.ts:41-56 | "all" with every id in order comes first. Then one entry per distinct category present, in first-appearance order. |
| PhotosWithMetadata.MetadataCategoriesEntries | lib/photos-with-metadata.ts:50-56 | Each later entry has the category's name, its slug as id, exactly that category's ids in catalog order, and is not empty. |
| PhotosWithMetadata.MetadataCategoriesTotal | lib/photos-with-metadata.ts:31-56 | The entries after "all" together hold as many ids as the catalog has entries. |
| PhotosWithMetadata.GetCategoryStats | lib/photos-with-metadata.ts:61-75 | `total` is the catalog length. The keys are the categories present, each holding its number of entries. |
| PhotosWithMetadata.StatsMatchCategories | lib/photos-with-metadata.ts:31-69 | Each count equals the length of the matching menu entry. |
| PhotosOptimized.WithSrc | lib/photos-optimized.ts:7-10 | `src` becomes "/wedding_photos/" + filename; every other field is kept. |
| PhotosOptimized.GetAllPhotos | lib/photos-optimized.ts:6-11 | The length and order are kept; only `src` is rewritten. |
| PhotosOptimized.GetAllPhotosKeepsIds | lib/photos-optimized.ts:6-11 | The ids, in order, are unchanged. |
| PhotosOptimized.GetPhotoById | lib/photos-optimized.ts:13-21 | The first match with `src` rewritten; None exactly when absent. |
| PhotosOptimized.GetPhotoByIdAgrees | lib/photos-optimized.ts:6-21 | getPhotoById(id) is the first element with that id in getAllPhotos(). |
| PhotosOptimized.GetPhotoCategories | lib/photos-optimized.ts:23-66 | The same four-bucket menu over the catalog's ids; no listed group is empty. |
| WeddingGallery.ComputeCategoryCounts | components/WeddingGallery.tsx:22-38 | The reduce followed by `counts[name] \|\| 0` gives `all` = length and each named count = CountCategory. |
| WeddingGallery.CountIsNumberWithCategory | components/WeddingGallery.tsx:30-36 | Each named count is the number of photos with that category. It is 0 exactly when no photo has it. |
| WeddingGallery.NamedCountsSumToAll | components/WeddingGallery.tsx:23-37 | When every category is one of the seven names, the seven counts sum to `all`. |
| WeddingGallery.CountsIgnoreOrder | components/WeddingGallery.tsx:23-26 | Any permutation of the photos gives the same counts. |
| WeddingGallery.Gallery.constructor | components/WeddingGallery.tsx:18-38 | The gallery starts with "all" selected and the counts of its photos. |
| WeddingGallery.Gallery.HandleCategoryChange | components/WeddingGallery.tsx:40-41 | The new category is selected. |
| PhotoGrid.FilteredPhotos | components/PhotoGrid.tsx:32-38 | "" or "all" gives every photo. Anything else gives exactly the photos whose category is the title-cased slug, as an order-preserving subsequence. |
| PhotoGrid.FilterBySlug | components/PhotoGrid.tsx:32-38 | Selecting a category by its slug shows exactly that category's photos. |
| PhotoGrid.Slice | components/PhotoGrid.tsx:41-56 | `slice` with clamped bounds: its length and its elements. |
| PhotoGrid.SlicePrefix | components/PhotoGrid.tsx:52-58 | A prefix followed by the next slice is the longer prefix. |
| PhotoGrid.NavigateInRange | components/PhotoGrid.tsx:98-156 | An in-range index stays in range. It moves one step exactly when hasNext/hasPrev is shown, and stays put otherwise. |
| PhotoGrid.Grid.constructor | components/PhotoGrid.tsx:24-73 | After mounting: the selectedCategory prop when given, else initialCategory; no selection; the first page loaded; the paging invariant holds. |
| PhotoGrid.Grid.LoadInitialPhotos | components/PhotoGrid.tsx:40-44 | The first min(20, n) filtered photos are visible, and hasMore holds exactly when n > 20. |
| PhotoGrid.Grid.LoadMorePhotos | components/PhotoGrid.tsx:46-62 | Nothing while loading or when nothing is left. Otherwise the visible list grows to the next prefix of min(|visible| + 20, n). The paging invariant and the selection are kept. |
| PhotoGrid.Grid.SyncSelectedCategory | components/PhotoGrid.tsx:32-73 | The category follows the prop. The first page is reloaded exactly when the memoised filtered list is a new array: any change except one between "" and "all", which keeps the pages already loaded. |
| PhotoGrid.SameListWithoutChange | components/PhotoGrid.tsx:32-38 | Between "" and "all" the filtered list is the same, so the kept pages are still a prefix of it. |
| PhotoGrid.Grid.HandlePhotoClick | components/PhotoGrid.tsx:89-92 | The clicked card's photo and index are selected and equal `visible[index]`. |
| PhotoGrid.Grid.HandleNavigate | components/PhotoGrid.tsx:98-108 | Nothing at index -1. Otherwise the index moves to min(i+1, len-1) or max(i-1, 0), and the photo is `visible[newIndex]` (none outside the list). An in-view selection stays in view. |
| PhotoGrid.Grid.Close | components/PhotoGrid.tsx:149-152 | No photo is selected, and the index is -1. |
| Lightbox.KeyCommand | components/Lightbox.tsx:33-48 | Escape closes. ArrowLeft navigates back exactly when hasPrev, ArrowRight forward exactly when hasNext. Nothing else invokes a callback. |
| Lightbox.AfterKey | components/Lightbox.tsx:44-47 | Only space changes the flags, and it flips the zoom. |
| Lightbox.SpaceTwiceRestores | components/Lightbox.tsx:44-47 | Two presses of space restore the zoom. |
| Lightbox.KeyNavigationKeepsState | components/Lightbox.tsx:38-179 | Keyboard navigation keeps both flags, so from a zoomed or loaded state it ends in a different state from the prev/next button for the same step. |
| Lightbox.AfterNavigateButton | components/Lightbox.tsx:176-179 | Both flags are reset. |
| Lightbox.AfterToggle | components/Lightbox.tsx:102-152 | The zoom is flipped and loading is untouched. |
| Lightbox.Viewer.constructor | components/Lightbox.tsx:28-29 | Both flags start false. |
| Lightbox.Viewer.HandleKeyDown | components/Lightbox.tsx:33-48 | It invokes the key's command. The default action is prevented for space only. The new flags are AfterKey's. |
| Lightbox.Viewer.ZoomButton | components/Lightbox.tsx:102-105 | Flips the zoom. |
| Lightbox.Viewer.ImageClick | components/Lightbox.tsx:152 | Flips the zoom. |
| Lightbox.Viewer.ImageLoad | components/Lightbox.tsx:168 | Marks the image loaded and keeps the zoom. |
| Lightbox.Viewer.CloseClick | components/Lightbox.tsx:79-87 | Invokes onClose. |
| Lightbox.Viewer.PrevButton | components/Lightbox.tsx:173-186 | Navigates back and resets both flags. |
| Lightbox.Viewer.NextButton | components/Lightbox.tsx:188-201 | Navigates forward and resets both flags. |
| Lightbox.SpaceTwice | components/Lightbox.tsx:44-47 | Two space presses on a mounted viewer leave its state as it was. |

## Left out

- **I/O.** `fs.readdirSync`, `fs.statSync`, `fs.writeFileSync`, `path.join` and the JSON import are left out. The listing, the per-file stat results and the catalog array are parameters instead. A `readdirSync` that throws (a missing directory, which makes the readers and the scripts throw) is not modelled: the listing is always given.
- **The image library.** `sharp`'s `metadata()` and the blur placeholder are parameters that may fail. Their image processing and base64 encoding are not modelled.
- **Logging.** All `console.log`/`console.error` output is left out.
- **Floating point.** `aspectRatio` is an exact `real` quotient, so rounding is not modelled. `formatFileSize`, `getImageDimensions` and the other helpers of lib/utils.ts are not part of this model.
- **`parseInt` precision.** The digit run is read as an unbounded `nat`. Precision loss beyond 2^53 is not modelled.
- **Dictionary iteration order.** `Object.entries` over the reduce's dictionary is modelled in insertion order. JavaScript puts integer-like keys such as "7" first, and a category named like an `Object.prototype` member ("constructor") would read a prototype value. Neither quirk is modelled: the categories are names such as "Ceremony".
- **Character handling.** `toLowerCase`/`toUpperCase` are modelled on ASCII letters only. Unicode case mapping is not modelled.
- **Timers and the scroll listener in PhotoGrid.** The 500 ms `setTimeout` and the scroll listener are left out. `PhotoGrid.Grid.LoadMorePhotos` runs the delayed part at once, so `loadingMore` is never observed set. React's batching and re-rendering are not modelled: the constructor stands for the state after the mount effects have run.
- WeddingGallery.Gallery.HandleCategoryChange: sets the selection only; its `scrollIntoView` of the gallery section is a browser call and is left out.
- **Browser calls.** The Lightbox's `navigator.share`/clipboard, the download handlers and the window key listener registration are left out, as are `useScrollLock` and `useIntersectionObserver`.
- **Rendering-only code.** Hero, PhotoCard, Navigation, CategoryButton, app/page.tsx and the JSX of the modelled components only render, and are left out.
- **Declarations.** lib/photo-metadata-schema.ts is not part of this model: a type declaration only.
- **The casts.** The `as PhotoCategoryType` casts in lib/photos-with-metadata.ts change no value; the model keeps `category` as the catalog's string.
- PhotosFs.AsWrittenIdsDistinct: proves distinct ids only under the condition that no base extends another with "_". Without it the code's ids can repeat (see Findings).
- PhotosFs.IdsDistinctWhenBasesFirst: proves distinct ids only when no base is listed before the later base it extends with `_<position>`. Without it the code's ids can repeat (see Findings).
- **Listing order.** The order in which `fs.readdirSync` returns names is a parameter and is not constrained. The sort at lib/photos.ts:55-62 compares only the number key, so names with equal keys keep the listing's order. A listing sorted by code units puts "b.JPG" and "b.jpg" before "b_<k>.jpg" ('.' comes before '_'), and then the ids are distinct (`PhotosFs.IdsDistinctWhenBasesFirst`).

## Findings

| source | as written | input that shows it | evidently intended | confidence | as-written member | corrected member |
|---|---|---|---|---|---|---|
| lib/photos.ts:72-76 (and the copy at 28-32) | A held id gets `_<index>` appended once, with no check that the new id is free. | A directory listing in the order "7a.jpg", "7a_2.jpg", "7a.JPG". All three have the number 7 and keep that order under the stable sort, and they get the ids "7a", "7a_2", "7a_2". The clash needs a listing that puts "b_<k>.jpg" before the second file with base b. A listing sorted by code units never does, and then the ids are distinct (`PhotosFs.IdsDistinctWhenBasesFirst`). | Every record gets an id no earlier record holds (the "Ensure unique ID" comment). | not executed | PhotosFs.DuplicateIdFromListing | PhotosFs.GetAllPhotosSyncCorrected |

- `PhotosFs.DuplicateIdCounterexample` states the same at the level of ids.
- `PhotosFs.FreshId` keeps appending until the id is free.
- `PhotosFs.AssignUniqueIds` gives pairwise distinct ids for every input, and `PhotosFs.ReadUniqueIds` carries that over to the corrected read.
- `PhotosFs.CorrectionAgrees` and `PhotosFs.ReadUniqueAgrees` prove that the correction leaves every input the code already handled unchanged.
