/**
 * lib/photos-with-metadata.ts: queries over the generated catalog. The catalog
 * array is a parameter; the cast of `category` to the category type changes
 * no value.
 */
module PhotosWithMetadata {
  import opened PhotoTypes
  import opened Seqs
  import opened CatalogGrouping
  import opened Slugs

  /** getAllPhotos: every entry, in catalog order, with every field as it is. */
  function GetAllPhotos(catalog: seq<Photo>): (r: seq<Photo>)
    ensures r == catalog
  {
    seq(|catalog|, i requires 0 <= i < |catalog| => catalog[i].(category := catalog[i].category))
  }

  /** getPhotoById: the first entry with that id, fields as they are; None when no entry has it. */
  function GetPhotoById(catalog: seq<Photo>, id: string): (r: Option<Photo>)
    ensures r.None? <==> id !in IdsOf(catalog)
    ensures r.Some? ==> r.value.id == id
    ensures r.Some? ==> exists i :: 0 <= i < |catalog| && catalog[i] == r.value &&
                                    (forall j :: 0 <= j < i ==> catalog[j].id != id)
  {
    match FindById(catalog, id)
    case None => None
    case Some(photo) => Some(photo.(category := photo.category))
  }

  /** getPhotosByCategory: exactly the entries of category c, in catalog order. */
  function GetPhotosByCategory(catalog: seq<Photo>, c: Category): (r: seq<Photo>)
    ensures forall i :: 0 <= i < |r| ==> r[i].category == c.Name() && r[i] in catalog
    ensures forall i :: 0 <= i < |catalog| && catalog[i].category == c.Name() ==> catalog[i] in r
    ensures IsSubsequence(r, catalog)
    ensures |r| == CountCategory(catalog, c.Name())
  {
    CountIsFilterLength(catalog, c.Name());
    WithCategory(catalog, c.Name())
  }

  /** Asking again for the same category on the result changes nothing. */
  lemma GetPhotosByCategoryIdempotent(catalog: seq<Photo>, c: Category)
    ensures GetPhotosByCategory(GetPhotosByCategory(catalog, c), c) == GetPhotosByCategory(catalog, c)
  {
    WithCategoryIdempotent(catalog, c.Name());
  }

  /** The menu entry of one category name: its slug, the name, and its ids in catalog order. */
  function Entry(catalog: seq<Photo>, name: string): PhotoCategory {
    PhotoCategory(Slug(name), name, IdsOf(WithCategory(catalog, name)))
  }

  function Entries(catalog: seq<Photo>, names: seq<string>): (r: seq<PhotoCategory>)
    ensures |r| == |names|
    ensures forall k :: 0 <= k < |names| ==> r[k] == Entry(catalog, names[k])
  {
    seq(|names|, k requires 0 <= k < |names| => Entry(catalog, names[k]))
  }

  /** What getPhotoCategories returns: "all", then one entry per category in order of first appearance. */
  function MetadataCategories(catalog: seq<Photo>): seq<PhotoCategory> {
    [PhotoCategory("all", "All Photos", IdsOf(catalog))] + Entries(catalog, FirstAppearance(catalog))
  }

  /** The reduce step: the entry's id pushed onto its category's list, created empty if missing. */
  function AddId(acc: map<string, seq<string>>, cat: string, id: string): map<string, seq<string>> {
    acc[cat := (if cat in acc then acc[cat] else []) + [id]]
  }

  /** The reduce of getPhotoCategories over the entries. */
  function GroupIds(photos: seq<Photo>): map<string, seq<string>> {
    if photos == [] then map[]
    else
      var last := photos[|photos| - 1];
      AddId(GroupIds(photos[..|photos| - 1]), last.category, last.id)
  }

  /** Its keys are the categories present. */
  lemma {:induction false} GroupIdsKeys(photos: seq<Photo>)
    ensures forall c :: c in GroupIds(photos) <==> c in FirstAppearance(photos)
    decreases |photos|
  {
    if photos != [] {
      GroupIdsKeys(photos[..|photos| - 1]);
    }
  }

  /** Each key holds that category's ids in catalog order. */
  lemma {:induction false} GroupIdsValues(photos: seq<Photo>, c: string)
    requires c in GroupIds(photos)
    ensures GroupIds(photos)[c] == IdsOf(WithCategory(photos, c))
    decreases |photos|
  {
    var init, last := photos[..|photos| - 1], photos[|photos| - 1];
    var g := GroupIds(init);
    var w := WithCategory(init, c);
    if c in g {
      GroupIdsValues(init, c);
    } else {
      GroupIdsKeys(init);
      AbsentCategoryEmpty(init, c);
    }
    if c == last.category {
      assert IdsOf(w + [last]) == IdsOf(w) + [last.id];
    }
  }

  /** A category that does not appear has no entries. */
  lemma AbsentCategoryEmpty(photos: seq<Photo>, c: string)
    requires c !in FirstAppearance(photos)
    ensures WithCategory(photos, c) == []
  {
  }

  lemma GroupIdsStep(catalog: seq<Photo>, i: nat)
    requires i < |catalog|
    ensures GroupIds(catalog[..i + 1]) == AddId(GroupIds(catalog[..i]), catalog[i].category, catalog[i].id)
    ensures var prev := FirstAppearance(catalog[..i]);
      FirstAppearance(catalog[..i + 1]) == if catalog[i].category in prev then prev else prev + [catalog[i].category]
  {
    var s := catalog[..i + 1];
    assert s[..|s| - 1] == catalog[..i];
  }

  /**
   * The reduce of getPhotoCategories: each category's ids collected under a
   * key created on its first appearance; the keys in insertion order.
   */
  method CollectIds(catalog: seq<Photo>) returns (acc: map<string, seq<string>>, keys: seq<string>)
    ensures acc == GroupIds(catalog)
    ensures keys == FirstAppearance(catalog)
  {
    acc, keys := map[], [];
    for i := 0 to |catalog|
      invariant acc == GroupIds(catalog[..i])
      invariant keys == FirstAppearance(catalog[..i])
    {
      var cat := catalog[i].category;
      CollectStep(catalog, i, acc, keys);
      if cat !in acc {
        acc := acc[cat := []];
        keys := keys + [cat];
      }
      acc := acc[cat := acc[cat] + [catalog[i].id]];
    }
    assert catalog[..|catalog|] == catalog;
  }

  /** One step of the reduce: creating the key when missing, then pushing the id, is AddId. */
  lemma CollectStep(catalog: seq<Photo>, i: nat, acc: map<string, seq<string>>, keys: seq<string>)
    requires i < |catalog|
    requires acc == GroupIds(catalog[..i]) && keys == FirstAppearance(catalog[..i])
    ensures var cat, id := catalog[i].category, catalog[i].id;
      var created := if cat in acc then acc else acc[cat := []];
      && created[cat := created[cat] + [id]] == GroupIds(catalog[..i + 1])
      && (if cat in acc then keys else keys + [cat]) == FirstAppearance(catalog[..i + 1])
  {
    GroupIdsStep(catalog, i);
    GroupIdsKeys(catalog[..i]);
    var cat, id := catalog[i].category, catalog[i].id;
    var created := if cat in acc then acc else acc[cat := []];
    assert created[cat := created[cat] + [id]] == AddId(acc, cat, id);
  }

  /**
   * getPhotoCategories: "all", then one entry per key of the reduce, in
   * insertion order.
   */
  method GetPhotoCategories(catalog: seq<Photo>) returns (categories: seq<PhotoCategory>)
    ensures categories == MetadataCategories(catalog)
  {
    var acc, keys := CollectIds(catalog);
    GroupIdsKeys(catalog);
    categories := [PhotoCategory("all", "All Photos", IdsOf(catalog))];
    for k := 0 to |keys|
      invariant categories == [PhotoCategory("all", "All Photos", IdsOf(catalog))] + Entries(catalog, keys[..k])
    {
      var name := keys[k];
      EntriesStep(catalog, keys, k);
      GroupIdsValues(catalog, name);
      categories := categories + [PhotoCategory(Slug(name), name, acc[name])];
    }
    assert keys[..|keys|] == keys;
  }

  lemma EntriesStep(catalog: seq<Photo>, names: seq<string>, k: nat)
    requires k < |names|
    ensures Entries(catalog, names[..k + 1]) == Entries(catalog, names[..k]) + [Entry(catalog, names[k])]
  {
  }

  /** The lengths of the entries' id lists added up. */
  function TotalIds(entries: seq<PhotoCategory>): nat {
    if entries == [] then 0 else TotalIds(entries[..|entries| - 1]) + |entries[|entries| - 1].photoIds|
  }

  lemma {:induction false} TotalIdsIsSumCounts(catalog: seq<Photo>, names: seq<string>)
    ensures TotalIds(Entries(catalog, names)) == SumCounts(catalog, names)
    decreases |names|
  {
    if names != [] {
      var init := names[..|names| - 1];
      TotalIdsIsSumCounts(catalog, init);
      assert Entries(catalog, names)[..|names| - 1] == Entries(catalog, init);
      CountIsFilterLength(catalog, names[|names| - 1]);
    }
  }

  /**
   * The menu: "all" with every id in catalog order comes first; then one
   * entry per category present, each once, in order of first appearance.
   */
  lemma MetadataCategoriesOrder(catalog: seq<Photo>)
    ensures var cats := MetadataCategories(catalog);
      var names := FirstAppearance(catalog);
      && cats[0] == PhotoCategory("all", "All Photos", IdsOf(catalog))
      && |cats| == |names| + 1
      && Distinct(names)
      && (forall i :: 0 <= i < |catalog| ==> catalog[i].category in names)
      && (forall n :: 0 <= n <= |catalog| ==> FirstAppearance(catalog[..n]) <= names)
  {
    forall n | 0 <= n <= |catalog| ensures FirstAppearance(catalog[..n]) <= FirstAppearance(catalog) {
      FirstAppearancePrefix(catalog, n);
    }
  }

  /**
   * Each entry after "all" is named after its category, its id is the slug of
   * the name, its ids are that category's ids in catalog order, and it is not empty.
   */
  lemma MetadataCategoriesEntries(catalog: seq<Photo>, k: nat)
    requires 1 <= k < |MetadataCategories(catalog)|
    ensures var cats := MetadataCategories(catalog);
      var names := FirstAppearance(catalog);
      && cats[k].name == names[k - 1]
      && cats[k].id == Slug(names[k - 1])
      && cats[k].photoIds == IdsOf(WithCategory(catalog, names[k - 1]))
      && |cats[k].photoIds| > 0
  {
    var names := FirstAppearance(catalog);
    EntryAfterAll(catalog, PhotoCategory("all", "All Photos", IdsOf(catalog)), names, k);
    PresentCategoryNonEmpty(catalog, names[k - 1]);
  }

  /** Past the head, the menu is the list of entries. */
  lemma EntryAfterAll(catalog: seq<Photo>, head: PhotoCategory, names: seq<string>, k: nat)
    requires 1 <= k <= |names|
    ensures ([head] + Entries(catalog, names))[k] == Entry(catalog, names[k - 1])
  {
  }

  /** A category that appears has entries. */
  lemma PresentCategoryNonEmpty(catalog: seq<Photo>, name: string)
    requires name in FirstAppearance(catalog)
    ensures |WithCategory(catalog, name)| > 0
  {
    var k :| 0 <= k < |FirstAppearance(catalog)| && FirstAppearance(catalog)[k] == name;
    var i :| 0 <= i < |catalog| && CategoriesOf(catalog)[i] == name;
    assert catalog[i] in WithCategory(catalog, name);
  }

  /** The entries after "all" hold as many ids as the catalog has entries. */
  lemma MetadataCategoriesTotal(catalog: seq<Photo>)
    ensures TotalIds(MetadataCategories(catalog)[1..]) == |catalog|
  {
    var names := FirstAppearance(catalog);
    assert MetadataCategories(catalog)[1..] == Entries(catalog, names);
    TotalIdsIsSumCounts(catalog, names);
    CountsSumToTotal(catalog);
  }

  /** What getCategoryStats returns. */
  datatype CategoryStats = CategoryStats(total: nat, categories: map<string, nat>)

  /**
   * getCategoryStats: the catalog length, and per category present its number
   * of entries.
   */
  method GetCategoryStats(catalog: seq<Photo>) returns (stats: CategoryStats)
    ensures stats.total == |catalog|
    ensures forall c :: c in stats.categories <==> c in FirstAppearance(catalog)
    ensures forall c | c in stats.categories :: stats.categories[c] == CountCategory(catalog, c)
  {
    var counts := CountByCategory(catalog);
    forall c ensures c in counts <==> c in FirstAppearance(catalog) {
      CountPositive(catalog, c);
      if c in FirstAppearance(catalog) {
        var i :| 0 <= i < |catalog| && CategoriesOf(catalog)[i] == c;
      }
    }
    stats := CategoryStats(|catalog|, counts);
  }

  /** Each count of getCategoryStats is the length of the matching getPhotoCategories entry. */
  lemma StatsMatchCategories(catalog: seq<Photo>, k: nat)
    requires 1 <= k < |MetadataCategories(catalog)|
    ensures |MetadataCategories(catalog)[k].photoIds| ==
            CountCategory(catalog, MetadataCategories(catalog)[k].name)
  {
    CountIsFilterLength(catalog, MetadataCategories(catalog)[k].name);
  }
}
