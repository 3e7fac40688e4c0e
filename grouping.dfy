/**
 * The catalog queries the readers and the gallery share: the entries of one
 * category, the count per category, the categories in order of first
 * appearance, and the first entry with a given id.
 */
module CatalogGrouping {
  import opened PhotoTypes
  import opened Seqs

  /** `photos.filter((p) => p.category === c)`. */
  function WithCategory(photos: seq<Photo>, c: string): (r: seq<Photo>)
    ensures forall i :: 0 <= i < |r| ==> r[i].category == c && r[i] in photos
    ensures forall i :: 0 <= i < |photos| && photos[i].category == c ==> photos[i] in r
    ensures IsSubsequence(r, photos)
  {
    Filter((p: Photo) => p.category == c, photos)
  }

  /** Filtering by a category twice is filtering once. */
  lemma WithCategoryIdempotent(photos: seq<Photo>, c: string)
    ensures WithCategory(WithCategory(photos, c), c) == WithCategory(photos, c)
  {
    FilterIdempotent((p: Photo) => p.category == c, photos);
  }

  /** The number of entries with category c. */
  function CountCategory(photos: seq<Photo>, c: string): nat {
    if photos == [] then 0
    else CountCategory(photos[..|photos| - 1], c) + if photos[|photos| - 1].category == c then 1 else 0
  }

  /** One more entry adds one to the count of its own category and nothing to the others. */
  lemma CountStep(photos: seq<Photo>, i: nat, c: string)
    requires i < |photos|
    ensures CountCategory(photos[..i + 1], c) ==
            CountCategory(photos[..i], c) + if photos[i].category == c then 1 else 0
  {
    assert photos[..i + 1][..i] == photos[..i];
  }

  /** Counting distributes over concatenation. */
  lemma {:induction false} CountAppend(a: seq<Photo>, b: seq<Photo>, c: string)
    ensures CountCategory(a + b, c) == CountCategory(a, c) + CountCategory(b, c)
    decreases |b|
  {
    if b == [] {
      assert a + b == a;
    } else {
      assert (a + b)[..|a + b| - 1] == a + b[..|b| - 1];
      CountAppend(a, b[..|b| - 1], c);
    }
  }

  /** The count is the length of the filter. */
  lemma {:induction false} CountIsFilterLength(photos: seq<Photo>, c: string)
    ensures |WithCategory(photos, c)| == CountCategory(photos, c)
    decreases |photos|
  {
    if photos != [] {
      CountIsFilterLength(photos[..|photos| - 1], c);
    }
  }

  /** A category is counted at all exactly when some entry has it. */
  lemma {:induction false} CountPositive(photos: seq<Photo>, c: string)
    ensures CountCategory(photos, c) > 0 <==> exists i :: 0 <= i < |photos| && photos[i].category == c
    decreases |photos|
  {
    if photos != [] {
      var init := photos[..|photos| - 1];
      CountPositive(init, c);
      if exists i :: 0 <= i < |init| && init[i].category == c {
        var i :| 0 <= i < |init| && init[i].category == c;
        assert photos[i] == init[i];
      }
      if exists i :: 0 <= i < |photos| && photos[i].category == c {
        var i :| 0 <= i < |photos| && photos[i].category == c;
        if i < |init| { assert init[i] == photos[i]; }
      }
    }
  }

  /** The counts depend only on which entries there are, not on their order. */
  lemma {:induction false} CountPermutation(s: seq<Photo>, t: seq<Photo>, c: string)
    requires multiset(s) == multiset(t)
    ensures CountCategory(s, c) == CountCategory(t, c)
    decreases |s|
  {
    if s == [] {
      assert |t| == |multiset(t)| == 0;
    } else {
      var init, x := s[..|s| - 1], s[|s| - 1];
      assert x in multiset(t) by {
        assert s == init + [x];
      }
      var k :| 0 <= k < |t| && t[k] == x;
      var rest := t[..k] + t[k + 1..];
      RemoveMatching(s, t, k);
      CountPermutation(init, rest, c);
      CountRemove(t, k, c);
    }
  }

  /** Taking the last element of s out of both sides keeps two permutations permutations. */
  lemma RemoveMatching(s: seq<Photo>, t: seq<Photo>, k: nat)
    requires multiset(s) == multiset(t) && s != [] && k < |t| && t[k] == s[|s| - 1]
    ensures multiset(t[..k] + t[k + 1..]) == multiset(s[..|s| - 1])
  {
    var init, x := s[..|s| - 1], s[|s| - 1];
    var rest := t[..k] + t[k + 1..];
    assert s == init + [x];
    assert t == t[..k] + [x] + t[k + 1..];
    assert multiset(t) == multiset(t[..k]) + multiset{x} + multiset(t[k + 1..]);
    assert multiset(rest) == multiset(t[..k]) + multiset(t[k + 1..]);
    assert multiset(s) == multiset(init) + multiset{x};
    forall y ensures multiset(rest)[y] == multiset(init)[y] {
      assert multiset(t)[y] == multiset(rest)[y] + multiset{x}[y];
      assert multiset(s)[y] == multiset(init)[y] + multiset{x}[y];
    }
  }

  /** Taking entry k out lowers the count of its category by one and no other. */
  lemma CountRemove(t: seq<Photo>, k: nat, c: string)
    requires k < |t|
    ensures CountCategory(t, c) ==
            CountCategory(t[..k] + t[k + 1..], c) + if t[k].category == c then 1 else 0
  {
    var x := t[k];
    assert t == t[..k] + [x] + t[k + 1..];
    CountAppend(t[..k] + [x], t[k + 1..], c);
    CountAppend(t[..k], [x], c);
    CountAppend(t[..k], t[k + 1..], c);
    assert [x][..0] == [];
  }

  /**
   * The reduce `acc[cat] = (acc[cat] || 0) + 1` over the entries: a key for
   * each category present, holding its count.
   */
  method CountByCategory(photos: seq<Photo>) returns (counts: map<string, nat>)
    ensures forall c :: c in counts <==> CountCategory(photos, c) > 0
    ensures forall c | c in counts :: counts[c] == CountCategory(photos, c)
  {
    counts := map[];
    for i := 0 to |photos|
      invariant forall c :: c in counts <==> CountCategory(photos[..i], c) > 0
      invariant forall c | c in counts :: counts[c] == CountCategory(photos[..i], c)
    {
      var cat := photos[i].category;
      forall c ensures CountCategory(photos[..i + 1], c) ==
                       CountCategory(photos[..i], c) + if photos[i].category == c then 1 else 0 {
        CountStep(photos, i, c);
      }
      counts := counts[cat := (if cat in counts then counts[cat] else 0) + 1];
    }
    assert photos[..|photos|] == photos;
  }

  /** The ids of the entries, in order (`photos.map((p) => p.id)`). */
  function IdsOf(photos: seq<Photo>): (ids: seq<string>)
    ensures |ids| == |photos|
    ensures forall i :: 0 <= i < |photos| ==> ids[i] == photos[i].id
  {
    seq(|photos|, i requires 0 <= i < |photos| => photos[i].id)
  }

  /** `photos.find((p) => p.id === id)`: the first entry with that id. */
  function FindById(photos: seq<Photo>, id: string): (r: Option<Photo>)
    ensures r.None? <==> id !in IdsOf(photos)
    ensures r.Some? ==> r.value.id == id
    ensures r.Some? ==> exists i :: 0 <= i < |photos| && photos[i] == r.value &&
                                    (forall j :: 0 <= j < i ==> photos[j].id != id)
  {
    var i := FirstIndex((p: Photo) => p.id == id, photos);
    if i < |photos| then Some(photos[i]) else None
  }

  /** The categories of the entries, in order. */
  function CategoriesOf(photos: seq<Photo>): (cats: seq<string>)
    ensures |cats| == |photos|
    ensures forall i :: 0 <= i < |photos| ==> cats[i] == photos[i].category
  {
    seq(|photos|, i requires 0 <= i < |photos| => photos[i].category)
  }

  /** Each category present, once, in the order it first appears. */
  function FirstAppearance(photos: seq<Photo>): (names: seq<string>)
    ensures Distinct(names)
    ensures forall i :: 0 <= i < |photos| ==> photos[i].category in names
    ensures forall k :: 0 <= k < |names| ==> names[k] in CategoriesOf(photos)
  {
    if photos == [] then []
    else
      var init := photos[..|photos| - 1];
      var c := photos[|photos| - 1].category;
      var prev := FirstAppearance(init);
      assert forall k :: 0 <= k < |prev| ==> prev[k] in CategoriesOf(photos) by {
        forall k | 0 <= k < |prev| ensures prev[k] in CategoriesOf(photos) {
          var i :| 0 <= i < |init| && CategoriesOf(init)[i] == prev[k];
          assert CategoriesOf(photos)[i] == prev[k];
        }
      }
      assert CategoriesOf(photos)[|photos| - 1] == c;
      assert forall i :: 0 <= i < |init| ==> photos[i] == init[i];
      if c in prev then prev else prev + [c]
  }

  /**
   * First-appearance order: the categories of any prefix of the entries come
   * first, in the same order.
   */
  lemma {:induction false} FirstAppearancePrefix(photos: seq<Photo>, n: nat)
    requires n <= |photos|
    ensures FirstAppearance(photos[..n]) <= FirstAppearance(photos)
    decreases |photos| - n
  {
    if n < |photos| {
      FirstAppearancePrefix(photos, n + 1);
      FirstAppearanceGrows(photos, n);
      assert FirstAppearance(photos[..n]) <= FirstAppearance(photos);
    } else {
      assert photos[..n] == photos;
    }
  }

  /** One more entry only ever adds a name at the end. */
  lemma FirstAppearanceGrows(photos: seq<Photo>, n: nat)
    requires n < |photos|
    ensures FirstAppearance(photos[..n]) <= FirstAppearance(photos[..n + 1])
  {
    var p := photos[..n + 1];
    assert p[..|p| - 1] == photos[..n];
  }

  /** How often c occurs among the names. */
  function Occurrences(names: seq<string>, c: string): nat {
    if names == [] then 0
    else Occurrences(names[..|names| - 1], c) + if names[|names| - 1] == c then 1 else 0
  }

  /** In a list without repeats a name occurs once if it is there and not at all otherwise. */
  lemma {:induction false} OccurrencesDistinct(names: seq<string>, c: string)
    requires Distinct(names)
    ensures Occurrences(names, c) == if c in names then 1 else 0
    decreases |names|
  {
    if names != [] {
      var init := names[..|names| - 1];
      assert Distinct(init);
      OccurrencesDistinct(init, c);
      assert names == init + [names[|names| - 1]];
    }
  }

  /** The counts of the given names added up. */
  function SumCounts(photos: seq<Photo>, names: seq<string>): nat {
    if names == [] then 0
    else SumCounts(photos, names[..|names| - 1]) + CountCategory(photos, names[|names| - 1])
  }

  /** One more entry adds, to the sum over the names, the occurrences of its category. */
  lemma {:induction false} SumCountsStep(init: seq<Photo>, x: Photo, names: seq<string>)
    ensures SumCounts(init + [x], names) == SumCounts(init, names) + Occurrences(names, x.category)
    decreases |names|
  {
    if names != [] {
      var n := names[|names| - 1];
      SumCountsStep(init, x, names[..|names| - 1]);
      assert (init + [x])[..|init + [x]| - 1] == init;
    }
  }

  /** Summed over the categories present, the counts make up the whole catalog. */
  lemma {:induction false} CountsSumToTotal(photos: seq<Photo>)
    ensures SumCounts(photos, FirstAppearance(photos)) == |photos|
    decreases |photos|
  {
    if photos != [] {
      var init, x := photos[..|photos| - 1], photos[|photos| - 1];
      assert photos == init + [x];
      var prev := FirstAppearance(init);
      CountsSumToTotal(init);
      SumCountsStep(init, x, prev);
      OccurrencesDistinct(prev, x.category);
      if x.category !in prev {
        assert CountCategory(init, x.category) == 0 by {
          CountPositive(init, x.category);
        }
      }
    }
  }
}
