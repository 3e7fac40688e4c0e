/**
 * The five-way range table of scripts/generate-photo-data.ts (categorizePhoto):
 * a photo's category, description and tags follow from its number alone.
 */
module Categorize {
  import opened PhotoTypes

  /** The categories the table can pick, in the order their ranges come. */
  const EventOrder: seq<string> := ["Ceremony", "Portraits", "Reception", "Party", "Details"]

  /** The position of a category in EventOrder. */
  function Rank(category: string): (r: nat)
    ensures category in EventOrder ==> r < 5 && EventOrder[r] == category
  {
    if category == "Ceremony" then 0
    else if category == "Portraits" then 1
    else if category == "Reception" then 2
    else if category == "Party" then 3
    else if category == "Details" then 4
    else 5
  }

  /**
   * Ceremony up to 150, Portraits 151-300, Reception 301-450, Party 451-700,
   * Details above. The file name is accepted and never looked at.
   */
  function CategorizePhoto(filename: string, photoNumber: int): (a: Analysis)
    ensures a.category in EventOrder
    ensures a.category == "Ceremony" <==> photoNumber <= 150
    ensures a.category == "Portraits" <==> 151 <= photoNumber <= 300
    ensures a.category == "Reception" <==> 301 <= photoNumber <= 450
    ensures a.category == "Party" <==> 451 <= photoNumber <= 700
    ensures a.category == "Details" <==> 700 < photoNumber
  {
    if photoNumber <= 150 then
      Analysis("Ceremony", "Wedding ceremony proceedings",
               ["ceremony", "guests", "outdoor-wedding", "tropical", "formal"])
    else if photoNumber >= 151 && photoNumber <= 300 then
      Analysis("Portraits", "Post-ceremony portraits and family photos",
               ["portraits", "couple", "family", "formal-photos", "beach-setting"])
    else if photoNumber >= 301 && photoNumber <= 450 then
      Analysis("Reception", "Reception dinner and speeches",
               ["reception", "dining", "speeches", "evening", "celebration"])
    else if photoNumber >= 451 && photoNumber <= 700 then
      Analysis("Party", "Dancing and late-night celebration",
               ["dancing", "party", "celebration", "night", "fun"])
    else
      Analysis("Details", "Wedding details and venue", ["details", "venue", "decoration"])
  }

  /** A larger number never moves a photo to an earlier part of the day. */
  lemma CategoryMonotone(f: string, g: string, n: int, m: int)
    requires n <= m
    ensures Rank(CategorizePhoto(f, n).category) <= Rank(CategorizePhoto(g, m).category)
  {
  }

  /**
   * The description and tags are fixed per category, and the file name plays
   * no part: two calls that pick the same category return the same record.
   */
  lemma CategoryFixesText(f: string, g: string, n: int, m: int)
    requires CategorizePhoto(f, n).category == CategorizePhoto(g, m).category
    ensures CategorizePhoto(f, n) == CategorizePhoto(g, m)
  {
  }

  /** Every category the table picks is one of the seven catalog categories. */
  lemma CategoryIsEnumerated(f: string, n: int)
    ensures CategorizePhoto(f, n).category in CategoryNames
  {
  }
}
