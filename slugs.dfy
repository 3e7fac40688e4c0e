/**
 * The two spellings of a category: the menu id that lib/photos-with-metadata.ts
 * makes with `name.toLowerCase().replace(/\s+/g, "-")`, and the name that
 * components/PhotoGrid.tsx recovers from it with `replace(/-/g, " ")` followed
 * by upper-casing each word-initial `\w` character.
 */
module Slugs {
  import opened PhotoTypes

  /** What `\s` matches: the ECMAScript white space and line terminator characters. */
  predicate IsSpace(c: char) {
    || ('\U{0009}' <= c <= '\U{000D}') || c == '\U{0020}' || c == '\U{00A0}' || c == '\U{1680}'
    || ('\U{2000}' <= c <= '\U{200A}') || c == '\U{2028}' || c == '\U{2029}' || c == '\U{202F}'
    || c == '\U{205F}' || c == '\U{3000}' || c == '\U{FEFF}'
  }

  /** What `\w` matches without the `u` flag. */
  predicate IsWordChar(c: char) {
    ('a' <= c <= 'z') || ('A' <= c <= 'Z') || ('0' <= c <= '9') || c == '_'
  }

  predicate IsUpper(c: char) {
    'A' <= c <= 'Z'
  }

  function ToLower(c: char): (l: char)
    ensures !IsUpper(l)
    ensures IsSpace(l) <==> IsSpace(c)
  {
    if IsUpper(c) then (c as int + 32) as char else c
  }

  function ToUpper(c: char): (u: char)
    ensures IsWordChar(u) <==> IsWordChar(c)
  {
    if 'a' <= c <= 'z' then (c as int - 32) as char else c
  }

  /** toLowerCase on the ASCII letters; every other character is kept. */
  function LowerCase(s: string): (r: string)
    ensures |r| == |s|
    ensures forall i :: 0 <= i < |s| ==> r[i] == ToLower(s[i])
  {
    if s == [] then [] else [ToLower(s[0])] + LowerCase(s[1..])
  }

  /** The string with its leading white space removed. */
  function DropSpaces(s: string): (r: string)
    ensures |r| <= |s|
    ensures r == [] || !IsSpace(r[0])
  {
    if s != [] && IsSpace(s[0]) then DropSpaces(s[1..]) else s
  }

  /** A string with no white space in it. */
  predicate NoSpace(s: string) {
    forall i :: 0 <= i < |s| ==> !IsSpace(s[i])
  }

  /** A non-empty run of white space. */
  predicate SpaceRun(w: string) {
    |w| > 0 && forall i :: 0 <= i < |w| ==> IsSpace(w[i])
  }

  /**
   * `replace(/\s+/g, "-")`: every maximal run of white space becomes one "-".
   * DashRunsNoSpace and DashRunsRun fix the result for every string.
   */
  function DashRuns(s: string): (r: string)
    ensures NoSpace(r)
    ensures |r| <= |s|
    decreases |s|
  {
    if s == [] then []
    else if IsSpace(s[0]) then "-" + DashRuns(DropSpaces(s[1..]))
    else [s[0]] + DashRuns(s[1..])
  }

  /**
   * The menu id of a category name: lower case, with each run of white space
   * replaced by "-". SlugNoSpace and SlugRun fix it for every name.
   */
  function Slug(name: string): (slug: string)
    ensures forall i :: 0 <= i < |slug| ==> !IsSpace(slug[i]) && !IsUpper(slug[i])
    ensures |slug| <= |name|
  {
    DashRunsKeepsLower(LowerCase(name));
    DashRuns(LowerCase(name))
  }

  /** Replacing runs never brings back an upper-case letter. */
  lemma {:induction false} DashRunsKeepsLower(s: string)
    requires forall i :: 0 <= i < |s| ==> !IsUpper(s[i])
    ensures forall i :: 0 <= i < |DashRuns(s)| ==> !IsUpper(DashRuns(s)[i])
    decreases |s|
  {
    if s != [] {
      if IsSpace(s[0]) {
        var t := DropSpaces(s[1..]);
        DropSpacesIsSuffix(s[1..]);
        DashRunsKeepsLower(t);
      } else {
        DashRunsKeepsLower(s[1..]);
      }
    }
  }

  /** DropSpaces returns a suffix of its argument. */
  lemma {:induction false} DropSpacesIsSuffix(s: string)
    ensures exists k :: 0 <= k <= |s| && DropSpaces(s) == s[k..]
    decreases |s|
  {
    if s != [] && IsSpace(s[0]) {
      DropSpacesIsSuffix(s[1..]);
      var k :| 0 <= k <= |s[1..]| && DropSpaces(s[1..]) == s[1..][k..];
      assert s[1..][k..] == s[k + 1..];
    } else {
      assert s == s[0..];
    }
  }

  /** `replace(/-/g, " ")`. */
  function DashesToSpaces(s: string): (r: string)
    ensures |r| == |s|
    ensures forall i :: 0 <= i < |s| ==> r[i] == (if s[i] == '-' then ' ' else s[i])
  {
    if s == [] then [] else [if s[0] == '-' then ' ' else s[0]] + DashesToSpaces(s[1..])
  }

  /**
   * `replace(/\b\w/g, l => l.toUpperCase())` on the rest of a string whose
   * previous character was (`afterWord`) or was not a word character.
   */
  function CapitalizeWords(s: string, afterWord: bool): (r: string)
    ensures |r| == |s|
    ensures |s| > 0 ==> r[0] == (if IsWordChar(s[0]) && !afterWord then ToUpper(s[0]) else s[0])
    ensures forall i :: 1 <= i < |s| ==>
              r[i] == (if IsWordChar(s[i]) && !IsWordChar(s[i - 1]) then ToUpper(s[i]) else s[i])
  {
    if s == [] then []
    else
      var c := s[0];
      var rest := CapitalizeWords(s[1..], IsWordChar(c));
      assert forall i :: 1 <= i < |s| ==> s[1..][i - 1] == s[i];
      [if IsWordChar(c) && !afterWord then ToUpper(c) else c] + rest
  }

  /** The category name PhotoGrid reads from a menu id. */
  function TitleCase(slug: string): (name: string)
    ensures |name| == |slug|
  {
    CapitalizeWords(DashesToSpaces(slug), false)
  }

  /** A capitalised word: an upper-case ASCII letter followed by lower-case ones. */
  predicate IsCapitalizedWord(w: string) {
    && |w| > 0 && IsUpper(w[0])
    && forall i :: 1 <= i < |w| ==> 'a' <= w[i] <= 'z'
  }

  /** Without white space there is no run to replace. */
  lemma {:induction false} DashRunsNoSpace(s: string)
    requires NoSpace(s)
    ensures DashRuns(s) == s
    decreases |s|
  {
    if s != [] {
      DashRunsStep(s);
      DashRunsNoSpace(s[1..]);
    }
  }

  /** A name without white space is only lower-cased. */
  lemma SlugNoSpace(name: string)
    requires NoSpace(name)
    ensures Slug(name) == LowerCase(name)
  {
    LowerCaseSpaces(name);
    DashRunsNoSpace(LowerCase(name));
  }

  /** Leading white space up to a character that is not white space is dropped whole. */
  lemma {:induction false} DropSpacesRun(w: string, b: string)
    requires forall i :: 0 <= i < |w| ==> IsSpace(w[i])
    requires b == [] || !IsSpace(b[0])
    ensures DropSpaces(w + b) == b
    decreases |w|
  {
    if w != [] {
      assert (w + b)[1..] == w[1..] + b;
      DropSpacesRun(w[1..], b);
    } else {
      assert w + b == b;
    }
  }

  /**
   * A maximal run of white space after a space-free part becomes exactly one
   * "-", and the replacement goes on after it: `a + w + b` gives
   * `a + "-" + DashRuns(b)`.
   */
  lemma {:induction false} DashRunsRun(a: string, w: string, b: string)
    requires NoSpace(a) && SpaceRun(w)
    requires b == [] || !IsSpace(b[0])
    ensures DashRuns(a + w + b) == a + "-" + DashRuns(b)
    decreases |a|
  {
    var s := a + w + b;
    if a == [] {
      assert s == w + b && s[0] == w[0];
      assert s[1..] == w[1..] + b;
      DashRunsStep(s);
      DropSpacesRun(w[1..], b);
    } else {
      assert s[0] == a[0] && s[1..] == a[1..] + w + b;
      DashRunsStep(s);
      DashRunsRun(a[1..], w, b);
    }
  }

  /** One step of the replacement: a run starting here, or a character kept. */
  lemma DashRunsStep(s: string)
    requires s != []
    ensures DashRuns(s) == if IsSpace(s[0]) then "-" + DashRuns(DropSpaces(s[1..])) else [s[0]] + DashRuns(s[1..])
  {
  }

  /** Lower-casing keeps white space where it is. */
  lemma LowerCaseSpaces(s: string)
    ensures NoSpace(s) ==> NoSpace(LowerCase(s))
    ensures SpaceRun(s) ==> SpaceRun(LowerCase(s))
    ensures s != [] ==> (IsSpace(LowerCase(s)[0]) <==> IsSpace(s[0]))
  {
  }

  /**
   * The menu id of a name made of a space-free part, a maximal run of white
   * space and a rest: the part lowered, one "-", then the id of the rest.
   */
  lemma SlugRun(a: string, w: string, b: string)
    requires NoSpace(a) && SpaceRun(w)
    requires b == [] || !IsSpace(b[0])
    ensures Slug(a + w + b) == LowerCase(a) + "-" + Slug(b)
  {
    LowerCaseAppend(a + w, b);
    LowerCaseAppend(a, w);
    LowerCaseSpaces(a);
    LowerCaseSpaces(w);
    LowerCaseSpaces(b);
    DashRunsRun(LowerCase(a), LowerCase(w), LowerCase(b));
  }

  /** LowerCase distributes over concatenation. */
  lemma LowerCaseAppend(a: string, b: string)
    ensures LowerCase(a + b) == LowerCase(a) + LowerCase(b)
  {
  }

  /** Upper-casing the word-initial letters of a lower-cased capitalised word restores it. */
  lemma CapitalizeLowered(w: string)
    requires IsCapitalizedWord(w)
    ensures CapitalizeWords(LowerCase(w), false) == w
  {
    var l := LowerCase(w);
    var t := CapitalizeWords(l, false);
    forall i | 0 <= i < |w| ensures t[i] == w[i] {
      if i > 0 {
        assert IsWordChar(l[i - 1]);
      }
    }
  }

  /** The state after a string: whether its last character, if any, is a word character. */
  function EndsInWord(s: string, afterWord: bool): bool {
    if s == [] then afterWord else IsWordChar(s[|s| - 1])
  }

  /** CapitalizeWords works left to right, carrying only whether the last character was a word character. */
  lemma CapitalizeAppend(a: string, b: string, afterWord: bool)
    ensures CapitalizeWords(a + b, afterWord) ==
            CapitalizeWords(a, afterWord) + CapitalizeWords(b, EndsInWord(a, afterWord))
  {
    var s := a + b;
    var l := CapitalizeWords(s, afterWord);
    var r := CapitalizeWords(a, afterWord) + CapitalizeWords(b, EndsInWord(a, afterWord));
    forall i | 0 <= i < |s| ensures l[i] == r[i] {
      if i < |a| {
        assert s[i] == a[i];
        if i > 0 { assert s[i - 1] == a[i - 1]; }
      } else {
        var k := i - |a|;
        assert s[i] == b[k];
        if k > 0 { assert s[i - 1] == b[k - 1]; }
        else if i > 0 { assert s[i - 1] == a[|a| - 1]; }
      }
    }
  }

  /** DashesToSpaces distributes over concatenation. */
  lemma DashesAppend(a: string, b: string)
    ensures DashesToSpaces(a + b) == DashesToSpaces(a) + DashesToSpaces(b)
  {
  }

  /** A capitalised word is its own name after the slug and back. */
  lemma OneWordRoundTrip(w: string)
    requires IsCapitalizedWord(w)
    ensures TitleCase(Slug(w)) == w
  {
    var l := LowerCase(w);
    assert NoSpace(w);
    SlugNoSpace(w);
    assert DashesToSpaces(l) == l;
    CapitalizeLowered(w);
  }

  /** The slug of two capitalised words joined by a space joins their lower-case forms by "-". */
  lemma TwoWordSlug(w1: string, w2: string)
    requires IsCapitalizedWord(w1) && IsCapitalizedWord(w2)
    ensures Slug(w1 + " " + w2) == LowerCase(w1) + "-" + LowerCase(w2)
  {
    assert NoSpace(w1) && NoSpace(w2) && SpaceRun(" ");
    SlugRun(w1, " ", w2);
    SlugNoSpace(w2);
  }

  /** Two capitalised words joined by a space: the slug joins them by "-", and TitleCase undoes it. */
  lemma TwoWordRoundTrip(w1: string, w2: string)
    requires IsCapitalizedWord(w1) && IsCapitalizedWord(w2)
    ensures TitleCase(Slug(w1 + " " + w2)) == w1 + " " + w2
  {
    TwoWordSlug(w1, w2);
    TwoWordTitle(w1, w2);
  }

  /** TitleCase turns the lower-case forms of two capitalised words joined by "-" back into the words. */
  lemma TwoWordTitle(w1: string, w2: string)
    requires IsCapitalizedWord(w1) && IsCapitalizedWord(w2)
    ensures TitleCase(LowerCase(w1) + "-" + LowerCase(w2)) == w1 + " " + w2
  {
    var l1, l2 := LowerCase(w1), LowerCase(w2);
    assert DashesToSpaces(l1) == l1 && DashesToSpaces(l2) == l2;
    DashesAppend(l1 + "-", l2);
    DashesAppend(l1, "-");
    assert DashesToSpaces("-") == " ";
    CapitalizeAppend(l1 + " ", l2, false);
    CapitalizeAppend(l1, " ", false);
    assert EndsInWord(l1 + " ", false) == false;
    assert CapitalizeWords(" ", EndsInWord(l1, false)) == " ";
    CapitalizeLowered(w1);
    CapitalizeLowered(w2);
  }

  /** Each of the seven category names comes back from its menu id unchanged. */
  lemma SlugRoundTrip(c: Category)
    ensures TitleCase(Slug(c.Name())) == c.Name()
  {
    match c
    case GettingReady =>
      assert "Getting Ready" == "Getting" + " " + "Ready";
      TwoWordRoundTrip("Getting", "Ready");
    case Ceremony => OneWordRoundTrip("Ceremony");
    case Portraits => OneWordRoundTrip("Portraits");
    case CocktailHour =>
      assert "Cocktail Hour" == "Cocktail" + " " + "Hour";
      TwoWordRoundTrip("Cocktail", "Hour");
    case Reception => OneWordRoundTrip("Reception");
    case Party => OneWordRoundTrip("Party");
    case Details => OneWordRoundTrip("Details");
  }

  /** The menu id of a category is never empty and never "all". */
  lemma SlugIsNotAll(c: Category)
    ensures Slug(c.Name()) != "" && Slug(c.Name()) != "all"
  {
    SlugRoundTrip(c);
    assert TitleCase("all") == "All" by {
      assert DashesToSpaces("all") == "all";
      assert CapitalizeWords("all", false)[0] == 'A';
    }
  }
}
