/**
 * How the scripts and lib/photos.ts read a photo file name: the ".jpg"/".JPG"
 * filter, the number `parseInt(name.match(/\d+/)?.[0] || "0")`, the id with
 * the extension stripped, and the stable numeric sort of the directory listing.
 */
module FileNames {
  import opened PhotoTypes
  import opened Seqs

  /** What `\d` matches without the `u` flag: an ASCII digit. */
  predicate IsDigit(c: char) {
    '0' <= c <= '9'
  }

  predicate AllDigits(s: string) {
    forall i :: 0 <= i < |s| ==> IsDigit(s[i])
  }

  predicate NoDigits(s: string) {
    forall i :: 0 <= i < |s| ==> !IsDigit(s[i])
  }

  function DigitValue(c: char): nat
    requires IsDigit(c)
  {
    c as int - '0' as int
  }

  function DigitChar(d: nat): (c: char)
    requires d < 10
    ensures IsDigit(c) && DigitValue(c) == d
  {
    ('0' as int + d) as char
  }

  /** The longest prefix of s made of digits: how far `\d+` extends once it has started. */
  function DigitPrefix(s: string): (d: string)
    ensures d <= s && AllDigits(d)
    ensures |d| == |s| || !IsDigit(s[|d|])
  {
    if s != [] && IsDigit(s[0]) then [s[0]] + DigitPrefix(s[1..]) else []
  }

  /** Where the first digit of s stands, if s has one. */
  function FirstDigitAt(s: string): (r: Option<nat>)
    ensures r.None? <==> NoDigits(s)
    ensures r.Some? ==> r.value < |s| && IsDigit(s[r.value]) && NoDigits(s[..r.value])
  {
    if s == [] then None
    else if IsDigit(s[0]) then Some(0)
    else
      match FirstDigitAt(s[1..])
      case None => None
      case Some(k) =>
        assert s[..k + 1] == [s[0]] + s[1..][..k];
        Some(k + 1)
  }

  /** parseInt on a string of decimal digits (leading zeros are allowed and ignored). */
  function ParseDecimal(d: string): nat
    requires AllDigits(d)
  {
    if d == [] then 0 else ParseDecimal(d[..|d| - 1]) * 10 + DigitValue(d[|d| - 1])
  }

  /**
   * The sort and category key of a name: the value of the leftmost maximal run
   * of digits (the first match of /\d+/), and 0 when the name has no digit.
   */
  function NumberKey(name: string): (n: nat)
    ensures NoDigits(name) ==> n == 0
  {
    match FirstDigitAt(name)
    case None => 0
    case Some(i) => ParseDecimal(DigitPrefix(name[i..]))
  }

  /** The decimal spelling of n, as a template literal `${n}` writes an index. */
  function NatToString(n: nat): (s: string)
    ensures s != [] && AllDigits(s)
  {
    if n < 10 then [DigitChar(n)] else NatToString(n / 10) + [DigitChar(n % 10)]
  }

  /** Reading back a decimal spelling gives the number. */
  lemma {:induction false} ParseNatToString(n: nat)
    ensures ParseDecimal(NatToString(n)) == n
  {
    var s := NatToString(n);
    if n < 10 {
      assert s[..0] == [];
    } else {
      assert s[..|s| - 1] == NatToString(n / 10);
      ParseNatToString(n / 10);
    }
  }

  /** Distinct numbers have distinct spellings. */
  lemma NatToStringInjective(m: nat, n: nat)
    requires NatToString(m) == NatToString(n)
    ensures m == n
  {
    ParseNatToString(m);
    ParseNatToString(n);
  }

  /** A digit prefix taken from digits followed by a non-digit is those digits. */
  lemma {:induction false} DigitPrefixOfDigits(d: string, rest: string)
    requires AllDigits(d)
    requires rest == [] || !IsDigit(rest[0])
    ensures DigitPrefix(d + rest) == d
    decreases |d|
  {
    if d == [] {
      assert d + rest == rest;
    } else {
      assert (d + rest)[1..] == d[1..] + rest;
      DigitPrefixOfDigits(d[1..], rest);
    }
  }

  /**
   * The number is read from wherever the first digits are: a name without
   * digits keys as 0, and the same name with `_<n>` appended keys as n.
   */
  lemma SuffixSetsNumber(base: string, n: nat)
    requires NoDigits(base)
    ensures NumberKey(base) == 0
    ensures NumberKey(base + "_" + NatToString(n)) == n
  {
    var s := base + "_" + NatToString(n);
    var i := |base| + 1;
    assert NoDigits(s[..i]) by {
      assert s[..i] == base + "_";
    }
    FirstDigitAtIs(s, i);
    assert s[i..] == NatToString(n) + [];
    DigitPrefixOfDigits(NatToString(n), []);
    ParseNatToString(n);
  }

  /** The first digit is where the digits start after a digit-free prefix. */
  lemma {:induction false} FirstDigitAtIs(s: string, i: nat)
    requires i < |s| && IsDigit(s[i]) && NoDigits(s[..i])
    ensures FirstDigitAt(s) == Some(i)
    decreases i
  {
    if i > 0 {
      assert s[0] == s[..i][0];
      assert s[1..][..i - 1] == s[..i][1..];
      FirstDigitAtIs(s[1..], i - 1);
    }
  }

  predicate EndsWith(s: string, suffix: string) {
    |suffix| <= |s| && s[|s| - |suffix|..] == suffix
  }

  /** `file.endsWith(".jpg") || file.endsWith(".JPG")`: the case of the extension is all or nothing. */
  predicate IsJpegName(f: string) {
    EndsWith(f, ".jpg") || EndsWith(f, ".JPG")
  }

  /** `filename.replace(/\.(jpg|JPG)$/, "")`. */
  function StripJpeg(f: string): (id: string)
    ensures IsJpegName(f) ==> |id| == |f| - 4 && id + f[|f| - 4..] == f
    ensures !IsJpegName(f) ==> id == f
  {
    if IsJpegName(f) then f[..|f| - 4] else f
  }

  /** Stripping the extension never touches the digits the key is read from. */
  lemma StripKeepsKey(f: string)
    ensures NumberKey(StripJpeg(f)) == NumberKey(f)
  {
    if IsJpegName(f) {
      var id, ext := StripJpeg(f), f[|f| - 4..];
      ExtensionHasNoDigits(f);
      assert f == id + ext;
      KeyIgnoresDigitFreeTail(id, ext);
    }
  }

  /** ".jpg" and ".JPG" hold no digit. */
  lemma ExtensionHasNoDigits(f: string)
    requires IsJpegName(f)
    ensures NoDigits(f[|f| - 4..])
  {
    var ext := f[|f| - 4..];
    assert ext == ".jpg" || ext == ".JPG";
  }

  /** Appending a digit-free tail leaves the key as it was. */
  lemma KeyIgnoresDigitFreeTail(x: string, tail: string)
    requires NoDigits(tail)
    ensures NumberKey(x + tail) == NumberKey(x)
  {
    var s := x + tail;
    match FirstDigitAt(x)
    case None =>
      assert NoDigits(s) by {
        forall k | 0 <= k < |s| ensures !IsDigit(s[k]) {
          if k < |x| { assert s[k] == x[k]; } else { assert s[k] == tail[k - |x|]; }
        }
      }
    case Some(i) =>
      assert s[..i] == x[..i];
      FirstDigitAtIs(s, i);
      assert s[i..] == x[i..] + tail;
      DigitPrefixSplit(x[i..], tail);
  }

  /** A digit run inside x stops before a digit-free tail. */
  lemma {:induction false} DigitPrefixSplit(x: string, tail: string)
    requires NoDigits(tail)
    ensures DigitPrefix(x + tail) == DigitPrefix(x)
    decreases |x|
  {
    if x == [] {
      assert x + tail == tail;
    } else if IsDigit(x[0]) {
      assert (x + tail)[1..] == x[1..] + tail;
      DigitPrefixSplit(x[1..], tail);
    }
  }

  // ---------------------------------------------------------------------------
  // The numeric sort. The comparator `numA - numB` orders by NumberKey only, and
  // Array.prototype.sort is stable, so names with equal keys keep their order.

  predicate SortedByNumber(s: seq<string>) {
    SortedBy(NumberKey, s)
  }

  /** The directory listing sorted by NumberKey, stably. */
  function SortByNumber(s: seq<string>): (r: seq<string>)
    ensures multiset(r) == multiset(s)
    ensures SortedByNumber(r)
  {
    SortBy(NumberKey, s)
  }

  /** The names of s whose key is k, in the order of s. */
  function WithNumber(k: nat, s: seq<string>): seq<string> {
    WithKey(NumberKey, k, s)
  }

  /**
   * The file list every reader starts from: the directory listing filtered to
   * ".jpg"/".JPG" names, then sorted by number.
   */
  function ListPhotoFiles(dir: seq<string>): (files: seq<string>)
    ensures SortedByNumber(files)
    ensures multiset(files) == multiset(Filter(IsJpegName, dir))
  {
    SortByNumber(Filter(IsJpegName, dir))
  }

  /**
   * What the listing promises: only JPEG names, every JPEG name of the
   * directory (with multiplicity), ordered by key, and names with equal keys in
   * the directory's order.
   */
  lemma ListPhotoFilesSpec(dir: seq<string>)
    ensures forall i :: 0 <= i < |ListPhotoFiles(dir)| ==> IsJpegName(ListPhotoFiles(dir)[i])
    ensures forall i :: 0 <= i < |dir| && IsJpegName(dir[i]) ==> dir[i] in ListPhotoFiles(dir)
    ensures forall k: nat :: WithNumber(k, ListPhotoFiles(dir)) == WithNumber(k, Filter(IsJpegName, dir))
  {
    var jpegs := Filter(IsJpegName, dir);
    var files := ListPhotoFiles(dir);
    forall i | 0 <= i < |files| ensures IsJpegName(files[i]) {
      assert files[i] in multiset(jpegs);
    }
    forall i | 0 <= i < |dir| && IsJpegName(dir[i]) ensures dir[i] in files {
      assert dir[i] in multiset(jpegs);
    }
    forall k: nat ensures WithNumber(k, files) == WithNumber(k, jpegs) {
      SortIsStable(NumberKey, k, jpegs);
    }
  }
}
