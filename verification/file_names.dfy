/** The file rules of `create_simple_bad_crops`: which directory entries count
    as images (lines 108-113) and the name each crop is saved under (lines
    132-134). A name is the last path component, as a sequence of
    characters; names that Python decodes with lone surrogates cannot be
    written as Dafny strings and are outside the model. */
module FileNames {

  /** The suffixes accepted, compared after lower-casing. */
  const ImageExtensions: set<string> := {".jpg", ".jpeg", ".png", ".bmp", ".tiff", ".webp"}

  /** The prefix of every output name. */
  const OutputPrefix: string := "Badcrop"

  /** `name.rfind('.')`: the index of the last dot, or -1 when there is none. */
  function LastDot(name: string): (i: int)
    ensures -1 <= i < |name|
    ensures 0 <= i ==> name[i] == '.'
    ensures forall j :: i < j < |name| ==> name[j] != '.'
  {
    if |name| == 0 then -1
    else if name[|name| - 1] == '.' then |name| - 1
    else LastDot(name[..|name| - 1])
  }

  /** A dot with no dot after it is the last dot. */
  lemma LastDotIs(name: string, k: int)
    requires 0 <= k < |name| && name[k] == '.'
    requires forall j :: k < j < |name| ==> name[j] != '.'
    ensures LastDot(name) == k
  {
  }

  /** `PurePath.suffix`: from the last dot to the end when that dot is
      neither the first nor the last character, and empty otherwise. A
      non-empty suffix is a dot followed by at least one dot-free character,
      and something of the name comes before it. */
  function Suffix(name: string): (s: string)
    ensures s != "" <==> 0 < LastDot(name) < |name| - 1
    ensures s == "" || (2 <= |s| < |name| && s == name[|name| - |s|..])
    ensures s != "" ==> s[0] == '.' && forall j :: 1 <= j < |s| ==> s[j] != '.'
  {
    var i := LastDot(name);
    if 0 < i < |name| - 1 then name[i..] else ""
  }

  /** `PurePath.stem`: the name without its suffix. */
  function Stem(name: string): (t: string)
    ensures |t| <= |name| && t == name[..|t|]
  {
    var i := LastDot(name);
    if 0 < i < |name| - 1 then name[..i] else name
  }

  /** Stem and suffix split the name: together they give it back, and a
      name with a suffix has a non-empty stem. */
  lemma StemSuffixSplit(name: string)
    ensures Stem(name) + Suffix(name) == name
    ensures Suffix(name) != "" ==> Stem(name) != ""
  {
    var i := LastDot(name);
    if 0 < i < |name| - 1 {
      assert name[..i] + name[i..] == name;
    }
  }

  /** `str.lower` on one character, for ASCII letters. */
  function LowerChar(c: char): (r: char)
    ensures !('A' <= r <= 'Z')
    ensures !('A' <= c <= 'Z') ==> r == c
    ensures 'A' <= c <= 'Z' ==> 'a' <= r <= 'z' && r as int - c as int == 32
  {
    if 'A' <= c <= 'Z' then (c as int + 32) as char else c
  }

  /** `str.lower` for ASCII letters: same length, each character lowered. */
  function Lower(s: string): (r: string)
    ensures |r| == |s|
    ensures forall i :: 0 <= i < |s| ==> r[i] == LowerChar(s[i])
  {
    if s == [] then [] else [LowerChar(s[0])] + Lower(s[1..])
  }

  /** Lines 110-113: an entry is processed when its lower-cased suffix is one
      of the image extensions. */
  predicate IsImageFile(name: string)
    ensures IsImageFile(name) ==> 4 <= |Suffix(name)| <= 5
  {
    Lower(Suffix(name)) in ImageExtensions
  }

  /** The name ends with `ext`, ignoring ASCII case, and has at least one
      character before it. */
  predicate HasExtension(name: string, ext: string) {
    |ext| < |name| && Lower(name[|name| - |ext|..]) == ext
  }

  /** Every accepted extension is a dot followed by dot-free characters. */
  lemma ExtensionsAreSuffixes(ext: string)
    requires ext in ImageExtensions
    ensures 2 <= |ext| && ext[0] == '.'
    ensures forall j :: 1 <= j < |ext| ==> ext[j] != '.'
  {
  }

  /** A name ends, ignoring case, with the lower-cased form of any of its
      proper endings. */
  lemma EndingHasExtension(name: string, k: nat)
    requires 0 < k <= |name|
    ensures HasExtension(name, Lower(name[k..]))
  {
    assert |Lower(name[k..])| == |name| - k;
  }

  /** A name with a suffix ends with its lower-cased suffix, ignoring case. */
  lemma SuffixHasExtension(name: string)
    requires Suffix(name) != ""
    ensures HasExtension(name, Lower(Suffix(name)))
  {
    var suffix := Suffix(name);
    EndingHasExtension(name, |name| - |suffix|);
  }

  /** A processed entry ends with its lower-cased suffix, ignoring case. */
  lemma ImageFileHasExtension(name: string)
    requires IsImageFile(name)
    ensures HasExtension(name, Lower(Suffix(name)))
  {
    assert Lower("") == "";
    SuffixHasExtension(name);
  }

  /** Where a name ends with an extension ignoring case, the extension's dot
      is the name's last dot. */
  lemma ExtensionDotIsLastDot(name: string, ext: string)
    requires ext in ImageExtensions && HasExtension(name, ext)
    ensures LastDot(name) == |name| - |ext|
  {
    ExtensionsAreSuffixes(ext);
    var k := |name| - |ext|;
    var tail := name[k..];
    assert LowerChar(tail[0]) == ext[0];
    forall j | k < j < |name|
      ensures name[j] != '.'
    {
      assert name[j] == tail[j - k];
      assert LowerChar(tail[j - k]) == ext[j - k];
    }
    LastDotIs(name, k);
  }

  /** An entry whose name ends with an extension, ignoring case, and has
      something before it is processed. */
  lemma ExtensionMakesImageFile(name: string, ext: string)
    requires ext in ImageExtensions && HasExtension(name, ext)
    ensures Suffix(name) == name[|name| - |ext|..]
    ensures IsImageFile(name)
  {
    ExtensionsAreSuffixes(ext);
    ExtensionDotIsLastDot(name, ext);
  }

  /** The filter in terms of the name alone: an entry is processed exactly
      when its name ends, in any ASCII case, with one of the extensions and
      has something before it. A bare `.jpg` is not processed: its only dot
      is the first character, so it has no suffix. */
  lemma IsImageFileByEnding(name: string)
    ensures IsImageFile(name) <==> exists ext :: ext in ImageExtensions && HasExtension(name, ext)
  {
    if IsImageFile(name) {
      ImageFileHasExtension(name);
    }
    if ext :| ext in ImageExtensions && HasExtension(name, ext) {
      ExtensionMakesImageFile(name, ext);
    }
  }

  /** The list comprehension `[x for x in xs if keep(x)]`, element by
      element and in order. */
  function Kept<T>(xs: seq<T>, keep: T -> bool): seq<T> {
    if xs == [] then []
    else if keep(xs[0]) then [xs[0]] + Kept(xs[1..], keep)
    else Kept(xs[1..], keep)
  }

  /** The comprehension keeps exactly the elements that pass, each as often
      as it occurs, and keeps a listing whole when every element passes. */
  lemma {:induction false} KeptCounts<T(!new)>(xs: seq<T>, keep: T -> bool)
    ensures forall x :: x in Kept(xs, keep) <==> x in xs && keep(x)
    ensures forall x :: multiset(Kept(xs, keep))[x] == if keep(x) then multiset(xs)[x] else 0
    ensures |Kept(xs, keep)| <= |xs|
    ensures (forall x :: x in xs ==> keep(x)) ==> Kept(xs, keep) == xs
  {
    if xs != [] {
      assert xs == [xs[0]] + xs[1..];
      KeptCounts(xs[1..], keep);
    }
  }

  /** Keeping from a concatenation joins what is kept from each part. */
  lemma {:induction false} KeptSplits<T>(xs: seq<T>, ys: seq<T>, keep: T -> bool)
    ensures Kept(xs + ys, keep) == Kept(xs, keep) + Kept(ys, keep)
  {
    if xs == [] {
      assert xs + ys == ys;
    } else {
      assert (xs + ys)[0] == xs[0];
      assert (xs + ys)[1..] == xs[1..] + ys;
      KeptSplits(xs[1..], ys, keep);
    }
  }

  /** The list comprehension `[x for x in xs if keep(x)]`: exactly the kept
      elements, each as often as it occurs, and a listing whose elements are
      all kept comes back whole. */
  function Filter<T(==,!new)>(xs: seq<T>, keep: T -> bool): (r: seq<T>)
    ensures forall x :: x in r <==> x in xs && keep(x)
    ensures forall x :: multiset(r)[x] == if keep(x) then multiset(xs)[x] else 0
    ensures |r| <= |xs|
    ensures (forall x :: x in xs ==> keep(x)) ==> r == xs
  {
    KeptCounts(xs, keep);
    Kept(xs, keep)
  }

  /** The comprehension works element by element: filtering a listing is
      filtering its parts in order and joining the results. */
  lemma FilterSplits<T(!new)>(xs: seq<T>, ys: seq<T>, keep: T -> bool)
    ensures Filter(xs + ys, keep) == Filter(xs, keep) + Filter(ys, keep)
  {
    KeptSplits(xs, ys, keep);
  }

  /** Lines 110-113: the entries processed, in directory order. Exactly the
      image files among the entries are kept, each as often as it is listed,
      and a listing of image files only is kept whole. */
  function ImageFiles(names: seq<string>): (r: seq<string>)
    ensures forall n :: n in r <==> n in names && IsImageFile(n)
    ensures forall n :: multiset(r)[n] == if IsImageFile(n) then multiset(names)[n] else 0
    ensures |r| <= |names|
    ensures (forall n :: n in names ==> IsImageFile(n)) ==> r == names
  {
    Filter(names, IsImageFile)
  }

  /** Filtering a listing is filtering its parts and joining the results, so
      the processed entries keep their directory order. */
  lemma ImageFilesSplits(a: seq<string>, b: seq<string>)
    ensures ImageFiles(a + b) == ImageFiles(a) + ImageFiles(b)
  {
    FilterSplits(a, b, IsImageFile);
  }

  /** Lines 132-134: the output name, `"Badcrop" + stem + suffix`. It is the
      input name with the prefix in front: nothing of the name is lost, and
      the suffix keeps its original case. */
  function OutputName(name: string): (out: string)
    ensures |out| == |OutputPrefix| + |name|
    ensures out[..|OutputPrefix|] == OutputPrefix
    ensures out[|OutputPrefix|..] == name
  {
    var stem, suffix := Stem(name), Suffix(name);
    StemSuffixSplit(name);
    assert stem + suffix == name;
    var out := OutputPrefix + stem + suffix;
    assert out == OutputPrefix + name;
    out
  }

  /** Putting text in front of a name that has a dot moves its last dot by
      the length of that text. */
  lemma LastDotAfterPrefix(prefix: string, name: string)
    requires 0 <= LastDot(name)
    ensures LastDot(prefix + name) == |prefix| + LastDot(name)
  {
    var both := prefix + name;
    var k := |prefix| + LastDot(name);
    forall j | k < j < |both|
      ensures both[j] != '.'
    {
      assert both[j] == name[j - |prefix|];
    }
    LastDotIs(both, k);
  }

  /** A file that is processed keeps its suffix, in its original case, in
      the output name, so the output is again an image file. */
  lemma OutputNameKeepsSuffix(name: string)
    requires Suffix(name) != ""
    ensures Suffix(OutputName(name)) == Suffix(name)
    ensures IsImageFile(name) ==> IsImageFile(OutputName(name))
  {
    var out := OutputName(name);
    var i := LastDot(name);
    assert out == OutputPrefix + name;
    LastDotAfterPrefix(OutputPrefix, name);
    assert out[|OutputPrefix| + i..] == name[i..];
  }
}
