/** How one matched file is named and located: the entry name is the file name
    with its extension removed by a regular expression, the path is the file
    name under its category directory. */
module Naming {
  import opened Text

  /** Root of the asset sources; each category is a sub-directory of it. */
  const DevPath: string := "./app/assets/_dev/"

  /** The directory glob scans for a category: `devPath + key + "/"`. */
  function CategoryDir(key: string): string {
    DevPath + key + "/"
  }

  /** `path.resolve(devPath + key + "/", fileName)`, without the host's
      working directory and without normalisation. */
  function ResolvePath(key: string, fileName: string): string {
    CategoryDir(key) + fileName
  }

  /** `fileName.replace(new RegExp("." + ext + "$"), "")` for an extension
      made of letters and digits. The unescaped dot matches one character
      that is not a line terminator, and `$` anchors at the end, so the only
      candidate match is the last |ext| + 1 characters. Characters here are
      Unicode scalar values; the regular expression works on UTF-16 code
      units, which differs only for a character outside the Basic
      Multilingual Plane right before the extension. */
  function StripExtension(fileName: string, ext: string): (r: string)
    ensures r <= fileName
    ensures r != fileName ==> EndsWith(fileName, ext) && |fileName| == |r| + 1 + |ext|
    ensures EndsWith(fileName, "." + ext) ==> r + "." + ext == fileName
  {
    var n := |fileName| - |ext| - 1;
    if 0 <= n && fileName[n + 1..] == ext && !IsLineTerminator(fileName[n]) then
      assert EndsWith(fileName, "." + ext) ==> fileName == fileName[..n] + "." + ext;
      fileName[..n]
    else
      fileName
  }

  /** Stripping a dotted extension that was just appended gives the stem back. */
  lemma StripDotted(stem: string, suffix: string, ext: string)
    requires suffix == "." + ext
    ensures StripExtension(stem + suffix, ext) == stem
  {
    var s := stem + suffix;
    assert s[|s| - |suffix|..] == suffix;
    assert s[..|stem|] == stem;
  }

  /** The regular expression's dot is unescaped: any one character other
      than a line terminator in front of the extension is cut with it, so
      `bundlejs` loses `ejs`. A line terminator there leaves the name whole. */
  lemma StripExtensionUnescapedDot(stem: string, c: char, ext: string)
    ensures StripExtension(stem + [c] + ext, ext)
         == if IsLineTerminator(c) then stem + [c] + ext else stem
  {
    var s := stem + [c] + ext;
    var n := |s| - |ext| - 1;
    assert n == |stem|;
    assert s[n + 1..] == ext;
    assert s[n] == c;
    assert s[..n] == stem;
  }

  /** Different (category, file) pairs never resolve to the same path as long
      as category keys hold no '/'; in particular, files of two categories
      never share a path. */
  lemma ResolvePathInjective(k1: string, n1: string, k2: string, n2: string)
    requires '/' !in k1 && '/' !in k2
    ensures ResolvePath(k1, n1) == ResolvePath(k2, n2) ==> k1 == k2 && n1 == n2
  {
    if ResolvePath(k1, n1) == ResolvePath(k2, n2) {
      var p := ResolvePath(k1, n1);
      var d := |DevPath|;
      assert p == DevPath + (k1 + "/" + n1) == DevPath + (k2 + "/" + n2);
      var q := p[d..];
      assert q == k1 + "/" + n1 == k2 + "/" + n2;
      FirstSlashAfter(k1, n1);
      FirstSlashAfter(k2, n2);
      assert k1 == q[..|k1|] == k2;
      assert n1 == q[|k1| + 1..] == n2;
    }
  }

  /** Index of the first '/' in `s`, or |s| when there is none. */
  function FirstSlash(s: string): nat {
    if s == [] || s[0] == '/' then 0 else 1 + FirstSlash(s[1..])
  }

  /** The first '/' of `a + "/" + x` is the one after `a` when `a` has none. */
  lemma {:induction false} FirstSlashAfter(a: string, x: string)
    requires '/' !in a
    ensures FirstSlash(a + "/" + x) == |a|
  {
    if a != [] {
      assert a[0] in a;
      assert (a + "/" + x)[1..] == a[1..] + "/" + x;
      FirstSlashAfter(a[1..], x);
    }
  }
}
