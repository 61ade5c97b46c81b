/** The directory scan, taken as an input. One `glob.sync` call, for the
    files with a given extension at any depth under a category directory, is
    split into what the filesystem holds (a `Listing`) and the ignore
    pattern, which the model applies. */
module Glob {
  import opened Text

  /** For a (category key, extension) pair, the relative file names with that
      extension at any depth under the category directory, in discovery order
      and before the ignore pattern. An absent pair is a missing directory. */
  type Listing = map<(string, string), seq<string>>

  /** What a listing from glob can look like: no name twice in one result, and
      every name carrying the literal suffix "." + extension. */
  ghost predicate WellFormed(listing: Listing) {
    forall ke :: ke in listing ==>
      && Distinct(listing[ke])
      && forall n :: n in listing[ke] ==> EndsWith(n, "." + ke.1)
  }

  /** The ignore pattern: a path is ignored when its base name, at any
      depth, starts with '_'. */
  predicate Ignored(name: string) {
    var base := LastSegment(name);
    |base| > 0 && base[0] == '_'
  }

  /** The names of `names` that the ignore pattern lets through, in order. */
  function Unignored(names: seq<string>): (r: seq<string>)
    ensures forall n :: n in r <==> n in names && !Ignored(n)
    ensures |r| <= |names|
    ensures Distinct(names) ==> Distinct(r)
  {
    if names == [] then []
    else
      var init := names[..|names| - 1];
      var last := names[|names| - 1];
      assert names == init + [last];
      Unignored(init) + (if Ignored(last) then [] else [last])
  }

  /** Filtering keeps order: the kept names of a concatenation are the kept
      names of the first part followed by those of the second. */
  lemma {:induction false} UnignoredAppend(a: seq<string>, b: seq<string>)
    ensures Unignored(a + b) == Unignored(a) + Unignored(b)
    decreases |b|
  {
    if b == [] {
      assert a + b == a;
    } else {
      var init := b[..|b| - 1];
      var last := b[|b| - 1];
      assert b == init + [last];
      assert a + b == (a + init) + [last];
      assert (a + b)[..|a + b| - 1] == a + init;
      UnignoredAppend(a, init);
      var tail := if Ignored(last) then [] else [last];
      AppendAssoc(Unignored(a), Unignored(init), tail);
    }
  }

  /** The result of `glob.sync` for one category directory and extension. */
  function Sync(listing: Listing, key: string, ext: string): (r: seq<string>)
    ensures (key, ext) !in listing ==> r == []
    ensures forall n :: n in r <==> (key, ext) in listing && n in listing[(key, ext)] && !Ignored(n)
    ensures WellFormed(listing) ==> Distinct(r) && forall n :: n in r ==> EndsWith(n, "." + ext)
  {
    if (key, ext) in listing then Unignored(listing[(key, ext)]) else []
  }

  /** A file whose entry name would be ignored is ignored itself: putting a
      '/'-free extension back on a name does not change how its base name
      starts. */
  lemma IgnoredWithExtension(name: string, ext: string)
    requires '/' !in ext
    ensures Ignored(name) ==> Ignored(name + "." + ext)
  {
    var dotted := "." + ext;
    assert '/' !in dotted;
    assert name + "." + ext == name + dotted;
    LastSegmentAppend(name, dotted);
    var base := LastSegment(name);
    var full := LastSegment(name + dotted);
    assert full == base + dotted;
    if |base| > 0 {
      assert full[0] == base[0];
    }
  }

  /** A name with no '/' that does not start with '_' passes the ignore
      pattern. */
  lemma PlainNameNotIgnored(name: string)
    requires '/' !in name && |name| > 0 && name[0] != '_'
    ensures !Ignored(name)
  {
    LastSegmentAppend([], name);
    assert [] + name == name;
  }
}
