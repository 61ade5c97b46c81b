/** The entry-table builder of the bundler configuration: for each category of
    the fixed directory table, for each of its extensions, for each file glob
    returns, record the file under its entry name. The scan is flattened into
    one sequence of matched files in loop order, which the fold of `Entries`
    consumes. */
module Discovery {
  import opened Text
  import opened Glob
  import opened Naming
  import opened Entries

  /** A category directory and the extensions searched for in it. */
  datatype Category = Category(key: string, extensions: seq<string>)

  /** The table walked by `for (let key in directory)`: string keys of an
      object literal come out in insertion order. */
  const Directory: seq<Category> := [
    Category("js", ["js"]),
    Category("style", ["scss", "css"])
  ]

  /** What makes paths unique: category keys distinct and free of '/',
      extensions of a category distinct, free of '.' and of '/'. */
  predicate WellShaped(dir: seq<Category>) {
    && (forall i, j :: 0 <= i < j < |dir| ==> dir[i].key != dir[j].key)
    && (forall c :: c in dir ==> '/' !in c.key && Distinct(c.extensions))
    && (forall c, e :: c in dir && e in c.extensions ==> '.' !in e && '/' !in e)
  }

  /** The files one `glob.sync` call yields, as records. */
  function Records(key: string, ext: string, names: seq<string>): seq<Found> {
    seq(|names|, i requires 0 <= i < |names| => Found(key, ext, names[i]))
  }

  /** The inner `forEach` over the extensions of one category. */
  function ScanExtensions(listing: Listing, key: string, exts: seq<string>): seq<Found> {
    if exts == [] then []
    else
      var e := exts[|exts| - 1];
      ScanExtensions(listing, key, exts[..|exts| - 1]) + Records(key, e, Sync(listing, key, e))
  }

  /** The outer `for…in` over the categories. */
  function Scan(listing: Listing, dir: seq<Category>): seq<Found> {
    if dir == [] then []
    else
      var c := dir[|dir| - 1];
      Scan(listing, dir[..|dir| - 1]) + ScanExtensions(listing, c.key, c.extensions)
  }

  /** The inner loop yields a record exactly for each (extension, name) that
      glob lets through under the category directory. */
  lemma {:induction false} ScanExtensionsMembers(listing: Listing, key: string, exts: seq<string>)
    ensures forall f :: f in ScanExtensions(listing, key, exts) ==>
      f.key == key && f.extension in exts && f.fileName in Sync(listing, key, f.extension)
    ensures forall e, n :: e in exts && n in Sync(listing, key, e) ==>
      Found(key, e, n) in ScanExtensions(listing, key, exts)
  {
    if exts != [] {
      var init := exts[..|exts| - 1];
      var e := exts[|exts| - 1];
      assert exts == init + [e];
      ScanExtensionsMembers(listing, key, init);
      var names := Sync(listing, key, e);
      var here := Records(key, e, names);
      forall n | n in names
        ensures Found(key, e, n) in here
      {
        var i :| 0 <= i < |names| && names[i] == n;
        assert here[i] == Found(key, e, n);
      }
    }
  }

  /** The outer loop yields a record exactly for each category of the table,
      extension of that category and name glob lets through. */
  lemma {:induction false} ScanMembers(listing: Listing, dir: seq<Category>)
    ensures forall f :: f in Scan(listing, dir) ==>
      && (exists c :: c in dir && c.key == f.key && f.extension in c.extensions)
      && f.fileName in Sync(listing, f.key, f.extension)
    ensures forall c, e, n :: c in dir && e in c.extensions && n in Sync(listing, c.key, e) ==>
      Found(c.key, e, n) in Scan(listing, dir)
  {
    if dir != [] {
      var init := dir[..|dir| - 1];
      var c := dir[|dir| - 1];
      assert dir == init + [c];
      ScanMembers(listing, init);
      ScanExtensionsMembers(listing, c.key, c.extensions);
    }
  }

  /** The `entries` object handed to the bundler. */
  function EntriesOf(listing: Listing): EntryTable {
    Build(Scan(listing, Directory))
  }

  /** The fixed table has distinct, '/'-free keys and dot-free extensions. */
  lemma DirectoryWellShaped()
    ensures WellShaped(Directory)
  {
    assert "js"[0] != '/' && "js"[1] != '/';
    assert forall i :: 0 <= i < |"style"| ==> "style"[i] != '/';
  }

  /** The scan of the fixed table is the js results, then the scss results,
      then the css results. */
  lemma ScanOfDirectory(listing: Listing)
    ensures Scan(listing, Directory)
         == Records("js", "js", Sync(listing, "js", "js"))
          + Records("style", "scss", Sync(listing, "style", "scss"))
          + Records("style", "css", Sync(listing, "style", "css"))
  {
    var js := Category("js", ["js"]);
    var style := Category("style", ["scss", "css"]);
    assert Directory == [js] + [style];
    ScanSnoc(listing, [js], style);
    ScanOne(listing, js);
    ScanExtensionsOne(listing, "js", "js");
    ScanExtensionsTwo(listing, "style", "scss", "css");
  }

  /** One more category is one more run of the inner loops. */
  lemma ScanSnoc(listing: Listing, dir: seq<Category>, c: Category)
    ensures Scan(listing, dir + [c]) == Scan(listing, dir) + ScanExtensions(listing, c.key, c.extensions)
  {
    assert (dir + [c])[..|dir|] == dir;
  }

  /** A one-category table scans that category only. */
  lemma ScanOne(listing: Listing, c: Category)
    ensures Scan(listing, [c]) == ScanExtensions(listing, c.key, c.extensions)
  {
    assert [c][..0] == [];
  }

  /** A one-extension category yields one glob result. */
  lemma ScanExtensionsOne(listing: Listing, key: string, e: string)
    ensures ScanExtensions(listing, key, [e]) == Records(key, e, Sync(listing, key, e))
  {
    assert [e][..0] == [];
  }

  /** A two-extension category yields the first glob result, then the second. */
  lemma ScanExtensionsTwo(listing: Listing, key: string, e1: string, e2: string)
    ensures ScanExtensions(listing, key, [e1, e2])
         == Records(key, e1, Sync(listing, key, e1)) + Records(key, e2, Sync(listing, key, e2))
  {
    assert [e1, e2][..1] == [e1];
    ScanExtensionsOne(listing, key, e1);
  }

  /** The key set is exactly the set of stripped names of matched files, and
      no key holds an empty list. */
  lemma EntryKeys(listing: Listing, name: string)
    ensures name in EntriesOf(listing) <==>
      exists c, e, n :: c in Directory && e in c.extensions && n in Sync(listing, c.key, e)
                        && StripExtension(n, e) == name
    ensures name in EntriesOf(listing) ==> EntriesOf(listing)[name] != []
  {
    var files := Scan(listing, Directory);
    ScanMembers(listing, Directory);
    NamesOfMembers(files);
    if name in EntriesOf(listing) {
      var f :| f in files && f.Name() == name;
      var c :| c in Directory && c.key == f.key && f.extension in c.extensions;
      assert c in Directory && f.extension in c.extensions && f.fileName in Sync(listing, c.key, f.extension);
    }
    if exists c, e, n :: c in Directory && e in c.extensions && n in Sync(listing, c.key, e)
                         && StripExtension(n, e) == name {
      var c, e, n :| c in Directory && e in c.extensions && n in Sync(listing, c.key, e)
                     && StripExtension(n, e) == name;
      assert Found(c.key, e, n) in files;
    }
  }

  /** Concatenating two path-distinct scans whose paths do not meet keeps the
      paths distinct. */
  lemma DistinctConcat(a: seq<Found>, b: seq<Found>)
    requires DistinctPaths(a) && DistinctPaths(b)
    requires forall f, g :: f in a && g in b ==> f.Path() != g.Path()
    ensures DistinctPaths(a + b)
  {
    var s := a + b;
    forall i, j | 0 <= i < j < |s|
      ensures s[i].Path() != s[j].Path()
    {
      if j < |a| {
        assert s[i] == a[i] && s[j] == a[j];
      } else if i >= |a| {
        assert s[i] == b[i - |a|] && s[j] == b[j - |a|];
      } else {
        assert s[i] in a && s[j] in b;
      }
    }
  }

  /** One glob result resolves to distinct paths. */
  lemma RecordsDistinct(key: string, ext: string, names: seq<string>)
    requires '/' !in key && Distinct(names)
    ensures DistinctPaths(Records(key, ext, names))
  {
    var r := Records(key, ext, names);
    forall i, j | 0 <= i < j < |r|
      ensures r[i].Path() != r[j].Path()
    {
      ResolvePathInjective(key, names[i], key, names[j]);
    }
  }

  /** Within one category, the results of different extensions never share a
      file name, so all paths of the category are distinct. */
  lemma {:induction false} ScanExtensionsDistinct(listing: Listing, key: string, exts: seq<string>)
    requires WellFormed(listing)
    requires '/' !in key && Distinct(exts)
    requires forall e :: e in exts ==> '.' !in e
    ensures DistinctPaths(ScanExtensions(listing, key, exts))
  {
    if exts != [] {
      var init := exts[..|exts| - 1];
      var e := exts[|exts| - 1];
      assert exts == init + [e];
      assert e !in init by {
        forall i | 0 <= i < |init|
          ensures init[i] != e
        {
          assert exts[i] != exts[|exts| - 1];
        }
      }
      ScanExtensionsDistinct(listing, key, init);
      ScanExtensionsMembers(listing, key, init);
      var names := Sync(listing, key, e);
      RecordsDistinct(key, e, names);
      var here := Records(key, e, names);
      forall f, g | f in ScanExtensions(listing, key, init) && g in here
        ensures f.Path() != g.Path()
      {
        var i :| 0 <= i < |here| && here[i] == g;
        assert g.fileName == names[i] && g.extension == e;
        assert names[i] in names;
        ResolvePathInjective(key, f.fileName, key, g.fileName);
        DottedSuffixUnique(f.fileName, f.extension, e);
      }
      DistinctConcat(ScanExtensions(listing, key, init), here);
    }
  }

  /** On a well-formed listing, every matched file of a well-shaped table has
      its own path. */
  lemma {:induction false} ScanPathsDistinct(listing: Listing, dir: seq<Category>)
    requires WellFormed(listing)
    requires WellShaped(dir)
    ensures DistinctPaths(Scan(listing, dir))
  {
    if dir != [] {
      var init := dir[..|dir| - 1];
      var c := dir[|dir| - 1];
      assert dir == init + [c];
      assert WellShaped(init) by {
        forall i, j | 0 <= i < j < |init|
          ensures init[i].key != init[j].key
        {
          assert init[i] == dir[i] && init[j] == dir[j];
        }
      }
      ScanPathsDistinct(listing, init);
      ScanMembers(listing, init);
      ScanExtensionsMembers(listing, c.key, c.extensions);
      assert c in dir;
      ScanExtensionsDistinct(listing, c.key, c.extensions);
      forall f, g | f in Scan(listing, init) && g in ScanExtensions(listing, c.key, c.extensions)
        ensures f.Path() != g.Path()
      {
        var c' :| c' in init && c'.key == f.key && f.extension in c'.extensions;
        var i :| 0 <= i < |init| && init[i] == c';
        assert dir[i] == c' && dir[|dir| - 1] == c;
        assert c' in dir;
        ResolvePathInjective(f.key, f.fileName, g.key, g.fileName);
      }
      DistinctConcat(Scan(listing, init), ScanExtensions(listing, c.key, c.extensions));
    }
  }

  /** A file glob returns lands in the list of its own entry name, which is
      its relative name without the trailing "." + extension, exactly once,
      and in no other list. */
  lemma MatchedFileRecorded(listing: Listing, c: Category, e: string, n: string)
    requires WellFormed(listing)
    requires c in Directory && e in c.extensions && n in Sync(listing, c.key, e)
    ensures StripExtension(n, e) + "." + e == n
    ensures StripExtension(n, e) in EntriesOf(listing)
    ensures multiset(EntriesOf(listing)[StripExtension(n, e)])[ResolvePath(c.key, n)] == 1
    ensures forall name :: name in EntriesOf(listing) && name != StripExtension(n, e) ==>
      ResolvePath(c.key, n) !in EntriesOf(listing)[name]
  {
    var files := Scan(listing, Directory);
    ScanMembers(listing, Directory);
    assert Found(c.key, e, n) in files;
    var i :| 0 <= i < |files| && files[i] == Found(c.key, e, n);
    DirectoryWellShaped();
    ScanPathsDistinct(listing, Directory);
    EachFileOnce(files, i);
  }

  /** A file the ignore pattern matches contributes its path to no list. */
  lemma IgnoredFileContributesNothing(listing: Listing, key: string, n: string)
    requires '/' !in key
    requires Ignored(n)
    ensures forall name :: name in EntriesOf(listing) ==> ResolvePath(key, n) !in EntriesOf(listing)[name]
  {
    var files := Scan(listing, Directory);
    var p := ResolvePath(key, n);
    DirectoryWellShaped();
    ScanMembers(listing, Directory);
    forall f | f in files
      ensures f.Path() != p
    {
      var c :| c in Directory && c.key == f.key && f.extension in c.extensions;
      assert f.fileName != n;
      ResolvePathInjective(f.key, f.fileName, key, n);
    }
    forall name | name in EntriesOf(listing)
      ensures p !in EntriesOf(listing)[name]
    {
      BuildEntry(files, name);
      PathsNamedMembers(files, name);
    }
  }

  /** No entry name itself looks like a partial: `_partial.js` yields no
      entry `_partial`. */
  lemma NoEntryNameIsIgnored(listing: Listing)
    requires WellFormed(listing)
    ensures forall name :: name in EntriesOf(listing) ==> !Ignored(name)
    ensures "_partial" !in EntriesOf(listing)
  {
    var files := Scan(listing, Directory);
    DirectoryWellShaped();
    ScanMembers(listing, Directory);
    NamesOfMembers(files);
    forall name | name in EntriesOf(listing)
      ensures !Ignored(name)
    {
      var f :| f in files && f.Name() == name;
      var c :| c in Directory && c.key == f.key && f.extension in c.extensions;
      StrippedNotIgnored(f.fileName, f.extension);
    }
    PartialIsIgnored();
  }

  /** A name glob lets through keeps passing the ignore pattern once its
      extension is stripped. */
  lemma StrippedNotIgnored(n: string, ext: string)
    requires '/' !in ext && EndsWith(n, "." + ext) && !Ignored(n)
    ensures !Ignored(StripExtension(n, ext))
  {
    var name := StripExtension(n, ext);
    assert name + "." + ext == n;
    IgnoredWithExtension(name, ext);
  }

  /** `_partial` is itself a name the ignore pattern matches. */
  lemma PartialIsIgnored()
    ensures Ignored("_partial")
  {
    LastSegmentAppend([], "_partial");
    assert [] + "_partial" == "_partial";
  }

  /** Within a list, paths follow the loops: the js category's files first,
      then the style category's scss files, then its css files, each group in
      the order glob returned it. */
  lemma EntryOrder(listing: Listing, name: string)
    requires name in EntriesOf(listing)
    ensures EntriesOf(listing)[name]
         == PathsNamed(Records("js", "js", Sync(listing, "js", "js")), name)
          + PathsNamed(Records("style", "scss", Sync(listing, "style", "scss")), name)
          + PathsNamed(Records("style", "css", Sync(listing, "style", "css")), name)
  {
    var js := Records("js", "js", Sync(listing, "js", "js"));
    var scss := Records("style", "scss", Sync(listing, "style", "scss"));
    var css := Records("style", "css", Sync(listing, "style", "css"));
    ScanOfDirectory(listing);
    BuildIsReference(js + scss + css);
    PathsNamedAppend(js + scss, css, name);
    PathsNamedAppend(js, scss, name);
  }

  /** The lists together hold one path per file glob let through. */
  lemma TotalRecorded(listing: Listing)
    ensures TotalPaths(EntriesOf(listing))
         == |Sync(listing, "js", "js")| + |Sync(listing, "style", "scss")| + |Sync(listing, "style", "css")|
  {
    ScanOfDirectory(listing);
    BuildTotal(Scan(listing, Directory));
  }

  /** A missing style directory contributes nothing: every recorded path then
      lies under the js directory. */
  lemma MissingStyleDirectory(listing: Listing)
    requires ("style", "scss") !in listing && ("style", "css") !in listing
    ensures forall name, p :: name in EntriesOf(listing) && p in EntriesOf(listing)[name] ==>
      CategoryDir("js") <= p
  {
    var js := Records("js", "js", Sync(listing, "js", "js"));
    ScanOfDirectory(listing);
    assert Records("style", "scss", []) == [] && Records("style", "css", []) == [];
    assert Scan(listing, Directory) == js + [] + [];
    assert js + [] + [] == js;
    RecordsMembers("js", "js", Sync(listing, "js", "js"));
    forall name, p | name in EntriesOf(listing) && p in EntriesOf(listing)[name]
      ensures CategoryDir("js") <= p
    {
      BuildEntry(js, name);
      PathsNamedMembers(js, name);
    }
  }

  /** A one-name glob result is one record. */
  lemma RecordsSingle(key: string, ext: string, n: string)
    ensures Records(key, ext, [n]) == [Found(key, ext, n)]
  {
  }

  /** Every record of one glob result carries that call's key and extension. */
  lemma RecordsMembers(key: string, ext: string, names: seq<string>)
    ensures forall f :: f in Records(key, ext, names) ==>
      f.key == key && f.extension == ext && f.fileName in names
  {
    var r := Records(key, ext, names);
    forall f | f in r
      ensures f.key == key && f.extension == ext && f.fileName in names
    {
      var i :| 0 <= i < |r| && r[i] == f;
    }
  }

  /** The scenario of a script and a stylesheet sharing a base name, say
      `js/foo.js` and `style/foo.scss`: one entry `foo` bundling both, the
      script first. */
  lemma SharedNameScenario(stem: string)
    requires '/' !in stem && |stem| > 0 && stem[0] != '_'
    ensures EntriesOf(map[("js", "js") := [stem + ".js"], ("style", "scss") := [stem + ".scss"]])
         == map[stem := [CategoryDir("js") + stem + ".js", CategoryDir("style") + stem + ".scss"]]
  {
    var listing := map[("js", "js") := [stem + ".js"], ("style", "scss") := [stem + ".scss"]];
    var a := Found("js", "js", stem + ".js");
    var b := Found("style", "scss", stem + ".scss");
    SharedNameScan(listing, stem);
    ScenarioFiles(stem);
    BuildSameName(a, b);
  }

  /** The scenario's two files both have entry name `stem`. */
  lemma ScenarioFiles(stem: string)
    ensures Found("js", "js", stem + ".js").Name() == stem
    ensures Found("style", "scss", stem + ".scss").Name() == stem
    ensures Found("js", "js", stem + ".js").Path() == CategoryDir("js") + stem + ".js"
    ensures Found("style", "scss", stem + ".scss").Path() == CategoryDir("style") + stem + ".scss"
  {
    StripDotted(stem, ".js", "js") by { assert ".js" == "." + "js"; }
    StripDotted(stem, ".scss", "scss") by { assert ".scss" == "." + "scss"; }
  }

  /** The scan of the shared-name scenario: the script, then the stylesheet. */
  lemma SharedNameScan(listing: Listing, stem: string)
    requires '/' !in stem && |stem| > 0 && stem[0] != '_'
    requires listing == map[("js", "js") := [stem + ".js"], ("style", "scss") := [stem + ".scss"]]
    ensures Scan(listing, Directory)
         == [Found("js", "js", stem + ".js"), Found("style", "scss", stem + ".scss")]
  {
    NotIgnoredSuffixed(stem, ".js");
    NotIgnoredSuffixed(stem, ".scss");
    SingleSync(listing, "js", "js", stem + ".js");
    SingleSync(listing, "style", "scss", stem + ".scss");
    assert ("style", "css") !in listing;
    ScanOfTwo(listing, stem + ".js", stem + ".scss");
  }

  /** The scan when glob finds one script and one scss file. */
  lemma ScanOfTwo(listing: Listing, x: string, y: string)
    requires Sync(listing, "js", "js") == [x]
    requires Sync(listing, "style", "scss") == [y]
    requires Sync(listing, "style", "css") == []
    ensures Scan(listing, Directory) == [Found("js", "js", x), Found("style", "scss", y)]
  {
    ScanOfDirectory(listing);
    RecordsSingle("js", "js", x);
    RecordsSingle("style", "scss", y);
    assert Records("style", "css", []) == [];
  }

  /** A plain stem with a '/'-free suffix passes the ignore pattern. */
  lemma NotIgnoredSuffixed(stem: string, suffix: string)
    requires '/' !in stem && '/' !in suffix && |stem| > 0 && stem[0] != '_'
    ensures !Ignored(stem + suffix)
  {
    var s := stem + suffix;
    assert s[0] == stem[0];
    assert forall i :: 0 <= i < |s| ==> s[i] != '/' by {
      forall i | 0 <= i < |s|
        ensures s[i] != '/'
      {
        if i < |stem| {
          assert s[i] == stem[i];
        } else {
          assert s[i] == suffix[i - |stem|];
        }
      }
    }
    PlainNameNotIgnored(s);
  }

  /** Two files with the same entry name make one two-element list. */
  lemma BuildSameName(a: Found, b: Found)
    requires a.Name() == b.Name()
    ensures Build([a, b]) == map[a.Name() := [a.Path(), b.Path()]]
  {
    var n := a.Name();
    BuildSnoc([], a);
    assert [] + [a] == [a];
    assert Build([]) == map[];
    assert Build([a]) == map[n := [a.Path()]];
    BuildSnoc([a], b);
    assert [a] + [b] == [a, b];
    assert [a.Path()] + [b.Path()] == [a.Path(), b.Path()];
  }

  /** A one-name listing entry that the ignore pattern lets through comes back unchanged. */
  lemma SingleSync(listing: Listing, key: string, ext: string, n: string)
    requires (key, ext) in listing && listing[(key, ext)] == [n]
    requires !Ignored(n)
    ensures Sync(listing, key, ext) == [n]
  {
    assert [n][..0] == [];
  }

  /** One more file from glob is one more record. */
  lemma RecordsSnoc(key: string, ext: string, names: seq<string>, k: int)
    requires 0 <= k < |names|
    ensures Records(key, ext, names[..k + 1]) == Records(key, ext, names[..k]) + [Found(key, ext, names[k])]
  {
  }

  /** One more extension is one more glob result. */
  lemma ScanExtensionsSnoc(listing: Listing, key: string, exts: seq<string>, j: int)
    requires 0 <= j < |exts|
    ensures ScanExtensions(listing, key, exts[..j + 1])
         == ScanExtensions(listing, key, exts[..j]) + Records(key, exts[j], Sync(listing, key, exts[j]))
  {
    assert exts[..j + 1][..j] == exts[..j];
  }

  /** The body of the innermost loop performs one step of the fold. */
  lemma LoopStep(done: seq<Found>, key: string, ext: string, names: seq<string>, k: int)
    requires 0 <= k < |names|
    ensures Build(done + Records(key, ext, names[..k + 1]))
         == Add(Build(done + Records(key, ext, names[..k])),
                StripExtension(names[k], ext), ResolvePath(key, names[k]))
  {
    var f := Found(key, ext, names[k]);
    RecordsSnoc(key, ext, names, k);
    assert done + Records(key, ext, names[..k + 1]) == (done + Records(key, ext, names[..k])) + [f];
    BuildSnoc(done + Records(key, ext, names[..k]), f);
  }

  /** The `.map` callback over one glob result, run on a table already
      holding the files `done`: each file is pushed onto its entry's list. */
  method AddGlobResult(entries: EntryTable, ghost done: seq<Found>, key: string, extension: string,
                       names: seq<string>) returns (result: EntryTable)
    requires entries == Build(done)
    ensures result == Build(done + Records(key, extension, names))
  {
    result := entries;
    assert done + Records(key, extension, names[..0]) == done by {
      assert Records(key, extension, names[..0]) == [];
    }
    var k := 0;
    while k < |names|
      invariant 0 <= k <= |names|
      invariant result == Build(done + Records(key, extension, names[..k]))
    {
      var fileName := names[k];
      var fileNameExceptExt := StripExtension(fileName, extension);
      var filePath := ResolvePath(key, fileName);
      LoopStep(done, key, extension, names, k);
      if fileNameExceptExt in result {
        result := result[fileNameExceptExt := result[fileNameExceptExt] + [filePath]];
      } else {
        result := result[fileNameExceptExt := [filePath]];
      }
      k := k + 1;
    }
    assert names[..k] == names;
  }

  /** The `forEach` over the extensions of one category. */
  method AddCategory(entries: EntryTable, ghost done: seq<Found>, listing: Listing, key: string,
                     exts: seq<string>) returns (result: EntryTable)
    requires entries == Build(done)
    ensures result == Build(done + ScanExtensions(listing, key, exts))
  {
    result := entries;
    assert done + ScanExtensions(listing, key, exts[..0]) == done by {
      assert exts[..0] == [];
    }
    var j := 0;
    while j < |exts|
      invariant 0 <= j <= |exts|
      invariant result == Build(done + ScanExtensions(listing, key, exts[..j]))
    {
      var extension := exts[j];
      var names := Sync(listing, key, extension);
      ghost var soFar := ScanExtensions(listing, key, exts[..j]);
      result := AddGlobResult(result, done + soFar, key, extension, names);
      ghost var here := Records(key, extension, names);
      ScanExtensionsSnoc(listing, key, exts, j);
      assert ScanExtensions(listing, key, exts[..j + 1]) == soFar + here;
      AppendAssoc(done, soFar, here);
      j := j + 1;
    }
    assert exts[..j] == exts;
  }

  /** The nested loops of the configuration, run imperatively; they build the
      same table as the fold. */
  method BuildEntries(listing: Listing) returns (entries: EntryTable)
    ensures entries == EntriesOf(listing)
  {
    var directory := Directory;
    entries := map[];
    var i := 0;
    while i < |directory|
      invariant 0 <= i <= |directory|
      invariant entries == Build(Scan(listing, directory[..i]))
    {
      entries := AddCategory(entries, Scan(listing, directory[..i]), listing,
                             directory[i].key, directory[i].extensions);
      assert directory[..i + 1] == directory[..i] + [directory[i]];
      ScanSnoc(listing, directory[..i], directory[i]);
      i := i + 1;
    }
    assert directory[..i] == directory;
  }
}
