/** The entry table and the fold that fills it: each matched file appends its
    resolved path to the list of its entry name, creating the list on first
    use. */
module Entries {
  import opened Text
  import opened Naming

  /** Entry name to the ordered list of resolved file paths bundled under it. */
  type EntryTable = map<string, seq<string>>

  /** One file glob returned: the category key whose directory was scanned,
      the extension searched for, and the name relative to that directory. */
  datatype Found = Found(key: string, extension: string, fileName: string) {
    /** `fileNameExceptExt`, the entry the file belongs to. */
    function Name(): string {
      StripExtension(fileName, extension)
    }

    /** `filePath`, what is recorded in the entry's list. */
    function Path(): string {
      ResolvePath(key, fileName)
    }
  }

  /** The entry names of a sequence of matched files. */
  function NamesOf(files: seq<Found>): set<string> {
    if files == [] then {}
    else NamesOf(files[..|files| - 1]) + {files[|files| - 1].Name()}
  }

  /** A name is among the entry names exactly when some file strips to it. */
  lemma {:induction false} NamesOfMembers(files: seq<Found>)
    ensures forall name :: name in NamesOf(files) <==> exists f :: f in files && f.Name() == name
  {
    if files != [] {
      var init := files[..|files| - 1];
      var f := files[|files| - 1];
      assert files == init + [f];
      NamesOfMembers(init);
    }
  }

  /** One step of the loop body: push onto an existing list, or start a
      one-element list. */
  function Add(m: EntryTable, name: string, path: string): (r: EntryTable)
    ensures r.Keys == m.Keys + {name}
    ensures name in m ==> r[name] == m[name] + [path]
    ensures name !in m ==> r[name] == [path]
    ensures forall k :: k in m && k != name ==> r[k] == m[k]
  {
    if name in m then m[name := m[name] + [path]] else m[name := [path]]
  }

  /** The entry table after the loop body has run on `files` in order. */
  function Build(files: seq<Found>): (r: EntryTable)
    ensures r.Keys == NamesOf(files)
    ensures forall name :: name in r ==> r[name] != []
  {
    if files == [] then map[]
    else
      var init := files[..|files| - 1];
      var f := files[|files| - 1];
      Add(Build(init), f.Name(), f.Path())
  }

  /** One more matched file is one more loop step. */
  lemma BuildSnoc(files: seq<Found>, f: Found)
    ensures Build(files + [f]) == Add(Build(files), f.Name(), f.Path())
  {
    assert (files + [f])[..|files|] == files;
  }

  /** Reference definition of one list: the paths of the files whose entry
      name is `name`, in the order the files come. */
  function PathsNamed(files: seq<Found>, name: string): (r: seq<string>)
    ensures |r| <= |files|
    ensures r == [] <==> name !in NamesOf(files)
  {
    if files == [] then []
    else
      var init := files[..|files| - 1];
      var f := files[|files| - 1];
      assert files == init + [f];
      PathsNamed(init, name) + (if f.Name() == name then [f.Path()] else [])
  }

  /** A list holds exactly the paths of the files with that entry name. */
  lemma {:induction false} PathsNamedMembers(files: seq<Found>, name: string)
    ensures forall p :: p in PathsNamed(files, name) <==>
      exists f :: f in files && f.Name() == name && f.Path() == p
  {
    if files != [] {
      var init := files[..|files| - 1];
      var f := files[|files| - 1];
      assert files == init + [f];
      PathsNamedMembers(init, name);
    }
  }

  /** Reference definition of the whole table, with no fold in it. */
  function Reference(files: seq<Found>): EntryTable {
    map name | name in NamesOf(files) :: PathsNamed(files, name)
  }

  /** The fold builds exactly the reference table: every key is the name of
      some matched file, and its list is the ordered list of those files'
      paths. */
  lemma BuildIsReference(files: seq<Found>)
    ensures Build(files) == Reference(files)
  {
    forall name | name in Build(files)
      ensures Build(files)[name] == PathsNamed(files, name)
    {
      BuildEntry(files, name);
    }
  }

  /** One list of the fold is the reference list for its name. */
  lemma {:induction false} BuildEntry(files: seq<Found>, name: string)
    requires name in Build(files)
    ensures Build(files)[name] == PathsNamed(files, name)
  {
    var init := files[..|files| - 1];
    var f := files[|files| - 1];
    assert files == init + [f];
    var before := Build(init);
    assert Build(files) == Add(before, f.Name(), f.Path());
    assert PathsNamed(files, name)
        == PathsNamed(init, name) + (if f.Name() == name then [f.Path()] else []);
    if name in before {
      BuildEntry(init, name);
    } else {
      assert name !in NamesOf(init);
      assert PathsNamed(init, name) == [];
    }
  }

  /** Lists of a concatenation are the concatenated lists, so earlier files
      always stay ahead of later ones. */
  lemma {:induction false} PathsNamedAppend(a: seq<Found>, b: seq<Found>, name: string)
    ensures PathsNamed(a + b, name) == PathsNamed(a, name) + PathsNamed(b, name)
    decreases |b|
  {
    if b == [] {
      assert a + b == a;
    } else {
      var init := b[..|b| - 1];
      var f := b[|b| - 1];
      assert b == init + [f];
      assert a + b == (a + init) + [f];
      assert (a + b)[..|a + b| - 1] == a + init;
      var tail := if f.Name() == name then [f.Path()] else [];
      assert PathsNamed(a + b, name) == PathsNamed(a + init, name) + tail;
      assert PathsNamed(b, name) == PathsNamed(init, name) + tail;
      PathsNamedAppend(a, init, name);
      AppendAssoc(PathsNamed(a, name), PathsNamed(init, name), tail);
    }
  }

  /** No two files resolve to the same path. */
  ghost predicate DistinctPaths(files: seq<Found>) {
    forall i, j :: 0 <= i < j < |files| ==> files[i].Path() != files[j].Path()
  }

  /** True when some file of `files` has entry name `name` and path `p`. */
  ghost predicate Contributes(files: seq<Found>, name: string, p: string) {
    exists i :: 0 <= i < |files| && files[i].Name() == name && files[i].Path() == p
  }

  /** With distinct paths, a path occurs once in the list of the name of the
      file it came from and nowhere else. */
  lemma {:induction false} PathCount(files: seq<Found>, name: string, p: string)
    requires DistinctPaths(files)
    ensures multiset(PathsNamed(files, name))[p] == if Contributes(files, name, p) then 1 else 0
  {
    if files != [] {
      var init := files[..|files| - 1];
      var f := files[|files| - 1];
      assert files == init + [f];
      PathCount(init, name, p);
      if p == f.Path() {
        forall i | 0 <= i < |init|
          ensures init[i].Path() != p
        {
          assert files[i].Path() != files[|files| - 1].Path();
        }
        assert Contributes(files, name, p) <==> f.Name() == name;
      } else {
        if Contributes(files, name, p) {
          var i :| 0 <= i < |files| && files[i].Name() == name && files[i].Path() == p;
          assert i < |init|;
        }
        assert Contributes(files, name, p) <==> Contributes(init, name, p);
      }
    }
  }

  /** Every matched file's path is recorded exactly once, in the list of its
      own entry name, and in no other list. */
  lemma EachFileOnce(files: seq<Found>, i: int)
    requires DistinctPaths(files)
    requires 0 <= i < |files|
    ensures files[i].Name() in Build(files)
    ensures multiset(Build(files)[files[i].Name()])[files[i].Path()] == 1
    ensures forall name :: name in Build(files) && name != files[i].Name() ==> files[i].Path() !in Build(files)[name]
  {
    var f := files[i];
    assert f in files;
    BuildIsReference(files);
    PathCount(files, f.Name(), f.Path());
    forall name | name in Build(files) && name != f.Name()
      ensures f.Path() !in Build(files)[name]
    {
      PathCount(files, name, f.Path());
      forall j | 0 <= j < |files| && files[j].Name() == name
        ensures files[j].Path() != f.Path()
      {
        assert j != i;
        if i < j { } else { }
      }
    }
  }

  /** Number of paths over all lists of a table. */
  ghost function TotalPaths(m: EntryTable): nat
    decreases |m|
  {
    if m == map[] then 0
    else
      var k :| k in m;
      assert |m - {k}| < |m| by {
        assert (m - {k}).Keys == m.Keys - {k};
      }
      |m[k]| + TotalPaths(m - {k})
  }

  /** The total can be counted starting from any key. */
  lemma {:induction false} TotalPathsRemove(m: EntryTable, k: string)
    requires k in m
    ensures TotalPaths(m) == |m[k]| + TotalPaths(m - {k})
    decreases |m|
  {
    var k' :| k' in m && TotalPaths(m) == |m[k']| + TotalPaths(m - {k'});
    if k' != k {
      assert (m - {k'}).Keys == m.Keys - {k'};
      assert (m - {k}).Keys == m.Keys - {k};
      TotalPathsRemove(m - {k'}, k);
      TotalPathsRemove(m - {k}, k');
      assert m - {k'} - {k} == m - {k} - {k'};
    }
  }

  /** One loop step records exactly one more path. */
  lemma AddCountsOne(m: EntryTable, name: string, path: string)
    ensures TotalPaths(Add(m, name, path)) == TotalPaths(m) + 1
  {
    var r := Add(m, name, path);
    TotalPathsRemove(r, name);
    if name in m {
      TotalPathsRemove(m, name);
      assert r - {name} == m - {name};
    } else {
      assert r - {name} == m;
    }
  }

  /** The lists together hold as many paths as there were matched files. */
  lemma {:induction false} BuildTotal(files: seq<Found>)
    ensures TotalPaths(Build(files)) == |files|
  {
    if files != [] {
      var init := files[..|files| - 1];
      var f := files[|files| - 1];
      BuildTotal(init);
      AddCountsOne(Build(init), f.Name(), f.Path());
    }
  }
}
