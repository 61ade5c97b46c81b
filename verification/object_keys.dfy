/** The entry table as the configuration actually holds it: a plain object
    literal `{}`, looked up with `entries[name]` and tested for truthiness.
    Such an object inherits the properties of `Object.prototype`, all truthy
    and none of them an array, so an entry name that coincides with one of
    them takes the `push` branch on a value without `push` and throws a
    TypeError. The rest of the model uses the intended behaviour, a map with
    no inherited keys (`Entries.Add`). */
module ObjectKeys {
  import opened Naming
  import opened Entries

  /** Properties every `{}` inherits from `Object.prototype` in Node.js. */
  const InheritedKeys: set<string> := {
    "constructor", "hasOwnProperty", "isPrototypeOf", "propertyIsEnumerable",
    "toLocaleString", "toString", "valueOf", "__proto__",
    "__defineGetter__", "__defineSetter__", "__lookupGetter__", "__lookupSetter__"
  }

  /** The outcome of running the loop body on the object: the table so far,
      or the TypeError thrown by `entries[name].push`. */
  datatype Outcome = Built(entries: EntryTable) | PushNotAFunction(name: string)

  /** The loop body as written: `entries[name]` is truthy for an own list and
      for an inherited property alike. */
  function AddAsWritten(m: EntryTable, name: string, path: string): (r: Outcome)
    ensures r.Built? <==> name in m || name !in InheritedKeys
    ensures r.Built? ==> r.entries == Add(m, name, path)
    ensures r.PushNotAFunction? ==> r.name == name
  {
    if name in m then Built(m[name := m[name] + [path]])
    else if name in InheritedKeys then PushNotAFunction(name)
    else Built(m[name := [path]])
  }

  /** The loops as written, stopping at the first exception. The table is
      built exactly when no entry name is an inherited property, and then it
      is the table of the intended fold. */
  function BuildAsWritten(files: seq<Found>): (r: Outcome)
    ensures r.Built? <==> NamesOf(files) !! InheritedKeys
    ensures r.Built? ==> r.entries == Build(files)
  {
    if files == [] then Built(map[])
    else
      var init := files[..|files| - 1];
      var f := files[|files| - 1];
      assert files == init + [f];
      match BuildAsWritten(init)
      case PushNotAFunction(name) => PushNotAFunction(name)
      case Built(m) => AddAsWritten(m, f.Name(), f.Path())
  }

  /** A script named `constructor.js` stops the configuration with a
      TypeError, where the intended table has an entry `constructor`. */
  lemma ConstructorEntryThrows()
    ensures BuildAsWritten([Found("js", "js", "constructor.js")]) == PushNotAFunction("constructor")
    ensures Build([Found("js", "js", "constructor.js")])
         == map["constructor" := [ResolvePath("js", "constructor.js")]]
  {
    var f := Found("js", "js", "constructor.js");
    ConstructorName();
    assert [f][..0] == [];
  }

  /** `constructor.js` has entry name `constructor`. */
  lemma ConstructorName()
    ensures StripExtension("constructor.js", "js") == "constructor"
  {
    assert "constructor.js"[12..] == "js";
  }
}
