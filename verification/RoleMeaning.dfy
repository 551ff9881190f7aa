/**
 The role loader (codex-rs/agent-roles/src/loader.rs) read off its inputs: which role a layer
 defines, in terms of the settings and files it has, and the whole list of warnings.
 */
module RoleMeaning {
  import opened JsonValue
  import opened Listing
  import opened AgentRoles
  import opened RoleResults
  import opened RoleLayers

  // ---------------------------------------------------------------- one declaration

  /** What the role file says, if it says something, and the declaration's own setting otherwise. */
  predicate Prefers<T(==)>(result: Option<T>, file: Option<T>, own: Option<T>) {
    (file.Some? ==> result == file) && (file.None? ==> result == own)
  }

  /** The declaration stands for the role of that name. */
  predicate Declares(fs: Files, e: Entry, name: string, role: Role) {
    e.config.Ok? &&
    var own := e.config.value;
    role.configFile == own.configFile &&
    if own.configFile.None? then name == e.name && role == own
    else
      var file := fs.parse(own.configFile.value, Some(e.name));
      file.Ok? && name == file.value.name
      && Prefers(role.description, file.value.description, own.description)
      && Prefers(role.nicknames, file.value.nicknames, own.nicknames)
  }

  lemma DeclaresIff(fs: Files, e: Entry, name: string, role: Role)
    ensures ReadDeclared(fs, e) == Ok((name, role)) <==> Declares(fs, e, name, role)
  {
    var read := ReadDeclared(fs, e);
    if read.Ok? {
      assert Declares(fs, e, read.value.0, read.value.1);
    }
    if Declares(fs, e, name, role) {
      assert role == read.value.1;
    }
  }

  /** The declaration reads the file, also when another has taken its name. */
  ghost predicate Refers(fs: Files, e: Entry, path: string) {
    e.config.Ok? && e.config.value.configFile == Some(path) && exists name, role :: Declares(fs, e, name, role)
  }

  ghost predicate SomeRefers(fs: Files, entries: seq<Entry>, path: string) {
    exists i :: 0 <= i < |entries| && Refers(fs, entries[i], path)
  }

  lemma RefersIff(fs: Files, e: Entry, path: string)
    ensures Refers(fs, e, path) <==>
      (ReadDeclared(fs, e).Ok? && ReadDeclared(fs, e).value.1.configFile == Some(path))
  {
    hide ReadDeclared, Declares;
    var read := ReadDeclared(fs, e);
    if read.Ok? {
      DeclaresIff(fs, e, read.value.0, read.value.1);
      KeepsFile(fs, e, read.value.0, read.value.1);
    }
    if name, role :| Declares(fs, e, name, role) {
      DeclaresIff(fs, e, name, role);
    }
  }

  lemma KeepsFile(fs: Files, e: Entry, name: string, role: Role)
    requires Declares(fs, e, name, role)
    ensures e.config.Ok? && e.config.value.configFile == role.configFile
  {
  }

  lemma {:induction false} DeclaredFilesIff(fs: Files, entries: seq<Entry>, path: string)
    ensures path in Declare(fs, entries).files <==> SomeRefers(fs, entries, path)
  {
    hide ReadDeclared, Refers;
    if entries != [] {
      var n := |entries| - 1;
      DeclaredFilesIff(fs, entries[..n], path);
      RefersIff(fs, entries[n], path);
      assert SomeRefers(fs, entries, path)
        <==> SomeRefers(fs, entries[..n], path) || Refers(fs, entries[n], path) by
      {
        assert forall i | 0 <= i < n :: entries[..n][i] == entries[i];
      }
    }
  }

  // ---------------------------------------------------------------- the role a layer defines

  /** The first declaration of the name is this one. */
  ghost predicate FirstDeclares(fs: Files, entries: seq<Entry>, i: nat, name: string, role: Role) {
    i < |entries| && Declares(fs, entries[i], name, role)
    && forall j, other | 0 <= j < i :: !Declares(fs, entries[j], name, other)
  }

  ghost predicate NoneDeclares(fs: Files, entries: seq<Entry>, name: string) {
    forall i, other | 0 <= i < |entries| :: !Declares(fs, entries[i], name, other)
  }

  lemma ReadsIff(fs: Files, e: Entry, name: string)
    ensures Reads(fs, e, name) <==> exists role :: Declares(fs, e, name, role)
  {
    hide Declares, ReadDeclared;
    var read := ReadDeclared(fs, e);
    if read.Ok? {
      DeclaresIff(fs, e, read.value.0, read.value.1);
    }
    if role :| Declares(fs, e, name, role) {
      DeclaresIff(fs, e, name, role);
    }
  }

  lemma DeclaredRoleIff(fs: Files, entries: seq<Entry>, name: string, role: Role)
    ensures Lookup(Declare(fs, entries).roles, name) == Some(role)
       <==> exists i: nat :: FirstDeclares(fs, entries, i, name, role)
    ensures name !in Declare(fs, entries).roles <==> NoneDeclares(fs, entries, name)
  {
    hide Declare, Declares, ReadDeclared, EntryWarning;
    forall j | 0 <= j < |entries|
      ensures Reads(fs, entries[j], name) <==> exists r :: Declares(fs, entries[j], name, r)
    {
      ReadsIff(fs, entries[j], name);
    }
    DeclaredIff(fs, entries, name);
    if name in Declare(fs, entries).roles {
      var k := FirstDeclared(fs, entries, name);
      UnreportedIsRole(fs, entries, k);
      forall r ensures ReadDeclared(fs, entries[k]) == Ok((name, r)) <==> Declares(fs, entries[k], name, r) {
        DeclaresIff(fs, entries[k], name, r);
      }
      if Lookup(Declare(fs, entries).roles, name) == Some(role) {
        assert FirstDeclares(fs, entries, k, name, role);
      }
      if i: nat :| FirstDeclares(fs, entries, i, name, role) {
        assert i == k;
      }
    }
  }

  /** The file is one no declaration reads, and stands for the role of that name. */
  ghost predicate Provides(fs: Files, entries: seq<Entry>, path: string, name: string, role: Role) {
    !SomeRefers(fs, entries, path) &&
    var file := fs.parse(path, None);
    file.Ok? && file.value.name == name
    && role.description == file.value.description
    && role.configFile == Some(path)
    && role.nicknames == file.value.nicknames
  }

  ghost predicate FirstProvides(fs: Files, layer: Layer, i: nat, name: string, role: Role) {
    i < |Paths(layer)| && Provides(fs, Entries(layer), Paths(layer)[i], name, role)
    && forall j, other | 0 <= j < i :: !Provides(fs, Entries(layer), Paths(layer)[j], name, other)
  }

  lemma {:induction false} FoundRoleIff(fs: Files, declared: set<string>, paths: seq<string>, name: string, role: Role)
    ensures Lookup(Discover(fs, declared, paths).roles, name) == Some(role)
       <==> exists i: nat :: FirstFound(fs, declared, paths, i, name, role)
  {
    if paths != [] {
      var n := |paths| - 1;
      var front := paths[..n];
      FoundRoleIff(fs, declared, front, name, role);
      FoundIff(fs, declared, front, name);
      assert forall i | 0 <= i < n :: front[i] == paths[i];
      if i: nat :| FirstFound(fs, declared, front, i, name, role) {
        assert FirstFound(fs, declared, paths, i, name, role);
      }
      if i: nat :| FirstFound(fs, declared, paths, i, name, role) && i < n {
        assert FirstFound(fs, declared, front, i, name, role);
      }
      if !SomeFileNamed(fs, declared, front, name) && IsFile(fs, declared, paths[n], name, role) {
        assert FirstFound(fs, declared, paths, n, name, role);
      }
    }
  }

  predicate IsFile(fs: Files, declared: set<string>, path: string, name: string, role: Role) {
    ReadsFile(fs, declared, path, name)
    && role == Role(fs.parse(path, None).value.description, Some(path), fs.parse(path, None).value.nicknames)
  }

  predicate FirstFound(fs: Files, declared: set<string>, paths: seq<string>, i: nat, name: string, role: Role) {
    i < |paths| && IsFile(fs, declared, paths[i], name, role) && !SomeFileNamed(fs, declared, paths[..i], name)
  }

  lemma ProvidesIff(fs: Files, layer: Layer, path: string, name: string, role: Role)
    ensures Provides(fs, Entries(layer), path, name, role)
       <==> IsFile(fs, Declare(fs, Entries(layer)).files, path, name, role)
  {
    hide Declare, SomeRefers;
    DeclaredFilesIff(fs, Entries(layer), path);
  }

  lemma FirstProvidesIff(fs: Files, layer: Layer, i: nat, name: string, role: Role)
    ensures FirstProvides(fs, layer, i, name, role)
       <==> FirstFound(fs, Declare(fs, Entries(layer)).files, Paths(layer), i, name, role)
  {
    hide Declare, Provides;
    var paths, declared := Paths(layer), Declare(fs, Entries(layer)).files;
    forall j, r | 0 <= j < |paths|
      ensures Provides(fs, Entries(layer), paths[j], name, r) <==> IsFile(fs, declared, paths[j], name, r)
    {
      ProvidesIff(fs, layer, paths[j], name, r);
    }
    if i < |paths| {
      forall j | 0 <= j < i && ReadsFile(fs, declared, paths[j], name)
        ensures exists r :: IsFile(fs, declared, paths[j], name, r)
      {
        var file := fs.parse(paths[j], None).value;
        assert IsFile(fs, declared, paths[j], name, Role(file.description, Some(paths[j]), file.nicknames));
      }
      assert forall j | 0 <= j < i :: paths[..i][j] == paths[j];
    }
  }

  /**
   The role a layer defines under a name is that of its first declaration of the name; without
   one, that of the first role file of the name that no declaration reads.
   */
  lemma DefinitionIff(fs: Files, layer: Layer, name: string, role: Role)
    requires Lists(fs) && LayerRoles(fs, layer).Ok?
    ensures Definition(fs, layer, name) == Some(role) <==>
      ((exists i: nat :: FirstDeclares(fs, Entries(layer), i, name, role))
       || (NoneDeclares(fs, Entries(layer), name) && exists i: nat :: FirstProvides(fs, layer, i, name, role)))
  {
    hide Definition, Declare, Discover, FirstDeclares, FirstProvides, NoneDeclares, FirstFound;
    var entries, paths := Entries(layer), Paths(layer);
    var declared := Declare(fs, entries);
    assert Definition(fs, layer, name)
        == Or(Lookup(declared.roles, name), Lookup(Discover(fs, declared.files, paths).roles, name)) by
    {
      hide LayerRoles, Lookup;
      LayerTakesFirst(fs, layer, name);
      DeclareTakesFirst(fs, entries, name);
      DiscoverTakesFirst(fs, declared.files, paths, name);
      FirstNamedJoin(Readable(fs, entries), ReadableFiles(fs, declared.files, paths), name);
    }
    DeclaredRoleIff(fs, entries, name, role);
    FoundRoleIff(fs, declared.files, paths, name, role);
    forall i: nat ensures FirstProvides(fs, layer, i, name, role)
      <==> FirstFound(fs, declared.files, paths, i, name, role)
    {
      FirstProvidesIff(fs, layer, i, name, role);
    }
  }

  // ---------------------------------------------------------------- every warning, in order

  /** Some of the layers describes the role. */
  predicate SomewhereDescribed(fs: Files, layers: seq<Layer>, name: string)
    requires Lists(fs)
  {
    exists i :: 0 <= i < |layers| && Described(Definition(fs, layers[i], name))
  }

  /** The names among those given that none of the layers describes. */
  function Lacking(fs: Files, layers: seq<Layer>, names: seq<string>): seq<Warning>
    requires Lists(fs)
  {
    if names == [] then []
    else
      var name := names[|names| - 1];
      Lacking(fs, layers, names[..|names| - 1])
        + if SomewhereDescribed(fs, layers, name) then [] else [NoDescription(name)]
  }

  /**
   All the warnings: layer by layer, what is wrong within the layer, and then each role it names
   that neither it nor a lower layer describes.
   */
  function Reported(fs: Files, layers: seq<Layer>): seq<Warning>
    requires Lists(fs) && forall layer | layer in layers :: LayerRoles(fs, layer).Ok?
  {
    if layers == [] then []
    else
      var last := layers[|layers| - 1];
      Reported(fs, layers[..|layers| - 1]) + LayerWarnings(fs, last)
        + Lacking(fs, layers, fs.keys(LayerRoles(fs, last).value.roles.Keys))
  }

  lemma {:induction false} MergeReports(
      fs: Files, layers: seq<Layer>, d: Found, layer: Roles, names: seq<string>)
    requires Lists(fs) && (forall name | name in names :: name in layer) && Distinct(names)
    requires forall name | name in names ::
      SomewhereDescribed(fs, layers, name) <==> Described(Next(Lookup(d.roles, name), Some(layer[name])))
    ensures MergeNames(d, layer, names).warnings == d.warnings + Lacking(fs, layers, names)
  {
    if names != [] {
      hide SomewhereDescribed, MergeNames, Lacking, Next;
      var front, last := names[..|names| - 1], names[|names| - 1];
      assert names == front + [last];
      assert last in names && last !in front;
      MergeReports(fs, layers, d, layer, front);
      MergeNamesPerName(d, layer, front, last);
      NextOfNothing(Lookup(d.roles, last));
      MergeReportsLast(d, layer, names);
      LackingLast(fs, layers, names);
    } else {
      assert MergeNames(d, layer, []).warnings == d.warnings + Lacking(fs, layers, []);
    }
  }

  lemma NextOfNothing(role: Option<Role>)
    ensures Next(role, None) == role
  {
  }

  lemma MergeOneReports(d: Found, name: string, role: Role)
    ensures MergeOne(d, name, role).warnings == d.warnings
      + if Described(Next(Lookup(d.roles, name), Some(role))) then [] else [NoDescription(name)]
  {
    if Described(Next(Lookup(d.roles, name), Some(role))) {
      assert d.warnings + [] == d.warnings;
    }
  }

  lemma MergeReportsLast(d: Found, layer: Roles, names: seq<string>)
    requires names != [] && forall name | name in names :: name in layer
    ensures
      var last, before := names[|names| - 1], MergeNames(d, layer, names[..|names| - 1]);
      MergeNames(d, layer, names).warnings == before.warnings
        + if Described(Next(Lookup(before.roles, last), Some(layer[last]))) then [] else [NoDescription(last)]
  {
    hide MergeNames;
    var last, before := names[|names| - 1], MergeNames(d, layer, names[..|names| - 1]);
    assert MergeNames(d, layer, names) == MergeOne(before, last, layer[last]) by { MergeNamesLast(d, layer, names); }
    MergeOneReports(before, last, layer[last]);
  }

  lemma MergeNamesLast(d: Found, layer: Roles, names: seq<string>)
    requires names != [] && forall name | name in names :: name in layer
    ensures
      var last := names[|names| - 1];
      MergeNames(d, layer, names) == MergeOne(MergeNames(d, layer, names[..|names| - 1]), last, layer[last])
  {
  }

  lemma LackingLast(fs: Files, layers: seq<Layer>, names: seq<string>)
    requires Lists(fs) && names != []
    ensures
      var last := names[|names| - 1];
      Lacking(fs, layers, names) == Lacking(fs, layers, names[..|names| - 1])
        + if SomewhereDescribed(fs, layers, last) then [] else [NoDescription(last)]
  {
  }

  lemma DescribedSoFar(fs: Files, layers: seq<Layer>, name: string)
    requires Lists(fs) && layers != [] && Load(fs, layers[..|layers| - 1]).Ok?
    requires Definition(fs, layers[|layers| - 1], name).Some?
    ensures SomewhereDescribed(fs, layers, name) <==>
      Described(Next(Lookup(Load(fs, layers[..|layers| - 1]).value.roles, name),
                     Definition(fs, layers[|layers| - 1], name)))
  {
    hide Load, Definition, Resolves;
    var n := |layers| - 1;
    var front, def := layers[..n], Definition(fs, layers[n], name);
    var role := Lookup(Load(fs, front).value.roles, name);
    RolesResolve(fs, front, name);
    DescribedNext(Definitions(fs, front, name), role, def);
    var defs := Definitions(fs, front, name);
    assert SomewhereDescribed(fs, layers, name) <==> FirstDescribed(defs) < n || Described(def) by {
      assert forall i | 0 <= i < n :: defs[i] == Definition(fs, layers[i], name);
      if FirstDescribed(defs) < n {
        assert Described(Definition(fs, layers[FirstDescribed(defs)], name));
      }
    }
  }

  /** The loader's warnings are exactly those, in that order. */
  lemma {:induction false} LoadReports(fs: Files, layers: seq<Layer>)
    requires Lists(fs) && Load(fs, layers).Ok?
    ensures forall layer | layer in layers :: LayerRoles(fs, layer).Ok?
    ensures Load(fs, layers).value.warnings == Reported(fs, layers)
  {
    if layers != [] {
      hide LayerRoles, MergeNames, LayerWarnings, Lacking, SomewhereDescribed, Next;
      var n := |layers| - 1;
      var front, last := layers[..n], layers[n];
      LoadReports(fs, front);
      assert layers == front + [last];
      var d, l := Load(fs, front).value, LayerRoles(fs, last).value;
      LayerReports(fs, last);
      var names := fs.keys(l.roles.Keys);
      forall name | name in names
        ensures SomewhereDescribed(fs, layers, name) <==> Described(Next(Lookup(d.roles, name), Some(l.roles[name])))
      {
        DescribedSoFar(fs, layers, name);
      }
      MergeReports(fs, layers, d.(warnings := d.warnings + l.warnings), l.roles, names);
    }
  }
}
