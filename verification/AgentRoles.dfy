/**
 Loading agent roles from a stack of configuration layers (codex-rs/agent-roles/src/loader.rs).
 Within a layer, declared roles come first and role files found in the layer's folder are
 added; across layers, from the lowest to the highest, a role inherits the fields it does not
 set, and a role that ends up without a description is dropped with a warning.

 Reading and validating a role file, validating a declaration and listing a folder are
 parameters; so is the order in which a sorted map yields its keys.
 */
module AgentRoles {
  import opened JsonValue
  import opened Listing

  datatype Role = Role(description: Option<string>, configFile: Option<string>, nicknames: Option<seq<string>>)

  /** A role file after parsing. */
  datatype RoleFile = RoleFile(name: string, description: Option<string>, nicknames: Option<seq<string>>)

  /** A declared role: its name and what its own settings come to, or the error in them. */
  datatype Entry = Entry(name: string, config: Outcome<Role>)

  /** A layer: its role declarations, if it has any and they parse, and the role files of its folder, if it has one. */
  datatype Layer = Layer(agents: Outcome<Option<seq<Entry>>>, folder: Option<Outcome<seq<string>>>)

  datatype Files = Files(
    parse: (string, Option<string>) -> Outcome<RoleFile>,
    keys: set<string> -> seq<string>)

  datatype Warning =
    | MalformedLayer | Unreadable(name: string) | DuplicateName(name: string)
    | UnreadableFile(path: string) | DuplicateFile(name: string) | NoDescription(name: string)

  type Roles = map<string, Role>

  function Or<T>(a: Option<T>, b: Option<T>): Option<T> {
    if a.Some? then a else b
  }

  /** The declaration with what its role file says, which takes precedence and may rename the role. */
  function ReadDeclared(fs: Files, e: Entry): Outcome<(string, Role)> {
    match e.config
    case Raise => Raise
    case Ok(role) =>
      if role.configFile.None? then Ok((e.name, role))
      else
        match fs.parse(role.configFile.value, Some(e.name))
        case Raise => Raise
        case Ok(file) =>
          Ok((file.name, role.(description := Or(file.description, role.description),
                               nicknames := Or(file.nicknames, role.nicknames))))
  }

  // ---------------------------------------------------------------- one layer

  datatype Declared = Declared(roles: Roles, files: set<string>, warnings: seq<Warning>)

  function DeclareOne(fs: Files, d: Declared, e: Entry): Declared {
    match ReadDeclared(fs, e)
    case Raise => d.(warnings := d.warnings + [Unreadable(e.name)])
    case Ok((name, role)) =>
      var t := d.(files := d.files + (if role.configFile.Some? then {role.configFile.value} else {}));
      if name in t.roles then t.(warnings := t.warnings + [DuplicateName(name)])
      else t.(roles := t.roles[name := role])
  }

  function Declare(fs: Files, entries: seq<Entry>): Declared {
    if entries == [] then Declared(map[], {}, [])
    else DeclareOne(fs, Declare(fs, entries[..|entries| - 1]), entries[|entries| - 1])
  }

  /** What the declarations of a layer come to. */
  function DeclaredIn(fs: Files, layer: Layer): Declared {
    if layer.agents.Raise? then Declared(map[], {}, [MalformedLayer])
    else if layer.agents.value.None? then Declared(map[], {}, [])
    else Declare(fs, layer.agents.value.value)
  }

  datatype Found = Found(roles: Roles, warnings: seq<Warning>)

  function DiscoverOne(fs: Files, declared: set<string>, d: Found, path: string): Found {
    if path in declared then d
    else
      match fs.parse(path, None)
      case Raise => d.(warnings := d.warnings + [UnreadableFile(path)])
      case Ok(file) =>
        if file.name in d.roles then d.(warnings := d.warnings + [DuplicateFile(file.name)])
        else d.(roles := d.roles[file.name := Role(file.description, Some(path), file.nicknames)])
  }

  function Discover(fs: Files, declared: set<string>, paths: seq<string>): Found {
    if paths == [] then Found(map[], [])
    else DiscoverOne(fs, declared, Discover(fs, declared, paths[..|paths| - 1]), paths[|paths| - 1])
  }

  /** Discovered roles join a layer unless their name is taken. */
  function AddFound(base: Found, found: Roles, names: seq<string>): Found
    requires forall name | name in names :: name in found
  {
    if names == [] then base
    else
      var name := names[|names| - 1];
      var d := AddFound(base, found, names[..|names| - 1]);
      if name in d.roles then d.(warnings := d.warnings + [DuplicateName(name)])
      else d.(roles := d.roles[name := found[name]])
  }

  /** `keys` lists the keys of a map, each once. */
  ghost predicate Lists(fs: Files) {
    (forall s: set<string>, name :: name in fs.keys(s) <==> name in s)
    && forall s: set<string> :: Distinct(fs.keys(s))
  }

  /** The roles one layer defines; only a folder that cannot be listed is an error. */
  function LayerRoles(fs: Files, layer: Layer): Outcome<Found>
    requires Lists(fs)
  {
    var declared := DeclaredIn(fs, layer);
    match layer.folder
    case None => Ok(Found(declared.roles, declared.warnings))
    case Some(Raise) => Raise
    case Some(Ok(paths)) =>
      var found := Discover(fs, declared.files, paths);
      Ok(AddFound(Found(declared.roles, declared.warnings + found.warnings), found.roles, fs.keys(found.roles.Keys)))
  }

  // ---------------------------------------------------------------- across layers

  /** The fields a role does not set are taken from the fallback. */
  function Merge(role: Role, fallback: Role): Role {
    Role(Or(role.description, fallback.description), Or(role.configFile, fallback.configFile),
         Or(role.nicknames, fallback.nicknames))
  }

  function Merged(roles: Roles, name: string, role: Role): Role {
    if name in roles then Merge(role, roles[name]) else role
  }

  function MergeOne(d: Found, name: string, role: Role): Found {
    var merged := Merged(d.roles, name, role);
    if merged.description.None? then d.(warnings := d.warnings + [NoDescription(name)])
    else d.(roles := d.roles[name := merged])
  }

  function MergeNames(d: Found, layer: Roles, names: seq<string>): Found
    requires forall name | name in names :: name in layer
  {
    if names == [] then d
    else
      var name := names[|names| - 1];
      MergeOne(MergeNames(d, layer, names[..|names| - 1]), name, layer[name])
  }

  function AddLayer(fs: Files, d: Found, layer: Layer): Outcome<Found>
    requires Lists(fs)
  {
    match LayerRoles(fs, layer)
    case Raise => Raise
    case Ok(l) => Ok(MergeNames(d.(warnings := d.warnings + l.warnings), l.roles, fs.keys(l.roles.Keys)))
  }

  /** All layers, from the lowest to the highest precedence. */
  function Load(fs: Files, layers: seq<Layer>): Outcome<Found>
    requires Lists(fs)
  {
    if layers == [] then Ok(Found(map[], []))
    else
      match Load(fs, layers[..|layers| - 1])
      case Raise => Raise
      case Ok(d) => AddLayer(fs, d, layers[|layers| - 1])
  }

  /** Without layers the configuration itself is read, and the first thing wrong with it is an error. */
  function LoadStrict(fs: Files, entries: seq<Entry>): Outcome<Roles> {
    if entries == [] then Ok(map[])
    else
      match LoadStrict(fs, entries[..|entries| - 1])
      case Raise => Raise
      case Ok(roles) =>
        match ReadDeclared(fs, entries[|entries| - 1])
        case Raise => Raise
        case Ok((name, role)) =>
          if role.description.None? || name in roles then Raise else Ok(roles[name := role])
  }

  // ---------------------------------------------------------------- the loops

  method LoadWithoutLayers(fs: Files, entries: seq<Entry>) returns (r: Outcome<Roles>)
    ensures r == LoadStrict(fs, entries)
  {
    var roles: Roles := map[];
    for i := 0 to |entries|
      invariant LoadStrict(fs, entries[..i]) == Ok(roles)
    {
      assert entries[..i + 1][..i] == entries[..i];
      var read := ReadDeclared(fs, entries[i]);
      if read.Raise? || read.value.1.description.None? || read.value.0 in roles {
        StrictRaisePersists(fs, entries, i + 1);
        return Raise;
      }
      roles := roles[read.value.0 := read.value.1];
    }
    assert entries[..|entries|] == entries;
    return Ok(roles);
  }

  lemma {:induction false} StrictRaisePersists(fs: Files, entries: seq<Entry>, n: nat)
    requires n <= |entries| && LoadStrict(fs, entries[..n]).Raise?
    ensures LoadStrict(fs, entries).Raise?
    decreases |entries| - n
  {
    if n == |entries| {
      assert entries[..n] == entries;
    } else {
      assert entries[..n + 1][..n] == entries[..n];
      StrictRaisePersists(fs, entries, n + 1);
    }
  }

  method DeclareRoles(fs: Files, entries: seq<Entry>) returns (d: Declared)
    ensures d == Declare(fs, entries)
  {
    var roles: Roles, files: set<string>, warnings: seq<Warning> := map[], {}, [];
    for i := 0 to |entries|
      invariant Declared(roles, files, warnings) == Declare(fs, entries[..i])
    {
      assert entries[..i + 1][..i] == entries[..i];
      var read := ReadDeclared(fs, entries[i]);
      if read.Raise? {
        warnings := warnings + [Unreadable(entries[i].name)];
        continue;
      }
      var (name, role) := read.value;
      if role.configFile.Some? {
        files := files + {role.configFile.value};
      }
      if name in roles {
        warnings := warnings + [DuplicateName(name)];
        continue;
      }
      roles := roles[name := role];
    }
    assert entries[..|entries|] == entries;
    d := Declared(roles, files, warnings);
  }

  method DiscoverRoles(fs: Files, declared: set<string>, paths: seq<string>) returns (d: Found)
    ensures d == Discover(fs, declared, paths)
  {
    var roles: Roles, warnings: seq<Warning> := map[], [];
    for i := 0 to |paths|
      invariant Found(roles, warnings) == Discover(fs, declared, paths[..i])
    {
      assert paths[..i + 1][..i] == paths[..i];
      if paths[i] in declared {
        continue;
      }
      var parsed := fs.parse(paths[i], None);
      if parsed.Raise? {
        warnings := warnings + [UnreadableFile(paths[i])];
        continue;
      }
      var file := parsed.value;
      if file.name in roles {
        warnings := warnings + [DuplicateFile(file.name)];
        continue;
      }
      roles := roles[file.name := Role(file.description, Some(paths[i]), file.nicknames)];
    }
    assert paths[..|paths|] == paths;
    d := Found(roles, warnings);
  }

  method LoadLayer(fs: Files, layer: Layer) returns (r: Outcome<Found>)
    requires Lists(fs)
    ensures r == LayerRoles(fs, layer)
  {
    var declared := Declared(map[], {}, []);
    if layer.agents.Raise? {
      declared := Declared(map[], {}, [MalformedLayer]);
    } else if layer.agents.value.Some? {
      declared := DeclareRoles(fs, layer.agents.value.value);
    }
    if layer.folder.None? {
      return Ok(Found(declared.roles, declared.warnings));
    }
    if layer.folder.value.Raise? {
      return Raise;
    }
    var found := DiscoverRoles(fs, declared.files, layer.folder.value.value);
    var roles, warnings := declared.roles, declared.warnings + found.warnings;
    var names := fs.keys(found.roles.Keys);
    for i := 0 to |names|
      invariant Found(roles, warnings)
        == AddFound(Found(declared.roles, declared.warnings + found.warnings), found.roles, names[..i])
    {
      assert names[..i + 1][..i] == names[..i];
      assert names[i] in names;
      if names[i] in roles {
        warnings := warnings + [DuplicateName(names[i])];
        continue;
      }
      roles := roles[names[i] := found.roles[names[i]]];
    }
    assert names[..|names|] == names;
    return Ok(Found(roles, warnings));
  }

  /** The entry point: with no layer at all the configuration itself is read strictly. */
  method LoadAgentRoles(fs: Files, configured: seq<Entry>, layers: seq<Layer>) returns (r: Outcome<Found>)
    requires Lists(fs)
    ensures layers != [] ==> r == Load(fs, layers)
    ensures layers == [] ==>
      r == (match LoadStrict(fs, configured) case Raise => Raise case Ok(roles) => Ok(Found(roles, [])))
  {
    if layers == [] {
      var strict := LoadWithoutLayers(fs, configured);
      return if strict.Raise? then Raise else Ok(Found(strict.value, []));
    }
    r := LoadLayers(fs, layers);
  }

  method LoadLayers(fs: Files, layers: seq<Layer>) returns (r: Outcome<Found>)
    requires Lists(fs)
    ensures r == Load(fs, layers)
  {
    var d := Found(map[], []);
    for i := 0 to |layers|
      invariant Load(fs, layers[..i]) == Ok(d)
    {
      assert layers[..i + 1][..i] == layers[..i];
      var layer := LoadLayer(fs, layers[i]);
      if layer.Raise? {
        RaisePersists(fs, layers, i + 1);
        return Raise;
      }
      d := MergeLayer(fs, d.(warnings := d.warnings + layer.value.warnings), layer.value.roles);
    }
    assert layers[..|layers|] == layers;
    return Ok(d);
  }

  method MergeLayer(fs: Files, d: Found, layer: Roles) returns (r: Found)
    requires Lists(fs)
    ensures r == MergeNames(d, layer, fs.keys(layer.Keys))
  {
    var roles, warnings := d.roles, d.warnings;
    var names := fs.keys(layer.Keys);
    for i := 0 to |names|
      invariant Found(roles, warnings) == MergeNames(d, layer, names[..i])
    {
      assert names[..i + 1][..i] == names[..i];
      assert names[i] in names;
      var merged := layer[names[i]];
      if names[i] in roles {
        merged := Merge(merged, roles[names[i]]);
      }
      if merged.description.None? {
        warnings := warnings + [NoDescription(names[i])];
        continue;
      }
      roles := roles[names[i] := merged];
    }
    assert names[..|names|] == names;
    r := Found(roles, warnings);
  }

  lemma {:induction false} RaisePersists(fs: Files, layers: seq<Layer>, n: nat)
    requires Lists(fs) && n <= |layers| && Load(fs, layers[..n]).Raise?
    ensures Load(fs, layers).Raise?
    decreases |layers| - n
  {
    if n == |layers| {
      assert layers[..n] == layers;
    } else {
      assert layers[..n + 1][..n] == layers[..n];
      RaisePersists(fs, layers, n + 1);
    }
  }
}
