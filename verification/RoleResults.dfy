/** What the layered role loader (codex-rs/agent-roles/src/loader.rs) comes to, role by role. */
module RoleResults {
  import opened JsonValue
  import opened Listing
  import opened AgentRoles

  // ---------------------------------------------------------------- one role across the layers

  /** The definition a layer accepts for a name. */
  function Definition(fs: Files, layer: Layer, name: string): Option<Role>
    requires Lists(fs)
  {
    var l := LayerRoles(fs, layer);
    if l.Ok? && name in l.value.roles then Some(l.value.roles[name]) else None
  }

  function Definitions(fs: Files, layers: seq<Layer>, name: string): (r: seq<Option<Role>>)
    requires Lists(fs)
    ensures |r| == |layers|
    ensures forall i | 0 <= i < |r| :: r[i] == Definition(fs, layers[i], name)
  {
    seq(|layers|, i requires 0 <= i < |layers| => Definition(fs, layers[i], name))
  }

  predicate Described(def: Option<Role>) {
    def.Some? && def.value.description.Some?
  }

  /** The position of the first definition with a description, or the number of definitions. */
  function FirstDescribed(defs: seq<Option<Role>>): (k: nat)
    ensures k <= |defs| && (k < |defs| ==> Described(defs[k]))
    ensures forall i | 0 <= i < k :: !Described(defs[i])
  {
    if defs == [] then 0 else if Described(defs[0]) then 0 else 1 + FirstDescribed(defs[1..])
  }

  datatype Field = Description | ConfigFile | Nicknames

  /** Whether a definition sets a field. */
  predicate Sets(def: Option<Role>, field: Field) {
    def.Some? &&
    match field
    case Description => def.value.description.Some?
    case ConfigFile => def.value.configFile.Some?
    case Nicknames => def.value.nicknames.Some?
  }

  /** The two roles agree on a field. */
  predicate SameField(a: Role, b: Role, field: Field) {
    match field
    case Description => a.description == b.description
    case ConfigFile => a.configFile == b.configFile
    case Nicknames => a.nicknames == b.nicknames
  }

  predicate Unset(a: Role, field: Field) {
    match field
    case Description => a.description.None?
    case ConfigFile => a.configFile.None?
    case Nicknames => a.nicknames.None?
  }

  /**
   What the role must be: absent if nothing describes it; otherwise each field has the value of
   the last definition, from the first described one on, that sets it.
   */
  ghost predicate Resolves(defs: seq<Option<Role>>, role: Option<Role>) {
    var k := FirstDescribed(defs);
    if k == |defs| then role.None?
    else role.Some? && forall field :: FieldResolved(defs, k, role.value, field)
  }

  ghost predicate FieldResolved(defs: seq<Option<Role>>, k: nat, role: Role, field: Field) {
    (Unset(role, field) && forall i | k <= i < |defs| :: !Sets(defs[i], field))
    || exists i: nat :: LastSetter(defs, k, i, field) && SameField(role, defs[i].value, field)
  }

  ghost predicate LastSetter(defs: seq<Option<Role>>, k: nat, i: nat, field: Field) {
    k <= i < |defs| && Sets(defs[i], field) && forall j | i < j < |defs| :: !Sets(defs[j], field)
  }

  /** The role after one more layer. */
  function Next(role: Option<Role>, def: Option<Role>): Option<Role> {
    if def.None? then role
    else
      var merged := if role.Some? then Merge(def.value, role.value) else def.value;
      if merged.description.None? then role else Some(merged)
  }

  lemma {:induction false} FirstDescribedExtends(defs: seq<Option<Role>>, def: Option<Role>)
    ensures FirstDescribed(defs + [def]) ==
      if FirstDescribed(defs) < |defs| then FirstDescribed(defs)
      else if Described(def) then |defs| else |defs| + 1
  {
    var all := defs + [def];
    if defs == [] {
      assert all[1..] == [];
    } else if !Described(defs[0]) {
      FirstDescribedExtends(defs[1..], def);
      assert all[1..] == defs[1..] + [def];
    }
  }

  lemma ResolvesDescribed(defs: seq<Option<Role>>, role: Role)
    requires Resolves(defs, Some(role))
    ensures role.description.Some?
  {
    var k := FirstDescribed(defs);
    assert FieldResolved(defs, k, role, Description);
    assert Sets(defs[k], Description);
  }

  lemma NextResolves(defs: seq<Option<Role>>, role: Option<Role>, def: Option<Role>)
    requires Resolves(defs, role)
    ensures Resolves(defs + [def], Next(role, def))
  {
    FirstDescribedExtends(defs, def);
    var all := defs + [def];
    var k := FirstDescribed(all);
    if role.Some? {
      ResolvesDescribed(defs, role.value);
      forall field ensures FieldResolved(all, k, Next(role, def).value, field) {
        assert FieldResolved(defs, k, role.value, field);
        FieldNext(defs, k, role.value, def, field);
      }
    } else if Described(def) {
      forall field ensures FieldResolved(all, k, def.value, field) {
        if Sets(def, field) {
          assert LastSetter(all, k, |defs|, field);
        }
      }
    }
  }

  lemma FieldNext(defs: seq<Option<Role>>, k: nat, role: Role, def: Option<Role>, field: Field)
    requires k < |defs| && FieldResolved(defs, k, role, field) && role.description.Some?
    ensures FieldResolved(defs + [def], k, Next(Some(role), def).value, field)
  {
    var all := defs + [def];
    assert forall i | 0 <= i < |defs| :: all[i] == defs[i];
    var next := Next(Some(role), def).value;
    if Sets(def, field) {
      assert LastSetter(all, k, |defs|, field) && SameField(next, def.value, field);
    } else if i: nat :| LastSetter(defs, k, i, field) && SameField(role, defs[i].value, field) {
      assert LastSetter(all, k, i, field) && SameField(next, all[i].value, field);
    }
  }

  // ---------------------------------------------------------------- the merge loop

  function Lookup(roles: Roles, name: string): Option<Role> {
    if name in roles then Some(roles[name]) else None
  }

  /** How often a role has been reported as lacking a description. */
  function Undescribed(d: Found, name: string): nat {
    multiset(d.warnings)[NoDescription(name)]
  }

  /** One layer changes each role it names once, whatever the order of the names. */
  lemma {:induction false} MergeNamesPerName(d: Found, layer: Roles, names: seq<string>, name: string)
    requires (forall n | n in names :: n in layer) && Distinct(names)
    ensures
      var r := MergeNames(d, layer, names);
      var was, def := Lookup(d.roles, name), if name in names then Some(layer[name]) else None;
      Lookup(r.roles, name) == Next(was, def)
      && Undescribed(r, name) == Undescribed(d, name) + if def.Some? && !Described(Next(was, def)) then 1 else 0
    decreases |names|
  {
    if names != [] {
      var front, last := names[..|names| - 1], names[|names| - 1];
      MergeNamesPerName(d, layer, front, name);
      assert names == front + [last];
    }
  }

  // ---------------------------------------------------------------- warnings of a layer

  /** Reading a layer never reports a missing description: that is judged after merging. */
  lemma LayerReportsNoDescription(fs: Files, layer: Layer, name: string)
    requires Lists(fs) && LayerRoles(fs, layer).Ok?
    ensures NoDescription(name) !in LayerRoles(fs, layer).value.warnings
  {
    var declared := DeclaredIn(fs, layer);
    if layer.agents.Ok? && layer.agents.value.Some? {
      DeclareReportsNoDescription(fs, layer.agents.value.value, name);
    }
    if layer.folder.Some? {
      var paths := layer.folder.value.value;
      DiscoverReportsNoDescription(fs, declared.files, paths, name);
      var found := Discover(fs, declared.files, paths);
      AddFoundReportsNoDescription(
        Found(declared.roles, declared.warnings + found.warnings), found.roles, fs.keys(found.roles.Keys), name);
    }
  }

  lemma {:induction false} DeclareReportsNoDescription(fs: Files, entries: seq<Entry>, name: string)
    ensures NoDescription(name) !in Declare(fs, entries).warnings
  {
    if entries != [] {
      DeclareReportsNoDescription(fs, entries[..|entries| - 1], name);
    }
  }

  lemma {:induction false} DiscoverReportsNoDescription(
      fs: Files, declared: set<string>, paths: seq<string>, name: string)
    ensures NoDescription(name) !in Discover(fs, declared, paths).warnings
  {
    if paths != [] {
      DiscoverReportsNoDescription(fs, declared, paths[..|paths| - 1], name);
    }
  }

  lemma {:induction false} AddFoundReportsNoDescription(base: Found, found: Roles, names: seq<string>, name: string)
    requires forall n | n in names :: n in found
    requires NoDescription(name) !in base.warnings
    ensures NoDescription(name) !in AddFound(base, found, names).warnings
  {
    if names != [] {
      AddFoundReportsNoDescription(base, found, names[..|names| - 1], name);
    }
  }

  // ---------------------------------------------------------------- all layers

  /** The number of definitions that come before the first described one. */
  function Dropped(defs: seq<Option<Role>>): nat {
    if defs == [] || Described(defs[0]) then 0
    else (if defs[0].Some? then 1 else 0) + Dropped(defs[1..])
  }

  lemma {:induction false} DroppedExtends(defs: seq<Option<Role>>, def: Option<Role>)
    ensures Dropped(defs + [def]) == Dropped(defs)
      + if FirstDescribed(defs) == |defs| && def.Some? && !Described(def) then 1 else 0
  {
    var all := defs + [def];
    if defs == [] {
      assert all[1..] == [];
    } else if !Described(defs[0]) {
      DroppedExtends(defs[1..], def);
      assert all[1..] == defs[1..] + [def];
    }
  }

  /** Adding a layer, seen from one role. */
  lemma AddLayerPerName(fs: Files, d: Found, layer: Layer, name: string)
    requires Lists(fs) && AddLayer(fs, d, layer).Ok?
    ensures
      var r, was, def := AddLayer(fs, d, layer).value, Lookup(d.roles, name), Definition(fs, layer, name);
      Lookup(r.roles, name) == Next(was, def)
      && Undescribed(r, name) == Undescribed(d, name) + if def.Some? && !Described(Next(was, def)) then 1 else 0
  {
    hide LayerRoles, MergeNames, Next;
    var l := LayerRoles(fs, layer).value;
    LayerReportsNoDescription(fs, layer, name);
    MergeNamesPerName(d.(warnings := d.warnings + l.warnings), l.roles, fs.keys(l.roles.Keys), name);
  }

  /**
   Every run of the loader: each role is resolved from its definitions in all the layers, and
   each definition that precedes the first description is reported exactly once.
   */
  lemma {:induction false} RolesResolve(fs: Files, layers: seq<Layer>, name: string)
    requires Lists(fs) && Load(fs, layers).Ok?
    ensures Resolves(Definitions(fs, layers, name), Lookup(Load(fs, layers).value.roles, name))
    ensures Undescribed(Load(fs, layers).value, name) == Dropped(Definitions(fs, layers, name))
  {
    hide AddLayer, Definition;
    var defs := Definitions(fs, layers, name);
    if layers != [] {
      var front, last := layers[..|layers| - 1], layers[|layers| - 1];
      RolesResolve(fs, front, name);
      var before, def := Definitions(fs, front, name), Definition(fs, last, name);
      assert defs == before + [def];
      var d := Load(fs, front).value;
      AddLayerPerName(fs, d, last, name);
      NextResolves(before, Lookup(d.roles, name), def);
      DroppedExtends(before, def);
      DescribedNext(before, Lookup(d.roles, name), def);
    }
  }

  lemma DescribedNext(defs: seq<Option<Role>>, role: Option<Role>, def: Option<Role>)
    requires Resolves(defs, role)
    ensures def.Some? ==> (!Described(Next(role, def)) <==> FirstDescribed(defs) == |defs| && !Described(def))
  {
    if role.Some? {
      ResolvesDescribed(defs, role.value);
    }
  }

  /** A role exists exactly if some layer's definition of it has a description. */
  lemma RoleExistsIff(fs: Files, layers: seq<Layer>, name: string)
    requires Lists(fs) && Load(fs, layers).Ok?
    ensures name in Load(fs, layers).value.roles
       <==> exists i :: 0 <= i < |layers| && Described(Definition(fs, layers[i], name))
  {
    hide Load, LayerRoles, Definition;
    RolesResolve(fs, layers, name);
    var defs := Definitions(fs, layers, name);
    var k := FirstDescribed(defs);
    if k < |defs| {
      assert Described(Definition(fs, layers[k], name));
    }
  }

  /** The only failure of the layered loader is a folder that cannot be listed. */
  lemma {:induction false} LoadFailsIff(fs: Files, layers: seq<Layer>)
    requires Lists(fs)
    ensures Load(fs, layers).Raise? <==> exists i :: 0 <= i < |layers| && layers[i].folder == Some(Raise)
  {
    if layers != [] {
      var n := |layers| - 1;
      LoadFailsIff(fs, layers[..n]);
      assert LayerRoles(fs, layers[n]).Raise? <==> layers[n].folder == Some(Raise);
      if i :| 0 <= i < n && layers[..n][i].folder == Some(Raise) {
        assert layers[i].folder == Some(Raise);
      }
      if i :| 0 <= i < |layers| && layers[i].folder == Some(Raise) && i < n {
        assert layers[..n][i].folder == Some(Raise);
      }
    }
  }
}
