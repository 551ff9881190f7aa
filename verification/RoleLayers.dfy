/** What one configuration layer contributes, and how the strict loader relates to the lenient one. */
module RoleLayers {
  import opened JsonValue
  import opened Listing
  import opened AgentRoles
  import opened RoleResults

  // ---------------------------------------------------------------- the first candidate wins

  type Candidate = (string, Role)

  /** The declarations that can be read, in order. */
  function Readable(fs: Files, entries: seq<Entry>): seq<Candidate> {
    if entries == [] then []
    else
      var read := ReadDeclared(fs, entries[|entries| - 1]);
      Readable(fs, entries[..|entries| - 1]) + if read.Ok? then [read.value] else []
  }

  /** The role files that can be read and were not named by a declaration, in order. */
  function ReadableFiles(fs: Files, declared: set<string>, paths: seq<string>): seq<Candidate> {
    if paths == [] then []
    else
      var path := paths[|paths| - 1];
      var parsed := fs.parse(path, None);
      ReadableFiles(fs, declared, paths[..|paths| - 1])
        + if path !in declared && parsed.Ok?
          then [(parsed.value.name, Role(parsed.value.description, Some(path), parsed.value.nicknames))] else []
  }

  function Entries(layer: Layer): seq<Entry> {
    if layer.agents.Ok? && layer.agents.value.Some? then layer.agents.value.value else []
  }

  function Paths(layer: Layer): seq<string> {
    if layer.folder.Some? && layer.folder.value.Ok? then layer.folder.value.value else []
  }

  function Candidates(fs: Files, layer: Layer): seq<Candidate> {
    Readable(fs, Entries(layer)) + ReadableFiles(fs, Declare(fs, Entries(layer)).files, Paths(layer))
  }

  function FirstNamed(all: seq<Candidate>, name: string): Option<Role> {
    if all == [] then None else if all[0].0 == name then Some(all[0].1) else FirstNamed(all[1..], name)
  }

  lemma {:induction false} FirstNamedJoin(a: seq<Candidate>, b: seq<Candidate>, name: string)
    ensures FirstNamed(a + b, name) == Or(FirstNamed(a, name), FirstNamed(b, name))
  {
    if a == [] {
      assert a + b == b;
    } else {
      FirstNamedJoin(a[1..], b, name);
      assert (a + b)[1..] == a[1..] + b;
    }
  }

  lemma {:induction false} DeclareTakesFirst(fs: Files, entries: seq<Entry>, name: string)
    ensures Lookup(Declare(fs, entries).roles, name) == FirstNamed(Readable(fs, entries), name)
  {
    if entries != [] {
      var front := entries[..|entries| - 1];
      var read := ReadDeclared(fs, entries[|entries| - 1]);
      DeclareTakesFirst(fs, front, name);
      FirstNamedJoin(Readable(fs, front), if read.Ok? then [read.value] else [], name);
    }
  }

  lemma {:induction false} DiscoverTakesFirst(fs: Files, declared: set<string>, paths: seq<string>, name: string)
    ensures Lookup(Discover(fs, declared, paths).roles, name) == FirstNamed(ReadableFiles(fs, declared, paths), name)
  {
    if paths != [] {
      var front := paths[..|paths| - 1];
      DiscoverTakesFirst(fs, declared, front, name);
      var before, now := ReadableFiles(fs, declared, front), ReadableFiles(fs, declared, paths);
      FirstNamedJoin(before, now[|before|..], name);
      assert now == before + now[|before|..];
    }
  }

  lemma {:induction false} AddFoundPerName(base: Found, found: Roles, names: seq<string>, name: string)
    requires (forall n | n in names :: n in found) && Distinct(names)
    ensures Lookup(AddFound(base, found, names).roles, name)
         == Or(Lookup(base.roles, name), if name in names then Some(found[name]) else None)
  {
    if names != [] {
      var front, last := names[..|names| - 1], names[|names| - 1];
      AddFoundPerName(base, found, front, name);
      assert names == front + [last];
    }
  }

  /**
   A layer's definition of a role is its first readable candidate of that name: declarations
   come before role files, and a file that a declaration refers to is no candidate.
   */
  lemma LayerTakesFirst(fs: Files, layer: Layer, name: string)
    requires Lists(fs) && LayerRoles(fs, layer).Ok?
    ensures Definition(fs, layer, name) == FirstNamed(Candidates(fs, layer), name)
  {
    hide Declare, Discover, AddFound, FirstNamed, Readable, ReadableFiles;
    var entries, paths := Entries(layer), Paths(layer);
    var declared := DeclaredIn(fs, layer);
    EmptyIsEmpty(fs, declared.files, name);
    DeclareTakesFirst(fs, entries, name);
    DiscoverTakesFirst(fs, declared.files, paths, name);
    FirstNamedJoin(Readable(fs, entries), ReadableFiles(fs, declared.files, paths), name);
    if layer.folder.Some? {
      var found := Discover(fs, declared.files, paths);
      AddFoundPerName(
        Found(declared.roles, declared.warnings + found.warnings), found.roles, fs.keys(found.roles.Keys), name);
    }
  }

  lemma EmptyIsEmpty(fs: Files, declared: set<string>, name: string)
    ensures Declare(fs, []) == Declared(map[], {}, [])
    ensures FirstNamed(Readable(fs, []), name) == None && FirstNamed(ReadableFiles(fs, declared, []), name) == None
  {
  }

  // ---------------------------------------------------------------- which entry gets which warning

  /** A declaration can be read and has the name. */
  predicate Reads(fs: Files, e: Entry, name: string) {
    ReadDeclared(fs, e).Ok? && ReadDeclared(fs, e).value.0 == name
  }

  /** Some declaration that can be read has the name. */
  predicate SomeNamed(fs: Files, entries: seq<Entry>, name: string) {
    exists j :: 0 <= j < |entries| && Reads(fs, entries[j], name)
  }

  /** What a declaration is reported for, if anything. */
  function EntryWarning(fs: Files, entries: seq<Entry>, i: nat): seq<Warning>
    requires i < |entries|
  {
    match ReadDeclared(fs, entries[i])
    case Raise => [Unreadable(entries[i].name)]
    case Ok((name, _)) => if SomeNamed(fs, entries[..i], name) then [DuplicateName(name)] else []
  }

  /** The reports on the first `n` declarations, in order. */
  function EntryWarnings(fs: Files, entries: seq<Entry>, n: nat): seq<Warning>
    requires n <= |entries|
  {
    if n == 0 then [] else EntryWarnings(fs, entries, n - 1) + EntryWarning(fs, entries, n - 1)
  }

  lemma {:induction false} EntryWarningsOfPrefix(fs: Files, entries: seq<Entry>, k: nat, n: nat)
    requires n <= k <= |entries|
    ensures EntryWarnings(fs, entries[..k], n) == EntryWarnings(fs, entries, n)
  {
    if n > 0 {
      EntryWarningsOfPrefix(fs, entries, k, n - 1);
      assert entries[..k][..n - 1] == entries[..n - 1];
    }
  }

  /** A name is taken exactly if an earlier readable declaration has it. */
  lemma {:induction false} DeclaredIff(fs: Files, entries: seq<Entry>, name: string)
    ensures name in Declare(fs, entries).roles <==> SomeNamed(fs, entries, name)
  {
    if entries != [] {
      var n := |entries| - 1;
      DeclaredIff(fs, entries[..n], name);
      assert SomeNamed(fs, entries, name)
        <==> SomeNamed(fs, entries[..n], name) || Reads(fs, entries[n], name) by
      {
        assert forall j | 0 <= j < n :: entries[..n][j] == entries[j];
      }
    }
  }

  /** Each declaration is reported for what is wrong with it and for nothing else, in the order of the declarations. */
  lemma {:induction false} DeclareReports(fs: Files, entries: seq<Entry>)
    ensures Declare(fs, entries).warnings == EntryWarnings(fs, entries, |entries|)
  {
    if entries != [] {
      var n := |entries| - 1;
      DeclareReports(fs, entries[..n]);
      EntryWarningsOfPrefix(fs, entries, n, n);
      var read := ReadDeclared(fs, entries[n]);
      if read.Ok? {
        DeclaredIff(fs, entries[..n], read.value.0);
      }
    }
  }

  /** A declaration that is not reported is the layer's role of its name. */
  lemma UnreportedIsRole(fs: Files, entries: seq<Entry>, i: nat)
    requires i < |entries| && EntryWarning(fs, entries, i) == []
    ensures
      var (name, role) := ReadDeclared(fs, entries[i]).value;
      Lookup(Declare(fs, entries).roles, name) == Some(role)
  {
    var (name, role) := ReadDeclared(fs, entries[i]).value;
    DeclaredIff(fs, entries[..i], name);
    assert entries[..i + 1][..i] == entries[..i];
    RoleStays(fs, entries, i + 1, name);
  }

  lemma {:induction false} RoleStays(fs: Files, entries: seq<Entry>, n: nat, name: string)
    requires n <= |entries| && name in Declare(fs, entries[..n]).roles
    ensures Lookup(Declare(fs, entries).roles, name) == Lookup(Declare(fs, entries[..n]).roles, name)
    decreases |entries| - n
  {
    if n == |entries| {
      assert entries[..n] == entries;
    } else {
      assert entries[..n + 1][..n] == entries[..n];
      RoleStays(fs, entries, n + 1, name);
    }
  }

  /** Every role of the declarations is that of one unreported declaration, and any other of that name is reported. */
  lemma RoleIsUnreported(fs: Files, entries: seq<Entry>, name: string) returns (i: nat)
    requires name in Declare(fs, entries).roles
    ensures i < |entries| && EntryWarning(fs, entries, i) == []
    ensures ReadDeclared(fs, entries[i]) == Ok((name, Declare(fs, entries).roles[name]))
    ensures forall j | 0 <= j < |entries| && j != i && Reads(fs, entries[j], name) ::
      EntryWarning(fs, entries, j) == [DuplicateName(name)]
  {
    i := FirstDeclared(fs, entries, name);
    UnreportedIsRole(fs, entries, i);
    forall j | 0 <= j < |entries| && j != i && Reads(fs, entries[j], name)
      ensures EntryWarning(fs, entries, j) == [DuplicateName(name)]
    {
      assert i < j && entries[..j][i] == entries[i];
    }
  }

  lemma {:induction false} FirstDeclared(fs: Files, entries: seq<Entry>, name: string) returns (i: nat)
    requires name in Declare(fs, entries).roles
    ensures i < |entries| && EntryWarning(fs, entries, i) == [] && Reads(fs, entries[i], name)
    ensures forall j | 0 <= j < i :: !Reads(fs, entries[j], name)
  {
    var n := |entries| - 1;
    DeclaredIff(fs, entries[..n], name);
    if name in Declare(fs, entries[..n]).roles {
      i := FirstDeclared(fs, entries[..n], name);
      assert entries[..n][..i] == entries[..i];
      assert forall j | 0 <= j < n :: entries[..n][j] == entries[j];
    } else {
      i := n;
      assert forall j | 0 <= j < n :: entries[..n][j] == entries[j];
    }
  }

  // ---------------------------------------------------------------- which role file gets which warning

  /** Some file that no declaration refers to can be read and has the name. */
  predicate SomeFileNamed(fs: Files, declared: set<string>, paths: seq<string>, name: string) {
    exists j :: 0 <= j < |paths| && ReadsFile(fs, declared, paths[j], name)
  }

  predicate ReadsFile(fs: Files, declared: set<string>, path: string, name: string) {
    path !in declared && fs.parse(path, None).Ok? && fs.parse(path, None).value.name == name
  }

  /** What a role file is reported for, if anything. */
  function FileWarning(fs: Files, declared: set<string>, paths: seq<string>, i: nat): seq<Warning>
    requires i < |paths|
  {
    if paths[i] in declared then []
    else
      match fs.parse(paths[i], None)
      case Raise => [UnreadableFile(paths[i])]
      case Ok(file) => if SomeFileNamed(fs, declared, paths[..i], file.name) then [DuplicateFile(file.name)] else []
  }

  /** The reports on the first `n` role files, in order. */
  function FileWarnings(fs: Files, declared: set<string>, paths: seq<string>, n: nat): seq<Warning>
    requires n <= |paths|
  {
    if n == 0 then [] else FileWarnings(fs, declared, paths, n - 1) + FileWarning(fs, declared, paths, n - 1)
  }

  lemma {:induction false} FileWarningsOfPrefix(fs: Files, declared: set<string>, paths: seq<string>, k: nat, n: nat)
    requires n <= k <= |paths|
    ensures FileWarnings(fs, declared, paths[..k], n) == FileWarnings(fs, declared, paths, n)
  {
    if n > 0 {
      FileWarningsOfPrefix(fs, declared, paths, k, n - 1);
      assert paths[..k][..n - 1] == paths[..n - 1];
    }
  }

  lemma {:induction false} FoundIff(fs: Files, declared: set<string>, paths: seq<string>, name: string)
    ensures name in Discover(fs, declared, paths).roles <==> SomeFileNamed(fs, declared, paths, name)
  {
    if paths != [] {
      var n := |paths| - 1;
      FoundIff(fs, declared, paths[..n], name);
      assert SomeFileNamed(fs, declared, paths, name)
        <==> SomeFileNamed(fs, declared, paths[..n], name) || ReadsFile(fs, declared, paths[n], name) by
      {
        assert forall j | 0 <= j < n :: paths[..n][j] == paths[j];
      }
    }
  }

  /** Each undeclared role file is reported for what is wrong with it and for nothing else, in order. */
  lemma {:induction false} DiscoverReports(fs: Files, declared: set<string>, paths: seq<string>)
    ensures Discover(fs, declared, paths).warnings == FileWarnings(fs, declared, paths, |paths|)
  {
    if paths != [] {
      var n := |paths| - 1;
      DiscoverReports(fs, declared, paths[..n]);
      FileWarningsOfPrefix(fs, declared, paths, n, n);
      var parsed := fs.parse(paths[n], None);
      if parsed.Ok? {
        FoundIff(fs, declared, paths[..n], parsed.value.name);
      }
    }
  }

  // ---------------------------------------------------------------- the whole layer

  /** The discovered roles whose name a declaration has taken. */
  function TakenWarnings(taken: Roles, names: seq<string>): seq<Warning> {
    if names == [] then []
    else
      var name := names[|names| - 1];
      TakenWarnings(taken, names[..|names| - 1]) + if name in taken then [DuplicateName(name)] else []
  }

  lemma {:induction false} AddFoundReports(base: Found, found: Roles, names: seq<string>)
    requires (forall n | n in names :: n in found) && Distinct(names)
    ensures AddFound(base, found, names).warnings == base.warnings + TakenWarnings(base.roles, names)
  {
    if names != [] {
      var front, last := names[..|names| - 1], names[|names| - 1];
      AddFoundReports(base, found, front);
      AddFoundPerName(base, found, front, last);
    }
  }

  /**
   The warnings of a layer, one by one: declarations that do not parse at all, then each
   declaration and each undeclared role file for what is wrong with it, then each discovered
   role whose name is declared.
   */
  function LayerWarnings(fs: Files, layer: Layer): seq<Warning>
    requires Lists(fs)
  {
    var entries, paths := Entries(layer), Paths(layer);
    var declared := Declare(fs, entries);
    var found := Discover(fs, declared.files, paths);
    (if layer.agents.Raise? then [MalformedLayer] else EntryWarnings(fs, entries, |entries|))
      + FileWarnings(fs, declared.files, paths, |paths|)
      + TakenWarnings(declared.roles, fs.keys(found.roles.Keys))
  }

  lemma LayerReports(fs: Files, layer: Layer)
    requires Lists(fs) && LayerRoles(fs, layer).Ok?
    ensures LayerRoles(fs, layer).value.warnings == LayerWarnings(fs, layer)
  {
    var entries, paths := Entries(layer), Paths(layer);
    var declared := DeclaredIn(fs, layer);
    DeclareReports(fs, entries);
    DiscoverReports(fs, declared.files, paths);
    var found := Discover(fs, declared.files, paths);
    var names := fs.keys(found.roles.Keys);
    AddFoundReports(Found(declared.roles, declared.warnings + found.warnings), found.roles, names);
    if layer.folder.None? {
      assert names == [];
    }
  }

  // ---------------------------------------------------------------- nothing is lost silently

  /** The role files no declaration refers to. */
  function Undeclared(declared: set<string>, paths: seq<string>): nat {
    if paths == [] then 0
    else Undeclared(declared, paths[..|paths| - 1]) + if paths[|paths| - 1] in declared then 0 else 1
  }

  lemma {:induction false} DeclareAccounts(fs: Files, entries: seq<Entry>)
    ensures var d := Declare(fs, entries); |d.roles| + |d.warnings| == |entries|
  {
    if entries != [] {
      DeclareAccounts(fs, entries[..|entries| - 1]);
    }
  }

  lemma {:induction false} DiscoverAccounts(fs: Files, declared: set<string>, paths: seq<string>)
    ensures var d := Discover(fs, declared, paths); |d.roles| + |d.warnings| == Undeclared(declared, paths)
  {
    if paths != [] {
      DiscoverAccounts(fs, declared, paths[..|paths| - 1]);
    }
  }

  lemma {:induction false} AddFoundAccounts(base: Found, found: Roles, names: seq<string>)
    requires forall n | n in names :: n in found
    ensures
      var d := AddFound(base, found, names);
      |d.roles| + |d.warnings| == |base.roles| + |base.warnings| + |names|
  {
    if names != [] {
      AddFoundAccounts(base, found, names[..|names| - 1]);
    }
  }

  lemma {:induction false} DistinctLength(names: seq<string>, s: set<string>)
    requires Distinct(names) && forall name :: name in names <==> name in s
    ensures |names| == |s|
  {
    if names == [] {
      assert s == {};
    } else {
      var front, last := names[..|names| - 1], names[|names| - 1];
      assert names == front + [last];
      assert last in names;
      DistinctLength(front, s - {last});
    }
  }

  /**
   Every declaration and every undeclared role file of a layer ends as one of its roles or as
   one warning; declarations that do not parse at all are one warning.
   */
  lemma LayerAccounts(fs: Files, layer: Layer)
    requires Lists(fs) && LayerRoles(fs, layer).Ok?
    ensures
      var l := LayerRoles(fs, layer).value;
      |l.roles| + |l.warnings|
        == |Entries(layer)| + (if layer.agents.Raise? then 1 else 0)
         + Undeclared(Declare(fs, Entries(layer)).files, Paths(layer))
  {
    var entries, paths := Entries(layer), Paths(layer);
    var declared := DeclaredIn(fs, layer);
    DeclareAccounts(fs, entries);
    DiscoverAccounts(fs, declared.files, paths);
    if layer.folder.Some? {
      var found := Discover(fs, declared.files, paths);
      var names := fs.keys(found.roles.Keys);
      AddFoundAccounts(Found(declared.roles, declared.warnings + found.warnings), found.roles, names);
      DistinctLength(names, found.roles.Keys);
    }
  }

  // ---------------------------------------------------------------- strict and lenient

  predicate AllDescribed(roles: Roles) {
    forall name | name in roles :: roles[name].description.Some?
  }

  lemma {:induction false} StrictIsCleanDeclare(fs: Files, entries: seq<Entry>)
    ensures
      var strict, d := LoadStrict(fs, entries), Declare(fs, entries);
      (strict.Ok? <==> d.warnings == [] && AllDescribed(d.roles)) && (strict.Ok? ==> strict.value == d.roles)
  {
    if entries != [] {
      var front, last := entries[..|entries| - 1], entries[|entries| - 1];
      StrictIsCleanDeclare(fs, front);
      DescribedStays(fs, front, last);
      var d, read := Declare(fs, front), ReadDeclared(fs, last);
      if read.Ok? && read.value.0 !in d.roles {
        var r := DeclareOne(fs, d, last);
        assert r.roles[read.value.0] == read.value.1;
      }
    }
  }

  /** A declaration that is accepted leaves the earlier ones as they were. */
  lemma DescribedStays(fs: Files, entries: seq<Entry>, e: Entry)
    ensures
      var d, r := Declare(fs, entries), DeclareOne(fs, Declare(fs, entries), e);
      AllDescribed(r.roles) ==> AllDescribed(d.roles)
  {
    var d, r := Declare(fs, entries), DeclareOne(fs, Declare(fs, entries), e);
    if AllDescribed(r.roles) {
      forall name | name in d.roles ensures d.roles[name].description.Some? {
        assert name in r.roles && r.roles[name] == d.roles[name];
      }
    }
  }

  lemma {:induction false} MergeIntoNothing(ws: seq<Warning>, layer: Roles, names: seq<string>)
    requires (forall n | n in names :: n in layer) && Distinct(names)
    ensures
      var r := MergeNames(Found(map[], ws), layer, names);
      ws <= r.warnings
      && (r.warnings == ws <==> forall n | n in names :: layer[n].description.Some?)
      && forall n :: n in r.roles <==> n in names && layer[n].description.Some?
    ensures
      var r := MergeNames(Found(map[], ws), layer, names);
      forall n | n in r.roles :: r.roles[n] == layer[n]
  {
    if names != [] {
      var front, last := names[..|names| - 1], names[|names| - 1];
      MergeIntoNothing(ws, layer, front);
      assert names == front + [last];
      assert last !in front;
    }
  }

  lemma LoadOneLayer(fs: Files, entries: seq<Entry>)
    requires Lists(fs)
    ensures
      var d := Declare(fs, entries);
      Load(fs, [Layer(Ok(Some(entries)), None)])
        == Ok(MergeNames(Found(map[], d.warnings), d.roles, fs.keys(d.roles.Keys)))
  {
    hide MergeNames, Declare;
    var layer, d := Layer(Ok(Some(entries)), None), Declare(fs, entries);
    assert [layer][..0] == [];
    assert Load(fs, [layer]) == AddLayer(fs, Found(map[], []), layer);
    assert [] + d.warnings == d.warnings;
  }

  /**
   The strict loader succeeds exactly where the lenient one, given the same declarations as its
   only layer, has nothing to warn about, and then both give the same roles.
   */
  lemma StrictIffSilent(fs: Files, entries: seq<Entry>, roles: Roles)
    requires Lists(fs)
    ensures LoadStrict(fs, entries) == Ok(roles)
       <==> Load(fs, [Layer(Ok(Some(entries)), None)]) == Ok(Found(roles, []))
  {
    hide Load, LoadStrict, Declare, MergeNames;
    var d := Declare(fs, entries);
    StrictIsCleanDeclare(fs, entries);
    LoadOneLayer(fs, entries);
    var names := fs.keys(d.roles.Keys);
    MergeIntoNothing(d.warnings, d.roles, names);
    var r := MergeNames(Found(map[], d.warnings), d.roles, names);
    if AllDescribed(d.roles) {
      assert r.roles == d.roles;
    }
  }
}
