/**
 When no two tools of the flattened list (gateway/codex_gateway.py) have the same name. The
 mapping alone does not say: a listed pair is advertised each time it is listed, and a function
 tool outside the namespaces keeps its own name whatever the members are called.
 */
module ToolListNames {
  import opened JsonValue
  import opened Listing
  import opened ToolCalls
  import opened ToolNames
  import opened ToolList

  predicate IsFunction(tool: Value) {
    tool.Obj? && Get(tool.fields, Type) == Str("function") && Get(tool.fields, Name).Str?
  }

  /** The names of the function tools in a list, in order. */
  function FunctionNames(list: seq<Value>): seq<string> {
    if list == [] then []
    else
      var tool := list[|list| - 1];
      FunctionNames(list[..|list| - 1]) + if IsFunction(tool) then [Get(tool.fields, Name).s] else []
  }

  /** The names the members are given, one for each listing. */
  function MemberNames(sha: string -> string, all: seq<Member>, n: nat): seq<string>
    requires Sha256(sha) && n <= |all|
  {
    if n == 0 then [] else MemberNames(sha, all, n - 1) + [AssignedName(sha, all, n - 1)]
  }

  lemma {:induction false} FunctionNamesJoin(a: seq<Value>, b: seq<Value>)
    ensures FunctionNames(a + b) == FunctionNames(a) + FunctionNames(b)
  {
    hide IsFunction;
    if b == [] {
      assert a + b == a;
    } else {
      FunctionNamesJoin(a, b[..|b| - 1]);
      assert (a + b)[..|a + b| - 1] == a + b[..|b| - 1];
    }
  }

  lemma ConvertedName(lib: Library, tool: Fields, f: Fields, name: string)
    ensures IsFunction(Converted(lib, tool, f, name))
    ensures Get(Converted(lib, tool, f, name).fields, Name) == Str(name)
  {
  }

  lemma OneFunction(tool: Value)
    requires IsFunction(tool)
    ensures FunctionNames([tool]) == [Get(tool.fields, Name).s]
  {
    assert [tool][..0] == [];
  }

  lemma MemberNamesNext(sha: string -> string, all: seq<Member>, n: nat)
    requires Sha256(sha) && n < |all|
    ensures MemberNames(sha, all, n + 1) == MemberNames(sha, all, n) + [AssignedName(sha, all, n)]
  {
  }

  /** One more member of a namespace is one more tool under its name. */
  lemma ExpandedNext(lib: Library, tool: Fields, items: seq<Value>, all: seq<Member>, from: nat)
    requires Sane(lib) && items != [] && from + |Listed(lib, tool, items)| <= |all| && items[|items| - 1].Obj?
    ensures
      var rest := items[..|items| - 1];
      var k := from + |Listed(lib, tool, rest)|;
      |Listed(lib, tool, items)| == |Listed(lib, tool, rest)| + 1
      && FunctionNames(Expanded(lib, tool, items, all, from))
         == FunctionNames(Expanded(lib, tool, rest, all, from)) + [AssignedName(lib.sha, all, k)]
  {
    hide Converted, IsFunction, AssignedName, Sha256, MemberIn, FunctionNames;
    var rest, item := items[..|items| - 1], items[|items| - 1];
    var name := AssignedName(lib.sha, all, from + |Listed(lib, tool, rest)|);
    var v := Converted(lib, tool, item.fields, name);
    ConvertedName(lib, tool, item.fields, name);
    OneFunction(v);
    FunctionNamesJoin(Expanded(lib, tool, rest, all, from), [v]);
  }

  /** The members of one namespace appear under exactly their names. */
  lemma {:induction false} ExpandedNames(lib: Library, tool: Fields, items: seq<Value>, all: seq<Member>, from: nat)
    requires Sane(lib) && from + |Listed(lib, tool, items)| <= |all|
    ensures MemberNames(lib.sha, all, from) + FunctionNames(Expanded(lib, tool, items, all, from))
         == MemberNames(lib.sha, all, from + |Listed(lib, tool, items)|)
  {
    hide Converted, IsFunction, AssignedName, Sha256, MemberIn, MemberNames;
    if items == [] {
      assert FunctionNames([]) == [];
    } else {
      var rest := items[..|items| - 1];
      ExpandedNames(lib, tool, rest, all, from);
      if items[|items| - 1].Obj? {
        ExpandedNext(lib, tool, items, all, from);
        MemberNamesNext(lib.sha, all, from + |Listed(lib, tool, rest)|);
        hide Expanded, FunctionNames, Listed;
      } else {
        var before := Expanded(lib, tool, rest, all, from);
        assert before + [] == before;
        hide FunctionNames;
      }
    }
  }

  lemma OwnTool(lib: Library, tool: Value)
    requires !IsNamespace(tool)
    ensures FunctionNames(if Kept(lib, tool) then [tool] else []) == FunctionNames([tool])
  {
    assert [tool][..0] == [];
  }

  lemma NamespaceTool(tool: Value)
    requires IsNamespace(tool)
    ensures FunctionNames([tool]) == []
  {
    assert [tool][..0] == [];
  }

  /** What one tool of the request becomes, its first member being member `n` of `all`. */
  function Part(lib: Library, tool: Value, all: seq<Member>, n: nat): seq<Value>
    requires Sane(lib) && n + |ListedBy(lib, tool)| <= |all|
  {
    if !IsNamespace(tool) then (if Kept(lib, tool) then [tool] else [])
    else if Items(lib, Get(tool.fields, Tools)).Ok?
    then Expanded(lib, tool.fields, Items(lib, Get(tool.fields, Tools)).value, all, n)
    else []
  }

  lemma AdvertisedNext(lib: Library, tools: seq<Value>, all: seq<Member>)
    requires Sane(lib) && tools != [] && |AllListed(lib, tools)| <= |all|
    ensures
      var rest, tool := tools[..|tools| - 1], tools[|tools| - 1];
      var n := |AllListed(lib, rest)|;
      |AllListed(lib, tools)| == n + |ListedBy(lib, tool)|
      && Advertised(lib, tools, all) == Advertised(lib, rest, all) + Part(lib, tool, all, n)
  {
    hide Expanded, Items, Kept, Listed, IsNamespace, Sha256;
  }

  /** A tool adds its own name or those of its members. */
  lemma PartNames(lib: Library, tool: Value, all: seq<Member>, n: nat)
    requires Sane(lib) && n + |ListedBy(lib, tool)| <= |all|
    ensures
      var names := FunctionNames(Part(lib, tool, all, n));
      if IsNamespace(tool)
      then FunctionNames([tool]) == []
           && MemberNames(lib.sha, all, n) + names == MemberNames(lib.sha, all, n + |ListedBy(lib, tool)|)
      else names == FunctionNames([tool]) && ListedBy(lib, tool) == []
  {
    hide Expanded, Items, Listed, MemberNames, Sha256;
    if !IsNamespace(tool) {
      OwnTool(lib, tool);
    } else {
      NamespaceTool(tool);
      if Items(lib, Get(tool.fields, Tools)).Ok? {
        hide FunctionNames;
        ExpandedNames(lib, tool.fields, Items(lib, Get(tool.fields, Tools)).value, all, n);
      }
    }
  }

  lemma Tally(before: seq<string>, part: seq<string>, own: seq<string>, ownPart: seq<string>,
              members: seq<string>, now: seq<string>)
    requires multiset(before) == multiset(own) + multiset(members)
    requires (ownPart == [] && members + part == now) || (part == ownPart && now == members)
    ensures multiset(before + part) == multiset(own + ownPart) + multiset(now)
  {
  }

  ghost predicate NamesTally(lib: Library, tools: seq<Value>, all: seq<Member>)
    requires Sane(lib) && |AllListed(lib, tools)| <= |all|
  {
    multiset(FunctionNames(Advertised(lib, tools, all)))
    == multiset(FunctionNames(tools)) + multiset(MemberNames(lib.sha, all, |AllListed(lib, tools)|))
  }

  lemma TallyNext(lib: Library, tools: seq<Value>, all: seq<Member>)
    requires Sane(lib) && tools != [] && |AllListed(lib, tools)| <= |all|
    requires |AllListed(lib, tools[..|tools| - 1])| <= |all| && NamesTally(lib, tools[..|tools| - 1], all)
    ensures NamesTally(lib, tools, all)
  {
    hide FunctionNames, MemberNames, Advertised, AllListed, Part, ListedBy, IsNamespace, Sha256;
    var rest, tool := tools[..|tools| - 1], tools[|tools| - 1];
    var n, k := |AllListed(lib, rest)|, |AllListed(lib, tools)|;
    AdvertisedNext(lib, tools, all);
    var before, part := FunctionNames(Advertised(lib, rest, all)), FunctionNames(Part(lib, tool, all, n));
    var own, ownPart := FunctionNames(rest), FunctionNames([tool]);
    assert FunctionNames(tools) == own + ownPart by {
      assert tools == rest + [tool];
      FunctionNamesJoin(rest, [tool]);
    }
    assert FunctionNames(Advertised(lib, tools, all)) == before + part by {
      FunctionNamesJoin(Advertised(lib, rest, all), Part(lib, tool, all, n));
    }
    var members, now := MemberNames(lib.sha, all, n), MemberNames(lib.sha, all, k);
    assert (ownPart == [] && members + part == now) || (part == ownPart && now == members) by {
      PartNames(lib, tool, all, n);
    }
    Tally(before, part, own, ownPart, members, now);
  }

  /** The flattened list holds the request's own function tools and one tool for each listing of a member. */
  lemma {:induction false} AdvertisedNames(lib: Library, tools: seq<Value>, all: seq<Member>)
    requires Sane(lib) && |AllListed(lib, tools)| <= |all|
    ensures NamesTally(lib, tools, all)
  {
    if tools != [] {
      hide NamesTally, Sane, ListedBy;
      AdvertisedNames(lib, tools[..|tools| - 1], all);
      TallyNext(lib, tools, all);
    }
  }

  // ---------------------------------------------------------------- distinct names

  /** No pair is listed twice. */
  predicate ListedOnce(all: seq<Member>) {
    forall i, j | 0 <= i < j < |all| :: !SamePair(all[i], all[j])
  }

  lemma {:induction false} MemberNameAt(sha: string -> string, all: seq<Member>, n: nat, i: nat)
    requires Sha256(sha) && i < n <= |all|
    ensures |MemberNames(sha, all, n)| == n && MemberNames(sha, all, n)[i] == AssignedName(sha, all, i)
  {
    hide AssignedName, Sha256;
    if n > 1 {
      MemberNameAt(sha, all, n - 1, if i < n - 1 then i else 0);
    }
  }

  /** The names as a list, and the members one by one. */
  lemma MemberNamesAre(sha: string -> string, all: seq<Member>)
    requires Sha256(sha)
    ensures |MemberNames(sha, all, |all|)| == |all|
    ensures forall i | 0 <= i < |all| :: MemberNames(sha, all, |all|)[i] == AssignedName(sha, all, i)
  {
    hide AssignedName, Sha256;
    var names := MemberNames(sha, all, |all|);
    if all == [] {
      assert names == [];
    } else {
      MemberNameAt(sha, all, |all|, 0);
    }
    forall i | 0 <= i < |all| ensures names[i] == AssignedName(sha, all, i) {
      MemberNameAt(sha, all, |all|, i);
    }
  }

  ghost predicate AssignedApart(sha: string -> string, all: seq<Member>)
    requires Sha256(sha)
  {
    forall i, j | 0 <= i < j < |all| :: AssignedName(sha, all, i) != AssignedName(sha, all, j)
  }

  lemma OnceIsApart(sha: string -> string, all: seq<Member>)
    requires Sha256(sha) && ListedOnce(all) && DigestsSeparate(sha, all)
    ensures AssignedApart(sha, all)
  {
    hide Sha256, AssignedName, DigestsSeparate;
    forall i, j | 0 <= i < j < |all| ensures AssignedName(sha, all, i) != AssignedName(sha, all, j) {
      if AssignedName(sha, all, i) == AssignedName(sha, all, j) {
        SameNameSamePair(sha, all, i, j);
      }
    }
  }

  lemma ApartIsOnce(sha: string -> string, all: seq<Member>)
    requires Sha256(sha) && AssignedApart(sha, all)
    ensures ListedOnce(all)
  {
    hide Sha256, AssignedName;
    forall i, j | 0 <= i < j < |all| ensures !SamePair(all[i], all[j]) {
      if SamePair(all[i], all[j]) {
        SamePairSameName(sha, all, i, j);
      }
    }
  }

  /** The members' names are distinct exactly if each pair is listed once and the fallback digests are separate. */
  lemma MemberNamesDistinctIff(sha: string -> string, all: seq<Member>)
    requires Sha256(sha)
    ensures Distinct(MemberNames(sha, all, |all|)) <==> ListedOnce(all) && DigestsSeparate(sha, all)
  {
    assert Distinct(MemberNames(sha, all, |all|)) <==> AssignedApart(sha, all) by {
      hide Sha256, MemberNames, AssignedName;
      MemberNamesAre(sha, all);
    }
    hide *;
    if AssignedApart(sha, all) {
      ApartIsOnce(sha, all);
      SeparateNames(sha, all);
    }
    if ListedOnce(all) && DigestsSeparate(sha, all) {
      OnceIsApart(sha, all);
    }
  }

  lemma SeparateNames(sha: string -> string, all: seq<Member>)
    requires Sha256(sha) && AssignedApart(sha, all)
    ensures DigestsSeparate(sha, all)
  {
    hide Flat, Fallback, Owner, HashedText;
    forall i, j | 0 <= i < |all| && 0 <= j < |all| && FallsBack(sha, all, i) && FallsBack(sha, all, j)
        && !SamePair(all[i], all[j])
      ensures sha(HashedText(all[i].namespace, all[i].name))[..16]
           != sha(HashedText(all[j].namespace, all[j].name))[..16]
    {
      FallbackByDigest(sha, all[i], all[j]);
      var a, b := if i < j then i else j, if i < j then j else i;
      assert a < b && AssignedName(sha, all, a) != AssignedName(sha, all, b);
    }
  }

  /**
   No two function tools of the flattened list have the same name exactly if the request's own
   have not, each pair is listed once, the fallback digests are separate, and no own tool has a
   name that is given to a member.
   */
  lemma NamesDistinctIff(lib: Library, tools: seq<Value>)
    requires Sane(lib) && AddTools(lib, tools).Ok?
    ensures
      var all := AllListed(lib, tools);
      Distinct(FunctionNames(AddTools(lib, tools).value.flattened))
      <==> Distinct(FunctionNames(tools)) && ListedOnce(all) && DigestsSeparate(lib.sha, all)
           && forall i | 0 <= i < |all| :: AssignedName(lib.sha, all, i) !in FunctionNames(tools)
  {
    var all := AllListed(lib, tools);
    var own, list := FunctionNames(tools), FunctionNames(AddTools(lib, tools).value.flattened);
    var names := MemberNames(lib.sha, all, |all|);
    assert multiset(list) == multiset(own) + multiset(names) by { FlattenedNames(lib, tools); }
    assert Distinct(names) <==> ListedOnce(all) && DigestsSeparate(lib.sha, all) by {
      MemberNamesDistinctIff(lib.sha, all);
    }
    assert (forall x | x in names :: x !in own) <==> forall i | 0 <= i < |all| :: AssignedName(lib.sha, all, i) !in own
      by { MemberNamesOutside(lib.sha, all, own); }
    hide *;
    SplitDistinct(list, own, names);
  }

  lemma MemberNamesOutside(sha: string -> string, all: seq<Member>, own: seq<string>)
    requires Sha256(sha)
    ensures (forall x | x in MemberNames(sha, all, |all|) :: x !in own)
       <==> forall i | 0 <= i < |all| :: AssignedName(sha, all, i) !in own
  {
    MemberNamesAre(sha, all);
    hide Sha256, MemberNames, AssignedName;
    var names := MemberNames(sha, all, |all|);
    assert (forall x | x in names :: x !in own) <==> forall i | 0 <= i < |names| :: names[i] !in own;
  }

  lemma FlattenedNames(lib: Library, tools: seq<Value>)
    requires Sane(lib) && AddTools(lib, tools).Ok?
    ensures
      var all := AllListed(lib, tools);
      multiset(FunctionNames(AddTools(lib, tools).value.flattened))
      == multiset(FunctionNames(tools)) + multiset(MemberNames(lib.sha, all, |all|))
  {
    hide AddTools, AllListed, FunctionNames, MemberNames, Advertised, Sha256;
    var all := AllListed(lib, tools);
    ToolsAdvertised(lib, tools, all);
    AdvertisedNames(lib, tools, all);
  }

  lemma SplitDistinct(list: seq<string>, a: seq<string>, b: seq<string>)
    requires multiset(list) == multiset(a) + multiset(b)
    ensures Distinct(list) <==> Distinct(a) && Distinct(b) && forall x | x in b :: x !in a
  {
    DistinctIff(list);
    DistinctIff(a);
    DistinctIff(b);
    hide Distinct;
    assert forall x :: multiset(list)[x] == multiset(a)[x] + multiset(b)[x];
    assert forall x :: (x in a <==> multiset(a)[x] > 0) && (x in b <==> multiset(b)[x] > 0);
  }

  // ---------------------------------------------------------------- a colliding list

  const MEMBER: Value := Obj(map[Name := Str("b")])

  const NAMESPACE: Value := Obj(map[Type := Str("namespace"), Name := Str("a"), Tools := Arr([MEMBER])])

  /** A function tool with the name that the member is given. */
  function Impostor(lib: Library): Value
    requires Sane(lib)
  {
    Obj(map[Type := Str("function"), Name := Str(FlatName(lib.sha, "a", "b"))])
  }

  lemma NamespaceLists(lib: Library)
    ensures ListedBy(lib, NAMESPACE) == [Member("a", "b", "function")]
  {
    assert [MEMBER][..0] == [];
    assert Listed(lib, NAMESPACE.fields, [MEMBER]) == [] + [Member("a", "b", "function")];
  }

  lemma ImpostorListed(lib: Library)
    requires Sane(lib)
    ensures
      var tools := [Impostor(lib), NAMESPACE];
      AddTools(lib, tools).Ok? && AllListed(lib, tools) == [Member("a", "b", "function")]
      && FlatName(lib.sha, "a", "b") in FunctionNames(tools)
  {
    hide FlatName, AddMembers, Listed;
    var own := Impostor(lib);
    NamespaceLists(lib);
    assert [own, NAMESPACE][..1] == [own] && [own][..0] == [];
    assert AllListed(lib, [own]) == [] && AddTools(lib, [own]).Ok?;
    OneFunction(own);
  }

  lemma FirstKeepsFlatName(sha: string -> string, member: Member)
    requires Sha256(sha)
    ensures AssignedName(sha, [member], 0) == FlatName(sha, member.namespace, member.name)
  {
    hide FlatName;
    assert Flats(sha, [member])[0] == Flat(sha, member);
  }

  /** Two tools of this list are advertised under one name. */
  lemma ImpostorCollides(lib: Library)
    requires Sane(lib)
    ensures
      var tools := [Impostor(lib), NAMESPACE];
      AddTools(lib, tools).Ok? && !Distinct(FunctionNames(AddTools(lib, tools).value.flattened))
  {
    var tools, member := [Impostor(lib), NAMESPACE], Member("a", "b", "function");
    ImpostorListed(lib);
    FirstKeepsFlatName(lib.sha, member);
    hide AddTools, AllListed, FunctionNames, AssignedName, FlatName, Impostor, Distinct, DigestsSeparate;
    NamesDistinctIff(lib, tools);
    assert AssignedName(lib.sha, AllListed(lib, tools), 0) in FunctionNames(tools);
  }
}
