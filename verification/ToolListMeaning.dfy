/**
 What flattening does to a request's tool list (gateway/codex_gateway.py), said of each tool by
 its own fields: which tools stay, which members are listed, and what the function tool that
 stands for a member holds. The walk of ToolList is proved to give exactly such a list.
 */
module ToolListMeaning {
  import opened JsonValue
  import opened ToolCalls
  import opened ToolNames
  import opened ToolList
  import opened ToolListNames
  import opened ToolCallMeaning

  // ---------------------------------------------------------------- names, character by character

  /** Character by character, what is no letter, digit, underscore or dash becomes an underscore. */
  predicate Cleaned(s: string, r: string) {
    if s == "" then r == "tool"
    else
      |r| == |s|
      && forall i | 0 <= i < |s| ::
           r[i] == if 'A' <= s[i] <= 'Z' || 'a' <= s[i] <= 'z' || '0' <= s[i] <= '9' || s[i] == '_' || s[i] == '-'
                   then s[i] else '_'
  }

  /** The cleaned names around two underscores, or their first 51 characters, one underscore and 12 digits. */
  ghost predicate FlatNameReads(sha: string -> string, namespace: string, name: string, flat: string)
    requires Sha256(sha)
  {
    exists a, b :: Cleaned(namespace, a) && Cleaned(name, b)
      && if |a| + |b| + 2 <= 64 then flat == a + "__" + b
         else |flat| == 64 && flat[..51] == (a + "__" + b)[..51] && flat[51] == '_'
              && flat[52..] == sha(namespace + "\0" + name)[..12]
  }

  lemma {:induction false} CleanCharAt(s: string, i: nat)
    requires i < |s|
    ensures CleanChars(s)[i] == if SafeChar(s[i]) then s[i] else '_'
  {
    if i > 0 { CleanCharAt(s[1..], i - 1); }
  }

  lemma CleanComponentIff(s: string, r: string)
    ensures Cleaned(s, r) <==> r == CleanComponent(s)
  {
    forall i | 0 <= i < |s| ensures CleanChars(s)[i] == if SafeChar(s[i]) then s[i] else '_' {
      CleanCharAt(s, i);
    }
  }

  lemma FlatNameIff(sha: string -> string, namespace: string, name: string, flat: string)
    requires Sha256(sha)
    ensures FlatName(sha, namespace, name) == flat <==> FlatNameReads(sha, namespace, name, flat)
  {
    var a, b := CleanComponent(namespace), CleanComponent(name);
    forall r ensures (Cleaned(namespace, r) <==> r == a) && (Cleaned(name, r) <==> r == b) {
      CleanComponentIff(namespace, r);
      CleanComponentIff(name, r);
    }
    hide Cleaned, CleanComponent;
    assert |sha(namespace + "\0" + name)| == 64;
    var raw := a + "__" + b;
    if |raw| > 64 && |flat| == 64 {
      assert flat == flat[..51] + [flat[51]] + flat[52..];
    }
  }

  /** A fallback name is the prefix and the first 16 digits. */
  lemma FallbackNameReads(sha: string -> string, namespace: string, name: string)
    requires Sha256(sha)
    ensures
      var fallback := FallbackName(sha, namespace, name);
      |fallback| == 19 && fallback[..3] == "gw_" && fallback[3..] == sha(namespace + "\0" + name)[..16]
  {
  }

  // ---------------------------------------------------------------- one member

  /** A value as text, or the default where it is missing, null, false, zero or empty. */
  function Word(lib: Library, v: Value, default: string): string {
    match v
    case Null => default
    case Bool(false) => default
    case Str(s) => if s == "" then default else s
    case _ => if v == Int(0) || v == Float(0.0) || v == Arr([]) || v == Obj(map[]) then default else lib.codec.str(v)
  }

  lemma WordIs(lib: Library, v: Value, default: string)
    ensures TextOr(lib, v, default) == Word(lib, v, default)
  {
  }

  /** The entry `f` of the namespace `tool` is this member. */
  predicate IsMember(lib: Library, tool: Fields, f: Fields, member: Member) {
    member.namespace == Word(lib, Get(tool, Name), "namespace")
    && member.name == Word(lib, Get(f, Name), "tool")
    && member.kind == Word(lib, Get(f, Type), "function")
  }

  /** What the model is told about a member: where it is, what its namespace is for, and its own description. */
  function About(lib: Library, tool: Fields, f: Fields, member: Member): string {
    var purpose := lib.strip(Word(lib, Get(tool, Description), ""));
    "Tool " + member.name + " in the " + member.namespace + " namespace."
    + (if purpose == "" then "" else " Namespace: " + purpose)
    + " " + lib.strip(Word(lib, Get(f, Description), ""))
  }

  /**
   A function tool stands for the member: it has the advertised name and the description, a
   function member keeps everything else, and any other takes one string and nothing more.
   */
  predicate StandsFor(lib: Library, tool: Fields, f: Fields, member: Member, name: string, v: Value) {
    v.Obj? && Typed(v.fields, "function") && Get(v.fields, Name) == Str(name)
    && Get(v.fields, Description) == Str(lib.strip(About(lib, tool, f, member)))
    && if member.kind == "function" then Others(f, v.fields, {Type, Name, Description})
       else
         Get(v.fields, Parameters) == Obj(map[
           Type := Str("object"), Properties := Obj(map[Input := Obj(map[Type := Str("string")])]),
           Required := Arr([Str("input")]), AdditionalProperties := Bool(false)])
         && Get(v.fields, Strict) == Bool(true)
         && Others(f, v.fields, {Type, Name, Description, Parameters, Strict})
  }

  lemma MemberIff(lib: Library, tool: Fields, f: Fields, member: Member)
    ensures IsMember(lib, tool, f, member) <==> member == MemberIn(lib, NamespaceOf(lib, tool), f)
  {
    WordIs(lib, Get(tool, Name), "namespace");
    WordIs(lib, Get(f, Name), "tool");
    WordIs(lib, Get(f, Type), "function");
    hide TextOr, Word;
  }

  lemma ConvertedReads(lib: Library, tool: Fields, f: Fields, name: string)
    ensures
      var member := MemberIn(lib, NamespaceOf(lib, tool), f);
      var v := Converted(lib, tool, f, name);
      v.Obj? && Get(v.fields, Description) == Str(lib.strip(About(lib, tool, f, member)))
  {
    WordIs(lib, Get(tool, Description), "");
    WordIs(lib, Get(f, Description), "");
    hide TextOr, Word;
    var member := MemberIn(lib, NamespaceOf(lib, tool), f);
    var about := DescriptionOf(lib, tool);
    var context := "Tool " + member.name + " in the " + member.namespace + " namespace."
                   + (if about != "" then " Namespace: " + about else "");
    assert context + " " + DescriptionOf(lib, f) == About(lib, tool, f, member);
  }

  /** The tool that is made for a member stands for it. */
  lemma ConvertedStands(lib: Library, tool: Fields, f: Fields, name: string)
    ensures StandsFor(lib, tool, f, MemberIn(lib, NamespaceOf(lib, tool), f), name, Converted(lib, tool, f, name))
  {
    ConvertedReads(lib, tool, f, name);
    hide About, DescriptionOf, NamespaceOf, MemberIn;
  }

  /** And nothing else does. */
  lemma OneStands(lib: Library, tool: Fields, f: Fields, member: Member, name: string, v: Value, w: Value)
    requires StandsFor(lib, tool, f, member, name, v) && StandsFor(lib, tool, f, member, name, w)
    ensures v == w
  {
    hide About;
    forall k | k in v.fields.Keys + w.fields.Keys ensures Same(v.fields, w.fields, k) {
      if k in f.Keys + v.fields.Keys { }
      if k in f.Keys + w.fields.Keys { }
    }
    OneMap(v.fields, w.fields);
  }

  // ---------------------------------------------------------------- the list

  /** What a loop over a value that may be missing runs over. */
  function Entries(lib: Library, v: Value): Outcome<seq<Value>> {
    match v
    case Arr(items) => Ok(items)
    case Null => Ok([])
    case Bool(false) => Ok([])
    case _ =>
      if v == Int(0) || v == Float(0.0) || v == Str("") || v == Obj(map[]) then Ok([])
      else match lib.iterate(v)
           case Some(items) => Ok(items)
           case None => Raise
  }

  lemma EntriesAre(lib: Library, v: Value)
    ensures Items(lib, v) == Entries(lib, v)
  {
  }

  /** A tool that is passed on as it is: anything that is no dictionary, and the four kinds the model server knows. */
  predicate PassedOn(lib: Library, tool: Value) {
    tool.Obj? ==>
      var kind := Word(lib, Get(tool.fields, Type), "unknown");
      kind == "function" || kind == "web_search_preview" || kind == "code_interpreter" || kind == "mcp"
  }

  /** The tools that stand for a namespace's members, the first of them being member `n` of `all`. */
  predicate NamespaceBecomes(
    lib: Library, tool: Fields, entries: seq<Value>, all: seq<Member>, n: nat, out: seq<Value>)
    requires Sha256(lib.sha)
  {
    if entries == [] then out == []
    else
      var front, last := entries[..|entries| - 1], entries[|entries| - 1];
      if !last.Obj? then NamespaceBecomes(lib, tool, front, all, n, out)
      else
        out != [] && NamespaceBecomes(lib, tool, front, all, n, out[..|out| - 1])
        && var i := n + |out| - 1;
           i < |all| && IsMember(lib, tool, last.fields, all[i])
           && StandsFor(lib, tool, last.fields, all[i], AssignedName(lib.sha, all, i), out[|out| - 1])
  }

  /** The flattened form of a list that has `n` members. */
  ghost predicate ListBecomes(lib: Library, tools: seq<Value>, all: seq<Member>, n: nat, out: seq<Value>)
    requires Sha256(lib.sha)
    decreases |tools|
  {
    if tools == [] then out == [] && n == 0
    else
      var front, last := tools[..|tools| - 1], tools[|tools| - 1];
      if last.Obj? && Typed(last.fields, "namespace") then
        Entries(lib, Get(last.fields, Tools)).Ok?
        && exists k :: 0 <= k <= |out| && |out| - k <= n && ListBecomes(lib, front, all, n - (|out| - k), out[..k])
             && NamespaceBecomes(
                  lib, last.fields, Entries(lib, Get(last.fields, Tools)).value, all, n - (|out| - k), out[k..])
      else if PassedOn(lib, last) then
        out != [] && out[|out| - 1] == last && ListBecomes(lib, front, all, n, out[..|out| - 1])
      else ListBecomes(lib, front, all, n, out)
  }

  lemma {:induction false} ExpandedMeans(
    lib: Library, tool: Fields, items: seq<Value>, all: seq<Member>, from: nat)
    requires Sane(lib) && Follows(all, from, Listed(lib, tool, items))
    ensures |Expanded(lib, tool, items, all, from)| == |Listed(lib, tool, items)|
    ensures NamespaceBecomes(lib, tool, items, all, from, Expanded(lib, tool, items, all, from))
  {
    hide AssignedName, Converted, MemberIn, NamespaceOf, StandsFor, IsMember, Sha256;
    if items != [] {
      var rest, item := items[..|items| - 1], items[|items| - 1];
      var before := Listed(lib, tool, rest);
      assert forall j | 0 <= j < |before| :: Listed(lib, tool, items)[j] == before[j];
      ExpandedMeans(lib, tool, rest, all, from);
      if item.Obj? {
        var out, i := Expanded(lib, tool, items, all, from), from + |before|;
        assert all[i] == Listed(lib, tool, items)[|before|];
        MemberIff(lib, tool, item.fields, all[i]);
        ConvertedStands(lib, tool, item.fields, AssignedName(lib.sha, all, i));
        assert out[..|out| - 1] == Expanded(lib, tool, rest, all, from);
      } else {
        assert Expanded(lib, tool, items, all, from) == Expanded(lib, tool, rest, all, from);
      }
    }
  }

  lemma KeptIff(lib: Library, tool: Value)
    requires !IsNamespace(tool)
    ensures Kept(lib, tool) <==> PassedOn(lib, tool)
  {
    if tool.Obj? { WordIs(lib, Get(tool.fields, Type), "unknown"); }
    hide TextOr, Word;
  }

  lemma NamespaceListed(
    lib: Library, tools: seq<Value>, all: seq<Member>, n: nat, front: seq<Value>, part: seq<Value>)
    requires Sha256(lib.sha) && tools != [] && ListBecomes(lib, tools[..|tools| - 1], all, n, front)
    requires
      var tool := tools[|tools| - 1];
      tool.Obj? && Typed(tool.fields, "namespace") && Entries(lib, Get(tool.fields, Tools)).Ok?
      && NamespaceBecomes(lib, tool.fields, Entries(lib, Get(tool.fields, Tools)).value, all, n, part)
    ensures ListBecomes(lib, tools, all, n + |part|, front + part)
  {
    hide NamespaceBecomes, Entries;
    var out, k := front + part, |front|;
    assert out[..k] == front && out[k..] == part;
  }

  lemma OwnListed(lib: Library, tools: seq<Value>, all: seq<Member>, n: nat, front: seq<Value>)
    requires Sha256(lib.sha) && tools != [] && ListBecomes(lib, tools[..|tools| - 1], all, n, front)
    requires !(tools[|tools| - 1].Obj? && Typed(tools[|tools| - 1].fields, "namespace"))
    ensures ListBecomes(
      lib, tools, all, n, if PassedOn(lib, tools[|tools| - 1]) then front + [tools[|tools| - 1]] else front)
  {
    hide NamespaceBecomes, Entries, PassedOn;
    var tool := tools[|tools| - 1];
    assert (front + [tool])[..|front|] == front;
  }

  /** What is known of the last tool of a list that does not raise. */
  lemma LastTool(lib: Library, tools: seq<Value>, all: seq<Member>)
    requires Sane(lib) && tools != [] && Follows(all, 0, AllListed(lib, tools)) && AddTools(lib, tools).Ok?
    ensures
      var n, tool := |AllListed(lib, tools[..|tools| - 1])|, tools[|tools| - 1];
      Follows(all, n, ListedBy(lib, tool))
      && (IsNamespace(tool) ==> Items(lib, Get(tool.fields, Tools)).Ok?)
  {
    hide Listed, Items, Kept, AddMembers, Sha256, ListedBy;
    var n, tool := |AllListed(lib, tools[..|tools| - 1])|, tools[|tools| - 1];
    var listed := ListedBy(lib, tool);
    assert forall j | 0 <= j < |listed| :: AllListed(lib, tools)[n + j] == listed[j];
  }

  /** What one tool becomes, and how many members it lists. */
  lemma PartMeans(lib: Library, tools: seq<Value>, all: seq<Member>, n: nat, front: seq<Value>)
    requires Sane(lib) && tools != [] && ListBecomes(lib, tools[..|tools| - 1], all, n, front)
    requires
      var tool := tools[|tools| - 1];
      Follows(all, n, ListedBy(lib, tool)) && (IsNamespace(tool) ==> Items(lib, Get(tool.fields, Tools)).Ok?)
    ensures
      var tool := tools[|tools| - 1];
      ListBecomes(lib, tools, all, n + |ListedBy(lib, tool)|, front + Part(lib, tool, all, n))
  {
    hide Expanded, Listed, NamespaceBecomes, ListBecomes, Items, Entries, Kept, PassedOn, Sha256;
    var tool := tools[|tools| - 1];
    if IsNamespace(tool) {
      EntriesAre(lib, Get(tool.fields, Tools));
      var items := Items(lib, Get(tool.fields, Tools)).value;
      ExpandedMeans(lib, tool.fields, items, all, n);
      NamespaceListed(lib, tools, all, n, front, Expanded(lib, tool.fields, items, all, n));
    } else {
      KeptIff(lib, tool);
      OwnListed(lib, tools, all, n, front);
      assert front + [] == front;
    }
  }

  lemma {:induction false} AdvertisedMeans(lib: Library, tools: seq<Value>, all: seq<Member>)
    requires Sane(lib) && Follows(all, 0, AllListed(lib, tools)) && AddTools(lib, tools).Ok?
    ensures ListBecomes(lib, tools, all, |AllListed(lib, tools)|, Advertised(lib, tools, all))
  {
    if tools != [] {
      var rest, tool := tools[..|tools| - 1], tools[|tools| - 1];
      var before := AllListed(lib, rest);
      assert AddTools(lib, rest).Ok?;
      assert forall j | 0 <= j < |before| :: AllListed(lib, tools)[j] == before[j];
      hide AddTools, Advertised, ListBecomes, Part, ListedBy, Items, IsNamespace, AllListed, Sha256;
      AdvertisedMeans(lib, rest, all);
      LastTool(lib, tools, all);
      PartMeans(lib, tools, all, |before|, Advertised(lib, rest, all));
      AdvertisedNext(lib, tools, all);
    }
  }

  /** For any tool list, the result is its flattened form with the mapping of its members. */
  lemma FlattenedMeans(lib: Library, tools: seq<Value>)
    requires Sane(lib) && AddTools(lib, tools).Ok?
    ensures
      var p, all := AddTools(lib, tools).value, AllListed(lib, tools);
      p.mapping == Built(lib.sha, all) && ListBecomes(lib, tools, all, |all|, p.flattened)
  {
    hide AddTools, AllListed, Advertised, ListBecomes;
    var all := AllListed(lib, tools);
    ToolsAdvertised(lib, tools, all);
    AdvertisedMeans(lib, tools, all);
    assert all[..|all|] == all;
  }

  predicate Unlistable(lib: Library, tool: Value) {
    tool.Obj? && Typed(tool.fields, "namespace") && Entries(lib, Get(tool.fields, Tools)).Raise?
  }

  /** Flattening raises exactly if some namespace's members cannot be run over. */
  lemma {:induction false} RaisesIff(lib: Library, tools: seq<Value>)
    requires Sane(lib)
    ensures AddTools(lib, tools).Raise? <==> exists i :: 0 <= i < |tools| && Unlistable(lib, tools[i])
  {
    if tools != [] {
      var rest, tool := tools[..|tools| - 1], tools[|tools| - 1];
      RaisesIff(lib, rest);
      if tool.Obj? { EntriesAre(lib, Get(tool.fields, Tools)); }
      assert Unlistable(lib, tool) <==> IsNamespace(tool) && Items(lib, Get(tool.fields, Tools)).Raise?;
      hide Unlistable, Items, AddMembers, Kept, Sane, IsNamespace;
      if i :| 0 <= i < |rest| && Unlistable(lib, rest[i]) {
        assert Unlistable(lib, tools[i]);
      }
      if i :| 0 <= i < |tools| && Unlistable(lib, tools[i]) {
        if i < |rest| { assert Unlistable(lib, rest[i]); }
      }
    }
  }
}
