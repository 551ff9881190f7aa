/**
 Flattening the tool list of a request (gateway/codex_gateway.py): namespaces are replaced
 by their members, each advertised as a function tool under its flat or fallback name.
 */
module ToolList {
  import opened JsonValue
  import opened ToolCalls
  import opened ToolNames
  import ToolCallRoundTrip
  import ToolCallResend
  import ToolCallPlainResend

  /**
   Library functions: SHA-256, `str` on a non-string, `str.strip`, and iteration over a value
   that is not a list, which yields strings (the characters of a string, the keys of a
   dictionary) or raises.
   */
  datatype Library = Library(
    sha: string -> string,
    codec: Codec,
    strip: string -> string,
    iterate: Value -> Option<seq<Value>>)

  ghost predicate Sane(lib: Library) {
    Sha256(lib.sha) &&
    forall v: Value | lib.iterate(v).Some? ::
      forall i | 0 <= i < |lib.iterate(v).value| :: lib.iterate(v).value[i].Str?
  }

  /** What `for item in (v or [])` runs over. */
  function Items(lib: Library, v: Value): Outcome<seq<Value>> {
    if !Truthy(v) then Ok([])
    else if v.Arr? then Ok(v.items)
    else match lib.iterate(v)
         case Some(items) => Ok(items)
         case None => Raise
  }

  /** `str(v or default)` */
  function TextOr(lib: Library, v: Value, default: string): string {
    if Truthy(v) then PyStr(lib.codec, v) else default
  }

  predicate IsNamespace(tool: Value) {
    tool.Obj? && Get(tool.fields, Type) == Str("namespace")
  }

  /** Tools passed through as they are; other unknown tools are dropped. */
  predicate Kept(lib: Library, tool: Value)
    requires !IsNamespace(tool)
  {
    !tool.Obj? ||
    TextOr(lib, Get(tool.fields, Type), "unknown") in {"function", "web_search_preview", "code_interpreter", "mcp"}
  }

  function NamespaceOf(lib: Library, tool: Fields): string {
    TextOr(lib, Get(tool, Name), "namespace")
  }

  function DescriptionOf(lib: Library, f: Fields): string {
    lib.strip(TextOr(lib, Get(f, Description), ""))
  }

  function MemberIn(lib: Library, namespace: string, f: Fields): Member {
    Member(namespace, TextOr(lib, Get(f, Name), "tool"), TextOr(lib, Get(f, Type), "function"))
  }

  const SINGLE_STRING_SCHEMA: Value :=
    Obj(map[
      Type := Str("object"),
      Properties := Obj(map[Input := Obj(map[Type := Str("string")])]),
      Required := Arr([Str("input")]),
      AdditionalProperties := Bool(false)])

  /** The function tool that stands for a namespace member. */
  function Converted(lib: Library, tool: Fields, f: Fields, name: string): Value {
    var member := MemberIn(lib, NamespaceOf(lib, tool), f);
    var about := DescriptionOf(lib, tool);
    var context := "Tool " + member.name + " in the " + member.namespace + " namespace."
                   + (if about != "" then " Namespace: " + about else "");
    var g := f[Type := Str("function")][Name := Str(name)]
              [Description := Str(lib.strip(context + " " + DescriptionOf(lib, f)))];
    if member.kind == "function" then Obj(g)
    else Obj(g[Parameters := SINGLE_STRING_SCHEMA][Strict := Bool(true)])
  }

  /** The mapping and the flattened list built so far. */
  datatype Progress = Progress(mapping: Mapping, flattened: seq<Value>)

  function AddMember(lib: Library, p: Progress, tool: Fields, item: Value): Progress
    requires Sane(lib)
  {
    if !item.Obj? then p
    else
      var member := MemberIn(lib, NamespaceOf(lib, tool), item.fields);
      var name := KeyFor(lib.sha, p.mapping, member);
      Progress(p.mapping[name := member], p.flattened + [Converted(lib, tool, item.fields, name)])
  }

  function AddMembers(lib: Library, p: Progress, tool: Fields, items: seq<Value>): Progress
    requires Sane(lib)
  {
    if items == [] then p
    else AddMember(lib, AddMembers(lib, p, tool, items[..|items| - 1]), tool, items[|items| - 1])
  }

  function AddTool(lib: Library, p: Progress, tool: Value): Outcome<Progress>
    requires Sane(lib)
  {
    if !IsNamespace(tool) then Ok(if Kept(lib, tool) then p.(flattened := p.flattened + [tool]) else p)
    else
      match Items(lib, Get(tool.fields, Tools))
      case Raise => Raise
      case Ok(items) => Ok(AddMembers(lib, p, tool.fields, items))
  }

  function AddTools(lib: Library, tools: seq<Value>): Outcome<Progress>
    requires Sane(lib)
  {
    if tools == [] then Ok(Progress(map[], []))
    else
      match AddTools(lib, tools[..|tools| - 1])
      case Raise => Raise
      case Ok(p) => AddTool(lib, p, tools[|tools| - 1])
  }

  // ---------------------------------------------------------------- the list, said without state

  /** The members a namespace lists. */
  function Listed(lib: Library, tool: Fields, items: seq<Value>): seq<Member> {
    if items == [] then []
    else
      Listed(lib, tool, items[..|items| - 1])
      + (if items[|items| - 1].Obj? then [MemberIn(lib, NamespaceOf(lib, tool), items[|items| - 1].fields)] else [])
  }

  function ListedBy(lib: Library, tool: Value): seq<Member> {
    if IsNamespace(tool) && Items(lib, Get(tool.fields, Tools)).Ok?
    then Listed(lib, tool.fields, Items(lib, Get(tool.fields, Tools)).value)
    else []
  }

  /** The members of all namespaces, in order. */
  function AllListed(lib: Library, tools: seq<Value>): seq<Member> {
    if tools == [] then [] else AllListed(lib, tools[..|tools| - 1]) + ListedBy(lib, tools[|tools| - 1])
  }

  /** The members of one namespace as advertised, the first of them being member `from` of `all`. */
  function Expanded(lib: Library, tool: Fields, items: seq<Value>, all: seq<Member>, from: nat): seq<Value>
    requires Sane(lib) && from + |Listed(lib, tool, items)| <= |all|
  {
    if items == [] then []
    else
      var rest := items[..|items| - 1];
      var item := items[|items| - 1];
      Expanded(lib, tool, rest, all, from)
      + (if item.Obj?
         then [Converted(lib, tool, item.fields, AssignedName(lib.sha, all, from + |Listed(lib, tool, rest)|))]
         else [])
  }

  /** The whole advertised list: every member of `all` under its assigned name, other tools in place. */
  function Advertised(lib: Library, tools: seq<Value>, all: seq<Member>): seq<Value>
    requires Sane(lib) && |AllListed(lib, tools)| <= |all|
  {
    if tools == [] then []
    else
      var rest := tools[..|tools| - 1];
      var tool := tools[|tools| - 1];
      Advertised(lib, rest, all)
      + (if !IsNamespace(tool) then (if Kept(lib, tool) then [tool] else [])
         else if Items(lib, Get(tool.fields, Tools)).Ok?
         then Expanded(lib, tool.fields, Items(lib, Get(tool.fields, Tools)).value, all, |AllListed(lib, rest)|)
         else [])
  }

  /** Taking one more member extends the built mapping by that member's assigned name. */
  lemma BuiltStep(sha: string -> string, all: seq<Member>, k: nat)
    requires Sha256(sha) && k < |all|
    ensures KeyFor(sha, Built(sha, all[..k]), all[k]) == AssignedName(sha, all, k)
    ensures Built(sha, all[..k + 1]) == Built(sha, all[..k])[AssignedName(sha, all, k) := all[k]]
  {
    hide Sha256, KeyFor, AssignedName;
    var now := all[..k + 1];
    assert now[..k] == all[..k] && now[k] == all[k];
    BuiltDescribes(sha, now[..k]);
    StepAssigns(sha, now);
    OwnerOfPrefix(sha, all, k + 1, k);
  }

  ghost predicate Follows(all: seq<Member>, from: nat, listed: seq<Member>) {
    from + |listed| <= |all| && forall j | 0 <= j < |listed| :: all[from + j] == listed[j]
  }

  ghost predicate MembersDone(
    lib: Library, p: Progress, tool: Fields, items: seq<Value>, all: seq<Member>, from: nat)
    requires Sane(lib) && from + |Listed(lib, tool, items)| <= |all|
  {
    AddMembers(lib, p, tool, items)
    == Progress(Built(lib.sha, all[..from + |Listed(lib, tool, items)|]),
                p.flattened + Expanded(lib, tool, items, all, from))
  }

  lemma {:induction false} MembersAdvertised(
    lib: Library, p: Progress, tool: Fields, items: seq<Value>, all: seq<Member>, from: nat)
    requires Sane(lib) && Follows(all, from, Listed(lib, tool, items))
    requires p.mapping == Built(lib.sha, all[..from])
    ensures MembersDone(lib, p, tool, items, all, from)
  {
    if items != [] {
      hide Sane, Built, MembersDone;
      var rest := items[..|items| - 1];
      var before := Listed(lib, tool, rest);
      assert forall j | 0 <= j < |before| :: Listed(lib, tool, items)[j] == before[j];
      MembersAdvertised(lib, p, tool, rest, all, from);
      MembersStep(lib, p, tool, items, all, from);
    }
  }

  lemma MembersStep(lib: Library, p: Progress, tool: Fields, items: seq<Value>, all: seq<Member>, from: nat)
    requires Sane(lib) && items != [] && Follows(all, from, Listed(lib, tool, items))
    requires from + |Listed(lib, tool, items[..|items| - 1])| <= |all|
    requires MembersDone(lib, p, tool, items[..|items| - 1], all, from)
    ensures MembersDone(lib, p, tool, items, all, from)
  {
    hide Sane, Built, KeyFor, AssignedName, Converted, NamespaceOf, MemberIn;
    var rest := items[..|items| - 1];
    var item := items[|items| - 1];
    var k := |Listed(lib, tool, rest)|;
    var q := AddMembers(lib, p, tool, rest);
    if item.Obj? {
      assert all[from + k] == Listed(lib, tool, items)[k];
      MemberAdvertised(lib, q, tool, item, all, from + k);
    }
  }

  lemma MemberAdvertised(lib: Library, q: Progress, tool: Fields, item: Value, all: seq<Member>, k: nat)
    requires Sane(lib) && k < |all| && item.Obj? && all[k] == MemberIn(lib, NamespaceOf(lib, tool), item.fields)
    requires q.mapping == Built(lib.sha, all[..k])
    ensures AddMember(lib, q, tool, item)
         == Progress(Built(lib.sha, all[..k + 1]),
                     q.flattened + [Converted(lib, tool, item.fields, AssignedName(lib.sha, all, k))])
  {
    hide Built, KeyFor, AssignedName, Converted, NamespaceOf, MemberIn;
    BuiltStep(lib.sha, all, k);
  }

  ghost predicate ToolsDone(lib: Library, tools: seq<Value>, all: seq<Member>)
    requires Sane(lib) && AddTools(lib, tools).Ok? && |AllListed(lib, tools)| <= |all|
  {
    AddTools(lib, tools).value
    == Progress(Built(lib.sha, all[..|AllListed(lib, tools)|]), Advertised(lib, tools, all))
  }

  /** The stateful walk builds the mapping of the listed members and advertises each under its assigned name. */
  lemma {:induction false} ToolsAdvertised(lib: Library, tools: seq<Value>, all: seq<Member>)
    requires Sane(lib) && AddTools(lib, tools).Ok? && Follows(all, 0, AllListed(lib, tools))
    ensures ToolsDone(lib, tools, all)
  {
    if tools != [] {
      var rest := tools[..|tools| - 1];
      var before := AllListed(lib, rest);
      assert AddTools(lib, rest).Ok?;
      hide Sane, Built, ToolsDone, ListedBy, AddTool;
      assert forall j | 0 <= j < |before| :: AllListed(lib, tools)[j] == before[j];
      ToolsAdvertised(lib, rest, all);
      ToolsStep(lib, tools, all);
    }
  }

  lemma ToolsStep(lib: Library, tools: seq<Value>, all: seq<Member>)
    requires Sane(lib) && tools != [] && AddTools(lib, tools).Ok? && Follows(all, 0, AllListed(lib, tools))
    requires AddTools(lib, tools[..|tools| - 1]).Ok? && |AllListed(lib, tools[..|tools| - 1])| <= |all|
    requires ToolsDone(lib, tools[..|tools| - 1], all)
    ensures ToolsDone(lib, tools, all)
  {
    hide Sane, Built, AssignedName, Converted, Items, Kept, Listed, Expanded, AddMembers;
    var rest := tools[..|tools| - 1];
    var tool := tools[|tools| - 1];
    var n := |AllListed(lib, rest)|;
    if IsNamespace(tool) {
      var items := Items(lib, Get(tool.fields, Tools)).value;
      var listed := Listed(lib, tool.fields, items);
      assert forall j | 0 <= j < |listed| :: AllListed(lib, tools)[n + j] == listed[j];
      MembersAdvertised(lib, AddTools(lib, rest).value, tool.fields, items, all, n);
    }
  }

  // ---------------------------------------------------------------- the request

  /** A request body; flattening overwrites its tool list. */
  class Request {
    var fields: Fields

    constructor (fields: Fields)
      ensures this.fields == fields
    {
      this.fields := fields;
    }

    method FlattenTools(lib: Library) returns (r: Outcome<Mapping>)
      requires Sane(lib)
      modifies this
      ensures
        var items := Items(lib, Get(old(fields), Tools));
        if items.Raise? || AddTools(lib, items.value).Raise? then r == Raise && fields == old(fields)
        else
          var p := AddTools(lib, items.value).value;
          r == Ok(p.mapping) && fields == old(fields)[Tools := Arr(p.flattened)]
    {
      var items := Items(lib, Get(fields, Tools));
      if items.Raise? {
        return Raise;
      }
      var tools := items.value;
      var mapping: Mapping := map[];
      var flattened: seq<Value> := [];
      for i := 0 to |tools|
        invariant fields == old(fields)
        invariant AddTools(lib, tools[..i]) == Ok(Progress(mapping, flattened))
      {
        var tool := tools[i];
        assert tools[..i + 1][..i] == tools[..i];
        if !IsNamespace(tool) {
          if Kept(lib, tool) {
            flattened := flattened + [tool];
          }
        } else {
          var inner := Items(lib, Get(tool.fields, Tools));
          if inner.Raise? {
            RaisePersists(lib, tools, i + 1);
            return Raise;
          }
          mapping, flattened := FlattenNamespace(lib, tool.fields, inner.value, Progress(mapping, flattened));
        }
      }
      assert tools[..|tools|] == tools;
      fields := fields[Tools := Arr(flattened)];
      r := Ok(mapping);
    }
  }

  /** The inner loop: the members of one namespace. */
  method FlattenNamespace(lib: Library, tool: Fields, items: seq<Value>, p: Progress)
    returns (mapping: Mapping, flattened: seq<Value>)
    requires Sane(lib)
    ensures Progress(mapping, flattened) == AddMembers(lib, p, tool, items)
  {
    mapping, flattened := p.mapping, p.flattened;
    var namespace := NamespaceOf(lib, tool);
    for i := 0 to |items|
      invariant Progress(mapping, flattened) == AddMembers(lib, p, tool, items[..i])
    {
      assert items[..i + 1][..i] == items[..i];
      if items[i].Obj? {
        var member := MemberIn(lib, namespace, items[i].fields);
        var name := Flat(lib.sha, member);
        if name in mapping && !SamePair(mapping[name], member) {
          name := Fallback(lib.sha, member);
        }
        mapping := mapping[name := member];
        flattened := flattened + [Converted(lib, tool, items[i].fields, name)];
      }
    }
    assert items[..|items|] == items;
  }

  /** Once a tool has raised, so does the whole list. */
  lemma {:induction false} RaisePersists(lib: Library, tools: seq<Value>, n: nat)
    requires Sane(lib) && n <= |tools| && AddTools(lib, tools[..n]).Raise?
    ensures AddTools(lib, tools).Raise?
    decreases |tools| - n
  {
    if n == |tools| {
      assert tools[..n] == tools;
    } else {
      assert tools[..n + 1][..n] == tools[..n];
      RaisePersists(lib, tools, n + 1);
    }
  }

  // ---------------------------------------------------------------- the gateway as a whole

  /**
   Whatever tools a request lists, the mapping its tool list yields lets every conforming
   tree make the trip into the model and back, and back again into the model.
   */
  lemma GatewayRoundTrip(lib: Library, tools: seq<Value>, t: Json<Key>)
    requires Sane(lib) && Faithful(lib.codec) && AddTools(lib, tools).Ok?
    ensures
      var m := AddTools(lib, tools).value.mapping;
      Invertible(m)
      && (ToolCallRoundTrip.RoundTrips(lib.codec, m, t) <==> ToolCallRoundTrip.Conforms(lib.codec, m, t))
      && (ToolCallResend.Resends(lib.codec, m, t) <==> ToolCallResend.ConformsBack(lib.codec, m, t))
      && (ToolCallPlainResend.PlainOutputs(t) ==>
            (ToolCallResend.Resends(lib.codec, m, t) <==> ToolCallPlainResend.PlainlyConforms(lib.codec, m, t)))
  {
    var all := AllListed(lib, tools);
    ToolsAdvertised(lib, tools, all);
    assert all[..|all|] == all;
    BuiltInvertible(lib.sha, all);
    var m := AddTools(lib, tools).value.mapping;
    hide *;
    ToolCallRoundTrip.RoundTripIff(lib.codec, m, t);
    ToolCallResend.ResendIff(lib.codec, m, t);
    if ToolCallPlainResend.PlainOutputs(t) {
      ToolCallPlainResend.PlainResendIff(lib.codec, m, t);
    }
  }
}
