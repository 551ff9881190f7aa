/**
 The gateway's rewriting of tool calls (gateway/codex_gateway.py).

 On the way in, every namespaced call in the request is renamed to the flat name its tool
 was advertised under; on the way out, every call in the response gets its namespace back.
 Both directions walk an arbitrary JSON tree: a node is rewritten first, then its children
 are visited.
 */
module ToolCalls {
  import opened JsonValue

  /** The object keys the gateway looks at; any other key is kept as its text. */
  datatype Key =
    | Type | Role | Status | Namespace | Name | Input | Arguments | Output | Text
    | Tools | Description | Parameters | Strict | Properties | Required | AdditionalProperties
    | Other(text: string)

  type Value = Json<Key>
  type Fields = map<Key, Value>

  /** A namespace member: its namespace, its own name and its declared tool type. */
  datatype Member = Member(namespace: string, name: string, kind: string)

  /** From advertised flat name to member. */
  type Mapping = map<string, Member>

  /** No name is empty and no member is advertised under two names, so the mapping can be read backwards. */
  predicate Invertible(m: Mapping) {
    "" !in m &&
    forall a, b | a in m && b in m && m[a].namespace == m[b].namespace && m[a].name == m[b].name :: a == b
  }

  /** Library functions the gateway calls: `str` on a non-string, `json.dumps`, `json.loads`. */
  datatype Codec = Codec(
    str: Value -> string,
    dumps: Value -> string,
    loads: string -> Option<Value>)

  function Wrapped(input: Value): Value {
    Obj(map[Input := input])
  }

  /** `json.loads` undoes `json.dumps` on the one shape the gateway wraps. */
  ghost predicate Faithful(codec: Codec) {
    forall s: string :: codec.loads(codec.dumps(Wrapped(Str(s)))) == Some(Wrapped(Str(s)))
  }

  function PyStr(codec: Codec, v: Value): string {
    if v.Str? then v.s else codec.str(v)
  }

  /** What a node's "type" says it is, as far as the gateway is concerned. */
  datatype Tag = Message | FunctionCall | CustomCall | ToolResult | DoneEvent | Plain | Unhashable

  function TagOf(f: Fields): Tag {
    var kind := Get(f, Type);
    if !Hashable(kind) then Unhashable
    else if kind == Str("message") then Message
    else if kind == Str("function_call") then FunctionCall
    else if kind == Str("custom_tool_call") then CustomCall
    else if kind == Str("custom_tool_call_output") || kind == Str("function_call_output") then ToolResult
    else if kind == Str("response.function_call_arguments.done")
         || kind == Str("response.custom_tool_call_input.done") then DoneEvent
    else Plain
  }

  predicate IsCall(f: Fields) {
    TagOf(f) in {FunctionCall, CustomCall}
  }

  /** The node with its type set to that of a function call, a custom call or a tool result. */
  function Retyped(f: Fields, tag: Tag): (g: Fields)
    requires tag in {FunctionCall, CustomCall, ToolResult}
    ensures TagOf(g) == tag && g.Keys == f.Keys + {Type} && g[Type].Str?
    ensures forall k | k in f && k != Type :: g[k] == f[k]
  {
    f[Type := Str(match tag
                  case FunctionCall => "function_call"
                  case CustomCall => "custom_tool_call"
                  case _ => "function_call_output")]
  }

  // ---------------------------------------------------------------- one node

  /** Assistant messages get a completed status when they carry none. */
  function WithStatus(f: Fields): Fields {
    if TagOf(f) == Message && Get(f, Role) == Str("assistant") && Status !in f
    then f[Status := Str("completed")]
    else f
  }

  predicate TextPart(part: Value) {
    part.Obj? && Get(part.fields, Type) == Str("input_text")
  }

  predicate Foldable(output: Value) {
    output.Arr? && forall i | 0 <= i < |output.items| :: TextPart(output.items[i])
  }

  function JoinText(codec: Codec, parts: seq<Value>): string
    requires Foldable(Arr(parts))
  {
    if parts == [] then ""
    else
      var text := Get(parts[0].fields, Text);
      (if Truthy(text) then PyStr(codec, text) else "") + JoinText(codec, parts[1..])
  }

  /** A tool result is always a function result, and a list of text parts becomes one string. */
  function FoldOutput(codec: Codec, f: Fields): Fields {
    var g := Retyped(f, ToolResult);
    var output := Get(f, Output);
    if Foldable(output) then g[Output := Str(JoinText(codec, output.items))] else g
  }

  /** The inverse of the mapping, from (namespace, name) to flat name. */
  function Reverse(m: Mapping): map<(string, string), string>
    requires Invertible(m)
  {
    map e | e in m :: (m[e].namespace, m[e].name) := e
  }

  /** The flat name of a call, when its (namespace, name) pair is one the mapping advertises. */
  function FlatNameOf(m: Mapping, f: Fields): Option<string>
    requires Invertible(m)
  {
    var namespace, name := Get(f, Namespace), Get(f, Name);
    if namespace.Str? && name.Str? && (namespace.s, name.s) in Reverse(m)
       && Reverse(m)[(namespace.s, name.s)] != ""
    then Some(Reverse(m)[(namespace.s, name.s)])
    else None
  }

  function FlattenCall(codec: Codec, f: Fields, flat: string): Fields {
    if TagOf(f) != CustomCall then f[Name := Str(flat)] - {Namespace}
    else if Input in f && Arguments !in f then
      Retyped(f, FunctionCall)[Name := Str(flat)][Arguments := Str(codec.dumps(Wrapped(f[Input])))]
        - {Namespace, Input}
    else Retyped(f, FunctionCall)[Name := Str(flat)] - {Namespace}
  }

  /** What a custom member's caller receives for the argument text the model produced. */
  function RestoredInput(codec: Codec, arguments: string): string {
    match codec.loads(arguments)
    case Some(Obj(g)) => PyStr(codec, if Input in g then g[Input] else Str(""))
    case _ => arguments
  }

  function Named(f: Fields, member: Member): Fields {
    f[Name := Str(member.name)][Namespace := Str(member.namespace)]
  }

  function RestoreCall(codec: Codec, f: Fields, member: Member): Outcome<Fields> {
    if member.kind == "function" then Ok(Named(f, member))
    else
      var arguments := if Arguments in f then f[Arguments] else Str("{}");
      if !arguments.Str? then Raise
      else Ok(Named(Retyped(f, CustomCall), member)[Input := Str(RestoredInput(codec, arguments.s))] - {Arguments})
  }

  /** The member a call or done event is addressed to, when its name is an advertised one. */
  function MemberOf(m: Mapping, f: Fields): Option<Member> {
    var name := Get(f, Name);
    if name.Str? && name.s in m then Some(m[name.s]) else None
  }

  /**
   The three walks over a tree: into the model, out of the model, and the part of the
   first that does not depend on the mapping.
   */
  datatype Pass = Flatten(m: Mapping) | Restore(m: Mapping) | Normalise

  predicate ValidPass(p: Pass) {
    p.Flatten? ==> Invertible(p.m)
  }

  /** The node's own rewriting; an unhashable type, name or namespace raises. */
  function Rewrite(codec: Codec, p: Pass, f: Fields): Outcome<Fields>
    requires ValidPass(p)
  {
    var hashableName, hashableNamespace := Hashable(Get(f, Name)), Hashable(Get(f, Namespace));
    match TagOf(f)
    case Unhashable => Raise
    case Plain => Ok(f)
    case Message => Ok(if p.Restore? then f else WithStatus(f))
    case ToolResult => Ok(if p.Restore? then f else FoldOutput(codec, f))
    case DoneEvent =>
      if !p.Restore? then Ok(f)
      else if !hashableName then Raise
      else
        var member := MemberOf(p.m, f);
        Ok(if member.Some? then Named(f, member.value) else f)
    case _ =>
      if !hashableName || (!p.Restore? && !hashableNamespace) then Raise
      else
        match p
        case Normalise => Ok(f)
        case Flatten(m) =>
          var flat := FlatNameOf(m, f);
          Ok(if flat.Some? then FlattenCall(codec, f, flat.value) else f)
        case Restore(m) =>
          var member := MemberOf(m, f);
          if member.Some? then RestoreCall(codec, f, member.value) else Ok(f)
  }

  /** Every field of `g` is a string or a field of `f`. */
  ghost predicate Origin(f: Fields, g: Fields) {
    forall k | k in g :: g[k].Str? || (k in f && g[k] == f[k])
  }

  lemma FlattenCallOrigin(codec: Codec, f: Fields, flat: string)
    ensures Origin(f, FlattenCall(codec, f, flat))
  {
  }

  lemma RestoreCallOrigin(codec: Codec, f: Fields, member: Member)
    requires RestoreCall(codec, f, member).Ok?
    ensures Origin(f, RestoreCall(codec, f, member).value)
  {
  }

  lemma FoldOutputOrigin(codec: Codec, f: Fields)
    ensures Origin(f, FoldOutput(codec, f))
  {
  }

  /** A rewritten field is a fresh string or one of the node's own fields, so children shrink. */
  lemma RewriteOrigin(codec: Codec, p: Pass, f: Fields)
    requires ValidPass(p) && Rewrite(codec, p, f).Ok?
    ensures Origin(f, Rewrite(codec, p, f).value)
  {
    if TagOf(f) == ToolResult {
      FoldOutputOrigin(codec, f);
    } else if IsCall(f) && p.Flatten? && FlatNameOf(p.m, f).Some? {
      FlattenCallOrigin(codec, f, FlatNameOf(p.m, f).value);
    } else if IsCall(f) && p.Restore? && MemberOf(p.m, f).Some? {
      RestoreCallOrigin(codec, f, MemberOf(p.m, f).value);
    }
  }

  // ---------------------------------------------------------------- the whole tree

  /** Rewrites a node and then visits its children; raises if any node raises. */
  function Visit(codec: Codec, p: Pass, t: Value): Outcome<Value>
    requires ValidPass(p)
    decreases t
  {
    match t
    case Obj(f) =>
      (match Rewrite(codec, p, f)
       case Raise => Raise
       case Ok(g) =>
         RewriteOrigin(codec, p, f);
         if forall k | k in g :: g[k].Str? || Visit(codec, p, g[k]).Ok?
         then Ok(Obj(map k | k in g :: if g[k].Str? then g[k] else Visit(codec, p, g[k]).value))
         else Raise)
    case Arr(items) =>
      if forall i | 0 <= i < |items| :: Visit(codec, p, items[i]).Ok?
      then Ok(Arr(seq(|items|, i requires 0 <= i < |items| => Visit(codec, p, items[i]).value)))
      else Raise
    case _ => Ok(t)
  }
}
