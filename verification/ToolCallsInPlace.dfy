/**
 The gateway's walks as they run: dictionaries and lists are objects, a node is rewritten where
 it stands, and the walk then goes on into the children it has left (gateway/codex_gateway.py).
 A document just decoded from JSON is a tree, so no two children share a node.
 */
module ToolCallsInPlace {
  import opened JsonValue
  import opened ToolCalls

  /** What a dictionary or list holds: a value that is neither, or a reference to one that is. */
  datatype Ref = Scalar(v: Value) | Child(node: Node)

  datatype Content = Dict(fields: map<Key, Ref>) | List(items: seq<Ref>)

  /** The nodes a reference gives access to. */
  ghost function Span(r: Ref): set<Node> {
    match r
    case Scalar(_) => {}
    case Child(c) => {c} + c.Repr
  }

  ghost predicate Whole(r: Ref)
    reads Span(r)
    decreases Span(r), 3
  {
    match r
    case Scalar(v) => Hashable(v)
    case Child(c) => c.Valid()
  }

  function ValueOf(r: Ref): Value
    requires Whole(r)
    reads Span(r)
    decreases Span(r), 3
  {
    match r
    case Scalar(v) => v
    case Child(c) => c.Document()
  }

  class Node {
    var content: Content
    /** This node and every node below it; a walk only ever lets go of some of them. */
    ghost const Repr: set<Node>

    ghost predicate Above(r: Ref) {
      Span(r) < Repr && this !in Span(r)
    }

    /** The node and all below it form a tree. */
    ghost predicate Valid()
      reads this, Repr
      decreases Repr, 1
    {
      this in Repr
      && match content
         case Dict(fields) =>
           (forall k | k in fields :: Above(fields[k]) && Whole(fields[k]))
           && forall j, k | j in fields && k in fields && j != k :: Span(fields[j]) !! Span(fields[k])
         case List(items) =>
           (forall i | 0 <= i < |items| :: Above(items[i]) && Whole(items[i]))
           && forall i, j | 0 <= i < j < |items| :: Span(items[i]) !! Span(items[j])
    }

    function Fields(): Fields
      requires Valid() && content.Dict?
      reads this, Repr
      decreases Repr, 1
    {
      map k | k in content.fields :: ValueOf(content.fields[k])
    }

    function Items(): seq<Value>
      requires Valid() && content.List?
      reads this, Repr
      decreases Repr, 1
    {
      var items := content.items;
      seq(|items|, i requires 0 <= i < |items| && Above(items[i]) && Whole(items[i]) reads Repr => ValueOf(items[i]))
    }

    /** The JSON document the node stands for. */
    function Document(): Value
      requires Valid()
      reads this, Repr
      decreases Repr, 2
    {
      match content
      case Dict(_) => Obj(Fields())
      case List(_) => Arr(Items())
    }

    /** A dictionary over documents that share nothing. */
    constructor OfDict(fields: map<Key, Ref>)
      requires forall k | k in fields :: Whole(fields[k])
      requires forall j, k | j in fields && k in fields && j != k :: Span(fields[j]) !! Span(fields[k])
      ensures Valid() && Document() == Obj(map k | k in fields :: old(ValueOf(fields[k])))
    {
      content := Dict(fields);
      Repr := {this} + (set k, n | k in fields && n in Span(fields[k]) :: n);
    }

    constructor OfList(items: seq<Ref>)
      requires forall i | 0 <= i < |items| :: Whole(items[i])
      requires forall i, j | 0 <= i < j < |items| :: Span(items[i]) !! Span(items[j])
      ensures Valid() && content == List(items)
      ensures |Items()| == |items| && forall i | 0 <= i < |items| :: Items()[i] == old(ValueOf(items[i]))
    {
      content := List(items);
      Repr := {this} + (set i, n | 0 <= i < |items| && n in Span(items[i]) :: n);
    }

    /** `node[key] = value` for a value that is not itself a dictionary or list. */
    method Set(key: Key, v: Value)
      requires Valid() && content.Dict? && Hashable(v)
      modifies this`content
      ensures Valid() && content.Dict? && Fields() == old(Fields())[key := v]
    {
      content := Dict(content.fields[key := Scalar(v)]);
    }

    /** `node.pop(key, None)`. */
    method Pop(key: Key)
      requires Valid() && content.Dict?
      modifies this`content
      ensures Valid() && content.Dict? && Fields() == old(Fields()) - {key}
    {
      content := Dict(content.fields - {key});
    }
  }

  // ---------------------------------------------------------------- one node

  /** The steps that flatten a call, in the order they are taken. */
  lemma FlattenSteps(codec: Codec, f: Fields, flat: string)
    ensures
      var g := f[Name := Str(flat)] - {Namespace};
      var h := g[Type := Str("function_call")];
      FlattenCall(codec, f, flat) ==
        if TagOf(f) != CustomCall then g
        else if Input in h && Arguments !in h then (h - {Input})[Arguments := Str(codec.dumps(Wrapped(h[Input])))]
        else h
  {
    hide TagOf;
  }

  /** Flattens a call whose flat name is known. */
  method FlattenNode(codec: Codec, node: Node, flat: string)
    requires node.Valid() && node.content.Dict?
    modifies node`content
    ensures node.Valid() && node.content.Dict?
    ensures node.Fields() == FlattenCall(codec, old(node.Fields()), flat)
  {
    hide Node.Valid, Node.Fields, FlattenCall, TagOf;
    FlattenSteps(codec, node.Fields(), flat);
    var custom := TagOf(node.Fields()) == CustomCall;
    node.Set(Name, Str(flat));
    node.Pop(Namespace);
    if custom {
      node.Set(Type, Str("function_call"));
      var now := node.Fields();
      if Input in now && Arguments !in now {
        node.Pop(Input);
        node.Set(Arguments, Str(codec.dumps(Wrapped(now[Input]))));
      }
    }
  }

  lemma RestoreSteps(codec: Codec, f: Fields, member: Member)
    ensures
      var g := f[Name := Str(member.name)][Namespace := Str(member.namespace)];
      var h := g[Type := Str("custom_tool_call")];
      var arguments := if Arguments in h then h[Arguments] else Str("{}");
      RestoreCall(codec, f, member) ==
        if member.kind == "function" then Ok(g)
        else if !arguments.Str? then Raise
        else Ok((h - {Arguments})[Input := Str(RestoredInput(codec, arguments.s))])
  {
    hide TagOf, RestoredInput;
    var g := f[Name := Str(member.name)][Namespace := Str(member.namespace)];
    var h := g[Type := Str("custom_tool_call")];
    assert Named(Retyped(f, CustomCall), member) == h;
    var arguments := if Arguments in h then h[Arguments] else Str("{}");
    if arguments.Str? {
      var v := Str(RestoredInput(codec, arguments.s));
      assert h[Input := v] - {Arguments} == (h - {Arguments})[Input := v];
    }
  }

  /** Gives a call its namespace back; argument text that is not text at all raises. */
  method RestoreNode(codec: Codec, node: Node, member: Member) returns (ok: bool)
    requires node.Valid() && node.content.Dict?
    modifies node`content
    ensures node.Valid() && node.content.Dict?
    ensures var r := RestoreCall(codec, old(node.Fields()), member);
      ok == r.Ok? && (ok ==> node.Fields() == r.value)
  {
    hide Node.Valid, Node.Fields, RestoreCall, RestoredInput, TagOf;
    RestoreSteps(codec, node.Fields(), member);
    node.Set(Name, Str(member.name));
    node.Set(Namespace, Str(member.namespace));
    ok := true;
    if member.kind != "function" {
      node.Set(Type, Str("custom_tool_call"));
      var now := node.Fields();
      var arguments := if Arguments in now then now[Arguments] else Str("{}");
      node.Pop(Arguments);
      if !arguments.Str? {
        return false;
      }
      node.Set(Input, Str(RestoredInput(codec, arguments.s)));
    }
  }

  method FlattenDict(codec: Codec, m: Mapping, node: Node) returns (ok: bool)
    requires node.Valid() && node.content.Dict? && Invertible(m)
    modifies node`content
    ensures node.Valid() && node.content.Dict?
    ensures var r := Rewrite(codec, Flatten(m), old(node.Fields()));
      ok == r.Ok? && (ok ==> node.Fields() == r.value)
  {
    hide Node.Valid, Node.Fields, FlattenCall, FlatNameOf, JoinText, Invertible;
    var f := node.Fields();
    if Get(f, Type) == Str("message") && Get(f, Role) == Str("assistant") && Status !in f {
      node.Set(Status, Str("completed"));
    }
    if !Hashable(Get(f, Type)) {
      return false;
    }
    ok := true;
    if IsCall(f) {
      if !Hashable(Get(f, Name)) || !Hashable(Get(f, Namespace)) {
        return false;
      }
      var flat := FlatNameOf(m, f);
      if flat.Some? {
        FlattenNode(codec, node, flat.value);
      }
    } else if TagOf(f) == ToolResult {
      var output := Get(f, Output);
      node.Set(Type, Str("function_call_output"));
      if Foldable(output) {
        node.Set(Output, Str(JoinText(codec, output.items)));
      }
    }
  }

  method RestoreDict(codec: Codec, m: Mapping, node: Node) returns (ok: bool)
    requires node.Valid() && node.content.Dict?
    modifies node`content
    ensures node.Valid() && node.content.Dict?
    ensures var r := Rewrite(codec, Restore(m), old(node.Fields()));
      ok == r.Ok? && (ok ==> node.Fields() == r.value)
  {
    hide Node.Valid, Node.Fields, RestoreCall, FoldOutput, WithStatus;
    var f := node.Fields();
    if !Hashable(Get(f, Type)) {
      return false;
    }
    ok := true;
    if IsCall(f) {
      if !Hashable(Get(f, Name)) {
        return false;
      }
      var member := MemberOf(m, f);
      if member.Some? {
        ok := RestoreNode(codec, node, member.value);
      }
    } else if TagOf(f) == DoneEvent {
      if !Hashable(Get(f, Name)) {
        return false;
      }
      var member := MemberOf(m, f);
      if member.Some? {
        node.Set(Name, Str(member.value.name));
        node.Set(Namespace, Str(member.value.namespace));
      }
    }
  }

  // ---------------------------------------------------------------- the whole document

  lemma DictFacts(node: Node)
    requires node.Valid() && node.content.Dict?
    ensures node in node.Repr && node.Fields().Keys == node.content.fields.Keys
    ensures forall k | k in node.content.fields && node.content.fields[k].Scalar? :: Hashable(node.Fields()[k])
  {
  }

  lemma VisitScalar(codec: Codec, p: Pass, v: Value)
    requires ValidPass(p) && Hashable(v)
    ensures Visit(codec, p, v) == Ok(v)
  {
  }

  lemma VisitedAll(codec: Codec, p: Pass, f: Fields, g: Fields, h: Fields)
    requires ValidPass(p) && Rewrite(codec, p, f) == Ok(g) && g.Keys == h.Keys
    requires forall k | k in g :: Visit(codec, p, g[k]) == Ok(h[k])
    ensures Visit(codec, p, Obj(f)) == Ok(Obj(h))
  {
    hide Rewrite;
    RewriteOrigin(codec, p, f);
    assert forall k | k in g && g[k].Str? :: Visit(codec, p, g[k]) == Ok(g[k]);
    var v := Visit(codec, p, Obj(f));
    assert v.Ok? && v.value.fields.Keys == h.Keys;
    assert v.value.fields == h;
  }

  lemma VisitRaises(codec: Codec, p: Pass, f: Fields, g: Fields, k: Key)
    requires ValidPass(p) && Rewrite(codec, p, f) == Ok(g) && k in g && Visit(codec, p, g[k]).Raise?
    ensures Visit(codec, p, Obj(f)).Raise?
  {
    hide Rewrite;
  }

  predicate SameExcept(f: Fields, g: Fields, key: Key) {
    f.Keys == g.Keys && key in f && forall k | k in f && k != key :: f[k] == g[k]
  }

  /** How far the walk over a dictionary has come. */
  predicate Walked(codec: Codec, p: Pass, g: Fields, now: Fields, todo: set<Key>)
    requires ValidPass(p)
  {
    now.Keys == g.Keys && todo <= g.Keys
    && forall k | k in g :: if k in todo then now[k] == g[k] else Visit(codec, p, g[k]) == Ok(now[k])
  }

  lemma WalkedOne(codec: Codec, p: Pass, g: Fields, was: Fields, now: Fields, todo: set<Key>, key: Key)
    requires ValidPass(p) && Walked(codec, p, g, was, todo) && key in todo
    requires SameExcept(was, now, key) && Visit(codec, p, g[key]) == Ok(now[key])
    ensures Walked(codec, p, g, now, todo - {key})
  {
    hide Visit;
  }

  /** The walk over one child of a dictionary changes that child alone. */
  method WalkField(codec: Codec, p: Pass, node: Node, key: Key) returns (ok: bool)
    requires node.Valid() && node.content.Dict? && ValidPass(p) && !p.Normalise?
    requires key in node.content.fields && node.content.fields[key].Child?
    modifies node.Repr - {node}
    ensures node.Valid()
    ensures SameExcept(old(node.Fields()), node.Fields(), key)
    ensures var r := Visit(codec, p, old(node.Fields())[key]);
      ok == r.Ok? && (ok ==> node.Fields()[key] == r.value)
    decreases node.Repr, 0
  {
    hide Visit;
    var fields := node.content.fields;
    var child := fields[key].node;
    assert node.Above(fields[key]);
    ok := Walk(codec, p, child);
    forall k | k in fields && k != key
      ensures Whole(fields[k]) && ValueOf(fields[k]) == old(ValueOf(fields[k]))
    {
      assert old(Whole(fields[k])) && Span(fields[k]) !! Span(fields[key]);
    }
    assert node.Valid();
    assert node.Fields().Keys == fields.Keys;
  }

  method WalkDict(codec: Codec, p: Pass, node: Node) returns (ok: bool)
    requires node.Valid() && node.content.Dict? && ValidPass(p) && !p.Normalise?
    modifies node.Repr
    ensures node.Valid() && node.content.Dict?
    ensures var r := Visit(codec, p, Obj(old(node.Fields())));
      ok == r.Ok? && (ok ==> Obj(node.Fields()) == r.value)
    decreases node.Repr, 1
  {
    hide Node.Valid, Node.Fields, Visit, Rewrite;
    ghost var f := node.Fields();
    DictFacts(node);
    if p.Flatten? {
      ok := FlattenDict(codec, p.m, node);
    } else {
      ok := RestoreDict(codec, p.m, node);
    }
    if !ok {
      RewriteRaises(codec, p, f);
      return;
    }
    ghost var g := node.Fields();
    var todo := node.content.fields.Keys;
    DictFacts(node);
    while todo != {}
      invariant node.Valid() && node.content.Dict?
      invariant Walked(codec, p, g, node.Fields(), todo)
      decreases |todo|
    {
      var key :| key in todo;
      DictFacts(node);
      if node.content.fields[key].Child? {
        ghost var was := node.Fields();
        ok := WalkField(codec, p, node, key);
        if !ok {
          VisitRaises(codec, p, f, g, key);
          return;
        }
        WalkedOne(codec, p, g, was, node.Fields(), todo, key);
      } else {
        VisitScalar(codec, p, g[key]);
        WalkedOne(codec, p, g, node.Fields(), node.Fields(), todo, key);
      }
      todo := todo - {key};
    }
    VisitedAll(codec, p, f, g, node.Fields());
    ok := true;
  }

  lemma RewriteRaises(codec: Codec, p: Pass, f: Fields)
    requires ValidPass(p) && Rewrite(codec, p, f).Raise?
    ensures Visit(codec, p, Obj(f)).Raise?
  {
    hide Rewrite;
  }

  /** The walk changes the document in place into the one the value-level walk describes. */
  method Walk(codec: Codec, p: Pass, node: Node) returns (ok: bool)
    requires node.Valid() && ValidPass(p) && !p.Normalise?
    modifies node.Repr
    ensures node.Valid() && node.content.Dict? == old(node.content.Dict?)
    ensures var r := Visit(codec, p, old(node.Document()));
      ok == r.Ok? && (ok ==> node.Document() == r.value)
    decreases node.Repr, 2
  {
    hide Visit;
    if node.content.Dict? {
      ok := WalkDict(codec, p, node);
    } else {
      ok := WalkList(codec, p, node);
    }
  }

  // ---------------------------------------------------------------- lists

  /** The walk over one element of a list changes that element alone. */
  method WalkItem(codec: Codec, p: Pass, node: Node, i: nat) returns (ok: bool)
    requires node.Valid() && node.content.List? && ValidPass(p) && !p.Normalise?
    requires i < |node.content.items| && node.content.items[i].Child?
    modifies node.Repr - {node}
    ensures node.Valid() && |node.Items()| == old(|node.Items()|)
    ensures var r := Visit(codec, p, old(node.Items())[i]);
      ok == r.Ok? && (ok ==> node.Items() == old(node.Items())[i := r.value])
    decreases node.Repr, 0
  {
    hide Visit;
    var items := node.content.items;
    var child := items[i].node;
    assert node.Above(items[i]);
    ok := Walk(codec, p, child);
    forall j | 0 <= j < |items| && j != i
      ensures Whole(items[j]) && ValueOf(items[j]) == old(ValueOf(items[j]))
    {
      assert old(Whole(items[j])) && Span(items[j]) !! Span(items[i]);
    }
  }

  lemma ListFacts(node: Node)
    requires node.Valid() && node.content.List?
    ensures node in node.Repr && |node.Items()| == |node.content.items|
    ensures forall i | 0 <= i < |node.content.items| && node.content.items[i].Scalar? :: Hashable(node.Items()[i])
  {
  }

  lemma VisitedItems(codec: Codec, p: Pass, s: seq<Value>, t: seq<Value>)
    requires ValidPass(p) && |s| == |t| && forall i | 0 <= i < |s| :: Visit(codec, p, s[i]) == Ok(t[i])
    ensures Visit(codec, p, Arr(s)) == Ok(Arr(t))
  {
    var v := Visit(codec, p, Arr(s));
    assert v.Ok? && |v.value.items| == |t|;
    assert v.value.items == t;
  }

  lemma ItemRaises(codec: Codec, p: Pass, s: seq<Value>, i: nat)
    requires ValidPass(p) && i < |s| && Visit(codec, p, s[i]).Raise?
    ensures Visit(codec, p, Arr(s)).Raise?
  {
  }

  method WalkList(codec: Codec, p: Pass, node: Node) returns (ok: bool)
    requires node.Valid() && node.content.List? && ValidPass(p) && !p.Normalise?
    modifies node.Repr
    ensures node.Valid() && node.content.List?
    ensures var r := Visit(codec, p, Arr(old(node.Items())));
      ok == r.Ok? && (ok ==> Arr(node.Items()) == r.value)
    decreases node.Repr, 1
  {
    hide Node.Valid, Node.Items, Visit;
    ghost var s := node.Items();
    ListFacts(node);
    for i := 0 to |node.content.items|
      invariant node.Valid() && node.content == old(node.content)
      invariant |node.Items()| == |node.content.items| == |s|
      invariant forall j | 0 <= j < i :: Visit(codec, p, s[j]) == Ok(node.Items()[j])
      invariant forall j | i <= j < |s| :: node.Items()[j] == s[j]
    {
      ListFacts(node);
      if node.content.items[i].Child? {
        ok := WalkItem(codec, p, node, i);
        if !ok {
          ItemRaises(codec, p, s, i);
          return;
        }
      } else {
        VisitScalar(codec, p, s[i]);
      }
    }
    VisitedItems(codec, p, s, node.Items());
    ok := true;
  }

  /** The request's calls get their flat names, in place. */
  method FlattenInputCalls(codec: Codec, m: Mapping, node: Node) returns (ok: bool)
    requires node.Valid() && Invertible(m)
    modifies node.Repr
    ensures node.Valid()
    ensures var r := Visit(codec, Flatten(m), old(node.Document()));
      ok == r.Ok? && (ok ==> node.Document() == r.value)
  {
    ok := Walk(codec, Flatten(m), node);
  }

  /** The response's calls get their namespaces back, in place. */
  method RestoreOutputCalls(codec: Codec, m: Mapping, node: Node) returns (ok: bool)
    requires node.Valid()
    modifies node.Repr
    ensures node.Valid()
    ensures var r := Visit(codec, Restore(m), old(node.Document()));
      ok == r.Ok? && (ok ==> node.Document() == r.value)
  {
    ok := Walk(codec, Restore(m), node);
  }
}
