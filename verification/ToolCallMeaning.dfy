/**
 What the gateway's walks do to a document (gateway/codex_gateway.py), said field by field and
 child by child as relations between the document before and the document after. The walks of
 ToolCalls are proved to compute exactly these relations.
 */
module ToolCallMeaning {
  import opened JsonValue
  import opened ToolCalls
  import opened ToolCallRoundTrip

  // ---------------------------------------------------------------- what a node is, by its type

  predicate Typed(f: Fields, text: string) {
    Get(f, Type) == Str(text)
  }

  predicate CallType(f: Fields) {
    Typed(f, "function_call") || Typed(f, "custom_tool_call")
  }

  predicate ResultType(f: Fields) {
    Typed(f, "function_call_output") || Typed(f, "custom_tool_call_output")
  }

  predicate DoneType(f: Fields) {
    Typed(f, "response.function_call_arguments.done") || Typed(f, "response.custom_tool_call_input.done")
  }

  lemma TagsAre(f: Fields)
    ensures TagOf(f) == Unhashable <==> !Hashable(Get(f, Type))
    ensures TagOf(f) == Message <==> Typed(f, "message")
    ensures TagOf(f) == FunctionCall <==> Typed(f, "function_call")
    ensures TagOf(f) == CustomCall <==> Typed(f, "custom_tool_call")
    ensures TagOf(f) == ToolResult <==> ResultType(f)
    ensures TagOf(f) == DoneEvent <==> DoneType(f)
  {
  }

  /** The field is missing from both or the same in both. */
  predicate Same(f: Fields, g: Fields, k: Key) {
    if k in f then k in g && g[k] == f[k] else k !in g
  }

  // ---------------------------------------------------------------- folded texts

  /** What one text part contributes: its text, nothing for a missing or empty one, else Python's `str` of it. */
  function PartText(codec: Codec, part: Value): string
    requires part.Obj?
  {
    match Get(part.fields, Text)
    case Null => ""
    case Bool(false) => ""
    case Str(s) => s
    case v =>
      if v == Int(0) || v == Float(0.0) || v == Arr([]) || v == Obj(map[]) then "" else codec.str(v)
  }

  /** The parts' texts in order. */
  function TextOf(codec: Codec, parts: seq<Value>): string
    requires forall i | 0 <= i < |parts| :: parts[i].Obj?
  {
    if parts == [] then ""
    else TextOf(codec, parts[..|parts| - 1]) + PartText(codec, parts[|parts| - 1])
  }

  /** A list of text parts and of nothing else. */
  predicate TextParts(v: Value) {
    v.Arr? && forall i | 0 <= i < |v.items| :: v.items[i].Obj? && Typed(v.items[i].fields, "input_text")
  }

  lemma OnePart(codec: Codec, part: Value)
    requires TextPart(part)
    ensures JoinText(codec, [part]) == PartText(codec, part)
  {
    assert [part][1..] == [];
  }

  /** The fold of two lists is that of the first followed by that of the second. */
  lemma {:induction false} FoldConcat(codec: Codec, a: seq<Value>, b: seq<Value>)
    requires Foldable(Arr(a)) && Foldable(Arr(b))
    ensures Foldable(Arr(a + b)) && JoinText(codec, a + b) == JoinText(codec, a) + JoinText(codec, b)
  {
    assert forall i | 0 <= i < |a + b| :: (a + b)[i] == if i < |a| then a[i] else b[i - |a|];
    if a == [] {
      assert a + b == b;
    } else {
      assert (a + b)[1..] == a[1..] + b;
      FoldConcat(codec, a[1..], b);
    }
  }

  /** A foldable result folds to its parts' texts in order. */
  lemma {:induction false} FoldIsText(codec: Codec, parts: seq<Value>)
    requires Foldable(Arr(parts))
    ensures forall i | 0 <= i < |parts| :: parts[i].Obj?
    ensures JoinText(codec, parts) == TextOf(codec, parts)
  {
    assert forall i | 0 <= i < |parts| :: TextPart(Arr(parts).items[i]);
    if parts != [] {
      var front, last := parts[..|parts| - 1], parts[|parts| - 1];
      assert parts == front + [last];
      FoldIsText(codec, front);
      FoldConcat(codec, front, [last]);
      OnePart(codec, last);
    }
  }

  // ---------------------------------------------------------------- one node on its way into the model

  /** The part of flattening that does not depend on the mapping. */
  predicate NormalisesTo(codec: Codec, f: Fields, g: Fields) {
    if CallType(f) then Hashable(Get(f, Name)) && Hashable(Get(f, Namespace)) && g == f
    else if ResultType(f) then
      Typed(g, "function_call_output")
      && (if TextParts(Get(f, Output)) then Get(g, Output) == Str(TextOf(codec, Get(f, Output).items))
          else Same(f, g, Output))
      && Others(f, g, {Type, Output})
    else if Typed(f, "message") && Get(f, Role) == Str("assistant") && Status !in f then
      Get(g, Status) == Str("completed") && Others(f, g, {Status})
    else Hashable(Get(f, Type)) && g == f
  }

  /** Outside the given keys nothing changes. */
  predicate Others(f: Fields, g: Fields, keys: set<Key>) {
    forall k | k in f.Keys + g.Keys :: k in keys || Same(f, g, k)
  }

  /** The call names a member that is advertised as `e`. */
  predicate Addresses(m: Mapping, f: Fields, e: string) {
    e in m && e != "" && Get(f, Namespace) == Str(m[e].namespace) && Get(f, Name) == Str(m[e].name)
  }

  /**
   The call is renamed to `e` and loses its namespace, a custom call becomes a function call
   and its input, unless it has arguments already, becomes the argument text.
   */
  predicate CallFlattensTo(codec: Codec, f: Fields, e: string, g: Fields) {
    Get(g, Name) == Str(e) && Namespace !in g && Typed(g, "function_call")
    && (if Typed(f, "custom_tool_call") && Input in f && Arguments !in f
        then Get(g, Arguments) == Str(codec.dumps(Obj(map[Input := f[Input]]))) && Input !in g
        else Same(f, g, Arguments) && Same(f, g, Input))
    && Others(f, g, {Name, Namespace, Type, Input, Arguments})
  }

  predicate FlattensTo(codec: Codec, m: Mapping, f: Fields, g: Fields) {
    if CallType(f) && exists e | e in m :: Addresses(m, f, e)
    then exists e | e in m :: Addresses(m, f, e) && CallFlattensTo(codec, f, e, g)
    else NormalisesTo(codec, f, g)
  }

  // ---------------------------------------------------------------- one node on its way out

  /** What a custom member's caller receives for the argument text. */
  predicate Received(codec: Codec, arguments: string, input: string) {
    match codec.loads(arguments)
    case None => input == arguments
    case Some(Obj(g)) =>
      if Input !in g then input == ""
      else if g[Input].Str? then input == g[Input].s
      else input == codec.str(g[Input])
    case Some(_) => input == arguments
  }

  /** The call gets its own name and its namespace; one of a custom member becomes a custom call with an input. */
  predicate CallRestoresTo(codec: Codec, f: Fields, member: Member, g: Fields) {
    Get(g, Name) == Str(member.name) && Get(g, Namespace) == Str(member.namespace)
    && (if member.kind == "function" then Others(f, g, {Name, Namespace})
        else
          Typed(g, "custom_tool_call") && Arguments !in g && Get(g, Input).Str?
          && (Arguments in f ==> f[Arguments].Str?)
          && Received(codec, if Arguments in f then f[Arguments].s else "{}", g[Input].s)
          && Others(f, g, {Name, Namespace, Type, Arguments, Input}))
  }

  predicate RestoresTo(codec: Codec, m: Mapping, f: Fields, g: Fields) {
    var name := Get(f, Name);
    if CallType(f) then
      Hashable(name) && (if name.Str? && name.s in m then CallRestoresTo(codec, f, m[name.s], g) else g == f)
    else if DoneType(f) then
      Hashable(name)
      && (if name.Str? && name.s in m
          then Get(g, Name) == Str(m[name.s].name) && Get(g, Namespace) == Str(m[name.s].namespace)
               && Others(f, g, {Name, Namespace})
          else g == f)
    else Hashable(Get(f, Type)) && g == f
  }

  predicate NodeBecomes(codec: Codec, p: Pass, f: Fields, g: Fields) {
    match p
    case Flatten(m) => FlattensTo(codec, m, f, g)
    case Restore(m) => RestoresTo(codec, m, f, g)
    case Normalise => NormalisesTo(codec, f, g)
  }

  // ---------------------------------------------------------------- the walks compute these relations

  lemma OneMap(f: Fields, g: Fields)
    requires forall k | k in f.Keys + g.Keys :: Same(f, g, k)
    ensures f == g
  {
    assert f.Keys == g.Keys by {
      forall k ensures k in f <==> k in g {
        if k in f || k in g { assert Same(f, g, k); }
      }
    }
    forall k | k in f ensures f[k] == g[k] {
      assert Same(f, g, k);
    }
  }

  /** Two nodes that differ from a third alike are the same. */
  lemma OneOutside(f: Fields, g: Fields, h: Fields, keys: set<Key>)
    requires Others(f, g, keys) && Others(f, h, keys) && forall k | k in keys :: Same(g, h, k)
    ensures g == h
  {
    forall k | k in g.Keys + h.Keys ensures Same(g, h, k) {
      if k !in keys {
        OutsideSame(f, g, keys, k);
        OutsideSame(f, h, keys, k);
      }
    }
    hide Same, Others;
    OneMap(g, h);
  }

  lemma OutsideSame(f: Fields, g: Fields, keys: set<Key>, k: Key)
    requires Others(f, g, keys) && k !in keys
    ensures Same(f, g, k)
  {
    if k in f.Keys + g.Keys {
      assert Same(f, g, k);
    }
  }

  lemma TextPartsIff(v: Value)
    ensures TextParts(v) <==> Foldable(v)
  {
    if v.Arr? {
      assert forall i | 0 <= i < |v.items| ::
        TextPart(v.items[i]) <==> v.items[i].Obj? && Typed(v.items[i].fields, "input_text");
    }
  }

  lemma FoldNormalises(codec: Codec, f: Fields, g: Fields)
    requires ResultType(f)
    ensures NormalisesTo(codec, f, g) <==> g == FoldOutput(codec, f)
  {
    FoldedResult(codec, f);
    ResultsOnly(f);
    hide FoldOutput, ResultType, CallType, TextParts, TextOf, Typed, Others, Same;
    var h := FoldOutput(codec, f);
    if NormalisesTo(codec, f, g) {
      SameKeys(f, g, h, codec);
      OneOutside(f, g, h, {Type, Output});
    }
  }

  lemma SameKeys(f: Fields, g: Fields, h: Fields, codec: Codec)
    requires ResultType(f) && !CallType(f) && NormalisesTo(codec, f, g) && NormalisesTo(codec, f, h)
    ensures Same(g, h, Type) && Same(g, h, Output)
  {
    hide Others, TextParts, TextOf, ResultType, CallType;
  }

  lemma ResultsOnly(f: Fields)
    requires ResultType(f)
    ensures !CallType(f)
  {
    TagsAre(f);
    hide TagOf, ResultType;
  }

  lemma FoldedResult(codec: Codec, f: Fields)
    requires ResultType(f)
    ensures NormalisesTo(codec, f, FoldOutput(codec, f))
  {
    TextPartsIff(Get(f, Output));
    if Foldable(Get(f, Output)) {
      FoldIsText(codec, Get(f, Output).items);
    }
    ResultsOnly(f);
    hide JoinText, TextOf, TagOf, Foldable, TextParts, CallType, ResultType;
    assert FoldOutput(codec, f)[Type] == Str("function_call_output");
  }

  lemma StatusNormalises(f: Fields, g: Fields)
    requires Status !in f
    ensures Get(g, Status) == Str("completed") && Others(f, g, {Status}) <==> g == f[Status := Str("completed")]
  {
    var h := f[Status := Str("completed")];
    if Get(g, Status) == Str("completed") && Others(f, g, {Status}) {
      forall k | k in g.Keys + h.Keys ensures Same(g, h, k) {
        if k in f.Keys + g.Keys { }
      }
      OneMap(g, h);
    }
  }

  lemma NormaliseIff(codec: Codec, f: Fields, g: Fields)
    ensures Rewrite(codec, Normalise, f) == Ok(g) <==> NormalisesTo(codec, f, g)
  {
    TagsAre(f);
    if ResultType(f) {
      FoldNormalises(codec, f, g);
    }
    if Status !in f {
      StatusNormalises(f, g);
    }
    hide TagOf, FoldOutput, Others, Same, TextParts;
  }

  lemma AddressedIff(m: Mapping, f: Fields)
    requires Invertible(m)
    ensures forall e :: FlatNameOf(m, f) == Some(e) <==> Addresses(m, f, e)
    ensures FlatNameOf(m, f).None? <==> !exists e | e in m :: Addresses(m, f, e)
  {
    forall e ensures FlatNameOf(m, f) == Some(e) <==> Addresses(m, f, e) {
      if Addresses(m, f, e) {
        assert (m[e].namespace, m[e].name) in Reverse(m);
      }
    }
  }

  lemma CallFlattensOne(codec: Codec, f: Fields, e: string, g: Fields, h: Fields)
    requires CallFlattensTo(codec, f, e, g) && CallFlattensTo(codec, f, e, h)
    ensures g == h
  {
    assert Same(g, h, Name) && Same(g, h, Namespace) && Same(g, h, Type) && Same(g, h, Input) && Same(g, h, Arguments)
      by { hide Others; }
    hide Same, Typed;
    OneOutside(f, g, h, {Name, Namespace, Type, Input, Arguments});
  }

  lemma CallFlattens(codec: Codec, f: Fields, e: string, g: Fields)
    requires CallType(f)
    ensures CallFlattensTo(codec, f, e, g) <==> g == FlattenCall(codec, f, e)
  {
    FlattenedCall(codec, f, e);
    hide FlattenCall, CallFlattensTo, CallType;
    if CallFlattensTo(codec, f, e, g) {
      CallFlattensOne(codec, f, e, g, FlattenCall(codec, f, e));
    }
  }

  lemma FlattenedCall(codec: Codec, f: Fields, e: string)
    requires CallType(f)
    ensures CallFlattensTo(codec, f, e, FlattenCall(codec, f, e))
  {
    FlattenSteps(codec, f, e);
    hide CallType, FlattenCall;
    var g := FlattenCall(codec, f, e);
    assert Others(f, g, {Name, Namespace, Type, Input, Arguments}) by { hide Typed; }
    hide Others;
  }

  /** The flattened call, step by step. */
  lemma FlattenSteps(codec: Codec, f: Fields, e: string)
    requires CallType(f)
    ensures
      var g := f[Name := Str(e)][Type := Str("function_call")] - {Namespace};
      FlattenCall(codec, f, e) ==
        if Typed(f, "custom_tool_call") && Input in f && Arguments !in f
        then g[Arguments := Str(codec.dumps(Obj(map[Input := f[Input]])))] - {Input}
        else g
  {
    TagsAre(f);
    hide TagOf;
    var g := f[Name := Str(e)][Type := Str("function_call")] - {Namespace};
    if Typed(f, "function_call") {
      assert f[Name := Str(e)] - {Namespace} == g;
    }
  }

  lemma FlattenIff(codec: Codec, m: Mapping, f: Fields, g: Fields)
    requires Invertible(m)
    ensures Rewrite(codec, Flatten(m), f) == Ok(g) <==> FlattensTo(codec, m, f, g)
  {
    if CallType(f) && FlatNameOf(m, f).Some? {
      FlattenNamedIff(codec, m, f, g);
    } else {
      FlattenUnnamed(codec, m, f);
      AddressedIff(m, f);
      NormaliseIff(codec, f, g);
      hide Rewrite, CallFlattensTo, FlatNameOf, NormalisesTo, Invertible, Addresses, CallType;
    }
  }

  lemma FlattenNamedIff(codec: Codec, m: Mapping, f: Fields, g: Fields)
    requires Invertible(m) && CallType(f) && FlatNameOf(m, f).Some?
    ensures Rewrite(codec, Flatten(m), f) == Ok(g) <==> FlattensTo(codec, m, f, g)
  {
    var e := FlatNameOf(m, f).value;
    TagsAre(f);
    AddressedIff(m, f);
    assert Addresses(m, f, e);
    assert Hashable(Get(f, Name)) && Hashable(Get(f, Namespace)) && e in m;
    CallFlattens(codec, f, e, g);
    hide TagOf, FlattenCall, CallFlattensTo, FlatNameOf, NormalisesTo, Invertible, Addresses;
  }

  /** What is not renamed is normalised. */
  lemma FlattenUnnamed(codec: Codec, m: Mapping, f: Fields)
    requires Invertible(m) && !(CallType(f) && FlatNameOf(m, f).Some?)
    ensures Rewrite(codec, Flatten(m), f) == Rewrite(codec, Normalise, f)
  {
    TagsAre(f);
    hide TagOf, FlatNameOf, FoldOutput, WithStatus, Invertible;
  }

  lemma ReceivedIff(codec: Codec, arguments: string, input: string)
    ensures RestoredInput(codec, arguments) == input <==> Received(codec, arguments, input)
  {
  }

  lemma CallRestores(codec: Codec, f: Fields, member: Member, g: Fields)
    ensures CallRestoresTo(codec, f, member, g) <==> RestoreCall(codec, f, member) == Ok(g)
  {
    if member.kind == "function" {
      NamedIff(f, member, g);
    } else if Arguments in f ==> f[Arguments].Str? {
      RestoredCall(codec, f, member);
      hide RestoreCall;
      if CallRestoresTo(codec, f, member, g) {
        CallRestoresOne(codec, f, member, g, RestoreCall(codec, f, member).value);
      }
    }
  }

  lemma RestoredCall(codec: Codec, f: Fields, member: Member)
    requires member.kind != "function" && (Arguments in f ==> f[Arguments].Str?)
    ensures RestoreCall(codec, f, member).Ok? && CallRestoresTo(codec, f, member, RestoreCall(codec, f, member).value)
  {
    var arguments := if Arguments in f then f[Arguments].s else "{}";
    var input := RestoredInput(codec, arguments);
    var h := f[Type := Str("custom_tool_call")][Name := Str(member.name)][Namespace := Str(member.namespace)]
              [Input := Str(input)] - {Arguments};
    assert RestoreCall(codec, f, member) == Ok(h);
    ReceivedIff(codec, arguments, input);
    hide RestoreCall, RestoredInput, Received;
  }

  lemma CallRestoresOne(codec: Codec, f: Fields, member: Member, g: Fields, h: Fields)
    requires member.kind != "function"
    requires CallRestoresTo(codec, f, member, g) && CallRestoresTo(codec, f, member, h)
    ensures g == h
  {
    var arguments := if Arguments in f then f[Arguments].s else "{}";
    ReceivedIff(codec, arguments, g[Input].s);
    ReceivedIff(codec, arguments, h[Input].s);
    assert Same(g, h, Name) && Same(g, h, Namespace) && Same(g, h, Type) && Same(g, h, Input) && Same(g, h, Arguments)
      by { hide Others, Received, RestoredInput; }
    hide Same, Typed, Received, RestoredInput;
    OneOutside(f, g, h, {Name, Namespace, Type, Arguments, Input});
  }

  lemma NamedIff(f: Fields, member: Member, g: Fields)
    ensures
      (Get(g, Name) == Str(member.name) && Get(g, Namespace) == Str(member.namespace)
       && Others(f, g, {Name, Namespace}))
      <==> g == Named(f, member)
  {
    var h := Named(f, member);
    if Get(g, Name) == Str(member.name) && Get(g, Namespace) == Str(member.namespace)
       && Others(f, g, {Name, Namespace}) {
      forall k | k in g.Keys + h.Keys ensures Same(g, h, k) {
        if k in f.Keys + g.Keys { }
      }
      OneMap(g, h);
    }
  }

  lemma RestoreIff(codec: Codec, m: Mapping, f: Fields, g: Fields)
    ensures Rewrite(codec, Restore(m), f) == Ok(g) <==> RestoresTo(codec, m, f, g)
  {
    TagsAre(f);
    var name := Get(f, Name);
    if name.Str? && name.s in m {
      CallRestores(codec, f, m[name.s], g);
      NamedIff(f, m[name.s], g);
    }
    hide TagOf, RestoreCall, CallRestoresTo, Named, Others;
  }

  lemma NodeIff(codec: Codec, p: Pass, f: Fields, g: Fields)
    requires ValidPass(p)
    ensures Rewrite(codec, p, f) == Ok(g) <==> NodeBecomes(codec, p, f, g)
  {
    match p
    case Flatten(m) => FlattenIff(codec, m, f, g);
    case Restore(m) => RestoreIff(codec, m, f, g);
    case Normalise => NormaliseIff(codec, f, g);
  }

  // ---------------------------------------------------------------- the whole document

  /**
   The document `t` becomes `u`: each dictionary as its own fields say, and then each child that
   is left in it; each element of a list; and nothing else changes.
   */
  ghost predicate Becomes(codec: Codec, p: Pass, t: Json<Key>, u: Json<Key>)
    decreases u
  {
    match u
    case Obj(h) =>
      t.Obj?
      && exists g :: NodeBecomes(codec, p, t.fields, g) && g.Keys == h.Keys
           && forall k | k in h :: Becomes(codec, p, g[k], h[k])
    case Arr(items) =>
      t.Arr? && |t.items| == |items| && forall i | 0 <= i < |items| :: Becomes(codec, p, t.items[i], items[i])
    case _ => t == u
  }

  /** The walk ends without raising in exactly the document it should. */
  lemma {:induction false} WalkIff(codec: Codec, p: Pass, t: Json<Key>, u: Json<Key>)
    requires ValidPass(p)
    ensures Visit(codec, p, t) == Ok(u) <==> Becomes(codec, p, t, u)
    decreases u
  {
    match u
    case Obj(h) =>
      if t.Obj? { ObjectIff(codec, p, t.fields, h); }
    case Arr(items) =>
      if t.Arr? && |t.items| == |items| {
        forall i | 0 <= i < |items|
          ensures Visit(codec, p, t.items[i]) == Ok(items[i]) <==> Becomes(codec, p, t.items[i], items[i])
        {
          WalkIff(codec, p, t.items[i], items[i]);
        }
        hide Rewrite;
        if Becomes(codec, p, t, u) {
          assert Visit(codec, p, t).Ok? && Visit(codec, p, t).value.items == items;
        }
      }
    case _ =>
      if Visit(codec, p, t).Ok? { VisitKeepsShape(codec, p, t); }
  }

  lemma ObjectIff(codec: Codec, p: Pass, f: Fields, h: Fields)
    requires ValidPass(p)
    ensures Visit(codec, p, Obj(f)) == Ok(Obj(h)) <==> Becomes(codec, p, Obj(f), Obj(h))
    decreases Obj(h), 0
  {
    if Visit(codec, p, Obj(f)) == Ok(Obj(h)) {
      VisitFields(codec, p, f);
      var g := Rewrite(codec, p, f).value;
      NodeIff(codec, p, f, g);
      hide Rewrite, NodeBecomes;
      forall k | k in h ensures Becomes(codec, p, g[k], h[k]) {
        WalkIff(codec, p, g[k], h[k]);
      }
    }
    if Becomes(codec, p, Obj(f), Obj(h)) {
      var g :| NodeBecomes(codec, p, f, g) && g.Keys == h.Keys && forall k | k in h :: Becomes(codec, p, g[k], h[k]);
      NodeIff(codec, p, f, g);
      hide Rewrite, NodeBecomes;
      forall k | k in h ensures Visit(codec, p, g[k]) == Ok(h[k]) {
        WalkIff(codec, p, g[k], h[k]);
      }
      VisitFieldsOk(codec, p, f, h);
    }
  }
}
