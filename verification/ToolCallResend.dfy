/**
 The other direction: a model response that is restored for the client and later sent back
 in a request is flattened to what the model produced, again up to normalisation, exactly
 on the trees described here.
 */
module ToolCallResend {
  import opened JsonValue
  import opened ToolCalls
  import opened ToolCallRoundTrip

  /** Flattening the restored tree succeeds and gives the normal form of the tree. */
  predicate Resends(codec: Codec, m: Mapping, t: Json<Key>)
    requires Invertible(m)
  {
    var back := Visit(codec, Restore(m), t);
    back.Ok? && Visit(codec, Flatten(m), back.value).Ok?
    && Visit(codec, Flatten(m), back.value) == Visit(codec, Normalise, t)
  }

  /** A custom member's argument text is just what wrapping its input would write. */
  predicate CanonicalArguments(codec: Codec, f: Fields) {
    Input !in f && Get(f, Arguments).Str?
    && f[Arguments].s == codec.dumps(Wrapped(Str(RestoredInput(codec, f[Arguments].s))))
  }

  /** Restoring the parts of a foldable tool result does not change the text they fold to. */
  predicate StableFold(codec: Codec, m: Mapping, output: Json<Key>)
    requires Invertible(m)
  {
    var back := Visit(codec, Restore(m), output);
    back.Ok? && Foldable(output) && Foldable(back.value)
    && JoinText(codec, back.value.items) == JoinText(codec, output.items)
  }

  /** What a single node must satisfy to be sent back as it was received. */
  predicate Resendable(codec: Codec, m: Mapping, f: Fields)
    requires Invertible(m)
  {
    match TagOf(f)
    case FunctionCall =>
      if MemberOf(m, f).Some?
      then Namespace !in f && (MemberOf(m, f).value.kind == "function" || CanonicalArguments(codec, f))
      else FlatNameOf(m, f).None?
    case CustomCall => MemberOf(m, f).None? && FlatNameOf(m, f).None?
    case DoneEvent =>
      Hashable(Get(f, Name)) && (MemberOf(m, f).Some? ==> Named(f, MemberOf(m, f).value) == f)
    case ToolResult => Foldable(Get(f, Output)) ==> StableFold(codec, m, Get(f, Output))
    case _ => true
  }

  predicate ConformsBack(codec: Codec, m: Mapping, t: Json<Key>)
    requires Invertible(m)
    decreases t
  {
    match t
    case Obj(f) =>
      var n := Rewrite(codec, Normalise, f);
      n.Ok? && (RewriteOrigin(codec, Normalise, f); true) && Resendable(codec, m, f)
      && forall k | k in n.value :: n.value[k].Str? || ConformsBack(codec, m, n.value[k])
    case Arr(items) => forall i | 0 <= i < |items| :: ConformsBack(codec, m, items[i])
    case _ => true
  }

  // ---------------------------------------------------------------- folding

  lemma RestoreKeepsTextType(codec: Codec, m: Mapping, f: Fields)
    requires Rewrite(codec, Restore(m), f).Ok?
    ensures Get(Rewrite(codec, Restore(m), f).value, Type) == Str("input_text") <==> Get(f, Type) == Str("input_text")
  {
  }

  lemma FoldableVisited(codec: Codec, m: Mapping, output: Json<Key>)
    requires Invertible(m) && Visit(codec, Restore(m), output).Ok?
    ensures Foldable(output) <==> Foldable(Visit(codec, Restore(m), output).value)
  {
    var back := Visit(codec, Restore(m), output).value;
    if output.Arr? {
      forall i | 0 <= i < |output.items| ensures TextPart(output.items[i]) <==> TextPart(back.items[i]) {
        var part := output.items[i];
        VisitKeepsShape(codec, Restore(m), part);
        if part.Obj? {
          VisitFields(codec, Restore(m), part.fields);
          RestoreKeepsTextType(codec, m, part.fields);
          SameShapesString(Rewrite(codec, Restore(m), part.fields).value, back.items[i].fields, Type);
        }
      }
    } else {
      VisitKeepsShape(codec, Restore(m), output);
    }
  }

  /** Parts whose text is a plain string, number or null always fold to the same text. */
  lemma {:induction false} PlainTextsFold(codec: Codec, m: Mapping, parts: seq<Value>)
    requires Invertible(m) && Foldable(Arr(parts))
    requires forall i | 0 <= i < |parts| :: TextPart(parts[i]) && Hashable(Get(parts[i].fields, Text))
    requires Visit(codec, Restore(m), Arr(parts)).Ok?
    ensures StableFold(codec, m, Arr(parts))
  {
    FoldableVisited(codec, m, Arr(parts));
    var back := Visit(codec, Restore(m), Arr(parts)).value.items;
    forall i | 0 <= i < |parts| ensures Get(back[i].fields, Text) == Get(parts[i].fields, Text) {
      var f := parts[i].fields;
      VisitFields(codec, Restore(m), f);
      assert TagOf(f) == Plain;
      SameShapesString(f, back[i].fields, Text);
    }
    SameTextsJoin(codec, parts, back);
  }

  lemma {:induction false} SameTextsJoin(codec: Codec, a: seq<Value>, b: seq<Value>)
    requires Foldable(Arr(a)) && Foldable(Arr(b)) && |a| == |b|
    requires forall i | 0 <= i < |a| ::
      TextPart(a[i]) && TextPart(b[i]) && Get(a[i].fields, Text) == Get(b[i].fields, Text)
    ensures JoinText(codec, a) == JoinText(codec, b)
  {
    if a != [] {
      assert forall i | 0 <= i < |a| - 1 :: a[1..][i] == a[i + 1] && b[1..][i] == b[i + 1];
      SameTextsJoin(codec, a[1..], b[1..]);
    }
  }

  // ---------------------------------------------------------------- one node

  lemma FlatNameOfBack(m: Mapping, back: Fields, e: string)
    requires Invertible(m) && e in m
    requires Get(back, Name) == Str(m[e].name) && Get(back, Namespace) == Str(m[e].namespace)
    ensures FlatNameOf(m, back) == Some(e)
  {
    assert (m[e].namespace, m[e].name) in Reverse(m);
  }

  lemma SameFlatName(m: Mapping, f: Fields, back: Fields)
    requires Invertible(m) && SameShapes(f, back)
    ensures FlatNameOf(m, back) == FlatNameOf(m, f)
    ensures Hashable(Get(f, Name)) == Hashable(Get(back, Name))
    ensures Hashable(Get(f, Namespace)) == Hashable(Get(back, Namespace))
  {
    SameShapesString(f, back, Name);
    SameShapesString(f, back, Namespace);
  }

  lemma FunctionMemberResend(codec: Codec, m: Mapping, f: Fields, e: string, back: Fields)
    requires Invertible(m) && e in m && TagOf(f) == FunctionCall && Get(f, Name) == Str(e)
    requires Namespace !in f && m[e].kind == "function"
    requires SameShapes(Named(f, m[e]), back)
    ensures Rewrite(codec, Flatten(m), back).Ok?
    ensures RestoredFrom(f, Named(f, m[e]), back, Rewrite(codec, Flatten(m), back).value)
  {
    var r := Named(f, m[e]);
    SameShapesTag(r, back);
    SameShapesString(r, back, Name);
    SameShapesString(r, back, Namespace);
    FlatNameOfBack(m, back, e);
    hide TagOf, SameShapes;
  }

  /** The bookkeeping of keys behind CustomMemberResend. */
  lemma CustomFieldsResent(f: Fields, r: Fields, back: Fields, g: Fields, a: Value, b: Value, c: Value, d: Value)
    requires f.Keys >= {Type, Name, Arguments} && Input !in f && Namespace !in f
    requires f[Type].Str? && f[Name].Str? && f[Arguments].Str?
    requires r == f[Type := a][Name := b][Namespace := c][Input := d] - {Arguments}
    requires back.Keys == r.Keys
    requires g == back[Type := f[Type]][Name := f[Name]][Arguments := f[Arguments]] - {Namespace, Input}
    ensures RestoredFrom(f, r, back, g)
  {
  }

  lemma CustomMemberResend(codec: Codec, m: Mapping, f: Fields, e: string, back: Fields)
    requires Invertible(m) && e in m && TagOf(f) == FunctionCall && Get(f, Name) == Str(e)
    requires Namespace !in f && m[e].kind != "function" && CanonicalArguments(codec, f)
    requires RestoreCall(codec, f, m[e]).Ok? && SameShapes(RestoreCall(codec, f, m[e]).value, back)
    ensures Rewrite(codec, Flatten(m), back).Ok?
    ensures RestoredFrom(f, RestoreCall(codec, f, m[e]).value, back, Rewrite(codec, Flatten(m), back).value)
  {
    hide SameShapes, RestoredFrom, RestoreCall, Rewrite;
    assert f[Type] == Str("function_call");
    var input := RestoredInput(codec, f[Arguments].s);
    var r := RestoreCall(codec, f, m[e]).value;
    CustomCallGiven(codec, f, m[e]);
    SameShapesTag(r, back);
    SameShapesString(r, back, Name);
    SameShapesString(r, back, Namespace);
    SameShapesString(r, back, Input);
    SameShapesString(r, back, Arguments);
    FlatNameOfBack(m, back, e);
    CustomCallReflattened(codec, m, back, e, input);
    hide TagOf;
    CustomFieldsResent(f, r, back, Rewrite(codec, Flatten(m), back).value,
                       r[Type], r[Name], r[Namespace], r[Input]);
  }

  lemma CustomCallGiven(codec: Codec, f: Fields, member: Member)
    requires member.kind != "function" && Get(f, Arguments).Str?
    ensures RestoreCall(codec, f, member)
      == Ok(f[Type := Str("custom_tool_call")][Name := Str(member.name)][Namespace := Str(member.namespace)]
              [Input := Str(RestoredInput(codec, f[Arguments].s))] - {Arguments})
  {
  }

  lemma CustomCallReflattened(codec: Codec, m: Mapping, back: Fields, e: string, input: string)
    requires Invertible(m) && FlatNameOf(m, back) == Some(e) && TagOf(back) == CustomCall
    requires Get(back, Input) == Str(input) && Arguments !in back
    ensures Rewrite(codec, Flatten(m), back)
      == Ok(back[Type := Str("function_call")][Name := Str(e)][Arguments := Str(codec.dumps(Wrapped(Str(input))))]
              - {Namespace, Input})
  {
  }

  /** The bookkeeping of keys behind ToolResultResend. */
  lemma FoldedFieldsResent(f: Fields, back: Fields, n: Fields, g: Fields, kind: Value, text: Value)
    requires f.Keys == back.Keys && kind.Str? && text.Str?
    requires (n == f[Type := kind] && g == back[Type := kind])
          || (n == f[Type := kind][Output := text] && g == back[Type := kind][Output := text])
    ensures RestoredFrom(n, f, back, g)
  {
  }

  lemma ToolResultResend(codec: Codec, m: Mapping, f: Fields, back: Fields)
    requires Invertible(m) && TagOf(f) == ToolResult && SameShapes(f, back)
    requires Visit(codec, Restore(m), Get(f, Output)) == Ok(Get(back, Output))
    requires Resendable(codec, m, f)
    ensures Rewrite(codec, Flatten(m), back).Ok?
    ensures RestoredFrom(FoldOutput(codec, f), f, back, Rewrite(codec, Flatten(m), back).value)
  {
    SameShapesTag(f, back);
    SameShapesString(f, back, Output);
    FoldableVisited(codec, m, Get(f, Output));
    hide TagOf, SameShapes, Visit, RestoredFrom, Foldable;
    var text := if Foldable(Get(f, Output)) then Str(JoinText(codec, Get(f, Output).items)) else Str("");
    FoldedFieldsResent(f, back, FoldOutput(codec, f), FoldOutput(codec, back), Str("function_call_output"), text);
  }

  lemma LocalResend(codec: Codec, m: Mapping, f: Fields, back: Fields)
    requires Invertible(m) && Rewrite(codec, Normalise, f).Ok? && Resendable(codec, m, f)
    requires Rewrite(codec, Restore(m), f).Ok? && SameShapes(Rewrite(codec, Restore(m), f).value, back)
    requires TagOf(f) == ToolResult ==> Visit(codec, Restore(m), Get(f, Output)) == Ok(Get(back, Output))
    ensures Rewrite(codec, Flatten(m), back).Ok?
    ensures RestoredFrom(Rewrite(codec, Normalise, f).value, Rewrite(codec, Restore(m), f).value, back,
                         Rewrite(codec, Flatten(m), back).value)
  {
    if IsCall(f) && MemberOf(m, f).Some? {
      hide TagOf, SameShapes, RestoredFrom, Visit, FlattenCall;
      var e := f[Name].s;
      if m[e].kind == "function" {
        FunctionMemberResend(codec, m, f, e, back);
      } else {
        CustomMemberResend(codec, m, f, e, back);
      }
    } else if TagOf(f) == ToolResult {
      hide TagOf, SameShapes, RestoredFrom, Visit;
      ToolResultResend(codec, m, f, back);
    } else {
      SameShapesTag(f, back);
      SameFlatName(m, f, back);
      SameShapesString(f, back, Role);
      hide TagOf, SameShapes, Visit, FlattenCall, RestoreCall, FoldOutput, FlatNameOf;
    }
  }

  lemma MappedCallNotResent(codec: Codec, m: Mapping, f: Fields, e: string, back: Fields, again: Fields, norm: Fields)
    requires Invertible(m) && e in m && IsCall(f) && Get(f, Name) == Str(e)
    requires !Resendable(codec, m, f)
    requires RestoreCall(codec, f, m[e]).Ok? && SameShapes(RestoreCall(codec, f, m[e]).value, back)
    requires TagOf(back) in {FunctionCall, CustomCall} && SameShapes(FlattenCall(codec, back, e), again)
    requires SameShapes(f, norm)
    ensures again != norm
  {
    var g := FlattenCall(codec, back, e);
    FlattenCallNames(codec, back, e);
    SameShapesTag(g, again);
    SameShapesTag(f, norm);
    SameShapesString(g, again, Namespace);
    SameShapesString(f, norm, Namespace);
    if TagOf(f) == FunctionCall && Namespace !in f {
      CustomMemberNotResent(codec, f, m[e], e, back, again, norm);
    } else {
      hide SameShapes, TagOf;
    }
  }

  lemma CustomMemberNotResent(
      codec: Codec, f: Fields, member: Member, e: string, back: Fields, again: Fields, norm: Fields)
    requires member.kind != "function" && !CanonicalArguments(codec, f)
    requires RestoreCall(codec, f, member).Ok? && SameShapes(RestoreCall(codec, f, member).value, back)
    requires SameShapes(FlattenCall(codec, back, e), again) && SameShapes(f, norm)
    ensures again != norm
  {
    var r := RestoreCall(codec, f, member).value;
    var input := if Arguments in f then RestoredInput(codec, f[Arguments].s) else "";
    SameShapesTag(r, back);
    assert TagOf(back) == CustomCall;
    hide TagOf, SameShapes;
    SameShapesString(r, back, Input);
    SameShapesString(r, back, Arguments);
    var g := FlattenCall(codec, back, e);
    assert Input !in g && g[Arguments] == Str(codec.dumps(Wrapped(back[Input])));
    SameShapesString(g, again, Arguments);
    SameShapesString(f, norm, Arguments);
    SameShapesString(g, again, Input);
    SameShapesString(f, norm, Input);
  }

  lemma UnmappedCallNotResent(codec: Codec, m: Mapping, f: Fields, back: Fields, again: Fields, norm: Fields)
    requires Invertible(m) && IsCall(f) && MemberOf(m, f).None? && FlatNameOf(m, f).Some?
    requires SameShapes(f, back) && SameShapes(f, norm)
    requires SameShapes(FlattenCall(codec, back, FlatNameOf(m, f).value), again)
    ensures again != norm
  {
    var e := FlatNameOf(m, f).value;
    SameShapesTag(f, back);
    FlattenCallNames(codec, back, e);
    hide SameShapes, TagOf, FlattenCall;
    SameShapesString(FlattenCall(codec, back, e), again, Name);
    SameShapesString(f, norm, Name);
  }

  lemma ToolResultNotResent(codec: Codec, m: Mapping, f: Fields, back: Fields, again: Fields, norm: Fields)
    requires Invertible(m) && TagOf(f) == ToolResult && !Resendable(codec, m, f)
    requires Visit(codec, Restore(m), Get(f, Output)) == Ok(Get(back, Output))
    requires SameShapes(FoldOutput(codec, back), again) && SameShapes(FoldOutput(codec, f), norm)
    ensures again != norm
  {
    FoldableVisited(codec, m, Get(f, Output));
    hide TagOf, SameShapes, Visit;
    SameShapesString(FoldOutput(codec, back), again, Output);
    SameShapesString(FoldOutput(codec, f), norm, Output);
  }

  lemma LocalNotResent(codec: Codec, m: Mapping, f: Fields, back: Fields, again: Fields, norm: Fields)
    requires Invertible(m) && !Resendable(codec, m, f)
    requires Rewrite(codec, Normalise, f).Ok? && SameShapes(Rewrite(codec, Normalise, f).value, norm)
    requires Rewrite(codec, Restore(m), f).Ok? && SameShapes(Rewrite(codec, Restore(m), f).value, back)
    requires TagOf(f) == ToolResult ==> Visit(codec, Restore(m), Get(f, Output)) == Ok(Get(back, Output))
    requires Rewrite(codec, Flatten(m), back).Ok? && SameShapes(Rewrite(codec, Flatten(m), back).value, again)
    ensures again != norm
  {
    hide Visit, SameShapes, TagOf, FlattenCall, FoldOutput, RestoreCall;
    var r := Rewrite(codec, Restore(m), f).value;
    SameShapesTag(r, back);
    if TagOf(f) == ToolResult {
      ToolResultNotResent(codec, m, f, back, again, norm);
    } else if MemberOf(m, f).Some? {
      var e := f[Name].s;
      RestoreNames(codec, m, f);
      RestoreTag(codec, m, f);
      SameShapesString(r, back, Name);
      SameShapesString(r, back, Namespace);
      FlatNameOfBack(m, back, e);
      if IsCall(f) {
        MappedCallNotResent(codec, m, f, e, back, again, norm);
      } else {
        NamedDiffers(f, m[e], back, again, norm);
      }
    } else {
      SameFlatName(m, f, back);
      UnmappedCallNotResent(codec, m, f, back, again, norm);
    }
  }

  lemma RestoreTag(codec: Codec, m: Mapping, f: Fields)
    requires Rewrite(codec, Restore(m), f).Ok?
    ensures IsCall(f) ==> IsCall(Rewrite(codec, Restore(m), f).value)
    ensures !IsCall(f) ==> TagOf(Rewrite(codec, Restore(m), f).value) == TagOf(f)
  {
  }

  // ---------------------------------------------------------------- the whole tree

  lemma ResendableRestores(codec: Codec, m: Mapping, f: Fields)
    requires Invertible(m) && Rewrite(codec, Normalise, f).Ok? && Resendable(codec, m, f)
    ensures Rewrite(codec, Restore(m), f).Ok?
    ensures forall k | k in Rewrite(codec, Restore(m), f).value ::
      var v := Rewrite(codec, Restore(m), f).value[k];
      v.Str? || (k in Rewrite(codec, Normalise, f).value && v == Rewrite(codec, Normalise, f).value[k])
      || (TagOf(f) == ToolResult && k == Output && v == Get(f, Output) && Foldable(v))
  {
    hide TagOf, StableFold;
    RestoreOkOrigin(codec, m, f);
    if TagOf(f) == ToolResult {
      NormalisedResult(codec, f);
    }
  }

  lemma RestoreOkOrigin(codec: Codec, m: Mapping, f: Fields)
    requires Invertible(m) && Rewrite(codec, Normalise, f).Ok? && Resendable(codec, m, f)
    ensures Rewrite(codec, Restore(m), f).Ok? && Origin(f, Rewrite(codec, Restore(m), f).value)
  {
    assert Rewrite(codec, Restore(m), f).Ok? by { hide TagOf; }
    RewriteOrigin(codec, Restore(m), f);
  }

  lemma NormalisedResult(codec: Codec, f: Fields)
    requires TagOf(f) == ToolResult
    ensures
      var n := FoldOutput(codec, f);
      forall k | k in f && !f[k].Str? :: (k in n && n[k] == f[k]) || (k == Output && Foldable(f[k]))
  {
  }

  lemma ObjectResends(codec: Codec, m: Mapping, f: Fields)
    requires Invertible(m) && Rewrite(codec, Normalise, f).Ok? && Resendable(codec, m, f)
    requires forall k | k in Rewrite(codec, Normalise, f).value ::
      Resends(codec, m, Rewrite(codec, Normalise, f).value[k])
    ensures Resends(codec, m, Obj(f))
  {
    ResendableRestores(codec, m, f);
    var n := Rewrite(codec, Normalise, f).value;
    var r := Rewrite(codec, Restore(m), f).value;
    assert TagOf(f) == ToolResult ==> r == f;
    hide Rewrite, TagOf, Foldable;
    forall k | k in r ensures Visit(codec, Restore(m), r[k]).Ok? {
      if !r[k].Str? && k in n && r[k] == n[k] {
        assert Resends(codec, m, n[k]);
      }
    }
    hide Resendable;
    var back := Visited(codec, Restore(m), r);
    VisitFieldsOk(codec, Restore(m), f, back);
    VisitFields(codec, Restore(m), f);
    assert TagOf(f) == ToolResult ==> Visit(codec, Restore(m), Get(f, Output)) == Ok(Get(back, Output));
    LocalResend(codec, m, f, back);
    var g := Rewrite(codec, Flatten(m), back).value;
    var norm := Visited(codec, Normalise, n);
    VisitFieldsOk(codec, Normalise, f, norm);
    ResentChildren(codec, m, n, r, back, g, norm);
    VisitFieldsOk(codec, Flatten(m), back, norm);
  }

  lemma ResentChildren(codec: Codec, m: Mapping, n: Fields, r: Fields, back: Fields, g: Fields, norm: Fields)
    requires Invertible(m) && RestoredFrom(n, r, back, g)
    requires forall k | k in n :: Resends(codec, m, n[k])
    requires back.Keys == r.Keys && forall k | k in r :: Visit(codec, Restore(m), r[k]) == Ok(back[k])
    requires norm.Keys == n.Keys && forall k | k in n :: Visit(codec, Normalise, n[k]) == Ok(norm[k])
    ensures forall k | k in g :: Visit(codec, Flatten(m), g[k]) == Ok(norm[k])
  {
    hide Rewrite;
    forall k | k in g ensures Visit(codec, Flatten(m), g[k]) == Ok(norm[k]) {
      if k in r && r[k] == n[k] && k in back && g[k] == back[k] {
        assert Resends(codec, m, n[k]);
      } else {
        assert g[k] == n[k] && n[k].Str?;
      }
    }
  }

  /** Every tree whose nodes are resendable comes back to the model as its normal form. */
  lemma {:induction false} ConformingResends(codec: Codec, m: Mapping, t: Json<Key>)
    requires Invertible(m) && ConformsBack(codec, m, t)
    ensures Resends(codec, m, t)
    decreases t
  {
    match t
    case Obj(f) =>
      var n := Rewrite(codec, Normalise, f).value;
      RewriteOrigin(codec, Normalise, f);
      forall k | k in n ensures Resends(codec, m, n[k]) {
        if !n[k].Str? { ConformingResends(codec, m, n[k]); }
      }
      ObjectResends(codec, m, f);
    case Arr(items) =>
      hide Rewrite;
      forall i | 0 <= i < |items| ensures Resends(codec, m, items[i]) {
        ConformingResends(codec, m, items[i]);
      }
      var back := Visit(codec, Restore(m), t).value;
      assert forall i | 0 <= i < |items| :: back.items[i] == Visit(codec, Restore(m), items[i]).value;
      assert Visit(codec, Flatten(m), back).value.items == Visit(codec, Normalise, t).value.items;
    case _ =>
  }

  lemma ResentObjectParts(codec: Codec, m: Mapping, f: Fields)
    requires Invertible(m) && Resends(codec, m, Obj(f))
    ensures Rewrite(codec, Normalise, f).Ok? && Resendable(codec, m, f)
    ensures forall k | k in Rewrite(codec, Normalise, f).value ::
      Resends(codec, m, Rewrite(codec, Normalise, f).value[k])
  {
    VisitFields(codec, Restore(m), f);
    VisitFields(codec, Normalise, f);
    var back := Visit(codec, Restore(m), Obj(f)).value.fields;
    assert TagOf(f) == ToolResult ==> Visit(codec, Restore(m), Get(f, Output)) == Ok(Get(back, Output));
    hide Rewrite, Resendable, TagOf;
    VisitFields(codec, Flatten(m), back);
    var n := Rewrite(codec, Normalise, f).value;
    var again := Visit(codec, Flatten(m), Obj(back)).value.fields;
    if !Resendable(codec, m, f) {
      LocalNotResent(codec, m, f, back, again, again);
    }
    LocalResend(codec, m, f, back);
    forall k | k in n ensures Resends(codec, m, n[k]) {
      if n[k].Str? {
      } else {
        assert Visit(codec, Restore(m), n[k]) == Ok(back[k]);
      }
    }
  }

  /** Only those trees do. */
  lemma {:induction false} ResendingConforms(codec: Codec, m: Mapping, t: Json<Key>)
    requires Invertible(m) && Resends(codec, m, t)
    ensures ConformsBack(codec, m, t)
    decreases t
  {
    match t
    case Obj(f) =>
      var n := Rewrite(codec, Normalise, f).value;
      ResentObjectParts(codec, m, f);
      RewriteOrigin(codec, Normalise, f);
      forall k | k in n ensures n[k].Str? || ConformsBack(codec, m, n[k]) {
        if !n[k].Str? { ResendingConforms(codec, m, n[k]); }
      }
    case Arr(items) =>
      var back := Visit(codec, Restore(m), t).value;
      forall i | 0 <= i < |items| ensures ConformsBack(codec, m, items[i]) {
        assert back.items[i] == Visit(codec, Restore(m), items[i]).value;
        assert Visit(codec, Flatten(m), back).value.items[i] == Visit(codec, Normalise, t).value.items[i];
        ResendingConforms(codec, m, items[i]);
      }
    case _ =>
  }

  /** Flattening what was restored gives the normal form exactly for those trees. */
  lemma ResendIff(codec: Codec, m: Mapping, t: Json<Key>)
    requires Invertible(m)
    ensures Resends(codec, m, t) <==> ConformsBack(codec, m, t)
  {
    if ConformsBack(codec, m, t) { ConformingResends(codec, m, t); }
    if Resends(codec, m, t) { ResendingConforms(codec, m, t); }
  }
}
