/**
 Restoring undoes flattening, and flattening undoes restoring, exactly on the trees described
 here by conditions on single nodes; on every other tree the round trip changes something.
 */
module ToolCallRoundTrip {
  import opened JsonValue
  import opened ToolCalls

  /** A scalar is the same on both sides; a list stays a list and an object an object. */
  predicate SameShape(v: Value, w: Value) {
    match v
    case Arr(_) => w.Arr?
    case Obj(_) => w.Obj?
    case _ => v == w
  }

  predicate SameShapes(f: Fields, g: Fields) {
    f.Keys == g.Keys && forall k | k in f :: SameShape(f[k], g[k])
  }

  lemma SameShapesTag(f: Fields, g: Fields)
    requires SameShapes(f, g)
    ensures TagOf(f) == TagOf(g)
  {
    assert SameShape(Get(f, Type), Get(g, Type));
  }

  lemma SameShapesString(f: Fields, g: Fields, k: Key)
    requires SameShapes(f, g)
    ensures f.Keys == g.Keys
    ensures Get(f, k).Str? ==> Get(g, k) == Get(f, k)
    ensures Hashable(Get(f, k)) ==> Get(g, k) == Get(f, k)
    ensures !Hashable(Get(f, k)) ==> !Hashable(Get(g, k))
  {
    assert k in f ==> SameShape(f[k], g[k]);
  }

  /** Restoring the flattened tree succeeds and gives the mapping-independent normal form. */
  predicate RoundTrips(codec: Codec, m: Mapping, t: Value)
    requires Invertible(m)
  {
    var flat := Visit(codec, Flatten(m), t);
    flat.Ok? && Visit(codec, Restore(m), flat.value).Ok?
    && Visit(codec, Restore(m), flat.value) == Visit(codec, Normalise, t)
  }

  /** A mapped call must be the kind of call its member takes. */
  predicate KindMatches(f: Fields, member: Member) {
    if TagOf(f) == FunctionCall then member.kind == "function"
    else member.kind != "function" && Get(f, Input).Str? && Arguments !in f
  }

  /** What a single node must satisfy for its rewriting to be undone. */
  predicate Reversible(m: Mapping, f: Fields)
    requires Invertible(m)
  {
    if IsCall(f) then
      match FlatNameOf(m, f)
      case Some(flat) => KindMatches(f, m[flat])
      case None => MemberOf(m, f).None?
    else if TagOf(f) == DoneEvent then
      Hashable(Get(f, Name)) && (MemberOf(m, f).Some? ==> Named(f, MemberOf(m, f).value) == f)
    else true
  }

  /** A tree whose every node, after normalisation, is reversible. */
  predicate Conforms(codec: Codec, m: Mapping, t: Value)
    requires Invertible(m)
    decreases t
  {
    match t
    case Obj(f) =>
      var n := Rewrite(codec, Normalise, f);
      n.Ok? && (RewriteOrigin(codec, Normalise, f); true) && Reversible(m, f)
      && forall k | k in n.value :: n.value[k].Str? || Conforms(codec, m, n.value[k])
    case Arr(items) => forall i | 0 <= i < |items| :: Conforms(codec, m, items[i])
    case _ => true
  }

  lemma VisitKeepsShape(codec: Codec, p: Pass, t: Value)
    requires ValidPass(p) && Visit(codec, p, t).Ok?
    ensures SameShape(t, Visit(codec, p, t).value)
  {
  }

  /** What visiting an object does, in terms of its rewritten fields. */
  lemma VisitFields(codec: Codec, p: Pass, f: Fields)
    requires ValidPass(p) && Visit(codec, p, Obj(f)).Ok?
    ensures
      var r := Rewrite(codec, p, f);
      var v := Visit(codec, p, Obj(f)).value;
      r.Ok? && v.Obj? && SameShapes(r.value, v.fields)
      && forall k | k in r.value :: Visit(codec, p, r.value[k]) == Ok(v.fields[k])
  {
    var g := Rewrite(codec, p, f).value;
    forall k | k in g ensures SameShape(g[k], Visit(codec, p, Obj(f)).value.fields[k]) {
      if !g[k].Str? { VisitKeepsShape(codec, p, g[k]); }
    }
  }

  /** Visiting an object succeeds when its rewriting and its children do. */
  lemma VisitFieldsOk(codec: Codec, p: Pass, f: Fields, v: Fields)
    requires ValidPass(p) && Rewrite(codec, p, f).Ok?
    requires Rewrite(codec, p, f).value.Keys == v.Keys
    requires forall k | k in v :: Visit(codec, p, Rewrite(codec, p, f).value[k]) == Ok(v[k])
    ensures Visit(codec, p, Obj(f)) == Ok(Obj(v))
  {
    var g := Rewrite(codec, p, f).value;
    assert forall k | k in g :: g[k].Str? || Visit(codec, p, g[k]).Ok?;
    assert Visit(codec, p, Obj(f)).Ok?;
    assert Visit(codec, p, Obj(f)).value.fields == v;
  }

  /**
   Where every field of the restored node comes from, `flat` being the flattened and
   visited fields of a reversible node.
   */
  ghost predicate RestoredFrom(
    n: Fields, g: Fields, flat: Fields, r: Fields)
  {
    r.Keys == n.Keys &&
    forall k | k in n ::
      (n[k].Str? && r[k] == n[k]) || (k in g && g[k] == n[k] && k in flat && r[k] == flat[k])
  }

  lemma ReversibleFlattens(codec: Codec, m: Mapping, f: Fields)
    requires Invertible(m)
    requires Rewrite(codec, Normalise, f).Ok?
    ensures Rewrite(codec, Flatten(m), f).Ok?
    ensures !(IsCall(f) && FlatNameOf(m, f).Some?)
      ==> Rewrite(codec, Flatten(m), f) == Rewrite(codec, Normalise, f)
  {
  }

  lemma FunctionCallRoundTrip(codec: Codec, m: Mapping, f: Fields, e: string, flat: Fields)
    requires e in m && TagOf(f) == FunctionCall && m[e].kind == "function"
    requires Get(f, Namespace) == Str(m[e].namespace) && Get(f, Name) == Str(m[e].name)
    requires SameShapes(FlattenCall(codec, f, e), flat)
    ensures MemberOf(m, flat) == Some(m[e]) && TagOf(flat) == FunctionCall
    ensures RestoreCall(codec, flat, m[e]).Ok?
    ensures RestoredFrom(f, FlattenCall(codec, f, e), flat, RestoreCall(codec, flat, m[e]).value)
  {
    var g := FlattenCall(codec, f, e);
    assert g == f[Name := Str(e)] - {Namespace};
    SameShapesTag(g, flat);
    assert SameShape(g[Name], flat[Name]);
  }

  lemma CustomCallRestored(codec: Codec, member: Member, flat: Fields, input: string)
    requires Faithful(codec) && member.kind != "function"
    requires Get(flat, Arguments) == Str(codec.dumps(Wrapped(Str(input))))
    ensures RestoreCall(codec, flat, member)
         == Ok(Named(Retyped(flat, CustomCall), member)[Input := Str(input)] - {Arguments})
  {
    var text := codec.dumps(Wrapped(Str(input)));
    assert codec.loads(text) == Some(Wrapped(Str(input)));
    assert RestoredInput(codec, text) == input;
  }

  /** The bookkeeping of keys behind CustomCallRoundTrip. */
  lemma CustomFieldsRestored(f: Fields, flat: Fields, g: Fields, r: Fields, name: Value, text: Value, flatType: Value)
    requires f.Keys >= {Type, Name, Namespace, Input} && Arguments !in f
    requires f[Type].Str? && f[Name].Str? && f[Namespace].Str? && f[Input].Str?
    requires g == f[Type := flatType][Name := name][Arguments := text] - {Namespace, Input}
    requires flat.Keys == g.Keys
    requires r == flat[Type := f[Type]][Name := f[Name]][Namespace := f[Namespace]][Input := f[Input]] - {Arguments}
    ensures RestoredFrom(f, g, flat, r)
  {
  }

  lemma CustomCallRoundTrip(codec: Codec, m: Mapping, f: Fields, e: string, flat: Fields)
    requires Faithful(codec)
    requires e in m && TagOf(f) == CustomCall && m[e].kind != "function"
    requires Get(f, Namespace) == Str(m[e].namespace) && Get(f, Name) == Str(m[e].name)
    requires Get(f, Input).Str? && Arguments !in f
    requires SameShapes(FlattenCall(codec, f, e), flat)
    ensures MemberOf(m, flat) == Some(m[e]) && TagOf(flat) == FunctionCall
    ensures RestoreCall(codec, flat, m[e]).Ok?
    ensures RestoredFrom(f, FlattenCall(codec, f, e), flat, RestoreCall(codec, flat, m[e]).value)
  {
    hide Faithful, RestoreCall, SameShapes, RestoredFrom;
    var g := FlattenCall(codec, f, e);
    SameShapesTag(g, flat);
    SameShapesString(g, flat, Name);
    SameShapesString(g, flat, Arguments);
    CustomCallRestored(codec, m[e], flat, f[Input].s);
    CustomFieldsRestored(f, flat, g, RestoreCall(codec, flat, m[e]).value,
                         Str(e), g[Arguments], Str("function_call"));
  }

  lemma NormaliseKeepsTag(codec: Codec, f: Fields)
    requires Rewrite(codec, Normalise, f).Ok?
    ensures TagOf(Rewrite(codec, Normalise, f).value) == TagOf(f)
    ensures IsCall(f) || TagOf(f) == DoneEvent ==> Rewrite(codec, Normalise, f).value == f
  {
  }

  lemma UntouchedRoundTrip(codec: Codec, m: Mapping, f: Fields, flat: Fields)
    requires Invertible(m) && Rewrite(codec, Normalise, f).Ok? && Reversible(m, f)
    requires !(IsCall(f) && FlatNameOf(m, f).Some?)
    requires SameShapes(Rewrite(codec, Normalise, f).value, flat)
    ensures Rewrite(codec, Restore(m), flat) == Ok(flat)
  {
    var n := Rewrite(codec, Normalise, f).value;
    SameShapesTag(n, flat);
    NormaliseKeepsTag(codec, f);
    hide TagOf, FoldOutput, WithStatus, RestoreCall, FlattenCall, Invertible;
    if IsCall(f) || TagOf(f) == DoneEvent {
      assert SameShape(Get(f, Name), Get(flat, Name)) && SameShape(Get(f, Namespace), Get(flat, Namespace));
      if MemberOf(m, f).Some? {
        assert Named(flat, MemberOf(m, f).value) == flat;
      }
    }
  }

  lemma LocalRoundTrip(codec: Codec, m: Mapping, f: Fields, flat: Fields)
    requires Invertible(m) && Faithful(codec)
    requires Rewrite(codec, Normalise, f).Ok? && Reversible(m, f)
    requires Rewrite(codec, Flatten(m), f).Ok? && SameShapes(Rewrite(codec, Flatten(m), f).value, flat)
    ensures Rewrite(codec, Restore(m), flat).Ok?
    ensures RestoredFrom(Rewrite(codec, Normalise, f).value, Rewrite(codec, Flatten(m), f).value, flat,
                         Rewrite(codec, Restore(m), flat).value)
  {
    hide TagOf, FlattenCall, RestoreCall, FoldOutput, Faithful;
    if IsCall(f) && FlatNameOf(m, f).Some? {
      var e := FlatNameOf(m, f).value;
      if TagOf(f) == CustomCall {
        CustomCallRoundTrip(codec, m, f, e, flat);
      } else {
        FunctionCallRoundTrip(codec, m, f, e, flat);
      }
    } else {
      ReversibleFlattens(codec, m, f);
      UntouchedRoundTrip(codec, m, f, flat);
    }
  }

  /** Every conforming tree comes back as its normal form. */
  lemma {:induction false} ConformingRoundTrips(codec: Codec, m: Mapping, t: Json<Key>)
    requires Invertible(m) && Faithful(codec) && Conforms(codec, m, t)
    ensures RoundTrips(codec, m, t)
    decreases t
  {
    match t
    case Obj(f) =>
      var n := Rewrite(codec, Normalise, f).value;
      RewriteOrigin(codec, Normalise, f);
      forall k | k in n ensures RoundTrips(codec, m, n[k]) {
        if !n[k].Str? { ConformingRoundTrips(codec, m, n[k]); }
      }
      ObjectRoundTrips(codec, m, f);
    case Arr(items) =>
      forall i | 0 <= i < |items| ensures RoundTrips(codec, m, items[i]) {
        ConformingRoundTrips(codec, m, items[i]);
      }
      ArrayRoundTrips(codec, m, items);
    case _ =>
  }

  lemma ArrayRoundTrips(codec: Codec, m: Mapping, items: seq<Value>)
    requires Invertible(m)
    requires forall i | 0 <= i < |items| :: RoundTrips(codec, m, items[i])
    ensures RoundTrips(codec, m, Arr(items))
  {
    hide Rewrite;
    var flat := Visit(codec, Flatten(m), Arr(items)).value;
    assert forall i | 0 <= i < |items| :: flat.items[i] == Visit(codec, Flatten(m), items[i]).value;
    var back := Visit(codec, Restore(m), flat).value;
    var norm := Visit(codec, Normalise, Arr(items)).value;
    assert back.items == norm.items;
  }

  /** The fields of an object after a visit, given its rewriting. */
  ghost function Visited(codec: Codec, p: Pass, g: Fields): Fields
    requires ValidPass(p) && forall k | k in g :: Visit(codec, p, g[k]).Ok?
  {
    map k | k in g :: Visit(codec, p, g[k]).value
  }

  lemma FlattenedChildren(codec: Codec, m: Mapping, f: Fields)
    requires Invertible(m) && Rewrite(codec, Normalise, f).Ok? && Rewrite(codec, Flatten(m), f).Ok?
    ensures forall k | k in Rewrite(codec, Flatten(m), f).value ::
      var v := Rewrite(codec, Flatten(m), f).value[k];
      v.Str? || (k in Rewrite(codec, Normalise, f).value && v == Rewrite(codec, Normalise, f).value[k])
  {
    if IsCall(f) && FlatNameOf(m, f).Some? {
      FlattenCallOrigin(codec, f, FlatNameOf(m, f).value);
      assert Rewrite(codec, Normalise, f).value == f;
    } else {
      ReversibleFlattens(codec, m, f);
    }
  }

  /** The flattened children of a node, once its own rewriting can be undone. */
  lemma FlattenedOk(codec: Codec, m: Mapping, f: Fields, n: Fields, g: Fields)
    requires Invertible(m) && Rewrite(codec, Normalise, f) == Ok(n) && Rewrite(codec, Flatten(m), f) == Ok(g)
    requires forall k | k in n :: RoundTrips(codec, m, n[k])
    ensures forall k | k in g :: g[k].Str? || (k in n && g[k] == n[k])
    ensures forall k | k in g :: Visit(codec, Flatten(m), g[k]).Ok?
  {
    FlattenedChildren(codec, m, f);
    hide Rewrite;
    assert forall k | k in g :: g[k].Str? ==> Visit(codec, Flatten(m), g[k]) == Ok(g[k]);
  }

  lemma ObjectRoundTrips(codec: Codec, m: Mapping, f: Fields)
    requires Invertible(m) && Faithful(codec)
    requires Rewrite(codec, Normalise, f).Ok? && Reversible(m, f)
    requires forall k | k in Rewrite(codec, Normalise, f).value ::
      RoundTrips(codec, m, Rewrite(codec, Normalise, f).value[k])
    ensures RoundTrips(codec, m, Obj(f))
  {
    hide Rewrite, Reversible, Faithful, Invertible;
    var n := Rewrite(codec, Normalise, f).value;
    ReversibleFlattens(codec, m, f);
    var g := Rewrite(codec, Flatten(m), f).value;
    FlattenedOk(codec, m, f, n, g);
    var flat := Visited(codec, Flatten(m), g);
    VisitFieldsOk(codec, Flatten(m), f, flat);
    VisitFields(codec, Flatten(m), f);
    LocalRoundTrip(codec, m, f, flat);
    var r := Rewrite(codec, Restore(m), flat).value;
    var norm := Visited(codec, Normalise, n);
    VisitFieldsOk(codec, Normalise, f, norm);
    forall k | k in r ensures Visit(codec, Restore(m), r[k]) == Ok(norm[k]) {
      if k in g && g[k] == n[k] && k in flat && r[k] == flat[k] {
        assert RoundTrips(codec, m, n[k]);
      } else {
        assert r[k] == n[k] && n[k].Str?;
      }
    }
    VisitFieldsOk(codec, Restore(m), flat, norm);
  }

  // ---------------------------------------------------------------- and nothing else does

  lemma MappedCallIrreversible(codec: Codec, m: Mapping, f: Fields, e: string, flat: Fields, back: Fields, norm: Fields)
    requires e in m && IsCall(f) && !KindMatches(f, m[e])
    requires SameShapes(FlattenCall(codec, f, e), flat)
    requires RestoreCall(codec, flat, m[e]).Ok? && SameShapes(RestoreCall(codec, flat, m[e]).value, back)
    requires SameShapes(f, norm)
    ensures back != norm
  {
    var r := RestoreCall(codec, flat, m[e]).value;
    SameShapesTag(r, back);
    SameShapesTag(f, norm);
    if m[e].kind == "function" {
      hide SameShapes, TagOf, Retyped;
      SameShapesTag(FlattenCall(codec, f, e), flat);
      FlattenedTag(codec, f, e);
      assert TagOf(r) == TagOf(flat) by { NamedTag(flat, m[e]); }
    } else {
      hide SameShapes, TagOf, Retyped, RestoredInput, FlattenCall;
      RestoredCustom(codec, flat, m[e]);
      SameShapesString(r, back, Input);
      SameShapesString(f, norm, Input);
      SameShapesString(r, back, Arguments);
      SameShapesString(f, norm, Arguments);
    }
  }

  lemma FlattenedTag(codec: Codec, f: Fields, e: string)
    requires IsCall(f)
    ensures TagOf(FlattenCall(codec, f, e)) == FunctionCall
  {
  }

  lemma NamedTag(f: Fields, member: Member)
    ensures TagOf(Named(f, member)) == TagOf(f)
  {
  }

  lemma RestoredCustom(codec: Codec, flat: Fields, member: Member)
    requires member.kind != "function" && RestoreCall(codec, flat, member).Ok?
    ensures
      var r := RestoreCall(codec, flat, member).value;
      TagOf(r) == CustomCall && Get(r, Input).Str? && Arguments !in r
  {
    hide RestoredInput;
  }

  lemma NamedDiffers(f: Fields, member: Member, r: Fields, back: Fields, norm: Fields)
    requires Hashable(Get(f, Name)) && Named(f, member) != f
    requires SameShapes(f, norm)
    requires Get(r, Name) == Str(member.name) && Get(r, Namespace) == Str(member.namespace) && SameShapes(r, back)
    ensures back != norm
  {
    SameShapesString(r, back, Name);
    SameShapesString(r, back, Namespace);
    SameShapesString(f, norm, Name);
    SameShapesString(f, norm, Namespace);
    assert !(Get(f, Name) == Str(member.name) && Get(f, Namespace) == Str(member.namespace)) by {
      assert f[Name := Get(f, Name)][Namespace := Get(f, Namespace)] == f || Name !in f || Namespace !in f;
    }
  }

  lemma RestoreNames(codec: Codec, m: Mapping, flat: Fields)
    requires TagOf(flat) in {FunctionCall, CustomCall, DoneEvent} && MemberOf(m, flat).Some?
    requires Rewrite(codec, Restore(m), flat).Ok?
    ensures
      var r := Rewrite(codec, Restore(m), flat).value;
      var member := MemberOf(m, flat).value;
      Get(r, Name) == Str(member.name) && Get(r, Namespace) == Str(member.namespace)
  {
    hide TagOf;
  }

  lemma UnmappedIrreversible(codec: Codec, m: Mapping, f: Fields, flat: Fields, back: Fields, norm: Fields)
    requires Invertible(m) && !Reversible(m, f) && !(IsCall(f) && FlatNameOf(m, f).Some?)
    requires Hashable(Get(f, Name)) && SameShapes(f, norm) && SameShapes(f, flat)
    requires Rewrite(codec, Restore(m), flat).Ok? && SameShapes(Rewrite(codec, Restore(m), flat).value, back)
    ensures back != norm
  {
    SameShapesTag(f, flat);
    SameShapesString(f, flat, Name);
    hide SameShapes, Rewrite, TagOf;
    var member := MemberOf(m, f).value;
    assert (member.namespace, member.name) in Reverse(m);
    RestoreNames(codec, m, flat);
    NamedDiffers(f, member, Rewrite(codec, Restore(m), flat).value, back, norm);
  }

  lemma {:induction false} LocalViolation(codec: Codec, m: Mapping, f: Fields, flat: Fields, back: Fields, norm: Fields)
    requires Invertible(m) && !Reversible(m, f)
    requires Rewrite(codec, Normalise, f).Ok? && SameShapes(Rewrite(codec, Normalise, f).value, norm)
    requires Rewrite(codec, Flatten(m), f).Ok? && SameShapes(Rewrite(codec, Flatten(m), f).value, flat)
    requires Rewrite(codec, Restore(m), flat).Ok? && SameShapes(Rewrite(codec, Restore(m), flat).value, back)
    ensures back != norm
  {
    hide SameShapes, TagOf, FlattenCall, RestoreCall;
    SameShapesTag(Rewrite(codec, Flatten(m), f).value, flat);
    SameShapesString(Rewrite(codec, Flatten(m), f).value, flat, Name);
    if IsCall(f) && FlatNameOf(m, f).Some? {
      var e := FlatNameOf(m, f).value;
      FlattenCallNames(codec, f, e);
      MappedCallIrreversible(codec, m, f, e, flat, back, norm);
    } else {
      UnmappedIrreversible(codec, m, f, flat, back, norm);
    }
  }

  lemma FlattenCallNames(codec: Codec, f: Fields, e: string)
    requires IsCall(f)
    ensures TagOf(FlattenCall(codec, f, e)) == FunctionCall && Get(FlattenCall(codec, f, e), Name) == Str(e)
  {
  }

  /** Only conforming trees come back as their normal form. */
  lemma {:induction false} RoundTrippingConforms(codec: Codec, m: Mapping, t: Json<Key>)
    requires Invertible(m) && Faithful(codec) && RoundTrips(codec, m, t)
    ensures Conforms(codec, m, t)
    decreases t
  {
    match t
    case Obj(f) =>
      var n := Rewrite(codec, Normalise, f).value;
      ObjectParts(codec, m, f);
      RewriteOrigin(codec, Normalise, f);
      forall k | k in n ensures n[k].Str? || Conforms(codec, m, n[k]) {
        if !n[k].Str? { RoundTrippingConforms(codec, m, n[k]); }
      }
    case Arr(items) =>
      var flat := Visit(codec, Flatten(m), t).value;
      forall i | 0 <= i < |items| ensures Conforms(codec, m, items[i]) {
        assert flat.items[i] == Visit(codec, Flatten(m), items[i]).value;
        assert Visit(codec, Restore(m), flat).value.items[i] == Visit(codec, Normalise, t).value.items[i];
        RoundTrippingConforms(codec, m, items[i]);
      }
    case _ =>
  }

  lemma ObjectParts(codec: Codec, m: Mapping, f: Fields)
    requires Invertible(m) && Faithful(codec) && RoundTrips(codec, m, Obj(f))
    ensures Rewrite(codec, Normalise, f).Ok? && Reversible(m, f)
    ensures forall k | k in Rewrite(codec, Normalise, f).value ::
      RoundTrips(codec, m, Rewrite(codec, Normalise, f).value[k])
  {
    hide Rewrite, Reversible, Faithful;
    VisitFields(codec, Flatten(m), f);
    VisitFields(codec, Normalise, f);
    var flat := Visit(codec, Flatten(m), Obj(f)).value.fields;
    VisitFields(codec, Restore(m), flat);
    var n := Rewrite(codec, Normalise, f).value;
    var back := Visit(codec, Restore(m), Obj(flat)).value.fields;
    if !Reversible(m, f) {
      LocalViolation(codec, m, f, flat, back, back);
    }
    LocalRoundTrip(codec, m, f, flat);
    forall k | k in n ensures RoundTrips(codec, m, n[k]) {
      if n[k].Str? {
      } else {
        assert Visit(codec, Flatten(m), n[k]) == Ok(flat[k]);
      }
    }
  }

  /** Restoring what was flattened gives the normal form exactly for the conforming trees. */
  lemma RoundTripIff(codec: Codec, m: Mapping, t: Json<Key>)
    requires Invertible(m) && Faithful(codec)
    ensures RoundTrips(codec, m, t) <==> Conforms(codec, m, t)
  {
    if Conforms(codec, m, t) { ConformingRoundTrips(codec, m, t); }
    if RoundTrips(codec, m, t) { RoundTrippingConforms(codec, m, t); }
  }
}
