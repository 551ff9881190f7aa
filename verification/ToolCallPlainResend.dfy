/**
 When restoring raises, and which trees are sent back as they were received, said node by node
 without running a walk: for every tree in which the texts of a foldable tool result are no
 lists or dictionaries. Where such a text is one, what it folds to depends on Python's `str` of
 the restored container, and ToolCallResend.ResendIff has the exact condition.
 */
module ToolCallPlainResend {
  import opened JsonValue
  import opened ToolCalls
  import opened ToolCallRoundTrip
  import opened ToolCallResend

  // ---------------------------------------------------------------- when restoring raises

  /** Restoring the node removes this field or writes a text in its place. */
  predicate Replaced(m: Mapping, f: Fields, k: Key) {
    MemberOf(m, f).Some?
    && (((IsCall(f) || TagOf(f) == DoneEvent) && k in {Name, Namespace})
        || (IsCall(f) && MemberOf(m, f).value.kind != "function" && k in {Type, Input, Arguments}))
  }

  /** The node's type and name can be looked up, and a custom member's arguments are text or absent. */
  predicate NodeRestores(m: Mapping, f: Fields) {
    TagOf(f) != Unhashable
    && (IsCall(f) || TagOf(f) == DoneEvent ==> Hashable(Get(f, Name)))
    && (IsCall(f) && MemberOf(m, f).Some? && MemberOf(m, f).value.kind != "function" && Arguments in f
        ==> f[Arguments].Str?)
  }

  /** The same for the node and everything below it that restoring keeps. */
  predicate Restores(m: Mapping, t: Json<Key>) {
    match t
    case Obj(f) => NodeRestores(m, f) && forall k | k in f && !Replaced(m, f, k) :: Restores(m, f[k])
    case Arr(items) => forall i | 0 <= i < |items| :: Restores(m, items[i])
    case _ => true
  }

  lemma NodeRestoresIff(codec: Codec, m: Mapping, f: Fields)
    ensures Rewrite(codec, Restore(m), f).Ok? <==> NodeRestores(m, f)
  {
    hide TagOf, Retyped;
  }

  lemma KeptFields(codec: Codec, m: Mapping, f: Fields)
    requires Rewrite(codec, Restore(m), f).Ok?
    ensures
      var g := Rewrite(codec, Restore(m), f).value;
      (forall k | k in f && !Replaced(m, f, k) :: k in g && g[k] == f[k])
      && forall k | k in g :: g[k].Str? || (k in f && !Replaced(m, f, k) && g[k] == f[k])
  {
    hide TagOf, RestoredInput;
  }

  /** Restoring raises exactly for the other trees. */
  lemma {:induction false} RestoresIff(codec: Codec, m: Mapping, t: Json<Key>)
    ensures Visit(codec, Restore(m), t).Ok? <==> Restores(m, t)
    decreases t
  {
    match t
    case Obj(f) =>
      NodeRestoresIff(codec, m, f);
      if NodeRestores(m, f) {
        KeptFields(codec, m, f);
        RewriteOrigin(codec, Restore(m), f);
        hide Rewrite, NodeRestores, Replaced;
        forall k | k in f && !Replaced(m, f, k) ensures Visit(codec, Restore(m), f[k]).Ok? <==> Restores(m, f[k]) {
          RestoresIff(codec, m, f[k]);
        }
      }
    case Arr(items) =>
      hide Rewrite;
      forall i | 0 <= i < |items| ensures Visit(codec, Restore(m), items[i]).Ok? <==> Restores(m, items[i]) {
        RestoresIff(codec, m, items[i]);
      }
    case _ =>
  }

  // ---------------------------------------------------------------- sending back

  /** The parts of a foldable output have texts that are no lists or dictionaries. */
  predicate PlainTexts(output: Json<Key>) {
    Foldable(output) ==>
      forall i | 0 <= i < |output.items| :: TextPart(output.items[i]) && Hashable(Get(output.items[i].fields, Text))
  }

  lemma StableFoldIff(codec: Codec, m: Mapping, output: Json<Key>)
    requires Invertible(m) && Foldable(output) && PlainTexts(output)
    ensures StableFold(codec, m, output) <==> Restores(m, output)
  {
    RestoresIff(codec, m, output);
    hide Visit, Restores;
    if Restores(m, output) {
      PlainTextsFold(codec, m, output.items);
    }
  }

  /** What a node must satisfy to be sent back as it was received, given plain texts. */
  predicate PlainlyResendable(codec: Codec, m: Mapping, f: Fields)
    requires Invertible(m)
  {
    if TagOf(f) == ToolResult then Foldable(Get(f, Output)) ==> Restores(m, Get(f, Output))
    else Resendable(codec, m, f)
  }

  predicate PlainlyConforms(codec: Codec, m: Mapping, t: Json<Key>)
    requires Invertible(m)
    decreases t
  {
    match t
    case Obj(f) =>
      var n := Rewrite(codec, Normalise, f);
      n.Ok? && (RewriteOrigin(codec, Normalise, f); true) && PlainlyResendable(codec, m, f)
      && forall k | k in n.value :: n.value[k].Str? || PlainlyConforms(codec, m, n.value[k])
    case Arr(items) => forall i | 0 <= i < |items| :: PlainlyConforms(codec, m, items[i])
    case _ => true
  }

  /** Every tool result anywhere in the tree has plain texts. */
  predicate PlainOutputs(t: Json<Key>) {
    match t
    case Obj(f) => (TagOf(f) == ToolResult ==> PlainTexts(Get(f, Output))) && forall k | k in f :: PlainOutputs(f[k])
    case Arr(items) => forall i | 0 <= i < |items| :: PlainOutputs(items[i])
    case _ => true
  }

  lemma {:induction false} PlainlyConformsIff(codec: Codec, m: Mapping, t: Json<Key>)
    requires Invertible(m) && PlainOutputs(t)
    ensures ConformsBack(codec, m, t) <==> PlainlyConforms(codec, m, t)
    decreases t
  {
    match t
    case Obj(f) =>
      if Rewrite(codec, Normalise, f).Ok? {
        var n := Rewrite(codec, Normalise, f).value;
        RewriteOrigin(codec, Normalise, f);
        if TagOf(f) == ToolResult && Foldable(Get(f, Output)) {
          StableFoldIff(codec, m, Get(f, Output));
        }
        hide Rewrite, StableFold, Restores, Foldable, TagOf;
        assert Resendable(codec, m, f) <==> PlainlyResendable(codec, m, f);
        forall k | k in n && !n[k].Str?
          ensures ConformsBack(codec, m, n[k]) <==> PlainlyConforms(codec, m, n[k])
        {
          PlainlyConformsIff(codec, m, n[k]);
        }
      }
    case Arr(items) =>
      hide Rewrite, Resendable, PlainlyResendable;
      forall i | 0 <= i < |items| ensures ConformsBack(codec, m, items[i]) <==> PlainlyConforms(codec, m, items[i]) {
        PlainlyConformsIff(codec, m, items[i]);
      }
    case _ =>
  }

  /** With plain texts, a restored tree flattens to its normal form exactly if every node meets its condition. */
  lemma PlainResendIff(codec: Codec, m: Mapping, t: Json<Key>)
    requires Invertible(m) && PlainOutputs(t)
    ensures Resends(codec, m, t) <==> PlainlyConforms(codec, m, t)
  {
    hide Resends, ConformsBack, PlainlyConforms, PlainOutputs;
    ResendIff(codec, m, t);
    PlainlyConformsIff(codec, m, t);
  }
}
