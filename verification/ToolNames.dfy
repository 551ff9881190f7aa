/**
 The flat names under which the gateway advertises namespaced tools, and the mapping it
 builds while it flattens a tool list (gateway/codex_gateway.py).

 SHA-256 is a parameter: any function from text to 64 lower-case hexadecimal digits. Nothing
 is assumed about collisions; what a collision costs is part of the results.
 */
module ToolNames {
  import opened ToolCalls

  const NAME_LIMIT := 64

  predicate SafeChar(c: char) {
    'A' <= c <= 'Z' || 'a' <= c <= 'z' || '0' <= c <= '9' || c == '_' || c == '-'
  }

  predicate HexDigit(c: char) {
    '0' <= c <= '9' || 'a' <= c <= 'f'
  }

  ghost predicate Sha256(sha: string -> string) {
    forall text: string :: |sha(text)| == 64 && forall i | 0 <= i < 64 :: HexDigit(sha(text)[i])
  }

  function CleanChars(value: string): (r: string)
    ensures |r| == |value| && forall i | 0 <= i < |r| :: SafeChar(r[i])
  {
    if value == "" then "" else [if SafeChar(value[0]) then value[0] else '_'] + CleanChars(value[1..])
  }

  function CleanComponent(value: string): string {
    if value == "" then "tool" else CleanChars(value)
  }

  /** The text that is hashed: the two names around a NUL, so a NUL in a name can shift the border. */
  function HashedText(namespace: string, name: string): string {
    namespace + "\0" + name
  }

  function FlatName(sha: string -> string, namespace: string, name: string): string
    requires Sha256(sha)
  {
    var raw := CleanComponent(namespace) + "__" + CleanComponent(name);
    if |raw| <= NAME_LIMIT then raw
    else raw[..NAME_LIMIT - 13] + "_" + sha(HashedText(namespace, name))[..12]
  }

  function FallbackName(sha: string -> string, namespace: string, name: string): string
    requires Sha256(sha)
  {
    "gw_" + sha(HashedText(namespace, name))[..16]
  }

  predicate SafeName(name: string) {
    0 < |name| <= NAME_LIMIT && forall i | 0 <= i < |name| :: SafeChar(name[i])
  }

  lemma FlatNameSafe(sha: string -> string, namespace: string, name: string)
    requires Sha256(sha)
    ensures SafeName(FlatName(sha, namespace, name))
  {
    var raw := CleanComponent(namespace) + "__" + CleanComponent(name);
    assert forall i | 0 <= i < |raw| :: SafeChar(raw[i]);
  }

  lemma FallbackNameSafe(sha: string -> string, namespace: string, name: string)
    requires Sha256(sha)
    ensures SafeName(FallbackName(sha, namespace, name)) && |FallbackName(sha, namespace, name)| == 19
  {
  }

  /** A fallback name is never an ordinary flat name, whatever the two members are. */
  lemma FallbackNeverFlat(sha: string -> string, a: Member, b: Member)
    requires Sha256(sha)
    ensures FallbackName(sha, a.namespace, a.name) != FlatName(sha, b.namespace, b.name)
  {
    var gw := FallbackName(sha, a.namespace, a.name);
    var clean := CleanComponent(b.namespace);
    var raw := clean + "__" + CleanComponent(b.name);
    FallbackNameSafe(sha, a.namespace, a.name);
    assert gw[0] == 'g' && gw[1] == 'w' && forall i | 3 <= i < 19 :: HexDigit(gw[i]);
    assert raw[|clean|] == '_' && raw[|clean| + 1] == '_';
  }

  // ---------------------------------------------------------------- the mapping

  predicate SamePair(a: Member, b: Member) {
    a.namespace == b.namespace && a.name == b.name
  }

  function Flat(sha: string -> string, member: Member): string
    requires Sha256(sha)
  {
    FlatName(sha, member.namespace, member.name)
  }

  function Fallback(sha: string -> string, member: Member): string
    requires Sha256(sha)
  {
    FallbackName(sha, member.namespace, member.name)
  }

  /** The name a member is advertised under, given the mapping built so far. */
  function KeyFor(sha: string -> string, m: Mapping, member: Member): string
    requires Sha256(sha)
  {
    var flat := Flat(sha, member);
    if flat in m && !SamePair(m[flat], member) then Fallback(sha, member) else flat
  }

  /** The mapping after the members have been taken in order. */
  function Built(sha: string -> string, members: seq<Member>): Mapping
    requires Sha256(sha)
  {
    if members == [] then map[]
    else
      var m := Built(sha, members[..|members| - 1]);
      var member := members[|members| - 1];
      m[KeyFor(sha, m, member) := member]
  }

  /** The position of the first occurrence of `x`. */
  function FirstIndex<T(==)>(s: seq<T>, x: T): (i: nat)
    requires x in s
    ensures i < |s| && s[i] == x && forall j | 0 <= j < i :: s[j] != x
  {
    if s[0] == x then 0 else 1 + FirstIndex(s[1..], x)
  }

  function Flats(sha: string -> string, members: seq<Member>): (r: seq<string>)
    requires Sha256(sha)
    ensures |r| == |members| && forall i | 0 <= i < |r| :: r[i] == Flat(sha, members[i])
  {
    seq(|members|, i requires 0 <= i < |members| => Flat(sha, members[i]))
  }

  /** The first member with the flat name that member `i` has. */
  function Owner(sha: string -> string, members: seq<Member>, i: nat): (owner: Member)
    requires Sha256(sha) && i < |members|
    ensures Flat(sha, owner) == Flat(sha, members[i])
  {
    assert Flats(sha, members)[i] == Flat(sha, members[i]);
    members[FirstIndex(Flats(sha, members), Flat(sha, members[i]))]
  }

  /** A member falls back when the first member with its flat name is a different one. */
  predicate FallsBack(sha: string -> string, members: seq<Member>, i: nat)
    requires Sha256(sha) && i < |members|
  {
    !SamePair(Owner(sha, members, i), members[i])
  }

  /** The advertised name of a member, said without the mapping: who is first keeps the flat name. */
  function AssignedName(sha: string -> string, members: seq<Member>, i: nat): string
    requires Sha256(sha) && i < |members|
  {
    if FallsBack(sha, members, i) then Fallback(sha, members[i]) else Flat(sha, members[i])
  }

  /** Later members do not change who was first. */
  lemma OwnerOfPrefix(sha: string -> string, members: seq<Member>, n: nat, i: nat)
    requires Sha256(sha) && i < n <= |members|
    ensures Owner(sha, members[..n], i) == Owner(sha, members, i)
    ensures AssignedName(sha, members[..n], i) == AssignedName(sha, members, i)
  {
    hide FlatName, FallbackName;
    var flat := Flat(sha, members[i]);
    assert Flats(sha, members[..n])[i] == flat && Flats(sha, members)[i] == flat;
    assert Flats(sha, members[..n]) == Flats(sha, members)[..n];
    var p, q := FirstIndex(Flats(sha, members[..n]), flat), FirstIndex(Flats(sha, members), flat);
    assert Flats(sha, members)[p] == flat && q <= i;
    assert Flats(sha, members[..n])[q] == flat;
  }

  /** An ordinary flat name is in the mapping once some member has it, and the first such member owns it. */
  ghost predicate FlatNamesOwned(sha: string -> string, members: seq<Member>, m: Mapping)
    requires Sha256(sha)
  {
    forall i | 0 <= i < |members| ::
      Flat(sha, members[i]) in m && SamePair(m[Flat(sha, members[i])], Owner(sha, members, i))
  }

  ghost predicate Entry(sha: string -> string, members: seq<Member>, key: string, member: Member, i: nat)
    requires Sha256(sha)
  {
    i < |members| && member == members[i] && key == AssignedName(sha, members, i)
    && forall j | i < j < |members| :: AssignedName(sha, members, j) != key
  }

  /** Every entry is the last of the members that were assigned its name. */
  ghost predicate EntriesNamed(sha: string -> string, members: seq<Member>, m: Mapping)
    requires Sha256(sha)
  {
    forall key | key in m :: exists i :: Entry(sha, members, key, m[key], i)
  }

  /** Every assigned name is in the mapping. */
  ghost predicate NamesPresent(sha: string -> string, members: seq<Member>, m: Mapping)
    requires Sha256(sha)
  {
    forall i | 0 <= i < |members| :: AssignedName(sha, members, i) in m
  }

  ghost predicate Describes(sha: string -> string, members: seq<Member>, m: Mapping)
    requires Sha256(sha)
  {
    FlatNamesOwned(sha, members, m) && EntriesNamed(sha, members, m) && NamesPresent(sha, members, m)
  }

  lemma {:induction false} BuiltDescribes(sha: string -> string, members: seq<Member>)
    requires Sha256(sha)
    ensures Describes(sha, members, Built(sha, members))
  {
    if members != [] {
      var n := |members| - 1;
      BuiltDescribes(sha, members[..n]);
      BuiltExtends(sha, members);
    }
  }

  lemma NewFlatName(sha: string -> string, members: seq<Member>, m: Mapping)
    requires Sha256(sha) && members != [] && EntriesNamed(sha, members[..|members| - 1], m)
    requires forall i | 0 <= i < |members| - 1 :: Flat(sha, members[i]) != Flat(sha, members[|members| - 1])
    ensures Flat(sha, members[|members| - 1]) !in m
    ensures Owner(sha, members, |members| - 1) == members[|members| - 1]
  {
    hide *;
    var n := |members| - 1;
    var flat := Flat(sha, members[n]);
    LastOwner(sha, members);
    if flat in m {
      var i := EntryOf(sha, members[..n], m, flat);
      FallbackDiffers(sha, members[..n], i, members[n]);
    }
  }

  lemma SameFlatSameOwner(sha: string -> string, members: seq<Member>, i: nat, j: nat)
    requires Sha256(sha) && i < |members| && j < |members| && Flat(sha, members[i]) == Flat(sha, members[j])
    ensures Owner(sha, members, i) == Owner(sha, members, j)
  {
  }

  lemma LastOwner(sha: string -> string, members: seq<Member>)
    requires Sha256(sha) && members != []
    requires forall i | 0 <= i < |members| - 1 :: Flat(sha, members[i]) != Flat(sha, members[|members| - 1])
    ensures Owner(sha, members, |members| - 1) == members[|members| - 1]
  {
    hide Sha256, Flat;
    assert Flats(sha, members)[|members| - 1] == Flat(sha, members[|members| - 1]);
  }

  lemma EntryOf(sha: string -> string, members: seq<Member>, m: Mapping, key: string) returns (i: nat)
    requires Sha256(sha) && EntriesNamed(sha, members, m) && key in m
    ensures i < |members| && m[key] == members[i] && key == AssignedName(sha, members, i)
    ensures forall j | i < j < |members| :: AssignedName(sha, members, j) != key
  {
    hide Sha256, AssignedName;
    i :| Entry(sha, members, key, m[key], i);
  }

  /** A name that is not the flat name of an earlier member is not in use. */
  lemma FallbackDiffers(sha: string -> string, members: seq<Member>, i: nat, member: Member)
    requires Sha256(sha) && i < |members| && AssignedName(sha, members, i) == Flat(sha, member)
    ensures Flat(sha, members[i]) == Flat(sha, member)
  {
    FallbackNeverFlat(sha, members[i], member);
  }

  /** The name given at each step is the assigned one, and it does not depend on what comes later. */
  lemma StepAssigns(sha: string -> string, members: seq<Member>)
    requires Sha256(sha) && members != []
    requires Describes(sha, members[..|members| - 1], Built(sha, members[..|members| - 1]))
    ensures KeyFor(sha, Built(sha, members[..|members| - 1]), members[|members| - 1])
         == AssignedName(sha, members, |members| - 1)
  {
    hide Sha256, Built, Flat, Fallback, Owner, EntriesNamed, NamesPresent;
    var n := |members| - 1;
    var prior := members[..n];
    if i :| 0 <= i < n && Flat(sha, prior[i]) == Flat(sha, members[n]) {
      OwnerOfPrefix(sha, members, n, i);
      SameFlatSameOwner(sha, members, i, n);
    } else {
      assert forall i | 0 <= i < n :: members[i] == prior[i];
      NewFlatName(sha, members, Built(sha, prior));
    }
  }

  lemma FlatNamesExtend(sha: string -> string, members: seq<Member>, m: Mapping)
    requires Sha256(sha) && members != [] && FlatNamesOwned(sha, members[..|members| - 1], m)
    ensures FlatNamesOwned(sha, members, m[AssignedName(sha, members, |members| - 1) := members[|members| - 1]])
  {
    hide FlatName, FallbackName;
    var n := |members| - 1;
    var m' := m[AssignedName(sha, members, n) := members[n]];
    forall i | 0 <= i < |members|
      ensures Flat(sha, members[i]) in m' && SamePair(m'[Flat(sha, members[i])], Owner(sha, members, i))
    {
      FallbackNeverFlat(sha, members[n], members[i]);
      if Flat(sha, members[i]) == Flat(sha, members[n]) {
        assert Owner(sha, members, i) == Owner(sha, members, n);
      }
      if AssignedName(sha, members, n) != Flat(sha, members[i]) {
        var flat := Flat(sha, members[i]);
        assert Flats(sha, members)[i] == flat;
        var q := if i < n then i else FirstIndex(Flats(sha, members), flat);
        assert q < n;
        assert members[..n][q] == members[q];
        OwnerOfPrefix(sha, members, n, q);
      }
    }
  }

  lemma EntriesExtend(sha: string -> string, members: seq<Member>, m: Mapping)
    requires Sha256(sha) && members != [] && EntriesNamed(sha, members[..|members| - 1], m)
    requires NamesPresent(sha, members[..|members| - 1], m)
    ensures EntriesNamed(sha, members, m[AssignedName(sha, members, |members| - 1) := members[|members| - 1]])
    ensures NamesPresent(sha, members, m[AssignedName(sha, members, |members| - 1) := members[|members| - 1]])
  {
    hide AssignedName, Sha256;
    var n := |members| - 1;
    var prior := members[..n];
    var last := AssignedName(sha, members, n);
    var m' := m[last := members[n]];
    forall i | 0 <= i < n ensures AssignedName(sha, prior, i) == AssignedName(sha, members, i) {
      OwnerOfPrefix(sha, members, n, i);
    }
    forall key | key in m' ensures exists i :: Entry(sha, members, key, m'[key], i) {
      if key != last {
        var i := EntryOf(sha, prior, m, key);
        assert AssignedName(sha, members, n) != key;
        assert Entry(sha, members, key, m'[key], i);
      } else {
        assert Entry(sha, members, key, m'[key], n);
      }
    }
  }

  lemma BuiltExtends(sha: string -> string, members: seq<Member>)
    requires Sha256(sha) && members != []
    requires Describes(sha, members[..|members| - 1], Built(sha, members[..|members| - 1]))
    ensures Describes(sha, members, Built(sha, members))
  {
    var n := |members| - 1;
    StepAssigns(sha, members);
    FlatNamesExtend(sha, members, Built(sha, members[..n]));
    EntriesExtend(sha, members, Built(sha, members[..n]));
  }

  // ---------------------------------------------------------------- what the mapping is good for

  /** The built mapping can always be read backwards, and its names are all safe. */
  lemma BuiltInvertible(sha: string -> string, members: seq<Member>)
    requires Sha256(sha)
    ensures Invertible(Built(sha, members))
    ensures forall key | key in Built(sha, members) :: SafeName(key)
  {
    BuiltDescribes(sha, members);
    hide Sha256, Built, FlatName, FallbackName, Owner, EntriesNamed;
    var m := Built(sha, members);
    forall key | key in m ensures SafeName(key) {
      var i := EntryOf(sha, members, m, key);
      FlatNameSafe(sha, members[i].namespace, members[i].name);
      FallbackNameSafe(sha, members[i].namespace, members[i].name);
    }
    forall a, b | a in m && b in m && SamePair(m[a], m[b]) ensures a == b {
      var i := EntryOf(sha, members, m, a);
      var j := EntryOf(sha, members, m, b);
      SamePairSameName(sha, members, i, j);
    }
  }

  /** A pair is given the same name every time it occurs. */
  lemma SamePairSameName(sha: string -> string, members: seq<Member>, i: nat, j: nat)
    requires Sha256(sha) && i < |members| && j < |members| && SamePair(members[i], members[j])
    ensures AssignedName(sha, members, i) == AssignedName(sha, members, j)
  {
  }

  /** Every listed pair can be found again under the name it was advertised with. */
  ghost predicate Lossless(sha: string -> string, members: seq<Member>)
    requires Sha256(sha)
  {
    forall i | 0 <= i < |members| ::
      var key := AssignedName(sha, members, i);
      key in Built(sha, members) && SamePair(Built(sha, members)[key], members[i])
  }

  /** Two different pairs that both fall back have different 16-digit digests. */
  predicate DigestsSeparate(sha: string -> string, members: seq<Member>)
    requires Sha256(sha)
  {
    forall i, j | 0 <= i < |members| && 0 <= j < |members|
      && FallsBack(sha, members, i) && FallsBack(sha, members, j) && !SamePair(members[i], members[j]) ::
      sha(HashedText(members[i].namespace, members[i].name))[..16]
      != sha(HashedText(members[j].namespace, members[j].name))[..16]
  }

  lemma FallbackByDigest(sha: string -> string, a: Member, b: Member)
    requires Sha256(sha)
    ensures Fallback(sha, a) == Fallback(sha, b)
      <==> sha(HashedText(a.namespace, a.name))[..16] == sha(HashedText(b.namespace, b.name))[..16]
  {
    var da, db := sha(HashedText(a.namespace, a.name))[..16], sha(HashedText(b.namespace, b.name))[..16];
    assert Fallback(sha, a)[3..] == da && Fallback(sha, b)[3..] == db;
  }

  lemma SameNameSamePair(sha: string -> string, members: seq<Member>, i: nat, j: nat)
    requires Sha256(sha) && i < |members| && j < |members| && DigestsSeparate(sha, members)
    requires AssignedName(sha, members, i) == AssignedName(sha, members, j)
    ensures SamePair(members[i], members[j])
  {
    FallbackNeverFlat(sha, members[i], members[j]);
    FallbackNeverFlat(sha, members[j], members[i]);
    FallbackByDigest(sha, members[i], members[j]);
    hide FlatName, FallbackName;
    if !FallsBack(sha, members, i) {
      assert Owner(sha, members, i) == Owner(sha, members, j);
    }
  }

  /** With separate digests the last listing of a pair is the one its calls are restored by. */
  lemma LastListingWins(sha: string -> string, members: seq<Member>, i: nat)
    requires Sha256(sha) && DigestsSeparate(sha, members) && i < |members|
    requires forall j | i < j < |members| :: !SamePair(members[j], members[i])
    ensures AssignedName(sha, members, i) in Built(sha, members)
    ensures Built(sha, members)[AssignedName(sha, members, i)] == members[i]
  {
    BuiltDescribes(sha, members);
    hide Sha256, Built, DigestsSeparate, EntriesNamed, AssignedName;
    var k := EntryOf(sha, members, Built(sha, members), AssignedName(sha, members, i));
    SameNameSamePair(sha, members, k, i);
  }

  lemma SeparateIsLossless(sha: string -> string, members: seq<Member>)
    requires Sha256(sha) && DigestsSeparate(sha, members)
    ensures Lossless(sha, members)
  {
    BuiltDescribes(sha, members);
    hide AssignedName, Built, DigestsSeparate;
    var m := Built(sha, members);
    forall i | 0 <= i < |members| ensures SamePair(m[AssignedName(sha, members, i)], members[i]) {
      var key := AssignedName(sha, members, i);
      var j := EntryOf(sha, members, m, key);
      SameNameSamePair(sha, members, i, j);
    }
  }

  lemma LosslessIsSeparate(sha: string -> string, members: seq<Member>, i: nat, j: nat)
    requires Sha256(sha) && Lossless(sha, members) && i < |members| && j < |members|
    requires FallsBack(sha, members, i) && FallsBack(sha, members, j) && !SamePair(members[i], members[j])
    ensures sha(HashedText(members[i].namespace, members[i].name))[..16]
         != sha(HashedText(members[j].namespace, members[j].name))[..16]
  {
    FallbackByDigest(sha, members[i], members[j]);
    hide Built, FallsBack, Fallback, Flat;
  }

  /** The mapping loses no pair exactly when the digests of the fallback names are separate. */
  lemma LosslessIff(sha: string -> string, members: seq<Member>)
    requires Sha256(sha)
    ensures Lossless(sha, members) <==> DigestsSeparate(sha, members)
  {
    if DigestsSeparate(sha, members) { SeparateIsLossless(sha, members); }
    if Lossless(sha, members) {
      hide FallsBack, Lossless;
      forall i, j | 0 <= i < |members| && 0 <= j < |members|
        && FallsBack(sha, members, i) && FallsBack(sha, members, j) && !SamePair(members[i], members[j])
        ensures sha(HashedText(members[i].namespace, members[i].name))[..16]
             != sha(HashedText(members[j].namespace, members[j].name))[..16]
      {
        LosslessIsSeparate(sha, members, i, j);
      }
    }
  }

  /**
   No hash function helps when a name may hold a NUL: these four members make two pairs
   share one hashed text, and both fall back.
   */
  lemma NulCollision(sha: string -> string)
    requires Sha256(sha)
    ensures !Lossless(sha, [Member("a_b", "c", "function"), Member("a", "b_c", "function"),
                            Member("a\0b", "c", "function"), Member("a", "b\0c", "function")])
  {
    var members := [Member("a_b", "c", "function"), Member("a", "b_c", "function"),
                    Member("a\0b", "c", "function"), Member("a", "b\0c", "function")];
    assert HashedText("a\0b", "c") == HashedText("a", "b\0c");
    assert CleanComponent("a\0b") == "a_b" == CleanComponent("a_b");
    assert CleanComponent("b\0c") == "b_c" == CleanComponent("b_c");
    assert Flats(sha, members)[0] == Flats(sha, members)[2] && Flats(sha, members)[1] == Flats(sha, members)[3];
    assert FallsBack(sha, members, 2) && FallsBack(sha, members, 3);
    LosslessIff(sha, members);
  }
}
