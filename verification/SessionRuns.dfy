/**
 What holds in every interleaving of invitations, revocations, exchanges, rotations and
 logouts. An exchange is two operations, the check that the login is let in and the insertion
 of its refresh token, because no transaction spans them: anything may happen in between.
 */
module SessionRuns {
  import opened JsonValue
  import opened SessionStore

  /** One operation; `session` ties the insertion of an exchange to its check. */
  datatype Op =
    | Invite(login: Login, now: int, expiresAt: Option<int>)
    | Revoke(login: Login, now: int)
    | Check(session: nat, login: Login, now: int, allowlist: set<Login>)
    | Insert(session: nat, drawn: Hash, now: int)
    | Rotate(hash: Hash, drawn: Hash, now: int, allowlist: set<Login>)
    | Logout(hash: Hash, now: int)

  /** The tables, and the exchanges that have passed their check and not yet inserted. */
  datatype World = World(store: Store, granted: map<nat, Login>)

  function Step(ttl: int, w: World, op: Op): World {
    match op
    case Invite(login, now, expiresAt) => w.(store := InviteLogin(w.store, login, now, expiresAt))
    case Revoke(login, now) => w.(store := RevokeLogin(w.store, login, now))
    case Check(session, login, now, allowlist) =>
      if login != "" && IsAllowed(w.store, login, now, allowlist) then w.(granted := w.granted[session := login]) else w
    case Insert(session, drawn, now) =>
      if session !in w.granted then w
      else
        var rest := w.(granted := w.granted - {session});
        (match Create(w.store, drawn, w.granted[session], now, ttl)
         case Raise => rest
         case Ok(s) => rest.(store := s))
    case Rotate(hash, drawn, now, allowlist) =>
      (match SessionStore.Rotate(w.store, hash, drawn, now, ttl, allowlist)
       case Raise => w
       case Ok((s, _)) => w.(store := s))
    case Logout(hash, now) => w.(store := SessionStore.Logout(w.store, hash, now))
  }

  function After(ttl: int, ops: seq<Op>): World {
    if ops == [] then World(EMPTY, map[]) else Step(ttl, After(ttl, ops[..|ops| - 1]), ops[|ops| - 1])
  }

  function TokensAfter(ttl: int, ops: seq<Op>): map<Hash, Token> {
    After(ttl, ops).store.tokens
  }

  /** Operation `i` is an exchange inserting its token. */
  predicate Exchanged(ttl: int, ops: seq<Op>, i: nat)
    requires i < |ops|
  {
    var w := After(ttl, ops[..i]);
    ops[i].Insert? && ops[i].session in w.granted && ops[i].drawn !in w.store.tokens
  }

  /** Operation `i` is a successful rotation. */
  predicate Rotated(ttl: int, ops: seq<Op>, i: nat)
    requires i < |ops|
  {
    var s := After(ttl, ops[..i]).store;
    ops[i].Rotate? && CanRotate(s, ops[i].hash, ops[i].now, ops[i].allowlist) && ops[i].drawn !in s.tokens
  }

  /** Operation `i` is a rotation refused because the login is no longer let in. */
  predicate Refused(ttl: int, ops: seq<Op>, i: nat)
    requires i < |ops|
  {
    var s := After(ttl, ops[..i]).store;
    ops[i].Rotate? && Usable(s, ops[i].hash, ops[i].now) && !CanRotate(s, ops[i].hash, ops[i].now, ops[i].allowlist)
  }

  lemma PrefixMeaning(ttl: int, ops: seq<Op>, n: nat, i: nat)
    requires i < n <= |ops|
    ensures ops[..n][i] == ops[i] && ops[..n][..i] == ops[..i]
    ensures Exchanged(ttl, ops[..n], i) == Exchanged(ttl, ops, i)
    ensures Rotated(ttl, ops[..n], i) == Rotated(ttl, ops, i)
    ensures Refused(ttl, ops[..n], i) == Refused(ttl, ops, i)
  {
    assert ops[..n][..i] == ops[..i];
  }

  // ---------------------------------------------------------------- who is let in, by the operations alone

  /** The operation invites or revokes the login. */
  predicate Decides(op: Op, login: Login) {
    (op.Invite? || op.Revoke?) && op.login == login
  }

  /** The last invitation or revocation of the login. */
  function LastWord(ops: seq<Op>, login: Login): Option<Op> {
    if ops == [] then None
    else if Decides(ops[|ops| - 1], login) then Some(ops[|ops| - 1])
    else LastWord(ops[..|ops| - 1], login)
  }

  /** Operation `i` decides about the login and no later one does. */
  predicate IsLastWord(ops: seq<Op>, i: nat, login: Login) {
    i < |ops| && Decides(ops[i], login) && forall k | i < k < |ops| :: !Decides(ops[k], login)
  }

  lemma {:induction false} LastWordIff(ops: seq<Op>, login: Login, op: Op)
    ensures LastWord(ops, login) == Some(op) <==> exists i: nat :: IsLastWord(ops, i, login) && ops[i] == op
  {
    hide Decides;
    if ops != [] {
      var n := |ops| - 1;
      LastWordIff(ops[..n], login, op);
      if Decides(ops[n], login) {
        assert IsLastWord(ops, n, login);
      } else {
        if i: nat :| IsLastWord(ops[..n], i, login) && ops[..n][i] == op {
          assert IsLastWord(ops, i, login) && ops[i] == op;
        }
        if i: nat :| IsLastWord(ops, i, login) && ops[i] == op {
          assert forall k | i < k < n :: ops[..n][k] == ops[k];
          assert IsLastWord(ops[..n], i, login) && ops[..n][i] == op;
        }
      }
    }
  }

  /** The login is allowlisted, or the last word on it is an invitation that has not expired. */
  predicate LetIn(ops: seq<Op>, login: Login, now: int, allowlist: set<Login>) {
    login in allowlist
    || match LastWord(ops, login)
       case Some(Invite(_, _, expiresAt)) => expiresAt.None? || now < expiresAt.value
       case _ => false
  }

  /** The invitation table holds the last word on every login. */
  lemma {:induction false} TableHoldsLastWord(ttl: int, ops: seq<Op>, login: Login)
    ensures
      var invitations := After(ttl, ops).store.invitations;
      match LastWord(ops, login)
      case Some(Invite(_, now, expiresAt)) =>
        login in invitations && invitations[login] == Invitation(now, expiresAt, true)
      case _ => login in invitations ==> !invitations[login].enabled
  {
    if ops != [] {
      TableHoldsLastWord(ttl, ops[..|ops| - 1], login);
    }
  }

  predicate Invites(op: Op, login: Login) {
    op.Invite? && op.login == login
  }

  /** Operation `i` invites the login and no later one does. */
  predicate LastInvite(ops: seq<Op>, i: nat, login: Login) {
    i < |ops| && Invites(ops[i], login) && forall k | i < k < |ops| :: !Invites(ops[k], login)
  }

  predicate RevokedSince(ops: seq<Op>, i: nat, login: Login) {
    exists k :: i < k < |ops| && ops[k].Revoke? && ops[k].login == login
  }

  /** The row of a login, whole: it is that of the last invitation, disabled by a later revocation and never deleted. */
  lemma {:induction false} TableIff(ttl: int, ops: seq<Op>, login: Login)
    ensures
      var invitations := After(ttl, ops).store.invitations;
      (login in invitations <==> exists i: nat :: LastInvite(ops, i, login))
      && forall i: nat | LastInvite(ops, i, login) ::
           login in invitations
           && invitations[login] == Invitation(ops[i].now, ops[i].expiresAt, !RevokedSince(ops, i, login))
  {
    if ops != [] {
      hide After, Invites, LastInvite, RevokedSince;
      var n := |ops| - 1;
      TableIff(ttl, ops[..n], login);
      InvitationStep(ttl, ops, login);
      if Invites(ops[n], login) {
        InvitedLast(ops, login);
        assert LastInvite(ops, n, login);
      } else {
        forall i: nat ensures LastInvite(ops, i, login) <==> LastInvite(ops[..n], i, login) {
          LastInviteExtends(ops, i, login);
        }
        forall i: nat | LastInvite(ops[..n], i, login) ensures i < n && ops[..n][i] == ops[i]
          && (RevokedSince(ops, i, login)
              <==> RevokedSince(ops[..n], i, login) || (ops[n].Revoke? && ops[n].login == login))
        {
          RevokedExtends(ops, i, login);
        }
      }
    }
  }

  lemma InvitedLast(ops: seq<Op>, login: Login)
    requires ops != [] && Invites(ops[|ops| - 1], login)
    ensures forall i: nat :: LastInvite(ops, i, login) <==> i == |ops| - 1
    ensures !RevokedSince(ops, |ops| - 1, login)
  {
    hide Invites;
  }

  lemma RevokedExtends(ops: seq<Op>, i: nat, login: Login)
    requires ops != [] && LastInvite(ops[..|ops| - 1], i, login)
    ensures
      var n := |ops| - 1;
      i < n && ops[..n][i] == ops[i]
      && (RevokedSince(ops, i, login)
          <==> RevokedSince(ops[..n], i, login) || (ops[n].Revoke? && ops[n].login == login))
  {
    var n := |ops| - 1;
    assert forall k | 0 <= k < n :: ops[..n][k] == ops[k];
  }

  lemma LastInviteExtends(ops: seq<Op>, i: nat, login: Login)
    requires ops != [] && !Invites(ops[|ops| - 1], login)
    ensures LastInvite(ops, i, login) <==> LastInvite(ops[..|ops| - 1], i, login)
  {
    hide Invites;
    var n := |ops| - 1;
    assert forall k | 0 <= k < n :: ops[..n][k] == ops[k];
    if LastInvite(ops, i, login) {
      assert i != n;
    }
  }

  /** What the last operation does to the row of a login. */
  lemma InvitationStep(ttl: int, ops: seq<Op>, login: Login)
    requires ops != []
    ensures
      var op := ops[|ops| - 1];
      var was, now := After(ttl, ops[..|ops| - 1]).store.invitations, After(ttl, ops).store.invitations;
      if Invites(op, login) then login in now && now[login] == Invitation(op.now, op.expiresAt, true)
      else
        (login in now <==> login in was)
        && (login in was ==>
              now[login] == if op.Revoke? && op.login == login then was[login].(enabled := false) else was[login])
  {
  }

  /** In every interleaving a login is let in exactly by the allowlist or by an unexpired last invitation. */
  lemma LetInIff(ttl: int, ops: seq<Op>, login: Login, now: int, allowlist: set<Login>)
    ensures IsAllowed(After(ttl, ops).store, login, now, allowlist) <==> LetIn(ops, login, now, allowlist)
  {
    TableHoldsLastWord(ttl, ops, login);
  }

  /** The token is there, not revoked, and the clock is before its expiry. */
  predicate Live(ttl: int, ops: seq<Op>, hash: Hash, now: int) {
    hash in TokensAfter(ttl, ops) && TokensAfter(ttl, ops)[hash].revokedAt.None?
    && now < TokensAfter(ttl, ops)[hash].expiresAt
  }

  /**
   A rotation succeeds exactly for a live token whose login is let in, and it answers with that
   login; it raises exactly if the token it draws for such a one is taken, and answers nothing
   to any other attempt.
   */
  lemma RotatedIff(ttl: int, ops: seq<Op>, i: nat)
    requires i < |ops| && ops[i].Rotate?
    ensures
      var op, before := ops[i], ops[..i];
      Rotated(ttl, ops, i)
      <==> Live(ttl, before, op.hash, op.now) && op.drawn !in TokensAfter(ttl, before)
           && LetIn(before, TokensAfter(ttl, before)[op.hash].login, op.now, op.allowlist)
    ensures
      var op, before := ops[i], ops[..i];
      var answer := SessionStore.Rotate(After(ttl, before).store, op.hash, op.drawn, op.now, ttl, op.allowlist);
      if Live(ttl, before, op.hash, op.now)
         && LetIn(before, TokensAfter(ttl, before)[op.hash].login, op.now, op.allowlist)
      then
        if op.drawn in TokensAfter(ttl, before) then answer == Raise
        else answer.Ok? && answer.value.1 == Some(TokensAfter(ttl, before)[op.hash].login)
      else answer.Ok? && answer.value.1 == None
  {
    var op, before := ops[i], ops[..i];
    if op.hash in TokensAfter(ttl, before) {
      LetInIff(ttl, before, TokensAfter(ttl, before)[op.hash].login, op.now, op.allowlist);
    }
  }

  /** A rotation is refused, and its token revoked, exactly for a live token whose login is not let in. */
  lemma RefusedIff(ttl: int, ops: seq<Op>, i: nat)
    requires i < |ops| && ops[i].Rotate?
    ensures
      var op, before := ops[i], ops[..i];
      Refused(ttl, ops, i)
      <==> Live(ttl, before, op.hash, op.now)
           && !LetIn(before, TokensAfter(ttl, before)[op.hash].login, op.now, op.allowlist)
  {
    var op, before := ops[i], ops[..i];
    if op.hash in TokensAfter(ttl, before) {
      LetInIff(ttl, before, TokensAfter(ttl, before)[op.hash].login, op.now, op.allowlist);
    }
  }

  /** The operation puts an end to a token that is there: a revocation of its login, a logout or a rotation. */
  predicate Ends(ttl: int, ops: seq<Op>, i: nat, hash: Hash)
    requires i < |ops|
  {
    hash in TokensAfter(ttl, ops[..i])
    && ((ops[i].Revoke? && ops[i].login == TokensAfter(ttl, ops[..i])[hash].login)
        || (ops[i].Logout? && ops[i].hash == hash)
        || ((Rotated(ttl, ops, i) || Refused(ttl, ops, i)) && ops[i].hash == hash))
  }

  lemma StepEnds(ttl: int, ops: seq<Op>, hash: Hash)
    requires ops != [] && hash in TokensAfter(ttl, ops[..|ops| - 1])
    ensures hash in TokensAfter(ttl, ops)
    ensures TokensAfter(ttl, ops)[hash].revokedAt.Some?
       <==> TokensAfter(ttl, ops[..|ops| - 1])[hash].revokedAt.Some? || Ends(ttl, ops, |ops| - 1, hash)
  {
    StepKeepsTokens(ttl, After(ttl, ops[..|ops| - 1]), ops[|ops| - 1]);
  }

  /** In every interleaving a token is revoked exactly if some operation put an end to it. */
  lemma {:induction false} RevokedIff(ttl: int, ops: seq<Op>, hash: Hash)
    requires hash in TokensAfter(ttl, ops)
    ensures TokensAfter(ttl, ops)[hash].revokedAt.Some? <==> exists i :: 0 <= i < |ops| && Ends(ttl, ops, i, hash)
  {
    var n := |ops| - 1;
    forall i | 0 <= i < n ensures Ends(ttl, ops[..n], i, hash) == Ends(ttl, ops, i, hash) {
      PrefixMeaning(ttl, ops, n, i);
    }
    if hash in TokensAfter(ttl, ops[..n]) {
      RevokedIff(ttl, ops[..n], hash);
      StepEnds(ttl, ops, hash);
    } else {
      NotBefore(ttl, ops, hash);
      NewIsLive(ttl, ops, hash);
    }
  }

  /** The operation writes the time at which the token was revoked; a revocation leaves an earlier time alone. */
  predicate Stamps(ttl: int, ops: seq<Op>, i: nat, hash: Hash)
    requires i < |ops|
  {
    Ends(ttl, ops, i, hash) && (ops[i].Revoke? ==> TokensAfter(ttl, ops[..i])[hash].revokedAt.None?)
  }

  predicate LastStamp(ttl: int, ops: seq<Op>, i: nat, hash: Hash) {
    i < |ops| && Stamps(ttl, ops, i, hash) && forall k | i < k < |ops| :: !Stamps(ttl, ops, k, hash)
  }

  lemma StepStamps(ttl: int, ops: seq<Op>, hash: Hash)
    requires ops != [] && hash in TokensAfter(ttl, ops[..|ops| - 1])
    ensures hash in TokensAfter(ttl, ops)
    ensures TokensAfter(ttl, ops)[hash].revokedAt
         == if Stamps(ttl, ops, |ops| - 1, hash) then Some(ops[|ops| - 1].now)
            else TokensAfter(ttl, ops[..|ops| - 1])[hash].revokedAt
  {
  }

  /** The time a token was revoked at is that of the last operation that ended it. */
  lemma {:induction false} RevokedWhen(ttl: int, ops: seq<Op>, hash: Hash) returns (i: nat)
    requires hash in TokensAfter(ttl, ops) && TokensAfter(ttl, ops)[hash].revokedAt.Some?
    ensures LastStamp(ttl, ops, i, hash) && TokensAfter(ttl, ops)[hash].revokedAt == Some(ops[i].now)
  {
    var n := |ops| - 1;
    if hash !in TokensAfter(ttl, ops[..n]) {
      NewIsLive(ttl, ops, hash);
      assert false;
    }
    StepStamps(ttl, ops, hash);
    if Stamps(ttl, ops, n, hash) {
      i := n;
    } else {
      i := RevokedWhen(ttl, ops[..n], hash);
      hide Ends, TokensAfter;
      forall k | 0 <= k < n ensures Stamps(ttl, ops[..n], k, hash) == Stamps(ttl, ops, k, hash) {
        StampsPrefix(ttl, ops, n, k, hash);
      }
    }
  }

  lemma StampsPrefix(ttl: int, ops: seq<Op>, n: nat, i: nat, hash: Hash)
    requires i < n <= |ops|
    ensures Stamps(ttl, ops[..n], i, hash) == Stamps(ttl, ops, i, hash)
  {
    PrefixMeaning(ttl, ops, n, i);
    hide Rotated, Refused, TokensAfter;
  }

  lemma NewIsLive(ttl: int, ops: seq<Op>, hash: Hash)
    requires ops != [] && hash in TokensAfter(ttl, ops) && hash !in TokensAfter(ttl, ops[..|ops| - 1])
    ensures TokensAfter(ttl, ops)[hash].revokedAt.None?
  {
  }

  lemma NotBefore(ttl: int, ops: seq<Op>, hash: Hash)
    requires ops != [] && hash !in TokensAfter(ttl, ops[..|ops| - 1])
    ensures forall i | 0 <= i < |ops| :: hash !in TokensAfter(ttl, ops[..i])
  {
    forall i | 0 <= i < |ops| ensures hash !in TokensAfter(ttl, ops[..i]) {
      var n := |ops| - 1;
      if hash in TokensAfter(ttl, ops[..i]) {
        assert ops[..n][..i] == ops[..i];
        TokensKept(ttl, ops[..n], i, hash);
      }
    }
  }

  // ---------------------------------------------------------------- revocation is for good

  /** No operation forgets a token or changes anything in it but the time it was revoked, which it never clears. */
  lemma StepKeepsTokens(ttl: int, w: World, op: Op)
    ensures forall h | h in w.store.tokens ::
      var s, t := w.store.tokens, Step(ttl, w, op).store.tokens;
      h in t && t[h].(revokedAt := None) == s[h].(revokedAt := None)
      && (s[h].revokedAt.Some? ==> t[h].revokedAt.Some?)
  {
  }

  lemma {:induction false} TokensKept(ttl: int, ops: seq<Op>, n: nat, hash: Hash)
    requires n <= |ops| && hash in TokensAfter(ttl, ops[..n])
    ensures
      var s, t := TokensAfter(ttl, ops[..n]), TokensAfter(ttl, ops);
      hash in t && t[hash].(revokedAt := None) == s[hash].(revokedAt := None)
      && (s[hash].revokedAt.Some? ==> t[hash].revokedAt.Some?)
    decreases |ops| - n
  {
    if n == |ops| {
      assert ops[..n] == ops;
    } else {
      assert ops[..n + 1][..n] == ops[..n];
      StepKeepsTokens(ttl, After(ttl, ops[..n]), ops[n]);
      TokensKept(ttl, ops, n + 1, hash);
    }
  }

  /** A token that is revoked at some point is never rotated from there on. */
  lemma RevokedNeverRotates(ttl: int, ops: seq<Op>, n: nat, j: nat, hash: Hash)
    requires n <= j < |ops| && hash in TokensAfter(ttl, ops[..n])
    requires TokensAfter(ttl, ops[..n])[hash].revokedAt.Some?
    ensures !(Rotated(ttl, ops, j) && ops[j].hash == hash)
  {
    assert ops[..j][..n] == ops[..n];
    TokensKept(ttl, ops[..j], n, hash);
  }

  lemma RotationRevokes(ttl: int, ops: seq<Op>, i: nat)
    requires i < |ops| && Rotated(ttl, ops, i)
    ensures
      var t := TokensAfter(ttl, ops[..i + 1]);
      ops[i].hash in t && t[ops[i].hash].revokedAt.Some?
  {
    assert ops[..i + 1][..i] == ops[..i];
  }

  /** Every refresh token is rotated successfully at most once. */
  lemma RotatedOnce(ttl: int, ops: seq<Op>, i: nat, j: nat)
    requires i < |ops| && j < |ops| && Rotated(ttl, ops, i) && Rotated(ttl, ops, j) && ops[i].hash == ops[j].hash
    ensures i == j
  {
    var lo, hi := if i < j then i else j, if i < j then j else i;
    if lo < hi {
      RotationRevokes(ttl, ops, lo);
      RevokedNeverRotates(ttl, ops, lo + 1, hi, ops[lo].hash);
    }
  }

  /** A token present when its login is revoked never rotates again, whatever is invited later. */
  lemma RevokeKills(ttl: int, ops: seq<Op>, i: nat, j: nat, hash: Hash)
    requires i < j < |ops| && ops[i].Revoke?
    requires hash in TokensAfter(ttl, ops[..i]) && TokensAfter(ttl, ops[..i])[hash].login == ops[i].login
    ensures !(Rotated(ttl, ops, j) && ops[j].hash == hash)
  {
    assert ops[..i + 1][..i] == ops[..i];
    RevokedNeverRotates(ttl, ops, i + 1, j, hash);
  }

  // ---------------------------------------------------------------- exchanges that race a revocation

  /** From operation `i`, which revokes the login, up to `j` the login is not invited again. */
  predicate StaysRevoked(ops: seq<Op>, login: Login, i: nat, j: nat) {
    i < j <= |ops| && ops[i].Revoke? && ops[i].login == login
    && forall k | i < k < j :: !(ops[k].Invite? && ops[k].login == login)
  }

  lemma {:induction false} NotInvited(ttl: int, ops: seq<Op>, login: Login, i: nat, j: nat, now: int)
    requires StaysRevoked(ops, login, i, j)
    ensures !IsInvited(After(ttl, ops[..j]).store, login, now)
  {
    assert ops[..j][..j - 1] == ops[..j - 1];
    if i < j - 1 {
      NotInvited(ttl, ops, login, i, j - 1, now);
    }
  }

  /** Until the login is invited again or allowlisted, none of its tokens rotates, raced or not. */
  lemma RacedCannotRotate(ttl: int, ops: seq<Op>, login: Login, i: nat, j: nat)
    requires j < |ops| && StaysRevoked(ops, login, i, j) && ops[j].Rotate?
    requires ops[j].hash in TokensAfter(ttl, ops[..j]) && TokensAfter(ttl, ops[..j])[ops[j].hash].login == login
    requires login !in ops[j].allowlist
    ensures !Rotated(ttl, ops, j)
  {
    NotInvited(ttl, ops, login, i, j, ops[j].now);
  }

  /**
   One attempt in that time kills the token for good: a later rotation could only succeed if
   the clock went back from at or after the token's expiry to before it.
   */
  lemma RacedAttemptKills(ttl: int, ops: seq<Op>, login: Login, i: nat, j: nat, k: nat)
    requires j < k < |ops| && StaysRevoked(ops, login, i, j) && ops[j].Rotate?
    requires ops[j].hash in TokensAfter(ttl, ops[..j]) && TokensAfter(ttl, ops[..j])[ops[j].hash].login == login
    requires login !in ops[j].allowlist
    ensures Rotated(ttl, ops, k) && ops[k].hash == ops[j].hash ==>
      ops[k].now < TokensAfter(ttl, ops[..j])[ops[j].hash].expiresAt <= ops[j].now
  {
    var hash := ops[j].hash;
    NotInvited(ttl, ops, login, i, j, ops[j].now);
    assert ops[..j + 1][..j] == ops[..j];
    assert ops[..k][..j] == ops[..j];
    TokensKept(ttl, ops[..k], j, hash);
    if Usable(After(ttl, ops[..j]).store, hash, ops[j].now) {
      RevokedNeverRotates(ttl, ops, j + 1, k, hash);
    } else if TokensAfter(ttl, ops[..j])[hash].revokedAt.Some? {
      RevokedNeverRotates(ttl, ops, j, k, hash);
    }
  }

  /** The attempt revokes the token exactly when it was not already revoked or past its expiry. */
  lemma RacedAttemptRevokesIff(ttl: int, ops: seq<Op>, login: Login, i: nat, j: nat)
    requires j < |ops| && StaysRevoked(ops, login, i, j) && ops[j].Rotate?
    requires ops[j].hash in TokensAfter(ttl, ops[..j]) && TokensAfter(ttl, ops[..j])[ops[j].hash].login == login
    requires login !in ops[j].allowlist
    ensures
      var before := TokensAfter(ttl, ops[..j])[ops[j].hash];
      ops[j].hash in TokensAfter(ttl, ops[..j + 1])
      && (TokensAfter(ttl, ops[..j + 1])[ops[j].hash].revokedAt.Some?
          <==> before.revokedAt.Some? || ops[j].now < before.expiresAt)
  {
    NotInvited(ttl, ops, login, i, j, ops[j].now);
    assert ops[..j + 1][..j] == ops[..j];
  }

  /** An attempt on an expired token does not kill it: if the clock goes back, a re-invited login can rotate it. */
  lemma ExpiredAttemptRevives()
    ensures
      var ops := [Invite("a", 0, None), Check(0, "a", 0, {}), Revoke("a", 1), Insert(0, "t", 1),
                  Rotate("t", "u", 11, {}), Invite("a", 12, None), Rotate("t", "v", 5, {})];
      StaysRevoked(ops, "a", 2, 4) && "t" in TokensAfter(10, ops[..4]) && !Rotated(10, ops, 4) && Rotated(10, ops, 6)
  {
    var ops := [Invite("a", 0, None), Check(0, "a", 0, {}), Revoke("a", 1), Insert(0, "t", 1),
                Rotate("t", "u", 11, {}), Invite("a", 12, None), Rotate("t", "v", 5, {})];
    assert forall k | 0 <= k < 7 :: ops[..k + 1][..k] == ops[..k];
    var w1 := Step(10, World(EMPTY, map[]), ops[0]);
    assert After(10, ops[..1]) == w1;
    var w2 := Step(10, w1, ops[1]);
    assert After(10, ops[..2]) == w2;
    var w3 := Step(10, w2, ops[2]);
    assert After(10, ops[..3]) == w3;
    var w4 := Step(10, w3, ops[3]);
    assert After(10, ops[..4]) == w4;
    var w5 := Step(10, w4, ops[4]);
    assert After(10, ops[..5]) == w5;
    var w6 := Step(10, w5, ops[5]);
    assert After(10, ops[..6]) == w6;
  }

  // ---------------------------------------------------------------- where tokens come from

  /** Operation `i` brings token `hash` into being. */
  predicate Made(ttl: int, ops: seq<Op>, i: nat, hash: Hash) {
    i < |ops| && (Exchanged(ttl, ops, i) || Rotated(ttl, ops, i)) && ops[i].drawn == hash
  }

  /** Every token was made by an exchange or a rotation, at that moment, to last exactly the configured time. */
  lemma {:induction false} TokenMade(ttl: int, ops: seq<Op>, hash: Hash) returns (i: nat)
    requires hash in TokensAfter(ttl, ops)
    ensures Made(ttl, ops, i, hash)
    ensures
      var t := TokensAfter(ttl, ops)[hash];
      t.issuedAt == ops[i].now && t.expiresAt == t.issuedAt + ttl
      && t.login == (if ops[i].Insert? then After(ttl, ops[..i]).granted[ops[i].session]
                     else TokensAfter(ttl, ops[..i])[ops[i].hash].login)
  {
    var n := |ops| - 1;
    if hash in TokensAfter(ttl, ops[..n]) {
      i := TokenMade(ttl, ops[..n], hash);
      PrefixMeaning(ttl, ops, n, i);
      StepKeepsTokens(ttl, After(ttl, ops[..n]), ops[n]);
    } else {
      i := n;
    }
  }

  /** A token is there exactly if an exchange or a rotation made it. */
  lemma {:induction false} TokenThereIff(ttl: int, ops: seq<Op>, hash: Hash)
    ensures hash in TokensAfter(ttl, ops) <==> exists k: nat :: Made(ttl, ops, k, hash)
  {
    if hash in TokensAfter(ttl, ops) {
      var k := TokenMade(ttl, ops, hash);
    }
    if k: nat :| Made(ttl, ops, k, hash) {
      MadeIsThere(ttl, ops, k, hash);
    }
  }

  lemma MadeIsThere(ttl: int, ops: seq<Op>, k: nat, hash: Hash)
    requires Made(ttl, ops, k, hash)
    ensures hash in TokensAfter(ttl, ops)
  {
    assert ops[..k + 1][..k] == ops[..k];
    assert hash in TokensAfter(ttl, ops[..k + 1]);
    TokensKept(ttl, ops, k + 1, hash);
  }

  /** Inserting raises exactly if an earlier exchange or rotation made that token. */
  lemma InsertRaisesIff(ttl: int, ops: seq<Op>, drawn: Hash, login: Login, now: int)
    ensures Create(After(ttl, ops).store, drawn, login, now, ttl).Raise? <==> exists k: nat :: Made(ttl, ops, k, drawn)
  {
    TokenThereIff(ttl, ops, drawn);
  }

  lemma MadeOnce(ttl: int, ops: seq<Op>, i: nat, j: nat, hash: Hash)
    requires Made(ttl, ops, i, hash) && Made(ttl, ops, j, hash)
    ensures i == j
  {
    var lo, hi := if i < j then i else j, if i < j then j else i;
    if lo < hi {
      assert ops[..lo + 1][..lo] == ops[..lo];
      assert ops[..hi][..lo + 1] == ops[..lo + 1];
      TokensKept(ttl, ops[..hi], lo + 1, hash);
    }
  }

  /** Operation `c` is the check that granted the exchange inserting at `i`. */
  predicate Granted(ttl: int, ops: seq<Op>, c: nat, i: nat) {
    c < i < |ops| && ops[i].Insert? && ops[c].Check? && ops[c].session == ops[i].session
    && ops[c].login != "" && LetIn(ops[..c], ops[c].login, ops[c].now, ops[c].allowlist)
  }

  lemma {:induction false} GrantOrigin(ttl: int, ops: seq<Op>, session: nat) returns (c: nat)
    requires session in After(ttl, ops).granted
    ensures c < |ops| && ops[c].Check? && ops[c].session == session && ops[c].login != ""
    ensures LetIn(ops[..c], ops[c].login, ops[c].now, ops[c].allowlist)
    ensures After(ttl, ops).granted[session] == ops[c].login
  {
    var n := |ops| - 1;
    var w := After(ttl, ops[..n]);
    var op := ops[n];
    if op.Check? && op.session == session && op.login != "" && IsAllowed(w.store, op.login, op.now, op.allowlist) {
      LetInIff(ttl, ops[..n], op.login, op.now, op.allowlist);
      c := n;
    } else {
      c := GrantOrigin(ttl, ops[..n], session);
      assert ops[..n][..c] == ops[..c];
    }
  }

  /** Operation `k` opens, reopens or closes the exchange. */
  predicate Touches(ops: seq<Op>, k: nat, session: nat)
    requires k < |ops|
  {
    (ops[k].Insert? && ops[k].session == session)
    || (ops[k].Check? && ops[k].session == session && ops[k].login != ""
        && LetIn(ops[..k], ops[k].login, ops[k].now, ops[k].allowlist))
  }

  /** Operation `c` is a check that let the login in, and the last to touch the exchange. */
  predicate Opens(ops: seq<Op>, c: nat, session: nat, login: Login) {
    c < |ops| && Touches(ops, c, session) && ops[c].Check? && ops[c].login == login
    && forall k | c < k < |ops| :: !Touches(ops, k, session)
  }

  lemma OpensExtends(ops: seq<Op>, c: nat, session: nat, login: Login)
    requires ops != [] && c < |ops| - 1
    ensures Opens(ops, c, session, login)
       <==> Opens(ops[..|ops| - 1], c, session, login) && !Touches(ops, |ops| - 1, session)
  {
    hide LetIn;
    var n := |ops| - 1;
    forall k | 0 <= k < n ensures Touches(ops[..n], k, session) == Touches(ops, k, session) {
      assert ops[..n][..k] == ops[..k];
    }
  }

  /** An exchange is open for a login exactly if the last operation to touch it is a check that let the login in. */
  lemma {:induction false} OpenIff(ttl: int, ops: seq<Op>, session: nat, login: Login)
    ensures
      var granted := After(ttl, ops).granted;
      session in granted && granted[session] == login <==> exists c: nat :: Opens(ops, c, session, login)
  {
    if ops != [] {
      var n := |ops| - 1;
      var op, w := ops[n], After(ttl, ops[..n]);
      OpenIff(ttl, ops[..n], session, login);
      if op.Check? {
        LetInIff(ttl, ops[..n], op.login, op.now, op.allowlist);
      }
      hide LetIn, IsAllowed;
      if Touches(ops, n, session) {
        assert Opens(ops, n, session, login) <==> op.Check? && op.login == login;
      } else {
        if c: nat :| Opens(ops[..n], c, session, login) {
          OpensExtends(ops, c, session, login);
        }
        if c: nat :| Opens(ops, c, session, login) {
          OpensExtends(ops, c, session, login);
        }
      }
    }
  }

  /** An exchange followed by rotations, each of the token made by the one before. */
  predicate Lineage(ttl: int, ops: seq<Op>, chain: seq<nat>) {
    chain != [] && (forall k | 0 <= k < |chain| :: chain[k] < |ops|)
    && Exchanged(ttl, ops, chain[0])
    && forall k | 0 < k < |chain| ::
         chain[k - 1] < chain[k] && Rotated(ttl, ops, chain[k]) && Made(ttl, ops, chain[k - 1], ops[chain[k]].hash)
  }

  /** Every token descends from an exchange by rotations. */
  lemma {:induction false} EveryTokenDescends(ttl: int, ops: seq<Op>, hash: Hash) returns (chain: seq<nat>)
    requires hash in TokensAfter(ttl, ops)
    ensures Lineage(ttl, ops, chain) && ops[chain[|chain| - 1]].drawn == hash
    decreases |ops|
  {
    var i := TokenMade(ttl, ops, hash);
    if Exchanged(ttl, ops, i) {
      chain := [i];
    } else {
      RotatedExists(ttl, ops, i);
      hide Lineage, Rotated, Exchanged, TokensAfter, After;
      var parents := EveryTokenDescends(ttl, ops[..i], ops[i].hash);
      LineageExtends(ttl, ops, i, parents);
      chain := parents + [i];
    }
  }

  lemma RotatedExists(ttl: int, ops: seq<Op>, i: nat)
    requires i < |ops| && Rotated(ttl, ops, i)
    ensures ops[i].Rotate? && ops[i].hash in TokensAfter(ttl, ops[..i])
  {
  }

  /** A rotation of the last token of a lineage makes it one longer. */
  lemma LineageExtends(ttl: int, ops: seq<Op>, i: nat, parents: seq<nat>)
    requires i < |ops| && Rotated(ttl, ops, i)
    requires Lineage(ttl, ops[..i], parents) && ops[..i][parents[|parents| - 1]].drawn == ops[i].hash
    ensures Lineage(ttl, ops, parents + [i])
  {
    forall k | 0 <= k < |parents| ensures parents[k] < |ops|
      && Exchanged(ttl, ops[..i], parents[k]) == Exchanged(ttl, ops, parents[k])
      && Rotated(ttl, ops[..i], parents[k]) == Rotated(ttl, ops, parents[k])
      && ops[..i][parents[k]] == ops[parents[k]]
    {
      PrefixMeaning(ttl, ops, i, parents[k]);
    }
    hide Rotated, Exchanged;
  }

  /** A token carries the login of the exchange it descends from, through every rotation. */
  lemma {:induction false} DescendantKeepsLogin(ttl: int, ops: seq<Op>, chain: seq<nat>)
    returns (c: nat)
    requires Lineage(ttl, ops, chain)
    ensures Granted(ttl, ops, c, chain[0])
    ensures
      var hash := ops[chain[|chain| - 1]].drawn;
      hash in TokensAfter(ttl, ops) && TokensAfter(ttl, ops)[hash].login == ops[c].login
    decreases |chain|
  {
    var last := |chain| - 1;
    var i := chain[last];
    assert ops[..i + 1][..i] == ops[..i];
    var hash := ops[i].drawn;
    assert hash in TokensAfter(ttl, ops[..i + 1]);
    TokensKept(ttl, ops, i + 1, hash);
    if last == 0 {
      c := GrantOrigin(ttl, ops[..i], ops[i].session);
      assert ops[..i][..c] == ops[..c];
    } else {
      var parents := chain[..last];
      assert Lineage(ttl, ops, parents);
      c := DescendantKeepsLogin(ttl, ops, parents);
      assert ops[i].hash in TokensAfter(ttl, ops[..i]);
      TokensKept(ttl, ops, i, ops[i].hash);
    }
  }

  // ---------------------------------------------------------------- conservation

  function LiveTokens(s: Store, login: Login): set<Hash> {
    set h | h in s.tokens && s.tokens[h].login == login && s.tokens[h].revokedAt.None?
  }

  /**
   The live tokens of a login by bookkeeping alone: exchanges add one, logouts of a live token
   and rotations refused for lack of an invitation take one away, a revocation resets to zero
   and a successful rotation changes nothing.
   */
  function Balance(ttl: int, ops: seq<Op>, login: Login): int {
    if ops == [] then 0
    else
      var i := |ops| - 1;
      var s := After(ttl, ops[..i]).store;
      var before := Balance(ttl, ops[..i], login);
      match ops[i]
      case Revoke(l, _) => if l == login then 0 else before
      case Insert(session, _, _) =>
        if Exchanged(ttl, ops, i) && After(ttl, ops[..i]).granted[session] == login then before + 1 else before
      case Logout(hash, _) => if hash in LiveTokens(s, login) then before - 1 else before
      case Rotate(hash, _, _, _) =>
        if Refused(ttl, ops, i) && s.tokens[hash].login == login then before - 1 else before
      case _ => before
  }

  lemma RevokeLive(s: Store, l: Login, now: int, login: Login)
    ensures LiveTokens(RevokeLogin(s, l, now), login) == if l == login then {} else LiveTokens(s, login)
  {
  }

  lemma CreateLive(s: Store, hash: Hash, l: Login, now: int, ttl: int, login: Login)
    requires hash !in s.tokens
    ensures LiveTokens(Create(s, hash, l, now, ttl).value, login)
         == LiveTokens(s, login) + (if l == login then {hash} else {})
  {
  }

  lemma KillLive(s: Store, hash: Hash, now: int, login: Login)
    requires hash in s.tokens
    ensures LiveTokens(s.(tokens := s.tokens[hash := Revoked(s.tokens[hash], now)]), login)
         == LiveTokens(s, login) - {hash}
  {
  }

  lemma RotateLive(s: Store, hash: Hash, drawn: Hash, now: int, ttl: int, allowlist: set<Login>, login: Login)
    requires CanRotate(s, hash, now, allowlist) && drawn !in s.tokens
    ensures LiveTokens(SessionStore.Rotate(s, hash, drawn, now, ttl, allowlist).value.0, login)
         == if s.tokens[hash].login == login then LiveTokens(s, login) - {hash} + {drawn} else LiveTokens(s, login)
  {
    var killed := s.(tokens := s.tokens[hash := Revoked(s.tokens[hash], now)]);
    KillLive(s, hash, now, login);
    CreateLive(killed, drawn, s.tokens[hash].login, now, ttl, login);
  }

  /** A rotation keeps the number of live tokens, unless it is refused for lack of an invitation. */
  lemma RotateCount(ttl: int, ops: seq<Op>, login: Login)
    requires ops != [] && ops[|ops| - 1].Rotate?
    ensures
      var i := |ops| - 1;
      var s := After(ttl, ops[..i]).store;
      |LiveTokens(After(ttl, ops).store, login)|
      == |LiveTokens(s, login)| - (if Refused(ttl, ops, i) && s.tokens[ops[i].hash].login == login then 1 else 0)
  {
    var i := |ops| - 1;
    var op, s := ops[i], After(ttl, ops[..i]).store;
    if Rotated(ttl, ops, i) {
      RotateLive(s, op.hash, op.drawn, op.now, ttl, op.allowlist, login);
      assert After(ttl, ops).store == SessionStore.Rotate(s, op.hash, op.drawn, op.now, ttl, op.allowlist).value.0;
    } else if Refused(ttl, ops, i) {
      KillLive(s, op.hash, op.now, login);
    }
  }

  /** What the operations other than a rotation do to the live tokens. */
  lemma OtherCount(ttl: int, ops: seq<Op>, login: Login)
    requires ops != [] && !ops[|ops| - 1].Rotate?
    ensures
      var i := |ops| - 1;
      |LiveTokens(After(ttl, ops).store, login)| - |LiveTokens(After(ttl, ops[..i]).store, login)|
      == (match ops[i]
          case Revoke(l, _) => if l == login then -|LiveTokens(After(ttl, ops[..i]).store, login)| else 0
          case Insert(session, _, _) =>
            if Exchanged(ttl, ops, i) && After(ttl, ops[..i]).granted[session] == login then 1 else 0
          case Logout(hash, _) => if hash in LiveTokens(After(ttl, ops[..i]).store, login) then -1 else 0
          case _ => 0)
  {
    var i := |ops| - 1;
    var w := After(ttl, ops[..i]);
    match ops[i]
    case Revoke(l, now) => RevokeLive(w.store, l, now, login);
    case Insert(session, drawn, now) =>
      if Exchanged(ttl, ops, i) { CreateLive(w.store, drawn, w.granted[session], now, ttl, login); }
    case Logout(hash, now) =>
      if hash in w.store.tokens { KillLive(w.store, hash, now, login); }
    case _ =>
  }

  /** In every run the unrevoked tokens of a login are as many as the bookkeeping says. */
  lemma {:induction false} LiveTokensConserved(ttl: int, ops: seq<Op>, login: Login)
    ensures |LiveTokens(After(ttl, ops).store, login)| == Balance(ttl, ops, login)
  {
    if ops != [] {
      var i := |ops| - 1;
      LiveTokensConserved(ttl, ops[..i], login);
      hide Step, LiveTokens, Refused, Exchanged, After;
      if ops[i].Rotate? {
        RotateCount(ttl, ops, login);
      } else {
        OtherCount(ttl, ops, login);
      }
    }
  }
}
