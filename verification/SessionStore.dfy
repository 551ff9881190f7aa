/**
 Invitations and refresh tokens (gateway/auth.py). Each database transaction is one atomic
 operation on two tables; a statement that violates a primary key rolls its transaction back.

 Logins are taken as already normalised (stripped and lower-cased), tokens by their hash. The
 clock, the allowlist in force and the freshly drawn token are parameters of each operation.
 */
module SessionStore {
  import opened JsonValue

  type Login = string
  type Hash = string

  datatype Invitation = Invitation(invitedAt: int, expiresAt: Option<int>, enabled: bool)
  datatype Token = Token(login: Login, issuedAt: int, expiresAt: int, revokedAt: Option<int>)

  datatype Store = Store(invitations: map<Login, Invitation>, tokens: map<Hash, Token>)

  const EMPTY := Store(map[], map[])

  predicate IsInvited(s: Store, login: Login, now: int) {
    login in s.invitations && s.invitations[login].enabled
    && (s.invitations[login].expiresAt.None? || s.invitations[login].expiresAt.value > now)
  }

  predicate IsAllowed(s: Store, login: Login, now: int, allowlist: set<Login>) {
    login in allowlist || IsInvited(s, login, now)
  }

  function InviteLogin(s: Store, login: Login, now: int, expiresAt: Option<int>): Store {
    s.(invitations := s.invitations[login := Invitation(now, expiresAt, true)])
  }

  function Revoked(t: Token, now: int): Token {
    t.(revokedAt := Some(now))
  }

  /** Disables the invitation, if there is one, and revokes every live token of the login. */
  function RevokeLogin(s: Store, login: Login, now: int): Store {
    Store(
      if login in s.invitations then s.invitations[login := s.invitations[login].(enabled := false)]
      else s.invitations,
      map h | h in s.tokens ::
        if s.tokens[h].login == login && s.tokens[h].revokedAt.None? then Revoked(s.tokens[h], now) else s.tokens[h])
  }

  /** Inserting a token whose hash is taken violates the primary key. */
  function Create(s: Store, hash: Hash, login: Login, now: int, ttl: int): Outcome<Store> {
    if hash in s.tokens then Raise
    else Ok(s.(tokens := s.tokens[hash := Token(login, now, now + ttl, None)]))
  }

  /** A token that rotation will look at: not revoked and not expired. */
  predicate Usable(s: Store, hash: Hash, now: int) {
    hash in s.tokens && s.tokens[hash].revokedAt.None? && s.tokens[hash].expiresAt > now
  }

  /** The token may be exchanged for a new one: usable, and its login is still let in. */
  predicate CanRotate(s: Store, hash: Hash, now: int, allowlist: set<Login>) {
    Usable(s, hash, now) && IsAllowed(s, s.tokens[hash].login, now, allowlist)
  }

  /** The store after a rotation and, when it succeeds, the login; a key violation rolls everything back. */
  function Rotate(s: Store, hash: Hash, drawn: Hash, now: int, ttl: int, allowlist: set<Login>)
    : Outcome<(Store, Option<Login>)>
  {
    if !Usable(s, hash, now) then Ok((s, None))
    else
      var killed := s.(tokens := s.tokens[hash := Revoked(s.tokens[hash], now)]);
      if !CanRotate(s, hash, now, allowlist) then Ok((killed, None))
      else
        match Create(killed, drawn, s.tokens[hash].login, now, ttl)
        case Raise => Raise
        case Ok(t) => Ok((t, Some(s.tokens[hash].login)))
  }

  function Logout(s: Store, hash: Hash, now: int): Store {
    if hash in s.tokens then s.(tokens := s.tokens[hash := Revoked(s.tokens[hash], now)]) else s
  }

  /** The two tables, as the service changes them. */
  class InvitationStore {
    const ttl: int
    var invitations: map<Login, Invitation>
    var tokens: map<Hash, Token>

    constructor (ttl: int)
      ensures Value() == EMPTY && this.ttl == ttl
    {
      this.ttl := ttl;
      invitations, tokens := map[], map[];
    }

    ghost function Value(): Store
      reads this
    {
      Store(invitations, tokens)
    }

    method Invite(login: Login, now: int, expiresAt: Option<int>)
      modifies this
      ensures Value() == InviteLogin(old(Value()), login, now, expiresAt)
    {
      invitations := invitations[login := Invitation(now, expiresAt, true)];
    }

    method Revoke(login: Login, now: int)
      modifies this
      ensures Value() == RevokeLogin(old(Value()), login, now)
    {
      if login in invitations {
        invitations := invitations[login := invitations[login].(enabled := false)];
      }
      tokens := map h | h in tokens ::
        if tokens[h].login == login && tokens[h].revokedAt.None? then Revoked(tokens[h], now) else tokens[h];
    }

    method Invited(login: Login, now: int) returns (r: bool)
      ensures r == IsInvited(Value(), login, now)
    {
      if login !in invitations || !invitations[login].enabled {
        return false;
      }
      var expiry := invitations[login].expiresAt;
      return expiry.None? || expiry.value > now;
    }

    method CreateRefreshToken(hash: Hash, login: Login, now: int) returns (r: Outcome<()>)
      modifies this
      ensures
        match Create(old(Value()), hash, login, now, ttl)
        case Raise => r == Raise && Value() == old(Value())
        case Ok(t) => r == Ok(()) && Value() == t
    {
      if hash in tokens {
        return Raise;
      }
      tokens := tokens[hash := Token(login, now, now + ttl, None)];
      return Ok(());
    }

    method RotateRefreshToken(hash: Hash, drawn: Hash, now: int, allowlist: set<Login>)
      returns (r: Outcome<Option<Login>>)
      modifies this
      ensures
        match Rotate(old(Value()), hash, drawn, now, ttl, allowlist)
        case Raise => r == Raise && Value() == old(Value())
        case Ok((t, login)) => r == Ok(login) && Value() == t
    {
      if hash !in tokens || tokens[hash].revokedAt.Some? || tokens[hash].expiresAt <= now {
        return Ok(None);
      }
      var login := tokens[hash].login;
      var before := tokens;
      var invited := Invited(login, now);
      tokens := tokens[hash := Revoked(tokens[hash], now)];
      if login !in allowlist && !invited {
        return Ok(None);
      }
      var created := CreateRefreshToken(drawn, login, now);
      if created.Raise? {
        tokens := before;
        return Raise;
      }
      return Ok(Some(login));
    }

    method RevokeRefreshToken(hash: Hash, now: int)
      modifies this
      ensures Value() == Logout(old(Value()), hash, now)
    {
      if hash in tokens {
        tokens := tokens[hash := Revoked(tokens[hash], now)];
      }
    }
  }
}
