/**
 Access tokens (gateway/auth.py): signed claims in the compact form of section 7.1 of
 RFC 7515, expiring by the `exp` claim of section 4.1.4 of RFC 7519.

 HMAC-SHA256 under the configured secret and the JSON reader and writer are parameters.
 */
module AccessToken {
  import opened JsonValue
  import opened Base64Url

  datatype Key = Alg | Typ | Iss | Aud | Sub | Iat | Exp | Jti | Other(text: string)

  type Claims = map<Key, Json<Key>>

  datatype Service = Service(
    hmac: string -> seq<Byte>,
    dumps: Json<Key> -> seq<Byte>,
    loads: seq<Byte> -> Outcome<Json<Key>>,
    issuer: string, audience: string, lifetime: int)

  /** The JSON reader undoes the writer on objects of strings and integers under the registered names. */
  ghost predicate Faithful(service: Service) {
    forall f: Claims | Plain(f) :: service.loads(service.dumps(Obj(f))) == Ok(Obj(f))
  }

  predicate Plain(f: Claims) {
    forall k | k in f :: !k.Other? && (f[k].Str? || f[k].Int?)
  }

  const HEADER: Json<Key> := Obj(map[Alg := Str("HS256"), Typ := Str("JWT")])

  function ClaimsFor(service: Service, login: string, now: int, jti: string): Claims {
    map[Iss := Str(service.issuer), Aud := Str(service.audience), Sub := Str(login),
        Iat := Int(now), Exp := Int(now + service.lifetime), Jti := Str(jti)]
  }

  /** Header and claims bytes as signed text. */
  function Unsigned(header: seq<Byte>, claims: seq<Byte>): string {
    Encode(header) + "." + Encode(claims)
  }

  function Sealed(service: Service, header: seq<Byte>, claims: seq<Byte>): string {
    Unsigned(header, claims) + "." + Encode(service.hmac(Unsigned(header, claims)))
  }

  function Issue(service: Service, login: string, now: int, jti: string): string {
    Sealed(service, service.dumps(HEADER), service.dumps(Obj(ClaimsFor(service, login, now, jti))))
  }

  /** `token.split(".")` */
  function Split(s: string): (r: seq<string>)
    ensures r != []
  {
    if s == "" then [""]
    else
      var rest := Split(s[1..]);
      if s[0] == '.' then [""] + rest else [[s[0]] + rest[0]] + rest[1..]
  }

  /** What reading a token comes to; reading claims that are not an object raises an error nobody catches. */
  datatype Verdict = Accepted(claims: Claims) | Invalid | Expired | Crash

  /** The expiry a claim set gives; Python counts booleans as integers. */
  function ExpiryOf(claims: Claims): Option<int> {
    match Get(claims, Exp)
    case Int(n) => Some(n)
    case Bool(b) => Some(if b then 1 else 0)
    case _ => None
  }

  function CheckClaims(service: Service, claims: Json<Key>, now: int): Verdict {
    if !claims.Obj? then Crash
    else if Get(claims.fields, Iss) != Str(service.issuer) || Get(claims.fields, Aud) != Str(service.audience)
    then Invalid
    else
      var exp := ExpiryOf(claims.fields);
      if exp.None? || exp.value <= now then Expired else Accepted(claims.fields)
  }

  function Read(service: Service, token: string, now: int): Verdict {
    var parts := Split(token);
    if |parts| != 3 then Invalid
    else
      var supplied := Decode(parts[2]);
      if supplied.None? || supplied.value != service.hmac(parts[0] + "." + parts[1]) then Invalid
      else
        var header, claims := Decode(parts[0]), Decode(parts[1]);
        if header.None? || claims.None? || service.loads(header.value).Raise? || service.loads(claims.value).Raise?
        then Invalid
        else if service.loads(header.value).value != HEADER then Invalid
        else CheckClaims(service, service.loads(claims.value).value, now)
  }

  // ---------------------------------------------------------------- segments

  lemma {:induction false} SplitFirst(a: string, b: string)
    requires forall i | 0 <= i < |a| :: a[i] != '.'
    ensures Split(a + "." + b) == [a] + Split(b)
  {
    var s := a + "." + b;
    if a == "" {
      assert s[1..] == b;
    } else {
      assert s[1..] == a[1..] + "." + b;
      SplitFirst(a[1..], b);
      assert [s[0]] + a[1..] == a;
    }
  }

  lemma {:induction false} SplitNone(a: string)
    requires forall i | 0 <= i < |a| :: a[i] != '.'
    ensures Split(a) == [a]
  {
    if a != "" {
      SplitNone(a[1..]);
      assert [a[0]] + a[1..] == a;
    }
  }

  function Join(parts: seq<string>): string
    requires parts != []
  {
    if |parts| == 1 then parts[0] else parts[0] + "." + Join(parts[1..])
  }

  /** Splitting loses nothing. */
  lemma {:induction false} JoinSplit(s: string)
    ensures Join(Split(s)) == s
  {
    if s != "" {
      var rest := Split(s[1..]);
      JoinSplit(s[1..]);
      if s[0] == '.' {
        assert ([""] + rest)[1..] == rest;
      } else {
        var parts := [[s[0]] + rest[0]] + rest[1..];
        assert parts[1..] == rest[1..];
        if |rest| > 1 {
          assert Join(rest) == rest[0] + "." + Join(rest[1..]);
          assert [s[0]] + rest[0] + "." + Join(rest[1..]) == [s[0]] + (rest[0] + "." + Join(rest[1..]));
        }
      }
    }
  }

  lemma SealedSegments(service: Service, header: seq<Byte>, claims: seq<Byte>)
    ensures Split(Sealed(service, header, claims))
         == [Encode(header), Encode(claims), Encode(service.hmac(Unsigned(header, claims)))]
  {
    var a, b := Encode(header), Encode(claims);
    var c := Encode(service.hmac(Unsigned(header, claims)));
    NoDots(header);
    NoDots(claims);
    NoDots(service.hmac(Unsigned(header, claims)));
    assert Sealed(service, header, claims) == a + "." + (b + "." + c);
    SplitFirst(a, b + "." + c);
    SplitFirst(b, c);
    SplitNone(c);
  }

  lemma NoDots(b: seq<Byte>)
    ensures forall i | 0 <= i < |Encode(b)| :: Encode(b)[i] != '.'
  {
    EncodeIsBare(b);
    BareInAlphabet(b);
  }

  lemma JoinThree(parts: seq<string>)
    requires |parts| == 3
    ensures Join(parts) == parts[0] + "." + parts[1] + "." + parts[2]
  {
    assert parts[1..][1..] == [parts[2]];
    assert Join(parts[1..]) == parts[1] + "." + parts[2];
    assert parts[0] + "." + (parts[1] + "." + parts[2]) == parts[0] + "." + parts[1] + "." + parts[2];
  }

  // ---------------------------------------------------------------- the token and its life

  /** A sealed text always gets past the signature. */
  lemma ReadSealed(service: Service, header: seq<Byte>, body: seq<Byte>, now: int)
    requires service.loads(header) == Ok(HEADER) && service.loads(body).Ok?
    ensures Read(service, Sealed(service, header, body), now)
         == CheckClaims(service, service.loads(body).value, now)
  {
    SealedSegments(service, header, body);
    DecodeEncode(header);
    DecodeEncode(body);
    DecodeEncode(service.hmac(Unsigned(header, body)));
    hide Split, Decode, Encode;
  }

  lemma OwnClaims(service: Service, login: string, issued: int, jti: string, now: int)
    ensures Plain(ClaimsFor(service, login, issued, jti))
    ensures CheckClaims(service, Obj(ClaimsFor(service, login, issued, jti)), now)
         == if now < issued + service.lifetime then Accepted(ClaimsFor(service, login, issued, jti)) else Expired
  {
  }

  lemma PlainHeader()
    ensures HEADER.Obj? && Plain(HEADER.fields)
  {
  }

  /** The claims a login is issued: whose they are, for whom, from when until when, and a number of their own. */
  predicate IssuedClaims(service: Service, claims: Claims, login: string, issued: int, jti: string) {
    claims.Keys == {Iss, Aud, Sub, Iat, Exp, Jti}
    && claims[Iss] == Str(service.issuer) && claims[Aud] == Str(service.audience) && claims[Sub] == Str(login)
    && claims[Iat] == Int(issued) && claims[Exp] == Int(issued + service.lifetime) && claims[Jti] == Str(jti)
  }

  lemma ClaimsForAre(service: Service, login: string, issued: int, jti: string)
    ensures IssuedClaims(service, ClaimsFor(service, login, issued, jti), login, issued, jti)
  {
  }

  /** An issued token is accepted with its own claims strictly before its expiry, and from then on it is expired. */
  lemma IssuedTokenLifetime(service: Service, login: string, issued: int, jti: string, now: int)
    requires Faithful(service)
    ensures
      var verdict := Read(service, Issue(service, login, issued, jti), now);
      if now < issued + service.lifetime
      then verdict.Accepted? && IssuedClaims(service, verdict.claims, login, issued, jti)
      else verdict == Expired
  {
    ClaimsForAre(service, login, issued, jti);
    hide Plain, ClaimsFor, CheckClaims, Read, Sealed, IssuedClaims;
    var claims := ClaimsFor(service, login, issued, jti);
    OwnClaims(service, login, issued, jti, now);
    PlainHeader();
    assert service.loads(service.dumps(Obj(HEADER.fields))) == Ok(Obj(HEADER.fields));
    ReadSealed(service, service.dumps(HEADER), service.dumps(Obj(claims)), now);
  }

  /**
   The bytes behind a token: it is, character for character, the encoded header, a dot, the
   encoded claims, a dot and the encoded signature of what comes before that dot.
   */
  ghost predicate Backed(service: Service, token: string, claims: Json<Key>, header: seq<Byte>, body: seq<Byte>) {
    token == Encode(header) + "." + Encode(body) + "."
             + Encode(service.hmac(Encode(header) + "." + Encode(body)))
    && service.loads(header) == Ok(Obj(map[Alg := Str("HS256"), Typ := Str("JWT")]))
    && service.loads(body) == Ok(claims)
  }

  /** The token is the signed form of a right header and of these claims. */
  ghost predicate Carries(service: Service, token: string, claims: Json<Key>) {
    exists header, body :: Backed(service, token, claims, header, body)
  }

  predicate Ours(service: Service, claims: Claims) {
    Get(claims, Iss) == Str(service.issuer) && Get(claims, Aud) == Str(service.audience)
  }

  /** The expiry claim is a later instant; Python counts booleans as the integers one and zero. */
  predicate Unexpired(claims: Claims, now: int) {
    match Get(claims, Exp)
    case Int(n) => now < n
    case Bool(true) => now < 1
    case Bool(false) => now < 0
    case _ => false
  }

  /**
   What reading any text at any instant comes to: signed claims of this service are accepted
   until they expire, signed claims that are no object crash, and anything else is invalid.
   */
  lemma ReadIff(service: Service, token: string, now: int)
    ensures forall claims ::
      Read(service, token, now) == Accepted(claims)
      <==> Carries(service, token, Obj(claims)) && Ours(service, claims) && Unexpired(claims, now)
    ensures
      Read(service, token, now) == Expired
      <==> exists claims :: Carries(service, token, Obj(claims)) && Ours(service, claims) && !Unexpired(claims, now)
    ensures Read(service, token, now) == Crash <==> exists v: Json<Key> :: Carries(service, token, v) && !v.Obj?
  {
    if v: Json<Key> :| Carries(service, token, v) {
      CarriedRead(service, token, v, now);
      forall w | Carries(service, token, w) ensures w == v {
        CarriesOne(service, token, v, w);
      }
      hide Carries, Read;
    } else {
      NotCarried(service, token, now);
      hide Carries, Read;
    }
  }

  lemma CarriedRead(service: Service, token: string, v: Json<Key>, now: int)
    requires Carries(service, token, v)
    ensures Read(service, token, now)
         == if !v.Obj? then Crash
            else if !Ours(service, v.fields) then Invalid
            else if Unexpired(v.fields, now) then Accepted(v.fields) else Expired
  {
    var header, body :| Backed(service, token, v, header, body);
    assert token == Sealed(service, header, body);
    ReadSealed(service, header, body, now);
    hide Read, Sealed, Encode;
  }

  /** A token carries one set of claims. */
  lemma CarriesOne(service: Service, token: string, v: Json<Key>, w: Json<Key>)
    requires Carries(service, token, v) && Carries(service, token, w)
    ensures v == w
  {
    var header, body :| Backed(service, token, v, header, body);
    var header', body' :| Backed(service, token, w, header', body');
    SealedSegments(service, header, body);
    SealedSegments(service, header', body');
    DecodeEncode(body);
    DecodeEncode(body');
    assert token == Sealed(service, header, body) && token == Sealed(service, header', body');
    hide Split, Decode, Encode, Sealed;
  }

  lemma NotCarried(service: Service, token: string, now: int)
    requires !exists v: Json<Key> :: Carries(service, token, v)
    ensures Read(service, token, now) == Invalid
  {
    if Read(service, token, now) != Invalid {
      ReadCarries(service, token, now);
    }
  }

  lemma ReadCarries(service: Service, token: string, now: int)
    requires Read(service, token, now) != Invalid
    ensures exists v: Json<Key> :: Carries(service, token, v)
  {
    hide Split, Decode, Encode, CheckClaims;
    var parts := Split(token);
    var header, body := Decode(parts[0]).value, Decode(parts[1]).value;
    JoinSplit(token);
    JoinThree(parts);
    DecodeIff(parts[0], header);
    DecodeIff(parts[1], body);
    DecodeIff(parts[2], service.hmac(Unsigned(header, body)));
    hide Join;
    assert Backed(service, token, service.loads(body).value, header, body);
    assert Carries(service, token, service.loads(body).value);
  }
}
