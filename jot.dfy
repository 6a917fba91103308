/**
 * The JOT factory: a pool of signers keyed by identifier, the issuing of a
 * token cookie, the verification of a token, and the extraction of a token and
 * its user payload from a request.
 *
 * A token is three unpadded base64url segments joined by `.`: the JSON header,
 * the JSON claims and the MAC of the first two segments with their dot, in the
 * style of the compact serialization of section 7.1 of RFC 7515.
 * The factory's lock is not modelled: every method runs as one atomic step.
 */
module Jot {
  import opened Wrappers
  import opened GoStrings
  import Base64
  import opened JotTypes
  import opened JotSigner
  import opened Http

  const DefaultCookieName: string := "promisance_jot"
  const DefaultCookiePath: string := "/"

  /** The longest header segment `claimsFromToken` accepts. */
  const MaxHeaderSegment := 99

  /** The token type every header must carry. */
  const TokenType: string := "JOT"

  /** The user reported when no valid token comes with a request. */
  const UnauthenticatedUser := User(0, 0, map["authenticated" := false])

  /** The header `NewTokenCookie` writes for the signer `kid`. */
  function HeaderFor(kid: string): Header {
    Header(HS256, "", "", kid, TokenType)
  }

  /** The token `NewTokenCookie` issues at `now` with signer `kid` holding `key`. */
  function IssuedToken(lib: Primitives, kid: string, key: seq<byte>, ttl: int, payload: User, now: int): string {
    var h64 := Base64.EncodeRaw(lib.marshalHeader(HeaderFor(kid)));
    var c64 := Base64.EncodeRaw(lib.marshalClaims(ToWire(Claims(now + ttl, now, payload))));
    var msg := h64 + "." + c64;
    msg + "." + Base64.EncodeRaw(lib.hmac(key, msg))
  }

  /** Three dot-free segments joined by dots hold exactly two dots. */
  lemma ThreeSegmentDots(h64: string, c64: string, s64: string)
    requires '.' !in h64 && '.' !in c64 && '.' !in s64
    ensures Count(h64 + "." + c64 + "." + s64, '.') == 2
  {
    CountAppend(h64, ".", '.');
    CountAppend(h64 + ".", c64, '.');
    CountAppend(h64 + "." + c64, ".", '.');
    CountAppend(h64 + "." + c64 + ".", s64, '.');
  }

  /**
   * The token-building steps of `NewTokenCookie`: the header and claims segments,
   * the MAC of both under the signer's key, and the three joined by dots.
   */
  method SignToken(lib: Primitives, signer: HS256Signer, ttl: int, payload: User, now: int) returns (token: string)
    ensures token == IssuedToken(lib, signer.id, signer.key, ttl, payload, now)
    ensures Count(token, '.') == 2
  {
    var header := Header(signer.Algorithm(), "", "", signer.id, TokenType);
    assert header == HeaderFor(signer.id);
    var headerJson := lib.marshalHeader(header);
    var h64 := Base64.EncodeRaw(headerJson);
    var iat := now;
    var exp := iat + ttl;
    var claimsJson := lib.marshalClaims(ToWire(Claims(exp, iat, payload)));
    var c64 := Base64.EncodeRaw(claimsJson);
    var msg := "";
    msg := msg + h64;
    assert msg == h64;
    msg := msg + ".";
    msg := msg + c64;
    var signature := signer.Sign(lib, msg);
    assert signature == lib.hmac(signer.key, h64 + "." + c64);
    var s64 := Base64.EncodeRaw(signature);
    msg := msg + ".";
    msg := msg + s64;
    assert msg == h64 + "." + c64 + "." + s64;
    assert msg == IssuedToken(lib, signer.id, signer.key, ttl, payload, now);
    Base64.NoDotInEncoding(headerJson);
    Base64.NoDotInEncoding(claimsJson);
    Base64.NoDotInEncoding(signature);
    ThreeSegmentDots(h64, c64, s64);
    token := msg;
  }

  /** The entries of `pool` whose signer has not expired at `now`. */
  ghost function Live(pool: map<string, HS256Signer>, now: int): (live: map<string, HS256Signer>)
    reads pool.Values
    ensures live.Keys <= pool.Keys
  {
    map id | id in pool && !pool[id].Expired(now) :: pool[id]
  }

  /** `tokenFromBearerToken`: the trimmed remainder of an `Authorization: Bearer …` header, or "". */
  function TokenFromBearerToken(authorization: string): string {
    if authorization == "" then ""
    else
      var parts := SplitAtFirstSpace(authorization);
      if |parts| != 2 then ""
      else if parts[0] != "Bearer" then ""
      else TrimSpace(parts[1])
  }

  class Factory {
    var signers: map<string, HS256Signer>
    const cookieName: string
    const cookiePath: string
    const ttl: int

    /** Every signer is filed under its own identifier. */
    ghost predicate Valid()
      reads this
    {
      forall id | id in signers :: signers[id].id == id
    }

    constructor (name: string, path: string, ttl: int, signer: HS256Signer)
      ensures Valid() && signers == map[signer.id := signer] && this.ttl == ttl
      ensures cookieName == if name == "" then DefaultCookieName else name
      ensures cookiePath == if path == "" then DefaultCookiePath else path
    {
      signers := map[signer.id := signer];
      cookieName := if name == "" then DefaultCookieName else name;
      cookiePath := if path == "" then DefaultCookiePath else path;
      this.ttl := ttl;
    }

    /** Adds a live signer to the pool, replacing any signer with its identifier. */
    method AddSigner(signer: HS256Signer, now: int) returns (err: Option<JotError>)
      requires Valid()
      modifies this
      ensures Valid()
      ensures err == None <==> !signer.Expired(now)
      ensures err.Some? ==> err.value == SignerExpired && signers == old(signers)
      ensures err.None? ==> signers == old(signers)[signer.id := signer]
    {
      if signer.Expired(now) {
        return Some(SignerExpired);
      }
      signers := signers[signer.id := signer];
      err := None;
    }

    /** Removes the signer `id`, if present; nothing else changes. */
    method DeleteSigner(id: string)
      requires Valid()
      modifies this
      ensures Valid()
      ensures signers == old(signers) - {id}
    {
      signers := signers - {id};
    }

    /** Removes every signer expired at `now`, visiting the pool in any order. */
    method DeleteExpiredSigners(now: int)
      requires Valid()
      modifies this
      ensures Valid()
      ensures signers == Live(old(signers), now)
    {
      var remaining := signers.Keys;
      while remaining != {}
        invariant remaining <= old(signers).Keys
        invariant signers == map id | id in old(signers) && (id in remaining || !old(signers)[id].Expired(now)) :: old(signers)[id]
        decreases remaining
      {
        var id :| id in remaining;
        if signers[id].Expired(now) {
          signers := signers - {id};
        }
        remaining := remaining - {id};
      }
    }

    /**
     * Finds signer `id` for `algorithm`: a present, live signer with that algorithm.
     * An expired signer found under `id` is removed from the pool.
     */
    method LookupSigner(id: string, algorithm: string, now: int) returns (signer: HS256Signer?, ok: bool)
      requires Valid()
      modifies this
      ensures Valid()
      ensures ok <==> id in old(signers) && !old(signers)[id].Expired(now) && algorithm == HS256
      ensures ok ==> signer == old(signers)[id]
      ensures !ok ==> signer == null
      ensures signers == if id in old(signers) && old(signers)[id].Expired(now) then old(signers) - {id} else old(signers)
    {
      if id !in signers {
        return null, false;
      }
      var s := signers[id];
      if s.Expired(now) {
        signers := signers - {id};
        return null, false;
      } else if s.Algorithm() != algorithm {
        return null, false;
      }
      return s, true;
    }

    /**
     * `getSigner`: visits the pool in any order, removing expired signers until it
     * meets a live one, which it returns; `NotFound` when every signer had expired.
     */
    method GetSigner(now: int) returns (r: Result<HS256Signer, JotError>)
      requires Valid()
      modifies this
      ensures Valid()
      ensures r.Err? <==> Live(old(signers), now) == map[]
      ensures r.Err? ==> r.error == NotFound && signers == map[]
      ensures r.Ok? ==> r.value.id in signers && signers[r.value.id] == r.value && !r.value.Expired(now)
      ensures signers.Keys <= old(signers).Keys
      ensures forall id | id in signers :: signers[id] == old(signers)[id]
      ensures forall id | id in old(signers) && id !in signers :: old(signers)[id].Expired(now)
    {
      var remaining := signers.Keys;
      while remaining != {}
        invariant remaining <= old(signers).Keys
        invariant signers == map id | id in old(signers) && id in remaining :: old(signers)[id]
        invariant forall id | id in old(signers) && id !in remaining :: old(signers)[id].Expired(now)
        decreases remaining
      {
        var id :| id in remaining;
        var signer := signers[id];
        if !signer.Expired(now) {
          assert id in Live(old(signers), now);
          return Ok(signer);
        }
        signers := signers - {id};
        remaining := remaining - {id};
      }
      assert forall id | id in old(signers) :: id !in Live(old(signers), now);
      return Err(NotFound);
    }

    /**
     * `NewTokenCookie`: signs a token for `payload`, valid for `ttl` from `now`, with
     * some live signer of the pool; `MissingSigner` when there is none.
     */
    method NewTokenCookie(lib: Primitives, ttl: int, payload: User, now: int) returns (r: Result<Cookie, JotError>)
      requires Valid()
      modifies this
      ensures Valid()
      ensures r.Err? <==> Live(old(signers), now) == map[]
      ensures r.Err? ==> r.error == MissingSigner && signers == map[]
      ensures r.Ok? ==> exists id | id in signers ::
        && !signers[id].Expired(now)
        && r.value == Cookie(cookiePath, cookieName, IssuedToken(lib, id, signers[id].key, ttl, payload, now), now + ttl, true, true)
      ensures signers.Keys <= old(signers).Keys
      ensures forall id | id in signers :: signers[id] == old(signers)[id]
      ensures forall id | id in old(signers) && id !in signers :: old(signers)[id].Expired(now)
    {
      var found := GetSigner(now);
      if found.Err? {
        return Err(MissingSigner);
      }
      var signer := found.value;
      var token := SignToken(lib, signer, ttl, payload, now);
      r := Ok(Cookie(cookiePath, cookieName, token, now + ttl, true, true));
      assert signer.id in signers && signers[signer.id] == signer;
    }

    /**
     * `claimsFromToken`: the claims of a token whose shape, header, signature and
     * expiry all check out, or the first check that fails. The signer is read
     * straight from the pool, whether or not it has expired.
     */
    function ClaimsFromToken(lib: Primitives, token: string, now: int): (r: Result<Claims, JotError>)
      reads this
      ensures r.Ok? ==> IsNotExpired(r.value, now)
      ensures r.Ok? ==> Count(token, '.') == 2
      ensures r.Ok? ==> forall k | k in r.value.payload.roles :: r.value.payload.roles[k]
    {
      var fields := Split(token, '.');
      if |fields| != 3 then Err(InvalidToken)
      else if |fields[0]| > MaxHeaderSegment then Err(InvalidHeader)
      else
        var h64, c64, s64 := fields[0], fields[1], fields[2];
        match Base64.DecodeRaw(h64)
        case None => Err(CorruptInput)
        case Some(headerJson) =>
          match lib.unmarshalHeader(headerJson)
          case None => Err(JsonSyntax)
          case Some(header) =>
            if header.typ != TokenType then Err(UnknownType)
            else
              match Base64.DecodeRaw(s64)
              case None => Err(InvalidToken)
              case Some(signature) =>
                if header.kid !in signers then Err(InvalidSigner)
                else if signers[header.kid].Algorithm() != header.alg then Err(InvalidAlgorithm)
                else if !signers[header.kid].Signed(lib, h64 + "." + c64, signature) then Err(InvalidSignature)
                else
                  match Base64.DecodeRaw(c64)
                  case None => Err(CorruptInput)
                  case Some(claimsJson) =>
                    match lib.unmarshalClaims(claimsJson)
                    case None => Err(JsonSyntax)
                    case Some(wire) =>
                      var claims := FromWire(wire);
                      if !IsNotExpired(claims, now) then Err(ClaimsExpired) else Ok(claims)
    }

    /** `tokenFromCookie`: the value of the factory's cookie, or "". */
    function TokenFromCookie(req: Request): string {
      if cookieName in req.cookies then req.cookies[cookieName] else ""
    }

    /** `tokenFromRequest`: the bearer token when there is a non-empty one, else the cookie. */
    function TokenFromRequest(req: Request): string {
      var bearer := TokenFromBearerToken(req.authorization);
      if bearer == "" then TokenFromCookie(req) else bearer
    }

    /**
     * `payloadFromRequest`: the user of a valid token, marked authenticated, and
     * `true`; the unauthenticated user and `false` for a missing or invalid token.
     */
    function PayloadFromRequest(lib: Primitives, req: Request, now: int): (result: (User, bool))
      reads this
      ensures !result.1 ==> result.0 == UnauthenticatedUser
      ensures result.1 <==> TokenFromRequest(req) != "" && ClaimsFromToken(lib, TokenFromRequest(req), now).Ok?
      ensures result.1 ==> "authenticated" in result.0.roles && result.0.roles["authenticated"]
      ensures result.1 ==> forall k | k in result.0.roles :: result.0.roles[k]
    {
      var token := TokenFromRequest(req);
      if token == "" then (UnauthenticatedUser, false)
      else
        match ClaimsFromToken(lib, token, now)
        case Err(_) => (UnauthenticatedUser, false)
        case Ok(claims) =>
          var user := claims.payload;
          (user.(roles := user.roles["authenticated" := true]), true)
    }
  }

  /** `NewFactory`: a factory holding `signer`, with default cookie name and path for empty ones. */
  method NewFactory(name: string, path: string, ttl: int, signer: HS256Signer?, now: int)
    returns (f: Factory?, err: Option<JotError>)
    ensures signer == null ==> f == null && err == Some(InvalidSigner)
    ensures signer != null && signer.Expired(now) ==> f == null && err == Some(SignerExpired)
    ensures signer != null && !signer.Expired(now) ==>
      && err == None && f != null && fresh(f) && f.Valid()
      && f.signers == map[signer.id := signer] && f.ttl == ttl
      && f.cookieName == (if name == "" then DefaultCookieName else name)
      && f.cookiePath == (if path == "" then DefaultCookiePath else path)
  {
    if signer == null {
      return null, Some(InvalidSigner);
    } else if signer.Expired(now) {
      return null, Some(SignerExpired);
    }
    f := new Factory(name, path, ttl, signer);
    err := None;
  }
}
