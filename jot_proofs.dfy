/**
 * Properties of token verification: the order in which `claimsFromToken`
 * rejects a token, what an accepted token must have been, the round trip from
 * `NewTokenCookie` to `claimsFromToken` and `payloadFromRequest`, and two
 * consequences of the encodings (the header-length limit, and signatures that
 * stay valid under a change of their last character).
 */
module JotProofs {
  import opened Wrappers
  import opened GoStrings
  import Base64
  import opened JotTypes
  import opened JotSigner
  import opened Jot
  import opened Http

  /** The token made of three segments. */
  function Compact(h64: string, c64: string, s64: string): string {
    h64 + "." + c64 + "." + s64
  }

  lemma CompactSplits(h64: string, c64: string, s64: string)
    requires '.' !in h64 && '.' !in c64 && '.' !in s64
    ensures Split(Compact(h64, c64, s64), '.') == [h64, c64, s64]
  {
    SplitThree(h64, c64, s64, '.');
  }

  // ---------------------------------------------------------------- rejections

  /**
   * The shape checks come before any decoding: a token without exactly two dots is
   * `InvalidToken`, and a header segment over 99 bytes is `InvalidHeader`, whatever
   * the pool, the primitives or the clock.
   */
  lemma ShapeChecks(f: Factory, lib: Primitives, token: string, now: int)
    ensures Count(token, '.') != 2 ==> f.ClaimsFromToken(lib, token, now) == Err(InvalidToken)
    ensures Count(token, '.') == 2 && |Split(token, '.')[0]| > MaxHeaderSegment ==>
      f.ClaimsFromToken(lib, token, now) == Err(InvalidHeader)
  {
  }

  /** A header segment longer than 99 bytes is refused before anything else is looked at. */
  lemma LongHeaderRejected(f: Factory, lib: Primitives, h64: string, c64: string, s64: string, now: int)
    requires '.' !in h64 && '.' !in c64 && '.' !in s64
    requires |h64| > MaxHeaderSegment
    ensures f.ClaimsFromToken(lib, Compact(h64, c64, s64), now) == Err(InvalidHeader)
  {
    CompactSplits(h64, c64, s64);
  }

  /**
   * With a well-shaped token whose header segment decodes: the header is checked,
   * then the signature segment's encoding, then the signer, its algorithm and the
   * MAC, each failure with its own error.
   */
  lemma HeaderAndSignerChecks(f: Factory, lib: Primitives, h64: string, c64: string, s64: string, now: int,
                              header: Header)
    requires '.' !in h64 && '.' !in c64 && '.' !in s64 && |h64| <= MaxHeaderSegment
    requires Base64.DecodeRaw(h64).Some? && lib.unmarshalHeader(Base64.DecodeRaw(h64).value) == Some(header)
    ensures var r := f.ClaimsFromToken(lib, Compact(h64, c64, s64), now);
      && (header.typ != TokenType ==> r == Err(UnknownType))
      && (header.typ == TokenType && Base64.DecodeRaw(s64) == None ==> r == Err(InvalidToken))
      && (header.typ == TokenType && Base64.DecodeRaw(s64).Some? ==>
            && (header.kid !in f.signers ==> r == Err(InvalidSigner))
            && (header.kid in f.signers && header.alg != HS256 ==> r == Err(InvalidAlgorithm))
            && ((header.kid in f.signers && header.alg == HS256 &&
                 Base64.DecodeRaw(s64).value != lib.hmac(f.signers[header.kid].key, h64 + "." + c64))
                ==> r == Err(InvalidSignature)))
  {
    CompactSplits(h64, c64, s64);
  }

  /** Header segments that are not base64url, or not a header, are refused with the decoder's error. */
  lemma HeaderDecodeChecks(f: Factory, lib: Primitives, h64: string, c64: string, s64: string, now: int)
    requires '.' !in h64 && '.' !in c64 && '.' !in s64 && |h64| <= MaxHeaderSegment
    ensures Base64.DecodeRaw(h64) == None ==> f.ClaimsFromToken(lib, Compact(h64, c64, s64), now) == Err(CorruptInput)
    ensures Base64.DecodeRaw(h64).Some? && lib.unmarshalHeader(Base64.DecodeRaw(h64).value) == None ==>
      f.ClaimsFromToken(lib, Compact(h64, c64, s64), now) == Err(JsonSyntax)
  {
    CompactSplits(h64, c64, s64);
  }

  /**
   * Only after a valid MAC are the claims decoded; claims whose expiry is not after
   * `now` are refused with `ClaimsExpired`, and all others are returned.
   */
  lemma ClaimsChecks(f: Factory, lib: Primitives, h64: string, c64: string, s64: string, now: int,
                     header: Header, wire: ClaimsWire)
    requires '.' !in h64 && '.' !in c64 && '.' !in s64 && |h64| <= MaxHeaderSegment
    requires Base64.DecodeRaw(h64).Some? && lib.unmarshalHeader(Base64.DecodeRaw(h64).value) == Some(header)
    requires header.typ == TokenType && header.kid in f.signers && header.alg == HS256
    requires Base64.DecodeRaw(s64) == Some(lib.hmac(f.signers[header.kid].key, h64 + "." + c64))
    requires Base64.DecodeRaw(c64).Some? && lib.unmarshalClaims(Base64.DecodeRaw(c64).value) == Some(wire)
    ensures f.ClaimsFromToken(lib, Compact(h64, c64, s64), now) ==
      if FromWire(wire).expiresAt > now then Ok(FromWire(wire)) else Err(ClaimsExpired)
  {
    CompactSplits(h64, c64, s64);
  }

  /**
   * An accepted token is three segments whose last is the MAC, under the key of a
   * signer in the pool, of the first two; the claims returned are those the middle
   * segment holds, and they have not expired.
   */
  lemma AcceptedTokenIsSigned(f: Factory, lib: Primitives, token: string, now: int)
    requires f.ClaimsFromToken(lib, token, now).Ok?
    ensures var fs := Split(token, '.');
      && |fs| == 3 && token == Compact(fs[0], fs[1], fs[2]) && |fs[0]| <= MaxHeaderSegment
      && (exists kid | kid in f.signers ::
            Base64.DecodeRaw(fs[2]) == Some(lib.hmac(f.signers[kid].key, fs[0] + "." + fs[1])))
      && Base64.DecodeRaw(fs[1]).Some?
      && (exists w | lib.unmarshalClaims(Base64.DecodeRaw(fs[1]).value) == Some(w) ::
            f.ClaimsFromToken(lib, token, now).value == FromWire(w) && FromWire(w).expiresAt > now)
  {
    var fs := Split(token, '.');
    SplitThreeFields(token, '.');
    var header := lib.unmarshalHeader(Base64.DecodeRaw(fs[0]).value).value;
    assert header.kid in f.signers;
    var w := lib.unmarshalClaims(Base64.DecodeRaw(fs[1]).value).value;
    assert f.ClaimsFromToken(lib, token, now).value == FromWire(w);
  }

  // ---------------------------------------------------------------- round trip

  /** What `claimsFromToken` gives back for the claims issued at `now` for `ttl`. */
  function ReturnedClaims(ttl: int, payload: User, now: int): Claims {
    Claims(Truncated(now + ttl), Truncated(now),
           User(payload.userId, payload.empireId, Granted(payload.roles)))
  }

  /** The longest header JSON whose unpadded base64url form fits in 99 bytes. */
  const MaxHeaderJson := 74

  lemma HeaderSegmentLength(json: seq<Base64.byte>)
    ensures |Base64.EncodeRaw(json)| <= MaxHeaderSegment <==> |json| <= MaxHeaderJson
  {
    Base64.EncodedLengthBound(json, MaxHeaderSegment);
  }

  /**
   * Issue, then verify: a token issued with signer `kid` is accepted at `later`
   * exactly when `later` is before its expiry truncated to the second, as long as
   * a signer with that identifier and key is still in the pool and the header JSON
   * is at most 74 bytes long. The claims come back with both dates truncated to the
   * second and every role set to true. The signer's own expiry plays no part: an
   * expired signer that is still in the pool verifies its tokens.
   */
  lemma {:induction false} IssueThenVerify(f: Factory, lib: Primitives, kid: string, key: seq<byte>,
                                           ttl: int, payload: User, now: int, later: int)
    requires Lawful(lib)
    requires kid in f.signers && f.signers[kid].key == key
    requires |lib.marshalHeader(HeaderFor(kid))| <= MaxHeaderJson
    ensures f.ClaimsFromToken(lib, IssuedToken(lib, kid, key, ttl, payload, now), later) ==
      if later < Truncated(now + ttl) then Ok(ReturnedClaims(ttl, payload, now)) else Err(ClaimsExpired)
  {
    var headerJson := lib.marshalHeader(HeaderFor(kid));
    var wire := ToWire(Claims(now + ttl, now, payload));
    var claimsJson := lib.marshalClaims(wire);
    var h64 := Base64.EncodeRaw(headerJson);
    var c64 := Base64.EncodeRaw(claimsJson);
    var mac := lib.hmac(key, h64 + "." + c64);
    var s64 := Base64.EncodeRaw(mac);
    assert IssuedToken(lib, kid, key, ttl, payload, now) == Compact(h64, c64, s64);
    Base64.NoDotInEncoding(headerJson);
    Base64.NoDotInEncoding(claimsJson);
    Base64.NoDotInEncoding(mac);
    HeaderSegmentLength(headerJson);
    Base64.RawRoundTrip(headerJson);
    Base64.RawRoundTrip(claimsJson);
    Base64.RawRoundTrip(mac);
    assert lib.unmarshalHeader(headerJson) == Some(HeaderFor(kid));
    assert lib.unmarshalClaims(claimsJson) == Some(wire);
    ClaimsRoundTrip(Claims(now + ttl, now, payload));
    ClaimsChecks(f, lib, h64, c64, s64, later, HeaderFor(kid), wire);
  }

  /** With a time-to-live of at least a second, a fresh token is accepted at once. */
  lemma FreshTokenAccepted(f: Factory, lib: Primitives, kid: string, key: seq<byte>, ttl: int, payload: User, now: int)
    requires Lawful(lib)
    requires kid in f.signers && f.signers[kid].key == key
    requires |lib.marshalHeader(HeaderFor(kid))| <= MaxHeaderJson
    requires ttl >= NanosPerSecond
    ensures f.ClaimsFromToken(lib, IssuedToken(lib, kid, key, ttl, payload, now), now) == Ok(ReturnedClaims(ttl, payload, now))
  {
    IssueThenVerify(f, lib, kid, key, ttl, payload, now, now);
  }

  /**
   * A positive time-to-live under a second does not make a usable token: issued at
   * a whole second, it is already expired when verified at that same instant.
   */
  lemma SubSecondTtlExpiresAtOnce(f: Factory, lib: Primitives, kid: string, key: seq<byte>, ttl: int, payload: User, now: int)
    requires Lawful(lib)
    requires kid in f.signers && f.signers[kid].key == key
    requires |lib.marshalHeader(HeaderFor(kid))| <= MaxHeaderJson
    requires 0 < ttl < NanosPerSecond && now % NanosPerSecond == 0
    ensures f.ClaimsFromToken(lib, IssuedToken(lib, kid, key, ttl, payload, now), now) == Err(ClaimsExpired)
  {
    IssueThenVerify(f, lib, kid, key, ttl, payload, now, now);
    TruncatedWithinSecond(now, ttl);
  }

  lemma TruncatedWithinSecond(t: int, d: int)
    requires t % NanosPerSecond == 0 && 0 <= d < NanosPerSecond
    ensures Truncated(t + d) == t
  {
    var k := t / NanosPerSecond;
    assert t == k * NanosPerSecond;
  }

  /** A header JSON over 74 bytes makes every token issued with it fail with `InvalidHeader`. */
  lemma LongHeaderTokenRejected(f: Factory, lib: Primitives, kid: string, key: seq<byte>,
                                ttl: int, payload: User, now: int, later: int)
    requires |lib.marshalHeader(HeaderFor(kid))| > MaxHeaderJson
    ensures f.ClaimsFromToken(lib, IssuedToken(lib, kid, key, ttl, payload, now), later) == Err(InvalidHeader)
  {
    var headerJson := lib.marshalHeader(HeaderFor(kid));
    var claimsJson := lib.marshalClaims(ToWire(Claims(now + ttl, now, payload)));
    var h64 := Base64.EncodeRaw(headerJson);
    var c64 := Base64.EncodeRaw(claimsJson);
    var mac := lib.hmac(key, h64 + "." + c64);
    var s64 := Base64.EncodeRaw(mac);
    assert IssuedToken(lib, kid, key, ttl, payload, now) == Compact(h64, c64, s64);
    Base64.NoDotInEncoding(headerJson);
    Base64.NoDotInEncoding(claimsJson);
    Base64.NoDotInEncoding(mac);
    HeaderSegmentLength(headerJson);
    LongHeaderRejected(f, lib, h64, c64, s64, later);
  }

  /**
   * The signature segment is malleable: a 32-byte MAC leaves two unused bits in the
   * last character, so changing the lowest of them gives a different token that
   * verifies to the same claims.
   */
  lemma SignatureMalleable(f: Factory, lib: Primitives, kid: string, key: seq<byte>,
                           ttl: int, payload: User, now: int, later: int)
    requires Lawful(lib)
    requires kid in f.signers && f.signers[kid].key == key
    requires |lib.marshalHeader(HeaderFor(kid))| <= MaxHeaderJson
    ensures var h64 := Base64.EncodeRaw(lib.marshalHeader(HeaderFor(kid)));
      var c64 := Base64.EncodeRaw(lib.marshalClaims(ToWire(Claims(now + ttl, now, payload))));
      var s64 := Base64.EncodeRaw(lib.hmac(key, h64 + "." + c64));
      && s64 != [] && Base64.InAlphabet(s64[|s64| - 1])
      && Compact(h64, c64, Base64.FlipLastBit(s64)) != IssuedToken(lib, kid, key, ttl, payload, now)
      && f.ClaimsFromToken(lib, Compact(h64, c64, Base64.FlipLastBit(s64)), later) ==
         f.ClaimsFromToken(lib, IssuedToken(lib, kid, key, ttl, payload, now), later)
  {
    var headerJson := lib.marshalHeader(HeaderFor(kid));
    var wire := ToWire(Claims(now + ttl, now, payload));
    var claimsJson := lib.marshalClaims(wire);
    var h64 := Base64.EncodeRaw(headerJson);
    var c64 := Base64.EncodeRaw(claimsJson);
    var mac := lib.hmac(key, h64 + "." + c64);
    var s64 := Base64.EncodeRaw(mac);
    assert IssuedToken(lib, kid, key, ttl, payload, now) == Compact(h64, c64, s64);
    FlippedSignature(mac);
    var s64' := Base64.FlipLastBit(s64);
    CompactDiffers(h64, c64, s64, s64');
    Base64.NoDotInEncoding(headerJson);
    Base64.NoDotInEncoding(claimsJson);
    Base64.NoDotInEncoding(mac);
    HeaderSegmentLength(headerJson);
    Base64.RawRoundTrip(headerJson);
    Base64.RawRoundTrip(claimsJson);
    Base64.RawRoundTrip(mac);
    assert lib.unmarshalHeader(headerJson) == Some(HeaderFor(kid));
    assert lib.unmarshalClaims(claimsJson) == Some(wire);
    ClaimsChecks(f, lib, h64, c64, s64, later, HeaderFor(kid), wire);
    ClaimsChecks(f, lib, h64, c64, s64', later, HeaderFor(kid), wire);
  }

  /** The encoding of a MAC of 32 bytes, with its last bit flipped, is another dot-free text that decodes to the same MAC. */
  lemma FlippedSignature(mac: seq<byte>)
    requires |mac| % 3 != 0
    ensures var s64 := Base64.EncodeRaw(mac);
      && s64 != [] && Base64.InAlphabet(s64[|s64| - 1])
      && Base64.FlipLastBit(s64) != s64
      && '.' !in Base64.FlipLastBit(s64)
      && Base64.DecodeRaw(Base64.FlipLastBit(s64)) == Some(mac)
  {
    var s64 := Base64.EncodeRaw(mac);
    Base64.TrailingBitsIgnored(mac);
    var s64' := Base64.FlipLastBit(s64);
    assert s64'[|s64| - 1] != s64[|s64| - 1];
    Base64.NoDotInEncoding(mac);
    forall i | 0 <= i < |s64'| ensures s64'[i] != '.' {
      if i < |s64| - 1 {
        assert s64'[i] == s64'[..|s64| - 1][i] == s64[..|s64| - 1][i];
      }
    }
  }

  /** Two tokens that differ only in a signature of the same length differ. */
  lemma CompactDiffers(h64: string, c64: string, s64: string, s64': string)
    requires |s64| == |s64'| && s64 != s64'
    ensures Compact(h64, c64, s64) != Compact(h64, c64, s64')
  {
    var front := h64 + "." + c64 + ".";
    assert Compact(h64, c64, s64) == front + s64;
    assert Compact(h64, c64, s64') == front + s64';
    assert (front + s64)[|front|..] == s64;
    assert (front + s64')[|front|..] == s64';
  }

  // ---------------------------------------------------------------- requests

  lemma SplitBearerPrefix(a: string)
    requires |a| >= 7 && a[..7] == "Bearer "
    ensures SplitAtFirstSpace(a) == ["Bearer", a[7..]]
  {
    var p := a[..7];
    var i := IndexOf(a, ' ');
    assert a[6] == p[6] == ' ';
    assert i == 6;
    assert a[..6] == p[..6] == "Bearer";
  }

  lemma SplitBearerOnly(a: string)
    requires ' ' in a && SplitAtFirstSpace(a)[0] == "Bearer"
    ensures |a| >= 7 && a[..7] == "Bearer "
  {
    var parts := SplitAtFirstSpace(a);
    assert a == "Bearer" + " " + parts[1];
  }

  /**
   * `tokenFromBearerToken` yields the trimmed text after a leading "Bearer " and
   * nothing for any other header value.
   */
  lemma BearerTokenForm(authorization: string)
    ensures TokenFromBearerToken(authorization) ==
      if |authorization| >= 7 && authorization[..7] == "Bearer " then TrimSpace(authorization[7..]) else ""
  {
    if |authorization| >= 7 && authorization[..7] == "Bearer " {
      SplitBearerPrefix(authorization);
    } else if ' ' in authorization && SplitAtFirstSpace(authorization)[0] == "Bearer" {
      SplitBearerOnly(authorization);
    }
  }

  /** A non-empty bearer token wins over the cookie; without one, the cookie is used. */
  lemma BearerPrecedence(f: Factory, t: string, cookies: map<string, string>)
    ensures TrimSpace(t) != "" ==> f.TokenFromRequest(Request("Bearer " + t, cookies)) == TrimSpace(t)
    ensures TrimSpace(t) == "" ==> f.TokenFromRequest(Request("Bearer " + t, cookies)) == f.TokenFromCookie(Request("", cookies))
  {
    BearerTokenForm("Bearer " + t);
    assert ("Bearer " + t)[..7] == "Bearer " && ("Bearer " + t)[7..] == t;
  }

  /** A header that is not "Bearer " followed by a token leaves the cookie in charge. */
  lemma CookieFallback(f: Factory, authorization: string, cookies: map<string, string>)
    requires !(|authorization| >= 7 && authorization[..7] == "Bearer ")
    ensures f.TokenFromRequest(Request(authorization, cookies)) == f.TokenFromCookie(Request("", cookies))
  {
    BearerTokenForm(authorization);
  }

  /**
   * Base64url characters and the dot are ASCII and not white space, so they
   * neither are white space nor begin or end the encoding of one.
   */
  lemma TokenCharNotSpace(c: char)
    requires Base64.InAlphabet(c) || c == '.'
    ensures !IsAsciiSpace(c) && c < '\U{0080}'
  {
  }

  /** Three segments joined by dots start and end with a base64url character or a dot. */
  lemma DottedEnds(h64: string, c64: string, s64: string)
    requires Base64.AllInAlphabet(h64) && Base64.AllInAlphabet(s64)
    ensures var t := h64 + "." + c64 + "." + s64;
      && (Base64.InAlphabet(t[0]) || t[0] == '.')
      && (Base64.InAlphabet(t[|t| - 1]) || t[|t| - 1] == '.')
  {
    var t := h64 + "." + c64 + "." + s64;
    assert h64 != [] ==> t[0] == h64[0];
    assert s64 != [] ==> t[|t| - 1] == s64[|s64| - 1];
  }

  /** An issued token is made of base64url characters and dots, so trimming leaves it alone. */
  lemma IssuedTokenTrimmed(lib: Primitives, kid: string, key: seq<byte>, ttl: int, payload: User, now: int)
    ensures TrimSpace(IssuedToken(lib, kid, key, ttl, payload, now)) == IssuedToken(lib, kid, key, ttl, payload, now)
    ensures IssuedToken(lib, kid, key, ttl, payload, now) != ""
  {
    var h64 := Base64.EncodeRaw(lib.marshalHeader(HeaderFor(kid)));
    var c64 := Base64.EncodeRaw(lib.marshalClaims(ToWire(Claims(now + ttl, now, payload))));
    var s64 := Base64.EncodeRaw(lib.hmac(key, h64 + "." + c64));
    var t := h64 + "." + c64 + "." + s64;
    assert t == IssuedToken(lib, kid, key, ttl, payload, now);
    DottedEnds(h64, c64, s64);
    TokenCharNotSpace(t[0]);
    TokenCharNotSpace(t[|t| - 1]);
    AsciiEndsTrimmed(t);
  }

  /** The user a verified request carries: the payload's roles granted, plus "authenticated". */
  function AuthenticatedPayload(payload: User): User {
    User(payload.userId, payload.empireId, Granted(payload.roles)["authenticated" := true])
  }

  /**
   * End to end through the cookie: a request whose factory cookie holds a token
   * issued while its signer is in the pool yields the issued payload, marked
   * authenticated, as long as the request comes before the expiry.
   */
  lemma CookieRoundTrip(f: Factory, lib: Primitives, kid: string, key: seq<byte>,
                        ttl: int, payload: User, now: int, later: int, cookies: map<string, string>)
    requires Lawful(lib)
    requires kid in f.signers && f.signers[kid].key == key
    requires |lib.marshalHeader(HeaderFor(kid))| <= MaxHeaderJson
    requires later < Truncated(now + ttl)
    ensures f.PayloadFromRequest(lib, Request("", cookies[f.cookieName := IssuedToken(lib, kid, key, ttl, payload, now)]), later)
      == (AuthenticatedPayload(payload), true)
  {
    var token := IssuedToken(lib, kid, key, ttl, payload, now);
    var req := Request("", cookies[f.cookieName := token]);
    IssueThenVerify(f, lib, kid, key, ttl, payload, now, later);
    IssuedTokenTrimmed(lib, kid, key, ttl, payload, now);
    assert f.TokenFromRequest(req) == token;
    assert f.ClaimsFromToken(lib, token, later) == Ok(ReturnedClaims(ttl, payload, now));
  }

  /** The same round trip with the token sent as `Authorization: Bearer <token>`, whatever the cookies. */
  lemma BearerRoundTrip(f: Factory, lib: Primitives, kid: string, key: seq<byte>,
                        ttl: int, payload: User, now: int, later: int, cookies: map<string, string>)
    requires Lawful(lib)
    requires kid in f.signers && f.signers[kid].key == key
    requires |lib.marshalHeader(HeaderFor(kid))| <= MaxHeaderJson
    requires later < Truncated(now + ttl)
    ensures f.PayloadFromRequest(lib, Request("Bearer " + IssuedToken(lib, kid, key, ttl, payload, now), cookies), later)
      == (AuthenticatedPayload(payload), true)
  {
    var token := IssuedToken(lib, kid, key, ttl, payload, now);
    var req := Request("Bearer " + token, cookies);
    IssueThenVerify(f, lib, kid, key, ttl, payload, now, later);
    IssuedTokenTrimmed(lib, kid, key, ttl, payload, now);
    BearerPrecedence(f, token, cookies);
    assert f.TokenFromRequest(req) == token;
    assert f.ClaimsFromToken(lib, token, later) == Ok(ReturnedClaims(ttl, payload, now));
  }
}
