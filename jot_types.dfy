/**
 * The values a JOT carries: its header, its claims and the user payload, the
 * errors the package reports, and the Go-level part of their JSON form
 * (whole-second NumericDates, roles written as a sorted list of names).
 *
 * The JSON text layer itself and HMAC-SHA-256 are not modelled; they enter as
 * the functions of a `Primitives` value, and `Lawful` states the laws the
 * proofs rely on (parsing undoes marshalling, a MAC is 32 bytes long).
 * Times are integers counting nanoseconds since 1970-01-01 00:00:00Z.
 */
module JotTypes {
  import opened Wrappers
  import opened GoStrings
  import Base64

  type byte = Base64.byte

  /** The package's constant errors, plus the two errors it passes through unchanged. */
  datatype JotError =
    | BadFactory | BadSigner | ClaimsExpired | InvalidAlgorithm | InvalidHeader
    | InvalidSignature | InvalidSigner | InvalidToken | MissingClaims | MissingSigner
    | NotFound | SignerExpired | Unauthorized | UnknownType
    | CorruptInput   // a `base64.CorruptInputError` from decoding a segment
    | JsonSyntax     // an error from `json.Unmarshal`

  /** `Header_t`: `cty` and `crit` are never set by this package. */
  datatype Header = Header(alg: string, cty: string, crit: string, kid: string, typ: string)

  /** `User_t`; a nil `Roles_t` map is the empty map here. */
  datatype User = User(userId: int, empireId: int, roles: map<string, bool>)

  /** `Claims_t`: expiry and issue times in nanoseconds, and the payload. */
  datatype Claims = Claims(expiresAt: int, issuedAt: int, payload: User)

  /** The values the JSON text of a claims set holds: whole seconds and a list of role names. */
  datatype ClaimsWire = ClaimsWire(exp: int, iat: int, userId: int, empireId: int, roles: seq<string>)

  /** The pieces of the system taken as given: HMAC-SHA-256 and the JSON text layer. */
  datatype Primitives = Primitives(
    hmac: (seq<byte>, string) -> seq<byte>,
    marshalHeader: Header -> seq<byte>,
    unmarshalHeader: seq<byte> -> Option<Header>,
    marshalClaims: ClaimsWire -> seq<byte>,
    unmarshalClaims: seq<byte> -> Option<ClaimsWire>)

  /** What the proofs assume of the primitives. */
  ghost predicate Lawful(lib: Primitives) {
    && (forall h :: lib.unmarshalHeader(lib.marshalHeader(h)) == Some(h))
    && (forall w :: lib.unmarshalClaims(lib.marshalClaims(w)) == Some(w))
    && (forall key, msg :: |lib.hmac(key, msg)| == 32)
  }

  const NanosPerSecond := 1_000_000_000

  /** `time.Time.Unix`: whole seconds, rounded toward negative infinity. */
  function Seconds(ns: int): (s: int)
    ensures s * NanosPerSecond <= ns < s * NanosPerSecond + NanosPerSecond
  {
    ns / NanosPerSecond
  }

  /** The time a NumericDate comes back as: the instant truncated to its whole second. */
  function Truncated(ns: int): (t: int)
    ensures t <= ns < t + NanosPerSecond && t % NanosPerSecond == 0
  {
    Seconds(ns) * NanosPerSecond
  }

  /** `Claims_t.IsExpired`: the expiry is not after `now`. */
  predicate IsExpired(c: Claims, now: int) {
    !(c.expiresAt > now)
  }

  /** `Claims_t.IsNotExpired`: the expiry is after `now`. */
  predicate IsNotExpired(c: Claims, now: int) {
    c.expiresAt > now
  }

  lemma ExpiryComplement(c: Claims, now: int)
    ensures IsExpired(c, now) == !IsNotExpired(c, now)
    ensures IsNotExpired(c, now) <==> now < c.expiresAt
  {
  }

  // ---------------------------------------------------------------- roles

  predicate StrictlySorted(names: seq<string>) {
    forall i, j | 0 <= i < j < |names| :: Less(names[i], names[j])
  }

  predicate IsLeast(m: string, s: set<string>) {
    m in s && forall k | k in s && k != m :: Less(m, k)
  }

  lemma {:induction false} LeastExists(s: set<string>)
    requires s != {}
    ensures exists m :: IsLeast(m, s)
    decreases |s|
  {
    var x :| x in s;
    var rest := s - {x};
    if rest == {} {
      assert s == {x};
      assert IsLeast(x, s);
    } else {
      LeastExists(rest);
      var m :| IsLeast(m, rest);
      if Less(m, x) {
        forall k | k in s && k != m ensures Less(m, k) {
          if k != x { assert k in rest; }
        }
        assert IsLeast(m, s);
      } else {
        LessTotal(m, x);
        forall k | k in s && k != x ensures Less(x, k) {
          assert k in rest;
          if k != m { LessTransitive(x, m, k); }
        }
        assert IsLeast(x, s);
      }
    }
  }

  lemma LeastUnique(s: set<string>, m: string, m': string)
    requires IsLeast(m, s) && IsLeast(m', s)
    ensures m == m'
  {
    if m != m' {
      LessAsymmetric(m, m');
    }
  }

  /** The lexicographically least name of a non-empty set. */
  function Least(s: set<string>): (m: string)
    requires s != {}
    ensures IsLeast(m, s)
  {
    LeastExists(s);
    forall m, m' | IsLeast(m, s) && IsLeast(m', s) ensures m == m' {
      LeastUnique(s, m, m');
    }
    var m :| IsLeast(m, s); m
  }

  /** The names of `s` in `sort.Strings` order (bytewise lexicographic), each once. */
  function SortedNames(s: set<string>): (names: seq<string>)
    ensures StrictlySorted(names)
    ensures |names| == |s|
    ensures forall k :: k in names <==> k in s
    decreases |s|
  {
    if s == {} then []
    else
      var m := Least(s);
      var rest := SortedNames(s - {m});
      assert forall i | 0 <= i < |rest| :: Less(m, rest[i]) by {
        forall i | 0 <= i < |rest| ensures Less(m, rest[i]) {
          assert rest[i] in s - {m};
        }
      }
      [m] + rest
  }

  /** `Roles_t.MarshalJSON`: the keys of the map, sorted; the values are not written. */
  function MarshalRoles(roles: map<string, bool>): (names: seq<string>)
    ensures StrictlySorted(names)
    ensures forall k :: k in names <==> k in roles
  {
    SortedNames(roles.Keys)
  }

  /** `Roles_t.UnmarshalJSON`: every listed name maps to true. */
  function UnmarshalRoles(names: seq<string>): (roles: map<string, bool>)
    ensures forall k :: k in roles <==> k in names
    ensures forall k | k in roles :: roles[k]
  {
    map k | k in names :: true
  }

  /** A role map with every value turned to true: what survives a marshalling round trip. */
  function Granted(roles: map<string, bool>): (g: map<string, bool>)
    ensures g.Keys == roles.Keys && forall k | k in g :: g[k]
  {
    map k | k in roles :: true
  }

  /** Parsing the marshalled roles keeps every key and sets every value to true. */
  lemma RolesRoundTrip(roles: map<string, bool>)
    ensures UnmarshalRoles(MarshalRoles(roles)) == Granted(roles)
    ensures UnmarshalRoles(MarshalRoles(roles)) == roles <==> forall k | k in roles :: roles[k]
  {
    var back := UnmarshalRoles(MarshalRoles(roles));
    assert back.Keys == roles.Keys;
  }

  lemma SameNamesBothEmpty(a: seq<string>, b: seq<string>)
    requires forall k :: k in a <==> k in b
    ensures a == [] <==> b == []
  {
    if a != [] { assert a[0] in b; }
    if b != [] { assert b[0] in a; }
  }

  /** Two strictly sorted lists of the same names are the same list. */
  lemma {:induction false} SortedUnique(a: seq<string>, b: seq<string>)
    requires StrictlySorted(a) && StrictlySorted(b)
    requires forall k :: k in a <==> k in b
    ensures a == b
    decreases |a|
  {
    SameNamesBothEmpty(a, b);
    if a != [] && b != [] {
      if a[0] != b[0] {
        assert a[0] in b;
        assert b[0] in a;
        var i :| 0 <= i < |b| && b[i] == a[0];
        var j :| 0 <= j < |a| && a[j] == b[0];
        assert i > 0 && j > 0;
        assert Less(b[0], a[0]) && Less(a[0], b[0]);
        LessAsymmetric(a[0], b[0]);
      }
      forall k ensures k in a[1..] <==> k in b[1..] {
        if k in a[1..] {
          var i :| 1 <= i < |a| && a[i] == k;
          assert Less(a[0], k);
          LessIrreflexive(k);
          assert k in b && k != b[0];
        }
        if k in b[1..] {
          var i :| 1 <= i < |b| && b[i] == k;
          assert Less(b[0], k);
          LessIrreflexive(k);
          assert k in a && k != a[0];
        }
      }
      SortedUnique(a[1..], b[1..]);
      assert a == [a[0]] + a[1..] && b == [b[0]] + b[1..];
    }
  }

  /** A sorted list without repeats is exactly what marshalling its parsed map writes back. */
  lemma RolesListRoundTrip(names: seq<string>)
    requires StrictlySorted(names)
    ensures MarshalRoles(UnmarshalRoles(names)) == names
  {
    SortedUnique(MarshalRoles(UnmarshalRoles(names)), names);
  }

  // ---------------------------------------------------------------- claims

  /** The claims as JSON holds them: whole-second dates and the sorted role names. */
  function ToWire(c: Claims): ClaimsWire {
    ClaimsWire(Seconds(c.expiresAt), Seconds(c.issuedAt), c.payload.userId, c.payload.empireId,
               MarshalRoles(c.payload.roles))
  }

  /** The claims `json.Unmarshal` rebuilds: NumericDates become whole-second instants. */
  function FromWire(w: ClaimsWire): Claims {
    Claims(w.exp * NanosPerSecond, w.iat * NanosPerSecond,
           User(w.userId, w.empireId, UnmarshalRoles(w.roles)))
  }

  /**
   * What a claims set looks like after a JSON round trip: both dates truncated to
   * the second, the role values all true, everything else unchanged.
   */
  lemma ClaimsRoundTrip(c: Claims)
    ensures FromWire(ToWire(c)) ==
      Claims(Truncated(c.expiresAt), Truncated(c.issuedAt),
             User(c.payload.userId, c.payload.empireId, Granted(c.payload.roles)))
  {
    RolesRoundTrip(c.payload.roles);
  }
}
