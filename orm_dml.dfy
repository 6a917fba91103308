/**
 * The pure parts of the database layer: the flag words stored for users and
 * empires, the nullable-column helpers, and the input checks that run before any
 * query (`UserCreate`, `EmpireCreate`, `AuthenticatedUserFetch`).
 *
 * A 64-bit column value is its two's complement bit pattern, a `bv64`.
 */
module OrmDml {
  import opened Wrappers
  import opened GoStrings

  /** `sql.NullInt64`. */
  datatype NullInt64 = NullInt64(valid: bool, int64: bv64)

  /** `sql.NullString`. */
  datatype NullString = NullString(valid: bool, str: string)

  /**
   * `model.EmpireFlag_t`. In the stored word each flag has one bit (`EFLAG_*`):
   * admin 0x002, delete 0x010, disable 0x004, logged 0x200, multi 0x020,
   * notify 0x040, online 0x080, silent 0x100, valid 0x008; `mod` has the value
   * 0x000, so it sets and tests no bit. The literals are written out where used.
   */
  datatype EmpireFlags = EmpireFlags(
    admin: bool, delete: bool, disable: bool, logged: bool, mod: bool,
    multi: bool, notify: bool, online: bool, silent: bool, valid: bool)

  /** `model.UserFlag_t`. */
  datatype UserFlags = UserFlags(admin: bool, closed: bool, disabled: bool, mod: bool, valid: bool, watch: bool)


  const UFLAG_ADMIN: bv64 := 0x02
  const UFLAG_CLOSED: bv64 := 0x10
  const UFLAG_DISABLE: bv64 := 0x04
  const UFLAG_MOD: bv64 := 0x01
  const UFLAG_VALID: bv64 := 0x08
  const UFLAG_WATCH: bv64 := 0x20

  const RACE_HUMAN := 1

  /** Every bit some empire flag uses. */
  const EmpireMask: bv64 := 0x03FE

  /** Every bit some user flag uses. */
  const UserMask: bv64 := 0x3F

  /**
   * `empireFlagsToInt`: the word starts at zero and each set flag, in turn, ORs
   * its bit in; the column is never NULL.
   */
  function EmpireFlagsToInt(flags: EmpireFlags): (n: NullInt64)
    ensures n.valid
  {
    var bits: bv64 := 0;
    var bits := if flags.admin then bits | 0x002 else bits;
    var bits := if flags.delete then bits | 0x010 else bits;
    var bits := if flags.disable then bits | 0x004 else bits;
    var bits := if flags.logged then bits | 0x200 else bits;
    var bits := if flags.mod then bits | 0x000 else bits;
    var bits := if flags.multi then bits | 0x020 else bits;
    var bits := if flags.notify then bits | 0x040 else bits;
    var bits := if flags.online then bits | 0x080 else bits;
    var bits := if flags.silent then bits | 0x100 else bits;
    var bits := if flags.valid then bits | 0x008 else bits;
    NullInt64(true, bits)
  }

  /** `intToEmpireFlags`: a NULL column reads as no flags. */
  function IntToEmpireFlags(n: NullInt64): EmpireFlags {
    var bits: bv64 := if n.valid then n.int64 else 0;
    EmpireFlags(
      bits & 0x002 != 0, bits & 0x010 != 0, bits & 0x004 != 0,
      bits & 0x200 != 0, bits & 0x000 != 0, bits & 0x020 != 0,
      bits & 0x040 != 0, bits & 0x080 != 0, bits & 0x100 != 0,
      bits & 0x008 != 0)
  }

  /**
   * `userFlagsToInt`: the column is never NULL, it decodes to exactly the flags
   * given, and it has no bit set that no user flag uses.
   */
  method UserFlagsToInt(flags: UserFlags) returns (n: NullInt64)
    ensures n.valid
    ensures IntToUserFlags(n) == flags
    ensures n.int64 & !UserMask == 0
  {
    var bits: bv64 := 0;
    if flags.admin { bits := bits | UFLAG_ADMIN; }
    if flags.closed { bits := bits | UFLAG_CLOSED; }
    if flags.disabled { bits := bits | UFLAG_DISABLE; }
    if flags.mod { bits := bits | UFLAG_MOD; }
    if flags.valid { bits := bits | UFLAG_VALID; }
    if flags.watch { bits := bits | UFLAG_WATCH; }
    n := NullInt64(true, bits);
  }

  /** `intToUserFlags`: a NULL column reads as no flags. */
  function IntToUserFlags(n: NullInt64): UserFlags {
    var bits: bv64 := if n.valid then n.int64 else 0;
    UserFlags(
      bits & UFLAG_ADMIN != 0, bits & UFLAG_CLOSED != 0, bits & UFLAG_DISABLE != 0,
      bits & UFLAG_MOD != 0, bits & UFLAG_VALID != 0, bits & UFLAG_WATCH != 0)
  }

  const NoEmpireFlags := EmpireFlags(false, false, false, false, false, false, false, false, false, false)
  const NoUserFlags := UserFlags(false, false, false, false, false, false)

  /**
   * A user's flag word is determined by the flags it decodes to: two words without
   * stray bits that decode alike are equal, so `UserFlagsToInt` has one possible result.
   */
  lemma UserWordUnique(a: bv64, b: bv64)
    requires a & !UserMask == 0 && b & !UserMask == 0
    requires IntToUserFlags(NullInt64(true, a)) == IntToUserFlags(NullInt64(true, b))
    ensures a == b
  {
  }

  /** Bits outside the user flags are ignored when decoding: reloading then storing keeps `bits & UserMask`. */
  lemma UserWordStrayBitsIgnored(bits: bv64)
    ensures IntToUserFlags(NullInt64(true, bits & UserMask)) == IntToUserFlags(NullInt64(true, bits))
    ensures (bits & UserMask) & !UserMask == 0
  {
  }

  /**
   * Storing and reloading empire flags gives them back except `Mod`, which always
   * reads as false because its bit constant is zero.
   */
  lemma EmpireFlagsRoundTrip(f: EmpireFlags)
    ensures IntToEmpireFlags(EmpireFlagsToInt(f)) == f.(mod := false)
    ensures !IntToEmpireFlags(EmpireFlagsToInt(f)).mod
  {
  }

  /** Reloading any stored word and storing it again keeps exactly the bits that carry a flag. */
  lemma EmpireWordRoundTrip(bits: bv64)
    ensures EmpireFlagsToInt(IntToEmpireFlags(NullInt64(true, bits))) == NullInt64(true, bits & EmpireMask)
  {
  }

  /** An empire's flag word never has a bit set that no empire flag uses, and `Mod` adds nothing to it. */
  lemma EmpireWordMasked(f: EmpireFlags)
    ensures EmpireFlagsToInt(f).int64 & !EmpireMask == 0
    ensures EmpireFlagsToInt(f.(mod := true)) == EmpireFlagsToInt(f.(mod := false))
  {
    EmpireFlagsRoundTrip(f);
    EmpireWordRoundTrip(EmpireFlagsToInt(f).int64);
  }

  /** A NULL flag column decodes to no flags at all. */
  lemma NullFlagsAreClear(x: bv64)
    ensures IntToUserFlags(NullInt64(false, x)) == NoUserFlags
    ensures IntToEmpireFlags(NullInt64(false, x)) == NoEmpireFlags
  {
  }

  /** The `int` a 64-bit pattern stands for in two's complement. */
  function Signed(x: bv64): (v: int)
    ensures -0x8000_0000_0000_0000 <= v < 0x8000_0000_0000_0000
    ensures v >= 0 ==> v as bv64 == x
  {
    if x < 0x8000_0000_0000_0000 then x as int else x as int - 0x1_0000_0000_0000_0000
  }

  /** `nvlInt`: 0 for NULL, else the stored value. */
  function NvlInt(v: NullInt64): (r: int)
    ensures !v.valid ==> r == 0
    ensures v.valid ==> r == Signed(v.int64)
  {
    if !v.valid then 0 else Signed(v.int64)
  }

  /** `nvlString`: "" for NULL, else the stored text. */
  function NvlString(v: NullString): (r: string)
    ensures !v.valid ==> r == ""
    ensures v.valid ==> r == v.str
  {
    if !v.valid then "" else v.str
  }

  // ---------------------------------------------------------------- e-mail

  /** `isValidEmailAddress`: 6 to 255 bytes, one `@`, at least 3 bytes before it and 2 after. */
  function IsValidEmailAddress(address: string): bool {
    if |address| < 6 || |address| > 255 then false
    else if Count(address, '@') != 1 then false
    else
      var pos := IndexOf(address, '@');
      !(pos < 3 || pos > |address| - 3)
  }

  lemma IndexAfterPrefix(local: string, domain: string)
    requires '@' !in local
    ensures IndexOf(local + "@" + domain, '@') == |local|
    decreases |local|
  {
    if local != [] {
      assert (local + "@" + domain)[1..] == local[1..] + "@" + domain;
      IndexAfterPrefix(local[1..], domain);
    }
  }

  /**
   * An address is valid exactly when it is a local part of at least 3 bytes, an
   * `@` and a domain of at least 2 bytes, with no other `@`, 6 to 255 bytes in all.
   */
  lemma EmailShape(local: string, domain: string)
    requires '@' !in local && '@' !in domain
    ensures IsValidEmailAddress(local + "@" + domain) <==>
      |local| >= 3 && |domain| >= 2 && |local| + 1 + |domain| <= 255
  {
    var a := local + "@" + domain;
    CountAppend(local + "@", domain, '@');
    CountAppend(local, "@", '@');
    assert Count("@", '@') == 1 by {
      assert "@"[1..] == "";
    }
    IndexAfterPrefix(local, domain);
  }

  /** A valid address splits at its only `@` into such a local part and domain. */
  lemma ValidEmailSplits(address: string)
    requires IsValidEmailAddress(address)
    ensures var i := IndexOf(address, '@');
      && 3 <= i && address == address[..i] + "@" + address[i + 1..]
      && '@' !in address[..i] && '@' !in address[i + 1..] && |address[i + 1..]| >= 2
  {
    var i := IndexOf(address, '@');
    var local, domain := address[..i], address[i + 1..];
    assert address == local + "@" + domain;
    CountAppend(local + "@", domain, '@');
    CountAppend(local, "@", '@');
    assert Count("@", '@') == 1 by {
      assert "@"[1..] == "";
    }
  }

  // ---------------------------------------------------------------- guards

  /**
   * The four checks `UserCreate` makes of the user name and again of the e-mail,
   * in order, with the message of the first that fails; `field` starts the message.
   */
  function FieldCheck(field: string, s: string): Option<string> {
    if s == "" then Some(field + " must not be blank")
    else if |s| < 6 then Some(field + " must be at least 6 characters")
    else if |s| >= 255 then Some(field + " must be less than 255 characters")
    else if TrimSpace(s) != s then Some(field + " must not start or end with spaces")
    else None
  }

  /** `UserCreate`'s checks on its arguments, in order, with the message of the first that fails. */
  function UserCreateCheck(userName: string, email: string): Option<string> {
    var nameError := FieldCheck("username", userName);
    if nameError.Some? then nameError
    else
      var emailError := FieldCheck("email", email);
      if emailError.Some? then emailError
      else if !IsValidEmailAddress(email) then Some("email must parse")
      else None
  }

  /** The text neither starts nor ends with a UTF-8 encoded white-space character. */
  predicate Trimmed(s: string) {
    LeadingSpace(s) == 0 && TrailingSpace(s) == 0
  }

  /** A field passes exactly when it is 6 to 254 characters long and not padded with white space. */
  lemma FieldCheckAccepts(field: string, s: string)
    ensures FieldCheck(field, s) == None <==> 6 <= |s| < 255 && Trimmed(s)
  {
    var stable := TrimSpace(s) == s;
    assert stable == Trimmed(s) by { TrimSpaceFixpoint(s); }
    assert FieldCheck(field, s) == None <==> 6 <= |s| < 255 && stable;
  }

  /**
   * `UserCreate` reaches the database exactly when the user name and e-mail are
   * 6 to 254 characters long, neither starts nor ends with white space, and the
   * e-mail is a valid address.
   */
  lemma UserCreateAccepts(userName: string, email: string)
    ensures UserCreateCheck(userName, email) == None <==>
      && 6 <= |userName| < 255 && Trimmed(userName)
      && 6 <= |email| < 255 && Trimmed(email)
      && IsValidEmailAddress(email)
  {
    FieldCheckAccepts("username", userName);
    FieldCheckAccepts("email", email);
  }

  /** The user name is checked first: a bad user name is reported, as a user-name error, whatever the e-mail. */
  lemma UserNameCheckedFirst(userName: string, email: string, email': string)
    requires !(6 <= |userName| < 255 && Trimmed(userName))
    ensures UserCreateCheck(userName, email) == UserCreateCheck(userName, email')
    ensures UserCreateCheck(userName, email).Some?
    ensures UserCreateCheck(userName, email).value[..8] == "username"
  {
    FieldCheckAccepts("username", userName);
  }

  /** `EmpireCreate`'s race lookup: only "HUMAN" is known. */
  function RaceFlag(race: string): (r: Result<int, string>)
    ensures r.Ok? <==> race == "HUMAN"
    ensures r.Ok? ==> r.value == RACE_HUMAN
  {
    match race
    case "HUMAN" => Ok(RACE_HUMAN)
    case _ => Err("unknown race: " + race)
  }

  /** The errors `AuthenticatedUserFetch` reports. */
  datatype DbError = ErrNoRows | QueryFailed

  /** The columns the `AuthenticatedUserFetch` query returns. */
  datatype UserRow = UserRow(uid: int, username: string, uflags: NullInt64, ucomment: NullString)

  /** The fields of `model.User_t` that `AuthenticatedUserFetch` fills in. */
  datatype FetchedUser = FetchedUser(id: int, userName: string, flags: UserFlags, comment: string)

  /**
   * `AuthenticatedUserFetch`, with the query as the parameter `query`: empty
   * credentials are refused with `ErrNoRows` without calling it; otherwise its row
   * is turned into a user, decoding the flag word.
   */
  function AuthenticatedUserFetch(username: string, password: string,
                                  query: (string, string) -> Result<UserRow, DbError>): (r: Result<FetchedUser, DbError>)
    ensures username == "" || password == "" ==> r == Err(ErrNoRows)
    ensures r.Ok? ==> query(username, password).Ok? && var row := query(username, password).value;
      r.value == FetchedUser(row.uid, row.username, IntToUserFlags(row.uflags), NvlString(row.ucomment))
  {
    if username == "" || password == "" then Err(ErrNoRows)
    else
      match query(username, password)
      case Err(e) => Err(e)
      case Ok(row) => Ok(FetchedUser(row.uid, row.username, IntToUserFlags(row.uflags), NvlString(row.ucomment)))
  }

  /** With empty credentials the answer does not depend on the database at all. */
  lemma EmptyCredentialsSkipQuery(username: string, password: string,
                                  q1: (string, string) -> Result<UserRow, DbError>,
                                  q2: (string, string) -> Result<UserRow, DbError>)
    requires username == "" || password == ""
    ensures AuthenticatedUserFetch(username, password, q1) == AuthenticatedUserFetch(username, password, q2)
  {
  }
}
