/**
 * The in-memory session table: sessions keyed by their identifier, created or
 * refreshed at login, looked up per request and evicted lazily once expired.
 *
 * The manager's lock is not modelled: every method runs as one atomic step.
 * The clock is the parameter `now` (nanoseconds since the Unix epoch) and the
 * fresh UUID of a new session is the parameter `newId`.
 */
module Sessions {
  import opened Wrappers
  import opened Http

  const NanosPerHour := 3600 * 1_000_000_000

  /** How long a session lives after it is created or refreshed: two weeks. */
  const SessionTtl := 2 * 7 * 24 * NanosPerHour

  /** The cookie `CreateCookie` sets. */
  const SessionCookieName := "session_id"

  /** The cookie the `Sessions` middleware reads. */
  const MiddlewareCookieName := "sid"

  /** `Session_t`: only the current empire and the expiry change after creation. */
  class Session {
    const id: string
    const userId: int
    var empireId: int
    const role: string
    var expires: int

    constructor (id: string, userId: int, role: string)
      ensures this.id == id && this.userId == userId && this.role == role
      ensures empireId == 0 && expires == 0
    {
      this.id := id;
      this.userId := userId;
      this.role := role;
      empireId := 0;
      expires := 0;
    }
  }

  /** `isExpired`: no session at all, or `now` is not before its expiry. */
  predicate IsExpired(s: Session?, now: int)
    reads s
  {
    s == null || !(now < s.expires)
  }

  /** `Session_t.isAuthenticated`. */
  predicate IsAuthenticated(s: Session?) {
    s != null
  }

  /** `Session_t.isAuthorized`. */
  predicate IsAuthorized(s: Session?) {
    s != null && s.userId != 0
  }

  /** `SessionUser_t`: what handlers learn about the session of a request. */
  datatype SessionUser = SessionUser(userId: int, empireId: int) {
    predicate IsAuthenticated() {
      userId != 0
    }

    predicate IsAuthorized() {
      userId != 0
    }
  }

  /** `SessionManager_t.User`: the zero user when the request has no session, else its user and empire. */
  function UserOf(s: Session?): (u: SessionUser)
    reads s
    ensures s == null ==> u == SessionUser(0, 0) && !u.IsAuthenticated()
    ensures s != null ==> u.userId == s.userId && u.empireId == s.empireId
  {
    if s == null then SessionUser(0, 0) else SessionUser(s.userId, s.empireId)
  }

  /**
   * The two views of authorization agree: a session is authorized exactly when
   * the user the handlers see is, and a missing session is never authenticated.
   */
  lemma AuthorizationAgrees(s: Session?)
    ensures IsAuthorized(s) <==> UserOf(s).IsAuthorized()
    ensures UserOf(s).IsAuthenticated() ==> IsAuthenticated(s)
    ensures IsAuthorized(s) ==> IsAuthenticated(s)
  {
  }

  /**
   * `Session_t.CreateCookie`: nothing for an expired (or missing) session, else
   * an HTTP-only, secure cookie for path `/` that carries the identifier and
   * expires with the session.
   */
  function CreateCookie(s: Session?, now: int): (c: Option<Cookie>)
    reads s
    ensures c.None? <==> IsExpired(s, now)
    ensures c.Some? ==> s != null && c.value == Cookie("/", SessionCookieName, s.id, s.expires, true, true)
  {
    if IsExpired(s, now) then None
    else Some(Cookie("/", SessionCookieName, s.id, s.expires, true, true))
  }

  /** `SessionManager_t`: the table of sessions by identifier. */
  class SessionManager {
    var sessions: map<string, Session>

    /** Every session is filed under its own identifier, and no user has two sessions. */
    ghost predicate Valid()
      reads this
    {
      && (forall id | id in sessions :: sessions[id].id == id)
      && (forall a, b | a in sessions && b in sessions && sessions[a].userId == sessions[b].userId :: a == b)
    }

    constructor ()
      ensures Valid() && sessions == map[]
    {
      sessions := map[];
    }

    /** `DeleteSession`: removes `id` and nothing else; an absent `id` changes nothing. */
    method DeleteSession(id: string)
      requires Valid()
      modifies this
      ensures Valid()
      ensures sessions == old(sessions) - {id}
    {
      sessions := sessions - {id};
    }

    /**
     * `GetSession`: the live session filed under `id`; an expired one is removed
     * and, like a missing one, gives no session.
     */
    method GetSession(id: string, now: int) returns (r: Session?)
      requires Valid()
      modifies this
      ensures Valid()
      ensures id !in old(sessions) ==> r == null && sessions == old(sessions)
      ensures id in old(sessions) && IsExpired(old(sessions)[id], now) ==>
        r == null && sessions == old(sessions) - {id}
      ensures id in old(sessions) && !IsExpired(old(sessions)[id], now) ==>
        r == old(sessions)[id] && sessions == old(sessions)
      ensures r != null ==> r.id == id && !IsExpired(r, now)
    {
      if id !in sessions {
        return null;
      } else if IsExpired(sessions[id], now) {
        sessions := sessions - {id};
        return null;
      }
      r := sessions[id];
    }

    /**
     * The scan at the start of `NewSession`: walks the table in no particular
     * order until it meets the user's session, removing the expired sessions of
     * other users it passes on the way. Without a session of the user it passes
     * every entry, so no expired session is left.
     */
    method FindUserSession(user: int, now: int) returns (found: Session?)
      requires Valid()
      modifies this
      ensures Valid()
      ensures sessions.Keys <= old(sessions).Keys
      ensures forall id | id in sessions :: sessions[id] == old(sessions)[id]
      ensures forall id | id in old(sessions) && id !in sessions ::
        old(sessions)[id].userId != user && IsExpired(old(sessions)[id], now)
      ensures found == null <==> forall id | id in old(sessions) :: old(sessions)[id].userId != user
      ensures found != null ==> found.id in sessions && sessions[found.id] == found && found.userId == user
      ensures found == null ==> forall id | id in sessions :: !IsExpired(sessions[id], now)
    {
      var remaining := sessions.Keys;
      ghost var removed: set<string> := {};
      found := null;
      while remaining != {} && found == null
        invariant Valid()
        invariant remaining !! removed && remaining <= old(sessions).Keys
        invariant sessions == old(sessions) - removed
        invariant forall id | id in removed ::
          id in old(sessions) && old(sessions)[id].userId != user && IsExpired(old(sessions)[id], now)
        invariant found == null ==> forall id | id in old(sessions) && id !in remaining :: old(sessions)[id].userId != user
        invariant found == null ==> forall id | id in sessions && id !in remaining :: !IsExpired(sessions[id], now)
        invariant found != null ==> found.id in sessions && sessions[found.id] == found && found.userId == user
        decreases remaining
      {
        var id :| id in remaining;
        var sess := sessions[id];
        assert sess.id == id;
        remaining := remaining - {id};
        if sess.userId == user {
          found := sess;
        } else if IsExpired(sess, now) {
          sessions := sessions - {sess.id};
          removed := removed + {id};
        }
      }
    }

    /**
     * `NewSession`: the user's existing session if the scan finds one, else a new
     * one with role "user" filed under `newId`; either way it now belongs to
     * `empire` and expires two weeks from `now`. Sessions the scan passes that
     * are expired and not the user's are removed; when the user had no session,
     * that is every expired session. A new session filed under an
     * id already in use replaces that entry, another user's session, as the
     * map assignment does; nothing else changes.
     */
    method NewSession(user: int, empire: int, now: int, newId: string) returns (session: Session)
      requires Valid()
      modifies this, sessions.Values
      ensures Valid()
      ensures session.userId == user && session.empireId == empire && session.expires == now + SessionTtl
      ensures session.id in sessions && sessions[session.id] == session
      ensures forall id | id in old(sessions) && old(sessions)[id].userId == user :: session == old(sessions)[id]
      ensures (forall id | id in old(sessions) :: old(sessions)[id].userId != user) ==>
        fresh(session) && session.id == newId && session.role == "user"
      ensures forall id | id in old(sessions) && id !in sessions ::
        old(sessions)[id].userId != user && old(IsExpired(sessions[id], now))
      ensures forall id | id in sessions && id != session.id :: id in old(sessions) && sessions[id] == old(sessions)[id]
      ensures forall id | id in old(sessions) && id in sessions && sessions[id] != old(sessions)[id] ::
        id == newId && fresh(session) && old(sessions)[id].userId != user
      ensures (forall id | id in old(sessions) :: old(sessions)[id].userId != user) ==>
        forall id | id in sessions && id != session.id :: !IsExpired(sessions[id], now)
      ensures forall s | s in old(sessions).Values && s != session ::
        s.empireId == old(s.empireId) && s.expires == old(s.expires)
    {
      var found := FindUserSession(user, now);
      if found == null {
        found := new Session(newId, user, "user");
        sessions := sessions[newId := found];
      }
      found.empireId := empire;
      found.expires := now + SessionTtl;
      session := found;
    }

    /**
     * The `Sessions` middleware as written: the session named by the `sid`
     * cookie, looked up with `GetSession`; no such cookie gives no session.
     */
    method SessionFromRequestAsWritten(req: Request, now: int) returns (r: Session?)
      requires Valid()
      modifies this
      ensures Valid()
      ensures MiddlewareCookieName !in req.cookies ==> r == null && sessions == old(sessions)
      ensures r != null ==> MiddlewareCookieName in req.cookies && r.id == req.cookies[MiddlewareCookieName]
    {
      r := null;
      if MiddlewareCookieName in req.cookies {
        r := GetSession(req.cookies[MiddlewareCookieName], now);
      }
    }

    /**
     * The `Sessions` middleware reading the cookie `CreateCookie` sets: a request
     * carrying the identifier of a live session gets that session.
     */
    method SessionFromRequest(req: Request, now: int) returns (r: Session?)
      requires Valid()
      modifies this
      ensures Valid()
      ensures SessionCookieName !in req.cookies ==> r == null && sessions == old(sessions)
      ensures SessionCookieName in req.cookies && req.cookies[SessionCookieName] in old(sessions)
              && !IsExpired(old(sessions)[req.cookies[SessionCookieName]], now) ==>
        r == old(sessions)[req.cookies[SessionCookieName]] && sessions == old(sessions)
      ensures r != null ==> SessionCookieName in req.cookies && r.id == req.cookies[SessionCookieName] && !IsExpired(r, now)
    {
      r := null;
      if SessionCookieName in req.cookies {
        r := GetSession(req.cookies[SessionCookieName], now);
      }
    }
  }

  /**
   * The cookie `CreateCookie` sets for a live session is not the one the
   * middleware as written reads, so a request carrying just that cookie gets no
   * session from it.
   */
  lemma SessionCookieNotRead(s: Session, now: int)
    requires !IsExpired(s, now)
    ensures CreateCookie(s, now).Some?
    ensures var c := CreateCookie(s, now).value;
      MiddlewareCookieName !in Request("", map[c.name := c.value]).cookies
  {
  }

  /**
   * A live session stored in a valid table is found again from the cookie
   * `CreateCookie` sets for it, by the corrected middleware.
   */
  lemma SessionCookieRoundTrip(m: SessionManager, s: Session, now: int)
    requires m.Valid() && s in m.sessions.Values && !IsExpired(s, now)
    ensures CreateCookie(s, now).Some?
    ensures var c := CreateCookie(s, now).value;
      var cookies := map[c.name := c.value];
      && SessionCookieName in cookies
      && cookies[SessionCookieName] in m.sessions
      && m.sessions[cookies[SessionCookieName]] == s
  {
    var k :| k in m.sessions && m.sessions[k] == s;
    assert s.id == k;
  }

  /** A session just created or refreshed yields its cookie for the next two weeks, and not after. */
  lemma RefreshedSessionCookie(s: Session, created: int, now: int)
    requires s.expires == created + SessionTtl
    ensures CreateCookie(s, now).Some? <==> now < created + SessionTtl
  {
  }
}
