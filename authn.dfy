/**
 * The roles of a signed-in user, derived from the flags stored with the account.
 */
module Authn {
  import opened Wrappers
  import opened OrmDml

  /** The six role names, one per user flag. */
  const RoleNames: set<string> := {"admin", "closed", "disabled", "mod", "valid", "watch"}

  /** Each role name is a key of `roles` exactly when the flag it is named after is set. */
  predicate NamesFlags(f: UserFlags, roles: map<string, bool>) {
    && ("admin" in roles <==> f.admin)
    && ("closed" in roles <==> f.closed)
    && ("disabled" in roles <==> f.disabled)
    && ("mod" in roles <==> f.mod)
    && ("valid" in roles <==> f.valid)
    && ("watch" in roles <==> f.watch)
  }

  /**
   * `Authenticator.UserRoles`: no roles without a user; otherwise one role, set
   * to true, for each flag the user has, named after the flag, and no other.
   */
  method UserRoles(user: Option<FetchedUser>) returns (roles: map<string, bool>)
    ensures user.None? ==> roles == map[]
    ensures user.Some? ==> NamesFlags(user.value.flags, roles)
    ensures roles.Keys <= RoleNames
    ensures forall k | k in roles :: roles[k]
  {
    roles := map[];
    if user.None? {
      return;
    }
    var flags := user.value.flags;
    if flags.admin {
      roles := roles["admin" := true];
    }
    if flags.closed {
      roles := roles["closed" := true];
    }
    if flags.disabled {
      roles := roles["disabled" := true];
    }
    if flags.mod {
      roles := roles["mod" := true];
    }
    if flags.valid {
      roles := roles["valid" := true];
    }
    if flags.watch {
      roles := roles["watch" := true];
    }
  }

  /** No flag combination grants the "authenticated" marker the token payload uses. */
  lemma NoAuthenticatedRole()
    ensures "authenticated" !in RoleNames
  {
  }

  /**
   * A user whose stored flag word is NULL has no flags set, so the roles
   * `UserRoles` gives that user are the empty map.
   */
  lemma NullFlagsNoRoles(u: FetchedUser, x: bv64, roles: map<string, bool>)
    requires u.flags == IntToUserFlags(NullInt64(false, x))
    requires NamesFlags(u.flags, roles) && roles.Keys <= RoleNames
    ensures roles == map[]
  {
    NullFlagsAreClear(x);
    assert roles.Keys == {};
  }
}
