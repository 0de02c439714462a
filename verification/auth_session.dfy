/** The session store: at most one signed-in user, a single storage slot
    holding that user between page loads, and the loading flag that covers
    the restore from storage at start-up. */
module Session {
  import opened Wrappers
  import opened Text
  import opened UserRecords

  /** The content of the storage slot. `Saved(u)` is text written by the
      store itself, which parses back to `u`; `Corrupt(raw)` is any text that
      does not parse. */
  datatype Stored = Saved(user: UserRecord) | Corrupt(raw: string)

  datatype AuthState = AuthState(
    user: Option<UserRecord>,
    stored: Option<Stored>,
    isLoading: bool)

  /** The e-mail that signs in as the first known user when no record
      matches. */
  const SentinelEmail: string := "admin@sistema.com"

  /** The provider as first rendered: no user, still loading, whatever the
      storage slot holds. */
  function Mount(stored: Option<Stored>): (s: AuthState)
    ensures s.user == None && s.isLoading && s.stored == stored
  {
    AuthState(None, stored, true)
  }

  /** The mount-time effect. A saved user becomes the session user; an
      unparseable, non-empty entry is removed; an empty entry is falsy and is
      skipped without being removed. Loading ends in every case. */
  function Restore(s: AuthState): (r: AuthState)
    ensures !r.isLoading
    ensures match s.stored
            case Some(Saved(u)) => r.user == Some(u) && r.stored == s.stored
            case Some(Corrupt(raw)) =>
              r.user == s.user && r.stored == (if raw == "" then s.stored else None)
            case None => r.user == s.user && r.stored == None
  {
    match s.stored
    case Some(Saved(u)) => s.(user := Some(u), isLoading := false)
    case Some(Corrupt(raw)) =>
      if raw == "" then s.(isLoading := false)
      else s.(stored := None, isLoading := false)
    case None => s.(isLoading := false)
  }

  /** Restoring a second time changes nothing. */
  lemma RestoreIdempotent(s: AuthState)
    ensures Restore(Restore(s)) == Restore(s)
  {
  }

  /** On a fresh mount the restore signs in exactly the saved user, and a
      corrupt or missing entry leaves nobody signed in with the slot free of
      corrupt text that a later mount would trip over again. */
  lemma RestoreAfterMount(stored: Option<Stored>)
    ensures var r := Restore(Mount(stored));
            && (r.user.Some? <==> stored.Some? && stored.value.Saved?)
            && (r.user.Some? ==> r.stored == Some(Saved(r.user.value)))
            && (r.stored.Some? && r.stored.value.Corrupt? ==> r.stored.value.raw == "")
  {
  }

  /** E-mails are compared after lower-casing both sides. */
  function EmailMatches(u: UserRecord, email: string): (r: bool)
    ensures r <==> |u.email| == |email| &&
                   forall i :: 0 <= i < |email| ==> LowerChar(u.email[i]) == LowerChar(email[i])
  {
    Lower(u.email) == Lower(email)
  }

  /** The login lookup: the index of the first record whose e-mail matches
      case-insensitively, if any. */
  function FindByEmail(users: seq<UserRecord>, email: string): (r: Option<nat>)
    ensures r.Some? ==>
              && r.value < |users|
              && EmailMatches(users[r.value], email)
              && forall j :: 0 <= j < r.value ==> !EmailMatches(users[j], email)
    ensures r.None? ==> forall j :: 0 <= j < |users| ==> !EmailMatches(users[j], email)
  {
    if |users| == 0 then None
    else if EmailMatches(users[0], email) then Some(0)
    else
      match FindByEmail(users[1..], email)
      case Some(i) => Some(i + 1)
      case None => None
  }

  /** The record `login` signs in: the first case-insensitive match, else
      the first known user for the sentinel e-mail (compared exactly), else
      nobody. An empty user list has no first user. */
  function Authenticate(users: seq<UserRecord>, email: string): (r: Option<UserRecord>)
    ensures r.Some? ==> r.value in users
  {
    match FindByEmail(users, email)
    case Some(i) => Some(users[i])
    case None => if email == SentinelEmail && |users| > 0 then Some(users[0]) else None
  }

  datatype LoginResult = LoginResult(success: bool, state: AuthState)

  /** `login(email)` as one atomic step (the artificial delay is not
      modelled). The password is not an input: it is never checked. */
  function Login(s: AuthState, users: seq<UserRecord>, email: string): (r: LoginResult)
    ensures r.success <==>
              (exists i :: 0 <= i < |users| && EmailMatches(users[i], email))
              || (email == SentinelEmail && |users| > 0)
    ensures r.success ==>
              r.state.user.Some? && r.state.stored == Some(Saved(r.state.user.value))
    ensures !r.success ==> r.state == s
    ensures r.state.isLoading == s.isLoading
  {
    match Authenticate(users, email)
    case Some(u) => LoginResult(true, s.(user := Some(u), stored := Some(Saved(u))))
    case None => LoginResult(false, s)
  }

  /** A case-insensitive match signs in the first matching record in list
      order, even when a later record also matches. */
  lemma LoginPicksFirstMatch(s: AuthState, users: seq<UserRecord>, email: string, i: nat)
    requires i < |users| && EmailMatches(users[i], email)
    requires forall j :: 0 <= j < i ==> !EmailMatches(users[j], email)
    ensures Login(s, users, email).state.user == Some(users[i])
  {
  }

  /** The sentinel signs in the first known user only when no record
      matches. */
  lemma SentinelFallback(s: AuthState, users: seq<UserRecord>)
    requires |users| > 0
    requires forall j :: 0 <= j < |users| ==> !EmailMatches(users[j], SentinelEmail)
    ensures Login(s, users, SentinelEmail).state.user == Some(users[0])
  {
  }

  /** The sentinel comparison is exact: an upper-case variant of it signs
      nobody in when no record matches it. */
  lemma SentinelIsCaseSensitive(s: AuthState, u: UserRecord)
    requires Lower(u.email) != SentinelEmail
    ensures !Login(s, [u], "ADMIN@sistema.com").success
    ensures Login(s, [u], SentinelEmail).success
  {
    assert Lower("ADMIN@sistema.com") == SentinelEmail;
    assert Lower(SentinelEmail) == SentinelEmail;
    assert "ADMIN@sistema.com" != SentinelEmail by {
      assert "ADMIN@sistema.com"[0] != SentinelEmail[0];
    }
  }

  /** `logout()`: nobody signed in and the slot cleared, from any state. */
  function Logout(s: AuthState): (r: AuthState)
    ensures r.user == None && r.stored == None
    ensures r.isLoading == s.isLoading
  {
    s.(user := None, stored := None)
  }

  lemma LogoutIdempotent(s: AuthState)
    ensures Logout(Logout(s)) == Logout(s)
  {
  }

  /** The slot round-trips a login: after a successful login, a reload
      (mount and restore) signs the same user back in. */
  lemma LoginSurvivesReload(s: AuthState, users: seq<UserRecord>, email: string)
    requires Login(s, users, email).success
    ensures Restore(Mount(Login(s, users, email).state.stored)).user ==
            Login(s, users, email).state.user
  {
  }

  /** After a logout, a reload signs nobody in. */
  lemma LogoutSurvivesReload(s: AuthState)
    ensures Restore(Mount(Logout(s).stored)).user == None
  {
  }
}
