/**
 The login gate of auth.py. Streamlit's per-user `session_state` dictionary
 is the `Session` object, holding the only two keys the gate uses; the
 configured credentials are a value passed in; `datetime.now()` is an
 integer clock reading passed to each call.
 */
module Auth {
  import opened Wrappers

  /** SESSION_DURATION, in minutes. */
  const SessionDurationMinutes: int := 30

  /** Clock readings count microseconds, the resolution of `datetime`. */
  const MicrosPerMinute: int := 60_000_000

  /** `timedelta(minutes=SESSION_DURATION)` on that clock. */
  const SessionDuration: int := SessionDurationMinutes * MicrosPerMinute

  /** LOGIN_USERNAME and LOGIN_PASSWORD as read from the environment; an
      unset variable is `None`. */
  datatype Credentials = Credentials(username: Option<string>, password: Option<string>)

  /** `username == USERNAME and password == PASSWORD`. A submitted string is
      never equal to `None`, so an unset credential refuses every login. */
  function Accepts(creds: Credentials, username: string, password: string): (ok: bool)
    ensures ok <==> creds.username == Some(username) && creds.password == Some(password)
    ensures creds.username.None? || creds.password.None? ==> !ok
  {
    match (creds.username, creds.password)
    case (Some(u), Some(p)) => username == u && password == p
    case _ => false
  }

  /** The session of one browser user. */
  class Session {
    /** `session_state.get("authenticated")`. */
    var authenticated: Option<bool>
    /** `session_state.get("login_time")`. */
    var loginTime: Option<int>

    /** A new session holds neither key. */
    constructor ()
      ensures IsEmpty()
    {
      authenticated := None;
      loginTime := None;
    }

    /** Neither key is present, as after `session_state.clear()`. */
    predicate IsEmpty()
      reads this
    {
      authenticated.None? && loginTime.None?
    }

    /** The answer `is_authenticated` gives at time `now`: the flag is set
        and true, a login time is recorded, and strictly less than the
        session duration has passed since it. */
    predicate Active(now: int)
      reads this
    {
      && authenticated == Some(true)
      && loginTime.Some?
      && now - loginTime.value < SessionDuration
    }

    /** A submitted login form (`login_form` once `submitted`): matching
        credentials mark the session authenticated as of `now`; anything
        else leaves it as it was. */
    method Login(creds: Credentials, username: string, password: string, now: int) returns (ok: bool)
      modifies this
      ensures ok <==> Accepts(creds, username, password)
      ensures ok ==> authenticated == Some(true) && loginTime == Some(now) && Active(now)
      ensures !ok ==> authenticated == old(authenticated) && loginTime == old(loginTime)
    {
      ok := Accepts(creds, username, password);
      if ok {
        authenticated := Some(true);
        loginTime := Some(now);
      }
    }

    /** `is_authenticated()` at time `now`. An active session is left alone;
        an authenticated one that has no login time or has expired is
        cleared; one that was never authenticated is left alone. */
    method IsAuthenticated(now: int) returns (valid: bool)
      modifies this
      ensures valid == old(Active(now))
      ensures valid ==> authenticated == old(authenticated) && loginTime == old(loginTime)
      ensures old(authenticated) != Some(true) ==> !valid && authenticated == old(authenticated) && loginTime == old(loginTime)
      ensures old(authenticated) == Some(true) && !valid ==> IsEmpty()
    {
      if authenticated.Some? && authenticated.value {
        if loginTime.Some? && now - loginTime.value < SessionDuration {
          valid := true;
        } else {
          authenticated := None;
          loginTime := None;
          valid := false;
        }
      } else {
        valid := false;
      }
    }

    /** The logout button: clears the session, so no later check passes. */
    method Logout()
      modifies this
      ensures IsEmpty()
      ensures forall now :: !Active(now)
    {
      authenticated := None;
      loginTime := None;
    }
  }

  /** A session's life on the clock: active just before the duration has
      passed since login, cleared at exactly that moment, and inactive after
      a logout. */
  method SessionLifecycle(creds: Credentials, username: string, password: string, t: int)
    requires Accepts(creds, username, password)
  {
    var s := new Session();
    var ok := s.Login(creds, username, password, t);
    assert ok;
    var v := s.IsAuthenticated(t + SessionDuration - 1);
    assert v;
    v := s.IsAuthenticated(t + SessionDuration);
    assert !v && s.IsEmpty();
    ok := s.Login(creds, username, password, t + SessionDuration);
    s.Logout();
    v := s.IsAuthenticated(t + SessionDuration);
    assert !v;
  }
}
