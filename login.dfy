/** The login retry loop of one browser session. The browser is replaced
    by an oracle that says, for each attempt, what each of its three
    browser actions gave; the sleeps between the actions are left out. */
module Login {
  import opened GoLib

  /** The page the portal shows once the login went through. */
  const PortalUrl: string := "https://bwd.xuanen.com.tw/wd02.aspx?Module=ind&files=ind"

  /** Looking a control up and clicking the first one found: none was on
      the page (not an error), the first one was clicked, or the browser
      reported an error. */
  datatype Probe = Missing | Clicked | ProbeFailed

  /** What the browser gave in one attempt: the login button, the current
      location (`None` when reading it failed) and the button of the
      verification-failed dialog. */
  datatype LoginRound = LoginRound(loginButton: Probe, location: Option<string>, failButton: Probe)

  /** The browser action whose error ended the loop. */
  datatype Step = AtLoginButton | AtLocation | AtFailButton

  datatype LoginError =
    | Transport(step: Step)        // a browser error, returned as it is
    | LoginExhausted(tries: int)   // "login failed after <retry> tries"

  /** The error `login` returns (`None` for nil), how many attempts it
      began, and the last location it read (`""` if none). */
  datatype LoginResult = LoginResult(err: Option<LoginError>, attempts: nat, url: string)

  /** The loop of `login` from attempt `i` on, having last read `url`. */
  function LoginFrom(retry: int, env: nat -> LoginRound, i: nat, url: string): (res: LoginResult)
    decreases retry - i
  {
    if i >= retry then
      if url != PortalUrl then LoginResult(Some(LoginExhausted(retry)), i, url)
      else LoginResult(None, i, url)
    else
      var r := env(i);
      if r.loginButton == ProbeFailed then LoginResult(Some(Transport(AtLoginButton)), i + 1, url)
      else match r.location
        case None => LoginResult(Some(Transport(AtLocation)), i + 1, url)
        case Some(u) =>
          if u == PortalUrl then LoginResult(None, i + 1, u)
          else if r.failButton == ProbeFailed then LoginResult(Some(Transport(AtFailButton)), i + 1, u)
          else LoginFrom(retry, env, i + 1, u)
  }

  /** `login(ctx, id, retry, period)` against the browser `env`. */
  function LoginSpec(retry: int, env: nat -> LoginRound): (res: LoginResult)
  {
    LoginFrom(retry, env, 0, "")
  }

  /** An attempt that reads a location other than the portal and meets no
      browser error, so that the loop goes on. */
  predicate Rejected(r: LoginRound)
  {
    r.loginButton != ProbeFailed && r.location.Some? && r.location.value != PortalUrl &&
    r.failButton != ProbeFailed
  }

  /** An attempt whose location is the portal. */
  predicate Admitted(r: LoginRound)
  {
    r.loginButton != ProbeFailed && r.location == Some(PortalUrl)
  }

  /** `login`, step by step as the Go loop runs. */
  method Login(retry: int, env: nat -> LoginRound) returns (err: Option<LoginError>, attempts: nat)
    ensures err == LoginSpec(retry, env).err && attempts == LoginSpec(retry, env).attempts
  {
    var url := "";
    attempts := 0;
    while attempts < retry
      invariant url != PortalUrl
      invariant LoginFrom(retry, env, attempts, url) == LoginSpec(retry, env)
      decreases retry - attempts
    {
      var round := env(attempts);
      attempts := attempts + 1;
      if round.loginButton == ProbeFailed {
        return Some(Transport(AtLoginButton)), attempts;
      }
      if round.location.None? {
        return Some(Transport(AtLocation)), attempts;
      }
      url := round.location.value;
      if url == PortalUrl {
        break;
      }
      if round.failButton == ProbeFailed {
        return Some(Transport(AtFailButton)), attempts;
      }
    }
    if url != PortalUrl {
      return Some(LoginExhausted(retry)), attempts;
    }
    return None, attempts;
  }

  /** Bounds and the success criterion, for every browser: the loop begins
      at most `retry` attempts, and it succeeds exactly when the last
      location it read is the portal. */
  lemma {:induction false} LoginFromMeaning(retry: int, env: nat -> LoginRound, i: nat, url: string)
    requires i <= retry || url == ""
    requires url != PortalUrl
    ensures var r := LoginFrom(retry, env, i, url);
      && (r.err.None? <==> r.url == PortalUrl)
      && (if retry <= i then r.attempts == i else i < r.attempts <= retry)
      && (r.err.None? ==> r.attempts > i && Admitted(env(r.attempts - 1)))
    decreases retry - i
  {
    if i < retry {
      var r := env(i);
      if r.loginButton != ProbeFailed && r.location.Some? && r.location.value != PortalUrl &&
         r.failButton != ProbeFailed {
        LoginFromMeaning(retry, env, i + 1, r.location.value);
      }
    }
  }

  /** A call with `retry <= 0` makes no attempt and fails. */
  lemma NoRetryFails(retry: int, env: nat -> LoginRound)
    requires retry <= 0
    ensures LoginSpec(retry, env) == LoginResult(Some(LoginExhausted(retry)), 0, "")
  {
  }

  /** `login` succeeds exactly when the last location it read is the
      portal; it begins between one and `retry` attempts when `retry` is
      positive, and the last one it began read the portal when it
      succeeds. */
  lemma LoginMeaning(retry: int, env: nat -> LoginRound)
    ensures LoginSpec(retry, env).err.None? <==> LoginSpec(retry, env).url == PortalUrl
    ensures retry > 0 ==> 1 <= LoginSpec(retry, env).attempts <= retry
    ensures LoginSpec(retry, env).err.None? ==> Admitted(env(LoginSpec(retry, env).attempts - 1))
  {
    LoginFromMeaning(retry, env, 0, "");
  }

  /** The loop stops at the first attempt that reads the portal, provided
      every earlier attempt was rejected without a browser error. */
  lemma {:induction false} LoginStopsAtPortal(retry: int, env: nat -> LoginRound, i: nat, url: string, k: nat)
    requires i <= k < retry
    requires forall j :: i <= j < k ==> Rejected(env(j))
    requires Admitted(env(k))
    ensures LoginFrom(retry, env, i, url) == LoginResult(None, k + 1, PortalUrl)
    decreases k - i
  {
    if i < k {
      LoginStopsAtPortal(retry, env, i + 1, env(i).location.value, k);
    }
  }

  /** A browser error returns at once, from the attempt it occurs in. */
  lemma {:induction false} LoginStopsAtError(retry: int, env: nat -> LoginRound, i: nat, url: string, k: nat)
    requires i <= k < retry
    requires forall j :: i <= j < k ==> Rejected(env(j))
    requires !Rejected(env(k)) && !Admitted(env(k))
    ensures LoginFrom(retry, env, i, url).err.Some? &&
      LoginFrom(retry, env, i, url).err.value.Transport? &&
      LoginFrom(retry, env, i, url).attempts == k + 1
    decreases k - i
  {
    if i < k {
      LoginStopsAtError(retry, env, i + 1, env(i).location.value, k);
    }
  }

  /** When every attempt is rejected the loop makes all `retry` attempts
      and fails with the attempt count. */
  lemma {:induction false} LoginExhausts(retry: int, env: nat -> LoginRound, i: nat, url: string)
    requires i <= retry && url != PortalUrl
    requires forall j :: i <= j < retry ==> Rejected(env(j))
    ensures LoginFrom(retry, env, i, url) == LoginResult(Some(LoginExhausted(retry)), retry, LoginFrom(retry, env, i, url).url)
    decreases retry - i
  {
    if i < retry {
      LoginExhausts(retry, env, i + 1, env(i).location.value);
    }
  }

  /** A login or verification-failed button that is missing is treated as
      one that was clicked: only browser errors and locations decide. */
  lemma {:induction false} MissingButtonIsNoError(retry: int, env: nat -> LoginRound, env': nat -> LoginRound, i: nat, url: string)
    requires forall j :: i <= j < retry ==>
      env(j).location == env'(j).location &&
      (env(j).loginButton == ProbeFailed <==> env'(j).loginButton == ProbeFailed) &&
      (env(j).failButton == ProbeFailed <==> env'(j).failButton == ProbeFailed)
    ensures LoginFrom(retry, env, i, url) == LoginFrom(retry, env', i, url)
    decreases retry - i
  {
    if i < retry && env(i).location.Some? {
      MissingButtonIsNoError(retry, env, env', i + 1, env(i).location.value);
    }
  }
}
