/** The session layer: the auth provider's `{user, loading}` state, driven
    by the sign-in observer, and the route guard that decides between a
    spinner, a redirect to the login page and the protected page. */
module Session {
  import opened Store

  /** A signed-in user; only identity matters here. */
  datatype User = User(uid: nat)

  /** The router location the guard is rendered at. */
  datatype Location = Location(path: string)

  /** What `RequireAuth` renders. */
  datatype View =
    | Spinner
    | Redirect(to: string, from: Location, replace: bool)
    | Protected

  const LoginRoute: string := "/login"

  /** `RequireAuth`: loading is checked before the user. */
  function Gate(loading: bool, user: Option<User>, location: Location): (v: View)
    ensures v.Spinner? <==> loading
    ensures v.Redirect? <==> !loading && user.None?
    ensures v.Protected? <==> !loading && user.Some?
    ensures v.Redirect? ==> v == Redirect(LoginRoute, location, true)
  {
    if loading then Spinner
    else if user.None? then Redirect(LoginRoute, location, true)
    else Protected
  }

  /** The provider's state; `subscribed` says whether the observer
      registered by the mount effect is still attached. */
  datatype Auth = Auth(user: Option<User>, loading: bool, subscribed: bool)

  const InitialAuth: Auth := Auth(None, true, false)

  /** What can happen to the provider: the effect runs and subscribes, the
      observer reports a user (or none), or the effect's cleanup calls the
      unsubscribe handle the subscription returned. */
  datatype Event = Mount | Report(user: Option<User>) | Teardown

  function Step(a: Auth, e: Event): (r: Auth)
    ensures e.Report? && a.subscribed ==> r == a.(user := e.user, loading := false)
    ensures e.Report? && !a.subscribed ==> r == a
    ensures !e.Report? ==> r.user == a.user && r.loading == a.loading && r.subscribed == e.Mount?
  {
    match e
    case Mount => a.(subscribed := true)
    case Report(u) => if a.subscribed then a.(user := u, loading := false) else a
    case Teardown => a.(subscribed := false)
  }

  /** The provider after a run of events, in order. */
  function Run(a: Auth, es: seq<Event>): Auth
    decreases |es|
  {
    if |es| == 0 then a else Run(Step(a, es[0]), es[1..])
  }

  /** Running two stretches of events one after the other is running their
      concatenation. */
  lemma {:induction false} RunConcat(a: Auth, xs: seq<Event>, ys: seq<Event>)
    ensures Run(a, xs + ys) == Run(Run(a, xs), ys)
    decreases |xs|
  {
    if |xs| > 0 {
      assert (xs + ys)[1..] == xs[1..] + ys;
      RunConcat(Step(a, xs[0]), xs[1..], ys);
    } else {
      assert xs + ys == ys;
    }
  }

  /** `loading` never goes back to true. */
  lemma {:induction false} LoadingNeverReturns(a: Auth, es: seq<Event>)
    requires !a.loading
    ensures !Run(a, es).loading
    decreases |es|
  {
    if |es| > 0 {
      LoadingNeverReturns(Step(a, es[0]), es[1..]);
    }
  }

  /** While the provider is still loading no report has been delivered, so
      the user is still the one it started with. */
  lemma {:induction false} LoadingMeansNoReport(a: Auth, es: seq<Event>)
    requires Run(a, es).loading
    ensures a.loading && Run(a, es).user == a.user
    decreases |es|
  {
    if |es| > 0 {
      var a' := Step(a, es[0]);
      LoadingMeansNoReport(a', es[1..]);
    }
  }

  /** A report delivered while subscribed sets the user to the reported
      value and ends loading, whatever came before. */
  lemma LastReportWins(a: Auth, es: seq<Event>, u: Option<User>)
    requires Run(a, es).subscribed
    ensures Run(a, es + [Report(u)]).user == u && !Run(a, es + [Report(u)]).loading
  {
    RunConcat(a, es, [Report(u)]);
  }

  /** After the teardown reports are ignored until a new mount. */
  lemma {:induction false} TeardownFreezes(a: Auth, es: seq<Event>)
    requires !a.subscribed
    requires forall i :: 0 <= i < |es| ==> !es[i].Mount?
    ensures Run(a, es).user == a.user && Run(a, es).loading == a.loading
    decreases |es|
  {
    if |es| > 0 {
      TeardownFreezes(Step(a, es[0]), es[1..]);
    }
  }

  /** Once the guard has shown something other than the spinner, it never
      shows the spinner again. */
  lemma GateNeverSpinsAgain(a: Auth, es: seq<Event>, here: Location, later: Location)
    requires !Gate(a.loading, a.user, here).Spinner?
    ensures !Gate(Run(a, es).loading, Run(a, es).user, later).Spinner?
  {
    LoadingNeverReturns(a, es);
  }

  /** Starting from the initial state, the guard redirects only after the
      observer has reported that nobody is signed in. */
  lemma RedirectOnlyAfterSignedOutReport(es: seq<Event>, here: Location)
    requires Gate(Run(InitialAuth, es).loading, Run(InitialAuth, es).user, here).Redirect?
    ensures exists i :: 0 <= i < |es| && es[i] == Report(None)
  {
    ReportedUserComesFromReport(InitialAuth, es);
  }

  /** Once loading has ended, the current user is one that some report
      carried. */
  lemma {:induction false} ReportedUserComesFromReport(a: Auth, es: seq<Event>)
    requires a.loading && !Run(a, es).loading
    ensures exists i :: 0 <= i < |es| && es[i] == Report(Run(a, es).user)
    decreases |es|
  {
    var a' := Step(a, es[0]);
    if a'.loading {
      ReportedUserComesFromReport(a', es[1..]);
      var i :| 0 <= i < |es[1..]| && es[1..][i] == Report(Run(a', es[1..]).user);
      assert es[i + 1] == es[1..][i];
    } else {
      assert es[0].Report?;
      if Run(a', es[1..]).user == a'.user {
        assert es[0] == Report(Run(a, es).user);
      } else {
        LastUserFromReport(a', es[1..]);
        var i :| 0 <= i < |es[1..]| && es[1..][i] == Report(Run(a', es[1..]).user);
        assert es[i + 1] == es[1..][i];
      }
    }
  }

  /** A user different from the starting one must have been reported. */
  lemma {:induction false} LastUserFromReport(a: Auth, es: seq<Event>)
    requires Run(a, es).user != a.user
    ensures exists i :: 0 <= i < |es| && es[i] == Report(Run(a, es).user)
    decreases |es|
  {
    var a' := Step(a, es[0]);
    if Run(a', es[1..]).user == a'.user {
      assert es[0] == Report(Run(a, es).user);
    } else {
      LastUserFromReport(a', es[1..]);
      var i :| 0 <= i < |es[1..]| && es[1..][i] == Report(Run(a', es[1..]).user);
      assert es[i + 1] == es[1..][i];
    }
  }
}
