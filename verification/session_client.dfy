/** The login-then-fetch cycle of the SAP invoices component: the effect
    logs in, waits, then fetches the customer's invoices with the session
    cookies of the login. The two network answers and the expiry of the
    delay are the events of a state machine; React's state setters become
    field updates of one immutable screen record. */
module SessionClient {
  import opened Maybe
  import opened Backend
  import opened Cookies

  const LoginSucceeded := "LOGIN SUCCESS"
  const LoginFailed := "LOGIN FAILED"
  const LoadingFailed := "LOADING INVOICES FAILED"

  /** What `login` hands to the delayed fetch: the body's `SessionId`
      (which the code never checks) and the cookies of `set-cookie`. */
  datatype LoginData = LoginData(sessionId: SessionField, cookies: map<string, string>)

  /** An invoice request: its URL and its `Cookie` header. */
  datatype Request = Request(url: string, cookie: string)

  /** `login`: every failure (no connection, a non-ok status, a body that
      is not JSON) becomes the one message `LOGIN FAILED`; otherwise the
      session id and the extracted cookies. */
  function Login(r: Response<LoginBody>): (res: Result<LoginData>)
    ensures res.Err? <==> !Succeeded(r)
    ensures res.Err? ==> res.message == LoginFailed
    ensures res.Ok? ==> res.value.sessionId == r.body.content.sessionId
    ensures res.Ok? ==> res.value.cookies == ExtractSessionCookies(r.setCookie)
  {
    if !Succeeded(r) then Err(LoginFailed)
    else Ok(LoginData(r.body.content.sessionId, ExtractSessionCookies(r.setCookie)))
  }

  /** The request `fetchInvoices` sends for one customer: the filter of
      its URL carries the customer code, and its `Cookie` header starts
      with the session and reads back as the session id and, exactly when
      the route cookie is truthy, the route. */
  function InvoicesRequest(login: LoginData, customerCode: string): (req: Request)
    ensures |req.url| == |InvoicesQuery| + |customerCode| + 1
    ensures req.url[..|InvoicesQuery|] == InvoicesQuery
    ensures req.url[|InvoicesQuery|..|req.url| - 1] == customerCode
    ensures |req.cookie| >= |SessionPrefix| && req.cookie[..|SessionPrefix|] == SessionPrefix
    ensures ';' !in SessionText(login.sessionId) && (RouteId(login.cookies).Some? ==> ';' !in RouteId(login.cookies).value) ==>
              ParseCookieHeader(req.cookie) == Some(SessionCookies(SessionText(login.sessionId), RouteId(login.cookies)))
  {
    assert ';' !in SessionText(login.sessionId) && (RouteId(login.cookies).Some? ==> ';' !in RouteId(login.cookies).value) ==>
             ParseCookieHeader(CookieHeader(login.sessionId, login.cookies))
             == Some(SessionCookies(SessionText(login.sessionId), RouteId(login.cookies))) by {
      if ';' !in SessionText(login.sessionId) && (RouteId(login.cookies).Some? ==> ';' !in RouteId(login.cookies).value) {
        CookieHeaderRoundTrip(login.sessionId, login.cookies);
      }
    }
    Request(InvoicesUrl(customerCode), CookieHeader(login.sessionId, login.cookies))
  }

  /** `fetchInvoices`'s outcome: every failure becomes the one message
      `LOADING INVOICES FAILED`; otherwise `data.value || []`. */
  function FetchInvoices(r: Response<InvoicesBody>): (res: Result<seq<Invoice>>)
    ensures res.Err? <==> !Succeeded(r)
    ensures res.Err? ==> res.message == LoadingFailed
    ensures res.Ok? ==> res.value == ValueOrEmpty(r.body.content)
  {
    if !Succeeded(r) then Err(LoadingFailed)
    else Ok(ValueOrEmpty(r.body.content))
  }

  /** Where the cycle is: the login request is out, the delay is running
      with the login's data, the invoice request is out, or it is over. */
  datatype Phase = LoggingIn | Waiting(login: LoginData) | Fetching(request: Request) | Settled

  /** The component's four state variables. */
  datatype Screen = Screen(loginStatus: string, invoices: seq<Invoice>, loading: bool, error: string)

  datatype Client = Client(customerCode: string, phase: Phase, screen: Screen)

  /** The answers and the timer expiry that move the cycle on. */
  datatype Event =
    | LoginAnswered(login: Response<LoginBody>)
    | TimerFired
    | InvoicesAnswered(invoices: Response<InvoicesBody>)

  /** The state right after the effect has started: all four state
      variables at their initial values, the login request sent. */
  function Mount(customerCode: string): (c: Client)
    ensures Inv(c)
    ensures !c.screen.loading
  {
    Client(customerCode, LoggingIn, Screen("", [], false, ""))
  }

  /** The event each phase waits for. */
  predicate Expects(p: Phase, e: Event) {
    match e
    case LoginAnswered(_) => p.LoggingIn?
    case TimerFired => p.Waiting?
    case InvoicesAnswered(_) => p.Fetching?
  }

  /** The three ways a cycle can end: login failed, fetch failed, or
      invoices loaded; `loading` is off in each. */
  predicate SettledScreen(s: Screen) {
    !s.loading &&
    ((s.loginStatus == LoginFailed && s.error == LoginFailed && s.invoices == [])
     || (s.loginStatus == LoginSucceeded && s.error == LoadingFailed && s.invoices == [])
     || (s.loginStatus == LoginSucceeded && s.error == ""))
  }

  /** What every reachable state satisfies: `loading` is on exactly while
      the invoice request is out, and the screen fits the phase. */
  predicate Inv(c: Client) {
    var s := c.screen;
    (s.loading <==> c.phase.Fetching?)
    && (c.phase.LoggingIn? ==> s == Screen("", [], false, ""))
    && (c.phase.Waiting? || c.phase.Fetching? ==>
          s.loginStatus == LoginSucceeded && s.invoices == [] && s.error == "")
    && (c.phase.Fetching? ==> c.phase.request.url == InvoicesUrl(c.customerCode))
    && (c.phase.Settled? ==> SettledScreen(s))
  }

  /** One event. An event the phase does not wait for changes nothing;
      only a successful invoice answer changes the invoices; only the
      timer, after a successful login, sends the invoice request. */
  function Step(c: Client, e: Event): (r: Client)
    ensures r.customerCode == c.customerCode
    ensures !Expects(c.phase, e) ==> r == c
    ensures Inv(c) ==> Inv(r)
    ensures r.screen.invoices != c.screen.invoices ==>
              c.phase.Fetching? && e.InvoicesAnswered? && FetchInvoices(e.invoices).Ok?
    ensures r.phase.Fetching? && !c.phase.Fetching? ==>
              c.phase.Waiting? && e.TimerFired?
              && r.phase.request == InvoicesRequest(c.phase.login, c.customerCode)
  {
    if !Expects(c.phase, e) then c
    else match e
      case LoginAnswered(answer) =>
        (match Login(answer)
         case Err(m) => c.(phase := Settled, screen := c.screen.(loginStatus := LoginFailed, error := m))
         case Ok(data) => c.(phase := Waiting(data), screen := c.screen.(loginStatus := LoginSucceeded)))
      case TimerFired =>
        c.(phase := Fetching(InvoicesRequest(c.phase.login, c.customerCode)), screen := c.screen.(loading := true))
      case InvoicesAnswered(answer) =>
        (match FetchInvoices(answer)
         case Err(m) => c.(phase := Settled, screen := c.screen.(error := m, loading := false))
         case Ok(list) => c.(phase := Settled, screen := c.screen.(invoices := list, loading := false)))
  }

  /** The invoice request an event sends, if any. */
  function Sends(c: Client, e: Event): seq<Request> {
    var r := Step(c, e);
    if r.phase.Fetching? && !c.phase.Fetching? then [r.phase.request] else []
  }

  /** The state after a sequence of events. */
  function Run(c: Client, events: seq<Event>): (r: Client)
    ensures r.customerCode == c.customerCode
    ensures Inv(c) ==> Inv(r)
    decreases |events|
  {
    if events == [] then c else Run(Step(c, events[0]), events[1..])
  }

  /** The invoice requests a sequence of events sends, in order. */
  function Sent(c: Client, events: seq<Event>): seq<Request>
    decreases |events|
  {
    if events == [] then [] else Sends(c, events[0]) + Sent(Step(c, events[0]), events[1..])
  }

  /** A settled cycle stays as it is and sends nothing more. */
  lemma {:induction false} SettledIsFinal(c: Client, events: seq<Event>)
    requires c.phase.Settled?
    ensures Run(c, events) == c
    ensures Sent(c, events) == []
    decreases |events|
  {
    if events != [] {
      SettledIsFinal(Step(c, events[0]), events[1..]);
    }
  }

  /** Once the invoice request is out, no other is sent. */
  lemma {:induction false} FetchingSendsNothing(c: Client, events: seq<Event>)
    requires c.phase.Fetching? || c.phase.Settled?
    ensures Sent(c, events) == []
    decreases |events|
  {
    if events != [] {
      FetchingSendsNothing(Step(c, events[0]), events[1..]);
    }
  }

  /** From the delay, at most the one request built from the login's data. */
  lemma {:induction false} WaitingSendsOne(c: Client, events: seq<Event>)
    requires c.phase.Waiting?
    ensures Sent(c, events) == [] || Sent(c, events) == [InvoicesRequest(c.phase.login, c.customerCode)]
    decreases |events|
  {
    if events != [] {
      var n := Step(c, events[0]);
      if n.phase.Waiting? {
        WaitingSendsOne(n, events[1..]);
      } else {
        FetchingSendsNothing(n, events[1..]);
      }
    }
  }

  /** Event `i` is a successful login answer. */
  predicate LoggedInAt(events: seq<Event>, i: int) {
    0 <= i < |events| && events[i].LoginAnswered? && Login(events[i].login).Ok?
  }

  /** The requests sent are exactly the one built from login answer `i`. */
  predicate SentFor(events: seq<Event>, i: int, customerCode: string, sent: seq<Request>) {
    LoggedInAt(events, i) && sent == [InvoicesRequest(Login(events[i].login).value, customerCode)]
  }

  /** While logging in, one event sends nothing; it either keeps the
      login waiting, or ends the cycle, or starts the delay with the data
      of a successful login answer. */
  lemma LoggingInStep(c: Client, e: Event)
    requires c.phase.LoggingIn?
    ensures Sends(c, e) == []
    ensures Step(c, e).phase.LoggingIn? || Step(c, e).phase.Settled? || Step(c, e).phase.Waiting?
    ensures Step(c, e).phase.Waiting? ==>
              e.LoginAnswered? && Login(e.login).Ok? && Step(c, e).phase.login == Login(e.login).value
  {
  }

  /** While logging in, what is sent is nothing or the one request built
      from some successful login answer. */
  lemma {:induction false} LoggingInSendsAtMostOne(c: Client, events: seq<Event>)
    requires c.phase.LoggingIn?
    ensures Sent(c, events) == [] || exists i :: SentFor(events, i, c.customerCode, Sent(c, events))
    decreases |events|
  {
    if events != [] {
      var n := Step(c, events[0]);
      var rest := events[1..];
      LoggingInStep(c, events[0]);
      assert Sent(c, events) == Sent(n, rest);
      if n.phase.LoggingIn? {
        LoggingInSendsAtMostOne(n, rest);
        if Sent(n, rest) != [] {
          var i :| SentFor(rest, i, c.customerCode, Sent(n, rest));
          assert events[i + 1] == rest[i];
          assert SentFor(events, i + 1, c.customerCode, Sent(c, events));
        }
      } else if n.phase.Waiting? {
        WaitingSendsOne(n, rest);
        if Sent(c, events) != [] {
          assert SentFor(events, 0, c.customerCode, Sent(c, events));
        }
      } else {
        SettledIsFinal(n, rest);
      }
    }
  }

  /** For any order of events, the component sends at most one invoice
      request, and only after a successful login: the customer's URL with
      the `Cookie` header built from that login's session id and cookies. */
  lemma {:induction false} AtMostOneRequest(customerCode: string, events: seq<Event>)
    ensures |Sent(Mount(customerCode), events)| <= 1
    ensures Sent(Mount(customerCode), events) != [] ==>
              exists i :: SentFor(events, i, customerCode, Sent(Mount(customerCode), events))
  {
    LoggingInSendsAtMostOne(Mount(customerCode), events);
  }

  /** A failed login ends the cycle: status and error are both
      `LOGIN FAILED`, nothing is loaded, and no invoice request is ever
      sent, whatever happens afterwards. */
  lemma FailedLoginNeverFetches(customerCode: string, answer: Response<LoginBody>, later: seq<Event>)
    requires !Succeeded(answer)
    ensures Sent(Mount(customerCode), [LoginAnswered(answer)] + later) == []
    ensures Run(Mount(customerCode), [LoginAnswered(answer)] + later).screen == Screen(LoginFailed, [], false, LoginFailed)
  {
    var events := [LoginAnswered(answer)] + later;
    assert events[1..] == later;
    SettledIsFinal(Step(Mount(customerCode), events[0]), later);
  }

  /** In every reachable state `loading` is on exactly while the invoice
      request is out, and every settled state is one of the three
      outcomes, with `loading` off. */
  lemma LoadingOnlyWhileFetching(customerCode: string, events: seq<Event>)
    ensures Run(Mount(customerCode), events).screen.loading <==> Run(Mount(customerCode), events).phase.Fetching?
    ensures Run(Mount(customerCode), events).phase.Settled? ==> SettledScreen(Run(Mount(customerCode), events).screen)
  {
  }

  /** A fetch-phase answer, whatever it is, switches `loading` off; a
      failure sets `LOADING INVOICES FAILED` and leaves the invoices as
      they were, a success stores `value`, or nothing when it is absent. */
  lemma FetchAnswerSettles(c: Client, answer: Response<InvoicesBody>)
    requires c.phase.Fetching?
    ensures !Step(c, InvoicesAnswered(answer)).screen.loading
    ensures !Succeeded(answer) ==>
              Step(c, InvoicesAnswered(answer)).screen == c.screen.(error := LoadingFailed, loading := false)
    ensures Succeeded(answer) ==>
              Step(c, InvoicesAnswered(answer)).screen == c.screen.(invoices := ValueOrEmpty(answer.body.content), loading := false)
  {
  }

  /** The screen the full cycle should end on, written from the two
      answers alone. */
  function Expected(login: Response<LoginBody>, invoices: Response<InvoicesBody>): Screen {
    if !Succeeded(login) then Screen(LoginFailed, [], false, LoginFailed)
    else if !Succeeded(invoices) then Screen(LoginSucceeded, [], false, LoadingFailed)
    else Screen(LoginSucceeded, ValueOrEmpty(invoices.body.content), false, "")
  }

  /** Login answer, delay, invoice answer: the cycle ends on `Expected`,
      and it has sent the request with the login's session cookies exactly
      when the login succeeded. */
  lemma FullCycle(customerCode: string, login: Response<LoginBody>, invoices: Response<InvoicesBody>)
    ensures Run(Mount(customerCode), [LoginAnswered(login), TimerFired, InvoicesAnswered(invoices)]).screen
              == Expected(login, invoices)
    ensures Succeeded(login) ==>
              Sent(Mount(customerCode), [LoginAnswered(login), TimerFired, InvoicesAnswered(invoices)])
              == [Request(InvoicesUrl(customerCode),
                          CookieHeader(login.body.content.sessionId, ExtractSessionCookies(login.setCookie)))]
    ensures !Succeeded(login) ==>
              Sent(Mount(customerCode), [LoginAnswered(login), TimerFired, InvoicesAnswered(invoices)]) == []
  {
    var events := [LoginAnswered(login), TimerFired, InvoicesAnswered(invoices)];
    var c0 := Mount(customerCode);
    var c1 := Step(c0, events[0]);
    var c2 := Step(c1, events[1]);
    var c3 := Step(c2, events[2]);
    assert events[1..] == [TimerFired, InvoicesAnswered(invoices)];
    assert events[1..][1..] == [InvoicesAnswered(invoices)];
    assert events[1..][1..][1..] == [];
    var e1, e2 := events[1..], events[1..][1..];
    assert Run(c0, events) == Run(c1, e1) == Run(c2, e2) == Run(c3, []) == c3;
    assert Sent(c2, e2) == Sends(c2, events[2]);
    assert Sent(c1, e1) == Sends(c1, events[1]) + Sends(c2, events[2]);
    assert Sent(c0, events) == Sends(c0, events[0]) + Sends(c1, events[1]) + Sends(c2, events[2]);
  }
}
