/** HttpClient: one request with its retries, redirects and proxy authentication.

    `Complete` says what the client does when a connection attempt, a send or a receive ends; the network and the
    server choose how it ends. Looking up a host name is part of a connection attempt. */
module HttpClient {
  import opened CText
  import opened HttpParsing
  import opened HttpAttributes
  import Url

  const MAX_REDIRECTS: nat := 5

  const HC_SEE_OTHER: nat := 303
  const HC_PROXY_AUTHENTICATION_REQUIRED: nat := 407
  const HC_INTERNAL_SERVER_ERROR: nat := 500

  datatype Verb = Get | Post | Put | Delete | ConnectVerb | Head
  datatype RedirectAction = RedirectDefault | RedirectAlways | RedirectNever

  /** HttpMode: nothing under way, connecting, sending, receiving. */
  datatype Mode = Idle | Connecting | Sending | Receiving

  /** ToString(HttpVerb). */
  function VerbText(v: Verb): string {
    match v
    case Get => "GET"
    case Post => "POST"
    case Put => "PUT"
    case Delete => "DELETE"
    case ConnectVerb => "CONNECT"
    case Head => "HEAD"
  }

  /** The settings of a client: `retries_`, `redirect_action_`, and its proxy. */
  datatype Setup = Setup(retries: nat, action: RedirectAction, proxyHttps: bool, username: string, password: string)

  /** The response so far: status, Location, and the Proxy-Authenticate headers. */
  datatype Response = Response(scode: nat, location: Option<string>, challenges: seq<string>)

  const CLEARED := Response(HC_INTERNAL_SERVER_ERROR, None, [])

  /** `context` is the authentication scheme under way; `connects` counts connection attempts. */
  datatype View = View(mode: Mode, attempt: nat, redirects: nat, context: Option<string>, verb: Verb, hasDocument: bool,
                       response: Response, finished: Option<HttpError>, connects: nat)

  /** How an operation ends: the response as it is then (only a receive changes it), the error, and whether the
      request document could be rewound. */
  datatype Ending = Ending(err: HttpError, response: Response, rewinds: bool)

  // The client as a function

  predicate IsRedirection(code: nat) { code / 100 == 3 }

  predicate IsInformational(code: nat) { code / 100 == 1 }

  /** Errors that mean that the connection failed, not the exchange. */
  predicate LostConnection(err: HttpError) {
    err == Disconnected || err == ConnectFailed || err == SocketError
  }

  predicate Redirects(s: Setup, v: View) {
    s.action != RedirectNever && IsRedirection(v.response.scode) && v.response.location.Some?
    && v.redirects < MAX_REDIRECTS
    && (s.action == RedirectAlways || v.response.scode == HC_SEE_OTHER || v.verb == Head || v.verb == Get)
  }

  function Connected(v: View): View {
    v.(mode := Connecting, connects := v.connects + 1)
  }

  function Started(v: View): View {
    Connected(v.(attempt := 0))
  }

  function Done(v: View, err: HttpError): View {
    v.(mode := Idle, finished := Some(err))
  }

  function Redirected(v: View, rewinds: bool): View {
    var seeOther := v.response.scode == HC_SEE_OTHER;
    if !seeOther && v.hasDocument && !rewinds then Done(v, Stream)
    else
      var w := if seeOther then v.(verb := Get, hasDocument := false) else v;
      Started(w.(redirects := v.redirects + 1, context := None, response := CLEARED))
  }

  /** The challenges from the k-th on; `scheme` is the last scheme named, `err` the error so far. */
  function Challenged(s: Setup, v: View, k: nat, scheme: string, err: HttpError, rewinds: bool): View
    decreases |v.response.challenges| - k
  {
    if k >= |v.response.challenges| then Done(v, err)
    else
      var d := Decide(v.response.challenges[k], v.context, scheme, s.username);
      var w := v.(context := d.context);
      match d.result
      case HarResponse =>
        if v.hasDocument && !rewinds then Challenged(s, w, k + 1, d.scheme, Stream, rewinds)
        else Started(w.(response := CLEARED))
      case HarIgnore => Challenged(s, w, k + 1, d.scheme, err, rewinds)
      case HarCredentials => Done(w, err)
  }

  /** onHttpComplete. */
  function Complete(s: Setup, v: View, e: Ending): View {
    if LostConnection(e.err) && v.response.scode == HC_INTERNAL_SERVER_ERROR && v.attempt < s.retries then
      var w := v.(attempt := v.attempt + 1);
      if v.hasDocument && !e.rewinds then Done(w, Stream) else Connected(w)
    else if e.err != NoError then Done(v, e.err)
    else if v.mode == Connecting then v.(mode := Sending)
    else if v.mode == Sending || IsInformational(v.response.scode) then v.(mode := Receiving)
    else if Redirects(s, v) then Redirected(v, e.rewinds)
    else if v.response.scode == HC_PROXY_AUTHENTICATION_REQUIRED && s.proxyHttps then
      Challenged(s, v, 0, "", NoError, e.rewinds)
    else Done(v, NoError)
  }

  /** Only a receive changes the response. */
  function Received(v: View, e: Ending): View {
    if v.mode == Receiving then v.(response := e.response) else v
  }

  /** What happens next: nothing, once the client has reported completion. */
  function Step(s: Setup, v: View, e: Ending): View {
    if v.mode == Idle then v else Complete(s, Received(v, e), e)
  }

  function Run(s: Setup, v: View, endings: seq<Ending>): View
    decreases |endings|
  {
    if endings == [] then v else Run(s, Step(s, v, endings[0]), endings[1..])
  }

  /** A request that was prepared: reset() has been called, and the server and the request have been set. */
  predicate Prepared(v: View) {
    v.mode == Idle && v.redirects == 0 && v.context == None && v.connects == 0 && v.finished == None
    && v.response == CLEARED
  }

  // Connection attempts are bounded

  /** Whatever the network and the server do, in units of connection attempts. */
  function AttemptsLeft(s: Setup, v: View): int {
    (MAX_REDIRECTS - v.redirects) * 2 * (s.retries + 1) + (if v.context.None? then s.retries + 1 else 0)
    + (s.retries - v.attempt)
  }

  function MaxConnects(s: Setup): nat {
    (MAX_REDIRECTS + 1) * 2 * (s.retries + 1)
  }

  predicate InBounds(s: Setup, v: View) {
    v.redirects <= MAX_REDIRECTS && v.attempt <= s.retries && v.connects + AttemptsLeft(s, v) <= MaxConnects(s)
  }

  lemma {:induction false} StartIsInBounds(s: Setup, v: View)
    requires Prepared(v)
    ensures InBounds(s, Started(v))
  {
  }

  lemma {:induction false} RedirectedInBounds(s: Setup, v: View, rewinds: bool)
    requires InBounds(s, v) && v.redirects < MAX_REDIRECTS
    ensures InBounds(s, Redirected(v, rewinds))
  {
    var n := s.retries + 1;
    assert (MAX_REDIRECTS - v.redirects) * 2 * n == (MAX_REDIRECTS - (v.redirects + 1)) * 2 * n + 2 * n;
  }

  /** A scheme is tried at most once: only without a context is there an answer. */
  lemma {:induction false} OneTry(challenge: string, context: Option<string>, before: string, username: string)
    ensures var d := Decide(challenge, context, before, username);
            if d.result.HarResponse? then context.None? && d.context.Some? else d.context == context
  {
    hide HttpAttributes.Parse, NamesScheme;
  }

  lemma {:induction false} AnswerInBounds(s: Setup, v: View, scheme: string)
    requires InBounds(s, v) && v.context.None?
    ensures var w := v.(context := Some(scheme)); InBounds(s, w) && InBounds(s, Started(w.(response := CLEARED)))
  {
  }

  lemma {:induction false} ChallengedInBounds(s: Setup, v: View, k: nat, scheme: string, err: HttpError, rewinds: bool)
    requires InBounds(s, v)
    ensures InBounds(s, Challenged(s, v, k, scheme, err, rewinds))
    decreases |v.response.challenges| - k
  {
    assert InBounds(s, Done(v, err));
    hide InBounds, Decide;
    if k < |v.response.challenges| {
      var d := Decide(v.response.challenges[k], v.context, scheme, s.username);
      OneTry(v.response.challenges[k], v.context, scheme, s.username);
      if d.result.HarResponse? {
        AnswerInBounds(s, v, d.context.value);
        ChallengedInBounds(s, v.(context := d.context), k + 1, d.scheme, Stream, rewinds);
      } else {
        assert v.(context := d.context) == v;
        ChallengedInBounds(s, v, k + 1, d.scheme, err, rewinds);
      }
    }
  }

  lemma {:induction false} StepInBounds(s: Setup, v: View, e: Ending)
    requires InBounds(s, v)
    ensures InBounds(s, Step(s, v, e))
  {
    hide Challenged, Redirected;
    var w := Received(v, e);
    if Redirects(s, w) {
      RedirectedInBounds(s, w, e.rewinds);
    }
    ChallengedInBounds(s, w, 0, "", NoError, e.rewinds);
  }

  lemma {:induction false} RunInBounds(s: Setup, v: View, endings: seq<Ending>)
    requires InBounds(s, v)
    ensures InBounds(s, Run(s, v, endings))
    decreases |endings|
  {
    hide InBounds, Step;
    if endings != [] {
      StepInBounds(s, v, endings[0]);
      RunInBounds(s, Step(s, v, endings[0]), endings[1..]);
    }
  }

  /** However every operation ends, and whatever the responses say, one request makes at most
      (kMaxRedirects + 1) * 2 * (retries + 1) connection attempts, and follows at most five redirects. */
  lemma {:induction false} ConnectsAreBounded(s: Setup, v: View, endings: seq<Ending>)
    requires Prepared(v)
    ensures Run(s, Started(v), endings).connects <= 12 * (s.retries + 1)
    ensures Run(s, Started(v), endings).redirects <= 5
  {
    StartIsInBounds(s, v);
    RunInBounds(s, Started(v), endings);
    var w := Run(s, Started(v), endings);
    assert (MAX_REDIRECTS - w.redirects) * 2 * (s.retries + 1) >= 0;
  }

  // The bound is exact

  lemma {:induction false} RunConcat(s: Setup, v: View, a: seq<Ending>, b: seq<Ending>)
    ensures Run(s, v, a + b) == Run(s, Run(s, v, a), b)
    decreases |a|
  {
    if a == [] {
      assert a + b == b;
    } else {
      assert (a + b)[1..] == a[1..] + b;
      RunConcat(s, Step(s, v, a[0]), a[1..], b);
    }
  }

  const REFUSED := Ending(ConnectFailed, CLEARED, true)
  const FINE := Ending(NoError, CLEARED, true)

  /** `n` refused connections. */
  function Refusals(n: nat): (r: seq<Ending>)
    ensures |r| == n
  {
    if n == 0 then [] else [REFUSED] + Refusals(n - 1)
  }

  /** Refusals until the last retry, then an exchange with the given response. */
  function Hop(s: Setup, response: Response): seq<Ending> {
    Refusals(s.retries) + [FINE, FINE, Ending(NoError, response, true)]
  }

  const MOVED := Response(HC_SEE_OTHER, Some("http://h/"), [])
  const CHALLENGE := Response(HC_PROXY_AUTHENTICATION_REQUIRED, None, ["basic"])

  /** A challenge, then a redirect, `n` times; then a challenge and refusals. */
  function WorstRun(s: Setup, n: nat): seq<Ending> {
    Hop(s, CHALLENGE) + if n == 0 then Refusals(s.retries) else Hop(s, MOVED) + WorstRun(s, n - 1)
  }

  lemma {:induction false} RefusalsRetry(s: Setup, v: View, n: nat)
    requires v.mode == Connecting && v.response == CLEARED && v.attempt + n <= s.retries
    ensures Run(s, v, Refusals(n)) == v.(attempt := v.attempt + n, connects := v.connects + n)
    decreases n
  {
    if n > 0 {
      var r := Refusals(n);
      assert r[0] == REFUSED && r[1..] == Refusals(n - 1);
      RefusalsRetry(s, Step(s, v, REFUSED), n - 1);
    }
  }

  lemma {:induction false} Exchange(s: Setup, v: View, response: Response)
    requires v.mode == Connecting
    ensures Run(s, v, [FINE, FINE, Ending(NoError, response, true)])
            == Complete(s, v.(mode := Receiving, response := response), Ending(NoError, response, true))
  {
    hide Challenged, Redirected, Redirects;
    var last := Ending(NoError, response, true);
    var a, b := v.(mode := Sending), v.(mode := Receiving);
    assert Step(s, v, FINE) == a && Step(s, a, FINE) == b;
    assert [FINE, FINE, last][1..] == [FINE, last] && [FINE, last][1..] == [last];
    assert Run(s, v, [FINE, FINE, last]) == Run(s, b, [last]);
    assert [last][1..] == [];
    assert Run(s, b, [last]) == Step(s, b, last);
  }

  lemma {:induction false} HopRun(s: Setup, v: View, response: Response)
    requires v.mode == Connecting && v.response == CLEARED && v.attempt == 0
    ensures var w := v.(attempt := s.retries, connects := v.connects + s.retries, mode := Receiving,
                        response := response);
            Run(s, v, Hop(s, response)) == Complete(s, w, Ending(NoError, response, true))
  {
    hide Complete, Refusals;
    RefusalsRetry(s, v, s.retries);
    RunConcat(s, v, Refusals(s.retries), [FINE, FINE, Ending(NoError, response, true)]);
    Exchange(s, v.(attempt := s.retries, connects := v.connects + s.retries), response);
  }

  lemma {:induction false} BasicIsAccepted(s: Setup)
    requires s.username != ""
    ensures Decide("basic", None, "", s.username) == AuthDecision(HarResponse, Some("basic"), "basic")
  {
    assert "basic"[5..] == "";
    NameReadsBack("basic", "");
    assert "basic" + "" == "basic";
    ParseAtName("basic");
  }

  /** The state of a hop that is about to make its first attempt. */
  predicate AtHop(v: View) {
    v.mode == Connecting && v.response == CLEARED && v.attempt == 0
  }

  lemma {:induction false} ChallengeHop(s: Setup, v: View)
    requires s.proxyHttps && s.username != "" && AtHop(v) && v.context == None
    ensures Run(s, v, Hop(s, CHALLENGE)) == v.(context := Some("basic"), connects := v.connects + s.retries + 1)
  {
    hide Hop, Decide;
    HopRun(s, v, CHALLENGE);
    BasicIsAccepted(s);
  }

  lemma {:induction false} MovedHop(s: Setup, v: View)
    requires s.action != RedirectNever && AtHop(v) && v.redirects < MAX_REDIRECTS
    ensures Run(s, v, Hop(s, MOVED)) == v.(context := None, connects := v.connects + s.retries + 1,
                                          redirects := v.redirects + 1, verb := Get, hasDocument := false)
  {
    hide Hop, Challenged;
    HopRun(s, v, MOVED);
  }

  lemma {:induction false} WorstRunConnects(s: Setup, v: View, n: nat)
    requires s.proxyHttps && s.username != "" && s.action != RedirectNever
    requires AtHop(v) && v.context == None && v.redirects + n == MAX_REDIRECTS
    ensures Run(s, v, WorstRun(s, n)).connects == v.connects - 1 + (n + 1) * 2 * (s.retries + 1)
    decreases n
  {
    hide Hop, Refusals, Run;
    var r := s.retries;
    ChallengeHop(s, v);
    var a := v.(context := Some("basic"), connects := v.connects + r + 1);
    if n == 0 {
      RunConcat(s, v, Hop(s, CHALLENGE), Refusals(r));
      RefusalsRetry(s, a, r);
    } else {
      RunConcat(s, v, Hop(s, CHALLENGE), Hop(s, MOVED) + WorstRun(s, n - 1));
      MovedHop(s, a);
      RunConcat(s, a, Hop(s, MOVED), WorstRun(s, n - 1));
      WorstRunConnects(s, Run(s, a, Hop(s, MOVED)), n - 1);
      assert (n + 1) * 2 * (r + 1) == n * 2 * (r + 1) + 2 * (r + 1);
    }
  }

  /** The bound is exact for every client that follows redirects and has credentials for its proxy. */
  lemma {:induction false} BoundIsReached(s: Setup, v: View)
    requires s.proxyHttps && s.username != "" && s.action != RedirectNever && Prepared(v)
    ensures exists endings: seq<Ending> :: Run(s, Started(v), endings).connects == 12 * (s.retries + 1)
  {
    WorstRunConnects(s, Started(v), MAX_REDIRECTS);
  }

  // What a run means

  /** With default redirection a request that is neither GET nor HEAD is sent to its own server only: following a
      redirect has turned it into a GET without a document. */
  predicate StaysHome(v0: View, v: View) {
    (v.redirects == 0 && v.verb == v0.verb && v.hasDocument == v0.hasDocument) || (v.verb == Get && !v.hasDocument)
  }

  lemma {:induction false} ChallengedKeepsRequest(s: Setup, v: View, k: nat, scheme: string, err: HttpError,
                                                  rewinds: bool)
    ensures var w := Challenged(s, v, k, scheme, err, rewinds);
            w.redirects == v.redirects && w.verb == v.verb && w.hasDocument == v.hasDocument
    decreases |v.response.challenges| - k
  {
    hide Decide;
    if k < |v.response.challenges| {
      var d := Decide(v.response.challenges[k], v.context, scheme, s.username);
      var w := v.(context := d.context);
      ChallengedKeepsRequest(s, w, k + 1, d.scheme, if d.result.HarResponse? then Stream else err, rewinds);
    }
  }

  lemma {:induction false} StepStaysHome(s: Setup, v0: View, v: View, e: Ending)
    requires s.action == RedirectDefault && v0.verb != Get && v0.verb != Head && StaysHome(v0, v)
    ensures StaysHome(v0, Step(s, v, e))
  {
    hide Challenged;
    ChallengedKeepsRequest(s, Received(v, e), 0, "", NoError, e.rewinds);
  }

  lemma {:induction false} DocumentStaysHome(s: Setup, v0: View, v: View, endings: seq<Ending>)
    requires s.action == RedirectDefault && v0.verb != Get && v0.verb != Head && StaysHome(v0, v)
    ensures StaysHome(v0, Run(s, v, endings))
    decreases |endings|
  {
    hide Step;
    if endings != [] {
      StepStaysHome(s, v0, v, endings[0]);
      DocumentStaysHome(s, v0, Step(s, v, endings[0]), endings[1..]);
    }
  }

  /** Challenges that end without an error have not been answered: no scheme was taken up. */
  lemma {:induction false} ChallengedEnds(s: Setup, v: View, k: nat, scheme: string, err: HttpError, rewinds: bool)
    requires v.finished == None
    ensures var w := Challenged(s, v, k, scheme, err, rewinds);
            w.finished == Some(NoError) ==> err == NoError && w.context == v.context
    decreases |v.response.challenges| - k
  {
    hide Decide;
    if k < |v.response.challenges| {
      var d := Decide(v.response.challenges[k], v.context, scheme, s.username);
      OneTry(v.response.challenges[k], v.context, scheme, s.username);
      var w := v.(context := d.context);
      ChallengedEnds(s, w, k + 1, d.scheme, if d.result.HarResponse? then Stream else err, rewinds);
    }
  }

  /** A run that ends without an error has received a final response: not an informational one, not a redirect
      that could be followed, and not a proxy challenge that was taken up. */
  lemma {:induction false} SuccessIsFinal(s: Setup, v: View, e: Ending)
    requires v.mode != Idle && v.finished == None && Step(s, v, e).finished == Some(NoError)
    ensures v.mode == Receiving && e.err == NoError && !IsInformational(e.response.scode)
    ensures !Redirects(s, v.(response := e.response))
    ensures Step(s, v, e).context == v.context
  {
    hide Challenged;
    ChallengedEnds(s, v.(response := e.response), 0, "", NoError, e.rewinds);
  }

  // When what happens

  const FRESH := Response(500, None, [])

  /** A lost connection is tried again, as long as nothing has been received and attempts are left; any other error, and
      a document that cannot be sent again, ends the request. */
  lemma {:induction false} WhenErrors(s: Setup, v: View, e: Ending)
    requires v.mode != Idle
    ensures var w := if v.mode == Receiving then v.(response := e.response) else v;
            var again := e.err in [Disconnected, ConnectFailed, SocketError] && w.response.scode == 500
                         && v.attempt < s.retries;
            && (again && (!v.hasDocument || e.rewinds) ==>
                  Step(s, v, e) == w.(mode := Connecting, attempt := v.attempt + 1, connects := v.connects + 1))
            && (again && v.hasDocument && !e.rewinds ==>
                  Step(s, v, e) == w.(mode := Idle, attempt := v.attempt + 1, finished := Some(Stream)))
            && (!again && e.err != NoError ==> Step(s, v, e) == w.(mode := Idle, finished := Some(e.err)))
  {
    hide Challenged, Redirected, Redirects;
  }

  /** After connecting comes sending, after sending receiving, and after a response of the 100s another one. */
  lemma {:induction false} WhenNoErrors(s: Setup, v: View, e: Ending)
    requires e.err == NoError
    ensures v.mode == Connecting ==> Step(s, v, e) == v.(mode := Sending)
    ensures v.mode == Sending ==> Step(s, v, e) == v.(mode := Receiving)
    ensures v.mode == Receiving && 100 <= e.response.scode < 200 ==> Step(s, v, e) == v.(response := e.response)
  {
    hide Challenged, Redirected, Redirects;
  }

  /** When a redirect may be followed: not by a client that never does, not more than five times, and a request that is
      neither GET nor HEAD only for See Other, unless the client always does. */
  predicate MayFollow(s: Setup, v: View, r: Response) {
    && 300 <= r.scode < 400 && r.location.Some? && v.redirects < 5
    && (s.action == RedirectAlways
        || (s.action == RedirectDefault && (r.scode == 303 || v.verb == Get || v.verb == Head)))
  }

  /** What a final response leads to, except for a challenge by the proxy: the next request, or the end. */
  lemma {:induction false} WhenReceived(s: Setup, v: View, e: Ending)
    requires v.mode == Receiving && e.err == NoError && !(100 <= e.response.scode < 200)
    ensures var r := e.response;
            var next := v.(mode := Connecting, connects := v.connects + 1, attempt := 0, redirects := v.redirects + 1,
                           context := None, response := FRESH);
            var end := v.(mode := Idle, response := r);
            && (MayFollow(s, v, r) && r.scode == 303 ==>
                  Step(s, v, e) == next.(verb := Get, hasDocument := false))
            && (MayFollow(s, v, r) && r.scode != 303 && (!v.hasDocument || e.rewinds) ==> Step(s, v, e) == next)
            && (MayFollow(s, v, r) && r.scode != 303 && v.hasDocument && !e.rewinds ==>
                  Step(s, v, e) == end.(finished := Some(Stream)))
            && (!MayFollow(s, v, r) && !(r.scode == 407 && s.proxyHttps) ==>
                  Step(s, v, e) == end.(finished := Some(NoError)))
  {
    hide Challenged;
  }

  /** A challenge that names a scheme of its own, which is neither Basic nor Digest. */
  predicate Ignored(challenge: string) {
    var name := Named(challenge, ""); name != "" && '\0' !in name && !Known(name)
  }

  predicate IgnoredBefore(challenges: seq<string>, k: nat)
    requires k <= |challenges|
  {
    forall j | 0 <= j < k :: Ignored(challenges[j])
  }

  lemma {:induction false} SkipIgnored(s: Setup, v: View, j: nat, k: nat, scheme: string, rewinds: bool)
    returns (before: string)
    requires j <= k <= |v.response.challenges| && IgnoredBefore(v.response.challenges, k)
    ensures Challenged(s, v, j, scheme, NoError, rewinds) == Challenged(s, v, k, before, NoError, rewinds)
    decreases k - j
  {
    hide *;
    before := scheme;
    if j < k {
      IgnoredAt(v.response.challenges, k, j);
      SkipOne(s, v, j, scheme, rewinds);
      before := SkipIgnored(s, v, j + 1, k, Named(v.response.challenges[j], scheme), rewinds);
    }
  }

  lemma {:induction false} IgnoredAt(challenges: seq<string>, k: nat, j: nat)
    requires j < k <= |challenges| && IgnoredBefore(challenges, k)
    ensures Ignored(challenges[j])
  {
  }

  lemma {:induction false} SkipOne(s: Setup, v: View, j: nat, scheme: string, rewinds: bool)
    requires j < |v.response.challenges| && Ignored(v.response.challenges[j])
    ensures Challenged(s, v, j, scheme, NoError, rewinds)
            == Challenged(s, v, j + 1, Named(v.response.challenges[j], scheme), NoError, rewinds)
  {
    hide Decide, Known, Named, Done, Started;
    var c := v.response.challenges[j];
    NameOfOwn(c, scheme);
    DecideMeans(c, v.context, scheme, s.username);
    assert v.(context := v.context) == v;
  }

  /** A challenge with a name of its own does not depend on the one before it. */
  lemma {:induction false} NameOfOwn(challenge: string, before: string)
    requires Named(challenge, "") != ""
    ensures Named(challenge, before) == Named(challenge, "")
  {
  }

  /** A proxy's challenge is answered by the first of its schemes that is Basic or Digest, if none was tried and there
      is a user; with no such scheme the request ends without an error, and with a user missing too. */
  lemma {:induction false} WhenChallenged(s: Setup, v: View, e: Ending, k: nat)
    requires v.mode == Receiving && e.err == NoError && e.response.scode == 407 && s.proxyHttps && v.context.None?
    requires k <= |e.response.challenges| && IgnoredBefore(e.response.challenges, k)
    requires k < |e.response.challenges| ==> Known(Named(e.response.challenges[k], ""))
    ensures var end := v.(mode := Idle, response := e.response, finished := Some(NoError));
            if k == |e.response.challenges| || s.username == "" then Step(s, v, e) == end
            else !v.hasDocument || e.rewinds ==>
              Step(s, v, e) == v.(mode := Connecting, connects := v.connects + 1, attempt := 0, response := FRESH,
                                  context := Some(Named(e.response.challenges[k], "")))
  {
    hide Decide, Known, HttpAttributes.Parse;
    var w := v.(response := e.response);
    var before := SkipIgnored(s, w, 0, k, "", e.rewinds);
    if k < |e.response.challenges| {
      var c := e.response.challenges[k];
      KnownIsName(Named(c, ""));
      NameOfOwn(c, before);
      DecideMeans(c, v.context, before, s.username);
    }
  }

  lemma {:induction false} KnownIsName(scheme: string)
    requires Known(scheme)
    ensures scheme != "" && '\0' !in scheme
  {
  }

  // The client at work

  class HttpClient {
    const setup: Setup
    const md5: Md5
    var mode: Mode
    var attempt: nat
    var redirects: nat
    var context: Option<string>
    var verb: Verb
    var serverHost: string
    var serverPort: nat
    var path: string
    var hasDocument: bool
    var response: Response
    /** The Proxy-Authorization header of the request. */
    var authorization: string
    var finished: Option<HttpError>
    ghost var connects: nat

    ghost function Client(): View
      reads this
    {
      View(mode, attempt, redirects, context, verb, hasDocument, response, finished, connects)
    }

    /** A client whose request has been prepared. */
    constructor (setup: Setup, md5: Md5, verb: Verb, url: string, hasDocument: bool)
      ensures Prepared(Client()) && this.setup == setup && this.md5 == md5
      ensures this.verb == verb && this.hasDocument == hasDocument
      ensures Addresses(url)
    {
      hide Url.Parse, Addresses;
      this.setup, this.md5 := setup, md5;
      this.verb, this.hasDocument := verb, hasDocument;
      mode, attempt, redirects, context, response := Idle, 0, 0, None, CLEARED;
      authorization, finished, connects := "", None, 0;
      new;
      SetUrl(url);
    }

    /** The request is for this URL. */
    ghost predicate Addresses(url: string)
      reads this`serverHost, this`serverPort, this`path
    {
      var u := Url.Parse(Url.EMPTY, url);
      serverHost == u.host && serverPort == u.port && path == u.path + u.query
    }

    method SetUrl(url: string)
      modifies this`serverHost, this`serverPort, this`path
      ensures Addresses(url)
    {
      hide Url.Parse;
      var purl := new Url.Url(url);
      serverHost, serverPort := purl.host, purl.port;
      path := purl.DoGetFullPath();
    }

    /** Asks the pool for a stream, after a name lookup if need be. */
    method Connect()
      modifies this`connects, this`mode
      ensures Client() == Connected(old(Client()))
    {
      connects := connects + 1;
      mode := Connecting;
    }

    method Start()
      modifies this`attempt, this`connects, this`mode
      ensures Client() == Started(old(Client()))
    {
      attempt := 0;
      Connect();
    }

    method Report(err: HttpError)
      modifies this`mode, this`finished
      ensures Client() == Done(old(Client()), err)
    {
      mode := Idle;
      finished := Some(err);
    }

    method ShouldRedirect() returns (location: Option<string>)
      ensures location.Some? == Redirects(setup, Client())
      ensures location.Some? ==> location == response.location
    {
      if setup.action == RedirectNever || !IsRedirection(response.scode) || response.location.None?
         || redirects >= MAX_REDIRECTS {
        return None;
      }
      if setup.action == RedirectAlways || response.scode == HC_SEE_OTHER || verb == Head || verb == Get {
        return response.location;
      }
      return None;
    }

    /** onHttpComplete for the operation under way. */
    method OnHttpComplete(e: Ending)
      requires mode != Idle
      modifies this
      ensures Client() == Step(setup, old(Client()), e)
      ensures redirects > old(redirects) ==> e.response.location.Some? && Addresses(e.response.location.value)
    {
      hide Challenged, Redirects, Redirected, Addresses;
      var err := e.err;
      if mode == Receiving {
        response := e.response;
      }
      if LostConnection(err) && response.scode == HC_INTERNAL_SERVER_ERROR && attempt < setup.retries {
        attempt := attempt + 1;
        if hasDocument && !e.rewinds {
          err := Stream;
        } else {
          Connect();
          return;
        }
      } else if err != NoError {
      } else if mode == Connecting {
        mode := Sending;
        return;
      } else if mode == Sending || IsInformational(response.scode) {
        mode := Receiving;
        return;
      } else {
        var location := ShouldRedirect();
        if location.Some? {
          FollowRedirect(location.value, e.rewinds);
          return;
        } else if response.scode == HC_PROXY_AUTHENTICATION_REQUIRED && setup.proxyHttps {
          AnswerChallenges(e.rewinds);
          return;
        }
      }
      Report(err);
    }

    method FollowRedirect(location: string, rewinds: bool)
      modifies this
      ensures Client() == Redirected(old(Client()), rewinds)
      ensures Addresses(location)
    {
      hide Addresses;
      SetUrl(location);
      if response.scode == HC_SEE_OTHER {
        verb := Get;
        hasDocument := false;
      } else if hasDocument && !rewinds {
        Report(Stream);
        return;
      }
      redirects := redirects + 1;
      context := None;
      response := CLEARED;
      Start();
    }

    /** HttpAuthenticate for this request; the time is whatever it is. */
    method Authenticate(challenge: string, scheme: string) returns (d: AuthDecision, text: string)
      ensures d == Decide(challenge, context, scheme, setup.username)
    {
      hide *;
      var clock: string := *;
      d, text := HttpAuthenticate(challenge, VerbText(verb), path, setup.username, setup.password, context, scheme, md5,
                                  clock);
    }

    method AnswerChallenges(rewinds: bool)
      modifies this`mode, this`attempt, this`context, this`response, this`authorization, this`finished, this`connects
      ensures Client() == Challenged(setup, old(Client()), 0, "", NoError, rewinds)
    {
      hide Decide, Done, Started;
      var err, scheme := NoError, "";
      ghost var whole := Challenged(setup, Client(), 0, scheme, err, rewinds);
      var k := 0;
      while k < |response.challenges|
        invariant k <= |response.challenges|
        invariant Challenged(setup, Client(), k, scheme, err, rewinds) == whole
        decreases |response.challenges| - k
      {
        var d, text := Authenticate(response.challenges[k], scheme);
        context, scheme := d.context, d.scheme;
        match d.result {
          case HarResponse =>
            authorization := text;
            if hasDocument && !rewinds {
              err := Stream;
            } else {
              response := CLEARED;
              Start();
              return;
            }
          case HarIgnore =>
          case HarCredentials =>
            Report(err);
            return;
        }
        k := k + 1;
      }
      Report(err);
    }
  }
}
