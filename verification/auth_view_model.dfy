/**
  The login screen's view model: a state of three fields and the actions that
  update it. Each action is one serialised step from a state to the states it
  publishes, in order, with the navigation events and the clipboard and
  browser requests it makes. What the collaborators do (the auth repository,
  the clipboard, the browser, the string resources) arrives as parameters.
 */
module AuthViewModel {
  import opened Wrappers
  import opened DeviceFlow
  import opened Strings

  datatype LoginState =
    | LoggedOut
    | DevicePrompt(start: DeviceStart)
    | Pending
    | LoggedIn
    | Error(message: string)

  /** The screen state: the login state, whether the user code was copied, and an info line. */
  datatype AuthState = AuthState(loginState: LoginState, copied: bool, info: string)

  /** The one-shot event the screen reacts to. */
  datatype AuthEvent = NavigateToMain

  /** Requests made of the platform: put the user code on the clipboard, open a URL. */
  datatype Request = CopyToClipboard(text: string) | OpenUrl(url: string)

  /** The localised texts of the two fixed error messages. */
  datatype Texts = Texts(cancelled: string, unknown: string)

  /** What `startLogin` can catch: an exception of the repository, or any other exception. */
  datatype LoginFailure = Raised(failure: Failure) | Thrown(message: Option<string>)

  /**
    How a login attempt went, as the collaborators answered: the device-code
    request failed, or it gave `start`, after which the clipboard copy
    succeeded or not and waiting for the token gave a token or a failure.
   */
  datatype LoginOutcome =
    | StartFailed(failure: LoginFailure)
    | Started(start: DeviceStart, clipboardOk: bool, awaited: Result<TokenSuccess, LoginFailure>)

  datatype Action =
    | TokenChanged(token: Option<string>)
    | StartLogin(outcome: LoginOutcome)
    | CopyCode(start: DeviceStart, clipboardOk: bool)
    | OpenGitHub(start: DeviceStart)
    | MarkLoggedIn
    | MarkLoggedOut
    | OnInfo(message: string)

  /** What one action did: the states published in order, the events sent and the requests made. */
  datatype Step = Step(states: seq<AuthState>, events: seq<AuthEvent>, requests: seq<Request>)

  /** The state after a step: the last one published, or `s` when none was. */
  function After(s: AuthState, step: Step): AuthState {
    if |step.states| == 0 then s else step.states[|step.states| - 1]
  }

  /**
    The login state the token flow maps a token to: logged out for `null` or
    the empty string, logged in otherwise, and then the screen navigates on.
   */
  function OnToken(s: AuthState, token: Option<string>): (r: Step)
    ensures |r.states| == 1
    ensures r.states[0].copied == s.copied && r.states[0].info == s.info
    ensures r.states[0].loginState == LoggedOut <==> token.None? || token.value == ""
    ensures r.states[0].loginState != LoggedOut ==> r.states[0].loginState == LoggedIn
    ensures r.events == [NavigateToMain] <==> r.states[0].loginState == LoggedIn
    ensures r.events == [] <==> r.states[0].loginState == LoggedOut
    ensures r.requests == []
  {
    if token.None? || token.value == "" then Step([s.(loginState := LoggedOut)], [], [])
    else Step([s.(loginState := LoggedIn)], [NavigateToMain], [])
  }

  /**
    The text an error shows: a cancellation shows the fixed "cancelled" text;
    any other exception shows its message, or the "unknown" text without one.
   */
  function FailureText(f: LoginFailure, texts: Texts): (msg: string)
    ensures f.Raised? && f.failure.Cancellation? ==> msg == texts.cancelled
    ensures f.Raised? && !f.failure.Cancellation? ==> msg == f.failure.message
    ensures f.Thrown? ==> msg == f.message.GetOr(texts.unknown)
  {
    match f
    case Raised(Cancellation(_)) => texts.cancelled
    case Raised(e) => e.message
    case Thrown(m) => m.GetOr(texts.unknown)
  }

  /**
    `startLogin()`: show the device prompt with `copied` cleared, try to copy
    the user code, wait for the token, then show logged-in and navigate on;
    any failure shows an error.
   */
  function OnStartLogin(s: AuthState, outcome: LoginOutcome, texts: Texts): (r: Step)
    ensures 1 <= |r.states| <= 4
    // every state published keeps the info line
    ensures forall i :: 0 <= i < |r.states| ==> r.states[i].info == s.info
    // the attempt ends logged in exactly when a token arrived, and only then navigates on
    ensures After(s, r).loginState == LoggedIn <==> outcome.Started? && outcome.awaited.Ok?
    ensures r.events == [NavigateToMain] <==> outcome.Started? && outcome.awaited.Ok?
    ensures r.events == [] <==> !(outcome.Started? && outcome.awaited.Ok?)
    // a failure of the device-code request shows its text at once
    ensures outcome.StartFailed? ==> r.states == [s.(loginState := Error(FailureText(outcome.failure, texts)))]
                                     && r.requests == []
    // with a device code: the prompt comes first, copied only once the clipboard accepted the code
    ensures outcome.Started? ==> && r.states[0] == s.(loginState := DevicePrompt(outcome.start), copied := false)
                                 && r.requests == [CopyToClipboard(outcome.start.userCode)]
                                 && After(s, r).copied == outcome.clipboardOk
                                 && (outcome.awaited.Err? ==>
                                       After(s, r).loginState == Error(FailureText(outcome.awaited.error, texts)))
  {
    match outcome
    case StartFailed(f) => Step([s.(loginState := Error(FailureText(f, texts)))], [], [])
    case Started(start, clipboardOk, awaited) =>
      var prompt := s.(loginState := DevicePrompt(start), copied := false);
      var shown := if clipboardOk then [prompt, prompt.(copied := true)] else [prompt];
      var last := shown[|shown| - 1];
      match awaited
      case Ok(_) => Step(shown + [last.(loginState := LoggedIn)], [NavigateToMain], [CopyToClipboard(start.userCode)])
      case Err(f) => Step(shown + [last.(loginState := Error(FailureText(f, texts)))], [], [CopyToClipboard(start.userCode)])
  }

  /**
    `copyCode(start)`: show the prompt for `start` as copied, then copy the
    code; a clipboard failure clears `copied` again.
   */
  function OnCopyCode(s: AuthState, start: DeviceStart, clipboardOk: bool): (r: Step)
    ensures |r.states| == (if clipboardOk then 1 else 2)
    ensures r.states[0] == AuthState(DevicePrompt(start), true, s.info)
    ensures After(s, r) == AuthState(DevicePrompt(start), clipboardOk, s.info)
    ensures r.requests == [CopyToClipboard(start.userCode)] && r.events == []
  {
    var shown := s.(loginState := DevicePrompt(start), copied := true);
    if clipboardOk then Step([shown], [], [CopyToClipboard(start.userCode)])
    else Step([shown, shown.(copied := false)], [], [CopyToClipboard(start.userCode)])
  }

  /** `openGitHub(start)`: open the complete verification URI when there is one, else the plain one. */
  function OnOpenGitHub(start: DeviceStart): (r: Step)
    ensures r.states == [] && r.events == [] && |r.requests| == 1 && r.requests[0].OpenUrl?
    ensures start.verificationUriComplete.Some? ==> r.requests[0].url == start.verificationUriComplete.value
    ensures start.verificationUriComplete.None? ==> r.requests[0].url == start.verificationUri
  {
    Step([], [], [OpenUrl(start.verificationUriComplete.GetOr(start.verificationUri))])
  }

  /** `onAction`, with the token flow's emissions as one more action. */
  function OnAction(s: AuthState, a: Action, texts: Texts): (r: Step)
    // the three setters change their own field and nothing else
    ensures a.MarkLoggedIn? ==> After(s, r) == s.(loginState := LoggedIn) && r.events == [] && r.requests == []
    ensures a.MarkLoggedOut? ==> After(s, r) == s.(loginState := LoggedOut) && r.events == [] && r.requests == []
    ensures a.OnInfo? ==> After(s, r) == s.(info := a.message) && r.events == [] && r.requests == []
    // opening the browser leaves the state alone
    ensures a.OpenGitHub? ==> After(s, r) == s
    // only a token or a completed login navigates on
    ensures r.events != [] ==> a.TokenChanged? || a.StartLogin?
  {
    match a
    case TokenChanged(token) => OnToken(s, token)
    case StartLogin(outcome) => OnStartLogin(s, outcome, texts)
    case CopyCode(start, ok) => OnCopyCode(s, start, ok)
    case OpenGitHub(start) => OnOpenGitHub(start)
    case MarkLoggedIn => Step([s.(loginState := LoggedIn)], [], [])
    case MarkLoggedOut => Step([s.(loginState := LoggedOut)], [], [])
    case OnInfo(message) => Step([s.(info := message)], [], [])
  }

  /** After `logout()` the token flow emits `null`, which the screen shows as logged out. */
  lemma LogoutShowsLoggedOut(s: AuthState, store: Option<TokenSuccess>, texts: Texts)
    ensures var r := OnAction(s, TokenChanged(AccessToken(Logout(store))), texts);
            After(s, r).loginState == LoggedOut && r.events == []
  {
  }

  /** A saved token shows as logged in as soon as the token flow emits it, unless it is empty. */
  lemma SavedTokenShowsLoggedIn(s: AuthState, token: TokenSuccess, texts: Texts)
    requires token.accessToken != ""
    ensures var r := OnAction(s, TokenChanged(AccessToken(Some(token))), texts);
            After(s, r).loginState == LoggedIn && r.events == [NavigateToMain]
  {
  }

  /** A blank client id makes the device-code request fail, and the screen shows why. */
  lemma BlankClientIdShowsError(s: AuthState, clientId: string, scope: string, texts: Texts)
    requires IsBlank(clientId)
    ensures var f := StartDeviceFlow(clientId, DefaultScope, scope).error;
            var r := OnStartLogin(s, StartFailed(Raised(f)), texts);
            After(s, r).loginState == Error(MissingClientIdMessage)
  {
  }

  /**
    When the user keeps the code unconfirmed until it expires (every poll
    answers `authorization_pending`), the attempt ends with the "cancelled"
    text, without navigating on.
   */
  lemma ExpiryShowsCancelled(s: AuthState, start: DeviceStart, respond: nat -> PollResponse,
                             store: Option<TokenSuccess>, clipboardOk: bool, texts: Texts)
    requires AllPending(respond)
    ensures var attempt := AwaitDeviceToken(start, respond, store);
            var awaited := if attempt.result.Ok? then Ok(attempt.result.value) else Err(Raised(attempt.result.error));
            var r := OnStartLogin(s, Started(start, clipboardOk, awaited), texts);
            After(s, r).loginState == Error(texts.cancelled) && r.events == []
  {
    AwaitAllPending(start, respond, store);
  }

  /** A denial ends the attempt with the "cancelled" text too. */
  lemma DenialShowsCancelled(s: AuthState, start: DeviceStart, respond: nat -> PollResponse,
                             store: Option<TokenSuccess>, clipboardOk: bool, texts: Texts)
    requires start.expiresInSec > 0
    requires Classify(respond(0)) == Denied
    ensures var attempt := AwaitDeviceToken(start, respond, store);
            var awaited := if attempt.result.Ok? then Ok(attempt.result.value) else Err(Raised(attempt.result.error));
            var r := OnStartLogin(s, Started(start, clipboardOk, awaited), texts);
            After(s, r).loginState == Error(texts.cancelled) && r.events == []
  {
    AwaitWaits(start, respond, store);
    AwaitEnding(start, respond, store);
  }
}
