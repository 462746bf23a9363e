/**
  The client side of the OAuth 2.0 Device Authorization Grant (section 3.5 of
  RFC 8628) as the auth repository runs it: start the flow with the client id
  and a scope, then poll the token endpoint until a token arrives, the user
  refuses, the server reports the code expired, or the time budget runs out.

  The token endpoint is a parameter: `respond(i)` is the answer to the i-th
  poll. `delay` is not modelled; the budget arithmetic is.
 */
module DeviceFlow {
  import opened Wrappers
  import opened Strings

  const DefaultScope: string := "read:user repo"
  /** The code widens the interval by 2000 ms on `slow_down` (RFC 8628 asks for 5 s). */
  const SlowDownStepMs: int := 2000
  const ExpiredMessage: string := "Device code expired"
  const DeniedMessage: string := "User denied access"
  const UnexpectedPrefix: string := "Unexpected error: "
  const MissingClientIdMessage: string :=
    "Missing GitHub CLIENT_ID. Add GITHUB_CLIENT_ID to local.properties (Android/Desktop) or env (iOS)."

  /** The exceptions the repository throws, by the Kotlin class that carries them. */
  datatype Failure =
    | Cancellation(message: string)     // kotlinx.coroutines.CancellationException
    | IllegalArgument(message: string)  // thrown by `require`
    | IllegalState(message: string)     // thrown by `error`

  /** What the device-code request sends. */
  datatype StartRequest = StartRequest(clientId: string, scope: string)

  /** The device-code response the polling works from. */
  datatype DeviceStart = DeviceStart(
    deviceCode: string,
    userCode: string,
    verificationUri: string,
    verificationUriComplete: Option<string>,
    expiresInSec: int,
    intervalSec: int
  )

  datatype TokenSuccess = TokenSuccess(accessToken: string)

  /** One answer of the token endpoint: a token, or an error whose message is inspected. */
  datatype PollResponse = Granted(token: TokenSuccess) | PollError(message: Option<string>)

  /** How the loop treats one answer. */
  datatype PollClass = Success | Pending | SlowDown | Denied | Expired | Unexpected

  /**
    `startDeviceFlow(scope)`: a blank client id is rejected by `require`;
    otherwise the request carries the caller's scope, or `scopeText` when the
    caller's scope is blank.
   */
  function StartDeviceFlow(clientId: string, scopeText: string, scope: string): (r: Result<StartRequest, Failure>)
    ensures r.Err? <==> IsBlank(clientId)
    ensures r.Err? ==> r.error == IllegalArgument(MissingClientIdMessage)
    ensures r.Ok? ==> r.value.clientId == clientId
    ensures r.Ok? && !IsBlank(scope) ==> r.value.scope == scope
    ensures r.Ok? && IsBlank(scope) ==> r.value.scope == scopeText
  {
    if IsBlank(clientId) then Err(IllegalArgument(MissingClientIdMessage))
    else Ok(StartRequest(clientId, IfBlank(scope, scopeText)))
  }

  /** With the default configuration the scope sent is never blank. */
  lemma StartScopeNeverBlank(clientId: string, scope: string)
    ensures var r := StartDeviceFlow(clientId, DefaultScope, scope);
            r.Ok? ==> !IsBlank(r.value.scope) && (IsBlank(scope) ==> r.value.scope == "read:user repo")
  {
    assert !IsWhitespace(DefaultScope[0]);
  }

  /** The lower-cased message of a failed poll (`null` reads as the empty string). */
  function ErrorText(message: Option<string>): string {
    Lower(message.GetOr(""))
  }

  /**
    The branches of the `when` over the lower-cased message, in order: the
    first substring found decides the class.
   */
  const Rules: seq<(string, PollClass)> := [
    ("authorization_pending", Pending),
    ("slow_down", SlowDown),
    ("access_denied", Denied),
    ("expired_token", Expired),
    ("expired_device_code", Expired)
  ]

  /** The class chosen by the first rule whose substring `msg` contains; `Unexpected` when none does. */
  function FirstRule(msg: string, rules: seq<(string, PollClass)>): PollClass
    decreases |rules|
  {
    if |rules| == 0 then Unexpected
    else if Contains(msg, rules[0].0) then rules[0].1
    else FirstRule(msg, rules[1..])
  }

  /** How the loop treats one answer: a token succeeds, an error is classified by its message. */
  function Classify(response: PollResponse): PollClass
  {
    match response
    case Granted(_) => Success
    case PollError(m) => FirstRule(ErrorText(m), Rules)
  }

  /** The class of an error depends on its message only up to ASCII case. */
  lemma ClassifyIgnoresCase(m: string)
    ensures Classify(PollError(Some(m))) == Classify(PollError(Some(Lower(m))))
  {
    LowerIdempotent(m);
  }

  /** An error whose lower-cased message is `code`, sent as is. */
  function CodeError(code: string): PollResponse {
    PollError(Some(code))
  }

  /** A code without upper-case letters is matched against the rules as it is. */
  lemma ClassifyLowercaseCode(code: string)
    requires forall i :: 0 <= i < |code| ==> !('A' <= code[i] <= 'Z')
    ensures Classify(CodeError(code)) == FirstRule(code, Rules)
  {
    ClassifyMessage(code);
    LowerOfLowercase(code);
  }

  /** A message is matched against the rules once lower-cased. */
  lemma ClassifyMessage(m: string)
    ensures Classify(PollError(Some(m))) == FirstRule(Lower(m), Rules)
  {
  }

  /** The two codes of section 3.5 of RFC 8628 that keep the loop going, sent verbatim, are recognised. */
  lemma ClassifyPendingCode()
    ensures Classify(CodeError("authorization_pending")) == Pending
  {
    var code := "authorization_pending";
    PendingCodeIsLowercase();
    MatchesFirstRule(code);
  }

  lemma PendingCodeIsLowercase()
    ensures Lower("authorization_pending") == "authorization_pending"
  {
    LowerOfLowercase("authorization_pending");
  }

  lemma ClassifySlowDownCode()
    ensures Classify(CodeError("slow_down")) == SlowDown
  {
    var code := "slow_down";
    ClassifyLowercaseCode(code);
    assert !Contains(code, Rules[0].0);
    assert Contains(code, Rules[1].0) by { ContainsWitness(code, Rules[1].0, 0); }
  }

  /** A message that is the first rule's code is classified by that rule. */
  lemma MatchesFirstRule(code: string)
    requires code == Rules[0].0
    ensures FirstRule(code, Rules) == Rules[0].1
  {
    ContainsWitness(code, code, 0);
  }

  /** A failed poll without a message is unexpected. */
  lemma ClassifyMissingMessage()
    ensures Classify(PollError(None)) == Unexpected
  {
  }

  /** No rule classifies an error as a success. */
  lemma ErrorNeverSucceeds(m: Option<string>)
    ensures Classify(PollError(m)) != Success
  {
  }

  /**
    The outcome of an answer that ends the loop: the token is returned,
    a refusal or an expired code is a cancellation, anything else is an
    unexpected error carrying the lower-cased message.
   */
  function Finish(response: PollResponse): (r: Result<TokenSuccess, Failure>)
    requires !KeepsPolling(Classify(response))
    ensures r.Ok? <==> response.Granted?
    ensures r.Ok? ==> r.value == response.token
  {
    match Classify(response)
    case Success => Ok(response.token)
    case Denied => Err(Cancellation(DeniedMessage))
    case Expired => Err(Cancellation(ExpiredMessage))
    case Unexpected => Err(IllegalState(UnexpectedPrefix + ErrorText(response.message)))
  }

  /** An answer after which the loop polls again. */
  predicate KeepsPolling(c: PollClass) {
    c == Pending || c == SlowDown
  }

  /** The time budget: `expiresInSec * 1000L`. */
  function BudgetMs(start: DeviceStart): int {
    start.expiresInSec * 1000
  }

  /** The first interval: `intervalSec.coerceAtLeast(1) * 1000L`. */
  function InitialIntervalMs(start: DeviceStart): (ms: int)
    ensures ms >= 1000
    ensures start.intervalSec >= 1 ==> ms == start.intervalSec * 1000
  {
    (if start.intervalSec < 1 then 1 else start.intervalSec) * 1000
  }

  /** What one run of the polling loop produced. */
  datatype Run = Run(result: Result<TokenSuccess, Failure>, polls: nat, waits: seq<int>)

  /**
    The polling loop, from the `k`-th poll on, with `remaining` milliseconds of
    budget and the current `interval`: while budget remains, ask the endpoint;
    `authorization_pending` and `slow_down` (after widening the interval) spend
    one interval and go round again; every other answer ends the loop with
    `Finish`; an exhausted budget ends it with "Device code expired".
    `polls` counts the requests sent from `k` on and `waits` the delays taken.
   */
  function Poll(respond: nat -> PollResponse, k: nat, remaining: int, interval: int): (r: Run)
    requires interval > 0
    ensures r.polls == 0 <==> remaining <= 0
    ensures |r.waits| == r.polls || |r.waits| + 1 == r.polls
    decreases if remaining > 0 then remaining else 0
  {
    if remaining <= 0 then Run(Err(Cancellation(ExpiredMessage)), 0, [])
    else
      var c := Classify(respond(k));
      if KeepsPolling(c) then
        var next := interval + Widening(c);
        var rest := Poll(respond, k + 1, remaining - next, next);
        Run(rest.result, rest.polls + 1, [next] + rest.waits)
      else
        Run(Finish(respond(k)), 1, [])
  }

  /** How much one answer widens the interval. */
  function Widening(c: PollClass): (w: int)
    ensures w == 0 || w == SlowDownStepMs
    ensures w > 0 <==> c == SlowDown
  {
    if c == SlowDown then SlowDownStepMs else 0
  }

  /**
    Each wait is the one before it (for the first: `interval`), widened by
    2000 ms when the answer that caused it was `slow_down`.
   */
  ghost predicate Widens(respond: nat -> PollResponse, k: nat, interval: int, waits: seq<int>)
    decreases |waits|
  {
    |waits| == 0 ||
    (waits[0] == interval + Widening(Classify(respond(k))) && Widens(respond, k + 1, waits[0], waits[1..]))
  }

  /** Every answer that caused a wait kept the loop going. */
  lemma {:induction false} PollKeepsGoing(respond: nat -> PollResponse, k: nat, remaining: int, interval: int, r: Run)
    requires interval > 0
    requires r == Poll(respond, k, remaining, interval)
    ensures forall j: nat :: k <= j < k + |r.waits| ==> KeepsPolling(Classify(respond(j)))
    decreases if remaining > 0 then remaining else 0
  {
    if remaining > 0 {
      var c := Classify(respond(k));
      if KeepsPolling(c) {
        var next := interval + Widening(c);
        var rest := Poll(respond, k + 1, remaining - next, next);
        assert r == Run(rest.result, rest.polls + 1, [next] + rest.waits);
        PollKeepsGoing(respond, k + 1, remaining - next, next, rest);
      }
    }
  }

  /** The waits widen step by step, each by the answer that caused it. */
  lemma {:induction false} PollSteps(respond: nat -> PollResponse, k: nat, remaining: int, interval: int, r: Run)
    requires interval > 0
    requires r == Poll(respond, k, remaining, interval)
    ensures Widens(respond, k, interval, r.waits)
    decreases if remaining > 0 then remaining else 0
  {
    if remaining > 0 {
      var c := Classify(respond(k));
      if KeepsPolling(c) {
        var next := interval + Widening(c);
        var rest := Poll(respond, k + 1, remaining - next, next);
        assert r == Run(rest.result, rest.polls + 1, [next] + rest.waits);
        PollSteps(respond, k + 1, remaining - next, next, rest);
        assert r.waits[1..] == rest.waits;
      }
    }
  }

  /** The waits never shrink: the interval only widens. */
  lemma {:induction false} PollWaitsGrow(respond: nat -> PollResponse, k: nat, remaining: int, interval: int, r: Run)
    requires interval > 0
    requires r == Poll(respond, k, remaining, interval)
    ensures forall i, j :: 0 <= i <= j < |r.waits| ==> interval <= r.waits[i] <= r.waits[j]
    decreases if remaining > 0 then remaining else 0
  {
    if remaining > 0 {
      var c := Classify(respond(k));
      if KeepsPolling(c) {
        var next := interval + Widening(c);
        var rest := Poll(respond, k + 1, remaining - next, next);
        PollWaitsGrow(respond, k + 1, remaining - next, next, rest);
        assert r.waits == [next] + rest.waits;
        GrowsFrom(interval, next, rest.waits);
      }
    }
  }

  /** A non-decreasing list of waits, each at least `next`, stays so with `next >= interval` in front. */
  lemma GrowsFrom(interval: int, next: int, waits: seq<int>)
    requires interval <= next
    requires forall i, j :: 0 <= i <= j < |waits| ==> next <= waits[i] <= waits[j]
    ensures forall i, j :: 0 <= i <= j < |[next] + waits| ==> interval <= ([next] + waits)[i] <= ([next] + waits)[j]
  {
    var all := [next] + waits;
    forall i, j | 0 <= i <= j < |all|
      ensures interval <= all[i] <= all[j]
    {
      if i > 0 {
        assert all[i] == waits[i - 1] && all[j] == waits[j - 1];
      } else if j > 0 {
        assert all[j] == waits[j - 1];
      }
    }
  }

  /** The sum of the waits. */
  function Sum(xs: seq<int>): int
    decreases |xs|
  {
    if |xs| == 0 then 0 else xs[0] + Sum(xs[1..])
  }

  /** A loop ended by an answer returns that answer's outcome. */
  lemma {:induction false} PollStopsAtAnswer(respond: nat -> PollResponse, k: nat, remaining: int, interval: int, r: Run)
    requires interval > 0
    requires r == Poll(respond, k, remaining, interval)
    requires |r.waits| + 1 == r.polls
    ensures !KeepsPolling(Classify(respond(k + r.polls - 1)))
    ensures r.result == Finish(respond(k + r.polls - 1))
    decreases if remaining > 0 then remaining else 0
  {
    var c := Classify(respond(k));
    if KeepsPolling(c) {
      var next := interval + Widening(c);
      var rest := Poll(respond, k + 1, remaining - next, next);
      assert r == Run(rest.result, rest.polls + 1, [next] + rest.waits);
      PollStopsAtAnswer(respond, k + 1, remaining - next, next, rest);
      assert k + r.polls - 1 == (k + 1) + rest.polls - 1;
    }
  }

  /** The answer that ended the loop was asked for while some budget remained: the waits before it did not use it up. */
  lemma {:induction false} PollAnswerWithinBudget(respond: nat -> PollResponse, k: nat, remaining: int, interval: int, r: Run)
    requires interval > 0
    requires r == Poll(respond, k, remaining, interval)
    requires |r.waits| + 1 == r.polls
    ensures Sum(r.waits) < remaining
    decreases if remaining > 0 then remaining else 0
  {
    var c := Classify(respond(k));
    if KeepsPolling(c) {
      var next := interval + Widening(c);
      var rest := Poll(respond, k + 1, remaining - next, next);
      assert r == Run(rest.result, rest.polls + 1, [next] + rest.waits);
      PollAnswerWithinBudget(respond, k + 1, remaining - next, next, rest);
      SumCons(next, rest.waits);
    }
  }

  /**
    A loop that ran out of budget returns "Device code expired"; its waits
    cover the budget, and every poll was sent while some of it remained.
   */
  lemma {:induction false} PollExpires(respond: nat -> PollResponse, k: nat, remaining: int, interval: int, r: Run)
    requires interval > 0
    requires r == Poll(respond, k, remaining, interval)
    requires |r.waits| == r.polls
    ensures r.result == Err(Cancellation(ExpiredMessage))
    ensures Sum(r.waits) >= remaining
    ensures r.polls >= 1 ==> Sum(r.waits[..r.polls - 1]) < remaining
    decreases if remaining > 0 then remaining else 0
  {
    if remaining > 0 {
      var c := Classify(respond(k));
      assert KeepsPolling(c);
      var next := interval + Widening(c);
      var rest := Poll(respond, k + 1, remaining - next, next);
      assert r == Run(rest.result, rest.polls + 1, [next] + rest.waits);
      PollExpires(respond, k + 1, remaining - next, next, rest);
      SumCons(next, rest.waits);
      if rest.polls >= 1 {
        SumConsPrefix(next, rest.waits, rest.polls - 1);
      }
    }
  }

  lemma SumCons(x: int, xs: seq<int>)
    ensures Sum([x] + xs) == x + Sum(xs)
  {
    assert ([x] + xs)[1..] == xs;
  }

  lemma SumConsPrefix(x: int, xs: seq<int>, m: nat)
    requires m <= |xs|
    ensures Sum(([x] + xs)[..m + 1]) == x + Sum(xs[..m])
  {
    assert ([x] + xs)[..m + 1] == [x] + xs[..m];
    SumCons(x, xs[..m]);
  }

  /** Either an answer ended the loop or the budget ran out. */
  lemma PollEnding(respond: nat -> PollResponse, k: nat, remaining: int, interval: int, r: Run)
    requires interval > 0
    requires r == Poll(respond, k, remaining, interval)
    ensures |r.waits| + 1 == r.polls ==>
              && !KeepsPolling(Classify(respond(k + r.polls - 1))) && r.result == Finish(respond(k + r.polls - 1))
              && Sum(r.waits) < remaining
    ensures |r.waits| == r.polls ==>
              && r.result == Err(Cancellation(ExpiredMessage))
              && Sum(r.waits) >= remaining
              && (r.polls >= 1 ==> Sum(r.waits[..r.polls - 1]) < remaining)
  {
    if |r.waits| + 1 == r.polls {
      PollStopsAtAnswer(respond, k, remaining, interval, r);
      PollAnswerWithinBudget(respond, k, remaining, interval, r);
    } else {
      PollExpires(respond, k, remaining, interval, r);
    }
  }

  /** At least a second passes between polls, so the budget bounds their number. */
  lemma {:induction false} PollBound(respond: nat -> PollResponse, k: nat, remaining: int, interval: int, r: Run)
    requires interval >= 1000
    requires r == Poll(respond, k, remaining, interval)
    ensures r.polls >= 1 ==> 1000 * (r.polls - 1) < remaining
    decreases if remaining > 0 then remaining else 0
  {
    if remaining > 0 {
      var c := Classify(respond(k));
      if KeepsPolling(c) {
        var next := interval + Widening(c);
        PollBound(respond, k + 1, remaining - next, next, Poll(respond, k + 1, remaining - next, next));
      }
    }
  }

  lemma MulMonotone(a: int, b: int, i: int)
    requires a <= b && i >= 0
    ensures a * i <= b * i
  {
    assert b * i - a * i == (b - a) * i;
  }

  lemma MulSucc(p: int, i: int)
    ensures (p + 1) * i == p * i + i
    ensures (p + 1 - 1) * i == p * i
  {
  }

  /** `p` is the ceiling of `b / i` when `(p - 1) * i < b <= p * i`. */
  lemma CeilingDivision(b: int, i: int, p: int)
    requires i > 0 && b > 0
    requires (p - 1) * i < b <= p * i
    ensures p == (b + i - 1) / i
  {
    var x := b + i - 1;
    var q := x / i;
    assert x == q * i + x % i;
    assert (p - 1) * i == p * i - i;
    if p < q {
      MulMonotone(p + 1, q, i);
      assert false;
    } else if p > q {
      MulMonotone(q + 1, p, i);
      assert false;
    }
  }

  /** The ceiling of `b / i`, for a positive `b`, and 0 otherwise. */
  function CeilDiv(b: int, i: int): (p: nat)
    requires i > 0
    ensures b > 0 ==> (p - 1) * i < b <= p * i
  {
    if b <= 0 then 0
    else
      var x := b + i - 1;
      var q := x / i;
      assert x == q * i + x % i;
      assert (q - 1) * i == q * i - i;
      q
  }

  /**
    When every answer from the `k`-th on is `authorization_pending`, the loop
    expires, and every wait is the interval.
   */
  lemma {:induction false} PollAllPending(respond: nat -> PollResponse, k: nat, remaining: int, interval: int, r: Run)
    requires interval > 0
    requires forall j: nat :: j >= k ==> Classify(respond(j)) == Pending
    requires r == Poll(respond, k, remaining, interval)
    ensures r.result == Err(Cancellation(ExpiredMessage))
    ensures |r.waits| == r.polls
    ensures forall i :: 0 <= i < |r.waits| ==> r.waits[i] == interval
    decreases if remaining > 0 then remaining else 0
  {
    if remaining > 0 {
      assert Classify(respond(k)) == Pending;
      var rest := Poll(respond, k + 1, remaining - interval, interval);
      PollAllPending(respond, k + 1, remaining - interval, interval, rest);
    }
  }

  /**
    When every answer from the `k`-th on is `authorization_pending`, the loop
    sends ceil(remaining / interval) polls.
   */
  lemma {:induction false} PollAllPendingCount(respond: nat -> PollResponse, k: nat, remaining: int, interval: int, r: Run)
    requires interval > 0
    requires forall j: nat :: j >= k ==> Classify(respond(j)) == Pending
    requires r == Poll(respond, k, remaining, interval)
    ensures r.polls == CeilDiv(remaining, interval)
    decreases if remaining > 0 then remaining else 0
  {
    if remaining > 0 {
      assert Classify(respond(k)) == Pending;
      var rest := Poll(respond, k + 1, remaining - interval, interval);
      PollAllPendingCount(respond, k + 1, remaining - interval, interval, rest);
      CeilDivStep(remaining, interval);
    }
  }

  /** Taking one interval off a positive budget takes one off the ceiling. */
  lemma CeilDivStep(b: int, i: int)
    requires i > 0 && b > 0
    ensures CeilDiv(b, i) == CeilDiv(b - i, i) + 1
  {
    var p := CeilDiv(b - i, i);
    MulSucc(p, i);
    CeilingDivision(b, i, p + 1);
  }

  /** The number of polls when every answer is `authorization_pending`: the ceiling of budget / interval. */
  function PendingPolls(start: DeviceStart): nat
  {
    CeilDiv(BudgetMs(start), InitialIntervalMs(start))
  }

  ghost predicate AllPending(respond: nat -> PollResponse) {
    forall i: nat :: Classify(respond(i)) == Pending
  }

  lemma PendingRun(start: DeviceStart, respond: nat -> PollResponse)
    ensures var r := Poll(respond, 0, BudgetMs(start), InitialIntervalMs(start));
            AllPending(respond) ==> r.result == Err(Cancellation(ExpiredMessage)) && r.polls == PendingPolls(start)
  {
    if AllPending(respond) {
      var r := Poll(respond, 0, BudgetMs(start), InitialIntervalMs(start));
      PollAllPending(respond, 0, BudgetMs(start), InitialIntervalMs(start), r);
      PollAllPendingCount(respond, 0, BudgetMs(start), InitialIntervalMs(start), r);
    }
  }

  /** The outcome of `awaitDeviceToken`, with what was handed to the token store. */
  datatype Attempt = Attempt(
    result: Result<TokenSuccess, Failure>,
    polls: nat,
    waits: seq<int>,
    saved: seq<TokenSuccess>,
    store: Option<TokenSuccess>
  )

  /**
    `awaitDeviceToken(start)`: poll with a budget of `expiresInSec` seconds,
    starting from an interval of `max(intervalSec, 1)` seconds; a token is
    saved, then returned.
   */
  function AwaitDeviceToken(start: DeviceStart, respond: nat -> PollResponse, store: Option<TokenSuccess>): (a: Attempt)
    // one wait per poll that kept the loop going
    ensures |a.waits| == a.polls || |a.waits| + 1 == a.polls
    // the budget bounds the number of polls
    ensures a.polls <= if start.expiresInSec > 0 then start.expiresInSec else 0
    ensures a.polls == 0 <==> start.expiresInSec <= 0
    ensures start.expiresInSec <= 0 ==> a.result == Err(Cancellation(ExpiredMessage))
    // a token is saved exactly once, and only on success
    ensures a.result.Ok? <==> a.saved != []
    ensures a.result.Ok? ==> a.polls >= 1 && respond(a.polls - 1) == Granted(a.result.value)
                             && a.saved == [a.result.value] && a.store == Some(a.result.value)
    ensures a.result.Err? ==> a.saved == [] && a.store == store
  {
    var r := Poll(respond, 0, BudgetMs(start), InitialIntervalMs(start));
    PollEnding(respond, 0, BudgetMs(start), InitialIntervalMs(start), r);
    PollBound(respond, 0, BudgetMs(start), InitialIntervalMs(start), r);
    Saving(r, store)
  }

  /**
    Every answer but the last kept the loop going; the interval starts at
    max(intervalSec, 1) seconds and grows by 2000 ms per `slow_down`.
   */
  lemma AwaitWaits(start: DeviceStart, respond: nat -> PollResponse, store: Option<TokenSuccess>)
    ensures var a := AwaitDeviceToken(start, respond, store);
            && (forall i :: 0 <= i < |a.waits| ==> KeepsPolling(Classify(respond(i))))
            && Widens(respond, 0, InitialIntervalMs(start), a.waits)
            && (forall i, j :: 0 <= i <= j < |a.waits| ==> InitialIntervalMs(start) <= a.waits[i] <= a.waits[j])
  {
    var r := Poll(respond, 0, BudgetMs(start), InitialIntervalMs(start));
    PollKeepsGoing(respond, 0, BudgetMs(start), InitialIntervalMs(start), r);
    PollSteps(respond, 0, BudgetMs(start), InitialIntervalMs(start), r);
    PollWaitsGrow(respond, 0, BudgetMs(start), InitialIntervalMs(start), r);
  }

  /**
    The loop stops at the first answer that ends it, with that answer's
    outcome, asked for while budget remained; or it runs out of budget, its waits covering the budget and its
    last poll sent while some remained.
   */
  lemma AwaitEnding(start: DeviceStart, respond: nat -> PollResponse, store: Option<TokenSuccess>)
    ensures var a := AwaitDeviceToken(start, respond, store);
            |a.waits| + 1 == a.polls ==> && !KeepsPolling(Classify(respond(a.polls - 1)))
                                         && a.result == Finish(respond(a.polls - 1))
                                         && Sum(a.waits) < BudgetMs(start)
    ensures var a := AwaitDeviceToken(start, respond, store);
            |a.waits| == a.polls ==> && a.result == Err(Cancellation(ExpiredMessage))
                                     && Sum(a.waits) >= BudgetMs(start)
                                     && (a.polls >= 1 ==> Sum(a.waits[..a.polls - 1]) < BudgetMs(start))
  {
    var r := Poll(respond, 0, BudgetMs(start), InitialIntervalMs(start));
    PollEnding(respond, 0, BudgetMs(start), InitialIntervalMs(start), r);
    var a := AwaitDeviceToken(start, respond, store);
    assert a.result == r.result && a.polls == r.polls && a.waits == r.waits;
  }

  /** With every answer pending, the code expires after ceil(budget / interval) polls. */
  lemma AwaitAllPending(start: DeviceStart, respond: nat -> PollResponse, store: Option<TokenSuccess>)
    requires AllPending(respond)
    ensures var a := AwaitDeviceToken(start, respond, store);
            a.result == Err(Cancellation(ExpiredMessage)) && a.polls == PendingPolls(start)
  {
    PendingRun(start, respond);
  }

  /** The token store after a run: `saveToken` is called once, on success only. */
  function Saving(r: Run, store: Option<TokenSuccess>): (a: Attempt)
    ensures a.result == r.result && a.polls == r.polls && a.waits == r.waits
    ensures a.result.Ok? ==> a.saved == [r.result.value] && a.store == Some(r.result.value)
    ensures a.result.Err? ==> a.saved == [] && a.store == store
  {
    match r.result
    case Ok(token) => Attempt(r.result, r.polls, r.waits, [token], Some(token))
    case Err(_) => Attempt(r.result, r.polls, r.waits, [], store)
  }

  /** `accessTokenFlow`: the stored token's access token, or `null` when none is stored. */
  function AccessToken(store: Option<TokenSuccess>): (t: Option<string>)
    ensures t.None? <==> store.None?
    ensures store.Some? ==> t == Some(store.value.accessToken)
  {
    match store
    case None => None
    case Some(s) => Some(s.accessToken)
  }

  /** `logout()`: the token store is cleared. */
  function Logout(store: Option<TokenSuccess>): (r: Option<TokenSuccess>)
    ensures AccessToken(r) == None
  {
    None
  }
}
