/** The login lockout and the one-time-password attempt counter (views/auth.py), on an expiring cache. */
module LoginGuards {
  import opened Text

  const MAX_ATTEMPTS: nat := 5
  const LOCK_SECONDS: real := 900.0
  const OTP_SECONDS: real := 300.0

  datatype Counter = Counter(attempts: nat, expires: real)

  /** `cache.get(key, 0)` */
  function Attempts(c: Option<Counter>, now: real): nat {
    if c.Some? && now < c.value.expires then c.value.attempts else 0
  }

  // ---- login

  /** What the account and the password come to, if the request gets that far. */
  datatype Credentials = Disabled | Wrong | Right
  datatype LoginEvent = LoginEvent(time: real, credentials: Credentials)
  datatype LoginResult = Locked | Refused | Failed | Authenticated

  function LoginAnswer(c: Option<Counter>, e: LoginEvent): LoginResult {
    if Attempts(c, e.time) >= MAX_ATTEMPTS then Locked
    else match e.credentials
      case Disabled => Refused
      case Wrong => Failed
      case Right => Authenticated
  }

  function LoginCounter(c: Option<Counter>, e: LoginEvent): Option<Counter> {
    match LoginAnswer(c, e)
    case Failed => Some(Counter(Attempts(c, e.time) + 1, e.time + LOCK_SECONDS))
    case Authenticated => None
    case _ => c
  }

  class LoginGuard {
    var failures: map<string, Counter>

    constructor ()
      ensures failures == map[]
    {
      failures := map[];
    }

    ghost function CounterOf(user: string): Option<Counter>
      reads this
    {
      if user in failures then Some(failures[user]) else None
    }

    method Login(user: string, e: LoginEvent) returns (answer: LoginResult)
      modifies this
      ensures answer == LoginAnswer(old(CounterOf(user)), e)
      ensures CounterOf(user) == LoginCounter(old(CounterOf(user)), e)
      ensures forall other | other != user :: CounterOf(other) == old(CounterOf(other))
    {
      var attempts := if user in failures && e.time < failures[user].expires then failures[user].attempts else 0;
      if attempts >= MAX_ATTEMPTS { return Locked; }
      if e.credentials == Disabled { return Refused; }
      if e.credentials == Wrong {
        failures := failures[user := Counter(attempts + 1, e.time + LOCK_SECONDS)];
        return Failed;
      }
      failures := failures - {user};
      return Authenticated;
    }
  }

  predicate LoginsInOrder(es: seq<LoginEvent>) {
    forall i, j | 0 <= i < j < |es| :: es[i].time <= es[j].time
  }

  /** The failed authentications of a run. */
  function Failures(c: Option<Counter>, es: seq<LoginEvent>): nat
    decreases |es|
  {
    if es == [] then 0
    else (if LoginAnswer(c, es[0]) == Failed then 1 else 0) + Failures(LoginCounter(c, es[0]), es[1..])
  }

  predicate NoSuccess(c: Option<Counter>, es: seq<LoginEvent>)
    decreases |es|
  {
    es == [] || (LoginAnswer(c, es[0]) != Authenticated && NoSuccess(LoginCounter(c, es[0]), es[1..]))
  }

  /** While the counter outlives the run, each failure uses up one attempt. */
  lemma {:induction false} FailuresUseAttempts(c: Counter, es: seq<LoginEvent>, end: real)
    requires LoginsInOrder(es) && NoSuccess(Some(c), es)
    requires forall i | 0 <= i < |es| :: end - LOCK_SECONDS < es[i].time <= end
    requires end < c.expires
    ensures Failures(Some(c), es) <= if c.attempts < MAX_ATTEMPTS then MAX_ATTEMPTS - c.attempts else 0
    decreases |es|
  {
    if es != [] {
      FailuresUseAttempts(LoginCounter(Some(c), es[0]).value, es[1..], end);
    }
  }

  /** From any state of the counter, a run without a success that spans less than 900 seconds sees at most
      five failed authentications. */
  lemma {:induction false} AtMostFiveFailures(c: Option<Counter>, es: seq<LoginEvent>)
    requires LoginsInOrder(es) && NoSuccess(c, es)
    requires es != [] ==> es[|es| - 1].time - es[0].time < 900.0
    ensures Failures(c, es) <= 5
    decreases |es|
  {
    if es != [] {
      var rest := es[1..];
      assert rest != [] ==> rest[|rest| - 1] == es[|es| - 1] && es[0].time <= rest[0].time;
      if LoginAnswer(c, es[0]) == Failed {
        var end := es[|es| - 1].time;
        assert forall i | 0 <= i < |rest| :: rest[i] == es[i + 1] && es[0].time <= es[i + 1].time <= end;
        FailuresUseAttempts(LoginCounter(c, es[0]).value, rest, end);
      } else {
        AtMostFiveFailures(c, rest);
      }
    }
  }

  /** `n` wrong passwords at the same moment. */
  function WrongAt(time: real, n: nat): seq<LoginEvent> {
    seq(n, i => LoginEvent(time, Wrong))
  }

  /** The span is sharp: after five wrong passwords at one moment, a sixth is compared exactly when it comes 900
      seconds later or more. */
  lemma SixthAttemptAt(start: real, later: real)
    requires start <= later
    ensures var es := WrongAt(start, 5) + [LoginEvent(later, Wrong)];
            Failures(None, es) == if later - start < 900.0 then 5 else 6
  {
    WrongPileUp(None, start, MAX_ATTEMPTS, [LoginEvent(later, Wrong)]);
  }

  lemma WrongFirst(time: real, n: nat, rest: seq<LoginEvent>)
    requires n > 0
    ensures var es := WrongAt(time, n) + rest;
            es[0] == LoginEvent(time, Wrong) && es[1..] == WrongAt(time, n - 1) + rest
  {}

  lemma {:induction false} WrongPileUp(c: Option<Counter>, time: real, n: nat, rest: seq<LoginEvent>)
    requires Attempts(c, time) + n <= MAX_ATTEMPTS
    ensures Failures(c, WrongAt(time, n) + rest) ==
            n + Failures(if n == 0 then c else Some(Counter(Attempts(c, time) + n, time + LOCK_SECONDS)), rest)
    decreases n
  {
    var es := WrongAt(time, n) + rest;
    if n == 0 {
      assert es == rest;
    } else {
      WrongFirst(time, n, rest);
      WrongPileUp(LoginCounter(c, es[0]), time, n - 1, rest);
    }
  }

  /** The counter after a run. */
  function LoginsDone(c: Option<Counter>, es: seq<LoginEvent>): Option<Counter> {
    if es == [] then c else LoginCounter(LoginsDone(c, es[..|es| - 1]), es[|es| - 1])
  }

  function WrongOnes(es: seq<LoginEvent>): nat {
    if es == [] then 0
    else WrongOnes(es[..|es| - 1]) + if es[|es| - 1].credentials == Wrong then 1 else 0
  }

  /** Requests without a right password, all less than 900 seconds before `end`. */
  predicate NoneRight(es: seq<LoginEvent>, end: real) {
    forall i | 0 <= i < |es| :: es[i].credentials != Right && es[i].time <= end < es[i].time + 900.0
  }

  /** Which answer a request gets, told by what was asked before: after five wrong passwords it is locked, and before
      that the password decides; requests for a disabled account are not counted. */
  lemma LoginDecided(c: Option<Counter>, es: seq<LoginEvent>, e: LoginEvent)
    requires LoginsInOrder(es) && NoneRight(es, e.time) && Attempts(c, if es == [] then e.time else es[0].time) == 0
    ensures LoginAnswer(LoginsDone(c, es), e) ==
            if WrongOnes(es) >= 5 then Locked
            else match e.credentials case Disabled => Refused case Wrong => Failed case Right => Authenticated
  {
    AttemptsCount(c, es, e.time);
  }

  lemma {:induction false} AttemptsCount(c: Option<Counter>, es: seq<LoginEvent>, end: real)
    requires LoginsInOrder(es) && NoneRight(es, end) && Attempts(c, if es == [] then end else es[0].time) == 0
    ensures Attempts(LoginsDone(c, es), end) == if WrongOnes(es) < 5 then WrongOnes(es) else 5
  {
    if es != [] {
      var n := |es| - 1;
      AttemptsCount(c, es[..n], es[n].time);
      AttemptsCount(c, es[..n], end);
      OneLogin(LoginsDone(c, es[..n]), es[n], end);
    }
  }

  /** One request less than 900 seconds ago without a right password. */
  lemma OneLogin(c: Option<Counter>, e: LoginEvent, end: real)
    requires e.credentials != Right && e.time <= end < e.time + 900.0
    requires Attempts(c, e.time) == Attempts(c, end) <= 5
    ensures Attempts(LoginCounter(c, e), end) ==
            if e.credentials == Wrong && Attempts(c, end) < 5 then Attempts(c, end) + 1 else Attempts(c, end)
  {}

  /** After a success counting starts afresh, whatever there was before. */
  lemma SuccessStartsAfresh(c: Option<Counter>, first: LoginEvent, es: seq<LoginEvent>, e: LoginEvent)
    requires LoginAnswer(c, first) == Authenticated && LoginsInOrder(es) && NoneRight(es, e.time)
    ensures first.credentials == Right
    ensures LoginAnswer(LoginsDone(LoginCounter(c, first), es), e) == LoginAnswer(LoginsDone(None, es), e)
  {
    LoginDecided(LoginCounter(c, first), es, e);
    LoginDecided(None, es, e);
  }

  // ---- one-time passwords

  datatype OtpState = OtpState(otpExpires: Option<real>, counter: Option<Counter>)
  datatype OtpEvent = OtpEvent(time: real, correct: bool)
  datatype OtpResult = Expired | TooMany | Invalid | Accepted

  /** The state when a code is issued at time `t` under a fresh token. */
  function Issued(t: real): OtpState {
    OtpState(Some(t + OTP_SECONDS), None)
  }

  function OtpAnswer(s: OtpState, e: OtpEvent): OtpResult {
    if s.otpExpires.None? || s.otpExpires.value <= e.time then Expired
    else if Attempts(s.counter, e.time) >= MAX_ATTEMPTS then TooMany
    else if e.correct then Accepted else Invalid
  }

  function OtpAfter(s: OtpState, e: OtpEvent): OtpState {
    match OtpAnswer(s, e)
    case Expired => s
    case TooMany => s.(otpExpires := None)
    case Invalid => s.(counter := Some(Counter(Attempts(s.counter, e.time) + 1, e.time + OTP_SECONDS)))
    case Accepted => s.(otpExpires := None)
  }

  class OtpGuard {
    var otps: map<string, real>
    var attempts: map<string, Counter>

    constructor ()
      ensures otps == map[] && attempts == map[]
    {
      otps, attempts := map[], map[];
    }

    ghost function StateOf(token: string): OtpState
      reads this
    {
      OtpState(if token in otps then Some(otps[token]) else None,
               if token in attempts then Some(attempts[token]) else None)
    }

    method Issue(token: string, now: real)
      requires token !in attempts
      modifies this`otps
      ensures StateOf(token) == Issued(now)
      ensures forall other | other != token :: StateOf(other) == old(StateOf(other))
    {
      otps := otps[token := now + OTP_SECONDS];
    }

    method Verify(token: string, e: OtpEvent) returns (answer: OtpResult)
      modifies this
      ensures answer == OtpAnswer(old(StateOf(token)), e)
      ensures StateOf(token) == OtpAfter(old(StateOf(token)), e)
      ensures forall other | other != token :: StateOf(other) == old(StateOf(other))
    {
      if token !in otps || otps[token] <= e.time { return Expired; }
      var count := if token in attempts && e.time < attempts[token].expires then attempts[token].attempts else 0;
      if count >= MAX_ATTEMPTS {
        otps := otps - {token};
        return TooMany;
      }
      if !e.correct {
        attempts := attempts[token := Counter(count + 1, e.time + OTP_SECONDS)];
        return Invalid;
      }
      otps := otps - {token};
      return Accepted;
    }
  }

  predicate OtpsInOrder(es: seq<OtpEvent>) {
    forall i, j | 0 <= i < j < |es| :: es[i].time <= es[j].time
  }

  /** How many answers of a run are `which`. */
  function Answers(s: OtpState, es: seq<OtpEvent>, which: OtpResult): nat
    decreases |es|
  {
    if es == [] then 0
    else (if OtpAnswer(s, es[0]) == which then 1 else 0) + Answers(OtpAfter(s, es[0]), es[1..], which)
  }

  /** The attempt counter, once there is one, outlives the code. */
  predicate CounterOutlives(s: OtpState) {
    s.otpExpires.Some? && s.counter.Some? ==> s.otpExpires.value <= s.counter.value.expires
  }

  function Tries(s: OtpState): nat {
    if s.otpExpires.None? then 0
    else if s.counter.None? then MAX_ATTEMPTS
    else if s.counter.value.attempts < MAX_ATTEMPTS then MAX_ATTEMPTS - s.counter.value.attempts else 0
  }

  lemma {:induction false} OtpBounded(s: OtpState, es: seq<OtpEvent>)
    requires CounterOutlives(s) && OtpsInOrder(es)
    requires s.otpExpires.Some? ==> forall i | 0 <= i < |es| :: s.otpExpires.value - OTP_SECONDS <= es[i].time
    ensures Answers(s, es, Invalid) <= Tries(s)
    ensures Answers(s, es, Accepted) <= if s.otpExpires.Some? then 1 else 0
    decreases |es|
  {
    if es != [] {
      OtpBounded(OtpAfter(s, es[0]), es[1..]);
    }
  }

  /** Over every timed run a token sees at most five wrong comparisons and at most one success. */
  lemma OtpAtMostFiveGuesses(t: real, es: seq<OtpEvent>)
    requires OtpsInOrder(es) && forall i | 0 <= i < |es| :: t <= es[i].time
    ensures Answers(Issued(t), es, Invalid) <= 5 && Answers(Issued(t), es, Accepted) <= 1
  {
    OtpBounded(Issued(t), es);
  }

  /** The state after a run. */
  function OtpsDone(s: OtpState, es: seq<OtpEvent>): OtpState {
    if es == [] then s else OtpAfter(OtpsDone(s, es[..|es| - 1]), es[|es| - 1])
  }

  /** Which answer a code gets, told by what was entered before. Until 300 seconds after the issue the first five codes
      are compared: a right one is accepted and a wrong one is not; the sixth is refused, and from then on the code
      counts as expired. */
  lemma OtpDecided(t: real, es: seq<OtpEvent>, e: OtpEvent)
    requires forall i | 0 <= i < |es| :: !es[i].correct && t <= es[i].time <= e.time
    ensures OtpAnswer(OtpsDone(Issued(t), es), e) ==
            if e.time >= t + 300.0 || |es| > 5 then Expired
            else if |es| == 5 then TooMany
            else if e.correct then Accepted else Invalid
  {
    if e.time < t + 300.0 { CountedWrong(t, es); } else { OtpNotRenewed(t, es); }
  }

  lemma {:induction false} CountedWrong(t: real, es: seq<OtpEvent>)
    requires forall i | 0 <= i < |es| :: !es[i].correct && t <= es[i].time < t + 300.0
    ensures var s := OtpsDone(Issued(t), es);
            s.otpExpires == (if |es| <= 5 then Some(t + 300.0) else None) &&
            (0 < |es| <= 5 ==>
               s.counter.Some? && s.counter.value.attempts == |es| && t + 300.0 <= s.counter.value.expires) &&
            (es == [] ==> s.counter.None?)
  {
    if es != [] { CountedWrong(t, es[..|es| - 1]); }
  }

  lemma {:induction false} OtpNotRenewed(t: real, es: seq<OtpEvent>)
    ensures var s := OtpsDone(Issued(t), es); s.otpExpires.None? || s.otpExpires == Some(t + 300.0)
  {
    if es != [] { OtpNotRenewed(t, es[..|es| - 1]); }
  }

  /** Whatever happened before, only a right code is accepted. */
  lemma OnlyRightAccepted(s: OtpState, e: OtpEvent)
    requires OtpAnswer(s, e) == Accepted
    ensures e.correct
  {}

  /** A code that was accepted is never compared again. */
  lemma {:induction false} AcceptedOnce(s: OtpState, e: OtpEvent, es: seq<OtpEvent>)
    requires OtpAnswer(s, e) == Accepted
    ensures Answers(OtpAfter(s, e), es, Expired) == |es|
  {
    GoneStaysGone(OtpAfter(s, e), es);
  }

  lemma {:induction false} GoneStaysGone(s: OtpState, es: seq<OtpEvent>)
    requires s.otpExpires.None?
    ensures Answers(s, es, Expired) == |es|
    decreases |es|
  {
    if es != [] { GoneStaysGone(s, es[1..]); }
  }
}
