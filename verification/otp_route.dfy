/** `POST /api/auth/otp`: one handler with two actions over the `otp_sessions` table.
    `send` stores a fresh session with a random six-digit code; `verify` checks a code
    against the most recent session for the phone, with a five-minute lifetime and at
    most five attempts. The table is a sequence of sessions (a row's id is its index),
    time is in milliseconds, and the random digits and the outcomes of the database and
    identity-provider calls are parameters. */
module OtpRoute {
  import opened Outcomes
  import opened Radix
  import opened Http

  const ExpirationMinutes: nat := 5
  const ExpirationMs: nat := ExpirationMinutes * 60000
  const MaxAttempts: nat := 5

  datatype Session = Session(
    phone: string, otpCode: string, attempts: nat, verified: bool, createdAt: int, ip: string)

  /** The body fields the handler reads. A phone is modelled as absent or a string. */
  datatype Request = Request(phone: Option<string>, otp: Value, action: Value)

  /** Six draws of `Math.floor(Math.random() * 10)`. */
  type OtpDraws = d: seq<nat> | |d| == 6 && forall i :: 0 <= i < |d| ==> d[i] < 10
    witness [0, 0, 0, 0, 0, 0]

  /** What the environment answers during one call: the random digits, whether the
      insert and the lookup succeed, whether the (unchecked) updates take effect, and the
      identity provider's verdict. */
  datatype Env = Env(
    draws: OtpDraws, insertOk: bool, selectOk: bool, updateOk: bool, auth: AuthResult)

  datatype Outcome = Outcome(response: Response, sessions: seq<Session>)

  // ---------------------------------------------------------------------------
  // Code generation

  /** `generateOtpCode`: each draw appended to the string in decimal. */
  function OtpCode(draws: seq<nat>): (code: string)
    requires forall i :: 0 <= i < |draws| ==> draws[i] < 10
    ensures |code| == |draws|
    ensures forall i :: 0 <= i < |code| ==> '0' <= code[i] <= '9' && DigitValue(code[i]) == draws[i]
  {
    if |draws| == 0 then ""
    else
      SingleDigit(draws[|draws| - 1]);
      OtpCode(draws[..|draws| - 1]) + ToDigits(draws[|draws| - 1], 10)
  }

  /** Every string of six decimal digits, leading zeros included, is a possible code. */
  lemma {:induction false} EveryCodePossible(code: string)
    requires |code| == 6 && forall i :: 0 <= i < 6 ==> '0' <= code[i] <= '9'
    ensures exists draws: OtpDraws :: OtpCode(draws) == code
  {
    var draws := seq(6, i requires 0 <= i < 6 => DigitValue(code[i]));
    assert forall i :: 0 <= i < 6 ==> draws[i] < 10;
    var d: OtpDraws := draws;
    var c := OtpCode(d);
    forall i | 0 <= i < 6
      ensures c[i] == code[i]
    {
      DigitValueInjective(c[i], code[i]);
    }
    assert c == code;
  }

  lemma DigitValueInjective(a: char, b: char)
    requires '0' <= a <= '9' && '0' <= b <= '9' && DigitValue(a) == DigitValue(b)
    ensures a == b
  {
  }

  // ---------------------------------------------------------------------------
  // Session lookup

  /** The row `select … eq('phone') order('created_at', desc) limit(1)` returns: a
      session for the phone (`LatestSpec` states which). */
  function Latest(sessions: seq<Session>, phone: string): (r: Option<nat>)
    ensures r.Some? ==> r.value < |sessions| && sessions[r.value].phone == phone
  {
    LatestBelow(sessions, phone, |sessions|)
  }

  /** The lookup among the first n sessions; on equal creation times the later row wins. */
  function LatestBelow(sessions: seq<Session>, phone: string, n: nat): (r: Option<nat>)
    requires n <= |sessions|
    ensures r.Some? ==> r.value < n && sessions[r.value].phone == phone
    decreases n
  {
    if n == 0 then None
    else
      var earlier := LatestBelow(sessions, phone, n - 1);
      if sessions[n - 1].phone != phone then earlier
      else if earlier.Some? && sessions[earlier.value].createdAt > sessions[n - 1].createdAt then earlier
      else Some(n - 1)
  }

  /** The lookup finds nothing exactly when no session is for the phone, and otherwise a
      session for it whose creation time no other session for it exceeds. */
  lemma LatestSpec(sessions: seq<Session>, phone: string)
    ensures var r := Latest(sessions, phone);
      && (r.Some? ==> forall j :: 0 <= j < |sessions| && sessions[j].phone == phone ==>
            sessions[j].createdAt <= sessions[r.value].createdAt)
      && (r.None? <==> forall j :: 0 <= j < |sessions| ==> sessions[j].phone != phone)
  {
    LatestBelowSpec(sessions, phone, |sessions|);
  }

  lemma {:induction false} LatestBelowSpec(sessions: seq<Session>, phone: string, n: nat)
    requires n <= |sessions|
    ensures var r := LatestBelow(sessions, phone, n);
      && (r.Some? ==> forall j :: 0 <= j < n && sessions[j].phone == phone ==>
            sessions[j].createdAt <= sessions[r.value].createdAt)
      && (r.None? <==> forall j :: 0 <= j < n ==> sessions[j].phone != phone)
    decreases n
  {
    if n > 0 {
      LatestBelowSpec(sessions, phone, n - 1);
    }
  }

  /** The lookup reads only phones and creation times. */
  lemma LatestIgnoresOtherFields(a: seq<Session>, b: seq<Session>, phone: string)
    requires |a| == |b|
    requires forall j :: 0 <= j < |a| ==> a[j].phone == b[j].phone && a[j].createdAt == b[j].createdAt
    ensures Latest(a, phone) == Latest(b, phone)
  {
    LatestBelowIgnoresOtherFields(a, b, phone, |a|);
  }

  lemma {:induction false} LatestBelowIgnoresOtherFields(a: seq<Session>, b: seq<Session>, phone: string, n: nat)
    requires n <= |a| == |b|
    requires forall j :: 0 <= j < |a| ==> a[j].phone == b[j].phone && a[j].createdAt == b[j].createdAt
    ensures LatestBelow(a, phone, n) == LatestBelow(b, phone, n)
    decreases n
  {
    if n > 0 {
      LatestBelowIgnoresOtherFields(a, b, phone, n - 1);
      var earlier := LatestBelow(a, phone, n - 1);
      assert a[n - 1].phone == b[n - 1].phone && a[n - 1].createdAt == b[n - 1].createdAt;
      if earlier.Some? {
        assert a[earlier.value].createdAt == b[earlier.value].createdAt;
      }
    }
  }

  /** Rewriting one session without touching its phone or creation time leaves the
      lookup where it was. */
  lemma LatestAfterUpdate(sessions: seq<Session>, i: nat, s: Session, phone: string)
    requires i < |sessions| && s.phone == sessions[i].phone && s.createdAt == sessions[i].createdAt
    ensures Latest(sessions[i := s], phone) == Latest(sessions, phone)
  {
    LatestIgnoresOtherFields(sessions, sessions[i := s], phone);
  }

  // ---------------------------------------------------------------------------
  // The handler

  // Messages the handler answers with.
  const SendFailed := "Erreur serveur lors de la création de session OTP."
  const SendOk := "Code OTP envoyé avec succès."
  const OtpRequired := "Le code OTP est requis."
  const SessionNotFound := "Session OTP introuvable."
  const OtpExpired := "Le code OTP a expiré."
  const TooManyAttempts := "Nombre maximum de tentatives dépassé."
  const WrongOtp := "Code OTP invalide."
  const AuthFailed := "Erreur d'authentification Supabase."
  const ServerError := "Erreur serveur interne."
  const PhoneRequired := "Le numéro de téléphone est requis."
  const InvalidAction := "Action invalide."


  /** The client address: `x-forwarded-for`, else `x-real-ip`, else `'unknown'`. */
  function ClientIp(forwardedFor: Option<string>, realIp: Option<string>): string {
    OrElse(forwardedFor, OrElse(realIp, "unknown"))
  }

  predicate PhoneGiven(phone: Option<string>) {
    phone.Some? && phone.value != ""
  }

  /** The `send` action for a given phone. */
  function Send(phone: string, ip: string, sessions: seq<Session>, now: int, env: Env): Outcome {
    var code := OtpCode(env.draws);
    if !env.insertOk then
      Outcome(Error(500, SendFailed), sessions)
    else
      Outcome(Response(200, MessageBody(SendOk)),
              sessions + [Session(phone, code, 0, false, now, ip)])
  }

  predicate Expired(s: Session, now: int) {
    now > s.createdAt + ExpirationMs
  }

  /** The `verify` action for a given phone. */
  function Verify(phone: string, otp: Value, sessions: seq<Session>, now: int, env: Env): Outcome {
    if !Truthy(otp) then Outcome(Error(400, OtpRequired), sessions)
    else
      var found := if env.selectOk then Latest(sessions, phone) else None;
      if found.None? then Outcome(Error(400, SessionNotFound), sessions)
      else
        var i := found.value;
        var s := sessions[i];
        if Expired(s, now) then Outcome(Error(400, OtpExpired), sessions)
        else if s.attempts >= MaxAttempts then
          Outcome(Error(429, TooManyAttempts), sessions)
        else if otp != Str(s.otpCode) then
          var updated := if env.updateOk then sessions[i := s.(attempts := s.attempts + 1)] else sessions;
          Outcome(Error(400, WrongOtp), updated)
        else
          var updated := if env.updateOk then sessions[i := s.(verified := true)] else sessions;
          match env.auth
          case AuthError(_) => Outcome(Error(500, AuthFailed), updated)
          case AuthOk(user, session) => Outcome(Response(200, UserSessionBody(user, session)), updated)
  }

  /** The whole handler; `None` stands for a body that is not valid JSON. */
  function Post(body: Option<Request>, forwardedFor: Option<string>, realIp: Option<string>,
                sessions: seq<Session>, now: int, env: Env): Outcome
  {
    var ip := ClientIp(forwardedFor, realIp);
    if body.None? then Outcome(Error(500, ServerError), sessions)
    else
      var req := body.value;
      if !PhoneGiven(req.phone) then Outcome(Error(400, PhoneRequired), sessions)
      else if req.action == Str("send") then Send(req.phone.value, ip, sessions, now, env)
      else if req.action == Str("verify") then Verify(req.phone.value, req.otp, sessions, now, env)
      else Outcome(Error(400, InvalidAction), sessions)
  }

  // ---------------------------------------------------------------------------
  // Properties of the handler

  /** A request whose body names the phone and the action. */
  predicate Asks(body: Option<Request>, phone: string, action: string) {
    body.Some? && body.value.phone == Some(phone) && phone != "" && body.value.action == Str(action)
  }

  /** Without a phone the answer is 400 and nothing is stored, whatever the action. */
  lemma PostWithoutPhone(req: Request, fwd: Option<string>, realIp: Option<string>,
                         sessions: seq<Session>, now: int, env: Env)
    requires !PhoneGiven(req.phone)
    ensures Post(Some(req), fwd, realIp, sessions, now, env)
         == Outcome(Error(400, PhoneRequired), sessions)
  {
  }

  /** Any action other than `send` and `verify` is refused with 400 and changes nothing. */
  lemma PostInvalidAction(body: Option<Request>, fwd: Option<string>, realIp: Option<string>,
                          sessions: seq<Session>, now: int, env: Env)
    requires body.Some? && PhoneGiven(body.value.phone)
    requires body.value.action != Str("send") && body.value.action != Str("verify")
    ensures Post(body, fwd, realIp, sessions, now, env) == Outcome(Error(400, InvalidAction), sessions)
  {
  }

  /** `send` appends exactly one session, with no attempts, not verified, created now,
      with the caller's address and a six-digit code; a failed insert answers 500 and
      stores nothing. */
  lemma SendAppendsOneSession(body: Option<Request>, phone: string, fwd: Option<string>,
                              realIp: Option<string>, sessions: seq<Session>, now: int, env: Env)
    requires Asks(body, phone, "send")
    ensures var out := Post(body, fwd, realIp, sessions, now, env);
      if env.insertOk then
        && out.response.status == 200
        && |out.sessions| == |sessions| + 1
        && out.sessions[..|sessions|] == sessions
        && var s := out.sessions[|sessions|];
           && s.phone == phone && s.attempts == 0 && !s.verified && s.createdAt == now
           && s.ip == ClientIp(fwd, realIp)
           && |s.otpCode| == 6 && (forall i :: 0 <= i < 6 ==> '0' <= s.otpCode[i] <= '9')
      else out.response.status == 500 && out.sessions == sessions
  {
    var out := Post(body, fwd, realIp, sessions, now, env);
    if env.insertOk {
      assert out.sessions[..|sessions|] == sessions;
    }
  }

  /** `verify` without a code, or when no session for the phone can be read, answers 400
      and changes nothing. */
  lemma VerifyNeedsCodeAndSession(body: Option<Request>, phone: string, fwd: Option<string>,
                                  realIp: Option<string>, sessions: seq<Session>, now: int, env: Env)
    requires Asks(body, phone, "verify")
    requires !Truthy(body.value.otp) || !env.selectOk || forall j :: 0 <= j < |sessions| ==> sessions[j].phone != phone
    ensures var out := Post(body, fwd, realIp, sessions, now, env);
      out.response.status == 400 && out.sessions == sessions
  {
  }

  /** Past five minutes after creation the latest session is refused, whatever the code
      and the attempt count; exactly at five minutes it is not yet expired. */
  lemma VerifyExpiry(body: Option<Request>, phone: string, fwd: Option<string>,
                     realIp: Option<string>, sessions: seq<Session>, now: int, env: Env)
    requires Asks(body, phone, "verify") && Truthy(body.value.otp) && env.selectOk
    requires Latest(sessions, phone).Some?
    ensures var s := sessions[Latest(sessions, phone).value];
      var out := Post(body, fwd, realIp, sessions, now, env);
      && (now > s.createdAt + 300000 ==> out == Outcome(Error(400, OtpExpired), sessions))
      && (now == s.createdAt + 300000 ==> out.response != Error(400, OtpExpired))
  {
  }

  /** With five or more attempts recorded the answer is 429, even for the right code,
      and the session is left as it is. */
  lemma VerifyLockedOut(body: Option<Request>, phone: string, fwd: Option<string>,
                        realIp: Option<string>, sessions: seq<Session>, now: int, env: Env)
    requires Asks(body, phone, "verify") && Truthy(body.value.otp) && env.selectOk
    requires Latest(sessions, phone).Some?
    requires var s := sessions[Latest(sessions, phone).value];
      !Expired(s, now) && s.attempts >= 5
    ensures Post(body, fwd, realIp, sessions, now, env)
         == Outcome(Error(429, TooManyAttempts), sessions)
  {
  }

  /** A wrong code answers 400 and adds exactly one attempt to the latest session,
      touching nothing else (when the unchecked update goes through). */
  lemma VerifyWrongCode(body: Option<Request>, phone: string, fwd: Option<string>,
                        realIp: Option<string>, sessions: seq<Session>, now: int, env: Env)
    requires Asks(body, phone, "verify") && Truthy(body.value.otp) && env.selectOk
    requires Latest(sessions, phone).Some?
    requires var s := sessions[Latest(sessions, phone).value];
      !Expired(s, now) && s.attempts < 5 && body.value.otp != Str(s.otpCode)
    ensures var i := Latest(sessions, phone).value;
      var out := Post(body, fwd, realIp, sessions, now, env);
      && out.response == Error(400, WrongOtp)
      && |out.sessions| == |sessions|
      && (forall j :: 0 <= j < |sessions| && j != i ==> out.sessions[j] == sessions[j])
      && out.sessions[i].attempts == (if env.updateOk then sessions[i].attempts + 1 else sessions[i].attempts)
      && out.sessions[i].(attempts := sessions[i].attempts) == sessions[i]
  {
  }

  /** The right code marks the latest session verified and nothing else; the answer is
      200 with the provider's user and session, or 500 if the provider refuses, in which
      case the session stays verified. */
  lemma VerifyRightCode(body: Option<Request>, phone: string, fwd: Option<string>,
                        realIp: Option<string>, sessions: seq<Session>, now: int, env: Env)
    requires Asks(body, phone, "verify") && env.selectOk
    requires Latest(sessions, phone).Some?
    requires var s := sessions[Latest(sessions, phone).value];
      !Expired(s, now) && s.attempts < 5 && body.value.otp == Str(s.otpCode) && s.otpCode != ""
    ensures var i := Latest(sessions, phone).value;
      var out := Post(body, fwd, realIp, sessions, now, env);
      && out.response == (match env.auth
           case AuthOk(user, session) => Response(200, UserSessionBody(user, session))
           case AuthError(_) => Error(500, AuthFailed))
      && |out.sessions| == |sessions|
      && (forall j :: 0 <= j < |sessions| && j != i ==> out.sessions[j] == sessions[j])
      && out.sessions[i].verified == (env.updateOk || sessions[i].verified)
      && out.sessions[i].(verified := sessions[i].verified) == sessions[i]
  {
  }

  /** The `verified` flag is never read: marking the latest session verified (or not)
      changes no answer, so a verified session accepts its code again. */
  lemma VerifiedFlagIgnored(body: Option<Request>, phone: string, fwd: Option<string>,
                            realIp: Option<string>, sessions: seq<Session>, now: int, env: Env, b: bool)
    requires Asks(body, phone, "verify")
    requires Latest(sessions, phone).Some?
    ensures var i := Latest(sessions, phone).value;
      var flipped := sessions[i := sessions[i].(verified := b)];
      Post(body, fwd, realIp, flipped, now, env).response == Post(body, fwd, realIp, sessions, now, env).response
  {
    var i := Latest(sessions, phone).value;
    var flipped := sessions[i := sessions[i].(verified := b)];
    LatestIgnoresOtherFields(sessions, flipped, phone);
  }

  // ---------------------------------------------------------------------------
  // Several calls in a row

  /** A `verify` request goes to the `verify` action with its phone and code. */
  lemma PostVerifies(body: Option<Request>, phone: string, fwd: Option<string>, realIp: Option<string>,
                     sessions: seq<Session>, now: int, env: Env)
    requires Asks(body, phone, "verify")
    ensures Post(body, fwd, realIp, sessions, now, env) == Verify(phone, body.value.otp, sessions, now, env)
  {
  }

  /** The sessions after the `verify` action has run once per time in `times`, with
      the same phone, code and environment each time. */
  function Replay(phone: string, otp: Value, sessions: seq<Session>, times: seq<int>, env: Env): seq<Session>
    decreases |times|
  {
    if |times| == 0 then sessions
    else Replay(phone, otp, Verify(phone, otp, sessions, times[0], env).sessions, times[1..], env)
  }

  /** One wrong code within the lifetime of the latest session (index i): one more
      attempt below the limit, nothing changed at or above it, and the same session
      still the latest. */
  lemma WrongCodeStep(phone: string, otp: Value, sessions: seq<Session>, i: nat, now: int, env: Env)
    requires Truthy(otp) && env.selectOk && env.updateOk
    requires Latest(sessions, phone) == Some(i)
    requires otp != Str(sessions[i].otpCode) && !Expired(sessions[i], now)
    ensures var a := sessions[i].attempts;
      var next := sessions[i := sessions[i].(attempts := if a < 5 then a + 1 else a)];
      && Verify(phone, otp, sessions, now, env).sessions == next
      && Latest(next, phone) == Some(i)
  {
    var a := sessions[i].attempts;
    LatestAfterUpdate(sessions, i, sessions[i].(attempts := if a < 5 then a + 1 else a), phone);
  }

  /** The store with the attempt count of session i set to n. */
  function Bump(sessions: seq<Session>, i: nat, n: nat): (r: seq<Session>)
    requires i < |sessions|
    ensures |r| == |sessions| && r[i].attempts == n
  {
    sessions[i := sessions[i].(attempts := n)]
  }

  /** The first of several wrong codes, on the store whose latest session for the phone
      has n attempts. */
  lemma ReplayStep(phone: string, otp: Value, sessions: seq<Session>, i: nat, n: nat, times: seq<int>, env: Env)
    requires Truthy(otp) && env.selectOk && env.updateOk
    requires Latest(sessions, phone) == Some(i)
    requires otp != Str(sessions[i].otpCode)
    requires |times| > 0 && !Expired(sessions[i], times[0])
    ensures Replay(phone, otp, Bump(sessions, i, n), times, env)
         == Replay(phone, otp, Bump(sessions, i, if n < 5 then n + 1 else n), times[1..], env)
  {
    var cur := Bump(sessions, i, n);
    var next := Bump(sessions, i, if n < 5 then n + 1 else n);
    assert Verify(phone, otp, cur, times[0], env).sessions == next by {
      LatestAfterUpdate(sessions, i, cur[i], phone);
      WrongCodeStep(phone, otp, cur, i, times[0], env);
      RewriteTwice(sessions, i, cur[i], next[i]);
    }
  }

  /** Wrong codes sent within the lifetime of the latest session (index i) count up its
      attempts, one per call, until the limit: starting from n attempts, after k calls
      the count is min(n + k, 5) (or stays at n if already past 5), and nothing else
      changes. */
  lemma {:induction false} WrongCodesCountUp(phone: string, otp: Value, sessions: seq<Session>, i: nat, n: nat,
                                             times: seq<int>, env: Env)
    requires Truthy(otp) && env.selectOk && env.updateOk
    requires Latest(sessions, phone) == Some(i)
    requires otp != Str(sessions[i].otpCode)
    requires forall t :: t in times ==> !Expired(sessions[i], t)
    ensures Replay(phone, otp, Bump(sessions, i, n), times, env) == Bump(sessions, i, Min(n + |times|, Max(n, 5)))
    decreases |times|
  {
    if |times| > 0 {
      var n', rest := if n < 5 then n + 1 else n, times[1..];
      TailWithin(sessions[i], times);
      ReplayStep(phone, otp, sessions, i, n, times, env);
      WrongCodesCountUp(phone, otp, sessions, i, n', rest, env);
      CountStep(n, |times|);
    }
  }

  /** The first and every later time of a run within a session's lifetime are within
      it. */
  lemma TailWithin(s: Session, times: seq<int>)
    requires |times| > 0 && forall t :: t in times ==> !Expired(s, t)
    ensures !Expired(s, times[0]) && forall t :: t in times[1..] ==> !Expired(s, t)
  {
    assert times[0] in times;
    assert forall t :: t in times[1..] ==> t in times;
  }

  /** The attempt count after one more call, then k - 1 more. */
  lemma CountStep(a: nat, k: nat)
    requires k > 0
    ensures var a' := if a < 5 then a + 1 else a;
      Min(a' + (k - 1), Max(a', 5)) == Min(a + k, Max(a, 5))
  {
  }

  lemma RewriteTwice(s: seq<Session>, i: nat, x: Session, y: Session)
    requires i < |s|
    ensures s[i := x][i := y] == s[i := y]
  {
  }

  function Min(a: nat, b: nat): nat {
    if a <= b then a else b
  }

  function Max(a: nat, b: nat): nat {
    if a <= b then b else a
  }

  /** Five wrong codes on a fresh session within its lifetime lock it: the right code
      is then refused with 429. */
  lemma FiveWrongCodesLockOut(wrong: Value, right: Option<Request>, phone: string,
                              fwd: Option<string>, realIp: Option<string>, sessions: seq<Session>,
                              times: seq<int>, now: int, env: Env)
    requires Asks(right, phone, "verify")
    requires Truthy(wrong) && Truthy(right.value.otp) && env.selectOk && env.updateOk
    requires Latest(sessions, phone).Some?
    requires var s := sessions[Latest(sessions, phone).value];
      && s.attempts == 0 && wrong != Str(s.otpCode) && right.value.otp == Str(s.otpCode)
      && |times| == 5 && (forall t :: t in times ==> !Expired(s, t)) && !Expired(s, now)
    ensures var after := Replay(phone, wrong, sessions, times, env);
      Post(right, fwd, realIp, after, now, env).response == Error(429, TooManyAttempts)
  {
    var i := Latest(sessions, phone).value;
    assert Bump(sessions, i, 0) == sessions;
    WrongCodesCountUp(phone, wrong, sessions, i, 0, times, env);
    var after := Replay(phone, wrong, sessions, times, env);
    assert after == sessions[i := sessions[i].(attempts := 5)];
    LatestAfterUpdate(sessions, i, sessions[i].(attempts := 5), phone);
    VerifyLockedOut(right, phone, fwd, realIp, after, now, env);
  }
}
