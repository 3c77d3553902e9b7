/** `POST /api/verify-otp`: checks a phone number and a six-digit code, looks up the one
    unverified, unexpired session holding that code for that phone, marks it verified and
    asks the identity provider to verify the code as well. The `otp_sessions` table is a
    sequence (a row's id is its index), time is in milliseconds, and the outcomes of the
    database and identity-provider calls are parameters. */
module VerifyOtpRoute {
  import opened Outcomes
  import opened Http
  import opened Patterns
  import opened Rows

  datatype PhoneSession = PhoneSession(
    phone: string, code: string, verified: bool, expiresAt: int, ip: string)

  /** The body fields the handler reads. */
  datatype Request = Request(phone: Value, code: Value)

  /** Whether the lookup and the update succeed, and the identity provider's verdict. */
  datatype Env = Env(selectOk: bool, updateOk: bool, auth: AuthResult)

  datatype Outcome = Outcome(response: Response, sessions: seq<PhoneSession>)

  // Messages the handler answers with.
  const InvalidPhone := "Numéro de téléphone invalide"
  const InvalidCode := "Code OTP invalide"
  const InvalidOrExpired := "OTP invalide ou expiré"
  const InternalError := "Erreur interne"
  const Verified := "OTP vérifié"
  const ServerError := "Erreur serveur interne"

  /** The code guard: a non-empty string of length 6 matching `^\d{6}$`. */
  predicate ValidCode(v: Value) {
    Truthy(v) && v.Str? && |v.s| == 6 && IsSixDigitCode(v.s)
  }

  /** A row the lookup selects: this phone, this code, not verified, and expiring
      strictly after now. */
  predicate IsCandidate(s: PhoneSession, phone: string, code: string, now: int) {
    s.phone == phone && s.code == code && !s.verified && s.expiresAt > now
  }

  /** `maybeSingle()` over the selected rows: the row when exactly one is selected; no
      row, or more than one (which the client reports as an error), gives nothing. */
  function Match(sessions: seq<PhoneSession>, phone: string, code: string, now: int): Option<nat> {
    Single(sessions, s => IsCandidate(s, phone, code, now))
  }

  /** The whole handler; `None` stands for a body that is not valid JSON. */
  function Post(body: Option<Request>, sessions: seq<PhoneSession>, now: int, env: Env): Outcome {
    if body.None? then Outcome(Error(500, ServerError), sessions)
    else if !ValidPhone(body.value.phone) then Outcome(Error(400, InvalidPhone), sessions)
    else if !ValidCode(body.value.code) then Outcome(Error(400, InvalidCode), sessions)
    else
      var phone := body.value.phone.s;
      var code := body.value.code.s;
      var found := if env.selectOk then Match(sessions, phone, code, now) else None;
      if found.None? then Outcome(Error(400, InvalidOrExpired), sessions)
      else if !env.updateOk then Outcome(Error(500, InternalError), sessions)
      else
        var i := found.value;
        var updated := sessions[i := sessions[i].(verified := true)];
        match env.auth
        case AuthError(message) => Outcome(Error(400, message), updated)
        case AuthOk(_, session) => Outcome(Response(200, VerifiedBody(Verified, session)), updated)
  }

  // ---------------------------------------------------------------------------
  // Properties

  /** The code guard in closed form: exactly six decimal digits. Its length test adds
      nothing to the pattern. */
  lemma ValidCodeForm(v: Value)
    ensures ValidCode(v) <==> v.Str? && |v.s| == 6 && AllIn(v.s, Digit)
  {
    if v.Str? {
      SixDigitCodeForm(v.s);
    }
  }

  /** The lookup finds row i exactly when row i is selected and no other row is. */
  lemma MatchSpec(sessions: seq<PhoneSession>, phone: string, code: string, now: int, i: nat)
    ensures Match(sessions, phone, code, now) == Some(i) <==>
      && i < |sessions| && IsCandidate(sessions[i], phone, code, now)
      && forall j :: 0 <= j < |sessions| && IsCandidate(sessions[j], phone, code, now) ==> j == i
  {
    SingleSpec(sessions, s => IsCandidate(s, phone, code, now), i);
  }

  /** Malformed input is refused before the table is read, whatever the table and the
      environment hold. */
  lemma ValidationFirst(body: Option<Request>, sessions: seq<PhoneSession>, now: int, env: Env)
    requires body.Some?
    ensures !ValidPhone(body.value.phone) ==>
      Post(body, sessions, now, env) == Outcome(Error(400, InvalidPhone), sessions)
    ensures ValidPhone(body.value.phone) && !ValidCode(body.value.code) ==>
      Post(body, sessions, now, env) == Outcome(Error(400, InvalidCode), sessions)
  {
  }

  /** With well-formed input, the answer is 400 `OTP invalide ou expiré` with the table
      untouched exactly when the lookup failed or found no single row. */
  lemma NoMatchRefused(body: Option<Request>, sessions: seq<PhoneSession>, now: int, env: Env)
    requires body.Some? && ValidPhone(body.value.phone) && ValidCode(body.value.code)
    ensures Post(body, sessions, now, env) == Outcome(Error(400, InvalidOrExpired), sessions) <==>
      !env.selectOk || Match(sessions, body.value.phone.s, body.value.code.s, now).None?
  {
  }

  /** A row found but not updated answers 500 `Erreur interne`, and the table is left as
      it was. */
  lemma UpdateFailureIs500(body: Option<Request>, sessions: seq<PhoneSession>, now: int, env: Env)
    requires body.Some? && ValidPhone(body.value.phone) && ValidCode(body.value.code)
    requires env.selectOk && !env.updateOk
    requires Match(sessions, body.value.phone.s, body.value.code.s, now).Some?
    ensures Post(body, sessions, now, env) == Outcome(Error(500, InternalError), sessions)
  {
  }

  /** The table changes only when one row was found and the update went through, and
      then exactly that row becomes verified; every other answer leaves it as it was. */
  lemma OnlyTheMatchChanges(body: Option<Request>, sessions: seq<PhoneSession>, now: int, env: Env)
    ensures var out := Post(body, sessions, now, env);
      || out.sessions == sessions
      || (&& body.Some? && ValidPhone(body.value.phone) && ValidCode(body.value.code)
          && env.selectOk && env.updateOk
          && var m := Match(sessions, body.value.phone.s, body.value.code.s, now);
             m.Some? && out.sessions == sessions[m.value := sessions[m.value].(verified := true)])
  {
  }

  /** A 200 answer means exactly one unverified, unexpired row held this code for this
      phone; it is now verified. */
  lemma SuccessMeansUniqueMatch(body: Option<Request>, sessions: seq<PhoneSession>, now: int, env: Env)
    requires Post(body, sessions, now, env).response.status == 200
    ensures body.Some? && body.value.phone.Str? && body.value.code.Str?
    ensures var phone := body.value.phone.s;
      var code := body.value.code.s;
      exists i :: 0 <= i < |sessions|
        && IsCandidate(sessions[i], phone, code, now)
        && (forall j :: 0 <= j < |sessions| && IsCandidate(sessions[j], phone, code, now) ==> j == i)
        && Post(body, sessions, now, env).sessions == sessions[i := sessions[i].(verified := true)]
  {
    var phone := body.value.phone.s;
    var code := body.value.code.s;
    var i := Match(sessions, phone, code, now).value;
    MatchSpec(sessions, phone, code, now, i);
  }

  /** A row expiring at this very instant is no longer accepted, and a verified row is
      never accepted again. */
  lemma ExpiredOrUsedRejected(s: PhoneSession, phone: string, code: string, now: int)
    requires s.expiresAt <= now || s.verified
    ensures !IsCandidate(s, phone, code, now)
  {
  }

  /** A code accepted once is refused if presented again, at the same moment or later,
      with the store the first call left. */
  lemma NoSecondUse(body: Option<Request>, sessions: seq<PhoneSession>, now: int, env: Env,
                    later: int, env2: Env)
    requires Post(body, sessions, now, env).response.status == 200
    requires later >= now
    ensures var after := Post(body, sessions, now, env).sessions;
      Post(body, after, later, env2) == Outcome(Error(400, InvalidOrExpired), after)
  {
    SuccessMeansUniqueMatch(body, sessions, now, env);
    var phone := body.value.phone.s;
    var code := body.value.code.s;
    var i := Match(sessions, phone, code, now).value;
    MatchSpec(sessions, phone, code, now, i);
    var after := sessions[i := sessions[i].(verified := true)];
    forall j | 0 <= j < |after|
      ensures !IsCandidate(after[j], phone, code, later)
    {
      assert after[j] == if j == i then sessions[i].(verified := true) else sessions[j];
    }
  }

  /** When the identity provider refuses, the answer is 400 with its message, yet the row
      stays marked verified: nothing is rolled back. */
  lemma AuthFailureKeepsVerification(body: Option<Request>, sessions: seq<PhoneSession>, now: int,
                                     env: Env, i: nat)
    requires body.Some? && ValidPhone(body.value.phone) && ValidCode(body.value.code)
    requires env.selectOk && env.updateOk && env.auth.AuthError?
    requires Match(sessions, body.value.phone.s, body.value.code.s, now) == Some(i)
    ensures var out := Post(body, sessions, now, env);
      && out.response == Error(400, env.auth.message)
      && out.sessions[i].verified
  {
  }
}
