/** `POST /api/send-otp`: checks the phone number, draws a six-digit code, asks the
    database procedure `create_otp_session` to store it with the caller's address, then
    asks the identity provider to send an SMS. The random draw and the outcomes of the two
    remote calls are parameters; the remote calls made are recorded in order. */
module SendOtpRoute {
  import opened Outcomes
  import opened Radix
  import opened Http
  import opened Patterns

  /** `Math.floor(Math.random() * 900000)`: an integer below 900000. */
  type Draw = d: nat | d < 900000

  /** The draw, and the error message (if any) of each remote call. */
  datatype Env = Env(draw: Draw, rpcError: Option<string>, smsError: Option<string>)

  /** A remote call the handler makes. */
  datatype Call =
    | CreateSession(phone: string, otp: string, ip: string)
    | SendSms(phone: string)

  datatype Outcome = Outcome(response: Response, calls: seq<Call>)

  // Messages the handler answers with.
  const InvalidPhone := "Numéro de téléphone invalide"
  const Sent := "OTP envoyé"
  const ServerError := "Erreur serveur interne"

  /** `Math.floor(100000 + Math.random() * 900000).toString()`. */
  function OtpCode(draw: Draw): string {
    ToDigits(100000 + draw, 10)
  }

  /** The whole handler; `None` stands for a body that is not valid JSON. The address is
      `x-forwarded-for`, else `'unknown'`. */
  function Post(body: Option<Value>, forwardedFor: Option<string>, env: Env): Outcome {
    var ip := OrElse(forwardedFor, "unknown");
    if body.None? then Outcome(Error(500, ServerError), [])
    else if !ValidPhone(body.value) then Outcome(Error(400, InvalidPhone), [])
    else
      var phone := body.value.s;
      var create := CreateSession(phone, OtpCode(env.draw), ip);
      if env.rpcError.Some? then Outcome(Error(500, env.rpcError.value), [create])
      else if env.smsError.Some? then Outcome(Error(500, env.smsError.value), [create, SendSms(phone)])
      else Outcome(Response(200, MessageBody(Sent)), [create, SendSms(phone)])
  }

  // ---------------------------------------------------------------------------
  // Properties

  /** The code is six decimal digits, the first never `0`, and reads back as
      100000 + draw. */
  lemma OtpCodeShape(draw: Draw)
    ensures var code := OtpCode(draw);
      && |code| == 6 && code[0] != '0'
      && (forall i :: 0 <= i < 6 ==> '0' <= code[i] <= '9')
      && FromDigits(code, 10) == 100000 + draw
  {
    var code := OtpCode(draw);
    SixDigits(100000 + draw);
    FromToDigits(100000 + draw, 10);
    forall i | 0 <= i < 6
      ensures '0' <= code[i] <= '9'
    {
      assert IsDigitChar(code[i]) && DigitValue(code[i]) < 10;
    }
  }

  /** Every six-digit code without a leading zero is drawn by exactly one draw; codes
      starting with `0` are never drawn. */
  lemma OtpCodeOnto(code: string)
    requires |code| == 6 && code[0] != '0' && AllDigits(code, 10)
    ensures var n := FromDigits(code, 10);
      100000 <= n < 1000000 && OtpCode(n - 100000) == code
  {
    var n := FromDigits(code, 10);
    ToFromDigits(code, 10);
    FromDigitsPositive(code, 10);
    ToDigitsLength(n, 10);
    assert Pow(10, 5) == 100000 && Pow(10, 6) == 1000000;
  }

  /** Distinct draws give distinct codes. */
  lemma OtpCodeInjective(a: Draw, b: Draw)
    requires OtpCode(a) == OtpCode(b)
    ensures a == b
  {
    FromToDigits(100000 + a, 10);
    FromToDigits(100000 + b, 10);
  }

  /** An invalid phone is refused with 400 before any remote call. */
  lemma InvalidPhoneNoCalls(v: Value, fwd: Option<string>, env: Env)
    requires !ValidPhone(v)
    ensures Post(Some(v), fwd, env) == Outcome(Error(400, InvalidPhone), [])
  {
  }

  /** With a valid phone the session is created first, with the drawn code and the
      caller's address; the SMS is requested only when that succeeded; the answer is 200
      only when both succeeded, and otherwise 500 with the failing call's message. */
  lemma ValidPhoneCalls(v: Value, fwd: Option<string>, env: Env)
    requires ValidPhone(v)
    ensures var out := Post(Some(v), fwd, env);
      && 1 <= |out.calls| <= 2
      && out.calls[0] == CreateSession(v.s, OtpCode(env.draw), OrElse(fwd, "unknown"))
      && (|out.calls| == 2 <==> env.rpcError.None?)
      && (|out.calls| == 2 ==> out.calls[1] == SendSms(v.s))
      && (out.response.status == 200 <==> env.rpcError.None? && env.smsError.None?)
      && (env.rpcError.Some? ==> out.response == Error(500, env.rpcError.value))
      && (env.rpcError.None? && env.smsError.Some? ==> out.response == Error(500, env.smsError.value))
  {
  }

  /** The SMS always goes to the number the session was created for. */
  lemma SmsMatchesSession(body: Option<Value>, fwd: Option<string>, env: Env)
    ensures var calls := Post(body, fwd, env).calls;
      forall k :: 0 <= k < |calls| && calls[k].SendSms? ==>
        k > 0 && calls[k - 1].CreateSession? && calls[k - 1].phone == calls[k].phone
  {
  }
}
