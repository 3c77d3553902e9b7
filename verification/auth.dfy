/** The account helpers of the shop: looking users up by e-mail or phone, resolving a
    referral code, drawing a fresh referral code, signing up with e-mail, and the admin
    check. The database is an abstract store of three tables; whether each remote query
    succeeds, what the identity provider answers, and the random draws are parameters. */
module Auth {
  import opened Outcomes
  import opened Radix
  import opened CaseMapping
  import opened Rows

  /** A row of `users`; `parrainId` is the referrer's id, `code` the user's own
      referral code (`code_parrainage`). */
  datatype User = User(
    id: string, nom: string, email: string, telephone: string,
    role: Option<string>, parrainId: Option<string>, code: string)

  /** A row of `parrainages`: who referred whom. */
  datatype Parrainage = Parrainage(parrainId: string, filleulId: string)

  /** The identity provider's accounts (by e-mail) and the two tables. */
  datatype Store = Store(accounts: seq<string>, users: seq<User>, parrainages: seq<Parrainage>)

  // Messages the helpers throw with.
  const AlreadyUsed := "Email ou téléphone déjà utilisé."
  const InvalidReferral := "Code de parrainage invalide."
  const SignUpFailed := "Inscription échouée."

  // ---------------------------------------------------------------------------
  // Lookups

  /** A user the `email.eq.…,telephone.eq.…` filter selects. */
  predicate SameContact(u: User, email: string, telephone: string) {
    u.email == email || u.telephone == telephone
  }

  /** Some stored user has this e-mail or this phone number. */
  predicate Registered(users: seq<User>, email: string, telephone: string) {
    exists j :: 0 <= j < |users| && SameContact(users[j], email, telephone)
  }

  /** `checkIfUserExists`: whether the filtered select returns any row; a query error is
      thrown. */
  function CheckIfUserExists(users: seq<User>, email: string, telephone: string,
                             queryError: Option<string>): Result<bool> {
    if queryError.Some? then Failure(queryError.value)
    else Ok(|Select(users, u => SameContact(u, email, telephone))| > 0)
  }

  /** The lookup answers exactly the registration question, and fails exactly with the
      query's error. */
  lemma CheckIfUserExistsSpec(users: seq<User>, email: string, telephone: string,
                              queryError: Option<string>)
    ensures var r := CheckIfUserExists(users, email, telephone, queryError);
      && (r.Failure? <==> queryError.Some?)
      && (r.Failure? ==> r.error == queryError.value)
      && (r.Ok? ==> (r.value <==> Registered(users, email, telephone)))
  {
    SelectNonEmpty(users, u => SameContact(u, email, telephone));
  }

  /** `checkIfAlreadyReferred`: the same query, but a query error reads as "no". It
      looks at `users` only, never at `parrainages`. */
  function CheckIfAlreadyReferred(users: seq<User>, email: string, telephone: string,
                                  queryError: Option<string>): bool {
    match CheckIfUserExists(users, email, telephone, queryError)
    case Ok(found) => found
    case Failure(_) => false
  }

  /** It is the registration question, failing open: an error answers false. */
  lemma AlreadyReferredFailsOpen(users: seq<User>, email: string, telephone: string,
                                 queryError: Option<string>)
    ensures CheckIfAlreadyReferred(users, email, telephone, queryError) <==>
      queryError.None? && Registered(users, email, telephone)
  {
    CheckIfUserExistsSpec(users, email, telephone, queryError);
  }

  /** User i holds the code and no other user does. */
  predicate SoleHolder(users: seq<User>, code: string, i: int) {
    && 0 <= i < |users| && users[i].code == code
    && forall j :: 0 <= j < |users| && users[j].code == code ==> j == i
  }

  /** User i is the only row with this id. */
  predicate SoleRow(users: seq<User>, id: string, i: int) {
    && 0 <= i < |users| && users[i].id == id
    && forall j :: 0 <= j < |users| && users[j].id == id ==> j == i
  }

  /** `isParrainCodeValid`: the id of the user holding the code, when the `.single()`
      lookup succeeds, that is when exactly one user holds it; `None` for `null`. */
  function IsParrainCodeValid(users: seq<User>, code: string, lookupOk: bool): Option<string> {
    if !lookupOk then None
    else
      match Single(users, (u: User) => u.code == code)
      case Some(i) => Some(users[i].id)
      case None => None
  }

  /** A code resolves to an id exactly when the lookup succeeds and exactly one user holds
      the code; the id is that user's. */
  lemma ParrainCodeSpec(users: seq<User>, code: string, lookupOk: bool)
    ensures IsParrainCodeValid(users, code, lookupOk).Some? <==>
      lookupOk && exists i :: SoleHolder(users, code, i)
    ensures forall i :: IsParrainCodeValid(users, code, lookupOk).Some? && SoleHolder(users, code, i) ==>
      IsParrainCodeValid(users, code, lookupOk).value == users[i].id
  {
    var keep := (u: User) => u.code == code;
    var r := Single(users, keep);
    if r.Some? {
      SingleSpec(users, keep, r.value);
      assert SoleHolder(users, code, r.value);
    }
    forall i | SoleHolder(users, code, i)
      ensures r == Some(i)
    {
      SingleSpec(users, keep, i);
    }
  }

  /** `getCurrentUser` then the `.single()` role lookup: a failure of the first is thrown;
      no signed-in user, a failed lookup, or not exactly one row reads as false. */
  function IsAdmin(current: Result<Option<string>>, users: seq<User>, lookupOk: bool): Result<bool> {
    match current
    case Failure(e) => Failure(e)
    case Ok(None) => Ok(false)
    case Ok(Some(id)) =>
      if !lookupOk then Ok(false)
      else
        match Single(users, (u: User) => u.id == id)
        case Some(i) => Ok(users[i].role == Some("admin"))
        case None => Ok(false)
  }

  /** Admin exactly when a user is signed in, the lookup succeeds, and the one stored row
      with that id has role `admin`; an error from `getCurrentUser` is passed on. */
  lemma IsAdminSpec(current: Result<Option<string>>, users: seq<User>, lookupOk: bool)
    ensures current.Failure? ==> IsAdmin(current, users, lookupOk) == Failure(current.error)
    ensures current.Ok? ==> IsAdmin(current, users, lookupOk).Ok?
    ensures IsAdmin(current, users, lookupOk) == Ok(true) <==>
      && current.Ok? && current.value.Some? && lookupOk
      && exists i :: SoleRow(users, current.value.value, i) && users[i].role == Some("admin")
  {
    if current.Ok? && current.value.Some? {
      var id := current.value.value;
      var keep := (u: User) => u.id == id;
      var r := Single(users, keep);
      if r.Some? {
        SingleSpec(users, keep, r.value);
      }
      forall i | SoleRow(users, id, i)
        ensures r == Some(i)
      {
        SingleSpec(users, keep, i);
      }
    }
  }

  // ---------------------------------------------------------------------------
  // Referral codes

  /** `Math.floor(Math.random() * 1000000)`. */
  type Draw = d: nat | d < 1000000

  /** One round of the loop: the number drawn, and whether the lookup returned data
      (`false` when it failed). */
  datatype Attempt = Attempt(draw: Draw, lookupOk: bool)

  /** `nom.slice(0, 3).toUpperCase()`: nothing filtered, nothing padded. */
  function CodeBase(nom: string): (r: string)
    ensures |r| == if |nom| < 3 then |nom| else 3
    ensures forall i :: 0 <= i < |r| ==> r[i] == UpperChar(nom[i])
  {
    ToUpper(if |nom| < 3 then nom else nom[..3])
  }

  /** The code a round proposes: the base, then the draw in decimal, unpadded. */
  function Candidate(base: string, draw: Draw): string {
    base + ToDigits(draw, 10)
  }

  /** What the loop sees as "taken": the lookup returned data, and it was not empty. */
  predicate Taken(users: seq<User>, code: string, lookupOk: bool) {
    lookupOk && exists j :: 0 <= j < |users| && users[j].code == code
  }

  /** The first round, from round k on, whose code the loop accepts. */
  function FirstFree(base: string, users: seq<User>, attempts: seq<Attempt>, k: nat): (r: Option<nat>)
    requires k <= |attempts|
    ensures r.Some? ==>
      && k <= r.value < |attempts|
      && !Taken(users, Candidate(base, attempts[r.value].draw), attempts[r.value].lookupOk)
    ensures forall j :: k <= j < |attempts| && (r.None? || j < r.value) ==>
      Taken(users, Candidate(base, attempts[j].draw), attempts[j].lookupOk)
    decreases |attempts| - k
  {
    if k == |attempts| then None
    else if Taken(users, Candidate(base, attempts[k].draw), attempts[k].lookupOk) then
      FirstFree(base, users, attempts, k + 1)
    else Some(k)
  }

  /** `generateUniqueParrainCode`: draws until a code is not seen in use. The source loops
      without bound; `None` means every supplied round found its code taken. */
  function GenerateUniqueParrainCode(nom: string, users: seq<User>, attempts: seq<Attempt>): Option<string> {
    var base := CodeBase(nom);
    match FirstFree(base, users, attempts, 0)
    case Some(k) => Some(Candidate(base, attempts[k].draw))
    case None => None
  }

  /** Round k is where the loop stopped with this code: its code is the base and the
      draw in decimal, no stored user held it unless the lookup failed, and every earlier
      round found its code taken. */
  predicate ChosenRound(base: string, users: seq<User>, attempts: seq<Attempt>, k: int, code: string) {
    && 0 <= k < |attempts|
    && code == base + ToDigits(attempts[k].draw, 10)
    && (attempts[k].lookupOk ==> forall j :: 0 <= j < |users| ==> users[j].code != code)
    && forall j :: 0 <= j < k ==> Taken(users, Candidate(base, attempts[j].draw), attempts[j].lookupOk)
  }

  /** A generated code is the upper-cased first three characters of the name followed by
      the decimal form of some draw below 1000000, and no stored user held it when last
      looked up, unless that lookup failed; every earlier round found its code taken. A
      round whose lookup fails ends the loop with its code. */
  lemma GeneratedCodeShape(nom: string, users: seq<User>, attempts: seq<Attempt>)
    ensures var r := GenerateUniqueParrainCode(nom, users, attempts);
      var base := CodeBase(nom);
      && (r.Some? ==> exists k :: ChosenRound(base, users, attempts, k, r.value))
      && (r.None? <==> forall j :: 0 <= j < |attempts| ==>
            Taken(users, Candidate(base, attempts[j].draw), attempts[j].lookupOk))
      && (|attempts| > 0 && !attempts[0].lookupOk ==> r == Some(Candidate(base, attempts[0].draw)))
  {
    var base := CodeBase(nom);
    var f := FirstFree(base, users, attempts, 0);
    if f.Some? {
      assert ChosenRound(base, users, attempts, f.value, Candidate(base, attempts[f.value].draw));
    }
  }

  /** The digits after the base read back as the draw, at most six of them. */
  lemma CodeSuffix(nom: string, draw: Draw)
    ensures var code := Candidate(CodeBase(nom), draw);
      var suffix := code[|CodeBase(nom)|..];
      && 1 <= |suffix| <= 6 && AllDigits(suffix, 10) && FromDigits(suffix, 10) == draw
  {
    var code := Candidate(CodeBase(nom), draw);
    assert code[|CodeBase(nom)|..] == ToDigits(draw, 10);
    FromToDigits(draw, 10);
    ToDigitsLength(draw, 10);
    assert Pow(10, 6) == 1000000;
    if |ToDigits(draw, 10)| > 6 {
      PowMonotone(10, 6, |ToDigits(draw, 10)| - 1);
    }
  }

  /** A short name gives a short base, and the draw is not padded: `Jo` and draw 7 give
      `JO7`. */
  lemma ShortNameExample()
    ensures GenerateUniqueParrainCode("Jo", [], [Attempt(7, true)]) == Some("JO7")
  {
    SingleDigit(7);
    assert DigitChar(7) == '7';
    assert CodeBase("Jo") == "JO";
    assert Candidate("JO", 7) == "JO7";
    assert FirstFree("JO", [], [Attempt(7, true)], 0) == Some(0);
  }

  // ---------------------------------------------------------------------------
  // Sign-up

  /** The sign-up form; the password only travels to the identity provider. */
  datatype Form = Form(email: string, nom: string, telephone: string, parrainCode: Option<string>)

  /** The identity provider's `signUp` answer: an error, or the new user's id (possibly
      missing). */
  datatype SignUpReply = ProviderError(message: string) | ProviderUser(id: Option<string>)

  /** The outcome of every remote step of a sign-up. */
  datatype Env = Env(
    existsError: Option<string>,
    codeLookupOk: bool,
    signUp: SignUpReply,
    attempts: seq<Attempt>,
    profileError: Option<string>,
    parrainageError: Option<string>)

  /** Thrown with a message, still drawing codes when the supplied rounds ran out, or
      done for the new user's id. */
  datatype SignUpResult = Thrown(message: string) | StillDrawing | SignedUp(id: string)

  datatype Outcome = Outcome(result: SignUpResult, store: Store)

  /** `if (parrainCode)`: a present, non-empty code. */
  predicate GivesCode(form: Form) {
    form.parrainCode.Some? && form.parrainCode.value != ""
  }

  /** The referrer `signUpWithEmail` records: none without a code, else the resolved id
      (`null` when the code does not resolve). */
  function Referrer(form: Form, users: seq<User>, codeLookupOk: bool): Option<string> {
    if GivesCode(form) then IsParrainCodeValid(users, form.parrainCode.value, codeLookupOk) else None
  }

  /** `signUpWithEmail`: each step runs only when the ones before it succeeded, and nothing
      is rolled back when a later step fails. */
  function SignUpWithEmail(form: Form, store: Store, env: Env): Outcome {
    match CheckIfUserExists(store.users, form.email, form.telephone, env.existsError)
    case Failure(e) => Outcome(Thrown(e), store)
    case Ok(true) => Outcome(Thrown(AlreadyUsed), store)
    case Ok(false) =>
      var parrainId := Referrer(form, store.users, env.codeLookupOk);
      if GivesCode(form) && (parrainId.None? || parrainId.value == "") then
        Outcome(Thrown(InvalidReferral), store)
      else
        match env.signUp
        case ProviderError(m) => Outcome(Thrown(m), store)
        case ProviderUser(userId) =>
          var withAccount := store.(accounts := store.accounts + [form.email]);
          if userId.None? || userId.value == "" then Outcome(Thrown(SignUpFailed), withAccount)
          else
            var id := userId.value;
            match GenerateUniqueParrainCode(form.nom, store.users, env.attempts)
            case None => Outcome(StillDrawing, withAccount)
            case Some(code) =>
              if env.profileError.Some? then Outcome(Thrown(env.profileError.value), withAccount)
              else
                var profile := User(id, form.nom, form.email, form.telephone, None, parrainId, code);
                var withProfile := withAccount.(users := store.users + [profile]);
                if parrainId.None? then Outcome(SignedUp(id), withProfile)
                else if env.parrainageError.Some? then
                  Outcome(Thrown(env.parrainageError.value), withProfile)
                else
                  var link := Parrainage(parrainId.value, id);
                  Outcome(SignedUp(id), withProfile.(parrainages := store.parrainages + [link]))
  }

  /** A sign-up only ever appends: every table keeps its earlier rows. */
  lemma SignUpAppendsOnly(form: Form, store: Store, env: Env)
    ensures var s := SignUpWithEmail(form, store, env).store;
      && store.accounts <= s.accounts && |s.accounts| <= |store.accounts| + 1
      && store.users <= s.users && |s.users| <= |store.users| + 1
      && store.parrainages <= s.parrainages && |s.parrainages| <= |store.parrainages| + 1
  {
  }

  /** A duplicate e-mail or phone is refused before any account, profile or referral row
      is created. */
  lemma DuplicateRefusedFirst(form: Form, store: Store, env: Env)
    requires env.existsError.None? && Registered(store.users, form.email, form.telephone)
    ensures SignUpWithEmail(form, store, env) == Outcome(Thrown(AlreadyUsed), store)
  {
    CheckIfUserExistsSpec(store.users, form.email, form.telephone, env.existsError);
  }

  /** A non-empty referral code that no single user holds (or whose lookup fails) is
      refused before the account is created. */
  lemma UnknownCodeRefused(form: Form, store: Store, env: Env)
    requires env.existsError.None? && !Registered(store.users, form.email, form.telephone)
    requires GivesCode(form)
    requires !env.codeLookupOk || forall i :: !SoleHolder(store.users, form.parrainCode.value, i)
    ensures SignUpWithEmail(form, store, env) == Outcome(Thrown(InvalidReferral), store)
  {
    CheckIfUserExistsSpec(store.users, form.email, form.telephone, env.existsError);
    ParrainCodeSpec(store.users, form.parrainCode.value, env.codeLookupOk);
  }

  /** In particular a code nobody holds writes nothing. */
  lemma UnheldCodeWritesNothing(form: Form, store: Store, env: Env)
    requires env.existsError.None? && GivesCode(form)
    requires forall i :: 0 <= i < |store.users| ==> store.users[i].code != form.parrainCode.value
    ensures SignUpWithEmail(form, store, env).store == store
    ensures SignUpWithEmail(form, store, env).result.Thrown?
  {
    CheckIfUserExistsSpec(store.users, form.email, form.telephone, env.existsError);
    ParrainCodeSpec(store.users, form.parrainCode.value, env.codeLookupOk);
  }

  /** A successful sign-up created one account and wrote exactly one profile, carrying
      the resolved referrer (or none when no code was given) and a freshly generated code,
      and wrote one referral row exactly when a referrer was resolved. */
  lemma SuccessWrites(form: Form, store: Store, env: Env)
    requires SignUpWithEmail(form, store, env).result.SignedUp?
    ensures var out := SignUpWithEmail(form, store, env);
      var id := out.result.id;
      var parrainId := Referrer(form, store.users, env.codeLookupOk);
      && !Registered(store.users, form.email, form.telephone)
      && (GivesCode(form) <==> parrainId.Some?)
      && out.store.accounts == store.accounts + [form.email]
      && GenerateUniqueParrainCode(form.nom, store.users, env.attempts).Some?
      && out.store.users == store.users + [User(id, form.nom, form.email, form.telephone, None,
           parrainId, GenerateUniqueParrainCode(form.nom, store.users, env.attempts).value)]
      && (parrainId.Some? ==> out.store.parrainages == store.parrainages + [Parrainage(parrainId.value, id)])
      && (parrainId.None? ==> out.store.parrainages == store.parrainages)
  {
    CheckIfUserExistsSpec(store.users, form.email, form.telephone, env.existsError);
  }

  /** Nothing is rolled back: a failing profile insert leaves the new account behind, and
      a failing referral insert leaves the new profile behind. */
  lemma FailuresLeaveEarlierWrites(form: Form, store: Store, env: Env)
    requires env.existsError.None? && !Registered(store.users, form.email, form.telephone)
    requires !GivesCode(form) || (env.codeLookupOk && exists i ::
      SoleHolder(store.users, form.parrainCode.value, i) && store.users[i].id != "")
    requires env.signUp.ProviderUser? && env.signUp.id.Some? && env.signUp.id.value != ""
    requires GenerateUniqueParrainCode(form.nom, store.users, env.attempts).Some?
    requires env.profileError.Some?
    ensures var out := SignUpWithEmail(form, store, env);
      && out.result == Thrown(env.profileError.value)
      && out.store == store.(accounts := store.accounts + [form.email])
  {
    CheckIfUserExistsSpec(store.users, form.email, form.telephone, env.existsError);
    if GivesCode(form) {
      ParrainCodeSpec(store.users, form.parrainCode.value, env.codeLookupOk);
      var i :| SoleHolder(store.users, form.parrainCode.value, i) && store.users[i].id != "";
      assert IsParrainCodeValid(store.users, form.parrainCode.value, true) == Some(store.users[i].id);
    }
  }

  /** A failing referral insert throws, yet the new account and the new profile, with the
      referrer's id, stay. */
  lemma ReferralFailureKeepsProfile(form: Form, store: Store, env: Env, i: nat)
    requires env.existsError.None? && !Registered(store.users, form.email, form.telephone)
    requires GivesCode(form) && env.codeLookupOk
    requires SoleHolder(store.users, form.parrainCode.value, i) && store.users[i].id != ""
    requires env.signUp.ProviderUser? && env.signUp.id.Some? && env.signUp.id.value != ""
    requires GenerateUniqueParrainCode(form.nom, store.users, env.attempts).Some?
    requires env.profileError.None? && env.parrainageError.Some?
    ensures var out := SignUpWithEmail(form, store, env);
      && out.result == Thrown(env.parrainageError.value)
      && out.store.accounts == store.accounts + [form.email]
      && out.store.users == store.users + [User(env.signUp.id.value, form.nom, form.email,
           form.telephone, None, Some(store.users[i].id),
           GenerateUniqueParrainCode(form.nom, store.users, env.attempts).value)]
      && out.store.parrainages == store.parrainages
  {
    CheckIfUserExistsSpec(store.users, form.email, form.telephone, env.existsError);
    ParrainCodeSpec(store.users, form.parrainCode.value, env.codeLookupOk);
    assert IsParrainCodeValid(store.users, form.parrainCode.value, true) == Some(store.users[i].id);
  }
}
