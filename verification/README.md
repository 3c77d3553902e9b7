# Aumarché: referral, sign-up and one-time-code logic in Dafny

This project models the server-side logic of the Aumarché shop that deals with accounts:

- **One-time codes by SMS.** There are three route handlers:
  - `POST /api/auth/otp`, with its `send` and `verify` actions over the `otp_sessions` table;
  - `POST /api/send-otp`;
  - `POST /api/verify-otp`.
- **Account helpers** in `lib/auth.ts`:
  - the user lookup;
  - referral-code resolution and generation;
  - sign-up with e-mail;
  - the admin check.
- **Client referral utilities** in `lib/referral-utils.ts`:
  - referral codes, referral links and the code format;
  - reward tiers and rewards;
  - share messages.
- **Three maintenance scripts** that rewrite apostrophes in source text:
  - `fixApostrophes.js`: two regex passes plus its write-back test;
  - `fix-jsx-apostrophes.js`: the `fixApostrophes(text)` replacement;
  - `fixHTMLEntities.js`: the reverse replacement plus its write-back test.

The database is modelled as sequences of rows, where a row's id is its index. The answers of remote services are parameters:

- the database client's errors;
- the identity provider's verdicts;
- the SMS sending;
- `Math.random`;
- the clock.

Each handler is a pure function from its request, the store and those answers to its response and the new store. A JSON body that fails to parse is modelled as `None`.

Modules, one per file:

| Module | Contents |
|---|---|
| `Outcomes` | `Option` and `Result` |
| `Http` | body field values with JavaScript truthiness, `a \|\| b` on headers, responses |
| `Rows` | what a filtered `select` returns, and the `.single()` / `.maybeSingle()` reading of it (a row only when exactly one matches) |
| `Patterns` | the anchored regexes the handlers use, as runs of character classes, with closed forms |
| `Radix` | `Number.prototype.toString(base)`, its inverse, digit counts, and `slice(-k)` of base-36 digits |
| `CaseMapping` | `toUpperCase` / `toLowerCase` on Latin-1 letters |
| `OtpRoute`, `SendOtpRoute`, `VerifyOtpRoute` | the three handlers |
| `Auth` | `lib/auth.ts` |
| `ReferralUtils` | `lib/referral-utils.ts` |
| `Escape` | the common shape of the apostrophe rewrites: a text with some apostrophes marked, each marked one becoming `&apos;`. Each script's regex scan is proved equal to this rewrite with its own marks. |
| `JsxApostrophes`, `FixApostrophes` | the two apostrophe scripts, each as a left-to-right regex scan |
| `Entities` | `content.replace(/&apos;/g, "'")` |

Each regex scan is modelled the way a JavaScript engine runs it: matches do not overlap, the scan resumes after each match, and greedy runs backtrack to the last apostrophe.

Three observations beyond the findings below:

- **Reward tiers and reward table are offset by one.** `calculateRewardLevel` yields levels 1 to 5, but `getAvailableRewards` lists levels 1 to 4. So 50 referrals or more earn no listed reward, and level 4 (20 to 49 referrals) is the one labelled as the maximum (`ReferralUtils.TopTierHasNoRewards`).
- **Some generated referral codes fail the format check.** `generateUniqueReferralCode` can produce a code that `validateReferralCode` rejects: this happens when the random number renders with fewer than two base-36 fraction digits (`ReferralUtils.GeneratedCodeValidIff`).
- **`POST /api/auth/otp` never reads the `verified` flag.** A code that was already accepted is accepted again while the session is young (`OtpRoute.VerifiedFlagIgnored`). `POST /api/verify-otp` does filter on the flag, and there a code works once (`VerifyOtpRoute.NoSecondUse`).

## Model

| member | source | states |
|---|---|---|
| Http.OrElse | app/api/auth/otp/route.ts:13 | `a \|\| b` on a header: a present non-empty value is taken, and a missing or empty one gives the fallback |
| CaseMapping.ToUpper | lib/referral-utils.ts:13 | upper-casing keeps the length and maps each character on its own |
| CaseMapping.ToLower | lib/referral-utils.ts:5 | lower-casing keeps the length and maps each character on its own |
| CaseMapping.UpperChar | lib/referral-utils.ts:13 | a small letter becomes its capital, 32 code points lower, and every other character stays |
| CaseMapping.LowerChar | lib/referral-utils.ts:5 | a capital becomes its small letter, and every other character stays |
| CaseMapping.CaseRoundTrip | lib/referral-utils.ts:5 | lower-casing undoes upper-casing on small letters, and the reverse holds on capitals |
| CaseMapping.LowerIsAscii | lib/referral-utils.ts:5-6 | after lower-casing, a character is an ASCII small letter exactly when it was an ASCII letter |
| CaseMapping.ToUpperProperties | lib/referral-utils.ts:13 | upper-casing is idempotent and distributes over concatenation |
| Rows.SelectBelow | lib/auth.ts:9-12 | a filtered select returns, in increasing order, exactly the indices of the rows the filter keeps |
| Rows.SelectNonEmpty | lib/auth.ts:15 | the select returns something exactly when some row passes the filter |
| Rows.SingleSpec | lib/auth.ts:20-26 | `.single()` yields row i exactly when row i passes the filter and no other row does |
| Patterns.PhoneNumberForm | app/api/send-otp/route.ts:9 | `^\+?\d{8,15}$` holds exactly when, after dropping one leading `+`, 8 to 15 characters remain and all are digits |
| Patterns.PhoneNumberIf | app/api/send-otp/route.ts:9 | the closed form implies the phone regex matches |
| Patterns.PhoneNumberOnlyIf | app/api/send-otp/route.ts:9 | the phone regex matching implies the closed form |
| Patterns.ValidPhoneForm | app/api/verify-otp/route.ts:8 | the phone guard accepts exactly strings of that closed form (empty strings and non-strings are refused) |
| Patterns.SixDigitCodeForm | app/api/verify-otp/route.ts:11 | `^\d{6}$` holds exactly for six ASCII digits |
| Patterns.ReferralCodeForm | lib/referral-utils.ts:21-25 | `^[A-Z]{3}[A-Z0-9]{6}$` holds exactly for nine characters: three capitals, then capitals or digits |
| Radix.ToDigits | lib/referral-utils.ts:10 | `toString(base)` writes at least one digit of the base; zero is `"0"`, and a positive number has no leading zero |
| Radix.FromToDigits | lib/referral-utils.ts:10 | reading back the digits gives the number |
| Radix.ToFromDigits | lib/referral-utils.ts:10 | writing out what a digit string without leading zero denotes gives that string back |
| Radix.ToDigitsLength | lib/referral-utils.ts:10 | a positive number with k digits lies in [base^(k-1), base^k) |
| Radix.DigitCount | lib/referral-utils.ts:10 | a number in [base^(k-1), base^k) has exactly k digits |
| Radix.SixDigits | app/api/send-otp/route.ts:16 | numbers from 100000 to 999999 are written with six decimal digits, the first non-zero |
| Radix.Last | lib/referral-utils.ts:10 | for k ≥ 1, `slice(-k)` is the last k characters, or the whole string when it is shorter |
| Radix.LastDigits36 | lib/referral-utils.ts:10 | the last k base-36 digits of n denote n modulo 36^k |
| OtpRoute.OtpCode | app/api/auth/otp/route.ts:162-168 | `generateOtpCode` gives one decimal digit per draw, in order, each reading back as its draw |
| OtpRoute.EveryCodePossible | app/api/auth/otp/route.ts:162-168 | every six-digit string, leading zeros included, can be generated |
| OtpRoute.Latest | app/api/auth/otp/route.ts:73-79 | the session lookup returns a session of the requested phone |
| OtpRoute.LatestSpec | app/api/auth/otp/route.ts:73-86 | the lookup finds nothing exactly when the phone has no session, and otherwise finds one whose creation time no other session of the phone exceeds |
| OtpRoute.LatestIgnoresOtherFields | app/api/auth/otp/route.ts:73-79 | the lookup depends only on phones and creation times |
| OtpRoute.LatestAfterUpdate | app/api/auth/otp/route.ts:108-122 | the attempt and verified updates do not move the lookup |
| OtpRoute.PostWithoutPhone | app/api/auth/otp/route.ts:19-24 | without a phone the answer is 400 and nothing is stored, whatever the action |
| OtpRoute.PostInvalidAction | app/api/auth/otp/route.ts:148-151 | an action other than `send` and `verify` answers 400 and changes nothing |
| OtpRoute.SendAppendsOneSession | app/api/auth/otp/route.ts:26-62 | `send` appends exactly one session: this phone, no attempts, not verified, created now, the caller's address, a six-digit code. A failed insert answers 500 and stores nothing. |
| OtpRoute.VerifyNeedsCodeAndSession | app/api/auth/otp/route.ts:65-86 | `verify` without a code, or with no readable session for the phone, answers 400 and changes nothing |
| OtpRoute.VerifyExpiry | app/api/auth/otp/route.ts:89-95 | strictly past five minutes the latest session is refused as expired; at exactly five minutes it is not |
| OtpRoute.VerifyLockedOut | app/api/auth/otp/route.ts:98-103 | with five attempts or more the answer is 429, even for the right code, and nothing changes |
| OtpRoute.VerifyWrongCode | app/api/auth/otp/route.ts:106-116 | a wrong code answers 400 and adds one attempt to the latest session (when the unchecked update succeeds); nothing else changes |
| OtpRoute.VerifyRightCode | app/api/auth/otp/route.ts:119-145 | the right code marks only the latest session verified. The answer is 200 with the provider's user and session, or 500 when the provider refuses, and the mark stays even then. |
| OtpRoute.VerifiedFlagIgnored | app/api/auth/otp/route.ts:73-122 | the `verified` flag changes no answer |
| OtpRoute.WrongCodeStep | app/api/auth/otp/route.ts:106-116 | one wrong code within the lifetime adds one attempt below the limit, and the session stays the latest |
| OtpRoute.ReplayStep | app/api/auth/otp/route.ts:98-116 | replaying wrong codes: the first call moves the attempt count from n to n + 1, capped at 5 |
| OtpRoute.WrongCodesCountUp | app/api/auth/otp/route.ts:98-116 | k wrong codes within the lifetime take the count from n to min(n + k, 5) (n stays when already past 5), and nothing else changes |
| OtpRoute.FiveWrongCodesLockOut | app/api/auth/otp/route.ts:98-116 | after five wrong codes on a fresh session, the right code is refused with 429 |
| SendOtpRoute.OtpCodeShape | app/api/send-otp/route.ts:16 | the code is six decimal digits, the first never `0`, reading back as 100000 + draw |
| SendOtpRoute.OtpCodeOnto | app/api/send-otp/route.ts:16 | every six-digit code without a leading zero comes from a draw |
| SendOtpRoute.OtpCodeInjective | app/api/send-otp/route.ts:16 | distinct draws give distinct codes |
| SendOtpRoute.InvalidPhoneNoCalls | app/api/send-otp/route.ts:9-11 | an invalid phone is refused with 400 before any remote call |
| SendOtpRoute.ValidPhoneCalls | app/api/send-otp/route.ts:16-41 | the session is created first, with the code and address. The SMS is requested only after that succeeds. The answer is 200 only when both succeed, else 500 with the failing call's message. |
| SendOtpRoute.SmsMatchesSession | app/api/send-otp/route.ts:19-34 | the SMS goes to the number the session was created for |
| VerifyOtpRoute.ValidCodeForm | app/api/verify-otp/route.ts:11-13 | the code guard accepts exactly strings of six decimal digits; its length test adds nothing |
| VerifyOtpRoute.MatchSpec | app/api/verify-otp/route.ts:18-25 | `.maybeSingle()` finds row i exactly when row i alone holds this phone and code, is unverified and expires strictly after now |
| VerifyOtpRoute.ValidationFirst | app/api/verify-otp/route.ts:8-13 | a malformed phone or code is refused with 400 before the table is read |
| VerifyOtpRoute.NoMatchRefused | app/api/verify-otp/route.ts:18-29 | for well-formed input, the answer is 400 `OTP invalide ou expiré` with the table unchanged exactly when the lookup failed or no single row matched |
| VerifyOtpRoute.UpdateFailureIs500 | app/api/verify-otp/route.ts:32-40 | a matched row whose update fails answers 500 `Erreur interne` and changes nothing |
| VerifyOtpRoute.OnlyTheMatchChanges | app/api/verify-otp/route.ts:27-40 | the table changes only when one row was found and the update succeeded, and then only that row becomes verified |
| VerifyOtpRoute.SuccessMeansUniqueMatch | app/api/verify-otp/route.ts:18-54 | a 200 answer means exactly one row matched, and that row is now verified |
| VerifyOtpRoute.ExpiredOrUsedRejected | app/api/verify-otp/route.ts:23-24 | a row expiring at this instant, or already verified, is never selected |
| VerifyOtpRoute.NoSecondUse | app/api/verify-otp/route.ts:18-40 | a code accepted once is refused on any later call against the store the first call left |
| VerifyOtpRoute.AuthFailureKeepsVerification | app/api/verify-otp/route.ts:43-52 | a provider refusal answers 400 with its message, and the row stays verified |
| Auth.CheckIfUserExistsSpec | lib/auth.ts:8-16 | the lookup answers whether a user has this e-mail or this phone; it fails exactly with the query's error |
| Auth.AlreadyReferredFailsOpen | lib/auth.ts:155-163 | `checkIfAlreadyReferred` is true exactly when the query succeeds and the e-mail or phone is registered |
| Auth.ParrainCodeSpec | lib/auth.ts:19-28 | a code resolves exactly when the lookup succeeds and exactly one user holds the code; it resolves to that user's id |
| Auth.IsAdminSpec | lib/auth.ts:140-152 | admin exactly when a user is signed in, the lookup succeeds, and the one row with that id has role `admin`. An error from `getCurrentUser` is passed on. |
| Auth.CodeBase | lib/auth.ts:32 | the base is the first three characters of the name (fewer for a short name), upper-cased |
| Auth.FirstFree | lib/auth.ts:36-43 | the loop stops at the first round whose code is not seen in use; every earlier round saw its code taken |
| Auth.GeneratedCodeShape | lib/auth.ts:31-46 | a generated code is the base plus some round's draw. No user held it unless that lookup failed. A failed lookup ends the loop with its own code. |
| Auth.CodeSuffix | lib/auth.ts:37 | the digits after the base are 1 to 6 decimal digits reading back as the draw (no padding) |
| Auth.ShortNameExample | lib/auth.ts:32-37 | `Jo` with draw 7 gives `JO7` |
| Auth.DuplicateRefusedFirst | lib/auth.ts:63-64 | a registered e-mail or phone is refused before anything is written |
| Auth.UnknownCodeRefused | lib/auth.ts:67-71 | a code no single user holds, or whose lookup fails, is refused before the account is created |
| Auth.UnheldCodeWritesNothing | lib/auth.ts:67-71 | a code nobody holds throws and writes nothing |
| Auth.SuccessWrites | lib/auth.ts:74-104 | a successful sign-up made one account and one profile, with the resolved referrer and a generated code. It made one referral row exactly when a referrer was resolved. |
| Auth.FailuresLeaveEarlierWrites | lib/auth.ts:67-93 | a failing profile insert throws and leaves the new account behind, whether or not a referral code was given and resolved |
| Auth.ReferralFailureKeepsProfile | lib/auth.ts:74-102 | a failing referral insert throws and leaves the new account and the new profile behind; the profile has the provider's id, the form's fields, the code holder's id as referrer and the generated code |
| Auth.SignUpAppendsOnly | lib/auth.ts:49-105 | a sign-up only appends: at most one account, one profile and one referral row |
| ReferralUtils.KeepAsciiLower | lib/referral-utils.ts:6 | `.replace(/[^a-z]/g, '')` keeps only ASCII small letters and never lengthens |
| ReferralUtils.Prefix | lib/referral-utils.ts:7 | `.substring(0, n)` is the first n characters, or all of them |
| ReferralUtils.PadEnd | lib/referral-utils.ts:8 | `.padEnd(n, c)` keeps the string and fills with c up to n |
| ReferralUtils.KeepLowerOfLower | lib/referral-utils.ts:4-6 | lower-casing and then keeping `a`–`z` gives the name's ASCII letters, lower-cased, in order |
| ReferralUtils.CleanNameSpec | lib/referral-utils.ts:4-8 | the name part is the first three ASCII letters, lower-cased, padded with `x` |
| ReferralUtils.TimestampPartValue | lib/referral-utils.ts:10 | from 46656 ms on, the time part has four base-36 digits denoting the time modulo 36^4 |
| ReferralUtils.Substring | lib/referral-utils.ts:11 | `.substring(a, b)` is at most b - a characters |
| ReferralUtils.GeneratedCodeParts | lib/referral-utils.ts:3-14 | a generated code is three capitals, then 4 + min(2, fraction digits) capitals or digits |
| ReferralUtils.GeneratedCodeValidIff | lib/referral-utils.ts:3-25 | a generated code passes the format check exactly when the random number renders with two fraction digits or more |
| ReferralUtils.ReferralUrlRoundTrip | lib/referral-utils.ts:16-19 | the code is read back from the link built with it |
| ReferralUtils.BaseUrlFallback | lib/referral-utils.ts:17 | an empty or missing base falls back to the page origin, then to the empty string |
| ReferralUtils.FindTier | lib/referral-utils.ts:41 | `findIndex` gives the first tier containing the count, or none |
| ReferralUtils.TierIndex | lib/referral-utils.ts:33-41 | every count lies in exactly one tier |
| ReferralUtils.FindTierFound | lib/referral-utils.ts:33-41 | the tier boundaries in closed form: 0–2, 3–9, 10–19, 20–49, 50 and up |
| ReferralUtils.Divide | lib/referral-utils.ts:47 | `a / b` is the exact ratio for b > 0; 0/0 is NaN and a/0 is +Infinity |
| ReferralUtils.Min100 | lib/referral-utils.ts:53 | `Math.min(x, 100)` keeps NaN and caps every number at 100 |
| ReferralUtils.RewardLevelTier | lib/referral-utils.ts:41-51 | the level is the position of the count's tier, from 1, and the bonus is that tier's |
| ReferralUtils.RewardLevelMonotone | lib/referral-utils.ts:33-51 | more referrals never lower the level or the bonus |
| ReferralUtils.ProgressBelowTop | lib/referral-utils.ts:43-53 | below 50, progress is the share of the way to the next tier's minimum, in [0, 100), and the next level is above the count |
| ReferralUtils.AsWrittenTopTier | lib/referral-utils.ts:43-53 | as written, from 50 on the next level is announced at 50, and progress at exactly 50 is NaN |
| ReferralUtils.RewardLevelProgress | lib/referral-utils.ts:45-53 | corrected: progress is always a number from 0 to 100, full at the top tier, and the next level is never behind the count |
| ReferralUtils.RewardCounts | lib/referral-utils.ts:64-111 | levels 1 to 4 list one, two, two and one rewards; every other level lists none |
| ReferralUtils.TopTierHasNoRewards | lib/referral-utils.ts:110 | the rewards of the computed level are empty exactly from 50 referrals on; the "maximum level" reward goes to 20–49 |
| ReferralUtils.ShareMessageLink | lib/referral-utils.ts:135-151 | the three messages are one text. It ignores the user's name and ends with the public sign-up link, from which the code reads back. |
| Escape.EscapeAll | fixApostrophes.js:54 | `match.replace(/'/g, '&apos;')` leaves no apostrophe and never shortens |
| Escape.RewriteLength | fix-jsx-apostrophes.js:29 | each replaced apostrophe lengthens the text by five |
| Escape.RewriteKeep | fixApostrophes.js:53-54 | a stretch without replaced apostrophes is copied verbatim |
| Escape.RewriteStretch | fixApostrophes.js:53-58 | a stretch whose apostrophes are all replaced is rewritten as `EscapeAll` would |
| Escape.RewriteIdentity | fixApostrophes.js:53-58 | the rewrite changes the text exactly when some apostrophe is replaced, and then lengthens it |
| Escape.QuotesLeft | fixApostrophes.js:74 | an apostrophe remains in the output exactly when some apostrophe was not replaced |
| Escape.RewritePrefix | fix-jsx-apostrophes.js:29 | an output starting with a text free of `&` comes from an input starting with it |
| Escape.DecodeRewrite | fixHTMLEntities.js:20 | decoding the entities of a rewrite gives the same as decoding the original |
| Escape.RewriteRoundTrip | fixHTMLEntities.js:20 | `fixHTMLEntities` recovers any text free of `&apos;` from any apostrophe rewrite of it |
| Entities.Decode | fixHTMLEntities.js:20 | the replacement never lengthens, and a non-empty text stays non-empty |
| Entities.DecodeLength | fixHTMLEntities.js:20 | each entity replaced shortens the text by five |
| Entities.ContainsCounts | fixHTMLEntities.js:20 | a text containing an entity has a positive count of them |
| Entities.DecodeIdentity | fixHTMLEntities.js:20-24 | the text is unchanged exactly when it holds no `&apos;`, so the file is written back exactly then |
| Entities.DecodePrefix | fixHTMLEntities.js:20 | an output starting with a text free of apostrophes comes from an input starting with it |
| Entities.DecodeEntityFree | fixHTMLEntities.js:20 | no `&apos;` survives the replacement |
| JsxApostrophes.FixFromAgrees | fix-jsx-apostrophes.js:29 | the regex scan equals the rewrite whose marks are the apostrophes the scan replaces |
| JsxApostrophes.FixApostrophesSpec | fix-jsx-apostrophes.js:27-29 | which apostrophes are replaced: those preceded by neither `&` nor a replaced apostrophe; never the first character, never after `&`; in a run of apostrophes, every other one |
| JsxApostrophes.FixApostrophesPreserves | fix-jsx-apostrophes.js:24-30 | only apostrophes change: the length grows by five per replacement, a text without apostrophes is unchanged, and decoding entities undoes it |
| JsxApostrophes.FixFromCopies | fix-jsx-apostrophes.js:29 | a stretch with no apostrophe after its first character is copied |
| JsxApostrophes.FixApostrophesSingle | fix-jsx-apostrophes.js:29 | a lone apostrophe after an ordinary character becomes `&apos;`, and everything around it is copied |
| JsxApostrophes.FixApostrophesExample | fix-jsx-apostrophes.js:28 | `Erreur d'inscription` becomes `Erreur d&apos;inscription` |
| JsxApostrophes.FixApostrophesKeepsEntity | fix-jsx-apostrophes.js:25-26 | example: `l&apos;a` comes back unchanged (in general an existing entity is untouched because the rewrite of JsxApostrophes.FixApostrophesSpec changes only apostrophes) |
| FixApostrophes.NextIndexOf | fixApostrophes.js:53 | the first index at or after i holding the character, or the length when there is none |
| FixApostrophes.LastQuote | fixApostrophes.js:53 | where a greedy `[^x]*'` backtracks to: the last apostrophe before the bound |
| FixApostrophes.TextPassAgrees | fixApostrophes.js:53-54 | the first regex scan equals the rewrite that marks the apostrophes after a `>` |
| FixApostrophes.AfterGtIff | fixApostrophes.js:53 | the scan's state "after `>`" holds exactly when some `>` precedes with no `<` between |
| FixApostrophes.TextPassSpec | fixApostrophes.js:53-54 | the first pass replaces exactly the apostrophes some earlier `>` precedes with no `<` between |
| FixApostrophes.AttrPassAgrees | fixApostrophes.js:57-58 | the second regex scan equals the rewrite that marks the apostrophes inside a `="…"` value |
| FixApostrophes.AfterOpenQuoteIff | fixApostrophes.js:57 | the scan's state "inside a value" holds exactly when some `="` precedes with no `"` between |
| FixApostrophes.AttrPassSpec | fixApostrophes.js:57-58 | the second pass replaces exactly the apostrophes some earlier `="` precedes with no `"` between |
| FixApostrophes.AttrPassCopies | fixApostrophes.js:57-58 | without any `=` the second pass copies its input |
| FixApostrophes.FixUnescapedPreserves | fixApostrophes.js:53-58 | only apostrophes change: decoding entities undoes both passes, and a text without apostrophes is unchanged |
| FixApostrophes.WritesBackAsWrittenMisses | fixApostrophes.js:74-77 | as written, an escaped text is not saved, and an untouched apostrophe is saved unchanged |
| FixApostrophes.WritesBackIff | fixApostrophes.js:74-77 | corrected: a file is written back exactly when one of its apostrophes follows a `>` with no `<` between, or lies inside a `="…"` value |

## Left out

- **I/O and logging.** The directory walks and file reads and writes of the three scripts are not modelled, and neither are the `console` calls of every file. Only the write-back decision is modelled.
- **The Babel pass of `fix-jsx-apostrophes.js`.** The parse, traversal and regeneration in `processFile` (lines 32-105) are not modelled. Only `fixApostrophes(text)`, which it applies to every text node, attribute string and template chunk, is modelled.
- **Remote services.** Supabase queries, the identity provider and SMS sending are parameters: success or error, and the returned rows or ids.
- **PostgREST filter strings.** The model assumes the interpolated `or` filter of `lib/auth.ts` means what it says. An e-mail containing `,` or `)` would change the filter's meaning.
- **Ties in the session lookup.** For two sessions of the same phone created at the same instant, the order under `order('created_at')` is not specified. The model picks the later row.
- **Time.** Times are integer milliseconds. Parsing `created_at` and comparing `expires_at` as ISO strings is modelled as integer comparison.
- **Exceptions.** The `catch` branches are modelled only for a body that is not valid JSON. Other thrown errors, such as network failures, are not modelled.
- **Non-string body fields.** A `phone` in `POST /api/auth/otp` is modelled as absent or a string. A truthy non-string phone is not modelled.
- **Floating point.** `calculateRewardLevel` computes progress as an exact ratio (or NaN / +Infinity), not as a rounded double. `Math.random()` is given as draws, and its base-36 rendering as a string parameter.
- **`formatReferralStats`:** it only formats numbers with the locale-dependent `toLocaleString`.
- **`canBeReferred`:** it is a stub that always answers `{ canRefer: true }`.
- **Pass-throughs.** `signInWithEmail`, `signInWithOTP` and `signOut` only forward to the identity provider and rethrow its error. `getCurrentUser` is the `current` parameter of `Auth.IsAdmin`. The password only travels to the identity provider, so it is not part of the form.
- **Character indexing.** Strings are sequences of Unicode scalar values. JavaScript slices UTF-16 code units, so `slice(0, 3)` differs on characters outside the Basic Multilingual Plane.
- CaseMapping.ToUpper: maps only the Latin-1 letters `a`–`z` and `à`–`þ` (without `÷`), because other scripts and special cases (such as `ß` → `SS`, which lengthens the string) need the full Unicode tables.
- CaseMapping.ToLower: maps only the Latin-1 capitals `A`–`Z` and `À`–`Þ` (without `×`), for the same reason.
- CaseMapping.LowerIsAscii: the Latin-1 restriction makes this false of JavaScript for U+0130 (`İ`, lower-cased to `i` followed by U+0307) and U+212A (KELVIN SIGN, lower-cased to `k`): there an ASCII small letter comes from a non-ASCII character. The first case also lengthens the string, which a per-character mapping cannot express.
- ReferralUtils.KeepLowerOfLower: for the same two characters, JavaScript keeps an `i` or a `k` that the model drops, so "the name's ASCII letters" misses them.
- ReferralUtils.CleanNameSpec: for names containing U+0130 or U+212A the source's name part differs: `İbrahim` gives `ibr` in the source and `bra` in the model.
- Radix.Last: `slice(-0)` is the whole string in JavaScript, while `Last(s, 0)` is empty. The only call site uses k = 4, so the model covers k ≥ 1 only.
- Auth.FirstFree: searches only the rounds supplied. The source's loop has no bound, so a run of taken codes longer than the supplied rounds ends in `StillDrawing` rather than continuing.

## Findings

| source | as written | input that shows it | evidently intended | confidence | as-written member | corrected member |
|---|---|---|---|---|---|---|
| fixApostrophes.js:74 | writes the file back when the transformed content still contains `'` | content `>'`: the first pass turns it into `>&apos;`, which holds no `'`, so the fix is not saved. Content `'` is left unchanged but saved. | write back when the transformation changed the content | not executed | FixApostrophes.WritesBackAsWrittenMisses | FixApostrophes.WritesBackIff |
| lib/referral-utils.ts:43-53 | at the top tier the next tier falls back to the last tier itself, whose minimum 50 is finite, so the `=== Infinity` tests never hold | 50 referrals: progress is (0 / 0) * 100, which is NaN, and `nextLevelAt` is 50 for every count from 50 on | at the top tier, progress 100 and the next level at the count itself | not executed | ReferralUtils.AsWrittenTopTier | ReferralUtils.RewardLevelProgress |
