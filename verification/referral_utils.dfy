/** lib/referral-utils.ts: the client-side referral helpers. Referral codes built from a
    name, the clock and a random number; the referral link; the code format; the reward
    tier of a referral count; the rewards of a tier; and the share messages. The clock
    and the random number are parameters. */
module ReferralUtils {
  import opened Outcomes
  import opened Radix
  import opened Patterns
  import opened CaseMapping
  import opened Http

  // ---------------------------------------------------------------------------
  // generateUniqueReferralCode

  /** `.replace(/[^a-z]/g, '')`: the ASCII small letters, in order. */
  function KeepAsciiLower(s: string): (r: string)
    ensures |r| <= |s| && forall i :: 0 <= i < |r| ==> IsAsciiLower(r[i])
  {
    if |s| == 0 then []
    else (if IsAsciiLower(s[0]) then [s[0]] else []) + KeepAsciiLower(s[1..])
  }

  /** `.substring(0, n)`. */
  function Prefix(s: string, n: nat): (r: string)
    ensures |r| == if |s| < n then |s| else n
    ensures r == s[..|r|]
  {
    if |s| <= n then s else s[..n]
  }

  /** `.padEnd(n, c)`. */
  function PadEnd(s: string, n: nat, c: char): (r: string)
    ensures |r| == if |s| < n then n else |s|
    ensures r[..|s|] == s && forall i :: |s| <= i < |r| ==> r[i] == c
  {
    if |s| >= n then s else s + seq(n - |s|, _ => c)
  }

  /** The three-letter part: lower-case, drop all but `a`–`z`, keep three, pad with `x`. */
  function CleanName(name: string): string {
    PadEnd(Prefix(KeepAsciiLower(ToLower(name)), 3), 3, 'x')
  }

  /** Reference definition: the ASCII letters of a name, lower-cased, in order. */
  function AsciiLetters(name: string): (r: string)
  {
    if |name| == 0 then []
    else
      var c := name[0];
      (if IsAsciiLower(c) || IsAsciiUpper(c) then [LowerChar(c)] else []) + AsciiLetters(name[1..])
  }

  lemma {:induction false} KeepLowerOfLower(name: string)
    ensures KeepAsciiLower(ToLower(name)) == AsciiLetters(name)
    decreases |name|
  {
    if |name| > 0 {
      LowerIsAscii(name[0]);
      assert ToLower(name)[1..] == ToLower(name[1..]);
      KeepLowerOfLower(name[1..]);
    }
  }

  /** The three-letter part is the first three ASCII letters of the name, lower-cased,
      padded with `x` when the name has fewer. */
  lemma CleanNameSpec(name: string)
    ensures var letters := AsciiLetters(name);
      var r := CleanName(name);
      && |r| == 3 && (forall i :: 0 <= i < 3 ==> IsAsciiLower(r[i]))
      && (|letters| >= 3 ==> r == letters[..3])
      && (|letters| < 3 ==> r == letters + seq(3 - |letters|, _ => 'x'))
  {
    KeepLowerOfLower(name);
    var letters := AsciiLetters(name);
    var r := CleanName(name);
    if |letters| < 3 {
      assert r == letters + seq(3 - |letters|, _ => 'x');
    }
  }

  /** `Date.now().toString(36).slice(-4)`: the last four base-36 digits of the time. */
  function TimestampPart(now: nat): string {
    Last(ToDigits(now, 36), 4)
  }

  /** From 46656 ms after the epoch on, the time part has four digits and denotes the
      time modulo 36^4, so it repeats every 36^4 ms (about 28 minutes). */
  lemma TimestampPartValue(now: nat)
    requires now >= Pow(36, 3)
    ensures |TimestampPart(now)| == 4 && AllDigits(TimestampPart(now), 36)
    ensures FromDigits(TimestampPart(now), 36) == now % Pow(36, 4)
  {
    var d := ToDigits(now, 36);
    ToDigitsLength(now, 36);
    PowMonotone(36, if |d| < 4 then |d| else 3, 3);
    LastAllDigits(d, 36, 4);
    LastDigits36(now, 4);
  }

  /** `s.substring(a, b)` for a <= b: both ends clamped to the length. */
  function Substring(s: string, a: nat, b: nat): (r: string)
    requires a <= b
    ensures |r| <= b - a
  {
    var lo := if a < |s| then a else |s|;
    var hi := if b < |s| then b else |s|;
    s[lo..hi]
  }

  /** `Math.random().toString(36).substring(2, 4)`, given the rendering of the random
      number, which is `0.` followed by its base-36 fraction digits. */
  function RandomPart(rendering: string): string {
    Substring(rendering, 2, 4)
  }

  /** The whole code, upper-cased. */
  function GenerateUniqueReferralCode(name: string, now: nat, rendering: string): string {
    ToUpper(CleanName(name) + TimestampPart(now) + RandomPart(rendering))
  }

  lemma DigitCharUpper(c: char)
    requires IsDigitChar(c)
    ensures InClass(UpperChar(c), UpperOrDigit)
  {
  }

  /** A generated code passes `validateReferralCode` exactly when the random number's
      rendering has at least two fraction digits (once the clock is past 46656 ms). A
      number such as 0.5, rendered `0.i`, gives an eight-character code the format
      rejects. */
  lemma GeneratedCodeValidIff(name: string, now: nat, fraction: string)
    requires now >= Pow(36, 3) && AllDigits(fraction, 36)
    ensures IsReferralCode(GenerateUniqueReferralCode(name, now, "0." + fraction)) <==> |fraction| >= 2
  {
    var code := GenerateUniqueReferralCode(name, now, "0." + fraction);
    GeneratedCodeParts(name, now, fraction);
    ReferralCodeForm(code);
  }

  /** A generated code is three capitals followed by the time and random digits, upper-
      cased: seven characters and then as many as the random part has, at most two. */
  lemma GeneratedCodeParts(name: string, now: nat, fraction: string)
    requires now >= Pow(36, 3) && AllDigits(fraction, 36)
    ensures var code := GenerateUniqueReferralCode(name, now, "0." + fraction);
      && |code| == 7 + (if |fraction| < 2 then |fraction| else 2)
      && AllIn(code[..3], Upper) && AllIn(code[3..], UpperOrDigit)
  {
    var clean, ts, rnd := CleanName(name), TimestampPart(now), RandomPart("0." + fraction);
    CleanNameSpec(name);
    TimestampPartValue(now);
    assert rnd == fraction[..|rnd|];
    assert clean + ts + rnd == clean + (ts + rnd);
    UpperParts(clean, ts + rnd);
  }

  /** Upper-casing three small letters followed by base-36 digits gives three capitals
      followed by capitals and digits. */
  lemma UpperParts(clean: string, tail: string)
    requires |clean| == 3 && forall i :: 0 <= i < 3 ==> IsAsciiLower(clean[i])
    requires AllDigits(tail, 36)
    ensures var code := ToUpper(clean + tail);
      && |code| == 3 + |tail| && AllIn(code[..3], Upper) && AllIn(code[3..], UpperOrDigit)
  {
    var code := ToUpper(clean + tail);
    forall j | 0 <= j < |tail|
      ensures InClass(code[3..][j], UpperOrDigit)
    {
      assert code[3..][j] == UpperChar(tail[j]);
      DigitCharUpper(tail[j]);
    }
  }

  // ---------------------------------------------------------------------------
  // generateReferralUrl

  const SignupPath := "/signup?ref="

  /** The base: the given one if non-empty, else the page's origin in a browser, else
      the empty string. */
  function BaseUrl(baseUrl: Option<string>, origin: Option<string>): string {
    OrElse(baseUrl, origin.GetOr(""))
  }

  function GenerateReferralUrl(code: string, baseUrl: Option<string>, origin: Option<string>): string {
    BaseUrl(baseUrl, origin) + SignupPath + code
  }

  /** Reading the code back from a link with a known base. */
  function ReferralCodeOf(url: string, base: string): Option<string> {
    var head := base + SignupPath;
    if |head| <= |url| && url[..|head|] == head then Some(url[|head|..]) else None
  }

  lemma ReferralUrlRoundTrip(code: string, baseUrl: Option<string>, origin: Option<string>)
    ensures ReferralCodeOf(GenerateReferralUrl(code, baseUrl, origin), BaseUrl(baseUrl, origin)) == Some(code)
  {
    var head := BaseUrl(baseUrl, origin) + SignupPath;
    var url := GenerateReferralUrl(code, baseUrl, origin);
    assert url == head + code;
    assert url[..|head|] == head;
    assert url[|head|..] == code;
  }

  /** An empty base counts as missing. */
  lemma BaseUrlFallback(baseUrl: Option<string>, origin: Option<string>)
    ensures (baseUrl.Some? && baseUrl.value != "") ==> BaseUrl(baseUrl, origin) == baseUrl.value
    ensures (baseUrl.None? || baseUrl.value == "") && origin.Some? ==> BaseUrl(baseUrl, origin) == origin.value
    ensures (baseUrl.None? || baseUrl.value == "") && origin.None? ==> BaseUrl(baseUrl, origin) == ""
  {
  }

  // ---------------------------------------------------------------------------
  // calculateRewardLevel

  datatype Bound = AtMost(n: nat) | Unbounded

  datatype Tier = Tier(min: nat, max: Bound, bonus: nat)

  predicate InTier(n: nat, t: Tier) {
    t.min <= n && (t.max.AtMost? ==> n <= t.max.n)
  }

  const Tiers: seq<Tier> := [
    Tier(0, AtMost(2), 0),
    Tier(3, AtMost(9), 5),
    Tier(10, AtMost(19), 10),
    Tier(20, AtMost(49), 15),
    Tier(50, Unbounded, 20)
  ]

  /** `findIndex` over the tiers from index i. */
  function FindTier(tiers: seq<Tier>, n: nat, i: nat): (r: Option<nat>)
    requires i <= |tiers|
    ensures r.Some? ==> (i <= r.value < |tiers| && InTier(n, tiers[r.value])
      && forall j :: i <= j < r.value ==> !InTier(n, tiers[j]))
    ensures r.None? ==> forall j :: i <= j < |tiers| ==> !InTier(n, tiers[j])
    decreases |tiers| - i
  {
    if i == |tiers| then None
    else if InTier(n, tiers[i]) then Some(i)
    else FindTier(tiers, n, i + 1)
  }

  /** A JavaScript number as the progress computation can produce it: a ratio
      num / den with den > 0, positive infinity, or NaN. */
  datatype Number = Ratio(num: int, den: nat) | PosInfinity | NaN

  /** `a / b` for a, b >= 0. */
  function Divide(a: nat, b: nat): (r: Number)
    ensures b > 0 ==> r == Ratio(a, b)
    ensures b == 0 ==> (a > 0 <==> r.PosInfinity?) && (a == 0 <==> r.NaN?)
  {
    if b > 0 then Ratio(a, b) else if a > 0 then PosInfinity else NaN
  }

  function Times100(x: Number): Number {
    match x
    case Ratio(p, q) => Ratio(100 * p, q)
    case _ => x
  }

  /** `Math.min(x, 100)`: NaN stays NaN. */
  function Min100(x: Number): (r: Number)
    ensures x.NaN? <==> r.NaN?
    ensures x.Ratio? && x.den > 0 ==> r.Ratio? && r.den > 0 && r.num <= 100 * r.den
  {
    match x
    case Ratio(p, q) => if p <= 100 * q then x else Ratio(100, 1)
    case PosInfinity => Ratio(100, 1)
    case NaN => NaN
  }

  datatype RewardLevel = RewardLevel(niveau: nat, bonus: nat, nextLevelAt: nat, progress: Number)

  /** The index of the tier of n: every count lies in exactly one. */
  function TierIndex(n: nat): (k: nat)
    ensures k < |Tiers| && InTier(n, Tiers[k])
    ensures forall j :: 0 <= j < |Tiers| && InTier(n, Tiers[j]) ==> j == k
  {
    FindTierFound(n);
    FindTier(Tiers, n, 0).value
  }

  /** The tier boundaries in closed form. */
  function TierOf(n: nat): nat {
    if n <= 2 then 0 else if n <= 9 then 1 else if n <= 19 then 2 else if n <= 49 then 3 else 4
  }

  lemma FindTierFound(n: nat)
    ensures FindTier(Tiers, n, 0) == Some(TierOf(n))
  {
    assert InTier(n, Tiers[TierOf(n)]);
  }

  /** `calculateRewardLevel` as written. Past the last tier `niveaux[niveau]` is
      undefined and the fallback is the last tier itself, whose minimum is finite, so
      neither `=== Infinity` test ever holds: progress divides by zero and the next level
      is announced at 50. */
  function CalculateRewardLevelAsWritten(n: nat): RewardLevel {
    var k := TierIndex(n);
    var current := Tiers[k];
    var next := if k + 1 < |Tiers| then Tiers[k + 1] else Tiers[|Tiers| - 1];
    var progress := Min100(Times100(Divide(n - current.min, next.min - current.min)));
    RewardLevel(k + 1, current.bonus, next.min, progress)
  }

  /** `calculateRewardLevel` with the top tier handled as the `Infinity` tests intend:
      full progress, and no further level (announced at the count itself). */
  function CalculateRewardLevel(n: nat): RewardLevel {
    var k := TierIndex(n);
    var current := Tiers[k];
    if current.max.Unbounded? then RewardLevel(k + 1, current.bonus, n, Ratio(100, 1))
    else CalculateRewardLevelAsWritten(n)
  }

  /** The level is the position (from 1) of the one tier containing the count; the bonus
      is that tier's. */
  lemma RewardLevelTier(n: nat)
    ensures var r := CalculateRewardLevel(n);
      && 1 <= r.niveau <= 5 && InTier(n, Tiers[r.niveau - 1]) && r.bonus == Tiers[r.niveau - 1].bonus
      && r.niveau == CalculateRewardLevelAsWritten(n).niveau && r.bonus == CalculateRewardLevelAsWritten(n).bonus
  {
  }

  /** More referrals never lower the level or the bonus. */
  lemma RewardLevelMonotone(a: nat, b: nat)
    requires a <= b
    ensures CalculateRewardLevel(a).niveau <= CalculateRewardLevel(b).niveau
    ensures CalculateRewardLevel(a).bonus <= CalculateRewardLevel(b).bonus
  {
    FindTierFound(a);
    FindTierFound(b);
  }

  /** Below the top tier both versions agree: progress is the share of the way from this
      tier's minimum to the next tier's, a ratio in [0, 100), and the next level is the
      next tier's minimum, above the count. */
  lemma ProgressBelowTop(n: nat)
    requires n < 50
    ensures var r := CalculateRewardLevel(n);
      var k := r.niveau - 1;
      && r == CalculateRewardLevelAsWritten(n)
      && k + 1 < |Tiers|
      && r.progress == Ratio(100 * (n - Tiers[k].min), Tiers[k + 1].min - Tiers[k].min)
      && 0 <= r.progress.num < 100 * r.progress.den
      && r.nextLevelAt == Tiers[k + 1].min > n
  {
  }

  /** As written, the top tier reports NaN progress at exactly 50 referrals, and a next
      level at 50 for every count from 50 on. */
  lemma AsWrittenTopTier(n: nat)
    requires n >= 50
    ensures CalculateRewardLevelAsWritten(n).nextLevelAt == 50
    ensures n == 50 ==> CalculateRewardLevelAsWritten(n).progress == NaN
    ensures n > 50 ==> CalculateRewardLevelAsWritten(n).progress == Ratio(100, 1)
  {
  }

  /** Corrected: progress is always a number between 0 and 100, full in the top tier, and
      the next level is never behind the count. */
  lemma RewardLevelProgress(n: nat)
    ensures var r := CalculateRewardLevel(n);
      && r.progress.Ratio? && r.progress.den > 0 && 0 <= r.progress.num <= 100 * r.progress.den
      && r.nextLevelAt >= n
      && (n >= 50 ==> r.progress == Ratio(100, 1) && r.nextLevelAt == n)
  {
  }

  // ---------------------------------------------------------------------------
  // getAvailableRewards

  datatype RewardKind = Cashback | Discount | FreeDelivery | PremiumAccess

  datatype Reward = Reward(kind: RewardKind, value: nat, description: string, conditions: Option<string>)

  // The rewards of each level.
  const LevelOneRewards := [Reward(Discount, 5, "5% de réduction sur votre prochaine commande", Some("Valable 30 jours"))]
  const LevelTwoRewards := [
    Reward(Cashback, 10, "10% de cashback sur toutes vos commandes", Some("Cumulable avec autres offres")),
    Reward(FreeDelivery, 1, "Livraison gratuite à vie", None)]
  const LevelThreeRewards := [
    Reward(PremiumAccess, 1, "Accès prioritaire aux nouveaux produits", None),
    Reward(Cashback, 15, "15% de cashback permanent", Some("Sur toutes les commandes"))]
  const LevelFourRewards := [Reward(Cashback, 20, "20% de cashback VIP", Some("Niveau maximum atteint"))]

  /** `allRewards[niveau] || []`: rewards are listed for levels 1 to 4 only. */
  function GetAvailableRewards(niveau: int): seq<Reward> {
    if niveau == 1 then LevelOneRewards
    else if niveau == 2 then LevelTwoRewards
    else if niveau == 3 then LevelThreeRewards
    else if niveau == 4 then LevelFourRewards
    else []
  }

  /** Levels 1 to 4 have one, two, two and one rewards; every other number has none. */
  lemma RewardCounts(niveau: int)
    ensures |GetAvailableRewards(niveau)| ==
      if niveau == 1 || niveau == 4 then 1 else if niveau == 2 || niveau == 3 then 2 else 0
  {
  }

  /** The level the reward tiers give and the levels the reward table lists are offset:
      a count of 50 or more reaches level 5, for which the table lists nothing, and level 4
      (20 to 49 referrals) is the one labelled as the maximum. */
  lemma TopTierHasNoRewards(n: nat)
    ensures GetAvailableRewards(CalculateRewardLevel(n).niveau) == [] <==> n >= 50
    ensures 20 <= n < 50 <==> (GetAvailableRewards(CalculateRewardLevel(n).niveau)
      == LevelFourRewards)
  {
  }

  // ---------------------------------------------------------------------------
  // generateShareMessage

  datatype ShareMessages = ShareMessages(whatsapp: string, telegram: string, sms: string)

  const ShareSite := "https://aumarche.ci"

  // The invitation text around the code.
  const Invite := "Salut ! 🛒 Je viens de découvrir Aumarché, une super appli pour commander des produits frais en Côte d'Ivoire ! \n\n🎁 Inscris-toi avec mon code "
  const Perks := " et on gagne tous les deux des avantages exclusifs !\n\n📱 Télécharge l'app ici :"

  /** The invitation text, with the code in the middle. */
  function BaseMessage(code: string): string {
    Invite + code + Perks
  }

  function GenerateShareMessage(userName: string, code: string): ShareMessages {
    var m := BaseMessage(code) + " " + ShareSite + SignupPath + code;
    ShareMessages(m, m, m)
  }

  /** The three messages are the same text, which ignores the user's name and ends with
      the referral link for the public site. */
  lemma ShareMessageLink(userName: string, otherName: string, code: string, origin: Option<string>)
    ensures var s := GenerateShareMessage(userName, code);
      && s.whatsapp == s.telegram == s.sms
      && s == GenerateShareMessage(otherName, code)
      && s.sms == BaseMessage(code) + " " + GenerateReferralUrl(code, Some(ShareSite), origin)
      && ReferralCodeOf(s.sms[|BaseMessage(code)| + 1..], ShareSite) == Some(code)
  {
    var m := GenerateShareMessage(userName, code).sms;
    assert m == BaseMessage(code) + " " + (ShareSite + SignupPath + code);
    assert m[|BaseMessage(code)| + 1..] == ShareSite + SignupPath + code;
    ReferralUrlRoundTrip(code, Some(ShareSite), origin);
  }
}
