/** The anchored regular expressions the handlers and referral rules test strings
    against, written as data (a sequence of character classes with repetition bounds)
    and matched with the usual backtracking semantics, together with closed forms. */
module Patterns {
  import opened Http

  /** `\+`, `\d` (ASCII digits only, as in JavaScript), `[A-Z]` and `[A-Z0-9]`. */
  datatype CharClass = Plus | Digit | Upper | UpperOrDigit

  predicate InClass(c: char, k: CharClass) {
    match k
    case Plus => c == '+'
    case Digit => '0' <= c <= '9'
    case Upper => 'A' <= c <= 'Z'
    case UpperOrDigit => 'A' <= c <= 'Z' || '0' <= c <= '9'
  }

  predicate AllIn(s: string, k: CharClass) {
    forall i :: 0 <= i < |s| ==> InClass(s[i], k)
  }

  /** A class repeated between `min` and `max` times: `k{min,max}`. */
  datatype Repeat = Repeat(chars: CharClass, min: nat, max: nat)

  /** `^p0 p1 ... $`: the whole string splits into consecutive runs, run i made of
      between min_i and max_i characters of class i. */
  predicate Matches(s: string, pattern: seq<Repeat>)
    decreases |pattern|
  {
    if |pattern| == 0 then |s| == 0
    else
      exists k :: pattern[0].min <= k <= pattern[0].max && k <= |s|
        && AllIn(s[..k], pattern[0].chars) && Matches(s[k..], pattern[1..])
  }

  /** `/^\+?\d{8,15}$/` */
  const PhonePattern: seq<Repeat> := [Repeat(Plus, 0, 1), Repeat(Digit, 8, 15)]

  /** `/^\d{6}$/` */
  const CodePattern: seq<Repeat> := [Repeat(Digit, 6, 6)]

  /** `/^[A-Z]{3}[A-Z0-9]{6}$/` */
  const ReferralPattern: seq<Repeat> := [Repeat(Upper, 3, 3), Repeat(UpperOrDigit, 6, 6)]

  /** A single run matches exactly a string of its class with a length in range. */
  lemma {:induction false} MatchesOne(s: string, r: Repeat)
    ensures Matches(s, [r]) <==> r.min <= |s| <= r.max && AllIn(s, r.chars)
  {
    var p := [r];
    assert p[1..] == [];
    if r.min <= |s| <= r.max && AllIn(s, r.chars) {
      assert s[..|s|] == s && s[|s|..] == [];
      assert Matches(s[|s|..], p[1..]);
    }
  }

  /** Two runs match exactly a string that splits at some k into one of each. */
  lemma {:induction false} MatchesTwo(s: string, r1: Repeat, r2: Repeat)
    ensures Matches(s, [r1, r2]) <==>
      exists k :: r1.min <= k <= r1.max && k <= |s| && AllIn(s[..k], r1.chars)
        && r2.min <= |s| - k <= r2.max && AllIn(s[k..], r2.chars)
  {
    var p := [r1, r2];
    assert p[1..] == [r2];
    forall k | 0 <= k <= |s|
      ensures Matches(s[k..], [r2]) <==> r2.min <= |s| - k <= r2.max && AllIn(s[k..], r2.chars)
    {
      MatchesOne(s[k..], r2);
    }
  }

  /** A telephone number: an optional `+` and then 8 to 15 ASCII digits. */
  predicate IsPhoneNumber(s: string) {
    Matches(s, PhonePattern)
  }

  /** What remains of a candidate telephone number after dropping one leading `+`. */
  function PhoneDigits(s: string): (d: string)
    ensures s == d || s == ['+'] + d
  {
    if |s| > 0 && s[0] == '+' then s[1..] else s
  }

  /** The closed form of the phone pattern: after dropping one leading `+`, if any,
      8 to 15 characters remain, all digits. */
  lemma {:induction false} PhoneNumberForm(s: string)
    ensures IsPhoneNumber(s) <==> 8 <= |PhoneDigits(s)| <= 15 && AllIn(PhoneDigits(s), Digit)
  {
    var d := PhoneDigits(s);
    if 8 <= |d| <= 15 && AllIn(d, Digit) {
      PhoneNumberIf(s);
    }
    if IsPhoneNumber(s) {
      PhoneNumberOnlyIf(s);
    }
  }

  lemma {:induction false} PhoneNumberIf(s: string)
    requires 8 <= |PhoneDigits(s)| <= 15 && AllIn(PhoneDigits(s), Digit)
    ensures IsPhoneNumber(s)
  {
    var k := |s| - |PhoneDigits(s)|;
    assert AllIn(s[..k], Plus);
    assert s[k..] == PhoneDigits(s);
    MatchesTwo(s, Repeat(Plus, 0, 1), Repeat(Digit, 8, 15));
  }

  lemma {:induction false} PhoneNumberOnlyIf(s: string)
    requires IsPhoneNumber(s)
    ensures 8 <= |PhoneDigits(s)| <= 15 && AllIn(PhoneDigits(s), Digit)
  {
    MatchesTwo(s, Repeat(Plus, 0, 1), Repeat(Digit, 8, 15));
    var k :| 0 <= k <= 1 && k <= |s| && AllIn(s[..k], Plus)
      && 8 <= |s| - k <= 15 && AllIn(s[k..], Digit);
    PhoneSplit(s, k);
  }

  /** Where the optional `+` run of a phone number ends, the digits begin. */
  lemma PhoneSplit(s: string, k: nat)
    requires k <= 1 && k <= |s| && AllIn(s[..k], Plus) && 8 <= |s| - k && AllIn(s[k..], Digit)
    ensures PhoneDigits(s) == s[k..]
  {
    if k == 0 {
      assert s[0..] == s;
      assert InClass(s[0], Digit);
    } else {
      assert s[..1][0] == s[0];
    }
  }

  /** A one-time code: exactly six ASCII digits. */
  predicate IsSixDigitCode(s: string) {
    Matches(s, CodePattern)
  }

  lemma {:induction false} SixDigitCodeForm(s: string)
    ensures IsSixDigitCode(s) <==> |s| == 6 && AllIn(s, Digit)
  {
    MatchesOne(s, Repeat(Digit, 6, 6));
  }

  /** The referral-code format: three capitals, then six capitals or digits. */
  predicate IsReferralCode(s: string) {
    Matches(s, ReferralPattern)
  }

  lemma {:induction false} ReferralCodeForm(s: string)
    ensures IsReferralCode(s) <==> |s| == 9 && AllIn(s[..3], Upper) && AllIn(s[3..], UpperOrDigit)
  {
    MatchesTwo(s, Repeat(Upper, 3, 3), Repeat(UpperOrDigit, 6, 6));
  }

  /** The phone guard both SMS handlers apply to the body's `phone`: a non-empty string
      that is a telephone number. */
  predicate ValidPhone(v: Value) {
    Truthy(v) && v.Str? && IsPhoneNumber(v.s)
  }

  /** The phone guard in closed form: 8 to 15 digits, optionally after one `+`. */
  lemma ValidPhoneForm(v: Value)
    ensures ValidPhone(v) <==> v.Str? && 8 <= |PhoneDigits(v.s)| <= 15 && AllIn(PhoneDigits(v.s), Digit)
  {
    if v.Str? {
      PhoneNumberForm(v.s);
    }
  }
}
