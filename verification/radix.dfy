/** Positional notation as JavaScript's `Number.prototype.toString(base)` writes a
    non-negative integer: most significant digit first, digits `0-9` then `a-z`, no
    leading zero, and `"0"` for zero. */
module Radix {

  predicate IsDigitChar(c: char) {
    '0' <= c <= '9' || 'a' <= c <= 'z'
  }

  /** The value of a digit character. */
  function DigitValue(c: char): nat
    requires IsDigitChar(c)
  {
    if c <= '9' then c as nat - '0' as nat else c as nat - 'a' as nat + 10
  }

  /** The character for digit d; `DigitValue` reads it back. */
  function DigitChar(d: nat): (c: char)
    requires d < 36
    ensures IsDigitChar(c) && DigitValue(c) == d
    ensures d < 10 <==> '0' <= c <= '9'
  {
    if d < 10 then (d + '0' as nat) as char else (d - 10 + 'a' as nat) as char
  }

  /** Every character of s is a digit of the given base. */
  predicate AllDigits(s: string, base: nat) {
    forall i :: 0 <= i < |s| ==> IsDigitChar(s[i]) && DigitValue(s[i]) < base
  }

  function Pow(b: nat, k: nat): (r: nat)
    ensures b > 0 ==> r > 0
  {
    if k == 0 then 1 else b * Pow(b, k - 1)
  }

  /** `n.toString(base)`. */
  function ToDigits(n: nat, base: nat): (r: string)
    requires 2 <= base <= 36
    ensures |r| >= 1 && AllDigits(r, base)
    ensures n == 0 ==> r == "0"
    ensures n > 0 ==> r[0] != '0'
    decreases n
  {
    if n < base then [DigitChar(n)]
    else
      DivStep(n, base);
      ToDigits(n / base, base) + [DigitChar(n % base)]
  }

  /** Dividing a number at least the base by it leaves a smaller positive quotient. */
  lemma DivStep(n: nat, b: nat)
    requires 2 <= b <= n
    ensures 0 < n / b < n
    ensures n == n / b * b + n % b && n % b < b
  {
    var q, r := n / b, n % b;
    assert n == q * b + r && 0 <= r < b;
    assert q != 0 by {
      assert q == 0 ==> n == r;
    }
    MulLe(2, b, q);
  }

  /** The number a string of digits denotes. */
  function FromDigits(s: string, base: nat): nat
    requires AllDigits(s, base)
  {
    if |s| == 0 then 0 else FromDigits(s[..|s| - 1], base) * base + DigitValue(s[|s| - 1])
  }

  /** Reading back what `ToDigits` wrote gives the number. */
  lemma {:induction false} FromToDigits(n: nat, base: nat)
    requires 2 <= base <= 36
    ensures FromDigits(ToDigits(n, base), base) == n
    decreases n
  {
    var r := ToDigits(n, base);
    if n >= base {
      var q, d := n / base, n % base;
      DivStep(n, base);
      FromToDigits(q, base);
      assert r[..|r| - 1] == ToDigits(q, base);
      assert FromDigits(r, base) == q * base + d;
    }
  }

  /** Writing out what a digit string denotes gives the string back, provided it has no
      leading zero (or is `"0"`). */
  lemma {:induction false} ToFromDigits(s: string, base: nat)
    requires 2 <= base <= 36 && AllDigits(s, base)
    requires |s| >= 1 && (s[0] == '0' ==> |s| == 1)
    ensures ToDigits(FromDigits(s, base), base) == s
    decreases |s|
  {
    if |s| == 1 {
      ToFromSingle(s, base);
    } else {
      InitDigits(s, base);
      ToFromDigits(s[..|s| - 1], base);
      ToFromSnoc(s, base);
    }
  }

  /** A one-character digit string is written back as itself. */
  lemma ToFromSingle(s: string, base: nat)
    requires 2 <= base <= 36 && AllDigits(s, base) && |s| == 1
    ensures ToDigits(FromDigits(s, base), base) == s
  {
    DigitCharOf(s[0]);
    assert FromDigits(s, base) == DigitValue(s[0]) by { assert s[..0] == []; }
  }

  /** Dropping the last digit keeps a digit string without leading zero. */
  lemma InitDigits(s: string, base: nat)
    requires AllDigits(s, base) && |s| >= 2 && s[0] != '0'
    ensures AllDigits(s[..|s| - 1], base) && s[..|s| - 1][0] != '0'
  {
  }

  /** If the digits of what s without its last digit denotes are s without its last
      digit, writing out what s denotes gives s. */
  lemma ToFromSnoc(s: string, base: nat)
    requires 2 <= base <= 36 && AllDigits(s, base) && |s| >= 2 && s[0] != '0'
    requires AllDigits(s[..|s| - 1], base)
    requires ToDigits(FromDigits(s[..|s| - 1], base), base) == s[..|s| - 1]
    ensures ToDigits(FromDigits(s, base), base) == s
  {
    var init, last := s[..|s| - 1], s[|s| - 1];
    var x, d := FromDigits(init, base), DigitValue(last);
    var n := FromDigits(s, base);
    assert n == x * base + d;
    InitDigits(s, base);
    FromDigitsPositive(init, base);
    DigitCharOf(last);
    AppendWrites(n, x, d, base, init, last);
    Snoc(s);
  }

  /** A non-empty string is its front followed by its last character. */
  lemma Snoc(s: string)
    requires |s| >= 1
    ensures s == s[..|s| - 1] + [s[|s| - 1]]
  {
  }

  /** n = x * base + d is written as the digits of x and then the digit d. */
  lemma AppendWrites(n: nat, x: nat, d: nat, base: nat, init: string, last: char)
    requires 2 <= base <= 36 && x >= 1 && d < base && n == x * base + d
    requires ToDigits(x, base) == init && DigitChar(d) == last
    ensures ToDigits(n, base) == init + [last]
  {
    ToDigitsAppend(x, d, base);
  }

  /** Appending digit d to the digits of a positive x writes x * base + d. */
  lemma ToDigitsAppend(x: nat, d: nat, base: nat)
    requires 2 <= base <= 36 && x >= 1 && d < base
    ensures ToDigits(x * base + d, base) == ToDigits(x, base) + [DigitChar(d)]
  {
    var n := x * base + d;
    MulLe(1, x, base);
    DivModUnique(n, base, x, d);
    ToDigitsStep(n, base);
  }

  /** A digit character is the character of its value. */
  lemma DigitCharOf(c: char)
    requires IsDigitChar(c)
    ensures DigitValue(c) < 36 && DigitChar(DigitValue(c)) == c
  {
  }

  /** A number at least the base is written as its quotient's digits and then its last
      digit. */
  lemma ToDigitsStep(n: nat, base: nat)
    requires 2 <= base <= n && base <= 36
    ensures ToDigits(n, base) == ToDigits(n / base, base) + [DigitChar(n % base)]
  {
  }

  /** A digit string with a non-zero first digit denotes a positive number. */
  lemma {:induction false} FromDigitsPositive(s: string, base: nat)
    requires 2 <= base <= 36 && AllDigits(s, base)
    requires |s| >= 1 && s[0] != '0'
    ensures FromDigits(s, base) > 0
    decreases |s|
  {
    var init := s[..|s| - 1];
    if |s| > 1 {
      FromDigitsPositive(init, base);
      MulLe(1, FromDigits(init, base), base);
    } else {
      assert DigitValue(s[0]) > 0;
    }
  }

  /** A positive number has exactly k digits iff it lies in [base^(k-1), base^k). */
  lemma {:induction false} ToDigitsLength(n: nat, base: nat)
    requires 2 <= base <= 36
    ensures n < Pow(base, |ToDigits(n, base)|)
    ensures n > 0 ==> Pow(base, |ToDigits(n, base)| - 1) <= n
    decreases n
  {
    if n >= base {
      var q, d := n / base, n % base;
      DivStep(n, base);
      ToDigitsLength(q, base);
      ToDigitsStep(n, base);
      var k := |ToDigits(q, base)|;
      assert |ToDigits(n, base)| == k + 1;
      BoundsStep(n, q, d, base, Pow(base, k - 1), Pow(base, k));
    } else {
      assert Pow(base, 1) == base;
    }
  }

  /** lo <= q < hi bounds q * b + d, for a digit d, by lo * b and hi * b. */
  lemma BoundsStep(n: nat, q: nat, d: nat, b: nat, lo: nat, hi: nat)
    requires n == q * b + d && d < b && lo <= q < hi
    ensures b * lo <= n < b * hi
  {
    MulLe(lo, q, b);
    DigitBelow(q, d, b, hi);
  }

  /** The number of digits is determined by the bounds. */
  lemma DigitCount(n: nat, base: nat, k: nat)
    requires 2 <= base <= 36 && k >= 1
    requires Pow(base, k - 1) <= n < Pow(base, k)
    ensures |ToDigits(n, base)| == k
  {
    ToDigitsLength(n, base);
    var m := |ToDigits(n, base)|;
    if m < k {
      PowMonotone(base, m, k - 1);
    } else if m > k {
      PowMonotone(base, k, m - 1);
    }
  }

  lemma {:induction false} PowMonotone(b: nat, i: nat, j: nat)
    requires b >= 1 && i <= j
    ensures Pow(b, i) <= Pow(b, j)
    decreases j - i
  {
    if i < j {
      PowMonotone(b, i, j - 1);
    }
  }

  /** Six-digit numbers, the range `Math.floor(100000 + Math.random() * 900000)`
      produces, are written with exactly six decimal digits, the first non-zero. */
  lemma SixDigits(n: nat)
    requires 100000 <= n <= 999999
    ensures |ToDigits(n, 10)| == 6 && ToDigits(n, 10)[0] != '0'
  {
    assert Pow(10, 5) == 100000 && Pow(10, 6) == 1000000;
    DigitCount(n, 10, 6);
  }

  /** A decimal digit is written as one character. */
  lemma SingleDigit(d: nat)
    requires d < 10
    ensures ToDigits(d, 10) == [DigitChar(d)] && '0' <= ToDigits(d, 10)[0] <= '9'
  {
  }

  /** `s.slice(-k)`: the last k characters, or all of s when it is shorter. */
  function Last(s: string, k: nat): (r: string)
    ensures |r| == if |s| < k then |s| else k
    ensures r == s[|s| - |r|..]
  {
    if |s| <= k then s else s[|s| - k..]
  }

  /** The number the last k base-36 digits of n denote. */
  function LastValue36(n: nat, k: nat): nat {
    LastAllDigits(ToDigits(n, 36), 36, k);
    FromDigits(Last(ToDigits(n, 36), k), 36)
  }

  /** The last k base-36 digits of n denote n modulo 36^k. */
  lemma {:induction false} LastDigits36(n: nat, k: nat)
    requires k <= |ToDigits(n, 36)|
    ensures LastValue36(n, k) == n % Pow(36, k)
    decreases n
  {
    if k == 0 || n < 36 {
      LastDigits36Base(n, k);
    } else {
      DivStep(n, 36);
      LastDigits36Split(n, k);
      LastDigits36(n / 36, k - 1);
      AppendDigit(LastValue36(n, k), n, 36, Pow(36, k - 1), Pow(36, k), LastValue36(n / 36, k - 1), n % 36);
    }
  }

  lemma {:induction false} LastDigits36Base(n: nat, k: nat)
    requires k <= |ToDigits(n, 36)| && (k == 0 || n < 36)
    ensures LastValue36(n, k) == n % Pow(36, k)
  {
    var r := ToDigits(n, 36);
    if k == 0 {
      assert Last(r, k) == [];
      assert Pow(36, k) == 1;
    } else {
      assert Last(r, k) == r;
      FromToDigits(n, 36);
      assert Pow(36, k) == 36;
    }
  }

  /** The last k digits of n are the last k - 1 digits of n / 36 followed by n % 36. */
  lemma {:induction false} LastDigits36Split(n: nat, k: nat)
    requires 36 <= n && 1 <= k <= |ToDigits(n, 36)|
    ensures k - 1 <= |ToDigits(n / 36, 36)|
    ensures LastValue36(n, k) == LastValue36(n / 36, k - 1) * 36 + n % 36
  {
    var r', c := ToDigits(n / 36, 36), DigitChar(n % 36);
    assert ToDigits(n, 36) == r' + [c];
    LastAppend(r', c, k);
    LastAllDigits(r', 36, k - 1);
    LastDigitsStep(Last(r', k - 1), c, 36, FromDigits(Last(r', k - 1), 36));
  }

  lemma LastAllDigits(s: string, base: nat, k: nat)
    requires AllDigits(s, base)
    ensures AllDigits(Last(s, k), base)
  {
    var r := Last(s, k);
    forall i | 0 <= i < |r|
      ensures IsDigitChar(r[i]) && DigitValue(r[i]) < base
    {
      assert r[i] == s[|s| - |r| + i];
    }
  }

  /** Taking the last k characters after appending one takes the last k - 1 before. */
  lemma LastAppend(s: string, c: char, k: nat)
    requires 1 <= k <= |s| + 1
    ensures Last(s + [c], k) == Last(s, k - 1) + [c]
  {
    if k <= |s| {
      var m := |s| + 1 - k;
      assert Last(s + [c], k) == (s + [c])[m..];
      assert Last(s, k - 1) == s[m..];
      assert (s + [c])[m..] == s[m..] + [c];
    }
  }

  lemma {:induction false} LastDigitsStep(l: string, c: char, base: nat, x: nat)
    requires 2 <= base <= 36 && AllDigits(l, base) && IsDigitChar(c) && DigitValue(c) < base
    requires FromDigits(l, base) == x
    ensures FromDigits(l + [c], base) == x * base + DigitValue(c)
  {
    assert (l + [c])[..|l|] == l;
  }

  /** A number written as n / b mod p followed by the digit n mod b is n mod (b * p). */
  lemma {:induction false} AppendDigit(a: int, n: nat, b: nat, p: nat, m: nat, x: int, d: int)
    requires b > 0 && p > 0 && m == b * p
    requires x == (n / b) % p && d == n % b && a == x * b + d
    ensures a == n % m
  {
    ModStep(n, b, p, m);
  }

  /** (n / b mod p) * b + n mod b == n mod m, where m = b * p. */
  lemma {:induction false} ModStep(n: nat, b: nat, p: nat, m: nat)
    requires b > 0 && p > 0 && m == b * p
    ensures (n / b) % p * b + n % b == n % m
  {
    var q, d := n / b, n % b;
    var u, v := q / p, q % p;
    assert n == (u * p + v) * b + d;
    assert n == u * (b * p) + (v * b + d);
    DigitBelow(v, d, b, p);
    DivModUnique(n, b * p, u, v * b + d);
  }

  lemma {:induction false} DivModUnique(n: int, m: int, u: int, w: int)
    requires m > 0 && n == u * m + w && 0 <= w < m
    ensures n / m == u && n % m == w
  {
    var u', w' := n / m, n % m;
    assert n == u' * m + w' && 0 <= w' < m;
    assert (u - u') * m == w' - w;
    if u > u' {
      MulLe(1, u - u', m);
    } else if u < u' {
      MulLe(1, u' - u, m);
    }
  }

  /** q * b + d < p * b when the digit d is below b and q < p. */
  lemma DigitBelow(q: nat, d: nat, b: nat, p: nat)
    requires d < b && q < p
    ensures q * b + d < p * b
  {
    MulLe(q + 1, p, b);
    assert (q + 1) * b == q * b + b;
  }

  lemma MulLe(a: int, b: int, c: nat)
    requires a <= b
    ensures a * c <= b * c
  {
  }
}
