/** `toUpperCase` and `toLowerCase` on the letters that map one-to-one within Latin-1:
    the ASCII letters and the accented letters `À`–`Þ` / `à`–`þ` (without `×` and `÷`).
    Every other character is left as it is. */
module CaseMapping {

  predicate IsAsciiLower(c: char) {
    'a' <= c <= 'z'
  }

  predicate IsAsciiUpper(c: char) {
    'A' <= c <= 'Z'
  }

  /** A capital letter that `toLowerCase` maps within Latin-1. */
  predicate IsCapital(c: char) {
    IsAsciiUpper(c) || ('À' <= c <= 'Þ' && c != '×')
  }

  /** A small letter that `toUpperCase` maps within Latin-1. */
  predicate IsSmall(c: char) {
    IsAsciiLower(c) || ('à' <= c <= 'þ' && c != '÷')
  }

  function UpperChar(c: char): (u: char)
    ensures IsSmall(c) ==> IsCapital(u) && u as int == c as int - 32
    ensures !IsSmall(c) ==> u == c
  {
    if IsSmall(c) then (c as int - 32) as char else c
  }

  function LowerChar(c: char): (l: char)
    ensures IsCapital(c) ==> IsSmall(l) && l as int == c as int + 32
    ensures !IsCapital(c) ==> l == c
  {
    if IsCapital(c) then (c as int + 32) as char else c
  }

  function ToUpper(s: string): (r: string)
    ensures |r| == |s| && forall i :: 0 <= i < |s| ==> r[i] == UpperChar(s[i])
  {
    seq(|s|, i requires 0 <= i < |s| => UpperChar(s[i]))
  }

  function ToLower(s: string): (r: string)
    ensures |r| == |s| && forall i :: 0 <= i < |s| ==> r[i] == LowerChar(s[i])
  {
    seq(|s|, i requires 0 <= i < |s| => LowerChar(s[i]))
  }

  /** The two mappings undo each other on the letters they move. */
  lemma CaseRoundTrip(c: char)
    ensures IsSmall(c) ==> LowerChar(UpperChar(c)) == c
    ensures IsCapital(c) ==> UpperChar(LowerChar(c)) == c
  {
  }

  /** Lower-casing produces an ASCII small letter exactly from an ASCII letter. */
  lemma LowerIsAscii(c: char)
    ensures IsAsciiLower(LowerChar(c)) <==> IsAsciiLower(c) || IsAsciiUpper(c)
  {
  }

  /** Upper-casing is idempotent and commutes with concatenation. */
  lemma ToUpperProperties(a: string, b: string)
    ensures ToUpper(ToUpper(a)) == ToUpper(a)
    ensures ToUpper(a + b) == ToUpper(a) + ToUpper(b)
  {
  }
}
