/** fixApostrophes.js: the two regex replacements of `fixUnescapedApostrophes` and its
    decision to write the file back (the directory walk is not modelled). */
module FixApostrophes {
  import opened Outcomes
  import opened Entities
  import opened Escape

  /** The first index at or after i holding `c`, or |s| when there is none. */
  function NextIndexOf(s: string, c: char, i: nat): (j: nat)
    requires i <= |s|
    ensures i <= j <= |s|
    ensures forall k :: i <= k < j ==> s[k] != c
    ensures j < |s| ==> s[j] == c
    decreases |s| - i
  {
    if i == |s| || s[i] == c then i else NextIndexOf(s, c, i + 1)
  }

  /** Starting later inside a stretch free of `c` finds the same next `c`. */
  lemma {:induction false} NextIndexOfLater(s: string, c: char, a: nat, b: nat)
    requires a <= |s| && a <= b <= NextIndexOf(s, c, a)
    ensures NextIndexOf(s, c, b) == NextIndexOf(s, c, a)
    decreases b - a
  {
    if a < b {
      assert s[a] != c;
      NextIndexOfLater(s, c, a + 1, b);
    }
  }

  /** The greatest index in [lo, hi) holding an apostrophe: where a greedy `[^x]*'` that
      may run up to hi backtracks to. */
  function LastQuote(s: string, lo: nat, hi: nat): (r: Option<nat>)
    requires lo <= hi <= |s|
    ensures r.Some? ==> lo <= r.value < hi && s[r.value] == '\''
    ensures r.Some? ==> forall k :: r.value < k < hi ==> s[k] != '\''
    ensures r.None? ==> forall k :: lo <= k < hi ==> s[k] != '\''
    decreases hi - lo
  {
    if hi == lo then None
    else if s[hi - 1] == '\'' then Some(hi - 1)
    else LastQuote(s, lo, hi - 1)
  }

  /** What one step of a scan outputs, and the index it resumes from. */
  datatype Step = Step(out: string, next: nat)

  // ---------------------------------------------------------------------------
  // First pass: `content.replace(/>[^<]*'/g, match => match.replace(/'/g, '&apos;'))`

  /** The regex engine's scan from index i: at a `>` followed, before the next `<`, by an
      apostrophe, the match runs to the last such apostrophe and all apostrophes in it are
      replaced; the scan resumes after the match. Otherwise one character is copied. */
  function TextPassFrom(s: string, i: nat): string
    requires i <= |s|
    decreases |s| - i
  {
    if i == |s| then [] else TextStep(s, i).out + TextPassFrom(s, TextStep(s, i).next)
  }

  /** One step of the scan at i: a whole match, or one copied character. */
  function TextStep(s: string, i: nat): (r: Step)
    requires i < |s|
    ensures i < r.next <= |s|
  {
    if TextMatchAt(s, i) then
      var j := TextMatchEnd(s, i);
      Step(EscapeAll(s[i..j + 1]), j + 1)
    else Step([s[i]], i + 1)
  }

  /** A match of the first pass starts at i. */
  predicate TextMatchAt(s: string, i: nat)
    requires i < |s|
  {
    s[i] == '>' && LastQuote(s, i + 1, NextIndexOf(s, '<', i + 1)).Some?
  }

  /** Where that match ends: the last apostrophe before the next `<`. */
  function TextMatchEnd(s: string, i: nat): (j: nat)
    requires i < |s| && TextMatchAt(s, i)
    ensures i < j < |s| && s[j] == '\''
  {
    LastQuote(s, i + 1, NextIndexOf(s, '<', i + 1)).value
  }

  function TextPass(content: string): string {
    TextPassFrom(content, 0)
  }

  /** Just before index k, the most recent `>` or `<` is a `>`. */
  predicate AfterGt(s: string, k: nat)
    requires k <= |s|
    decreases k
  {
    k > 0 && (if s[k - 1] == '>' then true else if s[k - 1] == '<' then false else AfterGt(s, k - 1))
  }

  /** Some `>` comes before index k with no `<` between them. */
  ghost predicate InText(s: string, k: nat) {
    exists g :: 0 <= g < k <= |s| && s[g] == '>' && forall x :: g < x < k ==> s[x] != '<'
  }

  function TextMarks(s: string): seq<bool> {
    seq(|s|, k requires 0 <= k < |s| => AfterGt(s, k))
  }

  lemma {:induction false} AfterGtIff(s: string, k: nat)
    requires k <= |s|
    ensures AfterGt(s, k) <==> InText(s, k)
    decreases k
  {
    if k > 0 {
      AfterGtIff(s, k - 1);
      if s[k - 1] == '>' {
        assert InText(s, k) by {
          assert s[k - 1] == '>';
        }
      } else if s[k - 1] == '<' {
        assert !InText(s, k) by {
          forall g | 0 <= g < k && s[g] == '>'
            ensures !(forall x :: g < x < k ==> s[x] != '<')
          {
            assert g < k - 1 && s[k - 1] == '<';
          }
        }
      } else {
        if InText(s, k) {
          var g :| 0 <= g < k <= |s| && s[g] == '>' && forall x :: g < x < k ==> s[x] != '<';
          assert g != k - 1;
          assert InText(s, k - 1);
        }
        if InText(s, k - 1) {
          var g :| 0 <= g < k - 1 && s[g] == '>' && forall x :: g < x < k - 1 ==> s[x] != '<';
          assert forall x :: g < x < k ==> s[x] != '<';
        }
      }
    }
  }

  /** After a `>` at g, every index up to the next `<` is still "after `>`". */
  lemma {:induction false} AfterGtSpan(s: string, g: nat, k: nat)
    requires g < k <= |s| && s[g] == '>'
    requires forall x :: g < x < k ==> s[x] != '<'
    ensures AfterGt(s, k)
    decreases k
  {
    if k - 1 > g {
      AfterGtSpan(s, g, k - 1);
    }
  }

  /** From index i, the scan agrees with the state-based rewrite, provided that when i is
      "after `>`" no apostrophe lies ahead before the next `<` (otherwise an earlier match
      would have covered i). */
  ghost predicate TextSynced(s: string, i: nat)
    requires i <= |s|
  {
    AfterGt(s, i) ==> forall k :: i <= k < NextIndexOf(s, '<', i) ==> s[k] != '\''
  }

  lemma {:induction false} TextPassAgrees(s: string, i: nat)
    requires i <= |s| && TextSynced(s, i)
    ensures TextPassFrom(s, i) == RewriteFrom(s, TextMarks(s), i)
    decreases |s| - i
  {
    if i < |s| {
      TextStepAgrees(s, i);
      TextPassAgrees(s, TextStep(s, i).next);
    }
  }

  /** One step of the scan outputs what the marks say for the characters it passes, and
      leaves the scan synchronised. */
  lemma TextStepAgrees(s: string, i: nat)
    requires i < |s| && TextSynced(s, i)
    ensures var r := TextStep(s, i);
      TextSynced(s, r.next) && RewriteFrom(s, TextMarks(s), i) == r.out + RewriteFrom(s, TextMarks(s), r.next)
  {
    if TextMatchAt(s, i) {
      TextMatchAgrees(s, i);
    } else {
      TextCopyAgrees(s, i);
    }
  }

  lemma TextMatchAgrees(s: string, i: nat)
    requires i < |s| && TextMatchAt(s, i)
    ensures var r := TextStep(s, i);
      TextSynced(s, r.next) && RewriteFrom(s, TextMarks(s), i) == r.out + RewriteFrom(s, TextMarks(s), r.next)
  {
    TextMatchStep(s, i);
  }

  lemma TextCopyAgrees(s: string, i: nat)
    requires i < |s| && TextSynced(s, i) && !TextMatchAt(s, i)
    ensures var r := TextStep(s, i);
      TextSynced(s, r.next) && RewriteFrom(s, TextMarks(s), i) == r.out + RewriteFrom(s, TextMarks(s), r.next)
  {
    TextCopyStep(s, i);
  }

  /** A match of the first pass is rewritten as the marks say, and leaves the scan
      synchronised after it. */
  lemma TextMatchStep(s: string, i: nat)
    requires i < |s| && TextMatchAt(s, i)
    ensures var j := TextMatchEnd(s, i);
      && TextSynced(s, j + 1)
      && RewriteFrom(s, TextMarks(s), i) == EscapeAll(s[i..j + 1]) + RewriteFrom(s, TextMarks(s), j + 1)
  {
    var j := TextMatchEnd(s, i);
    TextMatchMarked(s, i);
    RewriteStretch(s, TextMarks(s), i, j + 1);
    TextMatchSynced(s, i);
  }

  /** Every apostrophe of a first-pass match is marked. */
  lemma TextMatchMarked(s: string, i: nat)
    requires i < |s| && TextMatchAt(s, i)
    ensures forall k :: i <= k < TextMatchEnd(s, i) + 1 && s[k] == '\'' ==> TextMarks(s)[k]
  {
    var j := TextMatchEnd(s, i);
    forall k | i <= k < j + 1 && s[k] == '\''
      ensures TextMarks(s)[k]
    {
      AfterGtSpan(s, i, k);
    }
  }

  /** After a first-pass match no apostrophe is left before the next `<`. */
  lemma TextMatchSynced(s: string, i: nat)
    requires i < |s| && TextMatchAt(s, i)
    ensures TextSynced(s, TextMatchEnd(s, i) + 1)
  {
    var j := TextMatchEnd(s, i);
    AfterGtSpan(s, i, j + 1);
    NextIndexOfLater(s, '<', i + 1, j + 1);
  }

  /** A character the first pass copies is one the marks leave alone, and the
      synchronisation fact carries over it. */
  lemma TextCopyStep(s: string, i: nat)
    requires i < |s| && TextSynced(s, i) && !TextMatchAt(s, i)
    ensures RewriteFrom(s, TextMarks(s), i) == [s[i]] + RewriteFrom(s, TextMarks(s), i + 1)
    ensures TextSynced(s, i + 1)
  {
    var m := TextMarks(s);
    assert s[i] == '\'' ==> i < NextIndexOf(s, '<', i);
    assert Piece(s[i], m[i]) == [s[i]];
    if s[i] == '>' {
      assert AfterGt(s, i + 1);
    } else if s[i] != '<' {
      assert AfterGt(s, i + 1) == AfterGt(s, i);
      assert NextIndexOf(s, '<', i) == NextIndexOf(s, '<', i + 1);
    }
  }

  /** The first pass replaces exactly the apostrophes that some earlier `>` precedes with
      no `<` in between. */
  lemma TextPassSpec(s: string)
    ensures TextPass(s) == Rewrite(s, TextMarks(s))
    ensures forall k :: 0 <= k < |s| ==> (TextMarks(s)[k] <==> InText(s, k))
  {
    TextPassAgrees(s, 0);
    forall k | 0 <= k < |s|
      ensures TextMarks(s)[k] <==> InText(s, k)
    {
      AfterGtIff(s, k);
    }
  }

  // ---------------------------------------------------------------------------
  // Second pass: `content.replace(/="\s*[^"]*'/g, match => match.replace(/'/g, '&apos;'))`
  // `\s*` followed by `[^"]*` matches exactly the runs free of `"`, as whitespace
  // excludes `"`.

  /** The regex engine's scan from index i: at `="` followed, before the next `"`, by an
      apostrophe, the match runs to the last such apostrophe; otherwise one character is
      copied. */
  function AttrPassFrom(s: string, i: nat): string
    requires i <= |s|
    decreases |s| - i
  {
    if i == |s| then [] else AttrStep(s, i).out + AttrPassFrom(s, AttrStep(s, i).next)
  }

  /** One step of the scan at i: a whole match, or one copied character. */
  function AttrStep(s: string, i: nat): (r: Step)
    requires i < |s|
    ensures i < r.next <= |s|
  {
    if AttrMatchAt(s, i) then
      var j := AttrMatchEnd(s, i);
      Step(EscapeAll(s[i..j + 1]), j + 1)
    else Step([s[i]], i + 1)
  }

  /** A match of the second pass starts at i. */
  predicate AttrMatchAt(s: string, i: nat)
    requires i < |s|
  {
    s[i] == '=' && i + 1 < |s| && s[i + 1] == '"' && LastQuote(s, i + 2, NextIndexOf(s, '"', i + 2)).Some?
  }

  /** Where that match ends: the last apostrophe before the closing `"`. */
  function AttrMatchEnd(s: string, i: nat): (j: nat)
    requires i < |s| && AttrMatchAt(s, i)
    ensures i + 1 < j < |s| && s[j] == '\''
  {
    LastQuote(s, i + 2, NextIndexOf(s, '"', i + 2)).value
  }

  function AttrPass(content: string): string {
    AttrPassFrom(content, 0)
  }

  /** Just before index k, the most recent `"` is one that directly follows `=`. */
  predicate AfterOpenQuote(s: string, k: nat)
    requires k <= |s|
    decreases k
  {
    k > 0 && (if s[k - 1] == '"' then k >= 2 && s[k - 2] == '=' else AfterOpenQuote(s, k - 1))
  }

  /** Index q holds the `"` of a `="`. */
  predicate OpensValue(s: string, q: int) {
    0 < q < |s| && s[q - 1] == '=' && s[q] == '"'
  }

  /** Some `="` has its `"` at an index q before k, with no `"` after q before k. */
  ghost predicate InAttribute(s: string, k: nat) {
    exists q :: q < k <= |s| && OpensValue(s, q) && forall x :: q < x < k ==> s[x] != '"'
  }

  function AttrMarks(s: string): seq<bool> {
    seq(|s|, k requires 0 <= k < |s| => AfterOpenQuote(s, k))
  }

  lemma {:induction false} AfterOpenQuoteIff(s: string, k: nat)
    requires k <= |s|
    ensures AfterOpenQuote(s, k) <==> InAttribute(s, k)
    decreases k
  {
    if k > 0 {
      AfterOpenQuoteIff(s, k - 1);
      if s[k - 1] == '"' {
        if k >= 2 && s[k - 2] == '=' {
          assert InAttribute(s, k) by {
            assert OpensValue(s, k - 1);
          }
        }
        if InAttribute(s, k) {
          var q :| q < k <= |s| && OpensValue(s, q) && forall x :: q < x < k ==> s[x] != '"';
          assert q == k - 1;
        }
      } else {
        if InAttribute(s, k) {
          var q :| q < k <= |s| && OpensValue(s, q) && forall x :: q < x < k ==> s[x] != '"';
          assert q != k - 1;
          assert InAttribute(s, k - 1);
        }
        if InAttribute(s, k - 1) {
          var q :| q < k - 1 && OpensValue(s, q) && forall x :: q < x < k - 1 ==> s[x] != '"';
          assert forall x :: q < x < k ==> s[x] != '"';
        }
      }
    }
  }

  /** After the `"` of a `="` at q, every index up to the next `"` is inside the value. */
  lemma {:induction false} AfterOpenQuoteSpan(s: string, q: nat, k: nat)
    requires q < k <= |s| && OpensValue(s, q)
    requires forall x :: q < x < k ==> s[x] != '"'
    ensures AfterOpenQuote(s, k)
    decreases k
  {
    if k - 1 > q {
      AfterOpenQuoteSpan(s, q, k - 1);
    }
  }

  /** As for the first pass; in addition, a scan standing on the `"` of a `="` (the match
      attempt at the `=` having failed) has no apostrophe ahead before the next `"`. */
  ghost predicate AttrSynced(s: string, i: nat)
    requires i <= |s|
  {
    && (AfterOpenQuote(s, i) ==> forall k :: i <= k < NextIndexOf(s, '"', i) ==> s[k] != '\'')
    && (0 < i < |s| && s[i] == '"' && s[i - 1] == '=' ==>
          forall k :: i + 1 <= k < NextIndexOf(s, '"', i + 1) ==> s[k] != '\'')
  }

  lemma {:induction false} AttrPassAgrees(s: string, i: nat)
    requires i <= |s| && AttrSynced(s, i)
    ensures AttrPassFrom(s, i) == RewriteFrom(s, AttrMarks(s), i)
    decreases |s| - i
  {
    if i < |s| {
      AttrStepAgrees(s, i);
      AttrPassAgrees(s, AttrStep(s, i).next);
    }
  }

  /** One step of the scan outputs what the marks say for the characters it passes, and
      leaves the scan synchronised. */
  lemma AttrStepAgrees(s: string, i: nat)
    requires i < |s| && AttrSynced(s, i)
    ensures var r := AttrStep(s, i);
      AttrSynced(s, r.next) && RewriteFrom(s, AttrMarks(s), i) == r.out + RewriteFrom(s, AttrMarks(s), r.next)
  {
    if AttrMatchAt(s, i) {
      AttrMatchAgrees(s, i);
    } else {
      AttrCopyAgrees(s, i);
    }
  }

  lemma AttrMatchAgrees(s: string, i: nat)
    requires i < |s| && AttrMatchAt(s, i)
    ensures var r := AttrStep(s, i);
      AttrSynced(s, r.next) && RewriteFrom(s, AttrMarks(s), i) == r.out + RewriteFrom(s, AttrMarks(s), r.next)
  {
    AttrMatchStep(s, i);
  }

  lemma AttrCopyAgrees(s: string, i: nat)
    requires i < |s| && AttrSynced(s, i) && !AttrMatchAt(s, i)
    ensures var r := AttrStep(s, i);
      AttrSynced(s, r.next) && RewriteFrom(s, AttrMarks(s), i) == r.out + RewriteFrom(s, AttrMarks(s), r.next)
  {
    AttrCopyStep(s, i);
  }

  /** A match of the second pass from `="` at i to the apostrophe at j is rewritten as
      the marks say, and leaves the scan synchronised after it. */
  lemma AttrMatchStep(s: string, i: nat)
    requires i < |s| && AttrMatchAt(s, i)
    ensures var j := AttrMatchEnd(s, i);
      && AttrSynced(s, j + 1)
      && RewriteFrom(s, AttrMarks(s), i) == EscapeAll(s[i..j + 1]) + RewriteFrom(s, AttrMarks(s), j + 1)
  {
    var j := AttrMatchEnd(s, i);
    AttrMatchMarked(s, i);
    RewriteStretch(s, AttrMarks(s), i, j + 1);
    AttrMatchSynced(s, i);
  }

  /** Every index of the match after its `="` is inside the value, so every apostrophe of
      the match is marked. */
  lemma AttrMatchMarked(s: string, i: nat)
    requires i < |s| && AttrMatchAt(s, i)
    ensures forall k :: i <= k < AttrMatchEnd(s, i) + 1 && s[k] == '\'' ==> AttrMarks(s)[k]
  {
    var j := AttrMatchEnd(s, i);
    assert OpensValue(s, i + 1);
    forall k | i + 1 < k <= j + 1
      ensures AfterOpenQuote(s, k)
    {
      AfterOpenQuoteSpan(s, i + 1, k);
    }
  }

  /** After the match the scan is still inside the value, with no apostrophe left before
      the closing `"`. */
  lemma AttrMatchSynced(s: string, i: nat)
    requires i < |s| && AttrMatchAt(s, i)
    ensures AttrSynced(s, AttrMatchEnd(s, i) + 1)
  {
    var j := AttrMatchEnd(s, i);
    NextIndexOfLater(s, '"', i + 2, j + 1);
  }

  /** A character the scan copies is one the marks leave alone, and the synchronisation
      facts carry over it. */
  lemma AttrCopyStep(s: string, i: nat)
    requires i < |s| && AttrSynced(s, i) && !AttrMatchAt(s, i)
    ensures RewriteFrom(s, AttrMarks(s), i) == [s[i]] + RewriteFrom(s, AttrMarks(s), i + 1)
    ensures AttrSynced(s, i + 1)
  {
    assert Piece(s[i], AttrMarks(s)[i]) == [s[i]] by {
      assert s[i] == '\'' ==> i < NextIndexOf(s, '"', i);
    }
    if s[i] != '"' {
      assert AfterOpenQuote(s, i + 1) == AfterOpenQuote(s, i);
      assert NextIndexOf(s, '"', i) == NextIndexOf(s, '"', i + 1);
    }
  }

  /** The second pass replaces exactly the apostrophes that some earlier `="` precedes with
      no `"` in between. */
  lemma AttrPassSpec(s: string)
    ensures AttrPass(s) == Rewrite(s, AttrMarks(s))
    ensures forall k :: 0 <= k < |s| ==> (AttrMarks(s)[k] <==> InAttribute(s, k))
  {
    AttrPassAgrees(s, 0);
    forall k | 0 <= k < |s|
      ensures AttrMarks(s)[k] <==> InAttribute(s, k)
    {
      AfterOpenQuoteIff(s, k);
    }
  }

  // ---------------------------------------------------------------------------
  // The whole transformation and the write-back decision.

  function FixUnescaped(content: string): string {
    AttrPass(TextPass(content))
  }

  /** Only apostrophes change: decoding the entities of the result gives what decoding the
      input gives, so an input without `&apos;` is recovered exactly, and an input without
      apostrophes is returned unchanged. */
  lemma FixUnescapedPreserves(s: string)
    ensures Decode(FixUnescaped(s)) == Decode(s)
    ensures !ContainsEntity(s) ==> Decode(FixUnescaped(s)) == s
    ensures '\'' !in s ==> FixUnescaped(s) == s
  {
    var t := TextPass(s);
    TextPassSpec(s);
    AttrPassSpec(t);
    DecodeRewrite(t, AttrMarks(t), 0);
    DecodeRewrite(s, TextMarks(s), 0);
    assert t[0..] == t && s[0..] == s;
    DecodeIdentity(s);
    RewriteIdentity(s, TextMarks(s));
    if '\'' !in s {
      assert t == s;
      RewriteIdentity(t, AttrMarks(t));
    }
  }

  /** The script as written: the file is written back iff the transformed content still
      contains an apostrophe (line 74). */
  predicate WritesBackAsWritten(content: string) {
    '\'' in FixUnescaped(content)
  }

  /** The script as evidently intended: the file is written back iff the transformation
      changed it. */
  predicate WritesBack(content: string) {
    FixUnescaped(content) != content
  }

  /** A text whose only apostrophe the first pass escapes is changed, yet the script as
      written does not save it; a text with an untouched apostrophe is saved unchanged. */
  lemma WritesBackAsWrittenMisses(s: string, u: string)
    requires s == ">'" && u == "'"
    ensures FixUnescaped(s) == ">&apos;" != s && !WritesBackAsWritten(s)
    ensures FixUnescaped(u) == u && WritesBackAsWritten(u)
  {
    assert NextIndexOf(s, '<', 1) == 2;
    assert LastQuote(s, 1, 2) == Some(1);
    assert s[0..2] == s;
    assert EscapeAll(s) == ">" + EscapeAll(s[1..]);
    assert EscapeAll(s[1..]) == Entity + EscapeAll(s[2..]);
    var t := ">&apos;";
    assert TextStep(s, 0) == Step(EscapeAll(s[0..2]), 2);
    assert TextPassFrom(s, 0) == EscapeAll(s[0..2]) + TextPassFrom(s, 2);
    assert TextPass(s) == t;
    assert '=' !in t;
    AttrPassCopies(t, 0);
    assert t[0..] == t;
    FixUnescapedPreserves(u);
    assert u[0] == '\'';
  }

  /** Without any `=` the second pass copies its input. */
  lemma {:induction false} AttrPassCopies(t: string, i: nat)
    requires i <= |t| && '=' !in t
    ensures AttrPassFrom(t, i) == t[i..]
    decreases |t| - i
  {
    if i < |t| {
      AttrPassCopies(t, i + 1);
      assert t[i..] == [t[i]] + t[i + 1..];
    }
  }

  /** With the intended condition a file is written back exactly when it holds an
      apostrophe that one of the two passes escapes. */
  lemma WritesBackIff(s: string)
    ensures WritesBack(s) <==>
      exists k :: 0 <= k < |s| && s[k] == '\'' && (InText(s, k) || InAttribute(s, k))
  {
    var t := TextPass(s);
    TextPassSpec(s);
    AttrPassSpec(t);
    RewriteIdentity(s, TextMarks(s));
    RewriteIdentity(t, AttrMarks(t));
    if t != s {
      var k :| ReplacedAt(s, TextMarks(s), k);
      assert s[k] == '\'' && InText(s, k);
    } else if FixUnescaped(s) != s {
      var k :| ReplacedAt(t, AttrMarks(t), k);
      assert s[k] == '\'' && InAttribute(s, k);
    } else {
      forall k | 0 <= k < |s| && s[k] == '\''
        ensures !InText(s, k) && !InAttribute(s, k)
      {
        assert !ReplacedAt(s, TextMarks(s), k);
        assert !ReplacedAt(t, AttrMarks(t), k);
      }
    }
  }
}
