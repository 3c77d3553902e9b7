/** The common shape of the three apostrophe scripts: some apostrophes of a text are
    chosen ("marked") and each becomes `&apos;`; everything else is copied in order.
    Each script's regex replacement is proved equal to `Rewrite` with its own marks. */
module Escape {
  import opened Entities

  /** What one input character becomes. */
  function Piece(c: char, marked: bool): string {
    if marked && c == '\'' then Entity else [c]
  }

  /** Position k holds an apostrophe that the marks select for replacement. */
  predicate ReplacedAt(s: string, m: seq<bool>, k: int)
    requires |m| == |s|
  {
    0 <= k < |s| && m[k] && s[k] == '\''
  }

  /** The rewrite of the suffix of `s` starting at index i. */
  function RewriteFrom(s: string, m: seq<bool>, i: nat): (r: string)
    requires |m| == |s| && i <= |s|
    ensures |s| - i <= |r|
    decreases |s| - i
  {
    if i == |s| then [] else Piece(s[i], m[i]) + RewriteFrom(s, m, i + 1)
  }

  function Rewrite(s: string, m: seq<bool>): string
    requires |m| == |s|
  {
    RewriteFrom(s, m, 0)
  }

  /** `t.replace(/'/g, '&apos;')`: the scripts apply it to each matched stretch. */
  function EscapeAll(t: string): (r: string)
    ensures '\'' !in r
    ensures |t| <= |r|
  {
    if |t| == 0 then [] else Piece(t[0], true) + EscapeAll(t[1..])
  }

  /** Number of replaced apostrophes from index i on. */
  function ReplacedCount(s: string, m: seq<bool>, i: nat): nat
    requires |m| == |s| && i <= |s|
    decreases |s| - i
  {
    if i == |s| then 0
    else (if ReplacedAt(s, m, i) then 1 else 0) + ReplacedCount(s, m, i + 1)
  }

  /** Every replacement lengthens the text by five characters. */
  lemma {:induction false} RewriteLength(s: string, m: seq<bool>, i: nat)
    requires |m| == |s| && i <= |s|
    ensures |RewriteFrom(s, m, i)| == |s| - i + 5 * ReplacedCount(s, m, i)
    decreases |s| - i
  {
    if i < |s| {
      RewriteLength(s, m, i + 1);
      assert |RewriteFrom(s, m, i)| == |Piece(s[i], m[i])| + |RewriteFrom(s, m, i + 1)|;
    }
  }

  lemma {:induction false} ReplacedCountPositive(s: string, m: seq<bool>, i: nat, k: nat)
    requires |m| == |s| && i <= k && ReplacedAt(s, m, k)
    ensures ReplacedCount(s, m, i) > 0
    decreases k - i
  {
    if i < k {
      ReplacedCountPositive(s, m, i + 1, k);
    }
  }

  /** A stretch without replaced apostrophes is copied verbatim. */
  lemma {:induction false} RewriteKeep(s: string, m: seq<bool>, i: nat, j: nat)
    requires |m| == |s| && i <= j <= |s|
    requires forall k :: i <= k < j ==> !ReplacedAt(s, m, k)
    ensures RewriteFrom(s, m, i) == s[i..j] + RewriteFrom(s, m, j)
    decreases j - i
  {
    if i < j {
      assert RewriteFrom(s, m, i) == [s[i]] + RewriteFrom(s, m, i + 1) by {
        assert !ReplacedAt(s, m, i);
      }
      RewriteKeep(s, m, i + 1, j);
      SliceCons(s, i, j, RewriteFrom(s, m, j));
    }
  }

  /** A stretch whose every apostrophe is marked is rewritten as `EscapeAll` would. */
  lemma {:induction false} RewriteStretch(s: string, m: seq<bool>, i: nat, j: nat)
    requires |m| == |s| && i <= j <= |s|
    requires forall k :: i <= k < j && s[k] == '\'' ==> m[k]
    ensures RewriteFrom(s, m, i) == EscapeAll(s[i..j]) + RewriteFrom(s, m, j)
    decreases j - i
  {
    if i < j {
      assert RewriteFrom(s, m, i) == Piece(s[i], true) + RewriteFrom(s, m, i + 1) by {
        assert Piece(s[i], m[i]) == Piece(s[i], true);
      }
      RewriteStretch(s, m, i + 1, j);
      assert EscapeAll(s[i..j]) == Piece(s[i], true) + EscapeAll(s[i + 1..j]) by {
        var t := s[i..j];
        assert t[0] == s[i] && t[1..] == s[i + 1..j];
      }
      ConcatAssoc(Piece(s[i], true), EscapeAll(s[i + 1..j]), RewriteFrom(s, m, j));
    }
  }

  /** The rewrite leaves the text unchanged exactly when no apostrophe is replaced, and
      otherwise makes it strictly longer. */
  lemma RewriteIdentity(s: string, m: seq<bool>)
    requires |m| == |s|
    ensures (forall k :: !ReplacedAt(s, m, k)) ==> Rewrite(s, m) == s
    ensures (exists k :: ReplacedAt(s, m, k)) ==> |Rewrite(s, m)| > |s|
    ensures Rewrite(s, m) == s <==> forall k :: !ReplacedAt(s, m, k)
  {
    RewriteLength(s, m, 0);
    if k :| ReplacedAt(s, m, k) {
      ReplacedCountPositive(s, m, 0, k);
    } else {
      RewriteKeep(s, m, 0, |s|);
      assert s[0..|s|] == s;
    }
  }

  /** An apostrophe is left in the output exactly when some apostrophe was not marked. */
  lemma {:induction false} QuotesLeft(s: string, m: seq<bool>, i: nat)
    requires |m| == |s| && i <= |s|
    ensures '\'' in RewriteFrom(s, m, i) <==> exists k :: i <= k < |s| && s[k] == '\'' && !m[k]
    decreases |s| - i
  {
    if i < |s| {
      QuotesLeft(s, m, i + 1);
      var p, t := Piece(s[i], m[i]), RewriteFrom(s, m, i + 1);
      assert RewriteFrom(s, m, i) == p + t;
      assert '\'' in p <==> s[i] == '\'' && !m[i];
      assert '\'' in p + t <==> '\'' in p || '\'' in t;
    }
  }

  /** An output that starts with a text free of `&` comes from an input starting with it:
      every inserted entity begins with `&`. */
  lemma {:induction false} RewritePrefix(s: string, m: seq<bool>, i: nat, w: string)
    requires |m| == |s| && i <= |s|
    requires forall j :: 0 <= j < |w| ==> w[j] != '&'
    ensures |w| <= |RewriteFrom(s, m, i)| && RewriteFrom(s, m, i)[..|w|] == w
            ==> i + |w| <= |s| && s[i..i + |w|] == w
    decreases |s| - i
  {
    var r := RewriteFrom(s, m, i);
    if |w| > 0 && |w| <= |r| && r[..|w|] == w {
      assert i < |s| && !ReplacedAt(s, m, i) by {
        assert r[0] == w[0] != '&';
      }
      var t := RewriteFrom(s, m, i + 1);
      assert r == [s[i]] + t;
      ConsPrefix(s[i], t, w);
      RewritePrefix(s, m, i + 1, w[1..]);
      assert s[i..i + |w|] == [s[i]] + s[i + 1..i + |w|];
    }
  }

  /** Decoding the entities of a rewrite gives what decoding the original gives: the
      entities the rewrite inserts are exactly undone, and existing ones are untouched. */
  lemma {:induction false} DecodeRewrite(s: string, m: seq<bool>, i: nat)
    requires |m| == |s| && i <= |s|
    ensures Decode(RewriteFrom(s, m, i)) == Decode(s[i..])
    decreases |s| - i
  {
    if i < |s| {
      var u := s[i..];
      if StartsWithEntity(u) {
        var t := RewriteFrom(s, m, i + 6);
        assert s[i..i + 6] == Entity by { assert u[..6] == s[i..i + 6]; }
        RewriteKeep(s, m, i, i + 6);
        DecodeRewrite(s, m, i + 6);
        DecodeEntityCons(t);
        assert u[6..] == s[i + 6..];
      } else {
        var t := RewriteFrom(s, m, i + 1);
        DecodeRewrite(s, m, i + 1);
        assert Decode(u) == [s[i]] + Decode(s[i + 1..]) by { assert u[1..] == s[i + 1..]; }
        if ReplacedAt(s, m, i) {
          assert RewriteFrom(s, m, i) == Entity + t;
          DecodeEntityCons(t);
        } else {
          assert RewriteFrom(s, m, i) == [s[i]] + t;
          CopyStartsNoEntity(s, m, i);
          DecodeCharCons(s[i], t);
        }
      }
    }
  }

  /** A copied character cannot start an entity in the output unless it started one in
      the input: what follows it in the output begins like what follows it in the input. */
  lemma CopyStartsNoEntity(s: string, m: seq<bool>, i: nat)
    requires |m| == |s| && i < |s| && !StartsWithEntity(s[i..])
    ensures !StartsWithEntity([s[i]] + RewriteFrom(s, m, i + 1))
  {
    RewritePrefix(s, m, i + 1, "apos;");
    NoEntityAfter(s, i, RewriteFrom(s, m, i + 1));
  }

  /** The same, for any text t that can only begin with `apos;` when the input does after
      index i. */
  lemma NoEntityAfter(s: string, i: nat, t: string)
    requires i < |s| && !StartsWithEntity(s[i..])
    requires |t| >= 5 && t[..5] == "apos;" ==> i + 6 <= |s| && s[i + 1..i + 6] == "apos;"
    ensures !StartsWithEntity([s[i]] + t)
  {
    EntityHead(s[i], t);
    assert s[i..] == [s[i]] + s[i + 1..];
    EntityHead(s[i], s[i + 1..]);
    assert i + 6 <= |s| ==> s[i + 1..][..5] == s[i + 1..i + 6];
  }

  /** Hence a text free of `&apos;` is recovered exactly from any rewrite of it. */
  lemma RewriteRoundTrip(s: string, m: seq<bool>)
    requires |m| == |s| && !ContainsEntity(s)
    ensures Decode(Rewrite(s, m)) == s
  {
    DecodeRewrite(s, m, 0);
    assert s[0..] == s;
    DecodeIdentity(s);
  }
}
