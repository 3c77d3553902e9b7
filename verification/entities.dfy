/** fixHTMLEntities.js: `content.replace(/&apos;/g, "'")`, and the decision to write a
    file back. */
module Entities {

  /** The HTML entity the scripts use for an apostrophe. */
  const Entity: string := "&apos;"

  predicate StartsWithEntity(s: string) {
    6 <= |s| && s[..6] == Entity
  }

  /** Some position of `s` starts an `&apos;`. */
  predicate ContainsEntity(s: string) {
    exists i :: 0 <= i < |s| && StartsWithEntity(s[i..])
  }

  /** Number of positions of `s` at which an `&apos;` starts (counted one position at a
      time, independently of how a scan would skip over a match). */
  function Occurrences(s: string): nat {
    if |s| == 0 then 0
    else (if StartsWithEntity(s) then 1 else 0) + Occurrences(s[1..])
  }

  /** The global replacement, scanning left to right: an entity becomes `'` and the scan
      resumes after it; any other character is copied. */
  function Decode(s: string): (r: string)
    ensures |r| <= |s|
    ensures |s| > 0 ==> |r| > 0
  {
    if |s| == 0 then []
    else if StartsWithEntity(s) then "'" + Decode(s[6..])
    else [s[0]] + Decode(s[1..])
  }

  /** fixEntities writes the file back only when the replacement changed the text. */
  predicate WritesBack(content: string) {
    Decode(content) != content
  }

  /** Splitting off the first character of a slice followed by more text. */
  lemma SliceCons(s: string, i: nat, j: nat, t: string)
    requires i < j <= |s|
    ensures s[i..j] + t == [s[i]] + (s[i + 1..j] + t)
  {
    assert s[i..j] == [s[i]] + s[i + 1..j];
  }

  lemma ConcatAssoc(a: string, b: string, c: string)
    ensures a + (b + c) == (a + b) + c
  {
  }

  /** A prefix of a text that starts with c starts with c, and the rest is a prefix of
      what follows c. */
  lemma ConsPrefix(c: char, t: string, w: string)
    requires 0 < |w| <= 1 + |t| && ([c] + t)[..|w|] == w
    ensures c == w[0] && t[..|w| - 1] == w[1..]
  {
    assert ([c] + t)[..|w|] == [c] + t[..|w| - 1];
  }

  /** A text starts with an entity exactly when it is `&` followed by `apos;`. */
  lemma EntityHead(c: char, t: string)
    ensures StartsWithEntity([c] + t) <==> c == '&' && |t| >= 5 && t[..5] == "apos;"
  {
    if |t| >= 5 {
      assert ([c] + t)[..6] == [c] + t[..5];
      assert Entity == ['&'] + "apos;";
      ConsEq(c, '&', t[..5], "apos;");
    }
  }

  /** Two texts with a first character are equal exactly when both parts are. */
  lemma ConsEq(c: char, d: char, x: string, y: string)
    ensures [c] + x == [d] + y <==> c == d && x == y
  {
    if [c] + x == [d] + y {
      assert ([c] + x)[0] == c && ([d] + y)[0] == d;
      assert ([c] + x)[1..] == x && ([d] + y)[1..] == y;
    }
  }

  /** Decoding a text that starts with an entity yields an apostrophe, then the rest. */
  lemma DecodeEntityCons(t: string)
    ensures Decode(Entity + t) == "'" + Decode(t)
  {
    assert (Entity + t)[..6] == Entity && (Entity + t)[6..] == t;
  }

  /** Decoding a text that does not start with an entity copies its first character. */
  lemma DecodeCharCons(c: char, t: string)
    requires !StartsWithEntity([c] + t)
    ensures Decode([c] + t) == [c] + Decode(t)
  {
    assert ([c] + t)[1..] == t;
  }

  /** Positions holding no `&` cannot start an entity, so they do not change the count. */
  lemma {:induction false} OccurrencesSkip(s: string, k: nat)
    requires k <= |s|
    requires forall j :: 0 <= j < k ==> s[j] != '&'
    ensures Occurrences(s) == Occurrences(s[k..])
    decreases k
  {
    if k > 0 {
      assert !StartsWithEntity(s) by { assert s[0] != '&'; }
      assert s[1..][k - 1..] == s[k..];
      OccurrencesSkip(s[1..], k - 1);
    }
  }

  /** Each replacement shortens the text by exactly five characters. */
  lemma {:induction false} DecodeLength(s: string)
    ensures |Decode(s)| + 5 * Occurrences(s) == |s|
  {
    if |s| == 0 {
    } else if StartsWithEntity(s) {
      assert s[1..6] == "apos;";
      OccurrencesSkip(s[1..], 5);
      assert s[1..][5..] == s[6..];
      DecodeLength(s[6..]);
    } else {
      DecodeLength(s[1..]);
    }
  }

  lemma {:induction false} ContainsCounts(s: string)
    requires ContainsEntity(s)
    ensures Occurrences(s) > 0
  {
    var i :| 0 <= i < |s| && StartsWithEntity(s[i..]);
    if i == 0 {
      assert s[0..] == s;
    } else {
      assert s[1..][i - 1..] == s[i..];
      ContainsCounts(s[1..]);
    }
  }

  /** The text is left unchanged exactly when it holds no entity; so fixEntities writes a
      file back iff it contains `&apos;`. */
  lemma {:induction false} DecodeIdentity(s: string)
    ensures Decode(s) == s <==> !ContainsEntity(s)
    ensures WritesBack(s) <==> ContainsEntity(s)
  {
    if ContainsEntity(s) {
      ContainsCounts(s);
      DecodeLength(s);
    } else if |s| > 0 {
      assert s[0..] == s;
      assert !StartsWithEntity(s);
      assert !ContainsEntity(s[1..]) by {
        forall j | 0 <= j < |s[1..]|
          ensures !StartsWithEntity(s[1..][j..])
        {
          assert s[1..][j..] == s[j + 1..];
        }
      }
      DecodeIdentity(s[1..]);
    }
  }

  /** If the output starts with a text free of apostrophes, the input starts with it too:
      such characters are only ever copied. */
  lemma {:induction false} DecodePrefix(u: string, w: string)
    requires forall j :: 0 <= j < |w| ==> w[j] != '\''
    ensures |w| <= |Decode(u)| && Decode(u)[..|w|] == w ==> |w| <= |u| && u[..|w|] == w
  {
    if |w| > 0 && |w| <= |Decode(u)| && Decode(u)[..|w|] == w {
      assert StartsWithEntity(u) ==> Decode(u)[0] == '\'';
      assert Decode(u)[0] == w[0] != '\'';
      assert !StartsWithEntity(u);
      var d := Decode(u[1..]);
      assert Decode(u) == [u[0]] + d;
      assert d[..|w| - 1] == w[1..];
      DecodePrefix(u[1..], w[1..]);
    }
  }

  /** No entity survives the replacement: an inserted `'` cannot be part of one, and the
      copied characters were scanned without a match. */
  lemma {:induction false} DecodeEntityFree(s: string)
    ensures !ContainsEntity(Decode(s))
  {
    var r := Decode(s);
    if |s| == 0 {
    } else if StartsWithEntity(s) {
      var d := Decode(s[6..]);
      DecodeEntityFree(s[6..]);
      forall i | 0 <= i < |r|
        ensures !StartsWithEntity(r[i..])
      {
        if i == 0 {
          assert r[0] == '\'';
        } else {
          assert r[i..] == d[i - 1..];
        }
      }
    } else {
      var d := Decode(s[1..]);
      DecodeEntityFree(s[1..]);
      forall i | 0 <= i < |r|
        ensures !StartsWithEntity(r[i..])
      {
        if i == 0 {
          DecodePrefix(s[1..], "apos;");
          assert |r| >= 6 ==> r[1..6] == d[..5];
          assert Entity[1..6] == "apos;";
          assert |s| >= 6 ==> s[..6] == [s[0]] + s[1..][..5];
          assert r[0..] == r;
        } else {
          assert r[i..] == d[i - 1..];
        }
      }
    }
  }
}
