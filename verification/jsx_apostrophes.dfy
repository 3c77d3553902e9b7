/** fix-jsx-apostrophes.js: `fixApostrophes(text)`, i.e.
    `text.replace(/([^&])'/g, '$1&apos;')`, applied by the script to JSX text, string
    attributes and template-literal chunks (the Babel traversal is not modelled). */
module JsxApostrophes {
  import opened Entities
  import opened Escape

  /** The global replacement as the regex engine performs it, from index i: if a
      character other than `&` is followed by `'`, both are consumed and the pair becomes
      that character followed by `&apos;`; otherwise one character is copied. */
  function FixFrom(s: string, i: nat): string
    requires i <= |s|
    decreases |s| - i
  {
    if i == |s| then []
    else if i + 1 < |s| && s[i] != '&' && s[i + 1] == '\'' then [s[i]] + Entity + FixFrom(s, i + 2)
    else [s[i]] + FixFrom(s, i + 1)
  }

  function FixApostrophes(text: string): string {
    FixFrom(text, 0)
  }

  /** Which apostrophes the replacement turns into entities, stated position by position:
      one that is not first, does not follow `&`, and does not follow an apostrophe that
      was itself replaced (matches cannot overlap). */
  predicate Replaced(s: string, k: int)
    decreases k
  {
    0 < k < |s| && s[k] == '\'' && s[k - 1] != '&' && !Replaced(s, k - 1)
  }

  function Marks(s: string): seq<bool> {
    seq(|s|, k => Replaced(s, k))
  }

  /** From every index the scan can reach (one that is not a replaced apostrophe, i.e. not
      the second half of a match), the scan and the rewrite agree. */
  lemma {:induction false} FixFromAgrees(s: string, i: nat)
    requires i <= |s| && !Replaced(s, i)
    ensures FixFrom(s, i) == RewriteFrom(s, Marks(s), i)
    decreases |s| - i
  {
    var m := Marks(s);
    if i < |s| {
      if i + 1 < |s| && s[i] != '&' && s[i + 1] == '\'' {
        assert m[i + 1] && !Replaced(s, i + 2) by {
          assert Replaced(s, i + 1);
        }
        assert RewriteFrom(s, m, i) == [s[i]] + (Entity + RewriteFrom(s, m, i + 2)) by {
          assert Piece(s[i], m[i]) == [s[i]];
          assert Piece(s[i + 1], m[i + 1]) == Entity;
        }
        FixFromAgrees(s, i + 2);
        ConcatAssoc([s[i]], Entity, FixFrom(s, i + 2));
      } else {
        assert RewriteFrom(s, m, i) == [s[i]] + RewriteFrom(s, m, i + 1) by {
          assert Piece(s[i], m[i]) == [s[i]];
        }
        assert !Replaced(s, i + 1);
        FixFromAgrees(s, i + 1);
      }
    }
  }

  /** fixApostrophes replaces exactly the apostrophes `Replaced` selects, and that
      selection behaves as the regex promises: never the first character, never after
      `&`, always after any other non-apostrophe character, and alternately along a run
      of apostrophes. */
  lemma FixApostrophesSpec(s: string)
    ensures FixApostrophes(s) == Rewrite(s, Marks(s))
    ensures |s| > 0 ==> !Replaced(s, 0)
    ensures forall k :: 0 < k < |s| && s[k - 1] == '&' ==> !Replaced(s, k)
    ensures forall k :: 0 < k < |s| && s[k] == '\'' && s[k - 1] != '&' && s[k - 1] != '\'' ==> Replaced(s, k)
    ensures forall k :: 0 < k < |s| && s[k] == '\'' && s[k - 1] == '\'' ==> (Replaced(s, k) <==> !Replaced(s, k - 1))
  {
    FixFromAgrees(s, 0);
  }

  /** Every character other than an apostrophe is kept, the output grows by five per
      replacement, a text without apostrophes comes back unchanged, and decoding the
      entities of the output gives back any input that had none. */
  lemma FixApostrophesPreserves(s: string)
    ensures |FixApostrophes(s)| == |s| + 5 * ReplacedCount(s, Marks(s), 0)
    ensures '\'' !in s ==> FixApostrophes(s) == s
    ensures Decode(FixApostrophes(s)) == Decode(s)
    ensures !ContainsEntity(s) ==> Decode(FixApostrophes(s)) == s
  {
    FixFromAgrees(s, 0);
    RewriteLength(s, Marks(s), 0);
    RewriteIdentity(s, Marks(s));
    DecodeRewrite(s, Marks(s), 0);
    assert s[0..] == s;
    DecodeIdentity(s);
  }

  /** A stretch with no apostrophe after its first character is copied by the scan. */
  lemma {:induction false} FixFromCopies(s: string, i: nat, j: nat)
    requires i <= j <= |s|
    requires forall k :: i < k <= j && k < |s| ==> s[k] != '\''
    ensures FixFrom(s, i) == s[i..j] + FixFrom(s, j)
    decreases j - i
  {
    if i < j {
      assert FixFrom(s, i) == [s[i]] + FixFrom(s, i + 1) by {
        assert i + 1 < |s| ==> s[i + 1] != '\'';
      }
      FixFromCopies(s, i + 1, j);
      SliceCons(s, i, j, FixFrom(s, j));
    }
  }

  /** A lone apostrophe after an ordinary character, in a text that has no other, is
      replaced; everything around it is copied. */
  lemma FixApostrophesSingle(a: string, c: char, b: string)
    requires '\'' !in a && '\'' !in b && c != '&' && c != '\''
    ensures FixApostrophes(a + [c, '\''] + b) == a + [c] + Entity + b
  {
    var s := a + [c, '\''] + b;
    var n := |a|;
    SingleLayout(a, c, b);
    FixFromCopies(s, 0, n);
    FixFromCopies(s, n + 2, |s|);
    calc {
      FixApostrophes(s);
      a + FixFrom(s, n);
      a + ([c] + Entity + FixFrom(s, n + 2));
      { assert FixFrom(s, n + 2) == b + FixFrom(s, |s|) && FixFrom(s, |s|) == []; }
      a + ([c] + Entity + b);
      { ConcatAssoc(a, [c] + Entity, b); ConcatAssoc(a, [c], Entity); }
      a + [c] + Entity + b;
    }
  }

  /** Where the parts of `a + [c, '\''] + b` sit, when a and b hold no apostrophe. */
  lemma SingleLayout(a: string, c: char, b: string)
    requires '\'' !in a && '\'' !in b && c != '\''
    ensures var s := a + [c, '\''] + b;
      && s[0..|a|] == a && s[|a| + 2..|s|] == b && s[|a|] == c && s[|a| + 1] == '\''
      && (forall k :: 0 < k <= |a| ==> s[k] != '\'')
      && (forall k :: |a| + 2 < k < |s| ==> s[k] != '\'')
  {
    var s := a + [c, '\''] + b;
    forall k | 0 < k < |a|
      ensures s[k] != '\''
    {
      assert s[k] == a[k] && a[k] in a;
    }
    forall k | |a| + 2 < k < |s|
      ensures s[k] != '\''
    {
      assert s[k] == b[k - |a| - 2] && b[k - |a| - 2] in b;
    }
  }

  /** The example in the script's own comment. */
  lemma FixApostrophesExample(s: string)
    requires s == "Erreur d'inscription"
    ensures FixApostrophes(s) == "Erreur d&apos;inscription"
  {
    ExampleParts();
    FixApostrophesSingle("Erreur ", 'd', "inscription");
  }

  /** The example text split around its apostrophe, before and after. */
  lemma ExampleParts()
    ensures "Erreur d'inscription" == "Erreur " + ['d', '\''] + "inscription"
    ensures "Erreur " + ['d'] + Entity + "inscription" == "Erreur d&apos;inscription"
  {
  }

  /** An entity already in the text is left alone. */
  lemma FixApostrophesKeepsEntity(t: string)
    requires t == "l&apos;a"
    ensures FixApostrophes(t) == t
  {
    assert '\'' !in t;
    FixFromCopies(t, 0, |t|);
    assert t[0..|t|] == t;
  }
}
