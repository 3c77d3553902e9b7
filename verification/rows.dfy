/** Tables as sequences of rows (a row's id is its index), and what a filtered `select`
    returns: the kept rows in order, and the `.single()` / `.maybeSingle()` reading of
    that result, which yields a row only when exactly one is kept. */
module Rows {
  import opened Outcomes

  /** The indices, in increasing order, of the rows among the first n that `keep` keeps. */
  function SelectBelow<T>(rows: seq<T>, keep: T -> bool, n: nat): (r: seq<nat>)
    requires n <= |rows|
    ensures forall k :: 0 <= k < |r| ==> r[k] < n && keep(rows[r[k]])
    ensures forall j :: 0 <= j < n && keep(rows[j]) ==> j in r
    ensures forall k, l :: 0 <= k < l < |r| ==> r[k] < r[l]
    decreases n
  {
    if n == 0 then []
    else
      var earlier := SelectBelow(rows, keep, n - 1);
      if keep(rows[n - 1]) then earlier + [n - 1] else earlier
  }

  /** The indices of the rows a filtered `select` returns. */
  function Select<T>(rows: seq<T>, keep: T -> bool): seq<nat> {
    SelectBelow(rows, keep, |rows|)
  }

  /** The select returns something exactly when some row passes the filter. */
  lemma SelectNonEmpty<T>(rows: seq<T>, keep: T -> bool)
    ensures |Select(rows, keep)| > 0 <==> exists j :: 0 <= j < |rows| && keep(rows[j])
  {
    var r := Select(rows, keep);
    if |r| > 0 {
      assert keep(rows[r[0]]);
    }
  }

  /** `.single()` / `.maybeSingle()`: the row when exactly one is kept. */
  function Single<T>(rows: seq<T>, keep: T -> bool): Option<nat> {
    var r := Select(rows, keep);
    if |r| == 1 then Some(r[0]) else None
  }

  /** The single row is i exactly when row i is kept and no other row is. */
  lemma SingleSpec<T>(rows: seq<T>, keep: T -> bool, i: nat)
    ensures Single(rows, keep) == Some(i) <==>
      && i < |rows| && keep(rows[i])
      && forall j :: 0 <= j < |rows| && keep(rows[j]) ==> j == i
  {
    var r := Select(rows, keep);
    if i < |rows| && keep(rows[i]) && forall j :: 0 <= j < |rows| && keep(rows[j]) ==> j == i {
      assert i in r;
      AtMostOne(r, i);
    }
  }

  /** An increasing sequence whose elements all equal i has at most one element. */
  lemma AtMostOne(c: seq<nat>, i: nat)
    requires forall k, l :: 0 <= k < l < |c| ==> c[k] < c[l]
    requires forall k :: 0 <= k < |c| ==> c[k] == i
    ensures |c| <= 1
  {
    assert Nth(c, 0) < Nth(c, 1) || |c| < 2;
  }

  /** The k-th element, or 0 past the end. */
  function Nth(c: seq<nat>, k: int): int {
    if 0 <= k < |c| then c[k] else 0
  }
}
