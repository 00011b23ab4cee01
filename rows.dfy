/**
 * Line clearing, shared by the three games: a board is a sequence of rows,
 * a predicate `full` says which rows are complete, and clearing keeps the
 * incomplete rows in order beneath one blank row per removed row.
 */
module Rows {

  /** `n` copies of `x`, built the way `unshift` builds them: one in front at a time. */
  function Repeat<T>(x: T, n: nat): (r: seq<T>)
    ensures |r| == n
    ensures forall k :: 0 <= k < n ==> r[k] == x
  {
    if n == 0 then [] else [x] + Repeat(x, n - 1)
  }

  /** `rows.filter(row => !full(row))`: the incomplete rows, in their order. */
  function Survivors<R>(rows: seq<R>, full: R -> bool): (r: seq<R>)
    ensures |r| <= |rows|
    ensures forall k :: 0 <= k < |r| ==> !full(r[k])
  {
    if rows == [] then []
    else (if full(rows[0]) then [] else [rows[0]]) + Survivors(rows[1..], full)
  }

  /** Whatever holds of every row holds of every surviving row. */
  lemma {:induction false} SurvivorsKeep<R>(rows: seq<R>, full: R -> bool, ok: R -> bool)
    requires forall k :: 0 <= k < |rows| ==> ok(rows[k])
    ensures forall k :: 0 <= k < |Survivors(rows, full)| ==> ok(Survivors(rows, full)[k])
  {
    if rows != [] {
      SurvivorsKeep(rows[1..], full, ok);
    }
  }

  /** The number of complete rows. */
  function FullCount<R>(rows: seq<R>, full: R -> bool): nat {
    if rows == [] then 0
    else (if full(rows[0]) then 1 else 0) + FullCount(rows[1..], full)
  }

  /** Every row is either kept or counted. */
  lemma {:induction false} SurvivorsCount<R>(rows: seq<R>, full: R -> bool)
    ensures |Survivors(rows, full)| + FullCount(rows, full) == |rows|
  {
    if rows != [] {
      SurvivorsCount(rows[1..], full);
    }
  }

  /** Filtering and counting distribute over concatenation. */
  lemma {:induction false} SurvivorsAppend<R>(a: seq<R>, b: seq<R>, full: R -> bool)
    ensures Survivors(a + b, full) == Survivors(a, full) + Survivors(b, full)
    ensures FullCount(a + b, full) == FullCount(a, full) + FullCount(b, full)
  {
    if a == [] {
      assert a + b == b;
    } else {
      assert (a + b)[1..] == a[1..] + b;
      SurvivorsAppend(a[1..], b, full);
    }
  }

  /** Examining one more row of a left-to-right scan: it is kept or counted. */
  lemma ScanNext<R>(rows: seq<R>, i: nat, full: R -> bool)
    requires i < |rows|
    ensures Survivors(rows[..i + 1], full) ==
      Survivors(rows[..i], full) + (if full(rows[i]) then [] else [rows[i]])
    ensures FullCount(rows[..i + 1], full) == FullCount(rows[..i], full) + (if full(rows[i]) then 1 else 0)
  {
    assert rows[..i + 1] == rows[..i] + [rows[i]];
    SurvivorsAppend(rows[..i], [rows[i]], full);
    assert [rows[i]][1..] == [];
  }

  /** Rows with no complete row are left as they are. */
  lemma {:induction false} SurvivorsOfIncomplete<R>(rows: seq<R>, full: R -> bool)
    requires forall k :: 0 <= k < |rows| ==> !full(rows[k])
    ensures Survivors(rows, full) == rows
    ensures FullCount(rows, full) == 0
  {
    if rows != [] {
      SurvivorsOfIncomplete(rows[1..], full);
    }
  }

  /** A board has a complete row iff it has a nonzero count of complete rows. */
  lemma {:induction false} FullCountPositive<R>(rows: seq<R>, full: R -> bool)
    ensures FullCount(rows, full) > 0 <==> exists k :: 0 <= k < |rows| && full(rows[k])
  {
    if rows != [] {
      FullCountPositive(rows[1..], full);
      if full(rows[0]) {
        assert full(rows[0]);
      } else {
        assert forall k :: 1 <= k < |rows| ==> rows[k] == rows[1..][k - 1];
      }
    }
  }

  /**
   * The board after clearing: one `blank` row per complete row on top of the
   * surviving rows. It has the height of the input and no complete row.
   */
  function Cleared<R>(rows: seq<R>, blank: R, full: R -> bool): (r: seq<R>)
    requires !full(blank)
    ensures |r| == |rows|
    ensures forall k :: 0 <= k < |r| ==> !full(r[k])
  {
    SurvivorsCount(rows, full);
    Repeat(blank, FullCount(rows, full)) + Survivors(rows, full)
  }

  /**
   * The state of a bottom-up clearing done in place: the rows below index `u`
   * of the input have been examined, `n` blank rows have been put on top, and
   * the unexamined rows `rows[..u]` sit between the two.
   */
  function PartlyCleared<R>(rows: seq<R>, blank: R, full: R -> bool, n: nat, u: nat): (r: seq<R>)
    requires u <= |rows|
    ensures |r| == n + u + |Survivors(rows[u..], full)|
    ensures n == FullCount(rows[u..], full) ==> |r| == |rows|
  {
    SurvivorsCount(rows[u..], full);
    Repeat(blank, n) + rows[..u] + Survivors(rows[u..], full)
  }

  /** Nothing examined yet: the input itself. */
  lemma PartlyClearedStart<R>(rows: seq<R>, blank: R, full: R -> bool)
    ensures PartlyCleared(rows, blank, full, 0, |rows|) == rows
  {
    assert rows[|rows|..] == [];
  }

  /** Everything examined: the cleared board. */
  lemma PartlyClearedDone<R>(rows: seq<R>, blank: R, full: R -> bool)
    requires !full(blank)
    ensures PartlyCleared(rows, blank, full, FullCount(rows, full), 0) == Cleared(rows, blank, full)
  {
    assert rows[0..] == rows;
  }

  /**
   * Examining a complete row: splicing it out of position `n + u - 1` and
   * unshifting a blank row gives the next state.
   */
  lemma {:induction false} RemoveNext<R>(rows: seq<R>, blank: R, full: R -> bool, n: nat, u: nat)
    requires 0 < u <= |rows| && full(rows[u - 1])
    ensures var b := PartlyCleared(rows, blank, full, n, u);
      b[n + u - 1] == rows[u - 1] &&
      [blank] + b[..n + u - 1] + b[n + u..] == PartlyCleared(rows, blank, full, n + 1, u - 1)
    ensures FullCount(rows[u - 1..], full) == FullCount(rows[u..], full) + 1
  {
    var b := PartlyCleared(rows, blank, full, n, u);
    var low := Repeat(blank, n) + rows[..u - 1];
    assert rows[..u] == rows[..u - 1] + [rows[u - 1]];
    assert b == low + [rows[u - 1]] + Survivors(rows[u..], full);
    assert b[..n + u - 1] == low;
    assert b[n + u..] == Survivors(rows[u..], full);
    assert rows[u - 1..][1..] == rows[u..];
    assert Survivors(rows[u - 1..], full) == Survivors(rows[u..], full);
    assert [blank] + Repeat(blank, n) == Repeat(blank, n + 1);
  }

  /** Examining an incomplete row: it stays where it is and the state moves on. */
  lemma {:induction false} KeepNext<R>(rows: seq<R>, blank: R, full: R -> bool, n: nat, u: nat)
    requires 0 < u <= |rows| && !full(rows[u - 1])
    ensures var b := PartlyCleared(rows, blank, full, n, u);
      b[n + u - 1] == rows[u - 1] && b == PartlyCleared(rows, blank, full, n, u - 1)
    ensures FullCount(rows[u - 1..], full) == FullCount(rows[u..], full)
  {
    assert rows[..u] == rows[..u - 1] + [rows[u - 1]];
    assert rows[u - 1..][1..] == rows[u..];
    assert Survivors(rows[u - 1..], full) == [rows[u - 1]] + Survivors(rows[u..], full);
  }

  /** Once every input row is examined, the rows above the survivors are blank. */
  lemma AllBlankAbove<R>(rows: seq<R>, blank: R, full: R -> bool, n: nat, y: int)
    requires 0 <= y < n
    ensures PartlyCleared(rows, blank, full, n, 0)[y] == blank
  {
  }
}
