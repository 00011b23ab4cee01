/**
 * Piece shapes, shared by the three games: a shape is a small matrix of
 * numbers (a TypeScript `number[][]`) in which a cell is filled iff it is
 * nonzero, and all three games turn a piece by the same map/reverse
 * expression, modelled here once.
 */
module Shapes {

  type Shape = seq<seq<int>>

  /** Rectangular, with at least one row and one column: every shape the games define. */
  predicate WellFormed(s: Shape) {
    |s| > 0 && |s[0]| > 0 && forall i :: 0 <= i < |s| ==> |s[i]| == |s[0]|
  }

  function Width(s: Shape): nat
    requires |s| > 0
  {
    |s[0]|
  }

  /** The positions (row, column) of the filled cells; ragged rows are allowed. */
  function FilledCells(s: Shape): set<(int, int)> {
    set i, j | 0 <= i < |s| && 0 <= j < |s[i]| && s[i][j] != 0 :: (i, j)
  }

  function FilledCount(s: Shape): nat {
    |FilledCells(s)|
  }

  predicate HasFilled(s: Shape) {
    exists i, j :: 0 <= i < |s| && 0 <= j < |s[i]| && s[i][j] != 0
  }

  /** `shape.map(row => row[i])`: column `i`, top to bottom. */
  function Column(s: Shape, i: nat): (c: seq<int>)
    requires forall k :: 0 <= k < |s| ==> i < |s[k]|
    ensures |c| == |s|
  {
    seq(|s|, k requires 0 <= k < |s| => s[k][i])
  }

  /** JavaScript's `Array.prototype.reverse`, as a value. */
  function Reverse(s: seq<int>): (r: seq<int>)
    ensures |r| == |s|
    ensures forall k :: 0 <= k < |s| ==> r[k] == s[|s| - 1 - k]
  {
    if s == [] then [] else Reverse(s[1..]) + [s[0]]
  }

  /**
   * `shape[0].map((_, i) => shape.map(row => row[i]).reverse())`: row `i` of the
   * result is column `i` read bottom to top, i.e. a clockwise quarter turn.
   */
  function RotateCW(s: Shape): (r: Shape)
    requires WellFormed(s)
    ensures WellFormed(r)
    ensures |r| == Width(s) && Width(r) == |s|
    ensures forall i, j :: 0 <= i < |r| && 0 <= j < |r[i]| ==> r[i][j] == s[|s| - 1 - j][i]
  {
    seq(|s[0]|, i requires 0 <= i < |s[0]| => Reverse(Column(s, i)))
  }

  /** The shape turned upside down and mirrored: rows in reverse order, each reversed. */
  function Flipped(s: Shape): Shape {
    seq(|s|, i requires 0 <= i < |s| => Reverse(s[|s| - 1 - i]))
  }

  lemma ReverseTwice(x: seq<int>)
    ensures Reverse(Reverse(x)) == x
  {
    assert forall k :: 0 <= k < |x| ==> Reverse(Reverse(x))[k] == x[k];
  }

  lemma FlippedTwice(s: Shape)
    ensures Flipped(Flipped(s)) == s
  {
    forall i | 0 <= i < |s|
      ensures Flipped(Flipped(s))[i] == s[i]
    {
      ReverseTwice(s[i]);
    }
  }

  /** Two quarter turns send cell (i, j) to (h-1-i, w-1-j). */
  lemma HalfTurnCell(s: Shape, i: int, j: int)
    requires WellFormed(s) && 0 <= i < |s| && 0 <= j < |s[0]|
    ensures |RotateCW(RotateCW(s))[i]| == |s[0]|
    ensures RotateCW(RotateCW(s))[i][j] == s[|s| - 1 - i][|s[0]| - 1 - j]
  {
    var r1 := RotateCW(s);
    assert r1[|s[0]| - 1 - j][i] == s[|s| - 1 - i][|s[0]| - 1 - j];
  }

  /** Two quarter turns turn the shape upside down and mirror it. */
  lemma HalfTurn(s: Shape)
    requires WellFormed(s)
    ensures RotateCW(RotateCW(s)) == Flipped(s)
  {
    var r2 := RotateCW(RotateCW(s));
    var f := Flipped(s);
    forall i | 0 <= i < |s|
      ensures r2[i] == f[i]
    {
      var row := s[|s| - 1 - i];
      assert f[i] == Reverse(row);
      forall j | 0 <= j < |s[0]|
        ensures r2[i][j] == Reverse(row)[j]
      {
        HalfTurnCell(s, i, j);
      }
      HalfTurnCell(s, i, 0);
    }
  }



  /** Four quarter turns give back the original shape. */
  lemma RotateFourTimes(s: Shape)
    requires WellFormed(s)
    ensures RotateCW(RotateCW(RotateCW(RotateCW(s)))) == s
  {
    HalfTurn(s);
    HalfTurn(Flipped(s));
    FlippedTwice(s);
  }

  /** The cells of a set moved by the quarter turn of a shape of height `h`. */
  function Turned(cells: set<(int, int)>, h: int): set<(int, int)> {
    set p | p in cells :: (p.1, h - 1 - p.0)
  }

  lemma {:induction false} TurnedCount(cells: set<(int, int)>, h: int)
    ensures |Turned(cells, h)| == |cells|
    decreases cells
  {
    if cells != {} {
      var p :| p in cells;
      TurnedCount(cells - {p}, h);
      TurnedSplit(cells, p, h);
    }
  }

  /** Turning one cell apart from the others: the turn is one-to-one. */
  lemma TurnedSplit(cells: set<(int, int)>, p: (int, int), h: int)
    requires p in cells
    ensures Turned(cells, h) == Turned(cells - {p}, h) + {(p.1, h - 1 - p.0)}
    ensures (p.1, h - 1 - p.0) !in Turned(cells - {p}, h)
  {
    var rest := cells - {p};
    forall q | q in rest
      ensures (q.1, h - 1 - q.0) != (p.1, h - 1 - p.0)
    {
      assert q != p;
    }
  }

  /** The filled cells of the turned shape are the turned filled cells. */
  lemma FilledCellsTurned(s: Shape)
    requires WellFormed(s)
    ensures FilledCells(RotateCW(s)) == Turned(FilledCells(s), |s|)
  {
    var r := RotateCW(s);
    var h := |s|;
    forall q | q in FilledCells(r)
      ensures q in Turned(FilledCells(s), h)
    {
      var p := (h - 1 - q.1, q.0);
      assert r[q.0][q.1] == s[p.0][p.1];
      assert p in FilledCells(s);
      assert q == (p.1, h - 1 - p.0);
    }
    forall q | q in Turned(FilledCells(s), h)
      ensures q in FilledCells(r)
    {
      var p :| p in FilledCells(s) && q == (p.1, h - 1 - p.0);
      assert r[q.0][q.1] == s[p.0][p.1];
    }
  }

  /** A quarter turn moves every filled cell and keeps their number. */
  lemma RotatePreservesFilled(s: Shape)
    requires WellFormed(s)
    ensures FilledCells(RotateCW(s)) == Turned(FilledCells(s), |s|)
    ensures FilledCount(RotateCW(s)) == FilledCount(s)
    ensures HasFilled(s) ==> HasFilled(RotateCW(s))
  {
    FilledCellsTurned(s);
    TurnedCount(FilledCells(s), |s|);
    if HasFilled(s) {
      var r := RotateCW(s);
      var i, j :| 0 <= i < |s| && 0 <= j < |s[i]| && s[i][j] != 0;
      assert r[j][|s| - 1 - i] == s[i][j];
    }
  }
}
