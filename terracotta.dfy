/**
 * The grid engine of the clay Tetris (app/terracotta/page.tsx): a 27 x 30
 * board of booleans, pieces kept apart from their position, validity rather
 * than collision, and a row removal that runs after the merge. The game state
 * lives in module TerracottaGame.
 */
module Terracotta {
  import opened Shapes
  import Rows

  const BoardWidth := 27
  const BoardHeight := 30

  type Row = seq<bool>
  type Board = seq<Row>

  /** The keys of `TETROMINOS`, in `Object.keys` order. */
  datatype Kind = I | O | T | S | Z | J | L

  /** `TETROMINOS`: each shape in its tightest box, one or two rows high. */
  function ShapeOf(kind: Kind): Shape {
    match kind
    case I => [[1, 1, 1, 1]]
    case O => [[1, 1], [1, 1]]
    case T => [[0, 1, 0], [1, 1, 1]]
    case S => [[0, 1, 1], [1, 1, 0]]
    case Z => [[1, 1, 0], [0, 1, 1]]
    case J => [[1, 0, 0], [1, 1, 1]]
    case L => [[0, 0, 1], [1, 1, 1]]
  }

  datatype Piece = Piece(kind: Kind, shape: Shape)
  datatype Position = Position(x: int, y: int)

  /** `getRandomPiece` for the kind `Math.random` picked. */
  function Tetromino(kind: Kind): Piece {
    Piece(kind, ShapeOf(kind))
  }

  /** Every new piece, and the first one, starts here. */
  const Start := Position(12, 0)

  predicate ValidBoard(b: Board) {
    |b| == BoardHeight && forall y :: 0 <= y < |b| ==> |b[y]| == BoardWidth
  }

  /** `row.every(cell => cell)` */
  predicate RowComplete(row: Row) {
    forall x :: 0 <= x < |row| ==> row[x]
  }

  /** `Array(BOARD_WIDTH).fill(false)` */
  const EmptyRow: Row := Rows.Repeat(false, BoardWidth)

  lemma EmptyRowIncomplete()
    ensures |EmptyRow| == BoardWidth && !RowComplete(EmptyRow)
  {
    assert !EmptyRow[0];
  }

  const EmptyBoard: Board := Rows.Repeat(EmptyRow, BoardHeight)

  lemma TetrominosAreWellFormed(kind: Kind)
    ensures WellFormed(ShapeOf(kind)) && HasFilled(ShapeOf(kind))
    ensures |ShapeOf(kind)| <= 2 && |ShapeOf(kind)[0]| <= 4
  {
    var s := ShapeOf(kind);
    assert s[|s| - 1][1] != 0;
  }

  // ---------------------------------------------------------------- validity

  /** The board cell (cx, cy) lies under a filled cell of the piece placed at `pos`. */
  predicate Covers(piece: Piece, pos: Position, cx: int, cy: int) {
    var dy, dx := cy - pos.y, cx - pos.x;
    0 <= dy < |piece.shape| && 0 <= dx < |piece.shape[dy]| && piece.shape[dy][dx] != 0
  }

  /**
   * `isValidMove(piece, pos)`: every filled cell is between the side walls,
   * above the floor, and either above the top or on an empty cell.
   */
  predicate IsValidMove(board: Board, piece: Piece, pos: Position)
    requires ValidBoard(board)
    ensures IsValidMove(board, piece, pos) ==> InBounds(piece, pos)
  {
    forall dy, dx :: 0 <= dy < |piece.shape| && 0 <= dx < |piece.shape[dy]| && piece.shape[dy][dx] != 0 ==>
      var newX, newY := pos.x + dx, pos.y + dy;
      0 <= newX < BoardWidth && newY < BoardHeight && (newY < 0 || !board[newY][newX])
  }

  /** Every filled cell is between the side walls and above the floor. */
  predicate InBounds(piece: Piece, pos: Position) {
    forall dy, dx :: 0 <= dy < |piece.shape| && 0 <= dx < |piece.shape[dy]| && piece.shape[dy][dx] != 0 ==>
      0 <= pos.x + dx < BoardWidth && pos.y + dy < BoardHeight
  }

  /**
   * A move is valid iff the piece is in bounds and none of the board cells it
   * covers is filled.
   */
  lemma ValidMoveIsInBoundsAndDisjoint(board: Board, piece: Piece, pos: Position)
    requires ValidBoard(board)
    ensures IsValidMove(board, piece, pos) <==>
      InBounds(piece, pos) &&
      forall cy, cx :: 0 <= cy < BoardHeight && 0 <= cx < BoardWidth && Covers(piece, pos, cx, cy) ==> !board[cy][cx]
  {
    if InBounds(piece, pos) &&
      forall cy, cx :: 0 <= cy < BoardHeight && 0 <= cx < BoardWidth && Covers(piece, pos, cx, cy) ==> !board[cy][cx]
    {
      forall dy, dx | 0 <= dy < |piece.shape| && 0 <= dx < |piece.shape[dy]| && piece.shape[dy][dx] != 0
        ensures pos.y + dy < 0 || !board[pos.y + dy][pos.x + dx]
      {
        if pos.y + dy >= 0 {
          assert Covers(piece, pos, pos.x + dx, pos.y + dy);
        }
      }
    }
  }

  /** The new piece always fits the empty board at the start position. */
  lemma StartIsValidOnEmpty(kind: Kind)
    ensures IsValidMove(EmptyBoard, Tetromino(kind), Start)
  {
    TetrominosAreWellFormed(kind);
  }

  /** `rotate`: the same shape, turned clockwise, with its filled cells and its kind kept. */
  function Rotate(piece: Piece): (r: Piece)
    requires WellFormed(piece.shape)
    ensures r.kind == piece.kind && WellFormed(r.shape)
    ensures |r.shape| == Width(piece.shape) && Width(r.shape) == |piece.shape|
    ensures FilledCount(r.shape) == FilledCount(piece.shape) && HasFilled(r.shape) == HasFilled(piece.shape)
  {
    RotatePreservesFilled(piece.shape);
    piece.(shape := RotateCW(piece.shape))
  }

  // ---------------------------------------------------------------- merging

  /** The copy of the board with `true` in every covered cell on or below row 0. */
  function Merged(board: Board, piece: Piece, pos: Position): (r: Board)
    requires ValidBoard(board)
    ensures ValidBoard(r)
  {
    seq(BoardHeight, cy requires 0 <= cy < BoardHeight =>
      seq(BoardWidth, cx requires 0 <= cx < BoardWidth =>
        Covers(piece, pos, cx, cy) || board[cy][cx]))
  }

  /**
   * The two `forEach` loops of `mergePiece`, writing into a copy of the board.
   * They index the board without a bounds test, so the piece must be in bounds.
   */
  method FillPiece(board: Board, piece: Piece, pos: Position) returns (newBoard: Board)
    requires ValidBoard(board) && InBounds(piece, pos)
    ensures ValidBoard(newBoard)
    ensures forall cy, cx :: 0 <= cy < BoardHeight && 0 <= cx < BoardWidth ==>
      newBoard[cy][cx] == (Covers(piece, pos, cx, cy) || board[cy][cx])
    ensures newBoard == Merged(board, piece, pos)
  {
    newBoard := board;
    var dy := 0;
    while dy < |piece.shape|
      invariant 0 <= dy <= |piece.shape|
      invariant ValidBoard(newBoard)
      invariant forall cy, cx :: 0 <= cy < BoardHeight && 0 <= cx < BoardWidth ==>
        newBoard[cy][cx] == ((Covers(piece, pos, cx, cy) && cy - pos.y < dy) || board[cy][cx])
    {
      var dx := 0;
      while dx < |piece.shape[dy]|
        invariant 0 <= dx <= |piece.shape[dy]|
        invariant ValidBoard(newBoard)
        invariant forall cy, cx :: 0 <= cy < BoardHeight && 0 <= cx < BoardWidth ==>
          newBoard[cy][cx] ==
            ((Covers(piece, pos, cx, cy) && (cy - pos.y < dy || (cy - pos.y == dy && cx - pos.x < dx))) || board[cy][cx])
      {
        if piece.shape[dy][dx] != 0 && pos.y + dy >= 0 {
          newBoard := newBoard[pos.y + dy := newBoard[pos.y + dy][pos.x + dx := true]];
        }
        dx := dx + 1;
      }
      dy := dy + 1;
    }
    ghost var m := Merged(board, piece, pos);
    forall cy | 0 <= cy < BoardHeight
      ensures newBoard[cy] == m[cy]
    {
    }
  }

  /**
   * Merging a piece where it may legally be changes exactly the cells it
   * covers on the board: each of them was empty and is now filled.
   */
  lemma MergeChangesCoveredCells(board: Board, piece: Piece, pos: Position)
    requires ValidBoard(board) && IsValidMove(board, piece, pos)
    ensures forall cy, cx :: 0 <= cy < BoardHeight && 0 <= cx < BoardWidth ==>
      (Merged(board, piece, pos)[cy][cx] != board[cy][cx] <==> Covers(piece, pos, cx, cy))
  {
    ValidMoveIsInBoundsAndDisjoint(board, piece, pos);
  }

  // ---------------------------------------------------------------- complete rows

  /** The complete rows among rows 0 .. n-1, listed from the bottom (highest index) up. */
  function FullRowsAmong(board: Board, n: nat): (ys: seq<int>)
    requires n <= |board|
    ensures |ys| == Rows.FullCount(board[..n], RowComplete)
  {
    if n == 0 then []
    else
      Rows.ScanNext(board, n - 1, RowComplete);
      (if RowComplete(board[n - 1]) then [n - 1] else []) + FullRowsAmong(board, n - 1)
  }

  /** `linesToClear`: every complete row of the board, from the bottom up. */
  function FullRows(board: Board): (ys: seq<int>)
    ensures |ys| == Rows.FullCount(board, RowComplete)
  {
    assert board[..|board|] == board;
    FullRowsAmong(board, |board|)
  }

  /**
   * The rows listed are complete, below `n` and strictly descending (so the
   * i-th is below n - i); every
   * complete row below `n` is listed; there are as many as `FullCount` counts.
   */
  lemma {:induction false} FullRowsAmongSpec(board: Board, n: nat)
    requires n <= |board|
    ensures var ys := FullRowsAmong(board, n);
      (forall i :: 0 <= i < |ys| ==> 0 <= ys[i] && ys[i] + i < n && RowComplete(board[ys[i]])) &&
      (forall i, j :: 0 <= i < j < |ys| ==> ys[i] > ys[j]) &&
      (forall y :: 0 <= y < n && RowComplete(board[y]) ==> y in ys) &&
      |ys| == Rows.FullCount(board[..n], RowComplete)
  {
    if n > 0 {
      FullRowsAmongSpec(board, n - 1);
      assert board[..n] == board[..n - 1] + [board[n - 1]];
      Rows.SurvivorsAppend(board[..n - 1], [board[n - 1]], RowComplete);
      assert [board[n - 1]][1..] == [];
    }
  }

  lemma FullRowsSpec(board: Board)
    ensures var ys := FullRows(board);
      (forall i :: 0 <= i < |ys| ==> 0 <= ys[i] < |board| && RowComplete(board[ys[i]])) &&
      (forall i, j :: 0 <= i < j < |ys| ==> ys[i] > ys[j]) &&
      (forall y :: 0 <= y < |board| && RowComplete(board[y]) ==> y in ys) &&
      |ys| == Rows.FullCount(board, RowComplete)
  {
    FullRowsAmongSpec(board, |board|);
    assert board[..|board|] == board;
  }

  /** Examining row `y` of the bottom-up scan: it is listed iff it is complete. */
  lemma ScanStep(board: Board, listed: seq<int>, y: nat)
    requires y < |board| && listed + FullRowsAmong(board, y + 1) == FullRows(board)
    ensures RowComplete(board[y]) ==> (listed + [y]) + FullRowsAmong(board, y) == FullRows(board)
    ensures !RowComplete(board[y]) ==> listed + FullRowsAmong(board, y) == FullRows(board)
  {
    var rest := FullRowsAmong(board, y);
    assert FullRowsAmong(board, y + 1) == (if RowComplete(board[y]) then [y] else []) + rest;
    if RowComplete(board[y]) {
      assert listed + ([y] + rest) == (listed + [y]) + rest;
    } else {
      assert [] + rest == rest;
    }
  }

  /** The bottom-up scan of `mergePiece` collecting the complete rows and counting them. */
  method LinesToClear(board: Board) returns (linesToClear: seq<int>, linesCleared: nat)
    requires ValidBoard(board)
    ensures linesToClear == FullRows(board)
    ensures linesCleared == |linesToClear|
  {
    linesCleared := 0;
    linesToClear := [];
    var y := BoardHeight - 1;
    while y >= 0
      invariant -1 <= y < BoardHeight
      invariant linesToClear + FullRowsAmong(board, y + 1) == FullRows(board)
      invariant linesCleared == |linesToClear|
    {
      ScanStep(board, linesToClear, y);
      if RowComplete(board[y]) {
        linesToClear := linesToClear + [y];
        linesCleared := linesCleared + 1;
      }
      y := y - 1;
    }
  }

  // ---------------------------------------------------------------- removal

  /** The board after clearing: one empty row per complete row above the others. */
  function ClearedBoard(board: Board): (r: Board)
    requires ValidBoard(board)
    ensures ValidBoard(r)
    ensures forall y :: 0 <= y < |r| ==> !RowComplete(r[y])
  {
    EmptyRowIncomplete();
    var r := Rows.Cleared(board, EmptyRow, RowComplete);
    Rows.SurvivorsKeep(board, RowComplete, (row: Row) => |row| == BoardWidth);
    r
  }

  /** `splice(y, 1)` followed by `unshift` of an empty row. */
  function RemoveRow(board: Board, y: int): (r: Board)
    requires 0 <= y < |board|
    ensures |r| == |board|
  {
    [EmptyRow] + board[..y] + board[y + 1..]
  }

  /** The timer callback of `mergePiece` as written: one removal per listed row, at the listed index. */
  function RemoveRows(board: Board, ys: seq<int>): (r: Board)
    requires forall i :: 0 <= i < |ys| ==> 0 <= ys[i] < |board|
    ensures |r| == |board|
    decreases |ys|
  {
    if ys == [] then board else RemoveRows(RemoveRow(board, ys[0]), ys[1..])
  }

  /** The `linesToClear.forEach` loop of the timer callback. */
  method RemoveClearedLines(board: Board, linesToClear: seq<int>) returns (newBoard: Board)
    requires forall i :: 0 <= i < |linesToClear| ==> 0 <= linesToClear[i] < |board|
    ensures |newBoard| == |board|
    ensures newBoard == RemoveRows(board, linesToClear)
  {
    newBoard := board;
    var i := 0;
    while i < |linesToClear|
      invariant 0 <= i <= |linesToClear| && |newBoard| == |board|
      invariant RemoveRows(newBoard, linesToClear[i..]) == RemoveRows(board, linesToClear)
    {
      assert linesToClear[i..][1..] == linesToClear[i + 1..];
      newBoard := RemoveRow(newBoard, linesToClear[i]);
      i := i + 1;
    }
  }

  /**
   * Two adjacent complete rows y and y + 1, listed bottom-up: after the first
   * removal row y has moved to y + 1, the second removal takes the row above
   * it, and a complete row is left on the board.
   */
  lemma AdjacentRowsLeftBehind(board: Board, y: int)
    requires ValidBoard(board) && 0 <= y && y + 1 < BoardHeight
    requires RowComplete(board[y]) && RowComplete(board[y + 1])
    ensures RemoveRows(board, [y + 1, y])[y + 1] == board[y]
    ensures RowComplete(RemoveRows(board, [y + 1, y])[y + 1])
    ensures RemoveRows(board, [y + 1, y]) != ClearedBoard(board)
  {
    var s := RemoveRow(board, y + 1);
    assert s[y + 1] == board[y];
    assert [y + 1, y][1..] == [y] && [y][1..] == [];
    assert RemoveRows(s, [y]) == RemoveRow(s, y);
    assert RemoveRows(board, [y + 1, y]) == RemoveRow(s, y);
    assert RemoveRow(s, y)[y + 1] == s[y + 1];
  }

  /** With exactly rows y and y + 1 complete, those two are the ones `mergePiece` lists. */
  lemma {:induction false} FullRowsOfAdjacentPair(board: Board, y: int, n: nat)
    requires ValidBoard(board) && 0 <= y && y + 1 < BoardHeight && n <= BoardHeight
    requires forall k :: 0 <= k < BoardHeight ==> (RowComplete(board[k]) <==> k == y || k == y + 1)
    ensures FullRowsAmong(board, n) == if n <= y then [] else if n == y + 1 then [y] else [y + 1, y]
  {
    if n > 0 {
      FullRowsOfAdjacentPair(board, y, n - 1);
    }
  }

  /** The corrected removal: row index `ys[i]` increased by the `k + i` rows already removed. */
  function RemoveRowsShifted(board: Board, ys: seq<int>, k: nat): (r: Board)
    requires forall i :: 0 <= i < |ys| ==> 0 <= ys[i] + k + i < |board|
    ensures |r| == |board|
    decreases |ys|
  {
    if ys == [] then board else RemoveRowsShifted(RemoveRow(board, ys[0] + k), ys[1..], k + 1)
  }

  /**
   * The removal intended: each listed row is found `k` rows lower, where `k`
   * rows beneath it were removed before it.
   */
  function RemoveRowsCorrected(board: Board, ys: seq<int>): (r: Board)
    requires forall i :: 0 <= i < |ys| ==> 0 <= ys[i] + i < |board|
    ensures |r| == |board|
  {
    RemoveRowsShifted(board, ys, 0)
  }

  /** Below the `n` rows already removed, every listed row is still on the board. */
  lemma ShiftedIndicesInRange(board: Board, n: nat, u: nat)
    requires u <= |board| && n == Rows.FullCount(board[u..], RowComplete)
    ensures var ys := FullRowsAmong(board, u);
      forall i :: 0 <= i < |ys| ==> 0 <= ys[i] + n + i < |board|
  {
    Rows.SurvivorsCount(board[u..], RowComplete);
    FullRowsAmongSpec(board, u);
  }

  /**
   * From the state after `n` removals with rows 0 .. u-1 still unexamined,
   * the corrected removal of the complete rows among them finishes clearing.
   */
  lemma {:induction false} RemoveShiftedClears(board: Board, n: nat, u: nat)
    requires ValidBoard(board) && u <= |board| && n == Rows.FullCount(board[u..], RowComplete)
    requires var ys := FullRowsAmong(board, u);
      forall i :: 0 <= i < |ys| ==> 0 <= ys[i] + n + i < |board|
    ensures RemoveRowsShifted(Rows.PartlyCleared(board, EmptyRow, RowComplete, n, u), FullRowsAmong(board, u), n) ==
      ClearedBoard(board)
    decreases u
  {
    EmptyRowIncomplete();
    if u == 0 {
      assert board[0..] == board;
      Rows.PartlyClearedDone(board, EmptyRow, RowComplete);
    } else {
      var n' := if RowComplete(board[u - 1]) then n + 1 else n;
      RemoveShiftedStep(board, n, u);
      ShiftedIndicesInRange(board, n', u - 1);
      RemoveShiftedClears(board, n', u - 1);
    }
  }

  /**
   * One row of the corrected removal: a complete row `u - 1` is removed at its
   * shifted index, moving the clearing state on by one removal; an incomplete
   * row is passed over.
   */
  lemma RemoveShiftedStep(board: Board, n: nat, u: nat)
    requires ValidBoard(board) && 0 < u <= |board| && n == Rows.FullCount(board[u..], RowComplete)
    requires var ys := FullRowsAmong(board, u);
      forall i :: 0 <= i < |ys| ==> 0 <= ys[i] + n + i < |board|
    ensures var n' := if RowComplete(board[u - 1]) then n + 1 else n;
      var ys' := FullRowsAmong(board, u - 1);
      && n' == Rows.FullCount(board[u - 1..], RowComplete)
      && (forall i :: 0 <= i < |ys'| ==> 0 <= ys'[i] + n' + i < |board|)
      && RemoveRowsShifted(Rows.PartlyCleared(board, EmptyRow, RowComplete, n, u), FullRowsAmong(board, u), n) ==
         RemoveRowsShifted(Rows.PartlyCleared(board, EmptyRow, RowComplete, n', u - 1), ys', n')
  {
    var ys := FullRowsAmong(board, u);
    if RowComplete(board[u - 1]) {
      var b := Rows.PartlyCleared(board, EmptyRow, RowComplete, n, u);
      assert ys == [u - 1] + FullRowsAmong(board, u - 1);
      Rows.RemoveNext(board, EmptyRow, RowComplete, n, u);
      ShiftedIndicesInRange(board, n + 1, u - 1);
      assert RemoveRow(b, ys[0] + n) == Rows.PartlyCleared(board, EmptyRow, RowComplete, n + 1, u - 1);
      assert ys[1..] == FullRowsAmong(board, u - 1);
    } else {
      Rows.KeepNext(board, EmptyRow, RowComplete, n, u);
      ShiftedIndicesInRange(board, n, u - 1);
      assert ys == FullRowsAmong(board, u - 1);
    }
  }

  /** The corrected removal of every complete row is exactly line clearing. */
  lemma RemoveRowsCorrectedClears(board: Board)
    requires ValidBoard(board)
    ensures var ys := FullRows(board);
      (forall i :: 0 <= i < |ys| ==> 0 <= ys[i] + i < |board|) &&
      RemoveRowsCorrected(board, ys) == ClearedBoard(board)
  {
    Rows.PartlyClearedStart(board, EmptyRow, RowComplete);
    assert board[|board|..] == [];
    ShiftedIndicesInRange(board, 0, |board|);
    RemoveShiftedClears(board, 0, |board|);
  }

  /**
   * With a single complete row y, the removal as written is already right:
   * the row goes, rows 0 .. y-1 move down one and an empty row comes on top.
   */
  lemma SingleRowRemoval(board: Board, y: int)
    requires ValidBoard(board) && FullRows(board) == [y]
    ensures 0 <= y < BoardHeight && RowComplete(board[y])
    ensures RemoveRows(board, [y]) == [EmptyRow] + board[..y] + board[y + 1..]
    ensures RemoveRows(board, [y]) == ClearedBoard(board)
  {
    FullRowsSpec(board);
    RemoveRowsCorrectedClears(board);
    assert [y][1..] == [];
    assert RemoveRowsCorrected(board, [y]) == RemoveRowsShifted(RemoveRow(board, y), [], 1);
    assert RemoveRows(board, [y]) == RemoveRows(RemoveRow(board, y), []);
  }

  // ---------------------------------------------------------------- dropping

  /**
   * The loop `drop` and `getGhostPosition` share: the piece sinks while one row
   * lower is still valid. It stops because every row lower is eventually below
   * the floor for its filled cell.
   */
  method LowestValid(board: Board, piece: Piece, pos: Position) returns (newY: int)
    requires ValidBoard(board) && HasFilled(piece.shape)
    ensures newY >= pos.y
    ensures forall k :: pos.y < k <= newY ==> IsValidMove(board, piece, Position(pos.x, k))
    ensures !IsValidMove(board, piece, Position(pos.x, newY + 1))
  {
    ghost var fy, fx :| 0 <= fy < |piece.shape| && 0 <= fx < |piece.shape[fy]| && piece.shape[fy][fx] != 0;
    newY := pos.y;
    while IsValidMove(board, piece, Position(pos.x, newY + 1))
      invariant newY >= pos.y
      invariant forall k :: pos.y < k <= newY ==> IsValidMove(board, piece, Position(pos.x, k))
      decreases BoardHeight - (newY + fy)
    {
      assert newY + 1 + fy < BoardHeight;
      newY := newY + 1;
    }
  }
}

/**
 * The React state of the clay Tetris (board, current piece, its position,
 * game over, score, the rows being cleared) as one object. Every handler
 * reads the board as it was when the handler was created.
 */
module TerracottaGame {
  import opened Wrappers
  import opened Shapes
  import opened Terracotta

  predicate Playable(p: Piece) {
    WellFormed(p.shape) && HasFilled(p.shape)
  }

  class Game {
    var board: Board
    var currentPiece: Option<Piece>
    var position: Position
    var gameOver: bool
    var score: int
    var clearedLines: seq<int>

    /**
     * The invariant every handler keeps: the falling piece stays in bounds
     * (so merging it never writes outside the board), and the score is a whole
     * number of lines at 100 each. The piece may overlap the board: the next
     * piece is tested against the board from before the merge.
     */
    ghost predicate Valid()
      reads this
    {
      ValidBoard(board) &&
      (currentPiece.Some? ==> Playable(currentPiece.value) && InBounds(currentPiece.value, position)) &&
      score >= 0 && score % 100 == 0
    }

    /**
     * The initial `useState` values, then the effect that sets a piece while
     * there is none. `first` stands for the `Math.random` choice.
     */
    constructor (first: Kind)
      ensures Valid()
      ensures board == EmptyBoard && currentPiece == Some(Tetromino(first)) && position == Start
      ensures IsValidMove(board, Tetromino(first), position)
      ensures !gameOver && score == 0 && clearedLines == []
    {
      board := EmptyBoard;
      currentPiece := Some(Tetromino(first));
      position := Start;
      gameOver := false;
      score := 0;
      clearedLines := [];
      new;
      TetrominosAreWellFormed(first);
      StartIsValidOnEmpty(first);
      ValidMoveIsInBoundsAndDisjoint(board, Tetromino(first), position);
    }

    /**
     * `mergePiece`: the piece is written into a copy of the board and its
     * complete rows are listed. With none the copy becomes the board; with some
     * the board is left for the removal that follows later and the rows are
     * recorded. The score grows by 100 per row. `next` is the new piece: it
     * ends the game iff it is invalid at the start on the board from before.
     */
    method MergePiece(next: Kind)
      requires Valid()
      modifies this
      ensures Valid()
      ensures old(currentPiece).None? ==> unchanged(this)
      ensures old(currentPiece).Some? ==>
        var merged := Merged(old(board), old(currentPiece).value, old(position));
        var lines := FullRows(merged);
        && board == (if lines == [] then merged else old(board))
        && clearedLines == (if lines == [] then old(clearedLines) else lines)
        && score == old(score) + 100 * |lines|
        && gameOver == (old(gameOver) || !IsValidMove(old(board), Tetromino(next), Start))
        && (IsValidMove(old(board), Tetromino(next), Start) ==>
              currentPiece == Some(Tetromino(next)) && position == Start)
        && (!IsValidMove(old(board), Tetromino(next), Start) ==>
              currentPiece == old(currentPiece) && position == old(position))
    {
      if currentPiece.None? {
        return;
      }
      var newBoard := FillPiece(board, currentPiece.value, position);
      var linesToClear, linesCleared := LinesToClear(newBoard);
      var captured := board;
      if |linesToClear| > 0 {
        clearedLines := linesToClear;
      } else {
        board := newBoard;
      }
      score := score + linesCleared * 100;
      var newPiece := Tetromino(next);
      if !IsValidMove(captured, newPiece, Start) {
        gameOver := true;
      } else {
        TetrominosAreWellFormed(next);
        ValidMoveIsInBoundsAndDisjoint(captured, newPiece, Start);
        currentPiece := Some(newPiece);
        position := Start;
      }
    }

    /**
     * `move(dx, dy)`: a valid new position is adopted; an invalid move
     * downwards merges the piece; any other invalid move does nothing.
     */
    method Move(dx: int, dy: int, next: Kind)
      requires Valid()
      modifies this
      ensures Valid()
      ensures old(currentPiece).None? || old(gameOver) ==> unchanged(this)
      ensures old(currentPiece).Some? && !old(gameOver) ==>
        var newPos := Position(old(position).x + dx, old(position).y + dy);
        if IsValidMove(old(board), old(currentPiece).value, newPos) then
          position == newPos && currentPiece == old(currentPiece) && board == old(board) &&
          score == old(score) && !gameOver && clearedLines == old(clearedLines)
        else if dy > 0 then
          var merged := Merged(old(board), old(currentPiece).value, old(position));
          var lines := FullRows(merged);
          var spawns := IsValidMove(old(board), Tetromino(next), Start);
          board == (if lines == [] then merged else old(board)) &&
          clearedLines == (if lines == [] then old(clearedLines) else lines) &&
          score == old(score) + 100 * |lines| &&
          (gameOver <==> !spawns) &&
          (spawns ==> currentPiece == Some(Tetromino(next)) && position == Start) &&
          (!spawns ==> currentPiece == old(currentPiece) && position == old(position))
        else
          unchanged(this)
    {
      if currentPiece.None? || gameOver {
        return;
      }
      var newPos := Position(position.x + dx, position.y + dy);
      if IsValidMove(board, currentPiece.value, newPos) {
        ValidMoveIsInBoundsAndDisjoint(board, currentPiece.value, newPos);
        position := newPos;
      } else if dy > 0 {
        MergePiece(next);
      }
    }

    /** `rotatePiece`: the turned piece is adopted iff it is valid where the piece is. */
    method RotatePiece()
      requires Valid()
      modifies this
      ensures Valid()
      ensures board == old(board) && position == old(position) && score == old(score)
      ensures gameOver == old(gameOver) && clearedLines == old(clearedLines)
      ensures old(currentPiece).None? || old(gameOver) ==> currentPiece == old(currentPiece)
      ensures old(currentPiece).Some? && !old(gameOver) ==>
        var turned := Rotate(old(currentPiece).value);
        currentPiece == if IsValidMove(board, turned, position) then Some(turned) else old(currentPiece)
    {
      if currentPiece.None? || gameOver {
        return;
      }
      var rotated := Rotate(currentPiece.value);
      if IsValidMove(board, rotated, position) {
        ValidMoveIsInBoundsAndDisjoint(board, rotated, position);
        currentPiece := Some(rotated);
      }
    }

    /**
     * The position part of `drop`: the piece sinks to the last row from which
     * one more row down is invalid. The merge that follows on a timer is not
     * part of this step.
     */
    method Drop()
      requires Valid()
      modifies this`position
      ensures Valid()
      ensures old(currentPiece).None? || gameOver ==> position == old(position)
      ensures currentPiece.Some? && !gameOver ==>
        position.x == old(position).x && position.y >= old(position).y &&
        (forall k :: old(position).y < k <= position.y ==> IsValidMove(board, currentPiece.value, Position(position.x, k))) &&
        !IsValidMove(board, currentPiece.value, Position(position.x, position.y + 1))
    {
      if currentPiece.None? || gameOver {
        return;
      }
      var newY := LowestValid(board, currentPiece.value, position);
      if newY > position.y {
        ValidMoveIsInBoundsAndDisjoint(board, currentPiece.value, Position(position.x, newY));
      }
      position := Position(position.x, newY);
    }

    /**
     * `getGhostPosition`: where a drop would put the piece, computed while
     * rendering, whether or not the game is over.
     */
    method GhostPosition() returns (ghostPos: Option<Position>)
      requires Valid()
      ensures currentPiece.None? <==> ghostPos.None?
      ensures ghostPos.Some? ==>
        var g := ghostPos.value;
        g.x == position.x && g.y >= position.y &&
        (forall k :: position.y < k <= g.y ==> IsValidMove(board, currentPiece.value, Position(g.x, k))) &&
        !IsValidMove(board, currentPiece.value, Position(g.x, g.y + 1))
    {
      if currentPiece.None? {
        return None;
      }
      var ghostY := LowestValid(board, currentPiece.value, position);
      return Some(Position(position.x, ghostY));
    }
  }
}
