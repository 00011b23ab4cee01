/**
 * The grid engine of the Three.js Tetris (app/tetris3js/Tetris3D.tsx): a 10 x 20
 * board of numbers where 0 is empty and any other number is the colour of a
 * locked block. The game state lives in module Tetris3DGame.
 */
module Tetris3D {
  import opened Shapes
  import Rows

  const BoardWidth := 10
  const BoardHeight := 20

  type Row = seq<int>
  type Board = seq<Row>

  /** The keys of `SHAPES` and `COLORS`, in `Object.keys` order. */
  datatype Kind = I | O | T | S | Z | J | L

  /** `SHAPES`: square matrices, the I piece in a 4 x 4 box, the O piece 2 x 2, the rest 3 x 3. */
  function ShapeOf(kind: Kind): Shape {
    match kind
    case I => [[0, 0, 0, 0], [1, 1, 1, 1], [0, 0, 0, 0], [0, 0, 0, 0]]
    case O => [[1, 1], [1, 1]]
    case T => [[0, 1, 0], [1, 1, 1], [0, 0, 0]]
    case S => [[0, 1, 1], [1, 1, 0], [0, 0, 0]]
    case Z => [[1, 1, 0], [0, 1, 1], [0, 0, 0]]
    case J => [[1, 0, 0], [1, 1, 1], [0, 0, 0]]
    case L => [[0, 0, 1], [1, 1, 1], [0, 0, 0]]
  }

  /** `COLORS` */
  function ColorOf(kind: Kind): (c: int)
    ensures c != 0
  {
    match kind
    case I => 0x00ffff
    case O => 0xffff00
    case T => 0xff00ff
    case S => 0x00ff00
    case Z => 0xff0000
    case J => 0x0000ff
    case L => 0xff8800
  }

  datatype Piece = Piece(kind: Kind, shape: Shape, x: int, y: int, color: int)

  predicate ValidBoard(b: Board) {
    |b| == BoardHeight && forall y :: 0 <= y < |b| ==> |b[y]| == BoardWidth
  }

  /** `row.every(cell => cell !== 0)` */
  predicate RowComplete(row: Row) {
    forall x :: 0 <= x < |row| ==> row[x] != 0
  }

  /** `Array(BOARD_WIDTH).fill(0)` */
  const EmptyRow: Row := Rows.Repeat(0, BoardWidth)

  lemma EmptyRowIncomplete()
    ensures |EmptyRow| == BoardWidth && !RowComplete(EmptyRow)
  {
    assert EmptyRow[0] == 0;
  }

  /** The all-zero board of the initial state and of a restart. */
  const EmptyBoard: Board := Rows.Repeat(EmptyRow, BoardHeight)

  // ---------------------------------------------------------------- collision

  predicate Blocked(board: Board, x: int, y: int)
    requires ValidBoard(board)
  {
    x < 0 || x >= BoardWidth || y >= BoardHeight || (y >= 0 && board[y][x] != 0)
  }

  predicate Collides(board: Board, piece: Piece, dx: int, dy: int)
    requires ValidBoard(board)
  {
    exists py, px :: 0 <= py < |piece.shape| && 0 <= px < |piece.shape[py]| && piece.shape[py][px] != 0 &&
      Blocked(board, piece.x + px + dx, piece.y + py + dy)
  }

  /** `checkCollision(piece, dx, dy)` against the current board. */
  method CheckCollision(board: Board, piece: Piece, dx: int, dy: int) returns (hit: bool)
    requires ValidBoard(board)
    ensures hit == Collides(board, piece, dx, dy)
  {
    var py := 0;
    while py < |piece.shape|
      invariant 0 <= py <= |piece.shape|
      invariant forall j, i :: 0 <= j < py && 0 <= i < |piece.shape[j]| && piece.shape[j][i] != 0 ==>
        !Blocked(board, piece.x + i + dx, piece.y + j + dy)
    {
      var px := 0;
      while px < |piece.shape[py]|
        invariant 0 <= px <= |piece.shape[py]|
        invariant forall i :: 0 <= i < px && piece.shape[py][i] != 0 ==>
          !Blocked(board, piece.x + i + dx, piece.y + py + dy)
      {
        if piece.shape[py][px] != 0 {
          var newX := piece.x + px + dx;
          var newY := piece.y + py + dy;
          if newX < 0 || newX >= BoardWidth || newY >= BoardHeight {
            assert Blocked(board, newX, newY);
            return true;
          }
          if newY >= 0 && board[newY][newX] != 0 {
            assert Blocked(board, newX, newY);
            return true;
          }
        }
        px := px + 1;
      }
      py := py + 1;
    }
    return false;
  }

  function Moved(piece: Piece, dx: int, dy: int): Piece {
    piece.(x := piece.x + dx, y := piece.y + dy)
  }

  lemma CollidesMoved(board: Board, piece: Piece, dx: int, dy: int)
    requires ValidBoard(board)
    ensures Collides(board, Moved(piece, dx, dy), 0, 0) <==> Collides(board, piece, dx, dy)
  {
    var moved := Moved(piece, dx, dy);
    if Collides(board, piece, dx, dy) {
      var py, px :| 0 <= py < |piece.shape| && 0 <= px < |piece.shape[py]| && piece.shape[py][px] != 0 &&
        Blocked(board, piece.x + px + dx, piece.y + py + dy);
      assert Blocked(board, moved.x + px + 0, moved.y + py + 0);
    }
    if Collides(board, moved, 0, 0) {
      var py, px :| 0 <= py < |moved.shape| && 0 <= px < |moved.shape[py]| && moved.shape[py][px] != 0 &&
        Blocked(board, moved.x + px + 0, moved.y + py + 0);
      assert Blocked(board, piece.x + px + dx, piece.y + py + dy);
    }
  }

  // ---------------------------------------------------------------- spawning

  /** The piece `spawnPiece` builds: a copy of the shape, centred on row 0 (x = 3 or 4). */
  function Spawned(kind: Kind): (p: Piece)
    ensures p.kind == kind && p.shape == ShapeOf(kind) && p.y == 0 && p.color == ColorOf(kind)
    ensures 0 <= p.x && p.x + |p.shape[0]| <= BoardWidth
    ensures BoardWidth - (p.x + |p.shape[0]|) - p.x in {0, 1}
  {
    var shape := ShapeOf(kind);
    Piece(kind, shape, (BoardWidth - |shape[0]|) / 2, 0, ColorOf(kind))
  }

  /** `board[py]?.[x]` is truthy: in range and nonzero (`?.` yields `undefined` outside). */
  predicate Occupied(board: Board, y: int, x: int) {
    0 <= y < |board| && 0 <= x < |board[y]| && board[y][x] != 0
  }

  /** The spawn test: some filled cell (py, px) of the shape meets a block at (x + px, py). */
  predicate SpawnBlocked(board: Board, shape: Shape, x: int) {
    exists py, px :: 0 <= py < |shape| && 0 <= px < |shape[py]| && shape[py][px] != 0 && Occupied(board, py, x + px)
  }

  /** The nested loop of `spawnPiece` that decides game over. */
  method CheckSpawn(board: Board, shape: Shape, x: int) returns (blocked: bool)
    ensures blocked == SpawnBlocked(board, shape, x)
  {
    var py := 0;
    while py < |shape|
      invariant 0 <= py <= |shape|
      invariant forall j, i :: 0 <= j < py && 0 <= i < |shape[j]| && shape[j][i] != 0 ==> !Occupied(board, j, x + i)
    {
      var px := 0;
      while px < |shape[py]|
        invariant 0 <= px <= |shape[py]|
        invariant forall i :: 0 <= i < px && shape[py][i] != 0 ==> !Occupied(board, py, x + i)
      {
        if shape[py][px] != 0 && py < |board| && 0 <= x + px < |board[py]| && board[py][x + px] != 0 {
          return true;
        }
        px := px + 1;
      }
      py := py + 1;
    }
    return false;
  }

  lemma ShapesAreWellFormed(kind: Kind)
    ensures WellFormed(ShapeOf(kind)) && HasFilled(ShapeOf(kind)) && |ShapeOf(kind)| <= 4 && |ShapeOf(kind)[0]| <= 4
  {
    var s := ShapeOf(kind);
    assert s[1][1] != 0;
  }

  /**
   * For a piece on row 0 whose box lies inside the board, the spawn test asks
   * exactly whether the piece collides where it is.
   */
  lemma SpawnTestAtTop(board: Board, p: Piece)
    requires ValidBoard(board) && WellFormed(p.shape) && |p.shape| <= BoardHeight
    requires p.y == 0 && 0 <= p.x && p.x + |p.shape[0]| <= BoardWidth
    ensures SpawnBlocked(board, p.shape, p.x) <==> Collides(board, p, 0, 0)
  {
    if SpawnBlocked(board, p.shape, p.x) {
      var py, px :| 0 <= py < |p.shape| && 0 <= px < |p.shape[py]| && p.shape[py][px] != 0 && Occupied(board, py, p.x + px);
      assert Blocked(board, p.x + px + 0, p.y + py + 0);
    }
    if Collides(board, p, 0, 0) {
      var py, px :| 0 <= py < |p.shape| && 0 <= px < |p.shape[py]| && p.shape[py][px] != 0 &&
        Blocked(board, p.x + px + 0, p.y + py + 0);
      assert |p.shape[py]| == |p.shape[0]|;
      assert Occupied(board, py, p.x + px);
    }
  }

  /** So for every kind the spawn test of `spawnPiece` is the collision test. */
  lemma SpawnTestIsCollision(board: Board, kind: Kind)
    requires ValidBoard(board)
    ensures SpawnBlocked(board, ShapeOf(kind), Spawned(kind).x) <==> Collides(board, Spawned(kind), 0, 0)
  {
    ShapesAreWellFormed(kind);
    SpawnTestAtTop(board, Spawned(kind));
  }

  // ---------------------------------------------------------------- locking

  /** The board cell (cx, cy) lies under a filled cell of the piece. */
  predicate Covers(piece: Piece, cx: int, cy: int) {
    var py, px := cy - piece.y, cx - piece.x;
    0 <= py < |piece.shape| && 0 <= px < |piece.shape[py]| && piece.shape[py][px] != 0
  }

  /** The board with the piece's colour written into every covered cell inside it. */
  function Stamped(board: Board, piece: Piece): (r: Board)
    requires ValidBoard(board)
    ensures ValidBoard(r)
  {
    seq(BoardHeight, cy requires 0 <= cy < BoardHeight =>
      seq(BoardWidth, cx requires 0 <= cx < BoardWidth =>
        if Covers(piece, cx, cy) then piece.color else board[cy][cx]))
  }

  /** The first half of `lockPiece`: the nested loop writing into a copy, skipping cells outside the board. */
  method StampPiece(board: Board, piece: Piece) returns (newBoard: Board)
    requires ValidBoard(board)
    ensures ValidBoard(newBoard)
    ensures forall cy, cx :: 0 <= cy < BoardHeight && 0 <= cx < BoardWidth ==>
      newBoard[cy][cx] == if Covers(piece, cx, cy) then piece.color else board[cy][cx]
    ensures newBoard == Stamped(board, piece)
  {
    newBoard := board;
    var py := 0;
    while py < |piece.shape|
      invariant 0 <= py <= |piece.shape|
      invariant ValidBoard(newBoard)
      invariant forall cy, cx :: 0 <= cy < BoardHeight && 0 <= cx < BoardWidth ==>
        newBoard[cy][cx] == if Covers(piece, cx, cy) && cy - piece.y < py then piece.color else board[cy][cx]
    {
      var px := 0;
      while px < |piece.shape[py]|
        invariant 0 <= px <= |piece.shape[py]|
        invariant ValidBoard(newBoard)
        invariant forall cy, cx :: 0 <= cy < BoardHeight && 0 <= cx < BoardWidth ==>
          newBoard[cy][cx] ==
            if Covers(piece, cx, cy) && (cy - piece.y < py || (cy - piece.y == py && cx - piece.x < px))
            then piece.color else board[cy][cx]
      {
        if piece.shape[py][px] != 0 {
          var boardY := piece.y + py;
          var boardX := piece.x + px;
          if boardY >= 0 && boardY < BoardHeight && boardX >= 0 && boardX < BoardWidth {
            newBoard := newBoard[boardY := newBoard[boardY][boardX := piece.color]];
          }
        }
        px := px + 1;
      }
      py := py + 1;
    }
    ghost var m := Stamped(board, piece);
    forall cy | 0 <= cy < BoardHeight
      ensures newBoard[cy] == m[cy]
    {
    }
  }

  /** The board after clearing: one empty row per complete row above the others. */
  function ClearedBoard(board: Board): (r: Board)
    requires ValidBoard(board)
    ensures ValidBoard(r)
    ensures forall y :: 0 <= y < |r| ==> !RowComplete(r[y])
  {
    EmptyRowIncomplete();
    var r := Rows.Cleared(board, EmptyRow, RowComplete);
    Rows.SurvivorsKeep(board, RowComplete, (row: Row) => |row| == BoardWidth);
    r
  }

  /** One pass of the clearing loop at row `y`, seen on the clearing state. */
  lemma ClearStep(merged: Board, board: Board, n: nat, u: nat, y: int)
    requires ValidBoard(merged)
    requires 0 <= y < BoardHeight && u <= BoardHeight
    requires y + 1 == n + u || (u == 0 && y + 1 <= n)
    requires board == Rows.PartlyCleared(merged, EmptyRow, RowComplete, n, u)
    requires n == Rows.FullCount(merged[u..], RowComplete)
    ensures |board| == BoardHeight
    ensures RowComplete(board[y]) ==>
      0 < u && [EmptyRow] + board[..y] + board[y + 1..] == Rows.PartlyCleared(merged, EmptyRow, RowComplete, n + 1, u - 1) &&
      n + 1 == Rows.FullCount(merged[u - 1..], RowComplete)
    ensures !RowComplete(board[y]) && u > 0 ==>
      board == Rows.PartlyCleared(merged, EmptyRow, RowComplete, n, u - 1) &&
      n == Rows.FullCount(merged[u - 1..], RowComplete)
  {
    EmptyRowIncomplete();
    if u == 0 {
      Rows.AllBlankAbove(merged, EmptyRow, RowComplete, n, y);
    } else if RowComplete(merged[u - 1]) {
      Rows.RemoveNext(merged, EmptyRow, RowComplete, n, u);
    } else {
      Rows.KeepNext(merged, EmptyRow, RowComplete, n, u);
    }
  }

  /**
   * The second half of `lockPiece`: scanning bottom-up, a complete row is
   * spliced out, an empty row is unshifted on top and the same index is examined
   * again (`y++` before the loop's `y--`). Ghost `u` counts the rows of the
   * input not yet examined; they sit just above the examined part.
   */
  method ClearFullRows(merged: Board) returns (board: Board, linesCleared: nat)
    requires ValidBoard(merged)
    ensures linesCleared == Rows.FullCount(merged, RowComplete)
    ensures board == ClearedBoard(merged)
  {
    EmptyRowIncomplete();
    board := merged;
    linesCleared := 0;
    ghost var u := BoardHeight;
    var y := BoardHeight - 1;
    Rows.PartlyClearedStart(merged, EmptyRow, RowComplete);
    assert merged[u..] == [];
    while y >= 0
      invariant -1 <= y < BoardHeight && 0 <= u <= BoardHeight
      invariant y + 1 == linesCleared + u || (u == 0 && y + 1 <= linesCleared)
      invariant board == Rows.PartlyCleared(merged, EmptyRow, RowComplete, linesCleared, u)
      invariant linesCleared == Rows.FullCount(merged[u..], RowComplete)
      decreases u, y + 1
    {
      ClearStep(merged, board, linesCleared, u, y);
      if RowComplete(board[y]) {
        board := [EmptyRow] + board[..y] + board[y + 1..];
        linesCleared := linesCleared + 1;
        u := u - 1;
        y := y + 1;
      } else if u > 0 {
        u := u - 1;
      }
      y := y - 1;
    }
    assert merged[0..] == merged;
    Rows.PartlyClearedDone(merged, EmptyRow, RowComplete);
  }

  // ---------------------------------------------------------------- hard drop

  /** The `while` loop of the hard drop: one more row would collide, none of the rows before it does. */
  method DropDistance(board: Board, piece: Piece) returns (dropDistance: nat)
    requires ValidBoard(board) && HasFilled(piece.shape)
    ensures forall k :: 1 <= k <= dropDistance ==> !Collides(board, piece, 0, k)
    ensures Collides(board, piece, 0, dropDistance + 1)
  {
    ghost var fy, fx :| 0 <= fy < |piece.shape| && 0 <= fx < |piece.shape[fy]| && piece.shape[fy][fx] != 0;
    dropDistance := 0;
    var hit := CheckCollision(board, piece, 0, dropDistance + 1);
    while !hit
      invariant forall k :: 1 <= k <= dropDistance ==> !Collides(board, piece, 0, k)
      invariant hit == Collides(board, piece, 0, dropDistance + 1)
      invariant !hit ==> piece.y + fy + dropDistance + 1 < BoardHeight
      decreases BoardHeight - (piece.y + fy + dropDistance)
    {
      dropDistance := dropDistance + 1;
      hit := CheckCollision(board, piece, 0, dropDistance + 1);
      if !hit {
        assert !Blocked(board, piece.x + fx + 0, piece.y + fy + dropDistance + 1);
      }
    }
  }
}

/**
 * The React state of the Three.js Tetris (board, current piece, score, game
 * over) as one object, with a method per handler and effect that changes it.
 */
module Tetris3DGame {
  import opened Wrappers
  import opened Shapes
  import Rows
  import opened Tetris3D

  predicate Playable(p: Piece) {
    WellFormed(p.shape) && HasFilled(p.shape)
  }

  class Game {
    var board: Board
    var currentPiece: Option<Piece>
    var score: int
    var gameOver: bool

    /**
     * The invariant every handler keeps: the falling piece never overlaps the
     * board or leaves it, there is no falling piece once the game is over, and
     * the score is a whole number of cleared lines at 100 each.
     */
    ghost predicate Valid()
      reads this
    {
      ValidBoard(board) &&
      (currentPiece.Some? ==> Playable(currentPiece.value) && !Collides(board, currentPiece.value, 0, 0)) &&
      (gameOver ==> currentPiece.None?) &&
      score >= 0 && score % 100 == 0
    }

    /** The initial `useState` values: an all-zero board, no piece, score 0. */
    constructor ()
      ensures Valid()
      ensures board == EmptyBoard && currentPiece == None && score == 0 && !gameOver
    {
      board := EmptyBoard;
      currentPiece := None;
      score := 0;
      gameOver := false;
    }

    /**
     * The effect that runs `spawnPiece` while there is no piece and the game is
     * on. `kind` stands for the `Math.random` choice. The spawn test ends the
     * game exactly when the spawned piece would collide.
     */
    method SpawnPiece(kind: Kind)
      requires Valid()
      modifies this
      ensures Valid()
      ensures board == old(board) && score == old(score)
      ensures old(currentPiece).Some? || old(gameOver) ==> currentPiece == old(currentPiece) && gameOver == old(gameOver)
      ensures old(currentPiece).None? && !old(gameOver) ==>
        (gameOver <==> Collides(board, Spawned(kind), 0, 0)) &&
        currentPiece == if gameOver then None else Some(Spawned(kind))
    {
      if currentPiece.Some? || gameOver {
        return;
      }
      var newPiece := Spawned(kind);
      var blocked := CheckSpawn(board, newPiece.shape, newPiece.x);
      SpawnTestIsCollision(board, kind);
      ShapesAreWellFormed(kind);
      if blocked {
        gameOver := true;
        return;
      }
      currentPiece := Some(newPiece);
    }

    /**
     * `movePiece(dx, dy)`: a move that does not collide is adopted; a colliding
     * move downwards locks the piece; any other colliding move does nothing.
     */
    method MovePiece(dx: int, dy: int)
      requires Valid()
      modifies this
      ensures Valid()
      ensures old(currentPiece).None? || old(gameOver) ==> unchanged(this)
      ensures old(currentPiece).Some? && !old(gameOver) ==>
        var p := old(currentPiece).value;
        if !Collides(old(board), p, dx, dy) then
          currentPiece == Some(Moved(p, dx, dy)) && board == old(board) && score == old(score) && !gameOver
        else if dy > 0 then
          var stamped := Stamped(old(board), p);
          board == ClearedBoard(stamped) &&
          score == old(score) + 100 * Rows.FullCount(stamped, RowComplete) &&
          currentPiece == None && !gameOver
        else
          unchanged(this)
    {
      if currentPiece.None? || gameOver {
        return;
      }
      var piece := currentPiece.value;
      var hit := CheckCollision(board, piece, dx, dy);
      if !hit {
        CollidesMoved(board, piece, dx, dy);
        currentPiece := Some(Moved(piece, dx, dy));
      } else if dy > 0 {
        LockPiece(piece);
      }
    }

    /** `lockPiece`: stamp, clear complete rows, add 100 per line, drop the piece. */
    method LockPiece(piece: Piece)
      requires Valid()
      modifies this
      ensures Valid()
      ensures
        var stamped := Stamped(old(board), piece);
        board == ClearedBoard(stamped) &&
        score == old(score) + 100 * Rows.FullCount(stamped, RowComplete) &&
        currentPiece == None && gameOver == old(gameOver)
    {
      var stamped := StampPiece(board, piece);
      var newBoard, linesCleared := ClearFullRows(stamped);
      if linesCleared > 0 {
        score := score + linesCleared * 100;
      }
      board := newBoard;
      currentPiece := None;
    }

    /** `rotatePiece`: the quarter-turned shape is adopted iff it does not collide where it is. */
    method RotatePiece()
      requires Valid()
      modifies this
      ensures Valid()
      ensures board == old(board) && score == old(score) && gameOver == old(gameOver)
      ensures old(currentPiece).None? || old(gameOver) ==> currentPiece == old(currentPiece)
      ensures old(currentPiece).Some? && !old(gameOver) ==>
        var turned := old(currentPiece).value.(shape := RotateCW(old(currentPiece).value.shape));
        currentPiece == if Collides(board, turned, 0, 0) then old(currentPiece) else Some(turned)
    {
      if currentPiece.None? || gameOver {
        return;
      }
      var piece := currentPiece.value;
      var rotated := RotateCW(piece.shape);
      var rotatedPiece := piece.(shape := rotated);
      var hit := CheckCollision(board, rotatedPiece, 0, 0);
      if !hit {
        RotatePreservesFilled(piece.shape);
        currentPiece := Some(rotatedPiece);
      }
    }

    /**
     * The space key: the piece falls by the drop distance through
     * `movePiece(0, dropDistance)`, which never collides and so never locks.
     */
    method HardDrop()
      requires Valid()
      modifies this
      ensures Valid()
      ensures board == old(board) && score == old(score) && gameOver == old(gameOver)
      ensures old(currentPiece).None? || old(gameOver) ==> currentPiece == old(currentPiece)
      ensures old(currentPiece).Some? && !old(gameOver) ==>
        var p := old(currentPiece).value;
        exists d: nat ::
          currentPiece == Some(Moved(p, 0, d)) &&
          (forall k :: 1 <= k <= d ==> !Collides(board, p, 0, k)) &&
          Collides(board, p, 0, d + 1)
    {
      if currentPiece.None? || gameOver {
        return;
      }
      var piece := currentPiece.value;
      var dropDistance := DropDistance(board, piece);
      if dropDistance == 0 {
        assert !Collides(board, piece, 0, 0);
      }
      MovePiece(0, dropDistance);
    }

    /** The `r` key after game over: an empty board, score 0, no piece. */
    method Restart()
      requires Valid()
      modifies this
      ensures Valid()
      ensures old(gameOver) ==> board == EmptyBoard && score == 0 && !gameOver && currentPiece == None
      ensures !old(gameOver) ==> unchanged(this)
    {
      if gameOver {
        board := EmptyBoard;
        score := 0;
        gameOver := false;
        currentPiece := None;
      }
    }
  }
}
