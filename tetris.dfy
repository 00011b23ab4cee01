/**
 * The grid engine of the 16 x 20 "Block Blast" Tetris (app/tetris/TetrisComponent.tsx):
 * collision test, merge, line clearing, the prefilled starting board, spawning,
 * hard-drop distance and the level / gravity formulas. The game state that the
 * component keeps in React state lives in module TetrisGame.
 */
module Tetris {
  import opened Wrappers
  import opened Shapes
  import Rows

  const BoardWidth := 16
  const BoardHeight := 20

  type Color = string
  /** A cell is empty (`null`) or holds the colour of the block in it. */
  type Cell = Option<Color>
  type Row = seq<Cell>
  type Board = seq<Row>

  datatype Position = Position(x: int, y: int)
  datatype Piece = Piece(shape: Shape, color: Color, position: Position)
  /** An entry of a skin's piece list. */
  datatype PieceData = PieceData(shape: Shape, color: Color)

  /** The shapes of every skin's piece list, in order I, O, T, S, Z, and the two L shapes. */
  const SkinShapes: seq<Shape> := [
    [[1, 1, 1, 1]],
    [[1, 1], [1, 1]],
    [[0, 1, 0], [1, 1, 1]],
    [[0, 1, 1], [1, 1, 0]],
    [[1, 1, 0], [0, 1, 1]],
    [[1, 0, 0], [1, 1, 1]],
    [[0, 0, 1], [1, 1, 1]]
  ]

  predicate ValidBoard(b: Board) {
    |b| == BoardHeight && forall y :: 0 <= y < |b| ==> |b[y]| == BoardWidth
  }

  /** `row.every(cell => cell !== null)` */
  predicate RowComplete(row: Row) {
    forall x :: 0 <= x < |row| ==> row[x].Some?
  }

  /** `Array(BOARD_WIDTH).fill(null)` */
  const EmptyRow: Row := Rows.Repeat(None, BoardWidth)

  lemma EmptyRowIncomplete()
    ensures |EmptyRow| == BoardWidth && !RowComplete(EmptyRow)
  {
    assert EmptyRow[0] == None;
  }

  // ---------------------------------------------------------------- collision

  /** A board coordinate a filled piece cell may not occupy. */
  predicate Blocked(board: Board, x: int, y: int)
    requires ValidBoard(board)
  {
    x < 0 || x >= BoardWidth || y >= BoardHeight || (y >= 0 && board[y][x].Some?)
  }

  /** Some filled cell of `piece`, shifted by the offset, lands on a blocked coordinate. */
  predicate Collides(board: Board, piece: Piece, offsetX: int, offsetY: int)
    requires ValidBoard(board)
  {
    exists y, x :: 0 <= y < |piece.shape| && 0 <= x < |piece.shape[y]| && piece.shape[y][x] != 0 &&
      Blocked(board, piece.position.x + x + offsetX, piece.position.y + y + offsetY)
  }

  /** `checkCollision`: the nested scan with an early return. */
  method CheckCollision(piece: Piece, board: Board, offsetX: int, offsetY: int) returns (hit: bool)
    requires ValidBoard(board)
    ensures hit == Collides(board, piece, offsetX, offsetY)
  {
    var shape := piece.shape;
    var y := 0;
    while y < |shape|
      invariant 0 <= y <= |shape|
      invariant forall j, i :: 0 <= j < y && 0 <= i < |shape[j]| && shape[j][i] != 0 ==>
        !Blocked(board, piece.position.x + i + offsetX, piece.position.y + j + offsetY)
    {
      var x := 0;
      while x < |shape[y]|
        invariant 0 <= x <= |shape[y]|
        invariant forall i :: 0 <= i < x && shape[y][i] != 0 ==>
          !Blocked(board, piece.position.x + i + offsetX, piece.position.y + y + offsetY)
      {
        if shape[y][x] != 0 {
          var newX := piece.position.x + x + offsetX;
          var newY := piece.position.y + y + offsetY;
          if newX < 0 || newX >= BoardWidth || newY >= BoardHeight {
            assert Blocked(board, newX, newY);
            return true;
          }
          if newY >= 0 && board[newY][newX].Some? {
            assert Blocked(board, newX, newY);
            return true;
          }
        }
        x := x + 1;
      }
      y := y + 1;
    }
    return false;
  }

  /** `{...piece, position: {x: x + dx, y: y + dy}}` */
  function Shifted(piece: Piece, dx: int, dy: int): Piece {
    piece.(position := Position(piece.position.x + dx, piece.position.y + dy))
  }

  /** Moving a piece by an offset and testing it in place is testing it at that offset. */
  lemma CollidesShifted(board: Board, piece: Piece, dx: int, dy: int)
    requires ValidBoard(board)
    ensures Collides(board, Shifted(piece, dx, dy), 0, 0) <==> Collides(board, piece, dx, dy)
  {
    var moved := Shifted(piece, dx, dy);
    if Collides(board, piece, dx, dy) {
      var y, x :| 0 <= y < |piece.shape| && 0 <= x < |piece.shape[y]| && piece.shape[y][x] != 0 &&
        Blocked(board, piece.position.x + x + dx, piece.position.y + y + dy);
      assert Blocked(board, moved.position.x + x + 0, moved.position.y + y + 0);
    }
    if Collides(board, moved, 0, 0) {
      var y, x :| 0 <= y < |moved.shape| && 0 <= x < |moved.shape[y]| && moved.shape[y][x] != 0 &&
        Blocked(board, moved.position.x + x + 0, moved.position.y + y + 0);
      assert Blocked(board, piece.position.x + x + dx, piece.position.y + y + dy);
    }
  }

  // ---------------------------------------------------------------- merge

  /** The board cell (cx, cy) lies under a filled cell of `piece` and is not above the top. */
  predicate Covers(piece: Piece, cx: int, cy: int) {
    var y, x := cy - piece.position.y, cx - piece.position.x;
    cy >= 0 && 0 <= y < |piece.shape| && 0 <= x < |piece.shape[y]| && piece.shape[y][x] != 0
  }

  /**
   * What `mergePiece`'s unchecked write `newBoard[boardY][boardX]` needs: every
   * filled cell at row >= 0 is inside the board. A piece that does not collide fits.
   */
  predicate Fits(piece: Piece) {
    forall y, x ::
      0 <= y < |piece.shape| && 0 <= x < |piece.shape[y]| && piece.shape[y][x] != 0 && piece.position.y + y >= 0
      ==> 0 <= piece.position.x + x < BoardWidth && piece.position.y + y < BoardHeight
  }

  lemma NoCollisionFits(board: Board, piece: Piece)
    requires ValidBoard(board) && !Collides(board, piece, 0, 0)
    ensures Fits(piece)
  {
    forall y, x | 0 <= y < |piece.shape| && 0 <= x < |piece.shape[y]| && piece.shape[y][x] != 0
      ensures !Blocked(board, piece.position.x + x + 0, piece.position.y + y + 0)
    {
    }
  }

  /** The merged board, cell by cell. */
  function Merged(board: Board, piece: Piece): (r: Board)
    requires ValidBoard(board)
    ensures ValidBoard(r)
  {
    seq(BoardHeight, cy requires 0 <= cy < BoardHeight =>
      seq(BoardWidth, cx requires 0 <= cx < BoardWidth =>
        if Covers(piece, cx, cy) then Some(piece.color) else board[cy][cx]))
  }

  /**
   * `mergePiece`: writes the piece's colour into a copy of the board, one
   * filled cell at a time. Exactly the covered cells change.
   */
  method MergePiece(piece: Piece, board: Board) returns (newBoard: Board)
    requires ValidBoard(board) && Fits(piece)
    ensures ValidBoard(newBoard)
    ensures forall cy, cx :: 0 <= cy < BoardHeight && 0 <= cx < BoardWidth ==>
      newBoard[cy][cx] == if Covers(piece, cx, cy) then Some(piece.color) else board[cy][cx]
    ensures newBoard == Merged(board, piece)
  {
    var shape := piece.shape;
    var px, py := piece.position.x, piece.position.y;
    newBoard := board;
    var y := 0;
    while y < |shape|
      invariant 0 <= y <= |shape|
      invariant ValidBoard(newBoard)
      invariant forall cy, cx :: 0 <= cy < BoardHeight && 0 <= cx < BoardWidth ==>
        newBoard[cy][cx] == if Covers(piece, cx, cy) && cy - py < y then Some(piece.color) else board[cy][cx]
    {
      var x := 0;
      while x < |shape[y]|
        invariant 0 <= x <= |shape[y]|
        invariant ValidBoard(newBoard)
        invariant forall cy, cx :: 0 <= cy < BoardHeight && 0 <= cx < BoardWidth ==>
          newBoard[cy][cx] ==
            if Covers(piece, cx, cy) && (cy - py < y || (cy - py == y && cx - px < x))
            then Some(piece.color) else board[cy][cx]
      {
        if shape[y][x] != 0 {
          var boardY := py + y;
          var boardX := px + x;
          if boardY >= 0 {
            newBoard := newBoard[boardY := newBoard[boardY][boardX := Some(piece.color)]];
          }
        }
        x := x + 1;
      }
      y := y + 1;
    }
    ghost var m := Merged(board, piece);
    forall cy | 0 <= cy < BoardHeight
      ensures newBoard[cy] == m[cy]
    {
    }
  }

  // ---------------------------------------------------------------- line clearing

  /** The board after clearing: the empty rows on top of the incomplete rows. */
  function ClearedBoard(board: Board): (r: Board)
    requires ValidBoard(board)
    ensures ValidBoard(r)
    ensures forall y :: 0 <= y < |r| ==> !RowComplete(r[y])
  {
    EmptyRowIncomplete();
    var r := Rows.Cleared(board, EmptyRow, RowComplete);
    Rows.SurvivorsKeep(board, RowComplete, (row: Row) => |row| == BoardWidth);
    r
  }

  /**
   * `clearLines`: the `filter` drops the complete rows and counts them, then the
   * `while` loop unshifts empty rows until the height is back to 20.
   */
  method ClearLines(board: Board) returns (newBoard: Board, linesCleared: nat)
    requires ValidBoard(board)
    ensures linesCleared == Rows.FullCount(board, RowComplete)
    ensures newBoard == Rows.Repeat(EmptyRow, linesCleared) + Rows.Survivors(board, RowComplete)
    ensures newBoard == ClearedBoard(board)
  {
    linesCleared := 0;
    var kept: Board := [];
    var i := 0;
    while i < |board|
      invariant 0 <= i <= |board|
      invariant kept == Rows.Survivors(board[..i], RowComplete)
      invariant linesCleared == Rows.FullCount(board[..i], RowComplete)
    {
      Rows.ScanNext(board, i, RowComplete);
      if RowComplete(board[i]) {
        linesCleared := linesCleared + 1;
      } else {
        kept := kept + [board[i]];
      }
      i := i + 1;
    }
    assert board[..i] == board;
    Rows.SurvivorsCount(board, RowComplete);
    newBoard := kept;
    while |newBoard| < BoardHeight
      invariant |kept| <= |newBoard| <= BoardHeight
      invariant newBoard == Rows.Repeat(EmptyRow, |newBoard| - |kept|) + kept
    {
      newBoard := [EmptyRow] + newBoard;
    }
    assert |newBoard| - |kept| == linesCleared;
    assert newBoard == ClearedBoard(board);
  }

  // ---------------------------------------------------------------- starting board

  const PrefillColors: seq<Color> := ["#D4AF37", "#DAA520", "#B8860B", "#CD853F", "#DEB887", "#F4A460"]

  /** The "worm holes": cells of rows 10 to 19 that `createPrefilledBoard` leaves empty. */
  predicate WormHole(x: int, y: int) {
    (x == 7 && y >= 12 && y <= 16) ||
    (x == 8 && y >= 12 && y <= 16) ||
    (x == 4 && y >= 14 && y <= 17) ||
    (x == 12 && y >= 13 && y <= 18) ||
    (y == 15 && x >= 2 && x <= 5) ||
    (y == 17 && x >= 9 && x <= 11) ||
    (y == 13 && x >= 13 && x <= 15) ||
    (x == 1 && y == 16) ||
    (x == 6 && y == 18) ||
    (x == 10 && y == 14) ||
    (x == 14 && y == 16) ||
    (x == 3 && y == 12) ||
    (x == 11 && y == 19) ||
    (x == 15 && y == 11)
  }

  /**
   * A board as `createPrefilledBoard` makes it; `paint(y, x)` is the palette
   * index that `Math.random` picked for cell (x, y).
   */
  ghost predicate IsPrefilled(b: Board, paint: (int, int) -> nat)
    requires forall y, x :: paint(y, x) < |PrefillColors|
  {
    ValidBoard(b) &&
    forall y, x :: 0 <= y < BoardHeight && 0 <= x < BoardWidth ==>
      b[y][x] == if y >= 10 && !WormHole(x, y) then Some(PrefillColors[paint(y, x)]) else None
  }

  /** `createPrefilledBoard`: empty rows, then rows 10 to 19 filled except for the worm holes. */
  method CreatePrefilledBoard(paint: (int, int) -> nat) returns (b: Board)
    requires forall y, x :: paint(y, x) < |PrefillColors|
    ensures IsPrefilled(b, paint)
  {
    b := Rows.Repeat(EmptyRow, BoardHeight);
    var y := 10;
    while y < BoardHeight
      invariant 10 <= y <= BoardHeight
      invariant ValidBoard(b)
      invariant forall j, i :: 0 <= j < BoardHeight && 0 <= i < BoardWidth ==>
        b[j][i] == if 10 <= j < y && !WormHole(i, j) then Some(PrefillColors[paint(j, i)]) else None
    {
      var x := 0;
      while x < BoardWidth
        invariant 0 <= x <= BoardWidth
        invariant ValidBoard(b)
        invariant forall j, i :: 0 <= j < BoardHeight && 0 <= i < BoardWidth ==>
          b[j][i] ==
            if (10 <= j < y || (j == y && i < x)) && !WormHole(i, j) then Some(PrefillColors[paint(j, i)]) else None
      {
        var shouldBeEmpty := WormHole(x, y);
        if !shouldBeEmpty {
          b := b[y := b[y][x := Some(PrefillColors[paint(y, x)])]];
        }
        x := x + 1;
      }
      y := y + 1;
    }
  }

  /** Rows 0 to 9 of the starting board are empty, and row 10 is its only complete row. */
  lemma PrefilledRows(b: Board, paint: (int, int) -> nat)
    requires forall y, x :: paint(y, x) < |PrefillColors|
    requires IsPrefilled(b, paint)
    ensures forall y, x :: 0 <= y < 10 && 0 <= x < BoardWidth ==> b[y][x] == None
    ensures forall y :: 0 <= y < BoardHeight ==> (RowComplete(b[y]) <==> y == 10)
  {
    var hole := map[11 := 15, 12 := 7, 13 := 7, 14 := 7, 15 := 7, 16 := 7, 17 := 4, 18 := 12, 19 := 11];
    forall y | 0 <= y < BoardHeight
      ensures RowComplete(b[y]) <==> y == 10
    {
      if y < 10 {
        assert b[y][0] == None;
      } else if y == 10 {
        forall x | 0 <= x < BoardWidth ensures b[y][x].Some? {
          assert !WormHole(x, y);
        }
      } else {
        assert WormHole(hole[y], y);
        assert b[y][hole[y]] == None;
      }
    }
  }

  // ---------------------------------------------------------------- spawning

  /**
   * `createNewPiece`: the chosen skin entry, placed on row 0 and centred,
   * leaning left when the margins cannot be equal.
   */
  function NewPiece(data: PieceData): (p: Piece)
    requires |data.shape| > 0
    ensures p.shape == data.shape && p.color == data.color && p.position.y == 0
    ensures |data.shape[0]| <= BoardWidth ==>
      var left, right := p.position.x, BoardWidth - (p.position.x + |data.shape[0]|);
      0 <= left && 0 <= right && (right == left || right == left + 1)
  {
    Piece(data.shape, data.color, Position((BoardWidth - |data.shape[0]|) / 2, 0))
  }

  /** A skin entry: one of the seven shapes, in the skin's colour. */
  predicate SkinPiece(data: PieceData)
    ensures SkinPiece(data) ==> |data.shape| > 0
  {
    data.shape in SkinShapes
  }

  lemma SkinShapesAreSmall(s: Shape)
    requires s in SkinShapes
    ensures WellFormed(s) && HasFilled(s) && |s| <= 2 && |s[0]| <= 4
  {
    assert s[|s| - 1][1] != 0;
  }

  /** A freshly spawned piece never collides with a starting board. */
  lemma SpawnOnPrefilled(b: Board, paint: (int, int) -> nat, data: PieceData)
    requires forall y, x :: paint(y, x) < |PrefillColors|
    requires IsPrefilled(b, paint) && SkinPiece(data)
    ensures !Collides(b, NewPiece(data), 0, 0)
  {
    SkinShapesAreSmall(data.shape);
    var p := NewPiece(data);
    forall y, x | 0 <= y < |p.shape| && 0 <= x < |p.shape[y]| && p.shape[y][x] != 0
      ensures !Blocked(b, p.position.x + x + 0, p.position.y + y + 0)
    {
      assert b[y][p.position.x + x] == None;
    }
  }

  // ---------------------------------------------------------------- hard drop

  /**
   * The `while` loop of `hardDrop`: the number of rows the piece falls, i.e. the
   * first distance after which one more row would collide.
   */
  method DropDistance(piece: Piece, board: Board) returns (dropDistance: nat)
    requires ValidBoard(board) && HasFilled(piece.shape)
    ensures forall k :: 1 <= k <= dropDistance ==> !Collides(board, piece, 0, k)
    ensures Collides(board, piece, 0, dropDistance + 1)
  {
    ghost var fy, fx :| 0 <= fy < |piece.shape| && 0 <= fx < |piece.shape[fy]| && piece.shape[fy][fx] != 0;
    dropDistance := 0;
    var hit := CheckCollision(piece, board, 0, dropDistance + 1);
    while !hit
      invariant forall k :: 1 <= k <= dropDistance ==> !Collides(board, piece, 0, k)
      invariant hit == Collides(board, piece, 0, dropDistance + 1)
      invariant !hit ==> piece.position.y + fy + dropDistance + 1 < BoardHeight
      decreases BoardHeight - (piece.position.y + fy + dropDistance)
    {
      dropDistance := dropDistance + 1;
      hit := CheckCollision(piece, board, 0, dropDistance + 1);
      if !hit {
        assert !Blocked(board, piece.position.x + fx + 0, piece.position.y + fy + dropDistance + 1);
      }
    }
  }

  // ---------------------------------------------------------------- level and speed

  /** `Math.floor(lines / 10) + 1` */
  function Level(lines: nat): (level: nat)
    ensures level >= 1
  {
    lines / 10 + 1
  }

  /** The points `movePiece` awards for a landing: 100 per line times the level, with no bonus for several lines. */
  function LinePoints(linesCleared: nat, level: nat): nat {
    linesCleared * 100 * level
  }

  /** `Math.max(100, 1000 - (level - 1) * 100)`, in milliseconds. */
  function DropInterval(level: int): (ms: int)
    ensures ms >= 100
  {
    if 1000 - (level - 1) * 100 > 100 then 1000 - (level - 1) * 100 else 100
  }

  /** A higher level never falls slower, and from level 10 on the speed stays at 100 ms. */
  lemma LevelSpeedsUp(lines1: nat, lines2: nat)
    requires lines1 <= lines2
    ensures Level(lines1) <= Level(lines2)
    ensures DropInterval(Level(lines1)) >= DropInterval(Level(lines2))
    ensures lines2 >= 90 ==> DropInterval(Level(lines2)) == 100
  {
  }

  // ---------------------------------------------------------------- queue

  /** The queue click handler: entry `index` and the head change places. */
  function SwapWithHead<T>(queue: seq<T>, index: nat): (r: seq<T>)
    requires index < |queue|
    ensures |r| == |queue| && r[0] == queue[index] && r[index] == queue[0]
    ensures forall k :: 0 < k < |queue| && k != index ==> r[k] == queue[k]
    ensures multiset(r) == multiset(queue)
  {
    if index == 0 then queue
    else queue[0 := queue[index]][index := queue[0]]
  }
}
