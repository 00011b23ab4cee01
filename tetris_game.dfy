/**
 * The React state of TetrisComponent (board, current piece, preview queue,
 * score, lines, level, game over, pause) as one object, with one method per
 * event handler that changes it.
 */
module TetrisGame {
  import opened Wrappers
  import opened Shapes
  import Rows
  import opened Tetris

  /** The preview queue is dealt three pieces; a landing takes one and appends one. */
  const QueueLength := 3

  /** Every piece the game handles has a well-formed shape with a filled cell. */
  predicate Playable(p: Piece) {
    WellFormed(p.shape) && HasFilled(p.shape)
  }

  predicate AllPlayable(q: seq<Piece>) {
    forall i :: 0 <= i < |q| ==> Playable(q[i])
  }

  /** `[createNewPiece(), createNewPiece(), ...]` for the entries `Math.random` picked. */
  function Deck(queued: seq<PieceData>): (q: seq<Piece>)
    requires forall i :: 0 <= i < |queued| ==> SkinPiece(queued[i])
    ensures |q| == |queued|
    ensures forall i :: 0 <= i < |q| ==> SkinPiece(queued[i]) && q[i] == NewPiece(queued[i])
  {
    if queued == [] then []
    else
      assert SkinPiece(queued[0]);
      [NewPiece(queued[0])] + Deck(queued[1..])
  }

  lemma SkinPiecesArePlayable(data: PieceData)
    requires SkinPiece(data)
    ensures Playable(NewPiece(data)) && Fits(NewPiece(data))
  {
    SkinShapesAreSmall(data.shape);
  }

  class Game {
    var board: Board
    var currentPiece: Option<Piece>
    var nextPieces: seq<Piece>
    var score: int
    var lines: nat
    var level: nat
    var gameOver: bool
    var isPaused: bool

    /** The invariant every handler keeps. */
    ghost predicate Valid()
      reads this
    {
      ValidBoard(board) &&
      |nextPieces| == QueueLength && AllPlayable(nextPieces) &&
      (currentPiece.Some? ==> Playable(currentPiece.value) && Fits(currentPiece.value)) &&
      level == Level(lines) && score >= 0
    }

    /**
     * The falling piece does not overlap the board while the game runs. Every
     * handler keeps this except a skin change, which deals new pieces without a test.
     */
    ghost predicate Settled()
      reads this
      requires ValidBoard(board)
    {
      currentPiece.Some? && !gameOver ==> !Collides(board, currentPiece.value, 0, 0)
    }

    /** The guard every piece handler starts with: `!currentPiece || gameOver || isPaused` returns. */
    predicate Active()
      reads this
    {
      currentPiece.Some? && !gameOver && !isPaused
    }

    /**
     * The state after mounting: `useState` gives the prefilled board and zero
     * counters, then the initialising effect deals three queued pieces and the
     * current one. `paint` and the piece entries stand for `Math.random`'s choices.
     */
    constructor (paint: (int, int) -> nat, queued: seq<PieceData>, first: PieceData)
      requires forall y, x :: paint(y, x) < |PrefillColors|
      requires |queued| == QueueLength && forall i :: 0 <= i < |queued| ==> SkinPiece(queued[i])
      requires SkinPiece(first)
      ensures Valid() && Settled()
      ensures IsPrefilled(board, paint)
      ensures nextPieces == Deck(queued) && currentPiece == Some(NewPiece(first))
      ensures score == 0 && lines == 0 && level == 1 && !gameOver && !isPaused
    {
      var b := CreatePrefilledBoard(paint);
      board := b;
      forall i | 0 <= i < |queued| ensures |queued[i].shape| > 0 {
        SkinShapesAreSmall(queued[i].shape);
      }
      SkinShapesAreSmall(first.shape);
      nextPieces := Deck(queued);
      currentPiece := Some(NewPiece(first));
      score, lines, level := 0, 0, 1;
      gameOver, isPaused := false, false;
      new;
      forall i | 0 <= i < |queued| ensures Playable(nextPieces[i]) {
        SkinPiecesArePlayable(queued[i]);
      }
      SkinPiecesArePlayable(first);
      SpawnOnPrefilled(b, paint, first);
    }

    /** `resetGame`: a new prefilled board, zero counters and a new deal. */
    method ResetGame(paint: (int, int) -> nat, queued: seq<PieceData>, first: PieceData)
      requires forall y, x :: paint(y, x) < |PrefillColors|
      requires |queued| == QueueLength && forall i :: 0 <= i < |queued| ==> SkinPiece(queued[i])
      requires SkinPiece(first)
      modifies this
      ensures Valid() && Settled()
      ensures IsPrefilled(board, paint)
      ensures nextPieces == Deck(queued) && currentPiece == Some(NewPiece(first))
      ensures score == 0 && lines == 0 && level == 1 && !gameOver && !isPaused
    {
      var b := CreatePrefilledBoard(paint);
      board := b;
      score, lines, level := 0, 0, 1;
      gameOver, isPaused := false, false;
      forall i | 0 <= i < |queued| ensures |queued[i].shape| > 0 && Playable(NewPiece(queued[i])) {
        SkinShapesAreSmall(queued[i].shape);
        SkinPiecesArePlayable(queued[i]);
      }
      SkinPiecesArePlayable(first);
      nextPieces := Deck(queued);
      currentPiece := Some(NewPiece(first));
      SpawnOnPrefilled(b, paint, first);
    }

    /**
     * Choosing another skin replaces `createNewPiece`, which re-runs the
     * initialising effect: a new queue and current piece on the board as it is.
     */
    method ChangeSkin(queued: seq<PieceData>, first: PieceData)
      requires Valid()
      requires |queued| == QueueLength && forall i :: 0 <= i < |queued| ==> SkinPiece(queued[i])
      requires SkinPiece(first)
      modifies this
      ensures Valid()
      ensures nextPieces == Deck(queued) && currentPiece == Some(NewPiece(first))
      ensures board == old(board) && score == old(score) && lines == old(lines) && level == old(level)
      ensures gameOver == old(gameOver) && isPaused == old(isPaused)
    {
      forall i | 0 <= i < |queued| ensures |queued[i].shape| > 0 && Playable(NewPiece(queued[i])) {
        SkinShapesAreSmall(queued[i].shape);
        SkinPiecesArePlayable(queued[i]);
      }
      SkinPiecesArePlayable(first);
      nextPieces := Deck(queued);
      currentPiece := Some(NewPiece(first));
    }

    /**
     * `movePiece(dx, dy)`: a move that does not collide is adopted; a colliding
     * move downwards lands the piece: merge, clear, count, score, and take the
     * queue head unless it collides with the new board, which ends the game.
     * `refill` is the piece `createNewPiece` appends to the queue.
     */
    method MovePiece(dx: int, dy: int, refill: PieceData)
      requires Valid() && SkinPiece(refill)
      modifies this
      ensures Valid()
      ensures old(Settled()) ==> Settled()
      ensures !old(Active()) ==> unchanged(this)
      ensures old(Active()) && !Collides(old(board), old(currentPiece).value, dx, dy) ==>
        currentPiece == Some(Shifted(old(currentPiece).value, dx, dy)) &&
        board == old(board) && nextPieces == old(nextPieces) && score == old(score) &&
        lines == old(lines) && level == old(level) && gameOver == old(gameOver) && isPaused == old(isPaused)
      ensures old(Active()) && Collides(old(board), old(currentPiece).value, dx, dy) && dy <= 0 ==>
        unchanged(this)
      ensures old(Active()) && Collides(old(board), old(currentPiece).value, dx, dy) && dy > 0 ==>
        var merged := Merged(old(board), old(currentPiece).value);
        var n := Rows.FullCount(merged, RowComplete);
        && board == ClearedBoard(merged)
        && lines == old(lines) + n
        && score == old(score) + n * 100 * old(level)
        && level == Level(lines)
        && isPaused == old(isPaused)
        && (gameOver <==> Collides(board, old(nextPieces)[0], 0, 0))
        && (gameOver ==> currentPiece == old(currentPiece) && nextPieces == old(nextPieces))
        && (!gameOver ==> currentPiece == Some(old(nextPieces)[0]) &&
                          nextPieces == old(nextPieces)[1..] + [NewPiece(refill)])
    {
      if !Active() {
        return;
      }
      var piece := currentPiece.value;
      var hit := CheckCollision(piece, board, dx, dy);
      if !hit {
        CollidesShifted(board, piece, dx, dy);
        NoCollisionFits(board, Shifted(piece, dx, dy));
        currentPiece := Some(Shifted(piece, dx, dy));
      } else if dy > 0 {
        Land(piece, refill);
      }
    }

    /** The landing branch of `movePiece`: merge, clear, count, score, next piece. */
    method Land(piece: Piece, refill: PieceData)
      requires Valid() && Active() && currentPiece == Some(piece) && SkinPiece(refill)
      modifies this
      ensures Valid() && Settled()
      ensures
        var merged := Merged(old(board), piece);
        var n := Rows.FullCount(merged, RowComplete);
        && board == ClearedBoard(merged)
        && lines == old(lines) + n
        && score == old(score) + n * 100 * old(level)
        && level == Level(lines)
        && isPaused == old(isPaused)
        && (gameOver <==> Collides(board, old(nextPieces)[0], 0, 0))
        && (gameOver ==> currentPiece == old(currentPiece) && nextPieces == old(nextPieces))
        && (!gameOver ==> currentPiece == Some(old(nextPieces)[0]) &&
                          nextPieces == old(nextPieces)[1..] + [NewPiece(refill)])
    {
      Settle(piece);
      TakeNext(refill);
    }

    /** The first half of a landing: merge, clear, count lines and score, then the level effect. */
    method Settle(piece: Piece)
      requires Valid() && currentPiece == Some(piece)
      modifies this
      ensures Valid()
      ensures
        var merged := Merged(old(board), piece);
        var n := Rows.FullCount(merged, RowComplete);
        && board == ClearedBoard(merged)
        && lines == old(lines) + n
        && score == old(score) + n * 100 * old(level)
        && level == Level(lines)
      ensures currentPiece == old(currentPiece) && nextPieces == old(nextPieces)
      ensures gameOver == old(gameOver) && isPaused == old(isPaused)
    {
      var mergedBoard := MergePiece(piece, board);
      var newBoard, linesCleared := ClearLines(mergedBoard);
      board := newBoard;
      lines := lines + linesCleared;
      score := score + LinePoints(linesCleared, level);
      // the level-progression effect, run once `lines` has changed
      level := Level(lines);
    }

    /**
     * The second half of a landing: the head of the queue becomes the falling
     * piece unless it collides with the new board, which ends the game.
     */
    method TakeNext(refill: PieceData)
      requires Valid() && !gameOver && SkinPiece(refill)
      modifies this
      ensures Valid() && Settled()
      ensures board == old(board) && lines == old(lines) && score == old(score)
      ensures level == old(level) && isPaused == old(isPaused)
      ensures gameOver <==> Collides(board, old(nextPieces)[0], 0, 0)
      ensures gameOver ==> currentPiece == old(currentPiece) && nextPieces == old(nextPieces)
      ensures !gameOver ==>
        currentPiece == Some(old(nextPieces)[0]) && nextPieces == old(nextPieces)[1..] + [NewPiece(refill)]
    {
      if |nextPieces| > 0 {
        var newPiece := nextPieces[0];
        var headHit := CheckCollision(newPiece, board, 0, 0);
        if headHit {
          gameOver := true;
        } else {
          NoCollisionFits(board, newPiece);
          SkinPiecesArePlayable(refill);
          currentPiece := Some(newPiece);
          nextPieces := nextPieces[1..] + [NewPiece(refill)];
        }
      }
    }

    /** `rotate`: the quarter-turned piece is adopted iff it does not collide where it is. */
    method Rotate()
      requires Valid()
      modifies this
      ensures Valid()
      ensures old(Settled()) ==> Settled()
      ensures board == old(board) && nextPieces == old(nextPieces) && score == old(score)
      ensures lines == old(lines) && level == old(level) && gameOver == old(gameOver) && isPaused == old(isPaused)
      ensures old(Active()) ==>
        var turned := old(currentPiece).value.(shape := RotateCW(old(currentPiece).value.shape));
        currentPiece == if Collides(board, turned, 0, 0) then old(currentPiece) else Some(turned)
      ensures !old(Active()) ==> currentPiece == old(currentPiece)
    {
      if !Active() {
        return;
      }
      var piece := currentPiece.value;
      var rotated := RotateCW(piece.shape);
      var rotatedPiece := piece.(shape := rotated);
      var hit := CheckCollision(rotatedPiece, board, 0, 0);
      if !hit {
        RotatePreservesFilled(piece.shape);
        NoCollisionFits(board, rotatedPiece);
        currentPiece := Some(rotatedPiece);
      }
    }

    /**
     * The position part of `hardDrop`: the piece falls straight down by the
     * drop distance, to the last row from which one more step would collide.
     */
    method HardDrop()
      requires Valid()
      modifies this
      ensures Valid()
      ensures old(Settled()) ==> Settled()
      ensures board == old(board) && nextPieces == old(nextPieces) && score == old(score)
      ensures lines == old(lines) && level == old(level) && gameOver == old(gameOver) && isPaused == old(isPaused)
      ensures !old(Active()) ==> currentPiece == old(currentPiece)
      ensures old(Active()) ==>
        var p := old(currentPiece).value;
        exists d: nat ::
          currentPiece == Some(Shifted(p, 0, d)) &&
          (forall k :: 1 <= k <= d ==> !Collides(board, p, 0, k)) &&
          Collides(board, p, 0, d + 1)
    {
      if !Active() {
        return;
      }
      var piece := currentPiece.value;
      var dropDistance := DropDistance(piece, board);
      if dropDistance > 0 {
        CollidesShifted(board, piece, 0, dropDistance);
        NoCollisionFits(board, Shifted(piece, 0, dropDistance));
      } else {
        assert Shifted(piece, 0, 0) == piece;
      }
      currentPiece := Some(Shifted(piece, 0, dropDistance));
    }

    /** The pause button and the `p` key; both are inert once the game is over. */
    method TogglePause()
      requires Valid()
      modifies this`isPaused
      ensures Valid()
      ensures isPaused == if gameOver then old(isPaused) else !old(isPaused)
    {
      if !gameOver {
        isPaused := !isPaused;
      }
    }

    /** A click on queue entry `index` > 0 swaps it with the head of the queue. */
    method SwapQueue(index: nat)
      requires Valid() && index < |nextPieces|
      modifies this`nextPieces
      ensures Valid()
      ensures nextPieces == SwapWithHead(old(nextPieces), index)
    {
      if index > 0 {
        nextPieces := SwapWithHead(nextPieces, index);
      }
    }
  }
}
