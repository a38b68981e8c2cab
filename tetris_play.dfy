/**
  The mutable side of tetris.js: the well `tetrisBoard` as an `array2<int>` rewritten in place,
  the `Piece` objects whose fields `rotate` and `rotateBack` update, and the game state with
  `movePiece`, `rotatePiece`, `hardDrop`, `collision`, `lockPiece`, `clearLines` and
  `spawnNewPiece`. Each method is proved against the matching function of module `Tetris`.
 */
module TetrisPlay {
  import opened Tetris

  /** The well read as rows. */
  ghost function RowsOf(b: array2<int>): (rows: seq<seq<int>>)
    reads b
    ensures |rows| == b.Length0
    ensures forall r :: 0 <= r < |rows| ==> |rows[r]| == b.Length1
    ensures forall r, c :: 0 <= r < b.Length0 && 0 <= c < b.Length1 ==> rows[r][c] == b[r, c]
  {
    seq(b.Length0, r requires 0 <= r < b.Length0 reads b =>
      seq(b.Length1, c requires 0 <= c < b.Length1 reads b => b[r, c]))
  }

  ghost predicate WellSized(b: array2<int>)
  {
    b.Length0 == Rows && b.Length1 == Cols
  }

  /** Two wells that agree cell by cell are equal. */
  lemma SameRows(a: seq<seq<int>>, b: seq<seq<int>>)
    requires IsWell(a) && IsWell(b)
    requires forall r, c :: 0 <= r < Rows && 0 <= c < Cols ==> a[r][c] == b[r][c]
    ensures a == b
  {
    forall r | 0 <= r < Rows
      ensures a[r] == b[r]
    {
      assert forall c :: 0 <= c < Cols ==> a[r][c] == b[r][c];
    }
  }

  /** `collision`: the shape cells are scanned row by row, and the first one that hits answers true. */
  method Collides(b: array2<int>, s: seq<seq<int>>, x: int, y: int) returns (hit: bool)
    requires WellSized(b)
    ensures hit == Hits(RowsOf(b), s, x, y)
  {
    ghost var rows := RowsOf(b);
    var r := 0;
    while r < |s|
      invariant 0 <= r <= |s|
      invariant forall i, j :: 0 <= i < r ==> !HitsCell(rows, s, x, y, i, j)
    {
      var c := 0;
      while c < |s[r]|
        invariant 0 <= c <= |s[r]|
        invariant forall j :: 0 <= j < c ==> !HitsCell(rows, s, x, y, r, j)
      {
        if s[r][c] != 0 {
          var newX, newY := x + c, y + r;
          if newX < 0 || newX >= Cols || newY >= Rows {
            assert HitsCell(rows, s, x, y, r, c);
            return true;
          }
          if newY >= 0 && b[newY, newX] != 0 {
            assert HitsCell(rows, s, x, y, r, c);
            return true;
          }
        }
        c := c + 1;
      }
      assert forall j :: !HitsCell(rows, s, x, y, r, j);
      r := r + 1;
    }
    hit := false;
  }

  /**
    The cell loop of `lockPiece`: filled cells are written row by row; the first filled cell
    above the well stops it, and since rows are scanned from the top nothing has been written
    by then.
   */
  method WriteShape(b: array2<int>, s: seq<seq<int>>, x: int, y: int) returns (over: bool)
    requires WellSized(b) && !Hits(RowsOf(b), s, x, y)
    modifies b
    ensures over == AboveTop(s, y)
    ensures over ==> RowsOf(b) == old(RowsOf(b))
    ensures !over ==> RowsOf(b) == Stamp(old(RowsOf(b)), s, x, y)
  {
    ghost var rows := RowsOf(b);
    var r := 0;
    while r < |s|
      invariant 0 <= r <= |s|
      invariant forall i, j :: 0 <= i < r && Filled(s, i, j) ==> y + i >= 0
      invariant forall R, C :: 0 <= R < Rows && 0 <= C < Cols ==> b[R, C] == Written(rows, s, x, y, r, 0, R, C)
    {
      var c := 0;
      while c < |s[r]|
        invariant 0 <= c <= |s[r]|
        invariant forall j :: 0 <= j < c && Filled(s, r, j) ==> y + r >= 0
        invariant forall R, C :: 0 <= R < Rows && 0 <= C < Cols ==> b[R, C] == Written(rows, s, x, y, r, c, R, C)
      {
        if s[r][c] != 0 {
          if y + r < 0 {
            assert Filled(s, r, c);
            Untouched(b, rows, s, x, y, r, c);
            SameRows(RowsOf(b), rows);
            return true;
          }
          assert !HitsCell(rows, s, x, y, r, c);
          b[y + r, x + c] := s[r][c];
        }
        c := c + 1;
      }
      r := r + 1;
    }
    over := false;
    NotAboveTop(s, y, r);
    SameRows(RowsOf(b), Stamp(rows, s, x, y));
  }

  /** A cell of the well once the shape cells before row `r`, column `c` have been written. */
  ghost function Written(rows: seq<seq<int>>, s: seq<seq<int>>, x: int, y: int, r: int, c: int, R: int, C: int): int
    requires IsWell(rows) && 0 <= R < Rows && 0 <= C < Cols
  {
    if (R - y < r || (R - y == r && C - x < c)) && Filled(s, R - y, C - x) then s[R - y][C - x] else rows[R][C]
  }

  /** When the scan stops at an above-top cell, no cell was written before it. */
  lemma Untouched(b: array2<int>, rows: seq<seq<int>>, s: seq<seq<int>>, x: int, y: int, r: int, c: int)
    requires WellSized(b) && IsWell(rows) && y + r < 0
    requires forall R, C :: 0 <= R < Rows && 0 <= C < Cols ==> b[R, C] == Written(rows, s, x, y, r, c, R, C)
    ensures forall R, C :: 0 <= R < Rows && 0 <= C < Cols ==> b[R, C] == rows[R][C]
  {
  }

  /** A scan of every row that met no cell above the well shows that none is. */
  lemma NotAboveTop(s: seq<seq<int>>, y: int, r: int)
    requires r == |s|
    requires forall i, j :: 0 <= i < r && Filled(s, i, j) ==> y + i >= 0
    ensures !AboveTop(s, y)
  {
  }

  /** The scan of one row in `clearLines`: it stops at the first empty cell. */
  method RowFull(b: array2<int>, r: int) returns (full: bool)
    requires WellSized(b) && 0 <= r < Rows
    ensures full == Full(RowsOf(b)[r])
  {
    full := true;
    var c := 0;
    while c < Cols
      invariant 0 <= c <= Cols
      invariant forall j :: 0 <= j < c ==> b[r, j] != 0
      invariant full
    {
      if b[r, c] == 0 {
        full := false;
        break;
      }
      c := c + 1;
    }
  }

  /** Row `src` copied over row `dst`, cell by cell. */
  method CopyRow(b: array2<int>, dst: int, src: int)
    requires WellSized(b) && 0 <= dst < Rows && 0 <= src < Rows && dst != src
    modifies b
    ensures forall R, C :: 0 <= R < Rows && 0 <= C < Cols ==>
      b[R, C] == if R == dst then old(b[src, C]) else old(b[R, C])
  {
    for c := 0 to Cols
      invariant forall R, C :: 0 <= R < Rows && 0 <= C < Cols ==>
        b[R, C] == if R == dst && C < c then old(b[src, C]) else old(b[R, C])
    {
      b[dst, c] := b[src, c];
    }
  }

  /** The shifting loops of `clearLines`: rows above `r` move down one and the top row is emptied. */
  method ShiftDown(b: array2<int>, r: int)
    requires WellSized(b) && 0 <= r < Rows
    modifies b
    ensures RowsOf(b) == [EmptyRow()] + old(RowsOf(b))[..r] + old(RowsOf(b))[r + 1..]
  {
    ghost var rows := RowsOf(b);
    var y := r;
    while y > 0
      invariant 0 <= y <= r
      invariant forall R, C :: 0 <= R < Rows && 0 <= C < Cols ==>
        b[R, C] == if y < R <= r then rows[R - 1][C] else rows[R][C]
    {
      CopyRow(b, y, y - 1);
      y := y - 1;
    }
    for c := 0 to Cols
      invariant forall R, C :: 0 <= R < Rows && 0 <= C < Cols ==>
        b[R, C] == if R == 0 && C < c then 0 else if 0 < R <= r then rows[R - 1][C] else rows[R][C]
    {
      b[0, c] := 0;
    }
    ShiftedRows(rows, RowsOf(b), r);
  }

  lemma ShiftedRows(rows: seq<seq<int>>, t: seq<seq<int>>, r: int)
    requires IsWell(rows) && IsWell(t) && 0 <= r < Rows
    requires forall R, C :: 0 <= R < Rows && 0 <= C < Cols ==>
      t[R][C] == if R == 0 then 0 else if R <= r then rows[R - 1][C] else rows[R][C]
    ensures t == [EmptyRow()] + rows[..r] + rows[r + 1..]
  {
    var u := [EmptyRow()] + rows[..r] + rows[r + 1..];
    forall R, C | 0 <= R < Rows && 0 <= C < Cols
      ensures t[R][C] == u[R][C]
    {
      if R == 0 {
      } else if R <= r {
        assert u[R] == rows[R - 1];
      } else {
        assert u[R] == rows[R];
      }
    }
    SameRows(t, u);
  }

  /**
    The row loop of `clearLines`: from the bottom up, a full row is removed by shifting the
    rows above it down and is then checked again. The well ends as `Compact` of the old one and
    the count returned is the number of full rows it had.
   */
  method ClearFullRows(b: array2<int>) returns (cleared: int)
    requires WellSized(b)
    modifies b
    ensures RowsOf(b) == Compact(old(RowsOf(b)))
    ensures cleared == NumFull(old(RowsOf(b)))
  {
    ghost var rows0 := RowsOf(b);
    cleared := 0;
    var r := Rows - 1;
    while r >= 0
      invariant -1 <= r < Rows
      invariant Compact(RowsOf(b)) == Compact(rows0)
      invariant cleared + NumFull(RowsOf(b)) == NumFull(rows0)
      invariant NoFull(RowsOf(b)[r + 1..])
      decreases r + 1, NumFull(RowsOf(b)[..r + 1])
    {
      ghost var rows := RowsOf(b);
      var full := RowFull(b, r);
      if full {
        cleared := cleared + 1;
        ShiftDown(b, r);
        CompactShift(rows, r);
        assert RowsOf(b)[r + 1..] == rows[r + 1..];
      } else {
        r := r - 1;
        assert RowsOf(b)[r + 1..] == [rows[r + 1]] + rows[r + 2..];
      }
    }
    assert RowsOf(b)[0..] == RowsOf(b);
    CompactNoFull(RowsOf(b));
  }

  /** A falling piece: its kind, orientation, the shape of that orientation and its position. */
  class Piece {
    const kind: int
    var rotation: int
    var shape: seq<seq<int>>
    var x: int
    var y: int

    ghost predicate Valid()
      reads this
    {
      0 <= kind < 7 && 0 <= rotation < 4 && shape == Shape(kind, rotation)
    }

    ghost function State(): PieceState
      reads this
    {
      PieceState(kind, rotation, x, y)
    }

    /** A new piece has orientation 0 and sits at the top row, centred by `SpawnX`. */
    constructor(kind: int)
      requires 0 <= kind < 7
      ensures Valid() && State() == Spawned(kind)
    {
      this.kind := kind;
      rotation := 0;
      shape := Shape(kind, 0);
      x := Cols / 2 - (|Shape(kind, 0)[0]| + 1) / 2;
      y := 0;
    }

    /** `rotate`: one quarter turn clockwise; the shape follows the orientation. */
    method Rotate()
      requires Valid()
      modifies this
      ensures Valid() && State() == old(State()).(rotation := Clockwise(old(rotation)))
    {
      RotateRoundTrip(rotation);
      rotation := Clockwise(rotation);
      shape := Shape(kind, rotation);
    }

    /** `rotateBack`: one quarter turn back; after `Rotate` it restores the orientation and shape. */
    method RotateBack()
      requires Valid()
      modifies this
      ensures Valid() && State() == old(State()).(rotation := Anticlockwise(old(rotation)))
    {
      RotateRoundTrip(rotation);
      rotation := Anticlockwise(rotation);
      shape := Shape(kind, rotation);
    }
  }

  /** The state of tetris.js: the well, the falling and the next piece, and the counters. */
  class TetrisGame {
    const board: array2<int>
    var current: Piece
    var next: Piece
    var score: int
    var level: int
    var lines: int
    var gameOver: bool
    var dropSpeed: int

    ghost function View(): Game
      reads this, board, current, next
    {
      Game(RowsOf(board), current.State(), next.State(), score, level, lines, gameOver, dropSpeed)
    }

    /** The well has its size and the two pieces are distinct valid objects. */
    ghost predicate Shaped()
      reads this, current, next
    {
      WellSized(board) && current != next && current.Valid() && next.Valid()
    }

    ghost predicate Valid()
      reads this, board, current, next
    {
      Shaped() && GameOk(View())
    }

    /** The start of a game: an empty well, the first piece falling and the second one waiting. */
    constructor(first: int, second: int)
      requires 0 <= first < 7 && 0 <= second < 7
      ensures Valid() && View() == Initial(first, second)
    {
      board := new int[Rows, Cols]((r, c) => 0);
      current := new Piece(first);
      next := new Piece(second);
      score := 0;
      level := 1;
      lines := 0;
      gameOver := false;
      dropSpeed := 1000;
      new;
      SameRows(RowsOf(board), Blank(Rows));
      InitialOk(first, second);
    }

    /** `collision` for the falling piece. */
    method Collision() returns (hit: bool)
      requires Shaped()
      ensures hit == Hits(RowsOf(board), ShapeOf(current.State()), current.x, current.y)
    {
      hit := Collides(board, current.shape, current.x, current.y);
    }

    /** `movePiece`: the piece is moved, and moved back when it collides there; the answer says whether it moved. */
    method MovePiece(dx: int, dy: int) returns (moved: bool)
      requires Valid()
      modifies current
      ensures Valid() && View() == MovedBy(old(View()), dx, dy)
      ensures moved == Fits(old(View()), dx, dy)
    {
      ghost var g := View();
      MovedOk(g, dx, dy);
      current.x := current.x + dx;
      current.y := current.y + dy;
      assert RowsOf(board) == g.rows && current.State() == g.piece.(x := g.piece.x + dx, y := g.piece.y + dy);
      var hit := Collision();
      assert hit == !Fits(g, dx, dy);
      if hit {
        current.x := current.x - dx;
        current.y := current.y - dy;
        assert View() == g;
        return false;
      }
      assert View() == g.(piece := g.piece.(x := g.piece.x + dx, y := g.piece.y + dy));
      return true;
    }

    /** `rotatePiece`: the piece turns, and turns back when the turned shape collides. */
    method RotatePiece()
      requires Valid()
      modifies current
      ensures Valid() && View() == Rotated(old(View()))
    {
      RotatedOk(View());
      RotateRoundTrip(current.rotation);
      current.Rotate();
      var hit := Collision();
      if hit {
        current.RotateBack();
      }
    }

    /** `spawnNewPiece`: the next piece falls, a piece of kind `k` waits, and a colliding spawn ends the game. */
    method SpawnNewPiece(k: int)
      requires Shaped() && 0 <= k < 7
      modifies this
      ensures Shaped() && View() == Spawn(old(View()), k)
    {
      current := next;
      next := new Piece(k);
      var hit := Collision();
      if hit {
        gameOver := true;
      }
    }

    /** `clearLines`: the full rows are removed and, when there were some, the counters are updated. */
    method ClearLines()
      requires Shaped() && NumFull(RowsOf(board)) <= 4
      modifies this, board
      ensures Shaped() && View() == ClearedGame(old(View()))
    {
      ghost var g := View();
      var cleared := ClearFullRows(board);
      ghost var t := RowsOf(board);
      if cleared > 0 {
        AddLines(cleared);
      } else {
        KeptFacts(g.rows);
        CompactNoFull(g.rows);
      }
    }

    /** The counter update of `clearLines` for `n` cleared rows: a level is only ever raised, and the speed follows it. */
    method AddLines(n: int)
      requires 1 <= n <= 4
      modifies this
      ensures score == old(score) + Points(n) * old(level) && lines == old(lines) + n
      ensures LevelFor(lines) > old(level) ==> level == LevelFor(lines) && dropSpeed == SpeedFor(level)
      ensures LevelFor(lines) <= old(level) ==> level == old(level) && dropSpeed == old(dropSpeed)
      ensures current == old(current) && next == old(next) && gameOver == old(gameOver)
    {
      score := score + Points(n) * level;
      lines := lines + n;
      var newLevel := lines / 10 + 1;
      if newLevel > level {
        level := newLevel;
        dropSpeed := if 1000 - (level - 1) * 100 > 100 then 1000 - (level - 1) * 100 else 100;
      }
    }

    /** `lockPiece`: the piece is written into the well, the full rows cleared and the next piece spawned. */
    method LockPiece(k: int)
      requires Valid() && !gameOver && 0 <= k < 7
      modifies this, board
      ensures Valid() && View() == Locked(old(View()), k)
    {
      ghost var g := View();
      LockedOk(g, k);
      var over := WriteShape(board, current.shape, current.x, current.y);
      if over {
        gameOver := true;
        return;
      }
      StampFull(g.rows, g.piece, current.shape);
      ClearLines();
      SpawnNewPiece(k);
    }

    /** `hardDrop`: the piece moves down until a move fails, then locks there. */
    method HardDrop(k: int)
      requires Valid() && !gameOver && 0 <= k < 7
      modifies this, board, current
      ensures Valid() && View() == Dropped(old(View()), k)
    {
      ghost var g := View();
      ghost var p := g.piece;
      DroppedIs(g, k);
      ghost var ly := Landing(g.rows, ShapeOf(p), p.x, p.y);
      DropStep(g, p.y);
      var moved := MovePiece(0, 1);
      while moved
        invariant Valid() && current == old(current) && p.y <= current.y <= ly
        invariant View() == g.(piece := p.(y := current.y))
        invariant !moved ==> current.y == ly
        decreases ly - current.y + (if moved then 1 else 0)
      {
        DropStep(g, current.y);
        moved := MovePiece(0, 1);
      }
      LockPiece(k);
    }

    /** `tetrisGameLoop`: one tick of the timer. */
    method Tick(k: int)
      requires Valid() && 0 <= k < 7
      modifies this, board, current
      ensures Valid() && View() == Ticked(old(View()), k)
    {
      if gameOver {
        return;
      }
      var moved := MovePiece(0, 1);
      if !moved {
        LockPiece(k);
      }
    }
  }
}
