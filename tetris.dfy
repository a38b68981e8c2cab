/**
  The Tetris game of tetris.js: a 20 by 10 well of cells (0 empty, 1..7 the colour of a
  locked piece), a falling `Piece` that moves, rotates, drops and locks, and the clearing of
  full rows with its score, level and drop-speed arithmetic.

  The well is an `array2<int>` rewritten in place; `RowsOf` reads it as rows for the
  specification. Each operation of `TetrisGame` is proved against a function on the value
  `Game` (`MovedBy`, `Rotated`, `Locked`, `Dropped`, `ClearedGame`), and the lemmas below state
  what those functions guarantee. The kind of each newly created piece, random in the game, is
  a parameter.
 */
module Tetris {

  const Cols := 10
  const Rows := 20

  /** The four orientations of the seven pieces I, J, L, O, S, T, Z; a filled cell holds the kind plus one. */
  function Pieces(): seq<seq<seq<seq<int>>>>
  {
    [
      [ [[0,0,0,0], [1,1,1,1], [0,0,0,0], [0,0,0,0]],
        [[0,0,1,0], [0,0,1,0], [0,0,1,0], [0,0,1,0]],
        [[0,0,0,0], [0,0,0,0], [1,1,1,1], [0,0,0,0]],
        [[0,1,0,0], [0,1,0,0], [0,1,0,0], [0,1,0,0]] ],
      [ [[2,0,0], [2,2,2], [0,0,0]],
        [[0,2,2], [0,2,0], [0,2,0]],
        [[0,0,0], [2,2,2], [0,0,2]],
        [[0,2,0], [0,2,0], [2,2,0]] ],
      [ [[0,0,3], [3,3,3], [0,0,0]],
        [[0,3,0], [0,3,0], [0,3,3]],
        [[0,0,0], [3,3,3], [3,0,0]],
        [[3,3,0], [0,3,0], [0,3,0]] ],
      [ [[4,4], [4,4]],
        [[4,4], [4,4]],
        [[4,4], [4,4]],
        [[4,4], [4,4]] ],
      [ [[0,5,5], [5,5,0], [0,0,0]],
        [[0,5,0], [0,5,5], [0,0,5]],
        [[0,0,0], [0,5,5], [5,5,0]],
        [[5,0,0], [5,5,0], [0,5,0]] ],
      [ [[0,6,0], [6,6,6], [0,0,0]],
        [[0,6,0], [0,6,6], [0,6,0]],
        [[0,0,0], [6,6,6], [0,6,0]],
        [[0,6,0], [6,6,0], [0,6,0]] ],
      [ [[7,7,0], [0,7,7], [0,0,0]],
        [[0,0,7], [0,7,7], [0,7,0]],
        [[0,0,0], [7,7,0], [0,7,7]],
        [[0,7,0], [7,7,0], [7,0,0]] ]
    ]
  }

  function Shape(kind: int, rotation: int): seq<seq<int>>
    requires 0 <= kind < 7 && 0 <= rotation < 4
  {
    Pieces()[kind][rotation]
  }

  /** Every orientation is a square of side 2 to 4, filled with 0 and the piece's value, with a filled cell near its centre. */
  ghost predicate WellShaped(s: seq<seq<int>>, v: int)
  {
    && 2 <= |s| <= 4
    && (forall i :: 0 <= i < |s| ==> |s[i]| == |s|)
    && (forall i, j :: 0 <= i < |s| && 0 <= j < |s[i]| ==> s[i][j] == 0 || s[i][j] == v)
    && (s[1][1] != 0 || (|s| > 2 && s[2][2] != 0))
  }

  lemma ShapeFacts(kind: int, rotation: int)
    requires 0 <= kind < 7 && 0 <= rotation < 4
    ensures WellShaped(Shape(kind, rotation), kind + 1)
  {
  }

  /** The rotation after `rotate` and after `rotateBack`. */
  function Clockwise(rotation: int): int
  {
    (rotation + 1) % 4
  }

  function Anticlockwise(rotation: int): int
  {
    (rotation + 3) % 4
  }

  /** `rotateBack` undoes `rotate` and the other way round, and both stay in 0..3. */
  lemma RotateRoundTrip(rotation: int)
    requires 0 <= rotation < 4
    ensures 0 <= Clockwise(rotation) < 4 && 0 <= Anticlockwise(rotation) < 4
    ensures Anticlockwise(Clockwise(rotation)) == rotation
    ensures Clockwise(Anticlockwise(rotation)) == rotation
  {
  }

  /** The spawn column: half the well's width less half the piece's width, rounded up. */
  function SpawnX(kind: int): int
    requires 0 <= kind < 7
  {
    Cols / 2 - (|Shape(kind, 0)[0]| + 1) / 2
  }

  /** A piece: its kind, orientation and the well position of its top-left shape cell. */
  datatype PieceState = PieceState(kind: int, rotation: int, x: int, y: int)

  ghost predicate PieceOk(p: PieceState)
  {
    0 <= p.kind < 7 && 0 <= p.rotation < 4
  }

  function ShapeOf(p: PieceState): seq<seq<int>>
    requires PieceOk(p)
  {
    Shape(p.kind, p.rotation)
  }

  function Spawned(kind: int): PieceState
    requires 0 <= kind < 7
  {
    PieceState(kind, 0, SpawnX(kind), 0)
  }

  /** Rows of the well: `Rows` rows of `Cols` cells. */
  ghost predicate IsWell(rows: seq<seq<int>>)
  {
    |rows| == Rows && forall r :: 0 <= r < |rows| ==> |rows[r]| == Cols
  }

  predicate Filled(s: seq<seq<int>>, i: int, j: int)
  {
    0 <= i < |s| && 0 <= j < |s[i]| && s[i][j] != 0
  }

  /** The filled shape cell (i, j) is left of, right of or below the well, or on an occupied cell; above the top is free. */
  ghost predicate HitsCell(rows: seq<seq<int>>, s: seq<seq<int>>, x: int, y: int, i: int, j: int)
    requires IsWell(rows)
  {
    Filled(s, i, j) && (x + j < 0 || x + j >= Cols || y + i >= Rows || (y + i >= 0 && rows[y + i][x + j] != 0))
  }

  /** `collision`: some filled cell of shape `s` placed at (x, y) hits. */
  ghost predicate Hits(rows: seq<seq<int>>, s: seq<seq<int>>, x: int, y: int)
    requires IsWell(rows)
  {
    exists i, j :: HitsCell(rows, s, x, y, i, j)
  }

  /** Some filled cell of `s` placed at row `y` lies above the well. */
  ghost predicate AboveTop(s: seq<seq<int>>, y: int)
  {
    exists i, j :: Filled(s, i, j) && y + i < 0
  }

  /** The well with the filled cells of `s` written at (x, y). */
  ghost function Stamp(rows: seq<seq<int>>, s: seq<seq<int>>, x: int, y: int): (r: seq<seq<int>>)
    requires IsWell(rows)
    ensures IsWell(r)
  {
    seq(Rows, R requires 0 <= R < Rows =>
      seq(Cols, C requires 0 <= C < Cols => if Filled(s, R - y, C - x) then s[R - y][C - x] else rows[R][C]))
  }

  predicate Full(row: seq<int>)
  {
    forall c :: 0 <= c < |row| ==> row[c] != 0
  }

  function EmptyRow(): (row: seq<int>)
    ensures |row| == Cols && !Full(row)
  {
    var row := seq(Cols, _ => 0);
    assert row[0] == 0;
    row
  }

  function Blank(n: nat): (rows: seq<seq<int>>)
    ensures |rows| == n && forall r :: 0 <= r < n ==> rows[r] == EmptyRow()
  {
    seq(n, _ => EmptyRow())
  }

  /** The rows that are not full, in their order. */
  function Kept(rows: seq<seq<int>>): seq<seq<int>>
  {
    if rows == [] then []
    else Kept(rows[..|rows| - 1]) + (if Full(rows[|rows| - 1]) then [] else [rows[|rows| - 1]])
  }

  function NumFull(rows: seq<seq<int>>): nat
  {
    if rows == [] then 0
    else NumFull(rows[..|rows| - 1]) + (if Full(rows[|rows| - 1]) then 1 else 0)
  }

  /** What `clearLines` leaves: one empty row on top per full row removed, then the other rows in order. */
  function Compact(rows: seq<seq<int>>): seq<seq<int>>
  {
    Blank(NumFull(rows)) + Kept(rows)
  }

  ghost predicate NoFull(rows: seq<seq<int>>)
  {
    forall r :: 0 <= r < |rows| ==> !Full(rows[r])
  }

  /** Points for clearing 0 to 4 rows at once, before the level factor. */
  function Points(n: int): int
    requires 0 <= n <= 4
  {
    [0, 100, 300, 500, 800][n]
  }

  function LevelFor(lines: int): int
  {
    lines / 10 + 1
  }

  function SpeedFor(level: int): int
  {
    if 1000 - (level - 1) * 100 > 100 then 1000 - (level - 1) * 100 else 100
  }

  /** The whole game: the well, the falling and the next piece, and the counters. */
  datatype Game = Game(rows: seq<seq<int>>, piece: PieceState, next: PieceState,
                       score: int, level: int, lines: int, gameOver: bool, dropSpeed: int)

  /**
    What holds between moves: a well of the right size with no full row, valid pieces, the
    level and speed given by the line count, and, while the game runs, a falling piece that
    does not collide.
   */
  ghost predicate GameOk(g: Game)
  {
    && IsWell(g.rows) && NoFull(g.rows)
    && PieceOk(g.piece) && PieceOk(g.next)
    && g.score >= 0 && g.lines >= 0
    && g.level == LevelFor(g.lines) && g.dropSpeed == SpeedFor(g.level)
    && (!g.gameOver ==> !Hits(g.rows, ShapeOf(g.piece), g.piece.x, g.piece.y))
  }

  function Initial(first: int, second: int): Game
    requires 0 <= first < 7 && 0 <= second < 7
  {
    Game(Blank(Rows), Spawned(first), Spawned(second), 0, 1, 0, false, 1000)
  }

  /** The falling piece moved by (dx, dy) does not collide. */
  ghost predicate Fits(g: Game, dx: int, dy: int)
    requires IsWell(g.rows) && PieceOk(g.piece)
  {
    !Hits(g.rows, ShapeOf(g.piece), g.piece.x + dx, g.piece.y + dy)
  }

  /** `movePiece(dx, dy)`: the piece moves when it does not collide there, and stays otherwise. */
  ghost function MovedBy(g: Game, dx: int, dy: int): Game
    requires IsWell(g.rows) && PieceOk(g.piece)
  {
    var p := g.piece;
    if Fits(g, dx, dy) then g.(piece := p.(x := p.x + dx, y := p.y + dy)) else g
  }

  /** `rotatePiece`: the piece turns clockwise unless the turned shape collides. */
  ghost function Rotated(g: Game): Game
    requires IsWell(g.rows) && PieceOk(g.piece)
  {
    var p := g.piece;
    if Hits(g.rows, Shape(p.kind, Clockwise(p.rotation)), p.x, p.y) then g
    else g.(piece := p.(rotation := Clockwise(p.rotation)))
  }

  /** `clearLines`: the full rows removed; when there were some, the score, line count, level and speed updated. */
  ghost function ClearedGame(g: Game): Game
    requires NumFull(g.rows) <= 4
  {
    var n := NumFull(g.rows);
    if n == 0 then g
    else
      var lines := g.lines + n;
      var up := LevelFor(lines) > g.level;
      g.(rows := Compact(g.rows), score := g.score + Points(n) * g.level, lines := lines,
         level := if up then LevelFor(lines) else g.level,
         dropSpeed := if up then SpeedFor(LevelFor(lines)) else g.dropSpeed)
  }

  /** `spawnNewPiece`: the next piece falls, a new one of kind `k` waits, and a colliding spawn ends the game. */
  ghost function Spawn(g: Game, k: int): Game
    requires IsWell(g.rows) && PieceOk(g.next) && 0 <= k < 7
  {
    g.(piece := g.next, next := Spawned(k),
       gameOver := g.gameOver || Hits(g.rows, ShapeOf(g.next), g.next.x, g.next.y))
  }

  /**
    `lockPiece`: a piece reaching above the well ends the game and writes nothing; otherwise its
    cells are written, full rows are cleared and the next piece spawns.
   */
  ghost function Locked(g: Game, k: int): Game
    requires GameOk(g) && !g.gameOver && 0 <= k < 7
  {
    var p := g.piece;
    var s := ShapeOf(p);
    if AboveTop(s, p.y) then g.(gameOver := true)
    else
      StampFull(g.rows, p, s);
      CompactFacts(Stamp(g.rows, s, p.x, p.y));
      Spawn(ClearedGame(g.(rows := Stamp(g.rows, s, p.x, p.y))), k)
  }

  /** The row at which a piece falling from row `y` comes to rest. */
  ghost function Landing(rows: seq<seq<int>>, s: seq<seq<int>>, x: int, y: int): int
    requires IsWell(rows) && HasCell(s) && !Hits(rows, s, x, y)
    decreases Rows - y
  {
    BelowBottom(rows, s, x, y);
    if Hits(rows, s, x, y + 1) then y else Landing(rows, s, x, y + 1)
  }

  /** `hardDrop`: the piece falls to its landing row and locks there. */
  ghost function Dropped(g: Game, k: int): Game
    requires GameOk(g) && !g.gameOver && 0 <= k < 7
  {
    var p := g.piece;
    ShapeHasCell(p.kind, p.rotation);
    var ly := Landing(g.rows, ShapeOf(p), p.x, p.y);
    LandingFacts(g.rows, ShapeOf(p), p.x, p.y);
    Locked(g.(piece := p.(y := ly)), k)
  }

  ghost predicate HasCell(s: seq<seq<int>>)
  {
    exists i, j :: Filled(s, i, j)
  }

  lemma ShapeHasCell(kind: int, rotation: int)
    requires 0 <= kind < 7 && 0 <= rotation < 4
    ensures HasCell(Shape(kind, rotation))
  {
    var sh := Shape(kind, rotation);
    ShapeFacts(kind, rotation);
    if sh[1][1] != 0 {
      assert Filled(sh, 1, 1);
    } else {
      assert Filled(sh, 2, 2);
    }
  }

  /** A shape with a filled cell that does not collide has its top row inside the well. */
  lemma BelowBottom(rows: seq<seq<int>>, s: seq<seq<int>>, x: int, y: int)
    requires IsWell(rows) && HasCell(s) && !Hits(rows, s, x, y)
    ensures y < Rows
  {
    var i, j :| Filled(s, i, j);
    assert !HitsCell(rows, s, x, y, i, j);
  }

  /**
    The landing row is at or below the start, every row from the start down to it is free,
    and one row lower collides: `hardDrop` stops exactly where a further move down fails.
   */
  lemma {:induction false} LandingFacts(rows: seq<seq<int>>, s: seq<seq<int>>, x: int, y: int)
    requires IsWell(rows) && HasCell(s) && !Hits(rows, s, x, y)
    ensures var ly := Landing(rows, s, x, y);
      && y <= ly && !Hits(rows, s, x, ly) && Hits(rows, s, x, ly + 1)
      && forall k :: y <= k <= ly ==> !Hits(rows, s, x, k)
    decreases Rows - y
  {
    BelowBottom(rows, s, x, y);
    if !Hits(rows, s, x, y + 1) {
      LandingFacts(rows, s, x, y + 1);
    }
  }

  /** Removing full rows and counting them distribute over concatenation. */
  lemma {:induction false} AppendRows(a: seq<seq<int>>, b: seq<seq<int>>)
    ensures Kept(a + b) == Kept(a) + Kept(b)
    ensures NumFull(a + b) == NumFull(a) + NumFull(b)
    decreases |b|
  {
    if b == [] {
      assert a + b == a;
    } else {
      var b' := b[..|b| - 1];
      assert (a + b)[..|a + b| - 1] == a + b';
      AppendRows(a, b');
    }
  }

  /** Every row is either kept or counted as full, and the kept rows are rows of the input that are not full. */
  lemma {:induction false} KeptFacts(rows: seq<seq<int>>)
    ensures |Kept(rows)| + NumFull(rows) == |rows|
    ensures forall r :: r in Kept(rows) ==> r in rows && !Full(r)
    ensures NumFull(rows) == 0 <==> NoFull(rows)
    ensures NoFull(rows) ==> Kept(rows) == rows
  {
    if rows != [] {
      var init := rows[..|rows| - 1];
      KeptFacts(init);
      assert rows == init + [rows[|rows| - 1]];
      if NoFull(rows) {
        assert NoFull(init);
      }
    }
  }

  /** What `clearLines` leaves is a well of the same size without full rows. */
  lemma CompactFacts(rows: seq<seq<int>>)
    requires IsWell(rows)
    ensures IsWell(Compact(rows)) && NoFull(Compact(rows))
  {
    KeptFacts(rows);
    var c := Compact(rows);
    forall r | 0 <= r < |c|
      ensures |c[r]| == Cols && !Full(c[r])
    {
      if r >= NumFull(rows) {
        assert c[r] in Kept(rows);
      }
    }
  }

  /** A well without full rows is left as it is. */
  lemma CompactNoFull(rows: seq<seq<int>>)
    requires NoFull(rows)
    ensures NumFull(rows) == 0 && Compact(rows) == rows
  {
    KeptFacts(rows);
  }

  /**
    Removing the full row `r`, shifting the rows above it down and emptying the top row (one
    pass of `clearLines`) does not change the final outcome and leaves one full row fewer at
    or above `r`.
   */
  lemma CompactShift(rows: seq<seq<int>>, r: int)
    requires 0 <= r < |rows| && Full(rows[r])
    ensures Compact([EmptyRow()] + rows[..r] + rows[r + 1..]) == Compact(rows)
    ensures NumFull(([EmptyRow()] + rows[..r] + rows[r + 1..])[..r + 1]) + 1 == NumFull(rows[..r + 1])
    ensures NumFull([EmptyRow()] + rows[..r] + rows[r + 1..]) + 1 == NumFull(rows)
  {
    var e := [EmptyRow()];
    var a, x, b := rows[..r], rows[r], rows[r + 1..];
    SplitAround(rows, r);
    assert rows[..r + 1] == a + [x];
    assert (e + a + b)[..r + 1] == e + a;
    ShiftParts(a, x, b);
  }

  lemma BlankGrow(n: nat)
    ensures Blank(n) + [EmptyRow()] == Blank(n + 1)
  {
  }

  lemma SplitAround<T>(s: seq<T>, r: int)
    requires 0 <= r < |s|
    ensures s == s[..r] + [s[r]] + s[r + 1..]
  {
  }

  /** `CompactShift` on the rows above the full row `x`, `x` itself and the rows below it. */
  lemma ShiftParts(a: seq<seq<int>>, x: seq<int>, b: seq<seq<int>>)
    requires Full(x)
    ensures Compact([EmptyRow()] + a + b) == Compact(a + [x] + b)
    ensures NumFull([EmptyRow()] + a) + 1 == NumFull(a + [x])
    ensures NumFull([EmptyRow()] + a + b) + 1 == NumFull(a + [x] + b)
  {
    ShiftCompact(a, x, b);
    ShiftCount(a, x, b);
  }

  lemma ShiftCompact(a: seq<seq<int>>, x: seq<int>, b: seq<seq<int>>)
    requires Full(x)
    ensures Compact([EmptyRow()] + a + b) == Compact(a + [x] + b)
  {
    var e := [EmptyRow()];
    SplitAtFull(a, x, b);
    PrependEmpty(a, b);
    var n, ka, kb := NumFull(a) + NumFull(b), Kept(a), Kept(b);
    BlankGrow(n);
    assert Compact(e + a + b) == Blank(n) + (e + ka + kb);
    assert Compact(a + [x] + b) == (Blank(n) + e) + (ka + kb);
    Regroup(Blank(n), e, ka, kb);
  }

  lemma Regroup<T>(p: seq<T>, q: seq<T>, r: seq<T>, s: seq<T>)
    ensures p + (q + r + s) == (p + q) + (r + s)
  {
  }

  lemma ShiftCount(a: seq<seq<int>>, x: seq<int>, b: seq<seq<int>>)
    requires Full(x)
    ensures NumFull([EmptyRow()] + a) + 1 == NumFull(a + [x])
    ensures NumFull([EmptyRow()] + a + b) + 1 == NumFull(a + [x] + b)
  {
    var e := [EmptyRow()];
    SplitAtFull(a, x, b);
    PrependEmpty(a, b);
    AppendRows(e, a);
    assert NumFull(e) == 0 by {
      assert e[..0] == [];
    }
  }

  /** Cutting out a full row removes it from the kept rows and from the count. */
  lemma SplitAtFull(a: seq<seq<int>>, x: seq<int>, b: seq<seq<int>>)
    requires Full(x)
    ensures Kept(a + [x] + b) == Kept(a) + Kept(b)
    ensures NumFull(a + [x] + b) == NumFull(a) + 1 + NumFull(b)
    ensures NumFull(a + [x]) == NumFull(a) + 1
  {
    var front := a + [x];
    FullLast(front);
    assert front[..|front| - 1] == a;
    AppendRows(front, b);
  }

  /** A full last row is dropped and counted. */
  lemma FullLast(rows: seq<seq<int>>)
    requires |rows| > 0 && Full(rows[|rows| - 1])
    ensures Kept(rows) == Kept(rows[..|rows| - 1])
    ensures NumFull(rows) == NumFull(rows[..|rows| - 1]) + 1
  {
  }

  /** An empty row put on top is kept and not counted. */
  lemma PrependEmpty(a: seq<seq<int>>, b: seq<seq<int>>)
    ensures Kept([EmptyRow()] + a + b) == [EmptyRow()] + Kept(a) + Kept(b)
    ensures NumFull([EmptyRow()] + a + b) == NumFull(a) + NumFull(b)
  {
    var e := [EmptyRow()];
    AppendRows(e, a);
    AppendRows(e + a, b);
    assert e[..0] == [];
  }

  /** Full rows of a stamped well lie within the piece's rows, so a lock fills at most as many rows as the piece has. */
  lemma StampFull(rows: seq<seq<int>>, p: PieceState, s: seq<seq<int>>)
    requires IsWell(rows) && NoFull(rows) && PieceOk(p) && s == ShapeOf(p)
    ensures NumFull(Stamp(rows, s, p.x, p.y)) <= |s| <= 4
  {
    ShapeFacts(p.kind, p.rotation);
    var t := Stamp(rows, s, p.x, p.y);
    var lo := if p.y < 0 then 0 else if p.y > Rows then Rows else p.y;
    var hi := if p.y + |s| < lo then lo else if p.y + |s| > Rows then Rows else p.y + |s|;
    forall R | 0 <= R < Rows && (R < lo || R >= hi)
      ensures !Full(t[R])
    {
      StampOutside(rows, s, p.x, p.y, R);
    }
    FullWithin(t, lo, hi);
  }

  /** A row the shape does not reach is not changed by stamping it. */
  lemma StampOutside(rows: seq<seq<int>>, s: seq<seq<int>>, x: int, y: int, R: int)
    requires IsWell(rows) && 0 <= R < Rows && !(0 <= R - y < |s|)
    ensures Stamp(rows, s, x, y)[R] == rows[R]
  {
    var t := Stamp(rows, s, x, y);
    forall C | 0 <= C < Cols
      ensures t[R][C] == rows[R][C]
    {
      assert !Filled(s, R - y, C - x);
    }
  }

  /** When only rows lo..hi-1 can be full, at most hi - lo rows are full. */
  lemma FullWithin(t: seq<seq<int>>, lo: int, hi: int)
    requires 0 <= lo <= hi <= |t|
    requires forall R :: 0 <= R < |t| && (R < lo || R >= hi) ==> !Full(t[R])
    ensures NumFull(t) <= hi - lo
  {
    var a, m, b := t[..lo], t[lo..hi], t[hi..];
    assert t == a + m + b;
    NoFullSlice(t, 0, lo);
    NoFullSlice(t, hi, |t|);
    CountWithin(a, m, b);
  }

  /** Rows around a stretch `m` that are not full add nothing to the count. */
  lemma CountWithin(a: seq<seq<int>>, m: seq<seq<int>>, b: seq<seq<int>>)
    requires NoFull(a) && NoFull(b)
    ensures NumFull(a + m + b) <= |m|
  {
    AppendRows(a, m);
    AppendRows(a + m, b);
    KeptFacts(a);
    KeptFacts(m);
    KeptFacts(b);
  }

  /** A stretch of rows none of which is full. */
  lemma NoFullSlice(t: seq<seq<int>>, i: int, j: int)
    requires 0 <= i <= j <= |t|
    requires forall R :: i <= R < j ==> !Full(t[R])
    ensures NoFull(t[i..j])
  {
    forall r | 0 <= r < j - i
      ensures !Full(t[i..j][r])
    {
      assert t[i..j][r] == t[i + r];
    }
  }

  /** The number of occupied cells of a row and of a well. */
  function RowCount(row: seq<int>): nat
  {
    if row == [] then 0 else RowCount(row[..|row| - 1]) + (if row[|row| - 1] != 0 then 1 else 0)
  }

  function CellCount(rows: seq<seq<int>>): nat
  {
    if rows == [] then 0 else CellCount(rows[..|rows| - 1]) + RowCount(rows[|rows| - 1])
  }

  /** A full row has all its cells occupied, and the empty row none. */
  lemma {:induction false} RowCountBounds(row: seq<int>)
    ensures RowCount(row) <= |row|
    ensures Full(row) ==> RowCount(row) == |row|
    ensures (forall c :: 0 <= c < |row| ==> row[c] == 0) ==> RowCount(row) == 0
  {
    if row != [] {
      var init := row[..|row| - 1];
      RowCountBounds(init);
      if Full(row) {
        assert Full(init) by {
          forall c | 0 <= c < |init|
            ensures init[c] != 0
          {
            assert init[c] == row[c];
          }
        }
      }
    }
  }

  lemma {:induction false} CellCountAppend(a: seq<seq<int>>, b: seq<seq<int>>)
    ensures CellCount(a + b) == CellCount(a) + CellCount(b)
    decreases |b|
  {
    if b == [] {
      assert a + b == a;
    } else {
      var b' := b[..|b| - 1];
      assert (a + b)[..|a + b| - 1] == a + b';
      CellCountAppend(a, b');
    }
  }

  lemma {:induction false} BlankCount(n: nat)
    ensures CellCount(Blank(n)) == 0
  {
    if n > 0 {
      assert Blank(n)[..n - 1] == Blank(n - 1);
      BlankCount(n - 1);
      RowCountBounds(EmptyRow());
    }
  }

  /** Each full row removed takes away a row's worth of occupied cells, and the kept rows keep theirs. */
  lemma {:induction false} KeptCount(rows: seq<seq<int>>)
    requires forall r :: 0 <= r < |rows| ==> |rows[r]| == Cols
    ensures CellCount(rows) == CellCount(Kept(rows)) + NumFull(rows) * Cols
  {
    if rows != [] {
      var init, last := rows[..|rows| - 1], rows[|rows| - 1];
      KeptCount(init);
      RowCountBounds(last);
      assert CellCount(rows) == CellCount(init) + RowCount(last);
      if Full(last) {
        assert Kept(rows) == Kept(init) && NumFull(rows) == NumFull(init) + 1;
      } else {
        CellCountAppend(Kept(init), [last]);
        assert [last][..0] == [];
        assert Kept(rows) == Kept(init) + [last] && NumFull(rows) == NumFull(init);
      }
    }
  }

  /** `clearLines` removes exactly `Cols` occupied cells per cleared row and no other. */
  lemma ClearedCount(rows: seq<seq<int>>)
    requires IsWell(rows)
    ensures CellCount(Compact(rows)) + NumFull(rows) * Cols == CellCount(rows)
  {
    KeptCount(rows);
    CellCountAppend(Blank(NumFull(rows)), Kept(rows));
    BlankCount(NumFull(rows));
  }

  /**
    After `clearLines` no row is full; the score rises by the points for the rows cleared
    times the old level and the line count by their number; the level is the one the new line
    count gives and never goes down, and the speed is the one that level gives.
   */
  lemma ClearedFacts(g: Game)
    requires IsWell(g.rows) && NumFull(g.rows) <= 4
    requires g.lines >= 0 && g.level == LevelFor(g.lines) && g.dropSpeed == SpeedFor(g.level)
    ensures var c := ClearedGame(g); var n := NumFull(g.rows);
      && c.rows == Compact(g.rows) && IsWell(c.rows) && NoFull(c.rows)
      && c.score == g.score + Points(n) * g.level
      && c.lines == g.lines + n
      && c.level == LevelFor(c.lines) && c.level >= g.level
      && c.dropSpeed == SpeedFor(c.level)
      && c.piece == g.piece && c.next == g.next && c.gameOver == g.gameOver
  {
    CompactFacts(g.rows);
    if NumFull(g.rows) == 0 {
      KeptFacts(g.rows);
      CompactNoFull(g.rows);
    } else {
      LevelMonotone(g.lines, g.lines + NumFull(g.rows));
    }
  }

  lemma LevelMonotone(a: int, b: int)
    requires 0 <= a <= b
    ensures LevelFor(a) <= LevelFor(b)
  {
  }

  /** The drop speed never falls below 100 milliseconds and is 1000 at level 1. */
  lemma SpeedBounds(level: int)
    requires level >= 1
    ensures 100 <= SpeedFor(level) <= 1000
    ensures level == 1 ==> SpeedFor(level) == 1000
  {
  }

  /** A freshly spawned piece fits in the empty well. */
  lemma SpawnFitsEmpty(kind: int)
    requires 0 <= kind < 7
    ensures !Hits(Blank(Rows), ShapeOf(Spawned(kind)), SpawnX(kind), 0)
  {
    var s := ShapeOf(Spawned(kind));
    ShapeFacts(kind, 0);
    assert 0 <= SpawnX(kind) && SpawnX(kind) + |s| <= Cols;
    forall i, j | Filled(s, i, j)
      ensures !HitsCell(Blank(Rows), s, SpawnX(kind), 0, i, j)
    {
      assert Blank(Rows)[i][SpawnX(kind) + j] == EmptyRow()[SpawnX(kind) + j];
    }
  }

  /** The game starts in a good state. */
  lemma InitialOk(first: int, second: int)
    requires 0 <= first < 7 && 0 <= second < 7
    ensures GameOk(Initial(first, second))
  {
    SpawnFitsEmpty(first);
    KeptFacts(Blank(Rows));
    assert NoFull(Blank(Rows));
  }

  /** A move keeps the game good: the piece moves only to a place where it does not collide. */
  lemma MovedOk(g: Game, dx: int, dy: int)
    requires GameOk(g)
    ensures GameOk(MovedBy(g, dx, dy))
    ensures var p := MovedBy(g, dx, dy).piece;
      p == g.piece || (p == g.piece.(x := g.piece.x + dx, y := g.piece.y + dy) && !Hits(g.rows, ShapeOf(p), p.x, p.y))
  {
  }

  /** A rotation keeps the game good: a non-colliding piece is never left colliding. */
  lemma RotatedOk(g: Game)
    requires GameOk(g)
    ensures GameOk(Rotated(g))
    ensures !Hits(g.rows, ShapeOf(g.piece), g.piece.x, g.piece.y) ==>
      !Hits(g.rows, ShapeOf(Rotated(g).piece), g.piece.x, g.piece.y)
  {
    RotateRoundTrip(g.piece.rotation);
  }

  /** `spawnNewPiece` keeps the game good: a colliding spawn ends the game. */
  lemma SpawnOk(g: Game, k: int)
    requires IsWell(g.rows) && NoFull(g.rows) && PieceOk(g.next) && 0 <= k < 7
    requires g.score >= 0 && g.lines >= 0 && g.level == LevelFor(g.lines) && g.dropSpeed == SpeedFor(g.level)
    ensures GameOk(Spawn(g, k))
    ensures Spawn(g, k).piece == g.next && Spawn(g, k).next == Spawned(k)
  {
  }

  /**
    A lock keeps the game good. A piece above the top ends the game with the well unchanged;
    otherwise the well is the stamped well with full rows cleared, the score, lines and level
    are updated as `clearLines` does, and the next piece is falling.
   */
  lemma LockedOk(g: Game, k: int)
    requires GameOk(g) && !g.gameOver && 0 <= k < 7
    ensures GameOk(Locked(g, k))
    ensures AboveTop(ShapeOf(g.piece), g.piece.y) ==> Locked(g, k) == g.(gameOver := true)
    ensures !AboveTop(ShapeOf(g.piece), g.piece.y) ==> LockedInside(g, k, Locked(g, k))
  {
    var p := g.piece;
    var s := ShapeOf(p);
    if !AboveTop(s, p.y) {
      LockedInsideOk(g, k);
    }
  }

  /** What a lock inside the well leaves, as `lockPiece`, `clearLines` and `spawnNewPiece` promise it. */
  ghost predicate LockedInside(g: Game, k: int, l: Game)
    requires GameOk(g) && 0 <= k < 7
  {
    var t := Stamp(g.rows, ShapeOf(g.piece), g.piece.x, g.piece.y);
    var n := NumFull(t);
    && n <= 4
    && l.rows == Compact(t)
    && l.score == g.score + Points(n) * g.level
    && l.lines == g.lines + n
    && l.level >= g.level
    && l.piece == g.next && l.next == Spawned(k)
  }

  lemma LockedInsideOk(g: Game, k: int)
    requires GameOk(g) && !g.gameOver && 0 <= k < 7 && !AboveTop(ShapeOf(g.piece), g.piece.y)
    ensures GameOk(Locked(g, k)) && LockedInside(g, k, Locked(g, k))
  {
    var p := g.piece;
    var s := ShapeOf(p);
    var t := Stamp(g.rows, s, p.x, p.y);
    StampFull(g.rows, p, s);
    var c := ClearedGame(g.(rows := t));
    ClearedFacts(g.(rows := t));
    SpawnOk(c, k);
    assert Locked(g, k) == Spawn(c, k);
  }

  /** A hard drop keeps the game good, and it locks the piece at its landing row. */
  lemma DroppedOk(g: Game, k: int)
    requires GameOk(g) && !g.gameOver && 0 <= k < 7
    ensures GameOk(Dropped(g, k))
  {
    var p := g.piece;
    ShapeHasCell(p.kind, p.rotation);
    LandingFacts(g.rows, ShapeOf(p), p.x, p.y);
    var ly := Landing(g.rows, ShapeOf(p), p.x, p.y);
    LockedOk(g.(piece := p.(y := ly)), k);
  }

  /** `tetrisGameLoop`: nothing once the game is over; otherwise the piece falls one row, or locks when it cannot. */
  ghost function Ticked(g: Game, k: int): Game
    requires GameOk(g) && 0 <= k < 7
  {
    var p := g.piece;
    if g.gameOver then g
    else if Fits(g, 0, 1) then MovedBy(g, 0, 1)
    else Locked(g, k)
  }

  /** A tick keeps the game good and leaves a finished game as it is. */
  lemma TickedOk(g: Game, k: int)
    requires GameOk(g) && 0 <= k < 7
    ensures GameOk(Ticked(g, k))
    ensures g.gameOver ==> Ticked(g, k) == g
  {
    if !g.gameOver {
      if Fits(g, 0, 1) {
        MovedOk(g, 0, 1);
      } else {
        LockedOk(g, k);
      }
    }
  }

  /** One step of `hardDrop`'s loop: above the landing row a move down succeeds, and a failing move is at the landing row. */
  lemma LandingStep(rows: seq<seq<int>>, s: seq<seq<int>>, x: int, y0: int, y: int)
    requires IsWell(rows) && HasCell(s) && !Hits(rows, s, x, y0)
    requires y0 <= y <= Landing(rows, s, x, y0)
    ensures Hits(rows, s, x, y + 1) <==> y == Landing(rows, s, x, y0)
  {
    LandingFacts(rows, s, x, y0);
  }

  /** `Dropped` is `Locked` at the landing row. */
  lemma DroppedIs(g: Game, k: int)
    requires GameOk(g) && !g.gameOver && 0 <= k < 7
    ensures HasCell(ShapeOf(g.piece))
    ensures g.piece.y <= Landing(g.rows, ShapeOf(g.piece), g.piece.x, g.piece.y)
    ensures !Hits(g.rows, ShapeOf(g.piece), g.piece.x, Landing(g.rows, ShapeOf(g.piece), g.piece.x, g.piece.y))
    ensures Dropped(g, k) == Locked(g.(piece := g.piece.(y := Landing(g.rows, ShapeOf(g.piece), g.piece.x, g.piece.y))), k)
  {
    ShapeHasCell(g.piece.kind, g.piece.rotation);
    LandingFacts(g.rows, ShapeOf(g.piece), g.piece.x, g.piece.y);
  }

  /** One move down during `hardDrop` from row `y`: it succeeds exactly above the landing row. */
  lemma DropStep(g: Game, y: int)
    requires GameOk(g) && HasCell(ShapeOf(g.piece)) && !Hits(g.rows, ShapeOf(g.piece), g.piece.x, g.piece.y)
    requires g.piece.y <= y <= Landing(g.rows, ShapeOf(g.piece), g.piece.x, g.piece.y)
    ensures var h := g.(piece := g.piece.(y := y));
      var ly := Landing(g.rows, ShapeOf(g.piece), g.piece.x, g.piece.y);
      && (Fits(h, 0, 1) <==> y < ly)
      && MovedBy(h, 0, 1) == (if y < ly then g.(piece := g.piece.(y := y + 1)) else h)
  {
    LandingStep(g.rows, ShapeOf(g.piece), g.piece.x, g.piece.y, y);
  }
}
