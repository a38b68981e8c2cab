/**
  The browser Go engine of go.js: a 19 by 19 board held in module state, stone placement with
  capture, suicide and ko checks, passing, undo, and end-of-game territory scoring.
  The module-level variables of the script are the fields of `GoEngine`.
 */
module GoJs {
  import opened Wrappers
  import opened GoBoard

  const Size: nat := 19

  /** One entry of the move history: a placement with the stones it captured, or a pass. */
  datatype Move =
    | Placement(pos: Pos, player: Player, captured: seq<Pos>)
    | PassRecord(player: Player)

  /** A snapshot of every field of the engine. */
  datatype GoState = GoState(
    board: Grid,
    currentPlayer: Player,
    gameOver: bool,
    blackCaptures: int,
    whiteCaptures: int,
    lastMove: Option<Pos>,
    passCount: int,
    moveHistory: seq<Move>,
    koPosition: Option<Pos>)

  /** Stones captured by `p` over the moves of `h`. */
  function CapturedBy(h: seq<Move>, p: Player): int
  {
    if h == [] then 0
    else
      var m := h[|h| - 1];
      CapturedBy(h[..|h| - 1], p) + (if m.Placement? && m.player == p then |m.captured| else 0)
  }

  function CapturesOf(s: GoState, p: Player): int
  {
    if p == Black then s.blackCaptures else s.whiteCaptures
  }

  /** The position of the last entry of `h` when it is a placement. */
  function LastPlacement(h: seq<Move>): Option<Pos>
  {
    if h != [] && h[|h| - 1].Placement? then Some(h[|h| - 1].pos) else None
  }

  /**
    The invariant of the engine: a 19 by 19 board, the game is over exactly when two passes
    are pending, each capture counter is the sum of the captures recorded in the history,
    and every recorded position is on the board.
   */
  ghost predicate Inv(s: GoState)
  {
    && IsBoard(s.board, Size)
    && s.passCount >= 0
    && (s.gameOver <==> s.passCount >= 2)
    && s.blackCaptures == CapturedBy(s.moveHistory, Black)
    && s.whiteCaptures == CapturedBy(s.moveHistory, White)
    && forall m :: m in s.moveHistory && m.Placement? ==>
         InBounds(Size, m.pos) && forall c :: c in m.captured ==> InBounds(Size, c)
  }

  function EmptyBoard(): (g: Grid)
    ensures IsBoard(g, Size)
    ensures forall q :: InBounds(Size, q) ==> At(g, q) == Empty
  {
    seq(Size, _ => seq(Size, _ => Empty))
  }

  function Initial(): GoState
  {
    GoState(EmptyBoard(), Black, false, 0, 0, None, 0, [], None)
  }

  /** The on-board neighbours of a point, in the order up, down, left, right. */
  function GetAdjacent(row: int, col: int): (adj: seq<Pos>)
    requires InBounds(Size, Pos(row, col))
    ensures forall q :: q in adj <==> InBounds(Size, q) && Adjacent(Pos(row, col), q)
    ensures Distinct(adj)
    ensures |adj| == 4 - (if row == 0 || row == Size - 1 then 1 else 0)
                       - (if col == 0 || col == Size - 1 then 1 else 0)
  {
    (if row > 0 then [Pos(row - 1, col)] else []) +
    (if row < Size - 1 then [Pos(row + 1, col)] else []) +
    (if col > 0 then [Pos(row, col - 1)] else []) +
    (if col < Size - 1 then [Pos(row, col + 1)] else [])
  }

  /**
    What the capture check adds for the neighbour `q` of a new stone on the board `t`:
    the whole group of `q` (in the search's order) when `q` is an opponent stone whose group
    has no liberty, and nothing otherwise.
   */
  ghost predicate CaptureStep(t: Grid, q: Pos, opp: Player, part: seq<Pos>)
    requires IsBoard(t, Size) && InBounds(Size, q)
  {
    if At(t, q) != Stone(opp) then part == []
    else if part == [] then exists o :: IsGroupOrder(t, Size, q, o) && Liberties(t, Size, Elems(o)) != {}
    else IsGroupOrder(t, Size, q, part) && Liberties(t, Size, Elems(part)) == {}
  }

  /** The points of `parts` in order, one part after the other. */
  function Concat(parts: seq<seq<Pos>>): (r: seq<Pos>)
    ensures |parts| == 0 ==> r == []
  {
    if parts == [] then [] else Concat(parts[..|parts| - 1]) + parts[|parts| - 1]
  }

  lemma ConcatSnoc(parts: seq<seq<Pos>>, part: seq<Pos>)
    ensures Concat(parts + [part]) == Concat(parts) + part
  {
    assert (parts + [part])[..|parts|] == parts;
  }

  lemma {:induction false} ConcatMember(parts: seq<seq<Pos>>, c: Pos)
    requires c in Concat(parts)
    ensures exists i :: 0 <= i < |parts| && c in parts[i]
  {
    if parts != [] {
      var init := parts[..|parts| - 1];
      if c in Concat(init) {
        ConcatMember(init, c);
        var i :| 0 <= i < |init| && c in init[i];
        assert parts[i] == init[i];
      } else {
        assert c in parts[|parts| - 1];
      }
    }
  }

  lemma {:induction false} ConcatAllEmpty(parts: seq<seq<Pos>>)
    ensures Concat(parts) == [] <==> forall i :: 0 <= i < |parts| ==> parts[i] == []
  {
    if parts != [] {
      var init := parts[..|parts| - 1];
      ConcatAllEmpty(init);
      assert forall i :: 0 <= i < |init| ==> init[i] == parts[i];
    }
  }

  /** `parts[i]` is what the capture check contributes for the neighbour `adjs[i]`. */
  ghost predicate CaptureParts(t: Grid, adjs: seq<Pos>, opp: Player, parts: seq<seq<Pos>>)
    requires IsBoard(t, Size) && forall q :: q in adjs ==> InBounds(Size, q)
  {
    |parts| == |adjs| && forall i :: 0 <= i < |adjs| ==> CaptureStep(t, adjs[i], opp, parts[i])
  }

  /**
    `caps` is the concatenation, over the neighbours `adjs` in order, of the captured groups:
    a group next to the new stone on two sides is listed twice.
   */
  ghost predicate CaptureList(t: Grid, adjs: seq<Pos>, opp: Player, caps: seq<Pos>)
    requires IsBoard(t, Size) && forall q :: q in adjs ==> InBounds(Size, q)
  {
    exists parts :: CaptureParts(t, adjs, opp, parts) && Concat(parts) == caps
  }

  /** Every captured point held an opponent stone. */
  lemma CaptureListCells(t: Grid, adjs: seq<Pos>, opp: Player, caps: seq<Pos>)
    requires IsBoard(t, Size) && forall q :: q in adjs ==> InBounds(Size, q)
    requires CaptureList(t, adjs, opp, caps)
    ensures forall c :: c in caps ==> InBounds(Size, c) && At(t, c) == Stone(opp)
  {
    var parts :| CaptureParts(t, adjs, opp, parts) && Concat(parts) == caps;
    forall c | c in caps
      ensures InBounds(Size, c) && At(t, c) == Stone(opp)
    {
      ConcatMember(parts, c);
      var i :| 0 <= i < |parts| && c in parts[i];
      assert CaptureStep(t, adjs[i], opp, parts[i]);
      assert c in Elems(parts[i]);
    }
  }

  /** When nothing can be captured, the capture list is necessarily empty: the check is deterministic. */
  lemma CaptureListEmpty(t: Grid, adjs: seq<Pos>, opp: Player, caps: seq<Pos>)
    requires IsBoard(t, Size) && forall q :: q in adjs ==> InBounds(Size, q)
    requires CaptureList(t, adjs, opp, caps)
    ensures CaptureList(t, adjs, opp, []) ==> caps == []
  {
    if CaptureList(t, adjs, opp, []) {
      var parts :| CaptureParts(t, adjs, opp, parts) && Concat(parts) == caps;
      var none :| CaptureParts(t, adjs, opp, none) && Concat(none) == [];
      ConcatAllEmpty(none);
      forall i | 0 <= i < |parts|
        ensures parts[i] == []
      {
        assert CaptureStep(t, adjs[i], opp, parts[i]) && CaptureStep(t, adjs[i], opp, none[i]);
        if parts[i] != [] {
          var o :| IsGroupOrder(t, Size, adjs[i], o) && Liberties(t, Size, Elems(o)) != {};
          GroupUnique(t, Size, adjs[i], o, parts[i]);
        }
      }
      ConcatAllEmpty(parts);
    }
  }

  /**
    Placing the current player's stone at `p` is suicide: it captures nothing and its group
    then has no liberty.
   */
  ghost predicate Suicide(g: Grid, me: Player, p: Pos)
    requires IsBoard(g, Size) && InBounds(Size, p)
  {
    var t := SetAt(g, p, Stone(me));
    && CaptureList(t, GetAdjacent(p.row, p.col), Opponent(me), [])
    && exists o :: IsGroupOrder(t, Size, p, o) && Liberties(t, Size, Elems(o)) == {}
  }

  /**
    `s'` is `s` after the current player's stone was placed at `p`: the stone is put down,
    the captured opponent groups are removed, the player's group has a liberty or captured
    something, ko is set to the single captured stone when a lone stone captured exactly one,
    the captures are credited and recorded, and the turn passes.
   */
  ghost predicate Placed(s: GoState, p: Pos, s': GoState)
    requires Inv(s) && InBounds(Size, p)
  {
    var me := s.currentPlayer;
    var t := SetAt(s.board, p, Stone(me));
    && At(s.board, p) == Empty && s.koPosition != Some(p)
    && |s'.moveHistory| == |s.moveHistory| + 1
    && s'.moveHistory[|s.moveHistory|].Placement?
    && var caps := s'.moveHistory[|s.moveHistory|].captured;
    && s'.moveHistory == s.moveHistory + [Placement(p, me, caps)]
    && CaptureList(t, GetAdjacent(p.row, p.col), Opponent(me), caps)
    && (forall c :: c in caps ==> InBounds(Size, c))
    && s'.board == Paint(t, caps, Empty)
    && (exists o :: IsGroupOrder(s'.board, Size, p, o) && (|caps| > 0 || Liberties(s'.board, Size, Elems(o)) != {}))
    && s'.koPosition == (if |caps| == 1 && LoneStone(s'.board, Size, p) then Some(caps[0]) else None)
    && s'.currentPlayer == Opponent(me)
    && s'.lastMove == Some(p)
    && CapturesOf(s', me) == CapturesOf(s, me) + |caps|
    && CapturesOf(s', Opponent(me)) == CapturesOf(s, Opponent(me))
    && s'.passCount == s.passCount
    && s'.gameOver == s.gameOver
  }

  /** `s'` is `s` after the current player passed. */
  ghost predicate Passed(s: GoState, s': GoState)
  {
    && s'.passCount == s.passCount + 1
    && s'.gameOver == (s'.passCount >= 2)
    && s'.koPosition == None
    && s'.moveHistory == s.moveHistory + [PassRecord(s.currentPlayer)]
    && s'.currentPlayer == Opponent(s.currentPlayer)
    && s'.board == s.board
    && s'.blackCaptures == s.blackCaptures && s'.whiteCaptures == s.whiteCaptures
    && s'.lastMove == s.lastMove
  }

  /**
    `s` with its last move taken back: a pass lowers the pass count (not below zero); a
    placement empties its point, puts the captured opponent stones back, takes the captures
    back and moves the last-move marker to the previous entry. The player of that move is to
    move again and ko is cleared.
   */
  ghost function TakenBack(s: GoState): GoState
    requires Inv(s) && |s.moveHistory| > 0
  {
    var m := s.moveHistory[|s.moveHistory| - 1];
    var rest := s.moveHistory[..|s.moveHistory| - 1];
    match m
    case PassRecord(who) =>
      s.(moveHistory := rest, currentPlayer := who, koPosition := None,
         passCount := if s.passCount - 1 > 0 then s.passCount - 1 else 0)
    case Placement(pos, who, caps) =>
      assert m in s.moveHistory;
      s.(moveHistory := rest, currentPlayer := who, koPosition := None,
         board := Paint(SetAt(s.board, pos, Empty), caps, Stone(Opponent(who))),
         blackCaptures := if who == Black then s.blackCaptures - |caps| else s.blackCaptures,
         whiteCaptures := if who == White then s.whiteCaptures - |caps| else s.whiteCaptures,
         lastMove := LastPlacement(rest))
  }

  /** Who won, from the final scores. */
  datatype Winner = BlackWins | WhiteWins | Draw

  /** Final scores, in half points so that the 6.5-point komi is exact. */
  datatype Outcome = Outcome(blackTerritory: nat, whiteTerritory: nat,
                             blackHalfPoints: int, whiteHalfPoints: int, winner: Winner)

  /** The 6.5 points of komi given to White, in half points. */
  const KomiHalfPoints: int := 13

  /** Area-less Japanese-style count: territory plus captures, and komi for White. */
  function Score(blackTerritory: nat, whiteTerritory: nat, blackCaptures: int, whiteCaptures: int): (r: Outcome)
    ensures r.blackTerritory == blackTerritory && r.whiteTerritory == whiteTerritory
    ensures r.blackHalfPoints == 2 * (blackTerritory + blackCaptures)
    ensures r.whiteHalfPoints == 2 * (whiteTerritory + whiteCaptures) + KomiHalfPoints
    ensures r.winner == BlackWins <==> r.blackHalfPoints > r.whiteHalfPoints
    ensures r.winner == WhiteWins <==> r.whiteHalfPoints > r.blackHalfPoints
    ensures r.winner != Draw
  {
    var b := 2 * (blackTerritory + blackCaptures);
    var w := 2 * (whiteTerritory + whiteCaptures) + KomiHalfPoints;
    Outcome(blackTerritory, whiteTerritory, b, w,
      if b > w then BlackWins else if w > b then WhiteWins else Draw)
  }

  /** The scores of a finished game on the board and capture counts of `s`. */
  ghost function FinalScore(s: GoState): Outcome
    requires IsBoard(s.board, Size)
  {
    Score(|Territory(s.board, Black)|, |Territory(s.board, White)|, s.blackCaptures, s.whiteCaptures)
  }

  /** The empty points of a board. */
  ghost function EmptyPoints(g: Grid): set<Pos>
    requires IsBoard(g, Size)
  {
    set q | q in AllPositions(Size) && InBounds(Size, q) && At(g, q) == Empty
  }

  /** Some point of `region` is next to a stone of `c`. */
  ghost predicate Touches(g: Grid, region: set<Pos>, c: Player)
    requires IsBoard(g, Size)
  {
    exists a, q :: a in region && InBounds(Size, q) && Adjacent(a, q) && At(g, q) == Stone(c)
  }

  /** An empty region belongs to the one colour it borders, and to nobody if it borders both or none. */
  ghost function RegionOwner(g: Grid, region: set<Pos>): Option<Player>
    requires IsBoard(g, Size)
  {
    if Touches(g, region, Black) && !Touches(g, region, White) then Some(Black)
    else if Touches(g, region, White) && !Touches(g, region, Black) then Some(White)
    else None
  }

  /**
    `q` lies in an empty area that borders stones of `c` only: it is a point of `c`'s
    territory. The area is the empty group of some empty point, in any search order.
   */
  ghost predicate TerritoryPoint(g: Grid, q: Pos, c: Player)
    requires IsBoard(g, Size)
  {
    exists s, o :: IsGroupOrder(g, Size, s, o) && At(g, s) == Empty && q in o && RegionOwner(g, Elems(o)) == Some(c)
  }

  /** The territory of `c`: every empty point whose area borders `c` and not the other colour. */
  ghost function Territory(g: Grid, c: Player): set<Pos>
    requires IsBoard(g, Size)
  {
    set q | q in EmptyPoints(g) && TerritoryPoint(g, q, c)
  }

  /** Whether a point of an empty area is territory depends only on the area it lies in. */
  lemma AreaTerritory(g: Grid, s: Pos, o: seq<Pos>, c: Player, q: Pos)
    requires IsBoard(g, Size) && IsGroupOrder(g, Size, s, o) && At(g, s) == Empty && q in o
    ensures TerritoryPoint(g, q, c) <==> RegionOwner(g, Elems(o)) == Some(c)
  {
    if TerritoryPoint(g, q, c) {
      var s2, o2 :| IsGroupOrder(g, Size, s2, o2) && At(g, s2) == Empty && q in o2 && RegionOwner(g, Elems(o2)) == Some(c);
      GroupsMeet(g, Size, s, o, s2, o2, q);
    }
  }

  /** No point is territory of both colours, so the two territories together fit in the empty points. */
  lemma TerritoryBound(g: Grid)
    requires IsBoard(g, Size)
    ensures Territory(g, Black) !! Territory(g, White)
    ensures |Territory(g, Black)| + |Territory(g, White)| <= |EmptyPoints(g)|
  {
    forall q | q in Territory(g, Black)
      ensures q !in Territory(g, White)
    {
      var s, o :| IsGroupOrder(g, Size, s, o) && At(g, s) == Empty && q in o && RegionOwner(g, Elems(o)) == Some(Black);
      AreaTerritory(g, s, o, White, q);
    }
    assert Territory(g, Black) * Territory(g, White) == {};
    SubsetCard(Territory(g, Black) + Territory(g, White), EmptyPoints(g));
  }

  /** A colour with no stone on the board has no territory. */
  lemma NoStonesNoTerritory(g: Grid, c: Player)
    requires IsBoard(g, Size)
    requires forall q :: InBounds(Size, q) ==> At(g, q) != Stone(c)
    ensures Territory(g, c) == {}
  {
    if q :| q in Territory(g, c) {
      var s, o :| IsGroupOrder(g, Size, s, o) && At(g, s) == Empty && q in o && RegionOwner(g, Elems(o)) == Some(c);
      assert Touches(g, Elems(o), c);
    }
  }

  /** `seen` holds only empty points, and with each of them its whole empty area. */
  ghost predicate WholeAreas(g: Grid, seen: set<Pos>)
    requires IsBoard(g, Size)
  {
    SameColour(g, Size, seen, Empty) && Closed(g, Size, seen, Empty)
  }

  /** Every on-board neighbour of `a` is still on the stack, visited, or a stone already noted. */
  ghost predicate NeighboursNoted(g: Grid, a: Pos, stack: seq<Pos>, visited: set<Pos>, touchesBlack: bool, touchesWhite: bool)
    requires IsBoard(g, Size)
  {
    forall q :: InBounds(Size, q) && Adjacent(a, q) ==>
      q in stack || q in visited || (At(g, q) == Stone(Black) && touchesBlack) || (At(g, q) == Stone(White) && touchesWhite)
  }

  lemma TouchesGrow(g: Grid, s: set<Pos>, s': set<Pos>, c: Player)
    requires IsBoard(g, Size) && s <= s' && Touches(g, s, c)
    ensures Touches(g, s', c)
  {
    var a, q :| a in s && InBounds(Size, q) && Adjacent(a, q) && At(g, q) == Stone(c);
    assert a in s';
  }

  /**
    Adding one whole empty area `o` to the seen points adds its points to the territory
    counted so far exactly when the area belongs to `c`.
   */
  lemma TerritoryStep(g: Grid, seen: set<Pos>, seen': set<Pos>, s: Pos, o: seq<Pos>, c: Player)
    requires IsBoard(g, Size) && seen <= seen'
    requires IsGroupOrder(g, Size, s, o) && At(g, s) == Empty && Elems(o) == seen' - seen
    ensures |Territory(g, c) * seen'| ==
              |Territory(g, c) * seen| + if RegionOwner(g, Elems(o)) == Some(c) then |seen' - seen| else 0
  {
    var t := Territory(g, c);
    var area := seen' - seen;
    forall q | q in area
      ensures q in t <==> RegionOwner(g, Elems(o)) == Some(c)
    {
      assert q in Elems(o);
      InAllPositions(Size, q);
      AreaTerritory(g, s, o, c, q);
    }
    assert t * seen' == (t * seen) + (t * area);
    assert (t * seen) * (t * area) == {};
    if RegionOwner(g, Elems(o)) == Some(c) {
      assert t * area == area;
    } else {
      assert t * area == {};
    }
  }

  /** Every same-coloured neighbour of `a` is listed or still waiting on the stack. */
  ghost predicate NeighboursSeen(g: Grid, a: Pos, group: seq<Pos>, stack: seq<Pos>, color: Point)
    requires IsBoard(g, Size)
  {
    forall q :: InBounds(Size, q) && Adjacent(a, q) && At(g, q) == color ==> q in group || q in stack
  }

  /** The search frontier: no same-coloured neighbour of a listed stone has been lost. */
  ghost predicate Frontier(g: Grid, group: seq<Pos>, stack: seq<Pos>, color: Point)
    requires IsBoard(g, Size)
  {
    forall a :: a in group ==> NeighboursSeen(g, a, group, stack, color)
  }

  /** A refused placement that captured nothing and left its group without liberty is suicide. */
  lemma SuicideIntro(g: Grid, me: Player, p: Pos, caps: seq<Pos>, own: seq<Pos>)
    requires IsBoard(g, Size) && InBounds(Size, p)
    requires var t := SetAt(g, p, Stone(me));
      && CaptureList(t, GetAdjacent(p.row, p.col), Opponent(me), caps)
      && caps == []
      && IsGroupOrder(Paint(t, caps, Empty), Size, p, own)
      && Liberties(Paint(t, caps, Empty), Size, Elems(own)) == {}
    ensures Suicide(g, me, p)
  {
  }

  /**
    What the engine has computed when a placement at `p` succeeds: the capture list, the
    board without the captured stones, and the player's group on it.
   */
  ghost predicate PlacementBoard(g: Grid, me: Player, p: Pos, caps: seq<Pos>, own: seq<Pos>)
    requires IsBoard(g, Size) && InBounds(Size, p)
  {
    var t := SetAt(g, p, Stone(me));
    && CaptureList(t, GetAdjacent(p.row, p.col), Opponent(me), caps)
    && (forall c :: c in caps ==> InBounds(Size, c) && At(t, c) == Stone(Opponent(me)))
    && var b := Paint(t, caps, Empty);
    && IsGroupOrder(b, Size, p, own)
    && (|caps| > 0 || Liberties(b, Size, Elems(own)) != {})
  }

  /** ... and `s'` is the state the engine then writes. */
  ghost predicate PlacementFacts(s: GoState, p: Pos, caps: seq<Pos>, own: seq<Pos>, s': GoState)
    requires Inv(s) && InBounds(Size, p)
  {
    var me := s.currentPlayer;
    && At(s.board, p) == Empty && s.koPosition != Some(p)
    && PlacementBoard(s.board, me, p, caps, own)
    && s' == GoState(
         Paint(SetAt(s.board, p, Stone(me)), caps, Empty), Opponent(me), s.gameOver,
         if me == Black then s.blackCaptures + |caps| else s.blackCaptures,
         if me == White then s.whiteCaptures + |caps| else s.whiteCaptures,
         Some(p), s.passCount, s.moveHistory + [Placement(p, me, caps)],
         if |caps| == 1 && |own| == 1 then Some(caps[0]) else None)
  }

  lemma PlacementPlaced(s: GoState, p: Pos, caps: seq<Pos>, own: seq<Pos>, s': GoState)
    requires Inv(s) && InBounds(Size, p) && PlacementFacts(s, p, caps, own, s')
    ensures Placed(s, p, s')
  {
    var me := s.currentPlayer;
    var b := Paint(SetAt(s.board, p, Stone(me)), caps, Empty);
    GroupSingleIffLone(b, Size, p, own);
    assert s'.moveHistory[|s.moveHistory|] == Placement(p, me, caps);
    assert IsGroupOrder(s'.board, Size, p, own);
  }

  lemma PlacementInv(s: GoState, p: Pos, caps: seq<Pos>, own: seq<Pos>, s': GoState)
    requires Inv(s) && InBounds(Size, p) && PlacementFacts(s, p, caps, own, s')
    ensures Inv(s')
  {
    assert s'.moveHistory[..|s.moveHistory|] == s.moveHistory;
  }

  /** A placement that went through keeps the invariant and is a `Placed` step. */
  lemma PlacementStep(s: GoState, p: Pos, caps: seq<Pos>, own: seq<Pos>, s': GoState)
    requires Inv(s) && InBounds(Size, p) && PlacementFacts(s, p, caps, own, s')
    ensures Inv(s') && Placed(s, p, s')
  {
    PlacementPlaced(s, p, caps, own, s');
    PlacementInv(s, p, caps, own, s');
  }

  lemma PlacementNotSuicide(g: Grid, me: Player, p: Pos, caps: seq<Pos>, own: seq<Pos>)
    requires IsBoard(g, Size) && InBounds(Size, p) && PlacementBoard(g, me, p, caps, own)
    ensures !Suicide(g, me, p)
  {
    var t := SetAt(g, p, Stone(me));
    CaptureListEmpty(t, GetAdjacent(p.row, p.col), Opponent(me), caps);
    if caps == [] {
      assert Elems(caps) == {};
      forall o | IsGroupOrder(t, Size, p, o)
        ensures Liberties(t, Size, Elems(o)) != {}
      {
        GroupUnique(t, Size, p, o, own);
      }
    }
  }

  /** Passing keeps the invariant. */
  lemma PassInv(s: GoState, s': GoState)
    requires Inv(s) && !s.gameOver && Passed(s, s')
    ensures Inv(s')
  {
    assert s'.moveHistory[..|s.moveHistory|] == s.moveHistory;
  }

  /** Taking back the last move of a game that is not over keeps the invariant. */
  lemma UndoInv(s: GoState)
    requires Inv(s) && |s.moveHistory| > 0 && !s.gameOver
    ensures Inv(TakenBack(s))
  {
    var m := s.moveHistory[|s.moveHistory| - 1];
    assert m in s.moveHistory;
  }

  /**
    Undoing a placement right after it gives back the board, both capture counts, the player
    to move, the history and the pass count; only ko is cleared and the last-move marker
    falls back to the previous entry of the history.
   */
  lemma UndoAfterPlace(s: GoState, p: Pos, s1: GoState)
    requires Inv(s) && InBounds(Size, p) && Placed(s, p, s1) && Inv(s1)
    ensures TakenBack(s1) == s.(koPosition := None, lastMove := LastPlacement(s.moveHistory))
  {
    var me := s.currentPlayer;
    var t := SetAt(s.board, p, Stone(me));
    var caps := s1.moveHistory[|s.moveHistory|].captured;
    assert s1.moveHistory[..|s.moveHistory|] == s.moveHistory;
    assert s1.moveHistory[|s1.moveHistory| - 1] == Placement(p, me, caps);
    CaptureListCells(t, GetAdjacent(p.row, p.col), Opponent(me), caps);
    LiftAfterPlace(s.board, me, p, caps);
    UndoPlacement(s, p, caps, s1);
  }

  /**
    Undoing a stone placed by a click: `goClickHandler` reset the pass count after the
    placement, and undo does not bring the cleared passes back, so the pass count stays 0
    even when a pass was pending before the click.
   */
  lemma UndoAfterClick(s: GoState, p: Pos, s1: GoState)
    requires Inv(s) && InBounds(Size, p) && Placed(s, p, s1) && Inv(s1.(passCount := 0))
    ensures TakenBack(s1.(passCount := 0)) ==
            s.(koPosition := None, lastMove := LastPlacement(s.moveHistory), passCount := 0)
  {
    UndoAfterPlace(s, p, s1);
    assert s1.moveHistory[|s1.moveHistory| - 1].Placement?;
  }

  /** Undoing a recorded placement whose board effect lifting reverses gives back the state before it. */
  lemma UndoPlacement(s: GoState, p: Pos, caps: seq<Pos>, s1: GoState)
    requires Inv(s1) && IsBoard(s.board, Size) && InBounds(Size, p)
    requires s1.moveHistory == s.moveHistory + [Placement(p, s.currentPlayer, caps)]
    requires forall c :: c in caps ==> InBounds(Size, c)
    requires Paint(SetAt(s1.board, p, Empty), caps, Stone(Opponent(s.currentPlayer))) == s.board
    requires CapturesOf(s1, s.currentPlayer) == CapturesOf(s, s.currentPlayer) + |caps|
    requires CapturesOf(s1, Opponent(s.currentPlayer)) == CapturesOf(s, Opponent(s.currentPlayer))
    requires s1.passCount == s.passCount && s1.gameOver == s.gameOver
    ensures TakenBack(s1) == s.(koPosition := None, lastMove := LastPlacement(s.moveHistory))
  {
    var me := s.currentPlayer;
    assert s1.moveHistory[..|s.moveHistory|] == s.moveHistory;
    assert s1.moveHistory[|s1.moveHistory| - 1] == Placement(p, me, caps);
    var r := TakenBack(s1);
    assert r == s1.(moveHistory := s.moveHistory, currentPlayer := me, koPosition := None,
                    board := s.board,
                    blackCaptures := if me == Black then s1.blackCaptures - |caps| else s1.blackCaptures,
                    whiteCaptures := if me == White then s1.whiteCaptures - |caps| else s1.whiteCaptures,
                    lastMove := LastPlacement(s.moveHistory));
  }

  /** Lifting a stone just placed and putting back the stones it captured gives back the board. */
  lemma LiftAfterPlace(g: Grid, me: Player, p: Pos, caps: seq<Pos>)
    requires IsBoard(g, Size) && InBounds(Size, p) && At(g, p) == Empty
    requires forall c :: c in caps ==> 0 <= c.row < Size && 0 <= c.col < Size && At(SetAt(g, p, Stone(me)), c) == Stone(Opponent(me))
    ensures Paint(SetAt(Paint(SetAt(g, p, Stone(me)), caps, Empty), p, Empty), caps, Stone(Opponent(me))) == g
  {
    var t := SetAt(g, p, Stone(me));
    var h := Paint(SetAt(Paint(t, caps, Empty), p, Empty), caps, Stone(Opponent(me)));
    forall q: Pos | 0 <= q.row < |g| && 0 <= q.col < |g[q.row]|
      ensures At(h, q) == At(g, q)
    {
      if q in caps {
        assert At(t, q) == Stone(Opponent(me));
      }
    }
    GridExt(h, g);
  }

  /**
    Undoing a pass right after it, when that pass did not end the game, gives back the whole
    state with ko cleared.
   */
  lemma UndoAfterPass(s: GoState, s1: GoState)
    requires Inv(s) && Passed(s, s1) && Inv(s1) && !s1.gameOver
    ensures TakenBack(s1) == s.(koPosition := None)
  {
    assert s1.moveHistory[..|s.moveHistory|] == s.moveHistory;
  }

  /** Listing `pos` and pushing its same-coloured neighbours keeps the search frontier. */
  lemma FrontierStep(g: Grid, group: seq<Pos>, pos: Pos, before: seq<Pos>, after: seq<Pos>, color: Point)
    requires IsBoard(g, Size)
    requires Frontier(g, group, before, color)
    requires forall q :: q in before ==> q == pos || q in after
    requires forall q :: InBounds(Size, q) && Adjacent(pos, q) && At(g, q) == color ==> q in group + [pos] || q in after
    ensures Frontier(g, group + [pos], after, color)
  {
    forall a | a in group + [pos]
      ensures NeighboursSeen(g, a, group + [pos], after, color)
    {
      if a != pos {
        assert a in group && NeighboursSeen(g, a, group, before, color);
      }
    }
  }

  class GoEngine {
    var board: Grid
    var currentPlayer: Player
    var gameOver: bool
    var blackCaptures: int
    var whiteCaptures: int
    var lastMove: Option<Pos>
    var passCount: int
    var moveHistory: seq<Move>
    var koPosition: Option<Pos>

    ghost function State(): GoState
      reads this
    {
      GoState(board, currentPlayer, gameOver, blackCaptures, whiteCaptures,
              lastMove, passCount, moveHistory, koPosition)
    }

    ghost predicate Valid()
      reads this
    {
      Inv(State())
    }

    /** A new game: empty board, Black to move, nothing captured. */
    constructor ()
      ensures Valid() && State() == Initial()
    {
      board := EmptyBoard();
      currentPlayer := Black;
      gameOver := false;
      blackCaptures := 0;
      whiteCaptures := 0;
      lastMove := None;
      passCount := 0;
      moveHistory := [];
      koPosition := None;
    }

    /**
      Plays the current player's stone at (row, col). An occupied point, the ko point and
      suicide are refused and leave the game untouched.
     */
    method PlaceStone(row: int, col: int) returns (ok: bool)
      requires Valid() && InBounds(Size, Pos(row, col))
      modifies this
      ensures Valid()
      ensures ok <==> old(At(board, Pos(row, col))) == Empty && old(koPosition) != Some(Pos(row, col))
                      && !Suicide(old(board), old(currentPlayer), Pos(row, col))
      ensures ok ==> Placed(old(State()), Pos(row, col), State())
      ensures !ok ==> State() == old(State())
    {
      var p := Pos(row, col);
      if At(board, p) != Empty {
        return false;
      }
      if koPosition.Some? && koPosition.value == p {
        return false;
      }
      ghost var s0 := State();
      var me := currentPlayer;
      var next, captured, ownGroup, suicide := TryPlace(board, me, row, col);
      if suicide {
        return false;
      }
      Commit(p, next, captured, |ownGroup| == 1);
      assert PlacementFacts(s0, p, captured, ownGroup, State());
      PlacementStep(s0, p, captured, ownGroup, State());
      return true;
    }

    /**
      Writes an accepted placement of the current player's stone at `p`: the board after the
      captures, the capture count, the ko point, the move record, and the turn.
     */
    method Commit(p: Pos, next: Grid, captured: seq<Pos>, loneStone: bool)
      modifies this
      ensures State() == GoState(
        next, Opponent(old(currentPlayer)), old(gameOver),
        if old(currentPlayer) == Black then old(blackCaptures) + |captured| else old(blackCaptures),
        if old(currentPlayer) == White then old(whiteCaptures) + |captured| else old(whiteCaptures),
        Some(p), old(passCount), old(moveHistory) + [Placement(p, old(currentPlayer), captured)],
        if |captured| == 1 && loneStone then Some(captured[0]) else None)
    {
      var me := currentPlayer;
      board := next;
      if |captured| > 0 {
        if me == Black {
          blackCaptures := blackCaptures + |captured|;
        } else {
          whiteCaptures := whiteCaptures + |captured|;
        }
      }
      koPosition := if |captured| == 1 && loneStone then Some(captured[0]) else None;
      lastMove := Some(p);
      moveHistory := moveHistory + [Placement(p, me, captured)];
      currentPlayer := Opponent(me);
    }

    /**
      A click on (row, col): ignored once the game is over or off the board; a stone that is
      placed also clears the pending passes.
     */
    method Click(row: int, col: int) returns (placed: bool)
      requires Valid()
      modifies this
      ensures Valid()
      ensures placed <==> !old(gameOver) && InBounds(Size, Pos(row, col))
                          && old(At(board, Pos(row, col))) == Empty && old(koPosition) != Some(Pos(row, col))
                          && !Suicide(old(board), old(currentPlayer), Pos(row, col))
      ensures placed ==> passCount == 0 && Placed(old(State()), Pos(row, col), State().(passCount := old(passCount)))
      ensures !placed ==> State() == old(State())
    {
      if gameOver {
        return false;
      }
      if row < 0 || row >= Size || col < 0 || col >= Size {
        return false;
      }
      placed := PlaceStone(row, col);
      if placed {
        passCount := 0;
      }
    }


    /**
      Passes the turn; ignored once the game is over. The second pass in a row ends the
      game, and its scores are returned.
     */
    method PassMove() returns (outcome: Option<Outcome>)
      requires Valid()
      modifies this
      ensures Valid()
      ensures old(gameOver) ==> State() == old(State()) && outcome == None
      ensures !old(gameOver) ==> Passed(old(State()), State())
      ensures outcome.Some? <==> !old(gameOver) && gameOver
      ensures outcome.Some? ==> outcome.value == FinalScore(State())
    {
      if gameOver {
        return None;
      }
      ghost var s0 := State();
      passCount := passCount + 1;
      koPosition := None;
      moveHistory := moveHistory + [PassRecord(currentPlayer)];
      currentPlayer := Opponent(currentPlayer);
      outcome := None;
      if passCount >= 2 {
        var r := EndGame();
        outcome := Some(r);
      }
      PassInv(s0, State());
    }

    /** Ends the game and scores it: territory plus captures, and komi for White. */
    method EndGame() returns (r: Outcome)
      requires IsBoard(board, Size)
      modifies this
      ensures State() == old(State()).(gameOver := true)
      ensures r == FinalScore(State())
    {
      gameOver := true;
      var black, white := CountTerritory(board);
      r := Score(black, white, blackCaptures, whiteCaptures);
    }

    /**
      Takes back the last move; ignored when there is none or the game is over. A placement
      is lifted with the stones it captured put back and its captures uncounted.
     */
    method UndoMove()
      requires Valid()
      modifies this
      ensures Valid()
      ensures |old(moveHistory)| == 0 || old(gameOver) ==> State() == old(State())
      ensures |old(moveHistory)| > 0 && !old(gameOver) ==> State() == TakenBack(old(State()))
    {
      if |moveHistory| == 0 || gameOver {
        return;
      }
      ghost var s0 := State();
      var last := moveHistory[|moveHistory| - 1];
      var rest := moveHistory[..|moveHistory| - 1];
      var board', passCount', blackCaptures', whiteCaptures', lastMove' :=
        board, passCount, blackCaptures, whiteCaptures, lastMove;
      if last.PassRecord? {
        passCount' := if passCount - 1 > 0 then passCount - 1 else 0;
      } else {
        assert last in s0.moveHistory;
        board' := LiftPlacement(board, last.pos, last.player, last.captured);
        if last.player == Black {
          blackCaptures' := blackCaptures - |last.captured|;
        } else {
          whiteCaptures' := whiteCaptures - |last.captured|;
        }
        if |rest| > 0 {
          var prev := rest[|rest| - 1];
          if prev.Placement? {
            lastMove' := Some(prev.pos);
          } else {
            lastMove' := None;
          }
        } else {
          lastMove' := None;
        }
      }
      UndoInv(s0);
      SetState(GoState(board', last.player, gameOver, blackCaptures', whiteCaptures',
                       lastMove', passCount', rest, None));
    }

    /** Overwrites every field with the snapshot `s`. */
    method SetState(s: GoState)
      modifies this
      ensures State() == s
    {
      board, currentPlayer, gameOver, blackCaptures, whiteCaptures := s.board, s.currentPlayer, s.gameOver, s.blackCaptures, s.whiteCaptures;
      lastMove, passCount, moveHistory, koPosition := s.lastMove, s.passCount, s.moveHistory, s.koPosition;
    }
  }

  /**
    The tentative part of a placement on `board`: the stone of `me` is put down at (row, col),
    the opponent groups it leaves without liberty are removed, and a suicide is taken back.
   */
  method TryPlace(board: Grid, me: Player, row: int, col: int)
    returns (next: Grid, captured: seq<Pos>, ownGroup: seq<Pos>, suicide: bool)
    requires IsBoard(board, Size) && InBounds(Size, Pos(row, col)) && At(board, Pos(row, col)) == Empty
    ensures suicide <==> Suicide(board, me, Pos(row, col))
    ensures suicide ==> captured == [] && next == board
    ensures !suicide ==> PlacementBoard(board, me, Pos(row, col), captured, ownGroup)
    ensures !suicide ==> next == Paint(SetAt(board, Pos(row, col), Stone(me)), captured, Empty)
  {
    var p := Pos(row, col);
    var t := SetAt(board, p, Stone(me));
    var opponent := Opponent(me);
    captured := FindCaptures(t, row, col, opponent);
    next := PaintStones(t, captured, Empty);
    ownGroup := GetGroup(next, row, col);
    assert forall q :: q in ownGroup ==> q in Elems(ownGroup);
    var ownLibs := GetLiberties(next, ownGroup);
    if |ownLibs| == 0 && |captured| == 0 {
      SuicideIntro(board, me, p, captured, ownGroup);
      SetAtRestore(board, p, Stone(me));
      next := SetAt(next, p, Empty);
      return next, captured, ownGroup, true;
    }
    assert PlacementBoard(board, me, p, captured, ownGroup);
    PlacementNotSuicide(board, me, p, captured, ownGroup);
    suicide := false;
  }

  /**
    The capture check of a new stone at (row, col): the groups of the opponent's neighbouring
    stones that have no liberty, concatenated in neighbour order.
   */
  method FindCaptures(board: Grid, row: int, col: int, opponent: Player) returns (captured: seq<Pos>)
    requires IsBoard(board, Size) && InBounds(Size, Pos(row, col))
    ensures CaptureList(board, GetAdjacent(row, col), opponent, captured)
    ensures forall c :: c in captured ==> InBounds(Size, c) && At(board, c) == Stone(opponent)
  {
    captured := [];
    var adjacents := GetAdjacent(row, col);
    ghost var parts: seq<seq<Pos>> := [];
    for i := 0 to |adjacents|
      invariant |parts| == i && Concat(parts) == captured
      invariant forall k :: 0 <= k < i ==> CaptureStep(board, adjacents[k], opponent, parts[k])
    {
      var part := GroupIfCaptured(board, adjacents[i], opponent);
      captured := captured + part;
      ConcatSnoc(parts, part);
      parts := parts + [part];
    }
    assert CaptureParts(board, adjacents, opponent, parts);
    CaptureListCells(board, adjacents, opponent, captured);
  }


  /** For the neighbour `adj` of a new stone: its group when it is an opponent stone left without liberty, else nothing. */
  method GroupIfCaptured(board: Grid, adj: Pos, opponent: Player) returns (part: seq<Pos>)
    requires IsBoard(board, Size) && InBounds(Size, adj)
    ensures CaptureStep(board, adj, opponent, part)
  {
    part := [];
    if At(board, adj) == Stone(opponent) {
      var group := GetGroup(board, adj.row, adj.col);
      assert forall q :: q in group ==> q in Elems(group);
      var libs := GetLiberties(board, group);
      if |libs| == 0 {
        part := group;
      } else {
        assert IsGroupOrder(board, Size, adj, group) && Liberties(board, Size, Elems(group)) != {};
      }
    }
  }

  /** The board of an undone placement: its point is emptied and the stones it captured are put back. */
  method LiftPlacement(board: Grid, pos: Pos, player: Player, captured: seq<Pos>) returns (restored: Grid)
    requires IsBoard(board, Size) && InBounds(Size, pos)
    requires forall c :: c in captured ==> 0 <= c.row < Size && 0 <= c.col < Size
    ensures restored == Paint(SetAt(board, pos, Empty), captured, Stone(Opponent(player)))
  {
    var opponent := Opponent(player);
    restored := SetAt(board, pos, Empty);
    restored := PaintStones(restored, captured, Stone(opponent));
  }

  /** Sets every point of `stones` to `v`, one after the other. */
  method PaintStones(board: Grid, stones: seq<Pos>, v: Point) returns (painted: Grid)
    requires IsBoard(board, Size) && forall c :: c in stones ==> 0 <= c.row < Size && 0 <= c.col < Size
    ensures painted == Paint(board, stones, v)
  {
    painted := board;
    for i := 0 to |stones|
      invariant painted == Paint(board, stones[..i], v)
    {
      assert stones[i] in stones;
      PaintStep(board, stones, i, v);
      painted := SetAt(painted, stones[i], v);
    }
    assert stones[..|stones|] == stones;
  }

  /** The group of the stone at (row, col) by depth-first search; empty for an empty point. */
  method GetGroup(board: Grid, row: int, col: int) returns (group: seq<Pos>)
    requires IsBoard(board, Size) && InBounds(Size, Pos(row, col))
    ensures At(board, Pos(row, col)) == Empty ==> group == []
    ensures At(board, Pos(row, col)) != Empty ==> IsGroupOrder(board, Size, Pos(row, col), group)
  {
    var start := Pos(row, col);
    var color := At(board, start);
    if color == Empty {
      return [];
    }
    group := [];
    var visited: set<Pos> := {};
    var stack := [start];
    while |stack| > 0
      invariant forall q :: q in visited <==> q in group
      invariant Distinct(group) && Linked(group)
      invariant forall q :: q in group ==> InBounds(Size, q) && At(board, q) == color
      invariant forall q :: q in stack ==> InBounds(Size, q) && At(board, q) == color
      invariant Frontier(board, group, stack, color)
      invariant |group| == 0 ==> stack == [start]
      invariant |group| > 0 ==> group[0] == start
      invariant |group| > 0 ==> forall q :: q in stack ==> NextTo(group, q)
      decreases AllPositions(Size) - visited, |stack|
    {
      ghost var stackBefore := stack;
      var pos := stack[|stack| - 1];
      stack := stack[..|stack| - 1];
      assert forall q :: q in stackBefore ==> q == pos || q in stack;
      assert pos in stackBefore && InBounds(Size, pos);
      if pos !in visited && At(board, pos) == color {
        InAllPositions(Size, pos);
        LinkedSnoc(group, pos);
        forall q | q in stack && |group| > 0
          ensures NextTo(group + [pos], q)
        {
          NextToGrow(group, pos, q);
        }
        ghost var oldGroup := group;
        visited := visited + {pos};
        group := group + [pos];
        var adjacents := GetAdjacent(pos.row, pos.col);
        ghost var stack0 := stack;
        stack := PushSameColour(board, adjacents, visited, color, stack);
        assert forall q :: q in stack0 ==> q in stack[..|stack0|];
        forall q | q in stack
          ensures NextTo(group, q)
        {
          if q !in stack0 {
            assert q in adjacents;
            NextToLast(group, q);
          }
        }
        forall q | InBounds(Size, q) && Adjacent(pos, q) && At(board, q) == color
          ensures q in group || q in stack
        {
          assert q in adjacents;
        }
        FrontierStep(board, oldGroup, pos, stackBefore, stack, color);
      }
    }
  }


  /** Pushes, in order, the points of `adjacents` that are unvisited and hold `color`. */
  method PushSameColour(board: Grid, adjacents: seq<Pos>, visited: set<Pos>, color: Point, stack: seq<Pos>)
    returns (stack': seq<Pos>)
    requires IsBoard(board, Size) && forall q :: q in adjacents ==> InBounds(Size, q)
    ensures |stack'| >= |stack| && stack'[..|stack|] == stack
    ensures forall q :: q in stack' ==>
              q in stack || (q in adjacents && q !in visited && InBounds(Size, q) && At(board, q) == color)
    ensures forall q :: q in adjacents && q !in visited && InBounds(Size, q) && At(board, q) == color ==> q in stack'
  {
    stack' := stack;
    for i := 0 to |adjacents|
      invariant |stack'| >= |stack| && stack'[..|stack|] == stack
      invariant forall q :: q in stack' ==>
                  q in stack || (q in adjacents && q !in visited && InBounds(Size, q) && At(board, q) == color)
      invariant forall k :: 0 <= k < i && adjacents[k] !in visited && InBounds(Size, adjacents[k]) &&
                  At(board, adjacents[k]) == color
                  ==> adjacents[k] in stack'
    {
      var adj := adjacents[i];
      assert adj in adjacents && InBounds(Size, adj);
      if adj !in visited && At(board, adj) == color {
        stack' := stack' + [adj];
      }
    }
  }


  /** The distinct empty points next to the stones of `group`. */
  method GetLiberties(board: Grid, group: seq<Pos>) returns (libs: set<Pos>)
    requires IsBoard(board, Size) && forall q :: q in group ==> InBounds(Size, q)
    ensures libs == Liberties(board, Size, Elems(group))
  {
    libs := {};
    for i := 0 to |group|
      invariant forall q :: q in libs <==>
                  InBounds(Size, q) && At(board, q) == Empty && exists a :: a in group[..i] && Adjacent(a, q)
    {
      var adjacents := GetAdjacent(group[i].row, group[i].col);
      assert group[..i + 1] == group[..i] + [group[i]];
      for k := 0 to |adjacents|
        invariant forall q :: q in libs <==>
                    InBounds(Size, q) && At(board, q) == Empty &&
                    ((exists a :: a in group[..i] && Adjacent(a, q)) || q in adjacents[..k])
      {
        assert adjacents[..k + 1] == adjacents[..k] + [adjacents[k]];
        if At(board, adjacents[k]) == Empty {
          libs := libs + {adjacents[k]};
        }
      }
      assert adjacents[..|adjacents|] == adjacents;
    }
    assert group[..|group|] == group;
    forall q
      ensures q in libs <==> q in Liberties(board, Size, Elems(group))
    {
      LibertiesMember(board, Size, Elems(group), q);
    }
  }


  /**
    The state of a flood fill from `start` that began with the visited set `visited`: `seen`
    is `visited` plus the listed points `territory`, each an empty point reached from `start`;
    every point still to be looked at is on the stack, and each touch noted is a real one.
   */
  ghost predicate FillInv(g: Grid, start: Pos, visited: set<Pos>, seen: set<Pos>, territory: seq<Pos>,
                          stack: seq<Pos>, touchesBlack: bool, touchesWhite: bool)
    requires IsBoard(g, Size)
  {
    && InBounds(Size, start) && At(g, start) == Empty && start !in visited
    && visited <= seen
    && (forall q :: q in seen <==> q in visited || q in territory)
    && (forall q :: q in territory ==> q !in visited && InBounds(Size, q) && At(g, q) == Empty)
    && Distinct(territory) && Linked(territory)
    && (|territory| == 0 ==> stack == [start])
    && (|territory| > 0 ==> territory[0] == start && forall q :: q in stack ==> NextTo(territory, q))
    && (touchesBlack ==> Touches(g, Elems(territory), Black))
    && (touchesWhite ==> Touches(g, Elems(territory), White))
    && (forall a :: a in territory ==> NeighboursNoted(g, a, stack, seen, touchesBlack, touchesWhite))
  }

  /** Popping a point already visited or off the board changes nothing else. */
  lemma FillSkip(g: Grid, start: Pos, visited: set<Pos>, seen: set<Pos>, territory: seq<Pos>,
                 stack: seq<Pos>, touchesBlack: bool, touchesWhite: bool)
    requires IsBoard(g, Size) && |stack| > 0
    requires FillInv(g, start, visited, seen, territory, stack, touchesBlack, touchesWhite)
    requires var pos := stack[|stack| - 1]; pos in seen || !InBounds(Size, pos)
    ensures FillInv(g, start, visited, seen, territory, stack[..|stack| - 1], touchesBlack, touchesWhite)
  {
    var rest := stack[..|stack| - 1];
    assert forall q :: q in stack ==> q == stack[|stack| - 1] || q in rest;
    forall a | a in territory
      ensures NeighboursNoted(g, a, rest, seen, touchesBlack, touchesWhite)
    {
      assert NeighboursNoted(g, a, stack, seen, touchesBlack, touchesWhite);
    }
  }

  /** Popping an unvisited stone notes that the area touches its colour. */
  lemma FillStone(g: Grid, start: Pos, visited: set<Pos>, seen: set<Pos>, territory: seq<Pos>,
                  stack: seq<Pos>, touchesBlack: bool, touchesWhite: bool, c: Player)
    requires IsBoard(g, Size) && |stack| > 0
    requires FillInv(g, start, visited, seen, territory, stack, touchesBlack, touchesWhite)
    requires var pos := stack[|stack| - 1]; pos !in seen && InBounds(Size, pos) && At(g, pos) == Stone(c)
    ensures FillInv(g, start, visited, seen, territory, stack[..|stack| - 1],
                    touchesBlack || c == Black, touchesWhite || c == White)
  {
    var pos := stack[|stack| - 1];
    var rest := stack[..|stack| - 1];
    assert forall q :: q in stack ==> q == pos || q in rest;
    assert |territory| > 0 && NextTo(territory, pos);
    var j :| 0 <= j < |territory| && Adjacent(territory[j], pos);
    assert territory[j] in Elems(territory);
    assert Touches(g, Elems(territory), c);
    forall a | a in territory
      ensures NeighboursNoted(g, a, rest, seen, touchesBlack || c == Black, touchesWhite || c == White)
    {
      assert NeighboursNoted(g, a, stack, seen, touchesBlack, touchesWhite);
    }
  }

  /** The four orthogonal neighbours of `pos`, on the board or not, in the order they are pushed. */
  function Around(pos: Pos): (r: seq<Pos>)
    ensures forall q :: q in r <==> Adjacent(pos, q)
  {
    [Pos(pos.row - 1, pos.col), Pos(pos.row + 1, pos.col), Pos(pos.row, pos.col - 1), Pos(pos.row, pos.col + 1)]
  }

  /** After visiting `pos`, its pushed neighbours and the rest of the stack are next to the list. */
  lemma VisitNextTo(territory: seq<Pos>, rest: seq<Pos>, pos: Pos)
    requires |territory| > 0 || rest == []
    requires |territory| > 0 ==> forall q :: q in rest ==> NextTo(territory, q)
    ensures forall q :: q in rest + Around(pos) ==> NextTo(territory + [pos], q)
  {
    forall q | q in rest + Around(pos)
      ensures NextTo(territory + [pos], q)
    {
      if q in rest {
        NextToGrow(territory, pos, q);
      } else {
        assert q in Around(pos);
        NextToLast(territory + [pos], q);
      }
    }
  }

  /** After visiting `pos` and pushing its neighbours, every listed point still has its neighbours noted. */
  lemma VisitNoted(g: Grid, territory: seq<Pos>, stack: seq<Pos>, seen: set<Pos>, tb: bool, tw: bool)
    requires IsBoard(g, Size) && |stack| > 0
    requires forall a :: a in territory ==> NeighboursNoted(g, a, stack, seen, tb, tw)
    ensures var pos := stack[|stack| - 1];
      forall a :: a in territory + [pos] ==>
        NeighboursNoted(g, a, stack[..|stack| - 1] + Around(pos), seen + {pos}, tb, tw)
  {
    var pos := stack[|stack| - 1];
    var rest := stack[..|stack| - 1];
    assert forall q :: q in stack ==> q == pos || q in rest;
    forall a | a in territory + [pos]
      ensures NeighboursNoted(g, a, rest + Around(pos), seen + {pos}, tb, tw)
    {
      if a != pos {
        assert NeighboursNoted(g, a, stack, seen, tb, tw);
      }
    }
  }

  /** Popping an unvisited empty point visits it, lists it and pushes its four neighbours. */
  lemma FillVisit(g: Grid, start: Pos, visited: set<Pos>, seen: set<Pos>, territory: seq<Pos>,
                  stack: seq<Pos>, touchesBlack: bool, touchesWhite: bool)
    requires IsBoard(g, Size) && |stack| > 0
    requires FillInv(g, start, visited, seen, territory, stack, touchesBlack, touchesWhite)
    requires var pos := stack[|stack| - 1]; pos !in seen && InBounds(Size, pos) && At(g, pos) == Empty
    ensures var pos := stack[|stack| - 1];
      FillInv(g, start, visited, seen + {pos}, territory + [pos], stack[..|stack| - 1] + Around(pos),
              touchesBlack, touchesWhite)
  {
    var pos := stack[|stack| - 1];
    var territory' := territory + [pos];
    LinkedSnoc(territory, pos);
    VisitNextTo(territory, stack[..|stack| - 1], pos);
    VisitNoted(g, territory, stack, seen, touchesBlack, touchesWhite);
    if touchesBlack {
      TouchesGrow(g, Elems(territory), Elems(territory'), Black);
    }
    if touchesWhite {
      TouchesGrow(g, Elems(territory), Elems(territory'), White);
    }
  }

  /**
    The empty area around (startRow, startCol), searched from an explicit stack that also
    receives off-board neighbours. It returns the number of points it newly visits and the
    colour whose stones alone border them; the visited set is extended with those points.
   */
  method FloodFillTerritory(board: Grid, startRow: int, startCol: int, visited: set<Pos>)
    returns (size: nat, owner: Option<Player>, visited': set<Pos>)
    requires IsBoard(board, Size) && InBounds(Size, Pos(startRow, startCol))
    requires At(board, Pos(startRow, startCol)) == Empty && Pos(startRow, startCol) !in visited
    ensures visited <= visited' && Pos(startRow, startCol) in visited'
    ensures SameColour(board, Size, visited' - visited, Empty)
    ensures size == |visited' - visited|
    ensures WholeAreas(board, visited) ==> WholeAreas(board, visited')
    ensures WholeAreas(board, visited) ==>
              && owner == RegionOwner(board, visited' - visited)
              && exists o :: IsGroupOrder(board, Size, Pos(startRow, startCol), o) && Elems(o) == visited' - visited
  {
    var start := Pos(startRow, startCol);
    var territory: seq<Pos> := [];
    var stack := [start];
    var touchesBlack := false;
    var touchesWhite := false;
    visited' := visited;
    while |stack| > 0
      invariant FillInv(board, start, visited, visited', territory, stack, touchesBlack, touchesWhite)
      decreases AllPositions(Size) - visited', |stack|
    {
      var pos := stack[|stack| - 1];
      if pos !in visited' && 0 <= pos.row < Size && 0 <= pos.col < Size {
        match At(board, pos)
        case Stone(Black) =>
          FillStone(board, start, visited, visited', territory, stack, touchesBlack, touchesWhite, Black);
          touchesBlack := true;
          stack := stack[..|stack| - 1];
        case Stone(White) =>
          FillStone(board, start, visited, visited', territory, stack, touchesBlack, touchesWhite, White);
          touchesWhite := true;
          stack := stack[..|stack| - 1];
        case Empty =>
          FillVisit(board, start, visited, visited', territory, stack, touchesBlack, touchesWhite);
          InAllPositions(Size, pos);
          visited' := visited' + {pos};
          territory := territory + [pos];
          stack := stack[..|stack| - 1] + Around(pos);
      } else {
        FillSkip(board, start, visited, visited', territory, stack, touchesBlack, touchesWhite);
        stack := stack[..|stack| - 1];
      }
    }
    size := |territory|;
    owner := None;
    if touchesBlack && !touchesWhite {
      owner := Some(Black);
    } else if touchesWhite && !touchesBlack {
      owner := Some(White);
    }
    assert visited' - visited == Elems(territory);
    DistinctCard(territory);
    if WholeAreas(board, visited) {
      FloodFillResult(board, start, visited, visited', territory, touchesBlack, touchesWhite);
    }
  }

  /** What a finished flood fill has found, when it started outside the whole areas already seen. */
  lemma FloodFillResult(g: Grid, start: Pos, visited: set<Pos>, visited': set<Pos>, territory: seq<Pos>,
                        touchesBlack: bool, touchesWhite: bool)
    requires IsBoard(g, Size) && InBounds(Size, start) && At(g, start) == Empty
    requires WholeAreas(g, visited)
    requires forall q :: q in visited' <==> q in visited || q in territory
    requires forall q :: q in territory ==> q !in visited && InBounds(Size, q) && At(g, q) == Empty
    requires Distinct(territory) && Linked(territory) && |territory| > 0 && territory[0] == start
    requires touchesBlack ==> Touches(g, Elems(territory), Black)
    requires touchesWhite ==> Touches(g, Elems(territory), White)
    requires forall a :: a in territory ==> NeighboursNoted(g, a, [], visited', touchesBlack, touchesWhite)
    ensures WholeAreas(g, visited')
    ensures IsGroupOrder(g, Size, start, territory)
    ensures Touches(g, Elems(territory), Black) <==> touchesBlack
    ensures Touches(g, Elems(territory), White) <==> touchesWhite
  {
    forall a, q | a in Elems(territory) && InBounds(Size, q) && Adjacent(a, q) && At(g, q) == Empty
      ensures q in Elems(territory)
    {
      assert NeighboursNoted(g, a, [], visited', touchesBlack, touchesWhite);
      if q in visited {
        assert Adjacent(q, a);
      }
    }
    forall a, q | a in visited' && InBounds(Size, q) && Adjacent(a, q) && At(g, q) == Empty
      ensures q in visited'
    {
      if a in territory {
        assert a in Elems(territory);
      }
    }
    forall c: Player | Touches(g, Elems(territory), c)
      ensures if c == Black then touchesBlack else touchesWhite
    {
      var a, q :| a in Elems(territory) && InBounds(Size, q) && Adjacent(a, q) && At(g, q) == Stone(c);
      assert NeighboursNoted(g, a, [], visited', touchesBlack, touchesWhite);
    }
  }

  /**
    The scan of the territory count has reached (row, col): every empty point before it in
    row-major order has been visited, whole areas only were visited, and the counters hold
    the territory of each colour among the visited points.
   */
  ghost predicate Counted(g: Grid, seen: set<Pos>, row: int, col: int, black: int, white: int)
    requires IsBoard(g, Size)
  {
    && WholeAreas(g, seen)
    && (forall q :: InBounds(Size, q) && At(g, q) == Empty && (q.row < row || (q.row == row && q.col < col)) ==> q in seen)
    && black == |Territory(g, Black) * seen|
    && white == |Territory(g, White) * seen|
  }

  /** Crediting the area found by a flood fill from (row, col) moves the scan one point on. */
  lemma CountedFill(g: Grid, seen: set<Pos>, seen': set<Pos>, row: int, col: int, black: int, white: int,
                    size: nat, owner: Option<Player>)
    requires IsBoard(g, Size) && InBounds(Size, Pos(row, col)) && At(g, Pos(row, col)) == Empty
    requires Counted(g, seen, row, col, black, white)
    requires seen <= seen' && Pos(row, col) in seen' && size == |seen' - seen|
    requires WholeAreas(g, seen') && owner == RegionOwner(g, seen' - seen)
    requires exists o :: IsGroupOrder(g, Size, Pos(row, col), o) && Elems(o) == seen' - seen
    ensures Counted(g, seen', row, col + 1,
                    if owner == Some(Black) then black + size else black,
                    if owner == Some(White) then white + size else white)
  {
    var o :| IsGroupOrder(g, Size, Pos(row, col), o) && Elems(o) == seen' - seen;
    TerritoryStep(g, seen, seen', Pos(row, col), o, Black);
    TerritoryStep(g, seen, seen', Pos(row, col), o, White);
  }

  /** A point that is a stone or already visited is passed over. */
  lemma CountedSkip(g: Grid, seen: set<Pos>, row: int, col: int, black: int, white: int)
    requires IsBoard(g, Size) && InBounds(Size, Pos(row, col))
    requires Counted(g, seen, row, col, black, white)
    requires At(g, Pos(row, col)) != Empty || Pos(row, col) in seen
    ensures Counted(g, seen, row, col + 1, black, white)
  {
  }

  /** A scan that has passed the last column of a row is at the start of the next row. */
  lemma CountedNextRow(g: Grid, seen: set<Pos>, row: int, black: int, white: int)
    requires IsBoard(g, Size) && Counted(g, seen, row, Size, black, white)
    ensures Counted(g, seen, row + 1, 0, black, white)
  {
  }

  /** At the end of the scan every empty point was visited, so the counters are the territories. */
  lemma CountedAll(g: Grid, seen: set<Pos>, black: int, white: int)
    requires IsBoard(g, Size) && Counted(g, seen, Size, 0, black, white)
    ensures black == |Territory(g, Black)| && white == |Territory(g, White)|
  {
    assert Territory(g, Black) * seen == Territory(g, Black);
    assert Territory(g, White) * seen == Territory(g, White);
  }

  /**
    The territory count at the end of the game: each empty point not yet visited starts a
    flood fill, and the size of the area is credited to the colour that alone borders it.
   */
  method CountTerritory(board: Grid) returns (black: nat, white: nat)
    requires IsBoard(board, Size)
    ensures black == |Territory(board, Black)| && white == |Territory(board, White)|
  {
    var visited: set<Pos> := {};
    black, white := 0, 0;
    for row := 0 to Size
      invariant Counted(board, visited, row, 0, black, white)
    {
      for col := 0 to Size
        invariant Counted(board, visited, row, col, black, white)
      {
        visited, black, white := ScanPoint(board, visited, row, col, black, white);
      }
      CountedNextRow(board, visited, row, black, white);
    }
    CountedAll(board, visited, black, white);
  }

  /** One point of the territory scan: an empty point not yet visited starts a flood fill. */
  method ScanPoint(board: Grid, visited: set<Pos>, row: int, col: int, black: nat, white: nat)
    returns (visited': set<Pos>, black': nat, white': nat)
    requires IsBoard(board, Size) && 0 <= row < Size && 0 <= col < Size
    requires Counted(board, visited, row, col, black, white)
    ensures Counted(board, visited', row, col + 1, black', white')
  {
    visited', black', white' := visited, black, white;
    if At(board, Pos(row, col)) == Empty && Pos(row, col) !in visited {
      var size, owner;
      size, owner, visited' := FloodFillTerritory(board, row, col, visited);
      CountedFill(board, visited, visited', row, col, black, white, size, owner);
      if owner == Some(Black) {
        black' := black + size;
      } else if owner == Some(White) {
        white' := white + size;
      }
    } else {
      CountedSkip(board, visited, row, col, black, white);
    }
  }
}
