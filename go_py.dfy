/**
  The Go engine of go_game.py: class `GoGame`, an `n` by `n` board with stone placement,
  capture of every opponent group left without liberty, a suicide check that probes the
  board, a simple ko rule and passing. It has no undo and no scoring.

  The read-only searches (`get_neighbors`, `get_group`, `count_liberties`) only read
  `self.size` and `self.board`, so they are module-level methods over the board value and
  its size; the class methods pass them the current board.
 */
module GoPy {
  import opened Wrappers
  import opened GoBoard

  /** A history record: `(row, col, player)` for a stone, `('pass', None, player)` for a pass. */
  datatype PyMove = Play(row: int, col: int, player: Player) | Pass(player: Player)

  /** The candidate neighbours of `p`, in the order of the offsets (0, 1), (0, -1), (1, 0), (-1, 0). */
  function Offsets(p: Pos): (r: seq<Pos>)
    ensures forall q :: q in r <==> Adjacent(p, q)
  {
    [Pos(p.row, p.col + 1), Pos(p.row, p.col - 1), Pos(p.row + 1, p.col), Pos(p.row - 1, p.col)]
  }

  /** The elements of `s` that lie on an `n` by `n` board, in order. */
  function OnBoard(n: int, s: seq<Pos>): (r: seq<Pos>)
    ensures forall q :: q in r <==> q in s && InBounds(n, q)
    ensures |r| <= |s|
  {
    if s == [] then []
    else OnBoard(n, s[..|s| - 1]) + (if InBounds(n, s[|s| - 1]) then [s[|s| - 1]] else [])
  }

  /** The neighbours `get_neighbors` reports for `p`: its on-board orthogonal neighbours, in offset order. */
  function Neighbours(n: int, p: Pos): (r: seq<Pos>)
    ensures forall i :: 0 <= i < |r| ==> InBounds(n, r[i])
  {
    var r := OnBoard(n, Offsets(p));
    assert forall i :: 0 <= i < |r| ==> r[i] in r;
    r
  }

  lemma NeighboursMember(n: int, p: Pos, q: Pos)
    ensures q in Neighbours(n, p) <==> InBounds(n, q) && Adjacent(p, q)
  {
  }

  /** Filtering a list without repetition gives a list without repetition. */
  lemma {:induction false} OnBoardDistinct(n: int, s: seq<Pos>)
    requires Distinct(s)
    ensures Distinct(OnBoard(n, s))
  {
    if s != [] {
      var init := s[..|s| - 1];
      assert Distinct(init);
      OnBoardDistinct(n, init);
      assert s[|s| - 1] !in init;
    }
  }

  /** No neighbour is reported twice, and a point has one neighbour per side that is not on the edge. */
  lemma NeighboursCount(n: int, p: Pos)
    requires InBounds(n, p)
    ensures Distinct(Neighbours(n, p))
    ensures |Neighbours(n, p)| == (if p.col < n - 1 then 1 else 0) + (if p.col > 0 then 1 else 0)
                                + (if p.row < n - 1 then 1 else 0) + (if p.row > 0 then 1 else 0)
  {
    OnBoardDistinct(n, Offsets(p));
    NeighboursLength(n, p);
  }

  lemma NeighboursLength(n: int, p: Pos)
    requires InBounds(n, p)
    ensures |Neighbours(n, p)| == (if p.col < n - 1 then 1 else 0) + (if p.col > 0 then 1 else 0)
                                + (if p.row < n - 1 then 1 else 0) + (if p.row > 0 then 1 else 0)
  {
    var o := Offsets(p);
    assert o[..1][..0] == [] && o[..2][..1] == o[..1] && o[..3][..2] == o[..2] && o[..4][..3] == o[..3];
    assert o[..4] == o;
    assert |OnBoard(n, o[..1])| == |Keep(n, o[0])|;
    assert |OnBoard(n, o[..2])| == |Keep(n, o[0])| + |Keep(n, o[1])|;
    assert |OnBoard(n, o[..3])| == |Keep(n, o[0])| + |Keep(n, o[1])| + |Keep(n, o[2])|;
  }

  /** `[q]` when `q` is on the board, `[]` otherwise. */
  function Keep(n: int, q: Pos): (r: seq<Pos>)
    ensures |r| == if InBounds(n, q) then 1 else 0
  {
    if InBounds(n, q) then [q] else []
  }

  /** `get_neighbors`: the on-board neighbours of `(row, col)`, tried in offset order. */
  method GetNeighbors(n: nat, row: int, col: int) returns (neighbors: seq<Pos>)
    ensures neighbors == Neighbours(n, Pos(row, col))
  {
    var candidates := Offsets(Pos(row, col));
    neighbors := [];
    for i := 0 to |candidates|
      invariant neighbors == OnBoard(n, candidates[..i])
    {
      assert candidates[..i + 1][..i] == candidates[..i];
      var q := candidates[i];
      if 0 <= q.row < n && 0 <= q.col < n {
        neighbors := neighbors + [q];
      }
    }
    assert candidates[..|candidates|] == candidates;
  }

  /** `s` is the set of points connected to `p` through points of its colour. */
  ghost predicate IsGroup(g: Grid, n: nat, p: Pos, s: set<Pos>)
    requires IsBoard(g, n)
  {
    exists o :: IsGroupOrder(g, n, p, o) && Elems(o) == s
  }

  /**
    What holds while `get_group` searches from `start`: `order` lists the points added to
    `group` so far, linked and of the start's colour, each still-stacked point is of that
    colour and next to the list, and every same-coloured neighbour of a listed point is in
    the group or on the stack.
   */
  ghost predicate GroupInv(g: Grid, n: nat, start: Pos, color: Point, group: set<Pos>, order: seq<Pos>, stack: seq<Pos>)
    requires IsBoard(g, n)
  {
    && InBounds(n, start) && At(g, start) == color
    && Elems(order) == group && Distinct(order) && Linked(order)
    && (|order| == 0 ==> stack == [start])
    && (|order| > 0 ==> order[0] == start)
    && (forall q :: q in stack ==> InBounds(n, q) && At(g, q) == color && (|order| > 0 ==> NextTo(order, q)))
    && SameColour(g, n, group, color)
    && (forall a, q :: a in group && InBounds(n, q) && Adjacent(a, q) && At(g, q) == color ==> q in group || q in stack)
  }

  /** Popping a point already in the group keeps the search invariant. */
  lemma GroupSkip(g: Grid, n: nat, start: Pos, color: Point, group: set<Pos>, order: seq<Pos>, stack: seq<Pos>)
    requires IsBoard(g, n) && |stack| > 0 && stack[|stack| - 1] in group
    requires GroupInv(g, n, start, color, group, order, stack)
    ensures GroupInv(g, n, start, color, group, order, stack[..|stack| - 1])
  {
    var rest := stack[..|stack| - 1];
    assert stack == rest + [stack[|stack| - 1]];
    assert |order| > 0;
  }

  /** What `GroupVisit` is given: `x` popped, its unlisted same-coloured neighbours pushed. */
  ghost predicate Visiting(g: Grid, n: nat, color: Point, group: set<Pos>, stack: seq<Pos>, pushed: seq<Pos>)
    requires IsBoard(g, n) && |stack| > 0
  {
    var x := stack[|stack| - 1];
    && |pushed| >= |stack| - 1 && pushed[..|stack| - 1] == stack[..|stack| - 1]
    && (forall q :: q in pushed[|stack| - 1..] ==> InBounds(n, q) && Adjacent(x, q) && At(g, q) == color)
    && (forall q :: InBounds(n, q) && Adjacent(x, q) && At(g, q) == color && q !in group + {x} ==> q in pushed)
  }

  /** Adding a popped point to the group and pushing its unlisted same-coloured neighbours keeps the invariant. */
  lemma GroupVisit(g: Grid, n: nat, start: Pos, color: Point, group: set<Pos>, order: seq<Pos>,
                   stack: seq<Pos>, pushed: seq<Pos>)
    requires IsBoard(g, n) && |stack| > 0 && stack[|stack| - 1] !in group
    requires GroupInv(g, n, start, color, group, order, stack)
    requires Visiting(g, n, color, group, stack, pushed)
    ensures var x := stack[|stack| - 1];
      GroupInv(g, n, start, color, group + {x}, order + [x], pushed)
  {
    var x := stack[|stack| - 1];
    assert x in stack;
    LinkedSnoc(order, x);
    assert Elems(order + [x]) == group + {x};
    VisitPushed(g, n, start, color, group, order, stack, pushed);
    VisitClosed(g, n, start, color, group, order, stack, pushed);
  }

  /** After a visit every stacked point is of the colour and next to the extended list. */
  lemma VisitPushed(g: Grid, n: nat, start: Pos, color: Point, group: set<Pos>, order: seq<Pos>,
                    stack: seq<Pos>, pushed: seq<Pos>)
    requires IsBoard(g, n) && |stack| > 0
    requires GroupInv(g, n, start, color, group, order, stack)
    requires Visiting(g, n, color, group, stack, pushed)
    ensures forall q :: q in pushed ==> InBounds(n, q) && At(g, q) == color && NextTo(order + [stack[|stack| - 1]], q)
  {
    var x := stack[|stack| - 1];
    var rest := stack[..|stack| - 1];
    assert stack == rest + [x];
    var order' := order + [x];
    forall q | q in pushed
      ensures InBounds(n, q) && At(g, q) == color && NextTo(order', q)
    {
      var k :| 0 <= k < |pushed| && pushed[k] == q;
      if k < |rest| {
        assert q in rest;
        if |order| > 0 {
          NextToGrow(order, x, q);
        } else {
          assert false;
        }
      } else {
        assert q in pushed[|stack| - 1..];
        NextToLast(order', q);
      }
    }
  }

  /** After a visit every same-coloured neighbour of the group is in it or on the stack. */
  lemma VisitClosed(g: Grid, n: nat, start: Pos, color: Point, group: set<Pos>, order: seq<Pos>,
                    stack: seq<Pos>, pushed: seq<Pos>)
    requires IsBoard(g, n) && |stack| > 0
    requires GroupInv(g, n, start, color, group, order, stack)
    requires Visiting(g, n, color, group, stack, pushed)
    ensures var x := stack[|stack| - 1];
      forall a, q :: a in group + {x} && InBounds(n, q) && Adjacent(a, q) && At(g, q) == color ==> q in group + {x} || q in pushed
  {
    var x := stack[|stack| - 1];
    var rest := stack[..|stack| - 1];
    assert stack == rest + [x];
    forall a, q | a in group + {x} && InBounds(n, q) && Adjacent(a, q) && At(g, q) == color
      ensures q in group + {x} || q in pushed
    {
      if a in group && q !in group && q != x {
        assert q in stack;
        assert q in rest;
        var k :| 0 <= k < |rest| && rest[k] == q;
        assert pushed[k] == q;
      }
    }
  }

  /** Pushes, in order, the points of `neighbors` that hold `color` and are not in `group`. */
  method PushSameColour(board: Grid, n: nat, neighbors: seq<Pos>, group: set<Pos>, color: Point, stack: seq<Pos>)
    returns (stack': seq<Pos>)
    requires IsBoard(board, n) && forall q :: q in neighbors ==> 0 <= q.row < n && 0 <= q.col < n
    ensures |stack'| >= |stack| && stack'[..|stack|] == stack
    ensures forall q :: q in stack'[|stack|..] ==> q in neighbors && At(board, q) == color && q !in group
    ensures forall q :: q in neighbors && At(board, q) == color && q !in group ==> q in stack'
  {
    stack' := stack;
    for i := 0 to |neighbors|
      invariant |stack'| >= |stack| && stack'[..|stack|] == stack
      invariant forall q :: q in stack'[|stack|..] ==> q in neighbors && At(board, q) == color && q !in group
      invariant forall k :: 0 <= k < i && At(board, neighbors[k]) == color && neighbors[k] !in group ==> neighbors[k] in stack'
    {
      var q := neighbors[i];
      assert q in neighbors;
      if At(board, q) == color && q !in group {
        stack' := stack' + [q];
        assert stack'[|stack|..] == stack'[..|stack'| - 1][|stack|..] + [q];
      }
    }
  }

  /**
    `get_group`: the empty set for an empty point, otherwise the stones connected to
    `(row, col)` through stones of its colour, found by a depth-first search over a stack.
   */
  method GetGroup(board: Grid, n: nat, row: int, col: int) returns (group: set<Pos>)
    requires IsBoard(board, n) && InBounds(n, Pos(row, col))
    ensures At(board, Pos(row, col)) == Empty ==> group == {}
    ensures At(board, Pos(row, col)) != Empty ==> IsGroup(board, n, Pos(row, col), group)
  {
    var start := Pos(row, col);
    var color := At(board, start);
    if color == Empty {
      return {};
    }
    group := {};
    ghost var order: seq<Pos> := [];
    var stack := [start];
    while |stack| > 0
      invariant GroupInv(board, n, start, color, group, order, stack)
      invariant group <= AllPositions(n)
      decreases AllPositions(n) - group, |stack|
    {
      var x := stack[|stack| - 1];
      if x in group {
        GroupSkip(board, n, start, color, group, order, stack);
        stack := stack[..|stack| - 1];
        continue;
      }
      assert x in stack;
      InAllPositions(n, x);
      var neighbors := GetNeighbors(n, x.row, x.col);
      forall q | q in neighbors
        ensures InBounds(n, q) && Adjacent(x, q)
      {
        NeighboursMember(n, x, q);
      }
      var pushed := PushSameColour(board, n, neighbors, group + {x}, color, stack[..|stack| - 1]);
      forall q | InBounds(n, q) && Adjacent(x, q) && At(board, q) == color && q !in group + {x}
        ensures q in pushed
      {
        NeighboursMember(n, x, q);
      }
      GroupVisit(board, n, start, color, group, order, stack, pushed);
      group := group + {x};
      order := order + [x];
      stack := pushed;
    }
    assert IsGroupOrder(board, n, start, order);
  }

  /**
    `count_liberties`: the number of distinct empty points next to a stone of `group`,
    collected into a set while walking the group and each stone's neighbours.
   */
  method CountLiberties(board: Grid, n: nat, group: set<Pos>) returns (count: nat)
    requires IsBoard(board, n)
    ensures count == |Liberties(board, n, group)|
  {
    var liberties: set<Pos> := {};
    var rest := group;
    while rest != {}
      invariant rest <= group
      invariant forall q :: q in liberties <==>
                  InBounds(n, q) && At(board, q) == Empty && exists a :: a in group - rest && Adjacent(a, q)
      decreases rest
    {
      var a :| a in rest;
      var neighbors := GetNeighbors(n, a.row, a.col);
      ghost var before := liberties;
      for k := 0 to |neighbors|
        invariant forall q :: q in liberties <==> q in before || (q in neighbors[..k] && InBounds(n, q) && At(board, q) == Empty)
      {
        assert neighbors[..k + 1] == neighbors[..k] + [neighbors[k]];
        NeighboursMember(n, a, neighbors[k]);
        if At(board, neighbors[k]) == Empty {
          liberties := liberties + {neighbors[k]};
        }
      }
      assert neighbors[..|neighbors|] == neighbors;
      forall q
        ensures q in liberties <==>
                InBounds(n, q) && At(board, q) == Empty && exists b :: b in group - (rest - {a}) && Adjacent(b, q)
      {
        NeighboursMember(n, a, q);
      }
      rest := rest - {a};
    }
    forall q
      ensures q in liberties <==> q in Liberties(board, n, group)
    {
      LibertiesMember(board, n, group, q);
    }
    assert liberties == Liberties(board, n, group);
    count := |liberties|;
  }

  /** `q` belongs to a group of `c` stones that has no liberty. */
  ghost predicate InDeadGroup(g: Grid, n: nat, q: Pos, c: Player)
    requires IsBoard(g, n)
  {
    exists s, o :: IsGroupOrder(g, n, s, o) && At(g, s) == Stone(c) && Liberties(g, n, Elems(o)) == {} && q in o
  }

  /** The `c` stones whose group has no liberty: what a capture removes. */
  ghost function Dead(g: Grid, n: nat, c: Player): set<Pos>
    requires IsBoard(g, n)
  {
    set q | q in AllPositions(n) && InDeadGroup(g, n, q, c)
  }

  /** Only `c` stones can be dead `c` stones. */
  lemma NotDead(g: Grid, n: nat, q: Pos, c: Player)
    requires IsBoard(g, n) && InBounds(n, q) && At(g, q) != Stone(c)
    ensures q !in Dead(g, n, c)
  {
  }

  /** The board `g` with the points of `s` emptied. */
  function Cleared(g: Grid, n: nat, s: set<Pos>): (h: Grid)
    requires IsBoard(g, n)
    ensures IsBoard(h, n)
    ensures forall q: Pos :: 0 <= q.row < n && 0 <= q.col < n ==> At(h, q) == if q in s then Empty else At(g, q)
  {
    seq(n, r requires 0 <= r < n => seq(n, c requires 0 <= c < n => if Pos(r, c) in s then Empty else g[r][c]))
  }

  /** Empties, one by one, the points of `stones`. */
  method ClearStones(board: Grid, n: nat, stones: set<Pos>) returns (board': Grid)
    requires IsBoard(board, n) && forall q :: q in stones ==> InBounds(n, q)
    ensures board' == Cleared(board, n, stones)
  {
    board' := board;
    var rest := stones;
    while rest != {}
      invariant rest <= stones && IsBoard(board', n)
      invariant forall q: Pos :: 0 <= q.row < n && 0 <= q.col < n ==>
                  At(board', q) == if q in stones - rest then Empty else At(board, q)
      decreases rest
    {
      var x :| x in rest;
      board' := SetAt(board', x, Empty);
      rest := rest - {x};
    }
    GridExt(board', Cleared(board, n, stones));
  }

  /**
    What holds while `remove_captured_groups` scans the original board `g0` for `opp` groups,
    up to the point (row, col) in row-major order: `checked` is a union of whole `opp`
    groups of `g0` holding every `opp` stone scanned so far, the current board `b` is `g0`
    with the stones of `dead` among them removed, and `count` is how many those are.
   */
  ghost predicate ScanInv(g0: Grid, n: nat, opp: Player, dead: set<Pos>, b: Grid, checked: set<Pos>, row: int, col: int, count: int)
    requires IsBoard(g0, n)
  {
    && IsBoard(b, n)
    && (forall q :: q in checked ==> InBounds(n, q) && At(g0, q) == Stone(opp))
    && Closed(g0, n, checked, Stone(opp))
    && (forall q :: InBounds(n, q) && At(g0, q) == Stone(opp) && (q.row < row || (q.row == row && q.col < col)) ==> q in checked)
    && (forall q: Pos :: 0 <= q.row < n && 0 <= q.col < n ==>
          At(b, q) == if q in checked && q in dead then Empty else At(g0, q))
    && count == |dead * checked|
  }

  /**
    A group found on the partly cleared board from an unchecked `opp` stone never meets the
    checked points, so it is also its group on the original board, with the same liberties.
   */
  lemma GroupUnchecked(g0: Grid, n: nat, opp: Player, dead: set<Pos>, b: Grid, checked: set<Pos>, row: int, col: int, count: int,
                       p: Pos, o: seq<Pos>)
    requires IsBoard(g0, n) && ScanInv(g0, n, opp, dead, b, checked, row, col, count)
    requires InBounds(n, p) && At(b, p) == Stone(opp) && p !in checked && IsGroupOrder(b, n, p, o)
    ensures IsGroupOrder(g0, n, p, o)
    ensures Elems(o) !! checked
    ensures Liberties(b, n, Elems(o)) == Liberties(g0, n, Elems(o))
  {
    var c := Stone(opp);
    forall x | x in Elems(o)
      ensures InBounds(n, x) && At(g0, x) == c
    {
    }
    forall k | 0 <= k < |o|
      ensures o[k] !in checked
    {
      if o[k] in checked {
        LinkedRootInside(g0, n, o, checked, c, k);
        assert false;
      }
    }
    forall a, q | a in Elems(o) && InBounds(n, q) && Adjacent(a, q)
      ensures q !in checked
    {
      if q in checked {
        assert At(g0, a) == c && Adjacent(q, a);
      }
    }
    assert IsGroupOrder(g0, n, p, o);
    forall q
      ensures q in Liberties(b, n, Elems(o)) <==> q in Liberties(g0, n, Elems(o))
    {
      LibertiesMember(b, n, Elems(o), q);
      LibertiesMember(g0, n, Elems(o), q);
    }
  }

  /** A group of `opp` stones lies wholly inside the dead stones when it has no liberty, and wholly outside otherwise. */
  lemma DeadGroupPart(g0: Grid, n: nat, opp: Player, dead: set<Pos>, p: Pos, o: seq<Pos>)
    requires IsBoard(g0, n) && dead == Dead(g0, n, opp)
    requires IsGroupOrder(g0, n, p, o) && At(g0, p) == Stone(opp)
    ensures dead * Elems(o) == if Liberties(g0, n, Elems(o)) == {} then Elems(o) else {}
  {
    var group := Elems(o);
    if Liberties(g0, n, group) == {} {
      forall x | x in group
        ensures x in dead
      {
        InAllPositions(n, x);
      }
    } else {
      forall x | x in group
        ensures x !in dead
      {
        if x in dead {
          var s', o' :| IsGroupOrder(g0, n, s', o') && At(g0, s') == Stone(opp) && Liberties(g0, n, Elems(o')) == {} && x in o';
          GroupsMeet(g0, n, p, o, s', o', x);
        }
      }
    }
  }

  /**
    Adding the closed group of the stone at (row, col) to `checked` keeps it a closed set of
    `opp` stones and makes it cover the scan up to and including (row, col).
   */
  lemma CheckedGrow(g0: Grid, n: nat, opp: Player, checked: set<Pos>, row: int, col: int, group: set<Pos>)
    requires IsBoard(g0, n) && Pos(row, col) in group
    requires forall q :: q in checked ==> InBounds(n, q) && At(g0, q) == Stone(opp)
    requires Closed(g0, n, checked, Stone(opp))
    requires forall q :: InBounds(n, q) && At(g0, q) == Stone(opp) && (q.row < row || (q.row == row && q.col < col)) ==> q in checked
    requires SameColour(g0, n, group, Stone(opp)) && Closed(g0, n, group, Stone(opp))
    ensures forall q :: q in checked + group ==> InBounds(n, q) && At(g0, q) == Stone(opp)
    ensures Closed(g0, n, checked + group, Stone(opp))
    ensures forall q :: InBounds(n, q) && At(g0, q) == Stone(opp) && (q.row < row || (q.row == row && q.col < col + 1)) ==> q in checked + group
  {
    ClosedUnion(g0, n, checked, group, Stone(opp));
  }

  /** Checking the group of an unchecked `opp` stone that has a liberty adds it to `checked` and nothing more. */
  lemma ScanLive(g0: Grid, n: nat, opp: Player, dead: set<Pos>, b: Grid, checked: set<Pos>, row: int, col: int, count: int,
                 group: set<Pos>)
    requires IsBoard(g0, n) && ScanInv(g0, n, opp, dead, b, checked, row, col, count)
    requires Pos(row, col) in group && group !! checked
    requires SameColour(g0, n, group, Stone(opp)) && Closed(g0, n, group, Stone(opp))
    requires dead * group == {}
    ensures ScanInv(g0, n, opp, dead, b, checked + group, row, col + 1, count)
  {
    CheckedGrow(g0, n, opp, checked, row, col, group);
    var checked' := checked + group;
    assert forall q: Pos :: 0 <= q.row < n && 0 <= q.col < n ==>
          At(b, q) == if q in checked' && q in dead then Empty else At(g0, q);
    assert dead * checked' == dead * checked;
  }

  /** Checking the group of an unchecked `opp` stone without liberty empties it, counts it and adds it to `checked`. */
  lemma ScanDead(g0: Grid, n: nat, opp: Player, dead: set<Pos>, b: Grid, checked: set<Pos>, row: int, col: int, count: int,
                 group: set<Pos>)
    requires IsBoard(g0, n) && ScanInv(g0, n, opp, dead, b, checked, row, col, count)
    requires Pos(row, col) in group && group !! checked
    requires SameColour(g0, n, group, Stone(opp)) && Closed(g0, n, group, Stone(opp))
    requires group <= dead
    ensures ScanInv(g0, n, opp, dead, Cleared(b, n, group), checked + group, row, col + 1, count + |group|)
  {
    CheckedGrow(g0, n, opp, checked, row, col, group);
    ClearStep(g0, n, dead, b, checked, group);
    CountStep(dead, checked, group);
  }

  /** Emptying a dead group keeps the board equal to the original with the checked dead stones emptied. */
  lemma ClearStep(g0: Grid, n: nat, dead: set<Pos>, b: Grid, checked: set<Pos>, group: set<Pos>)
    requires IsBoard(g0, n) && IsBoard(b, n) && group <= dead
    requires forall q: Pos :: 0 <= q.row < n && 0 <= q.col < n ==>
               At(b, q) == if q in checked && q in dead then Empty else At(g0, q)
    ensures forall q: Pos :: 0 <= q.row < n && 0 <= q.col < n ==>
              At(Cleared(b, n, group), q) == if q in checked + group && q in dead then Empty else At(g0, q)
  {
  }

  /** The count of checked dead stones grows by the size of a dead group checked for the first time. */
  lemma CountStep(dead: set<Pos>, checked: set<Pos>, group: set<Pos>)
    requires group <= dead && group !! checked
    ensures |dead * (checked + group)| == |dead * checked| + |group|
  {
    assert dead * (checked + group) == dead * checked + group;
    assert dead * checked !! group;
  }

  /** A point that is not an unchecked `opp` stone moves the scan one point on unchanged. */
  lemma ScanSkip(g0: Grid, n: nat, opp: Player, dead: set<Pos>, b: Grid, checked: set<Pos>, row: int, col: int, count: int)
    requires IsBoard(g0, n) && ScanInv(g0, n, opp, dead, b, checked, row, col, count)
    requires InBounds(n, Pos(row, col)) && (At(b, Pos(row, col)) != Stone(opp) || Pos(row, col) in checked)
    ensures ScanInv(g0, n, opp, dead, b, checked, row, col + 1, count)
  {
    var p := Pos(row, col);
    forall q | InBounds(n, q) && At(g0, q) == Stone(opp) && (q.row < row || (q.row == row && q.col < col + 1))
      ensures q in checked
    {
      if q != p {
        assert q.row < row || (q.row == row && q.col < col);
      }
    }
  }

  /** A scan past the last column of a row is at the start of the next row. */
  lemma ScanNextRow(g0: Grid, n: nat, opp: Player, dead: set<Pos>, b: Grid, checked: set<Pos>, row: int, count: int)
    requires IsBoard(g0, n) && ScanInv(g0, n, opp, dead, b, checked, row, n, count)
    ensures ScanInv(g0, n, opp, dead, b, checked, row + 1, 0, count)
  {
  }

  /** Dead stones are `opp` stones, so a scan that has checked them all has checked every dead one. */
  lemma DeadScanned(g0: Grid, n: nat, opp: Player, checked: set<Pos>)
    requires IsBoard(g0, n)
    requires forall q :: InBounds(n, q) && At(g0, q) == Stone(opp) && (q.row < n || (q.row == n && q.col < 0)) ==> q in checked
    ensures Dead(g0, n, opp) <= checked
  {
    forall q | q in Dead(g0, n, opp)
      ensures q in checked
    {
      var s', o' :| IsGroupOrder(g0, n, s', o') && At(g0, s') == Stone(opp) && Liberties(g0, n, Elems(o')) == {} && q in o';
      assert q in Elems(o');
    }
  }

  /** Once every row is scanned, every dead stone was checked and cleared. */
  lemma ScanEnd(g0: Grid, n: nat, opp: Player, dead: set<Pos>, b: Grid, checked: set<Pos>, count: int)
    requires IsBoard(g0, n) && dead <= checked && ScanInv(g0, n, opp, dead, b, checked, n, 0, count)
    ensures b == Cleared(g0, n, dead) && count == |dead|
  {
    assert dead * checked == dead;
    forall q: Pos | 0 <= q.row < n && 0 <= q.col < n
      ensures At(b, q) == At(Cleared(g0, n, dead), q)
    {
    }
    GridExt(b, Cleared(g0, n, dead));
  }

  /**
    `remove_captured_groups`: scans the board in row-major order and, for each `opp` stone
    not yet checked, finds its group, marks it checked and, when it has no liberty, empties
    it and counts its stones. The result is the board without the dead `opp` groups, and the
    count is their number of stones, each counted once.
   */
  method RemoveCaptured(board: Grid, n: nat, opp: Player) returns (board': Grid, count: nat)
    requires IsBoard(board, n)
    ensures board' == Cleared(board, n, Dead(board, n, opp))
    ensures count == |Dead(board, n, opp)|
  {
    board' := board;
    count := 0;
    var checked: set<Pos> := {};
    ghost var dead := Dead(board, n, opp);
    for row := 0 to n
      invariant ScanInv(board, n, opp, dead, board', checked, row, 0, count)
    {
      for col := 0 to n
        invariant ScanInv(board, n, opp, dead, board', checked, row, col, count)
      {
        board', checked, count := CheckPoint(board, n, opp, dead, board', checked, row, col, count);
      }
      ScanNextRow(board, n, opp, dead, board', checked, row, count);
    }
    DeadScanned(board, n, opp, checked);
    ScanEnd(board, n, opp, dead, board', checked, count);
  }

  /** One point of the capture scan. */
  method CheckPoint(g0: Grid, n: nat, opp: Player, ghost dead: set<Pos>, board: Grid, checked: set<Pos>, row: int, col: int, count: nat)
    returns (board': Grid, checked': set<Pos>, count': nat)
    requires IsBoard(g0, n) && dead == Dead(g0, n, opp) && 0 <= row < n && 0 <= col < n
    requires ScanInv(g0, n, opp, dead, board, checked, row, col, count)
    ensures ScanInv(g0, n, opp, dead, board', checked', row, col + 1, count')
  {
    board', checked', count' := board, checked, count;
    if At(board, Pos(row, col)) == Stone(opp) && Pos(row, col) !in checked {
      var group := GetGroup(board, n, row, col);
      ghost var o :| IsGroupOrder(board, n, Pos(row, col), o) && Elems(o) == group;
      checked' := checked + group;
      var libs := CountLiberties(board, n, group);
      GroupUnchecked(g0, n, opp, dead, board, checked, row, col, count, Pos(row, col), o);
      DeadGroupPart(g0, n, opp, dead, Pos(row, col), o);
      if libs == 0 {
        ScanDead(g0, n, opp, dead, board, checked, row, col, count, group);
        board' := ClearStones(board, n, group);
        count' := count + |group|;
      } else {
        ScanLive(g0, n, opp, dead, board, checked, row, col, count, group);
      }
    } else {
      ScanSkip(g0, n, opp, dead, board, checked, row, col, count);
    }
  }

  /** An `n` by `n` board of empty points. */
  function EmptyGrid(n: nat): (g: Grid)
    ensures IsBoard(g, n) && forall q :: InBounds(n, q) ==> At(g, q) == Empty
  {
    seq(n, r => seq(n, c => Empty))
  }

  /** The fields of a `GoGame` besides its size. */
  datatype PyState = PyState(board: Grid, currentPlayer: Player, passCount: int, gameOver: bool,
                             captured: map<Player, int>, koPoint: Option<Pos>, moveHistory: seq<PyMove>)

  /**
    The suicide test of `would_be_suicide` for `c` at `p`: with the stone placed, its group
    has no liberty, and no neighbouring opponent group on the board without the stone has
    exactly one liberty (which would be `p`, so the stone would capture it).
   */
  ghost predicate PySuicide(g: Grid, n: nat, p: Pos, c: Player)
    requires IsBoard(g, n) && InBounds(n, p)
  {
    var t := SetAt(g, p, Stone(c));
    var e := SetAt(g, p, Empty);
    && (exists o :: IsGroupOrder(t, n, p, o) && Liberties(t, n, Elems(o)) == {})
    && !(exists q :: q in Neighbours(n, p) && AtariGroup(e, n, q, Opponent(c)))
  }

  /** `q` holds a `c` stone whose group has exactly one liberty. */
  ghost predicate AtariGroup(g: Grid, n: nat, q: Pos, c: Player)
    requires IsBoard(g, n) && InBounds(n, q)
  {
    At(g, q) == Stone(c) && exists o :: IsGroupOrder(g, n, q, o) && |Liberties(g, n, Elems(o))| == 1
  }

  /** The first point of `s` that is empty on `g`, if any. */
  function FirstEmpty(g: Grid, n: nat, s: seq<Pos>): (r: Option<Pos>)
    requires IsBoard(g, n) && forall i :: 0 <= i < |s| ==> 0 <= s[i].row < n && 0 <= s[i].col < n
    ensures r.None? <==> forall i :: 0 <= i < |s| ==> At(g, s[i]) != Empty
    ensures r.Some? ==> exists i :: 0 <= i < |s| && s[i] == r.value && At(g, s[i]) == Empty &&
                                   forall j :: 0 <= j < i ==> At(g, s[j]) != Empty
  {
    if s == [] then None
    else if At(g, s[0]) == Empty then Some(s[0])
    else
      var r := FirstEmpty(g, n, s[1..]);
      if r.Some? then
        assert exists i :: 0 <= i < |s| && s[i] == r.value && At(g, s[i]) == Empty &&
                           forall j :: 0 <= j < i ==> At(g, s[j]) != Empty by {
          var i :| 0 <= i < |s[1..]| && s[1..][i] == r.value && At(g, s[1..][i]) == Empty &&
                   forall j :: 0 <= j < i ==> At(g, s[1..][j]) != Empty;
          assert s[i + 1] == r.value;
          forall j | 0 <= j < i + 1
            ensures At(g, s[j]) != Empty
          {
            if j > 0 {
              assert s[j] == s[1..][j - 1];
            }
          }
        }
        r
      else
        r
  }

  /** The group of the stone at `p` has exactly one liberty. */
  ghost predicate OneLiberty(g: Grid, n: nat, p: Pos)
    requires IsBoard(g, n) && InBounds(n, p)
  {
    exists o :: IsGroupOrder(g, n, p, o) && |Liberties(g, n, Elems(o))| == 1
  }

  /**
    The ko point after a stone at `p` captured `count` stones, leaving the board `b`: when
    exactly one stone was captured and the new stone's group has exactly one liberty, the
    first empty neighbour of `p` in offset order (the previous ko point is kept when there
    is none); otherwise no ko point.
   */
  ghost function KoAfter(oldKo: Option<Pos>, b: Grid, n: nat, p: Pos, count: int): Option<Pos>
    requires IsBoard(b, n) && InBounds(n, p)
  {
    if count == 1 && OneLiberty(b, n, p) then
      var first := FirstEmpty(b, n, Neighbours(n, p));
      if first.Some? then first else oldKo
    else None
  }

  /** The capture tally after `me` captured `count` stones: only a positive count is added. */
  function Credit(captured: map<Player, int>, me: Player, count: nat): (r: map<Player, int>)
    requires me in captured
    ensures r.Keys == captured.Keys
    ensures r[me] == captured[me] + count
    ensures forall c :: c in captured && c != me ==> r[c] == captured[c]
  {
    if count > 0 then captured[me := captured[me] + count] else captured
  }

  /** `make_move` accepts `p` for the player to move. */
  ghost predicate LegalMove(s: PyState, n: nat, p: Pos)
    requires IsBoard(s.board, n)
  {
    && !s.gameOver
    && InBounds(n, p)
    && At(s.board, p) == Empty
    && s.koPoint != Some(p)
    && !PySuicide(s.board, n, p, s.currentPlayer)
  }

  /**
    The state after an accepted move at `p`: the stone placed, every opponent group left
    without liberty removed and credited to the mover, the pass count reset, the ko point
    updated, the move recorded and the turn passed.
   */
  ghost function Moved(s: PyState, n: nat, p: Pos): PyState
    requires IsBoard(s.board, n) && InBounds(n, p) && Black in s.captured && White in s.captured
  {
    var me := s.currentPlayer;
    var t := SetAt(s.board, p, Stone(me));
    var dead := Dead(t, n, Opponent(me));
    var b := Cleared(t, n, dead);
    PyState(b, Opponent(me), 0, s.gameOver,
            Credit(s.captured, me, |dead|),
            KoAfter(s.koPoint, b, n, p, |dead|),
            s.moveHistory + [Play(p.row, p.col, me)])
  }

  /** The parts `make_move` computes one after the other make up `Moved`. */
  lemma MovedIs(s: PyState, n: nat, p: Pos, next: PyState, count: nat)
    requires IsBoard(s.board, n) && InBounds(n, p) && Black in s.captured && White in s.captured
    requires var me := s.currentPlayer;
      var dead := Dead(SetAt(s.board, p, Stone(me)), n, Opponent(me));
      && next.board == Cleared(SetAt(s.board, p, Stone(me)), n, dead)
      && count == |dead|
      && next.currentPlayer == Opponent(me) && next.passCount == 0 && next.gameOver == s.gameOver
      && next.captured == Credit(s.captured, me, count)
      && next.koPoint == KoAfter(s.koPoint, next.board, n, p, count)
      && next.moveHistory == s.moveHistory + [Play(p.row, p.col, me)]
    ensures next == Moved(s, n, p)
  {
  }

  /** The state after an accepted pass. */
  ghost function Passed(s: PyState): PyState
  {
    s.(passCount := s.passCount + 1,
       moveHistory := s.moveHistory + [Pass(s.currentPlayer)],
       gameOver := s.gameOver || s.passCount + 1 >= 2,
       currentPlayer := Opponent(s.currentPlayer),
       koPoint := None)
  }

  /** A stone is in atari exactly when its group, as found, has one liberty. */
  lemma AtariIff(g: Grid, n: nat, q: Pos, c: Player, group: set<Pos>)
    requires IsBoard(g, n) && InBounds(n, q) && At(g, q) == Stone(c) && IsGroup(g, n, q, group)
    ensures AtariGroup(g, n, q, c) <==> |Liberties(g, n, group)| == 1
  {
    var o' :| IsGroupOrder(g, n, q, o') && Elems(o') == group;
    forall o | IsGroupOrder(g, n, q, o)
      ensures Elems(o) == group
    {
      GroupUnique(g, n, q, o, o');
    }
  }

  /**
    The capture test of `would_be_suicide`: whether some neighbour of `(row, col)` holds an
    `opp` stone whose group has exactly one liberty, trying the neighbours in offset order.
   */
  method InAtariNext(board: Grid, n: nat, row: int, col: int, opp: Player) returns (found: bool)
    requires IsBoard(board, n)
    ensures found <==> exists q :: q in Neighbours(n, Pos(row, col)) && AtariGroup(board, n, q, opp)
  {
    var neighbors := GetNeighbors(n, row, col);
    for i := 0 to |neighbors|
      invariant forall j :: 0 <= j < i ==> !AtariGroup(board, n, neighbors[j], opp)
    {
      var atari := InAtari(board, n, neighbors[i], opp);
      if atari {
        assert neighbors[i] in neighbors;
        return true;
      }
    }
    forall q | q in neighbors
      ensures !AtariGroup(board, n, q, opp)
    {
      var j :| 0 <= j < |neighbors| && neighbors[j] == q;
    }
    return false;
  }

  /** Whether `q` holds an `opp` stone whose group, found and counted, has exactly one liberty. */
  method InAtari(board: Grid, n: nat, q: Pos, opp: Player) returns (atari: bool)
    requires IsBoard(board, n) && InBounds(n, q)
    ensures atari <==> AtariGroup(board, n, q, opp)
  {
    if At(board, q) != Stone(opp) {
      return false;
    }
    var group := GetGroup(board, n, q.row, q.col);
    var libs := CountLiberties(board, n, group);
    AtariIff(board, n, q, opp, group);
    return libs == 1;
  }

  /** The ko search of `make_move`: the first neighbour of `(row, col)`, in offset order, that is empty. */
  method FindEmptyNeighbour(board: Grid, n: nat, row: int, col: int) returns (first: Option<Pos>)
    requires IsBoard(board, n)
    ensures first == FirstEmpty(board, n, Neighbours(n, Pos(row, col)))
  {
    var neighbors := GetNeighbors(n, row, col);
    for i := 0 to |neighbors|
      invariant FirstEmpty(board, n, neighbors) == FirstEmpty(board, n, neighbors[i..])
    {
      assert neighbors[i..][1..] == neighbors[i + 1..];
      if At(board, neighbors[i]) == Empty {
        return Some(neighbors[i]);
      }
    }
    return None;
  }

  /**
    The ko update of `make_move` after the stone at `(row, col)` captured `count` stones,
    leaving `board`: with exactly one capture and a single liberty for the new stone's group,
    the first empty neighbour (or the previous ko point when none is found); otherwise none.
   */
  method UpdateKo(board: Grid, n: nat, row: int, col: int, count: int, koPoint: Option<Pos>) returns (ko: Option<Pos>)
    requires IsBoard(board, n) && InBounds(n, Pos(row, col)) && At(board, Pos(row, col)) != Empty
    ensures ko == KoAfter(koPoint, board, n, Pos(row, col), count)
  {
    var p := Pos(row, col);
    if count == 1 {
      var myGroup := GetGroup(board, n, row, col);
      var libs := CountLiberties(board, n, myGroup);
      ghost var o :| IsGroupOrder(board, n, p, o) && Elems(o) == myGroup;
      if libs != 1 {
        forall o' | IsGroupOrder(board, n, p, o')
          ensures |Liberties(board, n, Elems(o'))| != 1
        {
          GroupUnique(board, n, p, o, o');
        }
      }
      ko := koPoint;
      if libs == 1 {
        var first := FindEmptyNeighbour(board, n, row, col);
        if first.Some? {
          ko := first;
        }
      } else {
        ko := None;
      }
    } else {
      ko := None;
    }
  }

  /** A stone with only empty neighbours is a group of its own, and its liberties are its neighbours. */
  lemma LoneStoneLiberties(g: Grid, n: nat, p: Pos)
    requires IsBoard(g, n) && InBounds(n, p) && At(g, p) != Empty
    requires forall q :: InBounds(n, q) && Adjacent(p, q) ==> At(g, q) == Empty
    ensures IsGroup(g, n, p, {p})
    ensures Liberties(g, n, {p}) == Elems(Neighbours(n, p))
    ensures |Liberties(g, n, {p})| == (if p.col < n - 1 then 1 else 0) + (if p.col > 0 then 1 else 0)
                                     + (if p.row < n - 1 then 1 else 0) + (if p.row > 0 then 1 else 0)
  {
    assert Elems([p]) == {p};
    assert IsGroupOrder(g, n, p, [p]);
    forall q
      ensures q in Liberties(g, n, {p}) <==> q in Elems(Neighbours(n, p))
    {
      LibertiesMember(g, n, {p}, q);
      NeighboursMember(n, p, q);
    }
    NeighboursCount(n, p);
    DistinctCard(Neighbours(n, p));
  }

  /** On a 9 by 9 board, a first stone in the centre has 4 liberties and one in the corner has 2. */
  lemma TestLibertyCounts()
    ensures var g := SetAt(EmptyGrid(9), Pos(4, 4), Stone(Black));
      IsGroup(g, 9, Pos(4, 4), {Pos(4, 4)}) && |Liberties(g, 9, {Pos(4, 4)})| == 4
    ensures var g := SetAt(EmptyGrid(9), Pos(0, 0), Stone(Black));
      IsGroup(g, 9, Pos(0, 0), {Pos(0, 0)}) && |Liberties(g, 9, {Pos(0, 0)})| == 2
  {
    LoneStoneLiberties(SetAt(EmptyGrid(9), Pos(4, 4), Stone(Black)), 9, Pos(4, 4));
    LoneStoneLiberties(SetAt(EmptyGrid(9), Pos(0, 0), Stone(Black)), 9, Pos(0, 0));
  }

  /** After an accepted move the point holds the mover's stone, so a second move there is refused. */
  lemma MoveOccupies(s: PyState, n: nat, p: Pos)
    requires IsBoard(s.board, n) && Black in s.captured && White in s.captured && LegalMove(s, n, p)
    ensures IsBoard(Moved(s, n, p).board, n)
    ensures At(Moved(s, n, p).board, p) == Stone(s.currentPlayer)
    ensures !LegalMove(Moved(s, n, p), n, p)
  {
    var me := s.currentPlayer;
    NotDead(SetAt(s.board, p, Stone(me)), n, p, Opponent(me));
  }

  /** From a fresh turn, one pass leaves the game running and the second in a row ends it. */
  lemma TwoPasses(s: PyState)
    requires !s.gameOver && s.passCount == 0
    ensures Passed(s).passCount == 1 && !Passed(s).gameOver
    ensures Passed(Passed(s)).passCount == 2 && Passed(Passed(s)).gameOver
  {
  }

  /** A `c` stone next to a dead `c` stone is dead too: dead groups are closed. */
  lemma DeadClosed(t: Grid, n: nat, c: Player, a: Pos, q: Pos)
    requires IsBoard(t, n) && a in Dead(t, n, c)
    requires InBounds(n, q) && Adjacent(a, q) && At(t, q) == Stone(c)
    ensures q in Dead(t, n, c)
  {
    var s, o :| IsGroupOrder(t, n, s, o) && At(t, s) == Stone(c) && Liberties(t, n, Elems(o)) == {} && a in o;
    assert a in Elems(o);
    assert q in Elems(o);
    InAllPositions(n, q);
  }

  /**
    A `c` group left after the dead `c` stones are cleared was already a group, none of its
    stones dead, and clearing only added liberties to it.
   */
  lemma ClearedGroupLift(t: Grid, n: nat, c: Player, s: Pos, o: seq<Pos>)
    requires IsBoard(t, n)
    requires IsGroupOrder(Cleared(t, n, Dead(t, n, c)), n, s, o)
    requires At(Cleared(t, n, Dead(t, n, c)), s) == Stone(c)
    ensures IsGroupOrder(t, n, s, o)
    ensures forall x :: x in Elems(o) ==> x !in Dead(t, n, c)
    ensures Liberties(t, n, Elems(o)) <= Liberties(Cleared(t, n, Dead(t, n, c)), n, Elems(o))
  {
    var D := Dead(t, n, c);
    var b := Cleared(t, n, D);
    var G := Elems(o);
    forall x | x in G
      ensures x !in D && At(t, x) == Stone(c)
    {
    }
    forall a, q | a in G && InBounds(n, q) && Adjacent(a, q) && At(t, q) == Stone(c)
      ensures q in G
    {
      if q in D {
        DeadClosed(t, n, c, q, a);
        assert false;
      } else {
        assert At(b, q) == Stone(c);
      }
    }
    assert IsGroupOrder(t, n, s, o);
    forall l | l in Liberties(t, n, G)
      ensures l in Liberties(b, n, G)
    {
      LibertiesMember(t, n, G, l);
      LibertiesMember(b, n, G, l);
    }
  }

  /** Removing the dead `c` groups leaves no `c` group without a liberty. */
  lemma NoDeadAfterCapture(t: Grid, n: nat, c: Player)
    requires IsBoard(t, n)
    ensures Dead(Cleared(t, n, Dead(t, n, c)), n, c) == {}
  {
    var D := Dead(t, n, c);
    var b := Cleared(t, n, D);
    if x :| x in Dead(b, n, c) {
      var s, o :| IsGroupOrder(b, n, s, o) && At(b, s) == Stone(c) && Liberties(b, n, Elems(o)) == {} && x in o;
      ClearedGroupLift(t, n, c, s, o);
      assert s in Elems(o);
      InAllPositions(n, s);
      assert InDeadGroup(t, n, s, c);
      assert false;
    }
  }

  /** An opponent group whose one liberty is the point played loses it and is captured. */
  lemma AtariCaptured(g: Grid, n: nat, p: Pos, me: Player, q: Pos)
    requires IsBoard(g, n) && InBounds(n, p) && At(g, p) == Empty
    requires InBounds(n, q) && Adjacent(p, q) && AtariGroup(g, n, q, Opponent(me))
    ensures q in Dead(SetAt(g, p, Stone(me)), n, Opponent(me))
  {
    var opp := Opponent(me);
    var t := SetAt(g, p, Stone(me));
    var o :| IsGroupOrder(g, n, q, o) && |Liberties(g, n, Elems(o))| == 1;
    var G := Elems(o);
    GroupKept(g, t, n, q, o);
    assert q in G;
    LibertiesMember(g, n, G, p);
    forall l | l in Liberties(t, n, G)
      ensures false
    {
      LibertiesMember(t, n, G, l);
      assert l != p;
      LibertiesMember(g, n, G, l);
      SingletonOnly(Liberties(g, n, G), l, p);
    }
    assert Liberties(t, n, G) == {};
    InAllPositions(n, q);
    assert InDeadGroup(t, n, q, opp);
  }

  /**
    A move `make_move` accepts never leaves the new stone's group without a liberty: either
    it had one already, or it captured a neighbouring group whose point is now empty.
   */
  lemma MoverHasLiberty(s: PyState, n: nat, p: Pos)
    requires IsBoard(s.board, n) && Black in s.captured && White in s.captured && LegalMove(s, n, p)
    ensures exists o :: IsGroupOrder(Moved(s, n, p).board, n, p, o) && Liberties(Moved(s, n, p).board, n, Elems(o)) != {}
  {
    var me := s.currentPlayer;
    var opp := Opponent(me);
    var g := s.board;
    var t := SetAt(g, p, Stone(me));
    var D := Dead(t, n, opp);
    var b := Cleared(t, n, D);
    assert b == Moved(s, n, p).board;
    GroupExists(t, n, p);
    var o :| IsGroupOrder(t, n, p, o);
    forall x | InBounds(n, x)
      ensures At(b, x) == At(t, p) <==> At(t, x) == At(t, p)
    {
      if At(t, x) != Stone(opp) {
        NotDead(t, n, x, opp);
      }
    }
    GroupKept(t, b, n, p, o);
    var G := Elems(o);
    assert p in G;
    if Liberties(t, n, G) == {} {
      SetAtSame(g, p);
      var q :| q in Neighbours(n, p) && AtariGroup(g, n, q, opp);
      NeighboursMember(n, p, q);
      AtariCaptured(g, n, p, me, q);
      LibertiesMember(b, n, G, q);
    } else {
      var l :| l in Liberties(t, n, G);
      LibertiesMember(t, n, G, l);
      LibertiesMember(b, n, G, l);
    }
  }

  class GoGame {
    const size: nat
    var board: Grid
    var currentPlayer: Player
    var passCount: int
    var gameOver: bool
    var captured: map<Player, int>
    var koPoint: Option<Pos>
    var moveHistory: seq<PyMove>

    ghost function State(): PyState
      reads this
    {
      PyState(board, currentPlayer, passCount, gameOver, captured, koPoint, moveHistory)
    }

    ghost predicate Valid()
      reads this
    {
      IsBoard(board, size) && Black in captured && White in captured
    }

    /** `__init__`: an empty board, black to move, no captures, no ko point, no history. */
    constructor(size: nat)
      ensures Valid() && this.size == size
      ensures State() == PyState(EmptyGrid(size), Black, 0, false, map[Black := 0, White := 0], None, [])
    {
      this.size := size;
      board := EmptyGrid(size);
      currentPlayer := Black;
      passCount := 0;
      gameOver := false;
      captured := map[Black := 0, White := 0];
      koPoint := None;
      moveHistory := [];
    }

    /** `is_valid_position`: the point is one of the board's points. */
    function IsValidPosition(row: int, col: int): (r: bool)
      ensures r <==> Pos(row, col) in AllPositions(size)
    {
      InAllPositions(size, Pos(row, col));
      0 <= row < size && 0 <= col < size
    }

    /** `remove_captured_groups` on the current board. */
    method RemoveCapturedGroups(opponent: Player) returns (count: nat)
      requires Valid()
      modifies this
      ensures Valid()
      ensures State() == old(State()).(board := Cleared(old(board), size, Dead(old(board), size, opponent)))
      ensures count == |Dead(old(board), size, opponent)|
    {
      board, count := RemoveCaptured(board, size, opponent);
    }

    /**
      `would_be_suicide`: places the stone, looks at its group's liberties, and puts the
      point back to empty; without a liberty, the move is still allowed when a neighbouring
      opponent group has a single liberty left.
     */
    method WouldBeSuicide(row: int, col: int, color: Player) returns (suicide: bool)
      requires Valid() && InBounds(size, Pos(row, col))
      modifies this
      ensures Valid()
      ensures State() == old(State()).(board := SetAt(old(board), Pos(row, col), Empty))
      ensures suicide <==> PySuicide(old(board), size, Pos(row, col), color)
    {
      var p := Pos(row, col);
      ghost var g := board;
      board := SetAt(board, p, Stone(color));
      var group := GetGroup(board, size, row, col);
      var libs := CountLiberties(board, size, group);
      ghost var t := board;
      board := SetAt(board, p, Empty);
      SetAtTwice(g, p, Stone(color), Empty);
      if libs > 0 {
        forall o | IsGroupOrder(t, size, p, o)
          ensures Liberties(t, size, Elems(o)) != {}
        {
          var o' :| IsGroupOrder(t, size, p, o') && Elems(o') == group;
          GroupUnique(t, size, p, o, o');
        }
        return false;
      }
      var saved := InAtariNext(board, size, row, col, Opponent(color));
      return !saved;
    }

    /**
      `make_move`: refuses the move when the game is over, the point is off the board,
      occupied, the ko point, or suicide; otherwise places the stone, resets the pass count,
      removes the opponent groups left without liberty and credits them to the mover, sets
      or clears the ko point, records the move and passes the turn.
     */
    method MakeMove(row: int, col: int) returns (ok: bool)
      requires Valid()
      modifies this
      ensures Valid()
      ensures ok <==> LegalMove(old(State()), size, Pos(row, col))
      ensures !ok ==> State() == old(State())
      ensures ok ==> InBounds(size, Pos(row, col)) && State() == Moved(old(State()), size, Pos(row, col))
    {
      if gameOver {
        return false;
      }
      if !IsValidPosition(row, col) {
        return false;
      }
      var p := Pos(row, col);
      if At(board, p) != Empty {
        return false;
      }
      if koPoint == Some(p) {
        return false;
      }
      ghost var s0 := State();
      var suicide := WouldBeSuicide(row, col, currentPlayer);
      SetAtSame(s0.board, p);
      if suicide {
        return false;
      }
      var me := currentPlayer;
      var opponent := Opponent(me);
      board := SetAt(board, p, Stone(me));
      NotDead(board, size, p, opponent);
      var count := RemoveCapturedGroups(opponent);
      var captured' := Credit(captured, me, count);
      var ko := UpdateKo(board, size, row, col, count, koPoint);
      var next := PyState(board, opponent, 0, gameOver, captured', ko, moveHistory + [Play(row, col, me)]);
      MovedIs(s0, size, p, next, count);
      SetState(next);
      return true;
    }

    /** Writes every field but the size. */
    method SetState(s: PyState)
      modifies this
      ensures State() == s
    {
      board, currentPlayer, passCount, gameOver := s.board, s.currentPlayer, s.passCount, s.gameOver;
      captured, koPoint, moveHistory := s.captured, s.koPoint, s.moveHistory;
    }

    /** `pass_move`: refused once the game is over; the second pass in a row ends the game. */
    method PassMove() returns (ok: bool)
      requires Valid()
      modifies this
      ensures Valid()
      ensures ok <==> !old(gameOver)
      ensures !ok ==> State() == old(State())
      ensures ok ==> State() == Passed(old(State()))
    {
      if gameOver {
        return false;
      }
      passCount := passCount + 1;
      moveHistory := moveHistory + [Pass(currentPlayer)];
      if passCount >= 2 {
        gameOver := true;
      }
      currentPlayer := Opponent(currentPlayer);
      koPoint := None;
      return true;
    }
  }
}
