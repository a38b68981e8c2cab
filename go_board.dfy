/**
  Vocabulary shared by the two Go engines (go.js and go_game.py): players, board points,
  positions, orthogonal adjacency, and what it means for a list of stones to be the group
  of a stone and for a set of points to be its liberties.
 */
module GoBoard {

  import opened Wrappers

  datatype Player = Black | White

  /** A board point: empty, or holding a stone of one player. */
  datatype Point = Empty | Stone(owner: Player)

  datatype Pos = Pos(row: int, col: int)

  /** A board as rows of points, indexed `g[row][col]`. */
  type Grid = seq<seq<Point>>

  function Opponent(p: Player): (q: Player)
    ensures q != p
  {
    if p == Black then White else Black
  }

  /** `g` is an `n` by `n` board. */
  predicate IsBoard(g: Grid, n: nat)
  {
    |g| == n && forall r :: 0 <= r < n ==> |g[r]| == n
  }

  predicate InBounds(n: int, p: Pos)
  {
    0 <= p.row < n && 0 <= p.col < n
  }

  function At(g: Grid, p: Pos): Point
    requires 0 <= p.row < |g| && 0 <= p.col < |g[p.row]|
  {
    g[p.row][p.col]
  }

  /** The board `g` with the single point `p` set to `v`. */
  function SetAt(g: Grid, p: Pos, v: Point): (h: Grid)
    requires 0 <= p.row < |g| && 0 <= p.col < |g[p.row]|
    ensures |h| == |g| && forall r :: 0 <= r < |g| ==> |h[r]| == |g[r]|
    ensures At(h, p) == v
    ensures forall q: Pos {:trigger At(h, q)} :: 0 <= q.row < |g| && 0 <= q.col < |g[q.row]| && q != p ==> At(h, q) == At(g, q)
  {
    g[p.row := g[p.row][p.col := v]]
  }

  /** The board `g` with the points of `cells` set to `v`, one after the other. */
  function Paint(g: Grid, cells: seq<Pos>, v: Point): (h: Grid)
    requires forall c :: c in cells ==> 0 <= c.row < |g| && 0 <= c.col < |g[c.row]|
    ensures |h| == |g| && forall r :: 0 <= r < |g| ==> |h[r]| == |g[r]|
    ensures forall q: Pos {:trigger At(h, q)} :: 0 <= q.row < |g| && 0 <= q.col < |g[q.row]| ==>
      At(h, q) == if q in cells then v else At(g, q)
    decreases |cells|
  {
    if cells == [] then g
    else SetAt(Paint(g, cells[..|cells| - 1], v), cells[|cells| - 1], v)
  }

  /** Two boards of the same shape that agree on every point are equal. */
  lemma {:induction false} GridExt(g: Grid, h: Grid)
    requires |g| == |h| && forall r :: 0 <= r < |g| ==> |g[r]| == |h[r]|
    requires forall q: Pos :: 0 <= q.row < |g| && 0 <= q.col < |g[q.row]| ==> At(g, q) == At(h, q)
    ensures g == h
  {
    forall r | 0 <= r < |g|
      ensures g[r] == h[r]
    {
      forall c | 0 <= c < |g[r]|
        ensures g[r][c] == h[r][c]
      {
        assert At(g, Pos(r, c)) == At(h, Pos(r, c));
      }
    }
  }

  /** Painting one more cell of a list is a single-point update. */
  lemma PaintStep(g: Grid, cells: seq<Pos>, i: nat, v: Point)
    requires i < |cells| && forall c :: c in cells ==> 0 <= c.row < |g| && 0 <= c.col < |g[c.row]|
    ensures Paint(g, cells[..i + 1], v) == SetAt(Paint(g, cells[..i], v), cells[i], v)
  {
    assert cells[..i + 1][..i] == cells[..i];
  }

  /** Writing back the old value of a point undoes a single-point update. */
  lemma SetAtRestore(g: Grid, p: Pos, v: Point)
    requires 0 <= p.row < |g| && 0 <= p.col < |g[p.row]|
    ensures SetAt(SetAt(g, p, v), p, At(g, p)) == g
  {
    var h := SetAt(SetAt(g, p, v), p, At(g, p));
    GridExt(h, g);
  }

  /** Writing a point's own value changes nothing. */
  lemma SetAtSame(g: Grid, p: Pos)
    requires 0 <= p.row < |g| && 0 <= p.col < |g[p.row]|
    ensures SetAt(g, p, At(g, p)) == g
  {
    GridExt(SetAt(g, p, At(g, p)), g);
  }

  /** The second of two updates of the same point wins. */
  lemma SetAtTwice(g: Grid, p: Pos, v: Point, w: Point)
    requires 0 <= p.row < |g| && 0 <= p.col < |g[p.row]|
    ensures SetAt(SetAt(g, p, v), p, w) == SetAt(g, p, w)
  {
    GridExt(SetAt(SetAt(g, p, v), p, w), SetAt(g, p, w));
  }

  lemma SubsetCard<T>(a: set<T>, b: set<T>)
    requires a <= b
    ensures |a| <= |b|
  {
    assert b == a + (b - a);
  }

  /** A set of one element holds nothing else. */
  lemma SingletonOnly<T>(s: set<T>, x: T, y: T)
    requires |s| == 1 && x in s && y in s
    ensures x == y
  {
    if x != y {
      SubsetCard({x, y}, s);
    }
  }

  /** Orthogonal (4-) adjacency. */
  predicate Adjacent(p: Pos, q: Pos)
  {
    (p.row == q.row && (p.col == q.col + 1 || q.col == p.col + 1)) ||
    (p.col == q.col && (p.row == q.row + 1 || q.row == p.row + 1))
  }

  function Elems(s: seq<Pos>): set<Pos>
  {
    set x | x in s
  }

  /** A list without repetition has as many elements as its set of elements. */
  lemma {:induction false} DistinctCard(s: seq<Pos>)
    requires Distinct(s)
    ensures |Elems(s)| == |s|
  {
    if s != [] {
      var init := s[..|s| - 1];
      assert Distinct(init);
      DistinctCard(init);
      assert Elems(s) == Elems(init) + {s[|s| - 1]};
    }
  }

  /** `q` is adjacent to some element of `s`. */
  ghost predicate NextTo(s: seq<Pos>, q: Pos)
  {
    exists j :: 0 <= j < |s| && Adjacent(s[j], q)
  }

  /** Every element after the first is adjacent to some earlier element: `s` spans a connected set. */
  ghost predicate Linked(s: seq<Pos>)
  {
    forall i {:trigger NextTo(s[..i], s[i])} :: 0 < i < |s| ==> NextTo(s[..i], s[i])
  }

  lemma NextToGrow(s: seq<Pos>, x: Pos, q: Pos)
    requires NextTo(s, q)
    ensures NextTo(s + [x], q)
  {
    var j :| 0 <= j < |s| && Adjacent(s[j], q);
    assert (s + [x])[j] == s[j];
  }

  lemma NextToLast(s: seq<Pos>, q: Pos)
    requires |s| > 0 && Adjacent(s[|s| - 1], q)
    ensures NextTo(s, q)
  {
  }

  /** Appending a point next to an earlier one keeps a list linked. */
  lemma LinkedSnoc(s: seq<Pos>, x: Pos)
    requires Linked(s) && (|s| == 0 || NextTo(s, x))
    ensures Linked(s + [x])
  {
    var t := s + [x];
    forall i | 0 < i < |t|
      ensures NextTo(t[..i], t[i])
    {
      if i < |s| {
        assert t[..i] == s[..i] && t[i] == s[i];
      } else {
        assert t[..i] == s && t[i] == x;
      }
    }
  }

  /** Every point of `s` is on the board and holds `c`. */
  ghost predicate SameColour(g: Grid, n: nat, s: set<Pos>, c: Point)
    requires IsBoard(g, n)
  {
    forall q :: q in s ==> InBounds(n, q) && At(g, q) == c
  }

  /** No point holding `c` is adjacent to `s` without being in `s`. */
  ghost predicate Closed(g: Grid, n: nat, s: set<Pos>, c: Point)
    requires IsBoard(g, n)
  {
    forall a, q :: a in s && InBounds(n, q) && Adjacent(a, q) && At(g, q) == c ==> q in s
  }

  lemma ClosedUnion(g: Grid, n: nat, s: set<Pos>, t: set<Pos>, c: Point)
    requires IsBoard(g, n) && Closed(g, n, s, c) && Closed(g, n, t, c)
    ensures Closed(g, n, s + t, c)
  {
    forall a, q | a in s + t && InBounds(n, q) && Adjacent(a, q) && At(g, q) == c
      ensures q in s + t
    {
      if a in s {
        assert q in s;
      } else {
        assert q in t;
      }
    }
  }

  /**
    `order` lists, without repetition and starting at `start`, exactly the points connected
    to `start` through points of its colour: the group of a stone, or the empty area around
    an empty point.
   */
  ghost predicate IsGroupOrder(g: Grid, n: nat, start: Pos, order: seq<Pos>)
    requires IsBoard(g, n)
  {
    && InBounds(n, start)
    && |order| > 0 && order[0] == start
    && Distinct(order) && Linked(order)
    && SameColour(g, n, Elems(order), At(g, start))
    && Closed(g, n, Elems(order), At(g, start))
  }

  ghost function AllPositions(n: nat): set<Pos>
  {
    set r, c | 0 <= r < n && 0 <= c < n :: Pos(r, c)
  }

  lemma InAllPositions(n: nat, q: Pos)
    ensures q in AllPositions(n) <==> InBounds(n, q)
  {
    if InBounds(n, q) {
      assert q == Pos(q.row, q.col);
    }
  }

  /** The liberties of the stones `s`: the empty points adjacent to one of them. */
  ghost function Liberties(g: Grid, n: nat, s: set<Pos>): set<Pos>
    requires IsBoard(g, n)
  {
    set q | q in AllPositions(n) && InBounds(n, q) && At(g, q) == Empty && exists a :: a in s && Adjacent(a, q)
  }

  lemma LibertiesMember(g: Grid, n: nat, s: set<Pos>, q: Pos)
    requires IsBoard(g, n)
    ensures q in Liberties(g, n, s) <==> InBounds(n, q) && At(g, q) == Empty && exists a :: a in s && Adjacent(a, q)
  {
    InAllPositions(n, q);
  }

  /** A group has no liberty exactly when every on-board neighbour of each of its stones is occupied. */
  lemma NoLibertiesIff(g: Grid, n: nat, s: set<Pos>)
    requires IsBoard(g, n)
    ensures Liberties(g, n, s) == {} <==>
      forall a, q :: a in s && InBounds(n, q) && Adjacent(a, q) ==> At(g, q) != Empty
  {
    if Liberties(g, n, s) == {} {
      forall a, q | a in s && InBounds(n, q) && Adjacent(a, q)
        ensures At(g, q) != Empty
      {
        LibertiesMember(g, n, s, q);
      }
    } else {
      var q :| q in Liberties(g, n, s);
      LibertiesMember(g, n, s, q);
    }
  }

  /** `p` has no on-board neighbour of its own colour. */
  ghost predicate LoneStone(g: Grid, n: nat, p: Pos)
    requires IsBoard(g, n) && InBounds(n, p)
  {
    forall q :: InBounds(n, q) && Adjacent(p, q) ==> At(g, q) != At(g, p)
  }

  /** Element `i` of a linked list of `c`-stones that starts inside a `c`-closed set lies in that set. */
  lemma {:induction false} LinkedInsideAt(g: Grid, n: nat, order: seq<Pos>, s: set<Pos>, c: Point, i: nat)
    requires IsBoard(g, n)
    requires |order| > 0 && order[0] in s && Linked(order)
    requires SameColour(g, n, Elems(order), c) && Closed(g, n, s, c)
    requires i < |order|
    ensures order[i] in s
    decreases i
  {
    if i > 0 {
      assert NextTo(order[..i], order[i]);
      var j :| 0 <= j < i && Adjacent(order[..i][j], order[i]);
      assert order[..i][j] == order[j];
      LinkedInsideAt(g, n, order, s, c, j);
      assert order[i] in Elems(order);
    }
  }

  lemma LinkedInside(g: Grid, n: nat, order: seq<Pos>, s: set<Pos>, c: Point)
    requires IsBoard(g, n)
    requires |order| > 0 && order[0] in s && Linked(order)
    requires SameColour(g, n, Elems(order), c) && Closed(g, n, s, c)
    ensures Elems(order) <= s
  {
    forall x | x in Elems(order)
      ensures x in s
    {
      var i :| 0 <= i < |order| && order[i] == x;
      LinkedInsideAt(g, n, order, s, c, i);
    }
  }

  /** The group of a stone is unique as a set, whatever order a search lists it in. */
  lemma GroupUnique(g: Grid, n: nat, start: Pos, o1: seq<Pos>, o2: seq<Pos>)
    requires IsBoard(g, n)
    requires IsGroupOrder(g, n, start, o1) && IsGroupOrder(g, n, start, o2)
    ensures Elems(o1) == Elems(o2)
  {
    LinkedInside(g, n, o1, Elems(o2), At(g, start));
    LinkedInside(g, n, o2, Elems(o1), At(g, start));
  }

  /** Walking back from element `k` of a linked list of `c`-points that meets a `c`-closed set reaches its first element inside the set. */
  lemma {:induction false} LinkedRootInside(g: Grid, n: nat, order: seq<Pos>, s: set<Pos>, c: Point, k: nat)
    requires IsBoard(g, n)
    requires Linked(order) && k < |order| && order[k] in s
    requires SameColour(g, n, Elems(order), c) && Closed(g, n, s, c)
    ensures order[0] in s
    decreases k
  {
    if k > 0 {
      assert NextTo(order[..k], order[k]);
      var j :| 0 <= j < k && Adjacent(order[..k][j], order[k]);
      assert order[..k][j] == order[j];
      assert order[j] in Elems(order);
      assert Adjacent(order[k], order[j]);
      LinkedRootInside(g, n, order, s, c, j);
    }
  }

  /** Two groups (or empty areas) that share a point are the same set of points. */
  lemma GroupsMeet(g: Grid, n: nat, s1: Pos, o1: seq<Pos>, s2: Pos, o2: seq<Pos>, x: Pos)
    requires IsBoard(g, n)
    requires IsGroupOrder(g, n, s1, o1) && IsGroupOrder(g, n, s2, o2)
    requires x in o1 && x in o2
    ensures Elems(o1) == Elems(o2)
  {
    assert x in Elems(o1) && x in Elems(o2);
    var k1 :| 0 <= k1 < |o1| && o1[k1] == x;
    var k2 :| 0 <= k2 < |o2| && o2[k2] == x;
    LinkedRootInside(g, n, o1, Elems(o2), At(g, s1), k1);
    LinkedRootInside(g, n, o2, Elems(o1), At(g, s2), k2);
    LinkedInside(g, n, o1, Elems(o2), At(g, s1));
    LinkedInside(g, n, o2, Elems(o1), At(g, s2));
  }

  /**
    Every on-board point has a group (or empty area): a linked list of points of its colour
    that is not yet closed can be extended by a missing neighbour until it is.
   */
  lemma {:induction false} GroupFrom(g: Grid, n: nat, p: Pos, o: seq<Pos>)
    requires IsBoard(g, n) && InBounds(n, p)
    requires |o| > 0 && o[0] == p && Distinct(o) && Linked(o)
    requires SameColour(g, n, Elems(o), At(g, p))
    ensures exists o' :: IsGroupOrder(g, n, p, o')
    decreases AllPositions(n) - Elems(o)
  {
    if Closed(g, n, Elems(o), At(g, p)) {
      assert IsGroupOrder(g, n, p, o);
    } else {
      var a, q :| a in Elems(o) && InBounds(n, q) && Adjacent(a, q) && At(g, q) == At(g, p) && q !in Elems(o);
      var j :| 0 <= j < |o| && o[j] == a;
      assert NextTo(o, q);
      LinkedSnoc(o, q);
      var o' := o + [q];
      assert Elems(o') == Elems(o) + {q};
      assert Distinct(o') by {
        forall i, k | 0 <= i < k < |o'|
          ensures o'[i] != o'[k]
        {
          if k < |o| {
            assert o'[i] == o[i] && o'[k] == o[k];
          } else {
            assert o'[i] in Elems(o);
          }
        }
      }
      forall x | x in Elems(o)
        ensures x in AllPositions(n)
      {
        InAllPositions(n, x);
      }
      InAllPositions(n, q);
      GroupFrom(g, n, p, o');
    }
  }

  lemma GroupExists(g: Grid, n: nat, p: Pos)
    requires IsBoard(g, n) && InBounds(n, p)
    ensures exists o :: IsGroupOrder(g, n, p, o)
  {
    assert Elems([p]) == {p};
    GroupFrom(g, n, p, [p]);
  }

  /** A group stays a group on a board where exactly the same points hold its colour. */
  lemma GroupKept(g: Grid, h: Grid, n: nat, s: Pos, o: seq<Pos>)
    requires IsBoard(g, n) && IsBoard(h, n) && IsGroupOrder(g, n, s, o)
    requires forall q :: InBounds(n, q) ==> (At(h, q) == At(g, s) <==> At(g, q) == At(g, s))
    ensures IsGroupOrder(h, n, s, o)
  {
    assert At(h, s) == At(g, s);
  }

  /** A group has a single stone exactly when that stone has no neighbour of its colour. */
  lemma GroupSingleIffLone(g: Grid, n: nat, p: Pos, order: seq<Pos>)
    requires IsBoard(g, n) && IsGroupOrder(g, n, p, order)
    ensures |order| == 1 <==> LoneStone(g, n, p)
  {
    if |order| == 1 {
      forall q | InBounds(n, q) && Adjacent(p, q)
        ensures At(g, q) != At(g, p)
      {
        assert p in Elems(order);
      }
    } else {
      assert NextTo(order[..1], order[1]);
      var j :| 0 <= j < 1 && Adjacent(order[..1][j], order[1]);
      assert order[..1][j] == order[0];
      assert order[1] in Elems(order);
    }
  }
}
