/** Coordinates, square colour grids, orthogonal adjacency and 4-connected regions:
    the geometry that Board and Game of game.py work over. */
module Grid {

  datatype Option<T> = None | Some(value: T)

  /** A tile coordinate (x, y): x selects the row, y the column; the origin is (0, 0). */
  type Cell = (int, int)

  predicate InBounds(n: int, c: Cell) {
    0 <= c.0 < n && 0 <= c.1 < n
  }

  /** Every row is as long as there are rows: an n×n colour matrix with n = |g|. */
  predicate Square(g: seq<seq<int>>) {
    forall i | 0 <= i < |g| :: |g[i]| == |g|
  }

  function At(g: seq<seq<int>>, c: Cell): int
    requires Square(g) && InBounds(|g|, c)
  {
    g[c.0][c.1]
  }

  /** All coordinates of an n×n grid. */
  function Cells(n: int): (r: set<Cell>)
    ensures forall c :: c in r <==> InBounds(n, c)
  {
    var r := set i, j | 0 <= i < n && 0 <= j < n :: (i, j);
    assert forall c | InBounds(n, c) :: c == (c.0, c.1) && (c.0, c.1) in r;
    r
  }

  /** The colours present on the grid. */
  function Colours(g: seq<seq<int>>): (r: set<int>)
    requires Square(g)
    ensures r == {} <==> |g| == 0
  {
    var r := set i, j | 0 <= i < |g| && 0 <= j < |g| :: g[i][j];
    assert |g| >= 1 ==> g[0][0] in r;
    r
  }

  lemma ColourOnGrid(g: seq<seq<int>>, c: Cell)
    requires Square(g) && InBounds(|g|, c)
    ensures At(g, c) in Colours(g)
  {
    var i, j := c.0, c.1;
    assert g[i][j] in Colours(g);
  }

  /** Every tile's colour is present on the grid, and every colour present is some tile's. */
  lemma ColoursSpec(g: seq<seq<int>>)
    requires Square(g)
    ensures forall c | InBounds(|g|, c) :: At(g, c) in Colours(g)
    ensures forall k | k in Colours(g) :: exists c :: InBounds(|g|, c) && At(g, c) == k
  {
    forall c | InBounds(|g|, c) ensures At(g, c) in Colours(g) {
      ColourOnGrid(g, c);
    }
    forall k | k in Colours(g) ensures exists c :: InBounds(|g|, c) && At(g, c) == k {
      var i, j :| 0 <= i < |g| && 0 <= j < |g| && g[i][j] == k;
      assert InBounds(|g|, (i, j)) && At(g, (i, j)) == k;
    }
  }

  // ---------------------------------------------------------------- adjacency

  function Abs(k: int): nat {
    if k < 0 then -k else k
  }

  /** Orthogonal neighbours: Manhattan distance exactly one. */
  predicate Adj(a: Cell, b: Cell) {
    Abs(a.0 - b.0) + Abs(a.1 - b.1) == 1
  }

  /** The four orthogonal candidates of (x, y) in the order get_adjacent tries them:
      (x-1, y), (x+1, y), (x, y-1), (x, y+1). */
  function Around(x: int, y: int): seq<Cell> {
    [(x - 1, y), (x + 1, y), (x, y - 1), (x, y + 1)]
  }

  /** The position of b among the candidates Around(a.0, a.1); 4 when b is none of them. */
  function Direction(a: Cell, b: Cell): nat {
    if b == (a.0 - 1, a.1) then 0
    else if b == (a.0 + 1, a.1) then 1
    else if b == (a.0, a.1 - 1) then 2
    else if b == (a.0, a.1 + 1) then 3
    else 4
  }

  /** The members of s that lie on an n×n grid, in the order of s. */
  function KeepInBounds(n: int, s: seq<Cell>): seq<Cell> {
    if s == [] then []
    else KeepInBounds(n, s[..|s| - 1]) + (if InBounds(n, s[|s| - 1]) then [s[|s| - 1]] else [])
  }

  /** The in-grid orthogonal neighbours of (x, y), as get_adjacent lists them. */
  function Adjacent(n: int, x: int, y: int): (r: seq<Cell>)
    ensures |r| <= 4
    ensures forall d | d in r :: InBounds(n, d) && Adj((x, y), d)
  {
    KeepInBoundsMembers(n, Around(x, y));
    KeepInBounds(n, Around(x, y))
  }

  lemma {:induction false} KeepInBoundsMembers(n: int, s: seq<Cell>)
    ensures forall d :: d in KeepInBounds(n, s) <==> d in s && InBounds(n, d)
    ensures |KeepInBounds(n, s)| <= |s|
  {
    if s != [] {
      KeepInBoundsMembers(n, s[..|s| - 1]);
      assert s == s[..|s| - 1] + [s[|s| - 1]];
    }
  }

  lemma {:induction false} KeepInBoundsOrdered(n: int, s: seq<Cell>, a: Cell)
    requires forall i, j | 0 <= i < j < |s| :: Direction(a, s[i]) < Direction(a, s[j])
    ensures forall i, j | 0 <= i < j < |KeepInBounds(n, s)| ::
      Direction(a, KeepInBounds(n, s)[i]) < Direction(a, KeepInBounds(n, s)[j])
  {
    if s != [] {
      var init := s[..|s| - 1];
      KeepInBoundsOrdered(n, init, a);
      KeepInBoundsMembers(n, init);
      var k := KeepInBounds(n, init);
      forall d | d in k ensures Direction(a, d) < Direction(a, s[|s| - 1]) {
        var i :| 0 <= i < |init| && init[i] == d;
      }
    }
  }

  /** get_adjacent lists exactly the in-grid cells at Manhattan distance one, at most four of them,
      in the order up, down, left, right (so without repetition). */
  lemma AdjacentSpec(n: int, x: int, y: int)
    ensures forall d :: d in Adjacent(n, x, y) <==> InBounds(n, d) && Adj((x, y), d)
    ensures |Adjacent(n, x, y)| <= 4
    ensures forall i, j | 0 <= i < j < |Adjacent(n, x, y)| ::
      Direction((x, y), Adjacent(n, x, y)[i]) < Direction((x, y), Adjacent(n, x, y)[j])
  {
    var s := Around(x, y);
    KeepInBoundsMembers(n, s);
    KeepInBoundsOrdered(n, s, (x, y));
    forall d | Adj((x, y), d) ensures d in s {
      if d.0 == x - 1 { assert d == s[0]; }
      else if d.0 == x + 1 { assert d == s[1]; }
      else if d.1 == y - 1 { assert d == s[2]; }
      else { assert d == s[3]; }
    }
  }

  // ---------------------------------------------------------------- regions

  /** p walks inside S from a to b, each step between orthogonal neighbours. */
  ghost predicate Walk(p: seq<Cell>, S: set<Cell>, a: Cell, b: Cell) {
    && |p| >= 1 && p[0] == a && p[|p| - 1] == b
    && (forall k | 0 <= k < |p| :: p[k] in S)
    && (forall i, j | 0 <= i < |p| && j == i + 1 < |p| :: Adj(p[i], p[j]))
  }

  ghost predicate Connects(S: set<Cell>, a: Cell, b: Cell) {
    exists p :: Walk(p, S, a, b)
  }

  /** The cells of colour t. */
  function TargetCells(g: seq<seq<int>>, t: int): set<Cell>
    requires Square(g)
  {
    set c | c in Cells(|g|) && At(g, c) == t
  }

  /** The 4-connected region of colour t containing start: empty when start is off the grid or
      not of colour t. */
  ghost function Component(g: seq<seq<int>>, start: Cell, t: int): (r: set<Cell>)
    requires Square(g)
    ensures r <= TargetCells(g, t)
    ensures InBounds(|g|, start) && At(g, start) == t ==> start in r
  {
    var T := TargetCells(g, t);
    if start in T then
      ConnectsRefl(T, start);
      set c | c in T && Connects(T, start, c)
    else
      set c | c in T && Connects(T, start, c)
  }

  lemma ConnectsRefl(S: set<Cell>, a: Cell)
    requires a in S
    ensures Connects(S, a, a)
  {
    assert Walk([a], S, a, a);
  }

  lemma ConnectsMono(S: set<Cell>, T: set<Cell>, a: Cell, b: Cell)
    requires S <= T && Connects(S, a, b)
    ensures Connects(T, a, b)
  {
    var p :| Walk(p, S, a, b);
    assert Walk(p, T, a, b);
  }

  /** A walk from b extends by one step back to a neighbour a of b. */
  lemma ConnectsPrepend(S: set<Cell>, a: Cell, b: Cell, c: Cell)
    requires a in S && Adj(a, b) && Connects(S, b, c)
    ensures Connects(S, a, c)
  {
    var p :| Walk(p, S, b, c);
    var q := [a] + p;
    forall i, j | 0 <= i < |q| && j == i + 1 < |q| ensures Adj(q[i], q[j]) {
      if i > 0 {
        assert q[i] == p[i - 1] && q[j] == p[j - 1];
      }
    }
    assert Walk(q, S, a, c);
  }

  /** A set F that holds the start of a walk in S, and that every step inside S from F stays in,
      holds the end of the walk. */
  lemma {:induction false} WalkStaysIn(p: seq<Cell>, S: set<Cell>, F: set<Cell>, a: Cell, b: Cell)
    requires Walk(p, S, a, b) && a in F
    requires forall u, v | u in F && v in S && Adj(u, v) :: v in F
    ensures b in F
    decreases |p|
  {
    if |p| > 1 {
      assert Adj(p[0], p[1]);
      assert Walk(p[1..], S, p[1], b);
      WalkStaysIn(p[1..], S, F, p[1], b);
    }
  }

  // ---------------------------------------------------------------- recolouring

  /** h is g with exactly the on-grid cells of S recoloured r; every other cell keeps its colour. */
  ghost predicate RepaintedFrom(h: seq<seq<int>>, g: seq<seq<int>>, S: set<Cell>, r: int) {
    && Square(g) && |h| == |g| && Square(h)
    && forall c {:trigger At(h, c)} | InBounds(|g|, c) :: At(h, c) == if c in S then r else At(g, c)
  }

  lemma RepaintExists(g: seq<seq<int>>, S: set<Cell>, r: int)
    requires Square(g)
    ensures exists h :: RepaintedFrom(h, g, S, r)
  {
    var h := seq(|g|, i requires 0 <= i < |g| =>
      seq(|g|, j requires 0 <= j < |g| => if (i, j) in S then r else g[i][j]));
    assert RepaintedFrom(h, g, S, r);
  }

  ghost function Repaint(g: seq<seq<int>>, S: set<Cell>, r: int): (h: seq<seq<int>>)
    requires Square(g)
    ensures RepaintedFrom(h, g, S, r)
  {
    RepaintExists(g, S, r);
    var h :| RepaintedFrom(h, g, S, r); h
  }

  /** RepaintedFrom determines the grid it describes. */
  lemma RepaintedFromIsRepaint(h: seq<seq<int>>, g: seq<seq<int>>, S: set<Cell>, r: int)
    requires RepaintedFrom(h, g, S, r)
    ensures h == Repaint(g, S, r)
  {
    var R := Repaint(g, S, r);
    forall i | 0 <= i < |g| ensures h[i] == R[i] {
      forall j | 0 <= j < |g| ensures h[i][j] == R[i][j] {
        assert At(h, (i, j)) == At(R, (i, j));
      }
    }
  }

  /** The region of colour t at start, recoloured r: the effect of a flood fill from start. */
  ghost function Fill(g: seq<seq<int>>, start: Cell, t: int, r: int): (h: seq<seq<int>>)
    requires Square(g)
    ensures RepaintedFrom(h, g, Component(g, start, t), r)
  {
    Repaint(g, Component(g, start, t), r)
  }

  /** Filling a region with its own colour leaves the grid as it was. */
  lemma FillOwnColour(g: seq<seq<int>>, start: Cell, t: int)
    requires Square(g)
    ensures Fill(g, start, t, t) == g
  {
    var h := Fill(g, start, t, t);
    assert RepaintedFrom(h, g, Component(g, start, t), t);
    assert RepaintedFrom(g, g, Component(g, start, t), t);
    RepaintedFromIsRepaint(g, g, Component(g, start, t), t);
  }

  /** A fill introduces no colour other than the replacement. */
  lemma FillColours(g: seq<seq<int>>, start: Cell, t: int, r: int)
    requires Square(g)
    ensures Colours(Fill(g, start, t, r)) <= Colours(g) + {r}
  {
    var h := Fill(g, start, t, r);
    assert RepaintedFrom(h, g, Component(g, start, t), r);
    ColoursSpec(g);
    ColoursSpec(h);
    forall k | k in Colours(h) ensures k in Colours(g) + {r} {
      var c :| InBounds(|h|, c) && At(h, c) == k;
      assert At(g, c) in Colours(g);
    }
  }
}
