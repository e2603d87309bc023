/** The Game class of game.py:56-167: the flood fill that makes a move, the greedy and
    lookahead colour choices, and the play loop, as methods over a Board. Each method is proved
    against the board-value functions of module Strategy. */
module Games {
  import opened Grid
  import opened Selection
  import opened Boards
  import opened Strategy

  /** The cells of S that lie on g and have colour t: the tiles a flood fill repaints among
      the cells it visits. */
  ghost function Filled(g: seq<seq<int>>, S: set<Cell>, t: int): set<Cell>
    requires Square(g)
  {
    set c | c in S && InBounds(|g|, c) && At(g, c) == t
  }

  /** Every on-grid neighbour of a cell of F has been visited. */
  ghost predicate Closed(n: int, F: set<Cell>, V: set<Cell>) {
    forall c, d | c in F && InBounds(n, d) && Adj(c, d) :: d in V
  }

  /** Every cell of F is reachable from start by a walk inside F. */
  ghost predicate ConnectedFrom(F: set<Cell>, start: Cell) {
    forall c {:trigger Connects(F, start, c)} | c in F :: Connects(F, start, c)
  }

  /** What a flood fill from start achieved between visiting V0 and visiting V, on the board B
      it started from, leaving the board G: the repainted tiles are the newly visited cells of
      colour t, recoloured r, and nothing else changed; size counts them; every on-board
      neighbour of a repainted tile has been visited; and the repainted tiles are connected from
      start. */
  ghost predicate Outcome(n: int, B: seq<seq<int>>, G: seq<seq<int>>, V0: set<Cell>, V: set<Cell>,
                          start: Cell, t: int, r: int, size: int)
    ensures Outcome(n, B, G, V0, V, start, t, r, size) ==>
              |G| == n && Square(G) && start in V && 0 <= size <= |V - V0|
  {
    && Square(B) && |B| == n && V0 <= V && start in V
    && var F := Filled(B, V - V0, t);
       assert V - V0 == F + (V - V0 - F);
       && RepaintedFrom(G, B, F, r)
       && size == |F|
       && Closed(n, F, V)
       && ConnectedFrom(F, start)
  }

  /** The state of a fill from start part-way through its neighbours: start has been repainted,
      the neighbours in done have been filled from, and every on-board neighbour of any other
      repainted tile has been visited. */
  ghost predicate Partial(n: int, B: seq<seq<int>>, G: seq<seq<int>>, V0: set<Cell>, V: set<Cell>,
                          start: Cell, t: int, r: int, size: int, done: seq<Cell>)
  {
    && Square(B) && |B| == n && V0 + {start} <= V
    && start in Filled(B, V - V0, t)
    && RepaintedFrom(G, B, Filled(B, V - V0, t), r)
    && size == |Filled(B, V - V0, t)|
    && (forall c, d | c in Filled(B, V - V0, t) && c != start && InBounds(n, d) && Adj(c, d) :: d in V)
    && (forall k | 0 <= k < |done| :: done[k] in V)
    && ConnectedFrom(Filled(B, V - V0, t), start)
  }

  /** A fill that stops at a cell already visited, off the board or of another colour repaints
      nothing. */
  lemma NothingFilled(n: int, B: seq<seq<int>>, V0: set<Cell>, start: Cell, t: int, r: int)
    requires Square(B) && |B| == n
    requires start in V0 || !InBounds(n, start) || At(B, start) != t
    ensures Outcome(n, B, B, V0, V0 + {start}, start, t, r, 0)
  {
    var F := Filled(B, V0 + {start} - V0, t);
    assert F == {};
  }

  /** Repainting start opens a fill from it. */
  lemma StartFill(n: int, B: seq<seq<int>>, G: seq<seq<int>>, V0: set<Cell>, start: Cell, t: int, r: int)
    requires Square(B) && |B| == n && start !in V0 && InBounds(n, start) && At(B, start) == t
    requires RepaintedFrom(G, B, {start}, r)
    ensures Partial(n, B, G, V0, V0 + {start}, start, t, r, 1, [])
  {
    assert Filled(B, V0 + {start} - V0, t) == {start};
    ConnectsRefl({start}, start);
  }

  /** A sub-fill from a neighbour next of start, run on the board the earlier repaints produced,
      extends the fill from start: the tiles it repaints are disjoint from the earlier ones and
      still connected to start. */
  lemma AbsorbSubFill(n: int, B: seq<seq<int>>, G1: seq<seq<int>>, G2: seq<seq<int>>,
                      V0: set<Cell>, V1: set<Cell>, V2: set<Cell>, start: Cell, next: Cell,
                      t: int, r: int, size: int, added: int, done: seq<Cell>)
    requires Partial(n, B, G1, V0, V1, start, t, r, size, done)
    requires Outcome(n, G1, G2, V1, V2, next, t, r, added)
    requires Adj(start, next)
    ensures Partial(n, B, G2, V0, V2, start, t, r, size + added, done + [next])
  {
    var F1 := Filled(B, V1 - V0, t);
    var F2 := Filled(G1, V2 - V1, t);
    assert F2 == Filled(B, V2 - V1, t) by {
      forall c | InBounds(|B|, c) && c !in V1 ensures At(G1, c) == At(B, c) {
      }
    }
    var F := Filled(B, V2 - V0, t);
    assert F == F1 + F2 && F1 !! F2;
    forall c | InBounds(|B|, c) ensures At(G2, c) == if c in F then r else At(B, c) {
      assert At(G2, c) == if c in F2 then r else At(G1, c);
      assert At(G1, c) == if c in F1 then r else At(B, c);
    }
    forall c | c in F ensures Connects(F, start, c) {
      if c in F1 {
        assert Connects(F1, start, c);
        ConnectsMono(F1, F, start, c);
      } else {
        assert Connects(F2, next, c);
        ConnectsMono(F2, F, next, c);
        ConnectsPrepend(F, start, next, c);
      }
    }
    var done' := done + [next];
    forall k | 0 <= k < |done'| ensures done'[k] in V2 {
      if k < |done| {
        assert done'[k] == done[k];
      }
    }
  }

  /** Once every neighbour of start has been filled from, the fill from start is complete. */
  lemma FinishFill(n: int, B: seq<seq<int>>, G: seq<seq<int>>, V0: set<Cell>, V: set<Cell>,
                   start: Cell, t: int, r: int, size: int)
    requires Partial(n, B, G, V0, V, start, t, r, size, Adjacent(n, start.0, start.1))
    ensures Outcome(n, B, G, V0, V, start, t, r, size)
  {
    var adjacent := Adjacent(n, start.0, start.1);
    AdjacentSpec(n, start.0, start.1);
    forall c, d | c in Filled(B, V - V0, t) && InBounds(n, d) && Adj(c, d) ensures d in V {
      if c == start {
        assert d in adjacent;
      }
    }
  }

  /** A completed fill of a colour onto itself leaves the board as it was. */
  lemma OutcomeSameColour(n: int, B: seq<seq<int>>, G: seq<seq<int>>, V0: set<Cell>, V: set<Cell>,
                          start: Cell, t: int, size: int)
    requires Outcome(n, B, G, V0, V, start, t, t, size)
    ensures G == B
  {
    RepaintOwnColour(G, B, Filled(B, V - V0, t), t);
  }

  /** A completed fill started with nothing visited repaints exactly the region of colour t
      around start, recoloured r, and counts its tiles. */
  lemma OutcomeFromNothing(n: int, B: seq<seq<int>>, G: seq<seq<int>>, V: set<Cell>,
                           start: Cell, t: int, r: int, size: int)
    requires Outcome(n, B, G, {}, V, start, t, r, size)
    ensures size == |Component(B, start, t)| && G == Fill(B, start, t, r)
  {
    assert V - {} == V;
    FilledIsComponent(B, V, start, t);
    RepaintedFromIsRepaint(G, B, Filled(B, V, t), r);
  }

  /** A fill started with nothing visited repaints exactly the region of the target colour
      around the start. */
  lemma FilledIsComponent(B: seq<seq<int>>, V: set<Cell>, start: Cell, t: int)
    requires Square(B)
    requires start in V
    requires Closed(|B|, Filled(B, V, t), V)
    requires ConnectedFrom(Filled(B, V, t), start)
    ensures Filled(B, V, t) == Component(B, start, t)
  {
    var F := Filled(B, V, t);
    var T := TargetCells(B, t);
    forall c | c in F ensures c in Component(B, start, t) {
      ConnectsMono(F, T, start, c);
    }
    forall c | c in Component(B, start, t) ensures c in F {
      var p :| Walk(p, T, start, c);
      WalkStaysIn(p, T, F, start, c);
    }
  }

  /** Repainting cells with the colour they already have changes nothing. */
  lemma RepaintOwnColour(h: seq<seq<int>>, g: seq<seq<int>>, S: set<Cell>, r: int)
    requires RepaintedFrom(h, g, S, r)
    requires forall c | c in S && InBounds(|g|, c) :: At(g, c) == r
    ensures h == g
  {
    forall i | 0 <= i < |g| ensures h[i] == g[i] {
      forall j | 0 <= j < |g| ensures h[i][j] == g[i][j] {
        assert At(h, (i, j)) == At(g, (i, j));
      }
    }
  }

  class Game {
    /** The board played on. */
    const board: Board
    /** The colours chosen so far, in order. */
    var moves: seq<int>
    /** The cap on the number of moves play makes. */
    const maxMoves: nat

    ghost predicate Valid()
      reads this, board
    {
      board.Valid()
    }

    constructor (board: Board)
      ensures this.board == board && moves == [] && maxMoves == 12
    {
      this.board := board;
      moves := [];
      maxMoves := 12;
    }

    /** The on-board neighbours of (x, y), trying up, down, left and right in that order. */
    method GetAdjacent(x: int, y: int) returns (adjacent: seq<Cell>)
      requires Valid()
      ensures adjacent == Adjacent(board.n, x, y)
    {
      var deltas := [(-1, 0), (1, 0), (0, -1), (0, 1)];
      adjacent := [];
      for i := 0 to 4
        invariant adjacent == KeepInBounds(board.n, Around(x, y)[..i])
      {
        var candidate := (x + deltas[i].0, y + deltas[i].1);
        assert candidate == Around(x, y)[i];
        assert Around(x, y)[..i + 1][..i] == Around(x, y)[..i];
        var tile := board.GetTile(candidate.0, candidate.1);
        if tile.Some? {
          adjacent := adjacent + [candidate];
        }
      }
      assert Around(x, y)[..4] == Around(x, y);
    }

    /** Repaints, from (x, y), the connected tiles of colour target that are not yet visited
        with colour replacement, marking every cell it reaches as visited, and returns how many
        tiles it repainted (see Outcome; OutcomeFromNothing says what this means when nothing
        was visited). A cell already visited, off the board or of another colour ends the fill
        at once. */
    method FloodFill(x: int, y: int, target: int, replacement: int, visited: set<Cell>)
      returns (size: nat, visited': set<Cell>)
      requires Valid()
      modifies board
      ensures board.Valid()
      ensures Outcome(board.n, old(board.grid), board.grid, visited, visited', (x, y), target, replacement, size)
      ensures (x, y) in visited ==> size == 0 && visited' == visited && board.grid == old(board.grid)
      ensures (x, y) !in visited && (!InBounds(board.n, (x, y)) || At(old(board.grid), (x, y)) != target) ==>
                size == 0 && visited' == visited + {(x, y)} && board.grid == old(board.grid)
      ensures target == replacement ==> board.grid == old(board.grid)
      decreases Cells(board.n) - visited, 0
    {
      ghost var B := board.grid;
      if (x, y) in visited {
        size, visited' := 0, visited;
        NothingFilled(board.n, B, visited, (x, y), target, replacement);
        assert visited + {(x, y)} == visited;
        return;
      }
      visited' := visited + {(x, y)};
      var tile := board.GetTile(x, y);
      if tile.None? || tile.value != target {
        size := 0;
        NothingFilled(board.n, B, visited, (x, y), target, replacement);
        return;
      }
      board.SetTileColor(x, y, replacement);
      StartFill(board.n, B, board.grid, visited, (x, y), target, replacement);
      assert (x, y) in Cells(board.n);
      size, visited' := FillNeighbours(x, y, target, replacement, B, visited, visited', 1);
      if target == replacement {
        OutcomeSameColour(board.n, B, board.grid, visited, visited', (x, y), target, size);
      }
    }

    /** The loop of flood_fill over the neighbours of a tile (x, y) it has just repainted: a
        fill from each neighbour in turn, on the board and with the visited set the previous
        ones left, adding up the tiles they repaint. */
    method FillNeighbours(x: int, y: int, target: int, replacement: int, ghost B: seq<seq<int>>,
                          ghost visited0: set<Cell>, visited: set<Cell>, size: nat)
      returns (size': nat, visited': set<Cell>)
      requires Valid()
      requires Partial(board.n, B, board.grid, visited0, visited, (x, y), target, replacement, size, [])
      modifies board
      ensures board.Valid()
      ensures Outcome(board.n, B, board.grid, visited0, visited', (x, y), target, replacement, size')
      decreases Cells(board.n) - visited, 1
    {
      var adjacent := GetAdjacent(x, y);
      AdjacentSpec(board.n, x, y);
      size', visited' := size, visited;
      for i := 0 to |adjacent|
        invariant board.Valid() && visited <= visited'
        invariant Partial(board.n, B, board.grid, visited0, visited', (x, y), target, replacement, size', adjacent[..i])
      {
        assert adjacent[i] in adjacent;
        ghost var G1, V1 := board.grid, visited';
        var added, v := FloodFill(adjacent[i].0, adjacent[i].1, target, replacement, visited');
        AbsorbSubFill(board.n, B, G1, board.grid, visited0, V1, v, (x, y), adjacent[i],
                      target, replacement, size', added, adjacent[..i]);
        assert adjacent[..i + 1] == adjacent[..i] + [adjacent[i]];
        size', visited' := size' + added, v;
      }
      assert adjacent[..|adjacent|] == adjacent;
      FinishFill(board.n, B, board.grid, visited0, visited', (x, y), target, replacement, size');
    }

    /** The inner loop of choose_best_color for an origin-coloured tile (x, y): every neighbour
        whose colour differs from the origin's adds one to that colour's count. */
    method TallyNeighbours(x: int, y: int, origin: int, counts: map<int, int>) returns (counts': map<int, int>)
      requires Valid() && InBounds(board.n, (x, y)) && origin == Origin(board.grid) == board.grid[x][y]
      requires counts.Keys == Colours(board.grid)
      ensures counts'.Keys == counts.Keys
      ensures forall c | c in counts :: counts'[c] == counts[c] + CellTally(board.grid, c, x, y)
    {
      ghost var g := board.grid;
      var adjacent := GetAdjacent(x, y);
      AdjacentSpec(board.n, x, y);
      counts' := counts;
      for k := 0 to |adjacent|
        invariant counts'.Keys == counts.Keys
        invariant forall c | c in counts ::
                    counts'[c] == counts[c] + if c != origin then CountColour(g, adjacent[..k], c) else 0
      {
        assert adjacent[k] in adjacent;
        forall c | c in counts
          ensures CountColour(g, adjacent[..k + 1], c)
                  == CountColour(g, adjacent[..k], c) + if At(g, adjacent[k]) == c then 1 else 0
        {
          CountColourPrefix(g, adjacent, k, c);
        }
        var neighbour := board.GetTile(adjacent[k].0, adjacent[k].1);
        ColourOnGrid(g, adjacent[k]);
        if neighbour.value != origin {
          counts' := counts'[neighbour.value := counts'[neighbour.value] + 1];
        }
      }
      assert adjacent[..|adjacent|] == adjacent;
    }

    /** The greedy choice: for every colour, the number of (origin-coloured tile, neighbour of
        that colour) pairs on the board; the colour with the most pairs wins, ties going to the
        smaller colour. The board is left as it is. */
    method ChooseBestColor() returns (best: int)
      requires Valid() && board.n >= 1
      ensures best == GreedyChoice(board.grid)
    {
      ghost var g := board.grid;
      var origin := board.OriginColor();
      assert origin == Origin(g);
      var colours := Colours(board.grid);
      var counts := map c | c in colours :: 0;
      for x := 0 to board.n
        invariant counts.Keys == colours
        invariant forall c | c in colours :: counts[c] == BoardTally(g, c, x)
      {
        for y := 0 to board.n
          invariant counts.Keys == colours
          invariant forall c | c in colours :: counts[c] == BoardTally(g, c, x) + RowTally(g, c, x, y)
        {
          var tile := board.GetTile(x, y);
          if tile.value == origin {
            counts := TallyNeighbours(x, y, origin, counts);
          }
          forall c | c in colours
            ensures RowTally(g, c, x, y + 1) == RowTally(g, c, x, y) + CellTally(g, c, x, y)
          {
          }
        }
        forall c | c in colours
          ensures BoardTally(g, c, x + 1) == BoardTally(g, c, x) + RowTally(g, c, x, |g|)
        {
        }
      }
      assert counts.Keys == GreedyCounts(g).Keys;
      assert counts == GreedyCounts(g);
      ColourOnGrid(g, (0, 0));
      best := Best(counts);
    }

    /** A copy of the board after the move that recolours the origin's region with color; the
        board itself is left as it is. */
    method SimulateMove(color: int) returns (simulated: Board)
      requires Valid() && board.n >= 1
      ensures fresh(simulated) && simulated.Valid()
      ensures simulated.n == board.n && simulated.m == board.m
      ensures simulated.grid == Move(board.grid, color)
    {
      simulated := board.Clone();
      var game := new Game(simulated);
      ghost var B := simulated.grid;
      var size, visited := game.FloodFill(0, 0, simulated.OriginColor(), color, {});
      OutcomeFromNothing(simulated.n, B, simulated.grid, visited, (0, 0), Origin(B), color, size);
    }

    /** The lookahead choice: at depth 0 the greedy choice; otherwise each colour other than
        the origin's scores the size of the origin's region after moving to it, and the best
        score wins as in ChooseBestColor. The board is left as it is. */
    method Lookahead(depth: nat) returns (best: int)
      requires Valid() && board.n >= 1
      ensures best == LookaheadChoice(board.grid, depth)
      decreases depth, 1
    {
      if depth == 0 {
        best := ChooseBestColor();
        return;
      }
      var origin := board.OriginColor();
      var colours := Colours(board.grid);
      var counts := map c | c in colours :: 0;
      var todo := colours;
      while todo != {}
        invariant todo <= colours && counts.Keys == colours
        invariant forall c | c in colours - todo :: counts[c] == if c == origin then 0 else LookaheadScore(board.grid, c)
        invariant forall c | c in todo :: counts[c] == 0
        decreases todo
      {
        EmptyOrMember(todo);
        var c :| c in todo;
        if c != origin {
          var score := ScoreMove(c, depth);
          counts := counts[c := score];
        }
        todo := todo - {c};
      }
      assert counts == LookaheadCounts(board.grid);
      ColoursSpec(board.grid);
      assert At(board.grid, (0, 0)) in counts;
      best := Best(counts);
    }

    /** The score lookahead gives a colour (game.py:143-146): on a copy of the board after the
        move to color, the size of the origin's region as the fill to the next lookahead choice
        counts it. The board is left as it is. */
    method ScoreMove(color: int, depth: nat) returns (score: nat)
      requires Valid() && board.n >= 1 && depth >= 1
      ensures score == LookaheadScore(board.grid, color)
      decreases depth, 0
    {
      var simulated := SimulateMove(color);
      var game := new Game(simulated);
      var next := game.Lookahead(depth - 1);
      ghost var G := simulated.grid;
      var visited;
      score, visited := game.FloodFill(0, 0, color, next, {});
      OutcomeFromNothing(simulated.n, G, simulated.grid, visited, (0, 0), color, next, score);
    }

    /** One turn of play (game.py:156-161): lookahead proposes a colour; when it is the
        origin's own colour the turn stops play and changes nothing, and otherwise the colour
        is recorded and the origin's region is flooded with it on the board itself. */
    method Turn() returns (stopped: bool)
      requires Valid() && board.n >= 1
      modifies this, board
      ensures board.Valid()
      ensures stopped <==> LookaheadChoice(old(board.grid), PLAY_DEPTH) == Origin(old(board.grid))
      ensures stopped ==> moves == old(moves) && board.grid == old(board.grid)
      ensures !stopped ==> moves == old(moves) + [LookaheadChoice(old(board.grid), PLAY_DEPTH)]
      ensures !stopped ==> board.grid == Move(old(board.grid), LookaheadChoice(old(board.grid), PLAY_DEPTH))
    {
      var origin := board.OriginColor();
      var best := Lookahead(PLAY_DEPTH);
      if best == origin {
        return true;
      }
      moves := moves + [best];
      ghost var before := board.grid;
      var size, visited := FloodFill(0, 0, origin, best, {});
      OutcomeFromNothing(board.n, before, board.grid, visited, (0, 0), origin, best, size);
      stopped := false;
    }

    /** The number of moves play may still make. */
    function Remaining(): nat
      reads this
    {
      if |moves| < maxMoves then maxMoves - |moves| else 0
    }

    /** Plays until lookahead proposes the origin's own colour or maxMoves moves have been
        recorded: each turn records lookahead's choice and floods the origin's region with it.
        The moves recorded and the board left are those of the play-out Solve with lookahead
        as the chooser (PlayChoice). */
    method Play() returns (result: seq<int>)
      requires Valid() && board.n >= 1
      modifies this, board
      ensures board.Valid()
      ensures moves == old(moves) + Solve(PlayChoice, old(board.grid), old(Remaining())).moves
      ensures board.grid == Solve(PlayChoice, old(board.grid), old(Remaining())).final
      ensures result == moves
    {
      ghost var g0, budget := board.grid, Remaining();
      ghost var played: seq<int> := [];
      while |moves| < maxMoves
        invariant board.Valid()
        invariant moves == old(moves) + played
        invariant Leads(PlayChoice, g0, budget, played, board.grid, Remaining())
        decreases maxMoves - |moves|
      {
        ghost var before, rem := board.grid, Remaining();
        var stopped := Turn();
        if stopped {
          LeadsStop(PlayChoice, g0, budget, played, before, rem);
          break;
        }
        LeadsStep(PlayChoice, g0, budget, played, before, rem);
        played := played + [moves[|moves| - 1]];
      }
      if |moves| >= maxMoves {
        LeadsStop(PlayChoice, g0, budget, played, board.grid, Remaining());
      }
      result := moves;
    }
  }
}
