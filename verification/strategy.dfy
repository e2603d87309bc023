/** What the solver of game.py computes, stated on board values: the move that recolours the
    origin's region, the greedy tally of choose_best_color, the scores of lookahead, and the
    whole play-out of play. The methods of class Game are proved against these functions. */
module Strategy {
  import opened Grid
  import opened Selection

  /** A board the solver can play on: n×n with n >= 1, so that the origin exists. */
  predicate IsBoard(g: seq<seq<int>>) {
    |g| >= 1 && Square(g)
  }

  /** The colour of the origin (0, 0): the player's current colour. */
  function Origin(g: seq<seq<int>>): int
    requires IsBoard(g)
  {
    g[0][0]
  }

  /** Every tile has the origin's colour: the puzzle is solved. */
  ghost predicate Uniform(g: seq<seq<int>>)
    requires IsBoard(g)
  {
    forall c | InBounds(|g|, c) :: At(g, c) == Origin(g)
  }

  /** One move: the origin's region recoloured c (game.py:127 and game.py:161). */
  ghost function Move(g: seq<seq<int>>, c: int): (h: seq<seq<int>>)
    requires IsBoard(g)
    ensures IsBoard(h) && Origin(h) == c
  {
    var h := Fill(g, (0, 0), Origin(g), c);
    assert At(h, (0, 0)) == c;
    h
  }

  lemma UniformColours(g: seq<seq<int>>)
    requires IsBoard(g)
    ensures Uniform(g) <==> Colours(g) == {Origin(g)}
  {
    ColoursSpec(g);
    if Colours(g) == {Origin(g)} {
      forall c | InBounds(|g|, c) ensures At(g, c) == Origin(g) {
        assert At(g, c) in Colours(g);
      }
    }
    if Uniform(g) {
      forall k | k in Colours(g) ensures k == Origin(g) {
        var c :| InBounds(|g|, c) && At(g, c) == k;
      }
      assert At(g, (0, 0)) in Colours(g);
    }
  }

  /** A board that is not uniform has a tile of the origin's colour next to a tile of another
      colour. */
  lemma {:induction false} BoundaryExists(g: seq<seq<int>>, d: Cell)
    requires IsBoard(g) && InBounds(|g|, d) && At(g, d) != Origin(g)
    ensures exists p, q :: InBounds(|g|, p) && InBounds(|g|, q) && Adj(p, q)
                           && At(g, p) == Origin(g) && At(g, q) != Origin(g)
    decreases d.0 + d.1
  {
    var prev := if d.1 > 0 then (d.0, d.1 - 1) else (d.0 - 1, d.1);
    assert InBounds(|g|, prev) && Adj(prev, d);
    if At(g, prev) != Origin(g) {
      BoundaryExists(g, prev);
    }
  }

  // ---------------------------------------------------------------- choose_best_color

  /** How many of the cells of s have colour c. */
  function CountColour(g: seq<seq<int>>, s: seq<Cell>, c: int): nat
    requires Square(g) && forall d | d in s :: InBounds(|g|, d)
  {
    if s == [] then 0
    else CountColour(g, s[..|s| - 1], c) + (if At(g, s[|s| - 1]) == c then 1 else 0)
  }

  /** Counting one more cell of s. */
  lemma CountColourPrefix(g: seq<seq<int>>, s: seq<Cell>, k: int, c: int)
    requires Square(g) && forall d | d in s :: InBounds(|g|, d)
    requires 0 <= k < |s|
    ensures CountColour(g, s[..k + 1], c) == CountColour(g, s[..k], c) + if At(g, s[k]) == c then 1 else 0
  {
    assert s[..k + 1][..k] == s[..k];
  }

  /** What choose_best_color adds to colour c's counter at tile (i, j): one per neighbour of
      colour c, when the tile has the origin's colour and c is another colour. */
  function CellTally(g: seq<seq<int>>, c: int, i: int, j: int): nat
    requires IsBoard(g) && 0 <= i < |g| && 0 <= j < |g|
  {
    AdjacentSpec(|g|, i, j);
    if g[i][j] == Origin(g) && c != Origin(g) then CountColour(g, Adjacent(|g|, i, j), c) else 0
  }

  /** The tallies of the first k tiles of row i. */
  function RowTally(g: seq<seq<int>>, c: int, i: int, k: nat): nat
    requires IsBoard(g) && 0 <= i < |g| && k <= |g|
  {
    if k == 0 then 0 else RowTally(g, c, i, k - 1) + CellTally(g, c, i, k - 1)
  }

  /** The tallies of the first k rows. */
  function BoardTally(g: seq<seq<int>>, c: int, k: nat): nat
    requires IsBoard(g) && k <= |g|
  {
    if k == 0 then 0 else BoardTally(g, c, k - 1) + RowTally(g, c, k - 1, |g|)
  }

  /** The dictionary choose_best_color fills (game.py:106-115): every colour on the board, with
      the number of (origin-coloured tile, neighbour of that colour) pairs. */
  function GreedyCounts(g: seq<seq<int>>): (counts: map<int, int>)
    requires IsBoard(g)
    ensures counts.Keys == Colours(g)
  {
    map c | c in Colours(g) :: BoardTally(g, c, |g|)
  }

  /** The colour choose_best_color returns (game.py:118). */
  function GreedyChoice(g: seq<seq<int>>): (r: int)
    requires IsBoard(g)
    ensures r in Colours(g)
  {
    ColoursSpec(g);
    assert At(g, (0, 0)) in GreedyCounts(g);
    Best(GreedyCounts(g))
  }

  lemma {:induction false} RowTallyOfOrigin(g: seq<seq<int>>, i: int, k: nat)
    requires IsBoard(g) && 0 <= i < |g| && k <= |g|
    ensures RowTally(g, Origin(g), i, k) == 0
  {
    if k > 0 {
      RowTallyOfOrigin(g, i, k - 1);
    }
  }

  /** The origin's own colour is never counted: it stays in the dictionary with count 0. */
  lemma {:induction false} GreedyOriginCountsZero(g: seq<seq<int>>, k: nat)
    requires IsBoard(g) && k <= |g|
    ensures BoardTally(g, Origin(g), k) == 0
  {
    if k > 0 {
      GreedyOriginCountsZero(g, k - 1);
      RowTallyOfOrigin(g, k - 1, |g|);
    }
  }

  lemma {:induction false} CountColourPositive(g: seq<seq<int>>, s: seq<Cell>, c: int, k: int)
    requires Square(g) && forall d | d in s :: InBounds(|g|, d)
    requires 0 <= k < |s| && At(g, s[k]) == c
    ensures CountColour(g, s, c) >= 1
  {
    if k < |s| - 1 {
      CountColourPositive(g, s[..|s| - 1], c, k);
    }
  }

  lemma {:induction false} RowTallyAtLeast(g: seq<seq<int>>, c: int, i: int, k: nat, j: int)
    requires IsBoard(g) && 0 <= i < |g| && 0 <= j < k <= |g|
    ensures RowTally(g, c, i, k) >= CellTally(g, c, i, j)
  {
    if j < k - 1 {
      RowTallyAtLeast(g, c, i, k - 1, j);
    }
  }

  lemma {:induction false} BoardTallyAtLeast(g: seq<seq<int>>, c: int, k: nat, i: int)
    requires IsBoard(g) && 0 <= i < k <= |g|
    ensures BoardTally(g, c, k) >= RowTally(g, c, i, |g|)
  {
    if i < k - 1 {
      BoardTallyAtLeast(g, c, k - 1, i);
    }
  }

  /** choose_best_color returns the origin's colour exactly when the board is already uniform
      (otherwise some other colour borders the origin's colour and outscores it). */
  lemma GreedyOriginIffUniform(g: seq<seq<int>>)
    requires IsBoard(g)
    ensures GreedyChoice(g) == Origin(g) <==> Uniform(g)
  {
    UniformColours(g);
    var counts := GreedyCounts(g);
    if !Uniform(g) {
      var d :| InBounds(|g|, d) && At(g, d) != Origin(g);
      BoundaryExists(g, d);
      var p, q :| InBounds(|g|, p) && InBounds(|g|, q) && Adj(p, q)
                  && At(g, p) == Origin(g) && At(g, q) != Origin(g);
      var c := At(g, q);
      AdjacentSpec(|g|, p.0, p.1);
      var adj := Adjacent(|g|, p.0, p.1);
      var k :| 0 <= k < |adj| && adj[k] == q;
      CountColourPositive(g, adj, c, k);
      RowTallyAtLeast(g, c, p.0, |g|, p.1);
      BoardTallyAtLeast(g, c, |g|, p.0);
      GreedyOriginCountsZero(g, |g|);
      BestSpec(counts);
      assert c in counts && counts[c] >= 1;
      assert Origin(g) in counts && counts[Origin(g)] == 0;
    }
  }

  // ---------------------------------------------------------------- lookahead

  /** The score lookahead gives candidate c (game.py:143-146): the number of tiles that
      flood_fill(0, 0, c, next_color) repaints on the simulated board, i.e. the size of the
      origin's region after the move c. It does not depend on next_color. */
  ghost function LookaheadScore(g: seq<seq<int>>, c: int): (score: nat)
    requires IsBoard(g)
    ensures score >= 1
  {
    var h := Move(g, c);
    assert At(h, (0, 0)) == c;
    |Component(h, (0, 0), c)|
  }

  /** The dictionary lookahead fills (game.py:138-146): every colour on the board, the origin's
      own colour with score 0. */
  ghost function LookaheadCounts(g: seq<seq<int>>): (counts: map<int, int>)
    requires IsBoard(g)
    ensures counts.Keys == Colours(g)
  {
    map c | c in Colours(g) :: if c == Origin(g) then 0 else LookaheadScore(g, c)
  }

  /** The colour lookahead(depth) returns (game.py:130-149). */
  ghost function LookaheadChoice(g: seq<seq<int>>, depth: nat): (r: int)
    requires IsBoard(g)
    ensures r in Colours(g)
  {
    if depth == 0 then GreedyChoice(g)
    else
      ColoursSpec(g);
      assert At(g, (0, 0)) in LookaheadCounts(g);
      Best(LookaheadCounts(g))
  }

  /** At every depth the choice is a colour on the board, and it is the origin's colour exactly
      when the board is uniform. */
  lemma ChoiceIsOriginIffUniform(g: seq<seq<int>>, depth: nat)
    requires IsBoard(g)
    ensures LookaheadChoice(g, depth) in Colours(g)
    ensures LookaheadChoice(g, depth) == Origin(g) <==> Uniform(g)
  {
    if depth == 0 {
      GreedyOriginIffUniform(g);
    } else {
      UniformColours(g);
      var counts := LookaheadCounts(g);
      if !Uniform(g) {
        var d :| InBounds(|g|, d) && At(g, d) != Origin(g);
        var c := At(g, d);
        BestSpec(counts);
        assert c in counts && counts[c] >= 1;
        assert Origin(g) in counts && counts[Origin(g)] == 0;
      }
    }
  }

  // ---------------------------------------------------------------- play

  /** The depth play passes to lookahead (game.py:157). */
  const PLAY_DEPTH := 2

  /** The colour play asks lookahead for on each turn (game.py:157). Play-outs only visit boards
      satisfying IsBoard; on any other value the chooser answers 0. */
  ghost function PlayChoice(g: seq<seq<int>>): int {
    if IsBoard(g) then LookaheadChoice(g, PLAY_DEPTH) else 0
  }

  /** The chooser proposes a colour present on the board. */
  ghost predicate ChoosesOnBoard(choose: seq<seq<int>> -> int) {
    forall h | IsBoard(h) :: choose(h) in Colours(h)
  }

  /** The chooser proposes the origin's own colour exactly when the board is uniform. */
  ghost predicate StopsWhenUniform(choose: seq<seq<int>> -> int) {
    forall h | IsBoard(h) :: choose(h) == Origin(h) <==> Uniform(h)
  }

  /** Lookahead at play's depth is a chooser of both kinds. */
  lemma PlayChoiceSound()
    ensures ChoosesOnBoard(PlayChoice) && StopsWhenUniform(PlayChoice)
  {
    forall h | IsBoard(h)
      ensures PlayChoice(h) in Colours(h) && (PlayChoice(h) == Origin(h) <==> Uniform(h))
    {
      ChoiceIsOriginIffUniform(h, PLAY_DEPTH);
    }
  }

  /** The moves a play-out records and the board it leaves. */
  datatype Playout = Playout(moves: seq<int>, final: seq<seq<int>>)

  /** The play-out of play with `budget` moves left (game.py:155-161), for the colour chooser
      choose: stop when the budget is spent or the chooser proposes the origin's own colour;
      otherwise record the move, make it, and go on. play itself uses PlayChoice. */
  ghost function Solve(choose: seq<seq<int>> -> int, g: seq<seq<int>>, budget: nat): (p: Playout)
    requires IsBoard(g)
    ensures IsBoard(p.final)
    decreases budget
  {
    if budget == 0 then Playout([], g)
    else
      var c := choose(g);
      if c == Origin(g) then Playout([], g)
      else
        var rest := Solve(choose, Move(g, c), budget - 1);
        Playout([c] + rest.moves, rest.final)
  }

  /** The board after making the given moves one after the other. */
  ghost function Replay(g: seq<seq<int>>, moves: seq<int>): (h: seq<seq<int>>)
    requires IsBoard(g)
    ensures IsBoard(h)
    decreases |moves|
  {
    if moves == [] then g else Replay(Move(g, moves[0]), moves[1..])
  }

  /** The first |played| turns of the play-out from g0 with `budget` moves record played and
      leave the board g with rem moves of the budget left. */
  ghost predicate Leads(choose: seq<seq<int>> -> int, g0: seq<seq<int>>, budget: nat,
                        played: seq<int>, g: seq<seq<int>>, rem: nat)
    decreases |played|
  {
    && IsBoard(g0)
    && if played == [] then g == g0 && rem == budget
       else
         && budget >= 1 && played[0] == choose(g0) && played[0] != Origin(g0)
         && Leads(choose, Move(g0, played[0]), budget - 1, played[1..], g, rem)
  }

  /** A turn that records the chooser's colour and makes that move extends the turns played. */
  lemma {:induction false} LeadsStep(choose: seq<seq<int>> -> int, g0: seq<seq<int>>, budget: nat,
                                     played: seq<int>, g: seq<seq<int>>, rem: nat)
    requires Leads(choose, g0, budget, played, g, rem) && IsBoard(g)
    requires rem >= 1 && choose(g) != Origin(g)
    ensures Leads(choose, g0, budget, played + [choose(g)], Move(g, choose(g)), rem - 1)
    decreases |played|
  {
    if played != [] {
      LeadsStep(choose, Move(g0, played[0]), budget - 1, played[1..], g, rem);
      assert (played + [choose(g)])[1..] == played[1..] + [choose(g)];
    }
  }

  /** When the budget is spent or the chooser proposes the origin's colour, the turns played are
      the whole play-out. */
  lemma {:induction false} LeadsStop(choose: seq<seq<int>> -> int, g0: seq<seq<int>>, budget: nat,
                                     played: seq<int>, g: seq<seq<int>>, rem: nat)
    requires Leads(choose, g0, budget, played, g, rem) && IsBoard(g)
    requires rem == 0 || choose(g) == Origin(g)
    ensures Solve(choose, g0, budget) == Playout(played, g)
    decreases |played|
  {
    if played != [] {
      LeadsStop(choose, Move(g0, played[0]), budget - 1, played[1..], g, rem);
      assert played == [played[0]] + played[1..];
    }
  }

  /** A play-out records at most `budget` moves. */
  lemma {:induction false} SolveWithinBudget(choose: seq<seq<int>> -> int, g: seq<seq<int>>, budget: nat)
    requires IsBoard(g)
    ensures |Solve(choose, g, budget).moves| <= budget
    decreases budget
  {
    if budget > 0 && choose(g) != Origin(g) {
      SolveWithinBudget(choose, Move(g, choose(g)), budget - 1);
    }
  }

  /** A play-out that stops before its budget is spent leaves a uniform board. */
  lemma {:induction false} SolveStopsOnlyWhenSolved(choose: seq<seq<int>> -> int, g: seq<seq<int>>, budget: nat)
    requires IsBoard(g) && StopsWhenUniform(choose)
    ensures |Solve(choose, g, budget).moves| < budget ==> Uniform(Solve(choose, g, budget).final)
    decreases budget
  {
    if budget > 0 && choose(g) != Origin(g) {
      SolveStopsOnlyWhenSolved(choose, Move(g, choose(g)), budget - 1);
    }
  }

  /** A uniform board gets no moves at all. */
  lemma SolveUniformBoard(choose: seq<seq<int>> -> int, g: seq<seq<int>>, budget: nat)
    requires IsBoard(g) && Uniform(g) && StopsWhenUniform(choose)
    ensures Solve(choose, g, budget) == Playout([], g)
  {
  }

  /** Every recorded move is a colour of the starting board, and the final board has no colour
      the starting board lacked. */
  lemma {:induction false} SolveMovesFromBoard(choose: seq<seq<int>> -> int, g: seq<seq<int>>, budget: nat)
    requires IsBoard(g) && ChoosesOnBoard(choose)
    ensures forall i | 0 <= i < |Solve(choose, g, budget).moves| :: Solve(choose, g, budget).moves[i] in Colours(g)
    ensures Colours(Solve(choose, g, budget).final) <= Colours(g)
    decreases budget
  {
    if budget > 0 && choose(g) != Origin(g) {
      var c := choose(g);
      var h := Move(g, c);
      SolveMovesFromBoard(choose, h, budget - 1);
      FillColours(g, (0, 0), Origin(g), c);
      var moves := Solve(choose, g, budget).moves;
      assert moves == [c] + Solve(choose, h, budget - 1).moves;
      forall i | 0 <= i < |moves| ensures moves[i] in Colours(g) {
        if i > 0 {
          assert moves[i] == Solve(choose, h, budget - 1).moves[i - 1];
        }
      }
    }
  }

  /** Each recorded move is the chooser's colour on the board the earlier moves produced and
      differs from that board's origin colour; the final board is the starting board after all
      moves. */
  lemma {:induction false} SolveReplays(choose: seq<seq<int>> -> int, g: seq<seq<int>>, budget: nat)
    requires IsBoard(g)
    ensures Solve(choose, g, budget).final == Replay(g, Solve(choose, g, budget).moves)
    ensures forall i | 0 <= i < |Solve(choose, g, budget).moves| ::
              && Solve(choose, g, budget).moves[i] == choose(Replay(g, Solve(choose, g, budget).moves[..i]))
              && Solve(choose, g, budget).moves[i] != Origin(Replay(g, Solve(choose, g, budget).moves[..i]))
    decreases budget
  {
    if budget > 0 && choose(g) != Origin(g) {
      var c := choose(g);
      var h := Move(g, c);
      SolveReplays(choose, h, budget - 1);
      var rest := Solve(choose, h, budget - 1).moves;
      var moves := Solve(choose, g, budget).moves;
      assert moves == [c] + rest;
      assert moves[1..] == rest;
      forall i | 0 <= i < |moves|
        ensures Replay(g, moves[..i]) == if i == 0 then g else Replay(h, rest[..i - 1])
      {
        if i > 0 {
          assert moves[..i][0] == c && moves[..i][1..] == rest[..i - 1];
        }
      }
    }
  }

  /** The play-out of play itself: at most `budget` moves, each of them lookahead's choice on the
      board the earlier moves produced and never that board's origin colour, all of them colours
      of the starting board; it stops early only on a uniform board, and a uniform board gets no
      moves at all. */
  lemma PlayChoiceOutcome(g: seq<seq<int>>, budget: nat)
    requires IsBoard(g)
    ensures var p := Solve(PlayChoice, g, budget);
      && |p.moves| <= budget
      && p.final == Replay(g, p.moves)
      && (forall i | 0 <= i < |p.moves| ::
            && p.moves[i] == LookaheadChoice(Replay(g, p.moves[..i]), PLAY_DEPTH)
            && p.moves[i] != Origin(Replay(g, p.moves[..i])))
      && (forall i | 0 <= i < |p.moves| :: p.moves[i] in Colours(g))
      && (|p.moves| < budget ==> Uniform(p.final))
      && (Uniform(g) ==> p.moves == [])
  {
    PlayChoiceSound();
    SolveWithinBudget(PlayChoice, g, budget);
    SolveReplays(PlayChoice, g, budget);
    SolveMovesFromBoard(PlayChoice, g, budget);
    SolveStopsOnlyWhenSolved(PlayChoice, g, budget);
    if Uniform(g) {
      SolveUniformBoard(PlayChoice, g, budget);
    }
  }
}
