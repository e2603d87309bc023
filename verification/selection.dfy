/** The selection rule of choose_best_color and lookahead (game.py:118 and game.py:148):
    `min(counts, key=lambda color: (-counts[color], color))` over a dictionary from colour to score. */
module Selection {

  /** Under the key (-score, colour), a comes before b: a strictly larger score, or an equal
      score and a smaller colour. */
  predicate Precedes(counts: map<int, int>, a: int, b: int)
    requires a in counts && b in counts
  {
    counts[a] > counts[b] || (counts[a] == counts[b] && a < b)
  }

  /** r is the key that min() returns: it precedes every other key. */
  predicate IsBest(counts: map<int, int>, r: int) {
    r in counts && forall c | c in counts && c != r :: Precedes(counts, r, c)
  }

  lemma EmptyOrKey(m: map<int, int>)
    ensures m == map[] || exists x :: x in m
  {
    if forall x :: x !in m {
      assert m == map[];
    }
  }

  lemma EmptyOrMember(s: set<int>)
    ensures s == {} || exists x :: x in s
  {
    if forall x :: x !in s {
      assert s == {};
    }
  }

  /** Every non-empty dictionary has a least key under (-score, colour). */
  lemma {:induction false} BestExists(counts: map<int, int>)
    requires counts != map[]
    ensures exists r :: IsBest(counts, r)
    decreases counts.Keys
  {
    EmptyOrKey(counts);
    var k :| k in counts;
    var others := counts.Keys - {k};
    if others == {} {
      assert forall c | c in counts && c != k :: c in others;
      assert IsBest(counts, k);
    } else {
      EmptyOrMember(others);
      var other :| other in others;
      var rest := map c | c in others :: counts[c];
      assert other in rest;
      BestExists(rest);
      var b :| IsBest(rest, b);
      forall c | c in counts && c != k && c != b ensures Precedes(counts, b, c) {
        assert c in rest && Precedes(rest, b, c);
      }
      if Precedes(counts, k, b) {
        assert IsBest(counts, k);
      } else {
        assert IsBest(counts, b);
      }
    }
  }

  /** The colour that `min(counts, key=(-count, colour))` returns. */
  function Best(counts: map<int, int>): (r: int)
    requires counts != map[]
    ensures r in counts
  {
    BestExists(counts);
    var r :| IsBest(counts, r); r
  }

  /** Best returns a key with the largest score, and the smallest key among those that share it. */
  lemma BestSpec(counts: map<int, int>)
    requires counts != map[]
    ensures forall c | c in counts :: counts[c] < counts[Best(counts)] || (counts[c] == counts[Best(counts)] && Best(counts) <= c)
  {
  }
}
