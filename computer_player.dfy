/** The computer player (computer_player.py): who moves next, the heuristic candidate moves,
    the depth-bounded minimax search and the move `autoturn` picks.

    The search works on board values (`Snapshot`): `minimax` rebuilds a board from its string
    form and plays on copies, and a copy is the same value. The candidate generator and the
    move selection read the board through its value too. */
module ComputerPlayer {
  import opened PyValues
  import opened Cells
  import opened Boards
  import opened Players
  import opened StableSort

  // ---------------------------------------------------------------------------------------
  // Scores and the next mover

  /** `game_results.get(w, 0)`: 'x' wins 1, 'o' wins -1, a draw ('-') or anything else 0. */
  function GameResult(w: string): (r: int)
    ensures -1 <= r <= 1
    ensures r == 1 <==> w == "x"
    ensures r == -1 <==> w == "o"
  {
    if w == "x" then 1 else if w == "o" then -1 else 0
  }

  /** The integer stand-ins for the `-math.inf` and `math.inf` start values of the search:
      below and above every score. */
  const NegInf: int := -2
  const PosInf: int := 2

  /** How many cells read m. */
  function CountMark(s: Snapshot, m: string): nat
  {
    |set p | p in s.marks && s.marks[p] == m|
  }

  /** `get_player`: 'o' moves when there are more 'x' marks than 'o' marks, 'x' otherwise. */
  function GetPlayer(s: Snapshot): (r: string)
    ensures r == "x" || r == "o"
  {
    if CountMark(s, "x") > CountMark(s, "o") then "o" else "x"
  }

  /** The board a game reaches when 'x' and 'o' take turns, 'x' first. */
  predicate Alternating(s: Snapshot)
  {
    CountMark(s, "x") == CountMark(s, "o") || CountMark(s, "x") == CountMark(s, "o") + 1
  }

  /** Marking an empty cell adds one to the count of that mark and leaves the others. */
  lemma PlayCount(s: Snapshot, p: Pos, mark: string, m: string)
    requires p in s.marks && s.marks[p] == " " && m != " "
    ensures CountMark(Play(s, p, Some(mark)), m) == CountMark(s, m) + (if m == mark then 1 else 0)
  {
    var t := Play(s, p, Some(mark));
    var before := set q | q in s.marks && s.marks[q] == m;
    var after := set q | q in t.marks && t.marks[q] == m;
    if m == mark {
      assert after == before + {p};
    } else {
      assert after == before;
    }
  }

  /** `get_player` makes the players alternate: on an alternating board, the mover's mark on
      an empty cell gives an alternating board on which the other mark moves. A fresh board
      is alternating and 'x' moves first. */
  lemma {:induction false} GetPlayerAlternates(s: Snapshot, p: Pos)
    requires Alternating(s)
    requires p in s.marks && s.marks[p] == " "
    ensures Alternating(Play(s, p, Some(GetPlayer(s))))
    ensures GetPlayer(Play(s, p, Some(GetPlayer(s)))) != GetPlayer(s)
  {
    PlayCount(s, p, GetPlayer(s), "x");
    PlayCount(s, p, GetPlayer(s), "o");
  }

  lemma FreshBoardXMovesFirst(size: int, condition: int)
    ensures Alternating(FreshSnapshot(size, condition))
    ensures GetPlayer(FreshSnapshot(size, condition)) == "x"
  {
    var s := FreshSnapshot(size, condition);
    assert (set q | q in s.marks && s.marks[q] == "x") == {};
    assert (set q | q in s.marks && s.marks[q] == "o") == {};
  }

  // ---------------------------------------------------------------------------------------
  // The potential of a filled cell

  /** The eight directions, in the source's order. */
  const Neighbours: seq<(int, int)> := [(-1, 0), (1, 0), (0, -1), (0, 1), (1, 1), (-1, -1), (-1, 1), (1, -1)]

  /** The position i steps from p in direction d. */
  function Offset(p: Pos, d: (int, int), i: int): Pos
  {
    (p.0 + i * d.0, p.1 + i * d.1)
  }

  /** What the walk reads at q: the cell's mark, or `' '` where there is no cell. */
  function MarkAt(s: Snapshot, q: Pos): string
  {
    if q in s.marks then s.marks[q] else " "
  }

  /** A position i >= 1 steps from a board position that is still on the board has i < n. */
  lemma OffsetBound(p: Pos, d: (int, int), i: int, n: int)
    requires d in Neighbours && OnBoard(p, n) && i >= 1 && OnBoard(Offset(p, d, i), n)
    ensures i < n
  {
  }

  /** The number of consecutive cells reading m at distances i, i+1, ... from p in
      direction d. (No cell lies size or more steps away.) */
  function Ahead(s: Snapshot, p: Pos, d: (int, int), m: string, i: int): nat
    decreases s.size - i
  {
    if i < s.size && MarkAt(s, Offset(p, d, i)) == m then 1 + Ahead(s, p, d, m, i + 1) else 0
  }

  /** What the walk in direction d adds to the potential of a cell reading m: the first test
      is of the neighbour and the walk then starts again at distance 1, so a run of r >= 1
      matching cells adds r + 1, and a neighbour that does not match adds 0. */
  function DirPotential(s: Snapshot, p: Pos, d: (int, int), m: string): nat
  {
    if MarkAt(s, Offset(p, d, 1)) == m then 1 + Ahead(s, p, d, m, 1) else 0
  }

  lemma {:induction false} AheadRun(s: Snapshot, p: Pos, d: (int, int), m: string, r: int, i: int)
    requires WellFormed(s) && OnBoard(p, s.size) && d in Neighbours && m != " "
    requires 1 <= i <= r + 1
    requires forall t | i <= t <= r :: MarkAt(s, Offset(p, d, t)) == m
    requires MarkAt(s, Offset(p, d, r + 1)) != m
    ensures Ahead(s, p, d, m, i) == r + 1 - i
    decreases r + 1 - i
  {
    if i <= r {
      OffsetBound(p, d, i, s.size);
      AheadRun(s, p, d, m, r, i + 1);
    }
  }

  /** A run of exactly r >= 1 cells reading m next to p in direction d adds r + 1; a run of
      none adds 0. */
  lemma DirPotentialOfRun(s: Snapshot, p: Pos, d: (int, int), m: string, r: int)
    requires WellFormed(s) && OnBoard(p, s.size) && d in Neighbours && m != " "
    requires r >= 0
    requires forall t | 1 <= t <= r :: MarkAt(s, Offset(p, d, t)) == m
    requires MarkAt(s, Offset(p, d, r + 1)) != m
    ensures DirPotential(s, p, d, m) == (if r == 0 then 0 else r + 1)
  {
    if r >= 1 {
      AheadRun(s, p, d, m, r, 1);
    }
  }

  /** The directions among ds whose neighbour of p has a cell (the `surrounding` dict). */
  function SurroundingIn(s: Snapshot, p: Pos, ds: seq<(int, int)>): (r: seq<(int, int)>)
    ensures |r| <= |ds|
  {
    if ds == [] then []
    else
      SurroundingIn(s, p, ds[..|ds| - 1])
      + (if Offset(p, ds[|ds| - 1], 1) in s.marks then [ds[|ds| - 1]] else [])
  }

  lemma {:induction false} SurroundingMembers(s: Snapshot, p: Pos, ds: seq<(int, int)>)
    ensures forall d :: d in SurroundingIn(s, p, ds) <==> d in ds && Offset(p, d, 1) in s.marks
  {
    if ds != [] {
      assert ds == ds[..|ds| - 1] + [ds[|ds| - 1]];
      SurroundingMembers(s, p, ds[..|ds| - 1]);
    }
  }

  /** The sum of the walks' contributions over the directions ds. */
  function SumDir(s: Snapshot, p: Pos, m: string, ds: seq<(int, int)>): nat
  {
    if ds == [] then 0 else SumDir(s, p, m, ds[..|ds| - 1]) + DirPotential(s, p, ds[|ds| - 1], m)
  }

  /** The potential of the cell at p: the walks over every direction that has a neighbour. */
  function Potential(s: Snapshot, p: Pos): nat
  {
    SumDir(s, p, MarkAt(s, p), SurroundingIn(s, p, Neighbours))
  }

  /** Some neighbour of p has a cell that reads `' '`. */
  predicate HasEmptyNeighbour(s: Snapshot, p: Pos)
  {
    exists d | d in Neighbours :: Offset(p, d, 1) in s.marks && s.marks[Offset(p, d, 1)] == " "
  }

  /** The cells that get a potential: filled, with an empty neighbour. */
  predicate Qualifies(s: Snapshot, p: Pos)
  {
    p in s.marks && s.marks[p] != " " && HasEmptyNeighbour(s, p)
  }

  /** The `result` dict over the cells ps, in order: each qualifying cell with its potential. */
  function ScoredIn(s: Snapshot, ps: seq<Pos>): (r: seq<(Pos, int)>)
    ensures |r| <= |ps|
  {
    if ps == [] then []
    else
      var last := ps[|ps| - 1];
      ScoredIn(s, ps[..|ps| - 1]) + (if Qualifies(s, last) then [(last, Potential(s, last))] else [])
  }

  /** Exactly the qualifying cells get an entry, holding their potential. */
  lemma {:induction false} ScoredMembers(s: Snapshot, ps: seq<Pos>)
    ensures forall e :: e in ScoredIn(s, ps) ==> e.0 in ps && Qualifies(s, e.0) && e.1 == Potential(s, e.0)
    ensures forall p | p in ps && Qualifies(s, p) :: (p, Potential(s, p)) in ScoredIn(s, ps)
  {
    if ps != [] {
      assert ps == ps[..|ps| - 1] + [ps[|ps| - 1]];
      ScoredMembers(s, ps[..|ps| - 1]);
    }
  }

  /** Scoring one more cell appends its entry, if it has one. */
  lemma ScoredInStep(s: Snapshot, ps: seq<Pos>, k: int)
    requires 0 <= k < |ps|
    ensures ScoredIn(s, ps[..k + 1])
         == ScoredIn(s, ps[..k]) + (if Qualifies(s, ps[k]) then [(ps[k], Potential(s, ps[k]))] else [])
  {
    assert ps[..k + 1][..k] == ps[..k];
  }

  /** The `result` dict of the whole board, in dictionary (row-major) order. */
  function Scored(s: Snapshot): seq<(Pos, int)>
  {
    ScoredIn(s, RowMajor(s.size))
  }

  // ---------------------------------------------------------------------------------------
  // From scored cells to candidate moves

  /** The potential threshold. */
  const Limit: int := 3

  /** `list(filter(lambda item: item[1] >= limit, xs))`. */
  function AtLeast(xs: seq<(Pos, int)>, limit: int): (r: seq<(Pos, int)>)
    ensures |r| <= |xs|
  {
    if xs == [] then []
    else (if xs[0].1 >= limit then [xs[0]] else []) + AtLeast(xs[1..], limit)
  }

  lemma {:induction false} AtLeastMembers(xs: seq<(Pos, int)>, limit: int)
    ensures forall e :: e in AtLeast(xs, limit) <==> e in xs && e.1 >= limit
  {
    if xs != [] {
      assert xs == [xs[0]] + xs[1..];
      AtLeastMembers(xs[1..], limit);
    }
  }

  /** `reduced_results`: the cells at or above the threshold when there are more than five of
      them, otherwise the first five of the sorted list. */
  function Retained(sorted: seq<(Pos, int)>): (r: seq<(Pos, int)>)
    ensures |r| <= |sorted|
  {
    var high := AtLeast(sorted, Limit);
    if |high| > 5 then high else if |sorted| <= 5 then sorted else sorted[..5]
  }

  lemma RetainedMembers(sorted: seq<(Pos, int)>)
    ensures forall e :: e in Retained(sorted) ==> e in sorted
    ensures sorted != [] ==> Retained(sorted) != []
  {
    AtLeastMembers(sorted, Limit);
  }

  /** The neighbours of p in the directions ds that have a cell reading `' '`. */
  function EmptyNeighboursIn(s: Snapshot, p: Pos, ds: seq<(int, int)>): (r: seq<Pos>)
    ensures |r| <= |ds|
  {
    if ds == [] then []
    else
      var c := Offset(p, ds[|ds| - 1], 1);
      EmptyNeighboursIn(s, p, ds[..|ds| - 1]) + (if c in s.marks && s.marks[c] == " " then [c] else [])
  }

  lemma {:induction false} EmptyNeighboursMembers(s: Snapshot, p: Pos, ds: seq<(int, int)>)
    ensures forall c :: c in EmptyNeighboursIn(s, p, ds) <==>
      c in s.marks && s.marks[c] == " " && exists d | d in ds :: c == Offset(p, d, 1)
  {
    if ds != [] {
      assert ds == ds[..|ds| - 1] + [ds[|ds| - 1]];
      EmptyNeighboursMembers(s, p, ds[..|ds| - 1]);
    }
  }

  function EmptyNeighbours(s: Snapshot, p: Pos): seq<Pos>
  {
    EmptyNeighboursIn(s, p, Neighbours)
  }

  /** `empty_cells` before deduplication: the empty neighbours of each retained cell, in order. */
  function Gathered(s: Snapshot, rs: seq<(Pos, int)>): seq<Pos>
  {
    if rs == [] then []
    else Gathered(s, rs[..|rs| - 1]) + EmptyNeighbours(s, rs[|rs| - 1].0)
  }

  lemma {:induction false} GatheredMembers(s: Snapshot, rs: seq<(Pos, int)>)
    ensures forall c :: c in Gathered(s, rs) <==> exists k | 0 <= k < |rs| :: c in EmptyNeighbours(s, rs[k].0)
  {
    if rs != [] {
      var front := rs[..|rs| - 1];
      assert forall k | 0 <= k < |front| :: front[k] == rs[k];
      GatheredMembers(s, front);
    }
  }

  /** `list(set(xs))`, taking first occurrences (the source's order is the set's hash order). */
  function Dedup(xs: seq<Pos>): (r: seq<Pos>)
    ensures |r| <= |xs|
  {
    if xs == [] then []
    else
      var front := Dedup(xs[..|xs| - 1]);
      if xs[|xs| - 1] in front then front else front + [xs[|xs| - 1]]
  }

  lemma {:induction false} DedupMembers(xs: seq<Pos>)
    ensures forall x :: x in Dedup(xs) <==> x in xs
    ensures forall a, b | 0 <= a < b < |Dedup(xs)| :: Dedup(xs)[a] != Dedup(xs)[b]
  {
    if xs != [] {
      assert xs == xs[..|xs| - 1] + [xs[|xs| - 1]];
      DedupMembers(xs[..|xs| - 1]);
    }
  }

  /** What `get_possible_combos` returns. */
  function Candidates(s: Snapshot): seq<Pos>
  {
    Dedup(Gathered(s, Retained(SortDesc(Scored(s)))))
  }

  /** Every candidate is an empty cell of the board next to a filled cell, and none repeats. */
  lemma CandidatesSound(s: Snapshot)
    ensures forall c | c in Candidates(s) ::
      c in s.marks && s.marks[c] == " "
      && exists q, d | q in s.marks && d in Neighbours :: s.marks[q] != " " && c == Offset(q, d, 1)
    ensures forall a, b | 0 <= a < b < |Candidates(s)| :: Candidates(s)[a] != Candidates(s)[b]
    ensures WellFormed(s) ==> forall c | c in Candidates(s) :: OnBoard(c, s.size)
  {
    var sorted := SortDesc(Scored(s));
    var rs := Retained(sorted);
    SortFacts(Scored(s));
    DedupMembers(Gathered(s, rs));
    GatheredMembers(s, rs);
    RetainedMembers(sorted);
    ScoredMembers(s, RowMajor(s.size));
    forall c | c in Candidates(s)
      ensures c in s.marks && s.marks[c] == " "
      ensures exists q, d | q in s.marks && d in Neighbours :: s.marks[q] != " " && c == Offset(q, d, 1)
    {
      var k :| 0 <= k < |rs| && c in EmptyNeighbours(s, rs[k].0);
      assert rs[k] in sorted;
      EmptyNeighboursMembers(s, rs[k].0, Neighbours);
      var d :| d in Neighbours && c == Offset(rs[k].0, d, 1);
    }
  }

  /** The `result` dict is empty exactly when no cell of the board qualifies. */
  lemma ScoredEmptyIff(s: Snapshot)
    requires WellFormed(s)
    ensures Scored(s) == [] <==> forall q | q in s.marks :: !Qualifies(s, q)
  {
    ScoredMembers(s, RowMajor(s.size));
    if q :| q in s.marks && Qualifies(s, q) {
      assert q in RowMajor(s.size);
      assert (q, Potential(s, q)) in Scored(s);
    } else if Scored(s) != [] {
      assert Scored(s)[0] in Scored(s);
    }
  }

  /** Some cell is retained as soon as some cell is scored, and each retained cell has an
      empty neighbour, so there are candidates exactly when some cell is scored. */
  lemma CandidatesEmptyIffScored(s: Snapshot)
    ensures Candidates(s) == [] <==> Scored(s) == []
  {
    var sorted := SortDesc(Scored(s));
    var rs := Retained(sorted);
    if Scored(s) != [] {
      assert |sorted| > 0;
      RetainedMembers(sorted);
      var e := rs[0];
      SortFacts(Scored(s));
      assert e in Scored(s) by { assert e in sorted; }
      ScoredMembers(s, RowMajor(s.size));
      var d :| d in Neighbours && Offset(e.0, d, 1) in s.marks && s.marks[Offset(e.0, d, 1)] == " ";
      EmptyNeighboursMembers(s, e.0, Neighbours);
      GatheredMembers(s, rs);
      assert Offset(e.0, d, 1) in Gathered(s, rs);
      DedupMembers(Gathered(s, rs));
      assert Offset(e.0, d, 1) in Candidates(s);
    }
  }

  /** There are no candidates exactly when no filled cell has an empty neighbour. */
  lemma CandidatesEmptyIff(s: Snapshot)
    requires WellFormed(s)
    ensures Candidates(s) == [] <==> forall q | q in s.marks :: !Qualifies(s, q)
  {
    ScoredEmptyIff(s);
    CandidatesEmptyIffScored(s);
  }

  /** The Chebyshev distance between two positions. */
  function Dist(a: Pos, b: Pos): nat
  {
    var dx := if a.0 >= b.0 then a.0 - b.0 else b.0 - a.0;
    var dy := if a.1 >= b.1 then a.1 - b.1 else b.1 - a.1;
    if dx >= dy then dx else dy
  }

  function Sign(x: int): int
  {
    if x > 0 then 1 else if x < 0 then -1 else 0
  }

  /** A board with a filled cell and an empty cell has a filled cell next to an empty one:
      walking from the filled cell straight toward the empty one meets a filled cell whose
      next step is empty. */
  lemma {:induction false} FilledTouchesEmpty(s: Snapshot, f: Pos, e: Pos)
    requires WellFormed(s)
    requires f in s.marks && s.marks[f] != " " && e in s.marks && s.marks[e] == " "
    ensures exists q | q in s.marks :: Qualifies(s, q)
    decreases Dist(f, e)
  {
    var d := (Sign(e.0 - f.0), Sign(e.1 - f.1));
    assert d in Neighbours;
    var g := Offset(f, d, 1);
    assert g == (f.0 + d.0, f.1 + d.1);
    assert OnBoard(g, s.size);
    if s.marks[g] == " " {
      assert Qualifies(s, f);
    } else {
      assert Dist(g, e) < Dist(f, e);
      FilledTouchesEmpty(s, g, e);
    }
  }

  /** The candidate list follows the source's rule for which cells are retained: with more
      than five cells at or above the threshold they are retained exactly; otherwise the
      first five of the sorted list, none with a lower potential than a cell left out. The
      sorted list is the scored cells in descending order of potential, cells of equal
      potential in row-major order. */
  lemma RetainedRule(s: Snapshot)
    ensures var sorted := SortDesc(Scored(s));
      && multiset(sorted) == multiset(Scored(s))
      && SortedDesc(sorted)
      && (forall v :: WithKey(sorted, v) == WithKey(Scored(s), v))
      && (|AtLeast(sorted, Limit)| > 5 ==>
            forall e :: e in Retained(sorted) <==> e in Scored(s) && e.1 >= Limit)
      && (|AtLeast(sorted, Limit)| <= 5 ==>
            var n := if |sorted| <= 5 then |sorted| else 5;
            && Retained(sorted) == sorted[..n]
            && forall a, b | 0 <= a < n <= b < |sorted| :: sorted[a].1 >= sorted[b].1)
  {
    SortFacts(Scored(s));
    RetainedOfSorted(SortDesc(Scored(s)), Scored(s));
  }

  /** The sort keeps the items, orders them by descending key and keeps equal keys in order. */
  lemma SortFacts(xs: seq<(Pos, int)>)
    ensures multiset(SortDesc(xs)) == multiset(xs)
    ensures SortedDesc(SortDesc(xs))
    ensures forall v :: WithKey(SortDesc(xs), v) == WithKey(xs, v)
    ensures forall e :: e in SortDesc(xs) <==> e in xs
  {
    SortDescPermutes(xs);
    SortDescSorted(xs);
    forall v ensures WithKey(SortDesc(xs), v) == WithKey(xs, v) {
      SortDescStable(xs, v);
    }
    forall e ensures e in SortDesc(xs) <==> e in xs {
      assert e in SortDesc(xs) <==> e in multiset(SortDesc(xs));
    }
  }

  /** Which items of a sorted list are retained. */
  lemma RetainedOfSorted(sorted: seq<(Pos, int)>, xs: seq<(Pos, int)>)
    requires SortedDesc(sorted)
    requires forall e :: e in sorted <==> e in xs
    ensures |AtLeast(sorted, Limit)| > 5 ==>
      forall e :: e in Retained(sorted) <==> e in xs && e.1 >= Limit
    ensures |AtLeast(sorted, Limit)| <= 5 ==>
      var n := if |sorted| <= 5 then |sorted| else 5;
      && Retained(sorted) == sorted[..n]
      && forall a, b | 0 <= a < n <= b < |sorted| :: sorted[a].1 >= sorted[b].1
  {
    AtLeastMembers(sorted, Limit);
  }

  // ---------------------------------------------------------------------------------------
  // get_possible_combos

  /** The `surrounding` dict of p: the directions whose neighbour has a cell. */
  method Surround(s: Snapshot, p: Pos) returns (surrounding: seq<(int, int)>)
    ensures surrounding == SurroundingIn(s, p, Neighbours)
  {
    surrounding := [];
    var j := 0;
    while j < |Neighbours|
      invariant 0 <= j <= |Neighbours|
      invariant surrounding == SurroundingIn(s, p, Neighbours[..j])
    {
      var key := Neighbours[j];
      assert Neighbours[..j + 1][..j] == Neighbours[..j];
      if Offset(p, key, 1) in s.marks {
        surrounding := surrounding + [key];
      }
      j := j + 1;
    }
    assert Neighbours[..j] == Neighbours;
  }

  /** The `while` walk of one direction, adding to `potential` once per step. */
  method Walk(s: Snapshot, p: Pos, d: (int, int), m: string, potential: nat) returns (total: nat)
    requires WellFormed(s) && OnBoard(p, s.size) && d in Neighbours && m != " "
    requires Offset(p, d, 1) in s.marks
    ensures total == potential + DirPotential(s, p, d, m)
  {
    total := potential;
    var i := 0;
    var testMark := s.marks[Offset(p, d, 1)];
    while testMark == m
      invariant 0 <= i <= s.size
      invariant total == potential + i
      invariant testMark == MarkAt(s, Offset(p, d, if i == 0 then 1 else i))
      invariant DirPotential(s, p, d, m) ==
        if i == 0 then (if testMark == m then 1 + Ahead(s, p, d, m, 1) else 0) else i + Ahead(s, p, d, m, i)
      decreases s.size - i
    {
      OffsetBound(p, d, if i == 0 then 1 else i, s.size);
      total := total + 1;
      i := i + 1;
      var next := Offset(p, d, i);
      testMark := if next in s.marks then s.marks[next] else " ";
    }
  }

  /** The walks over every direction of `surrounding`, for a filled cell p reading m. */
  method CellPotential(s: Snapshot, p: Pos, m: string, surrounding: seq<(int, int)>) returns (potential: nat)
    requires WellFormed(s) && OnBoard(p, s.size) && m != " "
    requires forall d | d in surrounding :: d in Neighbours && Offset(p, d, 1) in s.marks
    ensures potential == SumDir(s, p, m, surrounding)
  {
    potential := 0;
    var j := 0;
    while j < |surrounding|
      invariant 0 <= j <= |surrounding|
      invariant potential == SumDir(s, p, m, surrounding[..j])
    {
      assert surrounding[..j + 1][..j] == surrounding[..j];
      potential := Walk(s, p, surrounding[j], m, potential);
      j := j + 1;
    }
    assert surrounding[..j] == surrounding;
  }

  /** The body of the first loop for the cell at p: its `result` entry, when it is filled and
      some cell of its `surrounding` dict is empty. */
  method ScoreCell(s: Snapshot, p: Pos) returns (entry: seq<(Pos, int)>)
    requires WellFormed(s) && OnBoard(p, s.size)
    ensures entry == if Qualifies(s, p) then [(p, Potential(s, p))] else []
  {
    entry := [];
    var cellMark := s.marks[p];
    if cellMark != " " {
      var surrounding := Surround(s, p);
      SurroundingMembers(s, p, Neighbours);
      if exists d | d in surrounding :: s.marks[Offset(p, d, 1)] == " " {
        var potential := CellPotential(s, p, cellMark, surrounding);
        entry := [(p, potential)];
      }
    }
  }

  /** The first loop: the `result` dict over every cell in dictionary order. (Its test
      `cell.name not in result.keys()` always holds, since each cell is visited once, and is
      not repeated here.) */
  method ScoreCells(s: Snapshot) returns (result: seq<(Pos, int)>)
    requires WellFormed(s)
    ensures result == Scored(s)
  {
    result := [];
    var order := RowMajor(s.size);
    var k := 0;
    while k < |order|
      invariant 0 <= k <= |order|
      invariant result == ScoredIn(s, order[..k])
    {
      ScoredInStep(s, order, k);
      var entry := ScoreCell(s, order[k]);
      result := result + entry;
      k := k + 1;
    }
    assert order[..k] == order;
  }

  /** The second loop: the empty neighbours of every retained cell, in order. */
  method GatherEmpty(s: Snapshot, reduced: seq<(Pos, int)>) returns (emptyCells: seq<Pos>)
    ensures emptyCells == Gathered(s, reduced)
  {
    emptyCells := [];
    var k := 0;
    while k < |reduced|
      invariant 0 <= k <= |reduced|
      invariant emptyCells == Gathered(s, reduced[..k])
    {
      var name := reduced[k].0;
      assert reduced[..k + 1][..k] == reduced[..k];
      var j := 0;
      while j < |Neighbours|
        invariant 0 <= j <= |Neighbours|
        invariant emptyCells == Gathered(s, reduced[..k]) + EmptyNeighboursIn(s, name, Neighbours[..j])
      {
        assert Neighbours[..j + 1][..j] == Neighbours[..j];
        var key := Neighbours[j];
        var testCell := Offset(name, key, 1);
        if testCell in s.marks && s.marks[testCell] == " " {
          emptyCells := emptyCells + [testCell];
        }
        j := j + 1;
      }
      assert Neighbours[..j] == Neighbours;
      k := k + 1;
    }
    assert reduced[..k] == reduced;
  }

  /** `get_possible_combos(board)`. */
  method GetPossibleCombos(s: Snapshot) returns (combos: seq<Pos>)
    requires WellFormed(s)
    ensures combos == Candidates(s)
  {
    var result := ScoreCells(s);
    var sorted := SortDesc(result);
    var reducedResults := AtLeast(sorted, Limit);
    reducedResults := if |reducedResults| > 5 then reducedResults else if |sorted| <= 5 then sorted else sorted[..5];
    var emptyCells := GatherEmpty(s, reducedResults);
    combos := Dedup(emptyCells);
  }

  // ---------------------------------------------------------------------------------------
  // minimax

  /** A mark a player can put on the board. */
  predicate RealMark(m: Option<string>)
  {
    m.Some? && m.value != " "
  }

  /** The mark the mover puts: player 1's when it equals `get_player`'s answer, else player 2's. */
  function MoverMark(s: Snapshot, m1: Option<string>, m2: Option<string>): Option<string>
  {
    if Some(GetPlayer(s)) == m1 then m1 else m2
  }

  /** `max(a, b)` when maximising, `min(a, b)` otherwise. */
  function Better(isMax: bool, a: int, b: int): int
  {
    if isMax then (if a >= b then a else b) else (if a <= b then a else b)
  }

  /** The start value of the loop: `-inf` when maximising, `inf` otherwise. */
  function Start(isMax: bool): int
  {
    if isMax then NegInf else PosInf
  }

  /** The loop's `value` after folding xs into init. */
  function Fold(isMax: bool, init: int, xs: seq<int>): int
  {
    if xs == [] then init else Better(isMax, Fold(isMax, init, xs[..|xs| - 1]), xs[|xs| - 1])
  }

  /** The fold is the best of init and xs for the mover: no worse than any, equal to one. */
  lemma {:induction false} FoldBounds(isMax: bool, init: int, xs: seq<int>)
    ensures var r := Fold(isMax, init, xs);
      && (isMax ==> r >= init && forall k | 0 <= k < |xs| :: r >= xs[k])
      && (!isMax ==> r <= init && forall k | 0 <= k < |xs| :: r <= xs[k])
      && (r == init || exists k | 0 <= k < |xs| :: r == xs[k])
  {
    if xs != [] {
      var front := xs[..|xs| - 1];
      FoldBounds(isMax, init, front);
      assert forall k | 0 <= k < |front| :: front[k] == xs[k];
    }
  }

  /** Folding scores no worse than the start value gives the start value for no scores and
      one of the scores otherwise; real scores give a real score. */
  lemma FoldFromStart(isMax: bool, xs: seq<int>)
    requires forall k | 0 <= k < |xs| :: NegInf <= xs[k] <= PosInf
    ensures xs == [] ==> Fold(isMax, Start(isMax), xs) == Start(isMax)
    ensures xs != [] ==> exists k | 0 <= k < |xs| :: Fold(isMax, Start(isMax), xs) == xs[k]
    ensures xs != [] && (forall k | 0 <= k < |xs| :: -1 <= xs[k] <= 1) ==>
      -1 <= Fold(isMax, Start(isMax), xs) <= 1
  {
    FoldBounds(isMax, Start(isMax), xs);
    if xs != [] {
      var v := Fold(isMax, Start(isMax), xs);
      if v == Start(isMax) {
        assert v == xs[0];
      }
    }
  }

  /** The search's value of a board reached at `depth`: the winner's score on a terminal
      board; 0 once the incremented depth reaches 4; otherwise the maximum ('x' to move) or
      minimum ('o' to move) over the candidates, starting from the matching infinity. */
  function MinimaxValue(s: Snapshot, m1: Option<string>, m2: Option<string>, depth: nat): int
    decreases 4 - depth, 1, 0
  {
    var state := Terminal(s);
    if state.0 then GameResult(state.1)
    else if depth + 1 >= 4 then 0
    else
      var isMax := GetPlayer(s) == "x";
      Fold(isMax, Start(isMax), ChildScores(s, m1, m2, depth + 1, Candidates(s)))
  }

  /** The values of the boards the mover reaches by playing each of `moves`. */
  function ChildScores(s: Snapshot, m1: Option<string>, m2: Option<string>, depth: nat, moves: seq<Pos>): (r: seq<int>)
    requires depth <= 4
    ensures |r| == |moves|
    decreases 5 - depth, 0, |moves|
  {
    if moves == [] then []
    else
      ChildScores(s, m1, m2, depth, moves[..|moves| - 1]) + [ChildValue(s, m1, m2, depth, moves[|moves| - 1])]
  }

  /** The value of the board the mover reaches by playing c. */
  function ChildValue(s: Snapshot, m1: Option<string>, m2: Option<string>, depth: nat, c: Pos): int
    requires depth <= 4
    decreases 5 - depth, 0, 0
  {
    MinimaxValue(Play(s, c, MoverMark(s, m1, m2)), m1, m2, depth)
  }

  /** The value lies between the two infinities on every board. */
  lemma {:induction false} MinimaxInRange(s: Snapshot, m1: Option<string>, m2: Option<string>, depth: nat)
    ensures NegInf <= MinimaxValue(s, m1, m2, depth) <= PosInf
    decreases 4 - depth, 1
  {
    if !Terminal(s).0 && depth + 1 < 4 {
      var isMax := GetPlayer(s) == "x";
      ChildScoresInRange(s, m1, m2, depth + 1, Candidates(s));
      FoldBounds(isMax, Start(isMax), ChildScores(s, m1, m2, depth + 1, Candidates(s)));
    }
  }

  lemma {:induction false} ChildScoresInRange(s: Snapshot, m1: Option<string>, m2: Option<string>, depth: nat, moves: seq<Pos>)
    requires depth <= 4
    ensures forall k | 0 <= k < |moves| :: NegInf <= ChildScores(s, m1, m2, depth, moves)[k] <= PosInf
    decreases 5 - depth, 0, |moves|
  {
    if moves != [] {
      ChildScoresInRange(s, m1, m2, depth, moves[..|moves| - 1]);
      MinimaxInRange(Play(s, moves[|moves| - 1], MoverMark(s, m1, m2)), m1, m2, depth);
    }
  }

  lemma {:induction false} ChildScoresAt(s: Snapshot, m1: Option<string>, m2: Option<string>, depth: nat, moves: seq<Pos>, k: int)
    requires depth <= 4 && 0 <= k < |moves|
    ensures ChildScores(s, m1, m2, depth, moves)[k] == ChildValue(s, m1, m2, depth, moves[k])
    decreases |moves|
  {
    if k < |moves| - 1 {
      var front := moves[..|moves| - 1];
      ChildScoresAt(s, m1, m2, depth, front, k);
      assert front[k] == moves[k];
    }
  }

  /** On a terminal board the search returns the winner's score; on another board reached at
      depth 3 or more it returns 0, because the depth is incremented before the test. */
  lemma MinimaxStops(s: Snapshot, m1: Option<string>, m2: Option<string>, depth: nat)
    ensures Terminal(s).0 ==> MinimaxValue(s, m1, m2, depth) == GameResult(Terminal(s).1)
    ensures Terminal(s).0 && Terminal(s).1 == "-" ==> MinimaxValue(s, m1, m2, depth) == 0
    ensures !Terminal(s).0 && depth >= 3 ==> MinimaxValue(s, m1, m2, depth) == 0
  {
  }

  /** Below the cutoff the search folds its children's values. */
  lemma MinimaxUnfolds(s: Snapshot, m1: Option<string>, m2: Option<string>, depth: nat)
    requires !Terminal(s).0 && depth < 3
    ensures var isMax := GetPlayer(s) == "x";
      MinimaxValue(s, m1, m2, depth) == Fold(isMax, Start(isMax), ChildScores(s, m1, m2, depth + 1, Candidates(s)))
  {
  }

  /** Folding the children's values of a move list with max or min: no child is better than
      the fold, some child attains it, and with no moves the start value comes back. */
  lemma {:induction false} FoldOfChildren(s: Snapshot, m1: Option<string>, m2: Option<string>, depth: nat,
                                          isMax: bool, cs: seq<Pos>)
    requires depth <= 4
    ensures var v := Fold(isMax, Start(isMax), ChildScores(s, m1, m2, depth, cs));
      && (forall c | c in cs :: if isMax then v >= ChildValue(s, m1, m2, depth, c) else v <= ChildValue(s, m1, m2, depth, c))
      && (cs != [] ==> exists c | c in cs :: v == ChildValue(s, m1, m2, depth, c))
      && (cs == [] ==> v == Start(isMax))
  {
    var scores := ChildScores(s, m1, m2, depth, cs);
    var v := Fold(isMax, Start(isMax), scores);
    ChildScoresInRange(s, m1, m2, depth, cs);
    FoldBounds(isMax, Start(isMax), scores);
    FoldFromStart(isMax, scores);
    forall c | c in cs
      ensures if isMax then v >= ChildValue(s, m1, m2, depth, c) else v <= ChildValue(s, m1, m2, depth, c)
    {
      var k :| 0 <= k < |cs| && cs[k] == c;
      ChildScoresAt(s, m1, m2, depth, cs, k);
    }
    if cs != [] {
      var k :| 0 <= k < |scores| && v == scores[k];
      ChildScoresAt(s, m1, m2, depth, cs, k);
      assert cs[k] in cs;
    }
  }

  /** Below the cutoff the value is the best child for the mover: no child is better, some
      child attains it, and with no candidates the infinity start value comes back. */
  lemma MinimaxIsExtremal(s: Snapshot, m1: Option<string>, m2: Option<string>, depth: nat)
    requires !Terminal(s).0 && depth < 3
    ensures var v := MinimaxValue(s, m1, m2, depth);
      && (forall c | c in Candidates(s) ::
            if GetPlayer(s) == "x" then v >= ChildValue(s, m1, m2, depth + 1, c) else v <= ChildValue(s, m1, m2, depth + 1, c))
      && (Candidates(s) != [] ==> exists c | c in Candidates(s) :: v == ChildValue(s, m1, m2, depth + 1, c))
      && (Candidates(s) == [] ==> v == Start(GetPlayer(s) == "x"))
  {
    MinimaxUnfolds(s, m1, m2, depth);
    FoldOfChildren(s, m1, m2, depth + 1, GetPlayer(s) == "x", Candidates(s));
  }

  /** A board that is not over, has a filled cell and whose counter agrees with the cells
      has a candidate move. */
  lemma OpenBoardHasCandidate(s: Snapshot)
    requires WellFormed(s) && Consistent(s) && s.filled >= 1 && !Terminal(s).0
    ensures Candidates(s) != []
  {
    var f :| f in NonEmpty(s);
    // the counter is short of the number of cells, so some cell is not counted
    var rest := s.marks.Keys - NonEmpty(s);
    assert s.marks.Keys == NonEmpty(s) + rest && NonEmpty(s) * rest == {};
    assert |rest| > 0;
    var e :| e in rest;
    FilledTouchesEmpty(s, f, e);
    CandidatesEmptyIff(s);
  }

  /** The infinity start value never escapes the search on a board a game can reach: when
      the board has a filled cell, its counter agrees with the cells and both players hold
      real marks, the value is a real score. */
  lemma {:induction false} MinimaxIsScore(s: Snapshot, m1: Option<string>, m2: Option<string>, depth: nat)
    requires WellFormed(s) && Consistent(s) && s.filled >= 1
    requires RealMark(m1) && RealMark(m2)
    ensures -1 <= MinimaxValue(s, m1, m2, depth) <= 1
    decreases 4 - depth, 1
  {
    if !Terminal(s).0 && depth + 1 < 4 {
      var cs := Candidates(s);
      var isMax := GetPlayer(s) == "x";
      var scores := ChildScores(s, m1, m2, depth + 1, cs);
      OpenBoardHasCandidate(s);
      forall k | 0 <= k < |cs| ensures -1 <= scores[k] <= 1 {
        ChildScoresAt(s, m1, m2, depth + 1, cs, k);
        ChildIsScore(s, m1, m2, depth + 1, cs[k]);
      }
      FoldFromStart(isMax, scores);
    }
  }

  lemma {:induction false} ChildIsScore(s: Snapshot, m1: Option<string>, m2: Option<string>, depth: nat, c: Pos)
    requires WellFormed(s) && Consistent(s) && s.filled >= 1
    requires RealMark(m1) && RealMark(m2) && depth <= 4
    ensures -1 <= ChildValue(s, m1, m2, depth, c) <= 1
    decreases 5 - depth, 0
  {
    PlayKeepsConsistent(s, c, MoverMark(s, m1, m2));
    MinimaxIsScore(Play(s, c, MoverMark(s, m1, m2)), m1, m2, depth);
  }

  /** `minimax(cells, size, condition, player_1, player_2, depth)`, on the board value the
      cells rebuild. */
  method Minimax(s: Snapshot, m1: Option<string>, m2: Option<string>, depth: nat) returns (value: int)
    requires WellFormed(s)
    ensures value == MinimaxValue(s, m1, m2, depth)
    decreases 4 - depth, 4
  {
    var currentState := Terminal(s);
    if currentState.0 {
      return GameResult(currentState.1);
    }
    var d := depth + 1;
    if d >= 4 {
      return GameResult("-");
    }
    var combos;
    value, combos := Descend(s, m1, m2, depth);
    MinimaxUnfolds(s, m1, m2, depth);
  }

  /** The rest of `minimax` below the cutoff: the candidate moves and the fold of their
      values, with the mover's mark and the maximising flag taken from `get_player`. */
  method Descend(s: Snapshot, m1: Option<string>, m2: Option<string>, depth: nat)
    returns (value: int, combos: seq<Pos>)
    requires WellFormed(s) && depth < 3
    ensures combos == Candidates(s)
    ensures value == Fold(GetPlayer(s) == "x", Start(GetPlayer(s) == "x"), ChildScores(s, m1, m2, depth + 1, combos))
    decreases 4 - depth, 3
  {
    combos := GetPossibleCombos(s);
    value := FoldCandidates(s, m1, m2, depth, combos);
  }

  /** The mover's mark (`current_player`), the choice of `max` or `min` and the start value
      taken from `get_player`, then the loop over the given moves. */
  method FoldCandidates(s: Snapshot, m1: Option<string>, m2: Option<string>, depth: nat, combos: seq<Pos>)
    returns (value: int)
    requires WellFormed(s) && depth < 3
    ensures value == Fold(GetPlayer(s) == "x", Start(GetPlayer(s) == "x"), ChildScores(s, m1, m2, depth + 1, combos))
    decreases 4 - depth, 2
  {
    var currentMark := GetPlayer(s);
    var currentPlayer := MoverMark(s, m1, m2);
    value := FoldChildren(s, m1, m2, depth + 1, currentMark == "x", currentPlayer, combos);
  }

  /** The loop of `minimax` over the candidate moves: `value` folds their values with `max`
      or `min`. */
  method FoldChildren(s: Snapshot, m1: Option<string>, m2: Option<string>, d: nat, isMax: bool,
                      currentPlayer: Option<string>, combos: seq<Pos>) returns (value: int)
    requires WellFormed(s) && d <= 4 && currentPlayer == MoverMark(s, m1, m2)
    ensures value == Fold(isMax, Start(isMax), ChildScores(s, m1, m2, d, combos))
    decreases 5 - d, 1
  {
    value := if isMax then NegInf else PosInf;
    var k := 0;
    while k < |combos|
      invariant 0 <= k <= |combos|
      invariant value == Fold(isMax, Start(isMax), ChildScores(s, m1, m2, d, combos[..k]))
    {
      var turnResult := ChildSearch(s, m1, m2, d, currentPlayer, combos[k]);
      FoldChildrenStep(s, m1, m2, d, isMax, combos, k);
      value := Better(isMax, value, turnResult);
      k := k + 1;
    }
    assert combos[..k] == combos;
  }

  /** The children's values of one more move are the earlier ones followed by its value. */
  lemma ChildScoresStep(s: Snapshot, m1: Option<string>, m2: Option<string>, d: nat, moves: seq<Pos>, k: int)
    requires d <= 4 && 0 <= k < |moves|
    ensures ChildScores(s, m1, m2, d, moves[..k + 1])
         == ChildScores(s, m1, m2, d, moves[..k]) + [ChildValue(s, m1, m2, d, moves[k])]
  {
    assert moves[..k + 1][..k] == moves[..k];
  }

  /** Folding the children's values of one more move combines its value with the fold so far. */
  lemma FoldChildrenStep(s: Snapshot, m1: Option<string>, m2: Option<string>, d: nat, isMax: bool,
                         moves: seq<Pos>, k: int)
    requires d <= 4 && 0 <= k < |moves|
    ensures Fold(isMax, Start(isMax), ChildScores(s, m1, m2, d, moves[..k + 1]))
         == Better(isMax, Fold(isMax, Start(isMax), ChildScores(s, m1, m2, d, moves[..k])),
                   ChildValue(s, m1, m2, d, moves[k]))
  {
    ChildScoresStep(s, m1, m2, d, moves, k);
    FoldSnoc(isMax, Start(isMax), ChildScores(s, m1, m2, d, moves[..k]), ChildValue(s, m1, m2, d, moves[k]));
  }

  /** Folding one more score combines it with the fold so far. */
  lemma FoldSnoc(isMax: bool, init: int, xs: seq<int>, y: int)
    ensures Fold(isMax, init, xs + [y]) == Better(isMax, Fold(isMax, init, xs), y)
  {
    assert (xs + [y])[..|xs|] == xs;
  }

  /** One step of the loop: the mover's mark on a copy of the board at c, then the search one
      level deeper. */
  method ChildSearch(s: Snapshot, m1: Option<string>, m2: Option<string>, d: nat,
                     currentPlayer: Option<string>, c: Pos) returns (turnResult: int)
    requires WellFormed(s) && d <= 4 && currentPlayer == MoverMark(s, m1, m2)
    ensures turnResult == ChildValue(s, m1, m2, d, c)
    decreases 5 - d, 0
  {
    var newBoard := Play(s, c, currentPlayer);
    turnResult := Minimax(newBoard, m1, m2, d);
  }

  // ---------------------------------------------------------------------------------------
  // test and autoturn

  /** `test(board, player_1, player_2, combo)`: player 2's mark on a copy, then the search
      from depth 0. */
  function TestValue(s: Snapshot, m1: Option<string>, m2: Option<string>, combo: Pos): int
  {
    MinimaxValue(Play(s, combo, m2), m1, m2, 0)
  }

  method Test(s: Snapshot, m1: Option<string>, m2: Option<string>, combo: Pos) returns (score: int)
    requires WellFormed(s)
    ensures score == MinimaxValue(Play(s, combo, m2), m1, m2, 0)
  {
    var newBoard := Play(s, combo, m2);
    score := Minimax(newBoard, m1, m2, 0);
  }

  /** The scores of a results list. */
  function ScoresOf(results: seq<(Pos, int)>): (r: seq<int>)
    ensures |r| == |results| && forall k | 0 <= k < |results| :: r[k] == results[k].1
  {
    seq(|results|, k requires 0 <= k < |results| => results[k].1)
  }

  /** `max(xs)` or `min(xs)` of a non-empty list. */
  function Extreme(isMax: bool, xs: seq<int>): (t: int)
    requires |xs| > 0
    ensures exists k | 0 <= k < |xs| :: xs[k] == t
    ensures forall k | 0 <= k < |xs| :: if isMax then t >= xs[k] else t <= xs[k]
  {
    FoldBounds(isMax, xs[0], xs[1..]);
    assert forall k | 0 <= k < |xs[1..]| :: xs[1..][k] == xs[k + 1];
    Fold(isMax, xs[0], xs[1..])
  }

  /** `sum(same_results)`: how many results have score t. */
  function CountScore(results: seq<(Pos, int)>, t: int): (n: nat)
    ensures n <= |results|
    ensures n == |results| <==> forall k | 0 <= k < |results| :: results[k].1 == t
  {
    if results == [] then 0
    else
      assert forall k | 0 <= k < |results[1..]| :: results[1..][k] == results[k + 1];
      (if results[0].1 == t then 1 else 0) + CountScore(results[1..], t)
  }

  /** The first index with score t, or |results| when there is none. */
  function FirstIndex(results: seq<(Pos, int)>, t: int): (k: nat)
    ensures k <= |results|
    ensures k < |results| ==> results[k].1 == t
    ensures forall j | 0 <= j < k :: results[j].1 != t
  {
    if results == [] then 0
    else if results[0].1 == t then 0
    else 1 + FirstIndex(results[1..], t)
  }

  /** The selection of `autoturn` over its results list, with the random index as `pick`:
      `max`/`min` of no scores raises ValueError; when every score ties, the picked entry;
      otherwise the first entry with the extremal score. */
  function Select(results: seq<(Pos, int)>, isMax: bool, pick: int): Outcome<Pos>
    requires |results| > 0 ==> 0 <= pick < |results|
  {
    if |results| == 0 then Raised(ValueError)
    else
      var target := Extreme(isMax, ScoresOf(results));
      if CountScore(results, target) == |results| then Returned(results[pick].0)
      else
        var k := FirstIndex(results, target);
        if k < |results| then Returned(results[k].0) else Returned((0, 0))
  }

  /** Entry k's score is the largest ('x' to move) or smallest ('o') of all. */
  predicate ExtremalAt(results: seq<(Pos, int)>, isMax: bool, k: int)
    requires 0 <= k < |results|
  {
    forall j | 0 <= j < |results| :: if isMax then results[k].1 >= results[j].1 else results[k].1 <= results[j].1
  }

  /** Every entry has the same score. */
  predicate AllTie(results: seq<(Pos, int)>)
  {
    forall j | 0 <= j < |results| :: results[j].1 == results[0].1
  }

  /** The selected move is an entry whose score is the largest ('x' to move) or smallest
      ('o') of all; when the scores do not all tie it is the first such entry, and when they
      do it is the picked one. No results raise ValueError. */
  lemma SelectPicksExtremal(results: seq<(Pos, int)>, isMax: bool, pick: int)
    requires |results| > 0 ==> 0 <= pick < |results|
    ensures Select(results, isMax, pick).Raised? <==> results == []
    ensures Select(results, isMax, pick).Raised? ==> Select(results, isMax, pick).error == ValueError
    ensures Select(results, isMax, pick).Returned? ==>
      exists k | 0 <= k < |results| ::
        && results[k].0 == Select(results, isMax, pick).value
        && ExtremalAt(results, isMax, k)
        && (AllTie(results) || forall j | 0 <= j < k :: results[j].1 != results[k].1)
    ensures AllTie(results) && results != [] ==> Select(results, isMax, pick) == Returned(results[pick].0)
  {
    if results != [] {
      var target := Extreme(isMax, ScoresOf(results));
      var w :| 0 <= w < |results| && results[w].1 == target;
      if CountScore(results, target) == |results| {
        assert results[pick].1 == target;
        assert ExtremalAt(results, isMax, pick);
        assert Select(results, isMax, pick) == Returned(results[pick].0);
      } else {
        var k := FirstIndex(results, target);
        assert k <= w;
        assert ExtremalAt(results, isMax, k);
        assert Select(results, isMax, pick) == Returned(results[k].0);
        assert !AllTie(results) by {
          assert results[w].1 != results[0].1 || results[0].1 == target;
        }
      }
    }
  }

  /** The selection loop of `autoturn`. The `return 0, 0` after the loop cannot be reached:
      the target is one of the scores. */
  method SelectMove(results: seq<(Pos, int)>, isMax: bool, pick: int) returns (r: Outcome<Pos>)
    requires |results| > 0 ==> 0 <= pick < |results|
    ensures r == Select(results, isMax, pick)
  {
    if |results| == 0 {
      return Raised(ValueError);
    }
    var targetValue := Extreme(isMax, ScoresOf(results));
    if CountScore(results, targetValue) == |results| {
      return Returned(results[pick].0);
    }
    var item := 0;
    while item < |results|
      invariant 0 <= item <= |results|
      invariant forall j | 0 <= j < item :: results[j].1 != targetValue
    {
      if results[item].1 == targetValue {
        return Returned(results[item].0);
      }
      item := item + 1;
    }
    assert false;
  }

  /** The results list `autoturn` collects: each candidate with its `test` score, in the
      order the candidates come. */
  function Tested(s: Snapshot, m1: Option<string>, m2: Option<string>, cs: seq<Pos>): (r: seq<(Pos, int)>)
    ensures |r| == |cs|
  {
    if cs == [] then []
    else Tested(s, m1, m2, cs[..|cs| - 1]) + [(cs[|cs| - 1], TestValue(s, m1, m2, cs[|cs| - 1]))]
  }

  lemma {:induction false} TestedAt(s: Snapshot, m1: Option<string>, m2: Option<string>, cs: seq<Pos>, k: int)
    requires 0 <= k < |cs|
    ensures Tested(s, m1, m2, cs)[k] == (cs[k], TestValue(s, m1, m2, cs[k]))
  {
    if k < |cs| - 1 {
      var front := cs[..|cs| - 1];
      TestedAt(s, m1, m2, front, k);
      assert front[k] == cs[k];
    }
  }

  /** The results of one more combo are the earlier ones followed by its entry. */
  lemma TestedStep(s: Snapshot, m1: Option<string>, m2: Option<string>, cs: seq<Pos>, k: int)
    requires 0 <= k < |cs|
    ensures Tested(s, m1, m2, cs[..k + 1]) == Tested(s, m1, m2, cs[..k]) + [(cs[k], TestValue(s, m1, m2, cs[k]))]
  {
    assert cs[..k + 1][..k] == cs[..k];
  }

  /** Starting a `test` for each combo and collecting what they put on the queue, in the
      order they were started. */
  method TestAll(s: Snapshot, m1: Option<string>, m2: Option<string>, variationList: seq<Pos>)
    returns (results: seq<(Pos, int)>)
    requires WellFormed(s)
    ensures results == Tested(s, m1, m2, variationList)
  {
    results := [];
    var k := 0;
    while k < |variationList|
      invariant 0 <= k <= |variationList|
      invariant results == Tested(s, m1, m2, variationList[..k])
    {
      var score := Test(s, m1, m2, variationList[k]);
      TestedStep(s, m1, m2, variationList, k);
      results := results + [(variationList[k], score)];
      k := k + 1;
    }
    assert variationList[..k] == variationList;
  }

  /** What `autoturn` answers on a board value, with the random index as `pick % len(results)`:
      the middle cell of an empty board without any search, otherwise the selection over
      the candidates' `test` scores, the largest wanted when 'x' is to move. */
  function AutoTurnChoice(s: Snapshot, m1: Option<string>, m2: Option<string>, pick: nat): Outcome<Pos>
  {
    if s.filled == 0 then Returned(((s.size - 1) / 2, (s.size - 1) / 2))
    else
      var results := Tested(s, m1, m2, Candidates(s));
      Select(results, GetPlayer(s) == "x", if |results| > 0 then pick % |results| else 0)
  }

  /** `autoturn(board, players)`, on the board's value. */
  method AutoTurn(board: Board, players: seq<Player>, pick: nat) returns (r: Outcome<Pos>)
    requires board.Valid() && |players| == 2
    ensures r == AutoTurnChoice(board.State(), players[0].mark, players[1].mark, pick)
  {
    var s := board.State();
    StateIsValid(board);
    r := AutoTurnOn(s, players[0].mark, players[1].mark, pick);
    assert board.State() == s;
  }

  /** The body of `autoturn`: the middle cell when nothing is filled, otherwise the `test`
      score of every candidate and the selection over them. */
  method AutoTurnOn(s: Snapshot, m1: Option<string>, m2: Option<string>, pick: nat) returns (r: Outcome<Pos>)
    requires WellFormed(s)
    ensures r == AutoTurnChoice(s, m1, m2, pick)
  {
    if s.filled == 0 {
      return Returned(((s.size - 1) / 2, (s.size - 1) / 2));
    }
    var variationList := GetPossibleCombos(s);
    var results := TestAll(s, m1, m2, variationList);
    var currentPlayer := GetPlayer(s);
    var index := if |results| > 0 then pick % |results| else 0;
    r := SelectMove(results, currentPlayer == "x", index);
  }

  /** The selection over the scored moves picks one of them whose score is the best for the
      mover among all of them; it raises only when there are none. */
  lemma TestedPicksBest(s: Snapshot, m1: Option<string>, m2: Option<string>, cs: seq<Pos>, isMax: bool, pick: nat)
    ensures var results := Tested(s, m1, m2, cs);
      var r := Select(results, isMax, if |results| > 0 then pick % |results| else 0);
      && (r.Raised? <==> cs == [])
      && (r.Returned? ==>
            && r.value in cs
            && forall c | c in cs ::
                 if isMax then TestValue(s, m1, m2, r.value) >= TestValue(s, m1, m2, c)
                 else TestValue(s, m1, m2, r.value) <= TestValue(s, m1, m2, c))
  {
    var results := Tested(s, m1, m2, cs);
    var idx := if |results| > 0 then pick % |results| else 0;
    SelectPicksExtremal(results, isMax, idx);
    var r := Select(results, isMax, idx);
    if r.Returned? {
      var k :| 0 <= k < |results| && results[k].0 == r.value && ExtremalAt(results, isMax, k);
      TestedAt(s, m1, m2, cs, k);
      forall c | c in cs
        ensures if isMax then TestValue(s, m1, m2, r.value) >= TestValue(s, m1, m2, c)
                else TestValue(s, m1, m2, r.value) <= TestValue(s, m1, m2, c)
      {
        var j :| 0 <= j < |cs| && cs[j] == c;
        TestedAt(s, m1, m2, cs, j);
      }
    }
  }

  /** On a board a game reaches after its first move, every candidate's `test` score is a
      real score, not an infinity. */
  lemma CandidateScoresReal(s: Snapshot, m1: Option<string>, m2: Option<string>)
    requires WellFormed(s) && Consistent(s) && RealMark(m1) && RealMark(m2)
    ensures forall c | c in Candidates(s) :: -1 <= TestValue(s, m1, m2, c) <= 1
  {
    forall c | c in Candidates(s) ensures -1 <= TestValue(s, m1, m2, c) <= 1 {
      CandidatesSound(s);
      PlayKeepsConsistent(s, c, m2);
      MinimaxIsScore(Play(s, c, m2), m1, m2, 0);
    }
  }

  /** On an empty board `autoturn` answers the middle cell, (4, 4) on the 10 × 10 board,
      without searching. */
  lemma AutoTurnOpening(s: Snapshot, m1: Option<string>, m2: Option<string>, pick: nat)
    requires s.filled == 0 && s.size > 0
    ensures var r := AutoTurnChoice(s, m1, m2, pick);
      && r.Returned? && OnBoard(r.value, s.size)
      && 2 * r.value.0 <= s.size - 1 <= 2 * r.value.0 + 1 && r.value.0 == r.value.1
      && (s.size == 10 ==> r.value == (4, 4))
  {
  }

  /** Otherwise `autoturn` picks a candidate whose `test` score is the best for the mover
      among all candidates (the largest when 'x' is to move), and raises only when there are
      no candidates; when every score ties, it picks the candidate the random index names. */
  lemma AutoTurnPicksBestCandidate(s: Snapshot, m1: Option<string>, m2: Option<string>, pick: nat)
    requires s.filled != 0
    ensures var r := AutoTurnChoice(s, m1, m2, pick);
      && (r.Raised? <==> Candidates(s) == [])
      && (r.Returned? ==>
            && r.value in Candidates(s)
            && forall c | c in Candidates(s) ::
                 if GetPlayer(s) == "x" then TestValue(s, m1, m2, r.value) >= TestValue(s, m1, m2, c)
                 else TestValue(s, m1, m2, r.value) <= TestValue(s, m1, m2, c))
      && (Candidates(s) != [] && (forall c | c in Candidates(s) :: TestValue(s, m1, m2, c) == TestValue(s, m1, m2, Candidates(s)[0])) ==>
            r == Returned(Candidates(s)[pick % |Candidates(s)|]))
  {
    var cs := Candidates(s);
    TestedPicksBest(s, m1, m2, cs, GetPlayer(s) == "x", pick);
    var results := Tested(s, m1, m2, cs);
    if cs != [] && forall c | c in cs :: TestValue(s, m1, m2, c) == TestValue(s, m1, m2, cs[0]) {
      forall j | 0 <= j < |results| ensures results[j].1 == results[0].1 {
        TestedAt(s, m1, m2, cs, j);
        TestedAt(s, m1, m2, cs, 0);
      }
      SelectPicksExtremal(results, GetPlayer(s) == "x", pick % |results|);
      TestedAt(s, m1, m2, cs, pick % |results|);
    }
  }
}
