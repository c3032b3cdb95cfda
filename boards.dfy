/** The board: a size × size map of cells, the win condition, the filled-cell counter and
    the win test around the last marked cell (game_classes/board.py).

    The class `Board` holds the Cell objects as the source does; `Snapshot` is the value a
    board denotes (its marks as `get_mark` reads them), on which the search works and on
    which the board operations the search needs are defined. */
module Boards {
  import opened PyValues
  import opened Cells

  // ---------------------------------------------------------------------------------------
  // Positions and their order

  /** A position of a size × size board. */
  predicate OnBoard(p: Pos, n: int)
  {
    0 <= p.0 < n && 0 <= p.1 < n
  }

  /** Every position of a size × size board. */
  function Grid(n: int): (g: set<Pos>)
    ensures forall p :: p in g <==> OnBoard(p, n)
  {
    set p | p in RowMajor(n)
  }

  function Row(n: nat, i: int): seq<Pos>
  {
    seq(n, j => (i, j))
  }

  /** The positions of rows 0 .. i-1, row by row, in the order the constructor inserts them. */
  function RowsUpTo(n: nat, i: nat): (r: seq<Pos>)
    ensures |r| == i * n
    ensures forall p :: p in r <==> 0 <= p.0 < i && 0 <= p.1 < n
  {
    if i == 0 then []
    else
      var last := Row(n, i - 1);
      assert forall p :: p in last <==> p.0 == i - 1 && 0 <= p.1 < n by {
        forall p: Pos | p in last ensures p.0 == i - 1 && 0 <= p.1 < n { }
        forall p: Pos | p.0 == i - 1 && 0 <= p.1 < n ensures p in last { assert last[p.1] == p; }
      }
      RowsUpTo(n, i - 1) + last
  }

  /** No position comes twice: each row is new and holds distinct columns. */
  lemma {:induction false} RowsUpToDistinct(n: nat, i: nat)
    ensures forall a, b | 0 <= a < b < |RowsUpTo(n, i)| :: RowsUpTo(n, i)[a] != RowsUpTo(n, i)[b]
  {
    if i > 0 {
      RowsUpToDistinct(n, i - 1);
      var front := RowsUpTo(n, i - 1);
      var last := Row(n, i - 1);
      var r := front + last;
      assert RowsUpTo(n, i) == r;
      forall a, b | 0 <= a < b < |r| ensures r[a] != r[b] {
        if b < |front| {
          assert r[a] == front[a] && r[b] == front[b];
        } else if a >= |front| {
          assert r[a] == (i - 1, a - |front|) && r[b] == (i - 1, b - |front|);
        } else {
          assert r[a] == front[a] && front[a] in front;
          assert r[b] == (i - 1, b - |front|);
        }
      }
    }
  }

  /** The iteration order of the board's cell dictionary: row-major, because `__init__`
      inserts the cells row by row. */
  function RowMajor(n: int): (r: seq<Pos>)
    ensures forall p :: p in r <==> OnBoard(p, n)
  {
    if n <= 0 then [] else RowsUpTo(n, n)
  }

  /** Dictionary order starts at the corner cell (0, 0). */
  lemma RowMajorStartsAtOrigin(n: int)
    requires n > 0
    ensures |RowMajor(n)| > 0 && RowMajor(n)[0] == (0, 0)
  {
    RowsUpToStart(n, n);
  }

  lemma {:induction false} RowsUpToStart(n: nat, i: nat)
    requires n > 0 && i > 0
    ensures RowsUpTo(n, i)[0] == (0, 0)
  {
    if i > 1 {
      RowsUpToStart(n, i - 1);
    }
  }

  /** A duplicate-free sequence has as many distinct elements as it has positions. */
  lemma {:induction false} DistinctCard(r: seq<Pos>)
    requires forall a, b | 0 <= a < b < |r| :: r[a] != r[b]
    ensures |set p | p in r| == |r|
  {
    if r != [] {
      var tail := r[1..];
      DistinctCard(tail);
      assert (set p | p in r) == (set p | p in tail) + {r[0]};
      assert r[0] !in tail by {
        forall k | 0 <= k < |tail| ensures tail[k] != r[0] { assert tail[k] == r[k + 1]; }
      }
    }
  }

  /** A board of size n has exactly n² positions. */
  lemma GridCard(n: int)
    requires n > 0
    ensures |Grid(n)| == n * n
  {
    var r := RowsUpTo(n, n);
    RowsUpToDistinct(n, n);
    DistinctCard(r);
    assert (set p | p in r) == Grid(n);
  }

  // ---------------------------------------------------------------------------------------
  // The value a board denotes

  /** A board's value: size, win condition, the `filled_cells` counter and, for every
      position that has a cell, what `get_mark` reads there. */
  datatype Snapshot = Snapshot(size: int, condition: int, filled: int, marks: map<Pos, string>)

  /** A cell for every position and no other. */
  ghost predicate WellFormed(s: Snapshot)
  {
    s.size > 0 && forall p :: p in s.marks <==> OnBoard(p, s.size)
  }

  /** The invariant the setters and the constructor establish. */
  ghost predicate ValidSnapshot(s: Snapshot)
  {
    WellFormed(s) && 0 <= s.condition <= s.size && 0 <= s.filled <= s.size * s.size
  }

  /** The positions whose cell reads something other than `' '`. */
  function NonEmpty(s: Snapshot): set<Pos>
  {
    set p | p in s.marks && s.marks[p] != " "
  }

  /** The counter agrees with the cells: `filled_cells` is the number of non-empty cells. */
  predicate Consistent(s: Snapshot)
  {
    s.filled == |NonEmpty(s)|
  }

  /** A new board: every cell empty, nothing filled. */
  function FreshSnapshot(size: int, condition: int): Snapshot
  {
    Snapshot(size, condition, 0, map p | p in Grid(size) :: " ")
  }

  /** `min(condition, size)`, as the `condition` setter stores it. */
  function Clamp(condition: int, size: int): int
  {
    if size > condition then condition else size
  }

  /** A new board is valid, has exactly size² cells, all empty, and its counter (0) agrees
      with them; its condition is the requested one clamped to the size. */
  lemma FreshIsConsistent(size: int, condition: int)
    requires size > 0 && condition >= 0
    ensures var s := FreshSnapshot(size, Clamp(condition, size));
      && ValidSnapshot(s) && Consistent(s) && s.filled == 0
      && |s.marks| == size * size && (forall p | p in s.marks :: s.marks[p] == " ")
      && s.condition <= size && s.condition <= condition && (s.condition == condition || s.condition == size)
  {
    var s := FreshSnapshot(size, Clamp(condition, size));
    assert NonEmpty(s) == {};
    GridCard(size);
    assert s.marks.Keys == Grid(size);
  }

  // ---------------------------------------------------------------------------------------
  // The win test of `check_win_combo`

  /** The position at index t of a line through p: line 0 is p's row, 1 its column, 2 the
      diagonal (t, t + col - row) and 3 the anti-diagonal (t, row + col - t). */
  function LinePos(p: Pos, line: int, t: int): Pos
  {
    if line == 0 then (p.0, t)
    else if line == 1 then (t, p.1)
    else if line == 2 then (t, t + (p.1 - p.0))
    else (t, (p.0 + p.1) - t)
  }

  /** A position on the board whose cell reads m; a position off the board never matches. */
  predicate Matches(s: Snapshot, q: Pos, m: string)
  {
    q in s.marks && s.marks[q] == m
  }

  /** Indices lo .. hi-1 of the line all match m. */
  predicate RunOn(s: Snapshot, p: Pos, line: int, lo: int, hi: int, m: string)
  {
    forall t | lo <= t < hi :: Matches(s, LinePos(p, line, t), m)
  }

  /** Some line through p holds at least `condition` consecutive cells reading m. */
  predicate WinAt(s: Snapshot, p: Pos, m: string)
  {
    exists line, lo, hi | 0 <= line < 4 && 0 <= lo <= hi <= s.size && hi - lo >= s.condition
      :: RunOn(s, p, line, lo, hi, m)
  }

  /** What `check_win_combo` answers for a cell at p reading m: a win for m, else a draw when
      the counter says every cell is filled, else "go on". */
  function WinCombo(s: Snapshot, p: Pos, m: string): (r: (bool, string))
    ensures r.0 && r.1 != "-" ==> r.1 == m
  {
    if WinAt(s, p, m) then (true, m)
    else if s.filled == |s.marks| then (true, "-")
    else (false, "-")
  }

  /** The number of consecutive matching indices that end just before t: the value of one of
      the source's run counters after index t - 1. */
  function Streak(s: Snapshot, p: Pos, line: int, m: string, t: int): nat
    decreases t
  {
    if t <= 0 then 0
    else if Matches(s, LinePos(p, line, t - 1), m) then Streak(s, p, line, m, t - 1) + 1
    else 0
  }

  /** A streak is a run: the indices it counts all match. */
  lemma {:induction false} StreakIsRun(s: Snapshot, p: Pos, line: int, m: string, t: int)
    requires t >= 0
    ensures Streak(s, p, line, m, t) <= t
    ensures RunOn(s, p, line, t - Streak(s, p, line, m, t), t, m)
    decreases t
  {
    if t > 0 && Matches(s, LinePos(p, line, t - 1), m) {
      StreakIsRun(s, p, line, m, t - 1);
    }
  }

  /** A streak that reaches the condition within the board is a winning run. */
  lemma WinFromStreak(s: Snapshot, p: Pos, line: int, m: string, t: int)
    requires 0 <= line < 4 && 0 <= t <= s.size
    requires Streak(s, p, line, m, t) >= s.condition
    ensures WinAt(s, p, m)
  {
    StreakIsRun(s, p, line, m, t);
    var lo := t - Streak(s, p, line, m, t);
    assert RunOn(s, p, line, lo, t, m);
  }

  /** One of the four counters reaching the condition after index t - 1 is a win. */
  lemma SomeStreakWins(s: Snapshot, p: Pos, m: string, t: int)
    requires 0 <= t <= s.size
    requires Max4(Streak(s, p, 0, m, t), Streak(s, p, 1, m, t), Streak(s, p, 2, m, t), Streak(s, p, 3, m, t))
             >= s.condition
    ensures WinAt(s, p, m)
  {
    var line :| 0 <= line < 4 && Streak(s, p, line, m, t) >= s.condition;
    WinFromStreak(s, p, line, m, t);
  }

  /** A run is seen by the streak at its end. */
  lemma {:induction false} RunGivesStreak(s: Snapshot, p: Pos, line: int, m: string, lo: int, hi: int)
    requires 0 <= lo <= hi
    ensures RunOn(s, p, line, lo, hi, m) ==> Streak(s, p, line, m, hi) >= hi - lo
    decreases hi - lo
  {
    if lo < hi && RunOn(s, p, line, lo, hi, m) {
      assert Matches(s, LinePos(p, line, hi - 1), m);
      assert RunOn(s, p, line, lo, hi - 1, m);
      RunGivesStreak(s, p, line, m, lo, hi - 1);
    }
  }

  /** `condition` consecutive cells reading m in row i make a win for m at every cell of that
      row. */
  lemma RowRunWins(s: Snapshot, i: int, lo: int, hi: int, m: string, j: int)
    requires 0 <= lo <= hi <= s.size && hi - lo >= s.condition
    requires forall k | lo <= k < hi :: Matches(s, (i, k), m)
    ensures WinAt(s, (i, j), m)
  {
    assert forall t | lo <= t < hi :: LinePos((i, j), 0, t) == (i, t);
    assert RunOn(s, (i, j), 0, lo, hi, m);
  }

  // ---------------------------------------------------------------------------------------
  // Board operations the search uses (copy, single_turn, the zero-argument check_win_combo)

  /** `single_turn` on a board value: an existing empty cell gets the mark (as `set_mark`
      stores it) and the counter goes up by one; otherwise nothing changes. A copy of a
      board is the same value, so `copy` followed by `single_turn` is this function. The
      counter is not checked against size² here: on a board whose counter agrees with its
      cells the increment never passes size² (`Games.ConsistentTurnDoesNotOverflow`). */
  function Play(s: Snapshot, p: Pos, mark: Option<string>): (r: Snapshot)
    ensures r.size == s.size && r.condition == s.condition && r.marks.Keys == s.marks.Keys
  {
    if p in s.marks && s.marks[p] == " "
    then s.(marks := s.marks[p := ReadMark(mark)], filled := s.filled + 1)
    else s
  }

  /** A move on an empty cell changes that cell alone and bumps the counter; any other move
      changes nothing. */
  lemma PlayChangesOneCell(s: Snapshot, p: Pos, mark: Option<string>)
    ensures p in s.marks && s.marks[p] == " " ==>
      Play(s, p, mark).marks[p] == ReadMark(mark) && Play(s, p, mark).filled == s.filled + 1
      && forall q | q in s.marks && q != p :: Play(s, p, mark).marks[q] == s.marks[q]
    ensures !(p in s.marks && s.marks[p] == " ") ==> Play(s, p, mark) == s
  {
  }

  /** Marking an empty cell with a real mark keeps the counter equal to the number of
      non-empty cells. */
  lemma PlayKeepsConsistent(s: Snapshot, p: Pos, mark: Option<string>)
    requires Consistent(s)
    requires mark.Some? && mark.value != " "
    ensures Consistent(Play(s, p, mark))
    ensures p in s.marks && s.marks[p] == " " ==> NonEmpty(Play(s, p, mark)) == NonEmpty(s) + {p}
  {
    if p in s.marks && s.marks[p] == " " {
      assert NonEmpty(Play(s, p, mark)) == NonEmpty(s) + {p};
    }
  }

  /** On a consistent board that still has an empty cell, the counter is below size². */
  lemma ConsistentRoom(s: Snapshot, p: Pos)
    requires WellFormed(s) && Consistent(s)
    requires p in s.marks && s.marks[p] == " "
    ensures s.filled < s.size * s.size
  {
    GridCard(s.size);
    assert s.marks.Keys == Grid(s.size);
    var rest := s.marks.Keys - {p};
    assert NonEmpty(s) <= rest;
    assert rest == NonEmpty(s) + (rest - NonEmpty(s));
    assert |rest| == |s.marks.Keys| - 1;
  }

  /** The first position in `ps` whose cell is filled and gives a win for its own mark. */
  function FirstWinner(s: Snapshot, ps: seq<Pos>): (r: Option<Pos>)
    ensures r.Some? ==> r.value in s.marks
  {
    if ps == [] then None
    else if ps[0] in s.marks && s.marks[ps[0]] != " " && WinAt(s, ps[0], s.marks[ps[0]]) then Some(ps[0])
    else FirstWinner(s, ps[1..])
  }

  lemma {:induction false} FirstWinnerMeaning(s: Snapshot, ps: seq<Pos>)
    ensures var r := FirstWinner(s, ps);
      && (r.Some? ==>
            r.value in ps && r.value in s.marks && s.marks[r.value] != " "
            && WinAt(s, r.value, s.marks[r.value]))
      && (r.None? ==> forall p | p in ps && p in s.marks && s.marks[p] != " " :: !WinAt(s, p, s.marks[p]))
  {
    if ps != [] {
      FirstWinnerMeaning(s, ps[1..]);
      assert forall p | p in ps :: p == ps[0] || p in ps[1..];
    }
  }

  /** The zero-argument `check_win_combo()` the search calls, which the source does not
      show. Assumed meaning: `(True, mark)` when some filled cell wins under
      `check_win_combo` (the first in dictionary order), else `(True, '-')` when the
      counter says the board is full, else `(False, '-')`. */
  function Terminal(s: Snapshot): (r: (bool, string))
    ensures !r.0 ==> r.1 == "-"
    ensures r.0 && r.1 != "-" ==> r.1 in s.marks.Values
  {
    match FirstWinner(s, RowMajor(s.size))
    case Some(p) => (true, s.marks[p])
    case None => if s.filled == |s.marks| then (true, "-") else (false, "-")
  }

  /** A board whose corner cell (0, 0), the first in dictionary order, is filled and wins is
      over, won by that cell's mark. */
  lemma CornerWinIsTerminal(s: Snapshot)
    requires s.size > 0 && (0, 0) in s.marks && s.marks[(0, 0)] != " "
    requires WinAt(s, (0, 0), s.marks[(0, 0)])
    ensures Terminal(s) == (true, s.marks[(0, 0)])
  {
    RowMajorStartsAtOrigin(s.size);
  }

  /** A terminal board with a winner has a filled cell winning for that mark; a board that
      is not over has no winning filled cell and a counter short of the number of cells. */
  lemma TerminalMeaning(s: Snapshot)
    ensures var r := Terminal(s);
      && (r.0 && r.1 != "-" ==>
            exists p :: p in s.marks && s.marks[p] == r.1 && r.1 != " " && WinAt(s, p, r.1))
      && (!r.0 <==> s.filled != |s.marks| && FirstWinner(s, RowMajor(s.size)).None?)
      && (WellFormed(s) && !r.0 ==>
            forall p | p in s.marks && s.marks[p] != " " :: !WinAt(s, p, s.marks[p]))
  {
    FirstWinnerMeaning(s, RowMajor(s.size));
  }

  // ---------------------------------------------------------------------------------------
  // The board object

  class Board {
    var size: int
    var condition: int
    var filledCells: int
    var cells: map<Pos, Cell>

    /** A cell for every position, each named by its position (so no cell is shared between
        two positions), and the setters' ranges. */
    ghost predicate Valid()
      reads this, cells.Values
    {
      && size > 0 && 0 <= condition <= size && 0 <= filledCells <= size * size
      && (forall p :: p in cells <==> OnBoard(p, size))
      && (forall p | p in cells :: cells[p].name == CellName(p.0, p.1))
    }

    /** The board's value. */
    function State(): (s: Snapshot)
      reads this, cells.Values
      ensures s.marks.Keys == cells.Keys
    {
      Snapshot(size, condition, filledCells, map p | p in cells :: cells[p].GetMark())
    }

    /** `Board(size, condition)`: the setters store the size and the clamped condition, the
        counter starts at 0, and the nested loop creates one empty cell per position. */
    constructor (size: int, condition: int)
      requires size > 0 && condition >= 0
      ensures Valid()
      ensures State() == FreshSnapshot(size, Clamp(condition, size))
    {
      new;
      var _ := SetSize(PyInt(size));
      var _ := SetCondition(PyInt(condition));
      var _ := SetFilledCells(PyInt(0));
      cells := map[];
      var i := 0;
      while i < size
        invariant 0 <= i <= size
        invariant this.size == size && this.condition == Clamp(condition, size) && filledCells == 0
        invariant Built(i, 0)
      {
        AddRow(i);
        i := i + 1;
      }
      BuiltIsFresh();
    }

    /** The cells of rows 0 .. i-1 and of columns 0 .. j-1 of row i are present, and no
        other; each is named by its position and holds no mark. */
    ghost predicate Built(i: int, j: int)
      reads this, cells.Values
    {
      && (forall p :: p in cells <==> (0 <= p.0 < i && 0 <= p.1 < size) || (p.0 == i && 0 <= p.1 < j))
      && (forall p | p in cells :: cells[p].name == CellName(p.0, p.1) && cells[p].mark == None)
    }

    /** With every row built, the board is valid and every cell is empty. */
    lemma BuiltIsFresh()
      requires Built(size, 0) && size > 0 && 0 <= condition <= size && filledCells == 0
      ensures Valid() && State() == FreshSnapshot(size, condition)
    {
      assert State().marks == FreshSnapshot(size, condition).marks;
    }

    /** One pass of the constructor's inner loop: a new empty cell for each column of row i. */
    method AddRow(i: int)
      requires size > 0 && 0 <= i && Built(i, 0)
      modifies this
      ensures size == old(size) && condition == old(condition) && filledCells == old(filledCells)
      ensures Built(i + 1, 0)
    {
      var j := 0;
      while j < size
        invariant 0 <= j <= size
        invariant size == old(size) && condition == old(condition) && filledCells == old(filledCells)
        invariant Built(i, j)
      {
        AddCell(i, j);
        j := j + 1;
      }
      assert Built(i + 1, 0);
    }

    /** The inner loop's body: a new cell named (i, j), filed through the `cells` setter. */
    method AddCell(i: int, j: int)
      requires 0 <= i && 0 <= j < size && Built(i, j)
      modifies this
      ensures size == old(size) && condition == old(condition) && filledCells == old(filledCells)
      ensures Built(i, j + 1)
    {
      var cell := new Cell(CellName(i, j));
      SetCell(cell);
    }

    /** The `size` setter: a positive int, else ValueError and no change. */
    method SetSize(v: PyValue) returns (r: Outcome<()>)
      modifies this
      ensures r.Returned? <==> v.PyInt? && v.i > 0
      ensures r.Raised? ==> r.error == ValueError
      ensures size == (if r.Returned? then v.i else old(size))
      ensures condition == old(condition) && filledCells == old(filledCells) && cells == old(cells)
    {
      if v.PyInt? && v.i > 0 {
        size := v.i;
        return Returned(());
      }
      return Raised(ValueError);
    }

    /** The `condition` setter: a negative or non-int value raises ValueError; otherwise the
        stored condition is `min(condition, size)`. */
    method SetCondition(v: PyValue) returns (r: Outcome<()>)
      modifies this
      ensures r.Returned? <==> v.PyInt? && v.i >= 0
      ensures r.Raised? ==> r.error == ValueError
      ensures condition == (if r.Returned? then Clamp(v.i, size) else old(condition))
      ensures r.Returned? ==> condition <= size && condition <= v.i && (condition == v.i || condition == size)
      ensures size == old(size) && filledCells == old(filledCells) && cells == old(cells)
    {
      if !v.PyInt? || v.i < 0 {
        return Raised(ValueError);
      }
      if size > v.i {
        condition := v.i;
      } else {
        condition := size;
      }
      return Returned(());
    }

    /** The `filled_cells` setter: an int in [0, size²]. Its first test compares the value
        with size², which raises TypeError for a value that is not a number; a bool passes
        the comparisons and fails the type test. */
    method SetFilledCells(v: PyValue) returns (r: Outcome<()>)
      modifies this
      ensures r.Returned? <==> v.PyInt? && 0 <= v.i <= size * size
      ensures r.Raised? ==> r.error == (if IsIntInstance(v) then ValueError else TypeError)
      ensures filledCells == (if r.Returned? then v.i else old(filledCells))
      ensures size == old(size) && condition == old(condition) && cells == old(cells)
      ensures old(Valid()) ==> Valid()
      ensures State() == old(State()).(filled := filledCells)
    {
      if !IsIntInstance(v) {
        return Raised(TypeError);
      }
      var n := IntValue(v);
      if n > size * size || n < 0 || !v.PyInt? {
        return Raised(ValueError);
      }
      filledCells := n;
      return Returned(());
    }

    /** The `cells` setter: files the cell under its name. */
    method SetCell(cell: Cell)
      requires IsPairName(cell.name)
      modifies this
      ensures cells == old(cells)[NamePos(cell.name) := cell]
      ensures size == old(size) && condition == old(condition) && filledCells == old(filledCells)
    {
      cells := cells[NamePos(cell.name) := cell];
    }

    /** `check_win_combo(cell)`: one pass over the indices of the four lines through the
        cell, keeping a run counter per line that grows on a match and resets otherwise, and
        stopping as soon as one reaches the condition. Reads the board and changes nothing. */
    method CheckWinCombo(cell: Cell) returns (over: bool, winner: string)
      requires forall p :: p in cells <==> OnBoard(p, size)
      requires IsPairName(cell.name) && NamePos(cell.name) in cells
      ensures (over, winner) == WinCombo(State(), NamePos(cell.name), cell.GetMark())
    {
      ghost var s := State();
      assert Reads(s);
      var name := NamePos(cell.name);
      var mark := cell.GetMark();
      var won := ScanLines(s, name, mark);
      if won {
        return true, mark;
      }
      assert s.marks.Keys == cells.Keys;
      if filledCells == |cells| {
        return true, "-";
      }
      return false, "-";
    }

    /** The loop of `check_win_combo`: it stops with a win as soon as a counter reaches the
        condition, and ends without one otherwise. */
    method ScanLines(ghost s: Snapshot, name: Pos, mark: string) returns (won: bool)
      requires Reads(s) && forall p :: p in cells <==> OnBoard(p, size)
      requires s.size == size && s.condition == condition && name in cells
      ensures won == WinAt(s, name, mark)
    {
      var horizontal, vertical, diagonalRight, diagonalLeft := 0, 0, 0, 0;
      var i := 0;
      while i < size
        invariant 0 <= i <= size
        invariant horizontal == Streak(s, name, 0, mark, i) && vertical == Streak(s, name, 1, mark, i)
        invariant diagonalRight == Streak(s, name, 2, mark, i) && diagonalLeft == Streak(s, name, 3, mark, i)
        invariant QuietUpTo(s, name, mark, i)
      {
        horizontal, vertical, diagonalRight, diagonalLeft :=
          CountStep(s, name, mark, i, horizontal, vertical, diagonalRight, diagonalLeft);
        if Max4(horizontal, vertical, diagonalRight, diagonalLeft) >= condition {
          SomeStreakWins(s, name, mark, i + 1);
          return true;
        }
        QuietStep(s, name, mark, i);
        i := i + 1;
      }
      NoRunWhenQuiet(s, name, mark);
      return false;
    }

    /** One iteration's four counter updates at index i, the diagonal ones guarded by the
        bounds test: each counter becomes its line's streak after index i. */
    method CountStep(ghost s: Snapshot, name: Pos, mark: string, i: int,
                     horizontal: int, vertical: int, diagonalRight: int, diagonalLeft: int)
      returns (h: int, v: int, dr: int, dl: int)
      requires Reads(s) && forall p :: p in cells <==> OnBoard(p, size)
      requires name in cells && 0 <= i < size
      requires horizontal == Streak(s, name, 0, mark, i) && vertical == Streak(s, name, 1, mark, i)
      requires diagonalRight == Streak(s, name, 2, mark, i) && diagonalLeft == Streak(s, name, 3, mark, i)
      ensures h == Streak(s, name, 0, mark, i + 1) && v == Streak(s, name, 1, mark, i + 1)
      ensures dr == Streak(s, name, 2, mark, i + 1) && dl == Streak(s, name, 3, mark, i + 1)
    {
      var delta := name.1 - name.0;
      var sumIndex := name.0 + name.1;
      ReadsLine(s, name, 0, i, mark);
      if cells[(name.0, i)].GetMark() == mark {
        h := horizontal + 1;
      } else {
        h := 0;
      }
      ReadsLine(s, name, 1, i, mark);
      if cells[(i, name.1)].GetMark() == mark {
        v := vertical + 1;
      } else {
        v := 0;
      }
      ReadsLine(s, name, 2, i, mark);
      if 0 <= i + delta < size && cells[(i, i + delta)].GetMark() == mark {
        dr := diagonalRight + 1;
      } else {
        dr := 0;
      }
      ReadsLine(s, name, 3, i, mark);
      if 0 <= sumIndex - i < size && cells[(i, sumIndex - i)].GetMark() == mark {
        dl := diagonalLeft + 1;
      } else {
        dl := 0;
      }
    }

    /** Index t of a line through p matches m exactly when that position has a cell reading m,
        and the line's streak then grows by one, else it drops to 0. */
    lemma ReadsLine(s: Snapshot, p: Pos, line: int, t: int, m: string)
      requires Reads(s) && forall q :: q in cells <==> OnBoard(q, size)
      ensures var q := LinePos(p, line, t);
        && (Matches(s, q, m) <==> OnBoard(q, size) && cells[q].GetMark() == m)
        && Streak(s, p, line, m, t + 1) == (if Matches(s, q, m) then Streak(s, p, line, m, t) + 1 else 0)
    {
    }

    /** The snapshot's marks are what the cells read, on the same positions. */
    ghost predicate Reads(s: Snapshot)
      reads this, cells.Values
    {
      && (forall q :: q in s.marks <==> q in cells)
      && (forall q | q in cells :: s.marks[q] == cells[q].GetMark())
    }
  }

  /** A valid board denotes a valid board value. */
  lemma StateIsValid(b: Board)
    requires b.Valid()
    ensures ValidSnapshot(b.State())
  {
  }

  /** After index t - 1 no run counter has reached the condition yet. */
  predicate Quiet(s: Snapshot, p: Pos, m: string, t: int)
  {
    && Streak(s, p, 0, m, t) < s.condition && Streak(s, p, 1, m, t) < s.condition
    && Streak(s, p, 2, m, t) < s.condition && Streak(s, p, 3, m, t) < s.condition
  }

  /** No counter has reached the condition at any index up to i - 1. */
  predicate QuietUpTo(s: Snapshot, p: Pos, m: string, i: int)
  {
    forall t | 0 < t <= i :: Quiet(s, p, m, t)
  }

  lemma QuietStep(s: Snapshot, p: Pos, m: string, i: int)
    requires QuietUpTo(s, p, m, i) && Quiet(s, p, m, i + 1)
    ensures QuietUpTo(s, p, m, i + 1)
  {
  }

  /** When no counter reached the condition at any index, there is no winning run. */
  lemma NoRunWhenQuiet(s: Snapshot, p: Pos, m: string)
    requires s.size > 0
    requires QuietUpTo(s, p, m, s.size)
    ensures !WinAt(s, p, m)
  {
    assert Quiet(s, p, m, 1);
    forall line, lo, hi | 0 <= line < 4 && 0 <= lo <= hi <= s.size && hi - lo >= s.condition
      ensures !RunOn(s, p, line, lo, hi, m)
    {
      assert Quiet(s, p, m, hi);
      RunGivesStreak(s, p, line, m, lo, hi);
    }
  }

  function Max4(a: int, b: int, c: int, d: int): (r: int)
    ensures r >= a && r >= b && r >= c && r >= d
    ensures r == a || r == b || r == c || r == d
  {
    var ab := if a > b then a else b;
    var cd := if c > d then c else d;
    if ab > cd then ab else cd
  }
}
