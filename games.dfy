/** A game: the board, the two players, the game state and whose turn it is
    (game_classes/game.py). */
module Games {
  import opened PyValues
  import opened Cells
  import opened Boards
  import opened Players

  /** An item of the list given to the `players` setter. */
  datatype Entry = PlayerEntry(player: Player) | OtherEntry(value: PyValue)

  /** `state in (1, 0)`: an int or a bool equal to 0 or 1. */
  predicate StateAccepted(v: PyValue)
  {
    IsIntInstance(v) && (IntValue(v) == 0 || IntValue(v) == 1)
  }

  /** `curr_turn in range(2) or curr_turn is None`. */
  predicate TurnAccepted(v: PyValue)
  {
    (IsIntInstance(v) && 0 <= IntValue(v) < 2) || v.PyNone?
  }

  /** The setters accept exactly the states 0 and 1 and the turns None, 0 and 1 (as ints or
      as the bools equal to them). */
  lemma SettersAcceptExactly(v: PyValue)
    ensures StateAccepted(v) <==> v in {PyInt(0), PyInt(1), PyBool(false), PyBool(true)}
    ensures TurnAccepted(v) <==> v in {PyNone, PyInt(0), PyInt(1), PyBool(false), PyBool(true)}
  {
    if v.PyBool? {
      assert v == PyBool(false) || v == PyBool(true);
    }
  }

  class Game {
    var board: Board?
    var state: PyValue
    var players: seq<Player>
    var currTurn: PyValue

    /** `Game(players)`: no board, state 0, the players through their setter, no turn. */
    constructor (players: seq<Player>)
      requires |players| == 2
      ensures board == null && state == PyInt(0) && this.players == players && currTurn == PyNone
    {
      new;
      board := null;
      var _ := SetState(PyInt(0));
      var _ := SetPlayers([PlayerEntry(players[0]), PlayerEntry(players[1])]);
      var _ := SetCurrTurn(PyNone);
      assert this.players == players;
    }

    /** The `state` setter: 0 or 1 is stored, anything else raises ValueError. */
    method SetState(v: PyValue) returns (r: Outcome<()>)
      modifies this
      ensures r.Returned? <==> StateAccepted(v)
      ensures r.Raised? ==> r.error == ValueError
      ensures state == (if r.Returned? then v else old(state))
      ensures board == old(board) && players == old(players) && currTurn == old(currTurn)
    {
      if !StateAccepted(v) {
        return Raised(ValueError);
      }
      state := v;
      return Returned(());
    }

    /** The `players` setter: a list of length other than two raises ValueError, and so does
        the first item that is not a Player; otherwise the list is stored. */
    method SetPlayers(list: seq<Entry>) returns (r: Outcome<()>)
      modifies this
      ensures r.Returned? <==> |list| == 2 && forall k | 0 <= k < |list| :: list[k].PlayerEntry?
      ensures r.Raised? ==> r.error == ValueError
      ensures r.Returned? ==> |players| == 2 && forall k | 0 <= k < 2 :: players[k] == list[k].player
      ensures r.Raised? ==> players == old(players)
      ensures board == old(board) && state == old(state) && currTurn == old(currTurn)
    {
      if |list| != 2 {
        return Raised(ValueError);
      }
      var k := 0;
      while k < |list|
        invariant 0 <= k <= |list|
        invariant forall j | 0 <= j < k :: list[j].PlayerEntry?
      {
        if !list[k].PlayerEntry? {
          return Raised(ValueError);
        }
        k := k + 1;
      }
      players := [list[0].player, list[1].player];
      return Returned(());
    }

    /** The `curr_turn` setter: 0, 1 or None is stored, anything else raises ValueError. */
    method SetCurrTurn(v: PyValue) returns (r: Outcome<()>)
      modifies this
      ensures r.Returned? <==> TurnAccepted(v)
      ensures r.Raised? ==> r.error == ValueError
      ensures currTurn == (if r.Returned? then v else old(currTurn))
      ensures board == old(board) && state == old(state) && players == old(players)
    {
      if !TurnAccepted(v) {
        return Raised(ValueError);
      }
      currTurn := v;
      return Returned(());
    }

    /** `create_board(size, condition)`: a new board with condition `min(condition, size)`.
        The Board constructor's setters raise ValueError for a size that is not positive or a
        negative condition, and the game keeps its old board. */
    method CreateBoard(size: int, condition: int) returns (r: Outcome<()>)
      modifies this
      ensures r.Returned? <==> size > 0 && condition >= 0
      ensures r.Raised? ==> r.error == ValueError && board == old(board)
      ensures r.Returned? ==> board != null && fresh(board) && board.Valid()
      ensures r.Returned? ==> board.State() == FreshSnapshot(size, if condition < size then condition else size)
      ensures state == old(state) && players == old(players) && currTurn == old(currTurn)
    {
      if condition < size {
        if size <= 0 || condition < 0 {
          return Raised(ValueError);
        }
        board := new Board(size, condition);
      } else {
        if size <= 0 {
          return Raised(ValueError);
        }
        board := new Board(size, size);
      }
      return Returned(());
    }

    /** `single_turn(player, cell_name)`, with the call to the missing `put_mark` read as its
        evident meaning `cell.set_mark(player.mark)`. An existing empty cell gets the mark and
        the counter goes up (the counter setter raises ValueError when that passes size², after
        the cell was marked); any other position returns False and changes nothing. Without a
        board, the attribute lookup raises AttributeError. */
    method SingleTurn(player: Player, pos: Pos) returns (r: Outcome<bool>)
      requires board != null ==> board.Valid()
      modifies board, if board != null && pos in board.cells then {board.cells[pos]} else {}
      ensures board == old(board)
      ensures old(board) == null ==> r == Raised(AttributeError)
      ensures board != null ==> board.Valid() && board.cells == old(board.cells)
      ensures board != null && r.Returned? ==>
        r.value == (pos in old(board.State()).marks && old(board.State()).marks[pos] == " ")
        && board.State() == Play(old(board.State()), pos, player.mark)
      ensures board != null && r.Raised? ==>
        r.error == ValueError && old(board.filledCells) == old(board.size) * old(board.size)
        && board.State() == Play(old(board.State()), pos, player.mark).(filled := old(board.filledCells))
    {
      if board == null {
        return Raised(AttributeError);
      }
      ghost var s := board.State();
      if pos in board.cells && board.cells[pos].GetMark() == " " {
        MarkEmptyCell(board, pos, player.mark);
        ghost var marked := board.State();
        var ok := board.SetFilledCells(PyInt(board.filledCells + 1));
        if ok.Raised? {
          return Raised(ValueError);
        }
        assert board.State() == marked.(filled := s.filled + 1);
        return Returned(true);
      }
      return Returned(false);
    }

    /** `start_game(size, condition)` with the random first player given as `first`: a new
        board, state 0, 'x' for the first player and 'o' for the other; returns `first`. When
        both entries are the same Player, the later assignment leaves it with 'o'. */
    method StartGame(size: int, condition: int, first: int) returns (r: Outcome<int>)
      requires first == 0 || first == 1
      requires |players| == 2
      modifies this, players[0], players[1]
      ensures players == old(players)
      ensures r.Raised? <==> !(size > 0 && condition >= 0)
      ensures r.Raised? ==>
        r.error == ValueError && board == old(board) && state == old(state)
        && players[0].mark == old(players[0].mark) && players[1].mark == old(players[1].mark)
      ensures r.Returned? ==>
        && r.value == first && state == PyInt(0)
        && board != null && fresh(board) && board.Valid()
        && board.State() == FreshSnapshot(size, Clamp(condition, size))
        && players[1 - first].mark == Some("o")
        && (players[0] != players[1] ==> players[first].mark == Some("x"))
      ensures currTurn == old(currTurn)
      ensures players[0].name == old(players[0].name) && players[1].name == old(players[1].name)
    {
      var created := CreateBoard(size, condition);
      if created.Raised? {
        return Raised(created.error);
      }
      label created:
      var _ := SetState(PyInt(0));
      AssignMarks(first);
      assert unchanged@created(board, board.cells.Values);
      return Returned(first);
    }

    /** The two mark assignments of `start_game`: 'x' to `players[first]`, then 'o' to the other
        entry, through the mark setter. */
    method AssignMarks(first: int)
      requires first == 0 || first == 1
      requires |players| == 2
      modifies players[0], players[1]
      ensures players[1 - first].mark == Some("o")
      ensures players[0] != players[1] ==> players[first].mark == Some("x")
      ensures players[0].name == old(players[0].name) && players[1].name == old(players[1].name)
    {
      var _ := players[first].SetMark(PyStr("x"));
      var _ := players[1 - first].SetMark(PyStr("o"));
    }
  }

  /** The `set_mark` call of `single_turn` on an empty cell: that cell alone takes the mark. */
  method MarkEmptyCell(b: Board, pos: Pos, m: Option<string>)
    requires b.Valid() && pos in b.cells && b.cells[pos].GetMark() == " "
    modifies b.cells[pos]
    ensures b.Valid() && b.cells == old(b.cells)
    ensures b.State() == Play(old(b.State()), pos, m).(filled := old(b.filledCells))
  {
    ghost var s := b.State();
    var cell := b.cells[pos];
    OthersDiffer(b, pos);
    var _ := cell.SetMark(m);
    forall q | q in b.cells ensures b.cells[q].GetMark() == s.marks[pos := ReadMark(m)][q] {
      if q != pos {
        assert b.cells[q].mark == old(b.cells[q].mark);
      }
    }
    assert b.State().marks == s.marks[pos := ReadMark(m)];
  }

  /** Every other position of a valid board holds a different Cell object, because each cell is
      named by its own position. */
  lemma OthersDiffer(b: Board, pos: Pos)
    requires b.Valid() && pos in b.cells
    ensures forall q | q in b.cells && q != pos :: b.cells[q] != b.cells[pos]
  {
    forall q | q in b.cells && q != pos ensures b.cells[q] != b.cells[pos] {
      assert b.cells[q].name == CellName(q.0, q.1);
    }
  }

  /** Moves through `single_turn` on a fresh board keep the counter equal to the number of
      marked cells, as long as every player holds a real mark. */
  lemma TurnsKeepCounter(size: int, condition: int, moves: seq<(Pos, Option<string>)>)
    requires size > 0 && condition >= 0
    requires forall k | 0 <= k < |moves| :: moves[k].1.Some? && moves[k].1.value != " "
    ensures Consistent(PlayAll(FreshSnapshot(size, Clamp(condition, size)), moves))
    ensures WellFormed(PlayAll(FreshSnapshot(size, Clamp(condition, size)), moves))
  {
    FreshIsConsistent(size, condition);
    PlayAllKeepsConsistent(FreshSnapshot(size, Clamp(condition, size)), moves);
  }

  /** A sequence of turns, each a position and the mover's mark, played in order. */
  function PlayAll(s: Snapshot, moves: seq<(Pos, Option<string>)>): (r: Snapshot)
    ensures r.size == s.size && r.condition == s.condition && r.marks.Keys == s.marks.Keys
    decreases |moves|
  {
    if moves == [] then s
    else PlayAll(Play(s, moves[0].0, moves[0].1), moves[1..])
  }

  lemma {:induction false} PlayAllKeepsConsistent(s: Snapshot, moves: seq<(Pos, Option<string>)>)
    requires Consistent(s)
    requires forall k | 0 <= k < |moves| :: moves[k].1.Some? && moves[k].1.value != " "
    ensures Consistent(PlayAll(s, moves))
    decreases |moves|
  {
    if moves != [] {
      PlayKeepsConsistent(s, moves[0].0, moves[0].1);
      assert forall k | 0 <= k < |moves[1..]| :: moves[1..][k] == moves[k + 1];
      PlayAllKeepsConsistent(Play(s, moves[0].0, moves[0].1), moves[1..]);
    }
  }

  /** On a board whose counter is consistent, `single_turn` never raises: the counter stays
      within size² after the increment. */
  lemma ConsistentTurnDoesNotOverflow(s: Snapshot, pos: Pos)
    requires WellFormed(s) && Consistent(s)
    requires pos in s.marks && s.marks[pos] == " "
    ensures s.filled + 1 <= s.size * s.size
  {
    ConsistentRoom(s, pos);
  }

  /** `single_turn` as written: on an existing empty cell it calls `player.put_mark`, which
      the Player class does not define (its definition is commented out), so the call raises
      AttributeError before anything changes; otherwise it returns False. */
  function SingleTurnAsWritten(s: Snapshot, pos: Pos): (r: Outcome<bool>)
    ensures r != Returned(true)
  {
    if pos in s.marks && s.marks[pos] == " " then Raised(AttributeError) else Returned(false)
  }

  /** As written, no move can be made: the first move of every game raises. */
  lemma AsWrittenFirstMoveRaises(size: int, condition: int, pos: Pos)
    requires size > 0 && OnBoard(pos, size)
    ensures SingleTurnAsWritten(FreshSnapshot(size, condition), pos) == Raised(AttributeError)
  {
  }

  /** The moves of a game: X at (0,0), O at (1,1), X at (0,1), O at (2,2), X at (0,2). */
  function RowWinMoves(): seq<(Pos, Option<string>)>
  {
    [((0, 0), Some("x")), ((1, 1), Some("o")), ((0, 1), Some("x")), ((2, 2), Some("o")), ((0, 2), Some("x"))]
  }

  /** With win condition 3 (on the 3 × 3 board or any larger one) those moves give 'x' three
      in row 0: the last marked cell reports a win for 'x', and so does the terminal test of
      the whole board. */
  lemma RowWinExample(n: int)
    requires n >= 3
    ensures var s := PlayAll(FreshSnapshot(n, 3), RowWinMoves());
      WinCombo(s, (0, 2), "x") == (true, "x") && Terminal(s) == (true, "x")
  {
    var s := PlayAll(FreshSnapshot(n, 3), RowWinMoves());
    RowWinMarks(n);
    assert forall k | 0 <= k < 3 :: Matches(s, (0, k), "x") by {
      forall k | 0 <= k < 3 ensures Matches(s, (0, k), "x") {
        assert k == 0 || k == 1 || k == 2;
      }
    }
    RowRunWins(s, 0, 0, 3, "x", 2);
    RowRunWins(s, 0, 0, 3, "x", 0);
    CornerWinIsTerminal(s);
  }

  /** After those moves (0,0), (0,1) and (0,2) read 'x'. */
  lemma RowWinMarks(n: int)
    requires n >= 3
    ensures var s := PlayAll(FreshSnapshot(n, 3), RowWinMoves());
      s.size == n && s.condition == 3
      && Matches(s, (0, 0), "x") && Matches(s, (0, 1), "x") && Matches(s, (0, 2), "x")
  {
    var s0 := FreshSnapshot(n, 3);
    PlayAllFive(s0, RowWinMoves());
    assert OnBoard((0, 0), n) && OnBoard((0, 1), n) && OnBoard((0, 2), n);
    assert OnBoard((1, 1), n) && OnBoard((2, 2), n);
    RowWinChain(s0);
  }

  /** The five moves on a board where their cells are empty. */
  lemma RowWinChain(s0: Snapshot)
    requires forall q | q in {(0, 0), (0, 1), (0, 2), (1, 1), (2, 2)} :: q in s0.marks && s0.marks[q] == " "
    ensures var s := Play(Play(Play(Play(Play(s0, (0, 0), Some("x")), (1, 1), Some("o")),
                                        (0, 1), Some("x")), (2, 2), Some("o")), (0, 2), Some("x"));
      Matches(s, (0, 0), "x") && Matches(s, (0, 1), "x") && Matches(s, (0, 2), "x")
  {
    var s1 := Play(s0, (0, 0), Some("x"));
    assert s1.marks == s0.marks[(0, 0) := "x"];
    var s2 := Play(s1, (1, 1), Some("o"));
    assert s2.marks == s1.marks[(1, 1) := "o"];
    var s3 := Play(s2, (0, 1), Some("x"));
    assert s3.marks == s2.marks[(0, 1) := "x"];
    var s4 := Play(s3, (2, 2), Some("o"));
    assert s4.marks == s3.marks[(2, 2) := "o"];
    var s := Play(s4, (0, 2), Some("x"));
    assert s.marks == s4.marks[(0, 2) := "x"];
  }

  /** Five moves played in turn. */
  lemma PlayAllFive(s: Snapshot, moves: seq<(Pos, Option<string>)>)
    requires |moves| == 5
    ensures PlayAll(s, moves)
         == Play(Play(Play(Play(Play(s, moves[0].0, moves[0].1), moves[1].0, moves[1].1),
                                moves[2].0, moves[2].1), moves[3].0, moves[3].1), moves[4].0, moves[4].1)
  {
    var s1 := Play(s, moves[0].0, moves[0].1);
    var s2 := Play(s1, moves[1].0, moves[1].1);
    var s3 := Play(s2, moves[2].0, moves[2].1);
    var s4 := Play(s3, moves[3].0, moves[3].1);
    assert PlayAll(s4, moves[4..]) == PlayAll(Play(s4, moves[4].0, moves[4].1), []);
    assert PlayAll(s3, moves[3..]) == PlayAll(s4, moves[3..][1..]) && moves[3..][1..] == moves[4..];
    assert PlayAll(s2, moves[2..]) == PlayAll(s3, moves[2..][1..]) && moves[2..][1..] == moves[3..];
    assert PlayAll(s1, moves[1..]) == PlayAll(s2, moves[1..][1..]) && moves[1..][1..] == moves[2..];
  }

}
