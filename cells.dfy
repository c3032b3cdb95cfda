/** A single board cell: a name and a write-once mark slot (game_classes/cell.py). */
module Cells {
  import opened PyValues

  /** What the `name` setter does with `name`: it loops over the items of `name` (TypeError
      when `name` is not iterable) and raises ValueError at the first item when that item is
      not an int, `name` does not have two items, or `name` is not a tuple. The test sits
      inside the loop, so a name without items is accepted whatever its type. */
  function NameAccepted(name: PyValue): (r: Outcome<()>)
    ensures r.Raised? ==> r.error == TypeError || r.error == ValueError
  {
    match Items(name)
    case None => Raised(TypeError)
    case Some(items) =>
      // the length and type tests do not depend on the item, so they decide at the first item
      if |items| > 0 && (!name.PyTuple? || |items| != 2 || exists k | 0 <= k < |items| :: !items[k].PyInt?)
      then Raised(ValueError)
      else Returned(())
  }

  /** A position on the board: (row, column). */
  type Pos = (int, int)

  /** The name of the board cell at row `i`, column `j`: the tuple `(i, j)`. */
  function CellName(i: int, j: int): PyValue
  {
    PyTuple([PyInt(i), PyInt(j)])
  }

  /** A name that is a pair of ints, as every board cell's name is. */
  predicate IsPairName(name: PyValue)
  {
    name.PyTuple? && |name.items| == 2 && name.items[0].PyInt? && name.items[1].PyInt?
  }

  /** The position such a name stands for. */
  function NamePos(name: PyValue): (p: Pos)
    requires IsPairName(name)
    ensures name == CellName(p.0, p.1)
  {
    (name.items[0].i, name.items[1].i)
  }

  /** The names the setter accepts are exactly the pairs of (non-bool) ints and the
      iterables with no items. */
  lemma NameAcceptedExactly(name: PyValue)
    ensures NameAccepted(name).Returned? <==>
      (exists i, j :: name == CellName(i, j))
      || (Items(name).Some? && |Items(name).value| == 0)
  {
    if name.PyTuple? && |name.items| == 2 && name.items[0].PyInt? && name.items[1].PyInt? {
      assert name == CellName(name.items[0].i, name.items[1].i);
      assert forall k | 0 <= k < 2 :: name.items[k].PyInt?;
    }
    if exists i, j :: name == CellName(i, j) {
      var i, j :| name == CellName(i, j);
      assert Items(name) == Some([PyInt(i), PyInt(j)]);
      assert forall k | 0 <= k < 2 :: name.items[k].PyInt?;
    }
  }

  /** The read value of a stored mark: `' '` stands for the empty slot. */
  function ReadMark(mark: Option<string>): string
  {
    if mark.None? then " " else mark.value
  }

  class Cell {
    var name: PyValue
    var mark: Option<string>

    /** `Cell(name)`: stores a name the setter accepts and starts empty. */
    constructor (name: PyValue)
      requires NameAccepted(name).Returned?
      ensures this.name == name && mark == None
      ensures GetMark() == " "
    {
      new;
      var _ := SetName(name);
      var _ := SetMark(None);
    }

    /** The `name` setter: the validating loop over the items, then the assignment. */
    method SetName(name: PyValue) returns (r: Outcome<()>)
      modifies this
      ensures r == NameAccepted(name)
      ensures this.name == (if r.Returned? then name else old(this.name))
      ensures mark == old(mark)
    {
      var iter := Items(name);
      if iter.None? {
        return Raised(TypeError);
      }
      var items := iter.value;
      var k := 0;
      while k < |items|
        invariant 0 <= k <= |items|
        invariant k > 0 ==> name.PyTuple? && |items| == 2
        invariant forall j | 0 <= j < k :: items[j].PyInt?
        invariant this.name == old(this.name) && mark == old(mark)
      {
        if !items[k].PyInt? || |items| != 2 || !name.PyTuple? {
          return Raised(ValueError);
        }
        k := k + 1;
      }
      this.name := name;
      return Returned(());
    }

    /** `get_mark`: the stored mark, `' '` when there is none. */
    function GetMark(): string
      reads this
    {
      ReadMark(mark)
    }

    /** `get_mark` reads `' '` exactly when the slot is empty (or holds `' '` itself), and
        otherwise reads the stored mark. */
    lemma GetMarkMeaning()
      ensures GetMark() == " " <==> mark == None || mark == Some(" ")
      ensures GetMark() != " " ==> mark == Some(GetMark())
    {
    }

    /** `set_mark`: None always succeeds and empties the cell; a mark succeeds only on a cell
        that reads `' '`. A refused mark leaves the cell as it was. */
    method SetMark(m: Option<string>) returns (ok: bool)
      modifies this
      ensures ok <==> m.None? || old(GetMark()) == " "
      ensures mark == (if ok then m else old(mark))
      ensures ok ==> GetMark() == ReadMark(m)
      ensures !ok ==> GetMark() == old(GetMark()) && GetMark() != " "
      ensures name == old(name)
    {
      if m.None? || GetMark() == " " {
        mark := m;
        return true;
      } else {
        return false;
      }
    }
  }
}
