/** A player: a name and the mark it plays (game_classes/player.py). */
module Players {
  import opened PyValues

  class Player {
    var name: string
    var mark: Option<string>

    /** `Player(name)`: the name through its setter, and no mark yet. */
    constructor (name: string)
      ensures this.name == name && mark == None
    {
      new;
      var _ := SetName(PyStr(name));
      var _ := SetMark(PyNone);
    }

    /** The `name` setter: a str is stored unchanged; anything else raises ValueError before
        the assignment, so the old name stays. */
    method SetName(v: PyValue) returns (r: Outcome<()>)
      modifies this
      ensures r.Returned? <==> v.PyStr?
      ensures r.Raised? ==> r.error == ValueError
      ensures name == (if v.PyStr? then v.s else old(name))
      ensures mark == old(mark)
    {
      if !v.PyStr? {
        return Raised(ValueError);
      }
      name := v.s;
      return Returned(());
    }

    /** The `mark` setter: a str or None is stored; anything else raises ValueError and the
        old mark stays. */
    method SetMark(v: PyValue) returns (r: Outcome<()>)
      modifies this
      ensures r.Returned? <==> v.PyStr? || v.PyNone?
      ensures r.Raised? ==> r.error == ValueError
      ensures mark == (if v.PyStr? then Some(v.s) else if v.PyNone? then None else old(mark))
      ensures name == old(name)
    {
      if !v.PyStr? && !v.PyNone? {
        return Raised(ValueError);
      }
      mark := if v.PyStr? then Some(v.s) else None;
      return Returned(());
    }
  }
}
