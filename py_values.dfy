/** Python values and exceptions as the validating setters and validators see them.

    Only the kinds of value those checks distinguish are modelled: `bool` is kept apart
    from `int` because `type(True) != int` holds while `isinstance(True, int)` and
    `True == 1` hold as well, and the checks in the source use both forms. */
module PyValues {

  datatype Option<T> = None | Some(value: T)

  datatype PyValue =
    | PyInt(i: int)
    | PyBool(b: bool)
    | PyStr(s: string)
    | PyNone
    | PyTuple(items: seq<PyValue>)
    | PyList(elems: seq<PyValue>)

  datatype PyError = ValueError | TypeError | AttributeError

  /** The result of a Python call: the value it returns, or the exception it raises. */
  datatype Outcome<T> = Returned(value: T) | Raised(error: PyError)

  /** `isinstance(v, int)`: true for ints and for bools. */
  predicate IsIntInstance(v: PyValue)
  {
    v.PyInt? || v.PyBool?
  }

  /** The numeric value of an int or a bool (`True == 1`, `False == 0`). */
  function IntValue(v: PyValue): (n: int)
    requires IsIntInstance(v)
    ensures v.PyBool? ==> n == 0 || n == 1
  {
    match v
    case PyInt(i) => i
    case PyBool(b) => if b then 1 else 0
  }

  /** The items `for item in v` visits, or None when `v` is not iterable (iterating a
      str visits its one-character strings). */
  function Items(v: PyValue): (r: Option<seq<PyValue>>)
    ensures r.Some? <==> (v.PyTuple? || v.PyList? || v.PyStr?)
    ensures v.PyTuple? ==> r == Some(v.items)
    ensures v.PyStr? ==> r.Some? && |r.value| == |v.s|
  {
    match v
    case PyTuple(items) => Some(items)
    case PyList(elems) => Some(elems)
    case PyStr(s) => Some(seq(|s|, k requires 0 <= k < |s| => PyStr([s[k]])))
    case _ => None
  }
}
