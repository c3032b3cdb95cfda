/** The two value validators: `int_verification` and `tuple_verification`.

    Each is a method that mirrors the source's flag-clearing statements, proved equal to a
    specification function that states the accepted values outright. */
module CommonFunctions {
  import opened PyValues

  /** What `int_verification(v, max_value)` returns or raises: True exactly for an int
      instance (bools included) that is non-negative and, when a maximum is given, not above
      it. With a maximum, comparing a non-number with it raises TypeError. */
  function IntAccepted(v: PyValue, maxValue: Option<int>): (r: Outcome<bool>)
    ensures r.Raised? <==> maxValue.Some? && !IsIntInstance(v)
    ensures r.Raised? ==> r.error == TypeError
  {
    if maxValue.Some? && !IsIntInstance(v) then Raised(TypeError)
    else Returned(IsIntInstance(v) && IntValue(v) >= 0
                  && (maxValue.None? || IntValue(v) <= maxValue.value))
  }

  /** What `tuple_verification(v, length, max_value)` returns or raises: it iterates `v`
      whatever its type (TypeError when `v` is not iterable), checks every item with
      `int_verification` (which may raise), and returns True exactly when `v` is a tuple of
      `length` items that all pass. */
  function TupleAccepted(v: PyValue, length: int, maxValue: Option<int>): (r: Outcome<bool>)
    ensures r.Raised? ==> r.error == TypeError
  {
    match Items(v)
    case None => Raised(TypeError)
    case Some(items) =>
      if exists k | 0 <= k < |items| :: IntAccepted(items[k], maxValue).Raised? then Raised(TypeError)
      else Returned(v.PyTuple? && |items| == length
                    && forall k | 0 <= k < |items| :: IntAccepted(items[k], maxValue) == Returned(true))
  }

  /** `int_verification`: the flag is cleared by the two conditionals in turn. */
  method IntVerification(value: PyValue, maxValue: Option<int>) returns (r: Outcome<bool>)
    ensures r == IntAccepted(value, maxValue)
  {
    var flag := true;
    if !IsIntInstance(value) || IntValue(value) < 0 {
      flag := false;
    }
    if maxValue.Some? {
      if !IsIntInstance(value) {
        return Raised(TypeError);
      }
      if IntValue(value) > maxValue.value {
        flag := false;
      }
    }
    return Returned(flag);
  }

  /** `tuple_verification`: a type and length test, then a loop over the items that clears
      the flag for every item `int_verification` rejects. */
  method TupleVerification(value: PyValue, length: int, maxValue: Option<int>) returns (r: Outcome<bool>)
    ensures r == TupleAccepted(value, length, maxValue)
  {
    var flag := true;
    if !value.PyTuple? || |value.items| != length {
      flag := false;
    }
    var iter := Items(value);
    if iter.None? {
      return Raised(TypeError);
    }
    var items := iter.value;
    var k := 0;
    while k < |items|
      invariant 0 <= k <= |items|
      invariant forall j | 0 <= j < k :: IntAccepted(items[j], maxValue).Returned?
      invariant flag == (value.PyTuple? && |items| == length
                         && forall j | 0 <= j < k :: IntAccepted(items[j], maxValue) == Returned(true))
    {
      var ok := IntVerification(items[k], maxValue);
      if ok.Raised? {
        return ok;
      }
      if !ok.value {
        flag := false;
      }
      k := k + 1;
    }
    return Returned(flag);
  }

  /** Without a maximum, `int_verification` never raises and accepts exactly the
      non-negative int instances; with one, it also demands the value not exceed it. */
  lemma IntVerificationBounds(v: PyValue, maxValue: Option<int>)
    ensures maxValue.None? ==> IntAccepted(v, maxValue) == Returned(IsIntInstance(v) && IntValue(v) >= 0)
    ensures maxValue.Some? && IsIntInstance(v) ==>
      IntAccepted(v, maxValue) == Returned(0 <= IntValue(v) <= maxValue.value)
  {
  }

  /** A value that is not a tuple, or a tuple of the wrong length, is never accepted. */
  lemma TupleVerificationRejectsShape(v: PyValue, length: int, maxValue: Option<int>)
    requires !v.PyTuple? || |v.items| != length
    ensures TupleAccepted(v, length, maxValue) != Returned(true)
  {
  }

  /** The default call `tuple_verification(v)` (length 2, no maximum) accepts exactly a pair
      of non-negative int instances, and never raises for a tuple. */
  lemma DefaultTupleVerification(v: PyValue)
    ensures TupleAccepted(v, 2, None) == Returned(true) <==>
      v.PyTuple? && |v.items| == 2
      && IsIntInstance(v.items[0]) && IntValue(v.items[0]) >= 0
      && IsIntInstance(v.items[1]) && IntValue(v.items[1]) >= 0
    ensures v.PyTuple? ==> TupleAccepted(v, 2, None).Returned?
  {
    if v.PyTuple? && |v.items| == 2 {
      var items := v.items;
      assert forall k | 0 <= k < 2 :: IntAccepted(items[k], None) == Returned(IsIntInstance(items[k]) && IntValue(items[k]) >= 0);
    }
  }
}
