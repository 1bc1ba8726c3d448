/** The `doctest_skip` and `doctest_skipif` decorators and the table they
    write: an object marked with either has its doctests skipped,
    unconditionally or when a condition holds. */
module Skipping {
  import opened Base

  /** A value given to `doctest_skipif` as its condition. A number takes
      part because Python's `condition in (True, False)` also holds for the
      integers 1 and 0. A callable is represented by what calling it
      returns. */
  datatype Condition =
    | BoolValue(b: bool)
    | NumberValue(n: int)
    | CallableValue(result: bool)
    | OtherValue

  /** `condition in (True, False)`. */
  predicate IsBoolLike(c: Condition) {
    c.BoolValue? || (c.NumberValue? && (c.n == 0 || c.n == 1))
  }

  /** What `doctest_skipif` accepts: a bool, or anything callable. */
  predicate Accepted(c: Condition) {
    IsBoolLike(c) || c.CallableValue?
  }

  /** The truth of a stored condition: the bool itself, a 1 or a 0 as
      true or false, or the result of the call; anything else raises. */
  function Evaluate(c: Condition): (r: Result<bool>)
    ensures r.Ok? <==> Accepted(c)
    ensures c.BoolValue? ==> r == Ok(c.b)
    ensures c.NumberValue? && Accepted(c) ==> r == Ok(c.n == 1)
    ensures c.CallableValue? ==> r == Ok(c.result)
  {
    match c
    case BoolValue(b) => Ok(b)
    case NumberValue(n) =>
      if n == 0 || n == 1 then Ok(n == 1)
      else Err(ValueError("condition should be bool or callable"))
    case CallableValue(result) => Ok(result)
    case OtherValue => Err(ValueError("condition should be bool or callable"))
  }

  /** The module-level `SHOULD_SKIP` table, keyed by the decorated
      objects. */
  class SkipTable<Obj(==)> {
    var shouldSkip: map<Obj, Condition>

    /** Every entry the decorators could have written. */
    ghost predicate Valid()
      reads this
    {
      forall o :: o in shouldSkip ==> Accepted(shouldSkip[o])
    }

    constructor ()
      ensures shouldSkip == map[]
      ensures Valid()
    {
      shouldSkip := map[];
    }

    /** `doctest_skip(reason)(obj)`: records `obj` as always skipped and
        gives `obj` back; the reason is not used. */
    method DoctestSkip(reason: Option<string>, obj: Obj) returns (r: Obj)
      modifies this
      ensures r == obj
      ensures shouldSkip == old(shouldSkip)[obj := BoolValue(true)]
      ensures old(Valid()) ==> Valid()
      ensures GetShouldSkip(obj) == Ok(true)
    {
      shouldSkip := shouldSkip[obj := BoolValue(true)];
      return obj;
    }

    /** `doctest_skipif(condition, reason)(obj)`: a condition that is
        neither bool nor callable raises ValueError before anything is
        recorded; otherwise `obj` is recorded with the condition, replacing
        any earlier entry, and given back. */
    method DoctestSkipIf(condition: Condition, reason: Option<string>, obj: Obj) returns (r: Result<Obj>)
      modifies this
      ensures !Accepted(condition) ==>
        r == Err(ValueError("condition should be bool or callable")) && shouldSkip == old(shouldSkip)
      ensures Accepted(condition) ==>
        r == Ok(obj) && shouldSkip == old(shouldSkip)[obj := condition]
      ensures old(Valid()) ==> Valid()
      ensures Accepted(condition) ==> GetShouldSkip(obj) == Evaluate(condition)
    {
      if !Accepted(condition) {
        return Err(ValueError("condition should be bool or callable"));
      }
      shouldSkip := shouldSkip[obj := condition];
      return Ok(obj);
    }

    /** `get_should_skip(obj)`: an object never marked is not skipped; a
        marked one is skipped as its condition says. */
    function GetShouldSkip(obj: Obj): (r: Result<bool>)
      reads this
      ensures obj !in shouldSkip ==> r == Ok(false)
      ensures obj in shouldSkip ==> r == Evaluate(shouldSkip[obj])
      ensures Valid() ==> r.Ok?
    {
      Evaluate(if obj in shouldSkip then shouldSkip[obj] else BoolValue(false))
    }
  }
}
