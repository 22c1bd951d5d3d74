/**
 * The checks every delta operation starts with: `_validatePath` and
 * `_validateJsonValue` (src/actionrevelation.js:144-248).
 */
module Validation {
  import opened Wrappers
  import opened Errors
  import opened Documents
  import opened JsValues

  /** The path argument: a JS array of path elements, or any other value. */
  datatype PathArg = NotArray | PathArray(elems: Path)

  /** A second or later path element must be a string or a non-negative integer. */
  predicate LaterElementOk(e: PathElem) {
    e.Key? || (e.Index? && e.index >= 0)
  }

  /** The paths every delta operation accepts; the empty path names the root. */
  predicate ValidPath(p: Path) {
    && (|p| > 0 ==> p[0].Key?)
    && forall i | 1 <= i < |p| :: LaterElementOk(p[i])
  }

  /** The verdict of `_validatePath`: the first rule broken, in the source's order. */
  function PathCheck(arg: PathArg): (r: Outcome<Error>)
    ensures r.Pass? <==> arg.PathArray? && ValidPath(arg.elems)
    ensures r.Fail? ==> r.error.kind == InvalidPath
    ensures arg.NotArray? ==> r == Fail(Error(InvalidPath, PathNotArray))
    ensures arg.PathArray? && |arg.elems| > 0 && !arg.elems[0].Key? ==>
      r == Fail(Error(InvalidPath, FirstElementNotString))
    ensures arg.PathArray? && (|arg.elems| == 0 || arg.elems[0].Key?) && !ValidPath(arg.elems) ==>
      r == Fail(Error(InvalidPath, LaterElementInvalid)) &&
      exists i | 1 <= i < |arg.elems| :: !LaterElementOk(arg.elems[i])
  {
    match arg
    case NotArray => Fail(Error(InvalidPath, PathNotArray))
    case PathArray(p) =>
      if |p| > 0 && !p[0].Key? then Fail(Error(InvalidPath, FirstElementNotString))
      else if !ValidPath(p) then Fail(Error(InvalidPath, LaterElementInvalid))
      else Pass
  }

  /** `_validatePath`: the element loop of the source, checked against PathCheck. */
  method ValidatePath(arg: PathArg) returns (o: Outcome<Error>)
    ensures o == PathCheck(arg)
  {
    if arg.NotArray? {
      return Fail(Error(InvalidPath, PathNotArray));
    }
    var p := arg.elems;
    if |p| > 0 && !p[0].Key? {
      return Fail(Error(InvalidPath, FirstElementNotString));
    }
    var i := 1;
    while i < |p|
      invariant 1 <= i <= |p| || (p == [] && i == 1)
      invariant forall j | 1 <= j < i && j < |p| :: LaterElementOk(p[j])
    {
      if !LaterElementOk(p[i]) {
        return Fail(Error(InvalidPath, LaterElementInvalid));
      }
      i := i + 1;
    }
    return Pass;
  }

  /**
   * `_validateJsonValue`: the first failure wins, in this order: a circular
   * reference, a missing (undefined) value, an undefined nested inside.
   */
  function ValidateJsonValue(h: Heap, v: Value): (r: Outcome<Error>)
    requires Closed(h) && RefIn(h, v)
    ensures r == Fail(Error(InvalidValue, CircularReference)) <==> HasCircular(h, v, [])
    ensures r == Fail(Error(InvalidValue, ValueMissing)) <==> !HasCircular(h, v, []) && v.Undefined?
    ensures r == Fail(Error(InvalidValue, UndefinedPresent)) <==>
      !HasCircular(h, v, []) && !v.Undefined? && HasUndefined(h, v, [])
    ensures r.Pass? <==> JsonExpressible(h, v)
  {
    if HasCircular(h, v, []) then Fail(Error(InvalidValue, CircularReference))
    else if v.Undefined? then Fail(Error(InvalidValue, ValueMissing))
    else if HasUndefined(h, v, []) then Fail(Error(InvalidValue, UndefinedPresent))
    else Pass
  }
}
