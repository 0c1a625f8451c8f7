/** The success/failure wrapper of shared/utils/result.py.

    The Python class stores a value and an `_is_ok` flag, both assigned once by
    the constructor and only read afterwards. A Dafny datatype value is
    immutable in the same way, so the two public factories `Ok(value)` and
    `Err(error)` are the datatype's two constructors and every query is a
    function of the value.
 */
module Results {

  /** Python's `Union[T, None]`: what `ok()` and `err()` return. */
  datatype Option<T> = None | Some(value: T)

  /** The outcome of calling a Python method that may raise: it either returns
      a value or raises a `RuntimeError` carrying a message. */
  datatype Call<T> = Returns(value: T) | Raises(message: string)

  const UnwrapErrPrefix := "Tried to unwrap an Err value: "
  const UnwrapOkPrefix := "Tried to unwrap an Ok value: "

  predicate IsPrefix(p: string, s: string) {
    |p| <= |s| && s[..|p|] == p
  }

  datatype Result<S, E> = Ok(value: S) | Err(error: E) {

    /** `is_ok()`: the flag the factory set, true exactly for the results
        the `Ok` factory builds. */
    predicate IsOk()
      ensures IsOk() ==> Ok? && this == Ok(value)
      ensures !IsOk() ==> Err? && this == Err(error)
    {
      Ok?
    }

    /** `is_err()`: always the negation of `is_ok()`. */
    predicate IsErr()
      ensures IsErr() <==> !IsOk()
    {
      Err?
    }

    /** `ok()`: the wrapped value of a success, `None` for a failure. */
    function GetOk(): (r: Option<S>)
      ensures r.Some? <==> IsOk()
      ensures Ok? ==> r == Some(value)
    {
      match this
      case Ok(v) => Some(v)
      case Err(_) => None
    }

    /** `err()`: the wrapped error of a failure, `None` for a success. */
    function GetErr(): (r: Option<E>)
      ensures r.Some? <==> IsErr()
      ensures Err? ==> r == Some(error)
    {
      match this
      case Ok(_) => None
      case Err(e) => Some(e)
    }

    /** `unwrap()`: returns the value of a success and raises on a failure,
        with a message quoting `str()` of the error, given here as `str`. */
    function Unwrap(str: E -> string): (r: Call<S>)
      ensures r.Returns? <==> IsOk()
      ensures r.Returns? ==> Some(r.value) == GetOk()
      ensures r.Raises? ==>
                IsPrefix(UnwrapErrPrefix, r.message) && r.message[|UnwrapErrPrefix|..] == str(error)
    {
      match this
      case Ok(v) => Returns(v)
      case Err(e) => Raises(UnwrapErrPrefix + str(e))
    }

    /** `unwrap_err()`: returns the error of a failure and raises on a success,
        with a message quoting `str()` of the value, given here as `str`. */
    function UnwrapErr(str: S -> string): (r: Call<E>)
      ensures r.Returns? <==> IsErr()
      ensures r.Returns? ==> Some(r.value) == GetErr()
      ensures r.Raises? ==>
                IsPrefix(UnwrapOkPrefix, r.message) && r.message[|UnwrapOkPrefix|..] == str(value)
    {
      match this
      case Ok(v) => Raises(UnwrapOkPrefix + str(v))
      case Err(e) => Returns(e)
    }

    /** `__repr__`: `Ok(<repr of value>)` or `Err(<repr of error>)`, with the
        `repr()` of the two sides given as `reprOk` and `reprErr`. */
    function Repr(reprOk: S -> string, reprErr: E -> string): (r: string)
      ensures IsPrefix("Ok(", r) <==> IsOk()
      ensures IsPrefix("Err(", r) <==> IsErr()
      ensures |r| > 0 && r[|r| - 1] == ')'
    {
      match this
      case Ok(v) =>
        var r := "Ok(" + reprOk(v) + ")";
        assert r[0] == 'O' != "Err("[0];
        r
      case Err(e) =>
        var r := "Err(" + reprErr(e) + ")";
        assert r[0] == 'E' != "Ok("[0];
        r
    }
  }

  /** A result is fully described by what `ok()` and `err()` report: two
      results on which both queries agree are the same result. */
  lemma QueriesDetermineResult<S, E>(a: Result<S, E>, b: Result<S, E>)
    requires a.GetOk() == b.GetOk() && a.GetErr() == b.GetErr()
    ensures a == b
  {
  }

  /** `unwrap()` returns `v` exactly when `ok()` reports `v`, and it raises
      exactly when `err()` reports something. */
  lemma UnwrapAgreesWithQueries<S, E>(r: Result<S, E>, str: E -> string, v: S)
    ensures r.Unwrap(str) == Returns(v) <==> r.GetOk() == Some(v)
    ensures r.Unwrap(str).Raises? <==> r.GetErr().Some?
  {
  }

  /** `unwrap_err()` returns `e` exactly when `err()` reports `e`, and it
      raises exactly when `ok()` reports something. */
  lemma UnwrapErrAgreesWithQueries<S, E>(r: Result<S, E>, str: S -> string, e: E)
    ensures r.UnwrapErr(str) == Returns(e) <==> r.GetErr() == Some(e)
    ensures r.UnwrapErr(str).Raises? <==> r.GetOk().Some?
  {
  }

  /** The factory `Ok(v)`: a success whose `ok()` is `v` and whose `err()` is
      `None`. */
  lemma OkLaws<S, E>(v: S)
    ensures Result<S, E>.Ok(v).IsOk() && !Result<S, E>.Ok(v).IsErr()
    ensures Result<S, E>.Ok(v).GetOk() == Some(v)
    ensures Result<S, E>.Ok(v).GetErr() == None
  {
  }

  /** The factory `Err(e)`: a failure whose `err()` is `e` and whose `ok()` is
      `None`. */
  lemma ErrLaws<S, E>(e: E)
    ensures Result<S, E>.Err(e).IsErr() && !Result<S, E>.Err(e).IsOk()
    ensures Result<S, E>.Err(e).GetErr() == Some(e)
    ensures Result<S, E>.Err(e).GetOk() == None
  {
  }

  /** When `repr()` tells values apart on each side, `repr()` of a result tells
      results apart: the text identifies the case and the wrapped value. */
  lemma ReprInjective<S, E>(a: Result<S, E>, b: Result<S, E>,
                            reprOk: S -> string, reprErr: E -> string)
    requires forall x, y :: reprOk(x) == reprOk(y) ==> x == y
    requires forall x, y :: reprErr(x) == reprErr(y) ==> x == y
    requires a.Repr(reprOk, reprErr) == b.Repr(reprOk, reprErr)
    ensures a == b
  {
    var r := a.Repr(reprOk, reprErr);
    match a
    case Ok(x) =>
      assert IsPrefix("Ok(", r);
      var y := b.value;
      assert r[3..|r| - 1] == reprOk(x);
      assert r[3..|r| - 1] == reprOk(y);
    case Err(x) =>
      assert IsPrefix("Err(", r);
      var y := b.error;
      assert r[4..|r| - 1] == reprErr(x);
      assert r[4..|r| - 1] == reprErr(y);
  }
}
