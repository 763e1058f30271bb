/**
  Values shared by every module of the model: optional values, the three
  Python exception classes the core raises, a result type for operations
  that raise them, and a matrix cell that is either a real number or NaN.
 */
module Base {

  datatype Option<T> = None | Some(value: T) {
    function GetOr(default: T): T {
      match this
      case Some(v) => v
      case None => default
    }
  }

  /** The exception classes raised by the modelled code. */
  datatype Error = TypeError | ValueError | IndexError

  /** A return value, or the exception the Python code raises instead. */
  datatype Result<T> = Ok(value: T) | Err(error: Error)

  /** A floating-point matrix entry: an exact real, or NaN (no IEEE rounding). */
  datatype Cell = Num(val: real) | NaN

  function Abs(x: real): real {
    if x < 0.0 then -x else x
  }

  /** `np.sign`: -1, 0 or 1. */
  function Sign(x: real): (r: real)
    ensures r == 1.0 || r == 0.0 || r == -1.0
    ensures r * x == Abs(x)
  {
    if x > 0.0 then 1.0 else if x < 0.0 then -1.0 else 0.0
  }

  /** A rectangular 2-D array, stored row by row, with `cols` columns. */
  ghost predicate IsMatrix<T>(m: seq<seq<T>>, cols: nat) {
    forall i :: 0 <= i < |m| ==> |m[i]| == cols
  }
}
