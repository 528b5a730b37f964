/** Shared vocabulary: options, results, and the Python list and slice operations
    that several components use. */
module Prelude {

  datatype Option<+T> = None | Some(value: T)

  datatype Result<+T, +E> = Ok(value: T) | Err(error: E)

  function MinReal(x: real, y: real): real {
    if y < x then y else x
  }

  function MinInt(x: int, y: int): int {
    if y < x then y else x
  }

  function MaxInt(x: int, y: int): int {
    if x < y then y else x
  }

  function SumReal(s: seq<real>): real {
    if s == [] then 0.0 else SumReal(s[..|s| - 1]) + s[|s| - 1]
  }

  /** Where a slice bound `i` lands in a list of length n: negative bounds count from the
      end, and every bound is clamped to the list. */
  function SliceBound(i: int, n: nat): (k: nat)
    ensures k <= n
  {
    if i < 0 then MaxInt(0, i + n) else MinInt(i, n)
  }

  /** `s[lo:hi]` in Python. */
  function Slice<T>(s: seq<T>, lo: int, hi: int): seq<T> {
    var a, b := SliceBound(lo, |s|), SliceBound(hi, |s|);
    if a < b then s[a..b] else []
  }

  // ---------------------------------------------------------------- products of reals

  lemma NonNegativeFactor(x: real, y: real)
    requires x > 0.0 && x * y >= 0.0
    ensures y >= 0.0
  {
  }
}
