/** Small shared vocabulary: failure-carrying results, C# integer
    arithmetic (truncating division, 32-bit wrap-around) and min/max/abs. */
module Util {

  /** The .NET exceptions the modelled code can raise, as values. */
  datatype Failure =
    | IndexOutOfRange      // ArgumentOutOfRangeException from a list index
    | DivideByZero         // DivideByZeroException from a decimal division
    | NullReference        // NullReferenceException
    | EmptySequence        // InvalidOperationException from First() on nothing
    | DuplicateRegion      // the explicit throw in Blob.MergeWith

  datatype Option<+T> = None | Some(value: T)

  datatype Result<+T> = Ok(value: T) | Err(failure: Failure) {
    predicate IsFailure() { Err? }
    function PropagateFailure<U>(): Result<U>
      requires Err?
    {
      Err(failure)
    }
    function Extract(): T
      requires Ok?
    {
      value
    }
  }

  function Min(a: int, b: int): int { if a <= b then a else b }
  function Max(a: int, b: int): int { if a >= b then a else b }
  function Abs(a: int): int { if a < 0 then -a else a }

  /** C# integer division: the quotient is truncated toward zero, so the
      remainder takes the sign of the dividend (Dafny's `/` is Euclidean). */
  function CDiv(a: int, b: int): (q: int)
    requires b != 0
    ensures a >= 0 ==> 0 <= a - q * b < Abs(b)
    ensures a < 0 ==> -Abs(b) < a - q * b <= 0
  {
    if a >= 0 then
      (if b > 0 then a / b else -(a / -b))
    else
      (if b > 0 then -((-a) / b) else (-a) / (-b))
  }

  /** Truncation is symmetric about zero, unlike Euclidean division. */
  lemma CDivOdd(a: int, b: int)
    requires b != 0
    ensures CDiv(-a, b) == -CDiv(a, b)
  {
  }

  /** On non-negative operands truncating division agrees with Dafny's. */
  lemma CDivNonNegative(a: int, b: int)
    requires a >= 0 && b > 0
    ensures CDiv(a, b) == a / b
  {
  }

  const TwoTo31: int := 0x8000_0000
  const TwoTo32: int := 0x1_0000_0000

  /** The value a C# `int` holds after an unchecked computation whose exact
      result is `x`. */
  function Wrap32(x: int): (r: int)
    ensures -TwoTo31 <= r < TwoTo31
    ensures (x - r) % TwoTo32 == 0
    ensures -TwoTo31 <= x < TwoTo31 ==> r == x
  {
    (x + TwoTo31) % TwoTo32 - TwoTo31
  }

  /** The elements of `s` in the opposite order. */
  function Reverse<T>(s: seq<T>): (r: seq<T>)
    ensures |r| == |s|
    ensures forall i :: 0 <= i < |s| ==> r[i] == s[|s| - 1 - i]
    ensures multiset(r) == multiset(s)
  {
    if |s| == 0 then []
    else
      assert s == [s[0]] + s[1..];
      Reverse(s[1..]) + [s[0]]
  }

  /** `a` is `b` with some elements dropped and the rest kept in order. */
  predicate Subsequence<T(==)>(a: seq<T>, b: seq<T>)
    decreases |b|
  {
    if |a| == 0 then true
    else if |b| == 0 then false
    else (a[0] == b[0] && Subsequence(a[1..], b[1..])) || Subsequence(a, b[1..])
  }

  /** A non-empty suffix is its first element followed by the rest. */
  lemma SuffixCons<T>(s: seq<T>, i: nat)
    requires i < |s|
    ensures s[i..] == [s[i]] + s[i + 1..]
  {
  }
}
