/** Shared vocabulary: optional values, results, opaque ids and time. */
module Base {

  datatype Option<+T> = None | Some(value: T)

  datatype Result<+T, +E> = Ok(value: T) | Err(error: E)

  // A UUID. Only equality and the order of the canonical text, which is the numeric order, are used.
  type Id = nat

  // Microseconds on one UTC time line.
  type Time = int

  const SECOND: int := 1_000_000

  // A timestamp further ahead of the evaluation time than this is not trusted.
  const MAX_FUTURE_SKEW: int := 120 * SECOND

  function Max(a: int, b: int): int { if a >= b then a else b }

  function Min(a: int, b: int): int { if a <= b then a else b }

  lemma SubsetSize<T>(a: set<T>, b: set<T>)
    requires a <= b
    ensures |a| <= |b|
    ensures a != b ==> |a| < |b|
  {
    assert b == a + (b - a);
    if a != b { assert b - a != {}; }
  }
}
