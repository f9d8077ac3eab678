/** What several components share. */
module Common {

  type byte = x: int | 0 <= x < 256

  /** n times x. */
  function Fill<T>(x: T, n: nat): (r: seq<T>)
    ensures |r| == n && forall i | 0 <= i < n :: r[i] == x
  {
    seq(n, _ => x)
  }
}
