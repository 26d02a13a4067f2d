/** Notions of numbers and sequences that several modules share. */
module Collections {

  function Max(a: int, b: int): (m: int)
    ensures m >= a && m >= b && (m == a || m == b)
  {
    if a < b then b else a
  }

  ghost predicate Distinct<T>(s: seq<T>) {
    forall i, j :: 0 <= i < j < |s| ==> s[i] != s[j]
  }

  /** A sequence without one of its elements. */
  ghost function Without<T>(s: seq<T>, at: nat): (less: seq<T>)
    requires at < |s|
    ensures |less| == |s| - 1
  {
    s[..at] + s[at + 1..]
  }
}
