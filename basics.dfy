/** Small definitions several modules share. */
module Basics {
  /** `u8`. */
  type U8 = x: int | 0 <= x < 0x100

  /** No element of `s` occurs twice. */
  predicate Distinct<T(==)>(s: seq<T>) {
    forall i, j :: 0 <= i < j < |s| ==> s[i] != s[j]
  }

  /** Concatenation is associative; stated once so that a proof can regroup
      a long concatenation in one step. */
  lemma Assoc<T>(a: seq<T>, b: seq<T>, c: seq<T>)
    ensures (a + b) + c == a + (b + c)
  {
  }
}
