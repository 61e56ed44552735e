/** Small shared vocabulary: an optional value and the byte type of packets and MAC addresses. */
module Common {
  datatype Option<T> = None | Some(value: T)

  /** An unsigned 8-bit value, as Python `bytes` elements and C `uint8_t`. */
  newtype byte = b: int | 0 <= b < 256

  function Min(a: int, b: int): int { if a <= b then a else b }

  /** Regrouping a concatenation. Stated as a lemma so that a proof can regroup traces and
      strings built from recursive functions without the solver unfolding those functions. */
  lemma AppendAssociative<T>(a: seq<T>, b: seq<T>, c: seq<T>)
    ensures a + b + c == a + (b + c)
  {
  }
}
