/** Small shared wrapper: a value that may be absent (Python's `None`). */
module Base {

  datatype Option<+T> = None | Some(value: T) {

    /** The wrapped value, or `default` when there is none. */
    function GetOr(default: T): T {
      match this
      case Some(v) => v
      case None => default
    }
  }

  // ---------------------------------------------------------------------------
  // Map updates, as the proofs about tables use them

  /** Writing a key twice keeps the second value only. */
  lemma UpdateTwice<K, V>(m: map<K, V>, a: K, x: V, y: V)
    ensures m[a := x][a := y] == m[a := y]
  {
  }

  /** Writing back the value a key already holds changes nothing. */
  lemma UpdateSame<K, V>(m: map<K, V>, a: K)
    requires a in m
    ensures m[a := m[a]] == m
  {
  }

  /** Writes to two different keys commute. */
  lemma UpdateCommute<K, V>(m: map<K, V>, a: K, x: V, b: K, y: V)
    requires a != b
    ensures m[a := x][b := y] == m[b := y][a := x]
  {
  }
}
