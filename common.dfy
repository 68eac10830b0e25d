/** Small helper types shared by the models of the five programs. */
module Common {

  /** A value that may be absent (Python's None, a C sentinel such as -1). */
  datatype Option<+T> = None | Some(value: T)

  /** The larger of two integers: one of them, and at least both. */
  function Max(a: int, b: int): (m: int)
    ensures (m == a || m == b) && a <= m && b <= m
  {
    if a < b then b else a
  }

  /** The smaller of two integers: one of them, and at most both. */
  function Min(a: int, b: int): (m: int)
    ensures (m == a || m == b) && m <= a && m <= b
  {
    if a < b then a else b
  }
}
