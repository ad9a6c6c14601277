/** What several models share. */
module Common {

  datatype Option<T> = None | Some(value: T)

  /** A C `unsigned char`. */
  type Byte = b: int | 0 <= b < 256

  function Min(a: nat, b: nat): nat {
    if a < b then a else b
  }

  /** Division toward zero, as in C. */
  function TruncDiv(a: int, b: int): int
    requires b != 0
  {
    if a >= 0 then a / b else -((-a) / b)
  }
}
