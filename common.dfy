/** Small value types shared by every module: the optional and fallible
    results the Rust code returns, and its fixed-width integer ranges. */
module Common {

  datatype Option<T> = None | Some(value: T)

  datatype Result<T, E> = Ok(value: T) | Err(error: E)

  /** Rust `u8` */
  type byte = x: int | 0 <= x < 0x100

  /** Rust `u16` */
  type u16 = x: int | 0 <= x < 0x1_0000

  /** Rust `i16` */
  type i16 = x: int | -0x8000 <= x < 0x8000

  /** Instants and durations, as whole milliseconds since an arbitrary epoch. */
  type Millis = int

  /** Division as Rust's `/` on signed integers does it: truncated toward zero
      (Dafny's own `/` is Euclidean). */
  function TruncDiv(a: int, b: int): (q: int)
    requires b > 0
    ensures a >= 0 ==> q * b <= a < q * b + b
    ensures a < 0 ==> q * b - b < a <= q * b
  {
    if a >= 0 then a / b else -((-a) / b)
  }

  function Abs(x: int): (r: nat)
    ensures r == x || r == -x
  {
    if x < 0 then -x else x
  }
}
