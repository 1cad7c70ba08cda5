/** Machine integers of the engine as bounded mathematical integers, and its result types. */
module Words {
  const POW64: nat := 0x1_0000_0000_0000_0000
  const POW127: nat := 0x8000_0000_0000_0000_0000_0000_0000_0000
  const POW128: nat := 0x1_0000_0000_0000_0000_0000_0000_0000_0000
  const POW256: nat := 0x1_0000_0000_0000_0000_0000_0000_0000_0000_0000_0000_0000_0000_0000_0000_0000_0000
  const U128_MAX: nat := POW128 - 1
  const U64_MAX: nat := POW64 - 1
  const U32_MAX: nat := 0xffff_ffff

  type u8 = x: int | 0 <= x < 0x100
  type u16 = x: int | 0 <= x < 0x1_0000
  type u32 = x: int | 0 <= x < 0x1_0000_0000
  type u64 = x: int | 0 <= x < 0x1_0000_0000_0000_0000
  type u128 = x: int | 0 <= x < 0x1_0000_0000_0000_0000_0000_0000_0000_0000
  type i16 = x: int | -0x8000 <= x < 0x8000

  /** Which way the pool trades base. */
  datatype Side = Bid | Ask

  /** A value or nothing; usable with `:-`. */
  datatype Option<+T> = None | Some(value: T) {
    predicate IsFailure() { None? }
    function PropagateFailure<U>(): Option<U> requires None? { None }
    function Extract(): T requires Some? { value }
  }

  /** A value or an error; usable with `:-`. */
  datatype Result<+T, +E> = Ok(value: T) | Err(error: E) {
    predicate IsFailure() { Err? }
    function PropagateFailure<U>(): Result<U, E> requires Err? { Err(error) }
    function Extract(): T requires Ok? { value }
  }

  function UnwrapOr<T>(o: Option<T>, default: T): T {
    match o case None => default case Some(v) => v
  }

  function MapErr<T, E, F>(r: Result<T, E>, f: E -> F): Result<T, F> {
    match r case Ok(v) => Ok(v) case Err(e) => Err(f(e))
  }

  function OkOr<T, E>(o: Option<T>, e: E): Result<T, E> {
    match o case None => Err(e) case Some(v) => Ok(v)
  }

  function Min(a: int, b: int): int { if a <= b then a else b }
  function Max(a: int, b: int): int { if a <= b then b else a }
  function AbsDiff(a: int, b: int): nat { if a <= b then b - a else a - b }
}
