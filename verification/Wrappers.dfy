/** Result types shared by the models of the Go packages. */
module Wrappers {

  /** A value that may be absent: Go's nil, or a map lookup that is not found. */
  datatype Option<+T> = None | Some(value: T)

  /** Go's pair of a value and an error. */
  datatype Result<+T, +E> = Ok(value: T) | Err(error: E)

  function Min(a: int, b: int): int {
    if a <= b then a else b
  }

  function Max(a: int, b: int): int {
    if a <= b then b else a
  }

  const UINT64_LIMIT: nat := 0x1_0000_0000_0000_0000

  /** Subtraction of Go's 64-bit `uint`: it wraps around instead of going negative. */
  function UintSub(a: nat, b: nat): nat {
    if b <= a then a - b else (a - b) % UINT64_LIMIT
  }

  lemma UintSubWraps(a: nat, b: nat)
    requires a < b <= a + UINT64_LIMIT
    ensures UintSub(a, b) == if b < a + UINT64_LIMIT then UINT64_LIMIT + a - b else 0
  {
    assert (a - b) % UINT64_LIMIT == (a - b + UINT64_LIMIT) % UINT64_LIMIT;
  }
}
