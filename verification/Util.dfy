/** Small shared vocabulary: optional values, error codes and bounded arithmetic. */
module Util {

  datatype Option<+T> = None | Some(value: T)

  /** The errno values the library returns. */
  datatype Errno = EINVAL | ENOMEM | EMSGSIZE | ETIMEDOUT | ERANGE | ENOEXEC | EFBIG

  datatype Result<+T> = Ok(value: T) | Err(error: Errno)

  const TWO32: nat := 0x1_0000_0000
  const TWO64: nat := 0x1_0000_0000_0000_0000

  type Byte = x: nat | x < 256
  type Word64 = x: nat | x < TWO64

  function Max(a: int, b: int): int { if a < b then b else a }

  function Min(a: int, b: int): int { if a < b then a else b }

  lemma Assoc<T>(a: seq<T>, b: seq<T>, c: seq<T>)
    ensures a + b + c == a + (b + c)
  {
  }

  /** Cutting a concatenation inside its first part. */
  lemma Cut<T>(a: seq<T>, b: seq<T>, n: nat)
    requires 0 < n <= |a|
    ensures (a + b)[0] == a[0] && (a + b)[..n] == a[..n] && (a + b)[n..] == a[n..] + b
  {
  }
}
