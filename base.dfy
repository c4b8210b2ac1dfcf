/** Value types shared by every module: optional values, bytes and the
    32-bit machine words of the RA6M5 target (a Cortex-M33, where `size_t`,
    `uintptr_t` and `ssize_t` are 32 bits wide). */
module Base {

  datatype Option<T> = None | Some(value: T)

  /** An outcome that is either a value or the error the source raises. */
  datatype Result<T, E> = Ok(value: T) | Err(error: E)

  /** One octet, as Python's `bytes`/`bytearray` hold them. */
  newtype byte = x: int | 0 <= x < 256

  const WordLimit: int := 0x1_0000_0000
  const SignedLimit: int := 0x8000_0000

  /** `size_t` and `uintptr_t` on the target. */
  type SizeT = x: int | 0 <= x < WordLimit

  /** A pointer on the target; 0 is NULL. */
  type Addr = SizeT

  /** `ssize_t` on the target. */
  type SSizeT = x: int | -SignedLimit <= x < SignedLimit

  /** Unsigned 32-bit wrap-around of an exact integer result. */
  function Wrap(x: int): (r: SizeT)
    ensures 0 <= x < WordLimit ==> r == x
    ensures (r - x) % WordLimit == 0
  {
    x % WordLimit
  }

  /** Reinterpretation of a `size_t` bit pattern as `ssize_t` (two's complement). */
  function ToSigned(x: SizeT): (r: SSizeT)
    ensures Wrap(r) == x
    ensures x < SignedLimit <==> r >= 0
  {
    if x < SignedLimit then x else x - WordLimit
  }

  /** Two's complement wrap-around of an exact integer result into `ssize_t`. */
  function WrapSigned(x: int): (r: SSizeT)
    ensures -SignedLimit <= x < SignedLimit ==> r == x
    ensures Wrap(r) == Wrap(x)
  {
    ToSigned(Wrap(x))
  }

  /** Concatenation regrouped. */
  lemma Assoc<T>(a: seq<T>, b: seq<T>, c: seq<T>)
    ensures a + b + c == a + (b + c)
  {
  }

  /** A sequence cut at `i` and `j` and put back together. */
  lemma SliceConcat<T>(s: seq<T>, i: nat, j: nat)
    requires i <= j <= |s|
    ensures s[..i] + s[i..j] == s[..j] && s[..j] + s[j..] == s
  {
  }

  /** A sequence is its part before `i`, its element at `i` and the rest. */
  lemma Cut<T>(s: seq<T>, i: nat)
    requires i < |s|
    ensures s == s[..i] + [s[i]] + s[i + 1..]
  {
  }

  /** A slice inside the left operand of a concatenation. */
  lemma SliceLeft<T>(a: seq<T>, b: seq<T>, i: nat, j: nat)
    requires i <= j <= |a|
    ensures (a + b)[i..j] == a[i..j]
  {
  }

  /** A slice inside the right operand of a concatenation. */
  lemma SliceRight<T>(a: seq<T>, b: seq<T>, i: nat, j: nat)
    requires i <= j <= |b|
    ensures (a + b)[|a| + i..|a| + j] == b[i..j]
  {
  }

  function Min(a: int, b: int): int { if a <= b then a else b }

  function Max(a: int, b: int): int { if a <= b then b else a }
}
