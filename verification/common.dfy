/** Failure-compatible wrappers shared by every module: a missing value
    (Java null) and the unchecked exceptions the modelled code can throw. */
module Common {

  datatype Option<+T> = None | Some(value: T)

  /** The Java runtime exceptions that the modelled operations raise. */
  datatype Exception = NullPointerException | IndexOutOfBoundsException | NegativeArraySizeException

  /** The outcome of a Java call that either returns a value or throws. */
  datatype Result<+T> = Success(value: T) | Failure(error: Exception)

  /** A Java `int` (32-bit two's complement). */
  newtype int32 = x: int | -0x8000_0000 <= x < 0x8000_0000

  /** Reduces an unbounded integer to the `int` Java arithmetic would produce. */
  function Wrap32(x: int): (r: int32)
    ensures -0x8000_0000 <= x < 0x8000_0000 ==> r as int == x
    ensures (r as int - x) % 0x1_0000_0000 == 0
  {
    var m := x % 0x1_0000_0000;
    if m < 0x8000_0000 then m as int32 else (m - 0x1_0000_0000) as int32
  }

  function Max(a: int, b: int): int { if a < b then b else a }

  function Min(a: int, b: int): int { if a < b then a else b }

  /** A prefix one longer is the prefix followed by the next element. */
  lemma TakeSnoc<T>(s: seq<T>, i: nat)
    requires i < |s|
    ensures s[..i + 1] == s[..i] + [s[i]]
    ensures s[..i + 1][..i] == s[..i]
  {
  }
}
