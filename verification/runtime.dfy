/**
 The slice of the C# runtime that the polygon widget relies on: nullable
 references, the three exceptions its code can raise, 32-bit `int`
 arithmetic (unchecked, so it wraps) and zero-initialised array allocation.
 */
module Runtime {

  /** A reference that may be `null`. */
  datatype Option<+T> = None | Some(value: T)

  /** The exceptions the widget's code can raise. */
  datatype Exception =
    | NullReference     // a member of a `null` reference was read
    | IndexOutOfRange   // an array index outside `[0, Length)`
    | Overflow          // `new T[n]` with a negative `n`

  /** A value, or the exception that stopped its computation. */
  datatype Result<+T> = Ok(value: T) | Err(error: Exception)

  const MinInt32: int := -0x8000_0000
  const MaxInt32: int := 0x7FFF_FFFF
  const TwoTo32: int := 0x1_0000_0000

  predicate IsInt32(x: int) {
    MinInt32 <= x <= MaxInt32
  }

  /** Reduces a mathematical integer to the 32-bit `int` it wraps to. */
  function Wrap32(x: int): (r: int)
    ensures IsInt32(r)
    ensures (r - x) % TwoTo32 == 0
    ensures IsInt32(x) ==> r == x
  {
    (x - MinInt32) % TwoTo32 + MinInt32
  }

  /** `x + 1` on a 32-bit `int` in an unchecked context. */
  function Inc32(x: int): (r: int)
    requires IsInt32(x)
    ensures x < MaxInt32 ==> r == x + 1
    ensures x == MaxInt32 ==> r == MinInt32
  {
    Wrap32(x + 1)
  }

  /** `new T[len]`: every element is the type's default value. */
  function NewArray<T>(len: int, default: T): (r: Result<seq<T>>)
    ensures r.Ok? <==> len >= 0
    ensures r.Err? ==> r.error == Overflow
    ensures r.Ok? ==> |r.value| == len && forall i :: 0 <= i < len ==> r.value[i] == default
  {
    if len < 0 then Err(Overflow) else Ok(seq(len, _ => default))
  }
}
