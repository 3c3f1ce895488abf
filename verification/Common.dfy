/** Types shared by every component: bytes, 64-bit words and IEEE-754 doubles seen as bit patterns. */
module Common {
  const TWO63: int := 0x8000_0000_0000_0000
  const TWO64: int := 0x1_0000_0000_0000_0000

  type Byte = b: int | 0 <= b < 256
  type Bytes = seq<Byte>

  /** An `unsigned long` / `size_t` of the source. */
  type U64 = n: int | 0 <= n < TWO64
  const SIZE_MAX: U64 := TWO64 - 1

  /** A `long long` of the source. */
  type I64 = n: int | -TWO63 <= n < TWO63

  datatype Option<+T> = None | Some(value: T)

  /** Unsigned addition and subtraction wrap modulo 2^64. */
  function WrapAdd(a: U64, b: U64): U64 {
    if a + b < TWO64 then a + b else a + b - TWO64
  }

  function WrapSub(a: U64, b: U64): U64 {
    if a >= b then a - b else a - b + TWO64
  }

  lemma ConcatAssoc<T>(a: seq<T>, b: seq<T>, c: seq<T>)
    ensures (a + b) + c == a + (b + c)
  {
  }

  lemma StripPrefix<T>(d: seq<T>, u: seq<T>, v: seq<T>)
    requires d + u <= d + v
    ensures u <= v
  {
    assert u == (d + u)[|d|..] && v == (d + v)[|d|..];
  }

  function Reverse<T>(s: seq<T>): (r: seq<T>)
    ensures |r| == |s|
    ensures forall i :: 0 <= i < |s| ==> r[i] == s[|s| - 1 - i]
  {
    seq(|s|, i requires 0 <= i < |s| => s[|s| - 1 - i])
  }
}

/**
A `double` is its 64-bit pattern.  On patterns that are not NaN the numeric order is the order of the
sign-magnitude integers `Rank`, with +0 and -0 equal; a comparison with a NaN operand is false.
*/
module Float {
  import opened Common

  type F64 = b: int | 0 <= b < TWO64

  const INF_BITS: int := 0x7FF0_0000_0000_0000

  function Magnitude(x: F64): int {
    if x < TWO63 then x else x - TWO63
  }

  predicate IsNaN(x: F64) {
    Magnitude(x) > INF_BITS
  }

  predicate IsInf(x: F64) {
    Magnitude(x) == INF_BITS
  }

  function Rank(x: F64): int {
    if x < TWO63 then x else TWO63 - x
  }

  predicate Lt(x: F64, y: F64) {
    !IsNaN(x) && !IsNaN(y) && Rank(x) < Rank(y)
  }

  predicate Eq(x: F64, y: F64) {
    !IsNaN(x) && !IsNaN(y) && Rank(x) == Rank(y)
  }

  predicate Le(x: F64, y: F64) {
    Lt(x, y) || Eq(x, y)
  }
}
