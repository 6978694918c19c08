/** Machine words on linux/x86_64: `usize` (the payload of `Register<usize>`)
    and `libc::c_int`, with the three integer casts the reply conversions use.
    Integers are unbounded in Dafny, so every wrap-around is written out. */
module Registers {

  /** 2^64: `usize` is 64 bits wide on x86_64. */
  const WordModulus: int := 0x1_0000_0000_0000_0000

  /** A `Register<usize>`: an opaque 64-bit unsigned word. */
  type Word = x: int | 0 <= x < WordModulus

  /** `Register::default()`: the zero register. */
  const Zero: Word := 0

  /** 2^32: `c_int` is 32 bits wide on linux/x86_64. */
  const CIntModulus: int := 0x1_0000_0000
  const CIntMin: int := -0x8000_0000
  const CIntMax: int := 0x7fff_ffff

  /** A `libc::c_int`. */
  type CInt = x: int | CIntMin <= x <= CIntMax

  /** Does `x` fit in an `isize` (or any narrower signed type, such as `c_int`)? */
  predicate IsIsize(x: int) {
    -WordModulus / 2 <= x < WordModulus / 2
  }

  /** `x as usize` for a signed source value: the two's-complement bit pattern
      of `x`, sign-extended to 64 bits and read as unsigned. */
  function AsUsize(x: int): (w: Word)
    requires IsIsize(x)
    ensures 0 <= x ==> w == x
    ensures x < 0 ==> w == WordModulus + x
  {
    x % WordModulus
  }

  /** `w as c_int`: keep the low 32 bits of `w` and read them as two's complement. */
  function AsCInt(w: Word): (x: CInt)
    ensures (w - x) % CIntModulus == 0
  {
    var low := w % CIntModulus;
    if low <= CIntMax then low else low - CIntModulus
  }

  /** `-x` on `c_int` as compiled without overflow checks: the additive inverse
      modulo 2^32, so that negating `CIntMin` gives `CIntMin` back. */
  function WrappingNeg(x: CInt): (y: CInt)
    ensures (x + y) % CIntModulus == 0
  {
    if x == CIntMin then x else -x
  }

  /** Negation only wraps at the single value with no positive counterpart. */
  lemma WrappingNegExact(x: CInt)
    ensures WrappingNeg(x) + x == 0 <==> x != CIntMin
  {
  }

  /** Sign extension followed by truncation gives back every `c_int`:
      `(x as usize) as c_int == x`. */
  lemma TruncateSignExtended(x: CInt)
    ensures AsCInt(AsUsize(x)) == x
  {
  }

  /** A word in the top 2^31 values truncates to the negative `c_int` at the
      same distance below zero: `w as c_int == w - 2^64`. */
  lemma TruncateTopWord(w: Word)
    requires w >= WordModulus + CIntMin
    ensures AsCInt(w) == w - WordModulus
  {
  }
}
