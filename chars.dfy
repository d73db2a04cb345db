/** Code units, bytes and the character constants shared by the UTF-16
    string library, its formatter and the wide-string helpers. */
module Chars {

  /** One UTF-16 code unit: the library's `uchar`, an unsigned 16-bit value. */
  type Unit = x: int | 0 <= x < 0x1_0000

  /** One narrow `char`, read as the unsigned value of its byte. */
  type Byte = x: int | 0 <= x < 0x100

  /** A pointer that may be NULL, or a value that may be absent. */
  datatype Option<T> = None | Some(value: T)

  // The code points the library names in its `uc_chars` enumeration.
  const Nul: Unit := 0
  const Tab: Unit := 9
  const Lf: Unit := 10
  const Vt: Unit := 11
  const Ff: Unit := 12
  const Cr: Unit := 13
  const Space: Unit := 32
  const Hash: Unit := 35
  const Percent: Unit := 37
  const LeftParen: Unit := 40
  const RightParen: Unit := 41
  const Star: Unit := 42
  const Plus: Unit := 43
  const Minus: Unit := 45
  const Dot: Unit := 46
  const Digit0: Unit := 48
  const Digit9: Unit := 57
  const UpperA: Unit := 65
  const UpperX: Unit := 88
  const UpperZ: Unit := 90
  const LowerA: Unit := 97
  const LowerC: Unit := 99
  const LowerD: Unit := 100
  const LowerE: Unit := 101
  const LowerF: Unit := 102
  const LowerG: Unit := 103
  const LowerH: Unit := 104
  const LowerI: Unit := 105
  const LowerL: Unit := 108
  const LowerO: Unit := 111
  const LowerP: Unit := 112
  const LowerS: Unit := 115
  const LowerU: Unit := 117
  const LowerX: Unit := 120
  const LowerZ: Unit := 122
  const UpperE: Unit := 69
  const UpperG: Unit := 71

  /** `n` copies of `u`; nothing when `n` is zero or negative, as the
      formatter's `while (pad-- > 0)` loops behave. */
  function Repeat(u: Unit, n: int): (r: seq<Unit>)
    ensures |r| == if n > 0 then n else 0
    ensures forall k :: 0 <= k < |r| ==> r[k] == u
    decreases n
  {
    if n <= 0 then [] else [u] + Repeat(u, n - 1)
  }

  /** The text `(null)` printed for a NULL string argument. */
  const NullText: seq<Unit> := [LeftParen, 110, 117, 108, 108, RightParen]

  /** The same text as the bytes of a narrow string. */
  const NullBytes: seq<Byte> := [LeftParen, 110, 117, 108, 108, RightParen]
}
