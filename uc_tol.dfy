/** `uc_tol_helper` and its wrappers `uc_tol`, `uc_toul` and `uc_toi`: the
    library's own `strtol`/`strtoul` over UTF-16 strings.

    The widths of `long` and `unsigned long` differ between platforms, so
    they are a parameter.  The value returned by the helper is an
    `unsigned long`, a natural number not above `UlongMax(w)`; the
    errno side effect is the boolean `erange` ("this call stored
    ERANGE"), and `*endptr` is an index into the string's memory. */
module UcTol {
  import opened Chars
  import opened UcString

  /** The width of `long` (and of `unsigned long`) on the target. */
  datatype LongWidth = Long32 | Long64

  function UlongMax(w: LongWidth): (m: nat)
    ensures m == 2 * LongMax(w) + 1
  {
    match w
    case Long32 => 0xFFFF_FFFF
    case Long64 => 0xFFFF_FFFF_FFFF_FFFF
  }

  function LongMax(w: LongWidth): nat {
    match w
    case Long32 => 0x7FFF_FFFF
    case Long64 => 0x7FFF_FFFF_FFFF_FFFF
  }

  function LongMin(w: LongWidth): int {
    -(LongMax(w) as int) - 1
  }

  /** The signed value a sign and a magnitude denote. */
  function Signed(negative: bool, v: nat): int {
    if negative then -(v as int) else v
  }

  /** The `(long)` reading of an `unsigned long` bit pattern: two's
      complement. */
  function AsSigned(w: LongWidth, u: nat): (v: int)
    requires u <= UlongMax(w)
    ensures LongMin(w) <= v <= LongMax(w)
    ensures v % (UlongMax(w) + 1) == u
  {
    if u > LongMax(w) then u - (UlongMax(w) + 1) else u
  }

  /** The `(int)` conversion of a `long`: the low 32 bits, read as two's
      complement. */
  function ToInt32(v: int): (i: int)
    ensures -0x8000_0000 <= i < 0x8000_0000
    ensures (i - v) % 0x1_0000_0000 == 0
    ensures -0x8000_0000 <= v < 0x8000_0000 ==> i == v
  {
    var m := v % 0x1_0000_0000;
    if m >= 0x8000_0000 then m - 0x1_0000_0000 else m
  }

  /** `ASCII_SPACE`: blank, tab, carriage return, line feed, form feed and
      vertical tab. */
  predicate IsAsciiSpace(c: Unit) {
    c == Space || c == Tab || c == Cr || c == Lf || c == Ff || c == Vt
  }

  /** The index of the first unit at or after `i` that is not white space. */
  function SkipSpaces(s: seq<Unit>, i: nat): (k: nat)
    requires Terminated(s) && i <= Len(s)
    ensures i <= k <= Len(s) && !IsAsciiSpace(s[k])
    ensures forall j :: i <= j < k ==> IsAsciiSpace(s[j])
    decreases Len(s) - i
  {
    if IsAsciiSpace(s[i]) then SkipSpaces(s, i + 1) else i
  }

  /** The digit value the conversion loop gives a unit, `None` where it
      stops at once: `0`..`9`, then anything from `a` up counts from 10
      and anything from `A` up counts from 10.  Units such as `[` or `{`
      get values of 36 or more, which every legal base rejects. */
  function DigitValue(c: Unit): (d: Option<nat>)
    ensures Digit0 <= c <= Digit9 ==> d == Some(c - Digit0)
    ensures LowerA <= c <= LowerZ ==> d == Some(c - LowerA + 10)
    ensures UpperA <= c <= UpperZ ==> d == Some(c - UpperA + 10)
    ensures d.Some? && d.value < 36 <==>
              (Digit0 <= c <= Digit9 || LowerA <= c <= LowerZ || UpperA <= c <= UpperZ)
  {
    if Digit0 <= c <= Digit9 then Some(c - Digit0)
    else if c >= LowerA then Some(c - LowerA + 10)
    else if c >= UpperA then Some(c - UpperA + 10)
    else None
  }

  /** The unit is a digit of `base`. */
  predicate IsDigitIn(c: Unit, base: int) {
    DigitValue(c).Some? && DigitValue(c).value < base
  }

  /** What the code before the conversion loop settles: the sign, the
      base (after `0`/`0x` detection), where the digits start, and where
      `*endptr` points if no digit follows. */
  datatype Prefix = Prefix(negative: bool, base: int, start: nat, fail: nat)

  function ScanPrefix(s: seq<Unit>, base: int): (p: Prefix)
    requires Terminated(s)
    ensures p.start <= Len(s) && p.fail <= p.start
    ensures base != 0 ==> p.base == base
    ensures base == 0 ==> p.base == 8 || p.base == 10 || p.base == 16
  {
    var k := SkipSpaces(s, 0);
    BasePrefix(s, base, s[k] == Minus, if s[k] == Minus || s[k] == Plus then k + 1 else k)
  }

  /** The `0`/`0x` detection from `pos`, after the sign. */
  function BasePrefix(s: seq<Unit>, base: int, negative: bool, pos: nat): (p: Prefix)
    requires Terminated(s) && pos <= Len(s)
    ensures p.negative == negative && pos <= p.start <= Len(s) && p.fail <= p.start
    ensures base != 0 ==> p.base == base
    ensures base == 0 ==> p.base == 8 || p.base == 10 || p.base == 16
  {
    var (pos, fail) :=
      if base == 16 && s[pos] == Digit0 then
        if s[pos + 1] == LowerX || s[pos + 1] == UpperX then (pos + 2, pos + 1) else (pos + 1, pos + 1)
      else (pos, 0);
    if base == 0 && s[pos] == Digit0 then
      if s[pos + 1] == LowerX || s[pos + 1] == UpperX then Prefix(negative, 16, pos + 2, pos + 2)
      else Prefix(negative, 8, pos + 1, pos + 1)
    else if base == 0 then Prefix(negative, 10, pos, fail)
    else Prefix(negative, base, pos, fail)
  }

  /** The end of the run of `base` digits that starts at `i`. */
  function DigitsEnd(s: seq<Unit>, i: nat, base: int): (e: nat)
    requires Terminated(s) && i <= Len(s)
    ensures i <= e <= Len(s) && !IsDigitIn(s[e], base)
    ensures forall j :: i <= j < e ==> IsDigitIn(s[j], base)
    decreases Len(s) - i
  {
    if IsDigitIn(s[i], base) then DigitsEnd(s, i + 1, base) else i
  }

  /** The exact value of the digits `s[i..j]` in `base`. */
  function DigitsValue(s: seq<Unit>, i: nat, j: nat, base: nat): nat
    requires i <= j <= |s|
    requires forall k :: i <= k < j ==> IsDigitIn(s[k], base)
    decreases j
  {
    if j == i then 0
    else
      assert IsDigitIn(s[j - 1], base);
      var prev := DigitsValue(s, i, j - 1, base);
      NatProduct(prev, base);
      prev * base + DigitValue(s[j - 1]).value
  }

  lemma NatProduct(a: nat, b: nat)
    ensures a * b >= 0
  {
  }

  /** The mathematical outcome of the conversion: whether the base was
      legal, the sign, the exact magnitude of the digits (unbounded) and
      the final `*endptr`. */
  datatype Conversion = Conversion(legal: bool, negative: bool, magnitude: nat, end: nat)

  function Convert(s: seq<Unit>, base: int): (c: Conversion)
    requires Terminated(s)
    ensures c.end <= Len(s)
    ensures !c.legal ==> c.magnitude == 0
  {
    var p := ScanPrefix(s, base);
    if p.base < 2 || p.base > 36 then Conversion(false, p.negative, 0, p.fail)
    else
      var e := DigitsEnd(s, p.start, p.base);
      Conversion(true, p.negative, DigitsValue(s, p.start, e, p.base), if e > p.start then e else p.fail)
  }

  /** What the helper returns for a magnitude `v` and sign: saturation to
      `ULONG_MAX` when the digits overflow (clearing the sign for the
      unsigned variant), then to `LONG_MIN`/`LONG_MAX` for the signed one,
      and otherwise the magnitude negated modulo the width.  The boolean
      says whether ERANGE was stored. */
  function Outcome(w: LongWidth, uflag: bool, negative: bool, v: nat): (r: (nat, bool))
    ensures r.0 <= UlongMax(w)
  {
    var m := UlongMax(w);
    var number := if v > m then m else v;
    var negative := negative && !(uflag && v > m);
    if negative then
      if !uflag && number > LongMax(w) + 1 then (LongMax(w) + 1, true)
      else ((m + 1 - number) % (m + 1), v > m)
    else if !uflag && number > LongMax(w) then (LongMax(w), true)
    else (number, v > m)
  }

  /** `strtoul` (section 7.20.1.4 of ISO/IEC 9899:1999): the magnitude
      when it fits, negated in unsigned arithmetic after a minus sign;
      `ULONG_MAX` and ERANGE when it does not fit. */
  lemma UnsignedOutcome(w: LongWidth, negative: bool, v: nat)
    ensures var (r, erange) := Outcome(w, true, negative, v);
      && (erange <==> v > UlongMax(w))
      && (v > UlongMax(w) ==> r == UlongMax(w))
      && (v <= UlongMax(w) ==> r == Signed(negative, v) % (UlongMax(w) + 1))
  {
    var m := UlongMax(w);
    if negative && v <= m && v > 0 {
      assert (m + 1 - v) % (m + 1) == m + 1 - v;
      assert Signed(negative, v) % (m + 1) == m + 1 - v;
    }
  }

  /** `strtol`: the signed value when it lies in `LONG_MIN..LONG_MAX`,
      otherwise the nearer limit and ERANGE. */
  lemma SignedOutcome(w: LongWidth, negative: bool, v: nat)
    ensures var (r, erange) := Outcome(w, false, negative, v);
      var x := Signed(negative, v);
      && (erange <==> x < LongMin(w) || x > LongMax(w))
      && AsSigned(w, r) == (if x < LongMin(w) then LongMin(w) else if x > LongMax(w) then LongMax(w) else x)
  {
  }

  /** Base 0 reads `0x`/`0X` after the optional sign as base 16, another
      leading `0` as base 8 and anything else as base 10. */
  lemma AutoBase(s: seq<Unit>)
    requires Terminated(s)
    ensures var k := SkipSpaces(s, 0);
      var j := if s[k] == Minus || s[k] == Plus then k + 1 else k;
      var b := ScanPrefix(s, 0).base;
      && (b == 16 <==> s[j] == Digit0 && (s[j + 1] == LowerX || s[j + 1] == UpperX))
      && (b == 8 <==> s[j] == Digit0 && s[j + 1] != LowerX && s[j + 1] != UpperX)
      && (b == 10 <==> s[j] != Digit0)
  {
  }

  /** When the digits are there, `*endptr` points just past the last of
      them, and the conversion reads every unit in between. */
  lemma EndPastDigits(s: seq<Unit>, base: int)
    requires Terminated(s) && 2 <= ScanPrefix(s, base).base <= 36
    requires IsDigitIn(s[ScanPrefix(s, base).start], ScanPrefix(s, base).base)
    ensures var p, c := ScanPrefix(s, base), Convert(s, base);
      && p.start < c.end
      && !IsDigitIn(s[c.end], p.base)
      && forall j :: p.start <= j < c.end ==> IsDigitIn(s[j], p.base)
  {
  }

  /** Without a digit, and without a `0` taken as a prefix, nothing is
      converted: the value is 0 and `*endptr` is the string itself.  For
      base 0 and base 16, a `0` after the sign is a prefix, so the unit
      there must be something else. */
  lemma NoDigitsNoConversion(s: seq<Unit>, base: int)
    requires Terminated(s) && (2 <= base <= 36 || base == 0)
    requires base == 0 || base == 16 ==>
      var k := SkipSpaces(s, 0);
      s[if s[k] == Minus || s[k] == Plus then k + 1 else k] != Digit0
    requires !IsDigitIn(s[ScanPrefix(s, base).start], ScanPrefix(s, base).base)
    ensures Convert(s, base).magnitude == 0 && Convert(s, base).end == 0
  {
  }

  /** `"0x"` with no hexadecimal digit after it: base 16 converts the `0`
      and stops after it, but base 0 leaves `*endptr` after the `x`. */
  lemma ZeroXEnd()
    ensures Convert([Digit0, LowerX, Nul], 16) == Conversion(true, false, 0, 1)
    ensures Convert([Digit0, LowerX, Nul], 0) == Conversion(true, false, 0, 2)
  {
    var s: seq<Unit> := [Digit0, LowerX, Nul];
    assert SkipSpaces(s, 0) == 0;
    assert DigitsEnd(s, 2, 16) == 2;
  }

  /** The overflow test of the loop, `number > cutoff || (number == cutoff
      && digit > cutoff_digit)`, is exactly `number * base + digit >
      ULONG_MAX`. */
  lemma CutoffExact(m: nat, number: nat, base: nat, digit: nat)
    requires 2 <= base && digit < base
    ensures var cutoff := m / base;
      (number > cutoff || (number == cutoff && digit > m - cutoff * base))
        <==> number * base + digit > m
  {
    var cutoff := m / base;
    assert m == cutoff * base + m % base;
    if number > cutoff {
      MulMono(cutoff + 1, number, base);
    } else if number < cutoff {
      MulMono(number + 1, cutoff, base);
    }
  }

  lemma MulMono(a: nat, b: nat, c: nat)
    requires a <= b
    ensures a * c <= b * c
  {
  }

  lemma DivBelow(m: nat, base: nat)
    requires 2 <= base && m > 0
    ensures m / base < m
  {
  }

  /** Once above `ULONG_MAX` the value stays above it. */
  lemma GrowsPast(m: nat, v: nat, base: nat, digit: nat)
    requires 2 <= base && v > m
    ensures v * base + digit > m
  {
    assert v * base >= v * 1;
  }

  /** `uc_tol_helper`: skips white space, takes the sign and the base
      prefix, then accumulates digits with the cutoff test and finally
      saturates for the signed variant. */
  method TolHelper(w: LongWidth, s: seq<Unit>, base: int, uflag: bool)
      returns (r: nat, endptr: nat, erange: bool)
    requires Terminated(s)
    ensures var c := Convert(s, base);
      && endptr == c.end
      && (r, erange) == Outcome(w, uflag, c.negative, c.magnitude)
  {
    var m := UlongMax(w);
    var negative, b, pos, failChar := ReadPrefix(s, base);
    var number: nat := 0;
    erange := false;
    if 2 <= b <= 36 {
      number, negative, failChar, erange := ReadDigits(w, s, b, uflag, pos, negative, failChar);
    }
    endptr := failChar;
    if negative {
      if !uflag && number > LongMax(w) + 1 {
        erange := true;
        r := LongMax(w) + 1;
        return;
      }
      r := (m + 1 - number) % (m + 1);
    } else {
      if !uflag && number > LongMax(w) {
        erange := true;
        r := LongMax(w);
        return;
      }
      r := number;
    }
  }

  /** The part of `uc_tol_helper` before its conversion loop. */
  method ReadPrefix(s: seq<Unit>, base: int) returns (negative: bool, b: int, pos: nat, failChar: nat)
    requires Terminated(s)
    ensures ScanPrefix(s, base) == Prefix(negative, b, pos, failChar)
  {
    pos, failChar := 0, 0;
    while IsAsciiSpace(s[pos])
      invariant pos <= SkipSpaces(s, 0)
      invariant forall j :: 0 <= j < pos ==> IsAsciiSpace(s[j])
      decreases Len(s) - pos
    {
      pos := pos + 1;
    }
    assert pos == SkipSpaces(s, 0);
    negative := false;
    if s[pos] == Minus {
      negative := true;
      pos := pos + 1;
    } else if s[pos] == Plus {
      pos := pos + 1;
    }
    b, pos, failChar := ReadBase(s, base, negative, pos);
  }

  /** The `0`/`0x` steps of `uc_tol_helper`, from `pos0` after the sign. */
  method ReadBase(s: seq<Unit>, base: int, negative: bool, pos0: nat) returns (b: int, pos: nat, failChar: nat)
    requires Terminated(s) && pos0 <= Len(s)
    ensures BasePrefix(s, base, negative, pos0) == Prefix(negative, b, pos, failChar)
  {
    pos, failChar := pos0, 0;
    b := base;
    if b == 16 && s[pos] == Digit0 {
      pos := pos + 1;
      failChar := pos;
      if s[pos] == LowerX || s[pos] == UpperX {
        pos := pos + 1;
      }
    }
    if b == 0 {
      b := 10;
      if s[pos] == Digit0 {
        pos := pos + 1;
        b := b - 2;
        failChar := pos;
        if s[pos] == LowerX || s[pos] == UpperX {
          b := b + 8;
          pos := pos + 1;
          failChar := failChar + 1;
        }
      }
    }
  }

  /** The conversion loop of `uc_tol_helper`, from the first possible
      digit at `start`. */
  method ReadDigits(w: LongWidth, s: seq<Unit>, b: int, uflag: bool, start: nat, negative0: bool, fail0: nat)
      returns (number: nat, negative: bool, failChar: nat, erange: bool)
    requires Terminated(s) && start <= Len(s) && 2 <= b <= 36
    ensures var v := DigitsValue(s, start, DigitsEnd(s, start, b), b);
      && number == (if v > UlongMax(w) then UlongMax(w) else v)
      && (erange <==> v > UlongMax(w))
      && (negative <==> negative0 && !(uflag && v > UlongMax(w)))
      && failChar == if DigitsEnd(s, start, b) > start then DigitsEnd(s, start, b) else fail0
  {
    var m := UlongMax(w);
    var cutoff := m / b;
    var cutoffDigit := m - cutoff * b;
    ghost var e := DigitsEnd(s, start, b);
    var pos := start;
    number, negative, failChar, erange := 0, negative0, fail0, false;
    while IsDigitIn(s[pos], b)
      invariant start <= pos <= e
      invariant var v := DigitsValue(s, start, pos, b);
        && number == (if v > m then m else v)
        && (erange <==> v > m)
        && (negative <==> negative0 && !(uflag && v > m))
      invariant failChar == if pos > start then pos else fail0
      decreases e - pos
    {
      var digit := DigitValue(s[pos]).value;
      ghost var v := DigitsValue(s, start, pos, b);
      pos := pos + 1;
      failChar := pos;
      assert DigitsValue(s, start, pos, b) == v * b + digit;
      if v > m {
        GrowsPast(m, v, b, digit);
        DivBelow(m, b);
      } else {
        CutoffExact(m, number, b, digit);
        assert number * b + digit == v * b + digit;
      }
      if number > cutoff || (number == cutoff && digit > cutoffDigit) {
        number := m;
        if uflag {
          negative := false;
        }
        erange := true;
      } else {
        number := number * b + digit;
      }
    }
  }

  /** `uc_toul`: `strtoul`. */
  method Toul(w: LongWidth, s: seq<Unit>, base: int) returns (r: nat, endptr: nat, erange: bool)
    requires Terminated(s)
    ensures var c := Convert(s, base);
      && endptr == c.end
      && (erange <==> c.magnitude > UlongMax(w))
      && (c.magnitude > UlongMax(w) ==> r == UlongMax(w))
      && (c.magnitude <= UlongMax(w) ==>
            r == Signed(c.negative, c.magnitude) % (UlongMax(w) + 1))
  {
    r, endptr, erange := TolHelper(w, s, base, true);
    UnsignedOutcome(w, Convert(s, base).negative, Convert(s, base).magnitude);
  }

  /** `uc_tol`: `strtol`, the helper's result read as a `long`. */
  method Tol(w: LongWidth, s: seq<Unit>, base: int) returns (r: int, endptr: nat, erange: bool)
    requires Terminated(s)
    ensures var c := Convert(s, base);
      var x := Signed(c.negative, c.magnitude);
      && endptr == c.end
      && (erange <==> x < LongMin(w) || x > LongMax(w))
      && r == (if x < LongMin(w) then LongMin(w) else if x > LongMax(w) then LongMax(w) else x)
  {
    var u;
    u, endptr, erange := TolHelper(w, s, base, false);
    SignedOutcome(w, Convert(s, base).negative, Convert(s, base).magnitude);
    r := AsSigned(w, u);
  }

  /** `uc_toi`: `uc_tol` in base 10 without an end pointer, truncated to
      `int`. */
  method Toi(w: LongWidth, s: seq<Unit>) returns (r: int)
    requires Terminated(s)
    ensures var c := Convert(s, 10);
      var x := Signed(c.negative, c.magnitude);
      var clamped := if x < LongMin(w) then LongMin(w) else if x > LongMax(w) then LongMax(w) else x;
      r == ToInt32(clamped)
    ensures var c := Convert(s, 10);
      var x := Signed(c.negative, c.magnitude);
      -0x8000_0000 <= x < 0x8000_0000 ==> r == x
  {
    var l, _, _ := Tol(w, s, 10);
    r := ToInt32(l);
  }
}
