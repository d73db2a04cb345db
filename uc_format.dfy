/** `uchar_format` writing into a string target, and its entry points
    `uc_vsnprintf` and `uc_snprintf`.

    The target is the `uchar_format_target` of a string: the output
    array, the output position `u.outp`, the `remaining` room and the
    `written` count.  Every method below is proved to append to the
    target exactly the text the functions of `FormatSpec` give. */
module UcFormat {
  import opened Chars
  import opened UcString
  import opened FormatSpec
  import Macros

  /** A string `uchar_format_target`.  `emitted` is everything output so
      far, stored or not; `cap` is the room there was for it and `before`
      the array's contents before the first output. */
  class FormatTarget {
    var buf: array<Unit>
    var outp: nat
    var remaining: nat
    var written: nat
    ghost var emitted: seq<Unit>
    ghost var cap: nat
    ghost var before: seq<Unit>

    /** The first `min(|emitted|, cap)` units of the output are stored in
        order, `written` counts every unit, and the rest of the array is
        as it was. */
    ghost predicate Valid()
      reads this, buf
    {
      && cap <= buf.Length && |before| == buf.Length
      && outp + remaining == cap
      && written == |emitted|
      && outp == Macros.Min(|emitted|, cap)
      && (forall k :: 0 <= k < outp ==> buf[k] == emitted[k])
      && (forall k :: outp <= k < buf.Length ==> buf[k] == before[k])
    }

    /** The target `uc_snprintf` sets up: `remaining` is `maxlen`,
        nothing written yet. */
    constructor (wcs: array<Unit>, maxlen: nat)
      requires maxlen <= wcs.Length
      ensures buf == wcs && outp == 0 && remaining == maxlen && written == 0
      ensures emitted == [] && cap == maxlen && before == wcs[..]
      ensures Valid()
    {
      buf := wcs;
      outp := 0;
      remaining := maxlen;
      written := 0;
      emitted := [];
      cap := maxlen;
      before := wcs[..];
    }

    /** `uchar_format_target_output` on a string target: `written` grows
        by all of `units`, but only as many as `remaining` allows are
        stored. */
    method Output(units: seq<Unit>)
      requires Valid()
      modifies this, buf
      ensures Appended(this, units)
      ensures written == old(written) + |units|
      ensures outp == old(outp) + Macros.Min(|units|, old(remaining))
    {
      written := written + |units|;
      var i := 0;
      while i < |units| && remaining > 0
        invariant 0 <= i <= |units| && i <= old(remaining)
        invariant outp == old(outp) + i && remaining == old(remaining) - i
        invariant old(outp) == Macros.Min(|emitted|, cap) && outp + remaining == cap <= buf.Length
        invariant outp <= |emitted| + |units| && |before| == buf.Length
        invariant forall k :: 0 <= k < outp ==> buf[k] == (emitted + units)[k]
        invariant forall k :: outp <= k < buf.Length ==> buf[k] == before[k]
        invariant buf == old(buf) && cap == old(cap) && before == old(before)
        invariant written == old(written) + |units| && emitted == old(emitted)
      {
        buf[outp] := units[i];
        outp := outp + 1;
        i := i + 1;
        remaining := remaining - 1;
      }
      emitted := emitted + units;
    }

    /** The start of `uchar_format` on a string target with room: one
        unit is held back for the terminator. */
    method Reserve()
      requires Valid() && emitted == [] && remaining > 0
      modifies this
      ensures Valid() && emitted == [] && written == 0 && outp == 0
      ensures buf == old(buf) && before == old(before)
      ensures cap == old(cap) - 1 && remaining == old(remaining) - 1
    {
      remaining := remaining - 1;
      cap := cap - 1;
    }

    /** The end of `uchar_format` on a string target that held a unit
        back: that unit is given back, a NUL is output into it and not
        counted.  The NUL lands just after the stored units. */
    method Finish()
      requires Valid() && cap < buf.Length
      modifies this, buf
      ensures buf == old(buf) && written == old(written) && before == old(before)
      ensures old(outp) < |before|
      ensures buf[..] == old(emitted)[..old(outp)] + [Nul] + before[old(outp) + 1..]
    {
      remaining := remaining + 1;
      written := written + 1;
      if remaining > 0 {
        buf[outp] := Nul;
        outp := outp + 1;
        remaining := remaining - 1;
      }
      written := written - 1;
    }
  }

  /** The target kept its invariant, its array and its bookkeeping, and
      `text` was appended to the output. */
  twostate predicate Appended(t: FormatTarget, text: seq<Unit>)
    reads t, t.buf
  {
    && t.Valid() && t.buf == old(t.buf) && t.cap == old(t.cap) && t.before == old(t.before)
    && t.emitted == old(t.emitted) + text
  }

  /** `while (pad-- > 0) output(u)`. */
  method PadOut(t: FormatTarget, u: Unit, n: int)
    requires t.Valid()
    modifies t, t.buf
    ensures Appended(t, Repeat(u, n))
  {
    var pad := n;
    while pad > 0
      invariant t.Valid() && t.buf == old(t.buf) && t.cap == old(t.cap) && t.before == old(t.before)
      invariant n > 0 ==> 0 <= pad <= n
      invariant n <= 0 ==> pad == n
      invariant t.emitted == old(t.emitted) + Repeat(u, n - pad)
    {
      t.Output([u]);
      assert Repeat(u, n - pad + 1) == Repeat(u, n - pad) + [u];
      Assoc(old(t.emitted), Repeat(u, n - pad), [u]);
      pad := pad - 1;
    }
  }

  /** The loop that measures a `%s` argument: at most `prec` units
      (without limit when `prec` is -1), stopping at a NUL. */
  method StringLength(s: seq<Unit>, prec: int) returns (n: nat)
    requires prec >= -1
    requires prec == -1 ==> Terminated(s)
    requires prec >= 0 ==> Readable(s, prec)
    ensures prec == -1 ==> n == Len(s)
    ensures prec >= 0 ==> n == BoundedLen(s, prec)
  {
    n := 0;
    while (prec == -1 || n < prec) && s[n] != Nul
      invariant prec == -1 ==> n <= Len(s)
      invariant prec >= 0 ==> n <= BoundedLen(s, prec)
      invariant forall j :: 0 <= j < n ==> s[j] != Nul
      decreases |s| - n
    {
      n := n + 1;
    }
  }

  /** `COMMON_STRING`: the pad, then `prec` units of the wide string (or
      of the narrow string, each byte converted to `uchar`), then the
      pad on the right under `-`. */
  method CommonString(t: FormatTarget, pl: Platform, f: Flags, width: nat,
                      wide: seq<Unit>, narrow: seq<Byte>, short: bool, prec: nat)
    requires t.Valid()
    requires short ==> prec <= |narrow|
    requires !short ==> prec <= |wide|
    modifies t, t.buf
    ensures Appended(t, StrField(f, width, if short then WidenAll(pl, narrow[..prec]) else wide[..prec]))
  {
    ghost var text := if short then WidenAll(pl, narrow[..prec]) else wide[..prec];
    assert |text| == prec;
    ghost var e := t.emitted;
    var pad := width - prec;
    var padch := if f.zero && !f.left then Digit0 else Space;
    ghost var padding := Repeat(padch, pad);
    if !f.left {
      PadOut(t, padch, pad);
      EmitText(t, pl, wide, narrow, short, prec);
      Assoc(e, padding, text);
    } else {
      EmitText(t, pl, wide, narrow, short, prec);
      PadOut(t, padch, pad);
      Assoc(e, text, padding);
    }
  }

  /** The `while (prec-- > 0)` loops of `COMMON_STRING`. */
  method EmitText(t: FormatTarget, pl: Platform, wide: seq<Unit>, narrow: seq<Byte>, short: bool, prec: nat)
    requires t.Valid()
    requires short ==> prec <= |narrow|
    requires !short ==> prec <= |wide|
    modifies t, t.buf
    ensures Appended(t, if short then WidenAll(pl, narrow[..prec]) else wide[..prec])
  {
    ghost var text := if short then WidenAll(pl, narrow[..prec]) else wide[..prec];
    var j := 0;
    while j < prec
      invariant j <= prec
      invariant t.Valid() && t.buf == old(t.buf) && t.cap == old(t.cap) && t.before == old(t.before)
      invariant t.emitted == old(t.emitted) + text[..j]
    {
      var u := if short then Widen(pl, narrow[j]) else wide[j];
      assert u == text[j];
      t.Output([u]);
      assert text[..j + 1] == text[..j] + [u];
      Assoc(old(t.emitted), text[..j], [u]);
      j := j + 1;
    }
    assert text[..prec] == text;
  }

  /** At most 22 digits for a 64-bit value in radix 8 or more. */
  lemma {:induction false} DigitsFit(v: nat, radix: nat, upper: bool, n: nat, bound: nat)
    requires 8 <= radix <= 16 && 1 <= n && v < bound && bound <= Pow8(n)
    ensures |Digits(v, radix, upper)| <= n
    decreases n
  {
    if v >= radix {
      assert n > 1;
      DivBelowPow(v, radix, n, bound);
      DigitsFit(v / radix, radix, upper, n - 1, Pow8(n - 1));
    }
  }

  function Pow8(n: nat): nat {
    if n == 0 then 1 else 8 * Pow8(n - 1)
  }

  lemma Pow8Of22()
    ensures Pow8(22) == 0x4_0000_0000_0000_0000
  {
    assert Pow8(2) == 64;
    assert Pow8(4) == 4096;
    assert Pow8(6) == 0x4_0000;
    assert Pow8(8) == 0x100_0000;
    assert Pow8(10) == 0x4000_0000;
    assert Pow8(12) == 0x10_0000_0000;
    assert Pow8(14) == 0x400_0000_0000;
    assert Pow8(16) == 0x1_0000_0000_0000;
    assert Pow8(18) == 0x40_0000_0000_0000;
    assert Pow8(20) == 0x1000_0000_0000_0000;
  }

  lemma DivBelowPow(v: nat, radix: nat, n: nat, bound: nat)
    requires 8 <= radix && 1 <= n && v < bound && bound <= Pow8(n)
    ensures v / radix < Pow8(n - 1)
  {
    var q: nat := v / radix;
    assert v == q * radix + v % radix;
    if q >= Pow8(n - 1) {
      UcTol.MulMono(Pow8(n - 1), q, radix);
      UcTol.MulMono(8, radix, Pow8(n - 1));
      assert false;
    }
  }

  lemma Fits64(v: nat, radix: nat, upper: bool)
    requires 8 <= radix <= 16 && v < 0x1_0000_0000_0000_0000
    ensures |Digits(v, radix, upper)| <= 22
  {
    Pow8Of22();
    DigitsFit(v, radix, upper, 22, 0x1_0000_0000_0000_0000);
  }

  /** One pass of the do-while loop: the quotient is left to convert and
      the remainder's digit joins the front of the digits already stored. */
  lemma DigitsPrepend(v: nat, cvt: nat, radix: nat, upper: bool, tail: seq<Unit>)
    requires 2 <= radix <= 16
    requires Digits(v, radix, upper) == Digits(cvt, radix, upper) + tail
    ensures cvt / radix > 0 ==> cvt / radix < cvt
    ensures cvt / radix > 0 ==>
      Digits(v, radix, upper) == Digits(cvt / radix, radix, upper) + ([DigitUnit(cvt % radix, upper)] + tail)
    ensures cvt / radix == 0 ==> Digits(v, radix, upper) == [DigitUnit(cvt % radix, upper)] + tail
    ensures cvt % radix < radix
  {
    DigitsStep(cvt, radix, upper);
    var q: nat, u := cvt / radix, DigitUnit(cvt % radix, upper);
    if q > 0 {
      UcTol.DivBelow(cvt, radix);
      Assoc(Digits(q, radix, upper), [u], tail);
    }
  }

  /** The do-while loop of `COMMON_INT`: the digits of `v`, last first,
      into the end of `numbuf` before its NUL at 63. */
  method FillDigits(numbuf: array<Unit>, v: nat, radix: nat, upper: bool) returns (p: nat)
    requires numbuf.Length == 64 && numbuf[63] == Nul
    requires radix == 8 || radix == 10 || radix == 16
    requires v < 0x1_0000_0000_0000_0000
    modifies numbuf
    ensures 41 <= p <= 62 && numbuf[63] == Nul
    ensures numbuf[p..63] == Digits(v, radix, upper)
  {
    var hexadd := if upper then UpperA - Digit9 - 1 else LowerA - Digit9 - 1;
    ghost var ds := Digits(v, radix, upper);
    Fits64(v, radix, upper);
    p := 63;
    var cvt: nat := v;
    var more := true;
    while more
      invariant 41 <= p <= 63 && numbuf[63] == Nul
      invariant more ==> ds == Digits(cvt, radix, upper) + numbuf[p..63]
      invariant !more ==> p < 63 && ds == numbuf[p..63]
      decreases if more then cvt + 1 else 0
    {
      var q, d := cvt / radix, cvt % radix;
      ghost var tail := numbuf[p..63];
      DigitsPrepend(v, cvt, radix, upper, tail);
      DigitChar(d, upper);
      p := PutDigit(numbuf, p, if d + Digit0 > Digit9 then d + Digit0 + hexadd else d + Digit0);
      cvt := q;
      more := q > 0;
    }
  }

  /** The unit the loop computes for a digit, `'0' + d` moved up to the
      letters past 9. */
  lemma DigitChar(d: nat, upper: bool)
    requires d < 16
    ensures var hexadd := if upper then UpperA - Digit9 - 1 else LowerA - Digit9 - 1;
      (if d + Digit0 > Digit9 then d + Digit0 + hexadd else d + Digit0) == DigitUnit(d, upper)
  {
  }

  /** One `*--p = ...` store of the do-while loop. */
  method PutDigit(numbuf: array<Unit>, p: nat, c: Unit) returns (p': nat)
    requires 0 < p <= 63 && numbuf.Length == 64
    modifies numbuf
    ensures p' == p - 1 && numbuf[p'..63] == [c] + old(numbuf[p..63])
    ensures numbuf[63] == old(numbuf[63])
  {
    p' := p - 1;
    numbuf[p'] := c;
    assert numbuf[p'..63] == [c] + old(numbuf[p..63]);
  }

  /** `COMMON_INT`: digits, precision, the octal zero, padding, sign,
      `0x`/`0X` prefix, zeros and digits, in the order the code emits
      them. */
  method CommonInt(t: FormatTarget, f: Flags, width: nat, prec: int, radix: nat, upper: bool,
                   v: nat, negative: bool, octal: bool)
    requires t.Valid() && prec >= -1
    requires radix == 8 || radix == 10 || radix == 16
    requires v < 0x1_0000_0000_0000_0000
    modifies t, t.buf
    ensures Appended(t, IntField(f, width, prec, upper, IntDigits(v, radix, upper, prec), negative, octal))
  {
    var hexadd := if upper then UpperA - Digit9 - 1 else LowerA - Digit9 - 1;
    var numbuf, p, nzpad := StoreNumber(prec, v, radix, upper, octal);
    var flags, pad, zeros := IntLayout(f, width, prec, upper, negative, octal, 63 - p, nzpad,
                                            IntDigits(v, radix, upper, prec), numbuf[p..63]);
    var prefix := [Digit0, hexadd + Digit9 + UpperX - UpperA + 1];
    assert prefix == [Digit0, if upper then UpperX else LowerX];
    EmitNumber(t, flags, pad, zeros, negative, prefix, numbuf, p);
  }

  /** The middle of `COMMON_INT`: the default precision, an explicit one
      cancelling `0`, the pad left over after digits, zeros, sign and
      prefix, and the pad turned into zeros under `0`. */
  method IntLayout(f: Flags, width: nat, prec: int, upper: bool, negative: bool,
                   octal: bool, numlen: nat, nzpad: nat, ghost digits: seq<Unit>, ghost body: seq<Unit>)
      returns (flags: Flags, pad: int, zeros: int)
    requires prec >= -1
    requires nzpad == ZeroCount(prec, |digits|)
    requires body == IntBody(octal, digits, nzpad) && numlen == |body|
    ensures flags.left == f.left && flags.prefix == f.prefix
    ensures flags.zero == (f.zero && prec == -1)
    ensures SignText(flags, negative) == SignText(f, negative)
    ensures flags.zero ==> pad == 0
    ensures IntField(f, width, prec, upper, digits, negative, octal)
         == NumberLayout(f.left, pad, SignText(f, negative), HexPrefix(f, upper), zeros, body)
  {
    flags := if prec == -1 then f else f.(zero := false);
    var signed := negative || flags.sign || flags.blank;
    var prefixlen := if flags.prefix then 2 else 0;
    pad := width - numlen - nzpad - (if signed then 1 else 0) - prefixlen;
    assert |SignText(f, negative)| == (if signed then 1 else 0);
    assert |HexPrefix(f, upper)| == prefixlen;
    zeros := nzpad;
    if flags.zero {
      zeros := zeros + pad;
      pad := 0;
    }
    IntFieldLayout(f, width, prec, upper, digits, negative, octal, pad, zeros);
  }

  /** The integer field unfolded into its layout, given the pad and zero
      counts computed from the widths of its parts. */
  lemma IntFieldLayout(f: Flags, width: nat, prec: int, upper: bool, digits: seq<Unit>,
                       negative: bool, octal: bool, pad: int, zeros: int)
    requires var nz := ZeroCount(prec, |digits|);
      var rest := width - |IntBody(octal, digits, nz)| - nz - |SignText(f, negative)| - |HexPrefix(f, upper)|;
      if f.zero && prec == -1 then pad == 0 && zeros == nz + rest else pad == rest && zeros == nz
    ensures IntField(f, width, prec, upper, digits, negative, octal)
         == NumberLayout(f.left, pad, SignText(f, negative), HexPrefix(f, upper), zeros,
                         IntBody(octal, digits, ZeroCount(prec, |digits|)))
  {
  }

  /** The first half of `COMMON_INT`: the digits stored backwards from
      `numbuf[63]`, the zeros the precision asks for, and the octal `0`. */
  method StoreNumber(prec: int, v: nat, radix: nat, upper: bool, octal: bool)
      returns (numbuf: array<Unit>, p: nat, nzpad: nat)
    requires prec >= -1
    requires radix == 8 || radix == 10 || radix == 16
    requires v < 0x1_0000_0000_0000_0000
    ensures fresh(numbuf) && numbuf.Length == 64 && p <= 63 && numbuf[63] == Nul
    ensures nzpad == ZeroCount(prec, |IntDigits(v, radix, upper, prec)|)
    ensures numbuf[p..63] == IntBody(octal, IntDigits(v, radix, upper, prec), nzpad)
    ensures forall j :: p <= j < 63 ==> numbuf[j] != Nul
  {
    numbuf := new Unit[64];
    p := 63;
    numbuf[p] := Nul;
    if !(prec == 0 && v == 0) {
      p := FillDigits(numbuf, v, radix, upper);
      DigitsAreDigits(v, radix, upper);
    }
    ghost var digits := numbuf[p..63];
    assert digits == IntDigits(v, radix, upper, prec);
    var numlen := 63 - p;
    var minDigits := if prec == -1 then 1 else prec;
    var pad := minDigits - numlen;
    nzpad := if pad < 0 then 0 else pad;
    p := OctalZero(numbuf, p, nzpad, octal);
    BodyNulFree(numbuf[p..63], octal, digits, nzpad);
    forall j | p <= j < 63
      ensures numbuf[j] != Nul
    {
      assert numbuf[j] == numbuf[p..63][j - p];
    }
  }

  /** The octal step of `COMMON_INT`: a `0` goes in front under `#` when
      the digits do not start with one and no zeros are due. */
  method OctalZero(numbuf: array<Unit>, p: nat, nzpad: nat, octal: bool) returns (p': nat)
    requires numbuf.Length == 64 && 0 < p <= 63 && numbuf[63] == Nul
    modifies numbuf
    ensures p' <= p && numbuf[63] == Nul
    ensures numbuf[p'..63] == IntBody(octal, old(numbuf[p..63]), nzpad)
  {
    ghost var digits := numbuf[p..63];
    p' := p;
    if octal && numbuf[p] != Digit0 && nzpad <= 0 {
      p' := p - 1;
      numbuf[p'] := Digit0;
      assert numbuf[p'..63] == [Digit0] + digits;
    }
    assert digits == [] || digits[0] == numbuf[p];
  }

  /** A number part built from digits without NUL holds no NUL. */
  lemma BodyNulFree(body: seq<Unit>, octal: bool, digits: seq<Unit>, nz: nat)
    requires Nul !in digits && body == IntBody(octal, digits, nz)
    ensures forall j :: 0 <= j < |body| ==> body[j] != Nul
  {
  }

  /** The output half of `COMMON_INT`: left pad, sign or blank, prefix,
      zeros, the digits from `numbuf[p]` up to its NUL, right pad. */
  method EmitNumber(t: FormatTarget, flags: Flags, pad: int, nzpad: int, negative: bool,
                    prefix: seq<Unit>, numbuf: array<Unit>, p: nat)
    requires t.Valid() && numbuf != t.buf
    requires p <= 63 && numbuf.Length == 64 && numbuf[63] == Nul
    requires forall j :: p <= j < 63 ==> numbuf[j] != Nul
    modifies t, t.buf
    ensures Appended(t, NumberLayout(flags.left, pad, SignText(flags, negative),
                                     if flags.prefix then prefix else [], nzpad, old(numbuf[p..63])))
  {
    ghost var e := t.emitted;
    ghost var lead := if flags.left then [] else Repeat(Space, pad);
    ghost var pre := if flags.prefix then prefix else [];
    if !flags.left {
      PadOut(t, Space, pad);
    }
    EmitSign(t, flags, negative, prefix);
    ghost var x1 := lead + SignText(flags, negative) + pre;
    assert t.emitted == e + x1 by {
      assert lead + (SignText(flags, negative) + pre) == x1;
    }
    ghost var zeros, digits := Repeat(Digit0, nzpad), numbuf[p..63];
    ghost var trail := if flags.left then Repeat(Space, pad) else [];
    EmitZerosDigits(t, flags.left, pad, nzpad, numbuf, p);
    Assoc(e, x1, zeros + digits + trail);
    Assoc(x1, zeros + digits, trail);
    Assoc(x1, zeros, digits);
  }

  lemma Assoc(a: seq<Unit>, b: seq<Unit>, c: seq<Unit>)
    ensures a + (b + c) == a + b + c
  {
  }

  /** The zeros, the digits from `numbuf[p]` up to its NUL, and the pad on
      the right under `-`. */
  method EmitZerosDigits(t: FormatTarget, left: bool, pad: int, nzpad: int, numbuf: array<Unit>, p: nat)
    requires t.Valid() && numbuf != t.buf
    requires p <= 63 && numbuf.Length == 64 && numbuf[63] == Nul
    requires forall j :: p <= j < 63 ==> numbuf[j] != Nul
    modifies t, t.buf
    ensures Appended(t, Repeat(Digit0, nzpad) + old(numbuf[p..63]) + (if left then Repeat(Space, pad) else []))
  {
    PadOut(t, Digit0, nzpad);
    EmitDigits(t, numbuf, p);
    if left {
      PadOut(t, Space, pad);
    }
  }

  /** The sign (or blank) and the `0x`/`0X` prefix of `COMMON_INT`. */
  method EmitSign(t: FormatTarget, flags: Flags, negative: bool, prefix: seq<Unit>)
    requires t.Valid()
    modifies t, t.buf
    ensures Appended(t, SignText(flags, negative) + (if flags.prefix then prefix else []))
  {
    if negative {
      t.Output([Minus]);
    } else if flags.sign {
      t.Output([Plus]);
    } else if flags.blank {
      t.Output([Space]);
    }
    ghost var e := t.emitted;
    if flags.prefix {
      t.Output(prefix);
    }
  }

  /** The copy of the digits from `numbuf[p]` up to its NUL. */
  method EmitDigits(t: FormatTarget, numbuf: array<Unit>, p: nat)
    requires t.Valid() && numbuf != t.buf
    requires p <= 63 && numbuf.Length == 64 && numbuf[63] == Nul
    requires forall j :: p <= j < 63 ==> numbuf[j] != Nul
    modifies t, t.buf
    ensures Appended(t, numbuf[p..63])
  {
    ghost var body := numbuf[p..63];
    var q := p;
    while numbuf[q] != Nul
      invariant p <= q <= 63
      invariant t.Valid() && t.buf == old(t.buf) && t.cap == old(t.cap) && t.before == old(t.before)
      invariant t.emitted == old(t.emitted) + body[..q - p]
      decreases 63 - q
    {
      t.Output([numbuf[q]]);
      assert body[..q - p + 1] == body[..q - p] + [numbuf[q]];
      Assoc(old(t.emitted), body[..q - p], [numbuf[q]]);
      q := q + 1;
    }
    assert body[..q - p] == body;
  }
}
