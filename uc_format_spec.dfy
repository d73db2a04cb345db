/** What `uchar_format` produces, as pure functions: the directive
    grammar `%[flags][width][.precision][length]conversion`, the text of
    each conversion, and the text of a whole format.

    The variable arguments are a sequence of tagged values, one per
    `va_arg` the formatter performs.  A call whose behaviour the C code
    leaves undefined (a missing argument, an argument of the wrong kind,
    a format ending inside a directive, `%hc`, an unterminated string
    read without a precision, or a floating-point conversion, which is
    outside this model) has no text: `None`. */
module FormatSpec {
  import opened Chars
  import opened UcString
  import UcTol

  type U32 = x: int | 0 <= x < 0x1_0000_0000
  type I32 = x: int | -0x8000_0000 <= x < 0x8000_0000
  type U64 = x: int | 0 <= x < 0x1_0000_0000_0000_0000
  type I64 = x: int | -0x8000_0000_0000_0000 <= x < 0x8000_0000_0000_0000

  /** One variable argument, as `va_arg` reads it.  A `uchar` or `char`
      argument arrives promoted to `int`.  A string argument is the
      memory its pointer designates, `None` being NULL. */
  datatype Arg =
    | Int(i: I32)
    | UInt(u: U32)
    | Int64(l: I64)
    | UInt64(ul: U64)
    | WStr(w: Option<seq<Unit>>)
    | NStr(n: Option<seq<Byte>>)
    | Ptr(p: U64)

  /** Whether `char` is signed (it decides how `%hs` widens bytes of 0x80
      and above) and `sizeof(void*)` (it fixes the precision of `%p`). */
  datatype Platform = Platform(charSigned: bool, ptrSize: nat)

  /** `F_LEFT`, `F_PRINT_SIGN`, `F_PRINT_BLANK`, `F_ZERO_PAD`, `F_PREFIX`. */
  datatype Flags = Flags(left: bool, sign: bool, blank: bool, zero: bool, prefix: bool)

  const NoFlags := Flags(false, false, false, false, false)

  datatype LengthMod = NoLength | Long | LongLong | Short

  predicate IsFlag(c: Unit) {
    c == Plus || c == Space || c == Minus || c == Digit0 || c == Hash
  }

  predicate IsDigit(c: Unit) {
    Digit0 <= c <= Digit9
  }

  /** One flag character: `+` cancels a blank, a blank is ignored after
      `+`, `-` cancels `0`, and `0` is ignored after `-`. */
  function FlagStep(f: Flags, c: Unit): (g: Flags)
    requires IsFlag(c)
    ensures Consistent(f) ==> Consistent(g)
  {
    if c == Plus then f.(blank := false, sign := true)
    else if c == Space then (if f.sign then f else f.(blank := true))
    else if c == Minus then f.(zero := false, left := true)
    else if c == Digit0 then (if f.left then f else f.(zero := true))
    else f.(prefix := true)
  }

  /** `+` and a blank never hold together, nor `-` and `0`. */
  predicate Consistent(f: Flags) {
    (f.sign ==> !f.blank) && (f.left ==> !f.zero)
  }

  /** The flags loop: the flags from `i` on, and the index of the first
      unit that is not a flag. */
  function ParseFlags(fmt: seq<Unit>, i: nat, f: Flags): (r: (Flags, nat))
    requires Terminated(fmt) && i <= Len(fmt)
    ensures i <= r.1 <= Len(fmt) && !IsFlag(fmt[r.1])
    ensures forall k :: i <= k < r.1 ==> IsFlag(fmt[k])
    decreases Len(fmt) - i
  {
    if IsFlag(fmt[i]) then ParseFlags(fmt, i + 1, FlagStep(f, fmt[i])) else (f, i)
  }

  /** The decimal run at `i`, accumulated onto `acc` as the width and
      precision loops do. */
  function ParseNum(fmt: seq<Unit>, i: nat, acc: nat): (r: (nat, nat))
    requires Terminated(fmt) && i <= Len(fmt)
    ensures i <= r.1 <= Len(fmt) && !IsDigit(fmt[r.1])
    ensures forall k :: i <= k < r.1 ==> IsDigit(fmt[k])
    decreases Len(fmt) - i
  {
    if IsDigit(fmt[i]) then ParseNum(fmt, i + 1, acc * 10 + (fmt[i] - Digit0)) else (acc, i)
  }

  /** A width or precision: its value, the index after it, and the index
      of the next unread argument. */
  datatype Field = Field(value: int, next: nat, argi: nat)

  /** The width: a `*` reads an `int` argument (its sign is handled by the
      directive), otherwise a decimal run, 0 if there is none. */
  function ParseWidth(fmt: seq<Unit>, k: nat, args: seq<Arg>, ai: nat): (r: Option<Field>)
    requires Terminated(fmt) && k <= Len(fmt) && ai <= |args|
    ensures r.Some? ==> k <= r.value.next <= Len(fmt) && ai <= r.value.argi <= |args|
  {
    if fmt[k] == Star then
      if ai < |args| && args[ai].Int? then Some(Field(args[ai].i, k + 1, ai + 1)) else None
    else
      var (w, e) := ParseNum(fmt, k, 0);
      Some(Field(w, e, ai))
  }

  /** The precision: -1 without a `.`; after a `.`, a `*` reads an `int`
      argument with negative values becoming 0, otherwise a decimal run,
      0 if there is none. */
  function ParsePrec(fmt: seq<Unit>, k: nat, args: seq<Arg>, ai: nat): (r: Option<Field>)
    requires Terminated(fmt) && k <= Len(fmt) && ai <= |args|
    ensures r.Some? ==> k <= r.value.next <= Len(fmt) && ai <= r.value.argi <= |args|
    ensures r.Some? ==> r.value.value >= -1
    ensures r.Some? && fmt[k] != Dot ==> r.value == Field(-1, k, ai)
  {
    if fmt[k] != Dot then Some(Field(-1, k, ai))
    else if fmt[k + 1] == Star then
      if ai < |args| && args[ai].Int? then
        Some(Field(if args[ai].i < 0 then 0 else args[ai].i, k + 2, ai + 1))
      else None
    else
      var (p, e) := ParseNum(fmt, k + 1, 0);
      Some(Field(p, e, ai))
  }

  /** The length modifier: `ll`, `l` or `h`. */
  function ParseLength(fmt: seq<Unit>, k: nat): (r: (LengthMod, nat))
    requires Terminated(fmt) && k <= Len(fmt)
    ensures k <= r.1 <= Len(fmt)
  {
    if fmt[k] == LowerL then
      if fmt[k + 1] == LowerL then (LongLong, k + 2) else (Long, k + 1)
    else if fmt[k] == LowerH then (Short, k + 1)
    else (NoLength, k)
  }

  /** A parsed directive: flags, width (non-negative), precision (-1 when
      absent), length modifier, conversion unit, the index after the
      conversion unit and the next unread argument. */
  datatype Directive = Directive(flags: Flags, width: nat, prec: int, length: LengthMod,
                                 conv: Unit, next: nat, argi: nat)

  /** The directive that starts at the `%` at `i`; a negative `*` width
      turns on left alignment (without cancelling `0`) and is negated. */
  function ParseDirective(fmt: seq<Unit>, i: nat, args: seq<Arg>, ai: nat): (r: Option<Directive>)
    requires Terminated(fmt) && i < Len(fmt) && fmt[i] == Percent && ai <= |args|
    ensures r.Some? ==> i < r.value.next <= Len(fmt) && ai <= r.value.argi <= |args|
    ensures r.Some? ==> r.value.prec >= -1 && r.value.conv != Nul
    ensures r.Some? ==> fmt[r.value.next - 1] == r.value.conv
  {
    var (f, k1) := ParseFlags(fmt, i + 1, NoFlags);
    match ParseWidth(fmt, k1, args, ai)
    case None => None
    case Some(w) =>
      var f := if w.value < 0 then f.(left := true) else f;
      var width: nat := if w.value < 0 then -w.value else w.value;
      match ParsePrec(fmt, w.next, args, w.argi)
      case None => None
      case Some(p) =>
        var (len, k4) := ParseLength(fmt, p.next);
        if fmt[k4] == Nul then None
        else Some(Directive(f, width, p.value, len, fmt[k4], k4 + 1, p.argi))
  }

  /** The unit of one digit: `0`..`9`, then `a`..`f` or `A`..`F`. */
  function DigitUnit(d: nat, upper: bool): (u: Unit)
    requires d < 16
    ensures UcTol.DigitValue(u) == Some(d)
  {
    if d < 10 then Digit0 + d else (if upper then UpperA else LowerA) + d - 10
  }

  /** The representation of `v` in `radix` that the do-while loop builds
      from its last digit backwards: at least one digit. */
  function Digits(v: nat, radix: nat, upper: bool): (r: seq<Unit>)
    requires 2 <= radix <= 16
    ensures |r| >= 1
    decreases v
  {
    if v < radix then [DigitUnit(v, upper)]
    else Digits(v / radix, radix, upper) + [DigitUnit(v % radix, upper)]
  }

  /** The representation of `v` is that of its quotient followed by the digit of its remainder. */
  lemma DigitsStep(v: nat, radix: nat, upper: bool)
    requires 2 <= radix <= 16
    ensures v / radix > 0 ==> Digits(v, radix, upper) == Digits(v / radix, radix, upper) + [DigitUnit(v % radix, upper)]
    ensures v / radix == 0 ==> Digits(v, radix, upper) == [DigitUnit(v % radix, upper)]
  {
    var q: nat, d := v / radix, v % radix;
    assert v == q * radix + d && d < radix;
    if q > 0 {
      UcTol.MulMono(1, q, radix);
      assert v >= radix;
    } else {
      assert v == d;
    }
  }

  /** Every unit of the representation is a digit of the radix. */
  lemma {:induction false} DigitsAreDigits(v: nat, radix: nat, upper: bool)
    requires 2 <= radix <= 16
    ensures forall k :: 0 <= k < |Digits(v, radix, upper)| ==> UcTol.IsDigitIn(Digits(v, radix, upper)[k], radix)
    ensures Nul !in Digits(v, radix, upper)
    decreases v
  {
    var r := Digits(v, radix, upper);
    DigitsStep(v, radix, upper);
    var q: nat, u := v / radix, DigitUnit(v % radix, upper);
    assert UcTol.IsDigitIn(u, radix);
    if q > 0 {
      UcTol.DivBelow(v, radix);
      DigitsAreDigits(q, radix, upper);
      assert r == Digits(q, radix, upper) + [u];
    } else {
      assert r == [u];
    }
  }

  /** The sign position: `-` for a negative value, else `+` under the
      `+` flag, else a blank under the blank flag. */
  function SignText(f: Flags, negative: bool): (r: seq<Unit>)
    ensures |r| <= 1
    ensures |r| == 1 <==> negative || f.sign || f.blank
  {
    if negative then [Minus] else if f.sign then [Plus] else if f.blank then [Space] else []
  }

    /** The digits `COMMON_INT` stores: none for zero under an explicit
      precision of zero. */
  function IntDigits(v: nat, radix: nat, upper: bool, prec: int): seq<Unit>
    requires 2 <= radix <= 16
  {
    if prec == 0 && v == 0 then [] else Digits(v, radix, upper)
  }

  /** The zeros that bring `numlen` digits up to the precision, which is 1
      when none is given. */
  function ZeroCount(prec: int, numlen: nat): nat {
    var p := if prec == -1 then 1 else prec;
    if p > numlen then p - numlen else 0
  }

  /** The number part: the digits, with a `0` in front under `#` in octal
      when they do not already start with one and no zeros are due. */
  function IntBody(octal: bool, digits: seq<Unit>, nz: nat): seq<Unit> {
    if octal && (digits == [] || digits[0] != Digit0) && nz == 0 then [Digit0] + digits else digits
  }

  /** The order `COMMON_INT` emits its parts in. */
  function NumberLayout(left: bool, pad: int, sign: seq<Unit>, prefix: seq<Unit>, zeros: int, body: seq<Unit>): seq<Unit> {
    (if left then [] else Repeat(Space, pad)) + sign + prefix + Repeat(Digit0, zeros) + body
      + (if left then Repeat(Space, pad) else [])
  }

  /** The `0x`/`0X` prefix, present under `#`. */
  function HexPrefix(f: Flags, upper: bool): seq<Unit> {
    if f.prefix then [Digit0, if upper then UpperX else LowerX] else []
  }

  /** A number field laid out to `width`: the pad left after the body,
      zeros, sign and prefix goes before the sign, or after the body
      under `left`, or into the zeros under `zero`. */
  function PadField(left: bool, zero: bool, width: nat, sign: seq<Unit>, prefix: seq<Unit>,
                    nz: nat, body: seq<Unit>): seq<Unit>
  {
    var pad := width - |body| - nz - |sign| - |prefix|;
    NumberLayout(left, if zero then 0 else pad, sign, prefix, if zero then nz + pad else nz, body)
  }

  /** `COMMON_INT` around the stored `digits`: zeros up to the precision, the
      octal `0`, then the field laid out to `width`; under `0` without an
      explicit precision the pad becomes zeros. */
  function IntField(f: Flags, width: nat, prec: int, upper: bool,
                    digits: seq<Unit>, negative: bool, octal: bool): seq<Unit>
  {
    var nz := ZeroCount(prec, |digits|);
    PadField(f.left, f.zero && prec == -1, width, SignText(f, negative), HexPrefix(f, upper),
             nz, IntBody(octal, digits, nz))
  }

  /** `COMMON_STRING`: `text` padded to `width`, on the right under `-`,
      otherwise on the left with `0`s under `0` and blanks without. */
  function StrField(f: Flags, width: nat, text: seq<Unit>): seq<Unit> {
    var pad := width - |text|;
    var padch := if f.zero && !f.left then Digit0 else Space;
    if f.left then text + Repeat(padch, pad) else Repeat(padch, pad) + text
  }

  /** The precision the string conversions apply to a NULL argument. */
  function NullPrec(prec: int): (n: nat)
    requires prec >= -1
    ensures n <= 6
    ensures 0 <= prec <= 6 ==> n == prec
    ensures prec == -1 || prec > 6 ==> n == 6
  {
    if prec == -1 || prec > 6 then 6 else prec
  }

  /** The units `%s` prints from a wide string argument: at most `prec`
      units, stopping at a NUL; the whole string without a precision. */
  function WideText(o: Option<seq<Unit>>, prec: int): (r: Option<seq<Unit>>)
    requires prec >= -1
  {
    match o
    case None => Some(NullText[..NullPrec(prec)])
    case Some(s) =>
      if prec == -1 then (if Terminated(s) then Some(Text(s)) else None)
      else if Readable(s, prec) then Some(s[..BoundedLen(s, prec)])
      else None
  }

  /** A byte read through `char` and converted to `uchar`: bytes of 0x80
      and above are sign-extended where `char` is signed. */
  function Widen(pl: Platform, b: Byte): (u: Unit)
    ensures b < 0x80 ==> u == b
  {
    if pl.charSigned && b >= 0x80 then b + 0xFF00 else b
  }

  function WidenAll(pl: Platform, bs: seq<Byte>): (r: seq<Unit>)
    ensures |r| == |bs|
    ensures forall k :: 0 <= k < |bs| ==> r[k] == Widen(pl, bs[k])
  {
    if bs == [] then [] else [Widen(pl, bs[0])] + WidenAll(pl, bs[1..])
  }

  /** The bytes of a narrow string as the units of the same values, for
      finding its NUL. */
  function AsUnits(bs: seq<Byte>): (r: seq<Unit>)
    ensures |r| == |bs|
    ensures forall k :: 0 <= k < |bs| ==> r[k] == bs[k]
  {
    seq(|bs|, k requires 0 <= k < |bs| => bs[k] as Unit)
  }

  /** The units `%hs` prints from a narrow string argument. */
  function NarrowText(pl: Platform, o: Option<seq<Byte>>, prec: int): (r: Option<seq<Unit>>)
    requires prec >= -1
  {
    match o
    case None => Some(NullText[..NullPrec(prec)])
    case Some(bs) =>
      var s := AsUnits(bs);
      if prec == -1 then (if Terminated(s) then Some(WidenAll(pl, bs[..Len(s)])) else None)
      else if Readable(s, prec) then Some(WidenAll(pl, bs[..BoundedLen(s, prec)]))
      else None
  }

  /** The kind of argument an integer conversion reads: a pointer for
      `%p`, a signed value for `%d` and `%i`, an unsigned one otherwise,
      64 bits wide under `ll`. */
  predicate ArgFits(conv: Unit, length: LengthMod, a: Arg) {
    if conv == LowerP then a.Ptr?
    else if conv == LowerD || conv == LowerI then (if length == LongLong then a.Int64? else a.Int?)
    else if length == LongLong then a.UInt64? else a.UInt?
  }

  /** The magnitude and sign an integer conversion reads, or `None` when
      the next argument is missing or of another kind. */
  function IntArg(conv: Unit, length: LengthMod, args: seq<Arg>, ai: nat): (r: Option<(nat, bool)>)
    ensures r.Some? ==> ai < |args| && r.value.0 < 0x1_0000_0000_0000_0000
    ensures r.Some? <==> ai < |args| && ArgFits(conv, length, args[ai])
  {
    if ai >= |args| then None
    else
      var a := args[ai];
      if conv == LowerP then (if a.Ptr? then Some((a.p, false)) else None)
      else if conv == LowerD || conv == LowerI then
        if length == LongLong then
          (if a.Int64? then Some((if a.l < 0 then -(a.l as int) else a.l, a.l < 0)) else None)
        else (if a.Int? then Some((if a.i < 0 then -(a.i as int) else a.i, a.i < 0)) else None)
      else if length == LongLong then (if a.UInt64? then Some((a.ul, false)) else None)
      else (if a.UInt? then Some((a.u, false)) else None)
  }

  predicate IsIntConv(c: Unit) {
    c == LowerU || c == LowerD || c == LowerI || c == LowerX || c == UpperX || c == LowerP || c == LowerO
  }

  predicate IsFloatConv(c: Unit) {
    c == LowerF || c == LowerE || c == UpperE || c == LowerG || c == UpperG
  }

  /** An integer conversion once its argument is read: each conversion's
      own rules for the flags, radix, digit case and precision. */
  function IntConversion(pl: Platform, d: Directive, v: nat, negative: bool): seq<Unit>
    requires IsIntConv(d.conv) && d.prec >= -1
  {
    var f := d.flags;
    if d.conv == LowerU then
      IntField(f.(prefix := false, sign := false, blank := false), d.width, d.prec, false, IntDigits(v, 10, false, d.prec), false, false)
    else if d.conv == LowerD || d.conv == LowerI then
      IntField(f.(prefix := false), d.width, d.prec, false, IntDigits(v, 10, false, d.prec), negative, false)
    else if d.conv == LowerO then
      IntField(f.(prefix := false, sign := false, blank := false), d.width, d.prec, false, IntDigits(v, 8, false, d.prec), false, f.prefix)
    else
      var upper := d.conv != LowerX;
      var prec := if d.conv == LowerP then 2 * pl.ptrSize else d.prec;
      IntField(f.(prefix := f.prefix && v != 0, sign := false, blank := false), d.width, prec, upper, IntDigits(v, 16, upper, prec), false, false)
  }

  /** The text of one directive and the index of the next unread
      argument. */
  function Render(pl: Platform, d: Directive, args: seq<Arg>): (r: Option<(seq<Unit>, nat)>)
    requires d.prec >= -1 && d.argi <= |args|
    ensures r.Some? ==> d.argi <= r.value.1 <= |args|
    ensures r.Some? ==> r.value.1 == if d.conv == LowerC || d.conv == LowerS || IsIntConv(d.conv) then d.argi + 1 else d.argi
  {
    if d.conv == LowerC then
      if d.length == Short || d.argi >= |args| || !args[d.argi].Int? then None
      else Some((StrField(d.flags, d.width, [args[d.argi].i % 0x1_0000]), d.argi + 1))
    else if d.conv == LowerS then
      if d.argi >= |args| then None
      else if d.length == Short then
        if !args[d.argi].NStr? then None
        else match NarrowText(pl, args[d.argi].n, d.prec)
          case None => None
          case Some(t) => Some((StrField(d.flags, d.width, t), d.argi + 1))
      else if !args[d.argi].WStr? then None
      else match WideText(args[d.argi].w, d.prec)
        case None => None
        case Some(t) => Some((StrField(d.flags, d.width, t), d.argi + 1))
    else if IsIntConv(d.conv) then
      match IntArg(d.conv, d.length, args, d.argi)
      case None => None
      case Some((v, negative)) => Some((IntConversion(pl, d, v, negative), d.argi + 1))
    else if IsFloatConv(d.conv) then None
    else Some(([d.conv], d.argi))
  }

  /** The text of the format from index `i` with the arguments from `ai`
      on. */
  function FormatFrom(pl: Platform, fmt: seq<Unit>, i: nat, args: seq<Arg>, ai: nat): (r: Option<seq<Unit>>)
    requires Terminated(fmt) && i <= Len(fmt) && ai <= |args|
    decreases Len(fmt) - i, 1
  {
    if fmt[i] == Nul then Some([])
    else if fmt[i] != Percent then
      match FormatFrom(pl, fmt, i + 1, args, ai)
      case None => None
      case Some(rest) => Some([fmt[i]] + rest)
    else DirectiveFrom(pl, fmt, i, args, ai)
  }

  /** The text of the format from the directive at `i` on: the
      directive's own text, then the rest of the format. */
  function DirectiveFrom(pl: Platform, fmt: seq<Unit>, i: nat, args: seq<Arg>, ai: nat): (r: Option<seq<Unit>>)
    requires Terminated(fmt) && i < Len(fmt) && fmt[i] == Percent && ai <= |args|
    decreases Len(fmt) - i, 0
  {
    match ParseDirective(fmt, i, args, ai)
    case None => None
    case Some(d) =>
      match Render(pl, d, args)
      case None => None
      case Some((text, a)) =>
        match FormatFrom(pl, fmt, d.next, args, a)
        case None => None
        case Some(rest) => Some(text + rest)
  }

  /** The full text of a format call, without the terminating NUL. */
  function Format(pl: Platform, fmt: seq<Unit>, args: seq<Arg>): Option<seq<Unit>>
    requires Terminated(fmt)
  {
    FormatFrom(pl, fmt, 0, args, 0)
  }
}
