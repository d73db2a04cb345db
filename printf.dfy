/** The body of `uchar_format`: the directive parser, the conversion
    switch and the main loop over the format, and the string entry points
    `uc_vsnprintf` and `uc_snprintf` built on it.  Each method is proved to
    produce what `FormatSpec` says the format means. */
module Printf {
  import opened Chars
  import opened UcString
  import opened FormatSpec
  import opened UcFormat
  import Macros

  /** The flags loop of `uchar_format`. */
  method ReadFlags(fmt: seq<Unit>, i: nat) returns (flags: Flags, k: nat)
    requires Terminated(fmt) && i <= Len(fmt)
    ensures (flags, k) == ParseFlags(fmt, i, NoFlags)
  {
    flags := NoFlags;
    k := i;
    while true
      invariant i <= k <= Len(fmt)
      invariant ParseFlags(fmt, k, flags) == ParseFlags(fmt, i, NoFlags)
      decreases Len(fmt) - k
    {
      var c := fmt[k];
      if c == Plus {
        flags := flags.(blank := false, sign := true);
      } else if c == Space {
        if !flags.sign {
          flags := flags.(blank := true);
        }
      } else if c == Minus {
        flags := flags.(zero := false, left := true);
      } else if c == Digit0 {
        if !flags.left {
          flags := flags.(zero := true);
        }
      } else if c == Hash {
        flags := flags.(prefix := true);
      } else {
        break;
      }
      k := k + 1;
    }
  }

  /** `while (IS_DIGIT(*fmt)) n = n * 10 + *fmt++ - UC_0`, from 0. */
  method ReadNumber(fmt: seq<Unit>, i: nat) returns (n: nat, k: nat)
    requires Terminated(fmt) && i <= Len(fmt)
    ensures (n, k) == ParseNum(fmt, i, 0)
  {
    n := 0;
    k := i;
    while IsDigit(fmt[k])
      invariant i <= k <= Len(fmt)
      invariant ParseNum(fmt, k, n) == ParseNum(fmt, i, 0)
      decreases Len(fmt) - k
    {
      n := n * 10 + (fmt[k] - Digit0);
      k := k + 1;
    }
  }

  /** Everything after the `%` up to and including the conversion unit:
      flags, width, precision and length modifier, reading the `*`
      arguments as it goes. */
  method ReadDirective(fmt: seq<Unit>, i: nat, args: seq<Arg>, ai: nat) returns (d: Directive)
    requires Terminated(fmt) && i < Len(fmt) && fmt[i] == Percent && ai <= |args|
    requires ParseDirective(fmt, i, args, ai).Some?
    ensures d == ParseDirective(fmt, i, args, ai).value
  {
    var flags, k := ReadFlags(fmt, i + 1);
    var w, argi;
    w, k, argi := ReadWidth(fmt, k, args, ai);
    var width: nat;
    if w < 0 {
      flags := flags.(left := true);
      width := -w;
    } else {
      width := w;
    }
    var prec;
    prec, k, argi := ReadPrec(fmt, k, args, argi);
    var length;
    length, k := ReadLength(fmt, k);
    d := Directive(flags, width, prec, length, fmt[k], k + 1, argi);
  }

  /** The width: a `*` reads an `int`, otherwise a run of digits. */
  method ReadWidth(fmt: seq<Unit>, k: nat, args: seq<Arg>, ai: nat) returns (w: int, next: nat, argi: nat)
    requires Terminated(fmt) && k <= Len(fmt) && ai <= |args|
    requires ParseWidth(fmt, k, args, ai).Some?
    ensures Field(w, next, argi) == ParseWidth(fmt, k, args, ai).value
  {
    if fmt[k] == Star {
      w := args[ai].i;
      argi := ai + 1;
      next := k + 1;
    } else {
      w, next := ReadNumber(fmt, k);
      argi := ai;
    }
  }

  /** The precision: -1 without a `.`; after it, a `*` reads an `int` and
      a negative one becomes 0, otherwise a run of digits. */
  method ReadPrec(fmt: seq<Unit>, k: nat, args: seq<Arg>, ai: nat) returns (prec: int, next: nat, argi: nat)
    requires Terminated(fmt) && k <= Len(fmt) && ai <= |args|
    requires ParsePrec(fmt, k, args, ai).Some?
    ensures Field(prec, next, argi) == ParsePrec(fmt, k, args, ai).value
  {
    prec := -1;
    next := k;
    argi := ai;
    if fmt[next] == Dot {
      next := next + 1;
      if fmt[next] == Star {
        prec := args[argi].i;
        if prec < 0 {
          prec := 0;
        }
        argi := argi + 1;
        next := next + 1;
      } else {
        prec, next := ReadNumber(fmt, next);
      }
    }
  }

  /** The length modifier switch. */
  method ReadLength(fmt: seq<Unit>, k: nat) returns (length: LengthMod, next: nat)
    requires Terminated(fmt) && k <= Len(fmt)
    ensures (length, next) == ParseLength(fmt, k)
  {
    length := NoLength;
    next := k;
    if fmt[next] == LowerL {
      next := next + 1;
      if fmt[next] == LowerL {
        next := next + 1;
        length := LongLong;
      } else {
        length := Long;
      }
    } else if fmt[next] == LowerH {
      next := next + 1;
      length := Short;
    }
  }

  /** `%s` with a wide string: `(null)` cut to the precision for NULL,
      otherwise the units up to the precision or the NUL. */
  method WideString(t: FormatTarget, pl: Platform, f: Flags, width: nat, prec: int, o: Option<seq<Unit>>)
    requires t.Valid() && prec >= -1 && WideText(o, prec).Some?
    modifies t, t.buf
    ensures Appended(t, StrField(f, width, WideText(o, prec).value))
  {
    if o.None? {
      CommonString(t, pl, f, width, NullText, [], false, NullPrec(prec));
    } else {
      var s := o.value;
      var arglen := StringLength(s, prec);
      var n := if prec == -1 || prec > arglen then arglen else prec;
      CommonString(t, pl, f, width, s, [], false, n);
    }
  }

  /** `%hs`: the same over a narrow string, each byte converted to
      `uchar`. */
  method NarrowString(t: FormatTarget, pl: Platform, f: Flags, width: nat, prec: int, o: Option<seq<Byte>>)
    requires t.Valid() && prec >= -1 && NarrowText(pl, o, prec).Some?
    modifies t, t.buf
    ensures Appended(t, StrField(f, width, NarrowText(pl, o, prec).value))
  {
    if o.None? {
      NullWidens(pl, NullPrec(prec));
      CommonString(t, pl, f, width, [], NullBytes, true, NullPrec(prec));
    } else {
      var bs := o.value;
      var arglen := StringLength(AsUnits(bs), prec);
      var n := if prec == -1 || prec > arglen then arglen else prec;
      CommonString(t, pl, f, width, [], bs, true, n);
    }
  }

  /** `(null)` reads the same through `char` on every platform. */
  lemma NullWidens(pl: Platform, n: nat)
    requires n <= 6
    ensures WidenAll(pl, NullBytes[..n]) == NullText[..n]
  {
    var w := WidenAll(pl, NullBytes[..n]);
    forall k | 0 <= k < n
      ensures w[k] == NullText[k]
    {
      assert w[k] == Widen(pl, NullBytes[k]);
    }
  }

  /** The `va_arg` of an integer conversion: 64 bits under `ll` (and
      always for `%p`), 32 otherwise; `%d` and `%i` split off the sign. */
  method ReadInt(d: Directive, args: seq<Arg>) returns (v: nat, negative: bool)
    requires IsIntConv(d.conv) && IntArg(d.conv, d.length, args, d.argi).Some?
    ensures (v, negative) == IntArg(d.conv, d.length, args, d.argi).value
    ensures v < 0x1_0000_0000_0000_0000
  {
    var a := args[d.argi];
    negative := false;
    if d.conv == LowerP {
      v := a.p;
    } else if d.conv == LowerD || d.conv == LowerI {
      var x: int := if d.length == LongLong then a.l else a.i;
      if x < 0 {
        negative := true;
        v := -x;
      } else {
        v := x;
      }
    } else {
      v := if d.length == LongLong then a.ul else a.u;
    }
  }

  /** The integer conversions: each one's own flags, radix and digit
      case, then `COMMON_INT`. */
  method IntConv(t: FormatTarget, pl: Platform, d: Directive, v: nat, negative: bool)
    requires t.Valid() && d.prec >= -1 && IsIntConv(d.conv)
    requires v < 0x1_0000_0000_0000_0000
    modifies t, t.buf
    ensures Appended(t, IntConversion(pl, d, v, negative))
  {
    var f := d.flags;
    if d.conv == LowerU {
      CommonInt(t, f.(prefix := false, sign := false, blank := false), d.width, d.prec, 10, false, v, false, false);
    } else if d.conv == LowerD || d.conv == LowerI {
      CommonInt(t, f.(prefix := false), d.width, d.prec, 10, false, v, negative, false);
    } else if d.conv == LowerO {
      CommonInt(t, f.(prefix := false, sign := false, blank := false), d.width, d.prec, 8, false, v, false, f.prefix);
    } else {
      var upper := d.conv != LowerX;
      var prec := if d.conv == LowerP then 2 * pl.ptrSize else d.prec;
      CommonInt(t, f.(prefix := f.prefix && v != 0, sign := false, blank := false), d.width, prec, 16, upper, v, false, false);
    }
  }

  /** The conversion switch: `%c`, `%s`, the integers, and any other unit
      copied through as it stands (which is how `%%` prints `%`). */
  method Convert(t: FormatTarget, pl: Platform, d: Directive, args: seq<Arg>) returns (argi: nat)
    requires t.Valid() && d.prec >= -1 && d.argi <= |args|
    requires Render(pl, d, args).Some?
    modifies t, t.buf
    ensures Appended(t, Render(pl, d, args).value.0)
    ensures argi == Render(pl, d, args).value.1
  {
    if d.conv == LowerC {
      var c := args[d.argi].i % 0x1_0000;
      CommonString(t, pl, d.flags, d.width, [c], [], false, 1);
      argi := d.argi + 1;
    } else if d.conv == LowerS {
      if d.length == Short {
        NarrowString(t, pl, d.flags, d.width, d.prec, args[d.argi].n);
      } else {
        WideString(t, pl, d.flags, d.width, d.prec, args[d.argi].w);
      }
      argi := d.argi + 1;
    } else if IsIntConv(d.conv) {
      var v, negative := ReadInt(d, args);
      IntConv(t, pl, d, v, negative);
      argi := d.argi + 1;
    } else {
      t.Output([d.conv]);
      argi := d.argi;
    }
  }

  /** A run of plain units stands for itself in the output. */
  lemma {:induction false} LiteralText(pl: Platform, fmt: seq<Unit>, i: nat, j: nat, args: seq<Arg>, ai: nat)
    requires Terminated(fmt) && i <= j <= Len(fmt) && ai <= |args|
    requires forall k :: i <= k < j ==> fmt[k] != Percent
    ensures FormatFrom(pl, fmt, i, args, ai).Some? <==> FormatFrom(pl, fmt, j, args, ai).Some?
    ensures FormatFrom(pl, fmt, j, args, ai).Some? ==>
      FormatFrom(pl, fmt, i, args, ai).value == fmt[i..j] + FormatFrom(pl, fmt, j, args, ai).value
    decreases j - i
  {
    if i < j {
      LiteralText(pl, fmt, i + 1, j, args, ai);
      assert fmt[i] != Nul && fmt[i] != Percent;
      var next := FormatFrom(pl, fmt, i + 1, args, ai);
      assert FormatFrom(pl, fmt, i, args, ai) == if next.Some? then Some([fmt[i]] + next.value) else None;
      assert fmt[i..j] == [fmt[i]] + fmt[i + 1..j];
    }
  }

  /** `uchar_format` on a string target set up by `uc_vsnprintf`: the
      stored text is the start of the whole output, followed by a NUL
      when there was room for anything, and the result counts the whole
      output whether it fitted or not. */
  method UcharFormat(t: FormatTarget, pl: Platform, fmt: seq<Unit>, args: seq<Arg>) returns (n: nat)
    requires t.Valid() && t.emitted == [] && t.cap == t.remaining
    requires Terminated(fmt) && Format(pl, fmt, args).Some?
    modifies t, t.buf
    ensures n == |Format(pl, fmt, args).value|
    ensures t.buf == old(t.buf)
    ensures old(t.remaining) == 0 ==> t.buf[..] == old(t.buf[..])
    ensures old(t.remaining) > 0 ==>
      var k := Macros.Min(n, old(t.remaining) - 1);
      k < t.buf.Length && t.buf[..] == Format(pl, fmt, args).value[..k] + [Nul] + old(t.buf[..])[k + 1..]
  {
    ghost var full := Format(pl, fmt, args).value;
    var zerostr := false;
    if t.remaining == 0 {
      zerostr := true;
    } else {
      t.Reserve();
    }
    assert t.before == old(t.buf[..]);
    FormatBody(t, pl, fmt, args);
    if !zerostr {
      t.Finish();
    }
    n := t.written;
  }

  /** The main loop of `uchar_format`: literal runs and directives in
      turn until the format's NUL, outputting the whole formatted text. */
  method FormatBody(t: FormatTarget, pl: Platform, fmt: seq<Unit>, args: seq<Arg>)
    requires t.Valid() && t.emitted == []
    requires Terminated(fmt) && Format(pl, fmt, args).Some?
    modifies t, t.buf
    ensures t.Valid() && t.buf == old(t.buf) && t.cap == old(t.cap) && t.before == old(t.before)
    ensures t.emitted == Format(pl, fmt, args).value
  {
    ghost var full := Format(pl, fmt, args).value;
    var i: nat := 0;
    var ai: nat := 0;
    while fmt[i] != Nul
      invariant i <= Len(fmt) && ai <= |args|
      invariant t.Valid() && t.buf == old(t.buf) && t.cap == old(t.cap) && t.before == old(t.before)
      invariant FormatFrom(pl, fmt, i, args, ai).Some?
      invariant t.emitted + FormatFrom(pl, fmt, i, args, ai).value == full
      decreases Len(fmt) - i
    {
      if fmt[i] != Percent {
        i := CopyLiteral(t, pl, fmt, i, args, ai);
        if fmt[i] == Nul {
          break;
        }
      }
      i, ai := DoDirective(t, pl, fmt, i, args, ai);
    }
  }

  /** The copy-through part of the main loop: the plain units up to the
      next `%` or the end, output in one go. */
  method CopyLiteral(t: FormatTarget, pl: Platform, fmt: seq<Unit>, i: nat, args: seq<Arg>, ai: nat)
      returns (j: nat)
    requires t.Valid() && Terminated(fmt) && i < Len(fmt) && fmt[i] != Percent && ai <= |args|
    requires FormatFrom(pl, fmt, i, args, ai).Some?
    modifies t, t.buf
    ensures t.Valid() && t.buf == old(t.buf) && t.cap == old(t.cap) && t.before == old(t.before)
    ensures i < j <= Len(fmt) && (fmt[j] == Percent || fmt[j] == Nul)
    ensures FormatFrom(pl, fmt, j, args, ai).Some?
    ensures t.emitted + FormatFrom(pl, fmt, j, args, ai).value
         == old(t.emitted) + FormatFrom(pl, fmt, i, args, ai).value
  {
    j := i + 1;
    while fmt[j] != Percent && fmt[j] != Nul
      invariant i < j <= Len(fmt)
      invariant forall k :: i <= k < j ==> fmt[k] != Percent && fmt[k] != Nul
      decreases Len(fmt) - j
    {
      j := j + 1;
    }
    LiteralText(pl, fmt, i, j, args, ai);
    t.Output(fmt[i..j]);
    Assoc(old(t.emitted), fmt[i..j], FormatFrom(pl, fmt, j, args, ai).value);
  }

  /** The directive part of the main loop: parse it, then convert. */
  method DoDirective(t: FormatTarget, pl: Platform, fmt: seq<Unit>, i: nat, args: seq<Arg>, ai: nat)
      returns (j: nat, a: nat)
    requires t.Valid() && Terminated(fmt) && i < Len(fmt) && fmt[i] == Percent && ai <= |args|
    requires FormatFrom(pl, fmt, i, args, ai).Some?
    modifies t, t.buf
    ensures t.Valid() && t.buf == old(t.buf) && t.cap == old(t.cap) && t.before == old(t.before)
    ensures i < j <= Len(fmt) && a <= |args|
    ensures FormatFrom(pl, fmt, j, args, a).Some?
    ensures t.emitted + FormatFrom(pl, fmt, j, args, a).value
         == old(t.emitted) + FormatFrom(pl, fmt, i, args, ai).value
  {
    var d := ReadDirective(fmt, i, args, ai);
    ghost var text := Render(pl, d, args).value.0;
    a := Convert(t, pl, d, args);
    j := d.next;
    assert FormatFrom(pl, fmt, i, args, ai).value == text + FormatFrom(pl, fmt, j, args, a).value;
    Assoc(old(t.emitted), text, FormatFrom(pl, fmt, j, args, a).value);
  }

  /** `uc_vsnprintf`: formats into `wcs`, storing at most `maxlen` units
      including the terminator, and returns the length of the whole
      output. */
  method UcVsnprintf(wcs: array<Unit>, maxlen: nat, pl: Platform, fmt: seq<Unit>, args: seq<Arg>) returns (n: nat)
    requires maxlen <= wcs.Length
    requires Terminated(fmt) && Format(pl, fmt, args).Some?
    modifies wcs
    ensures n == |Format(pl, fmt, args).value|
    ensures maxlen == 0 ==> wcs[..] == old(wcs[..])
    ensures maxlen > 0 ==>
      var k := Macros.Min(n, maxlen - 1);
      k < wcs.Length && wcs[..] == Format(pl, fmt, args).value[..k] + [Nul] + old(wcs[..])[k + 1..]
  {
    var t := new FormatTarget(wcs, maxlen);
    n := UcharFormat(t, pl, fmt, args);
  }

  /** `uc_snprintf`: the same with the arguments given directly. */
  method UcSnprintf(wcs: array<Unit>, maxlen: nat, pl: Platform, fmt: seq<Unit>, args: seq<Arg>) returns (n: nat)
    requires maxlen <= wcs.Length
    requires Terminated(fmt) && Format(pl, fmt, args).Some?
    modifies wcs
    ensures n == |Format(pl, fmt, args).value|
    ensures maxlen == 0 ==> wcs[..] == old(wcs[..])
    ensures maxlen > 0 ==>
      var k := Macros.Min(n, maxlen - 1);
      k < wcs.Length && wcs[..] == Format(pl, fmt, args).value[..k] + [Nul] + old(wcs[..])[k + 1..]
  {
    n := UcVsnprintf(wcs, maxlen, pl, fmt, args);
  }
}
