/** Properties of the text `uchar_format` produces: the digits it prints
    read back through `uc_tol_helper`, the width and precision digits
    are read the way `uc_tol_helper` reads base 10, the flag rules, the
    size and layout of a field, and a few concrete formats. */
module FormatProps {
  import opened Chars
  import opened UcString
  import opened FormatSpec
  import UcTol

  /** The digits of `v` have the value `v` wherever they sit at the start
      of a sequence. */
  lemma {:induction false} DigitsValueIs(v: nat, radix: nat, upper: bool, s: seq<Unit>)
    requires 2 <= radix <= 16
    requires |Digits(v, radix, upper)| <= |s| && s[..|Digits(v, radix, upper)|] == Digits(v, radix, upper)
    ensures forall k :: 0 <= k < |Digits(v, radix, upper)| ==> UcTol.IsDigitIn(s[k], radix)
    ensures UcTol.DigitsValue(s, 0, |Digits(v, radix, upper)|, radix) == v
    decreases v
  {
    var r := Digits(v, radix, upper);
    DigitsValueOf(v, radix, upper);
    PrefixDigits(s, r, radix);
    forall k | 0 <= k < |r|
      ensures s[k] == r[k]
    {
      assert s[k] == s[..|r|][k];
    }
    DigitsValueAgree(s, r, |r|, radix);
  }

  /** The digits of `v` are worth `v`. */
  lemma {:induction false} DigitsValueOf(v: nat, radix: nat, upper: bool)
    requires 2 <= radix <= 16
    ensures forall k :: 0 <= k < |Digits(v, radix, upper)| ==> UcTol.IsDigitIn(Digits(v, radix, upper)[k], radix)
    ensures UcTol.DigitsValue(Digits(v, radix, upper), 0, |Digits(v, radix, upper)|, radix) == v
    decreases v
  {
    DigitsAreDigits(v, radix, upper);
    if v / radix > 0 {
      UcTol.DivBelow(v, radix);
      DigitsValueOf(v / radix, radix, upper);
    }
    DigitsValueLast(v, radix, upper);
  }

  /** The value of the digits of `v`, once those of `v / radix` are known
      to be worth `v / radix`. */
  lemma DigitsValueLast(v: nat, radix: nat, upper: bool)
    requires 2 <= radix <= 16
    requires forall k :: 0 <= k < |Digits(v, radix, upper)| ==> UcTol.IsDigitIn(Digits(v, radix, upper)[k], radix)
    requires v / radix > 0 ==>
      forall k :: 0 <= k < |Digits(v / radix, radix, upper)| ==> UcTol.IsDigitIn(Digits(v / radix, radix, upper)[k], radix)
    requires v / radix > 0 ==>
      UcTol.DigitsValue(Digits(v / radix, radix, upper), 0, |Digits(v / radix, radix, upper)|, radix) == v / radix
    ensures UcTol.DigitsValue(Digits(v, radix, upper), 0, |Digits(v, radix, upper)|, radix) == v
  {
    var r := Digits(v, radix, upper);
    var q: nat, d := v / radix, v % radix;
    DigitsStep(v, radix, upper);
    DivMod(v, radix);
    if q > 0 {
      SnocValue(r, Digits(q, radix, upper), DigitUnit(d, upper), radix, q, d);
    } else {
      var u := DigitUnit(d, upper);
      assert r == [u];
      assert [] + [u] == [u];
      SnocValue(r, [], u, radix, 0, d);
    }
  }

  /** One more digit `d` after digits worth `q` gives `q * radix + d`. */
  lemma SnocValue(r: seq<Unit>, rq: seq<Unit>, u: Unit, radix: nat, q: nat, d: nat)
    requires r == rq + [u]
    requires forall k :: 0 <= k < |r| ==> UcTol.IsDigitIn(r[k], radix)
    requires forall k :: 0 <= k < |rq| ==> UcTol.IsDigitIn(rq[k], radix)
    requires UcTol.DigitsValue(rq, 0, |rq|, radix) == q && UcTol.DigitValue(u) == Some(d)
    ensures UcTol.DigitsValue(r, 0, |r|, radix) == q * radix + d
  {
    DigitsValueAgree(r, rq, |rq|, radix);
  }

  /** The value of a digit run depends only on its units. */
  lemma {:induction false} DigitsValueAgree(s: seq<Unit>, r: seq<Unit>, j: nat, radix: nat)
    requires j <= |s| && j <= |r|
    requires forall k :: 0 <= k < j ==> s[k] == r[k]
    requires forall k :: 0 <= k < j ==> UcTol.IsDigitIn(r[k], radix)
    ensures forall k :: 0 <= k < j ==> UcTol.IsDigitIn(s[k], radix)
    ensures UcTol.DigitsValue(s, 0, j, radix) == UcTol.DigitsValue(r, 0, j, radix)
    decreases j
  {
    if j > 0 {
      DigitsValueAgree(s, r, j - 1, radix);
    }
  }

  /** A sequence that starts with digits has digits at those indices. */
  lemma PrefixDigits(s: seq<Unit>, r: seq<Unit>, radix: nat)
    requires |r| <= |s| && s[..|r|] == r
    requires forall k :: 0 <= k < |r| ==> UcTol.IsDigitIn(r[k], radix)
    ensures forall k :: 0 <= k < |r| ==> UcTol.IsDigitIn(s[k], radix)
  {
    forall k | 0 <= k < |r|
      ensures UcTol.IsDigitIn(s[k], radix)
    {
      assert s[k] == s[..|r|][k];
    }
  }

  /** The value of one more digit, when the digits before it are worth
      the quotient and it is the remainder. */
  lemma DigitsValueStep(s: seq<Unit>, n: nat, radix: nat, v: nat)
    requires 0 < n <= |s| && radix >= 2
    requires forall k :: 0 <= k < n ==> UcTol.IsDigitIn(s[k], radix)
    requires UcTol.DigitsValue(s, 0, n - 1, radix) == v / radix
    requires UcTol.DigitValue(s[n - 1]) == Some(v % radix)
    ensures UcTol.DigitsValue(s, 0, n, radix) == v
  {
    DigitsValueSnoc(s, n, radix, v / radix, v % radix);
    DivMod(v, radix);
  }

  /** One more digit at the end multiplies the value by the base and adds
      the digit. */
  lemma DigitsValueSnoc(s: seq<Unit>, n: nat, base: nat, prev: nat, d: nat)
    requires 0 < n <= |s|
    requires forall k :: 0 <= k < n ==> UcTol.IsDigitIn(s[k], base)
    requires UcTol.DigitsValue(s, 0, n - 1, base) == prev
    requires UcTol.DigitValue(s[n - 1]) == Some(d)
    ensures UcTol.DigitsValue(s, 0, n, base) == prev * base + d
  {
  }

  lemma DivMod(v: nat, radix: nat)
    requires radix > 0
    ensures v == (v / radix) * radix + v % radix
  {
  }

  /** The representation of a non-zero value does not start with `0`. */
  lemma {:induction false} DigitsLead(v: nat, radix: nat, upper: bool)
    requires 2 <= radix <= 16 && v > 0
    ensures Digits(v, radix, upper)[0] != Digit0
    decreases v
  {
    DigitsStep(v, radix, upper);
    var q: nat := v / radix;
    if q > 0 {
      UcTol.DivBelow(v, radix);
      DigitsLead(q, radix, upper);
      assert Digits(v, radix, upper)[0] == Digits(q, radix, upper)[0];
    } else {
      assert v == v % radix;
      assert UcTol.DigitValue(Digits(v, radix, upper)[0]) == Some(v);
    }
  }

  /** What `%u`, `%o` and `%x` print reads back, through `uc_tol_helper`
      in the same base, as the value printed, ending at the terminator. */
  lemma DigitsReadBack(v: nat, radix: nat, upper: bool)
    requires radix == 8 || radix == 10 || radix == 16
    ensures Terminated(Digits(v, radix, upper) + [Nul])
    ensures UcTol.Convert(Digits(v, radix, upper) + [Nul], radix)
         == UcTol.Conversion(true, false, v, |Digits(v, radix, upper)|)
  {
    var r := Digits(v, radix, upper);
    var s := r + [Nul];
    assert s[|r|] == Nul;
    DigitsAreDigits(v, radix, upper);
    assert s[..|r|] == r;
    DigitsValueIs(v, radix, upper, s);
    assert Len(s) == |r| by {
      assert forall k :: 0 <= k < |r| ==> s[k] == r[k];
    }
    assert UcTol.IsDigitIn(s[0], radix);
    assert UcTol.SkipSpaces(s, 0) == 0;
    if radix == 16 && s[0] == Digit0 {
      if v > 0 {
        DigitsLead(v, radix, upper);
      }
      assert v == 0 && r == [Digit0];
    }
    assert !UcTol.IsDigitIn(s[|r|], radix);
    assert UcTol.DigitsEnd(s, 0, radix) == |r|;
  }

  /** The width and precision digits of a directive are read the way
      `uc_tol_helper` reads base 10: the same run, the same value. */
  lemma ParseNumIsDecimal(fmt: seq<Unit>, i: nat)
    requires Terminated(fmt) && i <= Len(fmt)
    ensures ParseNum(fmt, i, 0).1 == UcTol.DigitsEnd(fmt, i, 10)
    ensures ParseNum(fmt, i, 0).0 == UcTol.DigitsValue(fmt, i, UcTol.DigitsEnd(fmt, i, 10), 10)
  {
    ParseNumFrom(fmt, i, i);
  }

  /** The accumulating loop, part way through the run. */
  lemma {:induction false} ParseNumFrom(fmt: seq<Unit>, i: nat, k: nat)
    requires Terminated(fmt) && i <= k <= Len(fmt)
    requires forall j :: i <= j < k ==> UcTol.IsDigitIn(fmt[j], 10)
    ensures ParseNum(fmt, k, UcTol.DigitsValue(fmt, i, k, 10))
         == (UcTol.DigitsValue(fmt, i, UcTol.DigitsEnd(fmt, k, 10), 10), UcTol.DigitsEnd(fmt, k, 10))
    decreases Len(fmt) - k
  {
    assert IsDigit(fmt[k]) <==> UcTol.IsDigitIn(fmt[k], 10);
    if IsDigit(fmt[k]) {
      assert UcTol.DigitsValue(fmt, i, k + 1, 10) == UcTol.DigitsValue(fmt, i, k, 10) * 10 + (fmt[k] - Digit0);
      ParseNumFrom(fmt, i, k + 1);
    }
  }

  /** What the flags `g` say after reading the flag characters `text`
      from `f`: `-`, `+` and `#` each hold when they occur; a blank holds
      only without `+` and `0` only without `-`, whatever the order. */
  predicate FlagsRead(f: Flags, text: seq<Unit>, g: Flags) {
    && (g.left <==> f.left || Minus in text)
    && (g.sign <==> f.sign || Plus in text)
    && (g.prefix <==> f.prefix || Hash in text)
    && (g.blank <==> (f.blank || Space in text) && !g.sign)
    && (g.zero <==> (f.zero || Digit0 in text) && !g.left)
  }

  /** The flags loop as a whole reads its flag characters as `FlagsRead`
      says. */
  lemma {:induction false} ParseFlagsMeaning(fmt: seq<Unit>, i: nat, f: Flags)
    requires Terminated(fmt) && i <= Len(fmt) && Consistent(f)
    ensures var (g, e) := ParseFlags(fmt, i, f); FlagsRead(f, fmt[i..e], g)
    decreases Len(fmt) - i
  {
    if IsFlag(fmt[i]) {
      var f1 := FlagStep(f, fmt[i]);
      ParseFlagsMeaning(fmt, i + 1, f1);
      var (g, e) := ParseFlags(fmt, i, f);
      assert ParseFlags(fmt, i + 1, f1) == (g, e);
      SliceFront(fmt, i, e);
      FlagsReadCons(f, fmt[i], fmt[i + 1..e], g);
    } else {
      assert fmt[i..i] == [];
    }
  }

  /** One more flag character in front of those read. */
  lemma FlagsReadCons(f: Flags, c: Unit, text: seq<Unit>, g: Flags)
    requires IsFlag(c) && Consistent(f) && FlagsRead(FlagStep(f, c), text, g)
    ensures FlagsRead(f, [c] + text, g)
  {
    assert forall u :: u in [c] + text <==> u == c || u in text;
  }

  /** The flags of a directive never hold `+` with a blank, nor `-` with
      `0` (a negative `*` width can still add `-` afterwards). */
  lemma ParsedFlagsConsistent(fmt: seq<Unit>, i: nat)
    requires Terminated(fmt) && i <= Len(fmt)
    ensures Consistent(ParseFlags(fmt, i, NoFlags).0)
  {
    ParseFlagsMeaning(fmt, i, NoFlags);
  }

  /** `COMMON_STRING` fills the field to the width and no further: the
      text stays whole, at the left under `-` and at the right otherwise,
      and every other unit is the pad unit. */
  lemma StrFieldShape(f: Flags, width: nat, text: seq<Unit>)
    ensures var r := StrField(f, width, text);
      && |r| == (if width > |text| then width else |text|)
      && (f.left ==> r[..|text|] == text)
      && (!f.left ==> r[|r| - |text|..] == text)
      && (f.left ==> forall k :: |text| <= k < |r| ==> r[k] == Space)
      && (!f.left ==> forall k :: 0 <= k < |r| - |text| ==> r[k] == (if f.zero then Digit0 else Space))
  {
    var r := StrField(f, width, text);
    var padch := if f.zero && !f.left then Digit0 else Space;
    if f.left {
      assert r == text + Repeat(padch, width - |text|);
      assert r[..|text|] == text;
    } else {
      assert r == Repeat(padch, width - |text|) + text;
      assert r[|r| - |text|..] == text;
    }
  }

  /** The order of the parts: their lengths add up, the body ends the
      text unless it is left-aligned, and the sign starts it when it is. */
  lemma NumberLayoutShape(left: bool, pad: int, sign: seq<Unit>, prefix: seq<Unit>, zeros: int, body: seq<Unit>)
    ensures var r := NumberLayout(left, pad, sign, prefix, zeros, body);
      && |r| == (if pad > 0 then pad else 0) + |sign| + |prefix| + (if zeros > 0 then zeros else 0) + |body|
      && (!left ==> r[|r| - |body|..] == body)
      && (left ==> r[..|sign|] == sign)
  {
    var r := NumberLayout(left, pad, sign, prefix, zeros, body);
    if left {
      var tail := prefix + Repeat(Digit0, zeros) + body + Repeat(Space, pad);
      assert r == sign + tail;
      assert r[..|sign|] == sign;
    } else {
      var head := Repeat(Space, pad) + sign + prefix + Repeat(Digit0, zeros);
      assert r == head + body;
      assert r[|r| - |body|..] == body;
    }
  }

  /** A field laid out to `width`: under `zero` the pad becomes zeros
      (there being no precision zeros then), otherwise blanks. */
  lemma FieldLayout(left: bool, zero: bool, width: nat, sign: seq<Unit>, prefix: seq<Unit>, nz: nat, body: seq<Unit>)
    requires zero ==> nz == 0
    ensures var n := |sign| + |prefix| + nz + |body|;
      var r := PadField(left, zero, width, sign, prefix, nz, body);
      && |r| == (if width > n then width else n)
      && (!left ==> r[|r| - |body|..] == body)
      && (left ==> r[..|sign|] == sign)
  {
    var pad := width - |body| - nz - |sign| - |prefix|;
    NumberLayoutShape(left, if zero then 0 else pad, sign, prefix, if zero then nz + pad else nz, body);
  }

  /** The size of a `COMMON_INT` field: sign, prefix, zeros and body fill
      the width exactly when they are shorter, and otherwise stand
      alone, with at least `prec` digit units.  The digits are empty
      only under an explicit precision, as `IntDigits` stores them. */
  lemma IntFieldSize(f: Flags, width: nat, prec: int, upper: bool,
                     digits: seq<Unit>, negative: bool, octal: bool)
    requires prec >= -1 && (digits == [] ==> prec >= 0)
    ensures var nz := ZeroCount(prec, |digits|);
      var n := |SignText(f, negative)| + (if f.prefix then 2 else 0) + nz + |IntBody(octal, digits, nz)|;
      && |IntField(f, width, prec, upper, digits, negative, octal)| == (if width > n then width else n)
      && nz + |IntBody(octal, digits, nz)| >= prec
  {
    var nz := ZeroCount(prec, |digits|);
    FieldLayout(f.left, f.zero && prec == -1, width, SignText(f, negative), HexPrefix(f, upper), nz, IntBody(octal, digits, nz));
  }

  /** Where the parts of a `COMMON_INT` field sit: the stored digits end
      a right-aligned field, and the sign starts a left-aligned one. */
  lemma IntFieldEnds(f: Flags, width: nat, prec: int, upper: bool,
                     digits: seq<Unit>, negative: bool, octal: bool)
    requires prec >= -1 && (digits == [] ==> prec >= 0)
    ensures var r := IntField(f, width, prec, upper, digits, negative, octal);
      && (!f.left ==> |digits| <= |r| && r[|r| - |digits|..] == digits)
      && (f.left ==> |SignText(f, negative)| <= |r| && r[..|SignText(f, negative)|] == SignText(f, negative))
  {
    if f.left {
      IntFieldStartsWithSign(f, width, prec, upper, digits, negative, octal);
    } else {
      IntFieldEndsWithDigits(f, width, prec, upper, digits, negative, octal);
    }
  }

  lemma IntFieldStartsWithSign(f: Flags, width: nat, prec: int, upper: bool,
                               digits: seq<Unit>, negative: bool, octal: bool)
    requires prec >= -1 && (digits == [] ==> prec >= 0) && f.left
    ensures var r := IntField(f, width, prec, upper, digits, negative, octal);
      |SignText(f, negative)| <= |r| && r[..|SignText(f, negative)|] == SignText(f, negative)
  {
    var nz := ZeroCount(prec, |digits|);
    FieldLayout(true, f.zero && prec == -1, width, SignText(f, negative), HexPrefix(f, upper), nz, IntBody(octal, digits, nz));
  }

  lemma IntFieldEndsWithDigits(f: Flags, width: nat, prec: int, upper: bool,
                               digits: seq<Unit>, negative: bool, octal: bool)
    requires prec >= -1 && (digits == [] ==> prec >= 0) && !f.left
    ensures var r := IntField(f, width, prec, upper, digits, negative, octal);
      |digits| <= |r| && r[|r| - |digits|..] == digits
  {
    var nz := ZeroCount(prec, |digits|);
    IntFieldEndsWithBody(f, width, prec, upper, digits, negative, octal);
    BodyEndsWithDigits(IntField(f, width, prec, upper, digits, negative, octal), octal, digits, nz);
  }

  lemma IntFieldEndsWithBody(f: Flags, width: nat, prec: int, upper: bool,
                             digits: seq<Unit>, negative: bool, octal: bool)
    requires prec >= -1 && (digits == [] ==> prec >= 0) && !f.left
    ensures var r := IntField(f, width, prec, upper, digits, negative, octal);
      var body := IntBody(octal, digits, ZeroCount(prec, |digits|));
      |body| <= |r| && r[|r| - |body|..] == body
  {
    var nz := ZeroCount(prec, |digits|);
    FieldLayout(f.left, f.zero && prec == -1, width, SignText(f, negative), HexPrefix(f, upper), nz,
                IntBody(octal, digits, nz));
  }

  /** Whatever ends with the number part ends with its digits. */
  lemma BodyEndsWithDigits(r: seq<Unit>, octal: bool, digits: seq<Unit>, nz: nat)
    requires var body := IntBody(octal, digits, nz);
      |body| <= |r| && r[|r| - |body|..] == body
    ensures |digits| <= |r| && r[|r| - |digits|..] == digits
  {
    var body := IntBody(octal, digits, nz);
    IntBodyEnds(octal, digits, nz);
    SuffixOfSuffix(r, body, digits);
  }

  /** The stored digits end the number part. */
  lemma IntBodyEnds(octal: bool, digits: seq<Unit>, nz: nat)
    ensures var body := IntBody(octal, digits, nz);
      |digits| <= |body| && body[|body| - |digits|..] == digits
  {
    var body := IntBody(octal, digits, nz);
    if body != digits {
      assert body == [Digit0] + digits;
    }
    assert body[|body| - |digits|..] == digits;
  }

  lemma SuffixOfSuffix(r: seq<Unit>, body: seq<Unit>, digits: seq<Unit>)
    requires |body| <= |r| && r[|r| - |body|..] == body
    requires |digits| <= |body| && body[|body| - |digits|..] == digits
    ensures |digits| <= |r| && r[|r| - |digits|..] == digits
  {
    assert r[|r| - |digits|..] == r[|r| - |body|..][|body| - |digits|..];
  }

  /** Zero under an explicit precision of zero prints no digit at all,
      only the blanks of the width, in `%u`, `%x`, `%X` and, without a
      sign flag, `%d` and `%i`; `#` adds no prefix to it. */
  lemma ZeroPrecisionZero(pl: Platform, d: Directive)
    requires d.prec == 0
    requires d.conv == LowerU || d.conv == LowerX || d.conv == UpperX
          || ((d.conv == LowerD || d.conv == LowerI) && !d.flags.sign && !d.flags.blank)
    ensures IntConversion(pl, d, 0, false) == Repeat(Space, d.width)
  {
    var r := IntConversion(pl, d, 0, false);
    assert IntDigits(0, 10, false, 0) == [];
    assert IntDigits(0, 16, d.conv == UpperX, 0) == [];
    if d.flags.left {
      assert r == [] + [] + [] + Repeat(Digit0, 0) + [] + Repeat(Space, d.width);
    } else {
      assert r == Repeat(Space, d.width) + [] + [] + Repeat(Digit0, 0) + [] + [];
    }
  }

  /** `%#o` of a non-zero value, without a precision, `0` or `-`: the
      digits with one `0` in front, right-aligned in blanks. */
  lemma OctalPrefix(pl: Platform, d: Directive, v: nat)
    requires d.conv == LowerO && d.flags.prefix && d.prec == -1 && !d.flags.zero && !d.flags.left && v > 0
    ensures IntConversion(pl, d, v, false)
         == Repeat(Space, d.width - |Digits(v, 8, false)| - 1) + [Digit0] + Digits(v, 8, false)
  {
    var ds := Digits(v, 8, false);
    DigitsLead(v, 8, false);
    var f := d.flags.(prefix := false, sign := false, blank := false);
    assert IntConversion(pl, d, v, false) == IntField(f, d.width, -1, false, ds, false, true);
    OctalField(f, d.width, ds);
  }

  /** A right-aligned octal field without an explicit precision whose
      digits do not start with `0`: blanks, then `0`, then the digits. */
  lemma OctalField(f: Flags, width: nat, ds: seq<Unit>)
    requires !f.prefix && !f.sign && !f.blank && !f.zero && !f.left
    requires ds != [] && ds[0] != Digit0
    ensures IntField(f, width, -1, false, ds, false, true)
         == Repeat(Space, width - |ds| - 1) + [Digit0] + ds
  {
    assert ZeroCount(-1, |ds|) == 0;
    var body := IntBody(true, ds, 0);
    assert body == [Digit0] + ds;
    assert SignText(f, false) == [] && HexPrefix(f, false) == [];
    RightAligned(width, body);
  }

  /** A field with no sign, prefix or zeros, padded on the left. */
  lemma RightAligned(width: nat, body: seq<Unit>)
    ensures PadField(false, false, width, [], [], 0, body) == Repeat(Space, width - |body|) + body
  {
    assert PadField(false, false, width, [], [], 0, body)
        == Repeat(Space, width - |body|) + [] + [] + Repeat(Digit0, 0) + body + [];
  }

  /** `#` in `%o` adds nothing when precision zeros are due or the
      digits already start with `0`. */
  lemma OctalNoExtraZero(pl: Platform, d: Directive, v: nat)
    requires d.conv == LowerO && d.prec >= -1
    requires var ds := IntDigits(v, 8, false, d.prec);
      ZeroCount(d.prec, |ds|) > 0 || (ds != [] && ds[0] == Digit0)
    ensures IntConversion(pl, d, v, false)
         == IntConversion(pl, d.(flags := d.flags.(prefix := false)), v, false)
  {
    var ds := IntDigits(v, 8, false, d.prec);
    var nz := ZeroCount(d.prec, |ds|);
    assert IntBody(true, ds, nz) == ds == IntBody(false, ds, nz);
  }

  /** Otherwise `#` in `%o` prints the field of the digits with one `0`
      in front of them, as if that `0` were a digit; `%#.0o` of zero is
      therefore `0`. */
  lemma OctalOneZero(pl: Platform, d: Directive, v: nat)
    requires d.conv == LowerO && d.prec >= -1 && d.flags.prefix
    requires var ds := IntDigits(v, 8, false, d.prec);
      ZeroCount(d.prec, |ds|) == 0 && (ds == [] || ds[0] != Digit0)
    ensures var f := d.flags.(prefix := false, sign := false, blank := false);
      IntConversion(pl, d, v, false)
      == IntField(f, d.width, d.prec, false, [Digit0] + IntDigits(v, 8, false, d.prec), false, false)
  {
    var ds := IntDigits(v, 8, false, d.prec);
    assert ZeroCount(d.prec, |[Digit0] + ds|) == 0;
    assert IntBody(true, ds, 0) == [Digit0] + ds == IntBody(false, [Digit0] + ds, 0);
  }

  /** `%#x` and `%#X` of a non-zero value: `0x` or `0X`, in the case of
      the conversion, comes first after the leading blanks (the sign being
      empty in hexadecimal), the field keeps its width, and only a
      right-aligned field without `0` padding has leading blanks. */
  lemma HexPrefixFirst(pl: Platform, d: Directive, v: nat)
    requires (d.conv == LowerX || d.conv == UpperX) && d.flags.prefix && v > 0 && d.prec >= -1
    ensures var r := IntConversion(pl, d, v, false);
      var ds := Digits(v, 16, d.conv == UpperX);
      var n := 2 + ZeroCount(d.prec, |ds|) + |ds|;
      var blanks := if d.flags.left || (d.flags.zero && d.prec == -1) || d.width <= n then 0 else d.width - n;
      && |r| == (if d.width > n then d.width else n)
      && (forall k :: 0 <= k < blanks ==> r[k] == Space)
      && r[blanks..blanks + 2] == [Digit0, if d.conv == UpperX then UpperX else LowerX]
  {
    var ds := Digits(v, 16, d.conv == UpperX);
    var pre := [Digit0, if d.conv == UpperX then UpperX else LowerX];
    HexField(pl, d, v);
    PrefixFirst(d.flags.left, d.flags.zero && d.prec == -1, d.width, pre, ZeroCount(d.prec, |ds|), ds);
  }

  /** `%#x` of a non-zero value is a field without a sign, with the
      prefix and the digits. */
  lemma HexField(pl: Platform, d: Directive, v: nat)
    requires (d.conv == LowerX || d.conv == UpperX) && d.flags.prefix && v > 0 && d.prec >= -1
    ensures var ds := Digits(v, 16, d.conv == UpperX);
      IntConversion(pl, d, v, false)
      == PadField(d.flags.left, d.flags.zero && d.prec == -1, d.width, [],
                  [Digit0, if d.conv == UpperX then UpperX else LowerX], ZeroCount(d.prec, |ds|), ds)
  {
    var upper := d.conv == UpperX;
    var ds := Digits(v, 16, upper);
    var f := d.flags.(sign := false, blank := false);
    assert IntDigits(v, 16, upper, d.prec) == ds;
    assert IntBody(false, ds, ZeroCount(d.prec, |ds|)) == ds;
    assert IntConversion(pl, d, v, false) == IntField(f, d.width, d.prec, upper, ds, false, false);
  }

  /** A field without a sign: its prefix follows the leading blanks,
      which only a right-aligned field padded with blanks has. */
  lemma PrefixFirst(left: bool, zero: bool, width: nat, prefix: seq<Unit>, nz: nat, body: seq<Unit>)
    requires zero ==> nz == 0
    ensures var r := PadField(left, zero, width, [], prefix, nz, body);
      var n := |prefix| + nz + |body|;
      var blanks := if left || zero || width <= n then 0 else width - n;
      && |r| == (if width > n then width else n)
      && (forall k :: 0 <= k < blanks ==> r[k] == Space)
      && r[blanks..blanks + |prefix|] == prefix
  {
    FieldLayout(left, zero, width, [], prefix, nz, body);
    var pad := width - |body| - nz - |prefix|;
    var p := if zero then 0 else pad;
    var lead := if left || zero then [] else Repeat(Space, pad);
    var tail := Repeat(Digit0, if zero then nz + pad else nz) + body + (if left then Repeat(Space, p) else []);
    UnsignedLayout(left, zero, width, prefix, nz, body);
    BlanksThenPrefix(lead, prefix, tail);
  }

  /** The parts of a field without a sign, in order. */
  lemma UnsignedLayout(left: bool, zero: bool, width: nat, prefix: seq<Unit>, nz: nat, body: seq<Unit>)
    ensures var pad := width - |body| - nz - |prefix|;
      var p := if zero then 0 else pad;
      PadField(left, zero, width, [], prefix, nz, body)
      == (if left || zero then [] else Repeat(Space, pad)) + prefix
         + (Repeat(Digit0, if zero then nz + pad else nz) + body + (if left then Repeat(Space, p) else []))
  {
    assert Repeat(Space, 0) == [];
  }

  lemma BlanksThenPrefix(lead: seq<Unit>, prefix: seq<Unit>, tail: seq<Unit>)
    requires forall k :: 0 <= k < |lead| ==> lead[k] == Space
    ensures var r := lead + prefix + tail;
      && (forall k :: 0 <= k < |lead| ==> r[k] == Space)
      && r[|lead|..|lead| + |prefix|] == prefix
  {
    var r := lead + prefix + tail;
    assert forall k :: 0 <= k < |lead| ==> r[k] == lead[k];
    assert r[|lead|..|lead| + |prefix|] == prefix;
  }

  /** `%c` prints a field of one unit, the low 16 bits of its `int`
      argument, at the left under `-` and at the right otherwise. */
  lemma CharField(pl: Platform, d: Directive, args: seq<Arg>)
    requires d.conv == LowerC && d.length != Short && d.prec >= -1
    requires d.argi < |args| && args[d.argi].Int?
    ensures Render(pl, d, args).Some?
    ensures var (r, next) := Render(pl, d, args).value;
      var u := args[d.argi].i % 0x1_0000;
      && next == d.argi + 1
      && |r| == (if d.width > 1 then d.width else 1)
      && (d.flags.left ==> r[0] == u && forall k :: 1 <= k < |r| ==> r[k] == Space)
      && (!d.flags.left ==>
            r[|r| - 1] == u && forall k :: 0 <= k < |r| - 1 ==> r[k] == (if d.flags.zero then Digit0 else Space))
  {
    var u := args[d.argi].i % 0x1_0000;
    StrFieldShape(d.flags, d.width, [u]);
  }

  /** A NULL string prints the first `prec` units of `(null)` for a
      precision up to 6, and all six otherwise, in `%s` and `%hs`. */
  lemma NullString(pl: Platform, d: Directive, args: seq<Arg>)
    requires d.conv == LowerS && d.prec >= -1 && d.argi < |args|
    requires if d.length == Short then args[d.argi] == NStr(None) else args[d.argi] == WStr(None)
    ensures Render(pl, d, args).Some?
    ensures var (r, next) := Render(pl, d, args).value;
      var t := if 0 <= d.prec <= 6 then NullText[..d.prec] else NullText;
      next == d.argi + 1 && r == StrField(d.flags, d.width, t)
  {
  }

  /** `%#x` and `%#X` of zero print no `0x`: only zeros and blanks. */
  lemma HexZeroNoPrefix(pl: Platform, d: Directive)
    requires (d.conv == LowerX || d.conv == UpperX) && d.prec >= -1
    ensures var r := IntConversion(pl, d, 0, false);
      forall k :: 0 <= k < |r| ==> r[k] == Space || r[k] == Digit0
  {
    var upper := d.conv == UpperX;
    var ds := IntDigits(0, 16, upper, d.prec);
    assert Digits(0, 16, upper) == [Digit0];
    var f := d.flags.(prefix := false, sign := false, blank := false);
    assert IntConversion(pl, d, 0, false) == IntField(f, d.width, d.prec, upper, ds, false, false);
    ZerosAndBlanks(f, d.width, d.prec, upper, ds);
  }

  /** A field with no sign and no prefix around digits that are all `0`
      holds nothing but zeros and blanks. */
  lemma ZerosAndBlanks(f: Flags, width: nat, prec: int, upper: bool, ds: seq<Unit>)
    requires !f.prefix && !f.sign && !f.blank
    requires forall k :: 0 <= k < |ds| ==> ds[k] == Digit0
    ensures var r := IntField(f, width, prec, upper, ds, false, false);
      forall k :: 0 <= k < |r| ==> r[k] == Space || r[k] == Digit0
  {
    var nz := ZeroCount(prec, |ds|);
    var pad := width - |ds| - nz;
    var zero := f.zero && prec == -1;
    var p := if zero then 0 else pad;
    var z := if zero then nz + pad else nz;
    var r := IntField(f, width, prec, upper, ds, false, false);
    assert r == NumberLayout(f.left, p, [], [], z, ds);
    LayoutOfZeros(f.left, p, z, ds);
  }

  predicate ZerosOrBlanks(r: seq<Unit>) {
    forall k :: 0 <= k < |r| ==> r[k] == Space || r[k] == Digit0
  }

  lemma CatZerosOrBlanks(a: seq<Unit>, b: seq<Unit>)
    requires ZerosOrBlanks(a) && ZerosOrBlanks(b)
    ensures ZerosOrBlanks(a + b)
  {
  }

  /** A number layout with no sign or prefix around zero digits. */
  lemma LayoutOfZeros(left: bool, pad: int, zeros: int, ds: seq<Unit>)
    requires ZerosOrBlanks(ds)
    ensures ZerosOrBlanks(NumberLayout(left, pad, [], [], zeros, ds))
  {
    var lead: seq<Unit> := if left then [] else Repeat(Space, pad);
    var trail: seq<Unit> := if left then Repeat(Space, pad) else [];
    var a := lead + [] + [];
    assert ZerosOrBlanks(a);
    CatZerosOrBlanks(a, Repeat(Digit0, zeros));
    CatZerosOrBlanks(a + Repeat(Digit0, zeros), ds);
    CatZerosOrBlanks(a + Repeat(Digit0, zeros) + ds, trail);
  }

  /** `%%` prints one `%` and reads no argument. */
  lemma PercentPercent(pl: Platform)
    ensures Format(pl, [Percent, Percent, Nul], []) == Some([Percent])
  {
    var fmt: seq<Unit> := [Percent, Percent, Nul];
    assert Len(fmt) == 2;
    assert ParseFlags(fmt, 1, NoFlags) == (NoFlags, 1);
    assert ParseNum(fmt, 1, 0) == (0, 1);
    var d := Directive(NoFlags, 0, -1, NoLength, Percent, 2, 0);
    assert ParseDirective(fmt, 0, [], 0) == Some(d);
    assert Render(pl, d, []) == Some(([Percent], 0));
    assert FormatFrom(pl, fmt, 2, [], 0) == Some([]);
    assert DirectiveFrom(pl, fmt, 0, [], 0) == Some([Percent] + []);
    assert FormatFrom(pl, fmt, 0, [], 0) == DirectiveFrom(pl, fmt, 0, [], 0);
    assert [Percent] + [] == [Percent];
    assert Format(pl, fmt, []) == FormatFrom(pl, fmt, 0, [], 0);
  }

  /** `%0*d` with a width argument of -5 and the value 42: the negative
      width turns on left alignment but leaves `0` in force, so the pad
      becomes leading zeros rather than trailing blanks. */
  lemma NegativeStarWidthKeepsZero(pl: Platform)
    ensures Format(pl, [Percent, Digit0, Star, LowerD, Nul], [Int(-5), Int(42)])
         == Some([Digit0, Digit0, Digit0, Digit0 + 4, Digit0 + 2])
  {
    var fmt: seq<Unit> := [Percent, Digit0, Star, LowerD, Nul];
    var args := [Int(-5), Int(42)];
    var d := Directive(NoFlags.(zero := true, left := true), 5, -1, NoLength, LowerD, 4, 1);
    var text := [Digit0, Digit0, Digit0, Digit0 + 4, Digit0 + 2];
    NegativeStarDirective(fmt, args, d);
    LeftZeroPadded42(pl, d, text);
    assert IntArg(LowerD, NoLength, args, 1) == Some((42, false));
    assert Render(pl, d, args) == Some((text, 2));
    assert FormatFrom(pl, fmt, 4, args, 2) == Some([]);
    assert DirectiveFrom(pl, fmt, 0, args, 0) == Some(text + []);
    assert FormatFrom(pl, fmt, 0, args, 0) == DirectiveFrom(pl, fmt, 0, args, 0);
    assert text + [] == text;
    assert Format(pl, fmt, args) == FormatFrom(pl, fmt, 0, args, 0);
  }

  /** `%0*d` with the width argument -5 parses to a left-aligned field of
      width 5 that keeps `0`. */
  lemma NegativeStarDirective(fmt: seq<Unit>, args: seq<Arg>, d: Directive)
    requires fmt == [Percent, Digit0, Star, LowerD, Nul] && args == [Int(-5), Int(42)]
    requires d == Directive(NoFlags.(zero := true, left := true), 5, -1, NoLength, LowerD, 4, 1)
    ensures Terminated(fmt) && Len(fmt) == 4
    ensures ParseDirective(fmt, 0, args, 0) == Some(d)
  {
    assert Len(fmt) == 4;
    var zf := NoFlags.(zero := true);
    assert ParseFlags(fmt, 2, zf) == (zf, 2);
    assert ParseFlags(fmt, 1, NoFlags) == (zf, 2);
  }

  /** 42 in a left-aligned field of width 5 under `0`: three zeros in
      front of the digits, no blank behind. */
  lemma LeftZeroPadded42(pl: Platform, d: Directive, text: seq<Unit>)
    requires d == Directive(NoFlags.(zero := true, left := true), 5, -1, NoLength, LowerD, 4, 1)
    requires text == [Digit0, Digit0, Digit0, Digit0 + 4, Digit0 + 2]
    ensures IntConversion(pl, d, 42, false) == text
  {
    var ds := [Digit0 + 4, Digit0 + 2];
    DigitsStep(42, 10, false);
    DigitsStep(4, 10, false);
    assert Digits(42, 10, false) == ds;
    assert IntDigits(42, 10, false, -1) == ds;
    assert IntField(d.flags, 5, -1, false, ds, false, false) == [] + [] + [] + Repeat(Digit0, 3) + ds + Repeat(Space, 0);
  }

  /** A `*` width reads the next `int` argument; a negative one turns on
      left alignment and gives the width its magnitude, leaving the other
      flags as they were parsed. */
  lemma StarWidth(fmt: seq<Unit>, i: nat, args: seq<Arg>, ai: nat)
    requires Terminated(fmt) && i < Len(fmt) && fmt[i] == Percent && ai <= |args|
    requires ParseDirective(fmt, i, args, ai).Some?
    requires fmt[ParseFlags(fmt, i + 1, NoFlags).1] == Star
    ensures ai < |args| && args[ai].Int?
    ensures var d, f, w := ParseDirective(fmt, i, args, ai).value, ParseFlags(fmt, i + 1, NoFlags).0, args[ai].i as int;
      && d.width == (if w < 0 then -w else w)
      && d.flags == (if w < 0 then f.(left := true) else f)
  {
  }

  /** A `*` precision reads the next `int` argument, a negative one
      counting as 0. */
  lemma StarPrecision(fmt: seq<Unit>, k: nat, args: seq<Arg>, ai: nat)
    requires Terminated(fmt) && k <= Len(fmt) && ai <= |args|
    requires fmt[k] == Dot && fmt[k + 1] == Star
    requires ParsePrec(fmt, k, args, ai).Some?
    ensures ai < |args| && args[ai].Int?
    ensures ParsePrec(fmt, k, args, ai).value.value == (if args[ai].i < 0 then 0 else args[ai].i)
    ensures ParsePrec(fmt, k, args, ai).value.argi == ai + 1
  {
  }

  /** A conversion unit the formatter does not know, `%` among them, is
      emitted as itself and reads no argument. */
  lemma UnknownConversionVerbatim(pl: Platform, d: Directive, args: seq<Arg>)
    requires d.prec >= -1 && d.argi <= |args|
    requires d.conv != LowerC && d.conv != LowerS && !IsIntConv(d.conv) && !IsFloatConv(d.conv)
    ensures Render(pl, d, args) == Some(([d.conv], d.argi))
  {
  }
}
