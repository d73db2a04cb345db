# A verified model of the engine's UTF-16 string and number core

This project models three parts of the engine in Dafny:

- **The UTF-16 string library** (`libs/uchar/uchar.cpp`):
  - the `strlen`/`strcpy`/`strncpy`/`strcmp`-style primitives;
  - the surrogate-aware searches `uc_chr` and `uc_rchr`, and the substring search `uc_str`;
  - the `strtol`/`strtoul` clone `uc_tol_helper` and its wrappers;
  - the printf engine `uchar_format` writing into a string target, with `uc_snprintf` and `uc_vsnprintf`.
- **The UTF-16 copies of the C wide-string utilities** (`libs/crt/crtlib.h`), including the truncating `wcstombs`/`mbstowcs` converters and the reentrant `wcstok`.
- **The integer macros of the common header** (`include/e3d_macros.h`).

## Modelling conventions

- **Code units.** A `wchar_t`/`uchar` code unit is a `Unit` (0 to 0xFFFF). A byte is a `Byte` (0 to 0xFF).
- **Strings read through a pointer.** Such a string is the sequence of units from the pointer to the end of its memory.
  - `Terminated(s)` says that a NUL occurs in it. `Len` and `Text` are the C length and the text before that NUL.
  - `Readable(s, n)` says that the first `n` units, or the units up to a NUL, lie inside the memory.
- **Returned pointers** are `Option<nat>` indices, with `None` standing for NULL.
- **Buffers a function writes** are arrays, changed in place by methods that loop as the C code does.
- **`uchar_format`.** The engine is a class, `FormatTarget`, holding the output array and the `u.outp`, `remaining` and `written` fields.
  - Its methods are proved to append exactly the text that the pure specification `FormatSpec.Format` gives.
  - The variadic arguments are a sequence of tagged values (`FormatSpec.Arg`).
  - A missing argument, or an argument of the wrong kind, makes `Format` `None`. Callers must avoid that case, as C requires.
- **Platform-dependent sizes are parameters:**
  - `UcTol.LongWidth` is a 32- or 64-bit `long`.
  - `FormatSpec.Platform` gives the signedness of `char` and `sizeof(void*)`.
- **Macros.** A macro whose first step casts its operands to `_dword` or `_qword` takes them as `bv32` or `bv64`.

The modules are:

- `Chars`: units, code-point constants, `Option`.
- `UcString`: the read-only string functions and `uc_cpy`/`uc_ncpy`.
- `UcTol`: number parsing.
- `FormatSpec`: the specification of the formatter.
- `UcFormat` and `Printf`: the formatter's imperative model.
- `FormatProps`: properties of the formatted text.
- `CrtLib`: the wide-string utilities.
- `Macros`: the header macros.

## Model

| member | source | states |
|---|---|---|
| UcString.Len | libs/uchar/uchar.cpp:50-54 | `uc_len` is the index of the first NUL: that unit is NUL and none before it is |
| UcString.Cpy | libs/uchar/uchar.cpp:56-61 | after `uc_cpy` the destination holds the source up to and including its terminator; every later unit is unchanged |
| UcString.NCpyCount | libs/uchar/uchar.cpp:71-76 | `uc_ncpy` stores at most `n` units and no more than the source holds |
| UcString.NCpy | libs/uchar/uchar.cpp:71-76 | `uc_ncpy` copies exactly `NCpyCount` units: up to `n`, the NUL included when it comes first; nothing after them is written, so there is no NUL padding |
| UcString.Cmp | libs/uchar/uchar.cpp:78-85 | `uc_cmp` is 0 exactly when the two texts are equal, and negative exactly when the first sorts before the second unit by unit (a proper prefix first) |
| UcString.BelowTrichotomy | libs/uchar/uchar.cpp:78-85 | the order `uc_cmp` decides is total and antisymmetric: two texts are equal or exactly one sorts first |
| UcString.BelowIrreflexive | libs/uchar/uchar.cpp:78-85 | no text sorts before itself |
| UcString.NCmpMeaning | libs/uchar/uchar.cpp:87-95 | `uc_ncmp` compares as `uc_cmp` but only the first `n` units (or up to a terminator): 0 iff those prefixes are equal, negative iff the first sorts before |
| UcString.AsciiUpper | libs/uchar/uchar.cpp:49 | `ASCII_UPPER` maps `a`..`z` to `A`..`Z`, leaves every other unit alone, and yields NUL only for NUL |
| UcString.UpperAll | libs/uchar/uchar.cpp:49 | upper-casing a string keeps its length and applies `ASCII_UPPER` at every index |
| UcString.ICmpIsCmpOfUpper | libs/uchar/uchar.cpp:97-106 | `uc_icmp` equals `uc_cmp` of the two strings with ASCII letters upper-cased |
| UcString.ICmpZero | libs/uchar/uchar.cpp:97-106 | `uc_icmp` is 0 exactly when the upper-cased texts are equal |
| UcString.UpperText | libs/uchar/uchar.cpp:97-106 | the text of the upper-cased string is the upper-cased text |
| UcString.NICmpIsNCmpOfUpper | libs/uchar/uchar.cpp:108-118 | `uc_nicmp` equals `uc_ncmp` of the upper-cased strings, for the same `n` |
| UcString.FindUnit | libs/uchar/uchar.cpp:125-129 | the one-unit search finds the first index before the terminator holding the unit, and NULL when no such index exists |
| UcString.Chr | libs/uchar/uchar.cpp:123-154 | `uc_chr` as written: any result lies inside the text; for a value up to 0xFFFF it is the plain unit search |
| UcString.ChrFirstUnit | libs/uchar/uchar.cpp:125-129 | for a value up to 0xFFFF, `uc_chr` finds something exactly when the unit occurs in the text; it never finds the terminator |
| UcString.ChrPairsAsWritten | libs/uchar/uchar.cpp:131-153 | the surrogate scan as written skips junk surrogates, decodes pairs with the written expression, and returns a position inside the text |
| UcString.DecodeAsWrittenOfD840DC00 | libs/uchar/uchar.cpp:147 | the written decode maps the pair D840 DC00 to 0x10000 instead of 0x20000 |
| UcString.ChrAsWrittenMissesU20000 | libs/uchar/uchar.cpp:147 | `uc_chr` as written does not find U+20000 in its own UTF-16 encoding and finds U+10000 there instead; the corrected scan does the opposite |
| UcString.Decode | libs/uchar/uchar.cpp:147 | a surrogate pair decodes to a code point in 0x10000..0x10FFFF |
| UcString.EncodeOne | libs/uchar/uchar.cpp:131-153 | a scalar value encodes to one unit exactly when it fits in 16 bits and to two otherwise, never containing NUL |
| UcString.DecodeEncodeOne | libs/uchar/uchar.cpp:147 | the corrected decode inverts UTF-16 encoding: the two units of a supplementary code point are a lead and a trail that decode back to it |
| UcString.DecodeInjective | libs/uchar/uchar.cpp:147 | distinct supplementary code points decode to distinct values, so a search cannot match the wrong one |
| UcString.ChrDecoded | libs/uchar/uchar.cpp:131-153 | the corrected surrogate scan returns a position inside the text |
| UcString.ChrDecodedFindsFirst | libs/uchar/uchar.cpp:131-153 | in the encoding of a code point sequence, the corrected `uc_chr` finds a supplementary code point at the offset of its first occurrence, and NULL when it does not occur |
| UcString.ChrPairsFindsFirst | libs/uchar/uchar.cpp:131-153 | the corrected surrogate scan over an encoded code point sequence reports, code point by code point, the offset of the first match: the head when it matches, else the head's length plus the offset in the rest |
| UcString.ScanPastHead | libs/uchar/uchar.cpp:131-153 | a code point other than the one sought is stepped over whole (one unit or a pair), so the scan finds what it finds in the rest, moved by the head's length |
| UcString.RFindUnit | libs/uchar/uchar.cpp:1087-1091 | the backward unit search returns the last index before the end holding the unit, and NULL when no index does |
| UcString.RChr | libs/uchar/uchar.cpp:1083-1115 | `uc_rchr` as written returns a position inside the text |
| UcString.RChrLastUnit | libs/uchar/uchar.cpp:1087-1091 | for a value up to 0xFFFF, `uc_rchr` finds something exactly when the unit occurs in the text; it finds the last occurrence, and never the terminator |
| UcString.MatchFrom | libs/uchar/uchar.cpp:1024-1028 | the inner comparison loop succeeds exactly when the whole search text occurs at the position |
| UcString.StrFrom | libs/uchar/uchar.cpp:1023-1031 | the outer loop returns the first position at or after its start where the search text occurs, and NULL when it occurs nowhere |
| UcString.Str | libs/uchar/uchar.cpp:1018-1032 | `uc_str` returns 0 for an empty search text, and otherwise the first occurrence, or NULL when there is none |
| UcTol.SkipSpaces | libs/uchar/uchar.cpp:174 | leading ASCII white space is skipped up to the first unit that is not white space |
| UcTol.DigitValue | libs/uchar/uchar.cpp:215-223 | `0`-`9` are worth 0-9 and letters of either case 10-35; exactly those units have a value below 36 |
| UcTol.ScanPrefix | libs/uchar/uchar.cpp:173-205 | after the sign and prefix the base is the given one, or 8, 10 or 16 when the given base is 0 |
| UcTol.AutoBase | libs/uchar/uchar.cpp:193-205 | base 0 becomes 16 exactly after `0x`/`0X`, 8 exactly after any other leading `0`, and 10 otherwise |
| UcTol.ZeroXEnd | libs/uchar/uchar.cpp:185-205 | "0x" alone converts to 0 and ends after the `0` in base 16, but after the `x` in base 0 |
| UcTol.DigitsEnd | libs/uchar/uchar.cpp:214-242 | the digit loop stops at the first unit that is not a digit of the base |
| UcTol.Convert | libs/uchar/uchar.cpp:164-247 | the end pointer stays inside the text, and an illegal base converts nothing |
| UcTol.EndPastDigits | libs/uchar/uchar.cpp:229-230 | when a digit follows the prefix, `*endptr` lies just past the last consumed digit: everything in between is a digit and the unit there is not |
| UcTol.NoDigitsNoConversion | libs/uchar/uchar.cpp:168-205 | without a digit in the base in effect, nothing is converted and `*endptr` is the start of the string; in base 0 and base 16 this holds when the unit after the sign is not a `0` prefix |
| UcTol.CutoffExact | libs/uchar/uchar.cpp:211-212 | the cutoff test fires exactly when `number * base + digit` would exceed ULONG_MAX |
| UcTol.Outcome | libs/uchar/uchar.cpp:249-261 | the returned `unsigned long` is at most ULONG_MAX |
| UcTol.UnsignedOutcome | libs/uchar/uchar.cpp:233-261 | for `uc_toul`, ERANGE is set exactly on overflow; the result is then ULONG_MAX, and otherwise the signed magnitude modulo 2^w |
| UcTol.SignedOutcome | libs/uchar/uchar.cpp:249-261 | for `uc_tol`, ERANGE is set exactly when the value leaves [LONG_MIN, LONG_MAX], and the result is the value saturated to that range |
| UcTol.AsSigned | libs/uchar/uchar.cpp:268-270 | the `(long)` cast gives the value in range congruent to the `unsigned long` |
| UcTol.ToInt32 | libs/uchar/uchar.cpp:272-274 | the `(int)` cast gives the 32-bit value congruent to its argument, and the argument itself when that fits |
| UcTol.TolHelper | libs/uchar/uchar.cpp:164-262 | the loop returns the end pointer, result and ERANGE flag that `Convert` and `Outcome` specify |
| UcTol.ReadPrefix | libs/uchar/uchar.cpp:173-205 | the white space, sign and prefix steps compute `ScanPrefix` |
| UcTol.ReadBase | libs/uchar/uchar.cpp:185-205 | the `0`/`0x` steps after the sign compute `BasePrefix`: the base, where the digits start and where `fail_char` points |
| UcTol.BasePrefix | libs/uchar/uchar.cpp:185-205 | the prefix steps keep the sign, only move forward, keep a nonzero base and turn base 0 into 8, 10 or 16 |
| UcTol.ReadDigits | libs/uchar/uchar.cpp:211-242 | the digit loop yields the saturated value of the digit run, ERANGE exactly on overflow, the sign cleared for an unsigned overflow, and `fail_char` past the digits |
| UcTol.Toul | libs/uchar/uchar.cpp:264-266 | `uc_toul` saturates to ULONG_MAX on overflow with ERANGE, and otherwise returns the signed magnitude modulo 2^w |
| UcTol.Tol | libs/uchar/uchar.cpp:268-270 | `uc_tol` saturates to LONG_MIN/LONG_MAX with ERANGE exactly out of range, and otherwise returns the value |
| UcTol.Toi | libs/uchar/uchar.cpp:272-274 | `uc_toi` is the 32-bit truncation of the decimal `uc_tol`, and the parsed value itself when that fits in an `int` |
| FormatSpec.FlagStep | libs/uchar/uchar.cpp:433-446 | a flag character keeps flags consistent: `+` and a blank never hold together, nor `-` and `0` |
| FormatSpec.ParseFlags | libs/uchar/uchar.cpp:431-449 | the flag loop consumes exactly the flag characters and stops at the first other unit |
| FormatSpec.ParseNum | libs/uchar/uchar.cpp:461-474 | the width and precision loops consume exactly the decimal digits |
| FormatSpec.ParsePrec | libs/uchar/uchar.cpp:463-474 | without a `.` the precision is -1 and nothing is consumed; any precision is at least -1 |
| FormatSpec.ParseDirective | libs/uchar/uchar.cpp:431-495 | a directive ends just after its conversion unit (`fmt[next - 1] == conv`), which is not NUL, and consumes arguments in order |
| FormatSpec.DigitUnit | libs/uchar/uchar.cpp:681-684 | a digit unit reads back as its own value |
| FormatSpec.DigitsStep | libs/uchar/uchar.cpp:679-685 | the digit string is the digits of `v / radix` followed by the digit of `v % radix`, as the do-while loop builds it |
| FormatSpec.DigitsAreDigits | libs/uchar/uchar.cpp:679-685 | every unit of a digit string is a digit of its radix, and none is NUL |
| FormatSpec.SignText | libs/uchar/uchar.cpp:762-771 | one sign unit is printed exactly when the number is negative or `+` or a blank was given |
| FormatSpec.NullPrec | libs/uchar/uchar.cpp:534-535 | the count of `(null)` units printed is the precision when it is from 0 to 6, and 6 without a precision or above 6 |
| FormatProps.NullString | libs/uchar/uchar.cpp:509-535 | a NULL argument to `%s` or `%hs` prints, in the string field, the first `prec` units of `(null)` for a precision from 0 to 6 and all six otherwise, and consumes one argument |
| FormatProps.CharField | libs/uchar/uchar.cpp:497-501 | `%c` prints a field of `max(width, 1)` units holding the low 16 bits of its `int` argument, first under `-` and last otherwise, with pad units everywhere else |
| FormatSpec.Widen | libs/uchar/uchar.cpp:567-571 | a `%hs` byte below 0x80 widens to the same unit |
| FormatSpec.WidenAll | libs/uchar/uchar.cpp:567-571 | widening a byte string widens every byte and keeps the length |
| FormatSpec.IntArg | libs/uchar/uchar.cpp:586-634 | an integer argument is read exactly when it is present and of the kind the conversion and `ll` call for (`ArgFits`), as a magnitude below 2^64 |
| FormatSpec.Render | libs/uchar/uchar.cpp:495-893 | `%c`, `%s` and the integer conversions consume exactly the next argument, and any other directive that renders consumes none |
| FormatProps.ParseFlagsMeaning | libs/uchar/uchar.cpp:431-449 | after the flag run, `-`, `+` and `#` are set iff they occur; a blank is set iff it occurs and `+` does not; `0` is set iff it occurs and `-` does not |
| FormatProps.ParsedFlagsConsistent | libs/uchar/uchar.cpp:431-449 | parsed flags never hold `+` with a blank, nor `-` with `0` |
| FormatProps.ParseNumIsDecimal | libs/uchar/uchar.cpp:461-474 | a width or precision written in digits is their decimal value, read as `uc_tol_helper` reads base 10 |
| FormatProps.StarWidth | libs/uchar/uchar.cpp:451-457 | a `*` width reads the next `int`; a negative one turns on left alignment and gives its magnitude, with the other flags unchanged |
| FormatProps.StarPrecision | libs/uchar/uchar.cpp:463-468 | a `*` precision reads the next `int`, a negative one counting as 0 |
| FormatProps.UnknownConversionVerbatim | libs/uchar/uchar.cpp:889-893 | an unknown conversion unit, `%` included, is emitted as itself and reads no argument |
| FormatProps.PercentPercent | libs/uchar/uchar.cpp:889-893 | `%%` formats to a single `%` |
| FormatProps.DigitsValueIs | libs/uchar/uchar.cpp:677-699 | the digits printed for `v` are digits of the radix whose value is `v` |
| FormatProps.DigitsLead | libs/uchar/uchar.cpp:677-699 | the digits of a positive value do not start with `0` |
| FormatProps.DigitsReadBack | libs/uchar/uchar.cpp:677-699 | what `%u`, `%o` and `%x` print converts back to the same value through `uc_tol_helper`, consuming all the digits |
| FormatProps.StrFieldShape | libs/uchar/uchar.cpp:553-585 | a string field is `max(width, len)` long; the text sits on the left under `-` and on the right otherwise; left-aligned padding is blanks, and right-aligned padding is zeros exactly under `0` |
| FormatProps.NumberLayoutShape | libs/uchar/uchar.cpp:754-799 | a number field is the pad, sign, prefix, zeros and digits in sequence; right-aligned it ends with the digits, left-aligned it starts with the sign |
| FormatProps.FieldLayout | libs/uchar/uchar.cpp:728-736 | moving the pad into the zeros under `0` keeps the field at `max(width, content)` |
| FormatProps.IntFieldSize | libs/uchar/uchar.cpp:711-750 | an integer field is `max(width, sign + prefix + zeros + digits)` long, and the zeros and digits together are at least `prec` long |
| FormatProps.IntFieldEnds | libs/uchar/uchar.cpp:754-799 | right-aligned, an integer field ends with its digits; left-aligned, it starts with its sign |
| FormatProps.ZeroPrecisionZero | libs/uchar/uchar.cpp:669-689 | 0 printed with precision 0 by `%u`, `%x`, `%X`, or by `%d` without `+` or a blank, is only `width` blanks |
| FormatProps.OctalPrefix | libs/uchar/uchar.cpp:652-725 | `%#o` of a positive value, without a precision, `0` or `-`, prints blanks, one `0` and then its octal digits |
| FormatProps.OctalNoExtraZero | libs/uchar/uchar.cpp:722-725 | under `%o`, `#` changes nothing when precision zeros are due or the digits already start with `0` |
| FormatProps.OctalOneZero | libs/uchar/uchar.cpp:652-725 | otherwise `#` under `%o` prints the field of the digits with one more `0` in front, so `%#.0o` of zero prints `0` |
| FormatProps.HexPrefixFirst | libs/uchar/uchar.cpp:636-777 | `%#x` and `%#X` of a non-zero value keep the field's width and put `0x` or `0X`, in the conversion's case, right after the leading blanks, which only a right-aligned field without `0` padding has |
| FormatProps.HexZeroNoPrefix | libs/uchar/uchar.cpp:645-647 | `%#x` of 0 prints no `0x`: only zeros and blanks |
| FormatProps.NegativeStarWidthKeepsZero | libs/uchar/uchar.cpp:451-457 | `%0*d` with width -5 and 42 prints `00042`: a negative `*` width sets left alignment without cancelling `0`, so the number is zero-padded |
| UcFormat.FormatTarget.constructor | libs/uchar/uchar.cpp:914-918 | the string target starts at the buffer start with `remaining` = `maxlen` and nothing written |
| UcFormat.FormatTarget.Output | libs/uchar/uchar.cpp:353-375 | the output macro adds every unit to `written` but stores only as many as `remaining` allows, in order, and the rest of the buffer is unchanged |
| UcFormat.FormatTarget.Reserve | libs/uchar/uchar.cpp:389-396 | one unit of room is set aside for the terminator when there is room |
| UcFormat.FormatTarget.Finish | libs/uchar/uchar.cpp:898-906 | the NUL goes right after the stored units, and `written` excludes it |
| UcFormat.PadOut | libs/uchar/uchar.cpp:561-565 | a padding loop outputs `n` copies of the pad unit, none for `n <= 0` |
| UcFormat.StringLength | libs/uchar/uchar.cpp:537-546 | a `%s` argument's length is its full length without precision, and at most `prec` units otherwise |
| UcFormat.CommonString | libs/uchar/uchar.cpp:553-585 | `COMMON_STRING` outputs exactly the string field of `FormatSpec` |
| UcFormat.EmitText | libs/uchar/uchar.cpp:567-577 | the text loop outputs the first `prec` units, widening bytes under `h` |
| UcFormat.Fits64 | libs/uchar/uchar.cpp:665-666 | a 64-bit value has at most 22 digits in radix 8 or more, so `numbuf[64]` is large enough |
| UcFormat.FillDigits | libs/uchar/uchar.cpp:677-699 | the do-while loops leave the radix digits of `v` right before the buffer's NUL |
| UcFormat.StoreNumber | libs/uchar/uchar.cpp:666-725 | the number buffer holds the digits with the extra octal `0` when it applies, and the zero count is what the precision asks for |
| UcFormat.IntLayout | libs/uchar/uchar.cpp:711-736 | an explicit precision cancels `0`; the sign is unaffected; the pad and zeros computed give exactly the integer field of `FormatSpec` |
| UcFormat.EmitSign | libs/uchar/uchar.cpp:761-777 | the sign (`-`, `+` or a blank) and then the `0x`/`0X` prefix are output |
| UcFormat.EmitDigits | libs/uchar/uchar.cpp:787-791 | the digits are output from the buffer up to its NUL |
| UcFormat.EmitZerosDigits | libs/uchar/uchar.cpp:779-799 | the zeros, the digits and the right padding are output in that order |
| UcFormat.EmitNumber | libs/uchar/uchar.cpp:754-799 | the pad, sign, prefix, zeros, digits and right pad are output as `NumberLayout` orders them |
| UcFormat.CommonInt | libs/uchar/uchar.cpp:664-801 | `COMMON_INT` outputs exactly the integer field of `FormatSpec` |
| Printf.ReadFlags | libs/uchar/uchar.cpp:431-449 | the flag loop computes `ParseFlags` |
| Printf.ReadNumber | libs/uchar/uchar.cpp:461-474 | the digit loop computes `ParseNum` |
| Printf.ReadWidth | libs/uchar/uchar.cpp:451-462 | the width code computes `ParseWidth` |
| Printf.ReadPrec | libs/uchar/uchar.cpp:463-474 | the precision code computes `ParsePrec` |
| Printf.ReadLength | libs/uchar/uchar.cpp:476-492 | the modifier switch computes `ParseLength` |
| Printf.ReadDirective | libs/uchar/uchar.cpp:431-495 | the directive parsing computes `ParseDirective` |
| Printf.WideString | libs/uchar/uchar.cpp:527-585 | a `%s` of a wide string (NULL printing `(null)`) outputs its string field |
| Printf.NarrowString | libs/uchar/uchar.cpp:504-585 | a `%hs` of a narrow string (NULL printing `(null)`) outputs its widened string field |
| Printf.NullWidens | libs/uchar/uchar.cpp:334-336 | the narrow `(null)` widens to the wide one |
| Printf.ReadInt | libs/uchar/uchar.cpp:586-634 | the `va_arg` reads give `IntArg` |
| Printf.IntConv | libs/uchar/uchar.cpp:586-662 | each integer conversion outputs exactly `IntConversion` |
| Printf.Convert | libs/uchar/uchar.cpp:495-893 | the conversion switch outputs exactly `Render` and returns the next argument index |
| Printf.LiteralText | libs/uchar/uchar.cpp:399-416 | a run without `%` is copied as it is before the rest of the format |
| Printf.CopyLiteral | libs/uchar/uchar.cpp:399-416 | the copy-through loop outputs the literal run and stops at `%` or NUL |
| Printf.DoDirective | libs/uchar/uchar.cpp:418-893 | one directive outputs its text, keeping the rest of the output equal to `FormatFrom` |
| Printf.UcharFormat | libs/uchar/uchar.cpp:377-908 | `uchar_format` returns the full length of the formatted text. With room it stores the first `min(n, remaining-1)` units plus a NUL and leaves the rest of the buffer alone; with no room it stores nothing |
| Printf.UcVsnprintf | libs/uchar/uchar.cpp:928-939 | at most `maxlen` units are stored, NUL-terminated when `maxlen > 0`, and the return value is the full would-be length |
| Printf.UcSnprintf | libs/uchar/uchar.cpp:910-926 | the same contract as `uc_vsnprintf` |
| CrtLib.LenIs | libs/crt/crtlib.h:13-20 | the index of the first NUL is the length |
| CrtLib.WcsLen | libs/crt/crtlib.h:13-20 | `wcslen_utf16` returns the index of the first NUL, which is `uc_len` |
| CrtLib.WcsCpy | libs/crt/crtlib.h:22-30 | `s1` holds `s2` through its terminator with the rest unchanged, so `s1`'s text is `s2`'s |
| CrtLib.CopyAt | libs/crt/crtlib.h:22-30 | the copy loop writes `s2` with its NUL at the given offset and nothing else |
| CrtLib.WcsNCpy | libs/crt/crtlib.h:32-50 | exactly `len` units are written: the source up to its NUL or `len`, then NULs; with `len` or more source units no terminator is written; the rest is unchanged |
| CrtLib.WcsChr | libs/crt/crtlib.h:52-60 | `wcschr_utf16` returns the first position of `c` up to and including the terminator: the terminator's position for NUL, and the `uc_chr` one-unit search otherwise |
| CrtLib.WcsRChr | libs/crt/crtlib.h:62-72 | `wcsrchr_utf16` returns the last position of `c` up to and including the terminator: the terminator's position for NUL, and the `uc_rchr` one-unit search otherwise |
| CrtLib.WcsCat | libs/crt/crtlib.h:74-84 | `s1` becomes its old text, then `s2` with its NUL, then the old units after; its text is the concatenation |
| CrtLib.CatText | libs/crt/crtlib.h:74-84 | a prefix followed by a terminated string has the concatenated text |
| CrtLib.WcsNCat | libs/crt/crtlib.h:132-151 | at most `n` units of `s2` are appended, followed by a NUL that is always written; the text becomes the old text plus those units |
| CrtLib.WcsCmp | libs/crt/crtlib.h:119-130 | `wcscmp_utf16` (0 for identical pointers) is `uc_cmp`: 0 exactly for equal texts, otherwise the difference of the first differing units |
| CrtLib.CmpStep | libs/crt/crtlib.h:124-127 | dropping an equal leading unit leaves the comparison unchanged |
| CrtLib.Narrow | libs/crt/crtlib.h:100 | narrowing keeps the length and takes the low byte of every unit |
| CrtLib.WcsToMbs | libs/crt/crtlib.h:86-106 | with `n == 0` nothing is written and the source length is returned. Otherwise the low bytes are stored up to `n`, stopping after the first zero byte, and the count before that byte is returned |
| CrtLib.StoreLowBytes | libs/crt/crtlib.h:96-105 | the counting-down loop stores the low bytes up to and including the first zero byte, within `n`, and returns the count before it |
| CrtLib.MbsToWcs | libs/crt/crtlib.h:108-117 | the bytes are widened and stored up to and including the first NUL, within `n`. The return is the count before the NUL, or `n + 1` when no NUL occurs in the first `n` bytes |
| CrtLib.NarrowWiden | libs/crt/crtlib.h:100-112 | narrowing what `mbstowcs_utf16` widens gives back the bytes |
| CrtLib.WidenNarrow | libs/crt/crtlib.h:100-112 | widening the low byte gives the unit back exactly for units below 0x100 with unsigned `char`, and below 0x80 or from 0xFF80 up with signed `char` |
| CrtLib.SkipDelims | libs/crt/crtlib.h:165-170 | the span loop stops at the first unit that is not a delimiter |
| CrtLib.TokenEnd | libs/crt/crtlib.h:182-195 | the scan loop stops at the first delimiter or NUL |
| CrtLib.TokStepFinds | libs/crt/crtlib.h:159-176 | no token exists exactly when only delimiters remain; then `*last` becomes NULL and nothing is written. Otherwise the token starts at the first non-delimiter |
| CrtLib.TokLen | libs/crt/crtlib.h:182-195 | the token as returned ends at the first delimiter or NUL after its start |
| CrtLib.TokStepCuts | libs/crt/crtlib.h:182-195 | the token is non-empty, terminated and free of delimiters; only the delimiter ending it is overwritten (with NUL); `*last` points just past it |
| CrtLib.WcsTok | libs/crt/crtlib.h:153-198 | `wcstok_utf16` returns NULL with `*last` untouched when both pointers are NULL, and otherwise does exactly the step `TokStep` specifies from `s`, or from `*last` when `s` is NULL |
| CrtLib.SkipSpan | libs/crt/crtlib.h:165-170 | the span loop computes `SkipDelims` |
| CrtLib.ScanToken | libs/crt/crtlib.h:182-195 | the scan loop computes `TokenEnd` |
| CrtLib.Spans | libs/crt/crtlib.h:167-170 | the inner span loop tells whether the unit is a delimiter |
| CrtLib.Stops | libs/crt/crtlib.h:184-194 | the inner scan loop stops exactly at a delimiter or NUL |
| Macros.WordRoundTrip | include/e3d_macros.h:273-281 | `E3D_LOBYTE`/`E3D_HIBYTE` recover the masked bytes packed by `E3D_MAKEWORD`, and every word is the one packed from its own bytes |
| Macros.DwordRoundTrip | include/e3d_macros.h:274-279 | `E3D_LOWORD`/`E3D_HIWORD` recover the masked halves packed by `E3D_MAKEDWORD`, and every dword is packed from its halves |
| Macros.QwordRoundTrip | include/e3d_macros.h:275-277 | `E3D_LODWORD`/`E3D_HIDWORD` recover the masked dwords packed by `E3D_MAKEQWORD`, and every qword is packed from its dwords |
| Macros.PackIdBytes | include/e3d_macros.h:284 | `E3D_PACK_ID` of four bytes puts `a` in byte 0 up to `d` in byte 3, and every dword is the ID of its own four bytes |
| Macros.PackDwordRoundTrip | include/e3d_macros.h:286-289 | the unpack macros invert `E3D_PACK_DWORD` on 16-bit halves, and packing the unpacked halves gives any dword back |
| Macros.PackDwordOverlaps | include/e3d_macros.h:286 | a `y` wider than 16 bits is not masked and spills into `x`'s half |
| Macros.AlignUp32Bounds | include/e3d_macros.h:340 | up to 0xFFFFFFFC, `E3D_ALIGN_UP32(x)` is a multiple of 4 in `[x, x+3]` |
| Macros.AlignUp32Aligned | include/e3d_macros.h:340 | an aligned value is left as it is |
| Macros.AlignUp32Wraps | include/e3d_macros.h:340 | above 0xFFFFFFFC the 32-bit addition wraps and the result is 0 |
| Macros.R5G6B5Fields | include/e3d_macros.h:343 | the colour fits in 16 bits with red's top 5 bits at 11, green's top 6 at 5 and blue's top 5 at 0 |
| Macros.R5G5B5A1Fields | include/e3d_macros.h:344 | the colour fits in 16 bits with the top 5 bits of red at 11, green at 6 and blue at 1 |
| Macros.R5G5B5A1Alpha | include/e3d_macros.h:344 | bit 0 is set exactly for a non-zero alpha |
| Macros.R4G4B4A4Fields | include/e3d_macros.h:345 | the colour fits in 16 bits with the top 4 bits of red at 12, green at 8, blue at 4 and alpha at 0 |
| Macros.A8G8Fields | include/e3d_macros.h:346 | the value fits in 16 bits with alpha's low byte on top |
| Macros.A8G8Mean | include/e3d_macros.h:346 | for byte channels the low byte is their mean, rounded down |
| Macros.ValueToTimeExact | include/e3d_macros.h:360-364 | `tv_usec` is below one second in whole milliseconds, and `tv_sec * 1000 + tv_usec / 1000` is the original milliseconds |
| Macros.SecondsRoundDown | include/e3d_macros.h:369-370 | `E3D_SEC_TO_MS(E3D_MS_TO_SEC(ms))` is the greatest multiple of 1000 at or below `ms` |
| Macros.Min | include/e3d_macros.h:155 | `MIN` is one of its arguments and at most both |
| Macros.Max | include/e3d_macros.h:151 | `MAX` is one of its arguments and at least both |
| Macros.ClampAsWritten | include/e3d_macros.h:159 | `CLAMP` as written gives `a` below `a`, `v` itself above `b`, and `b` for every value in between |
| Macros.ClampAsWrittenEscapes | include/e3d_macros.h:159 | `CLAMP(15, 0, 10)` is 15 and `CLAMP(5, 0, 10)` is 10 |
| Macros.Clamp | include/e3d_macros.h:159 | the intended clamp stays in `[a, b]`, is `v` inside the range, and the nearer bound outside it |
| Macros.ClampIdempotent | include/e3d_macros.h:159 | clamping twice is clamping once |
| Macros.SizeMultipliers | include/e3d_macros.h:231-233 | `n KB`, `n MB` and `n GB` are `n` times 1024, 1024² and 1024³ modulo 2^64, and exact for `n` below 2^34 |
| Macros.HeaderEnd | include/e3d_macros.h:186-189 | `SKIP_UTF_CODE` moves the pointer by at most 3 bytes, staying inside the memory |
| Macros.HeaderEndSkips | include/e3d_macros.h:180-189 | the skipped bytes are mark bytes, each at most once and in mark order; a whole mark is skipped, and a text not starting with a mark byte is left alone |
| Macros.SkipUtfCode | include/e3d_macros.h:180-189 | the three steps advance the pointer as `HeaderEnd` says and decrease `size` once per skipped byte |
| Macros.SkipUtfCodeWithoutSize | include/e3d_macros.h:190-196 | the variant with the internal size 3 advances the same way and never trips the size assertion |

## Left out

- Floating-point conversions (`%f`, `%e`, `%E`, `%g`, `%G`) and `uc_tod`/`uc_tof` hand floats to the C library. A float directive makes `FormatSpec.Format` `None`.
- The FILE targets (`uc_printf`, `uc_fprintf`, `uc_vprintf`, `uc_vfprintf`) and the `fputc` branch of the output macro are stdio I/O. The unbounded `UCFT_INFINITE` string path is never used by a string entry point. Only the bounded string target is modelled.
- `uc_lwr`, `uc_upr` and `uc_istr` use the locale-dependent `towlower`/`towupper`. `uc_dup` uses `malloc`. None of them is part of this model.
- The MSVC build maps the names to the C runtime instead. The model follows the hand-rolled code.
- `errno` is modelled as the `erange` result of `UcTol.TolHelper`, `UcTol.Toul` and `UcTol.Tol`.
- Undefined behaviour of `uchar_format` is excluded by requiring `FormatSpec.Format` to be `Some`. This covers:
  - a missing argument, or one of the wrong kind;
  - a `%` that ends the format;
  - `%hc`, which reads an uninitialised narrow pointer.
- Printf.UcharFormat: the count is unbounded. The C function returns it as a 32-bit `int`, and its `int` width and precision can overflow on more than 9 digits.
- `wchar_t` is taken to be 16 bits wide, as the `_utf16` names intend.
- Source strings are values (`seq`). A call whose source overlaps its destination, which C leaves undefined, is therefore not modelled.
- CrtLib.WcsToMbs: `n` is copied into an `int`, which the model does not truncate for `n` above `INT_MAX`.
- CrtLib.MbsToWcs: the same `int` copy of `n` is not truncated for `n` above `INT_MAX`.
- CrtLib.WcsNCat: requires `s2` to be readable one unit past `n` units. The loop tests `*r` before `n`, so it reads `s2[n]` whenever the first `n` units hold no NUL.
- CrtLib.WcsCmp: pointer identity is the `samePointer` parameter, which implies equal contents.
- UcString.RChr: the surrogate path is modelled as written only. It shares the decode expression of `uc_chr` (line 1108), and the corrected decode is given for `uc_chr` only (`UcString.ChrDecoded`). The path also tests `!*s` (line 1103). `*s` is the string's first unit, which is not NUL whenever the loop runs, so that test never takes effect; it is kept as written.
- Macros.PackId: the operands are taken as unsigned 32-bit values. In C the shifts are on `int`, and `d << 24` with `d` at 0x80 or above overflows a signed `int`.
- Macros.A8G8: the channel sum is taken modulo 2^32, as an unsigned sum.
- Macros.ValueToTime: the milliseconds are taken as non-negative. C would truncate a negative value toward zero.
- Macros.SecToMs: does not model the wrap-around of the `unsigned long` product, nor the conversion to `_time_t`, for more than 2^64/1000 seconds.
- Macros.SkipUtfCode: `E3D_ASSERT(size != 0)` before each skip becomes a precondition. In a release build, 0 would wrap around instead.
- Other parts of the header are not part of this model: the atomics, the crash and assert macros, the float macros and the pointer-range macros.

## Findings

| source | as written | input that shows it | evidently intended | confidence | as-written member | corrected member |
|---|---|---|---|---|---|---|
| include/e3d_macros.h:159 | `CLAMP(v, a, b)` returns `v` when `v > b`, and `b` for every `v` in `[a, b]` | `CLAMP(15, 0, 10)` is 15; `CLAMP(5, 0, 10)` is 10 | `v` limited to `[a, b]` | not executed | Macros.ClampAsWrittenEscapes | Macros.Clamp |
| libs/uchar/uchar.cpp:147 | a surrogate pair is decoded as `(hi & 0x3FF) << 10 \| (lo & 0x3FF) + 0x10000`; `+` binds tighter than `\|` | `uc_chr` on D840 DC00 (U+20000) does not find U+20000, and finds U+10000 | the decoding of section 2.2 of RFC 2781: `((hi & 0x3FF) << 10) + (lo & 0x3FF) + 0x10000` | not executed | UcString.ChrAsWrittenMissesU20000 | UcString.ChrDecoded |
