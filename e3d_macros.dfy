/** The integer macros of the engine's common header: word, dword and
    qword packing and unpacking, four-byte identifiers, 32-bit alignment,
    16-bit colour packing, millisecond and second conversions, the
    minimum, maximum and clamp, the size multipliers and the skipping of
    a UTF-8 byte-order mark.

    A macro whose first step casts its operands to `_dword` or `_qword`
    takes them here as `bv32` or `bv64`, the values after the cast; the
    other operations wrap exactly as unsigned C arithmetic does. */
module Macros {

  /** `E3D_MAKEWORD`: the low byte of `a` below the low byte of `b`. */
  function MakeWord(a: bv32, b: bv32): bv16 {
    (a & 0xff) as bv16 | ((b & 0xff) as bv16 << 8)
  }

  /** `E3D_MAKEDWORD`: the low half of `a` below the low half of `b`. */
  function MakeDword(a: bv32, b: bv32): bv32 {
    (a & 0xffff) | ((b & 0xffff) << 16)
  }

  /** `E3D_MAKEQWORD`: the low dword of `a` below the low dword of `b`. */
  function MakeQword(a: bv64, b: bv64): bv64 {
    (a & 0xffffffff) | ((b & 0xffffffff) << 32)
  }

  function LoDword(l: bv64): bv32 {
    (l & 0xffffffff) as bv32
  }

  function HiDword(l: bv64): bv32 {
    ((l >> 32) & 0xffffffff) as bv32
  }

  function LoWord(l: bv32): bv16 {
    (l & 0xffff) as bv16
  }

  function HiWord(l: bv32): bv16 {
    ((l >> 16) & 0xffff) as bv16
  }

  function LoByte(w: bv32): bv8 {
    (w & 0xff) as bv8
  }

  function HiByte(w: bv32): bv8 {
    ((w >> 8) & 0xff) as bv8
  }

  /** `E3D_LOBYTE` and `E3D_HIBYTE` recover the two bytes `E3D_MAKEWORD`
      packed, and a word is the one packed from its own two bytes. */
  lemma WordRoundTrip(a: bv32, b: bv32, w: bv16)
    ensures LoByte(MakeWord(a, b) as bv32) == (a & 0xff) as bv8
    ensures HiByte(MakeWord(a, b) as bv32) == (b & 0xff) as bv8
    ensures MakeWord(LoByte(w as bv32) as bv32, HiByte(w as bv32) as bv32) == w
  {
  }

  /** `E3D_LOWORD` and `E3D_HIWORD` recover the two halves
      `E3D_MAKEDWORD` packed, and every dword is packed from its halves. */
  lemma DwordRoundTrip(a: bv32, b: bv32, l: bv32)
    ensures LoWord(MakeDword(a, b)) == (a & 0xffff) as bv16
    ensures HiWord(MakeDword(a, b)) == (b & 0xffff) as bv16
    ensures MakeDword(LoWord(l) as bv32, HiWord(l) as bv32) == l
  {
  }

  /** `E3D_LODWORD` and `E3D_HIDWORD` recover the two dwords
      `E3D_MAKEQWORD` packed, and every qword is packed from its dwords. */
  lemma QwordRoundTrip(a: bv64, b: bv64, l: bv64)
    ensures LoDword(MakeQword(a, b)) == (a & 0xffffffff) as bv32
    ensures HiDword(MakeQword(a, b)) == (b & 0xffffffff) as bv32
    ensures MakeQword(LoDword(l) as bv64, HiDword(l) as bv64) == l
  {
  }

  /** `E3D_PACK_ID`: `a` in the lowest byte up to `d` in the highest. */
  function PackId(a: bv32, b: bv32, c: bv32, d: bv32): bv32 {
    (d << 24) | (c << 16) | (b << 8) | a
  }

  /** Four bytes land in bytes 0 to 3 of the identifier, in argument
      order, and every dword is the identifier of its own four bytes. */
  lemma PackIdBytes(a: bv32, b: bv32, c: bv32, d: bv32, v: bv32)
    requires a < 0x100 && b < 0x100 && c < 0x100 && d < 0x100
    ensures PackId(a, b, c, d) & 0xff == a
    ensures (PackId(a, b, c, d) >> 8) & 0xff == b
    ensures (PackId(a, b, c, d) >> 16) & 0xff == c
    ensures PackId(a, b, c, d) >> 24 == d
    ensures PackId(v & 0xff, (v >> 8) & 0xff, (v >> 16) & 0xff, v >> 24) == v
  {
  }

  /** `E3D_PACK_DWORD`: `x` in the high half over `y`. */
  function PackDword(x: bv32, y: bv32): bv32 {
    (x << 16) | y
  }

  function UnpackX(v: bv32): bv32 {
    (v >> 16) & 0x0000FFFF
  }

  function UnpackY(v: bv32): bv32 {
    v & 0x0000FFFF
  }

  /** The unpack macros invert `E3D_PACK_DWORD` on 16-bit halves, and
      packing what they unpack gives back any dword. */
  lemma PackDwordRoundTrip(x: bv32, y: bv32, v: bv32)
    requires x < 0x10000 && y < 0x10000
    ensures UnpackX(PackDword(x, y)) == x && UnpackY(PackDword(x, y)) == y
    ensures PackDword(UnpackX(v), UnpackY(v)) == v
  {
  }

  /** A wider `y` is not masked: its high half is OR-ed into `x`'s. */
  lemma PackDwordOverlaps()
    ensures UnpackX(PackDword(1, 0x20000)) == 3
  {
  }

  /** `E3D_ALIGN_UP32`: add 3 and clear the two low bits, in 32 bits. */
  function AlignUp32(x: bv32): bv32 {
    (x + 3) & 0xFFFFFFFC
  }

  /** Up to 0xFFFFFFFC the result is the least multiple of 4 at or
      above `x`. */
  lemma AlignUp32Bounds(x: bv32)
    requires x <= 0xFFFFFFFC
    ensures AlignUp32(x) & 3 == 0
    ensures x <= AlignUp32(x) && AlignUp32(x) - x <= 3
  {
  }

  /** An aligned value is its own alignment. */
  lemma AlignUp32Aligned(x: bv32)
    requires x & 3 == 0
    ensures AlignUp32(x) == x
  {
  }

  /** Above 0xFFFFFFFC the addition wraps and the result is 0. */
  lemma AlignUp32Wraps(x: bv32)
    requires x > 0xFFFFFFFC
    ensures AlignUp32(x) == 0
  {
  }

  /** `E3D_R5G6B5`: red's top 5 bits, green's top 6, blue's top 5. */
  function R5G6B5(r: bv32, g: bv32, b: bv32): bv32 {
    (((r >> 3) & 0x1F) << 11) | (((g >> 2) & 0x3F) << 5) | ((b >> 3) & 0x1F)
  }

  /** `E3D_R5G5B5A1`: 5 bits per colour over a 1-bit alpha, set for any
      non-zero `a`. */
  function R5G5B5A1(a: bv32, r: bv32, g: bv32, b: bv32): bv32 {
    (((r >> 3) & 0x1F) << 11) | (((g >> 3) & 0x1F) << 6) | (((b >> 3) & 0x1F) << 1) | (if a != 0 then 1 else 0)
  }

  /** `E3D_R4G4B4A4`: the top 4 bits of each channel, alpha lowest. */
  function R4G4B4A4(a: bv32, r: bv32, g: bv32, b: bv32): bv32 {
    (((r >> 4) & 0x0F) << 12) | (((g >> 4) & 0x0F) << 8) | (((b >> 4) & 0x0F) << 4) | ((a >> 4) & 0x0F)
  }

  /** `E3D_A8G8`: alpha's low byte over the low byte of the channels'
      mean. */
  function A8G8(a: bv32, r: bv32, g: bv32, b: bv32): bv32 {
    ((a & 0xFF) << 8) | (((r + g + b) / 3) & 0xFF)
  }

  /** Every colour fits in 16 bits and each field holds the truncated
      channel at its offset. */
  lemma R5G6B5Fields(r: bv32, g: bv32, b: bv32)
    ensures R5G6B5(r, g, b) < 0x10000
    ensures R5G6B5(r, g, b) >> 11 == (r >> 3) & 0x1F
    ensures (R5G6B5(r, g, b) >> 5) & 0x3F == (g >> 2) & 0x3F
    ensures R5G6B5(r, g, b) & 0x1F == (b >> 3) & 0x1F
  {
  }

  lemma R5G5B5A1Fields(a: bv32, r: bv32, g: bv32, b: bv32)
    ensures R5G5B5A1(a, r, g, b) < 0x10000
    ensures R5G5B5A1(a, r, g, b) >> 11 == (r >> 3) & 0x1F
    ensures (R5G5B5A1(a, r, g, b) >> 6) & 0x1F == (g >> 3) & 0x1F
    ensures (R5G5B5A1(a, r, g, b) >> 1) & 0x1F == (b >> 3) & 0x1F
  {
    var bit: bv32 := if a != 0 then 1 else 0;
    ColourFields5551((r >> 3) & 0x1F, (g >> 3) & 0x1F, (b >> 3) & 0x1F, bit);
  }

  lemma ColourFields5551(r5: bv32, g5: bv32, b5: bv32, bit: bv32)
    requires r5 < 0x20 && g5 < 0x20 && b5 < 0x20 && bit < 2
    ensures var w := (r5 << 11) | (g5 << 6) | (b5 << 1) | bit;
      w < 0x10000 && w >> 11 == r5 && (w >> 6) & 0x1F == g5 && (w >> 1) & 0x1F == b5
  {
  }

  /** The lowest bit of `E3D_R5G5B5A1` is set exactly for a non-zero
      alpha. */
  lemma R5G5B5A1Alpha(a: bv32, r: bv32, g: bv32, b: bv32)
    ensures R5G5B5A1(a, r, g, b) & 1 == 1 <==> a != 0
  {
  }

  lemma R4G4B4A4Fields(a: bv32, r: bv32, g: bv32, b: bv32)
    ensures R4G4B4A4(a, r, g, b) < 0x10000
    ensures R4G4B4A4(a, r, g, b) >> 12 == (r >> 4) & 0x0F
    ensures (R4G4B4A4(a, r, g, b) >> 8) & 0x0F == (g >> 4) & 0x0F
    ensures (R4G4B4A4(a, r, g, b) >> 4) & 0x0F == (b >> 4) & 0x0F
    ensures R4G4B4A4(a, r, g, b) & 0x0F == (a >> 4) & 0x0F
  {
  }

  lemma A8G8Fields(a: bv32, r: bv32, g: bv32, b: bv32)
    ensures A8G8(a, r, g, b) < 0x10000
    ensures A8G8(a, r, g, b) >> 8 == a & 0xFF
  {
  }

  /** For byte channels the low byte is their mean, rounded down. */
  lemma A8G8Mean(a: bv32, r: bv32, g: bv32, b: bv32)
    requires r < 0x100 && g < 0x100 && b < 0x100
    ensures A8G8(a, r, g, b) & 0xFF == (r + g + b) / 3
  {
    assert (r + g + b) / 3 < 0x100;
  }

  /** A `timeval`: seconds and microseconds. */
  datatype TimeVal = TimeVal(sec: nat, usec: nat)

  /** `E3D_VALUE_TO_TIME`: a count of milliseconds as a `timeval`. */
  function ValueToTime(time: nat): (tv: TimeVal) {
    TimeVal(time / 1000, (time % 1000) * 1000)
  }

  /** The microseconds stay below a second, in whole milliseconds, and
      the two fields give back the milliseconds. */
  lemma ValueToTimeExact(time: nat)
    ensures ValueToTime(time).usec < 1000000 && ValueToTime(time).usec % 1000 == 0
    ensures ValueToTime(time).sec * 1000 + ValueToTime(time).usec / 1000 == time
  {
    var q, m := time / 1000, time % 1000;
    assert time == q * 1000 + m;
    assert (m * 1000) / 1000 == m;
    assert (m * 1000) % 1000 == 0;
  }

  /** `E3D_MS_TO_SEC`: whole seconds, rounded down. */
  function MsToSec(ms: nat): nat {
    ms / 1000
  }

  /** `E3D_SEC_TO_MS`. */
  function SecToMs(s: nat): nat {
    s * 1000
  }

  /** A round trip through seconds gives the greatest multiple of 1000
      at or below `ms`. */
  lemma SecondsRoundDown(ms: nat)
    ensures SecToMs(MsToSec(ms)) % 1000 == 0
    ensures SecToMs(MsToSec(ms)) <= ms < SecToMs(MsToSec(ms)) + 1000
  {
    var q := ms / 1000;
    assert ms == q * 1000 + ms % 1000;
  }

  /** `MIN`. */
  function Min(a: int, b: int): (r: int)
    ensures r <= a && r <= b && (r == a || r == b)
  {
    if a < b then a else b
  }

  /** `MAX`. */
  function Max(a: int, b: int): (r: int)
    ensures r >= a && r >= b && (r == a || r == b)
  {
    if a > b then a else b
  }

  /** `CLAMP` as written: below `a` gives `a`, but above `b` gives `v`
      itself and everything in between gives `b`, the two last branches
      being swapped. */
  function ClampAsWritten(v: int, a: int, b: int): (r: int)
    ensures v < a ==> r == a
    ensures v >= a && v > b ==> r == v
    ensures a <= v <= b ==> r == b
  {
    if v < a then a else if v > b then v else b
  }

  /** The written `CLAMP` lets a value above the range through and moves
      a value inside it to the upper bound. */
  lemma ClampAsWrittenEscapes()
    ensures ClampAsWritten(15, 0, 10) == 15
    ensures ClampAsWritten(5, 0, 10) == 10
  {
  }

  /** `CLAMP` as its name and use intend: `v` limited to `[a, b]`. */
  function Clamp(v: int, a: int, b: int): (r: int)
    requires a <= b
    ensures a <= r <= b
    ensures a <= v <= b ==> r == v
    ensures v < a ==> r == a
    ensures v > b ==> r == b
  {
    if v < a then a else if v > b then b else v
  }

  /** Clamping twice changes nothing more. */
  lemma ClampIdempotent(v: int, a: int, b: int)
    requires a <= b
    ensures Clamp(Clamp(v, a, b), a, b) == Clamp(v, a, b)
  {
  }

  const QwordModulus: nat := 0x1_0000_0000_0000_0000

  /** `n KB`: `n * 1024ull`, in 64-bit unsigned arithmetic. */
  function Kb(n: int): nat {
    (n % QwordModulus) * 1024 % QwordModulus
  }

  /** `n MB`, which expands to `n * 1024ull * 1024ull`. */
  function Mb(n: int): nat {
    Kb(n) * 1024 % QwordModulus
  }

  /** `n GB`, which expands to `n * 1024ull * 1024ull * 1024ull`. */
  function Gb(n: int): nat {
    Mb(n) * 1024 % QwordModulus
  }

  /** Multiplying step by step modulo 2^64 is multiplying once. */
  lemma MulMod(x: int, k: nat, m: nat)
    requires m > 0
    ensures (x % m) * k % m == x * k % m
  {
    var q := x / m;
    assert x == q * m + x % m;
    assert x * k == (q * k) * m + (x % m) * k;
    ModShift((x % m) * k, q * k, m);
  }

  /** Numbers a multiple of `m` apart leave the same remainder. */
  lemma ModShift(y: int, j: int, m: nat)
    requires m > 0
    ensures (j * m + y) % m == y % m
  {
    var a := j * m + y;
    var d := j + y / m - a / m;
    assert a == (a / m) * m + a % m;
    assert y == (y / m) * m + y % m;
    assert a % m - y % m == d * m;
    SmallMultiple(d, m);
  }

  /** The only multiple of `m` strictly between `-m` and `m` is 0. */
  lemma SmallMultiple(d: int, m: int)
    requires m > 0 && -m < d * m < m
    ensures d == 0
  {
  }

  /** The multipliers are powers of 1024 modulo 2^64, hence exact below
      2^64 bytes. */
  lemma SizeMultipliers(n: int)
    ensures Kb(n) == n * 1024 % QwordModulus
    ensures Mb(n) == n * 0x10_0000 % QwordModulus
    ensures Gb(n) == n * 0x4000_0000 % QwordModulus
    ensures 0 <= n < 0x4_0000_0000 ==> Gb(n) == n * 0x4000_0000
  {
    MulMod(n, 1024, QwordModulus);
    MulMod(n * 1024, 1024, QwordModulus);
    assert n * 1024 * 1024 == n * 0x10_0000;
    MulMod(n * 0x10_0000, 1024, QwordModulus);
    assert n * 0x10_0000 * 1024 == n * 0x4000_0000;
  }

  // The three bytes of the UTF-8 byte-order mark.
  const Utf8Header0: bv8 := 0xEF
  const Utf8Header1: bv8 := 0xBB
  const Utf8Header2: bv8 := 0xBF

  /** The bytes read from `pos` are there: at least three of them, or a
      NUL that stops the matching. */
  predicate HeaderReadable(s: seq<bv8>, pos: nat) {
    pos + 3 <= |s| || exists k :: pos <= k < |s| && s[k] == 0
  }

  /** One `SKIP_UTF_CODE_BY_INDEX`: past `marker` when the current byte
      is it. */
  function SkipByte(s: seq<bv8>, p: nat, marker: bv8): nat
    requires p < |s|
  {
    if s[p] == marker then p + 1 else p
  }

  /** Where `SKIP_UTF_CODE` leaves the pointer: each of the three mark
      bytes is skipped when it is the current byte, whether or not the
      ones before it were there. */
  function HeaderEnd(s: seq<bv8>, pos: nat): (e: nat)
    requires pos < |s| && HeaderReadable(s, pos)
    ensures pos <= e <= pos + 3 && e <= |s|
  {
    var p1 := SkipByte(s, pos, Utf8Header0);
    assert p1 < |s| by { NextReadable(s, pos, p1); }
    var p2 := SkipByte(s, p1, Utf8Header1);
    assert p2 < |s| by { NextReadable(s, pos, p2); }
    SkipByte(s, p2, Utf8Header2)
  }

  lemma NextReadable(s: seq<bv8>, pos: nat, p: nat)
    requires pos < |s| && HeaderReadable(s, pos) && pos <= p < pos + 3
    requires forall k :: pos <= k < p && k < |s| ==> s[k] != 0
    ensures p < |s|
  {
    if pos + 3 > |s| {
      var k :| pos <= k < |s| && s[k] == 0;
      assert p <= k;
    }
  }

  /** The place of a byte in the mark, 3 for a byte not in it. */
  function MarkIndex(c: bv8): nat {
    if c == Utf8Header0 then 0
    else if c == Utf8Header1 then 1
    else if c == Utf8Header2 then 2
    else 3
  }

  /** The skipped bytes are mark bytes, each at most once and in mark
      order, and the skipping stops at the first byte that is not the
      next candidate: a whole mark goes, a text without mark bytes stays,
      and a partial mark loses what it has of it. */
  lemma HeaderEndSkips(s: seq<bv8>, pos: nat)
    requires pos < |s| && HeaderReadable(s, pos)
    ensures forall k :: pos <= k < HeaderEnd(s, pos) ==> MarkIndex(s[k]) < 3
    ensures forall k, j :: pos <= k < j < HeaderEnd(s, pos) ==> MarkIndex(s[k]) < MarkIndex(s[j])
    ensures pos + 3 <= |s| && s[pos] == Utf8Header0 && s[pos + 1] == Utf8Header1 && s[pos + 2] == Utf8Header2
      ==> HeaderEnd(s, pos) == pos + 3
    ensures MarkIndex(s[pos]) == 3 ==> HeaderEnd(s, pos) == pos
  {
    var p1 := SkipByte(s, pos, Utf8Header0);
    NextReadable(s, pos, p1);
    var p2 := SkipByte(s, p1, Utf8Header1);
    NextReadable(s, pos, p2);
    assert HeaderEnd(s, pos) == SkipByte(s, p2, Utf8Header2);
  }

  /** `SKIP_UTF_CODE(string, size)` on the pointer `pos` into `s`: the
      new pointer and size.  The debug assertion that `size` is not 0
      before each skip is the caller's obligation. */
  method SkipUtfCode(s: seq<bv8>, pos: nat, size: nat) returns (p: nat, n: nat)
    requires pos < |s| && HeaderReadable(s, pos)
    requires HeaderEnd(s, pos) - pos <= size
    ensures p == HeaderEnd(s, pos)
    ensures n == size - (p - pos)
  {
    p, n := pos, size;
    if s[p] == Utf8Header0 {
      p, n := p + 1, n - 1;
    }
    NextReadable(s, pos, p);
    if s[p] == Utf8Header1 {
      p, n := p + 1, n - 1;
    }
    NextReadable(s, pos, p);
    if s[p] == Utf8Header2 {
      p, n := p + 1, n - 1;
    }
  }

  /** `SKIP_UTF_CODE_WITHOUT_SIZE`: the same skips counted down from 3,
      which never reaches 0 before a skip. */
  method SkipUtfCodeWithoutSize(s: seq<bv8>, pos: nat) returns (p: nat)
    requires pos < |s| && HeaderReadable(s, pos)
    ensures p == HeaderEnd(s, pos) && pos <= p <= pos + 3
  {
    var unusedSize;
    p, unusedSize := SkipUtfCode(s, pos, 3);
  }
}
