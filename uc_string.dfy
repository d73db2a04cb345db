/** The UTF-16 string primitives of the `uchar` library: length, copy,
    comparison (exact and ASCII case-insensitive), unit and code-point
    search, and substring search.

    A C string argument is modelled as the memory that starts at its
    pointer: a sequence of code units that contains a NUL (or, for the
    bounded variants, that is readable up to the bound).  A returned
    pointer is an index into that memory, `None` being NULL. */
module UcString {
  import opened Chars

  /** The memory holds a terminated string. */
  predicate Terminated(s: seq<Unit>) {
    Nul in s
  }

  /** The memory can be read up to `n` units or up to a NUL before that:
      what the bounded routines need of an argument that may lack a
      terminator. */
  predicate Readable(s: seq<Unit>, n: nat) {
    n <= |s| || Nul in s
  }

  /** `uc_len`: the number of units before the first NUL. */
  function Len(s: seq<Unit>): (n: nat)
    requires Terminated(s)
    ensures n < |s| && s[n] == Nul
    ensures forall k :: 0 <= k < n ==> s[k] != Nul
  {
    if s[0] == Nul then 0 else 1 + Len(s[1..])
  }

  /** The string proper, without its terminator. */
  function Text(s: seq<Unit>): seq<Unit>
    requires Terminated(s)
  {
    s[..Len(s)]
  }

  /** The units read by a bounded routine: at most `n`, stopping before
      a NUL. */
  function BoundedLen(s: seq<Unit>, n: nat): (k: nat)
    requires Readable(s, n)
    ensures k <= n && k <= |s|
    ensures forall j :: 0 <= j < k ==> s[j] != Nul
    ensures k < n ==> k < |s| && s[k] == Nul
  {
    if n == 0 || s[0] == Nul then 0 else 1 + BoundedLen(s[1..], n - 1)
  }

  lemma {:induction false} BoundedLenOfTerminated(s: seq<Unit>, n: nat)
    requires Terminated(s)
    ensures BoundedLen(s, n) == if n < Len(s) then n else Len(s)
  {
    if n != 0 && s[0] != Nul {
      BoundedLenOfTerminated(s[1..], n - 1);
    }
  }

  lemma TextCons(s: seq<Unit>)
    requires Terminated(s) && s[0] != Nul
    ensures Terminated(s[1..]) && Len(s) == 1 + Len(s[1..])
    ensures Text(s) == [s[0]] + Text(s[1..])
  {
    LenCons(s);
    SliceCons(s, s[1..], Len(s[1..]));
  }

  lemma LenCons(s: seq<Unit>)
    requires Terminated(s) && s[0] != Nul
    ensures Terminated(s[1..]) && Len(s) == 1 + Len(s[1..])
  {
    assert s[1..][Len(s) - 1] == Nul;
  }

  lemma SliceFront(s: seq<Unit>, i: nat, e: nat)
    requires i < e <= |s|
    ensures s[i..e] == [s[i]] + s[i + 1..e]
  {
  }

  lemma SliceCons(s: seq<Unit>, t: seq<Unit>, n: nat)
    requires 0 < |s| && t == s[1..] && n < |s|
    ensures s[..1 + n] == [s[0]] + t[..n]
  {
  }

  /** Strict lexicographic order on unit sequences, a proper prefix
      sorting first: the order `strcmp` reports. */
  predicate Below(a: seq<Unit>, b: seq<Unit>) {
    |b| > 0 && (|a| == 0 || a[0] < b[0] || (a[0] == b[0] && Below(a[1..], b[1..])))
  }

  lemma {:induction false} BelowIrreflexive(a: seq<Unit>)
    ensures !Below(a, a)
  {
    if |a| > 0 {
      BelowIrreflexive(a[1..]);
    }
  }

  lemma {:induction false} BelowTrichotomy(a: seq<Unit>, b: seq<Unit>)
    ensures a == b || Below(a, b) || Below(b, a)
    ensures !(Below(a, b) && Below(b, a))
  {
    if |a| > 0 && |b| > 0 {
      BelowTrichotomy(a[1..], b[1..]);
      if a[0] == b[0] && a[1..] == b[1..] {
        assert a == [a[0]] + a[1..];
        assert b == [b[0]] + b[1..];
      }
    }
  }

  /** `uc_cmp`: the difference of the first pair of units that differ,
      or of the two terminators.  Zero exactly when the strings are
      equal, negative exactly when the first sorts before the second. */
  function Cmp(s1: seq<Unit>, s2: seq<Unit>): (r: int)
    requires Terminated(s1) && Terminated(s2)
    ensures r == 0 <==> Text(s1) == Text(s2)
    ensures r < 0 <==> Below(Text(s1), Text(s2))
    decreases |s1|
  {
    if s1[0] != Nul && s1[0] == s2[0] then
      TextCons(s1);
      TextCons(s2);
      Cmp(s1[1..], s2[1..])
    else
      assert s1[0] != Nul ==> Text(s1)[0] == s1[0];
      assert s2[0] != Nul ==> Text(s2)[0] == s2[0];
      s1[0] as int - s2[0] as int
  }

  /** `uc_ncmp`: `uc_cmp` limited to the first `n` units. */
  function NCmp(s1: seq<Unit>, s2: seq<Unit>, n: nat): int
    requires Readable(s1, n) && Readable(s2, n)
    decreases n
  {
    if n == 0 then
      0
    else if s1[0] != Nul && s1[0] == s2[0] then
      ReadableTail(s1, n);
      ReadableTail(s2, n);
      NCmp(s1[1..], s2[1..], n - 1)
    else
      s1[0] as int - s2[0] as int
  }

  /** What `uc_ncmp` reports: 0 exactly when the units it reads agree,
      negative exactly when those of the first sort before. */
  lemma {:induction false} NCmpMeaning(s1: seq<Unit>, s2: seq<Unit>, n: nat)
    requires Readable(s1, n) && Readable(s2, n)
    ensures NCmp(s1, s2, n) == 0 <==> s1[..BoundedLen(s1, n)] == s2[..BoundedLen(s2, n)]
    ensures NCmp(s1, s2, n) < 0 <==> Below(s1[..BoundedLen(s1, n)], s2[..BoundedLen(s2, n)])
    decreases n
  {
    if n == 0 {
    } else if s1[0] != Nul && s1[0] == s2[0] {
      var m := n - 1;
      NCmpStep(s1, s2, n, m);
      NCmpMeaning(s1[1..], s2[1..], m);
      SameHead(s1[0], s1[1..][..BoundedLen(s1[1..], m)], s2[1..][..BoundedLen(s2[1..], m)],
               NCmp(s1[1..], s2[1..], m));
      BoundedCons(s1, n, m);
      BoundedCons(s2, n, m);
    } else {
      BoundedHead(s1, n);
      BoundedHead(s2, n);
      HeadsDiffer(s1[..BoundedLen(s1, n)], s2[..BoundedLen(s2, n)], s1[0], s2[0]);
    }
  }

  /** Prefixing both sides with the same unit keeps equality and order. */
  lemma SameHead(c: Unit, a: seq<Unit>, b: seq<Unit>, r: int)
    requires (r == 0 <==> a == b) && (r < 0 <==> Below(a, b))
    ensures (r == 0 <==> [c] + a == [c] + b) && (r < 0 <==> Below([c] + a, [c] + b))
  {
    assert ([c] + a)[1..] == a && ([c] + b)[1..] == b;
  }

  /** The units a bounded routine reads are empty exactly when the first
      is NUL, and start with it otherwise. */
  lemma BoundedHead(s: seq<Unit>, n: nat)
    requires Readable(s, n) && n > 0
    ensures (s[0] == Nul) == (s[..BoundedLen(s, n)] == [])
    ensures s[0] != Nul ==> s[..BoundedLen(s, n)][0] == s[0]
  {
  }

  /** Two runs whose first units differ, or are both NUL, compare as those
      units do. */
  lemma HeadsDiffer(a: seq<Unit>, b: seq<Unit>, x: Unit, y: Unit)
    requires (x == Nul) == (a == []) && (a != [] ==> a[0] == x)
    requires (y == Nul) == (b == []) && (b != [] ==> b[0] == y)
    requires !(x != Nul && x == y)
    ensures x as int - y as int == 0 <==> a == b
    ensures x as int - y as int < 0 <==> Below(a, b)
  {
  }

  /** `ASCII_UPPER`: maps `a`..`z` to `A`..`Z` and leaves every other unit. */
  function AsciiUpper(c: Unit): (u: Unit)
    ensures (u == Nul) == (c == Nul)
    ensures LowerA <= c <= LowerZ ==> u == c - 32 && UpperA <= u <= UpperZ
    ensures !(LowerA <= c <= LowerZ) ==> u == c
  {
    if LowerA <= c <= LowerZ then c - (LowerA - UpperA) else c
  }

  function UpperAll(s: seq<Unit>): (r: seq<Unit>)
    ensures |r| == |s|
    ensures forall k :: 0 <= k < |s| ==> r[k] == AsciiUpper(s[k])
  {
    if s == [] then [] else [AsciiUpper(s[0])] + UpperAll(s[1..])
  }

  /** `uc_icmp`: the difference of the first pair of upper-cased units
      that differ. */
  function ICmp(s1: seq<Unit>, s2: seq<Unit>): (r: int)
    requires Terminated(s1) && Terminated(s2)
    decreases |s1|
  {
    var c1, c2 := AsciiUpper(s1[0]), AsciiUpper(s2[0]);
    if c1 != Nul && c1 == c2 then ICmp(s1[1..], s2[1..]) else c1 as int - c2 as int
  }

  /** `uc_nicmp`: `uc_icmp` limited to the first `n` units. */
  function NICmp(s1: seq<Unit>, s2: seq<Unit>, n: nat): (r: int)
    requires Readable(s1, n) && Readable(s2, n)
    decreases n
  {
    if n == 0 then 0
    else
      var c1, c2 := AsciiUpper(s1[0]), AsciiUpper(s2[0]);
      if c1 != Nul && c1 == c2 then NICmp(s1[1..], s2[1..], n - 1) else c1 as int - c2 as int
  }

  /** The case-insensitive comparison is the exact comparison of the two
      strings with `a`..`z` upper-cased. */
  lemma {:induction false} ICmpIsCmpOfUpper(s1: seq<Unit>, s2: seq<Unit>)
    requires Terminated(s1) && Terminated(s2)
    ensures Terminated(UpperAll(s1)) && Terminated(UpperAll(s2))
    ensures ICmp(s1, s2) == Cmp(UpperAll(s1), UpperAll(s2))
    decreases |s1|
  {
    UpperTerminated(s1);
    UpperTerminated(s2);
    var c1, c2 := AsciiUpper(s1[0]), AsciiUpper(s2[0]);
    if c1 != Nul && c1 == c2 {
      ICmpIsCmpOfUpper(s1[1..], s2[1..]);
      assert UpperAll(s1)[1..] == UpperAll(s1[1..]);
      assert UpperAll(s2)[1..] == UpperAll(s2[1..]);
    }
  }

  /** Hence `uc_icmp` returns 0 exactly when the two texts agree once
      upper-cased. */
  lemma ICmpZero(s1: seq<Unit>, s2: seq<Unit>)
    requires Terminated(s1) && Terminated(s2)
    ensures ICmp(s1, s2) == 0 <==> UpperAll(Text(s1)) == UpperAll(Text(s2))
  {
    ICmpIsCmpOfUpper(s1, s2);
    UpperText(s1);
    UpperText(s2);
  }

  lemma UpperTerminated(s: seq<Unit>)
    requires Terminated(s)
    ensures Terminated(UpperAll(s))
  {
    var k :| 0 <= k < |s| && s[k] == Nul;
    assert UpperAll(s)[k] == Nul;
  }

  lemma {:induction false} UpperText(s: seq<Unit>)
    requires Terminated(s)
    ensures Terminated(UpperAll(s)) && Text(UpperAll(s)) == UpperAll(Text(s))
    decreases |s|
  {
    UpperTerminated(s);
    if s[0] != Nul {
      UpperText(s[1..]);
      assert UpperAll(s)[1..] == UpperAll(s[1..]);
      TextCons(s);
      TextCons(UpperAll(s));
    }
  }

  /** The bounded case-insensitive comparison is the bounded exact
      comparison of the upper-cased memories. */
  lemma NICmpIsNCmpOfUpper(s1: seq<Unit>, s2: seq<Unit>, n: nat)
    requires Readable(s1, n) && Readable(s2, n)
    ensures Readable(UpperAll(s1), n) && Readable(UpperAll(s2), n)
    ensures NICmp(s1, s2, n) == NCmp(UpperAll(s1), UpperAll(s2), n)
  {
    UpperReadable(s1, n);
    UpperReadable(s2, n);
    NICmpOfUppered(s1, s2, UpperAll(s1), UpperAll(s2), n);
  }

  /** `u` is `s` with `a`..`z` upper-cased. */
  predicate Uppered(s: seq<Unit>, u: seq<Unit>) {
    |u| == |s| && forall k :: 0 <= k < |s| ==> u[k] == AsciiUpper(s[k])
  }

  lemma {:induction false} NICmpOfUppered(s1: seq<Unit>, s2: seq<Unit>, u1: seq<Unit>, u2: seq<Unit>, n: nat)
    requires Readable(s1, n) && Readable(s2, n) && Readable(u1, n) && Readable(u2, n)
    requires Uppered(s1, u1) && Uppered(s2, u2)
    ensures NICmp(s1, s2, n) == NCmp(u1, u2, n)
    decreases n
  {
    if n > 0 {
      var c1, c2 := AsciiUpper(s1[0]), AsciiUpper(s2[0]);
      assert u1[0] == c1 && u2[0] == c2;
      if c1 != Nul && c1 == c2 {
        var m := n - 1;
        NICmpStep(s1, s2, n, m);
        NCmpStep(u1, u2, n, m);
        UpperedTail(s1, u1);
        UpperedTail(s2, u2);
        NICmpOfUppered(s1[1..], s2[1..], u1[1..], u2[1..], m);
      } else {
        NICmpDiff(s1, s2, n);
        NCmpDiff(u1, u2, n);
      }
    }
  }

  /** The units a bounded routine reads, one unit at a time. */
  lemma BoundedCons(s: seq<Unit>, n: nat, m: nat)
    requires Readable(s, n) && n == m + 1 && s[0] != Nul
    ensures Readable(s[1..], m)
    ensures s[..BoundedLen(s, n)] == [s[0]] + s[1..][..BoundedLen(s[1..], m)]
  {
    ReadableTail(s, n);
    assert BoundedLen(s, n) == 1 + BoundedLen(s[1..], n - 1);
  }

  lemma NCmpStep(s1: seq<Unit>, s2: seq<Unit>, n: nat, m: nat)
    requires Readable(s1, n) && Readable(s2, n) && n == m + 1 && s1[0] != Nul && s1[0] == s2[0]
    ensures Readable(s1[1..], m) && Readable(s2[1..], m)
    ensures NCmp(s1, s2, n) == NCmp(s1[1..], s2[1..], m)
  {
    ReadableTail(s1, n);
    ReadableTail(s2, n);
  }

  lemma UpperedTail(s: seq<Unit>, u: seq<Unit>)
    requires Uppered(s, u) && |s| > 0
    ensures Uppered(s[1..], u[1..])
  {
  }

  lemma NCmpDiff(s1: seq<Unit>, s2: seq<Unit>, n: nat)
    requires Readable(s1, n) && Readable(s2, n) && n > 0 && !(s1[0] != Nul && s1[0] == s2[0])
    ensures NCmp(s1, s2, n) == s1[0] as int - s2[0] as int
  {
  }

  lemma NICmpDiff(s1: seq<Unit>, s2: seq<Unit>, n: nat)
    requires Readable(s1, n) && Readable(s2, n) && n > 0
    requires !(AsciiUpper(s1[0]) != Nul && AsciiUpper(s1[0]) == AsciiUpper(s2[0]))
    ensures NICmp(s1, s2, n) == AsciiUpper(s1[0]) as int - AsciiUpper(s2[0]) as int
  {
  }

  lemma NICmpStep(s1: seq<Unit>, s2: seq<Unit>, n: nat, m: nat)
    requires Readable(s1, n) && Readable(s2, n) && n == m + 1
    requires AsciiUpper(s1[0]) != Nul && AsciiUpper(s1[0]) == AsciiUpper(s2[0])
    ensures Readable(s1[1..], m) && Readable(s2[1..], m)
    ensures NICmp(s1, s2, n) == NICmp(s1[1..], s2[1..], m)
  {
    ReadableTail(s1, n);
    ReadableTail(s2, n);
  }

  lemma ReadableTail(s: seq<Unit>, n: nat)
    requires Readable(s, n) && n > 0 && s[0] != Nul
    ensures Readable(s[1..], n - 1)
  {
    if n > |s| {
      var k :| 0 <= k < |s| && s[k] == Nul;
      assert s[1..][k - 1] == Nul;
    }
  }

  lemma UpperReadable(s: seq<Unit>, n: nat)
    requires Readable(s, n)
    ensures Readable(UpperAll(s), n)
  {
    if n > |s| {
      var k :| 0 <= k < |s| && s[k] == Nul;
      assert UpperAll(s)[k] == Nul;
    }
  }

  /** The first index at or after `i` and before the terminator that
      holds `c`. */
  function FindUnit(s: seq<Unit>, c: Unit, i: nat): (r: Option<nat>)
    requires Terminated(s) && i <= Len(s)
    ensures r.Some? ==> i <= r.value < Len(s) && s[r.value] == c
    ensures r.Some? ==> forall k :: i <= k < r.value ==> s[k] != c
    ensures r.None? ==> forall k :: i <= k < Len(s) ==> s[k] != c
    decreases Len(s) - i
  {
    if s[i] == Nul then None
    else if s[i] == c then Some(i)
    else FindUnit(s, c, i + 1)
  }

  /** A surrogate pair decoded the way `uc_chr` and `uc_rchr` write it:
      `(hi & 0x3FF) << 10 | (lo & 0x3FF) + 0x10000`.  C gives `+` a higher
      precedence than `|`, so the offset is OR-ed in rather than added. */
  function DecodeAsWritten(hi: Unit, lo: Unit): nat
  {
    var h := (hi as bv32 & 0x3FF) << 10;
    var l := (lo as bv32 & 0x3FF) + 0x10000;
    (h | l) as nat
  }

  /** The decoding of section 2.2 of RFC 2781: the ten payload bits of each
      half, plus 0x10000. */
  function Decode(hi: Unit, lo: Unit): (c: nat)
    requires 0xD800 <= hi < 0xDC00 && 0xDC00 <= lo < 0xE000
    ensures 0x10000 <= c <= 0x10FFFF
  {
    (hi - 0xD800) * 0x400 + (lo - 0xDC00) + 0x10000
  }

  predicate IsSurrogate(u: Unit) { 0xD800 <= u <= 0xDFFF }
  predicate IsLead(u: Unit) { 0xD800 <= u < 0xDC00 }
  predicate IsTrail(u: Unit) { 0xDC00 <= u <= 0xDFFF }

  /** The surrogate-aware scan of `uc_chr` as written (for a code point
      above 0xFFFF): a lone or trailing surrogate is skipped, a leading
      surrogate swallows the unit after it even when that is not a
      trailing surrogate, and a pair is decoded by `DecodeAsWritten`. */
  function ChrPairsAsWritten(s: seq<Unit>, srch: nat, i: nat): (r: Option<nat>)
    requires Terminated(s) && i <= Len(s)
    ensures r.Some? ==> i <= r.value < Len(s)
    decreases Len(s) - i
  {
    if s[i] == Nul then None
    else if IsSurrogate(s[i]) then
      if s[i] >= 0xDC00 || s[i + 1] == Nul then ChrPairsAsWritten(s, srch, i + 1)
      else if !IsTrail(s[i + 1]) then ChrPairsAsWritten(s, srch, i + 2)
      else if DecodeAsWritten(s[i], s[i + 1]) == srch then Some(i)
      else ChrPairsAsWritten(s, srch, i + 2)
    else if s[i] == srch then Some(i)
    else ChrPairsAsWritten(s, srch, i + 1)
  }

  /** `uc_chr` as written.  For a value that fits in one unit it is a
      plain unit search, which never finds the terminator. */
  function Chr(s: seq<Unit>, srch: nat): (r: Option<nat>)
    requires Terminated(s)
    ensures r.Some? ==> r.value < Len(s)
    ensures srch <= 0xFFFF ==> r == FindUnit(s, srch, 0)
  {
    if srch <= 0xFFFF then FindUnit(s, srch, 0)
    else ChrPairsAsWritten(s, srch, 0)
  }

  /** For a value that fits in one unit, `uc_chr` finds something exactly
      when the text holds that unit, so never the terminator. */
  lemma ChrFirstUnit(s: seq<Unit>, c: Unit)
    requires Terminated(s)
    ensures Chr(s, c).Some? <==> c in Text(s)
    ensures c == Nul ==> Chr(s, c) == None
  {
    if Chr(s, c).Some? {
      assert Text(s)[Chr(s, c).value] == c;
    }
  }

  /** What the surrogate-aware scan of `uc_chr` does at position `i`, with
      the decoding corrected to section 2.2 of RFC 2781: stop at the
      terminator, report a hit, or step over one unit or a pair (a lone
      or trailing surrogate is one unit, a leading surrogate takes the
      unit after it along). */
  datatype Scan = Stop | Hit | Skip(n: nat)

  function PairStep(s: seq<Unit>, srch: nat, i: nat): (r: Scan)
    requires Terminated(s) && i <= Len(s)
    ensures r.Stop? <==> i == Len(s)
    ensures r.Skip? ==> 1 <= r.n <= 2 && i + r.n <= Len(s)
  {
    if s[i] == Nul then Stop
    else if IsSurrogate(s[i]) then
      if s[i] >= 0xDC00 || s[i + 1] == Nul then Skip(1)
      else if !IsTrail(s[i + 1]) then Skip(2)
      else if Decode(s[i], s[i + 1]) == srch then Hit
      else Skip(2)
    else if s[i] == srch then Hit
    else Skip(1)
  }

  /** The surrogate-aware scan with the corrected decoding; everything
      else as in `ChrPairsAsWritten`. */
  function ChrPairs(s: seq<Unit>, srch: nat, i: nat): (r: Option<nat>)
    requires Terminated(s) && i <= Len(s)
    ensures r.Some? ==> i <= r.value < Len(s)
    decreases Len(s) - i
  {
    match PairStep(s, srch, i)
    case Stop => None
    case Hit => Some(i)
    case Skip(n) => ChrPairs(s, srch, i + n)
  }

  /** `uc_chr` with the corrected decoding. */
  function ChrDecoded(s: seq<Unit>, srch: nat): (r: Option<nat>)
    requires Terminated(s)
    ensures r.Some? ==> r.value < Len(s)
  {
    if srch <= 0xFFFF then FindUnit(s, srch, 0) else ChrPairs(s, srch, 0)
  }

  /** A Unicode scalar value other than NUL: what a terminated UTF-16
      string can carry. */
  predicate IsScalar(c: nat) {
    0 < c <= 0x10FFFF && !(0xD800 <= c <= 0xDFFF)
  }

  /** The UTF-16 encoding of one scalar value (section 2.1 of RFC 2781). */
  function EncodeOne(c: nat): (r: seq<Unit>)
    requires IsScalar(c)
    ensures 1 <= |r| <= 2 && Nul !in r
    ensures |r| == 1 <==> c <= 0xFFFF
  {
    if c <= 0xFFFF then [c]
    else [0xD800 + (c - 0x10000) / 0x400, 0xDC00 + (c - 0x10000) % 0x400]
  }

  function Encode(cs: seq<nat>): (r: seq<Unit>)
    requires forall k :: 0 <= k < |cs| ==> IsScalar(cs[k])
    ensures Nul !in r
  {
    if cs == [] then [] else EncodeOne(cs[0]) + Encode(cs[1..])
  }

  /** The corrected decoding inverts the encoding of every supplementary
      code point. */
  lemma DecodeEncodeOne(c: nat)
    requires IsScalar(c) && c > 0xFFFF
    ensures var e := EncodeOne(c); IsLead(e[0]) && IsTrail(e[1]) && Decode(e[0], e[1]) == c
  {
  }

  /** Index of the first occurrence of `c` in `cs`, or `|cs|`. */
  function IndexOf(cs: seq<nat>, c: nat): (k: nat)
    ensures k <= |cs|
    ensures k < |cs| ==> cs[k] == c
    ensures forall j :: 0 <= j < k ==> cs[j] != c
  {
    if cs == [] then 0 else if cs[0] == c then 0 else 1 + IndexOf(cs[1..], c)
  }

  /** With the corrected decoding, the surrogate-aware search finds, in a
      well-formed UTF-16 string, exactly the first encoded occurrence of
      a supplementary code point. */
  lemma ChrDecodedFindsFirst(cs: seq<nat>, c: nat)
    requires forall k :: 0 <= k < |cs| ==> IsScalar(cs[k])
    requires IsScalar(c) && c > 0xFFFF
    ensures Terminated(Encode(cs) + [Nul])
    ensures ChrDecoded(Encode(cs) + [Nul], c)
      == if c in cs then Some(|Encode(cs[..IndexOf(cs, c)])|) else None
  {
    ChrPairsFindsFirst(cs, c);
    EncodedFindMeaning(cs, c);
  }

  /** An offset found in a part of a string, as an offset in the whole
      string when that part starts `n` units in. */
  function Moved(r: Option<nat>, n: nat): (m: Option<nat>)
    ensures m.Some? <==> r.Some?
    ensures m.Some? ==> m.value - n == r.value
  {
    if r.Some? then Some(r.value + n) else None
  }

  /** The offset of the first encoded occurrence of `c`, code point by
      code point. */
  function EncodedFind(cs: seq<nat>, c: nat): (r: Option<nat>)
    requires forall k :: 0 <= k < |cs| ==> IsScalar(cs[k])
  {
    if cs == [] then None
    else if cs[0] == c then Some(0)
    else Moved(EncodedFind(cs[1..], c), |EncodeOne(cs[0])|)
  }

  lemma {:induction false} ChrPairsFindsFirst(cs: seq<nat>, c: nat)
    requires forall k :: 0 <= k < |cs| ==> IsScalar(cs[k])
    requires IsScalar(c) && c > 0xFFFF
    ensures Terminated(Encode(cs) + [Nul])
    ensures ChrPairs(Encode(cs) + [Nul], c, 0) == EncodedFind(cs, c)
    decreases |cs|
  {
    if cs == [] {
      assert Encode(cs) + [Nul] == [Nul];
    } else {
      var s, rest := Encode(cs) + [Nul], Encode(cs[1..]) + [Nul];
      EncodeConsNul(cs, s, rest);
      if cs[0] == c {
        ChrPairsHeadFound(c, rest, s);
      } else {
        ChrPairsFindsFirst(cs[1..], c);
        ScanPastHead(cs[0], rest, s, c, |EncodeOne(cs[0])|);
      }
    }
  }

  /** `EncodedFind` is the length of the encoding of everything before the
      first occurrence, and nothing when there is none. */
  lemma {:induction false} EncodedFindMeaning(cs: seq<nat>, c: nat)
    requires forall k :: 0 <= k < |cs| ==> IsScalar(cs[k])
    ensures EncodedFind(cs, c) == if c in cs then Some(|Encode(cs[..IndexOf(cs, c)])|) else None
    decreases |cs|
  {
    if cs == [] {
    } else if cs[0] == c {
      assert IndexOf(cs, c) == 0 && cs[..0] == [];
    } else {
      EncodedFindMeaning(cs[1..], c);
      if c in cs {
        EncodePrefixStep(cs, c);
      } else {
        assert c !in cs[1..];
      }
    }
  }

  /** The scan over an encoded code point other than the one sought,
      followed by the rest: what the scan of the rest finds, moved by the
      head's length. */
  lemma ScanPastHead(x: nat, rest: seq<Unit>, s: seq<Unit>, c: nat, n: nat)
    requires IsScalar(x) && IsScalar(c) && c > 0xFFFF && x != c && Terminated(rest)
    requires s == EncodeOne(x) + rest && n == |EncodeOne(x)|
    ensures Terminated(s)
    ensures ChrPairs(s, c, 0) == Moved(ChrPairs(rest, c, 0), n)
  {
    ChrPairsHeadSkips(x, rest, s, c, n);
    ScanFromShift(EncodeOne(x), rest, s, c, n);
  }

  /** The scan resumed after a NUL-free prefix finds what the scan of the
      rest finds, moved by the prefix's length. */
  lemma ScanFromShift(pre: seq<Unit>, t: seq<Unit>, s: seq<Unit>, c: nat, n: nat)
    requires Nul !in pre && Terminated(t) && s == pre + t && n == |pre|
    ensures Terminated(s) && n <= Len(s)
    ensures ChrPairs(s, c, n) == Moved(ChrPairs(t, c, 0), n)
  {
    LenAppend(pre, t);
    ChrPairsShift(pre, t, s, c, 0, n);
  }

  /** The encoding of a non-empty sequence, terminated: the encoding of its
      head, then that of the rest, terminated. */
  lemma EncodeConsNul(cs: seq<nat>, s: seq<Unit>, rest: seq<Unit>)
    requires forall k :: 0 <= k < |cs| ==> IsScalar(cs[k])
    requires cs != [] && s == Encode(cs) + [Nul] && rest == Encode(cs[1..]) + [Nul]
    ensures Terminated(rest) && s == EncodeOne(cs[0]) + rest
  {
    AppendNul(EncodeOne(cs[0]), Encode(cs[1..]), s, rest);
  }

  lemma AppendNul(e: seq<Unit>, t: seq<Unit>, s: seq<Unit>, rest: seq<Unit>)
    requires s == e + t + [Nul] && rest == t + [Nul]
    ensures Terminated(rest) && s == e + rest
  {
    assert rest[|t|] == Nul;
  }

  /** The scan over an encoded code point followed by the rest stops at
      the head when that is the code point sought. */
  lemma ChrPairsHeadFound(c: nat, rest: seq<Unit>, s: seq<Unit>)
    requires IsScalar(c) && c > 0xFFFF && Terminated(rest) && s == EncodeOne(c) + rest
    ensures Terminated(s)
    ensures ChrPairs(s, c, 0) == Some(0)
  {
    var e := EncodeOne(c);
    LenAppend(e, rest);
    DecodeEncodeOne(c);
    assert s[0] == e[0] && s[1] == e[1];
  }

  /** Any other code point at the head is stepped over whole. */
  lemma ChrPairsHeadSkips(x: nat, rest: seq<Unit>, s: seq<Unit>, c: nat, n: nat)
    requires IsScalar(x) && IsScalar(c) && c > 0xFFFF && x != c && Terminated(rest)
    requires s == EncodeOne(x) + rest && n == |EncodeOne(x)|
    ensures Terminated(s) && n <= Len(s)
    ensures ChrPairs(s, c, 0) == ChrPairs(s, c, n)
  {
    var e := EncodeOne(x);
    LenAppend(e, rest);
    assert s[0] == e[0];
    if x <= 0xFFFF {
      assert !IsSurrogate(s[0]);
    } else {
      DecodeEncodeOne(x);
      DecodeInjective(x, c);
      assert s[1] == e[1];
    }
  }

  /** When the first occurrence is not at the head, its encoded offset is
      the head's length plus its offset in the tail. */
  lemma EncodePrefixStep(cs: seq<nat>, c: nat)
    requires forall k :: 0 <= k < |cs| ==> IsScalar(cs[k])
    requires c in cs && cs[0] != c
    ensures c in cs[1..]
    ensures |Encode(cs[..IndexOf(cs, c)])|
      == |EncodeOne(cs[0])| + |Encode(cs[1..][..IndexOf(cs[1..], c)])|
  {
    var k := IndexOf(cs[1..], c);
    assert c in cs[1..];
    assert IndexOf(cs, c) == 1 + k;
    assert cs[..1 + k][0] == cs[0];
    assert cs[..1 + k][1..] == cs[1..][..k];
  }

  /** A NUL-free prefix moves every index the scan reports and changes
      nothing else: position `i` of `t` is position `j` of `s`. */
  lemma {:induction false} ChrPairsShift(pre: seq<Unit>, t: seq<Unit>, s: seq<Unit>, c: nat, i: nat, j: nat)
    requires Nul !in pre && Terminated(t) && i <= Len(t)
    requires s == pre + t && j == |pre| + i
    requires Terminated(s) && Len(s) == |pre| + Len(t)
    ensures ChrPairs(s, c, j) == Moved(ChrPairs(t, c, i), |pre|)
    decreases Len(t) - i
  {
    PairStepShift(pre, t, s, c, i, j);
    match PairStep(t, c, i)
    case Stop =>
    case Hit =>
    case Skip(n) => ChrPairsShift(pre, t, s, c, i + n, j + n);
  }

  /** The scan takes the same step at position `i` of `t` as at position
      `j` of `pre + t`. */
  lemma PairStepShift(pre: seq<Unit>, t: seq<Unit>, s: seq<Unit>, c: nat, i: nat, j: nat)
    requires Nul !in pre && Terminated(t) && i <= Len(t)
    requires s == pre + t && j == |pre| + i
    requires Terminated(s) && Len(s) == |pre| + Len(t)
    ensures PairStep(s, c, j) == PairStep(t, c, i)
  {
    assert s[j] == t[i];
    if t[i] != Nul {
      assert s[j + 1] == t[i + 1];
    }
  }

  lemma LenAppend(pre: seq<Unit>, t: seq<Unit>)
    requires Nul !in pre && Terminated(t)
    ensures Terminated(pre + t) && Len(pre + t) == |pre| + Len(t)
  {
    var s := pre + t;
    assert s[|pre| + Len(t)] == Nul;
    assert forall k :: 0 <= k < |pre| ==> s[k] == pre[k] && pre[k] != Nul;
    assert forall k :: 0 <= k < Len(t) ==> s[|pre| + k] == t[k];
  }

  lemma DecodeInjective(a: nat, b: nat)
    requires IsScalar(a) && a > 0xFFFF && IsScalar(b) && b > 0xFFFF && a != b
    ensures var e := EncodeOne(a); Decode(e[0], e[1]) != b
  {
  }

  lemma DecodeAsWrittenOfD840DC00()
    ensures DecodeAsWritten(0xD840, 0xDC00) == 0x10000
  {
    assert ((0xD840 as bv32 & 0x3FF) << 10) | ((0xDC00 as bv32 & 0x3FF) + 0x10000) == 0x10000;
  }

  /** The discrepancy in the decoding as written: U+20000, encoded as the
      pair D840 DC00, is decoded to 0x10000, so `uc_chr` misses it and
      reports it when asked for U+10000 instead; the corrected decoding
      does neither. */
  lemma ChrAsWrittenMissesU20000()
    ensures Encode([0x20000]) == [0xD840, 0xDC00]
    ensures Chr([0xD840, 0xDC00, Nul], 0x20000) == None
    ensures Chr([0xD840, 0xDC00, Nul], 0x10000) == Some(0)
    ensures ChrDecoded([0xD840, 0xDC00, Nul], 0x20000) == Some(0)
    ensures ChrDecoded([0xD840, 0xDC00, Nul], 0x10000) == None
  {
    var s: seq<Unit> := [0xD840, 0xDC00, Nul];
    assert Len(s[2..]) == 0;
    assert Len(s[1..]) == 1;
    assert Len(s) == 2;
    DecodeAsWrittenOfD840DC00();
    assert Decode(0xD840, 0xDC00) == 0x20000;
    assert ChrPairsAsWritten(s, 0x20000, 2) == None;
    assert ChrPairsAsWritten(s, 0x20000, 0) == None;
    assert ChrPairsAsWritten(s, 0x10000, 0) == Some(0);
    assert ChrPairs(s, 0x20000, 0) == Some(0);
    assert ChrPairs(s, 0x10000, 2) == None;
    assert ChrPairs(s, 0x10000, 0) == None;
    assert EncodeOne(0x20000) == [0xD840, 0xDC00];
  }

  /** The backward scan of `uc_rchr` for a value that fits in one unit:
      the last unit before `p` equal to `c`. */
  function RFindUnit(s: seq<Unit>, c: Unit, p: nat): (r: Option<nat>)
    requires p <= |s|
    ensures r.Some? ==> r.value < p && s[r.value] == c
    ensures r.Some? ==> forall k :: r.value < k < p ==> s[k] != c
    ensures r.None? ==> forall k :: 0 <= k < p ==> s[k] != c
  {
    if p == 0 then None
    else if s[p - 1] == c then Some(p - 1)
    else RFindUnit(s, c, p - 1)
  }

  /** The surrogate-aware backward scan of `uc_rchr` as written: a
      trailing surrogate is paired with the unit before it, and that unit
      is consumed even when the pair turns out to be junk. */
  function RChrPairsAsWritten(s: seq<Unit>, srch: nat, p: nat): (r: Option<nat>)
    requires p <= |s| && |s| > 0
    ensures r.Some? ==> r.value < p
  {
    if p == 0 then None
    else
      var q := p - 1;
      var uc := s[q];
      if IsSurrogate(uc) then
        if uc < 0xDC00 || q == 0 then RChrPairsAsWritten(s, srch, q)
        else
          var hi := s[q - 1];
          if hi >= 0xDC00 || s[0] == Nul then RChrPairsAsWritten(s, srch, q - 1)
          else if hi < 0xD800 || hi > 0xDBFF then RChrPairsAsWritten(s, srch, q - 1)
          else if DecodeAsWritten(hi, uc) == srch then Some(q - 1)
          else RChrPairsAsWritten(s, srch, q - 1)
      else if uc == srch then Some(q)
      else RChrPairsAsWritten(s, srch, q)
  }

  /** `uc_rchr` as written. */
  function RChr(s: seq<Unit>, srch: nat): (r: Option<nat>)
    requires Terminated(s)
    ensures r.Some? ==> r.value < Len(s)
  {
    if srch <= 0xFFFF then RFindUnit(s, srch, Len(s))
    else RChrPairsAsWritten(s, srch, Len(s))
  }

  /** For a value that fits in one unit, `uc_rchr` returns the last unit
      of the text equal to it, and NULL when there is none (always NULL
      for NUL). */
  lemma RChrLastUnit(s: seq<Unit>, c: Unit)
    requires Terminated(s)
    ensures RChr(s, c).Some? <==> c in Text(s)
    ensures RChr(s, c).Some? ==>
              s[RChr(s, c).value] == c && forall k :: RChr(s, c).value < k < Len(s) ==> s[k] != c
    ensures c == Nul ==> RChr(s, c) == None
  {
    if RChr(s, c).Some? {
      assert Text(s)[RChr(s, c).value] == c;
    }
  }

  /** `search` (up to its terminator) occurs at index `p` of `str`, inside
      `str`'s text. */
  predicate OccursAt(str: seq<Unit>, search: seq<Unit>, p: nat)
    requires Terminated(str) && Terminated(search)
  {
    p + Len(search) <= Len(str) && str[p..p + Len(search)] == Text(search)
  }

  /** The inner comparison loop of `uc_str`: advances while both units are
      non-NUL and equal, and reports whether `search` ran out first. */
  function MatchFrom(str: seq<Unit>, search: seq<Unit>, p: nat, j: nat): (b: bool)
    requires Terminated(str) && Terminated(search)
    requires p + j <= Len(str) && j <= Len(search)
    requires str[p..p + j] == search[..j]
    ensures b <==> OccursAt(str, search, p)
    decreases Len(search) - j
  {
    if str[p + j] != Nul && search[j] != Nul && str[p + j] == search[j] then
      assert str[p..p + j + 1] == search[..j + 1] by {
        assert str[p..p + j + 1] == str[p..p + j] + [str[p + j]];
        assert search[..j + 1] == search[..j] + [search[j]];
      }
      MatchFrom(str, search, p, j + 1)
    else
      if search[j] != Nul then
        OccursAtUnit(str, search, p, j);
        false
      else
        assert Len(search) == j;
        true
  }

  lemma OccursAtUnit(str: seq<Unit>, search: seq<Unit>, p: nat, j: nat)
    requires Terminated(str) && Terminated(search) && j < Len(search)
    ensures OccursAt(str, search, p) ==> p + j < Len(str) && str[p + j] == search[j]
  {
    if OccursAt(str, search, p) {
      assert str[p..p + Len(search)][j] == search[..Len(search)][j];
    }
  }

  /** The outer loop of `uc_str`: the first start position at or after `p`,
      inside `str`'s text, where `search` occurs. */
  function StrFrom(str: seq<Unit>, search: seq<Unit>, p: nat): (r: Option<nat>)
    requires Terminated(str) && Terminated(search)
    requires p <= Len(str)
    ensures r.Some? ==> p <= r.value < Len(str) && OccursAt(str, search, r.value)
    ensures r.Some? ==> forall q :: p <= q < r.value ==> !OccursAt(str, search, q)
    ensures r.None? ==> forall q :: p <= q < Len(str) ==> !OccursAt(str, search, q)
    decreases Len(str) - p
  {
    if str[p] == Nul then None
    else if MatchFrom(str, search, p, 0) then Some(p)
    else StrFrom(str, search, p + 1)
  }

  /** `uc_str`: the empty search matches at the start; otherwise the first
      occurrence inside the text, or NULL. */
  function Str(str: seq<Unit>, search: seq<Unit>): (r: Option<nat>)
    requires Terminated(str) && Terminated(search)
    ensures search[0] == Nul ==> r == Some(0)
    ensures search[0] != Nul && r.Some? ==>
              OccursAt(str, search, r.value) && forall q :: 0 <= q < r.value ==> !OccursAt(str, search, q)
    ensures search[0] != Nul && r.None? ==> forall q :: 0 <= q <= Len(str) ==> !OccursAt(str, search, q)
  {
    if search[0] == Nul then Some(0)
    else
      var r := StrFrom(str, search, 0);
      assert !OccursAt(str, search, Len(str));
      r
  }

  /** `uc_cpy`: copies the string and its terminator into `dest`. */
  method Cpy(dest: array<Unit>, src: seq<Unit>)
    requires Terminated(src) && Len(src) < dest.Length
    modifies dest
    ensures dest[..Len(src) + 1] == src[..Len(src) + 1]
    ensures dest[Len(src) + 1..] == old(dest[Len(src) + 1..])
  {
    var i := 0;
    dest[i] := src[i];
    while src[i] != Nul
      invariant 0 <= i <= Len(src)
      invariant forall k :: 0 <= k <= i ==> dest[k] == src[k]
      invariant forall k :: i < k < dest.Length ==> dest[k] == old(dest[k])
      decreases Len(src) - i
    {
      i := i + 1;
      dest[i] := src[i];
    }
    assert dest[..i + 1] == src[..i + 1];
  }

  /** The number of units `uc_ncpy` stores: up to `n`, the terminator
      included when it is reached first. */
  function NCpyCount(src: seq<Unit>, n: nat): (w: nat)
    requires Readable(src, n)
    ensures w <= n && w <= |src|
  {
    var k := BoundedLen(src, n);
    if k < n then k + 1 else n
  }

  /** `uc_ncpy`: copies at most `n` units and stops after copying a NUL.
      Unlike `strncpy` it does not pad the rest of the `n` units. */
  method NCpy(dest: array<Unit>, src: seq<Unit>, n: nat)
    requires Readable(src, n) && NCpyCount(src, n) <= dest.Length
    modifies dest
    ensures dest[..NCpyCount(src, n)] == src[..NCpyCount(src, n)]
    ensures dest[NCpyCount(src, n)..] == old(dest[NCpyCount(src, n)..])
  {
    var i, m := 0, n;
    while m > 0
      invariant i + m == n && i <= BoundedLen(src, n)
      invariant dest[..i] == src[..i]
      invariant forall k :: i <= k < dest.Length ==> dest[k] == old(dest[k])
      decreases m
    {
      dest[i] := src[i];
      if dest[i] == Nul {
        i := i + 1;
        break;
      }
      i, m := i + 1, m - 1;
    }
    assert i == NCpyCount(src, n);
  }
}
