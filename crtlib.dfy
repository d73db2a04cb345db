/** The UTF-16 copies of the C wide-string utilities: length, copy,
    bounded copy, unit search from either end, concatenation, comparison,
    the truncating narrow and widen converters, and the reentrant
    tokenizer.

    `wchar_t` is a 16-bit code unit here, the library's `Unit`.  A source
    string is the memory at its pointer, a sequence; a destination is an
    array written in place; a returned pointer is an index, `None` being
    NULL. */
module CrtLib {
  import opened Chars
  import opened UcString
  import FormatSpec

  /** A terminated string starts where `n` is: its NUL is the first one
      in the memory. */
  lemma LenIs(s: seq<Unit>, n: nat)
    requires n < |s| && s[n] == Nul
    requires forall k :: 0 <= k < n ==> s[k] != Nul
    ensures Terminated(s) && Len(s) == n
  {
  }

  /** `wcslen_utf16`: the index of the first NUL. */
  method WcsLen(s: seq<Unit>) returns (n: nat)
    requires Terminated(s)
    ensures n < |s| && s[n] == Nul
    ensures forall k :: 0 <= k < n ==> s[k] != Nul
    ensures n == Len(s)
  {
    var i := 0;
    while s[i] != Nul
      invariant i <= Len(s)
      invariant forall k :: 0 <= k < i ==> s[k] != Nul
      decreases Len(s) - i
    {
      i := i + 1;
    }
    n := i;
  }

  /** `wcscpy_utf16`: the source up to and including its terminator. */
  method WcsCpy(s1: array<Unit>, s2: seq<Unit>)
    requires Terminated(s2) && Len(s2) < s1.Length
    modifies s1
    ensures s1[..] == s2[..Len(s2) + 1] + old(s1[Len(s2) + 1..])
    ensures Terminated(s1[..]) && Text(s1[..]) == Text(s2)
  {
    var n := CopyAt(s1, 0, s2);
    assert s1[..] == s2[..n + 1] + old(s1[n + 1..]);
    LenIs(s1[..], n);
  }

  /** `wcsncpy_utf16`: exactly `len` units.  The units before the
      source's terminator are copied; when the terminator comes within
      `len` units, it and every unit after it up to `len` are NUL, and
      otherwise no terminator is written. */
  method WcsNCpy(s1: array<Unit>, s2: seq<Unit>, len: nat)
    requires Readable(s2, len) && len <= s1.Length
    modifies s1
    ensures var k := BoundedLen(s2, len);
      && s1[..k] == s2[..k]
      && (forall j :: k <= j < len ==> s1[j] == Nul)
      && s1[len..] == old(s1[len..])
  {
    if len == 0 {
      return;
    }
    ghost var s0 := s1[..];
    var i, m := 0, len;
    while m > 0
      invariant i + m == len && i <= BoundedLen(s2, len)
      invariant forall j :: 0 <= j < i ==> s1[j] == s2[j]
      invariant forall j :: i <= j < s1.Length ==> s1[j] == s0[j]
      decreases m
    {
      s1[i] := s2[i];
      if s1[i] == Nul {
        break;
      }
      i, m := i + 1, m - 1;
    }
    var p := i;
    if m > 0 {
      p := i + 1;
      m := m - 1;
      while m > 0
        invariant p + m == len && i < p
        invariant forall j :: 0 <= j < i ==> s1[j] == s2[j]
        invariant forall j :: i <= j < p ==> s1[j] == Nul
        invariant forall j :: p <= j < s1.Length ==> s1[j] == s0[j]
        decreases m
      {
        s1[p] := Nul;
        p, m := p + 1, m - 1;
      }
    }
    assert i == BoundedLen(s2, len) && p == len;
    assert s1[..i] == s2[..i];
    assert s1[len..] == s0[len..];
  }

  /** `wcschr_utf16`: the first position of `c` in the string, its
      terminator included, so that NUL finds the terminator. */
  method WcsChr(s: seq<Unit>, c: Unit) returns (r: Option<nat>)
    requires Terminated(s)
    ensures r.Some? ==> r.value <= Len(s) && s[r.value] == c
    ensures r.Some? ==> forall k :: 0 <= k < r.value ==> s[k] != c
    ensures r.None? ==> forall k :: 0 <= k <= Len(s) ==> s[k] != c
    ensures c == Nul ==> r == Some(Len(s))
    ensures c != Nul ==> r == FindUnit(s, c, 0)
  {
    var i := 0;
    while true
      invariant i <= Len(s)
      invariant forall k :: 0 <= k < i ==> s[k] != c
      decreases Len(s) - i
    {
      if s[i] == c {
        return Some(i);
      }
      if s[i] == Nul {
        return None;
      }
      i := i + 1;
    }
  }

  /** `wcsrchr_utf16`: the last position of `c` in the string, its
      terminator included. */
  method WcsRChr(s: seq<Unit>, c: Unit) returns (r: Option<nat>)
    requires Terminated(s)
    ensures r.Some? ==> r.value <= Len(s) && s[r.value] == c
    ensures r.Some? ==> forall k :: r.value < k <= Len(s) ==> s[k] != c
    ensures r.None? ==> forall k :: 0 <= k <= Len(s) ==> s[k] != c
    ensures c == Nul ==> r == Some(Len(s))
    ensures c != Nul ==> r == RFindUnit(s, c, Len(s))
  {
    var i := 0;
    r := None;
    while true
      invariant i <= Len(s)
      invariant r.Some? ==> r.value < i && s[r.value] == c
      invariant r.Some? ==> forall k :: r.value < k < i ==> s[k] != c
      invariant r.None? ==> forall k :: 0 <= k < i ==> s[k] != c
      decreases Len(s) - i
    {
      if s[i] == c {
        r := Some(i);
      }
      if s[i] == Nul {
        return;
      }
      i := i + 1;
    }
  }

  /** `wcscat_utf16`: the second string, terminator included, stored over
      the first one's terminator. */
  method WcsCat(s1: array<Unit>, s2: seq<Unit>)
    requires Terminated(s1[..]) && Terminated(s2)
    requires Len(s1[..]) + Len(s2) < s1.Length
    modifies s1
    ensures var n1, n2 := Len(old(s1[..])), Len(s2);
      s1[..] == old(s1[..n1]) + s2[..n2 + 1] + old(s1[n1 + n2 + 1..])
    ensures Terminated(s1[..]) && Text(s1[..]) == Text(old(s1[..])) + Text(s2)
  {
    ghost var s0 := s1[..];
    var p := 0;
    while s1[p] != Nul
      invariant p <= Len(s0)
      decreases Len(s0) - p
    {
      p := p + 1;
    }
    var n1 := p;
    assert n1 == Len(s0);
    var i := CopyAt(s1, n1, s2);
    CatLayout(s1[..], s0, s2, n1, i);
    CatText(s1[..], s0, s2, n1, i);
  }

  /** The pointwise result of the copying loop, as a whole sequence. */
  lemma CatLayout(s: seq<Unit>, s0: seq<Unit>, s2: seq<Unit>, at: nat, n2: nat)
    requires |s| == |s0| && at + n2 < |s| && n2 < |s2|
    requires forall k :: 0 <= k < at ==> s[k] == s0[k]
    requires forall k :: 0 <= k <= n2 ==> s[at + k] == s2[k]
    requires forall k :: at + n2 < k < |s| ==> s[k] == s0[k]
    ensures s == s0[..at] + s2[..n2 + 1] + s0[at + n2 + 1..]
  {
    var r := s0[..at] + s2[..n2 + 1] + s0[at + n2 + 1..];
    forall k | 0 <= k < |s|
      ensures s[k] == r[k]
    {
      if at <= k <= at + n2 {
        assert s[at + (k - at)] == s2[k - at];
      }
    }
  }

  /** The copying loop of `wcscpy_utf16` and `wcscat_utf16`, storing at
      `at`: the source up to and including its terminator. */
  method CopyAt(s1: array<Unit>, at: nat, s2: seq<Unit>) returns (n2: nat)
    requires Terminated(s2) && at + Len(s2) < s1.Length
    modifies s1
    ensures n2 == Len(s2)
    ensures forall k :: 0 <= k < at ==> s1[k] == old(s1[k])
    ensures forall k :: 0 <= k <= n2 ==> s1[at + k] == s2[k]
    ensures forall k :: at + n2 < k < s1.Length ==> s1[k] == old(s1[k])
  {
    var i := 0;
    while true
      invariant i <= Len(s2)
      invariant forall k :: 0 <= k < at ==> s1[k] == old(s1[k])
      invariant forall k :: 0 <= k < i ==> s1[at + k] == s2[k]
      invariant forall k :: at + i <= k < s1.Length ==> s1[k] == old(s1[k])
      decreases Len(s2) - i
    {
      s1[at + i] := s2[i];
      if s1[at + i] == Nul {
        break;
      }
      i := i + 1;
    }
    n2 := i;
  }

  lemma CatText(s: seq<Unit>, s1: seq<Unit>, s2: seq<Unit>, n1: nat, n2: nat)
    requires Terminated(s1) && Terminated(s2) && n1 == Len(s1) && n2 == Len(s2)
    requires n1 + n2 < |s| && s[..n1 + n2 + 1] == s1[..n1] + s2[..n2 + 1]
    ensures Terminated(s) && Text(s) == Text(s1) + Text(s2)
  {
    assert s[n1 + n2] == s2[n2];
    forall k | 0 <= k < n1 + n2
      ensures s[k] != Nul
    {
      if k < n1 {
        assert s[k] == s1[k];
      } else {
        assert s[k] == s2[k - n1];
      }
    }
    LenIs(s, n1 + n2);
    assert Text(s) == s[..n1 + n2 + 1][..n1 + n2];
  }

  /** `wcsncat_utf16`: at most `n` units of the second string, stopping
      at its terminator, appended to the first, then a terminator in any
      case.  The loop tests the source unit before the count, so it reads
      one unit past the `n` it copies. */
  method WcsNCat(s1: array<Unit>, s2: seq<Unit>, n: nat)
    requires Terminated(s1[..]) && Readable(s2, n + 1)
    requires Len(s1[..]) + BoundedLen(s2, n) < s1.Length
    modifies s1
    ensures var m, k := old(s1[..]), BoundedLen(s2, n);
      s1[..] == m[..Len(m)] + s2[..k] + [Nul] + m[Len(m) + k + 1..]
    ensures Terminated(s1[..]) && Text(s1[..]) == Text(old(s1[..])) + s2[..BoundedLen(s2, n)]
  {
    ghost var s0 := s1[..];
    var p := 0;
    while s1[p] != Nul
      invariant p <= Len(s0)
      decreases Len(s0) - p
    {
      p := p + 1;
    }
    assert p == Len(s0);
    ReadablePast(s2, n);
    var q, r, m := p, 0, n;
    while s2[r] != Nul && m > 0
      invariant q == p + r && r + m == n && r <= BoundedLen(s2, n)
      invariant forall k :: 0 <= k < p ==> s1[k] == s0[k]
      invariant forall k :: 0 <= k < r ==> s1[p + k] == s2[k]
      invariant forall k :: q <= k < s1.Length ==> s1[k] == s0[k]
      decreases m
    {
      s1[q] := s2[r];
      q, r, m := q + 1, r + 1, m - 1;
    }
    assert r == BoundedLen(s2, n);
    s1[q] := Nul;
    assert forall k :: 0 <= k < r ==> s1[..][p + k] == s2[..r][k];
    NCatText(s1[..], s0, s2[..r], p);
  }

  /** Memory readable for `n + 1` units holds the unit after the first
      `n` (or after the text, when it is shorter). */
  lemma ReadablePast(s: seq<Unit>, n: nat)
    requires Readable(s, n + 1)
    ensures BoundedLen(s, n) < |s|
  {
    if n + 1 > |s| {
      var k :| 0 <= k < |s| && s[k] == Nul;
      assert BoundedLen(s, n) <= k;
    }
  }

  lemma NCatText(s: seq<Unit>, s1: seq<Unit>, t: seq<Unit>, n1: nat)
    requires Terminated(s1) && n1 == Len(s1) && Nul !in t
    requires |s| == |s1| && n1 + |t| < |s| && s[n1 + |t|] == Nul
    requires forall k :: 0 <= k < n1 ==> s[k] == s1[k]
    requires forall k :: 0 <= k < |t| ==> s[n1 + k] == t[k]
    requires forall k :: n1 + |t| < k < |s| ==> s[k] == s1[k]
    ensures s == s1[..n1] + t + [Nul] + s1[n1 + |t| + 1..]
    ensures Terminated(s) && Text(s) == Text(s1) + t
  {
    NCatLayout(s, s1, t, n1);
    forall k | 0 <= k < n1 + |t|
      ensures s[k] != Nul
    {
      if k < n1 {
        assert s[k] == s1[k];
      } else {
        assert s[k] == t[k - n1];
      }
    }
    LenIs(s, n1 + |t|);
    assert Text(s) == s[..n1 + |t|];
    assert Text(s1) == s1[..n1];
    assert s[..n1 + |t|] == (s1[..n1] + t + [Nul] + s1[n1 + |t| + 1..])[..n1 + |t|];
  }

  /** The memory `wcsncat_utf16` leaves, unit by unit. */
  lemma NCatLayout(s: seq<Unit>, s1: seq<Unit>, t: seq<Unit>, n1: nat)
    requires |s| == |s1| && n1 + |t| < |s| && s[n1 + |t|] == Nul
    requires forall k :: 0 <= k < n1 ==> s[k] == s1[k]
    requires forall k :: 0 <= k < |t| ==> s[n1 + k] == t[k]
    requires forall k :: n1 + |t| < k < |s| ==> s[k] == s1[k]
    ensures s == s1[..n1] + t + [Nul] + s1[n1 + |t| + 1..]
  {
    var m := s1[..n1] + t + [Nul] + s1[n1 + |t| + 1..];
    forall k | 0 <= k < |s|
      ensures s[k] == m[k]
    {
      if k < n1 {
      } else if k < n1 + |t| {
        assert s[n1 + (k - n1)] == t[k - n1];
      } else if k > n1 + |t| {
      }
    }
  }

  /** `wcscmp_utf16`: zero for identical pointers, otherwise the
      difference of the first pair of units that differ, or zero when the
      strings end together: the value `uc_cmp` returns. */
  method WcsCmp(s1: seq<Unit>, s2: seq<Unit>, samePointer: bool) returns (r: int)
    requires Terminated(s1) && Terminated(s2)
    requires samePointer ==> s1 == s2
    ensures r == Cmp(s1, s2)
    ensures r == 0 <==> Text(s1) == Text(s2)
  {
    if samePointer {
      return 0;
    }
    var i := 0;
    while s1[i] == s2[i]
      invariant i <= Len(s1) && i <= Len(s2)
      invariant Terminated(s1[i..]) && Terminated(s2[i..])
      invariant Cmp(s1[i..], s2[i..]) == Cmp(s1, s2)
      decreases Len(s1) - i
    {
      if s1[i] == Nul {
        return 0;
      }
      CmpStep(s1, s2, i);
      i := i + 1;
    }
    r := s1[i] as int - s2[i] as int;
  }

  lemma CmpStep(s1: seq<Unit>, s2: seq<Unit>, i: nat)
    requires Terminated(s1) && Terminated(s2)
    requires i < Len(s1) && i <= Len(s2) && s1[i] == s2[i]
    ensures Terminated(s1[i..]) && Terminated(s2[i..])
    ensures Terminated(s1[i + 1..]) && Terminated(s2[i + 1..])
    ensures Cmp(s1[i..], s2[i..]) == Cmp(s1[i + 1..], s2[i + 1..])
  {
    assert s1[i..][Len(s1) - i] == Nul;
    assert s2[i..][Len(s2) - i] == Nul;
    assert s1[i..][1..] == s1[i + 1..];
    assert s2[i..][1..] == s2[i + 1..];
    assert s1[i + 1..][Len(s1) - i - 1] == Nul;
    assert Len(s2) > i by {
      assert s2[i] == s1[i] && s1[i] != Nul;
    }
    assert s2[i + 1..][Len(s2) - i - 1] == Nul;
  }

  /** The byte `(char)` keeps of a unit: its low eight bits. */
  function LowByte(u: Unit): Byte
  {
    u % 0x100
  }

  /** The low byte of every unit. */
  function Narrow(w: seq<Unit>): (r: seq<Byte>)
    ensures |r| == |w|
    ensures forall k :: 0 <= k < |w| ==> r[k] == LowByte(w[k])
  {
    if w == [] then [] else [LowByte(w[0])] + Narrow(w[1..])
  }

  /** The low bytes as units, for finding the first zero byte. */
  function Lows(w: seq<Unit>): (r: seq<Unit>)
    ensures |r| == |w|
    ensures forall k :: 0 <= k < |w| ==> r[k] == LowByte(w[k])
  {
    seq(|w|, k requires 0 <= k < |w| => LowByte(w[k]) as Unit)
  }

  /** `wcstombs_utf16`: with `n == 0`, nothing is stored and the result
      is the length of the source.  Otherwise the low byte of each unit
      is stored, at most `n` of them, stopping after a zero byte, which a
      unit such as 0x0100 produces before the terminator; the result is
      the number of bytes stored before that zero byte, `n` when there
      was none. */
  method WcsToMbs(s: array<Byte>, pwcs: seq<Unit>, n: nat) returns (r: nat)
    requires n == 0 ==> Terminated(pwcs)
    requires n > 0 ==> Readable(Lows(pwcs), n)
    requires n > 0 ==> NCpyCount(Lows(pwcs), n) <= s.Length
    modifies s
    ensures n == 0 ==> r == Len(pwcs) && s[..] == old(s[..])
    ensures n > 0 ==> var lows := Lows(pwcs);
      var w := NCpyCount(lows, n);
      && r == BoundedLen(lows, n)
      && (forall k :: 0 <= k < w ==> s[k] == LowByte(pwcs[k]))
      && (forall k :: w <= k < s.Length ==> s[k] == old(s[k]))
  {
    if n == 0 {
      r := WcsLen(pwcs);
      return;
    }
    r := StoreLowBytes(s, pwcs, n);
  }

  /** The storing loop of `wcstombs_utf16`, counting `n` down. */
  method StoreLowBytes(s: array<Byte>, pwcs: seq<Unit>, n: nat) returns (r: nat)
    requires n > 0 && Readable(Lows(pwcs), n)
    requires NCpyCount(Lows(pwcs), n) <= s.Length
    modifies s
    ensures r == BoundedLen(Lows(pwcs), n)
    ensures forall k :: 0 <= k < NCpyCount(Lows(pwcs), n) ==> s[k] == LowByte(pwcs[k])
    ensures forall k :: NCpyCount(Lows(pwcs), n) <= k < s.Length ==> s[k] == old(s[k])
  {
    ghost var lows := Lows(pwcs);
    ghost var bound := BoundedLen(lows, n);
    ghost var s0 := s[..];
    var i: int := n;
    var j := 0;
    while true
      invariant j + i == n && 0 <= i && j <= bound
      invariant forall k :: 0 <= k < j ==> s[k] == LowByte(pwcs[k])
      invariant forall k :: j <= k < s.Length ==> s[k] == s0[k]
      decreases i
    {
      i := i - 1;
      if i < 0 {
        // the count ran out: `n` bytes stored, none of them zero
        assert j == n == bound && NCpyCount(lows, n) == j;
        return n - i - 1;
      }
      var b := LowByte(pwcs[j]);
      s[j] := b;
      j := j + 1;
      if b == 0 {
        StopAtNul(lows, n, j - 1);
        return n - i - 1;
      }
    }
  }

  /** A NUL at `k`, with none before it within `n`, ends the bounded
      string there. */
  lemma StopAtNul(s: seq<Unit>, n: nat, k: nat)
    requires Readable(s, n) && k < n && k < |s| && s[k] == Nul && k <= BoundedLen(s, n)
    ensures BoundedLen(s, n) == k && NCpyCount(s, n) == k + 1
  {
  }

  /** `mbstowcs_utf16`: each byte widened the way `char` converts to
      `wchar_t`, at most `n` of them, stopping after the NUL.  The result
      is the length of the string when its NUL came within `n` bytes, and
      `n + 1` when it did not. */
  method MbsToWcs(pwcs: array<Unit>, s: seq<Byte>, n: nat, pl: FormatSpec.Platform) returns (r: nat)
    requires Readable(FormatSpec.AsUnits(s), n)
    requires NCpyCount(FormatSpec.AsUnits(s), n) <= pwcs.Length
    modifies pwcs
    ensures var k, w := BoundedLen(FormatSpec.AsUnits(s), n), NCpyCount(FormatSpec.AsUnits(s), n);
      && r == (if k < n then k else n + 1)
      && (forall j :: 0 <= j < w ==> pwcs[j] == FormatSpec.Widen(pl, s[j]))
      && (forall j :: w <= j < pwcs.Length ==> pwcs[j] == old(pwcs[j]))
  {
    ghost var units := FormatSpec.AsUnits(s);
    ghost var bound := BoundedLen(units, n);
    var i: int := n;
    var j := 0;
    while true
      invariant j + i == n && 0 <= i && j <= bound
      invariant forall k :: 0 <= k < j ==> pwcs[k] == FormatSpec.Widen(pl, s[k])
      invariant forall k :: j <= k < pwcs.Length ==> pwcs[k] == old(pwcs[k])
      decreases i
    {
      i := i - 1;
      if i < 0 {
        break;
      }
      var u := FormatSpec.Widen(pl, s[j]);
      pwcs[j] := u;
      j := j + 1;
      if u == Nul {
        assert units[j - 1] == Nul;
        assert bound == j - 1 && NCpyCount(units, n) == j;
        return n - i - 1;
      }
    }
    assert j == n && bound == n && NCpyCount(units, n) == j;
    r := n - i;
  }

  /** Storing the low byte of a widened byte gives the byte back, on
      either kind of `char`: a string `mbstowcs_utf16` produced narrows
      back to the bytes it came from. */
  lemma NarrowWiden(pl: FormatSpec.Platform, bs: seq<Byte>)
    ensures Narrow(FormatSpec.WidenAll(pl, bs)) == bs
  {
    var w := FormatSpec.WidenAll(pl, bs);
    forall k | 0 <= k < |bs|
      ensures Narrow(w)[k] == bs[k]
    {
      assert w[k] == FormatSpec.Widen(pl, bs[k]);
    }
  }

  /** Widening the low byte gives the unit back exactly for the units a
      byte can widen to: below 0x100 when `char` is unsigned, and below
      0x80 or from 0xFF80 on when it is signed. */
  lemma WidenNarrow(pl: FormatSpec.Platform, u: Unit)
    ensures FormatSpec.Widen(pl, LowByte(u)) == u <==>
              if pl.charSigned then u < 0x80 || u >= 0xFF80 else u < 0x100
  {
  }

  /** The memory from `p` on holds a terminator. */
  predicate NulFrom(s: seq<Unit>, p: nat) {
    exists k :: p <= k < |s| && s[k] == Nul
  }

  /** The first terminator at or after `p`. */
  function EndFrom(s: seq<Unit>, p: nat): (e: nat)
    requires NulFrom(s, p)
    ensures p <= e < |s| && s[e] == Nul
    ensures forall k :: p <= k < e ==> s[k] != Nul
    decreases |s| - p
  {
    if s[p] == Nul then p else EndFrom(s, p + 1)
  }

  /** A unit of the delimiter string proper (the terminator excluded). */
  predicate IsDelim(c: Unit, delim: seq<Unit>)
    requires Terminated(delim)
  {
    c in Text(delim)
  }

  /** The span of delimiters at `p`: the first unit at or after `p` that
      is not one, possibly the terminator. */
  function SkipDelims(s: seq<Unit>, p: nat, delim: seq<Unit>): (t: nat)
    requires NulFrom(s, p) && Terminated(delim)
    ensures p <= t <= EndFrom(s, p) && !IsDelim(s[t], delim)
    ensures forall k :: p <= k < t ==> IsDelim(s[k], delim)
    decreases EndFrom(s, p) - p
  {
    if IsDelim(s[p], delim) then
      assert s[p] != Nul;
      SkipDelims(s, p + 1, delim)
    else p
  }

  /** The end of the token at `t`: the first unit at or after `t` that is
      a delimiter or the terminator. */
  function TokenEnd(s: seq<Unit>, t: nat, delim: seq<Unit>): (e: nat)
    requires NulFrom(s, t) && Terminated(delim)
    ensures t <= e <= EndFrom(s, t) && (s[e] == Nul || IsDelim(s[e], delim))
    ensures forall k :: t <= k < e ==> s[k] != Nul && !IsDelim(s[k], delim)
    decreases EndFrom(s, t) - t
  {
    if s[t] == Nul || IsDelim(s[t], delim) then t else TokenEnd(s, t + 1, delim)
  }

  /** One call of `wcstok_utf16` that starts scanning at `p`: the token's
      position, the saved position for the next call and the memory
      afterwards. */
  datatype TokResult = TokResult(tok: Option<nat>, last: Option<nat>, mem: seq<Unit>)

  function TokStep(s: seq<Unit>, p: nat, delim: seq<Unit>): (r: TokResult)
    requires NulFrom(s, p) && Terminated(delim)
  {
    var t := SkipDelims(s, p, delim);
    if s[t] == Nul then TokResult(None, None, s)
    else CutAt(s, t, TokenEnd(s, t + 1, delim))
  }

  /** The token at `t` whose scan stopped at `e`: a delimiter there is
      overwritten by NUL and scanning resumes after it. */
  function CutAt(s: seq<Unit>, t: nat, e: nat): TokResult
    requires e < |s|
  {
    if s[e] == Nul then TokResult(Some(t), None, s)
    else TokResult(Some(t), Some(e + 1), s[e := Nul])
  }

  /** What one call finds: the token starts at the first unit from `p`
      on that is not a delimiter; no token means only delimiters were
      left, and then nothing changes. */
  lemma TokStepFinds(s: seq<Unit>, p: nat, delim: seq<Unit>)
    requires NulFrom(s, p) && Terminated(delim)
    ensures var r := TokStep(s, p, delim);
      && (r.tok.None? <==> forall k :: p <= k < EndFrom(s, p) ==> IsDelim(s[k], delim))
      && (r.tok.None? ==> r.last.None? && r.mem == s)
      && (r.tok.Some? ==>
            && p <= r.tok.value < EndFrom(s, p)
            && !IsDelim(s[r.tok.value], delim)
            && forall k :: p <= k < r.tok.value ==> IsDelim(s[k], delim))
  {
    var t := SkipDelims(s, p, delim);
    if s[t] == Nul {
      assert EndFrom(s, p) == t;
    } else {
      assert t < EndFrom(s, p);
    }
  }

  /** A call that finds only delimiters from `p` on. */
  lemma TokStepNone(s: seq<Unit>, p: nat, delim: seq<Unit>, t: nat)
    requires NulFrom(s, p) && Terminated(delim)
    requires t == SkipDelims(s, p, delim) && s[t] == Nul
    ensures TokStep(s, p, delim) == TokResult(None, None, s)
  {
  }

  /** A terminator after `p` lies after any non-NUL unit `t` past `p`. */
  lemma NulPast(s: seq<Unit>, p: nat, t: nat)
    requires NulFrom(s, p) && p <= t < |s| && s[t] != Nul && t <= EndFrom(s, p)
    ensures NulFrom(s, t + 1)
  {
    assert s[EndFrom(s, p)] == Nul;
  }

  /** The shape of a call that finds a token at `t` whose loop stops at `e`. */
  lemma TokStepShape(s: seq<Unit>, p: nat, delim: seq<Unit>, t: nat, e: nat)
    requires NulFrom(s, p) && Terminated(delim)
    requires t == SkipDelims(s, p, delim) && s[t] != Nul
    requires NulFrom(s, t + 1) && e == TokenEnd(s, t + 1, delim)
    ensures var r := TokStep(s, p, delim);
      && r.tok == Some(t)
      && (s[e] == Nul ==> r.last.None? && r.mem == s)
      && (s[e] != Nul ==> r.last == Some(e + 1) && r.mem == s[e := Nul])
  {
    assert TokStep(s, p, delim) == CutAt(s, t, e);
  }

  /** Cutting the memory at `e` makes the run from `t` a string of length
      `e - t` when no unit of it was NUL. */
  lemma TokCut(s: seq<Unit>, m: seq<Unit>, t: nat, e: nat)
    requires t < e < |s| && |m| == |s| && m[e] == Nul
    requires forall k :: 0 <= k < |s| && k != e ==> m[k] == s[k]
    requires forall k :: t <= k < e ==> s[k] != Nul
    ensures t < |m| && Terminated(m[t..]) && Len(m[t..]) == e - t
  {
    forall k | 0 <= k < e - t
      ensures m[t..][k] != Nul
    {
      assert m[t..][k] == m[t + k] == s[t + k];
    }
    LenIs(m[t..], e - t);
  }

  /** The token a call returns ends where the token loop stopped: the
      unit there is NUL afterwards, and none before it from the token on. */
  lemma TokLen(s: seq<Unit>, p: nat, delim: seq<Unit>)
    requires NulFrom(s, p) && Terminated(delim) && TokStep(s, p, delim).tok.Some?
    ensures var r := TokStep(s, p, delim);
      var t := r.tok.value;
      && t < |r.mem| && Terminated(r.mem[t..])
      && t + Len(r.mem[t..]) == TokenEnd(s, t + 1, delim)
  {
    var r := TokStep(s, p, delim);
    var t := SkipDelims(s, p, delim);
    assert s[t] != Nul;
    var e := TokenEnd(s, t + 1, delim);
    TokStepShape(s, p, delim, t, e);
    TokCut(s, r.mem, t, e);
  }

  /** Overwriting a unit before the first terminator from `p` on keeps a
      terminator after it. */
  lemma NulAfterCut(s: seq<Unit>, p: nat, e: nat)
    requires NulFrom(s, p) && p <= e <= EndFrom(s, p) && s[e] != Nul
    ensures NulFrom(s[e := Nul], e + 1)
  {
    var end := EndFrom(s, p);
    assert e < end && s[e := Nul][end] == Nul;
  }

  /** The facts of `TokStepCuts`, for a memory `m` cut at `e` and a saved
      position `last`. */
  lemma CutFacts(s: seq<Unit>, m: seq<Unit>, last: Option<nat>, t: nat, e: nat, delim: seq<Unit>)
    requires Terminated(delim) && t < e < |s| && |m| == |s| && m[e] == Nul
    requires forall k :: 0 <= k < |s| && k != e ==> m[k] == s[k]
    requires forall k :: t <= k < e ==> s[k] != Nul && !IsDelim(s[k], delim)
    requires last.Some? ==> last.value == e + 1 && NulFrom(m, e + 1)
    ensures t < |m| && Terminated(m[t..]) && 0 < Len(m[t..])
    ensures forall k :: t <= k < t + Len(m[t..]) ==> m[k] == s[k] && !IsDelim(s[k], delim)
    ensures forall k :: 0 <= k < |s| && k != t + Len(m[t..]) ==> m[k] == s[k]
    ensures last.Some? ==> last.value == t + Len(m[t..]) + 1 && NulFrom(m, last.value)
  {
    TokCut(s, m, t, e);
  }

  /** What one call leaves: the token, a non-empty run of units that are
      neither NUL nor delimiters, becomes a terminated string of its own;
      the memory changes at most at the unit after it, and the saved
      position is just past that unit and still terminated. */
  lemma TokStepCuts(s: seq<Unit>, p: nat, delim: seq<Unit>)
    requires NulFrom(s, p) && Terminated(delim) && TokStep(s, p, delim).tok.Some?
    ensures var r := TokStep(s, p, delim);
      var t := r.tok.value;
      && |r.mem| == |s|
      && t < |r.mem| && Terminated(r.mem[t..]) && 0 < Len(r.mem[t..])
      && (forall k :: t <= k < t + Len(r.mem[t..]) ==> r.mem[k] == s[k] && !IsDelim(s[k], delim))
      && (forall k :: 0 <= k < |s| && k != t + Len(r.mem[t..]) ==> r.mem[k] == s[k])
      && (r.last.Some? ==> r.last.value == t + Len(r.mem[t..]) + 1 && NulFrom(r.mem, r.last.value))
  {
    var r := TokStep(s, p, delim);
    var t := SkipDelims(s, p, delim);
    assert s[t] != Nul;
    var e := TokenEnd(s, t + 1, delim);
    TokStepShape(s, p, delim, t, e);
    forall k | t <= k < e
      ensures s[k] != Nul && !IsDelim(s[k], delim)
    {
      if k == t {
      }
    }
    if s[e] != Nul {
      NulAfterCut(s, t + 1, e);
    }
    CutFacts(s, r.mem, r.last, t, e, delim);
  }

  /** `wcstok_utf16` on the buffer `buf`: scanning starts at `s`, or at
      the saved position `last` when `s` is NULL; both NULL gives NULL.
      The result is the token and the new saved position, and the buffer
      is the memory the step leaves. */
  method WcsTok(buf: array<Unit>, s: Option<nat>, delim: seq<Unit>, last: Option<nat>)
      returns (tok: Option<nat>, next: Option<nat>)
    requires Terminated(delim)
    requires s.Some? ==> NulFrom(buf[..], s.value)
    requires s.None? && last.Some? ==> NulFrom(buf[..], last.value)
    modifies buf
    ensures s.None? && last.None? ==> tok.None? && next.None? && buf[..] == old(buf[..])
    ensures s.Some? || last.Some? ==>
      var r := TokStep(old(buf[..]), if s.Some? then s.value else last.value, delim);
      tok == r.tok && next == r.last && buf[..] == r.mem
  {
    if s.None? && last.None? {
      return None, None;
    }
    var p0 := if s.Some? then s.value else last.value;
    ghost var s0 := buf[..];
    var t := SkipSpan(buf[..], p0, delim);
    if buf[t] == Nul {
      TokStepNone(s0, p0, delim, t);
      return None, None;
    }
    NulPast(s0, p0, t);
    var e := ScanToken(buf[..], t + 1, delim);
    TokStepShape(s0, p0, delim, t, e);
    if buf[e] == Nul {
      return Some(t), None;
    }
    buf[e] := Nul;
    assert buf[..] == s0[e := Nul];
    return Some(t), Some(e + 1);
  }

  /** The `cont:` loop of `wcstok_utf16`: steps over delimiters. */
  method SkipSpan(s: seq<Unit>, p0: nat, delim: seq<Unit>) returns (t: nat)
    requires NulFrom(s, p0) && Terminated(delim)
    ensures t == SkipDelims(s, p0, delim)
  {
    var p := p0;
    ghost var end := EndFrom(s, p0);
    while true
      invariant p0 <= p <= end && s[end] == Nul && NulFrom(s, p)
      invariant SkipDelims(s, p, delim) == SkipDelims(s, p0, delim)
      decreases end - p
    {
      var c := s[p];
      var isDelim := Spans(c, delim);
      if !isDelim {
        return p;
      }
      assert c != Nul;
      p := p + 1;
    }
  }

  /** The token loop of `wcstok_utf16`: steps up to a delimiter or the
      terminator. */
  method ScanToken(s: seq<Unit>, p0: nat, delim: seq<Unit>) returns (e: nat)
    requires NulFrom(s, p0) && Terminated(delim)
    ensures e == TokenEnd(s, p0, delim)
  {
    var p := p0;
    ghost var end := EndFrom(s, p0);
    while true
      invariant p0 <= p <= end && s[end] == Nul && NulFrom(s, p)
      invariant TokenEnd(s, p, delim) == TokenEnd(s, p0, delim)
      decreases end - p
    {
      var c := s[p];
      var stop := Stops(c, delim);
      if stop {
        return p;
      }
      p := p + 1;
    }
  }

  /** The first loop over the delimiters: whether `c` is one of them. */
  method Spans(c: Unit, delim: seq<Unit>) returns (b: bool)
    requires Terminated(delim)
    ensures b == IsDelim(c, delim)
  {
    var j := 0;
    while delim[j] != Nul
      invariant j <= Len(delim)
      invariant c !in delim[..j]
      decreases Len(delim) - j
    {
      if c == delim[j] {
        assert Text(delim)[j] == c;
        return true;
      }
      j := j + 1;
    }
    assert delim[..j] == Text(delim);
    return false;
  }

  /** The second loop over the delimiters, which compares their
      terminator too: whether `c` ends a token. */
  method Stops(c: Unit, delim: seq<Unit>) returns (b: bool)
    requires Terminated(delim)
    ensures b == (c == Nul || IsDelim(c, delim))
  {
    var j := 0;
    while true
      invariant j <= Len(delim)
      invariant c !in delim[..j]
      decreases Len(delim) - j
    {
      var sc := delim[j];
      if sc == c {
        if c != Nul {
          assert Text(delim)[j] == c;
        }
        return true;
      }
      if sc == Nul {
        break;
      }
      j := j + 1;
    }
    assert delim[..j] == Text(delim);
    return false;
  }
}
