/** The bit-range write and read loops of common/pof_basefunc.c. Positions and lengths are in bits.
    A destination pointer is an array and a byte index into it; a const source is passed as a value. */
module Bitfield {
  import opened Bits

  /** The number of bytes that hold n bits. */
  function CeilBytes(n: nat): nat {
    (n + 7) / 8
  }

  /** The lengths the write loop is sound for: a range shorter than a byte must not cross a byte boundary,
      because the loop test would then compare an unsigned count with a negative number. */
  predicate Admissible(p: nat, n: nat) {
    n >= 8 || p % 8 + n <= 8
  }

  /** The bits behind a written range that the last byte's unmasked term can still set: those of the last
      byte that lie before the start position's offset in a byte, and only when the range spans bytes. */
  predicate Leaks(p: nat, n: nat, i: nat) {
    n > 8 - p % 8 && p + n <= i && i / 8 == (p + n - 1) / 8 && i % 8 < p % 8
  }

  /** One bit after the write loop has covered [p, p + n) of d with v. */
  function CoveredBit(d: seq<bool>, v: seq<bool>, p: nat, n: nat, i: nat): bool
    requires i < |d| && n <= |v|
  {
    if p <= i < p + n then v[i - p]
    else if Leaks(p, n, i) && i - p < |v| then d[i] || v[i - p]
    else d[i]
  }

  /** The first k bits after the write loop. */
  function CoveredBits(d: seq<bool>, v: seq<bool>, p: nat, n: nat, k: nat): (r: seq<bool>)
    requires k <= |d| && n <= |v|
    ensures |r| == k
  {
    if k == 0 then [] else CoveredBits(d, v, p, n, k - 1) + [CoveredBit(d, v, p, n, k - 1)]
  }

  /** What the write loop leaves in the bits d after covering [p, p + n) with the bits v. */
  function Covered(d: seq<bool>, v: seq<bool>, p: nat, n: nat): (r: seq<bool>)
    requires p + n <= |d| && n <= |v|
    ensures |r| == |d|
  {
    CoveredBits(d, v, p, n, |d|)
  }

  lemma {:induction false} CoveredBitsAt(d: seq<bool>, v: seq<bool>, p: nat, n: nat, k: nat, i: nat)
    requires i < k <= |d| && n <= |v|
    ensures CoveredBits(d, v, p, n, k)[i] == CoveredBit(d, v, p, n, i)
  {
    if i < k - 1 { CoveredBitsAt(d, v, p, n, k - 1, i); }
  }

  /** The bits before, inside and behind a covered range. */
  lemma CoveredParts(d: seq<bool>, v: seq<bool>, p: nat, n: nat)
    requires p + n <= |d| && n <= |v|
    ensures Covered(d, v, p, n)[..p] == d[..p]
    ensures Covered(d, v, p, n)[p..p + n] == v[..n]
  {
    var r := Covered(d, v, p, n);
    forall i | 0 <= i < p + n
      ensures r[i] == if i < p then d[i] else v[i - p]
    {
      CoveredBitsAt(d, v, p, n, |d|, i);
    }
  }

  /** The bits d with exactly [p, p + |v|) replaced by v. */
  function Replaced(d: seq<bool>, v: seq<bool>, p: nat): (r: seq<bool>)
    requires p + |v| <= |d|
    ensures |r| == |d|
  {
    d[..p] + v + d[p + |v|..]
  }

  /** Whole bytes outside the range are untouched. */
  lemma CoveredOutside(d: seq<bool>, v: seq<bool>, p: nat, n: nat, lo: nat, hi: nat)
    requires p + n <= |d| && n <= |v| && 8 * lo <= p && p + n <= 8 * hi <= |d|
    ensures Covered(d, v, p, n)[..8 * lo] == d[..8 * lo]
    ensures Covered(d, v, p, n)[8 * hi..] == d[8 * hi..]
  {
    var r := Covered(d, v, p, n);
    forall i | 0 <= i < 8 * lo || 8 * hi <= i < |d|
      ensures r[i] == d[i]
    {
      CoveredBitsAt(d, v, p, n, |d|, i);
      if Leaks(p, n, i) { LeakInLastByte(p, n, i); }
    }
  }

  /** The write replaces exactly its range if and only if every leaking source bit is zero or meets a one. */
  lemma CoveredIsReplaced(d: seq<bool>, v: seq<bool>, p: nat, n: nat)
    requires p + n <= |d| && n <= |v|
    ensures Covered(d, v, p, n) == Replaced(d, v[..n], p) <==>
            forall i :: 0 <= i < |d| && Leaks(p, n, i) && i - p < |v| && v[i - p] ==> d[i]
  {
    var c, r := Covered(d, v, p, n), Replaced(d, v[..n], p);
    forall i | 0 <= i < |d|
      ensures c[i] == CoveredBit(d, v, p, n, i) && r[i] == if p <= i < p + n then v[i - p] else d[i]
    {
      CoveredBitsAt(d, v, p, n, |d|, i);
    }
    if i :| 0 <= i < |d| && Leaks(p, n, i) && i - p < |v| && v[i - p] && !d[i] {
      assert c[i] != r[i];
    } else {
      assert c == r;
    }
  }

  /** Leaking source bits lie in the source's own last byte. */
  lemma LeakInLastByte(p: nat, n: nat, i: nat)
    requires Leaks(p, n, i)
    ensures n <= i - p < 8 * CeilBytes(n)
    ensures forall hi :: p + n <= 8 * hi ==> i < 8 * hi
  {
    var x, m := p % 8, (p + n - 1) % 8;
    assert i - p - n == i % 8 - m - 1;
    assert (p + n) % 8 == (x + n) % 8;
  }

  /** A source that is zero between its length and the end of that byte replaces exactly the range. */
  lemma ZeroTailCover(d: seq<bool>, v: seq<bool>, p: nat, n: nat)
    requires p + n <= |d| && n <= |v|
    requires forall j :: n <= j < 8 * CeilBytes(n) && j < |v| ==> !v[j]
    ensures Covered(d, v, p, n) == Replaced(d, v[..n], p)
  {
    forall i | 0 <= i < |d| && Leaks(p, n, i) && i - p < |v|
      ensures !v[i - p]
    {
      LeakInLastByte(p, n, i);
    }
    CoveredIsReplaced(d, v, p, n);
  }

  /** A buffer whose bytes [lo, hi) were rewritten to the bits t, where t agrees with the old buffer elsewhere. */
  lemma FromBytes(was: seq<byte>, now: seq<byte>, t: seq<bool>, lo: nat, hi: nat)
    requires lo <= hi <= |now| == |was| && |t| == 8 * |was|
    requires forall k :: lo <= k < hi ==> now[k] == Octet(t, k)
    requires forall k :: 0 <= k < |was| && !(lo <= k < hi) ==> now[k] == was[k]
    requires t[..8 * lo] == BitsOf(was)[..8 * lo] && t[8 * hi..] == BitsOf(was)[8 * hi..]
    ensures BitsOf(now) == t
  {
    forall i | 0 <= i < |t|
      ensures BitsOf(now)[i] == t[i]
    {
      var k, j := i / 8, i % 8;
      assert i == 8 * k + j;
      BitsOfAt(now, k, j);
      BitsOfAt(was, k, j);
      if lo <= k < hi {
        assert now[k] == t[8 * k..8 * k + 8];
      }
    }
  }

  /** Covered at bit j of byte q + k, for a range that starts at bit x of byte q. */
  lemma CoveredAt(d: seq<bool>, v: seq<bool>, q: nat, x: nat, n: nat, k: nat, j: nat)
    requires x < 8 && j < 8 && 8 * q + x + n <= |d| && n <= |v| && 8 * (q + k) + j < |d|
    ensures Covered(d, v, 8 * q + x, n)[8 * (q + k) + j] ==
            if x <= 8 * k + j < x + n then v[8 * k + j - x]
            else if x + n > 8 && x + n <= 8 * k + j && k == (x + n - 1) / 8 && j < x && 8 * k + j - x < |v|
                 then d[8 * (q + k) + j] || v[8 * k + j - x]
            else d[8 * (q + k) + j]
  {
    CoveredBitsAt(d, v, 8 * q + x, n, |d|, 8 * (q + k) + j);
    assert (8 * q + x) % 8 == x;
    assert (8 * (q + k) + j) / 8 == q + k && (8 * (q + k) + j) % 8 == j;
    assert (8 * q + x + n - 1) / 8 == q + (x + n - 1) / 8;
  }

  /** Bit j of the k-th destination byte is source bit 8 * k + j - x, found in source byte k or k - 1. */
  lemma SourceBit(value: seq<byte>, x: nat, k: nat, j: nat)
    requires x < 8 && j < 8 && k <= |value|
    ensures x <= j && k < |value| ==> BitsOf(value)[8 * k + j - x] == value[k][j - x]
    ensures j < x && 0 < k ==> BitsOf(value)[8 * k + j - x] == value[k - 1][8 - x + j]
  {
    if x <= j && k < |value| { BitsOfAt(value, k, j - x); }
    if j < x && 0 < k { BitsOfAt(value, k - 1, 8 - x + j); }
  }

  /** The one-byte branch: bits outside [x, after) are kept. */
  function ShortByte(was: byte, v0: byte, x: nat, after: nat): byte
    requires x < 8 && after <= 8
  {
    Or(Or(And(was, MoveBitLeft(ONES, 8 - x)), And(MoveBitRight(v0, x), MoveBitLeft(ONES, 8 - after))),
       And(was, MoveBitRight(ONES, after)))
  }

  function HeadByte(was: byte, v0: byte, x: nat): byte
    requires x < 8
  {
    Or(And(was, MoveBitLeft(ONES, 8 - x)), MoveBitRight(v0, x))
  }

  function MiddleByte(v0: byte, v1: byte, x: nat): byte
    requires x < 8
  {
    Or(MoveBitLeft(v0, 8 - x), MoveBitRight(v1, x))
  }

  /** The last byte takes `rest` new bits; the shifted-in v0 part is not masked and may reach behind them. */
  function LastByte(was: byte, v0: byte, v1: byte, x: nat, rest: nat): byte
    requires x < 8 && 1 <= rest <= 8
  {
    Or(Or(MoveBitLeft(v0, 8 - x), And(MoveBitRight(v1, x), MoveBitLeft(ONES, 8 - rest))),
       And(was, MoveBitRight(ONES, rest)))
  }

  lemma ShortTarget(was: seq<byte>, value: seq<byte>, q: nat, x: nat, n: nat, after: nat)
    requires q < |was| && |value| >= 1 && x < 8 && x + n <= 8
    requires after == x + n
    ensures ShortByte(was[q], value[0], x, after) == Covered(BitsOf(was), BitsOf(value), 8 * q + x, n)[8 * q..8 * q + 8]
  {
    forall j | 0 <= j < 8
      ensures ShortByte(was[q], value[0], x, after)[j] == Covered(BitsOf(was), BitsOf(value), 8 * q + x, n)[8 * q + j]
    {
      CoveredAt(BitsOf(was), BitsOf(value), q, x, n, 0, j);
      SourceBit(value, x, 0, j);
      BitsOfAt(was, q, j);
    }
  }

  lemma HeadTarget(was: seq<byte>, value: seq<byte>, q: nat, x: nat, n: nat)
    requires x < 8 && 8 < x + n && 8 * q + x + n <= 8 * |was| && n <= 8 * |value|
    ensures HeadByte(was[q], value[0], x) == Covered(BitsOf(was), BitsOf(value), 8 * q + x, n)[8 * q..8 * q + 8]
  {
    forall j | 0 <= j < 8
      ensures HeadByte(was[q], value[0], x)[j] == Covered(BitsOf(was), BitsOf(value), 8 * q + x, n)[8 * q + j]
    {
      CoveredAt(BitsOf(was), BitsOf(value), q, x, n, 0, j);
      SourceBit(value, x, 0, j);
      BitsOfAt(was, q, j);
    }
  }

  lemma MiddleTarget(was: seq<byte>, value: seq<byte>, q: nat, x: nat, n: nat, k: nat)
    requires x < 8 && 1 <= k && 8 * k + 8 <= x + n && 8 * q + x + n <= 8 * |was| && n <= 8 * |value| && k < |value|
    ensures MiddleByte(value[k - 1], value[k], x)
         == Covered(BitsOf(was), BitsOf(value), 8 * q + x, n)[8 * (q + k)..8 * (q + k) + 8]
  {
    forall j {:trigger MiddleByte(value[k - 1], value[k], x)[j]} | 0 <= j < 8
      ensures MiddleByte(value[k - 1], value[k], x)[j]
           == Covered(BitsOf(was), BitsOf(value), 8 * q + x, n)[8 * (q + k) + j]
    {
      CoveredAt(BitsOf(was), BitsOf(value), q, x, n, k, j);
      SourceBit(value, x, k, j);
    }
  }

  lemma LastTarget(was: seq<byte>, value: seq<byte>, q: nat, x: nat, n: nat, k: nat, rest: nat)
    requires x < 8 && 1 <= k < |value| && 8 * k + rest == x + n && 1 <= rest <= 8
    requires 8 * q + x + n <= 8 * |was| && n <= 8 * |value|
    ensures LastByte(was[q + k], value[k - 1], value[k], x, rest)
         == Covered(BitsOf(was), BitsOf(value), 8 * q + x, n)[8 * (q + k)..8 * (q + k) + 8]
  {
    forall j {:trigger LastByte(was[q + k], value[k - 1], value[k], x, rest)[j]} | 0 <= j < 8
      ensures LastByte(was[q + k], value[k - 1], value[k], x, rest)[j]
           == Covered(BitsOf(was), BitsOf(value), 8 * q + x, n)[8 * (q + k) + j]
    {
      CoveredAt(BitsOf(was), BitsOf(value), q, x, n, k, j);
      SourceBit(value, x, k, j);
      BitsOfAt(was, q + k, j);
    }
  }

  /** What a length means to the write loop. An empty range at a byte boundary other than bit 0 takes the
      one-byte branch with all eight bits of the mask set, so it writes a whole byte. */
  function EffectiveLen(pos_b: nat, len_b: nat): nat {
    if len_b == 0 && pos_b > 0 && pos_b % 8 == 0 then 8 else len_b
  }

  /** Byte k of a bit string. */
  function Octet(t: seq<bool>, k: nat): byte
    requires 8 * k + 8 <= |t|
  {
    t[8 * k..8 * k + 8]
  }

  /** The first byte that a range over several bytes writes. */
  method FirstByte(was: byte, value: seq<byte>, x: nat, ghost before: seq<byte>, ghost q: nat, ghost n: nat)
    returns (b: byte)
    requires x < 8 && 8 < x + n && 8 * q + x + n <= 8 * |before| && n <= 8 * |value| && before[q] == was
    ensures b == Octet(Covered(BitsOf(before), BitsOf(value), 8 * q + x, n), q)
  {
    b := HeadByte(was, value[0], x);
    HeadTarget(before, value, q, x, n);
  }

  /** The k-th byte behind it. */
  method NextByte(value: seq<byte>, x: nat, k: nat, ghost before: seq<byte>, ghost q: nat, ghost n: nat)
    returns (b: byte)
    requires x < 8 && 1 <= k && 8 * k + 8 <= x + n && 8 * q + x + n <= 8 * |before| && n <= 8 * |value| && k < |value|
    ensures b == Octet(Covered(BitsOf(before), BitsOf(value), 8 * q + x, n), q + k)
  {
    b := MiddleByte(value[k - 1], value[k], x);
    MiddleTarget(before, value, q, x, n, k);
  }

  /** The last byte, which takes the remaining 1 to 8 bits. */
  method FinalByte(was: byte, value: seq<byte>, x: nat, k: nat, rest: nat, ghost before: seq<byte>, ghost q: nat,
                   ghost n: nat)
    returns (b: byte)
    requires x < 8 && 1 <= k < |value| && 8 * k + rest == x + n && 1 <= rest <= 8
    requires 8 * q + x + n <= 8 * |before| && n <= 8 * |value| && before[q + k] == was
    ensures b == Octet(Covered(BitsOf(before), BitsOf(value), 8 * q + x, n), q + k)
  {
    b := LastByte(was, value[k - 1], value[k], x, rest);
    LastTarget(before, value, q, x, n, k, rest);
  }

  /** The branch of pofbf_cover_bit for a range inside one byte, which ends before bit `after` of it. */
  method CoverByte(data: array<byte>, ptr: nat, value: seq<byte>, x: nat, after: nat, ghost n: nat)
    requires x < 8 && after == x + n <= 8 && ptr < data.Length && |value| >= 1
    modifies data
    ensures BitsOf(data[..]) == Covered(old(BitsOf(data[..])), BitsOf(value), 8 * ptr + x, n)
  {
    ghost var was := data[..];
    ghost var t := Covered(BitsOf(was), BitsOf(value), 8 * ptr + x, n);
    data[ptr] := ShortByte(data[ptr], value[0], x, after);
    ShortTarget(was, value, ptr, x, n, after);
    CoveredOutside(BitsOf(was), BitsOf(value), 8 * ptr + x, n, ptr, ptr + 1);
    assert data[ptr] == Octet(t, ptr);
    FromBytes(was, data[..], t, ptr, ptr + 1);
  }

  /** The branch of pofbf_cover_bit for a range over several bytes: the loop ends with 1 to 8 bits to go. */
  method CoverBytes(data: array<byte>, first: nat, value: seq<byte>, x: nat, len_b: nat)
    requires x < 8 && 8 - x < len_b && len_b >= 8
    requires |value| >= CeilBytes(x + len_b) && 8 * first + x + len_b <= 8 * data.Length
    modifies data
    ensures BitsOf(data[..]) == Covered(old(BitsOf(data[..])), BitsOf(value), 8 * first + x, len_b)
  {
    ghost var was := data[..];
    ghost var t := Covered(BitsOf(was), BitsOf(value), 8 * first + x, len_b);
    var ptr := first;
    data[ptr] := FirstByte(data[ptr], value, x, was, first, len_b);
    var vi, done := 0, 8 - x;
    while done + 8 < len_b
      invariant 0 <= vi && ptr == first + vi && done == 8 * (vi + 1) - x < len_b
      invariant forall k :: first <= k <= ptr ==> data[k] == Octet(t, k)
      invariant forall k :: 0 <= k < data.Length && !(first <= k <= ptr) ==> data[k] == was[k]
    {
      data[ptr + 1] := NextByte(value, x, vi + 1, was, first, len_b);
      ptr, vi, done := ptr + 1, vi + 1, done + 8;
    }
    data[ptr + 1] := FinalByte(data[ptr + 1], value, x, vi + 1, len_b - done, was, first, len_b);
    CoveredOutside(BitsOf(was), BitsOf(value), 8 * first + x, len_b, first, ptr + 2);
    FromBytes(was, data[..], t, first, ptr + 2);
  }

  /** pofbf_cover_bit. The source needs as many bytes as the destination bytes it touches, which is one more
      than its length fills when the range straddles; that byte is read and masked away. */
  method CoverBit(data: array<byte>, base: nat, value: seq<byte>, pos_b: nat, len_b: nat)
    requires pos_b < 0x1_0000 && len_b < 0x1_0000 && Admissible(pos_b, len_b)
    requires |value| >= 1 && |value| >= CeilBytes(pos_b % 8 + len_b)
    requires base + pos_b / 8 < data.Length && 8 * base + pos_b + len_b <= 8 * data.Length
    modifies data
    ensures BitsOf(data[..]) ==
            Covered(old(BitsOf(data[..])), BitsOf(value), 8 * base + pos_b, EffectiveLen(pos_b, len_b))
  {
    var x := pos_b % 8;
    // the remainder of a negative number is negative here
    var after := if len_b + pos_b == 0 then 0 else (len_b + pos_b - 1) % 8 + 1;
    var ptr := base + pos_b / 8;
    assert 8 * base + pos_b == 8 * ptr + x;
    if len_b <= 8 - x {
      CoverByte(data, ptr, value, x, after, EffectiveLen(pos_b, len_b));
    } else {
      CoverBytes(data, ptr, value, x, len_b);
    }
  }

  /** The bits [p, p + n) of s, zero-padded to whole bytes. */
  function Copied(s: seq<bool>, p: nat, n: nat): (r: seq<bool>)
    requires p + n <= |s|
    ensures |r| == 8 * CeilBytes(n)
  {
    s[p..p + n] + Fill(false, 8 * CeilBytes(n) - n)
  }

  function ShiftedByte(b0: byte, b1: byte, x: nat): byte
    requires x < 8
  {
    Or(MoveBitLeft(b0, x), MoveBitRight(b1, 8 - x))
  }

  lemma ShiftedByteAt(src: seq<byte>, q: nat, x: nat, p: nat)
    requires x < 8 && q + 1 < |src| && p == 8 * q + x
    ensures ShiftedByte(src[q], src[q + 1], x) == BitsOf(src)[p..p + 8]
  {
    forall j {:trigger BitsOf(src)[p..p + 8][j]} | 0 <= j < 8
      ensures ShiftedByte(src[q], src[q + 1], x)[j] == BitsOf(src)[p..p + 8][j]
    {
      if x + j < 8 { BitsOfAt(src, q, x + j); } else { BitsOfAt(src, q + 1, x + j - 8); }
    }
  }

  /** Bytes of eight source bits each, the last one masked to its first 8 - pad bits, are the padded copy. */
  lemma CopyTarget(b: seq<bool>, p: nat, n: nat, res: seq<byte>)
    requires 0 < n && |res| == CeilBytes(n) && p + 8 * |res| <= |b|
    requires forall k :: 0 <= k < |res| - 1 ==> res[k] == b[p + 8 * k..p + 8 * k + 8]
    requires var k := |res| - 1; res[k] == And(b[p + 8 * k..p + 8 * k + 8], MoveBitLeft(ONES, 8 * |res| - n))
    ensures BitsOf(res) == Copied(b, p, n)
  {
    forall i | 0 <= i < 8 * |res|
      ensures BitsOf(res)[i] == Copied(b, p, n)[i]
    {
      var k, j := i / 8, i % 8;
      assert i == 8 * k + j;
      BitsOfAt(res, k, j);
      var whole := b[p + 8 * k..p + 8 * k + 8];
      assert whole[j] == b[p + i];
      if k == |res| - 1 {
        assert res[k][j] == (whole[j] && MoveBitLeft(ONES, 8 * |res| - n)[j]);
        assert MoveBitLeft(ONES, 8 * |res| - n)[j] <==> i < n;
      } else {
        assert res[k][j] == whole[j] && i < n;
      }
    }
  }

  /** pofbf_copy_bit. It reads one source byte behind the last one it needs; an empty copy writes nothing that
      can be seen (it stores the byte before the destination back unchanged). */
  method CopyBit(src: seq<byte>, base: nat, res: array<byte>, offset_b: nat, len_b: nat)
    requires offset_b < 0x1_0000 && len_b < 0x1_0000
    requires CeilBytes(len_b) <= res.Length
    requires len_b > 0 ==> base + offset_b / 8 + CeilBytes(len_b) < |src|
    requires 8 * base + offset_b + len_b <= 8 * |src|
    modifies res
    ensures BitsOf(res[..CeilBytes(len_b)]) == Copied(BitsOf(src), 8 * base + offset_b, len_b)
    ensures forall k :: CeilBytes(len_b) <= k < res.Length ==> res[k] == old(res[k])
  {
    ghost var p, b := 8 * base + offset_b, BitsOf(src);
    var x := offset_b % 8;
    var ptr, ri, done := base + offset_b / 8, 0, 0;
    while done < len_b
      invariant 0 <= ri && done == 8 * ri < len_b + 8 && ptr == base + offset_b / 8 + ri
      invariant forall k :: 0 <= k < ri ==> res[k] == b[p + 8 * k..p + 8 * k + 8]
      invariant forall k :: ri <= k < res.Length ==> res[k] == old(res[k])
    {
      res[ri] := ShiftedByte(src[ptr], src[ptr + 1], x);
      ShiftedByteAt(src, ptr, x, p + 8 * ri);
      ri, ptr, done := ri + 1, ptr + 1, done + 8;
    }
    assert ri == CeilBytes(len_b);
    if len_b > 0 {
      ri := ri - 1;
      res[ri] := And(res[ri], MoveBitLeft(ONES, done - len_b));
      CopyTarget(b, p, len_b, res[..ri + 1]);
    }
  }

  /** Copying a range and covering it back changes nothing, and covering then copying returns the source,
      padded; neither depends on where the range starts. */
  lemma CopyCoverInverse(d: seq<bool>, v: seq<bool>, p: nat, n: nat)
    requires p + n <= |d| && n <= |v|
    ensures Covered(d, Copied(d, p, n), p, n) == d
    ensures Copied(Covered(d, v, p, n), p, n) == Copied(v, 0, n)
  {
    PaddedCover(d, d, p, p, n);
    CoveredParts(d, v, p, n);
  }

  /** A padded source never leaks: the write replaces exactly its range. */
  lemma PaddedCover(d: seq<bool>, s: seq<bool>, at: nat, p: nat, n: nat)
    requires p + n <= |d| && at + n <= |s|
    ensures Covered(d, Copied(s, at, n), p, n) == Replaced(d, s[at..at + n], p)
  {
    assert Copied(s, at, n)[..n] == s[at..at + n];
    ZeroTailCover(d, Copied(s, at, n), p, n);
  }
}
