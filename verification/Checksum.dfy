/** The checksum action of datapath/pof_action.c: clear the field, fold the complements of the region's words
    with end-around carry, store the result. Its verification rule is that of section 1 of RFC 1071. */
module Checksum {
  import opened Bits
  import opened Bitfield
  import opened Numbers

  const TWO64 := 0x1_0000_0000_0000_0000

  /** The first n words of cs bits of a region, which end at bit `end` of it. */
  function WordsTo(r: seq<bool>, cs: nat, n: nat, end: nat): (w: seq<nat>)
    requires end == n * cs <= |r|
    ensures |w| == n
  {
    if n == 0 then [] else
      MulStep(n, cs);
      WordsTo(r, cs, n - 1, end - cs) + [ToNat(r[end - cs..end])]
  }

  function Words(r: seq<bool>, cs: nat, n: nat): (w: seq<nat>)
    requires n * cs <= |r|
    ensures |w| == n
  {
    WordsTo(r, cs, n, n * cs)
  }

  lemma MulStep(n: nat, cs: nat)
    requires n > 0
    ensures 0 <= (n - 1) * cs <= n * cs == (n - 1) * cs + cs
  {}

  lemma DivTimes(a: nat, b: nat)
    requires b > 0
    ensures a / b * b <= a
  {}

  /** All whole words of a region; a shorter rest is left out. */
  function WholeWords(r: seq<bool>, cs: nat): (w: seq<nat>)
    requires cs > 0
    ensures |w| == |r| / cs
  {
    DivTimes(|r|, cs);
    Words(r, cs, |r| / cs)
  }

  /** The carry threshold 2^cs, computed in 64 bits. */
  function Threshold(cs: nat): nat {
    Pow2(cs) % TWO64
  }

  /** One step of the accumulation, in 64-bit arithmetic. */
  function FoldStep(v: nat, w: nat, cs: nat): nat {
    var s := (v + (Pow2(cs) - 1 - w)) % TWO64;
    if s >= Threshold(cs) then (s - Threshold(cs) + 1) % TWO64 else s
  }

  /** The accumulated checksum of a sequence of words. */
  function Fold(ws: seq<nat>, cs: nat): nat {
    if ws == [] then 0 else FoldStep(Fold(ws[..|ws| - 1], cs), ws[|ws| - 1], cs)
  }

  function Sum(ws: seq<nat>): nat {
    if ws == [] then 0 else Sum(ws[..|ws| - 1]) + ws[|ws| - 1]
  }

  /** The receiver's side: the sum with end-around carry, m being the word of all ones. */
  function OnesSum(ws: seq<nat>, m: nat): nat {
    if ws == [] then 0 else
      var s := OnesSum(ws[..|ws| - 1], m) + ws[|ws| - 1];
      if s > m then s - m else s
  }

  predicate AllWords(ws: seq<nat>, cs: nat) {
    forall i :: 0 <= i < |ws| ==> ws[i] < Pow2(cs)
  }

  lemma Threshold63(cs: nat)
    requires 1 <= cs <= 63
    ensures Threshold(cs) == Pow2(cs) && 2 <= Pow2(cs) && 2 * Pow2(cs) <= TWO64
  {
    Pow2Words();
    Pow2Add(cs, 63 - cs);
    assert Pow2(64) == 2 * Pow2(63);
    MulSign(Pow2(cs), Pow2(63 - cs));
  }

  /** Below 64 bits a step is an addition of the word's complement with end-around carry. */
  lemma FoldStepOnes(v: nat, w: nat, cs: nat, m: nat)
    requires 1 <= cs <= 63 && m == Pow2(cs) - 1 && v <= m && w <= m
    ensures FoldStep(v, w, cs) == if v + (m - w) > m then v - w else v + (m - w)
  {
    Threshold63(cs);
    EndAroundCarry(v, w, Pow2(cs));
  }

  /** A step without the powers of two: two words below t add up without wrapping. */
  lemma EndAroundCarry(v: nat, w: nat, t: nat)
    requires v < t && w < t && 2 * t <= TWO64
    ensures (v + (t - 1 - w)) % TWO64 == v + (t - 1 - w)
    ensures v + (t - 1 - w) >= t ==> (v + (t - 1 - w) - t + 1) % TWO64 == v - w
  {}

  /** The fold is a one's complement number congruent to the sum of the words' complements modulo m = 2^cs - 1,
      and no partial sum reaches 2^cs. */
  lemma {:induction false} FoldCongruent(ws: seq<nat>, cs: nat, m: nat) returns (q: nat)
    requires 1 <= cs <= 63 && AllWords(ws, cs) && m == Pow2(cs) - 1
    ensures Fold(ws, cs) <= m
    ensures Fold(ws, cs) == |ws| * m - Sum(ws) - q * m
    ensures Fold(ws, cs) == 0 ==> ws == [] || Sum(ws) > 0
  {
    q := 0;
    if ws != [] {
      var v, w := Fold(ws[..|ws| - 1], cs), ws[|ws| - 1];
      var q' := FoldCongruent(ws[..|ws| - 1], cs, m);
      Threshold63(cs);
      FoldStepOnes(v, w, cs, m);
      MulStep(|ws|, m);
      q := if v + (m - w) > m then q' + 1 else q';
      if q > q' { MulStep(q, m); }
    }
  }

  lemma {:induction false} OnesSumCongruent(ws: seq<nat>, m: nat) returns (q: nat)
    requires forall i :: 0 <= i < |ws| ==> ws[i] <= m
    ensures OnesSum(ws, m) <= m
    ensures OnesSum(ws, m) == Sum(ws) - q * m
    ensures OnesSum(ws, m) == 0 <==> Sum(ws) == 0
  {
    q := 0;
    if ws != [] {
      var q' := OnesSumCongruent(ws[..|ws| - 1], m);
      var s := OnesSum(ws[..|ws| - 1], m) + ws[|ws| - 1];
      if s > m {
        q := q' + 1;
        MulStep(q, m);
      } else {
        q := q';
      }
    }
  }

  lemma {:induction false} SumUpdate(ws: seq<nat>, k: nat, v: nat)
    requires k < |ws|
    ensures Sum(ws[k := v]) == Sum(ws) - ws[k] + v
  {
    var n := |ws| - 1;
    if k < n {
      SumUpdate(ws[..n], k, v);
      assert ws[k := v][..n] == ws[..n][k := v];
    } else {
      assert ws[k := v][..n] == ws[..n];
    }
  }

  /** A multiple of m in (0, m] is m. */
  lemma OnlyMultiple(s: nat, t: int, m: nat)
    requires s == t * m && 0 < s <= m
    ensures s == m
  {
    MulSign(m, t);
    MulSign(m, t - 1);
    assert m * (t - 1) == t * m - m;
  }

  /** The verification rule for checksums of 1 to 63 bits: with the fold stored in a word that was zero, the
      words sum to a multiple of m = 2^cs - 1, and the receiver's sum is the word of all ones. */
  lemma StoredFoldVerifies(ws: seq<nat>, cs: nat, k: nat, m: nat, ws': seq<nat>) returns (t: int)
    requires 1 <= cs <= 63 && AllWords(ws, cs) && k < |ws| && ws[k] == 0 && m == Pow2(cs) - 1
    requires ws' == ws[k := Fold(ws, cs)]
    ensures Sum(ws') == t * m
    ensures OnesSum(ws', m) == m
  {
    var q := FoldCongruent(ws, cs, m);
    SumUpdate(ws, k, Fold(ws, cs));
    t := |ws| - q;
    MulSub(|ws|, q, m);
    var q' := OnesSumCongruent(ws', m);
    MulSub(t, q', m);
    OnlyMultiple(OnesSum(ws', m), t - q', m);
  }

  lemma MulSub(a: int, b: int, m: int)
    ensures a * m - b * m == (a - b) * m
  {}

  /** At 64 bits the threshold has wrapped to zero, so every step adds one: the fold is the two's complement
      of the sum. */
  lemma {:induction false} Fold64(ws: seq<nat>)
    requires AllWords(ws, 64)
    ensures Fold(ws, 64) == (0 - Sum(ws)) % TWO64
  {
    Pow2Words();
    if ws != [] {
      Fold64(ws[..|ws| - 1]);
      FoldStep64(Sum(ws[..|ws| - 1]), ws[|ws| - 1]);
    }
  }

  lemma FoldStep64(s: nat, w: nat)
    requires w < TWO64
    ensures FoldStep((0 - s) % TWO64, w, 64) == (0 - (s + w)) % TWO64
  {
    Pow2Words();
    NegateStep(s, w, (0 - s) % TWO64);
  }

  /** Adding a complement and one is subtracting, modulo 2^64. */
  lemma NegateStep(s: nat, w: nat, v: nat)
    requires w < TWO64 && v == (0 - s) % TWO64
    ensures ((v + (TWO64 - 1 - w)) % TWO64 + 1) % TWO64 == (0 - (s + w)) % TWO64
  {
    var k := (0 - s) / TWO64;
    assert 0 - s == TWO64 * k + v;
    assert ((v + (TWO64 - 1 - w)) % TWO64 + 1) % TWO64 == (v - w) % TWO64;
    assert 0 - (s + w) == TWO64 * k + (v - w);
  }

  lemma {:induction false} SumBound(ws: seq<nat>, m: nat)
    requires forall i :: 0 <= i < |ws| ==> ws[i] <= m
    ensures Sum(ws) <= |ws| * m
  {
    if ws != [] {
      SumBound(ws[..|ws| - 1], m);
      MulStep(|ws|, m);
    }
  }

  /** So a 64-bit checksum, which the action accepts, never satisfies the verification rule. */
  lemma Stored64NeverVerifies(ws: seq<nat>, k: nat, m: nat)
    requires AllWords(ws, 64) && k < |ws| < m && ws[k] == 0 && m == TWO64 - 1
    ensures OnesSum(ws[k := Fold(ws, 64)], m) != m
  {
    Pow2Words();
    Fold64(ws);
    var c := Fold(ws, 64);
    var ws' := ws[k := c];
    SumUpdate(ws, k, c);
    var t := ComplementSums(Sum(ws), c);
    SumBound(ws', m);
    CarriesBelow(t, |ws'|, m);
    var q := OnesSumCongruent(ws', m);
    MultipleBelow(t, OnesSum(ws', m), q, m);
  }

  /** A number and its two's complement add up to a multiple of 2^64. */
  lemma ComplementSums(s: nat, c: nat) returns (t: nat)
    requires c == (0 - s) % TWO64
    ensures s + c == t * TWO64
  {
    t := (s + c) / TWO64;
  }

  lemma CarriesBelow(t: nat, n: nat, m: nat)
    requires t * (m + 1) <= n * m
    ensures t <= n
  {
    MulSign(m + 1, t - n);
    assert (m + 1) * (t - n) == t * (m + 1) - n * m - n;
  }

  /** With fewer than m carries of m + 1 each, the end-around sum is not m. */
  lemma MultipleBelow(t: nat, s: nat, q: nat, m: nat)
    requires s == t * (m + 1) - q * m && t < m
    ensures s != m
  {
    var j := 1 - t + q;
    assert m * j == m - t * m + q * m;
    MulSign(m, j);
  }

  /** bzero_bit: both branches clear exactly the range. */
  method BzeroBit(data: array<byte>, base: nat, pos: nat, len: nat, slack: byte)
    requires pos < 0x1_0000 && len < 0x1_0000 && Admissible(pos, len)
    requires base + pos / 8 < data.Length && 8 * base + pos + len <= 8 * data.Length
    modifies data
    ensures BitsOf(data[..]) == Replaced(old(BitsOf(data[..])), Fill(false, len), 8 * base + pos)
  {
    if pos % 8 == 0 && len % 8 == 0 {
      ZeroBytes(data, base + pos / 8, len / 8);
    } else {
      var zero := seq(CeilBytes(len), _ => ZERO) + [slack];
      ghost var d, z := BitsOf(data[..]), BitsOf(zero);
      ZeroBits(CeilBytes(len), slack);
      ZerosCovered(d, z, 8 * base + pos, len);
      CoverBit(data, base, zero, pos, len);
    }
  }

  lemma ZerosCovered(d: seq<bool>, z: seq<bool>, p: nat, len: nat)
    requires p + len <= |d| && 8 * CeilBytes(len) <= |z| && z[..8 * CeilBytes(len)] == Fill(false, 8 * CeilBytes(len))
    ensures Covered(d, z, p, len) == Replaced(d, Fill(false, len), p)
  {
    assert forall j :: 0 <= j < 8 * CeilBytes(len) ==> z[j] == z[..8 * CeilBytes(len)][j];
    ZeroTailCover(d, z, p, len);
    assert z[..len] == Fill(false, len);
  }

  /** memset(data + first, 0, n). */
  method ZeroBytes(data: array<byte>, first: nat, n: nat)
    requires first + n <= data.Length
    modifies data
    ensures BitsOf(data[..]) == Replaced(old(BitsOf(data[..])), Fill(false, 8 * n), 8 * first)
  {
    ghost var was := data[..];
    for i := 0 to n
      invariant forall k :: 0 <= k < data.Length ==> data[k] == if first <= k < first + i then ZERO else was[k]
    {
      data[first + i] := ZERO;
    }
    BytesCleared(was, data[..], first, n);
  }

  lemma ZeroBits(n: nat, slack: byte)
    ensures BitsOf(seq(n, _ => ZERO) + [slack])[..8 * n] == Fill(false, 8 * n)
  {
    var z := seq(n, _ => ZERO) + [slack];
    forall i | 0 <= i < 8 * n
      ensures !BitsOf(z)[i]
    {
      BitsOfAt(z, i / 8, i % 8);
      assert i == 8 * (i / 8) + i % 8;
    }
  }

  lemma BytesCleared(was: seq<byte>, now: seq<byte>, first: nat, n: nat)
    requires first + n <= |was| == |now|
    requires forall k :: 0 <= k < |was| ==> now[k] == if first <= k < first + n then ZERO else was[k]
    ensures BitsOf(now) == Replaced(BitsOf(was), Fill(false, 8 * n), 8 * first)
  {
    forall i | 0 <= i < 8 * |was|
      ensures BitsOf(now)[i] == if 8 * first <= i < 8 * (first + n) then false else BitsOf(was)[i]
    {
      BitsOfAt(was, i / 8, i % 8);
      BitsOfAt(now, i / 8, i % 8);
      assert i == 8 * (i / 8) + i % 8;
    }
  }

  lemma ComplementShifted(q: nat, p: nat, w: nat)
    requires p > 0 && w < q
    ensures q * p - 1 - w * p >= 0 && (q * p - 1 - w * p) / p == q - 1 - w
  {
    assert q * p - 1 - w * p == p * (q - 1 - w) + (p - 1);
    MulSign(p, q - w);
    DivModUnique(q * p - 1 - w * p, p, q - 1 - w, p - 1);
  }

  /** The number of a word read to the top of eight zeroed bytes, complemented and shifted down. */
  lemma ComplementedWord(bits: seq<bool>, cs: nat, v: nat)
    requires 1 <= cs == |bits| <= 64 && v == ToNat(bits + Fill(false, 64 - cs))
    ensures v < TWO64 && (TWO64 - 1 - v) / Pow2(64 - cs) == Pow2(cs) - 1 - ToNat(bits) >= 0
  {
    ToNatAppend(bits, Fill(false, 64 - cs));
    ToNatZeros(64 - cs);
    Pow2Words();
    Pow2Add(cs, 64 - cs);
    ToNatBound(bits);
    ComplementShifted(Pow2(cs), Pow2(64 - cs), ToNat(bits));
  }

  /** One word of the region [at, end), complemented: read into eight zeroed bytes, taken as a 64-bit number in
      network order, inverted and shifted down. */
  method ComplementOfWord(data: seq<byte>, base: nat, pos: nat, cs: nat, ghost at: nat, ghost end: nat)
    returns (word: nat)
    requires 1 <= cs <= 64 && pos < 0x1_0000 && base + pos / 8 + CeilBytes(cs) < |data|
    requires at == 8 * base + pos && end == at + cs <= 8 * |data|
    ensures word == Pow2(cs) - 1 - ToNat(BitsOf(data)[at..end])
  {
    ghost var bits := BitsOf(data)[at..end];
    var image := FetchWord(data, base, pos, cs, at, end, bits);
    word := InvertAndShift(ToNat(BitsOf(image)), cs, bits);
  }

  method InvertAndShift(v: nat, cs: nat, ghost bits: seq<bool>) returns (word: nat)
    requires 1 <= cs == |bits| <= 64 && v == ToNat(bits + Fill(false, 64 - cs))
    ensures word == Pow2(cs) - 1 - ToNat(bits)
  {
    ComplementedWord(bits, cs, v);
    word := (TWO64 - 1 - v) / Pow2(64 - cs);
  }

  /** The eight bytes of data_temp. */
  method FetchWord(data: seq<byte>, base: nat, pos: nat, cs: nat, ghost at: nat, ghost end: nat, ghost bits: seq<bool>)
    returns (image: seq<byte>)
    requires 1 <= cs <= 64 && pos < 0x1_0000 && base + pos / 8 + CeilBytes(cs) < |data|
    requires at == 8 * base + pos && end == at + cs <= 8 * |data| && bits == BitsOf(data)[at..end]
    ensures |image| == 8 && BitsOf(image) == bits + Fill(false, 64 - cs)
  {
    var temp := new byte[8](_ => ZERO);
    CopyBit(data, base, temp, pos, cs);
    image := temp[..];
    assert image[..CeilBytes(cs)] == temp[..CeilBytes(cs)];
    WordImage(image, BitsOf(data), at, cs);
  }

  lemma WordImage(temp: seq<byte>, d: seq<bool>, p: nat, cs: nat)
    requires |temp| == 8 && 1 <= cs <= 64 && p + cs <= |d|
    requires BitsOf(temp[..CeilBytes(cs)]) == Copied(d, p, cs)
    requires forall k :: CeilBytes(cs) <= k < 8 ==> temp[k] == ZERO
    ensures BitsOf(temp) == d[p..p + cs] + Fill(false, 64 - cs)
  {
    var n := CeilBytes(cs);
    BitsOfSlice(temp, 0, n);
    forall i | 8 * n <= i < 64
      ensures !BitsOf(temp)[i]
    {
      BitsOfAt(temp, i / 8, i % 8);
      assert i == 8 * (i / 8) + i % 8;
    }
    assert BitsOf(temp) == BitsOf(temp)[0..8 * n] + BitsOf(temp)[8 * n..];
  }

  lemma FoldNext(r: seq<bool>, cs: nat, i: nat, lo: nat, hi: nat)
    requires lo == i * cs && hi == lo + cs <= |r|
    ensures hi == (i + 1) * cs
    ensures Fold(Words(r, cs, i + 1), cs) == FoldStep(Fold(Words(r, cs, i), cs), ToNat(r[lo..hi]), cs)
  {
    MulStep(i + 1, cs);
    var ws := WordsTo(r, cs, i + 1, hi);
    assert ws[..i] == WordsTo(r, cs, i, lo);
  }

  method CarryThreshold(cs: nat) returns (threshold: nat)
    ensures threshold == Threshold(cs)
  {
    threshold := 1;
    for i := 0 to cs
      invariant threshold == Threshold(i)
    {
      threshold := threshold * 2 % TWO64;
    }
  }

  /** One step of the accumulation. */
  method AddWord(data: seq<byte>, base: nat, pos: nat, cs: nat, sum: nat, threshold: nat, ghost at: nat, ghost end: nat)
    returns (sum': nat)
    requires 1 <= cs <= 64 && threshold == Threshold(cs)
    requires pos < 0x1_0000 && base + pos / 8 + CeilBytes(cs) < |data|
    requires at == 8 * base + pos && end == at + cs <= 8 * |data|
    ensures sum' == FoldStep(sum, ToNat(BitsOf(data)[at..end]), cs)
  {
    var word := ComplementOfWord(data, base, pos, cs, at, end);
    sum' := (sum + word) % TWO64;
    if sum' >= threshold {
      sum' := (sum' - threshold + 1) % TWO64;
    }
  }

  /** The loops of checksum over the first n words of the region r, which starts at bit `at`. */
  method Accumulate(data: seq<byte>, base: nat, pos: nat, cs: nat, n: nat, ghost at: nat, ghost r: seq<bool>,
                    ghost total: nat) returns (sum: nat)
    requires 1 <= cs <= 64 && total == n * cs <= |r|
    requires pos + total < 0x1_0000 && base + (pos + total) / 8 + 1 < |data|
    requires at == 8 * base + pos && at + |r| <= 8 * |data| && r == BitsOf(data)[at..at + |r|]
    ensures sum == Fold(Words(r, cs, n), cs)
  {
    var threshold := CarryThreshold(cs);
    sum := 0;
    ghost var lo := 0;
    for i := 0 to n
      invariant lo == i * cs <= total && sum == Fold(Words(r, cs, i), cs)
    {
      ghost var hi := lo + cs;
      WordFits(i, n, cs);
      sum := NextWord(data, base, pos, cs, i, sum, threshold, at, r, lo, hi, total);
      lo := hi;
    }
  }

  /** The body of the loop. */
  method NextWord(data: seq<byte>, base: nat, pos: nat, cs: nat, i: nat, sum: nat, threshold: nat, ghost at: nat,
                  ghost r: seq<bool>, ghost lo: nat, ghost hi: nat, ghost total: nat) returns (sum': nat)
    requires 1 <= cs <= 64 && lo == i * cs && hi == lo + cs == (i + 1) * cs && hi <= total <= |r|
    requires pos + total < 0x1_0000 && base + (pos + total) / 8 + 1 < |data|
    requires at == 8 * base + pos && at + |r| <= 8 * |data| && r == BitsOf(data)[at..at + |r|]
    requires threshold == Threshold(cs) && sum == Fold(Words(r, cs, i), cs)
    ensures sum' == Fold(Words(r, cs, i + 1), cs)
  {
    FoldNext(r, cs, i, lo, hi);
    ghost var b := BitsOf(data);
    SliceOfSlice(b, r, at, lo, hi);
    var offset := pos + i * cs;
    ByteReached(pos, lo, cs, total, offset);
    sum' := AddWord(data, base, offset, cs, sum, threshold, at + lo, at + hi);
  }

  lemma SliceOfSlice(b: seq<bool>, r: seq<bool>, at: nat, lo: nat, hi: nat)
    requires at + |r| <= |b| && r == b[at..at + |r|] && lo <= hi <= |r|
    ensures r[lo..hi] == b[at + lo..at + hi]
  {
    assert forall i :: 0 <= i < hi - lo ==> r[lo..hi][i] == b[at + lo..at + hi][i];
  }

  lemma ByteReached(pos: nat, lo: nat, cs: nat, total: nat, offset: nat)
    requires lo + cs <= total && offset == pos + lo
    ensures offset / 8 + CeilBytes(cs) <= (pos + total) / 8 + 1
  {}

  lemma WordFits(i: nat, n: nat, cs: nat)
    requires i < n
    ensures i * cs + cs == (i + 1) * cs <= n * cs
  {
    assert (i + 1) * cs + (n - i - 1) * cs == n * cs;
  }

  /** checksum: the fold of the region's whole words, in the top cs bits of the eight bytes of the result. */
  method Checksum(data: seq<byte>, base: nat, pos: nat, len: nat, cs: nat, ghost at: nat, ghost end: nat,
                  ghost r: seq<bool>) returns (value: seq<byte>)
    requires 1 <= cs <= 64 && pos + len < 0x1_0000 && base + (pos + len) / 8 + 1 < |data|
    requires at == 8 * base + pos && end == at + len <= 8 * |data| && r == BitsOf(data)[at..end]
    ensures |value| == 8 && BitsOf(value) == LowBits(Fold(WholeWords(r, cs), cs), cs) + Fill(false, 64 - cs)
  {
    var n := len / cs;
    DivTimes(len, cs);
    var sum := Accumulate(data, base, pos, cs, n, at, r, n * cs);
    value := TopImage(sum, cs);
  }

  /** The final shift and swap: the low cs bits of the sum at the top of eight bytes in network order. */
  method TopImage(sum: nat, cs: nat) returns (value: seq<byte>)
    requires 1 <= cs <= 64
    ensures |value| == 8 && BitsOf(value) == LowBits(sum, cs) + Fill(false, 64 - cs)
  {
    var shifted := sum * Pow2(64 - cs);
    var kept := shifted % TWO64;
    TopBits(sum, cs, shifted, kept);
    value := Pack(LowBits(kept, 64));
  }

  /** Shifting a number to the top of 64 bits keeps its low cs bits. */
  lemma TopBits(sum: nat, cs: nat, shifted: int, kept: int)
    requires 1 <= cs <= 64 && shifted == sum * Pow2(64 - cs) && kept == shifted % TWO64
    ensures LowBits(kept, 64) == LowBits(sum, cs) + Fill(false, 64 - cs)
  {
    Pow2Words();
    ModPow2(shifted, 64, 64);
    LowBitsMod(kept, shifted, 64);
    LowBitsShifted(sum, 64, 64 - cs);
  }

  /** calChecksum: the field at bit p of one buffer receives the fold over a region of the same or another
      buffer, taken with the field cleared. No other bit changes. */
  method CalChecksum(csBuf: array<byte>, csBase: nat, calBuf: array<byte>, calBase: nat, cal_pos: nat, cal_len: nat,
                     cs_pos: nat, cs: nat, slack: byte, ghost p: nat, ghost at: nat, ghost end: nat)
    requires 1 <= cs <= 64 && cs_pos < 0x1_0000 && Admissible(cs_pos, cs)
    requires p == 8 * csBase + cs_pos && p + cs <= 8 * csBuf.Length
    requires cal_pos + cal_len < 0x1_0000 && calBase + (cal_pos + cal_len) / 8 + 1 < calBuf.Length
    requires at == 8 * calBase + cal_pos && end == at + cal_len <= 8 * calBuf.Length
    modifies csBuf
    ensures var zeroed := Replaced(old(BitsOf(csBuf[..])), Fill(false, cs), p);
      var region := (if csBuf == calBuf then zeroed else old(BitsOf(calBuf[..])))[at..end];
      BitsOf(csBuf[..]) == Replaced(zeroed, LowBits(Fold(WholeWords(region, cs), cs), cs), p)
  {
    BzeroBit(csBuf, csBase, cs_pos, cs, slack);
    ghost var zeroed, data := BitsOf(csBuf[..]), calBuf[..];
    ghost var region := BitsOf(data)[at..end];
    var value := Checksum(calBuf[..], calBase, cal_pos, cal_len, cs, at, end, region);
    CoverBit(csBuf, csBase, value + [slack], cs_pos, cs);
    StoredImage(zeroed, value, slack, p, cs, Fold(WholeWords(region, cs), cs));
  }

  lemma StoredImage(d: seq<bool>, value: seq<byte>, slack: byte, p: nat, cs: nat, c: nat)
    requires 1 <= cs <= 64 && p + cs <= |d| && |value| == 8
    requires BitsOf(value) == LowBits(c, cs) + Fill(false, 64 - cs)
    ensures Covered(d, BitsOf(value + [slack]), p, cs) == Replaced(d, LowBits(c, cs), p)
  {
    BitsOfAppend(value, [slack]);
    assert BitsOf(value + [slack])[..cs] == LowBits(c, cs);
    ZeroTailCover(d, BitsOf(value + [slack]), p, cs);
  }

  /** Word i of a region starts at bit i * cs. */
  lemma {:induction false} WordsToAt(r: seq<bool>, cs: nat, n: nat, end: nat, i: nat, lo: nat)
    requires i < n && end == n * cs <= |r| && lo == i * cs
    ensures lo + cs <= end && WordsTo(r, cs, n, end)[i] == ToNat(r[lo..lo + cs])
  {
    MulStep(n, cs);
    if i < n - 1 { WordsToAt(r, cs, n - 1, end - cs, i, lo); }
  }

  /** Two whole words do not overlap. */
  lemma WordsApart(i: nat, k: nat, cs: nat)
    requires i != k
    ensures (i + 1) * cs <= k * cs || (k + 1) * cs <= i * cs
  {
    if i < k { WordFits(i, k, cs); } else { WordFits(k, i, cs); }
  }

  lemma ReplacedElsewhere(r: seq<bool>, x: seq<bool>, p: nat, lo: nat, hi: nat)
    requires p + |x| <= |r| && lo <= hi <= |r| && (hi <= p || p + |x| <= lo)
    ensures Replaced(r, x, p)[lo..hi] == r[lo..hi]
  {}

  /** Replacing one whole word of a region replaces one word of its sequence of words. */
  lemma WordsReplaced(r: seq<bool>, x: seq<bool>, cs: nat, n: nat, k: nat, p: nat, end: nat)
    requires k < n && end == n * cs <= |r| && |x| == cs
    requires p == k * cs && p + cs <= |r|
    ensures WordsTo(Replaced(r, x, p), cs, n, end) == WordsTo(r, cs, n, end)[k := ToNat(x)]
  {
    var r' := Replaced(r, x, p);
    forall i | 0 <= i < n
      ensures WordsTo(r', cs, n, end)[i] == WordsTo(r, cs, n, end)[k := ToNat(x)][i]
    {
      var lo := i * cs;
      WordsToAt(r, cs, n, end, i, lo);
      WordsToAt(r', cs, n, end, i, lo);
      WordBitsReplaced(r, x, cs, k, p, i, lo);
    }
  }

  lemma WordBitsReplaced(r: seq<bool>, x: seq<bool>, cs: nat, k: nat, p: nat, i: nat, lo: nat)
    requires |x| == cs && p == k * cs && lo == i * cs && p + cs <= |r| && lo + cs <= |r|
    ensures Replaced(r, x, p)[lo..lo + cs] == if i == k then x else r[lo..lo + cs]
  {
    if i == k {
      ReplacedSlice(r, x, p);
    } else {
      WordsApart(i, k, cs);
      ReplacedElsewhere(r, x, p, lo, lo + cs);
    }
  }

  lemma WordsBounded(r: seq<bool>, cs: nat, n: nat, end: nat)
    requires end == n * cs <= |r|
    ensures AllWords(WordsTo(r, cs, n, end), cs)
  {
    forall i | 0 <= i < n
      ensures WordsTo(r, cs, n, end)[i] < Pow2(cs)
    {
      var lo := i * cs;
      WordsToAt(r, cs, n, end, i, lo);
      ToNatBound(r[lo..lo + cs]);
    }
  }

  /** The region with the fold of its zeroed form stored in word k verifies, for words of 1 to 63 bits. */
  lemma StoredRegionVerifies(zeroed: seq<bool>, cs: nat, k: nat, lo: nat, m: nat, stored: seq<bool>) returns (t: int)
    requires 1 <= cs <= 63 && k < |zeroed| / cs && m == Pow2(cs) - 1
    requires lo == k * cs && lo + cs <= |zeroed| && zeroed[lo..lo + cs] == Fill(false, cs)
    requires stored == Replaced(zeroed, LowBits(Fold(WholeWords(zeroed, cs), cs), cs), lo)
    ensures Sum(WholeWords(stored, cs)) == t * m
    ensures OnesSum(WholeWords(stored, cs), m) == m
  {
    var n, ws := |zeroed| / cs, WholeWords(zeroed, cs);
    var end := n * cs;
    DivTimes(|zeroed|, cs);
    WordsBounded(zeroed, cs, n, end);
    var c := Fold(ws, cs);
    var q := FoldCongruent(ws, cs, m);
    FoldStored(c, cs);
    WordsReplaced(zeroed, LowBits(c, cs), cs, n, k, lo, end);
    WordsToAt(zeroed, cs, n, end, k, lo);
    ToNatZeros(cs);
    t := StoredFoldVerifies(ws, cs, k, m, WholeWords(stored, cs));
  }

  lemma FoldStored(c: nat, cs: nat)
    requires c < Pow2(cs)
    ensures ToNat(LowBits(c, cs)) == c
  {
    ToNatLowBits(c, cs);
    DivModUnique(c, Pow2(cs), 0, c);
  }

  lemma RegionReplaced(d: seq<bool>, v: seq<bool>, p: nat, at: nat, end: nat)
    requires at <= p && p + |v| <= end <= |d|
    ensures Replaced(d, v, p)[at..end] == Replaced(d[at..end], v, p - at)
  {}

  /** calChecksum with the field, at bit lo of the region [at, end), the k-th whole word of the region in the same
      buffer: nothing else changes, and the region's words verify. */
  method ChecksumInPlace(buf: array<byte>, base: nat, pos: nat, len: nat, k: nat, cs: nat, lo: nat, slack: byte,
                         ghost at: nat, ghost p: nat, ghost end: nat, ghost m: nat) returns (ghost t: int)
    requires 1 <= cs <= 63 && k < len / cs && m == Pow2(cs) - 1 && lo == k * cs && lo + cs <= len
    requires pos + len < 0x1_0000 && base + (pos + len) / 8 + 1 < buf.Length && Admissible(pos + lo, cs)
    requires at == 8 * base + pos && p == at + lo && end == at + len <= 8 * buf.Length
    modifies buf
    ensures BitsOf(buf[..])[..p] == old(BitsOf(buf[..]))[..p]
    ensures BitsOf(buf[..])[p + cs..] == old(BitsOf(buf[..]))[p + cs..]
    ensures Sum(WholeWords(BitsOf(buf[..])[at..end], cs)) == t * m
    ensures OnesSum(WholeWords(BitsOf(buf[..])[at..end], cs), m) == m
  {
    ghost var d, zeros := BitsOf(buf[..]), Fill(false, cs);
    CalChecksum(buf, base, buf, base, pos, len, pos + lo, cs, slack, p, at, end);
    ghost var zeroed := Replaced(d, zeros, p);
    ghost var region := zeroed[at..end];
    ghost var value := LowBits(Fold(WholeWords(region, cs), cs), cs);
    RegionReplaced(d, zeros, p, at, end);
    ReplacedSlice(d[at..end], zeros, lo);
    RegionReplaced(zeroed, value, p, at, end);
    t := StoredRegionVerifies(region, cs, k, lo, m, BitsOf(buf[..])[at..end]);
  }

  lemma ReplacedSlice(d: seq<bool>, v: seq<bool>, p: nat)
    requires p + |v| <= |d|
    ensures Replaced(d, v, p)[p..p + |v|] == v
  {}
}
