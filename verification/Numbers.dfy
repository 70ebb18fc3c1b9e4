/** Bit strings read as unsigned numbers, most significant bit first: how a field, a 32-bit value in network
    order or a checksum word is valued. */
module Numbers {
  import opened Bits

  function Pow2(n: nat): (r: nat)
    ensures r > 0
  {
    if n == 0 then 1 else 2 * Pow2(n - 1)
  }

  function ToNat(b: seq<bool>): nat {
    if b == [] then 0 else 2 * ToNat(b[..|b| - 1]) + (if b[|b| - 1] then 1 else 0)
  }

  /** Binary digit k of v, the units being digit 0; a negative v is in two's complement. */
  predicate Digit(v: int, k: nat)
    decreases k
  {
    if k == 0 then v % 2 == 1 else Digit(v / 2, k - 1)
  }

  /** The n low bits of v. */
  function LowBits(v: int, n: nat): (r: seq<bool>)
    ensures |r| == n
  {
    seq(n, i requires 0 <= i < n => Digit(v, n - 1 - i))
  }

  lemma LowBitsStep(v: int, n: nat)
    requires n > 0
    ensures LowBits(v, n) == LowBits(v / 2, n - 1) + [v % 2 == 1]
  {
    var tail := LowBits(v / 2, n - 1);
    forall i | 0 <= i < n
      ensures LowBits(v, n)[i] == (tail + [v % 2 == 1])[i]
    {
      assert LowBits(v, n)[i] == Digit(v, n - 1 - i);
      if i < n - 1 {
        assert tail[i] == Digit(v / 2, n - 2 - i);
      } else {
        assert Digit(v, 0) == (v % 2 == 1);
      }
    }
  }

  lemma Doubled(a: int, b: int)
    ensures 2 * a * b == 2 * (a * b)
  {}

  lemma {:induction false} Pow2Add(m: nat, n: nat)
    ensures Pow2(m + n) == Pow2(m) * Pow2(n)
    decreases m
  {
    if m > 0 {
      Pow2Add(m - 1, n);
      Doubled(Pow2(m - 1), Pow2(n));
    }
  }

  lemma {:induction false} ToNatBound(b: seq<bool>)
    ensures ToNat(b) < Pow2(|b|)
  {
    if b != [] { ToNatBound(b[..|b| - 1]); }
  }

  lemma {:induction false} LowBitsToNat(b: seq<bool>)
    ensures LowBits(ToNat(b), |b|) == b
  {
    if b != [] {
      LowBitsToNat(b[..|b| - 1]);
      LowBitsStep(ToNat(b), |b|);
    }
  }

  lemma MulSign(d: int, k: int)
    requires d >= 0
    ensures k >= 1 ==> d * k >= d
    ensures k <= -1 ==> d * k <= -d
  {}

  lemma DivModUnique(v: int, d: nat, q: int, r: nat)
    requires r < d && v == d * q + r
    ensures v / d == q && v % d == r
  {
    assert d * (q - v / d) == v % d - r;
    MulSign(d, q - v / d);
  }

  lemma Quotient(v: int, d: nat, q: int, r: nat)
    requires r < d && v == q * d + r
    ensures v / d == q
  {
    DivModUnique(v, d, q, r);
  }

  /** Adding multiples of d does not change a remainder. */
  lemma ModShift(v: int, d: nat, k: int)
    requires d > 0
    ensures (v + d * k) % d == v % d
  {
    assert v + d * k == d * (v / d + k) + v % d;
    DivModUnique(v + d * k, d, v / d + k, v % d);
  }

  /** A remainder modulo 2^m determines the remainder modulo a smaller power. */
  lemma ModPow2(v: int, m: nat, n: nat)
    requires n <= m
    ensures (v % Pow2(m)) % Pow2(n) == v % Pow2(n)
  {
    Pow2Add(n, m - n);
    ModTwice(v, Pow2(n), Pow2(m - n));
  }

  lemma ModTwice(v: int, d: nat, e: nat)
    requires d > 0 && e > 0 && d * e > 0
    ensures (v % (d * e)) % d == v % d
  {
    var q := v / (d * e);
    assert (d * e) * q == d * (e * q);
    assert v == v % (d * e) + d * (e * q);
    ModShift(v % (d * e), d, e * q);
  }

  lemma ModDouble(v: int, p: nat)
    requires p > 0
    ensures v % (2 * p) == 2 * (v / 2 % p) + v % 2
  {
    var h := v / 2;
    assert h == p * (h / p) + h % p;
    assert 2 * (p * (h / p)) == (2 * p) * (h / p);
    DivModUnique(v, 2 * p, h / p, 2 * (h % p) + v % 2);
  }

  lemma {:induction false} ToNatLowBits(v: int, n: nat)
    ensures ToNat(LowBits(v, n)) == v % Pow2(n)
    decreases n
  {
    if n > 0 {
      ToNatLowBits(v / 2, n - 1);
      LowBitsStep(v, n);
      ModDouble(v, Pow2(n - 1));
    }
  }

  /** Two numbers with the same remainder modulo 2^n have the same n low bits. */
  lemma LowBitsMod(v: int, w: int, n: nat)
    requires v % Pow2(n) == w % Pow2(n)
    ensures LowBits(v, n) == LowBits(w, n)
  {
    ToNatLowBits(v, n);
    ToNatLowBits(w, n);
    LowBitsToNat(LowBits(v, n));
    LowBitsToNat(LowBits(w, n));
  }

  lemma {:induction false} ToNatAppend(a: seq<bool>, b: seq<bool>)
    ensures ToNat(a + b) == ToNat(a) * Pow2(|b|) + ToNat(b)
  {
    if b == [] {
      assert a + b == a;
    } else {
      var b' := b[..|b| - 1];
      ToNatAppend(a, b');
      assert (a + b)[..|a + b| - 1] == a + b';
      assert 2 * (ToNat(a) * Pow2(|b'|)) == ToNat(a) * (2 * Pow2(|b'|));
    }
  }

  lemma {:induction false} ToNatZeros(n: nat)
    ensures ToNat(Fill(false, n)) == 0
  {
    if n > 0 {
      ToNatZeros(n - 1);
      assert Fill(false, n)[..n - 1] == Fill(false, n - 1);
    }
  }

  /** Truncating a sum to 32 bits keeps its low bits. */
  lemma LowBitsWrapped(v: int, n: nat)
    requires n <= 32
    ensures LowBits(v % 0x1_0000_0000, n) == LowBits(v, n)
  {
    Pow2Words();
    ModPow2(v, 32, n);
    LowBitsMod(v % 0x1_0000_0000, v, n);
  }

  /** The low bits of a sum depend only on the low bits of its parts. */
  lemma LowBitsOfSum(v: int, w: int, inc: int, n: nat)
    requires LowBits(v, n) == LowBits(w, n)
    ensures LowBits(v + inc, n) == LowBits(w + inc, n)
  {
    ToNatLowBits(v, n);
    ToNatLowBits(w, n);
    ModOfSum(v, w, inc, Pow2(n));
    LowBitsMod(v + inc, w + inc, n);
  }

  lemma ModOfSum(v: int, w: int, inc: int, d: nat)
    requires d > 0 && v % d == w % d
    ensures (v + inc) % d == (w + inc) % d
  {
    var k := v / d - w / d;
    assert v == w + d * k;
    ModShift(w + inc, d, k);
  }

  lemma ToNat16(v: nat)
    requires v < 0x1_0000
    ensures ToNat(LowBits(v, 16)) == v
  {
    Pow2Words();
    ToNatLowBits(v, 16);
  }

  lemma ToNat32(v: nat)
    requires v < 0x1_0000_0000
    ensures ToNat(LowBits(v, 32)) == v
  {
    Pow2Words();
    ToNatLowBits(v, 32);
  }

  /** Shifting v left by k inside an n-bit word leaves its n - k low bits in front of k zeros. */
  lemma {:induction false} LowBitsShifted(v: int, n: nat, k: nat)
    requires k <= n
    ensures LowBits(v * Pow2(k), n) == LowBits(v, n - k) + Fill(false, k)
    decreases k
  {
    if k == 0 {
      assert Fill(false, 0) == [];
    } else {
      assert v * Pow2(k) == 2 * (v * Pow2(k - 1));
      LowBitsShifted(v, n - 1, k - 1);
      LowBitsStep(v * Pow2(k), n);
      assert Fill(false, k - 1) + [false] == Fill(false, k);
    }
  }

  lemma Pow2Words()
    ensures Pow2(8) == 0x100 && Pow2(16) == 0x1_0000 && Pow2(32) == 0x1_0000_0000
    ensures Pow2(64) == 0x1_0000_0000_0000_0000
  {
    assert Pow2(4) == 16;
    Pow2Add(4, 4);
    Pow2Add(8, 8);
    Pow2Add(16, 16);
    Pow2Add(32, 32);
  }

  /** Shifting a word right drops exactly its low bits. */
  lemma ToNatHighPart(a: seq<bool>, b: seq<bool>)
    ensures ToNat(a + b) / Pow2(|b|) == ToNat(a)
  {
    ToNatAppend(a, b);
    ToNatBound(b);
    Quotient(ToNat(a + b), Pow2(|b|), ToNat(a), ToNat(b));
  }
}
