/** Bytes as the switch's bit-field code sees them, and the bit view that the other modules reason in.
    A byte is its eight bits, the most significant first: index 0 is the bit under the mask 0x80. */
module Bits {
  type byte = b: seq<bool> | |b| == 8
    witness [false, false, false, false, false, false, false, false]

  const ZERO: byte := Fill(false, 8)
  const ONES: byte := Fill(true, 8)

  function Fill(v: bool, n: nat): (r: seq<bool>)
    ensures |r| == n && forall i :: 0 <= i < n ==> r[i] == v
  {
    seq(n, _ => v)
  }

  /** POF_MOVE_BIT_LEFT(b, n), kept to a byte. */
  function MoveBitLeft(b: byte, n: nat): byte
    requires n <= 8
  {
    b[n..] + Fill(false, n)
  }

  /** POF_MOVE_BIT_RIGHT(b, n). */
  function MoveBitRight(b: byte, n: nat): byte
    requires n <= 8
  {
    Fill(false, n) + b[..8 - n]
  }

  /** The operator & of the source. */
  function And(a: byte, b: byte): byte {
    seq(8, i requires 0 <= i < 8 => a[i] && b[i])
  }

  /** The operator | of the source. */
  function Or(a: byte, b: byte): byte {
    seq(8, i requires 0 <= i < 8 => a[i] || b[i])
  }

  /** The first n bits of a byte buffer, in order. */
  function BitsUpTo(s: seq<byte>, n: nat): (r: seq<bool>)
    requires n <= 8 * |s|
    ensures |r| == n
  {
    if n == 0 then [] else BitsUpTo(s, n - 1) + [s[(n - 1) / 8][(n - 1) % 8]]
  }

  /** All bits of a byte buffer, in order. */
  function BitsOf(s: seq<byte>): (r: seq<bool>)
    ensures |r| == 8 * |s|
  {
    BitsUpTo(s, 8 * |s|)
  }

  lemma {:induction false} BitsUpToAt(s: seq<byte>, n: nat, i: nat)
    requires i < n <= 8 * |s|
    ensures BitsUpTo(s, n)[i] == s[i / 8][i % 8]
  {
    if i < n - 1 { BitsUpToAt(s, n - 1, i); }
  }

  /** Bit i of a byte buffer, on its bytes. */
  predicate Bit(s: seq<byte>, i: nat)
    requires i < 8 * |s|
  {
    s[i / 8][i % 8]
  }

  lemma BitAt(s: seq<byte>, i: nat)
    requires i < 8 * |s|
    ensures BitsOf(s)[i] == Bit(s, i)
  {
    BitsUpToAt(s, 8 * |s|, i);
  }

  lemma BitsOfAt(s: seq<byte>, k: nat, j: nat)
    requires k < |s| && j < 8
    ensures BitsOf(s)[8 * k + j] == s[k][j]
  {
    BitsUpToAt(s, 8 * |s|, 8 * k + j);
    assert (8 * k + j) / 8 == k && (8 * k + j) % 8 == j;
  }

  lemma SliceAt(s: seq<byte>, lo: nat, hi: nat, i: nat)
    requires lo <= hi <= |s| && i < 8 * (hi - lo)
    ensures BitsOf(s[lo..hi])[i] == BitsOf(s)[8 * lo + i]
  {
    var k, j := i / 8, i % 8;
    BitsOfAt(s[lo..hi], k, j);
    BitsOfAt(s, lo + k, j);
    assert i == 8 * k + j;
  }

  lemma BitsOfSlice(s: seq<byte>, lo: nat, hi: nat)
    requires lo <= hi <= |s|
    ensures BitsOf(s[lo..hi]) == BitsOf(s)[8 * lo..8 * hi]
  {
    forall i | 0 <= i < 8 * (hi - lo)
      ensures BitsOf(s[lo..hi])[i] == BitsOf(s)[8 * lo + i]
    {
      SliceAt(s, lo, hi, i);
    }
  }

  lemma BitsOfAppend(s: seq<byte>, t: seq<byte>)
    ensures BitsOf(s + t) == BitsOf(s) + BitsOf(t)
  {
    BitsOfSlice(s + t, 0, |s|);
    BitsOfSlice(s + t, |s|, |s + t|);
    assert (s + t)[0..|s|] == s && (s + t)[|s|..|s + t|] == t;
  }

  lemma BitsOfOne(b: byte)
    ensures BitsOf([b]) == b
  {
    forall j | 0 <= j < 8
      ensures BitsOf([b])[j] == b[j]
    {
      BitsOfAt([b], 0, j);
    }
  }

  lemma BitsOfInjective(s: seq<byte>, t: seq<byte>)
    requires BitsOf(s) == BitsOf(t)
    ensures s == t
  {
    forall k | 0 <= k < |s|
      ensures s[k] == t[k]
    {
      forall j | 0 <= j < 8
        ensures s[k][j] == t[k][j]
      {
        BitsOfAt(s, k, j);
        BitsOfAt(t, k, j);
      }
    }
  }

  /** The byte buffer with the given bits: the inverse of BitsOf. */
  function Pack(v: seq<bool>): (s: seq<byte>)
    requires |v| % 8 == 0
    ensures |s| == |v| / 8 && BitsOf(s) == v
  {
    if v == [] then [] else
      var rest := Pack(v[8..]);
      assert BitsOf([v[..8]]) == v[..8] && BitsOf([v[..8]] + rest) == v by {
        BitsOfOne(v[..8]);
        BitsOfAppend([v[..8]], rest);
      }
      [v[..8]] + rest
  }
}
