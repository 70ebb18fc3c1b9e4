/** The packet-editing actions: datapath/pof_action.c. */
module Actions {
  import opened Bits
  import opened Bitfield
  import opened Numbers
  import opened Datapath
  import opened Instructions

  /** What adding a tag does to the extents, or refusing it. */
  function InsertExtent(e: Extent, tag_len: nat): Extent {
    if InsertFits(e, tag_len) then
      Extent(e.offset, e.left + CeilBytes(tag_len), Wrap16(e.rel + CeilBytes(tag_len)))
    else e
  }

  /** The length check, in unsigned 32-bit arithmetic. */
  predicate InsertFits(e: Extent, tag_len: nat) {
    Wrap32(e.offset + e.left + CeilBytes(tag_len)) <= RAW_MAX_LEN
  }

  /** A tag is accepted if and only if the window then ends in the packet's part of the buffer: one that has been
      emptied before the packet's first byte takes none that leaves it there. */
  lemma InsertFitsExact(e: Extent, tag_len: nat)
    requires -PREBUF_LEN <= e.offset && 0 <= e.left && e.offset + e.left <= RAW_MAX_LEN && tag_len <= 128
    ensures InsertFits(e, tag_len) <==> 0 <= e.offset + e.left + CeilBytes(tag_len) <= RAW_MAX_LEN
  {}

  /** A buffer that starts with a padded copy, and one byte more, starts with the copied bits. */
  lemma SavedBits(saved: seq<byte>, slack: byte, d: seq<bool>, p: nat, n: nat)
    requires CeilBytes(n) <= |saved| && p + n <= |d|
    requires BitsOf(saved[..CeilBytes(n)]) == Copied(d, p, n)
    ensures BitsOf(saved + [slack])[..n] == d[p..p + n]
  {
    BitsOfSlice(saved + [slack], 0, CeilBytes(n));
    assert (saved + [slack])[0..CeilBytes(n)] == saved[..CeilBytes(n)];
    var b := BitsOf(saved + [slack])[0..8 * CeilBytes(n)];
    assert b[..n] == d[p..p + n];
  }

  /** Copying n bits to a buffer on the stack that held anything before, with the byte behind it. */
  method SaveBits(src: seq<byte>, base: nat, pos: nat, n: nat, slack: byte, ghost at: nat, ghost end: nat)
    returns (saved: seq<byte>)
    requires pos < 0x1_0000 && n <= 8 * RAW_MAX_LEN
    requires base + pos / 8 + CeilBytes(n) < |src| && at == 8 * base + pos && end == at + n <= 8 * |src|
    ensures |saved| == RAW_MAX_LEN + 1
    ensures BitsOf(saved)[..n] == BitsOf(src)[at..end]
  {
    var junk: byte := *;
    var temp := new byte[RAW_MAX_LEN](_ => junk);
    CopyBit(src, base, temp, pos, n);
    SavedBits(temp[..], slack, BitsOf(src), at, n);
    saved := temp[..] + [slack];
  }

  /** A range write, for callers that do not look behind the range [at, end). */
  method WriteBits(buf: array<byte>, base: nat, value: seq<byte>, pos: nat, n: nat, ghost at: nat, ghost end: nat)
    requires pos < 0x1_0000 && n < 0x1_0000 && Admissible(pos, n)
    requires |value| >= 1 && |value| >= CeilBytes(pos % 8 + n)
    requires base + pos / 8 < buf.Length && at == 8 * base + pos && end == at + n <= 8 * buf.Length
    modifies buf
    ensures BitsOf(buf[..])[..at] == old(BitsOf(buf[..]))[..at]
    ensures BitsOf(buf[..])[at..end] == BitsOf(value)[..n]
  {
    ghost var d := BitsOf(buf[..]);
    CoverBit(buf, base, value, pos, n);
    ghost var n' := EffectiveLen(pos, n);
    CoveredParts(d, BitsOf(value), 8 * base + pos, n');
    assert BitsOf(buf[..])[at..at + n'][..n] == BitsOf(value)[..n'][..n];
  }

  /** Rewriting d from q1 on with a tag, and then from q2 on with a suffix. */
  lemma TwoWrites(d: seq<bool>, d1: seq<bool>, r: seq<bool>, tag: seq<bool>, rest: seq<bool>,
                  p: nat, q1: nat, q2: nat, q3: nat)
    requires p <= q1 <= q2 <= q3 <= |d| == |d1| == |r| && q2 == q1 + |tag| && q3 == q2 + |rest|
    requires d1[..q1] == d[..q1] && d1[q1..q2] == tag
    requires r[..q2] == d1[..q2] && r[q2..q3] == rest
    ensures r[..p] == d[..p] && r[p..q3] == d[p..q1] + tag + rest
  {
    assert r[..q1] == r[..q2][..q1] && r[q1..q2] == r[..q2][q1..];
    assert r[p..q3] == r[..q1][p..] + r[q1..q2] + r[q2..q3];
    assert r[..p] == r[..q1][..p] == d[..q1][..p];
  }

  /** The three buffer steps of insertTagToPacket, on the window [p, end) that becomes [p, end'). The saved suffix
      is read one byte too far, like the tag's value. */
  method SpliceTag(buf: array<byte>, base: nat, l: nat, tag_pos: nat, tag_len: nat, value: seq<byte>, slack: byte,
                   ghost p: nat, ghost end: nat, ghost end': nat)
    requires l % 8 == 0 && tag_pos <= l <= 8 * (RAW_MAX_LEN + PREBUF_LEN) && l - tag_pos <= 8 * RAW_MAX_LEN
    requires tag_len <= 128 && |value| == 16
    requires 8 * base + l + tag_len + 8 <= 8 * buf.Length
    requires Admissible(tag_pos, tag_len) && Admissible(tag_pos + tag_len, l - tag_pos)
    requires p == 8 * base && end == p + l && end + tag_len <= end' <= 8 * buf.Length
    modifies buf
    ensures BitsOf(buf[..])[..p] == old(BitsOf(buf[..]))[..p]
    ensures BitsOf(buf[..])[p..end'][..l + tag_len] == old(BitsOf(buf[..]))[p..end][..tag_pos]
            + BitsOf(value)[..tag_len] + old(BitsOf(buf[..]))[p..end][tag_pos..]
  {
    ghost var d, at, q, last := BitsOf(buf[..]), p + tag_pos, p + tag_pos + tag_len, end + tag_len;
    var behind := l - tag_pos;
    var saved := SaveBits(buf[..], base, tag_pos, behind, slack, at, end);
    BitsOfAppend(value, [slack]);
    assert BitsOf(value + [slack])[..tag_len] == BitsOf(value)[..tag_len];
    WriteBits(buf, base, value + [slack], tag_pos, tag_len, at, q);
    ghost var d1 := BitsOf(buf[..]);
    WriteBits(buf, base, saved, tag_pos + tag_len, behind, q, last);
    TwoWrites(d, d1, BitsOf(buf[..]), BitsOf(value)[..tag_len], BitsOf(saved)[..behind], p, at, q, last);
    SplicedWindow(d, BitsOf(buf[..]), BitsOf(value)[..tag_len], tag_pos, l + tag_len, p, at, end, last, end');
  }

  /** A splice seen through the window [p, end) before and the longer window [p, end'') after. */
  lemma SplicedWindow(was: seq<bool>, now: seq<bool>, tag: seq<bool>, pos: nat, n: nat,
                      p: nat, at: nat, end: nat, end': nat, end'': nat)
    requires p <= at <= end <= |was| && end <= end' <= end'' <= |now| && at == p + pos && n == end' - p
    requires now[p..end'] == was[p..at] + tag + was[at..end]
    ensures now[p..end''][..n] == was[p..end][..pos] + tag + was[p..end][pos..]
  {
    assert now[p..end''][..n] == now[p..end'];
    assert was[p..end][..pos] == was[p..at];
    assert was[p..end][pos..] == was[at..end];
  }

  /** The window's new length, and the recorded length's change. */
  method Resize(dpp: Packet, left: nat, amount: int)
    requires dpp.Valid() && dpp.offset + left <= RAW_MAX_LEN
    modifies dpp, dpp.metadata
    ensures dpp.Valid() && dpp.buf[..] == old(dpp.buf[..]) && dpp.buf_offset == old(dpp.buf_offset)
    ensures dpp.Extents() == Extent(old(dpp.offset), left, Wrap16(old(dpp.RelLen()) + amount))
    ensures dpp.MetadataBits()[16..] == old(dpp.MetadataBits())[16..]
  {
    ghost var now := dpp.buf[..];
    dpp.left_len := left;
    dpp.AddRelLen(amount);
    assert dpp.buf[..] == now;
  }

  /** The state after inserting the bits of a tag: they stand between what was before and behind the position, and
      no bit before the window changes. */
  twostate predicate BitsInserted(tag_pos: nat, n: nat, tag: seq<bool>, dpp: Packet)
    requires old(dpp.Valid()) && dpp.Valid() && tag_pos <= 8 * old(dpp.left_len)
    requires 8 * old(dpp.left_len) + n <= 8 * dpp.left_len
    reads dpp, dpp.buf, dpp.metadata
  {
    && dpp.Window()[..8 * old(dpp.left_len) + n] == old(dpp.Window())[..tag_pos] + tag + old(dpp.Window())[tag_pos..]
    && BitsOf(dpp.buf[..])[..8 * dpp.buf_offset] == old(BitsOf(dpp.buf[..]))[..8 * dpp.buf_offset]
  }

  /** insertTagToPacket. */
  method InsertTag(tag_pos: nat, tag_len: nat, value: seq<byte>, slack: byte, dpp: Packet) returns (ok: bool)
    requires dpp.Valid()
    requires tag_pos <= 8 * dpp.left_len <= tag_pos + 8 * RAW_MAX_LEN
    requires tag_len <= 128 && |value| == 16
    requires Admissible(tag_pos, tag_len) && Admissible(tag_pos + tag_len, 8 * dpp.left_len - tag_pos)
    modifies dpp, dpp.buf, dpp.metadata
    ensures dpp.Valid()
    ensures ok <==> InsertFits(old(dpp.Extents()), tag_len)
    ensures ok <==> 0 <= old(dpp.offset) + old(dpp.left_len) + CeilBytes(tag_len) <= RAW_MAX_LEN
    ensures dpp.Extents() == InsertExtent(old(dpp.Extents()), tag_len)
    ensures dpp.MetadataBits()[16..] == old(dpp.MetadataBits())[16..]
    ensures !ok ==> dpp.buf[..] == old(dpp.buf[..]) && dpp.metadata[..] == old(dpp.metadata[..])
    ensures ok ==> BitsInserted(tag_pos, tag_len, BitsOf(value)[..tag_len], dpp)
  {
    InsertFitsExact(dpp.Extents(), tag_len);
    if Wrap32(dpp.offset + dpp.left_len + CeilBytes(tag_len)) > RAW_MAX_LEN {
      return false;
    }
    var left := dpp.left_len + CeilBytes(tag_len);
    SpliceTag(dpp.buf, dpp.buf_offset, 8 * dpp.left_len, tag_pos, tag_len, value, slack,
              8 * dpp.buf_offset, 8 * (dpp.buf_offset + dpp.left_len), 8 * (dpp.buf_offset + left));
    Resize(dpp, left, CeilBytes(tag_len));
    ok := true;
  }

  /** execute_ADD_FIELD. */
  method AddField(tag_pos: nat, tag_len: nat, value: seq<byte>, slack: byte, dpp: Packet) returns (ok: bool)
    requires dpp.Valid() && |value| == 16
    requires tag_pos <= 8 * dpp.left_len <= tag_pos + 8 * RAW_MAX_LEN
    requires Admissible(tag_pos, tag_len) && Admissible(tag_pos + tag_len, 8 * dpp.left_len - tag_pos)
    modifies dpp, dpp.buf, dpp.metadata
    ensures dpp.Valid()
    ensures ok <==> tag_len <= 128 && InsertFits(old(dpp.Extents()), tag_len)
    ensures ok <==> tag_len <= 128 && 0 <= old(dpp.offset) + old(dpp.left_len) + CeilBytes(tag_len) <= RAW_MAX_LEN
    ensures dpp.Extents() == if tag_len <= 128 then InsertExtent(old(dpp.Extents()), tag_len) else old(dpp.Extents())
    ensures dpp.MetadataBits()[16..] == old(dpp.MetadataBits())[16..]
    ensures !ok ==> dpp.buf[..] == old(dpp.buf[..]) && dpp.metadata[..] == old(dpp.metadata[..])
    ensures ok ==> BitsInserted(tag_pos, tag_len, BitsOf(value)[..tag_len], dpp)
  {
    if tag_len > 128 {
      return false;
    }
    ok := InsertTag(tag_pos, tag_len, value, slack, dpp);
  }

  /** The length check of execute_DELETE_FIELD: the bits behind the field, as a 16-bit number, look non-negative. */
  predicate DeleteAccepted(left: nat, tag_pos: nat, tag_len: nat) {
    Int16(8 * left - (tag_pos + tag_len)) >= 0
  }

  /** The window's length in bytes after deleting tag_len bits, rounded up in unsigned 32-bit arithmetic. */
  function LeftAfter(left: nat, tag_len: nat): nat {
    Wrap32(8 * left - tag_len + 7) / 8
  }

  /** What deleting a field does to the extents, or refusing it. The recorded length loses the field's whole
      bytes cast to 8 bits. */
  function DeleteExtent(e: Extent, tag_pos: nat, tag_len: nat): Extent
    requires 0 <= e.left
  {
    if DeleteAccepted(e.left, tag_pos, tag_len) then
      Extent(e.offset, LeftAfter(e.left, tag_len), Wrap16(e.rel - tag_len / 8 % 0x100))
    else e
  }

  lemma AcceptedExtent(e: Extent, tag_pos: nat, tag_len: nat)
    requires 0 <= e.left && DeleteAccepted(e.left, tag_pos, tag_len)
    ensures DeleteExtent(e, tag_pos, tag_len) ==
            Extent(e.offset, LeftAfter(e.left, tag_len), Wrap16(e.rel - tag_len / 8 % 0x100))
  {}

  /** Clearing the x low bits of one byte. */
  lemma TailCleared(was: seq<byte>, now: seq<byte>, k: nat, x: nat, p: nat, q: nat, end: nat)
    requires k < |was| && x < 8 && now == was[k := And(was[k], MoveBitLeft(ONES, x))]
    requires end == 8 * k + 8 && p <= q == end - x
    ensures BitsOf(now)[..p] == BitsOf(was)[..p]
    ensures BitsOf(now)[p..end] == BitsOf(was)[p..q] + Fill(false, x)
  {
    forall i | 0 <= i < end
      ensures BitsOf(now)[i] == if i < q then BitsOf(was)[i] else false
    {
      assert i == 8 * (i / 8) + i % 8;
      BitsOfAt(now, i / 8, i % 8);
      BitsOfAt(was, i / 8, i % 8);
    }
  }

  /** A deletion seen through the window that begins at p: the bits [from, end) have moved to at. */
  lemma DeletedWindow(was: seq<bool>, mid: seq<bool>, now: seq<bool>, pad: nat,
                      p: nat, at: nat, from: nat, end: nat, q: nat, end': nat)
    requires p <= at && from <= end <= |was| && q == at + (end - from) && end' == q + pad <= |now|
    requires |mid| == |was| && q <= |was| && mid[..at] == was[..at] && mid[at..q] == was[from..end]
    requires now[..p] == mid[..p] && now[p..end'] == mid[p..q] + Fill(false, pad)
    ensures now[..p] == was[..p]
    ensures now[p..end'] == was[p..at] + was[from..end] + Fill(false, pad)
  {
    assert mid[..p] == mid[..at][..p] == was[..at][..p];
    assert mid[p..q] == mid[..at][p..] + mid[at..q];
  }

  /** The length check accepts every field inside the window, and of the fields that reach behind it exactly those
      whose overrun is, modulo 2^16, above 2^15 bits or a multiple of 2^16. */
  lemma DeleteCheckExact(left: nat, pos: nat, n: nat)
    requires left <= RAW_MAX_LEN + PREBUF_LEN
    ensures DeleteAccepted(left, pos, n) <==>
            pos + n <= 8 * left || (pos + n - 8 * left - 1) % 0x1_0000 >= 0x8000
  {}

  /** The new length, rounded up, is that of the bits in front of the field, the bits behind it and the padding. */
  lemma DeleteArithmetic(left: nat, pos: nat, n: nat, from: nat, left': nat)
    requires from == Wrap16(pos + n) <= 8 * left <= 8 * (RAW_MAX_LEN + PREBUF_LEN) && left' == LeftAfter(left, n)
    requires pos + (8 * left - from) <= 8 * (RAW_MAX_LEN + PREBUF_LEN) && left' <= RAW_MAX_LEN + PREBUF_LEN
    ensures Wrap16(8 * left - (pos + n)) == 8 * left - from
    ensures 8 * left' == pos + (8 * left - from) + n % 8
  {
    var k, m := (pos + n) / 0x1_0000, (8 * left - n + 7) / 0x1_0000_0000;
    RoundedUp(8 * left - n + 7, left', m);
    LastOctet(8 * left - n + 7, left - n / 8, 7 - n % 8);
    SameSmall(8 * left', pos + (8 * left - from) + n % 8, 0x1_0000 * m + k);
    WrapIs(8 * left - (pos + n), -k, 8 * left - from);
  }

  lemma WrapIs(v: int, q: int, r: nat)
    requires v == 0x1_0000 * q + r && r < 0x1_0000
    ensures Wrap16(v) == r
  {}

  /** Two 16-bit numbers that are congruent modulo 2^16 are the same. */
  lemma SameSmall(a: nat, b: nat, d: int)
    requires a < 0x1_0000 && b < 0x1_0000 && b - a == 0x1_0000 * d
    ensures a == b
  {}

  lemma RoundedUp(v: int, r: nat, m: int)
    requires r == Wrap32(v) / 8 && m == v / 0x1_0000_0000
    ensures 8 * r == v - 0x1_0000_0000 * m - v % 8
  {
    var s := Wrap32(v) - 8 * r;
    assert v == 0x1_0000_0000 * m + Wrap32(v) && 0 <= s < 8;
    LastOctet(v, 0x2000_0000 * m + r, s);
  }

  lemma LastOctet(v: int, q: int, s: nat)
    requires v == 8 * q + s && s < 8
    ensures v / 8 == q && v % 8 == s
  {}

  /** The buffer steps of execute_DELETE_FIELD, with `left` the new length of the window: the bits [from, end) behind
      the field move to its position. */
  method CutBits(buf: array<byte>, base: nat, tag_pos: nat, from_pos: nat, behind: nat, pad: nat, left: nat,
                 slack: byte, ghost p: nat, ghost at: nat, ghost from: nat, ghost end: nat, ghost end': nat)
    requires tag_pos < 0x1_0000 && from_pos < 0x1_0000 && behind <= 8 * RAW_MAX_LEN && Admissible(tag_pos, behind)
    requires p == 8 * base && at == p + tag_pos && from == p + from_pos && end == from + behind
    requires end + 8 <= 8 * buf.Length && end' == at + behind + pad == 8 * (base + left) <= 8 * buf.Length
    requires pad < 8 && (pad != 0 ==> left > 0) && base + tag_pos / 8 < buf.Length
    modifies buf
    ensures BitsOf(buf[..])[..p] == old(BitsOf(buf[..]))[..p]
    ensures BitsOf(buf[..])[p..end'] ==
            old(BitsOf(buf[..]))[p..at] + old(BitsOf(buf[..]))[from..end] + Fill(false, pad)
  {
    ghost var was, q := BitsOf(buf[..]), at + behind;
    var saved := SaveBits(buf[..], base, from_pos, behind, slack, from, end);
    WriteBits(buf, base, saved, tag_pos, behind, at, q);
    ghost var mid := buf[..];
    if pad != 0 {
      var last := base + left - 1;
      buf[last] := And(buf[last], MoveBitLeft(ONES, pad));
      TailCleared(mid, buf[..], last, pad, p, q, end');
    }
    DeletedWindow(was, BitsOf(mid), BitsOf(buf[..]), pad, p, at, from, end, q, end');
  }

  /** The deletion stays in the buffer: it reads the bits behind the field, whose position is cast to 16 bits, inside
      the window, moves them inside the buffer, and leaves a window inside the buffer. A field inside the window
      always does. */
  predicate Deletable(e: Extent, tag_pos: nat, n: nat)
    requires 0 <= e.left
  {
    var behind := 8 * e.left - Wrap16(tag_pos + n);
    && 0 <= behind <= 8 * RAW_MAX_LEN && Admissible(tag_pos, behind)
    && tag_pos + behind <= 8 * (RAW_MAX_LEN - e.offset) && e.offset + LeftAfter(e.left, n) <= RAW_MAX_LEN
  }

  lemma InsideIsDeletable(e: Extent, tag_pos: nat, n: nat)
    requires 0 <= e.left <= RAW_MAX_LEN + PREBUF_LEN && e.offset + e.left <= RAW_MAX_LEN
    requires tag_pos + n <= 8 * e.left <= tag_pos + n + 8 * RAW_MAX_LEN
    requires Admissible(tag_pos, 8 * e.left - (tag_pos + n))
    ensures DeleteAccepted(e.left, tag_pos, n) && Deletable(e, tag_pos, n) && Wrap16(tag_pos + n) == tag_pos + n
    ensures LeftAfter(e.left, n) == e.left - n / 8
  {}

  /** The state after deleting n bits: the window is what was before and behind them, padded with zeros to whole
      bytes, and no bit before the window changes. */
  twostate predicate BitsDeleted(tag_pos: nat, n: nat, dpp: Packet)
    requires old(dpp.Valid()) && dpp.Valid() && Deletable(old(dpp.Extents()), tag_pos, n)
    reads dpp, dpp.buf, dpp.metadata
  {
    && dpp.Extents() == DeleteExtent(old(dpp.Extents()), tag_pos, n)
    && dpp.Window() ==
       old(dpp.Bits(0, tag_pos)) + old(dpp.Bits(Wrap16(tag_pos + n), 8 * dpp.left_len)) + Fill(false, n % 8)
    && BitsOf(dpp.buf[..])[..8 * dpp.buf_offset] == old(BitsOf(dpp.buf[..]))[..8 * dpp.buf_offset]
  }

  lemma CheckOfCast(v: int, behind: nat)
    requires behind == Wrap16(v)
    ensures Int16(behind) == Int16(v)
  {}

  /** execute_DELETE_FIELD with the field's length at hand. */
  method DeleteBits(tag_pos: nat, n: nat, slack: byte, dpp: Packet) returns (ok: bool)
    requires dpp.Valid() && tag_pos < 0x1_0000
    requires DeleteAccepted(dpp.left_len, tag_pos, n) ==> Deletable(dpp.Extents(), tag_pos, n)
    modifies dpp, dpp.buf, dpp.metadata
    ensures dpp.Valid()
    ensures ok <==> DeleteAccepted(old(dpp.left_len), tag_pos, n)
    ensures dpp.MetadataBits()[16..] == old(dpp.MetadataBits())[16..]
    ensures !ok ==> dpp.Extents() == old(dpp.Extents()) && dpp.buf[..] == old(dpp.buf[..])
    ensures ok ==> BitsDeleted(tag_pos, n, dpp)
  {
    var behind := Wrap16(8 * dpp.left_len - (tag_pos + n));
    CheckOfCast(8 * dpp.left_len - (tag_pos + n), behind);
    if Int16(behind) < 0 {
      return false;
    }
    var from, left := Wrap16(tag_pos + n), LeftAfter(dpp.left_len, n);
    DeleteArithmetic(dpp.left_len, tag_pos, n, from, left);
    AcceptedExtent(dpp.Extents(), tag_pos, n);
    CutWindow(dpp, tag_pos, from, behind, n % 8, left, n / 8 % 0x100, slack);
    ok := true;
  }

  /** Moving the bits behind the field, and the new lengths. */
  method CutWindow(dpp: Packet, tag_pos: nat, from: nat, behind: nat, pad: nat, left: nat, cut: nat, slack: byte)
    requires dpp.Valid() && tag_pos < 0x1_0000 && from + behind == 8 * dpp.left_len && behind <= 8 * RAW_MAX_LEN
    requires Admissible(tag_pos, behind) && pad < 8 && (pad != 0 ==> left > 0)
    requires tag_pos + behind + pad == 8 * left && dpp.offset + left <= RAW_MAX_LEN
    modifies dpp, dpp.buf, dpp.metadata
    ensures dpp.Valid() && dpp.MetadataBits()[16..] == old(dpp.MetadataBits())[16..]
    ensures dpp.Extents() == Extent(old(dpp.offset), left, Wrap16(old(dpp.RelLen()) - cut))
    ensures dpp.Window() == old(dpp.Bits(0, tag_pos)) + old(dpp.Bits(from, 8 * dpp.left_len)) + Fill(false, pad)
    ensures BitsOf(dpp.buf[..])[..8 * dpp.buf_offset] == old(BitsOf(dpp.buf[..]))[..8 * dpp.buf_offset]
  {
    MoveBits(dpp, tag_pos, from, behind, pad, left, slack);
    Resize(dpp, left, 0 - cut);
  }

  /** The buffer steps on the packet. */
  method MoveBits(dpp: Packet, tag_pos: nat, from: nat, behind: nat, pad: nat, left: nat, slack: byte)
    requires dpp.Valid() && tag_pos < 0x1_0000 && from + behind == 8 * dpp.left_len && behind <= 8 * RAW_MAX_LEN
    requires Admissible(tag_pos, behind) && pad < 8 && (pad != 0 ==> left > 0)
    requires tag_pos + behind + pad == 8 * left && dpp.offset + left <= RAW_MAX_LEN
    modifies dpp.buf
    ensures dpp.Bits(0, 8 * left) ==
            old(dpp.Bits(0, tag_pos)) + old(dpp.Bits(from, 8 * dpp.left_len)) + Fill(false, pad)
    ensures BitsOf(dpp.buf[..])[..8 * dpp.buf_offset] == old(BitsOf(dpp.buf[..]))[..8 * dpp.buf_offset]
  {
    ghost var p := 8 * dpp.buf_offset;
    CutBits(dpp.buf, dpp.buf_offset, tag_pos, from, behind, pad, left, slack,
            p, p + tag_pos, p + from, p + 8 * dpp.left_len, p + 8 * left);
  }

  /** Deleting a field that lies inside the window. */
  method DeleteInside(tag_pos: nat, n: nat, slack: byte, dpp: Packet)
    requires dpp.Valid() && tag_pos + n <= 8 * dpp.left_len <= tag_pos + n + 8 * RAW_MAX_LEN
    requires Admissible(tag_pos, 8 * dpp.left_len - (tag_pos + n))
    modifies dpp, dpp.buf, dpp.metadata
    ensures dpp.Valid() && dpp.Extents() == DeleteExtent(old(dpp.Extents()), tag_pos, n)
    ensures dpp.MetadataBits()[16..] == old(dpp.MetadataBits())[16..]
    ensures dpp.Window() == old(dpp.Window())[..tag_pos] + old(dpp.Window())[tag_pos + n..] + Fill(false, n % 8)
    ensures BitsOf(dpp.buf[..])[..8 * dpp.buf_offset] == old(BitsOf(dpp.buf[..]))[..8 * dpp.buf_offset]
  {
    ghost var w, before, behind := dpp.Window(), dpp.Bits(0, tag_pos), dpp.Bits(tag_pos + n, 8 * dpp.left_len);
    assert before == w[..tag_pos] && behind == w[tag_pos + n..];
    InsideIsDeletable(dpp.Extents(), tag_pos, n);
    var ok := DeleteBits(tag_pos, n, slack, dpp);
  }

  /** execute_DELETE_FIELD. */
  method DeleteField(tag_pos: nat, tag_len: Operand, held: seq<byte>, slack: byte, dpp: Packet) returns (ok: bool)
    requires dpp.Valid() && |held| == 4 && tag_pos < 0x1_0000
    requires tag_len.FromField? ==> tag_len.field.len >= 1 && tag_len.field.offset < 0x1_0000
    requires OperandOk(tag_len, dpp) && DeleteAccepted(dpp.left_len, tag_pos, OperandValue(tag_len, dpp))
             ==> Deletable(dpp.Extents(), tag_pos, OperandValue(tag_len, dpp))
    modifies dpp, dpp.buf, dpp.metadata
    ensures dpp.Valid()
    ensures ok <==> old(OperandOk(tag_len, dpp) && DeleteAccepted(dpp.left_len, tag_pos, OperandValue(tag_len, dpp)))
    ensures !ok ==> dpp.Extents() == old(dpp.Extents()) && dpp.buf[..] == old(dpp.buf[..])
    ensures dpp.MetadataBits()[16..] == old(dpp.MetadataBits())[16..]
    ensures ok ==> BitsDeleted(tag_pos, old(OperandValue(tag_len, dpp)), dpp)
  {
    var got, n := Get32(tag_len, held, dpp);
    if !got {
      return false;
    }
    ok := DeleteBits(tag_pos, n, slack, dpp);
  }

  lemma AdmissibleSuffix(pos: nat, l: nat)
    requires pos <= l && l % 8 == 0
    ensures Admissible(pos, l - pos)
  {}

  lemma ExtentRoundTrip(e: Extent, tag_pos: nat, tag_len: nat)
    requires 0 <= e.left <= RAW_MAX_LEN + PREBUF_LEN && e.rel < 0x1_0000
    requires tag_len % 8 == 0 && tag_len <= 128 && tag_pos <= 8 * e.left && InsertFits(e, tag_len)
    ensures DeleteExtent(InsertExtent(e, tag_len), tag_pos, tag_len) == e
  {
    var k := tag_len / 8;
    InsertedExtent(e, tag_len, k);
    CutBack(e, e.left + k, Wrap16(e.rel + k), tag_pos, tag_len, k);
  }

  lemma InsertedExtent(e: Extent, tag_len: nat, k: nat)
    requires tag_len == 8 * k && InsertFits(e, tag_len)
    ensures InsertExtent(e, tag_len) == Extent(e.offset, e.left + k, Wrap16(e.rel + k))
  {
    LastOctet(tag_len + 7, k, 7);
  }

  lemma CutBack(e: Extent, left: nat, rel: nat, tag_pos: nat, tag_len: nat, k: nat)
    requires 0 <= e.left <= RAW_MAX_LEN + PREBUF_LEN && e.rel < 0x1_0000 && tag_pos <= 8 * e.left
    requires tag_len == 8 * k <= 128 && left == e.left + k && rel == Wrap16(e.rel + k)
    ensures DeleteExtent(Extent(e.offset, left, rel), tag_pos, tag_len) == e
  {
    WholeBytesDeleted(e, left, tag_pos, tag_len, k);
    WrapBack(e.rel, k);
    LastOctet(tag_len, k, 0);
    AcceptedExtent(Extent(e.offset, left, rel), tag_pos, tag_len);
  }

  lemma WrapBack(rel: nat, k: nat)
    requires rel < 0x1_0000
    ensures Wrap16(Wrap16(rel + k) - k) == rel
  {
    WrapIs(Wrap16(rel + k) - k, -((rel + k) / 0x1_0000), rel);
  }

  lemma WholeBytesDeleted(e: Extent, left: nat, tag_pos: nat, tag_len: nat, k: nat)
    requires left == e.left + k && left <= RAW_MAX_LEN + PREBUF_LEN + 16 && tag_len == 8 * k <= 128
    requires 0 <= e.left && tag_pos <= 8 * e.left
    ensures DeleteAccepted(left, tag_pos, tag_len)
    ensures LeftAfter(left, tag_len) == e.left && k % 0x100 == k
  {
    assert Wrap16(8 * left - (tag_pos + tag_len)) == 8 * e.left - tag_pos;
    assert Wrap32(8 * left - tag_len + 7) == 8 * e.left + 7;
  }

  /** Adding a byte-multiple tag anywhere in the packet and deleting the same position and length restores the
      packet bits, the window, the recorded length and the rest of the metadata. */
  method AddThenDelete(tag_pos: nat, tag_len: nat, value: seq<byte>, slack: byte, dpp: Packet) returns (ok: bool)
    requires dpp.Valid() && |value| == 16 && tag_len % 8 == 0
    requires tag_pos <= 8 * dpp.left_len <= tag_pos + 8 * RAW_MAX_LEN
    modifies dpp, dpp.buf, dpp.metadata
    ensures dpp.Valid() && dpp.Window() == old(dpp.Window())
    ensures dpp.Extents() == old(dpp.Extents())
    ensures dpp.metadata[..] == old(dpp.metadata[..])
    ensures ok <==> tag_len <= 128 && InsertFits(old(dpp.Extents()), tag_len)
    ensures BitsOf(dpp.buf[..])[..8 * dpp.buf_offset] == old(BitsOf(dpp.buf[..]))[..8 * dpp.buf_offset]
  {
    ghost var w, m, e := dpp.Window(), dpp.metadata[..], dpp.Extents();
    AdmissibleSuffix(tag_pos, 8 * dpp.left_len);
    ok := AddField(tag_pos, tag_len, value, slack, dpp);
    if ok {
      RemoveAdded(tag_pos, tag_len, slack, dpp, BitsOf(value)[..tag_len], w, m, e);
    }
  }

  /** The deletion that follows an addition to the window w, the metadata m and the extents e. */
  method RemoveAdded(tag_pos: nat, tag_len: nat, slack: byte, dpp: Packet,
                     ghost tag: seq<bool>, ghost w: seq<bool>, ghost m: seq<byte>, ghost e: Extent)
    requires dpp.Valid() && tag_len % 8 == 0 && tag_len <= 128 && 0 <= e.left && e.rel < 0x1_0000
    requires -PREBUF_LEN <= e.offset && e.offset + e.left <= RAW_MAX_LEN
    requires tag_pos <= 8 * e.left <= tag_pos + 8 * RAW_MAX_LEN
    requires InsertFits(e, tag_len) && dpp.Extents() == InsertExtent(e, tag_len)
    requires |w| == 8 * e.left && |tag| == tag_len && |w| + tag_len <= |dpp.Window()|
    requires dpp.Window()[..|w| + tag_len] == w[..tag_pos] + tag + w[tag_pos..]
    requires 2 <= |m| == dpp.metadata.Length && ToNat(BitsOf(m)[..16]) == e.rel
    requires dpp.MetadataBits()[16..] == BitsOf(m)[16..]
    modifies dpp, dpp.buf, dpp.metadata
    ensures dpp.Valid() && dpp.Window() == w && dpp.Extents() == e && dpp.metadata[..] == m
    ensures BitsOf(dpp.buf[..])[..8 * dpp.buf_offset] == old(BitsOf(dpp.buf[..]))[..8 * dpp.buf_offset]
  {
    AddedExtent(e, tag_pos, tag_len, dpp.left_len);
    TagRemoved(w, dpp.Window(), tag, tag_pos, tag_len);
    DeleteInside(tag_pos, tag_len, slack, dpp);
    ExtentRoundTrip(e, tag_pos, tag_len);
    assert dpp.RelLen() == e.rel;
    SameMetadata(m, dpp.metadata[..]);
  }

  lemma AddedExtent(e: Extent, tag_pos: nat, tag_len: nat, left: int)
    requires tag_len % 8 == 0 && tag_len <= 128 && 0 <= e.left && InsertFits(e, tag_len)
    requires left == InsertExtent(e, tag_len).left && tag_pos <= 8 * e.left <= tag_pos + 8 * RAW_MAX_LEN
    ensures 8 * left == 8 * e.left + tag_len
    ensures 8 * left - (tag_pos + tag_len) == 8 * e.left - tag_pos && tag_pos + tag_len <= 8 * left
    ensures Admissible(tag_pos, 8 * e.left - tag_pos)
  {
    AdmissibleSuffix(tag_pos, 8 * e.left);
  }

  lemma TagRemoved(w: seq<bool>, w1: seq<bool>, tag: seq<bool>, pos: nat, n: nat)
    requires pos <= |w| && |w1| == |w| + n && |tag| == n && n % 8 == 0
    requires w1[..|w| + n] == w[..pos] + tag + w[pos..]
    ensures w1[..pos] + w1[pos + n..] + Fill(false, n % 8) == w
  {
    assert w1 == w1[..|w| + n];
  }

  lemma SameMetadata(m: seq<byte>, m': seq<byte>)
    requires 2 <= |m| == |m'| && BitsOf(m)[16..] == BitsOf(m')[16..]
    requires ToNat(BitsOf(m)[..16]) == ToNat(BitsOf(m')[..16])
    ensures m == m'
  {
    LowBitsToNat(BitsOf(m)[..16]);
    LowBitsToNat(BitsOf(m')[..16]);
    assert BitsOf(m) == BitsOf(m)[..16] + BitsOf(m)[16..];
    assert BitsOf(m') == BitsOf(m')[..16] + BitsOf(m')[16..];
    BitsOfInjective(m, m');
  }

  /** The bits of the number of x plus an increment, in as many bits. */
  function Increased(x: seq<bool>, increment: int): (r: seq<bool>)
    ensures |r| == |x|
  {
    LowBits(ToNat(x) + increment, |x|)
  }

  /** execute_MODIFY_FIELD: the field's number grows by the increment modulo 2^len and nothing else changes. */
  method ModifyField(f: Field, increment: int, held: seq<byte>, slack: byte, dpp: Packet) returns (ok: bool)
    requires dpp.Valid() && |held| == 4
    requires 1 <= f.len && f.offset < 0x1_0000 && Admissible(f.offset, f.len)
    modifies dpp.buf, dpp.metadata
    ensures ok <==> FieldFits(f, dpp)
    ensures !ok ==> dpp.buf[..] == old(dpp.buf[..]) && dpp.metadata[..] == old(dpp.metadata[..])
    ensures f.id != METADATA_FIELD_ID || f.offset >= 16 ==> dpp.Extents() == old(dpp.Extents())
    ensures ok ==> FieldWritten(f, Increased(old(FieldBits(f, dpp)), increment), dpp)
  {
    var got, value := Get32(FromField(f), held, dpp);
    if !got {
      return false;
    }
    LowBitsWrapped(value + increment, f.len);
    assert LowBits(Wrap32(value + increment), f.len) == Increased(FieldBits(f, dpp), increment);
    ok := Write32ToField(Wrap32(value + increment), f, slack, dpp);
  }

  lemma ReplacedBack(d: seq<bool>, x: seq<bool>, p: nat)
    requires p + |x| <= |d|
    ensures Replaced(d, x, p)[p..p + |x|] == x
    ensures Replaced(Replaced(d, x, p), d[p..p + |x|], p) == d
  {}

  lemma IncreaseUndone(x: seq<bool>, inc: int)
    ensures Increased(Increased(x, inc), -inc) == x
  {
    var n, v, y := |x|, ToNat(x) + inc, Increased(x, inc);
    LowBitsToNat(y);
    LowBitsOfSum(ToNat(y), v, -inc, n);
    LowBitsToNat(x);
  }

  /** The number of the increased field is the sum modulo 2^n, n being the field's length. */
  lemma IncreasedNumber(x: seq<bool>, inc: int) returns (k: int)
    ensures ToNat(Increased(x, inc)) == ToNat(x) + inc - k * Pow2(|x|)
    ensures ToNat(Increased(x, inc)) < Pow2(|x|)
  {
    k := LowBitsNumber(|x|, ToNat(x) + inc);
    ToNatBound(Increased(x, inc));
  }

  lemma LowBitsNumber(n: nat, v: int) returns (k: int)
    ensures ToNat(LowBits(v, n)) == v - k * Pow2(n)
  {
    ToNatLowBits(v, n);
    k := v / Pow2(n);
  }

  /** Rewriting a field with its number increased, and the result with its number decreased, is the identity. */
  lemma ModifyUndone(d: seq<bool>, x: seq<bool>, p: nat, end: nat, inc: int, d1: seq<bool>, x1: seq<bool>,
                     now: seq<byte>, was: seq<byte>)
    requires p <= end <= |d| == |d1| && x == d[p..end] && x1 == d1[p..end]
    requires d == BitsOf(was) && d1 == Replaced(d, Increased(x, inc), p)
    requires BitsOf(now) == Replaced(d1, Increased(x1, -inc), p)
    ensures now == was
  {
    ReplacedBack(d, Increased(x, inc), p);
    IncreaseUndone(x, inc);
    BitsOfInjective(now, was);
  }

  /** A successful modification of the field at [p, end) of the buffer d. */
  method ModifyAt(f: Field, increment: int, held: seq<byte>, slack: byte, dpp: Packet,
                  ghost d: seq<bool>, ghost p: nat, ghost end: nat) returns (ghost x: seq<bool>)
    requires dpp.Valid() && |held| == 4 && FieldFits(f, dpp)
    requires 1 <= f.len && f.offset < 0x1_0000 && Admissible(f.offset, f.len)
    requires d == FieldBuffer(f, dpp) && p == FieldStart(f, dpp) && end == p + f.len
    modifies dpp.buf, dpp.metadata
    ensures end <= |d| && x == d[p..end]
    ensures FieldBuffer(f, dpp) == Replaced(d, Increased(x, increment), p)
    ensures f.id == METADATA_FIELD_ID ==> dpp.buf[..] == old(dpp.buf[..])
    ensures f.id != METADATA_FIELD_ID ==> dpp.metadata[..] == old(dpp.metadata[..])
  {
    x := FieldBits(f, dpp);
    var ok := ModifyField(f, increment, held, slack, dpp);
  }

  /** All bytes of the buffer that holds the field. */
  ghost function BufferBytes(f: Field, dpp: Packet): seq<byte>
    reads dpp, dpp.buf, dpp.metadata
  {
    if f.id == METADATA_FIELD_ID then dpp.metadata[..] else dpp.buf[..]
  }

  /** Undoing the modification of the field at [p, end) of the bytes that were there before. */
  method ModifyBack(f: Field, increment: int, held: seq<byte>, slack: byte, dpp: Packet,
                    ghost was: seq<byte>, ghost d1: seq<bool>, ghost p: nat, ghost end: nat)
    requires dpp.Valid() && |held| == 4 && FieldFits(f, dpp) && d1 == FieldBuffer(f, dpp)
    requires 1 <= f.len && f.offset < 0x1_0000 && Admissible(f.offset, f.len)
    requires p == FieldStart(f, dpp) && end == p + f.len <= 8 * |was|
    requires d1 == Replaced(BitsOf(was), Increased(BitsOf(was)[p..end], increment), p)
    modifies dpp.buf, dpp.metadata
    ensures BufferBytes(f, dpp) == was
    ensures f.id == METADATA_FIELD_ID ==> dpp.buf[..] == old(dpp.buf[..])
    ensures f.id != METADATA_FIELD_ID ==> dpp.metadata[..] == old(dpp.metadata[..])
  {
    ghost var x1 := ModifyAt(f, -increment, held, slack, dpp, d1, p, end);
    ModifyUndone(BitsOf(was), BitsOf(was)[p..end], p, end, increment, d1, x1, BufferBytes(f, dpp), was);
  }

  /** Adding an increment and then its negation restores every bit of the packet and the metadata. */
  method ModifyThenUndo(f: Field, increment: int, held: seq<byte>, slack: byte, dpp: Packet)
    requires dpp.Valid() && |held| == 4 && FieldFits(f, dpp)
    requires 1 <= f.len && f.offset < 0x1_0000 && Admissible(f.offset, f.len)
    modifies dpp.buf, dpp.metadata
    ensures dpp.buf[..] == old(dpp.buf[..]) && dpp.metadata[..] == old(dpp.metadata[..])
  {
    ghost var p, was := FieldStart(f, dpp), BufferBytes(f, dpp);
    ghost var x := ModifyAt(f, increment, held, slack, dpp, BitsOf(was), p, p + f.len);
    ModifyBack(f, increment, held, slack, dpp, was, FieldBuffer(f, dpp), p, p + f.len);
  }
}
