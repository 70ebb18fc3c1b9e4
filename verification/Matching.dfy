/** How a flow entry's fields are packed into one value and mask, a packet's fields into one key, and the two
    compared byte by byte: local_resource/pof_flow_table.c. */
module Matching {
  import opened Bits
  import opened Bitfield
  import opened Datapath

  const MAX_FIELD_BYTES := 16   // POF_MAX_FIELD_LENGTH_IN_BYTE
  const MAX_MATCH_FIELDS := 8   // POF_MAX_MATCH_FIELD_NUM

  /** struct pof_match_x. Value and mask are given with the one byte that follows each of them in memory, which
      an unaligned write of a full field reads and masks away. */
  datatype MatchX = MatchX(field: Field, value: seq<byte>, mask: seq<byte>)
  {
    predicate Valid() {
      1 <= field.len <= 8 * MAX_FIELD_BYTES && |value| == |mask| == MAX_FIELD_BYTES + 1
    }

    function Source(ofMask: bool): seq<byte> {
      if ofMask then mask else value
    }

    /** The bits of the value or of the mask. */
    function Part(ofMask: bool): (r: seq<bool>)
      requires Valid()
      ensures |r| == field.len
    {
      BitsOf(Source(ofMask))[..field.len]
    }
  }

  /** The number of bits of all fields together. */
  function Total(ms: seq<MatchX>): nat {
    if ms == [] then 0 else Total(ms[..|ms| - 1]) + ms[|ms| - 1].field.len
  }

  function TotalLen(fs: seq<Field>): nat {
    if fs == [] then 0 else TotalLen(fs[..|fs| - 1]) + fs[|fs| - 1].len
  }

  /** Fields that the write loop is sound for, one behind the other. */
  predicate Layout(ms: seq<MatchX>)
    ensures Layout(ms) ==> |ms| <= Total(ms) <= 8 * MAX_FIELD_BYTES * |ms|
  {
    ms == [] ||
    var init, m := ms[..|ms| - 1], ms[|ms| - 1];
    Layout(init) && m.Valid() && Admissible(Total(init), m.field.len)
  }

  predicate FieldLayout(fs: seq<Field>)
    ensures FieldLayout(fs) ==> |fs| <= TotalLen(fs) <= 8 * MAX_FIELD_BYTES * |fs|
  {
    fs == [] ||
    var init, f := fs[..|fs| - 1], fs[|fs| - 1];
    FieldLayout(init) && 1 <= f.len <= 8 * MAX_FIELD_BYTES && Admissible(TotalLen(init), f.len)
  }

  lemma {:induction false} LayoutPrefix(ms: seq<MatchX>, k: nat)
    requires Layout(ms) && k <= |ms|
    ensures Layout(ms[..k]) && Total(ms[..k]) <= Total(ms)
    ensures k < |ms| ==>
      ms[k].Valid() && Admissible(Total(ms[..k]), ms[k].field.len) && Total(ms[..k]) + ms[k].field.len <= Total(ms)
  {
    if k == |ms| {
      assert ms[..k] == ms;
    } else {
      var init := ms[..|ms| - 1];
      LayoutPrefix(init, k);
      assert init[..k] == ms[..k];
    }
  }

  lemma {:induction false} FieldLayoutPrefix(fs: seq<Field>, k: nat)
    requires FieldLayout(fs) && k <= |fs|
    ensures FieldLayout(fs[..k]) && TotalLen(fs[..k]) <= TotalLen(fs)
    ensures k < |fs| ==> 1 <= fs[k].len <= 8 * MAX_FIELD_BYTES && Admissible(TotalLen(fs[..k]), fs[k].len)
                         && TotalLen(fs[..k]) + fs[k].len <= TotalLen(fs)
  {
    if k == |fs| {
      assert fs[..k] == fs;
    } else {
      var init := fs[..|fs| - 1];
      FieldLayoutPrefix(init, k);
      assert init[..k] == fs[..k];
    }
  }

  /** The buffer bits d after every field has been written behind the fields before it. */
  function Assembled(d: seq<bool>, ms: seq<MatchX>, ofMask: bool): (r: seq<bool>)
    requires Layout(ms) && Total(ms) <= |d|
    ensures |r| == |d|
  {
    if ms == [] then d else
      var init, m := ms[..|ms| - 1], ms[|ms| - 1];
      Covered(Assembled(d, init, ofMask), BitsOf(m.Source(ofMask)), Total(init), m.field.len)
  }

  /** The fields' bits one behind the other. */
  function Concat(ms: seq<MatchX>, ofMask: bool): (r: seq<bool>)
    requires Layout(ms)
    ensures |r| == Total(ms)
  {
    if ms == [] then [] else Concat(ms[..|ms| - 1], ofMask) + ms[|ms| - 1].Part(ofMask)
  }

  /** Some field has a stray bit, behind its own length, that the write loop lets through to position i. */
  predicate Spills(ms: seq<MatchX>, ofMask: bool, i: nat)
    requires Layout(ms)
  {
    ms != [] &&
    var init, m := ms[..|ms| - 1], ms[|ms| - 1];
    || Spills(init, ofMask, i)
    || (Leaks(Total(init), m.field.len, i) && i - Total(init) < 8 * |m.Source(ofMask)|
        && BitsOf(m.Source(ofMask))[i - Total(init)])
  }

  lemma LayoutNext(ms: seq<MatchX>, i: nat, next: seq<MatchX>)
    requires Layout(ms) && i < |ms| && next == ms[..i + 1]
    ensures Layout(next) && next[..i] == ms[..i] && next[i] == ms[i]
    ensures Layout(ms[..i]) && ms[i].Valid() && Admissible(Total(ms[..i]), ms[i].field.len)
    ensures Total(next) == Total(ms[..i]) + ms[i].field.len <= Total(ms)
  {
    LayoutPrefix(ms, i);
    LayoutPrefix(ms, i + 1);
  }

  /** One iteration of valueMaskAssemble for one of the two buffers: next is init and the field m. */
  method CoverNext(data: array<byte>, m: MatchX, ofMask: bool, offset_b: nat, ghost d: seq<bool>,
                   ghost next: seq<MatchX>)
    requires next != [] && Layout(next) && next[|next| - 1] == m && offset_b == Total(next[..|next| - 1]) < 0x1_0000
    requires Total(next) <= |d| == 8 * data.Length
    requires BitsOf(data[..]) == Assembled(d, next[..|next| - 1], ofMask)
    modifies data
    ensures BitsOf(data[..]) == Assembled(d, next, ofMask)
  {
    ghost var at: nat := 8 * 0 + offset_b;
    assert at == offset_b;
    CoverBit(data, 0, m.Source(ofMask), offset_b, m.field.len);
  }

  /** valueMaskAssemble. The source's uint16_t offset cannot wrap for at most eight fields of at most 128 bits. */
  method ValueMaskAssemble(matches: seq<MatchX>, value: array<byte>, mask: array?<byte>, keyLen: nat)
    returns (ok: bool)
    requires Layout(matches) && |matches| <= MAX_MATCH_FIELDS && mask != value
    requires value.Length == MAX_FIELD_BYTES * MAX_MATCH_FIELDS
    requires mask != null ==> mask.Length == MAX_FIELD_BYTES * MAX_MATCH_FIELDS
    modifies value, mask
    ensures BitsOf(value[..]) == Assembled(old(BitsOf(value[..])), matches, false)
    ensures mask != null ==> BitsOf(mask[..]) == Assembled(old(BitsOf(mask[..])), matches, true)
    ensures ok <==> Total(matches) == keyLen
  {
    var i, offset_b := 0, 0;
    ghost var done: seq<MatchX>, v, m := [], BitsOf(value[..]), if mask == null then [] else BitsOf(mask[..]);
    while i < |matches|
      invariant i <= |matches| && done == matches[..i] && Layout(done) && offset_b == Total(done) <= Total(matches)
      invariant BitsOf(value[..]) == Assembled(v, done, false)
      invariant mask != null ==> BitsOf(mask[..]) == Assembled(m, done, true)
    {
      ghost var next := matches[..i + 1];
      LayoutNext(matches, i, next);
      CoverNext(value, matches[i], false, offset_b, v, next);
      if mask != null {
        CoverNext(mask, matches[i], true, offset_b, m, next);
      }
      offset_b := offset_b + matches[i].field.len;
      i := i + 1;
      done := next;
    }
    assert done == matches;
    ok := offset_b == keyLen;
  }

  /** What writing all fields means, bit by bit: the fields' own bits in order, and behind them only strays. */
  lemma {:induction false} AssembledAt(d: seq<bool>, ms: seq<MatchX>, ofMask: bool, i: nat)
    requires Layout(ms) && Total(ms) <= |d| && i < |d|
    ensures Assembled(d, ms, ofMask)[i] ==
            if i < Total(ms) then Concat(ms, ofMask)[i] else d[i] || Spills(ms, ofMask, i)
  {
    if ms != [] {
      var init, m := ms[..|ms| - 1], ms[|ms| - 1];
      AssembledAt(d, init, ofMask, i);
      CoveredBitsAt(Assembled(d, init, ofMask), BitsOf(m.Source(ofMask)), Total(init), m.field.len, |d|, i);
    }
  }

  /** Bit j of field k's value or mask stands j bits behind the fields before it. */
  lemma {:induction false} ConcatAt(ms: seq<MatchX>, ofMask: bool, k: nat, j: nat, at: nat)
    requires Layout(ms) && k < |ms| && j < ms[k].field.len && at == Total(ms[..k])
    ensures j < 8 * |ms[k].value| == 8 * |ms[k].mask| && at + j < Total(ms)
    ensures Concat(ms, ofMask)[at + j] == Bit(if ofMask then ms[k].mask else ms[k].value, j)
  {
    LayoutPrefix(ms, k + 1);
    PrefixOfPrefix(ms, k + 1, k);
    InConcat(ms, ofMask, ms[..k + 1], ms[..k], j);
  }

  lemma {:induction false} InConcat(ms: seq<MatchX>, ofMask: bool, pre: seq<MatchX>, init: seq<MatchX>, j: nat)
    requires Layout(ms) && Layout(pre) && pre <= ms && pre != [] && init == pre[..|pre| - 1]
    requires j < pre[|pre| - 1].field.len
    ensures j < 8 * |pre[|init|].value| == 8 * |pre[|init|].mask| && Total(init) + j < Total(ms)
    ensures Concat(ms, ofMask)[Total(init) + j] == Bit(if ofMask then pre[|init|].mask else pre[|init|].value, j)
  {
    LastConcatBit(pre, ofMask, j);
    ConcatPrefix(ms, ofMask, pre, Total(init) + j);
  }

  lemma {:induction false} LastConcatBit(ms: seq<MatchX>, ofMask: bool, j: nat)
    requires Layout(ms) && ms != [] && j < ms[|ms| - 1].field.len
    ensures var l := |ms| - 1;
            j < 8 * |ms[l].value| == 8 * |ms[l].mask| && Total(ms) == Total(ms[..l]) + ms[l].field.len &&
            Concat(ms, ofMask)[Total(ms[..l]) + j] == Bit(if ofMask then ms[l].mask else ms[l].value, j)
  {
    var l := |ms| - 1;
    PartAt(ms[l], ofMask, j);
    AfterAppended(Concat(ms, ofMask), Concat(ms[..l], ofMask), ms[l].Part(ofMask), Total(ms[..l]) + j);
  }

  lemma {:induction false} ConcatPrefix(ms: seq<MatchX>, ofMask: bool, pre: seq<MatchX>, i: nat)
    requires Layout(ms) && Layout(pre) && pre <= ms && i < Total(pre)
    ensures Total(pre) <= Total(ms) && Concat(ms, ofMask)[i] == Concat(pre, ofMask)[i]
    decreases |ms|
  {
    if |pre| < |ms| {
      var l := |ms| - 1;
      ConcatPrefix(ms[..l], ofMask, pre, i);
      BeforeAppended(Concat(ms, ofMask), Concat(ms[..l], ofMask), ms[l].Part(ofMask), i);
    } else {
      assert pre == ms;
    }
  }

  lemma AfterAppended<T>(r: seq<T>, a: seq<T>, b: seq<T>, i: nat)
    requires r == a + b && |a| <= i < |r|
    ensures r[i] == b[i - |a|]
  {}

  lemma PartAt(m: MatchX, ofMask: bool, j: nat)
    requires m.Valid() && j < m.field.len
    ensures m.Part(ofMask)[j] == Bit(if ofMask then m.mask else m.value, j)
  {
    BitAt(m.Source(ofMask), j);
  }

  /** The bits of one table field in the metadata or in the packet window. */
  function ReadField(f: Field, packet: seq<bool>, metadata: seq<bool>): (r: seq<bool>)
    requires f.offset + f.len <= if f.id == METADATA_FIELD_ID then |metadata| else |packet|
    ensures |r| == f.len
  {
    if f.id == METADATA_FIELD_ID then metadata[f.offset..f.offset + f.len]
    else packet[f.offset..f.offset + f.len]
  }

  predicate Inside(f: Field, packetBytes: nat, metadataBytes: nat) {
    f.offset + f.len <= 8 * if f.id == METADATA_FIELD_ID then metadataBytes else packetBytes
  }

  predicate AllInside(fs: seq<Field>, packetBytes: nat, metadataBytes: nat) {
    forall k :: 0 <= k < |fs| ==> Inside(fs[k], packetBytes, metadataBytes)
  }

  /** The read stays inside the buffers, with the one byte that the copy loop reads behind the field. */
  predicate Readable(f: Field, packetBytes: nat, metadataBytes: nat)
    ensures Readable(f, packetBytes, metadataBytes) ==> Inside(f, packetBytes, metadataBytes)
  {
    f.offset < 0x1_0000 &&
    f.offset / 8 + CeilBytes(f.len) < if f.id == METADATA_FIELD_ID then metadataBytes else packetBytes
  }

  predicate AllReadable(fs: seq<Field>, packetBytes: nat, metadataBytes: nat)
    ensures AllReadable(fs, packetBytes, metadataBytes) ==> AllInside(fs, packetBytes, metadataBytes)
  {
    forall k :: 0 <= k < |fs| ==> Readable(fs[k], packetBytes, metadataBytes)
  }

  lemma InsideBits(f: Field, packet: seq<byte>, metadata: seq<byte>)
    requires Inside(f, |packet|, |metadata|)
    ensures f.offset + f.len <= if f.id == METADATA_FIELD_ID then |BitsOf(metadata)| else |BitsOf(packet)|
  {}

  /** The packet's fields one behind the other. */
  function KeyBits(fs: seq<Field>, packet: seq<byte>, metadata: seq<byte>): (r: seq<bool>)
    requires AllInside(fs, |packet|, |metadata|)
    ensures |r| == TotalLen(fs)
  {
    if fs == [] then [] else
      var init, f := fs[..|fs| - 1], fs[|fs| - 1];
      KeyBits(init, packet, metadata) + ReadField(f, BitsOf(packet), BitsOf(metadata))
  }

  /** Bit j of the field: bit offset + j of the packet window, or of the metadata. */
  predicate FieldBit(f: Field, packet: seq<byte>, metadata: seq<byte>, j: nat)
    requires Inside(f, |packet|, |metadata|) && j < f.len
  {
    Bit(if f.id == METADATA_FIELD_ID then metadata else packet, f.offset + j)
  }

  /** From bit position at on the key has the bits of the field. */
  ghost predicate HoldsField(key: seq<byte>, at: nat, f: Field, packet: seq<byte>, metadata: seq<byte>) {
    && at + f.len <= 8 * |key| && f.offset + f.len <= 8 * |if f.id == METADATA_FIELD_ID then metadata else packet|
    && forall i :: at <= i < at + f.len ==>
         Bit(key, i) == Bit(if f.id == METADATA_FIELD_ID then metadata else packet, f.offset + (i - at))
  }

  lemma ReadFieldAt(f: Field, packet: seq<byte>, metadata: seq<byte>, j: nat)
    requires Inside(f, |packet|, |metadata|) && j < f.len
    ensures f.offset + f.len <= 8 * |if f.id == METADATA_FIELD_ID then metadata else packet|
    ensures f.offset + f.len <= if f.id == METADATA_FIELD_ID then |BitsOf(metadata)| else |BitsOf(packet)|
    ensures ReadField(f, BitsOf(packet), BitsOf(metadata))[j] ==
            Bit(if f.id == METADATA_FIELD_ID then metadata else packet, f.offset + j)
  {
    InsideBits(f, packet, metadata);
    BitAt(if f.id == METADATA_FIELD_ID then metadata else packet, f.offset + j);
  }

  /** Position i of the fields' bits, inside field k. */
  lemma {:induction false} KeyBitsAt(fs: seq<Field>, packet: seq<byte>, metadata: seq<byte>, k: nat, i: nat, at: nat)
    requires AllInside(fs, |packet|, |metadata|) && k < |fs| && at == TotalLen(fs[..k]) && at <= i < at + fs[k].len
    ensures at + fs[k].len <= TotalLen(fs) && Inside(fs[k], |packet|, |metadata|)
    ensures KeyBits(fs, packet, metadata)[i] == FieldBit(fs[k], packet, metadata, i - at)
  {
    PrefixOfPrefix(fs, k + 1, k);
    KeyBitsPrefix(fs, packet, metadata, fs[..k + 1], i);
    LastKeyBit(fs[..k + 1], packet, metadata, i);
  }

  lemma {:induction false} KeyBitsPrefix(fs: seq<Field>, packet: seq<byte>, metadata: seq<byte>, pre: seq<Field>,
                                         i: nat)
    requires AllInside(fs, |packet|, |metadata|) && pre <= fs && i < TotalLen(pre)
    ensures AllInside(pre, |packet|, |metadata|) && TotalLen(pre) <= TotalLen(fs)
    ensures KeyBits(fs, packet, metadata)[i] == KeyBits(pre, packet, metadata)[i]
    decreases |fs|
  {
    if |pre| < |fs| {
      KeyBitsPrefix(fs[..|fs| - 1], packet, metadata, pre, i);
      EarlierKeyBit(fs, packet, metadata, i);
    } else {
      assert pre == fs;
    }
  }

  lemma PrefixOfPrefix<T>(s: seq<T>, l: nat, k: nat)
    requires k < l <= |s|
    ensures s[..l][..k] == s[..k] && s[..l][k] == s[k]
  {}

  lemma {:induction false} LastKeyBit(fs: seq<Field>, packet: seq<byte>, metadata: seq<byte>, i: nat)
    requires AllInside(fs, |packet|, |metadata|) && fs != []
    requires TotalLen(fs[..|fs| - 1]) <= i < TotalLen(fs)
    ensures KeyBits(fs, packet, metadata)[i] ==
            FieldBit(fs[|fs| - 1], packet, metadata, i - TotalLen(fs[..|fs| - 1]))
  {
    InsideBits(fs[|fs| - 1], packet, metadata);
    AppendedBit(fs[|fs| - 1], packet, metadata, KeyBits(fs, packet, metadata),
                KeyBits(fs[..|fs| - 1], packet, metadata), i);
  }

  lemma AppendedBit(f: Field, packet: seq<byte>, metadata: seq<byte>, r: seq<bool>, a: seq<bool>, i: nat)
    requires Inside(f, |packet|, |metadata|) && |a| <= i < |a| + f.len
    requires f.offset + f.len <= if f.id == METADATA_FIELD_ID then |BitsOf(metadata)| else |BitsOf(packet)|
    requires r == a + ReadField(f, BitsOf(packet), BitsOf(metadata))
    ensures r[i] == FieldBit(f, packet, metadata, i - |a|)
  {
    ReadFieldAt(f, packet, metadata, i - |a|);
  }

  lemma {:induction false} EarlierKeyBit(fs: seq<Field>, packet: seq<byte>, metadata: seq<byte>, i: nat)
    requires AllInside(fs, |packet|, |metadata|) && fs != [] && i < TotalLen(fs[..|fs| - 1])
    ensures i < TotalLen(fs) && AllInside(fs[..|fs| - 1], |packet|, |metadata|)
    ensures KeyBits(fs, packet, metadata)[i] == KeyBits(fs[..|fs| - 1], packet, metadata)[i]
  {
    var f := fs[|fs| - 1];
    InsideBits(f, packet, metadata);
    BeforeAppended(KeyBits(fs, packet, metadata), KeyBits(fs[..|fs| - 1], packet, metadata),
                   ReadField(f, BitsOf(packet), BitsOf(metadata)), i);
  }

  lemma BeforeAppended<T>(r: seq<T>, a: seq<T>, b: seq<T>, i: nat)
    requires r == a + b && i < |a|
    ensures r[i] == a[i]
  {}

  /** A key that starts with the fields' bits holds each field behind the fields before it. */
  lemma {:induction false} KeyHolds(fs: seq<Field>, packet: seq<byte>, metadata: seq<byte>, key: seq<byte>, k: nat,
                                    at: nat)
    requires AllInside(fs, |packet|, |metadata|) && k < |fs| && fs[k].len > 0 && at == TotalLen(fs[..k])
    requires TotalLen(fs) <= 8 * |key| && BitsOf(key)[..TotalLen(fs)] == KeyBits(fs, packet, metadata)
    ensures HoldsField(key, at, fs[k], packet, metadata)
  {
    KeyBitsAt(fs, packet, metadata, k, at, at);
    var bits := KeyBits(fs, packet, metadata);
    forall i: nat | at <= i < at + fs[k].len
      ensures bits[i] == FieldBit(fs[k], packet, metadata, i - at)
    {
      KeyBitsAt(fs, packet, metadata, k, i, at);
    }
    HeldByPrefix(key, bits, at, fs[k], packet, metadata);
  }

  lemma HeldByPrefix(key: seq<byte>, bits: seq<bool>, at: nat, f: Field, packet: seq<byte>, metadata: seq<byte>)
    requires |bits| <= 8 * |key| && BitsOf(key)[..|bits|] == bits
    requires Inside(f, |packet|, |metadata|) && at + f.len <= |bits|
    requires forall i :: at <= i < at + f.len ==> bits[i] == FieldBit(f, packet, metadata, i - at)
    ensures HoldsField(key, at, f, packet, metadata)
  {
    forall i: nat | at <= i < at + f.len
      ensures Bit(key, i) == bits[i]
    {
      KeyStarts(key, bits, i, |bits|);
    }
  }

  lemma KeyStarts(key: seq<byte>, bits: seq<bool>, i: nat, n: nat)
    requires i < n == |bits| <= 8 * |key| && BitsOf(key)[..n] == bits
    ensures Bit(key, i) == bits[i]
  {
    BitAt(key, i);
  }

  /** One iteration of keyAssemble, by way of the zeroed bytes tmp: next is the fields done and the field f. */
  method AppendField(key: array<byte>, packet: seq<byte>, metadata: seq<byte>, f: Field, offset_b: nat,
                     ghost was: seq<bool>, ghost next: seq<Field>)
    requires next != [] && next[|next| - 1] == f && FieldLayout(next)
    requires offset_b == TotalLen(next[..|next| - 1]) < 0x1_0000
    requires TotalLen(next) <= |was| == 8 * key.Length
    requires AllReadable(next, |packet|, |metadata|)
    requires BitsOf(key[..]) == KeyBits(next[..|next| - 1], packet, metadata) + was[offset_b..]
    modifies key
    ensures BitsOf(key[..]) == KeyBits(next, packet, metadata) + was[TotalLen(next)..]
  {
    ghost var done := KeyBits(next[..|next| - 1], packet, metadata);
    InsideBits(f, packet, metadata);
    ghost var read := ReadField(f, BitsOf(packet), BitsOf(metadata));
    var field := FetchField(packet, metadata, f, read);
    CoverField(key, field, offset_b, f.len, read);
    ReplacedNext(done, was, read);
  }

  /** The copy into tmp. */
  method FetchField(packet: seq<byte>, metadata: seq<byte>, f: Field, ghost read: seq<bool>) returns (field: seq<byte>)
    requires Readable(f, |packet|, |metadata|) && 1 <= f.len <= 8 * MAX_FIELD_BYTES
    requires f.offset + f.len <= if f.id == METADATA_FIELD_ID then |BitsOf(metadata)| else |BitsOf(packet)|
    requires read == ReadField(f, BitsOf(packet), BitsOf(metadata))
    ensures |field| == MAX_FIELD_BYTES + 1
    ensures BitsOf(field)[..f.len] == read && forall j :: f.len <= j < 8 * CeilBytes(f.len) ==> !BitsOf(field)[j]
  {
    var tmp := new byte[MAX_FIELD_BYTES + 1](_ => ZERO);
    var src := if f.id == METADATA_FIELD_ID then metadata else packet;
    CopyBit(src, 0, tmp, f.offset, f.len);
    ghost var p: nat := 8 * 0 + f.offset;
    assert p == f.offset;
    field := tmp[..];
    assert field[..CeilBytes(f.len)] == tmp[..CeilBytes(f.len)];
    CopiedField(src, p, f.len, field);
  }

  /** Covering with a zero-padded field. */
  method CoverField(key: array<byte>, field: seq<byte>, offset_b: nat, len: nat, ghost read: seq<bool>)
    requires |field| == MAX_FIELD_BYTES + 1
    requires 1 <= len <= 8 * MAX_FIELD_BYTES && Admissible(offset_b, len)
    requires offset_b + len <= 8 * key.Length && offset_b < 0x1_0000
    requires BitsOf(field)[..len] == read && forall j :: len <= j < 8 * CeilBytes(len) ==> !BitsOf(field)[j]
    modifies key
    ensures BitsOf(key[..]) == Replaced(old(BitsOf(key[..])), read, offset_b)
  {
    ghost var was := BitsOf(key[..]);
    CoverBit(key, 0, field, offset_b, len);
    ghost var at: nat := 8 * 0 + offset_b;
    assert at == offset_b;
    ZeroTailCover(was, BitsOf(field), at, len);
  }

  lemma CopiedField(src: seq<byte>, p: nat, n: nat, field: seq<byte>)
    requires p + n <= |BitsOf(src)| && CeilBytes(n) <= |field|
    requires BitsOf(field[..CeilBytes(n)]) == Copied(BitsOf(src), p, n)
    ensures BitsOf(field)[..n] == BitsOf(src)[p..p + n]
    ensures forall j :: n <= j < 8 * CeilBytes(n) ==> !BitsOf(field)[j]
  {
    var c := CeilBytes(n);
    BitsOfSlice(field, 0, c);
    assert field[0..c] == field[..c];
    forall j | 0 <= j < 8 * c
      ensures BitsOf(field)[j] == Copied(BitsOf(src), p, n)[j]
    {
      assert BitsOf(field)[0..8 * c][j] == BitsOf(field)[j];
    }
  }

  /** Writing behind what has been written so far. */
  lemma ReplacedNext(done: seq<bool>, was: seq<bool>, read: seq<bool>)
    requires |done| + |read| <= |was|
    ensures Replaced(done + was[|done|..], read, |done|) == done + read + was[|done| + |read|..]
  {}

  lemma FieldLayoutNext(fs: seq<Field>, i: nat, next: seq<Field>)
    requires FieldLayout(fs) && i < |fs| && next == fs[..i + 1]
    ensures FieldLayout(next) && next[..i] == fs[..i] && next[i] == fs[i]
    ensures FieldLayout(fs[..i])
    ensures TotalLen(next) == TotalLen(fs[..i]) + fs[i].len <= TotalLen(fs)
  {
    FieldLayoutPrefix(fs, i);
    FieldLayoutPrefix(fs, i + 1);
  }

  /** keyAssemble. */
  method KeyAssemble(key: array<byte>, packet: seq<byte>, metadata: seq<byte>, fields: seq<Field>)
    requires FieldLayout(fields) && |fields| <= MAX_MATCH_FIELDS && TotalLen(fields) <= 8 * key.Length
    requires AllReadable(fields, |packet|, |metadata|)
    modifies key
    ensures BitsOf(key[..]) == KeyBits(fields, packet, metadata) + old(BitsOf(key[..]))[TotalLen(fields)..]
    ensures forall k :: 0 <= k < |fields| ==>
      HoldsField(key[..], TotalLen(fields[..k]), fields[k], packet, metadata)
  {
    ghost var was, done: seq<Field> := BitsOf(key[..]), [];
    var i, offset_b := 0, 0;
    while i < |fields|
      invariant i <= |fields| && done == fields[..i] && FieldLayout(done)
      invariant offset_b == TotalLen(done) <= TotalLen(fields)
      invariant AllReadable(done, |packet|, |metadata|)
      invariant BitsOf(key[..]) == KeyBits(done, packet, metadata) + was[offset_b..]
    {
      ghost var next := fields[..i + 1];
      FieldLayoutNext(fields, i, next);
      AppendField(key, packet, metadata, fields[i], offset_b, was, next);
      offset_b := offset_b + fields[i].len;
      i := i + 1;
      done := next;
    }
    assert done == fields;
    forall k | 0 <= k < |fields|
      ensures HoldsField(key[..], TotalLen(fields[..k]), fields[k], packet, metadata)
    {
      FieldLayoutPrefix(fields, k);
      KeyHolds(fields, packet, metadata, key[..], k, TotalLen(fields[..k]));
    }
  }

  /** The masked bits of key and value agree at the first n positions. */
  ghost predicate Agree(mask: seq<bool>, value: seq<bool>, key: seq<bool>, n: nat)
    requires n <= |mask| && n <= |value| && n <= |key|
  {
    forall i :: 0 <= i < n && mask[i] ==> key[i] == value[i]
  }

  /** maskMatch compares whole bytes, so also the bits behind len_b in the last one. */
  method MaskMatch(mask: seq<byte>, value: seq<byte>, key: seq<byte>, len_b: nat) returns (ok: bool)
    requires CeilBytes(len_b) <= |mask| && CeilBytes(len_b) <= |value| && CeilBytes(len_b) <= |key|
    ensures ok <==> Agree(BitsOf(mask), BitsOf(value), BitsOf(key), 8 * CeilBytes(len_b))
  {
    var i := 0;
    while i < CeilBytes(len_b)
      invariant i <= CeilBytes(len_b)
      invariant Agree(BitsOf(mask), BitsOf(value), BitsOf(key), 8 * i)
    {
      ByteAgrees(mask, value, key, i);
      if And(mask[i], key[i]) != And(mask[i], value[i]) {
        return false;
      }
      i := i + 1;
    }
    ok := true;
  }

  lemma ByteAgrees(mask: seq<byte>, value: seq<byte>, key: seq<byte>, k: nat)
    requires k < |mask| && k < |value| && k < |key|
    ensures And(mask[k], key[k]) == And(mask[k], value[k]) <==>
            forall i :: 8 * k <= i < 8 * k + 8 && BitsOf(mask)[i] ==> BitsOf(key)[i] == BitsOf(value)[i]
  {
    var a, b := And(mask[k], key[k]), And(mask[k], value[k]);
    forall j {:trigger a[j]} {:trigger b[j]} | 0 <= j < 8
      ensures a[j] == b[j] <==>
              (BitsOf(mask)[8 * k + j] ==> BitsOf(key)[8 * k + j] == BitsOf(value)[8 * k + j])
    {
      BitsOfAt(mask, k, j);
      BitsOfAt(key, k, j);
      BitsOfAt(value, k, j);
    }
    if a != b {
      var j :| 0 <= j < 8 && a[j] != b[j];
      assert 8 * k <= 8 * k + j < 8 * k + 8;
    } else {
      forall i | 8 * k <= i < 8 * k + 8 && BitsOf(mask)[i]
        ensures BitsOf(key)[i] == BitsOf(value)[i]
      {
        assert a[i - 8 * k] == b[i - 8 * k];
      }
    }
  }

  /** The per-field reading of a match, on bytes: where the field's mask is 1 the packet window or the metadata has
      the entry's value. */
  ghost predicate FieldMatches(m: MatchX, f: Field, packet: seq<byte>, metadata: seq<byte>) {
    && m.Valid() && m.field.len == f.len
    && f.offset + f.len <= 8 * |if f.id == METADATA_FIELD_ID then metadata else packet|
    && forall j :: 0 <= j < f.len && Bit(m.mask, j) ==>
         Bit(if f.id == METADATA_FIELD_ID then metadata else packet, f.offset + j) == Bit(m.value, j)
  }

  lemma FieldMatchesBits(m: MatchX, f: Field, packet: seq<byte>, metadata: seq<byte>)
    requires m.Valid() && m.field.len == f.len && Inside(f, |packet|, |metadata|)
    ensures f.offset + f.len <= if f.id == METADATA_FIELD_ID then |BitsOf(metadata)| else |BitsOf(packet)|
    ensures FieldMatches(m, f, packet, metadata) <==>
            Agree(m.Part(true), m.Part(false), ReadField(f, BitsOf(packet), BitsOf(metadata)), f.len)
  {
    InsideBits(f, packet, metadata);
    forall j | 0 <= j < f.len
      ensures m.Part(true)[j] == Bit(m.mask, j) && m.Part(false)[j] == Bit(m.value, j)
      ensures ReadField(f, BitsOf(packet), BitsOf(metadata))[j] ==
              Bit(if f.id == METADATA_FIELD_ID then metadata else packet, f.offset + j)
    {
      BitAt(m.mask, j);
      BitAt(m.value, j);
      ReadFieldAt(f, packet, metadata, j);
    }
  }

  predicate SameLengths(ms: seq<MatchX>, fs: seq<Field>) {
    |ms| == |fs| && forall k :: 0 <= k < |fs| ==> ms[k].field.len == fs[k].len
  }

  lemma {:induction false} SameTotals(ms: seq<MatchX>, fs: seq<Field>)
    requires SameLengths(ms, fs)
    ensures Total(ms) == TotalLen(fs)
  {
    if ms != [] { SameTotals(ms[..|ms| - 1], fs[..|fs| - 1]); }
  }

  /** Every field of the entry matches the packet's. */
  ghost predicate AllFieldsMatch(ms: seq<MatchX>, fs: seq<Field>, packet: seq<byte>, metadata: seq<byte>) {
    |ms| == |fs| && forall k :: 0 <= k < |ms| ==> FieldMatches(ms[k], fs[k], packet, metadata)
  }

  lemma AllFieldsMatchStep(ms: seq<MatchX>, fs: seq<Field>, packet: seq<byte>, metadata: seq<byte>, l: nat)
    requires |ms| == |fs| == l + 1
    ensures AllFieldsMatch(ms, fs, packet, metadata) <==>
            AllFieldsMatch(ms[..l], fs[..l], packet, metadata) && FieldMatches(ms[l], fs[l], packet, metadata)
  {
    assert forall k :: 0 <= k < l ==> ms[..l][k] == ms[k] && fs[..l][k] == fs[k];
  }

  /** Comparing the concatenations is comparing field by field. */
  lemma {:induction false} ConcatMatches(ms: seq<MatchX>, fs: seq<Field>, packet: seq<byte>, metadata: seq<byte>)
    requires Layout(ms) && SameLengths(ms, fs) && AllInside(fs, |packet|, |metadata|)
    ensures Total(ms) == TotalLen(fs)
    ensures Agree(Concat(ms, true), Concat(ms, false), KeyBits(fs, packet, metadata), Total(ms)) <==>
            AllFieldsMatch(ms, fs, packet, metadata)
  {
    SameTotals(ms, fs);
    if ms != [] {
      var l := |ms| - 1;
      ConcatMatches(ms[..l], fs[..l], packet, metadata);
      FieldMatchesBits(ms[l], fs[l], packet, metadata);
      AllFieldsMatchStep(ms, fs, packet, metadata, l);
      AgreeAppend(Concat(ms[..l], true), Concat(ms[..l], false), KeyBits(fs[..l], packet, metadata),
                  ms[l].Part(true), ms[l].Part(false), ReadField(fs[l], BitsOf(packet), BitsOf(metadata)));
    }
  }

  lemma AgreeAppend(m: seq<bool>, v: seq<bool>, k: seq<bool>, m': seq<bool>, v': seq<bool>, k': seq<bool>)
    requires |m| == |v| == |k| && |m'| == |v'| == |k'|
    ensures Agree(m + m', v + v', k + k', |m + m'|) <==> Agree(m, v, k, |m|) && Agree(m', v', k', |m'|)
  {
    if Agree(m + m', v + v', k + k', |m + m'|) {
      forall j | 0 <= j < |m'| && m'[j]
        ensures k'[j] == v'[j]
      {
        assert (m + m')[|m| + j] == m'[j];
        assert (v + v')[|m| + j] == v'[j] && (k + k')[|m| + j] == k'[j];
      }
      forall j | 0 <= j < |m| && m[j]
        ensures k[j] == v[j]
      {
        assert (m + m')[j] == m[j];
      }
    }
  }

  /** The packet window or the metadata has the entry's value in the whole field. */
  ghost predicate FieldEquals(m: MatchX, f: Field, packet: seq<byte>, metadata: seq<byte>) {
    && m.Valid() && m.field.len == f.len
    && f.offset + f.len <= 8 * |if f.id == METADATA_FIELD_ID then metadata else packet|
    && forall j :: 0 <= j < f.len ==>
         Bit(if f.id == METADATA_FIELD_ID then metadata else packet, f.offset + j) == Bit(m.value, j)
  }

  ghost predicate AllFieldsEqual(ms: seq<MatchX>, fs: seq<Field>, packet: seq<byte>, metadata: seq<byte>) {
    |ms| == |fs| && forall k :: 0 <= k < |ms| ==> FieldEquals(ms[k], fs[k], packet, metadata)
  }

  lemma FieldEqualsBits(m: MatchX, f: Field, packet: seq<byte>, metadata: seq<byte>)
    requires m.Valid() && m.field.len == f.len && Inside(f, |packet|, |metadata|)
    ensures f.offset + f.len <= if f.id == METADATA_FIELD_ID then |BitsOf(metadata)| else |BitsOf(packet)|
    ensures FieldEquals(m, f, packet, metadata) <==>
            m.Part(false) == ReadField(f, BitsOf(packet), BitsOf(metadata))
  {
    InsideBits(f, packet, metadata);
    var read := ReadField(f, BitsOf(packet), BitsOf(metadata));
    forall j | 0 <= j < f.len
      ensures m.Part(false)[j] == Bit(m.value, j)
      ensures read[j] == Bit(if f.id == METADATA_FIELD_ID then metadata else packet, f.offset + j)
    {
      PartAt(m, false, j);
      ReadFieldAt(f, packet, metadata, j);
    }
    if FieldEquals(m, f, packet, metadata) {
      assert m.Part(false) == read;
    }
  }

  lemma AllFieldsEqualStep(ms: seq<MatchX>, fs: seq<Field>, packet: seq<byte>, metadata: seq<byte>, l: nat)
    requires |ms| == |fs| == l + 1
    ensures AllFieldsEqual(ms, fs, packet, metadata) <==>
            AllFieldsEqual(ms[..l], fs[..l], packet, metadata) && FieldEquals(ms[l], fs[l], packet, metadata)
  {
    assert forall k :: 0 <= k < l ==> ms[..l][k] == ms[k] && fs[..l][k] == fs[k];
  }

  /** The packed values are the key's bits if and only if the packet has the entry's value in every field. */
  lemma {:induction false} ConcatEquals(ms: seq<MatchX>, fs: seq<Field>, packet: seq<byte>, metadata: seq<byte>)
    requires Layout(ms) && SameLengths(ms, fs) && AllInside(fs, |packet|, |metadata|)
    ensures Concat(ms, false) == KeyBits(fs, packet, metadata) <==> AllFieldsEqual(ms, fs, packet, metadata)
  {
    if ms != [] {
      var l := |ms| - 1;
      SameTotals(ms[..l], fs[..l]);
      ConcatEquals(ms[..l], fs[..l], packet, metadata);
      FieldEqualsBits(ms[l], fs[l], packet, metadata);
      AllFieldsEqualStep(ms, fs, packet, metadata, l);
      AppendEqual(Concat(ms[..l], false), ms[l].Part(false), KeyBits(fs[..l], packet, metadata),
                  ReadField(fs[l], BitsOf(packet), BitsOf(metadata)));
    }
  }

  lemma AppendEqual(a: seq<bool>, b: seq<bool>, c: seq<bool>, d: seq<bool>)
    requires |a| == |c|
    ensures a + b == c + d <==> a == c && b == d
  {
    if a + b == c + d {
      assert a == (a + b)[..|a|] && b == (a + b)[|a|..];
    }
  }

  /** Some position of [lo, hi) gets a stray bit both from the values and from the masks. */
  predicate StraysClash(ms: seq<MatchX>, lo: nat, hi: nat)
    requires Layout(ms)
  {
    exists i :: lo <= i < hi && Spills(ms, false, i) && Spills(ms, true, i)
  }

  /** The packed comparison is the per-field comparison: for an entry assembled into zeroed value and mask bytes
      and a key assembled into zeroed bytes, maskMatch answers true if and only if every field matches and no
      position behind the key, in its last byte, got a stray bit of both the value and the mask. */
  lemma PackedMatching(ms: seq<MatchX>, fs: seq<Field>, packet: seq<byte>, metadata: seq<byte>, keyLen: nat,
                       value: seq<byte>, mask: seq<byte>, key: seq<byte>)
    requires Layout(ms) && SameLengths(ms, fs) && AllInside(fs, |packet|, |metadata|)
    requires keyLen == TotalLen(fs) && |key| == CeilBytes(keyLen)
    requires |value| == |mask| && CeilBytes(keyLen) <= |value| && Total(ms) <= 8 * |value|
    requires BitsOf(value) == Assembled(Fill(false, 8 * |value|), ms, false)
    requires BitsOf(mask) == Assembled(Fill(false, 8 * |mask|), ms, true)
    requires BitsOf(key) == KeyBits(fs, packet, metadata) + Fill(false, 8 * |key|)[keyLen..]
    ensures Agree(BitsOf(mask), BitsOf(value), BitsOf(key), 8 * CeilBytes(keyLen)) <==>
            AllFieldsMatch(ms, fs, packet, metadata) && !StraysClash(ms, keyLen, 8 * CeilBytes(keyLen))
  {
    ConcatMatches(ms, fs, packet, metadata);
    AssembledParts(ms, true, |mask|, BitsOf(mask));
    AssembledParts(ms, false, |value|, BitsOf(value));
    var m, v, k, hi := BitsOf(mask), BitsOf(value), BitsOf(key), 8 * CeilBytes(keyLen);
    AgreeBeyond(m, v, k, keyLen, hi);
    assert k[..keyLen] == KeyBits(fs, packet, metadata);
    assert StraysClash(ms, keyLen, hi) <==> exists i :: keyLen <= i < hi && v[i] && m[i] by {
      assert forall i :: keyLen <= i < hi ==> m[i] == Spills(ms, true, i) && v[i] == Spills(ms, false, i);
    }
  }

  /** No position of [lo, hi) gets a stray bit of the values. */
  predicate NoStrays(ms: seq<MatchX>, lo: nat, hi: nat)
    requires Layout(ms)
  {
    forall i: nat :: lo <= i < hi ==> !Spills(ms, false, i)
  }

  /** The same for the bytes that an exact-match entry is hashed by: its first value bytes are the key if and only if
      every field has the entry's value and no stray bit of the values lies behind the key, in its last byte. */
  lemma PackedEqual(ms: seq<MatchX>, fs: seq<Field>, packet: seq<byte>, metadata: seq<byte>, keyLen: nat,
                    value: seq<byte>, key: seq<byte>, hi: nat)
    requires Layout(ms) && SameLengths(ms, fs) && AllInside(fs, |packet|, |metadata|)
    requires keyLen == TotalLen(fs) && |key| == CeilBytes(keyLen) <= |value| && hi == 8 * |key|
    requires Total(ms) <= 8 * |value| && BitsOf(value) == Assembled(Fill(false, 8 * |value|), ms, false)
    requires BitsOf(key) == KeyBits(fs, packet, metadata) + Fill(false, hi)[keyLen..]
    ensures value[..|key|] == key <==>
            AllFieldsEqual(ms, fs, packet, metadata) && NoStrays(ms, keyLen, hi)
  {
    SameTotals(ms, fs);
    ConcatEquals(ms, fs, packet, metadata);
    FirstBytes(value, key, hi);
    AssembledEqual(ms, |value|, BitsOf(value), KeyBits(fs, packet, metadata), keyLen, hi);
  }

  lemma AssembledEqual(ms: seq<MatchX>, size: nat, v: seq<bool>, bits: seq<bool>, n: nat, hi: nat)
    requires Layout(ms) && n == Total(ms) == |bits| <= hi <= 8 * size
    requires v == Assembled(Fill(false, 8 * size), ms, false)
    ensures v[..hi] == bits + Fill(false, hi)[n..] <==>
            Concat(ms, false) == bits && NoStrays(ms, n, hi)
  {
    AssembledParts(ms, false, size, v);
    EqualWithZeros(v, Concat(ms, false), bits, n, hi);
    if Concat(ms, false) == bits && NoStrays(ms, n, hi) {
      forall i | n <= i < hi
        ensures !v[i]
      {
        assert v[i] == Spills(ms, false, i);
      }
    }
    if v[..hi] == bits + Fill(false, hi)[n..] {
      forall i: nat | n <= i < hi
        ensures !Spills(ms, false, i)
      {
        assert v[i] == Spills(ms, false, i);
      }
    }
  }

  lemma EqualWithZeros(v: seq<bool>, a: seq<bool>, b: seq<bool>, n: nat, hi: nat)
    requires n == |a| == |b| <= hi <= |v| && v[..n] == a
    ensures v[..hi] == b + Fill(false, hi)[n..] <==> a == b && forall i :: n <= i < hi ==> !v[i]
  {
    var rest := v[n..hi];
    assert v[..hi] == a + rest;
    AppendEqual(a, rest, b, Fill(false, hi)[n..]);
    assert forall i :: n <= i < hi ==> v[i] == rest[i - n];
    if forall i :: n <= i < hi ==> !v[i] {
      assert rest == Fill(false, hi)[n..];
    }
  }

  lemma FirstBytes(value: seq<byte>, key: seq<byte>, hi: nat)
    requires |key| <= |value| && hi == 8 * |key|
    ensures value[..|key|] == key <==> BitsOf(value)[..hi] == BitsOf(key)
  {
    BitsOfSlice(value, 0, |key|);
    assert value[0..|key|] == value[..|key|];
    if BitsOf(value)[..hi] == BitsOf(key) {
      BitsOfInjective(value[..|key|], key);
    }
  }

  lemma AssembledParts(ms: seq<MatchX>, ofMask: bool, size: nat, r: seq<bool>)
    requires Layout(ms) && Total(ms) <= 8 * size && r == Assembled(Fill(false, 8 * size), ms, ofMask)
    ensures r[..Total(ms)] == Concat(ms, ofMask)
    ensures forall i :: Total(ms) <= i < 8 * size ==> r[i] == Spills(ms, ofMask, i)
  {
    forall i | 0 <= i < 8 * size
      ensures r[i] == if i < Total(ms) then Concat(ms, ofMask)[i] else Spills(ms, ofMask, i)
    {
      AssembledAt(Fill(false, 8 * size), ms, ofMask, i);
    }
  }

  /** Agreement up to hi, when the key is zero from n on. */
  lemma AgreeBeyond(m: seq<bool>, v: seq<bool>, k: seq<bool>, n: nat, hi: nat)
    requires n <= hi <= |m| && hi <= |v| && hi <= |k| && forall i :: n <= i < hi ==> !k[i]
    ensures Agree(m, v, k, hi) <==>
            Agree(m[..n], v[..n], k[..n], n) && !exists i :: n <= i < hi && v[i] && m[i]
  {
    assert Agree(m, v, k, n) <==> Agree(m[..n], v[..n], k[..n], n) by {
      if Agree(m[..n], v[..n], k[..n], n) {
        assert forall i :: 0 <= i < n ==> m[..n][i] == m[i];
      }
    }
  }

  /** Strays do clash: behind a 4-bit field, a 14-bit field with bit 14 set in both value and mask makes an entry
      that no packet matches. */
  lemma StraysCanClash(ms: seq<MatchX>)
    requires |ms| == 2 && ms[0].Valid() && ms[1].Valid() && ms[0].field.len == 4 && ms[1].field.len == 14
    requires ms[1].value[1][6] && ms[1].mask[1][6]
    ensures Layout(ms) && Total(ms) == 18 && StraysClash(ms, 18, 24)
  {
    var init := ms[..1];
    assert ms[..|ms| - 1] == init && init[..|init| - 1] == [];
    assert Total([]) == 0 && Layout([]);
    assert Layout(init) && Total(init) == 4;
    BitsOfAt(ms[1].value, 1, 6);
    BitsOfAt(ms[1].mask, 1, 6);
    assert Leaks(4, 14, 18);
    assert Spills(ms, false, 18) && Spills(ms, true, 18);
  }

  /** A field that is zero behind its length in its last byte. */
  predicate Padded(m: MatchX, ofMask: bool) {
    forall j :: m.field.len <= j < 8 * CeilBytes(m.field.len) && j < 8 * |m.Source(ofMask)|
      ==> !BitsOf(m.Source(ofMask))[j]
  }

  /** Zero-padded values, or zero-padded masks, have no strays. */
  lemma {:induction false} PaddedNeverSpills(ms: seq<MatchX>, ofMask: bool, i: nat)
    requires Layout(ms) && forall k :: 0 <= k < |ms| ==> Padded(ms[k], ofMask)
    ensures !Spills(ms, ofMask, i)
  {
    if ms != [] {
      var init, m := ms[..|ms| - 1], ms[|ms| - 1];
      PaddedNeverSpills(init, ofMask, i);
      if Leaks(Total(init), m.field.len, i) { LeakInLastByte(Total(init), m.field.len, i); }
    }
  }
}
