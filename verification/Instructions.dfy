/** Reading and writing packet and metadata fields, and moving the packet window: datapath/pof_instruction.c. */
module Instructions {
  import opened Bits
  import opened Bitfield
  import opened Numbers
  import opened Datapath

  /** The range check of pofdp_get_field_buf and pofdp_write_32value_to_field. */
  predicate FieldFits(f: Field, dpp: Packet)
    reads dpp
  {
    f.len <= 32 && f.len + f.offset <= 8 * (if f.id == METADATA_FIELD_ID then dpp.metadata_len else dpp.left_len)
  }

  /** The bits of the buffer that holds the field, and where the field starts in them. */
  ghost function FieldBuffer(f: Field, dpp: Packet): seq<bool>
    reads dpp, dpp.buf, dpp.metadata
  {
    if f.id == METADATA_FIELD_ID then BitsOf(dpp.metadata[..]) else BitsOf(dpp.buf[..])
  }

  ghost function FieldStart(f: Field, dpp: Packet): nat
    requires dpp.Valid()
    reads dpp
  {
    if f.id == METADATA_FIELD_ID then f.offset else 8 * dpp.buf_offset + f.offset
  }

  ghost function FieldBits(f: Field, dpp: Packet): (b: seq<bool>)
    requires dpp.Valid() && FieldFits(f, dpp)
    reads dpp, dpp.buf, dpp.metadata
    ensures |b| == f.len
  {
    FieldBuffer(f, dpp)[FieldStart(f, dpp)..FieldStart(f, dpp) + f.len]
  }

  /** Bit j of a field is bit offset + j of the window's, or the metadata's, bytes. */
  lemma FieldBitsAt(f: Field, dpp: Packet, j: nat)
    requires dpp.Valid() && FieldFits(f, dpp) && j < f.len
    ensures f.offset + j < 8 * |FieldBytes(f, dpp)|
    ensures FieldBits(f, dpp)[j] == Bit(FieldBytes(f, dpp), f.offset + j)
  {
    var i := f.offset + j;
    if f.id == METADATA_FIELD_ID {
      BitAt(dpp.metadata[..], i);
    } else {
      var p := dpp.buf_offset;
      BitAt(dpp.buf[p..p + dpp.left_len], i);
      SliceAt(dpp.buf[..], p, p + dpp.left_len, i);
      assert dpp.buf[..][p..p + dpp.left_len] == dpp.buf[p..p + dpp.left_len];
    }
  }

  /** The bytes that a field lies in: the metadata or the window. */
  ghost function FieldBytes(f: Field, dpp: Packet): seq<byte>
    requires dpp.Valid()
    reads dpp, dpp.buf, dpp.metadata
  {
    if f.id == METADATA_FIELD_ID then dpp.metadata[..] else dpp.buf[dpp.buf_offset..dpp.buf_offset + dpp.left_len]
  }

  ghost predicate OperandOk(o: Operand, dpp: Packet)
    requires dpp.Valid()
    reads dpp
  {
    o.FromField? ==> FieldFits(o.field, dpp)
  }

  ghost function OperandValue(o: Operand, dpp: Packet): nat
    requires dpp.Valid() && OperandOk(o, dpp)
    reads dpp, dpp.buf, dpp.metadata
  {
    match o
    case Immediate(v) => v
    case FromField(f) => ToNat(FieldBits(f, dpp))
  }

  /** pofdp_get_32value_from_buf: only the leading bytes of the destination word are overwritten, and the
      shift drops whatever the others held. */
  method Get32FromBuf(src: seq<byte>, base: nat, held: seq<byte>, offset: nat, len: nat) returns (value: nat)
    requires |held| == 4 && 1 <= len <= 32 && offset < 0x1_0000
    requires base + offset / 8 + CeilBytes(len) < |src| && 8 * base + offset + len <= 8 * |src|
    ensures value == ToNat(BitsOf(src)[8 * base + offset..8 * base + offset + len])
  {
    var word := new byte[4](i requires 0 <= i < 4 => held[i]);
    CopyBit(src, base, word, offset, len);
    value := ToNat(BitsOf(word[..])) / Pow2(32 - len);
    ghost var n := CeilBytes(len);
    BitsOfSlice(word[..], 0, n);
    assert BitsOf(word[..])[..len] == BitsOf(src)[8 * base + offset..8 * base + offset + len];
    ToNatHighPart(BitsOf(word[..])[..len], BitsOf(word[..])[len..]);
    assert BitsOf(word[..]) == BitsOf(word[..])[..len] + BitsOf(word[..])[len..];
  }

  /** The number of a field is that of its bits. */
  lemma FieldNumber(f: Field, dpp: Packet, value: nat)
    requires dpp.Valid() && FieldFits(f, dpp) && value == ToNat(FieldBits(f, dpp))
    ensures value < Pow2(f.len) && f.offset + f.len <= 8 * |FieldBytes(f, dpp)|
    ensures forall j :: 0 <= j < f.len ==> LowBits(value, f.len)[j] == Bit(FieldBytes(f, dpp), f.offset + j)
  {
    ToNatBound(FieldBits(f, dpp));
    LowBitsToNat(FieldBits(f, dpp));
    forall j | 0 <= j < f.len
      ensures FieldBits(f, dpp)[j] == Bit(FieldBytes(f, dpp), f.offset + j)
    {
      FieldBitsAt(f, dpp, j);
    }
  }

  /** pofdp_get_32value. */
  method Get32(o: Operand, held: seq<byte>, dpp: Packet) returns (ok: bool, value: nat)
    requires dpp.Valid() && |held| == 4
    requires o.FromField? ==> o.field.len >= 1 && o.field.offset < 0x1_0000
    ensures ok <==> OperandOk(o, dpp)
    ensures ok ==> value == OperandValue(o, dpp)
    ensures ok && o.Immediate? ==> value == o.value
    ensures o.FromField? ==>
      var f := o.field;
      && (ok <==> f.len <= 32
                  && f.offset + f.len <= 8 * (if f.id == METADATA_FIELD_ID then dpp.metadata_len else dpp.left_len))
      && (ok ==> value < Pow2(f.len) && f.offset + f.len <= 8 * |FieldBytes(f, dpp)|)
      && (ok ==> forall j :: 0 <= j < f.len ==> LowBits(value, f.len)[j] == Bit(FieldBytes(f, dpp), f.offset + j))
  {
    match o
    case Immediate(v) =>
      return true, v;
    case FromField(f) =>
      if !FieldFits(f, dpp) {
        return false, 0;
      }
      if f.id == METADATA_FIELD_ID {
        value := Get32FromBuf(dpp.metadata[..], 0, held, f.offset, f.len);
      } else {
        value := Get32FromBuf(dpp.buf[..], dpp.buf_offset, held, f.offset, f.len);
      }
      ok := true;
      FieldNumber(f, dpp, value);
  }

  /** write_32value_to_buf: the value's low len bits replace the range and nothing else changes. The byte behind
      the four bytes of the value is read and masked away. */
  method Write32ToBuf(buf: array<byte>, base: nat, value: nat, slack: byte, offset: nat, len: nat)
    requires value < 0x1_0000_0000 && 1 <= len <= 32 && offset < 0x1_0000 && Admissible(offset, len)
    requires 8 * base + offset + len <= 8 * buf.Length
    modifies buf
    ensures BitsOf(buf[..]) == Replaced(old(BitsOf(buf[..])), LowBits(value, len), 8 * base + offset)
  {
    var word := Pack(LowBits(Wrap32(value * Pow2(32 - len)), 32));
    CoverBit(buf, base, word + [slack], offset, len);
    WordCovers(old(BitsOf(buf[..])), value, slack, 8 * base + offset, len);
  }

  /** The four bytes of a value shifted to the top of its word: its low len bits, then zeros. */
  lemma WordBits(value: nat, len: nat)
    requires 1 <= len <= 32
    ensures BitsOf(Pack(LowBits(Wrap32(value * Pow2(32 - len)), 32))) == LowBits(value, len) + Fill(false, 32 - len)
  {
    var shifted := value * Pow2(32 - len);
    Pow2Words();
    LowBitsMod(Wrap32(shifted), shifted, 32);
    LowBitsShifted(value, 32, 32 - len);
  }

  lemma WordCovers(d: seq<bool>, value: nat, slack: byte, p: nat, len: nat)
    requires 1 <= len <= 32 && p + len <= |d|
    ensures Covered(d, BitsOf(Pack(LowBits(Wrap32(value * Pow2(32 - len)), 32)) + [slack]), p, len)
         == Replaced(d, LowBits(value, len), p)
  {
    var word := Pack(LowBits(Wrap32(value * Pow2(32 - len)), 32));
    BitsOfAppend(word, [slack]);
    WordBits(value, len);
    var v := BitsOf(word + [slack]);
    assert v[..len] == LowBits(value, len);
    ZeroTailCover(d, v, p, len);
  }

  lemma HeadKept(d: seq<bool>, v: seq<bool>, p: nat)
    requires 16 <= p && p + |v| <= |d|
    ensures Replaced(d, v, p)[..16] == d[..16]
  {}

  /** The state after writing bits into a field: only the field's bits change, in its buffer only. */
  twostate predicate FieldWritten(f: Field, bits: seq<bool>, dpp: Packet)
    requires dpp.Valid() && FieldFits(f, dpp) && |bits| == f.len
    requires FieldStart(f, dpp) + f.len <= |old(FieldBuffer(f, dpp))|
    reads dpp, dpp.buf, dpp.metadata
  {
    && FieldBuffer(f, dpp) == Replaced(old(FieldBuffer(f, dpp)), bits, FieldStart(f, dpp))
    && (f.id == METADATA_FIELD_ID ==> dpp.buf[..] == old(dpp.buf[..]))
    && (f.id != METADATA_FIELD_ID ==> dpp.metadata[..] == old(dpp.metadata[..]))
  }

  /** A write to the metadata keeps the recorded length, unless it overlaps it. */
  method Write32ToMetadata(value: nat, slack: byte, offset: nat, len: nat, dpp: Packet)
    requires dpp.Valid() && value < 0x1_0000_0000 && 1 <= len <= 32 && offset < 0x1_0000 && Admissible(offset, len)
    requires offset + len <= 8 * dpp.metadata_len
    modifies dpp.metadata
    ensures dpp.MetadataBits() == Replaced(old(dpp.MetadataBits()), LowBits(value, len), offset)
    ensures offset >= 16 ==> dpp.RelLen() == old(dpp.RelLen())
  {
    ghost var m := dpp.MetadataBits();
    Write32ToBuf(dpp.metadata, 0, value, slack, offset, len);
    if offset >= 16 { HeadKept(m, LowBits(value, len), offset); }
  }

  /** pofdp_write_32value_to_field. */
  method Write32ToField(value: nat, f: Field, slack: byte, dpp: Packet) returns (ok: bool)
    requires dpp.Valid() && value < 0x1_0000_0000
    requires 1 <= f.len && f.offset < 0x1_0000 && Admissible(f.offset, f.len)
    modifies dpp.buf, dpp.metadata
    ensures ok <==> FieldFits(f, dpp)
    ensures ok ==> FieldWritten(f, LowBits(value, f.len), dpp) && FieldBits(f, dpp) == LowBits(value, f.len)
    ensures !ok ==> dpp.buf[..] == old(dpp.buf[..]) && dpp.metadata[..] == old(dpp.metadata[..])
    ensures f.id != METADATA_FIELD_ID || f.offset >= 16 ==> dpp.Extents() == old(dpp.Extents())
  {
    if !FieldFits(f, dpp) {
      return false;
    }
    if f.id == METADATA_FIELD_ID {
      Write32ToMetadata(value, slack, f.offset, f.len, dpp);
      assert dpp.buf[..] == old(dpp.buf[..]);
    } else {
      Write32ToBuf(dpp.buf, dpp.buf_offset, value, slack, f.offset, f.len);
      assert dpp.metadata[..] == old(dpp.metadata[..]);
    }
    ok := true;
  }

  /** The range check of movePacketBufOffset. */
  predicate MoveFits(e: Extent, d: int) {
    -(PREBUF_LEN + e.offset) <= d <= e.left
  }

  function MoveExtent(e: Extent, d: int): Extent {
    if MoveFits(e, d) then Extent(e.offset + d, e.left - d, e.rel) else e
  }

  /** movePacketBufOffset: the window's start moves, its end stays, and no bit of the packet changes. */
  method MovePacketBufOffset(d: int, dpp: Packet) returns (ok: bool)
    requires dpp.Valid() && -0x8000 <= d < 0x8000
    modifies dpp
    ensures dpp.Valid() && (ok <==> MoveFits(old(dpp.Extents()), d))
    ensures ok <==> -PREBUF_LEN <= old(dpp.offset) + d <= old(dpp.offset + dpp.left_len)
    ensures dpp.Extents() == MoveExtent(old(dpp.Extents()), d)
    ensures ok && 0 <= d ==> dpp.Window() == old(dpp.Window())[8 * d..]
    ensures ok && d <= 0 ==> dpp.Window()[8 * -d..] == old(dpp.Window())
    ensures !ok ==> dpp.Window() == old(dpp.Window())
  {
    if d > dpp.left_len || d < 0 - (PREBUF_LEN + dpp.offset) {
      return false;
    }
    dpp.offset := dpp.offset + d;
    dpp.left_len := dpp.left_len - d;
    dpp.buf_offset := dpp.buf_offset + d;
    ok := true;
  }

  /** execute_MOVE_PACKET_OFFSET: the movement is cast to 16 bits, and so is its negation. */
  method ExecuteMovePacketOffset(forward: bool, movement: Operand, held: seq<byte>, dpp: Packet) returns (ok: bool)
    requires dpp.Valid() && |held| == 4
    requires movement.FromField? ==> movement.field.len >= 1 && movement.field.offset < 0x1_0000
    modifies dpp
    ensures dpp.Valid()
    ensures !old(OperandOk(movement, dpp)) ==> !ok && dpp.Extents() == old(dpp.Extents())
    ensures old(OperandOk(movement, dpp)) ==>
      var m := Int16(old(OperandValue(movement, dpp)));
      var d := if forward then m else Int16(-m);
      (ok <==> MoveFits(old(dpp.Extents()), d)) && dpp.Extents() == MoveExtent(old(dpp.Extents()), d)
  {
    var got, value := Get32(movement, held, dpp);
    if !got {
      return false;
    }
    if forward {
      ok := MovePacketBufOffset(Int16(value), dpp);
    } else {
      ok := MovePacketBufOffset(Int16(0 - Int16(value)), dpp);
    }
  }
}
