/** The packet a pipeline works on (struct pofdp_packet) and its movable window: include/pof_datapath.h. */
module Datapath {
  import opened Bits
  import opened Bitfield
  import opened Numbers

  const RAW_MAX_LEN := 2048      // POFDP_PACKET_RAW_MAX_LEN
  const PREBUF_LEN := 128        // POFDP_PACKET_PREBUF_LEN
  const METADATA_MAX_LEN := 128  // POFDP_METADATA_MAX_LEN
  const METADATA_FIELD_ID := 0xFFFF

  function Wrap8(v: int): nat { v % 0x100 }
  function Wrap16(v: int): nat { v % 0x1_0000 }
  function Wrap32(v: int): nat { v % 0x1_0000_0000 }

  /** The conversion (int16_t)v. */
  function Int16(v: int): int {
    if Wrap16(v) < 0x8000 then Wrap16(v) else Wrap16(v) - 0x1_0000
  }

  /** struct pof_match: a field of the metadata or of the packet window, in bits. */
  datatype Field = Field(id: nat, offset: nat, len: nat)

  /** A value carried by an instruction or action, or read from a field. */
  datatype Operand = Immediate(value: nat) | FromField(field: Field)

  /** What the window moves and length changes act on: where the window starts and how long it is, in bytes,
      and the whole packet length that the metadata records. */
  datatype Extent = Extent(offset: int, left: int, rel: nat)

  class Packet {
    const buf: array<byte>
    const metadata: array<byte>
    const metadata_len: nat
    var offset: int      // int16_t, bytes from the packet's first byte
    var left_len: int    // int32_t, bytes
    var buf_offset: int  // the index of *buf_offset in buf

    /** The window starts at most PREBUF_LEN bytes before the packet and ends at most RAW_MAX_LEN bytes behind
        the packet's first byte. */
    ghost predicate Valid()
      reads this
    {
      && buf != metadata
      && buf.Length > PREBUF_LEN + RAW_MAX_LEN
      && 2 <= metadata_len <= METADATA_MAX_LEN < metadata.Length
      && buf_offset == PREBUF_LEN + offset
      && -PREBUF_LEN <= offset && 0 <= left_len && offset + left_len <= RAW_MAX_LEN
    }

    /** The left_len bytes from *buf_offset on. */
    ghost function Window(): (w: seq<bool>)
      requires Valid()
      reads this, buf
      ensures |w| == 8 * left_len
    {
      BitsOf(buf[..])[8 * buf_offset..8 * (buf_offset + left_len)]
    }

    /** The bits of the buffer from lo to hi, counted from the window's first bit. */
    ghost function Bits(lo: nat, hi: nat): (b: seq<bool>)
      requires Valid() && lo <= hi && 8 * buf_offset + hi <= 8 * buf.Length
      reads this, buf
      ensures |b| == hi - lo
      ensures hi <= 8 * left_len ==> b == Window()[lo..hi]
    {
      BitsOf(buf[..])[8 * buf_offset + lo..8 * buf_offset + hi]
    }

    ghost function MetadataBits(): seq<bool>
      reads this, metadata
    {
      BitsOf(metadata[..])
    }

    /** POF_PACKET_REL_LEN_GET: the two bytes metadata->len, in network order. */
    ghost function RelLen(): (len: nat)
      requires Valid()
      reads this, metadata
      ensures len < 0x1_0000
    {
      ToNatBound(MetadataBits()[..16]);
      Pow2Words();
      ToNat(MetadataBits()[..16])
    }

    ghost function Extents(): Extent
      requires Valid()
      reads this, metadata
    {
      Extent(offset, left_len, RelLen())
    }

    /** POF_PACKET_REL_LEN_INC and, for a negative amount, POF_PACKET_REL_LEN_DEC. */
    method AddRelLen(amount: int)
      requires Valid()
      modifies metadata
      ensures RelLen() == Wrap16(old(RelLen()) + amount)
      ensures MetadataBits()[16..] == old(MetadataBits()[16..])
    {
      ghost var was := metadata[..];
      BitsOfSlice(was, 0, 2);
      var len := Wrap16(ToNat(BitsOf(metadata[..2])) + amount);
      var image := Pack(LowBits(len, 16));
      metadata[0], metadata[1] := image[0], image[1];
      BigEndian16(was, metadata[..], len);
    }
  }

  lemma HeadReplaced(image: seq<byte>, was: seq<byte>, now: seq<byte>)
    requires |image| == 2 <= |was| && now == image + was[2..]
    ensures BitsOf(now)[..16] == BitsOf(image) && BitsOf(now)[16..] == BitsOf(was)[16..]
  {
    BitsOfAppend(image, was[2..]);
    BitsOfSlice(was, 2, |was|);
    assert was[2..|was|] == was[2..];
    assert BitsOf(now)[16..] == BitsOf(was)[16..8 * |was|];
  }

  /** The image of a 16-bit number in the first two bytes of a buffer. */
  lemma BigEndian16(was: seq<byte>, now: seq<byte>, v: nat)
    requires 2 <= |was| && v < 0x1_0000
    requires now == Pack(LowBits(v, 16)) + was[2..]
    ensures ToNat(BitsOf(now)[..16]) == v && BitsOf(now)[16..] == BitsOf(was)[16..]
  {
    HeadReplaced(Pack(LowBits(v, 16)), was, now);
    ToNat16(v);
  }
}
