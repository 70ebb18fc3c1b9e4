/** What every run of window moves, tag additions and deletions keeps. */
module WindowRuns {
  import opened Bitfield
  import opened Datapath
  import opened Instructions
  import opened Actions

  type U16 = v: nat | v < 0x1_0000
  type U32 = v: nat | v < 0x1_0000_0000

  datatype WindowOp = MoveBy(d: int) | AddTag(len: U32) | DeleteTag(pos: U16, len: U32)

  /** The effect that the methods' contracts give each operation. */
  function Step(e: Extent, op: WindowOp): (r: Extent)
    requires 0 <= e.left
    ensures 0 <= r.left
  {
    match op
    case MoveBy(d) => MoveExtent(e, d)
    case AddTag(len) => if len <= 128 then InsertExtent(e, len) else e
    case DeleteTag(pos, len) => DeleteExtent(e, pos, len)
  }

  /** The window lies between the pre-buffer and the end of the buffer, and its end is the recorded length modulo
      2^16; to be exact, its end is the recorded length. */
  predicate Conserved(e: Extent, exact: bool) {
    && -PREBUF_LEN <= e.offset && 0 <= e.left && e.offset + e.left <= RAW_MAX_LEN
    && e.rel == (if exact then e.offset + e.left else Wrap16(e.offset + e.left))
  }

  /** A deletion that is accepted although its whole bytes do not fit the eight bits they are cast to, or are more
      than the window holds; for exactness, also if they are more than lie behind the packet's first byte. */
  predicate Upsets(e: Extent, op: WindowOp, exact: bool)
    requires 0 <= e.left
  {
    && op.DeleteTag? && DeleteAccepted(e.left, op.pos, op.len)
    && (op.len >= 2048 || op.len / 8 > e.left || (exact && op.len / 8 > e.offset + e.left))
  }

  lemma MoveConserves(e: Extent, d: int, exact: bool)
    requires Conserved(e, exact)
    ensures Conserved(MoveExtent(e, d), exact)
  {}

  lemma InsertConserves(e: Extent, len: nat, exact: bool)
    requires Conserved(e, exact) && len <= 128
    ensures Conserved(InsertExtent(e, len), exact)
  {}

  lemma DeleteConserves(e: Extent, pos: U16, len: U32, exact: bool)
    requires Conserved(e, exact) && DeleteAccepted(e.left, pos, len)
    ensures Conserved(DeleteExtent(e, pos, len), exact) <==> !Upsets(e, DeleteTag(pos, len), exact)
  {
    AcceptedExtent(e, pos, len);
    CutConserves(e, len, LeftAfter(e.left, len), Wrap16(e.rel - len / 8 % 0x100), exact);
  }

  lemma CutConserves(e: Extent, len: U32, left: nat, rel: nat, exact: bool)
    requires Conserved(e, exact) && left == LeftAfter(e.left, len) && rel == Wrap16(e.rel - len / 8 % 0x100)
    ensures Conserved(Extent(e.offset, left, rel), exact) <==>
            !(len >= 2048 || len / 8 > e.left || (exact && len / 8 > e.offset + e.left))
  {
    var low, byte := DeletedEnds(e.left, len, e.offset, e.rel, left, rel);
    EndsAgree(e, len, left, rel, low, byte, exact);
  }

  /** A deletion cuts `low`, modulo 2^16, off the window and `byte` off the recorded length. */
  lemma DeletedEnds(left: nat, len: U32, offset: int, rel: nat, left': nat, rel': nat) returns (low: nat, byte: nat)
    requires left <= RAW_MAX_LEN + PREBUF_LEN && rel == Wrap16(offset + left)
    requires left' == LeftAfter(left, len) && rel' == Wrap16(rel - len / 8 % 0x100)
    ensures rel' < 0x1_0000 && (rel' == Wrap16(offset + left') <==> low == byte)
    ensures len / 8 <= left ==> left' == left - len / 8 && low == len / 8 && (low == byte <==> len < 2048)
    ensures len / 8 > left ==> left' > RAW_MAX_LEN + PREBUF_LEN || low != byte
  {
    low, byte := len / 8 % 0x1_0000, len / 8 % 0x100;
    LengthLeft(left, len, offset, left', low);
    LowByte(len / 8, low, byte);
    SameDifference(offset + left, low, byte);
  }

  lemma RemainderIs(v: nat, c: nat, q: nat, r: nat)
    requires c == 0x100 && v == c * q + r && r < c
    ensures v % 0x100 == r
  {}

  lemma SameWrapped(v: int, w: int, k: int)
    requires v == w + 0x1_0000 * k
    ensures Wrap16(v) == Wrap16(w)
  {}

  lemma LowByte(cut: nat, low: nat, byte: nat)
    requires low == cut % 0x1_0000 && byte == cut % 0x100
    ensures byte <= low && byte < 0x100 && (low < 0x100 ==> byte == low)
  {
    var high, middle := cut / 0x1_0000, low / 0x100;
    RemainderIs(cut, 0x100, 0x100 * high + middle, low % 0x100);
  }

  /** The comparison of the recorded length with the window's new end. */
  lemma EndsAgree(e: Extent, len: U32, left: nat, rel: nat, low: nat, byte: nat, exact: bool)
    requires Conserved(e, exact) && rel < 0x1_0000
    requires rel == Wrap16(e.offset + left) <==> low == byte
    requires len / 8 <= e.left ==> left == e.left - len / 8 && (low == byte <==> len < 2048)
    requires len / 8 > e.left ==> left > RAW_MAX_LEN + PREBUF_LEN || low != byte
    ensures Conserved(Extent(e.offset, left, rel), exact) <==>
            !(len >= 2048 || len / 8 > e.left || (exact && len / 8 > e.offset + e.left))
  {
    assert rel == e.offset + left ==> rel == Wrap16(e.offset + left);
  }

  /** The window's new length, as a number and modulo 2^16. Deleting more bytes than the window holds leaves one
      longer than every buffer, unless the low 16 bits of the amount do not fit eight. */
  lemma LengthLeft(left: nat, len: U32, offset: int, r: nat, low: nat)
    requires left <= RAW_MAX_LEN + PREBUF_LEN && r == LeftAfter(left, len) && low == len / 8 % 0x1_0000
    ensures Wrap16(offset + r) == Wrap16(offset + left - low)
    ensures len / 8 <= left ==> r == left - len / 8 && low == len / 8
    ensures len / 8 > left ==> r > RAW_MAX_LEN + PREBUF_LEN || low >= 0x100
  {
    var cut, turn := len / 8, if len / 8 > left then 0x2000_0000 else 0;
    RoundedUp(8 * left - len + 7, r, if cut > left then -1 else 0);
    LastOctet(8 * left - len + 7, left - cut, 7 - len % 8);
    assert r == left - cut + turn;
    SameWrapped(offset + r, offset + left - low, (turn - cut + low) / 0x1_0000);
  }

  /** Subtracting less than intended shows, unless the shortfall is a multiple of 2^16. */
  lemma SameDifference(v: int, a: nat, b: nat)
    requires b <= a < b + 0x1_0000
    ensures Wrap16(Wrap16(v) - b) == Wrap16(v - a) <==> a == b
  {}

  /** One operation keeps the window conserved if and only if it is no deletion that upsets it. */
  lemma StepConserves(e: Extent, op: WindowOp, exact: bool)
    requires Conserved(e, exact)
    ensures Conserved(Step(e, op), exact) <==> !Upsets(e, op, exact)
  {
    match op
    case MoveBy(d) => MoveConserves(e, d, exact);
    case AddTag(len) => if len <= 128 { InsertConserves(e, len, exact); }
    case DeleteTag(pos, len) => if DeleteAccepted(e.left, pos, len) { DeleteConserves(e, pos, len, exact); }
  }

  function Run(e: Extent, ops: seq<WindowOp>): (r: Extent)
    requires 0 <= e.left
    ensures 0 <= r.left
    decreases |ops|
  {
    if ops == [] then e else Run(Step(e, ops[0]), ops[1..])
  }

  /** Every operation of the run leaves the window conserved. */
  predicate StaysConserved(e: Extent, ops: seq<WindowOp>, exact: bool)
    requires 0 <= e.left
    decreases |ops|
  {
    Conserved(e, exact) && (ops == [] || StaysConserved(Step(e, ops[0]), ops[1..], exact))
  }

  /** No operation of the run is a deletion that upsets the window where the run has come to. */
  predicate NoneUpsets(e: Extent, ops: seq<WindowOp>, exact: bool)
    requires 0 <= e.left
    decreases |ops|
  {
    ops == [] || (!Upsets(e, ops[0], exact) && NoneUpsets(Step(e, ops[0]), ops[1..], exact))
  }

  /** Over every run the window's end and the recorded length agree after every operation, modulo 2^16 or exactly,
      if and only if no deletion upsets them. */
  lemma {:induction false} RunConserves(e: Extent, ops: seq<WindowOp>, exact: bool)
    requires Conserved(e, exact)
    ensures StaysConserved(e, ops, exact) <==> NoneUpsets(e, ops, exact)
    ensures NoneUpsets(e, ops, exact) ==> Conserved(Run(e, ops), exact)
    decreases |ops|
  {
    if ops != [] {
      StepConserves(e, ops[0], exact);
      if !Upsets(e, ops[0], exact) {
        RunConserves(Step(e, ops[0]), ops[1..], exact);
      }
    }
  }

  lemma EmptiedWindow()
    ensures Step(Extent(-128, 136, 8), DeleteTag(0, 8 * 136)) == Extent(-128, 0, 0xFF80)
  {
    assert DeleteAccepted(136, 0, 8 * 136);
  }

  /** The recorded length can wrap: move an 8-byte packet's window back by the whole pre-buffer and delete all
      it shows. The agreement modulo 2^16 stays. */
  lemma RecordedLengthCanWrap()
    ensures var e := Extent(0, 8, 8);
      var ops := [MoveBy(-128), DeleteTag(0, 8 * 136)];
      Conserved(e, true) && NoneUpsets(e, ops, false) && !NoneUpsets(e, ops, true)
      && Run(e, ops) == Extent(-128, 0, 0xFF80)
  {
    var e1 := Step(Extent(0, 8, 8), MoveBy(-128));
    assert e1 == Extent(-128, 136, 8);
    EmptiedWindow();
    assert [MoveBy(-128), DeleteTag(0, 8 * 136)][1..] == [DeleteTag(0, 8 * 136)];
    assert [DeleteTag(0, 8 * 136)][1..] == [];
  }

  /** An overrun of more than 2^15 bits can pass the deletion's 16-bit length check, and leave a window far longer
      than the buffer. A length that is negative as a 32-bit number can make the window grow. */
  lemma DeleteCheckCanMiss()
    ensures var e, op := Extent(0, 1, 1), DeleteTag(0x9000, 100);
      DeleteAccepted(1, 0x9000, 100) && Upsets(e, op, false) && Step(e, op) == Extent(0, 0x2000_0000 - 11, 0xFFF5)
    ensures var e, op := Extent(0, 1, 1), DeleteTag(8, 0x1_0000_0000 - 8);
      DeleteAccepted(1, 8, 0x1_0000_0000 - 8) && Upsets(e, op, false) && Deletable(e, 8, 0x1_0000_0000 - 8)
      && Step(e, op) == Extent(0, 2, 0xFF02)
  {
    DeleteCheckExact(1, 0x9000, 100);
    DeleteCheckExact(1, 8, 0x1_0000_0000 - 8);
  }
}
