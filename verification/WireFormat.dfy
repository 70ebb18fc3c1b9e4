/** The byte orders of a flow entry message, field by field and on its bytes: which numbers of the message structures
    in include/pof_global.h stand in network order after a conversion, and which bytes stay. */
module WireFormat {
  import opened Swaps

  /** The number of n bytes at p, least significant byte first. */
  function LittleEndian(s: seq<u8>, p: nat, n: nat): nat
    requires p + n <= |s|
    decreases n
  {
    if n == 0 then 0 else s[p] + 0x100 * LittleEndian(s, p + 1, n - 1)
  }

  /** The number of n bytes at p, most significant byte first. */
  function BigEndian(s: seq<u8>, p: nat, n: nat): nat
    requires p + n <= |s|
    decreases n
  {
    if n == 0 then 0 else 0x100 * BigEndian(s, p, n - 1) + s[p + n - 1]
  }

  /** The number of n bytes at p reads in t, most significant byte first, what it read in s the other way. */
  predicate Turned(s: seq<u8>, t: seq<u8>, p: nat, n: nat) {
    |t| == |s| && p + n <= |s| && BigEndian(t, p, n) == LittleEndian(s, p, n)
  }

  /** struct pof_match: field_id, offset and len, and two bytes of padding. */
  predicate FieldTurned(s: seq<u8>, t: seq<u8>, p: nat) {
    Turned(s, t, p, 2) && Turned(s, t, p + 2, 2) && Turned(s, t, p + 4, 2) && SameIn(s, t, p + 6, p + 8)
  }

  /** A union of a 32-bit number and a field, told apart by a type. */
  predicate OperandTurned(s: seq<u8>, t: seq<u8>, kind: u8, p: nat) {
    if kind == 0 then Turned(s, t, p, 4) && SameIn(s, t, p + 4, p + 8) else FieldTurned(s, t, p)
  }

  /** The 44 bytes of an action's data at d. */
  predicate ActionDataTurned(kind: nat, s: seq<u8>, t: seq<u8>, d: nat)
    requires d + 44 <= |s|
  {
    match kind
    case 0 =>  // OUTPUT: portId_type, metadata_offset, metadata_len, packet_offset, outputPortId
      && SameIn(s, t, d, d + 2) && Turned(s, t, d + 2, 2) && Turned(s, t, d + 4, 2) && Turned(s, t, d + 6, 2)
      && OperandTurned(s, t, s[d], d + 8) && SameIn(s, t, d + 16, d + 44)
    case 1 =>  // SET_FIELD: field_setting
      FieldTurned(s, t, d) && SameIn(s, t, d + 8, d + 44)
    case 2 =>  // SET_FIELD_FROM_METADATA: field_setting, metadata_offset
      FieldTurned(s, t, d) && Turned(s, t, d + 8, 2) && SameIn(s, t, d + 10, d + 44)
    case 3 =>  // MODIFY_FIELD: field, increment
      FieldTurned(s, t, d) && Turned(s, t, d + 8, 4) && SameIn(s, t, d + 12, d + 44)
    case 4 =>  // ADD_FIELD: tag_id, tag_pos, tag_len, tag_value
      Turned(s, t, d, 2) && Turned(s, t, d + 2, 2) && Turned(s, t, d + 4, 4) && SameIn(s, t, d + 8, d + 44)
    case 5 =>  // DELETE_FIELD: tag_pos, len_type, tag_len
      && Turned(s, t, d, 2) && SameIn(s, t, d + 2, d + 8)
      && OperandTurned(s, t, s[d + 2], d + 8) && SameIn(s, t, d + 16, d + 44)
    case 6 =>  // CALCULATE_CHECKSUM: two types, checksum_pos, checksum_len, cal_startpos, cal_len
      && SameIn(s, t, d, d + 2) && Turned(s, t, d + 2, 2) && Turned(s, t, d + 4, 2) && Turned(s, t, d + 6, 2)
      && Turned(s, t, d + 8, 2) && SameIn(s, t, d + 10, d + 44)
    case 7 => Turned(s, t, d, 4) && SameIn(s, t, d + 4, d + 44)   // GROUP: group_id
    case 8 => Turned(s, t, d, 4) && SameIn(s, t, d + 4, d + 44)   // DROP: reason_code
    case 9 => Turned(s, t, d, 4) && SameIn(s, t, d + 4, d + 44)   // PACKET_IN: reason_code
    case 10 => Turned(s, t, d, 4) && SameIn(s, t, d + 4, d + 44)  // COUNTER: counter_id
    case _ => SameIn(s, t, d, d + 44)
  }

  /** The 48 bytes of an action at p: type, len and data. A len above 0x00FF, as the host reads it, makes the converter
      read the type in network order. */
  predicate ActionTurned(s: seq<u8>, t: seq<u8>, p: nat)
    requires p + 48 <= |s|
  {
    && Turned(s, t, p, 2) && Turned(s, t, p + 2, 2)
    && ActionDataTurned(if LittleEndian(s, p + 2, 2) > 0x00FF then BigEndian(s, p, 2) else LittleEndian(s, p, 2),
                        s, t, p + 4)
  }

  predicate ActionsTurned(s: seq<u8>, t: seq<u8>, p: nat, n: nat) {
    forall k: nat :: k < n ==> ActionKTurned(s, t, p, k)
  }

  predicate ActionKTurned(s: seq<u8>, t: seq<u8>, p: nat, k: nat) {
    p + 48 * k + 48 <= |s| && ActionTurned(s, t, p + 48 * k)
  }

  predicate FieldsTurned(s: seq<u8>, t: seq<u8>, p: nat, n: nat) {
    forall k: nat :: k < n ==> FieldKTurned(s, t, p, k)
  }

  predicate FieldKTurned(s: seq<u8>, t: seq<u8>, p: nat, k: nat) {
    FieldTurned(s, t, p + 8 * k)
  }

  /** The 296 bytes of an instruction's data at d. */
  predicate InsDataTurned(kind: nat, s: seq<u8>, t: seq<u8>, d: nat)
    requires d + 296 <= |s|
  {
    match kind
    case 1 =>  // GOTO_TABLE: next_table_id, match_field_num, packet_offset, match
      && SameIn(s, t, d, d + 2) && Turned(s, t, d + 2, 2) && SameIn(s, t, d + 4, d + 8)
      && FieldsTurned(s, t, d + 8, 8) && SameIn(s, t, d + 72, d + 296)
    case 2 =>  // WRITE_METADATA: metadata_offset, len, value
      Turned(s, t, d, 2) && Turned(s, t, d + 2, 2) && SameIn(s, t, d + 4, d + 296)
    case 4 =>  // APPLY_ACTIONS: action_num, action
      SameIn(s, t, d, d + 8) && ActionsTurned(s, t, d + 8, s[d]) && SameIn(s, t, d + 8 + 48 * (s[d] as int), d + 296)
    case 6 =>  // METER: meter_id
      Turned(s, t, d, 4) && SameIn(s, t, d + 4, d + 296)
    case 7 =>  // WRITE_METADATA_FROM_PACKET: metadata_offset, packet_offset, len
      FieldTurned(s, t, d) && SameIn(s, t, d + 8, d + 296)
    case 8 =>  // GOTO_DIRECT_TABLE: next_table_id, index_type, packet_offset, table_entry_index
      && SameIn(s, t, d, d + 2) && Turned(s, t, d + 2, 2) && SameIn(s, t, d + 4, d + 8)
      && OperandTurned(s, t, s[d + 1], d + 8) && SameIn(s, t, d + 16, d + 296)
    case 9 =>  // CONDITIONAL_JMP: types, compare_field1, compare_field2, offset1, offset2, offset3
      && SameIn(s, t, d, d + 8) && FieldTurned(s, t, d + 8)
      && OperandTurned(s, t, s[d], d + 16) && OperandTurned(s, t, s[d + 2], d + 24)
      && OperandTurned(s, t, s[d + 4], d + 32) && OperandTurned(s, t, s[d + 6], d + 40)
      && SameIn(s, t, d + 48, d + 296)
    case 10 =>  // CALCULATE_FIELD: calc_type, src_type, dst_field, src_operand
      && Turned(s, t, d, 2) && SameIn(s, t, d + 2, d + 8) && FieldTurned(s, t, d + 8)
      && OperandTurned(s, t, s[d + 2], d + 16) && SameIn(s, t, d + 24, d + 296)
    case 11 =>  // MOVE_PACKET_OFFSET: direction, value_type, movement
      SameIn(s, t, d, d + 8) && OperandTurned(s, t, s[d + 1], d + 8) && SameIn(s, t, d + 16, d + 296)
    case _ => SameIn(s, t, d, d + 296)
  }

  /** The 304 bytes of an instruction at b. On the way out an instruction of unknown type stays as it is; on the way in
      its type and len are turned before the type is looked at. */
  predicate InstructionTurned(s: seq<u8>, t: seq<u8>, b: nat, net: bool)
    requires b + 304 <= |s|
  {
    var kind := if net then BigEndian(s, b, 2) else LittleEndian(s, b, 2);
    var known := 1 <= kind <= 11 || kind == 0xFFFF;
    if known || net then
      && Turned(s, t, b, 2) && Turned(s, t, b + 2, 2) && SameIn(s, t, b + 4, b + 8)
      && if known then InsDataTurned(kind, s, t, b + 8) else SameIn(s, t, b + 8, b + 304)
    else SameIn(s, t, b, b + 304)
  }

  /** The fields in front of the matches: counter_id, cookie, cookie_mask, idle_timeout, hard_timeout, priority, index
      and slotID. */
  predicate HeaderTurned(s: seq<u8>, t: seq<u8>) {
    && SameIn(s, t, 0, 4) && Turned(s, t, 4, 4) && Turned(s, t, 8, 8) && Turned(s, t, 16, 8) && SameIn(s, t, 24, 26)
    && Turned(s, t, 26, 2) && Turned(s, t, 28, 2) && Turned(s, t, 30, 2) && Turned(s, t, 32, 4)
    && Turned(s, t, 36, 2) && SameIn(s, t, 38, 40)
  }

  /** Match k of the message: 40 bytes, of which value and mask stay. */
  predicate MatchKTurned(s: seq<u8>, t: seq<u8>, k: nat) {
    FieldTurned(s, t, 40 + 40 * k) && SameIn(s, t, 48 + 40 * k, 80 + 40 * k)
  }

  predicate InstructionKTurned(s: seq<u8>, t: seq<u8>, k: nat, net: bool) {
    360 + 304 * k + 304 <= |s| && InstructionTurned(s, t, 360 + 304 * k, net)
  }

  /** A whole message: header, match_field_num matches and instruction_num instructions. */
  predicate MessageTurned(s: seq<u8>, t: seq<u8>, net: bool)
    requires |s| == 2184
  {
    var matches: nat, instructions: nat := s[1], s[2];
    && |t| == |s| && HeaderTurned(s, t)
    && (forall k: nat :: k < matches ==> MatchKTurned(s, t, k)) && SameIn(s, t, 40 + 40 * matches, 360)
    && (forall k: nat :: k < instructions ==> InstructionKTurned(s, t, k, net))
    && SameIn(s, t, 360 + 304 * instructions, 2184)
  }

  /** Bytes in the opposite order read as the same number in the opposite byte order. */
  lemma {:induction false} Reversed(s: seq<u8>, p: nat, t: seq<u8>, q: nat, n: nat)
    requires p + n <= |s| && q + n <= |t| && forall i :: q <= i < q + n ==> t[i] == s[p + n - 1 - (i - q)]
    ensures BigEndian(t, q, n) == LittleEndian(s, p, n)
    decreases n
  {
    if n > 0 { Reversed(s, p + 1, t, q, n - 1); }
  }

  /** Every number of a plan of separate ranges is turned. */
  lemma RangeTurned(s: seq<u8>, t: seq<u8>, plan: Plan, lo: int, hi: int, k: nat)
    requires Sound(plan, lo, hi) && 0 <= lo && hi <= |s| == |t| && ConvertedIn(s, t, plan, lo, hi) && k < |plan|
    ensures Turned(s, t, plan[k].at, plan[k].n)
  {
    var r := plan[k];
    forall i | r.at <= i < r.at + r.n
      ensures t[i] == s[r.at + r.n - 1 - (i - r.at)]
    {
      SourceAt(plan, lo, hi, k, i);
      assert t[i] == s[Source(plan, i)];
    }
    Reversed(s, r.at, t, r.at, r.n);
  }

  /** Bytes that no range covers stay. */
  lemma GapKept(s: seq<u8>, t: seq<u8>, plan: Plan, lo: int, hi: int, from: int, to: int)
    requires |s| == |t| && ConvertedIn(s, t, plan, lo, hi) && lo <= from && to <= hi
    requires forall k :: 0 <= k < |plan| ==> plan[k].at + plan[k].n <= from || to <= plan[k].at
    ensures SameIn(s, t, from, to)
  {
    forall i | 0 <= i < |s| && from <= i < to
      ensures t[i] == s[i]
    {
      Untouched(plan, i);
      assert t[i] == s[Source(plan, i)];
    }
  }
}
