/** The byte-order conversion of a flow entry message in place: common/pof_byte_transfer.c, on a little-endian host.
    Offsets are those of the message structures in include/pof_global.h. */
module ByteOrder {
  import opened Swaps
  import opened WireFormat

  const ACTION_SIZE := 48        // sizeof(struct pof_action)
  const INSTRUCTION_SIZE := 304  // sizeof(struct pof_instruction)
  const MATCHX_SIZE := 40        // sizeof(struct pof_match_x)
  const MATCH_AT := 40           // pof_flow_entry.match
  const INSTRUCTION_AT := 360    // pof_flow_entry.instruction
  const FLOW_ENTRY_SIZE := 2184  // sizeof(struct pof_flow_entry)

  /** A uint16_t as the host reads it, and as it reads it when the bytes are in network order. */
  function Little(s: seq<u8>, p: nat): nat
    requires p + 2 <= |s|
  {
    var lo: int, hi: int := s[p], s[p + 1];
    lo + 0x100 * hi
  }

  function Big(s: seq<u8>, p: nat): nat
    requires p + 2 <= |s|
  {
    var hi: int, lo: int := s[p], s[p + 1];
    0x100 * hi + lo
  }

  /** match and match_x: field_id, offset, len. */
  function MatchPlan(p: nat): Plan {
    [Range(p, 2), Range(p + 2, 2), Range(p + 4, 2)]
  }

  /** value: a union that holds a number or a field. */
  function ValuePlan(kind: u8, p: nat): Plan {
    if kind == 0 then [Range(p, 4)] else MatchPlan(p)
  }

  /** The fields that the converter of an action type swaps, the action's data being at d. Types without a converter
      swap nothing. */
  function ActionData(t: nat, s: seq<u8>, d: nat): Plan
    requires d + 44 <= |s|
  {
    if t == 0 then [Range(d + 2, 2), Range(d + 4, 2), Range(d + 6, 2)] + ValuePlan(s[d], d + 8)  // OUTPUT
    else if t == 1 then MatchPlan(d)                                          // SET_FIELD
    else if t == 2 then MatchPlan(d) + [Range(d + 8, 2)]                      // SET_FIELD_FROM_METADATA
    else if t == 3 then MatchPlan(d) + [Range(d + 8, 4)]                      // MODIFY_FIELD
    else if t == 4 then [Range(d, 2), Range(d + 2, 2), Range(d + 4, 4)]       // ADD_FIELD
    else if t == 5 then [Range(d, 2)] + ValuePlan(s[d + 2], d + 8)            // DELETE_FIELD
    else if t == 6 then [Range(d + 2, 2), Range(d + 4, 2), Range(d + 6, 2), Range(d + 8, 2)]  // CALCULATE_CHECKSUM
    else if 7 <= t <= 10 then [Range(d, 4)]                                   // GROUP, DROP, PACKET_IN, COUNTER
    else []
  }

  /** The bytes that an action's converter decides by, kept by the conversion. */
  predicate ActionControlsKept(t: nat, s: seq<u8>, s': seq<u8>, d: nat)
    requires d + 44 <= |s| == |s'|
  {
    (t == 0 ==> s'[d] == s[d]) && (t == 5 ==> s'[d + 2] == s[d + 2])
  }

  lemma ActionDataSame(t: nat, s: seq<u8>, s': seq<u8>, d: nat)
    requires d + 44 <= |s| == |s'| && ActionControlsKept(t, s, s', d)
    ensures ActionData(t, s', d) == ActionData(t, s, d)
  {}

  lemma ActionDataSound(t: nat, s: seq<u8>, d: nat)
    requires d + 44 <= |s|
    ensures Sound(ActionData(t, s, d), d, d + 44)
  {
    if t == 0 {
      ValuePlanSound(s[d], d + 8);
      SoundAppend([Range(d + 2, 2), Range(d + 4, 2), Range(d + 6, 2)], ValuePlan(s[d], d + 8), d, d + 8, d + 44);
    } else if t == 5 {
      ValuePlanSound(s[d + 2], d + 8);
      SoundAppend([Range(d, 2)], ValuePlan(s[d + 2], d + 8), d, d + 2, d + 44);
    } else {
      FixedDataSound(t, s, d);
    }
  }

  lemma FixedDataSound(t: nat, s: seq<u8>, d: nat)
    requires d + 44 <= |s| && t != 0 && t != 5
    ensures Sound(ActionData(t, s, d), d, d + 44)
  {
    if t == 2 {
      SoundAppend(MatchPlan(d), [Range(d + 8, 2)], d, d + 6, d + 44);
    } else if t == 3 {
      SoundAppend(MatchPlan(d), [Range(d + 8, 4)], d, d + 6, d + 44);
    }
  }

  lemma ActionControls(t: nat, s: seq<u8>, d: nat)
    requires d + 44 <= |s|
    ensures t == 0 ==> !Touches(ActionData(t, s, d), d)
    ensures t == 5 ==> !Touches(ActionData(t, s, d), d + 2)
  {
    if t == 0 {
      ValuePlanSound(s[d], d + 8);
      OutsideUntouched(ValuePlan(s[d], d + 8), d + 8, d + 44, d);
      OutsideUntouched([Range(d + 2, 2), Range(d + 4, 2), Range(d + 6, 2)], d + 1, d + 8, d);
      TouchesAppend([Range(d + 2, 2), Range(d + 4, 2), Range(d + 6, 2)], ValuePlan(s[d], d + 8), d);
    } else if t == 5 {
      ValuePlanSound(s[d + 2], d + 8);
      OutsideUntouched(ValuePlan(s[d + 2], d + 8), d + 8, d + 44, d + 2);
      OutsideUntouched([Range(d, 2)], d, d + 2, d + 2);
      TouchesAppend([Range(d, 2)], ValuePlan(s[d + 2], d + 8), d + 2);
    }
  }

  lemma ValuePlanSound(kind: u8, p: nat)
    ensures Sound(ValuePlan(kind, p), p, p + 8)
  {}

  /** type and len of an action or instruction. */
  function HeadPlan(p: nat): Plan {
    [Range(p, 2), Range(p + 2, 2)]
  }

  /** The type by which action converts the data: it takes the action for network order exactly when len exceeds
      0x00FF, that is, when the host's high byte of len is not zero. */
  function ActionType(s: seq<u8>, p: nat): nat
    requires p + 4 <= |s|
  {
    if Little(s, p + 2) > 0xFF then Big(s, p) else Little(s, p)
  }

  function ActionPlan(s: seq<u8>, p: nat): Plan
    requires p + ACTION_SIZE <= |s|
  {
    HeadPlan(p) + ActionData(ActionType(s, p), s, p + 4)
  }

  lemma ActionPlanSound(s: seq<u8>, p: nat)
    requires p + ACTION_SIZE <= |s|
    ensures Sound(ActionPlan(s, p), p, p + ACTION_SIZE)
    ensures Sound(ActionData(ActionType(s, p), s, p + 4) + HeadPlan(p), p, p + ACTION_SIZE)
  {
    ActionDataSound(ActionType(s, p), s, p + 4);
    SoundAppend(HeadPlan(p), ActionData(ActionType(s, p), s, p + 4), p, p + 4, p + ACTION_SIZE);
  }

  /** The numbers of two bytes. */
  lemma TwoBytes(s: seq<u8>, p: nat)
    requires p + 2 <= |s|
    ensures LittleEndian(s, p, 2) == Little(s, p) && BigEndian(s, p, 2) == Big(s, p)
  {
    assert LittleEndian(s, p + 1, 1) == s[p + 1] + 0x100 * LittleEndian(s, p + 2, 0);
    assert BigEndian(s, p, 1) == 0x100 * BigEndian(s, p, 0) + s[p];
  }

  lemma HeadTurned(s: seq<u8>, t: seq<u8>, p: nat)
    requires p + 4 <= |s| == |t| && ConvertedIn(s, t, HeadPlan(p), p, p + 4)
    ensures Turned(s, t, p, 2) && Turned(s, t, p + 2, 2)
  {
    RangeTurned(s, t, HeadPlan(p), p, p + 4, 0);
    RangeTurned(s, t, HeadPlan(p), p, p + 4, 1);
  }

  lemma MatchTurned(s: seq<u8>, t: seq<u8>, p: nat, hi: nat)
    requires p + 8 <= hi <= |s| == |t| && ConvertedIn(s, t, MatchPlan(p), p, hi)
    ensures FieldTurned(s, t, p) && SameIn(s, t, p + 8, hi)
  {
    var plan := MatchPlan(p);
    assert Sound(plan, p, hi);
    RangeTurned(s, t, plan, p, hi, 0);
    RangeTurned(s, t, plan, p, hi, 1);
    RangeTurned(s, t, plan, p, hi, 2);
    GapKept(s, t, plan, p, hi, p + 6, p + 8);
    GapKept(s, t, plan, p, hi, p + 8, hi);
  }

  lemma ValueTurned(s: seq<u8>, t: seq<u8>, kind: u8, p: nat, hi: nat)
    requires p + 8 <= hi <= |s| == |t| && ConvertedIn(s, t, ValuePlan(kind, p), p, hi)
    ensures OperandTurned(s, t, kind, p) && SameIn(s, t, p + 8, hi)
  {
    if kind == 0 {
      var plan := ValuePlan(kind, p);
      assert Sound(plan, p, hi);
      RangeTurned(s, t, plan, p, hi, 0);
      GapKept(s, t, plan, p, hi, p + 4, p + 8);
      GapKept(s, t, plan, p, hi, p + 8, hi);
    } else {
      MatchTurned(s, t, p, hi);
    }
  }

  /** A value behind other fields. */
  lemma BeforeValue(s: seq<u8>, t: seq<u8>, before: Plan, kind: u8, lo: nat, p: nat, hi: nat)
    requires lo <= p && p + 8 <= hi <= |s| == |t| && Sound(before, lo, p)
    requires ConvertedIn(s, t, before + ValuePlan(kind, p), lo, hi)
    ensures ConvertedIn(s, t, before, lo, p) && OperandTurned(s, t, kind, p) && SameIn(s, t, p + 8, hi)
  {
    ValuePlanSound(kind, p);
    SoundWithin(ValuePlan(kind, p), p, p + 8, p, hi);
    StretchConverted(s, t, before, ValuePlan(kind, p), lo, p, hi);
    ValueTurned(s, t, kind, p, hi);
  }

  lemma OutputTurned(s: seq<u8>, t: seq<u8>, d: nat, hi: nat)
    requires hi == d + 44 <= |s| == |t| && ConvertedIn(s, t, ActionData(0, s, d), d, hi)
    ensures ActionDataTurned(0, s, t, d)
  {
    var plan := [Range(d + 2, 2), Range(d + 4, 2), Range(d + 6, 2)];
    BeforeValue(s, t, plan, s[d], d, d + 8, hi);
    RangeTurned(s, t, plan, d, d + 8, 0);
    RangeTurned(s, t, plan, d, d + 8, 1);
    RangeTurned(s, t, plan, d, d + 8, 2);
    GapKept(s, t, plan, d, d + 8, d, d + 2);
  }

  lemma DeleteTurned(s: seq<u8>, t: seq<u8>, d: nat, hi: nat)
    requires hi == d + 44 <= |s| == |t| && ConvertedIn(s, t, ActionData(5, s, d), d, hi)
    ensures ActionDataTurned(5, s, t, d)
  {
    var after := ValuePlan(s[d + 2], d + 8);
    ValuePlanSound(s[d + 2], d + 8);
    SoundWithin(after, d + 8, d + 16, d + 8, hi);
    NumberThen(s, t, d, d, after, d + 8, hi);
    ValueTurned(s, t, s[d + 2], d + 8, hi);
  }

  /** A match and one number behind it. */
  lemma MatchAndNumberTurned(s: seq<u8>, t: seq<u8>, d: nat, n: nat, hi: nat)
    requires d + 8 + n <= hi <= |s| == |t| && ConvertedIn(s, t, MatchPlan(d) + [Range(d + 8, n)], d, hi)
    ensures FieldTurned(s, t, d) && Turned(s, t, d + 8, n) && SameIn(s, t, d + 8 + n, hi)
  {
    var plan := [Range(d + 8, n)];
    StretchConverted(s, t, MatchPlan(d), plan, d, d + 8, hi);
    MatchTurned(s, t, d, d + 8);
    RangeTurned(s, t, plan, d + 8, hi, 0);
    GapKept(s, t, plan, d + 8, hi, d + 8 + n, hi);
  }

  lemma AddTurned(s: seq<u8>, t: seq<u8>, d: nat, hi: nat)
    requires hi == d + 44 <= |s| == |t| && ConvertedIn(s, t, ActionData(4, s, d), d, hi)
    ensures ActionDataTurned(4, s, t, d)
  {
    var plan := ActionData(4, s, d);
    FixedDataSound(4, s, d);
    RangeTurned(s, t, plan, d, hi, 0);
    RangeTurned(s, t, plan, d, hi, 1);
    RangeTurned(s, t, plan, d, hi, 2);
    GapKept(s, t, plan, d, hi, d + 8, hi);
  }

  lemma ChecksumTurned(s: seq<u8>, t: seq<u8>, d: nat, hi: nat)
    requires hi == d + 44 <= |s| == |t| && ConvertedIn(s, t, ActionData(6, s, d), d, hi)
    ensures ActionDataTurned(6, s, t, d)
  {
    var plan := ActionData(6, s, d);
    FixedDataSound(6, s, d);
    RangeTurned(s, t, plan, d, hi, 0);
    RangeTurned(s, t, plan, d, hi, 1);
    RangeTurned(s, t, plan, d, hi, 2);
    RangeTurned(s, t, plan, d, hi, 3);
    GapKept(s, t, plan, d, hi, d, d + 2);
    GapKept(s, t, plan, d, hi, d + 10, hi);
  }

  lemma NumberTurned(s: seq<u8>, t: seq<u8>, d: nat, n: nat, hi: nat)
    requires d + n <= hi <= |s| == |t| && ConvertedIn(s, t, [Range(d, n)], d, hi)
    ensures Turned(s, t, d, n) && SameIn(s, t, d + n, hi)
  {
    RangeTurned(s, t, [Range(d, n)], d, hi, 0);
    GapKept(s, t, [Range(d, n)], d, hi, d + n, hi);
  }

  /** The data of every action type. */
  lemma DataTurned(kind: nat, s: seq<u8>, t: seq<u8>, d: nat)
    requires d + 44 <= |s| == |t| && ConvertedIn(s, t, ActionData(kind, s, d), d, d + 44)
    ensures ActionDataTurned(kind, s, t, d)
  {
    match kind
    case 0 => OutputTurned(s, t, d, d + 44);
    case 1 => MatchTurned(s, t, d, d + 44);
    case 2 => MatchAndNumberTurned(s, t, d, 2, d + 44);
    case 3 => MatchAndNumberTurned(s, t, d, 4, d + 44);
    case 4 => AddTurned(s, t, d, d + 44);
    case 5 => DeleteTurned(s, t, d, d + 44);
    case 6 => ChecksumTurned(s, t, d, d + 44);
    case 7 => NumberTurned(s, t, d, 4, d + 44);
    case 8 => NumberTurned(s, t, d, 4, d + 44);
    case 9 => NumberTurned(s, t, d, 4, d + 44);
    case 10 => NumberTurned(s, t, d, 4, d + 44);
    case _ => GapKept(s, t, [], d, d + 44, d, d + 44);
  }

  /** What the conversion of an action does, on its bytes. */
  lemma {:induction false} ActionOnBytes(s: seq<u8>, t: seq<u8>, p: nat)
    requires p + ACTION_SIZE <= |s| == |t| && ConvertedIn(s, t, ActionPlan(s, p), p, p + ACTION_SIZE)
    ensures ActionTurned(s, t, p)
  {
    ActionParts(s, t, p);
    HeadTurned(s, t, p);
    DataTurned(ActionType(s, p), s, t, p + 4);
    ActionTypeIs(s, p);
  }

  lemma {:induction false} ActionParts(s: seq<u8>, t: seq<u8>, p: nat)
    requires p + ACTION_SIZE <= |s| == |t| && ConvertedIn(s, t, ActionPlan(s, p), p, p + ACTION_SIZE)
    ensures ConvertedIn(s, t, HeadPlan(p), p, p + 4)
    ensures ConvertedIn(s, t, ActionData(ActionType(s, p), s, p + 4), p + 4, p + ACTION_SIZE)
  {
    ActionDataSound(ActionType(s, p), s, p + 4);
    StretchConverted(s, t, HeadPlan(p), ActionData(ActionType(s, p), s, p + 4), p, p + 4, p + ACTION_SIZE);
  }

  lemma ActionTypeIs(s: seq<u8>, p: nat)
    requires p + 4 <= |s|
    ensures ActionType(s, p) == if LittleEndian(s, p + 2, 2) > 0x00FF then BigEndian(s, p, 2) else LittleEndian(s, p, 2)
  {
    TwoBytes(s, p);
    TwoBytes(s, p + 2);
  }

  /** A plan carried out on the whole buffer, seen in its own stretch. */
  lemma ConvertedStretch(s: seq<u8>, t: seq<u8>, plan: Plan, lo: int, hi: int)
    requires Sound(plan, lo, hi) && 0 <= lo && hi <= |s| && Fits(plan, |s|) && t == Converted(s, plan)
    ensures ConvertedIn(s, t, plan, lo, hi) && SameIn(s, t, 0, lo) && SameIn(s, t, hi, |s|)
  {
    KeptOutside(s, plan, lo, hi);
    forall i | 0 <= i < |s| && lo <= i < hi
      ensures 0 <= Source(plan, i) < |s| && t[i] == s[Source(plan, i)]
    {
      ConvertedAt(s, plan, i);
    }
  }

  /** action. */
  method Action(a: array<u8>, p: nat)
    requires p + ACTION_SIZE <= a.Length
    modifies a
    ensures Fits(ActionPlan(old(a[..]), p), a.Length)
    ensures a[..] == Converted(old(a[..]), ActionPlan(old(a[..]), p))
    ensures ActionTurned(old(a[..]), a[..], p)
    ensures SameIn(old(a[..]), a[..], 0, p) && SameIn(old(a[..]), a[..], p + ACTION_SIZE, a.Length)
  {
    ghost var s := a[..];
    SwapAction(a, p);
    ActionPlanSound(s, p);
    ConvertedStretch(s, a[..], ActionPlan(s, p), p, p + ACTION_SIZE);
    ActionOnBytes(s, a[..], p);
  }

  /** The body of action. */
  method SwapAction(a: array<u8>, p: nat)
    requires p + ACTION_SIZE <= a.Length
    modifies a
    ensures Fits(ActionPlan(old(a[..]), p), a.Length)
    ensures a[..] == Converted(old(a[..]), ActionPlan(old(a[..]), p))
  {
    ghost var s := a[..];
    ghost var t := ActionType(s, p);
    ActionPlanSound(s, p);
    ActionDataSound(t, s, p + 4);
    if Little(a[..], p + 2) > 0xFF {
      SwapBytes(a, Range(p, 2));
      SwapBytes(a, Range(p + 2, 2));
      HeadSwapped(s, p, a[..]);
      HeadConverted(s, p);
      Apply(a, ActionData(Little(a[..], p), a[..], p + 4));
      ConvertedAppend(s, HeadPlan(p), ActionData(t, s, p + 4));
    } else {
      Apply(a, ActionData(Little(a[..], p), a[..], p + 4));
      ghost var s1 := a[..];
      SwapBytes(a, Range(p, 2));
      SwapBytes(a, Range(p + 2, 2));
      HeadConverted(s1, p);
      Commute(s, ActionData(t, s, p + 4), HeadPlan(p));
    }
  }

  lemma SwappedTwo(s: seq<u8>, p: nat)
    requires p + 2 <= |s|
    ensures Swapped(s, Range(p, 2)) == s[p := s[p + 1]][p + 1 := s[p]]
  {
    SwappedAll(s, Range(p, 2));
  }

  /** Swapping type and len. */
  lemma HeadSwapped(s: seq<u8>, p: nat, t: seq<u8>)
    requires p + 4 <= |s| && t == Swapped(Swapped(s, Range(p, 2)), Range(p + 2, 2))
    ensures Little(t, p) == Big(s, p) && Big(t, p) == Little(s, p)
    ensures forall i :: 0 <= i < |s| && !(p <= i < p + 4) ==> t[i] == s[i]
  {
    var s1 := Swapped(s, Range(p, 2));
    SwappedTwo(s, p);
    SwappedTwo(s1, p + 2);
    HeadUpdated(s, p, s1, t);
  }

  lemma HeadConverted(s: seq<u8>, p: nat)
    requires p + 4 <= |s|
    ensures Fits(HeadPlan(p), |s|)
    ensures Converted(s, HeadPlan(p)) == Swapped(Swapped(s, Range(p, 2)), Range(p + 2, 2))
  {
    ConvertedTwo(s, Range(p, 2), Range(p + 2, 2));
  }

  lemma HeadUpdated(s: seq<u8>, p: nat, s1: seq<u8>, t: seq<u8>)
    requires p + 4 <= |s| && s1 == s[p := s[p + 1]][p + 1 := s[p]] && t == s1[p + 2 := s1[p + 3]][p + 3 := s1[p + 2]]
    ensures Little(t, p) == Big(s, p) && Big(t, p) == Little(s, p)
    ensures forall i :: 0 <= i < |s| && !(p <= i < p + 4) ==> t[i] == s[i]
  {}

  /** Exactly one byte of len is zero: the converter then tells the two byte orders apart. A host-order len from 1 to
      255 is of this kind. */
  predicate OrderShows(s: seq<u8>, p: nat)
    requires p + 4 <= |s|
  {
    (s[p + 2] == 0) != (s[p + 3] == 0)
  }

  lemma HeadSource(p: nat, i: int)
    requires p <= i < p + 4
    ensures Source(HeadPlan(p), i) == if i < p + 2 then p + p + 1 - i else p + p + 5 - i
  {
    var plan := HeadPlan(p);
    assert plan[..|plan| - 1] == [Range(p, 2)];
  }

  /** A head and data behind it: the head's bytes are exchanged, the data's follow the data's plan. */
  lemma HeadThenData(p: nat, data: Plan, hi: int, i: int)
    requires Sound(data, p + 4, hi) && p <= i
    ensures Source(HeadPlan(p) + data, i) == if i < p + 4 then Source(HeadPlan(p), i) else Source(data, i)
  {
    SourceAppend(HeadPlan(p), data, i);
    if i < p + 4 {
      OutsideUntouched(data, p + 4, hi, i);
    } else {
      OutsideUntouched(HeadPlan(p), p, p + 4, i);
      Untouched(data, i);
    }
  }

  lemma HeadExchanged(s: seq<u8>, t: seq<u8>, p: nat, plan: Plan)
    requires p + 4 <= |s| == |t| && ConvertedIn(s, t, plan, p, p + 4)
    requires forall i :: p <= i < p + 4 ==> Source(plan, i) == Source(HeadPlan(p), i)
    ensures t[p] == s[p + 1] && t[p + 1] == s[p] && t[p + 2] == s[p + 3] && t[p + 3] == s[p + 2]
    ensures Big(t, p) == Little(s, p) && Little(t, p) == Big(s, p)
  {
    HeadSource(p, p);
    HeadSource(p, p + 1);
    HeadSource(p, p + 2);
    HeadSource(p, p + 3);
    assert t[p] == s[Source(plan, p)] && t[p + 1] == s[Source(plan, p + 1)];
    assert t[p + 2] == s[Source(plan, p + 2)] && t[p + 3] == s[Source(plan, p + 3)];
  }

  /** What the second conversion of an action finds. */
  ghost predicate ConvertedTwice(s: seq<u8>, p: nat, t: seq<u8>, u: seq<u8>) {
    && p + ACTION_SIZE <= |s| == |t|
    && Fits(ActionPlan(s, p), |s|) && t == Converted(s, ActionPlan(s, p))
    && Fits(ActionPlan(t, p), |t|) && u == Converted(t, ActionPlan(t, p))
  }

  /** All numbers of an action's data, for a reading of its type, read the same both ways. */
  ghost predicate DataBothWays(s: seq<u8>, p: nat, kind: nat)
    requires p + ACTION_SIZE <= |s|
  {
    var data := ActionData(kind, s, p + 4);
    Fits(data, |s|) && SameBothWays(s, data)
  }

  /** The len shows the byte order, or the type reads the same both ways, or the fields that either reading of the
      type would swap all do. */
  ghost predicate ActionSurvives(s: seq<u8>, p: nat)
    requires p + ACTION_SIZE <= |s|
  {
    || OrderShows(s, p)
    || Little(s, p) == Big(s, p)
    || (DataBothWays(s, p, Little(s, p)) && DataBothWays(s, p, Big(s, p)))
  }

  /** Converting an action and converting it again restores it if and only if it is of this kind. */
  lemma ActionRoundTrip(s: seq<u8>, p: nat, t: seq<u8>, u: seq<u8>)
    requires ConvertedTwice(s, p, t, u)
    ensures u == s <==> ActionSurvives(s, p)
  {
    ActionTypes(s, p, t);
    if ActionType(t, p) == ActionType(s, p) {
      SameTypeRestores(s, p, t, u);
    } else {
      OtherTypeRestores(s, p, t, u);
    }
  }

  lemma OtherTypeRestores(s: seq<u8>, p: nat, t: seq<u8>, u: seq<u8>)
    requires ConvertedTwice(s, p, t, u) && ActionType(t, p) != ActionType(s, p)
    ensures u == s <==> DataBothWays(s, p, Little(s, p)) && DataBothWays(s, p, Big(s, p))
  {
    var little, big := ActionData(Little(s, p), s, p + 4), ActionData(Big(s, p), s, p + 4);
    ActionDataSound(Little(s, p), s, p + 4);
    ActionDataSound(Big(s, p), s, p + 4);
    var d := OneSwapOfData(s, p, t, u, little, big);
    OneOfTwo(s, d, little, big);
  }

  lemma SameTypeRestores(s: seq<u8>, p: nat, t: seq<u8>, u: seq<u8>)
    requires ConvertedTwice(s, p, t, u) && ActionType(t, p) == ActionType(s, p)
    ensures u == s
  {
    ActionPlanSound(s, p);
    ActionControlsStay(s, p, t);
    TwiceIsIdentity(s, ActionPlan(s, p));
  }

  lemma OneOfTwo(s: seq<u8>, d: Plan, little: Plan, big: Plan)
    requires Sound(d, 0, |s|) && Fits(little, |s|) && Fits(big, |s|)
    requires (d == little && big == []) || (d == big && little == [])
    ensures Fits(d, |s|) && (Converted(s, d) == s <==> SameBothWays(s, little) && SameBothWays(s, big))
  {
    UnchangedIff(s, d);
  }

  lemma ActionTypes(s: seq<u8>, p: nat, t: seq<u8>)
    requires p + ACTION_SIZE <= |s|
    requires Fits(ActionPlan(s, p), |s|) && t == Converted(s, ActionPlan(s, p))
    ensures Big(t, p) == Little(s, p) && Little(t, p) == Big(s, p) && t[p + 2] == s[p + 3] && t[p + 3] == s[p + 2]
    ensures ActionType(t, p) == ActionType(s, p) <==> OrderShows(s, p) || Little(s, p) == Big(s, p)
  {
    var data := ActionData(ActionType(s, p), s, p + 4);
    ActionPlanSound(s, p);
    ActionDataSound(ActionType(s, p), s, p + 4);
    forall i | p <= i < p + 4
      ensures Source(ActionPlan(s, p), i) == Source(HeadPlan(p), i)
    {
      HeadThenData(p, data, p + 48, i);
    }
    forall i | p <= i < p + 4
      ensures 0 <= Source(ActionPlan(s, p), i) < |s| && t[i] == s[Source(ActionPlan(s, p), i)]
    {
      ConvertedAt(s, ActionPlan(s, p), i);
    }
    HeadExchanged(s, t, p, ActionPlan(s, p));
  }

  lemma ActionControlsStay(s: seq<u8>, p: nat, t: seq<u8>)
    requires p + ACTION_SIZE <= |s| == |t|
    requires Fits(ActionPlan(s, p), |s|) && t == Converted(s, ActionPlan(s, p))
    requires ActionType(t, p) == ActionType(s, p)
    ensures ActionPlan(t, p) == ActionPlan(s, p)
  {
    var kind, data := ActionType(s, p), ActionData(ActionType(s, p), s, p + 4);
    ActionDataSound(kind, s, p + 4);
    ActionControls(kind, s, p + 4);
    assert ActionPlan(s, p) == HeadPlan(p) + data;
    if kind == 0 {
      UntouchedStays(s, p, t, data, p + 4);
    } else if kind == 5 {
      UntouchedStays(s, p, t, data, p + 6);
    }
    ActionDataSame(kind, s, t, p + 4);
  }

  lemma UntouchedStays(s: seq<u8>, p: nat, t: seq<u8>, data: Plan, c: nat)
    requires p + ACTION_SIZE <= |s| && Sound(data, p + 4, p + 48) && p + 4 <= c < p + 48 && !Touches(data, c)
    requires Fits(HeadPlan(p) + data, |s|) && t == Converted(s, HeadPlan(p) + data)
    ensures t[c] == s[c]
  {
    HeadDataSound(p, data, |s|);
    ConvertedAt(s, HeadPlan(p) + data, c);
    HeadThenData(p, data, p + 48, c);
    Untouched(data, c);
  }

  /** When the two conversions go by different types, at most one of them touches the data. */
  lemma OneSwapOfData(s: seq<u8>, p: nat, t: seq<u8>, u: seq<u8>, little: Plan, big: Plan) returns (d: Plan)
    requires ConvertedTwice(s, p, t, u)
    requires little == ActionData(Little(s, p), s, p + 4) && big == ActionData(Big(s, p), s, p + 4)
    requires ActionType(t, p) != ActionType(s, p)
    ensures Sound(d, 0, |s|) && Fits(d, |s|) && u == Converted(s, d)
    ensures (d == little && big == []) || (d == big && little == [])
  {
    ActionTypes(s, p, t);
    ActionPlanSound(s, p);
    ActionPlanSound(t, p);
    var k1, k2 := ActionType(s, p), ActionType(t, p);
    var d1, d2 := ActionData(k1, s, p + 4), ActionData(k2, s, p + 4);
    ActionDataSound(k1, s, p + 4);
    ActionDataSound(k2, s, p + 4);
    OneEmpty(s, p, t);
    d := if d1 == [] then d2 else d1;
    SoundWithin(d, p + 4, p + 48, 0, |s|);
    assert ActionPlan(s, p) == HeadPlan(p) + d1 && ActionPlan(t, p) == HeadPlan(p) + d2;
    SwapsOnce(s, p, d1, d2, d, t, u);
  }

  lemma SwapsOnce(s: seq<u8>, p: nat, d1: Plan, d2: Plan, d: Plan, t: seq<u8>, u: seq<u8>)
    requires p + ACTION_SIZE <= |s| && Sound(d1, p + 4, p + 48) && Sound(d2, p + 4, p + 48)
    requires d == (if d1 == [] then d2 else d1) && (d1 == [] || d2 == [])
    requires Fits(HeadPlan(p) + d1, |s|) && t == Converted(s, HeadPlan(p) + d1)
    requires Fits(HeadPlan(p) + d2, |t|) && u == Converted(t, HeadPlan(p) + d2)
    ensures Fits(d, |s|) && u == Converted(s, d)
  {
    HeadDataSound(p, d1, |s|);
    HeadDataSound(p, d2, |s|);
    SoundWithin(d, p + 4, p + 48, 0, |s|);
    AllTwoSources(p, d1, d2, d);
    TwoPlans(s, HeadPlan(p) + d1, HeadPlan(p) + d2, d, t, u);
  }

  lemma HeadDataSound(p: nat, data: Plan, size: nat)
    requires p + ACTION_SIZE <= size && Sound(data, p + 4, p + 48)
    ensures Sound(HeadPlan(p) + data, 0, size)
  {
    SoundAppend(HeadPlan(p), data, p, p + 4, p + 48);
    SoundWithin(HeadPlan(p) + data, p, p + 48, 0, size);
  }

  lemma AllTwoSources(p: nat, d1: Plan, d2: Plan, d: Plan)
    requires Sound(d1, p + 4, p + 48) && Sound(d2, p + 4, p + 48)
    requires d == (if d1 == [] then d2 else d1) && (d1 == [] || d2 == [])
    ensures forall i: nat :: Source(HeadPlan(p) + d1, Source(HeadPlan(p) + d2, i)) == Source(d, i)
  {
    forall i: nat
      ensures Source(HeadPlan(p) + d1, Source(HeadPlan(p) + d2, i)) == Source(d, i)
    {
      TwoSources(p, d1, d2, d, i);
    }
  }

  lemma TwoPlans(s: seq<u8>, p1: Plan, p2: Plan, d: Plan, t: seq<u8>, u: seq<u8>)
    requires Sound(p1, 0, |s|) && Sound(p2, 0, |s|) && Sound(d, 0, |s|)
    requires Fits(p1, |s|) && t == Converted(s, p1) && Fits(p2, |t|) && u == Converted(t, p2) && Fits(d, |s|)
    requires forall i: nat :: i < |s| ==> Source(p1, Source(p2, i)) == Source(d, i)
    ensures u == Converted(s, d)
  {
    forall i: nat | i < |s|
      ensures u[i] == Converted(s, d)[i]
    {
      TwoPlansAt(s, p1, p2, d, t, u, i);
    }
  }

  lemma TwoPlansAt(s: seq<u8>, p1: Plan, p2: Plan, d: Plan, t: seq<u8>, u: seq<u8>, i: nat)
    requires Sound(p1, 0, |s|) && Sound(p2, 0, |s|) && Sound(d, 0, |s|) && i < |s|
    requires Fits(p1, |s|) && t == Converted(s, p1) && Fits(p2, |t|) && u == Converted(t, p2) && Fits(d, |s|)
    requires Source(p1, Source(p2, i)) == Source(d, i)
    ensures u[i] == Converted(s, d)[i]
  {
    ConvertedAt(s, d, i);
    ConvertedAt(t, p2, i);
    ConvertedAt(s, p1, Source(p2, i));
  }

  lemma {:induction false} OneEmpty(s: seq<u8>, p: nat, t: seq<u8>)
    requires p + ACTION_SIZE <= |s| == |t|
    requires Fits(ActionPlan(s, p), |s|) && t == Converted(s, ActionPlan(s, p))
    requires ActionType(t, p) != ActionType(s, p)
    ensures ActionData(ActionType(s, p), s, p + 4) == [] || ActionData(ActionType(t, p), s, p + 4) == []
    ensures ActionData(ActionType(t, p), t, p + 4) == ActionData(ActionType(t, p), s, p + 4)
  {
    var k1, k2 := ActionType(s, p), ActionType(t, p);
    ActionTypes(s, p, t);
    TypesApart(s, p, t);
    if k1 > 10 {
      NoData(k1, s, p + 4);
      DataUntouched(s, p, t, k2);
    } else {
      NoData(k2, s, p + 4);
      NoData(k2, t, p + 4);
    }
  }

  lemma DataUntouched(s: seq<u8>, p: nat, t: seq<u8>, kind: nat)
    requires p + ACTION_SIZE <= |s| == |t|
    requires Fits(ActionPlan(s, p), |s|) && t == Converted(s, ActionPlan(s, p))
    requires ActionData(ActionType(s, p), s, p + 4) == []
    ensures ActionData(kind, t, p + 4) == ActionData(kind, s, p + 4)
  {
    DataKept(s, p, t, p + 4);
    DataKept(s, p, t, p + 6);
    ActionDataSame(kind, s, t, p + 4);
  }

  /** At most one reading of a type is in the range of the action types that have data to swap. */
  lemma TypesApart(s: seq<u8>, p: nat, t: seq<u8>)
    requires p + 4 <= |s| == |t| && Big(t, p) == Little(s, p) && Little(t, p) == Big(s, p)
    requires ActionType(t, p) != ActionType(s, p)
    ensures ActionType(s, p) > 10 || ActionType(t, p) > 10
  {
    assert Little(s, p) != Big(s, p) ==> Little(s, p) > 10 || Big(s, p) > 10;
  }

  lemma NoData(t: nat, s: seq<u8>, d: nat)
    requires d + 44 <= |s| && t > 10
    ensures ActionData(t, s, d) == []
  {}

  lemma DataKept(s: seq<u8>, p: nat, t: seq<u8>, i: nat)
    requires p + ACTION_SIZE <= |s| == |t| && p + 4 <= i < p + 48
    requires Fits(ActionPlan(s, p), |s|) && t == Converted(s, ActionPlan(s, p))
    requires ActionData(ActionType(s, p), s, p + 4) == []
    ensures t[i] == s[i]
  {
    ActionPlanSound(s, p);
    ConvertedAt(s, ActionPlan(s, p), i);
    HeadThenData(p, [], p + 48, i);
  }

  lemma TwoSources(p: nat, d1: Plan, d2: Plan, d: Plan, i: nat)
    requires Sound(d1, p + 4, p + 48) && Sound(d2, p + 4, p + 48)
    requires d == (if d1 == [] then d2 else d1) && (d1 == [] || d2 == [])
    ensures Source(HeadPlan(p) + d2, i) >= 0
    ensures Source(HeadPlan(p) + d1, Source(HeadPlan(p) + d2, i)) == Source(d, i)
  {
    if i < p || p + 48 <= i {
      TwoSourcesOutside(p, d1, d2, d, i);
    } else if i < p + 4 {
      TwoSourcesInHead(p, d1, d2, d, i);
    } else {
      HeadThenData(p, d2, p + 48, i);
      SourceTwice(d2, p + 4, p + 48, i);
      HeadThenData(p, d1, p + 48, Source(d2, i));
    }
  }

  lemma TwoSourcesOutside(p: nat, d1: Plan, d2: Plan, d: Plan, i: nat)
    requires Sound(d1, p + 4, p + 48) && Sound(d2, p + 4, p + 48) && (d == d1 || d == d2)
    requires i < p || p + 48 <= i
    ensures Source(HeadPlan(p) + d2, i) == i && Source(HeadPlan(p) + d1, i) == i && Source(d, i) == i
  {
    SoundAppend(HeadPlan(p), d1, p, p + 4, p + 48);
    SoundAppend(HeadPlan(p), d2, p, p + 4, p + 48);
    OutsideUntouched(HeadPlan(p) + d1, p, p + 48, i);
    OutsideUntouched(HeadPlan(p) + d2, p, p + 48, i);
    OutsideUntouched(d, p + 4, p + 48, i);
  }

  lemma TwoSourcesInHead(p: nat, d1: Plan, d2: Plan, d: Plan, i: nat)
    requires Sound(d1, p + 4, p + 48) && Sound(d2, p + 4, p + 48) && (d == d1 || d == d2) && p <= i < p + 4
    ensures Source(HeadPlan(p) + d2, i) >= 0
    ensures Source(HeadPlan(p) + d1, Source(HeadPlan(p) + d2, i)) == Source(d, i)
  {
    var j := if i < p + 2 then p + p + 1 - i else p + p + 5 - i;
    HeadThenData(p, d2, p + 48, i);
    HeadSource(p, i);
    HeadSource(p, j);
    HeadThenData(p, d1, p + 48, j);
    OutsideUntouched(d, p + 4, p + 48, i);
  }

  /** The same for an action inside a buffer that changes elsewhere, too. */
  lemma ActionRoundTripIn(s: seq<u8>, t: seq<u8>, u: seq<u8>, p: nat)
    requires p + ACTION_SIZE <= |s| == |t| == |u|
    requires ConvertedIn(s, t, ActionPlan(s, p), p, p + ACTION_SIZE)
    requires ConvertedIn(t, u, ActionPlan(t, p), p, p + ACTION_SIZE)
    ensures SameIn(s, u, p, p + ACTION_SIZE) <==> ActionSurvives(s, p)
  {
    ActionPlanSound(s, p);
    ActionPlanSound(t, p);
    var t' := Converted(s, ActionPlan(s, p));
    Localized(s, s, t, t', ActionPlan(s, p), p, p + ACTION_SIZE);
    ActionPlanLocal(t, t', p);
    var u' := Converted(t', ActionPlan(t', p));
    Localized(t, t', u, u', ActionPlan(t, p), p, p + ACTION_SIZE);
    ActionRoundTrip(s, p, t', u');
  }

  /** The plan of action k of an instruction whose actions begin at p, and where it lies. */
  function ActionBlock(s: seq<u8>, p: nat): nat -> Plan {
    (k: nat) => if p + ACTION_SIZE * k + ACTION_SIZE <= |s| then ActionPlan(s, p + ACTION_SIZE * k) else []
  }

  function ActionAt(p: nat): nat -> nat {
    (k: nat) => p + ACTION_SIZE * k
  }

  lemma ActionBlockAt(s: seq<u8>, p: nat, k: nat, q: nat)
    requires q == p + ACTION_SIZE * k && q + ACTION_SIZE <= |s|
    ensures ActionBlock(s, p)(k) == ActionPlan(s, q) && ActionAt(p)(k) == q && ActionAt(p)(k + 1) == q + ACTION_SIZE
  {}

  lemma ActionsAreArray(s: seq<u8>, p: nat, n: nat)
    requires p + ACTION_SIZE * n <= |s|
    ensures Array(ActionBlock(s, p), ActionAt(p), n)
  {
    forall k: nat | k < n
      ensures Sound(ActionBlock(s, p)(k), ActionAt(p)(k), ActionAt(p)(k + 1))
    {
      ActionPlanSound(s, p + ACTION_SIZE * k);
    }
  }

  /** A plan depends only on the stretch it is for. */
  lemma ActionPlanLocal(s: seq<u8>, t: seq<u8>, p: nat)
    requires p + ACTION_SIZE <= |s| == |t|
    requires forall i :: p <= i < p + ACTION_SIZE ==> s[i] == t[i]
    ensures ActionPlan(t, p) == ActionPlan(s, p)
  {}

  lemma {:induction false} ActionKRoundTrip(s: seq<u8>, t: seq<u8>, u: seq<u8>, p: nat, n: nat, k: nat, q: nat,
                                            end: nat)
    requires end == p + ACTION_SIZE * n <= |s| == |t| == |u| && k < n && q == p + ACTION_SIZE * k
    requires Array(ActionBlock(s, p), ActionAt(p), n) && Array(ActionBlock(t, p), ActionAt(p), n)
    requires ConvertedIn(s, t, Blocks(ActionBlock(s, p), n), p, end)
    requires ConvertedIn(t, u, Blocks(ActionBlock(t, p), n), p, end)
    ensures SameAction(s, u, p, k) <==> ActionKSurvives(s, p, k)
  {
    ActionKConverted(s, t, p, n, k, q, end);
    ActionKConverted(t, u, p, n, k, q, end);
    ActionRoundTripIn(s, t, u, q);
  }

  lemma ActionKConverted(s: seq<u8>, t: seq<u8>, p: nat, n: nat, k: nat, q: nat, end: nat)
    requires end == p + ACTION_SIZE * n <= |s| == |t| && k < n && q == p + ACTION_SIZE * k
    requires Array(ActionBlock(s, p), ActionAt(p), n)
    requires ConvertedIn(s, t, Blocks(ActionBlock(s, p), n), p, end)
    ensures q + ACTION_SIZE <= |s| && ConvertedIn(s, t, ActionPlan(s, q), q, q + ACTION_SIZE)
  {
    BlocksConverted(s, t, ActionBlock(s, p), ActionAt(p), n, k);
    ActionBlockAt(s, p, k, q);
  }

  /** Each action of an instruction's data is of the kind that survives. */
  ghost predicate ActionsSurvive(s: seq<u8>, p: nat, n: nat)
  {
    forall k: nat :: k < n ==> ActionKSurvives(s, p, k)
  }

  ghost predicate ActionKSurvives(s: seq<u8>, p: nat, k: nat) {
    p + ACTION_SIZE * k + ACTION_SIZE <= |s| && ActionSurvives(s, p + ACTION_SIZE * k)
  }

  /** Converting n actions and converting them again restores them if and only if each of them survives. */
  lemma ActionsRoundTrip(s: seq<u8>, t: seq<u8>, u: seq<u8>, p: nat, n: nat, end: nat)
    requires end == p + ACTION_SIZE * n <= |s| == |t| == |u|
    requires ConvertedIn(s, t, Blocks(ActionBlock(s, p), n), p, end)
    requires ConvertedIn(t, u, Blocks(ActionBlock(t, p), n), p, end)
    ensures SameIn(s, u, p, end) <==> ActionsSurvive(s, p, n)
  {
    ActionsAreArray(s, p, n);
    ActionsAreArray(t, p, n);
    forall k: nat | k < n
      ensures SameAction(s, u, p, k) <==> ActionKSurvives(s, p, k)
    {
      ActionKRoundTrip(s, t, u, p, n, k, p + ACTION_SIZE * k, end);
    }
    SameActions(s, u, p, n, end);
  }

  /** An array of actions is the same if and only if its elements are. */
  lemma SameActions(s: seq<u8>, u: seq<u8>, p: nat, n: nat, end: nat)
    requires end == p + ACTION_SIZE * n <= |s| == |u|
    ensures SameIn(s, u, p, end) <==> forall k: nat :: k < n ==> SameAction(s, u, p, k)
  {
    if forall k: nat :: k < n ==> SameAction(s, u, p, k) {
      forall i | 0 <= i < |s| && p <= i < end
        ensures u[i] == s[i]
      {
        assert SameAction(s, u, p, (i - p) / ACTION_SIZE);
      }
    }
  }

  predicate SameAction(s: seq<u8>, u: seq<u8>, p: nat, k: nat) {
    SameIn(s, u, p + ACTION_SIZE * k, p + ACTION_SIZE * k + ACTION_SIZE)
  }

  /** The loop of instruction_APPLY_ACTIONS. */
  method Actions(a: array<u8>, p: nat, n: nat)
    requires p + ACTION_SIZE * n <= a.Length
    modifies a
    ensures Fits(Blocks(ActionBlock(old(a[..]), p), n), a.Length)
    ensures a[..] == Converted(old(a[..]), Blocks(ActionBlock(old(a[..]), p), n))
  {
    ghost var s, f := a[..], ActionBlock(a[..], p);
    for i := 0 to n
      invariant Fits(Blocks(f, i), a.Length) && a[..] == Converted(s, Blocks(f, i))
    {
      NextAction(a, p, n, i, s, f);
    }
  }

  method NextAction(a: array<u8>, p: nat, n: nat, i: nat, ghost s: seq<u8>, ghost f: nat -> Plan)
    requires p + ACTION_SIZE * n <= a.Length == |s| && i < n && f == ActionBlock(s, p)
    requires Fits(Blocks(f, i), |s|) && a[..] == Converted(s, Blocks(f, i))
    modifies a
    ensures Fits(Blocks(f, i + 1), |s|) && a[..] == Converted(s, Blocks(f, i + 1))
  {
    var q := p + ACTION_SIZE * i;
    ActionsAreArray(s, p, n);
    BlocksNext(s, f, ActionAt(p), n, i);
    ActionBlockAt(s, p, i, q);
    ActionPlanLocal(s, a[..], q);
    Action(a, q);
  }

  /** The plan of match k of an array of struct pof_match at p. */
  function MatchBlock(p: nat): nat -> Plan {
    (k: nat) => MatchPlan(p + 8 * k)
  }

  lemma MatchesSound(p: nat)
    ensures Sound(Blocks(MatchBlock(p), 8), p, p + 64)
  {
    BlocksSound(MatchBlock(p), (k: nat) => p + 8 * k, 8);
  }

  predicate Known(t: nat) {
    1 <= t <= 11 || t == 0xFFFF
  }

  /** The fields that the converter of an instruction type swaps, the instruction's data being at d. Three of the known
      types have converters that swap nothing. */
  function InsData(t: nat, s: seq<u8>, d: nat): Plan
    requires d + 296 <= |s|
  {
    if t == 1 then [Range(d + 2, 2)] + Blocks(MatchBlock(d + 8), 8)               // GOTO_TABLE
    else if t == 2 then [Range(d, 2), Range(d + 2, 2)]                            // WRITE_METADATA
    else if t == 4 then Blocks(ActionBlock(s, d + 8), s[d])                       // APPLY_ACTIONS
    else if t == 6 then [Range(d, 4)]                                             // METER
    else if t == 7 then MatchPlan(d)                                              // WRITE_METADATA_FROM_PACKET
    else if t == 8 then [Range(d + 2, 2)] + ValuePlan(s[d + 1], d + 8)            // GOTO_DIRECT_TABLE
    else if t == 9 then MatchPlan(d + 8) + (ValuePlan(s[d], d + 16) + (ValuePlan(s[d + 2], d + 24)
                        + (ValuePlan(s[d + 4], d + 32) + ValuePlan(s[d + 6], d + 40))))  // CONDITIONAL_JMP
    else if t == 10 then [Range(d, 2)] + (MatchPlan(d + 8) + ValuePlan(s[d + 2], d + 16))  // CALCULATE_FIELD
    else if t == 11 then ValuePlan(s[d + 1], d + 8)                               // MOVE_PACKET_OFFSET
    else []
  }

  /** Behind this byte of the data lie all swaps of a type, and before it what its converter decides by. */
  function FirstSwap(t: nat, d: nat): nat {
    if t == 4 || t == 9 || t == 11 then d + 8 else if t == 1 || t == 8 then d + 2 else d
  }

  /** No more actions than the instruction has room for. */
  predicate CountFits(t: nat, s: seq<u8>, d: nat)
    requires d < |s|
  {
    t == 4 ==> s[d] <= 6
  }

  lemma JumpSound(s: seq<u8>, d: nat)
    requires d + 296 <= |s|
    ensures Sound(InsData(9, s, d), d + 8, d + 296)
  {
    ValuePlanSound(s[d], d + 16);
    ValuePlanSound(s[d + 2], d + 24);
    ValuePlanSound(s[d + 4], d + 32);
    ValuePlanSound(s[d + 6], d + 40);
    var two := ValuePlan(s[d + 4], d + 32) + ValuePlan(s[d + 6], d + 40);
    SoundAppend(ValuePlan(s[d + 4], d + 32), ValuePlan(s[d + 6], d + 40), d + 32, d + 40, d + 48);
    SoundAppend(ValuePlan(s[d + 2], d + 24), two, d + 24, d + 32, d + 48);
    var three := ValuePlan(s[d + 2], d + 24) + two;
    SoundAppend(ValuePlan(s[d], d + 16), three, d + 16, d + 24, d + 48);
    SoundAppend(MatchPlan(d + 8), ValuePlan(s[d], d + 16) + three, d + 8, d + 16, d + 48);
    SoundWithin(InsData(9, s, d), d + 8, d + 48, d + 8, d + 296);
  }

  lemma CalculateSound(s: seq<u8>, d: nat)
    requires d + 296 <= |s|
    ensures Sound(InsData(10, s, d), d, d + 296)
  {
    ValuePlanSound(s[d + 2], d + 16);
    SoundAppend(MatchPlan(d + 8), ValuePlan(s[d + 2], d + 16), d + 8, d + 16, d + 296);
    SoundAppend([Range(d, 2)], MatchPlan(d + 8) + ValuePlan(s[d + 2], d + 16), d, d + 8, d + 296);
  }

  lemma InsDataSound(t: nat, s: seq<u8>, d: nat)
    requires d + 296 <= |s| && CountFits(t, s, d)
    ensures Sound(InsData(t, s, d), FirstSwap(t, d), d + 296)
  {
    if t == 1 {
      MatchesSound(d + 8);
      SoundAppend([Range(d + 2, 2)], Blocks(MatchBlock(d + 8), 8), d + 2, d + 8, d + 72);
    } else if t == 4 {
      ActionsAreArray(s, d + 8, s[d]);
      BlocksSound(ActionBlock(s, d + 8), ActionAt(d + 8), s[d]);
    } else if t == 8 {
      ValuePlanSound(s[d + 1], d + 8);
      SoundAppend([Range(d + 2, 2)], ValuePlan(s[d + 1], d + 8), d + 2, d + 8, d + 296);
    } else if t == 9 {
      JumpSound(s, d);
    } else if t == 10 {
      CalculateSound(s, d);
    } else if t == 11 {
      ValuePlanSound(s[d + 1], d + 8);
    }
  }

  /** Converted data is converted back by the same plan, unless it is actions. */
  lemma InsDataStable(t: nat, s: seq<u8>, s': seq<u8>, d: nat)
    requires d + 296 <= |s| == |s'| && t != 4
    requires ConvertedIn(s, s', InsData(t, s, d), d, d + 296)
    ensures InsData(t, s', d) == InsData(t, s, d)
  {
    ControlsKept(t, s, s', d);
    if t == 10 {
      CalculateControl(s, d);
      assert s'[d + 2] == s[Source(InsData(t, s, d), d + 2)];
    }
    InsDataSame(t, s, s', d);
  }

  lemma InsDataSame(t: nat, s: seq<u8>, s': seq<u8>, d: nat)
    requires d + 296 <= |s| == |s'| && t != 4
    requires forall i :: d <= i < FirstSwap(t, d) ==> s'[i] == s[i]
    requires t == 10 ==> s'[d + 2] == s[d + 2]
    ensures InsData(t, s', d) == InsData(t, s, d)
  {}

  lemma ControlsKept(t: nat, s: seq<u8>, s': seq<u8>, d: nat)
    requires d + 296 <= |s| == |s'| && CountFits(t, s, d)
    requires ConvertedIn(s, s', InsData(t, s, d), d, d + 296)
    ensures forall i :: d <= i < FirstSwap(t, d) ==> s'[i] == s[i]
  {
    var plan, first := InsData(t, s, d), FirstSwap(t, d);
    InsDataSound(t, s, d);
    forall i | d <= i < first
      ensures s'[i] == s[i]
    {
      OutsideUntouched(plan, first, d + 296, i);
      assert s'[i] == s[Source(plan, i)];
    }
  }

  /** An instruction's data survives two conversions if its actions do, and any other data always does. */
  ghost predicate DataSurvives(t: nat, s: seq<u8>, d: nat)
    requires d + 296 <= |s| && CountFits(t, s, d)
  {
    t == 4 ==> ActionsSurvive(s, d + 8, s[d])
  }

  lemma DataRoundTrip(kind: nat, s: seq<u8>, t: seq<u8>, u: seq<u8>, d: nat)
    requires d + 296 <= |s| == |t| == |u| && CountFits(kind, s, d) && CountFits(kind, t, d)
    requires ConvertedIn(s, t, InsData(kind, s, d), d, d + 296)
    requires ConvertedIn(t, u, InsData(kind, t, d), d, d + 296)
    ensures SameIn(s, u, d, d + 296) <==> DataSurvives(kind, s, d)
  {
    if kind == 4 {
      ControlsKept(kind, s, t, d);
      ActionDataRoundTrip(s, t, u, d, s[d], d + 8 + ACTION_SIZE * s[d]);
    } else {
      InsDataStable(kind, s, t, d);
      InsDataSound(kind, s, d);
      SoundWithin(InsData(kind, s, d), FirstSwap(kind, d), d + 296, d, d + 296);
      TwiceIn(s, t, u, InsData(kind, s, d), d, d + 296);
    }
  }

  lemma ActionDataRoundTrip(s: seq<u8>, t: seq<u8>, u: seq<u8>, d: nat, n: nat, end: nat)
    requires d + 296 <= |s| == |t| == |u| && end == d + 8 + ACTION_SIZE * n <= d + 296
    requires ConvertedIn(s, t, Blocks(ActionBlock(s, d + 8), n), d, d + 296)
    requires ConvertedIn(t, u, Blocks(ActionBlock(t, d + 8), n), d, d + 296)
    ensures SameIn(s, u, d, d + 296) <==> ActionsSurvive(s, d + 8, n)
  {
    ActionsKeepRest(s, t, d, n, end);
    ActionsKeepRest(t, u, d, n, end);
    ActionsRoundTrip(s, t, u, d + 8, n, end);
    SameMiddle(s, t, u, d, d + 8, end, d + 296);
  }

  /** The conversion of actions leaves the bytes before and behind them alone. */
  lemma ActionsKeepRest(s: seq<u8>, t: seq<u8>, d: nat, n: nat, end: nat)
    requires d + 296 <= |s| == |t| && end == d + 8 + ACTION_SIZE * n <= d + 296
    requires ConvertedIn(s, t, Blocks(ActionBlock(s, d + 8), n), d, d + 296)
    ensures SameIn(s, t, d, d + 8) && SameIn(s, t, end, d + 296)
    ensures ConvertedIn(s, t, Blocks(ActionBlock(s, d + 8), n), d + 8, end)
  {
    var plan := Blocks(ActionBlock(s, d + 8), n);
    ActionsAreArray(s, d + 8, n);
    BlocksSound(ActionBlock(s, d + 8), ActionAt(d + 8), n);
    assert Sound(plan, d + 8, end);
    RestKept(s, t, plan, d, d + 8, end, d + 296);
  }

  lemma RestKept(s: seq<u8>, t: seq<u8>, plan: Plan, lo: int, from: int, to: int, hi: int)
    requires |t| == |s| && Sound(plan, from, to) && ConvertedIn(s, t, plan, lo, hi)
    requires lo <= from <= to <= hi
    ensures SameIn(s, t, lo, from) && SameIn(s, t, to, hi) && ConvertedIn(s, t, plan, from, to)
  {
    forall i | 0 <= i < |s| && lo <= i < hi && !(from <= i < to)
      ensures t[i] == s[i]
    {
      OutsideUntouched(plan, from, to, i);
      assert t[i] == s[Source(plan, i)];
    }
  }

  lemma SameMiddle(s: seq<u8>, t: seq<u8>, u: seq<u8>, lo: int, from: int, to: int, hi: int)
    requires lo <= from <= to <= hi
    requires SameIn(s, t, lo, from) && SameIn(t, u, lo, from) && SameIn(s, t, to, hi) && SameIn(t, u, to, hi)
    ensures SameIn(s, u, lo, hi) <==> SameIn(s, u, from, to)
  {
    forall i | 0 <= i < |s| && lo <= i < hi && !(from <= i < to)
      ensures u[i] == s[i]
    {
      assert t[i] == s[i];
    }
  }

  lemma CalculateControl(s: seq<u8>, d: nat)
    requires d + 296 <= |s|
    ensures Source(InsData(10, s, d), d + 2) == d + 2
  {
    var rest := MatchPlan(d + 8) + ValuePlan(s[d + 2], d + 16);
    ValuePlanSound(s[d + 2], d + 16);
    SoundAppend(MatchPlan(d + 8), ValuePlan(s[d + 2], d + 16), d + 8, d + 16, d + 296);
    SourceAppend([Range(d, 2)], rest, d + 2);
    OutsideUntouched(rest, d + 8, d + 296, d + 2);
    OutsideUntouched([Range(d, 2)], d, d + 2, d + 2);
  }

  /** instruction_HtoN converts nothing of an instruction of unknown type; instruction_NtoH swaps the head first and
      then looks at the type. */
  function InsPlan(s: seq<u8>, b: nat, net: bool): Plan
    requires b + INSTRUCTION_SIZE <= |s|
  {
    var t := if net then Big(s, b) else Little(s, b);
    if Known(t) then HeadPlan(b) + InsData(t, s, b + 8) else if net then HeadPlan(b) else []
  }

  predicate InsFits(s: seq<u8>, b: nat, net: bool)
    requires b + INSTRUCTION_SIZE <= |s|
  {
    CountFits(if net then Big(s, b) else Little(s, b), s, b + 8)
  }

  lemma InsPlanSound(s: seq<u8>, b: nat, net: bool)
    requires b + INSTRUCTION_SIZE <= |s| && InsFits(s, b, net)
    ensures Sound(InsPlan(s, b, net), b, b + INSTRUCTION_SIZE)
  {
    var t := if net then Big(s, b) else Little(s, b);
    if Known(t) {
      InsDataSound(t, s, b + 8);
      SoundWithin(InsData(t, s, b + 8), FirstSwap(t, b + 8), b + 304, b + 4, b + 304);
      SoundAppend(HeadPlan(b), InsData(t, s, b + 8), b, b + 4, b + INSTRUCTION_SIZE);
    }
  }

  lemma GotoTableTurned(s: seq<u8>, t: seq<u8>, d: nat, hi: nat)
    requires hi == d + 296 <= |s| == |t| && ConvertedIn(s, t, InsData(1, s, d), d, hi)
    ensures InsDataTurned(1, s, t, d)
  {
    var p, after := d + 8, Blocks(MatchBlock(d + 8), 8);
    MatchesSound(p);
    SoundWithin(after, p, p + 64, p, hi);
    NumberThen(s, t, d, d + 2, after, p, hi);
    RestKept(s, t, after, p, p, p + 64, hi);
    MatchBlocksTurned(s, t, p);
  }

  /** A number between bytes that stay, in front of other fields. */
  lemma NumberThen(s: seq<u8>, t: seq<u8>, lo: nat, p: nat, after: Plan, mid: nat, hi: nat)
    requires lo <= p && p + 2 <= mid <= hi <= |s| == |t| && Sound(after, mid, hi)
    requires ConvertedIn(s, t, [Range(p, 2)] + after, lo, hi)
    ensures SameIn(s, t, lo, p) && Turned(s, t, p, 2) && SameIn(s, t, p + 2, mid)
    ensures ConvertedIn(s, t, after, mid, hi)
  {
    var plan := [Range(p, 2)];
    StretchConverted(s, t, plan, after, lo, mid, hi);
    RangeTurned(s, t, plan, lo, mid, 0);
    GapKept(s, t, plan, lo, mid, lo, p);
    GapKept(s, t, plan, lo, mid, p + 2, mid);
  }

  lemma MatchBlocksTurned(s: seq<u8>, t: seq<u8>, p: nat)
    requires p + 64 <= |s| == |t| && ConvertedIn(s, t, Blocks(MatchBlock(p), 8), p, p + 64)
    ensures FieldsTurned(s, t, p, 8)
  {
    var at := (k: nat) => p + 8 * k;
    forall k: nat | k < 8
      ensures FieldKTurned(s, t, p, k)
    {
      MatchBlockTurned(s, t, p, at, k, p + 8 * k);
    }
  }

  lemma MatchBlockTurned(s: seq<u8>, t: seq<u8>, p: nat, at: nat -> nat, k: nat, q: nat)
    requires p + 64 <= |s| == |t| && ConvertedIn(s, t, Blocks(MatchBlock(p), 8), p, p + 64)
    requires k < 8 && q == p + 8 * k && forall j: nat :: at(j) == p + 8 * j
    ensures FieldTurned(s, t, q)
  {
    MatchBlockArray(p, at);
    MatchBlockConverted(s, t, p, MatchBlock(p), at, k, q);
    MatchTurned(s, t, q, q + 8);
  }

  lemma MatchBlockArray(p: nat, at: nat -> nat)
    requires forall j: nat :: at(j) == p + 8 * j
    ensures Array(MatchBlock(p), at, 8) && at(0) == p && at(8) == p + 64
    ensures forall k: nat :: MatchBlock(p)(k) == MatchPlan(p + 8 * k)
  {}

  lemma MatchBlockConverted(s: seq<u8>, t: seq<u8>, p: nat, f: nat -> Plan, at: nat -> nat, k: nat, q: nat)
    requires p + 64 <= |s| == |t| && k < 8 && Array(f, at, 8) && at(0) == p && at(8) == p + 64
    requires ConvertedIn(s, t, Blocks(f, 8), p, p + 64)
    requires at(k) == q && at(k + 1) == q + 8 && f(k) == MatchPlan(q)
    ensures ConvertedIn(s, t, MatchPlan(q), q, q + 8)
  {
    BlocksConverted(s, t, f, at, 8, k);
  }

  lemma TwoNumbersTurned(s: seq<u8>, t: seq<u8>, d: nat, hi: nat)
    requires d + 4 <= hi <= |s| == |t| && ConvertedIn(s, t, [Range(d, 2), Range(d + 2, 2)], d, hi)
    ensures Turned(s, t, d, 2) && Turned(s, t, d + 2, 2) && SameIn(s, t, d + 4, hi)
  {
    var plan := [Range(d, 2), Range(d + 2, 2)];
    assert Sound(plan, d, hi);
    RangeTurned(s, t, plan, d, hi, 0);
    RangeTurned(s, t, plan, d, hi, 1);
    GapKept(s, t, plan, d, hi, d + 4, hi);
  }

  lemma ApplyTurned(s: seq<u8>, t: seq<u8>, d: nat, n: nat, end: nat)
    requires d + 296 <= |s| == |t| && n == s[d] <= 6 && end == d + 8 + ACTION_SIZE * n
    requires ConvertedIn(s, t, InsData(4, s, d), d, d + 296)
    ensures InsDataTurned(4, s, t, d)
  {
    var p := d + 8;
    ActionsKeepRest(s, t, d, n, end);
    ActionsAreArray(s, p, n);
    forall k: nat | k < n
      ensures ActionKTurned(s, t, p, k)
    {
      ActionKConverted(s, t, p, n, k, p + ACTION_SIZE * k, end);
      ActionOnBytes(s, t, p + ACTION_SIZE * k);
    }
  }

  lemma DirectTableTurned(s: seq<u8>, t: seq<u8>, d: nat, hi: nat)
    requires hi == d + 296 <= |s| == |t| && ConvertedIn(s, t, InsData(8, s, d), d, hi)
    ensures InsDataTurned(8, s, t, d)
  {
    var after := ValuePlan(s[d + 1], d + 8);
    ValuePlanSound(s[d + 1], d + 8);
    SoundWithin(after, d + 8, d + 16, d + 8, hi);
    NumberThen(s, t, d, d + 2, after, d + 8, hi);
    ValueTurned(s, t, s[d + 1], d + 8, hi);
  }

  /** A value in front of other fields. */
  lemma ValueThen(s: seq<u8>, t: seq<u8>, kind: u8, p: nat, after: Plan, hi: nat)
    requires p + 8 <= hi <= |s| == |t| && Sound(after, p + 8, hi)
    requires ConvertedIn(s, t, ValuePlan(kind, p) + after, p, hi)
    ensures OperandTurned(s, t, kind, p) && ConvertedIn(s, t, after, p + 8, hi)
  {
    ValuePlanSound(kind, p);
    StretchConverted(s, t, ValuePlan(kind, p), after, p, p + 8, hi);
    ValueTurned(s, t, kind, p, p + 8);
  }

  /** A match behind bytes that stay and in front of other fields. */
  lemma MatchThen(s: seq<u8>, t: seq<u8>, lo: nat, p: nat, after: Plan, hi: nat)
    requires lo <= p && p + 8 <= hi <= |s| == |t| && Sound(after, p + 8, hi)
    requires ConvertedIn(s, t, MatchPlan(p) + after, lo, hi)
    ensures SameIn(s, t, lo, p) && FieldTurned(s, t, p) && ConvertedIn(s, t, after, p + 8, hi)
  {
    assert Sound(MatchPlan(p), p, p + 8);
    StretchConverted(s, t, MatchPlan(p), after, lo, p + 8, hi);
    RestKept(s, t, MatchPlan(p), lo, p, p + 8, p + 8);
    MatchTurned(s, t, p, p + 8);
  }

  lemma JumpTurned(s: seq<u8>, t: seq<u8>, d: nat, hi: nat)
    requires hi == d + 296 <= |s| == |t| && ConvertedIn(s, t, InsData(9, s, d), d, hi)
    ensures InsDataTurned(9, s, t, d)
  {
    var v2, v3, v4, v5 := ValuePlan(s[d], d + 16), ValuePlan(s[d + 2], d + 24), ValuePlan(s[d + 4], d + 32),
                          ValuePlan(s[d + 6], d + 40);
    ValuePlanSound(s[d], d + 16);
    ValuePlanSound(s[d + 2], d + 24);
    ValuePlanSound(s[d + 4], d + 32);
    ValuePlanSound(s[d + 6], d + 40);
    SoundWithin(v5, d + 40, d + 48, d + 40, hi);
    SoundAppend(v4, v5, d + 32, d + 40, hi);
    SoundAppend(v3, v4 + v5, d + 24, d + 32, hi);
    SoundAppend(v2, v3 + (v4 + v5), d + 16, d + 24, hi);
    MatchThen(s, t, d, d + 8, v2 + (v3 + (v4 + v5)), hi);
    ValueThen(s, t, s[d], d + 16, v3 + (v4 + v5), hi);
    ValueThen(s, t, s[d + 2], d + 24, v4 + v5, hi);
    ValueThen(s, t, s[d + 4], d + 32, v5, hi);
    ValueTurned(s, t, s[d + 6], d + 40, hi);
  }

  lemma CalculateTurned(s: seq<u8>, t: seq<u8>, d: nat, hi: nat)
    requires hi == d + 296 <= |s| == |t| && ConvertedIn(s, t, InsData(10, s, d), d, hi)
    ensures InsDataTurned(10, s, t, d)
  {
    var value := ValuePlan(s[d + 2], d + 16);
    MatchAndValueSound(s[d + 2], d + 8, hi);
    NumberThen(s, t, d, d, MatchPlan(d + 8) + value, d + 8, hi);
    MatchThen(s, t, d + 8, d + 8, value, hi);
    ValueTurned(s, t, s[d + 2], d + 16, hi);
  }

  lemma MatchAndValueSound(kind: u8, p: nat, hi: nat)
    requires p + 16 <= hi
    ensures Sound(ValuePlan(kind, p + 8), p + 8, hi) && Sound(MatchPlan(p) + ValuePlan(kind, p + 8), p, hi)
  {
    ValuePlanSound(kind, p + 8);
    SoundWithin(ValuePlan(kind, p + 8), p + 8, p + 16, p + 8, hi);
    SoundAppend(MatchPlan(p), ValuePlan(kind, p + 8), p, p + 8, hi);
  }

  lemma MoveTurned(s: seq<u8>, t: seq<u8>, d: nat, hi: nat)
    requires hi == d + 296 <= |s| == |t| && ConvertedIn(s, t, InsData(11, s, d), d, hi)
    ensures InsDataTurned(11, s, t, d)
  {
    assert [] + ValuePlan(s[d + 1], d + 8) == ValuePlan(s[d + 1], d + 8);
    BeforeValue(s, t, [], s[d + 1], d, d + 8, hi);
    GapKept(s, t, [], d, d + 8, d, d + 8);
  }

  /** The data of every instruction type. */
  lemma InstructionDataTurned(kind: nat, s: seq<u8>, t: seq<u8>, d: nat)
    requires d + 296 <= |s| == |t| && CountFits(kind, s, d)
    requires ConvertedIn(s, t, InsData(kind, s, d), d, d + 296)
    ensures InsDataTurned(kind, s, t, d)
  {
    match kind
    case 1 => GotoTableTurned(s, t, d, d + 296);
    case 2 => TwoNumbersTurned(s, t, d, d + 296);
    case 4 => ApplyTurned(s, t, d, s[d], d + 8 + ACTION_SIZE * s[d]);
    case 6 => NumberTurned(s, t, d, 4, d + 296);
    case 7 => MatchTurned(s, t, d, d + 296);
    case 8 => DirectTableTurned(s, t, d, d + 296);
    case 9 => JumpTurned(s, t, d, d + 296);
    case 10 => CalculateTurned(s, t, d, d + 296);
    case 11 => MoveTurned(s, t, d, d + 296);
    case _ => GapKept(s, t, [], d, d + 296, d, d + 296);
  }

  /** What the conversion of an instruction does, on its bytes. */
  lemma InstructionOnBytes(s: seq<u8>, t: seq<u8>, b: nat, net: bool)
    requires b + INSTRUCTION_SIZE <= |s| == |t| && InsFits(s, b, net)
    requires ConvertedIn(s, t, InsPlan(s, b, net), b, b + INSTRUCTION_SIZE)
    ensures InstructionTurned(s, t, b, net)
  {
    var kind := if net then Big(s, b) else Little(s, b);
    TwoBytes(s, b);
    if Known(kind) {
      KnownOnBytes(s, t, b, net, kind);
    } else if net {
      assert InsPlan(s, b, net) == HeadPlan(b);
      RestKept(s, t, HeadPlan(b), b, b, b + 4, b + INSTRUCTION_SIZE);
      HeadTurned(s, t, b);
    } else {
      GapKept(s, t, [], b, b + INSTRUCTION_SIZE, b, b + INSTRUCTION_SIZE);
    }
  }

  lemma {:induction false} KnownOnBytes(s: seq<u8>, t: seq<u8>, b: nat, net: bool, kind: nat)
    requires b + INSTRUCTION_SIZE <= |s| == |t| && kind == (if net then Big(s, b) else Little(s, b)) && Known(kind)
    requires CountFits(kind, s, b + 8) && ConvertedIn(s, t, InsPlan(s, b, net), b, b + INSTRUCTION_SIZE)
    ensures Turned(s, t, b, 2) && Turned(s, t, b + 2, 2) && SameIn(s, t, b + 4, b + 8)
    ensures InsDataTurned(kind, s, t, b + 8)
  {
    var data, first := InsData(kind, s, b + 8), FirstSwap(kind, b + 8);
    KnownConverted(s, t, b, net, kind);
    InstructionDataTurned(kind, s, t, b + 8);
    InsDataSound(kind, s, b + 8);
    SoundWithin(data, first, b + INSTRUCTION_SIZE, b + 4, b + INSTRUCTION_SIZE);
    KnownPlanIs(s, b, net, kind, data);
    StretchConverted(s, t, HeadPlan(b), data, b, b + 4, b + INSTRUCTION_SIZE);
    HeadTurned(s, t, b);
  }

  lemma ConvertedInstruction(s: seq<u8>, t: seq<u8>, b: nat, net: bool)
    requires b + INSTRUCTION_SIZE <= |s| && InsFits(s, b, net)
    requires Fits(InsPlan(s, b, net), |s|) && t == Converted(s, InsPlan(s, b, net))
    ensures InstructionTurned(s, t, b, net) && SameIn(s, t, 0, b) && SameIn(s, t, b + INSTRUCTION_SIZE, |s|)
  {
    InsPlanSound(s, b, net);
    ConvertedStretch(s, t, InsPlan(s, b, net), b, b + INSTRUCTION_SIZE);
    InstructionOnBytes(s, t, b, net);
  }

  /** The converters of the instruction types. */
  method InstructionData(a: array<u8>, t: nat, d: nat)
    requires d + 296 <= a.Length && CountFits(t, a[..], d)
    modifies a
    ensures Fits(InsData(t, old(a[..]), d), a.Length)
    ensures a[..] == Converted(old(a[..]), InsData(t, old(a[..]), d))
  {
    InsDataSound(t, a[..], d);
    if t == 4 {
      Actions(a, d + 8, a[d]);
    } else {
      Apply(a, InsData(t, a[..], d));
    }
  }

  method SwapHead(a: array<u8>, p: nat)
    requires p + 4 <= a.Length
    modifies a
    ensures Fits(HeadPlan(p), a.Length) && a[..] == Converted(old(a[..]), HeadPlan(p))
    ensures Little(a[..], p) == Big(old(a[..]), p)
    ensures forall i :: 0 <= i < a.Length && !(p <= i < p + 4) ==> a[i] == old(a[i])
  {
    ghost var s := a[..];
    HeadConverted(s, p);
    SwapBytes(a, Range(p, 2));
    SwapBytes(a, Range(p + 2, 2));
    HeadSwapped(s, p, a[..]);
    assert forall i :: 0 <= i < a.Length ==> a[i] == a[..][i];
  }

  /** instruction_HtoN. */
  method InstructionHtoN(a: array<u8>, b: nat) returns (ok: bool)
    requires b + INSTRUCTION_SIZE <= a.Length && InsFits(a[..], b, false)
    modifies a
    ensures ok <==> Known(Little(old(a[..]), b))
    ensures Fits(InsPlan(old(a[..]), b, false), a.Length)
    ensures a[..] == Converted(old(a[..]), InsPlan(old(a[..]), b, false))
    ensures InstructionTurned(old(a[..]), a[..], b, false)
    ensures SameIn(old(a[..]), a[..], 0, b) && SameIn(old(a[..]), a[..], b + INSTRUCTION_SIZE, a.Length)
  {
    ghost var s := a[..];
    ok := SwapInstructionOut(a, b);
    ConvertedInstruction(s, a[..], b, false);
  }

  /** The body of instruction_HtoN. */
  method SwapInstructionOut(a: array<u8>, b: nat) returns (ok: bool)
    requires b + INSTRUCTION_SIZE <= a.Length && InsFits(a[..], b, false)
    modifies a
    ensures ok <==> Known(Little(old(a[..]), b))
    ensures Fits(InsPlan(old(a[..]), b, false), a.Length)
    ensures a[..] == Converted(old(a[..]), InsPlan(old(a[..]), b, false))
  {
    var t := Little(a[..], b);
    ok := Known(t);
    if ok {
      KnownPlan(a[..], b, t, false);
      InstructionData(a, t, b + 8);
      SwapHead(a, b);
    }
  }

  /** instruction_NtoH. */
  method InstructionNtoH(a: array<u8>, b: nat) returns (ok: bool)
    requires b + INSTRUCTION_SIZE <= a.Length && InsFits(a[..], b, true)
    modifies a
    ensures ok <==> Known(Big(old(a[..]), b))
    ensures Fits(InsPlan(old(a[..]), b, true), a.Length)
    ensures a[..] == Converted(old(a[..]), InsPlan(old(a[..]), b, true))
    ensures InstructionTurned(old(a[..]), a[..], b, true)
    ensures SameIn(old(a[..]), a[..], 0, b) && SameIn(old(a[..]), a[..], b + INSTRUCTION_SIZE, a.Length)
  {
    ghost var s := a[..];
    ok := SwapInstructionIn(a, b);
    ConvertedInstruction(s, a[..], b, true);
  }

  /** The body of instruction_NtoH. */
  method SwapInstructionIn(a: array<u8>, b: nat) returns (ok: bool)
    requires b + INSTRUCTION_SIZE <= a.Length && InsFits(a[..], b, true)
    modifies a
    ensures ok <==> Known(Big(old(a[..]), b))
    ensures Fits(InsPlan(old(a[..]), b, true), a.Length)
    ensures a[..] == Converted(old(a[..]), InsPlan(old(a[..]), b, true))
  {
    ghost var s := a[..];
    SwapHead(a, b);
    var t := Little(a[..], b);
    ok := Known(t);
    if ok {
      KnownPlan(s, b, t, true);
      InsDataLocal(t, s, a[..], b + 8);
      InstructionData(a, t, b + 8);
    } else {
      assert InsPlan(s, b, true) == HeadPlan(b);
    }
  }

  /** The plan of an instruction of known type. */
  lemma KnownPlan(s: seq<u8>, b: nat, t: nat, net: bool)
    requires b + INSTRUCTION_SIZE <= |s| && InsFits(s, b, net)
    requires t == (if net then Big(s, b) else Little(s, b)) && Known(t)
    ensures CountFits(t, s, b + 8) && Fits(HeadPlan(b), |s|) && Fits(InsData(t, s, b + 8), |s|)
    ensures Fits(InsPlan(s, b, net), |s|)
    ensures Converted(Converted(s, HeadPlan(b)), InsData(t, s, b + 8)) == Converted(s, InsPlan(s, b, net))
    ensures Converted(Converted(s, InsData(t, s, b + 8)), HeadPlan(b)) == Converted(s, InsPlan(s, b, net))
  {
    var data := InsData(t, s, b + 8);
    InsDataSound(t, s, b + 8);
    HeadAndData(s, b, data, FirstSwap(t, b + 8));
    assert InsPlan(s, b, net) == HeadPlan(b) + data;
  }

  /** The head and the data can be converted in either order. */
  lemma HeadAndData(s: seq<u8>, b: nat, data: Plan, first: int)
    requires b + INSTRUCTION_SIZE <= |s| && b + 8 <= first && Sound(data, first, b + INSTRUCTION_SIZE)
    ensures Fits(HeadPlan(b), |s|) && Fits(data, |s|) && Fits(HeadPlan(b) + data, |s|)
    ensures Converted(Converted(s, HeadPlan(b)), data) == Converted(s, HeadPlan(b) + data)
    ensures Converted(Converted(s, data), HeadPlan(b)) == Converted(s, HeadPlan(b) + data)
  {
    SoundWithin(data, first, b + INSTRUCTION_SIZE, b + 4, b + INSTRUCTION_SIZE);
    SoundAppend(HeadPlan(b), data, b, b + 4, b + INSTRUCTION_SIZE);
    ConvertedAppend(s, HeadPlan(b), data);
    Commute(s, data, HeadPlan(b));
  }

  lemma InsDataLocal(t: nat, s: seq<u8>, s': seq<u8>, d: nat)
    requires d + 296 <= |s| == |s'| && CountFits(t, s, d)
    requires forall i :: d <= i < d + 296 ==> s[i] == s'[i]
    ensures InsData(t, s', d) == InsData(t, s, d) && CountFits(t, s', d)
  {
    if t == 4 {
      var f, g := ActionBlock(s', d + 8), ActionBlock(s, d + 8);
      forall k: nat | k < s[d]
        ensures f(k) == g(k)
      {
        ActionPlanLocal(s, s', d + 8 + ACTION_SIZE * k);
      }
      BlocksEqual(f, g, s[d]);
    }
  }

  lemma InsPlanLocal(s: seq<u8>, s': seq<u8>, b: nat, net: bool)
    requires b + INSTRUCTION_SIZE <= |s| == |s'| && InsFits(s, b, net)
    requires forall i :: b <= i < b + INSTRUCTION_SIZE ==> s[i] == s'[i]
    ensures InsPlan(s', b, net) == InsPlan(s, b, net) && InsFits(s', b, net)
  {
    InsDataLocal(if net then Big(s, b) else Little(s, b), s, s', b + 8);
  }

  lemma KnownPlanIs(s: seq<u8>, b: nat, net: bool, kind: nat, data: Plan)
    requires b + INSTRUCTION_SIZE <= |s| && kind == (if net then Big(s, b) else Little(s, b)) && Known(kind)
    requires data == InsData(kind, s, b + 8)
    ensures InsPlan(s, b, net) == HeadPlan(b) + data
  {}

  /** What the head and the data of an instruction of known type become. */
  lemma KnownConverted(s: seq<u8>, t: seq<u8>, b: nat, net: bool, kind: nat)
    requires b + INSTRUCTION_SIZE <= |s| == |t| && kind == (if net then Big(s, b) else Little(s, b)) && Known(kind)
    requires CountFits(kind, s, b + 8) && ConvertedIn(s, t, InsPlan(s, b, net), b, b + INSTRUCTION_SIZE)
    ensures HeadCrossed(s, t, b) && SameIn(s, t, b + 4, b + 8)
    ensures ConvertedIn(s, t, InsData(kind, s, b + 8), b + 8, b + INSTRUCTION_SIZE)
  {
    var data := InsData(kind, s, b + 8);
    InsDataSound(kind, s, b + 8);
    KnownPlanIs(s, b, net, kind, data);
    HeadAndDataConverted(s, t, b, data, FirstSwap(kind, b + 8));
  }

  /** The two bytes of type, and those of len, are exchanged. */
  predicate HeadCrossed(s: seq<u8>, t: seq<u8>, p: nat)
    requires p + 4 <= |s| == |t|
  {
    t[p] == s[p + 1] && t[p + 1] == s[p] && t[p + 2] == s[p + 3] && t[p + 3] == s[p + 2]
  }

  /** What head and data become, apart. */
  lemma HeadAndDataConverted(s: seq<u8>, t: seq<u8>, b: nat, data: Plan, first: int)
    requires b + INSTRUCTION_SIZE <= |s| == |t| && b + 8 <= first && Sound(data, first, b + INSTRUCTION_SIZE)
    requires ConvertedIn(s, t, HeadPlan(b) + data, b, b + INSTRUCTION_SIZE)
    ensures HeadCrossed(s, t, b) && SameIn(s, t, b + 4, b + 8)
    ensures ConvertedIn(s, t, data, b + 8, b + INSTRUCTION_SIZE)
  {
    SoundWithin(data, first, b + INSTRUCTION_SIZE, b + 4, b + INSTRUCTION_SIZE);
    StretchConverted(s, t, HeadPlan(b), data, b, b + 4, b + INSTRUCTION_SIZE);
    forall i | b <= i < b + 4
      ensures Source(HeadPlan(b) + data, i) == Source(HeadPlan(b), i)
    {
      HeadThenData(b, data, b + INSTRUCTION_SIZE, i);
    }
    HeadExchanged(s, t, b, HeadPlan(b) + data);
    forall i | b + 4 <= i < b + 8
      ensures t[i] == s[i]
    {
      OutsideUntouched(data, first, b + INSTRUCTION_SIZE, i);
      assert t[i] == s[Source(data, i)];
    }
  }

  /** Converting twice by one plan restores its stretch. */
  lemma TwiceIn(s: seq<u8>, t: seq<u8>, u: seq<u8>, plan: Plan, lo: int, hi: int)
    requires |s| == |t| == |u| && Sound(plan, lo, hi) && 0 <= lo && hi <= |s|
    requires ConvertedIn(s, t, plan, lo, hi) && ConvertedIn(t, u, plan, lo, hi)
    ensures forall i :: lo <= i < hi ==> u[i] == s[i]
  {
    forall i | lo <= i < hi
      ensures u[i] == s[i]
    {
      SourceTwice(plan, lo, hi, i);
      assert u[i] == t[Source(plan, i)];
    }
  }

  /** type and len read the same in both byte orders. */
  predicate HeadBothWays(s: seq<u8>, b: nat)
    requires b + 4 <= |s|
  {
    s[b] == s[b + 1] && s[b + 2] == s[b + 3]
  }

  /** The type is known and the data survives, or type and len read the same both ways. */
  ghost predicate InsSurvives(s: seq<u8>, b: nat)
    requires b + INSTRUCTION_SIZE <= |s| && InsFits(s, b, false)
  {
    if Known(Little(s, b)) then DataSurvives(Little(s, b), s, b + 8) else HeadBothWays(s, b)
  }

  /** Converting an instruction to network order and back restores it if and only if it is of this kind. */
  lemma InstructionRoundTrip(s: seq<u8>, t: seq<u8>, u: seq<u8>, b: nat)
    requires b + INSTRUCTION_SIZE <= |s| == |t| == |u|
    requires InsFits(s, b, false) && InsFits(t, b, true)
    requires ConvertedIn(s, t, InsPlan(s, b, false), b, b + INSTRUCTION_SIZE)
    requires ConvertedIn(t, u, InsPlan(t, b, true), b, b + INSTRUCTION_SIZE)
    ensures SameIn(s, u, b, b + INSTRUCTION_SIZE) <==> InsSurvives(s, b)
  {
    if Known(Little(s, b)) {
      KnownRoundTrip(s, t, u, b, Little(s, b));
    } else {
      UnknownKept(s, t, b);
      UnknownInstruction(t, u, b);
    }
  }

  lemma KnownRoundTrip(s: seq<u8>, t: seq<u8>, u: seq<u8>, b: nat, kind: nat)
    requires b + INSTRUCTION_SIZE <= |s| == |t| == |u| && kind == Little(s, b) && Known(kind)
    requires CountFits(kind, s, b + 8) && InsFits(t, b, true)
    requires ConvertedIn(s, t, InsPlan(s, b, false), b, b + INSTRUCTION_SIZE)
    requires ConvertedIn(t, u, InsPlan(t, b, true), b, b + INSTRUCTION_SIZE)
    ensures SameIn(s, u, b, b + INSTRUCTION_SIZE) <==> DataSurvives(kind, s, b + 8)
  {
    KnownConverted(s, t, b, false, kind);
    assert Big(t, b) == kind;
    KnownConverted(t, u, b, true, kind);
    HeadTwice(s, t, u, b);
    DataRoundTrip(kind, s, t, u, b + 8);
    SameSplit(s, u, b, b + 8, b + INSTRUCTION_SIZE);
  }

  lemma HeadTwice(s: seq<u8>, t: seq<u8>, u: seq<u8>, b: nat)
    requires b + INSTRUCTION_SIZE <= |s| == |t| == |u| && HeadCrossed(s, t, b) && HeadCrossed(t, u, b)
    requires SameIn(s, t, b + 4, b + 8) && SameIn(t, u, b + 4, b + 8)
    ensures SameIn(s, u, b, b + 8)
  {}

  lemma SameSplit(s: seq<u8>, u: seq<u8>, lo: int, mid: int, hi: int)
    requires lo <= mid <= hi
    ensures SameIn(s, u, lo, hi) <==> SameIn(s, u, lo, mid) && SameIn(s, u, mid, hi)
  {}

  lemma UnknownKept(s: seq<u8>, t: seq<u8>, b: nat)
    requires b + INSTRUCTION_SIZE <= |s| == |t| && !Known(Little(s, b))
    requires ConvertedIn(s, t, InsPlan(s, b, false), b, b + INSTRUCTION_SIZE)
    ensures SameIn(s, t, b, b + INSTRUCTION_SIZE)
  {
    forall i | b <= i < b + INSTRUCTION_SIZE
      ensures t[i] == s[i]
    {
      assert Source(InsPlan(s, b, false), i) == i;
    }
  }

  /** A conversion of an instruction of unknown type restores it if and only if its head reads the same both ways. */
  lemma UnknownInstruction(t: seq<u8>, u: seq<u8>, b: nat)
    requires b + INSTRUCTION_SIZE <= |t| == |u| && InsFits(t, b, true) && !Known(Little(t, b))
    requires ConvertedIn(t, u, InsPlan(t, b, true), b, b + INSTRUCTION_SIZE)
    ensures SameIn(t, u, b, b + INSTRUCTION_SIZE) <==> HeadBothWays(t, b)
  {
    if Known(Big(t, b)) {
      KnownConverted(t, u, b, true, Big(t, b));
    } else {
      assert InsPlan(t, b, true) == HeadPlan(b) + [];
      HeadAndDataConverted(t, u, b, [], b + 8);
      NothingConverted(t, u, b + 8, b + INSTRUCTION_SIZE);
    }
    CrossedSame(t, u, b);
  }

  lemma NothingConverted(t: seq<u8>, u: seq<u8>, lo: int, hi: int)
    requires |t| == |u| && ConvertedIn(t, u, [], lo, hi)
    ensures SameIn(t, u, lo, hi)
  {
    forall i | 0 <= i < |t| && lo <= i < hi
      ensures u[i] == t[i]
    {
      assert u[i] == t[Source([], i)];
    }
  }

  lemma CrossedSame(t: seq<u8>, u: seq<u8>, b: nat)
    requires b + INSTRUCTION_SIZE <= |t| == |u| && HeadCrossed(t, u, b) && SameIn(t, u, b + 4, b + 8)
    ensures SameIn(t, u, b, b + 8) <==> HeadBothWays(t, b)
    ensures SameIn(t, u, b, b + INSTRUCTION_SIZE) <==>
            SameIn(t, u, b, b + 8) && SameIn(t, u, b + 8, b + INSTRUCTION_SIZE)
  {
    SameSplit(t, u, b, b + 8, b + INSTRUCTION_SIZE);
  }
}
