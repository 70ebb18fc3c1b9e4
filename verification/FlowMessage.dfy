/** Converting a whole flow entry message in place, to network order and back: common/pof_byte_transfer.c. */
module FlowMessage {
  import opened Swaps
  import opened WireFormat
  import opened ByteOrder

  /** counter_id, cookie, cookie_mask, idle_timeout, hard_timeout, priority, index, slotID. */
  function FixedPlan(): Plan {
    [Range(4, 4), Range(8, 8), Range(16, 8), Range(26, 2), Range(28, 2), Range(30, 2), Range(32, 4), Range(36, 2)]
  }

  function MatchXBlock(): nat -> Plan {
    (k: nat) => MatchPlan(MATCH_AT + MATCHX_SIZE * k)
  }

  function MatchXAt(): nat -> nat {
    (k: nat) => MATCH_AT + MATCHX_SIZE * k
  }

  /** Everything before the instructions; num is match_field_num. */
  function Prologue(num: nat): Plan {
    FixedPlan() + Blocks(MatchXBlock(), num)
  }

  function InsBlock(s: seq<u8>, net: bool): nat -> Plan {
    (k: nat) => if INSTRUCTION_AT + INSTRUCTION_SIZE * k + INSTRUCTION_SIZE <= |s|
                then InsPlan(s, INSTRUCTION_AT + INSTRUCTION_SIZE * k, net) else []
  }

  function InsAt(): nat -> nat {
    (k: nat) => INSTRUCTION_AT + INSTRUCTION_SIZE * k
  }

  function FlowPlan(s: seq<u8>, net: bool): Plan
    requires |s| == FLOW_ENTRY_SIZE
  {
    Prologue(s[1]) + Blocks(InsBlock(s, net), s[2])
  }

  /** The counts stay within the arrays: match_field_num, instruction_num, and each action_num. */
  predicate Counts(s: seq<u8>, net: bool) {
    && |s| == FLOW_ENTRY_SIZE && s[1] <= 8 && s[2] <= 6
    && forall k: nat :: k < s[2] ==> BlockFits(s, k, net)
  }

  predicate BlockFits(s: seq<u8>, k: nat, net: bool)
    requires |s| == FLOW_ENTRY_SIZE && k < 6
  {
    InsFits(s, INSTRUCTION_AT + INSTRUCTION_SIZE * k, net)
  }

  lemma PrologueSound(num: nat)
    requires num <= 8
    ensures Sound(Prologue(num), 4, INSTRUCTION_AT)
  {
    FixedSound();
    MatchesArray(num);
    BlocksSound(MatchXBlock(), MatchXAt(), num);
    SoundAppend(FixedPlan(), Blocks(MatchXBlock(), num), 4, MATCH_AT, MATCH_AT + MATCHX_SIZE * num);
    SoundWithin(Prologue(num), 4, MATCH_AT + MATCHX_SIZE * num, 4, INSTRUCTION_AT);
  }

  lemma InstructionsAreArray(s: seq<u8>, net: bool, n: nat)
    requires |s| == FLOW_ENTRY_SIZE && n <= 6
    requires forall k: nat :: k < n ==> BlockFits(s, k, net)
    ensures Array(InsBlock(s, net), InsAt(), n)
  {
    forall k: nat | k < n
      ensures Sound(InsBlock(s, net)(k), InsAt()(k), InsAt()(k + 1))
    {
      assert BlockFits(s, k, net);
      InsPlanSound(s, INSTRUCTION_AT + INSTRUCTION_SIZE * k, net);
    }
  }

  lemma InsBlockAt(s: seq<u8>, net: bool, k: nat, b: nat)
    requires b == INSTRUCTION_AT + INSTRUCTION_SIZE * k && b + INSTRUCTION_SIZE <= |s|
    ensures InsBlock(s, net)(k) == InsPlan(s, b, net)
  {}

  lemma InsAtIs(k: nat, b: nat)
    requires b == INSTRUCTION_AT + INSTRUCTION_SIZE * k
    ensures InsAt()(k) == b && InsAt()(k + 1) == b + INSTRUCTION_SIZE
  {}

  lemma FlowPlanSound(s: seq<u8>, net: bool)
    requires Counts(s, net)
    ensures Sound(FlowPlan(s, net), 4, FLOW_ENTRY_SIZE) && Fits(FlowPlan(s, net), |s|)
  {
    var n: nat := s[2];
    var ins := Blocks(InsBlock(s, net), n);
    PrologueSound(s[1]);
    InstructionsAreArray(s, net, n);
    BlocksSound(InsBlock(s, net), InsAt(), n);
    SoundWithin(ins, INSTRUCTION_AT, InsAt()(n), INSTRUCTION_AT, FLOW_ENTRY_SIZE);
    SoundAppend(Prologue(s[1]), ins, 4, INSTRUCTION_AT, FLOW_ENTRY_SIZE);
  }

  /** The part that both directions have in common: the fixed fields and the loop over the matches. */
  method ConvertPrologue(a: array<u8>)
    requires a.Length == FLOW_ENTRY_SIZE && a[1] <= 8
    modifies a
    ensures Fits(Prologue(old(a[1])), a.Length) && a[..] == Converted(old(a[..]), Prologue(old(a[1])))
  {
    ghost var s, num: nat := a[..], a[1];
    FixedSound();
    KeptOutside(s, FixedPlan(), 4, MATCH_AT);
    Apply(a, FixedPlan());
    ConvertMatches(a, a[1]);
    MatchesArray(num);
    BlocksSound(MatchXBlock(), MatchXAt(), num);
    ConvertedAppend(s, FixedPlan(), Blocks(MatchXBlock(), num));
  }

  lemma FixedSound()
    ensures Sound(FixedPlan(), 4, MATCH_AT)
  {}

  lemma MatchesArray(num: nat)
    ensures Array(MatchXBlock(), MatchXAt(), num)
  {}

  /** The loop over the matches. */
  method ConvertMatches(a: array<u8>, n: nat)
    requires a.Length == FLOW_ENTRY_SIZE && n <= 8
    modifies a
    ensures Fits(Blocks(MatchXBlock(), n), a.Length) && a[..] == Converted(old(a[..]), Blocks(MatchXBlock(), n))
  {
    ghost var t, f := a[..], MatchXBlock();
    for i := 0 to n
      invariant Fits(Blocks(f, i), a.Length) && a[..] == Converted(t, Blocks(f, i))
    {
      NextMatch(a, n, i, t, f);
    }
  }

  method NextMatch(a: array<u8>, n: nat, i: nat, ghost t: seq<u8>, ghost f: nat -> Plan)
    requires a.Length == |t| == FLOW_ENTRY_SIZE && i < n <= 8 && f == MatchXBlock()
    requires Fits(Blocks(f, i), |t|) && a[..] == Converted(t, Blocks(f, i))
    modifies a
    ensures Fits(Blocks(f, i + 1), |t|) && a[..] == Converted(t, Blocks(f, i + 1))
  {
    var p := MATCH_AT + MATCHX_SIZE * i;
    MatchesArray(n);
    MatchXIs(n, i, p);
    BlocksNext(t, f, MatchXAt(), n, i);
    Apply(a, MatchPlan(p));
  }

  lemma MatchXIs(n: nat, i: nat, p: nat)
    requires p == MATCH_AT + MATCHX_SIZE * i && n <= 8
    ensures MatchXBlock()(i) == MatchPlan(p) && MatchXAt()(n) <= INSTRUCTION_AT
  {}

  lemma FixedTurned(s: seq<u8>, t: seq<u8>)
    requires |s| == |t| == FLOW_ENTRY_SIZE && ConvertedIn(s, t, FixedPlan(), 0, MATCH_AT)
    ensures HeaderTurned(s, t)
  {
    var plan := FixedPlan();
    FixedSound();
    SoundWithin(plan, 4, MATCH_AT, 0, MATCH_AT);
    RangeTurned(s, t, plan, 0, MATCH_AT, 0);
    RangeTurned(s, t, plan, 0, MATCH_AT, 1);
    RangeTurned(s, t, plan, 0, MATCH_AT, 2);
    RangeTurned(s, t, plan, 0, MATCH_AT, 3);
    RangeTurned(s, t, plan, 0, MATCH_AT, 4);
    RangeTurned(s, t, plan, 0, MATCH_AT, 5);
    RangeTurned(s, t, plan, 0, MATCH_AT, 6);
    RangeTurned(s, t, plan, 0, MATCH_AT, 7);
    FixedGaps(s, t);
  }

  lemma FixedGaps(s: seq<u8>, t: seq<u8>)
    requires |s| == |t| == FLOW_ENTRY_SIZE && ConvertedIn(s, t, FixedPlan(), 0, MATCH_AT)
    ensures SameIn(s, t, 0, 4) && SameIn(s, t, 24, 26) && SameIn(s, t, 38, 40)
  {
    GapKept(s, t, FixedPlan(), 0, MATCH_AT, 0, 4);
    GapKept(s, t, FixedPlan(), 0, MATCH_AT, 24, 26);
    GapKept(s, t, FixedPlan(), 0, MATCH_AT, 38, 40);
  }

  /** Match k and what lies between the last match and the instructions. */
  lemma MatchesTurned(s: seq<u8>, t: seq<u8>, num: nat, end: nat)
    requires |s| == |t| == FLOW_ENTRY_SIZE && num <= 8 && end == MATCH_AT + MATCHX_SIZE * num
    requires ConvertedIn(s, t, Blocks(MatchXBlock(), num), MATCH_AT, INSTRUCTION_AT)
    ensures forall k: nat :: k < num ==> MatchKTurned(s, t, k)
    ensures SameIn(s, t, end, INSTRUCTION_AT)
  {
    var plan := Blocks(MatchXBlock(), num);
    MatchesArray(num);
    BlocksSound(MatchXBlock(), MatchXAt(), num);
    assert Sound(plan, MATCH_AT, end);
    RestKept(s, t, plan, MATCH_AT, MATCH_AT, end, INSTRUCTION_AT);
    forall k: nat | k < num
      ensures MatchKTurned(s, t, k)
    {
      MatchXTurned(s, t, num, k, MATCH_AT + MATCHX_SIZE * k, end);
    }
  }

  lemma MatchXTurned(s: seq<u8>, t: seq<u8>, num: nat, k: nat, q: nat, end: nat)
    requires |s| == |t| == FLOW_ENTRY_SIZE && k < num <= 8 && end == MATCH_AT + MATCHX_SIZE * num
    requires q == MATCH_AT + MATCHX_SIZE * k && ConvertedIn(s, t, Blocks(MatchXBlock(), num), MATCH_AT, end)
    ensures FieldTurned(s, t, q) && SameIn(s, t, q + 8, q + MATCHX_SIZE)
  {
    MatchesArray(num);
    MatchXIs(num, k, q);
    assert MatchXAt()(0) == MATCH_AT && MatchXAt()(num) == end;
    BlocksConverted(s, t, MatchXBlock(), MatchXAt(), num, k);
    assert MatchXAt()(k) == q && MatchXAt()(k + 1) == q + MATCHX_SIZE;
    MatchTurned(s, t, q, q + MATCHX_SIZE);
  }

  /** What the conversion of a message does, on its bytes. */
  lemma MessageOnBytes(s: seq<u8>, t: seq<u8>, net: bool)
    requires Counts(s, net) && Fits(FlowPlan(s, net), |s|) && t == Converted(s, FlowPlan(s, net))
    ensures MessageTurned(s, t, net)
  {
    var num: nat := s[1];
    var matches := Blocks(MatchXBlock(), num);
    Stretches(s, t, net);
    FixedSound();
    SoundWithin(FixedPlan(), 4, MATCH_AT, 0, MATCH_AT);
    MatchesArray(num);
    BlocksSound(MatchXBlock(), MatchXAt(), num);
    SoundWithin(matches, MATCH_AT, MatchXAt()(num), MATCH_AT, INSTRUCTION_AT);
    StretchConverted(s, t, FixedPlan(), matches, 0, MATCH_AT, INSTRUCTION_AT);
    FixedTurned(s, t);
    MatchesTurned(s, t, num, MATCH_AT + MATCHX_SIZE * num);
    forall k: nat | k < s[2]
      ensures InstructionKTurned(s, t, k, net)
    {
      InstructionKOnBytes(s, t, k, INSTRUCTION_AT + INSTRUCTION_SIZE * k, net);
    }
  }

  lemma InstructionKOnBytes(s: seq<u8>, t: seq<u8>, k: nat, b: nat, net: bool)
    requires Counts(s, net) && |t| == |s| && k < s[2] && b == INSTRUCTION_AT + INSTRUCTION_SIZE * k
    requires ConvertedIn(s, t, InsBlock(s, net)(k), InsAt()(k), InsAt()(k + 1))
    ensures InstructionTurned(s, t, b, net)
  {
    assert BlockFits(s, k, net);
    InsBlockAt(s, net, k, b);
    InsAtIs(k, b);
    InstructionOnBytes(s, t, b, net);
  }

  /** pof_HtoN_transfer_flow_entry. */
  method FlowEntryHtoN(a: array<u8>)
    requires Counts(a[..], false)
    modifies a
    ensures Fits(FlowPlan(old(a[..]), false), a.Length)
    ensures a[..] == Converted(old(a[..]), FlowPlan(old(a[..]), false))
    ensures MessageTurned(old(a[..]), a[..], false)
  {
    ghost var s := a[..];
    ConvertPrologue(a);
    ghost var t := a[..];
    AfterPrologue(s, t, false);
    InstructionsHtoN(a, t, InsBlock(t, false));
    MessageOnBytes(s, a[..], false);
  }

  /** The loop over the instructions. */
  method InstructionsHtoN(a: array<u8>, ghost t: seq<u8>, ghost f: nat -> Plan)
    requires Counts(t, false) && a[..] == t && f == InsBlock(t, false)
    modifies a
    ensures Fits(Blocks(f, t[2]), |t|) && a[..] == Converted(t, Blocks(f, t[2]))
  {
    var n: nat := a[2];
    for i := 0 to n
      invariant Fits(Blocks(f, i), a.Length) && a[..] == Converted(t, Blocks(f, i))
    {
      NextHtoN(a, t, f, n, i);
    }
  }

  method NextHtoN(a: array<u8>, ghost t: seq<u8>, ghost f: nat -> Plan, n: nat, i: nat)
    requires Counts(t, false) && f == InsBlock(t, false) && n == t[2] && i < n && a.Length == |t|
    requires Fits(Blocks(f, i), |t|) && a[..] == Converted(t, Blocks(f, i))
    modifies a
    ensures Fits(Blocks(f, i + 1), |t|) && a[..] == Converted(t, Blocks(f, i + 1))
  {
    var b := INSTRUCTION_AT + INSTRUCTION_SIZE * i;
    NextInstruction(t, a[..], false, n, i, b, f);
    var ok := InstructionHtoN(a, b);
  }

  /** pof_NtoH_transfer_flow_entry. */
  method FlowEntryNtoH(a: array<u8>)
    requires Counts(a[..], true)
    modifies a
    ensures Fits(FlowPlan(old(a[..]), true), a.Length)
    ensures a[..] == Converted(old(a[..]), FlowPlan(old(a[..]), true))
    ensures MessageTurned(old(a[..]), a[..], true)
  {
    ghost var s := a[..];
    ConvertPrologue(a);
    ghost var t := a[..];
    AfterPrologue(s, t, true);
    InstructionsNtoH(a, t, InsBlock(t, true));
    MessageOnBytes(s, a[..], true);
  }

  /** The loop over the instructions. */
  method InstructionsNtoH(a: array<u8>, ghost t: seq<u8>, ghost f: nat -> Plan)
    requires Counts(t, true) && a[..] == t && f == InsBlock(t, true)
    modifies a
    ensures Fits(Blocks(f, t[2]), |t|) && a[..] == Converted(t, Blocks(f, t[2]))
  {
    var n: nat := a[2];
    for i := 0 to n
      invariant Fits(Blocks(f, i), a.Length) && a[..] == Converted(t, Blocks(f, i))
    {
      NextNtoH(a, t, f, n, i);
    }
  }

  method NextNtoH(a: array<u8>, ghost t: seq<u8>, ghost f: nat -> Plan, n: nat, i: nat)
    requires Counts(t, true) && f == InsBlock(t, true) && n == t[2] && i < n && a.Length == |t|
    requires Fits(Blocks(f, i), |t|) && a[..] == Converted(t, Blocks(f, i))
    modifies a
    ensures Fits(Blocks(f, i + 1), |t|) && a[..] == Converted(t, Blocks(f, i + 1))
  {
    var b := INSTRUCTION_AT + INSTRUCTION_SIZE * i;
    NextInstruction(t, a[..], true, n, i, b, f);
    var ok := InstructionNtoH(a, b);
  }

  /** The common part leaves the counts and the instructions alone. */
  lemma AfterPrologue(s: seq<u8>, t: seq<u8>, net: bool)
    requires Counts(s, net)
    requires Fits(Prologue(s[1]), |s|) && t == Converted(s, Prologue(s[1]))
    ensures Counts(t, net) && t[2] == s[2]
    ensures Fits(FlowPlan(s, net), |s|) && Fits(Blocks(InsBlock(t, net), s[2]), |s|)
    ensures Converted(t, Blocks(InsBlock(t, net), s[2])) == Converted(s, FlowPlan(s, net))
  {
    var n: nat := s[2];
    var f, g := InsBlock(s, net), InsBlock(t, net);
    PrologueSound(s[1]);
    KeptOutside(s, Prologue(s[1]), 4, INSTRUCTION_AT);
    FlowPlanSound(s, net);
    forall k: nat | k < n
      ensures f(k) == g(k) && BlockFits(t, k, net)
    {
      assert BlockFits(s, k, net);
      var b := INSTRUCTION_AT + INSTRUCTION_SIZE * k;
      InsPlanLocal(s, t, b, net);
      InsBlockAt(s, net, k, b);
      InsBlockAt(t, net, k, b);
    }
    BlocksEqual(f, g, n);
    InstructionsAreArray(s, net, n);
    BlocksSound(f, InsAt(), n);
    ConvertedAppend(s, Prologue(s[1]), Blocks(f, n));
  }

  /** One iteration of the loop over the instructions. */
  lemma NextInstruction(t: seq<u8>, now: seq<u8>, net: bool, n: nat, i: nat, b: nat, f: nat -> Plan)
    requires Counts(t, net) && n == t[2] && i < n && b == INSTRUCTION_AT + INSTRUCTION_SIZE * i
    requires f == InsBlock(t, net) && Fits(Blocks(f, i), |t|) && now == Converted(t, Blocks(f, i))
    ensures InsFits(now, b, net) && InsPlan(now, b, net) == InsPlan(t, b, net) && Fits(InsPlan(t, b, net), |t|)
    ensures Fits(Blocks(f, i + 1), |t|)
    ensures Converted(now, InsPlan(t, b, net)) == Converted(t, Blocks(f, i + 1))
  {
    assert BlockFits(t, i, net);
    InstructionsAreArray(t, net, n);
    InsBlockAt(t, net, i, b);
    InsAtIs(i, b);
    BlocksNext(t, f, InsAt(), n, i);
    InsPlanLocal(t, now, b, net);
  }

  /** Instruction k survives the way out and back. */
  ghost predicate Survives(s: seq<u8>, k: nat)
    requires Counts(s, false) && k < s[2]
  {
    assert BlockFits(s, k, false);
    InsSurvives(s, INSTRUCTION_AT + INSTRUCTION_SIZE * k)
  }

  /** Network order and back restores a host-order message if and only if each of its instructions survives: its type
      is known and, if it holds actions, each of them survives, or its type and len read the same both ways. */
  lemma FlowEntryRoundTrip(s: seq<u8>, t: seq<u8>, u: seq<u8>)
    requires Counts(s, false) && Fits(FlowPlan(s, false), |s|) && t == Converted(s, FlowPlan(s, false))
    requires Counts(t, true) && Fits(FlowPlan(t, true), |t|) && u == Converted(t, FlowPlan(t, true))
    ensures u == s <==> forall k: nat :: k < s[2] ==> Survives(s, k)
  {
    var n: nat := s[2];
    CountsKept(s, t);
    Stretches(s, t, false);
    Stretches(t, u, true);
    PrologueSound(s[1]);
    SoundWithin(Prologue(s[1]), 4, INSTRUCTION_AT, 0, INSTRUCTION_AT);
    TwiceIn(s, t, u, Prologue(s[1]), 0, INSTRUCTION_AT);
    forall k: nat | k < n
      ensures SameBlock(s, u, k) <==> Survives(s, k)
    {
      BlockRoundTrip(s, t, u, k, INSTRUCTION_AT + INSTRUCTION_SIZE * k);
    }
    SameParts(s, u, n);
  }

  /** Two messages agree on instruction k. */
  predicate SameBlock(s: seq<u8>, u: seq<u8>, k: nat)
  {
    SameIn(s, u, INSTRUCTION_AT + INSTRUCTION_SIZE * k, INSTRUCTION_AT + INSTRUCTION_SIZE * k + INSTRUCTION_SIZE)
  }

  lemma BlockRoundTrip(s: seq<u8>, t: seq<u8>, u: seq<u8>, k: nat, b: nat)
    requires Counts(s, false) && Counts(t, true) && |u| == |s|
    requires k < s[2] && k < t[2] && b == INSTRUCTION_AT + INSTRUCTION_SIZE * k
    requires ConvertedIn(s, t, InsBlock(s, false)(k), InsAt()(k), InsAt()(k + 1))
    requires ConvertedIn(t, u, InsBlock(t, true)(k), InsAt()(k), InsAt()(k + 1))
    ensures SameBlock(s, u, k) <==> Survives(s, k)
  {
    assert BlockFits(s, k, false) && BlockFits(t, k, true);
    InsBlockAt(s, false, k, b);
    InsBlockAt(t, true, k, b);
    InsAtIs(k, b);
    InstructionRoundTrip(s, t, u, b);
  }

  /** A message is its part before the instructions, its instructions and the rest. */
  lemma SameParts(s: seq<u8>, u: seq<u8>, n: nat)
    requires |s| == |u| == FLOW_ENTRY_SIZE && n <= 6
    requires forall i :: 0 <= i < INSTRUCTION_AT ==> u[i] == s[i]
    requires forall i :: INSTRUCTION_AT + INSTRUCTION_SIZE * n <= i < |s| ==> u[i] == s[i]
    ensures u == s <==> forall k: nat :: k < n ==> SameBlock(s, u, k)
  {
    if forall k: nat :: k < n ==> SameBlock(s, u, k) {
      forall i | 0 <= i < |s|
        ensures u[i] == s[i]
      {
        if INSTRUCTION_AT <= i < INSTRUCTION_AT + INSTRUCTION_SIZE * n {
          var k := (i - INSTRUCTION_AT) / INSTRUCTION_SIZE;
          assert SameBlock(s, u, k);
        }
      }
    }
  }

  lemma CountsKept(s: seq<u8>, t: seq<u8>)
    requires Counts(s, false) && Fits(FlowPlan(s, false), |s|) && t == Converted(s, FlowPlan(s, false))
    ensures t[1] == s[1] && t[2] == s[2]
  {
    FlowPlanSound(s, false);
    KeptOutside(s, FlowPlan(s, false), 4, FLOW_ENTRY_SIZE);
  }

  /** What a conversion does to each part of the message. */
  lemma Stretches(s: seq<u8>, t: seq<u8>, net: bool)
    requires Counts(s, net) && Fits(FlowPlan(s, net), |s|) && t == Converted(s, FlowPlan(s, net))
    ensures ConvertedIn(s, t, Prologue(s[1]), 0, INSTRUCTION_AT)
    ensures forall k: nat {:trigger InsBlock(s, net)(k)} :: k < s[2] ==>
      ConvertedIn(s, t, InsBlock(s, net)(k), InsAt()(k), InsAt()(k + 1))
    ensures forall i :: INSTRUCTION_AT + INSTRUCTION_SIZE * s[2] <= i < |s| ==> t[i] == s[i]
  {
    var n: nat := s[2];
    var pro, ins := Prologue(s[1]), Blocks(InsBlock(s, net), n);
    PrologueSound(s[1]);
    SoundWithin(pro, 4, INSTRUCTION_AT, 0, INSTRUCTION_AT);
    InstructionsAreArray(s, net, n);
    BlocksSound(InsBlock(s, net), InsAt(), n);
    SoundAppend(pro, ins, 0, INSTRUCTION_AT, InsAt()(n));
    KeptOutside(s, FlowPlan(s, net), 0, InsAt()(n));
    FlowPlanSound(s, net);
    assert ConvertedIn(s, t, FlowPlan(s, net), 0, InsAt()(n)) by {
      forall i | 0 <= i < |s|
        ensures 0 <= Source(FlowPlan(s, net), i) < |s| && t[i] == s[Source(FlowPlan(s, net), i)]
      {
        ConvertedAt(s, FlowPlan(s, net), i);
      }
    }
    StretchConverted(s, t, pro, ins, 0, INSTRUCTION_AT, InsAt()(n));
    forall k: nat | k < n
      ensures ConvertedIn(s, t, InsBlock(s, net)(k), InsAt()(k), InsAt()(k + 1))
    {
      BlocksConverted(s, t, InsBlock(s, net), InsAt(), n, k);
    }
  }

  /** The way back finds an instruction with counts in range: its type is known, or the type that its swapped bytes
      read as is not that of actions, or there is room for so many. */
  predicate Returns(s: seq<u8>, k: nat)
    requires |s| == FLOW_ENTRY_SIZE && k < 6
  {
    var b := INSTRUCTION_AT + INSTRUCTION_SIZE * k;
    Known(Little(s, b)) || CountFits(Big(s, b), s, b + 8)
  }

  /** The counts stay within the arrays on the way back if and only if each instruction returns. */
  lemma CountsReturn(s: seq<u8>, t: seq<u8>)
    requires Counts(s, false) && Fits(FlowPlan(s, false), |s|) && t == Converted(s, FlowPlan(s, false))
    ensures Counts(t, true) <==> forall k: nat :: k < s[2] ==> Returns(s, k)
  {
    CountsKept(s, t);
    Stretches(s, t, false);
    forall k: nat | k < s[2]
      ensures BlockFits(t, k, true) <==> Returns(s, k)
    {
      assert BlockFits(s, k, false);
      var b := INSTRUCTION_AT + INSTRUCTION_SIZE * k;
      InsBlockAt(s, false, k, b);
      InsAtIs(k, b);
      InsReturns(s, t, b);
    }
  }

  lemma InsReturns(s: seq<u8>, t: seq<u8>, b: nat)
    requires b + INSTRUCTION_SIZE <= |s| == |t| && InsFits(s, b, false)
    requires ConvertedIn(s, t, InsPlan(s, b, false), b, b + INSTRUCTION_SIZE)
    ensures InsFits(t, b, true) <==> Known(Little(s, b)) || CountFits(Big(s, b), s, b + 8)
  {
    if Known(Little(s, b)) {
      KnownConverted(s, t, b, false, Little(s, b));
      ControlsKept(Little(s, b), s, t, b + 8);
    } else {
      UnknownKept(s, t, b);
    }
  }

  /** A host-order message whose instructions all have known types comes back with its counts in range, and is restored
      if and only if each of its actions survives. */
  lemma KnownTypesRestored(s: seq<u8>, t: seq<u8>)
    requires Counts(s, false) && Fits(FlowPlan(s, false), |s|) && t == Converted(s, FlowPlan(s, false))
    requires forall k: nat :: k < s[2] ==> Known(Little(s, INSTRUCTION_AT + INSTRUCTION_SIZE * k))
    ensures Counts(t, true) && Fits(FlowPlan(t, true), |t|)
    ensures Converted(t, FlowPlan(t, true)) == s <==> forall k: nat :: k < s[2] ==> ActionsOfSurvive(s, k)
  {
    forall k: nat | k < s[2]
      ensures Returns(s, k)
    {}
    CountsReturn(s, t);
    FlowPlanSound(t, true);
    FlowEntryRoundTrip(s, t, Converted(t, FlowPlan(t, true)));
    forall k: nat | k < s[2]
      ensures Survives(s, k) <==> ActionsOfSurvive(s, k)
    {}
  }

  /** The actions of instruction k, if it holds actions, survive. */
  ghost predicate ActionsOfSurvive(s: seq<u8>, k: nat)
    requires |s| == FLOW_ENTRY_SIZE && k < 6
  {
    var b := INSTRUCTION_AT + INSTRUCTION_SIZE * k;
    Little(s, b) == 4 ==> ActionsSurvive(s, b + 16, s[b + 8])
  }
}
