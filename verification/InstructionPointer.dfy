/** The instruction pointer of a packet and the jumps: datapath/pof_instruction.c. Instructions have a fixed size in
    the configured build; the other build walks them by their own lengths. */
module InstructionPointer {
  import ByteOrder
  import opened Datapath

  datatype Direction = Forward | Backward

  /** The fields ins (a byte offset into the block), ins_done_num, ins_todo_num and packet_done. */
  datatype Cursor = Cursor(at: int, done: nat, todo: nat, packetDone: bool)

  /** Where the pointer gets by n instructions, lenAt being the block's memory: the length found at an offset. */
  function Walk(lenAt: int -> nat, at: int, n: nat): int
    decreases n
  {
    if n == 0 then at else Walk(lenAt, at, n - 1) + lenAt(Walk(lenAt, at, n - 1))
  }

  lemma {:induction false} WalkOn(lenAt: int -> nat, at: int, m: nat, n: nat)
    ensures Walk(lenAt, Walk(lenAt, at, m), n) == Walk(lenAt, at, m + n)
    decreases n
  {
    if n > 0 { WalkOn(lenAt, at, m, n - 1); }
  }

  /** With fixed-size instructions a walk is pointer arithmetic. */
  lemma {:induction false} WalkFixed(lenAt: int -> nat, at: int, n: nat)
    requires forall a: int :: lenAt(a) == ByteOrder.INSTRUCTION_SIZE
    ensures Walk(lenAt, at, n) == at + n * ByteOrder.INSTRUCTION_SIZE
    decreases n
  {
    if n > 0 { WalkFixed(lenAt, at, n - 1); }
  }

  /** insJumpForward; the two numbers are eight bits wide. */
  function JumpedForward(c: Cursor, n: nat, lenAt: int -> nat): Cursor {
    c.(at := Walk(lenAt, c.at, n), done := Wrap8(c.done + n), todo := Wrap8(c.todo - n))
  }

  /** insJump with walking: a jump back starts over from the head of the block. */
  function Jumped(c: Cursor, d: Direction, n: nat, lenAt: int -> nat, insNum: nat): Cursor {
    if d.Forward? then
      if n > c.todo then c else JumpedForward(c, n, lenAt)
    else
      if n > c.done then c
      else JumpedForward(Cursor(0, 0, Wrap8(insNum), c.packetDone), c.done - n, lenAt)
  }

  /** insJump with fixed-size instructions: a jump back subtracts. */
  function JumpedFixed(c: Cursor, d: Direction, n: nat, lenAt: int -> nat): Cursor {
    if d.Forward? then
      if n > c.todo then c else JumpedForward(c, n, lenAt)
    else
      if n > c.done then c
      else c.(at := c.at - n * ByteOrder.INSTRUCTION_SIZE, done := Wrap8(c.done - n), todo := Wrap8(c.todo + n))
  }

  /** instruction_update. */
  function Updated(c: Cursor, lenAt: int -> nat): Cursor {
    if c.todo == 1 then c.(packetDone := true) else JumpedForward(c, 1, lenAt)
  }

  class Pointer {
    const lenAt: int -> nat
    const insNum: nat
    var cursor: Cursor

    constructor (lenAt: int -> nat, insNum: nat)
      ensures this.lenAt == lenAt && this.insNum == insNum && cursor == Cursor(0, 0, Wrap8(insNum), false)
    {
      this.lenAt, this.insNum := lenAt, insNum;
      cursor := Cursor(0, 0, Wrap8(insNum), false);
    }

    /** insJumpForward. */
    method InsJumpForward(n: nat)
      modifies this
      ensures cursor == JumpedForward(old(cursor), n, lenAt)
    {
      ghost var start := cursor.at;
      for i := 0 to n
        invariant cursor == old(cursor).(at := Walk(lenAt, start, i))
      {
        cursor := cursor.(at := cursor.at + lenAt(cursor.at));
      }
      cursor := cursor.(todo := Wrap8(cursor.todo - n), done := Wrap8(cursor.done + n));
    }

    /** insJump in the build with instruction blocks. */
    method InsJump(d: Direction, n: nat) returns (ok: bool)
      modifies this
      ensures ok <==> n <= if d.Forward? then old(cursor).todo else old(cursor).done
      ensures cursor == Jumped(old(cursor), d, n, lenAt, insNum)
      ensures !ok ==> cursor == old(cursor)
      ensures ok && d.Forward? ==> cursor == old(cursor).(at := Walk(lenAt, old(cursor).at, n),
        done := Wrap8(old(cursor).done + n), todo := Wrap8(old(cursor).todo - n))
      ensures ok && d.Backward? ==> cursor == old(cursor).(at := Walk(lenAt, 0, old(cursor).done - n),
        done := Wrap8(old(cursor).done - n), todo := Wrap8(Wrap8(insNum) - (old(cursor).done - n)))
    {
      if d.Forward? {
        if n > cursor.todo {
          return false;
        }
        InsJumpForward(n);
      } else {
        if n > cursor.done {
          return false;
        }
        var back := cursor.done - n;
        cursor := cursor.(done := 0, todo := Wrap8(insNum), at := 0);
        InsJumpForward(back);
      }
      ok := true;
    }

    /** insJump in the configured build. */
    method InsJumpFixed(d: Direction, n: nat) returns (ok: bool)
      requires forall a: int :: lenAt(a) == ByteOrder.INSTRUCTION_SIZE
      modifies this
      ensures ok <==> n <= if d.Forward? then old(cursor).todo else old(cursor).done
      ensures cursor == JumpedFixed(old(cursor), d, n, lenAt)
      ensures !ok ==> cursor == old(cursor)
      ensures ok && d.Forward? ==> cursor == old(cursor).(at := Walk(lenAt, old(cursor).at, n),
        done := Wrap8(old(cursor).done + n), todo := Wrap8(old(cursor).todo - n))
      ensures ok && d.Backward? ==> cursor == old(cursor).(at := old(cursor).at - n * ByteOrder.INSTRUCTION_SIZE,
        done := Wrap8(old(cursor).done - n), todo := Wrap8(old(cursor).todo + n))
    {
      if d.Forward? {
        if n > cursor.todo {
          return false;
        }
        InsJumpForward(n);
      } else {
        if n > cursor.done {
          return false;
        }
        cursor := cursor.(at := cursor.at - n * ByteOrder.INSTRUCTION_SIZE, done := Wrap8(cursor.done - n),
                          todo := Wrap8(cursor.todo + n));
      }
      ok := true;
    }

    /** instruction_update. */
    method InstructionUpdate()
      modifies this
      ensures cursor == Updated(old(cursor), lenAt)
      ensures old(cursor).todo == 1 ==> cursor == old(cursor).(packetDone := true)
      ensures old(cursor).todo != 1 ==> cursor == old(cursor).(at := old(cursor).at + lenAt(old(cursor).at),
        done := Wrap8(old(cursor).done + 1), todo := Wrap8(old(cursor).todo - 1))
    {
      if cursor.todo == 1 {
        cursor := cursor.(packetDone := true);
        return;
      }
      InsJumpForward(1);
    }
  }

  /** The numbers add up to the block, and the pointer is the block's start plus the lengths of the instructions
      done. */
  ghost predicate Sound(c: Cursor, lenAt: int -> nat, insNum: nat) {
    c.done + c.todo == insNum < 0x100 && c.at == Walk(lenAt, 0, c.done)
  }

  datatype Op = Update | Jump(direction: Direction, n: nat)

  function Step(c: Cursor, op: Op, lenAt: int -> nat, insNum: nat): Cursor {
    match op
    case Update => Updated(c, lenAt)
    case Jump(d, n) => Jumped(c, d, n, lenAt, insNum)
  }

  /** A jump leaves the pointer behind the last instruction exactly when it skips all instructions left. It is
      accepted all the same. */
  predicate Overruns(c: Cursor, op: Op) {
    op.Jump? && op.direction.Forward? && op.n == c.todo
  }

  /** From a sound pointer on an instruction every step gives a sound pointer, and one that is again on an
      instruction if and only if the step was not a forward jump over all instructions left. */
  lemma StepKeeps(c: Cursor, op: Op, lenAt: int -> nat, insNum: nat)
    requires Sound(c, lenAt, insNum) && c.todo > 0
    ensures Sound(Step(c, op, lenAt, insNum), lenAt, insNum)
    ensures Step(c, op, lenAt, insNum).todo > 0 <==> !Overruns(c, op)
    ensures Step(c, op, lenAt, insNum).done == match op
      case Update => if c.todo == 1 then c.done else c.done + 1
      case Jump(Forward, n) => if n <= c.todo then c.done + n else c.done
      case Jump(Backward, n) => if n <= c.done then c.done - n else c.done
  {
    match op
    case Update => ForwardKeeps(c, 1, lenAt, insNum);
    case Jump(d, n) =>
      if d.Forward? {
        if n <= c.todo { ForwardKeeps(c, n, lenAt, insNum); }
      } else if n <= c.done {
        ForwardKeeps(Cursor(0, 0, Wrap8(insNum), c.packetDone), c.done - n, lenAt, insNum);
      }
  }

  lemma ForwardKeeps(c: Cursor, n: nat, lenAt: int -> nat, insNum: nat)
    requires Sound(c, lenAt, insNum) && n <= c.todo
    ensures Sound(JumpedForward(c, n, lenAt), lenAt, insNum)
    ensures JumpedForward(c, n, lenAt).done == c.done + n && JumpedForward(c, n, lenAt).todo == c.todo - n
  {
    WalkOn(lenAt, 0, c.done, n);
  }

  function Run(c: Cursor, ops: seq<Op>, lenAt: int -> nat, insNum: nat): Cursor
    decreases |ops|
  {
    if ops == [] then c else Run(Step(c, ops[0], lenAt, insNum), ops[1..], lenAt, insNum)
  }

  predicate NoOverrun(c: Cursor, ops: seq<Op>, lenAt: int -> nat, insNum: nat)
    decreases |ops|
  {
    ops == [] || (!Overruns(c, ops[0]) && NoOverrun(Step(c, ops[0], lenAt, insNum), ops[1..], lenAt, insNum))
  }

  /** Every run of updates and jumps from the start of a non-empty block keeps the pointer sound and on an
      instruction, if no forward jump skips all instructions left. */
  lemma {:induction false} RunKeeps(c: Cursor, ops: seq<Op>, lenAt: int -> nat, insNum: nat)
    requires Sound(c, lenAt, insNum) && c.todo > 0 && NoOverrun(c, ops, lenAt, insNum)
    ensures Sound(Run(c, ops, lenAt, insNum), lenAt, insNum) && Run(c, ops, lenAt, insNum).todo > 0
    decreases |ops|
  {
    if ops != [] {
      StepKeeps(c, ops[0], lenAt, insNum);
      RunKeeps(Step(c, ops[0], lenAt, insNum), ops[1..], lenAt, insNum);
    }
  }

  /** A packet is done after a run if and only if it was before or some update came with one instruction left. */
  lemma {:induction false} RunEnds(c: Cursor, ops: seq<Op>, lenAt: int -> nat, insNum: nat)
    ensures Run(c, ops, lenAt, insNum).packetDone <==>
            c.packetDone || exists k: nat :: k < |ops| && LastUpdate(c, ops, k, lenAt, insNum)
    decreases |ops|
  {
    if ops != [] {
      var next := Step(c, ops[0], lenAt, insNum);
      RunEnds(next, ops[1..], lenAt, insNum);
      assert next.packetDone <==> c.packetDone || LastUpdate(c, ops, 0, lenAt, insNum) by {
        assert ops[..0] == [];
      }
      forall k: nat | k < |ops| - 1
        ensures LastUpdate(next, ops[1..], k, lenAt, insNum) <==> LastUpdate(c, ops, k + 1, lenAt, insNum)
      {
        assert ops[..k + 1][0] == ops[0] && ops[..k + 1][1..] == ops[1..][..k];
      }
      if k: nat :| k < |ops| && LastUpdate(c, ops, k, lenAt, insNum) && k > 0 {
        assert LastUpdate(next, ops[1..], k - 1, lenAt, insNum);
      }
    }
  }

  /** Operation k of the run is an update with one instruction left. */
  predicate LastUpdate(c: Cursor, ops: seq<Op>, k: nat, lenAt: int -> nat, insNum: nat)
    requires k < |ops|
  {
    ops[k].Update? && Run(c, ops[..k], lenAt, insNum).todo == 1
  }

  function Updates(n: nat): seq<Op> {
    if n == 0 then [] else [Update] + Updates(n - 1)
  }

  /** Updates alone end the packet with the block's last instruction, and not before. */
  lemma {:induction false} StraightRun(c: Cursor, n: nat, lenAt: int -> nat, insNum: nat)
    requires Sound(c, lenAt, insNum) && c.todo > 0 && !c.packetDone
    ensures Run(c, Updates(n), lenAt, insNum).packetDone <==> n >= c.todo
    ensures n < c.todo ==> Run(c, Updates(n), lenAt, insNum).done == c.done + n
    decreases n
  {
    if n > 0 {
      StepKeeps(c, Update, lenAt, insNum);
      var next := Step(c, Update, lenAt, insNum);
      assert Updates(n)[0] == Update && Updates(n)[1..] == Updates(n - 1);
      if c.todo == 1 {
        RunEnds(next, Updates(n - 1), lenAt, insNum);
      } else {
        StraightRun(next, n - 1, lenAt, insNum);
      }
    }
  }

  /** After an overrun the next update does not end the packet but wraps the number of instructions left. */
  lemma OverrunThenUpdate(c: Cursor, lenAt: int -> nat, insNum: nat)
    requires Sound(c, lenAt, insNum) && c.todo > 0
    ensures var over := Step(c, Jump(Forward, c.todo), lenAt, insNum);
            && over.done == insNum && over.todo == 0
            && Updated(over, lenAt).todo == 0xFF && Updated(over, lenAt).packetDone == c.packetDone
            && Updated(over, lenAt).at == Walk(lenAt, 0, insNum + 1)
  {
    ForwardKeeps(c, c.todo, lenAt, insNum);
    WalkOn(lenAt, 0, insNum, 1);
  }

  /** Starting over and walking lands where subtracting does, and both builds' jumps agree. */
  lemma BackwardJumpsAgree(c: Cursor, d: Direction, n: nat, lenAt: int -> nat, insNum: nat)
    requires Sound(c, lenAt, insNum) && forall a: int :: lenAt(a) == ByteOrder.INSTRUCTION_SIZE
    ensures Jumped(c, d, n, lenAt, insNum) == JumpedFixed(c, d, n, lenAt)
  {
    if d.Backward? && n <= c.done {
      WalkFixed(lenAt, 0, c.done - n);
      WalkFixed(lenAt, 0, c.done);
    }
  }
}
