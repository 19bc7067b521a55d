/** The same block of commands at two positions of two programs: its runs go in lockstep. */
module Relocation {
  import opened Bits
  import opened Machine

  /** The operand does not name cell 32. */
  predicate OperandAvoids(vm: Vm, ty: nat, r: Word) {
    || ty == LITERAL || ty == DATA
    || (ty == RAM && r != PC)
    || (ty == PTR && r != PC && !(InRam(vm, r) && vm.ram[r] == PC))
  }

  /** Reading it gives the same in both programs: a data operand finds the same word. */
  predicate ReadAvoids(p1: seq<Command>, p2: seq<Command>, vm: Vm, ty: nat, r: Word) {
    && OperandAvoids(vm, ty, r)
    && (ty == DATA ==> GetWord(p1, vm, DATA, r) == GetWord(p2, vm, DATA, r))
  }

  predicate StringAvoids(p1: seq<Command>, p2: seq<Command>, vm: Vm, ty: nat, r: Word)
    decreases MAXWORD - r
  {
    && ReadAvoids(p1, p2, vm, ty, r)
    && var w := GetWord(p1, vm, ty, r);
       (w.Some? && w.value != 0 && r != MAXWORD ==> StringAvoids(p1, p2, vm, ty, r + 1))
  }

  predicate CopyAvoids(p1: seq<Command>, p2: seq<Command>, vm: Vm, ty: nat, dst: Word, src: Word)
    decreases MAXWORD - src
  {
    && ReadAvoids(p1, p2, vm, ty, src) && OperandAvoids(vm, ty, dst)
    && var w := GetWord(p1, vm, ty, src);
       (w.Some? && src != MAXWORD && dst != MAXWORD && w.value != 0 ==>
          var vm' := SetWord(vm, ty, dst, w.value);
          vm'.Some? ==> CopyAvoids(p1, p2, vm'.value, ty, dst + 1, src + 1))
  }

  /** What an assigning command reads and where it stores. */
  predicate AssignAvoids(p1: seq<Command>, p2: seq<Command>, vm: Vm, c: Command)
    requires IsAssign(c.cmd)
  {
    var t0, t1 := Arg0Type(c.flags), Arg1Type(c.flags);
    && OperandAvoids(vm, t0, c.arg0)
    && (c.cmd != MOVE ==> ReadAvoids(p1, p2, vm, t0, c.arg0))
    && (!IsUnary(c.cmd) ==> ReadAvoids(p1, p2, vm, t1, c.arg1))
  }

  predicate IsBranch(op: Byte) {
    op == IFT || op == IFF
  }

  /** The command leaves cell 32 to the loop and to literal jumps, and reads the same in both
      programs. */
  predicate Avoids(p1: seq<Command>, p2: seq<Command>, vm: Vm, c: Command)
    requires |vm.ram| > FRM
  {
    var t0, t1 := Arg0Type(c.flags), Arg1Type(c.flags);
    if IsAssign(c.cmd) then AssignAvoids(p1, p2, vm, c)
    else if c.cmd == JMP then t0 == LITERAL
    else if IsBranch(c.cmd) then ReadAvoids(p1, p2, vm, t0, c.arg0) && t1 == LITERAL
    else if c.cmd == PUSH then ReadAvoids(p1, p2, vm, t0, c.arg0) && vm.ram[STK] != PC
    else if c.cmd == POP then
      vm.ram[STK] as int + 1 != PC && (Pop(vm).Some? ==> OperandAvoids(Pop(vm).value.0, t0, c.arg0))
    else if c.cmd == CALL || c.cmd == RET then false
    else if c.cmd == LOGS then StringAvoids(p1, p2, vm, t0, c.arg0)
    else if c.cmd == LOGLN then true
    else if IsLog(c.cmd) then ReadAvoids(p1, p2, vm, t0, c.arg0)
    else if c.cmd == STRCPY then CopyAvoids(p1, p2, vm, t0, c.arg0, c.arg1)
    else true
  }

  /** Equal up to the program counter, which is d further on. */
  predicate Apart(v1: Vm, v2: Vm, d: int) {
    && |v1.ram| == |v2.ram| > FRM && v1.status == v2.status && v1.out == v2.out
    && v2.ram[PC] as int == v1.ram[PC] as int + d
    && forall a :: 0 <= a < |v1.ram| && a != PC ==> v1.ram[a] == v2.ram[a]
  }

  /** The command, and what the assembler makes of it d positions further on: only the target
      of a literal jump or branch differs. */
  predicate Moved(c1: Command, c2: Command, d: int) {
    && c1.cmd == c2.cmd && c1.flags == c2.flags
    && (if c1.cmd == JMP && Arg0Type(c1.flags) == LITERAL then
          c1.arg0 > MINWORD && c2.arg0 > MINWORD && c2.arg0 as int == c1.arg0 as int + d
        else c2.arg0 == c1.arg0)
    && (if IsBranch(c1.cmd) && Arg1Type(c1.flags) == LITERAL then
          c1.arg1 > MINWORD && c2.arg1 > MINWORD && c2.arg1 as int == c1.arg1 as int + d
        else c2.arg1 == c1.arg1)
  }

  predicate SameOption(a: Option<Vm>, b: Option<Vm>, d: int) {
    if a.None? then b.None? else b.Some? && Apart(a.value, b.value, d)
  }

  lemma SameRead(p1: seq<Command>, p2: seq<Command>, v1: Vm, v2: Vm, ty: nat, r: Word, d: int)
    requires Apart(v1, v2, d) && ReadAvoids(p1, p2, v1, ty, r)
    ensures GetWord(p1, v1, ty, r) == GetWord(p2, v2, ty, r)
  {
  }

  lemma SameWrite(v1: Vm, v2: Vm, ty: nat, r: Word, v: Word, d: int)
    requires Apart(v1, v2, d) && OperandAvoids(v1, ty, r)
    ensures SameOption(SetWord(v1, ty, r, v), SetWord(v2, ty, r, v), d)
  {
  }

  lemma {:induction false} SameString(p1: seq<Command>, p2: seq<Command>, v1: Vm, v2: Vm, ty: nat, r: Word, d: int)
    requires Apart(v1, v2, d) && StringAvoids(p1, p2, v1, ty, r)
    ensures ReadString(p1, v1, ty, r) == ReadString(p2, v2, ty, r)
    decreases MAXWORD - r
  {
    SameRead(p1, p2, v1, v2, ty, r, d);
    var w := GetWord(p1, v1, ty, r);
    if w.Some? && w.value != 0 && r != MAXWORD {
      SameString(p1, p2, v1, v2, ty, r + 1, d);
    }
  }

  lemma {:induction false} SameCopy(p1: seq<Command>, p2: seq<Command>, v1: Vm, v2: Vm, ty: nat, dst: Word,
                                    src: Word, d: int)
    requires Apart(v1, v2, d) && CopyAvoids(p1, p2, v1, ty, dst, src)
    ensures var a, b := CopyString(p1, v1, ty, dst, src), CopyString(p2, v2, ty, dst, src);
      if a.None? then b.None? else b.Some? && Apart(a.value.0, b.value.0, d) && a.value.0.ram[PC] == v1.ram[PC]
    decreases MAXWORD - src
  {
    SameRead(p1, p2, v1, v2, ty, src, d);
    var w := GetWord(p1, v1, ty, src);
    if w.Some? && src != MAXWORD && dst != MAXWORD {
      SameWrite(v1, v2, ty, dst, w.value, d);
      var a := SetWord(v1, ty, dst, w.value);
      if a.Some? && w.value != 0 {
        SameCopy(p1, p2, a.value, SetWord(v2, ty, dst, w.value).value, ty, dst + 1, src + 1, d);
      }
    }
  }

  /** The same effect, with room left to increment both program counters. */
  predicate SameOutcome(a: Outcome, b: Outcome, d: int) {
    if a.Undefined? then b.Undefined?
    else b.Next? && Apart(a.vm, b.vm, d) && a.vm.ram[PC] < MAXWORD && b.vm.ram[PC] < MAXWORD
  }

  predicate RoomToStep(v1: Vm, v2: Vm) {
    |v1.ram| > FRM && |v2.ram| > FRM && v1.ram[PC] < MAXWORD && v2.ram[PC] < MAXWORD
  }

  lemma AssignMoves(p1: seq<Command>, p2: seq<Command>, v1: Vm, v2: Vm, c: Command, d: int)
    requires IsAssign(c.cmd) && Apart(v1, v2, d) && RoomToStep(v1, v2) && Avoids(p1, p2, v1, c)
    ensures SameOutcome(ExecAssign(p1, v1, c), ExecAssign(p2, v2, c), d)
  {
    if c.cmd != MOVE {
      SameRead(p1, p2, v1, v2, Arg0Type(c.flags), c.arg0, d);
    }
    if !IsUnary(c.cmd) {
      SameRead(p1, p2, v1, v2, Arg1Type(c.flags), c.arg1, d);
    }
    var v := Assigned(p1, v1, c);
    assert v == Assigned(p2, v2, c);
    if v.Some? {
      SameWrite(v1, v2, Arg0Type(c.flags), c.arg0, v.value, d);
    }
  }

  lemma PopMoves(p1: seq<Command>, p2: seq<Command>, v1: Vm, v2: Vm, c: Command, d: int)
    requires c.cmd == POP && Apart(v1, v2, d) && RoomToStep(v1, v2) && Avoids(p1, p2, v1, c)
    ensures SameOutcome(ExecFlow(p1, v1, c), ExecFlow(p2, v2, c), d)
  {
    var a, b := Pop(v1), Pop(v2);
    if a.Some? {
      assert Apart(a.value.0, b.value.0, d) && RoomToStep(a.value.0, b.value.0);
      SameWrite(a.value.0, b.value.0, Arg0Type(c.flags), c.arg0, a.value.1, d);
    }
  }

  lemma PushMoves(p1: seq<Command>, p2: seq<Command>, v1: Vm, v2: Vm, c: Command, d: int)
    requires c.cmd == PUSH && Apart(v1, v2, d) && RoomToStep(v1, v2) && Avoids(p1, p2, v1, c)
    ensures SameOutcome(ExecFlow(p1, v1, c), ExecFlow(p2, v2, c), d)
  {
    SameRead(p1, p2, v1, v2, Arg0Type(c.flags), c.arg0, d);
  }

  lemma JumpMoves(v1: Vm, v2: Vm, t1: Word, t2: Word, d: int)
    requires Apart(v1, v2, d) && t1 > MINWORD && t2 > MINWORD && t2 as int == t1 as int + d
    ensures Apart(Jump(v1, t1), Jump(v2, t2), d) && RoomToStep(Jump(v1, t1), Jump(v2, t2))
  {
  }

  lemma BranchMoves(p1: seq<Command>, p2: seq<Command>, v1: Vm, v2: Vm, c1: Command, c2: Command, d: int)
    requires (c1.cmd == JMP || IsBranch(c1.cmd)) && Apart(v1, v2, d) && RoomToStep(v1, v2)
    requires Moved(c1, c2, d) && Avoids(p1, p2, v1, c1)
    ensures SameOutcome(ExecFlow(p1, v1, c1), ExecFlow(p2, v2, c2), d)
  {
    if c1.cmd == JMP {
      JumpMoves(v1, v2, c1.arg0, c2.arg0, d);
    } else {
      SameRead(p1, p2, v1, v2, Arg0Type(c1.flags), c1.arg0, d);
      JumpMoves(v1, v2, c1.arg1, c2.arg1, d);
    }
  }

  lemma LogMoves(p1: seq<Command>, p2: seq<Command>, v1: Vm, v2: Vm, c: Command, d: int)
    requires IsLog(c.cmd) && Apart(v1, v2, d) && RoomToStep(v1, v2) && Avoids(p1, p2, v1, c)
    ensures SameOutcome(ExecLog(p1, v1, c), ExecLog(p2, v2, c), d)
  {
    if c.cmd == LOGS {
      SameString(p1, p2, v1, v2, Arg0Type(c.flags), c.arg0, d);
    } else if c.cmd != LOGLN {
      SameRead(p1, p2, v1, v2, Arg0Type(c.flags), c.arg0, d);
    }
  }

  /** The two commands do the same to the two processors. */
  lemma ExecMoves(p1: seq<Command>, p2: seq<Command>, v1: Vm, v2: Vm, c1: Command, c2: Command, d: int)
    requires Apart(v1, v2, d) && RoomToStep(v1, v2) && Moved(c1, c2, d) && Avoids(p1, p2, v1, c1)
    ensures SameOutcome(Exec(p1, v1, c1), Exec(p2, v2, c2), d)
  {
    if IsAssign(c1.cmd) {
      AssignMoves(p1, p2, v1, v2, c1, d);
    } else if IsFlow(c1.cmd) {
      if c1.cmd == POP {
        PopMoves(p1, p2, v1, v2, c1, d);
      } else if c1.cmd == PUSH {
        PushMoves(p1, p2, v1, v2, c1, d);
      } else {
        BranchMoves(p1, p2, v1, v2, c1, c2, d);
      }
    } else if IsLog(c1.cmd) {
      LogMoves(p1, p2, v1, v2, c1, d);
    } else if c1.cmd == STRCPY {
      SameCopy(p1, p2, v1, v2, Arg0Type(c1.flags), c1.arg0, c1.arg1, d);
    }
  }

  /** Two programs holding the block at positions k and k + d. */
  predicate BlockMoved(p1: seq<Command>, p2: seq<Command>, k: nat, len: nat, d: int) {
    && k + len <= |p1| && 0 <= k + d && k + d + len <= |p2| <= MAXWORD && |p1| <= MAXWORD
    && forall i :: k <= i < k + len ==> Moved(p1[i], p2[i + d], d)
  }

  /** Before each of n steps PC is inside the block, and the command leaves PC alone and reads
      the same in both programs. */
  predicate StaysInBlock(p1: seq<Command>, p2: seq<Command>, vm: Vm, k: nat, len: nat, n: nat)
    decreases n
  {
    n == 0 || |vm.ram| <= FRM || vm.status != Running ||
    (&& k <= vm.ram[PC] < k + len && k + len <= |p1| && Avoids(p1, p2, vm, p1[vm.ram[PC]])
     && (DoStep(p1, vm).Stepped? ==> StaysInBlock(p1, p2, DoStep(p1, vm).vm, k, len, n - 1)))
  }

  predicate SameStep(a: Step, b: Step, d: int) {
    match a
    case Stopped => b.Stopped?
    case Broken => b.Broken?
    case Stepped(v) => b.Stepped? && Apart(v, b.vm, d)
  }

  predicate SameRun(a: RunResult, b: RunResult, d: int) {
    match a
    case Halt(v) => b.Halt? && Apart(v, b.vm, d)
    case Crash => b.Crash?
    case Paused(v) => b.Paused? && Apart(v, b.vm, d)
  }

  lemma StepMoves(p1: seq<Command>, p2: seq<Command>, v1: Vm, v2: Vm, k: nat, len: nat, d: int)
    requires BlockMoved(p1, p2, k, len, d) && Apart(v1, v2, d)
    requires v1.status == Running && k <= v1.ram[PC] < k + len && Avoids(p1, p2, v1, p1[v1.ram[PC]])
    ensures SameStep(DoStep(p1, v1), DoStep(p2, v2), d)
  {
    var i := v1.ram[PC];
    ExecMoves(p1, p2, v1, v2, p1[i], p2[i + d], d);
  }

  /** Position independence: while PC stays in the block, the two runs have the same RAM and
      log, and program counters that differ by the distance of the two positions. */
  lemma {:induction false} Lockstep(p1: seq<Command>, p2: seq<Command>, v1: Vm, v2: Vm, k: nat, len: nat, d: int,
                                    n: nat)
    requires BlockMoved(p1, p2, k, len, d) && Apart(v1, v2, d)
    requires StaysInBlock(p1, p2, v1, k, len, n)
    ensures SameRun(Run(p1, v1, n), Run(p2, v2, n), d)
    decreases n
  {
    if n > 0 && v1.status == Running {
      StepMoves(p1, p2, v1, v2, k, len, d);
      if DoStep(p1, v1).Stepped? {
        Lockstep(p1, p2, DoStep(p1, v1).vm, DoStep(p2, v2).vm, k, len, d, n - 1);
      }
    }
  }
}
