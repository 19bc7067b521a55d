/** What each command does to the processor, told cell by cell. The statements are about whole
    steps, the counting of PC included, and name no part of how a step is made. */
module CommandMeanings {
  import opened Bits
  import opened Decimal
  import opened Machine
  import opened Arithmetic

  // ---------- operands, spelled out ----------

  /** The processor is about to execute c, with room to count. */
  predicate AtCommand(prog: seq<Command>, vm: Vm, c: Command) {
    && vm.status == Running && |vm.ram| > FRM
    && 0 <= vm.ram[PC] < |prog| && vm.ram[PC] < MAXWORD && prog[vm.ram[PC]] == c
  }

  /** The word an operand stands for: itself, the word of a cell, of the cell that cell names,
      or the first operand of a command of the program. */
  predicate Stands(prog: seq<Command>, ram: seq<Word>, ty: nat, r: Word, w: Word) {
    if ty == 0 then w == r
    else if ty == 1 then 0 <= r < |ram| && w == ram[r]
    else if ty == 2 then 0 <= r < |ram| && 0 <= ram[r] < |ram| && w == ram[ram[r]]
    else 0 <= r < |prog| && w == prog[r].arg0
  }

  predicate First(prog: seq<Command>, ram: seq<Word>, c: Command, w: Word) {
    Stands(prog, ram, c.flags % 4, c.arg0, w)
  }

  predicate Second(prog: seq<Command>, ram: seq<Word>, c: Command, w: Word) {
    Stands(prog, ram, c.flags / 4 % 4, c.arg1, w)
  }

  /** The cell an operand names to be stored to. */
  predicate Target(ram: seq<Word>, c: Command, a: int) {
    && 0 <= a < |ram|
    && ((c.flags % 4 == 1 && a == c.arg0) || (c.flags % 4 == 2 && 0 <= c.arg0 < |ram| && a == ram[c.arg0]))
  }

  // ---------- what a step leaves ----------

  /** The step goes through and leaves a RAM of the same size; state and log stay. */
  predicate GoesOn(prog: seq<Command>, vm: Vm) {
    var s := DoStep(prog, vm);
    s.Stepped? && s.vm.status == vm.status && s.vm.out == vm.out && |s.vm.ram| == |vm.ram|
  }

  predicate Leaves(prog: seq<Command>, vm: Vm, ram: seq<Word>) {
    DoStep(prog, vm) == Stepped(Vm(ram, vm.status, vm.out))
  }

  /** Cell a gets the word w, PC goes on, and every other cell stays. */
  predicate Stores(prog: seq<Command>, vm: Vm, a: int, w: Word)
    requires |vm.ram| > FRM
  {
    GoesOn(prog, vm) &&
    var ram := DoStep(prog, vm).vm.ram;
    && (forall i :: 0 <= i < |ram| && i != a && i != PC ==> ram[i] == vm.ram[i])
    && ram[PC] as int == (if a == PC then w as int else vm.ram[PC] as int) + 1
    && (0 <= a < |ram| && a != PC ==> ram[a] == w)
  }

  /** Nothing but PC changes, which becomes v. */
  predicate GoesTo(prog: seq<Command>, vm: Vm, v: int)
    requires |vm.ram| > FRM
  {
    GoesOn(prog, vm) &&
    var ram := DoStep(prog, vm).vm.ram;
    ram[PC] as int == v && forall i :: 0 <= i < |ram| && i != PC ==> ram[i] == vm.ram[i]
  }

  // ---------- stores and arithmetic ----------

  lemma AssignStores(prog: seq<Command>, vm: Vm, c: Command, a: int, w: Word)
    requires AtCommand(prog, vm, c) && Target(vm.ram, c, a) && (a == PC ==> w < MAXWORD)
    requires IsAssign(c.cmd) && Assigned(prog, vm, c) == Some(w)
    ensures Stores(prog, vm, a, w)
  {
    var ram := vm.ram[a := w];
    assert Leaves(prog, vm, ram[PC := ram[PC] + 1]);
  }

  /** move */
  lemma MoveStores(prog: seq<Command>, vm: Vm, c: Command, a: int, w: Word)
    requires AtCommand(prog, vm, c) && c.cmd == MOVE && Target(vm.ram, c, a) && Second(prog, vm.ram, c, w)
    requires a == PC ==> w < MAXWORD
    ensures Stores(prog, vm, a, w)
  {
    AssignStores(prog, vm, c, a, w);
  }

  /** inc, dec, not and bnot */
  lemma UnaryStores(prog: seq<Command>, vm: Vm, c: Command, a: int, x: Word) returns (w: Word)
    requires AtCommand(prog, vm, c) && IsUnary(c.cmd) && Target(vm.ram, c, a) && First(prog, vm.ram, c, x)
    ensures ComputesOne(c.cmd, x, w) && (a != PC || w < MAXWORD ==> Stores(prog, vm, a, w))
  {
    UnaryComputes(c.cmd, x);
    w := Unary(c.cmd, x);
    if a != PC || w < MAXWORD {
      AssignStores(prog, vm, c, a, w);
    }
  }

  /** The commands with two operands store what they compute, where that has a meaning. */
  lemma BinaryStores(prog: seq<Command>, vm: Vm, c: Command, a: int, x: Word, y: Word) returns (w: Word)
    requires AtCommand(prog, vm, c) && IsBinary(c.cmd) && Target(vm.ram, c, a)
    requires First(prog, vm.ram, c, x) && Second(prog, vm.ram, c, y) && Meaningful(c.cmd, x, y)
    ensures Computes(c.cmd, x, y, w) && (a != PC || w < MAXWORD ==> Stores(prog, vm, a, w))
  {
    BinaryComputes(c.cmd, x, y);
    w := Binary(c.cmd, x, y).value;
    if a != PC || w < MAXWORD {
      AssignStores(prog, vm, c, a, w);
    }
  }

  /** And break where it has none. */
  lemma BinaryBreaks(prog: seq<Command>, vm: Vm, c: Command, x: Word, y: Word)
    requires AtCommand(prog, vm, c) && IsBinary(c.cmd)
    requires First(prog, vm.ram, c, x) && Second(prog, vm.ram, c, y) && !Meaningful(c.cmd, x, y)
    ensures DoStep(prog, vm) == Broken
  {
    BinaryComputes(c.cmd, x, y);
  }

  /** bor and band do without a second operand when the first one decides. */
  lemma DecidedStores(prog: seq<Command>, vm: Vm, c: Command, a: int, x: Word)
    requires AtCommand(prog, vm, c) && Target(vm.ram, c, a) && First(prog, vm.ram, c, x)
    ensures c.cmd == BOR && x != 0 ==> Stores(prog, vm, a, 1)
    ensures c.cmd == BAND && x == 0 ==> Stores(prog, vm, a, 0)
  {
    if c.cmd == BOR && x != 0 {
      AssignStores(prog, vm, c, a, 1);
    } else if c.cmd == BAND && x == 0 {
      AssignStores(prog, vm, c, a, 0);
    }
  }

  // ---------- jumps and branches ----------

  /** jmp goes to the word of its operand. */
  lemma JumpGoes(prog: seq<Command>, vm: Vm, c: Command, v: Word)
    requires AtCommand(prog, vm, c) && c.cmd == JMP && First(prog, vm.ram, c, v) && v > MINWORD
    ensures GoesTo(prog, vm, v)
  {
    assert Leaves(prog, vm, vm.ram[PC := v - 1][PC := v]);
  }

  /** ift goes on when its word is not zero and to its target when it is; iff the other way
      round. */
  lemma BranchGoes(prog: seq<Command>, vm: Vm, c: Command, x: Word)
    requires AtCommand(prog, vm, c) && (c.cmd == IFT || c.cmd == IFF) && First(prog, vm.ram, c, x)
    ensures (c.cmd == IFT && x != 0) || (c.cmd == IFF && x == 0) ==> GoesTo(prog, vm, vm.ram[PC] as int + 1)
    ensures forall t: Word :: Second(prog, vm.ram, c, t) && t > MINWORD ==>
              ((c.cmd == IFT && x == 0) || (c.cmd == IFF && x != 0) ==> GoesTo(prog, vm, t))
  {
    if (c.cmd == IFT && x != 0) || (c.cmd == IFF && x == 0) {
      assert Leaves(prog, vm, vm.ram[PC := vm.ram[PC] + 1]);
    }
    forall t: Word | Second(prog, vm.ram, c, t) && t > MINWORD && ((c.cmd == IFT && x == 0) || (c.cmd == IFF && x != 0))
      ensures GoesTo(prog, vm, t)
    {
      assert Leaves(prog, vm, vm.ram[PC := t - 1][PC := t]);
    }
  }

  // ---------- calls and the stack ----------

  predicate IsRegister(a: int) {
    a == PC || a == STK || a == FRM
  }

  /** call enters the routine at the word of its operand, whatever the stack is. */
  lemma CallEnters(prog: seq<Command>, vm: Vm, c: Command, v: Word)
    requires AtCommand(prog, vm, c) && c.cmd == CALL && First(prog, vm.ram, c, v) && v > MINWORD
    ensures DoStep(prog, vm).Stepped? ==> DoStep(prog, vm).vm.ram[PC] == v
  {
  }

  /** With room on the stack it leaves PC and FRM there, below one another, and a new frame. */
  lemma CallLeaves(prog: seq<Command>, vm: Vm, c: Command, v: Word)
    requires AtCommand(prog, vm, c) && c.cmd == CALL && First(prog, vm.ram, c, v) && v > MINWORD
    requires var s := vm.ram[STK];
      0 < s < |vm.ram| && !IsRegister(s) && !IsRegister(s - 1)
    ensures GoesOn(prog, vm)
    ensures var s, ram := vm.ram[STK], DoStep(prog, vm).vm.ram;
         && ram[s] == vm.ram[PC] && ram[s - 1] == vm.ram[FRM]
         && ram[STK] == ram[FRM] == s - 2 && ram[PC] == v
         && forall i :: 0 <= i < |ram| && !IsRegister(i) && i != s && i != s - 1 ==> ram[i] == vm.ram[i]
  {
    CallSteps(prog, vm, c, v);
  }

  lemma CallSteps(prog: seq<Command>, vm: Vm, c: Command, v: Word)
    requires AtCommand(prog, vm, c) && c.cmd == CALL && First(prog, vm.ram, c, v) && v > MINWORD
    requires var s := vm.ram[STK];
      0 < s < |vm.ram| && !IsRegister(s) && !IsRegister(s - 1)
    ensures var s := vm.ram[STK];
      var ram := vm.ram[s := vm.ram[PC]][STK := s - 1][s - 1 := vm.ram[FRM]][STK := s - 2][FRM := s - 2];
      Leaves(prog, vm, ram[PC := v - 1][PC := v])
  {
  }

  /** ret takes both back from above the frame and goes on behind the call. */
  lemma RetLeaves(prog: seq<Command>, vm: Vm, c: Command)
    requires AtCommand(prog, vm, c) && c.cmd == RET
    requires var f := vm.ram[FRM];
      0 <= f as int + 1 && f as int + 2 < |vm.ram| && f as int + 2 <= MAXWORD
      && !IsRegister(f as int + 1) && !IsRegister(f as int + 2) && vm.ram[f as int + 2] < MAXWORD
    ensures GoesOn(prog, vm)
    ensures var f, ram := vm.ram[FRM], DoStep(prog, vm).vm.ram;
         && ram[FRM] == vm.ram[f + 1] && ram[STK] == f + 2 && ram[PC] as int == vm.ram[f + 2] as int + 1
         && forall i :: 0 <= i < |ram| && !IsRegister(i) ==> ram[i] == vm.ram[i]
  {
    var f := vm.ram[FRM];
    var ram := vm.ram[STK := f][STK := f + 1][FRM := vm.ram[f + 1]][STK := f + 2][PC := vm.ram[f + 2]];
    assert Leaves(prog, vm, ram[PC := vm.ram[f + 2] + 1]);
  }

  /** The operand does not read STK, which push is moving. */
  predicate SparesStk(ram: seq<Word>, c: Command) {
    && !(c.flags % 4 == 1 && c.arg0 == STK)
    && !(c.flags % 4 == 2 && (c.arg0 == STK || (0 <= c.arg0 < |ram| && ram[c.arg0] == STK)))
  }

  /** push stores the word of its operand at STK, which goes down by one. */
  predicate Pushed(before: seq<Word>, ram: seq<Word>, v: Word)
    requires |before| > FRM
  {
    && |ram| == |before| && 0 <= before[STK] < |ram|
    && ram[before[STK]] == v && ram[STK] as int == before[STK] as int - 1
    && ram[PC] as int == before[PC] as int + 1
    && forall i :: 0 <= i < |ram| && i != PC && i != STK && i != before[STK] ==> ram[i] == before[i]
  }

  lemma PushStores(prog: seq<Command>, vm: Vm, c: Command, v: Word)
    requires AtCommand(prog, vm, c) && c.cmd == PUSH && First(prog, vm.ram, c, v) && SparesStk(vm.ram, c)
    requires 0 <= vm.ram[STK] < |vm.ram| && vm.ram[STK] != STK && vm.ram[STK] != PC
    ensures GoesOn(prog, vm) && Pushed(vm.ram, DoStep(prog, vm).vm.ram, v)
  {
    var s := vm.ram[STK];
    assert Leaves(prog, vm, vm.ram[s := v][STK := s - 1][PC := vm.ram[PC] + 1]);
  }

  /** pop stores the word above STK, which goes up by one, in the cell its operand names then. */
  predicate Popped(before: seq<Word>, ram: seq<Word>, a: int)
    requires |before| > FRM
  {
    var t := before[STK] as int + 1;
    && |ram| == |before| && 0 <= t < |ram| && 0 <= a < |ram|
    && ram[a] == before[t] && (a != STK ==> ram[STK] as int == t)
    && ram[PC] as int == before[PC] as int + 1
    && forall i :: 0 <= i < |ram| && i != PC && i != STK && i != a ==> ram[i] == before[i]
  }

  lemma PopLoads(prog: seq<Command>, vm: Vm, c: Command, a: int)
    requires AtCommand(prog, vm, c) && c.cmd == POP && a != PC
    requires var t := vm.ram[STK] as int + 1;
      0 <= t < |vm.ram| && t <= MAXWORD && t != STK && Target(vm.ram[STK := t], c, a)
    ensures GoesOn(prog, vm) && Popped(vm.ram, DoStep(prog, vm).vm.ram, a)
  {
    var t: Word := vm.ram[STK] + 1;
    assert Leaves(prog, vm, vm.ram[STK := t][a := vm.ram[t]][PC := vm.ram[PC] + 1]);
  }

  lemma TwoSteps(prog: seq<Command>, vm: Vm)
    requires DoStep(prog, vm).Stepped? && DoStep(prog, DoStep(prog, vm).vm).Stepped?
    ensures Run(prog, vm, 2) == Paused(DoStep(prog, DoStep(prog, vm).vm).vm)
  {
    var vm1 := DoStep(prog, vm).vm;
    assert Run(prog, DoStep(prog, vm1).vm, 0) == Paused(DoStep(prog, vm1).vm);
    assert Run(prog, vm1, 1) == Paused(DoStep(prog, vm1).vm);
  }

  /** A push and a pop into another cell move the word there and give STK back. */
  lemma PushPop(prog: seq<Command>, vm: Vm, c1: Command, c2: Command, v: Word, a: Word)
    requires AtCommand(prog, vm, c1) && c1.cmd == PUSH && First(prog, vm.ram, c1, v) && SparesStk(vm.ram, c1)
    requires 0 <= vm.ram[STK] < |vm.ram| && !IsRegister(vm.ram[STK])
    requires vm.ram[PC] as int + 1 < |prog| && vm.ram[PC] < MAXWORD - 1 && prog[vm.ram[PC] + 1] == c2
    requires c2.cmd == POP && c2.flags % 4 == 1 && c2.arg0 == a
    requires 0 <= a < |vm.ram| && !IsRegister(a) && a != vm.ram[STK]
    ensures var r := Run(prog, vm, 2);
      && r.Paused? && r.vm.status == vm.status && r.vm.out == vm.out && |r.vm.ram| == |vm.ram|
    ensures var ram := Run(prog, vm, 2).vm.ram;
      && ram[a] == v && ram[STK] == vm.ram[STK] && ram[PC] as int == vm.ram[PC] as int + 2
      && forall i :: 0 <= i < |ram| && i != PC && i != a && i != vm.ram[STK] ==> ram[i] == vm.ram[i]
  {
    PushStores(prog, vm, c1, v);
    var vm1 := DoStep(prog, vm).vm;
    PopLoads(prog, vm1, c2, a);
    TwoSteps(prog, vm);
  }

  // ---------- the log ----------

  /** The step adds this text to the log, and PC goes on. */
  predicate Prints(prog: seq<Command>, vm: Vm, text: string)
    requires |vm.ram| > FRM && vm.ram[PC] < MAXWORD
  {
    DoStep(prog, vm) == Stepped(Vm(vm.ram[PC := vm.ram[PC] + 1], vm.status, vm.out + text))
  }

  /** Digits of n in base ten without leading zeros. */
  predicate IsNumeral(digits: string, n: nat) {
    digits != [] && AllDigits(digits) && ValueOf(digits) == n && (|digits| > 1 ==> digits[0] != '0')
  }

  lemma {:induction false} PrintIsNumeral(n: nat)
    ensures IsNumeral(PrintNat(n), n) && (n > 0 ==> PrintNat(n)[0] != '0')
  {
    ValueOfPrint(n);
    if n >= 10 {
      PrintIsNumeral(n / 10);
    }
  }

  /** logi prints the signed word in base ten. */
  lemma SignedPrints(prog: seq<Command>, vm: Vm, c: Command, w: Word) returns (digits: string)
    requires AtCommand(prog, vm, c) && c.cmd == LOGI && First(prog, vm.ram, c, w)
    ensures IsNumeral(digits, if w < 0 then 0 - w else w)
    ensures Prints(prog, vm, if w < 0 then "-" + digits else digits)
  {
    digits := PrintNat(if w < 0 then 0 - w else w);
    PrintIsNumeral(if w < 0 then 0 - w else w);
  }

  /** logu prints the unsigned one. */
  lemma UnsignedPrints(prog: seq<Command>, vm: Vm, c: Command, w: Word) returns (digits: string)
    requires AtCommand(prog, vm, c) && c.cmd == LOGU && First(prog, vm.ram, c, w)
    ensures IsNumeral(digits, if w < 0 then w + 0x1_0000_0000 else w) && Prints(prog, vm, digits)
  {
    digits := PrintNat(if w < 0 then w + 0x1_0000_0000 else w);
    PrintIsNumeral(if w < 0 then w + 0x1_0000_0000 else w);
  }

  /** logc prints the word as a byte, logln a newline. */
  lemma CharPrints(prog: seq<Command>, vm: Vm, c: Command, w: Word)
    requires AtCommand(prog, vm, c) && (c.cmd == LOGLN || (c.cmd == LOGC && First(prog, vm.ram, c, w)))
    ensures c.cmd == LOGC ==> Prints(prog, vm, [(w % 256) as char])
    ensures c.cmd == LOGLN ==> Prints(prog, vm, "\n")
  {
  }

  // ---------- the rest ----------

  predicate IsCommand(op: Byte) {
    || MOVE <= op <= BNOT || JMP <= op <= POP || op == INITR || LOGI <= op <= LOGLN || op == STRCPY
  }

  /** nop, and every opcode without a handler, only counts. */
  lemma NopCounts(prog: seq<Command>, vm: Vm, c: Command)
    requires AtCommand(prog, vm, c) && !IsCommand(c.cmd)
    ensures GoesTo(prog, vm, vm.ram[PC] as int + 1)
  {
    assert Leaves(prog, vm, vm.ram[PC := vm.ram[PC] + 1]);
  }

  /** A second initr, and a store to a literal or to the program, end the run as failed. */
  lemma FailingSteps(prog: seq<Command>, vm: Vm, c: Command, w: Word)
    requires AtCommand(prog, vm, c)
    requires c.cmd == INITR || (c.cmd == MOVE && (c.flags % 4 == 0 || c.flags % 4 == 3) && Second(prog, vm.ram, c, w))
    ensures var s := DoStep(prog, vm);
      s == Stepped(Vm(vm.ram[PC := vm.ram[PC] + 1], Failed, vm.out)) && DoStep(prog, s.vm) == Stopped
  {
  }

  /** initr n: a RAM of n fresh words, PC behind it, and the stack and the frame at the top. */
  lemma BootLeaves(prog: seq<Command>, memory: nat -> Word)
    requires prog != [] && prog[0].cmd == INITR && 35 <= prog[0].arg0
    ensures Boot(prog, memory).Some?
    ensures var n, vm := prog[0].arg0, Boot(prog, memory).value;
      && |vm.ram| == n && vm.status == Running && vm.out == ""
      && vm.ram[32] == 1 && vm.ram[33] == vm.ram[34] == n - 1
      && forall i :: 0 <= i < n && i != 32 && i != 33 && i != 34 ==> vm.ram[i] == memory(i)
  {
  }

  // ---------- where C gives no meaning, and where the loop ends ----------

  /** A command whose first word is needed breaks where its operand stands for none. */
  lemma FirstNeeded(prog: seq<Command>, vm: Vm, c: Command)
    requires AtCommand(prog, vm, c) && forall w: Word :: !First(prog, vm.ram, c, w)
    requires IsUnary(c.cmd) || IsBinary(c.cmd) || c.cmd == JMP || c.cmd == IFT || c.cmd == IFF || c.cmd == CALL
             || c.cmd == PUSH || c.cmd == LOGI || c.cmd == LOGU || c.cmd == LOGC
    ensures DoStep(prog, vm) == Broken
  {
    var x := GetWord(prog, vm, c.flags % 4, c.arg0);
    if x.Some? {
      assert First(prog, vm.ram, c, x.value);
      assert false;
    }
  }

  /** So does one whose second word is needed: move, every two-operand command whose first word
      does not decide, and a branch that is taken. */
  lemma SecondNeeded(prog: seq<Command>, vm: Vm, c: Command, x: Word)
    requires AtCommand(prog, vm, c) && forall w: Word :: !Second(prog, vm.ram, c, w)
    requires c.cmd == MOVE || (First(prog, vm.ram, c, x) &&
               ((IsBinary(c.cmd) && !(c.cmd == BOR && x != 0) && !(c.cmd == BAND && x == 0))
                || (c.cmd == IFT && x == 0) || (c.cmd == IFF && x != 0)))
    ensures DoStep(prog, vm) == Broken
  {
    var y := GetWord(prog, vm, c.flags / 4 % 4, c.arg1);
    if y.Some? {
      assert Second(prog, vm.ram, c, y.value);
      assert false;
    }
  }

  /** And one that would store where there is no cell. */
  lemma TargetNeeded(prog: seq<Command>, vm: Vm, c: Command)
    requires AtCommand(prog, vm, c) && IsAssign(c.cmd) && (c.flags % 4 == 1 || c.flags % 4 == 2)
    requires forall a :: !Target(vm.ram, c, a)
    ensures DoStep(prog, vm) == Broken
  {
    if c.flags % 4 == 1 {
      assert !Target(vm.ram, c, c.arg0);
    } else if 0 <= c.arg0 < |vm.ram| {
      assert !Target(vm.ram, c, vm.ram[c.arg0]);
    }
  }

  /** push and call break where STK points outside RAM or at itself, and push where its operand
      reads STK, which C may have moved by then; pop breaks where there is no cell above STK. */
  lemma StackNeeded(prog: seq<Command>, vm: Vm, c: Command)
    requires AtCommand(prog, vm, c)
    requires var s := vm.ram[STK] as int;
      || ((c.cmd == PUSH || c.cmd == CALL) && (s < 0 || |vm.ram| <= s || s == STK))
      || (c.cmd == PUSH && !SparesStk(vm.ram, c))
      || (c.cmd == POP && (s + 1 < 0 || |vm.ram| <= s + 1 || s + 1 == STK))
    ensures DoStep(prog, vm) == Broken
  {
  }

  /** The loop stops when the state says so or PC is past the program, and breaks at a negative
      PC and where PC cannot be counted on. */
  lemma LoopEnds(prog: seq<Command>, vm: Vm)
    requires |vm.ram| > FRM
    ensures DoStep(prog, vm) == Stopped <==> vm.status != Running || vm.ram[PC] >= |prog|
    ensures vm.status == Running && vm.ram[PC] < 0 ==> DoStep(prog, vm) == Broken
  {
  }
}
