/** The call stack inside RAM: frames form a chain of rising addresses that every step
    keeps, and a call returns to its caller whatever happens in between. */
module CallFrames {
  import opened Bits
  import opened Machine

  /** What a call saves: the PC of the call command and the caller's frame register. */
  datatype Frame = Frame(pc: Word, frm: Word)

  /** From frm down to bot, RAM holds exactly these frames, each above the one it calls. */
  predicate Chain(ram: seq<Word>, frm: Word, frames: seq<Frame>, bot: Word)
    decreases |frames|
  {
    if frames == [] then frm == bot
    else
      && 0 <= frm && frm + 2 < |ram|
      && ram[frm + 1] == frames[0].frm && ram[frm + 2] == frames[0].pc
      && frm + 2 <= frames[0].frm
      && Chain(ram, frames[0].frm, frames[1..], bot)
  }

  predicate Framed(vm: Vm, frames: seq<Frame>, bot: Word) {
    && |vm.ram| > FRM && bot < |vm.ram|
    && FRM <= vm.ram[STK] <= vm.ram[FRM] <= bot
    && Chain(vm.ram, vm.ram[FRM], frames, bot)
  }

  /** The cells a command stores to through its operands. */
  function Target(vm: Vm, ty: nat, r: Word): set<int> {
    if ty == RAM then {r as int}
    else if ty == PTR && InRam(vm, r) then {vm.ram[r] as int}
    else {}
  }

  function CopyTargets(prog: seq<Command>, vm: Vm, ty: nat, dst: Word, src: Word): set<int>
    decreases MAXWORD - src
  {
    var w := GetWord(prog, vm, ty, src);
    if w.None? || src == MAXWORD || dst == MAXWORD then {}
    else
      var vm' := SetWord(vm, ty, dst, w.value);
      if vm'.None? || w.value == 0 then Target(vm, ty, dst)
      else Target(vm, ty, dst) + CopyTargets(prog, vm'.value, ty, dst + 1, src + 1)
  }

  /** Data goes below the live stack and not into the registers. */
  predicate BelowStack(targets: set<int>, stk: Word) {
    forall a :: a in targets ==> a <= stk && a != PC && a != STK && a != FRM
  }

  /** The write discipline of one command. */
  predicate Disciplined(prog: seq<Command>, vm: Vm, c: Command)
    requires |vm.ram| > FRM
  {
    var ty, stk := Arg0Type(c.flags), vm.ram[STK];
    if IsAssign(c.cmd) then BelowStack(Target(vm, ty, c.arg0), stk)
    else if c.cmd == STRCPY then BelowStack(CopyTargets(prog, vm, ty, c.arg0, c.arg1), stk)
    else if c.cmd == PUSH then stk > FRM
    else if c.cmd == CALL then stk > FRM + 1
    else if c.cmd == POP then
      stk < vm.ram[FRM] && (Pop(vm).Some? ==> BelowStack(Target(Pop(vm).value.0, ty, c.arg0), stk + 1))
    else true
  }

  function After(vm: Vm, c: Command, frames: seq<Frame>): seq<Frame>
    requires |vm.ram| > FRM
  {
    if c.cmd == CALL then [Frame(vm.ram[PC], vm.ram[FRM])] + frames
    else if c.cmd == RET && frames != [] then frames[1..]
    else frames
  }

  lemma {:induction false} ChainAgrees(ram: seq<Word>, ram': seq<Word>, frm: Word, frames: seq<Frame>, bot: Word)
    requires Chain(ram, frm, frames, bot) && |ram| == |ram'|
    requires forall a :: 0 <= a < |ram| && frm < a ==> ram[a] == ram'[a]
    ensures Chain(ram', frm, frames, bot)
    decreases |frames|
  {
    if frames != [] {
      ChainAgrees(ram, ram', frames[0].frm, frames[1..], bot);
    }
  }

  lemma {:induction false} ChainRises(ram: seq<Word>, frm: Word, frames: seq<Frame>, bot: Word)
    requires Chain(ram, frm, frames, bot)
    ensures frm + 2 * |frames| <= bot
    decreases |frames|
  {
    if frames != [] {
      ChainRises(ram, frames[0].frm, frames[1..], bot);
    }
  }

  lemma {:induction false} CopyFrame(prog: seq<Command>, vm: Vm, ty: nat, dst: Word, src: Word)
    ensures var r := CopyString(prog, vm, ty, dst, src);
      && (r.Some? ==> |r.value.0.ram| == |vm.ram|)
      && (r.Some? ==> forall a :: 0 <= a < |vm.ram| && a !in CopyTargets(prog, vm, ty, dst, src) ==> r.value.0.ram[a] == vm.ram[a])
    decreases MAXWORD - src
  {
    var w := GetWord(prog, vm, ty, src);
    if w.Some? && src != MAXWORD && dst != MAXWORD {
      var vm' := SetWord(vm, ty, dst, w.value);
      if vm'.Some? && w.value != 0 {
        CopyFrame(prog, vm'.value, ty, dst + 1, src + 1);
      }
    }
  }

  /** Commands other than call, ret, push and pop keep the stack: disciplined data writes
      leave the registers and everything above STK alone. */
  lemma DataKeepsStack(prog: seq<Command>, vm: Vm, c: Command)
    requires |vm.ram| > FRM && !(CALL <= c.cmd <= POP) && Disciplined(prog, vm, c)
    ensures var r := Exec(prog, vm, c);
      && (r.Next? ==> |r.vm.ram| == |vm.ram| && r.vm.ram[STK] == vm.ram[STK] && r.vm.ram[FRM] == vm.ram[FRM])
      && (r.Next? ==> forall a :: FRM < a < |vm.ram| && vm.ram[STK] < a ==> r.vm.ram[a] == vm.ram[a])
  {
    if c.cmd == STRCPY {
      CopyFrame(prog, vm, Arg0Type(c.flags), c.arg0, c.arg1);
    }
  }

  predicate AgreeAbove(vm: Vm, vm': Vm, bot: Word) {
    |vm'.ram| == |vm.ram| && forall a :: 0 <= a < |vm.ram| && bot < a ==> vm'.ram[a] == vm.ram[a]
  }

  predicate KeepsFrames(vm: Vm, c: Command, r: Outcome, frames: seq<Frame>, bot: Word)
    requires |vm.ram| > FRM
  {
    r.Next? ==> Framed(r.vm, After(vm, c, frames), bot) && AgreeAbove(vm, r.vm, bot)
  }

  /** call pushes a frame onto the chain. */
  lemma CallKeepsFrames(prog: seq<Command>, vm: Vm, c: Command, frames: seq<Frame>, bot: Word)
    requires c.cmd == CALL && Framed(vm, frames, bot) && Disciplined(prog, vm, c)
    ensures KeepsFrames(vm, c, Exec(prog, vm, c), frames, bot)
  {
    var r := Exec(prog, vm, c);
    if r.Next? {
      ChainAgrees(vm.ram, r.vm.ram, vm.ram[FRM], frames, bot);
      assert After(vm, c, frames)[1..] == frames;
    }
  }

  /** ret drops the chain's first frame. */
  lemma RetKeepsFrames(prog: seq<Command>, vm: Vm, c: Command, frames: seq<Frame>, bot: Word)
    requires c.cmd == RET && frames != [] && Framed(vm, frames, bot)
    ensures KeepsFrames(vm, c, Exec(prog, vm, c), frames, bot)
  {
    var r := Exec(prog, vm, c);
    ChainRises(vm.ram, vm.ram[FRM], frames, bot);
    if r.Next? {
      ChainRises(vm.ram, frames[0].frm, frames[1..], bot);
      ChainAgrees(vm.ram, r.vm.ram, frames[0].frm, frames[1..], bot);
    }
  }

  lemma PushPopKeepFrames(prog: seq<Command>, vm: Vm, c: Command, frames: seq<Frame>, bot: Word)
    requires (c.cmd == PUSH || c.cmd == POP) && Framed(vm, frames, bot) && Disciplined(prog, vm, c)
    ensures KeepsFrames(vm, c, Exec(prog, vm, c), frames, bot)
  {
    var r := Exec(prog, vm, c);
    if r.Next? {
      ChainAgrees(vm.ram, r.vm.ram, vm.ram[FRM], frames, bot);
    }
  }

  /** All other commands leave registers and chain alone. */
  lemma DataKeepsFrames(prog: seq<Command>, vm: Vm, c: Command, frames: seq<Frame>, bot: Word)
    requires !(CALL <= c.cmd <= POP) && Framed(vm, frames, bot) && Disciplined(prog, vm, c)
    ensures KeepsFrames(vm, c, Exec(prog, vm, c), frames, bot)
  {
    DataKeepsStack(prog, vm, c);
    var r := Exec(prog, vm, c);
    if r.Next? {
      ChainAgrees(vm.ram, r.vm.ram, vm.ram[FRM], frames, bot);
    }
  }

  /** Every step keeps the frame chain under the write discipline, and leaves all cells above
      the chain's bottom as they were. */
  lemma StepKeepsFrames(prog: seq<Command>, vm: Vm, frames: seq<Frame>, bot: Word)
    requires Framed(vm, frames, bot) && DoStep(prog, vm).Stepped?
    requires var c := prog[vm.ram[PC]];
      Disciplined(prog, vm, c) && (c.cmd == RET ==> frames != [])
    ensures var c, vm' := prog[vm.ram[PC]], DoStep(prog, vm).vm;
      Framed(vm', After(vm, c, frames), bot) && AgreeAbove(vm, vm', bot)
  {
    var c := prog[vm.ram[PC]];
    var r := Exec(prog, vm, c);
    if c.cmd == CALL {
      CallKeepsFrames(prog, vm, c, frames, bot);
    } else if c.cmd == RET {
      RetKeepsFrames(prog, vm, c, frames, bot);
    } else if c.cmd == PUSH || c.cmd == POP {
      PushPopKeepFrames(prog, vm, c, frames, bot);
    } else {
      DataKeepsFrames(prog, vm, c, frames, bot);
    }
    ChainAgrees(r.vm.ram, DoStep(prog, vm).vm.ram, r.vm.ram[FRM], After(vm, c, frames), bot);
  }

  // ---------- whole runs ----------

  /** n steps that all go through, each under the write discipline, with no ret beyond the
      given frames. */
  predicate DisciplinedRun(prog: seq<Command>, vm: Vm, frames: seq<Frame>, n: nat)
    decreases n
  {
    n == 0 ||
    (DoStep(prog, vm).Stepped? &&
     var c := prog[vm.ram[PC]];
     && Disciplined(prog, vm, c) && (c.cmd == RET ==> frames != [])
     && DisciplinedRun(prog, DoStep(prog, vm).vm, After(vm, c, frames), n - 1))
  }

  function FramesAfter(prog: seq<Command>, vm: Vm, frames: seq<Frame>, n: nat): seq<Frame>
    requires DisciplinedRun(prog, vm, frames, n)
    decreases n
  {
    if n == 0 then frames
    else FramesAfter(prog, DoStep(prog, vm).vm, After(vm, prog[vm.ram[PC]], frames), n - 1)
  }

  function VmAfter(prog: seq<Command>, vm: Vm, n: nat): Vm
    requires Run(prog, vm, n).Paused?
  {
    Run(prog, vm, n).vm
  }

  lemma {:induction false} DisciplinedRunPauses(prog: seq<Command>, vm: Vm, frames: seq<Frame>, n: nat)
    requires DisciplinedRun(prog, vm, frames, n)
    ensures Run(prog, vm, n).Paused?
    decreases n
  {
    if n > 0 {
      DisciplinedRunPauses(prog, DoStep(prog, vm).vm, After(vm, prog[vm.ram[PC]], frames), n - 1);
    }
  }

  /** Over every disciplined run RAM goes on representing the shadow stack of frames, and
      nothing above the bottom frame changes. */
  lemma {:induction false} RunKeepsFrames(prog: seq<Command>, vm: Vm, frames: seq<Frame>, bot: Word, n: nat)
    requires Framed(vm, frames, bot) && DisciplinedRun(prog, vm, frames, n)
    ensures Run(prog, vm, n).Paused?
    ensures Framed(VmAfter(prog, vm, n), FramesAfter(prog, vm, frames, n), bot)
    ensures AgreeAbove(vm, VmAfter(prog, vm, n), bot)
    decreases n
  {
    DisciplinedRunPauses(prog, vm, frames, n);
    if n > 0 {
      StepKeepsFrames(prog, vm, frames, bot);
      var vm' := DoStep(prog, vm).vm;
      RunKeepsFrames(prog, vm', After(vm, prog[vm.ram[PC]], frames), bot, n - 1);
    }
  }

  /** A ret at the bottom of the stack reads past the end of RAM, so it never goes through. */
  lemma RetNeedsFrame(prog: seq<Command>, vm: Vm)
    requires 0 < |vm.ram| <= MAXWORD && Framed(vm, [], |vm.ram| - 1) && DoStep(prog, vm).Stepped?
    ensures prog[vm.ram[PC]].cmd != RET
  {
  }

  /** The processor starts with an empty chain whose bottom is the last cell. */
  lemma BootIsFramed(prog: seq<Command>, memory: nat -> Word)
    requires Boot(prog, memory).Some? && prog[0].arg0 > FRM
    ensures var vm := Boot(prog, memory).value;
      |vm.ram| == prog[0].arg0 && Framed(vm, [], |vm.ram| - 1)
  {
  }

  // ---------- a call and its ret ----------

  predicate StepsTo(prog: seq<Command>, vm: Vm, op: Byte) {
    DoStep(prog, vm).Stepped? && prog[vm.ram[PC]].cmd == op
  }

  /** A call leaves the caller's PC and FRM in the two cells above a new, empty chain. */
  lemma CallPushes(prog: seq<Command>, vm: Vm, frames: seq<Frame>, top: Word)
    requires Framed(vm, frames, top) && StepsTo(prog, vm, CALL) && Disciplined(prog, vm, prog[vm.ram[PC]])
    ensures vm.ram[STK] > FRM + 1
    ensures var called, bot := DoStep(prog, vm).vm, vm.ram[STK] - 2;
      Framed(called, [], bot) && SavedAt(vm, called, bot)
  {
  }

  /** At the matching ret the registers come back from the cells above the bottom frame. */
  lemma RetRestores(prog: seq<Command>, vm: Vm, bot: Word)
    requires Framed(vm, [], bot) && StepsTo(prog, vm, RET)
    ensures var back := DoStep(prog, vm).vm;
      && bot + 2 < |vm.ram| == |back.ram| && AgreeAbove(vm, back, bot)
      && back.ram[STK] == bot + 2 && back.ram[FRM] == vm.ram[bot + 1]
      && back.ram[PC] as int == vm.ram[bot + 2] as int + 1
  {
  }

  /** The run from a call to its matching ret: m disciplined steps in between, whose own
      calls have all returned. */
  predicate CallAndReturn(prog: seq<Command>, vm: Vm, m: nat) {
    && |vm.ram| > FRM && StepsTo(prog, vm, CALL) && Disciplined(prog, vm, prog[vm.ram[PC]])
    && var called := DoStep(prog, vm).vm;
    && DisciplinedRun(prog, called, [], m) && FramesAfter(prog, called, [], m) == []
    && Run(prog, called, m).Paused? && StepsTo(prog, VmAfter(prog, called, m), RET)
  }

  /** Back at the command after the call with STK and FRM restored, the caller's stack cells
      unchanged and its frames intact. */
  predicate Resumed(vm: Vm, back: Vm, frames: seq<Frame>, top: Word)
    requires |vm.ram| > FRM
  {
    && AgreeAbove(vm, back, vm.ram[STK]) && Framed(back, frames, top)
    && back.ram[PC] as int == vm.ram[PC] as int + 1
    && back.ram[STK] == vm.ram[STK] && back.ram[FRM] == vm.ram[FRM]
  }

  lemma {:induction false} RunSplits(prog: seq<Command>, vm: Vm, m: nat, n: nat)
    requires Run(prog, vm, m).Paused?
    ensures Run(prog, vm, m + n) == Run(prog, VmAfter(prog, vm, m), n)
    decreases m
  {
    if m > 0 {
      RunSplits(prog, DoStep(prog, vm).vm, m - 1, n);
    }
  }

  function Returned(prog: seq<Command>, vm: Vm, m: nat): Vm
    requires CallAndReturn(prog, vm, m)
  {
    DoStep(prog, VmAfter(prog, DoStep(prog, vm).vm, m)).vm
  }

  lemma ReturnedIsRun(prog: seq<Command>, vm: Vm, m: nat)
    requires CallAndReturn(prog, vm, m)
    ensures Run(prog, vm, m + 2) == Paused(Returned(prog, vm, m))
  {
    var called := DoStep(prog, vm).vm;
    RunSplits(prog, called, m, 1);
    assert Run(prog, VmAfter(prog, called, m), 1) == Paused(Returned(prog, vm, m));
  }

  /** vm: before the call; called, done, back: after it, before the ret, after it. What the
      body may not touch carries the caller through. */
  predicate CarriesCaller(vm: Vm, called: Vm, done: Vm, back: Vm)
    requires |vm.ram| > FRM
  {
    var stk := vm.ram[STK];
    && FRM + 1 < stk < |vm.ram| == |called.ram| == |done.ram| == |back.ram|
    && AgreeAbove(vm, called, stk) && AgreeAbove(called, done, stk - 2) && AgreeAbove(done, back, stk - 2)
    && called.ram[stk - 1] == vm.ram[FRM] && called.ram[stk] == vm.ram[PC]
    && back.ram[STK] == stk && back.ram[FRM] == done.ram[stk - 1]
    && back.ram[PC] as int == done.ram[stk] as int + 1
  }

  lemma Resumes(vm: Vm, called: Vm, done: Vm, back: Vm, frames: seq<Frame>, top: Word)
    requires Framed(vm, frames, top) && CarriesCaller(vm, called, done, back)
    ensures Resumed(vm, back, frames, top)
  {
    ChainAgrees(vm.ram, back.ram, vm.ram[FRM], frames, top);
  }

  /** The caller's PC and FRM sit in the two cells above bot. */
  predicate SavedAt(vm: Vm, called: Vm, bot: Word)
    requires |vm.ram| > FRM
  {
    && FRM <= bot && bot + 2 < |vm.ram| && vm.ram[STK] == bot + 2
    && AgreeAbove(vm, called, bot + 2)
    && called.ram[bot + 1] == vm.ram[FRM] && called.ram[bot + 2] == vm.ram[PC]
  }

  lemma BodyCarries(prog: seq<Command>, vm: Vm, called: Vm, m: nat, bot: Word)
    requires |vm.ram| > FRM && SavedAt(vm, called, bot)
    requires Framed(called, [], bot) && DisciplinedRun(prog, called, [], m)
    requires FramesAfter(prog, called, [], m) == []
    requires Run(prog, called, m).Paused? && StepsTo(prog, VmAfter(prog, called, m), RET)
    ensures var done := VmAfter(prog, called, m);
      CarriesCaller(vm, called, done, DoStep(prog, done).vm)
  {
    RunKeepsFrames(prog, called, [], bot, m);
    RetRestores(prog, VmAfter(prog, called, m), bot);
  }

  /** Any run from a call to its matching ret, with any depth of inner calls and any pushes
      left unpopped in the body, resumes the caller. */
  lemma CallReturns(prog: seq<Command>, vm: Vm, frames: seq<Frame>, top: Word, m: nat)
    requires Framed(vm, frames, top) && CallAndReturn(prog, vm, m)
    ensures Run(prog, vm, m + 2).Paused? && Resumed(vm, VmAfter(prog, vm, m + 2), frames, top)
  {
    var called, back := DoStep(prog, vm).vm, Returned(prog, vm, m);
    var done := VmAfter(prog, called, m);
    assert SavedAt(vm, called, vm.ram[STK] - 2) && Framed(called, [], vm.ram[STK] - 2) by {
      CallPushes(prog, vm, frames, top);
    }
    assert CarriesCaller(vm, called, done, back) by {
      BodyCarries(prog, vm, called, m, vm.ram[STK] - 2);
    }
    assert Resumed(vm, back, frames, top) by {
      Resumes(vm, called, done, back, frames, top);
    }
    ReturnedIsRun(prog, vm, m);
  }
}
