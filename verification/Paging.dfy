/** The step loop of chip32_run as it fetches: one page of the program is cached, and the
    loop indexes the cache. Compared with the loop over the whole program. */
module Paging {
  import opened Bits
  import opened Machine
  import opened CommandFile

  /** Which of the code's two departures are in force: `rawIndex`, where a reload asks for
      the command with the page's number and the fetch uses pc itself as the index into the
      page, and `liveOperands`, where logs and strcpy advance the cached operands. */
  datatype Form = Form(rawIndex: bool, liveOperands: bool)

  const WRITTEN := Form(true, true)
  const CORRECTED := Form(false, false)

  /** The processor with the commands its page holds and the number of that page. */
  datatype Paged = Paged(vm: Vm, page: seq<Command>, current: nat)

  /** What page_load delivers from command addr. */
  function Slice(prog: seq<Command>, addr: nat, size: nat): (s: seq<Command>)
    ensures |s| == Available(|prog|, addr, size)
  {
    if addr >= |prog| then [] else prog[addr..addr + Min(size, |prog| - addr)]
  }

  function Dropped(prog: seq<Command>, n: nat): seq<Command> {
    if n >= |prog| then [] else prog[n..]
  }

  /** The program cut into pages of `size`; the last one may be shorter. */
  function PageOf(prog: seq<Command>, number: nat, size: nat): seq<Command>
    decreases number
  {
    if number == 0 then Slice(prog, 0, size) else PageOf(Dropped(prog, size), number - 1, size)
  }

  /** The address of the first command of page `number`. */
  function PageStart(number: nat, size: nat): nat {
    if number == 0 then 0 else size + PageStart(number - 1, size)
  }

  /** An address is its page's start and its offset there. */
  lemma {:induction false} AddressSplits(pc: nat, size: nat)
    requires size > 0
    ensures pc == PageStart(Div(pc, size), size) + Mod(pc, size)
  {
    if pc >= size {
      AddressSplits(pc - size, size);
    }
  }

  lemma {:induction false} PageOfIsSlice(prog: seq<Command>, number: nat, size: nat)
    ensures PageOf(prog, number, size) == Slice(prog, PageStart(number, size), size)
    decreases number
  {
    if number > 0 {
      PageOfIsSlice(Dropped(prog, size), number - 1, size);
      SliceOfDropped(prog, PageStart(number - 1, size), size);
    }
  }

  lemma SliceOfDropped(prog: seq<Command>, addr: nat, size: nat)
    ensures Slice(Dropped(prog, size), addr, size) == Slice(prog, addr + size, size)
  {
  }

  /** The reload that happens when pc is on another page. */
  function Turned(prog: seq<Command>, p: Paged, size: nat, form: Form, number: nat): Paged {
    if number == p.current then p
    else p.(page := if form.rawIndex then Slice(prog, number, size) else PageOf(prog, number, size), current := number)
  }

  /** What the loop finds at PC: its end, a read outside the page, or the command at an
      index of the page it now holds. */
  datatype Fetched = End(p: Paged) | Outside | At(p: Paged, index: nat)

  function Fetch(prog: seq<Command>, p: Paged, size: nat, form: Form): (f: Fetched)
    requires size > 0 && |p.vm.ram| > FRM && p.vm.ram[PC] >= 0
    ensures f.At? ==> f.index < |f.p.page| && f.p.vm == p.vm
    ensures f.End? ==> f.p.vm == p.vm
  {
    var pc := p.vm.ram[PC];
    var t := Turned(prog, p, size, form, Div(pc, size));
    var index := if form.rawIndex then pc else Mod(pc, size);
    if Mod(pc, size) >= |t.page| then End(t)
    else if index >= |t.page| then Outside
    else At(t, index)
  }

  datatype PagedStep = PStopped(p: Paged) | PBroken | PStepped(p: Paged)

  /** The handler runs on the cached command, which it may advance. */
  function Dispatch(prog: seq<Command>, p: Paged, index: nat, form: Form): PagedStep
    requires |p.vm.ram| > FRM && index < |p.page|
  {
    var c := p.page[index];
    match Perform(prog, p.vm, c)
    case Stepped(vm) =>
      PStepped(Paged(vm, if form.liveOperands then p.page[index := Exec(prog, p.vm, c).cmd] else p.page, p.current))
    case _ => PBroken
  }

  function PStep(prog: seq<Command>, p: Paged, size: nat, form: Form): PagedStep
    requires size > 0
  {
    if p.vm.status != Running then PStopped(p)
    else if |p.vm.ram| <= FRM || p.vm.ram[PC] < 0 then PBroken
    else
      match Fetch(prog, p, size, form)
      case End(t) => PStopped(t)
      case Outside => PBroken
      case At(t, index) => Dispatch(prog, t, index, form)
  }

  datatype PagedRun = PHalt(p: Paged) | PCrash | PPaused(p: Paged)

  function PRun(prog: seq<Command>, p: Paged, size: nat, form: Form, n: nat): PagedRun
    requires size > 0
    decreases n
  {
    if n == 0 then PPaused(p)
    else
      match PStep(prog, p, size, form)
      case PStopped(q) => PHalt(q)
      case PBroken => PCrash
      case PStepped(q) => PRun(prog, q, size, form, n - 1)
  }

  lemma PRunUnfolds(prog: seq<Command>, p: Paged, size: nat, form: Form, n: nat)
    requires size > 0 && n > 0
    ensures PRun(prog, p, size, form, n) ==
            match PStep(prog, p, size, form)
            case PStopped(q) => PHalt(q)
            case PBroken => PCrash
            case PStepped(q) => PRun(prog, q, size, form, n - 1)
  {
  }

  /** The start of chip32_run: page 0 is loaded and its initr executed. */
  function PBoot(prog: seq<Command>, size: nat, memory: nat -> Word): Option<Paged>
    requires size > 0
  {
    var vm := Boot(prog, memory);
    if vm.None? then None else Some(Paged(vm.value, Slice(prog, 0, size), 0))
  }

  /** The same result, up to the cache. */
  predicate SameStep(f: Step, s: PagedStep, p: Paged) {
    match s
    case PStopped(q) => f.Stopped? && q.vm == p.vm
    case PBroken => f.Broken?
    case PStepped(q) => f == Stepped(q.vm)
  }

  predicate SameRun(f: RunResult, r: PagedRun) {
    match r
    case PHalt(q) => f == Halt(q.vm)
    case PCrash => f == Crash
    case PPaused(q) => f == Paused(q.vm)
  }

  /** Equal steps and equal remaining runs make equal runs. */
  lemma StepThenRun(prog: seq<Command>, p: Paged, size: nat, form: Form, n: nat, f: Step, s: PagedStep)
    requires size > 0 && n > 0 && f == DoStep(prog, p.vm) && s == PStep(prog, p, size, form) && SameStep(f, s, p)
    requires s.PStepped? ==> SameRun(Run(prog, s.p.vm, n - 1), PRun(prog, s.p, size, form, n - 1))
    ensures SameRun(Run(prog, p.vm, n), PRun(prog, p, size, form, n))
  {
    PRunUnfolds(prog, p, size, form, n);
  }

  // ---------- the corrected fetch ----------

  /** The cached page is the program's page of the current number. */
  predicate Cached(prog: seq<Command>, p: Paged, size: nat) {
    var page := PageOf(prog, p.current, size);
    |p.page| == |page| && forall i :: 0 <= i < |page| ==> p.page[i] == page[i]
  }

  lemma TurnedIsCached(prog: seq<Command>, p: Paged, size: nat, number: nat)
    requires Cached(prog, p, size)
    ensures var t := Turned(prog, p, size, CORRECTED, number);
      && Cached(prog, t, size) && t.current == number && t.vm == p.vm
      && t.page == Slice(prog, PageStart(number, size), size)
  {
    PageOfIsSlice(prog, number, size);
    assert Turned(prog, p, size, CORRECTED, number).page == PageOf(prog, number, size);
  }

  lemma CorrectedFetch(prog: seq<Command>, p: Paged, size: nat)
    requires size > 0 && Cached(prog, p, size) && |p.vm.ram| > FRM && p.vm.ram[PC] >= 0
    ensures var pc, f := p.vm.ram[PC], Fetch(prog, p, size, CORRECTED);
      && (pc >= |prog| ==> f.End?)
      && (pc < |prog| ==> f.At? && f.p.page[f.index] == prog[pc] && Cached(prog, f.p, size))
  {
    var pc := p.vm.ram[PC];
    var number, offset := Div(pc, size), Mod(pc, size);
    var t := Turned(prog, p, size, CORRECTED, number);
    AddressSplits(pc, size);
    TurnedIsCached(prog, p, size, number);
    FetchTurned(prog, p, size, t, number, offset);
    OffsetInSlice(prog, t, size, PageStart(number, size), pc, offset);
  }

  lemma OffsetInSlice(prog: seq<Command>, t: Paged, size: nat, start: nat, pc: nat, offset: nat)
    requires t.page == Slice(prog, start, size) && pc == start + offset && offset < size
    ensures offset < |t.page| <==> pc < |prog|
    ensures pc < |prog| ==> t.page[offset] == prog[pc]
  {
  }

  lemma FetchTurned(prog: seq<Command>, p: Paged, size: nat, t: Paged, number: nat, offset: nat)
    requires size > 0 && |p.vm.ram| > FRM && p.vm.ram[PC] >= 0
    requires number == Div(p.vm.ram[PC], size) && offset == Mod(p.vm.ram[PC], size)
    requires t == Turned(prog, p, size, CORRECTED, number)
    ensures Fetch(prog, p, size, CORRECTED) == if offset >= |t.page| then End(t) else At(t, offset)
  {
  }

  /** One corrected paged step is one step over the whole program, and keeps the page equal to
      its slice. */
  lemma CorrectedStep(prog: seq<Command>, p: Paged, size: nat)
    requires size > 0 && Cached(prog, p, size)
    ensures SameStep(DoStep(prog, p.vm), PStep(prog, p, size, CORRECTED), p)
    ensures var s := PStep(prog, p, size, CORRECTED);
      s.PStepped? ==> Cached(prog, s.p, size)
  {
    if |p.vm.ram| > FRM && p.vm.ram[PC] >= 0 {
      CorrectedFetch(prog, p, size);
    }
  }

  // Both loops again with the step as a parameter, so that a simulation between steps can be
  // carried through runs without looking into the steps.

  function RunBy(step: Vm -> Step, vm: Vm, n: nat): RunResult
    decreases n
  {
    if n == 0 then Paused(vm)
    else
      match step(vm)
      case Stopped => Halt(vm)
      case Broken => Crash
      case Stepped(vm') => RunBy(step, vm', n - 1)
  }

  function PRunBy(step: Paged -> PagedStep, p: Paged, n: nat): PagedRun
    decreases n
  {
    if n == 0 then PPaused(p)
    else
      match step(p)
      case PStopped(q) => PHalt(q)
      case PBroken => PCrash
      case PStepped(q) => PRunBy(step, q, n - 1)
  }

  lemma {:induction false} RunIsRunBy(prog: seq<Command>, vm: Vm, n: nat)
    ensures Run(prog, vm, n) == RunBy(v => DoStep(prog, v), vm, n)
    decreases n
  {
    if n > 0 && DoStep(prog, vm).Stepped? {
      RunIsRunBy(prog, DoStep(prog, vm).vm, n - 1);
    }
  }

  lemma {:induction false} PRunIsPRunBy(prog: seq<Command>, p: Paged, size: nat, form: Form, n: nat)
    requires size > 0
    ensures PRun(prog, p, size, form, n) == PRunBy(q => PStep(prog, q, size, form), p, n)
    decreases n
  {
    if n > 0 && PStep(prog, p, size, form).PStepped? {
      PRunIsPRunBy(prog, PStep(prog, p, size, form).p, size, form, n - 1);
    }
  }

  /** A property of the paged processor that makes its steps flat, and survives them, makes
      its runs flat. */
  lemma {:induction false} Simulation(flat: Vm -> Step, paged: Paged -> PagedStep, inv: Paged -> bool, p: Paged, n: nat)
    requires inv(p)
    requires forall q {:trigger paged(q)} :: inv(q) ==>
               SameStep(flat(q.vm), paged(q), q) && (paged(q).PStepped? ==> inv(paged(q).p))
    ensures SameRun(RunBy(flat, p.vm, n), PRunBy(paged, p, n))
    decreases n
  {
    if n > 0 && paged(p).PStepped? {
      Simulation(flat, paged, inv, paged(p).p, n - 1);
    }
  }

  /** Paged execution refines flat execution: RAM, log and stopping point of every run are
      those of the interpreter over the whole program. */
  lemma CorrectedRun(prog: seq<Command>, p: Paged, size: nat, n: nat)
    requires size > 0 && Cached(prog, p, size)
    ensures SameRun(Run(prog, p.vm, n), PRun(prog, p, size, CORRECTED, n))
  {
    var flat := v => DoStep(prog, v);
    var paged := q => PStep(prog, q, size, CORRECTED);
    var inv := q => Cached(prog, q, size);
    forall q | inv(q)
      ensures SameStep(flat(q.vm), paged(q), q) && (paged(q).PStepped? ==> inv(paged(q).p))
    {
      CorrectedStep(prog, q, size);
    }
    Simulation(flat, paged, inv, p, n);
    RunIsRunBy(prog, p.vm, n);
    PRunIsPRunBy(prog, p, size, CORRECTED, n);
  }

  /** So the page size does not matter. */
  lemma PageSizeIrrelevant(prog: seq<Command>, memory: nat -> Word, size1: nat, size2: nat, n: nat)
    requires size1 > 0 && size2 > 0 && Boot(prog, memory).Some?
    ensures var f := Run(prog, Boot(prog, memory).value, n);
      && SameRun(f, PRun(prog, PBoot(prog, size1, memory).value, size1, CORRECTED, n))
      && SameRun(f, PRun(prog, PBoot(prog, size2, memory).value, size2, CORRECTED, n))
  {
    CorrectedRun(prog, PBoot(prog, size1, memory).value, size1, n);
    CorrectedRun(prog, PBoot(prog, size2, memory).value, size2, n);
  }

  // ---------- the fetch as written ----------

  /** Whether the loop as written ends at pc: after a reload from the page's number. */
  predicate RawStops(total: nat, pc: nat, size: nat)
    requires size > 0
  {
    Mod(pc, size) >= Available(total, if pc < size then 0 else Div(pc, size), size)
  }

  lemma RawFetch(prog: seq<Command>, p: Paged, size: nat)
    requires size > 0 && p.current == 0 && p.page == Slice(prog, 0, size)
    requires |p.vm.ram| > FRM && p.vm.ram[PC] >= 0
    ensures var pc, f := p.vm.ram[PC], Fetch(prog, p, size, Form(true, false));
      && (RawStops(|prog|, pc, size) <==> f.End?)
      && (pc < size && pc < |prog| ==> f.At? && f.p.page[f.index] == prog[pc])
      && (pc < size && pc >= |prog| ==> f.End?)
      && (pc >= size ==> !f.At?)
  {
    var pc := p.vm.ram[PC];
    PageNumber(pc, size);
  }

  lemma PageNumber(pc: nat, size: nat)
    requires size > 0
    ensures pc < size ==> Div(pc, size) == 0 && Mod(pc, size) == pc
    ensures pc >= size ==> Div(pc, size) >= 1
  {
  }

  /** With page 0 cached, the raw indices give the flat step exactly when pc is on page 0, or
      both loops end there; past page 0 the fetch otherwise leaves the page. */
  lemma RawStepIff(prog: seq<Command>, p: Paged, size: nat)
    requires size > 0 && p.current == 0 && p.page == Slice(prog, 0, size)
    requires p.vm.status == Running && |p.vm.ram| > FRM && p.vm.ram[PC] >= 0 && !DoStep(prog, p.vm).Broken?
    ensures SameStep(DoStep(prog, p.vm), PStep(prog, p, size, Form(true, false)), p)
       <==> p.vm.ram[PC] < size || (RawStops(|prog|, p.vm.ram[PC], size) && |prog| <= p.vm.ram[PC])
  {
    RawFetch(prog, p, size);
  }

  /** A program that exactly fills its page ends, yet as written running off its last command
      reads past the page. */
  lemma FullPageFallsOff(prog: seq<Command>, p: Paged, size: nat)
    requires size > 1 && |prog| == size && p.current == 0 && p.page == Slice(prog, 0, size)
    requires p.vm.status == Running && |p.vm.ram| > FRM && p.vm.ram[PC] == size
    ensures DoStep(prog, p.vm) == Stopped && PStep(prog, p, size, WRITTEN) == PBroken
  {
    assert Div(size, size) == 1 && Mod(size, size) == 0;
  }

  // ---------- cached operands as written ----------

  predicate Advances(op: Byte) {
    op == LOGS || op == STRCPY
  }

  /** The page still has the program's commands except where one already advanced itself. */
  predicate CachedBut(prog: seq<Command>, p: Paged, size: nat, used: set<int>) {
    && p.current == 0 && |p.page| == Available(|prog|, 0, size)
    && forall i :: 0 <= i < |p.page| && i !in used ==> p.page[i] == prog[i]
  }

  /** The command at PC is on page 0 and has not advanced its operands before. */
  predicate OnPage(vm: Vm, size: nat, used: set<int>) {
    vm.status == Running && |vm.ram| > FRM ==> vm.ram[PC] < size && vm.ram[PC] !in used
  }

  function UsedAfter(prog: seq<Command>, vm: Vm, used: set<int>): set<int>
    requires DoStep(prog, vm).Stepped?
  {
    if Advances(prog[vm.ram[PC]].cmd) then used + {vm.ram[PC] as int} else used
  }

  /** The flat run stays on page 0 and executes no logs and no strcpy twice. */
  predicate OnceRun(prog: seq<Command>, vm: Vm, size: nat, used: set<int>, n: nat)
    decreases n
  {
    n == 0 ||
    (OnPage(vm, size, used) &&
     (DoStep(prog, vm).Stepped? ==> OnceRun(prog, DoStep(prog, vm).vm, size, UsedAfter(prog, vm, used), n - 1)))
  }

  lemma OnlyTwoAdvance(prog: seq<Command>, vm: Vm, c: Command)
    requires |vm.ram| > FRM
    ensures var r := Exec(prog, vm, c);
      r.Next? && !Advances(c.cmd) ==> r.cmd == c
  {
  }

  lemma OnceStep(prog: seq<Command>, p: Paged, size: nat, used: set<int>)
    requires size > 0 && CachedBut(prog, p, size, used) && OnPage(p.vm, size, used)
    ensures var f, s := DoStep(prog, p.vm), PStep(prog, p, size, WRITTEN);
      && SameStep(f, s, p)
      && (f.Stepped? ==> CachedBut(prog, s.p, size, UsedAfter(prog, p.vm, used)))
  {
    if p.vm.status == Running && |p.vm.ram| > FRM && p.vm.ram[PC] >= 0 {
      var pc := p.vm.ram[PC];
      PageNumber(pc, size);
      if pc < |prog| {
        OnlyTwoAdvance(prog, p.vm, prog[pc]);
      }
    }
  }

  /** The loop exactly as written agrees with flat execution on every run that stays on the
      first page and repeats no logs or strcpy. */
  lemma {:induction false} WrittenRun(prog: seq<Command>, p: Paged, size: nat, used: set<int>, n: nat)
    requires size > 0 && CachedBut(prog, p, size, used) && OnceRun(prog, p.vm, size, used, n)
    ensures SameRun(Run(prog, p.vm, n), PRun(prog, p, size, WRITTEN, n))
    decreases n
  {
    if n > 0 {
      OnceStep(prog, p, size, used);
      var f, s := DoStep(prog, p.vm), PStep(prog, p, size, WRITTEN);
      if s.PStepped? {
        WrittenRun(prog, s.p, size, UsedAfter(prog, p.vm, used), n - 1);
      }
      StepThenRun(prog, p, size, WRITTEN, n, f, s);
    }
  }
}
