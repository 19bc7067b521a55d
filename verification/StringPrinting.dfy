/** Running the programs of StringPrograms: what the initialising moves leave in RAM, and what
    logs and logln print. Ends with the way of such a program from its source text to its
    output. */
module StringPrinting {
  import opened Bits
  import opened Machine
  import opened CommandFile
  import opened Paging
  import opened Parser
  import opened StringPrograms

  // ---------- straight runs ----------

  /** State i steps to state i + 1 and to the next command. */
  predicate Follows(prog: seq<Command>, ss: seq<Vm>, i: int)
    requires 0 <= i < |ss| - 1
  {
    DoStep(prog, ss[i]) == Stepped(ss[i + 1]) && ss[i + 1].ram[PC] == ss[i].ram[PC] as int + 1
  }

  predicate Trace(prog: seq<Command>, ss: seq<Vm>) {
    ss != [] && forall i {:trigger Follows(prog, ss, i)} :: 0 <= i < |ss| - 1 ==> Follows(prog, ss, i)
  }

  /** m steps without a jump lead from a to b. */
  ghost predicate Straight(prog: seq<Command>, a: Vm, m: nat, b: Vm) {
    exists ss: seq<Vm> :: Trace(prog, ss) && |ss| == m + 1 && ss[0] == a && ss[m] == b
  }

  lemma StraightNone(prog: seq<Command>, a: Vm)
    ensures Straight(prog, a, 0, a)
  {
    assert Trace(prog, [a]);
  }

  lemma StraightOne(prog: seq<Command>, a: Vm, b: Vm)
    requires DoStep(prog, a) == Stepped(b) && b.ram[PC] == a.ram[PC] as int + 1
    ensures Straight(prog, a, 1, b)
  {
    var ss := [a, b];
    assert Follows(prog, ss, 0);
    assert Trace(prog, ss);
  }

  lemma StraightJoin(prog: seq<Command>, a: Vm, m: nat, b: Vm, n: nat, c: Vm)
    requires Straight(prog, a, m, b) && Straight(prog, b, n, c)
    ensures Straight(prog, a, m + n, c)
  {
    var s :| Trace(prog, s) && |s| == m + 1 && s[0] == a && s[m] == b;
    var t :| Trace(prog, t) && |t| == n + 1 && t[0] == b && t[n] == c;
    var _ := JoinedTrace(prog, s, t);
  }

  lemma JoinedTrace(prog: seq<Command>, s: seq<Vm>, t: seq<Vm>) returns (ss: seq<Vm>)
    requires Trace(prog, s) && Trace(prog, t) && s[|s| - 1] == t[0]
    ensures Trace(prog, ss) && |ss| == |s| + |t| - 1 && ss[0] == s[0] && ss[|ss| - 1] == t[|t| - 1]
  {
    var m := |s| - 1;
    ss := s + t[1..];
    forall i | 0 <= i < |ss| - 1
      ensures Follows(prog, ss, i)
    {
      if i < m {
        SameFollows(prog, s, i, ss, i);
      } else {
        SameFollows(prog, t, i - m, ss, i);
      }
    }
  }

  lemma SameFollows(prog: seq<Command>, s: seq<Vm>, i: nat, t: seq<Vm>, j: nat)
    requires i + 1 < |s| && j + 1 < |t| && s[i] == t[j] && s[i + 1] == t[j + 1] && Trace(prog, s)
    ensures Follows(prog, t, j)
  {
    assert Follows(prog, s, i);
  }

  lemma {:induction false} TraceHalts(step: Vm -> Step, ss: seq<Vm>, i: nat, n: nat)
    requires i < |ss| && |ss| - 1 - i < n && step(ss[|ss| - 1]) == Stopped
    requires forall k :: 0 <= k < |ss| - 1 ==> step(ss[k]) == Stepped(ss[k + 1])
    ensures RunBy(step, ss[i], n) == Halt(ss[|ss| - 1])
    decreases n
  {
    if i < |ss| - 1 {
      TraceHalts(step, ss, i + 1, n - 1);
    }
  }

  lemma StraightHalts(prog: seq<Command>, a: Vm, m: nat, b: Vm, n: nat)
    requires Straight(prog, a, m, b) && DoStep(prog, b) == Stopped && m < n
    ensures Run(prog, a, n) == Halt(b)
  {
    var ss :| Trace(prog, ss) && |ss| == m + 1 && ss[0] == a && ss[m] == b;
    var step := v => DoStep(prog, v);
    forall k | 0 <= k < |ss| - 1
      ensures step(ss[k]) == Stepped(ss[k + 1])
    {
      assert Follows(prog, ss, k);
    }
    TraceHalts(step, ss, 0, n);
    RunIsRunBy(prog, a, n);
  }

  function After(prog: seq<Command>, vm: Vm, used: set<int>): set<int> {
    if DoStep(prog, vm).Stepped? then UsedAfter(prog, vm, used) else used
  }

  /** OnceRun with the step and what it uses as parameters. */
  predicate OnceBy(step: Vm -> Step, after: (Vm, set<int>) -> set<int>, vm: Vm, size: nat, used: set<int>, n: nat)
    decreases n
  {
    n == 0 ||
    (OnPage(vm, size, used) &&
     (step(vm).Stepped? ==> OnceBy(step, after, step(vm).vm, size, after(vm, used), n - 1)))
  }

  lemma {:induction false} OnceIsBy(prog: seq<Command>, vm: Vm, size: nat, used: set<int>, n: nat)
    ensures OnceRun(prog, vm, size, used, n)
       <==> OnceBy(v => DoStep(prog, v), (v, u) => After(prog, v, u), vm, size, used, n)
    decreases n
  {
    if n > 0 && DoStep(prog, vm).Stepped? {
      OnceIsBy(prog, DoStep(prog, vm).vm, size, After(prog, vm, used), n - 1);
    }
  }

  /** PC rises along the trace and stays on the page. */
  predicate Rises(ss: seq<Vm>, size: nat) {
    && (forall k :: 0 <= k < |ss| ==> |ss[k].ram| > FRM && ss[k].ram[PC] < size)
    && (forall k :: 0 <= k < |ss| - 1 ==> ss[k + 1].ram[PC] > ss[k].ram[PC])
  }

  lemma {:induction false} TraceOnce(step: Vm -> Step, after: (Vm, set<int>) -> set<int>, ss: seq<Vm>, i: nat,
                                     size: nat, used: set<int>, n: nat)
    requires i < |ss| && Rises(ss, size) && step(ss[|ss| - 1]) == Stopped && forall u :: u in used ==> u < ss[i].ram[PC]
    requires forall k :: 0 <= k < |ss| - 1 ==> step(ss[k]) == Stepped(ss[k + 1])
    requires forall k, u {:trigger after(ss[k], u)} :: 0 <= k < |ss| - 1 ==>
        after(ss[k], u) <= u + {ss[k].ram[PC] as int}
    ensures OnceBy(step, after, ss[i], size, used, n)
    decreases n
  {
    if n > 0 && i < |ss| - 1 {
      TraceOnce(step, after, ss, i + 1, size, after(ss[i], used), n - 1);
    }
  }

  /** A straight run that ends behind the program stays on a longer page and executes no
      command twice. */
  lemma StraightOnce(prog: seq<Command>, a: Vm, m: nat, b: Vm, size: nat, n: nat)
    requires Straight(prog, a, m, b) && DoStep(prog, b) == Stopped && |prog| < size
    requires |b.ram| > FRM && b.ram[PC] <= |prog|
    ensures OnceRun(prog, a, size, {}, n)
  {
    var ss: seq<Vm> :| Trace(prog, ss) && |ss| == m + 1 && ss[0] == a && ss[m] == b;
    var step := (v: Vm) => DoStep(prog, v);
    var after := (v: Vm, u: set<int>) => After(prog, v, u);
    forall k | 0 <= k < |ss| - 1
      ensures step(ss[k]) == Stepped(ss[k + 1]) && |ss[k].ram| > FRM && ss[k].ram[PC] < size
      ensures ss[k + 1].ram[PC] > ss[k].ram[PC]
    {
      assert Follows(prog, ss, k);
    }
    TraceOnce(step, after, ss, 0, size, {}, n);
    OnceIsBy(prog, a, size, {}, n);
  }

  // ---------- the initialising moves ----------

  /** The processor runs and is about to execute command k. */
  predicate Poised(prog: seq<Command>, vm: Vm, k: nat) {
    vm.status == Running && |vm.ram| > FRM && vm.ram[PC] == k && |prog| <= MAXWORD
  }

  /** The commands cs stand in the program from k on. */
  predicate CodeAt(prog: seq<Command>, k: nat, cs: seq<Command>) {
    k + |cs| <= |prog| && forall i :: 0 <= i < |cs| ==> prog[k + i] == cs[i]
  }

  lemma CodeSplit(prog: seq<Command>, k: nat, a: seq<Command>, b: seq<Command>)
    requires CodeAt(prog, k, a + b)
    ensures CodeAt(prog, k, a) && CodeAt(prog, k + |a|, b)
  {
    forall i | 0 <= i < |a|
      ensures prog[k + i] == a[i]
    {
      assert (a + b)[i] == a[i];
    }
    forall i | 0 <= i < |b|
      ensures prog[k + |a| + i] == b[i]
    {
      assert (a + b)[|a| + i] == b[i];
    }
  }

  /** A string and its terminator lie in RAM from addr on. */
  predicate TextAt(ram: seq<Word>, addr: nat, text: string) {
    && addr + |text| < |ram| && ram[addr + |text|] == 0
    && forall i :: 0 <= i < |text| ==> ram[addr + i] == CharWord(text[i])
  }

  /** Only PC and the cells from lo up to hi may differ. */
  predicate SameBut(a: seq<Word>, b: seq<Word>, lo: nat, hi: nat) {
    |a| == |b| && forall j :: 0 <= j < |a| && j != PC && !(lo <= j < hi) ==> a[j] == b[j]
  }

  function Stored(vm: Vm, addr: nat, w: Word, k: nat): Vm
    requires |vm.ram| > FRM && addr < |vm.ram| && k < MAXWORD
  {
    vm.(ram := vm.ram[addr := w][PC := k + 1])
  }

  lemma StoreStep(prog: seq<Command>, vm: Vm, k: nat, addr: nat, w: Word)
    requires Poised(prog, vm, k) && k < |prog| && prog[k] == InitMove(addr, w)
    requires START_ADDR <= addr < |vm.ram| && addr <= MAXWORD
    ensures DoStep(prog, vm) == Stepped(Stored(vm, addr, w, k))
  {
  }

  /** These words lie in RAM from addr on. */
  predicate BlockAt(ram: seq<Word>, addr: nat, ws: seq<Word>) {
    addr + |ws| <= |ram| && forall i :: 0 <= i < |ws| ==> ram[addr + i] == ws[i]
  }

  /** The moves that put them there. */
  function Stores(addr: nat, ws: seq<Word>): (cs: seq<Command>)
    ensures |cs| == |ws|
  {
    seq(|ws|, i requires 0 <= i < |ws| => InitMove(addr + i, ws[i]))
  }

  /** A straight run from command k on has filled the block and touched nothing else. */
  ghost predicate Filled(prog: seq<Command>, vm: Vm, k: nat, addr: nat, ws: seq<Word>, vm': Vm) {
    && Straight(prog, vm, |ws|, vm') && Poised(prog, vm', k + |ws|)
    && BlockAt(vm'.ram, addr, ws) && SameBut(vm.ram, vm'.ram, addr, addr + |ws|) && vm'.out == vm.out
  }

  lemma FilledMore(prog: seq<Command>, vm: Vm, k: nat, addr: nat, ws: seq<Word>, vm1: Vm, vm': Vm)
    requires ws != [] && Poised(prog, vm, k) && START_ADDR <= addr < |vm.ram| && k < MAXWORD
    requires vm1 == Stored(vm, addr, ws[0], k) && DoStep(prog, vm) == Stepped(vm1)
    requires Filled(prog, vm1, k + 1, addr + 1, ws[1..], vm')
    ensures Filled(prog, vm, k, addr, ws, vm')
  {
    assert Straight(prog, vm, |ws|, vm') by {
      StraightOne(prog, vm, vm1);
      StraightJoin(prog, vm, 1, vm1, |ws| - 1, vm');
    }
    assert forall i :: 1 <= i < |ws| ==> ws[i] == ws[1..][i - 1];
  }

  lemma {:induction false} StoresRun(prog: seq<Command>, vm: Vm, k: nat, addr: nat, ws: seq<Word>) returns (vm': Vm)
    requires Poised(prog, vm, k) && CodeAt(prog, k, Stores(addr, ws))
    requires START_ADDR <= addr && addr + |ws| <= |vm.ram| && addr + |ws| <= MAXWORD
    ensures Filled(prog, vm, k, addr, ws, vm')
    decreases |ws|
  {
    if ws == [] {
      vm' := vm;
      StraightNone(prog, vm);
    } else {
      var vm1 := Stored(vm, addr, ws[0], k);
      assert prog[k] == Stores(addr, ws)[0];
      StoreStep(prog, vm, k, addr, ws[0]);
      assert Stores(addr, ws) == Stores(addr, ws[..1]) + Stores(addr + 1, ws[1..]);
      CodeSplit(prog, k, Stores(addr, ws[..1]), Stores(addr + 1, ws[1..]));
      vm' := StoresRun(prog, vm1, k + 1, addr + 1, ws[1..]);
      FilledMore(prog, vm, k, addr, ws, vm1, vm');
    }
  }

  // ---------- the image of the strings ----------

  function TextWords(text: string): (ws: seq<Word>)
    ensures |ws| == |text| + 1
  {
    seq(|text| + 1, i requires 0 <= i <= |text| => if i < |text| then CharWord(text[i]) else 0)
  }

  function Image(vars: seq<StringVar>): seq<Word> {
    if vars == [] then [] else TextWords(vars[0].text) + Image(vars[1..])
  }

  lemma StoresSplit(addr: nat, q: nat, a: seq<Word>, b: seq<Word>)
    requires q == addr + |a|
    ensures Stores(addr, a + b) == Stores(addr, a) + Stores(q, b)
  {
  }

  lemma TextWordsUnfold(text: string)
    requires text != []
    ensures TextWords(text) == [CharWord(text[0])] + TextWords(text[1..])
  {
  }

  lemma {:induction false} StringStores(addr: nat, text: string)
    ensures StringMoves(addr, text) == Stores(addr, TextWords(text))
    decreases |text|
  {
    if text == [] {
      assert TextWords(text) == [0];
      assert Stores(addr, [0]) == [InitMove(addr, 0)];
    } else {
      var w, rest := CharWord(text[0]), TextWords(text[1..]);
      StringStores(addr + 1, text[1..]);
      TextWordsUnfold(text);
      StoresSplit(addr, addr + 1, [w], rest);
      assert Stores(addr, [w]) == [InitMove(addr, w)];
    }
  }

  /** The initialising moves store the image, cell by cell and in order, from base up to
      EndOf: none leaves that block, and by RangesDisjoint none the range of its string. */
  lemma {:induction false} MovesStore(base: nat, vars: seq<StringVar>)
    ensures Moves(base, vars) == Stores(base, Image(vars)) && base + |Image(vars)| == EndOf(base, vars)
    decreases |vars|
  {
    if vars != [] {
      var ws, rest := TextWords(vars[0].text), Image(vars[1..]);
      var next := base + |vars[0].text| + 1;
      StringStores(base, vars[0].text);
      MovesStore(next, vars[1..]);
      StoresSplit(base, next, ws, rest);
      assert Moves(base, vars) == StringMoves(base, vars[0].text) + Moves(next, vars[1..]);
      assert Image(vars) == ws + rest;
    }
  }

  lemma BlockSplit(ram: seq<Word>, addr: nat, a: seq<Word>, b: seq<Word>)
    requires BlockAt(ram, addr, a + b)
    ensures BlockAt(ram, addr, a) && BlockAt(ram, addr + |a|, b)
  {
    forall i | 0 <= i < |a|
      ensures ram[addr + i] == a[i]
    {
      assert (a + b)[i] == a[i];
    }
    forall i | 0 <= i < |b|
      ensures ram[addr + |a| + i] == b[i]
    {
      assert (a + b)[|a| + i] == b[i];
    }
  }

  /** Each string lies in the image where its name says. */
  lemma {:induction false} ImageHolds(ram: seq<Word>, base: nat, vars: seq<StringVar>, k: nat)
    requires k < |vars| && BlockAt(ram, base, Image(vars))
    ensures TextAt(ram, AddrOf(base, vars, k), vars[k].text)
    decreases k
  {
    var ws := TextWords(vars[0].text);
    BlockSplit(ram, base, ws, Image(vars[1..]));
    if k == 0 {
      assert ram[base + |vars[0].text|] == ws[|vars[0].text|];
      assert forall i :: 0 <= i < |vars[0].text| ==> ws[i] == CharWord(vars[0].text[i]);
    } else {
      ImageHolds(ram, base + |ws|, vars[1..], k - 1);
    }
  }

  predicate TextsAt(ram: seq<Word>, vars: seq<StringVar>) {
    BlockAt(ram, START_ADDR, Image(vars))
  }

  // ---------- logs and logln ----------

  /** Characters a byte can hold; NUL is excluded by Quotable. */
  predicate Bytes(w: string) {
    forall i :: 0 <= i < |w| ==> w[i] as int < 256
  }

  predicate AllBytes(vars: seq<StringVar>) {
    forall i :: 0 <= i < |vars| ==> Bytes(vars[i].text)
  }

  lemma CharBack(c: char)
    requires 0 < c as int < 256
    ensures CharWord(c) != 0 && LogChar(CharWord(c)) == c
  {
  }

  lemma {:induction false} ReadText(prog: seq<Command>, vm: Vm, addr: nat, text: string)
    requires TextAt(vm.ram, addr, text) && Bytes(text) && SourceText.Quotable(text) && addr + |text| < MAXWORD
    ensures ReadString(prog, vm, RAM, addr) == Some((text, addr + |text| + 1))
    decreases |text|
  {
    if text != [] {
      CharBack(text[0]);
      assert vm.ram[addr] == CharWord(text[0]) && [text[0]] + text[1..] == text;
      assert forall i :: 1 <= i < |text| ==> text[i] == text[1..][i - 1];
      ReadText(prog, vm, addr + 1, text[1..]);
    }
  }

  function Printed(vars: seq<StringVar>, o: Output): string
    requires o.Show? ==> o.k < |vars|
  {
    if o.Show? then vars[o.k].text else "\n"
  }

  /** The strings and newlines asked for, one after the other. */
  function Expected(vars: seq<StringVar>, outs: seq<Output>): string
    requires Shown(vars, outs)
  {
    if outs == [] then "" else Printed(vars, outs[0]) + Expected(vars, outs[1..])
  }

  predicate Printable(vars: seq<StringVar>) {
    ProperVars(vars) && AllBytes(vars) && EndOf(START_ADDR, vars) <= MAXWORD
  }

  lemma OutputStep(prog: seq<Command>, vm: Vm, k: nat, vars: seq<StringVar>, o: Output)
    requires (o.Show? ==> o.k < |vars|) && Printable(vars) && TextsAt(vm.ram, vars)
    requires Poised(prog, vm, k) && k < |prog| && prog[k] == OutputCommand(vars, o)
    ensures DoStep(prog, vm) == Stepped(Vm(vm.ram[PC := k + 1], Running, vm.out + Printed(vars, o)))
  {
    if o.Show? {
      InRange(START_ADDR, vars, o.k);
      ImageHolds(vm.ram, START_ADDR, vars, o.k);
      ReadText(prog, vm, AddrOf(START_ADDR, vars, o.k), vars[o.k].text);
    }
  }

  /** A straight run from command k on has printed this and kept the RAM. */
  ghost predicate Printing(prog: seq<Command>, vm: Vm, k: nat, m: nat, text: string, vm': Vm) {
    Straight(prog, vm, m, vm') && Poised(prog, vm', k + m) && vm'.out == vm.out + text
  }

  lemma PrintingMore(prog: seq<Command>, vm: Vm, k: nat, m: nat, s: string, t: string, vm1: Vm, vm': Vm)
    requires Poised(prog, vm, k) && Poised(prog, vm1, k + 1)
    requires DoStep(prog, vm) == Stepped(vm1) && vm1.out == vm.out + s
    requires Printing(prog, vm1, k + 1, m, t, vm')
    ensures Printing(prog, vm, k, m + 1, s + t, vm')
  {
    StraightOne(prog, vm, vm1);
    StraightJoin(prog, vm, 1, vm1, m, vm');
    assert vm.out + s + t == vm.out + (s + t);
  }

  lemma {:induction false} OutputsRun(prog: seq<Command>, vm: Vm, k: nat, vars: seq<StringVar>,
                                      outs: seq<Output>) returns (vm': Vm)
    requires Shown(vars, outs) && Printable(vars) && TextsAt(vm.ram, vars)
    requires Poised(prog, vm, k) && CodeAt(prog, k, OutputCommands(vars, outs))
    ensures Printing(prog, vm, k, |outs|, Expected(vars, outs), vm')
    decreases |outs|
  {
    if outs == [] {
      vm' := vm;
      StraightNone(prog, vm);
    } else {
      var c, s := OutputCommand(vars, outs[0]), Printed(vars, outs[0]);
      assert OutputCommands(vars, outs)[0] == c;
      OutputStep(prog, vm, k, vars, outs[0]);
      var vm1 := Vm(vm.ram[PC := k + 1], Running, vm.out + s);
      CodeSplit(prog, k, [c], OutputCommands(vars, outs[1..]));
      vm' := OutputsRun(prog, vm1, k + 1, vars, outs[1..]);
      PrintingMore(prog, vm, k, |outs| - 1, s, Expected(vars, outs[1..]), vm1, vm');
    }
  }

  // ---------- whole programs ----------

  /** Enough RAM for the strings, addresses and a program a word can count. */
  predicate Fits(size: nat, vars: seq<StringVar>, outs: seq<Output>)
    requires Shown(vars, outs)
  {
    && ProperVars(vars) && AllBytes(vars)
    && EndOf(START_ADDR, vars) <= size < TWO32 && EndOf(START_ADDR, vars) <= MAXWORD
    && |Program(size, vars, outs)| <= MAXWORD
  }

  lemma ProgramParts(size: nat, vars: seq<StringVar>, outs: seq<Output>)
    requires Shown(vars, outs)
    ensures var prog, n := Program(size, vars, outs), |Moves(START_ADDR, vars)|;
      && prog[0] == Command(0, INITR, Wrap(size), 0) && |prog| == 1 + n + |outs|
      && CodeAt(prog, 1, Moves(START_ADDR, vars)) && CodeAt(prog, 1 + n, OutputCommands(vars, outs))
  {
    OutputCount(vars, outs);
    var first, moves, os := [Command(0, INITR, Wrap(size), 0)], Moves(START_ADDR, vars), OutputCommands(vars, outs);
    assert Program(size, vars, outs) == first + (moves + os);
    CodeSplit(Program(size, vars, outs), 0, first, moves + os);
    CodeSplit(Program(size, vars, outs), 1, moves, os);
  }

  lemma {:induction false} OutputCount(vars: seq<StringVar>, outs: seq<Output>)
    requires Shown(vars, outs)
    ensures |OutputCommands(vars, outs)| == |outs|
    decreases |outs|
  {
    if outs != [] {
      OutputCount(vars, outs[1..]);
    }
  }

  lemma Booted(prog: seq<Command>, size: nat, memory: nat -> Word)
    requires prog != [] && prog[0] == Command(0, INITR, Wrap(size), 0) && FRM < size < TWO32 && |prog| <= MAXWORD
    ensures var vm := Boot(prog, memory);
      vm.Some? && Poised(prog, vm.value, 1) && |vm.value.ram| == size && vm.value.out == ""
  {
    assert Unsigned(Wrap(size)) == size;
  }

  lemma StopsBehind(prog: seq<Command>, vm: Vm)
    requires Poised(prog, vm, |prog|)
    ensures DoStep(prog, vm) == Stopped
  {
  }

  /** From command 1 a straight run leads to the end of the program and prints the text. */
  ghost predicate Finishes(prog: seq<Command>, vm: Vm, vm': Vm, text: string) {
    && 0 < |prog| && Poised(prog, vm, 1) && Poised(prog, vm', |prog|)
    && Straight(prog, vm, |prog| - 1, vm') && vm'.out == text
  }

  lemma FillThenPrint(prog: seq<Command>, vm: Vm, ws: seq<Word>, vm1: Vm, m: nat, text: string, vm': Vm)
    requires Poised(prog, vm, 1) && Filled(prog, vm, 1, START_ADDR, ws, vm1) && vm.out == ""
    requires Printing(prog, vm1, 1 + |ws|, m, text, vm') && |prog| == 1 + |ws| + m
    ensures Finishes(prog, vm, vm', text)
  {
    StraightJoin(prog, vm, |ws|, vm1, m, vm');
  }

  lemma PartsRun(prog: seq<Command>, vm: Vm, ws: seq<Word>, vars: seq<StringVar>, outs: seq<Output>) returns (vm': Vm)
    requires Shown(vars, outs) && Printable(vars) && ws == Image(vars) && |prog| == 1 + |ws| + |outs|
    requires CodeAt(prog, 1, Stores(START_ADDR, ws)) && CodeAt(prog, 1 + |ws|, OutputCommands(vars, outs))
    requires Poised(prog, vm, 1) && START_ADDR + |ws| <= |vm.ram| && START_ADDR + |ws| <= MAXWORD && vm.out == ""
    ensures Finishes(prog, vm, vm', Expected(vars, outs))
  {
    var vm1 := StoresRun(prog, vm, 1, START_ADDR, ws);
    vm' := OutputsRun(prog, vm1, 1 + |ws|, vars, outs);
    FillThenPrint(prog, vm, ws, vm1, |outs|, Expected(vars, outs), vm');
  }

  /** From initr the program runs straight to its end and has then printed what was asked. */
  lemma ProgramRun(prog: seq<Command>, size: nat, vars: seq<StringVar>, outs: seq<Output>,
                   memory: nat -> Word) returns (vm': Vm)
    requires Shown(vars, outs) && Fits(size, vars, outs) && prog == Program(size, vars, outs)
    ensures Boot(prog, memory).Some? && Finishes(prog, Boot(prog, memory).value, vm', Expected(vars, outs))
  {
    ProgramParts(size, vars, outs);
    MovesStore(START_ADDR, vars);
    Booted(prog, size, memory);
    vm' := PartsRun(prog, Boot(prog, memory).value, Image(vars), vars, outs);
  }

  /** The loop exactly as written, on the program in a file. */
  ghost predicate Prints(f: seq<Byte>, pagesize: nat, memory: nat -> Word, n: nat, text: string)
    requires pagesize > 0
  {
    var p := PBoot(Load(f), pagesize, memory);
    p.Some? && Shows(PRun(Load(f), p.value, pagesize, WRITTEN, n), text)
  }

  /** It halts and has written just this. */
  predicate Shows(r: PagedRun, text: string) {
    r.PHalt? && r.p.vm.out == text
  }

  lemma SameShows(f: RunResult, r: PagedRun, vm: Vm)
    requires SameRun(f, r) && f == Halt(vm)
    ensures Shows(r, vm.out)
  {
  }

  lemma OnePageShows(prog: seq<Command>, p: Paged, vm': Vm, pagesize: nat, n: nat, text: string)
    requires Finishes(prog, p.vm, vm', text)
    requires |prog| < pagesize && |prog| <= n && CachedBut(prog, p, pagesize, {})
    ensures Shows(PRun(prog, p, pagesize, WRITTEN, n), text)
  {
    StopsBehind(prog, vm');
    StraightOnce(prog, p.vm, |prog| - 1, vm', pagesize, n);
    StraightHalts(prog, p.vm, |prog| - 1, vm', n);
    WrittenRun(prog, p, pagesize, {}, n);
    SameShows(Run(prog, p.vm, n), PRun(prog, p, pagesize, WRITTEN, n), vm');
  }

  lemma BootedPage(prog: seq<Command>, pagesize: nat, memory: nat -> Word)
    requires pagesize > 0 && Boot(prog, memory).Some?
    ensures var p := PBoot(prog, pagesize, memory);
      p.Some? && p.value.vm == Boot(prog, memory).value && CachedBut(prog, p.value, pagesize, {})
  {
  }

  lemma ProgramPrints(prog: seq<Command>, f: seq<Byte>, pagesize: nat, memory: nat -> Word, n: nat, vm': Vm,
                      text: string)
    requires Load(f) == prog && |prog| < pagesize && |prog| <= n
    requires Boot(prog, memory).Some? && Finishes(prog, Boot(prog, memory).value, vm', text)
    ensures Prints(f, pagesize, memory, n, text)
  {
    BootedPage(prog, pagesize, memory);
    OnePageShows(prog, PBoot(prog, pagesize, memory).value, vm', pagesize, n, text);
  }

  /** From source text to output: the source is assembled, the commands are saved and loaded
      again, and the loop exactly as written runs them on one page and halts with the strings
      and newlines asked for, whatever fresh memory holds. */
  lemma PrintsItsStrings(size: nat, vars: seq<StringVar>, outs: seq<Output>, pagesize: nat, memory: nat -> Word, n: nat)
    requires Shown(vars, outs) && Distinct(vars) && Fits(size, vars, outs)
    requires |Program(size, vars, outs)| < pagesize && |Program(size, vars, outs)| <= n
    ensures var r := Build(Source(size, vars, outs));
      r.Parsed? && Prints(Save(r.asm.mc), pagesize, memory, n, Expected(vars, outs))
  {
    var prog := Program(size, vars, outs);
    LoadSave(prog);
    var vm' := ProgramRun(prog, size, vars, outs, memory);
    ProgramPrints(prog, Save(prog), pagesize, memory, n, vm', Expected(vars, outs));
    Builds(size, vars, outs);
  }
}
