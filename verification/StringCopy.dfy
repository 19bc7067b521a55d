/** The strcpy command on RAM operands: when it terminates and what it leaves. */
module StringCopy {
  import opened Bits
  import opened Machine

  /** n non-zero words from a on, then a zero. */
  predicate StringAt(ram: seq<Word>, a: int, n: nat) {
    && 0 <= a && a + n < |ram| && a + n < MAXWORD && ram[a + n] == 0
    && forall i :: a <= i < a + n ==> ram[i] != 0
  }

  /** The destination does not start inside the source string. */
  predicate CopiesCleanly(dst: int, src: int, n: nat) {
    dst <= src || src + n < dst
  }

  /** RAM with the n + 1 words from src copied to dst. */
  function Copied(ram: seq<Word>, dst: int, src: int, n: nat): seq<Word>
    requires 0 <= src && src + n < |ram| && 0 <= dst && dst + n < |ram|
  {
    ram[..dst] + ram[src..src + n + 1] + ram[dst + n + 1..]
  }

  /** The source is not touched before it is read. */
  lemma SourceKept(ram: seq<Word>, dst: Word, src: Word, n: nat)
    requires StringAt(ram, src, n) && n > 0 && 0 <= dst && dst + n < |ram| && CopiesCleanly(dst, src, n)
    ensures var ram' := ram[dst := ram[src]];
      StringAt(ram', src + 1, n - 1) && ram'[src + 1..src + n + 1] == ram[src + 1..src + n + 1]
  {
  }

  lemma CopiedStep(ram: seq<Word>, dst: Word, src: Word, n: nat)
    requires StringAt(ram, src, n) && n > 0 && 0 <= dst && dst + n < |ram| && CopiesCleanly(dst, src, n)
    ensures var ram' := ram[dst := ram[src]];
      && StringAt(ram', src + 1, n - 1)
      && Copied(ram', dst + 1, src + 1, n - 1) == Copied(ram, dst, src, n)
  {
    var ram' := ram[dst := ram[src]];
    SourceKept(ram, dst, src, n);
    assert ram'[..dst + 1] == ram[..dst] + [ram[src]];
    assert ram'[dst + n + 1..] == ram[dst + n + 1..];
    assert ram[src..src + n + 1] == [ram[src]] + ram[src + 1..src + n + 1];
    Regroup(ram[..dst], ram[src], ram[src + 1..src + n + 1], ram[dst + n + 1..]);
  }

  lemma Regroup(before: seq<Word>, w: Word, rest: seq<Word>, after: seq<Word>)
    ensures (before + [w]) + rest + after == before + ([w] + rest) + after
  {
  }

  /** One character that is not the terminator. */
  lemma CopyOne(prog: seq<Command>, vm: Vm, dst: Word, src: Word)
    requires InRam(vm, src) && InRam(vm, dst) && vm.ram[src] != 0 && src < MAXWORD && dst < MAXWORD
    ensures CopyString(prog, vm, RAM, dst, src)
         == CopyString(prog, vm.(ram := vm.ram[dst := vm.ram[src]]), RAM, dst + 1, src + 1)
  {
  }

  lemma CopyLast(prog: seq<Command>, vm: Vm, dst: Word, src: Word)
    requires StringAt(vm.ram, src, 0) && 0 <= dst < |vm.ram| && dst < MAXWORD
    ensures var r := CopyString(prog, vm, RAM, dst, src);
      r.Some? && r.value.0 == vm.(ram := Copied(vm.ram, dst, src, 0))
  {
    assert vm.ram[dst := vm.ram[src]] == Copied(vm.ram, dst, src, 0);
  }

  lemma {:induction false} CleanCopy(prog: seq<Command>, vm: Vm, dst: Word, src: Word, n: nat)
    requires StringAt(vm.ram, src, n) && 0 <= dst && dst + n < |vm.ram| && dst + n < MAXWORD
    requires CopiesCleanly(dst, src, n)
    ensures var r := CopyString(prog, vm, RAM, dst, src);
      r.Some? && r.value.0 == vm.(ram := Copied(vm.ram, dst, src, n))
    decreases n
  {
    if n == 0 {
      CopyLast(prog, vm, dst, src);
    } else {
      assert vm.ram[src] != 0;
      CopyOne(prog, vm, dst, src);
      CopiedStep(vm.ram, dst, src, n);
      CleanCopy(prog, vm.(ram := vm.ram[dst := vm.ram[src]]), dst + 1, src + 1, n - 1);
    }
  }

  /** Copying into its own tail chases the source for ever: the terminator is overwritten
      before it is read, and the copy leaves RAM. */
  lemma {:induction false} RunawayCopy(prog: seq<Command>, vm: Vm, dst: Word, src: Word)
    requires 0 <= src < dst && forall i :: src <= i < dst && i < |vm.ram| ==> vm.ram[i] != 0
    ensures CopyString(prog, vm, RAM, dst, src) == None
    decreases MAXWORD - src
  {
    if src < |vm.ram| && dst < |vm.ram| && dst < MAXWORD {
      RunawayCopy(prog, vm.(ram := vm.ram[dst := vm.ram[src]]), dst + 1, src + 1);
    }
  }

  /** Between regions inside RAM, strcpy is meaningful exactly when the destination does not
      start inside the source; then the destination holds the source up to and including its
      first zero and every other cell is unchanged. */
  lemma CopyIff(prog: seq<Command>, vm: Vm, dst: Word, src: Word, n: nat)
    requires StringAt(vm.ram, src, n) && 0 <= dst && dst + n < |vm.ram| && dst + n < MAXWORD
    ensures CopyString(prog, vm, RAM, dst, src).Some? <==> CopiesCleanly(dst, src, n)
    ensures CopiesCleanly(dst, src, n) ==>
              CopyString(prog, vm, RAM, dst, src).value.0 == vm.(ram := Copied(vm.ram, dst, src, n))
  {
    if CopiesCleanly(dst, src, n) {
      CleanCopy(prog, vm, dst, src, n);
    } else {
      RunawayCopy(prog, vm, dst, src);
    }
  }

  /** The copy writes no cell below where it is. */
  lemma {:induction false} CopyWritesAhead(prog: seq<Command>, vm: Vm, d: Word, s: Word)
    ensures var r := CopyString(prog, vm, RAM, d, s);
      r.Some? ==> |r.value.0.ram| == |vm.ram| && r.value.0.status == vm.status && r.value.0.out == vm.out
                  && forall a :: 0 <= a < |vm.ram| && a < d ==> r.value.0.ram[a] == vm.ram[a]
    decreases MAXWORD - s
  {
    if InRam(vm, s) && InRam(vm, d) && s < MAXWORD && d < MAXWORD && vm.ram[s] != 0 {
      CopyWritesAhead(prog, vm.(ram := vm.ram[d := vm.ram[s]]), d + 1, s + 1);
    }
  }

  /** What the step of a strcpy from s to d does. */
  function CopyStep(prog: seq<Command>, vm: Vm, d: Word, s: Word): Step
    requires |vm.ram| > FRM
  {
    CopyWritesAhead(prog, vm, d, s);
    var r := CopyString(prog, vm, RAM, d, s);
    if r.None? then Broken else Increment(r.value.0)
  }

  lemma PerformStrcpy(prog: seq<Command>, vm: Vm, c: Command)
    requires |vm.ram| > FRM && c.cmd == STRCPY && Arg0Type(c.flags) == RAM
    ensures Perform(prog, vm, c) == CopyStep(prog, vm, c.arg0, c.arg1)
  {
  }

  /** The whole step, when the copy also stays clear of the three registers. */
  lemma StrcpyStep(prog: seq<Command>, vm: Vm, n: nat)
    requires vm.status == Running && FRM < |vm.ram| && 0 <= vm.ram[PC] < |prog| && vm.ram[PC] < MAXWORD
    requires var c := prog[vm.ram[PC]];
      && c.cmd == STRCPY && Arg0Type(c.flags) == RAM
      && StringAt(vm.ram, c.arg1, n) && 0 <= c.arg0 && c.arg0 + n < |vm.ram| && c.arg0 + n < MAXWORD
      && CopiesCleanly(c.arg0, c.arg1, n) && (c.arg0 > FRM || c.arg0 + n < PC)
    ensures var c := prog[vm.ram[PC]];
      DoStep(prog, vm) == Stepped(vm.(ram := Copied(vm.ram, c.arg0, c.arg1, n)[PC := vm.ram[PC] + 1]))
  {
    var c := prog[vm.ram[PC]];
    PerformStrcpy(prog, vm, c);
    CopyIff(prog, vm, c.arg0, c.arg1, n);
    assert Copied(vm.ram, c.arg0, c.arg1, n)[PC] == vm.ram[PC];
  }
}
