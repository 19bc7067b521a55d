/** logs and strcpy advance the operands of the cached command, so that executed again they go
    on where they stopped. When that is still the right step, and a loop in which it is not. */
module CachedOperands {
  import opened Bits
  import opened Machine
  import opened CommandFile
  import opened StringCopy
  import opened Paging
  import CommandMeanings

  // ---------- how far cached operands have advanced ----------

  /** The cached command u is the program's c with its advancing operands k words on. */
  predicate Onward(c: Command, u: Command, k: nat) {
    if c.cmd == STRCPY then
      c.arg0 + k <= MAXWORD && c.arg1 + k <= MAXWORD && u == c.(arg0 := c.arg0 + k, arg1 := c.arg1 + k)
    else if c.cmd == LOGS then c.arg0 + k <= MAXWORD && u == c.(arg0 := c.arg0 + k)
    else u == c
  }

  ghost predicate SomeOnward(c: Command, u: Command) {
    exists k: nat :: Onward(c, u, k)
  }

  /** Page 0 is cached, every command some words on. */
  ghost predicate AllOnward(prog: seq<Command>, p: Paged, size: nat) {
    && p.current == 0 && |p.page| == Available(|prog|, 0, size)
    && forall i :: 0 <= i < |p.page| ==> SomeOnward(prog[i], p.page[i])
  }

  lemma {:induction false} ReadMovesOn(prog: seq<Command>, vm: Vm, ty: nat, r: Word)
    ensures var s := ReadString(prog, vm, ty, r);
      s.Some? ==> r < s.value.1
    decreases MAXWORD - r
  {
    if r < MAXWORD {
      ReadMovesOn(prog, vm, ty, r + 1);
    }
  }

  lemma {:induction false} CopyMovesOn(prog: seq<Command>, vm: Vm, ty: nat, d: Word, s: Word)
    ensures var r := CopyString(prog, vm, ty, d, s);
      r.Some? ==> d < r.value.1 && r.value.1 as int - d as int == r.value.2 as int - s as int
    decreases MAXWORD - s
  {
    var w := GetWord(prog, vm, ty, s);
    if w.Some? && s < MAXWORD && d < MAXWORD && SetWord(vm, ty, d, w.value).Some? {
      CopyMovesOn(prog, SetWord(vm, ty, d, w.value).value, ty, d + 1, s + 1);
    }
  }

  /** A handler leaves its cached command as it is or some words further on. */
  lemma ExecMovesOn(prog: seq<Command>, vm: Vm, c: Command, u: Command, k: nat) returns (j: nat)
    requires |vm.ram| > FRM && Onward(c, u, k) && Exec(prog, vm, u).Next?
    ensures Onward(c, Exec(prog, vm, u).cmd, j)
  {
    j := k;
    var v := Exec(prog, vm, u).cmd;
    if u.cmd == LOGS {
      ReadMovesOn(prog, vm, Arg0Type(u.flags), u.arg0);
      j := v.arg0 as int - c.arg0 as int;
    } else if u.cmd == STRCPY {
      CopyMovesOn(prog, vm, Arg0Type(u.flags), u.arg0, u.arg1);
      j := v.arg0 as int - c.arg0 as int;
    } else {
      OnlyTwoAdvance(prog, vm, u);
    }
  }

  /** The loop as written never steps off page 0, and its cached commands only move on. */
  lemma WrittenStaysOnward(prog: seq<Command>, p: Paged, size: nat)
    requires size > 0 && AllOnward(prog, p, size) && PStep(prog, p, size, WRITTEN).PStepped?
    ensures AllOnward(prog, PStep(prog, p, size, WRITTEN).p, size)
  {
    var pc, q := p.vm.ram[PC], PStep(prog, p, size, WRITTEN).p;
    PageNumber(pc, size);
    assert SomeOnward(prog[pc], p.page[pc]);
    var k: nat :| Onward(prog[pc], p.page[pc], k);
    var j := ExecMovesOn(prog, p.vm, prog[pc], p.page[pc], k);
    assert q.page[pc] == Exec(prog, p.vm, p.page[pc]).cmd;
    forall i | 0 <= i < |q.page|
      ensures SomeOnward(prog[i], q.page[i])
    {
      if i != pc {
        assert q.page[i] == p.page[i];
      } else {
        assert Onward(prog[i], q.page[i], j);
      }
    }
  }

  /** What every step keeps holds wherever a run pauses. */
  lemma {:induction false} Invariant(paged: Paged -> PagedStep, inv: Paged -> bool, p: Paged, n: nat)
    requires inv(p) && forall q {:trigger paged(q)} :: inv(q) && paged(q).PStepped? ==> inv(paged(q).p)
    ensures var r := PRunBy(paged, p, n);
      r.PPaused? ==> inv(r.p)
    decreases n
  {
    if n > 0 && paged(p).PStepped? {
      Invariant(paged, inv, paged(p).p, n - 1);
    }
  }

  /** So over every run as written, each cached command is its program's, some words on. */
  lemma WrittenRunStaysOnward(prog: seq<Command>, p: Paged, size: nat, n: nat)
    requires size > 0 && AllOnward(prog, p, size)
    ensures var r := PRun(prog, p, size, WRITTEN, n);
      r.PPaused? ==> AllOnward(prog, r.p, size)
  {
    var paged := q => PStep(prog, q, size, WRITTEN);
    ghost var inv := q => AllOnward(prog, q, size);
    forall q {:trigger paged(q)} | inv(q) && paged(q).PStepped?
      ensures inv(paged(q).p)
    {
      WrittenStaysOnward(prog, q, size);
    }
    Invariant(paged, inv, p, n);
    PRunIsPRunBy(prog, p, size, WRITTEN, n);
  }

  /** From the start of chip32_run on. */
  lemma BootedRunStaysOnward(prog: seq<Command>, size: nat, memory: nat -> Word, n: nat)
    requires size > 0 && PBoot(prog, size, memory).Some?
    ensures var r := PRun(prog, PBoot(prog, size, memory).value, size, WRITTEN, n);
      r.PPaused? ==> AllOnward(prog, r.p, size)
  {
    BootedIsOnward(prog, size, memory);
    WrittenRunStaysOnward(prog, PBoot(prog, size, memory).value, size, n);
  }

  lemma BootedIsOnward(prog: seq<Command>, size: nat, memory: nat -> Word)
    requires size > 0 && PBoot(prog, size, memory).Some?
    ensures AllOnward(prog, PBoot(prog, size, memory).value, size)
  {
    var page := Slice(prog, 0, size);
    forall i | 0 <= i < |page|
      ensures SomeOnward(prog[i], page[i])
    {
      assert Onward(prog[i], page[i], 0);
    }
  }

  // ---------- reading RAM ----------

  function Chars(ram: seq<Word>, r: int, n: nat): (s: string)
    requires 0 <= r && r + n <= |ram|
    ensures |s| == n && forall i :: 0 <= i < n ==> s[i] == LogChar(ram[r + i])
  {
    seq(n, i requires 0 <= i < n => LogChar(ram[r + i]))
  }

  lemma {:induction false} ReadRam(prog: seq<Command>, vm: Vm, r: Word, n: nat)
    requires StringAt(vm.ram, r, n)
    ensures ReadString(prog, vm, RAM, r) == Some((Chars(vm.ram, r, n), r + n + 1))
    decreases n
  {
    if n == 0 {
      assert Chars(vm.ram, r, 0) == "";
    } else {
      ReadRam(prog, vm, r + 1, n - 1);
      assert Chars(vm.ram, r, n) == [LogChar(vm.ram[r])] + Chars(vm.ram, r + 1, n - 1);
    }
  }

  /** logs prints the words of a string as bytes, up to its zero. */
  lemma StringPrints(prog: seq<Command>, vm: Vm, c: Command, n: nat) returns (text: string)
    requires CommandMeanings.AtCommand(prog, vm, c) && c.cmd == LOGS && c.flags % 4 == 1 && StringAt(vm.ram, c.arg0, n)
    ensures |text| == n && forall i :: 0 <= i < n ==> text[i] == (vm.ram[c.arg0 + i] % 256) as char
    ensures CommandMeanings.Prints(prog, vm, text)
  {
    ReadRam(prog, vm, c.arg0, n);
    text := Chars(vm.ram, c.arg0, n);
  }

  /** Only a terminated string is read. */
  lemma {:induction false} ReadNeedsString(prog: seq<Command>, vm: Vm, r: Word) returns (n: nat)
    requires ReadString(prog, vm, RAM, r).Some?
    ensures StringAt(vm.ram, r, n)
    decreases MAXWORD - r
  {
    n := 0;
    if vm.ram[r] != 0 {
      var m := ReadNeedsString(prog, vm, r + 1);
      n := m + 1;
    }
  }

  /** At q stands a string of the n characters that stand at r. */
  predicate SameChars(ram: seq<Word>, q: int, r: int, n: nat) {
    && StringAt(ram, q, n) && 0 <= r && r + n < |ram|
    && forall j :: r <= j < r + n ==> LogChar(ram[j]) == LogChar(ram[j - r + q])
  }

  lemma SameCharsIff(ram: seq<Word>, q: int, m: nat, r: int, n: nat)
    requires StringAt(ram, q, m) && StringAt(ram, r, n)
    ensures Chars(ram, q, m) == Chars(ram, r, n) <==> SameChars(ram, q, r, n)
  {
    if SameChars(ram, q, r, n) {
      assert m == n;
    }
    if Chars(ram, q, m) == Chars(ram, r, n) {
      forall j | r <= j < r + n
        ensures LogChar(ram[j]) == LogChar(ram[j - r + q])
      {
        assert Chars(ram, q, m)[j - r] == Chars(ram, r, n)[j - r];
      }
    }
  }

  // ---------- the step on a used command ----------

  /** PC is on page 0 and the cached command there is c, whatever the program has. */
  predicate AtUsed(prog: seq<Command>, p: Paged, size: nat, c: Command) {
    && 0 < size && p.vm.status == Running && |p.vm.ram| > FRM && p.current == 0
    && |p.page| == Available(|prog|, 0, size)
    && 0 <= p.vm.ram[PC] < size && p.vm.ram[PC] < |prog| && p.vm.ram[PC] < MAXWORD
    && p.page[p.vm.ram[PC]] == c
  }

  lemma UsedStep(prog: seq<Command>, p: Paged, size: nat, c: Command)
    requires AtUsed(prog, p, size, c)
    ensures DoStep(prog, p.vm) == Perform(prog, p.vm, prog[p.vm.ram[PC]])
    ensures match Perform(prog, p.vm, c)
      case Stepped(v) => PStep(prog, p, size, WRITTEN).PStepped? && PStep(prog, p, size, WRITTEN).p.vm == v
      case _ => PStep(prog, p, size, WRITTEN) == PBroken
  {
    PageNumber(p.vm.ram[PC], size);
  }

  lemma UsedSame(prog: seq<Command>, p: Paged, size: nat, c: Command, u: Command, x: Step, y: Step)
    requires AtUsed(prog, p, size, u) && prog[p.vm.ram[PC]] == c
    requires Perform(prog, p.vm, c) == x && Perform(prog, p.vm, u) == y
    ensures SameStep(DoStep(prog, p.vm), PStep(prog, p, size, WRITTEN), p) <==> x == y
  {
    UsedStep(prog, p, size, u);
  }

  lemma PerformLogs(prog: seq<Command>, vm: Vm, c: Command)
    requires |vm.ram| > FRM && vm.ram[PC] < MAXWORD && c.cmd == LOGS && Arg0Type(c.flags) == RAM
    ensures var s := ReadString(prog, vm, RAM, c.arg0);
      Perform(prog, vm, c) ==
        if s.None? then Broken else Stepped(Vm(vm.ram[PC := vm.ram[PC] + 1], vm.status, vm.out + s.value.0))
  {
  }

  /** Wherever earlier executions left the cached operand: logs does the right step if and only
      if a string of the program's characters stands there. */
  lemma UsedLogsIff(prog: seq<Command>, p: Paged, size: nat, c: Command, n: nat, q: Word)
    requires c.cmd == LOGS && Arg0Type(c.flags) == RAM && StringAt(p.vm.ram, c.arg0, n)
    requires AtUsed(prog, p, size, c.(arg0 := q)) && prog[p.vm.ram[PC]] == c
    ensures SameStep(DoStep(prog, p.vm), PStep(prog, p, size, WRITTEN), p) <==> SameChars(p.vm.ram, q, c.arg0, n)
  {
    var ram := p.vm.ram;
    UsedStep(prog, p, size, c.(arg0 := q));
    PerformLogs(prog, p.vm, c);
    PerformLogs(prog, p.vm, c.(arg0 := q));
    ReadRam(prog, p.vm, c.arg0, n);
    if ReadString(prog, p.vm, RAM, q).Some? {
      var m := ReadNeedsString(prog, p.vm, q);
      ReadRam(prog, p.vm, q, m);
      SameCharsIff(ram, q, m, c.arg0, n);
      AppendedIff(p.vm.out, Chars(ram, c.arg0, n), Chars(ram, q, m));
    } else if StringAt(ram, q, n) {
      ReadRam(prog, p.vm, q, n);
    }
  }

  lemma AppendedIff(out: string, s: string, t: string)
    ensures out + s == out + t <==> s == t
  {
    assert (out + s)[|out|..] == s && (out + t)[|out|..] == t;
  }

  // ---------- strcpy ----------

  lemma CopiedIff(ram: seq<Word>, dst: int, src: int, n: nat)
    requires 0 <= src && src + n < |ram| && 0 <= dst && dst + n < |ram|
    ensures Copied(ram, dst, src, n) == ram <==> ram[dst..dst + n + 1] == ram[src..src + n + 1]
  {
    var a, b, c := ram[..dst], ram[src..src + n + 1], ram[dst + n + 1..];
    assert ram == a + ram[dst..dst + n + 1] + c;
    if Copied(ram, dst, src, n) == ram {
      assert (a + b + c)[dst..dst + n + 1] == b;
    }
  }

  /** Text that repeats from one cell to a later one inside it has no end there. */
  lemma RepeatingNeverEnds(ram: seq<Word>, dst: int, src: int, n: nat)
    requires StringAt(ram, src, n) && 0 <= dst && dst + n < |ram| && !CopiesCleanly(dst, src, n)
    ensures ram[dst..dst + n + 1] != ram[src..src + n + 1]
  {
    var i := src + n - dst;
    assert ram[dst..dst + n + 1][i] == ram[src + n] && ram[src..src + n + 1][i] == ram[src + i];
  }

  lemma CountedIff(a: seq<Word>, b: seq<Word>)
    requires |a| == |b| > FRM && a[PC] < MAXWORD && b[PC] < MAXWORD
    ensures a[PC := a[PC] + 1] == b[PC := b[PC] + 1] <==> a == b
  {
    var x, y := a[PC := a[PC] + 1], b[PC := b[PC] + 1];
    if x == y {
      forall i | 0 <= i < |a|
        ensures a[i] == b[i]
      {
        assert x[i] == y[i];
      }
    }
  }

  /** At s stands a string, and at d the same cells up to and with its zero. */
  predicate Repeats(ram: seq<Word>, d: int, s: int, m: nat) {
    && StringAt(ram, s, m) && 0 <= d && d + m < |ram| && d + m < MAXWORD
    && ram[d..d + m + 1] == ram[s..s + m + 1]
  }

  /** At s stands some string, and at d the same. */
  ghost predicate RepeatsString(ram: seq<Word>, d: int, s: int) {
    exists m: nat :: Repeats(ram, d, s, m)
  }

  lemma RepeatsEnd(ram: seq<Word>, d: int, s: int)
    requires 0 <= d < |ram| && d < MAXWORD && 0 <= s < |ram| && s < MAXWORD && ram[d] == ram[s] == 0
    ensures Repeats(ram, d, s, 0)
  {
    assert ram[d..d + 1] == [ram[d]] && ram[s..s + 1] == [ram[s]];
  }

  lemma RepeatsMore(ram: seq<Word>, d: int, s: int, n: nat)
    requires Repeats(ram, d + 1, s + 1, n) && 0 <= d && 0 <= s && ram[s] != 0 && ram[d] == ram[s]
    ensures Repeats(ram, d, s, n + 1)
  {
    assert ram[d..d + n + 2] == [ram[d]] + ram[d + 1..d + n + 2];
    assert ram[s..s + n + 2] == [ram[s]] + ram[s + 1..s + n + 2];
  }

  /** A copy that leaves RAM as it is copied a string onto its like. */
  lemma {:induction false} StillCopyRepeats(prog: seq<Command>, vm: Vm, d: Word, s: Word) returns (m: nat)
    requires var r := CopyString(prog, vm, RAM, d, s); r.Some? && r.value.0.ram == vm.ram
    ensures Repeats(vm.ram, d, s, m)
    decreases MAXWORD - s
  {
    var w := vm.ram[s];
    var vm1 := vm.(ram := vm.ram[d := w]);
    if w == 0 {
      m := 0;
      assert vm1.ram[d] == vm.ram[d];
      RepeatsEnd(vm.ram, d, s);
    } else {
      CopyOne(prog, vm, d, s);
      CopyWritesAhead(prog, vm1, d + 1, s + 1);
      assert vm1.ram == vm.ram;
      var n := StillCopyRepeats(prog, vm, d + 1, s + 1);
      m := n + 1;
      RepeatsMore(vm.ram, d, s, n);
    }
  }

  /** The copy leaves RAM as it is exactly where it repeats what is there. */
  lemma StillCopyIff(prog: seq<Command>, vm: Vm, d: Word, s: Word)
    ensures var r := CopyString(prog, vm, RAM, d, s);
      (r.Some? && r.value.0.ram == vm.ram) <==> RepeatsString(vm.ram, d, s)
  {
    var r := CopyString(prog, vm, RAM, d, s);
    if r.Some? && r.value.0.ram == vm.ram {
      var _ := StillCopyRepeats(prog, vm, d, s);
    }
    if m: nat :| Repeats(vm.ram, d, s, m) {
      if !CopiesCleanly(d, s, m) {
        RepeatingNeverEnds(vm.ram, d, s, m);
        assert false;
      }
      CopyIff(prog, vm, d, s, m);
      CopiedIff(vm.ram, d, s, m);
    }
  }

  /** The program's own copy: a string inside RAM, clear of cell 32. */
  predicate CopiesString(ram: seq<Word>, d: int, s: int, n: nat) {
    && StringAt(ram, s, n) && 0 <= d && d + n < |ram| && d + n < MAXWORD && CopiesCleanly(d, s, n)
    && !(d <= PC <= d + n)
  }

  /** The step that leaves this RAM and counts. */
  function Counted(vm: Vm, ram: seq<Word>): Step
    requires |ram| > FRM && ram[PC] < MAXWORD
  {
    Stepped(vm.(ram := ram[PC := ram[PC] + 1]))
  }

  lemma CountedStepsIff(vm: Vm, a: seq<Word>, b: seq<Word>)
    requires |a| == |b| > FRM && a[PC] < MAXWORD && b[PC] < MAXWORD
    ensures Counted(vm, a) == Counted(vm, b) <==> a == b
  {
    CountedIff(a, b);
  }

  /** What cell i holds after the copy. */
  function CopiedAt(ram: seq<Word>, d: int, s: int, n: nat, i: nat): Word
    requires 0 <= s && s + n < |ram| && i < |ram|
  {
    if d <= i <= d + n then ram[s + i - d] else ram[i]
  }

  predicate IsCopied(a: seq<Word>, ram: seq<Word>, d: int, s: int, n: nat) {
    && |a| == |ram| && 0 <= s && s + n < |ram|
    && forall i :: 0 <= i < |ram| ==> a[i] == CopiedAt(ram, d, s, n, i)
  }

  lemma CopiedIsCopied(ram: seq<Word>, d: int, s: int, n: nat)
    requires 0 <= s && s + n < |ram| && 0 <= d && d + n < |ram|
    ensures IsCopied(Copied(ram, d, s, n), ram, d, s, n)
  {
  }

  lemma CopyCounts(prog: seq<Command>, vm: Vm, d: Word, s: Word, n: nat) returns (a: seq<Word>)
    requires |vm.ram| > FRM && vm.ram[PC] < MAXWORD && CopiesString(vm.ram, d, s, n)
    ensures IsCopied(a, vm.ram, d, s, n) && a[PC] == vm.ram[PC]
    ensures CopyStep(prog, vm, d, s) == Counted(vm, a)
  {
    CopyIff(prog, vm, d, s, n);
    a := Copied(vm.ram, d, s, n);
    CopiedIsCopied(vm.ram, d, s, n);
    assert a[PC] == CopiedAt(vm.ram, d, s, n, PC);
  }

  /** The same n words at both places. */
  predicate SameWords(ram: seq<Word>, d: int, s: int, n: nat) {
    && 0 <= d && d + n <= |ram| && 0 <= s && s + n <= |ram|
    && forall i :: d <= i < d + n ==> ram[i] == ram[s + i - d]
  }

  lemma RestCopies(ram: seq<Word>, d: int, s: int, n: nat, k: nat)
    requires CopiesString(ram, d, s, n) && k <= n
    ensures CopiesString(ram, d + k, s + k, n - k)
  {
  }

  /** k words into the string: the rest is copied as the whole is, and what is left out is the
      first k words. */
  lemma RestCopiedIff(ram: seq<Word>, a: seq<Word>, b: seq<Word>, d: int, s: int, n: nat, k: nat)
    requires k <= n && 0 <= d && d + n < |ram| && IsCopied(a, ram, d, s, n) && IsCopied(b, ram, d + k, s + k, n - k)
    ensures a == b <==> SameWords(ram, d, s, k)
  {
    if a == b {
      forall i | d <= i < d + k
        ensures ram[i] == ram[s + i - d]
      {
        assert a[i] == CopiedAt(ram, d, s, n, i) && b[i] == CopiedAt(ram, d + k, s + k, n - k, i);
      }
    }
    if SameWords(ram, d, s, k) {
      forall i | 0 <= i < |ram|
        ensures a[i] == b[i]
      {
        assert a[i] == CopiedAt(ram, d, s, n, i) && b[i] == CopiedAt(ram, d + k, s + k, n - k, i);
      }
    }
  }

  /** Inside the string that now stands at the source. */
  lemma UsedInside(prog: seq<Command>, vm: Vm, d: Word, s: Word, n: nat, k: nat)
    requires |vm.ram| > FRM && vm.ram[PC] < MAXWORD && k <= n && CopiesString(vm.ram, d, s, n)
    ensures CopyStep(prog, vm, d, s) == CopyStep(prog, vm, d + k, s + k) <==> SameWords(vm.ram, d, s, k)
  {
    RestCopies(vm.ram, d, s, n, k);
    var a := CopyCounts(prog, vm, d, s, n);
    var b := CopyCounts(prog, vm, d + k, s + k, n - k);
    CountedStepsIff(vm, a, b);
    RestCopiedIff(vm.ram, a, b, d, s, n, k);
  }

  /** Two results, one that changed cells below x alone and one that changed none there. */
  lemma ApartOnly(ram: seq<Word>, a: seq<Word>, b: seq<Word>, x: int)
    requires |a| == |b| == |ram|
    requires forall i :: 0 <= i < |ram| && x <= i ==> a[i] == ram[i]
    requires forall i :: 0 <= i < |ram| && i < x ==> b[i] == ram[i]
    ensures a == b <==> a == ram && b == ram
  {
    if a == b {
      assert forall i :: 0 <= i < |ram| ==> a[i] == ram[i];
    }
  }

  /** What a copy leaves, told apart from how it was made. */
  lemma CopyLeaves(prog: seq<Command>, vm: Vm, d: Word, s: Word) returns (ram: Option<seq<Word>>)
    requires |vm.ram| > FRM && vm.ram[PC] < MAXWORD
    ensures ram.None? ==> CopyStep(prog, vm, d, s) == Broken
    ensures ram.Some? ==> |ram.value| == |vm.ram| && ram.value[PC] < MAXWORD
                          && CopyStep(prog, vm, d, s) == Counted(vm, ram.value)
                          && forall i :: 0 <= i < |vm.ram| && i < d ==> ram.value[i] == vm.ram[i]
    ensures RepeatsString(vm.ram, d, s) <==> ram == Some(vm.ram)
  {
    StillCopyIff(prog, vm, d, s);
    CopyWritesAhead(prog, vm, d, s);
    var r := CopyString(prog, vm, RAM, d, s);
    ram := if r.Some? && r.value.0.ram[PC] < MAXWORD then Some(r.value.0.ram) else None;
  }

  /** The copy changes nothing where the words already are the same. */
  lemma CopiedStillIff(ram: seq<Word>, a: seq<Word>, d: int, s: int, n: nat)
    requires IsCopied(a, ram, d, s, n) && 0 <= d && d + n < |ram|
    ensures a == ram <==> SameWords(ram, d, s, n + 1)
  {
    if a == ram {
      forall i | d <= i < d + n + 1
        ensures ram[i] == ram[s + i - d]
      {
        assert a[i] == CopiedAt(ram, d, s, n, i);
      }
    }
    if SameWords(ram, d, s, n + 1) {
      forall i | 0 <= i < |ram|
        ensures a[i] == ram[i]
      {
        assert a[i] == CopiedAt(ram, d, s, n, i);
      }
    }
  }

  /** Behind that string. */
  lemma UsedBehind(prog: seq<Command>, vm: Vm, d: Word, s: Word, n: nat, d': Word, s': Word)
    requires |vm.ram| > FRM && vm.ram[PC] < MAXWORD && CopiesString(vm.ram, d, s, n) && d + n < d'
    ensures CopyStep(prog, vm, d, s) == CopyStep(prog, vm, d', s')
       <==> SameWords(vm.ram, d, s, n + 1) && RepeatsString(vm.ram, d', s')
  {
    var all := CopyCounts(prog, vm, d, s, n);
    CopiedStillIff(vm.ram, all, d, s, n);
    var left := CopyLeaves(prog, vm, d', s');
    if left.Some? {
      CountedStepsIff(vm, all, left.value);
      assert forall i :: d' <= i < |all| ==> all[i] == CopiedAt(vm.ram, d, s, n, i);
      ApartOnly(vm.ram, all, left.value, d');
    }
  }

  /** The copy of n words from s to d also comes out right k words on: what is left out is
      already there, and where that is the whole string, a further string stands behind both. */
  ghost predicate MadeOnward(ram: seq<Word>, d: int, s: int, n: nat, k: nat) {
    if k <= n then SameWords(ram, d, s, k) else SameWords(ram, d, s, n + 1) && RepeatsString(ram, d + k, s + k)
  }

  lemma OnwardCopyIff(prog: seq<Command>, vm: Vm, d: Word, s: Word, n: nat, k: nat)
    requires |vm.ram| > FRM && vm.ram[PC] < MAXWORD && CopiesString(vm.ram, d, s, n)
    requires d + k <= MAXWORD && s + k <= MAXWORD
    ensures CopyStep(prog, vm, d, s) == CopyStep(prog, vm, d + k, s + k) <==> MadeOnward(vm.ram, d, s, n, k)
  {
    if k <= n {
      UsedInside(prog, vm, d, s, n, k);
    } else {
      UsedBehind(prog, vm, d, s, n, d + k, s + k);
    }
  }

  lemma UsedCopySame(prog: seq<Command>, p: Paged, size: nat, c: Command, u: Command, same: bool)
    requires c.cmd == STRCPY && Arg0Type(c.flags) == RAM && u.cmd == STRCPY && u.flags == c.flags
    requires AtUsed(prog, p, size, u) && prog[p.vm.ram[PC]] == c
    requires same <==> CopyStep(prog, p.vm, c.arg0, c.arg1) == CopyStep(prog, p.vm, u.arg0, u.arg1)
    ensures SameStep(DoStep(prog, p.vm), PStep(prog, p, size, WRITTEN), p) <==> same
  {
    PerformStrcpy(prog, p.vm, c);
    PerformStrcpy(prog, p.vm, u);
    UsedSame(prog, p, size, c, u, CopyStep(prog, p.vm, c.arg0, c.arg1), CopyStep(prog, p.vm, u.arg0, u.arg1));
  }

  /** However often the cached strcpy ran before, its operands being k words on: this is
      exactly when its step is the right one. */
  lemma UsedStrcpyIff(prog: seq<Command>, p: Paged, size: nat, c: Command, u: Command, n: nat, k: nat)
    requires c.cmd == STRCPY && Arg0Type(c.flags) == RAM && Onward(c, u, k)
    requires AtUsed(prog, p, size, u) && prog[p.vm.ram[PC]] == c && CopiesString(p.vm.ram, c.arg0, c.arg1, n)
    ensures SameStep(DoStep(prog, p.vm), PStep(prog, p, size, WRITTEN), p)
       <==> MadeOnward(p.vm.ram, c.arg0, c.arg1, n, k)
  {
    var same := MadeOnward(p.vm.ram, c.arg0, c.arg1, n, k);
    OnwardCopyIff(prog, p.vm, c.arg0, c.arg1, n, k);
    UsedCopySame(prog, p, size, c, u, same);
  }

  // ---------- a text printed in a loop ----------

  /** initr 64, declare hi, ?, ?, "A", logs $hi, jmp 3 */
  function Looped(): seq<Command> {
    [Command(0, INITR, 64, 0), Command(1, MOVE, 35, 65), Command(1, MOVE, 36, 0), Command(1, LOGS, 35, 0),
     Command(0, JMP, 3, 0)]
  }

  function LoopedRam(pc: Word, a: Word): (ram: seq<Word>)
    ensures |ram| == 64
  {
    seq(64, i => if i == PC then pc else if i == STK || i == FRM then 63 else if i == 35 then a else 0)
  }

  function At(pc: Word, a: Word, out: string): Vm {
    Vm(LoopedRam(pc, a), Running, out)
  }

  /** The page with the operand of logs advanced. */
  function Advanced(operand: Word): seq<Command> {
    Looped()[3 := Command(1, LOGS, operand, 0)]
  }

  function Zero(i: nat): Word {
    0
  }

  lemma LoopedBoots()
    ensures Boot(Looped(), Zero) == Some(At(1, 0, ""))
  {
    var vm := Boot(Looped(), Zero).value;
    var base: seq<Word> := seq(64, i requires 0 <= i => Zero(i));
    assert Unsigned(Looped()[0].arg0) == 64;
    assert forall i :: 0 <= i < 64 ==> base[i] == 0;
    assert base[PC := 1][STK := 63][FRM := 63] == LoopedRam(1, 0);
    assert vm.ram == base[PC := 1][STK := 63][FRM := 63];
  }

  lemma LoopedMoves(page: seq<Command>)
    requires |page| == 5 && page[1] == Looped()[1] && page[2] == Looped()[2]
    ensures Perform(Looped(), At(1, 0, ""), page[1]) == Stepped(At(2, 65, ""))
    ensures Perform(Looped(), At(2, 65, ""), page[2]) == Stepped(At(3, 65, ""))
  {
    assert LoopedRam(1, 0)[35 := 65][PC := 2] == LoopedRam(2, 65);
    assert LoopedRam(2, 65)[36 := 0][PC := 3] == LoopedRam(3, 65);
  }

  lemma LoopedJumps(out: string)
    ensures Perform(Looped(), At(4, 65, out), Looped()[4]) == Stepped(At(3, 65, out))
  {
    assert LoopedRam(4, 65)[PC := 2][PC := 3] == LoopedRam(3, 65);
  }

  /** The text, and what stands behind its terminator. */
  lemma LoopedPrints(out: string)
    ensures Exec(Looped(), At(3, 65, out), Command(1, LOGS, 35, 0))
        == Next(At(3, 65, out + "A"), Command(1, LOGS, 37, 0))
    ensures Exec(Looped(), At(3, 65, out), Command(1, LOGS, 37, 0)) == Next(At(3, 65, out), Command(1, LOGS, 38, 0))
  {
    var vm := At(3, 65, out);
    ReadRam(Looped(), vm, 35, 1);
    ReadRam(Looped(), vm, 37, 0);
    assert Chars(vm.ram, 35, 1) == "A" && Chars(vm.ram, 37, 0) == "";
    assert out + "" == out;
  }

  lemma LoopedSteps(out: string)
    ensures DoStep(Looped(), At(1, 0, "")) == Stepped(At(2, 65, ""))
         && DoStep(Looped(), At(2, 65, "")) == Stepped(At(3, 65, ""))
    ensures DoStep(Looped(), At(3, 65, out)) == Stepped(At(4, 65, out + "A"))
         && DoStep(Looped(), At(4, 65, out)) == Stepped(At(3, 65, out))
  {
    LoopedMoves(Looped());
    LoopedPrints(out);
    LoopedJumps(out);
    assert LoopedRam(3, 65)[PC := 4] == LoopedRam(4, 65);
  }

  lemma WrittenMoves()
    ensures PStep(Looped(), Paged(At(1, 0, ""), Looped(), 0), 8, WRITTEN) == PStepped(Paged(At(2, 65, ""), Looped(), 0))
    ensures PStep(Looped(), Paged(At(2, 65, ""), Looped(), 0), 8, WRITTEN)
        == PStepped(Paged(At(3, 65, ""), Looped(), 0))
  {
    LoopedMoves(Looped());
    PageNumber(1, 8);
    PageNumber(2, 8);
    assert Looped()[1 := Looped()[1]] == Looped() && Looped()[2 := Looped()[2]] == Looped();
  }

  lemma WrittenLogs(out: string)
    ensures PStep(Looped(), Paged(At(3, 65, out), Looped(), 0), 8, WRITTEN)
        == PStepped(Paged(At(4, 65, out + "A"), Advanced(37), 0))
    ensures PStep(Looped(), Paged(At(3, 65, out), Advanced(37), 0), 8, WRITTEN)
        == PStepped(Paged(At(4, 65, out), Advanced(38), 0))
  {
    LoopedPrints(out);
    PageNumber(3, 8);
    assert LoopedRam(3, 65)[PC := 4] == LoopedRam(4, 65);
    assert Advanced(37)[3 := Command(1, LOGS, 38, 0)] == Advanced(38);
  }

  lemma WrittenJump(out: string)
    ensures PStep(Looped(), Paged(At(4, 65, out), Advanced(37), 0), 8, WRITTEN)
        == PStepped(Paged(At(3, 65, out), Advanced(37), 0))
  {
    LoopedJumps(out);
    PageNumber(4, 8);
    assert Advanced(37)[4 := Looped()[4]] == Advanced(37);
  }

  /** The program prints its text at every turn; as written it prints it once, and then what
      stands behind the terminator, here nothing. */
  lemma LoopedLogsDiffer()
    ensures Boot(Looped(), Zero).Some? && PBoot(Looped(), 8, Zero).Some?
    ensures Run(Looped(), Boot(Looped(), Zero).value, 5) == Paused(At(4, 65, "AA"))
    ensures PRun(Looped(), PBoot(Looped(), 8, Zero).value, 8, WRITTEN, 5)
        == PPaused(Paged(At(4, 65, "A"), Advanced(38), 0))
  {
    LoopedBoots();
    LoopedFlat();
    LoopedWritten();
    assert Slice(Looped(), 0, 8) == Looped();
  }

  lemma LoopedFlat()
    ensures Run(Looped(), At(1, 0, ""), 5) == Paused(At(4, 65, "AA"))
  {
    LoopedSteps("");
    LoopedSteps("A");
    assert "" + "A" == "A" && "A" + "A" == "AA";
    assert Run(Looped(), At(3, 65, "A"), 1) == Paused(At(4, 65, "AA"));
    assert Run(Looped(), At(3, 65, ""), 3) == Run(Looped(), At(3, 65, "A"), 1);
  }

  lemma LoopedWritten()
    ensures PRun(Looped(), Paged(At(1, 0, ""), Looped(), 0), 8, WRITTEN, 5)
        == PPaused(Paged(At(4, 65, "A"), Advanced(38), 0))
  {
    WrittenMoves();
    WrittenLogs("");
    WrittenLogs("A");
    WrittenJump("A");
    assert "" + "A" == "A";
    var p, q := Paged(At(3, 65, ""), Looped(), 0), Paged(At(3, 65, "A"), Advanced(37), 0);
    assert PRun(Looped(), q, 8, WRITTEN, 1) == PPaused(Paged(At(4, 65, "A"), Advanced(38), 0));
    assert PRun(Looped(), p, 8, WRITTEN, 3) == PRun(Looped(), q, 8, WRITTEN, 1);
  }
}
