/** core/chip32.c in its own form: RAM, state, log and cached page are updated in place by
    the handlers and the loop, each proved against the value-level step. */
module Chip32 {
  import opened Bits
  import opened Decimal
  import opened Machine
  import opened CommandFile
  import opened Paging

  /** What one pass reports and leaves. */
  predicate Passes(s: PagedStep, more: bool, ok: bool, p: Paged) {
    match s
    case PStopped(q) => ok && !more && p == q
    case PBroken => !ok
    case PStepped(q) => ok && more && p == q
  }

  /** What the loop reports and leaves. */
  predicate Ends(r: PagedRun, more: bool, ok: bool, p: Paged) {
    match r
    case PHalt(q) => ok && !more && p == q
    case PCrash => !ok
    case PPaused(q) => ok && more && p == q
  }

  class Chip {
    var ram: array<Word>
    var state: Status
    var out: string
    var data: array<Command>
    var ncmds: nat
    var pagecurrent: nat
    const file: seq<Byte>

    ghost function Core(): Vm
      reads this, ram
    {
      Vm(ram[..], state, out)
    }

    ghost function Abs(): Paged
      requires ncmds <= data.Length
      reads this, ram, data
    {
      Paged(Core(), data[..ncmds], pagecurrent)
    }

    ghost function Prog(): seq<Command> {
      Load(file)
    }

    ghost predicate Ready()
      reads this
    {
      ram.Length > FRM && ncmds <= data.Length && data.Length > 0
    }

    constructor (pagesize: nat, file: seq<Byte>)
      requires pagesize > 0
      ensures fresh(ram) && fresh(data) && data.Length == pagesize && ram.Length == 0
      ensures this.file == file && state == Running && out == ""
    {
      ram := new Word[0];
      data := new Command[pagesize](i => Command(0, 0, 0, 0));
      ncmds, pagecurrent, state, out := 0, 0, Running, "";
      this.file := file;
    }

    // ---------- operands ----------

    method GetWord(ty: nat, r: Word) returns (w: Option<Word>)
      ensures w == Machine.GetWord(Prog(), Core(), ty, r)
    {
      if ty == LITERAL {
        w := Some(r);
      } else if ty == RAM {
        w := if 0 <= r < ram.Length then Some(ram[r]) else None;
      } else if ty == PTR {
        w := if 0 <= r < ram.Length && 0 <= ram[r] < ram.Length then Some(ram[ram[r]]) else None;
      } else {
        var tmp := new Command[1](i => Command(0, 0, 0, 0));
        w := None;
        if r >= 0 {
          var n := PageLoadOne(r, tmp);
          w := if n == 1 then Some(tmp[0].arg0) else None;
        }
      }
    }

    method PageLoadOne(r: nat, tmp: array<Command>) returns (n: nat)
      requires tmp.Length == 1
      modifies tmp
      ensures n == if r < |Prog()| then 1 else 0
      ensures n == 1 ==> tmp[0] == Prog()[r]
    {
      n := PageLoad(file, r, tmp);
      if n == 1 {
        assert tmp[0] == Prog()[r + 0];
      }
    }

    method SetWord(ty: nat, r: Word, v: Word) returns (ok: bool)
      modifies this`state, ram
      ensures ok == Machine.SetWord(old(Core()), ty, r, v).Some?
      ensures ok ==> Core() == Machine.SetWord(old(Core()), ty, r, v).value
      ensures !ok ==> Core() == old(Core())
    {
      ok := true;
      if ty == RAM {
        if 0 <= r < ram.Length { ram[r] := v; } else { ok := false; }
      } else if ty == PTR {
        if 0 <= r < ram.Length && 0 <= ram[r] < ram.Length { ram[ram[r]] := v; } else { ok := false; }
      } else {
        state := Failed;
      }
    }

    // ---------- handlers ----------

    /** The operands of an arithmetic or boolean command, the second one read where it is
        needed, and its result. */
    method Computed(c: Command) returns (v: Option<Word>)
      requires IsAssign(c.cmd) && c.cmd != MOVE
      ensures v == Assigned(Prog(), Core(), c)
    {
      var x := GetWord(Arg0Type(c.flags), c.arg0);
      if x.None? {
        return None;
      }
      if IsUnary(c.cmd) {
        return Some(Unary(c.cmd, x.value));
      }
      if Decided(c.cmd, x.value) {
        return Some(Flag(c.cmd == BOR));
      }
      var y := GetWord(Arg1Type(c.flags), c.arg1);
      v := if y.None? then None else Binary(c.cmd, x.value, y.value);
    }

    /** move and every arithmetic or boolean command. */
    method CmdAssign(c: Command) returns (ok: bool)
      requires IsAssign(c.cmd)
      modifies this`state, ram
      ensures ok == ExecAssign(Prog(), old(Core()), c).Next?
      ensures ok ==> Core() == ExecAssign(Prog(), old(Core()), c).vm
    {
      var v: Option<Word>;
      if c.cmd == MOVE {
        v := GetWord(Arg1Type(c.flags), c.arg1);
      } else {
        v := Computed(c);
      }
      if v.None? {
        return false;
      }
      ok := SetWord(Arg0Type(c.flags), c.arg0, v.value);
    }

    /** ram[ram[STK]--] = v */
    method PushWord(v: Word) returns (ok: bool)
      requires ram.Length > FRM
      modifies ram
      ensures ok == Push(old(Core()), v).Some?
      ensures ok ==> Core() == Push(old(Core()), v).value
    {
      var s := ram[STK];
      ok := 0 <= s < ram.Length && s != STK;
      if ok {
        ram[s] := v;
        ram[STK] := s - 1;
      }
    }

    /** ram[++ram[STK]] */
    method PopWord() returns (v: Option<Word>)
      requires ram.Length > FRM
      modifies ram
      ensures v.Some? == Pop(old(Core())).Some?
      ensures v.Some? ==> Core() == Pop(old(Core())).value.0 && v.value == Pop(old(Core())).value.1
    {
      var t := ram[STK] as int + 1;
      if 0 <= t < ram.Length && t != STK && t <= MAXWORD {
        ram[STK] := t;
        v := Some(ram[t]);
      } else {
        v := None;
      }
    }

    method CmdCall(v: Word) returns (ok: bool)
      requires ram.Length > FRM
      modifies ram
      ensures ok == Call(old(Core()), v).Some?
      ensures ok ==> Core() == Call(old(Core()), v).value
    {
      ok := PushWord(ram[PC]);
      if ok {
        ok := PushWord(ram[FRM]);
        if ok {
          ram[FRM] := ram[STK];
          ram[PC] := Wrap(v - 1);
        }
      }
    }

    method CmdRet() returns (ok: bool)
      requires ram.Length > FRM
      modifies ram
      ensures ok == Ret(old(Core())).Some?
      ensures ok ==> Core() == Ret(old(Core())).value
    {
      ram[STK] := ram[FRM];
      var v := PopWord();
      ok := v.Some?;
      if ok {
        ram[FRM] := v.value;
        v := PopWord();
        ok := v.Some?;
        if ok {
          ram[PC] := v.value;
        }
      }
    }

    method CmdPop(c: Command) returns (ok: bool)
      requires c.cmd == POP && ram.Length > FRM
      modifies this`state, ram
      ensures ok == ExecFlow(Prog(), old(Core()), c).Next?
      ensures ok ==> Core() == ExecFlow(Prog(), old(Core()), c).vm
    {
      var v := PopWord();
      if v.None? {
        return false;
      }
      ok := SetWord(Arg0Type(c.flags), c.arg0, v.value);
    }

    method CmdFlow(c: Command) returns (ok: bool)
      requires IsFlow(c.cmd) && ram.Length > FRM
      modifies this`state, ram
      ensures ok == ExecFlow(Prog(), old(Core()), c).Next?
      ensures ok ==> Core() == ExecFlow(Prog(), old(Core()), c).vm
    {
      ok := true;
      if c.cmd == RET {
        ok := CmdRet();
        return;
      }
      if c.cmd == POP {
        ok := CmdPop(c);
        return;
      }
      var ty := Arg0Type(c.flags);
      var x := GetWord(ty, c.arg0);
      if x.None? {
        return false;
      }
      if c.cmd == JMP {
        ram[PC] := Wrap(x.value as int - 1);
      } else if c.cmd == CALL {
        ok := CmdCall(x.value);
      } else if c.cmd == PUSH {
        if (ty == RAM && c.arg0 == STK) || (ty == PTR && (c.arg0 == STK || ram[c.arg0] == STK)) {
          return false;
        }
        ok := PushWord(x.value);
      } else if (c.cmd == IFT) == (x.value == 0) {
        var y := GetWord(Arg1Type(c.flags), c.arg1);
        if y.None? {
          return false;
        }
        ram[PC] := Wrap(y.value as int - 1);
      }
    }

    /** logs advances the operand of the cached command with every character. */
    method CmdLogs(i: nat) returns (ok: bool)
      requires i < data.Length && data[i].cmd == LOGS
      modifies this`out, data
      ensures ok == ExecLog(Prog(), old(Core()), old(data[i])).Next?
      ensures ok ==> Next(Core(), data[i]) == ExecLog(Prog(), old(Core()), old(data[i]))
      ensures forall j :: 0 <= j < data.Length && j != i ==> data[j] == old(data[j])
    {
      ghost var whole := ExecLog(Prog(), Core(), data[i]);
      while true
        invariant data[i] == old(data[i]).(arg0 := data[i].arg0)
        invariant forall j :: 0 <= j < data.Length && j != i ==> data[j] == old(data[j])
        invariant ExecLog(Prog(), Core(), data[i]) == whole
        decreases MAXWORD - data[i].arg0
      {
        ghost var vm, c := Core(), data[i];
        var w := GetWord(Arg0Type(data[i].flags), data[i].arg0);
        if w.None? || data[i].arg0 == MAXWORD {
          return false;
        }
        LogsNext(Prog(), vm, c);
        data[i] := data[i].(arg0 := data[i].arg0 + 1);
        if w.value == 0 {
          return true;
        }
        out := out + [LogChar(w.value)];
      }
    }

    /** strcpy advances both operands of the cached command. */
    method CmdStrcpy(i: nat) returns (ok: bool)
      requires i < data.Length
      modifies this`state, ram, data
      ensures ok == ExecCopy(Prog(), old(Core()), old(data[i])).Next?
      ensures ok ==> Next(Core(), data[i]) == ExecCopy(Prog(), old(Core()), old(data[i]))
      ensures forall j :: 0 <= j < data.Length && j != i ==> data[j] == old(data[j])
    {
      var c := data[i];
      var ty := Arg0Type(c.flags);
      ghost var vm := Core();
      while true
        invariant data[i] == c.(arg0 := data[i].arg0, arg1 := data[i].arg1)
        invariant forall j :: 0 <= j < data.Length && j != i ==> data[j] == old(data[j])
        invariant CopyString(Prog(), vm, ty, c.arg0, c.arg1)
               == CopyString(Prog(), Core(), ty, data[i].arg0, data[i].arg1)
        decreases MAXWORD - data[i].arg1
      {
        var dst, src := data[i].arg0, data[i].arg1;
        var w := GetWord(ty, src);
        if w.None? || src == MAXWORD || dst == MAXWORD {
          return false;
        }
        ok := SetWord(ty, dst, w.value);
        if !ok {
          return false;
        }
        data[i] := data[i].(arg0 := dst + 1, arg1 := src + 1);
        if w.value == 0 {
          return true;
        }
      }
    }

    method CmdLog(i: nat) returns (ok: bool)
      requires i < data.Length && IsLog(data[i].cmd)
      modifies this`out, data
      ensures ok == ExecLog(Prog(), old(Core()), old(data[i])).Next?
      ensures ok ==> Next(Core(), data[i]) == ExecLog(Prog(), old(Core()), old(data[i]))
      ensures forall j :: 0 <= j < data.Length && j != i ==> data[j] == old(data[j])
    {
      var c := data[i];
      if c.cmd == LOGS {
        ok := CmdLogs(i);
        return;
      }
      if c.cmd == LOGLN {
        out := out + "\n";
        return true;
      }
      var x := GetWord(Arg0Type(c.flags), c.arg0);
      if x.None? {
        return false;
      }
      ok := true;
      if c.cmd == LOGI {
        out := out + PrintInt(x.value);
      } else if c.cmd == LOGU {
        out := out + PrintNat(Unsigned(x.value));
      } else {
        out := out + [LogChar(x.value)];
      }
    }

    /** The handler table. */
    method Handle(i: nat) returns (ok: bool)
      requires i < data.Length && ram.Length > FRM
      modifies this`state, this`out, ram, data
      ensures ok == Exec(Prog(), old(Core()), old(data[i])).Next?
      ensures ok ==> Next(Core(), data[i]) == Exec(Prog(), old(Core()), old(data[i]))
      ensures forall j :: 0 <= j < data.Length && j != i ==> data[j] == old(data[j])
    {
      var c := data[i];
      ok := true;
      if IsAssign(c.cmd) {
        ok := CmdAssign(c);
      } else if IsFlow(c.cmd) {
        ok := CmdFlow(c);
      } else if IsLog(c.cmd) {
        ok := CmdLog(i);
      } else if c.cmd == STRCPY {
        ok := CmdStrcpy(i);
      } else if c.cmd == INITR {
        state := Failed;
      }
    }

    // ---------- the loop ----------

    /** The reload at the top of the loop body. */
    method TurnPage(pc: nat)
      requires Ready()
      modifies this`ncmds, this`pagecurrent, data
      ensures Ready() && unchanged(ram)
      ensures Abs() == Turned(Prog(), old(Abs()), data.Length, WRITTEN, Div(pc, data.Length))
    {
      DivModAreBuiltin(pc, data.Length);
      var page := pc / data.Length;
      if page != pagecurrent {
        pagecurrent := page;
        ncmds := PageLoad(file, page, data);
        assert data[..ncmds] == Slice(Prog(), page, data.Length);
      }
    }

    /** The handler call and ++ram[PC]. */
    method PerformAt(pc: nat) returns (ok: bool)
      requires Ready() && pc < ncmds
      modifies this`state, this`out, ram, data
      ensures Ready()
      ensures match Dispatch(Prog(), old(Abs()), pc, WRITTEN)
        case PStopped(_) => false
        case PBroken => !ok
        case PStepped(q) => ok && Abs() == q
    {
      ghost var t := Abs();
      assert t.page[pc] == data[pc];
      ok := Handle(pc);
      if ok {
        assert data[..ncmds] == t.page[pc := data[pc]];
        if ram[PC] == MAXWORD {
          return false;
        }
        ram[PC] := ram[PC] + 1;
      }
    }

    /** One pass of the loop: whether it goes on, and whether it had a meaning. */
    method Once() returns (more: bool, ok: bool)
      requires Ready()
      modifies this`state, this`out, this`ncmds, this`pagecurrent, ram, data
      ensures Ready()
      ensures Passes(PStep(Prog(), old(Abs()), data.Length, WRITTEN), more, ok, Abs())
    {
      if state != Running {
        return false, true;
      }
      var pc := ram[PC];
      if pc < 0 {
        return false, false;
      }
      TurnPage(pc);
      DivModAreBuiltin(pc, data.Length);
      if pc % data.Length >= ncmds {
        return false, true;
      }
      if pc >= ncmds {
        return false, false;
      }
      ok := PerformAt(pc);
      more := true;
    }

    /** One pass, told by the step function alone. */
    method OnceBy(ghost step: Paged -> PagedStep) returns (more: bool, ok: bool)
      requires Ready()
      requires forall q {:trigger PStep(Prog(), q, data.Length, WRITTEN)} ::
                 step(q) == PStep(Prog(), q, data.Length, WRITTEN)
      modifies this`state, this`out, this`ncmds, this`pagecurrent, ram, data
      ensures Ready() && Passes(step(old(Abs())), more, ok, Abs())
    {
      more, ok := Once();
    }

    /** The passes, told by the step function alone. */
    method Passing(n: nat, ghost step: Paged -> PagedStep) returns (more: bool, ok: bool)
      requires Ready()
      requires forall q {:trigger PStep(Prog(), q, data.Length, WRITTEN)} ::
                 step(q) == PStep(Prog(), q, data.Length, WRITTEN)
      modifies this`state, this`out, this`ncmds, this`pagecurrent, ram, data
      ensures Ready() && Ends(PRunBy(step, old(Abs()), n), more, ok, Abs())
    {
      more, ok := true, true;
      var left: nat := n;
      while left > 0
        invariant Ready() && more && ok && left <= n
        invariant PRunBy(step, Abs(), left) == PRunBy(step, old(Abs()), n)
      {
        more, ok := OnceBy(step);
        if !more || !ok {
          return;
        }
        left := left - 1;
      }
    }

    /** chip32_run after its initr, for at most n passes. */
    method RunFor(n: nat) returns (more: bool, ok: bool)
      requires Ready()
      modifies this`state, this`out, this`ncmds, this`pagecurrent, ram, data
      ensures Ready() && Ends(PRun(Prog(), old(Abs()), data.Length, WRITTEN, n), more, ok, Abs())
    {
      ghost var prog, size := Prog(), data.Length;
      ghost var step := q => PStep(prog, q, size, WRITTEN);
      PRunIsPRunBy(prog, Abs(), size, WRITTEN, n);
      more, ok := Passing(n, step);
    }

    /** The start of chip32_run: page 0, and initr on it, which allocates RAM holding whatever
        memory does. */
    method Start(memory: nat -> Word) returns (ok: bool)
      requires data.Length > 0 && ram.Length == 0 && state == Running && out == ""
      modifies this, data
      ensures data == old(data)
      ensures ok <==> PBoot(Prog(), data.Length, memory).Some?
      ensures ok ==> fresh(ram) && Ready() && Abs() == PBoot(Prog(), data.Length, memory).value
    {
      ncmds := PageLoad(file, 0, data);
      pagecurrent := 0;
      assert data[..ncmds] == Slice(Prog(), 0, data.Length);
      if data[0].cmd != INITR {
        return false;
      }
      var size := Unsigned(data[0].arg0);
      if size <= FRM {
        return false;
      }
      ram := new Word[size](i requires 0 <= i => memory(i));
      assert ram[..] == seq(size, i requires 0 <= i => memory(i));
      ram[PC] := 1;
      ram[STK] := Wrap(size - 1);
      ram[FRM] := Wrap(size - 1);
      ok := true;
    }
  }

  /** What is read does not depend on what was printed. */
  lemma {:induction false} SameRead(prog: seq<Command>, vm: Vm, s: string, ty: nat, r: Word)
    ensures ReadString(prog, Log(vm, s), ty, r) == ReadString(prog, vm, ty, r)
    decreases MAXWORD - r
  {
    if r < MAXWORD {
      SameRead(prog, vm, s, ty, r + 1);
    }
  }

  /** One character of logs, and the rest of it. */
  lemma LogsNext(prog: seq<Command>, vm: Vm, c: Command)
    requires c.cmd == LOGS && c.arg0 < MAXWORD
    ensures var w, c' := Machine.GetWord(prog, vm, Arg0Type(c.flags), c.arg0), c.(arg0 := c.arg0 + 1);
      && (w == Some(0) ==> ExecLog(prog, vm, c) == Next(vm, c'))
      && (w.Some? && w.value != 0 ==> ExecLog(prog, vm, c) == ExecLog(prog, Log(vm, [LogChar(w.value)]), c'))
  {
    var ty := Arg0Type(c.flags);
    var w := Machine.GetWord(prog, vm, ty, c.arg0);
    assert vm.out + "" == vm.out;
    if w.Some? && w.value != 0 {
      var rest := ReadString(prog, vm, ty, c.arg0 + 1);
      SameRead(prog, vm, [LogChar(w.value)], ty, c.arg0 + 1);
      if rest.Some? {
        assert vm.out + ([LogChar(w.value)] + rest.value.0) == vm.out + [LogChar(w.value)] + rest.value.0;
      }
    }
  }
}
