/** The chip32 processor of core/chip32.c over a whole program: operand access, every
    command, and the step loop. RAM cells 32, 33 and 34 are PC, STK and FRM. */
module Machine {
  import opened Bits
  import opened Decimal

  datatype Option<+T> = None | Some(value: T)

  datatype Command = Command(flags: Byte, cmd: Byte, arg0: Word, arg1: Word)

  datatype Status = Running | Ended | Failed

  /** The processor's RAM, its state word and what it has written to the log. */
  datatype Vm = Vm(ram: seq<Word>, status: Status, out: string)

  const PC := 32
  const STK := 33
  const FRM := 34

  const NOP: Byte := 0x00
  const MOVE: Byte := 0x01
  const INC: Byte := 0x02
  const DEC: Byte := 0x03
  const SUM: Byte := 0x04
  const DIF: Byte := 0x05
  const MUL: Byte := 0x06
  const DIV: Byte := 0x07
  const MOD: Byte := 0x08
  const OR: Byte := 0x09
  const XOR: Byte := 0x0A
  const AND: Byte := 0x0B
  const NOT: Byte := 0x0C
  const SHL: Byte := 0x0D
  const SHR: Byte := 0x0E
  const ROL: Byte := 0x0F
  const ROR: Byte := 0x10
  const BOR: Byte := 0x11
  const BAND: Byte := 0x12
  const BNOT: Byte := 0x13
  const JMP: Byte := 0x20
  const IFT: Byte := 0x21
  const IFF: Byte := 0x22
  const CALL: Byte := 0x23
  const RET: Byte := 0x24
  const PUSH: Byte := 0x25
  const POP: Byte := 0x26
  const INITR: Byte := 0x30
  const LOGI: Byte := 0x40
  const LOGU: Byte := 0x41
  const LOGC: Byte := 0x42
  const LOGS: Byte := 0x43
  const LOGLN: Byte := 0x44
  const STRCPY: Byte := 0x50

  const LITERAL := 0
  const RAM := 1
  const PTR := 2
  const DATA := 3

  const MAXWORD: Word := 0x7FFF_FFFF
  const MINWORD: Word := -0x8000_0000

  function Arg0Type(flags: Byte): nat {
    flags % 4
  }

  function Arg1Type(flags: Byte): nat {
    flags / 4 % 4
  }

  predicate InRam(vm: Vm, a: int) {
    0 <= a < |vm.ram|
  }

  // ---------- operands ----------

  /** chip32_getword; None where the C program reads outside the array or an
      uninitialised word. */
  function GetWord(prog: seq<Command>, vm: Vm, ty: nat, r: Word): Option<Word> {
    if ty == LITERAL then Some(r)
    else if ty == RAM then (if InRam(vm, r) then Some(vm.ram[r]) else None)
    else if ty == PTR then (if InRam(vm, r) && InRam(vm, vm.ram[r]) then Some(vm.ram[vm.ram[r]]) else None)
    else (if 0 <= r < |prog| then Some(prog[r].arg0) else None)
  }

  /** chip32_setword: only RAM and pointer operands can be stored to, the others fail. */
  function SetWord(vm: Vm, ty: nat, r: Word, v: Word): Option<Vm> {
    if ty == RAM then (if InRam(vm, r) then Some(vm.(ram := vm.ram[r := v])) else None)
    else if ty == PTR then
      (if InRam(vm, r) && InRam(vm, vm.ram[r]) then Some(vm.(ram := vm.ram[vm.ram[r] := v])) else None)
    else Some(vm.(status := Failed))
  }

  // ---------- arithmetic ----------

  function Abs(x: int): nat {
    if x < 0 then -x else x
  }

  /** Division and remainder truncate towards zero; both trap on 0 and on MIN / -1. */
  function Quotient(x: Word, y: Word): Option<Word> {
    if y == 0 || (x == MINWORD && y == -1) then None
    else
      var q: int := Div(Abs(x), Abs(y));
      Some(Wrap(if (x < 0) == (y < 0) then q else -q))
  }

  function Remainder(x: Word, y: Word): Option<Word> {
    if y == 0 || (x == MINWORD && y == -1) then None
    else
      var r: int := Mod(Abs(x), Abs(y));
      Some(Wrap(if x < 0 then -r else r))
  }

  /** Both rotation handlers compute the same left rotation, defined for 1 to 31 places. */
  function Rotate(x: Word, y: Word): Option<Word> {
    if 1 <= y <= 31 then
      Some(Wrap(Or(Shl(Unsigned(x), y) % 0x1_0000_0000, Shr(Unsigned(x), 32 - y))))
    else None
  }

  function Flag(b: bool): Word {
    if b then 1 else 0
  }

  predicate IsUnary(op: Byte) {
    op == INC || op == DEC || op == NOT || op == BNOT
  }

  predicate IsBinary(op: Byte) {
    SUM <= op <= BAND && op != NOT
  }

  function Unary(op: Byte, x: Word): Word
    requires IsUnary(op)
  {
    if op == INC then Wrap(x + 1)
    else if op == DEC then Wrap(x - 1)
    else if op == NOT then Wrap(-1 - x)
    else Flag(x == 0)
  }

  function Binary(op: Byte, x: Word, y: Word): Option<Word>
    requires IsBinary(op)
  {
    if op == SUM then Some(Wrap(x + y))
    else if op == DIF then Some(Wrap(x - y))
    else if op == MUL then Some(Wrap(Product(x, y)))
    else if op == DIV then Quotient(x, y)
    else if op == MOD then Remainder(x, y)
    else if op == OR then Some(Wrap(Or(Unsigned(x), Unsigned(y))))
    else if op == XOR then Some(Wrap(Xor(Unsigned(x), Unsigned(y))))
    else if op == AND then Some(Wrap(And(Unsigned(x), Unsigned(y))))
    else if op == SHL then (if 0 <= y < 32 then Some(Wrap(Shl(x, y))) else None)
    else if op == SHR then (if 0 <= y < 32 then Some(Wrap(Sar(x, y))) else None)
    else if op == ROL || op == ROR then Rotate(x, y)
    else if op == BOR then Some(Flag(x != 0 || y != 0))
    else Some(Flag(x != 0 && y != 0))
  }

  /** bor and band do not look at their second operand when the first one decides. */
  predicate Decided(op: Byte, x: Word) {
    (op == BOR && x != 0) || (op == BAND && x == 0)
  }

  // ---------- commands ----------

  /** What a handler leaves: the processor and, because logs and strcpy advance the operands
      of the cached command itself, that command. Undefined where C gives no meaning. */
  datatype Outcome = Undefined | Next(vm: Vm, cmd: Command)

  predicate IsAssign(op: Byte) {
    op == MOVE || IsUnary(op) || IsBinary(op)
  }

  /** The word an assigning command stores. */
  function Assigned(prog: seq<Command>, vm: Vm, c: Command): Option<Word>
    requires IsAssign(c.cmd)
  {
    var x := GetWord(prog, vm, Arg0Type(c.flags), c.arg0);
    var y := GetWord(prog, vm, Arg1Type(c.flags), c.arg1);
    if c.cmd == MOVE then y
    else if x.None? then None
    else if IsUnary(c.cmd) then Some(Unary(c.cmd, x.value))
    else if Decided(c.cmd, x.value) then Some(Flag(c.cmd == BOR))
    else if y.None? then None
    else Binary(c.cmd, x.value, y.value)
  }

  /** ram[ram[STK]--] = v; the store and the decrement clash when STK names itself. */
  function Push(vm: Vm, v: Word): Option<Vm>
    requires |vm.ram| > FRM
  {
    var s := vm.ram[STK];
    if InRam(vm, s) && s != STK then Some(vm.(ram := vm.ram[s := v][STK := s - 1])) else None
  }

  /** ram[++ram[STK]] */
  function Pop(vm: Vm): Option<(Vm, Word)>
    requires |vm.ram| > FRM
  {
    var t := vm.ram[STK] as int + 1;
    if InRam(vm, t) && t != STK && t <= MAXWORD then Some((vm.(ram := vm.ram[STK := t]), vm.ram[t])) else None
  }

  function Jump(vm: Vm, v: Word): Vm
    requires |vm.ram| > FRM
  {
    vm.(ram := vm.ram[PC := Wrap(v - 1)])
  }

  function Call(vm: Vm, v: Word): Option<Vm>
    requires |vm.ram| > FRM
  {
    var a := Push(vm, vm.ram[PC]);
    if a.None? then None
    else
      var b := Push(a.value, a.value.ram[FRM]);
      if b.None? then None
      else Some(Jump(b.value.(ram := b.value.ram[FRM := b.value.ram[STK]]), v))
  }

  function Ret(vm: Vm): Option<Vm>
    requires |vm.ram| > FRM
  {
    var a := Pop(vm.(ram := vm.ram[STK := vm.ram[FRM]]));
    if a.None? then None
    else
      var b := Pop(a.value.0.(ram := a.value.0.ram[FRM := a.value.1]));
      if b.None? then None
      else Some(b.value.0.(ram := b.value.0.ram[PC := b.value.1]))
  }

  /** push evaluates its operand and ram[STK]-- in no fixed order. */
  predicate ReadsStk(vm: Vm, ty: nat, r: Word) {
    (ty == RAM && r == STK) || (ty == PTR && (r == STK || (InRam(vm, r) && vm.ram[r] == STK)))
  }

  function LogChar(w: Word): char {
    (w % 256) as char
  }

  /** The characters logs prints from r on, and the operand left in the command. */
  function ReadString(prog: seq<Command>, vm: Vm, ty: nat, r: Word): Option<(string, Word)>
    decreases MAXWORD - r
  {
    var w := GetWord(prog, vm, ty, r);
    if w.None? || r == MAXWORD then None
    else if w.value == 0 then Some(("", r + 1))
    else
      var rest := ReadString(prog, vm, ty, r + 1);
      if rest.None? then None else Some(([LogChar(w.value)] + rest.value.0, rest.value.1))
  }

  /** strcpy: both operands are read with the first operand's type. */
  function CopyString(prog: seq<Command>, vm: Vm, ty: nat, dst: Word, src: Word): Option<(Vm, Word, Word)>
    decreases MAXWORD - src
  {
    var w := GetWord(prog, vm, ty, src);
    if w.None? || src == MAXWORD || dst == MAXWORD then None
    else
      var vm' := SetWord(vm, ty, dst, w.value);
      if vm'.None? then None
      else if w.value == 0 then Some((vm'.value, dst + 1, src + 1))
      else CopyString(prog, vm'.value, ty, dst + 1, src + 1)
  }

  function Log(vm: Vm, s: string): Vm {
    vm.(out := vm.out + s)
  }

  function Plain(vm: Option<Vm>, c: Command): Outcome {
    if vm.None? then Undefined else Next(vm.value, c)
  }

  function ExecAssign(prog: seq<Command>, vm: Vm, c: Command): Outcome
    requires IsAssign(c.cmd)
  {
    var v := Assigned(prog, vm, c);
    if v.None? then Undefined else Plain(SetWord(vm, Arg0Type(c.flags), c.arg0, v.value), c)
  }

  predicate IsFlow(op: Byte) {
    JMP <= op <= POP
  }

  function ExecFlow(prog: seq<Command>, vm: Vm, c: Command): Outcome
    requires IsFlow(c.cmd) && |vm.ram| > FRM
  {
    var ty := Arg0Type(c.flags);
    var x := GetWord(prog, vm, ty, c.arg0);
    if c.cmd == RET then Plain(Ret(vm), c)
    else if c.cmd == POP then
      var p := Pop(vm);
      if p.None? then Undefined else Plain(SetWord(p.value.0, ty, c.arg0, p.value.1), c)
    else if x.None? then Undefined
    else if c.cmd == JMP then Next(Jump(vm, x.value), c)
    else if c.cmd == CALL then Plain(Call(vm, x.value), c)
    else if c.cmd == PUSH then
      if ReadsStk(vm, ty, c.arg0) then Undefined else Plain(Push(vm, x.value), c)
    else if (c.cmd == IFT) == (x.value == 0) then
      var y := GetWord(prog, vm, Arg1Type(c.flags), c.arg1);
      if y.None? then Undefined else Next(Jump(vm, y.value), c)
    else Next(vm, c)
  }

  predicate IsLog(op: Byte) {
    LOGI <= op <= LOGLN
  }

  function ExecLog(prog: seq<Command>, vm: Vm, c: Command): Outcome
    requires IsLog(c.cmd)
  {
    var ty := Arg0Type(c.flags);
    var x := GetWord(prog, vm, ty, c.arg0);
    if c.cmd == LOGLN then Next(Log(vm, "\n"), c)
    else if c.cmd == LOGS then
      var s := ReadString(prog, vm, ty, c.arg0);
      if s.None? then Undefined else Next(Log(vm, s.value.0), c.(arg0 := s.value.1))
    else if x.None? then Undefined
    else if c.cmd == LOGI then Next(Log(vm, PrintInt(x.value)), c)
    else if c.cmd == LOGU then Next(Log(vm, PrintNat(Unsigned(x.value))), c)
    else Next(Log(vm, [LogChar(x.value)]), c)
  }

  function ExecCopy(prog: seq<Command>, vm: Vm, c: Command): Outcome {
    var s := CopyString(prog, vm, Arg0Type(c.flags), c.arg0, c.arg1);
    if s.None? then Undefined else Next(s.value.0, c.(arg0 := s.value.1, arg1 := s.value.2))
  }

  /** The handler table: every unlisted opcode is a nop, and a second initr fails. */
  function Exec(prog: seq<Command>, vm: Vm, c: Command): Outcome
    requires |vm.ram| > FRM
  {
    if IsAssign(c.cmd) then ExecAssign(prog, vm, c)
    else if IsFlow(c.cmd) then ExecFlow(prog, vm, c)
    else if IsLog(c.cmd) then ExecLog(prog, vm, c)
    else if c.cmd == STRCPY then ExecCopy(prog, vm, c)
    else if c.cmd == INITR then Next(vm.(status := Failed), c)
    else Next(vm, c)
  }

  lemma {:induction false} CopyKeepsSize(prog: seq<Command>, vm: Vm, ty: nat, dst: Word, src: Word)
    ensures var r := CopyString(prog, vm, ty, dst, src);
      r.Some? ==> |r.value.0.ram| == |vm.ram| && r.value.0.out == vm.out
    decreases MAXWORD - src
  {
    var w := GetWord(prog, vm, ty, src);
    if w.Some? && src != MAXWORD && dst != MAXWORD {
      var vm' := SetWord(vm, ty, dst, w.value);
      if vm'.Some? && w.value != 0 {
        CopyKeepsSize(prog, vm'.value, ty, dst + 1, src + 1);
      }
    }
  }

  lemma ExecKeepsSize(prog: seq<Command>, vm: Vm, c: Command)
    requires |vm.ram| > FRM
    ensures var r := Exec(prog, vm, c);
      r.Next? ==> |r.vm.ram| == |vm.ram|
  {
    if c.cmd == STRCPY {
      CopyKeepsSize(prog, vm, Arg0Type(c.flags), c.arg0, c.arg1);
    }
  }

  // ---------- the run loop over a whole program ----------

  /** Stopped: the loop ends. Broken: C gives the step no meaning. */
  datatype Step = Stopped | Broken | Stepped(vm: Vm)

  function Increment(vm: Vm): Step
    requires |vm.ram| > FRM
  {
    if vm.ram[PC] == MAXWORD then Broken else Stepped(vm.(ram := vm.ram[PC := vm.ram[PC] + 1]))
  }

  /** The handler call and ++ram[PC]. */
  function Perform(prog: seq<Command>, vm: Vm, c: Command): (s: Step)
    requires |vm.ram| > FRM
    ensures s != Stopped && (s.Stepped? ==> |s.vm.ram| == |vm.ram|)
  {
    ExecKeepsSize(prog, vm, c);
    var r := Exec(prog, vm, c);
    if r.Undefined? then Broken else Increment(r.vm)
  }

  function DoStep(prog: seq<Command>, vm: Vm): (s: Step)
    ensures s.Stepped? ==> |s.vm.ram| == |vm.ram| > FRM && vm.status == Running && 0 <= vm.ram[PC] < |prog|
  {
    if vm.status != Running then Stopped
    else if |vm.ram| <= FRM || vm.ram[PC] < 0 then Broken
    else if vm.ram[PC] >= |prog| then Stopped
    else Perform(prog, vm, prog[vm.ram[PC]])
  }

  /** The result of at most n steps. */
  datatype RunResult = Halt(vm: Vm) | Crash | Paused(vm: Vm)

  function Run(prog: seq<Command>, vm: Vm, n: nat): RunResult
    decreases n
  {
    if n == 0 then Paused(vm)
    else
      match DoStep(prog, vm)
      case Stopped => Halt(vm)
      case Broken => Crash
      case Stepped(vm') => Run(prog, vm', n - 1)
  }

  /** initr on a processor without RAM: fresh memory with the three registers set. Cells are
      addressed up to FRM, so fewer than 35 words are outside the model. */
  function Boot(prog: seq<Command>, memory: nat -> Word): Option<Vm> {
    if prog == [] || prog[0].cmd != INITR || Unsigned(prog[0].arg0) <= FRM then None
    else
      var size := Unsigned(prog[0].arg0);
      var top := Wrap(size - 1);
      var ram := seq(size, i requires 0 <= i => memory(i));
      Some(Vm(ram[PC := 1][STK := top][FRM := top], Running, ""))
  }
}
