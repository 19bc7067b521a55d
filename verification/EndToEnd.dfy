/** The assembler object, the program file and the processor object put together. */
module EndToEnd {
  import opened Bits
  import opened StringPrograms
  import opened StringPrinting
  import opened Assembler
  import opened Chip32

  /** Assemble a program of strings from its source, save it, and run the file on one page:
      the log is the strings and newlines that were asked for. */
  method AssembleAndRun(size: nat, vars: seq<StringVar>, outs: seq<Output>, pagesize: nat, memory: nat -> Word,
                        steps: nat)
    returns (ok: bool, log: string)
    requires Shown(vars, outs) && Distinct(vars) && Fits(size, vars, outs)
    requires |Program(size, vars, outs)| < pagesize && |Program(size, vars, outs)| <= steps
    ensures ok && log == Expected(vars, outs)
  {
    PrintsItsStrings(size, vars, outs, pagesize, memory, steps);
    var compiler := new Compiler(Source(size, vars, outs));
    var ret := compiler.Build();
    var file := compiler.Save();
    ok, log := RunFile(pagesize, file, memory, steps, Expected(vars, outs));
  }

  /** Load a program file that prints a text, run it and read the log. */
  method RunFile(pagesize: nat, file: seq<Byte>, memory: nat -> Word, steps: nat, ghost expected: string)
    returns (ok: bool, log: string)
    requires pagesize > 0 && Prints(file, pagesize, memory, steps, expected)
    ensures ok && log == expected
  {
    var chip := new Chip(pagesize, file);
    ok := chip.Start(memory);
    var more: bool;
    more, ok := chip.RunFor(steps);
    log := chip.out;
    assert ok && !more;
  }
}
