# chip32 and its libraries, verified

A Dafny model of the chip32 virtual machine, its assembler and the library code under them, with
proofs of what they promise. `dafny verify dfyconfig.toml` checks everything.

## What is modelled

**The Robin Hood hash table** (`core/rbhash.c`). `RobinHood.dfy` has the slots, insertion by
displacement and the windowed lookup over sequences; `HashTable.dfy` growth and adds;
`HashRemoval.dfy` removal; `HashSearch.dfy` the search iterator; `HashRuns.dfy` whole histories
of operations against the multimap they stand for, `HashMaps.dfy` those that add no key twice
against a map; `HashHistories.dfy` concrete ones in which the table as written goes wrong.
`RbHash.dfy` is the table object itself: an array updated in place, every method proved equal to
the functions, and the search object.

**The processor** (`core/chip32.c`). `Machine.dfy` has operand access, every command and the
step loop over a whole program. RAM cells 32, 33 and 34 are PC, STK and FRM. `CallFrames.dfy`
proves the frame chain and call/return restoration, `StringCopy.dfy` the strcpy command,
`Relocation.dfy` lockstep of moved code, `Paging.dfy` the paged fetch, `CachedOperands.dfy` the
cached commands that advance their own operands, `Arithmetic.dfy` what the arithmetic commands
compute bit by bit and in terms of the built-in operators, `CommandMeanings.dfy` what each
command does to the cells, the log and PC. `Chip32.dfy` is the processor object: RAM and page
arrays, state, log, handlers and loop, proved against the step. `CommandFile.dfy` is the program
file as bytes.

**The assembler** (`core/c32asmlex.c`, `core/c32asmpars.c`, `core/c32asm.c`). `Lexer.dfy`,
`Decimal.dfy` and `Parser.dfy` give the tokens, numbers and actions as functions of the source;
`Spellings.dfy` and `OperandMeanings.dfy` say what is written how and what it means when it
runs, `Opcodes.dfy` the instruction set, `Declarations.dfy` which cells declared names own.
`Assembler.dfy` is the compiler object whose loops advance the read position, fill the tokens of
the last line, append commands and move the next free address. `SourceText.dfy` writes lines out
and proves how they are read back, `Disassembler.dfy` is the dump and its round trip,
`ShiftedText.dfy` and `FollowedText.dfy` read the same text at two places and with more text
behind it, `AlikeTokens.dfy` says what the parser reads of it, `BlockMoves.dfy` assembles it at
two code positions, and `SourceBlocks.dfy` runs it inside two whole sources. `NameTable.dfy`
puts the hash table in the place of the map of declared names. `StringPrograms.dfy`,
`StringPrinting.dfy` and `EndToEnd.dfy` take the example program, generalised to all strings,
from its text to its output.

**Codecs and hashes.** `Base64.dfy` (`core/str.c`), `HashMix.dfy` (`core/hashalg.c`), and in
`Bits.dfy` the bit arithmetic of `include/sos_type.h`.

## Where the code departs from its intent

Each departure is modelled as the code has it; the intended form stands beside it, and where the
code only sometimes does what is meant, the exact condition is proved.

- Growth tells live slots by `key[0]`, all other code by `len` (`core/rbhash.c:112`). `Form`
  chooses: `AsWritten` or `Repaired`. So a stored key that starts with a zero byte is lost:
  `GrowthPreservesIff` gives the condition, `AddIsSafe` is the guard it makes of an add, and
  `ZeroKeyIsLost` is an add that loses its own key. And a slot never used, in which malloc left
  a non-zero byte (`core/rbhash.c:101`), is pushed down like an entry, which can leave a gap in
  a cluster: `DeadPushOrderIff` gives the condition and `GarbageHistory` two adds to a new table
  that lose the Robin Hood invariant. The entries and their distances survive it (`GrowKeeps`,
  `AddHashKeepsExact`), so that lookups, the search and the first removal are right over any
  memory.
- Removal shifts one slot and leaves its distance (`core/rbhash.c:232-246`). `ShiftOnce` is the
  code, `ShiftBack` the whole run moved back with its distances. `ShiftOnceReachableIff` and
  `ShiftOnceOrderIff` say exactly when the code's shift does no harm, `RemovalIsSafe` is the
  guard of a removal that follows; `LossyHistory` is a run of five operations after which a
  stored key is not found. The first removal after insertions alone never does harm
  (`FirstRemovalAfterAdds`).
- A reload passes the page number where a command index is meant, and the fetch uses the whole
  PC as index into the page (`core/chip32.c:371-380`): `Form.rawIndex`. `RawStepIff` is the
  condition, `FullPageFallsOff` the case of a program that just fills its page.
- logs and strcpy advance the operands of the cached command (`core/chip32.c:263`,
  `core/chip32.c:278-279`): `Form.liveOperands`. `UsedLogsIff` and `UsedStrcpyIff` are the
  conditions on RAM under which any later execution does the right step, `LoopedLogsDiffer` is a
  program that prints less than it should, and `WrittenRun` covers runs that repeat neither.
- strcpy reads its source with the first operand's type, and both rotations turn left
  (`BinaryComputes`); a label stands for the number of lexed lines (`LabelStands`); an explicit
  declare address is read from the name's token and so is 0 (`ExplicitStandsAtZero`); a declared
  text ends at a quote that a backslash was to take along (`TextIsWholeIff`). These are kept as
  they are.
- The dump prints one operand for `not` and `push`, for which the assembler wants two, and ift
  and iff get their position added again, so these four do not survive the round trip;
  `RoundTripIff` covers every command.

## Reading the model

C leaves some steps without a meaning: reading or writing outside RAM, division by zero, shifts
and rotations outside their range, an uninitialised word after a failed page load. Handlers
answer `Undefined` there and runs `Crash`. Signed arithmetic wraps. Data pointers are numbers, 0
being NULL. What malloc leaves in fresh memory is a parameter (`memory`), and a theorem holds
for any content unless its row names a condition on it. Loops without a bound of their own take
a number of passes, and results are stated for every such number.

## Model

| member | source | states |
|---|---|---|
| Bits.RoundUpPow2Correct | include/sos_type.h:92-102 | the smearing macro yields the least power of two at or above n for 1 to 2^31, and wraps to 0 for every other 32-bit value |
| Bits.FastModIsMod | include/sos_type.h:88 | masking by m - 1 is the remainder modulo m for every power of two m |
| Arithmetic.MulWraps | core/chip32.c:89-93 | mul gives the product modulo 2^32 |
| Arithmetic.DivModTruncate | core/chip32.c:95-105 | quotient and remainder recombine to the dividend, the remainder is smaller than the divisor and has the sign of the dividend; there is none exactly for division by 0 and of the least word by -1 |
| Arithmetic.ShiftsScale | core/chip32.c:130-140 | for 0 to 31 places shl multiplies by the power of two modulo 2^32 and shr divides by it rounding down |
| Arithmetic.BinaryComputes | core/chip32.c:77-170 | every command with two operands has a result exactly where C gives it one: sum, difference and product modulo 2^32, the truncated quotient and remainder, or, xor, and and the rotations bit by bit, the shifts by powers of two, and 0 or 1 for bor and band |
| Arithmetic.UnaryComputes | core/chip32.c:67-175 | inc and dec count modulo 2^32, not flips all 32 bits, and bnot gives 1 for 0 and 0 for all else |
| CommandMeanings.MoveStores | core/chip32.c:61-65 | move puts the word its second operand stands for, spelled out for each operand type, into the cell its first one names, and changes nothing else but PC |
| CommandMeanings.UnaryStores | core/chip32.c:67-175 | inc, dec, not and bnot put their result into the cell they name |
| CommandMeanings.BinaryStores | core/chip32.c:77-170 | the commands with two operands put their result into the cell the first one names |
| CommandMeanings.BinaryBreaks | core/chip32.c:95-158 | division by 0 and of the least word by -1, and shifts and rotations out of range, have no result |
| CommandMeanings.DecidedStores | core/chip32.c:160-170 | a bor whose first word is not 0 and a band whose first word is 0 need no second operand |
| CommandMeanings.JumpGoes | core/chip32.c:177-181 | jmp leaves PC at the word of its operand, at every operand type, and changes nothing else |
| CommandMeanings.BranchGoes | core/chip32.c:183-195 | ift goes to its target when its word is 0 and on otherwise, iff the other way round, and neither changes anything else |
| CommandMeanings.CallEnters | core/chip32.c:197-204 | whatever the stack is, a call that goes through leaves PC at the word of its operand |
| CommandMeanings.CallLeaves | core/chip32.c:197-204 | call leaves PC and FRM in the two cells from STK down, STK and FRM below them, PC at the routine, and every other cell as it was |
| CommandMeanings.RetLeaves | core/chip32.c:206-210 | ret takes FRM and PC back from the two cells above the frame, goes on behind the call, and changes nothing else but STK |
| CommandMeanings.PushStores | core/chip32.c:212-215 | push puts the word of its operand where STK points and takes STK down by one |
| CommandMeanings.PopLoads | core/chip32.c:217-220 | pop takes STK up by one and puts the word there into the cell its operand names |
| CommandMeanings.PushPop | core/chip32.c:212-220 | a push and a pop into another cell move the word there and give STK back |
| CommandMeanings.SignedPrints | core/chip32.c:242-246 | logi adds the word in base ten, with a minus sign where it is negative and no leading zeros |
| CommandMeanings.UnsignedPrints | core/chip32.c:248-252 | logu adds the word taken modulo 2^32 in base ten |
| CommandMeanings.CharPrints | core/chip32.c:254-270 | logc adds the byte of the word, logln a newline |
| CommandMeanings.NopCounts | core/chip32.c:59 | nop and every opcode without a handler change nothing but PC |
| CommandMeanings.FailingSteps | core/chip32.c:51-57 | a second initr, and a move to a literal or to the program, end the run as failed |
| CommandMeanings.BootLeaves | core/chip32.c:222-240 | initr n makes n cells, with PC 1, STK and FRM at the last one, and the others as malloc left them |
| CommandMeanings.FirstNeeded | core/chip32.c:34-49 | a command whose first word cannot be read has no meaning |
| CommandMeanings.SecondNeeded | core/chip32.c:34-49 | nor has one whose second word is needed and cannot be read |
| CommandMeanings.TargetNeeded | core/chip32.c:51-57 | a store where the operand names no cell has no meaning |
| CommandMeanings.StackNeeded | core/chip32.c:197-220 | push and call have no meaning where STK points outside RAM or at itself, pop where no cell lies above STK, and push where its operand reads STK |
| CommandMeanings.LoopEnds | core/chip32.c:364-382 | the loop ends where the state is not running or PC is past the program, and nowhere else |
| RobinHood.SwapDownAddsEntry | core/rbhash.c:66-92 | with a dead slot ahead, insertion by displacement succeeds and the bag of (key, hash, data) entries grows by exactly the new one |
| RobinHood.SwapDownFull | core/rbhash.c:86-90 | on a table without a dead slot the insertion of a live element fails |
| RobinHood.SwapDownKeepsBounded | core/rbhash.c:72-85 | after any insertion no entry lies further from its home slot than maxdistance, whatever the dead slots hold |
| RobinHood.SwapDownKeepsOrder | core/rbhash.c:66-92 | the Robin Hood invariant (stored distance is the displacement, no gap and no jump over one in a cluster, distance at most maxdistance below size) survives every displacement and wrap-around |
| RobinHood.SwapDownKeepsExact | core/rbhash.c:66-92 | over any content of the dead slots, an insertion with a hole ahead, of a dead element too, leaves every stored distance the displacement of its entry and at most maxdistance |
| RobinHood.SwapDownKeepsWindow | core/rbhash.c:66-92 | whatever distances the slots store, an insertion with a hole ahead keeps maxdistance below the size |
| RobinHood.DeadPushOrderIff | core/rbhash.c:66-92 | pushing down a dead element keeps the Robin Hood invariant if and only if it meets a dead slot before any entry nearer to its home than the element has been carried |
| RobinHood.RunBehind | core/rbhash.c:72-85 | an entry d slots from home has d live slots right behind it |
| RobinHood.LookupIsExact | core/rbhash.c:153-167 | although the scan never stops at a dead slot, the window of maxdistance + 1 finds an entry with the key and hash exactly when one is stored |
| HashTable.NewIsEmpty | core/rbhash.c:8-31 | a new table is the empty multimap, valid and ordered, at least as large as asked, whatever malloc returned |
| HashTable.ReinsertKeeps | core/rbhash.c:109-115 | moving the old slots over never fails when the live ones fit, keeps exactly the unskipped entries and rebuilds a maxdistance that bounds them |
| HashTable.ReinsertKeepsOrder | core/rbhash.c:109-115 | growth re-establishes the Robin Hood invariant when every dead slot is skipped |
| HashTable.GrowKeeps | core/rbhash.c:100-119 | growth into any larger power of two succeeds and keeps the bag of entries and a power-of-two size |
| HashTable.GrowthPreservesIff | core/rbhash.c:108-119 | growth keeps the bag of entries if and only if no stored key starts with a zero byte, or the test is on len |
| HashTable.AddHashCorrect | core/rbhash.c:122-140 | an add rejects exactly the long keys and fails exactly on a full table; otherwise it counts, leaves a slot free where there is a margin, and adds exactly its entry if and only if the growth it triggers, as written, meets no key that starts with a zero byte |
| HashTable.AddHashKeepsOrder | core/rbhash.c:122-140 | an add with the growth it triggers keeps the Robin Hood invariant, and that growth skips every dead slot, where it did so before: repaired always, as written over memory that reads as zero |
| HashTable.QuietAddKeepsOrder | core/rbhash.c:122-140 | over any memory, an add keeps the Robin Hood invariant when each garbage slot its growth pushes down meets a dead slot before any entry nearer to its home |
| HashTable.AddHashKeepsExact | core/rbhash.c:122-140 | in either form and over any memory, an add with its growth keeps maxdistance below the size, and stored distances exact where they were |
| HashTable.ZeroKeyIsLost | core/rbhash.c:108-140 | as written, adding a key that starts with a zero byte to a new table of size 1 reports success and counts it, and after the growth nothing is stored or found |
| HashTable.FindAnswers | core/rbhash.c:169-183 | find returns the data of some stored entry with the key, and NULL when there is none |
| HashRemoval.ShiftBackRestoresOrder | core/rbhash.c:232-246 | the intended shift, ended by a dead slot or an entry at home, restores the Robin Hood invariant after any removal |
| HashRemoval.ShiftOnceReachableIff | core/rbhash.c:232-246 | the shift as written keeps every entry inside its window if and only if the moved entry was away from home, or the window spans the table |
| HashRemoval.ShiftOnceOrderIff | core/rbhash.c:232-246 | the shift as written keeps the Robin Hood invariant if and only if it moves nothing |
| HashRemoval.FirstRemovalIsSafe | core/rbhash.c:248-262 | while stored distances are exact and below the size, as after insertions alone over any memory, a removal as written passes its guard |
| HashRemoval.RemoveHashCorrect | core/rbhash.c:248-262 | a removal takes away exactly one entry with the key if there is one and nothing otherwise, and reports which; every other entry stays findable if and only if the guard holds, and repaired the invariant is kept |
| HashRemoval.RemovedIsForgotten | core/rbhash.c:232-262 | every slot that a removal leaves dead and did not find so, the removed one or one behind a moved entry, keeps no pointer to data |
| HashSearch.BucketTakesFirstHit | core/rbhash.c:194-207 | one continued search takes the first matching slot of the remaining window and no other |
| HashSearch.SearchYieldsAll | core/rbhash.c:209-226 | on any table whose window bounds every entry and is no wider than the table, continued until it first answers NULL, the search yields the data of every entry with the key as often as it is stored, and nothing else |
| HashRuns.StepMeans | core/rbhash.c:122-262 | each add, unique add, find and removal answers as the multimap does and leaves a healthy table for what the multimap becomes if and only if its guard, which is a condition on the table before it, holds; with a margin no add finds the table full |
| HashRuns.TableIsMultimap | core/rbhash.c:66-262 | over every history whose operations pass their guards, with all the growths they trigger, the answers are those of a multimap, and with a margin the exit on a full table is unreachable |
| HashRuns.NewTableIsMultimap | core/rbhash.c:8-262 | from rbhash_new on, the answers of every such history are those of a multimap that starts empty, and with a margin none of them is a full table |
| HashRuns.RepairedIsGuarded | core/rbhash.c:108-262 | in the repaired form every history passes all guards, whatever its keys |
| HashRuns.KeptRunIsGuarded | core/rbhash.c:108-262 | as written a history passes them when its removals do, and no added key starts with a zero byte or the table never grows |
| HashRuns.FirstRemovalAfterAdds | core/rbhash.c:8-262 | from rbhash_new on, after any adds, unique adds and finds as written over any memory, a removal of any key is safe; where the adds are guarded, the multimap explains the history with it |
| HashRuns.RunKeepsWindow | core/rbhash.c:66-262 | over every history, in either form and over any memory, maxdistance stays below the size |
| HashRuns.SearchAfterAnyRun | core/rbhash.c:8-262 | from rbhash_new on, after any completed guarded history over any memory, the search yields every entry stored under a key exactly as often as it is stored, and nothing else |
| HashRuns.RunKeepsOrder | core/rbhash.c:66-262 | every history in which no garbage that growth pushes down displaces an entry and no removal as written moves one keeps the Robin Hood invariant, over any memory and for any keys |
| HashRuns.SkippedRunIsQuiet | core/rbhash.c:66-262 | such are all histories of the repaired form, and as written those without removals over memory that reads as zero |
| HashRuns.UniqueAddsMakeMap | core/rbhash.c:146-151 | over every guarded history of unique adds, finds and removals, no key is ever stored twice |
| HashRuns.MapLookup | core/rbhash.c:169-183 | on such a table find returns the data of the one entry with the key |
| HashMaps.RunIsMap | core/rbhash.c:122-262 | over every guarded history that adds no key twice, the answers are those of a map and the table goes on holding its pairs |
| NameTable.TableIsNames | core/c32asm.c:28-34 | over every history of declarations and lookups of names, the table of declared names, with its growths and whatever malloc leaves, gives the answers of the map that the parser is modelled with |
| HashHistories.LossyHistory | core/rbhash.c:232-262 | a concrete history on a new table after which, as written, an entry is stored but not found; its first four operations pass their guards and the second removal does not |
| HashHistories.GarbageHistory | core/rbhash.c:100-115 | two adds as written to a new table, over memory with one slot whose key does not read as zero, after which the table has a gap in a cluster and the Robin Hood invariant is gone |
| RbHash.Hash.constructor | core/rbhash.c:8-31 | the object built is the new table of the model |
| RbHash.Hash.UpSize | core/rbhash.c:94-120 | the size test and the rebuilding loop over arrays compute the model's growth, status included |
| RbHash.Hash.Rebuild | core/rbhash.c:102-119 | the loop reinserting all slots into a fresh array gives the grown table |
| RbHash.Hash.AddWithHash | core/rbhash.c:122-140 | the in-place add leaves the table the model computes, with its status |
| RbHash.Hash.BucketOf | core/rbhash.c:153-167 | the scanning loop returns the slot of the model's lookup |
| RbHash.Hash.Get | core/rbhash.c:169-183 | the value found is the model's and the table is unchanged |
| RbHash.Hash.AddUnique | core/rbhash.c:146-151 | nothing changes when the key is stored, otherwise the table is that of an add |
| RbHash.Hash.SwapUp | core/rbhash.c:232-246 | the loop as written moves at most one element and ends: its slots are those of ShiftOnce |
| RbHash.Hash.SwapUpRepaired | core/rbhash.c:232-246 | the repaired loop leaves the slots of ShiftBack |
| RbHash.Hash.RemoveWithHash | core/rbhash.c:248-262 | the in-place removal leaves the table the model computes and reports whether a key was found |
| RbHash.SearchState.Continue | core/rbhash.c:194-226 | each call advances the search object as the model does and returns the data of that bucket |
| CallFrames.StepKeepsFrames | core/chip32.c:197-220 | every command keeps the chain of (PC, FRM) frames reached from FRM, with rising addresses and STK at most FRM, when data writes avoid the registers and the cells above STK; call adds a frame and ret drops one |
| CallFrames.RunKeepsFrames | core/chip32.c:349-385 | over every disciplined run RAM keeps representing the shadow stack, and no cell above the bottom frame changes |
| CallFrames.BootIsFramed | core/chip32.c:222-240 | after initr the chain is empty and its bottom is the last cell |
| CallFrames.CallReturns | core/chip32.c:197-210 | any disciplined run from a call to its matching ret, with any depth of inner calls and unpopped pushes, resumes behind the call with STK, FRM and the caller's stack cells restored |
| CallFrames.RetNeedsFrame | core/chip32.c:206-210 | a ret with no frame left reads past RAM and never goes through |
| StringCopy.CopyIff | core/chip32.c:272-281 | between regions in RAM strcpy ends if and only if the destination does not start inside the source; then the destination is the source up to its first zero and every other cell is unchanged |
| StringCopy.RunawayCopy | core/chip32.c:272-281 | a copy into its own tail overwrites the terminator before reading it and never ends |
| StringCopy.StrcpyStep | core/chip32.c:272-281 | as a step, clear of the registers, strcpy changes just the destination and PC |
| CommandFile.LoadSave | core/c32asm.c:122-138 | loading a saved program gives the same program, for all flags, opcodes and 32-bit operands |
| CommandFile.RecordRoundTrip | core/c32asm.c:122-138 | every ten-byte record is what saving the command it loads as writes |
| CommandFile.SaveCommands | core/c32asm.c:122-130 | the field-by-field loop writes a file that loads as the program |
| CommandFile.SaveLayout | core/c32asm.c:122-130 | each command takes ten bytes: flags, opcode, and the two operands, lowest byte first |
| CommandFile.LoadCommand | core/c32asm.c:132-138 | the four reads succeed exactly when a whole record is left, and then give its command |
| CommandFile.PageLoad | core/main.c:186-196 | the two loops deliver the commands from the index asked for, count them, and clear the opcode of the rest of the page |
| Paging.CorrectedStep | core/chip32.c:364-382 | with both indices corrected one paged step is one step over the whole program, and the page stays equal to its slice of the program |
| Paging.CorrectedRun | core/chip32.c:349-385 | with both indices corrected, RAM, log and stopping point of every run are those of the interpreter over the whole program |
| Paging.PageSizeIrrelevant | core/chip32.c:349-385 | any two page sizes then give the same result |
| Paging.RawStepIff | core/chip32.c:364-380 | with the indices as written a step from page 0 is the right one if and only if PC is on page 0, or both loops end there |
| Paging.FullPageFallsOff | core/chip32.c:376-380 | a program that exactly fills its page reads past the page where it should end |
| CachedOperands.BootedRunStaysOnward | core/chip32.c:349-385 | over every run as written page 0 stays cached, and each cached command is the program's with the operands of logs and strcpy some words on |
| CachedOperands.StringPrints | core/chip32.c:260-266 | logs adds the words of its string as bytes, up to the zero |
| CachedOperands.UsedLogsIff | core/chip32.c:260-266 | wherever earlier executions left its operand, a cached logs does the right step if and only if a string of the characters of the program's string stands there |
| CachedOperands.UsedStrcpyIff | core/chip32.c:272-281 | however often it ran before, its operands being k words on, a cached strcpy does the right step of a copy inside RAM and clear of cell 32 if and only if the destination already holds the words left out and, where these are the whole string, the same further string stands behind both |
| CachedOperands.LoopedLogsDiffer | core/chip32.c:260-266 | a concrete program with logs in a loop whose run over the whole program has printed AA where the run as written has printed A |
| Paging.WrittenRun | core/chip32.c:349-385 | the loop exactly as written agrees with the interpreter on every run that stays on the first page and repeats no logs or strcpy |
| Chip32.Chip.GetWord | core/chip32.c:34-49 | operand reads on the RAM array and the program file are those of the model |
| Chip32.Chip.SetWord | core/chip32.c:51-57 | operand writes change the one cell the model changes, or the state |
| Chip32.Chip.CmdAssign | core/chip32.c:61-175 | the assigning handlers leave RAM, state and log of the model; bor and band read their second operand only where the first does not decide |
| Chip32.Chip.CmdCall | core/chip32.c:197-204 | the two pushes, the frame register and the jump leave the model's processor, as CallLeaves has it |
| Chip32.Chip.CmdRet | core/chip32.c:206-210 | the three register loads leave the model's processor |
| Chip32.Chip.CmdFlow | core/chip32.c:177-220 | jumps, branches, calls, push and pop leave the model's processor, as JumpGoes, BranchGoes, PushStores and PopLoads have it |
| Chip32.Chip.CmdLogs | core/chip32.c:260-266 | the loop prints the characters up to the zero and leaves the cached operand behind it, other cached commands untouched |
| Chip32.Chip.CmdStrcpy | core/chip32.c:272-281 | the loop copies as the model does and leaves both cached operands behind the text |
| Chip32.Chip.Handle | core/chip32.c:283-347 | every opcode reaches its handler and leaves the model's processor and cached command |
| Chip32.Chip.Once | core/chip32.c:364-382 | one pass of the loop on the arrays is the paged step as written |
| Chip32.Chip.RunFor | core/chip32.c:349-385 | n passes are the paged run as written |
| Chip32.Chip.Start | core/chip32.c:349-362 | the first page load and initr leave the booted processor, or fail exactly when the model does |
| Relocation.Lockstep | core/chip32.c:177-195 | two programs holding a block whose literal jump targets differ by d run it in lockstep: equal RAM and log, PCs apart by d, for as long as PC stays in the block and data operands find the same words in both programs |
| BlockMoves.LineMoves | core/c32asmpars.c:25-140 | one line assembled at two code positions gets the same verdict and commands that differ only in relative targets, by the distance |
| BlockMoves.BlockParses | core/c32asmpars.c:471-533 | the same for a whole block of lines without labels or jmp, with literal jmpi, ift and iff |
| BlockMoves.AssembledLockstep | core/c32asmpars.c:471-533 | the block assembled at two positions of two programs has runs with equal RAM and log and PCs that differ by the distance |
| SourceBlocks.SourceLockstep | core/c32asm.c:94-99 | the same for the block as text at the end of two sources: it is lexed and assembled in both, behind whatever went before, and the two runs go in lockstep, whatever commands follow |
| SourceBlocks.SharedLinesLockstep | core/c32asm.c:94-99 | two sources that build, and share complete lines between whatever goes before and whatever follows: the commands of these lines run in lockstep in the two programs, for as long as PC stays among them and data operands find the same words in both |
| ShiftedText.LexMoves | core/c32asmlex.c:19-228 | a text at the end of two sources is accepted in both or in neither, with the same tokens, each as far on as the text is |
| ShiftedText.SameParses | core/c32asmpars.c:617-632 | unlabelled lines of the same text do the same to the assembler, whatever source they stand in |
| FollowedText.LexStays | core/c32asmlex.c:19-228 | complete lines that are lexed by themselves give the same tokens with any text behind them, and the lexer goes on with that text |
| FollowedText.ParsesStay | core/c32asmpars.c:617-632 | and these lines, unlabelled, do the same to the assembler |
| Lexer.LexSpaced | core/c32asmlex.c:19-228 | on success the tokens of all lines are non-empty, in range, ordered and disjoint, and with blanks, separators, newlines and whole comments they make up the source to its end |
| Lexer.LineSpaced | core/c32asmlex.c:170-220 | the same for one line, from where it starts to where the next one does |
| Spellings.BlanksSkipped | core/c32asmlex.c:19-21 | spaces and tabs in front of a line or an argument make no difference |
| Spellings.CommentEnds | core/c32asmlex.c:23-34 | a semicolon starts a comment, which ends a line as a newline does |
| Spellings.NewlineEnds | core/c32asmlex.c:23-34 | a newline ends a line and its arguments, and stands alone for an empty line |
| Spellings.HeadRead | core/c32asmlex.c:170-214 | a run of letters, digits and underscores that starts with no digit is a label where a colon follows, the command name where a blank, a newline or a comment does, and an error otherwise |
| Spellings.NameRead | core/c32asmlex.c:53-76 | as an argument such a run is a name |
| Spellings.AutoRead | core/c32asmlex.c:101-168 | a question mark is a token by itself |
| Spellings.IntRead | core/c32asmlex.c:78-99 | a run of digits and minus signs is a number |
| Spellings.QuotedRead | core/c32asmlex.c:36-51 | a text in single or double quotes is one token, a backslash taking the character behind it along |
| Decimal.ParsePrinted | core/c32asmpars.c:303-304 | every 32-bit word printed with %d is read back unchanged wherever no digit follows |
| Decimal.DigitsRead | core/c32asmpars.c:303-304 | a run of any number of digits, with a plus sign or without, is its value in base ten, and the biggest 64-bit number where that is too big |
| Decimal.NegativeRead | core/c32asmpars.c:303-304 | a minus sign negates it modulo 2^64, unless it is too big |
| SourceText.LexLineAt | core/c32asmlex.c:170-220 | a line written out from a name and arguments is lexed to the tokens of just these, wherever it stands, and the lexer goes on behind it |
| SourceText.LexDocument | core/c32asmlex.c:222-228 | a source of such lines is lexed to the tokens of each line in order |
| Parser.ParseLvalue | core/c32asmpars.c:196-246 | an accepted left operand is the number or declared name behind a $ or *, with the type of that prefix; a null pointer is followed only for an undeclared name |
| Parser.ParseRvalue | core/c32asmpars.c:248-334 | an accepted right operand is a number or declared name, a literal, or the one behind a prefix, with the type of that prefix |
| Parser.OperandIff | core/c32asmpars.c:196-334 | every such operand is accepted, as a value and, behind $ or *, as a target, and nothing else is |
| OperandMeanings.PrefixTokens | core/c32asmlex.c:101-168 | $, *, & and @ each make the prefix token of their kind, in front of the argument behind it |
| OperandMeanings.PrefixedMeans | core/c32asmpars.c:248-334 | an operand written with $ stands for the word of the cell it names when its command runs, with * for the word of the cell that one names, with & for the number or address itself, and with @ for a word of the program |
| OperandMeanings.PlainMeans | core/c32asmpars.c:248-334 | a number or a name written without a prefix stands for the number, the index of the label's command or the variable's first cell |
| OperandMeanings.JmpiGoes | core/c32asmpars.c:471-485 | jmpi n, assembled as command i, goes to command i + 1 + n when it runs |
| OperandMeanings.BranchLineGoes | core/c32asmpars.c:487-533 | ift $a, n and iff $a, n as command i go there when cell a is zero, or is not, and to i + 1 otherwise |
| Opcodes.MnemonicsHaveOpcodes | core/c32asmpars.c:576-612 | the assembler has just these mnemonics, each with its opcode |
| Declarations.OwnedDisjoint | core/c32asmpars.c:25-148 | over every accepted source, any two names declared with ?, with a text or without, own disjoint ranges of cells from 35 up to the first free one, one cell or the text and its zero, and each stands for the start of its own |
| Declarations.BuiltDisjoint | core/c32asm.c:94-99 | the same for the lines of every source that builds |
| Declarations.OwnedStored | core/c32asmpars.c:91-100 | the characters of a declared text, as signed bytes, and its zero are moved to the cells of its name one by one |
| Declarations.TextIsWholeIff | core/c32asmpars.c:91-93 | a declaration takes the whole text between its quotes if and only if there is no quote inside, which the lexer lets a backslash bring in |
| Declarations.ExplicitStandsAtZero | core/c32asmpars.c:42-45 | an address that is given is not used: the name stands for 0 and no cell is taken |
| Declarations.LabelStands | core/c32asmpars.c:150-168 | a label stands for the number of lexed lines |
| Declarations.LabelRefused | core/c32asmpars.c:336-385 | behind a label that cannot be declared, a command without operands is accepted and every other one is rejected |
| Declarations.DeclareRefused | core/c32asmpars.c:25-148 | which declarations are rejected, which one reads a token never set, and which is outside the model |
| Declarations.UnknownNames | core/c32asmpars.c:196-334 | a left operand that names nothing declared is followed through a null pointer, a right one is rejected |
| Parser.LexedParse | core/c32asm.c:94-99 | whatever the lexer accepts, the parser only meets lines with tokens that lie inside the source |
| Disassembler.RoundTripIff | core/chip32.c:387-467 | for every command, its dump standing anywhere in a source is lexed as one line, and the parser appends the same command if and only if it has the form Reassembles |
| Disassembler.DumpText | core/chip32.c:387-467 | the dump of a command is the mnemonic of its opcode, nop where it has none, and as many operands as the table says, each printed in base ten behind the prefix of its type |
| Disassembler.LineEmits | core/c32asmpars.c:617-632 | every command of every accepted line has that form, or is a not, push, ift or iff |
| Disassembler.DumpBuilds | core/chip32.c:387-467 | the dump of a whole program of that form builds the same program |
| Disassembler.BuildDumpBuild | core/c32asm.c:94-99 | any program the assembler builds without the four exceptions is rebuilt from its own dump |
| Assembler.Compiler.NextArg | core/c32asmlex.c:101-168 | the argument scanner advances the read position and appends the tokens the model finds, leaving earlier lines alone |
| Assembler.Compiler.LexerLine | core/c32asmlex.c:170-220 | one line adds just its tokens as a command, and a failing line leaves no command behind |
| Assembler.Compiler.RunLexer | core/c32asmlex.c:222-228 | the loop accepts exactly the sources the model lexes and stores their lines |
| Assembler.Compiler.Rvalue | core/c32asmpars.c:248-334 | the two switches find the model's operand |
| Assembler.Compiler.Lvalue | core/c32asmpars.c:196-246 | the same for left operands, the null pointer of an unknown name included |
| Assembler.Compiler.DoOneArg | core/c32asmpars.c:346-361 | commands of one operand, and jmpi, append the model's command |
| Assembler.Compiler.DoTwoArg | core/c32asmpars.c:363-385 | commands of two operands, and ift and iff, append the model's command |
| Assembler.Compiler.PushString | core/c32asmpars.c:94-97 | the loop appends one move for every character and one for the terminator |
| Assembler.Compiler.Declare | core/c32asmpars.c:25-148 | a declaration appends its moves, places its name and moves the next free address as the model does, with its error cases; OwnedDisjoint says what that gives |
| Assembler.Compiler.RunParser | core/c32asmpars.c:617-632 | the loop over all lines ends with the model's verdict and commands |
| Assembler.Compiler.Build | core/c32asm.c:94-99 | lexer and parser together give the verdict, commands and names of the model for every source |
| Assembler.Compiler.Save | core/c32asm.c:122-130 | the file written is that of the commands built |
| StringPrograms.RangesDisjoint | core/c32asmpars.c:91-100 | the ranges of automatically placed strings, terminators included, lie one behind the other and share no cell |
| StringPrograms.Placed | core/c32asmpars.c:42-46 | each declared name stands for the start of its own string |
| StringPrograms.Builds | core/c32asmpars.c:25-140 | every source of initr, distinct string declares, and logs and logln on them is accepted and gives exactly the expected commands, with the strings from cell 35 on |
| StringPrinting.MovesStore | core/c32asmpars.c:94-97 | the initialising moves store the strings' image cell by cell from the start to the end of their ranges and nowhere else |
| StringPrinting.ImageHolds | core/c32asmpars.c:94-97 | in that image each string lies, with its zero, where its name says |
| StringPrinting.ProgramRun | core/chip32.c:349-385 | such a program runs straight from initr to its end and has then printed the strings and newlines asked for |
| StringPrinting.PrintsItsStrings | core/chip32.c:349-385 | from source text over the saved and loaded file to the output of the loop as written: exactly the concatenated strings and newlines, whatever fresh memory holds |
| EndToEnd.AssembleAndRun | core/main.c:186-196 | the compiler object, the file and the processor object, put together, log exactly these strings and newlines |
| Base64.QuadIs24Bits | core/str.c:182-188 | the four letters of a group hold the 24 bits of its three bytes, most significant first, as section 4 of RFC 4648 has it |
| Base64.AlphabetIsTable1 | core/str.c:156 | the letters are those of Table 1 of RFC 4648, in order |
| Base64.EncodedLength | core/str.c:171-209 | the encoded text has four characters for every three bytes begun |
| Base64.PaddedAtEnd | core/str.c:189-203 | the encoding has one = for each byte missing in the last group of three, at its end, and none elsewhere |
| Base64.DecodeEncode | core/str.c:171-250 | decoding the encoding gives back every non-empty byte sequence, and what encoding gives is canonical |
| Base64.EncodeDecode | core/str.c:171-250 | encoding the decoding gives back every canonical text |
| Base64.CanonicalIff | core/str.c:211-250 | among all texts the decoder can read, exactly the canonical ones come back |
| Base64.DecodedLength | core/str.c:218-219 | the announced size is the number of bytes decoded |
| Base64.EncodeBuffer | core/str.c:171-209 | the loop fills the allocated buffer with the encoding, within its bounds, and ends it with a NUL |
| Base64.DecodeBuffer | core/str.c:211-250 | the loop fills a buffer of exactly the announced size with the decoding |
| HashMix.FoldUndone | core/hashalg.c:249-254 | a xor-shift by at least a third of the width is undone on both sides by one more shifted term |
| HashMix.TimesUndone | core/hashalg.c:243-245 | multiplying by a constant and then by its inverse modulo m gives back every word |
| HashMix.HashIntBijective | core/hashalg.c:241-247 | hash_int is a bijection on 32-bit words, with its inverse given |
| HashMix.SplitMixBijective | core/hashalg.c:249-254 | hash64_splitmix is a bijection on 64-bit words, with its inverse given |
| HashMix.HashIntSteps | core/hashalg.c:241-247 | hash_int folds by 16 places and multiplies by its constant twice, and folds again, where a fold xors each bit with the one so many places above |
| HashMix.SplitMixSteps | core/hashalg.c:249-254 | hash64_splitmix does so with 30, 27 and 31 places and its two constants |
| HashMix.HashWeinberger | core/hashalg.c:137-154 | the loop computes the hash that HashAppend characterises |
| HashMix.HashElf | core/hashalg.c:160-174 | the loop computes the hash that HashAppend characterises |
| HashMix.StepsAgree | core/hashalg.c:145-172 | masking after a conditional fold and clearing the extracted nibble in any case agree on every 32-bit word and leave 28 bits |
| HashMix.HashesAgree | core/hashalg.c:137-174 | the two hashes of every string are equal and below 2^28 |
| HashMix.HashAppend | core/hashalg.c:137-174 | a character, which is signed, is added to 16 times the hash of the string before it modulo 2^32; below 2^28 that is the hash, else bits 28 to 31 are xored into bits 4 to 7 and cleared |
| HashMix.ShortHash | core/hashalg.c:137-174 | up to six ASCII characters hash to the number they are the digits of in base 16 |

## Left out

- Command line, path resolution, reading of source files and the include preprocessor of `core/main.c`.
- malloc failure, freeing, destructor callbacks, error texts and `chip32_compiler_error_print`.
- HashTable.AddHashCorrect: keys are non-empty (a zero length is the mark of a dead slot).
- HashTable.NewIsEmpty: sizes that do not round to a power of two within 32 bits are outside; growth beyond 2^31 slots is the status SizeOverflow.
- HashRuns.TableIsMultimap: data is not NULL, which is the answer of a find without an entry. Wrap-around of the 32-bit distance field is not modelled.
- RbHash.Hash.SwapUp: the scratch element malloc returns for an add is given by `memory`, like a fresh slot.
- The statistics counter of displacements, `rbhash_free` and the slot accessors of `core/rbhash.c`.
- Chip32.Chip.Start: initr with 1 to 34 words, which puts the registers outside RAM, counts as failing.
- Chip32.Chip.CmdFlow: push with STK itself as operand has no fixed evaluation order in C and is `Undefined`.
- Machine.DoStep: a negative PC, which C turns into a huge unsigned one, is `Broken`.
- CallFrames.RunKeepsFrames: the write discipline is a condition on the run; programs that break it are not covered.
- The printed reload message of the processor, and its log being stderr.
- Parser: a declare with an explicit size is `Unmodelled` (the code reads the token behind it); the token array of a line is unbounded; the table of names is a map, which TableIsNames justifies, and the table of actions a function of the name.
- SourceBlocks.SharedLinesLockstep: labels, jmp, call, ret and access to cell 32 are excluded, because they are not position independent, and so are relative targets that leave 32 bits and data operands that read a different word in the other program.
- Labels as jump targets: a label stores the number of lexed lines, so there is nothing to resolve.
- StringPrinting.PrintsItsStrings: the program is shorter than its page; FullPageFallsOff shows why.
- CommandFile.LoadSave: the host is little-endian and commands are packed.
- Base64.DecodeBuffer: texts shorter than four characters or with characters outside the table, which the code reads outside its arrays for.
- The other string hashes of `core/hashalg.c`, `hash_fasthash` (the table's hash is an arbitrary function here), and the small helpers of `core/str.c`.
