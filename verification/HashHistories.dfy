/** Concrete histories in which the table of core/rbhash.c, as written, goes wrong. */
module HashHistories {
  import opened Bits
  import opened RobinHood
  import opened HashTable
  import opened HashRemoval
  import opened HashRuns

  // ---------- a removal that loses an entry ----------

  function FirstByte(key: seq<Byte>): nat {
    if |key| > 0 then key[0] else 0
  }

  function LossyEnv(): Env {
    Env(FirstByte, (n, i) => Free(), AsWritten)
  }

  /** Keys 5 and 9 have home slot 1 of 4, key 4 has home slot 0. */
  function LossyOps(): (ops: seq<Op>)
    ensures |ops| == 5 && Keyed(ops)
  {
    [Add([5], 7), Add([9], 9), Remove([5]), Add([4], 8), Remove([4])]
  }

  function One(k: Byte, data: Data, distance: nat): Element {
    Element(data, k, 1, distance, [k, 0])
  }

  function Free(): Element {
    Element(0, 0, 0, 0, [0, 0])
  }

  function LossyState(i: nat): (tb: Table)
    ensures WellSized(tb)
  {
    var gone := Vacated(One(9, 9, 1));
    match i
    case 0 => Table([Free(), Free(), Free(), Free()], 0, 0, 0, 1)
    case 1 => Table([Free(), One(5, 7, 0), Free(), Free()], 0, 1, 0, 1)
    case 2 => Table([Free(), One(5, 7, 0), One(9, 9, 1), Free()], 1, 2, 0, 1)
    case 3 => Table([Free(), One(9, 9, 1), gone, Free()], 1, 1, 0, 1)
    case 4 => Table([One(4, 8, 0), One(9, 9, 1), gone, Free()], 1, 2, 0, 1)
    case _ => Table([One(9, 9, 1), gone, gone, Free()], 1, 1, 0, 1)
  }

  lemma SmallMasks()
    ensures FastMod(5, 4) == 1 && FastMod(9, 4) == 1 && FastMod(4, 4) == 0
    ensures RoundUpPow2(4) == 4
  {
    FastModIsMod(5, 4);
    FastModIsMod(9, 4);
    FastModIsMod(4, 4);
    RoundUpPow2Correct(4);
  }

  lemma LoadedOne(k: Byte, data: Data)
    ensures Loaded(LossyEnv().memory, k, [k], data, 2) == One(k, data, 0)
  {
    assert Padded([0, 0], 2) == [0, 0];
    assert [k] + [0, 0][1..] == [k, 0];
  }

  lemma LossyAdds()
    ensures Apply(LossyState(0), LossyEnv(), Add([5], 7)) == (LossyState(1), Stored(Done))
    ensures Apply(LossyState(3), LossyEnv(), Add([4], 8)) == (LossyState(4), Stored(Done))
  {
    SmallMasks();
    LoadedOne(5, 7);
    LoadedOne(4, 8);
    assert LossyState(0).slots[1 := One(5, 7, 0)] == LossyState(1).slots;
    assert LossyState(3).slots[0 := One(4, 8, 0)] == LossyState(4).slots;
  }

  lemma LossyCollision()
    ensures Apply(LossyState(1), LossyEnv(), Add([9], 9)) == (LossyState(2), Stored(Done))
  {
    SmallMasks();
    LoadedOne(9, 9);
    var t := LossyState(1).slots;
    assert SwapDown(t, 1, One(9, 9, 1), 2, 1, 2) == Placement(t[2 := One(9, 9, 1)], 1, true);
    assert t[2 := One(9, 9, 1)] == LossyState(2).slots;
  }

  lemma LossyRemovals()
    ensures Apply(LossyState(2), LossyEnv(), Remove([5])) == (LossyState(3), Removed(true))
    ensures Apply(LossyState(4), LossyEnv(), Remove([4])) == (LossyState(5), Removed(true))
  {
    SmallMasks();
    var t, u := LossyState(2).slots, LossyState(4).slots;
    assert Lookup(t, 1, 5, [5]) == 1 && Lookup(u, 1, 4, [4]) == 0;
    var t', u' := t[1 := Vacated(t[1])], u[0 := Vacated(u[0])];
    assert ShiftOnce(t', 1) == LossyState(3).slots;
    assert ShiftOnce(u', 0) == LossyState(5).slots;
  }

  lemma LossyStep(n: nat)
    requires n < 5
    ensures var (r, a) := Apply(LossyState(n), LossyEnv(), LossyOps()[n]);
      r == LossyState(n + 1) && !Stops(a)
  {
    match n
    case 0 =>
      assert LossyOps()[0] == Add([5], 7);
      LossyAdds();
    case 1 =>
      assert LossyOps()[1] == Add([9], 9);
      LossyCollision();
    case 2 =>
      assert LossyOps()[2] == Remove([5]);
      LossyRemovals();
    case 3 =>
      assert LossyOps()[3] == Add([4], 8);
      LossyAdds();
    case 4 =>
      assert LossyOps()[4] == Remove([4]);
      LossyRemovals();
  }

  lemma LossySucceeds(n: nat)
    requires n <= 5
    ensures Succeeds(seq(n + 1, i requires 0 <= i => LossyState(i)), LossyEnv(), LossyOps()[..n])
  {
    var states := seq(n + 1, i requires 0 <= i => LossyState(i));
    forall i | 0 <= i < n
      ensures Apply(states[i], LossyEnv(), LossyOps()[..n][i]).0 == states[i + 1]
      ensures !Stops(Apply(states[i], LossyEnv(), LossyOps()[..n][i]).1)
    {
      LossyStep(i);
    }
  }

  /** Five operations as written, on a fresh table, after which a stored entry is not found:
      the first removal left a stale distance and passed its guard, and the second one, which
      does not, moved the entry off its window. */
  lemma LossyHistory()
    ensures var tb, ops := LossyState(0), LossyOps();
      var r := Run(tb, LossyEnv(), ops).0;
      && tb == New(4, 0, 1, LossyEnv().memory)
      && Stores(Entries(r.slots), 9, [9]) && Find(r, 9, [9]) == 0
      && RunGuarded(tb, LossyEnv(), ops[..4]) && !RunGuarded(tb, LossyEnv(), ops)
  {
    LossyStart();
    LossyEnd();
    LossyIsStored();
    LossyIsNotFound();
    LossyGuards();
  }

  lemma LossyStart()
    ensures New(4, 0, 1, LossyEnv().memory) == LossyState(0)
  {
    SmallMasks();
    assert Padded([0, 0], 2) == [0, 0];
    assert New(4, 0, 1, LossyEnv().memory).slots == LossyState(0).slots;
  }

  lemma LossyEnd()
    ensures Run(LossyState(0), LossyEnv(), LossyOps()).0 == LossyState(5)
  {
    LossySucceeds(5);
    assert LossyOps()[..5] == LossyOps();
    RunThrough(seq(6, i requires 0 <= i => LossyState(i)), LossyEnv(), LossyOps());
  }

  lemma LossyGuards()
    ensures RunGuarded(LossyState(0), LossyEnv(), LossyOps()[..4])
    ensures !RunGuarded(LossyState(0), LossyEnv(), LossyOps())
  {
    LossyFour();
    LossyFive();
  }

  lemma LossyFour()
    ensures RunGuarded(LossyState(0), LossyEnv(), LossyOps()[..4])
  {
    LossySucceeds(4);
    var states := seq(5, i requires 0 <= i => LossyState(i));
    forall i | 0 <= i < 4
      ensures Guarded(states[i], LossyEnv(), LossyOps()[..4][i])
    {
      LossyIsGuarded(i);
    }
    GuardsThrough(states, LossyEnv(), LossyOps()[..4]);
  }

  lemma LossyIsGuarded(n: nat)
    requires n < 4
    ensures Guarded(LossyState(n), LossyEnv(), LossyOps()[n])
  {
    if n == 2 {
      LossyIsSafe();
    }
  }

  lemma LossyFive()
    ensures !RunGuarded(LossyState(0), LossyEnv(), LossyOps())
  {
    LossySucceeds(5);
    LossyIsUnsafe();
    var states := seq(6, i requires 0 <= i => LossyState(i));
    assert LossyOps()[..5] == LossyOps();
    GuardsThrough(states, LossyEnv(), LossyOps());
    assert !Guarded(states[4], LossyEnv(), LossyOps()[4]);
  }

  lemma LossyIsSafe()
    ensures RemovalIsSafe(LossyState(2), 5, [5])
  {
    SmallMasks();
    var t := LossyState(2).slots;
    assert Lookup(t, 1, 5, [5]) == 1;
    assert t[1 := Vacated(t[1])][2] == One(9, 9, 1);
  }

  lemma LossyIsStored()
    ensures Stores(Entries(LossyState(5).slots), 9, [9])
  {
    var s := LossyState(5).slots;
    assert Live(s[0]) && EntryOf(s[0]) == Entry([9], 9, 9);
    EntriesMember(s, 0, Entry([9], 9, 9));
  }

  lemma LossyIsNotFound()
    ensures Find(LossyState(5), 9, [9]) == 0
  {
    SmallMasks();
    var s := LossyState(5).slots;
    assert FindBucket(s, 9, [9], 2, 1) == -1;
    assert FindBucket(s, 9, [9], 1, 2) == -1;
  }

  lemma LossyIsUnsafe()
    ensures !RemovalIsSafe(LossyState(4), 4, [4])
  {
    SmallMasks();
    var u := LossyState(4).slots;
    assert Lookup(u, 1, 4, [4]) == 0;
    assert u[0 := Vacated(u[0])][1] == One(9, 9, 1);
  }

  // ---------- garbage that growth pushes into the order ----------

  /** What malloc left in the last of the first four slots: a dead element whose key does not
      start with zero. Everything else reads as zero. */
  function Garbage(): Element {
    Element(3, 1, 0, 0, [9, 0])
  }

  function GarbageMemory(n: nat, i: nat): Element {
    if n == 4 && i == 3 then Garbage() else Free()
  }

  function GarbageEnv(): Env {
    Env(FirstByte, GarbageMemory, AsWritten)
  }

  function GarbageOps(): (ops: seq<Op>)
    ensures Keyed(ops)
  {
    [Add([1], 7), Add([2], 8)]
  }

  function Clean(n: nat): seq<Element> {
    seq(n, _ => Free())
  }

  /** The two entries in their home slots 1 and 2, and the garbage behind them. */
  function Small(): seq<Element> {
    [Free(), One(1, 7, 0), One(2, 8, 0), Garbage()]
  }

  /** The garbage has taken slot 2 and left the second entry behind it. */
  function Disturbed(): (t: seq<Element>)
    ensures |t| == 8
  {
    Clean(8)[1 := One(1, 7, 0)][2 := Garbage().(distance := 1)][3 := One(2, 8, 1)]
  }

  /** The table at first, after one add and after two. */
  function GarbageTable(i: nat): (tb: Table)
    ensures WellSized(tb)
  {
    match i
    case 0 => Table(Clean(4)[3 := Garbage()], 0, 0, 25, 1)
    case 1 => Table(Small()[2 := Free()], 0, 1, 25, 1)
    case _ => Table(Disturbed(), 1, 2, 25, 1)
  }

  lemma GarbageMasks()
    ensures FastMod(1, 4) == 1 && FastMod(2, 4) == 2 && FastMod(1, 8) == 1 && FastMod(2, 8) == 2
    ensures RoundUpPow2(4) == 4 && RoundUpPow2(6) == 8
  {
    FastModIsMod(1, 4);
    FastModIsMod(2, 4);
    FastModIsMod(1, 8);
    FastModIsMod(2, 8);
    RoundUpPow2Correct(4);
    RoundUpPow2Correct(6);
    assert !IsPow2(9) && !IsPow2(10) && !IsPow2(11) && !IsPow2(6) && !IsPow2(7) && !IsPow2(5);
  }

  lemma GarbageLoaded(k: Byte, data: Data)
    ensures Loaded(GarbageMemory, k, [k], data, 2) == One(k, data, 0)
  {
    assert Padded([0, 0], 2) == [0, 0];
    assert [k] + [0, 0][1..] == [k, 0];
  }

  lemma GarbageFresh()
    ensures FreshSlots(GarbageMemory, 4, 2) == Clean(4)[3 := Garbage()] && FreshSlots(GarbageMemory, 8, 2) == Clean(8)
  {
    assert Padded([0, 0], 2) == [0, 0] && Padded([9, 0], 2) == [9, 0];
  }

  /** The garbage finds slot 1 taken at the same distance, and displaces the entry of slot 2. */
  lemma GarbagePush()
    ensures var t := Clean(8)[1 := One(1, 7, 0)][2 := One(2, 8, 0)];
      AllFit(t, 2) && SwapDown(t, 0, Garbage(), 1, 0, 2) == Placement(Disturbed(), 1, true)
  {
    var t := Clean(8)[1 := One(1, 7, 0)][2 := One(2, 8, 0)];
    var g, s := Garbage().(distance := 1), t[2 := Garbage().(distance := 1)];
    assert Exchanged(t[2], g) == g && Exchanged(g, t[2]) == One(2, 8, 0) by {
      assert [9] + [0] == [9, 0] && [2] + [0] == [2, 0];
    }
    assert SwapDown(s, 1, One(2, 8, 1), 3, 2, 2) == Placement(s[3 := One(2, 8, 1)], 1, true);
    assert SwapDown(t, 1, g, 2, 1, 2) == SwapDown(s, 1, One(2, 8, 1), 3, 2, 2);
    assert s[3 := One(2, 8, 1)] == Disturbed();
  }

  lemma GarbageReinsert()
    ensures AllFit(Small(), 2) && AllFit(Clean(8), 2)
    ensures Reinsert(Small(), 0, Clean(8), 0, 2, AsWritten) == Placement(Disturbed(), 1, true)
  {
    GarbageMasks();
    GarbagePush();
    var t1 := Clean(8)[1 := One(1, 7, 0)];
    var t2 := t1[2 := One(2, 8, 0)];
    assert Reinsert(Small(), 4, Disturbed(), 1, 2, AsWritten) == Placement(Disturbed(), 1, true);
    assert Reinsert(Small(), 3, t2, 0, 2, AsWritten) == Placement(Disturbed(), 1, true);
    assert Reinsert(Small(), 2, t1, 0, 2, AsWritten) == Reinsert(Small(), 3, t2, 0, 2, AsWritten);
    assert Reinsert(Small(), 1, Clean(8), 0, 2, AsWritten) == Reinsert(Small(), 2, t1, 0, 2, AsWritten);
  }

  lemma GarbageInserts()
    ensures var tb := GarbageTable(0);
      Insert(tb, GarbageMemory, 1, [1], 7) == (GarbageTable(1), Done)
    ensures Insert(GarbageTable(1), GarbageMemory, 2, [2], 8)
        == (Table(Small(), 0, 2, 25, 1), Done)
  {
    GarbageMasks();
    GarbageLoaded(1, 7);
    GarbageLoaded(2, 8);
    assert Clean(4)[3 := Garbage()][1 := One(1, 7, 0)] == Small()[2 := Free()];
    assert Small()[2 := Free()][2 := One(2, 8, 0)] == Small();
  }

  /** The second add grows the table: 4 slots are not more than 2 entries and a margin of 2. */
  lemma GarbageGrows()
    ensures Upsize(GarbageTable(1), 2, GarbageMemory, AsWritten) == (GarbageTable(1), Done)
    ensures Upsize(Table(Small(), 0, 2, 25, 1), 2, GarbageMemory, AsWritten) == (GarbageTable(2), Done)
  {
    GarbageMasks();
    GarbageFresh();
    GarbageReinsert();
  }

  /** Two adds as written to a new table, over memory whose garbage does not start with a zero
      byte: the growth of the second one pushes the garbage down, and the Robin Hood invariant
      is gone. */
  lemma GarbageHistory()
    ensures New(4, 25, 1, GarbageMemory) == GarbageTable(0) && Ordered(GarbageTable(0))
    ensures Run(GarbageTable(0), GarbageEnv(), GarbageOps()) == (GarbageTable(2), [Stored(Done), Stored(Done)])
    ensures GarbageTable(2).slots == Disturbed() && GapAt(Disturbed(), 2) && !Ordered(GarbageTable(2))
  {
    GarbageStart();
    FirstGarbageAdd();
    SecondGarbageAdd();
    RunTwo(GarbageTable(0), GarbageEnv(), Add([1], 7), Add([2], 8));
    GapBreaksOrder(Disturbed(), 1, 2);
  }

  lemma GarbageStart()
    ensures New(4, 25, 1, GarbageMemory) == GarbageTable(0) && Ordered(GarbageTable(0))
  {
    NewIsEmpty(4, 25, 1, GarbageMemory);
    GarbageMasks();
    GarbageFresh();
  }

  lemma FirstGarbageAdd()
    ensures Apply(GarbageTable(0), GarbageEnv(), Add([1], 7)) == (GarbageTable(1), Stored(Done))
  {
    GarbageInserts();
    GarbageGrows();
    MarginIsPercent(GarbageTable(1));
    AddInParts(GarbageTable(0), GarbageMemory, 1, [1], 7, AsWritten, GarbageTable(1), 2, GarbageTable(1));
  }

  lemma SecondGarbageAdd()
    ensures Apply(GarbageTable(1), GarbageEnv(), Add([2], 8)) == (GarbageTable(2), Stored(Done))
  {
    GarbageInserts();
    GarbageGrows();
    var t1 := Table(Small(), 0, 2, 25, 1);
    MarginIsPercent(t1);
    AddInParts(GarbageTable(1), GarbageMemory, 2, [2], 8, AsWritten, t1, 2, GarbageTable(2));
  }

  lemma RunTwo(tb: Table, env: Env, first: Op, second: Op)
    requires WellSized(tb) && |first.key| > 0 && |second.key| > 0 && !Stops(Apply(tb, env, first).1)
    ensures var (r, a) := Apply(tb, env, first);
      var (r', a') := Apply(r, env, second);
      !Stops(a') ==> Run(tb, env, [first, second]) == (r', [a, a'])
  {
    var (r, a) := Apply(tb, env, first);
    var (r', a') := Apply(r, env, second);
    var ops, rest := [first, second], [second];
    assert ops[1..] == rest && rest[1..] == [];
    assert Run(r', env, []) == (r', []);
    assert !Stops(a') ==> Run(r, env, rest) == (r', [a'] + []);
    assert [a] + ([a'] + []) == [a, a'];
  }
}
