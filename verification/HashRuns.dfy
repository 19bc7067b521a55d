/** Whole histories of table operations against the multimap they represent. */
module HashRuns {
  import opened Bits
  import opened RobinHood
  import opened HashTable
  import opened HashRemoval
  import opened HashSearch

  datatype Op = Add(key: seq<Byte>, data: Data)
              | AddUnique(key: seq<Byte>, data: Data)
              | Get(key: seq<Byte>)
              | Remove(key: seq<Byte>)

  datatype Answer = Stored(status: Status) | AlreadyThere | Value(data: Data) | Removed(found: bool)

  /** The environment of a run: the table's hash function and what malloc returns. */
  datatype Env = Env(hashing: seq<Byte> -> nat, memory: Memory, form: Form)

  function Apply(tb: Table, env: Env, op: Op): (r: (Table, Answer))
    requires WellSized(tb) && |op.key| > 0
    ensures WellSized(r.0)
  {
    var hash := env.hashing(op.key);
    match op
    case Add(key, data) =>
      var (r, st) := AddHash(tb, env.memory, hash, key, data, env.form);
      (r, Stored(st))
    case AddUnique(key, data) =>
      if Find(tb, hash, key) != 0 then (tb, AlreadyThere)
      else
        var (r, st) := AddHash(tb, env.memory, hash, key, data, env.form);
        (r, Stored(st))
    case Get(key) => (tb, Value(Find(tb, hash, key)))
    case Remove(key) =>
      var (r, found) := RemoveHash(tb, hash, key, env.form);
      (r, Removed(found))
  }

  /** The run ends in exit(1) on a full table, and outside the model when a size would leave
      32 bits. */
  predicate Stops(a: Answer) {
    a == Stored(TableFull) || a == Stored(SizeOverflow)
  }

  /** Keys are not empty and data is not NULL. */
  predicate Proper(op: Op) {
    && |op.key| > 0
    && (op.Add? || op.AddUnique? ==> op.data != 0)
  }

  predicate Healthy(tb: Table, env: Env) {
    && Valid(tb) && HasRoom(tb)
    && DataSet(Entries(tb.slots))
    && (env.form == Repaired ==> Ordered(tb))
  }

  /** The guards of the operations as written, to be evaluated before each. */
  predicate Guarded(tb: Table, env: Env, op: Op)
    requires |tb.slots| > 0 && |op.key| > 0
  {
    var hash := env.hashing(op.key);
    match op
    case Add(key, _) => AddIsSafe(tb, key, env.form)
    case AddUnique(key, _) => Find(tb, hash, key) != 0 || AddIsSafe(tb, key, env.form)
    case Get(_) => true
    case Remove(key) => env.form == AsWritten ==> RemovalIsSafe(tb, hash, key)
  }

  /** What a multimap with keys of at most keySize bytes answers, and becomes. */
  predicate Means(m: multiset<Entry>, keySize: nat, env: Env, op: Op, a: Answer, m': multiset<Entry>) {
    var hash := env.hashing(op.key);
    match op
    case Add(key, data) => AddMeans(m, keySize, Entry(key, hash, data), a, m')
    case AddUnique(key, data) =>
      if Stores(m, hash, key) then a == AlreadyThere && m' == m
      else AddMeans(m, keySize, Entry(key, hash, data), a, m')
    case Get(key) => a.Value? && Answers(m, hash, key, a.data) && m' == m
    case Remove(key) =>
      && a.Removed? && a.found == Stores(m, hash, key)
      && (if a.found then RemovesOne(m, m', hash, key) else m' == m)
  }

  predicate AddMeans(m: multiset<Entry>, keySize: nat, x: Entry, a: Answer, m': multiset<Entry>) {
    if |x.key| > keySize then a == Stored(KeyTooBig) && m' == m
    else a == Stored(Done) && m' == m + multiset{x}
  }

  lemma FoundIffStored(tb: Table, hash: nat, key: seq<Byte>)
    requires Valid(tb) && |key| > 0 && DataSet(Entries(tb.slots))
    ensures Find(tb, hash, key) != 0 <==> Stores(Entries(tb.slots), hash, key)
  {
    FindAnswers(tb, hash, key);
  }

  lemma AddStep(tb: Table, env: Env, key: seq<Byte>, data: Data)
    requires Healthy(tb, env) && |key| > 0 && data != 0
    ensures var (r, st) := AddHash(tb, env.memory, env.hashing(key), key, data, env.form);
      && (!Stops(Stored(st)) ==> r.keySize == tb.keySize && r.min == tb.min)
      && (!Stops(Stored(st)) ==>
            (AddIsSafe(tb, key, env.form) <==>
              && Healthy(r, env)
              && AddMeans(Entries(tb.slots), tb.keySize, Entry(key, env.hashing(key), data),
                          Stored(st), Entries(r.slots))))
      && (st == TableFull ==> tb.min == 0)
  {
    AddHashCorrect(tb, env.memory, env.hashing(key), key, data, env.form);
    if env.form == Repaired {
      AddHashKeepsOrder(tb, env.memory, env.hashing(key), key, data, Repaired);
    }
  }

  /** The answer is the multimap's and the table is healthy for what the multimap becomes. */
  predicate Conforms(tb: Table, env: Env, op: Op, r: Table, a: Answer) {
    && Healthy(r, env) && r.keySize == tb.keySize && r.min == tb.min
    && Means(Entries(tb.slots), tb.keySize, env, op, a, Entries(r.slots))
  }

  lemma AddConforms(tb: Table, env: Env, op: Op)
    requires Healthy(tb, env) && Proper(op) && (op.Add? || op.AddUnique?)
    ensures var (r, a) := Apply(tb, env, op);
      && (!Stops(a) ==> (Conforms(tb, env, op, r, a) <==> Guarded(tb, env, op)))
      && (a == Stored(TableFull) ==> tb.min == 0)
  {
    FoundIffStored(tb, env.hashing(op.key), op.key);
    AddStep(tb, env, op.key, op.data);
  }

  lemma RemoveConforms(tb: Table, env: Env, key: seq<Byte>)
    requires Healthy(tb, env) && |key| > 0
    ensures var (r, a) := Apply(tb, env, Remove(key));
      Conforms(tb, env, Remove(key), r, a) <==> Guarded(tb, env, Remove(key))
  {
    RemoveHashCorrect(tb, env.hashing(key), key, env.form);
  }

  /** One operation answers as the multimap does and leaves a healthy table for the new
      multimap if and only if its guard holds. */
  lemma StepMeans(tb: Table, env: Env, op: Op)
    requires Healthy(tb, env) && Proper(op)
    ensures var (r, a) := Apply(tb, env, op);
      && (!Stops(a) ==> (Conforms(tb, env, op, r, a) <==> Guarded(tb, env, op)))
      && (a == Stored(TableFull) ==> tb.min == 0)
  {
    match op
    case Get(key) => FindAnswers(tb, env.hashing(key), key);
    case Remove(key) => RemoveConforms(tb, env, key);
    case _ => AddConforms(tb, env, op);
  }

  predicate Keyed(ops: seq<Op>) {
    forall i :: 0 <= i < |ops| ==> |ops[i].key| > 0
  }

  predicate AllProper(ops: seq<Op>) {
    forall i :: 0 <= i < |ops| ==> Proper(ops[i])
  }

  function Run(tb: Table, env: Env, ops: seq<Op>): (run: (Table, seq<Answer>))
    requires WellSized(tb) && Keyed(ops)
    ensures WellSized(run.0)
    decreases |ops|
  {
    if ops == [] then (tb, [])
    else
      var (r, a) := Apply(tb, env, ops[0]);
      if Stops(a) then (r, [a])
      else
        var (r', rest) := Run(r, env, ops[1..]);
        (r', [a] + rest)
  }

  /** Every operation of the run passes its guard when its turn comes. */
  predicate RunGuarded(tb: Table, env: Env, ops: seq<Op>)
    requires WellSized(tb) && Keyed(ops)
    decreases |ops|
  {
    ops == [] ||
    (Guarded(tb, env, ops[0]) &&
     var (r, a) := Apply(tb, env, ops[0]);
     Stops(a) || RunGuarded(r, env, ops[1..]))
  }

  /** The answers are those of a multimap that starts as m and ends as m'; a stopping answer
      ends the run early and says nothing about m'. */
  ghost predicate Explains(m: multiset<Entry>, keySize: nat, env: Env, ops: seq<Op>, answers: seq<Answer>,
                           m': multiset<Entry>)
    decreases |ops|
  {
    if ops == [] then answers == [] && m' == m
    else
      && answers != []
      && if Stops(answers[0]) then |answers| == 1
         else exists m1 :: Means(m, keySize, env, ops[0], answers[0], m1)
                           && Explains(m1, keySize, env, ops[1..], answers[1..], m')
  }

  /** Over every history of adds, unique adds, lookups and removals, with all the growths
      they trigger, the table answers as the multimap of its entries while the guards hold; with
      a margin it never runs full. */
  lemma {:induction false} TableIsMultimap(tb: Table, env: Env, ops: seq<Op>)
    requires Healthy(tb, env) && AllProper(ops) && Keyed(ops) && RunGuarded(tb, env, ops)
    ensures var (r, answers) := Run(tb, env, ops);
      && Explains(Entries(tb.slots), tb.keySize, env, ops, answers, Entries(r.slots))
      && (tb.min > 0 ==> Stored(TableFull) !in answers)
    decreases |ops|
  {
    if ops != [] {
      StepMeans(tb, env, ops[0]);
      var (r, a) := Apply(tb, env, ops[0]);
      if !Stops(a) {
        TableIsMultimap(r, env, ops[1..]);
      }
    }
  }

  predicate Completed(answers: seq<Answer>) {
    forall a :: a in answers ==> !Stops(a)
  }

  /** A table fresh from rbhash_new is the empty multimap, and its histories go on from there. */
  lemma NewTableIsMultimap(size: nat, min: nat, keySize: nat, env: Env, ops: seq<Op>)
    requires 1 <= size <= TWO31 && AllProper(ops) && Keyed(ops)
    requires RunGuarded(New(size, min, keySize, env.memory), env, ops)
    ensures var (r, answers) := Run(New(size, min, keySize, env.memory), env, ops);
      && Explains(multiset{}, keySize, env, ops, answers, Entries(r.slots))
      && (min > 0 ==> Stored(TableFull) !in answers)
  {
    NewIsEmpty(size, min, keySize, env.memory);
    TableIsMultimap(New(size, min, keySize, env.memory), env, ops);
  }

  // ---------- which runs are guarded ----------

  /** Repaired, every guard holds. */
  lemma {:induction false} RepairedIsGuarded(tb: Table, env: Env, ops: seq<Op>)
    requires WellSized(tb) && Keyed(ops) && env.form == Repaired
    ensures RunGuarded(tb, env, ops)
    decreases |ops|
  {
    if ops != [] {
      RepairedIsGuarded(Apply(tb, env, ops[0]).0, env, ops[1..]);
    }
  }

  /** As written in a table that can grow, the key of an add does not start with a zero byte. */
  predicate KeepsKeys(env: Env, min: nat, op: Op)
    requires |op.key| > 0
  {
    env.form == AsWritten && min > 0 && (op.Add? || op.AddUnique?) ==> op.key[0] != 0
  }

  predicate AllKeepKeys(env: Env, min: nat, ops: seq<Op>)
    requires Keyed(ops)
  {
    forall i :: 0 <= i < |ops| ==> KeepsKeys(env, min, ops[i])
  }

  /** Every removal of the run passes its guard when its turn comes. */
  predicate RemovalsGuarded(tb: Table, env: Env, ops: seq<Op>)
    requires WellSized(tb) && Keyed(ops)
    decreases |ops|
  {
    ops == [] ||
    ((ops[0].Remove? ==> Guarded(tb, env, ops[0])) &&
     var (r, a) := Apply(tb, env, ops[0]);
     Stops(a) || RemovalsGuarded(r, env, ops[1..]))
  }

  predicate BytesSet(tb: Table, env: Env) {
    env.form == AsWritten && tb.min > 0 ==> FirstBytesSet(Entries(tb.slots))
  }

  lemma StepKeepsBytes(tb: Table, env: Env, op: Op)
    requires Healthy(tb, env) && Proper(op) && BytesSet(tb, env) && KeepsKeys(env, tb.min, op)
    requires op.Remove? ==> Guarded(tb, env, op)
    ensures Guarded(tb, env, op)
    ensures var (r, a) := Apply(tb, env, op);
      !Stops(a) ==> BytesSet(r, env)
  {
    StepMeans(tb, env, op);
    if op.Add? || op.AddUnique? {
      AddedBytes(Entries(tb.slots), Entry(op.key, env.hashing(op.key), op.data));
    }
  }

  /** So where no added key starts with a zero byte, or the table cannot grow, the adds are
      guarded, and a run is when its removals are. */
  lemma {:induction false} KeptRunIsGuarded(tb: Table, env: Env, ops: seq<Op>)
    requires Healthy(tb, env) && AllProper(ops) && Keyed(ops) && BytesSet(tb, env) && AllKeepKeys(env, tb.min, ops)
    requires RemovalsGuarded(tb, env, ops)
    ensures RunGuarded(tb, env, ops)
    decreases |ops|
  {
    if ops != [] {
      StepKeepsBytes(tb, env, ops[0]);
      StepMeans(tb, env, ops[0]);
      var (r, a) := Apply(tb, env, ops[0]);
      if !Stops(a) {
        KeptRunIsGuarded(r, env, ops[1..]);
      }
    }
  }

  predicate NoRemovals(ops: seq<Op>) {
    forall i :: 0 <= i < |ops| ==> !ops[i].Remove?
  }

  lemma {:induction false} AddsAloneAreGuarded(tb: Table, env: Env, ops: seq<Op>)
    requires WellSized(tb) && Keyed(ops) && NoRemovals(ops)
    ensures RemovalsGuarded(tb, env, ops)
    decreases |ops|
  {
    if ops != [] {
      AddsAloneAreGuarded(Apply(tb, env, ops[0]).0, env, ops[1..]);
    }
  }

  // ---------- removals after insertions alone ----------

  lemma StepKeepsExact(tb: Table, env: Env, op: Op)
    requires WellSized(tb) && |op.key| > 0 && tb.maxdistance < |tb.slots|
    ensures var r := Apply(tb, env, op).0;
      r.maxdistance < |r.slots| && (!op.Remove? ==> StaysExact(tb, r))
  {
    if op.Add? || op.AddUnique? {
      AddHashKeepsExact(tb, env.memory, env.hashing(op.key), op.key, op.data, env.form);
    }
  }

  /** A removal behind a history without removals passes its guard, in either form and
      whatever memory holds. */
  lemma {:induction false} GuardedAfterAdds(tb: Table, env: Env, ops: seq<Op>, key: seq<Byte>)
    requires WellSized(tb) && Keyed(ops) && NoRemovals(ops) && |key| > 0 && Exact(tb.slots, tb.maxdistance)
    ensures var r := Run(tb, env, ops).0;
      Exact(r.slots, r.maxdistance) && RemovalIsSafe(r, env.hashing(key), key)
    ensures RunGuarded(tb, env, ops + [Remove(key)]) <==> RunGuarded(tb, env, ops)
    decreases |ops|
  {
    var all := ops + [Remove(key)];
    if ops == [] {
      FirstRemovalIsSafe(tb, env.hashing(key), key);
      assert all[1..] == [];
    } else {
      StepKeepsExact(tb, env, ops[0]);
      var (r, a) := Apply(tb, env, ops[0]);
      if Stops(a) {
        FirstRemovalIsSafe(r, env.hashing(key), key);
      } else {
        GuardedAfterAdds(r, env, ops[1..], key);
        assert all[1..] == ops[1..] + [Remove(key)];
      }
    }
  }

  /** From rbhash_new on: after any adds, unique adds and finds, over any memory, the first
      removal of any key as written is safe. So where the adds are guarded, as they are when no
      key starts with a zero byte or the table cannot grow, the multimap explains it too. */
  lemma FirstRemovalAfterAdds(size: nat, min: nat, keySize: nat, env: Env, ops: seq<Op>, key: seq<Byte>)
    requires 1 <= size <= TWO31 && Keyed(ops) && NoRemovals(ops) && |key| > 0
    ensures var tb, all := New(size, min, keySize, env.memory), ops + [Remove(key)];
      && RemovalIsSafe(Run(tb, env, ops).0, env.hashing(key), key)
      && (AllProper(ops) && AllKeepKeys(env, min, ops) ==> RunGuarded(tb, env, ops))
      && (AllProper(ops) && RunGuarded(tb, env, ops) ==>
            && RunGuarded(tb, env, all)
            && Explains(multiset{}, keySize, env, all, Run(tb, env, all).1, Entries(Run(tb, env, all).0.slots)))
  {
    var tb := New(size, min, keySize, env.memory);
    NewIsEmpty(size, min, keySize, env.memory);
    OrderIsExact(tb.slots, tb.maxdistance);
    GuardedAfterAdds(tb, env, ops, key);
    AddsAloneAreGuarded(tb, env, ops);
    if AllProper(ops) && AllKeepKeys(env, min, ops) {
      KeptRunIsGuarded(tb, env, ops);
    }
    if AllProper(ops) && RunGuarded(tb, env, ops) {
      NewTableIsMultimap(size, min, keySize, env, ops + [Remove(key)]);
    }
  }

  // ---------- the search iterator over runs ----------

  /** Over every history, of any operations in either form, the window stays below the size. */
  lemma {:induction false} RunKeepsWindow(tb: Table, env: Env, ops: seq<Op>)
    requires WellSized(tb) && Keyed(ops) && tb.maxdistance < |tb.slots|
    ensures var r := Run(tb, env, ops).0;
      r.maxdistance < |r.slots|
    decreases |ops|
  {
    if ops != [] {
      StepKeepsExact(tb, env, ops[0]);
      var (r, a) := Apply(tb, env, ops[0]);
      if !Stops(a) {
        RunKeepsWindow(r, env, ops[1..]);
      }
    }
  }

  lemma {:induction false} RunKeepsHealthy(tb: Table, env: Env, ops: seq<Op>)
    requires Healthy(tb, env) && AllProper(ops) && Keyed(ops) && RunGuarded(tb, env, ops)
    requires Completed(Run(tb, env, ops).1)
    ensures Healthy(Run(tb, env, ops).0, env)
    decreases |ops|
  {
    if ops != [] {
      StepMeans(tb, env, ops[0]);
      FirstAnswer(tb, env, ops);
      RunKeepsHealthy(Apply(tb, env, ops[0]).0, env, ops[1..]);
    }
  }

  lemma FirstAnswer(tb: Table, env: Env, ops: seq<Op>)
    requires WellSized(tb) && Keyed(ops) && ops != [] && Completed(Run(tb, env, ops).1)
    ensures var (r, a) := Apply(tb, env, ops[0]);
      !Stops(a) && Completed(Run(r, env, ops[1..]).1) && Run(tb, env, ops).0 == Run(r, env, ops[1..]).0
  {
    var (r, a) := Apply(tb, env, ops[0]);
    assert a in Run(tb, env, ops).1;
    var rest := Run(r, env, ops[1..]).1;
    assert Run(tb, env, ops).1 == [a] + rest;
    assert forall x :: x in rest ==> x in [a] + rest;
  }

  lemma DataIsSet(t: seq<Element>, cap: nat, hash: nat, key: seq<Byte>)
    requires AllFit(t, cap) && DataSet(Entries(t)) && |key| > 0
    ensures NoNullMatch(t, hash, key)
  {
    forall k | 0 <= k < |t| && Matches(t[k], hash, key)
      ensures t[k].data != 0
    {
      EntriesMember(t, 0, EntryOf(t[k]));
    }
  }

  /** From rbhash_new on, after any completed history, of removals as written too where they
      pass their guard, and over any memory: the search yields every entry stored under a key
      exactly as often as it is stored, and nothing else. */
  lemma SearchAfterAnyRun(size: nat, min: nat, keySize: nat, env: Env, ops: seq<Op>, key: seq<Byte>, d: Data)
    requires 1 <= size <= TWO31 && AllProper(ops) && Keyed(ops) && |key| > 0
    requires RunGuarded(New(size, min, keySize, env.memory), env, ops)
    requires Completed(Run(New(size, min, keySize, env.memory), env, ops).1)
    ensures var r := Run(New(size, min, keySize, env.memory), env, ops).0;
      var hash := env.hashing(key);
      |r.slots| > 0 && multiset(Drain(r.slots, SearchNew(r.slots, r.maxdistance, hash, key)))[d]
        == if d == 0 then 0 else Entries(r.slots)[Entry(key, hash, d)]
  {
    var tb := New(size, min, keySize, env.memory);
    NewIsEmpty(size, min, keySize, env.memory);
    RunKeepsWindow(tb, env, ops);
    RunKeepsHealthy(tb, env, ops);
    var r := Run(tb, env, ops).0;
    WindowedReaches(r.slots, r.maxdistance);
    DataIsSet(r.slots, Cap(r.keySize), env.hashing(key), key);
    SearchYieldsAll(r.slots, r.maxdistance, env.hashing(key), key, d);
  }

  // ---------- the Robin Hood invariant over runs ----------

  /** A removal as written that moves nothing. */
  predicate StandsStill(tb: Table, hash: nat, key: seq<Byte>)
    requires |tb.slots| > 0
  {
    var b := Lookup(tb.slots, tb.maxdistance, hash, key);
    FindBucketScans(tb.slots, hash, key, FastMod(hash, |tb.slots|), tb.maxdistance + 1);
    b != -1 ==> !ShiftsNext(tb.slots[b := Vacated(tb.slots[b])], b)
  }

  /** Neither garbage that growth pushes down nor a one-slot shift disturbs the order. */
  predicate QuietStep(tb: Table, env: Env, op: Op)
    requires WellSized(tb) && |op.key| > 0
  {
    var hash := env.hashing(op.key);
    match op
    case Add(key, data) => QuietAdd(tb, env.memory, hash, key, data, env.form)
    case AddUnique(key, data) => Find(tb, hash, key) != 0 || QuietAdd(tb, env.memory, hash, key, data, env.form)
    case Get(_) => true
    case Remove(key) => env.form == AsWritten ==> StandsStill(tb, hash, key)
  }

  predicate QuietRun(tb: Table, env: Env, ops: seq<Op>)
    requires WellSized(tb) && Keyed(ops)
    decreases |ops|
  {
    ops == [] ||
    (QuietStep(tb, env, ops[0]) &&
     var (r, a) := Apply(tb, env, ops[0]);
     Stops(a) || QuietRun(r, env, ops[1..]))
  }

  lemma RemovalKeepsOrder(tb: Table, env: Env, key: seq<Byte>)
    requires WellSized(tb) && Ordered(tb) && |key| > 0 && QuietStep(tb, env, Remove(key))
    ensures Ordered(Apply(tb, env, Remove(key)).0)
  {
    var hash := env.hashing(key);
    OrderIsBounded(tb.slots, tb.maxdistance);
    LookupIsExact(tb.slots, tb.maxdistance, hash, key);
    FindBucketScans(tb.slots, hash, key, FastMod(hash, |tb.slots|), tb.maxdistance + 1);
    var b := Lookup(tb.slots, tb.maxdistance, hash, key);
    if b != -1 {
      if env.form == AsWritten {
        ShiftOnceOrderIff(tb.slots, tb.maxdistance, b);
      } else {
        VacateKeepsAround(tb.slots, tb.maxdistance, b);
        ShiftBackRestoresOrder(tb.slots[b := Vacated(tb.slots[b])], tb.maxdistance, b, tb.slots[b].distance);
      }
    }
  }

  lemma StepKeepsOrder(tb: Table, env: Env, op: Op)
    requires WellSized(tb) && Ordered(tb) && |op.key| > 0 && QuietStep(tb, env, op)
    ensures Ordered(Apply(tb, env, op).0) && (op.Remove? ==> Guarded(tb, env, op))
  {
    OrderIsExact(tb.slots, tb.maxdistance);
    FirstRemovalIsSafe(tb, env.hashing(op.key), op.key);
    match op
    case Get(_) =>
    case Remove(key) => RemovalKeepsOrder(tb, env, key);
    case Add(key, data) => QuietAddKeepsOrder(tb, env.memory, env.hashing(key), key, data, env.form);
    case AddUnique(key, data) =>
      if Find(tb, env.hashing(key), key) == 0 {
        QuietAddKeepsOrder(tb, env.memory, env.hashing(key), key, data, env.form);
      }
  }

  /** Every quiet history keeps the Robin Hood invariant, whatever memory and keys hold; all its
      removals pass their guards. */
  lemma {:induction false} RunKeepsOrder(tb: Table, env: Env, ops: seq<Op>)
    requires WellSized(tb) && Ordered(tb) && Keyed(ops) && QuietRun(tb, env, ops)
    ensures Ordered(Run(tb, env, ops).0) && RemovalsGuarded(tb, env, ops)
    decreases |ops|
  {
    if ops != [] {
      StepKeepsOrder(tb, env, ops[0]);
      var (r, a) := Apply(tb, env, ops[0]);
      if !Stops(a) {
        RunKeepsOrder(r, env, ops[1..]);
      }
    }
  }

  lemma SkippedStepIsQuiet(tb: Table, env: Env, op: Op)
    requires WellSized(tb) && Ordered(tb) && SkipsAllDead(tb.slots, env.form) && |op.key| > 0
    requires env.form == AsWritten ==> Zeroed(env.memory) && !op.Remove?
    ensures QuietStep(tb, env, op)
    ensures SkipsAllDead(Apply(tb, env, op).0.slots, env.form)
  {
    if op.Add? || op.AddUnique? {
      SkippedIsQuietAdd(tb, env.memory, env.hashing(op.key), op.key, op.data, env.form);
      AddHashKeepsOrder(tb, env.memory, env.hashing(op.key), op.key, op.data, env.form);
    }
  }

  /** Quiet are all histories of the repaired form, and as written those without removals over
      memory that reads as zero. */
  lemma {:induction false} SkippedRunIsQuiet(tb: Table, env: Env, ops: seq<Op>)
    requires WellSized(tb) && Ordered(tb) && SkipsAllDead(tb.slots, env.form) && Keyed(ops)
    requires env.form == AsWritten ==> Zeroed(env.memory) && NoRemovals(ops)
    ensures QuietRun(tb, env, ops)
    decreases |ops|
  {
    if ops != [] {
      SkippedStepIsQuiet(tb, env, ops[0]);
      StepKeepsOrder(tb, env, ops[0]);
      var (r, a) := Apply(tb, env, ops[0]);
      if !Stops(a) {
        SkippedRunIsQuiet(r, env, ops[1..]);
      }
    }
  }

  // ---------- unique adds make a map ----------

  /** No key has two entries, and hashes are those of the keys. */
  predicate IsMap(m: multiset<Entry>, env: Env) {
    && (forall x :: x in m ==> m[x] == 1 && x.hash == env.hashing(x.key))
    && (forall x, y :: x in m && y in m && x.key == y.key ==> x == y)
  }

  lemma StepKeepsMap(m: multiset<Entry>, keySize: nat, env: Env, op: Op, a: Answer, m': multiset<Entry>)
    requires IsMap(m, env) && !op.Add? && Means(m, keySize, env, op, a, m')
    ensures IsMap(m', env)
  {
  }

  /** Under unique adds only, with lookups and removals in between, the table is a map. */
  lemma {:induction false} UniqueAddsMakeMap(tb: Table, env: Env, ops: seq<Op>)
    requires Healthy(tb, env) && AllProper(ops) && Keyed(ops) && RunGuarded(tb, env, ops)
    requires IsMap(Entries(tb.slots), env) && forall i :: 0 <= i < |ops| ==> !ops[i].Add?
    requires Completed(Run(tb, env, ops).1)
    ensures var r := Run(tb, env, ops).0;
      Healthy(r, env) && IsMap(Entries(r.slots), env)
    decreases |ops|
  {
    if ops != [] {
      StepMeans(tb, env, ops[0]);
      var (r, a) := Apply(tb, env, ops[0]);
      FirstAnswer(tb, env, ops);
      StepKeepsMap(Entries(tb.slots), tb.keySize, env, ops[0], a, Entries(r.slots));
      UniqueAddsMakeMap(r, env, ops[1..]);
    }
  }

  /** On such a table a lookup is the map's. */
  lemma MapLookup(tb: Table, env: Env, key: seq<Byte>, x: Entry)
    requires Valid(tb) && IsMap(Entries(tb.slots), env) && |key| > 0
    requires x in Entries(tb.slots) && x.key == key
    ensures Find(tb, env.hashing(key), key) == x.data
  {
    FindAnswers(tb, env.hashing(key), key);
  }

  // ---------- runs given state by state ----------

  lemma RunCons(tb: Table, env: Env, ops: seq<Op>)
    requires WellSized(tb) && Keyed(ops) && ops != [] && !Stops(Apply(tb, env, ops[0]).1)
    ensures var r := Apply(tb, env, ops[0]).0;
      && Run(tb, env, ops).0 == Run(r, env, ops[1..]).0
      && (RunGuarded(tb, env, ops) <==> Guarded(tb, env, ops[0]) && RunGuarded(r, env, ops[1..]))
  {
  }

  /** Operations that succeed one by one, from state to state. */
  predicate Succeeds(states: seq<Table>, env: Env, ops: seq<Op>)
    requires Keyed(ops)
  {
    && |states| == |ops| + 1
    && (forall i :: 0 <= i < |states| ==> WellSized(states[i]))
    && (forall i :: 0 <= i < |ops| ==>
          Apply(states[i], env, ops[i]).0 == states[i + 1] && !Stops(Apply(states[i], env, ops[i]).1))
  }

  predicate AllGuarded(states: seq<Table>, env: Env, ops: seq<Op>)
    requires Keyed(ops) && Succeeds(states, env, ops)
  {
    forall i :: 0 <= i < |ops| ==> Guarded(states[i], env, ops[i])
  }

  lemma SucceedsNext(states: seq<Table>, env: Env, ops: seq<Op>)
    requires Keyed(ops) && Succeeds(states, env, ops) && ops != []
    ensures Keyed(ops[1..]) && Succeeds(states[1..], env, ops[1..])
    ensures AllGuarded(states, env, ops) <==> Guarded(states[0], env, ops[0]) && AllGuarded(states[1..], env, ops[1..])
  {
    var rest, later := ops[1..], states[1..];
    assert forall i :: 0 <= i < |rest| ==> rest[i] == ops[i + 1] && later[i] == states[i + 1];
    assert forall i :: 1 <= i < |ops| ==> ops[i] == rest[i - 1] && states[i] == later[i - 1];
  }

  /** They carry the run to the last state. */
  lemma {:induction false} RunThrough(states: seq<Table>, env: Env, ops: seq<Op>)
    requires Keyed(ops) && Succeeds(states, env, ops)
    ensures Run(states[0], env, ops).0 == states[|ops|]
    decreases |ops|
  {
    if ops != [] {
      SucceedsNext(states, env, ops);
      RunThrough(states[1..], env, ops[1..]);
      RunCons(states[0], env, ops);
    }
  }

  /** The run is guarded exactly when each of them is. */
  lemma {:induction false} GuardsThrough(states: seq<Table>, env: Env, ops: seq<Op>)
    requires Keyed(ops) && Succeeds(states, env, ops)
    ensures RunGuarded(states[0], env, ops) <==> AllGuarded(states, env, ops)
    decreases |ops|
  {
    if ops != [] {
      SucceedsNext(states, env, ops);
      GuardsThrough(states[1..], env, ops[1..]);
      RunCons(states[0], env, ops);
    }
  }
}
