/** The table under unique adds is a map. */
module HashMaps {
  import opened Bits
  import opened RobinHood
  import opened HashTable
  import opened HashRemoval
  import opened HashRuns

  type Map = map<seq<Byte>, Data>

  // ---------- the map ----------

  /** What a map with keys of at most keySize bytes answers, and becomes. */
  function MapApply(m: Map, keySize: nat, op: Op): (Map, Answer) {
    match op
    case Add(key, data) => MapAdd(m, keySize, key, data)
    case AddUnique(key, data) => if key in m then (m, AlreadyThere) else MapAdd(m, keySize, key, data)
    case Get(key) => (m, Value(if key in m then m[key] else 0))
    case Remove(key) => (m - {key}, Removed(key in m))
  }

  function MapAdd(m: Map, keySize: nat, key: seq<Byte>, data: Data): (Map, Answer) {
    if |key| > keySize then (m, Stored(KeyTooBig)) else (m[key := data], Stored(Done))
  }

  function MapRun(m: Map, keySize: nat, ops: seq<Op>): (Map, seq<Answer>)
    decreases |ops|
  {
    if ops == [] then (m, [])
    else
      var (m1, a) := MapApply(m, keySize, ops[0]);
      var (m', rest) := MapRun(m1, keySize, ops[1..]);
      (m', [a] + rest)
  }

  /** A plain add is only used for a key that is not there. */
  predicate AddsNew(m: Map, keySize: nat, ops: seq<Op>)
    decreases |ops|
  {
    ops == [] ||
    ((ops[0].Add? ==> ops[0].key !in m) && AddsNew(MapApply(m, keySize, ops[0]).0, keySize, ops[1..]))
  }

  // ---------- the table as a map ----------

  /** The bag holds one entry for each pair of the map and no other. */
  predicate Represents(bag: multiset<Entry>, env: Env, m: Map) {
    && (forall x :: x in bag ==> bag[x] == 1 && x.hash == env.hashing(x.key) && x.key in m && m[x.key] == x.data)
    && (forall key :: key in m ==> Entry(key, env.hashing(key), m[key]) in bag)
  }

  lemma StoredIffInMap(bag: multiset<Entry>, env: Env, m: Map, key: seq<Byte>)
    requires Represents(bag, env, m)
    ensures Stores(bag, env.hashing(key), key) <==> key in m
    ensures forall x :: x in bag && x.key == key ==> x == Entry(key, env.hashing(key), m[key])
  {
    if key in m {
      assert Entry(key, env.hashing(key), m[key]) in bag;
    }
  }

  lemma AddedRepresents(bag: multiset<Entry>, env: Env, m: Map, key: seq<Byte>, data: Data)
    requires Represents(bag, env, m) && key !in m
    ensures Represents(bag + multiset{Entry(key, env.hashing(key), data)}, env, m[key := data])
  {
    var x := Entry(key, env.hashing(key), data);
    assert x !in bag;
    forall k | k in m[key := data]
      ensures Entry(k, env.hashing(k), m[key := data][k]) in bag + multiset{x}
    {
      assert k != key ==> Entry(k, env.hashing(k), m[k]) in bag;
    }
  }

  lemma RemovedRepresents(bag: multiset<Entry>, env: Env, m: Map, key: seq<Byte>, bag': multiset<Entry>)
    requires Represents(bag, env, m) && RemovesOne(bag, bag', env.hashing(key), key)
    ensures Represents(bag', env, m - {key})
  {
    var x :| x in bag && x.key == key && x.hash == env.hashing(key) && bag' == bag - multiset{x};
    assert x == Entry(key, env.hashing(key), m[key]);
    forall y | y in bag'
      ensures bag'[y] == 1 && y.key in m - {key} && m[y.key] == y.data && y.hash == env.hashing(y.key)
    {
      assert y in bag && (y.key == key ==> y == x);
    }
    forall k | k in m - {key}
      ensures Entry(k, env.hashing(k), (m - {key})[k]) in bag'
    {
      assert Entry(k, env.hashing(k), m[k]) in bag;
    }
  }

  /** Where the bag represents a map, a multimap's answer is the map's. */
  lemma MeansIsMap(bag: multiset<Entry>, m: Map, keySize: nat, env: Env, op: Op, a: Answer, bag': multiset<Entry>)
    requires Represents(bag, env, m) && Means(bag, keySize, env, op, a, bag') && (op.Add? ==> op.key !in m)
    ensures a == MapApply(m, keySize, op).1 && Represents(bag', env, MapApply(m, keySize, op).0)
  {
    StoredIffInMap(bag, env, m, op.key);
    match op
    case Get(key) =>
    case Remove(key) =>
      if key in m {
        RemovedRepresents(bag, env, m, key, bag');
      } else {
        assert m - {key} == m;
      }
    case _ =>
      if op.key !in m {
        AddedRepresents(bag, env, m, op.key, op.data);
      }
  }

  /** Over every guarded history that adds no key twice, growths and removals included, the
      answers are those of a map, and the table goes on representing it. */
  lemma {:induction false} RunIsMap(tb: Table, env: Env, ops: seq<Op>, m: Map)
    requires Healthy(tb, env) && AllProper(ops) && Keyed(ops) && RunGuarded(tb, env, ops)
    requires Represents(Entries(tb.slots), env, m) && AddsNew(m, tb.keySize, ops)
    requires Completed(Run(tb, env, ops).1)
    ensures var (r, answers) := Run(tb, env, ops);
      && answers == MapRun(m, tb.keySize, ops).1 && Healthy(r, env)
      && Represents(Entries(r.slots), env, MapRun(m, tb.keySize, ops).0)
    decreases |ops|
  {
    if ops != [] {
      StepMeans(tb, env, ops[0]);
      FirstAnswer(tb, env, ops);
      var (r, a) := Apply(tb, env, ops[0]);
      MeansIsMap(Entries(tb.slots), m, tb.keySize, env, ops[0], a, Entries(r.slots));
      RunIsMap(r, env, ops[1..], MapApply(m, tb.keySize, ops[0]).0);
    }
  }

  lemma NewTableIsMap(size: nat, min: nat, keySize: nat, env: Env, ops: seq<Op>)
    requires 1 <= size <= TWO31 && AllProper(ops) && Keyed(ops) && AddsNew(map[], keySize, ops)
    requires RunGuarded(New(size, min, keySize, env.memory), env, ops)
    requires Completed(Run(New(size, min, keySize, env.memory), env, ops).1)
    ensures Run(New(size, min, keySize, env.memory), env, ops).1 == MapRun(map[], keySize, ops).1
  {
    NewIsEmpty(size, min, keySize, env.memory);
    RunIsMap(New(size, min, keySize, env.memory), env, ops, map[]);
  }
}
