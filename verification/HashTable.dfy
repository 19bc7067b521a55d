/** rbhash_new, rbhash_upsize, rbhash_add_hash, rbhash_add_unique and rbhash_find on
    values: growth, the reported errors and what they do to the stored entries. */
module HashTable {
  import opened Bits
  import opened RobinHood

  /** The code as it stands, or with the two evident repairs: growth that tests len
      instead of key[0], and a removal that shifts the whole run behind it. */
  datatype Form = AsWritten | Repaired

  datatype Table = Table(slots: seq<Element>, maxdistance: nat, count: nat, min: nat, keySize: nat)

  /** Every slot buffer has the size the table was made for. */
  predicate WellSized(tb: Table) {
    |tb.slots| > 0 && AllFit(tb.slots, Cap(tb.keySize))
  }

  datatype Status = Done | KeyTooBig | TableFull | SizeOverflow

  /** What malloc returns for slot i of a table of n slots; slot 0 of size 0 stands for
      the scratch element of rbhash_add_hash. */
  type Memory = (nat, nat) -> Element

  function Cap(keySize: nat): nat {
    keySize + 1
  }

  function Padded(key: seq<Byte>, cap: nat): (r: seq<Byte>)
    ensures |r| == cap
  {
    if cap <= |key| then key[..cap] else key + seq(cap - |key|, _ => 0)
  }

  /** A slot of a new table: whatever memory holds, with len set to 0. */
  function Fresh(g: Element, cap: nat): (e: Element)
    requires cap > 0
    ensures Fits(e, cap) && !Live(e)
  {
    Element(g.data, g.hash, 0, g.distance, Padded(g.key, cap))
  }

  function FreshSlots(memory: Memory, n: nat, cap: nat): (t: seq<Element>)
    requires cap > 0
    ensures |t| == n && forall i :: 0 <= i < n ==> t[i] == Fresh(memory(n, i), cap)
    ensures AllFit(t, cap)
  {
    var t := seq(n, i requires 0 <= i => Fresh(memory(n, i), cap));
    assert forall i :: 0 <= i < n ==> t[i] == Fresh(memory(n, i), cap) && Fits(t[i], cap);
    t
  }

  // ---------- growth ----------

  predicate Skipped(e: Element, form: Form) {
    match form
    case AsWritten => |e.key| > 0 && e.key[0] == 0
    case Repaired => !Live(e)
  }

  /** The loop of rbhash_upsize: slots k.. of the old table are inserted in the new one. */
  function Reinsert(old_: seq<Element>, k: nat, t: seq<Element>, maxd: nat, cap: nat, form: Form): (r: Placement)
    requires k <= |old_| && |t| > 0 && AllFit(old_, cap) && AllFit(t, cap)
    ensures |r.slots| == |t| && AllFit(r.slots, cap)
    decreases |old_| - k
  {
    if k == |old_| then Placement(t, maxd, true)
    else if Skipped(old_[k], form) then Reinsert(old_, k + 1, t, maxd, cap, form)
    else
      var e := old_[k].(distance := 0);
      var r := SwapDown(t, maxd, e, Home(|t|, e), 0, cap);
      if r.ok then Reinsert(old_, k + 1, r.slots, r.maxdistance, cap, form) else r
  }

  function Kept(e: Element, form: Form): multiset<Entry> {
    if Skipped(e, form) then multiset{} else Ent(e)
  }

  function KeptFrom(t: seq<Element>, k: nat, form: Form): multiset<Entry>
    requires k <= |t|
    decreases |t| - k
  {
    if k == |t| then multiset{} else Kept(t[k], form) + KeptFrom(t, k + 1, form)
  }

  predicate SkipsNoLive(t: seq<Element>, form: Form) {
    forall k :: 0 <= k < |t| && Live(t[k]) ==> !Skipped(t[k], form)
  }

  predicate SkipsAllDead(t: seq<Element>, form: Form) {
    forall k :: 0 <= k < |t| && !Live(t[k]) ==> Skipped(t[k], form)
  }

  function KeptCount(t: seq<Element>, k: nat, form: Form): nat
    requires k <= |t|
    decreases |t| - k
  {
    if k == |t| then 0 else KeptCount(t, k + 1, form) + (if Live(t[k]) && !Skipped(t[k], form) then 1 else 0)
  }

  lemma {:induction false} KeptSize(t: seq<Element>, k: nat, form: Form)
    requires k <= |t|
    ensures |KeptFrom(t, k, form)| == KeptCount(t, k, form)
    decreases |t| - k
  {
    if k < |t| {
      KeptSize(t, k + 1, form);
      UnionSize(Kept(t[k], form), KeptFrom(t, k + 1, form));
    }
  }

  lemma {:induction false} KeptCountBelow(t: seq<Element>, k: nat, form: Form)
    requires k <= |t|
    ensures KeptCount(t, k, form) <= LiveFrom(t, k)
    ensures KeptCount(t, k, form) == LiveFrom(t, k) ==> forall i :: k <= i < |t| && Live(t[i]) ==> !Skipped(t[i], form)
    decreases |t| - k
  {
    if k < |t| {
      KeptCountBelow(t, k + 1, form);
    }
  }

  lemma {:induction false} KeptAll(t: seq<Element>, k: nat, form: Form)
    requires k <= |t| && SkipsNoLive(t, form)
    ensures KeptFrom(t, k, form) == EntriesFrom(t, k)
    decreases |t| - k
  {
    if k < |t| {
      KeptAll(t, k + 1, form);
      assert Live(t[k]) ==> !Skipped(t[k], form);
      assert Kept(t[k], form) == Ent(t[k]);
    }
  }

  lemma KeptAllIff(t: seq<Element>, form: Form)
    ensures KeptFrom(t, 0, form) == Entries(t) <==> SkipsNoLive(t, form)
  {
    KeptSize(t, 0, form);
    LiveIsSize(t, 0);
    KeptCountBelow(t, 0, form);
    if SkipsNoLive(t, form) {
      KeptAll(t, 0, form);
    }
  }

  lemma {:induction false} LiveSplit(t: seq<Element>, k: nat)
    requires k < |t|
    ensures LiveFrom(t, k + 1) <= LiveFrom(t, k)
    ensures Live(t[k]) ==> LiveFrom(t, k + 1) + 1 == LiveFrom(t, k)
  {
  }

  lemma LiveAfterInsert(s: seq<Element>, t: seq<Element>, e: Element)
    requires Entries(s) == Entries(t) + Ent(e)
    ensures LiveFrom(s, 0) == LiveFrom(t, 0) + (if Live(e) then 1 else 0)
  {
    LiveIsSize(s, 0);
    LiveIsSize(t, 0);
    UnionSize(Entries(t), Ent(e));
  }

  /** An element at distance 0, put into a table with a hole. */
  lemma InsertFresh(t: seq<Element>, maxd: nat, e: Element, cap: nat)
    requires |t| > 0 && AllFit(t, cap) && Fits(e, cap) && e.distance == 0
    requires LiveFrom(t, 0) < |t| && Bounded(t, maxd)
    ensures var r := SwapDown(t, maxd, e, Home(|t|, e), 0, cap);
      && r.ok && Bounded(r.slots, r.maxdistance) && Entries(r.slots) == Entries(t) + Ent(e)
      && LiveFrom(r.slots, 0) == LiveFrom(t, 0) + (if Live(e) then 1 else 0)
  {
    var b := Home(|t|, e);
    var h := HoleExists(t, 0);
    SwapDownAddsEntry(t, maxd, e, b, 0, cap, h);
    SwapDownKeepsBounded(t, maxd, e, b, 0, cap);
    LiveAfterInsert(SwapDown(t, maxd, e, b, 0, cap).slots, t, e);
  }

  lemma UnionJoins(a: multiset<Entry>, b: multiset<Entry>, c: multiset<Entry>)
    ensures a + b + c == a + (b + c)
  {
  }

  /** With room for all live slots reinsertion succeeds, keeps exactly the unskipped entries
      and rebuilds a maxdistance that bounds them. */
  lemma {:induction false} ReinsertKeeps(old_: seq<Element>, k: nat, t: seq<Element>, maxd: nat, cap: nat, form: Form)
    requires k <= |old_| && |t| > 0 && AllFit(old_, cap) && AllFit(t, cap)
    requires LiveFrom(t, 0) + LiveFrom(old_, k) < |t| && Bounded(t, maxd)
    ensures var r := Reinsert(old_, k, t, maxd, cap, form);
      && r.ok && Bounded(r.slots, r.maxdistance)
      && Entries(r.slots) == Entries(t) + KeptFrom(old_, k, form)
    decreases |old_| - k
  {
    if k < |old_| {
      LiveSplit(old_, k);
      if Skipped(old_[k], form) {
        ReinsertKeeps(old_, k + 1, t, maxd, cap, form);
      } else {
        var e := old_[k].(distance := 0);
        assert Ent(e) == Ent(old_[k]);
        var r := SwapDown(t, maxd, e, Home(|t|, e), 0, cap);
        InsertFresh(t, maxd, e, cap);
        ReinsertKeeps(old_, k + 1, r.slots, r.maxdistance, cap, form);
        UnionJoins(Entries(t), Ent(e), KeptFrom(old_, k + 1, form));
      }
    }
  }

  /** When every dead slot is skipped, growth re-establishes the Robin Hood invariant. */
  lemma {:induction false} ReinsertKeepsOrder(old_: seq<Element>, k: nat, t: seq<Element>, maxd: nat, cap: nat,
                                              form: Form)
    requires k <= |old_| && |t| > 0 && AllFit(old_, cap) && AllFit(t, cap)
    requires LiveFrom(t, 0) + LiveFrom(old_, k) < |t|
    requires SkipsAllDead(old_, form) && RobinHoodOrder(t, maxd)
    ensures var r := Reinsert(old_, k, t, maxd, cap, form);
      && RobinHoodOrder(r.slots, r.maxdistance)
      && forall i :: 0 <= i < |t| && !Live(r.slots[i]) ==> r.slots[i] == t[i]
    decreases |old_| - k
  {
    if k < |old_| {
      LiveSplit(old_, k);
      if Skipped(old_[k], form) {
        ReinsertKeepsOrder(old_, k + 1, t, maxd, cap, form);
      } else {
        var e := old_[k].(distance := 0);
        var b := Home(|t|, e);
        var h := HoleExists(t, 0);
        SwapDownAddsEntry(t, maxd, e, b, 0, cap, h);
        SwapDownKeepsOrder(t, maxd, e, b, 0, cap, h);
        var r := SwapDown(t, maxd, e, b, 0, cap);
        LiveAfterInsert(r.slots, t, e);
        ReinsertKeepsOrder(old_, k + 1, r.slots, r.maxdistance, cap, form);
      }
    }
  }

  /** Growth keeps distances exact whatever garbage it pushes down. */
  lemma {:induction false} ReinsertKeepsExact(old_: seq<Element>, k: nat, t: seq<Element>, maxd: nat, cap: nat,
                                              form: Form)
    requires k <= |old_| && |t| > 0 && AllFit(old_, cap) && AllFit(t, cap)
    requires LiveFrom(t, 0) + LiveFrom(old_, k) < |t| && Exact(t, maxd)
    ensures var r := Reinsert(old_, k, t, maxd, cap, form);
      r.ok && Exact(r.slots, r.maxdistance)
    decreases |old_| - k
  {
    if k < |old_| {
      LiveSplit(old_, k);
      if Skipped(old_[k], form) {
        ReinsertKeepsExact(old_, k + 1, t, maxd, cap, form);
      } else {
        var e := old_[k].(distance := 0);
        var b := Home(|t|, e);
        var h := HoleExists(t, 0);
        ExactIsBounded(t, maxd);
        InsertFresh(t, maxd, e, cap);
        SwapDownKeepsExact(t, maxd, e, b, 0, cap, h);
        var r := SwapDown(t, maxd, e, b, 0, cap);
        ReinsertKeepsExact(old_, k + 1, r.slots, r.maxdistance, cap, form);
      }
    }
  }

  /** Every dead slot the loop does not skip passes by the entries already moved. */
  predicate Quiet(old_: seq<Element>, k: nat, t: seq<Element>, maxd: nat, cap: nat, form: Form)
    requires k <= |old_| && |t| > 0 && AllFit(old_, cap) && AllFit(t, cap)
    decreases |old_| - k
  {
    k == |old_| ||
    if Skipped(old_[k], form) then Quiet(old_, k + 1, t, maxd, cap, form)
    else
      var e := old_[k].(distance := 0);
      var r := SwapDown(t, maxd, e, Home(|t|, e), 0, cap);
      (Live(e) || PassesBy(t, 0, Home(|t|, e), 0)) && (r.ok ==> Quiet(old_, k + 1, r.slots, r.maxdistance, cap, form))
  }

  lemma {:induction false} SkippedIsQuiet(old_: seq<Element>, k: nat, t: seq<Element>, maxd: nat, cap: nat, form: Form)
    requires k <= |old_| && |t| > 0 && AllFit(old_, cap) && AllFit(t, cap) && SkipsAllDead(old_, form)
    ensures Quiet(old_, k, t, maxd, cap, form)
    decreases |old_| - k
  {
    if k < |old_| {
      var e := old_[k].(distance := 0);
      var r := SwapDown(t, maxd, e, Home(|t|, e), 0, cap);
      if Skipped(old_[k], form) {
        SkippedIsQuiet(old_, k + 1, t, maxd, cap, form);
      } else if r.ok {
        SkippedIsQuiet(old_, k + 1, r.slots, r.maxdistance, cap, form);
      }
    }
  }

  /** One unskipped slot, live or passing by. */
  lemma PushKeepsOrder(t: seq<Element>, maxd: nat, e: Element, cap: nat)
    requires |t| > 0 && AllFit(t, cap) && Fits(e, cap) && e.distance == 0
    requires LiveFrom(t, 0) < |t| && RobinHoodOrder(t, maxd) && (Live(e) || PassesBy(t, 0, Home(|t|, e), 0))
    ensures var r := SwapDown(t, maxd, e, Home(|t|, e), 0, cap);
      RobinHoodOrder(r.slots, r.maxdistance)
  {
    var h := HoleExists(t, 0);
    if Live(e) {
      SwapDownKeepsOrder(t, maxd, e, Home(|t|, e), 0, cap, h);
    } else {
      DeadPushOrderIff(t, maxd, e, Home(|t|, e), 0, cap, h);
    }
  }

  /** Quiet growth re-establishes the Robin Hood invariant, whatever memory held. */
  lemma {:induction false} QuietKeepsOrder(old_: seq<Element>, k: nat, t: seq<Element>, maxd: nat, cap: nat, form: Form)
    requires k <= |old_| && |t| > 0 && AllFit(old_, cap) && AllFit(t, cap)
    requires LiveFrom(t, 0) + LiveFrom(old_, k) < |t|
    requires RobinHoodOrder(t, maxd) && Quiet(old_, k, t, maxd, cap, form)
    ensures var r := Reinsert(old_, k, t, maxd, cap, form);
      RobinHoodOrder(r.slots, r.maxdistance)
    decreases |old_| - k
  {
    if k < |old_| {
      LiveSplit(old_, k);
      if Skipped(old_[k], form) {
        QuietKeepsOrder(old_, k + 1, t, maxd, cap, form);
      } else {
        var e := old_[k].(distance := 0);
        OrderIsBounded(t, maxd);
        InsertFresh(t, maxd, e, cap);
        PushKeepsOrder(t, maxd, e, cap);
        var r := SwapDown(t, maxd, e, Home(|t|, e), 0, cap);
        QuietKeepsOrder(old_, k + 1, r.slots, r.maxdistance, cap, form);
      }
    }
  }

  /** Free slots asked for: min percent of the size, and one. */
  function Margin(tb: Table): nat {
    Div(Times(|tb.slots|, tb.min), 100) + 1
  }

  lemma MarginIsPercent(tb: Table)
    ensures Margin(tb) == |tb.slots| * tb.min / 100 + 1
  {
    TimesIsProduct(|tb.slots|, tb.min);
    DivModAreBuiltin(|tb.slots| * tb.min, 100);
  }

  function Grow(tb: Table, n: nat, memory: Memory, form: Form): (r: (Table, Status))
    requires n > 0 && WellSized(tb)
    ensures WellSized(r.0)
  {
    var r := Reinsert(tb.slots, 0, FreshSlots(memory, n, Cap(tb.keySize)), 0, Cap(tb.keySize), form);
    if r.ok then (tb.(slots := r.slots, maxdistance := r.maxdistance), Done) else (tb, TableFull)
  }

  function NewSize(wanted: nat): (n: nat)
    requires 1 <= wanted <= TWO31
    ensures IsPow2(n) && wanted <= n && (wanted > 1 ==> n < 2 * wanted)
  {
    RoundUpPow2Correct(wanted);
    RoundUpPow2(wanted)
  }

  /** Grow unless more than `margin` slots are free. */
  function Upsize(tb: Table, margin: nat, memory: Memory, form: Form): (r: (Table, Status))
    requires margin > 0 && WellSized(tb)
    ensures WellSized(r.0)
  {
    if |tb.slots| > tb.count + margin then (tb, Done)
    else if |tb.slots| + margin > TWO31 then (tb, SizeOverflow)
    else Grow(tb, NewSize(|tb.slots| + margin), memory, form)
  }

  /** What every operation keeps. */
  predicate Valid(tb: Table) {
    && WellSized(tb) && IsPow2(|tb.slots|)
    && Windowed(tb.slots, tb.maxdistance)
    && tb.count == LiveFrom(tb.slots, 0)
  }

  /** With a non-zero margin the table always keeps a free slot. */
  predicate HasRoom(tb: Table) {
    tb.min > 0 ==> tb.count < |tb.slots|
  }

  predicate Ordered(tb: Table) {
    RobinHoodOrder(tb.slots, tb.maxdistance)
  }

  predicate SameShape(tb: Table, r: Table) {
    |tb.slots| <= |r.slots| && r.min == tb.min && r.keySize == tb.keySize
  }

  predicate SameContents(r: Table, tb: Table) {
    && Valid(r) && Entries(r.slots) == Entries(tb.slots)
    && r.count == tb.count && r.min == tb.min && r.keySize == tb.keySize
  }

  /** Growth into any larger power of two succeeds and keeps the contents. */
  lemma GrowKeeps(tb: Table, n: nat, memory: Memory, form: Form)
    requires Valid(tb) && SkipsNoLive(tb.slots, form) && IsPow2(n) && tb.count < n
    ensures var (r, st) := Grow(tb, n, memory, form);
      st == Done && SameContents(r, tb) && |r.slots| == n
  {
    var cap := Cap(tb.keySize);
    var t := FreshSlots(memory, n, cap);
    FreshIsEmpty(memory, n, cap);
    ReinsertKeeps(tb.slots, 0, t, 0, cap, form);
    KeptAll(tb.slots, 0, form);
    var r := Reinsert(tb.slots, 0, t, 0, cap, form);
    assert Entries(t) + Entries(tb.slots) == Entries(tb.slots);
    LiveIsSize(r.slots, 0);
    LiveIsSize(tb.slots, 0);
  }

  /** Every stored key starts with a non-zero byte. */
  predicate FirstBytesSet(m: multiset<Entry>) {
    forall x :: x in m ==> |x.key| > 0 && x.key[0] != 0
  }

  lemma FirstBytesAreKept(t: seq<Element>, cap: nat, form: Form)
    requires AllFit(t, cap)
    ensures SkipsNoLive(t, form) <==> (form == AsWritten ==> FirstBytesSet(Entries(t)))
  {
    forall k | 0 <= k < |t| && Live(t[k])
      ensures EntryOf(t[k]) in Entries(t) && EntryOf(t[k]).key[0] == t[k].key[0]
    {
      EntriesMember(t, 0, EntryOf(t[k]));
    }
    forall x | x in Entries(t)
      ensures exists k :: 0 <= k < |t| && Live(t[k]) && EntryOf(t[k]) == x
    {
      EntriesMember(t, 0, x);
    }
  }

  /** Growth succeeds and keeps the bag of entries exactly when it can tell every live slot:
      with the test on len always, as written when no stored key starts with a zero byte. */
  lemma GrowthPreservesIff(tb: Table, n: nat, memory: Memory, form: Form)
    requires Valid(tb) && IsPow2(n) && tb.count < n
    ensures var (r, st) := Grow(tb, n, memory, form);
      && st == Done && |r.slots| == n
      && (Entries(r.slots) == Entries(tb.slots) <==> (form == AsWritten ==> FirstBytesSet(Entries(tb.slots))))
  {
    var cap := Cap(tb.keySize);
    var t := FreshSlots(memory, n, cap);
    FreshIsEmpty(memory, n, cap);
    ReinsertKeeps(tb.slots, 0, t, 0, cap, form);
    KeptAllIff(tb.slots, form);
    FirstBytesAreKept(tb.slots, cap, form);
    var kept := KeptFrom(tb.slots, 0, form);
    assert Entries(t) + kept == kept;
  }

  lemma GrowthKeepsIff(tb: Table, n: nat, memory: Memory, form: Form)
    requires Valid(tb) && IsPow2(n) && tb.count < n
    ensures var (r, st) := Grow(tb, n, memory, form);
      && st == Done && |r.slots| == n && r.count == tb.count && r.min == tb.min && r.keySize == tb.keySize
      && (SameContents(r, tb) <==> (form == AsWritten ==> FirstBytesSet(Entries(tb.slots))))
  {
    GrowthPreservesIff(tb, n, memory, form);
    FirstBytesAreKept(tb.slots, Cap(tb.keySize), form);
    if SkipsNoLive(tb.slots, form) {
      GrowKeeps(tb, n, memory, form);
    }
  }

  /** Upsize has work to do. */
  predicate Grows(tb: Table, margin: nat) {
    |tb.slots| <= tb.count + margin && |tb.slots| + margin <= TWO31
  }

  lemma UpsizeKeepsIff(tb: Table, margin: nat, memory: Memory, form: Form)
    requires margin > 0 && Valid(tb)
    ensures var (r, st) := Upsize(tb, margin, memory, form);
      && (st == Done || st == SizeOverflow)
      && (st == SizeOverflow ==> TWO31 < |tb.slots| + margin)
      && (st == Done ==> SameShape(tb, r) && r.count == tb.count < |r.slots|)
      && (st == Done ==>
            (SameContents(r, tb) <==> (Grows(tb, margin) && form == AsWritten ==> FirstBytesSet(Entries(tb.slots)))))
  {
    LiveAtMost(tb.slots);
    if Grows(tb, margin) {
      GrowthKeepsIff(tb, NewSize(|tb.slots| + margin), memory, form);
    }
  }

  lemma FreshIsEmpty(memory: Memory, n: nat, cap: nat)
    requires cap > 0 && n > 0
    ensures forall i :: 0 <= i < n ==> !Live(FreshSlots(memory, n, cap)[i])
    ensures var t := FreshSlots(memory, n, cap);
      Entries(t) == multiset{} && LiveFrom(t, 0) == 0 && Bounded(t, 0) && RobinHoodOrder(t, 0)
  {
    var t := FreshSlots(memory, n, cap);
    AllDead(t, 0);
    LiveIsSize(t, 0);
  }

  /** Memory that reads as zero at the first key byte of every fresh slot. */
  ghost predicate Zeroed(memory: Memory) {
    forall n: nat, i: nat :: |memory(n, i).key| > 0 ==> memory(n, i).key[0] == 0
  }

  lemma FreshIsSkipped(memory: Memory, n: nat, cap: nat, form: Form)
    requires cap > 0 && (form == AsWritten ==> Zeroed(memory))
    ensures SkipsAllDead(FreshSlots(memory, n, cap), form)
  {
    var t := FreshSlots(memory, n, cap);
    forall i | 0 <= i < n
      ensures Skipped(t[i], form)
    {
      var g := memory(n, i);
      assert t[i].key == Padded(g.key, cap);
    }
  }

  lemma GrowKeepsOrder(tb: Table, n: nat, memory: Memory, form: Form)
    requires WellSized(tb) && SkipsAllDead(tb.slots, form) && LiveFrom(tb.slots, 0) < n
    requires form == AsWritten ==> Zeroed(memory)
    ensures var (r, st) := Grow(tb, n, memory, form);
      st == Done ==> Ordered(r) && SkipsAllDead(r.slots, form)
  {
    var cap := Cap(tb.keySize);
    var t := FreshSlots(memory, n, cap);
    FreshIsEmpty(memory, n, cap);
    FreshIsSkipped(memory, n, cap, form);
    ReinsertKeepsOrder(tb.slots, 0, t, 0, cap, form);
  }

  lemma UpsizeKeepsOrder(tb: Table, margin: nat, memory: Memory, form: Form)
    requires margin > 0 && WellSized(tb) && Ordered(tb) && SkipsAllDead(tb.slots, form)
    requires form == AsWritten ==> Zeroed(memory)
    ensures var r := Upsize(tb, margin, memory, form).0;
      Ordered(r) && SkipsAllDead(r.slots, form)
  {
    LiveAtMost(tb.slots);
    if |tb.slots| <= tb.count + margin && |tb.slots| + margin <= TWO31 {
      GrowKeepsOrder(tb, NewSize(|tb.slots| + margin), memory, form);
    }
  }

  /** The growth an add may trigger is quiet. */
  predicate QuietGrowth(tb: Table, margin: nat, memory: Memory, form: Form)
    requires margin > 0 && WellSized(tb)
  {
    |tb.slots| <= tb.count + margin && |tb.slots| + margin <= TWO31 ==>
      Quiet(tb.slots, 0, FreshSlots(memory, NewSize(|tb.slots| + margin), Cap(tb.keySize)), 0, Cap(tb.keySize), form)
  }

  lemma SkippedIsQuietGrowth(tb: Table, margin: nat, memory: Memory, form: Form)
    requires margin > 0 && WellSized(tb) && SkipsAllDead(tb.slots, form)
    ensures QuietGrowth(tb, margin, memory, form)
  {
    if |tb.slots| + margin <= TWO31 {
      var cap := Cap(tb.keySize);
      SkippedIsQuiet(tb.slots, 0, FreshSlots(memory, NewSize(|tb.slots| + margin), cap), 0, cap, form);
    }
  }

  lemma QuietGrowKeepsOrder(tb: Table, n: nat, memory: Memory, form: Form)
    requires WellSized(tb) && LiveFrom(tb.slots, 0) < n
    requires Quiet(tb.slots, 0, FreshSlots(memory, n, Cap(tb.keySize)), 0, Cap(tb.keySize), form)
    ensures var (r, st) := Grow(tb, n, memory, form);
      st == Done ==> Ordered(r)
  {
    FreshIsEmpty(memory, n, Cap(tb.keySize));
    QuietKeepsOrder(tb.slots, 0, FreshSlots(memory, n, Cap(tb.keySize)), 0, Cap(tb.keySize), form);
  }

  lemma QuietGrowthKeepsOrder(tb: Table, margin: nat, memory: Memory, form: Form)
    requires margin > 0 && WellSized(tb) && Ordered(tb) && QuietGrowth(tb, margin, memory, form)
    ensures Ordered(Upsize(tb, margin, memory, form).0)
  {
    LiveAtMost(tb.slots);
    if |tb.slots| <= tb.count + margin && |tb.slots| + margin <= TWO31 {
      QuietGrowKeepsOrder(tb, NewSize(|tb.slots| + margin), memory, form);
    }
  }

  /** The window stays below the size, and distances exact, in every grown table. */
  lemma GrowIsExact(tb: Table, n: nat, memory: Memory, form: Form)
    requires WellSized(tb) && LiveFrom(tb.slots, 0) < n
    ensures var (r, st) := Grow(tb, n, memory, form);
      st == Done && Exact(r.slots, r.maxdistance)
  {
    FreshIsEmpty(memory, n, Cap(tb.keySize));
    OrderIsExact(FreshSlots(memory, n, Cap(tb.keySize)), 0);
    ReinsertKeepsExact(tb.slots, 0, FreshSlots(memory, n, Cap(tb.keySize)), 0, Cap(tb.keySize), form);
  }

  lemma UpsizeIsExact(tb: Table, margin: nat, memory: Memory, form: Form)
    requires margin > 0 && WellSized(tb)
    ensures var r := Upsize(tb, margin, memory, form).0;
      r == tb || Exact(r.slots, r.maxdistance)
  {
    LiveAtMost(tb.slots);
    if |tb.slots| <= tb.count + margin && |tb.slots| + margin <= TWO31 {
      GrowIsExact(tb, NewSize(|tb.slots| + margin), memory, form);
    }
  }

  // ---------- rbhash_new ----------

  /** size must round to a power of two within 32 bits. */
  function New(size: nat, min: nat, keySize: nat, memory: Memory): (tb: Table)
    requires 1 <= size <= TWO31
    ensures WellSized(tb)
  {
    RoundUpPow2Correct(size);
    Table(FreshSlots(memory, RoundUpPow2(size), Cap(keySize)), 0, 0, min, keySize)
  }

  lemma NewIsEmpty(size: nat, min: nat, keySize: nat, memory: Memory)
    requires 1 <= size <= TWO31
    ensures var tb := New(size, min, keySize, memory);
      && Valid(tb) && HasRoom(tb) && Ordered(tb) && Entries(tb.slots) == multiset{} && size <= |tb.slots|
  {
    RoundUpPow2Correct(size);
    FreshIsEmpty(memory, RoundUpPow2(size), Cap(keySize));
  }

  // ---------- rbhash_add_hash ----------

  function Loaded(memory: Memory, hash: nat, key: seq<Byte>, data: Data, cap: nat): (e: Element)
    requires 0 < |key| < cap
    ensures Fits(e, cap) && Live(e) && EntryOf(e) == Entry(key, hash, data) && e.key[0] == key[0]
  {
    var e := Element(data, hash, |key|, 0, key + Padded(memory(0, 0).key, cap)[|key|..]);
    assert e.key[..|key|] == key;
    e
  }

  /** The element is pushed down from its home slot and counted. */
  function Insert(tb: Table, memory: Memory, hash: nat, key: seq<Byte>, data: Data): (r: (Table, Status))
    requires WellSized(tb) && |key| > 0
    ensures WellSized(r.0)
  {
    if |key| > tb.keySize then (tb, KeyTooBig)
    else
      var e := Loaded(memory, hash, key, data, Cap(tb.keySize));
      var r := SwapDown(tb.slots, tb.maxdistance, e, Home(|tb.slots|, e), 0, Cap(tb.keySize));
      if !r.ok then (tb, TableFull)
      else (tb.(slots := r.slots, maxdistance := r.maxdistance, count := tb.count + 1), Done)
  }

  function AddHash(tb: Table, memory: Memory, hash: nat, key: seq<Byte>, data: Data, form: Form): (r: (Table, Status))
    requires WellSized(tb) && |key| > 0
    ensures WellSized(r.0)
  {
    var (t1, st) := Insert(tb, memory, hash, key, data);
    if st == Done && t1.min != 0 then Upsize(t1, Margin(t1), memory, form) else (t1, st)
  }

  predicate AddsExactly(tb: Table, r: Table, x: Entry) {
    && Valid(r) && Entries(r.slots) == Entries(tb.slots) + multiset{x}
    && r.count == tb.count + 1 && SameShape(tb, r)
  }

  lemma InsertKeeps(tb: Table, memory: Memory, hash: nat, key: seq<Byte>, data: Data)
    requires Valid(tb) && |key| > 0
    ensures var (r, st) := Insert(tb, memory, hash, key, data);
      && (st == KeyTooBig <==> |key| > tb.keySize)
      && (st == TableFull <==> |key| <= tb.keySize && tb.count == |tb.slots|)
      && st != SizeOverflow
      && (st == Done ==> AddsExactly(tb, r, Entry(key, hash, data)))
  {
    var h := HoleExists(tb.slots, 0);
    if |key| <= tb.keySize {
      var cap := Cap(tb.keySize);
      var e := Loaded(memory, hash, key, data, cap);
      var b := Home(|tb.slots|, e);
      if tb.count == |tb.slots| {
        SwapDownFull(tb.slots, tb.maxdistance, e, b, 0, cap);
      } else {
        SwapDownAddsEntry(tb.slots, tb.maxdistance, e, b, 0, cap, h);
        if Bounded(tb.slots, tb.maxdistance) {
          SwapDownKeepsBounded(tb.slots, tb.maxdistance, e, b, 0, cap);
        }
        LiveAfterInsert(SwapDown(tb.slots, tb.maxdistance, e, b, 0, cap).slots, tb.slots, e);
      }
    }
  }

  lemma InsertKeepsOrder(tb: Table, memory: Memory, hash: nat, key: seq<Byte>, data: Data, form: Form)
    requires WellSized(tb) && |key| > 0 && Ordered(tb) && SkipsAllDead(tb.slots, form)
    ensures var r := Insert(tb, memory, hash, key, data).0;
      Ordered(r) && SkipsAllDead(r.slots, form)
  {
    var h := HoleExists(tb.slots, 0);
    if |key| <= tb.keySize {
      var cap := Cap(tb.keySize);
      var e := Loaded(memory, hash, key, data, cap);
      var b := Home(|tb.slots|, e);
      if LiveFrom(tb.slots, 0) == |tb.slots| {
        SwapDownFull(tb.slots, tb.maxdistance, e, b, 0, cap);
      } else {
        SwapDownKeepsOrder(tb.slots, tb.maxdistance, e, b, 0, cap, h);
      }
    }
  }

  lemma AddedBytes(m: multiset<Entry>, x: Entry)
    ensures FirstBytesSet(m + multiset{x}) <==> FirstBytesSet(m) && |x.key| > 0 && x.key[0] != 0
  {
    assert x in m + multiset{x};
    assert forall y :: y in m ==> y in m + multiset{x};
  }

  /** An add of this key will make the table grow. */
  predicate GrowsOnAdd(tb: Table, key: seq<Byte>) {
    && tb.min > 0 && |key| <= tb.keySize
    && |tb.slots| <= tb.count + 1 + Margin(tb) && |tb.slots| + Margin(tb) <= TWO31
  }

  /** The guard of an add as written, to be evaluated before it: where it makes the table grow,
      no key, the new one included, starts with a zero byte. */
  predicate AddIsSafe(tb: Table, key: seq<Byte>, form: Form)
    requires |key| > 0
  {
    form == AsWritten && GrowsOnAdd(tb, key) ==> key[0] != 0 && FirstBytesSet(Entries(tb.slots))
  }

  /** An add rejects a long key, fails only on a full table (so never with a margin) or when
      growth would leave 32 bits; otherwise it adds exactly its entry, growth included, and keeps
      the table valid, if and only if its guard holds. */
  lemma AddHashCorrect(tb: Table, memory: Memory, hash: nat, key: seq<Byte>, data: Data, form: Form)
    requires Valid(tb) && HasRoom(tb) && |key| > 0
    ensures var (r, st) := AddHash(tb, memory, hash, key, data, form);
      && (st == KeyTooBig <==> |key| > tb.keySize)
      && (st == TableFull <==> |key| <= tb.keySize && tb.count == |tb.slots|)
      && (st == SizeOverflow ==> tb.min > 0 && TWO31 < |tb.slots| + Margin(tb))
      && (st == Done ==> SameShape(tb, r) && r.count == tb.count + 1 && HasRoom(r))
      && (st == Done ==> (AddsExactly(tb, r, Entry(key, hash, data)) <==> AddIsSafe(tb, key, form)))
  {
    InsertKeeps(tb, memory, hash, key, data);
    var (t1, st) := Insert(tb, memory, hash, key, data);
    if st == Done {
      assert |t1.slots| == |tb.slots|;
      assert Margin(t1) == Margin(tb);
      if t1.min != 0 {
        GrownCorrect(tb, t1, Margin(tb), memory, Entry(key, hash, data), form);
      }
    }
  }

  /** The growth behind an insertion, with the margin as a number. */
  lemma GrownCorrect(tb: Table, t1: Table, margin: nat, memory: Memory, x: Entry, form: Form)
    requires margin > 0 && Valid(tb) && AddsExactly(tb, t1, x) && |t1.slots| == |tb.slots| && |x.key| > 0
    ensures var (r, st) := Upsize(t1, margin, memory, form);
      && (st == Done || st == SizeOverflow)
      && (st == SizeOverflow ==> TWO31 < |tb.slots| + margin)
      && (st == Done ==> SameShape(tb, r) && r.count == tb.count + 1 < |r.slots|)
      && (st == Done ==>
            (AddsExactly(tb, r, x)
             <==> (Grows(t1, margin) && form == AsWritten ==> x.key[0] != 0 && FirstBytesSet(Entries(tb.slots)))))
  {
    AddedBytes(Entries(tb.slots), x);
    UpsizeKeepsIff(t1, margin, memory, form);
  }

  /** The window is below the size, and distances are exact if they were. */
  predicate StaysExact(tb: Table, r: Table) {
    && r.maxdistance < |r.slots|
    && (Exact(tb.slots, tb.maxdistance) ==> Exact(r.slots, r.maxdistance))
  }

  lemma InsertKeepsExact(tb: Table, memory: Memory, hash: nat, key: seq<Byte>, data: Data)
    requires WellSized(tb) && |key| > 0 && tb.maxdistance < |tb.slots|
    ensures StaysExact(tb, Insert(tb, memory, hash, key, data).0)
  {
    var h := HoleExists(tb.slots, 0);
    if |key| <= tb.keySize {
      var cap := Cap(tb.keySize);
      var e := Loaded(memory, hash, key, data, cap);
      var b := Home(|tb.slots|, e);
      if LiveFrom(tb.slots, 0) == |tb.slots| {
        SwapDownFull(tb.slots, tb.maxdistance, e, b, 0, cap);
      } else {
        SwapDownKeepsWindow(tb.slots, tb.maxdistance, e, b, 0, cap, h);
        if Exact(tb.slots, tb.maxdistance) {
          SwapDownKeepsExact(tb.slots, tb.maxdistance, e, b, 0, cap, h);
        }
      }
    }
  }

  /** An add with its growth keeps the window below the size, and distances exact, in either
      form and whatever memory holds. */
  lemma AddHashKeepsExact(tb: Table, memory: Memory, hash: nat, key: seq<Byte>, data: Data, form: Form)
    requires WellSized(tb) && |key| > 0 && tb.maxdistance < |tb.slots|
    ensures StaysExact(tb, AddHash(tb, memory, hash, key, data, form).0)
  {
    InsertKeepsExact(tb, memory, hash, key, data);
    var (t1, st) := Insert(tb, memory, hash, key, data);
    if st == Done && t1.min != 0 {
      GrownStaysExact(tb, t1, Margin(t1), memory, form);
    }
  }

  lemma GrownStaysExact(tb: Table, t1: Table, margin: nat, memory: Memory, form: Form)
    requires margin > 0 && WellSized(t1) && StaysExact(tb, t1)
    ensures StaysExact(tb, Upsize(t1, margin, memory, form).0)
  {
    UpsizeIsExact(t1, margin, memory, form);
  }

  /** No garbage that the growth of this add pushes down disturbs an entry. */
  predicate QuietAdd(tb: Table, memory: Memory, hash: nat, key: seq<Byte>, data: Data, form: Form)
    requires WellSized(tb) && |key| > 0
  {
    var (t1, st) := Insert(tb, memory, hash, key, data);
    st == Done && t1.min != 0 ==> QuietGrowth(t1, Margin(t1), memory, form)
  }

  lemma InsertOrders(tb: Table, memory: Memory, hash: nat, key: seq<Byte>, data: Data)
    requires WellSized(tb) && |key| > 0 && Ordered(tb)
    ensures Ordered(Insert(tb, memory, hash, key, data).0)
  {
    var h := HoleExists(tb.slots, 0);
    if |key| <= tb.keySize {
      var cap := Cap(tb.keySize);
      var e := Loaded(memory, hash, key, data, cap);
      var b := Home(|tb.slots|, e);
      if LiveFrom(tb.slots, 0) == |tb.slots| {
        SwapDownFull(tb.slots, tb.maxdistance, e, b, 0, cap);
      } else {
        SwapDownKeepsOrder(tb.slots, tb.maxdistance, e, b, 0, cap, h);
      }
    }
  }

  /** An add keeps the Robin Hood invariant, whatever memory holds, when its growth is quiet. */
  lemma QuietAddKeepsOrder(tb: Table, memory: Memory, hash: nat, key: seq<Byte>, data: Data, form: Form)
    requires WellSized(tb) && |key| > 0 && Ordered(tb) && QuietAdd(tb, memory, hash, key, data, form)
    ensures Ordered(AddHash(tb, memory, hash, key, data, form).0)
  {
    InsertOrders(tb, memory, hash, key, data);
    var (t1, st) := Insert(tb, memory, hash, key, data);
    QuietSettles(t1, st, Margin(t1), memory, form);
  }

  lemma QuietSettles(t1: Table, st: Status, margin: nat, memory: Memory, form: Form)
    requires margin > 0 && WellSized(t1) && Ordered(t1)
    requires st == Done && t1.min != 0 ==> QuietGrowth(t1, margin, memory, form)
    ensures st == Done && t1.min != 0 ==> Ordered(Upsize(t1, margin, memory, form).0)
  {
    if st == Done && t1.min != 0 {
      QuietGrowthKeepsOrder(t1, margin, memory, form);
    }
  }

  /** Where every dead slot is skipped, as in the repaired form or over memory that reads as
      zero, growth is quiet. */
  lemma SkippedIsQuietAdd(tb: Table, memory: Memory, hash: nat, key: seq<Byte>, data: Data, form: Form)
    requires WellSized(tb) && Ordered(tb) && |key| > 0 && SkipsAllDead(tb.slots, form)
    ensures QuietAdd(tb, memory, hash, key, data, form)
  {
    InsertKeepsOrder(tb, memory, hash, key, data, form);
    var t1 := Insert(tb, memory, hash, key, data).0;
    SkippedIsQuietGrowth(t1, Margin(t1), memory, form);
  }

  /** Insertion, displacements and growth keep the Robin Hood invariant, and go on skipping
      every dead slot, in the repaired form or over memory that reads as zero. */
  lemma AddHashKeepsOrder(tb: Table, memory: Memory, hash: nat, key: seq<Byte>, data: Data, form: Form)
    requires WellSized(tb) && |key| > 0
    requires Ordered(tb) && SkipsAllDead(tb.slots, form)
    requires form == AsWritten ==> Zeroed(memory)
    ensures var r := AddHash(tb, memory, hash, key, data, form).0;
      Ordered(r) && SkipsAllDead(r.slots, form)
  {
    InsertKeepsOrder(tb, memory, hash, key, data, form);
    var (t1, st) := Insert(tb, memory, hash, key, data);
    if st == Done && t1.min != 0 {
      UpsizeKeepsOrder(t1, Margin(t1), memory, form);
    }
  }

  // ---------- rbhash_find, rbhash_add_unique ----------

  function Find(tb: Table, hash: nat, key: seq<Byte>): Data
    requires |tb.slots| > 0
  {
    var b := Lookup(tb.slots, tb.maxdistance, hash, key);
    FindBucketScans(tb.slots, hash, key, FastMod(hash, |tb.slots|), tb.maxdistance + 1);
    if b == -1 then 0 else tb.slots[b].data
  }

  predicate DataSet(m: multiset<Entry>) {
    forall x :: x in m ==> x.data != 0
  }

  /** What a multimap may answer: NULL when it has no entry with the key, otherwise the data
      of one of them. */
  predicate Answers(m: multiset<Entry>, hash: nat, key: seq<Byte>, d: Data) {
    if Stores(m, hash, key) then Entry(key, hash, d) in m else d == 0
  }

  lemma FindAnswers(tb: Table, hash: nat, key: seq<Byte>)
    requires Valid(tb) && |key| > 0
    ensures Answers(Entries(tb.slots), hash, key, Find(tb, hash, key))
  {
    WindowedReaches(tb.slots, tb.maxdistance);
    LookupIsExact(tb.slots, tb.maxdistance, hash, key);
    FindBucketScans(tb.slots, hash, key, FastMod(hash, |tb.slots|), tb.maxdistance + 1);
    var b := Lookup(tb.slots, tb.maxdistance, hash, key);
    if b != -1 {
      assert EntryOf(tb.slots[b]) == Entry(key, hash, tb.slots[b].data);
    }
  }

  /** An add in its two parts. */
  lemma AddInParts(tb: Table, memory: Memory, hash: nat, key: seq<Byte>, data: Data, form: Form, t1: Table, margin: nat,
                   r: Table)
    requires WellSized(tb) && |key| > 0 && Insert(tb, memory, hash, key, data) == (t1, Done)
    requires t1.min != 0 && margin == Margin(t1) && Upsize(t1, margin, memory, form) == (r, Done)
    ensures AddHash(tb, memory, hash, key, data, form) == (r, Done)
  {
  }

  // ---------- a key the code as written loses ----------

  lemma SizesOneAndTwo()
    ensures RoundUpPow2(1) == 1 && RoundUpPow2(2) == 2
  {
    SmearFills(0, 0, 1);
    RoundUpPow2Correct(2);
    assert !IsPow2(3);
  }

  lemma OneSlotHome(t: seq<Element>, e: Element)
    requires |t| == 1
    ensures Home(|t|, e) == 0
  {
  }

  /** The first add to a table of one slot, before it grows. */
  lemma InsertZeroKey(memory: Memory, hash: nat, data: Data)
    ensures var e := Loaded(memory, hash, [0], data, 2);
      Insert(New(1, 1, 1, memory), memory, hash, [0], data) == (Table([e], 0, 1, 1, 1), Done)
  {
    SizesOneAndTwo();
    var tb, e := New(1, 1, 1, memory), Loaded(memory, hash, [0], data, 2);
    OneSlotHome(tb.slots, e);
    assert tb.slots[0 := e] == [e];
  }

  /** As written, a key that starts with a zero byte is lost by the growth its own add
      triggers: the add reports success and counts it, and the table stores nothing. */
  lemma ZeroKeyIsLost(memory: Memory, hash: nat, data: Data)
    ensures var (r, st) := AddHash(New(1, 1, 1, memory), memory, hash, [0], data, AsWritten);
      st == Done && r.count == 1 && Entries(r.slots) == multiset{} && Find(r, hash, [0]) == 0
  {
    InsertZeroKey(memory, hash, data);
    ZeroKeyGrows(memory, hash, data);
    var tb, t1 := New(1, 1, 1, memory), Table([Loaded(memory, hash, [0], data, 2)], 0, 1, 1, 1);
    var t := FreshSlots(memory, 2, 2);
    MarginIsPercent(t1);
    AddInParts(tb, memory, hash, [0], data, AsWritten, t1, 1, Table(t, 0, 1, 1, 1));
    FreshIsEmpty(memory, 2, 2);
    FindAnswers(Table(t, 0, 0, 1, 1), hash, [0]);
  }

  lemma ZeroKeyGrows(memory: Memory, hash: nat, data: Data)
    ensures var e, t := Loaded(memory, hash, [0], data, 2), FreshSlots(memory, 2, 2);
      WellSized(Table([e], 0, 1, 1, 1))
      && Upsize(Table([e], 0, 1, 1, 1), 1, memory, AsWritten) == (Table(t, 0, 1, 1, 1), Done)
  {
    SizesOneAndTwo();
    var e, t := Loaded(memory, hash, [0], data, 2), FreshSlots(memory, 2, 2);
    assert Skipped(e, AsWritten);
    assert Reinsert([e], 0, t, 0, 2, AsWritten) == Placement(t, 0, true);
  }
}
