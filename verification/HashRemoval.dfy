/** rbhash_remove_hash and its backward shift: as written, where the walk stops after one
    slot and keeps the stored distance, and repaired, where the whole run moves back. */
module HashRemoval {
  import opened Bits
  import opened RobinHood
  import opened HashTable

  function Vacated(e: Element): Element {
    e.(len := 0, data := 0)
  }

  /** The slot after b holds an entry that the shift moves. */
  predicate ShiftsNext(t: seq<Element>, b: nat)
    requires b < |t|
  {
    Live(t[Next(|t|, b)]) && t[Next(|t|, b)].distance != 0
  }

  /** rbhash_swapup as written: tbl never advances, so clearing its len ends the loop, and
      the moved entry keeps its distance. */
  function ShiftOnce(t: seq<Element>, b: nat): seq<Element>
    requires b < |t|
  {
    var nb := Next(|t|, b);
    if ShiftsNext(t, b) then t[b := t[nb]][nb := Vacated(t[nb])] else t
  }

  function Away(e: Element): nat {
    if Live(e) then e.distance else 0
  }

  function Travelled(t: seq<Element>, k: nat): nat
    requires k <= |t|
    decreases |t| - k
  {
    if k == |t| then 0 else Travelled(t, k + 1) + Away(t[k])
  }

  lemma {:induction false} TravelledUpdate(s: seq<Element>, t: seq<Element>, i: nat, k: nat)
    requires |s| == |t| && i < |t| && k <= |t| && forall j :: 0 <= j < |t| && j != i ==> s[j] == t[j]
    ensures i < k ==> Travelled(s, k) == Travelled(t, k)
    ensures k <= i ==> Travelled(s, k) + Away(t[i]) == Travelled(t, k) + Away(s[i])
    decreases |t| - k
  {
    if k < |t| {
      TravelledUpdate(s, t, i, k + 1);
    }
  }

  function Pulled(t: seq<Element>, b: nat): seq<Element>
    requires b < |t| && ShiftsNext(t, b)
  {
    var nb := Next(|t|, b);
    t[b := t[nb].(distance := t[nb].distance - 1)][nb := Vacated(t[nb])]
  }

  lemma PulledTravelsLess(t: seq<Element>, b: nat)
    requires b < |t| && ShiftsNext(t, b) && !Live(t[b])
    ensures Travelled(Pulled(t, b), 0) < Travelled(t, 0)
  {
    var nb := Next(|t|, b);
    var s := t[b := t[nb].(distance := t[nb].distance - 1)];
    TravelledUpdate(s, t, b, 0);
    TravelledUpdate(Pulled(t, b), s, nb, 0);
  }

  /** The intended shift: entries away from home move back one slot, and one step nearer to
      home, until a dead slot or an entry that is at home. */
  function ShiftBack(t: seq<Element>, b: nat): (s: seq<Element>)
    requires b < |t| && !Live(t[b])
    ensures |s| == |t|
    decreases Travelled(t, 0)
  {
    if ShiftsNext(t, b) then
      PulledTravelsLess(t, b);
      ShiftBack(Pulled(t, b), Next(|t|, b))
    else t
  }

  // ---------- the stored bag ----------

  lemma MoveConserves(t: seq<Element>, b: nat, nb: nat, e: Element)
    requires b < |t| && nb < |t| && b != nb && !Live(t[b]) && Ent(e) == Ent(t[nb])
    ensures Entries(t[b := e][nb := Vacated(t[nb])]) == Entries(t)
  {
    EntriesFill(t, b, e);
    var s := t[b := e];
    EntriesUpdate(s, nb, Vacated(t[nb]));
    var m := Entries(s[nb := Vacated(t[nb])]);
    assert m + Ent(s[nb]) == Entries(s);
    assert m + Ent(e) == Entries(t) + Ent(e);
    CancelUnion(m, Entries(t), Ent(e));
  }

  lemma CancelUnion(a: multiset<Entry>, b: multiset<Entry>, c: multiset<Entry>)
    requires a + c == b + c
    ensures a == b
  {
    assert a + c - c == a;
    assert b + c - c == b;
  }

  lemma ShiftOnceConserves(t: seq<Element>, b: nat)
    requires b < |t| && !Live(t[b])
    ensures Entries(ShiftOnce(t, b)) == Entries(t)
  {
    if ShiftsNext(t, b) {
      MoveConserves(t, b, Next(|t|, b), t[Next(|t|, b)]);
    }
  }

  lemma {:induction false} ShiftBackConserves(t: seq<Element>, b: nat, cap: nat)
    requires b < |t| && !Live(t[b]) && AllFit(t, cap)
    ensures Entries(ShiftBack(t, b)) == Entries(t) && AllFit(ShiftBack(t, b), cap)
    decreases Travelled(t, 0)
  {
    if ShiftsNext(t, b) {
      PulledTravelsLess(t, b);
      var nb := Next(|t|, b);
      MoveConserves(t, b, nb, t[nb].(distance := t[nb].distance - 1));
      ShiftBackConserves(Pulled(t, b), nb, cap);
    }
  }

  // ---------- the Robin Hood invariant after the repaired shift ----------

  /** In order except that slot b was just vacated by an entry at distance v. */
  predicate OrderedAround(t: seq<Element>, maxd: nat, b: nat, v: nat)
    requires b < |t|
  {
    && maxd < |t| && !Live(t[b])
    && (v > 0 ==> Live(t[Prev(|t|, b)]) && v <= t[Prev(|t|, b)].distance + 1)
    && (Live(t[Next(|t|, b)]) ==> Placed(t, maxd, Next(|t|, b)) && t[Next(|t|, b)].distance <= v + 1)
    && forall k {:trigger SlotInOrder(t, maxd, k)} :: 0 <= k < |t| && k != Next(|t|, b) ==> SlotInOrder(t, maxd, k)
  }

  lemma VacateKeepsAround(t: seq<Element>, maxd: nat, b: nat)
    requires RobinHoodOrder(t, maxd) && b < |t| && Live(t[b])
    ensures OrderedAround(t[b := Vacated(t[b])], maxd, b, t[b].distance)
  {
    var s, nb := t[b := Vacated(t[b])], Next(|t|, b);
    assert SlotInOrder(t, maxd, b) && SlotInOrder(t, maxd, nb);
    assert Prev(|t|, nb) == b;
    if |t| == 1 {
      assert Disp(1, b, Home(1, t[b])) == 0;
    }
    forall k | 0 <= k < |t| && k != nb
      ensures SlotInOrder(s, maxd, k)
    {
      assert SlotInOrder(t, maxd, k);
      assert Prev(|t|, k) != b;
    }
  }

  lemma PulledKeepsAround(t: seq<Element>, maxd: nat, b: nat, v: nat)
    requires b < |t| && ShiftsNext(t, b) && OrderedAround(t, maxd, b, v)
    ensures OrderedAround(Pulled(t, b), maxd, Next(|t|, b), t[Next(|t|, b)].distance)
  {
    var n, nb := |t|, Next(|t|, b);
    var nnb, s := Next(n, nb), Pulled(t, b);
    assert Prev(n, nb) == b && Prev(n, nnb) == nb;
    assert Home(n, s[b]) == Home(n, t[nb]);
    assert nnb != b ==> SlotInOrder(t, maxd, nnb);
    forall k | 0 <= k < n && k != nnb
      ensures SlotInOrder(s, maxd, k)
    {
      assert k != nb ==> SlotInOrder(t, maxd, k);
      assert Prev(n, k) != nb;
      assert k != nb ==> Prev(n, k) != b;
    }
  }

  /** Removing an entry and shifting its run back restores the Robin Hood invariant. */
  lemma {:induction false} ShiftBackRestoresOrder(t: seq<Element>, maxd: nat, b: nat, v: nat)
    requires b < |t| && OrderedAround(t, maxd, b, v)
    ensures RobinHoodOrder(ShiftBack(t, b), maxd)
    decreases Travelled(t, 0)
  {
    if ShiftsNext(t, b) {
      PulledTravelsLess(t, b);
      PulledKeepsAround(t, maxd, b, v);
      ShiftBackRestoresOrder(Pulled(t, b), maxd, Next(|t|, b), t[Next(|t|, b)].distance);
    } else {
      assert SlotInOrder(t, maxd, Next(|t|, b));
    }
  }

  // ---------- the shift as written ----------

  /** The guard a caller can evaluate first: the entry behind the removed one, if it moves,
      is not already at its home slot. */
  predicate NextIsAway(t: seq<Element>, b: nat)
    requires b < |t|
  {
    var nb := Next(|t|, b);
    ShiftsNext(t, b) ==> Disp(|t|, nb, Home(|t|, t[nb])) > 0
  }

  lemma DispBehindHome(n: nat, b: nat, nb: nat, home: nat)
    requires b < n && home < n && n > 1 && nb == Next(n, b)
    ensures Disp(n, nb, home) > 0 ==> Disp(n, b, home) == Disp(n, nb, home) - 1
    ensures Disp(n, nb, home) == 0 ==> Disp(n, b, home) == n - 1
  {
  }

  /** The one-slot shift keeps every entry inside its window exactly when the moved entry was
      not at home, or the window spans the table anyway. */
  lemma ShiftOnceReachableIff(t: seq<Element>, maxd: nat, b: nat)
    requires b < |t| && !Live(t[b]) && Reachable(t, maxd)
    ensures Reachable(ShiftOnce(t, b), maxd) <==> NextIsAway(t, b) || |t| <= maxd + 1
  {
    var n, nb, s := |t|, Next(|t|, b), ShiftOnce(t, b);
    if ShiftsNext(t, b) {
      DispBehindHome(n, b, nb, Home(n, t[nb]));
      assert Live(s[b]) && Home(n, s[b]) == Home(n, t[nb]);
      assert forall k :: 0 <= k < n && k != b && Live(s[k]) ==> s[k] == t[k];
    }
  }

  /** So it keeps a table's window in just these cases. */
  lemma ShiftOnceWindowedIff(t: seq<Element>, maxd: nat, b: nat)
    requires b < |t| && !Live(t[b]) && Windowed(t, maxd)
    ensures Windowed(ShiftOnce(t, b), maxd) <==> NextIsAway(t, b) || |t| <= maxd + 1
  {
    var n, nb, s := |t|, Next(|t|, b), ShiftOnce(t, b);
    WindowedReaches(t, maxd);
    ShiftOnceReachableIff(t, maxd, b);
    if Windowed(s, maxd) {
      WindowedReaches(s, maxd);
    }
    if n > maxd + 1 && ShiftsNext(t, b) && NextIsAway(t, b) {
      DispBehindHome(n, b, nb, Home(n, t[nb]));
      assert forall k :: 0 <= k < n && k != b && Live(s[k]) ==> s[k] == t[k];
    }
  }

  /** Where distances are exact, a moved entry is away from home. */
  lemma ExactIsAway(t: seq<Element>, maxd: nat, b: nat)
    requires Exact(t, maxd) && b < |t|
    ensures NextIsAway(t[b := Vacated(t[b])], b)
  {
    var s, nb := t[b := Vacated(t[b])], Next(|t|, b);
    if ShiftsNext(s, b) {
      assert nb != b && Placed(t, maxd, nb);
    }
  }

  /** As written the shift preserves the Robin Hood invariant exactly when it moves nothing. */
  lemma ShiftOnceOrderIff(t: seq<Element>, maxd: nat, b: nat)
    requires RobinHoodOrder(t, maxd) && b < |t| && Live(t[b])
    ensures var s := t[b := Vacated(t[b])];
      RobinHoodOrder(ShiftOnce(s, b), maxd) <==> !ShiftsNext(s, b)
  {
    var s, nb := t[b := Vacated(t[b])], Next(|t|, b);
    VacateKeepsAround(t, maxd, b);
    if ShiftsNext(s, b) {
      var r := ShiftOnce(s, b);
      assert SlotInOrder(t, maxd, nb);
      assert Home(|t|, r[b]) == Home(|t|, t[nb]);
      DispBehindHome(|t|, b, nb, Home(|t|, t[nb]));
      assert !SlotInOrder(r, maxd, b);
    } else {
      assert SlotInOrder(s, maxd, nb);
    }
  }

  // ---------- rbhash_remove_hash ----------

  function RemoveHash(tb: Table, hash: nat, key: seq<Byte>, form: Form): (r: (Table, bool))
    requires WellSized(tb)
    ensures WellSized(r.0) && |r.0.slots| == |tb.slots| && r.0.maxdistance == tb.maxdistance
  {
    var b := Lookup(tb.slots, tb.maxdistance, hash, key);
    FindBucketScans(tb.slots, hash, key, FastMod(hash, |tb.slots|), tb.maxdistance + 1);
    if b == -1 then (tb, false)
    else
      var t := tb.slots[b := Vacated(tb.slots[b])];
      ShiftBackConserves(t, b, Cap(tb.keySize));
      var s := if form == AsWritten then ShiftOnce(t, b) else ShiftBack(t, b);
      (tb.(slots := s, count := if tb.count > 0 then tb.count - 1 else 0), true)
  }

  /** The guard of a removal as written, to be evaluated before it: the entry behind the removed
      one, if it moves, is not at its home slot, or the window spans the table. */
  predicate RemovalIsSafe(tb: Table, hash: nat, key: seq<Byte>)
    requires |tb.slots| > 0
  {
    var b := Lookup(tb.slots, tb.maxdistance, hash, key);
    FindBucketScans(tb.slots, hash, key, FastMod(hash, |tb.slots|), tb.maxdistance + 1);
    b != -1 ==> NextIsAway(tb.slots[b := Vacated(tb.slots[b])], b) || |tb.slots| <= tb.maxdistance + 1
  }

  /** While distances are exact, as after insertions alone, the guard is met. */
  lemma FirstRemovalIsSafe(tb: Table, hash: nat, key: seq<Byte>)
    requires WellSized(tb) && Exact(tb.slots, tb.maxdistance)
    ensures RemovalIsSafe(tb, hash, key)
  {
    var b := Lookup(tb.slots, tb.maxdistance, hash, key);
    FindBucketScans(tb.slots, hash, key, FastMod(hash, |tb.slots|), tb.maxdistance + 1);
    if b != -1 {
      ExactIsAway(tb.slots, tb.maxdistance, b);
    }
  }

  predicate RemovesOne(m: multiset<Entry>, m': multiset<Entry>, hash: nat, key: seq<Byte>) {
    exists x :: x in m && x.key == key && x.hash == hash && m' == m - multiset{x}
  }

  lemma VacateRemoves(t: seq<Element>, b: nat)
    requires b < |t| && Live(t[b])
    ensures EntryOf(t[b]) in Entries(t)
    ensures Entries(t[b := Vacated(t[b])]) == Entries(t) - multiset{EntryOf(t[b])}
  {
    EntriesUpdate(t, b, Vacated(t[b]));
    TakenOut(Entries(t[b := Vacated(t[b])]), Entries(t), EntryOf(t[b]));
  }

  lemma TakenOut(m: multiset<Entry>, all: multiset<Entry>, x: Entry)
    requires m + multiset{x} == all + multiset{}
    ensures x in all && m == all - multiset{x}
  {
    assert all + multiset{} == all;
  }

  /** A removal takes away exactly one entry with the key when there is one and nothing
      otherwise, and reports which. With the whole-run shift the table stays valid; as written
      it does exactly under the guard. */
  lemma RemoveHashCorrect(tb: Table, hash: nat, key: seq<Byte>, form: Form)
    requires Valid(tb) && |key| > 0
    requires form == Repaired ==> Ordered(tb)
    ensures var (r, found) := RemoveHash(tb, hash, key, form);
      && (Valid(r) <==> (form == AsWritten ==> RemovalIsSafe(tb, hash, key)))
      && |r.slots| == |tb.slots| && r.min == tb.min && r.keySize == tb.keySize
      && (found <==> Stores(Entries(tb.slots), hash, key))
      && (found ==> RemovesOne(Entries(tb.slots), Entries(r.slots), hash, key) && r.count == tb.count - 1)
      && (!found ==> r == tb)
      && (form == Repaired ==> Ordered(r))
  {
    WindowedReaches(tb.slots, tb.maxdistance);
    LookupIsExact(tb.slots, tb.maxdistance, hash, key);
    FindBucketScans(tb.slots, hash, key, FastMod(hash, |tb.slots|), tb.maxdistance + 1);
    var b := Lookup(tb.slots, tb.maxdistance, hash, key);
    if b != -1 {
      RemoveAt(tb, b, form);
      VacateRemoves(tb.slots, b);
    }
  }

  lemma {:induction false} ShiftBackForgets(t: seq<Element>, b: nat, k: nat)
    requires b < |t| && !Live(t[b]) && k < |t|
    requires !Live(ShiftBack(t, b)[k]) && ShiftBack(t, b)[k] != t[k]
    ensures ShiftBack(t, b)[k].data == 0
    decreases Travelled(t, 0)
  {
    PulledTravelsLess(t, b);
    if ShiftBack(t, b)[k] != Pulled(t, b)[k] {
      ShiftBackForgets(Pulled(t, b), Next(|t|, b), k);
    }
  }

  /** A slot that a removal leaves dead, and did not find so, holds no data any more. */
  lemma RemovedIsForgotten(tb: Table, hash: nat, key: seq<Byte>, form: Form, k: nat)
    requires WellSized(tb) && k < |tb.slots|
    requires var r := RemoveHash(tb, hash, key, form).0.slots; !Live(r[k]) && r[k] != tb.slots[k]
    ensures RemoveHash(tb, hash, key, form).0.slots[k].data == 0
  {
    var b := Lookup(tb.slots, tb.maxdistance, hash, key);
    FindBucketScans(tb.slots, hash, key, FastMod(hash, |tb.slots|), tb.maxdistance + 1);
    var t := tb.slots[b := Vacated(tb.slots[b])];
    if form == Repaired && ShiftBack(t, b)[k] != t[k] {
      ShiftBackForgets(t, b, k);
    }
  }

  lemma LiveAfterRemoval(s: seq<Element>, t: seq<Element>, x: Entry)
    requires x in Entries(t) && Entries(s) == Entries(t) - multiset{x}
    ensures LiveFrom(t, 0) > 0 && LiveFrom(s, 0) == LiveFrom(t, 0) - 1
  {
    LiveIsSize(s, 0);
    LiveIsSize(t, 0);
    assert Entries(t) == Entries(s) + multiset{x};
    UnionSize(Entries(s), multiset{x});
  }

  /** Taking one slot away and clearing a second leaves the window rule of the others. */
  lemma VacateKeepsWindow(t: seq<Element>, maxd: nat, b: nat)
    requires Windowed(t, maxd) && b < |t|
    ensures Windowed(t[b := Vacated(t[b])], maxd)
  {
    var s := t[b := Vacated(t[b])];
    assert forall k :: 0 <= k < |t| && Live(s[k]) ==> k != b && s[k] == t[k];
  }

  lemma RemoveAt(tb: Table, b: nat, form: Form)
    requires Valid(tb) && b < |tb.slots| && Live(tb.slots[b])
    requires form == Repaired ==> Ordered(tb)
    ensures var t := tb.slots[b := Vacated(tb.slots[b])];
      var s := if form == AsWritten then ShiftOnce(t, b) else ShiftBack(t, b);
      && |s| == |tb.slots| && AllFit(s, Cap(tb.keySize))
      && (Windowed(s, tb.maxdistance)
          <==> (form == AsWritten ==> NextIsAway(t, b) || |t| <= tb.maxdistance + 1))
      && Entries(s) == Entries(t) && tb.count > 0 && LiveFrom(s, 0) == tb.count - 1
      && (form == Repaired ==> RobinHoodOrder(s, tb.maxdistance))
  {
    var t := tb.slots[b := Vacated(tb.slots[b])];
    VacateRemoves(tb.slots, b);
    if form == AsWritten {
      VacateKeepsWindow(tb.slots, tb.maxdistance, b);
      ShiftOnceConserves(t, b);
      ShiftOnceWindowedIff(t, tb.maxdistance, b);
      LiveAfterRemoval(ShiftOnce(t, b), tb.slots, EntryOf(tb.slots[b]));
    } else {
      VacateKeepsAround(tb.slots, tb.maxdistance, b);
      ShiftBackConserves(t, b, Cap(tb.keySize));
      ShiftBackRestoresOrder(t, tb.maxdistance, b, tb.slots[b].distance);
      OrderIsBounded(ShiftBack(t, b), tb.maxdistance);
      LiveAfterRemoval(ShiftBack(t, b), tb.slots, EntryOf(tb.slots[b]));
    }
  }
}
