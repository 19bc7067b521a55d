/** The Robin Hood table of core/rbhash.c on values: a circular sequence of slots, the
    displacing insertion, growth and the bounded-window lookup, with the invariants
    each of them keeps. */
module RobinHood {
  import opened Bits

  type Data = nat  // a pointer; 0 is NULL

  datatype Element = Element(data: Data, hash: nat, len: nat, distance: nat, key: seq<Byte>)

  datatype Entry = Entry(key: seq<Byte>, hash: nat, data: Data)

  predicate Live(e: Element) {
    e.len != 0
  }

  /** The key buffer has cap bytes and the key proper is shorter than it. */
  predicate Fits(e: Element, cap: nat) {
    |e.key| == cap && e.len < cap
  }

  predicate AllFit(t: seq<Element>, cap: nat) {
    forall k :: 0 <= k < |t| ==> Fits(t[k], cap)
  }

  function EntryOf(e: Element): Entry {
    Entry(if e.len <= |e.key| then e.key[..e.len] else e.key, e.hash, e.data)
  }

  function Ent(e: Element): multiset<Entry> {
    if Live(e) then multiset{EntryOf(e)} else multiset{}
  }

  function EntriesFrom(t: seq<Element>, k: nat): multiset<Entry>
    requires k <= |t|
    decreases |t| - k
  {
    if k == |t| then multiset{} else Ent(t[k]) + EntriesFrom(t, k + 1)
  }

  /** What the table stores: the bag of (key, hash, data) of its live slots. */
  function Entries(t: seq<Element>): multiset<Entry> {
    EntriesFrom(t, 0)
  }

  lemma {:induction false} EntriesSuffix(s: seq<Element>, t: seq<Element>, k: nat)
    requires |s| == |t| && k <= |t| && forall j :: k <= j < |t| ==> s[j] == t[j]
    ensures EntriesFrom(s, k) == EntriesFrom(t, k)
    decreases |t| - k
  {
    if k < |t| {
      EntriesSuffix(s, t, k + 1);
    }
  }

  lemma Shuffle(x: multiset<Entry>, a: multiset<Entry>, b: multiset<Entry>, p: multiset<Entry>, q: multiset<Entry>)
    requires a + p == b + q
    ensures x + a + p == x + b + q
  {
    assert x + a + p == x + (a + p);
    assert x + b + q == x + (b + q);
  }

  lemma {:induction false} EntriesUpdateFrom(s: seq<Element>, t: seq<Element>, i: nat, k: nat)
    requires k <= i < |t| == |s| && forall j :: 0 <= j < |t| && j != i ==> s[j] == t[j]
    ensures EntriesFrom(s, k) + Ent(t[i]) == EntriesFrom(t, k) + Ent(s[i])
    decreases i - k
  {
    assert EntriesFrom(s, k) == Ent(s[k]) + EntriesFrom(s, k + 1)
        && EntriesFrom(t, k) == Ent(t[k]) + EntriesFrom(t, k + 1);
    if k == i {
      EntriesSuffix(s, t, i + 1);
      ShuffleEnds(Ent(s[i]), EntriesFrom(t, i + 1), Ent(t[i]));
    } else {
      EntriesUpdateFrom(s, t, i, k + 1);
      Shuffle(Ent(t[k]), EntriesFrom(s, k + 1), EntriesFrom(t, k + 1), Ent(t[i]), Ent(s[i]));
    }
  }

  lemma ShuffleEnds(p: multiset<Entry>, r: multiset<Entry>, q: multiset<Entry>)
    ensures p + r + q == q + r + p
  {
  }

  /** Overwriting one slot trades its entry for the new one. */
  lemma EntriesUpdate(t: seq<Element>, i: nat, e: Element)
    requires i < |t|
    ensures Entries(t[i := e]) + Ent(t[i]) == Entries(t) + Ent(e)
  {
    EntriesUpdateFrom(t[i := e], t, i, 0);
  }

  lemma EntriesFill(t: seq<Element>, i: nat, e: Element)
    requires i < |t| && !Live(t[i])
    ensures Entries(t[i := e]) == Entries(t) + Ent(e)
  {
    EntriesUpdate(t, i, e);
    var m := Entries(t[i := e]);
    assert m + Ent(t[i]) == m;
  }

  lemma {:induction false} EntriesMember(t: seq<Element>, k: nat, x: Entry)
    requires k <= |t|
    ensures x in EntriesFrom(t, k) <==> exists i :: k <= i < |t| && Live(t[i]) && EntryOf(t[i]) == x
    decreases |t| - k
  {
    if k < |t| {
      EntriesMember(t, k + 1, x);
      assert x in EntriesFrom(t, k) <==> x in Ent(t[k]) || x in EntriesFrom(t, k + 1);
      if x in EntriesFrom(t, k) && x !in EntriesFrom(t, k + 1) {
        assert Live(t[k]) && EntryOf(t[k]) == x;
      }
      if i :| k <= i < |t| && Live(t[i]) && EntryOf(t[i]) == x {
        assert i == k ==> x in Ent(t[k]);
      }
    }
  }

  function LiveFrom(t: seq<Element>, k: nat): nat
    requires k <= |t|
    decreases |t| - k
  {
    if k == |t| then 0 else LiveFrom(t, k + 1) + (if Live(t[k]) then 1 else 0)
  }

  lemma {:induction false} LiveIsSize(t: seq<Element>, k: nat)
    requires k <= |t|
    ensures LiveFrom(t, k) == |EntriesFrom(t, k)|
    decreases |t| - k
  {
    if k < |t| {
      LiveIsSize(t, k + 1);
      UnionSize(Ent(t[k]), EntriesFrom(t, k + 1));
    }
  }

  lemma UnionSize(a: multiset<Entry>, b: multiset<Entry>)
    ensures |a + b| == |a| + |b|
  {
  }

  /** Fewer entries than slots leave a dead slot; otherwise every slot is live. */
  lemma LiveAtMost(t: seq<Element>)
    ensures LiveFrom(t, 0) <= |t|
  {
    var _ := HoleExists(t, 0);
  }

  lemma {:induction false} HoleExists(t: seq<Element>, k: nat) returns (h: nat)
    requires k <= |t|
    ensures LiveFrom(t, k) <= |t| - k
    ensures LiveFrom(t, k) < |t| - k ==> k <= h < |t| && !Live(t[h])
    ensures LiveFrom(t, k) == |t| - k ==> forall i :: k <= i < |t| ==> Live(t[i])
    decreases |t| - k
  {
    h := k;
    if k < |t| {
      var h' := HoleExists(t, k + 1);
      if Live(t[k]) {
        h := h';
      }
    }
  }

  lemma {:induction false} AllDead(t: seq<Element>, k: nat)
    requires k <= |t| && forall i :: k <= i < |t| ==> !Live(t[i])
    ensures EntriesFrom(t, k) == multiset{}
    decreases |t| - k
  {
    if k < |t| {
      AllDead(t, k + 1);
    }
  }

  // ---------- circular arithmetic ----------

  function Next(n: nat, b: nat): nat
    requires b < n
  {
    if b + 1 == n then 0 else b + 1
  }

  function Prev(n: nat, b: nat): nat
    requires b < n
  {
    if b == 0 then n - 1 else b - 1
  }

  /** How many steps forward lead from slot `home` to slot b. */
  function Disp(n: nat, b: nat, home: nat): nat
    requires b < n && home < n
  {
    if home <= b then b - home else b + n - home
  }

  function Home(n: nat, e: Element): (s: nat)
    requires n > 0
    ensures s < n
  {
    FastMod(e.hash, n)
  }

  /** For a power-of-two size the masked increment is the circular successor. */
  lemma SlotNextIsNext(n: nat, b: nat)
    requires IsPow2(n) && b < n
    ensures FastMod(b + 1, n) == Next(n, b)
  {
    FastModIsMod(b + 1, n);
    if b + 1 == n {
      ModUnique(b + 1, n, 1, 0);
    } else {
      ModUnique(b + 1, n, 0, b + 1);
    }
  }

  // ---------- the two invariants ----------

  /** What lookup needs: every entry lies inside its window. */
  predicate Reachable(t: seq<Element>, maxd: nat) {
    forall k :: 0 <= k < |t| && Live(t[k]) ==> Disp(|t|, k, Home(|t|, t[k])) <= maxd
  }

  /** What insertion keeps: stored distances, at most maxdistance, bound how far every entry sits
      from its home. */
  predicate Bounded(t: seq<Element>, maxd: nat) {
    forall k :: 0 <= k < |t| && Live(t[k]) ==> Disp(|t|, k, Home(|t|, t[k])) <= t[k].distance <= maxd
  }

  /** The stored distances bound the displacements, or the window spans the table. */
  predicate Windowed(t: seq<Element>, maxd: nat) {
    Bounded(t, maxd) || |t| <= maxd + 1
  }

  lemma WindowedReaches(t: seq<Element>, maxd: nat)
    requires Windowed(t, maxd)
    ensures Reachable(t, maxd)
  {
  }

  predicate InOrder(t: seq<Element>, k: nat)
    requires k < |t|
  {
    t[k].distance > 0 ==> Live(t[Prev(|t|, k)]) && t[k].distance <= t[Prev(|t|, k)].distance + 1
  }

  predicate Placed(t: seq<Element>, maxd: nat, k: nat)
    requires k < |t|
  {
    t[k].distance == Disp(|t|, k, Home(|t|, t[k])) && t[k].distance <= maxd
  }

  predicate SlotInOrder(t: seq<Element>, maxd: nat, k: nat)
    requires k < |t|
  {
    Live(t[k]) ==> Placed(t, maxd, k) && InOrder(t, k)
  }

  /** The Robin Hood invariant: stored distances are exact and stay below the size, clusters
      have no gaps, and distances rise by at most one from slot to slot. */
  predicate RobinHoodOrder(t: seq<Element>, maxd: nat) {
    && maxd < |t|
    && forall k {:trigger SlotInOrder(t, maxd, k)} :: 0 <= k < |t| ==> SlotInOrder(t, maxd, k)
  }

  lemma OrderIsBounded(t: seq<Element>, maxd: nat)
    requires RobinHoodOrder(t, maxd)
    ensures Bounded(t, maxd)
  {
    forall k | 0 <= k < |t| && Live(t[k])
      ensures Disp(|t|, k, Home(|t|, t[k])) <= t[k].distance <= maxd
    {
      assert SlotInOrder(t, maxd, k);
    }
  }

  // ---------- rbhash_swapdown ----------

  function Longer(a: Element, b: Element): nat {
    if a.len > b.len then a.len else b.len
  }

  /** The element left in the slot by SWAP and memswap: all of nw, with only the longer
      key's length of bytes exchanged. */
  function Exchanged(slot: Element, nw: Element): Element
    requires Longer(slot, nw) <= |nw.key| == |slot.key|
  {
    var m := Longer(slot, nw);
    Element(nw.data, nw.hash, nw.len, nw.distance, nw.key[..m] + slot.key[m..])
  }

  lemma ExchangedEntry(slot: Element, nw: Element, cap: nat)
    requires Fits(slot, cap) && Fits(nw, cap)
    ensures Fits(Exchanged(slot, nw), cap)
    ensures EntryOf(Exchanged(slot, nw)) == EntryOf(nw)
  {
    assert Exchanged(slot, nw).key[..nw.len] == nw.key[..nw.len];
  }

  datatype Placement = Placement(slots: seq<Element>, maxdistance: nat, ok: bool)

  datatype Probe = Probe(slots: seq<Element>, carried: Element)

  /** One pass of the loop at live slot b: a richer resident is displaced, and whatever is
      then carried is one slot further from its home. */
  function Advance(t: seq<Element>, nw: Element, b: nat, cap: nat): (p: Probe)
    requires b < |t| && AllFit(t, cap) && Fits(nw, cap)
    ensures |p.slots| == |t| && AllFit(p.slots, cap) && Fits(p.carried, cap)
  {
    if nw.distance > t[b].distance then
      ExchangedEntry(t[b], nw, cap);
      ExchangedEntry(nw, t[b], cap);
      var c := Exchanged(nw, t[b]);
      Probe(t[b := Exchanged(t[b], nw)], c.(distance := c.distance + 1))
    else
      Probe(t, nw.(distance := nw.distance + 1))
  }

  function SwapDown(t: seq<Element>, maxd: nat, nw: Element, b: nat, i: nat, cap: nat): (r: Placement)
    requires b < |t| && i <= |t| && AllFit(t, cap) && Fits(nw, cap)
    ensures |r.slots| == |t| && AllFit(r.slots, cap)
    decreases |t| - i
  {
    if i == |t| || !Live(t[b]) then
      if Live(t[b]) then Placement(t, maxd, false) else Placement(t[b := nw], maxd, true)
    else
      var p := Advance(t, nw, b, cap);
      SwapDown(p.slots, Max(maxd, p.carried.distance), p.carried, Next(|t|, b), i + 1, cap)
  }

  /** A pass neither adds nor loses an entry and writes no slot but b. */
  lemma AdvanceConserves(t: seq<Element>, nw: Element, b: nat, cap: nat)
    requires b < |t| && AllFit(t, cap) && Fits(nw, cap) && Live(t[b])
    ensures var p := Advance(t, nw, b, cap);
      && Entries(p.slots) + Ent(p.carried) == Entries(t) + Ent(nw)
      && forall k :: 0 <= k < |t| && k != b ==> p.slots[k] == t[k]
  {
    if nw.distance > t[b].distance {
      ExchangedEntry(t[b], nw, cap);
      ExchangedEntry(nw, t[b], cap);
      EntriesUpdate(t, b, Exchanged(t[b], nw));
      assert Ent(Exchanged(t[b], nw)) == Ent(nw);
      assert Ent(Advance(t, nw, b, cap).carried) == Ent(t[b]);
    } else {
      assert Ent(Advance(t, nw, b, cap).carried) == Ent(nw);
    }
  }

  /** The element carried to slot b is no further from home than it claims. */
  predicate CarriedWithin(n: nat, b: nat, nw: Element, maxd: nat)
    requires b < n
  {
    Live(nw) ==> Disp(n, b, Home(n, nw)) <= nw.distance <= maxd
  }

  /** Moving on one slot adds one to a carried element's claim and at most one to its
      displacement. */
  lemma CarriedMovesOn(n: nat, b: nat, c: Element, maxd: nat)
    requires b < n && CarriedWithin(n, b, c, maxd)
    ensures CarriedWithin(n, Next(n, b), c.(distance := c.distance + 1), Max(maxd, c.distance + 1))
  {
    assert Home(n, c.(distance := c.distance + 1)) == Home(n, c);
  }

  lemma AdvanceKeepsBounded(t: seq<Element>, maxd: nat, nw: Element, b: nat, cap: nat)
    requires b < |t| && AllFit(t, cap) && Fits(nw, cap) && Live(t[b])
    requires Bounded(t, maxd) && CarriedWithin(|t|, b, nw, maxd)
    ensures var p := Advance(t, nw, b, cap);
      var maxd' := Max(maxd, p.carried.distance);
      Bounded(p.slots, maxd') && CarriedWithin(|t|, Next(|t|, b), p.carried, maxd')
  {
    if nw.distance > t[b].distance {
      var e, c := Exchanged(t[b], nw), Exchanged(nw, t[b]);
      assert Home(|t|, e) == Home(|t|, nw) && Home(|t|, c) == Home(|t|, t[b]);
      CarriedMovesOn(|t|, b, c, maxd);
    } else {
      CarriedMovesOn(|t|, b, nw, maxd);
    }
  }

  lemma AheadOfNext(n: nat, h: nat, b: nat)
    requires h < n && b < n && h != b
    ensures Disp(n, h, Next(n, b)) == Disp(n, h, b) - 1
  {
  }

  /** Insertion with a dead slot ahead succeeds and adds exactly the new entry. */
  lemma {:induction false} SwapDownAddsEntry(t: seq<Element>, maxd: nat, nw: Element, b: nat, i: nat, cap: nat, h: nat)
    requires b < |t| && i <= |t| && h < |t| && AllFit(t, cap) && Fits(nw, cap)
    requires !Live(t[h]) && i + Disp(|t|, h, b) < |t|
    ensures var r := SwapDown(t, maxd, nw, b, i, cap);
      && r.ok && maxd <= r.maxdistance
      && Entries(r.slots) == Entries(t) + Ent(nw)
    decreases |t| - i
  {
    if !Live(t[b]) {
      EntriesFill(t, b, nw);
    } else {
      AheadOfNext(|t|, h, b);
      AdvanceConserves(t, nw, b, cap);
      var p := Advance(t, nw, b, cap);
      SwapDownAddsEntry(p.slots, Max(maxd, p.carried.distance), p.carried, Next(|t|, b), i + 1, cap, h);
    }
  }

  /** Insertion keeps every displacement within maxdistance, whatever garbage the dead
      slots hold. */
  lemma {:induction false} SwapDownKeepsBounded(t: seq<Element>, maxd: nat, nw: Element, b: nat, i: nat, cap: nat)
    requires b < |t| && i <= |t| && AllFit(t, cap) && Fits(nw, cap)
    requires Bounded(t, maxd) && CarriedWithin(|t|, b, nw, maxd)
    ensures var r := SwapDown(t, maxd, nw, b, i, cap);
      Bounded(r.slots, r.maxdistance)
    decreases |t| - i
  {
    if i < |t| && Live(t[b]) {
      AdvanceKeepsBounded(t, maxd, nw, b, cap);
      var p := Advance(t, nw, b, cap);
      SwapDownKeepsBounded(p.slots, Max(maxd, p.carried.distance), p.carried, Next(|t|, b), i + 1, cap);
    }
  }

  /** With every slot live the probe visits them all and the insertion fails. */
  lemma {:induction false} SwapDownFull(t: seq<Element>, maxd: nat, nw: Element, b: nat, i: nat, cap: nat)
    requires b < |t| && i <= |t| && AllFit(t, cap) && Fits(nw, cap) && Live(nw)
    requires forall k :: 0 <= k < |t| ==> Live(t[k])
    ensures !SwapDown(t, maxd, nw, b, i, cap).ok
    decreases |t| - i
  {
    if i < |t| {
      var p := Advance(t, nw, b, cap);
      SwapDownFull(p.slots, Max(maxd, p.carried.distance), p.carried, Next(|t|, b), i + 1, cap);
    }
  }

  // ---------- the Robin Hood invariant through one insertion ----------

  function Back(n: nat, b: nat, k: nat): nat
    requires b < n && k < n
  {
    if k <= b then b - k else b + n - k
  }

  /** An entry d slots from home has d live slots right behind it. */
  lemma {:induction false} RunBehind(t: seq<Element>, maxd: nat, b: nat, d: nat, k: nat)
    requires RobinHoodOrder(t, maxd) && b < |t| && k <= d < |t|
    requires Live(t[b]) && t[b].distance >= d
    ensures Live(t[Back(|t|, b, k)]) && t[Back(|t|, b, k)].distance >= d - k
    decreases k
  {
    if k > 0 {
      RunBehind(t, maxd, b, d, k - 1);
      var p := Back(|t|, b, k - 1);
      assert SlotInOrder(t, maxd, p);
      assert Prev(|t|, p) == Back(|t|, b, k);
    }
  }

  predicate CarriedInOrder(t: seq<Element>, b: nat, nw: Element, maxd: nat)
    requires b < |t|
  {
    && Live(nw)
    && nw.distance == Disp(|t|, b, Home(|t|, nw)) && nw.distance <= maxd
    && (nw.distance > 0 ==> Live(t[Prev(|t|, b)]) && nw.distance <= t[Prev(|t|, b)].distance + 1)
  }

  /** A carried element still has at least one slot to go before it would come round to
      its own home, because the dead slot lies ahead of it. */
  lemma CarriedStopsShort(t: seq<Element>, maxd: nat, nw: Element, b: nat, h: nat)
    requires RobinHoodOrder(t, maxd) && b < |t| && h < |t| && !Live(t[h]) && Live(t[b])
    requires CarriedInOrder(t, b, nw, maxd)
    ensures nw.distance + Disp(|t|, h, b) < |t|
    ensures Disp(|t|, Next(|t|, b), Home(|t|, nw)) == nw.distance + 1
  {
    var n, f := |t|, Disp(|t|, h, b);
    assert f > 0;
    if nw.distance >= n - f {
      var p := Prev(n, b);
      assert Back(n, p, n - f - 1) == h;
      RunBehind(t, maxd, p, nw.distance - 1, n - f - 1);
      assert false;
    }
  }

  /** Overwriting slot b by an element at least as far from home keeps the order. */
  lemma OrderAfterWrite(t: seq<Element>, maxd: nat, b: nat, e: Element)
    requires RobinHoodOrder(t, maxd) && b < |t|
    requires CarriedInOrder(t, b, e, maxd) && (Live(t[b]) ==> e.distance >= t[b].distance)
    requires |t| == 1 ==> e.distance == 0
    ensures RobinHoodOrder(t[b := e], maxd)
  {
    var s := t[b := e];
    forall k | 0 <= k < |s|
      ensures SlotInOrder(s, maxd, k)
    {
      assert SlotInOrder(t, maxd, k);
    }
  }

  lemma OrderMonotone(t: seq<Element>, maxd: nat, maxd': nat)
    requires RobinHoodOrder(t, maxd) && maxd <= maxd' < |t|
    ensures RobinHoodOrder(t, maxd')
  {
    forall k | 0 <= k < |t|
      ensures SlotInOrder(t, maxd', k)
    {
      assert SlotInOrder(t, maxd, k);
    }
  }

  /** One pass keeps the order: whether or not the resident is displaced, what is carried on
      follows the slot just left in order. */
  lemma AdvanceKeepsOrder(t: seq<Element>, maxd: nat, nw: Element, b: nat, cap: nat, h: nat)
    requires b < |t| && AllFit(t, cap) && Fits(nw, cap) && Live(t[b])
    requires h < |t| && !Live(t[h])
    requires RobinHoodOrder(t, maxd) && CarriedInOrder(t, b, nw, maxd)
    ensures var p := Advance(t, nw, b, cap);
      var maxd' := Max(maxd, p.carried.distance);
      RobinHoodOrder(p.slots, maxd') && CarriedInOrder(p.slots, Next(|t|, b), p.carried, maxd')
  {
    assert SlotInOrder(t, maxd, b);
    var s, c := t, nw;
    if nw.distance > t[b].distance {
      s, c := t[b := Exchanged(t[b], nw)], Exchanged(nw, t[b]);
      assert Home(|t|, s[b]) == Home(|t|, nw) && Home(|t|, c) == Home(|t|, t[b]);
      OrderAfterWrite(t, maxd, b, s[b]);
    }
    CarriedStopsShort(s, maxd, c, b, h);
    OrderMonotone(s, maxd, Max(maxd, c.distance + 1));
    assert Home(|t|, c.(distance := c.distance + 1)) == Home(|t|, c);
    assert Prev(|t|, Next(|t|, b)) == b;
  }

  /** Every insertion keeps the Robin Hood invariant through all its displacements, and
      writes only live elements, so a slot that is dead afterwards was never touched. */
  lemma {:induction false} SwapDownKeepsOrder(t: seq<Element>, maxd: nat, nw: Element, b: nat, i: nat, cap: nat, h: nat)
    requires b < |t| && i <= |t| && h < |t| && AllFit(t, cap) && Fits(nw, cap)
    requires !Live(t[h]) && i + Disp(|t|, h, b) < |t|
    requires RobinHoodOrder(t, maxd) && CarriedInOrder(t, b, nw, maxd)
    ensures var r := SwapDown(t, maxd, nw, b, i, cap);
      && RobinHoodOrder(r.slots, r.maxdistance)
      && forall k :: 0 <= k < |t| && !Live(r.slots[k]) ==> r.slots[k] == t[k]
    decreases |t| - i
  {
    if !Live(t[b]) {
      OrderAfterWrite(t, maxd, b, nw);
    } else {
      AheadOfNext(|t|, h, b);
      AdvanceKeepsOrder(t, maxd, nw, b, cap, h);
      var p := Advance(t, nw, b, cap);
      SwapDownKeepsOrder(p.slots, Max(maxd, p.carried.distance), p.carried, Next(|t|, b), i + 1, cap, h);
    }
  }

  // ---------- what every insertion keeps, whatever the dead slots hold ----------

  /** Stored distances are the displacements, within a maxdistance below the size. Unlike the
      Robin Hood invariant this says nothing about the slots between an entry and its home. */
  predicate Exact(t: seq<Element>, maxd: nat) {
    maxd < |t| && forall k :: 0 <= k < |t| && Live(t[k]) ==> Placed(t, maxd, k)
  }

  lemma OrderIsExact(t: seq<Element>, maxd: nat)
    requires RobinHoodOrder(t, maxd)
    ensures Exact(t, maxd)
  {
    forall k | 0 <= k < |t| && Live(t[k])
      ensures Placed(t, maxd, k)
    {
      assert SlotInOrder(t, maxd, k);
    }
  }

  lemma ExactIsBounded(t: seq<Element>, maxd: nat)
    requires Exact(t, maxd)
    ensures Bounded(t, maxd)
  {
  }

  /** A carried element that is live is as far from home as it says; a dead one may say
      anything. */
  predicate CarriedExact(n: nat, b: nat, nw: Element, maxd: nat)
    requires b < n
  {
    Live(nw) ==> nw.distance == Disp(n, b, Home(n, nw)) && nw.distance <= maxd
  }

  lemma AdvanceKeepsExact(t: seq<Element>, maxd: nat, nw: Element, b: nat, i: nat, cap: nat)
    requires b < |t| && AllFit(t, cap) && Fits(nw, cap) && Live(t[b])
    requires nw.distance <= i && i + 1 < |t| && Exact(t, maxd) && CarriedExact(|t|, b, nw, maxd)
    ensures var p := Advance(t, nw, b, cap);
      var maxd' := Max(maxd, p.carried.distance);
      p.carried.distance <= i + 1 && Exact(p.slots, maxd') && CarriedExact(|t|, Next(|t|, b), p.carried, maxd')
  {
    var n, p := |t|, Advance(t, nw, b, cap);
    assert Placed(t, maxd, b);
    var c := nw;
    if nw.distance > t[b].distance {
      c := Exchanged(nw, t[b]);
      assert Home(n, p.slots[b]) == Home(n, nw) && Home(n, c) == Home(n, t[b]);
    }
    assert Home(n, p.carried) == Home(n, c);
    forall k | 0 <= k < n && Live(p.slots[k])
      ensures Placed(p.slots, Max(maxd, p.carried.distance), k)
    {
      assert k != b ==> Placed(t, maxd, k);
    }
  }

  /** Every insertion keeps distances exact, of dead elements too: a hole ahead is reached
      before anything carried comes round to its own home. */
  lemma {:induction false} SwapDownKeepsExact(t: seq<Element>, maxd: nat, nw: Element, b: nat, i: nat, cap: nat, h: nat)
    requires b < |t| && i <= |t| && h < |t| && AllFit(t, cap) && Fits(nw, cap)
    requires !Live(t[h]) && i + Disp(|t|, h, b) < |t|
    requires nw.distance <= i && Exact(t, maxd) && CarriedExact(|t|, b, nw, maxd)
    ensures var r := SwapDown(t, maxd, nw, b, i, cap);
      r.ok && Exact(r.slots, r.maxdistance)
    decreases |t| - i
  {
    if Live(t[b]) {
      AheadOfNext(|t|, h, b);
      AdvanceKeepsExact(t, maxd, nw, b, i, cap);
      var p := Advance(t, nw, b, cap);
      SwapDownKeepsExact(p.slots, Max(maxd, p.carried.distance), p.carried, Next(|t|, b), i + 1, cap, h);
    } else {
      var s := t[b := nw];
      forall k | 0 <= k < |s| && Live(s[k])
        ensures Placed(s, maxd, k)
      {
        assert k != b ==> Placed(t, maxd, k);
      }
    }
  }

  /** The window never outgrows the table: nothing is carried further than the hole ahead,
      whatever distances the slots store. */
  lemma {:induction false} SwapDownKeepsWindow(t: seq<Element>, maxd: nat, nw: Element, b: nat, i: nat, cap: nat,
                                               h: nat)
    requires b < |t| && i <= |t| && h < |t| && AllFit(t, cap) && Fits(nw, cap)
    requires !Live(t[h]) && i + Disp(|t|, h, b) < |t| && nw.distance <= i && maxd < |t|
    ensures SwapDown(t, maxd, nw, b, i, cap).maxdistance < |t|
    decreases |t| - i
  {
    if Live(t[b]) {
      AheadOfNext(|t|, h, b);
      var p := Advance(t, nw, b, cap);
      SwapDownKeepsWindow(p.slots, Max(maxd, p.carried.distance), p.carried, Next(|t|, b), i + 1, cap, h);
    }
  }

  /** An insertion writes no slot behind where it starts and none past the first hole. */
  lemma {:induction false} SwapDownWritesAhead(t: seq<Element>, maxd: nat, nw: Element, b: nat, i: nat, cap: nat,
                                               h: nat, k: nat)
    requires b < |t| && i <= |t| && h < |t| && AllFit(t, cap) && Fits(nw, cap)
    requires !Live(t[h]) && k < |t| && Disp(|t|, h, b) < Disp(|t|, k, b)
    ensures SwapDown(t, maxd, nw, b, i, cap).slots[k] == t[k]
    decreases |t| - i
  {
    if Live(t[b]) && i < |t| {
      AheadOfNext(|t|, h, b);
      AheadOfNext(|t|, k, b);
      var p := Advance(t, nw, b, cap);
      SwapDownWritesAhead(p.slots, Max(maxd, p.carried.distance), p.carried, Next(|t|, b), i + 1, cap, h, k);
    }
  }

  // ---------- pushing down a dead element ----------

  /** Going on from slot b at this distance, a dead slot comes before any entry nearer to its
      home. */
  predicate PassesBy(t: seq<Element>, distance: nat, b: nat, i: nat)
    requires b < |t| && i <= |t|
    decreases |t| - i
  {
    !Live(t[b]) || (distance <= t[b].distance && i < |t| && PassesBy(t, distance + 1, Next(|t|, b), i + 1))
  }

  /** An entry away from home right behind a dead slot. */
  predicate GapAt(t: seq<Element>, b: nat)
    requires b < |t|
  {
    !Live(t[b]) && Live(t[Next(|t|, b)]) && t[Next(|t|, b)].distance > 0
  }

  lemma GapBreaksOrder(t: seq<Element>, maxd: nat, b: nat)
    requires b < |t| && GapAt(t, b)
    ensures !RobinHoodOrder(t, maxd)
  {
    assert Prev(|t|, Next(|t|, b)) == b;
    assert !SlotInOrder(t, maxd, Next(|t|, b));
  }

  /** What is displaced from slot b by a dead element goes on behind the gap it left, and
      itself or the entry it stops at stands there away from home. */
  lemma DisplacedLeavesGap(t: seq<Element>, maxd: nat, c: Element, b: nat, i: nat, cap: nat, h: nat)
    requires b < |t| && i <= |t| && h < |t| && AllFit(t, cap) && Fits(c, cap)
    requires !Live(t[b]) && Live(c) && c.distance > 0 && h != b && !Live(t[h])
    requires i + Disp(|t|, h, Next(|t|, b)) < |t|
    ensures GapAt(SwapDown(t, maxd, c, Next(|t|, b), i, cap).slots, b)
  {
    var n, nb := |t|, Next(|t|, b);
    SwapDownWritesAhead(t, maxd, c, nb, i, cap, h, b);
    if Live(t[nb]) {
      var p := Advance(t, c, nb, cap);
      AheadOfNext(n, h, nb);
      SwapDownWritesAhead(p.slots, Max(maxd, p.carried.distance), p.carried, Next(n, nb), i + 1, cap, h, nb);
    }
  }

  lemma DeadFillKeepsOrder(t: seq<Element>, maxd: nat, b: nat, e: Element)
    requires RobinHoodOrder(t, maxd) && b < |t| && !Live(t[b]) && !Live(e)
    ensures RobinHoodOrder(t[b := e], maxd)
  {
    var s := t[b := e];
    forall k | 0 <= k < |s|
      ensures SlotInOrder(s, maxd, k)
    {
      assert SlotInOrder(t, maxd, k);
    }
  }

  /** A dead element that growth pushes down leaves the Robin Hood invariant if and only if it
      meets a dead slot before any entry nearer to its home. */
  lemma {:induction false} DeadPushOrderIff(t: seq<Element>, maxd: nat, nw: Element, b: nat, i: nat, cap: nat, h: nat)
    requires b < |t| && i <= |t| && h < |t| && AllFit(t, cap) && Fits(nw, cap) && !Live(nw)
    requires !Live(t[h]) && i + Disp(|t|, h, b) < |t| && nw.distance <= i && RobinHoodOrder(t, maxd)
    ensures var r := SwapDown(t, maxd, nw, b, i, cap);
      RobinHoodOrder(r.slots, r.maxdistance) <==> PassesBy(t, nw.distance, b, i)
    decreases |t| - i
  {
    if !Live(t[b]) {
      DeadFillKeepsOrder(t, maxd, b, nw);
    } else {
      AheadOfNext(|t|, h, b);
      var p := Advance(t, nw, b, cap);
      var maxd' := Max(maxd, p.carried.distance);
      if nw.distance > t[b].distance {
        DisplacedLeavesGap(p.slots, maxd', p.carried, b, i + 1, cap, h);
        var r := SwapDown(t, maxd, nw, b, i, cap);
        GapBreaksOrder(r.slots, r.maxdistance, b);
      } else {
        OrderMonotone(t, maxd, maxd');
        DeadPushOrderIff(t, maxd', p.carried, Next(|t|, b), i + 1, cap, h);
      }
    }
  }

  // ---------- lookup ----------

  predicate Matches(e: Element, hash: nat, key: seq<Byte>) {
    e.len == |key| && e.hash == hash && EntryOf(e).key == key
  }

  /** The scan of rbhash_find_bucket: `scan` slots from b on, or none (-1). */
  function FindBucket(t: seq<Element>, hash: nat, key: seq<Byte>, b: nat, scan: nat): int
    requires b < |t|
    decreases scan
  {
    if scan == 0 then -1
    else if Matches(t[b], hash, key) then b
    else FindBucket(t, hash, key, Next(|t|, b), scan - 1)
  }

  lemma {:induction false} FindBucketScans(t: seq<Element>, hash: nat, key: seq<Byte>, b: nat, scan: nat)
    requires b < |t|
    ensures var r := FindBucket(t, hash, key, b, scan);
      && -1 <= r < |t|
      && (r >= 0 ==> Matches(t[r], hash, key))
      && (r == -1 ==> forall k :: 0 <= k < |t| && Matches(t[k], hash, key) ==> Disp(|t|, k, b) >= scan)
    decreases scan
  {
    if scan > 0 && !Matches(t[b], hash, key) {
      var nb := Next(|t|, b);
      FindBucketScans(t, hash, key, nb, scan - 1);
      forall k | 0 <= k < |t| && Matches(t[k], hash, key)
        ensures Disp(|t|, k, nb) == Disp(|t|, k, b) - 1
      {
      }
    }
  }

  predicate Stores(m: multiset<Entry>, hash: nat, key: seq<Byte>) {
    exists x :: x in m && x.key == key && x.hash == hash
  }

  function Lookup(t: seq<Element>, maxd: nat, hash: nat, key: seq<Byte>): int
    requires |t| > 0
  {
    FindBucket(t, hash, key, FastMod(hash, |t|), maxd + 1)
  }

  /** Lookup never stops at a dead slot; the window alone makes it find an entry with the
      key exactly when one is stored. */
  lemma LookupIsExact(t: seq<Element>, maxd: nat, hash: nat, key: seq<Byte>)
    requires |t| > 0 && |key| > 0 && Reachable(t, maxd)
    requires forall k :: 0 <= k < |t| ==> t[k].len <= |t[k].key|
    ensures var r := Lookup(t, maxd, hash, key);
      && (r == -1 <==> !Stores(Entries(t), hash, key))
      && (r != -1 ==> 0 <= r < |t| && Live(t[r]) && EntryOf(t[r]) in Entries(t)
                      && EntryOf(t[r]).key == key && EntryOf(t[r]).hash == hash)
  {
    var r := Lookup(t, maxd, hash, key);
    FindBucketScans(t, hash, key, FastMod(hash, |t|), maxd + 1);
    if r == -1 {
      forall x | x in Entries(t)
        ensures !(x.key == key && x.hash == hash)
      {
        EntriesMember(t, 0, x);
        var k :| 0 <= k < |t| && Live(t[k]) && EntryOf(t[k]) == x;
        assert Disp(|t|, k, Home(|t|, t[k])) <= maxd;
        assert !Matches(t[k], hash, key);
      }
    } else {
      EntriesMember(t, 0, EntryOf(t[r]));
    }
  }
}
