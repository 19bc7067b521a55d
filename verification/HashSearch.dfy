/** The iterator over the entries with one key: rbhash_search_new and
    rbhash_search_continue. */
module HashSearch {
  import opened Bits
  import opened RobinHood

  datatype Search = Search(slot: nat, hash: nat, key: seq<Byte>, maxscan: nat)

  function SearchNew(t: seq<Element>, maxd: nat, hash: nat, key: seq<Byte>): (s: Search)
    requires |t| > 0
    ensures s.slot < |t|
  {
    Search(FastMod(hash, |t|), hash, key, maxd + 1)
  }

  /** The next matching bucket, or -1 once the window is used up; the test that ends the loop
      still decrements maxscan, which wraps. */
  function SearchBucket(t: seq<Element>, s: Search): (r: (Search, int))
    requires s.slot < |t|
    ensures r.0.slot < |t| && -1 <= r.1 < |t|
    ensures r.1 >= 0 ==> r.0.maxscan < s.maxscan
    ensures r.0.hash == s.hash && r.0.key == s.key
    decreases s.maxscan
  {
    if s.maxscan == 0 then (s.(maxscan := TWO64 - 1), -1)
    else
      var s' := s.(slot := Next(|t|, s.slot), maxscan := s.maxscan - 1);
      if Matches(t[s.slot], s.hash, s.key) then (s', s.slot) else SearchBucket(t, s')
  }

  /** What a caller collects by continuing the search until it first gets NULL. */
  function Drain(t: seq<Element>, s: Search): seq<Data>
    requires s.slot < |t|
    decreases s.maxscan
  {
    var (s', b) := SearchBucket(t, s);
    if b == -1 || t[b].data == 0 then [] else [t[b].data] + Drain(t, s')
  }

  function Hit(e: Element, x: Entry): nat {
    if Matches(e, x.hash, x.key) && e.data == x.data then 1 else 0
  }

  function HitsFrom(t: seq<Element>, k: nat, x: Entry): nat
    requires k <= |t|
    decreases |t| - k
  {
    if k == |t| then 0 else Hit(t[k], x) + HitsFrom(t, k + 1, x)
  }

  function WindowHits(t: seq<Element>, b: nat, w: nat, x: Entry): nat
    requires b < |t|
    decreases w
  {
    if w == 0 then 0 else Hit(t[b], x) + WindowHits(t, Next(|t|, b), w - 1, x)
  }

  lemma HitIsEntry(e: Element, x: Entry)
    requires |x.key| > 0 && e.len <= |e.key|
    ensures Ent(e)[x] == Hit(e, x)
  {
  }

  lemma SlotAdds(t: seq<Element>, k: nat, x: Entry)
    requires k < |t|
    ensures EntriesFrom(t, k)[x] == Ent(t[k])[x] + EntriesFrom(t, k + 1)[x]
  {
  }

  lemma {:induction false} HitsAreEntries(t: seq<Element>, k: nat, x: Entry)
    requires k <= |t| && |x.key| > 0 && forall i :: 0 <= i < |t| ==> t[i].len <= |t[i].key|
    ensures HitsFrom(t, k, x) == EntriesFrom(t, k)[x]
    decreases |t| - k
  {
    if k < |t| {
      HitIsEntry(t[k], x);
      HitsAreEntries(t, k + 1, x);
      SlotAdds(t, k, x);
    }
  }

  predicate NoNullMatch(t: seq<Element>, hash: nat, key: seq<Byte>) {
    forall k :: 0 <= k < |t| && Matches(t[k], hash, key) ==> t[k].data != 0
  }

  /** One continued search returns the first hit of the remaining window. */
  lemma {:induction false} BucketTakesFirstHit(t: seq<Element>, s: Search, x: Entry)
    requires s.slot < |t| && x.hash == s.hash && x.key == s.key
    ensures var (s', b) := SearchBucket(t, s);
      && (b == -1 ==> WindowHits(t, s.slot, s.maxscan, x) == 0)
      && (b != -1 ==> Matches(t[b], s.hash, s.key))
      && (b != -1 ==> WindowHits(t, s.slot, s.maxscan, x) == Hit(t[b], x) + WindowHits(t, s'.slot, s'.maxscan, x))
    decreases s.maxscan
  {
    if s.maxscan > 0 && !Matches(t[s.slot], s.hash, s.key) {
      BucketTakesFirstHit(t, s.(slot := Next(|t|, s.slot), maxscan := s.maxscan - 1), x);
    }
  }

  lemma {:induction false} DrainCountsWindow(t: seq<Element>, s: Search, d: Data)
    requires s.slot < |t| && NoNullMatch(t, s.hash, s.key) && d != 0
    ensures multiset(Drain(t, s))[d] == WindowHits(t, s.slot, s.maxscan, Entry(s.key, s.hash, d))
    decreases s.maxscan
  {
    var x := Entry(s.key, s.hash, d);
    BucketTakesFirstHit(t, s, x);
    var (s', b) := SearchBucket(t, s);
    if b != -1 {
      DrainCountsWindow(t, s', d);
      assert Drain(t, s) == [t[b].data] + Drain(t, s');
    }
  }

  lemma {:induction false} DrainHasNoNull(t: seq<Element>, s: Search)
    requires s.slot < |t|
    ensures 0 !in Drain(t, s)
    decreases s.maxscan
  {
    var (s', b) := SearchBucket(t, s);
    if b != -1 && t[b].data != 0 {
      DrainHasNoNull(t, s');
    }
  }

  lemma {:induction false} WindowToEnd(t: seq<Element>, b: nat, w: nat, x: Entry)
    requires b < |t| && w >= |t| - b
    ensures WindowHits(t, b, w, x) == HitsFrom(t, b, x) + WindowHits(t, 0, w - (|t| - b), x)
    decreases |t| - b
  {
    if b + 1 < |t| {
      WindowToEnd(t, b + 1, w - 1, x);
    } else {
      assert HitsFrom(t, b, x) == Hit(t[b], x) + HitsFrom(t, b + 1, x);
    }
  }

  lemma {:induction false} WindowPrefix(t: seq<Element>, k: nat, b: nat, x: Entry)
    requires k <= b < |t|
    ensures WindowHits(t, k, b - k, x) + HitsFrom(t, b, x) == HitsFrom(t, k, x)
    decreases b - k
  {
    if k < b {
      WindowPrefix(t, k + 1, b, x);
    }
  }

  /** The slot j steps after b. */
  function At(n: nat, b: nat, j: nat): nat
    requires b < n && j < n
  {
    if b + j < n then b + j else b + j - n
  }

  /** Slots past the last hit add nothing to a window. */
  lemma {:induction false} WindowExtend(t: seq<Element>, b: nat, v: nat, w: nat, x: Entry)
    requires b < |t| && v <= w <= |t|
    requires forall j :: v <= j < w ==> Hit(t[At(|t|, b, j)], x) == 0
    ensures WindowHits(t, b, v, x) == WindowHits(t, b, w, x)
    decreases w
  {
    if w > 0 {
      var nb := Next(|t|, b);
      var v' := if v > 0 then v - 1 else 0;
      assert v == 0 ==> At(|t|, b, 0) == b;
      forall j | v' <= j < w - 1
        ensures Hit(t[At(|t|, nb, j)], x) == 0
      {
        assert At(|t|, nb, j) == At(|t|, b, j + 1);
      }
      WindowExtend(t, nb, v', w - 1, x);
    }
  }

  /** No entry lies further from its home than maxdistance. */
  lemma NoHitsBeyond(t: seq<Element>, maxd: nat, b: nat, x: Entry)
    requires Reachable(t, maxd) && |x.key| > 0 && |t| > 0 && b == FastMod(x.hash, |t|)
    ensures forall j :: maxd + 1 <= j < |t| ==> Hit(t[At(|t|, b, j)], x) == 0
  {
    forall j | maxd + 1 <= j < |t|
      ensures Hit(t[At(|t|, b, j)], x) == 0
    {
      var k := At(|t|, b, j);
      assert Disp(|t|, k, b) == j;
      assert Live(t[k]) ==> Disp(|t|, k, Home(|t|, t[k])) <= maxd;
    }
  }

  /** The window of a key covers all its entries, each once. */
  lemma WindowIsAll(t: seq<Element>, maxd: nat, b: nat, x: Entry)
    requires Reachable(t, maxd) && maxd < |t| && |x.key| > 0 && b == FastMod(x.hash, |t|)
    requires forall i :: 0 <= i < |t| ==> t[i].len <= |t[i].key|
    ensures WindowHits(t, b, maxd + 1, x) == Entries(t)[x]
  {
    NoHitsBeyond(t, maxd, b, x);
    WindowExtend(t, b, maxd + 1, |t|, x);
    WindowToEnd(t, b, |t|, x);
    WindowPrefix(t, 0, b, x);
    HitsAreEntries(t, 0, x);
  }

  /** Continued until it first answers NULL on an unmodified table without null data, whose
      window bounds all entries and does not revisit a slot, the search yields the data of
      every entry stored under the key, each as often as it is stored, and nothing else. */
  lemma SearchYieldsAll(t: seq<Element>, maxd: nat, hash: nat, key: seq<Byte>, d: Data)
    requires |key| > 0 && Reachable(t, maxd) && maxd < |t| && NoNullMatch(t, hash, key)
    requires forall i :: 0 <= i < |t| ==> t[i].len <= |t[i].key|
    ensures multiset(Drain(t, SearchNew(t, maxd, hash, key)))[d]
         == if d == 0 then 0 else Entries(t)[Entry(key, hash, d)]
  {
    var s := SearchNew(t, maxd, hash, key);
    DrainHasNoNull(t, s);
    if d != 0 {
      DrainCountsWindow(t, s, d);
      WindowIsAll(t, maxd, s.slot, Entry(key, hash, d));
    } else {
      assert 0 !in multiset(Drain(t, s));
    }
  }
}
