/** core/rbhash.c in its own form: a table of slots updated in place. Each method is proved
    against the value-level function it implements. */
module RbHash {
  import opened Bits
  import opened RobinHood
  import opened HashTable
  import HashRemoval
  import HashSearch

  class Hash {
    var table: array<Element>
    var count: nat
    var min: nat
    var maxdistance: nat
    var keySize: nat
    const hashing: seq<Byte> -> nat
    const memory: Memory

    ghost function Abs(): Table
      reads this, table
    {
      Table(table[..], maxdistance, count, min, keySize)
    }

    ghost predicate Ready()
      reads this, table
    {
      Valid(Abs())
    }

    constructor (size: nat, min: nat, keySize: nat, hashing: seq<Byte> -> nat, memory: Memory)
      requires 1 <= size <= TWO31
      ensures Ready() && fresh(table) && Abs() == New(size, min, keySize, memory)
      ensures this.hashing == hashing && this.memory == memory
    {
      RoundUpPow2Correct(size);
      var n := RoundUpPow2(size);
      var cap := Cap(keySize);
      table := new Element[n](i => Fresh(memory(n, i), cap));
      this.count, this.min, this.maxdistance, this.keySize := 0, min, 0, keySize;
      this.hashing, this.memory := hashing, memory;
      new;
      NewIsEmpty(size, min, keySize, memory);
      assert table[..] == FreshSlots(memory, n, cap);
    }

    /** rbhash_swapdown on any array of slots. */
    static method PushDown(t: array<Element>, maxd: nat, el: Element, ghost cap: nat) returns (maxd': nat, ok: bool)
      requires t.Length > 0 && IsPow2(t.Length) && AllFit(t[..], cap) && Fits(el, cap)
      modifies t
      ensures Placement(t[..], maxd', ok) == SwapDown(old(t[..]), maxd, el, Home(t.Length, el), 0, cap)
    {
      var size, nw := t.Length, el;
      var bucket: nat := FastMod(nw.hash, size);
      var i: nat := 0;
      maxd' := maxd;
      while i < size && t[bucket].len != 0
        invariant i <= size && bucket < size
        invariant AllFit(t[..], cap) && Fits(nw, cap)
        invariant SwapDown(t[..], maxd', nw, bucket, i, cap) == SwapDown(old(t[..]), maxd, el, Home(size, el), 0, cap)
      {
        ghost var before := t[..];
        ghost var p := Advance(before, nw, bucket, cap);
        if nw.distance > t[bucket].distance {
          ExchangedEntry(t[bucket], nw, cap);
          ExchangedEntry(nw, t[bucket], cap);
          var resident := t[bucket];
          t[bucket] := Exchanged(resident, nw);
          nw := Exchanged(nw, resident);
        }
        nw := nw.(distance := nw.distance + 1);
        assert t[..] == p.slots && nw == p.carried;
        SlotNextIsNext(size, bucket);
        bucket := FastMod(bucket + 1, size);
        i := i + 1;
        if nw.distance > maxd' {
          maxd' := nw.distance;
        }
      }
      ok := t[bucket].len == 0;
      if ok {
        t[bucket] := nw;
      }
    }

    method UpSize() returns (st: Status)
      requires Ready()
      modifies this
      ensures (Abs(), st) == Upsize(old(Abs()), Margin(old(Abs())), memory, AsWritten)
      ensures table == old(table) || fresh(table)
    {
      ghost var was := Abs();
      var margin := table.Length * min / 100 + 1;
      MarginIsPercent(was);
      if table.Length > count + margin {
        return Done;
      }
      if table.Length + margin > TWO31 {
        return SizeOverflow;
      }
      var newsize := NewSize(table.Length + margin);
      st := Rebuild(newsize);
    }

    /** The body of rbhash_upsize once the new size is known. */
    method Rebuild(newsize: nat) returns (st: Status)
      requires WellSized(Abs()) && newsize > 0 && IsPow2(newsize)
      modifies this
      ensures (Abs(), st) == Grow(old(Abs()), newsize, memory, AsWritten)
      ensures table == old(table) || fresh(table)
    {
      var cap := Cap(keySize);
      var mem := memory;
      var newtable: array<Element> := new Element[newsize](i => Fresh(mem(newsize, i), cap));
      ghost var blank := FreshSlots(memory, newsize, cap);
      assert newtable[..] == blank;
      var maxd: nat, ok, i: nat := 0, true, 0;
      while i < table.Length && ok
        invariant i <= table.Length && fresh(newtable) && newtable.Length == newsize
        invariant AllFit(newtable[..], cap)
        invariant unchanged(this) && unchanged(table)
        invariant ok ==> Reinsert(table[..], i, newtable[..], maxd, cap, AsWritten)
                         == Reinsert(table[..], 0, blank, 0, cap, AsWritten)
        invariant !ok ==> !Reinsert(table[..], 0, blank, 0, cap, AsWritten).ok
      {
        if table[i].key[0] != 0 {
          assert Fits(table[..][i], cap);
          var el := table[i].(distance := 0);
          maxd, ok := PushDown(newtable, maxd, el, cap);
        }
        i := i + 1;
      }
      if ok {
        table := newtable;
        maxdistance := maxd;
        st := Done;
      } else {
        st := TableFull;
      }
    }

    method AddWithHash(hash: nat, key: seq<Byte>, data: Data) returns (st: Status)
      requires Ready() && |key| > 0
      modifies this, table
      ensures (st == KeyTooBig || st == Done) ==> (Abs(), st) == AddHash(old(Abs()), memory, hash, key, data, AsWritten)
      ensures st == AddHash(old(Abs()), memory, hash, key, data, AsWritten).1
      ensures table == old(table) || fresh(table)
    {
      if |key| > keySize {
        return KeyTooBig;
      }
      ghost var was := Abs();
      InsertKeeps(was, memory, hash, key, data);
      var el := Loaded(memory, hash, key, data, Cap(keySize));
      var ok;
      maxdistance, ok := PushDown(table, maxdistance, el, Cap(keySize));
      if !ok {
        return TableFull;
      }
      count := count + 1;
      assert (Abs(), Done) == Insert(was, memory, hash, key, data);
      if min != 0 {
        st := UpSize();
      } else {
        st := Done;
      }
    }

    /** rbhash_find_bucket: the scan is bounded by maxdistance alone. */
    method BucketOf(hash: nat, key: seq<Byte>) returns (b: int)
      requires Ready() && |key| > 0
      ensures b == Lookup(table[..], maxdistance, hash, key)
      ensures -1 <= b < table.Length
    {
      FindBucketScans(table[..], hash, key, FastMod(hash, table.Length), maxdistance + 1);
      var slot: nat := FastMod(hash, table.Length);
      var maxscan: nat := maxdistance + 1;
      while maxscan > 0
        invariant slot < table.Length
        invariant FindBucket(table[..], hash, key, slot, maxscan) == Lookup(table[..], maxdistance, hash, key)
      {
        var e := table[slot];
        if e.len == |key| && e.hash == hash && EntryOf(e).key == key {
          return slot;
        }
        SlotNextIsNext(table.Length, slot);
        slot := FastMod(slot + 1, table.Length);
        maxscan := maxscan - 1;
      }
      b := -1;
    }

    method Get(key: seq<Byte>) returns (d: Data)
      requires Ready() && |key| > 0
      ensures d == Find(Abs(), hashing(key), key)
      ensures Answers(Entries(table[..]), hashing(key), key, d)
    {
      FindAnswers(Abs(), hashing(key), key);
      var b := BucketOf(hashing(key), key);
      d := if b == -1 then 0 else table[b].data;
    }

    /** rbhash_add_unique reports None when the key is already there. */
    method AddUnique(key: seq<Byte>, data: Data) returns (added: bool, st: Status)
      requires Ready() && |key| > 0
      modifies this, table
      ensures added == (Find(old(Abs()), hashing(key), key) == 0)
      ensures !added ==> Abs() == old(Abs())
      ensures added ==> st == AddHash(old(Abs()), memory, hashing(key), key, data, AsWritten).1
      ensures added && (st == KeyTooBig || st == Done) ==>
                Abs() == AddHash(old(Abs()), memory, hashing(key), key, data, AsWritten).0
      ensures table == old(table) || fresh(table)
    {
      var d := Get(key);
      if d != 0 {
        return false, Done;
      }
      added := true;
      st := AddWithHash(hashing(key), key, data);
    }

    /** rbhash_swapup as written. The walk tests slot `tbl`, which never advances, and its
        second pass would address slots from the advanced `origin`. */
    method SwapUp(bucket: nat)
      requires bucket < table.Length && IsPow2(table.Length) && !Live(table[bucket])
      modifies table
      ensures table[..] == HashRemoval.ShiftOnce(old(table[..]), bucket)
    {
      var size := table.Length;
      SlotNextIsNext(size, bucket);
      var bucketfit, origin := bucket, 0;
      var b: nat := FastMod(bucket + 1, size);
      var tbl := b;
      while table[tbl].len != 0 && table[tbl].distance != 0
        invariant tbl < size && b < size && bucketfit < size
        invariant Live(table[tbl]) ==> origin == 0 && bucketfit == bucket && b == tbl && tbl == Next(size, bucket)
        invariant Live(table[tbl]) ==> table[..] == old(table[..])
        invariant !Live(table[tbl]) ==> table[..] == HashRemoval.ShiftOnce(old(table[..]), bucket)
        decreases table[tbl].len
      {
        table[origin + bucketfit] := table[tbl];
        table[tbl] := HashRemoval.Vacated(table[tbl]);
        bucketfit := b;
        SlotNextIsNext(size, b);
        b := FastMod(b + 1, size);
        origin := origin + b;
      }
    }

    /** The intended walk: each entry away from home moves one slot back. */
    method SwapUpRepaired(bucket: nat)
      requires bucket < table.Length && IsPow2(table.Length) && !Live(table[bucket])
      modifies table
      ensures table[..] == HashRemoval.ShiftBack(old(table[..]), bucket)
    {
      var size := table.Length;
      SlotNextIsNext(size, bucket);
      var fit: nat := bucket;
      var tbl: nat := FastMod(bucket + 1, size);
      while table[tbl].len != 0 && table[tbl].distance != 0
        invariant fit < size && tbl == Next(size, fit) && !Live(table[fit])
        invariant HashRemoval.ShiftBack(table[..], fit) == HashRemoval.ShiftBack(old(table[..]), bucket)
        decreases HashRemoval.Travelled(table[..], 0)
      {
        ghost var was := table[..];
        HashRemoval.PulledTravelsLess(was, fit);
        table[fit] := table[tbl].(distance := table[tbl].distance - 1);
        table[tbl] := HashRemoval.Vacated(table[tbl]);
        assert table[..] == HashRemoval.Pulled(was, fit);
        fit := tbl;
        SlotNextIsNext(size, tbl);
        tbl := FastMod(tbl + 1, size);
      }
    }

    method RemoveWithHash(hash: nat, key: seq<Byte>) returns (found: bool)
      requires Ready() && |key| > 0
      modifies this, table
      ensures (Abs(), found) == HashRemoval.RemoveHash(old(Abs()), hash, key, AsWritten)
    {
      LookupIsExact(table[..], maxdistance, hash, key);
      var b := BucketOf(hash, key);
      if b == -1 {
        return false;
      }
      HashRemoval.VacateRemoves(table[..], b);
      LiveIsSize(table[..], 0);
      table[b] := HashRemoval.Vacated(table[b]);
      SwapUp(b);
      count := count - 1;
      found := true;
    }
  }

  /** rbhash_search_continue on an unmodified table. */
  class SearchState {
    var search: HashSearch.Search

    constructor (h: Hash, key: seq<Byte>)
      requires h.Ready() && |key| > 0
      ensures search == HashSearch.SearchNew(h.table[..], h.maxdistance, h.hashing(key), key)
    {
      search := HashSearch.Search(FastMod(h.hashing(key), h.table.Length), h.hashing(key), key, h.maxdistance + 1);
    }

    method Continue(h: Hash) returns (d: Data)
      requires h.Ready() && search.slot < h.table.Length
      modifies this
      ensures var (s, b) := HashSearch.SearchBucket(h.table[..], old(search));
        search == s && d == if b == -1 then 0 else h.table[b].data
    {
      while search.maxscan > 0
        invariant search.slot < h.table.Length
        invariant HashSearch.SearchBucket(h.table[..], search) == HashSearch.SearchBucket(h.table[..], old(search))
        decreases search.maxscan
      {
        var slot := search.slot;
        var e := h.table[slot];
        var hit := e.len == |search.key| && e.hash == search.hash && EntryOf(e).key == search.key;
        SlotNextIsNext(h.table.Length, slot);
        search := search.(slot := FastMod(slot + 1, h.table.Length), maxscan := search.maxscan - 1);
        if hit {
          return e.data;
        }
      }
      search := search.(maxscan := TWO64 - 1);
      d := 0;
    }
  }
}
