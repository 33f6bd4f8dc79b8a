/**
 The data cache as the receiver holds it: an object whose deque of slot records, cursor and
 counter are updated in place.  Every method is proved against the value model of
 `CacheModel`; an address is the offset of a byte in the ring.
 */
module DataCacheObject {
  import opened Bytes
  import opened Options
  import opened CacheModel

  class CacheMeta {
    const id: nat
    const start: nat
    const size: nat
    var lock: nat

    constructor (id: nat, start: nat, size: nat, lock: nat)
      ensures this.id == id && this.start == start && this.size == size && this.lock == lock
    {
      this.id, this.start, this.size, this.lock := id, start, size, lock;
    }

    function Record(): Slot
      reads this
    {
      Slot(id, start, size, lock)
    }
  }

  function Records(metas: seq<CacheMeta>): (r: seq<Slot>)
    reads metas
    ensures |r| == |metas|
    ensures forall i | 0 <= i < |metas| :: r[i] == metas[i].Record()
  {
    seq(|metas|, i requires 0 <= i < |metas| reads metas => metas[i].Record())
  }

  ghost predicate Distinct(metas: seq<CacheMeta>) {
    forall i, j | 0 <= i < j < |metas| :: metas[i] != metas[j]
  }

  lemma DistinctTail(metas: seq<CacheMeta>, k: nat)
    requires Distinct(metas) && k <= |metas|
    ensures Distinct(metas[k..])
  {
  }

  lemma DistinctWith(metas: seq<CacheMeta>, slot: CacheMeta)
    requires Distinct(metas) && slot !in metas
    ensures Distinct(metas + [slot])
  {
  }

  class DataCache {
    const cacheSize: nat
    const keepAway: nat
    var counter: nat
    var curPointer: nat
    var meta: seq<CacheMeta>

    /** The deque owns its records: no record appears in it twice. */
    ghost predicate Valid()
      reads this
    {
      && curPointer <= cacheSize
      && counter < WORD32
      && Distinct(meta)
    }

    function View(): Cache
      reads this, meta
    {
      Cache(cacheSize, keepAway, curPointer, counter, Records(meta))
    }

    constructor (cacheSize: nat, keepAway: nat, random: nat)
      ensures Valid()
      ensures View() == Cache(cacheSize, keepAway, 0, random % 100 + 1, [])
    {
      this.cacheSize, this.keepAway := cacheSize, keepAway;
      counter, curPointer, meta := random % 100 + 1, 0, [];
    }

    /** The eviction scan: the index of the last record that must go, or -1. */
    method LastToDelete(lo: nat, hi: nat) returns (lastDel: int)
      ensures lastDel + 1 == Doomed(Records(meta), lo, hi)
    {
      lastDel := -1;
      var wasIntersecting := false;
      ghost var slots := Records(meta);
      var i := 0;
      while i < |meta|
        invariant 0 <= i <= |meta|
        invariant lastDel == if lo > 0 || wasIntersecting then i - 1 else -1
        invariant Doomed(slots, lo, hi) ==
                  if lo > 0 || wasIntersecting then FirstMiss(slots, i, lo, hi)
                  else var f := FirstHit(slots, i, lo, hi);
                    if f == |slots| then 0 else FirstMiss(slots, f, lo, hi)
      {
        var start := meta[i].start;
        assert slots[i] == meta[i].Record();
        if Intersects(start, start + meta[i].size, lo, hi) {
          lastDel := i;
          wasIntersecting := true;
        } else {
          if lo > 0 || wasIntersecting {
            break;
          }
        }
        i := i + 1;
      }
    }

    /** Evicts the records in the way of the slot that ends at the cursor, unless one is locked. */
    method CleanOldSlots(size: nat) returns (ok: bool)
      requires Valid() && size <= curPointer
      modifies this`meta
      ensures Valid()
      ensures
        var k := Doomed(old(Records(meta)), curPointer - size, curPointer);
        && (ok <==> Unlocked(old(Records(meta))[..k]))
        && meta == if ok then old(meta)[k..] else old(meta)
    {
      hide Distinct, Doomed;
      var lastDel := LastToDelete(curPointer - size, curPointer);
      ghost var front := Records(meta)[..lastDel + 1];
      var i := 0;
      while i <= lastDel
        invariant 0 <= i <= lastDel + 1
        invariant forall j | 0 <= j < i :: front[j].lock == 0
      {
        assert front[i] == meta[i].Record();
        if meta[i].lock > 0 {
          return false;
        }
        i := i + 1;
      }
      DistinctTail(meta, lastDel + 1);
      if lastDel >= 0 {
        meta := meta[lastDel + 1..];
      }
      return true;
    }

    method AllocateSlot(size: nat) returns (addr: Option<nat>)
      requires Valid() && size <= cacheSize
      modifies this`curPointer, this`meta
      ensures Valid()
      ensures addr == if Grants(old(View()), size) then Some(Place(old(View()), size)) else None
      ensures addr.None? ==> curPointer == old(curPointer) && meta == old(meta)
      ensures addr.Some? ==> curPointer == addr.value + size && meta == old(meta)[Evicted(old(View()), size)..]
    {
      hide Distinct, Doomed, Unlocked;
      var tmp := curPointer;
      if curPointer + size > cacheSize {
        curPointer := 0;
      }
      var start := curPointer;
      curPointer := curPointer + size;
      var ok := CleanOldSlots(size);
      if !ok {
        curPointer := tmp;
        return None;
      }
      return Some(start);
    }

    method GetNextId(millis: nat) returns (id: nat)
      requires counter < WORD32
      modifies this`counter
      ensures counter == NextCounter(old(counter)) && id == MakeId(counter, millis)
    {
      counter := (counter + 1) % WORD32;
      id := (millis % WORD32) * WORD32 + counter;
    }

    /** The new record is handed out locked once; a refusal leaves the cache as it was. */
    method GetFreeSlotAndLock(size: nat, millis: nat) returns (addr: Option<nat>, slot: CacheMeta?)
      requires Valid()
      modifies this
      ensures Valid()
      ensures View() == Allocate(old(View()), size, millis)
      ensures addr.Some? <==> Grants(old(View()), size)
      ensures addr.None? ==> slot == null && meta == old(meta)
      ensures addr.Some? ==> slot != null && fresh(slot) && slot == meta[|meta| - 1] && addr.value == slot.start
    {
      hide Doomed, Unlocked, MakeId, Distinct;
      slot := null;
      if !(size <= cacheSize) {
        return None, null;
      }
      addr := AllocateSlot(size);
      if addr.None? {
        return;
      }
      var id := GetNextId(millis);
      slot := new CacheMeta(id, addr.value, size, 1);
      ghost var rest := Records(meta);
      DistinctWith(meta, slot);
      meta := meta + [slot];
      assert Records(meta) == rest + [slot.Record()];
    }

    method SlotTooCloseToCurrentPointer(slot: CacheMeta) returns (close: bool)
      requires Valid()
      ensures close <==> TooClose(View(), slot.Record())
    {
      var dist;
      if slot.start > curPointer {
        dist := slot.start - curPointer;
      } else {
        dist := cacheSize - curPointer + slot.start;
      }
      return dist < keepAway;
    }

    /**
     Locks the record with this id for reading.  When the record is refused, for its size or
     for being too close to the cursor, the caller's `slot` is left as it was; when there is
     no such record it becomes null.
     */
    method GetSlotToReadAndLock(id: nat, dataSize: nat, slotIn: CacheMeta?)
      returns (addr: Option<nat>, slot: CacheMeta?)
      requires Valid()
      modifies meta
      ensures Valid()
      ensures
        match Readable(old(View()), id, dataSize)
        case None =>
          && addr == None && View() == old(View())
          && slot == if Find(old(Records(meta)), id) < |meta| then slotIn else null
        case Some(k) => addr == Some(meta[k].start) && slot == meta[k] && View() == Lock(old(View()), k)
    {
      var i := 0;
      ghost var slots := Records(meta);
      while i < |meta|
        invariant 0 <= i <= |meta| && Records(meta) == slots
        invariant forall j | 0 <= j < i :: slots[j].id != id
      {
        if meta[i].id == id {
          assert Find(slots, id) == i;
          if dataSize != meta[i].size {
            return None, slotIn;
          }
          var close := SlotTooCloseToCurrentPointer(meta[i]);
          if close {
            return None, slotIn;
          }
          meta[i].lock := meta[i].lock + 1;
          slot := meta[i];
          assert Records(meta) == slots[i := slots[i].(lock := slots[i].lock + 1)];
          return Some(slot.start), slot;
        }
        i := i + 1;
      }
      return None, null;
    }

    /** Releases one lock of a record that is still in the deque; the count never goes below 0. */
    method UnlockSlot(slot: CacheMeta?) returns (ok: bool)
      requires Valid() && (slot != null ==> slot in meta)
      modifies slot
      ensures Valid() && meta == old(meta)
      ensures ok <==> slot != null
      ensures slot == null ==> View() == old(View())
      ensures forall k | 0 <= k < |meta| && meta[k] == slot :: View() == Unlock(old(View()), k)
    {
      if slot == null {
        return false;
      }
      ghost var slots := Records(meta);
      slot.lock := if slot.lock - 1 < 0 then 0 else slot.lock - 1;
      forall k | 0 <= k < |meta| && meta[k] == slot
        ensures Records(meta) == slots[k := slot.Record()]
      {
      }
      return true;
    }
  }
}
