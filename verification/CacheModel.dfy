/**
 The receiver's data cache as a value: one ring of `capacity` bytes, a cursor, and the
 deque of slot records in allocation order.  The deque is always "survivors of the previous
 lap" followed by "slots of the current lap"; the lemmas here say exactly when an
 allocation keeps it that way.
 */
module CacheModel {
  import opened Bytes
  import opened Options

  /** A slot record; `start` is the offset of its address from the start of the ring. */
  datatype Slot = Slot(id: nat, start: nat, size: nat, lock: nat) {
    function End(): nat { start + size }
  }

  /** `keepAway` is the product of the cache size and the keep-unlocked ratio. */
  datatype Cache = Cache(capacity: nat, keepAway: nat, cursor: nat, counter: nat, slots: seq<Slot>)

  predicate Intersects(left1: nat, right1: nat, left2: nat, right2: nat) {
    (left2 <= left1 < right2) || (left2 < right1 <= right2)
  }

  predicate Hit(s: Slot, lo: nat, hi: nat) {
    Intersects(s.start, s.End(), lo, hi)
  }

  // ---------------------------------------------------------------------------------------
  // Operations
  // ---------------------------------------------------------------------------------------

  /** The first index from `i` on whose slot does not meet [lo, hi), or the length. */
  function FirstMiss(slots: seq<Slot>, i: nat, lo: nat, hi: nat): (k: nat)
    requires i <= |slots|
    ensures i <= k <= |slots|
    ensures forall j | i <= j < k :: Hit(slots[j], lo, hi)
    ensures k < |slots| ==> !Hit(slots[k], lo, hi)
    decreases |slots| - i
  {
    if i == |slots| || !Hit(slots[i], lo, hi) then i else FirstMiss(slots, i + 1, lo, hi)
  }

  /** The first index from `i` on whose slot meets [lo, hi), or the length. */
  function FirstHit(slots: seq<Slot>, i: nat, lo: nat, hi: nat): (k: nat)
    requires i <= |slots|
    ensures i <= k <= |slots|
    ensures forall j | i <= j < k :: !Hit(slots[j], lo, hi)
    ensures k < |slots| ==> Hit(slots[k], lo, hi)
    decreases |slots| - i
  {
    if i == |slots| || Hit(slots[i], lo, hi) then i else FirstHit(slots, i + 1, lo, hi)
  }

  /**
   How many records at the front of the deque give way to a slot at [lo, hi): the front run
   of slots that meet it; when the slot starts at 0, everything up to and including the
   first run of slots that meet it.
   */
  function Doomed(slots: seq<Slot>, lo: nat, hi: nat): (k: nat)
    ensures k <= |slots|
  {
    if lo > 0 then FirstMiss(slots, 0, lo, hi)
    else
      var f := FirstHit(slots, 0, lo, hi);
      if f == |slots| then 0 else FirstMiss(slots, f, lo, hi)
  }

  predicate Unlocked(slots: seq<Slot>) {
    forall i | 0 <= i < |slots| :: slots[i].lock == 0
  }

  predicate Wraps(c: Cache, size: nat) {
    c.cursor + size > c.capacity
  }

  /** Where the next slot of this size starts. */
  function Place(c: Cache, size: nat): nat {
    if Wraps(c, size) then 0 else c.cursor
  }

  /** The number of records evicted if a slot of this size is granted. */
  function Evicted(c: Cache, size: nat): (k: nat)
    ensures k <= |c.slots|
  {
    Doomed(c.slots, Place(c, size), Place(c, size) + size)
  }

  /** An allocation is granted when it fits the ring and no record that must go is locked. */
  predicate Grants(c: Cache, size: nat) {
    size <= c.capacity && Unlocked(c.slots[..Evicted(c, size)])
  }

  /** The 64-bit id: the low 32 bits are the counter, the high ones the clock's low bits. */
  function MakeId(counter: nat, millis: nat): (id: nat)
    requires counter < WORD32
    ensures id % WORD32 == counter
  {
    (millis % WORD32) * WORD32 + counter
  }

  lemma IdHoldsClock(counter: nat, millis: nat)
    requires counter < WORD32
    ensures MakeId(counter, millis) / WORD32 == millis % WORD32
  {
  }

  function NextCounter(counter: nat): (r: nat)
    ensures r < WORD32
  {
    (counter + 1) % WORD32
  }

  function NewSlot(c: Cache, size: nat, millis: nat): Slot {
    Slot(MakeId(NextCounter(c.counter), millis), Place(c, size), size, 1)
  }

  function Allocate(c: Cache, size: nat, millis: nat): Cache {
    if !Grants(c, size) then c
    else c.(cursor := Place(c, size) + size,
            counter := NextCounter(c.counter),
            slots := c.slots[Evicted(c, size)..] + [NewSlot(c, size, millis)])
  }

  /** The distance the cursor still has to travel to reach the slot is below the limit. */
  predicate TooClose(c: Cache, s: Slot) {
    (if s.start > c.cursor then s.start - c.cursor else c.capacity - c.cursor + s.start) < c.keepAway
  }

  /** The first record with this id, or the length. */
  function Find(slots: seq<Slot>, id: nat): (k: nat)
    ensures k <= |slots|
    ensures forall j | 0 <= j < k :: slots[j].id != id
    ensures k < |slots| ==> slots[k].id == id
  {
    if slots == [] || slots[0].id == id then 0 else 1 + Find(slots[1..], id)
  }

  /** The index of the record a read lock is granted on. */
  function Readable(c: Cache, id: nat, size: nat): (r: Option<nat>)
    requires c.cursor <= c.capacity
    ensures r.Some? ==> r.value < |c.slots| && c.slots[r.value].id == id && c.slots[r.value].size == size
  {
    var k := Find(c.slots, id);
    if k == |c.slots| || c.slots[k].size != size || TooClose(c, c.slots[k]) then None else Some(k)
  }

  function WithLock(c: Cache, k: nat, lock: nat): Cache
    requires k < |c.slots|
  {
    c.(slots := c.slots[k := c.slots[k].(lock := lock)])
  }

  function Lock(c: Cache, k: nat): Cache
    requires k < |c.slots|
  {
    WithLock(c, k, c.slots[k].lock + 1)
  }

  function Unlock(c: Cache, k: nat): Cache
    requires k < |c.slots|
  {
    WithLock(c, k, if c.slots[k].lock > 0 then c.slots[k].lock - 1 else 0)
  }

  // ---------------------------------------------------------------------------------------
  // Two laps
  // ---------------------------------------------------------------------------------------

  /** Non-empty slots inside [lo, hi), one after the other. */
  predicate Ascending(slots: seq<Slot>, lo: nat, hi: nat) {
    && (forall i | 0 <= i < |slots| :: lo <= slots[i].start < slots[i].End() <= hi)
    && (forall i, j | 0 <= i < j < |slots| :: slots[i].End() <= slots[j].start)
  }

  /** Ascending slots that cover [lo, hi) without a gap. */
  predicate Tiles(slots: seq<Slot>, lo: nat, hi: nat) {
    && Ascending(slots, lo, hi)
    && (if slots == [] then lo == hi else slots[0].start == lo && slots[|slots| - 1].End() == hi)
    && (forall i, j | 0 <= i < j == i + 1 < |slots| :: slots[i].End() == slots[j].start)
  }

  /** The first `k` records survive from the previous lap, the others tile the current one. */
  predicate TwoLaps(c: Cache, k: nat) {
    && k <= |c.slots|
    && c.cursor <= c.capacity
    && Ascending(c.slots[..k], c.cursor, c.capacity)
    && Tiles(c.slots[k..], 0, c.cursor)
  }

  ghost predicate WellFormed(c: Cache) {
    exists k: nat :: TwoLaps(c, k)
  }

  predicate Apart(a: Slot, b: Slot) {
    a.End() <= b.start || b.End() <= a.start
  }

  /** Live slots lie inside the ring and no two of them share a byte. */
  predicate Disjoint(c: Cache) {
    && (forall i | 0 <= i < |c.slots| :: c.slots[i].End() <= c.capacity)
    && (forall i, j | 0 <= i < j < |c.slots| :: Apart(c.slots[i], c.slots[j]))
  }

  /**
   The one family of allocations that breaks the ring: it wraps to 0, it reaches beyond the
   old cursor, and survivors of the previous lap start both before and after its end.  The
   eviction scan stops at the first survivor after its end and never visits the current lap.
   */
  predicate StopsEarly(c: Cache, size: nat) {
    && Wraps(c, size)
    && size > c.cursor
    && (exists i :: 0 <= i < |c.slots| && c.cursor <= c.slots[i].start < size)
    && (exists i :: 0 <= i < |c.slots| && size <= c.slots[i].start)
  }

  lemma Assemble(c: Cache, survivors: seq<Slot>, lap: seq<Slot>)
    requires c.slots == survivors + lap && c.cursor <= c.capacity
    requires Ascending(survivors, c.cursor, c.capacity) && Tiles(lap, 0, c.cursor)
    ensures WellFormed(c)
  {
    assert c.slots[..|survivors|] == survivors && c.slots[|survivors|..] == lap;
    assert TwoLaps(c, |survivors|);
  }

  /** Dropping the slots that start before `lo'` leaves slots that ascend from there. */
  lemma Later(slots: seq<Slot>, lo: nat, hi: nat, e: nat, lo': nat)
    requires Ascending(slots, lo, hi) && e <= |slots|
    requires forall i | e <= i < |slots| :: lo' <= slots[i].start
    ensures forall hi' | hi <= hi' :: Ascending(slots[e..], lo', hi')
  {
  }

  lemma Extend(lap: seq<Slot>, hi: nat, slot: Slot)
    requires Tiles(lap, 0, hi) && slot.start == hi && slot.size > 0
    ensures Tiles(lap + [slot], 0, slot.End())
  {
  }

  /** The two laps index by index. */
  predicate Laid(c: Cache, k: nat) {
    && k <= |c.slots|
    && (forall i | 0 <= i < k :: c.cursor <= c.slots[i].start < c.slots[i].End() <= c.capacity)
    && (forall i | k <= i < |c.slots| :: c.slots[i].start < c.slots[i].End() <= c.cursor)
    && (forall i, j | 0 <= i < j < k :: c.slots[i].End() <= c.slots[j].start)
    && (forall i, j | k <= i < j < |c.slots| :: c.slots[i].End() <= c.slots[j].start)
    && (if c.cursor > 0 then k < |c.slots| && c.slots[k].start == 0 else k == |c.slots|)
  }

  lemma LapFacts(c: Cache, k: nat)
    requires TwoLaps(c, k)
    ensures Laid(c, k)
  {
    var survivors, lap := c.slots[..k], c.slots[k..];
    assert forall i | 0 <= i < k :: c.slots[i] == survivors[i];
    forall i | k <= i < |c.slots| ensures c.slots[i].start < c.slots[i].End() <= c.cursor {
      assert c.slots[i] == lap[i - k];
    }
    forall i, j | k <= i < j < |c.slots| ensures c.slots[i].End() <= c.slots[j].start {
      assert c.slots[i] == lap[i - k] && c.slots[j] == lap[j - k];
    }
  }

  lemma LaidIsDisjoint(c: Cache, k: nat)
    requires Laid(c, k) && c.cursor <= c.capacity
    ensures Disjoint(c)
  {
  }

  lemma WellFormedIsDisjoint(c: Cache)
    requires WellFormed(c)
    ensures Disjoint(c)
  {
    var k: nat :| TwoLaps(c, k);
    LapFacts(c, k);
    LaidIsDisjoint(c, k);
  }

  /** Without a wrap the survivors that start inside the new slot go, and nothing else. */
  lemma AheadEvicts(c: Cache, k: nat, size: nat)
    requires Laid(c, k) && 0 < size && !Wraps(c, size)
    ensures Evicted(c, size) <= k
    ensures forall i | Evicted(c, size) <= i < k :: c.cursor + size <= c.slots[i].start
  {
    var hi := c.cursor + size;
    forall i | 0 <= i < |c.slots| ensures Hit(c.slots[i], c.cursor, hi) <==> i < k && c.slots[i].start < hi { }
  }

  lemma AheadKeeps(c: Cache, k: nat, size: nat, millis: nat)
    requires TwoLaps(c, k) && 0 < size && !Wraps(c, size) && Grants(c, size)
    ensures WellFormed(Allocate(c, size, millis))
  {
    hide Doomed, MakeId, Unlocked;
    var e, slot := Evicted(c, size), NewSlot(c, size, millis);
    assert e <= k && forall i | e <= i < k :: c.cursor + size <= c.slots[i].start by {
      LapFacts(c, k);
      AheadEvicts(c, k, size);
    }
    Later(c.slots[..k], c.cursor, c.capacity, e, c.cursor + size);
    Extend(c.slots[k..], c.cursor, slot);
    Assemble(Allocate(c, size, millis), c.slots[..k][e..], c.slots[k..] + [slot]);
  }

  /** The scan's result from what each slot does: misses before `f`, hits from `f` up to `g`. */
  lemma ScanResult(slots: seq<Slot>, f: nat, g: nat, lo: nat, hi: nat)
    requires f < g <= |slots| && (lo == 0 || f == 0)
    requires forall i | 0 <= i < f :: !Hit(slots[i], lo, hi)
    requires forall i | f <= i < g :: Hit(slots[i], lo, hi)
    requires g < |slots| ==> !Hit(slots[g], lo, hi)
    ensures Doomed(slots, lo, hi) == g
  {
    assert Hit(slots[f], lo, hi);
  }

  /** A wrap that stays behind the old cursor drops the whole previous lap. */
  lemma WrapBehindEvicts(c: Cache, k: nat, size: nat)
    requires Laid(c, k) && 0 < size <= c.cursor && Wraps(c, size)
    ensures k <= Evicted(c, size)
    ensures forall i | Evicted(c, size) <= i < |c.slots| :: size <= c.slots[i].start
  {
    var g := FirstMiss(c.slots, k, 0, size);
    assert Hit(c.slots[k], 0, size);
    ScanResult(c.slots, k, g, 0, size);
  }

  lemma WrapBehindKeeps(c: Cache, k: nat, size: nat, millis: nat)
    requires TwoLaps(c, k) && 0 < size <= c.cursor && Wraps(c, size) && Grants(c, size)
    ensures WellFormed(Allocate(c, size, millis))
  {
    var e := Evicted(c, size);
    assert k <= e && forall i | e <= i < |c.slots| :: size <= c.slots[i].start by {
      LapFacts(c, k);
      WrapBehindEvicts(c, k, size);
    }
    Later(c.slots[k..], 0, c.cursor, e - k, size);
    Assemble(Allocate(c, size, millis), c.slots[k..][e - k..], [NewSlot(c, size, millis)]);
  }

  /** A wrap beyond the old cursor evicts everything, unless the scan stops early. */
  lemma WrapBeyondEvicts(c: Cache, k: nat, size: nat)
    requires Laid(c, k) && c.cursor < size <= c.capacity && Wraps(c, size)
    requires !StopsEarly(c, size)
    ensures Evicted(c, size) == |c.slots|
  {
    if i :| 0 <= i < |c.slots| && c.cursor <= c.slots[i].start < size {
      assert forall j | 0 <= j < |c.slots| :: c.slots[j].start < size;
      ScanResult(c.slots, 0, |c.slots|, 0, size);
    } else {
      ScanResult(c.slots, k, |c.slots|, 0, size);
    }
  }

  lemma WrapBeyondKeeps(c: Cache, k: nat, size: nat, millis: nat)
    requires TwoLaps(c, k) && c.cursor < size && Wraps(c, size) && Grants(c, size)
    requires !StopsEarly(c, size)
    ensures WellFormed(Allocate(c, size, millis))
  {
    LapFacts(c, k);
    WrapBeyondEvicts(c, k, size);
    Assemble(Allocate(c, size, millis), [], [NewSlot(c, size, millis)]);
  }

  lemma StopsBeforeLap(c: Cache, k: nat, size: nat)
    requires Laid(c, k) && StopsEarly(c, size)
    ensures Evicted(c, size) < k
  {
    var near :| 0 <= near < |c.slots| && c.cursor <= c.slots[near].start < size;
    var far :| 0 <= far < |c.slots| && size <= c.slots[far].start;
    assert Hit(c.slots[near], 0, size) && !Hit(c.slots[far], 0, size);
  }

  /** When the scan stops early, the new slot and the first slot of the current lap collide. */
  lemma StopsEarlyCollides(c: Cache, k: nat, size: nat, millis: nat)
    requires Evicted(c, size) < k < |c.slots| && Grants(c, size) && Wraps(c, size)
    requires c.slots[k].start == 0 < c.slots[k].size && 0 < size
    ensures !Disjoint(Allocate(c, size, millis))
  {
    var n := Allocate(c, size, millis);
    var i, j := k - Evicted(c, size), |n.slots| - 1;
    assert n.slots[i] == c.slots[k];
    assert !Apart(n.slots[i], n.slots[j]);
  }

  /**
   The exact boundary: a granted allocation keeps the two-lap shape, and keeps the slots
   disjoint, if and only if the eviction scan does not stop early.
   */
  lemma AllocateBoundary(c: Cache, size: nat, millis: nat)
    requires WellFormed(c) && 0 < size && Grants(c, size)
    ensures WellFormed(Allocate(c, size, millis)) <==> !StopsEarly(c, size)
    ensures Disjoint(Allocate(c, size, millis)) <==> !StopsEarly(c, size)
  {
    var k: nat :| TwoLaps(c, k);
    var n := Allocate(c, size, millis);
    if StopsEarly(c, size) {
      LapFacts(c, k);
      StopsBeforeLap(c, k, size);
      StopsEarlyCollides(c, k, size, millis);
      if WellFormed(n) { WellFormedIsDisjoint(n); }
    } else {
      if !Wraps(c, size) { AheadKeeps(c, k, size, millis); }
      else if size <= c.cursor { WrapBehindKeeps(c, k, size, millis); }
      else { WrapBeyondKeeps(c, k, size, millis); }
      WellFormedIsDisjoint(n);
    }
  }

  /** No allocation of at most half the ring, rounded up, can stop early. */
  lemma HalfRingNeverStopsEarly(c: Cache, size: nat)
    requires 2 * size <= c.capacity + 1
    ensures !StopsEarly(c, size)
  {
  }

  /** At most half the ring, rounded up, or all of it. */
  predicate FitsRing(capacity: nat, size: nat) {
    0 < size && (2 * size <= capacity + 1 || size >= capacity)
  }

  /** Nor can one of the whole ring, with slots in two laps. */
  lemma FittingNeverStopsEarly(c: Cache, size: nat)
    requires WellFormed(c) && FitsRing(c.capacity, size)
    ensures !StopsEarly(c, size)
  {
    var k: nat :| TwoLaps(c, k);
    LapFacts(c, k);
    if 2 * size <= c.capacity + 1 { HalfRingNeverStopsEarly(c, size); }
  }

  /** With no record locked every size up to the capacity is granted, and only those. */
  lemma UnlockedGrantsAll(c: Cache, size: nat)
    requires Unlocked(c.slots)
    ensures Grants(c, size) <==> size <= c.capacity
  {
  }

  // ---------------------------------------------------------------------------------------
  // Nothing is evicted without need
  // ---------------------------------------------------------------------------------------

  /** The record shares a byte with the slot that is asked for. */
  predicate InTheWay(c: Cache, size: nat, i: nat)
    requires i < |c.slots|
  {
    !Apart(c.slots[i], Slot(0, Place(c, size), size, 0))
  }

  lemma LastEvictedIsHit(c: Cache, size: nat)
    requires Evicted(c, size) > 0
    ensures Hit(c.slots[Evicted(c, size) - 1], Place(c, size), Place(c, size) + size)
  {
  }

  lemma HitIsInTheWay(c: Cache, size: nat, i: nat)
    requires i < |c.slots| && 0 < c.slots[i].size && 0 < size
    ensures Hit(c.slots[i], Place(c, size), Place(c, size) + size) ==> InTheWay(c, size, i)
  {
  }

  /** The last record evicted is in the way, and without a wrap every one is. */
  lemma EvictsOnlyInTheWay(c: Cache, size: nat)
    requires WellFormed(c) && 0 < size
    ensures Evicted(c, size) > 0 ==> InTheWay(c, size, Evicted(c, size) - 1)
    ensures Place(c, size) > 0 ==> forall i | 0 <= i < Evicted(c, size) :: InTheWay(c, size, i)
  {
    hide Ascending, Tiles;
    var k: nat :| TwoLaps(c, k);
    LapFacts(c, k);
    forall i | 0 <= i < |c.slots|
      ensures Hit(c.slots[i], Place(c, size), Place(c, size) + size) ==> InTheWay(c, size, i)
    {
      HitIsInTheWay(c, size, i);
    }
    if Evicted(c, size) > 0 { LastEvictedIsHit(c, size); }
  }

  /** What stays is out of the way, unless the scan stops early. */
  lemma LeavesNothingInTheWay(c: Cache, k: nat, size: nat)
    requires Laid(c, k) && 0 < size <= c.capacity && !StopsEarly(c, size)
    ensures forall i | Evicted(c, size) <= i < |c.slots| :: !InTheWay(c, size, i)
  {
    hide Evicted;
    if !Wraps(c, size) { AheadEvicts(c, k, size); }
    else if size <= c.cursor { WrapBehindEvicts(c, k, size); }
    else { WrapBeyondEvicts(c, k, size); }
  }

  /**
   Eviction is minimal: the records that go are those up to the last one in the way.  The
   last one evicted is always in the way; nothing in the way stays if and only if the scan
   does not stop early.
   */
  lemma EvictsExactly(c: Cache, size: nat)
    requires WellFormed(c) && 0 < size <= c.capacity
    ensures Evicted(c, size) > 0 ==> InTheWay(c, size, Evicted(c, size) - 1)
    ensures (forall i | Evicted(c, size) <= i < |c.slots| :: !InTheWay(c, size, i)) <==> !StopsEarly(c, size)
  {
    hide Ascending, Tiles;
    EvictsOnlyInTheWay(c, size);
    var k: nat :| TwoLaps(c, k);
    LapFacts(c, k);
    if StopsEarly(c, size) {
      StopsBeforeLap(c, k, size);
      assert InTheWay(c, size, k);
    } else {
      LeavesNothingInTheWay(c, k, size);
    }
  }

  // ---------------------------------------------------------------------------------------
  // How close the cursor may come to a slot that is read
  // ---------------------------------------------------------------------------------------

  /** The cursor stands at the start of the slot after `d` more bytes, round the ring. */
  predicate ComesAround(c: Cache, s: Slot, d: nat) {
    (c.cursor + d == s.start || c.cursor + d == s.start + c.capacity) && (d > 0 || c.cursor == c.capacity)
  }

  /** A slot is too close exactly when fewer than `keepAway` bytes bring the cursor round to it. */
  lemma TooCloseExactly(c: Cache, s: Slot)
    requires c.cursor <= c.capacity && s.start < c.capacity
    ensures TooClose(c, s) <==> exists d: nat | d < c.keepAway && d <= c.capacity :: ComesAround(c, s, d)
  {
    assert ComesAround(c, s, if s.start > c.cursor then s.start - c.cursor else c.capacity - c.cursor + s.start);
  }
}
