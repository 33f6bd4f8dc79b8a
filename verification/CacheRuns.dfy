/**
 Whole runs of the data cache: any interleaving of allocations, writes through a granted
 handle, read locks and releases.  A handle is the ordinal of its allocation; it stands for
 the pointer to the slot record that the source hands out.
 */
module CacheRuns {
  import opened Bytes
  import opened CacheModel

  /**
   `granted` lists every slot ever granted, `held` the handles granted and not yet released,
   `contents` what the holder of each handle wrote over the bytes it found.
   */
  datatype World = World(
    cache: Cache,
    first: nat,
    granted: seq<Slot>,
    held: multiset<nat>,
    memory: seq<Byte>,
    contents: seq<seq<Byte>>)
  {
    function Base(): int { |granted| - |cache.slots| }

    predicate Live(h: nat) { Base() <= h < |granted| }
  }

  datatype Op =
    | Grant(size: nat, millis: nat)
    | Fill(handle: nat, offset: nat, bytes: seq<Byte>)
    | ReadLock(id: nat, dataSize: nat)
    | Release(handle: nat)

  function Splice(s: seq<Byte>, at: nat, bytes: seq<Byte>): (r: seq<Byte>)
    requires at + |bytes| <= |s|
    ensures |r| == |s|
    ensures forall i | 0 <= i < |s| :: r[i] == if at <= i < at + |bytes| then bytes[i - at] else s[i]
  {
    s[..at] + bytes + s[at + |bytes|..]
  }

  function Init(capacity: nat, keepAway: nat, first: nat, memory: seq<Byte>): World {
    World(Cache(capacity, keepAway, 0, first % WORD32, []), first, [], multiset{}, memory, [])
  }

  /** What a client may do: write only through a held handle and inside its slot, release only what it holds. */
  predicate Allowed(w: World, op: Op) {
    match op
    case Grant(_, _) => true
    case ReadLock(_, _) => true
    case Fill(h, at, bytes) => h in w.held && h < |w.granted| && at + |bytes| <= w.granted[h].size
    case Release(h) => h in w.held
  }

  /** Every grant so far lies inside the ring, with contents of its size. */
  ghost predicate Ledger(w: World) {
    && w.cache.cursor <= w.cache.capacity == |w.memory|
    && |w.contents| == |w.granted|
    && (forall h: nat | h < |w.granted| ::
          w.granted[h].End() <= w.cache.capacity && |w.contents[h]| == w.granted[h].size)
  }

  /** The low 32 bits of the ids count the grants, modulo 2^32. */
  ghost predicate Numbered(w: World) {
    && w.cache.counter == (w.first + |w.granted|) % WORD32
    && (forall h: nat | h < |w.granted| :: w.granted[h].id % WORD32 == (w.first + h + 1) % WORD32)
  }

  /**
   The deque is the tail of the grants, each with a lock count equal to the number of
   outstanding handles on it; no handle is outstanding on a slot that is gone.
   */
  ghost predicate LocksMatch(w: World) {
    && w.Base() >= 0
    && (forall k | 0 <= k < |w.cache.slots| ::
          w.cache.slots[k] == w.granted[w.Base() + k].(lock := w.held[w.Base() + k]))
    && (forall h: nat | h in w.held :: w.Live(h))
  }

  ghost predicate Tracks(w: World) {
    Ledger(w) && Numbered(w) && LocksMatch(w)
  }

  function Step(w: World, op: Op): World
    requires Tracks(w) && Allowed(w, op)
  {
    match op
    case Grant(size, millis) =>
      if !Grants(w.cache, size) then w
      else
        var slot := NewSlot(w.cache, size, millis);
        w.(cache := Allocate(w.cache, size, millis),
           granted := w.granted + [slot],
           held := w.held + multiset{|w.granted|},
           contents := w.contents + [w.memory[slot.start..slot.End()]])
    case Fill(h, at, bytes) =>
      w.(memory := Splice(w.memory, w.granted[h].start + at, bytes),
         contents := w.contents[h := Splice(w.contents[h], at, bytes)])
    case ReadLock(id, size) =>
      (match Readable(w.cache, id, size)
       case None => w
       case Some(k) => w.(cache := Lock(w.cache, k), held := w.held + multiset{w.Base() + k}))
    case Release(h) =>
      w.(cache := Unlock(w.cache, h - w.Base()), held := w.held - multiset{h})
  }

  // ---------------------------------------------------------------------------------------
  // Lock safety, for every size
  // ---------------------------------------------------------------------------------------

  /** A handle that is still held is never evicted. */
  lemma GrantSparesHeld(w: World, size: nat)
    requires LocksMatch(w) && Grants(w.cache, size)
    ensures forall h: nat | h in w.held :: w.Base() + Evicted(w.cache, size) <= h
  {
    var e := Evicted(w.cache, size);
    forall k | 0 <= k < e ensures w.cache.slots[k].lock == 0 {
      assert w.cache.slots[..e][k] == w.cache.slots[k];
    }
    forall h: nat | h in w.held ensures w.Base() + e <= h {
      assert w.cache.slots[h - w.Base()].lock == w.held[h];
    }
  }

  lemma GrantKeepsLocks(w: World, size: nat, millis: nat)
    requires Tracks(w) && Grants(w.cache, size)
    ensures LocksMatch(Step(w, Grant(size, millis)))
  {
    GrantSparesHeld(w, size);
    var n := Step(w, Grant(size, millis));
    assert n.Base() == w.Base() + Evicted(w.cache, size);
    assert w.held[|w.granted|] == 0;
    forall k | 0 <= k < |n.cache.slots|
      ensures n.cache.slots[k] == n.granted[n.Base() + k].(lock := n.held[n.Base() + k])
    {
      if k < |n.cache.slots| - 1 {
        assert n.cache.slots[k] == w.cache.slots[k + Evicted(w.cache, size)];
      }
    }
  }

  lemma GrantKeepsLedger(w: World, size: nat, millis: nat)
    requires Tracks(w) && Grants(w.cache, size)
    ensures Ledger(Step(w, Grant(size, millis)))
  {
    hide Numbered, LocksMatch;
  }

  lemma GrantKeepsNumbers(w: World, size: nat, millis: nat)
    requires Tracks(w) && Grants(w.cache, size)
    ensures Numbered(Step(w, Grant(size, millis)))
  {
    hide Ledger, LocksMatch;
    assert NextCounter(w.cache.counter) == (w.first + |w.granted| + 1) % WORD32;
  }

  lemma FillTracks(w: World, h: nat, at: nat, bytes: seq<Byte>)
    requires Tracks(w) && Allowed(w, Fill(h, at, bytes))
    ensures Tracks(Step(w, Fill(h, at, bytes)))
  {
  }

  /** Changing the lock count of one live record along with its outstanding handles. */
  lemma RelockTracks(w: World, n: World, k: nat, lock: nat)
    requires LocksMatch(w) && k < |w.cache.slots|
    requires n.cache.slots == w.cache.slots[k := w.cache.slots[k].(lock := lock)] && n.granted == w.granted
    requires n.held == w.held[w.Base() + k := lock]
    ensures LocksMatch(n)
  {
    assert n.Base() == w.Base();
  }

  lemma ReadLockTracks(w: World, id: nat, size: nat)
    requires Tracks(w)
    ensures Tracks(Step(w, ReadLock(id, size)))
  {
    var n, r := Step(w, ReadLock(id, size)), Readable(w.cache, id, size);
    assert Ledger(n);
    hide Ledger;
    if r.Some? { RelockTracks(w, n, r.value, w.cache.slots[r.value].lock + 1); }
  }

  lemma ReleaseTracks(w: World, h: nat)
    requires Tracks(w) && h in w.held
    ensures Tracks(Step(w, Release(h)))
  {
    var n := Step(w, Release(h));
    assert Ledger(n);
    hide Ledger;
    RelockTracks(w, n, h - w.Base(), w.held[h] - 1);
  }

  lemma StepTracks(w: World, op: Op)
    requires Tracks(w) && Allowed(w, op)
    ensures Tracks(Step(w, op))
  {
    hide Ledger, Numbered, LocksMatch;
    match op
    case Grant(size, millis) =>
      if Grants(w.cache, size) {
        GrantKeepsLocks(w, size, millis);
        GrantKeepsLedger(w, size, millis);
        GrantKeepsNumbers(w, size, millis);
      }
    case Fill(h, at, bytes) => FillTracks(w, h, at, bytes);
    case ReadLock(id, size) => ReadLockTracks(w, id, size);
    case Release(h) => ReleaseTracks(w, h);
  }

  ghost predicate Legal(w: World, ops: seq<Op>)
    requires Tracks(w)
    decreases |ops|
  {
    ops == [] || (Allowed(w, ops[0]) && (StepTracks(w, ops[0]); Legal(Step(w, ops[0]), ops[1..])))
  }

  /** In every run the bookkeeping holds, whatever the sizes. */
  function Run(w: World, ops: seq<Op>): (n: World)
    requires Tracks(w) && Legal(w, ops)
    ensures Tracks(n)
    ensures n.first == w.first && n.cache.capacity == w.cache.capacity && w.granted <= n.granted
    decreases |ops|
  {
    if ops == [] then w else StepTracks(w, ops[0]); Run(Step(w, ops[0]), ops[1..])
  }

  /**
   Lock safety in every run from an empty cache: lock counts are outstanding handles, a
   handle that is still held is live (so a release or a write never touches a dead record),
   and the live records are the last grants, in order.
   */
  lemma RunsAreLockSafe(capacity: nat, keepAway: nat, first: nat, memory: seq<Byte>, ops: seq<Op>)
    requires |memory| == capacity && Legal(Init(capacity, keepAway, first, memory), ops)
    ensures
      var w := Run(Init(capacity, keepAway, first, memory), ops);
      && w.Base() >= 0
      && (forall h: nat | h in w.held :: w.Live(h))
      && (forall k | 0 <= k < |w.cache.slots| ::
            w.cache.slots[k] == w.granted[w.Base() + k].(lock := w.held[w.Base() + k]))
  {
    hide Run, Legal, Step;
    InitAgrees(capacity, keepAway, first, memory);
  }

  /** A refused allocation changes nothing; it is refused only for size or for a lock. */
  lemma RefusalChangesNothing(w: World, size: nat, millis: nat)
    requires Tracks(w) && size <= w.cache.capacity
    ensures !Grants(w.cache, size) ==>
              && Step(w, Grant(size, millis)) == w
              && exists h: nat :: w.Base() <= h < w.Base() + Evicted(w.cache, size) && h in w.held
    ensures w.held == multiset{} ==> Grants(w.cache, size)
  {
    if !Grants(w.cache, size) {
      var front := w.cache.slots[..Evicted(w.cache, size)];
      var k :| 0 <= k < |front| && front[k].lock != 0;
      assert w.cache.slots[k].lock == w.held[w.Base() + k];
      assert w.Base() + k in w.held;
    }
  }

  // ---------------------------------------------------------------------------------------
  // Identifiers
  // ---------------------------------------------------------------------------------------

  lemma DistinctResidues(a: nat, b: nat)
    requires a < b < a + WORD32
    ensures a % WORD32 != b % WORD32
  {
  }

  /** Whatever the clock does and however often the counter wraps, live ids are distinct. */
  lemma LiveIdsDistinct(w: World, i: nat, j: nat)
    requires Tracks(w) && |w.cache.slots| <= WORD32
    requires i < j < |w.cache.slots|
    ensures w.cache.slots[i].id != w.cache.slots[j].id
  {
    var b := w.Base();
    assert w.cache.slots[i].id == w.granted[b + i].id && w.cache.slots[j].id == w.granted[b + j].id;
    DistinctResidues(w.first + b + i + 1, w.first + b + j + 1);
  }

  /** Looking up the id of a live slot finds that slot. */
  lemma FindsTheOwner(w: World, k: nat)
    requires Tracks(w) && |w.cache.slots| <= WORD32 && k < |w.cache.slots|
    ensures Find(w.cache.slots, w.cache.slots[k].id) == k
  {
    var f := Find(w.cache.slots, w.cache.slots[k].id);
    if f < k { LiveIdsDistinct(w, f, k); }
  }

  // ---------------------------------------------------------------------------------------
  // The ring agrees with what the owners wrote
  // ---------------------------------------------------------------------------------------

  predicate Faithful(w: World, h: nat)
    requires h < |w.granted| && |w.contents| == |w.granted|
  {
    w.granted[h].End() <= |w.memory| && w.memory[w.granted[h].start..w.granted[h].End()] == w.contents[h]
  }

  /** The deque has its two-lap shape and every live slot still holds its owner's bytes. */
  ghost predicate Agrees(w: World) {
    && WellFormed(w.cache)
    && |w.contents| == |w.granted|
    && (forall h: nat | h < |w.granted| && w.Live(h) :: Faithful(w, h))
  }

  lemma LockKeepsShape(c: Cache, k: nat, lock: nat)
    requires WellFormed(c) && k < |c.slots|
    ensures WellFormed(WithLock(c, k, lock))
  {
    hide Ascending, Tiles;
    var b: nat :| TwoLaps(c, b);
    var slots := WithLock(c, k, lock).slots;
    SameShape(c.slots[..b], slots[..b], c.cursor, c.capacity);
    SameShape(c.slots[b..], slots[b..], 0, c.cursor);
    Assemble(WithLock(c, k, lock), slots[..b], slots[b..]);
  }

  lemma SameShape(s: seq<Slot>, t: seq<Slot>, lo: nat, hi: nat)
    requires |s| == |t| && forall i | 0 <= i < |s| :: s[i].start == t[i].start && s[i].size == t[i].size
    ensures Ascending(s, lo, hi) ==> Ascending(t, lo, hi)
    ensures Tiles(s, lo, hi) ==> Tiles(t, lo, hi)
  {
    assert forall i | 0 <= i < |s| :: s[i].End() == t[i].End();
  }

  lemma GrantAgrees(w: World, size: nat, millis: nat)
    requires Tracks(w) && Agrees(w) && 0 < size && Grants(w.cache, size) && !StopsEarly(w.cache, size)
    ensures Agrees(Step(w, Grant(size, millis)))
  {
    AllocateBoundary(w.cache, size, millis);
    var n := Step(w, Grant(size, millis));
    forall h: nat | h < |n.granted| && n.Live(h) ensures Faithful(n, h) {
      if h < |w.granted| { assert w.Live(h) && Faithful(w, h); }
    }
  }

  lemma LiveApart(w: World, g: nat, h: nat)
    requires LocksMatch(w) && Disjoint(w.cache) && g != h && w.Live(g) && w.Live(h)
    ensures Apart(w.granted[g], w.granted[h])
  {
    var a, b := w.cache.slots[g - w.Base()], w.cache.slots[h - w.Base()];
    assert Apart(a, b) || Apart(b, a);
  }

  lemma SpliceApart(w: World, at: nat, bytes: seq<Byte>, lo: nat, hi: nat)
    requires at + |bytes| <= |w.memory| && lo <= hi <= |w.memory|
    requires hi <= at || at + |bytes| <= lo
    ensures Splice(w.memory, at, bytes)[lo..hi] == w.memory[lo..hi]
  {
  }

  lemma SpliceInside(s: seq<Byte>, lo: nat, hi: nat, at: nat, bytes: seq<Byte>)
    requires lo <= hi <= |s| && at + |bytes| <= hi - lo
    ensures Splice(s, lo + at, bytes)[lo..hi] == Splice(s[lo..hi], at, bytes)
  {
  }

  /** A write through one handle leaves the bytes of every other live slot alone. */
  lemma FillAgrees(w: World, h: nat, at: nat, bytes: seq<Byte>)
    requires Tracks(w) && Agrees(w) && Allowed(w, Fill(h, at, bytes))
    ensures Agrees(Step(w, Fill(h, at, bytes)))
  {
    WellFormedIsDisjoint(w.cache);
    var n := Step(w, Fill(h, at, bytes));
    var mine := w.granted[h];
    forall g: nat | g < |n.granted| && n.Live(g) ensures Faithful(n, g) {
      assert w.Live(g) && Faithful(w, g);
      if g == h { SpliceInside(w.memory, mine.start, mine.End(), at, bytes); }
      else {
        LiveApart(w, g, h);
        SpliceApart(w, mine.start + at, bytes, w.granted[g].start, w.granted[g].End());
      }
    }
  }

  lemma InitAgrees(capacity: nat, keepAway: nat, first: nat, memory: seq<Byte>)
    requires |memory| == capacity
    ensures Tracks(Init(capacity, keepAway, first, memory)) && Agrees(Init(capacity, keepAway, first, memory))
  {
    assert TwoLaps(Init(capacity, keepAway, first, memory).cache, 0);
  }

  lemma AgreesIsDisjoint(w: World)
    requires Agrees(w)
    ensures Disjoint(w.cache)
  {
    WellFormedIsDisjoint(w.cache);
  }

  /** Every allocation of the run is non-empty and, if granted, does not stop its scan early. */
  ghost predicate Calm(w: World, ops: seq<Op>)
    requires Tracks(w) && Legal(w, ops)
    decreases |ops|
  {
    ops == [] ||
    (&& (ops[0].Grant? ==> 0 < ops[0].size && (Grants(w.cache, ops[0].size) ==> !StopsEarly(w.cache, ops[0].size)))
     && (StepTracks(w, ops[0]); Calm(Step(w, ops[0]), ops[1..])))
  }

  lemma LockAgrees(w: World, n: World, k: nat, lock: nat)
    requires Agrees(w) && k < |w.cache.slots| && n.cache == WithLock(w.cache, k, lock)
    requires n.granted == w.granted && n.memory == w.memory && n.contents == w.contents
    ensures Agrees(n)
  {
    LockKeepsShape(w.cache, k, lock);
    SameContents(w, n);
  }

  lemma ReadLockAgrees(w: World, id: nat, size: nat)
    requires Tracks(w) && Agrees(w)
    ensures Agrees(Step(w, ReadLock(id, size)))
  {
    var r := Readable(w.cache, id, size);
    hide Agrees, Ledger;
    if r.Some? { LockAgrees(w, Step(w, ReadLock(id, size)), r.value, w.cache.slots[r.value].lock + 1); }
  }

  lemma ReleaseAgrees(w: World, h: nat)
    requires Tracks(w) && Agrees(w) && h in w.held
    ensures Agrees(Step(w, Release(h)))
  {
    hide Agrees, Ledger;
    LockAgrees(w, Step(w, Release(h)), h - w.Base(), w.held[h] - 1);
  }

  lemma StepAgrees(w: World, op: Op)
    requires Tracks(w) && Allowed(w, op) && Agrees(w)
    requires op.Grant? && Grants(w.cache, op.size) ==> 0 < op.size && !StopsEarly(w.cache, op.size)
    ensures Agrees(Step(w, op))
  {
    hide Agrees, Tracks, Grants, StopsEarly;
    match op
    case Grant(size, millis) => if Grants(w.cache, size) { GrantAgrees(w, size, millis); }
    case Fill(h, at, bytes) => FillAgrees(w, h, at, bytes);
    case ReadLock(id, size) => ReadLockAgrees(w, id, size);
    case Release(h) => ReleaseAgrees(w, h);
  }

  lemma SameContents(w: World, n: World)
    requires Agrees(w) && WellFormed(n.cache) && |n.cache.slots| == |w.cache.slots|
    requires n.granted == w.granted && n.memory == w.memory && n.contents == w.contents
    ensures Agrees(n)
  {
    forall h: nat | h < |n.granted| && n.Live(h) ensures Faithful(n, h) {
      assert w.Live(h) && Faithful(w, h);
    }
  }

  lemma {:induction false} CalmRunsAgree(w: World, ops: seq<Op>)
    requires Tracks(w) && Legal(w, ops) && Agrees(w) && Calm(w, ops)
    ensures Agrees(Run(w, ops))
    decreases |ops|
  {
    if ops != [] {
      StepTracks(w, ops[0]);
      StepAgrees(w, ops[0]);
      CalmRunsAgree(Step(w, ops[0]), ops[1..]);
    }
  }

  lemma {:induction false} FittingRunsAreCalm(w: World, ops: seq<Op>)
    requires Tracks(w) && Legal(w, ops) && Agrees(w)
    requires forall i | 0 <= i < |ops| :: ops[i].Grant? ==> FitsRing(w.cache.capacity, ops[i].size)
    ensures Calm(w, ops)
    decreases |ops|
  {
    if ops != [] {
      hide Agrees, StopsEarly, Tracks, Grants, Step, FitsRing, Allowed;
      StepTracks(w, ops[0]);
      if ops[0].Grant? { AgreesNeverStopsEarly(w, ops[0].size); }
      StepAgrees(w, ops[0]);
      StepKeepsCapacity(w, ops[0]);
      FittingRunsAreCalm(Step(w, ops[0]), ops[1..]);
    }
  }

  lemma StepKeepsCapacity(w: World, op: Op)
    requires Tracks(w) && Allowed(w, op)
    ensures Step(w, op).cache.capacity == w.cache.capacity
  {
    hide Tracks, Grants;
  }

  lemma AgreesNeverStopsEarly(w: World, size: nat)
    requires Agrees(w) && FitsRing(w.cache.capacity, size)
    ensures !StopsEarly(w.cache, size) && size > 0
  {
    FittingNeverStopsEarly(w.cache, size);
  }

  /** The slot a granted read lock names is the only live one with that id and holds its owner's bytes. */
  ghost predicate ReadsOwnersBytes(w: World, id: nat, size: nat)
    requires Tracks(w)
  {
    Readable(w.cache, id, size).Some? ==>
      var h := w.Base() + Readable(w.cache, id, size).value;
      && w.Live(h) && w.granted[h].id == id
      && w.memory[w.granted[h].start..w.granted[h].End()] == w.contents[h]
      && (|w.cache.slots| <= WORD32 ==>
            forall g: nat | w.Live(g) && w.granted[g].id == id :: g == h)
  }

  lemma OwnerIsUnique(w: World, id: nat, g: nat)
    requires Tracks(w) && |w.cache.slots| <= WORD32 && w.Live(g) && w.granted[g].id == id
    ensures w.Base() + Find(w.cache.slots, id) == g
  {
    hide Ledger;
    FindsTheOwner(w, g - w.Base());
  }

  lemma ReadableIsLive(w: World, id: nat, size: nat)
    requires Tracks(w) && Agrees(w) && Readable(w.cache, id, size).Some?
    ensures
      var h := w.Base() + Readable(w.cache, id, size).value;
      w.Live(h) && w.granted[h].id == id && Faithful(w, h)
  {
    hide Numbered, WellFormed, Faithful;
  }

  lemma ReadLockIsRight(w: World, id: nat, size: nat)
    requires Tracks(w) && Agrees(w)
    ensures ReadsOwnersBytes(w, id, size)
  {
    hide Numbered, LocksMatch, WellFormed, Find;
    if Readable(w.cache, id, size).Some? {
      ReadableIsLive(w, id, size);
      if |w.cache.slots| <= WORD32 {
        forall g: nat | w.Live(g) && w.granted[g].id == id
          ensures g == w.Base() + Readable(w.cache, id, size).value
        {
          OwnerIsUnique(w, id, g);
        }
      }
    }
  }

  /**
   Main result: after any run from an empty cache in which every allocation asks for at most
   half the ring, rounded up, or for all of it, live slots are disjoint and inside the ring, and a granted read lock is on
   the one live slot with that id and yields exactly the bytes its owner wrote.
   */
  lemma CacheRefinesMap(capacity: nat, keepAway: nat, first: nat, memory: seq<Byte>, ops: seq<Op>)
    requires |memory| == capacity && Legal(Init(capacity, keepAway, first, memory), ops)
    requires forall i | 0 <= i < |ops| :: ops[i].Grant? ==> FitsRing(capacity, ops[i].size)
    ensures Disjoint(Run(Init(capacity, keepAway, first, memory), ops).cache)
    ensures forall id: nat, size: nat :: ReadsOwnersBytes(Run(Init(capacity, keepAway, first, memory), ops), id, size)
  {
    hide Tracks, Agrees, Legal, Calm, Run, ReadsOwnersBytes, Disjoint;
    var w0 := Init(capacity, keepAway, first, memory);
    InitAgrees(capacity, keepAway, first, memory);
    FittingRunsAreCalm(w0, ops);
    CalmRunsAgree(w0, ops);
    var w := Run(w0, ops);
    AgreesIsDisjoint(w);
    forall id: nat, size: nat ensures ReadsOwnersBytes(w, id, size) {
      ReadLockIsRight(w, id, size);
    }
  }

  // ---------------------------------------------------------------------------------------
  // Which slots give way, and which can be read
  // ---------------------------------------------------------------------------------------

  /** Some slot granted no earlier than `h` and still live shares a byte with `slot`. */
  ghost predicate GivesWay(w: World, h: nat, slot: Slot) {
    exists g: nat | h <= g && w.Live(g) :: !Apart(w.granted[g], slot)
  }

  lemma SameBytes(w: World, g: nat, size: nat, millis: nat)
    requires LocksMatch(w) && w.Live(g)
    ensures Apart(w.granted[g], NewSlot(w.cache, size, millis)) <==> !InTheWay(w.cache, size, g - w.Base())
  {
    var k := g - w.Base();
    assert w.cache.slots[k] == w.granted[w.Base() + k].(lock := w.held[w.Base() + k]);
  }

  /**
   A granted slot ends exactly the slots that are in its way or older than one that is,
   if and only if its scan does not stop early; it never ends any other.
   */
  lemma GrantEndsExactly(w: World, size: nat, millis: nat)
    requires Tracks(w) && Agrees(w) && 0 < size && Grants(w.cache, size)
    ensures
      var n, slot := Step(w, Grant(size, millis)), NewSlot(w.cache, size, millis);
      && (forall h: nat | w.Live(h) && !n.Live(h) :: GivesWay(w, h, slot))
      && ((forall h: nat | w.Live(h) :: !n.Live(h) <==> GivesWay(w, h, slot)) <==> !StopsEarly(w.cache, size))
  {
    hide Ledger, Numbered, WellFormed, Evicted, InTheWay, StopsEarly, MakeId;
    EvictsExactly(w.cache, size);
    var n, slot, e := Step(w, Grant(size, millis)), NewSlot(w.cache, size, millis), Evicted(w.cache, size);
    assert n.Base() == w.Base() + e;
    forall g: nat | w.Live(g) ensures Apart(w.granted[g], slot) <==> !InTheWay(w.cache, size, g - w.Base()) {
      SameBytes(w, g, size, millis);
    }
    if e > 0 {
      var last := w.Base() + e - 1;
      assert w.Live(last) && !Apart(w.granted[last], slot);
    }
    if StopsEarly(w.cache, size) {
      var i: nat :| e <= i < |w.cache.slots| && InTheWay(w.cache, size, i);
      var g := w.Base() + i;
      assert w.Live(g) && n.Live(g) && GivesWay(w, g, slot);
    }
  }

  /** In every run of fitting sizes, the next slot that is granted ends only what stands in its way. */
  lemma RunsSpareTheRest(capacity: nat, keepAway: nat, first: nat, memory: seq<Byte>, ops: seq<Op>, size: nat, millis: nat)
    requires |memory| == capacity && Legal(Init(capacity, keepAway, first, memory), ops)
    requires forall i | 0 <= i < |ops| :: ops[i].Grant? ==> FitsRing(capacity, ops[i].size)
    ensures
      var w := Run(Init(capacity, keepAway, first, memory), ops);
      FitsRing(capacity, size) && Grants(w.cache, size) ==>
        var n := Step(w, Grant(size, millis));
        forall h: nat | w.Live(h) :: !n.Live(h) <==> GivesWay(w, h, n.granted[|w.granted|])
  {
    hide Tracks, Agrees, Legal, Calm, Run, Grants, GivesWay, StopsEarly, WellFormed;
    var w0 := Init(capacity, keepAway, first, memory);
    InitAgrees(capacity, keepAway, first, memory);
    FittingRunsAreCalm(w0, ops);
    CalmRunsAgree(w0, ops);
    var w := Run(w0, ops);
    if FitsRing(capacity, size) && Grants(w.cache, size) {
      GrantEndsExactly(w, size, millis);
      AgreesNeverStopsEarly(w, size);
    }
  }

  /**
   A read lock is granted exactly on a live slot of the size asked for that the cursor does
   not reach within `keepAway` bytes, and adds one handle on it; else nothing changes.
   */
  lemma ReadLocksExactly(w: World, g: nat, id: nat, size: nat)
    requires Tracks(w) && Agrees(w) && |w.cache.slots| <= WORD32
    ensures
      w.Live(g) && w.granted[g].id == id ==>
        if w.granted[g].size == size &&
           !(exists d: nat | d < w.cache.keepAway && d <= w.cache.capacity :: ComesAround(w.cache, w.granted[g], d))
        then Step(w, ReadLock(id, size)).held == w.held + multiset{g}
        else Step(w, ReadLock(id, size)) == w
    ensures (forall h: nat | w.Live(h) :: w.granted[h].id != id) ==> Step(w, ReadLock(id, size)) == w
  {
    hide Ledger, Numbered, WellFormed, Find, TooClose, Lock;
    if w.Live(g) && w.granted[g].id == id {
      OwnerIsUnique(w, id, g);
      var s := w.cache.slots[g - w.Base()];
      StartsInside(w, g);
      TooCloseExactly(w.cache, s);
      assert forall d: nat :: ComesAround(w.cache, s, d) <==> ComesAround(w.cache, w.granted[g], d);
    }
    var k := Find(w.cache.slots, id);
    if k < |w.cache.slots| { assert w.Live(w.Base() + k) && w.granted[w.Base() + k].id == id; }
  }

  lemma StartsInside(w: World, g: nat)
    requires Tracks(w) && Agrees(w) && w.Live(g)
    ensures w.cache.slots[g - w.Base()].start < w.cache.capacity && w.cache.cursor <= w.cache.capacity
  {
    hide Ledger, Numbered;
    var k: nat :| TwoLaps(w.cache, k);
    LapFacts(w.cache, k);
  }

  // ---------------------------------------------------------------------------------------
  // Without the limit on sizes slots do collide
  // ---------------------------------------------------------------------------------------

  lemma {:induction false} RunAppend(w: World, a: seq<Op>, b: seq<Op>)
    requires Tracks(w) && Legal(w, a) && Legal(Run(w, a), b)
    ensures Legal(w, a + b) && Run(w, a + b) == Run(Run(w, a), b)
    decreases |a|
  {
    hide Tracks, Step, Allowed;
    if a == [] {
      assert a + b == b;
    } else {
      StepTracks(w, a[0]);
      RunAppend(Step(w, a[0]), a[1..], b);
      assert (a + b)[1..] == a[1..] + b;
    }
  }

  /** A world with nothing held and slots of the given starts and sizes. */
  ghost predicate Quiet(w: World, capacity: nat, cursor: nat, layout: seq<(int, int)>) {
    && Tracks(w) && w.held == multiset{}
    && w.cache.capacity == capacity && w.cache.cursor == cursor
    && |w.cache.slots| == |layout|
    && (forall k | 0 <= k < |layout| :: w.cache.slots[k].start == layout[k].0 && w.cache.slots[k].size == layout[k].1)
  }

  /** One more slot granted and released at once; `gone` slots give way to it. */
  lemma GrantAndRelease(w: World, capacity: nat, cursor: nat, layout: seq<(int, int)>, size: nat, gone: nat)
    returns (ops: seq<Op>, n: World)
    requires Quiet(w, capacity, cursor, layout) && 0 < size <= capacity && Evicted(w.cache, size) == gone
    ensures Bounded(ops, size)
    ensures Quiet(n, capacity, Place(w.cache, size) + size, layout[gone..] + [(Place(w.cache, size), size)])
    ensures Legal(w, ops) && Run(w, ops) == n
  {
    hide Numbered, Ledger, Evicted, Unlocked, MakeId;
    RefusalChangesNothing(w, size, 0);
    ops := [Grant(size, 0), Release(|w.granted|)];
    StepTracks(w, Grant(size, 0));
    var m := Step(w, Grant(size, 0));
    assert |w.granted| in m.held;
    StepTracks(m, Release(|w.granted|));
    n := Step(m, Release(|w.granted|));
    TwoSteps(w, ops[0], ops[1]);
  }

  lemma TwoSteps(w: World, a: Op, b: Op)
    requires Tracks(w) && Allowed(w, a) && Tracks(Step(w, a)) && Allowed(Step(w, a), b)
    ensures Legal(w, [a, b]) && Run(w, [a, b]) == Step(Step(w, a), b)
  {
    hide Tracks, Step, Allowed;
    var m := Step(w, a);
    StepTracks(m, b);
    assert Legal(Step(m, b), []) && Run(Step(m, b), []) == Step(m, b);
    assert [b][1..] == [] && Legal(m, [b]) && Run(m, [b]) == Step(m, b);
    assert [a, b][1..] == [b];
  }

  /** Every allocation asks for something, and for at most `limit` bytes. */
  predicate Bounded(ops: seq<Op>, limit: nat) {
    forall i | 0 <= i < |ops| :: ops[i].Grant? ==> 0 < ops[i].size <= limit
  }

  /** Some run with bounded allocations leads from one world to the other. */
  ghost predicate Reaches(w: World, n: World, limit: nat) {
    Tracks(w) && exists ops: seq<Op> :: Bounded(ops, limit) && Legal(w, ops) && Run(w, ops) == n
  }

  lemma ReachesFurther(w: World, m: World, ops: seq<Op>, limit: nat)
    requires Reaches(w, m, limit) && Tracks(m) && Legal(m, ops) && Bounded(ops, limit)
    ensures Reaches(w, Run(m, ops), limit)
  {
    hide Tracks, Legal, Run;
    var before :| Bounded(before, limit) && Legal(w, before) && Run(w, before) == m;
    RunAppend(w, before, ops);
    assert Bounded(before + ops, limit);
  }

  lemma ReachesItself(w: World, limit: nat)
    requires Tracks(w)
    ensures Reaches(w, w, limit)
  {
    hide Tracks;
    assert Bounded([], limit) && Legal(w, []) && Run(w, []) == w;
  }

  /** A slot ahead of the cursor, when the oldest slot lies behind it, evicts nothing. */
  lemma AppendSlot(w0: World, w: World, capacity: nat, cursor: nat, layout: seq<(int, int)>, size: nat, limit: nat)
    returns (n: World)
    requires Reaches(w0, w, limit) && Quiet(w, capacity, cursor, layout)
    requires 0 < size <= limit && cursor + size <= capacity
    requires layout != [] ==> 0 < layout[0].1 && layout[0].0 + layout[0].1 <= cursor
    ensures Reaches(w0, n, limit) && Quiet(n, capacity, cursor + size, layout + [(cursor, size)])
  {
    assert Evicted(w.cache, size) == 0;
    assert layout[0..] == layout;
    hide Tracks, Legal, Run, Evicted;
    var ops;
    ops, n := GrantAndRelease(w, capacity, cursor, layout, size, 0);
    ReachesFurther(w0, w, ops, limit);
  }

  /** A slot that wraps onto the oldest slots, and ends where the next one starts, evicts just those. */
  lemma WrapOntoOldest(w0: World, w: World, capacity: nat, layout: seq<(int, int)>, size: nat, gone: nat, limit: nat)
    returns (n: World)
    requires Reaches(w0, w, limit) && Quiet(w, capacity, capacity, layout) && 0 < size <= capacity && size <= limit
    requires 0 < gone < |layout| && layout[gone].0 == size && layout[gone].1 > 0
    requires forall k | 0 <= k < gone :: 0 <= layout[k].0 < size
    ensures Reaches(w0, n, limit) && Quiet(n, capacity, size, layout[gone..] + [(0, size)])
  {
    ScanResult(w.cache.slots, 0, gone, 0, size);
    assert Evicted(w.cache, size) == gone;
    hide Tracks, Legal, Run, Evicted;
    var ops;
    ops, n := GrantAndRelease(w, capacity, capacity, layout, size, gone);
    ReachesFurther(w0, w, ops, limit);
  }

  /** Slots of one byte each, side by side. */
  function Units(k: nat): (r: seq<(int, int)>)
    ensures |r| == k && forall i | 0 <= i < k :: r[i] == (i, 1)
  {
    if k == 0 then [] else Units(k - 1) + [(k - 1, 1)]
  }

  lemma {:induction false} UnitSlots(w0: World, capacity: nat, k: nat, limit: nat) returns (w: World)
    requires Quiet(w0, capacity, 0, []) && k <= capacity && limit > 0
    ensures Reaches(w0, w, limit) && Quiet(w, capacity, k, Units(k))
    decreases k
  {
    if k == 0 {
      ReachesItself(w0, limit);
      w := w0;
    } else {
      hide Reaches, Quiet;
      w := UnitSlots(w0, capacity, k - 1, limit);
      w := AppendSlot(w0, w, capacity, k - 1, Units(k - 1), 1, limit);
    }
  }

  /** The ring full of single bytes, and then a slot of `first` bytes over the oldest of them. */
  lemma TwoLapsOfUnits(w0: World, capacity: nat, first: nat, limit: nat) returns (w: World)
    requires Quiet(w0, capacity, 0, []) && 0 < first < capacity && first <= limit
    ensures Reaches(w0, w, limit) && Quiet(w, capacity, first, Units(capacity)[first..] + [(0, first)])
  {
    hide Reaches, Quiet;
    w := UnitSlots(w0, capacity, capacity, limit);
    w := WrapOntoOldest(w0, w, capacity, Units(capacity), first, first, limit);
  }

  /** Survivors of one byte each behind a single slot of `first` bytes. */
  predicate UnitLaps(c: Cache, first: nat) {
    && c.cursor == first && |c.slots| == c.capacity - first + 1
    && (forall i | 0 <= i < c.capacity - first :: c.slots[i].start == first + i && c.slots[i].size == 1)
    && (first <= c.capacity ==> c.slots[c.capacity - first].start == 0 && c.slots[c.capacity - first].size == first)
  }

  lemma LayoutIsUnitLaps(w: World, capacity: nat, first: nat)
    requires first <= capacity && Quiet(w, capacity, first, Units(capacity)[first..] + [(0, first)])
    ensures UnitLaps(w.cache, first)
  {
    hide Tracks;
    var layout := Units(capacity)[first..] + [(0, first)];
    assert forall i | 0 <= i < capacity - first :: layout[i] == (first + i, 1);
    assert layout[capacity - first] == (0, first);
  }

  /** A slot that just does not fit ahead lands on the slot of the current lap. */
  lemma NextSlotStopsEarly(c: Cache, first: nat, size: nat)
    requires UnitLaps(c, first) && 0 < first < size < c.capacity && first + size == c.capacity + 1
    ensures StopsEarly(c, size) && Laid(c, c.capacity - first)
  {
    assert c.slots[0].start == first && c.slots[size - first].start == size;
  }

  lemma NextSlotCollides(w: World, capacity: nat, first: nat, size: nat)
    requires 0 < first < size < capacity && first + size == capacity + 1
    requires Quiet(w, capacity, first, Units(capacity)[first..] + [(0, first)])
    ensures !Disjoint(Step(w, Grant(size, 0)).cache)
  {
    hide StopsEarly, Laid, Disjoint, Units;
    LayoutIsUnitLaps(w, capacity, first);
    RefusalChangesNothing(w, size, 0);
    NextSlotStopsEarly(w.cache, first, size);
    StopsBeforeLap(w.cache, capacity - first, size);
    assert Wraps(w.cache, size);
    StopsEarlyCollides(w.cache, capacity - first, size, 0);
  }

  /** The largest size below that of the ring that the limit allows. */
  function Largest(capacity: nat, limit: nat): int { if limit < capacity then limit else capacity - 1 }

  lemma CollisionIsReachable(w0: World, capacity: nat, limit: nat) returns (w: World)
    requires Quiet(w0, capacity, 0, []) && 2 * Largest(capacity, limit) >= capacity + 2
    ensures Reaches(w0, w, limit) && !Disjoint(w.cache)
  {
    hide Quiet, Step;
    var size := Largest(capacity, limit);
    var op := Grant(size, 0);
    var m := TwoLapsOfUnits(w0, capacity, capacity + 1 - size, limit);
    NextSlotCollides(m, capacity, capacity + 1 - size, size);
    StepTracks(m, op);
    w := Step(m, op);
    assert [op][1..] == [] && Legal(w, []) && Run(w, []) == w;
    assert Legal(m, [op]) && Run(m, [op]) == w && Bounded([op], limit);
    ReachesFurther(w0, m, [op], limit);
  }

  /**
   The exact boundary over runs: with allocations of at most `limit` bytes, two live slots can
   come to overlap if and only if the largest of them below the size of the ring exceeds half
   of the ring by at least one byte.
   */
  lemma CollisionsExactly(capacity: nat, keepAway: nat, first: nat, memory: seq<Byte>, limit: nat)
    requires |memory| == capacity
    ensures (exists w :: Reaches(Init(capacity, keepAway, first, memory), w, limit) && !Disjoint(w.cache))
            <==> 2 * Largest(capacity, limit) >= capacity + 2
  {
    var w0 := Init(capacity, keepAway, first, memory);
    InitAgrees(capacity, keepAway, first, memory);
    if 2 * Largest(capacity, limit) >= capacity + 2 {
      assert Quiet(w0, capacity, 0, []);
      var w := CollisionIsReachable(w0, capacity, limit);
    } else {
      forall w | Reaches(w0, w, limit) ensures Disjoint(w.cache) {
        var ops :| Bounded(ops, limit) && Legal(w0, ops) && Run(w0, ops) == w;
        CacheRefinesMap(capacity, keepAway, first, memory, ops);
      }
    }
  }
}
