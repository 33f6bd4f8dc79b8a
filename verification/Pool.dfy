/**
 The pool allocator: blocks are cut off the newest chunk and never given back. Addresses are
 numbers, so that the test for the last block compares them as the code does; where a new
 chunk lies is the base allocator's choice.
 */
module Pool {
  import opened Bytes
  import opened Options

  /** The size of a chunk's header, which lies right before its bytes. */
  const HEADER := 24

  datatype Chunk = Chunk(base: nat, capacity: nat, size: nat)

  function Align(n: nat): (r: nat)
    ensures r % 8 == 0 && n <= r < n + 8
  {
    (n + 7) / 8 * 8
  }

  // ---------------------------------------------------------------------------------------
  // Operations
  // ---------------------------------------------------------------------------------------

  /** The chunks, newest first, and the address of a block if there is one. */
  datatype Given = Given(chunks: seq<Chunk>, ptr: Option<nat>)

  predicate Full(chunks: seq<Chunk>, size: nat) {
    chunks == [] || chunks[0].size + size > chunks[0].capacity
  }

  function NewChunk(header: nat, size: nat, minimum: nat): Chunk {
    Chunk(header + HEADER, if minimum > size then minimum else size, 0)
  }

  function Grown(chunks: seq<Chunk>, size: nat): seq<Chunk>
    requires chunks != []
  {
    chunks[0 := chunks[0].(size := chunks[0].size + size)]
  }

  function Cut(chunks: seq<Chunk>, size: nat): Given
    requires chunks != []
  {
    Given(Grown(chunks, size), Some(chunks[0].base + chunks[0].size))
  }

  /** `supply` is the header's address of a new chunk, or nothing if there is no memory left. */
  function Malloc(chunks: seq<Chunk>, minimum: nat, n: nat, supply: Option<nat>): Given {
    var size := Align(n);
    if n == 0 then Given(chunks, None)
    else if !Full(chunks, size) then Cut(chunks, size)
    else if supply.None? then Given(chunks, None)
    else Cut([NewChunk(supply.value, size, minimum)] + chunks, size)
  }

  /** Whether a block ends where the used part of the newest chunk does. */
  predicate IsLast(chunks: seq<Chunk>, ptr: nat, size: nat) {
    chunks != [] && ptr == chunks[0].base + chunks[0].size - size
  }

  function Realloc(chunks: seq<Chunk>, minimum: nat, ptr: nat, original: nat, n: nat, supply: Option<nat>): Given {
    var before, size := Align(original), Align(n);
    if n == 0 then Given(chunks, None)
    else if before >= size then Given(chunks, Some(ptr))
    else if IsLast(chunks, ptr, before) && !Full(chunks, size - before) then Given(Grown(chunks, size - before), Some(ptr))
    else Malloc(chunks, minimum, size, supply)
  }

  // ---------------------------------------------------------------------------------------
  // Invariant
  // ---------------------------------------------------------------------------------------

  ghost predicate Sound(c: Chunk) { c.base >= HEADER && c.size % 8 == 0 && c.size <= c.capacity }

  /** Two chunks, headers included, do not overlap. */
  ghost predicate Apart(a: Chunk, b: Chunk) {
    a.base + a.capacity + HEADER <= b.base || b.base + b.capacity + HEADER <= a.base
  }

  ghost predicate WellFormed(chunks: seq<Chunk>) {
    && (forall k | 0 <= k < |chunks| :: Sound(chunks[k]))
    && (forall j, k | 0 <= j < k < |chunks| :: Apart(chunks[j], chunks[k]))
  }

  /** A block lies in the used part of a chunk, at a multiple of eight from its start. */
  ghost predicate Inside(c: Chunk, ptr: nat, n: nat) {
    c.base <= ptr && (ptr - c.base) % 8 == 0 && ptr + Align(n) <= c.base + c.size
  }

  ghost predicate Housed(chunks: seq<Chunk>, ptr: nat, n: nat) {
    n > 0 && exists k | 0 <= k < |chunks| :: Inside(chunks[k], ptr, n)
  }

  ghost predicate Clear(a: nat, n: nat, b: nat, m: nat) { a + Align(n) <= b || b + Align(m) <= a }

  /** Blocks in use, by address, with their bytes. */
  ghost predicate Disjoint(blocks: map<nat, seq<Byte>>) {
    forall p, q | p in blocks && q in blocks && p != q :: Clear(p, |blocks[p]|, q, |blocks[q]|)
  }

  ghost predicate AllHoused(chunks: seq<Chunk>, blocks: map<nat, seq<Byte>>) {
    forall p | p in blocks :: Housed(chunks, p, |blocks[p]|)
  }

  // ---------------------------------------------------------------------------------------
  // Free room stays clear of every block
  // ---------------------------------------------------------------------------------------

  /** The unused rest of the newest chunk is clear of every block. */
  lemma RestIsClear(chunks: seq<Chunk>, p: nat, n: nat, m: nat)
    requires WellFormed(chunks) && Housed(chunks, p, n) && !Full(chunks, Align(m))
    ensures Clear(p, n, chunks[0].base + chunks[0].size, m)
  {
    hide Align;
    var k :| 0 <= k < |chunks| && Inside(chunks[k], p, n);
    if k > 0 { assert Apart(chunks[0], chunks[k]); }
  }

  lemma GrownIsWellFormed(chunks: seq<Chunk>, size: nat)
    requires WellFormed(chunks) && !Full(chunks, size) && size % 8 == 0
    ensures WellFormed(Grown(chunks, size))
    ensures forall p, n | Housed(chunks, p, n) :: Housed(Grown(chunks, size), p, n)
  {
    hide Align;
    var grown := Grown(chunks, size);
    forall k | 0 <= k < |grown| ensures Sound(grown[k]) {
      assert Sound(chunks[k]);
    }
    forall j, k | 0 <= j < k < |grown| ensures Apart(grown[j], grown[k]) {
      assert Apart(chunks[j], chunks[k]);
    }
    forall p, n | Housed(chunks, p, n) ensures Housed(grown, p, n) {
      var k :| 0 <= k < |chunks| && Inside(chunks[k], p, n);
      assert Inside(grown[k], p, n);
    }
  }

  /** The base allocator hands out memory that no chunk uses. */
  ghost predicate Unused(chunks: seq<Chunk>, c: Chunk) {
    c.base >= HEADER && forall k | 0 <= k < |chunks| :: Apart(c, chunks[k])
  }

  lemma ChunkIsAdded(chunks: seq<Chunk>, c: Chunk)
    requires WellFormed(chunks) && Unused(chunks, c) && c.size == 0
    ensures WellFormed([c] + chunks)
    ensures forall p, n | Housed(chunks, p, n) :: Housed([c] + chunks, p, n)
  {
    hide Align;
    var all := [c] + chunks;
    forall p, n | Housed(chunks, p, n) ensures Housed(all, p, n) {
      var k :| 0 <= k < |chunks| && Inside(chunks[k], p, n);
      assert all[k + 1] == chunks[k];
    }
  }

  /** Cutting a block off the newest chunk houses it clear of all others. */
  lemma CutIsSafe(chunks: seq<Chunk>, m: nat)
    requires WellFormed(chunks) && m > 0 && !Full(chunks, Align(m))
    ensures var Given(after, ptr) := Cut(chunks, Align(m));
            && WellFormed(after) && Housed(after, ptr.value, m)
            && (forall p, n | Housed(chunks, p, n) :: Housed(after, p, n) && Clear(p, n, ptr.value, m))
  {
    hide Align;
    GrownIsWellFormed(chunks, Align(m));
    var Given(after, ptr) := Cut(chunks, Align(m));
    assert Sound(chunks[0]);
    assert Inside(after[0], ptr.value, m);
    forall p, n | Housed(chunks, p, n) ensures Clear(p, n, ptr.value, m) {
      RestIsClear(chunks, p, n, m);
    }
  }

  lemma MallocIsSafe(chunks: seq<Chunk>, minimum: nat, m: nat, supply: Option<nat>)
    requires WellFormed(chunks) && (supply.Some? ==> Unused(chunks, NewChunk(supply.value, Align(m), minimum)))
    ensures var Given(after, ptr) := Malloc(chunks, minimum, m, supply);
            && (ptr.None? ==> after == chunks)
            && (ptr.Some? ==>
                  && WellFormed(after) && Housed(after, ptr.value, m)
                  && (forall p, n | Housed(chunks, p, n) :: Housed(after, p, n) && Clear(p, n, ptr.value, m)))
  {
    hide Align, Housed, Clear, WellFormed;
    if m > 0 && !Full(chunks, Align(m)) {
      CutIsSafe(chunks, m);
    } else if m > 0 && supply.Some? {
      var chunk := NewChunk(supply.value, Align(m), minimum);
      ChunkIsAdded(chunks, chunk);
      CutIsSafe([chunk] + chunks, m);
    }
  }

  /** A block that ends with the used part of the newest chunk is the last one in it. */
  lemma LastGrowsClear(chunks: seq<Chunk>, ptr: nat, original: nat, m: nat, p: nat, n: nat)
    requires WellFormed(chunks) && Housed(chunks, ptr, original) && Housed(chunks, p, n)
    requires IsLast(chunks, ptr, Align(original)) && Align(original) <= Align(m)
    requires !Full(chunks, Align(m) - Align(original)) && Clear(p, n, ptr, original)
    ensures Clear(p, n, ptr, m)
  {
    hide Align;
    var k :| 0 <= k < |chunks| && Inside(chunks[k], p, n);
    if k > 0 { assert Apart(chunks[0], chunks[k]); }
  }

  /** The address test picks only blocks of the newest chunk. */
  lemma LastIsNewest(chunks: seq<Chunk>, ptr: nat, n: nat)
    requires WellFormed(chunks) && Housed(chunks, ptr, n) && IsLast(chunks, ptr, Align(n))
    ensures Inside(chunks[0], ptr, n)
  {
    hide Align;
    var k :| 0 <= k < |chunks| && Inside(chunks[k], ptr, n);
    if k > 0 { assert Apart(chunks[0], chunks[k]); }
  }

  lemma GrownHousesLast(chunks: seq<Chunk>, ptr: nat, original: nat, m: nat)
    requires WellFormed(chunks) && Housed(chunks, ptr, original) && IsLast(chunks, ptr, Align(original))
    requires m > 0 && Align(original) <= Align(m) && !Full(chunks, Align(m) - Align(original))
    ensures Housed(Grown(chunks, Align(m) - Align(original)), ptr, m)
  {
    hide Align;
    LastIsNewest(chunks, ptr, original);
    assert Inside(Grown(chunks, Align(m) - Align(original))[0], ptr, m);
  }

  lemma AlignTwice(n: nat)
    ensures Align(Align(n)) == Align(n)
  {
  }

  /** Resizing keeps a block housed and clear of all others, wherever it ends up. */
  lemma ReallocIsSafe(chunks: seq<Chunk>, minimum: nat, p: nat, original: nat, m: nat, supply: Option<nat>)
    requires WellFormed(chunks) && Housed(chunks, p, original)
    requires supply.Some? ==> Unused(chunks, NewChunk(supply.value, Align(m), minimum))
    ensures var Given(after, ptr) := Realloc(chunks, minimum, p, original, m, supply);
            && (ptr.None? ==> after == chunks)
            && (ptr.Some? ==>
                  && m > 0 && WellFormed(after) && Housed(after, ptr.value, m)
                  && (forall q, n | Housed(chunks, q, n) :: Housed(after, q, n))
                  && (forall q, n | Housed(chunks, q, n) && Clear(q, n, p, original) :: Clear(q, n, ptr.value, m)))
    ensures var ptr := Realloc(chunks, minimum, p, original, m, supply).ptr;
            ptr.Some? && ptr.value != p ==> Clear(p, original, ptr.value, m) && Align(original) < Align(m)
  {
    hide Align, Housed, Clear, WellFormed, Malloc, IsLast, Full;
    var before, size := Align(original), Align(m);
    AlignTwice(m);
    if m > 0 {
      if before >= size {
        ShrunkIsSafe(chunks, p, original, m);
      } else if IsLast(chunks, p, before) && !Full(chunks, size - before) {
        GrownIsWellFormed(chunks, size - before);
        GrownHousesLast(chunks, p, original, m);
        forall q, n | Housed(chunks, q, n) && Clear(q, n, p, original) ensures Clear(q, n, p, m) {
          LastGrowsClear(chunks, p, original, m, q, n);
        }
      } else {
        MallocIsSafe(chunks, minimum, size, supply);
        var Given(after, ptr) := Malloc(chunks, minimum, size, supply);
        if ptr.Some? {
          AlignedIsHoused(after, ptr.value, m);
          forall q, n | Housed(chunks, q, n) ensures Clear(q, n, ptr.value, m) {
            AlignedIsClear(q, n, ptr.value, m);
          }
        }
      }
    }
  }

  lemma AlignedIsHoused(chunks: seq<Chunk>, p: nat, m: nat)
    requires m > 0 && Housed(chunks, p, Align(m))
    ensures Housed(chunks, p, m)
  {
    hide Align;
    AlignTwice(m);
    var k :| 0 <= k < |chunks| && Inside(chunks[k], p, Align(m));
    assert Inside(chunks[k], p, m);
  }

  lemma AlignedIsClear(q: nat, n: nat, p: nat, m: nat)
    requires Clear(q, n, p, Align(m))
    ensures Clear(q, n, p, m)
  {
    AlignTwice(m);
  }

  lemma ShrunkIsSafe(chunks: seq<Chunk>, p: nat, original: nat, m: nat)
    requires Housed(chunks, p, original) && 0 < m && Align(m) <= Align(original)
    ensures Housed(chunks, p, m)
    ensures forall q, n | Clear(q, n, p, original) :: Clear(q, n, p, m)
  {
    hide Align;
    var k :| 0 <= k < |chunks| && Inside(chunks[k], p, original);
    assert Inside(chunks[k], p, m);
  }

  // ---------------------------------------------------------------------------------------
  // When memory is refused, and how much is used
  // ---------------------------------------------------------------------------------------

  /** The bytes handed out of all chunks. */
  function Used(chunks: seq<Chunk>): nat {
    if chunks == [] then 0 else chunks[0].size + Used(chunks[1..])
  }

  /** The newest chunk has that many bytes left. */
  predicate HasRoom(chunks: seq<Chunk>, n: nat) {
    chunks != [] && chunks[0].size + n <= chunks[0].capacity
  }

  lemma CutUses(chunks: seq<Chunk>, size: nat)
    requires chunks != []
    ensures Used(Cut(chunks, size).chunks) == Used(chunks) + size
  {
    assert Grown(chunks, size)[1..] == chunks[1..];
  }

  /**
   Nothing is refused without need: a block is missing exactly for size zero, or when the
   newest chunk is full and no memory can be had.  What is handed out is the size rounded up
   to eight; a new chunk is taken only when needed, as large as asked for or the minimum.
   */
  lemma MallocExactly(chunks: seq<Chunk>, minimum: nat, n: nat, supply: Option<nat>)
    ensures
      var Given(after, ptr) := Malloc(chunks, minimum, n, supply);
      var up := (n + 7) / 8 * 8;
      && (ptr.None? <==> n == 0 || (!HasRoom(chunks, up) && supply.None?))
      && (ptr.None? ==> after == chunks)
      && (ptr.Some? ==> Used(after) == Used(chunks) + up)
      && (ptr.Some? && HasRoom(chunks, up) ==>
            |after| == |chunks| && after[1..] == chunks[1..] && ptr.value == chunks[0].base + chunks[0].size)
      && (ptr.Some? && !HasRoom(chunks, up) ==>
            |after| == |chunks| + 1 && after[1..] == chunks && ptr.value == after[0].base == supply.value + 24 &&
            after[0].capacity == if minimum > up then minimum else up)
  {
    var size := Align(n);
    if n > 0 && HasRoom(chunks, size) {
      CutUses(chunks, size);
    } else if n > 0 && supply.Some? {
      var all := [NewChunk(supply.value, size, minimum)] + chunks;
      assert all[1..] == chunks;
      CutUses(all, size);
    }
  }

  /**
   A block stays where it is exactly as long as it can: when it does not outgrow its
   rounded size, or is the last one and has room behind it; else a new one is handed out.
   */
  lemma ReallocExactly(chunks: seq<Chunk>, minimum: nat, ptr: nat, original: nat, n: nat, supply: Option<nat>)
    requires n > 0
    ensures
      var r, was, up := Realloc(chunks, minimum, ptr, original, n, supply), (original + 7) / 8 * 8, (n + 7) / 8 * 8;
      if up <= was then r == Given(chunks, Some(ptr))
      else if HasRoom(chunks, up - was) && ptr + was == chunks[0].base + chunks[0].size then
        r.ptr == Some(ptr) && Used(r.chunks) == Used(chunks) + up - was && |r.chunks| == |chunks| && r.chunks[1..] == chunks[1..]
      else r == Malloc(chunks, minimum, n, supply)
  {
    AlignTwice(n);
    var was, up := Align(original), Align(n);
    if up > was && HasRoom(chunks, up - was) { CutUses(chunks, up - was); }
  }
}
