/** The pool allocator as an object; the list of chunks is a sequence, newest first. */
module PoolObject {
  import opened Bytes
  import opened Options
  import opened Pool
  import opened PoolRuns

  function Sizes(chunks: seq<Chunk>): nat { if chunks == [] then 0 else chunks[0].size + Sizes(chunks[1..]) }

  function Capacities(chunks: seq<Chunk>): nat {
    if chunks == [] then 0 else chunks[0].capacity + Capacities(chunks[1..])
  }

  /** No more is in use than there is. */
  lemma {:induction false} UseIsBounded(chunks: seq<Chunk>)
    requires WellFormed(chunks)
    ensures Sizes(chunks) <= Capacities(chunks)
  {
    if chunks != [] {
      assert Sound(chunks[0]);
      UseIsBounded(chunks[1..]);
    }
  }

  class MemoryPoolAllocator {
    var chunks: seq<Chunk>
    var memory: Memory
    const user: bool
    const minimum: nat

    ghost function Seen(blocks: map<nat, seq<Byte>>): World
      reads this
    {
      World(chunks, user, minimum, memory, blocks)
    }

    constructor (minimum: nat, memory: Memory)
      ensures Initial(Seen(map[])) && !user && this.minimum == minimum
    {
      chunks, this.memory, user, this.minimum := [], memory, false, minimum;
    }

    /** On a buffer of the caller's, which must be larger than a header. */
    constructor OnBuffer(buffer: nat, size: nat, minimum: nat, memory: Memory)
      requires size > HEADER
      ensures Initial(Seen(map[])) && user && chunks == [Chunk(buffer + HEADER, size - HEADER, 0)]
    {
      chunks, this.memory, user, this.minimum := [Chunk(buffer + HEADER, size - HEADER, 0)], memory, true, minimum;
    }

    method AddChunk(capacity: nat, supply: Option<nat>) returns (ok: bool)
      modifies this`chunks
      ensures ok == supply.Some?
      ensures chunks == if ok then [Chunk(supply.value + HEADER, capacity, 0)] + old(chunks) else old(chunks)
    {
      if supply.None? {
        return false;
      }
      chunks := [Chunk(supply.value + HEADER, capacity, 0)] + chunks;
      ok := true;
    }

    method Malloc(n: nat, supply: Option<nat>) returns (ptr: Option<nat>)
      modifies this`chunks
      ensures Given(chunks, ptr) == Pool.Malloc(old(chunks), minimum, n, supply)
    {
      if n == 0 {
        return None;
      }
      var size := Align(n);
      if chunks == [] || chunks[0].size + size > chunks[0].capacity {
        var ok := AddChunk(if minimum > size then minimum else size, supply);
        if !ok {
          return None;
        }
      }
      ptr := Some(chunks[0].base + chunks[0].size);
      chunks := chunks[0 := chunks[0].(size := chunks[0].size + size)];
    }

    /** The call on no block is an allocation; otherwise the block is one in use, of `original` bytes. */
    method Realloc(ghost blocks: map<nat, seq<Byte>>, from: Option<nat>, original: nat, n: nat, supply: Option<nat>)
      returns (ptr: Option<nat>)
      requires from.Some? ==> from.value in blocks && original == |blocks[from.value]|
      requires Safe(Seen(blocks)) && Allowed(Seen(blocks), if from.None? then Take(n, supply) else Resize(from.value, n, supply))
      modifies this
      ensures from.None? ==> Given(chunks, ptr) == Pool.Malloc(old(chunks), minimum, n, supply) && memory == old(memory)
      ensures from.Some? ==>
                var after := Resized(old(Seen(blocks)), from.value, n, supply);
                && Seen(after.blocks) == after
                && ptr == Pool.Realloc(old(chunks), minimum, from.value, original, n, supply).ptr
    {
      hide Align, Pool.Malloc, Safe, Span, Kept, Unused;
      if from.None? {
        ptr := Malloc(n, supply);
        return;
      }
      MovesElsewhere(Seen(blocks), from.value, n, supply);
      if n == 0 {
        return None;
      }
      var before, size := Align(original), Align(n);
      if before >= size {
        return from;
      }
      if chunks != [] && from.value == chunks[0].base + chunks[0].size - before {
        var increment := size - before;
        if chunks[0].size + increment <= chunks[0].capacity {
          chunks := chunks[0 := chunks[0].(size := chunks[0].size + increment)];
          return from;
        }
      }
      ptr := Malloc(size, supply);
      if ptr.Some? {
        memory := Copied(memory, from.value, ptr.value, before);
      }
    }

    /** Gives back every chunk but the caller's buffer. */
    method Clear()
      modifies this`chunks
      ensures Seen(map[]) == Wiped(old(Seen(map[])))
    {
      while chunks != [] && !(user && |chunks| == 1)
        invariant chunks == old(chunks)[|old(chunks)| - |chunks|..] && |chunks| <= |old(chunks)|
        invariant user && old(chunks) != [] ==> chunks != []
        decreases |chunks|
      {
        chunks := chunks[1..];
      }
      if chunks != [] {
        chunks := [chunks[0].(size := 0)];
      }
    }

    method Capacity() returns (capacity: nat)
      ensures capacity == Capacities(chunks)
    {
      capacity := 0;
      var i := 0;
      assert chunks[0..] == chunks;
      while i < |chunks|
        invariant 0 <= i <= |chunks| && capacity + Capacities(chunks[i..]) == Capacities(chunks)
      {
        assert chunks[i..][1..] == chunks[i + 1..];
        capacity, i := capacity + chunks[i].capacity, i + 1;
      }
    }

    method Size() returns (size: nat)
      ensures size == Sizes(chunks)
    {
      size := 0;
      var i := 0;
      assert chunks[0..] == chunks;
      while i < |chunks|
        invariant 0 <= i <= |chunks| && size + Sizes(chunks[i..]) == Sizes(chunks)
      {
        assert chunks[i..][1..] == chunks[i + 1..];
        size, i := size + chunks[i].size, i + 1;
      }
    }
  }

  /** A block that is allocated anew does not come to lie where it was. */
  lemma MovesElsewhere(w: World, p: nat, n: nat, supply: Option<nat>)
    requires Safe(w) && Allowed(w, Resize(p, n, supply))
    ensures var g := Pool.Malloc(w.chunks, w.minimum, Align(n), supply);
            g.ptr != Some(p) && (g.ptr.None? ==> g.chunks == w.chunks)
  {
    hide Align, Pool.Malloc, WellFormed;
    AlignTwice(n);
    MallocIsSafe(w.chunks, w.minimum, Align(n), supply);
    HousedIsLarge(w.chunks, p, |w.blocks[p]|);
    MallocOfNothing(w.chunks, w.minimum, Align(n), supply);
  }
}
