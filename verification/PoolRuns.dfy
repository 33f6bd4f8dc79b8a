/**
 Runs of a pool and its clients. `blocks` is what the clients believe: which blocks are theirs
 and what bytes they hold. Every run keeps that true of the memory.
 */
module PoolRuns {
  import opened Bytes
  import opened Options
  import opened Pool

  type Memory = nat -> Byte

  function Span(memory: Memory, at: nat, n: nat): (r: seq<Byte>)
    ensures |r| == n && forall i | 0 <= i < n :: r[i] == memory(at + i)
  {
    seq(n, i requires 0 <= i => memory(at + i))
  }

  function Copied(memory: Memory, from: nat, to: nat, n: nat): Memory {
    (a: nat) => if to <= a < to + n then memory(a - to + from) else memory(a)
  }

  function Written(memory: Memory, at: nat, bytes: seq<Byte>): Memory {
    (a: nat) => if at <= a < at + |bytes| then bytes[a - at] else memory(a)
  }

  /** `user` says that the oldest chunk is a buffer supplied by the caller. */
  datatype World = World(chunks: seq<Chunk>, user: bool, minimum: nat, memory: Memory, blocks: map<nat, seq<Byte>>)

  datatype Op =
    | Take(n: nat, supply: Option<nat>)
    | Resize(ptr: nat, n: nat, supply: Option<nat>)
    | Fill(ptr: nat, bytes: seq<Byte>)
    | Wipe

  /** Clients name blocks of theirs, and the base allocator hands out unused memory. */
  ghost predicate Allowed(w: World, op: Op) {
    match op
    case Take(n, supply) => supply.Some? ==> Unused(w.chunks, NewChunk(supply.value, Align(n), w.minimum))
    case Resize(ptr, n, supply) =>
      ptr in w.blocks && (supply.Some? ==> Unused(w.chunks, NewChunk(supply.value, Align(n), w.minimum)))
    case Fill(ptr, bytes) => ptr in w.blocks && |bytes| == |w.blocks[ptr]|
    case Wipe => true
  }

  function Taken(w: World, n: nat, supply: Option<nat>): World {
    var g := Malloc(w.chunks, w.minimum, n, supply);
    if g.ptr.None? then w
    else w.(chunks := g.chunks, blocks := w.blocks[g.ptr.value := Span(w.memory, g.ptr.value, n)])
  }

  /** What a resized block keeps of its bytes. */
  function Kept(bytes: seq<Byte>, n: nat): seq<Byte> { if n < |bytes| then bytes[..n] else bytes }

  function Resized(w: World, p: nat, n: nat, supply: Option<nat>): World
    requires p in w.blocks
  {
    var bytes := w.blocks[p];
    var g := Realloc(w.chunks, w.minimum, p, |bytes|, n, supply);
    if n == 0 then w.(blocks := w.blocks - {p})
    else if g.ptr.None? then w
    else
      var q, kept := g.ptr.value, Kept(bytes, n);
      var memory := if q == p then w.memory else Copied(w.memory, p, q, Align(|bytes|));
      w.(chunks := g.chunks, memory := memory,
         blocks := (w.blocks - {p})[q := kept + Span(memory, q + |kept|, n - |kept|)])
  }

  function Wiped(w: World): World {
    var last := |w.chunks| - 1;
    w.(chunks := if w.user && w.chunks != [] then [w.chunks[last].(size := 0)] else [], blocks := map[])
  }

  function Step(w: World, op: Op): World
    requires Allowed(w, op)
  {
    match op
    case Take(n, supply) => Taken(w, n, supply)
    case Resize(ptr, n, supply) => Resized(w, ptr, n, supply)
    case Fill(ptr, bytes) => w.(memory := Written(w.memory, ptr, bytes), blocks := w.blocks[ptr := bytes])
    case Wipe => Wiped(w)
  }

  // ---------------------------------------------------------------------------------------
  // Every step keeps the blocks apart and their bytes in place
  // ---------------------------------------------------------------------------------------

  ghost predicate Faithful(memory: Memory, blocks: map<nat, seq<Byte>>) {
    forall p | p in blocks :: Span(memory, p, |blocks[p]|) == blocks[p]
  }

  ghost predicate Safe(w: World) {
    WellFormed(w.chunks) && AllHoused(w.chunks, w.blocks) && Disjoint(w.blocks) && Faithful(w.memory, w.blocks)
  }

  lemma SpanOfCopy(memory: Memory, from: nat, to: nat, n: nat, at: nat, m: nat)
    ensures at + m <= to || to + n <= at ==> Span(Copied(memory, from, to, n), at, m) == Span(memory, at, m)
    ensures m <= n ==> Span(Copied(memory, from, to, n), to, m) == Span(memory, from, m)
  {
  }

  lemma SpanOfWrite(memory: Memory, to: nat, bytes: seq<Byte>, at: nat, m: nat)
    ensures at + m <= to || to + |bytes| <= at ==> Span(Written(memory, to, bytes), at, m) == Span(memory, at, m)
    ensures Span(Written(memory, to, bytes), to, |bytes|) == bytes
  {
  }

  /** A new block is none of those in use. */
  lemma TakeIsFresh(w: World, n: nat, supply: Option<nat>)
    requires Safe(w) && Allowed(w, Take(n, supply))
    ensures var ptr := Malloc(w.chunks, w.minimum, n, supply).ptr;
            ptr.Some? ==> n > 0 && ptr.value !in w.blocks && Safe(Taken(w, n, supply))
  {
    hide Align, Housed, WellFormed, Malloc, Span;
    MallocIsSafe(w.chunks, w.minimum, n, supply);
    var ptr := Malloc(w.chunks, w.minimum, n, supply).ptr;
    if ptr.Some? {
      MallocOfNothing(w.chunks, w.minimum, n, supply);
      if ptr.value in w.blocks { HousedIsLarge(w.chunks, ptr.value, |w.blocks[ptr.value]|); }
    }
  }

  lemma MallocOfNothing(chunks: seq<Chunk>, minimum: nat, n: nat, supply: Option<nat>)
    ensures Malloc(chunks, minimum, n, supply).ptr.Some? ==> n > 0
  {
  }

  lemma HousedIsLarge(chunks: seq<Chunk>, p: nat, n: nat)
    requires Housed(chunks, p, n)
    ensures Align(n) > 0
  {
  }

  /** The other blocks are those of before, untouched. */
  lemma OthersAreKept(w: World, p: nat, q: nat, n: nat, memory: Memory)
    requires Safe(w) && p in w.blocks && Align(|w.blocks[p]|) <= Align(n)
    requires forall b, m | Housed(w.chunks, b, m) && Clear(b, m, p, |w.blocks[p]|) :: Clear(b, m, q, n)
    requires memory == Copied(w.memory, p, q, Align(|w.blocks[p]|))
    ensures Faithful(memory, w.blocks - {p})
  {
    hide Align, Copied, Span, WellFormed;
    var rest := w.blocks - {p};
    forall b | b in rest ensures Span(memory, b, |rest[b]|) == rest[b] {
      assert Housed(w.chunks, b, |rest[b]|);
      assert Clear(b, |rest[b]|, p, |w.blocks[p]|);
      SpanOfCopy(w.memory, p, q, Align(|w.blocks[p]|), b, |rest[b]|);
    }
  }

  lemma KeptIsThere(w: World, p: nat, q: nat, n: nat, memory: Memory)
    requires Safe(w) && p in w.blocks
    requires if q == p then memory == w.memory else memory == Copied(w.memory, p, q, Align(|w.blocks[p]|))
    ensures var kept := Kept(w.blocks[p], n);
            |kept| <= n && Span(memory, q, n) == kept + Span(memory, q + |kept|, n - |kept|)
  {
    hide Copied, Align;
    var bytes, kept := w.blocks[p], Kept(w.blocks[p], n);
    assert Span(w.memory, p, |bytes|) == bytes;
    SpanOfCopy(w.memory, p, q, Align(|bytes|), q, |kept|);
    assert Span(w.memory, p, |kept|) == kept;
    assert Span(memory, q, |kept|) == kept;
  }

  /** One block replaced by another that is housed, clear of the rest and holds its bytes. */
  lemma Replaced(chunks: seq<Chunk>, memory: Memory, rest: map<nat, seq<Byte>>, q: nat, bytes: seq<Byte>)
    requires AllHoused(chunks, rest) && Disjoint(rest) && Faithful(memory, rest)
    requires Housed(chunks, q, |bytes|) && Span(memory, q, |bytes|) == bytes
    requires forall b | b in rest :: Clear(b, |rest[b]|, q, |bytes|)
    ensures var blocks := rest[q := bytes]; AllHoused(chunks, blocks) && Disjoint(blocks) && Faithful(memory, blocks)
  {
    hide Align, Housed, Span;
  }

  /** A resized block goes to an address that is its own or nobody's. */
  lemma ResizeIsSafe(w: World, p: nat, n: nat, supply: Option<nat>)
    requires Safe(w) && Allowed(w, Resize(p, n, supply))
    ensures Safe(Resized(w, p, n, supply))
    ensures var q := Realloc(w.chunks, w.minimum, p, |w.blocks[p]|, n, supply).ptr;
            q.Some? ==> q.value !in w.blocks - {p}
  {
    hide Align, Housed, WellFormed, Realloc, Span, Copied, Kept;
    var bytes, rest := w.blocks[p], w.blocks - {p};
    ReallocIsSafe(w.chunks, w.minimum, p, |bytes|, n, supply);
    var g := Realloc(w.chunks, w.minimum, p, |bytes|, n, supply);
    if g.ptr.Some? {
      var q, memory := g.ptr.value, Resized(w, p, n, supply).memory;
      KeptIsThere(w, p, q, n, memory);
      if q != p { OthersAreKept(w, p, q, n, memory); }
      if q in rest { HousedIsLarge(w.chunks, q, |rest[q]|); }
      Replaced(g.chunks, memory, rest, q, Span(memory, q, n));
    }
  }

  lemma FillIsSafe(w: World, p: nat, bytes: seq<Byte>)
    requires Safe(w) && Allowed(w, Fill(p, bytes))
    ensures Safe(Step(w, Fill(p, bytes)))
  {
    hide Align, Housed, WellFormed, Span, Written;
    var memory, rest := Written(w.memory, p, bytes), w.blocks - {p};
    SpanOfWrite(w.memory, p, bytes, p, |bytes|);
    forall b | b in rest ensures Span(memory, b, |rest[b]|) == rest[b] {
      assert Clear(b, |rest[b]|, p, |bytes|);
      SpanOfWrite(w.memory, p, bytes, b, |rest[b]|);
    }
    Replaced(w.chunks, memory, rest, p, bytes);
    assert rest[p := bytes] == w.blocks[p := bytes];
  }

  lemma StepIsSafe(w: World, op: Op)
    requires Safe(w) && Allowed(w, op)
    ensures Safe(Step(w, op))
  {
    match op
    case Take(n, supply) => TakeIsFresh(w, n, supply);
    case Resize(p, n, supply) => ResizeIsSafe(w, p, n, supply);
    case Fill(p, bytes) => FillIsSafe(w, p, bytes);
    case Wipe =>
  }

  // ---------------------------------------------------------------------------------------
  // The clients see a heap
  // ---------------------------------------------------------------------------------------

  /** One block more, at an address not in use. */
  ghost predicate Adds(before: map<nat, seq<Byte>>, p: nat, bytes: seq<Byte>, after: map<nat, seq<Byte>>) {
    p !in before && after == before[p := bytes]
  }

  /** What a heap may do to its blocks; it refuses memory only when no more can be had. */
  ghost predicate HeapStep(before: map<nat, seq<Byte>>, op: Op, after: map<nat, seq<Byte>>) {
    match op
    case Take(n, supply) =>
      || ((n == 0 || supply.None?) && after == before)
      || exists p: nat, bytes :: |bytes| == n > 0 && Adds(before, p, bytes, after)
    case Resize(p, n, supply) =>
      && p in before
      && if n == 0 then after == before - {p} else
         || (supply.None? && after == before)
         || exists q: nat, bytes :: |bytes| == n && Kept(before[p], n) <= bytes && Adds(before - {p}, q, bytes, after)
    case Fill(p, bytes) => p in before && |bytes| == |before[p]| && after == before[p := bytes]
    case Wipe => after == map[]
  }

  lemma StepIsHeapStep(w: World, op: Op)
    requires Safe(w) && Allowed(w, op)
    ensures HeapStep(w.blocks, op, Step(w, op).blocks)
  {
    hide Malloc, Realloc, Safe, Span, Copied, Align, Kept;
    var after := Step(w, op).blocks;
    match op
    case Take(n, supply) =>
      TakeIsFresh(w, n, supply);
      MallocExactly(w.chunks, w.minimum, n, supply);
      var ptr := Malloc(w.chunks, w.minimum, n, supply).ptr;
      if ptr.Some? { assert Adds(w.blocks, ptr.value, after[ptr.value], after); }
    case Resize(p, n, supply) =>
      ResizeIsSafe(w, p, n, supply);
      if n > 0 {
        ReallocExactly(w.chunks, w.minimum, p, |w.blocks[p]|, n, supply);
        MallocExactly(w.chunks, w.minimum, n, supply);
      }
      var ptr := Realloc(w.chunks, w.minimum, p, |w.blocks[p]|, n, supply).ptr;
      if n > 0 && ptr.Some? { assert Adds(w.blocks - {p}, ptr.value, after[ptr.value], after); }
    case Fill(p, bytes) =>
    case Wipe =>
  }

  ghost predicate Legal(w: World, ops: seq<Op>)
    decreases |ops|
  {
    ops == [] || (Allowed(w, ops[0]) && Legal(Step(w, ops[0]), ops[1..]))
  }

  ghost function Run(w: World, ops: seq<Op>): World
    requires Legal(w, ops)
    decreases |ops|
  {
    if ops == [] then w else Run(Step(w, ops[0]), ops[1..])
  }

  ghost predicate HeapRun(w: World, ops: seq<Op>)
    requires Legal(w, ops)
    decreases |ops|
  {
    ops == [] || (HeapStep(w.blocks, ops[0], Step(w, ops[0]).blocks) && HeapRun(Step(w, ops[0]), ops[1..]))
  }

  /** A pool without memory yet, or on a buffer of the caller's, before any call. */
  ghost predicate Initial(w: World) {
    && w.blocks == map[]
    && if w.user then |w.chunks| == 1 && w.chunks[0].base >= HEADER && w.chunks[0].size == 0 else w.chunks == []
  }

  lemma {:induction false} RunsAreSafe(w: World, ops: seq<Op>)
    requires Safe(w) && Legal(w, ops)
    ensures Safe(Run(w, ops)) && HeapRun(w, ops)
    decreases |ops|
  {
    hide Safe, Step, HeapStep, Allowed;
    if ops != [] {
      StepIsSafe(w, ops[0]);
      StepIsHeapStep(w, ops[0]);
      RunsAreSafe(Step(w, ops[0]), ops[1..]);
    }
  }

  /**
   Every run is a run of a heap: blocks in use lie in the used part of their chunks without
   overlapping, and each holds the bytes last put there, through growing and moving.
   */
  lemma PoolRefinesHeap(w: World, ops: seq<Op>)
    requires Initial(w) && Legal(w, ops)
    ensures Safe(Run(w, ops)) && HeapRun(w, ops)
  {
    RunsAreSafe(w, ops);
  }

  /** Blocks are aligned as their chunks are. */
  lemma BlocksAreAligned(w: World, p: nat)
    requires Safe(w) && p in w.blocks
    ensures exists k | 0 <= k < |w.chunks| :: Inside(w.chunks[k], p, |w.blocks[p]|) && p % 8 == w.chunks[k].base % 8
  {
    hide Align;
    assert Housed(w.chunks, p, |w.blocks[p]|);
    var k :| 0 <= k < |w.chunks| && Inside(w.chunks[k], p, |w.blocks[p]|);
    EqualModulo(w.chunks[k].base, p);
  }

  lemma EqualModulo(a: nat, b: nat)
    requires a <= b && (b - a) % 8 == 0
    ensures a % 8 == b % 8
  {
  }
}
