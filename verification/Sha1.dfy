/**
 SHA-1 fed in pieces, with the block transform left abstract: however a message is cut into
 updates, the final state is the transform folded over the message padded as in section
 5.1.1 of FIPS 180-4.
 */
module Sha1 {
  import opened Bytes

  // ---------------------------------------------------------------------------------------
  // Reference definition
  // ---------------------------------------------------------------------------------------

  /** The transform applied to one block of 64 bytes after the other. */
  function Fold<S>(f: (S, seq<Byte>) -> S, s: S, bytes: seq<Byte>): S
    requires |bytes| % 64 == 0
    decreases |bytes|
  {
    if bytes == [] then s else Fold(f, f(s, bytes[..64]), bytes[64..])
  }

  /** How many zero bytes bring a message of `n` bytes and its marker to 56 modulo 64. */
  function ZeroCount(n: nat): (z: nat)
    ensures (n + 1 + z) % 64 == 56 && z < 64
  {
    (119 - n % 64) % 64
  }

  lemma ZeroCountIsLeast(n: nat, z: nat)
    requires (n + 1 + z) % 64 == 56 && z <= ZeroCount(n)
    ensures z == ZeroCount(n)
  {
  }

  function Zeros(n: nat): (r: seq<Byte>)
    ensures |r| == n && forall i | 0 <= i < n :: r[i] == 0
  {
    seq(n, _ => 0)
  }

  /** The length in bits of a message of `n` bytes, modulo 2^64. */
  function BitLength(n: nat): (r: seq<Byte>)
    ensures |r| == 8
  {
    Bytes32(8 * n / WORD32 % WORD32) + Bytes32(8 * n % WORD32)
  }

  lemma CountFillsBlock(k: nat)
    requires k % 64 == 56
    ensures (k + 8) % 64 == 0
  {
  }

  /** A message, a one bit, zero bits up to the last eight bytes of a block, and its length. */
  function Pad(m: seq<Byte>): (r: seq<Byte>)
    ensures |r| % 64 == 0 && |m| + 9 <= |r| < |m| + 73
  {
    CountFillsBlock(|m| + 1 + ZeroCount(|m|));
    m + [0x80] + Zeros(ZeroCount(|m|)) + BitLength(|m|)
  }

  lemma {:induction false} FoldAppend<S>(f: (S, seq<Byte>) -> S, s: S, a: seq<Byte>, b: seq<Byte>)
    requires |a| % 64 == 0 && |b| % 64 == 0
    ensures Fold(f, s, a + b) == Fold(f, Fold(f, s, a), b)
    decreases |a|
  {
    if a == [] {
      assert a + b == b;
    } else {
      assert (a + b)[..64] == a[..64] && (a + b)[64..] == a[64..] + b;
      FoldAppend(f, f(s, a[..64]), a[64..], b);
    }
  }

  lemma FoldNext<S>(f: (S, seq<Byte>) -> S, s: S, m: seq<Byte>, p: nat)
    requires p % 64 == 0 && p + 64 <= |m|
    ensures Fold(f, s, m[..p + 64]) == f(Fold(f, s, m[..p]), m[p..p + 64])
  {
    var block := m[p..p + 64];
    assert m[..p] + block == m[..p + 64];
    FoldAppend(f, s, m[..p], block);
    assert block[..64] == block && block[64..] == [];
  }

  // ---------------------------------------------------------------------------------------
  // The bit counter: two 32-bit words with a carry
  // ---------------------------------------------------------------------------------------

  function Low(n: nat): nat { 8 * n % WORD32 }

  function High(n: nat): nat { 8 * n / WORD32 % WORD32 }

  lemma LengthWords(len: nat)
    ensures 8 * (len % WORD32) % WORD32 == 8 * len % WORD32
    ensures len / 0x2000_0000 == 8 * len / WORD32
  {
  }

  /** Adding the low words drops a carry exactly when the sum comes out smaller. */
  lemma LowAdds(n: nat, len: nat)
    ensures var sum := (Low(n) + Low(len)) % WORD32;
            var carry := if sum < Low(n) then 1 else 0;
            sum == Low(n + len) && 8 * (n + len) / WORD32 == 8 * n / WORD32 + 8 * len / WORD32 + carry
  {
    var a0, b0 := Low(n), Low(len);
    var carry := if a0 + b0 >= WORD32 then 1 else 0;
    DivMod(8 * (n + len), 8 * n / WORD32 + 8 * len / WORD32 + carry, a0 + b0 - carry * WORD32);
  }

  /** The two words of `n` bytes, moved on by `len` bytes as the code does it. */
  lemma CounterAdds(n: nat, len: nat)
    ensures var low := (Low(n) + 8 * (len % WORD32) % WORD32) % WORD32;
            var high := if low < Low(n) then (High(n) + 1) % WORD32 else High(n);
            low == Low(n + len) && (high + len / 0x2000_0000 % WORD32) % WORD32 == High(n + len)
  {
    LengthWords(len);
    LowAdds(n, len);
    var a, b := 8 * n / WORD32, 8 * len / WORD32;
    var carry := if Low(n + len) < Low(n) then 1 else 0;
    ModAdds(a, carry);
    ModAdds(a + carry, b % WORD32);
    ModAdds(b, a + carry);
  }

  // ---------------------------------------------------------------------------------------
  // The context
  // ---------------------------------------------------------------------------------------

  type Word = n: nat | n < 0x1_0000_0000

  datatype State = State(a: Word, b: Word, c: Word, d: Word, e: Word)

  const INITIAL := State(0x67452301, 0xEFCDAB89, 0x98BADCFE, 0x10325476, 0xC3D2E1F0)

  function Digest(s: State): (r: seq<Byte>)
    ensures |r| == 20
  {
    Bytes32(s.a) + Bytes32(s.b) + Bytes32(s.c) + Bytes32(s.d) + Bytes32(s.e)
  }

  lemma HalfBytes(a: Byte, b: Byte)
    ensures Bytes16(a as int * 256 + b) == [a, b]
  {
  }

  lemma WordBytes(n: Word, a: Byte, b: Byte, c: Byte, d: Byte)
    requires n == (a as int * 256 + b) * 0x1_0000 + (c as int * 256 + d)
    ensures Bytes32(n) == [a, b, c, d]
  {
    hide Bytes16;
    HalfBytes(a, b);
    HalfBytes(c, d);
    Halves(a as int * 256 + b, c as int * 256 + d);
  }

  lemma Halves(high: nat, low: nat)
    requires low < 0x1_0000
    ensures (high * 0x1_0000 + low) / 0x1_0000 == high && (high * 0x1_0000 + low) % 0x1_0000 == low
  {
  }

  /** The initial state of section 6.1 of RFC 3174, and that words are written most significant byte first. */
  lemma StartsAsDefined()
    ensures Digest(INITIAL) == [0x67, 0x45, 0x23, 0x01, 0xEF, 0xCD, 0xAB, 0x89, 0x98, 0xBA,
                                0xDC, 0xFE, 0x10, 0x32, 0x54, 0x76, 0xC3, 0xD2, 0xE1, 0xF0]
  {
    hide Bytes32;
    WordBytes(INITIAL.a, 0x67, 0x45, 0x23, 0x01);
    WordBytes(INITIAL.b, 0xEF, 0xCD, 0xAB, 0x89);
    WordBytes(INITIAL.c, 0x98, 0xBA, 0xDC, 0xFE);
    WordBytes(INITIAL.d, 0x10, 0x32, 0x54, 0x76);
    WordBytes(INITIAL.e, 0xC3, 0xD2, 0xE1, 0xF0);
  }

  /** SHA-1 of a whole message. */
  function Hash(f: (State, seq<Byte>) -> State, m: seq<Byte>): (r: seq<Byte>)
    ensures |r| == 20
  {
    Digest(Fold(f, INITIAL, Pad(m)))
  }

  /** Where the last, unfinished block of a message begins. */
  function Start(n: nat): (k: nat)
    ensures k % 64 == 0 && k <= n < k + 64
  {
    n - n % 64
  }

  lemma StartIs(n: nat, k: nat)
    requires k % 64 == 0 && k <= n < k + 64
    ensures Start(n) == k
  {
  }

  lemma OffsetIs(n: nat)
    ensures Low(n) / 8 % 64 == n - Start(n) == n % 64
  {
    assert 8 * n % WORD32 == 8 * (n % 0x2000_0000);
  }

  lemma NextBlock(m: seq<Byte>, data: seq<Byte>, i: nat)
    requires i + 64 <= |data|
    ensures data[i..i + 64] == (m + data)[|m| + i..|m| + i + 64]
  {
  }

  lemma FirstBlock(m: seq<Byte>, data: seq<Byte>, k: nat)
    requires k <= |m| < k + 64 <= |m| + |data|
    ensures m[k..] + data[..k + 64 - |m|] == (m + data)[k..k + 64] && (m + data)[..k] == m[..k]
  {
  }

  class Context {
    const transform: (State, seq<Byte>) -> State
    var state: State
    var low: nat
    var high: nat
    const buffer: array<Byte>
    ghost var fed: seq<Byte>

    /** The context stands for the message fed so far. */
    ghost predicate Valid()
      reads this, buffer
    {
      && buffer.Length == 64
      && low == Low(|fed|) && high == High(|fed|)
      && state == Fold(transform, INITIAL, fed[..Start(|fed|)])
      && buffer[..|fed| - Start(|fed|)] == fed[Start(|fed|)..]
    }

    constructor (transform: (State, seq<Byte>) -> State)
      ensures Valid() && fed == [] && this.transform == transform && fresh(buffer)
    {
      this.transform := transform;
      state, low, high := INITIAL, 0, 0;
      buffer := new Byte[64];
      fed := [];
    }

    method Count(len: nat)
      requires low == Low(|fed|) && high == High(|fed|)
      modifies this`low, this`high
      ensures low == Low(|fed| + len) && high == High(|fed| + len)
    {
      hide Low, High;
      CounterAdds(|fed|, len);
      var before := low;
      low := (low + 8 * (len % WORD32) % WORD32) % WORD32;
      if low < before {
        high := (high + 1) % WORD32;
      }
      high := (high + len / 0x2000_0000 % WORD32) % WORD32;
    }

    method Copy(at: nat, data: seq<Byte>)
      requires at + |data| <= buffer.Length
      modifies buffer
      ensures buffer[..at + |data|] == old(buffer[..at]) + data
      ensures buffer[at + |data|..] == old(buffer[at + |data|..])
    {
      forall k | 0 <= k < |data| {
        buffer[at + k] := data[k];
      }
    }

    /** The transform over every block of 64 bytes that `data` still holds from `from` on. */
    method Blocks(ghost before: seq<Byte>, data: seq<Byte>, from: nat) returns (i: nat)
      requires from <= |data| && (|before| + from) % 64 == 0
      requires state == Fold(transform, INITIAL, (before + data)[..|before| + from])
      modifies this`state
      ensures from <= i <= |data| < i + 64 && (|before| + i) % 64 == 0
      ensures state == Fold(transform, INITIAL, (before + data)[..|before| + i])
    {
      i := from;
      while i + 63 < |data|
        invariant from <= i <= |data| && (|before| + i) % 64 == 0
        invariant state == Fold(transform, INITIAL, (before + data)[..|before| + i])
      {
        FoldNext(transform, INITIAL, before + data, |before| + i);
        NextBlock(before, data, i);
        state := transform(state, data[i..i + 64]);
        i := i + 64;
      }
    }

    /** Transforms every block that `data` completes; what is left of it goes to `buffer` at `j`. */
    method Absorb(data: seq<Byte>, at: nat) returns (i: nat, j: nat)
      requires buffer.Length == 64 && at == |fed| - Start(|fed|) && buffer[..at] == fed[Start(|fed|)..]
      requires state == Fold(transform, INITIAL, fed[..Start(|fed|)])
      modifies this`state, buffer
      ensures i <= |data| && j + |data| - i < 64
      ensures state == Fold(transform, INITIAL, (fed + data)[..Start(|fed + data|)])
      ensures buffer[..j] + data[i..] == (fed + data)[Start(|fed + data|)..]
    {
      hide Fold, Start;
      ghost var k := Start(|fed|);
      if at + |data| > 63 {
        Copy(at, data[..64 - at]);
        FirstBlock(fed, data, k);
        assert buffer[..] == buffer[..64];
        FoldNext(transform, INITIAL, fed + data, k);
        state := transform(state, buffer[..]);
        i := Blocks(fed, data, 64 - at);
        j := 0;
        StartIs(|fed + data|, |fed| + i);
        assert (fed + data)[|fed| + i..] == data[i..];
      } else {
        StartIs(|fed + data|, k);
        i, j := 0, at;
        assert (fed + data)[..k] == fed[..k];
        assert (fed + data)[k..] == fed[k..] + data;
      }
    }

    method Update(data: seq<Byte>)
      requires Valid()
      modifies this, buffer
      ensures Valid() && fed == old(fed) + data
    {
      hide Fold, Low, High, Start;
      OffsetIs(|fed|);
      var before := low;
      Count(|data|);
      var i, j := Absorb(data, before / 8 % 64);
      Copy(j, data[i..]);
      fed := fed + data;
    }

    /** Zero bytes up to the last eight bytes of a block. */
    method FillBlock(ghost m: seq<Byte>)
      requires Valid() && fed == m + [0x80]
      modifies this, buffer
      ensures Valid() && fed == m + [0x80] + Zeros(ZeroCount(|m|))
    {
      hide Fold, Low, High, Start, ZeroCount, Zeros;
      ghost var n := 0;
      assert fed == m + [0x80] + Zeros(0);
      OffsetIs(|fed|);
      while low / 8 % 64 != 56
        invariant Valid() && n <= ZeroCount(|m|) && fed == m + [0x80] + Zeros(n)
        invariant low / 8 % 64 == |fed| % 64
        decreases ZeroCount(|m|) - n
      {
        Update([0]);
        assert Zeros(n) + [0] == Zeros(n + 1);
        assert fed == m + [0x80] + Zeros(n + 1);
        n := n + 1;
        OffsetIs(|fed|);
      }
      ZeroCountIsLeast(|m|, n);
    }

    /** The digest of everything fed, after which the context is wiped. */
    method Final() returns (digest: seq<Byte>)
      requires Valid()
      modifies this, buffer
      ensures digest == Hash(transform, old(fed))
      ensures state == State(0, 0, 0, 0, 0) && low == high == 0 && buffer[..] == Zeros(64)
    {
      hide Fold, Start, Zeros, ZeroCount, Digest, Bytes32;
      ghost var m := fed;
      var count := Bytes32(high) + Bytes32(low);
      Update([0x80]);
      FillBlock(m);
      Update(count);
      assert fed == Pad(m);
      StartIs(|fed|, |fed|);
      assert fed[..|fed|] == fed;
      digest := Digest(state);
      state, low, high := State(0, 0, 0, 0, 0), 0, 0;
      forall i | 0 <= i < 64 {
        buffer[i] := 0;
      }
    }
  }

  // ---------------------------------------------------------------------------------------
  // Keyed hashing
  // ---------------------------------------------------------------------------------------

  function Mask(key: seq<Byte>, pad: Byte): (r: seq<Byte>)
    ensures |r| == |key|
  {
    seq(|key|, i requires 0 <= i < |key| => Xor(key[i], pad))
  }

  /** A key as one block, as section 2 of RFC 2104 prescribes. */
  function KeyBlock(f: (State, seq<Byte>) -> State, key: seq<Byte>): (r: seq<Byte>)
    ensures |r| == 64
  {
    var short := if |key| > 64 then Hash(f, key) else key;
    short + Zeros(64 - |short|)
  }

  /** One block from a key of at most 64 bytes, once for each of the two pads. */
  method MaskKey(key: seq<Byte>) returns (inner: seq<Byte>, outer: seq<Byte>)
    requires |key| <= 64
    ensures inner == Mask(key + Zeros(64 - |key|), 0x36)
    ensures outer == Mask(key + Zeros(64 - |key|), 0x5c)
  {
    hide Xor;
    ghost var k := key + Zeros(64 - |key|);
    var buf1, buf2 := new Byte[64](_ => 0), new Byte[64](_ => 0);
    forall i | 0 <= i < |key| {
      buf1[i] := key[i];
    }
    forall i | 0 <= i < |key| {
      buf2[i] := key[i];
    }
    assert buf1[..] == k && buf2[..] == k;
    for i := 0 to 64
      invariant forall j | 0 <= j < i :: buf1[j] == Xor(k[j], 0x36) && buf2[j] == Xor(k[j], 0x5c)
      invariant forall j | i <= j < 64 :: buf1[j] == buf2[j] == k[j]
    {
      buf1[i] := Xor(buf1[i], 0x36);
      buf2[i] := Xor(buf2[i], 0x5c);
    }
    inner, outer := buf1[..], buf2[..];
  }

  /** A fresh context fed twice, as the keyed hash and the WebSocket handshake do. */
  method HashPair(f: (State, seq<Byte>) -> State, a: seq<Byte>, b: seq<Byte>) returns (digest: seq<Byte>)
    ensures digest == Hash(f, a + b)
  {
    hide Hash, Fold, Low, High, Start;
    var ctx := new Context(f);
    ctx.Update(a);
    assert [] + a == a;
    ctx.Update(b);
    digest := ctx.Final();
  }

  method HmacSha1(f: (State, seq<Byte>) -> State, key: seq<Byte>, data: seq<Byte>) returns (out: seq<Byte>)
    ensures out == Hash(f, Mask(KeyBlock(f, key), 0x5c) + Hash(f, Mask(KeyBlock(f, key), 0x36) + data))
  {
    hide Hash, Mask, Zeros, Fold, Low, High, Start;
    var short := key;
    if |key| > 64 {
      var ctx := new Context(f);
      ctx.Update(key);
      assert [] + key == key;
      short := ctx.Final();
    }
    var buf1, buf2 := MaskKey(short);
    out := HashPair(f, buf1, data);
    out := HashPair(f, buf2, out);
  }
}
