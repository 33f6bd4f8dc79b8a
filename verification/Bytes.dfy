/** Bytes and the operations on them that more than one protocol needs. */
module Bytes {
  type Byte = b: int | 0 <= b < 256

  /** How many numbers 32 bits hold. */
  const WORD32: nat := 0x1_0000_0000

  function Concat(chunks: seq<seq<Byte>>): seq<Byte> {
    if chunks == [] then [] else chunks[0] + Concat(chunks[1..])
  }

  function Pow2(k: nat): (r: nat)
    ensures r > 0
  {
    if k == 0 then 1 else 2 * Pow2(k - 1)
  }

  function XorBit(x: nat, y: nat): (r: nat)
    ensures r < 2
  {
    if x == y then 0 else 1
  }

  /** Exclusive or of the lowest `k` bits. */
  function XorBits(a: nat, b: nat, k: nat): (r: nat)
    ensures r < Pow2(k)
  {
    if k == 0 then 0 else XorBit(a % 2, b % 2) + 2 * XorBits(a / 2, b / 2, k - 1)
  }

  function Xor(a: Byte, b: Byte): Byte {
    assert Pow2(8) == 256;
    XorBits(a, b, 8)
  }

  lemma {:induction false} XorBitsTwice(a: nat, b: nat, k: nat)
    requires a < Pow2(k)
    ensures XorBits(XorBits(a, b, k), b, k) == a
  {
    if k > 0 {
      XorBitsTwice(a / 2, b / 2, k - 1);
    }
  }

  lemma XorTwice(a: Byte, b: Byte)
    ensures Xor(Xor(a, b), b) == a
  {
    hide XorBits;
    assert Pow2(8) == 256;
    XorBitsTwice(a, b, 8);
  }

  /** Bit `k` of a number. */
  function Bit(a: nat, k: nat): nat {
    if k == 0 then a % 2 else Bit(a / 2, k - 1)
  }

  lemma {:induction false} XorBitsByBit(a: nat, b: nat, n: nat, k: nat)
    requires k < n
    ensures Bit(XorBits(a, b, n), k) == 1 <==> Bit(a, k) != Bit(b, k)
    decreases n
  {
    if k > 0 { XorBitsByBit(a / 2, b / 2, n - 1, k - 1); }
  }

  /** A bit of the exclusive or is set exactly where the two differ. */
  lemma XorByBit(a: Byte, b: Byte, k: nat)
    requires k < 8
    ensures Bit(Xor(a, b), k) == 1 <==> Bit(a, k) != Bit(b, k)
  {
    hide XorBits, Bit;
    assert Pow2(8) == 256;
    XorBitsByBit(a, b, 8, k);
  }

  /** Two bytes, most significant first. */
  function Be16(a: Byte, b: Byte): (n: nat)
    ensures n < 0x1_0000
  {
    a * 0x100 + b
  }

  function Be32(a: Byte, b: Byte, c: Byte, d: Byte): (n: nat)
    ensures n < 0x1_0000_0000
  {
    Be16(a, b) * 0x1_0000 + Be16(c, d)
  }

  /** The two bytes of a 16-bit number, most significant first. */
  function Bytes16(n: nat): (r: seq<Byte>)
    requires n < 0x1_0000
    ensures |r| == 2 && Be16(r[0], r[1]) == n
  {
    [n / 0x100, n % 0x100]
  }

  function Bytes32(n: nat): (r: seq<Byte>)
    requires n < 0x1_0000_0000
    ensures |r| == 4 && Be32(r[0], r[1], r[2], r[3]) == n
  {
    Bytes16(n / 0x1_0000) + Bytes16(n % 0x1_0000)
  }

  lemma DivMod(x: nat, q: nat, r: nat)
    requires x == q * WORD32 + r && r < WORD32
    ensures x / WORD32 == q && x % WORD32 == r
  {
  }

  lemma ModAdds(a: nat, b: nat)
    ensures (a % WORD32 + b) % WORD32 == (a + b) % WORD32
  {
    var sum := a % WORD32 + b;
    DivMod(a + b, a / WORD32 + sum / WORD32, sum % WORD32);
  }
}
