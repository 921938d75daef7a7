/** SHA-256 of FIPS 180-4: the standard's definition on whole messages. */
module Sha256 {
  import opened Bytes

  /** The constants of section 4.2.2, eight to a row. */
  const K: seq<seq<bv32>> := [
    [0x428a2f98, 0x71374491, 0xb5c0fbcf, 0xe9b5dba5, 0x3956c25b, 0x59f111f1, 0x923f82a4, 0xab1c5ed5],
    [0xd807aa98, 0x12835b01, 0x243185be, 0x550c7dc3, 0x72be5d74, 0x80deb1fe, 0x9bdc06a7, 0xc19bf174],
    [0xe49b69c1, 0xefbe4786, 0x0fc19dc6, 0x240ca1cc, 0x2de92c6f, 0x4a7484aa, 0x5cb0a9dc, 0x76f988da],
    [0x983e5152, 0xa831c66d, 0xb00327c8, 0xbf597fc7, 0xc6e00bf3, 0xd5a79147, 0x06ca6351, 0x14292967],
    [0x27b70a85, 0x2e1b2138, 0x4d2c6dfc, 0x53380d13, 0x650a7354, 0x766a0abb, 0x81c2c92e, 0x92722c85],
    [0xa2bfe8a1, 0xa81a664b, 0xc24b8b70, 0xc76c51a3, 0xd192e819, 0xd6990624, 0xf40e3585, 0x106aa070],
    [0x19a4c116, 0x1e376c08, 0x2748774c, 0x34b0bcb5, 0x391c0cb3, 0x4ed8aa4a, 0x5b9cca4f, 0x682e6ff3],
    [0x748f82ee, 0x78a5636f, 0x84c87814, 0x8cc70208, 0x90befffa, 0xa4506ceb, 0xbef9a3f7, 0xc67178f2]]

  function RoundConstant(t: nat): bv32
    requires t < 64
  {
    assert |K[t / 8]| == 8 by { RowLength(t / 8); }
    K[t / 8][t % 8]
  }

  lemma RowLength(i: nat)
    requires i < 8
    ensures |K[i]| == 8
  {
  }

  datatype Words = Words(a: bv32, b: bv32, c: bv32, d: bv32, e: bv32, f: bv32, g: bv32, h: bv32)

  const INITIAL := Words(0x6a09e667, 0xbb67ae85, 0x3c6ef372, 0xa54ff53a, 0x510e527f, 0x9b05688c, 0x1f83d9ab, 0x5be0cd19)

  // ------------------------------------------------------------------------------------------
  // Section 4.1.2: functions
  // ------------------------------------------------------------------------------------------

  /** Addition modulo 2^32. */
  function Plus(x: bv32, y: bv32): bv32 { x + y }

  function Rotr(x: bv32, n: bv6): bv32
    requires 0 < n < 32
  {
    (x >> n) | (x << (32 - n))
  }

  function Ch(x: bv32, y: bv32, z: bv32): bv32 { (x & y) ^ (!x & z) }

  function Maj(x: bv32, y: bv32, z: bv32): bv32 { (x & y) ^ (x & z) ^ (y & z) }

  function Sum0(x: bv32): bv32 { Rotr(x, 2) ^ Rotr(x, 13) ^ Rotr(x, 22) }

  function Sum1(x: bv32): bv32 { Rotr(x, 6) ^ Rotr(x, 11) ^ Rotr(x, 25) }

  function Sigma0(x: bv32): bv32 { Rotr(x, 7) ^ Rotr(x, 18) ^ (x >> 3) }

  function Sigma1(x: bv32): bv32 { Rotr(x, 17) ^ Rotr(x, 19) ^ (x >> 10) }

  // ------------------------------------------------------------------------------------------
  // Section 6.2.2: the hash computation
  // ------------------------------------------------------------------------------------------

  const BLOCK: nat := 64

  /** Four bytes, most significant first. */
  function Word(b0: Byte, b1: Byte, b2: Byte, b3: Byte): bv32 {
    ((b0 as bv32) << 24) | ((b1 as bv32) << 16) | ((b2 as bv32) << 8) | (b3 as bv32)
  }

  function WordAt(block: seq<Byte>, t: nat): bv32
    requires |block| == BLOCK && t < 16
  {
    Word(block[4 * t], block[4 * t + 1], block[4 * t + 2], block[4 * t + 3])
  }

  /** The sum of the four, in the order in which the helper adds them. */
  function NextWord(w2: bv32, w7: bv32, w15: bv32, w16: bv32): bv32 {
    Plus(Plus(Plus(w16, Sigma0(w15)), w7), Sigma1(w2))
  }

  /** The message schedule. */
  function Schedule(block: seq<Byte>, t: nat): bv32
    requires |block| == BLOCK && t < 64
  {
    if t < 16 then WordAt(block, t)
    else NextWord(Schedule(block, t - 2), Schedule(block, t - 7), Schedule(block, t - 15), Schedule(block, t - 16))
  }

  lemma ScheduleIs(block: seq<Byte>, t: nat)
    requires |block| == BLOCK && t < 64
    ensures Schedule(block, t)
         == if t < 16 then WordAt(block, t)
            else NextWord(Schedule(block, t - 2), Schedule(block, t - 7), Schedule(block, t - 15),
                          Schedule(block, t - 16))
  {
    hide WordAt, NextWord;
  }

  function Round(v: Words, k: bv32, w: bv32): Words {
    var t1 := Plus(Plus(Plus(Plus(v.h, Sum1(v.e)), Ch(v.e, v.f, v.g)), k), w);
    var t2 := Plus(Sum0(v.a), Maj(v.a, v.b, v.c));
    Words(Plus(t1, t2), v.a, v.b, v.c, Plus(v.d, t1), v.e, v.f, v.g)
  }

  /** The working variables after `t` rounds. */
  function Rounds(v: Words, block: seq<Byte>, t: nat): Words
    requires |block| == BLOCK && t <= 64
  {
    if t == 0 then v else Round(Rounds(v, block, t - 1), RoundConstant(t - 1), Schedule(block, t - 1))
  }

  lemma PlusCommutes(x: bv32, y: bv32)
    ensures Plus(x, y) == Plus(y, x)
  {
  }

  lemma RoundsStep(v: Words, block: seq<Byte>, t: nat)
    requires |block| == BLOCK && t < 64
    ensures Rounds(v, block, t + 1) == Round(Rounds(v, block, t), RoundConstant(t), Schedule(block, t))
  {
    hide Round, RoundConstant, Schedule;
  }

  function Add(u: Words, v: Words): Words {
    Words(Plus(u.a, v.a), Plus(u.b, v.b), Plus(u.c, v.c), Plus(u.d, v.d),
          Plus(u.e, v.e), Plus(u.f, v.f), Plus(u.g, v.g), Plus(u.h, v.h))
  }

  function Compress(h: Words, block: seq<Byte>): Words
    requires |block| == BLOCK
  {
    Add(Rounds(h, block, 64), h)
  }

  function HashBlocks(h: Words, blocks: seq<Byte>): Words
    requires |blocks| % BLOCK == 0
    decreases |blocks|
  {
    if blocks == [] then h else HashBlocks(Compress(h, blocks[..BLOCK]), blocks[BLOCK..])
  }

  // ------------------------------------------------------------------------------------------
  // Section 5.1.1: padding
  // ------------------------------------------------------------------------------------------

  const TWO64: nat := 0x1_0000_0000_0000_0000

  /** The least number of zero bytes that makes message, 0x80 and zeros end 8 bytes before a block boundary. */
  function ZeroCount(n: nat): (k: nat)
    ensures k < BLOCK && (n + 1 + k) % BLOCK == BLOCK - 8
  {
    (BLOCK - 8 + BLOCK - (n + 1) % BLOCK) % BLOCK
  }

  function Zeros(n: nat): seq<Byte> { seq(n, _ => 0) }

  function Pad(m: seq<Byte>): seq<Byte> {
    m + [0x80] + Zeros(ZeroCount(|m|)) + BigEndian(8 * |m|, 8)
  }

  lemma PadLength(m: seq<Byte>)
    ensures |Pad(m)| % BLOCK == 0
  {
    hide BigEndian, ZeroCount;
    RoomForLength(|m| + 1 + ZeroCount(|m|));
    assert |Zeros(ZeroCount(|m|))| == ZeroCount(|m|);
  }

  lemma RoomForLength(n: nat)
    requires n % BLOCK == BLOCK - 8
    ensures (n + 8) % BLOCK == 0
  {
  }

  function WordBytes(w: bv32): seq<Byte> {
    [((w >> 24) & 0xff) as int, ((w >> 16) & 0xff) as int, ((w >> 8) & 0xff) as int, (w & 0xff) as int]
  }

  function Output(h: Words): seq<Byte> {
    WordBytes(h.a) + WordBytes(h.b) + WordBytes(h.c) + WordBytes(h.d)
    + WordBytes(h.e) + WordBytes(h.f) + WordBytes(h.g) + WordBytes(h.h)
  }

  /** The digest of a message of fewer than 2^64 bits. */
  function Digest(m: seq<Byte>): seq<Byte>
    requires 8 * |m| < TWO64
  {
    PadLength(m);
    Output(HashBlocks(INITIAL, Pad(m)))
  }

  // ------------------------------------------------------------------------------------------
  // Blocks
  // ------------------------------------------------------------------------------------------

  lemma {:induction false} HashBlocksAppend(h: Words, s: seq<Byte>, t: seq<Byte>)
    requires |s| % BLOCK == 0 && |t| % BLOCK == 0
    ensures |s + t| % BLOCK == 0 && HashBlocks(h, s + t) == HashBlocks(HashBlocks(h, s), t)
    decreases |s|
  {
    hide Compress;
    if s == [] {
      assert s + t == t;
    } else {
      assert (s + t)[..BLOCK] == s[..BLOCK] && (s + t)[BLOCK..] == s[BLOCK..] + t;
      HashBlocksAppend(Compress(h, s[..BLOCK]), s[BLOCK..], t);
    }
  }

  lemma NoBlocks(h: Words)
    ensures HashBlocks(h, []) == h
  {
  }

  lemma OneBlock(h: Words, block: seq<Byte>)
    requires |block| == BLOCK
    ensures HashBlocks(h, block) == Compress(h, block)
  {
    assert block[..BLOCK] == block && block[BLOCK..] == [];
  }
}
