/** The streaming SHA-256 of the live lock helper: `sha256_init`, `sha256_update` and `sha256_final`. */
module Sha256Stream {
  import opened Bytes
  import opened Sha256

  /** The eight words of a state array. */
  function Packed(h: seq<bv32>): Words
    requires |h| == 8
  {
    Words(h[0], h[1], h[2], h[3], h[4], h[5], h[6], h[7])
  }

  class Context {
    const h: array<bv32>
    var bytes: nat
    const block: array<Byte>
    var used: nat
    /** Everything fed so far. */
    ghost var message: seq<Byte>

    /** The state after `fed`: its whole blocks are compressed, the rest waits in the block. */
    ghost predicate Absorbed(fed: seq<Byte>)
      reads this, h, block
    {
      && h.Length == 8 && block.Length == BLOCK && used == |fed| % BLOCK
      && block[..used] == fed[|fed| - used..]
      && Packed(h[..]) == HashBlocks(INITIAL, fed[..|fed| - used])
    }

    ghost predicate Valid()
      reads this, h, block
    {
      Absorbed(message) && bytes == |message| % TWO64
    }

    constructor ()
      ensures Valid() && message == [] && fresh(h) && fresh(block)
    {
      hide HashBlocks, Compress;
      NoBlocks(INITIAL);
      h := new bv32[] [0x6a09e667, 0xbb67ae85, 0x3c6ef372, 0xa54ff53a, 0x510e527f, 0x9b05688c, 0x1f83d9ab, 0x5be0cd19];
      block := new Byte[BLOCK];
      bytes := 0;
      used := 0;
      message := [];
      new;
      assert h[..] == [INITIAL.a, INITIAL.b, INITIAL.c, INITIAL.d, INITIAL.e, INITIAL.f, INITIAL.g, INITIAL.h];
    }

    /** The message schedule of the current block. */
    method Expand() returns (w: array<bv32>)
      requires block.Length == BLOCK
      ensures fresh(w) && w.Length == 64 && forall t | 0 <= t < 64 :: w[t] == Schedule(block[..], t)
    {
      hide Word, Sigma0, Sigma1, Plus, Schedule;
      w := new bv32[64];
      for i := 0 to 16
        invariant forall t | 0 <= t < i :: w[t] == Schedule(block[..], t)
      {
        w[i] := Word(block[4 * i], block[4 * i + 1], block[4 * i + 2], block[4 * i + 3]);
        assert w[i] == WordAt(block[..], i);
        ScheduleIs(block[..], i);
      }
      for i := 16 to 64
        invariant forall t | 0 <= t < i :: w[t] == Schedule(block[..], t)
      {
        var s0 := Sigma0(w[i - 15]);
        var s1 := Sigma1(w[i - 2]);
        w[i] := Plus(Plus(Plus(w[i - 16], s0), w[i - 7]), s1);
        assert w[i] == NextWord(w[i - 2], w[i - 7], w[i - 15], w[i - 16]);
        ScheduleIs(block[..], i);
      }
    }

    /** `sha256_transform`. */
    method Transform()
      requires h.Length == 8 && block.Length == BLOCK
      modifies h
      ensures Packed(h[..]) == Compress(Packed(old(h[..])), old(block[..]))
    {
      hide Rounds, Schedule, Plus;
      var w := Expand();
      ghost var v0 := Packed(h[..]);
      var v := RunRounds(w);
      h[0], h[1], h[2], h[3] := Plus(h[0], v.a), Plus(h[1], v.b), Plus(h[2], v.c), Plus(h[3], v.d);
      h[4], h[5], h[6], h[7] := Plus(h[4], v.e), Plus(h[5], v.f), Plus(h[6], v.g), Plus(h[7], v.h);
      AddCommutes(v0, v);
    }

    /** The 64 rounds over the working variables. */
    method RunRounds(w: array<bv32>) returns (v: Words)
      requires h.Length == 8 && block.Length == BLOCK && w.Length == 64
      requires forall t | 0 <= t < 64 :: w[t] == Schedule(block[..], t)
      ensures v == Rounds(Packed(h[..]), block[..], 64)
    {
      var a, b, c, d := h[0], h[1], h[2], h[3];
      var e, f, g, hh := h[4], h[5], h[6], h[7];
      ghost var v0 := Packed(h[..]);
      assert Rounds(v0, block[..], 0) == v0;
      hide Rounds, RoundConstant, Schedule, Plus, Sum0, Sum1, Ch, Maj;
      for i := 0 to 64
        invariant Words(a, b, c, d, e, f, g, hh) == Rounds(v0, block[..], i)
      {
        RoundsStep(v0, block[..], i);
        var t1 := Plus(Plus(Plus(Plus(hh, Sum1(e)), Ch(e, f, g)), RoundConstant(i)), w[i]);
        var t2 := Plus(Sum0(a), Maj(a, b, c));
        hh := g;
        g := f;
        f := e;
        e := Plus(d, t1);
        d := c;
        c := b;
        b := a;
        a := Plus(t1, t2);
      }
      v := Words(a, b, c, d, e, f, g, hh);
    }

    /** `sha256_update`: whole blocks are compressed as they fill up. */
    method Update(data: seq<Byte>)
      requires Valid()
      modifies this, h, block
      ensures Valid() && message == old(message) + data
    {
      hide HashBlocks, Compress;
      var p := data;
      ghost var fed := message;
      bytes := (bytes + |data|) % TWO64;
      message := message + data;
      while p != []
        invariant Absorbed(fed) && fed + p == message && message == old(message) + data
        invariant bytes == |message| % TWO64
        decreases |p|
      {
        var take := if BLOCK - used > |p| then |p| else BLOCK - used;
        Piece(fed, p, take);
        Fill(p[..take], fed);
        fed := fed + p[..take];
        p := p[take..];
      }
      assert fed == message;
    }

    /** A piece that fits into the block, and the compression of the block when it is full. */
    method Fill(piece: seq<Byte>, ghost fed: seq<Byte>)
      requires Absorbed(fed) && used + |piece| <= BLOCK
      modifies this`used, h, block
      ensures Absorbed(fed + piece)
    {
      hide HashBlocks, Compress;
      ghost var full := |fed| - used;
      ghost var waiting := fed[full..];
      Waiting(|fed|, |piece|);
      Joining(fed, full, piece);
      Copy(piece);
      used := used + |piece|;
      if used == BLOCK {
        CompressBlock(fed[..full], waiting + piece);
        used := 0;
      }
    }

    /** The compression of a full block. */
    method CompressBlock(ghost blocks: seq<Byte>, ghost last: seq<Byte>)
      requires h.Length == 8 && block.Length == BLOCK && block[..BLOCK] == last && |blocks| % BLOCK == 0
      requires Packed(h[..]) == HashBlocks(INITIAL, blocks)
      modifies h
      ensures |blocks + last| % BLOCK == 0 && Packed(h[..]) == HashBlocks(INITIAL, blocks + last)
    {
      HashOneMore(blocks, last);
      hide HashBlocks, Compress;
      assert block[..] == last;
      Transform();
    }

    /** `memcpy` behind the bytes in use. */
    method Copy(piece: seq<Byte>)
      requires block.Length == BLOCK && used + |piece| <= BLOCK
      modifies block
      ensures block[..used + |piece|] == old(block[..used]) + piece
    {
      forall i | 0 <= i < |piece| {
        block[used + i] := piece[i];
      }
    }

    /** `sha256_final`. */
    method Final() returns (out: seq<Byte>)
      requires Valid()
      modifies this, h, block
      ensures 8 * |old(message)| < TWO64 ==> out == Digest(old(message))
    {
      hide HashBlocks, Compress, Pad, Output, BigEndian, Zeros;
      ghost var m := message;
      var bits := bytes * 8 % TWO64;
      BitCount(|m|);
      ghost var blocks := m[..|m| - used];
      ghost var rest := m[|m| - used..] + [0x80];
      Copy([0x80]);
      used := used + 1;
      if used > 56 {
        FullBlock(blocks, rest);
        blocks := blocks + (rest + Zeros(BLOCK - |rest|));
        rest := [];
      }
      LastBlock(bits, blocks, rest);
      Padded(m);
      assert [] + Zeros(56) == Zeros(56);
      out := Output(Packed(h[..]));
    }

    /** Zeros up to the end of the block, when the length does not fit. */
    method FullBlock(ghost blocks: seq<Byte>, ghost rest: seq<Byte>)
      requires h.Length == 8 && block.Length == BLOCK && |blocks| % BLOCK == 0 && used <= BLOCK
      requires block[..used] == rest && Packed(h[..]) == HashBlocks(INITIAL, blocks)
      modifies this`used, h, block
      ensures used == 0
      ensures var last := rest + Zeros(BLOCK - |rest|);
        |blocks + last| % BLOCK == 0 && Packed(h[..]) == HashBlocks(INITIAL, blocks + last)
    {
      hide HashBlocks, Compress;
      Copy(Zeros(BLOCK - used));
      CompressBlock(blocks, rest + Zeros(BLOCK - used));
      used := 0;
    }

    /** Zeros up to the length, and the length. */
    method LastBlock(bits: nat, ghost blocks: seq<Byte>, ghost rest: seq<Byte>)
      requires h.Length == 8 && block.Length == BLOCK && |blocks| % BLOCK == 0 && used <= 56
      requires block[..used] == rest && Packed(h[..]) == HashBlocks(INITIAL, blocks)
      modifies this`used, h, block
      ensures var last := rest + Zeros(56 - |rest|) + BigEndian(bits, 8);
        |blocks + last| % BLOCK == 0 && Packed(h[..]) == HashBlocks(INITIAL, blocks + last)
    {
      hide HashBlocks, Compress, BigEndian;
      Copy(Zeros(56 - used));
      used := 56;
      Copy(BigEndian(bits, 8));
      CompressBlock(blocks, rest + Zeros(56 - |rest|) + BigEndian(bits, 8));
    }
  }

  lemma Piece(fed: seq<Byte>, p: seq<Byte>, take: nat)
    requires take <= |p|
    ensures fed + p[..take] + p[take..] == fed + p
  {
    assert p[..take] + p[take..] == p;
  }

  /** How many bytes wait when `k` more arrive and fit into the block. */
  lemma Waiting(n: nat, k: nat)
    requires n % BLOCK + k <= BLOCK
    ensures (n + k) % BLOCK == if n % BLOCK + k == BLOCK then 0 else n % BLOCK + k
  {
  }

  lemma Joining(fed: seq<Byte>, full: nat, piece: seq<Byte>)
    requires full <= |fed|
    ensures (fed + piece)[..full] == fed[..full] && (fed + piece)[full..] == fed[full..] + piece
    ensures (fed + piece)[..|fed + piece|] == fed[..full] + (fed[full..] + piece)
  {
  }

  /** The 64-bit length wraps only beyond the messages of the standard. */
  lemma BitCount(n: nat)
    ensures 8 * n < TWO64 ==> n % TWO64 * 8 % TWO64 == 8 * n
  {
  }

  lemma HashOneMore(blocks: seq<Byte>, last: seq<Byte>)
    requires |blocks| % BLOCK == 0 && |last| == BLOCK
    ensures |blocks + last| % BLOCK == 0
    ensures HashBlocks(INITIAL, blocks + last) == Compress(HashBlocks(INITIAL, blocks), last)
  {
    HashBlocksAppend(INITIAL, blocks, last);
    OneBlock(HashBlocks(INITIAL, blocks), last);
  }

  /** Message, 0x80 and zeros, split at the last block boundary of the message. */
  lemma PaddingSplits(m: seq<Byte>, length: seq<Byte>)
    ensures var used := |m| % BLOCK + 1; var full := |m| + 1 - used;
      var rest := m[full..] + [0x80];
      m + [0x80] + Zeros(ZeroCount(|m|)) + length
         == if used <= 56 then m[..full] + (rest + Zeros(56 - used) + length)
            else m[..full] + (rest + Zeros(BLOCK - used)) + (Zeros(56) + length)
  {
    hide ZeroCount, Zeros;
    var used := |m| % BLOCK + 1;
    var full := |m| + 1 - used;
    ZeroCountIs(|m|);
    assert m == m[..full] + m[full..];
    if used > 56 {
      ZerosAdd(BLOCK - used, 56);
    }
  }

  lemma ZeroCountIs(n: nat)
    ensures var used := n % BLOCK + 1; ZeroCount(n) == if used <= 56 then 56 - used else BLOCK - used + 56
  {
  }

  lemma ZerosAdd(j: nat, k: nat)
    ensures Zeros(j + k) == Zeros(j) + Zeros(k)
  {
  }

  /** The padding of the standard, block by block as the helper builds it. */
  lemma Padded(m: seq<Byte>)
    ensures var used := |m| % BLOCK + 1; var full := |m| + 1 - used;
      var rest := m[full..] + [0x80];
      Pad(m) == if used <= 56 then m[..full] + (rest + Zeros(56 - used) + BigEndian(8 * |m|, 8))
                else m[..full] + (rest + Zeros(BLOCK - used)) + (Zeros(56) + BigEndian(8 * |m|, 8))
  {
    hide BigEndian, ZeroCount;
    PaddingSplits(m, BigEndian(8 * |m|, 8));
  }

  /** Any split of a message across updates gives the digest of the whole. */
  method DigestOfParts(parts: seq<seq<Byte>>) returns (out: seq<Byte>)
    ensures 8 * |Joined(parts)| < TWO64 ==> out == Digest(Joined(parts))
  {
    var context := new Context();
    for i := 0 to |parts|
      invariant context.Valid() && context.message == Joined(parts[..i])
      invariant fresh(context) && fresh(context.h) && fresh(context.block)
    {
      assert parts[..i + 1][..i] == parts[..i];
      context.Update(parts[i]);
    }
    assert parts[..|parts|] == parts;
    out := context.Final();
  }

  function Joined(parts: seq<seq<Byte>>): seq<Byte> {
    if parts == [] then [] else Joined(parts[..|parts| - 1]) + parts[|parts| - 1]
  }

  lemma AddCommutes(u: Words, v: Words)
    ensures Add(u, v) == Add(v, u)
  {
    PlusCommutes(u.a, v.a);
    PlusCommutes(u.b, v.b);
    PlusCommutes(u.c, v.c);
    PlusCommutes(u.d, v.d);
    PlusCommutes(u.e, v.e);
    PlusCommutes(u.f, v.f);
    PlusCommutes(u.g, v.g);
    PlusCommutes(u.h, v.h);
    hide Plus;
  }
}
