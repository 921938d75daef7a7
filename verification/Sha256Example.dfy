/** The example of FIPS 180-4: the message "abc", word by word and round by round. */
module Sha256Example {
  import opened Bytes
  import opened Sha256

  const ABC: seq<Byte> := [0x61, 0x62, 0x63]

  const ABC_DIGEST: seq<Byte> := [
    0xba, 0x78, 0x16, 0xbf, 0x8f, 0x01, 0xcf, 0xea, 0x41, 0x41, 0x40, 0xde, 0x5d, 0xae, 0x22, 0x23,
    0xb0, 0x03, 0x61, 0xa3, 0x96, 0x17, 0x7a, 0x9c, 0xb4, 0x10, 0xff, 0x61, 0xf2, 0x00, 0x15, 0xad]

  // ------------------------------------------------------------------------------------------
  // Rounds with the next sixteen words of the message schedule
  // ------------------------------------------------------------------------------------------

  datatype Window = Window(
    w0: bv32, w1: bv32, w2: bv32, w3: bv32, w4: bv32, w5: bv32, w6: bv32, w7: bv32,
    w8: bv32, w9: bv32, w10: bv32, w11: bv32, w12: bv32, w13: bv32, w14: bv32, w15: bv32)

  function Shifted(w: Window): Window {
    Window(w.w1, w.w2, w.w3, w.w4, w.w5, w.w6, w.w7, w.w8,
           w.w9, w.w10, w.w11, w.w12, w.w13, w.w14, w.w15, NextWord(w.w14, w.w9, w.w1, w.w0))
  }

  predicate Holds(b: seq<Byte>, t: nat, w: bv32)
    requires |b| == BLOCK
  {
    t < 64 ==> w == Schedule(b, t)
  }

  /** Round `t` starts from `v`, and `w` are the words from `t` on. */
  ghost predicate At(b: seq<Byte>, t: nat, v: Words, w: Window) {
    && |b| == BLOCK && t <= 64 && Rounds(INITIAL, b, t) == v
    && Holds(b, t + 0, w.w0) && Holds(b, t + 1, w.w1) && Holds(b, t + 2, w.w2)
    && Holds(b, t + 3, w.w3) && Holds(b, t + 4, w.w4) && Holds(b, t + 5, w.w5)
    && Holds(b, t + 6, w.w6) && Holds(b, t + 7, w.w7) && Holds(b, t + 8, w.w8)
    && Holds(b, t + 9, w.w9) && Holds(b, t + 10, w.w10) && Holds(b, t + 11, w.w11)
    && Holds(b, t + 12, w.w12) && Holds(b, t + 13, w.w13) && Holds(b, t + 14, w.w14)
    && Holds(b, t + 15, w.w15)
  }

  lemma Forward(b: seq<Byte>, t: nat, v: Words, w: Window) returns (v': Words, w': Window)
    requires t < 64 && At(b, t, v, w)
    ensures At(b, t + 1, v', w') && v' == Round(v, RoundConstant(t), w.w0) && w' == Shifted(w)
  {
    hide NextWord, Round, RoundConstant;
    v', w' := Round(v, RoundConstant(t), w.w0), Shifted(w);
    RoundsStep(INITIAL, b, t);
    if t < 48 {
      NextIs(b, t);
    }
  }

  lemma NextIs(b: seq<Byte>, t: nat)
    requires |b| == BLOCK && t < 48
    ensures Schedule(b, t + 16) == NextWord(Schedule(b, t + 14), Schedule(b, t + 9), Schedule(b, t + 1), Schedule(b, t))
  {
    hide NextWord;
  }

  // ------------------------------------------------------------------------------------------
  // The arithmetic of the example
  // ------------------------------------------------------------------------------------------

  /** Round `t` turns `v` into these two new variables and six that move on. */
  predicate Turn(t: nat, v: Words, w: bv32, a: bv32, e: bv32) {
    t < 64 && Round(v, RoundConstant(t), w) == Words(a, v.a, v.b, v.c, e, v.e, v.f, v.g)
  }

  lemma Words16()
    ensures NextWord(0x00000000, 0x00000000, 0x00000000, 0x61626380) == 0x61626380
    ensures NextWord(0x00000018, 0x00000000, 0x00000000, 0x00000000) == 0x000f0000
    ensures NextWord(0x61626380, 0x00000000, 0x00000000, 0x00000000) == 0x7da86405
    ensures NextWord(0x000f0000, 0x00000000, 0x00000000, 0x00000000) == 0x600003c6
    ensures NextWord(0x7da86405, 0x00000000, 0x00000000, 0x00000000) == 0x3e9d7b78
    ensures NextWord(0x600003c6, 0x00000000, 0x00000000, 0x00000000) == 0x0183fc00
    ensures NextWord(0x3e9d7b78, 0x00000018, 0x00000000, 0x00000000) == 0x12dcbfdb
    ensures NextWord(0x0183fc00, 0x61626380, 0x00000000, 0x00000000) == 0xe2e2c38e
  {
  }

  lemma Words24()
    ensures NextWord(0x12dcbfdb, 0x000f0000, 0x00000000, 0x00000000) == 0xc8215c1a
    ensures NextWord(0xe2e2c38e, 0x7da86405, 0x00000000, 0x00000000) == 0xb73679a2
    ensures NextWord(0xc8215c1a, 0x600003c6, 0x00000000, 0x00000000) == 0xe5bc3909
    ensures NextWord(0xb73679a2, 0x3e9d7b78, 0x00000000, 0x00000000) == 0x32663c5b
    ensures NextWord(0xe5bc3909, 0x0183fc00, 0x00000000, 0x00000000) == 0x9d209d67
    ensures NextWord(0x32663c5b, 0x12dcbfdb, 0x00000000, 0x00000000) == 0xec8726cb
    ensures NextWord(0x9d209d67, 0xe2e2c38e, 0x00000018, 0x00000000) == 0x702138a4
    ensures NextWord(0xec8726cb, 0xc8215c1a, 0x61626380, 0x00000018) == 0xd3b7973b
  {
  }

  lemma Words32()
    ensures NextWord(0x702138a4, 0xb73679a2, 0x000f0000, 0x61626380) == 0x93f5997f
    ensures NextWord(0xd3b7973b, 0xe5bc3909, 0x7da86405, 0x000f0000) == 0x3b68ba73
    ensures NextWord(0x93f5997f, 0x32663c5b, 0x600003c6, 0x7da86405) == 0xaff4ffc1
    ensures NextWord(0x3b68ba73, 0x9d209d67, 0x3e9d7b78, 0x600003c6) == 0xf10a5c62
    ensures NextWord(0xaff4ffc1, 0xec8726cb, 0x0183fc00, 0x3e9d7b78) == 0x0a8b3996
    ensures NextWord(0xf10a5c62, 0x702138a4, 0x12dcbfdb, 0x0183fc00) == 0x72af830a
    ensures NextWord(0x0a8b3996, 0xd3b7973b, 0xe2e2c38e, 0x12dcbfdb) == 0x9409e33e
    ensures NextWord(0x72af830a, 0x93f5997f, 0xc8215c1a, 0xe2e2c38e) == 0x24641522
  {
  }

  lemma Words40()
    ensures NextWord(0x9409e33e, 0x3b68ba73, 0xb73679a2, 0xc8215c1a) == 0x9f47bf94
    ensures NextWord(0x24641522, 0xaff4ffc1, 0xe5bc3909, 0xb73679a2) == 0xf0a64f5a
    ensures NextWord(0x9f47bf94, 0xf10a5c62, 0x32663c5b, 0xe5bc3909) == 0x3e246a79
    ensures NextWord(0xf0a64f5a, 0x0a8b3996, 0x9d209d67, 0x32663c5b) == 0x27333ba3
    ensures NextWord(0x3e246a79, 0x72af830a, 0xec8726cb, 0x9d209d67) == 0x0c4763f2
    ensures NextWord(0x27333ba3, 0x9409e33e, 0x702138a4, 0xec8726cb) == 0x840abf27
    ensures NextWord(0x0c4763f2, 0x24641522, 0xd3b7973b, 0x702138a4) == 0x7a290d5d
    ensures NextWord(0x840abf27, 0x9f47bf94, 0x93f5997f, 0xd3b7973b) == 0x065c43da
  {
  }

  lemma Words48()
    ensures NextWord(0x7a290d5d, 0xf0a64f5a, 0x3b68ba73, 0x93f5997f) == 0xfb3e89cb
    ensures NextWord(0x065c43da, 0x3e246a79, 0xaff4ffc1, 0x3b68ba73) == 0xcc7617db
    ensures NextWord(0xfb3e89cb, 0x27333ba3, 0xf10a5c62, 0xaff4ffc1) == 0xb9e66c34
    ensures NextWord(0xcc7617db, 0x0c4763f2, 0x0a8b3996, 0xf10a5c62) == 0xa9993667
    ensures NextWord(0xb9e66c34, 0x840abf27, 0x72af830a, 0x0a8b3996) == 0x84badedd
    ensures NextWord(0xa9993667, 0x7a290d5d, 0x9409e33e, 0x72af830a) == 0xc21462bc
    ensures NextWord(0x84badedd, 0x065c43da, 0x24641522, 0x9409e33e) == 0x1487472c
    ensures NextWord(0xc21462bc, 0xfb3e89cb, 0x9f47bf94, 0x24641522) == 0xb20f7a99
  {
  }

  lemma Words56()
    ensures NextWord(0x1487472c, 0xcc7617db, 0xf0a64f5a, 0x9f47bf94) == 0xef57b9cd
    ensures NextWord(0xb20f7a99, 0xb9e66c34, 0x3e246a79, 0xf0a64f5a) == 0xebe6b238
    ensures NextWord(0xef57b9cd, 0xa9993667, 0x27333ba3, 0x3e246a79) == 0x9fe3095e
    ensures NextWord(0xebe6b238, 0x84badedd, 0x0c4763f2, 0x27333ba3) == 0x78bc8d4b
    ensures NextWord(0x9fe3095e, 0xc21462bc, 0x840abf27, 0x0c4763f2) == 0xa43fcf15
    ensures NextWord(0x78bc8d4b, 0x1487472c, 0x7a290d5d, 0x840abf27) == 0x668b2ff8
    ensures NextWord(0xa43fcf15, 0xb20f7a99, 0x065c43da, 0x7a290d5d) == 0xeeaba2cc
    ensures NextWord(0x668b2ff8, 0xef57b9cd, 0xfb3e89cb, 0x065c43da) == 0x12b1edeb
  {
  }

  lemma Turns0()
    ensures Turn(0, Words(0x6a09e667, 0xbb67ae85, 0x3c6ef372, 0xa54ff53a,
                       0x510e527f, 0x9b05688c, 0x1f83d9ab, 0x5be0cd19), 0x61626380, 0x5d6aebcd, 0xfa2a4622)
    ensures Turn(1, Words(0x5d6aebcd, 0x6a09e667, 0xbb67ae85, 0x3c6ef372,
                       0xfa2a4622, 0x510e527f, 0x9b05688c, 0x1f83d9ab), 0x00000000, 0x5a6ad9ad, 0x78ce7989)
    ensures Turn(2, Words(0x5a6ad9ad, 0x5d6aebcd, 0x6a09e667, 0xbb67ae85,
                       0x78ce7989, 0xfa2a4622, 0x510e527f, 0x9b05688c), 0x00000000, 0xc8c347a7, 0xf92939eb)
    ensures Turn(3, Words(0xc8c347a7, 0x5a6ad9ad, 0x5d6aebcd, 0x6a09e667,
                       0xf92939eb, 0x78ce7989, 0xfa2a4622, 0x510e527f), 0x00000000, 0xd550f666, 0x24e00850)
  {
  }

  lemma Turns4()
    ensures Turn(4, Words(0xd550f666, 0xc8c347a7, 0x5a6ad9ad, 0x5d6aebcd,
                       0x24e00850, 0xf92939eb, 0x78ce7989, 0xfa2a4622), 0x00000000, 0x04409a6a, 0x43ada245)
    ensures Turn(5, Words(0x04409a6a, 0xd550f666, 0xc8c347a7, 0x5a6ad9ad,
                       0x43ada245, 0x24e00850, 0xf92939eb, 0x78ce7989), 0x00000000, 0x2b4209f5, 0x714260ad)
    ensures Turn(6, Words(0x2b4209f5, 0x04409a6a, 0xd550f666, 0xc8c347a7,
                       0x714260ad, 0x43ada245, 0x24e00850, 0xf92939eb), 0x00000000, 0xe5030380, 0x9b27a401)
    ensures Turn(7, Words(0xe5030380, 0x2b4209f5, 0x04409a6a, 0xd550f666,
                       0x9b27a401, 0x714260ad, 0x43ada245, 0x24e00850), 0x00000000, 0x85a07b5f, 0x0c657a79)
  {
  }

  lemma Turns8()
    ensures Turn(8, Words(0x85a07b5f, 0xe5030380, 0x2b4209f5, 0x04409a6a,
                       0x0c657a79, 0x9b27a401, 0x714260ad, 0x43ada245), 0x00000000, 0x8e04ecb9, 0x32ca2d8c)
    ensures Turn(9, Words(0x8e04ecb9, 0x85a07b5f, 0xe5030380, 0x2b4209f5,
                       0x32ca2d8c, 0x0c657a79, 0x9b27a401, 0x714260ad), 0x00000000, 0x8c87346b, 0x1cc92596)
    ensures Turn(10, Words(0x8c87346b, 0x8e04ecb9, 0x85a07b5f, 0xe5030380,
                       0x1cc92596, 0x32ca2d8c, 0x0c657a79, 0x9b27a401), 0x00000000, 0x4798a3f4, 0x436b23e8)
    ensures Turn(11, Words(0x4798a3f4, 0x8c87346b, 0x8e04ecb9, 0x85a07b5f,
                       0x436b23e8, 0x1cc92596, 0x32ca2d8c, 0x0c657a79), 0x00000000, 0xf71fc5a9, 0x816fd6e9)
  {
  }

  lemma Turns12()
    ensures Turn(12, Words(0xf71fc5a9, 0x4798a3f4, 0x8c87346b, 0x8e04ecb9,
                       0x816fd6e9, 0x436b23e8, 0x1cc92596, 0x32ca2d8c), 0x00000000, 0x87912990, 0x1e578218)
    ensures Turn(13, Words(0x87912990, 0xf71fc5a9, 0x4798a3f4, 0x8c87346b,
                       0x1e578218, 0x816fd6e9, 0x436b23e8, 0x1cc92596), 0x00000000, 0xd932eb16, 0x745a48de)
    ensures Turn(14, Words(0xd932eb16, 0x87912990, 0xf71fc5a9, 0x4798a3f4,
                       0x745a48de, 0x1e578218, 0x816fd6e9, 0x436b23e8), 0x00000000, 0xc0645fde, 0x0b92f20c)
    ensures Turn(15, Words(0xc0645fde, 0xd932eb16, 0x87912990, 0xf71fc5a9,
                       0x0b92f20c, 0x745a48de, 0x1e578218, 0x816fd6e9), 0x00000018, 0xb0fa238e, 0x07590dcd)
  {
  }

  lemma Turns16()
    ensures Turn(16, Words(0xb0fa238e, 0xc0645fde, 0xd932eb16, 0x87912990,
                       0x07590dcd, 0x0b92f20c, 0x745a48de, 0x1e578218), 0x61626380, 0x21da9a9b, 0x8034229c)
    ensures Turn(17, Words(0x21da9a9b, 0xb0fa238e, 0xc0645fde, 0xd932eb16,
                       0x8034229c, 0x07590dcd, 0x0b92f20c, 0x745a48de), 0x000f0000, 0xc2fbd9d1, 0x846ee454)
    ensures Turn(18, Words(0xc2fbd9d1, 0x21da9a9b, 0xb0fa238e, 0xc0645fde,
                       0x846ee454, 0x8034229c, 0x07590dcd, 0x0b92f20c), 0x7da86405, 0xfe777bbf, 0xcc899961)
    ensures Turn(19, Words(0xfe777bbf, 0xc2fbd9d1, 0x21da9a9b, 0xb0fa238e,
                       0xcc899961, 0x846ee454, 0x8034229c, 0x07590dcd), 0x600003c6, 0xe1f20c33, 0xb0638179)
  {
  }

  lemma Turns20()
    ensures Turn(20, Words(0xe1f20c33, 0xfe777bbf, 0xc2fbd9d1, 0x21da9a9b,
                       0xb0638179, 0xcc899961, 0x846ee454, 0x8034229c), 0x3e9d7b78, 0x9dc68b63, 0x8ada8930)
    ensures Turn(21, Words(0x9dc68b63, 0xe1f20c33, 0xfe777bbf, 0xc2fbd9d1,
                       0x8ada8930, 0xb0638179, 0xcc899961, 0x846ee454), 0x0183fc00, 0xc2606d6d, 0xe1257970)
    ensures Turn(22, Words(0xc2606d6d, 0x9dc68b63, 0xe1f20c33, 0xfe777bbf,
                       0xe1257970, 0x8ada8930, 0xb0638179, 0xcc899961), 0x12dcbfdb, 0xa7a3623f, 0x49f5114a)
    ensures Turn(23, Words(0xa7a3623f, 0xc2606d6d, 0x9dc68b63, 0xe1f20c33,
                       0x49f5114a, 0xe1257970, 0x8ada8930, 0xb0638179), 0xe2e2c38e, 0xc5d53d8d, 0xaa47c347)
  {
  }

  lemma Turns24()
    ensures Turn(24, Words(0xc5d53d8d, 0xa7a3623f, 0xc2606d6d, 0x9dc68b63,
                       0xaa47c347, 0x49f5114a, 0xe1257970, 0x8ada8930), 0xc8215c1a, 0x1c2c2838, 0x2823ef91)
    ensures Turn(25, Words(0x1c2c2838, 0xc5d53d8d, 0xa7a3623f, 0xc2606d6d,
                       0x2823ef91, 0xaa47c347, 0x49f5114a, 0xe1257970), 0xb73679a2, 0xcde8037d, 0x14383d8e)
    ensures Turn(26, Words(0xcde8037d, 0x1c2c2838, 0xc5d53d8d, 0xa7a3623f,
                       0x14383d8e, 0x2823ef91, 0xaa47c347, 0x49f5114a), 0xe5bc3909, 0xb62ec4bc, 0xc74c6516)
    ensures Turn(27, Words(0xb62ec4bc, 0xcde8037d, 0x1c2c2838, 0xc5d53d8d,
                       0xc74c6516, 0x14383d8e, 0x2823ef91, 0xaa47c347), 0x32663c5b, 0x77d37528, 0xedffbff8)
  {
  }

  lemma Turns28()
    ensures Turn(28, Words(0x77d37528, 0xb62ec4bc, 0xcde8037d, 0x1c2c2838,
                       0xedffbff8, 0xc74c6516, 0x14383d8e, 0x2823ef91), 0x9d209d67, 0x363482c9, 0x6112a3b7)
    ensures Turn(29, Words(0x363482c9, 0x77d37528, 0xb62ec4bc, 0xcde8037d,
                       0x6112a3b7, 0xedffbff8, 0xc74c6516, 0x14383d8e), 0xec8726cb, 0xa0060b30, 0xade79437)
    ensures Turn(30, Words(0xa0060b30, 0x363482c9, 0x77d37528, 0xb62ec4bc,
                       0xade79437, 0x6112a3b7, 0xedffbff8, 0xc74c6516), 0x702138a4, 0xea992a22, 0x0109ab3a)
    ensures Turn(31, Words(0xea992a22, 0xa0060b30, 0x363482c9, 0x77d37528,
                       0x0109ab3a, 0xade79437, 0x6112a3b7, 0xedffbff8), 0xd3b7973b, 0x73b33bf5, 0xba591112)
  {
  }

  lemma Turns32()
    ensures Turn(32, Words(0x73b33bf5, 0xea992a22, 0xa0060b30, 0x363482c9,
                       0xba591112, 0x0109ab3a, 0xade79437, 0x6112a3b7), 0x93f5997f, 0x98e12507, 0x9cd9f5f6)
    ensures Turn(33, Words(0x98e12507, 0x73b33bf5, 0xea992a22, 0xa0060b30,
                       0x9cd9f5f6, 0xba591112, 0x0109ab3a, 0xade79437), 0x3b68ba73, 0xfe604df5, 0x59249dd3)
    ensures Turn(34, Words(0xfe604df5, 0x98e12507, 0x73b33bf5, 0xea992a22,
                       0x59249dd3, 0x9cd9f5f6, 0xba591112, 0x0109ab3a), 0xaff4ffc1, 0xa9a7738c, 0x085f3833)
    ensures Turn(35, Words(0xa9a7738c, 0xfe604df5, 0x98e12507, 0x73b33bf5,
                       0x085f3833, 0x59249dd3, 0x9cd9f5f6, 0xba591112), 0xf10a5c62, 0x65a0cfe4, 0xf4b002d6)
  {
  }

  lemma Turns36()
    ensures Turn(36, Words(0x65a0cfe4, 0xa9a7738c, 0xfe604df5, 0x98e12507,
                       0xf4b002d6, 0x085f3833, 0x59249dd3, 0x9cd9f5f6), 0x0a8b3996, 0x41a65cb1, 0x0772a26b)
    ensures Turn(37, Words(0x41a65cb1, 0x65a0cfe4, 0xa9a7738c, 0xfe604df5,
                       0x0772a26b, 0xf4b002d6, 0x085f3833, 0x59249dd3), 0x72af830a, 0x34df1604, 0xa507a53d)
    ensures Turn(38, Words(0x34df1604, 0x41a65cb1, 0x65a0cfe4, 0xa9a7738c,
                       0xa507a53d, 0x0772a26b, 0xf4b002d6, 0x085f3833), 0x9409e33e, 0x6dc57a8a, 0xf0781bc8)
    ensures Turn(39, Words(0x6dc57a8a, 0x34df1604, 0x41a65cb1, 0x65a0cfe4,
                       0xf0781bc8, 0xa507a53d, 0x0772a26b, 0xf4b002d6), 0x24641522, 0x79ea687a, 0x1efbc0a0)
  {
  }

  lemma Turns40()
    ensures Turn(40, Words(0x79ea687a, 0x6dc57a8a, 0x34df1604, 0x41a65cb1,
                       0x1efbc0a0, 0xf0781bc8, 0xa507a53d, 0x0772a26b), 0x9f47bf94, 0xd6670766, 0x26352d63)
    ensures Turn(41, Words(0xd6670766, 0x79ea687a, 0x6dc57a8a, 0x34df1604,
                       0x26352d63, 0x1efbc0a0, 0xf0781bc8, 0xa507a53d), 0xf0a64f5a, 0xdf46652f, 0x838b2711)
    ensures Turn(42, Words(0xdf46652f, 0xd6670766, 0x79ea687a, 0x6dc57a8a,
                       0x838b2711, 0x26352d63, 0x1efbc0a0, 0xf0781bc8), 0x3e246a79, 0x17aa0dfe, 0xdecd4715)
    ensures Turn(43, Words(0x17aa0dfe, 0xdf46652f, 0xd6670766, 0x79ea687a,
                       0xdecd4715, 0x838b2711, 0x26352d63, 0x1efbc0a0), 0x27333ba3, 0x9d4baf93, 0xfda24c2e)
  {
  }

  lemma Turns44()
    ensures Turn(44, Words(0x9d4baf93, 0x17aa0dfe, 0xdf46652f, 0xd6670766,
                       0xfda24c2e, 0xdecd4715, 0x838b2711, 0x26352d63), 0x0c4763f2, 0x26628815, 0xa80f11f0)
    ensures Turn(45, Words(0x26628815, 0x9d4baf93, 0x17aa0dfe, 0xdf46652f,
                       0xa80f11f0, 0xfda24c2e, 0xdecd4715, 0x838b2711), 0x840abf27, 0x72ab4b91, 0xb7755da1)
    ensures Turn(46, Words(0x72ab4b91, 0x26628815, 0x9d4baf93, 0x17aa0dfe,
                       0xb7755da1, 0xa80f11f0, 0xfda24c2e, 0xdecd4715), 0x7a290d5d, 0xa14c14b0, 0xd57b94a9)
    ensures Turn(47, Words(0xa14c14b0, 0x72ab4b91, 0x26628815, 0x9d4baf93,
                       0xd57b94a9, 0xb7755da1, 0xa80f11f0, 0xfda24c2e), 0x065c43da, 0x4172328d, 0xfecf0bc6)
  {
  }

  lemma Turns48()
    ensures Turn(48, Words(0x4172328d, 0xa14c14b0, 0x72ab4b91, 0x26628815,
                       0xfecf0bc6, 0xd57b94a9, 0xb7755da1, 0xa80f11f0), 0xfb3e89cb, 0x05757ceb, 0xbd714038)
    ensures Turn(49, Words(0x05757ceb, 0x4172328d, 0xa14c14b0, 0x72ab4b91,
                       0xbd714038, 0xfecf0bc6, 0xd57b94a9, 0xb7755da1), 0xcc7617db, 0xf11bfaa8, 0x6e5c390c)
    ensures Turn(50, Words(0xf11bfaa8, 0x05757ceb, 0x4172328d, 0xa14c14b0,
                       0x6e5c390c, 0xbd714038, 0xfecf0bc6, 0xd57b94a9), 0xb9e66c34, 0x7a0508a1, 0x52f1ccf7)
    ensures Turn(51, Words(0x7a0508a1, 0xf11bfaa8, 0x05757ceb, 0x4172328d,
                       0x52f1ccf7, 0x6e5c390c, 0xbd714038, 0xfecf0bc6), 0xa9993667, 0x886e7a22, 0x49231c1e)
  {
  }

  lemma Turns52()
    ensures Turn(52, Words(0x886e7a22, 0x7a0508a1, 0xf11bfaa8, 0x05757ceb,
                       0x49231c1e, 0x52f1ccf7, 0x6e5c390c, 0xbd714038), 0x84badedd, 0x101fd28f, 0x529e7d00)
    ensures Turn(53, Words(0x101fd28f, 0x886e7a22, 0x7a0508a1, 0xf11bfaa8,
                       0x529e7d00, 0x49231c1e, 0x52f1ccf7, 0x6e5c390c), 0xc21462bc, 0xf5702fdb, 0x9f4787c3)
    ensures Turn(54, Words(0xf5702fdb, 0x101fd28f, 0x886e7a22, 0x7a0508a1,
                       0x9f4787c3, 0x529e7d00, 0x49231c1e, 0x52f1ccf7), 0x1487472c, 0x3ec45cdb, 0xe50e1b4f)
    ensures Turn(55, Words(0x3ec45cdb, 0xf5702fdb, 0x101fd28f, 0x886e7a22,
                       0xe50e1b4f, 0x9f4787c3, 0x529e7d00, 0x49231c1e), 0xb20f7a99, 0x38cc9913, 0x54cb266b)
  {
  }

  lemma Turns56()
    ensures Turn(56, Words(0x38cc9913, 0x3ec45cdb, 0xf5702fdb, 0x101fd28f,
                       0x54cb266b, 0xe50e1b4f, 0x9f4787c3, 0x529e7d00), 0xef57b9cd, 0xfcd1887b, 0x9b5e906c)
    ensures Turn(57, Words(0xfcd1887b, 0x38cc9913, 0x3ec45cdb, 0xf5702fdb,
                       0x9b5e906c, 0x54cb266b, 0xe50e1b4f, 0x9f4787c3), 0xebe6b238, 0xc062d46f, 0x7e44008e)
    ensures Turn(58, Words(0xc062d46f, 0xfcd1887b, 0x38cc9913, 0x3ec45cdb,
                       0x7e44008e, 0x9b5e906c, 0x54cb266b, 0xe50e1b4f), 0x9fe3095e, 0xffb70472, 0x6d83bfc6)
    ensures Turn(59, Words(0xffb70472, 0xc062d46f, 0xfcd1887b, 0x38cc9913,
                       0x6d83bfc6, 0x7e44008e, 0x9b5e906c, 0x54cb266b), 0x78bc8d4b, 0xb6ae8fff, 0xb21bad3d)
  {
  }

  lemma Turns60()
    ensures Turn(60, Words(0xb6ae8fff, 0xffb70472, 0xc062d46f, 0xfcd1887b,
                       0xb21bad3d, 0x6d83bfc6, 0x7e44008e, 0x9b5e906c), 0xa43fcf15, 0xb85e2ce9, 0x961f4894)
    ensures Turn(61, Words(0xb85e2ce9, 0xb6ae8fff, 0xffb70472, 0xc062d46f,
                       0x961f4894, 0xb21bad3d, 0x6d83bfc6, 0x7e44008e), 0x668b2ff8, 0x04d24d6c, 0x948d25b6)
    ensures Turn(62, Words(0x04d24d6c, 0xb85e2ce9, 0xb6ae8fff, 0xffb70472,
                       0x948d25b6, 0x961f4894, 0xb21bad3d, 0x6d83bfc6), 0xeeaba2cc, 0xd39a2165, 0xfb121210)
    ensures Turn(63, Words(0xd39a2165, 0x04d24d6c, 0xb85e2ce9, 0xb6ae8fff,
                       0xfb121210, 0x948d25b6, 0x961f4894, 0xb21bad3d), 0x12b1edeb, 0x506e3058, 0x5ef50f24)
  {
  }

  // ------------------------------------------------------------------------------------------
  // The sixty-four rounds
  // ------------------------------------------------------------------------------------------

  lemma From0(b: seq<Byte>, v0: Words, w0: Window) returns (v: Words, w: Window)
    requires At(b, 0, v0, w0)
    requires v0 == Words(0x6a09e667, 0xbb67ae85, 0x3c6ef372, 0xa54ff53a, 0x510e527f, 0x9b05688c, 0x1f83d9ab, 0x5be0cd19)
    requires w0 == Window(0x61626380, 0x00000000, 0x00000000, 0x00000000, 0x00000000,
                          0x00000000, 0x00000000, 0x00000000, 0x00000000, 0x00000000,
                          0x00000000, 0x00000000, 0x00000000, 0x00000000, 0x00000000, 0x00000018)
    ensures At(b, 16, v, w)
    ensures v == Words(0xb0fa238e, 0xc0645fde, 0xd932eb16, 0x87912990, 0x07590dcd, 0x0b92f20c, 0x745a48de, 0x1e578218)
    ensures w == Window(0x61626380, 0x000f0000, 0x7da86405, 0x600003c6, 0x3e9d7b78,
                        0x0183fc00, 0x12dcbfdb, 0xe2e2c38e, 0xc8215c1a, 0xb73679a2,
                        0xe5bc3909, 0x32663c5b, 0x9d209d67, 0xec8726cb, 0x702138a4, 0xd3b7973b)
  {
    Turns0();
    Turns4();
    Turns8();
    Turns12();
    Words16();
    Words24();
    hide At, Round, NextWord, RoundConstant;
    v, w := Forward(b, 0, v0, w0);
    v, w := Forward(b, 1, v, w);
    v, w := Forward(b, 2, v, w);
    v, w := Forward(b, 3, v, w);
    v, w := Forward(b, 4, v, w);
    v, w := Forward(b, 5, v, w);
    v, w := Forward(b, 6, v, w);
    v, w := Forward(b, 7, v, w);
    v, w := Forward(b, 8, v, w);
    v, w := Forward(b, 9, v, w);
    v, w := Forward(b, 10, v, w);
    v, w := Forward(b, 11, v, w);
    v, w := Forward(b, 12, v, w);
    v, w := Forward(b, 13, v, w);
    v, w := Forward(b, 14, v, w);
    v, w := Forward(b, 15, v, w);
  }

  lemma From16(b: seq<Byte>, v0: Words, w0: Window) returns (v: Words, w: Window)
    requires At(b, 16, v0, w0)
    requires v0 == Words(0xb0fa238e, 0xc0645fde, 0xd932eb16, 0x87912990, 0x07590dcd, 0x0b92f20c, 0x745a48de, 0x1e578218)
    requires w0 == Window(0x61626380, 0x000f0000, 0x7da86405, 0x600003c6, 0x3e9d7b78,
                          0x0183fc00, 0x12dcbfdb, 0xe2e2c38e, 0xc8215c1a, 0xb73679a2,
                          0xe5bc3909, 0x32663c5b, 0x9d209d67, 0xec8726cb, 0x702138a4, 0xd3b7973b)
    ensures At(b, 32, v, w)
    ensures v == Words(0x73b33bf5, 0xea992a22, 0xa0060b30, 0x363482c9, 0xba591112, 0x0109ab3a, 0xade79437, 0x6112a3b7)
    ensures w == Window(0x93f5997f, 0x3b68ba73, 0xaff4ffc1, 0xf10a5c62, 0x0a8b3996,
                        0x72af830a, 0x9409e33e, 0x24641522, 0x9f47bf94, 0xf0a64f5a,
                        0x3e246a79, 0x27333ba3, 0x0c4763f2, 0x840abf27, 0x7a290d5d, 0x065c43da)
  {
    Turns16();
    Turns20();
    Turns24();
    Turns28();
    Words32();
    Words40();
    hide At, Round, NextWord, RoundConstant;
    v, w := Forward(b, 16, v0, w0);
    v, w := Forward(b, 17, v, w);
    v, w := Forward(b, 18, v, w);
    v, w := Forward(b, 19, v, w);
    v, w := Forward(b, 20, v, w);
    v, w := Forward(b, 21, v, w);
    v, w := Forward(b, 22, v, w);
    v, w := Forward(b, 23, v, w);
    v, w := Forward(b, 24, v, w);
    v, w := Forward(b, 25, v, w);
    v, w := Forward(b, 26, v, w);
    v, w := Forward(b, 27, v, w);
    v, w := Forward(b, 28, v, w);
    v, w := Forward(b, 29, v, w);
    v, w := Forward(b, 30, v, w);
    v, w := Forward(b, 31, v, w);
  }

  lemma From32(b: seq<Byte>, v0: Words, w0: Window) returns (v: Words, w: Window)
    requires At(b, 32, v0, w0)
    requires v0 == Words(0x73b33bf5, 0xea992a22, 0xa0060b30, 0x363482c9, 0xba591112, 0x0109ab3a, 0xade79437, 0x6112a3b7)
    requires w0 == Window(0x93f5997f, 0x3b68ba73, 0xaff4ffc1, 0xf10a5c62, 0x0a8b3996,
                          0x72af830a, 0x9409e33e, 0x24641522, 0x9f47bf94, 0xf0a64f5a,
                          0x3e246a79, 0x27333ba3, 0x0c4763f2, 0x840abf27, 0x7a290d5d, 0x065c43da)
    ensures At(b, 48, v, w)
    ensures v == Words(0x4172328d, 0xa14c14b0, 0x72ab4b91, 0x26628815, 0xfecf0bc6, 0xd57b94a9, 0xb7755da1, 0xa80f11f0)
    ensures w == Window(0xfb3e89cb, 0xcc7617db, 0xb9e66c34, 0xa9993667, 0x84badedd,
                        0xc21462bc, 0x1487472c, 0xb20f7a99, 0xef57b9cd, 0xebe6b238,
                        0x9fe3095e, 0x78bc8d4b, 0xa43fcf15, 0x668b2ff8, 0xeeaba2cc, 0x12b1edeb)
  {
    Turns32();
    Turns36();
    Turns40();
    Turns44();
    Words48();
    Words56();
    hide At, Round, NextWord, RoundConstant;
    v, w := Forward(b, 32, v0, w0);
    v, w := Forward(b, 33, v, w);
    v, w := Forward(b, 34, v, w);
    v, w := Forward(b, 35, v, w);
    v, w := Forward(b, 36, v, w);
    v, w := Forward(b, 37, v, w);
    v, w := Forward(b, 38, v, w);
    v, w := Forward(b, 39, v, w);
    v, w := Forward(b, 40, v, w);
    v, w := Forward(b, 41, v, w);
    v, w := Forward(b, 42, v, w);
    v, w := Forward(b, 43, v, w);
    v, w := Forward(b, 44, v, w);
    v, w := Forward(b, 45, v, w);
    v, w := Forward(b, 46, v, w);
    v, w := Forward(b, 47, v, w);
  }

  lemma From48(b: seq<Byte>, v0: Words, w0: Window) returns (v: Words, w: Window)
    requires At(b, 48, v0, w0)
    requires v0 == Words(0x4172328d, 0xa14c14b0, 0x72ab4b91, 0x26628815, 0xfecf0bc6, 0xd57b94a9, 0xb7755da1, 0xa80f11f0)
    requires w0 == Window(0xfb3e89cb, 0xcc7617db, 0xb9e66c34, 0xa9993667, 0x84badedd,
                          0xc21462bc, 0x1487472c, 0xb20f7a99, 0xef57b9cd, 0xebe6b238,
                          0x9fe3095e, 0x78bc8d4b, 0xa43fcf15, 0x668b2ff8, 0xeeaba2cc, 0x12b1edeb)
    ensures At(b, 64, v, w)
    ensures v == Words(0x506e3058, 0xd39a2165, 0x04d24d6c, 0xb85e2ce9, 0x5ef50f24, 0xfb121210, 0x948d25b6, 0x961f4894)
  {
    Turns48();
    Turns52();
    Turns56();
    Turns60();
    hide At, Round, NextWord, RoundConstant;
    v, w := Forward(b, 48, v0, w0);
    v, w := Forward(b, 49, v, w);
    v, w := Forward(b, 50, v, w);
    v, w := Forward(b, 51, v, w);
    v, w := Forward(b, 52, v, w);
    v, w := Forward(b, 53, v, w);
    v, w := Forward(b, 54, v, w);
    v, w := Forward(b, 55, v, w);
    v, w := Forward(b, 56, v, w);
    v, w := Forward(b, 57, v, w);
    v, w := Forward(b, 58, v, w);
    v, w := Forward(b, 59, v, w);
    v, w := Forward(b, 60, v, w);
    v, w := Forward(b, 61, v, w);
    v, w := Forward(b, 62, v, w);
    v, w := Forward(b, 63, v, w);
  }

  // ------------------------------------------------------------------------------------------
  // The digest
  // ------------------------------------------------------------------------------------------

  lemma {:induction false} NoBytes(width: nat)
    ensures forall i | 0 <= i < width :: BigEndian(0, width)[i] == 0
  {
    if width > 0 {
      NoBytes(width - 1);
    }
  }

  lemma LowByte(n: nat, width: nat)
    requires n < 256
    ensures BigEndian(n, width + 1) == BigEndian(0, width) + [n]
  {
    assert n / 256 == 0 && n % 256 == n;
    assert BigEndian(n, width + 1) == BigEndian(n / 256, width) + [n % 256];
  }

  lemma BitLength()
    ensures var s := BigEndian(8 * |ABC|, 8); s[7] == 24 && forall i | 0 <= i < 7 :: s[i] == 0
  {
    LowByte(24, 7);
    NoBytes(7);
    hide BigEndian;
  }

  /** The one block of the padded message. */
  lemma AbcBlock()
    ensures IsAbcBlock(Pad(ABC)) && |Pad(ABC)| == BLOCK
  {
    BitLength();
    hide BigEndian;
    assert ZeroCount(3) == 52;
  }

  predicate IsAbcBlock(b: seq<Byte>) {
    && |b| == BLOCK && b[0] == 0x61 && b[1] == 0x62 && b[2] == 0x63 && b[3] == 0x80 && b[63] == 24
    && forall i | 4 <= i < 63 :: b[i] == 0
  }

  lemma Start(b: seq<Byte>, w: Window)
    requires IsAbcBlock(b) && w == Window(0x61626380, 0, 0, 0, 0, 0, 0, 0, 0, 0, 0, 0, 0, 0, 0, 0x18)
    ensures At(b, 0, INITIAL, w)
  {
    OuterWords(b);
    forall t | 1 <= t < 15 ensures Holds(b, t, 0) {
      NoWord(b, t);
      hide *;
    }
    hide Holds, IsAbcBlock, INITIAL;
  }

  lemma OuterWords(b: seq<Byte>)
    requires IsAbcBlock(b)
    ensures |b| == BLOCK && Holds(b, 0, 0x61626380) && Holds(b, 15, 0x18)
  {
    assert Word(0x61, 0x62, 0x63, 0x80) == 0x61626380 && Word(0, 0, 0, 24) == 0x18;
    hide Word;
    WordIs(b, 0);
    WordIs(b, 15);
  }

  lemma NoWord(b: seq<Byte>, t: nat)
    requires IsAbcBlock(b) && 1 <= t < 15
    ensures Holds(b, t, 0)
  {
    assert Word(0, 0, 0, 0) == 0;
    hide Word;
    WordIs(b, t);
  }

  lemma WordIs(b: seq<Byte>, t: nat)
    requires |b| == BLOCK && t < 16
    ensures Schedule(b, t) == Word(b[4 * t], b[4 * t + 1], b[4 * t + 2], b[4 * t + 3])
  {
    hide Word;
  }

  lemma Sums()
    ensures Add(Words(0x506e3058, 0xd39a2165, 0x04d24d6c, 0xb85e2ce9, 0x5ef50f24, 0xfb121210, 0x948d25b6, 0x961f4894),
                INITIAL)
         == Words(0xba7816bf, 0x8f01cfea, 0x414140de, 0x5dae2223, 0xb00361a3, 0x96177a9c, 0xb410ff61, 0xf20015ad)
  {
  }

  lemma AbcCompressed(b: seq<Byte>)
    requires |b| == BLOCK && IsAbcBlock(b)
    ensures Compress(INITIAL, b)
         == Words(0xba7816bf, 0x8f01cfea, 0x414140de, 0x5dae2223, 0xb00361a3, 0x96177a9c, 0xb410ff61, 0xf20015ad)
  {
    var w0 := Window(0x61626380, 0, 0, 0, 0, 0, 0, 0, 0, 0, 0, 0, 0, 0, 0, 0x18);
    Start(b, w0);
    hide At, Add, Rounds;
    var v, w := From0(b, INITIAL, w0);
    v, w := From16(b, v, w);
    v, w := From32(b, v, w);
    v, w := From48(b, v, w);
    Finished(b, v, w);
    Sums();
  }

  lemma Finished(b: seq<Byte>, v: Words, w: Window)
    requires At(b, 64, v, w)
    ensures Rounds(INITIAL, b, 64) == v
  {
    hide Rounds;
  }

  lemma DigestBytes()
    ensures Output(
      Words(0xba7816bf, 0x8f01cfea, 0x414140de, 0x5dae2223, 0xb00361a3, 0x96177a9c, 0xb410ff61, 0xf20015ad))
         == ABC_DIGEST
  {
    FirstBytes();
    LastBytes();
    hide WordBytes;
  }

  lemma FirstBytes()
    ensures WordBytes(0xba7816bf) == [0xba, 0x78, 0x16, 0xbf]
    ensures WordBytes(0x8f01cfea) == [0x8f, 0x01, 0xcf, 0xea]
    ensures WordBytes(0x414140de) == [0x41, 0x41, 0x40, 0xde]
    ensures WordBytes(0x5dae2223) == [0x5d, 0xae, 0x22, 0x23]
  {
  }

  lemma LastBytes()
    ensures WordBytes(0xb00361a3) == [0xb0, 0x03, 0x61, 0xa3]
    ensures WordBytes(0x96177a9c) == [0x96, 0x17, 0x7a, 0x9c]
    ensures WordBytes(0xb410ff61) == [0xb4, 0x10, 0xff, 0x61]
    ensures WordBytes(0xf20015ad) == [0xf2, 0x00, 0x15, 0xad]
  {
  }

  /** The digest of "abc" is the one that the standard publishes. */
  lemma AbcDigest()
    ensures Digest(ABC) == ABC_DIGEST
  {
    AbcBlock();
    OneBlock(INITIAL, Pad(ABC));
    AbcCompressed(Pad(ABC));
    DigestBytes();
    hide *;
  }

  // ------------------------------------------------------------------------------------------
  // Sections 4.2.2 and 5.3.3: where the constants come from
  // ------------------------------------------------------------------------------------------

  const TWO32: nat := 0x1_0000_0000
  const TWO96: nat := 0x1_0000_0000_0000_0000_0000_0000

  /** `root` is the cube root of `p`, in units of 2^-32, rounded down. */
  predicate IsCubeRoot(p: nat, root: nat) { root * root * root <= p * TWO96 < (root + 1) * (root + 1) * (root + 1) }

  /** `root` is the square root of `p`, in units of 2^-32, rounded down. */
  predicate IsSquareRoot(p: nat, root: nat) { root * root <= p * TWO64 < (root + 1) * (root + 1) }

  predicate HasFraction(root: nat, k: bv32) { root % TWO32 == k as nat }

  /** Round constant `t` is the first 32 bits of the fraction of the cube root of `p`. */
  predicate ConstantFrom(t: nat, p: nat, root: nat) {
    t < 64 && HasFraction(root, RoundConstant(t)) && IsCubeRoot(p, root)
  }

  /** The words of the initial hash value are the same of the square roots of the first eight primes. */
  lemma InitialValues()
    ensures HasFraction(0x1_6a09e667, INITIAL.a) && IsSquareRoot(2, 0x1_6a09e667)
    ensures HasFraction(0x1_bb67ae85, INITIAL.b) && IsSquareRoot(3, 0x1_bb67ae85)
    ensures HasFraction(0x2_3c6ef372, INITIAL.c) && IsSquareRoot(5, 0x2_3c6ef372)
    ensures HasFraction(0x2_a54ff53a, INITIAL.d) && IsSquareRoot(7, 0x2_a54ff53a)
    ensures HasFraction(0x3_510e527f, INITIAL.e) && IsSquareRoot(11, 0x3_510e527f)
    ensures HasFraction(0x3_9b05688c, INITIAL.f) && IsSquareRoot(13, 0x3_9b05688c)
    ensures HasFraction(0x4_1f83d9ab, INITIAL.g) && IsSquareRoot(17, 0x4_1f83d9ab)
    ensures HasFraction(0x4_5be0cd19, INITIAL.h) && IsSquareRoot(19, 0x4_5be0cd19)
  {
  }

  lemma CubeRoots0()
    ensures IsCubeRoot(2, 0x1_428a2f98) && IsCubeRoot(3, 0x1_71374491)
    ensures IsCubeRoot(5, 0x1_b5c0fbcf) && IsCubeRoot(7, 0x1_e9b5dba5)
    ensures IsCubeRoot(11, 0x2_3956c25b) && IsCubeRoot(13, 0x2_59f111f1)
    ensures IsCubeRoot(17, 0x2_923f82a4) && IsCubeRoot(19, 0x2_ab1c5ed5)
  {
  }

  lemma CubeRoots8()
    ensures IsCubeRoot(23, 0x2_d807aa98) && IsCubeRoot(29, 0x3_12835b01)
    ensures IsCubeRoot(31, 0x3_243185be) && IsCubeRoot(37, 0x3_550c7dc3)
    ensures IsCubeRoot(41, 0x3_72be5d74) && IsCubeRoot(43, 0x3_80deb1fe)
    ensures IsCubeRoot(47, 0x3_9bdc06a7) && IsCubeRoot(53, 0x3_c19bf174)
  {
  }

  lemma CubeRoots16()
    ensures IsCubeRoot(59, 0x3_e49b69c1) && IsCubeRoot(61, 0x3_efbe4786)
    ensures IsCubeRoot(67, 0x4_0fc19dc6) && IsCubeRoot(71, 0x4_240ca1cc)
    ensures IsCubeRoot(73, 0x4_2de92c6f) && IsCubeRoot(79, 0x4_4a7484aa)
    ensures IsCubeRoot(83, 0x4_5cb0a9dc) && IsCubeRoot(89, 0x4_76f988da)
  {
  }

  lemma CubeRoots24()
    ensures IsCubeRoot(97, 0x4_983e5152) && IsCubeRoot(101, 0x4_a831c66d)
    ensures IsCubeRoot(103, 0x4_b00327c8) && IsCubeRoot(107, 0x4_bf597fc7)
    ensures IsCubeRoot(109, 0x4_c6e00bf3) && IsCubeRoot(113, 0x4_d5a79147)
    ensures IsCubeRoot(127, 0x5_06ca6351) && IsCubeRoot(131, 0x5_14292967)
  {
  }

  lemma CubeRoots32()
    ensures IsCubeRoot(137, 0x5_27b70a85) && IsCubeRoot(139, 0x5_2e1b2138)
    ensures IsCubeRoot(149, 0x5_4d2c6dfc) && IsCubeRoot(151, 0x5_53380d13)
    ensures IsCubeRoot(157, 0x5_650a7354) && IsCubeRoot(163, 0x5_766a0abb)
    ensures IsCubeRoot(167, 0x5_81c2c92e) && IsCubeRoot(173, 0x5_92722c85)
  {
  }

  lemma CubeRoots40()
    ensures IsCubeRoot(179, 0x5_a2bfe8a1) && IsCubeRoot(181, 0x5_a81a664b)
    ensures IsCubeRoot(191, 0x5_c24b8b70) && IsCubeRoot(193, 0x5_c76c51a3)
    ensures IsCubeRoot(197, 0x5_d192e819) && IsCubeRoot(199, 0x5_d6990624)
    ensures IsCubeRoot(211, 0x5_f40e3585) && IsCubeRoot(223, 0x6_106aa070)
  {
  }

  lemma CubeRoots48()
    ensures IsCubeRoot(227, 0x6_19a4c116) && IsCubeRoot(229, 0x6_1e376c08)
    ensures IsCubeRoot(233, 0x6_2748774c) && IsCubeRoot(239, 0x6_34b0bcb5)
    ensures IsCubeRoot(241, 0x6_391c0cb3) && IsCubeRoot(251, 0x6_4ed8aa4a)
    ensures IsCubeRoot(257, 0x6_5b9cca4f) && IsCubeRoot(263, 0x6_682e6ff3)
  {
  }

  lemma CubeRoots56()
    ensures IsCubeRoot(269, 0x6_748f82ee) && IsCubeRoot(271, 0x6_78a5636f)
    ensures IsCubeRoot(277, 0x6_84c87814) && IsCubeRoot(281, 0x6_8cc70208)
    ensures IsCubeRoot(283, 0x6_90befffa) && IsCubeRoot(293, 0x6_a4506ceb)
    ensures IsCubeRoot(307, 0x6_bef9a3f7) && IsCubeRoot(311, 0x6_c67178f2)
  {
  }

  /** The round constants are those of the cube roots of the first sixty-four primes. */
  lemma RoundConstants0()
    ensures ConstantFrom(0, 2, 0x1_428a2f98) && ConstantFrom(1, 3, 0x1_71374491)
    ensures ConstantFrom(2, 5, 0x1_b5c0fbcf) && ConstantFrom(3, 7, 0x1_e9b5dba5)
  {
    CubeRoots0();
    hide IsCubeRoot;
  }

  lemma RoundConstants4()
    ensures ConstantFrom(4, 11, 0x2_3956c25b) && ConstantFrom(5, 13, 0x2_59f111f1)
    ensures ConstantFrom(6, 17, 0x2_923f82a4) && ConstantFrom(7, 19, 0x2_ab1c5ed5)
  {
    CubeRoots0();
    hide IsCubeRoot;
  }

  lemma RoundConstants8()
    ensures ConstantFrom(8, 23, 0x2_d807aa98) && ConstantFrom(9, 29, 0x3_12835b01)
    ensures ConstantFrom(10, 31, 0x3_243185be) && ConstantFrom(11, 37, 0x3_550c7dc3)
  {
    CubeRoots8();
    hide IsCubeRoot;
  }

  lemma RoundConstants12()
    ensures ConstantFrom(12, 41, 0x3_72be5d74) && ConstantFrom(13, 43, 0x3_80deb1fe)
    ensures ConstantFrom(14, 47, 0x3_9bdc06a7) && ConstantFrom(15, 53, 0x3_c19bf174)
  {
    CubeRoots8();
    hide IsCubeRoot;
  }

  lemma RoundConstants16()
    ensures ConstantFrom(16, 59, 0x3_e49b69c1) && ConstantFrom(17, 61, 0x3_efbe4786)
    ensures ConstantFrom(18, 67, 0x4_0fc19dc6) && ConstantFrom(19, 71, 0x4_240ca1cc)
  {
    CubeRoots16();
    hide IsCubeRoot;
  }

  lemma RoundConstants20()
    ensures ConstantFrom(20, 73, 0x4_2de92c6f) && ConstantFrom(21, 79, 0x4_4a7484aa)
    ensures ConstantFrom(22, 83, 0x4_5cb0a9dc) && ConstantFrom(23, 89, 0x4_76f988da)
  {
    CubeRoots16();
    hide IsCubeRoot;
  }

  lemma RoundConstants24()
    ensures ConstantFrom(24, 97, 0x4_983e5152) && ConstantFrom(25, 101, 0x4_a831c66d)
    ensures ConstantFrom(26, 103, 0x4_b00327c8) && ConstantFrom(27, 107, 0x4_bf597fc7)
  {
    CubeRoots24();
    hide IsCubeRoot;
  }

  lemma RoundConstants28()
    ensures ConstantFrom(28, 109, 0x4_c6e00bf3) && ConstantFrom(29, 113, 0x4_d5a79147)
    ensures ConstantFrom(30, 127, 0x5_06ca6351) && ConstantFrom(31, 131, 0x5_14292967)
  {
    CubeRoots24();
    hide IsCubeRoot;
  }

  lemma RoundConstants32()
    ensures ConstantFrom(32, 137, 0x5_27b70a85) && ConstantFrom(33, 139, 0x5_2e1b2138)
    ensures ConstantFrom(34, 149, 0x5_4d2c6dfc) && ConstantFrom(35, 151, 0x5_53380d13)
  {
    CubeRoots32();
    hide IsCubeRoot;
  }

  lemma RoundConstants36()
    ensures ConstantFrom(36, 157, 0x5_650a7354) && ConstantFrom(37, 163, 0x5_766a0abb)
    ensures ConstantFrom(38, 167, 0x5_81c2c92e) && ConstantFrom(39, 173, 0x5_92722c85)
  {
    CubeRoots32();
    hide IsCubeRoot;
  }

  lemma RoundConstants40()
    ensures ConstantFrom(40, 179, 0x5_a2bfe8a1) && ConstantFrom(41, 181, 0x5_a81a664b)
    ensures ConstantFrom(42, 191, 0x5_c24b8b70) && ConstantFrom(43, 193, 0x5_c76c51a3)
  {
    CubeRoots40();
    hide IsCubeRoot;
  }

  lemma RoundConstants44()
    ensures ConstantFrom(44, 197, 0x5_d192e819) && ConstantFrom(45, 199, 0x5_d6990624)
    ensures ConstantFrom(46, 211, 0x5_f40e3585) && ConstantFrom(47, 223, 0x6_106aa070)
  {
    CubeRoots40();
    hide IsCubeRoot;
  }

  lemma RoundConstants48()
    ensures ConstantFrom(48, 227, 0x6_19a4c116) && ConstantFrom(49, 229, 0x6_1e376c08)
    ensures ConstantFrom(50, 233, 0x6_2748774c) && ConstantFrom(51, 239, 0x6_34b0bcb5)
  {
    CubeRoots48();
    hide IsCubeRoot;
  }

  lemma RoundConstants52()
    ensures ConstantFrom(52, 241, 0x6_391c0cb3) && ConstantFrom(53, 251, 0x6_4ed8aa4a)
    ensures ConstantFrom(54, 257, 0x6_5b9cca4f) && ConstantFrom(55, 263, 0x6_682e6ff3)
  {
    CubeRoots48();
    hide IsCubeRoot;
  }

  lemma RoundConstants56()
    ensures ConstantFrom(56, 269, 0x6_748f82ee) && ConstantFrom(57, 271, 0x6_78a5636f)
    ensures ConstantFrom(58, 277, 0x6_84c87814) && ConstantFrom(59, 281, 0x6_8cc70208)
  {
    CubeRoots56();
    hide IsCubeRoot;
  }

  lemma RoundConstants60()
    ensures ConstantFrom(60, 283, 0x6_90befffa) && ConstantFrom(61, 293, 0x6_a4506ceb)
    ensures ConstantFrom(62, 307, 0x6_bef9a3f7) && ConstantFrom(63, 311, 0x6_c67178f2)
  {
    CubeRoots56();
    hide IsCubeRoot;
  }
}
