/**
 What the shipped seed does with spikes off (freertos/src/voltage_monitor.c): the
 sweep draws a zero step at the ceiling and freezes. The proof follows the bytes of
 the generator seven at a time, which is one multiplication per block.
 */
module ShippedSeed {
  import opened Machine
  import opened Numbers
  import opened Rand8
  import opened VoltageMonitor

  // ----- seven calls at once -----

  /** A state written as its seven bytes, oldest first, and its carry. */
  function State(b0: Byte, b1: Byte, b2: Byte, b3: Byte, b4: Byte, b5: Byte, b6: Byte, c: nat): nat {
    Low(b0, b1, b2, b3, b4, b5, b6) + 0x100_0000_0000_0000 * c
  }

  function Low(b0: int, b1: int, b2: int, b3: int, b4: int, b5: int, b6: int): int {
    b0 + 0x100 * b1 + 0x1_0000 * b2 + 0x100_0000 * b3
      + 0x1_0000_0000 * b4 + 0x100_0000_0000 * b5 + 0x1_0000_0000_0000 * b6
  }

  lemma PlaceValues()
    ensures Pow(256, 0) == 1 && Pow(256, 1) == 0x100 && Pow(256, 2) == 0x1_0000 && Pow(256, 3) == 0x100_0000
    ensures Pow(256, 4) == 0x1_0000_0000 && Pow(256, 5) == 0x100_0000_0000 && Pow(256, 6) == 0x1_0000_0000_0000
    ensures Pow(256, 7) == 0x100_0000_0000_0000
  {
  }

  /** The seven bytes held are the next seven consumed. */
  lemma HeldBytes(b0: Byte, b1: Byte, b2: Byte, b3: Byte, b4: Byte, b5: Byte, b6: Byte, c: nat)
    ensures var n := State(b0, b1, b2, b3, b4, b5, b6, c);
      && Consumed(n, 0) == b0 && Consumed(n, 1) == b1 && Consumed(n, 2) == b2 && Consumed(n, 3) == b3
      && Consumed(n, 4) == b4 && Consumed(n, 5) == b5 && Consumed(n, 6) == b6
  {
    hide Next, Consumed, Pow;
    var n := State(b0, b1, b2, b3, b4, b5, b6, c);
    PlaceValues();
    var h6: nat := c;
    var h5: nat := b6 + 0x100 * h6;
    var h4: nat := b5 + 0x100 * h5;
    var h3: nat := b4 + 0x100 * h4;
    var h2: nat := b3 + 0x100 * h3;
    var h1: nat := b2 + 0x100 * h2;
    var h0: nat := b1 + 0x100 * h1;
    DigitReachesBottom(n, 0, b0, 0, h0);
    DigitReachesBottom(n, 1, b1, Low(b0, 0, 0, 0, 0, 0, 0), h1);
    DigitReachesBottom(n, 2, b2, Low(b0, b1, 0, 0, 0, 0, 0), h2);
    DigitReachesBottom(n, 3, b3, Low(b0, b1, b2, 0, 0, 0, 0), h3);
    DigitReachesBottom(n, 4, b4, Low(b0, b1, b2, b3, 0, 0, 0), h4);
    DigitReachesBottom(n, 5, b5, Low(b0, b1, b2, b3, b4, 0, 0), h5);
    DigitReachesBottom(n, 6, b6, Low(b0, b1, b2, b3, b4, b5, 0), h6);
  }

  /** So seven calls are one multiplication. */
  lemma SevenCalls(b0: Byte, b1: Byte, b2: Byte, b3: Byte, b4: Byte, b5: Byte, b6: Byte, c: nat)
    ensures Nth(State(b0, b1, b2, b3, b4, b5, b6, c), 7) == c + 315 * Low(b0, b1, b2, b3, b4, b5, b6)
  {
    hide Next, Nth, Consumed, Pow;
    var n, d := State(b0, b1, b2, b3, b4, b5, b6, c), Low(b0, b1, b2, b3, b4, b5, b6);
    HeldBytes(b0, b1, b2, b3, b4, b5, b6, c);
    PlaceValues();
    SevenConsumed(n);
    RunIdentity(n, 7);
    assert 0x100_0000_0000_0000 * Nth(n, 7) == n + MODULUS * d;
  }

  lemma SevenConsumed(n: nat)
    ensures ConsumedNumber(n, 7) == Low(Consumed(n, 0), Consumed(n, 1), Consumed(n, 2), Consumed(n, 3),
                                        Consumed(n, 4), Consumed(n, 5), Consumed(n, 6))
  {
    hide Consumed;
    PlaceValues();
    assert ConsumedNumber(n, 1) == Consumed(n, 0) * Pow(256, 0);
    assert ConsumedNumber(n, 2) == ConsumedNumber(n, 1) + Consumed(n, 1) * Pow(256, 1);
    assert ConsumedNumber(n, 3) == ConsumedNumber(n, 2) + Consumed(n, 2) * Pow(256, 2);
    assert ConsumedNumber(n, 4) == ConsumedNumber(n, 3) + Consumed(n, 3) * Pow(256, 3);
    assert ConsumedNumber(n, 5) == ConsumedNumber(n, 4) + Consumed(n, 4) * Pow(256, 4);
    assert ConsumedNumber(n, 6) == ConsumedNumber(n, 5) + Consumed(n, 5) * Pow(256, 5);
  }

  /** No zero among the bytes consumed by calls from .. to - 1 of the shipped seed. */
  ghost predicate NonZero(from: nat, to: nat) {
    forall j: nat :: from <= j < to ==> Consumed(SEED, j) != 0
  }

  lemma NothingYet()
    ensures NonZero(7, 7)
  {
  }

  /** One block: which of its seven bytes is zero (7: none), and the state after it. */
  lemma SevenBytes(from: nat, k: nat,
                   b0: Byte, b1: Byte, b2: Byte, b3: Byte, b4: Byte, b5: Byte, b6: Byte, c: nat, zero: nat)
    requires NonZero(from, k)
    requires Nth(SEED, k) == b0 + 0x100 * b1 as int + 0x1_0000 * b2 as int + 0x100_0000 * b3 as int
      + 0x1_0000_0000 * b4 as int + 0x100_0000_0000 * b5 as int + 0x1_0000_0000_0000 * b6 as int
      + 0x100_0000_0000_0000 * c
    requires (b0 == 0) == (zero == 0) && (b1 == 0) == (zero == 1) && (b2 == 0) == (zero == 2)
      && (b3 == 0) == (zero == 3) && (b4 == 0) == (zero == 4) && (b5 == 0) == (zero == 5) && (b6 == 0) == (zero == 6)
    ensures Nth(SEED, k + 7) == c + 315 * (b0 + 0x100 * b1 as int + 0x1_0000 * b2 as int + 0x100_0000 * b3 as int
      + 0x1_0000_0000 * b4 as int + 0x100_0000_0000 * b5 as int + 0x1_0000_0000_0000 * b6 as int)
    ensures zero >= 7 ==> NonZero(from, k + 7)
    ensures zero < 7 ==> NonZero(from, k + zero) && Consumed(SEED, k + zero) == 0 && NonZero(k + zero + 1, k + 7)
  {
    hide Next, Nth, Pow;
    var n := Nth(SEED, k);
    assert n == State(b0, b1, b2, b3, b4, b5, b6, c);
    SevenCalls(b0, b1, b2, b3, b4, b5, b6, c);
    NthAdd(SEED, k, 7);
    HeldBytes(b0, b1, b2, b3, b4, b5, b6, c);
    forall j: nat | k <= j < k + 7 ensures Consumed(SEED, j) == 0 <==> j == k + zero {
      var d: nat := j - k;
      NthAdd(SEED, k, d);
      assert Consumed(SEED, j) == Consumed(n, d);
      assert d == 0 || d == 1 || d == 2 || d == 3 || d == 4 || d == 5 || d == 6;
    }
  }

  // ----- the first 768 bytes: zeros only at 133, 210, 345, 538 and 768 -----

  lemma FirstBlock()
    ensures Nth(SEED, 7) == 8222329697267389791
  {
    hide Next;
    SevenCalls(0x87, 0xdd, 0xdc, 0x10, 0x35, 0xbc, 0x5c, 0x42);
  }

  lemma Bytes0()
    ensures Nth(SEED, 77) == 21839724645206502178 && NonZero(7, 77)
  {
    hide Nth, Consumed, NonZero;
    FirstBlock();
    NothingYet();
    SevenBytes(7, 7, 0x5f, 0x95, 0xc4, 0xbf, 0x4b, 0x95, 0x1b, 114, 7);
    SevenBytes(7, 14, 0x57, 0xcc, 0xe3, 0xf6, 0x34, 0xb4, 0xf0, 33, 7);
    SevenBytes(7, 21, 0x2e, 0x6f, 0x4c, 0xca, 0x2b, 0xbd, 0x2d, 296, 7);
    SevenBytes(7, 28, 0xc2, 0xce, 0x0c, 0xec, 0xe1, 0xc4, 0x47, 56, 7);
    SevenBytes(7, 35, 0xee, 0x68, 0xc2, 0x73, 0xfd, 0x41, 0x4f, 88, 7);
    SevenBytes(7, 42, 0x32, 0x1d, 0x37, 0x70, 0xdd, 0x32, 0x86, 97, 7);
    SevenBytes(7, 49, 0xe7, 0xec, 0xd0, 0x13, 0x79, 0x96, 0x20, 165, 7);
    SevenBytes(7, 56, 0xe2, 0x80, 0x13, 0x62, 0xfb, 0x26, 0x19, 40, 7);
    SevenBytes(7, 63, 0x3e, 0x96, 0xff, 0xad, 0x51, 0xf7, 0xf2, 30, 7);
    SevenBytes(7, 70, 0x68, 0xde, 0x7d, 0x19, 0x81, 0x51, 0xf6, 298, 7);
  }

  lemma Bytes1()
    ensures NonZero(7, 133) && Consumed(SEED, 133) == 0
    ensures Nth(SEED, 147) == 14982578733369354903 && NonZero(134, 147)
  {
    hide Nth, Consumed, NonZero;
    Bytes0();
    SevenBytes(7, 77, 0x22, 0xab, 0xe0, 0x5d, 0xda, 0x49, 0x16, 303, 7);
    SevenBytes(7, 84, 0x05, 0x94, 0x72, 0x83, 0xb1, 0xdf, 0x6c, 27, 7);
    SevenBytes(7, 91, 0x42, 0x22, 0xfc, 0xbd, 0x6c, 0x3f, 0xf7, 133, 7);
    SevenBytes(7, 98, 0xbb, 0x27, 0x3e, 0xc5, 0xcd, 0x0a, 0x3b, 304, 7);
    SevenBytes(7, 105, 0x49, 0xe4, 0x7a, 0xb3, 0x31, 0x4b, 0xa6, 72, 7);
    SevenBytes(7, 112, 0x1b, 0xe6, 0x36, 0xd8, 0x27, 0x86, 0x9e, 204, 7);
    SevenBytes(7, 119, 0x05, 0x24, 0x8d, 0x0b, 0x07, 0x13, 0x0f, 195, 7);
    SevenBytes(7, 126, 0xea, 0x52, 0xab, 0x36, 0xab, 0x69, 0x8c, 18, 7);
    SevenBytes(7, 133, 0x00, 0x06, 0xcf, 0x44, 0xac, 0x05, 0xc6, 172, 0);
    SevenBytes(134, 140, 0xac, 0x62, 0xbc, 0xaa, 0xf8, 0xfa, 0xa8, 243, 7);
  }

  lemma Bytes2()
    ensures NonZero(134, 210) && Consumed(SEED, 210) == 0
    ensures Nth(SEED, 217) == 19882248531390121184 && NonZero(211, 217)
  {
    hide Nth, Consumed, NonZero;
    Bytes1();
    SevenBytes(134, 147, 0x97, 0x6a, 0xcd, 0x15, 0xfa, 0xcf, 0xec, 207, 7);
    SevenBytes(134, 154, 0x9c, 0x28, 0xc2, 0xd3, 0xb8, 0xe8, 0x63, 291, 7);
    SevenBytes(134, 161, 0x17, 0xf9, 0xe7, 0x8f, 0x6c, 0x5b, 0xef, 122, 7);
    SevenBytes(134, 168, 0xc7, 0x7f, 0x6f, 0x12, 0x95, 0x7e, 0x85, 294, 7);
    SevenBytes(134, 175, 0x03, 0x3b, 0x32, 0xaf, 0x6d, 0xc1, 0x42, 164, 7);
    SevenBytes(134, 182, 0x55, 0x9d, 0xce, 0x92, 0xf6, 0x01, 0x24, 82, 7);
    SevenBytes(134, 189, 0xe9, 0x97, 0x3b, 0xa4, 0x66, 0x6a, 0x4e, 44, 7);
    SevenBytes(134, 196, 0xdf, 0xeb, 0x53, 0x15, 0x4c, 0xec, 0x7c, 96, 7);
    SevenBytes(134, 203, 0xc5, 0x3b, 0x43, 0x3e, 0x9e, 0xc1, 0xb6, 153, 7);
    SevenBytes(134, 210, 0x00, 0x8c, 0xba, 0x9c, 0xb6, 0x3d, 0xe0, 224, 0);
  }

  lemma Bytes3()
    ensures Nth(SEED, 287) == 3162634072449670924 && NonZero(211, 287)
  {
    hide Nth, Consumed, NonZero;
    Bytes2();
    SevenBytes(211, 217, 0xe0, 0x44, 0x8a, 0xd9, 0xb2, 0xef, 0xeb, 275, 7);
    SevenBytes(211, 224, 0xb3, 0xc0, 0x22, 0xad, 0x11, 0xf1, 0x4f, 290, 7);
    SevenBytes(211, 231, 0x63, 0x1d, 0xc3, 0x09, 0xc0, 0xa0, 0x5d, 98, 7);
    SevenBytes(211, 238, 0x33, 0x29, 0x15, 0x03, 0x4c, 0xcc, 0x34, 115, 7);
    SevenBytes(211, 245, 0x34, 0xb2, 0x09, 0xcb, 0x87, 0x61, 0xf7, 64, 7);
    SevenBytes(211, 252, 0x3c, 0x46, 0xee, 0xd4, 0x16, 0x02, 0x65, 304, 7);
    SevenBytes(211, 259, 0x04, 0x6d, 0x30, 0x01, 0x18, 0x92, 0x49, 124, 7);
    SevenBytes(211, 266, 0x68, 0x24, 0x96, 0x76, 0x89, 0xc3, 0x86, 90, 7);
    SevenBytes(211, 273, 0x52, 0xcc, 0xbe, 0xea, 0x24, 0x9a, 0xd2, 165, 7);
    SevenBytes(211, 280, 0x8b, 0x69, 0xc5, 0xd8, 0x6c, 0xab, 0x23, 259, 7);
  }

  lemma Bytes4()
    ensures NonZero(211, 345) && Consumed(SEED, 345) == 0
    ensures Nth(SEED, 357) == 5112205319130632700 && NonZero(346, 357)
  {
    hide Nth, Consumed, NonZero;
    Bytes3();
    SevenBytes(211, 287, 0x0c, 0xdf, 0xe8, 0xba, 0xee, 0xee, 0xe3, 43, 7);
    SevenBytes(211, 294, 0xef, 0x73, 0x8a, 0xfc, 0xbf, 0xff, 0x76, 280, 7);
    SevenBytes(211, 301, 0x2d, 0xa8, 0x5c, 0xbe, 0x3b, 0xb1, 0x6c, 146, 7);
    SevenBytes(211, 308, 0xf1, 0xef, 0x02, 0x3c, 0x83, 0x14, 0xbe, 133, 7);
    SevenBytes(211, 315, 0x10, 0x3e, 0x9d, 0xd7, 0x7a, 0x3d, 0xe3, 233, 7);
    SevenBytes(211, 322, 0x99, 0x5e, 0x7b, 0x4e, 0x27, 0xa6, 0x9c, 279, 7);
    SevenBytes(211, 329, 0x5a, 0x67, 0xcd, 0x91, 0x5d, 0x72, 0xc0, 192, 7);
    SevenBytes(211, 336, 0x7e, 0x2c, 0xbe, 0x67, 0x22, 0xb9, 0xcc, 236, 7);
    SevenBytes(211, 343, 0xf6, 0xbf, 0x00, 0xa7, 0x55, 0xcd, 0xe7, 251, 2);
    SevenBytes(346, 350, 0xad, 0x34, 0xec, 0x7d, 0x64, 0xa8, 0x39, 285, 7);
  }

  lemma Bytes5()
    ensures Nth(SEED, 427) == 16066573971137317169 && NonZero(346, 427)
  {
    hide Nth, Consumed, NonZero;
    Bytes4();
    SevenBytes(346, 357, 0xfc, 0xd1, 0xa4, 0xf1, 0xa6, 0x33, 0xf2, 70, 7);
    SevenBytes(346, 364, 0x5a, 0x61, 0xce, 0x55, 0x6b, 0x8e, 0x05, 298, 7);
    SevenBytes(346, 371, 0xe8, 0xca, 0xf1, 0x94, 0x12, 0x3e, 0xd6, 6, 7);
    SevenBytes(346, 378, 0x7e, 0xab, 0x84, 0x45, 0xdd, 0x60, 0x9e, 263, 7);
    SevenBytes(346, 385, 0x11, 0x05, 0x3f, 0x8a, 0x44, 0x30, 0xe1, 194, 7);
    SevenBytes(346, 392, 0xad, 0x3c, 0x8b, 0x1b, 0x56, 0x64, 0x16, 277, 7);
    SevenBytes(346, 399, 0xf4, 0xa9, 0x53, 0xe4, 0xf3, 0x75, 0x8d, 27, 7);
    SevenBytes(346, 406, 0x57, 0x1f, 0xf2, 0xf2, 0x19, 0x23, 0x10, 174, 7);
    SevenBytes(346, 413, 0xbb, 0x90, 0xec, 0xef, 0xed, 0x30, 0xdb, 19, 7);
    SevenBytes(346, 420, 0x2c, 0x16, 0x16, 0x38, 0xc6, 0x34, 0xb5, 269, 7);
  }

  lemma Bytes6()
    ensures Nth(SEED, 497) == 1154706664515665405 && NonZero(346, 497)
  {
    hide Nth, Consumed, NonZero;
    Bytes5();
    SevenBytes(346, 427, 0x31, 0x49, 0x2d, 0x03, 0xe7, 0xef, 0xf7, 222, 7);
    SevenBytes(346, 434, 0x29, 0x10, 0xb9, 0xe8, 0x40, 0x31, 0x14, 305, 7);
    SevenBytes(346, 441, 0xa4, 0xe3, 0xb6, 0x5b, 0xde, 0x9a, 0xd8, 24, 7);
    SevenBytes(346, 448, 0xe4, 0x1a, 0x0a, 0xda, 0x9a, 0x8f, 0x86, 266, 7);
    SevenBytes(346, 455, 0x96, 0x17, 0x6f, 0x4a, 0x8a, 0xb3, 0x92, 165, 7);
    SevenBytes(346, 462, 0x37, 0x06, 0xb2, 0x96, 0x29, 0xeb, 0x82, 180, 7);
    SevenBytes(346, 469, 0x61, 0xa6, 0x0d, 0x6d, 0x2c, 0x5c, 0x17, 161, 7);
    SevenBytes(346, 476, 0xfc, 0xb9, 0xcb, 0x2f, 0xaa, 0x6a, 0xbe, 28, 7);
    SevenBytes(346, 483, 0x30, 0xd9, 0xad, 0xcf, 0x68, 0x3f, 0x4d, 234, 7);
    SevenBytes(346, 490, 0xfa, 0x3e, 0xea, 0x8a, 0xf7, 0x05, 0x0d, 95, 7);
  }

  lemma Bytes7()
    ensures NonZero(346, 538) && Consumed(SEED, 538) == 0
    ensures Nth(SEED, 567) == 20484209189619462797 && NonZero(539, 567)
  {
    hide Nth, Consumed, NonZero;
    Bytes6();
    SevenBytes(346, 497, 0xfd, 0x7d, 0x3b, 0xee, 0x97, 0x57, 0x06, 16, 7);
    SevenBytes(346, 504, 0x5f, 0x06, 0x34, 0x23, 0xf2, 0xc7, 0xcd, 7, 7);
    SevenBytes(346, 511, 0xec, 0xd6, 0x03, 0x51, 0xf1, 0x06, 0x35, 253, 7);
    SevenBytes(346, 518, 0x61, 0x75, 0xb9, 0xaf, 0xee, 0x8a, 0x3f, 65, 7);
    SevenBytes(346, 525, 0x9c, 0x6e, 0x33, 0x39, 0xb2, 0xf3, 0x2f, 78, 7);
    SevenBytes(346, 532, 0x42, 0x1a, 0x49, 0x62, 0x4c, 0xdc, 0x00, 59, 6);
    SevenBytes(539, 539, 0x71, 0x4f, 0xf3, 0xef, 0xfc, 0x11, 0x0f, 1, 7);
    SevenBytes(539, 546, 0x0c, 0xc0, 0x62, 0x40, 0x3b, 0x22, 0x8b, 18, 7);
    SevenBytes(539, 553, 0xd6, 0x4e, 0x82, 0x39, 0xe8, 0x1e, 0x33, 171, 7);
    SevenBytes(539, 560, 0xfd, 0x01, 0x57, 0xc3, 0xbe, 0x07, 0xe7, 62, 7);
  }

  lemma Bytes8()
    ensures Nth(SEED, 637) == 17800628763718684490 && NonZero(539, 637)
  {
    hide Nth, Consumed, NonZero;
    Bytes7();
    SevenBytes(539, 567, 0x8d, 0x72, 0x0f, 0x5c, 0xba, 0x87, 0x46, 284, 7);
    SevenBytes(539, 574, 0x9b, 0xf4, 0x01, 0x47, 0x4f, 0x02, 0xc9, 86, 7);
    SevenBytes(539, 581, 0x0f, 0xfb, 0x67, 0x5f, 0x8c, 0xd7, 0x55, 247, 7);
    SevenBytes(539, 588, 0x6c, 0xec, 0xf1, 0x64, 0xb9, 0x39, 0xa0, 105, 7);
    SevenBytes(539, 595, 0x4d, 0xe9, 0xad, 0x35, 0x1f, 0x07, 0x27, 197, 7);
    SevenBytes(539, 602, 0x84, 0x12, 0xfe, 0x0c, 0x67, 0xc3, 0x05, 48, 7);
    SevenBytes(539, 609, 0x9c, 0xc8, 0xa0, 0xfc, 0xcc, 0x6f, 0x17, 7, 7);
    SevenBytes(539, 616, 0xfb, 0xd7, 0xd6, 0xd9, 0x3a, 0x91, 0xd6, 28, 7);
    SevenBytes(539, 623, 0xf5, 0xc1, 0x5b, 0x0b, 0x6a, 0xb3, 0x04, 264, 7);
    SevenBytes(539, 630, 0x7f, 0xa9, 0xe7, 0xf9, 0x7b, 0xc3, 0xc8, 5, 7);
  }

  lemma Bytes9()
    ensures Nth(SEED, 707) == 21085692639965505254 && NonZero(539, 707)
  {
    hide Nth, Consumed, NonZero;
    Bytes8();
    SevenBytes(539, 637, 0x4a, 0x8f, 0x0d, 0x80, 0x8c, 0x89, 0x08, 247, 7);
    SevenBytes(539, 644, 0x05, 0x51, 0xaf, 0x90, 0xe1, 0x3f, 0x81, 10, 7);
    SevenBytes(539, 651, 0x31, 0xb1, 0xb8, 0x07, 0x8d, 0x9a, 0x09, 159, 7);
    SevenBytes(539, 658, 0xea, 0x07, 0x42, 0x80, 0x88, 0x2b, 0xd1, 11, 7);
    SevenBytes(539, 665, 0xf9, 0xbc, 0x3f, 0xd1, 0xf5, 0x90, 0x60, 257, 7);
    SevenBytes(539, 672, 0x64, 0x87, 0x6d, 0x79, 0x78, 0x5e, 0xd2, 118, 7);
    SevenBytes(539, 679, 0x82, 0x98, 0xc5, 0x69, 0x3d, 0x3e, 0xda, 258, 7);
    SevenBytes(539, 686, 0xf8, 0xa8, 0x22, 0x26, 0x91, 0x95, 0x8a, 268, 7);
    SevenBytes(539, 693, 0x34, 0xea, 0xa5, 0xec, 0x99, 0x09, 0x86, 170, 7);
    SevenBytes(539, 700, 0xa6, 0x2e, 0x27, 0x30, 0x66, 0xd0, 0xed, 164, 7);
  }

  lemma Bytes10()
    ensures NonZero(539, 768) && Consumed(SEED, 768) == 0
    ensures Nth(SEED, 770) == 15782605061670615741 && NonZero(769, 770)
  {
    hide Nth, Consumed, NonZero;
    Bytes9();
    SevenBytes(539, 707, 0xe6, 0x66, 0x36, 0x40, 0xbd, 0x6d, 0x9f, 292, 7);
    SevenBytes(539, 714, 0x26, 0x9e, 0xf0, 0x02, 0xde, 0x07, 0x2c, 196, 7);
    SevenBytes(539, 721, 0x86, 0x99, 0x12, 0x9e, 0x2d, 0xae, 0x2d, 54, 7);
    SevenBytes(539, 728, 0x18, 0xe8, 0xe2, 0x80, 0x21, 0x52, 0x35, 56, 7);
    SevenBytes(539, 735, 0xc0, 0x95, 0x33, 0x97, 0x39, 0x0f, 0x9c, 65, 7);
    SevenBytes(539, 742, 0x81, 0x43, 0x79, 0x0c, 0xdd, 0xbb, 0x06, 192, 7);
    SevenBytes(539, 749, 0x7b, 0x10, 0x36, 0x59, 0xfe, 0x28, 0x49, 8, 7);
    SevenBytes(539, 756, 0x61, 0x47, 0x86, 0xc5, 0xf7, 0x70, 0x05, 90, 7);
    SevenBytes(539, 763, 0xb5, 0xd4, 0x39, 0x0c, 0xe0, 0x00, 0xb2, 6, 5);
  }

  /** Among the bytes the sweep draws first, zeros come only as draws 126, 203, 338, 531 and 761, counting from 0. */
  lemma Zeros()
    ensures NonZero(7, 133) && Consumed(SEED, 133) == 0
    ensures NonZero(134, 210) && Consumed(SEED, 210) == 0
    ensures NonZero(211, 345) && Consumed(SEED, 345) == 0
    ensures NonZero(346, 538) && Consumed(SEED, 538) == 0
    ensures NonZero(539, 768) && Consumed(SEED, 768) == 0
  {
    hide Nth, Consumed, NonZero;
    Bytes1();
    Bytes2();
    Bytes4();
    Bytes7();
    Bytes10();
  }

  // ----- what the sweep makes of them -----

  /** The step that is drawn k-th, from 0, is the byte consumed seven calls later. */
  lemma DrawIs(k: nat)
    ensures Newest(Nth(START.gen, k)) == Consumed(SEED, k + 7)
  {
    hide Next, Newest, Consumed;
    NthAdd(SEED, 1, k);
    assert Nth(SEED, 1) == Next(Nth(SEED, 0));
    ReturnedIsConsumedLater(SEED, k);
  }

  /** From one floor visit to the next, with the given number of zeros drawn first. */
  lemma NextFloorDraw(n: nat, from: nat, zeros: nat)
    requires 0 < START.gen < MODULUS
    requires FloorGen(START.gen, n) == Nth(START.gen, from)
    requires zeros <= 1 && (zeros == 1 ==> Consumed(SEED, from + 7) == 0)
    requires Consumed(SEED, from + zeros + 7) != 0
    ensures FloorGen(START.gen, n + 1) == Nth(START.gen, from + zeros + 2)
    ensures CeilingDraw(START.gen, n) == Consumed(SEED, from + zeros + 8)
  {
    hide Next, Newest, Consumed;
    var gen := FloorGen(START.gen, n);
    var z := ZeroDraws(gen);
    NthAdd(START.gen, from, 0);
    NthAdd(START.gen, from, zeros);
    DrawIs(from);
    DrawIs(from + zeros);
    assert z == zeros;
    NthAdd(START.gen, from, z + 1);
    DrawIs(from + z + 1);
  }

  /** Over a stretch without zeros every second draw is made at the floor. */
  lemma {:induction false} Alternates(n: nat, from: nat, pairs: nat)
    requires 0 < START.gen < MODULUS
    requires FloorGen(START.gen, n) == Nth(START.gen, from)
    requires NonZero(from + 7, from + 7 + 2 * pairs)
    ensures FloorGen(START.gen, n + pairs) == Nth(START.gen, from + 2 * pairs)
    ensures forall i: nat :: n <= i < n + pairs ==> CeilingDraw(START.gen, i) != 0
    decreases pairs
  {
    hide Next, Newest, Consumed, Nth, FloorGen, CeilingDraw;
    if pairs > 0 {
      Alternates(n, from, pairs - 1);
      NextFloorDraw(n + (pairs - 1), from + 2 * (pairs - 1), 0);
    }
  }

  lemma FirstFloor()
    requires 0 < START.gen < MODULUS
    ensures FloorGen(START.gen, 0) == Nth(START.gen, 0)
  {
  }

  /** The step drawn at the 379th visit of the ceiling is the first one there that is zero. */
  lemma FirstCeilingZero()
    requires 0 < START.gen < MODULUS
    ensures CeilingDraw(START.gen, 378) == 0
    ensures forall i: nat :: i < 378 ==> CeilingDraw(START.gen, i) != 0
  {
    hide Next, Newest, Consumed, Nth, FloorGen, CeilingDraw;
    Zeros();
    FirstFloor();
    Alternates(0, 0, 63);
    NextFloorDraw(63, 126, 1);
    Alternates(64, 129, 37);
    NextFloorDraw(101, 203, 1);
    Alternates(102, 206, 66);
    NextFloorDraw(168, 338, 1);
    Alternates(169, 341, 95);
    NextFloorDraw(264, 531, 1);
    Alternates(265, 534, 113);
    NextFloorDraw(378, 760, 0);
  }

  /**
   With spikes off from the start, the shipped firmware's sweep freezes on its rise
   after floor visit 378, counting the start as visit 0, and no period earlier. Frozen,
   it stays at one below the spike level whatever the switch does afterwards.
   */
  lemma ShippedSeedFreezes(spikesOn: nat -> bool) returns (visit: nat, t: nat)
    requires Off(spikesOn)
    ensures After(START, spikesOn, visit).AtFloor()
    ensures 0 < START.gen < MODULUS && After(START, spikesOn, visit).gen == FloorGen(START.gen, 378)
    ensures 378 <= visit <= 378 * 4007 && t == visit + RiseTime(FloorGen(START.gen, 378)) <= visit + 2008
    ensures forall k: nat :: k < t <==> !After(START, spikesOn, k).Frozen()
    ensures forall later: nat -> bool, k: nat :: After(After(START, spikesOn, t), later, k).Frozen()
  {
    hide Next, Newest, Consumed, Period;
    StartIsSound();
    FirstCeilingZero();
    visit, t := FreezeTime(START, spikesOn, 378);
    Rise(After(START, spikesOn, visit), Later(spikesOn, visit));
    forall k: nat | t <= k ensures After(START, spikesOn, k).Frozen() {
      FrozenStays(START, spikesOn, t, k);
    }
    RunIsSound(START, spikesOn, t);
    forall later: nat -> bool, k: nat ensures After(After(START, spikesOn, t), later, k).Frozen() {
      RunIsSound(After(START, spikesOn, t), later, k);
    }
  }
}
