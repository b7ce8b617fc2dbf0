/** The example of FIPS 197 appendix C.3, step by step: the key 000102...1f and
    the block 00112233...ff. */
module Fips197Example {
  import opened Fips197
  import Aes

  /** Four words as 32-bit numbers, the first byte of each on the left. */
  datatype Quad = Quad(x0: bv32, x1: bv32, x2: bv32, x3: bv32)

  function Hex(x: bv32): Word {
    Word((x >> 24) as bv8, ((x >> 16) & 0xff) as bv8, ((x >> 8) & 0xff) as bv8, (x & 0xff) as bv8)
  }

  function StateOf(q: Quad): State {
    State(Hex(q.x0), Hex(q.x1), Hex(q.x2), Hex(q.x3))
  }

  function Sum(x: bv32, y: bv32): bv32 {
    x ^ y
  }

  lemma HexPlus(x: bv32, y: bv32)
    ensures Plus(Hex(x), Hex(y)) == Hex(Sum(x, y))
  {
  }

  // ---- The schedule, four words for each round ----

  const K0: Quad := Quad(0x00010203, 0x04050607, 0x08090a0b, 0x0c0d0e0f)
  const K1: Quad := Quad(0x10111213, 0x14151617, 0x18191a1b, 0x1c1d1e1f)
  const K2: Quad := Quad(0xa573c29f, 0xa176c498, 0xa97fce93, 0xa572c09c)
  const K3: Quad := Quad(0x1651a8cd, 0x0244beda, 0x1a5da4c1, 0x0640bade)
  const K4: Quad := Quad(0xae87dff0, 0x0ff11b68, 0xa68ed5fb, 0x03fc1567)
  const K5: Quad := Quad(0x6de1f148, 0x6fa54f92, 0x75f8eb53, 0x73b8518d)
  const K6: Quad := Quad(0xc656827f, 0xc9a79917, 0x6f294cec, 0x6cd5598b)
  const K7: Quad := Quad(0x3de23a75, 0x524775e7, 0x27bf9eb4, 0x5407cf39)
  const K8: Quad := Quad(0x0bdc905f, 0xc27b0948, 0xad5245a4, 0xc1871c2f)
  const K9: Quad := Quad(0x45f5a660, 0x17b2d387, 0x300d4d33, 0x640a820a)
  const K10: Quad := Quad(0x7ccff71c, 0xbeb4fe54, 0x13e6bbf0, 0xd261a7df)
  const K11: Quad := Quad(0xf01afafe, 0xe7a82979, 0xd7a5644a, 0xb3afe640)
  const K12: Quad := Quad(0x2541fe71, 0x9bf50025, 0x8813bbd5, 0x5a721c0a)
  const K13: Quad := Quad(0x4e5a6699, 0xa9f24fe0, 0x7e572baa, 0xcdf8cdea)
  const K14: Quad := Quad(0x24fc79cc, 0xbf0979e9, 0x371ac23c, 0x6d68de36)

  /** k are the words of round n. */
  ghost predicate Scheduled(key: seq<bv8>, n: nat, k: Quad)
    requires |key| == 32
  {
    W(key, 4 * n) == Hex(k.x0) && W(key, 4 * n + 1) == Hex(k.x1) &&
    W(key, 4 * n + 2) == Hex(k.x2) && W(key, 4 * n + 3) == Hex(k.x3)
  }

  /** The words c come two rounds after a, with x added at their start. */
  ghost predicate Continues(a: Quad, x: bv32, c: Quad) {
    Sum(a.x0, x) == c.x0 && Sum(a.x1, c.x0) == c.x1 && Sum(a.x2, c.x1) == c.x2 && Sum(a.x3, c.x2) == c.x3
  }

  /** u is the last word before substituted, and rc the round constant. */
  lemma Even(key: seq<bv8>, m: nat, a: Quad, b: Quad, u: bv32, rc: bv32, c: Quad)
    requires |key| == 32 && 1 <= m && Scheduled(key, 2 * m - 2, a) && Scheduled(key, 2 * m - 1, b)
    requires SubWord(RotWord(Hex(b.x3))) == Hex(u) && Rcon(m) == Hex(rc) && Continues(a, Sum(u, rc), c)
    ensures Scheduled(key, 2 * m, c)
  {
    hide W;
    hide Hex;
    hide Sum;
    hide Plus;
    hide SubWord;
    hide Rcon;
    HexPlus(u, rc);
    HexPlus(a.x0, Sum(u, rc));
    WNext(key, m, 0);
    HexPlus(a.x1, c.x0);
    WNext(key, m, 1);
    HexPlus(a.x2, c.x1);
    WNext(key, m, 2);
    HexPlus(a.x3, c.x2);
    WNext(key, m, 3);
  }

  lemma Odd(key: seq<bv8>, m: nat, a: Quad, b: Quad, u: bv32, c: Quad)
    requires |key| == 32 && 1 <= m && Scheduled(key, 2 * m - 1, a) && Scheduled(key, 2 * m, b)
    requires SubWord(Hex(b.x3)) == Hex(u) && Continues(a, u, c)
    ensures Scheduled(key, 2 * m + 1, c)
  {
    hide W;
    hide Hex;
    hide Sum;
    hide Plus;
    hide SubWord;
    HexPlus(a.x0, u);
    WNext(key, m, 4);
    HexPlus(a.x1, c.x0);
    WNext(key, m, 5);
    HexPlus(a.x2, c.x1);
    WNext(key, m, 6);
    HexPlus(a.x3, c.x2);
    WNext(key, m, 7);
  }

  lemma Key2()
    ensures SubWord(RotWord(Hex(K1.x3))) == Hex(0xa472c09c) && Rcon(1) == Hex(0x01000000)
    ensures Continues(K0, Sum(0xa472c09c, 0x01000000), K2)
  {
  }

  lemma Key3()
    ensures SubWord(Hex(K2.x3)) == Hex(0x0640bade) && Continues(K1, 0x0640bade, K3)
  {
  }

  lemma Key4()
    ensures SubWord(RotWord(Hex(K3.x3))) == Hex(0x09f41d6f) && Rcon(2) == Hex(0x02000000)
    ensures Continues(K2, Sum(0x09f41d6f, 0x02000000), K4)
  {
  }

  lemma Key5()
    ensures SubWord(Hex(K4.x3)) == Hex(0x7bb05985) && Continues(K3, 0x7bb05985, K5)
  {
  }

  lemma Key6()
    ensures SubWord(RotWord(Hex(K5.x3))) == Hex(0x6cd15d8f) && Rcon(3) == Hex(0x04000000)
    ensures Continues(K4, Sum(0x6cd15d8f, 0x04000000), K6)
  {
  }

  lemma Key7()
    ensures SubWord(Hex(K6.x3)) == Hex(0x5003cb3d) && Continues(K5, 0x5003cb3d, K7)
  {
  }

  lemma Key8()
    ensures SubWord(RotWord(Hex(K7.x3))) == Hex(0xc58a1220) && Rcon(4) == Hex(0x08000000)
    ensures Continues(K6, Sum(0xc58a1220, 0x08000000), K8)
  {
  }

  lemma Key9()
    ensures SubWord(Hex(K8.x3)) == Hex(0x78179c15) && Continues(K7, 0x78179c15, K9)
  {
  }

  lemma Key10()
    ensures SubWord(RotWord(Hex(K9.x3))) == Hex(0x67136743) && Rcon(5) == Hex(0x10000000)
    ensures Continues(K8, Sum(0x67136743, 0x10000000), K10)
  {
  }

  lemma Key11()
    ensures SubWord(Hex(K10.x3)) == Hex(0xb5ef5c9e) && Continues(K9, 0xb5ef5c9e, K11)
  {
  }

  lemma Key12()
    ensures SubWord(RotWord(Hex(K11.x3))) == Hex(0x798e096d) && Rcon(6) == Hex(0x20000000)
    ensures Continues(K10, Sum(0x798e096d, 0x20000000), K12)
  {
  }

  lemma Key13()
    ensures SubWord(Hex(K12.x3)) == Hex(0xbe409c67) && Continues(K11, 0xbe409c67, K13)
  {
  }

  lemma Key14()
    ensures SubWord(RotWord(Hex(K13.x3))) == Hex(0x41bd87bd) && Rcon(7) == Hex(0x40000000)
    ensures Continues(K12, Sum(0x41bd87bd, 0x40000000), K14)
  {
  }

  lemma Schedule(key: seq<bv8>)
    requires |key| == 32 && Scheduled(key, 0, K0) && Scheduled(key, 1, K1)
    ensures Scheduled(key, 2, K2) && Scheduled(key, 3, K3) && Scheduled(key, 4, K4) &&
            Scheduled(key, 5, K5) && Scheduled(key, 6, K6) && Scheduled(key, 7, K7) &&
            Scheduled(key, 8, K8) && Scheduled(key, 9, K9) && Scheduled(key, 10, K10) &&
            Scheduled(key, 11, K11) && Scheduled(key, 12, K12) && Scheduled(key, 13, K13) &&
            Scheduled(key, 14, K14)
  {
    hide Scheduled;
    hide Continues;
    hide SubWord;
    hide Hex;
    hide Rcon;
    Key2();
    Even(key, 1, K0, K1, 0xa472c09c, 0x01000000, K2);
    Key3();
    Odd(key, 1, K1, K2, 0x0640bade, K3);
    Key4();
    Even(key, 2, K2, K3, 0x09f41d6f, 0x02000000, K4);
    Key5();
    Odd(key, 2, K3, K4, 0x7bb05985, K5);
    Key6();
    Even(key, 3, K4, K5, 0x6cd15d8f, 0x04000000, K6);
    Key7();
    Odd(key, 3, K5, K6, 0x5003cb3d, K7);
    Key8();
    Even(key, 4, K6, K7, 0xc58a1220, 0x08000000, K8);
    Key9();
    Odd(key, 4, K7, K8, 0x78179c15, K9);
    Key10();
    Even(key, 5, K8, K9, 0x67136743, 0x10000000, K10);
    Key11();
    Odd(key, 5, K9, K10, 0xb5ef5c9e, K11);
    Key12();
    Even(key, 6, K10, K11, 0x798e096d, 0x20000000, K12);
    Key13();
    Odd(key, 6, K11, K12, 0xbe409c67, K13);
    Key14();
    Even(key, 7, K12, K13, 0x41bd87bd, 0x40000000, K14);
  }

  // ---- The rounds: their start, the rows shifted, the columns mixed ----

  const BLOCK: Quad := Quad(0x00112233, 0x44556677, 0x8899aabb, 0xccddeeff)
  const ANSWER: Quad := Quad(0x8ea2b7ca, 0x516745bf, 0xeafc4990, 0x4b496089)

  const S0: Quad := Quad(0x00102030, 0x40506070, 0x8090a0b0, 0xc0d0e0f0)
  const R1: Quad := Quad(0x6353e08c, 0x0960e104, 0xcd70b751, 0xbacad0e7)
  const M1: Quad := Quad(0x5f726415, 0x57f5bc92, 0xf7be3b29, 0x1db9f91a)
  const S1: Quad := Quad(0x4f637606, 0x43e0aa85, 0xefa72132, 0x01a4e705)
  const R2: Quad := Quad(0x84e1fd6b, 0x1a5c946f, 0xdf493897, 0x7cfbac23)
  const M2: Quad := Quad(0xbd2a395d, 0x2b6ac438, 0xd192443e, 0x615da195)
  const S2: Quad := Quad(0x1859fbc2, 0x8a1c00a0, 0x78ed8aad, 0xc42f6109)
  const R3: Quad := Quad(0xad9c7e01, 0x7e55ef25, 0xbc150fe0, 0x1ccb6395)
  const M3: Quad := Quad(0x810dce0c, 0xc9db8172, 0xb3678c1e, 0x88a1b5bd)
  const S3: Quad := Quad(0x975c66c1, 0xcb9f3fa8, 0xa93a28df, 0x8ee10f63)
  const R4: Quad := Quad(0x88db34fb, 0x1f807678, 0xd3f833c2, 0x194a759e)
  const M4: Quad := Quad(0xb2822d81, 0xabe6fb27, 0x5faf103a, 0x078c0033)
  const S4: Quad := Quad(0x1c05f271, 0xa417e04f, 0xf921c5c1, 0x04701554)
  const R5: Quad := Quad(0x9cf0a620, 0x49fd59a3, 0x99518984, 0xf26be178)
  const M5: Quad := Quad(0xaeb65ba9, 0x74e0f822, 0xd73f567b, 0xdb64c877)
  const S5: Quad := Quad(0xc357aae1, 0x1b45b7b0, 0xa2c7bd28, 0xa8dc99fa)
  const R6: Quad := Quad(0x2e6e7a2d, 0xafc6eef8, 0x3a86ace7, 0xc25ba934)
  const M6: Quad := Quad(0xb951c33c, 0x02e9bd29, 0xae25cdb1, 0xefa08cc7)
  const S6: Quad := Quad(0x7f074143, 0xcb4e243e, 0xc10c815d, 0x8375d54c)
  const R7: Quad := Quad(0xd22f0c29, 0x1ffe031a, 0x789d83b2, 0xecc5364c)
  const M7: Quad := Quad(0xebb19e1c, 0x3ee7c9e8, 0x7d7535e9, 0xed6b9144)
  const S7: Quad := Quad(0xd653a469, 0x6ca0bc0f, 0x5acaab5d, 0xb96c5e7d)
  const R8: Quad := Quad(0xf6e062ff, 0x507458f9, 0xbe504976, 0x56ed654c)
  const M8: Quad := Quad(0x5174c866, 0x9da98435, 0xa8b3e62c, 0xa974a5ea)
  const S8: Quad := Quad(0x5aa85839, 0x5fd28d7d, 0x05e1a388, 0x68f3b9c5)
  const R9: Quad := Quad(0xbeb50aa6, 0xcff85612, 0x6b0d6aff, 0x45c25dc4)
  const M9: Quad := Quad(0x0f77ee31, 0xd2ccadc0, 0x5430a83f, 0x4ef96ac3)
  const S9: Quad := Quad(0x4a824851, 0xc57e7e47, 0x643de50c, 0x2af3e8c9)
  const R10: Quad := Quad(0xd6f3d9dd, 0xa6279bd1, 0x430d52a0, 0xe513f3fe)
  const M10: Quad := Quad(0xbd86f0ea, 0x748fc4f4, 0x630f11c1, 0xe9331233)
  const S10: Quad := Quad(0xc14907f6, 0xca3b3aa0, 0x70e9aa31, 0x3b52b5ec)
  const R11: Quad := Quad(0x78e2acce, 0x741ed542, 0x5100c5e0, 0xe23b80c7)
  const M11: Quad := Quad(0xaf869041, 0x5d6e1dd3, 0x87e5fbed, 0xd5c89013)
  const S11: Quad := Quad(0x5f9c6abf, 0xbac634aa, 0x50409fa7, 0x66677653)
  const R12: Quad := Quad(0xcfb4dbed, 0xf4093808, 0x538502ac, 0x33de185c)
  const M12: Quad := Quad(0x7427fae4, 0xd8a69526, 0x9ce83d31, 0x5be0392b)
  const S12: Quad := Quad(0x51660495, 0x43539503, 0x14fb86e4, 0x01922521)
  const R13: Quad := Quad(0xd1ed44fd, 0x1a0f3f2a, 0xfa4ff27b, 0x7c332a69)
  const M13: Quad := Quad(0x2c21a820, 0x306f154a, 0xb712c75e, 0xee0da04f)
  const S13: Quad := Quad(0x627bceb9, 0x999d5aaa, 0xc945ecf4, 0x23f56da5)
  const R14: Quad := Quad(0xaa5ece06, 0xee6e3c56, 0xdde68bac, 0x2621bebf)

  ghost predicate Adds(m: Quad, k: Quad, r: Quad) {
    Sum(m.x0, k.x0) == r.x0 && Sum(m.x1, k.x1) == r.x1 && Sum(m.x2, k.x2) == r.x2 && Sum(m.x3, k.x3) == r.x3
  }

  lemma Added(key: seq<bv8>, n: nat, m: Quad, k: Quad, r: Quad)
    requires |key| == 32 && Scheduled(key, n, k) && Adds(m, k, r)
    ensures AddRoundKey(StateOf(m), key, n) == StateOf(r)
  {
    hide W;
    hide Hex;
    hide Sum;
    hide Plus;
    HexPlus(m.x0, k.x0);
    HexPlus(m.x1, k.x1);
    HexPlus(m.x2, k.x2);
    HexPlus(m.x3, k.x3);
  }

  /** A round leads from a over b and m to r. */
  ghost predicate Leads(a: Quad, b: Quad, m: Quad, k: Quad, r: Quad) {
    ShiftRows(SubBytes(StateOf(a))) == StateOf(b) && MixColumns(StateOf(b)) == StateOf(m) && Adds(m, k, r)
  }

  lemma Next(key: seq<bv8>, n: nat, a: Quad, b: Quad, m: Quad, k: Quad, r: Quad)
    requires |key| == 32 && 1 <= n && Mixed(StateOf(BLOCK), key, n - 1) == StateOf(a)
    requires Leads(a, b, m, k, r) && Scheduled(key, n, k)
    ensures Mixed(StateOf(BLOCK), key, n) == StateOf(r)
  {
    hide StateOf;
    hide AddRoundKey;
    hide MixColumns;
    hide ShiftRows;
    hide SubBytes;
    hide Scheduled;
    hide Adds;
    Added(key, n, m, k, r);
  }

  lemma Round1()
    ensures Leads(S0, R1, M1, K1, S1)
  {
  }

  lemma Round2()
    ensures Leads(S1, R2, M2, K2, S2)
  {
  }

  lemma Round3()
    ensures Leads(S2, R3, M3, K3, S3)
  {
  }

  lemma Round4()
    ensures Leads(S3, R4, M4, K4, S4)
  {
  }

  lemma Round5()
    ensures Leads(S4, R5, M5, K5, S5)
  {
  }

  lemma Round6()
    ensures Leads(S5, R6, M6, K6, S6)
  {
  }

  lemma Round7()
    ensures Leads(S6, R7, M7, K7, S7)
  {
  }

  lemma Round8()
    ensures Leads(S7, R8, M8, K8, S8)
  {
  }

  lemma Round9()
    ensures Leads(S8, R9, M9, K9, S9)
  {
  }

  lemma Round10()
    ensures Leads(S9, R10, M10, K10, S10)
  {
  }

  lemma Round11()
    ensures Leads(S10, R11, M11, K11, S11)
  {
  }

  lemma Round12()
    ensures Leads(S11, R12, M12, K12, S12)
  {
  }

  lemma Round13()
    ensures Leads(S12, R13, M13, K13, S13)
  {
  }

  lemma LastRound()
    ensures ShiftRows(SubBytes(StateOf(S13))) == StateOf(R14) && Adds(R14, K14, ANSWER)
  {
  }

  lemma AllRounds(key: seq<bv8>)
    requires |key| == 32 && Scheduled(key, 0, K0) && Scheduled(key, 1, K1)
    ensures Mixed(StateOf(BLOCK), key, 13) == StateOf(S13) && Scheduled(key, 14, K14)
  {
    hide StateOf;
    hide AddRoundKey;
    hide Scheduled;
    hide Leads;
    Schedule(key);
    assert Adds(BLOCK, K0, S0);
    hide Adds;
    Added(key, 0, BLOCK, K0, S0);
    assert Mixed(StateOf(BLOCK), key, 0) == StateOf(S0);
    hide Mixed;
    Round1();
    Next(key, 1, S0, R1, M1, K1, S1);
    Round2();
    Next(key, 2, S1, R2, M2, K2, S2);
    Round3();
    Next(key, 3, S2, R3, M3, K3, S3);
    Round4();
    Next(key, 4, S3, R4, M4, K4, S4);
    Round5();
    Next(key, 5, S4, R5, M5, K5, S5);
    Round6();
    Next(key, 6, S5, R6, M6, K6, S6);
    Round7();
    Next(key, 7, S6, R7, M7, K7, S7);
    Round8();
    Next(key, 8, S7, R8, M8, K8, S8);
    Round9();
    Next(key, 9, S8, R9, M9, K9, S9);
    Round10();
    Next(key, 10, S9, R10, M10, K10, S10);
    Round11();
    Next(key, 11, S10, R11, M11, K11, S11);
    Round12();
    Next(key, 12, S11, R12, M12, K12, S12);
    Round13();
    Next(key, 13, S12, R13, M13, K13, S13);
  }

  lemma Enciphered(s: seq<bv8>, key: seq<bv8>)
    requires |s| == 16 && |key| == 32 && Scheduled(key, 0, K0) && Scheduled(key, 1, K1) && Input(s) == StateOf(BLOCK)
    ensures Cipher(s, key) == Output(StateOf(ANSWER))
  {
    hide StateOf;
    hide SubBytes;
    hide ShiftRows;
    hide AddRoundKey;
    hide Scheduled;
    hide Adds;
    hide Mixed;
    hide Input;
    hide Output;
    AllRounds(key);
    LastRound();
    Added(key, 14, R14, K14, ANSWER);
  }

  lemma KeyRead(key: seq<bv8>, n: nat, k: Quad)
    requires |key| == 32 && n < 2 && WordAt(key, 16 * n) == Hex(k.x0) && WordAt(key, 16 * n + 4) == Hex(k.x1)
    requires WordAt(key, 16 * n + 8) == Hex(k.x2) && WordAt(key, 16 * n + 12) == Hex(k.x3)
    ensures Scheduled(key, n, k)
  {
    hide Hex;
    hide WordAt;
  }

  /** The block is enciphered as the standard says. */
  lemma KnownAnswer(s: seq<bv8>, key: seq<bv8>)
    requires s == [0x00, 0x11, 0x22, 0x33, 0x44, 0x55, 0x66, 0x77, 0x88, 0x99, 0xaa, 0xbb, 0xcc, 0xdd, 0xee, 0xff]
    requires |key| == 32
    requires WordAt(key, 0) == Word(0x00, 0x01, 0x02, 0x03) && WordAt(key, 4) == Word(0x04, 0x05, 0x06, 0x07)
    requires WordAt(key, 8) == Word(0x08, 0x09, 0x0a, 0x0b) && WordAt(key, 12) == Word(0x0c, 0x0d, 0x0e, 0x0f)
    requires WordAt(key, 16) == Word(0x10, 0x11, 0x12, 0x13) && WordAt(key, 20) == Word(0x14, 0x15, 0x16, 0x17)
    requires WordAt(key, 24) == Word(0x18, 0x19, 0x1a, 0x1b) && WordAt(key, 28) == Word(0x1c, 0x1d, 0x1e, 0x1f)
    ensures Aes.Cipher(s, key) ==
            [0x8e, 0xa2, 0xb7, 0xca, 0x51, 0x67, 0x45, 0xbf, 0xea, 0xfc, 0x49, 0x90, 0x4b, 0x49, 0x60, 0x89]
  {
    hide Cipher;
    hide Aes.Cipher;
    hide Scheduled;
    KeyRead(key, 0, K0);
    KeyRead(key, 1, K1);
    CipherSame(s, key);
    Enciphered(s, key);
  }
}
