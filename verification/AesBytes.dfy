/** AES-256 (FIPS 197): the arithmetic of bytes and columns. The tables are
    written in rows of sixteen. */
module AesBytes {
  /** The n-th of sixteen bytes. */
  function Row(n: bv8, c0: bv8, c1: bv8, c2: bv8, c3: bv8, c4: bv8, c5: bv8, c6: bv8, c7: bv8,
               c8: bv8, c9: bv8, ca: bv8, cb: bv8, cc: bv8, cd: bv8, ce: bv8, cf: bv8): bv8 {
    if n < 0x08 then
      if n < 0x04 then
        if n < 0x02 then (if n < 0x01 then c0 else c1) else (if n < 0x03 then c2 else c3)
      else
        if n < 0x06 then (if n < 0x05 then c4 else c5) else (if n < 0x07 then c6 else c7)
    else
      if n < 0x0c then
        if n < 0x0a then (if n < 0x09 then c8 else c9) else (if n < 0x0b then ca else cb)
      else
        if n < 0x0e then (if n < 0x0d then cc else cd) else (if n < 0x0f then ce else cf)
  }

  /** The substitution table, section 5.1.1 of FIPS 197. */
  function Sbox(x: bv8): bv8 {
    var n := x & 0x0f;
    if x < 0x10 then
      Row(n, 0x63, 0x7c, 0x77, 0x7b, 0xf2, 0x6b, 0x6f, 0xc5, 0x30, 0x01, 0x67, 0x2b, 0xfe, 0xd7, 0xab, 0x76)
    else if x < 0x20 then
      Row(n, 0xca, 0x82, 0xc9, 0x7d, 0xfa, 0x59, 0x47, 0xf0, 0xad, 0xd4, 0xa2, 0xaf, 0x9c, 0xa4, 0x72, 0xc0)
    else if x < 0x30 then
      Row(n, 0xb7, 0xfd, 0x93, 0x26, 0x36, 0x3f, 0xf7, 0xcc, 0x34, 0xa5, 0xe5, 0xf1, 0x71, 0xd8, 0x31, 0x15)
    else if x < 0x40 then
      Row(n, 0x04, 0xc7, 0x23, 0xc3, 0x18, 0x96, 0x05, 0x9a, 0x07, 0x12, 0x80, 0xe2, 0xeb, 0x27, 0xb2, 0x75)
    else if x < 0x50 then
      Row(n, 0x09, 0x83, 0x2c, 0x1a, 0x1b, 0x6e, 0x5a, 0xa0, 0x52, 0x3b, 0xd6, 0xb3, 0x29, 0xe3, 0x2f, 0x84)
    else if x < 0x60 then
      Row(n, 0x53, 0xd1, 0x00, 0xed, 0x20, 0xfc, 0xb1, 0x5b, 0x6a, 0xcb, 0xbe, 0x39, 0x4a, 0x4c, 0x58, 0xcf)
    else if x < 0x70 then
      Row(n, 0xd0, 0xef, 0xaa, 0xfb, 0x43, 0x4d, 0x33, 0x85, 0x45, 0xf9, 0x02, 0x7f, 0x50, 0x3c, 0x9f, 0xa8)
    else if x < 0x80 then
      Row(n, 0x51, 0xa3, 0x40, 0x8f, 0x92, 0x9d, 0x38, 0xf5, 0xbc, 0xb6, 0xda, 0x21, 0x10, 0xff, 0xf3, 0xd2)
    else if x < 0x90 then
      Row(n, 0xcd, 0x0c, 0x13, 0xec, 0x5f, 0x97, 0x44, 0x17, 0xc4, 0xa7, 0x7e, 0x3d, 0x64, 0x5d, 0x19, 0x73)
    else if x < 0xa0 then
      Row(n, 0x60, 0x81, 0x4f, 0xdc, 0x22, 0x2a, 0x90, 0x88, 0x46, 0xee, 0xb8, 0x14, 0xde, 0x5e, 0x0b, 0xdb)
    else if x < 0xb0 then
      Row(n, 0xe0, 0x32, 0x3a, 0x0a, 0x49, 0x06, 0x24, 0x5c, 0xc2, 0xd3, 0xac, 0x62, 0x91, 0x95, 0xe4, 0x79)
    else if x < 0xc0 then
      Row(n, 0xe7, 0xc8, 0x37, 0x6d, 0x8d, 0xd5, 0x4e, 0xa9, 0x6c, 0x56, 0xf4, 0xea, 0x65, 0x7a, 0xae, 0x08)
    else if x < 0xd0 then
      Row(n, 0xba, 0x78, 0x25, 0x2e, 0x1c, 0xa6, 0xb4, 0xc6, 0xe8, 0xdd, 0x74, 0x1f, 0x4b, 0xbd, 0x8b, 0x8a)
    else if x < 0xe0 then
      Row(n, 0x70, 0x3e, 0xb5, 0x66, 0x48, 0x03, 0xf6, 0x0e, 0x61, 0x35, 0x57, 0xb9, 0x86, 0xc1, 0x1d, 0x9e)
    else if x < 0xf0 then
      Row(n, 0xe1, 0xf8, 0x98, 0x11, 0x69, 0xd9, 0x8e, 0x94, 0x9b, 0x1e, 0x87, 0xe9, 0xce, 0x55, 0x28, 0xdf)
    else
      Row(n, 0x8c, 0xa1, 0x89, 0x0d, 0xbf, 0xe6, 0x42, 0x68, 0x41, 0x99, 0x2d, 0x0f, 0xb0, 0x54, 0xbb, 0x16)
  }

  /** Its inverse, section 5.3.2 of FIPS 197. */
  function InvSbox(x: bv8): bv8 {
    var n := x & 0x0f;
    if x < 0x10 then
      Row(n, 0x52, 0x09, 0x6a, 0xd5, 0x30, 0x36, 0xa5, 0x38, 0xbf, 0x40, 0xa3, 0x9e, 0x81, 0xf3, 0xd7, 0xfb)
    else if x < 0x20 then
      Row(n, 0x7c, 0xe3, 0x39, 0x82, 0x9b, 0x2f, 0xff, 0x87, 0x34, 0x8e, 0x43, 0x44, 0xc4, 0xde, 0xe9, 0xcb)
    else if x < 0x30 then
      Row(n, 0x54, 0x7b, 0x94, 0x32, 0xa6, 0xc2, 0x23, 0x3d, 0xee, 0x4c, 0x95, 0x0b, 0x42, 0xfa, 0xc3, 0x4e)
    else if x < 0x40 then
      Row(n, 0x08, 0x2e, 0xa1, 0x66, 0x28, 0xd9, 0x24, 0xb2, 0x76, 0x5b, 0xa2, 0x49, 0x6d, 0x8b, 0xd1, 0x25)
    else if x < 0x50 then
      Row(n, 0x72, 0xf8, 0xf6, 0x64, 0x86, 0x68, 0x98, 0x16, 0xd4, 0xa4, 0x5c, 0xcc, 0x5d, 0x65, 0xb6, 0x92)
    else if x < 0x60 then
      Row(n, 0x6c, 0x70, 0x48, 0x50, 0xfd, 0xed, 0xb9, 0xda, 0x5e, 0x15, 0x46, 0x57, 0xa7, 0x8d, 0x9d, 0x84)
    else if x < 0x70 then
      Row(n, 0x90, 0xd8, 0xab, 0x00, 0x8c, 0xbc, 0xd3, 0x0a, 0xf7, 0xe4, 0x58, 0x05, 0xb8, 0xb3, 0x45, 0x06)
    else if x < 0x80 then
      Row(n, 0xd0, 0x2c, 0x1e, 0x8f, 0xca, 0x3f, 0x0f, 0x02, 0xc1, 0xaf, 0xbd, 0x03, 0x01, 0x13, 0x8a, 0x6b)
    else if x < 0x90 then
      Row(n, 0x3a, 0x91, 0x11, 0x41, 0x4f, 0x67, 0xdc, 0xea, 0x97, 0xf2, 0xcf, 0xce, 0xf0, 0xb4, 0xe6, 0x73)
    else if x < 0xa0 then
      Row(n, 0x96, 0xac, 0x74, 0x22, 0xe7, 0xad, 0x35, 0x85, 0xe2, 0xf9, 0x37, 0xe8, 0x1c, 0x75, 0xdf, 0x6e)
    else if x < 0xb0 then
      Row(n, 0x47, 0xf1, 0x1a, 0x71, 0x1d, 0x29, 0xc5, 0x89, 0x6f, 0xb7, 0x62, 0x0e, 0xaa, 0x18, 0xbe, 0x1b)
    else if x < 0xc0 then
      Row(n, 0xfc, 0x56, 0x3e, 0x4b, 0xc6, 0xd2, 0x79, 0x20, 0x9a, 0xdb, 0xc0, 0xfe, 0x78, 0xcd, 0x5a, 0xf4)
    else if x < 0xd0 then
      Row(n, 0x1f, 0xdd, 0xa8, 0x33, 0x88, 0x07, 0xc7, 0x31, 0xb1, 0x12, 0x10, 0x59, 0x27, 0x80, 0xec, 0x5f)
    else if x < 0xe0 then
      Row(n, 0x60, 0x51, 0x7f, 0xa9, 0x19, 0xb5, 0x4a, 0x0d, 0x2d, 0xe5, 0x7a, 0x9f, 0x93, 0xc9, 0x9c, 0xef)
    else if x < 0xf0 then
      Row(n, 0xa0, 0xe0, 0x3b, 0x4d, 0xae, 0x2a, 0xf5, 0xb0, 0xc8, 0xeb, 0xbb, 0x3c, 0x83, 0x53, 0x99, 0x61)
    else
      Row(n, 0x17, 0x2b, 0x04, 0x7e, 0xba, 0x77, 0xd6, 0x26, 0xe1, 0x69, 0x14, 0x63, 0x55, 0x21, 0x0c, 0x7d)
  }

  /** Multiplication by x in GF(2^8). */
  function Xtime(x: bv8): bv8 {
    var y := x << 1;
    if x & 0x80 != 0 then y ^ 0x1b else y
  }

  /** Division by x in GF(2^8). */
  function Halve(x: bv8): bv8 {
    (x >> 1) ^ (if x & 1 != 0 then 0x8d else 0)
  }

  lemma HalveXtime(x: bv8)
    ensures Halve(Xtime(x)) == x
  {
  }

  /** Addition in GF(2^8), section 4.1 of FIPS 197. */
  function Xor(a: bv8, b: bv8): bv8 {
    a ^ b
  }

  function Xor4(a: bv8, b: bv8, c: bv8, d: bv8): bv8 {
    a ^ b ^ c ^ d
  }

  function Xor8(a: bv8, b: bv8, c: bv8, d: bv8, e: bv8, f: bv8, g: bv8, h: bv8): bv8 {
    a ^ b ^ c ^ d ^ e ^ f ^ g ^ h
  }

  function Bit(b: bv8, mask: bv8, a: bv8): bv8 {
    if b & mask != 0 then a else 0
  }

  /** Multiplication in GF(2^8), section 4.2 of FIPS 197. */
  function Mul(a: bv8, b: bv8): bv8 {
    var a2 := Xtime(a);
    var a4 := Xtime(a2);
    var a8 := Xtime(a4);
    var a16 := Xtime(a8);
    var a32 := Xtime(a16);
    var a64 := Xtime(a32);
    var a128 := Xtime(a64);
    Xor8(Bit(b, 0x01, a), Bit(b, 0x02, a2), Bit(b, 0x04, a4), Bit(b, 0x08, a8),
         Bit(b, 0x10, a16), Bit(b, 0x20, a32), Bit(b, 0x40, a64), Bit(b, 0x80, a128))
  }

  lemma XtimeLinear(a: bv8, b: bv8)
    ensures Xtime(Xor(a, b)) == Xor(Xtime(a), Xtime(b))
  {
    if a & 0x80 != 0 { if b & 0x80 != 0 {} else {} } else { if b & 0x80 != 0 {} else {} }
  }

  lemma BitLinear(k: bv8, mask: bv8, a: bv8, b: bv8)
    ensures Bit(k, mask, Xor(a, b)) == Xor(Bit(k, mask, a), Bit(k, mask, b))
  {
  }

  lemma XorComm(a: bv8, b: bv8)
    ensures Xor(a, b) == Xor(b, a)
  {
  }

  lemma XorAssoc(a: bv8, b: bv8, c: bv8)
    ensures Xor(Xor(a, b), c) == Xor(a, Xor(b, c))
  {
  }

  lemma XorTwice(a: bv8, b: bv8)
    ensures Xor(Xor(a, b), b) == a
  {
  }

  lemma Medial(a: bv8, b: bv8, c: bv8, d: bv8)
    ensures Xor(Xor(a, b), Xor(c, d)) == Xor(Xor(a, c), Xor(b, d))
  {
    hide Xor;
    XorAssoc(a, b, Xor(c, d));
    XorAssoc(b, c, d);
    XorComm(b, c);
    XorAssoc(c, b, d);
    XorAssoc(a, c, Xor(b, d));
  }

  lemma XorIs(a: bv8, b: bv8)
    ensures Xor(a, b) == a ^ b
  {
  }

  lemma Xor4Is(a: bv8, b: bv8, c: bv8, d: bv8)
    ensures Xor4(a, b, c, d) == Xor(Xor(a, b), Xor(c, d))
  {
    XorIs(a, b);
    XorIs(c, d);
    XorIs(Xor(a, b), Xor(c, d));
    hide Xor;
    var p, q := Xor(a, b), Xor(c, d);
    assert p ^ q == a ^ b ^ c ^ d;
  }

  lemma Flat8(a: bv8, b: bv8, c: bv8, d: bv8, e: bv8, f: bv8, g: bv8, h: bv8, p: bv8, q: bv8)
    requires p == a ^ b ^ c ^ d && q == e ^ f ^ g ^ h
    ensures p ^ q == Xor8(a, b, c, d, e, f, g, h)
  {
  }

  lemma Flat4(a: bv8, b: bv8, c: bv8, d: bv8)
    ensures Xor4(a, b, c, d) == a ^ b ^ c ^ d
  {
  }

  lemma Xor8Is(a: bv8, b: bv8, c: bv8, d: bv8, e: bv8, f: bv8, g: bv8, h: bv8)
    ensures Xor8(a, b, c, d, e, f, g, h) == Xor(Xor4(a, b, c, d), Xor4(e, f, g, h))
  {
    hide Xor;
    hide Xor4;
    hide Xor8;
    Flat4(a, b, c, d);
    Flat4(e, f, g, h);
    Flat8(a, b, c, d, e, f, g, h, Xor4(a, b, c, d), Xor4(e, f, g, h));
    XorIs(Xor4(a, b, c, d), Xor4(e, f, g, h));
  }

  lemma Xor4Pairs(a: bv8, b: bv8, c: bv8, d: bv8, e: bv8, f: bv8, g: bv8, h: bv8)
    ensures Xor4(Xor(a, e), Xor(b, f), Xor(c, g), Xor(d, h)) == Xor(Xor4(a, b, c, d), Xor4(e, f, g, h))
  {
    Xor4Is(a, b, c, d);
    Xor4Is(e, f, g, h);
    Xor4Is(Xor(a, e), Xor(b, f), Xor(c, g), Xor(d, h));
    hide Xor;
    hide Xor4;
    Medial(a, e, b, f);
    Medial(c, g, d, h);
    Medial(Xor(a, b), Xor(e, f), Xor(c, d), Xor(g, h));
    Medial(Xor(a, b), Xor(c, d), Xor(e, f), Xor(g, h));
  }

  lemma Xor8Pairs(a: bv8, b: bv8, c: bv8, d: bv8, e: bv8, f: bv8, g: bv8, h: bv8,
                  i: bv8, j: bv8, k: bv8, l: bv8, m: bv8, n: bv8, o: bv8, p: bv8)
    ensures Xor8(Xor(a, i), Xor(b, j), Xor(c, k), Xor(d, l), Xor(e, m), Xor(f, n), Xor(g, o), Xor(h, p)) ==
            Xor(Xor8(a, b, c, d, e, f, g, h), Xor8(i, j, k, l, m, n, o, p))
  {
    hide Xor;
    hide Xor4;
    hide Xor8;
    Xor8Is(a, b, c, d, e, f, g, h);
    Xor8Is(i, j, k, l, m, n, o, p);
    Xor8Is(Xor(a, i), Xor(b, j), Xor(c, k), Xor(d, l), Xor(e, m), Xor(f, n), Xor(g, o), Xor(h, p));
    Xor4Pairs(a, b, c, d, i, j, k, l);
    Xor4Pairs(e, f, g, h, m, n, o, p);
    Medial(Xor4(a, b, c, d), Xor4(i, j, k, l), Xor4(e, f, g, h), Xor4(m, n, o, p));
  }

  /** Multiplication distributes over addition. */
  lemma MulLinear(a: bv8, b: bv8, k: bv8)
    ensures Mul(Xor(a, b), k) == Xor(Mul(a, k), Mul(b, k))
  {
    hide Xtime;
    hide Xor;
    hide Xor8;
    hide Bit;
    var a2, b2 := Xtime(a), Xtime(b);
    var a4, b4 := Xtime(a2), Xtime(b2);
    var a8, b8 := Xtime(a4), Xtime(b4);
    var a16, b16 := Xtime(a8), Xtime(b8);
    var a32, b32 := Xtime(a16), Xtime(b16);
    var a64, b64 := Xtime(a32), Xtime(b32);
    var a128, b128 := Xtime(a64), Xtime(b64);
    XtimeLinear(a, b);
    XtimeLinear(a2, b2);
    XtimeLinear(a4, b4);
    XtimeLinear(a8, b8);
    XtimeLinear(a16, b16);
    XtimeLinear(a32, b32);
    XtimeLinear(a64, b64);
    BitLinear(k, 0x01, a, b);
    BitLinear(k, 0x02, a2, b2);
    BitLinear(k, 0x04, a4, b4);
    BitLinear(k, 0x08, a8, b8);
    BitLinear(k, 0x10, a16, b16);
    BitLinear(k, 0x20, a32, b32);
    BitLinear(k, 0x40, a64, b64);
    BitLinear(k, 0x80, a128, b128);
    Xor8Pairs(Bit(k, 0x01, a), Bit(k, 0x02, a2), Bit(k, 0x04, a4), Bit(k, 0x08, a8),
              Bit(k, 0x10, a16), Bit(k, 0x20, a32), Bit(k, 0x40, a64), Bit(k, 0x80, a128),
              Bit(k, 0x01, b), Bit(k, 0x02, b2), Bit(k, 0x04, b4), Bit(k, 0x08, b8),
              Bit(k, 0x10, b16), Bit(k, 0x20, b32), Bit(k, 0x40, b64), Bit(k, 0x80, b128));
  }

  lemma MulLinear4(a: bv8, b: bv8, c: bv8, d: bv8, k: bv8)
    ensures Mul(Xor4(a, b, c, d), k) == Xor4(Mul(a, k), Mul(b, k), Mul(c, k), Mul(d, k))
  {
    hide Xor;
    hide Xor4;
    hide Mul;
    Xor4Is(a, b, c, d);
    Xor4Is(Mul(a, k), Mul(b, k), Mul(c, k), Mul(d, k));
    MulLinear(Xor(a, b), Xor(c, d), k);
    MulLinear(a, b, k);
    MulLinear(c, d, k);
  }

  // ---- Columns: MixColumns and its inverse ----

  /** One byte of a mixed column, section 5.1.3 of FIPS 197. */
  function Mix(a: bv8, b: bv8, c: bv8, d: bv8): bv8 {
    Xor4(Mul(a, 0x02), Mul(b, 0x03), c, d)
  }

  /** One byte of the inverse, section 5.3.3 of FIPS 197. */
  function Unmix(a: bv8, b: bv8, c: bv8, d: bv8): bv8 {
    Xor4(Mul(a, 0x0e), Mul(b, 0x0b), Mul(c, 0x0d), Mul(d, 0x09))
  }

  // ---- Products with the constants, by doubling ----

  function Xor3(a: bv8, b: bv8, c: bv8): bv8 {
    a ^ b ^ c
  }

  lemma Times2(a: bv8)
    ensures Mul(a, 0x02) == Xtime(a)
  {
  }

  lemma Times3(a: bv8)
    ensures Mul(a, 0x03) == Xor(a, Xtime(a))
  {
  }

  lemma Times14(a: bv8)
    ensures Mul(a, 0x0e) == Xor3(Xtime(a), Xtime(Xtime(a)), Xtime(Xtime(Xtime(a))))
  {
  }

  lemma Times11(a: bv8)
    ensures Mul(a, 0x0b) == Xor3(a, Xtime(a), Xtime(Xtime(Xtime(a))))
  {
  }

  lemma Times13(a: bv8)
    ensures Mul(a, 0x0d) == Xor3(a, Xtime(Xtime(a)), Xtime(Xtime(Xtime(a))))
  {
  }

  lemma Times9(a: bv8)
    ensures Mul(a, 0x09) == Xor(a, Xtime(Xtime(Xtime(a))))
  {
  }

  // The products that meet when a column is mixed and unmixed: a chain of doublings
  // x1, x2, x3, x4 of the byte, in which all but the byte itself cancels.

  lemma OwnSum(a: bv8, x1: bv8, x2: bv8, x3: bv8, x4: bv8)
    ensures Xor4(Xor3(x2, x3, x4), Xor3(a, x1, x3), Xor3(a, x2, x3), Xor(Xor(a, x1), Xor(x3, x4))) == a
  {
  }

  lemma NextSum(b: bv8, x1: bv8, x2: bv8, x3: bv8, x4: bv8)
    ensures Xor4(Xor3(Xor(x1, x2), Xor(x2, x3), Xor(x3, x4)), Xor3(x1, x2, x4), Xor3(b, x2, x3), Xor(b, x3)) == 0
  {
  }

  lemma OppositeSum(c: bv8, x1: bv8, x2: bv8, x3: bv8, x4: bv8)
    ensures Xor4(Xor3(x1, x2, x3), Xor3(Xor(c, x1), Xor(x1, x2), Xor(x3, x4)), Xor3(x1, x3, x4), Xor(c, x3)) == 0
  {
  }

  lemma PreviousSum(d: bv8, x1: bv8, x2: bv8, x3: bv8, x4: bv8)
    ensures Xor4(Xor3(x1, x2, x3), Xor3(d, x1, x3), Xor3(Xor(d, x1), Xor(x2, x3), Xor(x3, x4)), Xor(x1, x4)) == 0
  {
  }

  /** The first products and doublings of a byte and of three times it. */
  lemma Doublings(a: bv8) returns (x1: bv8, x2: bv8, x3: bv8, x4: bv8, a3: bv8)
    ensures x1 == Mul(a, 0x02) == Xtime(a) && x2 == Xtime(x1) && x3 == Xtime(x2) && x4 == Xtime(x3)
    ensures a3 == Mul(a, 0x03) == Xor(a, x1)
    ensures Xtime(a3) == Xor(x1, x2) && Xtime(Xtime(a3)) == Xor(x2, x3) && Xtime(Xtime(Xtime(a3))) == Xor(x3, x4)
  {
    hide Mul;
    hide Xtime;
    hide Xor;
    x1 := Xtime(a);
    x2 := Xtime(x1);
    x3 := Xtime(x2);
    x4 := Xtime(x3);
    a3 := Mul(a, 0x03);
    Times2(a);
    Times3(a);
    XtimeLinear(a, x1);
    XtimeLinear(x1, x2);
    XtimeLinear(x2, x3);
  }

  lemma Own(a: bv8)
    ensures Xor4(Mul(Mul(a, 0x02), 0x0e), Mul(a, 0x0b), Mul(a, 0x0d), Mul(Mul(a, 0x03), 0x09)) == a
  {
    hide Mul;
    hide Xtime;
    hide Xor;
    hide Xor3;
    hide Xor4;
    var x1, x2, x3, x4, a3 := Doublings(a);
    Times14(x1);
    Times11(a);
    Times13(a);
    Times9(a3);
    OwnSum(a, x1, x2, x3, x4);
  }

  lemma Next(b: bv8)
    ensures Xor4(Mul(Mul(b, 0x03), 0x0e), Mul(Mul(b, 0x02), 0x0b), Mul(b, 0x0d), Mul(b, 0x09)) == 0
  {
    hide Mul;
    hide Xtime;
    hide Xor;
    hide Xor3;
    hide Xor4;
    var x1, x2, x3, x4, b3 := Doublings(b);
    Times14(b3);
    Times11(x1);
    Times13(b);
    Times9(b);
    NextSum(b, x1, x2, x3, x4);
  }

  lemma Opposite(c: bv8)
    ensures Xor4(Mul(c, 0x0e), Mul(Mul(c, 0x03), 0x0b), Mul(Mul(c, 0x02), 0x0d), Mul(c, 0x09)) == 0
  {
    hide Mul;
    hide Xtime;
    hide Xor;
    hide Xor3;
    hide Xor4;
    var x1, x2, x3, x4, c3 := Doublings(c);
    Times14(c);
    Times11(c3);
    Times13(x1);
    Times9(c);
    OppositeSum(c, x1, x2, x3, x4);
  }

  lemma Previous(d: bv8)
    ensures Xor4(Mul(d, 0x0e), Mul(d, 0x0b), Mul(Mul(d, 0x03), 0x0d), Mul(Mul(d, 0x02), 0x09)) == 0
  {
    hide Mul;
    hide Xtime;
    hide Xor;
    hide Xor3;
    hide Xor4;
    var x1, x2, x3, x4, d3 := Doublings(d);
    Times14(d);
    Times11(d);
    Times13(d3);
    Times9(x1);
    PreviousSum(d, x1, x2, x3, x4);
  }

  lemma Rotated(a: bv8, b: bv8, c: bv8, d: bv8)
    ensures Xor4(b, c, d, a) == Xor4(a, b, c, d)
  {
    Xor4Is(a, b, c, d);
    Xor4Is(b, c, d, a);
    hide Xor;
    hide Xor4;
    XorComm(Xor(b, c), Xor(d, a));
    XorComm(d, a);
    Medial(a, d, b, c);
    XorComm(d, c);
  }

  /** A square of sixteen terms, summed by rows or by columns. */
  lemma Transposed(a0: bv8, b0: bv8, c0: bv8, d0: bv8, a1: bv8, b1: bv8, c1: bv8, d1: bv8,
                   a2: bv8, b2: bv8, c2: bv8, d2: bv8, a3: bv8, b3: bv8, c3: bv8, d3: bv8)
    ensures Xor4(Xor4(a0, b0, c0, d0), Xor4(b1, c1, d1, a1), Xor4(c2, d2, a2, b2), Xor4(d3, a3, b3, c3)) ==
            Xor4(Xor4(a0, a1, a2, a3), Xor4(b0, b1, b2, b3), Xor4(c0, c1, c2, c3), Xor4(d0, d1, d2, d3))
  {
    hide Xor;
    hide Xor4;
    Rotated(a1, b1, c1, d1);
    Rotated(a2, b2, c2, d2);
    Rotated(b2, c2, d2, a2);
    Rotated(d3, a3, b3, c3);
    Xor4Is(Xor4(a0, b0, c0, d0), Xor4(a1, b1, c1, d1), Xor4(a2, b2, c2, d2), Xor4(a3, b3, c3, d3));
    Xor4Is(a0, a1, a2, a3);
    Xor4Is(b0, b1, b2, b3);
    Xor4Is(c0, c1, c2, c3);
    Xor4Is(d0, d1, d2, d3);
    Xor4Pairs(a0, b0, c0, d0, a1, b1, c1, d1);
    Xor4Pairs(a2, b2, c2, d2, a3, b3, c3, d3);
    Xor4Pairs(Xor(a0, a1), Xor(b0, b1), Xor(c0, c1), Xor(d0, d1), Xor(a2, a3), Xor(b2, b3), Xor(c2, c3), Xor(d2, d3));
  }

  lemma XorZero(a: bv8)
    ensures Xor4(a, 0, 0, 0) == a
  {
  }

  /** Unmixing undoes mixing. */
  lemma UnmixMix(a: bv8, b: bv8, c: bv8, d: bv8)
    ensures Unmix(Mix(a, b, c, d), Mix(b, c, d, a), Mix(c, d, a, b), Mix(d, a, b, c)) == a
  {
    hide Xor4;
    hide Mul;
    var (a2, a3) := (Mul(a, 0x02), Mul(a, 0x03));
    var (b2, b3) := (Mul(b, 0x02), Mul(b, 0x03));
    var (c2, c3) := (Mul(c, 0x02), Mul(c, 0x03));
    var (d2, d3) := (Mul(d, 0x02), Mul(d, 0x03));
    MulLinear4(a2, b3, c, d, 0x0e);
    MulLinear4(b2, c3, d, a, 0x0b);
    MulLinear4(c2, d3, a, b, 0x0d);
    MulLinear4(d2, a3, b, c, 0x09);
    Transposed(Mul(a2, 0x0e), Mul(b3, 0x0e), Mul(c, 0x0e), Mul(d, 0x0e), Mul(a, 0x0b), Mul(b2, 0x0b), Mul(c3, 0x0b),
               Mul(d, 0x0b), Mul(a, 0x0d), Mul(b, 0x0d), Mul(c2, 0x0d), Mul(d3, 0x0d), Mul(a3, 0x09), Mul(b, 0x09),
               Mul(c, 0x09), Mul(d2, 0x09));
    Own(a);
    Next(b);
    Opposite(c);
    Previous(d);
    XorZero(a);
  }

  // ---- How the code computes them ----

  lemma MixSum(a: bv8, b: bv8, c: bv8, d: bv8, a2: bv8, b2: bv8, e: bv8, ab2: bv8, b3: bv8, ae: bv8)
    requires e == a ^ b ^ c ^ d && ab2 == a2 ^ b2 && b3 == b ^ b2 && ae == a ^ e
    ensures ae ^ ab2 == a2 ^ b3 ^ c ^ d
  {
  }

  lemma MixTerms(a: bv8, b: bv8, c: bv8, d: bv8, a2: bv8, b2: bv8)
    ensures Xor(Xor(a, Xor4(a, b, c, d)), Xor(a2, b2)) == Xor4(a2, Xor(b, b2), c, d)
  {
    hide Xor;
    hide Xor4;
    var e, ab2, b3 := Xor4(a, b, c, d), Xor(a2, b2), Xor(b, b2);
    Flat4(a, b, c, d);
    XorIs(a2, b2);
    XorIs(b, b2);
    XorIs(a, e);
    XorIs(Xor(a, e), ab2);
    Flat4(a2, b3, c, d);
    MixSum(a, b, c, d, a2, b2, e, ab2, b3, Xor(a, e));
  }

  /** A byte of a mixed column needs one Xtime, given the sum of the column. */
  lemma MixByte(a: bv8, b: bv8, c: bv8, d: bv8)
    ensures Xor(Xor(a, Xor4(a, b, c, d)), Xtime(Xor(a, b))) == Mix(a, b, c, d)
  {
    hide Xtime;
    hide Mul;
    hide Xor;
    hide Xor4;
    Times2(a);
    Times3(b);
    XtimeLinear(a, b);
    MixTerms(a, b, c, d, Xtime(a), Xtime(b));
  }

  lemma XtimeLinear4(a: bv8, b: bv8, c: bv8, d: bv8)
    ensures Xtime(Xor4(a, b, c, d)) == Xor4(Xtime(a), Xtime(b), Xtime(c), Xtime(d))
  {
    hide Xtime;
    hide Xor;
    hide Xor4;
    Xor4Is(a, b, c, d);
    Xor4Is(Xtime(a), Xtime(b), Xtime(c), Xtime(d));
    XtimeLinear(Xor(a, b), Xor(c, d));
    XtimeLinear(a, b);
    XtimeLinear(c, d);
  }

  /** Xtime twice, of the doubled sum plus two bytes of the column. */
  lemma Quadrupled(a: bv8, b: bv8, c: bv8, d: bv8)
    ensures Xtime(Xtime(Xor(Xor(Xtime(Xor4(a, b, c, d)), a), c))) ==
            Xor(Xor(Xor4(Xtime(Xtime(Xtime(a))), Xtime(Xtime(Xtime(b))),
                         Xtime(Xtime(Xtime(c))), Xtime(Xtime(Xtime(d)))),
                    Xtime(Xtime(a))), Xtime(Xtime(c)))
  {
    hide Xtime;
    hide Xor;
    hide Xor4;
    var z := Xtime(Xor4(a, b, c, d));
    XtimeLinear4(a, b, c, d);
    XtimeLinear4(Xtime(a), Xtime(b), Xtime(c), Xtime(d));
    XtimeLinear4(Xtime(Xtime(a)), Xtime(Xtime(b)), Xtime(Xtime(c)), Xtime(Xtime(d)));
    XtimeLinear(Xor(z, a), c);
    XtimeLinear(z, a);
    XtimeLinear(Xor(Xtime(z), Xtime(a)), Xtime(c));
    XtimeLinear(Xtime(z), Xtime(a));
  }

  lemma Xor3Is(a: bv8, b: bv8, c: bv8)
    ensures Xor3(a, b, c) == Xor(Xor(a, b), c)
  {
    XorIs(a, b);
    XorIs(Xor(a, b), c);
    hide Xor;
    var p := Xor(a, b);
    assert p ^ c == a ^ b ^ c;
  }

  lemma Flat3(a: bv8, b: bv8, c: bv8)
    ensures Xor3(a, b, c) == a ^ b ^ c
  {
  }

  // The sums in UnmixTerms, each brought to eight terms.

  lemma CancelRaw(a: bv8, b: bv8, c: bv8, d: bv8, q: bv8, e: bv8, eq: bv8)
    requires e == a ^ b ^ c ^ d && eq == e ^ q
    ensures a ^ eq == Xor4(b, c, d, q)
  {
  }

  lemma Cancel(a: bv8, b: bv8, c: bv8, d: bv8, q: bv8)
    ensures Xor(a, Xor(Xor4(a, b, c, d), q)) == Xor4(b, c, d, q)
  {
    hide Xor;
    hide Xor4;
    var e := Xor4(a, b, c, d);
    var eq := Xor(e, q);
    Flat4(a, b, c, d);
    XorIs(e, q);
    CancelRaw(a, b, c, d, q, e, eq);
    XorIs(a, eq);
  }

  lemma LeftRaw(b: bv8, c: bv8, d: bv8, s: bv8, a4: bv8, c4: bv8, a2: bv8, b2: bv8, q: bv8, f: bv8, ab: bv8)
    requires q == s ^ a4 ^ c4 && f == b ^ c ^ d ^ q && ab == a2 ^ b2
    ensures f ^ ab == Xor8(b, c, d, s, a4, c4, a2, b2)
  {
  }

  lemma LeftSum(b: bv8, c: bv8, d: bv8, s: bv8, a4: bv8, c4: bv8, a2: bv8, b2: bv8)
    ensures Xor(Xor4(b, c, d, Xor3(s, a4, c4)), Xor(a2, b2)) == Xor8(b, c, d, s, a4, c4, a2, b2)
  {
    hide Xor;
    hide Xor3;
    hide Xor4;
    hide Xor8;
    var q := Xor3(s, a4, c4);
    var f, ab := Xor4(b, c, d, q), Xor(a2, b2);
    Flat3(s, a4, c4);
    Flat4(b, c, d, q);
    XorIs(a2, b2);
    LeftRaw(b, c, d, s, a4, c4, a2, b2, q, f, ab);
    XorIs(f, ab);
  }

  lemma RightRaw(b: bv8, c: bv8, d: bv8, s: bv8, a4: bv8, c4: bv8, a2: bv8, b2: bv8, p: bv8, r: bv8, u: bv8, t: bv8)
    requires p == a2 ^ a4 && r == b ^ b2 && u == c ^ c4 && t == p ^ r ^ u ^ d
    ensures t ^ s == Xor8(b, c, d, s, a4, c4, a2, b2)
  {
  }

  lemma RightSum(b: bv8, c: bv8, d: bv8, s: bv8, a4: bv8, c4: bv8, a2: bv8, b2: bv8)
    ensures Xor(Xor4(Xor(a2, a4), Xor(b, b2), Xor(c, c4), d), s) == Xor8(b, c, d, s, a4, c4, a2, b2)
  {
    hide Xor;
    hide Xor4;
    hide Xor8;
    var p, r, u := Xor(a2, a4), Xor(b, b2), Xor(c, c4);
    var t := Xor4(p, r, u, d);
    XorIs(a2, a4);
    XorIs(b, b2);
    XorIs(c, c4);
    Flat4(p, r, u, d);
    RightRaw(b, c, d, s, a4, c4, a2, b2, p, r, u, t);
    XorIs(t, s);
  }

  lemma UnmixTerms(a: bv8, b: bv8, c: bv8, d: bv8, a2: bv8, a4: bv8, a8: bv8, b2: bv8, b8: bv8, c4: bv8, c8: bv8,
                   d8: bv8)
    ensures Xor(Xor(a, Xor(Xor4(a, b, c, d), Xor(Xor(Xor4(a8, b8, c8, d8), a4), c4))), Xor(a2, b2)) ==
            Xor4(Xor3(a2, a4, a8), Xor3(b, b2, b8), Xor3(c, c4, c8), Xor(d, d8))
  {
    hide Xor;
    hide Xor3;
    hide Xor4;
    hide Xor8;
    var s := Xor4(a8, b8, c8, d8);
    Xor3Is(s, a4, c4);
    Cancel(a, b, c, d, Xor3(s, a4, c4));
    LeftSum(b, c, d, s, a4, c4, a2, b2);
    RightSum(b, c, d, s, a4, c4, a2, b2);
    Xor3Is(a2, a4, a8);
    Xor3Is(b, b2, b8);
    Xor3Is(c, c4, c8);
    Xor4Pairs(Xor(a2, a4), Xor(b, b2), Xor(c, c4), d, a8, b8, c8, d8);
  }

  /** A byte of an unmixed column, given the sum of the column. */
  lemma UnmixByte(a: bv8, b: bv8, c: bv8, d: bv8)
    ensures var e := Xor4(a, b, c, d);
            Xor(Xor(a, Xor(e, Xtime(Xtime(Xor(Xor(Xtime(e), a), c))))), Xtime(Xor(a, b))) == Unmix(a, b, c, d)
  {
    hide Xtime;
    hide Mul;
    hide Xor;
    hide Xor3;
    hide Xor4;
    var a2, b2, c2, d2 := Xtime(a), Xtime(b), Xtime(c), Xtime(d);
    var a4, b4, c4, d4 := Xtime(a2), Xtime(b2), Xtime(c2), Xtime(d2);
    Quadrupled(a, b, c, d);
    XtimeLinear(a, b);
    Times14(a);
    Times11(b);
    Times13(c);
    Times9(d);
    UnmixTerms(a, b, c, d, a2, a4, Xtime(a4), b2, Xtime(b4), c4, Xtime(c4), Xtime(d4));
  }

  function Rotate(x: bv8, n: bv4): bv8
    requires n <= 8
  {
    (x << n) | (x >> (8 - n))
  }

  /** The affine transformation of section 5.1.1 of FIPS 197. */
  function Affine(y: bv8): bv8 {
    y ^ Rotate(y, 1) ^ Rotate(y, 2) ^ Rotate(y, 3) ^ Rotate(y, 4) ^ 0x63
  }

  function InvAffine(z: bv8): bv8 {
    Rotate(z, 1) ^ Rotate(z, 3) ^ Rotate(z, 6) ^ 0x05
  }

  lemma AffineUndone(z: bv8)
    ensures Affine(InvAffine(z)) == z && (InvAffine(z) == 0 <==> z == 0x63)
  {
  }

  // Row by row: the inverse of the affine transformation leaves a byte's inverse.

  ghost predicate Inverted(x: bv8) {
    x != 0 ==> Mul(x, InvAffine(Sbox(x))) == 1
  }

  lemma Row0(x: bv8)
    requires x < 0x10
    ensures Inverted(x)
  {
  }

  lemma Row1(x: bv8)
    requires 0x10 <= x < 0x20
    ensures Inverted(x)
  {
  }

  lemma Row2(x: bv8)
    requires 0x20 <= x < 0x30
    ensures Inverted(x)
  {
  }

  lemma Row3(x: bv8)
    requires 0x30 <= x < 0x40
    ensures Inverted(x)
  {
  }

  lemma Row4(x: bv8)
    requires 0x40 <= x < 0x50
    ensures Inverted(x)
  {
  }

  lemma Row5(x: bv8)
    requires 0x50 <= x < 0x60
    ensures Inverted(x)
  {
  }

  lemma Row6(x: bv8)
    requires 0x60 <= x < 0x70
    ensures Inverted(x)
  {
  }

  lemma Row7(x: bv8)
    requires 0x70 <= x < 0x80
    ensures Inverted(x)
  {
  }

  lemma Row8(x: bv8)
    requires 0x80 <= x < 0x90
    ensures Inverted(x)
  {
  }

  lemma Row9(x: bv8)
    requires 0x90 <= x < 0xa0
    ensures Inverted(x)
  {
  }

  lemma RowA(x: bv8)
    requires 0xa0 <= x < 0xb0
    ensures Inverted(x)
  {
  }

  lemma RowB(x: bv8)
    requires 0xb0 <= x < 0xc0
    ensures Inverted(x)
  {
  }

  lemma RowC(x: bv8)
    requires 0xc0 <= x < 0xd0
    ensures Inverted(x)
  {
  }

  lemma RowD(x: bv8)
    requires 0xd0 <= x < 0xe0
    ensures Inverted(x)
  {
  }

  lemma RowE(x: bv8)
    requires 0xe0 <= x < 0xf0
    ensures Inverted(x)
  {
  }

  lemma RowF(x: bv8)
    requires 0xf0 <= x
    ensures Inverted(x)
  {
  }

  lemma Rows(x: bv8)
    ensures Inverted(x)
  {
    hide Inverted;
    if x < 0x10 {
      Row0(x);
    } else if x < 0x20 {
      Row1(x);
    } else if x < 0x30 {
      Row2(x);
    } else if x < 0x40 {
      Row3(x);
    } else if x < 0x50 {
      Row4(x);
    } else if x < 0x60 {
      Row5(x);
    } else if x < 0x70 {
      Row6(x);
    } else if x < 0x80 {
      Row7(x);
    } else if x < 0x90 {
      Row8(x);
    } else if x < 0xa0 {
      Row9(x);
    } else if x < 0xb0 {
      RowA(x);
    } else if x < 0xc0 {
      RowB(x);
    } else if x < 0xd0 {
      RowC(x);
    } else if x < 0xe0 {
      RowD(x);
    } else if x < 0xf0 {
      RowE(x);
    } else {
      RowF(x);
    }
  }

  lemma Undone0(x: bv8)
    requires x < 0x40
    ensures InvSbox(Sbox(x)) == x
  {
  }

  lemma Undone1(x: bv8)
    requires 0x40 <= x < 0x80
    ensures InvSbox(Sbox(x)) == x
  {
  }

  lemma Undone2(x: bv8)
    requires 0x80 <= x < 0xc0
    ensures InvSbox(Sbox(x)) == x
  {
  }

  lemma Undone3(x: bv8)
    requires 0xc0 <= x
    ensures InvSbox(Sbox(x)) == x
  {
  }

  /** Substitution is undone by the inverse table. */
  lemma SboxInverse(x: bv8)
    ensures InvSbox(Sbox(x)) == x
  {
    hide Sbox;
    hide InvSbox;
    if x < 0x40 {
      Undone0(x);
    } else if x < 0x80 {
      Undone1(x);
    } else if x < 0xc0 {
      Undone2(x);
    } else {
      Undone3(x);
    }
  }

  /** The table is what section 5.1.1 of FIPS 197 says: the affine transformation
      of the inverse in GF(2^8), with 0 in place of the inverse of 0. */
  lemma SboxDefinition(x: bv8) returns (y: bv8)
    ensures Sbox(x) == Affine(y) && if x == 0 then y == 0 else Mul(x, y) == 1
  {
    hide Sbox;
    hide InvSbox;
    hide Mul;
    hide Affine;
    hide InvAffine;
    y := InvAffine(Sbox(x));
    AffineUndone(Sbox(x));
    Rows(x);
    if x == 0 { ZeroSubstituted(); }
  }

  lemma ZeroSubstituted()
    ensures Sbox(0) == 0x63
  {
  }
}
