/** AES-256 (FIPS 197): the cipher as functions, its inverse, and the code that
    computes both in place, expanding the key as it goes. */
module Aes {
  import opened AesBytes

  type Bytes = seq<bv8>

  // ---- The steps of a round, on a block of 16 bytes: byte r + 4c is row r of column c ----

  function SubBytes(s: Bytes): (t: Bytes)
    ensures |t| == |s|
  {
    seq(|s|, i requires 0 <= i < |s| => Sbox(s[i]))
  }

  function InvSubBytes(s: Bytes): (t: Bytes)
    ensures |t| == |s|
  {
    seq(|s|, i requires 0 <= i < |s| => InvSbox(s[i]))
  }

  /** Row r moves left by r columns. */
  function ShiftRows(s: Bytes): (t: Bytes)
    requires |s| == 16
    ensures |t| == 16
  {
    seq(16, i requires 0 <= i < 16 => s[(i + 4 * (i % 4)) % 16])
  }

  function InvShiftRows(s: Bytes): (t: Bytes)
    requires |s| == 16
    ensures |t| == 16
  {
    seq(16, i requires 0 <= i < 16 => s[(i + 12 * (i % 4)) % 16])
  }

  /** The byte k places further down the column of byte i. */
  function Down(s: Bytes, i: nat, k: nat): bv8
    requires |s| == 16 && i < 16
  {
    s[i / 4 * 4 + (i + k) % 4]
  }

  function MixColumns(s: Bytes): (t: Bytes)
    requires |s| == 16
    ensures |t| == 16
  {
    seq(16, i requires 0 <= i < 16 => Mix(Down(s, i, 0), Down(s, i, 1), Down(s, i, 2), Down(s, i, 3)))
  }

  function InvMixColumns(s: Bytes): (t: Bytes)
    requires |s| == 16
    ensures |t| == 16
  {
    seq(16, i requires 0 <= i < 16 => Unmix(Down(s, i, 0), Down(s, i, 1), Down(s, i, 2), Down(s, i, 3)))
  }

  /** Add the 16 bytes of the key from off on. */
  function AddRoundKey(s: Bytes, key: Bytes, off: nat): (t: Bytes)
    requires |s| == 16 && off + 16 <= |key|
    ensures |t| == 16
  {
    seq(16, i requires 0 <= i < 16 => Xor(s[i], key[off + i]))
  }

  lemma SubUndone(s: Bytes)
    ensures InvSubBytes(SubBytes(s)) == s
  {
    hide Sbox;
    hide InvSbox;
    forall i | 0 <= i < |s| ensures InvSubBytes(SubBytes(s))[i] == s[i] { SboxInverse(s[i]); }
  }

  lemma ShiftUndone(s: Bytes)
    requires |s| == 16
    ensures InvShiftRows(ShiftRows(s)) == s
  {
    forall i | 0 <= i < 16 ensures InvShiftRows(ShiftRows(s))[i] == s[i] {
      RowIndex(i);
    }
  }

  lemma RowIndex(i: nat)
    requires i < 16
    ensures var j := (i + 12 * (i % 4)) % 16; (j + 4 * (j % 4)) % 16 == i
  {
  }

  /** Going down a column twice. */
  lemma DownIndex(i: nat, k: nat, m: nat)
    requires i < 16 && k < 4 && m < 4
    ensures var j := i / 4 * 4 + (i + k) % 4;
            j < 16 && j / 4 * 4 + (j + m) % 4 == i / 4 * 4 + (i + (k + m)) % 4
  {
    var c, r := i / 4, (i + k) % 4;
    Column(c, r);
    ModSum(i + k, m);
    ModSum(c * 4 + r, m);
  }

  lemma Column(c: nat, r: nat)
    requires r < 4
    ensures (c * 4 + r) / 4 == c && (c * 4 + r) % 4 == r
  {
  }

  lemma ModSum(a: nat, m: nat)
    ensures (a % 4 + m) % 4 == (a + m) % 4
  {
  }

  lemma DownAgain(s: Bytes, i: nat, k: nat, m: nat)
    requires |s| == 16 && i < 16 && k < 4 && m < 4
    ensures Down(s, i / 4 * 4 + (i + k) % 4, m) == Down(s, i, k + m)
  {
    DownIndex(i, k, m);
  }

  lemma DownAround(s: Bytes, i: nat, k: nat)
    requires |s| == 16 && i < 16
    ensures Down(s, i, k + 4) == Down(s, i, k) && Down(s, i, 0) == s[i]
  {
    ModSum(4, i + k);
  }

  lemma DownMixed(s: Bytes, i: nat, k: nat)
    requires |s| == 16 && i < 16 && k < 4
    ensures Down(MixColumns(s), i, k) == Mix(Down(s, i, k), Down(s, i, k + 1), Down(s, i, k + 2), Down(s, i, k + 3))
  {
    hide Mix;
    var j := InColumn(i, k);
    DownAgain(s, i, k, 0);
    DownAgain(s, i, k, 1);
    DownAgain(s, i, k, 2);
    DownAgain(s, i, k, 3);
    assert Down(MixColumns(s), i, k) == MixColumns(s)[j];
    hide Down;
  }

  lemma InColumn(i: nat, k: nat) returns (j: nat)
    requires i < 16
    ensures j == i / 4 * 4 + (i + k) % 4 && j < 16
  {
    j := i / 4 * 4 + (i + k) % 4;
  }

  lemma MixUndone(s: Bytes)
    requires |s| == 16
    ensures InvMixColumns(MixColumns(s)) == s
  {
    hide Mix;
    hide Unmix;
    hide Down;
    forall i | 0 <= i < 16 ensures InvMixColumns(MixColumns(s))[i] == s[i] {
      DownMixed(s, i, 0);
      DownMixed(s, i, 1);
      DownMixed(s, i, 2);
      DownMixed(s, i, 3);
      DownAround(s, i, 0);
      DownAround(s, i, 1);
      DownAround(s, i, 2);
      UnmixMix(Down(s, i, 0), Down(s, i, 1), Down(s, i, 2), Down(s, i, 3));
    }
  }

  lemma AddUndone(s: Bytes, key: Bytes, off: nat)
    requires |s| == 16 && off + 16 <= |key|
    ensures AddRoundKey(AddRoundKey(s, key, off), key, off) == s
  {
    hide Xor;
    forall i | 0 <= i < 16 ensures AddRoundKey(AddRoundKey(s, key, off), key, off)[i] == s[i] {
      XorTwice(s[i], key[off + i]);
    }
  }

  // ---- The key schedule ----

  /** Byte i of the next 32 bytes of the schedule, section 5.2 of FIPS 197: each
      word is the one eight words back plus the one before it, which is
      substituted before every fourth word, and rotated before every eighth. */
  function KeyByte(k: Bytes, rc: bv8, i: nat): bv8
    requires |k| == 32 && i < 32
  {
    if i == 0 then Xor(k[0], Xor(Sbox(k[29]), rc))
    else if i < 4 then Xor(k[i], Sbox(k[28 + (i + 1) % 4]))
    else if 16 <= i < 20 then Xor(k[i], Sbox(KeyByte(k, rc, i - 4)))
    else Xor(k[i], KeyByte(k, rc, i - 4))
  }

  function NextKey(k: Bytes, rc: bv8): (t: Bytes)
    requires |k| == 32
    ensures |t| == 32
  {
    seq(32, i requires 0 <= i < 32 => KeyByte(k, rc, i))
  }

  /** What is added to byte i of a key, later bytes first, to step the schedule
      back: k is the key, old what has been computed already. */
  function BackByte(k: Bytes, rc: bv8, i: nat): bv8
    requires |k| == 32 && i < 32
    decreases 32 - i
  {
    if i == 0 then Xor(k[0], Xor(Sbox(BackByte(k, rc, 29)), rc))
    else if i < 4 then Xor(k[i], Sbox(BackByte(k, rc, 28 + (i + 1) % 4)))
    else if 16 <= i < 20 then Xor(k[i], Sbox(k[i - 4]))
    else Xor(k[i], k[i - 4])
  }

  function PrevKey(k: Bytes, rc: bv8): (t: Bytes)
    requires |k| == 32
    ensures |t| == 32
  {
    seq(32, i requires 0 <= i < 32 => BackByte(k, rc, i))
  }

  lemma {:induction false} ByteBack(k: Bytes, rc: bv8, i: nat)
    requires |k| == 32 && i < 32
    ensures BackByte(NextKey(k, rc), rc, i) == k[i]
    decreases 32 - i
  {
    hide Xor;
    hide Sbox;
    if i == 0 {
      ByteBack(k, rc, 29);
      XorTwice(k[0], Xor(Sbox(k[29]), rc));
    } else if i < 4 {
      var j := 28 + (i + 1) % 4;
      ByteBack(k, rc, j);
      XorTwice(k[i], Sbox(k[j]));
    } else if 16 <= i < 20 {
      XorTwice(k[i], Sbox(KeyByte(k, rc, i - 4)));
    } else {
      XorTwice(k[i], KeyByte(k, rc, i - 4));
    }
  }

  /** Stepping back undoes stepping on. */
  lemma KeyBack(k: Bytes, rc: bv8)
    requires |k| == 32
    ensures PrevKey(NextKey(k, rc), rc) == k
  {
    hide KeyByte;
    forall i | 0 <= i < 32 ensures PrevKey(NextKey(k, rc), rc)[i] == k[i] { ByteBack(k, rc, i); }
  }

  /** The round constant of the n-th step. */
  function Rcon(n: nat): bv8 {
    if n == 0 then 1 else Xtime(Rcon(n - 1))
  }

  function KeyAt(k: Bytes, n: nat): (t: Bytes)
    requires |k| == 32
    ensures |t| == 32
  {
    if n == 0 then k else NextKey(KeyAt(k, n - 1), Rcon(n - 1))
  }

  // ---- The cipher and its inverse ----

  function Round(s: Bytes, key: Bytes, off: nat): (t: Bytes)
    requires |s| == 16 && off + 16 <= |key|
    ensures |t| == 16
  {
    AddRoundKey(MixColumns(ShiftRows(SubBytes(s))), key, off)
  }

  /** The state after n full rounds; round n adds half a key, the second half first. */
  function Rounds(s: Bytes, k: Bytes, n: nat): (t: Bytes)
    requires |s| == 16 && |k| == 32
    ensures |t| == 16
  {
    if n == 0 then AddRoundKey(s, k, 0) else Round(Rounds(s, k, n - 1), KeyAt(k, n / 2), 16 * (n % 2))
  }

  /** Section 5.1 of FIPS 197, for 14 rounds. */
  function Cipher(s: Bytes, k: Bytes): (t: Bytes)
    requires |s| == 16 && |k| == 32
    ensures |t| == 16
  {
    AddRoundKey(ShiftRows(SubBytes(Rounds(s, k, 13))), KeyAt(k, 7), 0)
  }

  function Unround(s: Bytes, key: Bytes, off: nat): (t: Bytes)
    requires |s| == 16 && off + 16 <= |key|
    ensures |t| == 16
  {
    InvSubBytes(InvShiftRows(InvMixColumns(AddRoundKey(s, key, off))))
  }

  function Unrounds(s: Bytes, k: Bytes, n: nat): (t: Bytes)
    requires |s| == 16 && |k| == 32
    ensures |t| == 16
    decreases n
  {
    if n == 0 then AddRoundKey(s, k, 0) else Unrounds(Unround(s, KeyAt(k, n / 2), 16 * (n % 2)), k, n - 1)
  }

  /** Section 5.3 of FIPS 197. */
  function InvCipher(s: Bytes, k: Bytes): (t: Bytes)
    requires |s| == 16 && |k| == 32
    ensures |t| == 16
  {
    Unrounds(InvSubBytes(InvShiftRows(AddRoundKey(s, KeyAt(k, 7), 0))), k, 13)
  }

  lemma RoundUndone(s: Bytes, key: Bytes, off: nat)
    requires |s| == 16 && off + 16 <= |key|
    ensures Unround(Round(s, key, off), key, off) == s
  {
    var a := SubBytes(s);
    var b := ShiftRows(a);
    var c := MixColumns(b);
    SubUndone(s);
    ShiftUndone(a);
    MixUndone(b);
    AddUndone(c, key, off);
    hide SubBytes;
    hide InvSubBytes;
    hide ShiftRows;
    hide InvShiftRows;
    hide MixColumns;
    hide InvMixColumns;
    hide AddRoundKey;
  }

  lemma {:induction false} RoundsUndone(s: Bytes, k: Bytes, n: nat)
    requires |s| == 16 && |k| == 32
    ensures Unrounds(Rounds(s, k, n), k, n) == s
  {
    hide Round;
    hide Unround;
    hide AddRoundKey;
    hide KeyAt;
    if n == 0 {
      AddUndone(s, k, 0);
    } else {
      RoundUndone(Rounds(s, k, n - 1), KeyAt(k, n / 2), 16 * (n % 2));
      RoundsUndone(s, k, n - 1);
    }
  }

  /** Deciphering undoes enciphering, for every block and key. */
  lemma CipherUndone(s: Bytes, k: Bytes)
    requires |s| == 16 && |k| == 32
    ensures InvCipher(Cipher(s, k), k) == s
  {
    hide SubBytes;
    hide InvSubBytes;
    hide ShiftRows;
    hide InvShiftRows;
    hide AddRoundKey;
    hide KeyAt;
    hide Rounds;
    hide Unrounds;
    var t := Rounds(s, k, 13);
    SubUndone(t);
    ShiftUndone(SubBytes(t));
    AddUndone(ShiftRows(SubBytes(t)), KeyAt(k, 7), 0);
    RoundsUndone(s, k, 13);
  }
}
