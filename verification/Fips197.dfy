/** AES-256 as FIPS 197 states it: a state of four columns of four bytes, and one
    schedule of 60 words. The code's cipher, with its running key of 32 bytes,
    computes the same. */
module Fips197 {
  import opened AesBytes
  import Aes

  /** Four bytes: a word of the schedule, or a column of the state. */
  datatype Word = Word(b0: bv8, b1: bv8, b2: bv8, b3: bv8)

  datatype State = State(c0: Word, c1: Word, c2: Word, c3: Word)

  function Plus(v: Word, w: Word): Word {
    Word(Xor(v.b0, w.b0), Xor(v.b1, w.b1), Xor(v.b2, w.b2), Xor(v.b3, w.b3))
  }

  // ---- Section 5.2: the key expansion ----

  function SubWord(w: Word): Word {
    Word(Sbox(w.b0), Sbox(w.b1), Sbox(w.b2), Sbox(w.b3))
  }

  function RotWord(w: Word): Word {
    Word(w.b1, w.b2, w.b3, w.b0)
  }

  function Rcon(i: nat): Word {
    var x: bv8 :=
      if i == 1 then 0x01 else if i == 2 then 0x02 else if i == 3 then 0x04 else if i == 4 then 0x08
      else if i == 5 then 0x10 else if i == 6 then 0x20 else 0x40;
    Word(x, 0, 0, 0)
  }

  /** Four bytes of s from p on. */
  function WordAt(s: seq<bv8>, p: nat): Word
    requires p + 4 <= |s|
  {
    Word(s[p], s[p + 1], s[p + 2], s[p + 3])
  }

  /** The word w[i], for Nk = 8. */
  function W(key: seq<bv8>, i: nat): Word
    requires |key| == 32
  {
    if i < 8 then WordAt(key, 4 * i)
    else
      var temp := W(key, i - 1);
      var t := if i % 8 == 0 then Plus(SubWord(RotWord(temp)), Rcon(i / 8))
               else if i % 8 == 4 then SubWord(temp) else temp;
      Plus(W(key, i - 8), t)
  }

  // ---- Section 5.1: the cipher ----

  function SubBytes(s: State): State {
    State(SubWord(s.c0), SubWord(s.c1), SubWord(s.c2), SubWord(s.c3))
  }

  function ShiftRows(s: State): State {
    State(Word(s.c0.b0, s.c1.b1, s.c2.b2, s.c3.b3), Word(s.c1.b0, s.c2.b1, s.c3.b2, s.c0.b3),
          Word(s.c2.b0, s.c3.b1, s.c0.b2, s.c1.b3), Word(s.c3.b0, s.c0.b1, s.c1.b2, s.c2.b3))
  }

  function MixColumn(w: Word): Word {
    Word(Xor4(Mul(w.b0, 0x02), Mul(w.b1, 0x03), w.b2, w.b3), Xor4(w.b0, Mul(w.b1, 0x02), Mul(w.b2, 0x03), w.b3),
         Xor4(w.b0, w.b1, Mul(w.b2, 0x02), Mul(w.b3, 0x03)), Xor4(Mul(w.b0, 0x03), w.b1, w.b2, Mul(w.b3, 0x02)))
  }

  function MixColumns(s: State): State {
    State(MixColumn(s.c0), MixColumn(s.c1), MixColumn(s.c2), MixColumn(s.c3))
  }

  function AddRoundKey(s: State, key: seq<bv8>, round: nat): State
    requires |key| == 32
  {
    State(Plus(s.c0, W(key, 4 * round)), Plus(s.c1, W(key, 4 * round + 1)),
          Plus(s.c2, W(key, 4 * round + 2)), Plus(s.c3, W(key, 4 * round + 3)))
  }

  /** After the first key and n rounds with mixing. */
  function Mixed(s: State, key: seq<bv8>, n: nat): State
    requires |key| == 32
  {
    if n == 0 then AddRoundKey(s, key, 0)
    else AddRoundKey(MixColumns(ShiftRows(SubBytes(Mixed(s, key, n - 1)))), key, n)
  }

  /** Byte r + 4c of the block is row r of column c. */
  function Input(s: seq<bv8>): State
    requires |s| == 16
  {
    State(WordAt(s, 0), WordAt(s, 4), WordAt(s, 8), WordAt(s, 12))
  }

  function Bytes(w: Word): seq<bv8> {
    [w.b0, w.b1, w.b2, w.b3]
  }

  function Output(s: State): seq<bv8> {
    Bytes(s.c0) + Bytes(s.c1) + Bytes(s.c2) + Bytes(s.c3)
  }

  /** Fourteen rounds, of which the last does not mix. */
  function Cipher(s: seq<bv8>, key: seq<bv8>): seq<bv8>
    requires |s| == 16 && |key| == 32
  {
    Output(AddRoundKey(ShiftRows(SubBytes(Mixed(Input(s), key, 13))), key, 14))
  }

  // ---- Section 5.3: the inverse cipher ----

  function InvSubWord(w: Word): Word {
    Word(InvSbox(w.b0), InvSbox(w.b1), InvSbox(w.b2), InvSbox(w.b3))
  }

  function InvSubBytes(s: State): State {
    State(InvSubWord(s.c0), InvSubWord(s.c1), InvSubWord(s.c2), InvSubWord(s.c3))
  }

  function InvShiftRows(s: State): State {
    State(Word(s.c0.b0, s.c3.b1, s.c2.b2, s.c1.b3), Word(s.c1.b0, s.c0.b1, s.c3.b2, s.c2.b3),
          Word(s.c2.b0, s.c1.b1, s.c0.b2, s.c3.b3), Word(s.c3.b0, s.c2.b1, s.c1.b2, s.c0.b3))
  }

  function InvMixColumn(w: Word): Word {
    Word(Xor4(Mul(w.b0, 0x0e), Mul(w.b1, 0x0b), Mul(w.b2, 0x0d), Mul(w.b3, 0x09)),
         Xor4(Mul(w.b0, 0x09), Mul(w.b1, 0x0e), Mul(w.b2, 0x0b), Mul(w.b3, 0x0d)),
         Xor4(Mul(w.b0, 0x0d), Mul(w.b1, 0x09), Mul(w.b2, 0x0e), Mul(w.b3, 0x0b)),
         Xor4(Mul(w.b0, 0x0b), Mul(w.b1, 0x0d), Mul(w.b2, 0x09), Mul(w.b3, 0x0e)))
  }

  function InvMixColumns(s: State): State {
    State(InvMixColumn(s.c0), InvMixColumn(s.c1), InvMixColumn(s.c2), InvMixColumn(s.c3))
  }

  /** From the last key down to round n, all of whose steps undo mixing. */
  function Unmixed(s: State, key: seq<bv8>, n: nat): State
    requires |key| == 32 && n <= 14
    decreases 14 - n
  {
    if n == 14 then AddRoundKey(s, key, 14)
    else InvMixColumns(AddRoundKey(InvSubBytes(InvShiftRows(Unmixed(s, key, n + 1))), key, n))
  }

  function InvCipher(s: seq<bv8>, key: seq<bv8>): seq<bv8>
    requires |s| == 16 && |key| == 32
  {
    Output(AddRoundKey(InvSubBytes(InvShiftRows(Unmixed(Input(s), key, 1))), key, 0))
  }

  // ---- The code's steps on 16 bytes are those on the state ----

  lemma OutputInput(s: seq<bv8>)
    requires |s| == 16
    ensures Output(Input(s)) == s
  {
  }

  lemma SubSame(s: seq<bv8>)
    requires |s| == 16
    ensures Input(Aes.SubBytes(s)) == SubBytes(Input(s))
    ensures Input(Aes.InvSubBytes(s)) == InvSubBytes(Input(s))
  {
    hide Sbox;
    hide InvSbox;
  }

  lemma Shifted(s: seq<bv8>, i: nat, j: nat)
    requires |s| == 16 && i < 16 && j == (i + 4 * (i % 4)) % 16
    ensures Aes.ShiftRows(s)[i] == s[j]
  {
  }

  lemma ShiftedWords(s: seq<bv8>)
    requires |s| == 16
    ensures WordAt(Aes.ShiftRows(s), 0) == Word(s[0], s[5], s[10], s[15])
    ensures WordAt(Aes.ShiftRows(s), 4) == Word(s[4], s[9], s[14], s[3])
    ensures WordAt(Aes.ShiftRows(s), 8) == Word(s[8], s[13], s[2], s[7])
    ensures WordAt(Aes.ShiftRows(s), 12) == Word(s[12], s[1], s[6], s[11])
  {
    hide Aes.ShiftRows;
    Shifted(s, 0, 0); Shifted(s, 1, 5); Shifted(s, 2, 10); Shifted(s, 3, 15);
    Shifted(s, 4, 4); Shifted(s, 5, 9); Shifted(s, 6, 14); Shifted(s, 7, 3);
    Shifted(s, 8, 8); Shifted(s, 9, 13); Shifted(s, 10, 2); Shifted(s, 11, 7);
    Shifted(s, 12, 12); Shifted(s, 13, 1); Shifted(s, 14, 6); Shifted(s, 15, 11);
  }

  lemma Unshifted(s: seq<bv8>, i: nat, j: nat)
    requires |s| == 16 && i < 16 && j == (i + 12 * (i % 4)) % 16
    ensures Aes.InvShiftRows(s)[i] == s[j]
  {
  }

  lemma UnshiftedWords(s: seq<bv8>)
    requires |s| == 16
    ensures WordAt(Aes.InvShiftRows(s), 0) == Word(s[0], s[13], s[10], s[7])
    ensures WordAt(Aes.InvShiftRows(s), 4) == Word(s[4], s[1], s[14], s[11])
    ensures WordAt(Aes.InvShiftRows(s), 8) == Word(s[8], s[5], s[2], s[15])
    ensures WordAt(Aes.InvShiftRows(s), 12) == Word(s[12], s[9], s[6], s[3])
  {
    hide Aes.InvShiftRows;
    Unshifted(s, 0, 0); Unshifted(s, 1, 13); Unshifted(s, 2, 10); Unshifted(s, 3, 7);
    Unshifted(s, 4, 4); Unshifted(s, 5, 1); Unshifted(s, 6, 14); Unshifted(s, 7, 11);
    Unshifted(s, 8, 8); Unshifted(s, 9, 5); Unshifted(s, 10, 2); Unshifted(s, 11, 15);
    Unshifted(s, 12, 12); Unshifted(s, 13, 9); Unshifted(s, 14, 6); Unshifted(s, 15, 3);
  }

  lemma ShiftSame(s: seq<bv8>)
    requires |s| == 16
    ensures Input(Aes.ShiftRows(s)) == ShiftRows(Input(s))
    ensures Input(Aes.InvShiftRows(s)) == InvShiftRows(Input(s))
  {
    hide Aes.ShiftRows;
    hide Aes.InvShiftRows;
    ShiftedWords(s);
    UnshiftedWords(s);
  }

  /** A mixed byte does not depend on where its column starts. */
  lemma ColumnMixed(w: Word)
    ensures MixColumn(w) == Word(Mix(w.b0, w.b1, w.b2, w.b3), Mix(w.b1, w.b2, w.b3, w.b0),
                                 Mix(w.b2, w.b3, w.b0, w.b1), Mix(w.b3, w.b0, w.b1, w.b2))
  {
    hide Xor4;
    hide Mul;
    Rotated(w.b0, Mul(w.b1, 0x02), Mul(w.b2, 0x03), w.b3);
    Rotated(w.b1, Mul(w.b2, 0x02), Mul(w.b3, 0x03), w.b0);
    Rotated(w.b0, w.b1, Mul(w.b2, 0x02), Mul(w.b3, 0x03));
    Rotated(w.b2, Mul(w.b3, 0x02), Mul(w.b0, 0x03), w.b1);
    Rotated(w.b1, w.b2, Mul(w.b3, 0x02), Mul(w.b0, 0x03));
    Rotated(Mul(w.b0, 0x03), w.b1, w.b2, Mul(w.b3, 0x02));
  }

  lemma ColumnUnmixed(w: Word)
    ensures InvMixColumn(w) == Word(Unmix(w.b0, w.b1, w.b2, w.b3), Unmix(w.b1, w.b2, w.b3, w.b0),
                                    Unmix(w.b2, w.b3, w.b0, w.b1), Unmix(w.b3, w.b0, w.b1, w.b2))
  {
    hide Xor4;
    hide Mul;
    Rotated(Mul(w.b0, 0x09), Mul(w.b1, 0x0e), Mul(w.b2, 0x0b), Mul(w.b3, 0x0d));
    Rotated(Mul(w.b0, 0x0d), Mul(w.b1, 0x09), Mul(w.b2, 0x0e), Mul(w.b3, 0x0b));
    Rotated(Mul(w.b1, 0x09), Mul(w.b2, 0x0e), Mul(w.b3, 0x0b), Mul(w.b0, 0x0d));
    Rotated(Mul(w.b3, 0x0e), Mul(w.b0, 0x0b), Mul(w.b1, 0x0d), Mul(w.b2, 0x09));
  }

  lemma DownIs(s: seq<bv8>, p: nat, r: nat, k: nat)
    requires |s| == 16 && p % 4 == 0 && p < 16 && r < 4 && k < 4
    ensures Aes.Down(s, p + r, k) == s[p + (r + k) % 4]
  {
  }

  lemma MixedByte(s: seq<bv8>, p: nat, r: nat)
    requires |s| == 16 && p % 4 == 0 && p < 16 && r < 4
    ensures Aes.MixColumns(s)[p + r] == Mix(s[p + r], s[p + (r + 1) % 4], s[p + (r + 2) % 4], s[p + (r + 3) % 4])
  {
    hide Mix;
    DownIs(s, p, r, 0);
    DownIs(s, p, r, 1);
    DownIs(s, p, r, 2);
    DownIs(s, p, r, 3);
    hide Aes.Down;
  }

  lemma MixedWord(s: seq<bv8>, p: nat)
    requires |s| == 16 && p % 4 == 0 && p < 16
    ensures WordAt(Aes.MixColumns(s), p) == MixColumn(WordAt(s, p))
  {
    hide Mix;
    hide MixColumn;
    hide Aes.MixColumns;
    ColumnMixed(WordAt(s, p));
    MixedByte(s, p, 0);
    MixedByte(s, p, 1);
    MixedByte(s, p, 2);
    MixedByte(s, p, 3);
  }

  lemma UnmixedByte(s: seq<bv8>, p: nat, r: nat)
    requires |s| == 16 && p % 4 == 0 && p < 16 && r < 4
    ensures Aes.InvMixColumns(s)[p + r] == Unmix(s[p + r], s[p + (r + 1) % 4], s[p + (r + 2) % 4], s[p + (r + 3) % 4])
  {
    hide Unmix;
    DownIs(s, p, r, 0);
    DownIs(s, p, r, 1);
    DownIs(s, p, r, 2);
    DownIs(s, p, r, 3);
    hide Aes.Down;
  }

  lemma UnmixedWord(s: seq<bv8>, p: nat)
    requires |s| == 16 && p % 4 == 0 && p < 16
    ensures WordAt(Aes.InvMixColumns(s), p) == InvMixColumn(WordAt(s, p))
  {
    hide Unmix;
    hide InvMixColumn;
    hide Aes.InvMixColumns;
    ColumnUnmixed(WordAt(s, p));
    UnmixedByte(s, p, 0);
    UnmixedByte(s, p, 1);
    UnmixedByte(s, p, 2);
    UnmixedByte(s, p, 3);
  }

  lemma MixSame(s: seq<bv8>)
    requires |s| == 16
    ensures Input(Aes.MixColumns(s)) == MixColumns(Input(s))
    ensures Input(Aes.InvMixColumns(s)) == InvMixColumns(Input(s))
  {
    hide Aes.MixColumns;
    hide Aes.InvMixColumns;
    hide MixColumn;
    hide InvMixColumn;
    hide WordAt;
    MixedWord(s, 0);
    MixedWord(s, 4);
    MixedWord(s, 8);
    MixedWord(s, 12);
    UnmixedWord(s, 0);
    UnmixedWord(s, 4);
    UnmixedWord(s, 8);
    UnmixedWord(s, 12);
  }

  // ---- The running key is a window on the schedule ----

  lemma RconSame(n: nat)
    requires 1 <= n <= 7
    ensures Rcon(n) == Word(Aes.Rcon(n - 1), 0, 0, 0)
  {
    assert Aes.Rcon(0) == 0x01;
    assert Aes.Rcon(1) == 0x02;
    assert Aes.Rcon(2) == 0x04;
    assert Aes.Rcon(3) == 0x08;
    assert Aes.Rcon(4) == 0x10;
    assert Aes.Rcon(5) == 0x20;
    assert Aes.Rcon(6) == 0x40;
  }

  lemma PlusNothing(a: bv8)
    ensures Xor(a, 0) == a
  {
  }

  lemma PlusConstant(w: Word, rc: bv8)
    ensures Plus(w, Word(rc, 0, 0, 0)) == Word(Xor(w.b0, rc), w.b1, w.b2, w.b3)
  {
    hide Xor;
    PlusNothing(w.b1);
    PlusNothing(w.b2);
    PlusNothing(w.b3);
  }

  /** The j-th word of the next 32 bytes. */
  lemma NextWord(k: seq<bv8>, rc: bv8, j: nat)
    requires |k| == 32 && j < 8
    ensures var q := Aes.NextKey(k, rc);
            WordAt(q, 4 * j) ==
            Plus(WordAt(k, 4 * j),
                 if j == 0 then Plus(SubWord(RotWord(WordAt(k, 28))), Word(rc, 0, 0, 0))
                 else if j == 4 then SubWord(WordAt(q, 12))
                 else WordAt(q, 4 * j - 4))
  {
    hide Xor;
    hide Sbox;
    PlusConstant(SubWord(RotWord(WordAt(k, 28))), rc);
  }

  lemma WNext(k: seq<bv8>, n: nat, j: nat)
    requires |k| == 32 && 1 <= n && j < 8
    ensures W(k, 8 * n + j) ==
            Plus(W(k, 8 * (n - 1) + j),
                 if j == 0 then Plus(SubWord(RotWord(W(k, 8 * (n - 1) + 7))), Rcon(n))
                 else if j == 4 then SubWord(W(k, 8 * n + 3))
                 else W(k, 8 * n + (j - 1)))
  {
    hide Plus;
    hide SubWord;
    hide Rcon;
    var i := 8 * n + j;
    assert i % 8 == j && i / 8 == n;
  }

  lemma {:induction false} KeyWord(k: seq<bv8>, n: nat, j: nat)
    requires |k| == 32 && n <= 7 && j < 8
    ensures WordAt(Aes.KeyAt(k, n), 4 * j) == W(k, 8 * n + j)
    decreases n, j
  {
    hide Aes.NextKey;
    hide Plus;
    hide SubWord;
    hide WordAt;
    hide Rcon;
    if n > 0 {
      hide W;
      hide Aes.Rcon;
      WNext(k, n, j);
      NextWord(Aes.KeyAt(k, n - 1), Aes.Rcon(n - 1), j);
      KeyWord(k, n - 1, j);
      RconSame(n);
      if j == 0 { KeyWord(k, n - 1, 7); } else { KeyWord(k, n, j - 1); }
    }
  }

  lemma RoundKeySame(s: seq<bv8>, k: seq<bv8>, round: nat)
    requires |s| == 16 && |k| == 32 && round <= 14
    ensures Input(Aes.AddRoundKey(s, Aes.KeyAt(k, round / 2), 16 * (round % 2))) == AddRoundKey(Input(s), k, round)
  {
    hide AddRoundKey;
    hide Aes.AddRoundKey;
    hide Aes.KeyAt;
    hide WordAt;
    hide W;
    var n, j := round / 2, 4 * (round % 2);
    KeyWord(k, n, j);
    KeyWord(k, n, j + 1);
    KeyWord(k, n, j + 2);
    KeyWord(k, n, j + 3);
    AddSame(s, Aes.KeyAt(k, n), 4 * j, k, round);
  }

  lemma AddSame(s: seq<bv8>, k: seq<bv8>, off: nat, key: seq<bv8>, round: nat)
    requires |s| == 16 && |k| == 32 && |key| == 32 && off + 16 <= 32
    requires WordAt(k, off) == W(key, 4 * round) && WordAt(k, off + 4) == W(key, 4 * round + 1)
    requires WordAt(k, off + 8) == W(key, 4 * round + 2) && WordAt(k, off + 12) == W(key, 4 * round + 3)
    ensures Input(Aes.AddRoundKey(s, k, off)) == AddRoundKey(Input(s), key, round)
  {
    hide Xor;
    hide W;
  }

  // ---- The ciphers are the same ----

  lemma RoundSame(t: seq<bv8>, k: seq<bv8>, n: nat)
    requires |t| == 16 && |k| == 32 && n <= 14
    ensures Input(Aes.Round(t, Aes.KeyAt(k, n / 2), 16 * (n % 2))) ==
            AddRoundKey(MixColumns(ShiftRows(SubBytes(Input(t)))), k, n)
  {
    hide Aes.SubBytes;
    hide Aes.ShiftRows;
    hide Aes.MixColumns;
    hide Aes.AddRoundKey;
    hide Aes.KeyAt;
    hide SubBytes;
    hide ShiftRows;
    hide MixColumns;
    hide AddRoundKey;
    hide Input;
    var a := Aes.SubBytes(t);
    var b := Aes.ShiftRows(a);
    SubSame(t);
    ShiftSame(a);
    MixSame(b);
    RoundKeySame(Aes.MixColumns(b), k, n);
  }

  lemma {:induction false} RoundsSame(s: seq<bv8>, k: seq<bv8>, n: nat)
    requires |s| == 16 && |k| == 32 && n <= 13
    ensures Input(Aes.Rounds(s, k, n)) == Mixed(Input(s), k, n)
  {
    hide Aes.Round;
    hide Aes.AddRoundKey;
    hide SubBytes;
    hide ShiftRows;
    hide MixColumns;
    hide AddRoundKey;
    hide Input;
    if n == 0 {
      RoundKeySame(s, k, 0);
    } else {
      hide Aes.KeyAt;
      RoundsSame(s, k, n - 1);
      RoundSame(Aes.Rounds(s, k, n - 1), k, n);
    }
  }

  /** For every block and key, the code's cipher is the standard's. */
  lemma CipherSame(s: seq<bv8>, k: seq<bv8>)
    requires |s| == 16 && |k| == 32
    ensures Aes.Cipher(s, k) == Cipher(s, k)
  {
    hide Aes.SubBytes;
    hide Aes.ShiftRows;
    hide Aes.AddRoundKey;
    hide Aes.KeyAt;
    hide Aes.Rounds;
    hide SubBytes;
    hide ShiftRows;
    hide AddRoundKey;
    hide Input;
    hide Output;
    var t := Aes.Rounds(s, k, 13);
    RoundsSame(s, k, 13);
    SubSame(t);
    ShiftSame(Aes.SubBytes(t));
    RoundKeySame(Aes.ShiftRows(Aes.SubBytes(t)), k, 14);
    OutputInput(Aes.Cipher(s, k));
  }

  lemma UnroundSame(x: seq<bv8>, k: seq<bv8>, n: nat)
    requires |x| == 16 && |k| == 32 && n <= 14
    ensures Input(Aes.Unround(x, Aes.KeyAt(k, n / 2), 16 * (n % 2))) ==
            InvSubBytes(InvShiftRows(InvMixColumns(AddRoundKey(Input(x), k, n))))
  {
    hide Aes.InvSubBytes;
    hide Aes.InvShiftRows;
    hide Aes.InvMixColumns;
    hide Aes.AddRoundKey;
    hide Aes.KeyAt;
    hide InvSubBytes;
    hide InvShiftRows;
    hide InvMixColumns;
    hide AddRoundKey;
    hide Input;
    var a := Aes.AddRoundKey(x, Aes.KeyAt(k, n / 2), 16 * (n % 2));
    var b := Aes.InvMixColumns(a);
    RoundKeySame(x, k, n);
    MixSame(a);
    ShiftSame(b);
    SubSame(Aes.InvShiftRows(b));
  }

  /** Round n of the code starts in the middle of round n + 1 of the standard. */
  lemma {:induction false} UnroundsSame(s: seq<bv8>, k: seq<bv8>, x: seq<bv8>, n: nat)
    requires |s| == 16 && |k| == 32 && |x| == 16 && n <= 13
    requires Input(x) == InvSubBytes(InvShiftRows(Unmixed(Input(s), k, n + 1)))
    ensures Input(Aes.Unrounds(x, k, n)) == AddRoundKey(InvSubBytes(InvShiftRows(Unmixed(Input(s), k, 1))), k, 0)
    decreases n
  {
    hide Aes.Unround;
    hide Aes.AddRoundKey;
    hide InvSubBytes;
    hide InvShiftRows;
    hide InvMixColumns;
    hide AddRoundKey;
    hide Input;
    if n == 0 {
      RoundKeySame(x, k, 0);
    } else {
      hide Aes.KeyAt;
      UnroundSame(x, k, n);
      UnroundsSame(s, k, Aes.Unround(x, Aes.KeyAt(k, n / 2), 16 * (n % 2)), n - 1);
    }
  }

  lemma InvCipherSame(s: seq<bv8>, k: seq<bv8>)
    requires |s| == 16 && |k| == 32
    ensures Aes.InvCipher(s, k) == InvCipher(s, k)
  {
    hide Aes.InvSubBytes;
    hide Aes.InvShiftRows;
    hide Aes.AddRoundKey;
    hide Aes.KeyAt;
    hide Aes.Unrounds;
    hide InvSubBytes;
    hide InvShiftRows;
    hide AddRoundKey;
    hide Input;
    hide Output;
    var a := Aes.AddRoundKey(s, Aes.KeyAt(k, 7), 0);
    var b := Aes.InvShiftRows(a);
    RoundKeySame(s, k, 14);
    ShiftSame(a);
    SubSame(b);
    UnroundsSame(s, k, Aes.InvSubBytes(b), 13);
    OutputInput(Aes.InvCipher(s, k));
  }
}
