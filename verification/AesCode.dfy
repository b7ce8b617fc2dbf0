/** The code of AES-256: every step works in place on a buffer. */
module AesCode {
  import opened AesBytes
  import opened Aes
  import Fips197

  // ---- Steps on a block ----

  method DoSubBytes(buf: array<bv8>)
    requires buf.Length == 16
    modifies buf
    ensures buf[..] == SubBytes(old(buf[..]))
  {
    hide Sbox;
    var i := 16;
    while i > 0
      invariant 0 <= i <= 16
      invariant forall j :: 0 <= j < 16 ==> buf[j] == if j < i then old(buf[j]) else Sbox(old(buf[j]))
    {
      i := i - 1;
      buf[i] := Sbox(buf[i]);
    }
  }

  method DoInvSubBytes(buf: array<bv8>)
    requires buf.Length == 16
    modifies buf
    ensures buf[..] == InvSubBytes(old(buf[..]))
  {
    hide InvSbox;
    var i := 16;
    while i > 0
      invariant 0 <= i <= 16
      invariant forall j :: 0 <= j < 16 ==> buf[j] == if j < i then old(buf[j]) else InvSbox(old(buf[j]))
    {
      i := i - 1;
      buf[i] := InvSbox(buf[i]);
    }
  }

  /** Add 16 bytes of the key, from off on. */
  method DoAddRoundKey(buf: array<bv8>, key: array<bv8>, off: nat)
    requires buf.Length == 16 && off + 16 <= key.Length && buf != key
    modifies buf
    ensures buf[..] == AddRoundKey(old(buf[..]), key[..], off)
  {
    hide Xor;
    var i := 16;
    while i > 0
      invariant 0 <= i <= 16
      invariant forall j :: 0 <= j < 16 ==> buf[j] == if j < i then old(buf[j]) else Xor(old(buf[j]), key[off + j])
    {
      i := i - 1;
      buf[i] := Xor(buf[i], key[off + i]);
    }
  }

  /** Add the first 16 bytes of the key, and copy all of it. */
  method DoCpyAddRoundKey(buf: array<bv8>, key: array<bv8>, cpk: array<bv8>)
    requires buf.Length == 16 && key.Length == cpk.Length == 32 && buf != key && buf != cpk && key != cpk
    modifies buf, cpk
    ensures buf[..] == AddRoundKey(old(buf[..]), key[..], 0) && cpk[..] == key[..]
  {
    hide Xor;
    var i := 16;
    while i > 0
      invariant 0 <= i <= 16
      invariant forall j :: 0 <= j < 16 ==> buf[j] == if j < i then old(buf[j]) else Xor(old(buf[j]), key[j])
      invariant forall j :: i <= j < 16 || 16 + i <= j < 32 ==> cpk[j] == key[j]
    {
      i := i - 1;
      cpk[i] := key[i];
      buf[i] := Xor(buf[i], cpk[i]);
      cpk[16 + i] := key[16 + i];
    }
  }

  lemma Equal16(t: Bytes, u: Bytes)
    requires |t| == |u| == 16
    requires t[0] == u[0] && t[1] == u[1] && t[2] == u[2] && t[3] == u[3] && t[4] == u[4] && t[5] == u[5] &&
             t[6] == u[6] && t[7] == u[7]
    requires t[8] == u[8] && t[9] == u[9] && t[10] == u[10] && t[11] == u[11] && t[12] == u[12] && t[13] == u[13] &&
             t[14] == u[14] && t[15] == u[15]
    ensures t == u
  {
    forall k | 0 <= k < 16 ensures t[k] == u[k] {
      if k < 8 {
        if k == 0 {
        } else if k == 1 {
        } else if k == 2 {
        } else if k == 3 {
        } else if k == 4 {
        } else if k == 5 {
        } else if k == 6 {
        } else {
        }
      } else {
        if k == 8 {
        } else if k == 9 {
        } else if k == 10 {
        } else if k == 11 {
        } else if k == 12 {
        } else if k == 13 {
        } else if k == 14 {
        } else {
        }
      }
    }
  }

  lemma ShiftRowsAt(s: Bytes, i: nat, j: nat)
    requires |s| == 16 && i < 16 && j == (i + 4 * (i % 4)) % 16
    ensures ShiftRows(s)[i] == s[j]
  {
  }

  lemma ShiftRowsTable(s: Bytes, t: Bytes)
    requires |s| == |t| == 16
    requires t[0] == s[0] && t[1] == s[5] && t[2] == s[10] && t[3] == s[15]
    requires t[4] == s[4] && t[5] == s[9] && t[6] == s[14] && t[7] == s[3]
    requires t[8] == s[8] && t[9] == s[13] && t[10] == s[2] && t[11] == s[7]
    requires t[12] == s[12] && t[13] == s[1] && t[14] == s[6] && t[15] == s[11]
    ensures t == ShiftRows(s)
  {
    hide ShiftRows;
    ShiftRowsAt(s, 0, 0); ShiftRowsAt(s, 1, 5); ShiftRowsAt(s, 2, 10); ShiftRowsAt(s, 3, 15);
    ShiftRowsAt(s, 4, 4); ShiftRowsAt(s, 5, 9); ShiftRowsAt(s, 6, 14); ShiftRowsAt(s, 7, 3);
    ShiftRowsAt(s, 8, 8); ShiftRowsAt(s, 9, 13); ShiftRowsAt(s, 10, 2); ShiftRowsAt(s, 11, 7);
    ShiftRowsAt(s, 12, 12); ShiftRowsAt(s, 13, 1); ShiftRowsAt(s, 14, 6); ShiftRowsAt(s, 15, 11);
    Equal16(t, ShiftRows(s));
  }

  lemma InvShiftRowsAt(s: Bytes, i: nat, j: nat)
    requires |s| == 16 && i < 16 && j == (i + 12 * (i % 4)) % 16
    ensures InvShiftRows(s)[i] == s[j]
  {
  }

  lemma InvShiftRowsTable(s: Bytes, t: Bytes)
    requires |s| == |t| == 16
    requires t[0] == s[0] && t[1] == s[13] && t[2] == s[10] && t[3] == s[7]
    requires t[4] == s[4] && t[5] == s[1] && t[6] == s[14] && t[7] == s[11]
    requires t[8] == s[8] && t[9] == s[5] && t[10] == s[2] && t[11] == s[15]
    requires t[12] == s[12] && t[13] == s[9] && t[14] == s[6] && t[15] == s[3]
    ensures t == InvShiftRows(s)
  {
    hide InvShiftRows;
    InvShiftRowsAt(s, 0, 0); InvShiftRowsAt(s, 1, 13); InvShiftRowsAt(s, 2, 10); InvShiftRowsAt(s, 3, 7);
    InvShiftRowsAt(s, 4, 4); InvShiftRowsAt(s, 5, 1); InvShiftRowsAt(s, 6, 14); InvShiftRowsAt(s, 7, 11);
    InvShiftRowsAt(s, 8, 8); InvShiftRowsAt(s, 9, 5); InvShiftRowsAt(s, 10, 2); InvShiftRowsAt(s, 11, 15);
    InvShiftRowsAt(s, 12, 12); InvShiftRowsAt(s, 13, 9); InvShiftRowsAt(s, 14, 6); InvShiftRowsAt(s, 15, 3);
    Equal16(t, InvShiftRows(s));
  }

  method DoShiftRows(buf: array<bv8>)
    requires buf.Length == 16
    modifies buf
    ensures buf[..] == ShiftRows(old(buf[..]))
  {
    hide ShiftRows;
    ghost var s := buf[..];
    var i := buf[1]; buf[1] := buf[5]; buf[5] := buf[9]; buf[9] := buf[13]; buf[13] := i;
    i := buf[10]; buf[10] := buf[2]; buf[2] := i;
    var j := buf[3]; buf[3] := buf[15]; buf[15] := buf[11]; buf[11] := buf[7]; buf[7] := j;
    j := buf[14]; buf[14] := buf[6]; buf[6] := j;
    ShiftRowsTable(s, buf[..]);
  }

  method DoInvShiftRows(buf: array<bv8>)
    requires buf.Length == 16
    modifies buf
    ensures buf[..] == InvShiftRows(old(buf[..]))
  {
    hide InvShiftRows;
    ghost var s := buf[..];
    var i := buf[1]; buf[1] := buf[13]; buf[13] := buf[9]; buf[9] := buf[5]; buf[5] := i;
    i := buf[2]; buf[2] := buf[10]; buf[10] := i;
    var j := buf[3]; buf[3] := buf[7]; buf[7] := buf[11]; buf[11] := buf[15]; buf[15] := j;
    j := buf[6]; buf[6] := buf[14]; buf[14] := j;
    InvShiftRowsTable(s, buf[..]);
  }

  /** The bytes of a column, from any of them down. */
  lemma ColumnBytes(s: Bytes, i: nat)
    requires |s| == 16 && i <= 12 && i % 4 == 0
    ensures Down(s, i, 0) == s[i] && Down(s, i, 1) == s[i + 1] && Down(s, i, 2) == s[i + 2] && Down(s, i, 3) == s[i + 3]
    ensures Down(s, i + 1, 0) == s[i + 1] && Down(s, i + 1, 1) == s[i + 2] && Down(s, i + 1, 2) == s[i + 3] &&
            Down(s, i + 1, 3) == s[i]
    ensures Down(s, i + 2, 0) == s[i + 2] && Down(s, i + 2, 1) == s[i + 3] && Down(s, i + 2, 2) == s[i] &&
            Down(s, i + 2, 3) == s[i + 1]
    ensures Down(s, i + 3, 0) == s[i + 3] && Down(s, i + 3, 1) == s[i] && Down(s, i + 3, 2) == s[i + 1] &&
            Down(s, i + 3, 3) == s[i + 2]
  {
  }

  lemma Around(a: bv8, b: bv8, c: bv8, d: bv8)
    ensures Xor4(b, c, d, a) == Xor4(a, b, c, d) && Xor4(c, d, a, b) == Xor4(a, b, c, d) &&
            Xor4(d, a, b, c) == Xor4(a, b, c, d)
  {
    hide Xor4;
    Rotated(a, b, c, d);
    Rotated(b, c, d, a);
    Rotated(d, a, b, c);
  }

  /** Mix one column. */
  method MixColumn(buf: array<bv8>, i: nat)
    requires buf.Length == 16 && i <= 12 && i % 4 == 0
    modifies buf
    ensures forall k :: i <= k < i + 4 ==> buf[k] == MixColumns(old(buf[..]))[k]
    ensures forall k :: 0 <= k < i || i + 4 <= k < 16 ==> buf[k] == old(buf[k])
  {
    hide Xor;
    hide Xor4;
    hide Xtime;
    hide Mix;
    hide Down;
    var a, b, c, d := buf[i], buf[i + 1], buf[i + 2], buf[i + 3];
    var e := Xor4(a, b, c, d);
    ColumnBytes(buf[..], i);
    Around(a, b, c, d);
    MixByte(a, b, c, d);
    MixByte(b, c, d, a);
    MixByte(c, d, a, b);
    MixByte(d, a, b, c);
    buf[i] := Xor(Xor(buf[i], e), Xtime(Xor(a, b)));
    buf[i + 1] := Xor(Xor(buf[i + 1], e), Xtime(Xor(b, c)));
    buf[i + 2] := Xor(Xor(buf[i + 2], e), Xtime(Xor(c, d)));
    buf[i + 3] := Xor(Xor(buf[i + 3], e), Xtime(Xor(d, a)));
  }

  method DoMixColumns(buf: array<bv8>)
    requires buf.Length == 16
    modifies buf
    ensures buf[..] == MixColumns(old(buf[..]))
  {
    hide MixColumns;
    ghost var s, c := buf[..], 0;
    var i := 0;
    while i < 16
      invariant 0 <= c <= 4 && i == 4 * c
      invariant forall k :: 0 <= k < i ==> buf[k] == MixColumns(s)[k]
      invariant forall k :: i <= k < 16 ==> buf[k] == s[k]
    {
      SameColumn(s, buf[..], i);
      MixColumn(buf, i);
      i := i + 4;
      c := c + 1;
    }
  }

  /** A column is mixed independently of the others. */
  lemma SameColumn(s: Bytes, t: Bytes, i: nat)
    requires |s| == |t| == 16 && i <= 12 && i % 4 == 0
    requires t[i] == s[i] && t[i + 1] == s[i + 1] && t[i + 2] == s[i + 2] && t[i + 3] == s[i + 3]
    ensures forall k :: i <= k < i + 4 ==>
            MixColumns(t)[k] == MixColumns(s)[k] && InvMixColumns(t)[k] == InvMixColumns(s)[k]
  {
    hide Mix;
    hide Unmix;
    hide Down;
    ColumnBytes(s, i);
    ColumnBytes(t, i);
    forall k | i <= k < i + 4
      ensures MixColumns(t)[k] == MixColumns(s)[k] && InvMixColumns(t)[k] == InvMixColumns(s)[k] {
      if k == i {} else if k == i + 1 {} else if k == i + 2 {} else {}
    }
  }

  /** Unmix one column. */
  method UnmixColumn(buf: array<bv8>, i: nat)
    requires buf.Length == 16 && i <= 12 && i % 4 == 0
    modifies buf
    ensures forall k :: i <= k < i + 4 ==> buf[k] == InvMixColumns(old(buf[..]))[k]
    ensures forall k :: 0 <= k < i || i + 4 <= k < 16 ==> buf[k] == old(buf[k])
  {
    hide Xor;
    hide Xor4;
    hide Xtime;
    hide Unmix;
    hide Down;
    var a, b, c, d := buf[i], buf[i + 1], buf[i + 2], buf[i + 3];
    var e := Xor4(a, b, c, d);
    ColumnBytes(buf[..], i);
    Around(a, b, c, d);
    UnmixByte(a, b, c, d);
    UnmixByte(b, c, d, a);
    UnmixByte(c, d, a, b);
    UnmixByte(d, a, b, c);
    var z := Xtime(e);
    Swapped(z, a, c);
    Swapped(z, b, d);
    var x := Xor(e, Xtime(Xtime(Xor(Xor(z, a), c))));
    var y := Xor(e, Xtime(Xtime(Xor(Xor(z, b), d))));
    buf[i] := Xor(Xor(buf[i], x), Xtime(Xor(a, b)));
    buf[i + 1] := Xor(Xor(buf[i + 1], y), Xtime(Xor(b, c)));
    buf[i + 2] := Xor(Xor(buf[i + 2], x), Xtime(Xor(c, d)));
    buf[i + 3] := Xor(Xor(buf[i + 3], y), Xtime(Xor(d, a)));
  }

  lemma Swapped(a: bv8, b: bv8, c: bv8)
    ensures Xor(Xor(a, b), c) == Xor(Xor(a, c), b)
  {
    hide Xor;
    XorAssoc(a, b, c);
    XorComm(b, c);
    XorAssoc(a, c, b);
  }

  method DoInvMixColumns(buf: array<bv8>)
    requires buf.Length == 16
    modifies buf
    ensures buf[..] == InvMixColumns(old(buf[..]))
  {
    hide InvMixColumns;
    ghost var s, c := buf[..], 0;
    var i := 0;
    while i < 16
      invariant 0 <= c <= 4 && i == 4 * c
      invariant forall k :: 0 <= k < i ==> buf[k] == InvMixColumns(s)[k]
      invariant forall k :: i <= k < 16 ==> buf[k] == s[k]
    {
      SameColumn(s, buf[..], i);
      UnmixColumn(buf, i);
      i := i + 4;
      c := c + 1;
    }
  }

  // ---- The key schedule, on the fly ----

  /** Word k[i..i+4] gets k[i-4..i] added. */
  method AddWord(k: array<bv8>, i: nat)
    requires k.Length == 32 && 4 <= i <= 28
    modifies k
    ensures forall j :: i <= j < i + 4 ==> k[j] == Xor(old(k[j]), old(k[j - 4]))
    ensures forall j :: 0 <= j < i || i + 4 <= j < 32 ==> k[j] == old(k[j])
  {
    hide Xor;
    k[i] := Xor(k[i], k[i - 4]);
    k[i + 1] := Xor(k[i + 1], k[i - 3]);
    k[i + 2] := Xor(k[i + 2], k[i - 2]);
    k[i + 3] := Xor(k[i + 3], k[i - 1]);
  }

  /** Word k[16..20] gets k[12..16], substituted, added. */
  method AddSubWord(k: array<bv8>)
    requires k.Length == 32
    modifies k
    ensures k[16] == Xor(old(k[16]), Sbox(old(k[12]))) && k[17] == Xor(old(k[17]), Sbox(old(k[13]))) &&
            k[18] == Xor(old(k[18]), Sbox(old(k[14]))) && k[19] == Xor(old(k[19]), Sbox(old(k[15])))
    ensures forall j :: 0 <= j < 16 || 20 <= j < 32 ==> k[j] == old(k[j])
  {
    hide Xor;
    hide Sbox;
    k[16] := Xor(k[16], Sbox(k[12]));
    k[17] := Xor(k[17], Sbox(k[13]));
    k[18] := Xor(k[18], Sbox(k[14]));
    k[19] := Xor(k[19], Sbox(k[15]));
  }

  /** Word k[0..4] gets the last word, rotated and substituted, and the round constant added. */
  method AddRotSubWord(k: array<bv8>, rc: bv8)
    requires k.Length == 32
    modifies k
    ensures k[0] == Xor(old(k[0]), Xor(Sbox(old(k[29])), rc))
    ensures k[1] == Xor(old(k[1]), Sbox(old(k[30]))) && k[2] == Xor(old(k[2]), Sbox(old(k[31]))) &&
            k[3] == Xor(old(k[3]), Sbox(old(k[28])))
    ensures forall j :: 4 <= j < 32 ==> k[j] == old(k[j])
  {
    hide Xor;
    hide Sbox;
    k[0] := Xor(k[0], Xor(Sbox(k[29]), rc));
    k[1] := Xor(k[1], Sbox(k[30]));
    k[2] := Xor(k[2], Sbox(k[31]));
    k[3] := Xor(k[3], Sbox(k[28]));
  }

  lemma KeyByteIs(k: Bytes, rc: bv8)
    requires |k| == 32
    ensures KeyByte(k, rc, 0) == Xor(k[0], Xor(Sbox(k[29]), rc))
    ensures KeyByte(k, rc, 1) == Xor(k[1], Sbox(k[30])) && KeyByte(k, rc, 2) == Xor(k[2], Sbox(k[31])) &&
            KeyByte(k, rc, 3) == Xor(k[3], Sbox(k[28]))
    ensures forall i :: 16 <= i < 20 ==> KeyByte(k, rc, i) == Xor(k[i], Sbox(KeyByte(k, rc, i - 4)))
    ensures forall i :: 4 <= i < 16 || 20 <= i < 32 ==> KeyByte(k, rc, i) == Xor(k[i], KeyByte(k, rc, i - 4))
  {
    hide Xor;
    hide Sbox;
  }

  lemma BackByteIs(k: Bytes, rc: bv8)
    requires |k| == 32
    ensures BackByte(k, rc, 0) == Xor(k[0], Xor(Sbox(BackByte(k, rc, 29)), rc))
    ensures BackByte(k, rc, 1) == Xor(k[1], Sbox(BackByte(k, rc, 30))) &&
            BackByte(k, rc, 2) == Xor(k[2], Sbox(BackByte(k, rc, 31)))
    ensures BackByte(k, rc, 3) == Xor(k[3], Sbox(BackByte(k, rc, 28)))
    ensures forall i :: 16 <= i < 20 ==> BackByte(k, rc, i) == Xor(k[i], Sbox(k[i - 4]))
    ensures forall i :: 4 <= i < 16 || 20 <= i < 32 ==> BackByte(k, rc, i) == Xor(k[i], k[i - 4])
  {
    hide Xor;
    hide Sbox;
  }

  method DoExpandEncKey(k: array<bv8>, rc: bv8) returns (rc': bv8)
    requires k.Length == 32
    modifies k
    ensures k[..] == NextKey(old(k[..]), rc) && rc' == Xtime(rc)
  {
    hide KeyByte;
    hide Xor;
    hide Sbox;
    ghost var s := k[..];
    KeyByteIs(s, rc);
    AddRotSubWord(k, rc);
    rc' := Xtime(rc);
    AddWords(k, 4, 16, s, rc);
    AddSubWord(k);
    AddWords(k, 20, 32, s, rc);
  }

  /** The words from k[lo] up to k[hi], each after the one before it. */
  method AddWords(k: array<bv8>, lo: nat, hi: nat, ghost s: Bytes, ghost rc: bv8)
    requires k.Length == |s| == 32 && ((lo == 4 && hi == 16) || (lo == 20 && hi == 32))
    requires forall j :: 0 <= j < 32 ==> k[j] == if j < lo then KeyByte(s, rc, j) else s[j]
    modifies k
    ensures forall j :: 0 <= j < 32 ==> k[j] == if j < hi then KeyByte(s, rc, j) else s[j]
  {
    hide KeyByte;
    hide Xor;
    hide Sbox;
    KeyByteIs(s, rc);
    ghost var c := lo / 4;
    var i := lo;
    while i < hi
      invariant lo <= i <= hi && i == 4 * c
      invariant forall j :: 0 <= j < 32 ==> k[j] == if j < i then KeyByte(s, rc, j) else s[j]
    {
      AddWord(k, i);
      i := i + 4;
      c := c + 1;
    }
  }

  method DoExpandDecKey(k: array<bv8>, rc: bv8) returns (rc': bv8)
    requires k.Length == 32
    modifies k
    ensures rc' == Halve(rc) && k[..] == PrevKey(old(k[..]), rc')
  {
    hide BackByte;
    hide Xor;
    hide Sbox;
    hide Halve;
    ghost var s := k[..];
    rc' := Halve(rc);
    BackByteIs(s, rc');
    RemoveWords(k, 28, 16, s, rc');
    AddSubWord(k);
    RemoveWords(k, 12, 0, s, rc');
    AddRotSubWord(k, rc');
  }

  /** The words from k[hi] down to just above k[lo], each before the one before it changes. */
  method RemoveWords(k: array<bv8>, hi: nat, lo: nat, ghost s: Bytes, ghost rc: bv8)
    requires k.Length == |s| == 32 && ((lo == 16 && hi == 28) || (lo == 0 && hi == 12))
    requires forall j :: 0 <= j < 32 ==> k[j] == if j >= hi + 4 then BackByte(s, rc, j) else s[j]
    modifies k
    ensures forall j :: 0 <= j < 32 ==> k[j] == if j >= lo + 4 then BackByte(s, rc, j) else s[j]
  {
    hide BackByte;
    hide Xor;
    hide Sbox;
    BackByteIs(s, rc);
    ghost var c := hi / 4;
    var i := hi;
    while i > lo
      invariant lo <= i <= hi && i == 4 * c
      invariant forall j :: 0 <= j < 32 ==> k[j] == if j >= i + 4 then BackByte(s, rc, j) else s[j]
    {
      AddWord(k, i);
      i := i - 4;
      c := c - 1;
    }
  }

  // ---- The context ----

  /** aes256_context: the key as given, the key at the end of the schedule, and
      working space. */
  class Context {
    const key: array<bv8>
    const enckey: array<bv8>
    const deckey: array<bv8>

    predicate Arrays() {
      key.Length == enckey.Length == deckey.Length == 32 && key != enckey && key != deckey && enckey != deckey
    }

    /** deckey is where seven steps of the schedule lead from enckey. */
    ghost predicate Valid()
      reads enckey, deckey
    {
      Arrays() && deckey[..] == KeyAt(enckey[..], 7)
    }

    constructor ()
      ensures Arrays() && fresh(key) && fresh(enckey) && fresh(deckey)
    {
      key := new bv8[32];
      enckey := new bv8[32];
      deckey := new bv8[32];
    }

    method Init(k: array<bv8>)
      requires Arrays() && k.Length == 32 && k != key && k != enckey && k != deckey
      modifies enckey, deckey
      ensures Valid() && enckey[..] == k[..]
    {
      hide NextKey;
      hide Xtime;
      var rcon := 1;
      var i := 0;
      while i < 32
        invariant 0 <= i <= 32 && forall j :: 0 <= j < i ==> enckey[j] == k[j] && deckey[j] == k[j]
      {
        enckey[i] := k[i];
        deckey[i] := k[i];
        i := i + 1;
      }
      assert deckey[..] == k[..] == enckey[..];
      i := 7;
      while i > 0
        invariant 0 <= i <= 7 && enckey[..] == k[..]
        invariant deckey[..] == KeyAt(k[..], 7 - i) && rcon == Rcon(7 - i)
      {
        rcon := DoExpandEncKey(deckey, rcon);
        i := i - 1;
      }
    }

    method Done()
      requires Arrays()
      modifies key, enckey, deckey
      ensures forall j :: 0 <= j < 32 ==> key[j] == enckey[j] == deckey[j] == 0
    {
      var i := 0;
      while i < 32
        invariant 0 <= i <= 32 && forall j :: 0 <= j < i ==> key[j] == enckey[j] == deckey[j] == 0
      {
        key[i], enckey[i], deckey[i] := 0, 0, 0;
        i := i + 1;
      }
    }

    /** Encrypt a block in place. */
    method EncryptEcb(buf: array<bv8>)
      requires Valid() && buf.Length == 16 && buf != key && buf != enckey && buf != deckey
      modifies key, buf
      ensures Valid() && buf[..] == Cipher(old(buf[..]), enckey[..])
      ensures buf[..] == Fips197.Cipher(old(buf[..]), enckey[..])
    {
      hide SubBytes;
      hide ShiftRows;
      hide MixColumns;
      hide AddRoundKey;
      hide NextKey;
      hide Xtime;
      hide Fips197.Cipher;
      ghost var s, k := buf[..], enckey[..];
      DoCpyAddRoundKey(buf, enckey, key);
      var rcon: bv8 := 1;
      var i := 1;
      while i < 14
        invariant 1 <= i <= 14 && enckey[..] == k && deckey[..] == old(deckey[..])
        invariant buf[..] == Rounds(s, k, i - 1) && key[..] == KeyAt(k, (i - 1) / 2) && rcon == Rcon((i - 1) / 2)
      {
        DoSubBytes(buf);
        DoShiftRows(buf);
        DoMixColumns(buf);
        if i % 2 == 1 {
          DoAddRoundKey(buf, key, 16);
        } else {
          rcon := DoExpandEncKey(key, rcon);
          DoAddRoundKey(buf, key, 0);
        }
        i := i + 1;
      }
      DoSubBytes(buf);
      DoShiftRows(buf);
      rcon := DoExpandEncKey(key, rcon);
      DoAddRoundKey(buf, key, 0);
      Fips197.CipherSame(s, k);
    }

    /** Decrypt a block in place. */
    method DecryptEcb(buf: array<bv8>)
      requires Valid() && buf.Length == 16 && buf != key && buf != enckey && buf != deckey
      modifies key, buf
      ensures Valid() && buf[..] == InvCipher(old(buf[..]), enckey[..])
      ensures buf[..] == Fips197.InvCipher(old(buf[..]), enckey[..])
    {
      hide InvSubBytes;
      hide InvShiftRows;
      hide InvMixColumns;
      hide AddRoundKey;
      hide NextKey;
      hide PrevKey;
      hide Xtime;
      hide Halve;
      hide Unrounds;
      hide Rcon;
      hide Fips197.InvCipher;
      ghost var s, k := buf[..], enckey[..];
      assert KeyAt(k, 0) == k;
      hide KeyAt;
      ghost var t := InvSubBytes(InvShiftRows(AddRoundKey(buf[..], KeyAt(k, 7), 0)));
      DoCpyAddRoundKey(buf, deckey, key);
      DoInvShiftRows(buf);
      DoInvSubBytes(buf);
      LastRcon();
      var rcon: bv8 := 0x80;
      var i := 13;
      while i > 0
        invariant 0 <= i <= 13 && enckey[..] == k && deckey[..] == old(deckey[..])
        invariant Unrounds(buf[..], k, i) == Unrounds(t, k, 13) && key[..] == KeyAt(k, (i + 1) / 2) &&
                  rcon == Rcon((i + 1) / 2)
      {
        UnroundsStep(buf[..], k, i);
        if i % 2 == 1 {
          StepBack(k, (i + 1) / 2);
          rcon := DoExpandDecKey(key, rcon);
          DoAddRoundKey(buf, key, 16);
        } else {
          DoAddRoundKey(buf, key, 0);
        }
        DoInvMixColumns(buf);
        DoInvShiftRows(buf);
        DoInvSubBytes(buf);
        i := i - 1;
      }
      UnroundsEnd(buf[..], k);
      DoAddRoundKey(buf, key, 0);
      Fips197.InvCipherSame(s, k);
    }

    /** Encrypting a block and decrypting it gives the block back, with any number of
        blocks encrypted (true) or decrypted (false) on the same context in between. */
    method RoundTrip(buf: array<bv8>, other: array<bv8>, calls: seq<bool>)
      requires Valid() && buf.Length == 16 && buf != key && buf != enckey && buf != deckey
      requires other.Length == 16 && other != key && other != enckey && other != deckey && other != buf
      modifies key, buf, other
      ensures Valid() && buf[..] == old(buf[..])
    {
      hide Cipher;
      hide InvCipher;
      hide Fips197.Cipher;
      hide Fips197.InvCipher;
      ghost var s := buf[..];
      CipherUndone(s, enckey[..]);
      EncryptEcb(buf);
      var i := 0;
      while i < |calls|
        invariant 0 <= i <= |calls| && Valid() && buf[..] == Cipher(s, enckey[..])
        modifies key, other
      {
        if calls[i] {
          EncryptEcb(other);
        } else {
          DecryptEcb(other);
        }
        i := i + 1;
      }
      DecryptEcb(buf);
    }
  }

  lemma UnroundsStep(s: Bytes, k: Bytes, n: nat)
    requires |s| == 16 && |k| == 32 && n > 0
    ensures Unrounds(s, k, n) ==
            Unrounds(InvSubBytes(InvShiftRows(InvMixColumns(AddRoundKey(s, KeyAt(k, n / 2), 16 * (n % 2))))), k, n - 1)
  {
  }

  lemma UnroundsEnd(s: Bytes, k: Bytes)
    requires |s| == 16 && |k| == 32
    ensures Unrounds(s, k, 0) == AddRoundKey(s, k, 0)
  {
  }

  /** The schedule and its constant go back together. */
  lemma StepBack(k: Bytes, n: nat)
    requires |k| == 32 && n > 0
    ensures Halve(Rcon(n)) == Rcon(n - 1) && PrevKey(KeyAt(k, n), Rcon(n - 1)) == KeyAt(k, n - 1)
  {
    HalveXtime(Rcon(n - 1));
    KeyBack(KeyAt(k, n - 1), Rcon(n - 1));
    hide NextKey;
    hide PrevKey;
    hide Xtime;
    hide Halve;
  }

  lemma LastRcon()
    ensures Rcon(7) == 0x80
  {
    assert Rcon(2) == 4;
    assert Rcon(4) == 16;
    assert Rcon(6) == 64;
  }
}
