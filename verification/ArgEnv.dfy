/** The image an emulated program finds on its stack: the argument and environment
    strings, the pointers to them, the two pointer lists and the count of arguments,
    built downwards in emulated memory. */
module ArgEnv {
  import opened CTypes

  /** A C string, without its terminating NUL. */
  type CString = s: seq<byte> | forall i :: 0 <= i < |s| ==> s[i] != 0 witness []

  const MAX_ARGS: nat := 200
  const RAM: nat := 65536

  // ---- What a program can read ----

  /** The 16-bit word at a, in the byte order of the emulated CPU. */
  function Word(m: seq<byte>, big: bool, a: int): (w: nat)
    requires 0 <= a && a + 1 < |m|
    ensures w < 65536
  {
    if big then 256 * (m[a] as int) + m[a + 1] else m[a] + 256 * (m[a + 1] as int)
  }

  /** Bytes from p to the next NUL. */
  function ReadString(m: seq<byte>, p: nat): (s: CString)
    decreases |m| - p
  {
    if p >= |m| || m[p] == 0 then [] else [m[p]] + ReadString(m, p + 1)
  }

  /** The strings of a list of pointers, up to the NULL that ends it. */
  function ReadVector(m: seq<byte>, big: bool, p: nat): (v: seq<CString>)
    decreases |m| - p
  {
    if p + 1 >= |m| || Word(m, big, p) == 0 then []
    else [ReadString(m, Word(m, big, p))] + ReadVector(m, big, p + 2)
  }

  /** The list of pointers at p has a NULL at its end. */
  predicate Ends(m: seq<byte>, big: bool, p: nat)
    decreases |m| - p
  {
    p + 1 < |m| && (Word(m, big, p) == 0 || Ends(m, big, p + 2))
  }

  // ---- Where things are put ----

  /** Bytes that the strings take, with their NULs. */
  function Bytes(v: seq<CString>): nat {
    if v == [] then 0 else |v[0]| + 1 + Bytes(v[1..])
  }

  /** All that is put on the stack: three words, two lists with their NULLs, the
      strings, and the NULL on top. */
  function Size(argv: seq<CString>, envp: seq<CString>): nat {
    6 + 2 * (|argv| + 1) + 2 * (|envp| + 1) + Bytes(argv) + Bytes(envp) + 2
  }

  ghost predicate StringAt(m: seq<byte>, p: int, s: CString) {
    0 <= p && p + |s| < |m| && m[p..p + |s|] == s && m[p + |s|] == 0
  }

  /** String i of v, in the strings that end at top. */
  function At(v: seq<CString>, top: int, i: nat): int
    requires i <= |v|
  {
    top - Bytes(v[i..])
  }

  ghost predicate Strings(m: seq<byte>, top: int, v: seq<CString>, from: nat) {
    forall i: nat :: from <= i < |v| ==> StringAt(m, At(v, top, i), v[i])
  }

  ghost predicate Pointers(m: seq<byte>, big: bool, p: int, v: seq<CString>, top: int, from: nat) {
    0 <= p && p + 2 * |v| <= |m| && forall i: nat :: from <= i < |v| ==> Word(m, big, p + 2 * i) == At(v, top, i)
  }

  /** The strings, the ones of the environment above the arguments, below a NULL. */
  ghost predicate Texts(m: seq<byte>, big: bool, sp: int, argv: seq<CString>, envp: seq<CString>) {
    var mid := sp - 2 - Bytes(envp);
    0 <= mid - Bytes(argv) && sp <= |m| &&
    Strings(m, mid, argv, 0) && Strings(m, sp - 2, envp, 0) && Word(m, big, sp - 2) == 0
  }

  /** Below them the pointers to the environment, and below those the pointers to
      the arguments, each list with a NULL at its end. */
  ghost predicate Lists(m: seq<byte>, big: bool, args: int, sp: int, argv: seq<CString>, envp: seq<CString>) {
    var envs := args + 2 * (|argv| + 1);
    var low := envs + 2 * (|envp| + 1);
    0 <= args && low + Bytes(argv) + Bytes(envp) + 2 == sp <= |m| &&
    Pointers(m, big, args, argv, sp - 2 - Bytes(envp), 0) && Word(m, big, envs - 2) == 0 &&
    Pointers(m, big, envs, envp, sp - 2, 0) && Word(m, big, low - 2) == 0
  }

  /** The whole image from posn up to sp, one part after the other without a gap. */
  ghost predicate Image(m: seq<byte>, big: bool, posn: int, sp: int, argv: seq<CString>, envp: seq<CString>) {
    var args := posn + 6;
    0 <= posn && Texts(m, big, sp, argv, envp) && Lists(m, big, args, sp, argv, envp) &&
    Word(m, big, posn) == |argv| && Word(m, big, posn + 2) == args && Word(m, big, posn + 4) == args + 2 * (|argv| + 1)
  }

  // ---- The image reads back ----

  lemma {:induction false} ReadsString(m: seq<byte>, p: nat, s: CString)
    requires StringAt(m, p, s)
    ensures ReadString(m, p) == s
    decreases |s|
  {
    if s != [] {
      assert m[p..p + |s|][1..] == m[p + 1..p + |s|];
      assert m[p] == m[p..p + |s|][0];
      ReadsString(m, p + 1, s[1..]);
    }
  }

  lemma {:induction false} BytesFrom(v: seq<CString>, i: nat, j: nat)
    requires i <= j <= |v|
    ensures Bytes(v[i..]) >= Bytes(v[j..]) && (i < |v| ==> Bytes(v[i..]) == |v[i]| + 1 + Bytes(v[i + 1..]))
    decreases j - i
  {
    if i < |v| {
      assert v[i..][1..] == v[i + 1..];
    }
    if i < j {
      BytesFrom(v, i + 1, j);
    }
  }

  /** No string overlaps another, or leaves the room made for them all. */
  lemma {:induction false} Disjoint(v: seq<CString>, top: int, i: nat, j: nat)
    requires i < j <= |v|
    ensures top - Bytes(v) <= At(v, top, i) && At(v, top, i) + |v[i]| + 1 <= At(v, top, j) <= top
    ensures At(v, top, i) + |v[i]| + 1 == At(v, top, i + 1)
  {
    BytesFrom(v, 0, i);
    BytesFrom(v, i, j);
    BytesFrom(v, i + 1, j);
    assert v[0..] == v;
  }

  lemma AtStart(v: seq<CString>, top: int)
    ensures At(v, top, 0) == top - Bytes(v)
  {
    assert v[0..] == v;
  }

  lemma {:induction false} ReadsVector(m: seq<byte>, big: bool, p: nat, v: seq<CString>, top: int, i: nat)
    requires i <= |v| && p + 2 * |v| + 2 <= |m| && 0 < top - Bytes(v)
    requires Pointers(m, big, p, v, top, 0) && Strings(m, top, v, 0) && Word(m, big, p + 2 * |v|) == 0
    ensures ReadVector(m, big, p + 2 * i) == v[i..] && Ends(m, big, p + 2 * i)
    decreases |v| - i
  {
    hide Bytes;
    hide ReadString;
    hide StringAt;
    if i < |v| {
      Disjoint(v, top, i, |v|);
      assert StringAt(m, At(v, top, i), v[i]);
      ReadsString(m, At(v, top, i), v[i]);
      ReadsVector(m, big, p, v, top, i + 1);
      assert v[i..] == [v[i]] + v[i + 1..];
    }
  }

  /** A program that starts on the image finds its arguments and its environment. */
  lemma ReadsBack(m: seq<byte>, big: bool, posn: nat, sp: nat, argv: seq<CString>, envp: seq<CString>)
    requires Image(m, big, posn, sp, argv, envp)
    ensures posn + Size(argv, envp) == sp && Word(m, big, posn) == |argv|
    ensures ReadVector(m, big, Word(m, big, posn + 2)) == argv
    ensures ReadVector(m, big, Word(m, big, posn + 4)) == envp
  {
    hide Bytes;
    hide ReadVector;
    hide Pointers;
    hide Strings;
    hide Word;
    var args := posn + 6;
    var envs := args + 2 * (|argv| + 1);
    ReadsVector(m, big, args, argv, envs + 2 * (|envp| + 1) + Bytes(argv), 0);
    ReadsVector(m, big, envs, envp, sp - 2, 0);
  }

  /** If it passes its own argument list on to another program, what is read are its
      arguments after the first; without any, it is its environment. */
  lemma PassesOn(m: seq<byte>, big: bool, posn: nat, sp: nat, argv: seq<CString>, envp: seq<CString>)
    requires Image(m, big, posn, sp, argv, envp)
    ensures Ends(m, big, Word(m, big, posn + 2) + 2)
    ensures ReadVector(m, big, Word(m, big, posn + 2) + 2) == if argv == [] then envp else argv[1..]
  {
    hide Bytes;
    hide ReadVector;
    hide Pointers;
    hide Strings;
    hide Word;
    var args := posn + 6;
    var envs := args + 2 * (|argv| + 1);
    if argv == [] {
      ReadsVector(m, big, envs, envp, sp - 2, 0);
      assert envp[0..] == envp;
    } else {
      ReadsVector(m, big, args, argv, envs + 2 * (|envp| + 1) + Bytes(argv), 1);
    }
  }

  // ---- What a write leaves alone ----

  /** Only bytes from lo up to hi may differ. */
  ghost predicate Same(m: seq<byte>, m': seq<byte>, lo: nat, hi: nat) {
    lo <= hi <= |m| == |m'| && m'[..lo] == m[..lo] && m'[hi..] == m[hi..]
  }

  lemma SameAgain(m: seq<byte>, m': seq<byte>, m'': seq<byte>, lo: nat, mid: nat, hi: nat)
    requires Same(m, m', mid, hi) && Same(m', m'', lo, mid)
    ensures Same(m, m'', lo, hi)
  {
    assert m[..mid][..lo] == m[..lo] && m'[..mid][..lo] == m'[..lo];
    assert m''[mid..][hi - mid..] == m''[hi..] && m'[mid..][hi - mid..] == m'[hi..];
  }

  lemma ByteKept(m: seq<byte>, m': seq<byte>, lo: nat, hi: nat, k: nat)
    requires Same(m, m', lo, hi) && hi <= k < |m|
    ensures m'[k] == m[k]
  {
    assert m'[hi..][k - hi] == m[hi..][k - hi];
  }

  lemma WordKept(m: seq<byte>, m': seq<byte>, lo: nat, hi: nat, big: bool, a: nat)
    requires Same(m, m', lo, hi) && hi <= a && a + 1 < |m|
    ensures Word(m', big, a) == Word(m, big, a)
  {
    ByteKept(m, m', lo, hi, a);
    ByteKept(m, m', lo, hi, a + 1);
  }

  lemma SliceKept(m: seq<byte>, m': seq<byte>, lo: nat, hi: nat, p: nat, q: nat)
    requires Same(m, m', lo, hi) && hi <= p <= q <= |m|
    ensures m'[p..q] == m[p..q]
  {
    forall k | p <= k < q ensures m'[k] == m[k] {
      ByteKept(m, m', lo, hi, k);
    }
  }

  lemma StringsKept(m: seq<byte>, m': seq<byte>, lo: nat, hi: nat, top: int, v: seq<CString>, from: nat)
    requires Same(m, m', lo, hi) && from <= |v| && hi <= At(v, top, from) && Strings(m, top, v, from)
    ensures Strings(m', top, v, from)
  {
    forall i: nat | from <= i < |v| ensures StringAt(m', At(v, top, i), v[i]) {
      BytesFrom(v, from, i);
      var p := At(v, top, i);
      assert StringAt(m, p, v[i]);
      SliceKept(m, m', lo, hi, p, p + |v[i]|);
      ByteKept(m, m', lo, hi, p + |v[i]|);
    }
  }

  lemma PointersKept(m: seq<byte>, m': seq<byte>, lo: nat, hi: nat, big: bool, p: int, v: seq<CString>, top: int,
                     from: nat)
    requires Same(m, m', lo, hi) && hi <= p + 2 * from && Pointers(m, big, p, v, top, from)
    ensures Pointers(m', big, p, v, top, from)
  {
    forall i: nat | from <= i < |v| ensures Word(m', big, p + 2 * i) == At(v, top, i) {
      WordKept(m, m', lo, hi, big, p + 2 * i);
    }
  }

  lemma TextsKept(m: seq<byte>, m': seq<byte>, lo: nat, hi: nat, big: bool, sp: int, argv: seq<CString>,
                  envp: seq<CString>)
    requires Same(m, m', lo, hi) && Texts(m, big, sp, argv, envp) && hi <= sp - 2 - Bytes(envp) - Bytes(argv)
    ensures Texts(m', big, sp, argv, envp)
  {
    hide Strings;
    hide Same;
    hide Word;
    hide Bytes;
    assert argv[0..] == argv && envp[0..] == envp;
    StringsKept(m, m', lo, hi, sp - 2 - Bytes(envp), argv, 0);
    StringsKept(m, m', lo, hi, sp - 2, envp, 0);
    WordKept(m, m', lo, hi, big, sp - 2);
    SameLength(m, m', lo, hi);
  }

  lemma SameLength(m: seq<byte>, m': seq<byte>, lo: nat, hi: nat)
    requires Same(m, m', lo, hi)
    ensures |m'| == |m|
  {
  }

  lemma ListsKept(m: seq<byte>, m': seq<byte>, lo: nat, hi: nat, big: bool, args: int, sp: int, argv: seq<CString>,
                  envp: seq<CString>)
    requires Same(m, m', lo, hi) && Lists(m, big, args, sp, argv, envp) && hi <= args
    ensures Lists(m', big, args, sp, argv, envp)
  {
    hide Pointers;
    hide Same;
    hide Word;
    hide Bytes;
    var envs := args + 2 * (|argv| + 1);
    var low := envs + 2 * (|envp| + 1);
    PointersKept(m, m', lo, hi, big, args, argv, sp - 2 - Bytes(envp), 0);
    PointersKept(m, m', lo, hi, big, envs, envp, sp - 2, 0);
    WordKept(m, m', lo, hi, big, envs - 2);
    WordKept(m, m', lo, hi, big, low - 2);
    SameLength(m, m', lo, hi);
  }

  // ---- Emulated memory ----

  class Emulator {
    const ram: array<byte>
    const big: bool

    /** Memory of either CPU. */
    constructor (big: bool)
      ensures this.big == big && ram.Length == 65536 && fresh(ram)
    {
      this.big := big;
      ram := new byte[RAM];
    }

    /** Put a 16-bit value in memory. */
    method PutUI(addr: nat, val: nat)
      requires addr + 1 < ram.Length && val < 65536
      modifies ram
      ensures Same(old(ram[..]), ram[..], addr, addr + 2) && Word(ram[..], big, addr) == val
      // The high byte first, or the low byte first
      ensures if big then ram[addr] == val / 256 && ram[addr + 1] == val % 256
              else ram[addr] == val % 256 && ram[addr + 1] == val / 256
    {
      if big {
        ram[addr], ram[addr + 1] := val / 256, val % 256;
      } else {
        ram[addr], ram[addr + 1] := val % 256, val / 256;
      }
    }

    /** Get a 16-bit value from memory. */
    method GetUI(addr: nat) returns (val: nat)
      requires addr + 1 < ram.Length
      ensures val == Word(ram[..], big, addr)
      ensures if big then ram[addr] == val / 256 && ram[addr + 1] == val % 256
              else ram[addr] == val % 256 && ram[addr + 1] == val / 256
    {
      val := if big then 256 * (ram[addr] as int) + ram[addr + 1] else ram[addr] + 256 * (ram[addr + 1] as int);
    }

    /** The arguments for a program to be run, from the list of pointers at list, the
        first one skipped. Three of the places for arguments are taken. */
    method ExecArguments(list: nat) returns (v: seq<CString>)
      requires Ends(ram[..], big, list + 2) && |ReadVector(ram[..], big, list + 2)| + 3 <= 200
      ensures v == ReadVector(ram[..], big, list + 2)
    {
      hide Word;
      hide ReadString;
      ghost var m := ram[..];
      var addr := list + 2;
      v := [];
      var p := GetUI(addr);
      while p != 0
        invariant Ends(m, big, addr) && p == Word(m, big, addr)
        invariant v + ReadVector(m, big, addr) == ReadVector(m, big, list + 2)
        decreases |m| - addr
      {
        assert ReadVector(m, big, addr) == [ReadString(m, p)] + ReadVector(m, big, addr + 2);
        v := v + [ReadString(ram[..], p)];
        addr := addr + 2;
        p := GetUI(addr);
      }
      assert ReadVector(m, big, addr) == [] && v + [] == v;
    }

    /** memcpy of a string and its NUL. */
    method CopyString(posn: nat, s: CString)
      requires posn + |s| < ram.Length
      modifies ram
      ensures Same(old(ram[..]), ram[..], posn, posn + |s| + 1) && StringAt(ram[..], posn, s)
    {
      var k := 0;
      while k < |s|
        invariant 0 <= k <= |s|
        invariant Same(old(ram[..]), ram[..], posn, posn + |s| + 1) && ram[posn..posn + k] == s[..k]
      {
        ram[posn + k] := s[k];
        assert ram[posn..posn + k + 1] == ram[posn..posn + k] + [ram[posn + k]];
        k := k + 1;
      }
      ram[posn + |s|] := 0;
    }

    /** Copy the strings below top, the last one first, and note where each one is. */
    method PutStrings(top: nat, v: seq<CString>, at: array<int>) returns (posn: nat)
      requires Bytes(v) <= top <= ram.Length && |v| <= at.Length
      modifies ram, at
      ensures posn == top - Bytes(v) && Same(old(ram[..]), ram[..], posn, top)
      ensures Strings(ram[..], top, v, 0) && forall i: nat :: i < |v| ==> at[i] == At(v, top, i)
    {
      posn := top;
      var i: nat := |v|;
      while i > 0
        invariant i <= |v| && posn == At(v, top, i) && Same(old(ram[..]), ram[..], posn, top)
        invariant Strings(ram[..], top, v, i) && forall j: nat :: i <= j < |v| ==> at[j] == At(v, top, j)
      {
        i := i - 1;
        BytesFrom(v, 0, i);
        BytesFrom(v, i, i + 1);
        assert v[0..] == v;
        ghost var m, hi := ram[..], posn;
        posn := posn - (|v[i]| + 1);
        CopyString(posn, v[i]);
        at[i] := posn;
        SameAgain(old(ram[..]), m, ram[..], posn, hi, top);
        StringsKept(m, ram[..], posn, hi, top, v, i + 1);
      }
      assert v[0..] == v;
    }

    /** A NULL below posn, and below it the pointers to the strings. */
    method PutPointers(high: nat, v: seq<CString>, at: array<int>, ghost top: nat) returns (posn: nat)
      requires 2 * (|v| + 1) <= high <= ram.Length && |v| <= at.Length && Bytes(v) <= top < 65536
      requires forall i: nat :: i < |v| ==> at[i] == At(v, top, i)
      modifies ram
      ensures posn == high - 2 * (|v| + 1) && Same(old(ram[..]), ram[..], posn, high)
      ensures Pointers(ram[..], big, posn, v, top, 0) && Word(ram[..], big, high - 2) == 0
    {
      hide Word;
      hide Bytes;
      hide Same;
      posn := high - 2;
      PutUI(posn, 0);
      var i: nat := |v|;
      ghost var low := high - 2 * (|v| + 1);
      while i > 0
        invariant i <= |v| && posn == low + 2 * i && Same(old(ram[..]), ram[..], posn, high)
        invariant Pointers(ram[..], big, low, v, top, i) && Word(ram[..], big, high - 2) == 0
      {
        i := i - 1;
        BytesFrom(v, 0, i);
        assert v[0..] == v;
        ghost var m := ram[..];
        posn := posn - 2;
        PutUI(posn, at[i]);
        SameAgain(old(ram[..]), m, ram[..], posn, posn + 2, high);
        PointersKept(m, ram[..], posn, posn + 2, big, low, v, top, i + 1);
        WordKept(m, ram[..], posn, posn + 2, big, high - 2);
      }
    }

    /** The NULL on top of the stack, and the strings below it. */
    method PutTexts(sp: nat, argv: seq<CString>, envp: seq<CString>, aposn: array<int>, eposn: array<int>)
      returns (posn: nat)
      requires sp < ram.Length && Bytes(argv) + Bytes(envp) + 2 <= sp
      requires |argv| <= aposn.Length && |envp| <= eposn.Length && aposn != eposn && ram.Length == RAM
      modifies ram, aposn, eposn
      ensures posn == sp - 2 - Bytes(envp) - Bytes(argv) && Same(old(ram[..]), ram[..], posn, sp)
      ensures Texts(ram[..], big, sp, argv, envp)
      ensures forall i: nat :: i < |argv| ==> aposn[i] == At(argv, sp - 2 - Bytes(envp), i)
      ensures forall i: nat :: i < |envp| ==> eposn[i] == At(envp, sp - 2, i)
    {
      hide Strings;
      hide Same;
      hide Word;
      hide Bytes;
      hide At;
      posn := sp - 2;
      PutUI(posn, 0);
      ghost var m0, m1 := old(ram[..]), ram[..];
      posn := PutStrings(posn, envp, eposn);
      ghost var mid, m2 := posn, ram[..];
      SameAgain(m0, m1, m2, mid, sp - 2, sp);
      WordKept(m1, m2, mid, sp - 2, big, sp - 2);
      posn := PutStrings(posn, argv, aposn);
      SameAgain(m0, m2, ram[..], posn, mid, sp);
      WordKept(m2, ram[..], posn, mid, big, sp - 2);
      AtStart(envp, sp - 2);
      StringsKept(m2, ram[..], posn, mid, sp - 2, envp, 0);
    }

    /** The lists of pointers to the strings, the arguments below the environment. */
    method PutLists(high: nat, sp: nat, argv: seq<CString>, envp: seq<CString>, aposn: array<int>, eposn: array<int>)
      returns (args: nat, envs: nat)
      requires high == sp - 2 - Bytes(envp) - Bytes(argv) && 2 * (|argv| + 1) + 2 * (|envp| + 1) <= high &&
               sp < ram.Length == RAM
      requires |argv| <= aposn.Length && |envp| <= eposn.Length
      requires forall i: nat :: i < |argv| ==> aposn[i] == At(argv, sp - 2 - Bytes(envp), i)
      requires forall i: nat :: i < |envp| ==> eposn[i] == At(envp, sp - 2, i)
      modifies ram
      ensures envs == high - 2 * (|envp| + 1) && args == envs - 2 * (|argv| + 1) &&
              Same(old(ram[..]), ram[..], args, high)
      ensures Lists(ram[..], big, args, sp, argv, envp)
    {
      hide Pointers;
      hide Same;
      hide Word;
      hide Bytes;
      hide At;
      ghost var m0 := ram[..];
      envs := PutPointers(high, envp, eposn, sp - 2);
      ghost var m1 := ram[..];
      args := PutPointers(envs, argv, aposn, sp - 2 - Bytes(envp));
      SameAgain(m0, m1, ram[..], args, envs, high);
      PointersKept(m1, ram[..], args, envs, big, envs, envp, sp - 2, 0);
      WordKept(m1, ram[..], args, envs, big, high - 2);
    }

    /** Build the image below sp and return the new stack pointer. */
    method SetArgEnv(sp: nat, argv: seq<CString>, envp: seq<CString>) returns (posn: nat)
      requires ram.Length == 65536 && sp < 65536 && Size(argv, envp) <= sp
      requires |argv| <= 200 && |envp| <= 200
      modifies ram
      ensures posn == sp - Size(argv, envp) && Same(old(ram[..]), ram[..], posn, sp)
      ensures sp - posn == 12 + 2 * |argv| + 2 * |envp| + Bytes(argv) + Bytes(envp)
      ensures Image(ram[..], big, posn, sp, argv, envp)
    {
      hide Lists;
      hide Texts;
      hide Same;
      hide Word;
      hide Bytes;
      hide At;
      var eposn, aposn := new int[MAX_ARGS], new int[MAX_ARGS];
      ghost var m0 := ram[..];
      var low := PutTexts(sp, argv, envp, aposn, eposn);
      ghost var m1 := ram[..];
      var args, envs := PutLists(low, sp, argv, envp, aposn, eposn);
      ghost var m2 := ram[..];
      SameAgain(m0, m1, m2, args, low, sp);
      TextsKept(m1, m2, args, low, big, sp, argv, envp);
      posn := args - 2;
      PutUI(posn, envs);
      ghost var m3 := ram[..];
      posn := posn - 2;
      PutUI(posn, args);
      ghost var m4 := ram[..];
      posn := posn - 2;
      PutUI(posn, |argv|);
      SameAgain(m3, m4, ram[..], posn, posn + 2, posn + 4);
      WordKept(m3, ram[..], posn, posn + 4, big, posn + 4);
      WordKept(m4, ram[..], posn, posn + 2, big, posn + 2);
      SameAgain(m2, m3, ram[..], posn, posn + 4, args);
      SameAgain(m0, m2, ram[..], posn, args, sp);
      TextsKept(m2, ram[..], posn, args, big, sp, argv, envp);
      ListsKept(m2, ram[..], posn, args, big, args, sp, argv, envp);
    }
  }
}
