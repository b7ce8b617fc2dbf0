/** The readline history store and line buffer: contiguous bytes moved about in
    place, with tables of pointers and lengths. */
module Readline {
  import opened CTypes

  type Line = seq<byte>

  const MAX_HIST: nat := 8

  /** Bytes in a history. */
  function Total(h: seq<Line>): nat {
    if h == [] then 0 else |h[0]| + Total(h[1..])
  }

  /** All entries one after the other. */
  function Concat(h: seq<Line>): (s: Line)
    ensures |s| == Total(h)
  {
    if h == [] then [] else h[0] + Concat(h[1..])
  }

  lemma {:induction false} TotalSnoc(h: seq<Line>, l: Line)
    ensures Total(h + [l]) == Total(h) + |l| && Concat(h + [l]) == Concat(h) + l
  {
    if h == [] {
      assert h + [l] == [l] && [l][1..] == [];
    } else {
      TotalSnoc(h[1..], l);
      assert (h + [l])[1..] == h[1..] + [l];
      assert h[0] + (Concat(h[1..]) + l) == h[0] + Concat(h[1..]) + l;
    }
  }

  lemma {:induction false} TotalTake(h: seq<Line>, i: nat)
    requires i < |h|
    ensures Total(h[..i + 1]) == Total(h[..i]) + |h[i]|
    ensures Total(h[..i + 1]) <= Total(h)
    ensures Concat(h)[Total(h[..i])..Total(h[..i + 1])] == h[i]
    decreases i
  {
    TotalSnoc(h[..i], h[i]);
    assert h[..i + 1] == h[..i] + [h[i]];
    ConcatSplit(h, i + 1);
  }

  lemma {:induction false} ConcatSplit(h: seq<Line>, i: nat)
    requires i <= |h|
    ensures Concat(h) == Concat(h[..i]) + Concat(h[i..]) && Total(h) == Total(h[..i]) + Total(h[i..])
  {
    if i == 0 {
      assert h[..0] == [] && h[0..] == h;
    } else {
      ConcatSplit(h[1..], i - 1);
      assert h[..i][1..] == h[1..][..i - 1] && h[1..][i - 1..] == h[i..];
      assert h[0] + (Concat(h[1..][..i - 1]) + Concat(h[i..])) == h[0] + Concat(h[1..][..i - 1]) + Concat(h[i..]);
    }
  }

  // ---- What the history becomes ----

  /** h may stay when a line of n bytes is added to a buffer of size bytes. */
  predicate Room(h: seq<Line>, n: nat, size: nat) {
    |h| < 8 && Total(h) + n < size
  }

  /** The old history with its first k entries dropped, and the line: the longest
      suffix of all entries that fits. */
  ghost predicate LongestSuffix(was: seq<Line>, line: Line, size: nat, h: seq<Line>, k: nat) {
    k <= |was| && h == was[k..] + [line] && Room(was[k..], |line|, size) &&
    forall j :: 0 <= j < k ==> !Room(was[j..], |line|, size)
  }

  /** No longer suffix fits: at most eight entries, and fewer bytes than the buffer has. */
  lemma NoLongerSuffix(was: seq<Line>, line: Line, size: nat, h: seq<Line>, k: nat, j: nat)
    requires LongestSuffix(was, line, size, h, k) && j <= |was|
    ensures |was[j..] + [line]| <= 8 && Total(was[j..] + [line]) < size <==> k <= j
    ensures |h| <= 8 && Total(h) < size
  {
    TotalSnoc(was[j..], line);
    TotalSnoc(was[k..], line);
    if k <= j {
      ConcatSplit(was[k..], j - k);
      assert was[k..][j - k..] == was[j..];
    }
  }

  // ---- The tables of pointers and lengths ----

  /** Entry i starts where the ones before it end. */
  ghost predicate Entry(h: seq<Line>, ptr: seq<int>, len: seq<int>, i: nat) {
    i < |h| && i < |ptr| && i < |len| && ptr[i] == Total(h[..i]) && len[i] == |h[i]|
  }

  ghost predicate Tables(h: seq<Line>, ptr: seq<int>, len: seq<int>) {
    |h| <= |ptr| == |len| == MAX_HIST && forall i :: 0 <= i < |h| ==> Entry(h, ptr, len, i)
  }

  /** Without the first entry, everything moves down by its length. */
  lemma FirstGone(h: seq<Line>, ptr: seq<int>, len: seq<int>, ptr': seq<int>, len': seq<int>)
    requires Tables(h, ptr, len) && h != [] && |ptr'| == |len'| == MAX_HIST
    requires forall j :: 0 <= j < MAX_HIST - 1 ==> ptr'[j] == ptr[j + 1] - |h[0]| && len'[j] == len[j + 1]
    ensures Tables(h[1..], ptr', len')
  {
    forall j | 0 <= j < |h[1..]| ensures Entry(h[1..], ptr', len', j) {
      assert Entry(h, ptr, len, j + 1);
      assert h[..j + 1][1..] == h[1..][..j];
    }
  }

  lemma FirstBytes(h: seq<Line>)
    requires h != []
    ensures Total(h) == |h[0]| + Total(h[1..]) && Concat(h)[|h[0]|..] == Concat(h[1..])
  {
  }

  lemma LastGone(h: seq<Line>, ptr: seq<int>, len: seq<int>)
    requires Tables(h, ptr, len) && h != []
    ensures Tables(h[..|h| - 1], ptr, len) && len[|h| - 1] == |h[|h| - 1]|
    ensures Total(h) == Total(h[..|h| - 1]) + |h[|h| - 1]| && Concat(h)[..Total(h[..|h| - 1])] == Concat(h[..|h| - 1])
  {
    var n := |h| - 1;
    assert Entry(h, ptr, len, n);
    assert h == h[..n] + [h[n]];
    TotalSnoc(h[..n], h[n]);
    forall j | 0 <= j < n ensures Entry(h[..n], ptr, len, j) {
      assert Entry(h, ptr, len, j);
      assert h[..n][..j] == h[..j];
    }
  }

  lemma LineAdded(h: seq<Line>, ptr: seq<int>, len: seq<int>, line: Line)
    requires Tables(h, ptr, len) && |h| < MAX_HIST
    ensures Tables(h + [line], ptr[|h| := Total(h)], len[|h| := |line|])
  {
    var n, h', ptr', len' := |h|, h + [line], ptr[|h| := Total(h)], len[|h| := |line|];
    forall j | 0 <= j < |h'| ensures Entry(h', ptr', len', j) {
      assert h'[..j] == h[..j];
      if j < n { assert Entry(h, ptr, len, j); } else { assert h[..j] == h; }
    }
  }

  // ---- The store ----

  /** memmove. */
  method MemMove<T>(a: array<T>, dst: nat, src: nat, n: nat)
    requires dst <= src && src + n <= a.Length
    modifies a
    ensures a[..dst] == old(a[..dst]) && a[dst..dst + n] == old(a[src..src + n]) && a[dst + n..] == old(a[dst + n..])
  {
    var k := 0;
    while k < n
      invariant 0 <= k <= n
      invariant forall i :: 0 <= i < dst || dst + k <= i < a.Length ==> a[i] == old(a[i])
      invariant a[dst..dst + k] == old(a[src..src + k])
    {
      a[dst + k] := a[src + k];
      assert a[dst..dst + k + 1] == a[dst..dst + k] + [a[dst + k]];
      k := k + 1;
    }
  }

  class History {
    const hbuffer: array<byte>
    const hptr: array<int>
    const hlen: array<int>
    var hend: nat
    var histp: nat
    var histend: nat
    ghost var h: seq<Line>       // the entries, oldest first

    ghost predicate Valid()
      reads this, hbuffer, hptr, hlen
    {
      hptr.Length == hlen.Length == MAX_HIST && hptr != hlen &&
      histend == |h| && hend == Total(h) <= hbuffer.Length && hbuffer[..hend] == Concat(h) &&
      Tables(h, hptr[..], hlen[..])
    }

    /** rl_hinit, on a buffer of len bytes. */
    constructor (len: nat)
      ensures Valid() && h == [] && hbuffer.Length == len && fresh(hbuffer) && fresh(hptr) && fresh(hlen)
    {
      hbuffer := new byte[len];
      hptr := new int[MAX_HIST];
      hlen := new int[MAX_HIST];
      hend, histp, histend := 0, 0, 0;
      h := [];
    }

    /** Entry i, read through the tables. */
    method Recall(i: nat) returns (line: Line)
      requires Valid() && i < histend
      ensures line == h[i]
    {
      assert Entry(h, hptr[..], hlen[..], i);
      TotalTake(h, i);
      assert hbuffer[hptr[i]..hptr[i] + hlen[i]] == hbuffer[..hend][hptr[i]..hptr[i] + hlen[i]];
      line := hbuffer[hptr[i]..hptr[i] + hlen[i]];
    }

    /** Every pointer but the first takes the place before it, l bytes lower. */
    method ShiftPointers(l: int)
      requires hptr.Length == MAX_HIST
      modifies hptr
      ensures forall j :: 0 <= j < MAX_HIST - 1 ==> hptr[j] == old(hptr[j + 1]) - l
    {
      var i := 1;
      while i < MAX_HIST
        invariant 1 <= i <= MAX_HIST
        invariant forall j :: 0 <= j < i - 1 ==> hptr[j] == old(hptr[j + 1]) - l
        invariant forall j :: i - 1 <= j < MAX_HIST ==> hptr[j] == old(hptr[j])
      {
        hptr[i - 1] := hptr[i] - l;
        i := i + 1;
      }
    }

    /** Forget the first entry; the others move down in bytes and in tables. */
    method DropFirst()
      requires Valid() && h != []
      modifies this, hbuffer, hptr, hlen
      ensures Valid() && h == old(h)[1..] && histp == if old(histp) > 0 then old(histp) - 1 else 0
    {
      hide Tables;
      hide Concat;
      hide Total;
      ghost var h0, buf, ptr, len := h, hbuffer[..], hptr[..], hlen[..];
      FirstEntry(h, ptr, len);
      FirstBytes(h);
      var l := hlen[0];
      hend := hend - l;
      // Bytes
      MemMove(hbuffer, 0, l, hend);
      assert hbuffer[..hend] == buf[l..l + hend] == buf[..l + hend][l..];
      // Lengths and pointers
      MemMove(hlen, 0, 1, MAX_HIST - 1);
      Shifted(len, hlen[..]);
      ShiftPointers(l);
      FirstGone(h0, ptr, len, hptr[..], hlen[..]);
      histend := histend - 1;
      if histp > 0 {
        histp := histp - 1;
      }
      h := h0[1..];
    }

    /** Copy the line to the end of the buffer. */
    method Store(line: Line)
      requires hend + |line| <= hbuffer.Length
      modifies hbuffer
      ensures hbuffer[..hend] == old(hbuffer[..hend]) && hbuffer[hend..hend + |line|] == line
    {
      var i := 0;
      while i < |line|
        invariant 0 <= i <= |line| && hbuffer[..hend] == old(hbuffer[..hend]) && hbuffer[hend..hend + i] == line[..i]
      {
        hbuffer[hend + i] := line[i];
        assert hbuffer[hend..hend + i + 1] == hbuffer[hend..hend + i] + [line[i]];
        i := i + 1;
      }
    }

    /** The new entry goes after the last one. */
    method Append(line: Line)
      requires Valid() && Room(h, |line|, hbuffer.Length)
      modifies this, hbuffer, hptr, hlen
      ensures Valid() && h == old(h) + [line]
    {
      hide Tables;
      hide Concat;
      hide Total;
      var s := |line|;
      ghost var h1, ptr, len := h, hptr[..], hlen[..];
      Store(line);
      hptr[histend] := hend;
      hlen[histend] := s;
      histend := histend + 1;
      hend := hend + s;
      h := h1 + [line];
      TotalSnoc(h1, line);
      LineAdded(h1, ptr, len, line);
      assert hptr[..] == ptr[|h1| := Total(h1)] && hlen[..] == len[|h1| := s];
      assert hbuffer[..hend] == hbuffer[..hend - s] + hbuffer[hend - s..hend];
    }

    /** Add a line, removing the oldest entries until it fits. */
    method Add(line: Line) returns (ghost k: nat)
      requires Valid() && |line| < hbuffer.Length
      modifies this, hbuffer, hptr, hlen
      ensures Valid() && LongestSuffix(old(h), line, hbuffer.Length, h, k)
    {
      hide Tables;
      hide Concat;
      k := 0;
      TableSize();
      while histend == MAX_HIST || hend + |line| >= hbuffer.Length
        invariant Valid() && histend <= MAX_HIST && k <= |old(h)| && h == old(h)[k..]
        invariant forall j :: 0 <= j < k ==> !Room(old(h)[j..], |line|, hbuffer.Length)
        decreases histend
      {
        DropFirst();
        k := k + 1;
      }
      Append(line);
    }

    lemma TableSize()
      requires Valid()
      ensures histend <= MAX_HIST
    {
    }

    /** Drop the newest entry. */
    method DropLast()
      requires Valid() && h != []
      modifies this
      ensures Valid() && h == old(h)[..|old(h)| - 1]
    {
      ghost var h0 := h;
      LastGone(h, hptr[..], hlen[..]);
      hide Tables;
      histend := histend - 1;
      hend := hend - hlen[histend];
      h := h0[..|h0| - 1];
      assert hbuffer[..hend] == Concat(h0)[..hend];
    }

    /** Put a line in place of the newest entry. */
    method Replace(line: Line) returns (ghost k: nat)
      requires Valid() && h != [] && |line| < hbuffer.Length
      modifies this, hbuffer, hptr, hlen
      ensures Valid() && LongestSuffix(old(h)[..|old(h)| - 1], line, hbuffer.Length, h, k)
    {
      DropLast();
      k := Add(line);
    }
  }

  lemma Shifted(was: seq<int>, now: seq<int>)
    requires |was| == |now| == MAX_HIST && now[0..0 + (MAX_HIST - 1)] == was[1..1 + (MAX_HIST - 1)]
    ensures forall j :: 0 <= j < MAX_HIST - 1 ==> now[j] == was[j + 1]
  {
    forall j | 0 <= j < MAX_HIST - 1 ensures now[j] == was[j + 1] {
      assert now[0..0 + (MAX_HIST - 1)][j] == was[1..1 + (MAX_HIST - 1)][j];
    }
  }

  lemma FirstEntry(h: seq<Line>, ptr: seq<int>, len: seq<int>)
    requires Tables(h, ptr, len) && h != []
    ensures len[0] == |h[0]| && ptr[0] == 0
  {
    assert Entry(h, ptr, len, 0);
  }

  // ---- The line being edited ----

  class LineBuffer {
    const base: array<byte>
    var end: nat
    var cursor: nat

    ghost predicate Valid()
      reads this
    {
      cursor <= end < base.Length
    }

    ghost function Text(): Line
      requires Valid()
      reads this, base
    {
      base[..end]
    }

    constructor (len: nat)
      requires len > 0
      ensures Valid() && Text() == [] && base.Length == len && fresh(base)
    {
      base := new byte[len];
      end, cursor := 0, 0;
    }

    /** Insert c at the cursor, if there is room. */
    method Insert(c: byte)
      requires Valid()
      modifies this, base
      ensures Valid()
      ensures if old(end) < base.Length - 1
              then Text() == old(Text()[..cursor] + [c] + Text()[cursor..]) && cursor == old(cursor) + 1
              else Text() == old(Text()) && cursor == old(cursor)
    {
      if end < base.Length - 1 {
        ghost var t := base[..end];
        if cursor != end {
          MoveUp();
          base[cursor] := c;
        } else {
          base[cursor] := c;
        }
        cursor := cursor + 1;
        end := end + 1;
        assert base[..end] == base[..cursor - 1] + [c] + base[cursor..end];
      }
    }

    /** memmove from the cursor up by one. */
    method MoveUp()
      requires Valid() && end < base.Length - 1
      modifies base
      ensures base[..cursor] == old(base[..cursor]) && base[cursor + 1..end + 1] == old(base[cursor..end])
    {
      var k := end;
      while k > cursor
        invariant cursor <= k <= end
        invariant forall i :: 0 <= i <= k ==> base[i] == old(base[i])
        invariant forall i :: k < i <= end ==> base[i] == old(base[i - 1])
      {
        base[k] := base[k - 1];
        k := k - 1;
      }
      forall i | 0 <= i < end - cursor ensures base[cursor + 1..end + 1][i] == old(base[cursor..end])[i] {
        assert base[cursor + 1 + i] == old(base[cursor + 1 + i - 1]);
      }
    }

    /** Delete the character before the cursor. */
    method BSpace()
      requires Valid() && cursor > 0
      modifies this, base
      ensures Valid() && Text() == old(Text()[..cursor - 1] + Text()[cursor..]) && cursor == old(cursor) - 1
    {
      ghost var t, c := base[..], cursor;
      cursor := cursor - 1;
      MemMove(base, cursor, cursor + 1, end - cursor);
      end := end - 1;
      assert base[..end] == base[..cursor] + base[cursor..cursor + (end + 1 - cursor)][..end - cursor];
      assert t[c..c + (end + 1 - cursor)][..end - cursor] == t[..end + 1][c..];
    }

    /** Typing a character and deleting it again changes nothing. */
    method InsertBSpace(c: byte)
      requires Valid() && end < base.Length - 1
      modifies this, base
      ensures Valid() && Text() == old(Text()) && cursor == old(cursor)
    {
      ghost var t, k := Text(), cursor;
      Insert(c);
      assert Text()[..cursor - 1] == t[..k] && Text()[cursor..] == t[k..];
      BSpace();
    }
  }
}
