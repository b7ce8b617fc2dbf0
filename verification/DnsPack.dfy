/** dn_find, ns_name_pack and ns_name_unpack, dn_comp and dn_expand: writing
    compressed names into a message, and reading them back. */
module DnsPack {
  import opened CTypes
  import opened DnsName
  import opened DnsText
  import opened DnsMessage

  const NULL: int := -1
  const MAX_OFFSET: nat := 0x4000    // pointers have 14 bits

  // ---- dn_find ----

  /** A name that ends before at is spelled at p. */
  predicate Stored(m: seq<byte>, p: int, at: nat) {
    0 <= p && Spelled(m, p, p, at).Some?
  }

  /** The search that starts at the name at p looks at the suffix at x: it steps
      over labels up to the root, a pointer or an offset too large for one. */
  predicate Visits(m: seq<byte>, p: int, x: int)
    decreases |m| - p
  {
    0 <= p < |m| && 0 < m[p] < 64 && p < 0x4000 && (x == p || Visits(m, p + 1 + m[p], x))
  }

  predicate Differs(m: seq<byte>, x: int, at: nat, name: Name) {
    Stored(m, x, at) && !SameName(Spelled(m, x, x, at).value, name)
  }

  /** Search for the name at dp of src among the names, and their suffixes, that
      ptrs[first..last] point at. */
  method DnFind(src: seq<byte>, dp: nat, m: seq<byte>, ptrs: array<int>, first: nat, last: nat, ghost at: nat)
    returns (r: int)
    requires first <= last <= ptrs.Length && forall c :: first <= c < last ==> Stored(m, ptrs[c], at)
    requires Legible(src, dp) && NameAt(src, dp).Some? && src[dp] != 0
    ensures r >= 0 ==>
              r < 0x4000 && r < at && Stored(m, r, at) &&
              SameName(Spelled(m, r, r, at).value, NameAt(src, dp).value)
    ensures r < 0 ==> r == -1 && forall c, x :: first <= c < last && Visits(m, ptrs[c], x) ==>
            Differs(m, x, at, NameAt(src, dp).value)
  {
    hide Spelled;
    hide SameName;
    hide Visits;
    hide NameAt;
    hide Legible;
    ghost var name := NameAt(src, dp).value;
    var c := first;
    while c < last
      invariant first <= c <= last
      invariant forall b, x :: first <= b < c && Visits(m, ptrs[b], x) ==> Differs(m, x, at, name)
    {
      var sp: nat := ptrs[c];
      NotEnd(m, sp, sp, at);
      while m[sp] != 0 && m[sp] < 64 && sp < MAX_OFFSET
        invariant Stored(m, sp, at) && sp < at <= |m|
        invariant forall x :: Visits(m, ptrs[c], x) ==> Differs(m, x, at, name) || Visits(m, sp, x)
        decreases at - sp
      {
        var same := SameAt(m, sp, at, src, dp);
        if same {
          return sp;
        }
        NextSuffix(m, sp, at);
        sp := sp + m[sp] + 1;
      }
      NoSuffix(m, sp);
      c := c + 1;
    }
    return -1;
  }

  lemma NextSuffix(m: seq<byte>, p: nat, at: nat)
    requires Stored(m, p, at) && p < |m| && 0 < m[p] < 64
    ensures Stored(m, p + 1 + m[p], at) && p + 1 + m[p] < at <= |m|
    ensures forall x :: Visits(m, p, x) ==> x == p || Visits(m, p + 1 + m[p], x)
  {
    var q := p + 1 + m[p];
    NotEnd(m, p, p, at);
    SpelledWider(m, p, q, at, q, at);
  }

  lemma NoSuffix(m: seq<byte>, p: nat)
    requires p < |m| && !(0 < m[p] < 64 && p < MAX_OFFSET)
    ensures forall x :: !Visits(m, p, x)
  {
  }

  // ---- ns_name_unpack ----

  /** name is what following labels and pointers from p spells, with that many
      jumps, wherever the pointers lead. */
  ghost predicate Follows(m: seq<byte>, p: nat, name: Name, jumps: nat)
    decreases jumps, |m| - p
  {
    p < |m| &&
    if m[p] == 0 then name == [] && jumps == 0
    else if m[p] < 64 then
      var q := p + 1 + m[p];
      q < |m| && name != [] && name[0] == m[p + 1..q] && Follows(m, q, name[1..], jumps)
    else
      m[p] >= 192 && p + 2 <= |m| && jumps > 0 && Follows(m, Target(m, p), name, jumps - 1)
  }

  /** What reading has done so far: the labels of done, after some jumps. */
  ghost predicate Soundly(m: seq<byte>, p: nat, srcp: nat, done: Name, jumps: nat) {
    forall rest: Name, k: nat :: Follows(m, srcp, rest, k) ==> Follows(m, p, done + rest, k + jumps)
  }

  /** If the name at p is well-formed, the rest of it is at srcp, and the count
      of bytes looked at is no more than those above the current run, and in it. */
  ghost predicate Completely(m: seq<byte>, p: nat, srcp: nat, done: Name, low: nat, hi: nat, checked: nat) {
    Spelled(m, p, p, |m|).Some? ==>
      low <= srcp < hi <= |m| && Spelled(m, low, srcp, hi).Some? &&
      Spelled(m, p, p, |m|).value == done + Spelled(m, low, srcp, hi).value &&
      checked <= |m| - hi + srcp - low
  }

  /** Unpack the name at p: its wire form goes to dst, and the number of bytes it
      takes up at p is returned. The end of a name is stored unchecked: if pointers
      lead from p straight to the root, there has to be a byte for it. */
  method NameUnpack(m: seq<byte>, p: int, dst: array<byte>) returns (r: int)
    requires 0 <= p && dst.Length == 0 ==> forall jumps: nat :: !Follows(m, p, [], jumps)
    modifies dst
    ensures r < 0 ==> r == -1
    ensures r >= 0 ==> 0 <= p < |m| && r == RunEnd(m, p) - p
    ensures r >= 0 ==>
              exists name, jumps ::
                Follows(m, p, name, jumps) && |Wire(name)| <= dst.Length &&
                dst[..|Wire(name)|] == Wire(name)
    ensures 0 <= p && Spelled(m, p, p, |m|).Some? ==>
              var w := Wire(Spelled(m, p, p, |m|).value);
              (r >= 0 <==> |w| <= dst.Length) && (r >= 0 ==> dst[..|w|] == w)
  {
    hide Spelled;
    hide Follows;
    hide RunEnd;
    hide Wire;
    hide WireLabels;
    hide Soundly;
    hide Completely;
    var len, checked: nat, dstp: nat := -1, 0, 0;
    if p < 0 || p >= |m| {
      OutOfRange(m, p);
      return -1;
    }
    var srcp: nat := p;
    ghost var done: Name, low: nat, hi: nat, jumps: nat := [], p, |m|, 0;
    UnpackStart(m, p);
    // One label or pointer per round
    while m[srcp] != 0
      invariant srcp < |m| && dstp == |WireLabels(done)| <= dst.Length && dst[..dstp] == WireLabels(done)
      invariant dstp < dst.Length || (dst.Length == 0 && done == [])
      invariant if len < 0 then RunEnd(m, srcp) == RunEnd(m, p) && srcp >= p else len == RunEnd(m, p) - p
      invariant Soundly(m, p, srcp, done, jumps) && Completely(m, p, srcp, done, low, hi, checked)
      decreases dst.Length - dstp, |m| - checked
    {
      var n := m[srcp];
      RunStep(m, srcp);
      if n < 64 {
        LabelStep(m, p, srcp, done, low, hi, checked, jumps, dst.Length);
        srcp := srcp + 1;
        // The label and the length of the next must fit, and lie in the message
        if dstp + n + 1 >= dst.Length || srcp + n >= |m| {
          return -1;
        }
        checked := checked + n + 1;
        CopyLabel(dst, dstp, m, srcp, n, done);
        dstp := dstp + 1 + n;
        done := done + [m[srcp..srcp + n]];
        srcp := srcp + n;
      } else if n >= 192 {
        PointerStep(m, p, srcp, done, low, hi, checked, jumps);
        srcp := srcp + 1;
        if srcp >= |m| {
          return -1;
        }
        if len < 0 {
          len := srcp - p + 1;
        }
        low, hi, jumps := Target(m, srcp - 1), low, jumps + 1;
        srcp := (n as int - 192) * 256 + m[srcp];
        if srcp >= |m| {
          return -1;
        }
        checked := checked + 2;
        // No name is longer than the message it is in.
        if checked >= |m| {
          return -1;
        }
      } else {
        BadStep(m, p, srcp, done, low, hi, checked);
        return -1;
      }
    }
    RunStep(m, srcp);
    UnpackEnd(m, p, srcp, done, low, hi, checked, jumps);
    WireIsLabels(done);
    ghost var before := dst[..dstp];
    dst[dstp] := 0;
    assert dst[..dstp + 1] == before + [0];
    if len < 0 {
      len := srcp + 1 - p;
    }
    return len;
  }

  /** Store a label: its length and its bytes. */
  method CopyLabel(dst: array<byte>, at: nat, m: seq<byte>, from: nat, n: byte, ghost done: Name)
    requires at + 1 + n <= dst.Length && from + n <= |m| && 0 < n < 64
    requires at == |WireLabels(done)| && dst[..at] == WireLabels(done)
    modifies dst
    ensures at + 1 + n == |WireLabels(done + [m[from..from + n]])| &&
            dst[..at + 1 + n] == WireLabels(done + [m[from..from + n]])
  {
    hide WireLabels;
    ghost var l: Label, before := m[from..from + n], dst[..at];
    WireLabelsSnoc(done, l);
    dst[at] := n;
    assert dst[..at + 1] == before + [n];
    Copy(dst, at + 1, m, from, n);
    assert dst[..at + 1 + n] == dst[..at + 1] + dst[at + 1..at + 1 + n];
  }

  /** memcpy into dst. */
  method Copy(dst: array<byte>, at: nat, m: seq<byte>, from: nat, n: nat)
    requires at + n <= dst.Length && from + n <= |m|
    modifies dst
    ensures dst[..at] == old(dst[..at]) && dst[at..at + n] == m[from..from + n] && dst[at + n..] == old(dst[at + n..])
  {
    var k := 0;
    while k < n
      invariant 0 <= k <= n
      invariant forall i :: 0 <= i < dst.Length && !(at <= i < at + k) ==> dst[i] == old(dst[i])
      invariant dst[at..at + k] == m[from..from + k]
    {
      dst[at + k] := m[from + k];
      assert dst[at..at + k + 1] == m[from..from + k] + [m[from + k]];
      k := k + 1;
    }
  }

  lemma OutOfRange(m: seq<byte>, p: int)
    requires p < 0 || p >= |m|
    ensures 0 <= p ==> Spelled(m, p, p, |m|).None?
  {
  }

  lemma UnpackStart(m: seq<byte>, p: nat)
    requires p < |m|
    ensures Soundly(m, p, p, [], 0) && Completely(m, p, p, [], p, |m|, 0)
    ensures WireLabels([]) == []
  {
    forall rest: Name, k: nat | Follows(m, p, rest, k) ensures Follows(m, p, [] + rest, k + 0) {
      assert [] + rest == rest;
    }
    if Spelled(m, p, p, |m|).Some? {
      assert [] + Spelled(m, p, p, |m|).value == Spelled(m, p, p, |m|).value;
    }
  }

  lemma RunStep(m: seq<byte>, p: nat)
    requires p < |m|
    ensures m[p] == 0 ==> RunEnd(m, p) == p + 1
    ensures 0 < m[p] < 64 ==> RunEnd(m, p) == RunEnd(m, p + 1 + m[p])
    ensures 64 <= m[p] ==> RunEnd(m, p) == p + 2
  {
  }

  lemma {:induction false} WireLonger(done: Name, l: Label, rest: Name)
    ensures |Wire(done + [l] + rest)| >= |WireLabels(done)| + |l| + 2
  {
    WireLabelsAppend(done + [l], rest);
    WireLabelsSnoc(done, l);
    WireIsLabels(done + [l] + rest);
  }

  lemma LabelStep(m: seq<byte>, p: nat, srcp: nat, done: Name, low: nat, hi: nat, checked: nat, jumps: nat, limit: nat)
    requires p < |m| && srcp < |m| && 0 < m[srcp] < 64
    requires Soundly(m, p, srcp, done, jumps) && Completely(m, p, srcp, done, low, hi, checked)
    ensures var q := srcp + 1 + m[srcp];
            q < |m| ==> Soundly(m, p, q, done + [m[srcp + 1..q]], jumps) &&
                        Completely(m, p, q, done + [m[srcp + 1..q]], low, hi, checked + m[srcp] + 1)
    ensures Spelled(m, p, p, |m|).Some? ==> srcp + 1 + m[srcp] < |m|
    ensures Spelled(m, p, p, |m|).Some? ==> |Wire(Spelled(m, p, p, |m|).value)| >= |WireLabels(done)| + m[srcp] + 2
  {
    var q := srcp + 1 + m[srcp];
    if q < |m| {
      var l: Label := m[srcp + 1..q];
      forall rest: Name, k: nat | Follows(m, q, rest, k) ensures Follows(m, p, done + [l] + rest, k + jumps) {
        var longer: Name := [l] + rest;
        assert longer[1..] == rest;
        assert Follows(m, srcp, longer, k);
        assert done + longer == done + [l] + rest;
      }
      if Spelled(m, p, p, |m|).Some? {
        var rest := Spelled(m, low, q, hi).value;
        assert Spelled(m, low, srcp, hi).value == [l] + rest;
        assert done + ([l] + rest) == done + [l] + rest;
        WireLonger(done, l, rest);
      }
    }
  }

  lemma PointerStep(m: seq<byte>, p: nat, srcp: nat, done: Name, low: nat, hi: nat, checked: nat, jumps: nat)
    requires p < |m| && srcp < |m| && 192 <= m[srcp]
    requires Soundly(m, p, srcp, done, jumps) && Completely(m, p, srcp, done, low, hi, checked)
    ensures srcp + 2 <= |m| ==>
              var t := Target(m, srcp);
              Soundly(m, p, t, done, jumps + 1) && Completely(m, p, t, done, t, low, checked + 2)
    ensures Spelled(m, p, p, |m|).Some? ==> srcp + 2 <= |m| && Target(m, srcp) < |m| && checked + 2 < |m|
  {
    if srcp + 2 <= |m| {
      var t := Target(m, srcp);
      forall rest: Name, k: nat | Follows(m, t, rest, k) ensures Follows(m, p, done + rest, k + (jumps + 1)) {
        assert Follows(m, srcp, rest, k + 1);
      }
    }
    if Spelled(m, p, p, |m|).Some? {
      NotEnd(m, low, srcp, hi);
      NotEnd(m, Target(m, srcp), Target(m, srcp), low);
    }
  }

  lemma BadStep(m: seq<byte>, p: nat, srcp: nat, done: Name, low: nat, hi: nat, checked: nat)
    requires p < |m| && srcp < |m| && 64 <= m[srcp] < 192 && Completely(m, p, srcp, done, low, hi, checked)
    ensures Spelled(m, p, p, |m|).None?
  {
  }

  lemma UnpackEnd(m: seq<byte>, p: nat, srcp: nat, done: Name, low: nat, hi: nat, checked: nat, jumps: nat)
    requires p < |m| && srcp < |m| && m[srcp] == 0
    requires Soundly(m, p, srcp, done, jumps) && Completely(m, p, srcp, done, low, hi, checked)
    ensures Follows(m, p, done, jumps)
    ensures Spelled(m, p, p, |m|).Some? ==> Spelled(m, p, p, |m|).value == done
  {
    assert Follows(m, srcp, [], 0);
    assert done + [] == done;
  }

  // ---- ns_name_pack ----

  /** The name at the start of src, if it is uncompressed and not too long. */
  method CheckLegal(src: seq<byte>) returns (ok: bool)
    requires |src| > NS_MAXCDNAME || Legible(src, 0)
    ensures ok <==> Legible(src, 0) && NameAt(src, 0).Some? && Legal(NameAt(src, 0).value)
  {
    hide NameAt;
    hide Wire;
    hide WireLabels;
    hide Legible;
    var srcp, l: nat := 0, 0;
    ghost var done: Name := [];
    CheckStart(src);
    while true
      invariant l == srcp == |WireLabels(done)| && (|src| > NS_MAXCDNAME >= l || Legible(src, srcp)) &&
                Checked(src, srcp, done)
      decreases |src| - srcp
    {
      LegibleHere(src, srcp);
      var n := src[srcp];
      CheckStep(src, srcp, done);
      if n >= 64 {
        return false;
      }
      l := l + n + 1;
      if l > NS_MAXCDNAME {
        return false;
      }
      if n == 0 {
        return true;
      }
      LegibleHere(src, srcp + 1 + n);
      ghost var label': Label := src[srcp + 1..srcp + 1 + n];
      WireLabelsSnoc(done, label');
      done := done + [label'];
      srcp := srcp + n + 1;
    }
  }

  /** src starts with the labels of done, and at srcp the rest begins. */
  ghost predicate Checked(src: seq<byte>, srcp: nat, done: Name) {
    (Legible(src, 0) <==> Legible(src, srcp)) && (Legible(src, 0) ==> After(src, srcp, done))
  }

  function LabelAt(src: seq<byte>, p: nat): Label
    requires p < |src| && 0 < src[p] < 64 && p + 1 + src[p] <= |src|
  {
    src[p + 1..p + 1 + src[p]]
  }

  lemma CheckStart(src: seq<byte>)
    ensures Checked(src, 0, []) && WireLabels([]) == []
  {
    if Legible(src, 0) { NtopStart(src); }
  }

  lemma CheckStep(src: seq<byte>, srcp: nat, done: Name)
    requires srcp < |src| && Checked(src, srcp, done) && srcp == |WireLabels(done)|
    ensures src[srcp] >= 64 ==> !(Legible(src, 0) && NameAt(src, 0).Some?)
    ensures src[srcp] == 0 ==> Legible(src, 0) && NameAt(src, 0) == Some(done) && |Wire(done)| == srcp + 1
    ensures 0 < src[srcp] < 64 && srcp + 1 + src[srcp] <= |src| ==>
              Checked(src, srcp + 1 + src[srcp], done + [src[srcp + 1..srcp + 1 + src[srcp]]])
    ensures 0 < src[srcp] < 64 && Legible(src, 0) ==> Legible(src, srcp + 1 + src[srcp])
    ensures 0 < src[srcp] < 64 && Legible(src, 0) && NameAt(src, 0).Some? ==>
            |Wire(NameAt(src, 0).value)| > srcp + 1 + src[srcp]
  {
    WireIsLabels(done);
    hide Wire;
    hide WireLabels;
    hide ShownLabels;
    hide ShownBytes;
    if src[srcp] == 0 {
      assert Legible(src, srcp);
      NtopEnd(src, srcp, done);
    } else if src[srcp] >= 64 {
      if Legible(src, 0) { NtopBad(src, srcp, done); }
    } else {
      var q := srcp + 1 + src[srcp];
      if Legible(src, 0) {
        assert Legible(src, q);
        AfterNext(src, srcp, done);
        if NameAt(src, 0).Some? {
          WireLonger(done, LabelAt(src, srcp), NameAt(src, q).value);
        }
      }
    }
  }

  // The table of names to point at: an array whose entry 0 is the start of the
  // message (or NULL: do not compress), followed by offsets up to a NULL.

  ghost predicate TableEnd(ptrs: seq<int>, end: nat) {
    1 <= end < |ptrs| && ptrs[end] == NULL && forall c :: 1 <= c < end ==> ptrs[c] != NULL
  }

  ghost predicate AllStored(m: seq<byte>, ptrs: seq<int>, end: nat, at: nat) {
    end <= |ptrs| && forall c :: 1 <= c < end ==> Stored(m, ptrs[c], at)
  }

  ghost predicate TableOK(m: seq<byte>, ptrs: seq<int>, at: nat) {
    |ptrs| > 0 && (ptrs[0] == NULL || exists end :: TableEnd(ptrs, end) && AllStored(m, ptrs, end, at))
  }

  /** No name in the table, nor any suffix of one the search gets to, is this. */
  ghost predicate NotStored(m: seq<byte>, ptrs: seq<int>, end: nat, at: nat, name: Name) {
    end <= |ptrs| && forall c, x :: 1 <= c < end && Visits(m, ptrs[c], x) ==> Differs(m, x, at, name)
  }

  lemma StoredFrame(m: seq<byte>, m': seq<byte>, p: int, at: nat, hi: nat)
    requires Stored(m, p, at) && at <= hi <= |m'| && at <= |m| && m[..at] == m'[..at]
    ensures Stored(m', p, hi) && Spelled(m', p, p, hi) == Spelled(m, p, p, at) &&
            Spelled(m', p, p, at) == Spelled(m, p, p, at) && p < at
  {
    NotEnd(m, p, p, at);
    SpelledFrame(m, m', p, p, at);
    SpelledWider(m', p, p, at, p, hi);
  }

  lemma {:induction false} VisitsFrame(m: seq<byte>, m': seq<byte>, p: int, at: nat, x: int)
    requires Stored(m, p, at) && at <= |m| == |m'| && m[..at] == m'[..at]
    ensures Visits(m, p, x) ==> Visits(m', p, x) && (Stored(m, x, at) ==> x < at)
    decreases |m| - p
  {
    NotEnd(m, p, p, at);
    assert m[p] == m[..at][p] == m'[p];
    if Visits(m, p, x) {
      if x == p {
      } else {
        NextSuffix(m, p, at);
        VisitsFrame(m, m', p + 1 + m[p], at, x);
      }
    }
  }

  lemma NotStoredFrame(m: seq<byte>, m': seq<byte>, ptrs: seq<int>, end: nat, at: nat, name: Name)
    requires at <= |m| == |m'| && m[..at] == m'[..at] && AllStored(m, ptrs, end, at) &&
             NotStored(m', ptrs, end, at, name)
    ensures NotStored(m, ptrs, end, at, name)
  {
    hide Spelled;
    hide Visits;
    hide SameName;
    forall c, x | 1 <= c < end && Visits(m, ptrs[c], x) ensures Differs(m, x, at, name) {
      assert Stored(m, ptrs[c], at);
      VisitsFrame(m, m', ptrs[c], at, x);
      assert Differs(m', x, at, name);
      StoredFrame(m', m, x, at, at);
    }
  }

  /** The labels of done have been written at at, and nothing else. */
  ghost predicate Packed(m0: seq<byte>, m: seq<byte>, at: nat, dstp: nat, done: Name) {
    |m| == |m0| && at <= dstp == at + |WireLabels(done)| <= |m| && m[..at] == m0[..at] && m[dstp..] == m0[dstp..] &&
    m[at..dstp] == WireLabels(done)
  }

  /** The table with the name at at added, if it was. */
  ghost predicate Tabled(p0: seq<int>, p: seq<int>, end: nat, cpp: nat, first: bool, at: nat) {
    if first then cpp == end && p == p0
    else end + 1 < |p0| && cpp == end + 1 && p == p0[end := at][end + 1 := NULL]
  }

  lemma PackedStart(m: seq<byte>, at: nat)
    requires at <= |m|
    ensures Packed(m, m, at, at, [])
  {
    assert m[at..at] == [] == WireLabels([]);
  }

  /** The name ends with a pointer. */
  lemma PackedPointer(m0: seq<byte>, m: seq<byte>, at: nat, dstp: nat, done: Name, l: nat, rest: Name)
    requires at <= dstp == at + |WireLabels(done)| && dstp + 2 <= |m| == |m0| && m[..at] == m0[..at] &&
             m[at..dstp] == WireLabels(done)
    requires l < MAX_OFFSET && l < at && Stored(m0, l, at) && Spelled(m0, l, l, at).value == rest != []
    requires m[dstp] == l / 256 + 192 && m[dstp + 1] == l % 256
    ensures Spelled(m, at, at, dstp + 2) == Some(done + rest) && RunEnd(m, at) == dstp + 2
  {
    hide WireLabels;
    StoredFrame(m0, m, l, at, at);
    assert Target(m, dstp) == l;
    assert Spelled(m, at, dstp, dstp + 2) == Some(rest);
    SpelledBehind(m, at, at, dstp + 2, done, dstp);
  }

  /** What packing has achieved. */
  ghost predicate Compressed(m0: seq<byte>, m: seq<byte>, at: nat, r: nat, name: Name) {
    |m| == |m0| && 0 < r && at + r <= |m| && m[..at] == m0[..at] && m[at + r..] == m0[at + r..] &&
    RunEnd(m, at) == at + r &&
    Spelled(m, at, at, at + r).Some? && SameName(Spelled(m, at, at, at + r).value, name)
  }

  /** k labels are written out; no suffix that starts with one of them was in the table. */
  ghost predicate Shortest(m: seq<byte>, ptrs: seq<int>, end: nat, at: nat, r: nat, name: Name, k: nat) {
    k <= |name| && r == |WireLabels(name[..k])| + (if k == |name| then 1 else 2) &&
    forall i :: 0 <= i < k ==> NotStored(m, ptrs, end, at, name[i..])
  }

  /** srcp is where the rest of the name begins in src. */
  ghost predicate Copying(src: seq<byte>, srcp: nat, name: Name, done: Name) {
    Legible(src, srcp) && NameAt(src, srcp).Some? && name == done + NameAt(src, srcp).value
  }

  lemma CopyingNext(src: seq<byte>, srcp: nat, name: Name, done: Name)
    requires Copying(src, srcp, name, done)
    ensures srcp < |src| && src[srcp] < 64 && Legible(src, srcp) && NameAt(src, srcp).Some?
    ensures |Wire(name)| >= |WireLabels(done)| + 1 + (if src[srcp] == 0 then 0 else src[srcp] + 1)
    ensures name[|done|..] == NameAt(src, srcp).value && done <= name && done + name[|done|..] == name
    ensures src[srcp] == 0 ==> name == done
    ensures src[srcp] != 0 ==>
              var q := srcp + 1 + src[srcp];
              q < |src| && Copying(src, q, name, done + [src[srcp + 1..q]]) && |done| < |name| &&
              NameAt(src, srcp).value != []
  {
    NameNotEnd(src, srcp);
    var rest := NameAt(src, srcp).value;
    if src[srcp] == 0 {
      assert done + [] == done;
      WireIsLabels(done);
    } else {
      var q := srcp + 1 + src[srcp];
      var l: Label := src[srcp + 1..q];
      var rest' := NameAt(src, q).value;
      assert done + ([l] + rest') == done + [l] + rest';
      WireLonger(done, l, rest');
    }
  }

  /** Can the new name be entered in the table? */
  predicate CanSave(last: int, end: nat, at: nat) {
    last != NULL && end < last - 1 && at < 0x4000
  }

  lemma PackedLabel(m0: seq<byte>, m: seq<byte>, m': seq<byte>, at: nat, dstp: nat, done: Name, l: Label)
    requires Packed(m0, m, at, dstp, done) && dstp + 1 + |l| <= |m|
    requires m' == m[..dstp] + [|l|] + l + m[dstp + 1 + |l|..]
    ensures Packed(m0, m', at, dstp + 1 + |l|, done + [l])
  {
    WireLabelsSnoc(done, l);
    hide WireLabels;
    var e := dstp + 1 + |l|;
    assert |m'| == |m|;
    assert m'[..at] == m[..at];
    assert m'[at..e] == m[at..dstp] + [|l|] + l;
    assert m'[e..] == m[e..] == m[dstp..][1 + |l|..] == m0[dstp..][1 + |l|..] == m0[e..];
  }

  /** Store n + 1 bytes of src: a label with its length. */
  method MoveLabel(msg: array<byte>, dstp: nat, src: seq<byte>, srcp: nat, n: byte)
    requires dstp + 1 + n <= msg.Length && srcp + 1 + n <= |src| && src[srcp] == n
    modifies msg
    ensures msg[..] == old(msg[..dstp]) + [n] + src[srcp + 1..srcp + 1 + n] + old(msg[dstp + 1 + n..])
  {
    Copy(msg, dstp, src, srcp, n + 1);
    assert src[srcp..srcp + 1 + n] == [n] + src[srcp + 1..srcp + 1 + n];
    assert msg[..] == msg[..dstp] + msg[dstp..dstp + 1 + n] + msg[dstp + 1 + n..];
  }

  lemma StoredNow(m0: seq<byte>, m: seq<byte>, p0: seq<int>, p: seq<int>, end: nat, cpp: nat, first: bool, at: nat)
    requires at <= |m| == |m0| && m[..at] == m0[..at] && AllStored(m0, p0, end, at) &&
             Tabled(p0, p, end, cpp, first, at)
    ensures |p| == |p0| && p[..end] == p0[..end] && forall c :: 1 <= c < end ==> Stored(m, p[c], at)
  {
    hide Spelled;
    forall c | 1 <= c < end ensures Stored(m, p[c], at) {
      assert p[c] == p0[c];
      StoredFrame(m0, m, p[c], at, at);
    }
  }

  lemma NotStoredNow(m0: seq<byte>, m: seq<byte>, p0: seq<int>, p: seq<int>, end: nat, at: nat, name: Name)
    requires at <= |m| == |m0| && m[..at] == m0[..at] && AllStored(m0, p0, end, at) && |p| == |p0| &&
             p[..end] == p0[..end]
    requires forall c, x :: 1 <= c < end && Visits(m, p[c], x) ==> Differs(m, x, at, name)
    ensures NotStored(m0, p0, end, at, name)
  {
    hide Spelled;
    hide Visits;
    hide SameName;
    forall c, x | 1 <= c < end && Visits(m, p0[c], x) ensures Differs(m, x, at, name) {
      assert p0[c] == p0[..end][c] == p[c];
    }
    NotStoredFrame(m0, m, p0, end, at, name);
  }

  /** Finish with a pointer to l, where what is left of the name is spelled. */
  method PutPointer(msg: array<byte>, at: nat, dstp: nat, l: nat, ghost m0: seq<byte>, ghost done: Name,
                    ghost rest: Name) returns (r: nat)
    requires dstp + 2 <= msg.Length && Packed(m0, msg[..], at, dstp, done)
    requires l < MAX_OFFSET && l < at && Stored(msg[..], l, at) && rest != [] &&
             SameName(Spelled(msg[..], l, l, at).value, rest)
    modifies msg
    ensures r == |WireLabels(done)| + 2 && Compressed(m0, msg[..], at, r, done + rest)
    ensures msg[at + r..] == old(msg[at + r..])
  {
    hide Spelled;
    hide SameName;
    hide WireLabels;
    hide RunEnd;
    ghost var m := msg[..];
    ghost var v := Spelled(m, l, l, at).value;
    SameEmpty(v, rest);
    StoredFrame(m, m0, l, at, at);
    msg[dstp] := l / 256 + 192;
    msg[dstp + 1] := l % 256;
    r := dstp + 2 - at;
    assert msg[..at] == m[..at] && msg[at..dstp] == m[at..dstp] && msg[dstp + 2..] == m[dstp + 2..] == m[dstp..][2..];
    PackedPointer(m0, msg[..], at, dstp, done, l, v);
    SameNameAppend(done, v, rest);
  }

  lemma OneReplaced(m: seq<byte>, m': seq<byte>, dstp: nat, at: nat)
    requires at <= dstp < |m| && m' == m[..dstp] + [0] + [] + m[dstp + 1..]
    ensures |m'| == |m| && m'[dstp] == 0 && m'[..at] == m[..at] && m'[at..dstp] == m[at..dstp]
    ensures m'[dstp + 1..] == m[dstp + 1..]
  {
  }

  /** The root label has been stored: the name is complete. */
  lemma RootMoved(m0: seq<byte>, m: seq<byte>, m': seq<byte>, at: nat, dstp: nat, done: Name)
    requires Packed(m0, m, at, dstp, done) && dstp < |m| && m' == m[..dstp] + [0] + [] + m[dstp + 1..]
    ensures Compressed(m0, m', at, dstp + 1 - at, done)
    ensures dstp + 1 - at == |Wire(done)| && m'[at..dstp + 1] == Wire(done)
  {
    hide Spelled;
    hide WireLabels;
    hide RunEnd;
    WireIsLabels(done);
    OneReplaced(m, m', dstp, at);
    assert m[dstp..][1..] == m[dstp + 1..] && m0[dstp + 1..] == m0[dstp..][1..];
    assert m'[at..dstp + 1] == m'[at..dstp] + [0];
    RootSpelled(m', at, dstp, done);
    SameItself(done);
  }

  lemma RootSpelled(m: seq<byte>, at: nat, dstp: nat, done: Name)
    requires at <= dstp == at + |WireLabels(done)| < |m| && m[at..dstp] == WireLabels(done) && m[dstp] == 0
    ensures Spelled(m, at, at, dstp + 1) == Some(done) && RunEnd(m, at) == dstp + 1
  {
    hide WireLabels;
    SpelledBehind(m, at, at, dstp + 1, done, dstp);
    assert done + [] == done;
  }

  lemma SameItself(a: Name)
    ensures SameName(a, a)
  {
  }

  /** The table and the search so far, when k labels are in the message. */
  ghost predicate TableState(m0: seq<byte>, p0: seq<int>, p: seq<int>, end: nat, cpp: nat, first: bool, at: nat,
                             last: int, name: Name, k: nat) {
    TableEnd(p0, end) && AllStored(m0, p0, end, at) && last <= |p0| && Tabled(p0, p, end, cpp, first, at) &&
    k <= |name| &&
    first == !(k > 0 && CanSave(last, end, at)) && forall i :: 0 <= i < k ==> NotStored(m0, p0, end, at, name[i..])
  }

  /** Look for the rest of the name; if it is not there, and nothing has been
      entered in the table yet, enter it. */
  method FindOrSave(src: seq<byte>, srcp: nat, msg: array<byte>, at: nat, dstp: nat, ptrs: array<int>, end: nat,
                    last: int, cpp: nat, first: bool,
        ghost m0: seq<byte>, ghost p0: seq<int>, ghost name: Name, ghost k: nat)
    returns (l: int, cpp': nat, first': bool)
    requires Legible(src, srcp) && NameAt(src, srcp).Some? && src[srcp] != 0 && k < |name| &&
             name[k..] == NameAt(src, srcp).value
    requires at <= dstp && at <= msg.Length == |m0| && msg[..at] == m0[..at] &&
             TableState(m0, p0, ptrs[..], end, cpp, first, at, last, name, k)
    requires k == 0 ==> dstp == at
    modifies ptrs
    ensures l >= 0 ==>
              l < 0x4000 && l < at && Stored(msg[..], l, at) &&
              SameName(Spelled(msg[..], l, l, at).value, name[k..])
    ensures l >= 0 ==> ptrs[..] == old(ptrs[..]) && cpp' == cpp && first' == first
    ensures l < 0 ==> TableState(m0, p0, ptrs[..], end, cpp', first', at, last, name, k + 1)
  {
    hide Spelled;
    hide NameAt;
    hide Legible;
    hide SameName;
    hide NotStored;
    hide Visits;
    cpp', first' := cpp, first;
    StoredNow(m0, msg[..], p0, ptrs[..], end, cpp, first, at);
    l := DnFind(src, srcp, msg[..], ptrs, 1, end, at);
    if l >= 0 {
      return;
    }
    NotStoredNow(m0, msg[..], p0, ptrs[..], end, at, name[k..]);
    // A later name may end like this one
    if last != NULL && cpp < last - 1 && dstp < MAX_OFFSET && first {
      ptrs[cpp] := dstp;
      cpp' := cpp + 1;
      ptrs[cpp'] := NULL;
      first' := false;
    }
  }

  /** Copy one label to the message. */
  method TakeLabel(src: seq<byte>, srcp: nat, msg: array<byte>, at: nat, dstp: nat, n: byte, ghost m0: seq<byte>,
                   ghost name: Name, ghost done: Name)
    requires Copying(src, srcp, name, done) && srcp < |src| && src[srcp] == n && dstp + 1 + n <= msg.Length &&
             Packed(m0, msg[..], at, dstp, done)
    modifies msg
    ensures n == 0 ==> name == done && Compressed(m0, msg[..], at, dstp + 1 - at, name)
    ensures n == 0 ==> dstp + 1 - at == |Wire(name)| && msg[at..dstp + 1] == Wire(name)
    ensures n != 0 ==>
              var q := srcp + 1 + n;
              q < |src| && 0 < n < 64 && Copying(src, q, name, done + [src[srcp + 1..q]]) &&
              Packed(m0, msg[..], at, dstp + 1 + n, done + [src[srcp + 1..q]])
  {
    hide Copying;
    hide Compressed;
    hide Wire;
    CopyingNext(src, srcp, name, done);
    ghost var m := msg[..];
    MoveLabel(msg, dstp, src, srcp, n);
    if n == 0 {
      RootMoved(m0, m, msg[..], at, dstp, done);
    } else {
      PackedLabel(m0, m, msg[..], at, dstp, done, src[srcp + 1..srcp + 1 + n]);
    }
  }

  /** Reset the table on error. */
  method Cleanup(ptrs: array<int>, end: nat, ghost m0: seq<byte>, ghost p0: seq<int>, ghost cpp: nat,
                 ghost first: bool, ghost at: nat, ghost last: int, ghost name: Name, ghost k: nat)
    requires TableState(m0, p0, ptrs[..], end, cpp, first, at, last, name, k)
    modifies ptrs
    ensures TableEnd(ptrs[..], end) && ptrs[..end] == p0[..end]
  {
    TableReset(m0, p0, ptrs[..], end, cpp, first, at, last, name, k);
    ghost var p := ptrs[..];
    ptrs[end] := NULL;
    assert ptrs[..] == p[end := NULL];
  }

  /** The second half of ns_name_pack: copy labels until what is left can be
      replaced by a pointer. */
  method PackLabels(src: seq<byte>, msg: array<byte>, at: nat, dstsiz: nat, ptrs: array?<int>, compress: bool,
                    end: nat, last: int, ghost name: Name) returns (r: int, ghost k: nat)
    requires Copying(src, 0, name, []) && at + dstsiz <= msg.Length
    requires compress ==>
               ptrs != null && TableEnd(ptrs[..], end) && AllStored(msg[..], ptrs[..], end, at) &&
               last <= ptrs.Length
    modifies msg, if ptrs == null then {} else {ptrs}
    ensures msg[..at] == old(msg[..at]) && msg[at + dstsiz..] == old(msg[at + dstsiz..])
    ensures r < 0 ==> r == -1 && dstsiz <= |Wire(name)|
    ensures r >= 0 ==> r <= dstsiz && Compressed(old(msg[..]), msg[..], at, r, name) && k <= |name|
    ensures !compress ==> (r >= 0 <==> |Wire(name)| < dstsiz) && (ptrs != null ==> ptrs[..] == old(ptrs[..]))
    ensures !compress && r >= 0 ==> r == |Wire(name)| && msg[at..at + r] == Wire(name)
    ensures compress && r >= 0 ==> Shortest(old(msg[..]), old(ptrs[..]), end, at, r, name, k)
    ensures compress && r >= 0 ==> var added := k > 0 && CanSave(last, end, at);
                                   Tabled(old(ptrs[..]), ptrs[..], end, if added then end + 1 else end, !added, at)
    ensures compress && r < 0 ==> TableEnd(ptrs[..], end) && ptrs[..end] == old(ptrs[..end])
  {
    hide Spelled;
    hide NameAt;
    hide Legible;
    hide Wire;
    hide WireLabels;
    hide SameName;
    hide Copying;
    hide NotStored;
    hide Packed;
    hide Compressed;
    hide TableState;
    hide TableEnd;
    hide AllStored;
    hide Tabled;
    hide Shortest;
    hide CanSave;
    var first, srcp: nat, dstp: nat, eob, cpp: nat := true, 0, at, at + dstsiz, end;
    ghost var m0, done: Name := msg[..], [];
    ghost var p0: seq<int> := if compress then ptrs[..] else [];
    PackedStart(m0, at);
    if compress { TableStart(m0, p0, end, at, last, name); }
    while true
      invariant Copying(src, srcp, name, done) && Packed(m0, msg[..], at, dstp, done) && dstp <= eob
      invariant compress ==> TableState(m0, p0, ptrs[..], end, cpp, first, at, last, name, |done|)
      invariant !compress && ptrs != null ==> ptrs[..] == old(ptrs[..])
      decreases |src| - srcp
    {
      CopyingNext(src, srcp, name, done);
      PackedFacts(m0, msg[..], at, dstp, done);
      TailKept(m0, msg[..], dstp, eob);
      // Is the rest of the name there already?
      var n := src[srcp];
      if n != 0 && compress {
        ghost var p1 := ptrs[..];
        var l;
        l, cpp, first := FindOrSave(src, srcp, msg, at, dstp, ptrs, end, last, cpp, first, m0, p0, name, |done|);
        if l >= 0 {
          if dstp + 1 >= eob {
            Cleanup(ptrs, end, m0, p0, cpp, first, at, last, name, |done|);
            return -1, 0;
          }
          r := PutPointer(msg, at, dstp, l, m0, done, name[|done|..]);
          CompressedTail(m0, msg[..], at, r, name, eob);
          TableDone(m0, p0, p1, end, cpp, first, at, last, name, done, r);
          k := |done|;
          return;
        }
      }
      // It is not: write the label out
      if dstp + 1 + n >= eob {
        if compress {
          Cleanup(ptrs, end, m0, p0, cpp, first, at, last, name, if n != 0 then |done| + 1 else |done|);
        }
        return -1, 0;
      }
      TakeLabel(src, srcp, msg, at, dstp, n, m0, name, done);
      if n == 0 {
        r := dstp + 1 - at;
        CompressedTail(m0, msg[..], at, r, name, eob);
        if compress { TableDone(m0, p0, ptrs[..], end, cpp, first, at, last, name, done, r); }
        k := |done|;
        return;
      }
      done := done + [src[srcp + 1..srcp + 1 + n]];
      srcp := srcp + n + 1;
      dstp := dstp + n + 1;
    }
  }

  lemma TableStart(m0: seq<byte>, p0: seq<int>, end: nat, at: nat, last: int, name: Name)
    requires TableEnd(p0, end) && AllStored(m0, p0, end, at) && last <= |p0|
    ensures TableState(m0, p0, p0, end, end, true, at, last, name, 0)
  {
  }

  lemma PackedFacts(m0: seq<byte>, m: seq<byte>, at: nat, dstp: nat, done: Name)
    requires Packed(m0, m, at, dstp, done)
    ensures |m| == |m0| && at <= dstp == at + |WireLabels(done)| <= |m| && m[..at] == m0[..at] &&
            m[dstp..] == m0[dstp..]
    ensures done == [] ==> dstp == at
  {
  }

  lemma TailKept(m0: seq<byte>, m: seq<byte>, a: nat, b: nat)
    requires a <= b <= |m| == |m0| && m[a..] == m0[a..]
    ensures m[b..] == m0[b..]
  {
    assert m[b..] == m[a..][b - a..] && m0[b..] == m0[a..][b - a..];
  }

  lemma CompressedTail(m0: seq<byte>, m: seq<byte>, at: nat, r: nat, name: Name, eob: nat)
    requires Compressed(m0, m, at, r, name) && at + r <= eob <= |m|
    ensures m[..at] == m0[..at] && m[eob..] == m0[eob..]
  {
    TailKept(m0, m, at + r, eob);
  }

  lemma TableReset(m0: seq<byte>, p0: seq<int>, p: seq<int>, end: nat, cpp: nat, first: bool, at: nat, last: int,
                   name: Name, k: nat)
    requires TableState(m0, p0, p, end, cpp, first, at, last, name, k)
    ensures end < |p| && TableEnd(p[end := NULL], end) && p[end := NULL][..end] == p0[..end]
  {
  }

  lemma TableDone(m0: seq<byte>, p0: seq<int>, p: seq<int>, end: nat, cpp: nat, first: bool, at: nat, last: int,
                  name: Name, done: Name, r: nat)
    requires TableState(m0, p0, p, end, cpp, first, at, last, name, |done|) && done <= name
    requires r == |WireLabels(done)| + if done == name then 1 else 2
    ensures Shortest(m0, p0, end, at, r, name, |done|)
    ensures var added := |done| > 0 && CanSave(last, end, at);
            Tabled(p0, p, end, if added then end + 1 else end, !added, at)
  {
    hide NotStored;
    assert name[..|done|] == done;
  }

  /** The name at the start of src is uncompressed and within the limits. */
  predicate LegalAt(src: seq<byte>) {
    Legible(src, 0) && NameAt(src, 0).Some? && Legal(NameAt(src, 0).value)
  }

  /** Is there a table to look names up in? */
  predicate Compressing(ptrs: seq<int>) {
    ptrs != [] && ptrs[0] != NULL
  }

  ghost function Contents(ptrs: array?<int>): seq<int>
    reads if ptrs == null then {} else {ptrs}
  {
    if ptrs == null then [] else ptrs[..]
  }

  /** Pack the name src into dstsiz bytes of the message from at on, pointing at
      names already there. */
  method NamePack(src: seq<byte>, msg: array<byte>, at: nat, dstsiz: nat, ptrs: array?<int>, last: int)
    returns (r: int, ghost k: nat)
    requires |src| > NS_MAXCDNAME || Legible(src, 0)
    requires at + dstsiz <= msg.Length
    requires ptrs != null ==> TableOK(msg[..], ptrs[..], at) && last <= ptrs.Length
    modifies msg, if ptrs == null then {} else {ptrs}
    ensures msg[..at] == old(msg[..at]) && msg[at + dstsiz..] == old(msg[at + dstsiz..])
    ensures r < 0 ==> r == -1 && (LegalAt(src) ==> dstsiz <= |Wire(NameAt(src, 0).value)|)
    ensures r >= 0 ==> LegalAt(src) && r <= dstsiz && Compressed(old(msg[..]), msg[..], at, r, NameAt(src, 0).value)
    ensures ptrs != null ==> TableOK(msg[..], ptrs[..], at + if r < 0 then 0 else r)
    ensures forall end: nat :: Compressing(old(Contents(ptrs))) && TableEnd(old(Contents(ptrs)), end) ==>
              if r < 0 then TableEnd(ptrs[..], end) && ptrs[..end] == old(ptrs[..end])
              else
                Shortest(old(msg[..]), old(ptrs[..]), end, at, r, NameAt(src, 0).value, k) &&
                (var added := k > 0 && CanSave(last, end, at);
                  Tabled(old(ptrs[..]), ptrs[..], end, if added then end + 1 else end, !added, at))
    ensures !Compressing(old(Contents(ptrs))) && r >= 0 ==> msg[at..at + r] == Wire(NameAt(src, 0).value)
    ensures !Compressing(old(Contents(ptrs))) ==> (r >= 0 <==> LegalAt(src) && |Wire(NameAt(src, 0).value)| < dstsiz)
  {
    hide Spelled;
    hide NameAt;
    hide Legible;
    hide Wire;
    hide WireLabels;
    hide Compressed;
    hide Shortest;
    hide Legal;
    var compress, end := false, 0;
    ghost var p0, m0 := Contents(ptrs), msg[..];
    if ptrs != null && ptrs[0] != NULL {
      compress := true;
      end := FindEnd(ptrs);
      OnlyEnd(m0, p0, at, end);
    }
    // Check labels and length before anything is written
    var ok := CheckLegal(src);
    if !ok {
      return -1, 0;
    }
    ghost var name := NameAt(src, 0).value;
    CopyingStart(src);
    r, k := PackLabels(src, msg, at, dstsiz, ptrs, compress, end, last, name);
    if compress {
      if r < 0 {
        TableBack(m0, msg[..], p0, ptrs[..], end, at);
      } else {
        TableGrown(m0, msg[..], p0, ptrs[..], end, at, r, name, k > 0 && CanSave(last, end, at));
      }
    }
  }

  lemma CopyingStart(src: seq<byte>)
    requires LegalAt(src)
    ensures Copying(src, 0, NameAt(src, 0).value, [])
  {
    assert [] + NameAt(src, 0).value == NameAt(src, 0).value;
  }

  /** Where the table ends. */
  method FindEnd(ptrs: array<int>) returns (end: nat)
    requires exists e: nat :: TableEnd(ptrs[..], e)
    ensures TableEnd(ptrs[..], end)
  {
    ghost var e: nat :| TableEnd(ptrs[..], e);
    end := 1;
    while ptrs[end] != NULL
      invariant 1 <= end <= e && forall c :: 1 <= c < end ==> ptrs[c] != NULL
      decreases e - end
    {
      end := end + 1;
    }
  }

  lemma OnlyEnd(m: seq<byte>, ptrs: seq<int>, at: nat, end: nat)
    requires TableOK(m, ptrs, at) && ptrs[0] != NULL && TableEnd(ptrs, end)
    ensures AllStored(m, ptrs, end, at) && forall e :: TableEnd(ptrs, e) ==> e == end
  {
    hide Spelled;
    forall e | TableEnd(ptrs, e) ensures e == end { }
  }

  lemma TableBack(m0: seq<byte>, m: seq<byte>, p0: seq<int>, p: seq<int>, end: nat, at: nat)
    requires TableOK(m0, p0, at) && p0[0] != NULL && TableEnd(p0, end) && at <= |m| == |m0| && m[..at] == m0[..at]
    requires TableEnd(p, end) && p[..end] == p0[..end]
    ensures TableOK(m, p, at)
  {
    hide Spelled;
    OnlyEnd(m0, p0, at, end);
    forall c | 1 <= c < end ensures Stored(m, p[c], at) {
      assert p[c] == p[..end][c] == p0[c];
      StoredFrame(m0, m, p[c], at, at);
    }
    assert AllStored(m, p, end, at);
  }

  lemma TableGrown(m0: seq<byte>, m: seq<byte>, p0: seq<int>, p: seq<int>, end: nat, at: nat, r: nat, name: Name,
                   added: bool)
    requires TableOK(m0, p0, at) && p0[0] != NULL && TableEnd(p0, end) && Compressed(m0, m, at, r, name)
    requires Tabled(p0, p, end, if added then end + 1 else end, !added, at)
    ensures TableOK(m, p, at + r)
  {
    hide Spelled;
    OnlyEnd(m0, p0, at, end);
    var end' := if added then end + 1 else end;
    assert TableEnd(p, end');
    forall c | 1 <= c < end' ensures Stored(m, p[c], at + r) {
      if c < end {
        assert p[c] == p0[c];
        StoredFrame(m0, m, p[c], at, at + r);
      }
    }
    assert AllStored(m, p, end', at + r);
  }

  // ---- dn_comp and dn_expand ----

  /** Text to compressed name. */
  method DnComp(src: seq<ch>, msg: array<byte>, at: nat, dstsiz: nat, ptrs: array?<int>, last: int)
    returns (r: int, ghost k: nat)
    requires at + dstsiz <= msg.Length
    requires ptrs != null ==> TableOK(msg[..], ptrs[..], at) && last <= ptrs.Length
    modifies msg, if ptrs == null then {} else {ptrs}
    ensures msg[..at] == old(msg[..at]) && msg[at + dstsiz..] == old(msg[at + dstsiz..])
    ensures Meaning(src).Bad? ==> r < 0
    ensures Meaning(src).Good? && |Wire(Meaning(src).name)| < dstsiz ==> r >= 0
    ensures r >= 0 ==> r <= dstsiz && Compressed(old(msg[..]), msg[..], at, r, Meaning(src).name)
    ensures ptrs != null ==> TableOK(msg[..], ptrs[..], at + if r < 0 then 0 else r)
    ensures forall end: nat :: Compressing(old(Contents(ptrs))) && TableEnd(old(Contents(ptrs)), end) ==>
              if r < 0 then TableEnd(ptrs[..], end) && ptrs[..end] == old(ptrs[..end])
              else
                Shortest(old(msg[..]), old(ptrs[..]), end, at, r, Meaning(src).name, k) &&
                (var added := k > 0 && CanSave(last, end, at);
                  Tabled(old(ptrs[..]), ptrs[..], end, if added then end + 1 else end, !added, at))
    ensures !Compressing(old(Contents(ptrs))) && r >= 0 ==> msg[at..at + r] == Wire(Meaning(src).name)
    ensures !Compressing(old(Contents(ptrs))) ==>
              (r >= 0 <==> Meaning(src).Good? && |Wire(Meaning(src).name)| < dstsiz)
  {
    hide Spelled;
    hide NameAt;
    hide Legible;
    hide Wire;
    hide Read;
    hide Compressed;
    hide Shortest;
    hide TableOK;
    var tmp := new byte[NS_MAXCDNAME];
    r := NamePton(src, tmp);
    k := 0;
    if r < 0 {
      MeaningFits(src);
      return;
    }
    ghost var name := Meaning(src).name;
    MeaningFits(src);
    ghost var w := Wire(name);
    assert tmp[..][0..] == tmp[..] && w == tmp[..][..|w|];
    NameAtWire(tmp[..], 0, name);
    r, k := NamePack(tmp[..], msg, at, dstsiz, ptrs, last);
  }

  lemma MeaningFits(src: seq<ch>)
    ensures Meaning(src).Good? ==> Legal(Meaning(src).name) && DnsText.Fits(Meaning(src), NS_MAXCDNAME)
  {
    ReadLegal(src, [], []);
  }

  /** The NUL-terminated string in dst is the text of name, and empty for the root. */
  ghost predicate Displays(dst: seq<byte>, name: Name) {
    |Shown(name)| < |dst| &&
    if name == [] then dst[0] == 0 else dst[..|Shown(name)|] == Shown(name) && dst[|Shown(name)|] == 0
  }

  /** Compressed name to text. */
  method DnExpand(m: seq<byte>, p: int, dst: array<byte>) returns (r: int)
    modifies dst
    ensures r < 0 ==> r == -1
    ensures r >= 0 ==> 0 <= p < |m| && r == RunEnd(m, p) - p
    ensures r >= 0 ==> exists name, jumps :: Follows(m, p, name, jumps) && Legal(name) && Displays(dst[..], name)
    ensures 0 <= p && Spelled(m, p, p, |m|).Some? ==>
              var name := Spelled(m, p, p, |m|).value;
              (r >= 0 <==> Legal(name) && |Shown(name)| < dst.Length) && (r >= 0 ==> Displays(dst[..], name))
  {
    hide Spelled;
    hide NameAt;
    hide Legible;
    hide Wire;
    hide Follows;
    hide ShownLabels;
    hide ShownBytes;
    var tmp := new byte[NS_MAXCDNAME];
    var n := NameUnpack(m, p, tmp);
    if n < 0 {
      return n;
    }
    ghost var name, jumps :| Follows(m, p, name, jumps) && |Wire(name)| <= tmp.Length &&
      tmp[..|Wire(name)|] == Wire(name);
    assert tmp[..][0..] == tmp[..] && Wire(name) == tmp[..][..|Wire(name)|];
    NameAtWire(tmp[..], 0, name);
    if Spelled(m, p, p, |m|).Some? {
      ghost var v := Spelled(m, p, p, |m|).value;
      assert Wire(v) == tmp[..][..|Wire(v)|];
      NameAtWire(tmp[..], 0, v);
    }
    ShownStart(name);
    var rc := NameNtop(tmp[..], dst);
    if rc < 0 {
      return rc;
    }
    RunGoesOn(m, p);
    if n > 0 && dst[0] == DOT {
      dst[0] := 0;
    }
    assert Displays(dst[..], name);
    return n;
  }

  lemma RunGoesOn(m: seq<byte>, p: nat)
    requires p < |m|
    ensures RunEnd(m, p) > p
    decreases |m| - p
  {
    if 0 < m[p] < 64 && p + 1 + m[p] < |m| { RunGoesOn(m, p + 1 + m[p]); }
  }

  /** Only the root is shown with a leading dot. */
  lemma ShownStart(name: Name)
    ensures |Shown(name)| > 0 && (Shown(name)[0] == DOT <==> name == [])
  {
  }

  // ---- The round trip ----

  lemma SameEscaped(a: byte, b: byte)
    requires SameLetter(a, b)
    ensures SameLabel(Escaped(a), Escaped(b))
  {
  }

  lemma SameConcat(a: seq<byte>, b: seq<byte>, c: seq<byte>, d: seq<byte>)
    requires SameLabel(a, b) && SameLabel(c, d)
    ensures SameLabel(a + c, b + d)
  {
    var x, y := a + c, b + d;
    forall k | 0 <= k < |x| ensures SameLetter(x[k], y[k]) {
      if k >= |a| { assert x[k] == c[k - |a|] && y[k] == d[k - |a|]; }
    }
  }

  lemma {:induction false} SameBytesShown(a: seq<byte>, b: seq<byte>)
    requires SameLabel(a, b)
    ensures SameLabel(ShownBytes(a), ShownBytes(b))
  {
    if a != [] {
      SameEscaped(a[0], b[0]);
      SameBytesShown(a[1..], b[1..]);
      SameConcat(Escaped(a[0]), Escaped(b[0]), ShownBytes(a[1..]), ShownBytes(b[1..]));
    }
  }

  /** Names alike up to case have wire forms of the same length, and texts alike up to case. */
  lemma {:induction false} SameShown(a: Name, b: Name)
    requires SameName(a, b)
    ensures |Wire(a)| == |Wire(b)| && SameLabel(ShownLabels(a), ShownLabels(b))
  {
    if a != [] {
      SameNameSplit(a, b);
      SameBytesShown(a[0], b[0]);
      SameShown(a[1..], b[1..]);
      hide SameLabel;
      if |a| > 1 {
        assert SameLabel([DOT], [DOT]) by { SameDot(); }
        SameConcat(ShownBytes(a[0]), ShownBytes(b[0]), [DOT], [DOT]);
        SameConcat(ShownBytes(a[0]) + [DOT], ShownBytes(b[0]) + [DOT], ShownLabels(a[1..]), ShownLabels(b[1..]));
      }
    }
  }

  lemma SameDot()
    ensures SameLabel([DOT], [DOT])
  {
  }

  /** Compressing a name and expanding it again gives the same text up to case,
      and both agree on the number of bytes it takes. */
  method CompExpand(src: seq<ch>, msg: array<byte>, at: nat, dstsiz: nat, ptrs: array?<int>, last: int,
                    dst: array<byte>) returns (r: int, n: int)
    requires at + dstsiz <= msg.Length && dst != msg
    requires ptrs != null ==> TableOK(msg[..], ptrs[..], at) && last <= ptrs.Length
    modifies msg, dst, if ptrs == null then {} else {ptrs}
    ensures r >= 0 ==>
              Meaning(src).Good? && (n >= 0 <==> |Shown(Meaning(src).name)| < dst.Length) &&
              (n >= 0 ==> n == r)
    ensures r >= 0 && n >= 0 && Meaning(src).name != [] ==>
              var t := Shown(Meaning(src).name);
              SameLabel(dst[..|t|], t) && dst[|t|] == 0
    ensures r >= 0 && n >= 0 && Meaning(src).name == [] ==> dst[0] == 0
  {
    hide Spelled;
    hide Wire;
    hide Read;
    hide TableOK;
    hide ShownLabels;
    hide SameLabel;
    hide RunEnd;
    ghost var k;
    r, k := DnComp(src, msg, at, dstsiz, ptrs, last);
    n := 0;
    if r < 0 {
      return;
    }
    MeaningFits(src);
    ghost var name, m := Meaning(src).name, msg[..];
    ghost var v := Spelled(m, at, at, at + r).value;
    SpelledWider(m, at, at, at + r, at, |m|);
    SameShown(v, name);
    SameEmpty(v, name);
    SameSize(ShownLabels(v), ShownLabels(name));
    n := DnExpand(msg[..], at, dst);
  }

  lemma SameSize(a: seq<byte>, b: seq<byte>)
    requires SameLabel(a, b)
    ensures |a| == |b|
  {
  }
}
