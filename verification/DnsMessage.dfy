/** Compressed names in a message (RFC 1035 section 4.1.4): what the bytes at an
    offset spell. */
module DnsMessage {
  import opened CTypes
  import opened DnsName
  import opened DnsText

  /** Where the compression pointer at p points. */
  function Target(m: seq<byte>, p: nat): nat
    requires p + 2 <= |m| && m[p] >= 192
  {
    (m[p] as int - 192) * 256 + m[p + 1]
  }

  /** The name spelled at p by bytes below hi. Every pointer leads strictly
      backwards: to before low, where the current run of labels started, and
      what it points at ends before low, too. No pointer leads to the root. */
  function Spelled(m: seq<byte>, low: nat, p: nat, hi: nat): Option<Name>
    decreases low, hi - p
  {
    if !(low <= p < hi <= |m|) then None
    else if m[p] == 0 then Some([])
    else if m[p] < 64 then
      var q := p + 1 + m[p];
      if q >= hi then None
      else
        var l: Label := m[p + 1..q];
        match Spelled(m, low, q, hi)
        case None => None
        case Some(name) => Some([l] + name)
    else if m[p] < 192 || p + 2 > hi || Target(m, p) >= low then None
    else
      match Spelled(m, Target(m, p), Target(m, p), low)
      case None => None
      case Some(name) => if name == [] then None else Some(name)
  }

  /** Where the run of labels at p ends: after its root label or pointer. */
  function RunEnd(m: seq<byte>, p: nat): nat
    decreases |m| - p
  {
    if p >= |m| then p
    else if m[p] == 0 then p + 1
    else if m[p] < 64 then RunEnd(m, p + 1 + m[p])
    else p + 2
  }

  /** The name does not depend on bytes from hi on. */
  lemma {:induction false} SpelledFrame(m: seq<byte>, m': seq<byte>, low: nat, p: nat, hi: nat)
    requires hi <= |m| && hi <= |m'| && m[..hi] == m'[..hi]
    ensures Spelled(m, low, p, hi) == Spelled(m', low, p, hi)
    decreases low, hi - p
  {
    if low <= p < hi {
      assert m[p] == m[..hi][p] == m'[p];
      if 0 < m[p] < 64 {
        var q := p + 1 + m[p];
        if q < hi {
          SameSlice(m, m', hi, p + 1, q);
          SpelledFrame(m, m', low, q, hi);
        }
      } else if m[p] >= 192 && p + 2 <= hi {
        assert m[p + 1] == m[..hi][p + 1] == m'[p + 1];
        if Target(m, p) < low {
          SameSlice(m, m', hi, 0, low);
          SpelledFrame(m, m', Target(m, p), Target(m, p), low);
        }
      }
    }
  }

  lemma SameSlice(m: seq<byte>, m': seq<byte>, hi: nat, a: nat, b: nat)
    requires hi <= |m| && hi <= |m'| && m[..hi] == m'[..hi] && a <= b <= hi
    ensures m[a..b] == m'[a..b]
  {
    assert m[a..b] == m[..hi][a..b] && m'[a..b] == m'[..hi][a..b];
  }

  /** A name is also spelled within wider bounds. */
  lemma {:induction false} SpelledWider(m: seq<byte>, low: nat, p: nat, hi: nat, low': nat, hi': nat)
    requires Spelled(m, low, p, hi).Some? && low <= low' <= p && hi <= hi' <= |m|
    ensures Spelled(m, low', p, hi') == Spelled(m, low, p, hi)
    decreases low, hi - p
  {
    if 0 < m[p] < 64 {
      SpelledWider(m, low, p + 1 + m[p], hi, low', hi');
    } else if m[p] >= 192 {
      SpelledWider(m, Target(m, p), Target(m, p), low, Target(m, p), low');
    }
  }

  /** The two bytes of a pointer: two bits set, then 14 bits of offset. */
  lemma PointerSpelled(m: seq<byte>, low: nat, p: nat, hi: nat, k: nat)
    requires low <= p && p + 2 <= hi <= |m| && k < low && k < 0x4000
    requires m[p] == 0xC0 + k / 256 && m[p + 1] == k % 256
    requires Spelled(m, k, k, low).Some? && m[k] != 0
    ensures Spelled(m, low, p, hi) == Spelled(m, k, k, low)
  {
    assert Target(m, p) == k;
  }

  /** One label in front of a spelled name. */
  lemma SpelledLabel(m: seq<byte>, low: nat, p: nat, hi: nat, l: Label, q: nat)
    requires low <= p && q == p + 1 + |l| < hi <= |m| && m[p] == |l| && m[p + 1..q] == l
    ensures Spelled(m, low, p, hi) == match Spelled(m, low, q, hi) case None => None case Some(name) => Some([l] + name)
    ensures RunEnd(m, p) == RunEnd(m, q)
  {
  }

  const F: Label := ['F' as int]
  const ISI: Label := ['I' as int, 'S' as int, 'I' as int]
  const ARPA: Label := ['A' as int, 'R' as int, 'P' as int, 'A' as int]
  const FOO: Label := ['F' as int, 'O' as int, 'O' as int]

  lemma RootHere(m: seq<byte>, low: nat, p: nat, hi: nat)
    requires low <= p < hi <= |m| && m[p] == 0
    ensures Spelled(m, low, p, hi) == Some([])
  {
  }

  lemma LabelsSpelled(m: seq<byte>, hi: nat)
    requires 32 <= hi <= |m| && m[20] == 1 && m[21..22] == F && m[22] == 3 && m[23..26] == ISI && m[26] == 4
    requires m[27..31] == ARPA && m[31] == 0
    ensures Spelled(m, 20, 20, hi) == Some([F, ISI, ARPA]) && Spelled(m, 26, 26, hi) == Some([ARPA])
  {
    hide Spelled;
    assert [ARPA] + [] == [ARPA] && [ISI] + [ARPA] == [ISI, ARPA] && [F] + [ISI, ARPA] == [F, ISI, ARPA];
    RootHere(m, 20, 31, hi);
    SpelledLabel(m, 20, 26, hi, ARPA, 31);
    SpelledLabel(m, 20, 22, hi, ISI, 26);
    SpelledLabel(m, 20, 20, hi, F, 22);
    RootHere(m, 26, 31, hi);
    SpelledLabel(m, 26, 26, hi, ARPA, 31);
  }

  /** The example of RFC 1035 section 4.1.4: F.ISI.ARPA at 20, FOO and a pointer
      to it at 40, a pointer to its last label at 64, and the root at 92. */
  lemma SectionExample(m: seq<byte>)
    requires |m| == 93 && m[20] == 1 && m[21..22] == F && m[22] == 3 && m[23..26] == ISI && m[26] == 4
    requires m[27..31] == ARPA && m[31] == 0 && m[40] == 3 && m[41..44] == FOO && m[44] == 0xC0 && m[45] == 20
    requires m[64] == 0xC0 && m[65] == 26 && m[92] == 0
    ensures Spelled(m, 20, 20, 93) == Some([F, ISI, ARPA]) && Spelled(m, 40, 40, 93) == Some([FOO, F, ISI, ARPA])
    ensures Spelled(m, 64, 64, 93) == Some([ARPA]) && Spelled(m, 92, 92, 93) == Some([])
  {
    hide Spelled;
    assert [FOO] + [F, ISI, ARPA] == [FOO, F, ISI, ARPA];
    LabelsSpelled(m, 93);
    LabelsSpelled(m, 40);
    PointerSpelled(m, 40, 44, 93, 20);
    SpelledLabel(m, 40, 40, 93, FOO, 44);
    LabelsSpelled(m, 64);
    PointerSpelled(m, 64, 64, 93, 26);
    RootHere(m, 92, 92, 93);
  }

  /** Labels in front of a spelled name. */
  lemma {:induction false} SpelledBehind(m: seq<byte>, low: nat, p: nat, hi: nat, done: Name, q: nat)
    requires low <= p <= q < hi <= |m| && q == p + |WireLabels(done)| && m[p..q] == WireLabels(done)
    ensures Spelled(m, low, p, hi) == match Spelled(m, low, q, hi) case None => None
            case Some(name) => Some(done + name)
    ensures RunEnd(m, p) == RunEnd(m, q)
    decreases |done|
  {
    hide Spelled;
    hide RunEnd;
    var o := Spelled(m, low, q, hi);
    if done == [] {
      if o.Some? { assert [] + o.value == o.value; }
    } else {
      var l, w := done[0], WireLabels(done[1..]);
      var p' := p + 1 + |l|;
      assert WireLabels(done) == [|l|] + l + w;
      hide WireLabels;
      WireLabelParts(m, p, q, l, w);
      SpelledLabel(m, low, p, hi, l, p');
      SpelledBehind(m, low, p', hi, done[1..], q);
      if o.Some? { assert [l] + (done[1..] + o.value) == done + o.value; }
    }
  }

  lemma WireLabelParts(m: seq<byte>, p: nat, q: nat, l: Label, w: seq<byte>)
    requires p <= q <= |m| && m[p..q] == [|l|] + l + w
    ensures p + 1 + |l| + |w| == q && m[p] == |l| && m[p + 1..p + 1 + |l|] == l && m[p + 1 + |l|..q] == w
  {
    var u, e := m[p..q], 1 + |l|;
    assert |u| == e + |w|;
    assert u[0] == |l| && u[1..e] == l && u[e..] == w;
    SubSlice(m, p, q, 1, e);
    SubSlice(m, p, q, e, |u|);
  }

  lemma SubSlice(m: seq<byte>, p: nat, q: nat, a: nat, b: nat)
    requires p <= q <= |m| && a <= b <= q - p
    ensures m[p..q][a..b] == m[p + a..p + b]
  {
    forall k | 0 <= k < b - a ensures m[p..q][a..b][k] == m[p + a..p + b][k] {
      assert m[p..q][a + k] == m[p + (a + k)];
    }
  }

  // ---- Equality up to ASCII case ----

  function Lower(c: byte): byte {
    if 0x41 <= c <= 0x5A then c + 0x20 else c
  }

  /** The same byte, or one is a capital letter and the other is 32 above it. */
  predicate SameLetter(a: byte, b: byte) {
    a == b || (0x41 <= a <= 0x5A && b == a + 0x20) || (0x41 <= b <= 0x5A && a == b + 0x20)
  }

  lemma LowerSame(a: byte, b: byte)
    ensures Lower(a) == Lower(b) <==>
            a == b || ('A' as int <= a <= 'Z' as int && b == a + 32) || ('A' as int <= b <= 'Z' as int && a == b + 32)
    ensures Lower(a) == Lower(b) <==> SameLetter(a, b)
  {
  }

  predicate SameLabel(a: seq<byte>, b: seq<byte>) {
    |a| == |b| && forall k :: 0 <= k < |a| ==> SameLetter(a[k], b[k])
  }

  predicate SameName(a: Name, b: Name) {
    |a| == |b| && forall k :: 0 <= k < |a| ==> SameLabel(a[k], b[k])
  }

  lemma SameNameSplit(a: Name, b: Name)
    requires a != [] && b != []
    ensures SameName(a, b) <==> SameLabel(a[0], b[0]) && SameName(a[1..], b[1..])
  {
    if SameLabel(a[0], b[0]) && SameName(a[1..], b[1..]) {
      forall k | 0 <= k < |a| ensures SameLabel(a[k], b[k]) {
        if k > 0 { assert a[k] == a[1..][k - 1] && b[k] == b[1..][k - 1]; }
      }
    }
    if SameName(a, b) {
      assert forall k :: 0 <= k < |a| - 1 ==> a[1..][k] == a[k + 1] && b[1..][k] == b[k + 1];
    }
  }

  lemma SameNameAppend(a: Name, b: Name, c: Name)
    requires SameName(b, c)
    ensures SameName(a + b, a + c)
  {
    var x, y := a + b, a + c;
    forall k | 0 <= k < |x| ensures SameLabel(x[k], y[k]) {
      if k >= |a| { assert SameLabel(b[k - |a|], c[k - |a|]); }
    }
  }

  /** Byte by byte: only letters may differ, and only in case. */
  lemma SameNameIs(a: Name, b: Name)
    ensures SameName(a, b) <==>
            |a| == |b| && forall i :: 0 <= i < |a| ==>
              |a[i]| == |b[i]| && forall k :: 0 <= k < |a[i]| ==>
                var x, y := a[i][k], b[i][k];
                x == y || ('A' as int <= x <= 'Z' as int && y == x + 32) ||
                ('A' as int <= y <= 'Z' as int && x == y + 32)
  {
  }

  // ---- dn_find ----

  /** Compare n bytes, ignoring case. */
  method SameBytes(m: seq<byte>, cp: nat, src: seq<byte>, dn: nat, n: nat) returns (same: bool)
    requires cp + n <= |m| && dn + n <= |src|
    ensures same <==> SameLabel(m[cp..cp + n], src[dn..dn + n])
  {
    var k := 0;
    while k < n
      invariant 0 <= k <= n
      invariant SameLabel(m[cp..cp + k], src[dn..dn + k])
    {
      LowerSame(m[cp + k], src[dn + k]);
      if Lower(src[dn + k]) != Lower(m[cp + k]) {
        assert !SameLetter(m[cp..cp + n][k], src[dn..dn + n][k]);
        return false;
      }
      k := k + 1;
      assert m[cp..cp + k] == m[cp..cp + k - 1] + [m[cp + k - 1]] &&
             src[dn..dn + k] == src[dn..dn + k - 1] + [src[dn + k - 1]];
    }
    return true;
  }

  /** Is the name at sp in the message that at dp in src, up to case? */
  method SameAt(m: seq<byte>, sp: nat, ghost hi: nat, src: seq<byte>, dp: nat) returns (same: bool)
    requires Spelled(m, sp, sp, hi).Some? && Legible(src, dp) && NameAt(src, dp).Some? && src[dp] != 0
    ensures same <==> SameName(Spelled(m, sp, sp, hi).value, NameAt(src, dp).value)
  {
    hide SameLabel;
    hide Spelled;
    hide NameAt;
    hide Legible;
    hide SameName;
    var dn: nat, cp: nat := dp, sp;
    ghost var low: nat, top: nat := sp, hi;
    NotEnd(m, low, cp, top);
    NameNotEnd(src, dn);
    while m[cp] != 0
      invariant Spelled(m, low, cp, top).Some? && Legible(src, dn) && NameAt(src, dn).Some? && dn < |src| &&
                src[dn] != 0
      invariant SameName(Spelled(m, sp, sp, hi).value, NameAt(src, dp).value) <==>
                SameName(Spelled(m, low, cp, top).value, NameAt(src, dn).value)
      invariant cp < top <= |m|
      decreases low, top - cp
    {
      NotEnd(m, low, cp, top);
      NameNotEnd(src, dn);
      var n := m[cp];
      if n < 64 {
        var q := cp + 1 + n;
        Heads(m, low, cp, top, src, dn);
        if n != src[dn] {
          DifferentLength(m[cp + 1..q], src[dn + 1..dn + 1 + src[dn]]);
          return false;
        }
        var s := SameBytes(m, cp + 1, src, dn + 1, n);
        if !s {
          return false;
        }
        dn := dn + 1 + n;
        cp := q;
        NotEnd(m, low, cp, top);
        NameNotEnd(src, dn);
        SameEmpty(Spelled(m, low, cp, top).value, NameAt(src, dn).value);
        // Do both names end here?
        if src[dn] == 0 && m[cp] == 0 {
          return true;
        }
        if src[dn] == 0 {
          return false;
        }
      } else {
        low, top, cp := Target(m, cp), low, (n as int - 192) * 256 + m[cp + 1];
        NotEnd(m, low, cp, top);
      }
    }
    NotEnd(m, low, cp, top);
    NameNotEnd(src, dn);
    SameEmpty(Spelled(m, low, cp, top).value, NameAt(src, dn).value);
    return false;
  }

  lemma NotEnd(m: seq<byte>, low: nat, p: nat, hi: nat)
    requires Spelled(m, low, p, hi).Some?
    ensures low <= p < hi <= |m|
    ensures 64 <= m[p] ==> 192 <= m[p] && p + 2 <= hi && Target(m, p) < low
    ensures 64 <= m[p] ==> Spelled(m, Target(m, p), Target(m, p), low) == Spelled(m, low, p, hi)
    ensures m[p] == 0 <==> Spelled(m, low, p, hi).value == []
    ensures 0 < m[p] < 64 ==> p + 1 + m[p] < hi && Spelled(m, low, p + 1 + m[p], hi).Some?
  {
  }

  lemma NameNotEnd(src: seq<byte>, p: nat)
    requires Legible(src, p) && NameAt(src, p).Some?
    ensures p < |src| && src[p] < 64 && (src[p] == 0 <==> NameAt(src, p).value == [])
    ensures src[p] != 0 ==> p + 1 + src[p] < |src| && Legible(src, p + 1 + src[p]) && NameAt(src, p + 1 + src[p]).Some?
  {
    if src[p] != 0 { assert Legible(src, p + 1 + src[p]); }
  }

  /** Both names start with a label; they are the same if these are and the rests are. */
  lemma Heads(m: seq<byte>, low: nat, cp: nat, top: nat, src: seq<byte>, dn: nat)
    requires Spelled(m, low, cp, top).Some? && 0 < m[cp] < 64 && Legible(src, dn) && NameAt(src, dn).Some? &&
             src[dn] != 0
    ensures var a, b := Spelled(m, low, cp, top).value, NameAt(src, dn).value;
            var a', b' := Spelled(m, low, cp + 1 + m[cp], top).value, NameAt(src, dn + 1 + src[dn]).value;
            SameName(a, b) <==> SameLabel(m[cp + 1..cp + 1 + m[cp]], src[dn + 1..dn + 1 + src[dn]]) && SameName(a', b')
  {
    var a, b := Spelled(m, low, cp, top).value, NameAt(src, dn).value;
    assert Legible(src, dn + 1 + src[dn]);
    assert a[1..] == Spelled(m, low, cp + 1 + m[cp], top).value;
    assert b[1..] == NameAt(src, dn + 1 + src[dn]).value;
    SameNameSplit(a, b);
  }

  lemma DifferentLength(a: seq<byte>, b: seq<byte>)
    requires |a| != |b|
    ensures !SameLabel(a, b)
  {
  }

  /** The empty name is only like itself. */
  lemma SameEmpty(a: Name, b: Name)
    ensures a == [] || b == [] ==> (SameName(a, b) <==> a == b)
  {
  }
}
