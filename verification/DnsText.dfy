/** ns_name_ntop and ns_name_pton: between the wire form in memory and the text
    form of a domain name. */
module DnsText {
  import opened CTypes
  import opened DnsName

  datatype Option<T> = None | Some(value: T)

  // ---- A wire name in memory ----

  /** All bytes that following the labels from p looks at exist. */
  predicate Legible(src: seq<byte>, p: nat)
    decreases |src| - p
  {
    p < |src| && (src[p] == 0 || src[p] >= 64 || Legible(src, p + 1 + src[p]))
  }

  /** The uncompressed name at p, if all its length bytes are below 64. */
  function NameAt(src: seq<byte>, p: nat): Option<Name>
    requires Legible(src, p)
    decreases |src| - p
  {
    if src[p] == 0 then Some([])
    else if src[p] >= 64 then None
    else
      var q := p + 1 + src[p];
      assert Legible(src, q);
      var l: Label := src[p + 1..q];
      match NameAt(src, q)
      case None => None
      case Some(name) => Some([l] + name)
  }

  /** NameAt is the inverse of Wire. */
  lemma {:induction false} NameAtWire(src: seq<byte>, p: nat, name: Name)
    requires p <= |src| && Wire(name) <= src[p..]
    ensures Legible(src, p) && NameAt(src, p) == Some(name)
    decreases |name|
  {
    var w := Wire(name);
    assert src[p] == src[p..][0] == w[0];
    if name != [] {
      var l, v := name[0], Wire(name[1..]);
      assert w == [|l|] + l + v;
      var q := p + 1 + |l|;
      WireParts(src, p, l, v);
      assert name == [l] + name[1..];
      NameAtWire(src, q, name[1..]);
    }
  }

  lemma WireParts(src: seq<byte>, p: nat, l: Label, v: seq<byte>)
    requires p <= |src| && [|l|] + l + v <= src[p..]
    ensures p + 1 + |l| <= |src| && src[p] == |l| && src[p + 1..p + 1 + |l|] == l && v <= src[p + 1 + |l|..]
  {
    var w, q, u := [|l|] + l + v, p + 1 + |l|, src[p..];
    assert u[0] == w[0] && u[1..1 + |l|] == w[1..1 + |l|] == l;
    assert u[1 + |l|..] == src[q..] && v == w[1 + |l|..] <= u[1 + |l|..];
  }

  /** And the other way round. */
  lemma {:induction false} WireAtName(src: seq<byte>, p: nat)
    requires Legible(src, p) && NameAt(src, p).Some?
    ensures Wire(NameAt(src, p).value) <= src[p..]
    decreases |src| - p
  {
    if src[p] != 0 {
      var q := p + 1 + src[p];
      WireAtName(src, q);
      var v := Wire(NameAt(src, q).value);
      assert src[p..] == [src[p]] + src[p + 1..q] + src[q..];
    }
  }

  /** The text is at least as long as that of the first labels. */
  lemma {:induction false} ShownLonger(a: Name, l: Label, b: Name)
    ensures |ShownLabels(a + [l] + b)| >= |ShownLabels(a)| + (if a == [] then 0 else 1) + |ShownBytes(l)|
    decreases |b|
  {
    ShownLabelsSnoc(a, l);
    assert ShownLabels([]) == [];
    hide ShownLabels;
    hide ShownBytes;
    if b == [] {
      assert a + [l] + b == a + [l];
    } else {
      var a' := a + [l];
      ShownLonger(a', b[0], b[1..]);
      Regrouped(a', b);
    }
  }

  lemma Regrouped<T>(a: seq<T>, b: seq<T>)
    requires b != []
    ensures a + [b[0]] + b[1..] == a + b
  {
  }

  // ---- ns_name_ntop ----

  /** Write one byte of a label. */
  method PutByte(c: byte, dst: array<byte>, at: nat) returns (dn: int)
    requires at <= dst.Length
    modifies dst
    ensures dst[..at] == old(dst[..at])
    ensures if at + |Escaped(c)| <= dst.Length
            then dn == at + |Escaped(c)| && dst[..dn] == old(dst[..at]) + Escaped(c)
            else dn == -1
  {
    dn := at;
    if Special(c) {
      if dn + 1 >= dst.Length {
        return -1;
      }
      dst[dn] := BACKSLASH;
      dst[dn + 1] := c;
      dn := dn + 2;
    } else if !Printable(c) {
      if dn + 3 >= dst.Length {
        return -1;
      }
      dst[dn] := BACKSLASH;
      dst[dn + 1] := c / 100 + ZERO;
      dst[dn + 2] := c % 100 / 10 + ZERO;
      dst[dn + 3] := c % 10 + ZERO;
      dn := dn + 4;
    } else {
      if dn >= dst.Length {
        return -1;
      }
      dst[dn] := c;
      dn := dn + 1;
    }
  }

  /** Write the bytes of a label. */
  method PutLabel(l: seq<byte>, dst: array<byte>, at: nat) returns (dn: int)
    requires at <= dst.Length
    modifies dst
    ensures if at + |ShownBytes(l)| <= dst.Length
            then dn == at + |ShownBytes(l)| && dst[..dn] == old(dst[..at]) + ShownBytes(l)
            else dn == -1
  {
    hide Escaped;
    hide ShownBytes;
    dn := at;
    var k := 0;
    ShownNothing();
    while k < |l|
      invariant 0 <= k <= |l| && at <= dn <= dst.Length
      invariant dn == at + |ShownBytes(l[..k])| && dst[..dn] == old(dst[..at]) + ShownBytes(l[..k])
    {
      ShownBytesSnoc(l[..k], l[k]);
      assert l[..k + 1] == l[..k] + [l[k]];
      ShownRest(l, k + 1);
      dn := PutByte(l[k], dst, dn);
      if dn < 0 {
        return;
      }
      k := k + 1;
    }
    assert l[..k] == l;
  }

  lemma ShownNothing()
    ensures ShownBytes([]) == []
  {
  }

  lemma {:induction false} ShownRest(l: seq<byte>, k: nat)
    requires k <= |l|
    ensures |ShownBytes(l[..k])| <= |ShownBytes(l)|
    decreases |l| - k
  {
    if k == |l| {
      assert l[..k] == l;
    } else {
      ShownBytesSnoc(l[..k], l[k]);
      assert l[..k + 1] == l[..k] + [l[k]];
      ShownRest(l, k + 1);
    }
  }

  /** The rest of the name at cp follows the labels of done. */
  ghost predicate After(src: seq<byte>, cp: nat, done: Name) {
    Legible(src, 0) && Legible(src, cp) &&
    NameAt(src, 0) == match NameAt(src, cp) case None => None case Some(rest) => Some(done + rest)
  }

  lemma AfterNext(src: seq<byte>, cp: nat, done: Name)
    requires After(src, cp, done) && 0 < src[cp] < 64
    ensures var q := cp + 1 + src[cp]; q < |src| && After(src, q, done + [src[cp + 1..q]])
    ensures NameAt(src, 0).Some? ==>
              |ShownLabels(NameAt(src, 0).value)| >= |ShownLabels(done)| + (if done == [] then 0 else 1) +
              |ShownBytes(src[cp + 1..cp + 1 + src[cp]])|
  {
    var q := cp + 1 + src[cp];
    assert Legible(src, q);
    var l: Label := src[cp + 1..q];
    if NameAt(src, q).Some? {
      var rest := NameAt(src, q).value;
      assert done + ([l] + rest) == done + [l] + rest;
      ShownLonger(done, l, rest);
    }
  }

  /** Convert an encoded name to printable text. Fails exactly when there is no
      uncompressed name, or no room for its text and the closing NUL. */
  method NameNtop(src: seq<byte>, dst: array<byte>) returns (r: int)
    requires Legible(src, 0)
    modifies dst
    ensures r >= 0 <==> NameAt(src, 0).Some? && |Shown(NameAt(src, 0).value)| + 1 <= dst.Length
    ensures r < 0 ==> r == -1
    ensures r >= 0 ==>
              r == |Shown(NameAt(src, 0).value)| + 1 && dst[..r - 1] == Shown(NameAt(src, 0).value) &&
              dst[r - 1] == 0
  {
    hide ShownLabels;
    hide ShownBytes;
    hide Escaped;
    hide After;
    hide NameAt;
    hide Legible;
    var cp, dn: int := 0, 0;
    ghost var done: Name := [];
    NtopStart(src);
    assert cp < |src| by { LegibleHere(src, cp); }
    while src[cp] != 0
      invariant cp < |src| && After(src, cp, done)
      invariant 0 <= dn <= dst.Length && dst[..dn] == ShownLabels(done) && (dn == 0 <==> done == [])
      decreases |src| - cp
    {
      var n := src[cp];
      if n >= 64 {
        NtopBad(src, cp, done);
        return -1;
      }
      AfterNext(src, cp, done);
      LegibleHere(src, cp + 1 + n);
      ghost var l: Label := src[cp + 1..cp + 1 + n];
      ShownLabelsSnoc(done, l);
      ghost var before := dst[..dn];
      if dn != 0 {
        if dn >= dst.Length {
          return -1;
        }
        dst[dn] := DOT;
        dn := dn + 1;
        assert dst[..dn] == before + [DOT];
      }
      cp := cp + 1;
      if dn + n >= dst.Length {
        return -1;
      }
      dn := PutLabel(src[cp..cp + n], dst, dn);
      if dn < 0 {
        return -1;
      }
      cp := cp + n;
      done := done + [l];
    }
    NtopEnd(src, cp, done);
    ghost var before := dst[..dn];
    if dn == 0 {
      if dn >= dst.Length {
        return -1;
      }
      dst[dn] := DOT;
      dn := dn + 1;
    }
    if dn >= dst.Length {
      return -1;
    }
    dst[dn] := 0;
    dn := dn + 1;
    return dn;
  }

  lemma LegibleHere(src: seq<byte>, p: nat)
    ensures Legible(src, p) ==> p < |src|
  {
  }

  lemma NtopStart(src: seq<byte>)
    requires Legible(src, 0)
    ensures After(src, 0, []) && ShownLabels([]) == []
  {
    if NameAt(src, 0).Some? {
      assert [] + NameAt(src, 0).value == NameAt(src, 0).value;
    }
  }

  lemma NtopBad(src: seq<byte>, cp: nat, done: Name)
    requires After(src, cp, done) && src[cp] >= 64
    ensures NameAt(src, 0).None?
  {
  }

  lemma NtopEnd(src: seq<byte>, cp: nat, done: Name)
    requires After(src, cp, done) && src[cp] == 0
    ensures NameAt(src, 0) == Some(done)
  {
    assert done + [] == done;
  }

  // ---- ns_name_pton ----

  /** What the whole text means. */
  function Meaning(src: seq<ch>): Reading {
    Read(src, [], [])
  }

  /** Where the token being read starts: at its backslash, if there was one. */
  function TokenAt(i: nat, escaped: bool): int {
    if escaped then i - 1 else i
  }

  /** The part of src from the current token on is still to be read; the labels
      of done, and cur, are in d so far. */
  ghost predicate Midway(src: seq<ch>, i: nat, escaped: bool, d: seq<byte>, lab: nat, bp: nat, done: Name,
                         cur: seq<byte>) {
    0 <= TokenAt(i, escaped) && i <= |src| && (escaped ==> src[i - 1] == BACKSLASH) &&
    Read(src[TokenAt(i, escaped)..], done, cur) == Meaning(src) &&
    lab == |WireLabels(done)| <= |d| && bp == lab + 1 + |cur| && (cur != [] ==> bp <= |d| && d[lab + 1..bp] == cur) &&
    d[..lab] == WireLabels(done)
  }

  /** A label was too long to be right, though its length byte did not show it. */
  ghost predicate Doomed(src: seq<ch>, i: nat, escaped: bool, lab: nat, bp: nat) {
    i <= |src| && (escaped ==> 0 < i) && Meaning(src).Bad? && 256 < bp && lab < bp
  }

  ghost predicate PtonState(src: seq<ch>, i: nat, escaped: bool, d: seq<byte>, lab: nat, bp: nat, done: Name,
                            cur: seq<byte>, lost: bool) {
    if lost then Doomed(src, i, escaped, lab, bp) else Midway(src, i, escaped, d, lab, bp, done, cur)
  }

  /** What pton returns for a text of this meaning, given n bytes to put it in. */
  predicate Fits(m: Reading, n: nat) {
    m.Good? && |Wire(m.name)| <= n
  }

  /** The wire form is at least as long as what has been read. */
  lemma {:induction false} ReadLonger(t: seq<ch>, done: Name, cur: seq<byte>)
    ensures Read(t, done, cur).Good? ==>
            |Wire(Read(t, done, cur).name)| >= |WireLabels(done)| + 1 + (if cur == [] then 0 else |cur| + 1)
    decreases |t|
  {
    hide Wire;
    hide WireLabels;
    if |t| <= 1 && |cur| <= 63 {
      FinishedLength(done, cur);
    }
    if t != [] {
      if t[0] == BACKSLASH {
        if |t| > 1 && !Digit(t[1]) {
          ReadLonger(t[2..], done, cur + [t[1]]);
        } else if |t| >= 4 {
          var n: int := (t[1] - ZERO) * 100 + (t[2] - ZERO) * 10 + (t[3] - ZERO);
          if 0 <= n <= 255 { ReadLonger(t[4..], done, cur + [n]); }
        }
      } else if t[0] == DOT {
        if |t| > 1 && 1 <= |cur| <= 63 {
          WireLabelsSnoc(done, cur);
          ReadLonger(t[1..], done + [cur], []);
        }
      } else {
        ReadLonger(t[1..], done, cur + [t[0]]);
      }
    }
  }

  lemma FinishedLength(done: Name, cur: seq<byte>)
    requires |cur| <= 63
    ensures cur == [] ==> |Wire(done)| == |WireLabels(done)| + 1
    ensures cur != [] ==> |Wire(done + [cur])| == |WireLabels(done)| + |cur| + 2
  {
    WireIsLabels(done);
    if cur != [] {
      WireIsLabels(done + [cur]);
      WireLabelsSnoc(done, cur);
    }
  }

  /** The token has been read as byte c of the label; the next one starts at i2. */
  lemma CharRead(src: seq<ch>, i: nat, escaped: bool, d: seq<byte>, lab: nat, bp: nat, done: Name, cur: seq<byte>,
                 c: byte, i2: nat)
    requires Midway(src, i, escaped, d, lab, bp, done, cur) && i2 <= |src| &&
             Read(src[i2..], done, cur + [c]) == Meaning(src)
    ensures bp < |d| ==> Midway(src, i2, false, d[bp := c], lab, bp + 1, done, cur + [c])
    ensures bp >= |d| ==> !Fits(Meaning(src), |d|)
  {
    hide Read;
    hide Wire;
    hide WireLabels;
    ReadLonger(src[i2..], done, cur + [c]);
    if bp < |d| {
      var d' := d[bp := c];
      assert d'[..lab] == d[..lab];
      assert d'[lab + 1..bp + 1] == cur + [c];
    }
  }

  /** How the next token reads. */
  lemma TokenRead(src: seq<ch>, i: nat, escaped: bool, done: Name, cur: seq<byte>)
    requires i < |src| && 0 <= TokenAt(i, escaped) && (escaped ==> src[i - 1] == BACKSLASH)
    ensures var m := Read(src[TokenAt(i, escaped)..], done, cur);
            if escaped then
              if !Digit(src[i]) then m == Read(src[i + 1..], done, cur + [src[i]])
              else if i + 2 >= |src| || !Digit(src[i + 1]) || !Digit(src[i + 2]) then m == Bad
              else
                var n := (src[i] - ZERO) * 100 + (src[i + 1] - ZERO) * 10 + (src[i + 2] - ZERO);
                m == if n > 255 then Bad else Read(src[i + 3..], done, cur + [n])
            else src[i] != BACKSLASH && src[i] != DOT ==> m == Read(src[i + 1..], done, cur + [src[i]])
  {
    var t := src[TokenAt(i, escaped)..];
    if escaped {
      assert t[1] == src[i] && t[2..] == src[i + 1..];
      if i + 2 < |src| { assert t[2] == src[i + 1] && t[3] == src[i + 2] && t[4..] == src[i + 3..]; }
    } else {
      assert t[1..] == src[i + 1..];
    }
  }

  /** The three digits after a backslash; -1 if they are not a byte. */
  method Decimal(src: seq<ch>, i: nat) returns (n: int)
    requires 0 < i <= |src| && Digit(src[i - 1])
    ensures if i + 1 >= |src| || !Digit(src[i]) || !Digit(src[i + 1]) then n == -1
            else
              var v := (src[i - 1] - ZERO) * 100 + (src[i] - ZERO) * 10 + (src[i + 1] - ZERO);
              n == if v > 255 then -1 else v
  {
    n := (src[i - 1] - ZERO) * 100;
    if i >= |src| || !Digit(src[i]) {
      return -1;
    }
    n := n + (src[i] - ZERO) * 10;
    if i + 1 >= |src| || !Digit(src[i + 1]) {
      return -1;
    }
    n := n + (src[i + 1] - ZERO);
    if n > 255 {
      return -1;
    }
  }

  /** What a dot means. */
  lemma DotRead(src: seq<ch>, i: nat, d: seq<byte>, lab: nat, bp: nat, done: Name, cur: seq<byte>)
    requires Midway(src, i, false, d, lab, bp, done, cur) && i < |src| && src[i] == DOT
    ensures i + 1 == |src| ==> Meaning(src) == Finished(done, cur, true)
    ensures i + 1 < |src| && (cur == [] || |cur| > 63 || src[i + 1] == DOT) ==> Meaning(src) == Bad
    ensures i + 1 < |src| && 1 <= |cur| <= 63 && src[i + 1] != DOT ==>
              lab < |d| && Midway(src, i + 1, false, d[lab := |cur|], bp, bp + 1, done + [cur], [])
  {
    var t := src[i..];
    assert t[1..] == src[i + 1..];
    if i + 1 < |src| {
      assert t[1] == src[i + 1];
      if 1 <= |cur| <= 63 && src[i + 1] != DOT {
        WireLabelsSnoc(done, cur);
        hide Read;
        hide WireLabels;
        var d' := d[lab := |cur|];
        assert d'[..bp] == d[..lab] + [|cur|] + d[lab + 1..bp];
      }
    }
  }

  /** What the end of the text means. */
  lemma EndRead(src: seq<ch>, escaped: bool, d: seq<byte>, lab: nat, bp: nat, done: Name, cur: seq<byte>)
    requires Midway(src, |src|, escaped, d, lab, bp, done, cur)
    ensures Meaning(src) == Finished(done, cur, false)
  {
  }

  /** The last label is complete, and with it the name: set its length, and if
      that is not 0 close the name with the root label. */
  method Close(dst: array<byte>, lab: nat, bp: nat, ghost done: Name, ghost cur: seq<byte>, ghost qualified: bool,
               ghost lost: bool) returns (ok: bool)
    requires lab < dst.Length && lab < bp
    requires if lost then 256 < bp
             else lab == |WireLabels(done)| && bp == lab + 1 + |cur| && dst[..lab] == WireLabels(done) &&
                  dst[lab] == |cur| % 256 < 64 &&
                  (cur != [] ==> bp <= dst.Length && dst[lab + 1..bp] == cur)
    modifies dst
    ensures ok <==> !lost && Fits(Finished(done, cur, qualified), dst.Length)
    ensures ok ==> var w := Wire(Finished(done, cur, qualified).name); dst[..|w|] == w
  {
    hide WireLabels;
    hide Wire;
    WireIsLabels(done);
    var end := bp;
    ghost var d := dst[..];
    if !lost && |cur| <= 63 {
      FinishedLength(done, cur);
      if cur != [] {
        WireIsLabels(done + [cur]);
        WireLabelsSnoc(done, cur);
      }
    }
    if bp != lab + 1 {
      if bp >= dst.Length {
        return false;
      }
      dst[bp] := 0;
      end := bp + 1;
      assert !lost ==> dst[..end] == d[..lab] + [d[lab]] + d[lab + 1..bp] + [0];
    } else {
      assert !lost ==> dst[..end] == d[..lab] + [d[lab]];
    }
    if end > NS_MAXCDNAME {
      return false;
    }
    return true;
  }

  lemma PtonStart(src: seq<ch>, d: seq<byte>)
    ensures PtonState(src, 0, false, d, 0, 1, [], [], false)
  {
    assert src[0..] == src;
  }

  lemma StateFacts(src: seq<ch>, i: nat, escaped: bool, d: seq<byte>, lab: nat, bp: nat, done: Name, cur: seq<byte>,
                   lost: bool)
    requires PtonState(src, i, escaped, d, lab, bp, done, cur, lost)
    ensures i <= |src| && 0 <= TokenAt(i, escaped) && lab < bp
    ensures lost ==> Meaning(src).Bad? && 256 < bp
    ensures !lost ==>
              (escaped ==> src[i - 1] == BACKSLASH) &&
              Read(src[TokenAt(i, escaped)..], done, cur) == Meaning(src) && bp == lab + 1 + |cur|
  {
  }

  /** After the backslash, the token goes on. */
  lemma AfterBackslash(src: seq<ch>, i: nat, d: seq<byte>, lab: nat, bp: nat, done: Name, cur: seq<byte>, lost: bool)
    requires PtonState(src, i, false, d, lab, bp, done, cur, lost) && i < |src| && src[i] == BACKSLASH
    ensures PtonState(src, i + 1, true, d, lab, bp, done, cur, lost)
  {
  }

  /** Lost stays lost. */
  lemma StillLost(src: seq<ch>, i: nat, escaped: bool, lab: nat, bp: nat, i2: nat, lab2: nat, bp2: nat)
    requires Doomed(src, i, escaped, lab, bp) && i2 <= |src| && lab2 < bp2 && bp <= bp2
    ensures Doomed(src, i2, false, lab2, bp2)
  {
  }

  /** A dot: the label before it is complete; 1 if it ends the name, 2 to go on. */
  method PtonDot(src: seq<ch>, i: nat, dst: array<byte>, lab: nat, bp: nat, ghost done: Name, ghost cur: seq<byte>,
                 ghost lost: bool) returns (r: int)
    requires 0 < i <= |src| && src[i - 1] == DOT && PtonState(src, i - 1, false, dst[..], lab, bp, done, cur, lost)
    modifies dst
    ensures r == -1 || r == 1 || r == 2
    ensures r == -1 ==> !Fits(Meaning(src), dst.Length)
    ensures r == 1 ==>
              Fits(Meaning(src), dst.Length) && Meaning(src).qualified &&
              (var w := Wire(Meaning(src).name); dst[..|w|] == w)
    ensures r == 2 ==> i < |src|
    ensures r == 2 ==> if lost || |cur| > 63 then Doomed(src, i, false, bp, bp + 1)
                       else cur != [] && Midway(src, i, false, dst[..], bp, bp + 1, done + [cur], [])
  {
    hide Read;
    hide Wire;
    hide WireLabels;
    StateFacts(src, i - 1, false, dst[..], lab, bp, done, cur, lost);
    ghost var d := dst[..];
    if !lost {
      DotRead(src, i - 1, d, lab, bp, done, cur);
      MidwayFits(src, i - 1, false, d, lab, bp, done, cur);
    }
    var c := bp - lab - 1;
    if c % 256 >= 64 {
      return -1;
    }
    if lab >= dst.Length {
      return -1;
    }
    dst[lab] := c % 256;
    assert dst[..] == d[lab := c % 256];
    // A dot at the end makes the name absolute
    if i == |src| {
      var ok := Close(dst, lab, bp, done, cur, true, lost);
      return if ok then 1 else -1;
    }
    if c == 0 || src[i] == DOT {
      return -1;
    }
    return 2;
  }

  lemma MidwayFits(src: seq<ch>, i: nat, escaped: bool, d: seq<byte>, lab: nat, bp: nat, done: Name, cur: seq<byte>)
    requires Midway(src, i, escaped, d, lab, bp, done, cur)
    ensures lab >= |d| ==> !Fits(Meaning(src), |d|)
  {
    hide Read;
    hide Wire;
    hide WireLabels;
    ReadLonger(src[TokenAt(i, escaped)..], done, cur);
  }

  /** The end of the text is the end of the last label. */
  method PtonEnd(src: seq<ch>, ghost escaped: bool, dst: array<byte>, lab: nat, bp: nat, ghost done: Name,
                 ghost cur: seq<byte>, ghost lost: bool) returns (r: int)
    requires PtonState(src, |src|, escaped, dst[..], lab, bp, done, cur, lost)
    modifies dst
    ensures r == -1 || r == 0
    ensures r == 0 <==> Fits(Meaning(src), dst.Length)
    ensures r == 0 ==> !Meaning(src).qualified && (var w := Wire(Meaning(src).name); dst[..|w|] == w)
  {
    hide Read;
    hide Wire;
    hide WireLabels;
    StateFacts(src, |src|, escaped, dst[..], lab, bp, done, cur, lost);
    ghost var d := dst[..];
    if !lost {
      EndRead(src, escaped, d, lab, bp, done, cur);
      MidwayFits(src, |src|, escaped, d, lab, bp, done, cur);
    }
    var c := bp - lab - 1;
    if c % 256 >= 64 {
      return -1;
    }
    if lab >= dst.Length {
      return -1;
    }
    dst[lab] := c % 256;
    assert dst[..] == d[lab := c % 256];
    var ok := Close(dst, lab, bp, done, cur, false, lost);
    return if ok then 0 else -1;
  }

  /** Convert text to an encoded name: 1 if it was fully qualified, 0 if not.
      Fails exactly when the text is no legal name or there is no room for it. */
  method NamePton(src: seq<ch>, dst: array<byte>) returns (r: int)
    modifies dst
    ensures r >= 0 <==> Meaning(src).Good? && |Wire(Meaning(src).name)| <= dst.Length
    ensures r < 0 ==> r == -1
    ensures r >= 0 ==> r == (if Meaning(src).qualified then 1 else 0)
    ensures r >= 0 ==> var w := Wire(Meaning(src).name); dst[..|w|] == w
  {
    hide Read;
    hide Wire;
    hide WireLabels;
    hide Midway;
    hide Doomed;
    hide Finished;
    var i, escaped, lab, bp := 0, false, 0, 1;
    ghost var done: Name, cur: seq<byte>, lost := [], [], false;
    PtonStart(src, dst[..]);
    while i < |src|
      invariant PtonState(src, i, escaped, dst[..], lab, bp, done, cur, lost)
      invariant i <= |src| && 0 <= TokenAt(i, escaped) && lab < bp
      decreases |src| - i
    {
      StateFacts(src, i, escaped, dst[..], lab, bp, done, cur, lost);
      if !lost { TokenRead(src, i, escaped, done, cur); }
      var c: int := src[i];
      ghost var i0, e0 := i, escaped;
      i := i + 1;
      if escaped {
        if Digit(c) {
          var n := Decimal(src, i);
          if n < 0 {
            assert Meaning(src).Bad?;
            return -1;
          }
          i := i + 2;
          c := n;
        }
        escaped := false;
      } else if c == BACKSLASH {
        escaped := true;
        AfterBackslash(src, i0, dst[..], lab, bp, done, cur, lost);
        continue;
      } else if c == DOT {
        r := PtonDot(src, i, dst, lab, bp, done, cur, lost);
        if r <= 1 {
          return;
        }
        done, cur, lost := if lost || |cur| > 63 then done else done + [cur], [], lost || |cur| > 63;
        lab := bp;
        bp := bp + 1;
        r := -1;
        continue;
      }
      if !lost {
        CharRead(src, i0, e0, dst[..], lab, bp, done, cur, c, i);
      } else {
        StillLost(src, i0, e0, lab, bp, i, lab, bp + 1);
      }
      if bp >= dst.Length {
        return -1;
      }
      dst[bp] := c;
      bp := bp + 1;
      cur := cur + [c];
    }
    r := PtonEnd(src, escaped, dst, lab, bp, done, cur, lost);
  }

  /** Showing a name and reading the text again gives the same bytes, for every
      legal name that there is room for; the text of the root is fully qualified. */
  method NtopPton(src: seq<byte>, text: array<byte>, back: array<byte>) returns (r: int, q: int)
    requires Legible(src, 0) && text != back
    modifies text, back
    ensures r >= 0 <==> NameAt(src, 0).Some? && |Shown(NameAt(src, 0).value)| + 1 <= text.Length
    ensures r >= 0 && Legal(NameAt(src, 0).value) ==>
              var n := |Wire(NameAt(src, 0).value)|;
              n <= |src| && (q >= 0 <==> n <= back.Length) &&
              (q >= 0 ==> back[..n] == src[..n] && (q == 1 <==> NameAt(src, 0).value == []))
  {
    hide Shown;
    hide Wire;
    hide Read;
    hide Legal;
    r := NameNtop(src, text);
    q := -1;
    if r >= 0 {
      ghost var name := NameAt(src, 0).value;
      assert forall k :: 0 <= k < r - 1 ==> text[k] == text[..r - 1][k] == Shown(name)[k];
      var t: seq<ch> := text[..r - 1];
      assert t == Shown(name);
      q := NamePton(t, back);
      if Legal(name) {
        ReadShown(name);
        WireAtName(src, 0);
        assert Wire(name) <= src by { assert src[0..] == src; }
      }
    }
  }
}
