/** Domain names: a list of labels, its wire form (RFC 1035 section 3.1) and its
    text form (section 5.1). */
module DnsName {
  import opened CTypes

  type Label = s: seq<byte> | 1 <= |s| <= 63 witness [0]
  type Name = seq<Label>

  const NS_MAXCDNAME: nat := 255

  // ---- The wire form ----

  function Wire(name: Name): (w: seq<byte>)
    ensures |w| >= 1 && w[|w| - 1] == 0
  {
    if name == [] then [0] else [|name[0]|] + name[0] + Wire(name[1..])
  }

  /** The labels only, without the closing root label. */
  function WireLabels(name: Name): seq<byte> {
    if name == [] then [] else [|name[0]|] + name[0] + WireLabels(name[1..])
  }

  predicate Legal(name: Name) {
    |Wire(name)| <= NS_MAXCDNAME
  }

  lemma {:induction false} WireIsLabels(name: Name)
    ensures Wire(name) == WireLabels(name) + [0]
  {
    if name != [] {
      WireIsLabels(name[1..]);
    }
  }

  lemma {:induction false} WireLabelsAppend(a: Name, b: Name)
    ensures WireLabels(a + b) == WireLabels(a) + WireLabels(b)
  {
    if a == [] {
      assert a + b == b;
    } else {
      var l, w := a[0], WireLabels(a[1..]);
      WireLabelsAppend(a[1..], b);
      assert (a + b)[1..] == a[1..] + b && (a + b)[0] == l;
      hide WireLabels;
      assert [|l|] + l + (w + WireLabels(b)) == ([|l|] + l + w) + WireLabels(b);
    }
  }

  lemma WireLabelsSnoc(a: Name, l: Label)
    ensures WireLabels(a + [l]) == WireLabels(a) + [|l|] + l
  {
    WireLabelsAppend(a, [l]);
    assert WireLabels([l]) == [|l|] + l by { assert [l][1..] == []; }
    hide WireLabels;
  }

  // ---- The text form ----

  predicate Special(c: byte) {
    c == 0x22 || c == 0x2E || c == 0x3B || c == 0x5C || c == 0x40 || c == 0x24
  }

  predicate Printable(c: byte) {
    0x20 < c < 0x7f
  }

  const DOT: ch := 0x2E
  const BACKSLASH: ch := 0x5C
  const ZERO: ch := 0x30

  predicate Digit(c: ch) {
    0x30 <= c <= 0x39
  }

  /** How one byte of a label is written. */
  function Escaped(c: byte): (t: seq<ch>)
    ensures 1 <= |t| <= 4 && t[0] != DOT
  {
    if Special(c) then [BACKSLASH, c]
    else if !Printable(c) then [BACKSLASH, c / 100 + ZERO, c % 100 / 10 + ZERO, c % 10 + ZERO]
    else [c]
  }

  function ShownBytes(l: seq<byte>): (t: seq<ch>)
    ensures |t| >= |l|
    ensures l != [] ==> t[0] != DOT
  {
    if l == [] then [] else Escaped(l[0]) + ShownBytes(l[1..])
  }

  /** The labels with dots in between. */
  function ShownLabels(name: Name): (t: seq<ch>)
    ensures name != [] ==> t != [] && t[0] != DOT
  {
    if name == [] then []
    else if |name| == 1 then ShownBytes(name[0])
    else ShownBytes(name[0]) + [DOT] + ShownLabels(name[1..])
  }

  /** The root is shown as ".", all others without a final dot. */
  function Shown(name: Name): seq<ch> {
    if name == [] then [DOT] else ShownLabels(name)
  }

  lemma {:induction false} ShownBytesSnoc(l: seq<byte>, c: byte)
    ensures ShownBytes(l + [c]) == ShownBytes(l) + Escaped(c)
  {
    hide Escaped;
    if l == [] {
      assert [c][1..] == [] && ShownBytes([]) == [];
    } else {
      ShownBytesSnoc(l[1..], c);
      assert (l + [c])[1..] == l[1..] + [c] && (l + [c])[0] == l[0];
      Associative(Escaped(l[0]), ShownBytes(l[1..]), Escaped(c));
    }
  }

  lemma {:induction false} ShownLabelsSnoc(name: Name, l: Label)
    ensures ShownLabels(name + [l]) == if name == [] then ShownBytes(l) else ShownLabels(name) + [DOT] + ShownBytes(l)
  {
    if |name| <= 1 {
      assert name == [] || (name + [l])[1..] == [l];
    } else {
      ShownLabelsSnoc(name[1..], l);
      assert (name + [l])[1..] == name[1..] + [l];
    }
  }

  // ---- Reading the text form ----

  datatype Reading = Bad | Good(name: Name, qualified: bool)

  /** The end of the text, with done and cur read. */
  function Finished(done: Name, cur: seq<byte>, qualified: bool): Reading {
    if |cur| > 63 then Bad
    else
      var name := if cur == [] then done else done + [cur];
      if Legal(name) then Good(name, qualified) else Bad
  }

  /** What text t means after the labels of done and the part cur of a label. */
  function Read(t: seq<ch>, done: Name, cur: seq<byte>): Reading
    decreases |t|
  {
    if t == [] then Finished(done, cur, false)
    else if t[0] == BACKSLASH then
      if |t| == 1 then Finished(done, cur, false)
      else if !Digit(t[1]) then Read(t[2..], done, cur + [t[1]])
      else if |t| < 4 || !Digit(t[2]) || !Digit(t[3]) then Bad
      else
        var n := (t[1] - ZERO) * 100 + (t[2] - ZERO) * 10 + (t[3] - ZERO);
        if n > 255 then Bad else Read(t[4..], done, cur + [n])
    else if t[0] == DOT then
      if |t| == 1 then Finished(done, cur, true)
      else if cur == [] || |cur| > 63 || t[1] == DOT then Bad
      else Read(t[1..], done + [cur], [])
    else Read(t[1..], done, cur + [t[0]])
  }

  /** What is read is legal. */
  lemma {:induction false} ReadLegal(t: seq<ch>, done: Name, cur: seq<byte>)
    ensures Read(t, done, cur).Good? ==> Legal(Read(t, done, cur).name)
    decreases |t|
  {
    if t != [] {
      if t[0] == BACKSLASH {
        if |t| > 1 && !Digit(t[1]) {
          ReadLegal(t[2..], done, cur + [t[1]]);
        } else if |t| >= 4 {
          var n: int := (t[1] - ZERO) * 100 + (t[2] - ZERO) * 10 + (t[3] - ZERO);
          if 0 <= n <= 255 { ReadLegal(t[4..], done, cur + [n]); }
        }
      } else if t[0] == DOT {
        if |t| > 1 && 1 <= |cur| <= 63 { ReadLegal(t[1..], done + [cur], []); }
      } else {
        ReadLegal(t[1..], done, cur + [t[0]]);
      }
    }
  }

  lemma ReadEscaped(c: byte, t: seq<ch>, done: Name, cur: seq<byte>)
    ensures Read(Escaped(c) + t, done, cur) == Read(t, done, cur + [c])
  {
    var u := Escaped(c) + t;
    assert u[|Escaped(c)|..] == t;
    if !Special(c) && !Printable(c) {
      Digits(c);
      assert u[1] == c / 100 + ZERO && u[2] == c % 100 / 10 + ZERO && u[3] == c % 10 + ZERO;
    }
  }

  lemma Digits(c: byte)
    ensures c / 100 < 10 && c % 100 / 10 < 10 && c / 100 * 100 + c % 100 / 10 * 10 + c % 10 == c
  {
  }

  lemma {:induction false} ReadBytes(l: seq<byte>, t: seq<ch>, done: Name, cur: seq<byte>)
    ensures Read(ShownBytes(l) + t, done, cur) == Read(t, done, cur + l)
  {
    hide Read;
    hide Escaped;
    if l == [] {
      assert ShownBytes(l) + t == t && cur + l == cur;
    } else {
      var rest := ShownBytes(l[1..]) + t;
      ShownFirst(l, t, rest);
      hide ShownBytes;
      ReadEscaped(l[0], rest, done, cur);
      ReadBytes(l[1..], t, done, cur + [l[0]]);
      assert cur + l == cur + [l[0]] + l[1..];
    }
  }

  lemma ShownFirst(l: seq<byte>, t: seq<ch>, rest: seq<ch>)
    requires l != [] && rest == ShownBytes(l[1..]) + t
    ensures ShownBytes(l) + t == Escaped(l[0]) + rest
  {
    Associative(Escaped(l[0]), ShownBytes(l[1..]), t);
  }

  lemma Associative<T>(a: seq<T>, b: seq<T>, c: seq<T>)
    ensures (a + b) + c == a + (b + c)
  {
  }

  lemma ReadDot(l: Label, rest: seq<ch>, done: Name)
    requires rest != [] && rest[0] != DOT
    ensures Read([DOT] + rest, done, l) == Read(rest, done + [l], [])
  {
    var t := [DOT] + rest;
    assert t[1..] == rest && t[1] != DOT;
  }

  /** What ends the text: a dot, or nothing. */
  function Last(dot: bool): seq<ch> {
    if dot then [DOT] else []
  }

  lemma ReadLast(done: Name, l: Label, dot: bool)
    requires Legal(done + [l])
    ensures Read(Last(dot), done, l) == Good(done + [l], dot)
  {
    hide Legal;
  }

  lemma ShownRest(name: Name, end: seq<ch>)
    requires |name| > 1
    ensures ShownLabels(name) + end == ShownBytes(name[0]) + ([DOT] + (ShownLabels(name[1..]) + end))
  {
    hide ShownBytes;
    Associative(ShownBytes(name[0]) + [DOT], ShownLabels(name[1..]), end);
    Associative(ShownBytes(name[0]), [DOT], ShownLabels(name[1..]) + end);
  }

  lemma {:induction false} ReadLabels(name: Name, done: Name, dot: bool)
    requires name != [] && Legal(done + name)
    ensures Read(ShownLabels(name) + Last(dot), done, []) == Good(done + name, dot)
  {
    hide ShownBytes;
    hide Legal;
    hide Read;
    hide Last;
    var l := name[0];
    assert [] + l == l;
    if |name| == 1 {
      assert name == [l];
      ReadBytes(l, Last(dot), done, []);
      ReadLast(done, l, dot);
    } else {
      var rest := ShownLabels(name[1..]) + Last(dot);
      ShownRest(name, Last(dot));
      ReadBytes(l, [DOT] + rest, done, []);
      ReadDot(l, rest, done);
      assert done + name == done + [l] + name[1..];
      ReadLabels(name[1..], done + [l], dot);
    }
  }

  /** Reading undoes showing, for every legal name, whatever its bytes. */
  lemma {:induction false} ReadShown(name: Name)
    requires Legal(name)
    ensures Read(Shown(name), [], []) == Good(name, name == [])
  {
    if name != [] {
      assert [] + name == name && Shown(name) + Last(false) == Shown(name);
      ReadLabels(name, [], false);
    } else {
      assert Wire([]) == [0];
    }
  }

  // ---- The same by number ----

  /** Six characters follow a backslash; what cannot be printed is three decimal
      digits; everything else stands for itself. */
  lemma EscapedIs(c: byte)
    ensures var t := Escaped(c);
            if c == '"' as int || c == '.' as int || c == ';' as int || c == '\\' as int || c == '@' as int ||
               c == '$' as int
            then t == ['\\' as int, c]
            else if 0x21 <= c <= 0x7E then t == [c]
            else
              |t| == 4 && t[0] == '\\' as int && (forall k :: 1 <= k < 4 ==> '0' as int <= t[k] <= '9' as int) &&
              t[1] as int * 100 + t[2] as int * 10 + t[3] as int == c + 48 * 111
  {
    Digits(c);
  }

  predicate HostByte(c: byte) {
    'a' as int <= c <= 'z' as int || 'A' as int <= c <= 'Z' as int || '0' as int <= c <= '9' as int || c == '-' as int
  }

  lemma {:induction false} HostBytes(l: seq<byte>)
    requires forall k :: 0 <= k < |l| ==> HostByte(l[k])
    ensures ShownBytes(l) == l
  {
    if l != [] {
      HostBytes(l[1..]);
      assert l == [l[0]] + l[1..];
    }
  }

  /** So the text of a host name is its labels with dots in between. */
  lemma HostShown(name: Name, l: Label)
    requires forall k :: 0 <= k < |l| ==> HostByte(l[k])
    ensures Shown([]) == ['.' as int]
    ensures Shown(name + [l]) == if name == [] then l else Shown(name) + ['.' as int] + l
  {
    HostBytes(l);
    ShownLabelsSnoc(name, l);
  }

  /** With a final dot it is read as the same name, fully qualified. */
  lemma ReadQualified(name: Name)
    requires name != [] && Legal(name)
    ensures Read(Shown(name) + ['.' as int], [], []) == Good(name, true)
  {
    hide Legal;
    assert [] + name == name;
    ReadLabels(name, [], true);
  }

  /** A backslash and three digits are read as the byte of that number. */
  lemma ReadNumber(n: nat, t: seq<ch>, done: Name, cur: seq<byte>)
    requires n <= 999
    ensures var u: seq<ch> := ['\\' as int, 48 + n / 100, 48 + n % 100 / 10, 48 + n % 10] + t;
            Read(u, done, cur) == if n <= 255 then Read(t, done, cur + [n]) else Bad
  {
    var u: seq<ch> := ['\\' as int, 48 + n / 100, 48 + n % 100 / 10, 48 + n % 10] + t;
    assert u[4..] == t;
    assert n / 100 * 100 + n % 100 / 10 * 10 + n % 10 == n;
  }

  /** A name is legal up to 255 bytes, a length byte in front of each label and
      the root counted. */
  lemma UniformLegal(name: Name, n: nat)
    requires forall k :: 0 <= k < |name| ==> |name[k]| == n
    ensures Legal(name) <==> |name| * (n + 1) <= 254
  {
    UniformWire(name, n + 1);
  }

  lemma {:induction false} UniformWire(name: Name, m: nat)
    requires forall k :: 0 <= k < |name| ==> |name[k]| + 1 == m
    ensures |Wire(name)| == |name| * m + 1
  {
    if name != [] {
      UniformWire(name[1..], m);
      OneMore(|name| - 1, m);
    }
  }

  lemma OneMore(a: nat, m: nat)
    ensures (a + 1) * m == a * m + m
  {
  }
}
