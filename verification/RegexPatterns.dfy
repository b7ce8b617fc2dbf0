/** What patterns find, in terms of their text alone. */
module RegexPatterns {
  import opened CTypes
  import opened RegexLanguage
  import opened RegexGrammar
  import opened RegexCode
  import opened RegexGroups
  import opened RegexHints
  import opened RegexSyntax
  import Regex

  // ---- Text taken literally ----

  /** The characters that mean something else than themselves. */
  predicate Meta(c: ch) {
    c == '^' as int || c == '$' as int || c == '.' as int || c == '[' as int || c == '(' as int || c == ')' as int ||
    c == '|' as int || c == '?' as int || c == '+' as int || c == '*' as int || c == '\\' as int
  }

  /** t with a backslash in front of each of these. */
  function Quote(t: seq<ch>): seq<ch> {
    if t == [] then [] else (if Meta(t[0]) then ['\\' as int, t[0]] else [t[0]]) + Quote(t[1..])
  }

  lemma MetaIs(c: byte)
    ensures c != 0 ==> (Ordinal(c) <==> !Meta(c))
    ensures !Ordinal(0) && !IsMult(0)
    ensures IsMult(c) ==> c != 0 && Meta(c)
  {
  }

  lemma {:induction false} QuoteSum(t: seq<ch>, u: seq<ch>)
    ensures Quote(t + u) == Quote(t) + Quote(u)
  {
    if t == [] {
      assert t + u == u;
    } else {
      assert (t + u)[1..] == t[1..] + u;
      QuoteSum(t[1..], u);
    }
  }

  predicate Plain(t: seq<ch>) {
    forall k :: 0 <= k < |t| ==> !Meta(t[k])
  }

  lemma {:induction false} QuotePlain(t: seq<ch>)
    requires Plain(t)
    ensures Quote(t) == t
  {
    if t != [] {
      QuotePlain(t[1..]);
      assert t == [t[0]] + t[1..];
    }
  }

  /** The ordinary characters at the end of t. */
  lemma {:induction false} PlainEnd(t: seq<ch>) returns (n: nat)
    ensures n <= |t| && Plain(t[n..]) && (n > 0 ==> Meta(t[n - 1]))
  {
    n := |t|;
    if t != [] && !Meta(t[|t| - 1]) {
      var u := t[..|t| - 1];
      n := PlainEnd(u);
      assert t[n..] == u[n..] + [t[|t| - 1]];
    }
  }

  // ---- Matching t after something else ----

  /** r matches what acc matches, followed by t. */
  ghost predicate Followed(r: Rx, acc: Rx, t: seq<ch>) {
    forall s: seq<ch>, i: nat, j: nat :: Matches(r, s, i, j) <==> Behind(acc, t, s, i, j)
  }

  /** acc matches from i on, and t is behind it up to j. */
  ghost predicate Behind(acc: Rx, t: seq<ch>, s: seq<ch>, i: nat, j: nat) {
    |t| <= j <= |s| && Matches(acc, s, i, j - |t|) && s[j - |t|..j] == t
  }

  lemma FollowedNone(r: Rx)
    ensures Followed(r, r, [])
  {
    forall s: seq<ch>, i: nat, j: nat ensures Matches(r, s, i, j) <==> Behind(r, [], s, i, j) { }
  }

  lemma ExactlyBehind(acc: Rx, cs: seq<ch>, s: seq<ch>, i: nat, j: nat)
    ensures Matches(Append(acc, Exactly(cs)), s, i, j) <==> Behind(acc, cs, s, i, j)
  {
    if acc != Empty {
      if Matches(Cat(acc, Exactly(cs)), s, i, j) {
        var k := CatSplit(acc, Exactly(cs), s, i, j);
        assert k == j - |cs|;
      }
      if Behind(acc, cs, s, i, j) {
        assert Matches(Exactly(cs), s, j - |cs|, j);
      }
    }
  }

  lemma ExactlyAfter(acc: Rx, cs: seq<ch>)
    ensures Followed(Append(acc, Exactly(cs)), acc, cs)
  {
    hide Matches;
    hide Behind;
    hide Append;
    forall s: seq<ch>, i: nat, j: nat
      ensures Matches(Append(acc, Exactly(cs)), s, i, j) <==> Behind(acc, cs, s, i, j)
    {
      ExactlyBehind(acc, cs, s, i, j);
    }
  }

  lemma SumAt(s: seq<ch>, t: seq<ch>, u: seq<ch>, j: nat)
    requires |t| + |u| <= j <= |s|
    ensures s[j - |t + u|..j] == t + u <==> s[j - |t + u|..j - |u|] == t && s[j - |u|..j] == u
  {
    var h, k := j - |t + u|, j - |u|;
    assert s[h..j] == s[h..k] + s[k..j];
    assert s[h..j][..|t|] == s[h..k] && s[h..j][|t|..] == s[k..j];
    assert (t + u)[..|t|] == t && (t + u)[|t|..] == u;
  }

  lemma FollowedTwice(r: Rx, r1: Rx, acc: Rx, t: seq<ch>, u: seq<ch>)
    requires Followed(r, r1, u) && Followed(r1, acc, t)
    ensures Followed(r, acc, t + u)
  {
    hide Matches;
    hide Behind;
    forall s: seq<ch>, i: nat, j: nat ensures Matches(r, s, i, j) <==> Behind(acc, t + u, s, i, j) {
      BehindTwice(r1, acc, t, u, s, i, j);
    }
  }

  lemma BehindTwice(r1: Rx, acc: Rx, t: seq<ch>, u: seq<ch>, s: seq<ch>, i: nat, j: nat)
    requires |u| <= j ==> (Matches(r1, s, i, j - |u|) <==> Behind(acc, t, s, i, j - |u|))
    ensures Behind(r1, u, s, i, j) <==> Behind(acc, t + u, s, i, j)
  {
    hide Matches;
    if |t| + |u| <= j <= |s| { SumAt(s, t, u, j); }
  }

  // ---- What quoted text spells ----

  /** A literal may end at q: the ordinary characters end there, or all but one
      that is repeated, and nothing repeats the last one of the literal. */
  predicate Stops(e: seq<ch>, q: nat) {
    if Ordinal(At(e, q)) then IsMult(At(e, q + 1)) else !IsMult(At(e, q))
  }

  /** r is spelled by what spells acc and t after it. */
  ghost predicate Extends(e: seq<ch>, r: Rx, start: nat, q: nat, acc: Rx, t: seq<ch>) {
    IsSequence(r) && Spells(e, r, start, q) && Groups(r) == Groups(acc) && Followed(r, acc, t) &&
    Size(r) <= Size(acc) + 5 * |t| &&
    (t != [] ==> r != Empty) && forall n :: InOrder(acc, n) ==> InOrder(r, n)
  }

  /** One more literal. */
  lemma OneLiteral(e: seq<ch>, start: nat, acc: Rx, p: nat, cs: seq<ch>, q: nat)
    requires start <= p && IsSequence(acc) && Spells(e, acc, start, p) && cs != [] && Spells(e, Exactly(cs), p, q)
    ensures Extends(e, Append(acc, Exactly(cs)), start, q, acc, cs)
  {
    hide Followed;
    ExactlyAfter(acc, cs);
    AppendIsSequence(acc, Exactly(cs));
    var r := Append(acc, Exactly(cs));
    assert Spells(e, r, start, q);
    assert Groups(r) == Groups(acc);
    assert Size(r) <= Size(acc) + 5 * |cs|;
    forall n | InOrder(acc, n) ensures InOrder(r, n) { }
  }

  lemma PlainSpelled(e: seq<ch>, p: nat, u: seq<ch>)
    requires u != [] && Plain(u) && p + |u| <= |e| && e[p..p + |u|] == u && Stops(e, p + |u|)
    ensures Spells(e, Exactly(u), p, p + |u|)
  {
    forall k | p <= k < p + |u| ensures Ordinal(e[k]) && e[k] != '\\' as int {
      assert e[k] == u[k - p];
      MetaIs(e[k]);
    }
  }

  lemma QuoteMeta(c: ch)
    requires Meta(c)
    ensures Quote([c]) == ['\\' as int, c]
  {
    assert [c][1..] == [] && Quote([]) == [];
  }

  lemma EscapeSpelled(e: seq<ch>, k: nat, c: ch)
    requires k + 2 <= |e| && e[k..k + 2] == ['\\' as int, c]
    ensures Spells(e, Exactly([c]), k, k + 2) && Stops(e, k)
  {
    assert e[k] == e[k..k + 2][0] && e[k + 1] == e[k..k + 2][1];
    MetaIs(e[k]);
  }

  /** The last literal of quoted text: one quoted character, or the ordinary ones at the end. */
  lemma LastLiteral(e: seq<ch>, p: nat, t: seq<ch>) returns (t': seq<ch>, u: seq<ch>)
    requires t != [] && p + |Quote(t)| <= |e| && e[p..p + |Quote(t)|] == Quote(t)
    requires Meta(t[|t| - 1]) || Stops(e, p + |Quote(t)|)
    ensures t == t' + u && u != [] && p + |Quote(t')| <= |e| && e[p..p + |Quote(t')|] == Quote(t')
    ensures t' == [] || Meta(t'[|t'| - 1]) || Stops(e, p + |Quote(t')|)
    ensures Spells(e, Exactly(u), p + |Quote(t')|, p + |Quote(t)|)
  {
    hide Spells;
    hide Stops;
    hide Meta;
    hide Quote;
    var c := t[|t| - 1];
    var n := PlainEnd(t);
    if Meta(c) { n := |t| - 1; }
    t', u := t[..n], t[n..];
    assert t == t' + u;
    QuoteSum(t', u);
    QuoteAt(e, p, t', u);
    var k := p + |Quote(t')|;
    if Meta(c) {
      assert u == [c];
      QuoteMeta(c);
      EscapeSpelled(e, k, c);
    } else {
      QuotePlain(u);
      PlainSpelled(e, k, u);
    }
  }

  lemma ExtendsTwice(e: seq<ch>, r1: Rx, r: Rx, start: nat, k: nat, q: nat, acc: Rx, t: seq<ch>, u: seq<ch>)
    requires Extends(e, r1, start, k, acc, t) && Extends(e, r, start, q, r1, u) && u != []
    ensures Extends(e, r, start, q, acc, t + u)
  {
    hide Followed;
    hide Spells;
    hide IsSequence;
    hide InOrder;
    FollowedTwice(r, r1, acc, t, u);
  }

  /** Quoted text extends any sequence by itself. */
  lemma {:induction false} QuoteSpelled(e: seq<ch>, start: nat, acc: Rx, p: nat, t: seq<ch>) returns (r: Rx)
    requires start <= p && IsSequence(acc) && Spells(e, acc, start, p)
    requires p + |Quote(t)| <= |e| && e[p..p + |Quote(t)|] == Quote(t)
    requires t == [] || Meta(t[|t| - 1]) || Stops(e, p + |Quote(t)|)
    ensures Extends(e, r, start, p + |Quote(t)|, acc, t)
    decreases |t|
  {
    hide Followed;
    hide Spells;
    hide IsSequence;
    hide InOrder;
    hide Quote;
    r := acc;
    if t == [] {
      FollowedNone(acc);
      assert Quote(t) == [] by { QuotePlain(t); }
    } else {
      var t', u := LastLiteral(e, p, t);
      var k := p + |Quote(t')|;
      var r1 := QuoteSpelled(e, start, acc, p, t');
      OneLiteral(e, start, r1, k, u, p + |Quote(t)|);
      r := Append(r1, Exactly(u));
      ExtendsTwice(e, r1, r, start, k, p + |Quote(t)|, acc, t', u);
    }
  }

  lemma QuoteAt(e: seq<ch>, p: nat, t: seq<ch>, u: seq<ch>)
    requires p + |Quote(t) + Quote(u)| <= |e| && e[p..p + |Quote(t) + Quote(u)|] == Quote(t) + Quote(u)
    ensures e[p..p + |Quote(t)|] == Quote(t)
    ensures e[p + |Quote(t)|..p + |Quote(t) + Quote(u)|] == Quote(u)
  {
    hide Quote;
    var a, b := Quote(t), Quote(u);
    var k, q := p + |a|, p + |a + b|;
    assert e[p..q][..|a|] == e[p..k] && e[p..q][|a|..] == e[k..q];
    assert (a + b)[..|a|] == a && (a + b)[|a|..] == b;
  }

  // ---- Quoted text, anchored or not ----

  /** Quoted text as a pattern, with a '^' in front or not and a '$' behind or not. */
  function Text(front: bool, t: seq<ch>, back: bool): seq<ch> {
    (if front then ['^' as int] else []) + Quote(t) + if back then ['$' as int] else []
  }

  ghost predicate OccursAs(front: bool, t: seq<ch>, back: bool, s: seq<ch>, k: nat) {
    k + |t| <= |s| && s[k..k + |t|] == t && (front ==> k == 0) && (back ==> k + |t| == |s|)
  }

  lemma StartOf(front: bool) returns (acc: Rx)
    ensures IsSequence(acc) && Groups(acc) == 0 && InOrder(acc, 1) && Size(acc) == 3
    ensures acc == if front then Bol else Empty
    ensures forall s: seq<ch>, i: nat, j: nat :: Matches(acc, s, i, j) <==> i == j <= |s| && (front ==> i == 0)
  {
    acc := if front then Bol else Empty;
    if !front { SequenceEmpty(); }
  }

  /** r with an anchor behind it, or not. */
  ghost predicate Ended(r': Rx, r: Rx, back: bool) {
    forall s: seq<ch>, i: nat, j: nat :: Matches(r', s, i, j) <==> Matches(r, s, i, j) && (back ==> j == |s|)
  }

  lemma EolAppended(r: Rx)
    ensures Ended(Append(r, Eol), r, true)
  {
    var r' := Append(r, Eol);
    forall s: seq<ch>, i: nat, j: nat ensures Matches(r', s, i, j) <==> Matches(r, s, i, j) && j == |s| {
      if r != Empty {
        if Matches(r', s, i, j) { var k := CatSplit(r, Eol, s, i, j); }
        if Matches(r, s, i, j) && j == |s| { assert Matches(Eol, s, j, j); }
      }
    }
  }

  lemma EolSpelled(e: seq<ch>, r: Rx, q: nat)
    requires IsSequence(r) && Spells(e, r, 0, q) && InOrder(r, 1)
    requires q + 1 == |e| && e[q] == '$' as int
    ensures var r' := Append(r, Eol);
            IsSequence(r') && Spells(e, r', 0, |e|) && InOrder(r', 1) && Groups(r') == Groups(r) &&
            Size(r') <= Size(r) + 3
  {
    AppendIsSequence(r, Eol);
    assert Spells(e, Eol, q, |e|);
  }

  lemma EndOf(e: seq<ch>, r: Rx, q: nat, back: bool) returns (r': Rx)
    requires IsSequence(r) && Spells(e, r, 0, q) && InOrder(r, 1) && Groups(r) <= 9
    requires if back then q + 1 == |e| && e[q] == '$' as int else q == |e|
    ensures RegexSyntax.Pattern(e, Branch(r')) && Ended(r', r, back) && Size(r') <= Size(r) + 3
  {
    hide Matches;
    hide IsSequence;
    r' := r;
    if back {
      hide Spells;
      hide Size;
      hide InOrder;
      hide Groups;
      r' := Append(r, Eol);
      EolSpelled(e, r, q);
      EolAppended(r);
    }
    assert Spells(e, r', 0, |e|);
    SequencePattern(e, r');
  }

  lemma SequencePattern(e: seq<ch>, r: Rx)
    requires IsSequence(r) && Spells(e, r, 0, |e|) && InOrder(r, 1) && Groups(r) <= 9
    ensures RegexSyntax.Pattern(e, Branch(r))
  {
    hide IsSequence;
  }

  /** The tree of such a pattern. */
  lemma TextPattern(front: bool, t: seq<ch>, back: bool) returns (r: Rx)
    ensures RegexSyntax.Pattern(Text(front, t, back), r) && Size(r) <= 5 * |t| + 9
    ensures forall s: seq<ch>, i: nat, j: nat :: Matches(r, s, i, j) <==> j == i + |t| && OccursAs(front, t, back, s, i)
  {
    hide Quote;
    hide IsSequence;
    hide RegexSyntax.Pattern;
    var e := Text(front, t, back);
    var acc := StartOf(front);
    var p := if front then 1 else 0;
    var q := p + |Quote(t)|;
    assert e[p..q] == Quote(t);
    assert Spells(e, acc, 0, p);
    assert Stops(e, q) by { MetaIs(At(e, q)); }
    var r1 := QuoteSpelled(e, 0, acc, p, t);
    var r2 := EndOf(e, r1, q, back);
    r := Branch(r2);
    forall s: seq<ch>, i: nat, j: nat
      ensures Matches(r, s, i, j) <==> j == i + |t| && OccursAs(front, t, back, s, i)
    {
      assert Matches(r1, s, i, j) <==> Behind(acc, t, s, i, j);
    }
  }

  /** It compiles, unless it is too long for 16-bit links ... */
  lemma TextCompiles(front: bool, t: seq<ch>, back: bool)
    requires 5 * |t| < 32754
    ensures exists r :: RegexSyntax.Pattern(Text(front, t, back), r) && Regex.ProgramSize(r) < 32767
  {
    hide RegexSyntax.Pattern;
    var r := TextPattern(front, t, back);
  }

  /** ... and without characters to be quoted up to 32755 of them. */
  lemma PlainCompiles(t: seq<ch>)
    requires t != [] && Plain(t)
    ensures |t| <= 32755 <==> exists r :: RegexSyntax.Pattern(t, r) && Regex.ProgramSize(r) < 32767
  {
    hide RegexSyntax.Pattern;
    SequenceEmpty();
    assert Stops(t, |t|) by { MetaIs(0); }
    assert t[0..|t|] == t;
    PlainSpelled(t, 0, t);
    var r := Branch(Exactly(t));
    AppendIsSequence(Empty, Exactly(t));
    SequencePattern(t, Exactly(t));
    assert Size(Exactly(t)) == |t| + 4 && Size(r) == |t| + 7;
    if r' :| RegexSyntax.Pattern(t, r') && Regex.ProgramSize(r') < 32767 {
      OneTree(t, r, r');
    }
  }

  /** Quoted text is found exactly where it is; with anchors, only at the ends. */
  lemma TextFound(front: bool, t: seq<ch>, back: bool, s: seq<ch>)
    ensures Regex.Found(Text(front, t, back), s) <==> exists k: nat :: OccursAs(front, t, back, s, k)
  {
    hide RegexSyntax.Pattern;
    var r := TextPattern(front, t, back);
    Regex.FoundIs(Text(front, t, back), r, s);
    if k: nat :| OccursAs(front, t, back, s, k) {
      assert Matches(r, s, k, k + |t|);
      assert Regex.MatchesAt(r, s, k);
    }
    if i: nat :| Regex.MatchesAt(r, s, i) {
      var j: nat :| Matches(r, s, i, j);
    }
  }

  // ---- A group of quoted text, repeated ----

  function Times(t: seq<ch>, n: nat): seq<ch> {
    if n == 0 then [] else t + Times(t, n - 1)
  }

  /** A repetition operator, if any, and how often it allows its operand. */
  predicate Allows(op: seq<ch>, n: nat) {
    if op == ['*' as int] then true
    else if op == ['+' as int] then n >= 1
    else if op == ['?' as int] then n <= 1
    else n == 1
  }

  predicate Operator(op: seq<ch>) {
    op == [] || op == ['*' as int] || op == ['+' as int] || op == ['?' as int]
  }

  /** The group with t, repeated, and nothing else. */
  function Repetition(t: seq<ch>, op: seq<ch>): seq<ch> {
    ['^' as int, '(' as int] + Quote(t) + [')' as int] + op + ['$' as int]
  }

  /** x matches t and nothing else. */
  ghost predicate Only(x: Rx, t: seq<ch>) {
    forall s: seq<ch>, i: nat, j: nat :: Matches(x, s, i, j) <==> j == i + |t| <= |s| && s[i..j] == t
  }

  lemma {:induction false} TimesMatch(x: Rx, t: seq<ch>, s: seq<ch>, i: nat, j: nat) returns (n: nat)
    requires Only(x, t) && Iterates(x, s, i, j)
    ensures i <= j <= |s| && s[i..j] == Times(t, n)
    decreases j - i
  {
    n := 0;
    if i != j {
      var k := StarSplit(x, s, i, j);
      var m := TimesMatch(x, t, s, k, j);
      n := m + 1;
      assert s[i..j] == s[i..k] + s[k..j];
    }
  }

  lemma {:induction false} MatchTimes(x: Rx, t: seq<ch>, s: seq<ch>, i: nat, j: nat, n: nat)
    requires Only(x, t) && t != [] && i <= j <= |s| && s[i..j] == Times(t, n)
    ensures Iterates(x, s, i, j) && (n == 0 <==> i == j)
    decreases n
  {
    if n > 0 {
      var k := i + |t|;
      assert s[i..j][..|t|] == t && s[i..j][|t|..] == Times(t, n - 1);
      assert s[i..k] == s[i..j][..|t|] && s[k..j] == s[i..j][|t|..];
      MatchTimes(x, t, s, k, j, n - 1);
      PlusMatch(x, s, i, k, j);
    }
  }

  function Applied(op: seq<ch>, x: Rx): Rx {
    if op == ['*' as int] then Star(x) else if op == ['+' as int] then Plus(x)
    else if op == ['?' as int] then Opt(x) else x
  }

  lemma PlusTimes(x: Rx, t: seq<ch>, s: seq<ch>, i: nat, j: nat) returns (n: nat)
    requires Only(x, t) && Matches(Plus(x), s, i, j)
    ensures i <= j <= |s| && n >= 1 && s[i..j] == Times(t, n)
  {
    hide Iterates;
    var k := PlusSplit(x, s, i, j);
    var m := TimesMatch(x, t, s, k, j);
    n := m + 1;
    assert s[i..j] == s[i..k] + s[k..j];
  }

  lemma OptTimes(x: Rx, t: seq<ch>, s: seq<ch>, i: nat, j: nat) returns (n: nat)
    requires Only(x, t) && Matches(Opt(x), s, i, j)
    ensures i <= j <= |s| && n <= 1 && s[i..j] == Times(t, n)
  {
    n := if i == j then 0 else 1;
    assert Times(t, 1) == t && Times(t, 0) == [];
  }

  lemma AppliedTimes(op: seq<ch>, x: Rx, t: seq<ch>, s: seq<ch>, i: nat, j: nat) returns (n: nat)
    requires Operator(op) && Only(x, t) && Matches(Applied(op, x), s, i, j)
    ensures i <= j <= |s| && Allows(op, n) && s[i..j] == Times(t, n)
  {
    if op == ['*' as int] {
      n := TimesMatch(x, t, s, i, j);
    } else {
      hide Matches;
      if op == ['+' as int] {
        n := PlusTimes(x, t, s, i, j);
      } else if op == ['?' as int] {
        n := OptTimes(x, t, s, i, j);
      } else {
        n := 1;
        assert Times(t, 1) == t;
      }
    }
  }

  lemma TimesApplied(op: seq<ch>, x: Rx, t: seq<ch>, s: seq<ch>, i: nat, j: nat, n: nat)
    requires Operator(op) && Only(x, t) && t != [] && i <= j <= |s| && Allows(op, n) && s[i..j] == Times(t, n)
    ensures Matches(Applied(op, x), s, i, j)
  {
    MatchTimes(x, t, s, i, j, n);
    if op == ['+' as int] {
      var k := StarSplit(x, s, i, j);
    } else if op != ['*' as int] && n == 1 {
      assert Times(t, 1) == t;
      assert Matches(x, s, i, j);
    }
  }

  /** Quoted text by itself, up to a bar or a closing parenthesis. */
  lemma PartSpelled(e: seq<ch>, p: nat, t: seq<ch>) returns (r: Rx)
    requires p + |Quote(t)| < |e| && e[p..p + |Quote(t)|] == Quote(t)
    requires e[p + |Quote(t)|] == '|' as int || e[p + |Quote(t)|] == ')' as int
    ensures IsSequence(r) && Spells(e, r, p, p + |Quote(t)|) && Only(r, t) && Groups(r) == 0
    ensures forall n :: InOrder(r, n)
  {
    hide Quote;
    hide Extends;
    hide Only;
    MetaIs(e[p + |Quote(t)|]);
    SequenceEmpty();
    r := QuoteSpelled(e, p, Empty, p, t);
    ExtendsEmpty(e, r, p, p + |Quote(t)|, t);
  }

  lemma ExtendsEmpty(e: seq<ch>, r: Rx, p: nat, q: nat, t: seq<ch>)
    requires Extends(e, r, p, q, Empty, t)
    ensures IsSequence(r) && Spells(e, r, p, q) && Only(r, t) && Groups(r) == 0
    ensures forall n :: InOrder(r, n)
  {
    hide Spells;
    hide IsSequence;
    forall s: seq<ch>, i: nat, j: nat ensures Matches(r, s, i, j) <==> j == i + |t| <= |s| && s[i..j] == t {
      assert Matches(r, s, i, j) <==> Behind(Empty, t, s, i, j);
    }
    forall n ensures InOrder(r, n) { assert InOrder(Empty, n); }
  }

  /** The first group around a choice without groups of its own. */
  lemma GroupSpelled(e: seq<ch>, i: nat, b: Rx, j: nat)
    requires IsChoice(b) && i < j < |e| && e[i] == '(' as int && Spells(e, b, i + 1, j) && e[j] == ')' as int
    requires Groups(b) == 0 && InOrder(b, 2)
    ensures IsAtom(Group(1, b)) && Spells(e, Group(1, b), i, j + 1)
    ensures Groups(Group(1, b)) == 1 && InOrder(Group(1, b), 1)
  {
    hide IsChoice;
  }

  /** A piece between two anchors makes a pattern. */
  lemma Anchored(e: seq<ch>, x: Rx, q: nat) returns (r: Rx)
    requires 1 <= q && |e| == q + 1 && e[0] == '^' as int && e[q] == '$' as int
    requires IsPiece(x) && Spells(e, x, 1, q) && Groups(x) <= 9 && InOrder(x, 1)
    ensures RegexSyntax.Pattern(e, r)
    ensures forall s: seq<ch>, i: nat, j: nat :: Matches(r, s, i, j) <==> i == 0 && j == |s| && Matches(x, s, i, j)
  {
    hide RegexSyntax.Pattern;
    hide Matches;
    hide IsSequence;
    AfterBol(e, x, q);
    var r2 := EndOf(e, Cat(Bol, x), q, true);
    r := Branch(r2);
    forall s: seq<ch>, i: nat, j: nat
      ensures Matches(r, s, i, j) <==> i == 0 && j == |s| && Matches(x, s, i, j)
    {
      BranchMatches(r2, s, i, j);
      BolMatches(x, s, i, j);
    }
  }

  lemma AfterBol(e: seq<ch>, x: Rx, q: nat)
    requires 1 <= q <= |e| && e[0] == '^' as int && IsPiece(x) && Spells(e, x, 1, q) && InOrder(x, 1)
    ensures IsSequence(Cat(Bol, x)) && Spells(e, Cat(Bol, x), 0, q)
    ensures InOrder(Cat(Bol, x), 1) && Groups(Cat(Bol, x)) == Groups(x)
  {
    AppendIsSequence(Bol, x);
    assert Spells(e, Bol, 0, 1);
  }

  lemma BranchMatches(b: Rx, s: seq<ch>, i: nat, j: nat)
    ensures Matches(Branch(b), s, i, j) <==> Matches(b, s, i, j)
  {
  }

  lemma BolMatches(x: Rx, s: seq<ch>, i: nat, j: nat)
    ensures Matches(Cat(Bol, x), s, i, j) <==> i == 0 && Matches(x, s, i, j)
  {
    if Matches(Cat(Bol, x), s, i, j) { var h := CatSplit(Bol, x, s, i, j); }
    if i == 0 && Matches(x, s, i, j) { assert Matches(Bol, s, 0, 0); }
  }

  lemma AppliedPiece(e: seq<ch>, op: seq<ch>, x: Rx, i: nat, j: nat)
    requires Operator(op) && IsAtom(x) && HasWidth(x) && Spells(e, x, i, j) && InOrder(x, 1)
    requires j + |op| <= |e| && e[j..j + |op|] == op
    ensures IsPiece(Applied(op, x)) && Spells(e, Applied(op, x), i, j + |op|)
    ensures Groups(Applied(op, x)) == Groups(x) && InOrder(Applied(op, x), 1)
  {
    hide IsAtom;
    if op != [] {
      assert e[j..j + 1][0] == e[j];
    } else {
      AtomIsPiece(x);
    }
  }

  lemma AtomIsPiece(x: Rx)
    requires IsAtom(x)
    ensures IsPiece(x)
  {
  }

  /** The group with t and nothing else. */
  lemma GroupOnly(r: Rx, t: seq<ch>)
    requires IsSequence(r) && Only(r, t)
    ensures Only(Group(1, Branch(r)), t) && (t != [] ==> HasWidth(Group(1, Branch(r))))
  {
    hide IsSequence;
    SequenceWellFormed(r);
    HasWidthExact(r);
    assert HasWidth(Branch(r)) == HasWidth(r);
    forall s: seq<ch>, i: nat, j: nat
      ensures Matches(Group(1, Branch(r)), s, i, j) <==> j == i + |t| <= |s| && s[i..j] == t
    {
      BranchMatches(r, s, i, j);
    }
  }

  lemma RepetitionParts(t: seq<ch>, op: seq<ch>)
    ensures var e, q := Repetition(t, op), 2 + |Quote(t)|;
            |e| == q + |op| + 2 && e[0] == '^' as int && e[1] == '(' as int && e[2..q] == Quote(t) &&
            e[q] == ')' as int && e[q + 1..q + 1 + |op|] == op && e[q + 1 + |op|] == '$' as int
  {
    hide Quote;
  }

  /** The tree of a repetition. */
  lemma RepetitionPattern(t: seq<ch>, op: seq<ch>) returns (r: Rx, x: Rx)
    requires Operator(op) && t != []
    ensures RegexSyntax.Pattern(Repetition(t, op), r) && Only(x, t)
    ensures forall s: seq<ch>, i: nat, j: nat ::
              Matches(r, s, i, j) <==> i == 0 && j == |s| && Matches(Applied(op, x), s, i, j)
  {
    hide Quote;
    hide Repetition;
    hide RegexSyntax.Pattern;
    hide Only;
    hide IsSequence;
    hide IsPiece;
    hide IsAtom;
    hide IsChoice;
    hide Spells;
    hide Matches;
    hide InOrder;
    hide Groups;
    hide HasWidth;
    hide Applied;
    RepetitionParts(t, op);
    var e, q := Repetition(t, op), 2 + |Quote(t)|;
    var b := PartSpelled(e, 2, t);
    x := Group(1, Branch(b));
    ChoiceOfOne(e, b, 2, q);
    GroupSpelled(e, 1, Branch(b), q);
    GroupOnly(b, t);
    AppliedPiece(e, op, x, 1, q + 1);
    r := Anchored(e, Applied(op, x), q + 1 + |op|);
  }

  lemma ChoiceOfOne(e: seq<ch>, b: Rx, i: nat, j: nat)
    requires IsSequence(b) && Spells(e, b, i, j) && Groups(b) == 0 && InOrder(b, 2)
    ensures IsChoice(Branch(b)) && Spells(e, Branch(b), i, j) && Groups(Branch(b)) == 0 && InOrder(Branch(b), 2)
  {
    hide IsSequence;
  }

  /** It is found exactly in the strings that are t so many times over. */
  lemma RepetitionFound(t: seq<ch>, op: seq<ch>, s: seq<ch>)
    requires Operator(op) && t != []
    ensures Regex.Found(Repetition(t, op), s) <==> exists n: nat :: Allows(op, n) && s == Times(t, n)
  {
    hide RegexSyntax.Pattern;
    hide Only;
    hide Applied;
    hide Allows;
    var r, x := RepetitionPattern(t, op);
    Regex.FoundIs(Repetition(t, op), r, s);
    assert s[0..|s|] == s;
    if n: nat :| Allows(op, n) && s == Times(t, n) {
      TimesApplied(op, x, t, s, 0, |s|, n);
      assert Matches(r, s, 0, |s|);
      assert Regex.MatchesAt(r, s, 0);
    }
    if i: nat :| Regex.MatchesAt(r, s, i) {
      var j: nat :| Matches(r, s, i, j);
      var n := AppliedTimes(op, x, t, s, i, j);
    }
  }

  // ---- One character repeated ----

  /** t, then the character c repeated, and nothing else. */
  function Tail(t: seq<ch>, c: ch, op: seq<ch>): seq<ch> {
    ['^' as int] + Quote(t) + [c] + op + ['$' as int]
  }

  lemma TailParts(t: seq<ch>, c: ch, op: seq<ch>)
    ensures var e, q := Tail(t, c, op), 1 + |Quote(t)|;
            |e| == q + |op| + 2 && e[0] == '^' as int && e[1..q] == Quote(t) && e[q] == c &&
            e[q + 1..q + 1 + |op|] == op && e[q + 1 + |op|] == '$' as int
  {
    hide Quote;
  }

  lemma OneSpelled(e: seq<ch>, q: nat, c: ch)
    requires !Meta(c) && q + 1 < |e| && e[q] == c && IsMult(e[q + 1])
    ensures IsAtom(Exactly([c])) && Spells(e, Exactly([c]), q, q + 1) && Only(Exactly([c]), [c]) && Stops(e, q)
  {
    MetaIs(c);
    MetaIs(e[q + 1]);
    assert Literal(e, q, q + 1) && e[q..q + 1] == [c];
  }

  /** The tree of the text in front, with the anchor. */
  lemma FrontSpelled(e: seq<ch>, t: seq<ch>) returns (r: Rx)
    requires 1 + |Quote(t)| <= |e| && e[0] == '^' as int && e[1..1 + |Quote(t)|] == Quote(t)
    requires Stops(e, 1 + |Quote(t)|)
    ensures IsSequence(r) && Spells(e, r, 0, 1 + |Quote(t)|) && r != Empty && Groups(r) == 0 && InOrder(r, 1)
    ensures forall s: seq<ch>, i: nat, j: nat :: Matches(r, s, i, j) <==> i == 0 && j == |t| <= |s| && s[..|t|] == t
  {
    hide Quote;
    hide Stops;
    var acc := StartOf(true);
    assert Spells(e, acc, 0, 1);
    r := QuoteSpelled(e, 0, acc, 1, t);
    if t == [] { assert Extends(e, r, 0, 1 + |Quote(t)|, acc, t); }
    forall s: seq<ch>, i: nat, j: nat ensures Matches(r, s, i, j) <==> i == 0 && j == |t| <= |s| && s[..|t|] == t {
      assert Matches(r, s, i, j) <==> Behind(acc, t, s, i, j);
    }
  }

  lemma TailPattern(t: seq<ch>, c: ch, op: seq<ch>) returns (r: Rx, x: Rx)
    requires Operator(op) && op != [] && !Meta(c)
    ensures RegexSyntax.Pattern(Tail(t, c, op), r) && Only(x, [c])
    ensures forall s: seq<ch>, i: nat, j: nat :: Matches(r, s, i, j) <==>
              i == 0 && |t| <= j == |s| && s[..|t|] == t && Matches(Applied(op, x), s, |t|, j)
  {
    hide Quote;
    hide Tail;
    hide RegexSyntax.Pattern;
    hide Only;
    hide Stops;
    hide IsSequence;
    hide IsPiece;
    hide IsAtom;
    hide Spells;
    hide Matches;
    hide Meta;
    TailParts(t, c, op);
    var e, q := Tail(t, c, op), 1 + |Quote(t)|;
    assert e[q + 1] == op[0] by { assert e[q + 1..q + 1 + |op|][0] == e[q + 1]; }
    OneSpelled(e, q, c);
    x := Exactly([c]);
    AppliedPiece(e, op, x, q, q + 1);
    var r1 := FrontSpelled(e, t);
    var y := Applied(op, x);
    Joined(e, r1, y, q, q + 1 + |op|);
    var r2 := EndOf(e, Cat(r1, y), q + 1 + |op|, true);
    r := Branch(r2);
    forall s: seq<ch>, i: nat, j: nat
      ensures Matches(r, s, i, j) <==> i == 0 && |t| <= j == |s| && s[..|t|] == t && Matches(y, s, |t|, j)
    {
      BranchMatches(r2, s, i, j);
      FrontMatches(r1, y, t, s, i, j);
    }
  }

  lemma Joined(e: seq<ch>, a: Rx, b: Rx, k: nat, j: nat)
    requires IsSequence(a) && a != Empty && Spells(e, a, 0, k) && Groups(a) == 0 && InOrder(a, 1)
    requires IsPiece(b) && Spells(e, b, k, j) && InOrder(b, 1)
    ensures IsSequence(Cat(a, b)) && Spells(e, Cat(a, b), 0, j)
    ensures Groups(Cat(a, b)) == Groups(b) && InOrder(Cat(a, b), 1)
  {
    hide IsPiece;
    hide IsSequence;
    hide Spells;
    AppendIsSequence(a, b);
    CatSpelled(e, a, b, 0, k, j);
  }

  lemma CatSpelled(e: seq<ch>, a: Rx, b: Rx, i: nat, k: nat, j: nat)
    requires Spells(e, a, i, k) && Spells(e, b, k, j)
    ensures Spells(e, Cat(a, b), i, j)
  {
    assert i <= k <= j;
  }

  lemma FrontMatches(a: Rx, b: Rx, t: seq<ch>, s: seq<ch>, i: nat, j: nat)
    requires forall i: nat, k: nat :: Matches(a, s, i, k) <==> i == 0 && k == |t| <= |s| && s[..|t|] == t
    ensures Matches(Cat(a, b), s, i, j) <==> i == 0 && |t| <= j <= |s| && s[..|t|] == t && Matches(b, s, |t|, j)
  {
    if Matches(Cat(a, b), s, i, j) { var k := CatSplit(a, b, s, i, j); }
    if i == 0 && |t| <= j <= |s| && s[..|t|] == t && Matches(b, s, |t|, j) { assert Matches(a, s, 0, |t|); }
  }

  /** The operator takes the last character alone. */
  lemma TailFound(t: seq<ch>, c: ch, op: seq<ch>, s: seq<ch>)
    requires Operator(op) && op != [] && !Meta(c)
    ensures Regex.Found(Tail(t, c, op), s) <==> exists n: nat :: Allows(op, n) && s == t + Times([c], n)
  {
    hide RegexSyntax.Pattern;
    hide Only;
    hide Applied;
    hide Allows;
    hide Matches;
    hide Tail;
    hide Operator;
    var r, x := TailPattern(t, c, op);
    Regex.FoundIs(Tail(t, c, op), r, s);
    if n: nat :| Allows(op, n) && s == t + Times([c], n) {
      assert s[|t|..|s|] == Times([c], n) && s[..|t|] == t;
      TimesApplied(op, x, [c], s, |t|, |s|, n);
      assert Matches(r, s, 0, |s|);
      assert Regex.MatchesAt(r, s, 0);
    }
    if i: nat :| Regex.MatchesAt(r, s, i) {
      var j: nat :| Matches(r, s, i, j);
      var n := AppliedTimes(op, x, [c], s, |t|, |s|);
      assert s == s[..|t|] + s[|t|..|s|];
    }
  }

  // ---- A choice ----

  /** Either t or u, and nothing else. */
  function Either(t: seq<ch>, u: seq<ch>): seq<ch> {
    ['^' as int, '(' as int] + Quote(t) + ['|' as int] + Quote(u) + [')' as int, '$' as int]
  }

  lemma EitherParts(t: seq<ch>, u: seq<ch>)
    ensures var e, p, q := Either(t, u), 2 + |Quote(t)|, 3 + |Quote(t)| + |Quote(u)|;
            |e| == q + 2 && e[0] == '^' as int && e[1] == '(' as int && e[2..p] == Quote(t) && e[p] == '|' as int &&
            e[p + 1..q] == Quote(u) && e[q] == ')' as int && e[q + 1] == '$' as int
  {
    hide Quote;
  }

  lemma ChoiceOfTwo(e: seq<ch>, a: Rx, b: Rx, i: nat, k: nat, j: nat)
    requires IsSequence(a) && Spells(e, a, i, k) && Groups(a) == 0 && InOrder(a, 2)
    requires IsSequence(b) && Spells(e, b, k + 1, j) && Groups(b) == 0 && InOrder(b, 2)
    requires k < |e| && e[k] == '|' as int
    ensures var x := Alt(Branch(a), Branch(b)); IsChoice(x) && Spells(e, x, i, j) && Groups(x) == 0 && InOrder(x, 2)
  {
    hide IsSequence;
    assert Spells(e, Branch(a), i, k) && Spells(e, Branch(b), k + 1, j);
  }

  lemma EitherMatches(a: Rx, b: Rx, s: seq<ch>, i: nat, j: nat)
    ensures Matches(Group(1, Alt(Branch(a), Branch(b))), s, i, j) <==> Matches(a, s, i, j) || Matches(b, s, i, j)
  {
    BranchMatches(a, s, i, j);
    BranchMatches(b, s, i, j);
  }

  lemma EitherPattern(t: seq<ch>, u: seq<ch>) returns (r: Rx)
    ensures RegexSyntax.Pattern(Either(t, u), r)
    ensures forall s: seq<ch>, i: nat, j: nat ::
              Matches(r, s, i, j) <==> i == 0 && j == |s| && (s == t || s == u)
  {
    hide Quote;
    hide Either;
    hide RegexSyntax.Pattern;
    hide Spells;
    hide IsPiece;
    hide IsSequence;
    hide IsAtom;
    hide IsChoice;
    hide Matches;
    hide InOrder;
    hide Groups;
    EitherParts(t, u);
    var e, p, q := Either(t, u), 2 + |Quote(t)|, 3 + |Quote(t)| + |Quote(u)|;
    var a := PartSpelled(e, 2, t);
    var b := PartSpelled(e, p + 1, u);
    ChoiceOfTwo(e, a, b, 2, p, q);
    var x := Group(1, Alt(Branch(a), Branch(b)));
    GroupSpelled(e, 1, Alt(Branch(a), Branch(b)), q);
    AtomIsPiece(x);
    r := Anchored(e, x, q + 1);
    forall s: seq<ch>, i: nat, j: nat
      ensures Matches(r, s, i, j) <==> i == 0 && j == |s| && (s == t || s == u)
    {
      assert s[0..|s|] == s;
      EitherMatches(a, b, s, i, j);
    }
  }

  /** It is found in these two strings only. */
  lemma EitherFound(t: seq<ch>, u: seq<ch>, s: seq<ch>)
    ensures Regex.Found(Either(t, u), s) <==> s == t || s == u
  {
    hide RegexSyntax.Pattern;
    hide Either;
    var r := EitherPattern(t, u);
    Regex.FoundIs(Either(t, u), r, s);
    if s == t || s == u {
      assert Matches(r, s, 0, |s|);
      assert Regex.MatchesAt(r, s, 0);
    }
  }

  // ---- Dots ----

  function Dots(n: nat): seq<ch> {
    if n == 0 then [] else Dots(n - 1) + ['.' as int]
  }

  lemma {:induction false} DotsSpelled(e: seq<ch>, n: nat) returns (r: Rx)
    requires n + 1 <= |e| && e[0] == '^' as int && e[1..n + 1] == Dots(n)
    ensures |Dots(n)| == n && IsSequence(r) && Spells(e, r, 0, n + 1) && Groups(r) == 0 && InOrder(r, 1)
    ensures forall s: seq<ch>, i: nat, j: nat :: Matches(r, s, i, j) <==> i == 0 && j == n <= |s|
  {
    r := Bol;
    if n > 0 {
      assert e[1..n + 1][..n - 1] == e[1..n] && e[1..n + 1][n - 1] == e[n];
      assert |Dots(n - 1)| == |Dots(n)| - 1 && Dots(n)[..n - 1] == Dots(n - 1);
      var r1 := DotsSpelled(e, n - 1);
      r := Append(r1, Any);
      AppendIsSequence(r1, Any);
      assert Spells(e, Any, n, n + 1);
      forall s: seq<ch>, i: nat, j: nat ensures Matches(r, s, i, j) <==> i == 0 && j == n <= |s| {
        if Matches(r, s, i, j) && r1 != Empty { var h := CatSplit(r1, Any, s, i, j); }
        if i == 0 && j == n <= |s| { assert Matches(r1, s, 0, n - 1) && Matches(Any, s, n - 1, n); }
      }
    }
  }

  lemma DotsPattern(n: nat) returns (r: Rx)
    ensures RegexSyntax.Pattern(['^' as int] + Dots(n) + ['$' as int], r)
    ensures forall s: seq<ch>, i: nat, j: nat :: Matches(r, s, i, j) <==> i == 0 && j == n == |s|
  {
    hide RegexSyntax.Pattern;
    hide Spells;
    hide IsSequence;
    var e := ['^' as int] + Dots(n) + ['$' as int];
    DotsLength(n);
    assert e[1..n + 1] == Dots(n);
    var r1 := DotsSpelled(e, n);
    var r2 := EndOf(e, r1, n + 1, true);
    r := Branch(r2);
    forall s: seq<ch>, i: nat, j: nat ensures Matches(r, s, i, j) <==> i == 0 && j == n == |s| {
      BranchMatches(r2, s, i, j);
    }
  }

  /** n dots match any n characters. */
  lemma DotsFound(n: nat, s: seq<ch>)
    ensures Regex.Found(['^' as int] + Dots(n) + ['$' as int], s) <==> |s| == n
  {
    hide RegexSyntax.Pattern;
    hide Matches;
    var r := DotsPattern(n);
    Regex.FoundIs(['^' as int] + Dots(n) + ['$' as int], r, s);
    if |s| == n {
      assert Matches(r, s, 0, n);
      assert Regex.MatchesAt(r, s, 0);
    }
  }

  lemma {:induction false} DotsLength(n: nat)
    ensures |Dots(n)| == n
  {
    if n > 0 { DotsLength(n - 1); }
  }

  // ---- A range ----

  /** One character from lo to hi, or outside. */
  function OneOf(lo: ch, hi: ch, negated: bool): seq<ch> {
    ['^' as int, '[' as int] + (if negated then ['^' as int] else []) + [lo, '-' as int, hi, ']' as int, '$' as int]
  }

  lemma RangeSpelled(lo: ch, hi: ch, negated: bool) returns (x: Rx)
    requires lo <= hi && lo != '^' as int && lo != '-' as int && lo != ']' as int && hi != ']' as int
    ensures var e := OneOf(lo, hi, negated); IsAtom(x) && Spells(e, x, 1, |e| - 1) && Groups(x) == 0 && InOrder(x, 1)
    ensures forall s: seq<ch>, i: nat, j: nat ::
              Matches(x, s, i, j) <==> i < |s| && j == i + 1 && (lo <= s[i] <= hi <==> !negated)
  {
    var e := OneOf(lo, hi, negated);
    var p := if negated then 3 else 2;
    var end := p + 3;
    assert e[p] == lo && e[p + 1] == '-' as int && e[p + 2] == hi && e[end] == ']' as int && |e| == end + 2;
    var cs := Members(e, p, end);
    assert Closes(e, p, end) && Ordered(e, p, end) && e[p..p] + cs == cs;
    x := if negated then AnyBut(cs) else AnyOf(cs);
    forall s: seq<ch>, i: nat, j: nat
      ensures Matches(x, s, i, j) <==> i < |s| && j == i + 1 && (lo <= s[i] <= hi <==> !negated)
    {
      BracketMatches(e, 1, end + 1, x, s, i, j);
      if i < |s| { assert !Named(e, end, end, s[i]) && (Named(e, p + 1, end, s[i]) <==> lo <= s[i] <= hi); }
    }
  }

  lemma RangeFound(lo: ch, hi: ch, negated: bool, s: seq<ch>)
    requires lo <= hi && lo != '^' as int && lo != '-' as int && lo != ']' as int && hi != ']' as int
    ensures Regex.Found(OneOf(lo, hi, negated), s) <==> |s| == 1 && (lo <= s[0] <= hi <==> !negated)
  {
    hide RegexSyntax.Pattern;
    hide Spells;
    hide IsPiece;
    hide IsAtom;
    hide Matches;
    var e := OneOf(lo, hi, negated);
    var x := RangeSpelled(lo, hi, negated);
    AtomIsPiece(x);
    var r := Anchored(e, x, |e| - 1);
    Regex.FoundIs(e, r, s);
    if |s| == 1 && (lo <= s[0] <= hi <==> !negated) {
      assert Matches(r, s, 0, 1);
      assert Regex.MatchesAt(r, s, 0);
    }
  }
}
