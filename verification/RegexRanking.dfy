/** All matches from a position, in the order in which a backtracking search
    should find them: left alternatives first, more repetitions first. */
module RegexRanking {
  import opened CTypes
  import opened RegexLanguage
  import opened RegexTraces

  /** A match by where it ends, with the parentheses passed. */
  datatype Match = Match(end: nat, t: Trace)

  /** The same matches with t passed before. */
  function Prefixed(t: Trace, l: seq<Match>): (p: seq<Match>)
    ensures |p| == |l| && forall n :: 0 <= n < |l| ==> p[n] == Match(l[n].end, t + l[n].t)
  {
    seq(|l|, n requires 0 <= n < |l| => Match(l[n].end, t + l[n].t))
  }

  /** The same matches, of the body of group no from i on, as matches of the group. */
  function Grouped(no: nat, i: nat, l: seq<Match>): (p: seq<Match>)
    ensures |p| == |l|
    ensures forall n :: 0 <= n < |l| ==> p[n] == Match(l[n].end, [Open(no, i)] + l[n].t + [Close(no, l[n].end)])
  {
    seq(|l|, n requires 0 <= n < |l| => Match(l[n].end, [Open(no, i)] + l[n].t + [Close(no, l[n].end)]))
  }

  /** Each match of l with all that can come next. */
  function Each(l: seq<Match>, next: nat -> seq<Match>): seq<Match> {
    if l == [] then [] else Prefixed(l[0].t, next(l[0].end)) + Each(l[1..], next)
  }

  predicate IsLeaf(r: Rx) {
    r.Bol? || r.Eol? || r.Any? || r.AnyOf? || r.AnyBut? || r.Exactly? || r.Empty?
  }

  /** How long every match of a leaf is. */
  function Length(r: Rx): nat {
    match r
    case Any => 1
    case AnyOf(_) => 1
    case AnyBut(_) => 1
    case Exactly(cs) => |cs|
    case _ => 0
  }

  /** The matches of r from i on, the preferred ones first. */
  ghost function Ranked(r: Rx, s: seq<ch>, i: nat): seq<Match>
    decreases r, 0, 0, 0
  {
    if i > |s| then [] else
    match r
    case Group(no, b) => Grouped(no, i, Ranked(b, s, i))
    case Star(x) => Loops(x, s, i)
    case Plus(x) => Each(Ranked(x, s, i), LoopsFrom(x, s))
    case Opt(x) => Ranked(x, s, i) + [Match(i, [])]
    case Cat(a, b) => Each(Ranked(a, s, i), RankedFrom(b, s))
    case Branch(b) => Ranked(b, s, i)
    case Alt(a, b) => Ranked(a, s, i) + Ranked(b, s, i)
    case _ => if Matches(r, s, i, i + Length(r)) then [Match(i + Length(r), [])] else []
  }

  ghost function RankedFrom(r: Rx, s: seq<ch>): nat -> seq<Match>
    decreases r, 0, 1, 0
  {
    (k: nat) => Ranked(r, s, k)
  }

  /** Any number of matches of x that are not empty, one more being preferred. */
  ghost function Loops(x: Rx, s: seq<ch>, i: nat): seq<Match>
    decreases x, 1, if i <= |s| then |s| - i else 0, 1
  {
    if i > |s| then [] else Each(Ranked(x, s, i), LoopsAfter(x, s, i)) + [Match(i, [])]
  }

  ghost function LoopsAfter(x: Rx, s: seq<ch>, i: nat): nat -> seq<Match>
    decreases x, 1, if i <= |s| then |s| - i else 0, 0
  {
    (k: nat) => if i < k <= |s| then Loops(x, s, k) else []
  }

  ghost function LoopsFrom(x: Rx, s: seq<ch>): nat -> seq<Match>
    decreases x, 2, 0, 0
  {
    (k: nat) => Loops(x, s, k)
  }

  // ---- The matches ranked are the derivations ----

  lemma {:induction false} InEach(l: seq<Match>, next: nat -> seq<Match>, m: Match) returns (m1: Match, m2: Match)
    requires m in Each(l, next)
    ensures m1 in l && m2 in next(m1.end) && m == Match(m2.end, m1.t + m2.t)
  {
    var p := Prefixed(l[0].t, next(l[0].end));
    if m in p {
      var n :| 0 <= n < |p| && p[n] == m;
      m1, m2 := l[0], next(l[0].end)[n];
    } else {
      m1, m2 := InEach(l[1..], next, m);
    }
  }

  lemma {:induction false} EachHas(l: seq<Match>, next: nat -> seq<Match>, m1: Match, m2: Match)
    requires m1 in l && m2 in next(m1.end)
    ensures Match(m2.end, m1.t + m2.t) in Each(l, next)
  {
    if m1 == l[0] {
      var p := Prefixed(l[0].t, next(l[0].end));
      var n :| 0 <= n < |next(l[0].end)| && next(l[0].end)[n] == m2;
      assert p[n] == Match(m2.end, m1.t + m2.t);
    } else {
      EachHas(l[1..], next, m1, m2);
    }
  }

  lemma LeafLength(r: Rx, s: seq<ch>, i: nat, j: nat)
    requires IsLeaf(r) && Matches(r, s, i, j)
    ensures j == i + Length(r)
  {
  }

  lemma DerivesBounds(r: Rx, s: seq<ch>, i: nat, j: nat, t: Trace)
    requires Derives(r, s, i, j, t)
    ensures i <= j <= |s|
  {
  }

  /** A match is ranked exactly when it has a derivation with those parentheses. */
  lemma {:induction false} RankedExact(r: Rx, s: seq<ch>, i: nat, j: nat, t: Trace)
    ensures Match(j, t) in Ranked(r, s, i) <==> Derives(r, s, i, j, t)
    decreases r, 1, 0
  {
    hide Each;
    hide Loops;
    hide Rounds;
    if i <= |s| {
      match r
      case Group(no, b) => GroupExact(no, b, s, i, j, t);
      case Star(x) =>
        LoopsExact(x, s, i, j, t);
        if Rounds(x, s, i, j, t) { RoundsBounds(x, s, i, j, t); }
      case Plus(x) => PlusExact(x, s, i, j, t);
      case Opt(x) => RankedExact(x, s, i, j, t);
      case Cat(a, b) => CatExact(a, b, s, i, j, t);
      case Branch(b) => RankedExact(b, s, i, j, t);
      case Alt(a, b) =>
        RankedExact(a, s, i, j, t);
        RankedExact(b, s, i, j, t);
      case _ => if Matches(r, s, i, j) { LeafLength(r, s, i, j); }
    }
  }

  lemma GroupRanked(no: nat, b: Rx, s: seq<ch>, i: nat)
    requires i <= |s|
    ensures Ranked(Group(no, b), s, i) == Grouped(no, i, Ranked(b, s, i))
  {
    hide Matches;
    hide Each;
    hide Loops;
    hide Grouped;
  }

  lemma {:induction false} GroupExact(no: nat, b: Rx, s: seq<ch>, i: nat, j: nat, t: Trace)
    requires i <= |s|
    ensures Match(j, t) in Ranked(Group(no, b), s, i) <==> Derives(Group(no, b), s, i, j, t)
    decreases b, 2, 0
  {
    hide Ranked;
    hide Derives;
    var l := Ranked(b, s, i);
    var p := Grouped(no, i, l);
    GroupRanked(no, b, s, i);
    if Match(j, t) in p {
      var n :| 0 <= n < |p| && p[n] == Match(j, t);
      assert l[n] in l && l[n].end == j;
      RankedExact(b, s, i, j, l[n].t);
      GroupDerives(no, b, s, i, j, l[n].t);
    }
    if Derives(Group(no, b), s, i, j, t) {
      var u := GroupTrace(no, b, s, i, j, t);
      RankedExact(b, s, i, j, u);
      var n :| 0 <= n < |l| && l[n] == Match(j, u);
      assert p[n] == Match(j, t);
    }
  }

  lemma CatRanked(a: Rx, b: Rx, s: seq<ch>, i: nat)
    requires i <= |s|
    ensures Ranked(Cat(a, b), s, i) == Each(Ranked(a, s, i), RankedFrom(b, s))
  {
    hide Matches;
    hide Each;
    hide Loops;
    hide Prefixed;
  }

  lemma {:induction false} CatExact(a: Rx, b: Rx, s: seq<ch>, i: nat, j: nat, t: Trace)
    requires i <= |s|
    ensures Match(j, t) in Ranked(Cat(a, b), s, i) <==> Derives(Cat(a, b), s, i, j, t)
    decreases Cat(a, b), 0, 0
  {
    hide Each;
    hide Ranked;
    hide Derives;
    var l := Ranked(a, s, i);
    CatRanked(a, b, s, i);
    if Match(j, t) in Ranked(Cat(a, b), s, i) {
      var m1, m2 := InEach(l, RankedFrom(b, s), Match(j, t));
      RankedExact(a, s, i, m1.end, m1.t);
      RankedExact(b, s, m1.end, j, m2.t);
      CatDerives(a, b, s, i, m1.end, j, m1.t, m2.t);
    }
    if Derives(Cat(a, b), s, i, j, t) {
      var k, t1, t2 := CatTraces(a, b, s, i, j, t);
      RankedExact(a, s, i, k, t1);
      RankedExact(b, s, k, j, t2);
      EachHas(l, RankedFrom(b, s), Match(k, t1), Match(j, t2));
    }
  }

  lemma PlusRanked(x: Rx, s: seq<ch>, i: nat)
    requires i <= |s|
    ensures Ranked(Plus(x), s, i) == Each(Ranked(x, s, i), LoopsFrom(x, s))
  {
    hide Matches;
    hide Each;
    hide Loops;
    hide Prefixed;
  }

  lemma {:induction false} PlusExact(x: Rx, s: seq<ch>, i: nat, j: nat, t: Trace)
    requires i <= |s|
    ensures Match(j, t) in Ranked(Plus(x), s, i) <==> Derives(Plus(x), s, i, j, t)
    decreases x, 3, 0
  {
    hide Each;
    hide Loops;
    hide Rounds;
    hide Ranked;
    hide Derives;
    var l := Ranked(x, s, i);
    PlusRanked(x, s, i);
    if Match(j, t) in Ranked(Plus(x), s, i) {
      var m1, m2 := InEach(l, LoopsFrom(x, s), Match(j, t));
      RankedExact(x, s, i, m1.end, m1.t);
      LoopsExact(x, s, m1.end, j, m2.t);
      PlusDerives(x, s, i, m1.end, j, m1.t, m2.t);
    }
    if Derives(Plus(x), s, i, j, t) {
      var k, t1, t2 := PlusTraces(x, s, i, j, t);
      RankedExact(x, s, i, k, t1);
      LoopsExact(x, s, k, j, t2);
      EachHas(l, LoopsFrom(x, s), Match(k, t1), Match(j, t2));
    }
  }

  lemma {:induction false} LoopsExact(x: Rx, s: seq<ch>, i: nat, j: nat, t: Trace)
    ensures Match(j, t) in Loops(x, s, i) <==> Rounds(x, s, i, j, t)
    decreases x, 2, if i <= |s| then |s| - i else 0
  {
    hide Each;
    hide Derives;
    hide Rounds;
    hide Ranked;
    if Rounds(x, s, i, j, t) { RoundsBounds(x, s, i, j, t); }
    if i <= |s| {
      NoRound(x, s, i);
      var l := Ranked(x, s, i);
      if Match(j, t) in Each(l, LoopsAfter(x, s, i)) {
        var m1, m2 := InEach(l, LoopsAfter(x, s, i), Match(j, t));
        RankedExact(x, s, i, m1.end, m1.t);
        LoopsExact(x, s, m1.end, j, m2.t);
        OneMoreRound(x, s, i, m1.end, j, m1.t, m2.t);
      }
      if Rounds(x, s, i, j, t) && i != j {
        var k, t1, t2 := RoundsTraces(x, s, i, j, t);
        RankedExact(x, s, i, k, t1);
        LoopsExact(x, s, k, j, t2);
        EachHas(l, LoopsAfter(x, s, i), Match(k, t1), Match(j, t2));
      }
    }
  }

  lemma NoRound(x: Rx, s: seq<ch>, i: nat)
    requires i <= |s|
    ensures Rounds(x, s, i, i, [])
  {
  }

  /** What is ranked is a match ... */
  lemma RankedMatches(r: Rx, s: seq<ch>, i: nat, m: Match)
    requires m in Ranked(r, s, i)
    ensures Derives(r, s, i, m.end, m.t) && Matches(r, s, i, m.end)
  {
    hide Ranked;
    hide Derives;
    RankedExact(r, s, i, m.end, m.t);
    DerivesMatches(r, s, i, m.end, m.t);
  }

  /** ... and where there is a match, one is ranked. */
  lemma MatchRanked(r: Rx, s: seq<ch>, i: nat, j: nat)
    requires Matches(r, s, i, j)
    ensures Ranked(r, s, i) != []
  {
    hide Ranked;
    hide Derives;
    var t := MatchesDerives(r, s, i, j);
    RankedExact(r, s, i, j, t);
  }

  // ---- What is preferred ----

  lemma AltRanked(a: Rx, b: Rx, s: seq<ch>, i: nat)
    ensures Ranked(Alt(a, b), s, i) == Ranked(a, s, i) + Ranked(b, s, i)
  {
    hide Matches;
    hide Each;
    hide Loops;
    match Alt(a, b)
    case Alt(_, _) =>
  }

  lemma OptRanked(x: Rx, s: seq<ch>, i: nat)
    requires i <= |s|
    ensures Ranked(Opt(x), s, i) == Ranked(x, s, i) + [Match(i, [])]
  {
    hide Matches;
    hide Each;
    hide Loops;
    match Opt(x)
    case Opt(_) =>
  }

  /** The left alternative, if it matches at all. */
  lemma AltPrefers(a: Rx, b: Rx, s: seq<ch>, i: nat)
    requires Ranked(Alt(a, b), s, i) != []
    ensures if exists j: nat :: Matches(a, s, i, j)
            then Ranked(a, s, i) != [] && Ranked(Alt(a, b), s, i)[0] == Ranked(a, s, i)[0]
            else Ranked(b, s, i) != [] && Ranked(Alt(a, b), s, i)[0] == Ranked(b, s, i)[0]
  {
    hide Matches;
    hide Ranked;
    AltRanked(a, b, s, i);
    if j: nat :| Matches(a, s, i, j) {
      MatchRanked(a, s, i, j);
    } else if Ranked(a, s, i) != [] {
      RankedMatches(a, s, i, Ranked(a, s, i)[0]);
    }
  }

  /** An operand that may be left out is not, if it matches at all. */
  lemma OptPrefers(x: Rx, s: seq<ch>, i: nat)
    requires i <= |s|
    ensures Ranked(Opt(x), s, i) != []
    ensures if exists j: nat :: Matches(x, s, i, j)
            then Ranked(x, s, i) != [] && Ranked(Opt(x), s, i)[0] == Ranked(x, s, i)[0]
            else Ranked(Opt(x), s, i)[0] == Match(i, [])
  {
    hide Matches;
    hide Ranked;
    OptRanked(x, s, i);
    if j: nat :| Matches(x, s, i, j) {
      MatchRanked(x, s, i, j);
    } else if Ranked(x, s, i) != [] {
      RankedMatches(x, s, i, Ranked(x, s, i)[0]);
    }
  }

  /** A loop ends where it could not have gone on: one more round would not move. */
  lemma {:induction false} LoopEnds(x: Rx, s: seq<ch>, i: nat, j: nat)
    requires i <= |s| && Matches(x, s, Loops(x, s, i)[0].end, j)
    ensures j <= Loops(x, s, i)[0].end
    decreases |s| - i
  {
    hide Matches;
    hide Ranked;
    hide Each;
    var l, f := Ranked(x, s, i), LoopsAfter(x, s, i);
    if Each(l, f) == [] {
      assert Loops(x, s, i)[0] == Match(i, []);
      if i < j {
        var t := MatchesDerives(x, s, i, j);
        RankedExact(x, s, i, j, t);
        DerivesBounds(x, s, i, j, t);
        EachHas(l, f, Match(j, t), Loops(x, s, j)[0]);
      }
    } else {
      var n := FirstOfEach(l, f);
      assert Loops(x, s, i)[0].end == Loops(x, s, l[n].end)[0].end;
      LoopEnds(x, s, l[n].end, j);
    }
  }

  /** The first way on: from the earliest match that has any. */
  lemma {:induction false} FirstOfEach(l: seq<Match>, next: nat -> seq<Match>) returns (n: nat)
    requires Each(l, next) != []
    ensures n < |l| && next(l[n].end) != [] && forall k :: 0 <= k < n ==> next(l[k].end) == []
    ensures Each(l, next)[0] == Match(next(l[n].end)[0].end, l[n].t + next(l[n].end)[0].t)
  {
    n := 0;
    if next(l[0].end) == [] {
      var m := FirstOfEach(l[1..], next);
      n := m + 1;
    }
  }

  /** With at least one round: the preferred first one, and then on as long as it goes. */
  lemma PlusPrefers(x: Rx, s: seq<ch>, i: nat)
    requires Ranked(Plus(x), s, i) != []
    ensures Ranked(x, s, i) != []
    ensures var l := Ranked(Star(x), s, Ranked(x, s, i)[0].end);
            l != [] && Ranked(Plus(x), s, i)[0].end == l[0].end
    ensures forall j: nat :: Matches(x, s, Ranked(Plus(x), s, i)[0].end, j) ==> j <= Ranked(Plus(x), s, i)[0].end
  {
    hide Matches;
    hide Each;
    PlusRanked(x, s, i);
    var l := Ranked(x, s, i);
    var n := FirstOfEach(l, LoopsFrom(x, s));
    RankedMatches(x, s, i, l[0]);
    DerivesBounds(x, s, i, l[0].end, l[0].t);
    assert n == 0 && Loops(x, s, l[0].end) != [];
    forall j: nat | Matches(x, s, Ranked(Plus(x), s, i)[0].end, j) ensures j <= Ranked(Plus(x), s, i)[0].end {
      LoopEnds(x, s, l[0].end, j);
    }
  }

  /** In a sequence, the earliest match of the first part from which the second
      part matches, and then its preferred match from there. */
  lemma CatPrefers(a: Rx, b: Rx, s: seq<ch>, i: nat) returns (n: nat)
    requires Ranked(Cat(a, b), s, i) != []
    ensures n < |Ranked(a, s, i)|
    ensures forall k, j: nat :: 0 <= k < n ==> !Matches(b, s, Ranked(a, s, i)[k].end, j)
    ensures var k := Ranked(a, s, i)[n].end;
            Ranked(b, s, k) != [] && Ranked(Cat(a, b), s, i)[0].end == Ranked(b, s, k)[0].end
  {
    hide Matches;
    hide Each;
    var l := Ranked(a, s, i);
    CatRanked(a, b, s, i);
    n := FirstOfEach(l, RankedFrom(b, s));
    forall k, j: nat | 0 <= k < n ensures !Matches(b, s, l[k].end, j) {
      if Matches(b, s, l[k].end, j) { MatchRanked(b, s, l[k].end, j); }
    }
  }

  // ---- Laws of Each ----

  lemma PrefixedTwice(t: Trace, u: Trace, l: seq<Match>)
    ensures Prefixed(t, Prefixed(u, l)) == Prefixed(t + u, l)
  {
    forall n | 0 <= n < |l| ensures Prefixed(t, Prefixed(u, l))[n] == Prefixed(t + u, l)[n] {
      assert t + (u + l[n].t) == (t + u) + l[n].t;
    }
  }

  lemma PrefixedSum(t: Trace, l1: seq<Match>, l2: seq<Match>)
    ensures Prefixed(t, l1 + l2) == Prefixed(t, l1) + Prefixed(t, l2)
  {
  }

  lemma PrefixedNone(l: seq<Match>)
    ensures Prefixed([], l) == l
  {
    var none: Trace := [];
    forall n | 0 <= n < |l| ensures Prefixed(none, l)[n] == l[n] {
      assert none + l[n].t == l[n].t;
    }
  }

  lemma {:induction false} EachSum(l1: seq<Match>, l2: seq<Match>, f: nat -> seq<Match>)
    ensures Each(l1 + l2, f) == Each(l1, f) + Each(l2, f)
  {
    if l1 == [] {
      assert l1 + l2 == l2;
    } else {
      assert (l1 + l2)[1..] == l1[1..] + l2;
      EachSum(l1[1..], l2, f);
    }
  }

  lemma EachOne(i: nat, f: nat -> seq<Match>)
    ensures Each([Match(i, [])], f) == f(i)
  {
    PrefixedNone(f(i));
  }

  lemma {:induction false} EachPrefixed(t: Trace, l: seq<Match>, f: nat -> seq<Match>)
    ensures Each(Prefixed(t, l), f) == Prefixed(t, Each(l, f))
  {
    if l != [] {
      assert Prefixed(t, l)[1..] == Prefixed(t, l[1..]);
      EachPrefixed(t, l[1..], f);
      PrefixedTwice(t, l[0].t, f(l[0].end));
      PrefixedSum(t, Prefixed(l[0].t, f(l[0].end)), Each(l[1..], f));
    }
  }

  /** One thing after another and then a third: it does not matter how they are grouped. */
  lemma {:induction false} EachEach(l: seq<Match>, f: nat -> seq<Match>, g: nat -> seq<Match>, h: nat -> seq<Match>)
    requires forall m :: m in l ==> h(m.end) == Each(f(m.end), g)
    ensures Each(Each(l, f), g) == Each(l, h)
  {
    if l != [] {
      EachSum(Prefixed(l[0].t, f(l[0].end)), Each(l[1..], f), g);
      EachPrefixed(l[0].t, f(l[0].end), g);
      EachEach(l[1..], f, g, h);
    }
  }

  lemma {:induction false} EachSame(l: seq<Match>, f: nat -> seq<Match>, g: nat -> seq<Match>)
    requires forall m :: m in l ==> f(m.end) == g(m.end)
    ensures Each(l, f) == Each(l, g)
  {
    if l != [] {
      EachSame(l[1..], f, g);
    }
  }

  lemma {:induction false} EachGrouped(no: nat, i: nat, l: seq<Match>, f: nat -> seq<Match>, g: nat -> seq<Match>)
    requires forall m :: m in l ==> g(m.end) == Prefixed([Close(no, m.end)], f(m.end))
    ensures Each(Grouped(no, i, l), f) == Prefixed([Open(no, i)], Each(l, g))
  {
    if l != [] {
      assert Grouped(no, i, l)[1..] == Grouped(no, i, l[1..]);
      EachGrouped(no, i, l[1..], f, g);
      var e := l[0].end;
      var open, close: Trace := [Open(no, i)], [Close(no, e)];
      PrefixedTwice(l[0].t, close, f(e));
      PrefixedTwice(open, l[0].t + close, f(e));
      assert open + (l[0].t + close) == open + l[0].t + close;
      PrefixedSum(open, Prefixed(l[0].t, g(e)), Each(l[1..], g));
    }
  }

  lemma EachNone(l: seq<Match>, f: nat -> seq<Match>)
    requires l == []
    ensures Each(l, f) == []
  {
  }

  /** With nothing after them, the matches are as they were. */
  lemma PrefixedEnd(t: Trace, j: nat)
    ensures Prefixed(t, [Match(j, [])]) == [Match(j, t)]
  {
    assert t + [] == t;
  }

  lemma {:induction false} EachLast(l: seq<Match>, f: nat -> seq<Match>)
    requires forall m :: m in l ==> f(m.end) == [Match(m.end, [])]
    ensures Each(l, f) == l
  {
    hide Prefixed;
    if l != [] {
      EachLast(l[1..], f);
      PrefixedEnd(l[0].t, l[0].end);
      assert l == [l[0]] + l[1..];
    }
  }
}
