/** One step of the matcher at a time: what is left before and after it, that the
    ways ahead are the same, and that something got smaller. */
module RegexSteps {
  import opened CTypes
  import opened RegexLanguage
  import opened RegexCode
  import opened RegexTraces
  import opened RegexRanking
  import opened RegexCont

  /** (p', c', i') comes strictly after (p, c, i): more input consumed, or the
      same and fewer loops that can be taken again, or the same and further on
      in the program. */
  predicate Later(p': int, c': Cont, i': nat, p: int, c: Cont, i: nat) {
    i' > i || (i' == i && (Armed(c', i') < Armed(c, i) || (Armed(c', i') == Armed(c, i) && p' > p)))
  }

  /** A step from (p, c, i) to (p', c', i') that keeps the matcher's invariant. */
  ghost predicate Step(m: seq<byte>, s: seq<ch>, p: int, c: Cont, i: nat, p': int, c': Cont, i': nat) {
    Ready(m, p', c', s, i') && Later(p', c', i', p, c, i)
  }

  lemma LinksForward(m: seq<byte>, p: int, r: Rx, k: int)
    requires Code(m, p, r, k) && k != NULL
    ensures Tail(p, r) < k
  {
    CodeLeads(m, p, r, k);
  }

  // ---- Nodes that match on their own ----

  /** r matches from i to h and nowhere else. */
  ghost predicate OnlyTo(r: Rx, s: seq<ch>, i: nat, h: nat) {
    Matches(r, s, i, h) && forall h' :: Matches(r, s, i, h') ==> h' == h
  }

  lemma LeafStep(m: seq<byte>, s: seq<ch>, p: int, r: Rx, k: int, rest: Cont, i: nat, h: nat)
    requires Ready(m, p, Then(r, k, rest), s, i) && IsLeaf(r) && OnlyTo(r, s, i, h)
    ensures Step(m, s, p, Then(r, k, rest), i, k, rest, h)
    ensures Ahead(rest, s, h) == Ahead(Then(r, k, rest), s, i)
  {
    hide Ahead;
    if HasWidth(r) { HasWidthSound(r, s, i, h); }
    NeedMore(rest, i + Width(r), h);
    LeafAhead(s, r, k, rest, i, h);
  }

  lemma LeafAhead(s: seq<ch>, r: Rx, k: int, rest: Cont, i: nat, h: nat)
    requires IsLeaf(r) && Matches(r, s, i, h)
    ensures Ahead(Then(r, k, rest), s, i) == Ahead(rest, s, h)
  {
    LeafLength(r, s, i, h);
    EachOne(h, AheadFrom(rest, s));
  }

  lemma LeafFails(s: seq<ch>, r: Rx, k: int, rest: Cont, i: nat)
    requires IsLeaf(r) && forall h :: !Matches(r, s, i, h)
    ensures Ahead(Then(r, k, rest), s, i) == []
  {
    assert !Matches(r, s, i, i + Length(r));
  }

  // ---- Closing and opening parentheses ----

  lemma CloseStep(m: seq<byte>, s: seq<ch>, p: int, c: Cont, i: nat)
    requires Ready(m, p, c, s, i) && c.Closing?
    ensures Step(m, s, p, c, i, c.k, c.rest, i)
    ensures Ahead(c, s, i) == Prefixed([Close(c.no, i)], Ahead(c.rest, s, i))
  {
  }

  lemma OpenStep(m: seq<byte>, s: seq<ch>, p: int, no: nat, b: Rx, k: int, rest: Cont, i: nat, c': Cont)
    requires Ready(m, p, Then(Group(no, b), k, rest), s, i)
    requires c' == Alts(b, p + 3 + Size(b), Closing(no, k, rest))
    ensures Step(m, s, p, Then(Group(no, b), k, rest), i, p + 3, c', i)
    ensures Ahead(Then(Group(no, b), k, rest), s, i) == Prefixed([Open(no, i)], Ahead(c', s, i))
  {
    hide Impl;
    hide Tidy;
    hide Need;
    hide Ahead;
    hide Armed;
    OpenImpl(m, p, no, b, k, rest);
    OpenAhead(s, no, b, p + 3 + Size(b), k, rest, i);
    OpenTidy(no, b, p + 3 + Size(b), k, rest, i);
  }

  lemma OpenImpl(m: seq<byte>, p: int, no: nat, b: Rx, k: int, rest: Cont)
    requires Impl(m, p, Then(Group(no, b), k, rest))
    ensures Impl(m, p + 3, Alts(b, p + 3 + Size(b), Closing(no, k, rest)))
  {
    hide Choice;
    hide Next;
    hide StarCode;
    hide PlusCode;
    hide OptCode;
    hide CatCode;
    assert GroupCode(m, p, no, b, k);
    LinksForward(m, p, Group(no, b), k);
    assert Impl(m, p + 3 + Size(b), Closing(no, k, rest));
  }

  lemma OpenTidy(no: nat, b: Rx, q: int, k: int, rest: Cont, i: nat)
    requires Tidy(Then(Group(no, b), k, rest)) && Need(Then(Group(no, b), k, rest), i)
    ensures Tidy(Alts(b, q, Closing(no, k, rest))) && Need(Alts(b, q, Closing(no, k, rest)), i)
    ensures Armed(Alts(b, q, Closing(no, k, rest)), i) == Armed(Then(Group(no, b), k, rest), i)
  {
    var c1 := Closing(no, k, rest);
    assert Tidy(c1);
    assert Width(Group(no, b)) == Width(b);
  }

  lemma OpenAhead(s: seq<ch>, no: nat, b: Rx, q: int, k: int, rest: Cont, i: nat)
    requires i <= |s|
    ensures Ahead(Then(Group(no, b), k, rest), s, i) ==
            Prefixed([Open(no, i)], Ahead(Alts(b, q, Closing(no, k, rest)), s, i))
  {
    hide Ranked;
    var f, g := AheadFrom(rest, s), AheadFrom(Closing(no, k, rest), s);
    GroupRanked(no, b, s, i);
    forall m | m in Ranked(b, s, i) ensures g(m.end) == Prefixed([Close(no, m.end)], f(m.end)) {
      ClosingAhead(no, k, rest, s, m.end);
    }
    EachGrouped(no, i, Ranked(b, s, i), f, g);
  }

  lemma ClosingAhead(no: nat, k: int, rest: Cont, s: seq<ch>, i: nat)
    ensures Ahead(Closing(no, k, rest), s, i) == Prefixed([Close(no, i)], Ahead(rest, s, i))
  {
    if i > |s| { assert Ahead(rest, s, i) == []; }
  }

  // ---- The n-th alternative of a choice ----

  /** The ways through the first n alternatives. */
  ghost function FirstNth(r: Rx, n: nat, s: seq<ch>, i: nat, f: nat -> seq<Match>): seq<Match>
    requires n <= Count(r)
  {
    if n == 0 then [] else FirstNth(r, n - 1, s, i, f) + Each(Ranked(Nth(r, n - 1), s, i), f)
  }

  lemma {:induction false} FirstOfLeft(a: Rx, b: Rx, n: nat, s: seq<ch>, i: nat, f: nat -> seq<Match>)
    requires n <= Count(a)
    ensures FirstNth(Alt(a, b), n, s, i, f) == FirstNth(a, n, s, i, f)
  {
    hide Ranked;
    hide Each;
    if n > 0 {
      FirstOfLeft(a, b, n - 1, s, i, f);
    }
  }

  /** The ways through a choice are those through its alternatives, in order. */
  lemma {:induction false} NthRanked(r: Rx, s: seq<ch>, i: nat, f: nat -> seq<Match>)
    requires i <= |s|
    ensures FirstNth(r, Count(r), s, i, f) == Each(Ranked(r, s, i), f)
    decreases r
  {
    hide Ranked;
    hide Each;
    match r
    case Alt(a, b) =>
      NthRanked(a, s, i, f);
      FirstOfLeft(a, b, Count(a), s, i, f);
      EachSum(Ranked(a, s, i), Ranked(b, s, i), f);
      AltNth(a, b, s, i);
    case _ =>
      OnlyNth(r, s, i);
      assert FirstNth(r, 0, s, i, f) == [];
  }

  lemma OnlyNth(r: Rx, s: seq<ch>, i: nat)
    requires !r.Alt?
    ensures Ranked(Nth(r, 0), s, i) == Ranked(r, s, i)
  {
  }

  lemma AltNth(a: Rx, b: Rx, s: seq<ch>, i: nat)
    requires i <= |s|
    ensures Ranked(Nth(Alt(a, b), Count(a)), s, i) == Ranked(b, s, i)
    ensures Ranked(Alt(a, b), s, i) == Ranked(a, s, i) + Ranked(b, s, i)
  {
  }

  lemma {:induction false} NthInherits(r: Rx, n: nat)
    requires n < Count(r) && WellFormed(r)
    ensures WellFormed(Nth(r, n)) && (HasWidth(r) ==> HasWidth(Nth(r, n)))
    decreases r
  {
    match r
    case Alt(a, b) =>
      if n < Count(a) { NthInherits(a, n); } else { assert HasWidth(r) ==> HasWidth(b); }
    case _ =>
  }

  lemma AltStep(m: seq<byte>, s: seq<ch>, p: int, b: Rx, k: int, rest: Cont, i: nat, n: nat)
    requires Ready(m, p, Alts(b, k, rest), s, i) && n < Count(b)
    ensures Step(m, s, p, Alts(b, k, rest), i, NthAt(p, b, n) + 3, Then(Nth(b, n), k, rest), i)
  {
    hide Choice;
    hide Code;
    hide Nth;
    hide NthAt;
    ChoiceNth(m, p, b, k, k, Count(b), n);
    NthInherits(b, n);
    var c' := Then(Nth(b, n), k, rest);
    LinksForward(m, NthAt(p, b, n) + 3, Nth(b, n), k);
    CodeSize(m, NthAt(p, b, n) + 3, Nth(b, n), k);
    NeedMore(rest, i + Width(b), i + Width(Nth(b, n)));
  }

  lemma CodeSize(m: seq<byte>, p: int, r: Rx, k: int)
    requires Code(m, p, r, k)
    ensures 0 < p && p + 3 <= p + Size(r) <= |m|
  {
  }

  // ---- Concatenation: no node of its own ----

  lemma CatStep(m: seq<byte>, s: seq<ch>, p: int, a: Rx, b: Rx, k: int, rest: Cont, i: nat, c': Cont)
    requires Ready(m, p, Then(Cat(a, b), k, rest), s, i)
    requires c' == Then(a, p + Size(a), Then(b, k, rest))
    ensures Ready(m, p, c', s, i) && Armed(c', i) == Armed(Then(Cat(a, b), k, rest), i)
    ensures Ahead(c', s, i) == Ahead(Then(Cat(a, b), k, rest), s, i)
  {
    hide Impl;
    hide Tidy;
    hide Need;
    hide Ahead;
    hide Armed;
    CatImpl(m, p, a, b, k, rest);
    CatAhead(s, a, b, p + Size(a), k, rest, i);
    CatTidy(a, b, p + Size(a), k, rest, i);
  }

  lemma CatAhead(s: seq<ch>, a: Rx, b: Rx, q: int, k: int, rest: Cont, i: nat)
    requires i <= |s|
    ensures Ahead(Then(a, q, Then(b, k, rest)), s, i) == Ahead(Then(Cat(a, b), k, rest), s, i)
  {
    hide Each;
    var l, f, g, h := Ranked(a, s, i), RankedFrom(b, s), AheadFrom(rest, s), AheadFrom(Then(b, k, rest), s);
    forall m | m in l ensures h(m.end) == Each(f(m.end), g) { ThenAhead(b, k, rest, s, m.end); }
    EachEach(l, f, g, h);
  }

  lemma NoneRanked(r: Rx, s: seq<ch>, i: nat)
    requires i > |s|
    ensures Ranked(r, s, i) == [] && Loops(r, s, i) == []
  {
  }

  lemma ThenAhead(r: Rx, k: int, rest: Cont, s: seq<ch>, i: nat)
    ensures Ahead(Then(r, k, rest), s, i) == Each(Ranked(r, s, i), AheadFrom(rest, s))
  {
    hide Each;
    hide Ranked;
    hide Loops;
    if i > |s| { NoneRanked(r, s, i); EachNone(Ranked(r, s, i), AheadFrom(rest, s)); }
  }

  lemma LoopAhead(c: Cont, s: seq<ch>, i: nat)
    requires c.Loop?
    ensures Ahead(c, s, i) == Each(Ranked(c.r, s, i), AheadFrom(c.rest, s))
  {
    hide Each;
    hide Ranked;
    hide Loops;
    if i > |s| { NoneRanked(c.r, s, i); EachNone(Ranked(c.r, s, i), AheadFrom(c.rest, s)); }
  }

  lemma CatImpl(m: seq<byte>, p: int, a: Rx, b: Rx, k: int, rest: Cont)
    requires Impl(m, p, Then(Cat(a, b), k, rest))
    ensures Impl(m, p, Then(a, p + Size(a), Then(b, k, rest)))
  {
    hide Code;
    CatParts(m, p, a, b, k);
    LinksForward(m, p + Size(a), b, k);
    CodeSize(m, p + Size(a), b, k);
    assert Impl(m, p + Size(a), Then(b, k, rest));
  }

  lemma CatParts(m: seq<byte>, p: int, a: Rx, b: Rx, k: int)
    requires Code(m, p, Cat(a, b), k)
    ensures Code(m, p, a, p + Size(a)) && Code(m, p + Size(a), b, k)
  {
    assert CatCode(m, p, a, b, k);
  }

  lemma CatTidy(a: Rx, b: Rx, q: int, k: int, rest: Cont, i: nat)
    requires Tidy(Then(Cat(a, b), k, rest)) && Need(Then(Cat(a, b), k, rest), i)
    ensures Tidy(Then(a, q, Then(b, k, rest))) && Need(Then(a, q, Then(b, k, rest)), i)
    ensures Armed(Then(a, q, Then(b, k, rest)), i) == Armed(Then(Cat(a, b), k, rest), i)
  {
    NeedMore(rest, i + Width(Cat(a, b)), i + Width(a) + Width(b));
    assert Tidy(Then(b, k, rest));
  }

  // ---- Complex x+: the operand, then the loop behind it ----

  lemma PlusStep(m: seq<byte>, s: seq<ch>, p: int, x: Rx, k: int, rest: Cont, i: nat, c': Cont)
    requires Ready(m, p, Then(Plus(x), k, rest), s, i) && !IsSimple(x)
    requires c' == Then(x, p + Size(x), PlusLoop(x, p, k, i, rest))
    ensures Ready(m, p, c', s, i) && Armed(c', i) == Armed(Then(Plus(x), k, rest), i)
    ensures Ahead(c', s, i) == Ahead(Then(Plus(x), k, rest), s, i)
  {
    hide Impl;
    hide Ahead;
    hide Tidy;
    hide Need;
    hide Armed;
    PlusImpl(m, p, x, k, rest, i);
    PlusAhead(s, x, p + Size(x), p, k, rest, i);
    PlusTidy(x, p + Size(x), p, k, rest, i);
  }

  lemma PlusAhead(s: seq<ch>, x: Rx, q: int, p: int, k: int, rest: Cont, i: nat)
    requires i <= |s|
    ensures Ahead(Then(x, q, PlusLoop(x, p, k, i, rest)), s, i) == Ahead(Then(Plus(x), k, rest), s, i)
  {
    hide Each;
    hide Loops;
    var c := PlusLoop(x, p, k, i, rest);
    var l, f, g, h := Ranked(x, s, i), LoopsFrom(x, s), AheadFrom(rest, s), AheadFrom(c, s);
    forall m | m in l ensures h(m.end) == Each(f(m.end), g) { LoopsAhead(c, s, m.end); }
    EachEach(l, f, g, h);
  }

  lemma LoopsAhead(c: Cont, s: seq<ch>, i: nat)
    requires c.PlusLoop?
    ensures Ahead(c, s, i) == Each(Loops(c.x, s, i), AheadFrom(c.rest, s))
  {
    hide Each;
    hide Ranked;
    hide Loops;
    if i > |s| { NoneRanked(c.x, s, i); EachNone(Loops(c.x, s, i), AheadFrom(c.rest, s)); }
  }

  lemma PlusTidy(x: Rx, q: int, p: int, k: int, rest: Cont, i: nat)
    requires Tidy(Then(Plus(x), k, rest)) && Need(Then(Plus(x), k, rest), i)
    ensures var c' := Then(x, q, PlusLoop(x, p, k, i, rest));
            Tidy(c') && Need(c', i) && Armed(c', i) == Armed(Then(Plus(x), k, rest), i)
  {
    assert Tidy(PlusLoop(x, p, k, i, rest));
  }

  lemma PlusImpl(m: seq<byte>, p: int, x: Rx, k: int, rest: Cont, i: nat)
    requires Impl(m, p, Then(Plus(x), k, rest)) && !IsSimple(x)
    ensures Impl(m, p, Then(x, p + Size(x), PlusLoop(x, p, k, i, rest)))
  {
    hide Code;
    hide Node;
    hide PlusTail;
    PlusParts(m, p, x, k);
    LinksForward(m, p, Plus(x), k);
    CodeSize(m, p, Plus(x), k);
    assert Size(Plus(x)) == Size(x) + 12;
    assert Impl(m, p + Size(x), PlusLoop(x, p, k, i, rest));
  }

  lemma PlusParts(m: seq<byte>, p: int, x: Rx, k: int)
    requires Code(m, p, Plus(x), k) && !IsSimple(x)
    ensures Code(m, p, x, p + Size(x)) && PlusTail(m, p + Size(x), p, k)
  {
    assert PlusCode(m, p, x, k);
  }

  // ---- The BACK node ----

  lemma LoopStep(m: seq<byte>, s: seq<ch>, p: int, c: Cont, i: nat)
    requires Ready(m, p, c, s, i) && c.Loop?
    ensures Step(m, s, p, c, i, c.start, Then(c.r, c.k, c.rest), i)
    ensures Ahead(Then(c.r, c.k, c.rest), s, i) == Ahead(c, s, i)
  {
    hide Code;
    hide Each;
    hide Ranked;
    CodeSize(m, c.start, c.r, c.k);
  }

  // ---- The two branches of a complex x* ----

  lemma StarTakeStep(m: seq<byte>, s: seq<ch>, p: int, x: Rx, k: int, rest: Cont, i: nat, c': Cont)
    requires Ready(m, p, Then(Star(x), k, rest), s, i) && !IsSimple(x)
    requires c' == Then(x, p + 3 + Size(x), Loop(Star(x), p, k, i, rest))
    ensures Step(m, s, p, Then(Star(x), k, rest), i, p + 3, c', i)
  {
    hide Impl;
    hide Need;
    hide Armed;
    StarTakeImpl(m, p, x, k, rest, i);
    StarTakeTidy(x, p + 3 + Size(x), p, k, rest, i);
  }

  /** A match of an operand with width is not empty. */
  lemma FullRound(x: Rx, s: seq<ch>, i: nat, m: Match)
    requires WellFormed(x) && HasWidth(x) && m in Ranked(x, s, i)
    ensures i < m.end <= |s|
  {
    hide Ranked;
    hide Derives;
    RankedExact(x, s, i, m.end, m.t);
    DerivesMatches(x, s, i, m.end, m.t);
    HasWidthSound(x, s, i, m.end);
    DerivesBounds(x, s, i, m.end, m.t);
  }

  lemma StarTakeTidy(x: Rx, q: int, p: int, k: int, rest: Cont, i: nat)
    requires Tidy(Then(Star(x), k, rest)) && Need(Then(Star(x), k, rest), i)
    ensures var c' := Then(x, q, Loop(Star(x), p, k, i, rest));
            Tidy(c') && Need(c', i) && Armed(c', i) == Armed(Then(Star(x), k, rest), i)
  {
    assert Tidy(Loop(Star(x), p, k, i, rest));
    NeedMore(rest, i, i + 1);
  }

  lemma StarTakeImpl(m: seq<byte>, p: int, x: Rx, k: int, rest: Cont, i: nat)
    requires Impl(m, p, Then(Star(x), k, rest)) && !IsSimple(x)
    ensures Impl(m, p + 3, Then(x, p + 3 + Size(x), Loop(Star(x), p, k, i, rest)))
  {
    hide Code;
    StarParts(m, p, x, k);
    LinksForward(m, p, Star(x), k);
    CodeSize(m, p, Star(x), k);
    assert Size(Star(x)) == Size(x) + 12;
    assert Impl(m, p + 3 + Size(x), Loop(Star(x), p, k, i, rest));
  }

  lemma StarParts(m: seq<byte>, p: int, x: Rx, k: int)
    requires Code(m, p, Star(x), k) && !IsSimple(x)
    ensures StarCode(m, p, x, k)
  {
  }

  /** After an optional part (x*, x? or the rest of x+), skipping it. */
  lemma SkipStep(m: seq<byte>, s: seq<ch>, p: int, c: Cont, i: nat, nothing: int, c': Cont)
    requires Ready(m, p, c, s, i) && p < nothing
    requires (c.Then? && (c.r.Star? || c.r.Opt?)) || c.PlusLoop?
    requires Node(m, nothing, NOTHING, c.k) && c' == Then(Empty, c.k, c.rest)
    ensures Step(m, s, p, c, i, nothing, c', i)
  {
    assert Code(m, nothing, Empty, c.k);
    LinksForward(m, nothing, Empty, c.k);
  }

  lemma StarAhead(s: seq<ch>, x: Rx, q: int, p: int, k: int, rest: Cont, i: nat)
    requires i <= |s| && WellFormed(x) && HasWidth(x)
    ensures Ahead(Then(Star(x), k, rest), s, i) ==
            Ahead(Then(x, q, Loop(Star(x), p, k, i, rest)), s, i) + Ahead(Then(Empty, k, rest), s, i)
  {
    hide Each;
    hide Ranked;
    var l, f, g := Ranked(x, s, i), LoopsAfter(x, s, i), AheadFrom(rest, s);
    var h := AheadFrom(Loop(Star(x), p, k, i, rest), s);
    StarRanked(x, s, i);
    LoopsAre(x, s, i);
    EachSum(Each(l, f), [Match(i, [])], g);
    forall m | m in l ensures h(m.end) == Each(f(m.end), g) {
      FullRound(x, s, i, m);
      StarRanked(x, s, m.end);
      LoopAhead(Loop(Star(x), p, k, i, rest), s, m.end);
    }
    EachEach(l, f, g, h);
    SkipAhead(s, k, rest, i);
    EachOne(i, g);
  }

  lemma StarRanked(x: Rx, s: seq<ch>, i: nat)
    ensures Ranked(Star(x), s, i) == Loops(x, s, i)
  {
  }

  lemma LoopsAre(x: Rx, s: seq<ch>, i: nat)
    requires i <= |s|
    ensures Loops(x, s, i) == Each(Ranked(x, s, i), LoopsAfter(x, s, i)) + [Match(i, [])]
  {
  }

  // ---- The two branches of x? ----

  lemma OptTakeStep(m: seq<byte>, s: seq<ch>, p: int, x: Rx, k: int, rest: Cont, i: nat, c': Cont)
    requires Ready(m, p, Then(Opt(x), k, rest), s, i)
    requires c' == Then(x, p + 6 + Size(x), Then(Empty, k, rest))
    ensures Step(m, s, p, Then(Opt(x), k, rest), i, p + 3, c', i)
  {
    hide Impl;
    hide Tidy;
    hide Need;
    hide Armed;
    OptTakeImpl(m, p, x, k, rest);
    OptTidy(x, p + 6 + Size(x), k, rest, i);
  }

  lemma OptTidy(x: Rx, q: int, k: int, rest: Cont, i: nat)
    requires Tidy(Then(Opt(x), k, rest)) && Need(Then(Opt(x), k, rest), i)
    ensures var c' := Then(x, q, Then(Empty, k, rest));
            Tidy(c') && Need(c', i) && Armed(c', i) == Armed(Then(Opt(x), k, rest), i)
  {
    assert Tidy(Then(Empty, k, rest));
    NeedMore(rest, i, i + Width(x));
  }

  lemma OptTakeImpl(m: seq<byte>, p: int, x: Rx, k: int, rest: Cont)
    requires Impl(m, p, Then(Opt(x), k, rest))
    ensures Impl(m, p + 3, Then(x, p + 6 + Size(x), Then(Empty, k, rest)))
  {
    hide Code;
    OptParts(m, p, x, k);
    LinksForward(m, p, Opt(x), k);
    CodeSize(m, p, Opt(x), k);
    assert Size(Opt(x)) == Size(x) + 9;
    assert Impl(m, p + 6 + Size(x), Then(Empty, k, rest));
  }

  lemma OptParts(m: seq<byte>, p: int, x: Rx, k: int)
    requires Code(m, p, Opt(x), k)
    ensures OptCode(m, p, x, k) && Code(m, p + 6 + Size(x), Empty, k)
  {
    assert Size(Opt(x)) == Size(x) + 9;
  }

  lemma OptAhead(s: seq<ch>, x: Rx, q: int, k: int, rest: Cont, i: nat)
    requires i <= |s|
    ensures Ahead(Then(Opt(x), k, rest), s, i) ==
            Ahead(Then(x, q, Then(Empty, k, rest)), s, i) + Ahead(Then(Empty, k, rest), s, i)
  {
    hide Each;
    var l, g, h := Ranked(x, s, i), AheadFrom(rest, s), AheadFrom(Then(Empty, k, rest), s);
    EachSum(l, [Match(i, [])], g);
    forall m | m in l ensures h(m.end) == g(m.end) { SkipAhead(s, k, rest, m.end); }
    EachSame(l, h, g);
    SkipAhead(s, k, rest, i);
    EachOne(i, g);
  }

  lemma SkipAhead(s: seq<ch>, k: int, rest: Cont, i: nat)
    ensures Ahead(Then(Empty, k, rest), s, i) == Ahead(rest, s, i)
  {
    if i <= |s| {
      assert Matches(Empty, s, i, i);
      EachOne(i, AheadFrom(rest, s));
    }
  }

  // ---- The two branches behind the operand of a complex x+ ----

  lemma AgainStep(m: seq<byte>, s: seq<ch>, p: int, c: Cont, i: nat, c': Cont)
    requires Ready(m, p, c, s, i) && c.PlusLoop? && c' == Loop(Plus(c.x), c.start, c.k, c.low, c.rest)
    ensures Step(m, s, p, c, i, p + 3, c', i)
  {
    NeedMore(c.rest, i, i + 1);
  }

  lemma AgainAhead(s: seq<ch>, c: Cont, i: nat, c': Cont)
    requires c.PlusLoop? && c' == Loop(Plus(c.x), c.start, c.k, c.low, c.rest)
    requires i <= |s| && WellFormed(c.x) && HasWidth(c.x)
    ensures Ahead(c, s, i) == Ahead(c', s, i) + Ahead(Then(Empty, c.k, c.rest), s, i)
  {
    hide Each;
    hide Ranked;
    var l, f, g := Ranked(c.x, s, i), LoopsAfter(c.x, s, i), AheadFrom(c.rest, s);
    LoopsAre(c.x, s, i);
    EachSum(Each(l, f), [Match(i, [])], g);
    forall m | m in l ensures f(m.end) == LoopsFrom(c.x, s)(m.end) { FullRound(c.x, s, i, m); }
    EachSame(l, f, LoopsFrom(c.x, s));
    PlusRanked(c.x, s, i);
    SkipAhead(s, c.k, c.rest, i);
    EachOne(i, g);
  }

  // ---- Simple x* and x+: counting repetitions ----

  /** A simple expression matches exactly the characters of a set. */
  predicate Takes(x: Rx, b: ch) {
    match x
    case Any => true
    case AnyOf(cs) => b in cs
    case AnyBut(cs) => b !in cs
    case Exactly(cs) => cs == [b]
    case _ => false
  }

  lemma SimpleMatches(x: Rx, s: seq<ch>, i: nat, h: nat)
    requires IsSimple(x)
    ensures Matches(x, s, i, h) <==> i < |s| && h == i + 1 && Takes(x, s[i])
  {
    if i < |s| && h == i + 1 {
      assert s[i..h] == [s[i]];
    }
  }

  /** How many characters in a row x takes from i on. */
  function Run(x: Rx, s: seq<ch>, i: nat): (n: nat)
    ensures i <= |s| ==> i + n <= |s|
    decreases |s| - i
  {
    if i < |s| && Takes(x, s[i]) then 1 + Run(x, s, i + 1) else 0
  }

  lemma {:induction false} RunIterates(x: Rx, s: seq<ch>, i: nat, h: nat)
    requires IsSimple(x) && i <= |s|
    ensures Iterates(x, s, i, h) <==> i <= h <= i + Run(x, s, i)
    decreases |s| - i
  {
    if i < h {
      if Iterates(x, s, i, h) {
        var k := StarSplit(x, s, i, h);
        SimpleMatches(x, s, i, k);
        RunIterates(x, s, k, h);
      }
      if h <= i + Run(x, s, i) {
        SimpleMatches(x, s, i, i + 1);
        RunIterates(x, s, i + 1, h);
        PlusMatch(x, s, i, i + 1, h);
      }
    }
  }

  /** What x* or x+ matches, by number of repetitions. */
  lemma RepeatMatches(r: Rx, s: seq<ch>, i: nat, h: nat)
    requires (r.Star? || r.Plus?) && IsSimple(r.x) && i <= |s|
    ensures Matches(r, s, i, h) <==> i + (if r.Plus? then 1 else 0) <= h <= i + Run(r.x, s, i)
  {
    RunIterates(r.x, s, i, h);
    if r.Star? {
      StarCases(r.x, s, i, h);
    } else {
      if Matches(r, s, i, h) {
        var k := PlusSplit(r.x, s, i, h);
        SimpleMatches(r.x, s, i, k);
        PlusMatch(r.x, s, i, k, h);
      }
      if i + 1 <= h <= i + Run(r.x, s, i) {
        SimpleMatches(r.x, s, i, i + 1);
        RunIterates(r.x, s, i + 1, h);
        PlusMatch(r.x, s, i, i + 1, h);
      }
    }
  }

  /** Going on after n repetitions. */
  lemma RepeatStep(m: seq<byte>, s: seq<ch>, p: int, r: Rx, k: int, rest: Cont, i: nat, h: nat)
    requires Ready(m, p, Then(r, k, rest), s, i) && (r.Star? || r.Plus?) && IsSimple(r.x) && Matches(r, s, i, h)
    ensures Step(m, s, p, Then(r, k, rest), i, k, rest, h)
  {
    if HasWidth(r) { HasWidthSound(r, s, i, h); }
    NeedMore(rest, i + Width(r), h);
  }

  /** The ways ahead from hi, then those from one position less, and so on down to lo. */
  ghost function Down(rest: Cont, s: seq<ch>, hi: int, lo: nat): seq<Match>
    decreases hi
  {
    if hi < lo then [] else Ahead(rest, s, hi) + Down(rest, s, hi - 1, lo)
  }

  lemma {:induction false} DownOne(rest: Cont, s: seq<ch>, hi: int, lo: nat)
    requires lo <= hi
    ensures Down(rest, s, hi, lo) == Down(rest, s, hi, lo + 1) + Ahead(rest, s, lo)
    decreases hi
  {
    hide Ahead;
    if lo < hi {
      DownOne(rest, s, hi - 1, lo);
    }
  }

  lemma SimpleRanked(x: Rx, s: seq<ch>, i: nat)
    requires IsSimple(x) && i <= |s|
    ensures Ranked(x, s, i) == if i < |s| && Takes(x, s[i]) then [Match(i + 1, [])] else []
  {
    SimpleMatches(x, s, i, i + 1);
  }

  /** The longest run of a simple operand comes first. */
  lemma {:induction false} LoopsDown(x: Rx, s: seq<ch>, i: nat, rest: Cont)
    requires IsSimple(x) && i <= |s|
    ensures Each(Loops(x, s, i), AheadFrom(rest, s)) == Down(rest, s, i + Run(x, s, i), i)
    decreases |s| - i
  {
    hide Ahead;
    hide Each;
    hide Ranked;
    hide Loops;
    var f, g := LoopsAfter(x, s, i), AheadFrom(rest, s);
    SimpleRanked(x, s, i);
    LoopsAre(x, s, i);
    EachSum(Each(Ranked(x, s, i), f), [Match(i, [])], g);
    EachOne(i, g);
    if i < |s| && Takes(x, s[i]) {
      EachOne(i + 1, f);
      LoopsDown(x, s, i + 1, rest);
      DownOne(rest, s, i + Run(x, s, i), i);
    } else {
      EachNone(Ranked(x, s, i), f);
      EachNone(Each(Ranked(x, s, i), f), g);
      assert Down(rest, s, i - 1, i) == [];
    }
  }

  lemma RepeatAhead(s: seq<ch>, r: Rx, k: int, rest: Cont, i: nat)
    requires (r.Star? || r.Plus?) && IsSimple(r.x) && i <= |s|
    ensures Ahead(Then(r, k, rest), s, i) ==
            Down(rest, s, i + Run(r.x, s, i), if r.Plus? then i + 1 else i)
  {
    hide Each;
    hide Ranked;
    hide Loops;
    hide Down;
    var f, g := LoopsFrom(r.x, s), AheadFrom(rest, s);
    ThenAhead(r, k, rest, s, i);
    if r.Star? {
      StarRanked(r.x, s, i);
      LoopsDown(r.x, s, i, rest);
    } else {
      PlusRanked(r.x, s, i);
      SimpleRanked(r.x, s, i);
      if i < |s| && Takes(r.x, s[i]) {
        EachOne(i + 1, f);
        LoopsDown(r.x, s, i + 1, rest);
      } else {
        EachNone(Ranked(r.x, s, i), f);
        EachNone(Each(Ranked(r.x, s, i), f), g);
        DownIs(rest, s, i, i + 1);
      }
    }
  }

  lemma DownIs(rest: Cont, s: seq<ch>, hi: int, lo: nat)
    ensures Down(rest, s, hi, lo) == if hi < lo then [] else Ahead(rest, s, hi) + Down(rest, s, hi - 1, lo)
  {
    hide Ahead;
  }

  // ---- Looking ahead ----

  /** The opcode that the code of r starts with. */
  function FirstOp(r: Rx): int {
    match r
    case Group(no, _) => OPEN + no
    case Star(x) => if IsSimple(x) then STAR else BRANCH
    case Plus(x) => if IsSimple(x) then PLUS else FirstOp(x)
    case Opt(_) => BRANCH
    case Cat(a, _) => FirstOp(a)
    case Branch(_) => BRANCH
    case Alt(_, _) => BRANCH
    case _ => Opcode(r)
  }

  lemma {:induction false} CodeFirstOp(m: seq<byte>, p: int, r: Rx, k: int)
    requires Code(m, p, r, k)
    ensures m[p] == FirstOp(r)
    decreases r
  {
    hide Next;
    hide Choice;
    hide PlusCode;
    hide CatCode;
    match r
    case Cat(a, b) =>
      CatParts(m, p, a, b, k);
      CodeFirstOp(m, p, a, p + Size(a));
    case Plus(x) =>
      if !IsSimple(x) {
        PlusParts(m, p, x, k);
        CodeFirstOp(m, p, x, p + Size(x));
      }
    case _ =>
  }

  /** If the code at p starts with a literal, every match starts with its first character. */
  lemma {:induction false} StartsWith(m: seq<byte>, p: int, r: Rx, k: int, s: seq<ch>, i: nat, h: nat)
    requires Code(m, p, r, k) && FirstOp(r) == EXACTLY && WellFormed(r) && Matches(r, s, i, h)
    ensures p + 3 < |m| && i < |s| && s[i] == m[p + 3]
    decreases r
  {
    hide Next;
    hide Choice;
    hide StarCode;
    hide GroupCode;
    hide OptCode;
    hide PlusCode;
    match r
    case Cat(a, b) =>
      CatParts(m, p, a, b, k);
      var h' := CatSplit(a, b, s, i, h);
      StartsWith(m, p, a, p + Size(a), s, i, h');
    case Plus(x) =>
      assert !IsSimple(x);
      PlusParts(m, p, x, k);
      var h' := PlusSplit(x, s, i, h);
      StartsWith(m, p, x, p + Size(x), s, i, h');
    case Exactly(cs) => assert s[i..h][0] == cs[0];
  }

  /** If the code starts with BOL, every match starts at the beginning. */
  lemma {:induction false} StartsAtBol(r: Rx, s: seq<ch>, i: nat, h: nat)
    requires FirstOp(r) == BOL && Matches(r, s, i, h)
    ensures i == 0
    decreases r
  {
    match r
    case Cat(a, b) =>
      var h' := CatSplit(a, b, s, i, h);
      StartsAtBol(a, s, i, h');
    case Plus(x) =>
      var h' := PlusSplit(x, s, i, h);
      StartsAtBol(x, s, i, h');
    case Bol =>
  }

  /** The lookahead of STAR and PLUS: unless the next character fits, the rest
      cannot match. */
  lemma NextChar(m: seq<byte>, p: int, c: Cont, s: seq<ch>, i: nat)
    requires Ready(m, p, c, s, i) && m[p] == EXACTLY && Ahead(c, s, i) != []
    ensures p + 3 < |m| && i < |s| && s[i] == m[p + 3]
  {
    hide Need;
    hide Choice;
    hide Code;
    hide FirstOp;
    hide Ranked;
    hide Each;
    match c
    case Then(r, k, rest) =>
      if Ranked(r, s, i) == [] { EachNone(Ranked(r, s, i), AheadFrom(rest, s)); }
      var h := Ranked(r, s, i)[0].end;
      RankedMatches(r, s, i, Ranked(r, s, i)[0]);
      CodeFirstOp(m, p, r, k);
      StartsWith(m, p, r, k, s, i, h);
    case Alts(b, k, rest) => ChoiceNth(m, p, b, k, k, Count(b), 0);
    case Closing(_, _, _) =>
    case _ =>
  }
}
