/** regmatch and friends: the backtracking matcher that runs a compiled
    program. Positions in the subject stand for the C pointers into it. */
module RegexMatcher {
  import opened CTypes
  import opened RegexLanguage
  import opened RegexGrammar
  import opened RegexCode
  import opened RegexTraces
  import opened RegexRanking
  import opened RegexCont
  import opened RegexSteps

  // ---- The C library's string functions, on operands in the program ----

  /** strlen of the string at q. */
  function StrLen(m: seq<byte>, q: nat): (n: nat)
    decreases |m| - q
  {
    if q >= |m| || m[q] == 0 then 0 else 1 + StrLen(m, q + 1)
  }

  /** strchr(q, b) != NULL, for b not NUL. */
  predicate StrChr(m: seq<byte>, q: nat, b: byte)
    decreases |m| - q
  {
    q < |m| && m[q] != 0 && (m[q] == b || StrChr(m, q + 1, b))
  }

  /** strncmp(q, subject at i, len) == 0. */
  predicate StrNCmp(m: seq<byte>, q: nat, s: seq<ch>, i: nat, len: nat)
    decreases len
  {
    len == 0 || (q < |m| && m[q] == At(s, i) && (m[q] == 0 || StrNCmp(m, q + 1, s, i + 1, len - 1)))
  }

  lemma {:induction false} TextLen(m: seq<byte>, q: nat, cs: seq<ch>)
    requires Text(m, q, cs)
    ensures StrLen(m, q) == |cs|
    decreases |cs|
  {
    if cs != [] {
      assert m[q + 0] == cs[0];
      TextTail(m, q, cs);
      TextLen(m, q + 1, cs[1..]);
    }
  }

  lemma TextTail(m: seq<byte>, q: nat, cs: seq<ch>)
    requires Text(m, q, cs) && cs != []
    ensures Text(m, q + 1, cs[1..])
  {
    forall k | 0 <= k < |cs[1..]| ensures m[q + 1 + k] == cs[1..][k] {
      assert m[q + (k + 1)] == cs[k + 1];
    }
  }

  lemma {:induction false} TextChr(m: seq<byte>, q: nat, cs: seq<ch>, b: ch)
    requires Text(m, q, cs)
    ensures StrChr(m, q, b) <==> b in cs
    decreases |cs|
  {
    if cs != [] {
      assert m[q + 0] == cs[0];
      TextTail(m, q, cs);
      TextChr(m, q + 1, cs[1..], b);
      assert cs == [cs[0]] + cs[1..];
    }
  }

  lemma {:induction false} TextCmp(m: seq<byte>, q: nat, cs: seq<ch>, s: seq<ch>, i: nat)
    requires Text(m, q, cs) && i <= |s|
    ensures StrNCmp(m, q, s, i, |cs|) <==> i + |cs| <= |s| && s[i..i + |cs|] == cs
    decreases |cs|
  {
    if cs != [] {
      assert m[q + 0] == cs[0];
      if i < |s| {
        TextTail(m, q, cs);
        TextCmp(m, q + 1, cs[1..], s, i + 1);
        if i + |cs| <= |s| {
          assert s[i..i + |cs|] == [s[i]] + s[i + 1..i + |cs|];
          assert cs == [cs[0]] + cs[1..];
        }
      }
    }
  }

  // ---- Heads: continuations whose code starts with a node of their own ----

  predicate NodeHead(c: Cont) {
    c.Then? ==> !c.r.Cat? && (c.r.Plus? ==> IsSimple(c.r.x))
  }

  /** The opcode of that node. */
  function HeadOp(c: Cont): int {
    match c
    case Done => END
    case Then(r, _, _) => FirstOp(r)
    case Alts(_, _, _) => BRANCH
    case Closing(no, _, _) => CLOSE + no
    case Loop(_, _, _, _, _) => BACK
    case PlusLoop(_, _, _, _, _) => BRANCH
  }

  /** The code at p is the same seen as a continuation that starts with a node. */
  lemma {:induction false} Unfold(m: seq<byte>, s: seq<ch>, p: int, c: Cont, i: nat) returns (c': Cont)
    requires Ready(m, p, c, s, i)
    ensures Ready(m, p, c', s, i) && NodeHead(c') && Armed(c', i) == Armed(c, i)
    ensures Ahead(c', s, i) == Ahead(c, s, i)
    decreases if c.Then? then Size(c.r) else 0
  {
    hide Ahead;
    c' := c;
    if c.Then? && c.r.Cat? {
      c' := Then(c.r.l, p + Size(c.r.l), Then(c.r.r, c.k, c.rest));
      CatStep(m, s, p, c.r.l, c.r.r, c.k, c.rest, i, c');
      c' := Unfold(m, s, p, c', i);
    } else if c.Then? && c.r.Plus? && !IsSimple(c.r.x) {
      c' := Then(c.r.x, p + Size(c.r.x), PlusLoop(c.r.x, p, c.k, i, c.rest));
      PlusStep(m, s, p, c.r.x, c.k, c.rest, i, c');
      c' := Unfold(m, s, p, c', i);
    }
  }

  lemma HeadOpcode(m: seq<byte>, s: seq<ch>, p: int, c: Cont, i: nat)
    requires Ready(m, p, c, s, i) && NodeHead(c)
    ensures m[p] == HeadOp(c)
  {
    match c
    case Then(r, k, _) => CodeFirstOp(m, p, r, k);
    case Alts(b, k, _) => ChoiceNth(m, p, b, k, k, Count(b), 0);
    case _ =>
  }

  // ---- BRANCH nodes: the alternatives, whatever construct they come from ----

  /** An alternative: the address of its BRANCH node, and what its operand begins. */
  datatype Way = Way(at: int, c: Cont)

  ghost predicate Branching(c: Cont) {
    c.Alts? || c.PlusLoop? || (c.Then? && (c.r.Opt? || (c.r.Star? && !IsSimple(c.r.x))))
  }

  /** The alternatives at p, in the order they are tried. */
  ghost function Ways(p: int, c: Cont, i: nat): (w: seq<Way>)
    requires Branching(c)
    ensures |w| > 0
  {
    match c
    case Alts(b, k, rest) => seq(Count(b),
         n requires 0 <= n < Count(b) => Way(NthAt(p, b, n), Then(Nth(b, n), k, rest)))
    case PlusLoop(x, start, k, low, rest) =>
      [Way(p, Loop(Plus(x), start, k, low, rest)), Way(p + 6, Then(Empty, k, rest))]
    case Then(r, k, rest) =>
      if r.Star? then
        [Way(p, Then(r.x, p + 3 + Size(r.x), Loop(r, p, k, i, rest))), Way(p + 6 + Size(r.x), Then(Empty, k, rest))]
      else
        [Way(p, Then(r.x, p + 6 + Size(r.x), Then(Empty, k, rest))), Way(p + 3 + Size(r.x), Then(Empty, k, rest))]
  }

  /** Where the links of the BRANCH nodes lead in the end. */
  ghost function WaysEnd(p: int, c: Cont): int
    requires Branching(c)
  {
    match c
    case Alts(_, k, _) => k
    case PlusLoop(_, _, _, _, _) => p + 9
    case Then(r, _, _) => if r.Star? then p + 9 + Size(r.x) else p + 6 + Size(r.x)
  }

  /** What the n-th alternative is good for. */
  ghost predicate WayOK(m: seq<byte>, s: seq<ch>, p: int, c: Cont, i: nat, n: nat)
    requires Branching(c)
  {
    var w := Ways(p, c, i);
    n < |w| &&
    Node(m, w[n].at, BRANCH, if n + 1 < |w| then w[n + 1].at else WaysEnd(p, c)) &&
    Step(m, s, p, c, i, w[n].at + 3, w[n].c, i)
  }

  lemma WaysHead(m: seq<byte>, s: seq<ch>, p: int, c: Cont, i: nat)
    requires Ready(m, p, c, s, i) && Branching(c)
    ensures Ways(p, c, i)[0].at == p
    ensures 0 < WaysEnd(p, c) && WaysEnd(p, c) + 3 <= |m| && m[WaysEnd(p, c)] != BRANCH
  {
    hide Tidy;
    hide Need;
    hide Code;
    hide Choice;
    hide Next;
    match c
    case Alts(b, k, rest) => AltHead(m, p, b, k, rest);
    case PlusLoop(x, start, k, low, rest) =>
    case Then(r, k, rest) => if r.Star? { StarParts(m, p, r.x, k); } else { OptParts(m, p, r.x, k); }
  }

  lemma AltHead(m: seq<byte>, p: int, b: Rx, k: int, rest: Cont)
    requires Impl(m, p, Alts(b, k, rest))
    ensures NthAt(p, b, 0) == p && 0 < k && k + 3 <= |m| && m[k] != BRANCH
  {
    hide Code;
    hide Choice;
    ChoiceNth(m, p, b, k, k, Count(b), 0);
  }

  lemma WayIsOK(m: seq<byte>, s: seq<ch>, p: int, c: Cont, i: nat, n: nat)
    requires Ready(m, p, c, s, i) && Branching(c) && n < |Ways(p, c, i)|
    ensures WayOK(m, s, p, c, i, n)
  {
    hide Impl;
    hide Tidy;
    hide Need;
    hide Armed;
    hide Later;
    hide Next;
    hide Node;
    match c
    case Alts(b, k, rest) => AltWay(m, s, p, b, k, rest, i, n);
    case PlusLoop(x, start, k, low, rest) => PlusWay(m, s, p, c, i, n);
    case Then(r, k, rest) =>
      if r.Star? { StarWay(m, s, p, r.x, k, rest, i, n); } else { OptWay(m, s, p, r.x, k, rest, i, n); }
  }

  lemma AltWay(m: seq<byte>, s: seq<ch>, p: int, b: Rx, k: int, rest: Cont, i: nat, n: nat)
    requires Ready(m, p, Alts(b, k, rest), s, i) && n < Count(b)
    ensures WayOK(m, s, p, Alts(b, k, rest), i, n)
  {
    hide Tidy;
    hide Need;
    hide Armed;
    hide Later;
    hide Next;
    hide Code;
    hide Choice;
    hide Nth;
    hide NthAt;
    ChoiceNth(m, p, b, k, k, Count(b), n);
    AltStep(m, s, p, b, k, rest, i, n);
  }

  lemma PlusWay(m: seq<byte>, s: seq<ch>, p: int, c: Cont, i: nat, n: nat)
    requires Ready(m, p, c, s, i) && c.PlusLoop? && n < 2
    ensures WayOK(m, s, p, c, i, n)
  {
    hide Tidy;
    hide Need;
    hide Armed;
    hide Later;
    hide Next;
    hide Code;
    var c' := Loop(Plus(c.x), c.start, c.k, c.low, c.rest);
    AgainStep(m, s, p, c, i, c');
    SkipStep(m, s, p, c, i, p + 9, Then(Empty, c.k, c.rest));
  }

  lemma StarWay(m: seq<byte>, s: seq<ch>, p: int, x: Rx, k: int, rest: Cont, i: nat, n: nat)
    requires Ready(m, p, Then(Star(x), k, rest), s, i) && !IsSimple(x) && n < 2
    ensures WayOK(m, s, p, Then(Star(x), k, rest), i, n)
  {
    hide Tidy;
    hide Need;
    hide Armed;
    hide Later;
    hide Next;
    hide Code;
    var back := p + 3 + Size(x);
    var c' := Then(x, back, Loop(Star(x), p, k, i, rest));
    StarParts(m, p, x, k);
    StarTakeStep(m, s, p, x, k, rest, i, c');
    SkipStep(m, s, p, Then(Star(x), k, rest), i, back + 6, Then(Empty, k, rest));
  }

  lemma OptWay(m: seq<byte>, s: seq<ch>, p: int, x: Rx, k: int, rest: Cont, i: nat, n: nat)
    requires Ready(m, p, Then(Opt(x), k, rest), s, i) && n < 2
    ensures WayOK(m, s, p, Then(Opt(x), k, rest), i, n)
  {
    hide Tidy;
    hide Need;
    hide Armed;
    hide Later;
    hide Next;
    hide Code;
    var or := p + 3 + Size(x);
    var c' := Then(x, or + 3, Then(Empty, k, rest));
    OptParts(m, p, x, k);
    OptTakeStep(m, s, p, x, k, rest, i, c');
    SkipStep(m, s, p, Then(Opt(x), k, rest), i, or + 3, Then(Empty, k, rest));
  }

  /** The ways ahead through the first n alternatives. */
  ghost function Tried(w: seq<Way>, s: seq<ch>, i: nat, n: nat): seq<Match>
    requires n <= |w|
  {
    if n == 0 then [] else Tried(w, s, i, n - 1) + Ahead(w[n - 1].c, s, i)
  }

  /** All ways ahead lead through one of the alternatives, those through the first
      of them first. */
  lemma AllTried(s: seq<ch>, p: int, c: Cont, i: nat)
    requires Branching(c) && i <= |s| && Tidy(c)
    ensures Tried(Ways(p, c, i), s, i, |Ways(p, c, i)|) == Ahead(c, s, i)
  {
    hide Ahead;
    var w := Ways(p, c, i);
    match c
    case Alts(b, k, rest) =>
      NthTried(w, b, k, rest, s, i, Count(b));
      NthRanked(b, s, i, AheadFrom(rest, s));
      AltsAhead(b, k, rest, s, i);
    case PlusLoop(x, start, k, low, rest) =>
      TwoTried(w, s, i);
      AgainAhead(s, c, i, w[0].c);
    case Then(r, k, rest) =>
      TwoTried(w, s, i);
      if r.Star? {
        StarAhead(s, r.x, p + 3 + Size(r.x), p, k, rest, i);
      } else {
        OptAhead(s, r.x, p + 6 + Size(r.x), k, rest, i);
      }
  }

  lemma TwoTried(w: seq<Way>, s: seq<ch>, i: nat)
    requires |w| == 2
    ensures Tried(w, s, i, 2) == Ahead(w[0].c, s, i) + Ahead(w[1].c, s, i)
  {
    hide Ahead;
    assert Tried(w, s, i, 1) == [] + Ahead(w[0].c, s, i);
  }

  lemma AltsAhead(b: Rx, k: int, rest: Cont, s: seq<ch>, i: nat)
    requires i <= |s|
    ensures Ahead(Alts(b, k, rest), s, i) == Each(Ranked(b, s, i), AheadFrom(rest, s))
  {
  }

  lemma {:induction false} NthTried(w: seq<Way>, b: Rx, k: int, rest: Cont, s: seq<ch>, i: nat, n: nat)
    requires n <= |w| == Count(b) && forall l :: 0 <= l < |w| ==> w[l].c == Then(Nth(b, l), k, rest)
    ensures Tried(w, s, i, n) == FirstNth(b, n, s, i, AheadFrom(rest, s))
  {
    hide Ahead;
    hide Ranked;
    hide Each;
    if n > 0 {
      NthTried(w, b, k, rest, s, i, n - 1);
      ThenAhead(Nth(b, n - 1), k, rest, s, i);
    }
  }

  /** What is tried earlier comes first. */
  lemma {:induction false} TriedFirst(w: seq<Way>, s: seq<ch>, i: nat, n: nat, n': nat)
    requires n <= n' <= |w|
    ensures Tried(w, s, i, n) <= Tried(w, s, i, n')
  {
    hide Ahead;
    if n < n' {
      TriedFirst(w, s, i, n, n' - 1);
    }
  }

  // ---- The compiled expression and the matcher ----

  /** struct regexp. */
  class Regexp {
    const startp: array<int>     // where each group's match starts, or NULL
    const endp: array<int>       // and where it ends
    const program: array<byte>
    var regstart: byte           // character a match must start with, or NUL
    var reganch: bool            // anchored at the beginning?
    var regmust: int             // address of a string a match must contain, or NULL
    var regmlen: nat             // its length

    constructor (size: nat)
      ensures startp.Length == endp.Length == NSUBEXP && startp != endp && program.Length == size
      ensures fresh(startp) && fresh(endp) && fresh(program)
    {
      startp := new int[NSUBEXP];
      endp := new int[NSUBEXP];
      program := new byte[size];
      regmust := NULL;
    }

    ghost predicate Valid() {
      startp.Length == endp.Length == NSUBEXP && startp != endp
    }

    /** The pointers of every group are where it was last opened and closed in t. */
    ghost predicate Marked(t: Trace)
      requires Valid()
      reads startp, endp
    {
      forall n :: 1 <= n < NSUBEXP ==> startp[n] == LastOpen(t, n) && endp[n] == LastClose(t, n)
    }
  }

  class Matcher {
    const prog: Regexp
    const s: seq<ch>             // the subject; regbol is its position 0
    var reginput: int            // position in the subject

    constructor (prog: Regexp, s: seq<ch>)
      requires prog.Valid()
      ensures this.prog == prog && this.s == s && Valid()
    {
      this.prog := prog;
      this.s := s;
      reginput := 0;
    }

    ghost predicate Valid() {
      prog.Valid()
    }

    ghost function M(): seq<byte>
      reads prog.program
    {
      prog.program[..]
    }

    /** No group's pointers are set. */
    ghost predicate Clear()
      requires Valid()
      reads prog.startp, prog.endp
    {
      forall n :: 0 <= n < NSUBEXP ==> prog.startp[n] == NULL && prog.endp[n] == NULL
    }

    /** The nodes that match, or not, on their own. */
    method MatchNode(scan: nat, ghost r: Rx, ghost k: int) returns (ok: bool)
      requires Valid() && 0 <= reginput <= |s| && IsLeaf(r) && WellFormed(r) && Code(M(), scan, r, k)
      modifies `reginput
      ensures ok ==> 0 <= reginput <= |s| && OnlyTo(r, s, old(reginput), reginput)
      ensures !ok ==> forall h :: !Matches(r, s, old(reginput), h)
    {
      ghost var m, i: nat := M(), reginput;
      var op := prog.program[scan];
      var opnd := scan + 3;
      if op == BOL {
        ok := reginput == 0;
      } else if op == EOL {
        ok := At(s, reginput) == 0;
      } else if op == ANY {
        ok := At(s, reginput) != 0;
        if ok { reginput := reginput + 1; }
      } else if op == EXACTLY {
        TextLen(m, opnd, r.cs);
        TextCmp(m, opnd, r.cs, s, i);
        assert m[opnd + 0] == r.cs[0];
        // The first character usually decides.
        if prog.program[opnd] != At(s, reginput) {
          return false;
        }
        var len := StrLen(prog.program[..], opnd);
        if len > 1 && !StrNCmp(prog.program[..], opnd, s, reginput, len) {
          return false;
        }
        ok := true;
        reginput := reginput + len;
      } else if op == ANYOF {
        if i < |s| { TextChr(m, opnd, r.cs, s[i]); }
        ok := At(s, reginput) != 0 && StrChr(prog.program[..], opnd, At(s, reginput));
        if ok { reginput := reginput + 1; }
      } else if op == ANYBUT {
        if i < |s| { TextChr(m, opnd, r.cs, s[i]); }
        ok := At(s, reginput) != 0 && !StrChr(prog.program[..], opnd, At(s, reginput));
        if ok { reginput := reginput + 1; }
      } else {
        ok := true;                            // NOTHING
      }
    }

    /** regrepeat: how often the simple thing at p matches in a row. */
    method RegRepeat(p: nat, ghost x: Rx) returns (count: nat)
      requires Valid() && 0 <= reginput <= |s| && IsSimple(x) && Leaf(M(), p, x, NULL)
      modifies `reginput
      ensures count == Run(x, s, old(reginput)) && reginput == old(reginput) + count
    {
      ghost var m, i: nat := M(), reginput;
      var scan := reginput;
      var opnd := p + 3;
      count := 0;
      if prog.program[p] == ANY {
        count := |s| - scan;                   // strlen
        scan := scan + count;
        RunAny(s, i);
      } else {
        var op := prog.program[p];
        while RepeatsHere(op, opnd, scan)
          invariant i <= scan <= |s| && scan == i + count && Run(x, s, i) == count + Run(x, s, scan)
          decreases |s| - scan
        {
          TakesHere(op, opnd, scan, x);
          count := count + 1;
          scan := scan + 1;
        }
        TakesHere(op, opnd, scan, x);
      }
      reginput := scan;
    }

    /** The loop tests of regrepeat. */
    predicate RepeatsHere(op: byte, opnd: nat, scan: nat)
      requires scan <= |s| && opnd < prog.program.Length
      reads prog.program
    {
      if op == EXACTLY then prog.program[opnd] == At(s, scan)
      else if op == ANYOF then At(s, scan) != 0 && StrChr(prog.program[..], opnd, At(s, scan))
      else if op == ANYBUT then At(s, scan) != 0 && !StrChr(prog.program[..], opnd, At(s, scan))
      else false
    }

    lemma TakesHere(op: byte, opnd: nat, scan: nat, x: Rx)
      requires scan <= |s| && 3 <= opnd < prog.program.Length && IsSimple(x) && !x.Any?
      requires Leaf(M(), opnd - 3, x, NULL) && op == prog.program[opnd - 3]
      ensures RepeatsHere(op, opnd, scan) <==> scan < |s| && Takes(x, s[scan])
    {
      assert M()[opnd] == prog.program[opnd];
      match x
      case Exactly(cs) => assert M()[opnd + 0] == cs[0];
      case AnyOf(cs) => if scan < |s| { TextChr(M(), opnd, cs, s[scan]); }
      case AnyBut(cs) => if scan < |s| { TextChr(M(), opnd, cs, s[scan]); }
    }

    /** What a call of regmatch reports: the first way for the rest to match from i,
        with the group pointers it leaves; or that there is none, with all group
        pointers as before. */
    ghost predicate Outcome(ok: bool, c: Cont, i: nat)
      requires Valid()
      reads this, prog.startp, prog.endp
    {
      var w := Ahead(c, s, i);
      if ok then w != [] && reginput == w[0].end && prog.Marked(w[0].t) else w == [] && Clear()
    }

    /** An OPEN node. The start is noted once the rest has matched; a further
        round of the group has then noted its own, which stays. */
    method MatchOpen(scan: nat, ghost c: Cont) returns (ok: bool)
      requires Valid() && Ready(M(), scan, c, s, reginput) && Clear() && c.Then? && c.r.Group?
      modifies `reginput, prog.startp, prog.endp
      ensures Outcome(ok, c, old(reginput))
      decreases |s| - reginput, Armed(c, reginput), prog.program.Length - scan, 0
    {
      hide Tidy;
      hide Need;
      hide Ahead;
      hide Next;
      hide Matches;
      hide Code;
      hide LastOpen;
      hide LastClose;
      ghost var i: nat, b := reginput, c.r.body;
      ghost var q := scan + 3 + Size(b);
      ghost var c' := Alts(b, q, Closing(c.r.no, c.k, c.rest));
      OpenStep(M(), s, scan, c.r.no, b, c.k, c.rest, i, c');
      OpenNode(M(), scan, c.r.no, b, c.k);
      var next := NextIn(prog.program, scan);
      var no := prog.program[scan] - OPEN;
      var save := reginput;
      ok := RegMatch(next, c');
      if ok {
        if prog.startp[no] == NULL {
          prog.startp[no] := save;
        }
        FirstOpen(no, i, Ahead(c', s, i)[0].t);
      }
    }

    /** A CLOSE node, likewise. */
    method MatchClose(scan: nat, ghost c: Cont) returns (ok: bool)
      requires Valid() && Ready(M(), scan, c, s, reginput) && Clear() && c.Closing?
      modifies `reginput, prog.startp, prog.endp
      ensures Outcome(ok, c, old(reginput))
      decreases |s| - reginput, Armed(c, reginput), prog.program.Length - scan, 0
    {
      hide Impl;
      hide Tidy;
      hide Need;
      hide Ahead;
      hide Next;
      hide Matches;
      hide LastOpen;
      hide LastClose;
      ghost var i: nat := reginput;
      CloseStep(M(), s, scan, c, i);
      CloseNode(M(), scan, c);
      var next := NextIn(prog.program, scan);
      var no := prog.program[scan] - CLOSE;
      var save := reginput;
      ok := RegMatch(next, c.rest);
      if ok {
        if prog.endp[no] == NULL {
          prog.endp[no] := save;
        }
        FirstClose(no, i, Ahead(c.rest, s, i)[0].t);
      }
    }

    /** A set of BRANCH nodes: try each operand, from the same position. */
    method MatchBranch(start: nat, ghost c: Cont) returns (ok: bool)
      requires Valid() && Ready(M(), start, c, s, reginput) && Clear() && Branching(c)
      modifies `reginput, prog.startp, prog.endp
      ensures Outcome(ok, c, old(reginput))
      decreases |s| - reginput, Armed(c, reginput), prog.program.Length - start, 0
    {
      hide Ahead;
      hide Node;
      hide Ways;
      hide Impl;
      hide Tidy;
      hide Need;
      hide Next;
      hide WaysEnd;
      ghost var i: nat, n, w := reginput, 0, Ways(start, c, reginput);
      var scan := start;
      WaysHead(M(), s, start, c, i);
      WayIsOK(M(), s, start, c, i, 0);
      WayNode(M(), s, start, c, i, 0);
      AllTried(s, start, c, i);
      while prog.program[scan] == BRANCH
        invariant Valid() && reginput == i && Clear()
        invariant n <= |w| && Tried(w, s, i, n) == []
        invariant 0 < scan && scan + 3 <= prog.program.Length
        invariant scan == if n < |w| then w[n].at else WaysEnd(start, c)
        invariant M()[scan] == BRANCH <==> n < |w|
        decreases |w| - n
      {
        WayIsOK(M(), s, start, c, i, n);
        WayNode(M(), s, start, c, i, n);
        var save := reginput;
        ok := RegMatch(scan + 3, w[n].c);
        TriedFirst(w, s, i, n + 1, |w|);
        if ok {
          return;
        }
        reginput := save;
        scan := NextIn(prog.program, scan);
        n := n + 1;
      }
      return false;
    }

    /** A STAR or PLUS node: as many repetitions as there are, then fewer, down
        to the minimum. */
    method MatchRepeat(scan: nat, ghost c: Cont) returns (ok: bool)
      requires Valid() && Ready(M(), scan, c, s, reginput) && Clear() && Repeating(c)
      modifies `reginput, prog.startp, prog.endp
      ensures Outcome(ok, c, old(reginput))
      decreases |s| - reginput, Armed(c, reginput), prog.program.Length - scan, 0
    {
      hide Ahead;
      hide Next;
      hide Leaf;
      hide Run;
      hide Tidy;
      hide Need;
      hide Impl;
      hide Matches;
      hide Down;
      ghost var i: nat, x := reginput, c.r.x;
      RepeatNode(M(), s, scan, c, i);
      var next := NextIn(prog.program, scan);
      // If a literal follows, its first character has to be there
      var nextch: byte := 0;
      if prog.program[next] == EXACTLY {
        nextch := prog.program[next + 3];
      }
      var min := if prog.program[scan] == STAR then 0 else 1;
      var save := reginput;
      var no: int := RegRepeat(scan + 3, x);
      ghost var run: nat := no;
      ghost var lo: nat := i + min;
      RepeatAhead(s, c.r, c.k, c.rest, i);
      while no >= min
        invariant Valid() && Clear() && reginput == i + no && min - 1 <= no <= run == Run(x, s, i)
        invariant Ahead(c, s, i) == Down(c.rest, s, i + no, lo)
        decreases no
      {
        ghost var h: nat := reginput;
        DownIs(c.rest, s, h, lo);
        RepeatMatches(c.r, s, i, h);
        RepeatStep(M(), s, scan, c.r, c.k, c.rest, i, h);
        // The next character fits, or is not known
        if nextch == 0 || At(s, reginput) == nextch {
          ok := RegMatch(next, c.rest);
          if ok {
            return;
          }
        } else if Ahead(c.rest, s, h) != [] {
          NextChar(M(), next, c.rest, s, h);
        }
        // Give one back
        no := no - 1;
        reginput := save + no;
      }
      DownIs(c.rest, s, i + no, lo);
      return false;
    }

    /** regmatch: can the program from p on match from here? The nodes that need
        to know whether the rest matched are left to the methods above. */
    method RegMatch(p: nat, ghost c: Cont) returns (ok: bool)
      requires Valid() && Ready(M(), p, c, s, reginput) && Clear()
      modifies `reginput, prog.startp, prog.endp
      ensures Outcome(ok, c, old(reginput))
      decreases |s| - reginput, Armed(c, reginput), prog.program.Length - p, 1
    {
      hide Impl;
      hide Tidy;
      hide Need;
      hide Ahead;
      hide Armed;
      hide Matches;
      hide Next;
      hide Ways;
      hide Code;
      hide HeadOp;
      hide Reached;
      ghost var i0: nat, d := reginput, c;
      var scan := p;
      ReachedStart(M(), s, p, c, i0);
      while true
        invariant Valid() && Reached(M(), s, p, c, i0, scan, d, reginput) && Clear()
        invariant Ready(M(), scan, d, s, reginput)
        decreases |s| - reginput, Armed(d, reginput), prog.program.Length - scan
      {
        ghost var i: nat := reginput;
        ghost var e := Unfold(M(), s, scan, d, i);
        ReachedHead(M(), s, p, c, i0, scan, d, i, e);
        Head(M(), s, scan, e, i);
        var next := NextIn(prog.program, scan);
        var op := prog.program[scan];
        if OPEN < op <= OPEN + 9 {
          ok := MatchOpen(scan, e);
          return;
        } else if CLOSE < op <= CLOSE + 9 {
          ok := MatchClose(scan, e);
          return;
        } else if op == STAR || op == PLUS {
          ok := MatchRepeat(scan, e);
          return;
        } else if op == END {
          DoneAhead(s, i);
          return true;
        } else if op == BRANCH {
          OnlyWay(M(), s, scan, e, i);
          if prog.program[next] != BRANCH {
            // A choice of one needs no call.
            d := Ways(scan, e, i)[0].c;
            next := scan + 3;
          } else {
            ok := MatchBranch(scan, e);
            return;
          }
        } else {
          ok, d := MatchPlain(scan, e);
          if !ok {
            return;
          }
        }
        ReachedNext(M(), s, p, c, i0, scan, e, i, next, d, reginput);
        scan := next;
      }
    }

    /** The nodes after which there is just one way to go on: to the next node. */
    method MatchPlain(scan: nat, ghost e: Cont) returns (ok: bool, ghost d: Cont)
      requires Valid() && Ready(M(), scan, e, s, reginput) && NodeHead(e)
      requires M()[scan] in {BOL, EOL, ANY, ANYOF, ANYBUT, BACK, EXACTLY, NOTHING}
      modifies `reginput
      ensures !ok ==> Ahead(e, s, old(reginput)) == []
      ensures ok ==>
                0 <= Next(M(), scan) && 0 <= reginput &&
                Step(M(), s, scan, e, old(reginput), Next(M(), scan), d, reginput)
      ensures ok ==> Ahead(d, s, reginput) == Ahead(e, s, old(reginput))
    {
      hide Tidy;
      hide Need;
      hide Ahead;
      hide Armed;
      hide Matches;
      hide Code;
      hide Impl;
      ghost var i: nat := reginput;
      Head(M(), s, scan, e, i);
      if prog.program[scan] == BACK {
        LoopStep(M(), s, scan, e, i);
        d := Then(e.r, e.k, e.rest);
        ok := true;
      } else {
        ok := MatchNode(scan, e.r, e.k);
        if ok {
          LeafStep(M(), s, scan, e.r, e.k, e.rest, i, reginput);
          d := e.rest;
        } else {
          LeafFails(s, e.r, e.k, e.rest, i);
          d := e;
        }
      }
    }
  }

  /** What regmatch, called at (p, c, i0), keeps true of where it is: the ways
      ahead are those from the start, and it is further on. */
  ghost predicate Reached(m: seq<byte>, s: seq<ch>, p: int, c: Cont, i0: nat, scan: int, d: Cont, i: int) {
    Ready(m, scan, d, s, i) && Ahead(d, s, i) == Ahead(c, s, i0) &&
    ((scan == p && i == i0 && Armed(d, i) == Armed(c, i0)) || Later(scan, d, i, p, c, i0))
  }

  lemma ReachedStart(m: seq<byte>, s: seq<ch>, p: int, c: Cont, i: int)
    requires Ready(m, p, c, s, i)
    ensures Reached(m, s, p, c, i, p, c, i)
  {
  }

  lemma ReachedHead(m: seq<byte>, s: seq<ch>, p: int, c: Cont, i0: nat, scan: int, d: Cont, i: nat, e: Cont)
    requires Reached(m, s, p, c, i0, scan, d, i) && Ready(m, scan, e, s, i) && Armed(e, i) == Armed(d, i)
    requires Ahead(e, s, i) == Ahead(d, s, i)
    ensures Reached(m, s, p, c, i0, scan, e, i) && Ahead(e, s, i) == Ahead(c, s, i0)
    ensures i0 < i || (i0 == i && (Armed(e, i) < Armed(c, i0) || (Armed(e, i) == Armed(c, i0) && p <= scan)))
  {
    hide Ready;
    hide Armed;
    hide Ahead;
  }

  lemma ReachedNext(m: seq<byte>, s: seq<ch>, p: int, c: Cont, i0: nat, scan: int, e: Cont, i: nat,
                    next: int, d: Cont, i': nat)
    requires Reached(m, s, p, c, i0, scan, e, i) && Step(m, s, scan, e, i, next, d, i')
    requires Ahead(d, s, i') == Ahead(e, s, i)
    ensures Reached(m, s, p, c, i0, next, d, i') && Ready(m, next, d, s, i') && Later(next, d, i', scan, e, i)
  {
    hide Ready;
    hide Armed;
    hide Ahead;
  }

  /** What each opcode says about the continuation it heads. */
  lemma Head(m: seq<byte>, s: seq<ch>, p: int, c: Cont, i: nat)
    requires Ready(m, p, c, s, i) && NodeHead(c)
    ensures 0 < p && p + 3 <= |m|
    ensures OPEN < m[p] <= OPEN + 9 ==> c.Then? && c.r.Group?
    ensures CLOSE < m[p] <= CLOSE + 9 ==> c.Closing?
    ensures m[p] == STAR || m[p] == PLUS ==> Repeating(c)
    ensures m[p] == END ==> c.Done?
    ensures m[p] == BRANCH ==> Branching(c)
    ensures m[p] == BACK ==> c.Loop? && 0 < c.start == Next(m, p)
    ensures m[p] in {BOL, EOL, ANY, ANYOF, ANYBUT, EXACTLY, NOTHING} ==>
              c.Then? && IsLeaf(c.r) && WellFormed(c.r) && Code(m, p, c.r, c.k) && 0 < c.k == Next(m, p)
    ensures OPEN < m[p] <= OPEN + 9 || CLOSE < m[p] <= CLOSE + 9 ||
            m[p] in {END, BOL, EOL, ANY, ANYOF, ANYBUT, BRANCH, BACK, EXACTLY, NOTHING, STAR, PLUS}
  {
    hide Need;
    hide Choice;
    HeadOpcode(m, s, p, c, i);
    ImplRoom(m, p, c);
    if c.Then? && c.r.Group? {
      OpenNode(m, p, c.r.no, c.r.body, c.k);
    }
  }

  lemma DoneAhead(s: seq<ch>, i: nat)
    requires i <= |s|
    ensures Ahead(Done, s, i) == [Match(i, [])]
  {
  }

  /** One more parenthesis in front matters only if the group has no later one. */
  lemma FirstOpen(no: nat, i: nat, t: Trace)
    ensures forall n: nat :: LastClose([Open(no, i)] + t, n) == LastClose(t, n) &&
                             LastOpen([Open(no, i)] + t, n) ==
                             if LastOpen(t, n) == NULL && n == no then i else LastOpen(t, n)
  {
    assert ([Open(no, i)] + t)[1..] == t;
  }

  lemma FirstClose(no: nat, i: nat, t: Trace)
    ensures forall n: nat :: LastOpen([Close(no, i)] + t, n) == LastOpen(t, n) &&
                             LastClose([Close(no, i)] + t, n) ==
                             if LastClose(t, n) == NULL && n == no then i else LastClose(t, n)
  {
    assert ([Close(no, i)] + t)[1..] == t;
  }

  lemma CloseNode(m: seq<byte>, p: int, c: Cont)
    requires Impl(m, p, c) && c.Closing?
    ensures 0 < p && p + 3 <= |m| && 1 <= c.no <= 9 && m[p] == CLOSE + c.no && Next(m, p) == c.k
  {
  }

  /** A BRANCH that does not link to another one offers no choice. */
  lemma OnlyWay(m: seq<byte>, s: seq<ch>, p: int, c: Cont, i: nat)
    requires Ready(m, p, c, s, i) && Branching(c)
    ensures 0 < Next(m, p) && Next(m, p) + 3 <= |m|
    ensures m[Next(m, p)] != BRANCH ==>
              var d := Ways(p, c, i)[0].c;
              Step(m, s, p, c, i, p + 3, d, i) && Ahead(d, s, i) == Ahead(c, s, i)
  {
    hide Ahead;
    hide Ways;
    hide Later;
    hide Impl;
    hide Tidy;
    hide Need;
    hide Next;
    hide Node;
    WaysHead(m, s, p, c, i);
    WayIsOK(m, s, p, c, i, 0);
    WayNode(m, s, p, c, i, 0);
    AllTried(s, p, c, i);
    var w := Ways(p, c, i);
    if |w| == 1 { assert Tried(w, s, i, 1) == [] + Ahead(w[0].c, s, i); }
  }

  predicate Repeating(c: Cont) {
    c.Then? && (c.r.Star? || c.r.Plus?) && IsSimple(c.r.x)
  }

  lemma RepeatNode(m: seq<byte>, s: seq<ch>, p: int, c: Cont, i: nat)
    requires Ready(m, p, c, s, i) && Repeating(c)
    ensures 0 < p && p + 6 <= |m| && m[p] == (if c.r.Star? then STAR else PLUS) && Next(m, p) == c.k
    ensures Leaf(m, p + 3, c.r.x, NULL)
    ensures p < c.k && c.k + 3 <= |m| && Impl(m, c.k, c.rest) && (m[c.k] == EXACTLY ==> c.k + 3 < |m|)
  {
    CodeSize(m, p, c.r, c.k);
    assert Size(c.r) == 3 + Size(c.r.x);
    ImplRoom(m, c.k, c.rest);
  }

  lemma ImplRoom(m: seq<byte>, p: int, c: Cont)
    requires Impl(m, p, c)
    ensures 0 < p && p + 3 <= |m| && (m[p] == EXACTLY ==> p + 3 < |m|)
  {
  }

  lemma OpenNode(m: seq<byte>, p: int, no: nat, b: Rx, k: int)
    requires Code(m, p, Group(no, b), k)
    ensures 0 < p && p + 3 <= |m| && 1 <= no <= 9 && m[p] == OPEN + no && Next(m, p) == p + 3
  {
  }

  lemma WayNode(m: seq<byte>, s: seq<ch>, p: int, c: Cont, i: nat, n: nat)
    requires Branching(c) && Ready(m, p, c, s, i) && n < |Ways(p, c, i)| && WayOK(m, s, p, c, i, n)
    ensures var w := Ways(p, c, i);
            0 < w[n].at && w[n].at + 3 <= |m| && m[w[n].at] == BRANCH &&
            Next(m, w[n].at) == (if n + 1 < |w| then w[n + 1].at else WaysEnd(p, c)) &&
            0 < Next(m, w[n].at) && Next(m, w[n].at) + 3 <= |m| &&
            (m[Next(m, w[n].at)] == BRANCH <==> n + 1 < |w|) && Ready(m, w[n].at + 3, w[n].c, s, i)
  {
    hide Ways;
    hide Ahead;
    hide Later;
    hide Next;
    hide Impl;
    hide Tidy;
    hide Need;
    if n + 1 < |Ways(p, c, i)| {
      WayIsOK(m, s, p, c, i, n + 1);
    } else {
      WaysHead(m, s, p, c, i);
    }
  }

  lemma {:induction false} RunAny(s: seq<ch>, i: nat)
    requires i <= |s|
    ensures Run(Any, s, i) == |s| - i
    decreases |s| - i
  {
    if i < |s| {
      RunAny(s, i + 1);
    }
  }
}
