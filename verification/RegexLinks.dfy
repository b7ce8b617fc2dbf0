/** Where the links of a compiled program lead: from the start of a node to the
    start of another, forwards except from a BACK node. */
module RegexLinks {
  import opened CTypes
  import opened RegexLanguage
  import opened RegexCode
  import opened RegexSteps
  import opened RegexHints

  /** A node starts at x, in the code of r at p. */
  ghost predicate NodeIn(r: Rx, p: int, x: int) {
    match r
    case Group(_, b) => x == p || NodeIn(b, p + 3, x) || x == p + 3 + Size(b)
    case Cat(a, b) => NodeIn(a, p, x) || NodeIn(b, p + Size(a), x)
    case Star(y) =>
      x == p || NodeIn(y, p + 3, x) || (!IsSimple(y) && After(p + 3 + Size(y), x, 2))
    case Plus(y) =>
      if IsSimple(y) then x == p || NodeIn(y, p + 3, x) else NodeIn(y, p, x) || After(p + Size(y), x, 3)
    case Opt(y) => x == p || NodeIn(y, p + 3, x) || After(p + 3 + Size(y), x, 1)
    case Branch(b) => x == p || NodeIn(b, p + 3, x)
    case Alt(a, b) => NodeIn(a, p, x) || NodeIn(b, p + Size(a), x)
    case _ => x == p
  }

  /** x is q or one of the n nodes without operands behind it. */
  predicate After(q: int, x: int, n: nat) {
    x == q || (n >= 1 && x == q + 3) || (n >= 2 && x == q + 6) || (n >= 3 && x == q + 9)
  }

  /** A node is at x, and if it has a link, that leads to a node of the code, to
      k1 or to k2. */
  ghost predicate Lands(m: seq<byte>, r: Rx, p: int, x: int, k1: int, k2: int) {
    p <= x && 0 < x && x + 3 <= |m| && x + 3 <= p + Size(r) &&
    (Next(m, x) == NULL || Next(m, x) == k1 || Next(m, x) == k2 || NodeIn(r, p, Next(m, x)))
  }

  lemma {:induction false} StartsNode(r: Rx, p: int)
    ensures NodeIn(r, p, p)
  {
    match r
    case Cat(a, _) => StartsNode(a, p);
    case Alt(a, _) => StartsNode(a, p);
    case Plus(y) => if !IsSimple(y) { StartsNode(y, p); }
    case _ =>
  }

  /** What lands in a part of the code lands in the whole. */
  lemma Wider(m: seq<byte>, a: Rx, q: int, r: Rx, p: int, x: int, j1: int, j2: int, k1: int, k2: int)
    requires Lands(m, a, q, x, j1, j2) && p <= q && q + Size(a) <= p + Size(r)
    requires forall y :: NodeIn(a, q, y) ==> NodeIn(r, p, y)
    requires j1 == NULL || j1 == k1 || j1 == k2 || NodeIn(r, p, j1)
    requires j2 == NULL || j2 == k1 || j2 == k2 || NodeIn(r, p, j2)
    ensures Lands(m, r, p, x, k1, k2)
  {
    hide NodeIn;
    hide Size;
    hide Next;
  }

  /** Every link in the code of r lands. */
  lemma {:induction false} CodeLands(m: seq<byte>, p: int, r: Rx, k: int, x: int)
    requires Code(m, p, r, k) && NodeIn(r, p, x)
    ensures Lands(m, r, p, x, k, k)
    decreases r, 1
  {
    hide Code;
    hide Choice;
    hide Next;
    hide Lands;
    match r
    case Group(no, b) => GroupLands(m, p, no, b, k, x);
    case Cat(a, b) => CatLands(m, p, a, b, k, x);
    case Star(y) => if IsSimple(y) { SimpleLands(m, p, r, y, k, x); } else { StarLands(m, p, y, k, x); }
    case Plus(y) => if IsSimple(y) { SimpleLands(m, p, r, y, k, x); } else { PlusLands(m, p, y, k, x); }
    case Opt(y) => OptLands(m, p, y, k, x);
    case _ =>
      NoChoice(m, p, r, k);
      LeafLands(m, p, r, k);
  }

  lemma NoChoice(m: seq<byte>, p: int, r: Rx, k: int)
    requires Code(m, p, r, k)
    ensures !r.Branch? && !r.Alt?
  {
    hide Next;
    hide Choice;
  }

  lemma LeafLands(m: seq<byte>, p: int, r: Rx, k: int)
    requires Code(m, p, r, k)
    requires match r case Group(_, _) => false case Cat(_, _) => false case Star(_) => false
                     case Plus(_) => false case Opt(_) => false case _ => true
    ensures Lands(m, r, p, p, k, k)
  {
    hide Next;
    hide Choice;
  }

  lemma SimpleLands(m: seq<byte>, p: int, r: Rx, y: Rx, k: int, x: int)
    requires Code(m, p, r, k) && (r == Star(y) || r == Plus(y)) && IsSimple(y) && NodeIn(r, p, x)
    ensures Lands(m, r, p, x, k, k)
  {
    hide Next;
    hide Choice;
  }

  lemma {:induction false} GroupLands(m: seq<byte>, p: int, no: nat, b: Rx, k: int, x: int)
    requires Code(m, p, Group(no, b), k) && NodeIn(Group(no, b), p, x)
    ensures Lands(m, Group(no, b), p, x, k, k)
    decreases b, 3
  {
    hide Code;
    hide Choice;
    hide Next;
    CodeSize(m, p, Group(no, b), k);
    GroupParts(m, p, no, b, k);
    StartsNode(b, p + 3);
    var close := p + 3 + Size(b);
    if NodeIn(b, p + 3, x) {
      ChoiceLands(m, p + 3, b, close, close, Count(b), x);
      Wider(m, b, p + 3, Group(no, b), p, x, close, close, k, k);
    }
  }

  lemma {:induction false} CatLands(m: seq<byte>, p: int, a: Rx, b: Rx, k: int, x: int)
    requires Code(m, p, Cat(a, b), k) && NodeIn(Cat(a, b), p, x)
    ensures Lands(m, Cat(a, b), p, x, k, k)
    decreases Cat(a, b), 0
  {
    hide Code;
    hide Choice;
    hide Next;
    hide Lands;
    CatParts(m, p, a, b, k);
    StartsNode(b, p + Size(a));
    if NodeIn(a, p, x) {
      CodeLands(m, p, a, p + Size(a), x);
      Wider(m, a, p, Cat(a, b), p, x, p + Size(a), p + Size(a), k, k);
    } else {
      CodeLands(m, p + Size(a), b, k, x);
      Wider(m, b, p + Size(a), Cat(a, b), p, x, k, k, k, k);
    }
  }

  lemma {:induction false} StarLands(m: seq<byte>, p: int, y: Rx, k: int, x: int)
    requires Code(m, p, Star(y), k) && !IsSimple(y) && NodeIn(Star(y), p, x)
    ensures Lands(m, Star(y), p, x, k, k)
    decreases y, 2
  {
    hide Code;
    hide Choice;
    hide Next;
    CodeSize(m, p, Star(y), k);
    StarParts(m, p, y, k);
    var back := p + 3 + Size(y);
    if NodeIn(y, p + 3, x) {
      CodeLands(m, p + 3, y, back, x);
      Wider(m, y, p + 3, Star(y), p, x, back, back, k, k);
    }
  }

  lemma {:induction false} PlusLands(m: seq<byte>, p: int, y: Rx, k: int, x: int)
    requires Code(m, p, Plus(y), k) && !IsSimple(y) && NodeIn(Plus(y), p, x)
    ensures Lands(m, Plus(y), p, x, k, k)
    decreases y, 2
  {
    hide Code;
    hide Choice;
    hide Next;
    CodeSize(m, p, Plus(y), k);
    PlusParts(m, p, y, k);
    StartsNode(y, p);
    if NodeIn(y, p, x) {
      CodeLands(m, p, y, p + Size(y), x);
      Wider(m, y, p, Plus(y), p, x, p + Size(y), p + Size(y), k, k);
    }
  }

  lemma {:induction false} OptLands(m: seq<byte>, p: int, y: Rx, k: int, x: int)
    requires Code(m, p, Opt(y), k) && NodeIn(Opt(y), p, x)
    ensures Lands(m, Opt(y), p, x, k, k)
    decreases y, 2
  {
    hide Code;
    hide Choice;
    hide Next;
    CodeSize(m, p, Opt(y), k);
    OptParts(m, p, y, k);
    var nothing := p + 6 + Size(y);
    if NodeIn(y, p + 3, x) {
      CodeLands(m, p + 3, y, nothing, x);
      Wider(m, y, p + 3, Opt(y), p, x, nothing, nothing, k, k);
    }
  }

  /** Every link in the code of a choice lands. */
  lemma {:induction false} ChoiceLands(m: seq<byte>, p: int, r: Rx, next: int, tail: int, hooked: int, x: int)
    requires Choice(m, p, r, next, tail, hooked) && NodeIn(r, p, x)
    ensures Lands(m, r, p, x, next, tail)
    decreases r, 1
  {
    hide Code;
    hide Next;
    hide AltCode;
    match r
    case Branch(b) =>
      var k := if 0 < hooked then tail else NULL;
      if NodeIn(b, p + 3, x) {
        CodeLands(m, p + 3, b, k, x);
        Wider(m, b, p + 3, r, p, x, k, k, next, tail);
      }
    case Alt(a, Branch(b)) =>
      assert Size(Branch(b)) == 3 + Size(b);
      AltLands(m, p, a, b, next, tail, hooked, x);
  }

  lemma {:induction false} AltLands(m: seq<byte>, p: int, a: Rx, b: Rx, next: int, tail: int, hooked: int, x: int)
    requires AltCode(m, p, a, b, next, tail, hooked) && NodeIn(Alt(a, Branch(b)), p, x) && 0 < p
    requires p + Size(a) + 3 + Size(b) <= |m|
    ensures Lands(m, Alt(a, Branch(b)), p, x, next, tail)
    decreases Alt(a, Branch(b)), 0
  {
    hide Code;
    hide Choice;
    hide Next;
    var r, q := Alt(a, Branch(b)), p + Size(a);
    var k := if Count(a) < hooked then tail else NULL;
    assert Size(Branch(b)) == 3 + Size(b) && Size(r) == Size(a) + Size(Branch(b));
    assert NodeIn(Branch(b), q, q);
    if NodeIn(a, p, x) {
      ChoiceLands(m, p, a, q, tail, hooked, x);
      Wider(m, a, p, r, p, x, q, tail, next, tail);
    } else if NodeIn(b, q + 3, x) {
      CodeLands(m, q + 3, b, k, x);
      Wider(m, b, q + 3, r, p, x, k, k, next, tail);
    }
  }

  /** Only a BACK node links backwards. */
  lemma Direction(m: seq<byte>, x: nat)
    requires x + 3 <= |m| && Next(m, x) != NULL
    ensures if m[x] == BACK then Next(m, x) < x else x < Next(m, x)
  {
  }

  /** A node of the program of r. */
  ghost predicate ProgramNode(r: Rx, x: int) {
    NodeIn(r, 1, x) || x == 1 + Size(r)
  }

  /** The links of a program stay inside it: each leads to the start of another node,
      forwards except from BACK. */
  lemma ProgramLinks(m: seq<byte>, r: Rx, x: int)
    requires Program(m, r) && ProgramNode(r, x)
    ensures 0 < x && x + 3 <= |m|
    ensures Next(m, x) != NULL ==>
              ProgramNode(r, Next(m, x)) && if m[x] == BACK then Next(m, x) < x else x < Next(m, x)
  {
    hide Choice;
    hide Next;
    hide NodeIn;
    var end := 1 + Size(r);
    if NodeIn(r, 1, x) { ChoiceLands(m, 1, r, end, end, Count(r), x); }
    if Next(m, x) != NULL { Direction(m, x); }
  }
}
