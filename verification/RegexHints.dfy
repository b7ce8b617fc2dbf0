/** What regcomp notes down to make matching fast, and why it is sound: a string
    that every match contains. */
module RegexHints {
  import opened CTypes
  import opened RegexLanguage
  import opened RegexGrammar
  import opened RegexCode
  import opened RegexSteps

  // ---- Strings that every match contains ----

  predicate OccursAt(cs: seq<ch>, s: seq<ch>, t: nat) {
    t + |cs| <= |s| && s[t..t + |cs|] == cs
  }

  /** cs occurs in s at or after i, and ends by j. */
  ghost predicate Occurs(cs: seq<ch>, s: seq<ch>, i: nat, j: nat) {
    exists t: nat :: i <= t && t + |cs| <= j && OccursAt(cs, s, t)
  }

  ghost predicate Required(r: Rx, cs: seq<ch>) {
    forall s: seq<ch>, i: nat, j: nat :: Matches(r, s, i, j) ==> Occurs(cs, s, i, j)
  }

  lemma OccursIn(cs: seq<ch>, s: seq<ch>, i: nat, j: nat, i': nat, j': nat)
    requires Occurs(cs, s, i, j) && i' <= i && j <= j' <= |s|
    ensures Occurs(cs, s, i', j')
  {
    var t: nat :| i <= t && t + |cs| <= j && OccursAt(cs, s, t);
  }

  lemma MatchBounds(r: Rx, s: seq<ch>, i: nat, j: nat)
    requires Matches(r, s, i, j)
    ensures i <= j <= |s|
  {
  }

  lemma RequiredCat(a: Rx, b: Rx, cs: seq<ch>)
    requires Required(a, cs) || Required(b, cs)
    ensures Required(Cat(a, b), cs)
  {
    forall s: seq<ch>, i: nat, j: nat | Matches(Cat(a, b), s, i, j) ensures Occurs(cs, s, i, j) {
      var k := CatSplit(a, b, s, i, j);
      MatchBounds(b, s, k, j);
      if Required(a, cs) { OccursIn(cs, s, i, k, i, j); } else { OccursIn(cs, s, k, j, i, j); }
    }
  }

  lemma RequiredPlus(x: Rx, cs: seq<ch>)
    requires Required(x, cs)
    ensures Required(Plus(x), cs)
  {
    forall s: seq<ch>, i: nat, j: nat | Matches(Plus(x), s, i, j) ensures Occurs(cs, s, i, j) {
      var k := PlusSplit(x, s, i, j);
      MatchBounds(Plus(x), s, i, j);
      OccursIn(cs, s, i, k, i, j);
    }
  }

  lemma RequiredExactly(cs: seq<ch>)
    ensures Required(Exactly(cs), cs)
  {
    forall s: seq<ch>, i: nat, j: nat | Matches(Exactly(cs), s, i, j) ensures Occurs(cs, s, i, j) {
      assert i + |cs| == j;
      assert OccursAt(cs, s, i);
    }
  }

  // ---- The nodes regcomp walks over when it looks for such strings ----

  predicate IsNthAt(p: int, b: Rx, n: nat, x: int) {
    n < Count(b) && x == NthAt(p, b, n)
  }

  /** x is one of the BRANCH nodes of the choice b at p. */
  ghost predicate IsBranchAt(p: int, b: Rx, x: int) {
    exists n: nat :: IsNthAt(p, b, n, x)
  }

  /** x is a node on the chain of links through the code of r at p. */
  ghost predicate OnSpine(r: Rx, p: int, x: int) {
    match r
    case Group(_, b) => x == p || x == p + 3 + Size(b) || IsBranchAt(p + 3, b, x)
    case Cat(a, b) => OnSpine(a, p, x) || OnSpine(b, p + Size(a), x)
    case Star(y) => x == p || (!IsSimple(y) && (x == p + 6 + Size(y) || x == p + 9 + Size(y)))
    case Plus(y) =>
      if IsSimple(y) then x == p
      else OnSpine(y, p, x) || x == p + Size(y) || x == p + Size(y) + 6 || x == p + Size(y) + 9
    case Opt(y) => x == p || x == p + 3 + Size(y) || x == p + 6 + Size(y)
    case _ => x == p
  }

  lemma {:induction false} SpineStart(r: Rx, p: int)
    ensures OnSpine(r, p, p)
  {
    match r
    case Cat(a, b) => SpineStart(a, p);
    case Plus(y) => if !IsSimple(y) { SpineStart(y, p); }
    case _ =>
  }

  /** From x, a link leads on to a later node of the spine, or to k. */
  ghost predicate StaysOn(m: seq<byte>, p: int, r: Rx, k: int, x: int) {
    0 < x && x + 3 <= |m| && x < Next(m, x) && (Next(m, x) == k || OnSpine(r, p, Next(m, x)))
  }

  /** The links stay on the spine until they leave the code. */
  lemma {:induction false} SpineNext(m: seq<byte>, p: int, r: Rx, k: int, x: int)
    requires Code(m, p, r, k) && OnSpine(r, p, x) && k != NULL
    ensures StaysOn(m, p, r, k, x)
    decreases r
  {
    hide Code;
    hide Choice;
    hide Next;
    hide StaysOn;
    hide CatCode;
    hide PlusCode;
    hide StarCode;
    hide OptCode;
    hide Node;
    match r
    case Group(no, b) => GroupSpineNext(m, p, no, b, k, x);
    case Cat(a, b) =>
      CatParts(m, p, a, b, k);
      CodeSize(m, p, a, p + Size(a));
      if OnSpine(a, p, x) {
        SpineNext(m, p, a, p + Size(a), x);
        SpineStart(b, p + Size(a));
      } else {
        SpineNext(m, p + Size(a), b, k, x);
      }
      CatSpine(m, p, a, b, k, x);
    case Star(y) => if IsSimple(y) { LeafSpineNext(m, p, r, k); } else { StarSpineNext(m, p, y, k, x); }
    case Plus(y) =>
      if IsSimple(y) {
        LeafSpineNext(m, p, r, k);
      } else {
        PlusParts(m, p, y, k);
        CodeSize(m, p, y, p + Size(y));
        if OnSpine(y, p, x) { SpineNext(m, p, y, p + Size(y), x); }
        PlusSpineNext(m, p, y, k, x);
      }
    case Opt(y) => OptSpineNext(m, p, y, k, x);
    case _ => LeafSpineNext(m, p, r, k);
  }

  lemma LeafSpineNext(m: seq<byte>, p: int, r: Rx, k: int)
    requires Code(m, p, r, k) && k != NULL
    requires match r case Group(_, _) => false case Cat(_, _) => false case Opt(_) => false
                     case Star(y) => IsSimple(y) case Plus(y) => IsSimple(y) case _ => true
    ensures StaysOn(m, p, r, k, p)
  {
    hide Next;
    hide Choice;
    LinksForward(m, p, r, k);
  }

  lemma CatSpine(m: seq<byte>, p: int, a: Rx, b: Rx, k: int, x: int)
    requires (StaysOn(m, p, a, p + Size(a), x) && OnSpine(b, p + Size(a), p + Size(a))) ||
             StaysOn(m, p + Size(a), b, k, x)
    ensures StaysOn(m, p, Cat(a, b), k, x)
  {
    hide Next;
  }

  lemma StarSpineNext(m: seq<byte>, p: int, y: Rx, k: int, x: int)
    requires Code(m, p, Star(y), k) && OnSpine(Star(y), p, x) && k != NULL && !IsSimple(y)
    ensures StaysOn(m, p, Star(y), k, x)
  {
    hide Next;
    hide Choice;
    hide Code;
    LinksForward(m, p, Star(y), k);
    StarParts(m, p, y, k);
  }

  lemma PlusSpineNext(m: seq<byte>, p: int, y: Rx, k: int, x: int)
    requires Code(m, p, Plus(y), k) && OnSpine(Plus(y), p, x) && k != NULL && !IsSimple(y)
    requires OnSpine(y, p, x) ==> StaysOn(m, p, y, p + Size(y), x)
    ensures StaysOn(m, p, Plus(y), k, x)
  {
    hide Next;
    hide Choice;
    hide Code;
    LinksForward(m, p, Plus(y), k);
    PlusParts(m, p, y, k);
  }

  lemma OptSpineNext(m: seq<byte>, p: int, y: Rx, k: int, x: int)
    requires Code(m, p, Opt(y), k) && OnSpine(Opt(y), p, x) && k != NULL
    ensures StaysOn(m, p, Opt(y), k, x)
  {
    hide Next;
    hide Choice;
    hide Code;
    LinksForward(m, p, Opt(y), k);
    OptParts(m, p, y, k);
  }

  lemma GroupSpineNext(m: seq<byte>, p: int, no: nat, b: Rx, k: int, x: int)
    requires Code(m, p, Group(no, b), k) && OnSpine(Group(no, b), p, x) && k != NULL
    ensures StaysOn(m, p, Group(no, b), k, x)
  {
    hide Next;
    hide Choice;
    hide Code;
    hide NthAt;
    var close := p + 3 + Size(b);
    GroupParts(m, p, no, b, k);
    LinksForward(m, p, Group(no, b), k);
    if x == p {
      ChoiceNth(m, p + 3, b, close, close, Count(b), 0);
      assert IsNthAt(p + 3, b, 0, p + 3);
    } else if x != close {
      var n: nat :| IsNthAt(p + 3, b, n, x);
      ChoiceNth(m, p + 3, b, close, close, Count(b), n);
      if n + 1 < Count(b) {
        assert IsNthAt(p + 3, b, n + 1, NthAt(p + 3, b, n + 1));
      }
    }
  }

  lemma GroupParts(m: seq<byte>, p: int, no: nat, b: Rx, k: int)
    requires Code(m, p, Group(no, b), k)
    ensures GroupCode(m, p, no, b, k)
  {
  }

  /** A literal on the spine is required. */
  lemma {:induction false} SpineText(m: seq<byte>, p: int, r: Rx, k: int, x: int) returns (cs: seq<ch>)
    requires Code(m, p, r, k) && OnSpine(r, p, x) && WellFormed(r) && 0 < x && x + 3 <= |m| && m[x] == EXACTLY
    ensures cs != [] && Text(m, x + 3, cs) && Required(r, cs)
    decreases r
  {
    hide Code;
    hide Choice;
    hide Next;
    hide StarCode;
    hide PlusCode;
    hide OptCode;
    hide CatCode;
    hide Required;
    hide Matches;
    cs := [1];
    match r
    case Group(no, b) => NoGroupText(m, p, no, b, k, x);
    case Cat(a, b) =>
      CatParts(m, p, a, b, k);
      if OnSpine(a, p, x) {
        cs := SpineText(m, p, a, p + Size(a), x);
      } else {
        cs := SpineText(m, p + Size(a), b, k, x);
      }
      RequiredCat(a, b, cs);
    case Star(y) => NoLoopText(m, p, r, k, x);
    case Plus(y) =>
      if IsSimple(y) {
        CodeFirstOp(m, p, r, k);
      } else if OnSpine(y, p, x) {
        PlusParts(m, p, y, k);
        cs := SpineText(m, p, y, p + Size(y), x);
        RequiredPlus(y, cs);
      } else {
        PlusParts(m, p, y, k);
      }
    case Opt(y) => NoLoopText(m, p, r, k, x);
    case Exactly(t) =>
      cs := t;
      LeafText(m, p, t, k);
      RequiredExactly(t);
    case _ => CodeFirstOp(m, p, r, k);
  }

  lemma LeafText(m: seq<byte>, p: int, cs: seq<ch>, k: int)
    requires Code(m, p, Exactly(cs), k)
    ensures 0 < p && Text(m, p + 3, cs)
  {
  }

  lemma NoLoopText(m: seq<byte>, p: int, r: Rx, k: int, x: int)
    requires Code(m, p, r, k) && OnSpine(r, p, x) && (r.Star? || r.Opt?)
    ensures 0 < x && x + 3 <= |m| && m[x] != EXACTLY
  {
    hide Next;
    hide Choice;
    hide Code;
    match r
    case Star(y) =>
      if IsSimple(y) { CodeSize(m, p, r, k); CodeFirstOp(m, p, r, k); } else { StarParts(m, p, y, k); }
    case Opt(y) => OptParts(m, p, y, k);
  }

  lemma NoGroupText(m: seq<byte>, p: int, no: nat, b: Rx, k: int, x: int)
    requires Code(m, p, Group(no, b), k) && OnSpine(Group(no, b), p, x)
    ensures 0 < x && x + 3 <= |m| && m[x] != EXACTLY
  {
    hide Next;
    hide Choice;
    hide Code;
    hide NthAt;
    var close := p + 3 + Size(b);
    GroupParts(m, p, no, b, k);
    if x != p && x != close {
      var n: nat :| IsNthAt(p + 3, b, n, x);
      ChoiceNth(m, p + 3, b, close, close, Count(b), n);
    }
  }

  // ---- What the parser delivers ----

  /** Whatever the parser delivers is well-formed. */
  lemma {:induction false} ChoiceWellFormed(r: Rx)
    requires IsChoice(r)
    ensures WellFormed(r)
    decreases r, 3
  {
    match r
    case Branch(b) => SequenceWellFormed(b);
    case Alt(a, Branch(b)) =>
      ChoiceWellFormed(a);
      SequenceWellFormed(b);
      assert WellFormed(Branch(b));
  }

  lemma {:induction false} SequenceWellFormed(r: Rx)
    requires IsSequence(r)
    ensures WellFormed(r)
    decreases r, 2
  {
    match r
    case Cat(a, b) =>
      SequenceWellFormed(a);
      PieceWellFormed(b);
    case Empty =>
    case _ => PieceWellFormed(r);
  }

  lemma {:induction false} PieceWellFormed(r: Rx)
    requires IsPiece(r)
    ensures WellFormed(r)
    decreases r, 1
  {
    match r
    case Star(x) => AtomWellFormed(x);
    case Plus(x) => AtomWellFormed(x);
    case Opt(x) => AtomWellFormed(x);
    case _ => AtomWellFormed(r);
  }

  lemma {:induction false} AtomWellFormed(r: Rx)
    requires IsAtom(r)
    ensures WellFormed(r)
    decreases r, 0
  {
    if r.Group? {
      ChoiceWellFormed(r.body);
    }
  }
}
