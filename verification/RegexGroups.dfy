/** The numbers of groups: how the parser gives them out, and what the last
    parentheses of each group enclose in a derivation. */
module RegexGroups {
  import opened CTypes
  import opened RegexLanguage
  import opened RegexGrammar
  import opened RegexCode
  import opened RegexTraces

  /** How many groups there are in r. */
  function Groups(r: Rx): nat {
    match r
    case Group(_, b) => 1 + Groups(b)
    case Star(x) => Groups(x)
    case Plus(x) => Groups(x)
    case Opt(x) => Groups(x)
    case Cat(a, b) => Groups(a) + Groups(b)
    case Branch(b) => Groups(b)
    case Alt(a, b) => Groups(a) + Groups(b)
    case _ => 0
  }

  /** The groups of r are numbered from lo on, by opening parenthesis. */
  predicate InOrder(r: Rx, lo: nat) {
    match r
    case Group(no, b) => no == lo && InOrder(b, lo + 1)
    case Star(x) => InOrder(x, lo)
    case Plus(x) => InOrder(x, lo)
    case Opt(x) => InOrder(x, lo)
    case Cat(a, b) => InOrder(a, lo) && InOrder(b, lo + Groups(a))
    case Branch(b) => InOrder(b, lo)
    case Alt(a, b) => InOrder(a, lo) && InOrder(b, lo + Groups(a))
    case _ => true
  }

  /** o numbers its groups from lo on, and reports the next number. */
  predicate Numbered(o: Parsed, lo: nat) {
    o.Got? ==> InOrder(o.r, lo) && o.npar == lo + Groups(o.r)
  }

  lemma {:induction false} AtomNumbered(e: seq<ch>, pos: nat, npar: nat)
    requires pos <= |e|
    ensures Numbered(ParseAtom(e, pos, npar), npar)
    decreases |e| - pos, 0
  {
    if At(e, pos) == '(' as int {
      RegNumbered(e, pos + 1, npar, true);
    }
  }

  lemma {:induction false} PieceNumbered(e: seq<ch>, pos: nat, npar: nat)
    requires pos <= |e|
    ensures Numbered(ParsePiece(e, pos, npar), npar)
    decreases |e| - pos, 1
  {
    hide ParseAtom;
    AtomNumbered(e, pos, npar);
  }

  lemma {:induction false} PiecesNumbered(e: seq<ch>, pos: nat, npar: nat, acc: Rx, lo: nat)
    requires pos <= |e| && IsSequence(acc) && InOrder(acc, lo) && npar == lo + Groups(acc)
    ensures Numbered(ParsePieces(e, pos, npar, acc), lo)
    decreases |e| - pos, 2
  {
    hide ParsePiece;
    hide IsSequence;
    hide IsPiece;
    if !EndsBranch(At(e, pos)) && ParsePiece(e, pos, npar).Got? {
      var o := ParsePiece(e, pos, npar);
      PieceNumbered(e, pos, npar);
      AppendIsSequence(acc, o.r);
      PiecesNumbered(e, o.pos, o.npar, Append(acc, o.r), lo);
    }
  }

  lemma {:induction false} AltsNumbered(e: seq<ch>, pos: nat, npar: nat, acc: Rx, lo: nat)
    requires pos <= |e| && IsChoice(acc) && InOrder(acc, lo) && npar == lo + Groups(acc)
    ensures Numbered(ParseAlts(e, pos, npar, acc), lo)
    decreases |e| - pos, 3
  {
    hide ParsePieces;
    hide IsChoice;
    hide IsSequence;
    if At(e, pos) == '|' as int {
      assert IsSequence(Empty) by { SequenceEmpty(); }
      PiecesNumbered(e, pos + 1, npar, Empty, npar);
      var o := ParsePieces(e, pos + 1, npar, Empty);
      if o.Got? {
        AltIsChoice(acc, o.r);
        assert InOrder(Branch(o.r), npar) && Groups(Branch(o.r)) == Groups(o.r);
        AltsNumbered(e, o.pos, o.npar, Alt(acc, Branch(o.r)), lo);
      }
    }
  }

  lemma SequenceEmpty()
    ensures IsSequence(Empty)
  {
  }

  lemma {:induction false} RegNumbered(e: seq<ch>, pos: nat, npar: nat, paren: bool)
    requires pos <= |e|
    ensures Numbered(ParseReg(e, pos, npar, paren), npar)
    decreases |e| - pos, 5
  {
    hide ParsePieces;
    hide ParseAlts;
    if !(paren && npar >= NSUBEXP) {
      var n := if paren then npar + 1 else npar;
      PiecesNumbered(e, pos, n, Empty, n);
      var o := ParsePieces(e, pos, n, Empty);
      if o.Got? {
        AltsNumbered(e, o.pos, o.npar, Branch(o.r), n);
      }
    }
  }

  /** The groups of r by number. */
  function Listing(r: Rx): map<nat, Rx> {
    match r
    case Group(no, b) => Listing(b)[no := b]
    case Star(x) => Listing(x)
    case Plus(x) => Listing(x)
    case Opt(x) => Listing(x)
    case Cat(a, b) => Listing(a) + Listing(b)
    case Branch(b) => Listing(b)
    case Alt(a, b) => Listing(a) + Listing(b)
    case _ => map[]
  }

  /** n is one of the numbers of r, whose groups are numbered from lo on. */
  predicate IsNumber(r: Rx, lo: nat, n: nat) {
    lo <= n < lo + Groups(r)
  }

  /** Numbered in order, the groups have the numbers lo, lo + 1, ..., each once. */
  lemma {:induction false} OrderedNumbers(r: Rx, lo: nat)
    requires InOrder(r, lo)
    ensures forall n: nat :: n in Listing(r) <==> IsNumber(r, lo, n)
  {
    match r
    case Group(_, b) => OrderedNumbers(b, lo + 1);
    case Star(x) => OrderedNumbers(x, lo);
    case Plus(x) => OrderedNumbers(x, lo);
    case Opt(x) => OrderedNumbers(x, lo);
    case Cat(a, b) =>
      OrderedNumbers(a, lo);
      OrderedNumbers(b, lo + Groups(a));
    case Branch(b) => OrderedNumbers(b, lo);
    case Alt(a, b) =>
      OrderedNumbers(a, lo);
      OrderedNumbers(b, lo + Groups(a));
    case _ =>
  }

  // ---- What the last parentheses of a group enclose ----

  /** Group n, with body b, has not been passed in t; or the text between its last
      parentheses matches its body. */
  ghost predicate Encloses(t: Trace, n: nat, b: Rx, s: seq<ch>) {
    if LastOpen(t, n) == NULL then LastClose(t, n) == NULL
    else 0 <= LastOpen(t, n) && 0 <= LastClose(t, n) && Matches(b, s, LastOpen(t, n), LastClose(t, n))
  }

  /** The same for all groups of r, and t passes no others. */
  ghost predicate AllEnclose(t: Trace, r: Rx, s: seq<ch>) {
    forall n: nat ::
      if n in Listing(r) then Encloses(t, n, Listing(r)[n], s)
      else LastOpen(t, n) == NULL && LastClose(t, n) == NULL
  }

  lemma NothingPassed(r: Rx, s: seq<ch>)
    ensures AllEnclose([], r, s)
  {
  }

  lemma TwoParts(t1: Trace, t2: Trace, r: Rx, s: seq<ch>)
    requires AllEnclose(t1, r, s) && AllEnclose(t2, r, s)
    ensures AllEnclose(t1 + t2, r, s)
  {
    forall n: nat ensures if n in Listing(r) then Encloses(t1 + t2, n, Listing(r)[n], s)
                          else LastOpen(t1 + t2, n) == NULL && LastClose(t1 + t2, n) == NULL {
      LastOfTwo(t1, t2, n);
    }
  }

  /** r lists the groups of a. */
  ghost predicate PartOf(a: Rx, r: Rx) {
    forall n: nat :: n in Listing(a) ==> n in Listing(r) && Listing(r)[n] == Listing(a)[n]
  }

  lemma BothParts(a: Rx, b: Rx, lo: nat)
    requires InOrder(a, lo) && InOrder(b, lo + Groups(a))
    ensures PartOf(a, Cat(a, b)) && PartOf(b, Cat(a, b)) && PartOf(a, Alt(a, b)) && PartOf(b, Alt(a, b))
  {
    OrderedNumbers(a, lo);
    OrderedNumbers(b, lo + Groups(a));
  }

  lemma OnlyPart(x: Rx)
    ensures PartOf(x, Star(x)) && PartOf(x, Plus(x)) && PartOf(x, Opt(x)) && PartOf(x, Branch(x))
  {
  }

  /** A trace of a part is one of the whole. */
  lemma Listed(t: Trace, a: Rx, r: Rx, s: seq<ch>)
    requires AllEnclose(t, a, s) && PartOf(a, r)
    ensures AllEnclose(t, r, s)
  {
  }

  lemma {:induction false} GroupsEnclose(r: Rx, lo: nat, s: seq<ch>, i: nat, j: nat, t: Trace)
    requires InOrder(r, lo) && Derives(r, s, i, j, t)
    ensures AllEnclose(t, r, s)
    decreases r, 0
  {
    hide AllEnclose;
    hide PartOf;
    hide Listing;
    match r
    case Group(no, b) =>
      GroupsEnclose(b, lo + 1, s, i, j, t[1..|t| - 1]);
      Outermost(no, b, lo, s, i, j, t);
    case Star(x) =>
      OnlyPart(x);
      RoundsEnclose(x, lo, s, i, j, t);
      Listed(t, x, r, s);
    case Plus(x) =>
      OnlyPart(x);
      var k, t1, t2 := PlusTraces(x, s, i, j, t);
      GroupsEnclose(x, lo, s, i, k, t1);
      RoundsEnclose(x, lo, s, k, j, t2);
      TwoParts(t1, t2, x, s);
      Listed(t, x, r, s);
    case Opt(x) =>
      OnlyPart(x);
      if i == j && t == [] {
        NothingPassed(r, s);
      } else {
        GroupsEnclose(x, lo, s, i, j, t);
        Listed(t, x, r, s);
      }
    case Cat(a, b) =>
      BothParts(a, b, lo);
      var k, t1, t2 := CatTraces(a, b, s, i, j, t);
      GroupsEnclose(a, lo, s, i, k, t1);
      GroupsEnclose(b, lo + Groups(a), s, k, j, t2);
      Listed(t1, a, r, s);
      Listed(t2, b, r, s);
      TwoParts(t1, t2, r, s);
    case Branch(b) =>
      OnlyPart(b);
      GroupsEnclose(b, lo, s, i, j, t);
      Listed(t, b, r, s);
    case Alt(a, b) =>
      BothParts(a, b, lo);
      if Derives(a, s, i, j, t) {
        GroupsEnclose(a, lo, s, i, j, t);
        Listed(t, a, r, s);
      } else {
        GroupsEnclose(b, lo + Groups(a), s, i, j, t);
        Listed(t, b, r, s);
      }
    case _ => NothingPassed(r, s);
  }

  lemma {:induction false} RoundsEnclose(x: Rx, lo: nat, s: seq<ch>, i: nat, j: nat, t: Trace)
    requires InOrder(x, lo) && Rounds(x, s, i, j, t)
    ensures AllEnclose(t, x, s)
    decreases x, 1 + if i <= j then j - i else 0
  {
    hide AllEnclose;
    if i == j {
      NothingPassed(x, s);
    } else {
      var k, t1, t2 := RoundsTraces(x, s, i, j, t);
      GroupsEnclose(x, lo, s, i, k, t1);
      RoundsEnclose(x, lo, s, k, j, t2);
      TwoParts(t1, t2, x, s);
    }
  }

  /** The parentheses around a group enclose what its body matches. */
  lemma Outermost(no: nat, b: Rx, lo: nat, s: seq<ch>, i: nat, j: nat, t: Trace)
    requires InOrder(Group(no, b), lo) && Derives(Group(no, b), s, i, j, t) && AllEnclose(t[1..|t| - 1], b, s)
    ensures AllEnclose(t, Group(no, b), s)
  {
    OrderedNumbers(b, lo + 1);
    var u := t[1..|t| - 1];
    DerivesMatches(b, s, i, j, u);
    assert t == [Open(no, i)] + u + [Close(no, j)];
    forall n: nat ensures if n == no then Encloses(t, n, b, s) else
                            LastOpen(t, n) == LastOpen(u, n) && LastClose(t, n) == LastClose(u, n) {
      LastOfTwo([Open(no, i)] + u, [Close(no, j)], n);
      LastOfTwo([Open(no, i)], u, n);
    }
  }
}
