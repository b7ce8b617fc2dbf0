/** The pattern language, said once more without an algorithm: which stretches of
    a pattern spell which tree. The parser finds exactly those trees. */
module RegexSyntax {
  import opened CTypes
  import opened RegexLanguage
  import opened RegexGrammar
  import opened RegexGroups

  predicate Ordinal(c: byte) {
    c != 0 && c !in META
  }

  /** e[i..j] is a literal: as many ordinary characters as there are, but a
      repetition operator takes the last one alone. */
  ghost predicate Literal(e: seq<ch>, i: nat, j: nat) {
    i < j <= |e| && (forall k :: i <= k < j ==> Ordinal(e[k])) &&
    if Ordinal(At(e, j)) then IsMult(At(e, j + 1))
    else IsMult(At(e, j)) ==> j == i + 1
  }

  /** The first ']' at or after p is at end. */
  ghost predicate Closes(e: seq<ch>, p: nat, end: nat) {
    p <= end < |e| && e[end] == ']' as int && forall k :: p <= k < end ==> e[k] != ']' as int
  }

  /** In e[p..end], a '-' in front of another character asks for the characters
      between its neighbours: these stand in ascending order. */
  predicate Ordered(e: seq<ch>, p: nat, end: nat)
    requires 0 < p && end <= |e|
    decreases end - p
  {
    p < end ==>
      if e[p] == '-' as int && p + 1 < end then e[p - 1] <= e[p + 1] && Ordered(e, p + 2, end)
      else Ordered(e, p + 1, end)
  }

  /** The characters that e[p..end] lists, spelled out. The one in front of a '-'
      has been listed already. */
  function Members(e: seq<ch>, p: nat, end: nat): seq<ch>
    requires 0 < p && end <= |e|
    decreases end - p
  {
    if p >= end then []
    else if e[p] == '-' as int && p + 1 < end then Range(e[p - 1] as int + 1, e[p + 1]) + Members(e, p + 2, end)
    else [e[p]] + Members(e, p + 1, end)
  }

  /** e[i..j] is a bracket expression for the characters cs, or for all others.
      A ']' or '-' in front is a member; after that the first ']' is the end. */
  ghost predicate Bracket(e: seq<ch>, i: nat, j: nat, negated: bool, cs: seq<ch>) {
    i < |e| && e[i] == '[' as int && (negated <==> At(e, i + 1) == '^' as int) &&
    var p := if negated then i + 2 else i + 1;
    var q := if At(e, p) == ']' as int || At(e, p) == '-' as int then p + 1 else p;
    q < j <= |e| && Closes(e, q, j - 1) && Ordered(e, q, j - 1) && cs == e[p..q] + Members(e, q, j - 1)
  }

  /** e[i..j] spells r. */
  ghost predicate Spells(e: seq<ch>, r: Rx, i: nat, j: nat)
    decreases r
  {
    i <= j <= |e| &&
    match r
    case Bol => At(e, i) == '^' as int && j == i + 1
    case Eol => At(e, i) == '$' as int && j == i + 1
    case Any => At(e, i) == '.' as int && j == i + 1
    case AnyOf(cs) => Bracket(e, i, j, false, cs)
    case AnyBut(cs) => Bracket(e, i, j, true, cs)
    case Exactly(cs) => if At(e, i) == '\\' as int then j == i + 2 && cs == [e[i + 1]]
         else Literal(e, i, j) && cs == e[i..j]
    case Group(_, b) => i + 2 <= j && At(e, i) == '(' as int && Spells(e, b, i + 1, j - 1) && At(e, j - 1) == ')' as int
    case Star(x) => i < j && Spells(e, x, i, j - 1) && At(e, j - 1) == '*' as int
    case Plus(x) => i < j && Spells(e, x, i, j - 1) && At(e, j - 1) == '+' as int
    case Opt(x) => i < j && Spells(e, x, i, j - 1) && At(e, j - 1) == '?' as int
    case Empty => i == j
    case Cat(a, b) => exists k :: i <= k <= j && Spells(e, a, i, k) && Spells(e, b, k, j)
    case Branch(b) => Spells(e, b, i, j)
    case Alt(a, b) => exists k :: i <= k < j && Spells(e, a, i, k) && At(e, k) == '|' as int && Spells(e, b, k + 1, j)
  }

  /** e is a pattern, and r is its tree: spelled by all of e, with an operand that
      has width under every * and +, and up to nine groups numbered from left to right. */
  ghost predicate Pattern(e: seq<ch>, r: Rx) {
    IsChoice(r) && InOrder(r, 1) && Groups(r) <= 9 && Spells(e, r, 0, |e|)
  }

  // ---- What the parser finds is spelled there ----

  /** o is a tree for the text from i on, and no group number is too big. */
  ghost predicate Found(e: seq<ch>, o: Parsed, i: nat) {
    o.Got? ==> Spells(e, o.r, i, o.pos) && o.npar <= NSUBEXP
  }

  lemma {:induction false} OrdinaryIs(e: seq<ch>, i: nat, n: nat)
    requires i + n <= |e| && (forall k :: i <= k < i + n ==> Ordinal(e[k])) && !Ordinal(At(e, i + n))
    ensures Ordinary(e, i) == n
    decreases n
  {
    if n > 0 {
      OrdinaryIs(e, i + 1, n - 1);
    }
  }

  lemma LiteralFound(e: seq<ch>, i: nat)
    requires i < |e| && Ordinal(e[i])
    ensures LiteralLength(e, i) > 0 && Literal(e, i, i + LiteralLength(e, i))
  {
    var n := Ordinary(e, i);
    forall k | i <= k < i + n ensures Ordinal(e[k]) { }
    assert !Ordinal(At(e, i + n));
  }

  /** The parser's loop over the members finds the end, and fails only for a
      range out of order ... */
  lemma {:induction false} BodyParsed(e: seq<ch>, p: nat, end: nat, acc: seq<ch>)
    requires 0 < p && Closes(e, p, end)
    ensures ClassBody(e, p, acc) == if Ordered(e, p, end) then Chars(acc + Members(e, p, end), end + 1) else NoChars
    decreases end - p
  {
    hide Range;
    if p == end {
      assert acc + Members(e, p, end) == acc;
    } else if e[p] == '-' as int && p + 1 < end {
      var span := Range(e[p - 1] as int + 1, e[p + 1]);
      if e[p - 1] <= e[p + 1] {
        BodyParsed(e, p + 2, end, acc + span);
        assert acc + Members(e, p, end) == acc + span + Members(e, p + 2, end);
      }
    } else {
      BodyParsed(e, p + 1, end, acc + [e[p]]);
      assert acc + Members(e, p, end) == acc + [e[p]] + Members(e, p + 1, end);
    }
  }

  /** ... or for want of one. */
  lemma {:induction false} BodyOpen(e: seq<ch>, p: nat, acc: seq<ch>)
    requires 0 < p <= |e| && forall end: nat :: !Closes(e, p, end)
    ensures ClassBody(e, p, acc).NoChars?
    decreases |e| - p
  {
    hide Range;
    if p < |e| {
      StaysOpen(e, p, p + 1);
      if e[p] == '-' as int && p + 1 < |e| {
        StaysOpen(e, p + 1, p + 2);
        if e[p - 1] <= e[p + 1] { BodyOpen(e, p + 2, acc + Range(e[p - 1] as int + 1, e[p + 1])); }
      } else {
        BodyOpen(e, p + 1, acc + [e[p]]);
      }
    }
  }

  lemma StaysOpen(e: seq<ch>, p: nat, p': nat)
    requires p < |e| && p' == p + 1 && forall end: nat :: !Closes(e, p, end)
    ensures e[p] != ']' as int && forall end: nat :: !Closes(e, p', end)
  {
    assert !Closes(e, p, p);
    forall end: nat | Closes(e, p', end) ensures Closes(e, p, end) { }
  }

  lemma Front(e: seq<ch>, p: nat, q: nat)
    requires p <= q <= p + 1 && q <= |e|
    ensures e[p..q] == if p < q then [e[p]] else []
  {
  }

  lemma BracketParsed(e: seq<ch>, i: nat, j: nat, negated: bool, cs: seq<ch>, n: nat)
    requires Bracket(e, i, j, negated, cs)
    ensures ParseBracket(e, i + 1, n) == Got(if negated then AnyBut(cs) else AnyOf(cs), j, n)
  {
    hide ClassBody;
    hide Members;
    hide Ordered;
    hide Closes;
    var p := if negated then i + 2 else i + 1;
    var q := if At(e, p) == ']' as int || At(e, p) == '-' as int then p + 1 else p;
    BodyParsed(e, q, j - 1, e[p..q]);
    Front(e, p, q);
  }

  lemma BracketFound(e: seq<ch>, i: nat, n: nat)
    requires i < |e| && e[i] == '[' as int && ParseBracket(e, i + 1, n).Got?
    ensures var o := ParseBracket(e, i + 1, n);
            (o.r.AnyOf? || o.r.AnyBut?) && o.npar == n && Bracket(e, i, o.pos, o.r.AnyBut?, o.r.cs)
  {
    hide ClassBody;
    hide Members;
    hide Ordered;
    hide Closes;
    var p := if At(e, i + 1) == '^' as int then i + 2 else i + 1;
    var q := if At(e, p) == ']' as int || At(e, p) == '-' as int then p + 1 else p;
    Front(e, p, q);
    if end: nat :| Closes(e, q, end) {
      ClosesInside(e, q, end);
      BodyParsed(e, q, end, e[p..q]);
    } else {
      BodyOpen(e, q, e[p..q]);
    }
  }

  lemma ClosesInside(e: seq<ch>, p: nat, end: nat)
    requires Closes(e, p, end)
    ensures p <= end < |e|
  {
  }

  lemma {:induction false} AtomFound(e: seq<ch>, i: nat, n: nat)
    requires i <= |e| && n <= NSUBEXP
    ensures Found(e, ParseAtom(e, i, n), i)
    decreases |e| - i, 0
  {
    hide ParseBracket;
    hide Bracket;
    hide ParseReg;
    hide LiteralLength;
    hide Literal;
    var c := At(e, i);
    if c == '(' as int {
      GroupFound(e, i, n);
    } else if ParseAtom(e, i, n).Got? && c == '[' as int {
      BracketFound(e, i, n);
    } else if ParseAtom(e, i, n).Got? && Ordinal(c) {
      LiteralFound(e, i);
    }
  }

  lemma {:induction false} GroupFound(e: seq<ch>, i: nat, n: nat)
    requires i < |e| && n <= NSUBEXP && e[i] == '(' as int
    ensures Found(e, ParseReg(e, i + 1, n, true), i)
    decreases |e| - i - 1, 5
  {
    hide ParseChoice;
    if n < NSUBEXP {
      ChoiceFound(e, i + 1, n + 1);
    }
  }

  lemma {:induction false} PieceFound(e: seq<ch>, i: nat, n: nat)
    requires i <= |e| && n <= NSUBEXP
    ensures Found(e, ParsePiece(e, i, n), i)
    decreases |e| - i, 1
  {
    hide ParseAtom;
    AtomFound(e, i, n);
  }

  lemma {:induction false} PiecesFound(e: seq<ch>, i: nat, n: nat, acc: Rx, start: nat)
    requires start <= i <= |e| && n <= NSUBEXP && IsSequence(acc) && Spells(e, acc, start, i)
    ensures Found(e, ParsePieces(e, i, n, acc), start)
    decreases |e| - i, 2
  {
    hide ParsePiece;
    hide IsSequence;
    var o := ParsePiece(e, i, n);
    if !EndsBranch(At(e, i)) && o.Got? {
      PieceFound(e, i, n);
      AppendIsSequence(acc, o.r);
      PiecesFound(e, o.pos, o.npar, Append(acc, o.r), start);
    }
  }

  lemma {:induction false} AltsFound(e: seq<ch>, i: nat, n: nat, acc: Rx, start: nat)
    requires start <= i <= |e| && n <= NSUBEXP && IsChoice(acc) && Spells(e, acc, start, i)
    ensures Found(e, ParseAlts(e, i, n, acc), start)
    decreases |e| - i, 3
  {
    hide ParsePieces;
    hide IsChoice;
    if At(e, i) == '|' as int {
      var o := ParsePieces(e, i + 1, n, Empty);
      PiecesFound(e, i + 1, n, Empty, i + 1);
      if o.Got? {
        AltIsChoice(acc, o.r);
        assert Spells(e, Branch(o.r), i + 1, o.pos);
        assert Spells(e, Alt(acc, Branch(o.r)), start, o.pos);
        AltsFound(e, o.pos, o.npar, Alt(acc, Branch(o.r)), start);
      }
    }
  }

  lemma {:induction false} ChoiceFound(e: seq<ch>, i: nat, n: nat)
    requires i <= |e| && n <= NSUBEXP
    ensures Found(e, ParseChoice(e, i, n), i)
    decreases |e| - i, 4
  {
    hide ParsePieces;
    hide ParseAlts;
    var o := ParsePieces(e, i, n, Empty);
    PiecesFound(e, i, n, Empty, i);
    if o.Got? {
      assert Spells(e, Branch(o.r), i, o.pos);
      AltsFound(e, o.pos, o.npar, Branch(o.r), i);
    }
  }

  // ---- What is spelled there the parser finds ----

  lemma LiteralParsed(e: seq<ch>, i: nat, j: nat)
    requires Literal(e, i, j)
    ensures LiteralLength(e, i) == j - i
  {
    if Ordinal(At(e, j)) {
      assert IsMult(At(e, j + 1)) && !Ordinal(At(e, j + 1));
      OrdinaryIs(e, i, j + 1 - i);
    } else {
      OrdinaryIs(e, i, j - i);
    }
  }

  /** A piece is not empty, and starts with a character that can start one. */
  lemma {:induction false} PieceStarts(e: seq<ch>, r: Rx, i: nat, j: nat)
    requires IsPiece(r) && Spells(e, r, i, j)
    ensures i < j && !EndsBranch(At(e, i)) && !IsMult(At(e, i))
  {
    match r
    case Star(x) => PieceStarts(e, x, i, j - 1);
    case Plus(x) => PieceStarts(e, x, i, j - 1);
    case Opt(x) => PieceStarts(e, x, i, j - 1);
    case _ =>
  }

  lemma {:induction false} AtomParsed(e: seq<ch>, r: Rx, i: nat, j: nat, n: nat)
    requires IsAtom(r) && Spells(e, r, i, j) && InOrder(r, n) && n + Groups(r) <= NSUBEXP
    ensures ParseAtom(e, i, n) == Got(r, j, n + Groups(r))
    decreases r, 0
  {
    hide ParseBracket;
    hide ParseReg;
    hide LiteralLength;
    match r
    case Group(no, b) => GroupParsed(e, no, b, i, j, n);
    case AnyOf(cs) => BracketParsed(e, i, j, false, cs, n);
    case AnyBut(cs) => BracketParsed(e, i, j, true, cs, n);
    case Exactly(cs) =>
      if At(e, i) != '\\' as int {
        LiteralParsed(e, i, j);
      }
    case _ =>
  }

  lemma {:induction false} GroupParsed(e: seq<ch>, no: nat, b: Rx, i: nat, j: nat, n: nat)
    requires IsChoice(b) && Spells(e, Group(no, b), i, j) && no == n && InOrder(b, n + 1) &&
             n + 1 + Groups(b) <= NSUBEXP
    ensures ParseReg(e, i + 1, n, true) == Got(Group(no, b), j, n + 1 + Groups(b))
    decreases b, 6
  {
    hide ParseChoice;
    ChoiceParsed(e, b, i + 1, j - 1, n + 1);
  }

  lemma {:induction false} PieceParsed(e: seq<ch>, r: Rx, i: nat, j: nat, n: nat)
    requires IsPiece(r) && Spells(e, r, i, j) && InOrder(r, n) && n + Groups(r) <= NSUBEXP && !IsMult(At(e, j))
    ensures ParsePiece(e, i, n) == Got(r, j, n + Groups(r))
    decreases r, 1
  {
    hide ParseAtom;
    match r
    case Star(x) => AtomParsed(e, x, i, j - 1, n);
    case Plus(x) => AtomParsed(e, x, i, j - 1, n);
    case Opt(x) => AtomParsed(e, x, i, j - 1, n);
    case _ => AtomParsed(e, r, i, j, n);
  }

  /** A sequence is spelled by its pieces one after the other. */
  lemma CatParsed(e: seq<ch>, a: Rx, b: Rx, i: nat, j: nat, n: nat) returns (k: nat)
    requires IsSequence(Cat(a, b)) && Spells(e, Cat(a, b), i, j) && InOrder(Cat(a, b), n)
    ensures i <= k <= j && Spells(e, a, i, k) && Spells(e, b, k, j) && IsSequence(a) && a != Empty && IsPiece(b)
    ensures InOrder(a, n) && InOrder(b, n + Groups(a)) && Groups(Cat(a, b)) == Groups(a) + Groups(b)
    ensures !EndsBranch(At(e, k)) && !IsMult(At(e, k))
  {
    k :| i <= k <= j && Spells(e, a, i, k) && Spells(e, b, k, j);
    PieceStarts(e, b, k, j);
  }

  lemma {:induction false} SequenceParsed(e: seq<ch>, r: Rx, i: nat, j: nat, n: nat)
    requires IsSequence(r) && Spells(e, r, i, j) && InOrder(r, n) && n + Groups(r) <= NSUBEXP && !IsMult(At(e, j))
    ensures ParsePieces(e, i, n, Empty) == ParsePieces(e, j, n + Groups(r), r)
    decreases r, 3
  {
    hide ParsePieces;
    hide ParsePiece;
    hide Spells;
    match r
    case Empty => EmptySpelled(e, i, j);
    case Cat(a, b) => MoreParsed(e, a, b, i, j, n);
    case _ => FirstParsed(e, r, i, j, n);
  }

  lemma SpellsInside(e: seq<ch>, r: Rx, i: nat, j: nat)
    requires Spells(e, r, i, j)
    ensures i <= j <= |e|
  {
  }

  lemma EmptySpelled(e: seq<ch>, i: nat, j: nat)
    requires Spells(e, Empty, i, j)
    ensures i == j
  {
  }

  lemma {:induction false} FirstParsed(e: seq<ch>, r: Rx, i: nat, j: nat, n: nat)
    requires IsPiece(r) && IsSequence(r) && Spells(e, r, i, j) && InOrder(r, n) && n + Groups(r) <= NSUBEXP &&
             !IsMult(At(e, j))
    ensures ParsePieces(e, i, n, Empty) == ParsePieces(e, j, n + Groups(r), r)
    decreases r, 2
  {
    hide ParsePieces;
    hide ParsePiece;
    hide Spells;
    PieceStarts(e, r, i, j);
    PieceParsed(e, r, i, j, n);
    OnePiece(e, i, n, Empty, r, j, n + Groups(r));
  }

  lemma {:induction false} MoreParsed(e: seq<ch>, a: Rx, b: Rx, i: nat, j: nat, n: nat)
    requires IsSequence(Cat(a, b)) && Spells(e, Cat(a, b), i, j) && InOrder(Cat(a, b), n)
    requires n + Groups(Cat(a, b)) <= NSUBEXP && !IsMult(At(e, j))
    ensures ParsePieces(e, i, n, Empty) == ParsePieces(e, j, n + Groups(Cat(a, b)), Cat(a, b))
    decreases Cat(a, b), 2
  {
    hide Spells;
    hide IsSequence;
    hide IsPiece;
    hide InOrder;
    hide Groups;
    hide ParsePiece;
    hide ParsePieces;
    var k := CatParsed(e, a, b, i, j, n);
    SequenceParsed(e, a, i, k, n);
    PieceParsed(e, b, k, j, n + Groups(a));
    OnePiece(e, k, n + Groups(a), a, b, j, n + Groups(a) + Groups(b));
  }

  lemma OnePiece(e: seq<ch>, i: nat, n: nat, acc: Rx, x: Rx, j: nat, m: nat)
    requires i <= |e| && IsSequence(acc) && IsPiece(x) && !EndsBranch(At(e, i)) && ParsePiece(e, i, n) == Got(x, j, m)
    ensures IsSequence(Append(acc, x)) && ParsePieces(e, i, n, acc) == ParsePieces(e, j, m, Append(acc, x))
  {
    hide ParsePiece;
    AppendIsSequence(acc, x);
  }

  /** Branches are spelled one after the other, with bars between them. */
  lemma AltParsed(e: seq<ch>, a: Rx, b: Rx, i: nat, j: nat, n: nat) returns (k: nat)
    requires IsChoice(Alt(a, Branch(b))) && Spells(e, Alt(a, Branch(b)), i, j) && InOrder(Alt(a, Branch(b)), n)
    ensures i <= k < j && Spells(e, a, i, k) && At(e, k) == '|' as int && Spells(e, b, k + 1, j) && IsChoice(a) &&
            IsSequence(b)
    ensures InOrder(a, n) && InOrder(b, n + Groups(a)) && Groups(Alt(a, Branch(b))) == Groups(a) + Groups(b)
  {
    k :| i <= k < j && Spells(e, a, i, k) && At(e, k) == '|' as int && Spells(e, Branch(b), k + 1, j);
  }

  lemma {:induction false} ChoiceParsed(e: seq<ch>, r: Rx, i: nat, j: nat, n: nat)
    requires IsChoice(r) && Spells(e, r, i, j) && InOrder(r, n) && n + Groups(r) <= NSUBEXP && EndsBranch(At(e, j))
    ensures ParseChoice(e, i, n) == ParseAlts(e, j, n + Groups(r), r)
    decreases r, 5
  {
    hide ParsePieces;
    hide ParseAlts;
    hide ParseChoice;
    match r
    case Branch(b) => BranchParsed(e, b, i, j, n);
    case Alt(a, Branch(b)) => AltsParsed(e, a, b, i, j, n);
  }

  lemma {:induction false} BranchParsed(e: seq<ch>, b: Rx, i: nat, j: nat, n: nat)
    requires IsSequence(b) && Spells(e, b, i, j) && InOrder(b, n) && n + Groups(b) <= NSUBEXP && EndsBranch(At(e, j))
    ensures ParseChoice(e, i, n) == ParseAlts(e, j, n + Groups(b), Branch(b))
    decreases b, 4
  {
    hide ParsePieces;
    hide ParseAlts;
    hide Spells;
    SpellsInside(e, b, i, j);
    SequenceEnds(e, b, j, n + Groups(b));
    SequenceParsed(e, b, i, j, n);
  }

  lemma {:induction false} AltsParsed(e: seq<ch>, a: Rx, b: Rx, i: nat, j: nat, n: nat)
    requires IsChoice(Alt(a, Branch(b))) && Spells(e, Alt(a, Branch(b)), i, j) && InOrder(Alt(a, Branch(b)), n)
    requires n + Groups(Alt(a, Branch(b))) <= NSUBEXP && EndsBranch(At(e, j))
    ensures ParseChoice(e, i, n) == ParseAlts(e, j, n + Groups(Alt(a, Branch(b))), Alt(a, Branch(b)))
    decreases Alt(a, Branch(b)), 4
  {
    hide Spells;
    hide IsSequence;
    hide IsChoice;
    hide InOrder;
    hide Groups;
    hide ParsePieces;
    hide ParseChoice;
    var k := AltParsed(e, a, b, i, j, n);
    SpellsInside(e, b, k + 1, j);
    SequenceEnds(e, b, j, n + Groups(a) + Groups(b));
    ChoiceParsed(e, a, i, k, n);
    SequenceParsed(e, b, k + 1, j, n + Groups(a));
    AltIsChoice(a, b);
  }

  lemma SequenceEnds(e: seq<ch>, b: Rx, j: nat, n: nat)
    requires j <= |e| && IsSequence(b) && EndsBranch(At(e, j))
    ensures ParsePieces(e, j, n, b) == Got(b, j, n) && !IsMult(At(e, j))
  {
  }

  /** The parser accepts exactly the patterns, and finds the tree of each. */
  lemma ParserIsExact(e: seq<ch>, r: Rx)
    ensures Pattern(e, r) <==> ParseReg(e, 0, 1, false) == Got(r, |e|, 1 + Groups(r))
    ensures ParseReg(e, 0, 1, false).Got? ==> Pattern(e, ParseReg(e, 0, 1, false).r)
  {
    hide ParseChoice;
    ChoiceFound(e, 0, 1);
    RegNumbered(e, 0, 1, false);
    if Pattern(e, r) {
      ChoiceParsed(e, r, 0, |e|, 1);
    }
  }

  /** No text is a pattern in two ways. */
  lemma OneTree(e: seq<ch>, r1: Rx, r2: Rx)
    requires Pattern(e, r1) && Pattern(e, r2)
    ensures r1 == r2
  {
    ParserIsExact(e, r1);
    ParserIsExact(e, r2);
  }

  // ---- What a bracket expression matches ----

  /** The members from p up to the closing bracket at end name c: a character
      names itself, and a '-' between two characters names all from the one to the other. */
  predicate Named(e: seq<ch>, p: nat, end: nat, c: ch)
    requires 0 < p && end <= |e|
    decreases end - p
  {
    p < end &&
    if e[p] == '-' as int && p + 1 < end then e[p - 1] <= c <= e[p + 1] || Named(e, p + 2, end, c)
    else c == e[p] || Named(e, p + 1, end, c)
  }

  /** Spelled out or not, the same characters: the one in front of p has been named. */
  lemma {:induction false} MembersNamed(e: seq<ch>, p: nat, end: nat, c: ch)
    requires 0 < p && end <= |e| && p <= end && Ordered(e, p, end)
    ensures c == e[p - 1] || c in Members(e, p, end) <==> c == e[p - 1] || Named(e, p, end, c)
    ensures At(e, p) != '-' as int ==> (c in Members(e, p, end) <==> Named(e, p, end, c))
    decreases end - p
  {
    hide Range;
    if p == end {
    } else if e[p] == '-' as int && p + 1 < end {
      MembersNamed(e, p + 2, end, c);
    } else {
      MembersNamed(e, p + 1, end, c);
    }
  }

  /** c is named by the bracket expression e[i..j]: a ']' or '-' in front is itself. */
  predicate InBracket(e: seq<ch>, i: nat, j: nat, c: ch)
    requires 0 < j <= |e|
  {
    var p := if At(e, i + 1) == '^' as int then i + 2 else i + 1;
    if At(e, p) == ']' as int || At(e, p) == '-' as int then c == At(e, p) || Named(e, p + 1, j - 1, c)
    else Named(e, p, j - 1, c)
  }

  /** A bracket expression matches one character that it names; after '^', one it does not. */
  lemma BracketMatches(e: seq<ch>, i: nat, j: nat, r: Rx, s: seq<ch>, a: nat, b: nat)
    requires Spells(e, r, i, j) && (r.AnyOf? || r.AnyBut?)
    ensures 0 < j && (r.AnyBut? <==> At(e, i + 1) == '^' as int)
    ensures Matches(r, s, a, b) <==> a < |s| && b == a + 1 && (InBracket(e, i, j, s[a]) <==> r.AnyOf?)
  {
    hide Members;
    hide Named;
    hide Ordered;
    hide Closes;
    var p := if r.AnyBut? then i + 2 else i + 1;
    var q := if At(e, p) == ']' as int || At(e, p) == '-' as int then p + 1 else p;
    ClosesInside(e, q, j - 1);
    if a < |s| {
      MembersNamed(e, q, j - 1, s[a]);
      assert s[a] in e[p..q] <==> q == p + 1 && s[a] == e[p];
    }
  }
}
