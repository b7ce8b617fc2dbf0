/** Abstract syntax of V8 regular expressions and the language each one denotes.

    A match is a pair of positions (i, j) of the subject string rather than a
    string, because the anchors look at where the match sits in the subject. */
module RegexLanguage {
  import opened CTypes

  /** One constructor per syntactic form the compiler distinguishes. `Cat` and
      `Alt` are left-nested, in the order in which the compiler's loops run. */
  datatype Rx =
    | Bol
    | Eol
    | Any
    | AnyOf(cs: seq<ch>)
    | AnyBut(cs: seq<ch>)
    | Exactly(cs: seq<ch>)
    | Group(no: nat, body: Rx)
    | Star(x: Rx)
    | Plus(x: Rx)
    | Opt(x: Rx)
    | Empty                      // a branch with no pieces
    | Cat(l: Rx, r: Rx)
    | Branch(body: Rx)           // one alternative of a choice
    | Alt(l: Rx, r: Rx)          // r is a Branch

  /** r matches s[i..j] when s is the whole subject. */
  ghost predicate Matches(r: Rx, s: seq<ch>, i: nat, j: nat)
    decreases r, 0
  {
    i <= j <= |s| &&
    match r
    case Bol => i == j == 0
    case Eol => i == j == |s|
    case Any => j == i + 1
    case AnyOf(cs) => j == i + 1 && s[i] in cs
    case AnyBut(cs) => j == i + 1 && s[i] !in cs
    case Exactly(cs) => s[i..j] == cs
    case Group(_, b) => Matches(b, s, i, j)
    case Star(x) => Iterates(x, s, i, j)
    case Plus(x) => exists k :: i <= k <= j && Matches(x, s, i, k) && Iterates(x, s, k, j)
    case Opt(x) => i == j || Matches(x, s, i, j)
    case Empty => i == j
    case Cat(a, b) => exists k :: i <= k <= j && Matches(a, s, i, k) && Matches(b, s, k, j)
    case Branch(b) => Matches(b, s, i, j)
    case Alt(a, b) => Matches(a, s, i, j) || Matches(b, s, i, j)
  }

  /** Zero or more matches of x one after the other, none of them empty. */
  ghost predicate Iterates(x: Rx, s: seq<ch>, i: nat, j: nat)
    decreases x, 1 + if i <= j then j - i else 0
  {
    i <= j <= |s| &&
    (i == j || exists k :: i < k <= j && Matches(x, s, i, k) && Iterates(x, s, k, j))
  }

  // ---- Building and taking apart matches ----

  lemma CatSplit(a: Rx, b: Rx, s: seq<ch>, i: nat, j: nat) returns (k: nat)
    requires Matches(Cat(a, b), s, i, j)
    ensures i <= k <= j && Matches(a, s, i, k) && Matches(b, s, k, j)
  {
    k :| i <= k <= j && Matches(a, s, i, k) && Matches(b, s, k, j);
  }

  lemma PlusMatch(x: Rx, s: seq<ch>, i: nat, k: nat, j: nat)
    requires Matches(x, s, i, k) && Iterates(x, s, k, j)
    ensures Matches(Plus(x), s, i, j) && Iterates(x, s, i, j)
  {
    assert i <= k <= j;
  }

  lemma PlusSplit(x: Rx, s: seq<ch>, i: nat, j: nat) returns (k: nat)
    requires Matches(Plus(x), s, i, j)
    ensures i <= k <= j && Matches(x, s, i, k) && Iterates(x, s, k, j)
  {
    k :| i <= k <= j && Matches(x, s, i, k) && Iterates(x, s, k, j);
  }

  lemma StarSplit(x: Rx, s: seq<ch>, i: nat, j: nat) returns (k: nat)
    requires Iterates(x, s, i, j) && i < j
    ensures i < k <= j && Matches(x, s, i, k) && Iterates(x, s, k, j)
  {
    k :| i < k <= j && Matches(x, s, i, k) && Iterates(x, s, k, j);
  }

  lemma StarCases(x: Rx, s: seq<ch>, i: nat, j: nat)
    ensures Matches(Star(x), s, i, j) <==> Iterates(x, s, i, j)
  {
  }

  /** Exactly n matches of x one after the other, empty ones allowed: the
      textbook n-th power of a language. */
  ghost predicate Power(x: Rx, n: nat, s: seq<ch>, i: nat, j: nat)
  {
    i <= j <= |s| &&
    if n == 0 then i == j
    else exists k :: i <= k <= j && Matches(x, s, i, k) && Power(x, n - 1, s, k, j)
  }

  /** Star is the union of all powers. */
  lemma StarIsUnionOfPowers(x: Rx, s: seq<ch>, i: nat, j: nat)
    ensures Matches(Star(x), s, i, j) <==> exists n: nat :: Power(x, n, s, i, j)
  {
    assert Matches(Star(x), s, i, j) <==> Iterates(x, s, i, j);
    if Iterates(x, s, i, j) {
      var n := IteratesIsPower(x, s, i, j);
      assert Power(x, n, s, i, j);
    }
    forall n: nat | Power(x, n, s, i, j) ensures Iterates(x, s, i, j) {
      PowerIterates(x, n, s, i, j);
    }
  }

  lemma {:induction false} IteratesIsPower(x: Rx, s: seq<ch>, i: nat, j: nat) returns (n: nat)
    requires Iterates(x, s, i, j)
    ensures Power(x, n, s, i, j)
    decreases j - i
  {
    if i == j {
      n := 0;
    } else {
      var k :| i < k <= j && Matches(x, s, i, k) && Iterates(x, s, k, j);
      var m := IteratesIsPower(x, s, k, j);
      n := m + 1;
    }
  }

  lemma {:induction false} PowerIterates(x: Rx, n: nat, s: seq<ch>, i: nat, j: nat)
    requires Power(x, n, s, i, j)
    ensures Iterates(x, s, i, j)
  {
    if n > 0 {
      var k :| i <= k <= j && Matches(x, s, i, k) && Power(x, n - 1, s, k, j);
      PowerIterates(x, n - 1, s, k, j);
    }
  }

  // ---- The flags the compiler computes alongside the code ----

  datatype Flags = Flags(hasWidth: bool, simple: bool, spStart: bool)

  const WORST := Flags(false, false, false)

  predicate HasWidth(r: Rx) {
    match r
    case Bol => false
    case Eol => false
    case Empty => false
    case Star(_) => false
    case Opt(_) => false
    case Any => true
    case AnyOf(_) => true
    case AnyBut(_) => true
    case Exactly(_) => true
    case Plus(_) => true
    case Group(_, b) => HasWidth(b)
    case Branch(b) => HasWidth(b)
    case Cat(a, b) => HasWidth(a) || HasWidth(b)
    case Alt(a, b) => HasWidth(a) && HasWidth(b)
  }

  /** Every match is one character long, so that STAR and PLUS can count. */
  predicate IsSimple(r: Rx) {
    match r
    case Any => true
    case AnyOf(_) => true
    case AnyBut(_) => true
    case Exactly(cs) => |cs| == 1
    case _ => false
  }

  predicate SpStart(r: Rx) {
    match r
    case Star(_) => true
    case Opt(_) => true
    case Group(_, b) => SpStart(b)
    case Branch(b) => SpStart(b)
    case Cat(a, _) => SpStart(a)
    case Alt(a, b) => SpStart(a) || SpStart(b)
    case _ => false
  }

  function FlagsOf(r: Rx): Flags {
    Flags(HasWidth(r), IsSimple(r), SpStart(r))
  }

  lemma {:induction false} BranchFlags(b: Rx)
    ensures FlagsOf(Branch(b)) == Flags(HasWidth(b), false, SpStart(b))
    ensures !HasWidth(Empty) && !SpStart(Empty)
  {
  }

  lemma {:induction false} GroupFlags(no: nat, b: Rx)
    ensures FlagsOf(Group(no, b)) == Flags(HasWidth(b), false, SpStart(b))
    ensures b.Branch? || b.Alt? ==> FlagsOf(Group(no, b)) == FlagsOf(b)
  {
  }

  lemma {:induction false} AltFlags(a: Rx, b: Rx)
    ensures FlagsOf(Alt(a, Branch(b))) == Flags(HasWidth(a) && HasWidth(b), false, SpStart(a) || SpStart(b))
  {
    assert HasWidth(Branch(b)) == HasWidth(b) && SpStart(Branch(b)) == SpStart(b);
  }

  /** What the grammar guarantees of the tree: literals are not empty and an
      operand of * or + has width. */
  predicate WellFormed(r: Rx) {
    match r
    case Exactly(cs) => |cs| > 0
    case Group(_, b) => WellFormed(b)
    case Star(x) => WellFormed(x) && HasWidth(x)
    case Plus(x) => WellFormed(x) && HasWidth(x)
    case Opt(x) => WellFormed(x)
    case Cat(a, b) => WellFormed(a) && WellFormed(b)
    case Branch(b) => WellFormed(b)
    case Alt(a, b) => WellFormed(a) && WellFormed(b)
    case _ => true
  }

  /** HASWIDTH is sound: such an expression never matches the empty string. */
  lemma {:induction false} HasWidthSound(r: Rx, s: seq<ch>, i: nat, j: nat)
    requires WellFormed(r) && HasWidth(r) && Matches(r, s, i, j)
    ensures i < j
  {
    match r
    case Group(_, b) => HasWidthSound(b, s, i, j);
    case Branch(b) => HasWidthSound(b, s, i, j);
    case Plus(x) =>
      var k :| i <= k <= j && Matches(x, s, i, k) && Iterates(x, s, k, j);
      HasWidthSound(x, s, i, k);
    case Cat(a, b) =>
      var k :| i <= k <= j && Matches(a, s, i, k) && Matches(b, s, k, j);
      if HasWidth(a) { HasWidthSound(a, s, i, k); } else { HasWidthSound(b, s, k, j); }
    case Alt(a, b) =>
      if Matches(a, s, i, j) { HasWidthSound(a, s, i, j); } else { HasWidthSound(b, s, i, j); }
    case _ =>
  }

  /** And it is complete: only what matches the empty string is not flagged. */
  lemma {:induction false} HasWidthExact(r: Rx)
    requires WellFormed(r)
    ensures HasWidth(r) <==> !Matches(r, [], 0, 0)
  {
    var none: seq<ch> := [];
    match r
    case Group(_, b) => HasWidthExact(b);
    case Star(x) => assert Iterates(x, none, 0, 0);
    case Plus(x) => HasWidthExact(x);
    case Cat(a, b) =>
      HasWidthExact(a);
      HasWidthExact(b);
    case Branch(b) => HasWidthExact(b);
    case Alt(a, b) =>
      HasWidthExact(a);
      HasWidthExact(b);
    case _ =>
  }
}
