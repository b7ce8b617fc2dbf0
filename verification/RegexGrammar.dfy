/** The grammar of the pattern language, as functions from pattern text to
    syntax tree. The compiler's methods are proved against these functions. */
module RegexGrammar {
  import opened CTypes
  import opened RegexLanguage

  const NSUBEXP: nat := 10

  /** The character at pos, or NUL at the end, as in a C string. */
  function At(e: seq<ch>, pos: nat): byte {
    if pos < |e| then e[pos] else 0
  }

  predicate IsMult(c: byte) {
    c == '*' as int || c == '+' as int || c == '?' as int
  }

  function Repeated(op: byte, x: Rx): Rx {
    if op == '*' as int then Star(x) else if op == '+' as int then Plus(x) else Opt(x)
  }

  const META: set<int> := {
    '^' as int, '$' as int, '.' as int, '[' as int, '(' as int, ')' as int,
    '|' as int, '?' as int, '+' as int, '*' as int, '\\' as int }

  predicate EndsBranch(c: byte) {
    c == 0 || c == '|' as int || c == ')' as int
  }

  /** Outcome of a parse: the tree, the position after it, the next () number. */
  datatype Parsed = Fail | Got(r: Rx, pos: nat, npar: nat)

  datatype ParsedChars = NoChars | Chars(cs: seq<ch>, end: nat)

  /** All characters from lo to hi inclusive. */
  function Range(lo: nat, hi: nat): (cs: seq<ch>)
    requires 0 < lo && hi < 256
    ensures forall c: int :: c in cs <==> lo <= c <= hi
    ensures lo <= hi + 1 ==> |cs| == hi + 1 - lo
    decreases hi + 1 - lo
  {
    if lo > hi then [] else [lo] + Range(lo + 1, hi)
  }

  lemma {:induction false} RangeSnoc(lo: nat, hi: nat)
    requires 0 < lo <= hi + 1 && hi < 255
    ensures Range(lo, hi + 1) == Range(lo, hi) + [hi + 1]
    decreases hi + 1 - lo
  {
    if lo <= hi {
      RangeSnoc(lo + 1, hi);
    }
  }

  /** The members of a bracket expression, from just after any leading '^' and
      literal ']' or '-', up to and including the closing ']'. */
  function ClassBody(e: seq<ch>, pos: nat, acc: seq<ch>): (o: ParsedChars)
    requires 0 < pos <= |e|
    ensures o.Chars? ==> pos < o.end <= |e| && |acc| <= |o.cs|
    decreases |e| - pos
  {
    if At(e, pos) == 0 then NoChars
    else if At(e, pos) == ']' as int then Chars(acc, pos + 1)
    else if At(e, pos) == '-' as int then
      if At(e, pos + 1) == ']' as int || At(e, pos + 1) == 0 then ClassBody(e, pos + 1, acc + ['-' as int])
      else if e[pos - 1] as int + 1 > e[pos + 1] as int + 1 then NoChars
      else ClassBody(e, pos + 2, acc + Range(e[pos - 1] as int + 1, e[pos + 1]))
    else ClassBody(e, pos + 1, acc + [e[pos]])
  }

  /** Length of the longest run of ordinary characters from pos. */
  function Ordinary(e: seq<ch>, pos: nat): (n: nat)
    requires pos <= |e|
    ensures pos + n <= |e|
    ensures forall k :: pos <= k < pos + n ==> e[k] as int !in META
    ensures pos + n < |e| ==> e[pos + n] as int in META
    decreases |e| - pos
  {
    if pos == |e| || e[pos] as int in META then 0 else 1 + Ordinary(e, pos + 1)
  }

  /** Length of the literal that starts at pos: the whole run, but backed off by
      one character when a repetition operator follows it. */
  function LiteralLength(e: seq<ch>, pos: nat): (n: nat)
    requires pos <= |e|
    ensures pos + n <= |e|
  {
    var len := Ordinary(e, pos);
    if len > 1 && IsMult(At(e, pos + len)) then len - 1 else len
  }

  /** A bracket expression, from just after its '['. */
  function ParseBracket(e: seq<ch>, pos: nat, npar: nat): (o: Parsed)
    requires 0 < pos <= |e|
    ensures o.Got? ==> pos < o.pos <= |e| && o.npar == npar && IsAtom(o.r)
  {
    var negated := At(e, pos) == '^' as int;
    var p := if negated then pos + 1 else pos;
    var literal := At(e, p) == ']' as int || At(e, p) == '-' as int;
    match ClassBody(e, if literal then p + 1 else p, if literal then [e[p]] else [])
    case NoChars => Fail
    case Chars(cs, end) => Got(if negated then AnyBut(cs) else AnyOf(cs), end, npar)
  }

  /** A run of ordinary characters. */
  function ParseLiteral(e: seq<ch>, pos: nat, npar: nat): (o: Parsed)
    requires pos <= |e|
    ensures o.Got? ==> pos < o.pos <= |e| && o.npar == npar && IsAtom(o.r)
  {
    var len := LiteralLength(e, pos);
    if len == 0 then Fail else Got(Exactly(e[pos..pos + len]), pos + len, npar)
  }

  function ParseAtom(e: seq<ch>, pos: nat, npar: nat): (o: Parsed)
    requires pos <= |e|
    ensures o.Got? ==> pos < o.pos <= |e| && npar <= o.npar
    ensures o.Got? ==> IsAtom(o.r)
    decreases |e| - pos, 0
  {
    var c := At(e, pos);
    if c == '^' as int then Got(Bol, pos + 1, npar)
    else if c == '$' as int then Got(Eol, pos + 1, npar)
    else if c == '.' as int then Got(Any, pos + 1, npar)
    else if c == '[' as int then ParseBracket(e, pos + 1, npar)
    else if c == '(' as int then ParseReg(e, pos + 1, npar, true)
    else if EndsBranch(c) || IsMult(c) then Fail
    else if c == '\\' as int then
      if At(e, pos + 1) == 0 then Fail
      else Got(Exactly([e[pos + 1]]), pos + 2, npar)
    else ParseLiteral(e, pos, npar)
  }

  function ParsePiece(e: seq<ch>, pos: nat, npar: nat): (o: Parsed)
    requires pos <= |e|
    ensures o.Got? ==> pos < o.pos <= |e| && npar <= o.npar
    ensures o.Got? ==> IsPiece(o.r)
    decreases |e| - pos, 1
  {
    match ParseAtom(e, pos, npar)
    case Fail => Fail
    case Got(x, p, n) =>
      var op := At(e, p);
      if !IsMult(op) then Got(x, p, n)
      else if !HasWidth(x) && op != '?' as int then Fail
      else if IsMult(At(e, p + 1)) then Fail
      else Got(Repeated(op, x), p + 1, n)
  }

  /** acc followed by one more piece (Empty: nothing yet). */
  function Append(acc: Rx, x: Rx): Rx {
    if acc == Empty then x else Cat(acc, x)
  }

  /** The rest of a branch, given the pieces seen so far (Empty if none). */
  function ParsePieces(e: seq<ch>, pos: nat, npar: nat, acc: Rx): (o: Parsed)
    requires pos <= |e| && IsSequence(acc)
    ensures o.Got? ==> pos <= o.pos <= |e| && npar <= o.npar
    ensures o.Got? ==> EndsBranch(At(e, o.pos))
    ensures o.Got? ==> IsSequence(o.r)
    decreases |e| - pos, 2
  {
    if EndsBranch(At(e, pos)) then Got(acc, pos, npar)
    else match ParsePiece(e, pos, npar)
      case Fail => Fail
      case Got(x, p, n) => ParsePieces(e, p, n, Append(acc, x))
  }

  /** The rest of a choice, given the branches seen so far. */
  function ParseAlts(e: seq<ch>, pos: nat, npar: nat, acc: Rx): (o: Parsed)
    requires pos <= |e| && IsChoice(acc)
    ensures o.Got? ==> pos <= o.pos <= |e| && npar <= o.npar
    ensures o.Got? ==> IsChoice(o.r)
    decreases |e| - pos, 3
  {
    if At(e, pos) != '|' as int then Got(acc, pos, npar)
    else match ParsePieces(e, pos + 1, npar, Empty)
      case Fail => Fail
      case Got(b, p, n) => ParseAlts(e, p, n, Alt(acc, Branch(b)))
  }

  /** One or more branches. */
  function ParseChoice(e: seq<ch>, pos: nat, npar: nat): (o: Parsed)
    requires pos <= |e|
    ensures o.Got? ==> pos <= o.pos <= |e| && npar <= o.npar
    ensures o.Got? ==> IsChoice(o.r)
    decreases |e| - pos, 4
  {
    match ParsePieces(e, pos, npar, Empty)
    case Fail => Fail
    case Got(b, p, n) => ParseAlts(e, p, n, Branch(b))
  }

  /** A whole pattern, or (with paren) the inside of a group and its ')'. */
  function ParseReg(e: seq<ch>, pos: nat, npar: nat, paren: bool): (o: Parsed)
    requires pos <= |e|
    ensures o.Got? ==> pos <= o.pos <= |e| && npar <= o.npar
    ensures o.Got? && paren ==> pos < o.pos
    ensures o.Got? ==> if paren then IsAtom(o.r) && o.r.Group? && o.r.no == npar else IsChoice(o.r)
    decreases |e| - pos, 5
  {
    if paren && npar >= NSUBEXP then Fail
    else match ParseChoice(e, pos, if paren then npar + 1 else npar)
      case Fail => Fail
      case Got(alts, q, m) =>
        if paren then
          if At(e, q) != ')' as int then Fail else Got(Group(npar, alts), q + 1, m)
        else if At(e, q) != 0 then Fail else Got(alts, q, m)
  }

  /** What the parser can deliver, by syntactic level. */
  predicate IsAtom(r: Rx)
    decreases r, 0
  {
    match r
    case Bol => true
    case Eol => true
    case Any => true
    case AnyOf(_) => true
    case AnyBut(_) => true
    case Exactly(cs) => |cs| > 0
    case Group(_, b) => IsChoice(b)
    case _ => false
  }

  predicate IsPiece(r: Rx)
    decreases r, 1
  {
    match r
    case Star(x) => IsAtom(x) && HasWidth(x)
    case Plus(x) => IsAtom(x) && HasWidth(x)
    case Opt(x) => IsAtom(x)
    case _ => IsAtom(r)
  }

  predicate IsSequence(r: Rx)
    decreases r, 2
  {
    match r
    case Cat(a, b) => a != Empty && IsSequence(a) && IsPiece(b)
    case Empty => true
    case _ => IsPiece(r)
  }

  predicate IsChoice(r: Rx)
    decreases r, 3
  {
    match r
    case Branch(b) => IsSequence(b)
    case Alt(a, Branch(b)) => IsChoice(a) && IsSequence(b)
    case _ => false
  }

  lemma AppendIsSequence(acc: Rx, x: Rx)
    requires IsSequence(acc) && IsPiece(x)
    ensures IsSequence(Append(acc, x)) && Append(acc, x) != Empty && x != Empty
    ensures HasWidth(Append(acc, x)) == (HasWidth(acc) || HasWidth(x))
    ensures SpStart(Append(acc, x)) == if acc == Empty then SpStart(x) else SpStart(acc)
  {
  }

  lemma {:induction false} AltIsChoice(acc: Rx, b: Rx)
    requires IsSequence(b)
    ensures IsChoice(Branch(b)) && (IsChoice(acc) ==> IsChoice(Alt(acc, Branch(b))))
  {
  }
}
