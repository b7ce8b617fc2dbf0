/** The compiled program: nodes, links, and what it means for a stretch of the
    program to be the code of a syntax tree. Addresses are offsets into the
    program; a node is an opcode, a two-byte link (high byte first) and
    possibly an operand. */
module RegexCode {
  import opened CTypes
  import opened RegexLanguage

  const END: byte := 0
  const BOL: byte := 1
  const EOL: byte := 2
  const ANY: byte := 3
  const ANYOF: byte := 4
  const ANYBUT: byte := 5
  const BRANCH: byte := 6
  const BACK: byte := 7
  const EXACTLY: byte := 8
  const NOTHING: byte := 9
  const STAR: byte := 10
  const PLUS: byte := 11
  const OPEN: byte := 20
  const CLOSE: byte := 30

  const MAGIC: byte := 156       // 0234

  const NULL: int := -1

  /** regnext: where the link of the node at p leads, NULL if it has none. */
  function Next(m: seq<byte>, p: nat): int
    requires p + 3 <= |m|
  {
    var offset := m[p + 1] as int * 256 + m[p + 2];
    if offset == 0 then NULL
    else if m[p] == BACK then p - offset
    else p + offset
  }

  /** The same, in the program itself. */
  function NextIn(program: array<byte>, p: nat): int
    requires p + 3 <= program.Length
    reads program
  {
    Next(program[..], p)
  }

  ghost predicate Node(m: seq<byte>, p: int, op: int, next: int) {
    0 < p && p + 3 <= |m| && m[p] == op && Next(m, p) == next
  }

  /** cs, NUL-terminated, sits at p. */
  ghost predicate Text(m: seq<byte>, p: nat, cs: seq<ch>) {
    p + |cs| < |m| && m[p + |cs|] == 0 && forall k :: 0 <= k < |cs| ==> m[p + k] == cs[k]
  }

  /** Bytes of code for r. */
  function Size(r: Rx): (n: nat)
    ensures n >= 3
  {
    match r
    case AnyOf(cs) => |cs| + 4
    case AnyBut(cs) => |cs| + 4
    case Exactly(cs) => |cs| + 4
    case Group(_, b) => 3 + Size(b) + 3
    case Star(x) => if IsSimple(x) then 3 + Size(x) else Size(x) + 12
    case Plus(x) => if IsSimple(x) then 3 + Size(x) else Size(x) + 12
    case Opt(x) => Size(x) + 9
    case Cat(a, b) => Size(a) + Size(b)
    case Branch(b) => 3 + Size(b)
    case Alt(a, b) => Size(a) + Size(b)
    case _ => 3
  }

  /** How many alternatives a choice has. */
  function Count(r: Rx): (n: nat)
    ensures n >= 1
  {
    match r
    case Alt(a, _) => Count(a) + 1
    case _ => 1
  }

  /** The program text from p on is the code of r, and falls through to k
      (NULL: the last node of its chain is still unlinked). */
  ghost predicate Code(m: seq<byte>, p: int, r: Rx, k: int)
    decreases r, 1
  {
    0 < p && p + Size(r) <= |m| &&
    match r
    case Group(no, b) => GroupCode(m, p, no, b, k)
    case Cat(a, b) => CatCode(m, p, a, b, k)
    case Star(x) => if IsSimple(x) then SimpleLoop(m, p, STAR, x, k) else StarCode(m, p, x, k)
    case Plus(x) => if IsSimple(x) then SimpleLoop(m, p, PLUS, x, k) else PlusCode(m, p, x, k)
    case Opt(x) => OptCode(m, p, x, k)
    case Branch(_) => false
    case Alt(_, _) => false
    case _ => Leaf(m, p, r, k)
  }

  /** The opcode of a tree that compiles to a single node. */
  function Opcode(r: Rx): byte {
    match r
    case Bol => BOL
    case Eol => EOL
    case Any => ANY
    case AnyOf(_) => ANYOF
    case AnyBut(_) => ANYBUT
    case Exactly(_) => EXACTLY
    case _ => NOTHING
  }

  ghost predicate Leaf(m: seq<byte>, p: int, r: Rx, k: int) {
    Node(m, p, Opcode(r), k) &&
    match r
    case AnyOf(cs) => Text(m, p + 3, cs)
    case AnyBut(cs) => Text(m, p + 3, cs)
    case Exactly(cs) => Text(m, p + 3, cs)
    case _ => true
  }

  ghost predicate CatCode(m: seq<byte>, p: int, a: Rx, b: Rx, k: int)
    decreases Cat(a, b), 0
  {
    Code(m, p, a, p + Size(a)) && Code(m, p + Size(a), b, k)
  }

  ghost predicate GroupCode(m: seq<byte>, p: int, no: int, b: Rx, k: int)
    decreases b, 2
  {
    var close := p + 3 + Size(b);
    1 <= no <= 9 && Node(m, p, OPEN + no, p + 3) && Node(m, close, CLOSE + no, k) &&
    Choice(m, p + 3, b, close, close, Count(b))
  }

  /** x* or x+ with a simple x: one node that counts repetitions. */
  ghost predicate SimpleLoop(m: seq<byte>, p: int, op: int, x: Rx, k: int) {
    Node(m, p, op, k) && Leaf(m, p + 3, x, NULL)
  }

  /** A complex x* is a choice between x, with a BACK to the choice, and nothing. */
  ghost predicate StarCode(m: seq<byte>, p: int, x: Rx, k: int)
    decreases x, 2
  {
    var back := p + 3 + Size(x);
    Node(m, p, BRANCH, back + 3) && Code(m, p + 3, x, back) && Node(m, back, BACK, p) &&
    Node(m, back + 3, BRANCH, back + 6) && Node(m, back + 6, NOTHING, k)
  }

  /** A complex x+ is x, and then a choice between going back to it and nothing. */
  ghost predicate PlusCode(m: seq<byte>, p: int, x: Rx, k: int)
    decreases x, 2
  {
    Code(m, p, x, p + Size(x)) && PlusTail(m, p + Size(x), p, k)
  }

  /** The loop that follows the operand of a complex x+: back to start, or on to k. */
  ghost predicate PlusTail(m: seq<byte>, q: int, start: int, k: int) {
    Node(m, q, BRANCH, q + 6) && Node(m, q + 3, BACK, start) &&
    Node(m, q + 6, BRANCH, q + 9) && Node(m, q + 9, NOTHING, k)
  }

  /** x? is a choice between x and nothing. */
  ghost predicate OptCode(m: seq<byte>, p: int, x: Rx, k: int)
    decreases x, 2
  {
    var or := p + 3 + Size(x);
    Node(m, p, BRANCH, or) && Code(m, p + 3, x, or + 3) &&
    Node(m, or, BRANCH, or + 3) && Node(m, or + 3, NOTHING, k)
  }

  /** The BRANCH nodes of a choice: each links to the next, the last one to
      next; the first hooked branches end at tail, the others are unlinked. */
  ghost predicate Choice(m: seq<byte>, p: int, r: Rx, next: int, tail: int, hooked: int)
    decreases r, 1
  {
    0 < p && p + Size(r) <= |m| &&
    match r
    case Branch(b) =>
      Node(m, p, BRANCH, next) && Code(m, p + 3, b, if 0 < hooked then tail else NULL)
    case Alt(a, Branch(b)) => AltCode(m, p, a, b, next, tail, hooked)
    case _ => false
  }

  ghost predicate AltCode(m: seq<byte>, p: int, a: Rx, b: Rx, next: int, tail: int, hooked: int)
    decreases Alt(a, Branch(b)), 0
  {
    var q := p + Size(a);
    Choice(m, p, a, q, tail, hooked) && Node(m, q, BRANCH, next) &&
    Code(m, q + 3, b, if Count(a) < hooked then tail else NULL)
  }

  /** A complete program. */
  ghost predicate Program(m: seq<byte>, r: Rx) {
    var end := 1 + Size(r);
    |m| >= end + 3 && m[0] == MAGIC && Choice(m, 1, r, end, end, Count(r)) && Node(m, end, END, NULL)
  }

  /** m2 holds, d bytes further up, what m1 holds in [lo, hi). */
  ghost predicate Moved(m1: seq<byte>, m2: seq<byte>, lo: int, hi: int, d: int) {
    0 <= lo <= hi <= |m1| && 0 <= lo + d && hi + d <= |m2| &&
    forall i :: lo <= i < hi ==> m1[i] == m2[i + d]
  }

  function Shift(k: int, d: int): int {
    if k == NULL then NULL else k + d
  }

  ghost predicate Address(k: int) {
    k == NULL || 0 < k
  }

  lemma NodeMoved(m1: seq<byte>, m2: seq<byte>, lo: int, hi: int, d: int, p: int, op: int, next: int)
    requires Moved(m1, m2, lo, hi, d) && lo <= p && p + 3 <= hi && 0 < p + d
    requires Node(m1, p, op, next) && Address(next) && (op == BACK ==> 0 < next)
    ensures Node(m2, p + d, op, Shift(next, d))
  {
    assert m1[p] == m2[p + d] && m1[p + 1] == m2[p + 1 + d] && m1[p + 2] == m2[p + 2 + d];
  }

  lemma LeafMoved(m1: seq<byte>, m2: seq<byte>, lo: int, hi: int, d: int, p: int, r: Rx, k: int)
    requires Moved(m1, m2, lo, hi, d) && lo <= p && p + Size(r) <= hi && 0 < p + d
    requires Leaf(m1, p, r, k) && Address(k)
    ensures Leaf(m2, p + d, r, Shift(k, d))
  {
    NodeMoved(m1, m2, lo, hi, d, p, Opcode(r), k);
    match r
    case AnyOf(cs) => TextMoved(m1, m2, lo, hi, d, p + 3, cs);
    case AnyBut(cs) => TextMoved(m1, m2, lo, hi, d, p + 3, cs);
    case Exactly(cs) => TextMoved(m1, m2, lo, hi, d, p + 3, cs);
    case _ =>
  }

  lemma {:induction false} CatMoved(m1: seq<byte>, m2: seq<byte>, lo: int, hi: int, d: int, p: int, a: Rx, b: Rx,
                                    k: int)
    requires Moved(m1, m2, lo, hi, d) && lo <= p && p + Size(a) + Size(b) <= hi && 0 < p + d && 0 < p
    requires CatCode(m1, p, a, b, k) && Address(k)
    ensures CatCode(m2, p + d, a, b, Shift(k, d))
    decreases Cat(a, b), 0
  {
    hide Code;
    hide Next;
    hide Moved;
    CodeMoved(m1, m2, lo, hi, d, p, a, p + Size(a));
    CodeMoved(m1, m2, lo, hi, d, p + Size(a), b, k);
  }

  lemma {:induction false} GroupMoved(m1: seq<byte>, m2: seq<byte>, lo: int, hi: int, d: int, p: int, no: int, b: Rx,
                                      k: int)
    requires Moved(m1, m2, lo, hi, d) && lo <= p && p + Size(b) + 6 <= hi && 0 < p + d && 0 < p
    requires GroupCode(m1, p, no, b, k) && Address(k)
    ensures GroupCode(m2, p + d, no, b, Shift(k, d))
    decreases b, 2
  {
    hide Next;
    hide Moved;
    hide Choice;
    hide Code;
    NodeMoved(m1, m2, lo, hi, d, p, OPEN + no, p + 3);
    NodeMoved(m1, m2, lo, hi, d, p + 3 + Size(b), CLOSE + no, k);
    ChoiceMoved(m1, m2, lo, hi, d, p + 3, b, p + 3 + Size(b), p + 3 + Size(b), Count(b));
  }

  lemma {:induction false} StarMoved(m1: seq<byte>, m2: seq<byte>, lo: int, hi: int, d: int, p: int, x: Rx, k: int)
    requires Moved(m1, m2, lo, hi, d) && lo <= p && p + Size(x) + 12 <= hi && 0 < p + d && 0 < p
    requires StarCode(m1, p, x, k) && Address(k)
    ensures StarCode(m2, p + d, x, Shift(k, d))
    decreases x, 2
  {
    hide Size;
    hide Node;
    hide Next;
    hide Moved;
    hide Choice;
    hide Code;
    var back := p + 3 + Size(x);
    NodeMoved(m1, m2, lo, hi, d, p, BRANCH, back + 3);
    CodeMoved(m1, m2, lo, hi, d, p + 3, x, back);
    NodeMoved(m1, m2, lo, hi, d, back, BACK, p);
    NodeMoved(m1, m2, lo, hi, d, back + 3, BRANCH, back + 6);
    NodeMoved(m1, m2, lo, hi, d, back + 6, NOTHING, k);
  }

  lemma {:induction false} PlusMoved(m1: seq<byte>, m2: seq<byte>, lo: int, hi: int, d: int, p: int, x: Rx, k: int)
    requires Moved(m1, m2, lo, hi, d) && lo <= p && p + Size(x) + 12 <= hi && 0 < p + d && 0 < p
    requires PlusCode(m1, p, x, k) && Address(k)
    ensures PlusCode(m2, p + d, x, Shift(k, d))
    decreases x, 2
  {
    hide Size;
    hide Node;
    hide Next;
    hide Moved;
    hide Choice;
    hide Code;
    var q := p + Size(x);
    CodeMoved(m1, m2, lo, hi, d, p, x, q);
    NodeMoved(m1, m2, lo, hi, d, q, BRANCH, q + 6);
    NodeMoved(m1, m2, lo, hi, d, q + 3, BACK, p);
    NodeMoved(m1, m2, lo, hi, d, q + 6, BRANCH, q + 9);
    NodeMoved(m1, m2, lo, hi, d, q + 9, NOTHING, k);
  }

  lemma {:induction false} OptMoved(m1: seq<byte>, m2: seq<byte>, lo: int, hi: int, d: int, p: int, x: Rx, k: int)
    requires Moved(m1, m2, lo, hi, d) && lo <= p && p + Size(x) + 9 <= hi && 0 < p + d && 0 < p
    requires OptCode(m1, p, x, k) && Address(k)
    ensures OptCode(m2, p + d, x, Shift(k, d))
    decreases x, 2
  {
    hide Size;
    hide Node;
    hide Next;
    hide Moved;
    hide Choice;
    hide Code;
    var or := p + 3 + Size(x);
    NodeMoved(m1, m2, lo, hi, d, p, BRANCH, or);
    CodeMoved(m1, m2, lo, hi, d, p + 3, x, or + 3);
    NodeMoved(m1, m2, lo, hi, d, or, BRANCH, or + 3);
    NodeMoved(m1, m2, lo, hi, d, or + 3, NOTHING, k);
  }

  /** Code is relocatable: all its links are relative. (d == 0 is the frame
      property: code depends on no byte outside its own stretch.) */
  lemma {:induction false} CodeMoved(m1: seq<byte>, m2: seq<byte>, lo: int, hi: int, d: int, p: int, r: Rx, k: int)
    requires Moved(m1, m2, lo, hi, d) && lo <= p && p + Size(r) <= hi && 0 < p + d
    requires Code(m1, p, r, k) && Address(k)
    ensures Code(m2, p + d, r, Shift(k, d))
    decreases r, 1
  {
    hide Next;
    hide Choice;
    hide GroupCode;
    hide StarCode;
    hide PlusCode;
    hide OptCode;
    hide Leaf;
    hide CatCode;
    assert p + d + Size(r) <= |m2|;
    match r
    case Group(no, b) => GroupMoved(m1, m2, lo, hi, d, p, no, b, k);
    case Cat(a, b) => CatMoved(m1, m2, lo, hi, d, p, a, b, k);
    case Star(x) =>
      if IsSimple(x) {
        NodeMoved(m1, m2, lo, hi, d, p, STAR, k);
        LeafMoved(m1, m2, lo, hi, d, p + 3, x, NULL);
      } else {
        StarMoved(m1, m2, lo, hi, d, p, x, k);
      }
    case Plus(x) =>
      if IsSimple(x) {
        NodeMoved(m1, m2, lo, hi, d, p, PLUS, k);
        LeafMoved(m1, m2, lo, hi, d, p + 3, x, NULL);
      } else {
        PlusMoved(m1, m2, lo, hi, d, p, x, k);
      }
    case Opt(x) => OptMoved(m1, m2, lo, hi, d, p, x, k);
    case _ => LeafMoved(m1, m2, lo, hi, d, p, r, k);
  }

  lemma {:induction false} ChoiceMoved(m1: seq<byte>, m2: seq<byte>, lo: int, hi: int, d: int, p: int, r: Rx,
                                       next: int, tail: int, hooked: int)
    requires Moved(m1, m2, lo, hi, d) && lo <= p && p + Size(r) <= hi && 0 < p + d
    requires Choice(m1, p, r, next, tail, hooked) && Address(next) && Address(tail)
    ensures Choice(m2, p + d, r, Shift(next, d), Shift(tail, d), hooked)
    decreases r, 1
  {
    hide Next;
    hide Code;
    hide AltCode;
    assert p + d + Size(r) <= |m2|;
    match r
    case Branch(b) =>
      NodeMoved(m1, m2, lo, hi, d, p, BRANCH, next);
      CodeMoved(m1, m2, lo, hi, d, p + 3, b, if 0 < hooked then tail else NULL);
    case Alt(a, Branch(b)) =>
      assert Size(r) == Size(a) + 3 + Size(b);
      AltMoved(m1, m2, lo, hi, d, p, a, b, next, tail, hooked);
  }

  lemma {:induction false} AltMoved(m1: seq<byte>, m2: seq<byte>, lo: int, hi: int, d: int, p: int, a: Rx, b: Rx,
                                    next: int, tail: int, hooked: int)
    requires Moved(m1, m2, lo, hi, d) && lo <= p && p + Size(a) + 3 + Size(b) <= hi && 0 < p + d && 0 < p
    requires AltCode(m1, p, a, b, next, tail, hooked) && Address(next) && Address(tail)
    ensures AltCode(m2, p + d, a, b, Shift(next, d), Shift(tail, d), hooked)
    decreases Alt(a, Branch(b)), 0
  {
    hide Code;
    hide Next;
    hide Moved;
    hide Choice;
    var q := p + Size(a);
    ChoiceMoved(m1, m2, lo, hi, d, p, a, q, tail, hooked);
    NodeMoved(m1, m2, lo, hi, d, q, BRANCH, next);
    CodeMoved(m1, m2, lo, hi, d, q + 3, b, if Count(a) < hooked then tail else NULL);
  }

  lemma TextMoved(m1: seq<byte>, m2: seq<byte>, lo: int, hi: int, d: int, p: nat, cs: seq<ch>)
    requires Moved(m1, m2, lo, hi, d) && lo <= p && p + |cs| + 1 <= hi
    requires Text(m1, p, cs)
    ensures 0 <= p + d && Text(m2, p + d, cs)
  {
    forall k | 0 <= k < |cs| ensures m2[p + d + k] == cs[k] {
      assert m1[p + k] == m2[p + k + d];
    }
    assert m1[p + |cs|] == m2[p + |cs| + d];
  }

  // ---- Chains: following links to the end ----

  /** How far into the code of r the last node of its chain sits. */
  function TailOffset(r: Rx): (t: nat)
    ensures t + 3 <= Size(r)
  {
    match r
    case Group(_, b) => 3 + Size(b)
    case Cat(a, b) => Size(a) + TailOffset(b)
    case Star(x) => if IsSimple(x) then 0 else Size(x) + 9
    case Plus(x) => if IsSimple(x) then 0 else Size(x) + 9
    case Opt(x) => Size(x) + 6
    case Alt(a, b) => Size(a)
    case _ => 0
  }

  function Tail(p: int, r: Rx): int {
    p + TailOffset(r)
  }

  /** Following forward links from p leads to t. */
  ghost predicate Leads(m: seq<byte>, p: int, t: int)
    decreases t - p
  {
    0 < p <= t && t + 3 <= |m| &&
    (p == t || (p < Next(m, p) <= t && Leads(m, Next(m, p), t)))
  }

  /** From p, links lead to the node at t, and from there to k. */
  ghost predicate Chain(m: seq<byte>, p: int, t: int, k: int) {
    Leads(m, p, t) && Next(m, t) == k && m[t] != BACK
  }

  lemma {:induction false} LeadsOn(m: seq<byte>, p: int, q: int, t: int)
    requires Leads(m, p, q) && q < Next(m, q) && Leads(m, Next(m, q), t)
    ensures Leads(m, p, t)
    decreases q - p
  {
    if p != q {
      LeadsOn(m, Next(m, p), q, t);
    }
  }

  /** Every piece of code is one chain from its first node to its tail. */
  lemma {:induction false} CodeLeads(m: seq<byte>, p: int, r: Rx, k: int)
    requires Code(m, p, r, k)
    ensures Chain(m, p, Tail(p, r), k)
    decreases r, 1
  {
    hide Next;
    hide Node;
    hide Leads;
    hide Chain;
    hide Choice;
    hide GroupCode;
    hide StarCode;
    hide PlusCode;
    hide OptCode;
    hide CatCode;
    var t := Tail(p, r);
    match r
    case Group(no, b) => GroupLeads(m, p, no, b, k, t);
    case Cat(a, b) => CatLeads(m, p, a, b, k, t);
    case Star(x) => if IsSimple(x) { NodeLeads(m, p, STAR, k, t); } else { StarLeads(m, p, x, k, t); }
    case Plus(x) => if IsSimple(x) { NodeLeads(m, p, PLUS, k, t); } else { PlusLeads(m, p, x, k, t); }
    case Opt(x) => OptLeads(m, p, x, k, t);
    case _ => NodeLeads(m, p, Opcode(r), k, t);
  }

  lemma NodeLeads(m: seq<byte>, p: int, op: int, k: int, t: int)
    requires Node(m, p, op, k) && op != BACK && t == p
    ensures Chain(m, p, t, k)
  {
  }

  lemma {:induction false} CatLeads(m: seq<byte>, p: int, a: Rx, b: Rx, k: int, t: int)
    requires 0 < p && p + Size(a) + Size(b) <= |m| && CatCode(m, p, a, b, k) && t == Tail(p + Size(a), b)
    ensures Chain(m, p, t, k)
    decreases Cat(a, b), 0
  {
    hide Code;
    hide Choice;
    hide Next;
    CodeLeads(m, p, a, p + Size(a));
    CodeLeads(m, p + Size(a), b, k);
    LeadsOn(m, p, Tail(p, a), t);
  }

  lemma {:induction false} GroupLeads(m: seq<byte>, p: int, no: int, b: Rx, k: int, t: int)
    requires 0 < p && p + Size(b) + 6 <= |m| && GroupCode(m, p, no, b, k) && t == p + 3 + Size(b)
    ensures Chain(m, p, t, k)
    decreases b, 2
  {
    hide Code;
    hide Choice;
    hide Next;
    ChoiceLeads(m, p + 3, b, t, t, Count(b));
    LeadsOn(m, p + 3, Tail(p + 3, b), t);
  }

  lemma StarLeads(m: seq<byte>, p: int, x: Rx, k: int, t: int)
    requires 0 < p && p + Size(x) + 12 <= |m| && StarCode(m, p, x, k) && t == p + Size(x) + 9
    ensures Chain(m, p, t, k)
  {
    hide Code;
    hide Choice;
    hide Next;
    assert Leads(m, t - 3, t);
  }

  lemma {:induction false} PlusLeads(m: seq<byte>, p: int, x: Rx, k: int, t: int)
    requires 0 < p && p + Size(x) + 12 <= |m| && PlusCode(m, p, x, k) && t == p + Size(x) + 9
    ensures Chain(m, p, t, k)
    decreases x, 2
  {
    hide Code;
    hide Choice;
    hide Next;
    CodeLeads(m, p, x, t - 9);
    assert Leads(m, t - 3, t) && Leads(m, t - 9, t);
    LeadsOn(m, p, Tail(p, x), t);
  }

  lemma OptLeads(m: seq<byte>, p: int, x: Rx, k: int, t: int)
    requires 0 < p && p + Size(x) + 9 <= |m| && OptCode(m, p, x, k) && t == p + Size(x) + 6
    ensures Chain(m, p, t, k)
  {
    hide Code;
    hide Choice;
    hide Next;
    assert Leads(m, t - 3, t);
  }

  lemma {:induction false} ChoiceLeads(m: seq<byte>, p: int, r: Rx, next: int, tail: int, hooked: int)
    requires Choice(m, p, r, next, tail, hooked)
    ensures Leads(m, p, Tail(p, r)) && Next(m, Tail(p, r)) == next && m[Tail(p, r)] == BRANCH
    decreases r, 1
  {
    hide Next;
    hide Code;
    hide AltCode;
    match r
    case Branch(b) =>
    case Alt(a, Branch(b)) =>
      assert Size(r) == Size(a) + 3 + Size(b);
      AltLeads(m, p, a, b, next, tail, hooked);
  }

  lemma {:induction false} AltLeads(m: seq<byte>, p: int, a: Rx, b: Rx, next: int, tail: int, hooked: int)
    requires 0 < p && p + Size(a) + 3 + Size(b) <= |m| && AltCode(m, p, a, b, next, tail, hooked)
    ensures Leads(m, p, p + Size(a)) && Next(m, p + Size(a)) == next && m[p + Size(a)] == BRANCH
    decreases Alt(a, Branch(b)), 0
  {
    hide Code;
    hide Next;
    hide Moved;
    hide Choice;
    ChoiceLeads(m, p, a, p + Size(a), tail, hooked);
    LeadsOn(m, p, Tail(p, a), p + Size(a));
  }

  // ---- Setting a link ----

  /** The program with the link of the node at t set to reach val. */
  function Linked(m: seq<byte>, t: int, val: int): (m': seq<byte>)
    ensures |m'| == |m|
  {
    if Linkable(m, t, val) then
      var offset := if m[t] == BACK then t - val else val - t;
      m[t + 1 := offset / 256][t + 2 := offset % 256]
    else m
  }

  /** The offset between t and val has the right sign and fits a link. */
  predicate Linkable(m: seq<byte>, t: int, val: int) {
    0 < t && t + 3 <= |m| && 0 < val &&
    if m[t] == BACK then val < t < val + 65536 else t < val < t + 65536
  }

  /** m' is m but for the link of the node at t, which leads to val. */
  ghost predicate Relinked(m: seq<byte>, m': seq<byte>, t: int, val: int) {
    0 < t && t + 3 <= |m| == |m'| && Moved(m, m', 0, t + 1, 0) && Moved(m, m', t + 3, |m|, 0) &&
    m'[t] == m[t] && Next(m', t) == val
  }

  lemma RelinkedBounds(m: seq<byte>, m': seq<byte>, t: int, val: int)
    requires Relinked(m, m', t, val)
    ensures 0 < t && t + 3 <= |m| == |m'|
  {
    hide Next;
  }

  /** The relinked node itself. */
  lemma NodeRelinked(m: seq<byte>, m': seq<byte>, t: int, op: int, next: int, val: int)
    requires Node(m, t, op, next) && Relinked(m, m', t, val)
    ensures Node(m', t, op, val)
  {
    hide Next;
    hide Moved;
  }

  lemma LinkedRelinks(m: seq<byte>, t: int, val: int)
    requires Linkable(m, t, val)
    ensures Relinked(m, Linked(m, t, val), t, val)
  {
  }

  /** The code of a tree, one level deep. */
  lemma {:induction false} CodeIs(m: seq<byte>, p: int, r: Rx, k: int)
    ensures Code(m, p, r, k) <==>
            0 < p && p + Size(r) <= |m| &&
            match r
            case Group(no, b) => GroupCode(m, p, no, b, k)
            case Cat(a, b) => CatCode(m, p, a, b, k)
            case Star(x) => if IsSimple(x) then SimpleLoop(m, p, STAR, x, k) else StarCode(m, p, x, k)
            case Plus(x) => if IsSimple(x) then SimpleLoop(m, p, PLUS, x, k) else PlusCode(m, p, x, k)
            case Opt(x) => OptCode(m, p, x, k)
            case Branch(_) => false
            case Alt(_, _) => false
            case _ => Leaf(m, p, r, k)
  {
    hide Size;
    hide GroupCode;
    hide CatCode;
    hide SimpleLoop;
    hide StarCode;
    hide PlusCode;
    hide OptCode;
    hide Leaf;
  }

  /** Linking the tail of unlinked code makes it fall through to val. */
  lemma {:induction false} CodeLinked(m: seq<byte>, m': seq<byte>, p: int, r: Rx, val: int)
    requires Code(m, p, r, NULL) && Relinked(m, m', Tail(p, r), val)
    ensures Code(m', p, r, val)
    decreases r, 1
  {
    hide Relinked;
    hide Next;
    hide Moved;
    hide Node;
    hide Choice;
    hide GroupCode;
    hide StarCode;
    hide PlusCode;
    hide OptCode;
    hide Leads;
    hide Leaf;
    hide SimpleLoop;
    hide CatCode;
    hide Code;
    var t := Tail(p, r);
    RelinkedBounds(m, m', t, val);
    CodeIs(m, p, r, NULL);
    CodeIs(m', p, r, val);
    match r
    case Group(no, b) => GroupLinked(m, m', p, no, b, val, t);
    case Cat(a, b) => CatLinked(m, m', p, a, b, val, t);
    case Star(x) =>
      if IsSimple(x) { SimpleLoopLinked(m, m', p, STAR, x, val, t); } else { StarLinked(m, m', p, x, val, t); }
    case Plus(x) =>
      if IsSimple(x) { SimpleLoopLinked(m, m', p, PLUS, x, val, t); } else { PlusLinked(m, m', p, x, val, t); }
    case Opt(x) => OptLinked(m, m', p, x, val, t);
    case _ => LeafLinked(m, m', p, r, val, t);
  }

  lemma {:induction false} CatLinked(m: seq<byte>, m': seq<byte>, p: int, a: Rx, b: Rx, val: int, t: int)
    requires 0 < p && CatCode(m, p, a, b, NULL) && Relinked(m, m', t, val) && t == Tail(p + Size(a), b)
    ensures CatCode(m', p, a, b, val)
    decreases Cat(a, b), 0
  {
    hide Code;
    hide Next;
    hide Moved;
    hide Choice;
    CodeMoved(m, m', 0, t + 1, 0, p, a, p + Size(a));
    CodeLinked(m, m', p + Size(a), b, val);
  }

  lemma LeafLinked(m: seq<byte>, m': seq<byte>, p: int, r: Rx, val: int, t: int)
    requires Leaf(m, p, r, NULL) && Relinked(m, m', t, val) && t == p && p + Size(r) <= |m|
    ensures Leaf(m', p, r, val)
  {
    hide Next;
    hide Moved;
    match r
    case AnyOf(cs) => TextMoved(m, m', p + 3, |m|, 0, p + 3, cs);
    case AnyBut(cs) => TextMoved(m, m', p + 3, |m|, 0, p + 3, cs);
    case Exactly(cs) => TextMoved(m, m', p + 3, |m|, 0, p + 3, cs);
    case _ =>
  }

  lemma SimpleLoopLinked(m: seq<byte>, m': seq<byte>, p: int, op: byte, x: Rx, val: int, t: int)
    requires SimpleLoop(m, p, op, x, NULL) && Relinked(m, m', t, val) && t == p && p + 3 + Size(x) <= |m|
    ensures SimpleLoop(m', p, op, x, val)
  {
    hide Next;
    hide Moved;
    hide Leaf;
    LeafMoved(m, m', p + 3, |m|, 0, p + 3, x, NULL);
  }

  lemma GroupLinked(m: seq<byte>, m': seq<byte>, p: int, no: int, b: Rx, val: int, t: int)
    requires 0 < p && GroupCode(m, p, no, b, NULL) && Relinked(m, m', t, val) && t == p + 3 + Size(b)
    ensures GroupCode(m', p, no, b, val)
  {
    hide Size;
    hide Node;
    hide Code;
    hide Next;
    hide Moved;
    hide Choice;
    NodeMoved(m, m', 0, t + 1, 0, p, OPEN + no, p + 3);
    ChoiceMoved(m, m', 0, t + 1, 0, p + 3, b, t, t, Count(b));
    NodeRelinked(m, m', t, CLOSE + no, NULL, val);
  }

  lemma StarLinked(m: seq<byte>, m': seq<byte>, p: int, x: Rx, val: int, t: int)
    requires 0 < p && StarCode(m, p, x, NULL) && Relinked(m, m', t, val) && t == p + Size(x) + 9
    ensures StarCode(m', p, x, val)
  {
    hide Size;
    hide Node;
    hide Code;
    hide Next;
    hide Moved;
    hide Choice;
    NodeMoved(m, m', 0, t + 1, 0, p, BRANCH, t - 3);
    CodeMoved(m, m', 0, t + 1, 0, p + 3, x, t - 6);
    NodeMoved(m, m', 0, t + 1, 0, t - 6, BACK, p);
    NodeMoved(m, m', 0, t + 1, 0, t - 3, BRANCH, t);
    NodeRelinked(m, m', t, NOTHING, NULL, val);
  }

  lemma PlusLinked(m: seq<byte>, m': seq<byte>, p: int, x: Rx, val: int, t: int)
    requires 0 < p && PlusCode(m, p, x, NULL) && Relinked(m, m', t, val) && t == p + Size(x) + 9
    ensures PlusCode(m', p, x, val)
  {
    hide Size;
    hide Node;
    hide Code;
    hide Next;
    hide Moved;
    hide Choice;
    CodeMoved(m, m', 0, t + 1, 0, p, x, p + Size(x));
    NodeMoved(m, m', 0, t + 1, 0, t - 9, BRANCH, t - 3);
    NodeMoved(m, m', 0, t + 1, 0, t - 6, BACK, p);
    NodeMoved(m, m', 0, t + 1, 0, t - 3, BRANCH, t);
    NodeRelinked(m, m', t, NOTHING, NULL, val);
  }

  lemma OptLinked(m: seq<byte>, m': seq<byte>, p: int, x: Rx, val: int, t: int)
    requires 0 < p && OptCode(m, p, x, NULL) && Relinked(m, m', t, val) && t == p + Size(x) + 6
    ensures OptCode(m', p, x, val)
  {
    hide Size;
    hide Node;
    hide Code;
    hide Next;
    hide Moved;
    hide Choice;
    NodeMoved(m, m', 0, t + 1, 0, p, BRANCH, t - 3);
    CodeMoved(m, m', 0, t + 1, 0, p + 3, x, t);
    NodeMoved(m, m', 0, t + 1, 0, t - 3, BRANCH, t);
    NodeRelinked(m, m', t, NOTHING, NULL, val);
  }

  /** Linking the last BRANCH of a choice. */
  lemma {:induction false} ChoiceLinked(m: seq<byte>, m': seq<byte>, p: int, r: Rx, val: int, tail: int, hooked: int)
    requires Choice(m, p, r, NULL, tail, hooked) && Address(tail) && Relinked(m, m', Tail(p, r), val)
    ensures Choice(m', p, r, val, tail, hooked)
  {
    hide Next;
    hide Code;
    hide AltCode;
    hide Moved;
    var t := Tail(p, r);
    match r
    case Branch(b) =>
      CodeMoved(m, m', t + 3, |m|, 0, p + 3, b, if 0 < hooked then tail else NULL);
    case Alt(a, Branch(b)) =>
      assert Size(r) == Size(a) + 3 + Size(b);
      AltLinked(m, m', p, a, b, val, tail, hooked);
  }

  lemma AltLinked(m: seq<byte>, m': seq<byte>, p: int, a: Rx, b: Rx, val: int, tail: int, hooked: int)
    requires 0 < p && p + Size(a) + 3 + Size(b) <= |m| && AltCode(m, p, a, b, NULL, tail, hooked)
    requires Address(tail) && Relinked(m, m', p + Size(a), val)
    ensures AltCode(m', p, a, b, val, tail, hooked)
  {
    hide Size;
    hide Count;
    hide Code;
    hide Next;
    hide Moved;
    hide Choice;
    var t := p + Size(a);
    ChoiceMoved(m, m', 0, t + 1, 0, p, a, t, tail, hooked);
    CodeMoved(m, m', t + 3, |m|, 0, t + 3, b, if Count(a) < hooked then tail else NULL);
  }

  // ---- The alternatives of a choice, by number ----

  /** The n-th alternative, from 0. */
  function Nth(r: Rx, n: nat): Rx
    requires n < Count(r)
  {
    match r
    case Alt(a, b) => if n < Count(a) then Nth(a, n) else if b.Branch? then b.body else b
    case Branch(b) => b
    case _ => r
  }

  /** The address of its BRANCH node. */
  function NthAt(p: int, r: Rx, n: nat): int
    requires n < Count(r)
    decreases r
  {
    match r
    case Alt(a, _) => if n < Count(a) then NthAt(p, a, n) else p + Size(a)
    case _ => p
  }

  /** What the n-th alternative looks like in the code. */
  lemma {:induction false} ChoiceNth(m: seq<byte>, p: int, r: Rx, next: int, tail: int, hooked: int, n: nat)
    requires Choice(m, p, r, next, tail, hooked) && n < Count(r)
    ensures p <= NthAt(p, r, n) && NthAt(p, r, n) + 3 + Size(Nth(r, n)) <= p + Size(r)
    ensures Node(m, NthAt(p, r, n), BRANCH, if n + 1 < Count(r) then NthAt(p, r, n + 1) else next)
    ensures Code(m, NthAt(p, r, n) + 3, Nth(r, n), if n < hooked then tail else NULL)
    ensures n + 1 < Count(r) ==> NthAt(p, r, n) < NthAt(p, r, n + 1)
    ensures n == 0 ==> NthAt(p, r, n) == p
    decreases r
  {
    hide Node;
    hide Code;
    hide Next;
    match r
    case Branch(b) =>
    case Alt(a, Branch(b)) =>
      assert AltCode(m, p, a, b, next, tail, hooked);
      if n < Count(a) {
        ChoiceNth(m, p, a, p + Size(a), tail, hooked, n);
      }
  }

  /** Hooking the operand of the next unhooked BRANCH onto tail. */
  lemma {:induction false} ChoiceHooked(m: seq<byte>, m': seq<byte>, p: int, r: Rx, next: int, tail: int, n: nat)
    requires Choice(m, p, r, next, tail, n) && n < Count(r) && Address(next) && 0 < tail
    requires Relinked(m, m', Tail(NthAt(p, r, n) + 3, Nth(r, n)), tail)
    ensures Choice(m', p, r, next, tail, n + 1)
    decreases r, 1
  {
    hide Next;
    hide Code;
    hide AltCode;
    hide Moved;
    match r
    case Branch(b) =>
      NodeMoved(m, m', 0, Tail(p + 3, b) + 1, 0, p, BRANCH, next);
      CodeLinked(m, m', p + 3, b, tail);
    case Alt(a, Branch(b)) =>
      assert Size(r) == Size(a) + 3 + Size(b);
      if n < Count(a) {
        AltHooked(m, m', p, a, b, next, tail, n);
      } else {
        LastHooked(m, m', p, a, b, next, tail, n);
      }
  }

  lemma {:induction false} AltHooked(m: seq<byte>, m': seq<byte>, p: int, a: Rx, b: Rx, next: int, tail: int, n: nat)
    requires 0 < p && p + Size(a) + 3 + Size(b) <= |m| && AltCode(m, p, a, b, next, tail, n) && n < Count(a)
    requires Address(next) && 0 < tail && Relinked(m, m', Tail(NthAt(p, a, n) + 3, Nth(a, n)), tail)
    ensures AltCode(m', p, a, b, next, tail, n + 1)
    decreases Alt(a, Branch(b)), 0
  {
    hide Size;
    hide Count;
    hide TailOffset;
    hide Code;
    hide Next;
    hide Moved;
    hide Choice;
    hide Node;
    hide Nth;
    hide NthAt;
    var q := p + Size(a);
    var t := Tail(NthAt(p, a, n) + 3, Nth(a, n));
    NthInside(m, p, a, q, tail, n, n, t);
    ChoiceHooked(m, m', p, a, q, tail, n);
    NodeMoved(m, m', t + 3, |m|, 0, q, BRANCH, next);
    CodeMoved(m, m', t + 3, |m|, 0, q + 3, b, NULL);
  }

  lemma NthInside(m: seq<byte>, p: int, r: Rx, next: int, tail: int, hooked: int, n: nat, t: int)
    requires Choice(m, p, r, next, tail, hooked) && n < Count(r) && t == Tail(NthAt(p, r, n) + 3, Nth(r, n))
    ensures p < t && t + 3 <= p + Size(r)
  {
    hide Code;
    hide Next;
    hide Choice;
    hide Node;
    ChoiceNth(m, p, r, next, tail, hooked, n);
  }

  lemma LastHooked(m: seq<byte>, m': seq<byte>, p: int, a: Rx, b: Rx, next: int, tail: int, n: nat)
    requires 0 < p && p + Size(a) + 3 + Size(b) <= |m| && AltCode(m, p, a, b, next, tail, n) && n == Count(a)
    requires Address(next) && 0 < tail && Relinked(m, m', Tail(p + Size(a) + 3, b), tail)
    ensures AltCode(m', p, a, b, next, tail, n + 1)
  {
    hide TailOffset;
    hide Size;
    hide Count;
    hide Code;
    hide Next;
    hide Moved;
    hide Choice;
    hide Node;
    var t := Tail(p + Size(a) + 3, b);
    ChoiceMore(m, p, a, p + Size(a), tail, n, n + 1);
    ChoiceMoved(m, m', 0, t + 1, 0, p, a, p + Size(a), tail, n + 1);
    NodeMoved(m, m', 0, t + 1, 0, p + Size(a), BRANCH, next);
    CodeLinked(m, m', p + Size(a) + 3, b, tail);
  }

  /** Hook counts beyond the number of alternatives make no difference. */
  lemma {:induction false} ChoiceMore(m: seq<byte>, p: int, r: Rx, next: int, tail: int, n1: int, n2: int)
    requires Choice(m, p, r, next, tail, n1) && Count(r) <= n1 && Count(r) <= n2
    ensures Choice(m, p, r, next, tail, n2)
  {
    hide Code;
    hide Next;
    match r
    case Branch(b) =>
    case Alt(a, Branch(b)) =>
      assert AltCode(m, p, a, b, next, tail, n1);
      ChoiceMore(m, p, a, p + Size(a), tail, n1, n2);
  }
}
