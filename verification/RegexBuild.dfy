/** The texts the code generator builds, as functions on the code emitted so
    far, and proofs that each is code of the tree it stands for. */
module RegexBuild {
  import opened CTypes
  import opened RegexLanguage
  import opened RegexGrammar
  import opened RegexCode

  /** A fresh node: no link yet. */
  function Blank(op: byte): seq<byte> {
    [op, 0, 0]
  }

  function Inserted(c: seq<byte>, at: int, op: byte): seq<byte> {
    if 0 <= at <= |c| then c[..at] + Blank(op) + c[at..] else c
  }

  lemma BlankNode(c: seq<byte>, op: byte)
    requires 0 < |c|
    ensures Node(c + Blank(op), |c|, op, NULL)
  {
  }

  lemma NodeKept(c: seq<byte>, s: seq<byte>, p: int, op: int, next: int)
    requires Node(c, p, op, next)
    ensures Node(c + s, p, op, next)
  {
  }

  lemma CodeBounds(m: seq<byte>, p: int, r: Rx, k: int)
    requires Code(m, p, r, k)
    ensures 0 < p && p + Size(r) <= |m|
  {
  }

  lemma ChoiceBounds(m: seq<byte>, p: int, r: Rx, next: int, tail: int, hooked: int)
    requires Choice(m, p, r, next, tail, hooked)
    ensures 0 < p && p + Size(r) <= |m|
  {
  }

  lemma CodeKept(c: seq<byte>, s: seq<byte>, p: int, r: Rx, k: int)
    requires Code(c, p, r, k) && Address(k)
    ensures Code(c + s, p, r, k)
  {
    hide Code;
    CodeBounds(c, p, r, k);
    CodeMoved(c, c + s, 0, |c|, 0, p, r, k);
  }

  lemma ChoiceKept(c: seq<byte>, s: seq<byte>, p: int, r: Rx, next: int, tail: int, hooked: int)
    requires Choice(c, p, r, next, tail, hooked) && Address(next) && Address(tail)
    ensures Choice(c + s, p, r, next, tail, hooked)
  {
    hide Choice;
    ChoiceBounds(c, p, r, next, tail, hooked);
    ChoiceMoved(c, c + s, 0, |c|, 0, p, r, next, tail, hooked);
  }

  lemma CodeInserted(c: seq<byte>, at: int, op: byte, r: Rx)
    requires Code(c, at, r, NULL) && at + Size(r) == |c|
    ensures Code(Inserted(c, at, op), at + 3, r, NULL) && Node(Inserted(c, at, op), at, op, NULL)
  {
    hide Code;
    CodeBounds(c, at, r, NULL);
    var c' := Inserted(c, at, op);
    assert c' == c[..at] + Blank(op) + c[at..];
    assert c'[at] == op && c'[at + 1] == 0 && c'[at + 2] == 0;
    CodeMoved(c, c', at, |c|, 3, at, r, NULL);
  }

  /** From p, links lead to the unlinked node at t, which can be linked to val. */
  ghost predicate Ready(m: seq<byte>, p: int, t: int, val: int) {
    Leads(m, p, t) && Next(m, t) == NULL && Linkable(m, t, val)
  }

  /** One step towards the node that is to be relinked. */
  lemma LeadsStep(m: seq<byte>, p: int, t: int)
    requires Leads(m, p, t) && Next(m, t) == NULL
    ensures 0 < p <= t && t + 3 <= |m| && (Next(m, p) == NULL <==> p == t)
    ensures p != t ==> p < Next(m, p) && Leads(m, Next(m, p), t)
  {
    hide Next;
  }

  /** A node elsewhere survives relinking. */
  lemma NodeAside(m: seq<byte>, m': seq<byte>, t: int, val: int, p: int, op: int, next: int)
    requires m' == Linked(m, t, val) && Linkable(m, t, val) && (p + 3 <= t || t + 3 <= p)
    requires Node(m, p, op, next)
    ensures Node(m', p, op, next)
  {
  }

  /** Code elsewhere survives relinking. */
  lemma CodeAside(m: seq<byte>, m': seq<byte>, t: int, val: int, p: int, r: Rx, k: int)
    requires m' == Linked(m, t, val) && Linkable(m, t, val) && (p + Size(r) <= t || t + 3 <= p)
    requires Code(m, p, r, k) && Address(k)
    ensures Code(m', p, r, k)
  {
    hide Code;
    hide Next;
    CodeBounds(m, p, r, k);
    LinkedRelinks(m, t, val);
    hide Linked;
    if p + Size(r) <= t {
      CodeMoved(m, m', 0, t + 1, 0, p, r, k);
    } else {
      CodeMoved(m, m', t + 3, |m|, 0, p, r, k);
    }
  }

  /** Code whose tail is unlinked is ready to be tied. */
  lemma CodeReady(m: seq<byte>, p: int, r: Rx, t: int, val: int)
    requires Code(m, p, r, NULL) && t == Tail(p, r) && p + Size(r) <= val < 65536
    ensures Ready(m, p, t, val)
  {
    hide Code;
    hide Next;
    CodeBounds(m, p, r, NULL);
    CodeLeads(m, p, r, NULL);
  }

  /** Tying the tail of code. */
  lemma CodeTied(m: seq<byte>, m': seq<byte>, t: int, val: int, p: int, r: Rx)
    requires m' == Linked(m, t, val) && Linkable(m, t, val) && t == Tail(p, r)
    requires Code(m, p, r, NULL)
    ensures Code(m', p, r, val)
  {
    hide Code;
    hide Next;
    LinkedRelinks(m, t, val);
    hide Linked;
    CodeLinked(m, m', p, r, val);
  }

  /** A lone node is ready to be linked. */
  lemma NodeReady(m: seq<byte>, p: int, op: byte, val: int)
    requires Node(m, p, op, NULL) && if op == BACK then 0 < val < p < 65536 else p < val < 65536
    ensures Ready(m, p, p, val)
  {
  }

  /** Linking a node. */
  lemma NodeTied(m: seq<byte>, m': seq<byte>, t: int, val: int, op: byte, next: int)
    requires m' == Linked(m, t, val) && Linkable(m, t, val)
    requires Node(m, t, op, next)
    ensures Node(m', t, op, val)
  {
    hide Linked;
    LinkedRelinks(m, t, val);
  }

  /** A chain that leads to a node that leads on. */
  lemma ReadyOn(m: seq<byte>, p: int, q: int, t: int, val: int)
    requires Chain(m, p, q, t) && q < t && Ready(m, t, t, val)
    ensures Ready(m, p, t, val)
  {
    hide Next;
    hide Linkable;
    LeadsOn(m, p, q, t);
  }

  lemma Assoc(a: seq<byte>, b: seq<byte>, c: seq<byte>)
    ensures a + b + c == a + (b + c)
  {
  }

  /** A node followed by its NUL-terminated text. */
  lemma TextBuilt(c: seq<byte>, m: seq<byte>, r: Rx, cs: seq<ch>)
    requires 0 < |c| && (r == AnyOf(cs) || r == AnyBut(cs) || r == Exactly(cs))
    requires m == c + Blank(Opcode(r)) + cs + [0]
    ensures Code(m, |c|, r, NULL) && c <= m
  {
    BlankNode(c, Opcode(r));
    var n := c + Blank(Opcode(r));
    NodeKept(n, cs, |c|, Opcode(r), NULL);
    NodeKept(n + cs, [0], |c|, Opcode(r), NULL);
    assert Text(m, |c| + 3, cs);
  }

  /** A node that stands for itself. */
  lemma SignBuilt(c: seq<byte>, m: seq<byte>, r: Rx)
    requires r == Bol || r == Eol || r == Any
    ensures 0 < |c| && m == c + Blank(Opcode(r)) ==> Code(m, |c|, r, NULL) && c <= m
    ensures Size(r) == 3 && FlagsOf(r) == Flags(r == Any, r == Any, false)
  {
    if 0 < |c| && m == c + Blank(Opcode(r)) {
      BlankNode(c, Opcode(r));
    }
  }

  /** Size and flags of a node with text. */
  lemma TextSize(r: Rx, cs: seq<ch>)
    requires cs != [] || !r.Exactly?
    requires r == AnyOf(cs) || r == AnyBut(cs) || r == Exactly(cs)
    ensures Size(r) == 3 + |cs| + 1 && FlagsOf(r) == Flags(true, !r.Exactly? || |cs| == 1, false)
  {
  }

  /** What a literal is, by the run of ordinary characters. */
  lemma LiteralIs(e: seq<ch>, pos: nat, npar: nat)
    requires pos <= |e|
    ensures var n, o := Ordinary(e, pos), ParseLiteral(e, pos, npar);
            if n == 0 then o.Fail?
            else
              var len := if n > 1 && IsMult(At(e, pos + n)) then n - 1 else n;
              0 < len <= n && pos + len <= |e| && o == Got(Exactly(e[pos..pos + len]), pos + len, npar)
  {
  }

  /** What a bracket expression is, by its first characters. */
  lemma BracketIs(e: seq<ch>, pos: nat, npar: nat)
    requires 0 < pos <= |e|
    ensures var negated := At(e, pos) == '^' as int;
            var p := if negated then pos + 1 else pos;
            var literal := At(e, p) == ']' as int || At(e, p) == '-' as int;
            var b := ClassBody(e, if literal then p + 1 else p, if literal then [e[p]] else []);
            ParseBracket(e, pos, npar) ==
              if b.NoChars? then Fail else Got(if negated then AnyBut(b.cs) else AnyOf(b.cs), b.end, npar)
  {
    hide ClassBody;
  }

  /** What an atom is, by its first character. */
  lemma AtomIs(e: seq<ch>, pos: nat, npar: nat)
    requires pos <= |e|
    ensures var c, o := At(e, pos), ParseAtom(e, pos, npar);
            if c == '^' as int then o == Got(Bol, pos + 1, npar)
            else if c == '$' as int then o == Got(Eol, pos + 1, npar)
            else if c == '.' as int then o == Got(Any, pos + 1, npar)
            else if c == '[' as int then o == ParseBracket(e, pos + 1, npar)
            else if c == '(' as int then o == ParseReg(e, pos + 1, npar, true)
            else if EndsBranch(c) || IsMult(c) then o.Fail?
            else c == '\\' as int || o == ParseLiteral(e, pos, npar)
  {
    hide ParseBracket;
    hide ParseReg;
    hide ParseLiteral;
  }

  // ---- What stays: everything below the point of change ----

  lemma LinkedPrefix(m: seq<byte>, t: int, val: int, p: int)
    requires 0 <= p <= |m| && p <= t
    ensures Agree(m, Linked(m, t, val), p)
  {
    assert Linked(m, t, val)[..p] == m[..p];
  }

  lemma InsertedPrefix(c: seq<byte>, at: int, op: byte)
    requires 0 <= at <= |c|
    ensures Agree(c, Inserted(c, at, op), at)
  {
  }

  /** The texts agree below p. */
  predicate Agree(a: seq<byte>, b: seq<byte>, p: int) {
    0 <= p <= |a| && p <= |b| && a[..p] == b[..p]
  }

  lemma AgreePrefix(a: seq<byte>, b: seq<byte>, c: seq<byte>, p: int)
    requires a <= b && |a| == p && Agree(b, c, p)
    ensures a <= c
  {
    assert a == b[..p] == c[..p];
  }

  lemma AgreeTrans(a: seq<byte>, b: seq<byte>, c: seq<byte>, p: int)
    requires Agree(a, b, p) && Agree(b, c, p)
    ensures Agree(a, c, p)
  {
  }

  // ---- Complex x*: (x&|) ----

  /** The stages of building x* at ret: where the links lead so far (first: of
      the first BRANCH; xk: of x; bk: of BACK; ork: of the second BRANCH). */
  ghost predicate StarStage(m: seq<byte>, ret: int, x: Rx, back: int, first: int, xk: int, bk: int) {
    0 < ret && back == ret + 3 + Size(x) && back + 3 <= |m| < 65536 &&
    Node(m, ret, BRANCH, first) && Code(m, ret + 3, x, xk) && Node(m, back, BACK, bk)
  }

  lemma StarStageBounds(m: seq<byte>, ret: int, x: Rx, back: int)
    requires exists first, xk, bk :: StarStage(m, ret, x, back, first, xk, bk)
    ensures 0 < ret && back == ret + 3 + Size(x)
  {
  }

  lemma StarInserted(c: seq<byte>, m: seq<byte>, ret: int, x: Rx, back: int, t: int)
    requires Code(c, ret, x, NULL) && ret + Size(x) == |c| && back == |c| + 3 && back + 3 < 65536 &&
             t == Tail(ret + 3, x)
    requires m == Inserted(c, ret, BRANCH) + Blank(BACK)
    ensures StarStage(m, ret, x, back, NULL, NULL, NULL) && m[ret] == BRANCH && Ready(m, ret + 3, t, back) &&
            Agree(c, m, ret)
  {
    hide Code;
    hide Linked;
    hide Next;
    hide Leads;
    hide Ready;
    CodeBounds(c, ret, x, NULL);
    var c1 := Inserted(c, ret, BRANCH);
    InsertedPrefix(c, ret, BRANCH);
    CodeInserted(c, ret, BRANCH, x);
    NodeKept(c1, Blank(BACK), ret, BRANCH, NULL);
    CodeKept(c1, Blank(BACK), ret + 3, x, NULL);
    BlankNode(c1, BACK);
    CodeReady(m, ret + 3, x, t, back);
  }

  lemma StarBodyTied(m: seq<byte>, m': seq<byte>, ret: int, x: Rx, back: int, t: int)
    requires StarStage(m, ret, x, back, NULL, NULL, NULL) && t == Tail(ret + 3, x) && Linkable(m, t, back)
    requires m' == Linked(m, t, back)
    ensures StarStage(m', ret, x, back, NULL, back, NULL) && m'[ret] == BRANCH && Ready(m', ret + 3, back, ret) &&
            Agree(m, m', ret)
  {
    hide Code;
    hide Linked;
    hide Next;
    hide Leads;
    hide SimpleLoop;
    LinkedPrefix(m, t, back, ret);
    NodeAside(m, m', t, back, ret, BRANCH, NULL);
    CodeTied(m, m', t, back, ret + 3, x);
    NodeAside(m, m', t, back, back, BACK, NULL);
    CodeLeads(m', ret + 3, x, back);
    NodeReady(m', back, BACK, ret);
    ReadyOn(m', ret + 3, t, back, ret);
  }

  lemma StarLoopTied(m: seq<byte>, m': seq<byte>, ret: int, x: Rx, back: int)
    requires StarStage(m, ret, x, back, NULL, back, NULL) && Linkable(m, back, ret)
    requires m' == Linked(m, back, ret)
    ensures StarStage(m', ret, x, back, NULL, back, ret) && Agree(m, m', ret)
  {
    hide Code;
    hide Linked;
    hide Next;
    hide Leads;
    hide SimpleLoop;
    LinkedPrefix(m, back, ret, ret);
    NodeAside(m, m', back, ret, ret, BRANCH, NULL);
    CodeAside(m, m', back, ret, ret + 3, x, back);
    NodeTied(m, m', back, ret, BACK, NULL);
  }

  lemma StarOrAppended(m: seq<byte>, m': seq<byte>, ret: int, x: Rx, back: int, or: int)
    requires StarStage(m, ret, x, back, NULL, back, ret) && or == |m| == back + 3 && or + 3 < 65536
    requires m' == m + Blank(BRANCH)
    ensures StarStage(m', ret, x, back, NULL, back, ret) && Node(m', or, BRANCH, NULL)
    ensures Ready(m', ret, ret, or) && Agree(m, m', ret)
  {
    hide Code;
    hide Linked;
    hide Next;
    hide Leads;
    hide Ready;
    NodeKept(m, Blank(BRANCH), ret, BRANCH, NULL);
    CodeKept(m, Blank(BRANCH), ret + 3, x, back);
    NodeKept(m, Blank(BRANCH), back, BACK, ret);
    BlankNode(m, BRANCH);
    NodeReady(m', ret, BRANCH, or);
  }

  lemma StarOrTied(m: seq<byte>, m': seq<byte>, ret: int, x: Rx, back: int, or: int)
    requires StarStage(m, ret, x, back, NULL, back, ret) && or == back + 3 && Node(m, or, BRANCH, NULL) &&
             Linkable(m, ret, or)
    requires m' == Linked(m, ret, or)
    ensures StarStage(m', ret, x, back, or, back, ret) && Node(m', or, BRANCH, NULL) && Agree(m, m', ret)
  {
    hide Code;
    hide Linked;
    hide Next;
    hide Leads;
    hide SimpleLoop;
    LinkedPrefix(m, ret, or, ret);
    NodeTied(m, m', ret, or, BRANCH, NULL);
    CodeAside(m, m', ret, or, ret + 3, x, back);
    NodeAside(m, m', ret, or, back, BACK, ret);
    NodeAside(m, m', ret, or, or, BRANCH, NULL);
  }

  lemma StarNothingAppended(m: seq<byte>, m': seq<byte>, ret: int, x: Rx, back: int, or: int, nothing: int)
    requires StarStage(m, ret, x, back, or, back, ret) && or == back + 3 && Node(m, or, BRANCH, NULL)
    requires nothing == |m| == or + 3 && nothing + 3 < 65536 && m' == m + Blank(NOTHING)
    ensures StarStage(m', ret, x, back, or, back, ret) && Node(m', or, BRANCH, NULL) && Node(m', nothing, NOTHING, NULL)
    ensures Ready(m', ret, or, nothing) && Agree(m, m', ret)
  {
    hide Code;
    hide Linked;
    hide Next;
    hide Leads;
    hide SimpleLoop;
    NodeKept(m, Blank(NOTHING), ret, BRANCH, or);
    CodeKept(m, Blank(NOTHING), ret + 3, x, back);
    NodeKept(m, Blank(NOTHING), back, BACK, ret);
    NodeKept(m, Blank(NOTHING), or, BRANCH, NULL);
    BlankNode(m, NOTHING);
    NodeReady(m', or, BRANCH, nothing);
    NodeLeads(m', ret, BRANCH, or, ret);
    ReadyOn(m', ret, ret, or, nothing);
  }

  lemma StarBuilt(m: seq<byte>, m': seq<byte>, ret: int, x: Rx, back: int, or: int, nothing: int)
    requires StarStage(m, ret, x, back, or, back, ret) && or == back + 3 && nothing == or + 3 &&
             nothing + 3 <= |m| && !IsSimple(x)
    requires Node(m, or, BRANCH, NULL) && Node(m, nothing, NOTHING, NULL) && Linkable(m, or, nothing)
    requires m' == Linked(m, or, nothing)
    ensures Code(m', ret, Star(x), NULL) && Agree(m, m', ret)
  {
    hide Node;
    hide IsSimple;
    hide Code;
    hide Linked;
    hide Next;
    hide Leads;
    hide SimpleLoop;
    LinkedPrefix(m, or, nothing, ret);
    NodeAside(m, m', or, nothing, ret, BRANCH, or);
    CodeAside(m, m', or, nothing, ret + 3, x, back);
    NodeAside(m, m', or, nothing, back, BACK, ret);
    NodeTied(m, m', or, nothing, BRANCH, NULL);
    NodeAside(m, m', or, nothing, nothing, NOTHING, NULL);
    StarFold(m', ret, x, NULL);
  }

  // ---- Complex x+: x(&|) ----

  ghost predicate PlusStage(m: seq<byte>, ret: int, x: Rx, q: int, xk: int, qk: int) {
    0 < ret && q == ret + Size(x) && q + 3 <= |m| < 65536 && Code(m, ret, x, xk) && Node(m, q, BRANCH, qk)
  }

  lemma PlusStageBounds(m: seq<byte>, ret: int, x: Rx, q: int)
    requires exists xk, qk :: PlusStage(m, ret, x, q, xk, qk)
    ensures 0 < ret && q == ret + Size(x)
  {
  }

  lemma PlusEitherAppended(c: seq<byte>, m: seq<byte>, ret: int, x: Rx, q: int, t: int)
    requires Code(c, ret, x, NULL) && ret + Size(x) == |c| == q && q + 3 < 65536 && t == Tail(ret, x)
    requires m == c + Blank(BRANCH)
    ensures PlusStage(m, ret, x, q, NULL, NULL) && Ready(m, ret, t, q) && Agree(c, m, ret)
  {
    hide Code;
    hide Linked;
    hide Next;
    hide Leads;
    hide SimpleLoop;
    CodeBounds(c, ret, x, NULL);
    CodeKept(c, Blank(BRANCH), ret, x, NULL);
    BlankNode(c, BRANCH);
    CodeReady(m, ret, x, t, q);
  }

  lemma PlusBodyTied(m: seq<byte>, m': seq<byte>, ret: int, x: Rx, q: int, t: int)
    requires PlusStage(m, ret, x, q, NULL, NULL) && t == Tail(ret, x) && Linkable(m, t, q)
    requires m' == Linked(m, t, q)
    ensures PlusStage(m', ret, x, q, q, NULL) && Agree(m, m', ret)
  {
    hide Code;
    hide Linked;
    hide Next;
    hide Leads;
    hide SimpleLoop;
    LinkedPrefix(m, t, q, ret);
    CodeTied(m, m', t, q, ret, x);
    NodeAside(m, m', t, q, q, BRANCH, NULL);
  }

  lemma PlusBackAppended(m: seq<byte>, m': seq<byte>, ret: int, x: Rx, q: int, back: int)
    requires PlusStage(m, ret, x, q, q, NULL) && back == |m| == q + 3 && back + 3 < 65536
    requires m' == m + Blank(BACK)
    ensures PlusStage(m', ret, x, q, q, NULL) && Node(m', back, BACK, NULL) && Ready(m', back, back, ret) &&
            Agree(m, m', ret)
  {
    hide Code;
    hide Linked;
    hide Next;
    hide Leads;
    hide SimpleLoop;
    CodeKept(m, Blank(BACK), ret, x, q);
    NodeKept(m, Blank(BACK), q, BRANCH, NULL);
    BlankNode(m, BACK);
    NodeReady(m', back, BACK, ret);
  }

  lemma PlusLoopTied(m: seq<byte>, m': seq<byte>, ret: int, x: Rx, q: int, back: int)
    requires PlusStage(m, ret, x, q, q, NULL) && back == q + 3 && Node(m, back, BACK, NULL) && Linkable(m, back, ret)
    requires m' == Linked(m, back, ret)
    ensures PlusStage(m', ret, x, q, q, NULL) && Node(m', back, BACK, ret) && Agree(m, m', ret)
  {
    hide Code;
    hide Linked;
    hide Next;
    hide Leads;
    hide SimpleLoop;
    LinkedPrefix(m, back, ret, ret);
    CodeAside(m, m', back, ret, ret, x, q);
    NodeAside(m, m', back, ret, q, BRANCH, NULL);
    NodeTied(m, m', back, ret, BACK, NULL);
  }

  lemma PlusOrAppended(m: seq<byte>, m': seq<byte>, ret: int, x: Rx, q: int, back: int, or: int)
    requires PlusStage(m, ret, x, q, q, NULL) && back == q + 3 && Node(m, back, BACK, ret)
    requires or == |m| == back + 3 && or + 3 < 65536 && m' == m + Blank(BRANCH)
    ensures PlusStage(m', ret, x, q, q, NULL) && Node(m', back, BACK, ret) && Node(m', or, BRANCH, NULL)
    ensures Ready(m', q, q, or) && Agree(m, m', ret)
  {
    hide Code;
    hide Linked;
    hide Next;
    hide Leads;
    hide SimpleLoop;
    CodeKept(m, Blank(BRANCH), ret, x, q);
    NodeKept(m, Blank(BRANCH), q, BRANCH, NULL);
    NodeKept(m, Blank(BRANCH), back, BACK, ret);
    BlankNode(m, BRANCH);
    NodeReady(m', q, BRANCH, or);
  }

  lemma PlusOrTied(m: seq<byte>, m': seq<byte>, ret: int, x: Rx, q: int, back: int, or: int)
    requires PlusStage(m, ret, x, q, q, NULL) && back == q + 3 && or == q + 6 && Linkable(m, q, or)
    requires Node(m, back, BACK, ret) && Node(m, or, BRANCH, NULL) && m' == Linked(m, q, or)
    ensures PlusStage(m', ret, x, q, q, or) && Node(m', back, BACK, ret) && Node(m', or, BRANCH, NULL) &&
            Agree(m, m', ret)
  {
    hide Code;
    hide Linked;
    hide Next;
    hide Leads;
    hide SimpleLoop;
    LinkedPrefix(m, q, or, ret);
    CodeAside(m, m', q, or, ret, x, q);
    NodeTied(m, m', q, or, BRANCH, NULL);
    NodeAside(m, m', q, or, back, BACK, ret);
    NodeAside(m, m', q, or, or, BRANCH, NULL);
  }

  lemma PlusNothingAppended(m: seq<byte>, m': seq<byte>, ret: int, x: Rx, q: int, back: int, or: int, nothing: int)
    requires PlusStage(m, ret, x, q, q, or) && back == q + 3 && or == q + 6 && nothing == |m| == q + 9 &&
             nothing + 3 < 65536
    requires Node(m, back, BACK, ret) && Node(m, or, BRANCH, NULL) && m' == m + Blank(NOTHING)
    ensures PlusStage(m', ret, x, q, q, or) && Node(m', back, BACK, ret) && Node(m', or, BRANCH, NULL) &&
            Node(m', nothing, NOTHING, NULL)
    ensures Ready(m', ret, or, nothing) && Agree(m, m', ret)
  {
    hide Code;
    hide Linked;
    hide Next;
    hide Leads;
    hide SimpleLoop;
    CodeKept(m, Blank(NOTHING), ret, x, q);
    NodeKept(m, Blank(NOTHING), q, BRANCH, or);
    NodeKept(m, Blank(NOTHING), back, BACK, ret);
    NodeKept(m, Blank(NOTHING), or, BRANCH, NULL);
    BlankNode(m, NOTHING);
    NodeReady(m', or, BRANCH, nothing);
    NodeLeads(m', q, BRANCH, or, q);
    ReadyOn(m', q, q, or, nothing);
    CodeLeads(m', ret, x, q);
    LeadsOn(m', ret, Tail(ret, x), or);
  }

  lemma PlusBuilt(m: seq<byte>, m': seq<byte>, ret: int, x: Rx, q: int, back: int, or: int, nothing: int)
    requires PlusStage(m, ret, x, q, q, or) && back == q + 3 && or == q + 6 && nothing == q + 9 &&
             nothing + 3 <= |m| && !IsSimple(x)
    requires Node(m, back, BACK, ret) && Node(m, or, BRANCH, NULL) && Node(m, nothing, NOTHING, NULL)
    requires Linkable(m, or, nothing) && m' == Linked(m, or, nothing)
    ensures Code(m', ret, Plus(x), NULL) && Agree(m, m', ret)
  {
    hide Node;
    hide IsSimple;
    hide Code;
    hide Linked;
    hide Next;
    hide Leads;
    hide SimpleLoop;
    LinkedPrefix(m, or, nothing, ret);
    CodeAside(m, m', or, nothing, ret, x, q);
    NodeAside(m, m', or, nothing, q, BRANCH, or);
    NodeAside(m, m', or, nothing, back, BACK, ret);
    NodeTied(m, m', or, nothing, BRANCH, NULL);
    NodeAside(m, m', or, nothing, nothing, NOTHING, NULL);
    PlusFold(m', ret, x, NULL);
  }

  // ---- x?: (x|) ----

  ghost predicate OptStage(m: seq<byte>, ret: int, x: Rx, or: int, first: int, ork: int) {
    0 < ret && or == ret + 3 + Size(x) && or + 3 <= |m| < 65536 &&
    Node(m, ret, BRANCH, first) && Code(m, ret + 3, x, NULL) && Node(m, or, BRANCH, ork)
  }

  lemma OptStageBounds(m: seq<byte>, ret: int, x: Rx, or: int)
    requires exists first, ork :: OptStage(m, ret, x, or, first, ork)
    ensures 0 < ret && or == ret + 3 + Size(x)
  {
  }

  lemma OptInserted(c: seq<byte>, m: seq<byte>, ret: int, x: Rx, or: int)
    requires Code(c, ret, x, NULL) && ret + Size(x) == |c| && or == |c| + 3 && or + 3 < 65536
    requires m == Inserted(c, ret, BRANCH) + Blank(BRANCH)
    ensures OptStage(m, ret, x, or, NULL, NULL) && Ready(m, ret, ret, or) && Agree(c, m, ret)
  {
    hide Code;
    hide Linked;
    hide Next;
    hide Leads;
    hide SimpleLoop;
    CodeBounds(c, ret, x, NULL);
    var c1 := Inserted(c, ret, BRANCH);
    InsertedPrefix(c, ret, BRANCH);
    CodeInserted(c, ret, BRANCH, x);
    NodeKept(c1, Blank(BRANCH), ret, BRANCH, NULL);
    CodeKept(c1, Blank(BRANCH), ret + 3, x, NULL);
    BlankNode(c1, BRANCH);
    NodeReady(m, ret, BRANCH, or);
  }

  lemma OptOrTied(m: seq<byte>, m': seq<byte>, ret: int, x: Rx, or: int)
    requires OptStage(m, ret, x, or, NULL, NULL) && Linkable(m, ret, or) && m' == Linked(m, ret, or)
    ensures OptStage(m', ret, x, or, or, NULL) && Agree(m, m', ret)
  {
    hide Code;
    hide Linked;
    hide Next;
    hide Leads;
    hide SimpleLoop;
    LinkedPrefix(m, ret, or, ret);
    NodeTied(m, m', ret, or, BRANCH, NULL);
    CodeAside(m, m', ret, or, ret + 3, x, NULL);
    NodeAside(m, m', ret, or, or, BRANCH, NULL);
  }

  lemma OptNothingAppended(m: seq<byte>, m': seq<byte>, ret: int, x: Rx, or: int, next: int)
    requires OptStage(m, ret, x, or, or, NULL) && next == |m| == or + 3 && next + 3 < 65536 && m' == m + Blank(NOTHING)
    ensures OptStage(m', ret, x, or, or, NULL) && Node(m', next, NOTHING, NULL) && Ready(m', ret, or, next) &&
            Agree(m, m', ret)
  {
    hide Code;
    hide Linked;
    hide Next;
    hide Leads;
    hide SimpleLoop;
    NodeKept(m, Blank(NOTHING), ret, BRANCH, or);
    CodeKept(m, Blank(NOTHING), ret + 3, x, NULL);
    NodeKept(m, Blank(NOTHING), or, BRANCH, NULL);
    BlankNode(m, NOTHING);
    NodeReady(m', or, BRANCH, next);
    NodeLeads(m', ret, BRANCH, or, ret);
    ReadyOn(m', ret, ret, or, next);
  }

  lemma OptNothingTied(m: seq<byte>, m': seq<byte>, ret: int, x: Rx, or: int, next: int, t: int)
    requires OptStage(m, ret, x, or, or, NULL) && next == or + 3 && Node(m, next, NOTHING, NULL) &&
             t == Tail(ret + 3, x)
    requires Linkable(m, or, next) && m' == Linked(m, or, next)
    ensures OptStage(m', ret, x, or, or, next) && Node(m', next, NOTHING, NULL) && Agree(m, m', ret)
    ensures m'[ret] == BRANCH && Ready(m', ret + 3, t, next)
  {
    hide Code;
    hide Linked;
    hide Next;
    hide Leads;
    hide SimpleLoop;
    LinkedPrefix(m, or, next, ret);
    NodeAside(m, m', or, next, ret, BRANCH, or);
    CodeAside(m, m', or, next, ret + 3, x, NULL);
    NodeTied(m, m', or, next, BRANCH, NULL);
    NodeAside(m, m', or, next, next, NOTHING, NULL);
    CodeReady(m', ret + 3, x, t, next);
  }

  lemma OptBuilt(m: seq<byte>, m': seq<byte>, ret: int, x: Rx, or: int, next: int, t: int)
    requires OptStage(m, ret, x, or, or, next) && next == or + 3 && Node(m, next, NOTHING, NULL) &&
             t == Tail(ret + 3, x)
    requires Linkable(m, t, next) && m' == Linked(m, t, next)
    ensures Code(m', ret, Opt(x), NULL) && Agree(m, m', ret)
  {
    hide Node;
    hide IsSimple;
    hide Code;
    hide Linked;
    hide Next;
    hide Leads;
    hide SimpleLoop;
    LinkedPrefix(m, t, next, ret);
    NodeAside(m, m', t, next, ret, BRANCH, or);
    CodeTied(m, m', t, next, ret + 3, x);
    NodeAside(m, m', t, next, or, BRANCH, next);
    NodeAside(m, m', t, next, next, NOTHING, NULL);
    OptFold(m', ret, x, NULL);
  }

  // ---- Simple x* and x+: one node in front of the operand ----

  lemma SimpleBuilt(c: seq<byte>, m: seq<byte>, ret: int, op: byte, x: Rx)
    requires Code(c, ret, x, NULL) && ret + Size(x) == |c| && IsSimple(x) && m == Inserted(c, ret, op)
    ensures SimpleLoop(m, ret, op, x, NULL) && |m| == |c| + 3 && Agree(c, m, ret)
  {
    CodeBounds(c, ret, x, NULL);
    InsertedPrefix(c, ret, op);
    CodeInserted(c, ret, op, x);
  }

  lemma StarFold(c: seq<byte>, ret: int, x: Rx, k: int)
    requires 0 < ret && ret + Size(Star(x)) <= |c|
    requires if IsSimple(x) then SimpleLoop(c, ret, STAR, x, k) else StarCode(c, ret, x, k)
    ensures Code(c, ret, Star(x), k)
  {
    hide StarCode;
    hide SimpleLoop;
  }

  lemma PlusFold(c: seq<byte>, ret: int, x: Rx, k: int)
    requires 0 < ret && ret + Size(Plus(x)) <= |c|
    requires if IsSimple(x) then SimpleLoop(c, ret, PLUS, x, k) else PlusCode(c, ret, x, k)
    ensures Code(c, ret, Plus(x), k)
  {
    hide PlusCode;
    hide SimpleLoop;
  }

  lemma OptFold(c: seq<byte>, ret: int, x: Rx, k: int)
    requires 0 < ret && ret + Size(Opt(x)) <= |c| && OptCode(c, ret, x, k)
    ensures Code(c, ret, Opt(x), k)
  {
    hide OptCode;
  }

  // ---- Concatenation: tying the last piece to the next ----

  lemma CatBuilt(c: seq<byte>, c': seq<byte>, p: int, a: Rx, b: Rx, q: int, t: int)
    requires q == p + Size(a) && q + Size(b) == |c| < 65536 && t == Tail(p, a)
    requires Code(c, p, a, NULL) && Code(c, q, b, NULL) && Linkable(c, t, q) && c' == Linked(c, t, q)
    ensures Code(c', p, Cat(a, b), NULL) && Code(c', q, b, NULL) && Agree(c, c', p)
  {
    hide Code;
    hide Linked;
    hide Next;
    hide Leads;
    CodeBounds(c, p, a, NULL);
    LinkedPrefix(c, t, q, p);
    CodeTied(c, c', t, q, p, a);
    CodeAside(c, c', t, q, q, b, NULL);
    CatFold(c', p, a, b, NULL);
  }

  lemma CatFold(c: seq<byte>, p: int, a: Rx, b: Rx, k: int)
    requires 0 < p && p + Size(a) + Size(b) <= |c| && Code(c, p, a, p + Size(a)) && Code(c, p + Size(a), b, k)
    ensures Code(c, p, Cat(a, b), k)
  {
    assert CatCode(c, p, a, b, k);
  }

  /** A branch under construction: its BRANCH node at ret, the pieces acc so
      far, of which the last one is at chain. */
  ghost predicate BranchSoFar(m: seq<byte>, ret: int, acc: Rx, chain: int, last: Rx) {
    Node(m, ret, BRANCH, NULL) && |m| < 65536 &&
    if acc == Empty then |m| == ret + 3
    else
      |m| == ret + 3 + Size(acc) == chain + Size(last) && Tail(chain, last) == Tail(ret + 3, acc) &&
      Code(m, ret + 3, acc, NULL) && Code(m, chain, last, NULL)
  }

  lemma BranchBegun(c: seq<byte>, m: seq<byte>, ret: int)
    requires 0 < |c| == ret && m == c + Blank(BRANCH) && |m| < 65536
    ensures BranchSoFar(m, ret, Empty, NULL, Empty) && c <= m
  {
    BlankNode(c, BRANCH);
  }

  lemma BranchEmpty(c: seq<byte>, m: seq<byte>, ret: int, chain: int, last: Rx)
    requires BranchSoFar(c, ret, Empty, chain, last) && m == c + Blank(NOTHING)
    ensures Node(m, ret, BRANCH, NULL) && Code(m, ret + 3, Empty, NULL) && c <= m
  {
    NodeKept(c, Blank(NOTHING), ret, BRANCH, NULL);
    BlankNode(c, NOTHING);
  }

  lemma BranchDone(m: seq<byte>, ret: int, acc: Rx, chain: int, last: Rx)
    requires BranchSoFar(m, ret, acc, chain, last) && acc != Empty
    ensures Node(m, ret, BRANCH, NULL) && Code(m, ret + 3, acc, NULL)
  {
    hide Code;
    hide Node;
  }

  lemma PieceFirst(c: seq<byte>, c1: seq<byte>, ret: int, chain: int, last: Rx, x: Rx, p: int)
    requires BranchSoFar(c, ret, Empty, chain, last) && c <= c1 && p == |c| && |c1| == p + Size(x) < 65536 && x != Empty
    requires Code(c1, p, x, NULL)
    ensures BranchSoFar(c1, ret, x, p, x) && Agree(c, c1, ret)
  {
    hide Code;
    hide Next;
    var s := c1[|c|..];
    assert c1 == c + s;
    NodeKept(c, s, ret, BRANCH, NULL);
  }

  lemma PieceReady(c: seq<byte>, c1: seq<byte>, ret: int, acc: Rx, chain: int, last: Rx, p: int, t: int)
    requires BranchSoFar(c, ret, acc, chain, last) && acc != Empty && c <= c1 && p == |c| && |c1| < 65536
    requires t == Tail(ret + 3, acc)
    ensures Ready(c1, chain, t, p) && Code(c1, ret + 3, acc, NULL) && Node(c1, ret, BRANCH, NULL)
    ensures p == ret + 3 + Size(acc) && Agree(c, c1, ret)
  {
    hide Code;
    hide Next;
    hide Ready;
    var s := c1[|c|..];
    assert c1 == c + s;
    NodeKept(c, s, ret, BRANCH, NULL);
    CodeKept(c, s, ret + 3, acc, NULL);
    CodeKept(c, s, chain, last, NULL);
    CodeReady(c1, chain, last, t, p);
  }

  lemma PieceTied(c1: seq<byte>, c2: seq<byte>, ret: int, acc: Rx, x: Rx, p: int, t: int)
    requires Code(c1, ret + 3, acc, NULL) && Node(c1, ret, BRANCH, NULL) && Code(c1, p, x, NULL)
    requires p == ret + 3 + Size(acc) && |c1| == p + Size(x) < 65536 && t == Tail(ret + 3, acc)
    requires Linkable(c1, t, p) && c2 == Linked(c1, t, p)
    ensures BranchSoFar(c2, ret, Cat(acc, x), p, x) && Agree(c1, c2, ret)
  {
    hide Code;
    hide Next;
    hide Linked;
    CatBuilt(c1, c2, ret + 3, acc, x, p, t);
    NodeAside(c1, c2, t, p, ret, BRANCH, NULL);
  }

  // ---- The size of a parse never shrinks as it goes on ----

  /** The code size of the pieces of a branch so far. */
  function SoFar(acc: Rx): nat {
    if acc == Empty then 0 else Size(acc)
  }

  lemma AppendSize(acc: Rx, x: Rx)
    requires x != Empty
    ensures SoFar(Append(acc, x)) == SoFar(acc) + Size(x) <= Size(Append(acc, x))
  {
  }

  lemma {:induction false} PiecesSize(e: seq<ch>, pos: nat, npar: nat, acc: Rx)
    requires pos <= |e| && IsSequence(acc) && ParsePieces(e, pos, npar, acc).Got?
    ensures Size(ParsePieces(e, pos, npar, acc).r) >= Size(acc)
    decreases |e| - pos
  {
    hide ParsePiece;
    if !EndsBranch(At(e, pos)) {
      var o := ParsePiece(e, pos, npar);
      AppendIsSequence(acc, o.r);
      PiecesSize(e, o.pos, o.npar, Append(acc, o.r));
    }
  }

  /** One more piece: what becomes of the parse, and of what has been found out
      about the pieces so far. */
  lemma PieceStep(e: seq<ch>, pos: nat, npar: nat, acc: Rx)
    requires pos <= |e| && IsSequence(acc) && !EndsBranch(At(e, pos))
    ensures ParsePiece(e, pos, npar).Fail? ==> ParsePieces(e, pos, npar, acc).Fail?
    ensures ParsePiece(e, pos, npar).Got? ==>
              var o := ParsePiece(e, pos, npar);
              var acc' := Append(acc, o.r);
              IsSequence(acc') && acc' != Empty && o.r != Empty &&
              ParsePieces(e, pos, npar, acc) == ParsePieces(e, o.pos, o.npar, acc') &&
              SoFar(acc') == SoFar(acc) + Size(o.r) &&
              HasWidth(acc') == (HasWidth(acc) || HasWidth(o.r)) &&
              SpStart(acc') == if acc == Empty then SpStart(o.r) else SpStart(acc)
    ensures ParsePiece(e, pos, npar).Got? && ParsePieces(e, pos, npar, acc).Got? ==>
              SoFar(Append(acc, ParsePiece(e, pos, npar).r)) <= Size(ParsePieces(e, pos, npar, acc).r)
  {
    hide ParsePiece;
    var o := ParsePiece(e, pos, npar);
    if o.Got? {
      AppendIsSequence(acc, o.r);
      AppendSize(acc, o.r);
      if ParsePieces(e, pos, npar, acc).Got? { PiecesSize(e, o.pos, o.npar, Append(acc, o.r)); }
    }
  }

  /** No more pieces. */
  lemma PiecesEnd(e: seq<ch>, pos: nat, npar: nat, acc: Rx)
    requires pos <= |e| && IsSequence(acc) && EndsBranch(At(e, pos))
    ensures ParsePieces(e, pos, npar, acc) == Got(acc, pos, npar)
    ensures Size(acc) == SoFar(acc) + if acc == Empty then 3 else 0
    ensures FlagsOf(Branch(acc)) == Flags(HasWidth(acc), false, SpStart(acc))
  {
  }

  lemma NoPieces()
    ensures IsSequence(Empty) && SoFar(Empty) == 0 && !HasWidth(Empty) && !SpStart(Empty)
  {
  }

  lemma {:induction false} AltSize(a: Rx, b: Rx)
    ensures Size(Branch(b)) == 3 + Size(b)
    ensures Size(Alt(a, Branch(b))) == Size(a) + 3 + Size(b)
  {
    assert Size(Branch(b)) == 3 + Size(b);
  }

  lemma {:induction false} AltsSize(e: seq<ch>, pos: nat, npar: nat, acc: Rx)
    requires pos <= |e| && IsChoice(acc) && ParseAlts(e, pos, npar, acc).Got?
    ensures Size(ParseAlts(e, pos, npar, acc).r) >= Size(acc)
    decreases |e| - pos
  {
    hide ParsePieces;
    if At(e, pos) == '|' as int {
      var o := ParsePieces(e, pos + 1, npar, Empty);
      AltsSize(e, o.pos, o.npar, Alt(acc, Branch(o.r)));
    }
  }

  // ---- Choices: tying the last branch to the next ----

  lemma ChoiceReady(m: seq<byte>, p: int, r: Rx, t: int, val: int)
    requires Choice(m, p, r, NULL, NULL, 0) && t == Tail(p, r) && p + Size(r) <= val < 65536
    ensures Ready(m, p, t, val)
  {
    hide Code;
    hide Choice;
    hide Next;
    ChoiceBounds(m, p, r, NULL, NULL, 0);
    ChoiceLeads(m, p, r, NULL, NULL, 0);
  }

  lemma AltBuilt(c: seq<byte>, c': seq<byte>, p: int, a: Rx, b: Rx, q: int, t: int)
    requires q == p + Size(a) && q + 3 + Size(b) == |c| < 65536 && t == Tail(p, a)
    requires Choice(c, p, a, NULL, NULL, 0) && Node(c, q, BRANCH, NULL) && Code(c, q + 3, b, NULL)
    requires Linkable(c, t, q) && c' == Linked(c, t, q)
    ensures Choice(c', p, Alt(a, Branch(b)), NULL, NULL, 0) && Agree(c, c', p)
  {
    hide Code;
    hide Linked;
    hide Next;
    hide Leads;
    hide Choice;
    ChoiceBounds(c, p, a, NULL, NULL, 0);
    LinkedPrefix(c, t, q, p);
    LinkedRelinks(c, t, q);
    ChoiceLinked(c, c', p, a, q, NULL, 0);
    NodeAside(c, c', t, q, q, BRANCH, NULL);
    CodeAside(c, c', t, q, q + 3, b, NULL);
    AltFold(c', p, a, b);
  }

  lemma AltFold(c: seq<byte>, p: int, a: Rx, b: Rx)
    requires 0 < p && p + Size(a) + 3 + Size(b) <= |c| && Choice(c, p, a, p + Size(a), NULL, 0)
    requires Node(c, p + Size(a), BRANCH, NULL) && Code(c, p + Size(a) + 3, b, NULL)
    ensures Choice(c, p, Alt(a, Branch(b)), NULL, NULL, 0)
  {
    assert Size(Alt(a, Branch(b))) == Size(a) + 3 + Size(b);
    assert AltCode(c, p, a, b, NULL, NULL, 0);
  }

  // ---- reg: hooking up the branches between an optional OPEN and its ender ----

  /** If there is an OPEN node, it sits right before p and links to next. */
  ghost predicate OpenAt(m: seq<byte>, open: int, op: int, p: int, next: int) {
    0 < p && (open == NULL || (open + 3 == p && 0 < open && Node(m, open, op, next)))
  }

  /** The branches so far: linked up, nothing after the last, no operand hooked. */
  ghost predicate Branches(m: seq<byte>, open: int, op: int, p: int, r: Rx) {
    OpenAt(m, open, op, p, p) && p + Size(r) <= |m| < 65536 && Choice(m, p, r, NULL, NULL, 0)
  }

  lemma OpenKept(c: seq<byte>, c': seq<byte>, open: int, op: int, p: int, next: int)
    requires OpenAt(c, open, op, p, next) && c <= c'
    ensures OpenAt(c', open, op, p, next)
  {
    if open != NULL {
      assert c' == c + c'[|c|..];
      NodeKept(c, c'[|c|..], open, op, next);
    }
  }

  lemma FirstBranch(c: seq<byte>, c': seq<byte>, open: int, op: byte, p: int, b: Rx)
    requires OpenAt(c, open, op, p, NULL) && op != BACK && p + 3 + Size(b) <= |c| < 65536
    requires Node(c, p, BRANCH, NULL) && Code(c, p + 3, b, NULL)
    ensures open != NULL ==> Ready(c, open, open, p)
    ensures open != NULL && c' == Linked(c, open, p) ==> Branches(c', open, op, p, Branch(b)) && Agree(c, c', open)
    ensures open == NULL && c' == c ==> Branches(c', open, op, p, Branch(b))
  {
    hide Code;
    hide Linked;
    hide Next;
    hide Leads;
    hide Ready;
    if open != NULL {
      NodeReady(c, open, op, p);
      if c' == Linked(c, open, p) {
        LinkedPrefix(c, open, p, open);
        NodeTied(c, c', open, p, op, NULL);
        NodeAside(c, c', open, p, p, BRANCH, NULL);
        CodeAside(c, c', open, p, p + 3, b, NULL);
      }
    }
  }

  /** From the OPEN node or the first branch, the chain leads to the last branch. */
  lemma BranchesReady(m: seq<byte>, open: int, op: byte, p: int, r: Rx, t: int, val: int)
    requires Branches(m, open, op, p, r) && t == Tail(p, r) && p + Size(r) <= val < 65536
    ensures Ready(m, if open == NULL then p else open, t, val)
  {
    hide Code;
    hide Choice;
    hide Linked;
    hide Linkable;
    ChoiceReady(m, p, r, t, val);
    if open != NULL {
      assert Leads(m, open, open);
      LeadsOn(m, open, open, t);
    }
  }

  lemma BranchesKept(c: seq<byte>, c': seq<byte>, open: int, op: int, p: int, r: Rx)
    requires Branches(c, open, op, p, r) && c <= c' && |c'| < 65536
    ensures Branches(c', open, op, p, r)
  {
    hide Code;
    hide Choice;
    hide Linked;
    hide Next;
    var s := c'[|c|..];
    assert c' == c + s;
    ChoiceKept(c, s, p, r, NULL, NULL, 0);
    if open != NULL {
      NodeKept(c, s, open, op, p);
    }
  }

  lemma NextBranch(c: seq<byte>, c': seq<byte>, open: int, op: int, p: int, a: Rx, b: Rx, q: int, t: int)
    requires Branches(c, open, op, p, a) && q == p + Size(a) && q + 3 + Size(b) == |c| && t == Tail(p, a)
    requires Node(c, q, BRANCH, NULL) && Code(c, q + 3, b, NULL)
    requires Linkable(c, t, q) && c' == Linked(c, t, q)
    ensures Branches(c', open, op, p, Alt(a, Branch(b))) && Agree(c, c', p)
  {
    hide Code;
    hide Choice;
    hide Linked;
    hide Next;
    hide Leads;
    hide Ready;
    assert Size(Alt(a, Branch(b))) == Size(a) + 3 + Size(b);
    AltBuilt(c, c', p, a, b, q, t);
    if open != NULL {
      NodeAside(c, c', t, q, open, op, p);
    }
  }

  /** The branches linked to the ender, the first n operands hooked to it. */
  ghost predicate Hooked(m: seq<byte>, open: int, op: int, p: int, r: Rx, ender: int, eop: int, n: int) {
    OpenAt(m, open, op, p, p) && ender == p + Size(r) && ender + 3 <= |m| < 65536 &&
    Choice(m, p, r, ender, ender, n) && Node(m, ender, eop, NULL)
  }

  lemma Unhooked(m: seq<byte>, p: int, r: Rx, next: int, t1: int, t2: int)
    requires Choice(m, p, r, next, t1, 0)
    ensures Choice(m, p, r, next, t2, 0)
    decreases r
  {
    hide Code;
    hide Next;
    match r
    case Branch(b) =>
    case Alt(a, Branch(b)) =>
      assert AltCode(m, p, a, b, next, t1, 0);
      Unhooked(m, p, a, p + Size(a), t1, t2);
  }

  lemma OpenBegun(c: seq<byte>, m: seq<byte>, open: int, op: byte, p: int, paren: bool)
    requires 0 < |c| && p == |m| && if paren then open == |c| && m == c + Blank(op) else open == NULL && m == c
    ensures OpenAt(m, open, op, p, NULL) && c <= m
  {
  }

  lemma EnderReady(c: seq<byte>, m: seq<byte>, open: int, op: byte, p: int, r: Rx, ender: int, eop: byte, t: int)
    requires Branches(c, open, op, p, r) && ender == |c| == p + Size(r) && m == c + Blank(eop) && |m| < 65536 &&
             t == Tail(p, r)
    requires op != BACK
    ensures Branches(m, open, op, p, r) && Node(m, ender, eop, NULL) && Agree(c, m, p)
    ensures Ready(m, if open == NULL then p else open, t, ender)
  {
    hide Code;
    hide Choice;
    hide Next;
    hide Ready;
    BlankNode(c, eop);
    BranchesKept(c, m, open, op, p, r);
    BranchesReady(m, open, op, p, r, t, ender);
  }

  lemma EnderLinked(c: seq<byte>, c': seq<byte>, open: int, op: int, p: int, r: Rx, ender: int, eop: int, t: int)
    requires Branches(c, open, op, p, r) && ender == p + Size(r) && ender + 3 <= |c| && Node(c, ender, eop, NULL)
    requires t == Tail(p, r) && Linkable(c, t, ender) && c' == Linked(c, t, ender)
    ensures Hooked(c', open, op, p, r, ender, eop, 0) && Agree(c, c', p)
  {
    hide Code;
    hide Choice;
    hide Linked;
    hide Next;
    hide Leads;
    hide Ready;
    ChoiceBounds(c, p, r, NULL, NULL, 0);
    LinkedPrefix(c, t, ender, p);
    LinkedRelinks(c, t, ender);
    ChoiceLinked(c, c', p, r, ender, NULL, 0);
    Unhooked(c', p, r, ender, NULL, ender);
    NodeAside(c, c', t, ender, ender, eop, NULL);
    if open != NULL {
      NodeAside(c, c', t, ender, open, op, p);
    }
  }

  /** The n-th branch of a partly hooked choice. */
  lemma HookReady(m: seq<byte>, open: int, op: int, p: int, r: Rx, ender: int, eop: int, n: nat, br: int, t: int)
    requires Hooked(m, open, op, p, r, ender, eop, n) && n < Count(r) && br == NthAt(p, r, n) &&
             t == Tail(br + 3, Nth(r, n))
    ensures p <= br && br + 6 <= ender && m[br] == BRANCH && Ready(m, br + 3, t, ender)
  {
    hide Code;
    hide Choice;
    hide Ready;
    hide Next;
    ChoiceNth(m, p, r, ender, ender, n, n);
    CodeReady(m, br + 3, Nth(r, n), t, ender);
  }

  lemma HookStep(m: seq<byte>, m': seq<byte>, open: int, op: int, p: int, r: Rx, ender: int, eop: int, n: nat,
                 br: int, t: int)
    requires Hooked(m, open, op, p, r, ender, eop, n) && n < Count(r) && br == NthAt(p, r, n) &&
             t == Tail(br + 3, Nth(r, n))
    requires Linkable(m, t, ender) && m' == Linked(m, t, ender)
    ensures Hooked(m', open, op, p, r, ender, eop, n + 1) && Agree(m, m', p)
  {
    hide Code;
    hide Choice;
    hide Linked;
    hide Next;
    hide Leads;
    hide Ready;
    hide Nth;
    hide NthAt;
    NthInside(m, p, r, ender, ender, n, n, t);
    LinkedPrefix(m, t, ender, p);
    LinkedRelinks(m, t, ender);
    ChoiceHooked(m, m', p, r, ender, ender, n);
    NodeAside(m, m', t, ender, ender, eop, NULL);
    if open != NULL {
      NodeAside(m, m', t, ender, open, op, p);
    }
  }

  /** From the n-th branch the chain goes on to the next one, or to the ender. */
  lemma HookNext(m: seq<byte>, open: int, op: int, p: int, r: Rx, ender: int, eop: int, n: nat, br: int)
    requires Hooked(m, open, op, p, r, ender, eop, n + 1) && n < Count(r) && br == NthAt(p, r, n)
    ensures 0 < br && br + 3 <= |m| && Next(m, br) == if n + 1 < Count(r) then NthAt(p, r, n + 1) else ender
    ensures br < Next(m, br) <= ender
  {
    hide Code;
    hide Choice;
    hide Next;
    ChoiceNth(m, p, r, ender, ender, n + 1, n);
    if n + 1 < Count(r) {
      ChoiceNth(m, p, r, ender, ender, n + 1, n + 1);
    }
  }

  lemma FirstAt(m: seq<byte>, open: int, op: int, p: int, r: Rx, ender: int, eop: int)
    requires Hooked(m, open, op, p, r, ender, eop, 0)
    ensures NthAt(p, r, 0) == p < ender
  {
    hide Code;
    hide Choice;
    hide Next;
    ChoiceNth(m, p, r, ender, ender, 0, 0);
  }

  /** Where the hooking loop stands: at OPEN, at the n-th branch, at the ender,
      or past it. */
  ghost predicate HookAt(br: int, open: int, p: int, r: Rx, ender: int, n: nat) {
    || (br == NULL && n == Count(r))
    || (br == ender && n == Count(r))
    || (br == open && 0 < br < p && n == 0)
    || (n < Count(r) && br == NthAt(p, r, n) && br != ender && p <= br)
  }

  lemma HookStart(m: seq<byte>, open: int, op: int, p: int, r: Rx, ender: int, eop: int, ret: int)
    requires Hooked(m, open, op, p, r, ender, eop, 0) && ret == if open == NULL then p else open
    ensures HookAt(ret, open, p, r, ender, 0) && Agree(m, m, p) && 0 < ret < |m|
  {
    hide Code;
    hide Choice;
    FirstAt(m, open, op, p, r, ender, eop);
  }

  lemma HookEnd(m: seq<byte>, open: int, op: int, p: int, r: Rx, ender: int, eop: int, n: nat)
    requires Hooked(m, open, op, p, r, ender, eop, n) && HookAt(NULL, open, p, r, ender, n)
    ensures Hooked(m, open, op, p, r, ender, eop, Count(r))
  {
    hide Code;
    hide Choice;
  }

  lemma NextPrefix(m: seq<byte>, c: seq<byte>, p: int)
    requires c <= m && 0 <= p && p + 3 <= |c|
    ensures Next(m, p) == Next(c, p)
  {
  }

  /** The hooking loop may touch what br points at ... */
  lemma HookSafe(m: seq<byte>, open: int, op: int, p: int, r: Rx, ender: int, eop: int, n: nat, br: int, t: int)
    requires Hooked(m, open, op, p, r, ender, eop, n) && HookAt(br, open, p, r, ender, n) && br != NULL
    requires op != BRANCH && eop != BRANCH && t == if n < Count(r) then Tail(br + 3, Nth(r, n)) else 0
    ensures 0 < br && br + 3 <= |m|
    ensures m[br] == BRANCH <==> br != open && br != ender
    ensures m[br] == BRANCH ==> n < Count(r) && br == NthAt(p, r, n) && Ready(m, br + 3, t, ender)
  {
    hide Code;
    hide Choice;
    hide Next;
    hide Ready;
    if n < Count(r) && br == NthAt(p, r, n) && br != ender && p <= br {
      HookReady(m, open, op, p, r, ender, eop, n, br, t);
    }
  }

  /** ... and then moves on. */
  lemma HookAdvance(m: seq<byte>, m': seq<byte>, open: int, op: int, p: int, r: Rx, ender: int, eop: int, n: nat,
                    br: int, t: int)
    requires Hooked(m, open, op, p, r, ender, eop, n) && HookAt(br, open, p, r, ender, n) && br != NULL
    requires op != BRANCH && eop != BRANCH && t == if n < Count(r) then Tail(br + 3, Nth(r, n)) else 0
    requires 0 < br && br + 3 <= |m| && m' == if m[br] == BRANCH then Linked(m, t, ender) else m
    ensures br + 3 <= |m'| && Agree(m, m', p)
    ensures var n' := if br == open || br == ender then n else n + 1;
            n' <= Count(r) && Hooked(m', open, op, p, r, ender, eop, n') && HookAt(Next(m', br), open, p, r, ender, n')
    ensures Next(m', br) == NULL || br < Next(m', br) < |m'|
  {
    hide Code;
    hide Choice;
    hide Linked;
    hide Agree;
    hide Leads;
    HookSafe(m, open, op, p, r, ender, eop, n, br, t);
    AgreeSelf(m, p);
    if br == ender {
    } else if br == open {
      FirstAt(m, open, op, p, r, ender, eop);
    } else {
      HookStep(m, m', open, op, p, r, ender, eop, n, br, t);
      HookNext(m', open, op, p, r, ender, eop, n, br);
      if n + 1 < Count(r) {
        ChoiceNth(m', p, r, ender, ender, n + 1, n + 1);
      }
    }
  }

  lemma AgreeSelf(m: seq<byte>, p: int)
    requires 0 <= p <= |m|
    ensures Agree(m, m, p)
  {
  }

  /** A fully hooked choice between OPEN and CLOSE is the code of a group. */
  lemma GroupBuilt(m: seq<byte>, open: int, no: int, p: int, r: Rx, ender: int)
    requires Hooked(m, open, OPEN + no, p, r, ender, CLOSE + no, Count(r)) && open != NULL && 1 <= no <= 9
    ensures Code(m, open, Group(no, r), NULL)
  {
    hide Choice;
    hide Next;
    assert GroupCode(m, open, no, r, NULL);
  }

  lemma AgreeLess(a: seq<byte>, b: seq<byte>, p: int, q: int)
    requires Agree(a, b, p) && 0 <= q <= p
    ensures Agree(a, b, q)
  {
    assert a[..q] == a[..p][..q];
    assert b[..q] == b[..p][..q];
  }
}
