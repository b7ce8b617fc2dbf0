/** regcomp: a recursive-descent compiler run twice, first only to count bytes
    (regcode is DUMMY and nothing is stored) and then to emit them. */
module RegexCompiler {
  import opened CTypes
  import opened RegexLanguage
  import opened RegexGrammar
  import opened RegexCode
  import opened RegexBuild

  // The address that stands for "code generation is off".
  const DUMMY: int := -2

  class Compiler {
    const exp: seq<ch>           // the pattern
    var regparse: nat            // how far the pattern has been read
    var regnpar: nat             // number of the next group
    var regcode: int             // where the next byte goes, or DUMMY
    var regsize: nat             // bytes counted
    var program: array<byte>     // where the code goes

    constructor (exp: seq<ch>)
      ensures this.exp == exp && Valid() && regparse == 0 && regnpar == 1 && regsize == 0 && regcode == DUMMY &&
              fresh(program)
    {
      this.exp := exp;
      regparse, regnpar, regsize, regcode := 0, 1, 0, DUMMY;
      program := new byte[0];
    }

    ghost predicate Valid()
      reads `regparse, `regnpar, `regcode, `program
    {
      regparse <= |exp| && 1 <= regnpar && program.Length < 65536 && (regcode == DUMMY || 0 < regcode <= program.Length)
    }

    predicate Emitting()
      reads `regcode
    {
      regcode != DUMMY
    }

    /** There is room for n more bytes, if bytes are being emitted at all. */
    predicate Room(n: nat)
      reads `regcode, `program
    {
      Emitting() ==> regcode + n <= program.Length
    }

    /** The code emitted so far. */
    ghost function Out(): seq<byte>
      reads `regcode, `program, program
    {
      if 0 <= regcode <= program.Length then program[..regcode] else []
    }

    lemma OutSize()
      requires Valid()
      ensures Emitting() ==> |Out()| == regcode && 0 < regcode
    {
    }

    /** Bytes accounted for so far: counted, or emitted. */
    ghost function Bytes(): int
      reads `regcode, `regsize
    {
      if Emitting() then regcode else regsize
    }

    method RegNext(p: int) returns (q: int)
      requires p == DUMMY || 0 <= p <= program.Length - 3
      ensures q == if p == DUMMY then NULL else Next(program[..], p)
    {
      if p == DUMMY {
        return NULL;
      }
      return NextIn(program, p);
    }

    /** Emit an opcode and a null link. */
    method RegNode(op: byte) returns (ret: int)
      requires Valid() && Room(3)
      modifies `regcode, `regsize, program
      ensures Valid() && ret == old(regcode) && Emitting() == old(Emitting()) && Bytes() == old(Bytes()) + 3
      ensures Emitting() ==> Out() == old(Out()) + Blank(op)
    {
      ret := regcode;
      if ret == DUMMY {
        regsize := regsize + 3;
        return;
      }
      var ptr := ret;
      program[ptr] := op;
      ptr := ptr + 1;
      program[ptr] := 0;
      ptr := ptr + 1;
      program[ptr] := 0;
      ptr := ptr + 1;
      regcode := ptr;
    }

    /** Emit a byte. */
    method RegC(b: byte)
      requires regparse <= |exp| && 1 <= regnpar && program.Length < 65536 && Room(1) && (Emitting() ==> 0 <= regcode)
      modifies `regcode, `regsize, program
      ensures Valid() && Emitting() == old(Emitting()) && Bytes() == old(Bytes()) + 1
      ensures Emitting() ==> Out() == old(Out()) + [b]
    {
      if regcode != DUMMY {
        program[regcode] := b;
        regcode := regcode + 1;
      } else {
        regsize := regsize + 1;
      }
    }

    /** Insert a node in front of the operand already emitted at opnd, which
        moves up as it is. */
    method RegInsert(op: byte, opnd: int)
      requires Valid() && Room(3)
      requires Emitting() ==> 0 < opnd <= regcode
      modifies `regcode, `regsize, program
      ensures Valid() && Emitting() == old(Emitting()) && Bytes() == old(Bytes()) + 3
      ensures Emitting() ==> Out() == Inserted(old(Out()), opnd, op)
    {
      if regcode == DUMMY {
        regsize := regsize + 3;
        return;
      }
      ghost var c := Out();
      MoveUp(opnd);
      var place := opnd;
      program[place] := op;
      place := place + 1;
      program[place] := 0;
      place := place + 1;
      program[place] := 0;
      assert program[..opnd] == c[..opnd] && program[opnd..opnd + 3] == Blank(op);
      assert Out() == program[..opnd] + program[opnd..opnd + 3] + program[opnd + 3..regcode];
    }

    /** Move the code from opnd on up by three bytes, last byte first. */
    method MoveUp(opnd: int)
      requires Valid() && Emitting() && Room(3) && 0 < opnd <= regcode
      modifies `regcode, program
      ensures regcode == old(regcode) + 3
      ensures program[..opnd] == old(program[..opnd]) && program[opnd + 3..regcode] == old(program[opnd..regcode])
    {
      ghost var c := Out();
      var src := regcode;
      regcode := regcode + 3;
      var dst := regcode;
      while src > opnd
        invariant opnd <= src <= |c| && dst == src + 3 && regcode == |c| + 3
        invariant forall i :: 0 <= i < src ==> program[i] == c[i]
        invariant forall i :: dst <= i < regcode ==> program[i] == c[i - 3]
      {
        dst := dst - 1;
        src := src - 1;
        program[dst] := program[src];
      }
    }

    /** Set the link at the end of the chain that starts at p; t is that end. */
    method RegTail(p: int, val: int, ghost t: int)
      requires Valid() && (Emitting() <==> p != DUMMY)
      requires Emitting() ==> Ready(Out(), p, t, val)
      modifies program
      ensures Emitting() ==> Out() == Linked(old(Out()), t, val)
    {
      if p == DUMMY {
        return;
      }
      hide Leads;
      hide Linked;
      hide Next;
      ghost var c := Out();
      var scan := p;
      LeadsStep(c, scan, t);
      while true
        invariant Out() == c && Leads(c, scan, t) && 0 < scan <= t
        decreases t - scan
      {
        NextPrefix(program[..], c, scan);
        LeadsStep(c, scan, t);
        var temp := RegNext(scan);
        if temp == NULL {
          break;
        }
        scan := temp;
        LeadsStep(c, scan, t);
      }
      SetLink(scan, val);
    }

    /** Store the link of the node at scan. */
    method SetLink(scan: int, val: int)
      requires Valid() && Emitting() && Linkable(Out(), scan, val)
      modifies program
      ensures Out() == Linked(old(Out()), scan, val)
    {
      ghost var c := Out();
      assert program[scan] == c[scan];
      var offset: int;
      if program[scan] == BACK {
        offset := scan - val;
      } else {
        offset := val - scan;
      }
      program[scan + 1] := offset / 256;
      program[scan + 2] := offset % 256;
      assert Out() == Linked(c, scan, val);
    }

    /** RegTail on the operand of p; no-op if p has none. */
    method RegOptail(p: int, val: int, ghost t: int)
      requires Valid() && (Emitting() <==> p != DUMMY)
      requires p != DUMMY && p != NULL ==> 0 < p < regcode
      requires p != DUMMY && p != NULL && Out()[p] == BRANCH ==> Ready(Out(), p + 3, t, val)
      modifies program
      ensures Emitting() && p != NULL ==>
                Out() == if old(Out())[p] == BRANCH then Linked(old(Out()), t, val) else old(Out())
      ensures p == NULL ==> Out() == old(Out())
    {
      if p == NULL || p == DUMMY || program[p] != BRANCH {
        return;
      }
      RegTail(p + 3, val, t);
    }

    // ---- regpiece: the code for a repeated operand ----

    /** The code of x, unlinked, is the last thing emitted, at ret. */
    ghost predicate JustEmitted(ret: int, x: Rx)
      requires Valid()
      reads this, program
    {
      if Emitting() then 0 < ret && ret + Size(x) == regcode && Code(Out(), ret, x, NULL) else ret == DUMMY
    }

    /** x* as a choice: x and back to the choice, or nothing. */
    method EmitStar(ret: int, ghost x: Rx)
      requires Valid() && Room(12) && JustEmitted(ret, x) && !IsSimple(x)
      modifies `regcode, `regsize, program
      ensures Valid() && Emitting() == old(Emitting()) && Bytes() == old(Bytes()) + 12
      ensures JustEmitted(ret, Star(x)) && (Emitting() ==> Agree(old(Out()), Out(), ret))
    {
      hide Code;
      hide StarStage;
      hide Agree;
      ghost var c := Out();
      ghost var back := EmitStarLoop(ret, x);
      ghost var c1 := Out();
      EmitStarExit(ret, x, back);
      if Emitting() { AgreeTrans(c, c1, Out(), ret); }
    }

    method EmitStarLoop(ret: int, ghost x: Rx) returns (ghost back: int)
      requires Valid() && Room(12) && JustEmitted(ret, x)
      modifies `regcode, `regsize, program
      ensures Valid() && Emitting() == old(Emitting()) && Bytes() == old(Bytes()) + 6
      ensures Emitting() ==>
                regcode == back + 3 && StarStage(Out(), ret, x, back, NULL, back, ret) &&
                Agree(old(Out()), Out(), ret)
    {
      hide Code;
      hide Linked;
      hide Linkable;
      hide StarStage;
      hide Node;
      hide Inserted;
      hide Agree;
      ghost var on, c, t := Emitting(), Out(), Tail(ret + 3, x);
      RegInsert(BRANCH, ret);                 // one branch: x
      var loop := RegNode(BACK);
      back := loop;
      ghost var c1 := Out();
      if on { StarInserted(c, c1, ret, x, back, t); }
      RegOptail(ret, loop, t);                // x leads to BACK
      ghost var c2 := Out();
      if on { StarBodyTied(c1, c2, ret, x, back, t); AgreeTrans(c, c1, c2, ret); }
      RegOptail(ret, ret, back);              // and BACK to the choice
      if on { StarLoopTied(c2, Out(), ret, x, back); AgreeTrans(c, c2, Out(), ret); }
    }

    method EmitStarExit(ret: int, ghost x: Rx, ghost back: int)
      requires Valid() && Room(6) && (Emitting() <==> ret != DUMMY) && !IsSimple(x)
      requires Emitting() ==> regcode == back + 3 && StarStage(Out(), ret, x, back, NULL, back, ret)
      modifies `regcode, `regsize, program
      ensures Valid() && Emitting() == old(Emitting()) && Bytes() == old(Bytes()) + 6
      ensures JustEmitted(ret, Star(x)) && (Emitting() ==> Agree(old(Out()), Out(), ret))
    {
      hide Code;
      hide Linked;
      hide Linkable;
      hide StarStage;
      hide Node;
      hide Inserted;
      hide Agree;
      ghost var on, c3 := Emitting(), Out();
      var or := RegNode(BRANCH);
      ghost var c4 := Out();
      if on { StarStageBounds(c3, ret, x, back); StarOrAppended(c3, c4, ret, x, back, or); }
      RegTail(ret, or, ret);                  // the other branch
      ghost var c5 := Out();
      if on { StarOrTied(c4, c5, ret, x, back, or); AgreeTrans(c3, c4, c5, ret); }
      var nothing := RegNode(NOTHING);
      ghost var c6 := Out();
      if on { StarNothingAppended(c5, c6, ret, x, back, or, nothing); AgreeTrans(c3, c5, c6, ret); }
      RegTail(ret, nothing, or);              // that matches nothing
      if on { StarBuilt(c6, Out(), ret, x, back, or, nothing); AgreeTrans(c3, c6, Out(), ret); }
    }

    /** x+ as x and then a choice: back to x, or nothing. */
    method EmitPlus(ret: int, ghost x: Rx)
      requires Valid() && Room(12) && JustEmitted(ret, x) && !IsSimple(x)
      modifies `regcode, `regsize, program
      ensures Valid() && Emitting() == old(Emitting()) && Bytes() == old(Bytes()) + 12
      ensures JustEmitted(ret, Plus(x)) && (Emitting() ==> Agree(old(Out()), Out(), ret))
    {
      hide Code;
      hide PlusStage;
      hide Agree;
      hide Node;
      ghost var c := Out();
      var next, back := EmitPlusLoop(ret, x);
      ghost var c1 := Out();
      EmitPlusExit(ret, x, next, back);
      if Emitting() { AgreeTrans(c, c1, Out(), ret); }
    }

    method EmitPlusLoop(ret: int, ghost x: Rx) returns (next: int, back: int)
      requires Valid() && Room(12) && JustEmitted(ret, x)
      modifies `regcode, `regsize, program
      ensures Valid() && Emitting() == old(Emitting()) && Bytes() == old(Bytes()) + 6 && (Emitting() <==> next != DUMMY)
      ensures Emitting() ==> PlusStage(Out(), ret, x, next, next, NULL) && Node(Out(), back, BACK, ret)
      ensures Emitting() ==> regcode == back + 3 == next + 6 && Agree(old(Out()), Out(), ret)
    {
      hide Code;
      hide Linked;
      hide Linkable;
      hide PlusStage;
      hide Node;
      hide Inserted;
      hide Agree;
      ghost var on, c, t := Emitting(), Out(), Tail(ret, x);
      next := RegNode(BRANCH);                // one branch
      ghost var c1 := Out();
      if on { PlusEitherAppended(c, c1, ret, x, next, t); }
      RegTail(ret, next, t);
      ghost var c2 := Out();
      if on { PlusBodyTied(c1, c2, ret, x, next, t); AgreeTrans(c, c1, c2, ret); }
      back := RegNode(BACK);
      ghost var c3 := Out();
      if on { PlusBackAppended(c2, c3, ret, x, next, back); AgreeTrans(c, c2, c3, ret); }
      RegTail(back, ret, back);               // once more x
      if on { PlusLoopTied(c3, Out(), ret, x, next, back); AgreeTrans(c, c3, Out(), ret); }
    }

    method EmitPlusExit(ret: int, ghost x: Rx, next: int, ghost back: int)
      requires Valid() && Room(6) && !IsSimple(x) && (Emitting() <==> next != DUMMY) && (Emitting() <==> ret != DUMMY)
      requires Emitting() ==> PlusStage(Out(), ret, x, next, next, NULL) && Node(Out(), back, BACK, ret)
      requires Emitting() ==> regcode == back + 3 == next + 6
      modifies `regcode, `regsize, program
      ensures Valid() && Emitting() == old(Emitting()) && Bytes() == old(Bytes()) + 6
      ensures JustEmitted(ret, Plus(x)) && (Emitting() ==> Agree(old(Out()), Out(), ret))
    {
      hide Code;
      hide Linked;
      hide Linkable;
      hide PlusStage;
      hide Node;
      hide Inserted;
      hide Agree;
      ghost var on, c4 := Emitting(), Out();
      var or := RegNode(BRANCH);
      ghost var c5 := Out();
      if on { PlusStageBounds(c4, ret, x, next); PlusOrAppended(c4, c5, ret, x, next, back, or); }
      RegTail(next, or, next);                // the other branch
      ghost var c6 := Out();
      if on { PlusOrTied(c5, c6, ret, x, next, back, or); AgreeTrans(c4, c5, c6, ret); }
      var nothing := RegNode(NOTHING);
      ghost var c7 := Out();
      if on { PlusNothingAppended(c6, c7, ret, x, next, back, or, nothing); AgreeTrans(c4, c6, c7, ret); }
      RegTail(ret, nothing, or);              // that matches nothing
      if on { PlusBuilt(c7, Out(), ret, x, next, back, or, nothing); AgreeTrans(c4, c7, Out(), ret); }
    }

    /** x? as a choice: x, or nothing. */
    method EmitOpt(ret: int, ghost x: Rx)
      requires Valid() && Room(9) && JustEmitted(ret, x)
      modifies `regcode, `regsize, program
      ensures Valid() && Emitting() == old(Emitting()) && Bytes() == old(Bytes()) + 9
      ensures JustEmitted(ret, Opt(x)) && (Emitting() ==> Agree(old(Out()), Out(), ret))
    {
      hide Code;
      hide OptStage;
      hide Agree;
      ghost var c := Out();
      var or := EmitOptOr(ret, x);
      ghost var c1 := Out();
      EmitOptExit(ret, x, or);
      if Emitting() { AgreeTrans(c, c1, Out(), ret); }
    }

    method EmitOptOr(ret: int, ghost x: Rx) returns (or: int)
      requires Valid() && Room(9) && JustEmitted(ret, x)
      modifies `regcode, `regsize, program
      ensures Valid() && Emitting() == old(Emitting()) && Bytes() == old(Bytes()) + 6
      ensures Emitting() ==> regcode == or + 3 && OptStage(Out(), ret, x, or, or, NULL) && Agree(old(Out()), Out(), ret)
    {
      hide Code;
      hide Linked;
      hide Linkable;
      hide OptStage;
      hide Node;
      hide Inserted;
      hide Agree;
      ghost var on, c := Emitting(), Out();
      RegInsert(BRANCH, ret);                 // one branch: x
      or := RegNode(BRANCH);
      ghost var c1 := Out();
      if on { OptInserted(c, c1, ret, x, or); }
      RegTail(ret, or, ret);                  // the other branch
      if on { OptOrTied(c1, Out(), ret, x, or); AgreeTrans(c, c1, Out(), ret); }
    }

    method EmitOptExit(ret: int, ghost x: Rx, ghost or: int)
      requires Valid() && Room(3) && (Emitting() <==> ret != DUMMY)
      requires Emitting() ==> regcode == or + 3 && OptStage(Out(), ret, x, or, or, NULL)
      modifies `regcode, `regsize, program
      ensures Valid() && Emitting() == old(Emitting()) && Bytes() == old(Bytes()) + 3
      ensures JustEmitted(ret, Opt(x)) && (Emitting() ==> Agree(old(Out()), Out(), ret))
    {
      hide Code;
      hide Linked;
      hide Linkable;
      hide OptStage;
      hide Node;
      hide Inserted;
      hide Agree;
      ghost var on, c2, t := Emitting(), Out(), Tail(ret + 3, x);
      var next := RegNode(NOTHING);           // that matches nothing
      ghost var c3 := Out();
      if on { OptStageBounds(c2, ret, x, or); OptNothingAppended(c2, c3, ret, x, or, next); }
      RegTail(ret, next, or);
      ghost var c4 := Out();
      if on { OptNothingTied(c3, c4, ret, x, or, next, t); AgreeTrans(c2, c3, c4, ret); }
      RegOptail(ret, next, t);
      if on { OptBuilt(c4, Out(), ret, x, or, next, t); AgreeTrans(c2, c4, Out(), ret); }
    }

    /** Emit a simple x* or x+: one node in front of the operand. */
    method EmitSimple(op: byte, ret: int, ghost x: Rx)
      requires Valid() && Room(3) && JustEmitted(ret, x) && IsSimple(x) && (op == STAR || op == PLUS)
      modifies `regcode, `regsize, program
      ensures Valid() && Emitting() == old(Emitting()) && Bytes() == old(Bytes()) + 3
      ensures JustEmitted(ret, if op == STAR then Star(x) else Plus(x)) &&
              (Emitting() ==> Agree(old(Out()), Out(), ret))
    {
      hide Code;
      hide SimpleLoop;
      hide StarCode;
      hide PlusCode;
      hide Inserted;
      hide Agree;
      ghost var c := Out();
      RegInsert(op, ret);
      if Emitting() {
        SimpleBuilt(c, Out(), ret, op, x);
        if op == STAR { StarFold(Out(), ret, x, NULL); } else { PlusFold(Out(), ret, x, NULL); }
      }
    }

    lemma RepeatedSize(op: byte, x: Rx)
      requires IsMult(op)
      ensures Size(Repeated(op, x)) == Size(x) + if op == '?' as int then 9 else if IsSimple(x) then 3 else 12
    {
    }

    /** Emit the code of a repetition operator around the operand just emitted. */
    method EmitRepeat(op: byte, ret: int, simple: bool, ghost x: Rx)
      requires Valid() && JustEmitted(ret, x) && IsMult(op) && simple == IsSimple(x)
      requires Room(Size(Repeated(op, x)) - Size(x))
      modifies `regcode, `regsize, program
      ensures Valid() && Emitting() == old(Emitting()) && JustEmitted(ret, Repeated(op, x))
      ensures Bytes() == old(Bytes()) + Size(Repeated(op, x)) - Size(x)
      ensures Emitting() ==> Agree(old(Out()), Out(), ret)
    {
      hide Code;
      hide Agree;
      hide IsSimple;
      hide Size;
      hide Out;
      hide JustEmitted;
      RepeatedSize(op, x);
      if op == '*' as int && simple {
        EmitSimple(STAR, ret, x);
      } else if op == '*' as int {
        EmitStar(ret, x);
      } else if op == '+' as int && simple {
        EmitSimple(PLUS, ret, x);
      } else if op == '+' as int {
        EmitPlus(ret, x);
      } else if op == '?' as int {
        EmitOpt(ret, x);
      }
    }

    /** What the parser makes of the rest of the pattern, at each level. */
    function Atom(): Parsed
      requires regparse <= |exp|
      reads this
    {
      ParseAtom(exp, regparse, regnpar)
    }

    function Piece(): Parsed
      requires regparse <= |exp|
      reads this
    {
      ParsePiece(exp, regparse, regnpar)
    }

    function Pieces(): Parsed
      requires regparse <= |exp|
      reads this
    {
      ParsePieces(exp, regparse, regnpar, Empty)
    }

    function Choices(): Parsed
      requires regparse <= |exp|
      reads this
    {
      ParseChoice(exp, regparse, regnpar)
    }

    /** Room for the code of a successful parse; when emitting, the parse is
        known to succeed. */
    ghost predicate Fits(o: Parsed)
      reads this
    {
      (o.Got? ==> Room(Size(o.r))) && (Emitting() ==> o.Got?)
    }

    /** What a successful call achieves: the parse o was followed, the size of
        its tree accounted for, and (when emitting) its code, at ret, added to
        what was there. */
    twostate predicate Compiled(o: Parsed, ret: int, flags: Flags)
      reads this, program
    {
      o.Got? && Valid() && Emitting() == old(Emitting()) && ret == old(regcode) &&
      regparse == o.pos && regnpar == o.npar && flags == FlagsOf(o.r) && Bytes() == old(Bytes()) + Size(o.r) &&
      (Emitting() ==> old(Out()) <= Out() && Code(Out(), ret, o.r, NULL))
    }

    /** Something followed by a possible *, + or ?. */
    method RegPiece() returns (ret: int, flags: Flags)
      requires Valid() && Fits(Piece())
      modifies `regparse, `regnpar, `regcode, `regsize, program
      ensures ret == NULL <==> old(Piece()).Fail?
      ensures ret != NULL ==> Compiled(old(Piece()), ret, flags)
      decreases |exp| - regparse, 1
    {
      hide Code;
      hide ParseAtom;
      ghost var c, x := Out(), if Atom().Got? then Atom().r else Empty;
      ret, flags := RegAtom();
      if ret == NULL {
        return;
      }
      var op := At(exp, regparse);
      if !IsMult(op) {
        return;
      }
      if !flags.hasWidth && op != '?' as int {
        return NULL, flags;
      }
      ghost var c1 := Out();
      EmitRepeat(op, ret, flags.simple, x);
      if Emitting() { AgreePrefix(c, c1, Out(), ret); }
      flags := if op != '+' as int then Flags(false, false, true) else Flags(true, false, false);
      regparse := regparse + 1;
      if IsMult(At(exp, regparse)) {
        return NULL, flags;
      }
    }

    /** Emit all characters from member to last. */
    method RegRange(member: int, last: int)
      requires Valid() && 0 < member <= last + 1 && last < 256 && Room(last + 1 - member)
      modifies `regcode, `regsize, program
      ensures Valid() && Emitting() == old(Emitting()) && Bytes() == old(Bytes()) + last + 1 - member
      ensures Emitting() ==> Out() == old(Out()) + Range(member, last)
    {
      var k := member;
      while k <= last
        invariant member <= k <= last + 1 && Valid() && Emitting() == old(Emitting())
        invariant Bytes() == old(Bytes()) + k - member
        invariant Emitting() ==> Out() == old(Out()) + Range(member, k - 1)
      {
        RangeSnoc(member, k - 1);
        RegC(k);
        k := k + 1;
      }
    }

    /** A '-' among the members of a bracket expression, and what it spans. */
    method RegSpan(ghost acc0: seq<ch>, ghost c: seq<byte>) returns (ok: bool, ghost acc: seq<ch>)
      requires 0 < regparse && Valid() && At(exp, regparse) == '-' as int
      requires var o := ClassBody(exp, regparse, acc0);
               (Emitting() ==> o.Chars?) && (o.Chars? ==> Room(|o.cs| + 1 - |acc0|))
      requires Emitting() ==> Out() == c + acc0
      modifies `regparse, `regcode, `regsize, program
      ensures !ok ==> old(ClassBody(exp, regparse, acc0)).NoChars?
      ensures ok ==> Valid() && Emitting() == old(Emitting()) && old(regparse) < regparse
      ensures ok ==> ClassBody(exp, regparse, acc) == old(ClassBody(exp, regparse, acc0))
      ensures ok ==> Bytes() == old(Bytes()) + |acc| - |acc0| && (Emitting() ==> Out() == c + acc)
    {
      hide Range;
      regparse := regparse + 1;
      acc := acc0;
      if At(exp, regparse) == ']' as int || At(exp, regparse) == 0 {
        RegC('-' as int);
        Assoc(c, acc, ['-' as int]);
        acc := acc + ['-' as int];
      } else {
        var member, last := exp[regparse - 2] as int + 1, exp[regparse] as int;
        if member > last + 1 {
          return false, acc;
        }
        RegRange(member, last);
        Assoc(c, acc, Range(member, last));
        acc := acc + Range(member, last);
        regparse := regparse + 1;
      }
      return true, acc;
    }

    /** The members of a bracket expression, every range spelled out, and the
        closing NUL; acc0 has been emitted already. */
    method RegClass(ghost acc0: seq<ch>, ghost c: seq<byte>) returns (ok: bool)
      requires 0 < regparse && Valid()
      requires var o := ClassBody(exp, regparse, acc0);
               (Emitting() ==> o.Chars?) && (o.Chars? ==> Room(|o.cs| + 1 - |acc0|))
      requires Emitting() ==> Out() == c + acc0
      modifies `regparse, `regcode, `regsize, program
      ensures ok <==> old(ClassBody(exp, regparse, acc0)).Chars?
      ensures ok ==> Valid() && Emitting() == old(Emitting()) && regparse == old(ClassBody(exp, regparse, acc0)).end
      ensures ok ==> Bytes() == old(Bytes()) + |old(ClassBody(exp, regparse, acc0)).cs| - |acc0| + 1
      ensures ok && Emitting() ==> Out() == c + old(ClassBody(exp, regparse, acc0)).cs + [0]
    {
      hide Range;
      ghost var o := ClassBody(exp, regparse, acc0);
      ghost var acc: seq<ch>, b := acc0, Bytes() - |acc0|;
      while At(exp, regparse) != 0 && At(exp, regparse) != ']' as int
        invariant 0 < regparse && Valid() && Emitting() == old(Emitting())
        invariant ClassBody(exp, regparse, acc) == o
        invariant Bytes() == b + |acc| && (Emitting() ==> Out() == c + acc)
        decreases |exp| - regparse
      {
        if At(exp, regparse) == '-' as int {
          ok, acc := RegSpan(acc, c);
          if !ok {
            return;
          }
        } else {
          RegC(exp[regparse]);
          Assoc(c, acc, [exp[regparse]]);
          acc := acc + [exp[regparse]];
          regparse := regparse + 1;
        }
      }
      RegC(0);
      if At(exp, regparse) != ']' as int {
        return false;
      }
      regparse := regparse + 1;
      return true;
    }

    /** A bracket expression, from just after its '['. */
    method RegBracket() returns (ret: int, flags: Flags)
      requires Valid() && 0 < regparse && Fits(ParseBracket(exp, regparse, regnpar))
      modifies `regparse, `regnpar, `regcode, `regsize, program
      ensures ret == NULL <==> old(ParseBracket(exp, regparse, regnpar)).Fail?
      ensures ret != NULL ==> Compiled(old(ParseBracket(exp, regparse, regnpar)), ret, flags)
    {
      hide Code;
      hide ClassBody;
      hide ParseBracket;
      hide Size;
      hide FlagsOf;
      hide Blank;
      hide Out;
      hide IsAtom;
      ghost var c, o := Out(), ParseBracket(exp, regparse, regnpar);
      OutSize();
      BracketIs(exp, regparse, regnpar);
      if o.Got? { TextSize(o.r, o.r.cs); }
      var negated := At(exp, regparse) == '^' as int;
      if negated {                            // all characters but these
        ret := RegNode(ANYBUT);
        regparse := regparse + 1;
      } else {
        ret := RegNode(ANYOF);
      }
      ghost var acc: seq<ch> := [];
      ghost var c1 := Out();
      if At(exp, regparse) == ']' as int || At(exp, regparse) == '-' as int {
        RegC(exp[regparse]);
        acc := [exp[regparse]];
        regparse := regparse + 1;
      }
      var ok := RegClass(acc, c1);
      flags := Flags(true, true, false);
      if !ok {
        return NULL, flags;
      }
      if Emitting() { TextBuilt(c, Out(), o.r, o.r.cs); }
    }

    /** The next len characters and a NUL. */
    method RegText(len: nat)
      requires Valid() && regparse + len <= |exp| && Room(len + 1)
      modifies `regparse, `regcode, `regsize, program
      ensures Valid() && Emitting() == old(Emitting()) && regparse == old(regparse) + len
      ensures Bytes() == old(Bytes()) + len + 1
      ensures Emitting() ==> Out() == old(Out()) + exp[old(regparse)..regparse] + [0]
    {
      ghost var c, pos := Out(), regparse;
      var n := len;
      while n > 0
        invariant Valid() && Emitting() == old(Emitting()) && 0 <= n <= len && regparse == pos + len - n
        invariant Bytes() == old(Bytes()) + len - n
        invariant Emitting() ==> Out() == c + exp[pos..regparse]
      {
        RegC(exp[regparse]);
        assert exp[pos..regparse + 1] == exp[pos..regparse] + [exp[regparse]];
        Assoc(c, exp[pos..regparse], [exp[regparse]]);
        regparse := regparse + 1;
        n := n - 1;
      }
      RegC(0);
    }

    /** A run of ordinary characters, as one node. */
    method RegLiteral() returns (ret: int, flags: Flags)
      requires Valid() && Fits(ParseLiteral(exp, regparse, regnpar))
      modifies `regparse, `regnpar, `regcode, `regsize, program
      ensures ret == NULL <==> old(ParseLiteral(exp, regparse, regnpar)).Fail?
      ensures ret != NULL ==> Compiled(old(ParseLiteral(exp, regparse, regnpar)), ret, flags)
    {
      hide Code;
      hide Ordinary;
      hide ParseLiteral;
      hide Size;
      hide FlagsOf;
      hide Blank;
      hide Out;
      hide IsAtom;
      ghost var c, o := Out(), ParseLiteral(exp, regparse, regnpar);
      OutSize();
      LiteralIs(exp, regparse, regnpar);
      if o.Got? { TextSize(o.r, o.r.cs); }
      var len := Ordinary(exp, regparse);     // strcspn
      if len <= 0 {
        return NULL, WORST;
      }
      var ender := At(exp, regparse + len);
      if len > 1 && IsMult(ender) {
        len := len - 1;                       // the last one is repeated, alone
      }
      flags := Flags(true, len == 1, false);
      ret := RegNode(EXACTLY);
      RegText(len);
      if Emitting() { TextBuilt(c, Out(), o.r, o.r.cs); }
    }

    /** A backslashed character, from just after the backslash. */
    method RegEscape() returns (ret: int, flags: Flags)
      requires Valid() && 0 < regparse && exp[regparse - 1] == '\\' as int
      requires Fits(ParseAtom(exp, regparse - 1, regnpar))
      modifies `regparse, `regnpar, `regcode, `regsize, program
      ensures ret == NULL <==> old(ParseAtom(exp, regparse - 1, regnpar)).Fail?
      ensures ret != NULL ==> Compiled(old(ParseAtom(exp, regparse - 1, regnpar)), ret, flags)
    {
      hide Code;
      hide ParseBracket;
      hide ParseLiteral;
      hide ParseChoice;
      ghost var c, o := Out(), ParseAtom(exp, regparse - 1, regnpar);
      flags := Flags(true, true, false);
      if At(exp, regparse) == 0 {
        return NULL, flags;                   // trailing backslash
      }
      ret := RegNode(EXACTLY);
      RegC(exp[regparse]);
      regparse := regparse + 1;
      RegC(0);
      if Emitting() { TextBuilt(c, Out(), o.r, o.r.cs); }
    }

    /** An anchor, or a dot: a node and nothing else. */
    method RegSign(op: byte, ghost r: Rx) returns (ret: int)
      requires Valid() && Room(3) && (r == Bol || r == Eol || r == Any) && op == Opcode(r) && regparse < |exp|
      modifies `regparse, `regcode, `regsize, program
      ensures Compiled(Got(r, old(regparse) + 1, old(regnpar)), ret, FlagsOf(r))
    {
      hide Code;
      hide Size;
      hide Opcode;
      hide FlagsOf;
      ghost var c := Out();
      regparse := regparse + 1;
      ret := RegNode(op);
      SignBuilt(c, Out(), r);
    }

    method RegAtom() returns (ret: int, flags: Flags)
      requires Valid() && Fits(Atom())
      modifies `regparse, `regnpar, `regcode, `regsize, program
      ensures ret == NULL <==> old(Atom()).Fail?
      ensures ret != NULL ==> Compiled(old(Atom()), ret, flags)
      decreases |exp| - regparse, 0
    {
      hide ParseAtom;
      hide ParseReg;
      hide ParseBracket;
      hide ParseLiteral;
      hide Code;
      hide Size;
      hide HasWidth;
      hide SpStart;
      AtomIs(exp, regparse, regnpar);
      SignBuilt([], [], Bol);
      SignBuilt([], [], Eol);
      SignBuilt([], [], Any);
      flags := WORST;
      ret := NULL;
      var c := At(exp, regparse);
      if c == 0 || c == '|' as int || c == ')' as int {
        return;                               // RegBranch stops before these
      }
      if IsMult(c) {
        return;                               // nothing to repeat
      }
      if c == '^' as int {
        ret := RegSign(BOL, Bol);
      } else if c == '$' as int {
        ret := RegSign(EOL, Eol);
      } else if c == '.' as int {
        ret := RegSign(ANY, Any);
        flags := Flags(true, true, false);
      } else if c == '[' as int {
        regparse := regparse + 1;
        ret, flags := RegBracket();
      } else if c == '(' as int {
        regparse := regparse + 1;
        ret, flags := Reg(true);
      } else if c == '\\' as int {
        regparse := regparse + 1;
        ret, flags := RegEscape();
      } else {
        ret, flags := RegLiteral();
      }
    }

    // ---- regbranch and reg ----

    /** One alternative: a BRANCH node and its pieces, each tied to the next. */
    method RegBranch() returns (ret: int, flags: Flags)
      requires Valid()
      requires var o := Pieces(); (o.Got? ==> Room(3 + Size(o.r))) && (Emitting() ==> o.Got?)
      modifies `regparse, `regnpar, `regcode, `regsize, program
      ensures ret == NULL <==> old(Pieces()).Fail?
      ensures ret != NULL ==> Branched(old(Pieces()), ret, flags)
      decreases |exp| - regparse, 2
    {
      hide Code;
      hide Node;
      hide ParsePiece;
      hide ParsePieces;
      hide BranchSoFar;
      hide HasWidth;
      hide SpStart;
      hide IsSimple;
      hide IsSequence;
      hide Agree;
      hide Append;
      hide Size;
      hide SoFar;
      ghost var o, c0 := Pieces(), Out();
      NoPieces();
      flags := WORST;
      ret := RegNode(BRANCH);
      var chain := NULL;
      ghost var acc, last := Empty, Empty;
      if Emitting() { BranchBegun(c0, Out(), ret); }
      while !EndsBranch(At(exp, regparse))
        invariant Valid() && Emitting() == old(Emitting()) && IsSequence(acc)
        invariant ParsePieces(exp, regparse, regnpar, acc) == o
        invariant Bytes() == old(Bytes()) + 3 + SoFar(acc)
        invariant chain == NULL <==> acc == Empty
        invariant flags == Flags(HasWidth(acc), false, SpStart(acc))
        invariant Emitting() ==> c0 <= Out() && BranchSoFar(Out(), ret, acc, chain, last)
        invariant if Emitting() then ret == |c0| && chain != DUMMY else ret == DUMMY && chain in {NULL, DUMMY}
        decreases |exp| - regparse
      {
        ghost var c, x := Out(), if Piece().Got? then Piece().r else Empty;
        PieceStep(exp, regparse, regnpar, acc);
        var latest, pflags := RegPiece();
        if latest == NULL {
          return NULL, flags;
        }
        flags := flags.(hasWidth := flags.hasWidth || pflags.hasWidth);
        if chain == NULL {                    // nothing before it
          flags := flags.(spStart := flags.spStart || pflags.spStart);
        }
        TiePiece(chain, latest, c, ret, acc, last, x);
        if Emitting() { AgreePrefix(c0, c, Out(), ret); }
        acc, last := Append(acc, x), x;
        chain := latest;
      }
      PiecesEnd(exp, regparse, regnpar, acc);
      EndBranch(chain, ret, acc, last);
    }

    /** A branch without pieces gets a NOTHING node. */
    method EndBranch(chain: int, ghost ret: int, ghost acc: Rx, ghost last: Rx)
      requires Valid() && (chain == NULL <==> acc == Empty) && (acc == Empty ==> Room(3))
      requires Emitting() ==> BranchSoFar(Out(), ret, acc, chain, last)
      modifies `regcode, `regsize, program
      ensures Valid() && Emitting() == old(Emitting()) && Bytes() == old(Bytes()) + if acc == Empty then 3 else 0
      ensures Emitting() ==> old(Out()) <= Out() && Node(Out(), ret, BRANCH, NULL) && Code(Out(), ret + 3, acc, NULL)
    {
      hide Code;
      hide Node;
      hide BranchSoFar;
      if chain == NULL {                      // no pieces
        ghost var c := Out();
        var nothing := RegNode(NOTHING);
        if Emitting() { BranchEmpty(c, Out(), ret, chain, last); }
      } else if Emitting() {
        BranchDone(Out(), ret, acc, chain, last);
      }
    }

    /** Tie the piece just compiled to the one before it, if any. */
    method TiePiece(chain: int, latest: int, ghost c: seq<byte>, ghost ret: int, ghost acc: Rx, ghost last: Rx,
                    ghost x: Rx)
      requires Valid() && (chain == NULL <==> acc == Empty) && x != Empty
      requires Emitting() ==> BranchSoFar(c, ret, acc, chain, last) && c <= Out() && chain != DUMMY
      requires Emitting() ==> latest == |c| && regcode == latest + Size(x) && Code(Out(), latest, x, NULL)
      requires !Emitting() ==> latest == DUMMY && chain in {NULL, DUMMY}
      modifies program
      ensures Valid() && (Emitting() ==> BranchSoFar(Out(), ret, Append(acc, x), latest, x) && Agree(c, Out(), ret))
    {
      hide Code;
      hide Node;
      hide BranchSoFar;
      ghost var c1, t := Out(), Tail(ret + 3, acc);
      if chain == NULL {
        if Emitting() { PieceFirst(c, c1, ret, chain, last, x, latest); }
      } else {
        if Emitting() { PieceReady(c, c1, ret, acc, chain, last, latest, t); }
        RegTail(chain, latest, t);
        if Emitting() { PieceTied(c1, Out(), ret, acc, x, latest, t); AgreeTrans(c, c1, Out(), ret); }
      }
    }

    twostate predicate Branched(o: Parsed, ret: int, flags: Flags)
      reads this, program
    {
      o.Got? && Valid() && Emitting() == old(Emitting()) && ret == old(regcode) &&
      regparse == o.pos && regnpar == o.npar && flags == FlagsOf(Branch(o.r)) &&
      Bytes() == old(Bytes()) + 3 + Size(o.r) &&
      (Emitting() ==> old(Out()) <= Out() && Node(Out(), ret, BRANCH, NULL) && Code(Out(), ret + 3, o.r, NULL))
    }

    /** The first branch, with the OPEN node (if any) linked to it. */
    method RegFirst(open: int, ghost op: byte) returns (ret: int, flags: Flags)
      requires Valid() && op != BACK
      requires var o := Pieces(); (o.Got? ==> Room(3 + Size(o.r))) && (Emitting() ==> o.Got?)
      requires if Emitting() then OpenAt(Out(), open, op, regcode, NULL) else open in {NULL, DUMMY}
      modifies `regparse, `regnpar, `regcode, `regsize, program
      ensures ret == NULL <==> old(Pieces()).Fail?
      ensures ret != NULL ==> FirstBranched(old(Pieces()), ret, flags, open, op)
      decreases |exp| - regparse, 3
    {
      hide Code;
      hide Choice;
      hide Node;
      hide ParsePieces;
      hide Branches;
      hide Agree;
      hide Size;
      hide HasWidth;
      hide SpStart;
      ghost var c0, first := Out(), Pieces();
      var br;
      br, flags := RegBranch();
      if br == NULL {
        return NULL, flags;
      }
      TieFirst(open, br, c0, op, first.r);
      ret := if open != NULL then open else br;
    }

    twostate predicate FirstBranched(o: Parsed, ret: int, flags: Flags, open: int, op: int)
      reads this, program
    {
      var p := old(regcode);
      o.Got? && Valid() && Emitting() == old(Emitting()) && ret == (if open == NULL then p else open) &&
      regparse == o.pos && regnpar == o.npar && flags == FlagsOf(Branch(o.r)) &&
      Bytes() == old(Bytes()) + 3 + Size(o.r) &&
      (Emitting() ==> Branches(Out(), open, op, p, Branch(o.r)) && Agree(old(Out()), Out(), ret))
    }

    /** The alternatives, each BRANCH linked to the next and the OPEN node (if
        any) to the first. */
    method RegBranches(open: int, ghost op: byte) returns (ret: int, flags: Flags)
      requires Valid() && op != BACK
      requires var o := Choices(); (o.Got? ==> Room(Size(o.r))) && (Emitting() ==> o.Got?)
      requires if Emitting() then OpenAt(Out(), open, op, regcode, NULL) else open in {NULL, DUMMY}
      modifies `regparse, `regnpar, `regcode, `regsize, program
      ensures ret == NULL <==> old(Choices()).Fail?
      ensures ret != NULL ==> AllBranched(old(Choices()), ret, flags, open, op)
      decreases |exp| - regparse, 4
    {
      hide Out;
      hide Code;
      hide Choice;
      hide Node;
      hide ParsePieces;
      hide Branches;
      hide Agree;
      hide Size;
      hide HasWidth;
      hide SpStart;
      hide IsChoice;
      ghost var o, c0, p, first := Choices(), Out(), regcode, Pieces();
      if first.Got? { AltIsChoice(Branch(Empty), first.r); AltSize(Empty, first.r); }
      if o.Got? { AltsSize(exp, first.pos, first.npar, Branch(first.r)); }
      ret, flags := RegFirst(open, op);
      if ret == NULL {
        return;
      }
      ghost var acc := Branch(first.r);
      while At(exp, regparse) == '|' as int
        invariant Valid() && Emitting() == old(Emitting()) && IsChoice(acc)
        invariant ParseAlts(exp, regparse, regnpar, acc) == o
        invariant Bytes() == old(Bytes()) + Size(acc)
        invariant flags == FlagsOf(acc)
        invariant Emitting() ==> Branches(Out(), open, op, p, acc) && Agree(c0, Out(), ret)
        decreases |exp| - regparse
      {
        ghost var c, next := Out(), ParsePieces(exp, regparse + 1, regnpar, Empty);
        if next.Got? { AltIsChoice(acc, next.r); AltSize(acc, next.r); BranchFlags(next.r); }
        if o.Got? { AltsSize(exp, next.pos, next.npar, Alt(acc, Branch(next.r))); }
        var br, bflags := RegAlternative(ret, open, op, p, acc);
        if br == NULL {
          return NULL, flags;
        }
        if Emitting() { AgreeLess(c, Out(), p, ret); AgreeTrans(c0, c, Out(), ret); }
        AltFlags(acc, next.r);
        flags := Flags(flags.hasWidth && bflags.hasWidth, false, flags.spStart || bflags.spStart);
        acc := Alt(acc, Branch(next.r));
      }
    }

    /** One more branch, from its '|'. */
    method RegAlternative(ret: int, ghost open: int, ghost op: byte, ghost p: int, ghost acc: Rx)
      returns (br: int, flags: Flags)
      requires Valid() && At(exp, regparse) == '|' as int
      requires var o := ParsePieces(exp, regparse + 1, regnpar, Empty);
               (o.Got? ==> Room(3 + Size(o.r))) && (Emitting() ==> o.Got?)
      requires if Emitting() then ret == (if open == NULL then p else open) else ret == DUMMY
      requires Emitting() ==> Branches(Out(), open, op, p, acc) && p + Size(acc) == regcode && open != DUMMY
      modifies `regparse, `regnpar, `regcode, `regsize, program
      ensures br == NULL <==> old(ParsePieces(exp, regparse + 1, regnpar, Empty)).Fail?
      ensures br != NULL ==> var o := old(ParsePieces(exp, regparse + 1, regnpar, Empty));
              Valid() && Emitting() == old(Emitting()) && regparse == o.pos && regnpar == o.npar &&
              flags == FlagsOf(Branch(o.r)) && Bytes() == old(Bytes()) + 3 + Size(o.r) &&
              (Emitting() ==> Branches(Out(), open, op, p, Alt(acc, Branch(o.r))) && Agree(old(Out()), Out(), p))
      decreases |exp| - regparse, 2
    {
      hide Code;
      hide Choice;
      hide Node;
      hide ParsePieces;
      hide Branches;
      hide Agree;
      hide Size;
      ghost var c := Out();
      regparse := regparse + 1;
      ghost var b := Pieces();
      br, flags := RegBranch();
      if br == NULL {
        return;
      }
      TieBranch(ret, br, c, open, op, p, acc, b.r);
    }

    /** Link the OPEN node, if any, to the first branch. */
    method TieFirst(open: int, br: int, ghost c: seq<byte>, ghost op: byte, ghost b: Rx)
      requires Valid() && op != BACK
      requires if Emitting() then OpenAt(c, open, op, br, NULL) else open in {NULL, DUMMY} && br == DUMMY
      requires Emitting() ==> br == |c| && c <= Out() && regcode == br + 3 + Size(b)
      requires Emitting() ==> Node(Out(), br, BRANCH, NULL) && Code(Out(), br + 3, b, NULL)
      modifies program
      ensures Valid()
      ensures Emitting() ==>
                Branches(Out(), open, op, br, Branch(b)) &&
                Agree(c, Out(), if open == NULL then br else open)
    {
      hide Code;
      hide Node;
      hide Branches;
      ghost var c1 := Out();
      if Emitting() {
        OpenKept(c, c1, open, op, br, NULL);
        FirstBranch(c1, c1, open, op, br, b);
      }
      if open != NULL {
        RegTail(open, br, open);
        if Emitting() { FirstBranch(c1, Out(), open, op, br, b); }
      }
    }

    /** Link the last branch so far to the next one. */
    method TieBranch(ret: int, br: int, ghost c: seq<byte>, ghost open: int, ghost op: byte, ghost p: int,
                     ghost a: Rx, ghost b: Rx)
      requires Valid()
      requires if Emitting() then ret == (if open == NULL then p else open) && Branches(c, open, op, p, a)
               else ret == DUMMY
      requires Emitting() ==> br == |c| == p + Size(a) && c <= Out() && regcode == br + 3 + Size(b) && open != DUMMY
      requires Emitting() ==> Node(Out(), br, BRANCH, NULL) && Code(Out(), br + 3, b, NULL)
      modifies program
      ensures Valid()
      ensures Emitting() ==> Branches(Out(), open, op, p, Alt(a, Branch(b))) && Agree(c, Out(), p)
    {
      hide Code;
      hide Node;
      hide Branches;
      ghost var c1, t := Out(), Tail(p, a);
      if Emitting() {
        BranchesKept(c, c1, open, op, p, a);
        BranchesReady(c1, open, op, p, a, t, br);
      }
      RegTail(ret, br, t);                    // one alternative to the next
      if Emitting() {
        NextBranch(c1, Out(), open, op, p, a, b, br, t);
        AgreeTrans(c, c1, Out(), p);
      }
    }

    twostate predicate AllBranched(o: Parsed, ret: int, flags: Flags, open: int, op: int)
      reads this, program
    {
      var p := old(regcode);
      var first := if open == NULL then p else open;
      o.Got? && Valid() && Emitting() == old(Emitting()) && ret == first &&
      regparse == o.pos && regnpar == o.npar && flags == FlagsOf(o.r) && Bytes() == old(Bytes()) + Size(o.r) &&
      (Emitting() ==> Branches(Out(), open, op, p, o.r) && Agree(old(Out()), Out(), first))
    }

    /** Make every alternative lead to the closing node. */
    method HookBranches(ret: int, ender: int, ghost open: int, ghost op: byte, ghost p: int, ghost r: Rx,
                        ghost eop: byte)
      requires Valid() && op != BRANCH && eop != BRANCH
      requires if Emitting() then ret == (if open == NULL then p else open) else ret == DUMMY
      requires Emitting() ==> Hooked(Out(), open, op, p, r, ender, eop, 0) && open != DUMMY
      modifies program
      ensures Valid()
      ensures Emitting() ==> Hooked(Out(), open, op, p, r, ender, eop, Count(r)) && Agree(old(Out()), Out(), p)
    {
      hide Count;
      hide Nth;
      hide TailOffset;
      hide Size;
      hide Code;
      hide Choice;
      hide Agree;
      hide Hooked;
      hide HookAt;
      hide Linked;
      hide Next;
      hide Ready;
      hide Node;
      ghost var c0, n := Out(), 0;
      var br := ret;
      if Emitting() { HookStart(c0, open, op, p, r, ender, eop, ret); }
      while br != NULL
        invariant Valid() && (br != NULL ==> (Emitting() <==> br != DUMMY))
        invariant Emitting() ==>
                    0 <= n <= Count(r) && Hooked(Out(), open, op, p, r, ender, eop, n) &&
                    Agree(c0, Out(), p)
        invariant Emitting() ==> HookAt(br, open, p, r, ender, n)
        decreases if br == NULL then 0 else if br == DUMMY then 1 else 2 + program.Length - br
      {
        ghost var c, t := Out(), if n < Count(r) then Tail(br + 3, Nth(r, n)) else 0;
        if Emitting() { HookSafe(c, open, op, p, r, ender, eop, n, br, t); }
        RegOptail(br, ender, t);
        ghost var c1 := Out();
        if Emitting() { HookAdvance(c, c1, open, op, p, r, ender, eop, n, br, t); AgreeTrans(c0, c, c1, p); }
        if Emitting() && br != open && br != ender { n := n + 1; }
        if Emitting() { NextPrefix(program[..], c1, br); }
        br := RegNext(br);
      }
      if Emitting() { HookEnd(Out(), open, op, p, r, ender, eop, n); }
    }

    /** What a call with an even deeper parse achieves at top level: the whole
        program but for its magic number. */
    twostate predicate Complete(o: Parsed, ret: int, flags: Flags)
      reads this, program
    {
      o.Got? && Valid() && Emitting() == old(Emitting()) && ret == old(regcode) &&
      regparse == o.pos && regnpar == o.npar && flags == FlagsOf(o.r) && Bytes() == old(Bytes()) + Size(o.r) + 3 &&
      (Emitting() ==> old(Out()) <= Out() && Hooked(Out(), NULL, END, ret, o.r, ret + Size(o.r), END, Count(o.r)))
    }

    /** The alternatives, closed by a node that their tails are hooked to. */
    method RegClosed(open: int, ghost op: byte, eop: byte) returns (ret: int, ender: int, flags: Flags)
      requires Valid() && op != BACK && op != BRANCH && eop != BRANCH
      requires var o := Choices(); (o.Got? ==> Room(Size(o.r) + 3)) && (Emitting() ==> o.Got?)
      requires if Emitting() then OpenAt(Out(), open, op, regcode, NULL) else open in {NULL, DUMMY}
      modifies `regparse, `regnpar, `regcode, `regsize, program
      ensures ret == NULL <==> old(Choices()).Fail?
      ensures ret != NULL ==> Closed(old(Choices()), ret, ender, flags, open, op, eop)
      decreases |exp| - regparse, 5
    {
      hide Code;
      hide Choice;
      hide Node;
      hide Hooked;
      hide Agree;
      hide ParseChoice;
      hide HasWidth;
      hide SpStart;
      ghost var c0, p, alts := Out(), regcode, Choices();
      ret, flags := RegBranches(open, op);
      ender := NULL;
      if ret == NULL {
        return;
      }
      ghost var c := Out();
      ender := CloseBranches(ret, eop, open, op, p, alts.r);
      if Emitting() { AgreeLess(c, Out(), p, ret); AgreeTrans(c0, c, Out(), ret); }
    }

    twostate predicate Closed(o: Parsed, ret: int, ender: int, flags: Flags, open: int, op: int, eop: int)
      reads this, program
    {
      var p := old(regcode);
      var first := if open == NULL then p else open;
      o.Got? && Valid() && Emitting() == old(Emitting()) && ret == first &&
      regparse == o.pos && regnpar == o.npar && flags == FlagsOf(o.r) && Bytes() == old(Bytes()) + Size(o.r) + 3 &&
      (Emitting() ==>
          ender == p + Size(o.r) && Hooked(Out(), open, op, p, o.r, ender, eop, Count(o.r)) &&
          Agree(old(Out()), Out(), first))
    }

    /** A group, or a whole pattern, is a choice with the right thing after it. */
    static lemma ParseRegIs(e: seq<ch>, pos: nat, npar: nat, paren: bool)
      requires pos <= |e|
      ensures paren && npar >= NSUBEXP ==> ParseReg(e, pos, npar, paren).Fail?
      ensures !(paren && npar >= NSUBEXP) ==>
                var c, o := ParseChoice(e, pos, if paren then npar + 1 else npar), ParseReg(e, pos, npar, paren);
                if c.Fail? then o.Fail?
                else if paren then
                  o == if At(e, c.pos) == ')' as int then Got(Group(npar, c.r), c.pos + 1, c.npar) else Fail
                else o == if At(e, c.pos) == 0 then c else Fail
      ensures forall no: nat, b: Rx :: Size(Group(no, b)) == Size(b) + 6
    {
      hide ParseChoice;
    }

    /** A whole pattern, or (with paren) the inside of a group. */
    method Reg(paren: bool) returns (ret: int, flags: Flags)
      requires Valid()
      requires var o := ParseReg(exp, regparse, regnpar, paren);
               (o.Got? ==> Room(Size(o.r) + if paren then 0 else 3)) && (Emitting() ==> o.Got?)
      modifies `regparse, `regnpar, `regcode, `regsize, program
      ensures ret == NULL <==> old(ParseReg(exp, regparse, regnpar, paren)).Fail?
      ensures ret != NULL && paren ==> Compiled(old(ParseReg(exp, regparse, regnpar, paren)), ret, flags)
      ensures ret != NULL && !paren ==> Complete(old(ParseReg(exp, regparse, regnpar, paren)), ret, flags)
      decreases |exp| - regparse, 6
    {
      hide Code;
      hide Choice;
      hide Node;
      hide Hooked;
      hide Agree;
      hide ParseReg;
      hide ParseChoice;
      hide HasWidth;
      hide SpStart;
      hide IsSimple;
      hide TailOffset;
      hide Count;
      hide OpenAt;
      hide Size;
      ParseRegIs(exp, regparse, regnpar, paren);
      ghost var c0 := Out();
      flags := WORST;
      var parno, open := 0, NULL;
      if paren {
        if regnpar >= NSUBEXP {
          return NULL, flags;                 // all nine are taken
        }
        parno := regnpar;
        regnpar := regnpar + 1;
        open := RegNode(OPEN + parno);
      }
      ghost var c1, p, alts := Out(), regcode, Choices();
      ghost var op := if paren then OPEN + parno else END;
      if Emitting() { OpenBegun(c0, c1, open, op, p, paren); }
      var ender;
      ret, ender, flags := RegClosed(open, op, if paren then CLOSE + parno else END);
      if ret == NULL {
        return;
      }
      if Emitting() { AgreePrefix(c0, c1, Out(), if open == NULL then p else open); }
      if paren {
        regparse := regparse + 1;
        if At(exp, regparse - 1) != ')' as int {
          return NULL, flags;                 // unmatched ()
        }
        GroupFlags(parno, alts.r);
        if Emitting() { GroupBuilt(Out(), open, parno, p, alts.r, ender); }
      } else if At(exp, regparse) != 0 {
        return NULL, flags;                   // unmatched (), or junk on end
      }
    }

    /** Make a closing node, and hook the branches on to it. */
    method CloseBranches(ret: int, eop: byte, ghost open: int, ghost op: byte, ghost p: int, ghost r: Rx)
      returns (ender: int)
      requires Valid() && Room(3) && op != BRANCH && eop != BRANCH && op != BACK
      requires if Emitting() then ret == (if open == NULL then p else open) else ret == DUMMY
      requires Emitting() ==> Branches(Out(), open, op, p, r) && p + Size(r) == regcode && open != DUMMY
      modifies `regcode, `regsize, program
      ensures Valid() && Emitting() == old(Emitting()) && Bytes() == old(Bytes()) + 3
      ensures Emitting() ==>
                ender == p + Size(r) && Hooked(Out(), open, op, p, r, ender, eop, Count(r)) &&
                Agree(old(Out()), Out(), p)
    {
      hide Code;
      hide Choice;
      hide Node;
      hide Branches;
      hide Hooked;
      hide Agree;
      ghost var c := Out();
      ender := RegNode(eop);
      ghost var c1, t := Out(), Tail(p, r);
      if Emitting() { EnderReady(c, c1, open, op, p, r, ender, eop, t); }
      RegTail(ret, ender, t);
      ghost var c2 := Out();
      if Emitting() { EnderLinked(c1, c2, open, op, p, r, ender, eop, t); AgreeTrans(c, c1, c2, p); }
      HookBranches(ret, ender, open, op, p, r, eop);
      if Emitting() { AgreeTrans(c, c2, Out(), p); }
    }
  }
}
