/** regcomp and regexec: compiling a pattern and searching a string for it. */
module Regex {
  import opened CTypes
  import opened RegexLanguage
  import opened RegexGrammar
  import opened RegexCode
  import opened RegexBuild
  import opened RegexCompiler
  import opened RegexTraces
  import opened RegexRanking
  import opened RegexGroups
  import opened RegexCont
  import opened RegexSteps
  import opened RegexMatcher
  import opened RegexHints
  import RegexSyntax

  /** What a pattern means, if it is one. */
  function Parse(exp: seq<ch>): (o: Parsed)
    ensures o.Got? ==> IsChoice(o.r)
  {
    ParseReg(exp, 0, 1, false)
  }

  /** It is one exactly when the declarative grammar has a tree for it, and there
      is no other tree. */
  lemma ParseIsPattern(exp: seq<ch>, r: Rx)
    ensures Parse(exp).Got? && Parse(exp).r == r <==> RegexSyntax.Pattern(exp, r)
  {
    hide ParseReg;
    hide RegexSyntax.Pattern;
    RegexSyntax.ParserIsExact(exp, r);
  }

  // The largest program whose links are sure to fit in two bytes.
  const TOO_BIG: nat := 32767

  /** Bytes of program for r: the magic number, the code, and the END node. */
  function ProgramSize(r: Rx): nat {
    1 + Size(r) + 3
  }

  // ---- The hints ----

  ghost predicate StartsWithChar(r: Rx, b: byte) {
    forall s: seq<ch>, i: nat, j: nat :: Matches(r, s, i, j) ==> i < |s| && s[i] == b
  }

  ghost predicate Anchored(r: Rx) {
    forall s: seq<ch>, i: nat, j: nat :: Matches(r, s, i, j) ==> i == 0
  }

  ghost predicate MustContain(m: seq<byte>, r: Rx, must: int, len: nat) {
    0 <= must && exists cs: seq<ch> :: cs != [] && |cs| == len && Text(m, must, cs) && Required(r, cs)
  }

  /** must is the operand of the longest literal on the chain of links from p,
      the last one if there are several; it is NULL if there is none. */
  ghost predicate Longest(m: seq<byte>, p: int, must: int, len: nat) {
    (forall y :: Leads(m, p, y) && m[y] == EXACTLY ==>
      StrLen(m, y + 3) <= len && (must < y + 3 ==> StrLen(m, y + 3) < len)) &&
    (if must == NULL then len == 0
     else Leads(m, p, must - 3) && m[must - 3] == EXACTLY && StrLen(m, must) == len)
  }

  /** The hints are sound, and they are noted down whenever the rules say so. */
  ghost predicate HintsOK(m: seq<byte>, r: Rx, start: byte, anch: bool, must: int, len: nat) {
    (start != 0 ==> StartsWithChar(r, start)) &&
    (anch ==> Anchored(r)) &&
    (must != NULL ==> MustContain(m, r, must, len)) &&
    (start != 0 <==> Count(r) == 1 && FirstOp(Nth(r, 0)) == EXACTLY) &&
    (anch <==> Count(r) == 1 && FirstOp(Nth(r, 0)) == BOL) &&
    (if Count(r) == 1 && SpStart(r) then Longest(m, 4, must, len) else must == NULL && len == 0)
  }

  /** re is the compiled form of r. */
  ghost predicate Compiled(re: Regexp, r: Rx)
    reads re, re.program
  {
    re.Valid() && IsChoice(r) && InOrder(r, 1) && Program(re.program[..], r) &&
    HintsOK(re.program[..], r, re.regstart, re.reganch, re.regmust, re.regmlen)
  }

  lemma OneBranch(m: seq<byte>, r: Rx)
    requires Program(m, r)
    ensures 0 < Next(m, 1) && Next(m, 1) + 3 <= |m| && (m[Next(m, 1)] == END <==> Count(r) == 1)
    ensures Code(m, 4, Nth(r, 0), 1 + Size(r)) && 7 <= |m|
  {
    hide Size;
    hide Count;
    hide Code;
    hide Choice;
    hide Next;
    hide NthAt;
    hide Nth;
    var end := 1 + Size(r);
    FirstBranch(m, r, end);
    if Count(r) > 1 {
      ChoiceNth(m, 1, r, end, end, Count(r), 1);
    }
  }

  lemma FirstBranch(m: seq<byte>, r: Rx, end: int)
    requires Choice(m, 1, r, end, end, Count(r))
    ensures Node(m, 1, BRANCH, if 1 < Count(r) then NthAt(1, r, 1) else end)
    ensures Code(m, 4, Nth(r, 0), end) && 7 <= |m|
  {
    hide Code;
    hide Choice;
    hide Node;
    hide NthAt;
    hide Nth;
    ChoiceNth(m, 1, r, end, end, Count(r), 0);
    CodeSize(m, 4, Nth(r, 0), end);
  }

  lemma StartHint(m: seq<byte>, b: Rx, k: int)
    requires Code(m, 4, b, k) && WellFormed(b) && FirstOp(b) == EXACTLY
    ensures 7 < |m| && m[7] != 0 && StartsWithChar(Branch(b), m[7])
  {
    hide Code;
    CodeSize(m, 4, b, k);
    FirstLiteral(m, 4, b, k);
    forall s: seq<ch>, i: nat, j: nat | Matches(Branch(b), s, i, j) ensures i < |s| && s[i] == m[7] {
      StartsWith(m, 4, b, k, s, i, j);
    }
  }

  /** The operand of a leading literal is not empty. */
  lemma {:induction false} FirstLiteral(m: seq<byte>, p: int, r: Rx, k: int)
    requires Code(m, p, r, k) && FirstOp(r) == EXACTLY && WellFormed(r)
    ensures 0 < p && p + 3 < |m| && m[p + 3] != 0
    decreases r
  {
    hide Next;
    hide Choice;
    hide StarCode;
    hide GroupCode;
    hide OptCode;
    hide PlusCode;
    match r
    case Cat(a, b) =>
      CatParts(m, p, a, b, k);
      FirstLiteral(m, p, a, p + Size(a));
    case Plus(x) =>
      assert !IsSimple(x);
      PlusParts(m, p, x, k);
      FirstLiteral(m, p, x, p + Size(x));
    case Exactly(cs) => assert m[p + 3 + 0] == cs[0];
  }

  lemma AnchorHint(b: Rx)
    requires FirstOp(b) == BOL
    ensures Anchored(Branch(b))
  {
    forall s: seq<ch>, i: nat, j: nat | Matches(Branch(b), s, i, j) ensures i == 0 {
      StartsAtBol(b, s, i, j);
    }
  }

  /** What the search for the longest literal has established when it stands at scan. */
  ghost predicate Searched(m: seq<byte>, b: Rx, end: int, scan: int, must: int, len: nat) {
    (scan == NULL || ((scan == end || OnSpine(b, 4, scan)) && Leads(m, 4, scan))) &&
    (forall y :: Leads(m, 4, y) && m[y] == EXACTLY && !(scan != NULL && Leads(m, scan, y)) ==>
       StrLen(m, y + 3) <= len && (must < y + 3 ==> StrLen(m, y + 3) < len)) &&
    (if must == NULL then len == 0
     else Leads(m, 4, must - 3) && m[must - 3] == EXACTLY && StrLen(m, must) == len &&
          MustContain(m, Branch(b), must, len)) &&
    (scan == NULL || must < scan + 3)
  }

  lemma SearchStart(m: seq<byte>, b: Rx, end: int)
    requires 7 <= |m|
    ensures Searched(m, b, end, 4, NULL, 0)
  {
    SpineStart(b, 4);
  }

  lemma {:induction false} LeadsOneMore(m: seq<byte>, p: int, x: int)
    requires Leads(m, p, x) && x < Next(m, x) && Next(m, x) + 3 <= |m|
    ensures Leads(m, p, Next(m, x))
    decreases x - p
  {
    hide Next;
    if p != x {
      LeadsOneMore(m, Next(m, p), x);
    }
  }

  /** A literal found at scan: required, and not empty. */
  lemma SearchText(m: seq<byte>, b: Rx, end: int, scan: int)
    requires Code(m, 4, b, end) && Node(m, end, END, NULL) && WellFormed(b) && (scan == end || OnSpine(b, 4, scan))
    requires 0 < scan && scan + 3 <= |m| && m[scan] == EXACTLY
    ensures MustContain(m, Branch(b), scan + 3, StrLen(m, scan + 3)) && StrLen(m, scan + 3) > 0
  {
    hide Code;
    hide OnSpine;
    hide Next;
    hide Required;
    hide StrLen;
    var cs := SpineText(m, 4, b, end, scan);
    TextLen(m, scan + 3, cs);
    assert Required(Branch(b), cs) by { RequiredBranch(b, cs); }
  }

  lemma RequiredBranch(b: Rx, cs: seq<ch>)
    requires Required(b, cs)
    ensures Required(Branch(b), cs)
  {
    forall s: seq<ch>, i: nat, j: nat | Matches(Branch(b), s, i, j) ensures Occurs(cs, s, i, j) {
      assert Matches(b, s, i, j);
    }
  }

  lemma SearchNext(m: seq<byte>, b: Rx, end: int, scan: int, must: int, len: nat, must': int, len': nat)
    requires Code(m, 4, b, end) && Node(m, end, END, NULL) && WellFormed(b)
    requires Searched(m, b, end, scan, must, len) && scan != NULL
    requires if m[scan] == EXACTLY && StrLen(m, scan + 3) >= len then must' == scan + 3 && len' == StrLen(m, scan + 3)
             else must' == must && len' == len
    ensures Searched(m, b, end, Next(m, scan), must', len')
    ensures Next(m, scan) == NULL || scan < Next(m, scan) <= |m| - 3
  {
    hide Code;
    hide OnSpine;
    hide Next;
    hide StrLen;
    hide MustContain;
    if m[scan] == EXACTLY { SearchText(m, b, end, scan); }
    var next := Next(m, scan);
    if scan == end {
      forall y | Leads(m, scan, y) ensures y == scan { }
    } else {
      SpineNext(m, 4, b, end, scan);
      if next != end { SpineRoom(m, 4, b, end, next); }
      LeadsOneMore(m, 4, scan);
      forall y | Leads(m, scan, y) && y != scan ensures Leads(m, next, y) { }
    }
  }

  lemma SpineRoom(m: seq<byte>, p: int, r: Rx, k: int, x: int)
    requires Code(m, p, r, k) && OnSpine(r, p, x) && k != NULL
    ensures 0 < x && x + 3 <= |m|
  {
    hide Code;
    hide OnSpine;
    hide Next;
    SpineNext(m, p, r, k, x);
  }

  /** Note down what regexec can use to rule out matches early. */
  method DigOut(re: Regexp, flags: Flags, ghost r: Rx)
    requires re.Valid() && Program(re.program[..], r) && IsChoice(r) && InOrder(r, 1) && flags == FlagsOf(r)
    modifies re
    ensures Compiled(re, r)
  {
    hide Program;
    hide Searched;
    hide Next;
    hide StrLen;
    hide Code;
    hide OnSpine;
    hide StartsWithChar;
    hide MustContain;
    ghost var m, b, end := re.program[..], Nth(r, 0), 1 + Size(r);
    ProgramNodes(m, r);
    OneBranch(m, r);
    re.regstart := 0;
    re.reganch := false;
    re.regmust := NULL;
    re.regmlen := 0;
    var scan := 1;
    if re.program[NextIn(re.program, scan)] == END {
      ChoiceWellFormed(r);
      assert r == Branch(b);
      scan := scan + 3;
      CodeFirstOp(m, 4, b, end);
      if re.program[scan] == EXACTLY {
        StartHint(m, b, end);
        re.regstart := re.program[scan + 3];
      } else if re.program[scan] == BOL {
        AnchorHint(b);
        re.reganch := true;
      }
      if flags.spStart {
        var longest, len := LongestLiteral(re.program, scan, b, end);
        re.regmust := longest;
        re.regmlen := len;
      }
    }
  }

  lemma ProgramNodes(m: seq<byte>, r: Rx)
    requires Program(m, r)
    ensures Node(m, 1 + Size(r), END, NULL) && m[0] == MAGIC
  {
  }

  /** The longest literal on the links of the only branch, the last of several. */
  method LongestLiteral(program: array<byte>, start: nat, ghost b: Rx, ghost end: int) returns (longest: int, len: nat)
    requires start == 4 && Code(program[..], 4, b, end) && Node(program[..], end, END, NULL) && WellFormed(b)
    ensures Longest(program[..], 4, longest, len)
    ensures longest != NULL ==> MustContain(program[..], Branch(b), longest, len)
  {
    hide Code;
    hide Next;
    hide StrLen;
    hide Node;
    hide MustContain;
    ghost var m := program[..];
    CodeSize(m, 4, b, end);
    SearchStart(m, b, end);
    longest, len := NULL, 0;
    var scan: int := start;
    while scan != NULL
      invariant Searched(m, b, end, scan, longest, len)
      decreases if scan == NULL then 0 else 1 + |m| - scan
    {
      ghost var longest0, len0 := longest, len;
      if program[scan] == EXACTLY && StrLen(program[..], scan + 3) >= len {
        longest := scan + 3;
        len := StrLen(program[..], scan + 3);
      }
      SearchNext(m, b, end, scan, longest0, len0, longest, len);
      scan := NextIn(program, scan);
    }
  }

  // ---- regcomp ----

  /** Compile a pattern: once to check it and count bytes, once for real. With
      memory false, the allocation in between fails. */
  method RegComp(exp: seq<ch>, memory: bool) returns (r: Regexp?)
    ensures r != null <==> Parse(exp).Got? && ProgramSize(Parse(exp).r) < TOO_BIG && memory
    ensures r != null ==> fresh(r) && fresh(r.startp) && fresh(r.endp)
    ensures r != null ==> Compiled(r, Parse(exp).r) && r.program.Length == ProgramSize(Parse(exp).r)
  {
    hide HintsOK;
    hide ParseReg;
    hide Program;
    hide IsChoice;
    hide Hooked;
    hide InOrder;
    hide FlagsOf;
    hide Size;
    var c := new Compiler(exp);
    ghost var o := Parse(exp);
    // Parse, and count bytes.
    c.RegC(MAGIC);
    var ret, flags := c.Reg(false);
    if ret == NULL {
      return null;
    }
    // Links have two bytes.
    if c.regsize >= TOO_BIG {
      return null;
    }
    // One block for the struct and the program.
    if !memory {
      return null;
    }
    r := new Regexp(c.regsize);
    flags := SecondPass(c, r, o.r);
    RegNumbered(exp, 0, 1, false);
    DigOut(r, flags, o.r);
  }

  /** Parse again, and emit. */
  method SecondPass(c: Compiler, re: Regexp, ghost r: Rx) returns (flags: Flags)
    requires Parse(c.exp).Got? && Parse(c.exp).r == r && re.program.Length == ProgramSize(r) < TOO_BIG
    modifies c, re.program
    ensures Program(re.program[..], r) && flags == FlagsOf(r)
  {
    hide ParseReg;
    hide Program;
    hide IsChoice;
    hide Hooked;
    hide FlagsOf;
    hide Size;
    c.regparse := 0;
    c.regnpar := 1;
    c.program := re.program;
    c.regcode := 0;
    c.RegC(MAGIC);
    ghost var before := c.Out();
    var ret;
    ret, flags := c.Reg(false);
    ProgramComplete(c.Out(), before, r);
    assert c.Out() == re.program[..];
  }

  lemma ProgramComplete(m: seq<byte>, before: seq<byte>, r: Rx)
    requires before == [MAGIC] && before <= m && Hooked(m, NULL, END, 1, r, 1 + Size(r), END, Count(r))
    ensures Program(m, r)
  {
    hide Choice;
    hide Next;
    assert m[0] == before[0];
  }

  // ---- regexec ----

  /** A match of r starts at i. */
  ghost predicate MatchesAt(r: Rx, s: seq<ch>, i: nat) {
    exists j: nat :: Matches(r, s, i, j)
  }

  /** What the group pointers say after a match from i: where the preferred one of
      the matches there ends, and where each group was last opened and closed in it. */
  ghost predicate Reported(re: Regexp, r: Rx, s: seq<ch>, i: int)
    requires re.Valid()
    reads re.startp, re.endp
  {
    re.startp[0] == i && 0 <= i && Ranked(r, s, i) != [] &&
    var m := Ranked(r, s, i)[0];
    re.endp[0] == m.end && re.Marked(m.t)
  }

  /** So a group's pointers are both set, around text that its body matches, or
      both NULL. */
  lemma GroupsReported(re: Regexp, r: Rx, s: seq<ch>, i: nat)
    requires re.Valid() && InOrder(r, 1) && Reported(re, r, s, i)
    ensures 0 <= re.endp[0] && Matches(r, s, i, re.endp[0])
    ensures forall n: nat :: 1 <= n < NSUBEXP ==>
              if n in Listing(r) && re.startp[n] != NULL then
                0 <= re.startp[n] && 0 <= re.endp[n] && Matches(Listing(r)[n], s, re.startp[n], re.endp[n])
              else
                re.startp[n] == NULL && re.endp[n] == NULL
  {
    hide Matches;
    hide Derives;
    hide LastOpen;
    hide LastClose;
    hide Listing;
    hide InOrder;
    hide Ranked;
    var t := Ranked(r, s, i)[0].t;
    RankedMatches(r, s, i, Ranked(r, s, i)[0]);
    GroupsEnclose(r, 1, s, i, re.endp[0], t);
    forall n: nat | 1 <= n < NSUBEXP
      ensures if n in Listing(r) && re.startp[n] != NULL then
                0 <= re.startp[n] && 0 <= re.endp[n] && Matches(Listing(r)[n], s, re.startp[n], re.endp[n])
              else
                re.startp[n] == NULL && re.endp[n] == NULL
    {
      assert n in Listing(r) ==> Encloses(t, n, Listing(r)[n], s);
    }
  }

  ghost predicate NothingReported(re: Regexp)
    requires re.Valid()
    reads re.startp, re.endp
  {
    forall n :: 0 <= n < NSUBEXP ==> re.startp[n] == NULL && re.endp[n] == NULL
  }

  lemma TryReady(m: seq<byte>, r: Rx, s: seq<ch>, i: nat, c: Cont)
    requires Program(m, r) && IsChoice(r) && i <= |s| && c == Alts(r, 1 + Size(r), Done)
    ensures RegexCont.Ready(m, 1, c, s, i)
  {
    hide Choice;
    hide Next;
    hide IsChoice;
    hide WellFormed;
    ChoiceWellFormed(r);
    assert Impl(m, 1, c) by { assert Impl(m, 1 + Size(r), Done); }
    assert Need(c, i) by { assert forall h: nat :: Need(Done, h); }
    assert Tidy(c) by { assert Tidy(Done); }
  }

  lemma TryAhead(r: Rx, s: seq<ch>, i: nat, c: Cont)
    requires i <= |s| && c == Alts(r, 1 + Size(r), Done)
    ensures Ahead(c, s, i) == Ranked(r, s, i)
  {
    hide Ranked;
    hide Each;
    forall m | m in Ranked(r, s, i) ensures AheadFrom(Done, s)(m.end) == [Match(m.end, [])] {
      RankedMatches(r, s, i, m);
      MatchBounds(r, s, i, m.end);
    }
    EachLast(Ranked(r, s, i), AheadFrom(Done, s));
  }

  /** A match starts here exactly when one is ranked. */
  lemma MatchesRanked(r: Rx, s: seq<ch>, i: nat)
    ensures MatchesAt(r, s, i) <==> Ranked(r, s, i) != []
  {
    hide Ranked;
    hide Matches;
    if MatchesAt(r, s, i) {
      var j: nat :| Matches(r, s, i, j);
      MatchRanked(r, s, i, j);
    }
    if Ranked(r, s, i) != [] {
      RankedMatches(r, s, i, Ranked(r, s, i)[0]);
    }
  }

  /** Does a match start at i? If so, report it and its groups. */
  method RegTry(re: Regexp, s: seq<ch>, i: nat, ghost r: Rx) returns (ok: bool)
    requires Compiled(re, r) && i <= |s|
    modifies re.startp, re.endp
    ensures ok <==> MatchesAt(r, s, i)
    ensures ok ==> re.startp[0] == i
    ensures if ok then Reported(re, r, s, i) else NothingReported(re)
  {
    hide HintsOK;
    hide Program;
    hide RegexCont.Ready;
    hide Ahead;
    hide Ranked;
    hide MatchesAt;
    hide LastOpen;
    hide LastClose;
    var matcher := new Matcher(re, s);
    ghost var c := Alts(r, 1 + Size(r), Done);
    TryReady(re.program[..], r, s, i, c);
    TryAhead(r, s, i, c);
    MatchesRanked(r, s, i);
    matcher.reginput := i;
    var k := 0;
    while k < NSUBEXP
      invariant 0 <= k <= NSUBEXP
      invariant forall n :: 0 <= n < k ==> re.startp[n] == NULL && re.endp[n] == NULL
      invariant matcher.reginput == i
    {
      re.startp[k] := NULL;
      re.endp[k] := NULL;
      k := k + 1;
    }
    ok := matcher.RegMatch(1, c);
    if ok {
      re.startp[0] := i;
      re.endp[0] := matcher.reginput;
      assert re.Marked(Ranked(r, s, i)[0].t);
    }
  }

  /** strchr: the first b in s at or after i, for b not NUL. */
  method StrChrFrom(s: seq<ch>, i: nat, b: byte) returns (k: int)
    requires i <= |s| && b != 0
    ensures k != NULL ==> i <= k < |s| && s[k] == b
    ensures forall n :: i <= n < (if k == NULL then |s| else k) ==> s[n] != b
  {
    k := i;
    while k < |s| && s[k] != b
      invariant i <= k <= |s|
      invariant forall n :: i <= n < k ==> s[n] != b
    {
      k := k + 1;
    }
    if k == |s| {
      k := NULL;
    }
  }

  /** Does the string that must appear appear? */
  method Appears(re: Regexp, s: seq<ch>, ghost cs: seq<ch>) returns (yes: bool)
    requires 0 <= re.regmust && cs != [] && |cs| == re.regmlen && Text(re.program[..], re.regmust, cs)
    ensures yes <==> exists k :: OccursAt(cs, s, k)
  {
    ghost var m, q := re.program[..], re.regmust;
    assert m[q + 0] == cs[0];
    var b := re.program[re.regmust];
    var k := StrChrFrom(s, 0, b);
    while k != NULL
      invariant k == NULL || (0 <= k < |s| && s[k] == b)
      invariant forall n: nat :: n < (if k == NULL then |s| else k) ==> !OccursAt(cs, s, n)
      decreases if k == NULL then 0 else 1 + |s| - k
    {
      TextCmp(m, q, cs, s, k);
      if StrNCmp(re.program[..], re.regmust, s, k, re.regmlen) {
        assert OccursAt(cs, s, k);
        return true;
      }
      var k' := StrChrFrom(s, k + 1, b);
      forall n: nat | OccursAt(cs, s, n) ensures n < |s| && s[n] == b { OccursHere(cs, s, n); }
      k := k';
    }
    return false;
  }

  lemma OccursHere(cs: seq<ch>, s: seq<ch>, n: nat)
    requires cs != [] && OccursAt(cs, s, n)
    ensures n < |s| && s[n] == cs[0]
  {
    assert s[n..n + |cs|][0] == s[n];
  }

  /** Search s for the leftmost match. The hints never change the answer. */
  method RegExec(re: Regexp, s: seq<ch>, ghost r: Rx) returns (ok: bool)
    requires re.Valid() && re.program.Length > 0 && (re.program[0] == MAGIC ==> Compiled(re, r))
    modifies re.startp, re.endp
    ensures re.program[0] != MAGIC ==> !ok
    ensures re.program[0] == MAGIC ==> (ok <==> exists i: nat :: MatchesAt(r, s, i))
    ensures ok ==> Reported(re, r, s, re.startp[0]) && forall i: nat :: i < re.startp[0] ==> !MatchesAt(r, s, i)
  {
    hide HintsOK;
    hide Program;
    hide MatchesAt;
    hide Reported;
    // Only what regcomp made starts with MAGIC.
    if re.program[0] != MAGIC {
      return false;                           // not a program
    }
    ghost var m := re.program[..];
    // Without the required string there is no match.
    if re.regmust != NULL {
      ghost var cs := MustHint(m, r, re.regstart, re.reganch, re.regmust, re.regmlen);
      ok := Appears(re, s, cs);
      if !ok {
        forall i: nat | MatchesAt(r, s, i) ensures false { MatchOccurs(r, s, i, cs); }
        return;
      }
    }
    // An anchored match can only start at the beginning.
    if re.reganch {
      ok := RegTry(re, s, 0, r);
      forall i: nat | 0 < i ensures !MatchesAt(r, s, i) {
        AnchorOnly(m, r, re.regstart, re.reganch, re.regmust, re.regmlen, s, i);
      }
      return;
    }
    // Any other can start anywhere.
    if re.regstart != 0 {
      ok := TryEachStart(re, s, r);
    } else {
      ok := TryAll(re, s, r);
    }
  }

  lemma MustHint(m: seq<byte>, r: Rx, start: byte, anch: bool, must: int, len: nat) returns (cs: seq<ch>)
    requires HintsOK(m, r, start, anch, must, len) && must != NULL
    ensures 0 <= must && cs != [] && |cs| == len && Text(m, must, cs) && Required(r, cs)
  {
    hide Text;
    hide Required;
    cs :| cs != [] && |cs| == len && Text(m, must, cs) && Required(r, cs);
  }

  lemma MatchOccurs(r: Rx, s: seq<ch>, i: nat, cs: seq<ch>)
    requires Required(r, cs) && MatchesAt(r, s, i)
    ensures exists k :: OccursAt(cs, s, k)
  {
    var j: nat :| Matches(r, s, i, j);
    assert Occurs(cs, s, i, j);
  }

  lemma AnchorOnly(m: seq<byte>, r: Rx, start: byte, anch: bool, must: int, len: nat, s: seq<ch>, i: nat)
    requires HintsOK(m, r, start, anch, must, len) && anch && 0 < i
    ensures !MatchesAt(r, s, i)
  {
  }

  lemma StartOnly(m: seq<byte>, r: Rx, start: byte, anch: bool, must: int, len: nat, s: seq<ch>, i: nat)
    requires HintsOK(m, r, start, anch, must, len) && start != 0 && !(i < |s| && s[i] == start)
    ensures !MatchesAt(r, s, i)
  {
  }

  lemma BeyondEnd(r: Rx, s: seq<ch>, i: nat)
    requires |s| < i
    ensures !MatchesAt(r, s, i)
  {
  }

  /** Try only where the first character is right. */
  method TryEachStart(re: Regexp, s: seq<ch>, ghost r: Rx) returns (ok: bool)
    requires Compiled(re, r) && re.regstart != 0
    modifies re.startp, re.endp
    ensures ok <==> exists i: nat :: MatchesAt(r, s, i)
    ensures ok ==> Reported(re, r, s, re.startp[0]) && forall i: nat :: i < re.startp[0] ==> !MatchesAt(r, s, i)
  {
    hide HintsOK;
    hide Program;
    hide MatchesAt;
    hide IsChoice;
    ghost var m := re.program[..];
    var i := StrChrFrom(s, 0, re.regstart);
    forall n: nat | !(n < |s| && s[n] == re.regstart) ensures !MatchesAt(r, s, n) {
      StartOnly(m, r, re.regstart, re.reganch, re.regmust, re.regmlen, s, n);
    }
    while i != NULL
      invariant i == NULL || 0 <= i < |s|
      invariant forall n: nat :: i == NULL || n < i ==> !MatchesAt(r, s, n)
      invariant re.program[..] == m
      decreases if i == NULL then 0 else 1 + |s| - i
    {
      ok := RegTry(re, s, i, r);
      if ok {
        return;
      }
      i := StrChrFrom(s, i + 1, re.regstart);
    }
    return false;
  }

  /** Try everywhere, the end included. */
  method TryAll(re: Regexp, s: seq<ch>, ghost r: Rx) returns (ok: bool)
    requires Compiled(re, r)
    modifies re.startp, re.endp
    ensures ok <==> exists i: nat :: MatchesAt(r, s, i)
    ensures ok ==> Reported(re, r, s, re.startp[0]) && forall i: nat :: i < re.startp[0] ==> !MatchesAt(r, s, i)
  {
    hide HintsOK;
    hide Program;
    hide MatchesAt;
    hide IsChoice;
    ghost var m := re.program[..];
    var i := 0;
    forall n: nat | |s| < n ensures !MatchesAt(r, s, n) { BeyondEnd(r, s, n); }
    while true
      invariant 0 <= i <= |s| && re.program[..] == m
      invariant forall n: nat :: n < i ==> !MatchesAt(r, s, n)
      decreases |s| - i
    {
      ok := RegTry(re, s, i, r);
      if ok {
        return;
      }
      if At(s, i) == 0 {
        return false;
      }
      i := i + 1;
    }
  }

  /** A match in the language of the pattern's one and only tree. */
  ghost predicate Found(exp: seq<ch>, s: seq<ch>) {
    exists r, i: nat :: RegexSyntax.Pattern(exp, r) && MatchesAt(r, s, i)
  }

  lemma FoundIs(exp: seq<ch>, r: Rx, s: seq<ch>)
    requires RegexSyntax.Pattern(exp, r)
    ensures Found(exp, s) <==> exists i: nat :: MatchesAt(r, s, i)
  {
    hide RegexSyntax.Pattern;
    hide MatchesAt;
    if Found(exp, s) {
      var r', i: nat :| RegexSyntax.Pattern(exp, r') && MatchesAt(r', s, i);
      RegexSyntax.OneTree(exp, r, r');
    }
  }

  /** Compile a pattern and search a string for it: found exactly when the string
      has a match, whatever was compiled and however it was searched. */
  method Search(exp: seq<ch>, s: seq<ch>, memory: bool) returns (compiled: bool, found: bool)
    ensures compiled <==> memory && exists r :: RegexSyntax.Pattern(exp, r) && ProgramSize(r) < 32767
    ensures found <==> compiled && Found(exp, s)
  {
    hide RegexSyntax.Pattern;
    hide Parse;
    hide Compiled;
    hide MatchesAt;
    hide Reported;
    hide Found;
    ghost var o := Parse(exp);
    forall r ensures RegexSyntax.Pattern(exp, r) <==> o.Got? && o.r == r { ParseIsPattern(exp, r); }
    var re := RegComp(exp, memory);
    if re == null {
      return false, false;
    }
    CompiledValid(re, o.r);
    found := RegExec(re, s, o.r);
    FoundIs(exp, o.r, s);
    compiled := true;
  }

  lemma CompiledValid(re: Regexp, r: Rx)
    requires Compiled(re, r)
    ensures re.Valid() && re.program.Length > 0 && re.program[0] == MAGIC
  {
    ProgramNodes(re.program[..], r);
  }
}
