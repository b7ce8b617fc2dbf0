/** Derivations of a match, with the parentheses passed on the way. */
module RegexTraces {
  import opened CTypes
  import opened RegexLanguage
  import opened RegexCode

  /** A parenthesis of group no, passed at a position of the subject. */
  datatype Event = Open(no: nat, at: nat) | Close(no: nat, at: nat)

  type Trace = seq<Event>

  /** r matches s[i..j] with a derivation that passes these parentheses, in order. */
  ghost predicate Derives(r: Rx, s: seq<ch>, i: nat, j: nat, t: Trace)
    decreases r, 0
  {
    i <= j <= |s| &&
    match r
    case Group(no, b) =>
      |t| >= 2 && t[0] == Open(no, i) && t[|t| - 1] == Close(no, j) && Derives(b, s, i, j, t[1..|t| - 1])
    case Star(x) => Rounds(x, s, i, j, t)
    case Plus(x) =>
      exists k, t1, t2 :: i <= k <= j && Derives(x, s, i, k, t1) && Rounds(x, s, k, j, t2) && t == t1 + t2
    case Opt(x) => (i == j && t == []) || Derives(x, s, i, j, t)
    case Cat(a, b) =>
      exists k, t1, t2 :: i <= k <= j && Derives(a, s, i, k, t1) && Derives(b, s, k, j, t2) && t == t1 + t2
    case Branch(b) => Derives(b, s, i, j, t)
    case Alt(a, b) => Derives(a, s, i, j, t) || Derives(b, s, i, j, t)
    case _ => Matches(r, s, i, j) && t == []
  }

  /** Zero or more derivations of x one after the other, none of an empty match. */
  ghost predicate Rounds(x: Rx, s: seq<ch>, i: nat, j: nat, t: Trace)
    decreases x, 1 + if i <= j then j - i else 0
  {
    i <= j <= |s| &&
    if i == j then t == []
    else exists k, t1, t2 :: i < k <= j && Derives(x, s, i, k, t1) && Rounds(x, s, k, j, t2) && t == t1 + t2
  }

  // ---- Putting derivations together, and taking them apart ----

  lemma GroupDerives(no: nat, b: Rx, s: seq<ch>, i: nat, j: nat, t: Trace)
    requires Derives(b, s, i, j, t)
    ensures Derives(Group(no, b), s, i, j, [Open(no, i)] + t + [Close(no, j)])
  {
    var u := [Open(no, i)] + t + [Close(no, j)];
    assert u[1..|u| - 1] == t;
  }

  lemma CatDerives(a: Rx, b: Rx, s: seq<ch>, i: nat, k: nat, j: nat, t1: Trace, t2: Trace)
    requires Derives(a, s, i, k, t1) && Derives(b, s, k, j, t2)
    ensures Derives(Cat(a, b), s, i, j, t1 + t2)
  {
  }

  lemma PlusDerives(x: Rx, s: seq<ch>, i: nat, k: nat, j: nat, t1: Trace, t2: Trace)
    requires Derives(x, s, i, k, t1) && Rounds(x, s, k, j, t2)
    ensures Derives(Plus(x), s, i, j, t1 + t2)
  {
    assert k <= j;
  }

  lemma OneMoreRound(x: Rx, s: seq<ch>, i: nat, k: nat, j: nat, t1: Trace, t2: Trace)
    requires Derives(x, s, i, k, t1) && Rounds(x, s, k, j, t2) && i < k
    ensures Rounds(x, s, i, j, t1 + t2)
  {
    assert k <= j;
  }

  lemma GroupTrace(no: nat, b: Rx, s: seq<ch>, i: nat, j: nat, t: Trace) returns (u: Trace)
    requires Derives(Group(no, b), s, i, j, t)
    ensures Derives(b, s, i, j, u) && t == [Open(no, i)] + u + [Close(no, j)]
  {
    u := t[1..|t| - 1];
  }

  lemma CatTraces(a: Rx, b: Rx, s: seq<ch>, i: nat, j: nat, t: Trace) returns (k: nat, t1: Trace, t2: Trace)
    requires Derives(Cat(a, b), s, i, j, t)
    ensures i <= k <= j && Derives(a, s, i, k, t1) && Derives(b, s, k, j, t2) && t == t1 + t2
  {
    k, t1, t2 :| i <= k <= j && Derives(a, s, i, k, t1) && Derives(b, s, k, j, t2) && t == t1 + t2;
  }

  lemma PlusTraces(x: Rx, s: seq<ch>, i: nat, j: nat, t: Trace) returns (k: nat, t1: Trace, t2: Trace)
    requires Derives(Plus(x), s, i, j, t)
    ensures i <= k <= j && Derives(x, s, i, k, t1) && Rounds(x, s, k, j, t2) && t == t1 + t2
  {
    k, t1, t2 :| i <= k <= j && Derives(x, s, i, k, t1) && Rounds(x, s, k, j, t2) && t == t1 + t2;
  }

  lemma RoundsTraces(x: Rx, s: seq<ch>, i: nat, j: nat, t: Trace) returns (k: nat, t1: Trace, t2: Trace)
    requires Rounds(x, s, i, j, t) && i != j
    ensures i < k <= j && Derives(x, s, i, k, t1) && Rounds(x, s, k, j, t2) && t == t1 + t2
  {
    k, t1, t2 :| i < k <= j && Derives(x, s, i, k, t1) && Rounds(x, s, k, j, t2) && t == t1 + t2;
  }

  lemma RoundsBounds(x: Rx, s: seq<ch>, i: nat, j: nat, t: Trace)
    requires Rounds(x, s, i, j, t)
    ensures i <= j <= |s| && (i == j ==> t == [])
  {
  }

  // ---- Derivations and matches ----

  /** Whatever has a derivation is a match ... */
  lemma {:induction false} DerivesMatches(r: Rx, s: seq<ch>, i: nat, j: nat, t: Trace)
    requires Derives(r, s, i, j, t)
    ensures Matches(r, s, i, j)
    decreases r, 0
  {
    match r
    case Group(no, b) => DerivesMatches(b, s, i, j, t[1..|t| - 1]);
    case Star(x) => RoundsIterate(x, s, i, j, t);
    case Plus(x) =>
      var k, t1, t2 := PlusTraces(x, s, i, j, t);
      DerivesMatches(x, s, i, k, t1);
      RoundsIterate(x, s, k, j, t2);
    case Opt(x) => if !(i == j && t == []) { DerivesMatches(x, s, i, j, t); }
    case Cat(a, b) =>
      var k, t1, t2 := CatTraces(a, b, s, i, j, t);
      DerivesMatches(a, s, i, k, t1);
      DerivesMatches(b, s, k, j, t2);
    case Branch(b) => DerivesMatches(b, s, i, j, t);
    case Alt(a, b) =>
      if Derives(a, s, i, j, t) { DerivesMatches(a, s, i, j, t); } else { DerivesMatches(b, s, i, j, t); }
    case _ =>
  }

  lemma {:induction false} RoundsIterate(x: Rx, s: seq<ch>, i: nat, j: nat, t: Trace)
    requires Rounds(x, s, i, j, t)
    ensures Iterates(x, s, i, j)
    decreases x, 1 + if i <= j then j - i else 0
  {
    if i != j {
      var k, t1, t2 := RoundsTraces(x, s, i, j, t);
      DerivesMatches(x, s, i, k, t1);
      RoundsIterate(x, s, k, j, t2);
    }
  }

  /** ... and every match has a derivation. */
  lemma {:induction false} MatchesDerives(r: Rx, s: seq<ch>, i: nat, j: nat) returns (t: Trace)
    requires Matches(r, s, i, j)
    ensures Derives(r, s, i, j, t)
    decreases r, 0
  {
    t := [];
    match r
    case Group(no, b) =>
      var u := MatchesDerives(b, s, i, j);
      t := [Open(no, i)] + u + [Close(no, j)];
      assert t[1..|t| - 1] == u;
    case Star(x) => t := IteratesRounds(x, s, i, j);
    case Plus(x) =>
      var k := PlusSplit(x, s, i, j);
      var t1 := MatchesDerives(x, s, i, k);
      var t2 := IteratesRounds(x, s, k, j);
      t := t1 + t2;
    case Opt(x) => if i != j { t := MatchesDerives(x, s, i, j); }
    case Cat(a, b) =>
      var k := CatSplit(a, b, s, i, j);
      var t1 := MatchesDerives(a, s, i, k);
      var t2 := MatchesDerives(b, s, k, j);
      t := t1 + t2;
    case Branch(b) => t := MatchesDerives(b, s, i, j);
    case Alt(a, b) =>
      if Matches(a, s, i, j) { t := MatchesDerives(a, s, i, j); } else { t := MatchesDerives(b, s, i, j); }
    case _ =>
  }

  lemma {:induction false} IteratesRounds(x: Rx, s: seq<ch>, i: nat, j: nat) returns (t: Trace)
    requires Iterates(x, s, i, j)
    ensures Rounds(x, s, i, j, t)
    decreases x, 1 + if i <= j then j - i else 0
  {
    t := [];
    if i != j {
      var k := StarSplit(x, s, i, j);
      var t1 := MatchesDerives(x, s, i, k);
      var t2 := IteratesRounds(x, s, k, j);
      t := t1 + t2;
    }
  }

  // ---- The last parentheses of a group ----

  /** Where group n was opened last, NULL if it was not. */
  function LastOpen(t: Trace, n: nat): int {
    if t == [] then NULL
    else if LastOpen(t[1..], n) != NULL then LastOpen(t[1..], n)
    else if t[0] == Open(n, t[0].at) then t[0].at
    else NULL
  }

  /** Where group n was closed last, NULL if it was not. */
  function LastClose(t: Trace, n: nat): int {
    if t == [] then NULL
    else if LastClose(t[1..], n) != NULL then LastClose(t[1..], n)
    else if t[0] == Close(n, t[0].at) then t[0].at
    else NULL
  }

  lemma {:induction false} LastOfTwo(t1: Trace, t2: Trace, n: nat)
    ensures LastOpen(t1 + t2, n) == if LastOpen(t2, n) != NULL then LastOpen(t2, n) else LastOpen(t1, n)
    ensures LastClose(t1 + t2, n) == if LastClose(t2, n) != NULL then LastClose(t2, n) else LastClose(t1, n)
  {
    if t1 == [] {
      assert t1 + t2 == t2;
    } else {
      LastOfTwo(t1[1..], t2, n);
      assert (t1 + t2)[1..] == t1[1..] + t2;
    }
  }

  /** That is the position of the last such event: k is its index, -1 if there is none. */
  lemma {:induction false} LastOpenIs(t: Trace, n: nat, k: int)
    requires -1 <= k < |t| && (forall h :: k < h < |t| ==> !(t[h].Open? && t[h].no == n))
    requires k >= 0 ==> t[k].Open? && t[k].no == n
    ensures LastOpen(t, n) == if k < 0 then -1 else t[k].at
  {
    if t != [] {
      LastOpenIs(t[1..], n, if k > 0 then k - 1 else -1);
    }
  }

  lemma {:induction false} LastCloseIs(t: Trace, n: nat, k: int)
    requires -1 <= k < |t| && (forall h :: k < h < |t| ==> !(t[h].Close? && t[h].no == n))
    requires k >= 0 ==> t[k].Close? && t[k].no == n
    ensures LastClose(t, n) == if k < 0 then -1 else t[k].at
  {
    if t != [] {
      LastCloseIs(t[1..], n, if k > 0 then k - 1 else -1);
    }
  }
}
