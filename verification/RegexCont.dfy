/** What the matcher still has to match at any moment, as a value: a stack of
    expressions, closing parentheses and loops, mirroring the code that is
    about to run. */
module RegexCont {
  import opened CTypes
  import opened RegexLanguage
  import opened RegexCode
  import opened RegexTraces
  import opened RegexRanking

  datatype Cont =
    | Done                                                                // the END node
    | Then(r: Rx, k: int, rest: Cont)                                     // the code of r, then on at k
    | Alts(b: Rx, k: int, rest: Cont)                                     // the branches of a choice that ends at k
    | Closing(no: nat, k: int, rest: Cont)                                // the CLOSE node of group no
    | Loop(r: Rx, start: int, k: int, low: nat, rest: Cont)               // the BACK node of r, entered at low
    | PlusLoop(x: Rx, start: int, k: int, low: nat, rest: Cont)           // the branches after the operand of x+

  /** The program text at p is the code of c. */
  ghost predicate Impl(m: seq<byte>, p: int, c: Cont)
    decreases c
  {
    0 < p && p + 3 <= |m| &&
    match c
    case Done => Node(m, p, END, NULL)
    case Then(r, k, rest) => p < k && Code(m, p, r, k) && Impl(m, k, rest)
    case Alts(b, k, rest) =>
      p < k && Choice(m, p, b, k, k, Count(b)) && Impl(m, k, rest) && (rest.Done? || rest.Closing?)
    case Closing(no, k, rest) => p < k && 1 <= no <= 9 && Node(m, p, CLOSE + no, k) && Impl(m, k, rest)
    case Loop(r, start, k, _, rest) =>
      0 < start < p < k && Looping(r) && Node(m, p, BACK, start) && Code(m, start, r, k) && Impl(m, k, rest)
    case PlusLoop(x, start, k, _, rest) =>
      0 < start < p < k && Looping(Plus(x)) && p + 12 <= |m| && PlusTail(m, p, start, k) && p + 9 < k &&
      Code(m, start, Plus(x), k) && Impl(m, k, rest)
  }

  /** A star or plus whose operand is complex. */
  predicate Looping(r: Rx) {
    (r.Star? || r.Plus?) && !IsSimple(r.x)
  }

  /** All ways for the rest to match from i on, the preferred ones first, with the
      parentheses that are still to pass. */
  ghost function Ahead(c: Cont, s: seq<ch>, i: nat): seq<Match>
    decreases c, 0
  {
    if i > |s| then [] else
    match c
    case Done => [Match(i, [])]
    case Then(r, _, rest) => Each(Ranked(r, s, i), AheadFrom(rest, s))
    case Alts(b, _, rest) => Each(Ranked(b, s, i), AheadFrom(rest, s))
    case Closing(no, _, rest) => Prefixed([Close(no, i)], Ahead(rest, s, i))
    case Loop(r, _, _, _, rest) => Each(Ranked(r, s, i), AheadFrom(rest, s))
    case PlusLoop(x, _, _, _, rest) => Each(Loops(x, s, i), AheadFrom(rest, s))
  }

  ghost function AheadFrom(c: Cont, s: seq<ch>): nat -> seq<Match>
    decreases c, 1
  {
    (k: nat) => Ahead(c, s, k)
  }

  // ---- Termination: every trip round a loop has consumed input ----

  function Width(r: Rx): nat {
    if HasWidth(r) then 1 else 0
  }

  /** By the time a loop's BACK node is reached, the position is past its entry. */
  predicate Need(c: Cont, i: nat) {
    match c
    case Done => true
    case Then(r, _, rest) => Need(rest, i + Width(r))
    case Alts(b, _, rest) => Need(rest, i + Width(b))
    case Closing(_, _, rest) => Need(rest, i)
    case Loop(r, _, _, low, rest) => low < i && Need(rest, i + Width(r))
    case PlusLoop(_, _, _, low, rest) => low < i && Need(rest, i)
  }

  lemma {:induction false} NeedMore(c: Cont, i: nat, i': nat)
    requires Need(c, i) && i <= i'
    ensures Need(c, i')
  {
    match c
    case Done =>
    case Then(r, _, rest) => NeedMore(rest, i + Width(r), i' + Width(r));
    case Alts(b, _, rest) => NeedMore(rest, i + Width(b), i' + Width(b));
    case Closing(_, _, rest) => NeedMore(rest, i, i');
    case Loop(r, _, _, _, rest) => NeedMore(rest, i + Width(r), i' + Width(r));
    case PlusLoop(_, _, _, _, rest) => NeedMore(rest, i, i');
  }

  /** How many pending loops may still be taken again without consuming. */
  function Armed(c: Cont, i: nat): nat {
    match c
    case Done => 0
    case Then(_, _, rest) => Armed(rest, i)
    case Alts(_, _, rest) => Armed(rest, i)
    case Closing(_, _, rest) => Armed(rest, i)
    case Loop(_, _, _, low, rest) => (if low < i then 1 else 0) + Armed(rest, i)
    case PlusLoop(_, _, _, low, rest) => (if low < i then 1 else 0) + Armed(rest, i)
  }

  // ---- The invariant ----

  /** All expressions are well-formed. */
  predicate Tidy(c: Cont) {
    match c
    case Done => true
    case Then(r, _, rest) => WellFormed(r) && Tidy(rest)
    case Alts(b, _, rest) => WellFormed(b) && Tidy(rest)
    case Closing(_, _, rest) => Tidy(rest)
    case Loop(r, _, _, _, rest) => WellFormed(r) && Tidy(rest)
    case PlusLoop(x, _, _, _, rest) => WellFormed(x) && HasWidth(x) && Tidy(rest)
  }

  /** Everything the matcher keeps true of where it is and what is left. */
  ghost predicate Ready(m: seq<byte>, p: int, c: Cont, s: seq<ch>, i: int) {
    0 <= i <= |s| && Impl(m, p, c) && Need(c, i) && Tidy(c)
  }
}
