/** The K&R heap: a circular free list in address order, with a roving start
    point. Addresses count units of sizeof(struct memh) bytes from the list's root;
    a block is a header unit followed by its payload. */
module Malloc {
  const NULL: int := -1

  // ---- Blocks: a partition of the memory obtained so far ----

  predicate Within(u: nat, a: nat, n: nat) {
    a <= u < a + n
  }

  /** The n units from a on. */
  ghost function Span(a: nat, n: nat): set<nat> {
    set u: nat | u < a + n && Within(u, a, n)
  }

  /** owner with the n units from a on given to b. */
  function Given(owner: seq<nat>, a: nat, n: nat, b: nat): (o: seq<nat>)
    ensures |o| == |owner|
    ensures forall u :: 0 <= u < |o| ==> o[u] == if a <= u < a + n then b else owner[u]
  {
    seq(|owner|, u requires 0 <= u < |owner| => if a <= u < a + n then b else owner[u])
  }

  ghost predicate Block(size: seq<nat>, owner: seq<nat>, base: nat, brk: nat, a: nat) {
    base <= a < |size| && 1 <= size[a] && a + size[a] <= brk <= |owner| &&
    forall u :: a <= u < a + size[a] ==> owner[u] == a
  }

  ghost predicate Owned(size: seq<nat>, owner: seq<nat>, blocks: set<nat>, u: nat) {
    u < |owner| == |size| && owner[u] in blocks && owner[u] < |size| && owner[u] <= u < owner[u] + size[owner[u]]
  }

  /** Every unit between base and brk belongs to exactly one block: its owner. */
  ghost predicate Tiled(size: seq<nat>, owner: seq<nat>, base: nat, brk: nat, blocks: set<nat>) {
    |owner| == |size| && 0 < base <= brk <= |size| &&
    (forall a :: a in blocks ==> Block(size, owner, base, brk, a)) &&
    (forall u :: base <= u < brk ==> Owned(size, owner, blocks, u))
  }

  /** Blocks do not overlap. */
  lemma TiledOrder(size: seq<nat>, owner: seq<nat>, base: nat, brk: nat, blocks: set<nat>, a: nat, b: nat)
    requires Tiled(size, owner, base, brk, blocks) && a in blocks && b in blocks && a < b
    ensures b < |size| && a + size[a] <= b
  {
    assert Block(size, owner, base, brk, a) && Block(size, owner, base, brk, b);
    assert owner[b] == b;
  }

  /** Two blocks that touch can be made one. */
  lemma Merged(size: seq<nat>, owner: seq<nat>, base: nat, brk: nat, blocks: set<nat>, a: nat, b: nat)
    requires Tiled(size, owner, base, brk, blocks) && a in blocks && b in blocks && a < |size| &&
             a + size[a] == b < |size|
    ensures Tiled(size[a := size[a] + size[b]], Given(owner, b, size[b], a), base, brk, blocks - {b})
  {
    var size', owner', blocks' := size[a := size[a] + size[b]], Given(owner, b, size[b], a), blocks - {b};
    assert Block(size, owner, base, brk, a) && Block(size, owner, base, brk, b);
    forall c | c in blocks' ensures Block(size', owner', base, brk, c) {
      assert Block(size, owner, base, brk, c);
      if c != a {
        forall u | c <= u < c + size'[c] ensures owner'[u] == c { assert owner[u] == c; }
      }
    }
    forall u | base <= u < brk ensures Owned(size', owner', blocks', u) {
      assert Owned(size, owner, blocks, u);
    }
  }

  /** A block can be split, the new block taking its last n units. */
  lemma Split(size: seq<nat>, owner: seq<nat>, base: nat, brk: nat, blocks: set<nat>, a: nat, n: nat, b: nat)
    requires Tiled(size, owner, base, brk, blocks) && a in blocks && a < |size| && 1 <= n < size[a] &&
             b == a + size[a] - n
    ensures b < |size| && b !in blocks
    ensures Tiled(size[a := size[a] - n][b := n], Given(owner, b, n, b), base, brk, blocks + {b})
  {
    assert Block(size, owner, base, brk, a);
    assert owner[b] == a;
    assert b in blocks ==> Block(size, owner, base, brk, b);
    var size', owner', blocks' := size[a := size[a] - n][b := n], Given(owner, b, n, b), blocks + {b};
    forall c | c in blocks' ensures Block(size', owner', base, brk, c) {
      if c != b {
        assert Block(size, owner, base, brk, c);
        forall u | c <= u < c + size'[c] ensures owner'[u] == c { assert owner[u] == c; }
      }
    }
    forall u | base <= u < brk ensures Owned(size', owner', blocks', u) {
      assert Owned(size, owner, blocks, u);
    }
  }

  /** The memory beyond brk can be made a block. */
  lemma Grown(size: seq<nat>, owner: seq<nat>, base: nat, brk: nat, blocks: set<nat>, n: nat)
    requires Tiled(size, owner, base, brk, blocks) && 1 <= n && brk + n <= |size|
    ensures brk !in blocks
    ensures Tiled(size[brk := n], Given(owner, brk, n, brk), base, brk + n, blocks + {brk})
  {
    assert brk in blocks ==> Block(size, owner, base, brk, brk);
    var size', owner', blocks' := size[brk := n], Given(owner, brk, n, brk), blocks + {brk};
    forall c | c in blocks' ensures Block(size', owner', base, brk + n, c) {
      if c != brk { assert Block(size, owner, base, brk, c); }
    }
    forall u | base <= u < brk + n ensures Owned(size', owner', blocks', u) {
      if u < brk { assert Owned(size, owner, blocks, u); }
    }
  }

  // ---- The free list ----

  ghost predicate Ascending(fl: seq<nat>) {
    forall i, j :: 0 <= i < j < |fl| ==> fl[i] < fl[j]
  }

  /** What follows the i-th entry of the list. */
  function After(fl: seq<nat>, i: nat): nat
    requires i < |fl|
  {
    if i + 1 < |fl| then fl[i + 1] else fl[0]
  }

  function Head(rest: seq<nat>): nat {
    if rest == [] then 0 else rest[0]
  }

  ghost predicate LinkOK(fl: seq<nat>, next: seq<nat>, i: nat) {
    i < |fl| && fl[i] < |next| && next[fl[i]] == After(fl, i)
  }

  /** The links make fl one cycle through the root, in address order. */
  ghost predicate Cycle(fl: seq<nat>, next: seq<nat>) {
    |fl| > 0 && fl[0] == 0 && Ascending(fl) && forall i :: 0 <= i < |fl| ==> LinkOK(fl, next, i)
  }

  ghost predicate GapAfter(fl: seq<nat>, size: seq<nat>, i: nat) {
    i + 1 < |fl| && fl[i] < |size| && fl[i] + size[fl[i]] < fl[i + 1]
  }

  /** No two free blocks touch. */
  ghost predicate Apart(fl: seq<nat>, size: seq<nat>) {
    forall i :: 0 <= i < |fl| - 1 ==> GapAfter(fl, size, i)
  }

  /** The free blocks: the list without its root. */
  ghost function Holes(fl: seq<nat>): (h: set<nat>)
    requires |fl| > 0
    ensures forall a :: a in h <==> exists i :: 1 <= i < |fl| && fl[i] == a
  {
    set i | 1 <= i < |fl| :: fl[i]
  }

  /** The list with the entries strictly between i and j left out. */
  lemma Unlinked(fl: seq<nat>, next: seq<nat>, i: nat, j: nat)
    requires Cycle(fl, next) && i < j <= |fl|
    ensures fl[i] < |next| && Cycle(fl[..i + 1] + fl[j..], next[fl[i] := Head(fl[j..])])
  {
    assert LinkOK(fl, next, i);
    var fl', next' := fl[..i + 1] + fl[j..], next[fl[i] := Head(fl[j..])];
    forall n | 0 <= n < |fl'| ensures LinkOK(fl', next', n) {
      assert LinkOK(fl, next, if n <= i then n else n - i - 1 + j);
    }
  }

  /** The list with a put in place of what is strictly between i and j. */
  function Spliced(fl: seq<nat>, i: nat, a: nat, j: nat): (r: seq<nat>)
    requires i < j <= |fl|
    ensures |r| == i + 2 + |fl| - j
    ensures forall n :: 0 <= n < |r| ==> r[n] == if n <= i then fl[n] else if n == i + 1 then a else fl[n - i - 2 + j]
  {
    fl[..i + 1] + [a] + fl[j..]
  }

  lemma SplicedAscending(fl: seq<nat>, i: nat, j: nat, a: nat)
    requires Ascending(fl) && i < j <= |fl| && fl[i] < a && (j < |fl| ==> a < fl[j])
    ensures Ascending(Spliced(fl, i, a, j))
  {
  }

  lemma Linked(fl: seq<nat>, next: seq<nat>, i: nat, j: nat, a: nat)
    requires Cycle(fl, next) && i < j <= |fl| && fl[i] < a < |next| && (j < |fl| ==> a < fl[j])
    ensures fl[i] < |next| && Cycle(Spliced(fl, i, a, j), next[a := Head(fl[j..])][fl[i] := a])
  {
    assert LinkOK(fl, next, i);
    SplicedAscending(fl, i, j, a);
    hide LinkOK;
    hide Ascending;
    hide Spliced;
    var fl', next' := Spliced(fl, i, a, j), next[a := Head(fl[j..])][fl[i] := a];
    forall n | 0 <= n < |fl'| ensures LinkOK(fl', next', n) {
      if n != i + 1 { assert LinkOK(fl, next, if n <= i then n else n - i - 2 + j); }
      LinkedAt(fl, next, i, j, a, n);
    }
  }

  /** The n-th link of the list with a in it. */
  lemma LinkedAt(fl: seq<nat>, next: seq<nat>, i: nat, j: nat, a: nat, n: nat)
    requires Ascending(fl) && fl != [] && fl[0] == 0 && i < j <= |fl| && fl[i] < a < |next| && (j < |fl| ==> a < fl[j])
    requires n < |Spliced(fl, i, a, j)| && (n != i + 1 ==> LinkOK(fl, next, if n <= i then n else n - i - 2 + j))
    ensures LinkOK(Spliced(fl, i, a, j), next[a := Head(fl[j..])][fl[i] := a], n)
  {
  }

  /** Links of units that are not on the list do not matter. */
  lemma CycleKept(fl: seq<nat>, next: seq<nat>, a: nat, x: nat)
    requires Cycle(fl, next) && a < |next| && a !in fl
    ensures Cycle(fl, next[a := x])
  {
    var next' := next[a := x];
    forall n | 0 <= n < |fl| ensures LinkOK(fl, next', n) {
      assert LinkOK(fl, next, n);
    }
  }

  lemma UnlinkedApart(fl: seq<nat>, size: seq<nat>, size': seq<nat>, i: nat, j: nat)
    requires Apart(fl, size) && Ascending(fl) && i < j <= |fl| && |size'| == |size|
    requires forall n :: 0 <= n < |fl| && n != i && !(i < n < j) ==> fl[n] < |size| && size'[fl[n]] <= size[fl[n]]
    requires j < |fl| ==> fl[i] < |size| && fl[i] + size'[fl[i]] < fl[j]
    ensures Apart(fl[..i + 1] + fl[j..], size')
  {
    var fl' := fl[..i + 1] + fl[j..];
    assert forall n :: 0 <= n < |fl'| ==> fl'[n] == if n <= i then fl[n] else fl[n - i - 1 + j];
    forall n | 0 <= n < |fl'| - 1 ensures GapAfter(fl', size', n) {
      if n < i { assert GapAfter(fl, size, n); }
      if n > i { assert GapAfter(fl, size, n - i - 1 + j); }
    }
  }

  lemma LinkedApart(fl: seq<nat>, size: seq<nat>, size': seq<nat>, i: nat, j: nat, a: nat)
    requires Apart(fl, size) && Ascending(fl) && i < j <= |fl| && |size'| == |size|
    requires forall n :: 0 <= n < |fl| && !(i < n < j) ==> fl[n] < |size| && size'[fl[n]] == size[fl[n]]
    requires fl[i] + size[fl[i]] < a < |size| && (j < |fl| ==> a + size'[a] < fl[j])
    ensures Apart(Spliced(fl, i, a, j), size')
  {
    var fl' := Spliced(fl, i, a, j);
    forall n | 0 <= n < |fl'| - 1 ensures GapAfter(fl', size', n) {
      if n < i { assert GapAfter(fl, size, n) && size'[fl[n]] == size[fl[n]]; }
      else if n == i { assert size'[fl[n]] == size[fl[n]]; }
      else if n == i + 1 { assert fl'[n] == a && fl'[n + 1] == fl[j]; }
      else { assert GapAfter(fl, size, n - i - 2 + j); assert fl'[n] == fl[n - i - 2 + j]; }
    }
  }

  lemma UnlinkedHoles(fl: seq<nat>, i: nat, j: nat)
    requires |fl| > 0 && Ascending(fl) && i < j <= |fl| && j <= i + 2
    ensures Holes(fl[..i + 1] + fl[j..]) == Holes(fl) - (if j == i + 2 then {fl[i + 1]} else {})
  {
    var fl' := fl[..i + 1] + fl[j..];
    assert forall n :: 0 <= n < |fl'| ==> fl'[n] == if n <= i then fl[n] else fl[n - i - 1 + j];
    forall a | a in Holes(fl) && (j == i + 2 ==> a != fl[i + 1]) ensures a in Holes(fl') {
      var n :| 1 <= n < |fl| && fl[n] == a;
      assert fl'[if n <= i then n else n + i + 1 - j] == a;
    }
  }

  lemma LinkedHoles(fl: seq<nat>, i: nat, j: nat, a: nat)
    requires |fl| > 0 && i < j <= |fl|
    ensures Holes(Spliced(fl, i, a, j)) == Holes(fl[..i + 1] + fl[j..]) + {a}
  {
    var fl', fl1 := Spliced(fl, i, a, j), fl[..i + 1] + fl[j..];
    assert forall n :: 0 <= n < |fl1| ==> fl1[n] == if n <= i then fl[n] else fl[n - i - 1 + j];
    forall b | b in Holes(fl1) ensures b in Holes(fl') {
      var n :| 1 <= n < |fl1| && fl1[n] == b;
      assert fl'[if n <= i then n else n + 1] == b;
    }
    assert fl'[i + 1] == a;
    forall b | b in Holes(fl') && b != a ensures b in Holes(fl1) {
      var n :| 1 <= n < |fl'| && fl'[n] == b;
      assert fl1[if n <= i then n else n - 1] == b;
    }
  }

  // ---- The heap as a value ----

  /** The header words, who owns each unit, the free list from its root, and
      the allocated blocks. */
  datatype State = State(next: seq<nat>, size: seq<nat>, owner: seq<nat>, fl: seq<nat>, live: set<nat>, base: nat,
    brk: nat)

  /** The units that belong to no allocated block. */
  ghost function FreeUnits(s: State): set<nat>
    requires s.brk <= |s.owner|
  {
    set u: nat | s.base <= u < s.brk && s.owner[u] !in s.live
  }

  ghost predicate Good(s: State) {
    |s.next| == |s.size| == |s.owner| > 0 && s.size[0] == 0 && 0 < s.base <= s.brk <= |s.size| &&
    Cycle(s.fl, s.next) && Apart(s.fl, s.size) &&
    Tiled(s.size, s.owner, s.base, s.brk, Holes(s.fl) + s.live) && Holes(s.fl) !! s.live
  }

  /** k is the last entry of the list before a. */
  predicate Place(fl: seq<nat>, k: nat, a: nat) {
    k < |fl| && fl[k] < a && (k + 1 < |fl| ==> a < fl[k + 1])
  }

  function PlaceOf(fl: seq<nat>, a: nat): (k: nat)
    requires |fl| > 0 && fl[0] < a && a !in fl && Ascending(fl)
    ensures Place(fl, k, a)
  {
    if fl[|fl| - 1] < a then |fl| - 1 else PlaceOf(fl[..|fl| - 1], a)
  }

  /** In between: block a is on no list; when it is put in the list after the
      k-th entry, the j-th entry follows. */
  ghost predicate Held(s: State, k: nat, j: nat, a: nat) {
    |s.next| == |s.size| == |s.owner| > 0 && s.size[0] == 0 && 0 < s.base <= s.brk <= |s.size| &&
    Cycle(s.fl, s.next) && Apart(s.fl, s.size) && k < j <= |s.fl| && j <= k + 2 &&
    s.fl[k] < a < |s.size| && a !in s.fl && (j < |s.fl| ==> a + s.size[a] < s.fl[j]) && s.next[a] == Head(s.fl[j..]) &&
    a !in s.live && Holes(s.fl) !! s.live &&
    Tiled(s.size, s.owner, s.base, s.brk, Holes(s.fl[..k + 1] + s.fl[j..]) + s.live + {a})
  }

  lemma LiveFacts(s: State, a: nat)
    requires Good(s) && a in s.live
    ensures 0 < a < |s.size| && a !in s.fl && 1 <= s.size[a] && a + s.size[a] <= s.brk
    ensures forall u :: a <= u < a + s.size[a] ==> s.owner[u] == a
  {
    assert Block(s.size, s.owner, s.base, s.brk, a);
    assert forall i :: 1 <= i < |s.fl| ==> s.fl[i] in Holes(s.fl);
  }

  /** Letting go of an allocated block frees exactly its units. */
  lemma Released(s: State, a: nat)
    requires Good(s) && a in s.live
    ensures a < |s.size| && FreeUnits(s.(live := s.live - {a})) == FreeUnits(s) + Span(a, s.size[a])
  {
    LiveFacts(s, a);
    hide Tiled;
    forall u: nat | s.base <= u < s.brk ensures s.owner[u] == a <==> Within(u, a, s.size[a]) {
      UnitOwned(s, u);
    }
    assert forall u: nat :: Within(u, a, s.size[a]) ==> s.base <= u < s.brk by { BlockInside(s, a); }
  }

  lemma UnitOwned(s: State, u: nat)
    requires Good(s) && s.base <= u < s.brk
    ensures s.owner[u] in Holes(s.fl) + s.live && s.owner[u] <= u < s.owner[u] + s.size[s.owner[u]]
  {
    assert Owned(s.size, s.owner, Holes(s.fl) + s.live, u);
  }

  lemma BlockInside(s: State, a: nat)
    requires Good(s) && a in Holes(s.fl) + s.live
    ensures s.base <= a < |s.size| && a + s.size[a] <= s.brk
  {
    assert Block(s.size, s.owner, s.base, s.brk, a);
  }

  lemma EntryFacts(s: State, i: nat)
    requires Good(s) && i < |s.fl|
    ensures LinkOK(s.fl, s.next, i) && s.fl[i] < |s.size|
    ensures 1 <= i ==>
              s.fl[i] in Holes(s.fl) && s.base <= s.fl[i] && 1 <= s.size[s.fl[i]] &&
              s.fl[i] + s.size[s.fl[i]] <= s.brk
  {
    hide Apart;
    assert LinkOK(s.fl, s.next, i);
    if 1 <= i {
      assert s.fl[i] in Holes(s.fl);
      assert Block(s.size, s.owner, s.base, s.brk, s.fl[i]);
    }
  }

  /** A block taken off the allocated ones, with nothing free right behind it. */
  lemma ForwardKept(s: State, k: nat, a: nat, s': State)
    requires Good(s) && a in s.live && Place(s.fl, k, a) && a < |s.size| && a + s.size[a] != After(s.fl, k)
    requires s' == s.(live := s.live - {a}, next := s.next[a := Head(s.fl[k + 1..])])
    ensures Held(s', k, k + 1, a) && FreeUnits(s') == FreeUnits(s.(live := s.live - {a}))
  {
    LiveFacts(s, a);
    EntryFacts(s, k);
    hide Cycle;
    hide Apart;
    hide Tiled;
    hide Holes;
    CycleOnly(s.fl, s.next);
    CycleKept(s.fl, s.next, a, Head(s.fl[k + 1..]));
    if k + 1 < |s.fl| {
      EntryFacts(s, k + 1);
      TiledOrder(s.size, s.owner, s.base, s.brk, Holes(s.fl) + s.live, a, s.fl[k + 1]);
    }
    assert s.fl[..k + 1] + s.fl[k + 1..] == s.fl;
    assert Holes(s.fl) + s.live == Holes(s.fl) + s'.live + {a};
  }

  /** The entry after the k-th, as the code sees it. */
  lemma AfterFacts(s: State, k: nat)
    requires Good(s) && k < |s.fl|
    ensures After(s.fl, k) == Head(s.fl[k + 1..]) < |s.size|
  {
    CycleOnly(s.fl, s.next);
    EntryFacts(s, if k + 1 < |s.fl| then k + 1 else 0);
  }

  lemma CycleOnly(fl: seq<nat>, next: seq<nat>)
    requires Cycle(fl, next)
    ensures |fl| > 0 && fl[0] == 0 && Ascending(fl)
  {
  }

  /** The same when the block behind it is free: they become one. */
  lemma ForwardMerged(s: State, k: nat, a: nat, b: nat, s': State)
    requires Good(s) && a in s.live && Place(s.fl, k, a) && a < |s.size| && a + s.size[a] == b == After(s.fl, k) &&
             b < |s.size|
    requires s' == s.(live := s.live - {a}, size := s.size[a := s.size[a] + s.size[b]],
                      owner := Given(s.owner, b, s.size[b], a), next := s.next[a := s.next[b]])
    ensures Held(s', k, k + 2, a) && k + 1 < |s.fl| && s.fl[k + 1] == b
  {
    LiveFacts(s, a);
    EntryFacts(s, k);
    CycleOnly(s.fl, s.next);
    assert k + 1 < |s.fl|;
    EntryFacts(s, k + 1);
    hide FreeUnits;
    hide Given;
    hide Block;
    hide Cycle;
    hide Apart;
    hide Tiled;
    hide Holes;
    CycleKept(s.fl, s.next, a, s.next[b]);
    ApartKept(s.fl, s.size, a, s.size[a] + s.size[b]);
    if k + 2 < |s.fl| { GapAt(s, k + 1); }
    Merged(s.size, s.owner, s.base, s.brk, Holes(s.fl) + s.live, a, b);
    BlocksLeft(s.fl, s.live, k, a);
  }

  /** With the block behind the k-th entry absorbed by a, these blocks are left. */
  lemma BlocksLeft(fl: seq<nat>, live: set<nat>, k: nat, a: nat)
    requires k + 1 < |fl| && Ascending(fl) && a in live && Holes(fl) !! live && fl[k + 1] in Holes(fl)
    ensures Holes(fl) + live - {fl[k + 1]} == Holes(fl[..k + 1] + fl[k + 2..]) + (live - {a}) + {a}
  {
    hide Ascending;
    hide Holes;
    UnlinkedHoles(fl, k, k + 2);
  }

  lemma MergedFree(s: State, s': State, a: nat, b: nat)
    requires Good(s) && a in s.live && b in Holes(s.fl) && b < |s.size|
    requires s'.owner == Given(s.owner, b, s.size[b], a) && s'.live == s.live - {a} && s'.base == s.base &&
             s'.brk == s.brk
    ensures FreeUnits(s') == FreeUnits(s.(live := s.live - {a}))
  {
    assert Block(s.size, s.owner, s.base, s.brk, b);
    SameFree(s.(live := s.live - {a}), s', b, s.size[b], a);
  }

  lemma GapAt(s: State, i: nat)
    requires Good(s) && i + 1 < |s.fl|
    ensures GapAfter(s.fl, s.size, i)
  {
  }

  lemma ApartKept(fl: seq<nat>, size: seq<nat>, a: nat, n: nat)
    requires Apart(fl, size) && a < |size| && a !in fl
    ensures Apart(fl, size[a := n])
  {
    var size' := size[a := n];
    forall i | 0 <= i < |fl| - 1 ensures GapAfter(fl, size', i) {
      assert GapAfter(fl, size, i);
    }
  }

  /** The block held becomes part of the free block before it. */
  lemma BackMerged(s: State, k: nat, j: nat, a: nat, s': State)
    requires Held(s, k, j, a) && s.fl[k] < |s.size| && s.fl[k] + s.size[s.fl[k]] == a
    requires s' == s.(size := s.size[s.fl[k] := s.size[s.fl[k]] + s.size[a]], next := s.next[s.fl[k] := s.next[a]],
                      owner := Given(s.owner, a, s.size[a], s.fl[k]), fl := s.fl[..k + 1] + s.fl[j..])
    ensures Good(s') && FreeUnits(s') == FreeUnits(s) && s.fl[k] in s'.fl
    ensures 1 <= k && s.fl[k] in Holes(s'.fl)
  {
    CycleOnly(s.fl, s.next);
    var p, fl' := s.fl[k], s.fl[..k + 1] + s.fl[j..];
    assert 1 <= k;
    assert fl'[k] == p;
    assert p in Holes(fl') && p in Holes(s.fl);
    hide Cycle;
    hide Apart;
    hide Tiled;
    hide Holes;
    Unlinked(s.fl, s.next, k, j);
    HeldApart(s, k, j, a);
    UnlinkedApart(s.fl, s.size, s'.size, k, j);
    UnlinkedHoles(s.fl, k, j);
    assert a !in Holes(s.fl) by { HolesOn(s.fl, a); }
    Merged(s.size, s.owner, s.base, s.brk, Holes(fl') + s.live + {a}, p, a);
    assert Holes(fl') + s.live + {a} - {a} == Holes(fl') + s.live;
    SameFree(s, s', a, s.size[a], p);
  }

  lemma HolesOn(fl: seq<nat>, a: nat)
    requires |fl| > 0 && a !in fl
    ensures a !in Holes(fl)
  {
  }

  /** What merging needs to know of the entries around. */
  lemma HeldApart(s: State, k: nat, j: nat, a: nat)
    requires Held(s, k, j, a)
    ensures forall n :: 0 <= n < |s.fl| ==> s.fl[n] < |s.size|
    ensures forall n :: 0 <= n < |s.fl| && n != k ==> s.fl[n] != s.fl[k]
    ensures s.fl[k] + s.size[s.fl[k]] <= a && a < |s.size| && 1 <= s.size[a] && a + s.size[a] <= s.brk
  {
    CycleOnly(s.fl, s.next);
    forall n | 0 <= n < |s.fl| ensures s.fl[n] < |s.size| {
      assert LinkOK(s.fl, s.next, n);
    }
    var fl' := s.fl[..k + 1] + s.fl[j..];
    assert Block(s.size, s.owner, s.base, s.brk, a);
    if 1 <= k {
      assert fl'[k] == s.fl[k];
      assert s.fl[k] in Holes(fl');
      TiledOrder(s.size, s.owner, s.base, s.brk, Holes(fl') + s.live + {a}, s.fl[k], a);
    }
  }

  lemma HeldFacts(s: State, k: nat, j: nat, a: nat)
    requires Held(s, k, j, a)
    ensures k < j <= |s.fl| && s.fl[k] < |s.size| == |s.next| == |s.owner| && s.fl[k] < a < |s.size| &&
            s.brk <= |s.owner|
    ensures s.fl[k] !in s.live && a !in s.live
    ensures forall b :: b in s.live ==> 0 < b < |s.size|
  {
    HeldApart(s, k, j, a);
    CycleOnly(s.fl, s.next);
    forall b | b in s.live ensures 0 < b < |s.size| {
      assert Block(s.size, s.owner, s.base, s.brk, b);
    }
    assert k > 0 ==> s.fl[k] in Holes(s.fl);
  }

  /** Units passed from one free block to another stay free. */
  lemma SameFree(s: State, s': State, a: nat, n: nat, b: nat)
    requires s.brk == s'.brk <= |s.owner| && s.base == s'.base && s.live == s'.live &&
             s'.owner == Given(s.owner, a, n, b)
    requires b !in s.live && forall u :: a <= u < a + n && u < |s.owner| ==> s.owner[u] !in s.live
    ensures FreeUnits(s') == FreeUnits(s)
  {
  }

  /** Nothing free right before it: the block held goes on the list. */
  lemma BackKept(s: State, k: nat, j: nat, a: nat, s': State)
    requires Held(s, k, j, a) && s.fl[k] < |s.size| && s.fl[k] + s.size[s.fl[k]] != a
    requires s' == s.(next := s.next[s.fl[k] := a], fl := Spliced(s.fl, k, a, j))
    ensures Good(s') && FreeUnits(s') == FreeUnits(s) && s.fl[k] in s'.fl
    ensures a in Holes(s'.fl)
  {
    CycleOnly(s.fl, s.next);
    HeldApart(s, k, j, a);
    assert s'.fl[k] == s.fl[k] && s'.fl[k + 1] == a;
    assert a in Holes(s'.fl);
    hide Cycle;
    hide Apart;
    hide Tiled;
    hide Holes;
    hide Spliced;
    if j < |s.fl| { assert s.fl[j] > a; }
    Linked(s.fl, s.next, k, j, a);
    assert s.next[a := Head(s.fl[j..])] == s.next;
    LinkedApart(s.fl, s.size, s.size, k, j, a);
    LinkedHoles(s.fl, k, j, a);
    UnlinkedHoles(s.fl, k, j);
    assert Holes(s.fl[..k + 1] + s.fl[j..]) + s.live + {a} == Holes(s'.fl) + s.live;
    HolesOn(s.fl, a);
  }

  /** A free block that is allocated as a whole. */
  lemma TakenWhole(s: State, i: nat, s': State)
    requires Good(s) && 1 <= i < |s.fl| && s.fl[i] < |s.next| && s.fl[i - 1] < |s.next|
    requires s' == s.(fl := s.fl[..i] + s.fl[i + 1..], next := s.next[s.fl[i - 1] := s.next[s.fl[i]]],
             live := s.live + {s.fl[i]})
    ensures Good(s') && Span(s.fl[i], s.size[s.fl[i]]) <= FreeUnits(s)
    ensures FreeUnits(s') == FreeUnits(s) - Span(s.fl[i], s.size[s.fl[i]])
    ensures s.fl[i] !in s.live && s.fl[i - 1] in s'.fl
  {
    CycleOnly(s.fl, s.next);
    EntryFacts(s, i);
    EntryFacts(s, i - 1);
    GapAt(s, i - 1);
    if i + 1 < |s.fl| { GapAt(s, i); }
    forall n | 0 <= n < |s.fl| ensures s.fl[n] < |s.size| { EntryFacts(s, n); }
    assert s'.fl[i - 1] == s.fl[i - 1];
    var a := s.fl[i];
    hide Cycle;
    hide Apart;
    hide Tiled;
    hide Holes;
    Unlinked(s.fl, s.next, i - 1, i + 1);
    UnlinkedApart(s.fl, s.size, s.size, i - 1, i + 1);
    UnlinkedHoles(s.fl, i - 1, i + 1);
    assert Holes(s'.fl) + s'.live == Holes(s.fl) + s.live;
    TakenFree(s, s', a);
  }

  lemma TakenFree(s: State, s': State, a: nat)
    requires Good(s') && a in s'.live && a < |s.size| && s'.size == s.size && s'.owner == s.owner &&
             s'.base == s.base && s'.brk == s.brk
    requires s'.live == s.live + {a} && a !in s.live
    ensures Span(a, s.size[a]) <= FreeUnits(s) && FreeUnits(s') == FreeUnits(s) - Span(a, s.size[a])
  {
    Released(s', a);
    LiveFacts(s', a);
    hide Tiled;
    hide Cycle;
    hide Apart;
    hide Holes;
    assert s'.live - {a} == s.live;
    assert FreeUnits(s'.(live := s.live)) == FreeUnits(s);
  }

  /** A free block whose last n units are allocated. */
  lemma TakenTail(s: State, i: nat, n: nat, a: nat, b: nat, s': State)
    requires Good(s) && 1 <= i < |s.fl| && a == s.fl[i] < |s.size| && 1 <= n < s.size[a] && b == a + s.size[a] - n
    requires s' == s.(size := if b < |s.size| then s.size[a := s.size[a] - n][b := n] else [],
                      owner := Given(s.owner, b, n, b), live := s.live + {b})
    ensures b < |s.size| && b !in s.live && Good(s') && Span(b, n) <= FreeUnits(s) &&
            FreeUnits(s') == FreeUnits(s) - Span(b, n)
  {
    CycleOnly(s.fl, s.next);
    EntryFacts(s, i);
    Split(s.size, s.owner, s.base, s.brk, Holes(s.fl) + s.live, a, n, b);
    SmallerApart(s.fl, s.size, a, s.size[a] - n, b, n, Holes(s.fl) + s.live);
    hide Cycle;
    hide Apart;
    hide Tiled;
    hide Holes;
    assert Holes(s'.fl) + s'.live == Holes(s.fl) + s.live + {b};
    TakenFree(s.(size := s'.size, owner := s'.owner), s', b);
    SameFree(s, s.(size := s'.size, owner := s'.owner), b, n, b);
  }

  lemma SmallerApart(fl: seq<nat>, size: seq<nat>, a: nat, m: nat, b: nat, n: nat, blocks: set<nat>)
    requires |fl| > 0 && fl[0] == 0 && Apart(fl, size) && a < |size| && m <= size[a] && b < |size| && 0 < b &&
             b !in blocks && Holes(fl) <= blocks
    ensures Apart(fl, size[a := m][b := n])
  {
    var size' := size[a := m][b := n];
    forall i | 0 <= i < |fl| - 1 ensures GapAfter(fl, size', i) {
      assert GapAfter(fl, size, i);
      assert i > 0 ==> fl[i] in Holes(fl);
    }
  }

  /** New memory, at first an allocated block. */
  lemma More(s: State, n: nat, s': State)
    requires Good(s) && 1 <= n && s.brk + n <= |s.size|
    requires s' == s.(size := if s.brk < |s.size| then s.size[s.brk := n] else [],
                      owner := Given(s.owner, s.brk, n, s.brk), live := s.live + {s.brk}, brk := s.brk + n)
    ensures Good(s') && s.brk !in s.live && FreeUnits(s') == FreeUnits(s)
  {
    Grown(s.size, s.owner, s.base, s.brk, Holes(s.fl) + s.live, n);
    CycleOnly(s.fl, s.next);
    SmallerApart(s.fl, s.size, s.brk, 0, s.brk, n, Holes(s.fl) + s.live);
    hide Cycle;
    hide Apart;
    hide Tiled;
    hide Holes;
    assert Holes(s'.fl) + s'.live == Holes(s.fl) + s.live + {s.brk};
    assert s.size[s.brk := 0][s.brk := n] == s.size[s.brk := n];
    forall u: nat | s.base <= u < s.brk ensures s'.owner[u] in s'.live <==> s.owner[u] in s.live {
      UnitOwned(s, u);
    }
  }

  // ---- The free list is determined by which memory is free ----

  lemma HoleUnits(s: State, a: nat)
    requires Good(s) && a in Holes(s.fl)
    ensures s.base <= a && a < |s.size| && 1 <= s.size[a] && a + s.size[a] <= s.brk
    ensures forall u: nat :: a <= u < a + s.size[a] ==> s.owner[u] == a && u in FreeUnits(s)
  {
    assert Block(s.size, s.owner, s.base, s.brk, a);
  }

  lemma UnitHole(s: State, u: nat) returns (a: nat)
    requires Good(s) && u in FreeUnits(s)
    ensures a in Holes(s.fl) && a < |s.size| && a <= u < a + s.size[a] && s.owner[u] == a
  {
    UnitOwned(s, u);
    a := s.owner[u];
  }

  lemma {:induction false} GapBetween(s: State, i: nat, j: nat)
    requires Good(s) && 1 <= i < j < |s.fl|
    ensures s.fl[i] < |s.size| && s.fl[i] + s.size[s.fl[i]] < s.fl[j]
  {
    GapAt(s, i);
    CycleOnly(s.fl, s.next);
    assert s.fl[i + 1] <= s.fl[j];
  }

  /** Right before and right behind a free block, memory is not free. */
  lemma HoleEdges(s: State, a: nat)
    requires Good(s) && a in Holes(s.fl)
    ensures a < |s.size| && a - 1 !in FreeUnits(s) && a + s.size[a] !in FreeUnits(s)
  {
    HoleUnits(s, a);
    hide Tiled;
    hide Cycle;
    hide Apart;
    hide FreeUnits;
    var i: nat :| 1 <= i < |s.fl| && s.fl[i] == a;
    forall b | b in Holes(s.fl) ensures b < |s.size| && (b < a ==> b + s.size[b] < a) && (a < b ==> a + s.size[a] < b) {
      var j: nat :| 1 <= j < |s.fl| && s.fl[j] == b;
      if j < i { GapBetween(s, j, i); } else if i < j { GapBetween(s, i, j); } else { HoleUnits(s, b); }
    }
    if a - 1 in FreeUnits(s) { var b := UnitHole(s, a - 1); assert false; }
    if a + s.size[a] in FreeUnits(s) { var b := UnitHole(s, a + s.size[a]); assert false; }
  }

  lemma HoleMatches(s1: State, s2: State, a: nat)
    requires Good(s1) && Good(s2) && FreeUnits(s1) == FreeUnits(s2) && a in Holes(s1.fl)
    ensures a in Holes(s2.fl) && a < |s1.size| && a < |s2.size| && s1.size[a] == s2.size[a]
  {
    hide Good;
    hide FreeUnits;
    hide Holes;
    HoleUnits(s1, a);
    HoleEdges(s1, a);
    var b := UnitHole(s2, a);
    HoleUnits(s2, b);
    assert b == a;
    HoleEdges(s2, a);
  }

  lemma {:induction false} SameElements(f: seq<nat>, g: seq<nat>)
    requires Ascending(f) && Ascending(g) && forall a: nat :: a in f <==> a in g
    ensures f == g
  {
    assert |g| > 0 ==> g[0] in f;
    if f != [] {
      var x := f[|f| - 1];
      assert x in g;
      var y := g[|g| - 1];
      assert y in f;
      assert x == y;
      var f', g' := f[..|f| - 1], g[..|g| - 1];
      forall a: nat ensures a in f' <==> a in g' {
        assert a in f' <==> a in f && a != x;
        assert a in g' <==> a in g && a != y;
      }
      SameElements(f', g');
    }
  }

  /** Two heaps with the same free memory have the same free list. */
  lemma SameMemorySameList(s1: State, s2: State)
    requires Good(s1) && Good(s2) && FreeUnits(s1) == FreeUnits(s2)
    ensures s1.fl == s2.fl
    ensures forall a :: a in Holes(s1.fl) ==> a < |s1.size| && a < |s2.size| && s1.size[a] == s2.size[a]
  {
    ListElements(s1);
    ListElements(s2);
    hide Good;
    hide FreeUnits;
    hide Holes;
    forall a | a in Holes(s1.fl)
      ensures a in Holes(s2.fl) && a < |s1.size| && a < |s2.size| && s1.size[a] == s2.size[a] {
      HoleMatches(s1, s2, a);
    }
    forall a | a in Holes(s2.fl) ensures a in Holes(s1.fl) { HoleMatches(s2, s1, a); }
    SameElements(s1.fl, s2.fl);
  }

  lemma ListElements(s: State)
    requires Good(s)
    ensures |s.fl| > 0 && Ascending(s.fl) && forall a: nat :: a in s.fl <==> a == 0 || a in Holes(s.fl)
  {
    CycleOnly(s.fl, s.next);
    hide Cycle;
    hide Apart;
    hide Tiled;
  }

  // ---- The allocator ----

  /** Some free block has n units or more. */
  ghost predicate Fits(s: State, n: nat) {
    exists a :: BigHole(s, n, a)
  }

  ghost predicate BigHole(s: State, n: nat, a: nat) {
    |s.fl| > 0 && a in Holes(s.fl) && a < |s.size| && n <= s.size[a]
  }

  /** Going round from the j-th entry, the m-th is passed by the time the i-th is. */
  predicate Passed(j: nat, i: nat, m: nat) {
    if j <= i then j < m <= i else m > j || m <= i
  }

  /** None of the entries passed has n units. */
  ghost predicate NoneYet(s: State, n: nat, j: nat, i: nat) {
    forall m :: 0 <= m < |s.fl| && Passed(j, i, m) ==> s.fl[m] < |s.size| && s.size[s.fl[m]] < n
  }

  /** a is the first free block with n units, going round from just after start. */
  ghost predicate NextFit(s: State, start: nat, n: nat, a: nat) {
    BigHole(s, n, a) &&
    exists j, i :: 0 <= j < |s.fl| && 0 <= i < |s.fl| && s.fl[j] == start && After(s.fl, i) == a && NoneYet(s, n, j, i)
  }

  /** Block b of n units has been allocated, and nothing else has changed but
      that memory up to the new break may have been added. */
  ghost predicate Allocated(s: State, s': State, n: nat, b: nat) {
    s.brk <= |s.owner| && s.brk <= s'.brk <= |s'.owner| && |s'.size| == |s.size| &&
    b !in s.live && s'.live == s.live + {b} && b < |s'.size| && s'.size[b] == n &&
    Span(b, n) <= FreeUnits(s) + Span(s.brk, s'.brk - s.brk) &&
    FreeUnits(s') == FreeUnits(s) + Span(s.brk, s'.brk - s.brk) - Span(b, n) &&
    forall c :: c in s.live ==> c < |s.size| && s'.size[c] == s.size[c]
  }

  /** n units of memory have been added. */
  ghost predicate MoreFree(s: State, s': State, n: nat) {
    s.brk <= |s.owner| && s'.brk == s.brk + n <= |s'.owner| && |s'.size| == |s.size| &&
    s'.live == s.live && FreeUnits(s') == FreeUnits(s) + Span(s.brk, n) &&
    forall c :: c in s.live ==> c < |s.size| && s'.size[c] == s.size[c]
  }

  /** The n units from a on are free. */
  ghost predicate FreeRun(s: State, a: nat, n: nat) {
    s.brk <= |s.owner| && forall u: nat :: a <= u < a + n ==> u in FreeUnits(s)
  }

  /** In terms of memory alone: a unit is free when it lies in no allocated block ... */
  lemma FreeIs(s: State, u: nat)
    requires Good(s)
    ensures u in FreeUnits(s) <==>
            s.base <= u < s.brk && forall b :: b in s.live ==> b < |s.size| && !(b <= u < b + s.size[b])
  {
    if s.base <= u < s.brk { UnitOwned(s, u); }
    forall b | b in s.live ensures b < |s.size| && (b <= u < b + s.size[b] ==> s.owner[u] == b) { LiveFacts(s, b); }
  }

  /** ... and a request fits when that many units in a row are free. */
  lemma FitsIs(s: State, n: nat)
    requires Good(s) && 1 <= n
    ensures Fits(s, n) <==> exists a: nat :: FreeRun(s, a, n)
  {
    hide Tiled;
    hide Cycle;
    hide Apart;
    hide Holes;
    hide FreeUnits;
    if h :| BigHole(s, n, h) {
      HoleUnits(s, h);
      assert FreeRun(s, h, n);
    }
    if a: nat :| FreeRun(s, a, n) {
      var h := UnitHole(s, a);
      HoleUnits(s, h);
      HoleEdges(s, h);
      assert h + s.size[h] >= a + n;
      assert BigHole(s, n, h);
    }
  }

  /** Between the roving pointer and a, going round. */
  predicate OnTheWay(start: nat, a: nat, c: nat) {
    if start < a then start < c < a else start < c || c < a
  }

  lemma EntryOrder(s: State, i: nat, j: nat)
    requires Good(s) && i < |s.fl| && j < |s.fl|
    ensures s.fl[i] < s.fl[j] <==> i < j
  {
    CycleOnly(s.fl, s.next);
  }

  lemma HoleAfter(s: State, i: nat, a: nat)
    requires Good(s) && i < |s.fl| && After(s.fl, i) == a && a in Holes(s.fl)
    ensures i + 1 < |s.fl| && s.fl[i + 1] == a
  {
    CycleOnly(s.fl, s.next);
    HoleUnits(s, a);
  }

  lemma PassedOnTheWay(s: State, j: nat, i: nat, m: nat)
    requires Good(s) && j < |s.fl| && i + 1 < |s.fl| && m < |s.fl|
    ensures Passed(j, i, m) <==> OnTheWay(s.fl[j], s.fl[i + 1], s.fl[m])
  {
    EntryOrder(s, j, m);
    EntryOrder(s, m, i + 1);
    EntryOrder(s, j, i + 1);
  }

  /** The block found, in terms of addresses: nothing on the way to it is large enough. */
  lemma NextFitIs(s: State, start: nat, n: nat, a: nat)
    requires Good(s) && start in s.fl && BigHole(s, n, a) && 1 <= n
    ensures NextFit(s, start, n, a) <==>
            forall c: nat :: c in Holes(s.fl) && (if start < a then start < c < a else start < c || c < a) ==>
              c < |s.size| && s.size[c] < n
  {
    hide Good;
    hide Holes;
    hide NoneYet;
    if NextFit(s, start, n, a) {
      var j: nat, i: nat :| j < |s.fl| && i < |s.fl| && s.fl[j] == start && After(s.fl, i) == a && NoneYet(s, n, j, i);
      HoleAfter(s, i, a);
      forall c: nat | c in Holes(s.fl) && OnTheWay(start, a, c) ensures c < |s.size| && s.size[c] < n {
        var m := HoleIndex(s, c);
        PassedOnTheWay(s, j, i, m);
        NotYet(s, n, j, i, m);
      }
    }
    if forall c: nat :: c in Holes(s.fl) && OnTheWay(start, a, c) ==> c < |s.size| && s.size[c] < n {
      var j: nat :| j < |s.fl| && s.fl[j] == start;
      var k := HoleIndex(s, a);
      assert NoneYet(s, n, j, k - 1) by { AllSmall(s, start, n, a, j, k - 1); }
      assert After(s.fl, k - 1) == a;
    }
  }

  lemma HoleIndex(s: State, c: nat) returns (m: nat)
    requires Good(s) && c in Holes(s.fl)
    ensures 1 <= m < |s.fl| && s.fl[m] == c
  {
    m :| 1 <= m < |s.fl| && s.fl[m] == c;
  }

  lemma NotYet(s: State, n: nat, j: nat, i: nat, m: nat)
    requires NoneYet(s, n, j, i) && m < |s.fl| && Passed(j, i, m)
    ensures s.fl[m] < |s.size| && s.size[s.fl[m]] < n
  {
  }

  lemma AllSmall(s: State, start: nat, n: nat, a: nat, j: nat, i: nat)
    requires Good(s) && j < |s.fl| && s.fl[j] == start && i + 1 < |s.fl| && s.fl[i + 1] == a && 1 <= n
    requires forall c: nat :: c in Holes(s.fl) && OnTheWay(start, a, c) ==> c < |s.size| && s.size[c] < n
    ensures NoneYet(s, n, j, i)
  {
    CycleOnly(s.fl, s.next);
    RootEmpty(s);
    hide Good;
    hide Passed;
    hide OnTheWay;
    forall m: nat | m < |s.fl| && Passed(j, i, m) ensures s.fl[m] < |s.size| && s.size[s.fl[m]] < n {
      PassedOnTheWay(s, j, i, m);
    }
  }

  lemma RootEmpty(s: State)
    requires Good(s)
    ensures |s.size| > 0 && s.size[0] == 0
  {
  }

  lemma AllocatedHere(s: State, s': State, n: nat, b: nat)
    requires Good(s) && s'.brk == s.brk <= |s'.owner| && |s'.size| == |s.size| && b !in s.live &&
             s'.live == s.live + {b}
    requires b < |s.size| && s'.size[b] == n && Span(b, n) <= FreeUnits(s) && FreeUnits(s') == FreeUnits(s) - Span(b, n)
    requires forall c :: 0 <= c < |s.size| && s'.size[c] != s.size[c] ==> c == b || c in s.fl
    ensures Allocated(s, s', n, b)
  {
    hide FreeUnits;
    assert Span(s.brk, 0) == {};
    forall c | c in s.live ensures c < |s.size| && s'.size[c] == s.size[c] { LiveFacts(s, c); }
  }

  lemma MoreBrk(s: State, s1: State, g: nat)
    requires MoreFree(s, s1, g)
    ensures s1.brk == s.brk + g
  {
  }

  lemma AllocatedMore(s: State, s1: State, s2: State, g: nat, n: nat, b: nat)
    requires MoreFree(s, s1, g) && Allocated(s1, s2, n, b) && s2.brk == s1.brk
    ensures Allocated(s, s2, n, b)
  {
    hide FreeUnits;
    assert Span(s1.brk, 0) == {};
  }

  lemma FitsLess(s: State, m: nat, n: nat)
    requires Fits(s, m) && n <= m
    ensures Fits(s, n)
  {
    var a :| BigHole(s, m, a);
    assert BigHole(s, n, a);
  }

  ghost function StartIndex(s: State, p: nat): (i: nat)
    requires p in s.fl
    ensures i < |s.fl| && s.fl[i] == p
  {
    var i :| 0 <= i < |s.fl| && s.fl[i] == p; i
  }

  /** The search of malloc stands between prev and p: f is where it started,
      and no entry passed has n units. */
  ghost predicate Searching(s: State, f: nat, n: nat, start: nat, i: nat, prev: int, p: int) {
    i < |s.fl| && start < |s.fl| && 0 <= prev == s.fl[i] && 0 <= p == After(s.fl, i) < |s.size| &&
    f == s.fl[start] && NoneYet(s, n, start, i)
  }

  /** How many entries are left until one orbit is done. */
  function Left(len: nat, start: nat, i: nat): int {
    if start <= i then len - i + start else start - i
  }

  lemma OnList(s: State, f: nat, n: nat, start: nat, i: nat, prev: int, p: int)
    requires Good(s) && Searching(s, f, n, start, i, prev, p)
    ensures i < |s.fl| && 0 <= prev == s.fl[i] && 0 <= p == After(s.fl, i) < |s.size| == |s.next|
    ensures start < |s.fl| && Left(|s.fl|, start, i) >= 0
  {
    hide Tiled;
    hide Apart;
    hide Cycle;
  }

  lemma Begin(s: State, f: nat, n: nat, start: nat)
    requires Good(s) && start < |s.fl| && s.fl[start] == f
    ensures f < |s.next| && Searching(s, f, n, start, start, f, s.next[f])
  {
    hide Tiled;
    hide Apart;
    hide Cycle;
    EntryFacts(s, start);
    AfterFacts(s, start);
  }

  /** The entry at p is too small, and not yet the one where the search started. */
  lemma Advance(s: State, f: nat, n: nat, start: nat, i: nat, prev: int, p: int) returns (i': nat)
    requires Good(s) && Searching(s, f, n, start, i, prev, p) && 0 <= p < |s.size| && s.size[p] < n && p != f
    ensures p < |s.next| && Searching(s, f, n, start, i', p, s.next[p])
    ensures Left(|s.fl|, start, i') < Left(|s.fl|, start, i)
  {
    hide Tiled;
    hide Apart;
    hide Cycle;
    i' := if i + 1 < |s.fl| then i + 1 else 0;
    EntryFacts(s, i');
    AfterFacts(s, i');
  }

  lemma Found(s: State, f: nat, n: nat, start: nat, i: nat, prev: int, p: int)
    requires Good(s) && Searching(s, f, n, start, i, prev, p) && 0 <= p < |s.size| && 1 <= n <= s.size[p]
    ensures NextFit(s, f, n, p) && Fits(s, n)
  {
    hide NoneYet;
    hide Tiled;
    hide Apart;
    CycleOnly(s.fl, s.next);
    hide Cycle;
    assert s.fl[i + 1] == p;
    assert BigHole(s, n, p);
  }

  /** After the entry the search started from, all have been passed. */
  lemma AllPassed(s: State, f: nat, n: nat, start: nat, i: nat, prev: int, p: int)
    requires Good(s) && Searching(s, f, n, start, i, prev, p) && 0 <= p < |s.size| && s.size[p] < n && p == f
    ensures !Fits(s, n)
  {
    hide Tiled;
    hide Apart;
    CycleOnly(s.fl, s.next);
    hide Cycle;
    forall m | 0 <= m < |s.fl| ensures s.fl[m] < |s.size| && s.size[s.fl[m]] < n {
      assert Passed(start, i, m) || m == start;
    }
  }

  // ---- Sizes: unit is sizeof(struct memh), word is where size_t and pointers wrap ----

  predicate Widths(unit: nat, word: nat) {
    1 <= unit && 2 * unit <= word && 512 < word
  }

  /** Units a request takes: the payload rounded up, plus the header. */
  function Units(bytes: nat, unit: nat): (n: nat)
    requires 1 <= unit
    ensures n >= 1 && unit * (n - 1) >= bytes
    ensures unit * (n - 1) < bytes + unit
  {
    Rounded(bytes, unit);
    (bytes + 2 * unit - 1) / unit
  }

  lemma Rounded(bytes: nat, unit: nat)
    requires 1 <= unit
    ensures var n := (bytes + 2 * unit - 1) / unit;
            n >= 1 && bytes <= unit * (n - 1) < bytes + unit && unit * n <= bytes + 2 * unit - 1
  {
    var x := bytes + 2 * unit - 1;
    var n, r := x / unit, x % unit;
    assert x == unit * n + r;
    assert unit * (n - 1) == unit * n - unit;
  }

  /** Units that the break moves by when n are wanted. */
  function Growth(n: nat, unit: nat): nat
    requires 1 <= unit
  {
    if n < 512 / unit then 512 / unit else n
  }

  /** At least n units, and all that fit into 512 bytes; no more than that. */
  lemma GrowthIs(n: nat, unit: nat, g: nat)
    requires 1 <= unit
    ensures g == Growth(n, unit) <==> n <= g && 512 < unit * (g + 1) && (g == n || unit * g <= 512)
  {
    var q, r := 512 / unit, 512 % unit;
    assert 512 == unit * q + r;
    if g < q {
      UnitOrder(unit, g + 1, q);
    } else {
      UnitOrder(unit, q + 1, g + 1);
      assert unit * (q + 1) == unit * q + unit;
      if g > q { UnitOrder(unit, q + 1, g); }
    }
  }

  lemma GrowthFits(n: nat, unit: nat, word: nat)
    requires Widths(unit, word) && unit * n < word
    ensures unit * Growth(n, unit) < word && Growth(n, unit) >= n
  {
    GrowthIs(n, unit, Growth(n, unit));
  }

  /** A sum of two words that wraps is no longer below either. */
  lemma Wraps(a: nat, b: nat, word: nat)
    requires a < word && b < word
    ensures (a + b) % word == if a + b < word then a + b else a + b - word
  {
    if a + b >= word {
      assert a + b == word * 1 + (a + b - word);
      Remainder(a + b, word, 1, a + b - word);
    }
  }

  lemma Remainder(x: int, d: int, q: int, r: int)
    requires 0 <= r < d && x == d * q + r
    ensures x % d == r
  {
    assert x == d * (x / d) + x % d;
    OneQuotient(d, q - x / d, x % d - r);
  }

  lemma OneQuotient(d: int, k: int, e: int)
    requires -d < e < d && d * k == e
    ensures k == 0
  {
  }

  lemma TimesSum(unit: nat, a: nat, b: nat)
    ensures unit * (a + b) == unit * a + unit * b
  {
  }

  lemma UnitOrder(unit: nat, a: nat, b: nat)
    requires a <= b
    ensures unit * a <= unit * b && unit * (b - a) == unit * b - unit * a
  {
  }

  /** The sum wraps only for an end above the memory that there is. */
  lemma EndWraps(origin: nat, unit: nat, e: nat, n: nat, units: nat, word: nat)
    requires origin + unit * units < word && e <= units && unit * n < word
    ensures (origin + unit * e + unit * n) % word < origin + unit * e ==> e + n > units
  {
    UnitOrder(unit, e, units);
    Wraps(origin + unit * e, unit * n, word);
    if e + n <= units {
      UnitOrder(unit, e + n, units);
      TimesSum(unit, e, n);
    }
  }

  class Heap {
    const next: array<nat>       // the header words of each unit
    const size: array<nat>
    const base: nat              // where the memory obtained with brk starts
    const origin: nat            // byte address of the root
    const unit: nat
    const word: nat
    var freeptr: nat             // where the next search starts
    var brk: nat                 // where that memory ends
    ghost var fl: seq<nat>       // the free list, root first
    ghost var live: set<nat>     // the allocated blocks
    ghost var owner: seq<nat>    // which block each unit is in

    ghost function S(): State
      reads this, next, size
    {
      State(next[..], size[..], owner, fl, live, base, brk)
    }

    /** The arena: two words for each unit, and all addresses fit in a pointer. */
    predicate Arena() {
      Widths(unit, word) && next.Length == size.Length && next != size && origin + unit * next.Length < word
    }

    ghost predicate Valid()
      reads this, next, size
    {
      Arena() && Good(S()) && freeptr in fl
    }

    /** The units of memory not allocated. */
    ghost function FreeMemory(): set<nat>
      requires Valid()
      reads this, next, size
    {
      FreeUnits(S())
    }

    constructor (origin: nat, base: nat, units: nat, unit: nat, word: nat)
      requires 0 < base <= units && Widths(unit, word) && origin + unit * units < word
      ensures Valid() && live == {} && FreeMemory() == {} && brk == this.base == base && next.Length == units &&
              this.unit == unit && this.word == word
      ensures fresh(next) && fresh(size)
    {
      this.origin := origin;
      this.unit := unit;
      this.word := word;
      this.base := base;
      brk := base;
      next := new nat[units](_ => 0);
      size := new nat[units](_ => 0);
      freeptr := 0;
      fl := [0];
      live := {};
      owner := seq(units, _ => 0);
    }

    /** The entry of the free list that block mh belongs behind. */
    method FindPlace(mh: nat) returns (p: nat, ghost k: nat)
      requires Valid() && mh in live
      ensures Place(fl, k, mh) && p == fl[k]
    {
      hide Apart;
      hide Tiled;
      hide Holes;
      LiveFacts(S(), mh);
      k := PlaceOf(fl, mh);
      p := freeptr;
      ghost var i :| 0 <= i < |fl| && fl[i] == p;
      assert LinkOK(fl, next[..], i);
      while !(p < mh && mh < next[p])
        invariant 0 <= i < |fl| && p == fl[i] && LinkOK(fl, next[..], i)
        decreases if i <= k then k - i else |fl| - i + k
      {
        if p >= next[p] && (p < mh || mh < next[p]) {
          break;
        }
        i := if i + 1 < |fl| then i + 1 else 0;
        assert LinkOK(fl, next[..], i);
        p := next[p];
      }
    }

    /** Link the block to what follows it, or absorb that if the two touch. */
    method MergeForward(mh: nat, p: nat, ghost k: nat) returns (ghost j: nat)
      requires Valid() && mh in live && Place(fl, k, mh) && p == fl[k]
      modifies `live, `owner, next, size
      ensures Held(S(), k, j, mh) && live == old(live) - {mh}
      ensures FreeUnits(S()) == old(FreeMemory()) + Span(mh, old(size[mh])) && old(size[mh]) <= size[mh]
      ensures forall b :: b in live ==> b < size.Length && size[b] == old(size[b])
    {
      hide Cycle;
      hide Apart;
      hide Tiled;
      hide Holes;
      hide Good;
      hide Held;
      hide FreeUnits;
      ghost var s := S();
      LiveFacts(s, mh);
      EntryFacts(s, k);
      AfterFacts(s, k);
      forall b | b in live ensures 0 < b < size.Length { LiveFacts(s, b); }
      ghost var n := size[mh];
      Released(s, mh);
      j := k + 1;
      if mh + size[mh] == next[p] {
        j := k + 2;
        ghost var b := next[p];
        size[mh] := size[mh] + size[next[p]];
        next[mh] := next[next[p]];
        owner := Given(owner, b, s.size[b], mh);
        live := live - {mh};
        ForwardMerged(s, k, mh, b, S());
        EntryFacts(s, k + 1);
        MergedFree(s, S(), mh, b);
      } else {
        next[mh] := next[p];
        live := live - {mh};
        ForwardKept(s, k, mh, S());
      }
    }

    /** Link what precedes the block to it, or let that absorb it. */
    method MergeBack(mh: nat, p: nat, ghost k: nat, ghost j: nat)
      requires Arena() && Held(S(), k, j, mh) && p == fl[k]
      modifies this, next, size
      ensures Valid() && FreeUnits(S()) == old(FreeUnits(S())) && live == old(live) && brk == old(brk)
      ensures exists h :: BigHole(S(), old(size[mh]), h)
      ensures forall b :: b in live ==> b < size.Length && size[b] == old(size[b])
    {
      hide Cycle;
      hide Apart;
      hide Tiled;
      hide Holes;
      hide Good;
      hide Held;
      hide FreeUnits;
      ghost var s := S();
      HeldFacts(s, k, j, mh);
      if p + size[p] == mh {
        size[p] := size[p] + size[mh];
        next[p] := next[mh];
        owner := Given(owner, mh, s.size[mh], p);
        fl := fl[..k + 1] + fl[j..];
        BackMerged(s, k, j, mh, S());
        assert BigHole(S(), s.size[mh], p);
      } else {
        next[p] := mh;
        fl := Spliced(fl, k, mh, j);
        BackKept(s, k, j, mh, S());
        assert BigHole(S(), s.size[mh], mh);
      }
      freeptr := p;
    }

    /** Give a block back. */
    method Free(ptr: int)
      requires Valid() && (ptr == NULL || (1 <= ptr && ptr - 1 in live))
      modifies this, next, size
      ensures Valid() && brk == old(brk)
      ensures ptr == NULL ==> S() == old(S())
      ensures ptr != NULL ==>
                live == old(live) - {ptr - 1} &&
                FreeMemory() == old(FreeMemory()) + Span(ptr - 1, old(size[ptr - 1]))
      ensures ptr != NULL ==> Fits(S(), old(size[ptr - 1]))
      ensures forall b :: b in live ==> b < size.Length && size[b] == old(size[b])
    {
      hide Cycle;
      hide Apart;
      hide Tiled;
      hide Holes;
      hide Good;
      hide Held;
      hide FreeUnits;
      if ptr == NULL {
        forall b | b in live ensures 0 < b < size.Length { LiveFacts(S(), b); }
        return;
      }
      var mh := ptr - 1;
      LiveFacts(S(), mh);
      var p;
      ghost var k, j;
      p, k := FindPlace(mh);
      j := MergeForward(mh, p, k);
      ghost var n := size[mh];
      MergeBack(mh, p, k, j);
      ghost var h :| BigHole(S(), n, h);
      assert BigHole(S(), old(size[mh]), h);
    }

    /** Get more memory: n units, or the usual amount if that is more. The break
        cannot be moved beyond limit. */
    method BrkMore(n: nat, limit: nat) returns (p: int)
      requires Valid() && 1 <= n && unit * n < word && limit <= next.Length
      modifies this, next, size
      ensures Valid()
      ensures p == NULL <==> old(brk) + Growth(n, unit) > limit
      ensures p == NULL ==> S() == old(S()) && freeptr == old(freeptr)
      ensures p != NULL ==> p == freeptr && Fits(S(), Growth(n, unit)) && MoreFree(old(S()), S(), Growth(n, unit))
    {
      hide Cycle;
      hide Apart;
      hide Tiled;
      hide Holes;
      hide FreeUnits;
      hide Fits;
      ghost var s := S();
      assert s.brk <= next.Length;
      forall b | b in live ensures 0 < b < size.Length { LiveFacts(s, b); }
      var nb := n;
      if nb < 512 / unit {
        nb := 512 / unit;
      }
      GrowthFits(n, unit, word);
      // The new block would start at the break
      var e := brk;
      // An end above the top of memory wraps round to below the start
      EndWraps(origin, unit, e, nb, next.Length, word);
      if (origin + unit * e + unit * nb) % word < origin + unit * e {
        return NULL;
      }
      // The system may refuse
      if e + nb > limit {
        return NULL;
      }
      brk := e + nb;
      // Made to look allocated, it can be freed
      size[e] := nb;
      live := live + {e};
      owner := Given(owner, e, nb, e);
      More(s, nb, S());
      Free(e + 1);
      assert live == old(live);
      p := freeptr;
    }

    /** All of the free block p is needed: it leaves the list. */
    method TakeAll(prev: nat, p: nat, ghost i: nat)
      requires Valid() && i < |fl| && prev == fl[i] && p == After(fl, i) < size.Length && 1 <= size[p]
      modifies this`fl, this`live, next
      ensures Arena() && Good(S()) && brk == old(brk) && prev in fl
      ensures Allocated(old(S()), S(), old(size[p]), p)
    {
      hide Cycle;
      hide Apart;
      hide Tiled;
      hide Holes;
      hide FreeUnits;
      hide Allocated;
      ghost var s := S();
      CycleOnly(fl, next[..]);
      EntryFacts(s, i);
      EntryFacts(s, i + 1);
      next[prev] := next[p];
      fl := fl[..i + 1] + fl[i + 2..];
      live := live + {p};
      TakenWhole(s, i + 1, S());
      AllocatedHere(s, S(), s.size[p], p);
    }

    /** Only the end of p is needed, so its place on the list stays. */
    method TakeEnd(p: nat, n: nat, ghost i: nat) returns (b: nat)
      requires Valid() && i < |fl| && p == After(fl, i) < size.Length && 1 <= n < size[p]
      modifies this`live, this`owner, size
      ensures Arena() && Good(S()) && brk == old(brk) && fl == old(fl)
      ensures Allocated(old(S()), S(), n, b) && b == p + old(size[p]) - n
    {
      hide Cycle;
      hide Apart;
      hide Tiled;
      hide Holes;
      hide FreeUnits;
      hide Allocated;
      hide Given;
      ghost var s := S();
      CycleOnly(fl, next[..]);
      EntryFacts(s, i + 1);
      b := p + size[p] - n;
      size[p] := size[p] - n;
      size[b] := n;
      owner := Given(owner, b, n, b);
      live := live + {b};
      TakenTail(s, i + 1, n, p, b, S());
      AllocatedHere(s, S(), n, b);
    }

    /** Allocate n units of the free block p, which follows prev on the list. */
    method Take(prev: nat, p: nat, n: nat, ghost i: nat) returns (ptr: nat)
      requires Valid() && i < |fl| && prev == fl[i] && p == After(fl, i) < size.Length && 1 <= n <= size[p]
      modifies this, next, size
      ensures Valid() && brk == old(brk) && freeptr == prev
      ensures 1 <= ptr && Allocated(old(S()), S(), n, ptr - 1) && ptr - 1 == p + old(size[p]) - n
    {
      hide Good;
      hide Allocated;
      var b := p;
      if size[p] == n {
        TakeAll(prev, p, i);
      } else {
        b := TakeEnd(p, n, i);
      }
      freeptr := prev;
      ptr := b + 1;
    }

    /** Allocate: the first free block that is large enough, going round from
        where the last search ended. */
    method Malloc(bytes: nat, limit: nat) returns (ptr: int)
      requires Valid() && bytes < word && limit <= next.Length
      modifies this, next, size
      ensures Valid()
      ensures ptr == NULL <==>
                bytes + 2 * unit - 1 >= word ||
                (!old(Fits(S(), Units(bytes, unit))) && old(brk) + Growth(Units(bytes, unit), unit) > limit)
      ensures ptr == NULL ==> S() == old(S())
      ensures brk == old(brk) +
                if ptr == NULL || old(Fits(S(), Units(bytes, unit))) then 0 else Growth(Units(bytes, unit), unit)
      ensures ptr != NULL ==> 1 <= ptr && Allocated(old(S()), S(), Units(bytes, unit), ptr - 1)
      ensures ptr != NULL && old(Fits(S(), Units(bytes, unit))) ==>
                exists a: nat ::
                  a < size.Length && NextFit(old(S()), old(freeptr), Units(bytes, unit), a) &&
                  ptr - 1 == a + old(size[a]) - Units(bytes, unit)
    {
      hide Cycle;
      hide Apart;
      hide Tiled;
      hide Holes;
      hide Good;
      hide FreeUnits;
      hide Fits;
      hide NextFit;
      hide NoneYet;
      hide Allocated;
      hide MoreFree;
      hide Searching;
      Wraps(bytes, 2 * unit - 1, word);
      Rounded(bytes, unit);
      var nblocks := (bytes + unit + unit - 1) % word;
      // The sum wrapped
      if nblocks < bytes {
        return NULL;
      }
      nblocks := nblocks / unit;
      assert nblocks == Units(bytes, unit);
      ghost var s0, f0 := S(), freeptr;
      var prev := freeptr;
      ghost var grown: bool := false;
      ghost var room := s0.brk + nblocks <= limit && s0.brk + 512 / unit <= limit;
      ghost var start: nat := StartIndex(s0, freeptr);
      ghost var i: nat := start;
      Begin(s0, freeptr, nblocks, start);
      var p := next[prev];
      while true
        invariant Valid() && Searching(S(), freeptr, nblocks, start, i, prev, p)
        invariant !grown ==> S() == s0 && freeptr == f0
        invariant grown ==> Fits(S(), nblocks) && !Fits(s0, nblocks) && MoreFree(s0, S(), Growth(nblocks, unit))
        invariant grown ==> room
        decreases if grown then 0 else 1, Left(|fl|, start, i)
      {
        OnList(S(), freeptr, nblocks, start, i, prev, p);
        if size[p] >= nblocks {
          ghost var s1 := S();
          ptr := Take(prev, p, nblocks, i);
          if grown {
            MoreBrk(s0, s1, Growth(nblocks, unit));
            AllocatedMore(s0, s1, S(), Growth(nblocks, unit), nblocks, ptr - 1);
          } else {
            Found(s0, f0, nblocks, start, i, prev, p);
          }
          return;
        }
        // Back at the start, with nothing found
        if p == freeptr {
          AllPassed(S(), freeptr, nblocks, start, i, prev, p);
          p := BrkMore(nblocks, limit);
          if p == NULL {
            return NULL;
          }
          FitsLess(S(), Growth(nblocks, unit), nblocks);
          grown := true;
          start := StartIndex(S(), freeptr);
          i := start;
          Begin(S(), freeptr, nblocks, start);
        } else {
          i := Advance(S(), freeptr, nblocks, start, i, prev, p);
        }
        prev, p := p, next[p];
      }
    }

    /** Giving a block back at once leaves the free list as it was. */
    method MallocFree(bytes: nat, limit: nat)
      requires Valid() && bytes < word && limit <= next.Length && Fits(S(), Units(bytes, unit))
      modifies this, next, size
      ensures Valid() && live == old(live) && brk == old(brk)
      ensures fl == old(fl) && forall a :: a in Holes(fl) ==> a < size.Length && size[a] == old(size[a])
    {
      hide Good;
      hide FreeUnits;
      hide Holes;
      hide Fits;
      ghost var s := S();
      var ptr := Malloc(bytes, limit);
      assert Span(s.brk, 0) == {};
      ghost var s1 := S();
      Free(ptr);
      assert live == s.live;
      assert FreeMemory() == old(FreeMemory());
      SameMemorySameList(s, S());
    }
  }
}
