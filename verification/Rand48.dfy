/** lrand48 and friends: a 48-bit linear congruential generator computed on
    16-bit limbs with a 32-bit accumulator. */
module Rand48 {
  const H: int := 0x1_0000           // one limb
  const W: int := 0x1_0000_0000      // the accumulator wraps here
  const M: int := H * W              // 2^48

  type limb = x: int | 0 <= x < H
  type word = x: int | 0 <= x < W

  /** The number in three limbs, low one first. */
  function Number(a: limb, b: limb, c: limb): (n: int)
    ensures 0 <= n < M
  {
    a + b * H + c * W
  }

  /** One step of the linear congruence. */
  function Next(a: int, x: int, c: int): int {
    (a * x + c) % M
  }

  /** What lrand48 makes of a state: bits 33 to 47, and above them bits 16 to 31. */
  function Output31(x: int): int {
    x / (2 * W) + x / H % H * 0x8000
  }

  /** The same of mrand48, which takes bit 32 as well. */
  function Output32(x: int): int {
    x / W + x / H % H * H
  }

  /** The state after n steps. */
  function After(a: int, x: int, c: int, n: nat): int {
    if n == 0 then x else Next(a, After(a, x, c, n - 1), c)
  }

  /** The product of two limbs. */
  function Times(a: int, b: int): int {
    a * b
  }

  // ---- Why dropping the carries is harmless ----

  lemma Products(a0: int, a1: int, a2: int, x0: int, x1: int, x2: int)
    ensures (a0 + a1 * H + a2 * W) * (x0 + x1 * H + x2 * W) ==
            a0 * x0 + (a0 * x1 + a1 * x0) * H + (a0 * x2 + a1 * x1 + a2 * x0) * W + (a1 * x2 + a2 * x1) * M +
              a2 * x2 * W * W
  {
    var x := x0 + x1 * H + x2 * W;
    assert a0 * x == a0 * x0 + a0 * x1 * H + a0 * x2 * W by { Spread(a0, x0, x1, x2); }
    assert a1 * x == a1 * x0 + a1 * x1 * H + a1 * x2 * W by { Spread(a1, x0, x1, x2); }
    assert a2 * x == a2 * x0 + a2 * x1 * H + a2 * x2 * W by { Spread(a2, x0, x1, x2); }
    Sum3(a0, a1, a2, x);
  }

  lemma Spread(a: int, x0: int, x1: int, x2: int)
    ensures a * (x0 + x1 * H + x2 * W) == a * x0 + a * x1 * H + a * x2 * W
  {
  }

  lemma Sum3(a0: int, a1: int, a2: int, x: int)
    ensures (a0 + a1 * H + a2 * W) * x == a0 * x + a1 * x * H + a2 * x * W
  {
  }

  /** The three limbs that come out of the accumulator, from the sums of products
      s0, s1, s2 of weight 1, 2^16 and 2^32. */
  lemma Limbs(s0: int, s1: int, s2: int, t0: int, t1: int, t2: int)
    requires 0 <= s0 && 0 <= s1 && 0 <= s2
    requires t0 == s0 % W && t1 == (t0 / H + s1) % W && t2 == (t1 / H + s2) % W
    requires s0 < W
    ensures t0 % H + t1 % H * H + t2 % H * W == (s0 + s1 * H + s2 * W) % M
  {
    var c1, c2 := (t0 / H + s1) / W, (t1 / H + s2) / H;
    // t0 + s1 * H == t0 % H + (t1 + c1 * W) * H, and so on up
    assert s0 + s1 * H == t0 % H + t1 * H + c1 * M;
    assert t1 == t1 % H + t1 / H * H;
    assert t1 / H + s2 == t2 % H + c2 * H by { LowLimb(t1 / H + s2, t2); }
    assert s0 + s1 * H + s2 * W == t0 % H + t1 % H * H + t2 % H * W + (c1 + c2) * M;
    Reduce(t0 % H + t1 % H * H + t2 % H * W, c1 + c2);
  }

  lemma LowLimb(s: int, t: int)
    requires 0 <= s && t == s % W
    ensures s == t % H + s / H * H
  {
  }

  lemma Reduce(r: int, k: int)
    requires 0 <= r < M
    ensures (r + k * M) % M == r
  {
  }

  lemma HighTerms(r: int, u: int, v: int)
    ensures (r + u * M + v * W * W) % M == r % M
  {
    assert v * W * W == v * H * M;
    Multiple(r, u + v * H);
  }

  lemma Multiple(r: int, k: int)
    ensures (r + k * M) % M == r % M
  {
  }

  /** The multiplier, the state and the increment: __msa48. */
  class Generator {
    var a0: limb
    var a1: limb
    var a2: limb
    var x0: limb
    var x1: limb
    var x2: limb
    var c: limb
    var sum: word

    function A(): int
      reads this
    {
      Number(a0, a1, a2)
    }

    function X(): int
      reads this
    {
      Number(x0, x1, x2)
    }

    constructor ()
      ensures A() == 0x5DEECE66D && c == 11
    {
      a0, a1, a2 := 0xe66d, 0xdeec, 0x0005;
      x0, x1, x2 := 0x330E, 0xABCD, 0x1234;
      c := 0x000B;
      sum := 0;
    }

    method LMulAdd(a: limb, b: limb)
      modifies `sum
      ensures sum == (old(sum) + Times(a, b)) % W
    {
      sum := (sum + a * b) % W;
    }

    method Roll() returns (v: limb)
      modifies `sum
      ensures v == old(sum) % H && sum == old(sum) / H
    {
      v := sum % H;
      sum := sum / H;
    }

    /** X := (A * X + C) modulo 2^48. */
    method Iteration48()
      modifies `x0, `x1, `x2, `sum
      ensures X() == Next(A(), old(X()), c)
    {
      hide Number;
      hide Next;
      hide Times;
      sum := 0;
      LMulAdd(a0, x0);
      ghost var u0 := sum;
      sum := (sum + c) % W;
      ghost var t0 := sum;
      var tmp0 := Roll();
      LMulAdd(a0, x1);
      ghost var u1 := sum;
      LMulAdd(a1, x0);
      ghost var t1 := sum;
      var tmp1 := Roll();
      LMulAdd(a0, x2);
      ghost var u2 := sum;
      LMulAdd(a1, x1);
      ghost var v2 := sum;
      LMulAdd(a2, x0);
      ghost var t2 := sum;
      Iterated(a0, a1, a2, x0, x1, x2, c, u0, t0, u1, t1, u2, v2, t2);
      x0 := tmp0;
      x1 := tmp1;
      x2 := Roll();
    }

    method SRand48(seed: int)
      modifies this
      ensures A() == 0x5DEECE66D && c == old(c) && X() == seed % W * H + 0x330E
    {
      x1 := seed % H;
      x2 := seed / H % H;
      a0, a1, a2 := 0xe66d, 0xdeec, 0x0005;
      x0 := 0x330E;
    }

    method LCong48(p: seq<limb>)
      requires |p| == 7
      modifies this
      ensures X() == Number(p[3], p[4], p[5]) && A() == Number(p[0], p[1], p[2]) && c == p[6]
    {
      a0, a1, a2, x0, x1, x2, c := p[0], p[1], p[2], p[3], p[4], p[5], p[6];
    }

    /** The number that the new state gives. */
    method LRand48() returns (r: int)
      modifies `x0, `x1, `x2, `sum
      ensures X() == Next(A(), old(X()), c) && r == Output31(X())
    {
      hide Number;
      hide Next;
      Iteration48();
      Parts(x0, x1, x2);
      r := x2 / 2 + x1 * 0x8000;
    }

    method MRand48() returns (r: int)
      modifies `x0, `x1, `x2, `sum
      ensures X() == Next(A(), old(X()), c) && r == Output32(X())
    {
      hide Number;
      hide Next;
      Iteration48();
      Parts(x0, x1, x2);
      r := x2 + x1 * H;
    }

    /** The number after the caller's state s. Neither s nor the generator's own
        state moves on; for s that is a step only if it is a step to itself. */
    method NRand48(s: array<limb>) returns (r: int)
      requires s.Length >= 3
      modifies `x0, `x1, `x2, `sum
      ensures X() == old(X())
      ensures var n := Next(A(), Number(s[0], s[1], s[2]), c); r == Output31(n)
      ensures Number(s[0], s[1], s[2]) == Next(A(), old(Number(s[0], s[1], s[2])), c) <==>
              Fixed(A(), old(Number(s[0], s[1], s[2])), c)
    {
      StepsToItself(A(), Number(s[0], s[1], s[2]), c);
      var b0, b1, b2 := x0, x1, x2;
      x0, x1, x2 := s[0], s[1], s[2];
      r := LRand48();
      x0, x1, x2 := b0, b1, b2;
    }

    method JRand48(s: array<limb>) returns (r: int)
      requires s.Length >= 3
      modifies `x0, `x1, `x2, `sum
      ensures X() == old(X())
      ensures var n := Next(A(), Number(s[0], s[1], s[2]), c); r == Output32(n)
      ensures Number(s[0], s[1], s[2]) == Next(A(), old(Number(s[0], s[1], s[2])), c) <==>
              Fixed(A(), old(Number(s[0], s[1], s[2])), c)
    {
      StepsToItself(A(), Number(s[0], s[1], s[2]), c);
      var b0, b1, b2 := x0, x1, x2;
      x0, x1, x2 := s[0], s[1], s[2];
      r := MRand48();
      x0, x1, x2 := b0, b1, b2;
    }

    method Seed48(n: seq<limb>) returns (saved: seq<limb>)
      requires |n| == 3
      modifies this
      ensures saved == old([x0, x1, x2]) && X() == Number(n[0], n[1], n[2]) && A() == 0x5DEECE66D && c == old(c)
    {
      saved := [x0, x1, x2];
      x0, x1, x2 := n[0], n[1], n[2];
      a0, a1, a2 := 0xe66d, 0xdeec, 0x0005;
    }
  }

  // ---- Runs ----

  /** The calls that give a number; the last two bring their own state. */
  datatype Call = LRand | MRand | NRand(s0: limb, s1: limb, s2: limb) | JRand(s0: limb, s1: limb, s2: limb)

  /** How many of the calls move the generator on. */
  function Steps(calls: seq<Call>): nat {
    if calls == [] then 0
    else Steps(calls[..|calls| - 1]) + if calls[|calls| - 1].LRand? || calls[|calls| - 1].MRand? then 1 else 0
  }

  /** The answer to a call when the generator is in state x. */
  function Answer(k: Call, a: int, x: int, c: int): int {
    match k
    case LRand => Output31(Next(a, x, c))
    case MRand => Output32(Next(a, x, c))
    case NRand(s0, s1, s2) => Output31(Next(a, Number(s0, s1, s2), c))
    case JRand(s0, s1, s2) => Output32(Next(a, Number(s0, s1, s2), c))
  }

  /** The k-th answer is that of the state after the steps before it. */
  predicate Answered(calls: seq<Call>, k: nat, r: int, a: int, x: int, c: int)
    requires k < |calls|
  {
    r == Answer(calls[k], a, After(a, x, c, Steps(calls[..k])), c)
  }

  /** One more call: its effect on the count of steps. */
  lemma OneMore(calls: seq<Call>, k: nat)
    requires k < |calls|
    ensures Steps(calls[..k + 1]) == Steps(calls[..k]) + if calls[k].LRand? || calls[k].MRand? then 1 else 0
  {
    assert calls[..k + 1][..k] == calls[..k];
  }

  /** Make the calls one after the other. Only lrand48 and mrand48 move the
      generator on, one step of the congruence each. */
  method Run(g: Generator, calls: seq<Call>) returns (out: seq<int>)
    modifies g`x0, g`x1, g`x2, g`sum
    ensures g.X() == After(g.A(), old(g.X()), g.c, Steps(calls))
    ensures |out| == |calls|
    ensures forall k :: 0 <= k < |calls| ==> Answered(calls, k, out[k], g.A(), old(g.X()), g.c)
  {
    hide Number;
    hide Next;
    hide Output31;
    hide Output32;
    hide Answered;
    ghost var a, x, c := g.A(), g.X(), g.c;
    out := [];
    var i := 0;
    while i < |calls|
      invariant 0 <= i <= |calls| && |out| == i && g.A() == a && g.c == c
      invariant g.X() == After(a, x, c, Steps(calls[..i]))
      invariant forall k :: 0 <= k < i ==> Answered(calls, k, out[k], a, x, c)
    {
      var r := Make(g, calls[i]);
      OneMore(calls, i);
      assert Answered(calls, i, r, a, x, c) by { AnsweredNow(calls, i, r, a, x, c); }
      out := out + [r];
      i := i + 1;
    }
    assert calls[..i] == calls;
  }

  lemma AnsweredNow(calls: seq<Call>, k: nat, r: int, a: int, x: int, c: int)
    requires k < |calls| && r == Answer(calls[k], a, After(a, x, c, Steps(calls[..k])), c)
    ensures Answered(calls, k, r, a, x, c)
  {
  }

  /** Make one call. */
  method Make(g: Generator, call: Call) returns (r: int)
    modifies g`x0, g`x1, g`x2, g`sum
    ensures g.X() == if call.LRand? || call.MRand? then Next(g.A(), old(g.X()), g.c) else old(g.X())
    ensures r == Answer(call, g.A(), old(g.X()), g.c)
  {
    hide Number;
    hide Next;
    hide Output31;
    hide Output32;
    match call
    case LRand => r := g.LRand48();
    case MRand => r := g.MRand48();
    case NRand(s0, s1, s2) =>
      var s := new limb[3];
      s[0], s[1], s[2] := s0, s1, s2;
      r := g.NRand48(s);
    case JRand(s0, s1, s2) =>
      var s := new limb[3];
      s[0], s[1], s[2] := s0, s1, s2;
      r := g.JRand48(s);
  }

  /** As nrand48 leaves its argument alone, asking again gives the same number. */
  method NRandTwice(g: Generator, s: array<limb>) returns (r1: int, r2: int)
    requires s.Length >= 3
    modifies g`x0, g`x1, g`x2, g`sum
    ensures r1 == r2 && s[..] == old(s[..]) && g.X() == old(g.X())
  {
    hide Number;
    hide Next;
    hide Output31;
    r1 := g.NRand48(s);
    r2 := g.NRand48(s);
  }

  // ---- States that the congruence leaves alone ----

  /** x is a solution of (a - 1) x + c = 0 modulo 2^48. */
  predicate Fixed(a: int, x: int, c: int) {
    ((a - 1) * x + c) % M == 0
  }

  lemma StepsToItself(a: int, x: int, c: int)
    requires 0 <= x < M
    ensures Next(a, x, c) == x <==> Fixed(a, x, c)
  {
    var d, q := (a - 1) * x + c, ((a - 1) * x + c) / M;
    assert d == a * x - x + c;
    if Fixed(a, x, c) {
      assert a * x + c == x + q * M;
      Reduce(x, q);
    }
    if Next(a, x, c) == x {
      Reduce(0, (a * x + c) / M);
    }
  }

  /** With an odd multiplier and an odd increment there are none, so with the ones
      that srand48 sets and the generator starts with there are none. */
  lemma NoneFixed(a: int, x: int, c: int)
    requires a % 2 == 1 && c % 2 == 1
    ensures !Fixed(a, x, c)
  {
    var b := a / 2;
    assert a - 1 == 2 * b;
    Assoc(2, b, x);
    OddNumber(b * x, c);
  }

  lemma OddNumber(u: int, c: int)
    requires c % 2 == 1
    ensures (2 * u + c) % M != 0
  {
    var d := 2 * u + c;
    if d % M == 0 {
      var k := d / M;
      assert d == k * M;
      HalfMultiple(k);
    }
  }

  lemma HalfMultiple(k: int)
    ensures k * M == 2 * (k * 0x8000_0000_0000)
  {
  }

  lemma Assoc(a: int, b: int, x: int)
    ensures (a * b) * x == a * (b * x)
  {
  }

  /** One state of each kind: with the multiplier and increment of the start, 0 is
      followed by 11, and the caller's 0 stays 0; with multiplier 1 and increment 0,
      which lcong48 accepts, every state is followed by itself. */
  lemma ZeroAndIdentity(x: int)
    requires 0 <= x < M
    ensures Next(0x5DEECE66D, 0, 11) == 11 && !Fixed(0x5DEECE66D, 0, 11)
    ensures Next(1, x, 0) == x && Fixed(1, x, 0)
  {
  }

  // ---- Limbs of a state, and what is made of them ----

  lemma Parts(a: limb, b: limb, c: limb)
    ensures Number(a, b, c) / W == c && Number(a, b, c) / H % H == b && Number(a, b, c) / (2 * W) == c / 2
  {
  }

  /** From the limbs, low one first: the high one (halved) below, the middle one above. */
  lemma OutputLimbs(a: limb, b: limb, c: limb)
    ensures Output31(a + b * 0x1_0000 + c * 0x1_0000_0000) == c / 2 + b * 0x8000
    ensures Output32(a + b * 0x1_0000 + c * 0x1_0000_0000) == c + b * 0x1_0000
  {
    Parts(a, b, c);
  }

  /** A step, with the modulus written out. */
  lemma StepIs(a: int, x: int, c: int, q: int, r: int)
    requires a * x + c == q * 0x1_0000_0000_0000 + r && 0 <= r < 0x1_0000_0000_0000
    ensures Next(a, x, c) == r
  {
    Reduce(r, q);
  }

  /** The upper 31 bits of the state, which lrand48 is known for, and the upper 32 of
      mrand48, come out exactly when the two upper limbs are the same. */
  lemma UpperBits(a: limb, b: limb, c: limb)
    ensures var x := Number(a, b, c); Output31(x) == x / (2 * H) <==> b == c
    ensures var x := Number(a, b, c); Output32(x) == x / H <==> b == c
  {
    Parts(a, b, c);
    assert Number(a, b, c) / H == b + c * H;
    assert Number(a, b, c) / (2 * H) == b / 2 + c * 0x8000;
  }

  /** After srand48(0), the first lrand48 already returns something else. */
  lemma FirstDraw()
    ensures var x := Next(Number(0xE66D, 0xDEEC, 5), 0x330E, 11);
            x == 0x2BBB62DC5101 && Output31(x) == 829298141 && x / (2 * H) == 366850414 && Output32(x) == 0x62DC2BBB
  {
    assert Number(0xE66D, 0xDEEC, 5) == 0x5DEECE66D;
  }

  /** The accumulator, step by step: u, v are partial sums, t what is rolled out. */
  lemma Iterated(a0: limb, a1: limb, a2: limb, x0: limb, x1: limb, x2: limb, c: limb,
                 u0: word, t0: word, u1: word, t1: word, u2: word, v2: word, t2: word)
    requires u0 == (0 + Times(a0, x0)) % W && t0 == (u0 + c) % W
    requires u1 == (t0 / H + Times(a0, x1)) % W && t1 == (u1 + Times(a1, x0)) % W
    requires u2 == (t1 / H + Times(a0, x2)) % W && v2 == (u2 + Times(a1, x1)) % W && t2 == (v2 + Times(a2, x0)) % W
    ensures Number(t0 % H, t1 % H, t2 % H) == Next(Number(a0, a1, a2), Number(x0, x1, x2), c)
  {
    hide Next;
    hide Number;
    hide Times;
    hide Total;
    hide Limbs3;
    Product(a0, x0);
    Product(a0, x1);
    Product(a1, x0);
    Product(a0, x2);
    Product(a1, x1);
    Product(a2, x0);
    NextIs(a0, a1, a2, x0, x1, x2, c);
    NumberIs(t0, t1, t2);
    Accumulated(Times(a0, x0), Times(a0, x1), Times(a1, x0), Times(a0, x2), Times(a1, x1), Times(a2, x0),
                Times(a1, x2) + Times(a2, x1), Times(a2, x2), c, u0, t0, u1, t1, u2, v2, t2);
  }

  /** The number in the low limbs of three words. */
  function Limbs3(t0: word, t1: word, t2: word): int {
    t0 % H + t1 % H * H + t2 % H * W
  }

  /** All nine products, by weight, and the increment. */
  function Total(p00: int, p01: int, p10: int, p02: int, p11: int, p20: int, h: int, g: int, c: limb): int {
    (Sum(p00, p01, p10, p02, p11, p20, h, g) + c) % M
  }

  lemma NumberIs(t0: word, t1: word, t2: word)
    ensures Number(t0 % H, t1 % H, t2 % H) == Limbs3(t0, t1, t2)
  {
  }

  /** Total before it is reduced. */
  function Sum(p00: int, p01: int, p10: int, p02: int, p11: int, p20: int, h: int, g: int): int {
    p00 + (p01 + p10) * H + (p02 + p11 + p20) * W + h * M + g * W * W
  }

  lemma NumbersTimes(a0: limb, a1: limb, a2: limb, x0: limb, x1: limb, x2: limb)
    ensures Number(a0, a1, a2) * Number(x0, x1, x2) ==
            Sum(Times(a0, x0), Times(a0, x1), Times(a1, x0), Times(a0, x2), Times(a1, x1), Times(a2, x0),
              Times(a1, x2) + Times(a2, x1), Times(a2, x2))
  {
    Products(a0, a1, a2, x0, x1, x2);
  }

  lemma NextIs(a0: limb, a1: limb, a2: limb, x0: limb, x1: limb, x2: limb, c: limb)
    ensures Next(Number(a0, a1, a2), Number(x0, x1, x2), c) ==
            Total(Times(a0, x0), Times(a0, x1), Times(a1, x0), Times(a0, x2), Times(a1, x1), Times(a2, x0),
                  Times(a1, x2) + Times(a2, x1), Times(a2, x2), c)
  {
    hide Number;
    hide Times;
    hide Sum;
    NumbersTimes(a0, a1, a2, x0, x1, x2);
  }

  /** The same with the products as numbers of their own: p is what the
      accumulator sees, h and g the products that are never computed. */
  lemma Accumulated(p00: int, p01: int, p10: int, p02: int, p11: int, p20: int, h: int, g: int, c: limb,
                    u0: word, t0: word, u1: word, t1: word, u2: word, v2: word, t2: word)
    requires 0 <= p00 <= (H - 1) * (H - 1) && 0 <= p01 && 0 <= p10 && 0 <= p02 && 0 <= p11 && 0 <= p20
    requires u0 == (0 + p00) % W && t0 == (u0 + c) % W
    requires u1 == (t0 / H + p01) % W && t1 == (u1 + p10) % W
    requires u2 == (t1 / H + p02) % W && v2 == (u2 + p11) % W && t2 == (v2 + p20) % W
    ensures Limbs3(t0, t1, t2) == Total(p00, p01, p10, p02, p11, p20, h, g, c)
  {
    var s0, s1, s2 := p00 + c, p01 + p10, p02 + p11 + p20;
    Lowest(p00, c, u0, t0);
    TwoAdded(t0 / H, p01, p10, u1, t1);
    ThreeAdded(t1 / H, p02, p11, p20, u2, v2, t2);
    assert t0 / H + s1 == t0 / H + p01 + p10 && t1 / H + s2 == t1 / H + p02 + p11 + p20;
    Limbs(s0, s1, s2, t0, t1, t2);
    HighTerms(s0 + s1 * H + s2 * W, h, g);
    assert Sum(p00, p01, p10, p02, p11, p20, h, g) + c == s0 + s1 * H + s2 * W + h * M + g * W * W;
  }

  lemma Product(a: limb, x: limb)
    ensures 0 <= Times(a, x) <= (H - 1) * (H - 1)
  {
    MulLe(0, a, x);
    MulLe(a, H - 1, x);
  }

  lemma MulLe(a: int, b: int, x: int)
    requires a <= b && 0 <= x
    ensures a * x <= b * x
  {
  }

  /** The lowest product and the increment do not wrap. */
  lemma Lowest(p: int, c: limb, u: word, t: word)
    requires 0 <= p <= (H - 1) * (H - 1) && u == (0 + p) % W && t == (u + c) % W
    ensures t == p + c == (p + c) % W && p + c < W
  {
  }

  /** Reducing at each step is reducing once. */
  lemma TwoAdded(s: int, p: int, q: int, u: word, t: word)
    requires u == (s + p) % W && t == (u + q) % W
    ensures t == (s + p + q) % W
  {
    Inner(s + p, q);
  }

  lemma ThreeAdded(s: int, p: int, q: int, r: int, u: word, v: word, t: word)
    requires u == (s + p) % W && v == (u + q) % W && t == (v + r) % W
    ensures t == (s + p + q + r) % W
  {
    TwoAdded(s, p, q, u, v);
    Inner(s + p + q, r);
  }

  lemma Inner(s: int, q: int)
    ensures (s % W + q) % W == (s + q) % W
  {
  }
}
