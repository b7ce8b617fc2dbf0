/** fmod and remquo: exact remainders by shift and subtract on two words. */
module Fmod {
  import opened CTypes
  import opened DoubleWords
  import opened DoubleScale

  datatype Result = NaN | Double(high: word, low: word)

  /** A double: words with the sign split off. */
  predicate Finite(h: int) {
    0 <= h < INFINITE
  }

  // ---- ilogb, and alignment ----

  /** The exponent of a value that is not zero. */
  ghost predicate Exponent(h: int, l: word, e: int) {
    Finite(h) && N(h, l) > 0 &&
    if h >= HIDDEN then e == h / HIDDEN - 1023
    else
      e < -1022 && -1022 - e <= 52 && (h > 0 ==> -1022 - e <= 20) && (h == 0 ==> 21 <= -1022 - e) &&
      Significand(N(h, l) * Pow2(-1022 - e))
  }

  /** Count up to the leading bit of i; i > 0 is a signed test, so the top bit ends the loop. */
  method LeadingBit(i0: word, e0: int) returns (e: int, ghost t: nat)
    requires i0 > 0
    ensures e == e0 - t && TOP <= i0 * Pow2(t) < W && t <= 31
  {
    e, t := e0, 0;
    var i := i0;
    while 0 < i < TOP
      invariant t <= 31 && e == e0 - t && i == i0 * Pow2(t) && Pow2(t) <= i < W
      decreases W - i
    {
      ghost var p := Pow2(t);
      TwicePow2(t);
      Assoc(i0, 2, p);
      Assoc(i0, p, 2);
      if t >= 31 { Pow2Grows(31, t); Pow2Consts(); }
      e := e - 1;
      i := i * 2 % W;
      t := t + 1;
    }
  }

  /** The binary exponent of a double that is not zero. */
  method ILogB(h: int, l: word) returns (e: int)
    requires Finite(h) && N(h, l) > 0
    ensures Exponent(h, l, e)
  {
    ghost var t;
    if h < HIDDEN {                           // subnormal
      if h == 0 {
        e, t := LeadingBit(l, -1043);
        LowExponent(l, t);
      } else {
        e, t := LeadingBit(h * 2048 % W, -1022);
        HighExponent(h, l, t);
      }
    } else {
      e := h / HIDDEN - 1023;
    }
  }

  lemma LowExponent(l: word, t: nat)
    requires TOP <= l * Pow2(t) < W
    ensures Significand(l * Pow2(t + 21))
  {
    Pow2Consts();
    Pow2Add(t, 21);
    hide Pow2;
    Assoc(l, Pow2(t), Pow2(21));
  }

  lemma HighExponent(h: int, l: word, t: nat)
    requires 0 < h < HIDDEN && TOP <= h * 2048 * Pow2(t) < W && t <= 31
    ensures 1 <= t <= 20 && Significand(N(h, l) * Pow2(t))
  {
    Swap(h, 2048, Pow2(t));
    ShiftBound(h, t);
    Pow2Consts();
    Pow2Add(t, 21 - t);
    HighBy(h, l, Pow2(t), Pow2(21 - t));
  }

  lemma ShiftBound(h: int, t: nat)
    requires 0 < h < HIDDEN && HIDDEN <= h * Pow2(t) < 2 * HIDDEN
    ensures 1 <= t <= 20
  {
    Pow2Consts();
    assert Pow2(0) == 1;
    if t > 20 {
      Pow2Grows(21, t);
      hide Pow2;
      LessEq(1, h, Pow2(t));
    }
  }

  lemma HighBy(h: int, l: word, p: int, c: int)
    requires p > 0 && c > 0 && p * c == 2 * HIDDEN && HIDDEN <= h * p < 2 * HIDDEN
    ensures Significand(N(h, l) * p)
  {
    SmallerFactor(h, c, p);
    Distance(h, c, p);
    Dist(h * W, l, p);
    Swap(h, W, p);
    Less(l, W, p);
    LessEq(0, l, p);
  }

  lemma AlignFacts(h: int, l: word, e: int)
    requires Exponent(h, l, e)
    ensures e >= -1022 ==>
              h >= HIDDEN && Significand(N(HIDDEN + h % HIDDEN, l)) &&
              Scaled(Val(h, l), N(HIDDEN + h % HIDDEN, l), e)
    ensures e < -1022 ==>
              h < HIDDEN && 0 < -1022 - e <= 52 && Scaled(Val(h, l), N(h, l) * Pow2(-1022 - e), e) &&
              Significand(N(h, l) * Pow2(-1022 - e))
    ensures -1022 - e > 31 ==> h == 0
  {
    hide Pow2;
  }

  lemma ShiftedFar(l: word, n: nat)
    requires 32 <= n
    ensures N(l * Pow2(n - 32), 0) == N(0, l) * Pow2(n)
  {
    Pow2Consts();
    Pow2Add(n - 32, 32);
    Assoc(l, Pow2(n - 32), Pow2(32));
  }

  lemma HighPart(h: int, l: word)
    requires Significand(N(h, l))
    ensures HIDDEN <= h < 2 * HIDDEN
  {
  }

  /** Set up the significand, shifting subnormals to normal. */
  method Align(h: int, l: word, e: int) returns (h': int, l': word)
    requires Exponent(h, l, e)
    ensures Significand(N(h', l')) && Scaled(Val(h, l), N(h', l'), e) && HIDDEN <= h' < 2 * HIDDEN
  {
    hide Pow2;
    hide Scaled;
    hide Significand;
    hide N;
    hide Val;
    AlignFacts(h, l, e);
    if e >= -1022 {
      h', l' := HIDDEN + h % HIDDEN, l;
    } else {
      var n := -1022 - e;
      if n <= 31 {
        ShiftedLeft(h, l, n);
        h' := h * Pow2(n) + l / Pow2(32 - n);
        l' := l * Pow2(n) % W;
      } else {
        ShiftedFar(l, n);
        h' := l * Pow2(n - 32);
        l' := 0;
      }
    }
    HighPart(h', l');
  }

  // ---- The remainder loop ----

  /** All that is subtracted so far, and what is left: q is the quotient of the
      bits done, r is what the n bits to come apply to. */
  ghost predicate Reducing(a: int, b: int, n: nat, q: int, r: int) {
    0 <= r < 2 * b && a == (q * b + r) * Pow2(n)
  }

  lemma ReduceStart(r: int, b: int, n: nat)
    requires 0 <= r < 2 * b
    ensures Reducing(r * Pow2(n), b, n, 0, r)
  {
  }

  /** Counting modulo 2^32 loses nothing modulo 2^32. */
  lemma CountWraps(q: word, quotient: nat)
    requires q == quotient % W
    ensures (q + 1) % W == (quotient + 1) % W && q * 2 % W == 2 * quotient % W
  {
    var k := quotient / W;
    Periodic(k, q + 1);
    Periodic(2 * k, 2 * q);
  }

  lemma Periodic(k: int, v: int)
    ensures (k * W + v) % W == v % W
  {
  }

  lemma ReduceBounds(a: int, b: int, n: nat, q: int, r: int)
    requires Reducing(a, b, n, q, r)
    ensures 0 <= r < 2 * b
  {
  }

  lemma ReduceShift(a: int, b: int, n: nat, q: int, r: int)
    requires n > 0 && Reducing(a, b, n, q, r)
    ensures r < b ==> Reducing(a, b, n - 1, 2 * q, 2 * r)
    ensures r >= b ==> Reducing(a, b, n - 1, 2 * (q + 1), 2 * (r - b))
  {
    TwicePow2(n - 1);
    hide Pow2;
    var p := Pow2(n - 1);
    Assoc(q * b + r, 2, p);
    Assoc(2, q, b);
    Dist(q, 1, b);
    Assoc(2, q + 1, b);
  }

  lemma ReduceEnd(a: int, b: int, q: int, r: int)
    requires Reducing(a, b, 0, q, r)
    ensures r < b ==> a == q * b + r
    ensures r >= b ==> a == (q + 1) * b + (r - b)
  {
    Dist(q, 1, b);
  }

  lemma ReduceZero(a: int, b: int, n: nat, q: int, r: int)
    requires Reducing(a, b, n, q, r) && r == b
    ensures a == (q + 1) * Pow2(n) * b + 0
  {
    Dist(q, 1, b);
    Swap(q + 1, b, Pow2(n));
  }

  /** One step: subtract if it goes, and double. */
  method Step(hx: int, lx: word, hy: int, ly: word)
    returns (less: bool, zero: bool, hz: int, lz: word, h2: int, l2: word)
    requires 0 <= N(hx, lx) < 2 * N(hy, ly)
    ensures less == (N(hx, lx) < N(hy, ly)) && N(hz, lz) == N(hx, lx) - N(hy, ly) && zero == (N(hz, lz) == 0)
    ensures N(h2, l2) == 2 * if less then N(hx, lx) else N(hz, lz)
  {
    Subtracted(hx, lx, hy, ly);
    hz := hx - hy;
    lz := (lx - ly) % W;
    if lx < ly {
      hz := hz - 1;
    }
    less := hz < 0;
    zero := hz == 0 && lz == 0;
    if less {
      Doubled(hx, lx);
      h2 := hx + hx + lx / TOP;
      l2 := (lx + lx) % W;
    } else {
      Doubled(hz, lz);
      h2 := hz + hz + lz / TOP;
      l2 := (lz + lz) % W;
    }
  }

  /** The integer remainder of x * 2^n by y, bit by bit. With early, stop when nothing is left;
      q is the quotient, modulo 2^32 as it is counted. */
  method Reduce(hx0: int, lx0: word, hy: int, ly: word, n0: nat, early: bool)
    returns (gone: bool, hx: int, lx: word, q: word, ghost quotient: nat)
    requires N(hy, ly) > 0 && 0 <= N(hx0, lx0) < 2 * N(hy, ly)
    ensures gone ==> early
    ensures N(hx0, lx0) * Pow2(n0) == quotient * N(hy, ly) + (if gone then 0 else N(hx, lx))
    ensures !gone ==> 0 <= N(hx, lx) < N(hy, ly) && q == quotient % W
  {
    hide Reducing;
    hide Pow2;
    hide N;
    ghost var a, b := N(hx0, lx0) * Pow2(n0), N(hy, ly);
    gone, hx, lx, q, quotient := false, hx0, lx0, 0, 0;
    ReduceStart(N(hx0, lx0), b, n0);
    var n := n0;
    while n > 0
      invariant Reducing(a, b, n, quotient, N(hx, lx)) && q == quotient % W
    {
      ghost var r := N(hx, lx);
      ReduceBounds(a, b, n, quotient, r);
      ReduceShift(a, b, n, quotient, r);
      var less, zero, hz, lz, h2, l2 := Step(hx, lx, hy, ly);
      if !less && zero && early {
        ReduceZero(a, b, n, quotient, r);
        gone, quotient := true, (quotient + 1) * Pow2(n);
        return;
      }
      if !less {
        CountWraps(q, quotient);
        q := (q + 1) % W;
        quotient := quotient + 1;
      }
      hx, lx := h2, l2;
      CountWraps(q, quotient);
      q := q * 2 % W;
      quotient := 2 * quotient;
      n := n - 1;
    }
    ghost var r := N(hx, lx);
    ReduceBounds(a, b, 0, quotient, r);
    ReduceEnd(a, b, quotient, r);
    var less, zero, hz, lz, h2, l2 := Step(hx, lx, hy, ly);
    if !less {
      hx, lx := hz, lz;
      CountWraps(q, quotient);
      q := (q + 1) % W;
      quotient := quotient + 1;
    }
  }

  // ---- Back to a floating value ----

  /** Normalize: double until the leading bit is in place. */
  method Normalize(hx0: int, lx0: word, e0: int, ghost v: int) returns (hx: int, lx: word, e: int)
    requires 0 < N(hx0, lx0) < 2 * LEAD && Scaled(v, N(hx0, lx0), e0)
    ensures Significand(N(hx, lx)) && Scaled(v, N(hx, lx), e) && e <= e0
  {
    hide Scaled;
    hx, lx, e := hx0, lx0, e0;
    while hx < HIDDEN
      invariant 0 < N(hx, lx) < 2 * LEAD && Scaled(v, N(hx, lx), e) && e <= e0
      decreases 2 * LEAD - N(hx, lx)
    {
      Rescaled(v, N(hx, lx), e);
      Doubled(hx, lx);
      hx := hx + hx + lx / TOP;
      lx := (lx + lx) % W;
      e := e - 1;
    }
  }

  lemma NormalValue(hx: int, l: word, e: int, v: int, h: int)
    requires Significand(N(hx, l)) && Scaled(v, N(hx, l), e) && -1022 <= e <= 1023 &&
             h == hx - HIDDEN + (e + 1023) * HIDDEN
    ensures Finite(h) && Val(h, l) == v
  {
    hide Pow2;
    HighPart(hx, l);
    assert h / HIDDEN == e + 1023 && h % HIDDEN == hx - HIDDEN;
  }

  lemma SmallValue(h: int, l: word, v: int)
    requires N(h, l) == v && 0 <= v < LEAD
    ensures Finite(h) && Val(h, l) == v
  {
    hide Pow2;
  }

  /** Put significand and exponent into words. Nothing is lost. */
  method Encode(hx: int, lx: word, e: int, ghost v: int) returns (h: int, l: word)
    requires Significand(N(hx, lx)) && Scaled(v, N(hx, lx), e) && v > 0 && e <= 1023
    ensures Finite(h) && Val(h, l) == v
  {
    hide Pow2;
    hide N;
    hide Val;
    hide Significand;
    HighPart(hx, lx);
    if e >= -1022 {                           // the result is normal
      h := hx - HIDDEN + (e + 1023) * HIDDEN;
      l := lx;
      NormalValue(hx, lx, e, v, h);
    } else {                                  // or it is subnormal
      var n := -1022 - e;
      SubnormalOutput(hx, lx, n, v);
      if n <= 20 {
        ShiftedRight(hx, lx, n, v);
        l := lx / Pow2(n) + hx * Pow2(32 - n) % W;
        h := hx / Pow2(n);
      } else if n <= 31 {
        ShiftedRight(hx, lx, n, v);
        l := hx * Pow2(32 - n) % W + lx / Pow2(n);
        h := 0;
      } else {
        l := hx / Pow2(n - 32);
        h := 0;
        LowWord(l);
      }
      SmallValue(h, l, v);
    }
  }

  lemma LowWord(l: word)
    ensures N(0, l) == l
  {
  }

  lemma SubnormalOutput(hx: int, lx: word, n: nat, v: int)
    requires Significand(N(hx, lx)) && v * Pow2(n) == N(hx, lx) && v > 0 && n >= 1
    ensures 1 <= n <= 52 && 0 < v < LEAD
    ensures 21 <= n ==> hx / Pow2(n) == 0
    ensures 32 <= n ==> hx / Pow2(n - 32) == v < W
  {
    HighPart(hx, lx);
    OutputBound(v, n);
    if 21 <= n { FarShift(hx, n); }
    if 32 <= n { WordShift(hx, lx, n, v); }
  }

  lemma FarShift(h: int, n: nat)
    requires 0 <= h < 2 * HIDDEN && 21 <= n
    ensures h / Pow2(n) == 0
  {
    Pow2Consts();
    hide Pow2;
    Pow2Grows(21, n);
    NoneLeft(h, Pow2(n));
  }

  lemma WordShift(h: int, l: word, n: nat, v: int)
    requires 0 <= h < 2 * HIDDEN && 32 <= n && v > 0 && v * Pow2(n) == N(h, l)
    ensures h / Pow2(n - 32) == v < W
  {
    Pow2Consts();
    Pow2Add(n - 32, 32);
    hide Pow2;
    var p := Pow2(n - 32);
    Assoc(v, p, W);
    LowGone(h, l, v * p);
    Exactly(v, p);
    LessEq(1, p, v);
  }

  lemma OutputBound(v: int, n: nat)
    requires v > 0 && n >= 1 && v * Pow2(n) < 2 * LEAD
    ensures n <= 52 && v < LEAD
  {
    Pow2Consts();
    Pow2Grows(1, n);
    assert Pow2(1) == 2;
    if n > 52 { Pow2Grows(53, n); hide Pow2; LessEq(1, v, Pow2(n)); }
    hide Pow2;
    if v >= LEAD { LessEq(LEAD, v, Pow2(n)); LessEq(2, Pow2(n), LEAD); }
  }

  lemma NoneLeft(h: int, p: int)
    requires 0 <= h < p
    ensures h / p == 0
  {
  }

  lemma LowGone(h: int, l: word, v: int)
    requires h * W + l == v * W
    ensures l == 0 && h == v
  {
  }

  lemma Exactly(v: int, p: int)
    requires p > 0
    ensures v * p / p == v
  {
    Quotient(v * p, p, v, 0);
  }

  // ---- fmod ----

  /** |x| of a high word. */
  function Abs(h: word): (a: int)
    ensures 0 <= a < TOP
  {
    h % TOP
  }

  /** The tests for x or y that have no remainder: (ly|-ly)>>31 is 1 unless ly is 0. */
  predicate Exceptional(hx: int, hy: int, ly: word) {
    (hy == 0 && ly == 0) || hx >= INFINITE || (if ly != 0 && hy % 2 == 0 then hy + 1 else hy) > INFINITE
  }

  /** They single out y zero, x not finite, and y a NaN: above infinity as a number. */
  lemma ExceptionalMeans(hx: word, hy: word, ly: word)
    ensures Abs(hx) == hx % 0x8000_0000 && Abs(hy) == hy % 0x8000_0000
    ensures Exceptional(Abs(hx), Abs(hy), ly) <==>
            (hy % 0x8000_0000 == 0 && ly == 0) || hx % 0x8000_0000 >= 0x7ff0_0000 ||
            (hy % 0x8000_0000) * 0x1_0000_0000 + ly > 0x7ff0_0000 * 0x1_0000_0000
  {
  }

  lemma NotExceptional(hx: word, hy: word, ly: word)
    requires !Exceptional(Abs(hx), Abs(hy), ly)
    ensures Abs(hx) < INFINITE && (Abs(hy) < INFINITE || (Abs(hy) == INFINITE && ly == 0)) && N(Abs(hy), ly) > 0
  {
  }

  /** Align both, and reduce: the remainder of the values, in a common scale. */
  method Remainder(hx0: int, lx0: word, hy0: int, ly0: word, early: bool)
    returns (zero: bool, h: int, l: word, q: word, ghost quotient: nat)
    requires Finite(hx0) && Finite(hy0) && N(hy0, ly0) > 0 && hy0 <= hx0 && (hy0 == hx0 ==> ly0 <= lx0)
    ensures Val(hy0, ly0) > 0 && quotient == Val(hx0, lx0) / Val(hy0, ly0)
    ensures (zero <==> Val(hx0, lx0) % Val(hy0, ly0) == 0)
    ensures !zero ==> Finite(h) && Val(h, l) == Val(hx0, lx0) % Val(hy0, ly0)
    ensures !early ==> q == quotient % W
  {
    hide Pow2;
    hide Val;
    hide Scaled;
    ghost var vx, vy := Val(hx0, lx0), Val(hy0, ly0);
    var ix := ILogB(hx0, lx0);
    var iy := ILogB(hy0, ly0);
    var hx, lx := Align(hx0, lx0, ix);
    var hy, ly := Align(hy0, ly0, iy);
    Ordered(hx0, lx0, hy0, ly0, N(hx, lx), ix, N(hy, ly), iy);
    var gone;
    gone, h, l, q, quotient := Reduce(hx, lx, hy, ly, ix - iy, early);
    ghost var r := if gone then 0 else N(h, l);
    ScaledMod(vx, N(hx, lx), ix, vy, N(hy, ly), iy, quotient, r);
    ScaledZero(vx % vy, r, iy);
    zero := gone || (h == 0 && l == 0);
    if !zero {
      var e;
      h, l, e := Normalize(h, l, iy, vx % vy);
      h, l := Encode(h, l, e, vx % vy);
    } else {
      assert r == 0;
    }
  }

  lemma ScaledZero(v: int, m: int, e: int)
    requires Scaled(v, m, e) && v >= 0 && m >= 0
    ensures v == 0 <==> m == 0
  {
    hide Pow2;
    if e >= -1022 {
      if m > 0 { LessEq(1, m, Pow2(e + 1022)); }
    } else {
      if v > 0 { LessEq(1, v, Pow2(-1022 - e)); }
    }
  }

  lemma Ordered(hx: int, lx: word, hy: int, ly: word, mx: int, ix: int, my: int, iy: int)
    requires Finite(hx) && Finite(hy) && hy <= hx && (hy == hx ==> ly <= lx)
    requires Scaled(Val(hx, lx), mx, ix) && Scaled(Val(hy, ly), my, iy) && Significand(mx) && Significand(my)
    requires Exponent(hy, ly, iy)
    ensures iy <= ix && iy <= 1023 && 0 <= mx < 2 * my && my > 0
  {
    hide Pow2;
    hide Val;
    hide Scaled;
    if ix < iy {
      ExponentOrder(Val(hx, lx), mx, ix, Val(hy, ly), my, iy);
      if hy < hx || ly < lx { ValOrder(hy, ly, hx, lx); }
    }
  }

  /** fmod: the remainder of |x| by |y|, with the sign of x, exactly. */
  method Fmod(hx0: word, lx: word, hy0: word, ly: word) returns (r: Result)
    ensures r.NaN? <==>
              (hy0 % 0x8000_0000 == 0 && ly == 0) || hx0 % 0x8000_0000 >= 0x7ff0_0000 ||
              (hy0 % 0x8000_0000) * 0x1_0000_0000 + ly > 0x7ff0_0000 * 0x1_0000_0000
    ensures hx0 % 0x8000_0000 < 0x7ff0_0000 && hy0 % 0x8000_0000 == 0x7ff0_0000 && ly == 0 ==> r == Double(hx0, lx)
    ensures !r.NaN? && Abs(hy0) < 0x7ff0_0000 ==>
              r.high / 0x8000_0000 == hx0 / 0x8000_0000 && Finite(Abs(r.high)) && Val(Abs(hy0), ly) > 0 &&
              Val(Abs(r.high), r.low) == Val(Abs(hx0), lx) % Val(Abs(hy0), ly)
  {
    hide Val;
    hide N;
    var sx := hx0 / TOP * TOP;                // set when x is negative
    var hx := hx0 % TOP;                      // |x|
    var hy := hy0 % TOP;                      // |y|
    ExceptionalMeans(hx0, hy0, ly);
    // no remainder to compute
    if Exceptional(hx, hy, ly) {
      return NaN;
    }
    NotExceptional(hx0, hy0, ly);
    if hy < INFINITE { YPositive(hy, ly); }
    if hx <= hy {
      if hx < hy || lx < ly {                 // |x| < |y|
        if hy < INFINITE { SmallerX(hx, lx, hy, ly); }
        return Double(hx0, lx);
      }
      if lx == ly {                           // y goes into x once
        EqualXY(hx, lx);
        return Double(sx, 0);
      }
    }
    var zero, h, l, q;
    ghost var quotient;
    zero, h, l, q, quotient := Remainder(hx, lx, hy, ly, true);
    if zero {                                 // y divides x
      EqualXY(hx, lx);
      return Double(sx, 0);
    }
    return Double(h + sx, l);
  }

  lemma YPositive(h: int, l: word)
    requires Finite(h) && N(h, l) != 0
    ensures N(h, l) > 0 && Val(h, l) > 0
  {
    ValPositive(h, l);
  }

  lemma SmallerX(hx: int, lx: word, hy: int, ly: word)
    requires Finite(hx) && Finite(hy) && hx <= hy && (hx < hy || lx < ly)
    ensures 0 <= Val(hx, lx) < Val(hy, ly) && Val(hx, lx) % Val(hy, ly) == Val(hx, lx) && Val(hx, lx) / Val(hy, ly) == 0
  {
    ValOrder(hx, lx, hy, ly);
    ValNatural(hx, lx);
    hide Val;
    Quotient(Val(hx, lx), Val(hy, ly), 0, Val(hx, lx));
  }

  lemma ValNatural(h: int, l: word)
    requires Finite(h)
    ensures Val(h, l) >= 0
  {
    if h >= HIDDEN { ValNormal(h, l); hide Pow2; LessEq(0, LEAD, Pow2(h / HIDDEN - 1)); }
  }

  lemma EqualXY(h: int, l: word)
    requires Finite(h)
    ensures Val(0, 0) == 0 && (Val(h, l) > 0 ==> Val(h, l) % Val(h, l) == 0 && Val(h, l) / Val(h, l) == 1)
  {
    assert Val(0, 0) == 0;
    hide Val;
    if Val(h, l) > 0 { Quotient(Val(h, l), Val(h, l), 1, 0); }
  }

  // ---- remquo ----

  /** n is the integer nearest to x / y, the even one of two. */
  predicate NearestEven(x: int, y: int, n: int) {
    var d := 2 * (x - n * y);
    -y <= d <= y && ((d == y || d == -y) ==> n % 2 == 0)
  }

  function Away(x: int, y: int, n: int): nat {
    if x >= n * y then x - n * y else n * y - x
  }

  /** That is: no multiple of y is closer to x, and one as close has the odd factor. */
  lemma NearestEvenIs(x: int, y: int, n: int)
    requires y > 0
    ensures NearestEven(x, y, n) <==>
            forall m: int :: m != n ==>
              Away(x, y, n) < Away(x, y, m) || (Away(x, y, n) == Away(x, y, m) && n % 2 == 0)
  {
    hide Away;
    if NearestEven(x, y, n) {
      forall m: int | m != n
        ensures Away(x, y, n) < Away(x, y, m) || (Away(x, y, n) == Away(x, y, m) && n % 2 == 0)
      {
        NearerThan(x, y, n, m);
      }
    } else {
      var m := if x > n * y then n + 1 else n - 1;
      NotNearer(x, y, n, m);
    }
  }

  lemma NearerThan(x: int, y: int, n: int, m: int)
    requires y > 0 && NearestEven(x, y, n) && m != n
    ensures Away(x, y, n) < Away(x, y, m) || (Away(x, y, n) == Away(x, y, m) && n % 2 == 0)
  {
    Dist(m, -n, y);
    if m > n { LessEq(1, m - n, y); } else { LessEq(1, n - m, y); Dist(n, -m, y); }
  }

  lemma NotNearer(x: int, y: int, n: int, m: int)
    requires y > 0 && !NearestEven(x, y, n) && m == if x > n * y then n + 1 else n - 1
    ensures Away(x, y, n) > Away(x, y, m) || (Away(x, y, n) == Away(x, y, m) && n % 2 != 0)
  {
    Dist(n, 1, y);
    Dist(n, -1, y);
  }

  /** Some double has this value. */
  ghost predicate Representable(v: int) {
    exists h: int, l: word :: Finite(h) && Val(h, l) == v
  }

  // y below 2^-1021: 0.5*y might not be exact.
  const TINY: int := 2 * LEAD

  /** remquo: the remainder of |x| by |y| to the nearest multiple, as a double that
      has the sign of x, or the other one if the quotient was rounded up; and the
      last 31 bits of the quotient, with the sign of x/y. */
  method RemQuo(hx0: word, lx: word, hy0: word, ly: word) returns (r: Result, quo: int, ghost quotient: nat)
    ensures r.NaN? <==>
              (hy0 % 0x8000_0000 == 0 && ly == 0) || hx0 % 0x8000_0000 >= 0x7ff0_0000 ||
              (hy0 % 0x8000_0000) * 0x1_0000_0000 + ly > 0x7ff0_0000 * 0x1_0000_0000
    ensures hx0 % 0x8000_0000 < 0x7ff0_0000 && hy0 % 0x8000_0000 == 0x7ff0_0000 && ly == 0 ==>
              r == Double(hx0, lx) && quo == 0
    ensures !r.NaN? && Abs(hy0) < 0x7ff0_0000 ==>
              var d := Val(Abs(hx0), lx) - quotient * Val(Abs(hy0), ly);
              NearestEven(Val(Abs(hx0), lx), Val(Abs(hy0), ly), quotient) && Finite(Abs(r.high)) &&
              Val(Abs(r.high), r.low) == (if d < 0 then -d else d) &&
              (r.high / 0x8000_0000 == hx0 / 0x8000_0000 <==> d >= 0) &&
              quo == (if hx0 / 0x8000_0000 == hy0 / 0x8000_0000 then 1 else -1) * (quotient % 0x8000_0000)
  {
    hide Val;
    hide N;
    hide NearestEven;
    hide Abs;
    hide Exceptional;
    var sxy := hx0 / TOP != hy0 / TOP;
    var sx := hx0 / TOP * TOP;                // set when x is negative
    var hx := Abs(hx0);
    var hy := Abs(hy0);
    quo, quotient := 0, 0;
    ExceptionalMeans(hx0, hy0, ly);
    // no remainder to compute
    if Exceptional(hx, hy, ly) {
      return NaN, 0, 0;
    }
    NotExceptional(hx0, hy0, ly);
    if hy < INFINITE { YPositive(hy, ly); }
    var h, l, q := hx, lx, 0;
    if hx < hy || (hx == hy && lx < ly) {     // x is the remainder already
      if hy == INFINITE {
        // No finite x is more than half of y.
        return Double(hx0, lx), 0, 0;
      }
      SmallerX(hx, lx, hy, ly);
    } else if hx == hy && lx == ly {          // y goes into x once
      quo := if sxy then -1 else 1;
      quotient := 1;
      WholeQuotient(Val(hx, lx), Val(hy, ly), 1);
      ZeroValue();
      WithSign(0, hx0, false);
      r := Double(sx, 0);
      return;
    } else {
      var zero;
      zero, h, l, q, quotient := Remainder(hx, lx, hy, ly, false);
      DivMod(Val(hx, lx), Val(hy, ly));
      if zero {                               // y divides x
        q := q % TOP;
        quo := if sxy then -q else q;
        LowBits(quotient);
        WholeQuotient(Val(hx, lx), Val(hy, ly), quotient);
        ZeroValue();
        WithSign(0, hx0, false);
        r := Double(sx, 0);
        return;
      }
    }
    var negative;
    h, l, negative, q, quotient := FixUp(h, l, hy, ly, q, Val(hx, lx), quotient);
    WithSign(h, hx0, negative);
    r := Double(if negative then h + (TOP - sx) else h + sx, l);
    LowBits(quotient);
    q := q % TOP;
    quo := if sxy then -q else q;
  }

  /** The high word h with the sign of hx, or the other one. */
  lemma WithSign(h: int, hx: word, other: bool)
    requires Finite(h)
    ensures var s := hx / TOP * TOP; var high := if other then h + (TOP - s) else h + s;
            0 <= high < W && Abs(high) == h && (high / TOP == hx / TOP <==> !other)
  {
  }

  /** Round the quotient to the nearest integer. The remainder may become negative:
      its words are given without a sign. */
  method FixUp(h0: int, l0: word, hy: int, ly: word, q0: word, ghost vx: int, ghost quotient0: nat)
    returns (h: int, l: word, negative: bool, q: word, ghost quotient: nat)
    requires Finite(h0) && Finite(hy) && 0 <= Val(h0, l0) < Val(hy, ly) && q0 == quotient0 % W
    requires vx == quotient0 * Val(hy, ly) + Val(h0, l0)
    ensures Finite(h) && NearestEven(vx, Val(hy, ly), quotient) && q == quotient % W
    ensures vx - quotient * Val(hy, ly) == if negative then -Val(h, l) else Val(h, l)
    ensures negative <==> vx < quotient * Val(hy, ly)
  {
    hide Val;
    hide NearestEven;
    h, l, negative, q, quotient := h0, l0, false, q0, quotient0;
    var x, y := Val(h, l), Val(hy, ly);
    Fixed(vx, y, quotient, x, q);
    CountWraps(q, quotient);
    if y < TINY {
      negative := x + x > y || (x + x == y && q % 2 == 1);
    } else {
      Halved(hy, ly);
      negative := x > y / 2 || (x == y / 2 && q % 2 == 1);
    }
    if negative {
      q, quotient := (q + 1) % W, quotient + 1;
      h, l := Subtract(h, l, hy, ly);
    }
  }

  /** x - y, where x is at least half of y: the words of the difference, which is
      exact, without its sign. */
  method Subtract(h: int, l: word, hy: int, ly: word) returns (hd: int, ld: word)
    requires Finite(h) && Finite(hy) && Val(h, l) < Val(hy, ly) <= 2 * Val(h, l)
    ensures Finite(hd) && Val(hd, ld) == Val(hy, ly) - Val(h, l)
  {
    hide Val;
    Differences(h, l, hy, ly);
    hd, ld :| 0 <= hd < INFINITE && 0 <= ld < W && Val(hd, ld) == Val(hy, ly) - Val(h, l);
  }

  lemma LowBits(quotient: nat)
    ensures quotient % W % TOP == quotient % TOP
  {
    var k := quotient / W;
    assert quotient == 2 * k * TOP + quotient % W;
    LowPart(2 * k, quotient % W);
  }

  lemma LowPart(k: int, v: int)
    ensures (k * TOP + v) % TOP == v % TOP
  {
  }

  lemma WholeQuotient(x: int, y: int, n: int)
    requires x == n * y && y > 0
    ensures NearestEven(x, y, n)
  {
  }

  /** Which way to round, from the truncated quotient and its remainder. */
  lemma Fixed(x: int, y: int, quotient: nat, r: int, q: word)
    requires x == quotient * y + r && 0 <= r < y && q == quotient % W
    ensures 2 * r < y || (2 * r == y && q % 2 == 0) ==> NearestEven(x, y, quotient) && x - quotient * y == r
    ensures 2 * r > y || (2 * r == y && q % 2 == 1) ==>
            NearestEven(x, y, quotient + 1) && x - (quotient + 1) * y == r - y
  {
    SameParity(q, quotient);
    Nearest(x, y, quotient, r);
    Dist(quotient, 1, y);
    Nearest(x, y, quotient + 1, r - y);
  }

  lemma SameParity(q: word, quotient: nat)
    requires q == quotient % W
    ensures q % 2 == quotient % 2
  {
    var k := quotient / W;
    assert quotient == k * W + q;
  }

  lemma Nearest(x: int, y: int, n: int, r: int)
    requires x == n * y + r
    ensures NearestEven(x, y, n) <==> -y <= 2 * r <= y && ((2 * r == y || 2 * r == -y) ==> n % 2 == 0)
  {
  }

  /** A double that is not tiny is a multiple of two units. */
  lemma Halved(h: int, l: word)
    requires Finite(h) && Val(h, l) >= TINY
    ensures Val(h, l) % 2 == 0
  {
    assert Pow2(1) == 2;
    if HIDDEN <= h < 2 * HIDDEN { ValNormal(h, l); }
    var e, m := h / HIDDEN, N(HIDDEN + h % HIDDEN, l);
    TwicePow2(e - 2);
    hide Pow2;
    Assoc(m, 2, Pow2(e - 2));
    Swap(m, 2, Pow2(e - 2));
  }

  lemma ZeroValue()
    ensures Val(0, 0) == 0
  {
  }

  /** A significand and a scale make a double. */
  lemma {:induction false} Words(m: int, s: nat)
    requires 0 <= m < 2 * LEAD && s <= 2045
    ensures Representable(m * Pow2(s))
    decreases s
  {
    if m < LEAD && s == 0 {
      SmallValue(m / W, m % W, m);
      assert Pow2(0) == 1;
    } else if m >= LEAD {
      var h, l := m / W, m % W;
      NormalValue(h, l, s - 1022, m * Pow2(s), h - HIDDEN + (s + 1) * HIDDEN);
    } else {
      TwicePow2(s - 1);
      Assoc(m, 2, Pow2(s - 1));
      Words(2 * m, s - 1);
    }
  }

  /** The subtraction x - y in the end is exact, as x is at least half of y. */
  lemma Differences(h: int, l: word, hy: int, ly: word)
    requires Finite(h) && Finite(hy) && Val(h, l) < Val(hy, ly) <= 2 * Val(h, l)
    ensures Representable(Val(hy, ly) - Val(h, l))
  {
    ScaleVal(h, l);
    ScaleVal(hy, ly);
    if hy < h { ValOrder(hy, ly, h, l); }
    Difference(Mantissa(h, l), Scale(h), Mantissa(hy, ly), Scale(hy));
  }

  lemma Difference(m: int, s: nat, my: int, sy: nat)
    requires 0 <= m < 2 * LEAD && s <= 2045 && s <= sy
    requires m * Pow2(s) <= my * Pow2(sy) <= 2 * (m * Pow2(s))
    ensures Representable(my * Pow2(sy) - m * Pow2(s))
  {
    Pow2Add(sy - s, s);
    hide Pow2;
    hide Representable;
    var d := Pow2(sy - s);
    DifferenceBy(m, Pow2(s), my, d);
    Words(my * d - m, s);
  }

  lemma DifferenceBy(m: int, p: int, my: int, d: int)
    requires 0 <= m < 2 * LEAD && p > 0 && m * p <= my * (d * p) <= 2 * (m * p)
    ensures 0 <= my * d - m < 2 * LEAD && (my * d - m) * p == my * (d * p) - m * p
  {
    Assoc(my, d, p);
    Minus(my * d, m, p);
    NotLess(my * d - m, 0, p);
    NotLess(m, my * d - m, p);
  }

  lemma Minus(a: int, b: int, c: int)
    ensures (a - b) * c == a * c - b * c
  {
  }

  lemma NotLess(a: int, b: int, c: int)
    requires c > 0 && a * c >= b * c
    ensures a >= b
  {
    if a < b { Less(a, b, c); }
  }

  function Scale(h: int): (s: nat)
    requires Finite(h)
    ensures s <= 2045
  {
    if h < HIDDEN then 0 else h / HIDDEN - 1
  }

  function Mantissa(h: int, l: word): (m: int)
    requires Finite(h)
    ensures 0 <= m < 2 * LEAD
  {
    if h < HIDDEN then N(h, l) else N(HIDDEN + h % HIDDEN, l)
  }

  lemma ScaleVal(h: int, l: word)
    requires Finite(h)
    ensures Val(h, l) == Mantissa(h, l) * Pow2(Scale(h))
  {
    assert Pow2(0) == 1;
  }
}
