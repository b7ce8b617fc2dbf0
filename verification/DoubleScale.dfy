/** Bringing doubles to a common form: a 53-bit significand and an exponent. */
module DoubleScale {
  import opened CTypes
  import opened DoubleWords

  const LEAD: int := HIDDEN * W      // 2^52

  /** v units of 2^-1074 are m * 2^(e-52). */
  predicate Scaled(v: int, m: int, e: int) {
    if e >= -1022 then v == m * Pow2(e + 1022) else v * Pow2(-1022 - e) == m
  }

  predicate Significand(m: int) {
    LEAD <= m < 2 * LEAD
  }

  lemma {:induction false} Pow2Grows(a: nat, b: nat)
    requires a <= b
    ensures Pow2(a) <= Pow2(b)
  {
    if a < b {
      Pow2Grows(a, b - 1);
    }
  }

  lemma TwicePow2(n: nat)
    ensures Pow2(n + 1) == 2 * Pow2(n)
  {
  }

  // ---- The order of doubles is the order of their words ----

  lemma ValNormal(h: int, l: word)
    requires HIDDEN <= h < INFINITE
    ensures LEAD * Pow2(h / HIDDEN - 1) <= Val(h, l) < LEAD * Pow2(h / HIDDEN)
  {
    var e, m := h / HIDDEN - 1, N(HIDDEN + h % HIDDEN, l);
    TwicePow2(e);
    hide Pow2;
    assert LEAD <= m < 2 * LEAD;
    LessEq(LEAD, m, Pow2(e));
    Less(m, 2 * LEAD, Pow2(e));
    Assoc(LEAD, 2, Pow2(e));
  }

  lemma ValOrder(h1: int, l1: word, h2: int, l2: word)
    requires 0 <= h1 <= h2 < INFINITE && (h1 < h2 || l1 < l2)
    ensures Val(h1, l1) < Val(h2, l2)
  {
    if h2 < HIDDEN {
    } else if h1 < HIDDEN {
      ValNormal(h2, l2);
      LessEq(1, Pow2(h2 / HIDDEN - 1), LEAD);
    } else {
      ValNormal(h1, l1);
      ValNormal(h2, l2);
      var e1, e2 := h1 / HIDDEN, h2 / HIDDEN;
      hide Pow2;
      if e1 < e2 {
        Pow2Grows(e1, e2 - 1);
        LessEq(Pow2(e1), Pow2(e2 - 1), LEAD);
      } else {
        Less(N(HIDDEN + h1 % HIDDEN, l1), N(HIDDEN + h2 % HIDDEN, l2), Pow2(e1 - 1));
      }
    }
  }

  /** Values by counting: from 0 on, each double is a fixed step above the one
      before it, and the step doubles with the exponent. */
  lemma ValStep(h: int, l: word)
    requires 0 <= h < 0x7ff0_0000
    ensures Val(0, 0) == 0
    ensures var h', l' := if l == 0xffff_ffff then h + 1 else h, if l == 0xffff_ffff then 0 else l + 1;
            h' < 0x7ff0_0000 ==>
              Val(h', l') == Val(h, l) + if h < 0x20_0000 then 1 else Pow2(h / 0x10_0000 - 1)
  {
    var h', l' := if l == 0xffff_ffff then h + 1 else h, if l == 0xffff_ffff then 0 else l + 1;
    if HIDDEN <= h && h' < INFINITE {
      var e := h / HIDDEN - 1;
      var m := N(HIDDEN + h % HIDDEN, l);
      if h' / HIDDEN == h / HIDDEN {
        assert N(HIDDEN + h' % HIDDEN, l') == m + 1;
      } else {
        assert m + 1 == 2 * LEAD && h' % HIDDEN == 0;
        TwicePow2(e);
        assert Val(h', l') == LEAD * Pow2(e + 1);
        Assoc(LEAD, 2, Pow2(e));
      }
      hide Pow2;
      Dist(m, 1, Pow2(e));
    }
  }

  lemma ValPositive(h: int, l: word)
    requires 0 <= h < INFINITE && N(h, l) > 0
    ensures Val(h, l) > 0
  {
    if h >= HIDDEN {
      ValNormal(h, l);
      LessEq(1, Pow2(h / HIDDEN - 1), LEAD);
    }
  }

  /** The smaller exponent belongs to the smaller value. */
  lemma ExponentOrder(v1: int, m1: int, e1: int, v2: int, m2: int, e2: int)
    requires Scaled(v1, m1, e1) && Scaled(v2, m2, e2) && Significand(m1) && Significand(m2) && e1 < e2
    ensures v1 < v2
  {
    if e2 < -1022 {
      var a, b := -1022 - e1, -1022 - e2;
      Pow2Add(b, a - b);
      Pow2Grows(1, a - b);
      assert Pow2(1) == 2;
      hide Pow2;
      var pa, pb, d := Pow2(a), Pow2(b), Pow2(a - b);
      assert pa == pb * d;
      Assoc(v2, pb, d);
      assert v2 * pa == m2 * d;
      LessEq(2, d, m2);
      assert v2 * pa >= 2 * LEAD > v1 * pa;
      SmallerFactor(v1, v2, pa);
    } else if e1 < -1022 {
      var a := -1022 - e1;
      Pow2Grows(1, a);
      assert Pow2(1) == 2;
      hide Pow2;
      var pa, p2 := Pow2(a), Pow2(e2 + 1022);
      LessEq(1, p2, m2);
      assert v2 >= LEAD;
      assert LEAD * pa >= 2 * LEAD by { LessEq(2, pa, LEAD); }
      SmallerFactor(v1, LEAD, pa);
    } else {
      TwicePow2(e1 + 1022);
      Pow2Grows(e1 + 1023, e2 + 1022);
      hide Pow2;
      var p1, q, p2 := Pow2(e1 + 1022), Pow2(e1 + 1023), Pow2(e2 + 1022);
      Less(m1, 2 * LEAD, p1);
      Assoc(LEAD, 2, p1);
      LessEq(q, p2, LEAD);
      LessEq(LEAD, m2, p2);
    }
  }

  lemma SmallerFactor(a: int, b: int, p: int)
    requires a * p < b * p && p > 0
    ensures a < b
  {
    if a >= b { LessEq(b, a, p); }
  }

  // ---- Remainders ----

  lemma Quotient(a: int, b: int, q: int, r: int)
    requires b > 0 && 0 <= r < b && a == q * b + r
    ensures a / b == q && a % b == r
  {
    DivMod(a, b);
    Dist(a / b, -q, b);
    assert (a / b - q) * b == r - a % b;
    NearZero(a / b - q, b);
  }

  lemma NearZero(d: int, p: int)
    requires -p < d * p < p
    ensures d == 0
  {
    if d >= 1 { LessEq(1, d, p); } else if d <= -1 { LessEq(d, -1, p); }
  }

  /** The remainder of the significands, with y aligned to x, is the remainder
      of the values, and so is the quotient. */
  lemma ScaledMod(vx: int, mx: int, ex: int, vy: int, my: int, ey: int, q: int, r: int)
    requires Scaled(vx, mx, ex) && Scaled(vy, my, ey) && ey <= ex && my > 0
    requires mx * Pow2(ex - ey) == q * my + r && 0 <= r < my
    ensures vy > 0 && vx / vy == q && Scaled(vx % vy, r, ey)
  {
    var k := ex - ey;
    if ey >= -1022 {
      Pow2Add(k, ey + 1022);
      hide Pow2;
      var pk, s := Pow2(k), Pow2(ey + 1022);
      Assoc(mx, pk, s);
      assert vx == (q * my + r) * s;
      Dist(q * my, r, s);
      Assoc(q, my, s);
      Less(0, my, s);
      Less(r, my, s);
      LessEq(0, r, s);
      Quotient(vx, vy, q, r * s);
    } else {
      var n := -1022 - ey;
      AlignedBelow(vx, mx, ex, ey);
      hide Pow2;
      var p := Pow2(n);
      assert vx * p == q * my + r && my == vy * p;
      Assoc(q, vy, p);
      var d := vx - q * vy;
      Dist(vx, -(q * vy), p);
      assert d * p == r;
      PositiveFactor(vy, p);
      assert d >= 0 by { if d < 0 { Less(d, 0, p); } }
      SmallerFactor(d, vy, p);
      Quotient(vx, vy, q, d);
    }
  }

  lemma PositiveFactor(a: int, p: int)
    requires a * p > 0 && p > 0
    ensures a > 0
  {
    if a <= 0 { LessEq(a, 0, p); }
  }

  lemma AlignedBelow(vx: int, mx: int, ex: int, ey: int)
    requires Scaled(vx, mx, ex) && ey <= ex && ey < -1022
    ensures vx * Pow2(-1022 - ey) == mx * Pow2(ex - ey)
  {
    if ex >= -1022 {
      Pow2Add(ex + 1022, -1022 - ey);
      Assoc(mx, Pow2(ex + 1022), Pow2(-1022 - ey));
    } else {
      Pow2Add(-1022 - ex, ex - ey);
      Assoc(vx, Pow2(-1022 - ex), Pow2(ex - ey));
    }
  }

  /** Doubling the significand lowers the exponent by one. */
  lemma Rescaled(v: int, m: int, e: int)
    requires Scaled(v, m, e)
    ensures Scaled(v, 2 * m, e - 1)
  {
    if e > -1022 {
      TwicePow2(e + 1021);
      Assoc(m, 2, Pow2(e + 1021));
    } else {
      TwicePow2(-1022 - e);
      Assoc(v, 2, Pow2(-1022 - e));
    }
  }
}
