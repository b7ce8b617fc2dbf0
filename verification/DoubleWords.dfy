/** A finite double as its two 32-bit words, its value as a whole number of
    units of 2^-1074, and the two-word arithmetic of fmod and remquo. */
module DoubleWords {
  import opened CTypes

  const W: int := 0x1_0000_0000             // 2^32
  const TOP: int := 0x8000_0000             // 2^31
  const HIDDEN: int := 0x10_0000            // 2^20: the implicit leading bit, in the high word
  const INFINITE: int := 0x7ff0_0000        // high word of infinity

  type word = x: int | 0 <= x < W

  lemma {:induction false} Pow2Add(a: nat, b: nat)
    ensures Pow2(a + b) == Pow2(a) * Pow2(b)
  {
    if a > 0 {
      Pow2Add(a - 1, b);
    }
  }

  lemma Pow2Consts()
    ensures Pow2(20) == HIDDEN && Pow2(31) == TOP && Pow2(32) == W && Pow2(52) == HIDDEN * W &&
            Pow2(53) == 2 * HIDDEN * W
    ensures Pow2(11) == 2048 && Pow2(21) == 2 * HIDDEN
  {
    assert Pow2(8) == 256;
    Pow2Add(8, 8);
    Pow2Add(8, 3);
    Pow2Add(16, 4);
    Pow2Add(16, 15);
    Pow2Add(16, 16);
    Pow2Add(32, 20);
    Pow2Add(16, 5);
  }

  /** The number in a pair of words; the high one may be negative. */
  function N(h: int, l: int): int {
    h * W + l
  }

  /** The value of the double with these words, less its sign, in units of 2^-1074. */
  function Val(h: int, l: int): int
    requires 0 <= h < INFINITE
  {
    if h < HIDDEN then N(h, l) else N(HIDDEN + h % HIDDEN, l) * Pow2(h / HIDDEN - 1)
  }

  // ---- Two-word arithmetic ----

  /** {h, l} doubled: h+h+(l>>31), l+l. */
  lemma Doubled(h: int, l: word)
    ensures N(h + h + l / TOP, (l + l) % W) == 2 * N(h, l)
  {
  }

  /** {h1, l1} - {h2, l2}, with the borrow. */
  lemma Subtracted(h1: int, l1: word, h2: int, l2: word)
    ensures N(h1 - h2 - (if l1 < l2 then 1 else 0), (l1 - l2) % W) == N(h1, l1) - N(h2, l2)
    ensures h1 - h2 - (if l1 < l2 then 1 else 0) < 0 <==> N(h1, l1) < N(h2, l2)
  {
  }

  // Multiplication and division by variables, one step at a time.

  lemma Assoc(a: int, b: int, c: int)
    ensures (a * b) * c == a * (b * c)
  {
  }

  lemma Dist(a: int, b: int, c: int)
    ensures (a + b) * c == a * c + b * c
  {
  }

  lemma Swap(a: int, b: int, c: int)
    ensures (a * b) * c == (a * c) * b
  {
  }

  lemma DivMod(a: int, d: int)
    requires d > 0
    ensures a == (a / d) * d + a % d && 0 <= a % d < d
    ensures a >= 0 ==> a / d >= 0
  {
  }

  lemma Less(a: int, b: int, c: int)
    requires a < b && c > 0
    ensures a * c < b * c
  {
  }

  lemma LessEq(a: int, b: int, c: int)
    requires a <= b && c >= 0
    ensures a * c <= b * c
  {
  }

  lemma Distance(a: int, b: int, c: int)
    requires a <= b - 1 && c > 0
    ensures a * c <= b * c - c
  {
    LessEq(a, b - 1, c);
    Dist(b, -1, c);
  }

  lemma ModSmall(q: int, r: int)
    requires 0 <= r < W
    ensures (q * W + r) % W == r
  {
  }

  /** Shifting a pair left by n <= 31 bits. */
  lemma ShiftedLeft(h: int, l: word, n: nat)
    requires 0 < n <= 31 && 0 <= h
    ensures N(h * Pow2(n) + l / Pow2(32 - n), (l * Pow2(n)) % W) == N(h, l) * Pow2(n)
  {
    Pow2Consts();
    Pow2Add(32 - n, n);
    LeftBy(h, l, Pow2(n), Pow2(32 - n));
  }

  lemma LeftBy(h: int, l: word, p: int, c: int)
    requires p > 0 && c > 0 && c * p == W
    ensures N(h * p + l / c, (l * p) % W) == N(h, l) * p
  {
    var hi, lo := l / c, l % c;
    DivMod(l, c);
    Dist(hi * c, lo, p);
    Assoc(hi, c, p);
    assert l * p == hi * W + lo * p;
    Less(lo, c, p);
    LessEq(0, lo, p);
    ModSmall(hi, lo * p);
    Dist(h * W, l, p);
    Swap(h, W, p);
  }

  /** Shifting a pair right by n <= 31 bits; nothing is lost if it was a multiple. */
  lemma ShiftedRight(h: int, l: word, n: nat, v: int)
    requires 0 < n <= 31 && 0 <= h && N(h, l) == v * Pow2(n)
    ensures N(h / Pow2(n), l / Pow2(n) + (h * Pow2(32 - n)) % W) == v
    ensures 0 <= l / Pow2(n) + (h * Pow2(32 - n)) % W < W
  {
    Pow2Consts();
    Pow2Add(32 - n, n);
    RightBy(h, l, Pow2(n), Pow2(32 - n), v);
  }

  lemma RightBy(h: int, l: word, p: int, c: int, v: int)
    requires p > 0 && c > 0 && c * p == W && 0 <= h && N(h, l) == v * p
    ensures N(h / p, l / p + (h * c) % W) == v
    ensures 0 <= l / p + (h * c) % W < W
  {
    var hq, hr, lq, lr := h / p, h % p, l / p, l % p;
    DivMod(h, p);
    DivMod(l, p);
    Dist(hq * p, hr, c);
    Assoc(hq, p, c);
    assert h * c == hq * W + hr * c;
    Less(hr, p, c);
    LessEq(0, hr, c);
    ModSmall(hq, hr * c);
    assert (h * c) % W == hr * c;
    // v * p == (hq * W + hr * c + lq) * p + lr
    var q := hq * W + hr * c + lq;
    Dist(hq * W + hr * c, lq, p);
    Dist(hq * W, hr * c, p);
    Swap(hq, W, p);
    Assoc(hr, c, p);
    Dist(hq * p, hr, W);
    assert v * p == q * p + lr;
    SameQuotient(v, q, lr, p);
    SmallQuotient(l, lq, p, c);
    Distance(hr, p, c);
  }

  lemma SameQuotient(v: int, q: int, r: int, p: int)
    requires p > 0 && 0 <= r < p && v * p == q * p + r
    ensures v == q && r == 0
  {
    Dist(v, -q, p);
    assert (v - q) * p == r;
    SmallProduct(v - q, p);
  }

  lemma SmallProduct(d: int, p: int)
    requires 0 <= d * p < p
    ensures d == 0
  {
    if d >= 1 { LessEq(1, d, p); } else if d <= -1 { LessEq(d, -1, p); }
  }

  lemma SmallQuotient(l: int, q: int, p: int, c: int)
    requires 0 <= l < c * p && p > 0 && q * p <= l
    ensures q < c
  {
    if q >= c { LessEq(c, q, p); }
  }
}
