/** The remainder of two doubles, exactly, by shifting and subtracting two 32-bit words. */
module Fmod {
  import opened Arithmetic
  import opened Powers
  import opened MachineWords

  const BIT20 := 0x10_0000
  const BIT52 := 0x10_0000_0000_0000

  /** The absolute value of a finite double, its sign bit taken off, as a multiple of the least
      positive double, which is 2 to the power of -1074. */
  function Units(hi: nat, lo: Word): nat {
    if hi < BIT20 then hi * B + lo
    else ((hi % BIT20 + BIT20) * B + lo) * Pow2(hi / BIT20 - 1)
  }

  // ---------- products ----------

  lemma TwiceProduct(x: nat, y: nat)
    ensures 2 * (x * y) == (2 * x) * y
  {
  }

  // ---------- shifts of two words ----------

  /** Shifting left by n, as (hi << n) | (lo >> (32 - n)) and lo << n do it. */
  lemma ShiftLeft(hi: nat, lo: Word, n: nat)
    requires 0 < n <= 31
    ensures lo / Pow2(32 - n) < Pow2(n)
    ensures (hi * Pow2(n) + lo / Pow2(32 - n)) * B + lo * Pow2(n) % B == (hi * B + lo) * Pow2(n)
  {
    hide Pow2;
    Values();
    Pow2Add(n, 32 - n);
    ShiftLeftBy(hi, lo, Pow2(n), Pow2(32 - n));
  }

  lemma ShiftLeftBy(hi: nat, lo: Word, p: nat, d: nat)
    requires p * d == B && p > 0 && d > 0
    ensures lo / d < p && (hi * p + lo / d) * B + lo * p % B == (hi * B + lo) * p
  {
    DivFacts(lo, d);
    SplitLow(lo, lo / d, lo % d, p, d);
    Spread(hi, lo, p);
  }

  /** The part shifted out of the lower word, and the part that stays. */
  lemma SplitLow(lo: Word, q: nat, r: nat, p: nat, d: nat)
    requires p * d == B && p > 0 && d > 0 && lo == q * d + r && r < d
    ensures q < p && lo * p == q * B + lo * p % B
  {
    MulLess(q, p, d);
    LowTimes(lo, q, r, p, d);
    MulBelow(r, d, p);
    DivIs(lo * p, B, q, r * p);
  }

  lemma LowTimes(lo: nat, q: nat, r: nat, p: nat, d: nat)
    requires p * d == B && lo == q * d + r
    ensures lo * p == q * B + r * p
  {
    AddMul(q * d, r, p);
    MulAssoc(q, d, p);
  }

  lemma Spread(hi: nat, lo: nat, p: nat)
    ensures (hi * B + lo) * p == hi * p * B + lo * p
  {
    AddMul(hi * B, lo, p);
  }

  /** Shifting right by n, as hi >> n and (lo >> n) | (hi << (32 - n)) do it. */
  lemma ShiftRight(hi: nat, lo: Word, n: nat)
    requires 0 < n <= 31
    ensures lo / Pow2(n) + hi * Pow2(32 - n) % B < B
    ensures hi / Pow2(n) * B + (lo / Pow2(n) + hi * Pow2(32 - n) % B) == (hi * B + lo) / Pow2(n)
  {
    hide Pow2;
    Values();
    Pow2Add(n, 32 - n);
    ShiftRightBy(hi, lo, Pow2(n), Pow2(32 - n));
  }

  lemma ShiftRightBy(hi: nat, lo: Word, p: nat, d: nat)
    requires p * d == B && p > 0 && d > 0
    ensures lo / p + hi * d % B < B
    ensures hi / p * B + (lo / p + hi * d % B) == (hi * B + lo) / p
  {
    DivFacts(hi, p);
    DivFacts(lo, p);
    Incoming(hi, hi / p, hi % p, p, d);
    LowRoom(lo / p, lo, hi % p, p, d);
    Recombine(hi / p, hi % p, lo / p, lo % p, p, d);
    DivIs(hi * B + lo, p, hi / p * B + (lo / p + (hi % p) * d), lo % p);
  }

  /** The bits of the upper word that move into the lower one. */
  lemma Incoming(hi: nat, h: nat, g: nat, p: nat, d: nat)
    requires p * d == B && p > 0 && d > 0 && hi == h * p + g && g < p
    ensures hi * d % B == g * d
  {
    LowTimes(hi, h, g, d, p);
    MulBelow(g, p, d);
    DivIs(hi * d, B, h, g * d);
  }

  lemma LowRoom(l: nat, lo: Word, g: nat, p: nat, d: nat)
    requires p * d == B && p > 0 && d > 0 && l * p <= lo && g < p
    ensures l + g * d < B
  {
    MulLess(l, d, p);
    MulMonotone(g + 1, p, d);
    AddMul(g, 1, d);
  }

  lemma Recombine(h: nat, g: nat, l: nat, k: nat, p: nat, d: nat)
    requires p * d == B
    ensures (h * p + g) * B + (l * p + k) == (h * B + (l + g * d)) * p + k
  {
    MulAssoc(g, d, p);
    AddMul(h * B + l, g * d, p);
    AddMul(h * B, l, p);
  }

  // ---------- significand and exponent ----------

  /** Shifts i up to the sign bit and counts down from k: the exponent of the leading bit. */
  method CountDown(i0: Word, k: int) returns (ix: int, ghost c: nat)
    requires i0 > 0
    ensures ix == k - c && 0x8000_0000 <= i0 * Pow2(c) < B && c <= 31
  {
    var i: Word := i0;
    ix := k;
    c := 0;
    while 0 < i < 0x8000_0000
      invariant ix == k - c && i == i0 * Pow2(c) && i > 0
      decreases B - i
    {
      Shifted(i0, c);
      i := 2 * i;
      ix := ix - 1;
      c := c + 1;
    }
    CountBound(i0, c);
  }

  lemma Shifted(x: nat, c: nat)
    ensures 2 * (x * Pow2(c)) == x * Pow2(c + 1)
  {
    TwiceProduct(x, Pow2(c));
    assert x * (2 * Pow2(c)) == (2 * x) * Pow2(c);
  }

  lemma CountBound(x: nat, c: nat)
    requires x > 0 && x * Pow2(c) < B
    ensures c <= 31
  {
    if c >= 32 {
      Pow2Grows(32, c);
      MulMonotone(1, x, Pow2(c));
    }
    Values();
  }

  /** m has its leading bit in place 52, and m times 2^e is u shifted up by 52 places. */
  ghost predicate Aligned(u: nat, m: nat, e: int) {
    e >= 0 && BIT52 <= m < 2 * BIT52 && m * Pow2(e) == u * BIT52
  }

  /** A number whose leading bit comes to place 52 by a shift of n. */
  lemma AlignedBy(u: nat, n: nat)
    requires n <= 52 && BIT52 <= u * Pow2(n) < 2 * BIT52
    ensures Aligned(u, u * Pow2(n), 52 - n)
  {
    Values();
    Pow2Add(n, 52 - n);
    MulAssoc(u, Pow2(n), Pow2(52 - n));
  }

  /** The exponent of the leading bit of a finite number that is not zero. */
  method Ilogb(hx: Word, lx: Word) returns (ix: int, ghost n: nat)
    requires hx < 0x7ff0_0000 && (hx != 0 || lx != 0)
    ensures hx >= BIT20 ==> ix == hx / BIT20 - 1023
    ensures hx < BIT20 ==> ix == -1022 - n && 0 < n <= 52 && BIT52 <= (hx * B + lx) * Pow2(n) < 2 * BIT52
    ensures hx < BIT20 && hx > 0 ==> n <= 20
    ensures hx == 0 ==> n >= 21
  {
    n := 0;
    if hx < BIT20 {
      ghost var c;
      if hx == 0 {
        ix, c := CountDown(lx, -1043);
        n := 21 + c;
        LowLeading(lx, c);
      } else {
        ix, c := CountDown(hx * 0x800, -1022);
        n := c;
        HighLeading(hx, lx, c);
      }
    } else {
      ix := hx / BIT20 - 1023;
    }
  }

  lemma LowLeading(lx: Word, c: nat)
    requires 0x8000_0000 <= lx * Pow2(c) < B
    ensures BIT52 <= lx * Pow2(21 + c) < 2 * BIT52
  {
    Pow2Add(21, c);
    Values();
    assert Pow2(21) == 0x20_0000;
    assert lx * (0x20_0000 * Pow2(c)) == 0x20_0000 * (lx * Pow2(c));
  }

  lemma HighLeading(hx: Word, lx: Word, c: nat)
    requires 0 < hx < BIT20 && 0x8000_0000 <= hx * 0x800 * Pow2(c) < B
    ensures 0 < c <= 20 && BIT52 <= (hx * B + lx) * Pow2(c) < 2 * BIT52
  {
    hide Pow2;
    var p := Pow2(c);
    Unshift11(hx, p);
    HighCount(hx, c);
    HighRoom(hx, p, c);
    Spread(hx, lx, p);
    MulBelow(lx, B, p);
    LeadingTotal(hx * p, lx * p, (hx * B + lx) * p, p);
  }

  lemma LeadingTotal(x: nat, y: nat, z: nat, p: nat)
    requires z == x * B + y && BIT20 <= x && x + p <= 2 * BIT20 && y < B * p
    ensures BIT52 <= z < 2 * BIT52
  {
  }

  lemma Unshift11(hx: nat, p: nat)
    requires 0x8000_0000 <= hx * 0x800 * p < B
    ensures BIT20 <= hx * p < 2 * BIT20
  {
    MulAssoc(0x800, hx, p);
  }

  lemma HighCount(hx: nat, c: nat)
    requires 0 < hx < BIT20 <= hx * Pow2(c) < 2 * BIT20
    ensures 0 < c <= 20
  {
    Values();
    assert Pow2(0) == 1;
    if c >= 21 {
      Pow2Grows(21, c);
      MulMonotone(1, hx, Pow2(c));
    }
  }

  lemma HighRoom(hx: nat, p: nat, c: nat)
    requires p == Pow2(c) && c <= 20 && hx * p < 2 * BIT20
    ensures hx * p + p <= 2 * BIT20
  {
    hide Pow2;
    Pow2Add(21 - c, c);
    Values();
    NextMultiple(hx, p, Pow2(21 - c));
  }

  lemma NextMultiple(h: nat, p: nat, d: nat)
    requires h * p < d * p
    ensures h * p + p <= d * p
  {
    MulLess(h, d, p);
    MulMonotone(h + 1, d, p);
    AddMul(h, 1, p);
  }

  lemma NormalAligned(hx: Word, lx: Word)
    requires BIT20 <= hx
    ensures Aligned(Units(hx, lx), (hx % BIT20 + BIT20) * B + lx, hx / BIT20 + 51)
  {
    hide Pow2;
    var m, k := (hx % BIT20 + BIT20) * B + lx, hx / BIT20 - 1;
    Values();
    Pow2Add(k, 52);
    MulAssoc(m, Pow2(k), BIT52);
  }

  lemma FarShift(lx: nat, n: nat)
    requires n >= 32
    ensures lx * Pow2(n - 32) * B == lx * Pow2(n)
  {
    hide Pow2;
    Values();
    Pow2Add(n - 32, 32);
    MulAssoc(lx, Pow2(n - 32), B);
  }

  lemma UpperPart(hi: nat, lo: Word, m: nat)
    requires m == hi * B + lo && BIT52 <= m < 2 * BIT52
    ensures BIT20 <= hi < 2 * BIT20
  {
  }

  /** The significand with its leading bit in place 52, and the exponent. */
  method SetUp(hx: Word, lx: Word) returns (ix: int, hi: nat, lo: Word)
    requires hx < 0x7ff0_0000 && (hx != 0 || lx != 0)
    ensures Aligned(Units(hx, lx), hi * B + lo, ix + 1074) && BIT20 <= hi < 2 * BIT20 && ix <= 1023
  {
    hide Pow2, Units, Aligned;
    ghost var c;
    ix, c := Ilogb(hx, lx);
    if ix >= -1022 {
      hi, lo := BIT20 + hx % BIT20, lx;
      NormalAligned(hx, lx);
    } else {
      var n: nat := -1022 - ix;
      UnitsSubnormal(hx, lx);
      AlignedBy(hx * B + lx, n);
      if n <= 31 {
        ShiftLeft(hx, lx, n);
        hi, lo := hx * Pow2(n) + lx / Pow2(32 - n), lx * Pow2(n) % B;
      } else {
        FarShift(lx, n);
        hi, lo := lx * Pow2(n - 32), 0;
      }
      UpperPart(hi, lo, (hx * B + lx) * Pow2(n));
    }
  }

  lemma UnitsSubnormal(hx: nat, lx: Word)
    requires hx < BIT20
    ensures Units(hx, lx) == hx * B + lx
  {
  }

  // ---------- the order of the magnitudes ----------

  /** The words of finite numbers are ordered as the numbers are. */
  lemma UnitsOrder(hx: Word, lx: Word, hy: Word, ly: Word)
    requires hx * B + lx < hy * B + ly
    ensures Units(hx, lx) < Units(hy, ly)
  {
    hide Pow2;
    var e, f := hx / BIT20, hy / BIT20;
    assert Pow2(0) == 1 by { PowZero(); }
    if f > 0 {
      var m, k := (hx % BIT20 + (if e > 0 then BIT20 else 0)) * B + lx, (hy % BIT20 + BIT20) * B + ly;
      var p, r := Pow2(if e > 0 then e - 1 else 0), Pow2(f - 1);
      assert Units(hx, lx) == m * p by { Times1(m); }
      if e == f {
        MulBelow(m, k, p);
      } else if e == 0 {
        MulMonotone(1, r, k);
        Times1(k);
      } else {
        Pow2Grows(e, f - 1);
        TwicePow(e);
        MulBelow(m, 2 * BIT52, p);
        MulMonotone(2 * p, r, BIT52);
        MulMonotone(BIT52, k, r);
      }
    }
  }

  lemma PowZero()
    ensures Pow2(0) == 1
  {
  }

  lemma TwicePow(e: nat)
    requires e > 0
    ensures Pow2(e) == 2 * Pow2(e - 1)
  {
  }

  lemma Times1(k: nat)
    ensures k * 1 == k
  {
  }

  // ---------- the shift and subtract loop ----------

  lemma ModDrop(x: nat, y: nat, p: nat)
    requires y > 0 && x >= y
    ensures (x - y) * p % y == x * p % y
  {
    AddMul(x - y, y, p);
    ModPlus((x - y) * p, y, p);
  }

  lemma ModPlus(a: nat, y: nat, p: nat)
    requires y > 0
    ensures (a + y * p) % y == a % y
  {
    var q, r := a / y, a % y;
    assert a == q * y + r && r < y by { DivFacts(a, y); }
    ModPlusBy(a, y, p, q, r);
  }

  lemma ModPlusBy(a: nat, y: nat, p: nat, q: nat, r: nat)
    requires y > 0 && a == q * y + r && r < y
    ensures (a + y * p) % y == r
  {
    AddMul(q, p, y);
    Commute(p, y);
    DivIs(a + y * p, y, q + p, r);
  }

  lemma Commute(p: nat, y: nat)
    ensures p * y == y * p
  {
  }

  lemma ModSmall(x: nat, y: nat)
    requires y > 0 && x < 2 * y
    ensures x % y == if x < y then x else x - y
  {
    if x < y { DivIs(x, y, 0, x); } else { DivIs(x, y, 1, x - y); }
  }

  /** x * 2^n has the remainder r modulo y, and x is less than 2 y. */
  ghost predicate Reducing(x: int, y: nat, n: nat, r: nat) {
    0 <= x < 2 * y && x * Pow2(n) % y == r
  }

  /** One step: x or x - y, whichever is less than y, doubled. */
  lemma ReduceStep(x: int, y: nat, n: nat, r: nat)
    requires Reducing(x, y, n, r) && n > 0
    ensures Reducing(2 * (if x >= y then x - y else x), y, n - 1, r)
  {
    var z := if x >= y then x - y else x;
    if x >= y { ModDrop(x, y, Pow2(n)); }
    Shifted(z, n - 1);
    MulAssoc(2, z, Pow2(n - 1));
  }

  lemma ReduceZero(x: int, y: nat, n: nat, r: nat)
    requires Reducing(x, y, n, r) && x == y
    ensures r == 0
  {
    ModDrop(x, y, Pow2(n));
    DivIs(0, y, 0, 0);
    assert (x - y) * Pow2(n) == 0;
  }

  lemma ReduceEnd(x: int, y: nat, r: nat)
    requires Reducing(x, y, 0, r)
    ensures r == if x < y then x else x - y
  {
    Times1(x);
    ModSmall(x, y);
  }

  /** The difference of two words, its upper word signed. */
  method Subtract(hx: nat, lx: Word, hy: nat, ly: Word) returns (hz: int, lz: Word)
    ensures hz * B + lz == hx * B + lx - (hy * B + ly)
  {
    hz, lz := hx - hy, (B + lx - ly) % B;
    if lx < ly {
      hz := hz - 1;
    }
  }

  method Double(hx: nat, lx: Word) returns (hi: nat, lo: Word)
    ensures hi * B + lo == 2 * (hx * B + lx)
  {
    hi, lo := hx + hx + lx / 0x8000_0000, 2 * lx % B;
  }

  /** The n steps, and the last subtraction. */
  method Reduce(hx0: nat, lx0: Word, hy: nat, ly: Word, n0: nat, ghost r: nat) returns (hx: nat, lx: Word)
    requires Reducing(hx0 * B + lx0, hy * B + ly, n0, r)
    ensures hx * B + lx == r
  {
    hide Pow2, Reducing;
    hx, lx := hx0, lx0;
    var n := n0;
    while n > 0
      invariant Reducing(hx * B + lx, hy * B + ly, n, r)
    {
      ReduceStep(hx * B + lx, hy * B + ly, n, r);
      var hz, lz := Subtract(hx, lx, hy, ly);
      if hz < 0 {
        hx, lx := Double(hx, lx);
      } else {
        if hz == 0 && lz == 0 {
          ReduceZero(hx * B + lx, hy * B + ly, n, r);
          return 0, 0;
        }
        hx, lx := Double(hz, lz);
      }
      n := n - 1;
    }
    ReduceEnd(hx * B + lx, hy * B + ly, r);
    var hz, lz := Subtract(hx, lx, hy, ly);
    if hz >= 0 {
      hx, lx := hz, lz;
    }
  }

  // ---------- packing the result ----------

  /** A number on its way back to place 52. */
  ghost predicate Scaled(u: nat, m: nat, e: int) {
    e >= 0 && u > 0 && m < 2 * BIT52 && m * Pow2(e) == u * BIT52
  }

  /** As long as the leading bit is below place 52 the exponent can go down. */
  lemma ScaleStep(u: nat, m: nat, e: int)
    requires Scaled(u, m, e) && m < BIT52
    ensures e > 0 && Scaled(u, 2 * m, e - 1)
  {
    if e == 0 { Times1(m); }
    TwicePow(e);
    MulAssoc(2, m, Pow2(e - 1));
    MulAssoc(m, 2, Pow2(e - 1));
  }

  method Normalize(hx0: nat, lx0: Word, iy0: int, ghost u: nat) returns (hx: nat, lx: Word, iy: int)
    requires Scaled(u, hx0 * B + lx0, iy0 + 1074)
    ensures Aligned(u, hx * B + lx, iy + 1074) && iy <= iy0
  {
    hide Scaled, Pow2;
    hx, lx, iy := hx0, lx0, iy0;
    while hx < BIT20
      invariant Scaled(u, hx * B + lx, iy + 1074) && iy <= iy0
      decreases iy + 1074
    {
      ScaleStep(u, hx * B + lx, iy + 1074);
      hx, lx := Double(hx, lx);
      iy := iy - 1;
    }
    ScaleEnd(u, hx * B + lx, iy + 1074);
  }

  lemma ScaleEnd(u: nat, m: nat, e: int)
    requires Scaled(u, m, e) && m >= BIT52
    ensures Aligned(u, m, e)
  {
  }

  lemma PackNormal(u: nat, hx: nat, lx: Word, e: int, hi: Word)
    requires Aligned(u, hx * B + lx, e) && 52 <= e && hi == hx - BIT20 + (e - 51) * BIT20
    ensures Units(hi, lx) == u
  {
    hide Pow2;
    var m := hx * B + lx;
    Values();
    Pow2Add(e - 52, 52);
    MulAssoc(m, Pow2(e - 52), BIT52);
    MulCancel(m * Pow2(e - 52), u, BIT52);
    assert hi / BIT20 == e - 51 && hi % BIT20 == hx - BIT20;
  }

  /** Below the normal range the significand is the number shifted up by n places. */
  lemma PackSubnormal(u: nat, m: nat, e: int, n: nat)
    requires Aligned(u, m, e) && e < 52 && n == 52 - e
    ensures m == u * Pow2(n) && m / Pow2(n) == u && u < BIT52
  {
    hide Pow2;
    Values();
    Pow2Add(n, e);
    MulAssoc(u, Pow2(n), Pow2(e));
    MulCancel(m, u * Pow2(n), Pow2(e));
    DivIs(m, Pow2(n), u, 0);
    TwicePow(n);
    MulMonotone(2, Pow2(n), u);
    if u >= BIT52 { AtLeastTwice(u, Pow2(n)); }
  }

  lemma AtLeastTwice(u: nat, p: nat)
    requires p >= 2
    ensures u * p >= 2 * u
  {
  }

  lemma FarRight(u: nat, hx: nat, lx: Word, n: nat)
    requires n >= 32 && hx * B + lx == u * Pow2(n)
    ensures hx / Pow2(n - 32) == u
  {
    hide Pow2;
    FarShift(u, n);
    WordMultiple(hx, lx, u * Pow2(n - 32));
    DivIs(hx, Pow2(n - 32), u, 0);
  }

  lemma WordMultiple(hx: nat, lx: Word, v: nat)
    requires hx * B + lx == v * B
    ensures hx == v && lx == 0
  {
  }

  lemma NoUpper(hx: nat, n: nat)
    requires hx < 2 * BIT20 && n >= 21
    ensures hx / Pow2(n) == 0
  {
    hide Pow2;
    Values();
    Pow2Grows(21, n);
    DivIs(hx, Pow2(n), 0, hx);
  }

  /** The result is normal, or the significand is shifted down to its place. */
  method Pack(hx: nat, lx: Word, iy: int, ghost u: nat) returns (hi: Word, lo: Word)
    requires Aligned(u, hx * B + lx, iy + 1074) && BIT20 <= hx < 2 * BIT20 && iy <= 1023
    ensures Units(hi, lo) == u && hi < 0x7ff0_0000
  {
    hide Pow2, Units, Aligned;
    if iy >= -1022 {
      hi, lo := hx - BIT20 + (iy + 1023) * BIT20, lx;
      PackNormal(u, hx, lx, iy + 1074, hi);
    } else {
      ghost var m := hx * B + lx;
      AlignedBounds(u, m, iy + 1074);
      PackSubnormal(u, m, iy + 1074, -1022 - iy);
      hi, lo := ShiftDown(hx, lx, -1022 - iy, u);
      UnitsSubnormal(hi, lo);
    }
  }

  method ShiftDown(hx: nat, lx: Word, n: nat, ghost u: nat) returns (hi: nat, lo: Word)
    requires BIT20 <= hx < 2 * BIT20 && 0 < n <= 52 && hx * B + lx == u * Pow2(n) && (hx * B + lx) / Pow2(n) == u && u < BIT52
    ensures hi * B + lo == u && hi < BIT20
  {
    hide Pow2;
    if n <= 31 {
      ShiftRight(hx, lx, n);
      lo := lx / Pow2(n) + hx * Pow2(32 - n) % B;
      if n <= 20 {
        hi := hx / Pow2(n);
      } else {
        NoUpper(hx, n);
        hi := 0;
      }
    } else {
      FarRight(u, hx, lx, n);
      FarFits(hx, n);
      hi, lo := 0, hx / Pow2(n - 32);
    }
  }

  lemma FarFits(hx: nat, n: nat)
    requires hx < 2 * BIT20 && n >= 32
    ensures hx / Pow2(n - 32) < B
  {
    DivFacts(hx, Pow2(n - 32));
    MulMonotone(1, Pow2(n - 32), hx / Pow2(n - 32));
  }

  lemma AlignedBounds(u: nat, m: nat, e: int)
    requires Aligned(u, m, e)
    ensures 0 <= e && BIT52 <= m < 2 * BIT52
  {
  }

  // ---------- the whole function ----------

  lemma ExponentsOrdered(u: nat, v: nat, m: nat, k: nat, e: int, f: int)
    requires Aligned(u, m, e) && Aligned(v, k, f) && v <= u
    ensures f <= e
  {
    hide Pow2;
    MulMonotone(v, u, BIT52);
    if e < f {
      Pow2Grows(e, f - 1);
      TwicePow(f);
      MulBelow(m, 2 * BIT52, Pow2(e));
      MulMonotone(2 * Pow2(e), Pow2(f), BIT52);
      MulMonotone(BIT52, k, Pow2(f));
    }
  }

  /** The remainder of the aligned significands is that of the numbers, in the scale of the divisor. */
  lemma AlignedRemainder(u: nat, v: nat, m: nat, k: nat, e: int, f: int)
    requires Aligned(u, m, e) && Aligned(v, k, f) && f <= e && v > 0
    ensures Reducing(m, k, e - f, m * Pow2(e - f) % k)
    ensures m * Pow2(e - f) % k < k && (m * Pow2(e - f) % k) * Pow2(f) == u % v * BIT52
  {
    hide Pow2;
    var p, q := Pow2(e - f), Pow2(f);
    Pow2Add(e - f, f);
    MulAssoc(m, p, q);
    DivFacts(m * p, k);
    ScaledRemainder(u, v, m * p, k, q, m * p / k, m * p % k);
  }

  lemma ScaledRemainder(u: nat, v: nat, x: nat, k: nat, q: nat, t: nat, r: nat)
    requires x == t * k + r && r < k && x * q == u * BIT52 && k * q == v * BIT52 && q > 0 && v > 0
    ensures r * q == u % v * BIT52
  {
    MulAssoc(t, k, q);
    AddMul(t * k, r, q);
    MulBelow(r, k, q);
    MulAssoc(t, v, BIT52);
    Whole(u, t * v, r * q);
    var w := u - t * v;
    DivIs(u, v, t, w);
  }

  /** What is left of a multiple of 2^52 by another one is one as well. */
  lemma Whole(u: nat, y: nat, z: nat)
    requires y * BIT52 + z == u * BIT52
    ensures y <= u && z == (u - y) * BIT52
  {
  }

  /** For finite x and any number y but zero, given by their words without the sign: the remainder of the
      magnitudes, exactly, with the sign of x; for infinite y it is x itself. */
  method Fmod(negative: bool, hx: Word, lx: Word, hy: Word, ly: Word) returns (sign: bool, hi: Word, lo: Word)
    requires hx < 0x7ff0_0000 && (hy < 0x7ff0_0000 || (hy == 0x7ff0_0000 && ly == 0)) && (hy != 0 || ly != 0)
    ensures sign == negative && hi < 0x7ff0_0000
    ensures if hy < 0x7ff0_0000 then Units(hi, lo) == Units(hx, lx) % Units(hy, ly) else hi == hx && lo == lx
  {
    hide Pow2, Units, Aligned, Reducing;
    sign := negative;
    UnitsPositive(hy, ly);
    if hx <= hy {
      if hx < hy || lx < ly {
        UnitsOrder(hx, lx, hy, ly);
        DivIs(Units(hx, lx), Units(hy, ly), 0, Units(hx, lx));
        return negative, hx, lx;
      }
      if lx == ly {
        DivIs(Units(hx, lx), Units(hy, ly), 1, 0);
        UnitsZero();
        return negative, 0, 0;
      }
    }
    UnitsOrder(hy, ly, hx, lx);
    hi, lo := FmodAligned(hx, lx, hy, ly);
  }

  method FmodAligned(hx: Word, lx: Word, hy: Word, ly: Word) returns (hi: Word, lo: Word)
    requires hx < 0x7ff0_0000 && hy < 0x7ff0_0000 && (hx != 0 || lx != 0) && (hy != 0 || ly != 0)
    requires 0 < Units(hy, ly) <= Units(hx, lx)
    ensures hi < 0x7ff0_0000 && Units(hi, lo) == Units(hx, lx) % Units(hy, ly)
  {
    hide Pow2, Units, Aligned, Reducing, Scaled;
    ghost var u, v := Units(hx, lx), Units(hy, ly);
    var ix, mx, nx := SetUp(hx, lx);
    var iy, my, ny := SetUp(hy, ly);
    ghost var m, k := mx * B + nx, my * B + ny;
    AlignedBounds(u, m, ix + 1074);
    AlignedBounds(v, k, iy + 1074);
    ExponentsOrdered(u, v, m, k, ix + 1074, iy + 1074);
    AlignedRemainder(u, v, m, k, ix + 1074, iy + 1074);
    ghost var r := m * Pow2(ix - iy) % k;
    mx, nx := Reduce(mx, nx, my, ny, ix - iy, r);
    RemainderScaled(u % v, r, k, iy + 1074);
    if mx == 0 && nx == 0 {
      UnitsZero();
      return 0, 0;
    }
    mx, nx, iy := Normalize(mx, nx, iy, u % v);
    AlignedBounds(u % v, mx * B + nx, iy + 1074);
    UpperPart(mx, nx, mx * B + nx);
    hi, lo := Pack(mx, nx, iy, u % v);
  }

  lemma RemainderScaled(w: nat, r: nat, k: nat, f: int)
    requires f >= 0 && r < k < 2 * BIT52 && r * Pow2(f) == w * BIT52
    ensures r == 0 <==> w == 0
    ensures r > 0 ==> Scaled(w, r, f)
  {
    if r > 0 { MulMonotone(1, r, Pow2(f)); }
  }

  lemma UnitsZero()
    ensures Units(0, 0) == 0
  {
  }

  lemma UnitsPositive(hy: Word, ly: Word)
    requires hy != 0 || ly != 0
    ensures Units(hy, ly) > 0
  {
    UnitsZero();
    UnitsOrder(0, 0, hy, ly);
  }
}
