/** The square root of a double, digit by digit in two 32-bit words, for positive normal numbers. */
module Sqrt {
  import opened Arithmetic
  import opened Powers
  import opened MachineWords

  const SIGN := 0x8000_0000

  // ---------- digit by digit, over whole numbers ----------

  /** q is the root of n down to the digit 2d; i is what is left of n, scaled by the next digit d. */
  ghost predicate Before(n: nat, d: nat, q: nat, s: nat, i: nat) {
    d > 0 && s == 2 * q && i * d + q * q == n && n < (q + 2 * d) * (q + 2 * d)
  }

  /** The same with the digit d decided. */
  ghost predicate After(n: nat, d: nat, q: nat, s: nat, i: nat) {
    d > 0 && s == 2 * q && i * d + q * q == n && n < (q + d) * (q + d)
  }

  lemma Square(q: nat, d: nat)
    ensures (q + d) * (q + d) == q * q + (2 * q + d) * d
  {
  }

  /** The digit fits: twice the root so far plus the digit is not greater than what is left. */
  lemma Take(n: nat, d: nat, q: nat, s: nat, i: nat)
    requires Before(n, d, q, s, i) && s + d <= i
    ensures After(n, d, q + d, s + 2 * d, i - (s + d))
  {
    Square(q, d);
    SubMul(i, s + d, d);
    assert q + d + d == q + 2 * d;
  }

  lemma SubMul(i: nat, t: nat, d: nat)
    requires t <= i
    ensures (i - t) * d == i * d - t * d
  {
  }

  lemma Skip(n: nat, d: nat, q: nat, s: nat, i: nat)
    requires Before(n, d, q, s, i) && s + d > i
    ensures After(n, d, q, s, i)
  {
    Square(q, d);
    MulMonotone(i + 1, s + d, d);
    AddMul(i, 1, d);
  }

  /** Doubling what is left and halving the digit. */
  lemma NextDigit(n: nat, d: nat, q: nat, s: nat, i: nat, h: nat)
    requires After(n, d, q, s, i) && d == 2 * h && h > 0
    ensures Before(n, h, q, s, 2 * i)
  {
    assert i * (2 * h) == (2 * i) * h;
  }

  /** What is left stays small. */
  lemma LeftSmall(n: nat, d: nat, q: nat, s: nat, i: nat)
    requires Before(n, d, q, s, i)
    ensures i < 4 * q + 4 * d
  {
    Square(q, 2 * d);
    assert (2 * q + 2 * d) * (2 * d) == (4 * q + 4 * d) * d;
    MulLess(i, 4 * q + 4 * d, d);
  }

  // ---------- the two digit loops ----------

  /** The leading bit of a word, and its double. */
  function Carry(x: Word): int { x / SIGN }

  function Twice(x: Word): Word { 2 * x % B }

  lemma Doubled(hi: int, lo: Word)
    ensures (hi + hi + Carry(lo)) * B + Twice(lo) == 2 * (hi * B + lo)
  {
  }

  /** Doubles the two words of what is left, as a signed and an unsigned word. */
  method Double(ix0: int, ix1: Word) returns (hi: int, lo: Word)
    requires 0 <= ix0 < 0x2000_0000
    ensures hi * B + lo == 2 * (ix0 * B + ix1) && 0 <= hi < 0x4000_0000
  {
    Doubled(ix0, ix1);
    hi := ix0 + (ix0 + Carry(ix1));
    lo := Twice(ix1);
  }

  /** The place of the next digit: in the upper word while r is not zero, then the top of the lower word. */
  function Digit(r: nat): nat { if r > 0 then r * B else SIGN }

  ghost predicate High(n: nat, r: nat, k: nat, q: int, s0: int, ix0: int, ix1: Word) {
    && 0 <= q && 0 <= s0 && 0 <= ix0 && q + (if r > 0 then 2 * r else 1) <= 0x40_0000
    && (r == 0 || r == Pow2(k))
    && Before(n, Digit(r), q * B, s0 * B, ix0 * B + ix1)
  }

  lemma HighSmall(n: nat, r: nat, k: nat, q: int, s0: int, ix0: int, ix1: Word)
    requires High(n, r, k, q, s0, ix0, ix1)
    ensures s0 <= 0x80_0000 && ix0 < 0x200_0000
  {
    LeftSmall(n, Digit(r), q * B, s0 * B, ix0 * B + ix1);
  }

  /** One digit of the upper words. */
  lemma HighStep(n: nat, r: nat, k: nat, q: int, s0: int, ix0: int, ix1: Word, hi: int, lo: Word)
    requires High(n, r, k, q, s0, ix0, ix1) && r > 0
    requires var t := s0 + r; hi * B + lo == 2 * ((if t <= ix0 then ix0 - t else ix0) * B + ix1)
    ensures var t := s0 + r;
      High(n, r / 2, if k > 0 then k - 1 else 0, if t <= ix0 then q + r else q, if t <= ix0 then t + r else s0, hi, lo)
  {
    var t, i := s0 + r, ix0 * B + ix1;
    if t <= ix0 { Take(n, r * B, q * B, s0 * B, i); } else { Skip(n, r * B, q * B, s0 * B, i); }
    assert k > 0 ==> r == 2 * (r / 2) && r / 2 == Pow2(k - 1);
    var q', s' := if t <= ix0 then q + r else q, if t <= ix0 then t + r else s0;
    NextDigit(n, r * B, q' * B, s' * B, if t <= ix0 then i - t * B else i, Digit(r / 2));
  }

  /** The digits in the upper words: 22 of them. */
  method HighDigits(x0: int, x1: Word, ghost n: nat) returns (q: int, s0: int, ix0: int, ix1: Word)
    requires High(n, 0x20_0000, 21, 0, 0, x0, x1)
    ensures High(n, 0, 0, q, s0, ix0, ix1)
  {
    hide High;
    q, s0, ix0, ix1 := 0, 0, x0, x1;
    var r: nat := 0x20_0000;
    ghost var k: nat := 21;
    while r != 0
      invariant High(n, r, k, q, s0, ix0, ix1)
      decreases r
    {
      HighSmall(n, r, k, q, s0, ix0, ix1);
      HighBounds(n, r, k, q, s0, ix0, ix1);
      ghost var p, p0, y0, y1 := q, s0, ix0, ix1;
      var t := s0 + r;
      if t <= ix0 {
        s0 := t + r;
        ix0 := ix0 - t;
        q := q + r;
      }
      ix0, ix1 := Double(ix0, ix1);
      HighStep(n, r, k, p, p0, y0, y1, ix0, ix1);
      r := r / 2;
      k := if k > 0 then k - 1 else 0;
    }
    HighEnd(n, k, q, s0, ix0, ix1);
  }

  lemma HighBounds(n: nat, r: nat, k: nat, q: int, s0: int, ix0: int, ix1: Word)
    requires High(n, r, k, q, s0, ix0, ix1)
    ensures 0 <= q && 0 <= s0 && 0 <= ix0
  {
  }

  lemma HighEnd(n: nat, k: nat, q: int, s0: int, ix0: int, ix1: Word)
    requires High(n, 0, k, q, s0, ix0, ix1)
    ensures High(n, 0, 0, q, s0, ix0, ix1)
  {
  }

  // ---------- the lower words ----------

  /** s1 has room for the trial digit; only the first digit can fill the word. */
  ghost predicate Low(n: nat, r: nat, k: nat, q: int, q1: Word, s0: int, s1: Word, ix0: int, ix1: Word) {
    && 0 <= q < 0x40_0000 && 0 <= s0 && 0 <= ix0
    && (r == 0 || (r == Pow2(k) && r <= SIGN && q1 + 2 * r <= B && ((r == SIGN && s1 == 0) || s1 + 4 * r <= B)))
    && (if r > 0 then Before(n, r, q * B + q1, s0 * B + s1, ix0 * B + ix1) else Done(n, q * B + q1, ix0 * B + ix1))
  }

  /** All digits are decided. */
  ghost predicate Done(n: nat, q: nat, i: nat) {
    q * q <= n < (q + 1) * (q + 1) && i == 2 * (n - q * q)
  }

  lemma LowStart(n: nat, q: int, s0: int, ix0: int, ix1: Word)
    requires High(n, 0, 0, q, s0, ix0, ix1)
    ensures Low(n, SIGN, 31, q, 0, s0, 0, ix0, ix1)
  {
    Values();
  }

  lemma LowSmall(n: nat, r: nat, k: nat, q: int, q1: Word, s0: int, s1: Word, ix0: int, ix1: Word)
    requires Low(n, r, k, q, q1, s0, s1, ix0, ix1) && r > 0
    ensures 0 <= q && 0 <= s0 <= 0x80_0000 && 0 <= ix0 < 0x200_0000 && s1 + r < B && q1 + r < B && r <= SIGN
  {
    LeftSmall(n, r, q * B + q1, s0 * B + s1, ix0 * B + ix1);
  }

  /** The trial, its comparison and the subtraction, word by word. */
  lemma Words(s0: int, s1: Word, r: nat, ix0: int, ix1: Word)
    requires s1 + r < B && 0 < r <= SIGN && ((r == SIGN && s1 == 0) || s1 + 4 * r <= B)
    ensures var t1: Word := s1 + r;
      var fits := s0 < ix0 || (s0 == ix0 && t1 <= ix1);
      var s1': Word := (t1 + r) % B;
      var s0' := if t1 >= SIGN && s1' < SIGN then s0 + 1 else s0;
      && (fits <==> s0 * B + s1 + r <= ix0 * B + ix1)
      && s0' * B + s1' == s0 * B + s1 + 2 * r
      && (r == SIGN ==> s1' == 0) && (r < SIGN ==> s1' == s1 + 2 * r)
      && (ix0 - s0 - (if ix1 < t1 then 1 else 0)) * B + (B + ix1 - t1) % B == (ix0 * B + ix1) - (s0 * B + s1 + r)
  {
  }

  lemma LastDone(n: nat, q: nat, s: nat, i: nat)
    requires After(n, 1, q, s, i)
    ensures Done(n, q, 2 * i)
  {
  }

  lemma LowStep(n: nat, r: nat, k: nat, q: int, q1: Word, s0: int, s1: Word, ix0: int, ix1: Word, s0': int, s1': Word, hi: int, lo: Word)
    requires Low(n, r, k, q, q1, s0, s1, ix0, ix1) && r > 0 && s1 + r < B && q1 + r < B && hi >= 0
    requires var i, t := ix0 * B + ix1, s0 * B + s1 + r;
      && hi * B + lo == 2 * (if t <= i then i - t else i)
      && s0' >= 0 && s0' * B + s1' == (if t <= i then t + r else t - r)
      && s1' == (if t > i then s1 else if r == SIGN then 0 else s1 + 2 * r)
    ensures Low(n, r / 2, if k > 0 then k - 1 else 0, q, if s0 * B + s1 + r <= ix0 * B + ix1 then q1 + r else q1, s0', s1', hi, lo)
  {
    hide Before, After, Done;
    var i, t, x, s := ix0 * B + ix1, s0 * B + s1 + r, q * B + q1, s0 * B + s1;
    if t <= i { Take(n, r, x, s, i); } else { Skip(n, r, x, s, i); }
    var x', s', i' := if t <= i then x + r else x, if t <= i then t + r else s, if t <= i then i - t else i;
    if r > 1 {
      assert k > 0 && r == 2 * (r / 2) && r / 2 == Pow2(k - 1);
      NextDigit(n, r, x', s', i', r / 2);
    } else {
      LastDone(n, x', s', i');
    }
  }

  /** The digits in the lower words: 32 of them. */
  method LowDigits(q: int, s00: int, x0: int, x1: Word, ghost n: nat) returns (q1: Word, ix0: int, ix1: Word)
    requires High(n, 0, 0, q, s00, x0, x1)
    ensures 0 <= q < 0x40_0000 && 0 <= ix0 && Done(n, q * B + q1, ix0 * B + ix1)
  {
    hide High, Low;
    var s0, s1: Word := s00, 0;
    q1, ix0, ix1 := 0, x0, x1;
    var r: nat := SIGN;
    ghost var k: nat := 31;
    LowStart(n, q, s0, ix0, ix1);
    while r != 0
      invariant Low(n, r, k, q, q1, s0, s1, ix0, ix1)
      decreases r
    {
      LowSmall(n, r, k, q, q1, s0, s1, ix0, ix1);
      q1, s0, s1, ix0, ix1 := LowDigit(q, q1, s0, s1, ix0, ix1, r, n, k);
      r := r / 2;
      k := if k > 0 then k - 1 else 0;
    }
    LowEnd(n, k, q, q1, s0, s1, ix0, ix1);
  }

  method LowDigit(ghost q: int, p1: Word, p0: int, t0: Word, y0: int, y1: Word, r: nat, ghost n: nat, ghost k: nat)
    returns (q1: Word, s0: int, s1: Word, ix0: int, ix1: Word)
    requires Low(n, r, k, q, p1, p0, t0, y0, y1) && r > 0
    ensures Low(n, r / 2, if k > 0 then k - 1 else 0, q, q1, s0, s1, ix0, ix1)
  {
    LowSmall(n, r, k, q, p1, p0, t0, y0, y1);
    Words(p0, t0, r, y0, y1);
    q1, s0, s1, ix0, ix1 := p1, p0, t0, y0, y1;
    var t1: Word := s1 + r;
    var t := s0;
    if t < ix0 || (t == ix0 && t1 <= ix1) {
      s1 := (t1 + r) % B;
      if t1 >= SIGN && s1 < SIGN {
        s0 := s0 + 1;
      }
      ix0 := ix0 - t;
      if ix1 < t1 {
        ix0 := ix0 - 1;
      }
      ix1 := (B + ix1 - t1) % B;
      q1 := q1 + r;
    }
    ix0, ix1 := Double(ix0, ix1);
    hide Low;
    LowStep(n, r, k, q, p1, p0, t0, y0, y1, s0, s1, ix0, ix1);
  }

  lemma LowEnd(n: nat, k: nat, q: int, q1: Word, s0: int, s1: Word, ix0: int, ix1: Word)
    requires Low(n, 0, k, q, q1, s0, s1, ix0, ix1)
    ensures 0 <= q < 0x40_0000 && 0 <= ix0 && Done(n, q * B + q1, ix0 * B + ix1)
  {
  }

  // ---------- rounding ----------

  /** r is the whole number nearest to the root of n / 4, which is not halfway between two. */
  ghost predicate Nearest(n: nat, r: nat) {
    r > 0 && (2 * r - 1) * (2 * r - 1) < n < (2 * r + 1) * (2 * r + 1)
  }

  /** Nearer than one half, read over the reals. */
  lemma NearestReal(n: nat, r: nat, y: real)
    requires Nearest(n, r) && y >= 0.0 && 4.0 * y * y == n as real
    ensures -0.5 < r as real - y < 0.5
  {
    var lo, hi := (2 * r - 1) as real, (2 * r + 1) as real;
    assert lo * lo == ((2 * r - 1) * (2 * r - 1)) as real && hi * hi == ((2 * r + 1) * (2 * r + 1)) as real;
    var z := 2.0 * y;
    assert z * z == 4.0 * y * y;
    if z <= lo { RealSquares(z, lo); }
    if z >= hi { RealSquares(hi, z); }
  }

  lemma RealSquares(x: real, y: real)
    requires 0.0 <= x <= y
    ensures x * x <= y * y
  {
    assert x * x <= x * y && x * y <= y * y;
  }

  lemma Squares(x: nat, y: nat)
    requires x <= y
    ensures x * x <= y * y
  {
    MulMonotone(x, y, x);
    MulMonotone(x, y, y);
  }

  lemma OddSquare(x: nat)
    requires x % 2 == 1
    ensures x * x % 2 == 1
  {
    var h := x / 2;
    assert x == 2 * h + 1;
    assert (2 * h + 1) * (2 * h + 1) == 2 * (2 * h * h + 2 * h) + 1;
  }

  /** The last of the 54 digits rounds; with it set the root is never exact, so there is no tie. */
  lemma RoundedNearest(n: nat, x: nat, i: nat)
    requires Done(n, x, i) && n % 2 == 0 && x > 0
    ensures x % 2 == 1 ==> i != 0
    ensures Nearest(n, (if i != 0 && x % 2 == 1 then x + 1 else x) / 2) || x < 2
  {
    if x % 2 == 1 {
      OddSquare(x);
      Squares(x + 1, x + 2);
    } else {
      Squares(x - 1, x);
      assert (x - 1) * (x - 1) == x * x - 2 * x + 1;
    }
  }

  /** Rounding to nearest: adding a tiny number to one, or subtracting it, gives one again. */
  method Round(q0: int, q10: Word, ix0: int, ix1: Word) returns (q: int, q1: Word)
    requires 0 <= q0 && 0 <= ix0
    ensures var x, i := q0 * B + q10, ix0 * B + ix1;
      q * B + q1 == (if i != 0 && x % 2 == 1 then x + 1 else x) && q >= 0
  {
    q, q1 := q0, q10;
    if ix0 != 0 || ix1 != 0 {
      if q1 == 0xffff_ffff {
        q1 := 0;
        q := q + 1;
      } else {
        q1 := q1 + q1 % 2;
      }
    }
  }

  // ---------- unpacking and packing ----------

  const BIT52 := 0x10_0000_0000_0000

  /** The significand of a normal number with its hidden bit, a whole number of 53 bits. */
  function Significand(hi: Word, lo: Word): nat { (hi % 0x10_0000 + 0x10_0000) * B + lo }

  function Exponent(hi: Word): int { hi / 0x10_0000 - 1023 }

  /** The significand, doubled for an odd exponent. */
  function Even(hi: Word, lo: Word): nat { if Exponent(hi) % 2 == 1 then 2 * Significand(hi, lo) else Significand(hi, lo) }

  /** The two words of the significand, doubled for an odd exponent and once more to start the loops. */
  method Unpack(hi: Word, lo: Word) returns (ix0: int, ix1: Word, m: int)
    requires 0x10_0000 <= hi < 0x7ff0_0000
    ensures ix0 * B + ix1 == 2 * Even(hi, lo) && m == Exponent(hi) / 2 && 0 <= ix0 < 0x80_0000
  {
    m := hi / 0x10_0000 - 1023;
    ix0 := hi % 0x10_0000 + 0x10_0000;
    ix1 := lo;
    if m % 2 == 1 {
      ix0, ix1 := Double(ix0, ix1);
    }
    m := m / 2;
    ix0, ix1 := Double(ix0, ix1);
  }

  lemma RootRange(s: nat, x: nat, i: nat)
    requires BIT52 <= s <= 4 * BIT52 - 2 && Done(s * (4 * BIT52), x, i)
    ensures 2 * BIT52 <= x <= 4 * BIT52 - 2
  {
    var n := s * (4 * BIT52);
    MulMonotone(BIT52, s, 4 * BIT52);
    MulMonotone(s, 4 * BIT52 - 2, 4 * BIT52);
    if x < 2 * BIT52 { Squares(x + 1, 2 * BIT52); }
    if x >= 4 * BIT52 - 1 { Squares(4 * BIT52 - 1, x); }
  }

  method Pack(q: int, q1: Word, m: int) returns (hi: Word, lo: Word)
    requires 2 * BIT52 <= q * B + q1 < 4 * BIT52 && -1022 <= m <= 1023
    ensures Significand(hi, lo) == (q * B + q1) / 2 && Exponent(hi) == m
  {
    var z0 := q / 2 + 0x3fe0_0000;
    lo := q1 / 2;
    if q % 2 == 1 {
      lo := lo + SIGN;
    }
    z0 := z0 + m * 0x10_0000;
    hi := z0;
  }

  // ---------- the numbers that the words stand for ----------

  /** Two to the power of any integer. */
  ghost function Power(e: int): (p: real)
    ensures p > 0.0
    decreases if e >= 0 then e else -e
  {
    if e == 0 then 1.0 else if e > 0 then 2.0 * Power(e - 1) else Power(e + 1) / 2.0
  }

  lemma {:induction false} PowerAdd(a: int, b: int)
    ensures Power(a + b) == Power(a) * Power(b)
    decreases if b >= 0 then b else -b
  {
    hide Power;
    if b == 0 {
      PowerZero();
    } else if b > 0 {
      PowerAdd(a, b - 1);
      PowerStep(a + b - 1);
      PowerStep(b - 1);
      BothTwice(Power(a + b), Power(a + b - 1), Power(a), Power(b), Power(b - 1));
    } else {
      PowerAdd(a, b + 1);
      PowerStep(a + b);
      PowerStep(b);
      BothTwice(Power(a + b + 1), Power(a + b), Power(a), Power(b + 1), Power(b));
    }
  }

  lemma PowerZero()
    ensures Power(0) == 1.0
  {
  }

  lemma BothTwice(x: real, x': real, p: real, y: real, y': real)
    requires x == 2.0 * x' && y == 2.0 * y'
    ensures x == p * y <==> x' == p * y'
  {
    assert p * y == 2.0 * (p * y');
  }

  lemma PowerStep(e: int)
    ensures Power(e + 1) == 2.0 * Power(e)
  {
  }

  lemma {:induction false} PowerWhole(i: nat)
    ensures Power(i) == Pow2(i) as real
  {
    if i > 0 { PowerWhole(i - 1); }
  }

  /** The value of a normal number. */
  ghost function Value(hi: Word, lo: Word): real { Significand(hi, lo) as real * Power(Exponent(hi) - 52) }

  ghost predicate RootOf(y: real, v: real) { y >= 0.0 && y * y == v }

  /** Unit is the unit in the last place of z; z is the double nearest to y. */
  ghost predicate HalfUnit(z: real, y: real, unit: real) { -unit / 2.0 < z - y < unit / 2.0 }

  lemma ValueOne()
    ensures Value(0x3ff0_0000, 0) == 1.0
  {
    PowerAdd(52, -52);
    PowerWhole(52);
    Values();
    assert Power(0) == 1.0;
  }

  /** Doubling the significand makes the exponent even. */
  lemma ValueEven(hi: Word, lo: Word)
    ensures Value(hi, lo) == Even(hi, lo) as real * Power(2 * (Exponent(hi) / 2) - 52)
  {
    var e := Exponent(hi);
    if e % 2 == 1 { PowerStep(e - 53); }
  }

  lemma SquareProduct(w: real, u: real)
    ensures (w * u) * (w * u) == (w * w) * (u * u)
  {
    var x := w * u;
    assert x * x == w * (u * x);
    assert u * x == w * (u * u);
  }

  lemma Regroup(s: real, x: real, b: real)
    ensures s * (x * b) == (s * b) * x
  {
  }

  lemma ScaledRoot(y: real, w: real, u: real, uu: real, s: real, b: real)
    requires uu == u * u && uu > 0.0 && w * u == y && y * y == s * (uu * b)
    ensures w * w == s * b
  {
    SquareProduct(w, u);
    Regroup(s, uu, b);
    RealCancel(w * w, s * b, uu);
  }

  lemma RealCancel(x: real, y: real, u: real)
    requires x * u == y * u && u > 0.0
    ensures x == y
  {
    assert (x - y) * u == 0.0;
  }

  lemma UnitTimes(r: real, w: real, u: real, z: real, y: real)
    requires -0.5 < r - w < 0.5 && u > 0.0 && z == r * u && y == w * u
    ensures HalfUnit(z, y, u)
  {
    Difference(r, w, u);
    RealLess(r - w, 0.5, u);
    RealLess(-0.5, r - w, u);
  }

  lemma Difference(r: real, w: real, u: real)
    ensures (r - w) * u == r * u - w * u
  {
  }

  lemma RealLess(x: real, y: real, u: real)
    requires x < y && u > 0.0
    ensures x * u < y * u
  {
    assert (y - x) * u > 0.0;
  }

  /** Nearest in whole numbers means less than half a unit in the last place from the root of the value. */
  lemma RootNearest(hi: Word, lo: Word, zHi: Word, zLo: Word, y: real)
    requires Exponent(zHi) == Exponent(hi) / 2 && Nearest(Even(hi, lo) * (4 * BIT52), Significand(zHi, zLo))
    requires RootOf(y, Value(hi, lo))
    ensures HalfUnit(Value(zHi, zLo), y, Power(Exponent(zHi) - 52))
  {
    hide Value, HalfUnit, Even, Significand, Exponent, Nearest, Power;
    var m, e := Exponent(zHi), Even(hi, lo);
    var u, b := Power(m - 52), Power(52);
    ValueEven(hi, lo);
    PowerAdd(m - 52, m - 52);
    PowerAdd(2 * m - 104, 52);
    var uu := Power(2 * m - 104);
    assert Value(hi, lo) == e as real * (uu * b);
    var w := y / u;
    Quotient(y, u);
    ScaledRoot(y, w, u, uu, e as real, b);
    PowerWhole(52);
    Values();
    NearestReal(e * (4 * BIT52), Significand(zHi, zLo), w);
    ValueIs(zHi, zLo);
    UnitTimes(Significand(zHi, zLo) as real, w, u, Value(zHi, zLo), y);
  }

  lemma Quotient(y: real, u: real)
    requires y >= 0.0 && u > 0.0
    ensures y / u >= 0.0 && y / u * u == y
  {
  }

  lemma ValueIs(hi: Word, lo: Word)
    ensures Value(hi, lo) == Significand(hi, lo) as real * Power(Exponent(hi) - 52)
  {
  }

  /** The correctly rounded square root: half the exponent, and the significand nearest to the root. */
  method Sqrt(hi: Word, lo: Word) returns (zHi: Word, zLo: Word)
    requires 0x10_0000 <= hi < 0x7ff0_0000
    ensures Exponent(zHi) == Exponent(hi) / 2
    ensures Nearest(Even(hi, lo) * (4 * BIT52), Significand(zHi, zLo))
    ensures forall y {:trigger RootOf(y, Value(hi, lo))} :: RootOf(y, Value(hi, lo)) ==> HalfUnit(Value(zHi, zLo), y, Power(Exponent(zHi) - 52))
  {
    hide High, Done, Nearest, Even, Significand, Exponent, Value, Power, RootOf, HalfUnit;
    ghost var s := Even(hi, lo);
    ghost var n := s * (4 * BIT52);
    var ix0, ix1, m := Unpack(hi, lo);
    Start(hi, lo, ix0, ix1);
    var q, s0;
    q, s0, ix0, ix1 := HighDigits(ix0, ix1, n);
    var q1;
    q1, ix0, ix1 := LowDigits(q, s0, ix0, ix1, n);
    RootRange(s, q * B + q1, ix0 * B + ix1);
    RoundedNearest(n, q * B + q1, ix0 * B + ix1);
    ExponentRange(hi);
    q, q1 := Round(q, q1, ix0, ix1);
    zHi, zLo := Pack(q, q1, m);
    forall y | RootOf(y, Value(hi, lo)) ensures HalfUnit(Value(zHi, zLo), y, Power(Exponent(zHi) - 52)) {
      RootNearest(hi, lo, zHi, zLo, y);
    }
  }

  lemma ExponentRange(hi: Word)
    requires 0x10_0000 <= hi < 0x7ff0_0000
    ensures -1022 <= Exponent(hi) / 2 <= 1023
  {
  }

  lemma Start(hi: Word, lo: Word, ix0: int, ix1: Word)
    requires 0x10_0000 <= hi < 0x7ff0_0000 && ix0 * B + ix1 == 2 * Even(hi, lo) && ix0 >= 0
    ensures BIT52 <= Even(hi, lo) <= 4 * BIT52 - 2
    ensures High(Even(hi, lo) * (4 * BIT52), 0x20_0000, 21, 0, 0, ix0, ix1)
  {
    Values();
  }
}
