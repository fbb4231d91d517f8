/** Signed 64-bit division and remainder on 32-bit words, as the runtime helpers of the
    32-bit compiler do them: the words are registers and stack slots. */
module Int64 {
  import opened Arithmetic
  import opened MachineWords

  const HALF := 0x8000_0000

  function Wide(hi: Word, lo: Word): (v: nat)
    ensures v < B * B
  {
    hi * B + lo
  }

  /** Two's complement reading of a 64-bit pattern. */
  function Signed(v: nat): int
    requires v < B * B
  {
    if v < HALF * B then v else v - B * B
  }

  lemma SignedMeans(v: nat)
    requires v < B * B
    ensures -(HALF * B) <= Signed(v) < HALF * B && (Signed(v) - v) % (B * B) == 0
  {
  }

  function Abs(x: int): nat { if x < 0 then -x else x }

  // ---------- what C asks of the results ----------

  /** The quotient with its fraction discarded. */
  function TruncDiv(a: int, b: int): int
    requires b != 0
  {
    if (a < 0) == (b < 0) then Abs(a) / Abs(b) else -(Abs(a) / Abs(b))
  }

  function TruncRem(a: int, b: int): int
    requires b != 0
  {
    if a < 0 then -(Abs(a) % Abs(b)) else Abs(a) % Abs(b)
  }

  lemma DivRem(a: int, b: int)
    requires b != 0
    ensures a == TruncDiv(a, b) * b + TruncRem(a, b)
    ensures Abs(TruncRem(a, b)) < Abs(b)
    ensures TruncRem(a, b) == 0 || (TruncRem(a, b) < 0 <==> a < 0)
  {
    var q, r := Abs(a) / Abs(b), Abs(a) % Abs(b);
    assert Abs(a) == q * Abs(b) + r;
    assert (-q) * b == -(q * b) && q * (-b) == -(q * b) && (-q) * (-b) == q * b;
  }

  /** There is no other quotient and remainder of this kind. */
  lemma DivRemUnique(a: int, b: int, q: int, r: int)
    requires b != 0 && a == q * b + r && Abs(r) < Abs(b) && (r == 0 || (r < 0 <==> a < 0))
    ensures q == TruncDiv(a, b) && r == TruncRem(a, b)
  {
    hide TruncDiv, TruncRem;
    DivRem(a, b);
    OnlyOne(b, q, r, TruncDiv(a, b), TruncRem(a, b));
  }

  /** Remainders of the same sign that are less than the divisor cannot differ by a multiple of it. */
  lemma OnlyOne(b: int, q: int, r: int, q': int, r': int)
    requires b != 0 && q * b + r == q' * b + r' && Abs(r) < Abs(b) && Abs(r') < Abs(b)
    requires r == 0 || r' == 0 || (r < 0 <==> r' < 0)
    ensures q == q' && r == r'
  {
    Distribute(q, q', b);
    Distribute(q', q, b);
    if q > q' { MulAtLeast(q - q', b); } else if q < q' { MulAtLeast(q' - q, b); }
  }

  lemma Distribute(q: int, q': int, b: int)
    ensures (q - q') * b == q * b - q' * b
  {
  }

  lemma MulAtLeast(d: int, b: int)
    requires d >= 1
    ensures Abs(d * b) >= Abs(b) && (d * b < 0 <==> b < 0)
  {
    if b < 0 { assert d * b <= b; } else { assert d * b >= b; }
  }

  // ---------- instructions ----------

  /** neg on the low word sets the carry unless it is zero; sbb takes it from the high word. */
  function NegHi(hi: Word, lo: Word): Word { (B - hi - (if lo != 0 then 1 else 0)) % B }

  function NegLo(lo: Word): Word { (B - lo) % B }

  lemma Negated(hi: Word, lo: Word)
    ensures Wide(NegHi(hi, lo), NegLo(lo)) == if Wide(hi, lo) == 0 then 0 else B * B - Wide(hi, lo)
  {
  }

  /** div of two words by one; without the requirement the instruction faults. */
  function DivQuotient(hi: Word, lo: Word, d: Word): (q: Word)
    requires hi < d
    ensures q == Wide(hi, lo) / d
  {
    QuotientFits(hi, lo, d);
    Wide(hi, lo) / d
  }

  function DivRemainder(hi: Word, lo: Word, d: Word): (r: Word)
    requires d > 0
    ensures r == Wide(hi, lo) % d
  {
    Wide(hi, lo) % d
  }

  lemma QuotientFits(hi: Word, lo: Word, d: Word)
    requires hi < d
    ensures 0 <= Wide(hi, lo) / d < B
  {
    QuotientBound(Wide(hi, lo), d, B);
  }

  lemma QuotientBound(x: nat, d: nat, n: nat)
    requires d > 0 && x < n * d
    ensures x / d < n
  {
    var q := x / d;
    assert q * d <= x;
    if q >= n { MulMonotone(n, q, d); }
  }

  // ---------- a divisor of one word ----------

  /** Dividing word by word, as on paper. */
  lemma ShortDivision(hi: Word, lo: Word, d: Word)
    requires d > 0
    ensures hi % d < d
    ensures Wide(hi / d, DivQuotient(hi % d, lo, d)) == Wide(hi, lo) / d
    ensures DivRemainder(hi % d, lo, d) == Wide(hi, lo) % d
  {
    var q1, r1 := hi / d, hi % d;
    var q0, r0 := Wide(r1, lo) / d, Wide(r1, lo) % d;
    QuotientFits(r1, lo, d);
    assert hi == q1 * d + r1 && Wide(r1, lo) == q0 * d + r0;
    assert (q1 * B + q0) * d == q1 * d * B + q0 * d;
    assert Wide(hi, lo) == (q1 * B + q0) * d + r0;
    DivIs(Wide(hi, lo), d, q1 * B + q0, r0);
  }

  // ---------- a divisor of two words ----------

  /** One shift to the right over two words: shr, then rcr with the bit shifted out. */
  function ShrHi(hi: Word): Word { hi / 2 }

  function RcrLo(hi: Word, lo: Word): Word { (hi % 2) * HALF + lo / 2 }

  lemma Halved(hi: Word, lo: Word)
    ensures Wide(ShrHi(hi), RcrLo(hi, lo)) == Wide(hi, lo) / 2
  {
  }

  lemma HalvedAgain(x: nat, p: nat)
    requires p > 0
    ensures (x / p) / 2 == x / (2 * p)
  {
    var y, r := x / p, x % p;
    var z, t := y / 2, y % 2;
    assert x == y * p + r && r < p by { DivFacts(x, p); }
    assert y * p == (z * 2) * p + t * p by { AddMul(z * 2, t, p); }
    assert (z * 2) * p == z * (2 * p) by { MulAssoc(z, 2, p); }
    assert t * p <= p by { MulMonotone(t, 1, p); }
    DivIs(x, 2 * p, z, t * p + r);
  }

  /** a and b divided by p: the divisor's upper word is empty and its lower word uses the top bit. */
  ghost predicate Scaled(a: nat, b: nat, p: nat, dHi: Word, dLo: Word, nHi: Word, nLo: Word) {
    p > 0 && Wide(dHi, dLo) == b / p && Wide(nHi, nLo) == a / p
  }

  lemma ScaledOn(a: nat, b: nat, p: nat, dHi: Word, dLo: Word, nHi: Word, nLo: Word)
    requires Scaled(a, b, p, dHi, dLo, nHi, nLo)
    ensures Scaled(a, b, 2 * p, ShrHi(dHi), RcrLo(dHi, dLo), ShrHi(nHi), RcrLo(nHi, nLo))
  {
    Halved(dHi, dLo);
    Halved(nHi, nLo);
    HalvedAgain(a, p);
    HalvedAgain(b, p);
  }

  /** Shifts both numbers until the divisor fits one word. */
  method ShiftDown(aHi: Word, aLo: Word, bHi: Word, bLo: Word) returns (ecx: Word, edx: Word, eax: Word, ghost p: nat)
    requires 0 < bHi <= HALF && aHi <= HALF
    ensures p >= 2 && ecx >= HALF && edx < HALF
    ensures ecx == Wide(bHi, bLo) / p && Wide(edx, eax) == Wide(aHi, aLo) / p
  {
    ghost var a, b := Wide(aHi, aLo), Wide(bHi, bLo);
    var ebx: Word := bHi;
    ecx, edx, eax, p := bLo, aHi, aLo, 1;
    while true
      invariant ebx > 0 && Scaled(a, b, p, ebx, ecx, edx, eax) && edx <= HALF
      decreases ebx
    {
      ScaledOn(a, b, p, ebx, ecx, edx, eax);
      ecx := RcrLo(ebx, ecx);
      ebx := ShrHi(ebx);
      eax := RcrLo(edx, eax);
      edx := ShrHi(edx);
      p := 2 * p;
      if ebx == 0 {
        return;
      }
    }
  }

  /** A quotient by its name rather than as a term. */
  lemma QuotientIs(x: nat, d: nat, q: nat)
    requires d > 0 && q == x / d
    ensures q * d <= x < (q + 1) * d && x == q * d + x % d && x % d < d
  {
    DivFacts(x, d);
  }

  /** The estimate is the quotient or one more, and its product with the divisor's upper word fits a word. */
  lemma Estimate(a: nat, b: nat, p: nat, n: nat, c: nat, q: nat)
    requires a <= HALF * B && B <= b <= HALF * B && p >= 2 && n == a / p && c == b / p && HALF <= c < B && q == n / c
    ensures a / b <= q <= a / b + 1
    ensures q * (b / B) < B
  {
    var t, h := a / b, b / B;
    DivFacts(a, b);
    EstimateLow(a, b, p, n, c, t, q);
    EstimateHigh(a, b, p, n, c, t, q);
    EstimateFits(a, b, p, n, c, h, q);
  }

  lemma EstimateLow(a: nat, b: nat, p: nat, n: nat, c: nat, t: nat, q: nat)
    requires p > 0 && b > 0 && c > 0 && n == a / p && c == b / p && t == a / b && q == n / c
    ensures t <= q
  {
    QuotientIs(a, b, t);
    QuotientIs(b, p, c);
    MulMonotone2(t, c * p, b);
    assert t * (c * p) == (t * c) * p;
    FloorGreatest(a, p, t * c);
    FloorGreatest(n, c, t);
  }

  lemma MulMonotone2(t: nat, x: nat, y: nat)
    requires x <= y
    ensures t * x <= t * y
  {
  }

  /** The quotient is the greatest number whose product with the divisor is not greater. */
  lemma FloorGreatest(x: nat, d: nat, t: nat)
    requires d > 0 && t * d <= x
    ensures t <= x / d
  {
    var q := x / d;
    assert q * d + x % d == x;
    assert (q + 1) * d == q * d + d;
    if t >= q + 1 { MulMonotone(q + 1, t, d); }
  }

  lemma EstimateHigh(a: nat, b: nat, p: nat, n: nat, c: nat, t: nat, q: nat)
    requires a <= HALF * B && B <= b && p >= 2 && HALF <= c && c == b / p && n == a / p && q == n / c && t == a / b
    ensures q <= t + 1
  {
    QuotientIs(n, c, q);
    QuotientIs(a, p, n);
    QuotientIs(b, p, c);
    QuotientIs(a, b, t);
    EstimateCore(a, b, p, n, c, b % p, t, q);
  }

  lemma EstimateCore(a: nat, b: nat, p: nat, n: nat, c: nat, s: nat, t: nat, q: nat)
    requires a <= HALF * B && p >= 2 && HALF <= c && q * c <= n && n * p <= a < (t + 1) * b && b == c * p + s && s < p
    requires t * b <= a
    ensures q <= t + 1
  {
    MulMonotone(q * c, n, p);
    if s > 0 { SmallQuotient(a, b, c, p, s, t); }
    Excess(a, b, c, p, s, t, q);
  }

  lemma Excess(a: nat, b: nat, c: nat, p: nat, s: nat, t: nat, q: nat)
    requires q * c * p <= a < (t + 1) * b && b == c * p + s && s < p && c > 0
    requires s > 0 ==> t + 1 <= c
    ensures q <= t + 1
  {
    var x, u := c * p, t + 1;
    assert u * (x + s) == u * x + u * s;
    if s > 0 {
      MulMonotone(u, c, s);
      MulMonotone2(c, s, p);
    } else {
      assert u * s == 0;
    }
    assert u * s <= x;
    assert q * c * p == q * x;
    MulMonotone(1, c, p);
    AtMostOneMore(a, x, u * s, u, q);
  }

  lemma AtMostOneMore(a: nat, x: nat, e: nat, u: nat, q: nat)
    requires q * x <= a < u * x + e && e <= x && x > 0
    ensures q <= u
  {
    var d := q - u;
    assert d * x == q * x - u * x;
    LessThanOne(d, x);
  }

  lemma LessThanOne(d: int, x: nat)
    requires x > 0 && d * x < x
    ensures d < 1
  {
    if d >= 1 { MulMonotone(1, d, x); }
  }

  /** Unless the divisor is exactly 2^32, the quotient is less than 2^31. */
  lemma SmallQuotient(a: nat, b: nat, c: nat, p: nat, s: nat, t: nat)
    requires a <= HALF * B && c >= HALF && p >= 2 && s > 0 && b == c * p + s && t * b <= a
    ensures t + 1 <= HALF <= c
  {
    MulMonotone(HALF, c, p);
    MulMonotone2(HALF, 2, p);
    MulMonotone2(HALF, B + 1, b);
    if t >= HALF { MulMonotone(HALF, t, b); }
  }

  lemma EstimateFits(a: nat, b: nat, p: nat, n: nat, c: nat, h: nat, q: nat)
    requires a <= HALF * B && p >= 2 && n == a / p && c == b / p && HALF <= c < B && q == n / c && h == b / B
    ensures q * h < B
  {
    QuotientIs(n, c, q);
    QuotientIs(a, p, n);
    MulMonotone(q * c, n, p);
    assert q * c * p == (q * p) * c;
    MulMonotone2(q * p, HALF, c);
    assert q * p <= B;
    UpperBelow(b, p);
    assert h + 1 <= p;
    MulMonotone2(q, h + 1, p);
    assert q * (h + 1) == q * h + q;
    if q == 0 { assert q * h == 0; }
  }

  lemma UpperBelow(b: nat, p: nat)
    requires p > 0 && b / p < B
    ensures b / B < p
  {
    DivFacts(b, p);
    MulMonotone(b / p + 1, B, p);
    QuotientBound(b, B, p);
  }

  // ---------- multiplying back ----------

  function MulHi(x: Word, y: Word): (r: Word) {
    ProductFits(x, y);
    x * y / B
  }

  function MulLo(x: Word, y: Word): Word { x * y % B }

  lemma ProductFits(x: Word, y: Word)
    ensures 0 <= x * y / B < B
  {
    MulMonotone(x, B - 1, y);
    QuotientBound(x * y, B, B);
  }

  function SubLo(lo: Word, lo': Word): Word { (B + lo - lo') % B }

  function SubHi(hi: Word, lo: Word, hi': Word, lo': Word): Word { (B + hi - hi' - (if lo < lo' then 1 else 0)) % B }

  lemma Subtracted(hi: Word, lo: Word, hi': Word, lo': Word)
    ensures var x, y := Wide(hi, lo), Wide(hi', lo');
      Wide(SubHi(hi, lo, hi', lo'), SubLo(lo, lo')) == if x >= y then x - y else x - y + B * B
  {
  }

  /** The quotient of the shifted numbers, its product with the divisor, and whether that is greater than the dividend. */
  method Guess(aHi: Word, aLo: Word, bHi: Word, bLo: Word) returns (q: Word, edx: Word, eax: Word, above: bool)
    requires aHi <= HALF && (aHi == HALF ==> aLo == 0) && 0 < bHi <= HALF && (bHi == HALF ==> bLo == 0)
    ensures var a, b := Wide(aHi, aLo), Wide(bHi, bLo);
      && a / b <= q <= a / b + 1
      && above == (q * b > a) && Wide(edx, eax) == q * b % (B * B)
  {
    hide Wide, MulHi, MulLo;
    ghost var a, b, p := Wide(aHi, aLo), Wide(bHi, bLo), 1;
    WideBounds(aHi, aLo);
    WideBounds(bHi, bLo);
    var ecx, hi, lo;
    ecx, hi, lo, p := ShiftDown(aHi, aLo, bHi, bLo);
    q := DivQuotient(hi, lo, ecx);
    Estimate(a, b, p, Wide(hi, lo), ecx, q);
    UpperWord(bHi, bLo);
    ecx := MulLo(q, bHi);
    eax := MulLo(q, bLo);
    var high: Word := MulHi(q, bLo);
    ProductWords(q, bHi, bLo);
    CompareWords(q * b, high, ecx, eax, aHi, aLo);
    var carry := high + ecx >= B;
    edx := (high + ecx) % B;
    above := carry || edx > aHi || (edx == aHi && eax > aLo);
  }

  /** Comparing word by word, the carry out of the upper word included. */
  lemma CompareWords(x: int, high: Word, ecx: Word, eax: Word, aHi: Word, aLo: Word)
    requires x == (high + ecx) * B + eax
    ensures var edx: Word := (high + ecx) % B;
      && Wide(edx, eax) == x % (B * B)
      && ((high + ecx >= B || edx > aHi || (edx == aHi && eax > aLo)) <==> x > Wide(aHi, aLo))
  {
  }

  lemma WideBounds(hi: Word, lo: Word)
    ensures hi > 0 ==> Wide(hi, lo) >= B
    ensures hi <= HALF && (hi == HALF ==> lo == 0) ==> Wide(hi, lo) <= HALF * B
  {
  }

  lemma UpperWord(hi: Word, lo: Word)
    ensures Wide(hi, lo) / B == hi
  {
  }

  /** Schoolbook multiplication by two words, the upper product fitting one. */
  lemma ProductWords(q: Word, hi: Word, lo: Word)
    requires q * hi < B
    ensures MulLo(q, hi) == q * hi
    ensures q * Wide(hi, lo) == (MulHi(q, lo) + MulLo(q, hi)) * B + MulLo(q, lo)
  {
    assert 0 <= q * hi by { MulMonotone(0, q, hi); }
    SmallMod(q * hi);
    assert q * lo == MulHi(q, lo) * B + MulLo(q, lo);
    assert q * (hi * B + lo) == q * hi * B + q * lo;
  }

  lemma SmallMod(x: nat)
    requires x < B
    ensures x % B == x
  {
  }

  // ---------- the two helpers ----------

  /** The magnitude of a number given by two words. */
  method Magnitude(hi: Word, lo: Word) returns (negative: bool, hi': Word, lo': Word)
    ensures negative == (Signed(Wide(hi, lo)) < 0) && Wide(hi', lo') == Abs(Signed(Wide(hi, lo)))
    ensures hi' <= HALF && (hi' == HALF ==> lo' == 0)
  {
    negative := hi >= HALF;
    if negative {
      Negated(hi, lo);
      hi', lo' := NegHi(hi, lo), NegLo(lo);
    } else {
      hi', lo' := hi, lo;
    }
  }

  /** The unsigned quotient of two magnitudes. */
  method Quotient(aHi: Word, aLo: Word, bHi: Word, bLo: Word) returns (edx: Word, eax: Word)
    requires aHi <= HALF && (aHi == HALF ==> aLo == 0) && bHi <= HALF && (bHi == HALF ==> bLo == 0) && Wide(bHi, bLo) != 0
    ensures Wide(edx, eax) == Wide(aHi, aLo) / Wide(bHi, bLo)
  {
    if bHi == 0 {
      ShortDivision(aHi, aLo, bLo);
      edx := DivQuotient(0, aHi, bLo);
      eax := DivQuotient(DivRemainder(0, aHi, bLo), aLo, bLo);
    } else {
      var esi, hi, lo, above := Guess(aHi, aLo, bHi, bLo);
      Corrected(Wide(aHi, aLo), Wide(bHi, bLo), esi);
      if above {
        esi := esi - 1;
      }
      edx, eax := 0, esi;
    }
  }

  method AllDiv(aHi0: Word, aLo0: Word, bHi0: Word, bLo0: Word) returns (edx: Word, eax: Word)
    requires Wide(bHi0, bLo0) != 0
    ensures Wide(edx, eax) == TruncDiv(Signed(Wide(aHi0, aLo0)), Signed(Wide(bHi0, bLo0))) % (B * B)
  {
    hide Wide, Signed, NegHi, NegLo;
    SignedZero(bHi0, bLo0);
    var aNegative, aHi, aLo := Magnitude(aHi0, aLo0);
    var bNegative, bHi, bLo := Magnitude(bHi0, bLo0);
    edx, eax := Quotient(aHi, aLo, bHi, bLo);
    ModOf(Wide(edx, eax));
    if aNegative != bNegative {
      Negated(edx, eax);
      edx, eax := NegHi(edx, eax), NegLo(eax);
    }
  }

  lemma SignedZero(hi: Word, lo: Word)
    ensures Signed(Wide(hi, lo)) == 0 <==> Wide(hi, lo) == 0
  {
  }

  lemma ModOf(x: nat)
    requires x < B * B
    ensures x % (B * B) == x && (0 - x) % (B * B) == if x == 0 then 0 else B * B - x
  {
  }

  /** The estimate is the quotient unless its product with the divisor is greater than the dividend. */
  lemma Corrected(a: nat, b: nat, q: nat)
    requires b > 0 && a / b <= q <= a / b + 1
    ensures (if q * b > a then q - 1 else q) == a / b
    ensures (if q * b > a then q * b - b else q * b) == a - a % b
  {
    var t := a / b;
    assert a == t * b + a % b;
    assert (t + 1) * b == t * b + b;
  }

  /** The product modulo 2^64, for a product of less than twice that. */
  lemma ProductBound(a: nat, b: nat, q: nat)
    requires a <= HALF * B && 0 < b <= HALF * B && a / b <= q <= a / b + 1
    ensures q * b <= a + b
    ensures q * b % (B * B) == if q * b < B * B then q * b else q * b - B * B
  {
    var t := a / b;
    assert a == t * b + a % b;
    assert (t + 1) * b == t * b + b;
    MulMonotone(q, t + 1, b);
    WrapOnce(q * b);
  }

  lemma WrapOnce(x: nat)
    requires x < 2 * B * B
    ensures x % (B * B) == if x < B * B then x else x - B * B
  {
  }

  /** For a divisor of two words the remainder comes out negated: the product minus the dividend. */
  method MinusRemainder(aHi: Word, aLo: Word, bHi: Word, bLo: Word) returns (edx: Word, eax: Word)
    requires aHi <= HALF && (aHi == HALF ==> aLo == 0) && 0 < bHi <= HALF && (bHi == HALF ==> bLo == 0)
    ensures var r := Wide(aHi, aLo) % Wide(bHi, bLo); Wide(edx, eax) == if r == 0 then 0 else B * B - r
  {
    hide Wide, SubHi, SubLo;
    ghost var a, b := Wide(aHi, aLo), Wide(bHi, bLo);
    WideBounds(aHi, aLo);
    WideBounds(bHi, bLo);
    var q, hi, lo, above := Guess(aHi, aLo, bHi, bLo);
    Corrected(a, b, q);
    ProductBound(a, b, q);
    edx, eax := hi, lo;
    if above {
      Subtracted(edx, eax, bHi, bLo);
      edx, eax := SubHi(edx, eax, bHi, bLo), SubLo(eax, bLo);
    }
    Subtracted(edx, eax, aHi, aLo);
    edx, eax := SubHi(edx, eax, aHi, aLo), SubLo(eax, aLo);
  }

  method AllRem(aHi0: Word, aLo0: Word, bHi0: Word, bLo0: Word) returns (edx: Word, eax: Word)
    requires Wide(bHi0, bLo0) != 0
    ensures Signed(Wide(edx, eax)) == TruncRem(Signed(Wide(aHi0, aLo0)), Signed(Wide(bHi0, bLo0)))
  {
    SignedZero(bHi0, bLo0);
    var aNegative, aHi, aLo := Magnitude(aHi0, aLo0);
    var bNegative, bHi, bLo := Magnitude(bHi0, bLo0);
    ghost var r := Wide(aHi, aLo) % Wide(bHi, bLo);
    assert r < HALF * B;
    var negate;
    if bHi == 0 {
      ShortDivision(aHi, aLo, bLo);
      edx, eax := 0, DivRemainder(DivRemainder(0, aHi, bLo), aLo, bLo);
      negate := aNegative;
    } else {
      edx, eax := MinusRemainder(aHi, aLo, bHi, bLo);
      negate := !aNegative;
    }
    if negate {
      Negated(edx, eax);
      edx, eax := NegHi(edx, eax), NegLo(eax);
    }
  }
}
