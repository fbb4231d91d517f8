/** Numbers read from text and written to it: strtol, strtoul and btoa on 32-bit words. */
module Numerals {
  import opened Arithmetic
  import opened Powers
  import opened MachineWords

  const LONG_MAX := 0x7fff_ffff
  const LONG_MIN := -0x8000_0000

  /** Two's complement reading of a word. */
  function Signed(x: Word): int { if x < 0x8000_0000 then x else x - B }

  /** The one number in the range of a long that is congruent to the word. */
  lemma SignedMeans(x: Word, y: int)
    ensures LONG_MIN <= Signed(x) <= LONG_MAX && (Signed(x) - x) % B == 0
    ensures LONG_MIN <= y <= LONG_MAX && (y - x) % B == 0 ==> y == Signed(x)
  {
  }

  // ---------- characters ----------

  /** Past its last character a text has a NUL. */
  function CharAt(s: string, p: nat): char { if p < |s| then s[p] else '\0' }

  predicate IsSpace(c: char) { c == ' ' || 9 <= c as int <= 13 }

  predicate IsDigit(c: char) { '0' <= c <= '9' }

  predicate IsUpper(c: char) { 'A' <= c <= 'Z' }

  predicate IsAlpha(c: char) { IsUpper(c) || 'a' <= c <= 'z' }

  /** The digit that a character stands for; none is 36 or more but that of a character that is no digit at all. */
  function DigitOf(c: char): (d: nat)
    ensures d < 36 <==> IsDigit(c) || IsAlpha(c)
  {
    if IsDigit(c) then c as int - '0' as int
    else if IsUpper(c) then c as int - 'A' as int + 10
    else if IsAlpha(c) then c as int - 'a' as int + 10
    else 36
  }

  /** Digits and letters of either case count on from their first, which stand for 0 and 10. */
  lemma DigitsInOrder(c: char, d: char)
    ensures DigitOf('0') == 0 && DigitOf('a') == DigitOf('A') == 10
    ensures (IsDigit(c) && IsDigit(d)) || (IsUpper(c) && IsUpper(d)) || ('a' <= c <= 'z' && 'a' <= d <= 'z') ==>
      DigitOf(c) - DigitOf(d) == c as int - d as int
  {
  }

  // ---------- digits ----------

  predicate Base(base: int) { 2 <= base <= 36 }

  /** The number that the digits stand for. */
  function Val(ds: seq<nat>, base: nat): nat {
    if ds == [] then 0 else Val(ds[..|ds| - 1], base) * base + ds[|ds| - 1]
  }

  lemma ValNone(base: nat)
    ensures Val([], base) == 0
  {
  }

  lemma ValAppend(ds: seq<nat>, d: nat, base: nat)
    ensures Val(ds + [d], base) == Val(ds, base) * base + d
  {
    assert (ds + [d])[..|ds|] == ds;
  }

  /** The digits of the base from p on, as far as they go. */
  function Digits(s: string, p: nat, base: nat): (ds: seq<nat>)
    requires Base(base)
    ensures p + |ds| <= |s| || ds == []
    decreases |s| - p
  {
    var d := DigitOf(CharAt(s, p));
    if d < base then [d] + Digits(s, p + 1, base) else []
  }

  // ---------- what precedes the digits ----------

  function AfterSpaces(s: string, p: nat): (q: nat)
    ensures p <= q && (forall i :: p <= i < q ==> IsSpace(CharAt(s, i))) && !IsSpace(CharAt(s, q))
    decreases |s| - p
  {
    if IsSpace(CharAt(s, p)) then AfterSpaces(s, p + 1) else p
  }

  /** The sign, the base, and where the digits begin. */
  datatype Head = Head(negative: bool, base: nat, at: nat)

  function AfterSign(s: string, p: nat, base: nat): Head {
    if CharAt(s, p) == '-' then Head(true, base, p + 1)
    else if CharAt(s, p) == '+' then Head(false, base, p + 1)
    else Head(false, base, p)
  }

  /** A zero and a letter may announce base 16 or 2; without a base a zero alone announces 8. */
  function AfterPrefix(s: string, h: Head): Head {
    var c, x := CharAt(s, h.at), CharAt(s, h.at + 1);
    if (h.base == 0 || h.base == 16) && c == '0' && (x == 'x' || x == 'X') then h.(base := 16, at := h.at + 2)
    else if (h.base == 0 || h.base == 2) && c == '0' && (x == 'b' || x == 'B') then h.(base := 2, at := h.at + 2)
    else if h.base == 0 then h.(base := if c == '0' then 8 else 10)
    else h
  }

  function HeadOf(s: string, base: nat): (h: Head)
    ensures base == 0 || Base(base) ==> Base(h.base)
  {
    AfterPrefix(s, AfterSign(s, AfterSpaces(s, 0), base))
  }

  method ReadHead(s: string, base0: nat) returns (neg: bool, base: nat, p: nat)
    requires base0 == 0 || Base(base0)
    ensures Head(neg, base, p) == HeadOf(s, base0) && Base(base)
  {
    p := 0;
    while IsSpace(CharAt(s, p))
      invariant AfterSpaces(s, p) == AfterSpaces(s, 0)
      decreases |s| - p
    {
      p := p + 1;
    }
    neg, base := false, base0;
    if CharAt(s, p) == '-' {
      neg := true;
      p := p + 1;
    } else if CharAt(s, p) == '+' {
      p := p + 1;
    }
    var c, x := CharAt(s, p), CharAt(s, p + 1);
    if (base == 0 || base == 16) && c == '0' && (x == 'x' || x == 'X') {
      p := p + 2;
      base := 16;
    } else if (base == 0 || base == 2) && c == '0' && (x == 'b' || x == 'B') {
      p := p + 2;
      base := 2;
    }
    if base == 0 {
      base := if c == '0' then 8 else 10;
    }
  }

  // ---------- the digit loop ----------

  /** The test against the quotient and the remainder of the limit fires exactly when the next
      digit would go beyond it. */
  lemma CutoffExact(limit: nat, base: nat, acc: nat, c: nat)
    requires base > 0 && c < base && acc <= limit
    ensures (acc > limit / base || (acc == limit / base && c > limit % base)) <==> acc * base + c > limit
  {
    var q, r := limit / base, limit % base;
    assert limit == q * base + r;
    CutoffBy(limit, base, acc, c, q, r);
  }

  lemma CutoffBy(limit: nat, base: nat, acc: nat, c: nat, q: nat, r: nat)
    requires limit == q * base + r && r < base && c < base
    ensures (acc > q || (acc == q && c > r)) <==> acc * base + c > limit
  {
    AddMul(acc, 1, base);
    AddMul(q, 1, base);
    if acc < q { MulMonotone(acc + 1, q, base); }
    if acc > q { MulMonotone(q + 1, acc, base); }
  }

  /** done has been read; acc is its value, or any is negative and the value is beyond the limit. */
  ghost predicate Reading(limit: nat, base: nat, done: seq<nat>, acc: nat, any: int) {
    && acc <= limit
    && (if any < 0 then Val(done, base) > limit else Val(done, base) == acc)
    && (any == 0 <==> done == [])
  }

  lemma ReadOn(limit: nat, base: nat, done: seq<nat>, acc: nat, any: int, c: nat)
    requires Reading(limit, base, done, acc, any) && base >= 2 && c < base
    ensures var over := any < 0 || acc > limit / base || (acc == limit / base && c > limit % base);
      Reading(limit, base, done + [c], if over then acc else acc * base + c, if over then -1 else 1)
  {
    hide Val;
    ValAppend(done, c, base);
    CutoffExact(limit, base, acc, c);
    Grows(Val(done, base), base, c);
  }

  lemma Grows(v: nat, base: nat, c: nat)
    requires base >= 1
    ensures v * base + c >= v
  {
    MulMonotone(1, base, v);
  }

  /** A character that is no digit of any base counts as 36. */
  method DigitValue(ch: char) returns (c: nat)
    ensures c == DigitOf(ch)
  {
    c := 36;
    if IsDigit(ch) {
      c := ch as int - '0' as int;
    } else if IsAlpha(ch) {
      c := ch as int - (if IsUpper(ch) then 'A' as int - 10 else 'a' as int - 10);
    }
  }

  function NextValue(limit: Word, base: nat, acc: nat, c: nat): (r: Word)
    requires base > 0 && c < base && acc <= limit && (acc < limit / base || (acc == limit / base && c <= limit % base))
    ensures r == acc * base + c
  {
    CutoffExact(limit, base, acc, c);
    acc * base + c
  }

  /** Reads the digits from p0 on, with a limit; end is behind the last one. */
  method ReadDigits(s: string, p0: nat, base: nat, limit: Word) returns (acc: Word, any: int, end: nat)
    requires Base(base)
    ensures var ds := Digits(s, p0, base); end == p0 + |ds| && Reading(limit, base, ds, acc, any)
  {
    hide Reading, DigitOf, Val;
    var cutoff, cutlim := limit / base, limit % base;
    acc, any, end := 0, 0, p0;
    ghost var done: seq<nat> := [];
    assert Reading(limit, base, done, acc, any) by { ReadNone(limit, base); }
    while true
      invariant p0 <= end && end == p0 + |done| && Digits(s, p0, base) == done + Digits(s, end, base)
      invariant Reading(limit, base, done, acc, any)
      decreases |s| - end
    {
      ReadingBound(limit, base, done, acc, any);
      var ch := CharAt(s, end);
      var c := DigitValue(ch);
      if c >= base {
        break;
      }
      ReadOn(limit, base, done, acc, any, c);
      if any < 0 || acc > cutoff || (acc == cutoff && c > cutlim) {
        any := -1;
      } else {
        any := 1;
        acc := NextValue(limit, base, acc, c);
      }
      done := done + [c];
      end := end + 1;
    }
    assert done + [] == done;
  }

  lemma ReadNone(limit: nat, base: nat)
    ensures Reading(limit, base, [], 0, 0)
  {
  }

  lemma ReadingBound(limit: nat, base: nat, done: seq<nat>, acc: nat, any: int)
    requires Reading(limit, base, done, acc, any)
    ensures acc <= limit
  {
  }

  // ---------- the two functions ----------

  function Clamp(x: int): int {
    if x < LONG_MIN then LONG_MIN else if x > LONG_MAX then LONG_MAX else x
  }

  /** The value of the digits, whatever its size, and without a sign. */
  function Magnitude(s: string, base: nat): nat
    requires base == 0 || Base(base)
  {
    var h := HeadOf(s, base);
    Val(Digits(s, h.at, h.base), h.base)
  }

  /** The end of the digits; without digits, the start of the text. */
  function EndOf(s: string, base: nat): nat
    requires base == 0 || Base(base)
  {
    var h := HeadOf(s, base);
    var ds := Digits(s, h.at, h.base);
    if ds == [] then 0 else h.at + |ds|
  }

  // ---------- what the standard asks ----------

  ghost function DigitsIn(s: string, p: nat, q: nat): (ds: seq<nat>)
    requires p <= q <= |s|
  {
    seq<nat>(q - p, i requires 0 <= i < q - p => DigitOf(s[p + i]))
  }

  /** [p, q) are digits of the base b with the value v. */
  ghost predicate Numeral(s: string, p: nat, q: nat, b: nat, v: nat) {
    && p < q <= |s| && (forall i {:trigger s[i]} :: p <= i < q ==> DigitOf(s[i]) < b)
    && v == Val(DigitsIn(s, p, q), b)
  }

  ghost predicate Hexadecimal(s: string, p: nat, q: nat, v: nat) {
    p + 2 < q <= |s| && s[p] == '0' && (s[p + 1] == 'x' || s[p + 1] == 'X') && Numeral(s, p + 2, q, 16, v)
  }

  /** [p, q) has the form that section 7.20.1.4 of ISO/IEC 9899:1999 expects behind the sign, and the value v:
      without a base the form of an integer constant, with one its digits, which in base 16 may have a prefix. */
  ghost predicate Expected(s: string, p: nat, q: nat, base: nat, v: nat) {
    if base == 0 then
      || (Numeral(s, p, q, 10, v) && s[p] != '0')
      || (Numeral(s, p, q, 8, v) && s[p] == '0')
      || Hexadecimal(s, p, q, v)
    else
      Numeral(s, p, q, base, v) || (base == 16 && Hexadecimal(s, p, q, v))
  }

  /** Where the digits or their prefix would begin. */
  function Body(s: string): nat { AfterSign(s, AfterSpaces(s, 0), 0).at }

  /** The longest stretch of the expected form from p on, or nothing where there is none. */
  ghost predicate Longest(s: string, p: nat, base: nat, end: nat, v: nat) {
    || (end == 0 && v == 0 && forall q: nat, w: nat :: !Expected(s, p, q, base, w))
    || (Expected(s, p, end, base, v) && forall q: nat, w: nat :: Expected(s, p, q, base, w) ==> q <= end)
  }

  lemma LongestUnique(s: string, p: nat, base: nat, end: nat, v: nat, end': nat, v': nat)
    requires base == 0 || Base(base)
    requires Longest(s, p, base, end, v) && Longest(s, p, base, end', v')
    ensures end == end' && v == v'
  {
  }

  /** What the standard calls white space. */
  predicate White(c: char) { c as int in [32, 9, 10, 11, 12, 13] }

  /** p is behind the white space at the start. */
  ghost predicate Begins(s: string, p: nat) {
    p <= |s| && (forall i :: 0 <= i < p ==> White(s[i])) && (p < |s| ==> !White(s[p]))
  }

  /** [p, q) is a subject sequence with the value x: the expected form behind an optional sign, a minus negating it. */
  ghost predicate Subject(s: string, p: nat, q: nat, base: nat, x: int) {
    || (x >= 0 && Expected(s, p, q, base, x))
    || (p < |s| && s[p] == '+' && x >= 0 && Expected(s, p + 1, q, base, x))
    || (p < |s| && s[p] == '-' && x <= 0 && Expected(s, p + 1, q, base, -x))
  }

  /** The standard's value and end: those of the longest subject sequence behind the white space. */
  ghost predicate Standard(s: string, base: nat, end: nat, x: int) {
    exists p: nat :: Begins(s, p) && StandardFrom(s, p, base, end, x)
  }

  ghost predicate StandardFrom(s: string, p: nat, base: nat, end: nat, x: int) {
    || (end == 0 && x == 0 && forall q: nat, y :: !Subject(s, p, q, base, y))
    || (Subject(s, p, end, base, x) && forall q: nat, y :: Subject(s, p, q, base, y) ==> q <= end)
  }

  lemma SpacesBegin(s: string, p: nat)
    ensures Begins(s, p) <==> p == AfterSpaces(s, 0)
  {
    var w := AfterSpaces(s, 0);
    assert !IsSpace(CharAt(s, |s|));
    forall i | 0 <= i < w && i < |s| ensures White(s[i]) { assert IsSpace(CharAt(s, i)); }
    if Begins(s, p) {
      assert p < w ==> IsSpace(CharAt(s, p));
      assert w < p ==> White(s[w]);
    }
  }

  function Distance(x: int, y: int): nat { if x < y then y - x else x - y }

  function WithSign(negative: bool, v: nat): int { if negative then 0 - v else v }

  /** No digit is a sign, so there is one way only to read a subject sequence. */
  lemma SubjectIs(s: string, q: nat, base: nat, x: int)
    requires base == 0 || Base(base)
    ensures var h := AfterSign(s, AfterSpaces(s, 0), base);
      Subject(s, AfterSpaces(s, 0), q, base, x) <==>
        if h.negative then x <= 0 && Expected(s, h.at, q, base, -x) else x >= 0 && Expected(s, h.at, q, base, x)
  {
    hide AfterSpaces, Numeral;
    var p := AfterSpaces(s, 0);
    if x >= 0 && Expected(s, p, q, base, x) { ExpectedDigit(s, p, q, base, x); }
  }

  lemma ExpectedDigit(s: string, p: nat, q: nat, base: nat, v: nat)
    requires (base == 0 || Base(base)) && Expected(s, p, q, base, v)
    ensures p < |s| && DigitOf(s[p]) < 36
  {
  }

  lemma StandardStarts(s: string, base: nat, end: nat, x: int)
    ensures Standard(s, base, end, x) <==> StandardFrom(s, AfterSpaces(s, 0), base, end, x)
  {
    hide StandardFrom, Begins, AfterSpaces;
    SpacesBegin(s, AfterSpaces(s, 0));
    if Standard(s, base, end, x) {
      var p: nat :| Begins(s, p) && StandardFrom(s, p, base, end, x);
      SpacesBegin(s, p);
    }
  }

  /** The sign apart, the standard's result is the longest stretch of the expected form. */
  lemma StandardIs(s: string, base: nat, end: nat, v: nat)
    requires base == 0 || Base(base)
    ensures Standard(s, base, end, WithSign(AfterSign(s, AfterSpaces(s, 0), base).negative, v)) <==> Longest(s, Body(s), base, end, v)
  {
    hide AfterSpaces, Expected, Subject, Standard;
    var p, h := AfterSpaces(s, 0), AfterSign(s, AfterSpaces(s, 0), base);
    var x := WithSign(h.negative, v);
    StandardStarts(s, base, end, x);
    forall q: nat, w: nat ensures Expected(s, h.at, q, base, w) <==> Subject(s, p, q, base, WithSign(h.negative, w)) {
      SubjectIs(s, q, base, WithSign(h.negative, w));
    }
    forall q: nat, y | Subject(s, p, q, base, y) ensures exists w: nat :: y == WithSign(h.negative, w) && Expected(s, h.at, q, base, w) {
      SubjectIs(s, q, base, y);
      var w: nat := if h.negative then -y else y;
      assert y == WithSign(h.negative, w);
    }
  }

  /** The value of a standard result has the sign that is read. */
  lemma StandardSign(s: string, base: nat, end: nat, x: int)
    requires (base == 0 || Base(base)) && Standard(s, base, end, x)
    ensures exists v: nat :: x == WithSign(AfterSign(s, AfterSpaces(s, 0), base).negative, v)
  {
    hide AfterSpaces, Expected, Standard;
    StandardStarts(s, base, end, x);
    SubjectIs(s, end, base, x);
    var n := AfterSign(s, AfterSpaces(s, 0), base).negative;
    assert x == WithSign(n, Distance(x, 0));
  }

  /** The standard leaves no choice. */
  lemma StandardUnique(s: string, base: nat, end: nat, x: int, end': nat, x': int)
    requires base == 0 || Base(base)
    requires Standard(s, base, end, x) && Standard(s, base, end', x')
    ensures end == end' && x == x'
  {
    hide Standard, Longest, AfterSpaces;
    StandardSign(s, base, end, x);
    StandardSign(s, base, end', x');
    var n := AfterSign(s, AfterSpaces(s, 0), base).negative;
    var v: nat :| x == WithSign(n, v);
    var v': nat :| x' == WithSign(n, v');
    StandardIs(s, base, end, v);
    StandardIs(s, base, end', v');
    LongestUnique(s, Body(s), base, end, v, end', v');
  }

  /** The prefixes that the code takes and the standard does not: 0x with no hexadecimal digit behind it, and 0b. */
  predicate Odd(s: string, base: nat) {
    var p := Body(s);
    var x := CharAt(s, p + 1);
    && CharAt(s, p) == '0'
    && (|| ((base == 0 || base == 16) && (x == 'x' || x == 'X') && DigitOf(CharAt(s, p + 2)) >= 16)
        || ((base == 0 || base == 2) && (x == 'b' || x == 'B')))
  }

  /** The digits end where a character is no digit. */
  lemma {:induction false} DigitsMean(s: string, p: nat, b: nat)
    requires Base(b)
    ensures var ds := Digits(s, p, b);
      && (forall i :: 0 <= i < |ds| ==> p + i < |s| && DigitOf(s[p + i]) == ds[i] < b)
      && DigitOf(CharAt(s, p + |ds|)) >= b
    decreases |s| - p
  {
    hide DigitOf;
    if DigitOf(CharAt(s, p)) < b {
      assert p < |s| by { NulIsNone(); }
      DigitsMean(s, p + 1, b);
    }
  }

  lemma NulIsNone()
    ensures DigitOf('\0') == 36
  {
  }

  lemma NumeralEnds(s: string, p: nat, q: nat, b: nat, w: nat, e: nat)
    requires Numeral(s, p, q, b, w) && p <= e && DigitOf(CharAt(s, e)) >= b
    ensures q <= e
  {
    if e < |s| { assert CharAt(s, e) == s[e]; }
  }

  lemma LongestNumeral(s: string, p: nat, b: nat)
    requires Base(b)
    ensures var ds := Digits(s, p, b);
      && (ds != [] ==> Numeral(s, p, p + |ds|, b, Val(ds, b)))
      && forall q: nat, w: nat :: Numeral(s, p, q, b, w) ==> ds != [] && q <= p + |ds|
  {
    hide DigitOf, Val;
    var ds := Digits(s, p, b);
    DigitsMean(s, p, b);
    if ds != [] {
      assert DigitsIn(s, p, p + |ds|) == ds;
      forall i | p <= i < p + |ds| ensures DigitOf(s[i]) < b { assert DigitOf(s[p + (i - p)]) == ds[i - p]; }
    }
    forall q: nat, w: nat | Numeral(s, p, q, b, w) ensures ds != [] && q <= p + |ds| {
      NumeralEnds(s, p, q, b, w, p + |ds|);
    }
  }

  /** With nothing odd in front, the code's base and start of the digits are those of the expected form. */
  lemma PlainStandard(s: string, base: nat)
    requires (base == 0 || Base(base)) && !Odd(s, base)
    ensures Longest(s, Body(s), base, EndOf(s, base), Magnitude(s, base))
  {
    hide Numeral, Digits, Val, AfterSpaces;
    var p, h := Body(s), HeadOf(s, base);
    var ds := Digits(s, h.at, h.base);
    LongestNumeral(s, h.at, h.base);
    if h.at != p {
      HexadecimalDigit(s, p);
      PrefixEnds(s, p, if base == 0 then 8 else 16);
    }
    forall q: nat, w: nat | Expected(s, p, q, base, w) ensures ds != [] && q <= h.at + |ds| {
      NumeralDigit(s, p, q, if base == 0 then 10 else base, w);
      NumeralDigit(s, p, q, 8, w);
    }
    if ds == [] {
      ValNone(h.base);
    } else if h.at != p {
      assert Hexadecimal(s, p, EndOf(s, base), Magnitude(s, base));
    } else {
      NumeralDigit(s, p, EndOf(s, base), h.base, Magnitude(s, base));
    }
  }

  lemma NumeralDigit(s: string, p: nat, q: nat, b: nat, w: nat)
    ensures Numeral(s, p, q, b, w) ==> p < q <= |s| && DigitOf(s[p]) < b
  {
  }

  /** The digits before an x or a b are the zero alone. */
  lemma PrefixEnds(s: string, p: nat, b: nat)
    requires Base(b) && CharAt(s, p) == '0' && DigitOf(CharAt(s, p + 1)) >= b
    ensures Numeral(s, p, p + 1, b, 0) && forall q: nat, w: nat :: Numeral(s, p, q, b, w) ==> q <= p + 1
  {
    assert Digits(s, p + 1, b) == [];
    assert Digits(s, p, b) == [0];
    assert Val([0], b) == 0 by { ValAppend([], 0, b); ValNone(b); assert [] + [0] == [0]; }
    LongestNumeral(s, p, b);
  }

  lemma HexadecimalDigit(s: string, p: nat)
    requires DigitOf(CharAt(s, p + 2)) < 16
    ensures Digits(s, p + 2, 16) != [] && p + 2 < |s|
  {
  }

  /** Otherwise the standard reads the zero alone, and the code does not. */
  lemma OddZero(s: string, base: nat)
    requires (base == 0 || Base(base)) && Odd(s, base)
    ensures Longest(s, Body(s), base, Body(s) + 1, 0) && EndOf(s, base) != Body(s) + 1
  {
    hide Numeral, Digits, Val, AfterSpaces;
    var p := Body(s);
    PrefixEnds(s, p, if base == 0 then 8 else base);
    forall q: nat, w: nat | Expected(s, p, q, base, w) ensures q <= p + 1 {
      NumeralDigit(s, p + 2, q, 16, w);
    }
  }

  /** The value of the text, whatever its size, with its sign. */
  function Exact(s: string, base: nat): int
    requires base == 0 || Base(base)
  {
    WithSign(HeadOf(s, base).negative, Magnitude(s, base))
  }

  /** The code reads the standard's value and end exactly when no odd prefix is in front. */
  lemma HeadStandard(s: string, base: nat)
    requires base == 0 || Base(base)
    ensures Standard(s, base, EndOf(s, base), Exact(s, base)) <==> !Odd(s, base)
  {
    hide Standard, EndOf, Magnitude, Odd, Body, Longest, AfterSpaces;
    var v := Magnitude(s, base);
    StandardIs(s, base, EndOf(s, base), v);
    if Odd(s, base) {
      OddZero(s, base);
      if Longest(s, Body(s), base, EndOf(s, base), v) {
        LongestUnique(s, Body(s), base, EndOf(s, base), v, Body(s) + 1, 0);
      }
    } else {
      PlainStandard(s, base);
    }
  }

  /** A text that the code takes for no number at all, where the standard reads a zero. */
  lemma BarePrefix()
    ensures EndOf("0x", 0) == 0 && Standard("0x", 0, 1, 0)
  {
    hide Standard, Longest;
    assert AfterSpaces("0x", 0) == 0;
    assert Digits("0x", 2, 16) == [];
    OddZero("0x", 0);
    StandardIs("0x", 0, 1, 0);
  }

  /** A text of which the code reads another value than the standard. */
  lemma BinaryPrefix()
    ensures EndOf("0b1", 2) == 3 && Exact("0b1", 2) == 1 && Standard("0b1", 2, 1, 0)
  {
    hide Standard, Longest;
    assert AfterSpaces("0b1", 0) == 0;
    assert Digits("0b1", 3, 2) == [];
    assert Digits("0b1", 2, 2) == [1];
    assert Val([1], 2) == 1 by { ValAppend([], 1, 2); ValNone(2); assert [] + [1] == [1]; }
    OddZero("0b1", 2);
    StandardIs("0b1", 2, 1, 0);
  }

  /** Of all longs the clamped value is nearest to the exact one. */
  lemma ClampNearest(x: int, y: int)
    requires LONG_MIN <= y <= LONG_MAX
    ensures LONG_MIN <= Clamp(x) <= LONG_MAX && Distance(Clamp(x), x) <= Distance(y, x)
  {
  }

  /** The value that is written, clamped to the range of a long. */
  method Strtol(s: string, base0: nat) returns (value: int, end: nat)
    requires base0 == 0 || Base(base0)
    ensures value == Clamp(Exact(s, base0)) && end == EndOf(s, base0)
    ensures Standard(s, base0, end, Exact(s, base0)) <==> !Odd(s, base0)
  {
    hide Standard, Odd;
    HeadStandard(s, base0);
    var neg, base, p := ReadHead(s, base0);
    var limit: Word := if neg then -LONG_MIN else LONG_MAX;
    var acc, any;
    acc, any, end := ReadDigits(s, p, base, limit);
    if any < 0 {
      acc := if neg then 0x8000_0000 else LONG_MAX;
    } else if neg {
      acc := (B - acc) % B;
    }
    if any == 0 {
      end := 0;
    }
    value := Signed(acc);
  }

  /** The result for an unsigned long: beyond the range in either direction the greatest value, otherwise the exact value modulo 2^32. */
  ghost predicate UnsignedResult(x: int, value: Word) {
    if -B < x < B then (value - x) % B == 0 else value == B - 1
  }

  method Strtoul(s: string, base0: nat) returns (value: Word, end: nat)
    requires base0 == 0 || Base(base0)
    ensures UnsignedResult(Exact(s, base0), value) && end == EndOf(s, base0)
    ensures Standard(s, base0, end, Exact(s, base0)) <==> !Odd(s, base0)
  {
    hide Standard, Odd;
    HeadStandard(s, base0);
    var neg, base, p := ReadHead(s, base0);
    var any;
    value, any, end := ReadDigits(s, p, base, B - 1);
    if any < 0 {
      value := B - 1;
    } else if neg {
      value := (B - value) % B;
    }
    if any == 0 {
      end := 0;
    }
  }

  // ---------- writing ----------

  function DigitChar(d: nat): char
    requires d < 36
  {
    if d <= 9 then '0' + d as char else 'a' + (d - 10) as char
  }

  lemma DigitRead(d: nat)
    requires d < 36
    ensures DigitOf(DigitChar(d)) == d && DigitChar(d) != '\0' && !IsSpace(DigitChar(d)) && DigitChar(d) != '-' && DigitChar(d) != '+'
    ensures DigitChar(d) == '0' <==> d == 0
  {
  }

  /** The digits of v, the most significant one first and not zero; of zero, none. */
  function DigitsOf(v: nat, base: nat): (ds: seq<nat>)
    requires base >= 2
    ensures forall i :: 0 <= i < |ds| ==> ds[i] < base
    ensures v > 0 ==> ds != [] && ds[0] > 0
    ensures v == 0 ==> ds == []
  {
    if v == 0 then []
    else
      DividedSmaller(v, base);
      DigitsOf(v / base, base) + [v % base]
  }

  lemma DividedSmaller(v: nat, base: nat)
    requires base >= 2 && v > 0
    ensures 0 <= v / base < v && v / base <= v / 2 && 0 <= v % base < base && (v / base == 0 ==> v % base == v)
    ensures v == v / base * base + v % base
  {
    var q, r := v / base, v % base;
    assert v == q * base + r && r < base by { DivFacts(v, base); }
    QuotientHalf(v, base, q, r);
  }

  lemma QuotientHalf(v: nat, base: nat, q: nat, r: nat)
    requires base >= 2 && v > 0 && v == q * base + r
    ensures q <= v / 2 && q < v && (q == 0 ==> r == v)
  {
    MulMonotone(2, base, q);
  }

  lemma {:induction false} ValDigits(v: nat, base: nat)
    requires base >= 2
    ensures Val(DigitsOf(v, base), base) == v
    decreases v
  {
    hide Val;
    if v > 0 {
      DividedSmaller(v, base);
      ValDigits(v / base, base);
      ValAppend(DigitsOf(v / base, base), v % base, base);
    } else {
      assert Val([], base) == 0 by { ValNone(base); }
    }
  }

  /** Halving at least, a word has at most 32 digits. */
  lemma {:induction false} DigitCount(v: nat, base: nat, k: nat)
    requires base >= 2 && v < Pow2(k)
    ensures |DigitsOf(v, base)| <= k
    decreases k
  {
    if v > 0 {
      DividedSmaller(v, base);
      DigitCount(v / base, base, k - 1);
    }
  }

  function Chars(ds: seq<nat>): (r: string)
    requires forall i :: 0 <= i < |ds| ==> ds[i] < 36
    ensures |r| == |ds|
  {
    seq(|ds|, i requires 0 <= i < |ds| => DigitChar(ds[i]))
  }

  /** The digits of a number, behind a minus if there is one. */
  function Text(value: nat, base: nat, negative: bool): (t: string)
    requires Base(base)
    ensures |t| == |DigitsOf(value, base)| + if negative then 1 else 0
  {
    (if negative then "-" else "") + Chars(DigitsOf(value, base))
  }

  /** What btoa writes: base -10 asks for the signed value, any other base for the unsigned one. */
  function Written(v: Word, base: int): string
    requires base == -10 || Base(base)
  {
    if v == 0 then "0"
    else if base == -10 then (if Signed(v) < 0 then Text(B - v, 10, true) else Text(v, 10, false))
    else Text(v, base, false)
  }

  /** The first i characters of the buffer are the last i digits, the least significant one first. */
  ghost predicate Filled(buf: seq<char>, ds: seq<nat>, i: nat) {
    && i <= |ds| && i <= |buf| && (forall k {:trigger ds[k]} :: 0 <= k < |ds| ==> ds[k] < 36)
    && forall m {:trigger buf[m]} :: 0 <= m < i ==> buf[m] == DigitChar(ds[|ds| - 1 - m])
  }

  /** Fills the buffer with the digits of the value, the least significant one first. */
  method FillDigits(buf: array<char>, value0: Word, base: nat) returns (i: nat)
    requires Base(base) && buf.Length == 34
    modifies buf
    ensures i == |DigitsOf(value0, base)| <= 32 && Filled(buf[..], DigitsOf(value0, base), i)
  {
    hide DigitChar, Filled, DigitsOf;
    ghost var ds := DigitsOf(value0, base);
    assert ds[..|ds| - 0] == ds;
    assert value0 < Pow2(32) by { Values(); }
    DigitCount(value0, base, 32);
    var value: nat := value0;
    i := 0;
    NoneFilled(buf[..], value, base);
    while value != 0
      invariant i <= |ds| <= 32 && DigitsOf(value, base) == ds[..|ds| - i] && Filled(buf[..], ds, i)
      decreases value
    {
      DividedSmaller(value, base);
      LastDigit(value, base, ds, i);
      var rem := value % base;
      value := value / base;
      FilledOn(buf[..], ds, i);
      buf[i] := DigitChar(rem);
      i := i + 1;
    }
    NoDigits(base);
  }

  lemma NoDigits(base: nat)
    requires base >= 2
    ensures DigitsOf(0, base) == []
  {
  }

  lemma NoneFilled(buf: seq<char>, value: nat, base: nat)
    requires Base(base)
    ensures Filled(buf, DigitsOf(value, base), 0)
  {
  }

  lemma FilledOn(buf: seq<char>, ds: seq<nat>, i: nat)
    requires Filled(buf, ds, i) && i < |ds| && i < |buf|
    ensures ds[|ds| - 1 - i] < 36 && Filled(buf[i := DigitChar(ds[|ds| - 1 - i])], ds, i + 1)
  {
  }

  lemma LastDigit(value: nat, base: nat, ds: seq<nat>, i: nat)
    requires base >= 2 && value > 0 && i <= |ds| && DigitsOf(value, base) == ds[..|ds| - i]
    ensures i < |ds| && value % base == ds[|ds| - 1 - i] && DigitsOf(value / base, base) == ds[..|ds| - i - 1]
  {
    DividedSmaller(value, base);
    var p, d := DigitsOf(value / base, base), value % base;
    assert p + [d] == ds[..|ds| - i];
    assert (p + [d])[|p|] == d && (p + [d])[..|p|] == p;
  }

  /** strlen: the first NUL. */
  method StrLen(buf: array<char>, ghost n: nat) returns (len: nat)
    requires n < buf.Length && buf[n] == '\0' && forall m :: 0 <= m < n ==> buf[m] != '\0'
    ensures len == n
  {
    len := 0;
    while buf[len] != '\0'
      invariant len <= n
      decreases n - len
    {
      len := len + 1;
    }
  }

  /** Writes the characters of the buffer in reverse, and a NUL. */
  method WriteReversed(dst: array<char>, buf: array<char>, ghost n: nat)
    requires dst != buf && n < buf.Length && n < dst.Length && buf[n] == '\0' && forall m :: 0 <= m < n ==> buf[m] != '\0'
    modifies dst
    ensures (forall k :: 0 <= k < n ==> dst[k] == buf[n - 1 - k]) && dst[n] == '\0'
  {
    var len := StrLen(buf, n);
    var i: nat := 0;
    var j: int := len;
    j := j - 1;
    while j >= 0
      invariant i + j == n - 1 && -1 <= j < n
      invariant forall k :: 0 <= k < i ==> dst[k] == buf[n - 1 - k]
      decreases j
    {
      dst[i] := buf[j];
      i, j := i + 1, j - 1;
    }
    dst[i] := '\0';
  }

  /** The buffer of 34 characters is always large enough; the destination must have room for the text and a NUL. */
  method Btoa(dst: array<char>, value0: Word, base0: int) returns (ghost n: nat)
    requires (base0 == -10 || Base(base0)) && dst.Length > |Written(value0, base0)|
    modifies dst
    ensures n < 34 && n < dst.Length && dst[n] == '\0' && dst[..n] == Written(value0, base0)
  {
    if value0 == 0 {
      dst[0] := '0';
      dst[1] := '\0';
      return 1;
    }
    hide Text;
    var value, base, neg := value0, base0, false;
    if base == -10 {
      base := 10;
      if value >= 0x8000_0000 {
        value := (B - value) % B;
        neg := true;
      }
    }
    n := WriteNumber(dst, value, base, neg);
  }

  method WriteNumber(dst: array<char>, value: Word, base: nat, neg: bool) returns (ghost n: nat)
    requires Base(base) && dst.Length > |Text(value, base, neg)|
    modifies dst
    ensures n < 34 && n < dst.Length && dst[n] == '\0' && dst[..n] == Text(value, base, neg)
  {
    hide DigitChar, DigitsOf;
    var buf := new char[34](_ => '\0');
    var i := FillDigits(buf, value, base);
    ghost var ds := DigitsOf(value, base);
    FilledChars(buf[..], ds, i);
    buf[i] := '\0';
    n := i;
    if neg {
      buf[i] := '-';
      buf[i + 1] := '\0';
      n := i + 1;
    }
    WriteReversed(dst, buf, n);
    ghost var t := Text(value, base, neg);
    assert |t| == n;
    forall k | 0 <= k < n ensures dst[k] == t[k] {
      assert dst[k] == buf[n - 1 - k];
    }
  }

  lemma FilledChars(buf: seq<char>, ds: seq<nat>, i: nat)
    requires Filled(buf, ds, i) && i == |ds|
    ensures forall m :: 0 <= m < i ==> buf[m] == Chars(ds)[i - 1 - m] && buf[m] != '\0'
  {
    forall m | 0 <= m < i ensures buf[m] == Chars(ds)[i - 1 - m] && buf[m] != '\0' { DigitRead(ds[i - 1 - m]); }
  }

  // ---------- reading what was written ----------

  lemma {:induction false} DigitsRead(s: string, p: nat, base: nat, ds: seq<nat>)
    requires Base(base) && p + |ds| == |s| && forall i :: 0 <= i < |ds| ==> ds[i] < base && s[p + i] == DigitChar(ds[i])
    ensures Digits(s, p, base) == ds
    decreases |ds|
  {
    if ds != [] {
      DigitRead(ds[0]);
      DigitsRead(s, p + 1, base, ds[1..]);
      assert ds == [ds[0]] + ds[1..];
    }
  }

  /** A text of digits, the first of them not zero, has nothing before them. */
  lemma HeadPlain(s: string, base: nat, ds: seq<nat>)
    requires Base(base) && |ds| == |s| > 0 && ds[0] > 0 && forall i :: 0 <= i < |ds| ==> ds[i] < base && s[i] == DigitChar(ds[i])
    ensures HeadOf(s, base) == Head(false, base, 0)
  {
    DigitRead(ds[0]);
    assert CharAt(s, 0) == DigitChar(ds[0]);
  }

  lemma HeadMinus(s: string, base: nat, ds: seq<nat>)
    requires Base(base) && |s| == 1 + |ds| && s[0] == '-' && |ds| > 0 && ds[0] > 0 && forall i :: 0 <= i < |ds| ==> ds[i] < base && s[1 + i] == DigitChar(ds[i])
    ensures HeadOf(s, base) == Head(true, base, 1)
  {
    DigitRead(ds[0]);
    assert CharAt(s, 1) == DigitChar(ds[0]);
  }

  lemma TextAt(v: nat, base: nat, negative: bool, i: nat)
    requires Base(base) && i < |DigitsOf(v, base)|
    ensures DigitsOf(v, base)[i] < base && Text(v, base, negative)[(if negative then 1 else 0) + i] == DigitChar(DigitsOf(v, base)[i])
    ensures negative ==> Text(v, base, true)[0] == '-'
  {
    assert Chars(DigitsOf(v, base))[i] == DigitChar(DigitsOf(v, base)[i]);
  }

  /** What is written for a number that is not zero, read in the same base. */
  lemma PlainRead(v: nat, base: nat)
    requires Base(base) && v > 0
    ensures var s := Text(v, base, false);
      HeadOf(s, base) == Head(false, base, 0) && Magnitude(s, base) == v && EndOf(s, base) == |s|
  {
    hide DigitChar, HeadOf, DigitOf, Text, Val, Digits;
    var ds := DigitsOf(v, base);
    var s := Text(v, base, false);
    forall i | 0 <= i < |ds| ensures ds[i] < base && s[i] == DigitChar(ds[i]) { TextAt(v, base, false, i); }
    HeadPlain(s, base, ds);
    DigitsRead(s, 0, base, ds);
    ValDigits(v, base);
  }

  lemma MinusRead(v: nat, base: nat)
    requires Base(base) && v > 0
    ensures var s := Text(v, base, true);
      HeadOf(s, base) == Head(true, base, 1) && Magnitude(s, base) == v && EndOf(s, base) == |s|
  {
    hide DigitChar, HeadOf, DigitOf, Text, Val, Digits;
    var ds := DigitsOf(v, base);
    var s := Text(v, base, true);
    TextAt(v, base, true, 0);
    forall i | 0 <= i < |ds| ensures ds[i] < base && s[1 + i] == DigitChar(ds[i]) { TextAt(v, base, true, i); }
    HeadMinus(s, base, ds);
    DigitsRead(s, 1, base, ds);
    ValDigits(v, base);
  }

  lemma ZeroRead(base: nat)
    requires Base(base)
    ensures HeadOf("0", base) == Head(false, base, 0) && Magnitude("0", base) == 0 && EndOf("0", base) == 1
  {
    assert CharAt("0", 0) == '0' && CharAt("0", 1) == '\0';
    assert Digits("0", 1, base) == [];
    assert Digits("0", 0, base) == [0];
    assert Val([0], base) == Val([], base) * base + 0 by { assert [0][..0] == []; }
  }

  /** In every base strtoul gives back the value that btoa wrote, and reads all of it. */
  lemma UnsignedRoundTrip(v: Word, base: nat)
    requires Base(base)
    ensures var s := Written(v, base);
      EndOf(s, base) == |s| && forall value :: UnsignedResult(Exact(s, base), value) ==> value == v
  {
    hide HeadOf, Magnitude, EndOf;
    if v == 0 { ZeroRead(base); } else { PlainRead(v, base); }
  }

  /** strtol gives back the signed value that btoa wrote in base -10. */
  lemma SignedRoundTrip(v: Word)
    ensures var s := Written(v, -10); Clamp(Exact(s, 10)) == Signed(v) && EndOf(s, 10) == |s|
  {
    hide HeadOf, Magnitude, EndOf;
    if v == 0 {
      ZeroRead(10);
    } else if Signed(v) < 0 {
      MinusRead(B - v, 10);
    } else {
      PlainRead(v, 10);
    }
  }

  // ---------- what the text looks like ----------

  /** s[k..] are the digits of v in the base, without a leading zero unless v is zero, and in small letters. */
  ghost predicate Spelled(s: string, k: nat, v: nat, base: nat) {
    && k < |s| && Numeral(s, k, |s|, base, v) && (s[k] == '0' ==> |s| == k + 1)
    && forall i {:trigger s[i]} :: k <= i < |s| ==> '0' <= s[i] <= '9' || 'a' <= s[i] <= 'z'
  }

  /** The text of btoa: a minus exactly for a negative number in base -10, and then the digits of the magnitude. */
  lemma WrittenSpells(v: Word, base: int)
    requires base == -10 || Base(base)
    ensures var s, b := Written(v, base), if base == -10 then 10 else base;
      if base == -10 && Signed(v) < 0 then |s| > 1 && s[0] == '-' && Spelled(s, 1, -Signed(v), b)
      else Spelled(s, 0, v, b)
  {
    hide Text, Val, Spelled;
    if v == 0 {
      ZeroSpells(if base == -10 then 10 else base);
    } else if base == -10 && Signed(v) < 0 {
      TextSpells(B - v, 10, true);
    } else {
      TextSpells(v, if base == -10 then 10 else base, false);
    }
  }

  lemma ZeroSpells(base: nat)
    requires Base(base)
    ensures Spelled("0", 0, 0, base)
  {
    assert DigitsIn("0", 0, 1) == [0];
    assert Val([0], base) == 0 by { ValAppend([], 0, base); ValNone(base); assert [] + [0] == [0]; }
  }

  lemma SmallDigit(d: nat)
    requires d < 36
    ensures '0' <= DigitChar(d) <= '9' || 'a' <= DigitChar(d) <= 'z'
  {
  }

  lemma TextSpells(v: nat, base: nat, negative: bool)
    requires Base(base) && v > 0
    ensures var s, k := Text(v, base, negative), if negative then 1 else 0;
      Spelled(s, k, v, base) && (negative ==> s[0] == '-')
  {
    hide Text, Val, DigitChar, DigitOf, Chars;
    var s, ds, k: nat := Text(v, base, negative), DigitsOf(v, base), if negative then 1 else 0;
    TextAt(v, base, negative, 0);
    forall i | k <= i < |s| ensures ('0' <= s[i] <= '9' || 'a' <= s[i] <= 'z') && DigitOf(s[i]) == ds[i - k] < base {
      TextAt(v, base, negative, i - k);
      DigitRead(ds[i - k]);
      SmallDigit(ds[i - k]);
    }
    assert DigitsIn(s, k, |s|) == ds;
    ValDigits(v, base);
    TextAt(v, base, negative, 0);
    DigitRead(ds[0]);
  }
}
