/** The three versions of rotate.  All of them turn [first, middle) and
    [middle, last) into the second block followed by the first. */
module Rotate {
  import opened Arithmetic

  // ---------- arithmetic ----------

  lemma ModShift(a: int, g: int, z: int)
    requires g > 0
    ensures (a + g * z) % g == a % g
  {
    DivIs(a + g * z, g, a / g + z, a % g);
  }

  function Gcd(m: nat, n: nat): nat
    decreases n
  {
    if n == 0 then m else Gcd(n, m % n)
  }

  method ComputeGcd(m0: nat, n0: nat) returns (m: nat)
    ensures m == Gcd(m0, n0)
  {
    m := m0;
    var n: nat := n0;
    while n != 0
      invariant Gcd(m, n) == Gcd(m0, n0)
      decreases n
    {
      var t: nat := m % n;
      m := n;
      n := t;
    }
  }

  /** Gcd divides both numbers and is a combination of them. */
  lemma {:induction false} GcdMeans(m: nat, n: nat) returns (a: int, b: int, u: int, v: int)
    requires m > 0 || n > 0
    ensures var g := Gcd(m, n); g > 0 && m == g * a && n == g * b && u * m + v * n == g
    decreases n
  {
    if n == 0 {
      a, b, u, v := 1, 0, 1, 0;
    } else {
      var b', r, u', v' := GcdMeans(n, m % n);
      var g, q := Gcd(n, m % n), m / n;
      a, b, u, v := q * b' + r, b', v', u' - v' * q;
      Combine(m, n, g, q, b', r, u', v');
    }
  }

  lemma Combine(m: nat, n: nat, g: int, q: int, b: int, r: int, u: int, v: int)
    requires n > 0 && q == m / n && n == g * b && m % n == g * r && u * n + v * (m % n) == g
    ensures m == g * (q * b + r) && v * m + (u - v * q) * n == g
  {
    assert m == n * q + m % n;
    assert n * q == g * (q * b);
    assert v * m == v * q * n + v * (m % n);
    assert (u - v * q) * n == u * n - v * q * n;
  }

  // ---------- one step of a cycle ----------

  /** The position that is moved to position i. */
  function Next(n: nat, k: nat, i: nat): (j: nat)
    requires 0 < k < n && i < n
    ensures j < n
  {
    if n - i > k then i + k else k - (n - i)
  }

  lemma NextIsMod(n: nat, k: nat, i: nat)
    requires 0 < k < n && i < n
    ensures Next(n, k, i) == (i + k) % n
  {
    if i + k < n { DivIs(i + k, n, 0, i + k); } else { DivIs(i + k, n, 1, i + k - n); }
  }

  lemma NextInjective(n: nat, k: nat, i: nat, j: nat)
    requires 0 < k < n && i < n && j < n && Next(n, k, i) == Next(n, k, j)
    ensures i == j
  {
  }

  /** A step stays in the residue class modulo a common divisor. */
  lemma NextResidue(n: nat, k: nat, i: nat, g: nat, a: int, b: int)
    requires 0 < k < n && i < n && g > 0 && n == g * a && k == g * b
    ensures Next(n, k, i) % g == i % g
  {
    ModShift(i, g, b);
    ModShift(i, g, b - a);
    assert g * (b - a) == k - n;
  }

  ghost predicate Closed(n: nat, k: nat, s: set<nat>)
    requires 0 < k < n
  {
    forall p {:trigger Next(n, k, p)} :: p in s ==> p < n && Next(n, k, p) in s
  }

  lemma StepMod(n: nat, k: nat, x: nat)
    requires n > 0
    ensures (x % n + k) % n == (x + k) % n
  {
    var q, r := x / n, x % n;
    assert x == q * n + r by { DivFacts(x, n); }
    ModShift(r + k, n, q);
  }

  ghost function Walk(n: nat, k: nat, p: nat, t: nat): (q: nat)
    requires 0 < k < n && p < n
    ensures q < n
  {
    if t == 0 then p else Next(n, k, Walk(n, k, p, t - 1))
  }

  lemma {:induction false} WalkStays(n: nat, k: nat, s: set<nat>, p: nat, t: nat)
    requires 0 < k < n && Closed(n, k, s) && p in s && p < n
    ensures Walk(n, k, p, t) in s
  {
    if t > 0 { WalkStays(n, k, s, p, t - 1); }
  }

  lemma MulStep(a: int, c: int)
    ensures a * c == a * (c - 1) + a
  {
  }

  lemma {:induction false} WalkIsMod(n: nat, k: nat, p: nat, t: nat, tk: nat)
    requires 0 < k < n && p < n && tk == t * k
    ensures Walk(n, k, p, t) == (p + tk) % n
  {
    if t == 0 {
      DivIs(p, n, 0, p);
    } else {
      MulStep(k, t);
      var before := (t - 1) * k;
      assert tk == before + k;
      WalkIsMod(n, k, p, t - 1, before);
      NextIsMod(n, k, (p + before) % n);
      StepMod(n, k, p + before);
    }
  }

  lemma Shifted(n: int, k: int, u: int, v: int, m: int, g: int)
    requires u * n + v * k == g
    ensures (v + n * m) * k == g + n * (m * k - u)
  {
    assert (v + n * m) * k == v * k + n * (m * k);
    assert n * (m * k - u) == n * (m * k) - u * n;
  }

  lemma AtLeast(n: int, v: int, m: int)
    requires n >= 1 && m >= 0 && m >= -v
    ensures v + n * m >= 0
  {
    assert n * m == m + (n - 1) * m;
    assert (n - 1) * m >= 0;
  }

  lemma NonNegative(w: int, k: int)
    requires w >= 0 && k >= 0
    ensures w * k >= 0
  {
  }

  /** Some number of steps moves every position by gcd(n, k). */
  lemma GcdSteps(n: nat, k: nat) returns (w: nat, z: int)
    requires 0 < k < n
    ensures w * k == Gcd(n, k) + n * z
  {
    var a, b, u, v := GcdMeans(n, k);
    var m := if v < 0 then -v else 0;
    AtLeast(n, v, m);
    w, z := v + n * m, m * k - u;
    Shifted(n, k, u, v, m, Gcd(n, k));
  }

  /** A closed set that contains p contains p + gcd(n, k) as well. */
  lemma ClosedByGcd(n: nat, k: nat, s: set<nat>, p: nat)
    requires 0 < k < n && Closed(n, k, s) && p in s && p + Gcd(n, k) < n
    ensures p + Gcd(n, k) in s
  {
    var w, z := GcdSteps(n, k);
    NonNegative(w, k);
    var wk := w * k;
    WalkStays(n, k, s, p, w);
    WalkIsMod(n, k, p, w, wk);
    ModShift(p + Gcd(n, k), n, z);
    DivIs(p + Gcd(n, k), n, 0, p + Gcd(n, k));
  }

  /** So it contains the whole residue class from p on. */
  lemma {:induction false} ClosedResidue(n: nat, k: nat, s: set<nat>, p: nat, c: nat, q: nat)
    requires 0 < k < n && Closed(n, k, s) && p in s && q == p + Gcd(n, k) * c && q < n
    ensures q in s
  {
    if c > 0 {
      MulStep(Gcd(n, k), c);
      NonNegative(Gcd(n, k), c - 1);
      var before := Gcd(n, k) * (c - 1);
      ClosedResidue(n, k, s, p, c - 1, p + before);
      ClosedByGcd(n, k, s, p + before);
    }
  }

  // ---------- random-access version: gcd(n, k) cycles ----------

  /** Array index i after the positions in `cycle` other than cur were filled:
      each with what its successor held before. */
  ghost predicate Filled<T>(before: seq<T>, after: seq<T>, first: nat, n: nat, k: nat, cycle: set<nat>, cur: int, i: nat)
    requires 0 < k < n && first + n <= |before| == |after|
  {
    i < |before| ==>
      after[i] == if first <= i < first + n && i - first in cycle && i - first != cur
                  then before[first + Next(n, k, i - first)] else before[i]
  }

  ghost predicate AllFilled<T>(before: seq<T>, after: seq<T>, first: nat, n: nat, k: nat, cycle: set<nat>, cur: int)
    requires 0 < k < n && first + n <= |before| == |after|
  {
    forall i {:trigger Filled(before, after, first, n, k, cycle, cur, i)} ::
      Filled(before, after, first, n, k, cycle, cur, i)
  }

  lemma FillNext<T>(before: seq<T>, after: seq<T>, first: nat, n: nat, k: nat, cycle: set<nat>, cur: nat)
    requires 0 < k < n && first + n <= |before| == |after| && cur < n && cur in cycle
    requires AllFilled(before, after, first, n, k, cycle, cur) && Next(n, k, cur) !in cycle
    ensures var next := Next(n, k, cur);
      AllFilled(before, after[first + cur := after[first + next]], first, n, k, cycle + {next}, next)
  {
    var next := Next(n, k, cur);
    var after' := after[first + cur := after[first + next]];
    forall i: nat ensures Filled(before, after', first, n, k, cycle + {next}, next, i) {
      assert Filled(before, after, first, n, k, cycle, cur, i);
      assert Filled(before, after, first, n, k, cycle, cur, first + next);
    }
  }

  lemma FillLast<T>(before: seq<T>, after: seq<T>, first: nat, n: nat, k: nat, cycle: set<nat>, cur: nat)
    requires 0 < k < n && first + n <= |before| == |after| && cur < n && cur in cycle
    requires AllFilled(before, after, first, n, k, cycle, cur)
    ensures AllFilled(before, after[first + cur := before[first + Next(n, k, cur)]], first, n, k, cycle, -1)
  {
    var after' := after[first + cur := before[first + Next(n, k, cur)]];
    forall i: nat ensures Filled(before, after', first, n, k, cycle, -1, i) {
      assert Filled(before, after, first, n, k, cycle, cur, i);
    }
  }

  /** Positions visited so far by the cycle from init; cur is the hole. */
  ghost predicate Visiting(n: nat, k: nat, visited: set<nat>, init: nat, cur: nat)
    requires 0 < k < n
  {
    && init in visited && cur in visited
    && (forall p {:trigger p in visited} :: p in visited ==> p < n)
    && (forall p {:trigger Next(n, k, p)} :: p in visited && p != cur ==> Next(n, k, p) in visited)
  }

  ghost predicate HasSource(n: nat, k: nat, visited: set<nat>, cur: nat, q: nat)
    requires 0 < k < n
  {
    exists p: nat :: p in visited && p != cur && p < n && Next(n, k, p) == q
  }

  /** Every position visited, other than the first, is the successor of another one. */
  ghost predicate Grounded(n: nat, k: nat, visited: set<nat>, init: nat, cur: nat)
    requires 0 < k < n
  {
    forall q: nat {:trigger HasSource(n, k, visited, cur, q)} ::
      q in visited && q != init ==> HasSource(n, k, visited, cur, q)
  }

  lemma NotVisited(n: nat, k: nat, visited: set<nat>, init: nat, cur: nat)
    requires 0 < k < n && Visiting(n, k, visited, init, cur) && Grounded(n, k, visited, init, cur) && cur < n
    requires Next(n, k, cur) != init
    ensures Next(n, k, cur) !in visited
  {
    var q := Next(n, k, cur);
    if q in visited {
      assert HasSource(n, k, visited, cur, q);
      var p: nat :| p in visited && p != cur && p < n && Next(n, k, p) == q;
      NextInjective(n, k, p, cur);
    }
  }

  lemma {:induction false} FewPositions(s: set<nat>, n: nat)
    requires forall p :: p in s ==> p < n
    ensures |s| <= n
  {
    if n > 0 { FewPositions(s - {n - 1}, n - 1); }
    else { assert s == {}; }
  }

  /** The state of a cycle: the positions visited lie in one residue class, all of
      them but the hole cur are filled, and the rest of the array is untouched. */
  ghost predicate CycleState<T>(before: seq<T>, after: seq<T>, first: nat, n: nat, k: nat, g: nat,
                                init: nat, cycle: set<nat>, cur: nat)
  {
    && 0 < k < n && g == Gcd(n, k) && init < g && first + n <= |before| == |after| && cur < n
    && Visiting(n, k, cycle, init, cur) && Grounded(n, k, cycle, init, cur)
    && AllFilled(before, after, first, n, k, cycle, cur)
    && SameResidue(g, init, cycle)
  }

  lemma CycleStart<T>(before: seq<T>, first: nat, n: nat, k: nat, g: nat, init: nat)
    requires 0 < k < n && g == Gcd(n, k) && init < g && init < n && first + n <= |before|
    ensures CycleState(before, before, first, n, k, g, init, {init}, init)
  {
    SameResidueFirst(g, init);
  }

  lemma CycleStep<T>(before: seq<T>, after: seq<T>, first: nat, n: nat, k: nat, g: nat,
                     init: nat, cycle: set<nat>, cur: nat)
    requires CycleState(before, after, first, n, k, g, init, cycle, cur) && Next(n, k, cur) != init
    ensures var next := Next(n, k, cur);
      CycleState(before, after[first + cur := after[first + next]], first, n, k, g, init, cycle + {next}, next)
    ensures |cycle| < |cycle + {Next(n, k, cur)}| <= n
  {
    NotVisited(n, k, cycle, init, cur);
    FillNext(before, after, first, n, k, cycle, cur);
    VisitNext(n, k, cycle, init, cur);
    SameResidueNext(n, k, g, init, cycle, cur);
    FewPositions(cycle + {Next(n, k, cur)}, n);
  }

  lemma CycleEnd<T>(before: seq<T>, after: seq<T>, first: nat, n: nat, k: nat, g: nat,
                    init: nat, cycle: set<nat>, cur: nat)
    requires CycleState(before, after, first, n, k, g, init, cycle, cur) && Next(n, k, cur) == init
    ensures AllFilled(before, after[first + cur := before[first + init]], first, n, k, cycle, -1)
    ensures WholeClass(n, g, init, cycle)
  {
    FillLast(before, after, first, n, k, cycle, cur);
    assert Closed(n, k, cycle);
    InClass(n, k, g, cycle, init);
  }

  /** The cycle from init fills exactly the residue class of init modulo the gcd. */
  method RotateCycle<T>(a: array<T>, first: nat, n: nat, init: nat, k: nat, ghost g: nat) returns (ghost cycle: set<nat>)
    requires 0 < k < n && first + n <= a.Length && g == Gcd(n, k) && init < g && init + k < n
    modifies a
    ensures WholeClass(n, g, init, cycle)
    ensures AllFilled(old(a[..]), a[..], first, n, k, cycle, -1)
  {
    var value := a[first + init];
    var p1: nat := init;
    var p2: nat := p1 + k;
    cycle := {init};
    ghost var before := a[..];
    CycleStart(before, first, n, k, g, init);
    while p2 != init
      invariant p1 < n && p2 == Next(n, k, p1)
      invariant CycleState(before, a[..], first, n, k, g, init, cycle, p1) && |cycle| <= n
      decreases n - |cycle|
    {
      CycleStep(before, a[..], first, n, k, g, init, cycle, p1);
      ghost var was := a[..];
      a[first + p1] := a[first + p2];
      assert a[..] == was[first + p1 := was[first + p2]];
      cycle := cycle + {p2};
      p1 := p2;
      if n - p2 > k {
        p2 := p2 + k;
      } else {
        p2 := k - (n - p2);
      }
    }
    CycleEnd(before, a[..], first, n, k, g, init, cycle, p1);
    ghost var was := a[..];
    a[first + p1] := value;
    assert a[..] == was[first + p1 := before[first + init]];
  }

  lemma VisitNext(n: nat, k: nat, cycle: set<nat>, init: nat, cur: nat)
    requires 0 < k < n && cur < n && Visiting(n, k, cycle, init, cur) && Grounded(n, k, cycle, init, cur)
    requires Next(n, k, cur) !in cycle
    ensures var next := Next(n, k, cur);
      Visiting(n, k, cycle + {next}, init, next) && Grounded(n, k, cycle + {next}, init, next)
    ensures forall p :: p in cycle + {Next(n, k, cur)} ==> p < n
    ensures |cycle + {Next(n, k, cur)}| == |cycle| + 1
  {
    var next := Next(n, k, cur);
    forall q: nat | q in cycle + {next} && q != init
      ensures HasSource(n, k, cycle + {next}, next, q)
    {
      if q == next {
        assert cur in cycle + {next};
      } else {
        assert HasSource(n, k, cycle, cur, q);
        var p: nat :| p in cycle && p != cur && p < n && Next(n, k, p) == q;
        assert p in cycle + {next};
      }
    }
  }

  ghost function Residue(p: nat, g: nat): nat requires g > 0 { p % g }

  ghost predicate SameResidue(g: nat, r: nat, cycle: set<nat>)
    requires g > 0
  {
    forall p {:trigger Residue(p, g)} :: p in cycle ==> Residue(p, g) == r
  }

  lemma SameResidueFirst(g: nat, init: nat)
    requires init < g
    ensures SameResidue(g, init, {init})
  {
    DivIs(init, g, 0, init);
  }

  lemma SameResidueNext(n: nat, k: nat, g: nat, r: nat, cycle: set<nat>, cur: nat)
    requires 0 < k < n && g == Gcd(n, k) && g > 0
    requires SameResidue(g, r, cycle) && cur in cycle && cur < n
    ensures SameResidue(g, r, cycle + {Next(n, k, cur)})
  {
    var a, b, u, v := GcdMeans(n, k);
    NextResidue(n, k, cur, g, a, b);
    assert Residue(cur, g) == r;
  }

  /** The cycle is exactly the residue class r. */
  ghost predicate WholeClass(n: nat, g: nat, r: nat, cycle: set<nat>)
    requires g > 0
  {
    forall p: nat {:trigger Residue(p, g)} :: p < n ==> (p in cycle <==> Residue(p, g) == r)
  }

  lemma WholePart(p: nat, g: nat)
    requires g > 0
    ensures p == Residue(p, g) + g * (p / g) && p / g >= 0
  {
  }

  lemma InClass(n: nat, k: nat, g: nat, cycle: set<nat>, init: nat)
    requires 0 < k < n && g == Gcd(n, k) && init < g && init in cycle && Closed(n, k, cycle)
    requires SameResidue(g, init, cycle)
    ensures WholeClass(n, g, init, cycle)
  {
    forall p: nat | p < n && Residue(p, g) == init ensures p in cycle {
      WholePart(p, g);
      ClosedResidue(n, k, cycle, init, p / g, p);
    }
  }

  /** The classes from j on have been moved. */
  ghost predicate ClassesMoved<T>(before: seq<T>, after: seq<T>, first: nat, n: nat, k: nat, g: nat, j: nat, i: nat)
    requires 0 < k < n && first + n <= |before| == |after| && g > 0
  {
    i < |before| ==>
      after[i] == if first <= i < first + n && Residue(i - first, g) >= j
                  then before[first + Next(n, k, i - first)] else before[i]
  }

  lemma NextClass<T>(before: seq<T>, middle: seq<T>, after: seq<T>, first: nat, n: nat, k: nat, g: nat, j: nat, cycle: set<nat>)
    requires 0 < k < n && first + n <= |before| == |middle| == |after| && g == Gcd(n, k) && j < g
    requires forall i: nat {:trigger ClassesMoved(before, middle, first, n, k, g, j + 1, i)} ::
      ClassesMoved(before, middle, first, n, k, g, j + 1, i)
    requires AllFilled(middle, after, first, n, k, cycle, -1)
    requires WholeClass(n, g, j, cycle)
    ensures forall i: nat {:trigger ClassesMoved(before, after, first, n, k, g, j, i)} ::
      ClassesMoved(before, after, first, n, k, g, j, i)
  {
    var a, b, u, v := GcdMeans(n, k);
    forall i: nat ensures ClassesMoved(before, after, first, n, k, g, j, i) {
      assert Filled(middle, after, first, n, k, cycle, -1, i);
      assert ClassesMoved(before, middle, first, n, k, g, j + 1, i);
      if first <= i < first + n {
        NextResidue(n, k, i - first, g, a, b);
        assert ClassesMoved(before, middle, first, n, k, g, j + 1, first + Next(n, k, i - first));
      }
    }
  }

  lemma AllMoved<T>(before: seq<T>, after: seq<T>, first: nat, n: nat, k: nat, g: nat)
    requires 0 < k < n && first + n <= |before| == |after| && g > 0
    requires forall i: nat {:trigger ClassesMoved(before, after, first, n, k, g, 0, i)} ::
      ClassesMoved(before, after, first, n, k, g, 0, i)
    ensures after == before[..first] + before[first + k..first + n] + before[first..first + k] + before[first + n..]
  {
    var t := before[..first] + before[first + k..first + n] + before[first..first + k] + before[first + n..];
    assert |t| == |after|;
    forall i: nat | i < |after| ensures after[i] == t[i] {
      assert ClassesMoved(before, after, first, n, k, g, 0, i);
    }
  }

  /** What all versions do to the array. */
  ghost function Rotated<T>(s: seq<T>, first: nat, middle: nat, last: nat): (t: seq<T>)
    requires first <= middle <= last <= |s|
    ensures |t| == |s|
  {
    s[..first] + s[middle..last] + s[first..middle] + s[last..]
  }

  /** Every element comes from as many places further on, around the range. */
  lemma RotatedAt<T>(s: seq<T>, first: nat, middle: nat, last: nat, i: nat)
    requires first <= middle <= last <= |s| && first <= i < last
    ensures Rotated(s, first, middle, last)[i] == s[first + (i - first + (middle - first)) % (last - first)]
  {
    var j, k, n: nat := i - first, middle - first, last - first;
    if j + k < n { DivIs(j + k, n, 0, j + k); } else { DivIs(j + k, n, 1, j + k - n); }
  }

  method RotateByCycles<T>(a: array<T>, first: nat, middle: nat, last: nat)
    requires first < middle < last <= a.Length
    modifies a
    ensures a[..] == Rotated(old(a[..]), first, middle, last)
  {
    ghost var before := a[..];
    var n: nat := last - first;
    var k: nat := middle - first;
    ghost var c, d, u, v := GcdMeans(n, k);
    var g := ComputeGcd(n, k);
    GcdFits(n, k, g, c, d);
    var j: nat := g;
    forall i: nat ensures ClassesMoved(before, a[..], first, n, k, g, j, i) {}
    while j > 0
      invariant j <= g
      invariant forall i: nat {:trigger ClassesMoved(before, a[..], first, n, k, g, j, i)} ::
        ClassesMoved(before, a[..], first, n, k, g, j, i)
    {
      ghost var middle := a[..];
      j := j - 1;
      ghost var cycle := RotateCycle(a, first, n, j, k, g);
      NextClass(before, middle, a[..], first, n, k, g, j, cycle);
    }
    AllMoved(before, a[..], first, n, k, g);
  }

  lemma GcdFits(n: nat, k: nat, g: nat, c: int, d: int)
    requires 0 < k < n && g > 0 && n == g * c && k == g * d
    ensures g <= k && g <= n - k
  {
    assert n - k == g * (c - d);
    MulBound(g, d);
    MulBound(g, c - d);
    assert d == 0 ==> g * d == 0;
    assert c == d ==> g * c == g * d;
  }

  /** rotate returns early on an empty block, which the cycles could not handle. */
  method Rotate<T>(a: array<T>, first: nat, middle: nat, last: nat)
    requires first <= middle <= last <= a.Length
    modifies a
    ensures a[..] == Rotated(old(a[..]), first, middle, last)
  {
    if first == middle || middle == last {
      assert a[..] == Rotated(a[..], first, middle, last);
      return;
    }
    RotateByCycles(a, first, middle, last);
  }

  // ---------- forward-iterator version: swapping along ----------

  /** The blocks [f, m), [m, i) and [i, last) still have to be put in the order third, second, first. */
  ghost predicate StillToDo<T>(goal: seq<T>, s: seq<T>, f: nat, m: nat, i: nat, last: nat) {
    && f <= m <= i <= last <= |s| == |goal|
    && goal == s[..f] + s[i..last] + s[m..i] + s[f..m] + s[last..]
  }

  lemma AllToDo<T>(s: seq<T>, f: nat, m: nat, last: nat)
    requires f <= m <= last <= |s|
    ensures StillToDo(Rotated(s, f, m, last), s, f, m, m, last)
  {
    assert s[m..m] == [];
  }

  lemma SwapAlong<T>(goal: seq<T>, s: seq<T>, f: nat, m: nat, i: nat, last: nat)
    requires StillToDo(goal, s, f, m, i, last) && f < m && i < last
    ensures StillToDo(goal, s[f := s[i]][i := s[f]], f + 1, m, i + 1, last)
  {
    var t := s[f := s[i]][i := s[f]];
    assert t[..f + 1] == s[..f] + [s[i]];
    assert s[i..last] == [s[i]] + s[i + 1..last];
    assert t[i + 1..last] == s[i + 1..last];
    assert t[m..i + 1] == s[m..i] + [s[f]];
    assert s[f..m] == [s[f]] + s[f + 1..m];
    assert t[f + 1..m] == s[f + 1..m];
    assert t[last..] == s[last..];
  }

  lemma NextBlock<T>(goal: seq<T>, s: seq<T>, f: nat, m: nat, i: nat, last: nat)
    requires StillToDo(goal, s, f, m, i, last)
    ensures f == m ==> StillToDo(goal, s, f, i, i, last)
    ensures i == last ==> StillToDo(goal, s, f, m, m, last)
    ensures f == m && i == last ==> goal == s
  {
    assert s == s[..f] + s[f..m] + s[m..i] + s[i..last] + s[last..];
  }

  method SwapOne<T>(a: array<T>, ghost goal: seq<T>, f: nat, ghost m: nat, i: nat, ghost last: nat)
    requires StillToDo(goal, a[..], f, m, i, last) && f < m <= i < last <= a.Length
    modifies a
    ensures StillToDo(goal, a[..], f + 1, m, i + 1, last)
  {
    hide StillToDo;
    ghost var s := a[..];
    SwapAlong(goal, s, f, m, i, last);
    a[f], a[i] := a[i], a[f];
    assert a[..] == s[f := s[i]][i := s[f]];
  }

  method RotateForward<T>(a: array<T>, first0: nat, middle0: nat, last: nat)
    requires first0 < middle0 < last <= a.Length
    modifies a
    ensures a[..] == Rotated(old(a[..]), first0, middle0, last)
  {
    hide Rotated, StillToDo;
    var first, middle, i := first0, middle0, middle0;
    ghost var goal := Rotated(a[..], first, middle, last);
    AllToDo(a[..], first, middle, last);
    while true
      invariant first < middle <= i < last && StillToDo(goal, a[..], first, middle, i, last)
      decreases last - first
    {
      SwapOne(a, goal, first, middle, i, last);
      first := first + 1;
      i := i + 1;
      NextBlock(goal, a[..], first, middle, i, last);
      if first == middle {
        if i == last { return; }
        middle := i;
      } else if i == last {
        i := middle;
      }
    }
  }

  // ---------- bidirectional version: three reversals ----------

  function Backwards<T>(s: seq<T>): (r: seq<T>)
    ensures |r| == |s|
  {
    if s == [] then [] else Backwards(s[1..]) + [s[0]]
  }

  lemma {:induction false} BackwardsAt<T>(s: seq<T>, i: nat)
    requires i < |s|
    ensures Backwards(s)[i] == s[|s| - 1 - i]
  {
    if i < |s| - 1 { BackwardsAt(s[1..], i); }
  }

  lemma {:induction false} BackwardsConcat<T>(s: seq<T>, t: seq<T>)
    ensures Backwards(s + t) == Backwards(t) + Backwards(s)
  {
    if s == [] {
      assert s + t == t;
    } else {
      assert (s + t)[1..] == s[1..] + t;
      BackwardsConcat(s[1..], t);
    }
  }

  lemma {:induction false} BackwardsTwice<T>(s: seq<T>)
    ensures Backwards(Backwards(s)) == s
  {
    if s != [] {
      BackwardsConcat(Backwards(s[1..]), [s[0]]);
      BackwardsTwice(s[1..]);
    }
  }

  /** [first, last) of s reversed. */
  ghost function ReversedPart<T>(s: seq<T>, first: nat, last: nat): (t: seq<T>)
    requires first <= last <= |s|
    ensures |t| == |s|
  {
    s[..first] + Backwards(s[first..last]) + s[last..]
  }

  lemma {:induction false} ReversedMiddle<T>(p: seq<T>, x: seq<T>, q: seq<T>)
    ensures ReversedPart(p + x + q, |p|, |p| + |x|) == p + Backwards(x) + q
  {
    var s := p + x + q;
    assert s[..|p|] == p && s[|p|..|p| + |x|] == x && s[|p| + |x|..] == q;
  }

  lemma Assoc<T>(a: seq<T>, b: seq<T>, c: seq<T>)
    ensures (a + b) + c == a + (b + c)
  {
  }

  lemma FourParts<T>(s: seq<T>, first: nat, middle: nat, last: nat)
    requires first <= middle <= last <= |s|
    ensures s == s[..first] + s[first..middle] + (s[middle..last] + s[last..])
  {
  }

  /** Reversing both blocks and then the whole exchanges them. */
  lemma ThreeReversals<T>(s: seq<T>, first: nat, middle: nat, last: nat)
    requires first <= middle <= last <= |s|
    ensures ReversedPart(ReversedPart(ReversedPart(s, first, middle), middle, last), first, last)
         == Rotated(s, first, middle, last)
  {
    hide Backwards, ReversedPart;
    var p, x, y, q := s[..first], s[first..middle], s[middle..last], s[last..];
    var x', y' := Backwards(x), Backwards(y);
    FourParts(s, first, middle, last);
    ReversedMiddle(p, x, y + q);
    Assoc(p + x', y, q);
    ReversedMiddle(p + x', y, q);
    Assoc(p, x', y');
    ReversedMiddle(p, x' + y', q);
    BackwardsConcat(x', y');
    BackwardsTwice(x);
    BackwardsTwice(y);
    Assoc(p, y, x);
  }

  method Reverse<T>(a: array<T>, first0: nat, last0: nat)
    requires first0 <= last0 <= a.Length
    modifies a
    ensures a[..] == ReversedPart(old(a[..]), first0, last0)
  {
    var first, last := first0, last0;
    ghost var s := a[..];
    while first < last
      invariant first0 <= first <= last + 1 <= last0 + 1 && first - first0 == last0 - last
      invariant forall j {:trigger a[j]} :: 0 <= j < a.Length ==>
        a[j] == if first0 <= j < last0 && !(first <= j < last) then s[first0 + last0 - 1 - j] else s[j]
    {
      last := last - 1;
      a[first], a[last] := a[last], a[first];
      first := first + 1;
    }
    ghost var t := ReversedPart(s, first0, last0);
    forall j | 0 <= j < |s| ensures a[j] == t[j] {
      if first0 <= j < last0 { BackwardsAt(s[first0..last0], j - first0); }
    }
  }

  method RotateByReversal<T>(a: array<T>, first: nat, middle: nat, last: nat)
    requires first <= middle <= last <= a.Length
    modifies a
    ensures a[..] == Rotated(old(a[..]), first, middle, last)
  {
    ThreeReversals(a[..], first, middle, last);
    Reverse(a, first, middle);
    Reverse(a, middle, last);
    Reverse(a, first, last);
  }
}
