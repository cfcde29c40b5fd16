/** The block exchange of the argument scanner (getopt_long.c): two adjacent
    blocks of an array are swapped in place by gcd-many rotation cycles. */
module PermuteArgs {

  ghost predicate Divides(d: int, a: int)
    requires d > 0
  {
    a % d == 0
  }

  // ---- modular arithmetic used by the cycle argument ----

  /** A quotient and a remainder in range determine division. */
  lemma DivModUnique(a: int, n: int, q: int, r: int)
    requires n > 0 && 0 <= r < n && a == q * n + r
    ensures a / n == q && a % n == r
  {
    var d := a / n - q;
    assert a == (a / n) * n + a % n;
    assert d * n == r - a % n;
    assert d > 0 ==> d * n >= n;
    assert d < 0 ==> d * n <= -n;
  }

  lemma ModShift(a: int, n: int, k: int)
    requires n > 0
    ensures (a + k * n) % n == a % n
  {
    DivModUnique(a + k * n, n, a / n + k, a % n);
  }

  lemma DivisibleExact(a: int, n: int)
    requires n > 0 && a % n == 0
    ensures a == (a / n) * n
  {
  }

  lemma MultipleDivisible(k: int, n: int)
    requires n > 0
    ensures (k * n) % n == 0 && (k * n) / n == k
  {
    DivModUnique(k * n, n, k, 0);
  }

  /** Equal remainders mean a difference that is a multiple. */
  lemma ModEqualDifference(a: int, b: int, n: int)
    requires n > 0
    ensures a % n == b % n <==> (a - b) % n == 0
  {
    if a % n == b % n {
      assert a - b == (a / n - b / n) * n;
      MultipleDivisible(a / n - b / n, n);
    }
    if (a - b) % n == 0 {
      DivisibleExact(a - b, n);
      ModShift(b, n, (a - b) / n);
    }
  }

  lemma DividesCombination(d: int, a: int, b: int, x: int, y: int)
    requires d > 0 && Divides(d, a) && Divides(d, b)
    ensures Divides(d, x * a + y * b)
  {
    var p, q := a / d, b / d;
    assert a == p * d && b == q * d;
    assert x * a + y * b == (x * p + y * q) * d by {
      assert x * (p * d) == (x * p) * d;
      assert y * (q * d) == (y * q) * d;
    }
    MultipleDivisible(x * p + y * q, d);
  }

  /** g is the greatest common divisor of a and b: it divides both and is an
      integer combination of both, so every common divisor divides it. */
  ghost predicate IsGcd(g: int, a: int, b: int)
  {
    g > 0 && Divides(g, a) && Divides(g, b)
    && forall d :: d > 0 && Divides(d, a) && Divides(d, b) ==> Divides(d, g)
  }

  /** One remainder step rewrites both ways of expressing values over the pair (u, v). */
  lemma RemainderStep(a: int, b: int, u: int, v: int, q: int, p1: int, p2: int)
    requires a == p1 * u + p2 * v
    ensures a == (p1 * q + p2) * v + p1 * (u - q * v)
  {
  }

  lemma CombineStep(a: int, b: int, xu: int, yu: int, xv: int, yv: int, q: int)
    ensures (xu * a + yu * b) - q * (xv * a + yv * b) == (xu - q * xv) * a + (yu - q * yv) * b
  {
    assert q * (xv * a + yv * b) == q * xv * a + q * yv * b;
  }

  /** The remainder loop of `gcd`; the ghost results are Bezout coefficients. */
  method Gcd(a: int, b: int) returns (g: int, ghost x: int, ghost y: int)
    requires a >= 0 && b > 0
    ensures IsGcd(g, a, b)
    ensures g == x * a + y * b
  {
    var u, v := a, b;
    var c := u % v;
    ghost var xu, yu, xv, yv := 1, 0, 0, 1;    // u and v over a and b
    ghost var pa, qa, pb, qb := 1, 0, 0, 1;    // a and b over u and v
    while c != 0
      invariant u >= 0 && v > 0 && c == u % v
      invariant u == xu * a + yu * b && v == xv * a + yv * b
      invariant a == pa * u + qa * v && b == pb * u + qb * v
      decreases v
    {
      ghost var q := u / v;
      assert c == u - q * v;
      CombineStep(a, b, xu, yu, xv, yv, q);
      RemainderStep(a, b, u, v, q, pa, qa);
      RemainderStep(b, a, u, v, q, pb, qb);
      xu, yu, xv, yv := xv, yv, xu - q * xv, yu - q * yv;
      pa, qa, pb, qb := pa * q + qa, pa, pb * q + qb, pb;
      u := v;
      v := c;
      c := u % v;
    }
    g, x, y := v, xv, yv;
    CombinationIsGcd(a, b, u, v, pa, qa, pb, qb, xv, yv);
  }

  lemma CombinationIsGcd(a: int, b: int, u: int, v: int, pa: int, qa: int, pb: int, qb: int, x: int, y: int)
    requires v > 0 && u % v == 0
    requires a == pa * u + qa * v && b == pb * u + qb * v && v == x * a + y * b
    ensures IsGcd(v, a, b)
  {
    MultipleDivisible(1, v);
    DividesCombination(v, u, v, pa, qa);
    DividesCombination(v, u, v, pb, qb);
    forall d | d > 0 && Divides(d, a) && Divides(d, b)
      ensures Divides(d, v)
    {
      DividesCombination(d, a, b, x, y);
    }
  }

  // ---- the cycles ----

  /** Where cycle i stands after j steps, relative to the first block: it starts
      i places into the second block and each step moves by -n modulo n + m. */
  ghost function Pos(n: int, m: int, i: int, j: int): (p: int)
    requires n > 0 && m > 0
    ensures 0 <= p < n + m
  {
    (n + i + j * m) % (n + m)
  }

  lemma PosFirst(n: int, m: int, i: int)
    requires n > 0 && m > 0 && 0 <= i < m
    ensures Pos(n, m, i, 0) == n + i
  {
    DivModUnique(n + i, n + m, 0, n + i);
  }

  /** One C step (`pos >= panonopt_end ? pos -= nnonopts : pos += nopts`) is one step of Pos. */
  lemma PosNext(n: int, m: int, i: int, j: int)
    requires n > 0 && m > 0
    ensures var p := Pos(n, m, i, j);
            Pos(n, m, i, j + 1) == if p >= n then p - n else p + m
  {
    var N := n + m;
    var s := n + i + j * m;
    var p := s % N;
    assert n + i + (j + 1) * m == s + m;
    assert s + m == (s / N) * N + p + m;
    if p >= n {
      assert s + m == (s / N + 1) * N + (p - n);
      DivModUnique(s + m, N, s / N + 1, p - n);
    } else {
      DivModUnique(s + m, N, s / N, p + m);
    }
  }

  /** The sum of the block lengths is a whole number of gcds, and one full cycle
      of steps is a whole number of rounds. */
  lemma CycleLength(n: int, m: int, g: int) returns (L: int)
    requires n > 0 && m > 0 && IsGcd(g, n, m)
    ensures L == (n + m) / g && L > 0 && n + m == L * g && L * m == (m / g) * (n + m)
  {
    L := (n + m) / g;
    DividesCombination(g, n, m, 1, 1);
    DivisibleExact(n + m, g);
    DivisibleExact(m, g);
    assert L <= 0 ==> L * g <= 0;
    SwapFactors(L, m / g, g);
  }

  lemma SwapFactors(a: int, b: int, c: int)
    ensures a * (b * c) == b * (a * c)
  {
  }

  /** Bezout over the block lengths, rewritten over their sum. */
  lemma BezoutOverSum(n: int, m: int, g: int, x: int, y: int)
    requires g == x * n + y * m
    ensures g == x * (n + m) + (y - x) * m
  {
  }

  lemma BezoutMultiple(k: int, m: int, N: int, g: int, x: int, z: int, t: int)
    requires g == x * N + z * m && k * m == t * N
    ensures k * g == (k * x + t * z) * N
  {
    calc {
      k * g;
      k * (x * N + z * m);
      (k * x) * N + z * (k * m);
      (k * x) * N + z * (t * N);
      (k * x + t * z) * N;
    }
  }

  /** Positions that coincide differ by a whole number of rounds. */
  lemma PosCoincide(n: int, m: int, i: int, j: int, i': int, j': int) returns (t: int)
    requires n > 0 && m > 0 && Pos(n, m, i, j) == Pos(n, m, i', j')
    ensures i - i' == t * (n + m) - (j - j') * m
  {
    var N := n + m;
    ModEqualDifference(n + i + j * m, n + i' + j' * m, N);
    var D := (n + i + j * m) - (n + i' + j' * m);
    DivisibleExact(D, N);
    t := D / N;
    assert (j - j') * m == j * m - j' * m;
  }

  /** Cycles are pairwise disjoint and none meets itself before n+m over g steps. */
  lemma PosInjective(n: int, m: int, g: int, x: int, y: int, i: int, j: int, i': int, j': int)
    requires n > 0 && m > 0 && IsGcd(g, n, m) && g == x * n + y * m
    requires 0 <= i < g && 0 <= i' < g && 0 <= j < (n + m) / g && 0 <= j' < (n + m) / g
    requires Pos(n, m, i, j) == Pos(n, m, i', j')
    ensures i == i' && j == j'
  {
    var L := CycleLength(n, m, g);
    var t := PosCoincide(n, m, i, j, i', j');
    SameCycle(n, m, g, i, i', j - j', t);
    SameStep(n, m, g, x, y, L, j - j', t);
  }

  lemma SameCycle(n: int, m: int, g: int, i: int, i': int, k: int, t: int)
    requires n > 0 && m > 0 && IsGcd(g, n, m) && 0 <= i < g && 0 <= i' < g
    requires i - i' == t * (n + m) - k * m
    ensures i == i'
  {
    DividesCombination(g, n, m, 1, 1);
    DividesCombination(g, n + m, m, t, -k);
    assert t * (n + m) + (-k) * m == i - i';
    SmallMultiple(i - i', g);
  }

  lemma SameStep(n: int, m: int, g: int, x: int, y: int, L: int, k: int, t: int)
    requires g > 0 && L > 0 && n + m == L * g && g == x * n + y * m && k * m == t * (n + m)
    requires -L < k < L
    ensures k == 0
  {
    BezoutOverSum(n, m, g, x, y);
    BezoutMultiple(k, m, n + m, g, x, y - x, t);
    var z := k * x + t * (y - x);
    assert k * g == (z * L) * g by {
      assert z * (L * g) == (z * L) * g;
    }
    CancelFactor(k, z * L, g);
    MultipleDivisible(z, L);
    SmallMultiple(k, L);
  }

  lemma CancelFactor(a: int, b: int, g: int)
    requires g > 0 && a * g == b * g
    ensures a == b
  {
    MultipleDivisible(a, g);
    MultipleDivisible(b, g);
  }

  lemma SmallMultiple(d: int, n: int)
    requires n > 0 && d % n == 0 && -n < d < n
    ensures d == 0
  {
  }

  /** After (n+m)/g steps every cycle is back where it started. */
  lemma PosPeriod(n: int, m: int, g: int, i: int)
    requires n > 0 && m > 0 && IsGcd(g, n, m)
    ensures Pos(n, m, i, (n + m) / g) == Pos(n, m, i, 0)
  {
    var L := CycleLength(n, m, g);
    ModShift(n + i, n + m, m / g);
  }

  /** Every position lies on some cycle: the witness solves the congruence with
      the Bezout coefficients. */
  lemma PosOnto(n: int, m: int, g: int, x: int, y: int, q: int) returns (i: int, j: int)
    requires n > 0 && m > 0 && IsGcd(g, n, m) && g == x * n + y * m
    requires 0 <= q < n + m
    ensures 0 <= i < g && 0 <= j < (n + m) / g && Pos(n, m, i, j) == q
  {
    var L := CycleLength(n, m, g);
    i := q % g;
    var t := q / g - n / g;
    QuotientDifference(q, n, g);
    BezoutOverSum(n, m, g, x, y);
    var e := t * (y - x);
    ScaleCombination(t, x, n + m, y - x, m, g);
    j := e % L;
    WholeRounds(e, L, m, m / g, n + m);
    var c := (e / L) * (m / g) + t * x;
    assert q == n + i + j * m + c * (n + m) by {
      assert c * (n + m) == ((e / L) * (m / g)) * (n + m) + (t * x) * (n + m);
    }
    ModShift(n + i + j * m, n + m, c);
    DivModUnique(q, n + m, 0, q);
  }

  lemma QuotientDifference(q: int, n: int, g: int)
    requires g > 0 && Divides(g, n)
    ensures q - n - q % g == (q / g - n / g) * g
  {
    DivisibleExact(n, g);
    assert (q / g - n / g) * g == (q / g) * g - (n / g) * g;
  }

  lemma ScaleCombination(t: int, x: int, N: int, z: int, m: int, g: int)
    requires g == x * N + z * m
    ensures t * g == (t * x) * N + (t * z) * m
  {
    assert t * (x * N + z * m) == t * (x * N) + t * (z * m);
  }

  lemma WholeRounds(e: int, L: int, m: int, d: int, N: int)
    requires L > 0 && L * m == d * N
    ensures e * m == (e % L) * m + ((e / L) * d) * N
  {
    var w, j := e / L, e % L;
    calc {
      e * m;
      (w * L + j) * m;
      w * (L * m) + j * m;
      w * (d * N) + j * m;
      (w * d) * N + j * m;
    }
  }

  /** The relative destination: position q receives what stood n places on, cyclically. */
  ghost function Source(n: int, m: int, q: int): int
  {
    if q < m then q + n else q - m
  }

  lemma SourceOfStep(n: int, m: int, i: int, j: int)
    requires n > 0 && m > 0
    ensures Source(n, m, Pos(n, m, i, j + 1)) == Pos(n, m, i, j)
  {
    PosNext(n, m, i, j);
  }

  /** What the exchange promises: second block, then first block, everything else in place. */
  ghost function Exchanged<T>(s: seq<T>, start: int, mid: int, end: int): seq<T>
    requires 0 <= start <= mid <= end <= |s|
  {
    s[..start] + s[mid..end] + s[start..mid] + s[end..]
  }

  lemma GcdAtMost(g: int, n: int, m: int)
    requires n > 0 && m > 0 && IsGcd(g, n, m)
    ensures g <= m
  {
    DivisibleExact(m, g);
    var k := m / g;
    assert k <= 0 ==> k * g <= 0;
    assert k >= 1 ==> k * g >= g;
  }

  /** The array when cycles 0..i-1 are finished and cycle i has made j of its L steps:
      a visited place holds its final value, the cycle's start holds the value on its
      way to the next place, everything else is untouched. */
  ghost predicate CycleProgress<T>(now: seq<T>, was: seq<T>, start: int, n: int, m: int, g: int, L: int, i: int, j: int)
    requires n > 0 && m > 0 && 0 <= start && start + n + m <= |was| && |now| == |was|
  {
    && (forall q :: 0 <= q < start || start + n + m <= q < |was| ==> now[q] == was[q])
    && (forall c, k {:trigger Pos(n, m, c, k)} :: 0 <= c < g && 0 <= k < L ==>
          var p := Pos(n, m, c, k);
          now[start + p] ==
            if c < i || (c == i && 1 <= k <= j) then was[start + Source(n, m, p)]
            else if c == i && k == 0 && 0 < j then was[start + Pos(n, m, i, if j < L then j else L - 1)]
            else was[start + p])
  }

  /** One swap advances the cycle by one step. */
  lemma SwapAdvances<T>(now: seq<T>, next: seq<T>, was: seq<T>, start: int, n: int, m: int,
                        g: int, x: int, y: int, L: int, i: int, j: int)
    requires n > 0 && m > 0 && IsGcd(g, n, m) && g == x * n + y * m && L == (n + m) / g
    requires 0 <= start && start + n + m <= |was| && |now| == |was|
    requires 0 <= i < g && 0 <= j < L
    requires CycleProgress(now, was, start, n, m, g, L, i, j)
    requires var p, c := start + Pos(n, m, i, j + 1), start + Pos(n, m, i, 0);
             next == now[p := now[c]][c := now[p]]
    ensures CycleProgress(next, was, start, n, m, g, L, i, j + 1)
  {
    var here, home := Pos(n, m, i, j + 1), Pos(n, m, i, 0);
    SourceOfStep(n, m, i, j);
    PosPeriod(n, m, g, i);
    assert now[start + home] == was[start + Pos(n, m, i, j)];
    forall c, k {:trigger Pos(n, m, c, k)} | 0 <= c < g && 0 <= k < L
      ensures var p := Pos(n, m, c, k);
              next[start + p] ==
                if c < i || (c == i && 1 <= k <= j + 1) then was[start + Source(n, m, p)]
                else if c == i && k == 0 && 0 < j + 1 then was[start + Pos(n, m, i, if j + 1 < L then j + 1 else L - 1)]
                else was[start + p]
    {
      var p := Pos(n, m, c, k);
      if p == home {
        PosInjective(n, m, g, x, y, c, k, i, 0);
      }
      if j + 1 < L && p == here {
        PosInjective(n, m, g, x, y, c, k, i, j + 1);
      }
      if j + 1 < L && here == home {
        PosInjective(n, m, g, x, y, i, j + 1, i, 0);
        assert false;
      }
    }
  }

  /** A cycle that made all its steps is finished, its start included. */
  lemma CycleDone<T>(now: seq<T>, was: seq<T>, start: int, n: int, m: int, g: int, L: int, i: int)
    requires n > 0 && m > 0 && IsGcd(g, n, m) && L == (n + m) / g && L > 0
    requires 0 <= start && start + n + m <= |was| && |now| == |was| && 0 <= i < g
    requires CycleProgress(now, was, start, n, m, g, L, i, L)
    ensures CycleProgress(now, was, start, n, m, g, L, i + 1, 0)
  {
    SourceOfStep(n, m, i, L - 1);
    PosPeriod(n, m, g, i);
  }

  lemma AllCyclesDone<T>(now: seq<T>, was: seq<T>, start: int, n: int, m: int, g: int, x: int, y: int, L: int)
    requires n > 0 && m > 0 && IsGcd(g, n, m) && g == x * n + y * m && L == (n + m) / g
    requires 0 <= start && start + n + m <= |was| && |now| == |was|
    requires CycleProgress(now, was, start, n, m, g, L, g, 0)
    ensures now == Exchanged(was, start, start + n, start + n + m)
  {
    var e := Exchanged(was, start, start + n, start + n + m);
    forall q | start <= q < start + n + m
      ensures now[q] == e[q]
    {
      var i, j := PosOnto(n, m, g, x, y, q - start);
      assert Pos(n, m, i, j) == q - start;
    }
  }

  /** The inner loop of `permute_args`: one rotation cycle. */
  method RunCycle<T>(start: int, mid: int, end: int, i: int, cyclelen: int, nargv: array<T>,
                     ghost was: seq<T>, ghost g: int, ghost x: int, ghost y: int)
    requires 0 <= start < mid < end <= nargv.Length == |was|
    requires IsGcd(g, mid - start, end - mid) && g == x * (mid - start) + y * (end - mid)
    requires cyclelen == (end - start) / g && 0 <= i < g
    requires CycleProgress(nargv[..], was, start, mid - start, end - mid, g, cyclelen, i, 0)
    modifies nargv
    ensures CycleProgress(nargv[..], was, start, mid - start, end - mid, g, cyclelen, i + 1, 0)
  {
    hide CycleProgress, IsGcd, Pos;
    ghost var n, m := mid - start, end - mid;
    ghost var L := CycleLength(n, m, g);
    GcdAtMost(g, n, m);
    var cstart := mid + i;
    var pos := cstart;
    PosFirst(n, m, i);
    for j := 0 to cyclelen
      invariant pos == start + Pos(n, m, i, j)
      invariant CycleProgress(nargv[..], was, start, n, m, g, cyclelen, i, j)
    {
      PosNext(n, m, i, j);
      if pos >= mid {
        pos := pos - (mid - start);
      } else {
        pos := pos + (end - mid);
      }
      ghost var now := nargv[..];
      nargv[pos], nargv[cstart] := nargv[cstart], nargv[pos];
      assert nargv[..] == now[pos := now[cstart]][cstart := now[pos]];
      SwapAdvances(now, nargv[..], was, start, n, m, g, x, y, cyclelen, i, j);
    }
    CycleDone(nargv[..], was, start, n, m, g, cyclelen, i);
  }

  /** `permute_args`: exchange the blocks [start, mid) and [mid, end) of nargv. */
  method Permute<T>(start: int, mid: int, end: int, nargv: array<T>)
    requires 0 <= start < mid < end <= nargv.Length
    modifies nargv
    ensures nargv[..] == Exchanged(old(nargv[..]), start, mid, end)
  {
    var nnonopts := mid - start;
    var nopts := end - mid;
    var ncycle, x, y := Gcd(nnonopts, nopts);
    var cyclelen := (end - start) / ncycle;
    ghost var was := nargv[..];
    assert end - start == nnonopts + nopts;
    for i := 0 to ncycle
      invariant CycleProgress(nargv[..], was, start, nnonopts, nopts, ncycle, cyclelen, i, 0)
    {
      RunCycle(start, mid, end, i, cyclelen, nargv, was, ncycle, x, y);
    }
    AllCyclesDone(nargv[..], was, start, nnonopts, nopts, ncycle, x, y, cyclelen);
  }

  /** The exchange keeps the arguments: a permutation that moves nothing outside the two blocks
      and keeps each block's order. */
  lemma ExchangedIsPermutation<T>(s: seq<T>, start: int, mid: int, end: int)
    requires 0 <= start <= mid <= end <= |s|
    ensures multiset(Exchanged(s, start, mid, end)) == multiset(s)
  {
    assert s == s[..start] + s[start..mid] + s[mid..end] + s[end..];
  }
}
