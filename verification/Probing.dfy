/** Triangular group probing: the arithmetic behind `probe_seq`.

    Positions of a table of capacity `cap` form a cycle of `cap + 1` places (the last one
    holds the sentinel). `x & capacity` is reduction to that cycle, because `cap + 1` is a
    power of two. */
module Probing {

  /** n == 2^m for some m. */
  predicate IsPow2(n: nat)
    decreases n
  {
    n == 1 || (n > 1 && n % 2 == 0 && IsPow2(n / 2))
  }

  /** `p & cap`, written as repeated subtraction so that it stays linear. */
  function Wrap(cap: nat, p: nat): (r: nat)
    ensures r <= cap
    ensures p <= cap ==> r == p
    decreases p
  {
    if p <= cap then p else Wrap(cap, p - (cap + 1))
  }

  /** `j * w`, as `probe_seq` adds it up; linear to the verifier. */
  function Times(w: nat, j: nat): nat {
    if j == 0 then 0 else Times(w, j - 1) + w
  }

  lemma {:induction false} TimesProduct(w: nat, j: nat)
    ensures Times(w, j) == j * w
  {
    if j == 0 {
    } else {
      TimesProduct(w, j - 1);
      assert j * w == (j - 1) * w + w;
    }
  }

  lemma {:induction false} TimesSum(w: nat, i: nat, j: nat)
    ensures Times(w, i + j) == Times(w, i) + Times(w, j)
  {
    if j == 0 {
    } else {
      TimesSum(w, i, j - 1);
      assert Times(w, i + j) == Times(w, i + (j - 1)) + w;
    }
  }

  lemma {:induction false} TimesTimes(w: nat, n: nat, k: nat)
    ensures Times(w, Times(n, k)) == Times(Times(w, n), k)
  {
    if k == 0 {
    } else {
      TimesTimes(w, n, k - 1);
      TimesSum(w, Times(n, k - 1), n);
    }
  }

  lemma {:induction false} TimesOrder(w: nat, k: nat, n: nat)
    requires w > 0 && k <= n
    ensures k < n ==> Times(w, k) + w <= Times(w, n)
    ensures k == n <==> Times(w, k) == Times(w, n)
    decreases n - k
  {
    if k == n {
    } else {
      TimesOrder(w, k + 1, n);
    }
  }

  lemma {:induction false} WrapQuotient(cap: nat, p: nat) returns (k: nat)
    ensures p == Wrap(cap, p) + Times(cap + 1, k)
    decreases p
  {
    if p <= cap {
      k := 0;
    } else {
      var k' := WrapQuotient(cap, p - (cap + 1));
      k := k' + 1;
    }
  }

  /** The offset after `j` calls of `probe_seq::next`. */
  function ProbeOffset(h1: nat, cap: nat, w: nat, j: nat): (o: nat)
    ensures o <= cap
  {
    if j == 0 then Wrap(cap, h1) else Wrap(cap, ProbeOffset(h1, cap, w, j - 1) + Times(w, j))
  }

  /** `probe_seq::next` */
  method Next(cap: nat, w: nat, offset: nat, step: nat, ghost h1: nat, ghost j: nat) returns (offset': nat, step': nat)
    requires offset == ProbeOffset(h1, cap, w, j) && step == Times(w, j)
    ensures offset' == ProbeOffset(h1, cap, w, j + 1) && step' == Times(w, j + 1)
  {
    step' := step + w;
    offset' := Wrap(cap, offset + step');
  }

  /** How far `p` lies after `o` on the cycle: `(p - o) & capacity`. */
  function Dist(cap: nat, o: nat, p: nat): (d: nat)
    requires o <= cap && p <= cap
    ensures d <= cap
  {
    if o <= p then p - o else p - o + cap + 1
  }

  // ----- triangular numbers permute the residues of a power of two -----

  /** 0 + 1 + ... + j */
  function Triangular(j: nat): nat {
    if j == 0 then 0 else Triangular(j - 1) + j
  }

  lemma {:induction false} TriangularClosed(j: nat)
    ensures 2 * Triangular(j) == j * (j + 1)
  {
    if j == 0 {
    } else {
      TriangularClosed(j - 1);
    }
  }

  /** Reflecting the index moves the triangular number by half the modulus. */
  lemma {:induction false} TriangularReflect(h: nat, j: nat)
    requires j < h
    ensures Triangular(2 * h - 1 - j) == Triangular(j) + h + (h - j - 1) * (2 * h)
  {
    TriangularClosed(j);
    TriangularClosed(2 * h - 1 - j);
  }

  /** Every residue `r` modulo a power of two is that of a triangular number of an index below it. */
  lemma {:induction false} TriangularOnto(n: nat, r: nat) returns (j: nat, k: nat)
    requires IsPow2(n) && r < n
    ensures j < n && Triangular(j) == r + k * n
    decreases n
  {
    if n == 1 {
      j, k := 0, 0;
    } else {
      var h := n / 2;
      var top := if r < h then 0 else 1;
      j, k := TriangularOnto(h, if r < h then r else r - h);
      j, k := TriangularDouble(h, r, top, j, k);
    }
  }

  /** From an index for the residue of `r` modulo `h` to one modulo `2 * h`. */
  lemma {:induction false} TriangularDouble(h: nat, r: nat, top: nat, i: nat, l: nat) returns (j: nat, k: nat)
    requires i < h && top <= 1 && r >= top * h && Triangular(i) == r - top * h + l * h
    ensures j < 2 * h && Triangular(j) == r + k * (2 * h)
  {
    var m := (l + top) / 2;
    if (l + top) % 2 == 0 {
      j := i;
      k := HalveEven(h, r, top, l, m, Triangular(i));
    } else {
      TriangularReflect(h, i);
      k := HalveOdd(h, r, top, l, m, Triangular(i));
      Distribute(k, h - i - 1, 2 * h);
      j, k := 2 * h - 1 - i, k + (h - i - 1);
    }
  }

  lemma {:induction false} Distribute(a: nat, b: nat, c: nat)
    ensures (a + b) * c == a * c + b * c
  {
  }

  lemma {:induction false} HalveEven(h: nat, r: nat, top: nat, k: nat, m: nat, t: nat) returns (l: nat)
    requires top <= 1 && k + top == 2 * m && r >= top * h && t == r - top * h + k * h
    ensures t == r + l * (2 * h)
  {
    l := m - top;
    assert k * h == (2 * m - top) * h;
  }

  lemma {:induction false} HalveOdd(h: nat, r: nat, top: nat, k: nat, m: nat, t: nat) returns (l: nat)
    requires top <= 1 && k + top == 2 * m + 1 && r >= top * h && t == r - top * h + k * h
    ensures t + h == r + l * (2 * h)
  {
    l := m + 1 - top;
    assert k * h == (2 * m + 1 - top) * h;
  }

  /** Two indices below a power of two never share a triangular residue. */
  lemma {:induction false} TriangularInjective(n: nat, a: nat, b: nat, q: int)
    requires IsPow2(n) && a < n && b < n && Triangular(b) == Triangular(a) + q * n
    ensures a == b
  {
    if a < b {
      TriangularDistinct(n, a, b, q);
    } else if b < a {
      assert (-q) * n == -(q * n);
      TriangularDistinct(n, b, a, -q);
    }
  }

  lemma {:induction false} TriangularDistinct(n: nat, a: nat, b: nat, q: int)
    requires IsPow2(n) && a < b < n
    ensures Triangular(b) != Triangular(a) + q * n
  {
    var d := q * n;
    if Triangular(b) == Triangular(a) + d {
      TriangularDifference(a, b, d);
      DoubleProduct(q, n);
      NotMultiple(b - a, b + a + 1, 2 * n, q, 2 * d);
      assert false;
    }
  }

  lemma {:induction false} NotMultiple(x: nat, y: nat, m: nat, q: int, d: int)
    requires IsPow2(m) && 0 < x < m && 0 < y < m && (x + y) % 2 == 1 && d == q * m
    ensures x * y != d
  {
    NoFactor(x, y, m, q);
  }

  lemma {:induction false} DoubleProduct(q: int, n: int)
    ensures q * (2 * n) == 2 * (q * n)
  {
  }

  lemma {:induction false} TriangularDifference(a: nat, b: nat, d: int)
    requires Triangular(b) == Triangular(a) + d
    ensures (b - a) * (b + a + 1) == 2 * d
  {
    TriangularClosed(a);
    TriangularClosed(b);
    assert (b - a) * (b + a + 1) == b * (b + 1) - a * (a + 1);
  }

  /** A power of two does not divide a product of an odd and a smaller positive factor. */
  lemma {:induction false} NoFactor(x: nat, y: nat, n: nat, q: int)
    requires IsPow2(n) && 0 < x < n && 0 < y < n && (x + y) % 2 == 1
    ensures x * y != q * n
  {
    if x % 2 == 1 {
      OddFactor(y, x, n, q);
    } else {
      OddFactor(x, y, n, q);
    }
  }

  lemma {:induction false} OddFactor(x: nat, y: nat, n: nat, q: int)
    requires IsPow2(n) && 0 < x < n && y % 2 == 1
    ensures x * y != q * n
    decreases n
  {
    var h := n / 2;
    var x', y' := x / 2, y / 2;
    if x * y == q * n {
      assert x * y == x * (2 * y' + 1) == 2 * (x * y') + x;
      assert q * n == q * (2 * h) == 2 * (q * h);
      assert x == 2 * x';
      assert 2 * (x' * y) == x * y;
      OddFactor(x', y, h, q);
      assert false;
    }
  }

  // ----- probe windows -----

  /** Group widths: the portable group has 8 control bytes, the SSE2 group 16. */
  predicate IsWidth(w: nat) {
    w == 8 || w == 16
  }

  lemma {:induction false} WidthIsPow2(w: nat)
    requires IsWidth(w)
    ensures IsPow2(w)
  {
    assert IsPow2(4);
  }

  /** The number of groups of a table in large mode. */
  lemma {:induction false} GroupCount(cap: nat, w: nat) returns (n: nat)
    requires IsPow2(cap + 1) && IsPow2(w) && w <= cap + 1
    ensures IsPow2(n) && Times(w, n) == cap + 1
    decreases w
  {
    if w == 1 {
      n := cap + 1;
      TimesProduct(1, n);
    } else {
      var h := (cap + 1) / 2;
      n := GroupCount(h - 1, w / 2);
      TimesDouble(w / 2, n);
    }
  }

  lemma {:induction false} TimesDouble(w: nat, n: nat)
    ensures Times(2 * w, n) == 2 * Times(w, n)
  {
    if n == 0 {
    } else {
      TimesDouble(w, n - 1);
    }
  }

  /** Closed form of the probe sequence: after `j` steps it is `Triangular(j)` groups further, up to full turns. */
  lemma {:induction false} ProbeOffsetClosed(h1: nat, cap: nat, w: nat, j: nat) returns (k: nat)
    ensures ProbeOffset(h1, cap, w, j) + Times(cap + 1, k) == h1 + Times(w, Triangular(j))
  {
    if j == 0 {
      k := WrapQuotient(cap, h1);
    } else {
      var a := ProbeOffsetClosed(h1, cap, w, j - 1);
      var b := WrapQuotient(cap, ProbeOffset(h1, cap, w, j - 1) + Times(w, j));
      TimesSum(w, Triangular(j - 1), j);
      TimesSum(cap + 1, a, b);
      k := a + b;
    }
  }

  /** Two places a whole number of turns apart, one of them in the first turn and the other in the
      first two. */
  lemma {:induction false} SamePlace(c: nat, x: nat, y: nat, a: nat, b: nat)
    requires x + Times(c, a) == y + Times(c, b) && x < c && y < 2 * c
    ensures x == y || x == y - c
  {
    if b < a {
      TimesSum(c, b, a - b);
      TimesBounds(c, a - b);
    } else {
      TimesSum(c, a, b - a);
      TimesBounds(c, b - a);
    }
  }

  lemma {:induction false} TimesBounds(c: nat, d: nat)
    ensures (d == 0 ==> Times(c, d) == 0) && (d == 1 ==> Times(c, d) == c) && (d > 0 ==> Times(c, d) >= c)
    ensures d > 1 ==> Times(c, d) >= 2 * c
  {
    if d == 0 {
    } else {
      TimesBounds(c, d - 1);
    }
  }

  /** The j-th probe starts `r` groups after the first. */
  lemma {:induction false} ProbeStart(h1: nat, cap: nat, w: nat, n: nat, j: nat, r: nat, k: nat)
    requires w > 0 && Times(w, n) == cap + 1 && r < n && Triangular(j) == r + Times(n, k)
    ensures Times(w, r) + w <= cap + 1
    ensures var x, y := ProbeOffset(h1, cap, w, j), ProbeOffset(h1, cap, w, 0) + Times(w, r);
            x == y || x == y - (cap + 1)
  {
    assert Times(w, r) + w <= cap + 1 by { TimesOrder(w, r, n); }
    var kj := ProbeOffsetClosed(h1, cap, w, j);
    var k0 := WrapQuotient(cap, h1);
    GroupsForward(w, n, r, k);
    SameTurn(cap + 1, ProbeOffset(h1, cap, w, j), Wrap(cap, h1), Times(w, r), kj, k0, k);
  }

  lemma {:induction false} GroupsForward(w: nat, n: nat, r: nat, k: nat)
    ensures Times(w, r + Times(n, k)) == Times(w, r) + Times(Times(w, n), k)
  {
    TimesSum(w, r, Times(n, k));
    TimesTimes(w, n, k);
  }

  lemma {:induction false} SameTurn(c: nat, x: nat, o: nat, b: nat, kj: nat, k0: nat, k: nat)
    requires x + Times(c, kj) == o + Times(c, k0) + b + Times(c, k) && x < c && o < c && b < c
    ensures x == o + b || x == o + b - c
  {
    TimesSum(c, k0, k);
    SamePlace(c, x, o + b, kj, k0 + k);
  }

  /** The j-th window holds exactly the positions of one group counted from the first probe. */
  lemma {:induction false} WindowIsGroup(h1: nat, cap: nat, w: nat, n: nat, j: nat, r: nat, k: nat, p: nat)
    requires w > 0 && Times(w, n) == cap + 1 && r < n && Triangular(j) == r + Times(n, k) && p <= cap
    ensures Dist(cap, ProbeOffset(h1, cap, w, j), p) < w
            <==> Times(w, r) <= Dist(cap, ProbeOffset(h1, cap, w, 0), p) < Times(w, r) + w
  {
    ProbeStart(h1, cap, w, n, j, r, k);
    ShiftedWindow(cap, w, ProbeOffset(h1, cap, w, 0), ProbeOffset(h1, cap, w, j), Times(w, r), p);
  }

  lemma {:induction false} ShiftedWindow(cap: nat, w: nat, o: nat, o': nat, b: nat, p: nat)
    requires o <= cap && o' <= cap && p <= cap && b + w <= cap + 1
    requires o' == o + b || o' == o + b - (cap + 1)
    ensures Dist(cap, o', p) < w <==> b <= Dist(cap, o, p) < b + w
  {
  }

  /** The residue of a triangular number. */
  lemma {:induction false} TriangularResidue(n: nat, j: nat) returns (r: nat, k: nat)
    requires n > 0
    ensures r < n && Triangular(j) == r + Times(n, k)
  {
    r := Wrap(n - 1, Triangular(j));
    k := WrapQuotient(n - 1, Triangular(j));
  }

  /** Every position lies in one of the first `n` windows, from any start. */
  lemma {:induction false} WindowsCover(h1: nat, cap: nat, w: nat, n: nat, p: nat) returns (j: nat)
    requires IsPow2(n) && w > 0 && Times(w, n) == cap + 1 && p <= cap
    ensures j < n && Dist(cap, ProbeOffset(h1, cap, w, j), p) < w
  {
    var r := GroupOf(w, n, Dist(cap, ProbeOffset(h1, cap, w, 0), p));
    var k;
    j, k := TriangularOnto(n, r);
    TimesProduct(n, k);
    WindowIsGroup(h1, cap, w, n, j, r, k, p);
  }

  /** The group of a position at distance `d` from the first probe. */
  lemma {:induction false} GroupOf(w: nat, n: nat, d: nat) returns (r: nat)
    requires d < Times(w, n)
    ensures r < n && Times(w, r) <= d < Times(w, r) + w
    decreases n
  {
    if d < Times(w, n - 1) {
      r := GroupOf(w, n - 1, d);
    } else {
      r := n - 1;
    }
  }

  lemma {:induction false} SameGroup(w: nat, r: nat, s: nat, d: nat)
    requires Times(w, r) <= d < Times(w, r) + w && Times(w, s) <= d < Times(w, s) + w
    ensures r == s
  {
    if r <= s {
      TimesOrder(w, r, s);
    } else {
      TimesOrder(w, s, r);
    }
  }

  /** No position lies in two of the first `n` windows: probing visits every group exactly once. */
  lemma {:induction false} WindowsDisjoint(h1: nat, cap: nat, w: nat, n: nat, p: nat, a: nat, b: nat)
    requires IsPow2(n) && w > 0 && Times(w, n) == cap + 1 && p <= cap && a < n && b < n
    requires Dist(cap, ProbeOffset(h1, cap, w, a), p) < w
    requires Dist(cap, ProbeOffset(h1, cap, w, b), p) < w
    ensures a == b
  {
    var ra, ka := TriangularResidue(n, a);
    var rb, kb := TriangularResidue(n, b);
    assert ra == rb by {
      WindowIsGroup(h1, cap, w, n, a, ra, ka, p);
      WindowIsGroup(h1, cap, w, n, b, rb, kb, p);
      SameGroup(w, ra, rb, Dist(cap, ProbeOffset(h1, cap, w, 0), p));
    }
    SameResidue(n, a, b, ka, kb);
  }

  lemma {:induction false} SameResidue(n: nat, a: nat, b: nat, ka: nat, kb: nat)
    requires IsPow2(n) && a < n && b < n && Triangular(a) - Times(n, ka) == Triangular(b) - Times(n, kb)
    ensures a == b
  {
    TimesProduct(n, ka);
    TimesProduct(n, kb);
    assert (kb - ka) * n == kb * n - ka * n;
    TriangularInjective(n, a, b, kb - ka);
  }

  /** Positions of the same group share every window. */
  lemma {:induction false} SameGroupSameWindow(h1: nat, cap: nat, w: nat, n: nat, j: nat, r: nat, p: nat, q: nat)
    requires n > 0 && w > 0 && Times(w, n) == cap + 1 && p <= cap && q <= cap
    requires Times(w, r) <= Dist(cap, ProbeOffset(h1, cap, w, 0), p) < Times(w, r) + w
    requires Times(w, r) <= Dist(cap, ProbeOffset(h1, cap, w, 0), q) < Times(w, r) + w
    requires Dist(cap, ProbeOffset(h1, cap, w, j), p) < w
    ensures Dist(cap, ProbeOffset(h1, cap, w, j), q) < w
  {
    var s, k := TriangularResidue(n, j);
    assert s == r by {
      WindowIsGroup(h1, cap, w, n, j, s, k, p);
      SameGroup(w, s, r, Dist(cap, ProbeOffset(h1, cap, w, 0), p));
    }
    WindowIsGroup(h1, cap, w, n, j, s, k, q);
  }

  /** `probe_index` of the in-place rehash. */
  function ProbeIndex(h1: nat, cap: nat, w: nat, p: nat): nat
    requires IsWidth(w) && p <= cap
  {
    Dist(cap, ProbeOffset(h1, cap, w, 0), p) / w
  }

  lemma {:induction false} SameProbeIndex(h1: nat, cap: nat, w: nat, n: nat, j: nat, p: nat, q: nat)
    requires IsWidth(w) && Times(w, n) == cap + 1 && p <= cap && q <= cap
    requires Dist(cap, ProbeOffset(h1, cap, w, j), p) < w
    requires ProbeIndex(h1, cap, w, p) == ProbeIndex(h1, cap, w, q)
    ensures Dist(cap, ProbeOffset(h1, cap, w, j), q) < w
  {
    DivideByWidth(w, Dist(cap, ProbeOffset(h1, cap, w, 0), p));
    DivideByWidth(w, Dist(cap, ProbeOffset(h1, cap, w, 0), q));
    SameGroupSameWindow(h1, cap, w, n, j, ProbeIndex(h1, cap, w, p), p, q);
  }

  lemma {:induction false} DivideByWidth(w: nat, d: nat)
    requires IsWidth(w)
    ensures Times(w, d / w) <= d < Times(w, d / w) + w
  {
    TimesProduct(w, d / w);
    if w == 8 {
    } else {
    }
  }
}
