/** Triangular probing over a table of m = 2^p buckets. */
module Probing {
  import opened Words

  /** The t-th bucket probed from hash h: C's `i = (i + (++step)) & mask`, started at `h & mask`. */
  function Probe(h: nat, t: nat, m: nat): (i: nat)
    requires m > 0
    ensures i < m
    decreases t
  {
    if t == 0 then h % m else (Probe(h, t - 1, m) + t) % m
  }

  function Triangle(t: nat): nat {
    if t == 0 then 0 else Triangle(t - 1) + t
  }

  lemma {:induction false} TriangleClosed(t: nat)
    ensures 2 * Triangle(t) == t * (t + 1)
  {
    if t > 0 { TriangleClosed(t - 1); }
  }

  lemma Distribute(m: int, a: int, b: int)
    ensures m * (a + b) == m * a + m * b
  {}

  lemma Associate(m: int, a: int)
    ensures (2 * m) * a == 2 * (m * a) == m * (2 * a)
  {}

  lemma Quotient(x: nat, m: nat) returns (k: nat)
    requires m > 0
    ensures x == m * k + x % m
  {
    k := x / m;
  }

  /** The t-th probe is congruent to h plus the t-th triangular number. */
  lemma {:induction false} ProbeForm(h: nat, t: nat, m: nat) returns (c: int)
    requires m > 0
    ensures h + Triangle(t) == m * c + Probe(h, t, m)
  {
    if t == 0 {
      c := Quotient(h, m);
    } else {
      var c' := ProbeForm(h, t - 1, m);
      var k := Quotient(Probe(h, t - 1, m) + t, m);
      c := c' + k;
      Distribute(m, c', k);
    }
  }

  /** The t-th probe is h + t (t + 1) / 2 modulo the table size. */
  lemma ProbeIs(h: nat, t: nat, m: nat)
    requires m > 0
    ensures t * (t + 1) % 2 == 0 && Probe(h, t, m) == (h + t * (t + 1) / 2) % m
  {
    TriangleClosed(t);
    var c := ProbeForm(h, t, m);
    var k := Quotient(h + Triangle(t), m);
    SameRest(m, c, k, Probe(h, t, m), (h + Triangle(t)) % m);
  }

  lemma SameRest(m: int, c: int, k: int, a: nat, b: nat)
    requires a < m && b < m && m * c + a == m * k + b
    ensures a == b
  {
    if c > k {
      Distribute(m, k, c - k);
      AtLeast(m, c - k);
    } else if c < k {
      Distribute(m, c, k - c);
      AtLeast(m, k - c);
    }
  }

  lemma {:induction false} AtLeast(m: nat, d: nat)
    requires d > 0
    ensures m * d >= m
  {
    if d > 1 {
      AtLeast(m, d - 1);
      Distribute(m, d - 1, 1);
    }
  }

  lemma OddProduct(x: int, y: int)
    requires x % 2 == 1 && y % 2 == 1
    ensures (x * y) % 2 == 1
  {
    var a, b := x / 2, y / 2;
    assert x * y == 2 * (2 * (a * b) + a + b) + 1 by {
      Distribute(x, 2 * b, 1);
      Associate(b, x);
      Associate(a, b);
      assert x * b == (2 * a) * b + b;
    }
  }

  lemma HalveFactor(x: int, y: int, h: int, c: int)
    requires x % 2 == 1 && x * y == (2 * h) * c
    ensures y % 2 == 0 && x * (y / 2) == h * c
  {
    Associate(h, c);
    if y % 2 == 1 { OddProduct(x, y); }
    Associate(x, y / 2);
  }

  /** An odd factor does not help a power of two divide a product. */
  lemma {:induction false} OddFactor(x: int, y: int, q: nat, c: int) returns (d: int)
    requires x % 2 == 1 && x * y == Pow2(q) * c
    ensures y == Pow2(q) * d
    decreases q
  {
    if q == 0 {
      d := y;
    } else {
      HalveFactor(x, y, Pow2(q - 1), c);
      d := OddFactor(x, y / 2, q - 1, c);
      Associate(Pow2(q - 1), d);
    }
  }

  /** When two probes of one sequence coincide, 2m divides (b - a)(a + b + 1). */
  lemma {:induction false} ProbeGap(h: nat, a: nat, b: nat, p: nat) returns (c: int)
    requires Probe(h, a, Pow2(p)) == Probe(h, b, Pow2(p))
    ensures (b - a) * (a + b + 1) == Pow2(p + 1) * c
  {
    var m := Pow2(p);
    var ca := ProbeForm(h, a, m);
    var cb := ProbeForm(h, b, m);
    c := cb - ca;
    Distribute(m, c, ca);
    TriangleClosed(a);
    TriangleClosed(b);
    Associate(m, c);
    DifferenceOfPronics(a, b);
  }

  lemma DifferenceOfPronics(a: int, b: int)
    ensures b * (b + 1) - a * (a + 1) == (b - a) * (a + b + 1)
  {
    Distribute(b - a, a + b, 1);
    Distribute(b - a, a, b);
  }

  lemma NoSmallMultiple(y: int, d: int, c: int)
    requires 0 < y < d
    ensures y != d * c
  {
    if c >= 1 { MulMonotone(d, 1, c); } else { MulMonotone(d, c, 0); }
  }

  lemma {:induction false} OddNoSmallFactor(x: int, y: int, q: nat, c: int)
    requires x % 2 == 1 && 0 < y < Pow2(q)
    ensures x * y != Pow2(q) * c
  {
    if x * y == Pow2(q) * c {
      var d := OddFactor(x, y, q, c);
      NoSmallMultiple(y, Pow2(q), d);
    }
  }

  /** 2^q does not divide a product of two smaller positive numbers of different parity. */
  lemma {:induction false} NoSmallFactors(x: int, y: int, q: nat, c: int)
    requires 0 < x < Pow2(q) && 0 < y < Pow2(q) && (x + y) % 2 == 1
    ensures x * y != Pow2(q) * c
  {
    if x % 2 == 1 {
      OddNoSmallFactor(x, y, q, c);
    } else {
      OddNoSmallFactor(y, x, q, c);
      assert y * x == x * y;
    }
  }

  /** The first m probes are pairwise distinct. */
  lemma {:induction false} ProbeDistinct(h: nat, a: nat, b: nat, p: nat)
    requires a < b < Pow2(p)
    ensures Probe(h, a, Pow2(p)) != Probe(h, b, Pow2(p))
  {
    hide Probe;
    if Probe(h, a, Pow2(p)) == Probe(h, b, Pow2(p)) {
      var c := ProbeGap(h, a, b, p);
      var x, y := b - a, a + b + 1;
      assert x + y == 2 * b + 1;
      NoSmallFactors(x, y, p + 1, c);
    }
  }

  lemma {:induction false} NoEarlyReturn(h: nat, t: nat, p: nat)
    requires 0 < t < 2 * Pow2(p) - 1
    ensures Probe(h, t, Pow2(p)) != Probe(h, 0, Pow2(p))
  {
    hide Probe;
    if Probe(h, t, Pow2(p)) == Probe(h, 0, Pow2(p)) {
      var c := ProbeGap(h, 0, t, p);
      assert (t - 0) * (0 + t + 1) == t * (t + 1);
      NoSmallFactors(t, t + 1, p + 1, c);
    }
  }

  lemma TriangleOfReturn(m: nat)
    requires m > 0
    ensures Triangle(2 * m - 1) == m * (2 * m - 1)
  {
    TriangleClosed(2 * m - 1);
    Associate(m, 2 * m - 1);
  }

  /** The probe sequence is back at its start at step 2m - 1 and at no earlier positive step. */
  lemma {:induction false} ProbeFirstReturn(h: nat, p: nat)
    ensures Probe(h, 2 * Pow2(p) - 1, Pow2(p)) == Probe(h, 0, Pow2(p))
    ensures forall t: nat | 0 < t < 2 * Pow2(p) - 1 :: Probe(h, t, Pow2(p)) != Probe(h, 0, Pow2(p))
  {
    var m := Pow2(p);
    forall t: nat | 0 < t < 2 * m - 1 ensures Probe(h, t, m) != Probe(h, 0, m) {
      NoEarlyReturn(h, t, p);
    }
    var r := 2 * m - 1;
    TriangleOfReturn(m);
    var c := ProbeForm(h, r, m);
    Distribute(m, c - r, r);
    ModUnique(h, m, c - r, Probe(h, r, m));
  }

  // ---------- every bucket is probed ----------

  ghost function Probed(h: nat, t: nat, m: nat): set<nat>
    requires m > 0
  {
    set s: nat | s < t :: Probe(h, s, m)
  }

  lemma {:induction false} ProbedSize(h: nat, t: nat, p: nat)
    requires t <= Pow2(p)
    ensures |Probed(h, t, Pow2(p))| == t
  {
    var m := Pow2(p);
    if t > 0 {
      ProbedSize(h, t - 1, p);
      var i := Probe(h, t - 1, m);
      forall s: nat | s < t - 1 ensures Probe(h, s, m) != i { ProbeDistinct(h, s, t - 1, p); }
      assert i !in Probed(h, t - 1, m);
      assert Probed(h, t, m) == Probed(h, t - 1, m) + {i};
    } else {
      assert Probed(h, 0, m) == {};
    }
  }

  lemma {:induction false} BelowSize(m: nat) returns (all: set<nat>)
    ensures forall i: nat :: i in all <==> i < m
    ensures |all| == m
  {
    if m == 0 { all := {}; }
    else {
      var less := BelowSize(m - 1);
      all := less + {m - 1};
    }
  }

  lemma FullSubset(a: set<nat>, b: set<nat>)
    requires a <= b && |a| == |b|
    ensures a == b
  {
    if x :| x in b && x !in a {
      assert |b - {x}| == |b| - 1;
      SubsetSize(a, b - {x});
    }
  }

  lemma {:induction false} SubsetSize<T>(a: set<T>, b: set<T>)
    requires a <= b
    ensures |a| <= |b|
  {
    if a != {} {
      var x :| x in a;
      SubsetSize(a - {x}, b - {x});
    }
  }

  /** Every bucket is among the first m probes. */
  lemma ProbeHits(h: nat, i: nat, p: nat) returns (t: nat)
    requires i < Pow2(p)
    ensures t < Pow2(p) && Probe(h, t, Pow2(p)) == i
  {
    var m := Pow2(p);
    ProbedSize(h, m, p);
    var all := BelowSize(m);
    FullSubset(Probed(h, m, m), all);
    assert i in Probed(h, m, m);
    t :| t < m && Probe(h, t, m) == i;
  }

  /** C's `h & mask` starts the probe sequence. */
  lemma ProbeStart(h: nat, m: nat)
    requires IsPow2(m)
    ensures BitAnd(h, m - 1) == Probe(h, 0, m)
  {
    var p: nat :| m == Pow2(p);
    MaskIsMod(h, p);
  }

  /** C's `(i + step) & mask` on 32-bit words. */
  function NextIndex(i: nat, step: nat, mask: nat): nat {
    BitAnd((i + step) % U32_LIMIT, mask)
  }

  /** It continues the probe sequence after `++step`, and the test `i == last` first holds at step 2m - 1. */
  lemma {:induction false} ProbeNext(h: nat, t: nat, m: nat)
    requires IsPow2(m) && m < U32_LIMIT && t < 2 * m - 1
    ensures NextIndex(Probe(h, t, m), t + 1, m - 1) == Probe(h, t + 1, m)
    ensures Probe(h, t + 1, m) == Probe(h, 0, m) <==> t + 1 == 2 * m - 1
  {
    var p: nat :| m == Pow2(p);
    var x := Probe(h, t, m) + (t + 1);
    if p > 32 { Pow2Literals(); Pow2Monotone(32, p); }
    WrapKeepsMod(x, p);
    MaskIsMod(x % U32_LIMIT, p);
    ProbeFirstReturn(h, p);
  }
}
