/** `calculate_ats` followed by the caller's `round(...)`: the cosine similarity
    of the two count vectors as a whole percentage. The cosine is computed
    exactly (the reals are never formed): the square root is avoided by
    comparing squares of integers. */
module Similarity {

  function Dot(a: seq<nat>, b: seq<nat>): nat
    requires |a| == |b|
  {
    if a == [] then 0 else a[0] * b[0] + Dot(a[1..], b[1..])
  }

  function SquaredNorm(a: seq<nat>): nat
  {
    Dot(a, a)
  }

  /** The single inductive step of Cauchy-Schwarz. */
  lemma CrossTermBound(x: int, y: int, d: int, p: int, q: int)
    requires p >= 0 && q >= 0 && d * d <= p * q
    ensures 2 * x * y * d <= x * x * q + p * y * y
  {
    if p == 0 {
      SquareZero(d, q);
    } else {
      MultiplyMonotonic(x * x, d * d, p * q);
      SquareExpansion(x, y, d, p);
      var e := x * x * q + p * y * y - 2 * x * y * d;
      SlackExpansion(x, y, d, p, q);
      assert p * e >= (x * d - p * y) * (x * d - p * y) >= 0;
      PositiveFactor(p, e);
    }
  }

  lemma SquareZero(d: int, q: int)
    requires d * d <= 0 * q
    ensures d == 0
  {
  }

  lemma SquareExpansion(x: int, y: int, d: int, p: int)
    ensures (x * d - p * y) * (x * d - p * y) == x * x * (d * d) - 2 * p * x * y * d + p * p * y * y
    ensures (x * d - p * y) * (x * d - p * y) >= 0
  {
    var u, v := x * d, p * y;
    BinomialSquare(u, v);
    assert u * u == x * x * (d * d);
    assert u * v == p * x * y * d;
    assert v * v == p * p * y * y;
  }

  lemma BinomialSquare(u: int, v: int)
    ensures (u - v) * (u - v) == u * u - 2 * u * v + v * v
    ensures (u - v) * (u - v) >= 0
  {
    var w := u - v;
    if w < 0 {
      assert w * w == (-w) * (-w);
    }
  }

  lemma SlackExpansion(x: int, y: int, d: int, p: int, q: int)
    ensures p * (x * x * q + p * y * y - 2 * x * y * d) == x * x * (p * q) + p * p * y * y - 2 * p * x * y * d
  {
  }

  lemma MultiplyMonotonic(c: int, u: int, v: int)
    requires c >= 0 && u <= v
    ensures c * u <= c * v
  {
  }

  lemma PositiveFactor(p: int, e: int)
    requires p > 0 && p * e >= 0
    ensures e >= 0
  {
  }

  /** Cauchy-Schwarz: the dot product never exceeds the product of the norms, so
      the cosine is at most 1. */
  lemma {:induction false} CauchySchwarz(a: seq<nat>, b: seq<nat>)
    requires |a| == |b|
    ensures Dot(a, b) * Dot(a, b) <= SquaredNorm(a) * SquaredNorm(b)
    decreases |a|
  {
    if a != [] {
      var x, y := a[0], b[0];
      var d, p, q := Dot(a[1..], b[1..]), SquaredNorm(a[1..]), SquaredNorm(b[1..]);
      CauchySchwarz(a[1..], b[1..]);
      CrossTermBound(x, y, d, p, q);
      assert Dot(a, b) == x * y + d;
      assert SquaredNorm(a) == x * x + p && SquaredNorm(b) == y * y + q;
      assert (x * y + d) * (x * y + d) == x * x * (y * y) + 2 * x * y * d + d * d;
      assert (x * x + p) * (y * y + q) == x * x * (y * y) + x * x * q + p * y * y + p * q;
    }
  }

  /** The square of 200 * (s + 1/2) * sqrt(n): percentages compare with
      100 * d / sqrt(n) through 40000 * d * d against these values. */
  function HalfAbove(s: nat, n: nat): nat
  {
    (2 * s + 1) * (2 * s + 1) * n
  }

  /** `s` is 100 * d / sqrt(n) rounded to the nearest integer, a half going to
      the even neighbour as Python's `round` does, when d2 = d * d. */
  predicate NearestPercent(s: nat, d2: nat, n: nat)
  {
    && (s == 0 || HalfAbove(s - 1, n) < 40000 * d2 || (HalfAbove(s - 1, n) == 40000 * d2 && s % 2 == 0))
    && (40000 * d2 < HalfAbove(s, n) || (40000 * d2 == HalfAbove(s, n) && s % 2 == 0))
  }

  /** The largest candidate not above `k` that the ratio reaches from below. */
  function NearestBelow(k: nat, d2: nat, n: nat): (s: nat)
    requires 40000 * d2 < HalfAbove(k, n) || (40000 * d2 == HalfAbove(k, n) && k % 2 == 0)
    ensures s <= k
    ensures NearestPercent(s, d2, n)
  {
    if k == 0 || HalfAbove(k - 1, n) < 40000 * d2 || (HalfAbove(k - 1, n) == 40000 * d2 && k % 2 == 0) then k
    else NearestBelow(k - 1, d2, n)
  }

  /** `round(calculate_ats(job_bow, resume_bow))`: the cosine similarity of the
      two vectors as a percentage rounded to an integer; 0 when either vector is
      all zero. */
  function AtsScore(job: seq<nat>, resume: seq<nat>): (s: nat)
    requires |job| == |resume|
    ensures s <= 100
    ensures SquaredNorm(job) == 0 || SquaredNorm(resume) == 0 ==> s == 0
    ensures SquaredNorm(job) > 0 && SquaredNorm(resume) > 0 ==>
      NearestPercent(s, Dot(resume, job) * Dot(resume, job), SquaredNorm(resume) * SquaredNorm(job))
  {
    var d := Dot(resume, job);
    var n := SquaredNorm(resume) * SquaredNorm(job);
    if n == 0 then 0
    else
      CauchySchwarz(resume, job);
      assert 40000 * (d * d) <= 40000 * n < HalfAbove(100, n);
      NearestBelow(100, d * d, n)
  }

  /** The half-way values grow with the percentage. */
  lemma HalfAboveGrows(s: nat, t: nat, n: nat)
    requires s < t && n > 0
    ensures HalfAbove(s, n) < HalfAbove(t, n)
  {
    assert (2 * s + 1) * (2 * s + 1) < (2 * t + 1) * (2 * t + 1);
    MultiplyStrict(n, (2 * s + 1) * (2 * s + 1), (2 * t + 1) * (2 * t + 1));
  }

  /** At most one whole percentage is nearest: a tie picks one side only. */
  lemma NearestPercentUnique(s: nat, t: nat, d2: nat, n: nat)
    requires n > 0
    requires NearestPercent(s, d2, n) && NearestPercent(t, d2, n)
    ensures s == t
  {
    if s < t {
      if s < t - 1 { HalfAboveGrows(s, t - 1, n); }
    } else if t < s {
      if t < s - 1 { HalfAboveGrows(t, s - 1, n); }
    }
  }

  /** A similarity of exactly 12.5 percent rounds to 12, the even neighbour. */
  lemma HalfRoundsToEven()
    ensures AtsScore([1, 3, 3, 3, 3, 3, 3, 3], [1, 0, 0, 0, 0, 0, 0, 0]) == 12
  {
    var job: seq<nat> := [1, 3, 3, 3, 3, 3, 3, 3];
    var resume: seq<nat> := [1, 0, 0, 0, 0, 0, 0, 0];
    assert Dot(resume, job) == 1 && SquaredNorm(resume) == 1 && SquaredNorm(job) == 64;
    assert NearestPercent(12, 1, 64);
    NearestPercentUnique(AtsScore(job, resume), 12, 1, 64);
  }

  /** A resume with no vocabulary term in common with the job scores 0. */
  lemma NoSharedTermScoresZero(job: seq<nat>, resume: seq<nat>)
    requires |job| == |resume|
    requires forall i :: 0 <= i < |job| ==> job[i] == 0 || resume[i] == 0
    ensures AtsScore(job, resume) == 0
  {
    DotDisjoint(resume, job);
  }

  lemma {:induction false} DotDisjoint(a: seq<nat>, b: seq<nat>)
    requires |a| == |b|
    requires forall i :: 0 <= i < |a| ==> a[i] == 0 || b[i] == 0
    ensures Dot(a, b) == 0
    decreases |a|
  {
    if a != [] {
      assert a[0] == 0 || b[0] == 0;
      DotDisjoint(a[1..], b[1..]);
    }
  }

  /** A resume whose counts equal the job's scores 100. */
  lemma IdenticalScoresHundred(v: seq<nat>)
    requires SquaredNorm(v) > 0
    ensures AtsScore(v, v) == 100
  {
    var n := SquaredNorm(v) * SquaredNorm(v);
    assert HalfAbove(99, n) < 40000 * n < HalfAbove(100, n);
    NearestPercentUnique(AtsScore(v, v), 100, n, n);
  }

  function Scale(v: seq<nat>, c: nat): (r: seq<nat>)
    ensures |r| == |v|
  {
    seq(|v|, i requires 0 <= i < |v| => c * v[i])
  }

  lemma {:induction false} DotScale(a: seq<nat>, b: seq<nat>, c: nat)
    requires |a| == |b|
    ensures Dot(a, Scale(b, c)) == c * Dot(a, b)
    decreases |a|
  {
    if a != [] {
      DotScale(a[1..], b[1..], c);
      assert Scale(b, c)[1..] == Scale(b[1..], c);
      ScaleTerm(a[0], b[0], c, Dot(a[1..], b[1..]));
    }
  }

  lemma ScaleTerm(x: int, y: int, c: int, rest: int)
    ensures x * (c * y) + c * rest == c * (x * y + rest)
  {
  }

  lemma DotScaleBoth(a: seq<nat>, c: nat)
    ensures Dot(Scale(a, c), Scale(a, c)) == c * c * Dot(a, a)
  {
    DotScale(Scale(a, c), a, c);
    DotCommutes(Scale(a, c), a);
    DotScale(a, a, c);
    assert c * Dot(a, Scale(a, c)) == c * (c * Dot(a, a));
  }

  /** Multiplying every count of the resume by the same positive factor leaves
      the score unchanged. */
  lemma ScaleInvariant(job: seq<nat>, resume: seq<nat>, c: nat)
    requires |job| == |resume| && c > 0
    ensures AtsScore(job, Scale(resume, c)) == AtsScore(job, resume)
  {
    var scaled := Scale(resume, c);
    var d, p, q := Dot(resume, job), SquaredNorm(resume), SquaredNorm(job);
    ScaledParts(job, resume, c);
    if p > 0 && q > 0 {
      var k := c * c;
      var s := AtsScore(job, resume);
      ProductFacts(c, d, p, q);
      ScaledNearest(s, d * d, p * q, k);
      NearestPercentUnique(AtsScore(job, scaled), s, k * (d * d), k * (p * q));
    }
  }

  /** The score does not depend on which vector is the job and which the
      resume: the cosine is symmetric. */
  lemma AtsScoreSymmetric(a: seq<nat>, b: seq<nat>)
    requires |a| == |b|
    ensures AtsScore(a, b) == AtsScore(b, a)
  {
    DotCommutes(a, b);
    var p, q := SquaredNorm(a), SquaredNorm(b);
    if p > 0 && q > 0 {
      assert q * p == p * q;
      NearestPercentUnique(AtsScore(a, b), AtsScore(b, a), Dot(a, b) * Dot(a, b), p * q);
    }
  }

  /** Multiplying every count of the job by the same positive factor leaves the
      score unchanged too. */
  lemma ScaleJobInvariant(job: seq<nat>, resume: seq<nat>, c: nat)
    requires |job| == |resume| && c > 0
    ensures AtsScore(Scale(job, c), resume) == AtsScore(job, resume)
  {
    AtsScoreSymmetric(Scale(job, c), resume);
    ScaleInvariant(resume, job, c);
    AtsScoreSymmetric(resume, job);
  }

  lemma ScaledParts(job: seq<nat>, resume: seq<nat>, c: nat)
    requires |job| == |resume| && c > 0
    ensures Dot(Scale(resume, c), job) == c * Dot(resume, job)
    ensures SquaredNorm(Scale(resume, c)) == c * c * SquaredNorm(resume)
    ensures SquaredNorm(Scale(resume, c)) == 0 <==> SquaredNorm(resume) == 0
  {
    DotScale(job, resume, c);
    DotScaleBoth(resume, c);
    DotCommutes(Scale(resume, c), job);
    DotCommutes(resume, job);
  }

  lemma ProductFacts(c: int, d: int, p: int, q: int)
    ensures (c * d) * (c * d) == (c * c) * (d * d)
    ensures (c * c * p) * q == (c * c) * (p * q)
  {
  }

  lemma {:induction false} DotCommutes(a: seq<nat>, b: seq<nat>)
    requires |a| == |b|
    ensures Dot(a, b) == Dot(b, a)
    decreases |a|
  {
    if a != [] {
      DotCommutes(a[1..], b[1..]);
    }
  }

  /** Scaling both sides of every comparison by `k` keeps the nearest percentage. */
  lemma ScaledNearest(s: nat, d2: nat, n: nat, k: nat)
    requires k > 0 && NearestPercent(s, d2, n)
    ensures NearestPercent(s, k * d2, k * n)
  {
    ScaledHalf(s, n, k);
    ScaledCompare(k, 40000 * d2, HalfAbove(s, n));
    assert 40000 * (k * d2) == k * (40000 * d2);
    if s > 0 {
      ScaledHalf(s - 1, n, k);
      ScaledCompare(k, HalfAbove(s - 1, n), 40000 * d2);
    }
  }

  lemma ScaledHalf(s: nat, n: nat, k: nat)
    ensures HalfAbove(s, k * n) == k * HalfAbove(s, n)
  {
    var m := (2 * s + 1) * (2 * s + 1);
    assert m * (k * n) == k * (m * n);
  }

  lemma ScaledCompare(k: int, u: int, v: int)
    requires k > 0
    ensures u < v <==> k * u < k * v
    ensures u == v <==> k * u == k * v
  {
    if u < v { MultiplyStrict(k, u, v); }
    if v < u { MultiplyStrict(k, v, u); }
  }

  lemma MultiplyStrict(c: int, u: int, v: int)
    requires c > 0 && u < v
    ensures c * u < c * v
  {
  }
}
