/** The LABS objective: E(s) = sum over lags k = 1 .. N-1 of C_k squared,
    where C_k is the aperiodic autocorrelation of s at lag k. */
module Labs {
  import opened Spins

  /** The dot product of two equally long integer vectors, the sum of
      a[i] * b[i]. On +1/-1 vectors every product is +1 or -1, so the sum
      lies between -|a| and |a|. */
  function Dot(a: seq<int>, b: seq<int>): (d: int)
    requires |a| == |b|
    ensures IsPm1(a) && IsPm1(b) ==> -|a| <= d <= |a|
  {
    if a == [] then 0
    else
      var rest := Dot(a[1..], b[1..]);
      a[0] * b[0] + rest
  }

  /** C_k, the aperiodic autocorrelation at lag k: the sum of s[i] * s[i + k]
      for i < N - k, i.e. the dot product of the first N - k elements with the
      last N - k. On a +1/-1 sequence |C_k| <= N - k, and the last lag is the
      single product of the two ends. */
  function Autocorrelation(s: seq<int>, k: nat): (c: int)
    requires 1 <= k < |s|
    ensures IsPm1(s) ==> -(|s| - k) <= c <= |s| - k
    ensures k == |s| - 1 ==> c == s[0] * s[|s| - 1]
  {
    var n := |s|;
    if k == n - 1 then
      assert s[..n - k] == [s[0]] && s[k..] == [s[n - 1]];
      assert Dot([s[0]], [s[n - 1]]) == s[0] * s[n - 1] + Dot([], []);
      Dot(s[..n - k], s[k..])
    else
      Dot(s[..n - k], s[k..])
  }

  /** C_1^2 + ... + C_m^2: what the energy loop has accumulated after lag m. */
  function LagSum(s: seq<int>, m: nat): (e: int)
    requires m == 0 || m < |s|
    ensures e >= 0
    ensures m > 0 ==> e >= Autocorrelation(s, m) * Autocorrelation(s, m)
  {
    if m == 0 then 0
    else
      var prev := LagSum(s, m - 1);
      var c := Autocorrelation(s, m);
      prev + c * c
  }

  /** The number of lags the energy sums over: N - 1, and none when N = 0. */
  function LastLag(s: seq<int>): nat {
    if |s| == 0 then 0 else |s| - 1
  }

  /** The LABS energy of a sequence, as an exact integer. */
  function Energy(s: seq<int>): (e: int)
    ensures e >= 0
    ensures |s| <= 1 ==> e == 0
  {
    LagSum(s, LastLag(s))
  }

  /** `labs_energy`: loops over the lags k = 1 .. N-1 and adds C_k^2 to the
      running total. */
  method LabsEnergy(spins: seq<int>) returns (e: int)
    ensures e == Energy(spins)
  {
    var n := |spins|;
    e := 0;
    var k := 1;
    while k < n
      invariant 1 <= k <= n || (n == 0 && k == 1)
      invariant e == LagSum(spins, k - 1)
    {
      var ck := Autocorrelation(spins, k);
      e := e + ck * ck;
      k := k + 1;
    }
  }

  // ---------------------------------------------------------------------
  // Two sequences with the same autocorrelations have the same energy.
  // ---------------------------------------------------------------------

  lemma {:induction false} LagSumCongruent(s: seq<int>, t: seq<int>, m: nat)
    requires |s| == |t| && (m == 0 || m < |s|)
    requires forall k :: 1 <= k <= m ==> Autocorrelation(s, k) == Autocorrelation(t, k)
    ensures LagSum(s, m) == LagSum(t, m)
  {
    if m > 0 {
      LagSumCongruent(s, t, m - 1);
    }
  }

  lemma EnergyCongruent(s: seq<int>, t: seq<int>)
    requires |s| == |t|
    requires forall k :: 1 <= k < |s| ==> Autocorrelation(s, k) == Autocorrelation(t, k)
    ensures Energy(s) == Energy(t)
  {
    LagSumCongruent(s, t, LastLag(s));
  }

  // ---------------------------------------------------------------------
  // Global sign flip
  // ---------------------------------------------------------------------

  /** Two dot products agree when their terms agree position by position. */
  lemma {:induction false} DotTermwise(a: seq<int>, b: seq<int>, c: seq<int>, d: seq<int>)
    requires |a| == |b| == |c| == |d|
    requires forall i :: 0 <= i < |a| ==> a[i] * b[i] == c[i] * d[i]
    ensures Dot(a, b) == Dot(c, d)
  {
    if a != [] {
      DotTermwise(a[1..], b[1..], c[1..], d[1..]);
    }
  }

  lemma NegateProduct(x: int, y: int)
    ensures (-x) * (-y) == x * y
  {
  }

  lemma DotNegate(a: seq<int>, b: seq<int>)
    requires |a| == |b|
    ensures Dot(Negate(a), Negate(b)) == Dot(a, b)
  {
    var na, nb := Negate(a), Negate(b);
    forall i | 0 <= i < |a| ensures na[i] * nb[i] == a[i] * b[i] {
      NegateProduct(a[i], b[i]);
    }
    DotTermwise(na, nb, a, b);
  }

  /** Each lag's autocorrelation is unchanged by flipping every sign. */
  lemma AutocorrelationNegate(s: seq<int>, k: nat)
    requires 1 <= k < |s|
    ensures Autocorrelation(Negate(s), k) == Autocorrelation(s, k)
  {
    var n := |s|;
    assert Negate(s)[..n - k] == Negate(s[..n - k]);
    assert Negate(s)[k..] == Negate(s[k..]);
    DotNegate(s[..n - k], s[k..]);
  }

  /** The energy is unchanged when every sign is flipped. */
  lemma EnergyFlipInvariant(s: seq<int>)
    ensures Energy(Negate(s)) == Energy(s)
  {
    forall k | 1 <= k < |s| ensures Autocorrelation(Negate(s), k) == Autocorrelation(s, k) {
      AutocorrelationNegate(s, k);
    }
    EnergyCongruent(Negate(s), s);
  }

  // ---------------------------------------------------------------------
  // Reversal
  // ---------------------------------------------------------------------

  lemma {:induction false} DotCommutes(a: seq<int>, b: seq<int>)
    requires |a| == |b|
    ensures Dot(a, b) == Dot(b, a)
  {
    if a != [] {
      DotCommutes(a[1..], b[1..]);
    }
  }

  /** Splitting off the last product instead of the first. */
  lemma {:induction false} DotLast(a: seq<int>, b: seq<int>)
    requires |a| == |b| > 0
    ensures Dot(a, b) == Dot(a[..|a| - 1], b[..|b| - 1]) + a[|a| - 1] * b[|b| - 1]
  {
    var n := |a|;
    if n > 1 {
      DotLast(a[1..], b[1..]);
      assert a[1..][..n - 2] == a[..n - 1][1..];
      assert b[1..][..n - 2] == b[..n - 1][1..];
    }
  }

  lemma {:induction false} DotReverse(a: seq<int>, b: seq<int>)
    requires |a| == |b|
    ensures Dot(Reverse(a), Reverse(b)) == Dot(a, b)
  {
    var n := |a|;
    if n > 0 {
      assert Reverse(a)[1..] == Reverse(a[..n - 1]);
      assert Reverse(b)[1..] == Reverse(b[..n - 1]);
      DotReverse(a[..n - 1], b[..n - 1]);
      DotLast(a, b);
    }
  }

  /** Each lag's autocorrelation is unchanged by reversing the sequence. */
  lemma AutocorrelationReverse(s: seq<int>, k: nat)
    requires 1 <= k < |s|
    ensures Autocorrelation(Reverse(s), k) == Autocorrelation(s, k)
  {
    var n := |s|;
    assert Reverse(s)[..n - k] == Reverse(s[k..]);
    assert Reverse(s)[k..] == Reverse(s[..n - k]);
    DotReverse(s[k..], s[..n - k]);
    DotCommutes(s[k..], s[..n - k]);
  }

  /** The energy is unchanged when the sequence is reversed. */
  lemma EnergyReverseInvariant(s: seq<int>)
    ensures Energy(Reverse(s)) == Energy(s)
  {
    forall k | 1 <= k < |s| ensures Autocorrelation(Reverse(s), k) == Autocorrelation(s, k) {
      AutocorrelationReverse(s, k);
    }
    EnergyCongruent(Reverse(s), s);
  }

  /** The energy is unchanged by flipping every sign and then reversing. */
  lemma EnergyReverseFlipInvariant(s: seq<int>)
    ensures Energy(Reverse(Negate(s))) == Energy(s)
  {
    EnergyReverseInvariant(Negate(s));
    EnergyFlipInvariant(s);
  }

  /** Negating twice restores the sequence, so its energy is unchanged. */
  lemma EnergyDoubleFlip(s: seq<int>)
    ensures Energy(Negate(Negate(s))) == Energy(s)
  {
    DoubleTransformRestores(s);
  }

  // ---------------------------------------------------------------------
  // Bounds for +1/-1 sequences
  // ---------------------------------------------------------------------

  lemma SquareBound(c: int, m: int)
    requires 0 <= m && -m <= c <= m
    ensures c * c <= m * m
  {
  }

  /** (N-1)^2 + ... + (N-m)^2: the largest value LagSum(s, m) can take. */
  function MaxLagSum(n: nat, m: nat): int
    requires m == 0 || m < n
  {
    if m == 0 then 0 else MaxLagSum(n, m - 1) + (n - m) * (n - m)
  }

  /** 1^2 + 2^2 + ... + (N-1)^2: the largest LABS energy of length N. */
  function MaxEnergy(n: nat): int {
    if n == 0 then 0 else MaxLagSum(n, n - 1)
  }

  lemma {:induction false} LagSumBound(s: seq<int>, m: nat)
    requires IsPm1(s) && (m == 0 || m < |s|)
    ensures LagSum(s, m) <= MaxLagSum(|s|, m)
  {
    if m > 0 {
      LagSumBound(s, m - 1);
      SquareBound(Autocorrelation(s, m), |s| - m);
    }
  }

  /** Every +1/-1 sequence has energy at most MaxEnergy(N). */
  lemma EnergyAtMostMax(s: seq<int>)
    requires IsPm1(s)
    ensures Energy(s) <= MaxEnergy(|s|)
  {
    LagSumBound(s, LastLag(s));
  }

  /** The all-ones sequence of length n. */
  function Ones(n: nat): seq<int> {
    seq(n, _ => 1)
  }

  lemma {:induction false} DotOnes(a: seq<int>, b: seq<int>)
    requires |a| == |b|
    requires forall i :: 0 <= i < |a| ==> a[i] == 1 && b[i] == 1
    ensures Dot(a, b) == |a|
  {
    if a != [] {
      DotOnes(a[1..], b[1..]);
    }
  }

  lemma {:induction false} LagSumOnes(n: nat, m: nat)
    requires m == 0 || m < n
    ensures LagSum(Ones(n), m) == MaxLagSum(n, m)
  {
    if m > 0 {
      LagSumOnes(n, m - 1);
      DotOnes(Ones(n)[..n - m], Ones(n)[m..]);
    }
  }

  /** The bound is attained: the constant sequence reaches MaxEnergy(N),
      so MaxEnergy(N) is the largest energy of length N. */
  lemma MaxEnergyAttained(n: nat)
    ensures IsPm1(Ones(n))
    ensures Energy(Ones(n)) == MaxEnergy(n)
  {
    LagSumOnes(n, if n == 0 then 0 else n - 1);
  }

  lemma {:induction false} MaxLagSumBelow(n: nat, m: nat)
    requires m == 0 || m < n
    ensures MaxLagSum(n, m) <= m * ((n - 1) * (n - 1))
  {
    if m > 0 {
      MaxLagSumBelow(n, m - 1);
      SquareBound(n - m, n - 1);
    }
  }

  /** MaxEnergy(N) <= (N-1)^3 < N^3 for N >= 1. */
  lemma MaxEnergyBelowCube(n: nat)
    requires n >= 1
    ensures MaxEnergy(n) < n * n * n
  {
    MaxLagSumBelow(n, n - 1);
    var p := n - 1;
    assert (n - 1) * ((n - 1) * (n - 1)) == p * p * p;
    assert n * n * n == p * p * p + 3 * p * p + 3 * p + 1;
  }

  /** The loose bound the tests check: E < N^3 for every +1/-1 sequence of
      length N >= 1 (for N = 0 both sides are 0). */
  lemma EnergyBelowCube(s: seq<int>)
    requires IsPm1(s) && |s| >= 1
    ensures Energy(s) < |s| * |s| * |s|
  {
    EnergyAtMostMax(s);
    MaxEnergyBelowCube(|s|);
  }

  /** A +1/-1 sequence has zero energy exactly when it is shorter than 2:
      for N >= 2 the last lag gives C_{N-1} = s[0] * s[N-1], a unit. */
  lemma EnergyZeroIffShort(s: seq<int>)
    requires IsPm1(s)
    ensures Energy(s) == 0 <==> |s| <= 1
  {
  }
}
