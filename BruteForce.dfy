/** Exhaustive search for a LABS ground state: enumerate every +1/-1
    sequence of length N in the order in which `brute_force_best_energy`
    generates them and keep the first one of strictly smallest energy. */
module BruteForce {
  import opened Spins
  import opened Labs

  datatype Option<T> = None | Some(value: T)

  /** 2^n, the number of sequences of length n. */
  function Pow2(n: nat): (p: nat)
    ensures p >= 1
  {
    if n == 0 then 1 else 2 * Pow2(n - 1)
  }

  /** The t-th sequence (counting from 0) of the Cartesian product of
      {1, -1} with itself n times: position 0 changes slowest, and 1 comes
      before -1 at every position. */
  function ProductTuple(n: nat, t: nat): (bits: seq<int>)
    requires t < Pow2(n)
    ensures |bits| == n && IsPm1(bits)
  {
    if n == 0 then []
    else
      var half := Pow2(n - 1);
      var rest := ProductTuple(n - 1, if t < half then t else t - half);
      (if t < half then [1] else [-1]) + rest
  }

  /** Where a +1/-1 sequence occurs in that enumeration. */
  function ProductIndex(bits: seq<int>): (t: nat)
    ensures t < Pow2(|bits|)
  {
    if bits == [] then 0
    else
      var rest := ProductIndex(bits[1..]);
      (if bits[0] == 1 then 0 else Pow2(|bits| - 1)) + rest
  }

  /** Enumerating and then locating gives back the position. */
  lemma {:induction false} IndexOfTuple(n: nat, t: nat)
    requires t < Pow2(n)
    ensures ProductIndex(ProductTuple(n, t)) == t
  {
    if n > 0 {
      var half := Pow2(n - 1);
      var bits := ProductTuple(n, t);
      var u := if t < half then t else t - half;
      assert bits[1..] == ProductTuple(n - 1, u);
      IndexOfTuple(n - 1, u);
    }
  }

  /** Every +1/-1 sequence is enumerated, at the position ProductIndex gives. */
  lemma {:induction false} TupleOfIndex(bits: seq<int>)
    requires IsPm1(bits)
    ensures ProductTuple(|bits|, ProductIndex(bits)) == bits
  {
    if bits != [] {
      var n := |bits|;
      assert IsPm1(bits[1..]) by {
        forall i | 0 <= i < n - 1 ensures bits[1..][i] == 1 || bits[1..][i] == -1 {
          assert bits[1..][i] == bits[i + 1];
        }
      }
      TupleOfIndex(bits[1..]);
      assert bits[0] == 1 || bits[0] == -1;
      var t := ProductIndex(bits);
      var half := Pow2(n - 1);
      assert (t < half) <==> bits[0] == 1;
      assert bits == [bits[0]] + bits[1..];
    }
  }

  /** `bits` has the smallest energy among all +1/-1 sequences of its length. */
  ghost predicate IsGroundState(bits: seq<int>, e: int) {
    IsPm1(bits) && e == Energy(bits) &&
    forall s :: |s| == |bits| && IsPm1(s) ==> e <= Energy(s)
  }

  /** The energies of the first |es| enumerated tuples, in enumeration order. */
  ghost predicate EnergiesOfPrefix(n: nat, es: seq<int>)
  {
    |es| <= Pow2(n) &&
    forall u :: 0 <= u < |es| ==> es[u] == Energy(ProductTuple(n, u))
  }

  /** Appending the energy of the next tuple keeps the list in step with the
      enumeration. */
  lemma EnergiesOfPrefixExtend(n: nat, es: seq<int>, e: int)
    requires EnergiesOfPrefix(n, es) && |es| < Pow2(n)
    requires e == Energy(ProductTuple(n, |es|))
    ensures EnergiesOfPrefix(n, es + [e])
  {
    var es2 := es + [e];
    forall u | 0 <= u < |es2| ensures es2[u] == Energy(ProductTuple(n, u)) {
      if u < |es| { assert es2[u] == es[u]; assert es[u] == Energy(ProductTuple(n, u)); }
      else { assert u == |es|; }
    }
  }

  /** Among the energies es seen so far, position i holds the value e, no
      earlier position holds e or less, and no position holds less. */
  predicate FirstMinimum(es: seq<int>, i: nat, e: int)
  {
    i < |es| && es[i] == e &&
    (forall u :: 0 <= u < |es| ==> e <= es[u]) &&
    (forall u :: 0 <= u < i ==> e < es[u])
  }

  /** One more energy seen: it becomes the first minimum when it is strictly
      smaller, otherwise the first minimum stays. */
  lemma FirstMinimumStep(es: seq<int>, i: nat, e: int, x: int)
    requires FirstMinimum(es, i, e)
    ensures x < e ==> FirstMinimum(es + [x], |es|, x)
    ensures x >= e ==> FirstMinimum(es + [x], i, e)
  {
    var es2 := es + [x];
    assert forall u :: 0 <= u < |es| ==> es2[u] == es[u];
  }

  /** Once the whole enumeration has been seen, the first minimum is a
      ground state, and ProductIndex locates it. */
  lemma FirstMinimumIsGroundState(n: nat, es: seq<int>, i: nat, e: int)
    requires EnergiesOfPrefix(n, es) && |es| == Pow2(n) && FirstMinimum(es, i, e)
    ensures IsGroundState(ProductTuple(n, i), e)
    ensures ProductIndex(ProductTuple(n, i)) == i
    ensures forall t :: 0 <= t < i ==> Energy(ProductTuple(n, t)) > e
  {
    IndexOfTuple(n, i);
    forall s | |s| == n && IsPm1(s) ensures e <= Energy(s) {
      TupleOfIndex(s);
      assert es[ProductIndex(s)] == Energy(s);
    }
    forall t | 0 <= t < i ensures Energy(ProductTuple(n, t)) > e {
      assert es[t] > e;
    }
  }

  /** `brute_force_best_energy` with `labs_energy` as the energy function:
      returns a ground state of length N and its energy, the first of minimal
      energy in enumeration order (a later tie does not replace it, since the
      comparison is a strict less-than). */
  method BruteForceBestEnergy(n: nat) returns (bestBits: seq<int>, bestE: int)
    ensures |bestBits| == n && IsGroundState(bestBits, bestE)
    ensures forall t :: 0 <= t < ProductIndex(bestBits) ==> Energy(ProductTuple(n, t)) > bestE
  {
    var best: Option<int> := None;
    bestBits := [];
    ghost var bestIndex := 0;
    ghost var seen: seq<int> := [];
    var total := Pow2(n);
    var t := 0;
    while t < total
      invariant t <= total && |seen| == t
      invariant EnergiesOfPrefix(n, seen)
      invariant best.None? <==> t == 0
      invariant best.Some? ==> FirstMinimum(seen, bestIndex, best.value)
      invariant best.Some? ==> bestBits == ProductTuple(n, bestIndex)
    {
      var bits := ProductTuple(n, t);
      var e := LabsEnergy(bits);
      if best.Some? {
        FirstMinimumStep(seen, bestIndex, best.value, e);
      }
      if best.None? || e < best.value {
        best := Some(e);
        bestBits := bits;
        bestIndex := t;
      }
      EnergiesOfPrefixExtend(n, seen, e);
      seen := seen + [e];
      t := t + 1;
    }
    bestE := best.value;
    FirstMinimumIsGroundState(n, seen, bestIndex, bestE);
  }

  /** No single-spin flip of a ground state lowers the energy. */
  lemma GroundStateFlipNotLower(bits: seq<int>, e: int, i: nat)
    requires IsGroundState(bits, e) && i < |bits|
    ensures Energy(FlipAt(bits, i)) >= e
  {
  }

  /** The sign flip and the reversal of a ground state are ground states of
      the same energy. */
  lemma GroundStateSymmetries(bits: seq<int>, e: int)
    requires IsGroundState(bits, e)
    ensures IsGroundState(Negate(bits), e)
    ensures IsGroundState(Reverse(bits), e)
  {
    EnergyFlipInvariant(bits);
    EnergyReverseInvariant(bits);
  }
}
