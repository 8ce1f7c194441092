/** The interaction index sets used to build the LABS Hamiltonian's circuit:
    2-body terms on consecutive neighbours and 4-body terms on consecutive
    windows of four spins. */
module Interactions {

  /** How many integers 0, 1, ..., m - 1 there are: m, or none when m is not
      positive (Python's `range(m)` is then empty). */
  function RangeLength(m: int): nat {
    if m <= 0 then 0 else m
  }

  /** No tuple occurs twice. */
  predicate Distinct(g: seq<seq<int>>) {
    forall i, j :: 0 <= i < j < |g| ==> g[i] != g[j]
  }

  /** The set of distinct tuples of `g`, as the duplicate test collects them. */
  function TupleSet(g: seq<seq<int>>): set<seq<int>> {
    set x | x in g
  }

  /** Collecting the tuples into a set never gains elements, and loses one
      exactly when some tuple is repeated: comparing the two sizes is the same
      test as Distinct(g). */
  lemma {:induction false} TupleSetSize(g: seq<seq<int>>)
    ensures |TupleSet(g)| <= |g|
    ensures |TupleSet(g)| == |g| <==> Distinct(g)
  {
    if g != [] {
      var rest := g[1..];
      TupleSetSize(rest);
      assert TupleSet(g) == {g[0]} + TupleSet(rest);
      if g[0] in TupleSet(rest) {
        var j :| 0 <= j < |rest| && rest[j] == g[0];
        assert g[0] == g[j + 1];
        assert !Distinct(g);
      } else {
        assert |TupleSet(g)| == 1 + |TupleSet(rest)|;
        if Distinct(rest) {
          forall i, j | 0 <= i < j < |g| ensures g[i] != g[j] {
            if i > 0 { assert g[i] == rest[i - 1] && g[j] == rest[j - 1]; }
            else { assert g[j] == rest[j - 1]; }
          }
        } else {
          var i, j :| 0 <= i < j < |rest| && rest[i] == rest[j];
          assert g[i + 1] == g[j + 1];
        }
      }
    }
  }

  /** G2, the 2-body terms: for every position i that has a right neighbour,
      the pair of i and i + 1. */
  function Pairs(n: int): (g2: seq<seq<int>>)
    ensures |g2| == RangeLength(n - 1)
    ensures forall p :: 0 <= p < |g2| ==> |g2[p]| == 2 && g2[p][0] == p
    ensures forall p :: 0 <= p < |g2| ==> 0 <= g2[p][0] < g2[p][1] < n
    ensures Distinct(g2)
  {
    seq(RangeLength(n - 1), i => [i, i + 1])
  }

  /** G4, the 4-body terms: for every position i followed by three more
      spins, the window i, i + 1, i + 2, i + 3. */
  function Quads(n: int): (g4: seq<seq<int>>)
    ensures |g4| == RangeLength(n - 3)
    ensures forall p :: 0 <= p < |g4| ==> |g4[p]| == 4 && g4[p][0] == p
    ensures forall p :: 0 <= p < |g4| ==> 0 <= g4[p][0] < g4[p][1] < g4[p][2] < g4[p][3] < n
    ensures Distinct(g4)
  {
    seq(RangeLength(n - 3), i => [i, i + 1, i + 2, i + 3])
  }

  /** `get_interactions`: the 2-body list G2 and the 4-body list G4. G2 has
      N - 1 entries and G4 has N - 3 (none when that is not positive, so G4 is
      empty for N <= 3); every index lies in [0, N); neither list repeats a
      tuple. */
  function GetInteractions(n: int): (r: (seq<seq<int>>, seq<seq<int>>))
    ensures |r.0| == RangeLength(n - 1) && |r.1| == RangeLength(n - 3)
    ensures n <= 3 ==> r.1 == []
    ensures forall p, j :: 0 <= p < |r.0| && 0 <= j < |r.0[p]| ==> 0 <= r.0[p][j] < n
    ensures forall p, j :: 0 <= p < |r.1| && 0 <= j < |r.1[p]| ==> 0 <= r.1[p][j] < n
    ensures Distinct(r.0) && Distinct(r.1)
  {
    (Pairs(n), Quads(n))
  }

  /** `expected_g2_count`: the closed form N - 1, which matches the length of
      G2 exactly when N >= 1 (below that G2 is empty and the formula is
      negative). */
  function ExpectedG2Count(n: int): (c: int)
    ensures c == |GetInteractions(n).0| <==> n >= 1
  {
    n - 1
  }

  /** `expected_g4_count`: the closed form N - 3, which matches the length of
      G4 exactly when N >= 3 (below that G4 is empty and the formula is
      negative). */
  function ExpectedG4Count(n: int): (c: int)
    ensures c == |GetInteractions(n).1| <==> n >= 3
  {
    n - 3
  }

  /** No interaction tuple is repeated: collecting each list into a set keeps
      its length. */
  lemma InteractionsNoDuplicates(n: int)
    ensures |TupleSet(GetInteractions(n).0)| == |GetInteractions(n).0|
    ensures |TupleSet(GetInteractions(n).1)| == |GetInteractions(n).1|
  {
    TupleSetSize(Pairs(n));
    TupleSetSize(Quads(n));
  }
}
