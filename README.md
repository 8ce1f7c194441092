# LABS objective and its test helpers, in Dafny

This project models the executable core of a LABS (Low Autocorrelation Binary
Sequences) hackathon submission, as its two test modules define it:

- **Energy** `labs_energy`: for a sequence `s` of length N, the sum over the
  lags k = 1 .. N-1 of C_k², where C_k = Σ s[i]·s[i+k] is the dot product of
  the slices `s[:-k]` and `s[k:]`. `tests.py` and
  `team-submissions/test_invariants.py` hold identical copies. Both are
  modelled once: the spec function `Labs.Energy`, and the method
  `Labs.LabsEnergy`, whose loop is proved to compute it.
- **Alphabet check** `assert_is_pm1`: passes exactly when every element is +1
  or -1. Both copies are modelled by `Spins.AllPm1` and `Spins.AssertIsPm1`.
- **Interaction generator** `get_interactions`: the list G2 of consecutive
  pairs and the list G4 of consecutive windows of four indices. The expected
  counts `expected_g2_count` and `expected_g4_count` are modelled too.
- **Exhaustive minimiser** `brute_force_best_energy`: enumerates
  {1, -1}^N in `itertools.product` order. It keeps the first sequence of
  strictly smallest energy.

The invariants the tests check by sampling are proved for all inputs:
- non-negativity;
- invariance under global sign flip, under reversal, and under both;
- the bound E < N³, through the per-lag bound |C_k| ≤ N-k;
- zero energy for N ≤ 1;
- counts, bounds, ordering and distinctness of the interaction lists;
- optimality of the brute-force result, and what follows from it for
  single-spin flips and for the symmetric images of that result.

Determinism of the energy (team-submissions/test_invariants.py:174-182) holds
by construction: `LabsEnergy`'s result is fixed by its postcondition.

Modules: `Spins` (sequences, the alphabet and the transformations the tests
apply), `Labs` (the energy), `Interactions`, and `BruteForce`.

## Model

| member | source | states |
|---|---|---|
| `Spins.AllPm1` | team-submissions/test_invariants.py:38-41 | `all(b in (-1, 1) for b in bits)` is true exactly when every element is +1 or -1 |
| `Spins.AssertIsPm1` | tests.py:27-29 | the assertion passes if and only if every element is in {-1, +1}; it raises exactly when some element lies outside that set |
| `Spins.Negate` | tests.py:146 | the global sign flip keeps the length, and the result is ±1 exactly when the input is |
| `Spins.Reverse` | tests.py:164 | reversal keeps the length, and the result is ±1 exactly when the input is |
| `Spins.FlipAt` | tests.py:324-325 | a single-spin flip negates position i, leaves every other position as it was, and keeps the ±1 alphabet in both directions |
| `Spins.DoubleTransformRestores` | team-submissions/test_invariants.py:198-208 | negating twice gives back the original sequence (the tested fact); reversing twice does too, which goes beyond the tests |
| `Labs.Dot` | tests.py:48 | the dot product of two ±1 vectors of length L lies in [-L, L] |
| `Labs.Autocorrelation` | team-submissions/test_invariants.py:33 | C_k, the dot product of `s[:-k]` and `s[k:]`: for a ±1 sequence -(N-k) ≤ C_k ≤ N-k, and the last lag C_{N-1} is s[0]·s[N-1] |
| `Labs.LagSum` | tests.py:46-49 | the running total after lag m is non-negative and at least the last C_m² added |
| `Labs.Energy` | team-submissions/test_invariants.py:21-35 | the energy is a non-negative integer, and it is 0 when N ≤ 1 (the lag loop runs zero times) |
| `Labs.LabsEnergy` | tests.py:32-50 | the loop over k = 1 .. N-1 that adds each C_k² returns exactly Σ_k C_k² |
| `Labs.AutocorrelationNegate` | team-submissions/test_invariants.py:69-81 | every lag's autocorrelation C_k is unchanged by a global sign flip |
| `Labs.EnergyFlipInvariant` | tests.py:139-154 | E(s) == E([-b for b in s]) for every sequence |
| `Labs.AutocorrelationReverse` | team-submissions/test_invariants.py:83-95 | every lag's autocorrelation C_k is unchanged by reversal |
| `Labs.EnergyReverseInvariant` | tests.py:157-172 | E(s) == E(reversed(s)) for every sequence |
| `Labs.EnergyReverseFlipInvariant` | tests.py:175-190 | E(s) == E(reversed([-b for b in s])) for every sequence |
| `Labs.EnergyDoubleFlip` | team-submissions/test_invariants.py:209-213 | the energy of the twice-flipped sequence equals the original's |
| `Labs.EnergyAtMostMax` | team-submissions/test_invariants.py:159-161 | every ±1 sequence has energy at most 1² + 2² + … + (N-1)² |
| `Labs.MaxEnergyAttained` | team-submissions/test_invariants.py:159-161 | the all-ones sequence is ±1 and reaches that bound, so the bound is the maximum |
| `Labs.MaxEnergyBelowCube` | team-submissions/test_invariants.py:161 | 1² + … + (N-1)² < N³ for N ≥ 1 |
| `Labs.EnergyBelowCube` | team-submissions/test_invariants.py:157-168 | every ±1 sequence of length N ≥ 1 has E < N³ |
| `Labs.EnergyZeroIffShort` | team-submissions/test_invariants.py:29-35 | a ±1 sequence has energy 0 if and only if N ≤ 1 |
| `Interactions.Pairs` | tests.py:66 | G2 has max(0, N-1) entries; entry p is a pair starting at index p with 0 ≤ i < j < N; no pair repeats |
| `Interactions.Quads` | tests.py:69 | G4 has max(0, N-3) entries; entry p is a 4-tuple starting at index p with 0 ≤ a < b < c < d < N; no tuple repeats |
| `Interactions.GetInteractions` | tests.py:53-71 | G2 has max(0, N-1) entries and G4 has max(0, N-3), so G4 is empty for N ≤ 3; every index lies in [0, N); neither list repeats a tuple |
| `Interactions.ExpectedG2Count` | tests.py:74-80 | the formula N - 1 equals the length of G2 if and only if N ≥ 1 |
| `Interactions.ExpectedG4Count` | tests.py:83-89 | the formula N - 3 equals the length of G4 if and only if N ≥ 3 |
| `Interactions.TupleSetSize` | tests.py:270-277 | a list's set of tuples is never larger than the list, and it is equally large if and only if no tuple repeats |
| `Interactions.InteractionsNoDuplicates` | tests.py:262-278 | collecting G2 or G4 into a set of tuples keeps its length |
| `BruteForce.ProductTuple` | tests.py:108 | the t-th tuple of `itertools.product([1, -1], repeat=N)` has length N and is ±1 |
| `BruteForce.ProductIndex` | tests.py:108 | the position of a sequence in that enumeration lies in [0, 2^N) |
| `BruteForce.IndexOfTuple` | tests.py:108 | locating the t-th enumerated tuple gives back t |
| `BruteForce.TupleOfIndex` | tests.py:108 | every ±1 sequence of length N is enumerated, at the position `ProductIndex` gives |
| `BruteForce.FirstMinimumIsGroundState` | tests.py:106-114 | after the whole enumeration, the first minimum found is a ground state, `ProductIndex` locates it, and every tuple enumerated before it has strictly higher energy |
| `BruteForce.BruteForceBestEnergy` | tests.py:92-114 | returns a ±1 sequence of length N and its energy. No sequence of length N has lower energy. Every sequence enumerated before it has strictly higher energy, so ties go to the first found |
| `BruteForce.GroundStateFlipNotLower` | tests.py:322-330 | no single-spin flip of a ground state has lower energy |
| `BruteForce.GroundStateSymmetries` | tests.py:340-352 | the sign flip and the reversal of a ground state are ground states of the same energy |

## Left out

- The `float(E)` cast and the floating-point checks (`abs(E - round(E)) < 1e-9`, `np.isfinite`, `isnan`, `isinf`): the energy is modelled as the exact integer it converts from.
- `np.asarray(spins, dtype=np.int64)`: the conversion is dropped, and 64-bit wrap-around of the products is not modelled. No ±1 input of realistic length comes near it.
- `np.dot` is modelled as an explicit recursive sum of products (`Labs.Dot`). The numpy dtype, shape and `isinstance` checks in the tests are library facts, not logic.
- Random test inputs (`random.random()`, `np.random`): the properties are stated for all sequences instead.
- `BruteForce.BruteForceBestEnergy`: the `labs_energy_fn` parameter is fixed to `labs_energy`, the only function any caller passes.
- `BruteForce.BruteForceBestEnergy`: N is a `nat`. A negative `repeat` makes `itertools.product` raise, and that error path is not modelled.
- The source never returns `(None, None)`, since the enumeration always holds at least one tuple.
- `Spins.AssertIsPm1`: the text of the assertion message is not modelled, only whether the assertion passes.
- `Labs.EnergyBelowCube` requires N ≥ 1: for N = 0 the energy and N³ are both 0, so the strict bound fails there. The tests check it only for N ≥ 5.
- `labs_energy` does not validate its input: any integer list is accepted. The model follows the code, so the energy is defined for every integer sequence, and the ±1 alphabet is required only by the bound lemmas.
- The pytest fixtures, markers, `pytest_configure` and the print-driven runners (`test_all_phase1`, `test_all_phase2`, `run_all_tests`) are test harness code.
- The Memetic Tabu Search, the quantum sampler and circuit, and the experiment driver are not part of this model: their source is not among the modelled files, and the sampler wraps an external quantum SDK.
