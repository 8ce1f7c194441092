/** Spin sequences of the LABS problem: lists of +1/-1 values, the alphabet
    check the tests run on them, and the transformations the tests apply
    (global sign flip, reversal, flipping a single spin). */
module Spins {

  /** Every element of `bits` is +1 or -1. */
  predicate IsPm1(bits: seq<int>) {
    forall i :: 0 <= i < |bits| ==> bits[i] == 1 || bits[i] == -1
  }

  /** The membership test inside `assert_is_pm1`: walks the list from the
      front and stops at the first element that is neither +1 nor -1. */
  function AllPm1(bits: seq<int>): (ok: bool)
    ensures ok <==> IsPm1(bits)
  {
    if bits == [] then true
    else if bits[0] != 1 && bits[0] != -1 then
      assert !IsPm1(bits) by { assert !(bits[0] == 1 || bits[0] == -1); }
      false
    else
      var rest := AllPm1(bits[1..]);
      assert IsPm1(bits) <==> IsPm1(bits[1..]) by {
        if IsPm1(bits[1..]) {
          forall i | 0 <= i < |bits| ensures bits[i] == 1 || bits[i] == -1 {
            if i > 0 { assert bits[i] == bits[1..][i - 1]; }
          }
        }
      }
      rest
  }

  /** Outcome of an `assert` statement: it passes or raises AssertionError. */
  datatype Check = Pass | AssertionError

  /** `assert_is_pm1(bits)`: passes exactly when every element is +1 or -1. */
  function AssertIsPm1(bits: seq<int>): (r: Check)
    ensures r == Pass <==> IsPm1(bits)
    ensures r == AssertionError <==> exists i :: 0 <= i < |bits| && bits[i] != 1 && bits[i] != -1
  {
    if AllPm1(bits) then Pass else AssertionError
  }

  /** The global sign flip: every element replaced by its negation. The
      result has the same length and is +1/-1 exactly when `s` is. */
  function Negate(s: seq<int>): (r: seq<int>)
    ensures |r| == |s|
    ensures IsPm1(r) <==> IsPm1(s)
  {
    var r := seq(|s|, i requires 0 <= i < |s| => -s[i]);
    assert IsPm1(r) ==> IsPm1(s) by {
      if IsPm1(r) {
        forall j | 0 <= j < |s| ensures s[j] == 1 || s[j] == -1 {
          assert s[j] == -r[j];
        }
      }
    }
    r
  }

  /** The sequence read back to front. The result has the same length and is
      +1/-1 exactly when `s` is. */
  function Reverse(s: seq<int>): (r: seq<int>)
    ensures |r| == |s|
    ensures IsPm1(r) <==> IsPm1(s)
  {
    var r := seq(|s|, i requires 0 <= i < |s| => s[|s| - 1 - i]);
    assert IsPm1(r) ==> IsPm1(s) by {
      if IsPm1(r) {
        forall j | 0 <= j < |s| ensures s[j] == 1 || s[j] == -1 {
          assert s[j] == r[|s| - 1 - j];
        }
      }
    }
    r
  }

  /** A copy of `s` with the sign of position i flipped. Every other position
      is unchanged, and the result is +1/-1 exactly when `s` is. */
  function FlipAt(s: seq<int>, i: nat): (r: seq<int>)
    requires i < |s|
    ensures |r| == |s| && r[i] == -s[i]
    ensures forall j :: 0 <= j < |s| && j != i ==> r[j] == s[j]
    ensures IsPm1(r) <==> IsPm1(s)
  {
    var r := s[i := -s[i]];
    assert IsPm1(r) ==> IsPm1(s) by {
      if IsPm1(r) {
        forall j | 0 <= j < |s| ensures s[j] == 1 || s[j] == -1 {
          if j == i { assert s[j] == -r[j]; } else { assert s[j] == r[j]; }
        }
      }
    }
    r
  }

  /** Flipping every sign twice gives back the original sequence; so does
      reversing twice. */
  lemma DoubleTransformRestores(s: seq<int>)
    ensures Negate(Negate(s)) == s
    ensures Reverse(Reverse(s)) == s
  {
  }
}
