/** Random choice of an index. The page picks an index into a list of
    length `len` as `Math.floor(Math.random() * len)`; here the value of
    `Math.random()` is supplied by the caller as a real `u` with
    0 <= u < 1, so every run of the model is a function of these draws. */
module Chance {

  /** A value `Math.random()` can return. */
  predicate IsDraw(u: real) {
    0.0 <= u < 1.0
  }

  predicate AllDraws(us: seq<real>) {
    forall k :: 0 <= k < |us| ==> IsDraw(us[k])
  }

  /** The index that draw `u` selects from a list of length `len`: always a
      valid index. */
  function Pick(u: real, len: nat): (k: nat)
    requires IsDraw(u) && len > 0
    ensures k < len
  {
    ScaledBelow(u, len);
    (u * len as real).Floor
  }

  lemma ScaledBelow(u: real, len: nat)
    requires IsDraw(u) && len > 0
    ensures 0.0 <= u * len as real < len as real
  {
  }

  /** Every index of a non-empty list is selected by some draw: the choice
      can reach each candidate. */
  lemma PickReaches(k: nat, len: nat)
    requires k < len
    ensures IsDraw(k as real / len as real)
    ensures Pick(k as real / len as real, len) == k
  {
    var u := k as real / len as real;
    assert u * len as real == k as real;
  }
}
