/** Facts about duplicate-free sequences of tile and player numbers, used by
    the placement and the per-tick processing order. */
module Seqs {

  /** No element occurs twice. */
  predicate Distinct(s: seq<nat>) {
    forall i, j :: 0 <= i < j < |s| ==> s[i] != s[j]
  }

  /** `a` is `b` with some elements left out, the rest in their order. */
  predicate Subseq(a: seq<nat>, b: seq<nat>)
    decreases |b|
  {
    if a == [] then true
    else if b == [] then false
    else (a[0] == b[0] && Subseq(a[1..], b[1..])) || Subseq(a, b[1..])
  }

  /** The elements of `s` as a set. */
  function Elems(s: seq<nat>): set<nat> {
    set x | x in s
  }

  /** The numbers below `n`. */
  function Below(n: nat): (r: set<nat>)
    ensures forall i: nat :: i in r <==> i < n
  {
    RangeElems(n);
    Elems(Range(n))
  }

  lemma RangeElems(n: nat)
    ensures forall i: nat :: i in Elems(Range(n)) <==> i < n
  {
    forall i: nat | i < n
      ensures i in Elems(Range(n))
    {
      assert Range(n)[i] == i;
    }
    forall i | i in Elems(Range(n))
      ensures i < n
    {
      var k :| 0 <= k < n && Range(n)[k] == i;
    }
  }

  /** A position of `x` in `s`. */
  function IndexOf(s: seq<nat>, x: nat): (k: nat)
    requires x in s
    ensures k < |s| && s[k] == x
  {
    if s[0] == x then 0 else 1 + IndexOf(s[1..], x)
  }

  /** The numbers 0 .. n-1 in ascending order. */
  function Range(n: nat): (r: seq<nat>)
    ensures |r| == n
    ensures forall i :: 0 <= i < n ==> r[i] == i
  {
    if n == 0 then [] else Range(n - 1) + [n - 1]
  }

  /** A duplicate-free sequence has as many elements as its set. */
  lemma {:induction false} DistinctCard(s: seq<nat>)
    requires Distinct(s)
    ensures |Elems(s)| == |s|
  {
    if s != [] {
      var t := s[1..];
      assert Distinct(t) by {
        forall i, j | 0 <= i < j < |t| ensures t[i] != t[j] {
          assert t[i] == s[i + 1] && t[j] == s[j + 1];
        }
      }
      DistinctCard(t);
      assert s[0] !in Elems(t) by {
        forall k | 0 <= k < |t| ensures t[k] != s[0] {
          assert t[k] == s[k + 1];
        }
      }
      assert Elems(s) == Elems(t) + {s[0]} by {
        assert s == [s[0]] + t;
      }
    }
  }

  /** There are exactly `n` numbers below `n`. */
  lemma BelowCard(n: nat)
    ensures |Below(n)| == n
  {
    DistinctCard(Range(n));
  }

  /** A set of numbers that all lie below `n` has at most `n` members. */
  lemma BoundedCard(s: set<nat>, n: nat)
    requires forall x :: x in s ==> x < n
    ensures |s| <= n
  {
    assert s <= Below(n);
    BelowCard(n);
    SubsetCard(s, Below(n));
  }

  lemma {:induction false} SubsetCard(a: set<nat>, b: set<nat>)
    requires a <= b
    ensures |a| <= |b|
  {
    if a != {} {
      var x :| x in a;
      SubsetCard(a - {x}, b - {x});
    }
  }
}
