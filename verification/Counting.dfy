/** Counting arguments shared by the models. */
module Counting {

  predicate Distinct(s: seq<nat>) {
    forall i, j :: 0 <= i < j < |s| ==> s[i] != s[j]
  }

  /** The numbers below `n`. */
  function UpTo(n: nat): (r: set<nat>)
    ensures |r| == n && forall c: nat :: c in r <==> c < n
  {
    if n == 0 then {} else UpTo(n - 1) + {n - 1}
  }

  /** A sequence without repetition is no longer than a set that holds its elements. */
  lemma {:induction false} Pigeonhole(s: seq<nat>, all: set<nat>)
    requires Distinct(s) && forall i :: 0 <= i < |s| ==> s[i] in all
    ensures |s| <= |all|
  {
    if s != [] {
      var k := |s| - 1;
      Pigeonhole(s[..k], all - {s[k]});
    }
  }

  /** `s` without the first occurrence of `x`. */
  function Remove(s: seq<nat>, x: nat): seq<nat> {
    if s == [] then [] else if s[0] == x then s[1..] else [s[0]] + Remove(s[1..], x)
  }

  lemma {:induction false} RemoveDistinct(s: seq<nat>, p: nat)
    requires Distinct(s)
    ensures Distinct(Remove(s, p)) && |Remove(s, p)| == if p in s then |s| - 1 else |s|
    ensures forall x: nat :: x in Remove(s, p) <==> x in s && x != p
  {
    if s != [] {
      var t := s[1..];
      assert s == [s[0]] + t;
      RemoveDistinct(t, p);
      assert s[0] !in t;
    }
  }

  lemma TailDistinct(s: seq<nat>)
    requires Distinct(s) && s != []
    ensures Distinct(s[1..]) && forall x: nat :: x in s[1..] <==> x in s && x != s[0]
  {
    var t := s[1..];
    assert s == [s[0]] + t;
    assert s[0] !in t;
  }
}
