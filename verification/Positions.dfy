/** Increasing lists of positions, which say which elements of a list are kept and in what order. */
module Positions {

  predicate Ascending(idx: seq<nat>) { forall i, j | 0 <= i < j < |idx| :: idx[i] < idx[j] }

  /** The elements at the given positions, in that order. */
  function Picked<T>(s: seq<T>, idx: seq<nat>): (r: seq<T>)
    requires forall i <- idx :: i < |s|
  {
    seq<T>(|idx|, k requires 0 <= k < |idx| => assert idx[k] in idx; s[idx[k]])
  }

  /** The positions in a list, from those in the list without its first element. */
  lemma Shifted(first: bool, rest: seq<nat>) returns (idx: seq<nat>)
    requires Ascending(rest)
    ensures Ascending(idx)
    ensures forall i: nat :: i in idx <==> (i == 0 && first) || (i > 0 && i - 1 in rest)
    ensures var n := if first then 1 else 0;
      |idx| == n + |rest| && (first ==> idx[0] == 0) && forall k | 0 <= k < |rest| :: idx[n + k] == rest[k] + 1
  {
    var n := if first then 1 else 0;
    idx := seq<nat>(n + |rest|, k requires 0 <= k < n + |rest| => if k < n then 0 else rest[k - n] + 1);
    forall i: nat ensures i in idx <==> (i == 0 && first) || (i > 0 && i - 1 in rest) {
      if i in idx {
        var k :| 0 <= k < |idx| && idx[k] == i;
        if k >= n { assert rest[k - n] in rest; }
      }
      if i > 0 && i - 1 in rest {
        var k :| 0 <= k < |rest| && rest[k] == i - 1;
        assert idx[n + k] == i;
      }
      if i == 0 && first { assert idx[0] == 0; }
    }
  }

  /** The elements at positions that `Shifted` returned. */
  lemma PickedShifted<T>(s: seq<T>, first: bool, rest: seq<nat>, idx: seq<nat>)
    requires s != [] && forall i <- rest :: i < |s| - 1
    requires var n := if first then 1 else 0;
      |idx| == n + |rest| && (first ==> idx[0] == 0) && forall k | 0 <= k < |rest| :: idx[n + k] == rest[k] + 1
    ensures forall i <- idx :: i < |s|
    ensures Picked(s, idx) == (if first then [s[0]] else []) + Picked(s[1..], rest)
  {
    var n := if first then 1 else 0;
    forall k | 0 <= k < |idx| ensures idx[k] < |s| {
      if k >= n { assert idx[k] == rest[k - n] + 1 && rest[k - n] in rest; }
    }
    forall k | 0 <= k < |rest| ensures s[idx[n + k]] == s[1..][rest[k]] {
      assert rest[k] in rest;
    }
  }

  lemma PickedPrefix<T>(s: seq<T>, whole: seq<T>, idx: seq<nat>)
    requires s <= whole && forall i <- idx :: i < |s|
    ensures Picked(s, idx) == Picked(whole, idx)
  {
    forall k | 0 <= k < |idx| ensures idx[k] < |s| { assert idx[k] in idx; }
  }

  /** The positions in a list, from those in the list without its last element. */
  lemma Extended(init: seq<nat>, n: nat, last: bool) returns (idx: seq<nat>)
    requires Ascending(init) && forall i <- init :: i < n
    ensures idx == init + (if last then [n] else []) && Ascending(idx)
  {
    idx := init + (if last then [n] else []);
    forall k | 0 <= k < |init| ensures init[k] < n { assert init[k] in init; }
  }

  /** An increasing list is determined by its members. */
  lemma {:induction false} SameMembers(idx: seq<nat>, other: seq<nat>)
    requires Ascending(idx) && Ascending(other) && forall i: nat :: i in idx <==> i in other
    ensures idx == other
  {
    assert idx != [] ==> idx[0] in idx;
    assert other != [] ==> other[0] in other;
    if idx != [] {
      var m, n := |idx| - 1, |other| - 1;
      assert idx[m] in other && other[n] in idx;
      assert idx[m] == other[n];
      forall i: nat ensures i in idx[..m] <==> i in other[..n] {
        assert i in idx[..m] <==> i in idx && i != idx[m];
        assert i in other[..n] <==> i in other && i != other[n];
      }
      SameMembers(idx[..m], other[..n]);
    }
  }
}
