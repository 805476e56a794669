/** Row selections: a query result is a duplicate-free list of positions, its meaning the set of them. */
module Selections {

  ghost predicate Lists(indices: seq<nat>, s: set<nat>) {
    (forall i, j :: 0 <= i < j < |indices| ==> indices[i] != indices[j]) && forall k :: k in indices <==> k in s
  }

  ghost function TheOne(s: set<nat>): nat
    requires |s| == 1
  {
    var i :| i in s; i
  }

  lemma SingletonSet(s: set<nat>)
    requires |s| == 1
    ensures s == {TheOne(s)}
  {
    assert |s - {TheOne(s)}| == 0;
  }

  lemma SingletonIsTheOne(i: nat)
    ensures TheOne({i}) == i
  {
  }

  lemma {:induction false} ListSize(indices: seq<nat>, s: set<nat>)
    requires Lists(indices, s)
    ensures |indices| == |s|
    ensures |s| == 1 ==> TheOne(s) == indices[0]
  {
    if indices == [] {
      assert s == {};
    } else {
      assert indices[0] in s;
      forall k ensures k in indices[1..] <==> k in s - {indices[0]} {
        if k in s - {indices[0]} { assert k in indices; }
      }
      ListSize(indices[1..], s - {indices[0]});
      assert s == {indices[0]} + (s - {indices[0]});
    }
  }

  lemma OthersInList(indices: seq<nat>, s: set<nat>, i: nat)
    requires Lists(indices, s) && |indices| <= 1
    ensures s - {i} != {} <==> |indices| > 0 && indices[0] != i
    ensures i !in s ==> (s - {i} != {} <==> |indices| > 0)
  {
    if |indices| > 0 {
      assert indices[0] in indices;
      assert indices[0] != i ==> indices[0] in s - {i};
    }
    forall k | k in s - {i} ensures |indices| > 0 && indices[0] != i {
      assert k in indices;
    }
  }

  lemma AtMostOne(s: set<nat>)
    ensures |s| > 1 <==> exists j, k :: j in s && k in s && j < k
  {
    if j, k :| j in s && k in s && j < k {
      assert {j, k} <= s;
      assert |s - {j, k}| == |s| - 2;
    }
    if |s| > 1 {
      var j :| j in s;
      assert |s - {j}| == |s| - 1;
      var k :| k in s - {j};
      assert j < k || k < j;
    }
  }
}
