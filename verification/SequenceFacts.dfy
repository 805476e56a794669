/** Duplicate-free lists, the sets of their elements, and regrouping. */
module SequenceFacts {
  ghost predicate Distinct<T>(s: seq<T>) {
    forall i, j :: 0 <= i < j < |s| ==> s[i] != s[j]
  }

  function Elements<T>(s: seq<T>): set<T> {
    set x | x in s
  }

  /** Comparing a list's length with the size of its set finds exactly the duplicates. */
  lemma {:induction false} SetSize<T>(s: seq<T>)
    ensures |Elements(s)| <= |s|
    ensures |Elements(s)| == |s| <==> Distinct(s)
  {
    if s != [] {
      var init, x := s[..|s| - 1], s[|s| - 1];
      assert s == init + [x];
      SetSize(init);
      assert Elements(s) == Elements(init) + {x};
      if x in init {
        var i :| 0 <= i < |init| && init[i] == x;
        assert s[i] == s[|init|];
        assert Elements(s) == Elements(init);
      } else {
        assert forall i :: 0 <= i < |init| ==> s[i] == init[i] && init[i] in init;
      }
    }
  }

  lemma {:induction false} DistinctMultiset<T>(s: seq<T>, x: T)
    requires Distinct(s)
    ensures multiset(s)[x] == if x in s then 1 else 0
  {
    if s != [] {
      DistinctMultiset(s[1..], x);
      assert s == [s[0]] + s[1..];
      assert forall i :: 0 <= i < |s[1..]| ==> s[1..][i] == s[i + 1];
    }
  }

  lemma PermutationFacts<T>(a: seq<T>, b: seq<T>)
    requires multiset(a) == multiset(b)
    ensures |a| == |b| && Elements(a) == Elements(b)
    ensures Distinct(a) <==> Distinct(b)
  {
    assert |a| == |multiset(a)| == |multiset(b)| == |b|;
    forall x ensures x in a <==> x in b {
      assert x in a <==> x in multiset(a);
      assert x in b <==> x in multiset(b);
    }
    assert Elements(a) == Elements(b);
    SetSize(a);
    SetSize(b);
  }

  lemma SplitLast<T>(s: seq<T>)
    requires s != []
    ensures s == s[..|s| - 1] + [s[|s| - 1]]
  {
  }

  lemma Regroup<T>(a: seq<T>, b: seq<T>, c: seq<T>)
    ensures a + b + c == a + (b + c)
  {
  }
}
