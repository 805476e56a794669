/** Sorting by a total order, as Python's sorted() does: the result is the one sorted arrangement. */
module Sorting {
  import opened SequenceFacts

  ghost predicate TotalOrder<T(!new)>(leq: (T, T) -> bool) {
    && (forall a, b :: leq(a, b) || leq(b, a))
    && (forall a, b :: leq(a, b) && leq(b, a) ==> a == b)
    && (forall a, b, c :: leq(a, b) && leq(b, c) ==> leq(a, c))
  }

  ghost predicate Sorted<T>(s: seq<T>, leq: (T, T) -> bool) {
    forall i, j :: 0 <= i < j < |s| ==> leq(s[i], s[j])
  }

  function Insert<T>(x: T, s: seq<T>, leq: (T, T) -> bool): (r: seq<T>)
    ensures multiset(r) == multiset{x} + multiset(s)
  {
    if s == [] then [x]
    else if leq(x, s[0]) then [x] + s
    else
      assert s == [s[0]] + s[1..];
      [s[0]] + Insert(x, s[1..], leq)
  }

  function Sort<T>(s: seq<T>, leq: (T, T) -> bool): (r: seq<T>)
    ensures multiset(r) == multiset(s)
  {
    if s == [] then []
    else
      assert s == [s[0]] + s[1..];
      Insert(s[0], Sort(s[1..], leq), leq)
  }

  lemma {:induction false} InsertSorted<T(!new)>(x: T, s: seq<T>, leq: (T, T) -> bool)
    requires TotalOrder(leq) && Sorted(s, leq)
    ensures Sorted(Insert(x, s, leq), leq)
  {
    if s != [] && !leq(x, s[0]) {
      InsertSorted(x, s[1..], leq);
      var r := Insert(x, s[1..], leq);
      forall y | y in r ensures leq(s[0], y) {
        assert y in multiset(r);
        assert y == x || y in multiset(s[1..]);
      }
    } else if s != [] {
      forall y | y in s ensures leq(x, y) {
        assert leq(s[0], y);
      }
    }
  }

  lemma {:induction false} SortSorted<T(!new)>(s: seq<T>, leq: (T, T) -> bool)
    requires TotalOrder(leq)
    ensures Sorted(Sort(s, leq), leq)
  {
    if s != [] {
      SortSorted(s[1..], leq);
      InsertSorted(s[0], Sort(s[1..], leq), leq);
    }
  }

  lemma HeadIsLeast<T(!new)>(a: seq<T>, x: T, leq: (T, T) -> bool)
    requires TotalOrder(leq) && Sorted(a, leq) && x in multiset(a)
    ensures a != [] && leq(a[0], x)
  {
    assert x in a;
  }

  lemma TailMultiset<T>(a: seq<T>)
    requires a != []
    ensures multiset(a[1..]) == multiset(a) - multiset{a[0]}
    ensures a == [a[0]] + a[1..] && a[0] in multiset(a)
  {
    assert a == [a[0]] + a[1..];
  }

  lemma {:induction false} SortedIsUnique<T(!new)>(a: seq<T>, b: seq<T>, leq: (T, T) -> bool)
    requires TotalOrder(leq) && Sorted(a, leq) && Sorted(b, leq) && multiset(a) == multiset(b)
    ensures a == b
  {
    assert |a| == |multiset(a)| == |multiset(b)| == |b|;
    if a != [] {
      TailMultiset(a);
      TailMultiset(b);
      HeadIsLeast(a, b[0], leq);
      HeadIsLeast(b, a[0], leq);
      SortedIsUnique(a[1..], b[1..], leq);
    }
  }

  /** Sorting forgets the order of its input. */
  lemma SortForgetsOrder<T(!new)>(a: seq<T>, b: seq<T>, leq: (T, T) -> bool)
    requires TotalOrder(leq) && multiset(a) == multiset(b)
    ensures Sort(a, leq) == Sort(b, leq)
  {
    SortSorted(a, leq);
    SortSorted(b, leq);
    SortedIsUnique(Sort(a, leq), Sort(b, leq), leq);
  }

  lemma SortOfSorted<T(!new)>(s: seq<T>, leq: (T, T) -> bool)
    requires TotalOrder(leq) && Sorted(s, leq)
    ensures Sort(s, leq) == s
  {
    SortSorted(s, leq);
    SortedIsUnique(Sort(s, leq), s, leq);
  }

  // ----- Integers -----

  predicate IntLeq(a: int, b: int) { a <= b }

  /** 1, 2, ..., n. */
  function Range(n: nat): seq<int> { seq(n, i => i + 1) }

  lemma {:induction false} RangeMultiset(n: nat, x: int)
    ensures multiset(Range(n))[x] == if 1 <= x <= n then 1 else 0
  {
    if n > 0 {
      RangeMultiset(n - 1, x);
      assert Range(n) == Range(n - 1) + [n];
    }
  }

  ghost predicate CountsLikeRange(s: seq<int>, n: nat) {
    forall x :: multiset(s)[x] == if 1 <= x <= n then 1 else 0
  }

  /** Sorting gives 1, ..., n exactly for the lists that hold each of these once and nothing else. */
  lemma SortIsRange(s: seq<int>, n: nat)
    ensures Sort(s, IntLeq) == Range(n) <==> CountsLikeRange(s, n)
  {
    RangeCounts(n);
    if CountsLikeRange(s, n) {
      assert forall x :: multiset(s)[x] == multiset(Range(n))[x];
      assert multiset(s) == multiset(Range(n));
      SortForgetsOrder(s, Range(n), IntLeq);
      SortOfSorted(Range(n), IntLeq);
    }
    if Sort(s, IntLeq) == Range(n) {
      assert multiset(s) == multiset(Range(n));
    }
  }

  lemma RangeCounts(n: nat)
    ensures CountsLikeRange(Range(n), n)
  {
    forall x ensures multiset(Range(n))[x] == if 1 <= x <= n then 1 else 0 {
      RangeMultiset(n, x);
    }
  }

  // ----- Strings by code point -----

  predicate TextLeq(a: string, b: string) {
    a == [] || (b != [] && (a[0] < b[0] || (a[0] == b[0] && TextLeq(a[1..], b[1..]))))
  }

  lemma {:induction false} TextTotal(a: string, b: string)
    ensures TextLeq(a, b) || TextLeq(b, a)
    ensures TextLeq(a, b) && TextLeq(b, a) ==> a == b
  {
    if a != [] && b != [] && a[0] == b[0] {
      TextTotal(a[1..], b[1..]);
      assert a == [a[0]] + a[1..] && b == [b[0]] + b[1..];
    }
  }

  lemma {:induction false} TextTransitive(a: string, b: string, c: string)
    requires TextLeq(a, b) && TextLeq(b, c)
    ensures TextLeq(a, c)
  {
    if a != [] && a[0] == b[0] == c[0] {
      TextTransitive(a[1..], b[1..], c[1..]);
    }
  }

  lemma TextOrder()
    ensures TotalOrder(TextLeq)
  {
    forall a: string, b: string ensures (TextLeq(a, b) || TextLeq(b, a)) && (TextLeq(a, b) && TextLeq(b, a) ==> a == b) {
      TextTotal(a, b);
    }
    forall a: string, b: string, c: string | TextLeq(a, b) && TextLeq(b, c) ensures TextLeq(a, c) {
      TextTransitive(a, b, c);
    }
  }

  /** The order of texts: a beginning comes before what continues it, and otherwise the first difference decides. */
  lemma {:induction false} TextLeqIs(a: string, b: string)
    ensures TextLeq(a, b) <==>
      a <= b || exists k :: 0 <= k < |a| && k < |b| && a[..k] == b[..k] && a[k] < b[k]
  {
    if a != [] && b != [] {
      SameHead(a, b);
      if a[0] == b[0] {
        TextLeqIs(a[1..], b[1..]);
        assert a == [a[0]] + a[1..] && b == [b[0]] + b[1..];
        if k :| 0 <= k < |a[1..]| && k < |b[1..]| && a[1..][..k] == b[1..][..k] && a[1..][k] < b[1..][k] {
          assert a[..k + 1] == [a[0]] + a[1..][..k] && b[..k + 1] == [b[0]] + b[1..][..k];
          assert a[k + 1] < b[k + 1];
        }
        if k :| 0 <= k < |a| && k < |b| && a[..k] == b[..k] && a[k] < b[k] {
          assert a[1..][..k - 1] == a[..k][1..] && b[1..][..k - 1] == b[..k][1..];
          assert a[1..][k - 1] < b[1..][k - 1];
        }
      } else {
        assert a[0] < b[0] ==> a[..0] == b[..0];
      }
    }
  }

  lemma SameHead(a: string, b: string)
    requires a != [] && b != []
    ensures a <= b ==> a[0] == b[0]
    ensures forall k :: 0 < k <= |a| && k <= |b| && a[..k] == b[..k] ==> a[0] == b[0]
  {
    forall k | 0 < k <= |a| && k <= |b| && a[..k] == b[..k] ensures a[0] == b[0] {
      assert a[..k][0] == a[0] && b[..k][0] == b[0];
    }
  }
}
