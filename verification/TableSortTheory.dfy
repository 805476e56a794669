/** What the table order of TableSort.dfy means, for every key list and every edge list: duplicate
    edges, self-references and cycles included. */
module TableSortTheory {
  import opened SequenceFacts
  import opened TableSort

  // ----- The order is a permutation that puts parents first -----

  lemma {:induction false} DropSplits(w: seq<Key>, i: nat)
    requires i < |w| && Distinct(w)
    ensures Distinct(Drop(w, i)) && Elements(Drop(w, i)) == Elements(w) - {w[i]}
    ensures multiset(Drop(w, i)) + multiset{w[i]} == multiset(w)
  {
    assert w == w[..i] + [w[i]] + w[i + 1..];
    forall x ensures x in Drop(w, i) <==> x in w && x != w[i] {
      if x in w && x != w[i] {
        var j :| 0 <= j < |w| && w[j] == x;
        assert j < i ==> Drop(w, i)[j] == x;
        assert j > i ==> Drop(w, i)[j - 1] == x;
      }
    }
  }

  lemma {:induction false} RunIsPermutation(w: seq<Key>, g: Graph, done: set<Key>)
    requires Distinct(w)
    ensures multiset(Emitted(w, g, done) + Stuck(w, g, done)) == multiset(w)
    decreases |w|
  {
    var i := FirstReady(w, g, done);
    if i < |w| {
      DropSplits(w, i);
      var d := done + {w[i]};
      RunIsPermutation(Drop(w, i), g, d);
      Regroup([w[i]], Emitted(Drop(w, i), g, d), Stuck(Drop(w, i), g, d));
    } else {
      assert Emitted(w, g, done) + Stuck(w, g, done) == w;
    }
  }

  lemma {:induction false} UniverseHasNoDuplicates(keys: seq<Key>)
    ensures Distinct(Universe(keys))
    ensures Distinct(keys) ==> Universe(keys) == keys
  {
    if keys != [] {
      UniverseHasNoDuplicates(keys[1..]);
      var rest := Universe(keys[1..]);
      if keys[0] !in keys[1..] {
        assert keys[0] !in Elements(rest);
      } else {
        var j :| 0 <= j < |keys[1..]| && keys[1..][j] == keys[0];
        assert keys[j + 1] == keys[0];
      }
    }
  }

  /** Every key comes out exactly once, whatever the edges; with distinct keys the result is a permutation. */
  lemma SortIsPermutation(keys: seq<Key>, edges: seq<Edge>)
    ensures Distinct(SortedKeys(keys, edges))
    ensures Elements(SortedKeys(keys, edges)) == Elements(keys)
    ensures Distinct(keys) ==> multiset(SortedKeys(keys, edges)) == multiset(keys)
  {
    UniverseHasNoDuplicates(keys);
    RunIsPermutation(Universe(keys), GraphOf(Elements(keys), edges), {});
    PermutationFacts(SortedKeys(keys, edges), Universe(keys));
  }

  /** Every table of s follows all of its parents, those in done aside. */
  ghost predicate ParentsFirst(s: seq<Key>, g: Graph, done: set<Key>) {
    s == [] || (Ready(g, done, s[0]) && ParentsFirst(s[1..], g, done + {s[0]}))
  }

  lemma {:induction false} ParentsFirstAt(s: seq<Key>, g: Graph, done: set<Key>, i: nat)
    requires ParentsFirst(s, g, done) && i < |s|
    ensures s[i] in g && g[s[i]] <= done + Elements(s[..i])
  {
    if i > 0 {
      ParentsFirstAt(s[1..], g, done + {s[0]}, i - 1);
      assert s[..i] == [s[0]] + s[1..][..i - 1];
    }
  }

  lemma {:induction false} EmittedParentsFirst(w: seq<Key>, g: Graph, done: set<Key>)
    ensures ParentsFirst(Emitted(w, g, done), g, done)
    decreases |w|
  {
    var i := FirstReady(w, g, done);
    if i < |w| {
      EmittedParentsFirst(Drop(w, i), g, done + {w[i]});
    }
  }

  /** The number of tables the algorithm proper emits; the rest is the fallback. */
  ghost function Cut(keys: seq<Key>, edges: seq<Edge>): nat {
    |Emitted(Universe(keys), GraphOf(Elements(keys), edges), {})|
  }

  /** Each emitted table stands after every table of the artifact that one of its edges names. */
  lemma EmittedFollowParents(keys: seq<Key>, edges: seq<Edge>, i: nat, parent: Key)
    requires i < Cut(keys, edges) <= |SortedKeys(keys, edges)|
    requires (SortedKeys(keys, edges)[i], parent) in edges
    requires parent in keys && parent != SortedKeys(keys, edges)[i]
    ensures parent in SortedKeys(keys, edges)[..i]
  {
    var g := GraphOf(Elements(keys), edges);
    var e := Emitted(Universe(keys), g, {});
    var r := SortedKeys(keys, edges);
    EmittedParentsFirst(Universe(keys), g, {});
    ParentsFirstAt(e, g, {}, i);
    assert r[..i] == e[..i] && r[i] == e[i];
    var edge := (r[i], parent);
    assert edge in edges && edge.0 == r[i];
    assert parent in g[r[i]];
  }

  // ----- The fallback is the largest set that a cycle holds back -----

  /** Each member waits for another member. */
  ghost predicate HeldBack(g: Graph, s: set<Key>) {
    forall k :: k in s ==> k in g && g[k] * s != {}
  }

  ghost function Keep(w: seq<Key>, s: set<Key>): seq<Key> {
    if w == [] then [] else (if w[0] in s then [w[0]] else []) + Keep(w[1..], s)
  }

  lemma {:induction false} KeepSplits(a: seq<Key>, b: seq<Key>, s: set<Key>)
    ensures Keep(a + b, s) == Keep(a, s) + Keep(b, s)
  {
    if a == [] {
      assert a + b == b;
    } else {
      KeepSplits(a[1..], b, s);
      assert (a + b)[1..] == a[1..] + b;
    }
  }

  lemma KeepDrop(w: seq<Key>, i: nat, s: set<Key>)
    requires i < |w| && w[i] !in s
    ensures Keep(Drop(w, i), s) == Keep(w, s)
  {
    KeepSplits(w[..i], w[i..], s);
    KeepSplits(w[..i], w[i + 1..], s);
    assert w == w[..i] + w[i..] && w[i..][0] == w[i] && w[i..][1..] == w[i + 1..];
  }

  lemma {:induction false} KeepAll(w: seq<Key>, s: set<Key>)
    requires Elements(w) <= s
    ensures Keep(w, s) == w
  {
    if w != [] {
      assert w[0] in Elements(w);
      assert Elements(w[1..]) <= Elements(w);
      KeepAll(w[1..], s);
    }
  }

  /** A run leaves the fallback in waiting order, and no member of it was emitted. */
  lemma {:induction false} StuckKeepsOrder(w: seq<Key>, g: Graph, done: set<Key>)
    requires Distinct(w)
    ensures Elements(Stuck(w, g, done)) <= Elements(w)
    ensures Stuck(w, g, done) == Keep(w, Elements(Stuck(w, g, done)))
    decreases |w|
  {
    var i := FirstReady(w, g, done);
    var s := Elements(Stuck(w, g, done));
    if i == |w| {
      KeepAll(w, s);
    } else {
      DropSplits(w, i);
      StuckKeepsOrder(Drop(w, i), g, done + {w[i]});
      KeepDrop(w, i, s);
    }
  }

  lemma {:induction false} StuckIsHeldBack(w: seq<Key>, g: Graph, done: set<Key>)
    requires g.Keys == done + Elements(w) && Distinct(w)
    requires forall k :: k in g ==> g[k] <= g.Keys
    ensures HeldBack(g, Elements(Stuck(w, g, done)))
    decreases |w|
  {
    var i := FirstReady(w, g, done);
    if i == |w| {
      forall k | k in Elements(w) ensures g[k] * Elements(w) != {} {
        var p :| p in g[k] && p !in done;
        assert p in g[k] * Elements(w);
      }
    } else {
      DropSplits(w, i);
      StuckIsHeldBack(Drop(w, i), g, done + {w[i]});
    }
  }

  lemma {:induction false} HeldBackIsStuck(w: seq<Key>, g: Graph, done: set<Key>, s: set<Key>)
    requires HeldBack(g, s) && s <= Elements(w) && s !! done && Distinct(w)
    ensures s <= Elements(Stuck(w, g, done))
    decreases |w|
  {
    var i := FirstReady(w, g, done);
    if i < |w| {
      assert g[w[i]] * s == {};
      DropSplits(w, i);
      HeldBackIsStuck(Drop(w, i), g, done + {w[i]}, s);
    }
  }

  lemma GraphParentsAreNodes(nodes: set<Key>, edges: seq<Edge>)
    ensures GraphOf(nodes, edges).Keys == nodes
    ensures forall k :: k in nodes ==> GraphOf(nodes, edges)[k] <= nodes
  {
  }

  /** The tables left to the fallback: the greatest set in which every member has a parent inside the
      set, in original order. */
  lemma FallbackIsLargestHeldBackSet(keys: seq<Key>, edges: seq<Edge>)
    ensures Cut(keys, edges) <= |SortedKeys(keys, edges)|
    ensures var g := GraphOf(Elements(keys), edges);
            var fallback := SortedKeys(keys, edges)[Cut(keys, edges)..];
            && HeldBack(g, Elements(fallback))
            && (forall s :: HeldBack(g, s) ==> s <= Elements(fallback))
            && fallback == Keep(Universe(keys), Elements(fallback))
  {
    var g := GraphOf(Elements(keys), edges);
    var u := Universe(keys);
    UniverseHasNoDuplicates(keys);
    GraphParentsAreNodes(Elements(keys), edges);
    assert SortedKeys(keys, edges)[Cut(keys, edges)..] == Stuck(u, g, {});
    StuckKeepsOrder(u, g, {});
    StuckIsHeldBack(u, g, {});
    forall s | HeldBack(g, s) ensures s <= Elements(Stuck(u, g, {})) {
      HeldBackIsStuck(u, g, {}, s);
    }
  }

  // ----- Nothing is left exactly when the edges form no cycle -----

  ghost predicate Walk(g: Graph, p: seq<Key>) {
    forall i :: 0 <= i < |p| - 1 ==> p[i] in g && p[i + 1] in g[p[i]]
  }

  ghost predicate Cycle(g: Graph, p: seq<Key>) {
    |p| >= 2 && p[0] == p[|p| - 1] && Walk(g, p)
  }

  ghost predicate Acyclic(g: Graph) {
    forall p :: !Cycle(g, p)
  }

  lemma {:induction false} WalkInside(g: Graph, s: set<Key>, start: Key, n: nat) returns (p: seq<Key>)
    requires HeldBack(g, s) && start in s
    ensures |p| == n + 1 && p[0] == start && Walk(g, p) && Elements(p) <= s
    decreases n
  {
    if n == 0 {
      p := [start];
    } else {
      var next :| next in g[start] * s;
      var rest := WalkInside(g, s, next, n - 1);
      p := [start] + rest;
      assert Elements(p) == {start} + Elements(rest);
      forall i | 0 <= i < |p| - 1 ensures p[i] in g && p[i + 1] in g[p[i]] {
        assert i > 0 ==> p[i] == rest[i - 1] && p[i + 1] == rest[i - 1 + 1];
      }
    }
  }

  lemma HeldBackHasCycle(g: Graph, s: set<Key>) returns (c: seq<Key>)
    requires HeldBack(g, s) && s != {}
    ensures Cycle(g, c)
  {
    var start :| start in s;
    var p := WalkInside(g, s, start, |s|);
    if Distinct(p) {
      SetSize(p);
      SubsetSize(Elements(p), s);
      assert false;
    }
    var i, j :| 0 <= i < j < |p| && p[i] == p[j];
    c := p[i..j + 1];
    forall m | 0 <= m < |c| - 1 ensures c[m] in g && c[m + 1] in g[c[m]] {
      assert c[m] == p[i + m] && c[m + 1] == p[(i + m) + 1];
    }
  }

  lemma SubsetSize(a: set<Key>, b: set<Key>)
    requires a <= b
    ensures |a| <= |b|
  {
    assert |b - a| == |b| - |a|;
  }

  lemma CycleIsHeldBack(g: Graph, c: seq<Key>)
    requires Cycle(g, c)
    ensures HeldBack(g, Elements(c)) && Elements(c) != {}
  {
    assert c[0] in Elements(c);
    forall k | k in Elements(c) ensures k in g && g[k] * Elements(c) != {} {
      var i :| 0 <= i < |c| && c[i] == k;
      var j := if i == |c| - 1 then 0 else i;
      assert c[j] == k && c[j + 1] in g[k];
      assert c[j + 1] in g[k] * Elements(c);
    }
  }

  /** The fallback is empty if and only if the foreign keys, self-references aside, form no cycle. */
  lemma AllEmittedIffAcyclic(keys: seq<Key>, edges: seq<Edge>)
    ensures Cut(keys, edges) == |SortedKeys(keys, edges)| <==> Acyclic(GraphOf(Elements(keys), edges))
  {
    var g := GraphOf(Elements(keys), edges);
    FallbackIsLargestHeldBackSet(keys, edges);
    var fallback := SortedKeys(keys, edges)[Cut(keys, edges)..];
    EmptyElements(fallback);
    if fallback != [] {
      var c := HeldBackHasCycle(g, Elements(fallback));
    }
    if p :| Cycle(g, p) {
      CycleIsHeldBack(g, p);
    }
  }

  // ----- Ties go to the earliest table -----

  /** a stands strictly before b in the lexicographic order of positions, on lists that differ. */
  ghost predicate Beats(a: seq<Key>, b: seq<Key>, order: map<Key, nat>) {
    exists i: nat :: FirstDifference(a, b, i) && a[i] in order && b[i] in order && order[a[i]] < order[b[i]]
  }

  ghost predicate FirstDifference(a: seq<Key>, b: seq<Key>, i: nat) {
    i < |a| && i < |b| && a[..i] == b[..i] && a[i] != b[i]
  }

  lemma PrefixCons<T>(x: T, a: seq<T>, b: seq<T>)
    requires a <= b
    ensures [x] + a <= [x] + b
  {
  }

  lemma HeadTail<T>(s: seq<T>)
    requires s != []
    ensures s == [s[0]] + s[1..]
  {
  }

  lemma BeatsCons(x: Key, a: seq<Key>, b: seq<Key>, order: map<Key, nat>)
    requires Beats(a, b, order)
    ensures Beats([x] + a, [x] + b, order)
  {
    var m: nat :| FirstDifference(a, b, m) && a[m] in order && b[m] in order && order[a[m]] < order[b[m]];
    assert ([x] + a)[..m + 1] == [x] + a[..m] && ([x] + b)[..m + 1] == [x] + b[..m];
    assert FirstDifference([x] + a, [x] + b, m + 1);
  }

  lemma {:induction false} EmittedIsLeast(w: seq<Key>, g: Graph, done: set<Key>, order: map<Key, nat>, t: seq<Key>)
    requires Ascending(w, order) && Elements(t) <= Elements(w)
    requires Distinct(t) && ParentsFirst(t, g, done)
    ensures t <= Emitted(w, g, done) || Beats(Emitted(w, g, done), t, order)
    decreases |w|
  {
    if t != [] {
      assert t[0] in Elements(t) && t[0] in w;
      var j :| 0 <= j < |w| && w[j] == t[0];
      var i := FirstReady(w, g, done);
      var e1 := Emitted(Drop(w, i), g, done + {w[i]});
      assert i <= j;
      if i < j {
        assert order[w[i]] < order[w[j]];
        assert FirstDifference([w[i]] + e1, t, 0);
      } else {
        DropElements(w, i, order);
        HeadAndRest(t);
        EmittedIsLeast(Drop(w, i), g, done + {w[i]}, order, t[1..]);
        HeadTail(t);
        if t[1..] <= e1 {
          PrefixCons(t[0], t[1..], e1);
        } else {
          BeatsCons(t[0], e1, t[1..], order);
        }
      }
    }
  }

  /** Among all lists of distinct artifact tables that put parents first, the emitted list comes first in
      the lexicographic order of manifest positions: any other such list is one of its prefixes or differs
      first at a table that stands later in the manifest.  On acyclic edges this covers every valid order
      of the whole artifact. */
  lemma SortIsLexicographicallyLeast(keys: seq<Key>, edges: seq<Edge>, order: map<Key, nat>, t: seq<Key>)
    requires LastPositions(keys, order, 0)
    requires Distinct(t) && Elements(t) <= Elements(keys)
    requires ParentsFirst(t, GraphOf(Elements(keys), edges), {})
    ensures Cut(keys, edges) <= |SortedKeys(keys, edges)|
    ensures var emitted := SortedKeys(keys, edges)[..Cut(keys, edges)];
            t <= emitted || Beats(emitted, t, order)
  {
    UniverseAscending(keys, order, 0);
    var e := Emitted(Universe(keys), GraphOf(Elements(keys), edges), {});
    assert SortedKeys(keys, edges)[..Cut(keys, edges)] == e;
    EmittedIsLeast(Universe(keys), GraphOf(Elements(keys), edges), {}, order, t);
  }

  // ----- Sorting a sorted list changes nothing -----

  lemma RunFromReadyHead(w: seq<Key>, g: Graph, done: set<Key>)
    requires w != [] && Ready(g, done, w[0])
    ensures Emitted(w, g, done) == [w[0]] + Emitted(w[1..], g, done + {w[0]})
    ensures Stuck(w, g, done) == Stuck(w[1..], g, done + {w[0]})
  {
    assert Drop(w, 0) == w[1..];
  }

  lemma ElementsCons(e: seq<Key>, done: set<Key>)
    requires e != []
    ensures done + Elements(e) == (done + {e[0]}) + Elements(e[1..])
  {
    HeadTail(e);
  }

  lemma {:induction false} RunOnSortedList(w: seq<Key>, e: seq<Key>, s: seq<Key>, g: Graph, done: set<Key>)
    requires w == e + s
    requires ParentsFirst(e, g, done)
    requires FirstReady(s, g, done + Elements(e)) == |s|
    ensures Emitted(w, g, done) == e && Stuck(w, g, done) == s
  {
    if e == [] {
      assert w == s;
      assert done + Elements(e) == done;
    } else {
      ElementsCons(e, done);
      RunOnSortedList(w[1..], e[1..], s, g, done + {e[0]});
      RunFromReadyHead(w, g, done);
    }
  }

  lemma {:induction false} RunEndsWithNothingReady(w: seq<Key>, g: Graph, done: set<Key>)
    ensures var s := Stuck(w, g, done);
            FirstReady(s, g, done + Elements(Emitted(w, g, done))) == |s|
    decreases |w|
  {
    var i := FirstReady(w, g, done);
    if i < |w| {
      var e := Emitted(Drop(w, i), g, done + {w[i]});
      RunEndsWithNothingReady(Drop(w, i), g, done + {w[i]});
      assert done + Elements([w[i]] + e) == done + {w[i]} + Elements(e);
    } else {
      assert done + Elements<Key>([]) == done;
    }
  }

  /** Sorting is idempotent, with or without cycles. */
  lemma SortIsIdempotent(keys: seq<Key>, edges: seq<Edge>)
    ensures SortedKeys(SortedKeys(keys, edges), edges) == SortedKeys(keys, edges)
  {
    var g := GraphOf(Elements(keys), edges);
    var u := Universe(keys);
    SortIsPermutation(keys, edges);
    UniverseHasNoDuplicates(SortedKeys(keys, edges));
    EmittedParentsFirst(u, g, {});
    RunEndsWithNothingReady(u, g, {});
    RunOnSortedList(Order(u, g), Emitted(u, g, {}), Stuck(u, g, {}), g, {});
  }
}
