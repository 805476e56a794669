/** The foreign-key table order shared by the seed loader and the partial dump:
    Kahn's algorithm over the declared edges, ties broken by manifest position,
    tables on or behind a cycle kept at the end in manifest order.

    This file holds the specification, a function of the key list and the edge
    list, and the imperative sort that refines it.  TableSortTheory.dfy proves
    what the order means. */
module TableSort {
  import opened SequenceFacts

  /** A table's qualified name, "schema.name". */
  datatype Key = Key(text: string)

  type Edge = (Key, Key)  // (child key, parent key)
  type Graph = map<Key, set<Key>>  // child key -> the parent keys it waits for

  // ----- Specification -----

  /** The distinct keys of a key list.  A repeated key stands at its last position, because the
      position dictionary is overwritten by later entries. */
  ghost function Universe(keys: seq<Key>): (u: seq<Key>)
    ensures Elements(u) == Elements(keys)
  {
    if keys == [] then []
    else
      var rest := Universe(keys[1..]);
      assert Elements(keys) == {keys[0]} + Elements(keys[1..]);
      if keys[0] in keys[1..] then rest
      else
        assert Elements([keys[0]] + rest) == {keys[0]} + Elements(rest);
        [keys[0]] + rest
  }

  /** Parents that a table waits for: self-references and edges that leave the artifact are ignored. */
  ghost function Parents(nodes: set<Key>, edges: seq<Edge>, child: Key): set<Key> {
    set e | e in edges && e.0 == child && e.1 in nodes && e.1 != child :: e.1
  }

  ghost function GraphOf(nodes: set<Key>, edges: seq<Edge>): Graph {
    map k | k in nodes :: Parents(nodes, edges, k)
  }

  ghost predicate Ready(g: Graph, done: set<Key>, k: Key) {
    k in g && g[k] <= done
  }

  /** Index of the first waiting table whose parents are all done; |w| if there is none. */
  ghost function FirstReady(w: seq<Key>, g: Graph, done: set<Key>): (i: nat)
    ensures i <= |w|
    ensures forall j :: 0 <= j < i ==> !Ready(g, done, w[j])
    ensures i < |w| ==> Ready(g, done, w[i])
  {
    if w == [] || Ready(g, done, w[0]) then 0 else 1 + FirstReady(w[1..], g, done)
  }

  ghost function Drop<T>(s: seq<T>, i: nat): seq<T>
    requires i < |s|
  {
    s[..i] + s[i + 1..]
  }

  /** Tables that Kahn's algorithm emits from waiting list w. */
  ghost function Emitted(w: seq<Key>, g: Graph, done: set<Key>): seq<Key>
    decreases |w|
  {
    var i := FirstReady(w, g, done);
    if i == |w| then [] else [w[i]] + Emitted(Drop(w, i), g, done + {w[i]})
  }

  /** Tables left to the fallback, still in waiting order. */
  ghost function Stuck(w: seq<Key>, g: Graph, done: set<Key>): seq<Key>
    decreases |w|
  {
    var i := FirstReady(w, g, done);
    if i == |w| then w else Stuck(Drop(w, i), g, done + {w[i]})
  }

  ghost function Order(u: seq<Key>, g: Graph): seq<Key> {
    Emitted(u, g, {}) + Stuck(u, g, {})
  }

  ghost function SortedKeys(keys: seq<Key>, edges: seq<Edge>): seq<Key> {
    Order(Universe(keys), GraphOf(Elements(keys), edges))
  }

  // ----- Sorting a duplicate-free list by a position dictionary -----

  ghost predicate Ascending(s: seq<Key>, order: map<Key, nat>) {
    && (forall k :: k in s ==> k in order)
    && forall i, j :: 0 <= i < j < |s| ==> order[s[i]] < order[s[j]]
  }

  ghost predicate Injective(order: map<Key, nat>) {
    forall a, b :: a in order && b in order && a != b ==> order[a] != order[b]
  }

  lemma EmptyElements<T>(s: seq<T>)
    ensures Elements(s) == {} <==> s == []
  {
    if s != [] { assert s[0] in Elements(s); }
  }

  lemma {:induction false} AscendingListsAgree(a: seq<Key>, b: seq<Key>, order: map<Key, nat>)
    requires Ascending(a, order) && Ascending(b, order)
    requires Elements(a) == Elements(b)
    ensures a == b
  {
    if a == [] {
      EmptyElements(b);
    } else {
      assert a[0] in Elements(b);
      assert a[0] in Elements(b) && b[0] in Elements(a);
      assert a[0] == b[0];
      forall x ensures x in Elements(a[1..]) <==> x in Elements(b[1..]) {
        assert x in Elements(a) <==> x == a[0] || x in a[1..];
        assert x in Elements(b) <==> x == b[0] || x in b[1..];
      }
      AscendingListsAgree(a[1..], b[1..], order);
    }
  }

  function Insert(k: Key, s: seq<Key>, order: map<Key, nat>): (r: seq<Key>)
    requires k in order && forall x :: x in s ==> x in order
    ensures Elements(r) == {k} + Elements(s)
    ensures forall x :: x in r <==> x == k || x in s
  {
    if s == [] then [k]
    else if order[k] < order[s[0]] then [k] + s
    else [s[0]] + Insert(k, s[1..], order)
  }

  lemma {:induction false} InsertAscending(k: Key, s: seq<Key>, order: map<Key, nat>)
    requires k in order && k !in s && Injective(order) && Ascending(s, order)
    ensures Ascending(Insert(k, s, order), order)
  {
    if s != [] && order[k] >= order[s[0]] {
      InsertAscending(k, s[1..], order);
      var t := Insert(k, s[1..], order);
      forall x | x in t ensures order[s[0]] < order[x] {
        assert x == k || x in s[1..];
      }
    }
  }

  /** Python's sort by position. */
  function SortByPosition(s: seq<Key>, order: map<Key, nat>): (r: seq<Key>)
    requires forall x :: x in s ==> x in order
    ensures forall x :: x in r <==> x in s
  {
    if s == [] then [] else Insert(s[0], SortByPosition(s[1..], order), order)
  }

  /** Sorting a list without duplicates gives the one ascending list of its elements. */
  lemma {:induction false} SortByPositionAscending(s: seq<Key>, order: map<Key, nat>)
    requires (forall x :: x in s ==> x in order) && Distinct(s) && Injective(order)
    ensures Ascending(SortByPosition(s, order), order)
  {
    if s != [] {
      SortByPositionAscending(s[1..], order);
      InsertAscending(s[0], SortByPosition(s[1..], order), order);
    }
  }

  // ----- Facts the loops rest on -----

  /** order maps every key to off plus its last index in keys. */
  ghost predicate LastPositions(keys: seq<Key>, order: map<Key, nat>, off: nat) {
    forall k :: k in keys ==>
      && k in order
      && off <= order[k] < off + |keys|
      && keys[order[k] - off] == k
      && forall j :: order[k] - off < j < |keys| ==> keys[j] != k
  }

  lemma {:induction false} UniverseAscending(keys: seq<Key>, order: map<Key, nat>, off: nat)
    requires LastPositions(keys, order, off)
    ensures Ascending(Universe(keys), order)
  {
    var u := Universe(keys);
    forall k | k in u ensures k in order { assert k in Elements(u); }
    if keys != [] {
      forall k | k in keys[1..]
        ensures && k in order && off + 1 <= order[k] < off + |keys| && keys[1..][order[k] - off - 1] == k
                && forall j :: order[k] - off - 1 < j < |keys[1..]| ==> keys[1..][j] != k
      {
        var j :| 0 <= j < |keys[1..]| && keys[1..][j] == k;
        assert keys[j + 1] == k;
        assert order[k] >= off + 1 + j;
      }
      UniverseAscending(keys[1..], order, off + 1);
      if keys[0] !in keys[1..] {
        var rest := Universe(keys[1..]);
        assert order[keys[0]] == off;
        forall x | x in rest ensures order[keys[0]] < order[x] {
          assert x in Elements(rest) && x in Elements(keys[1..]);
        }
      }
    }
  }

  lemma AscendingHasNoDuplicates(s: seq<Key>, order: map<Key, nat>)
    requires Ascending(s, order)
    ensures Distinct(s)
  {
    forall i, j | 0 <= i < j < |s| ensures s[i] != s[j] {
      assert order[s[i]] < order[s[j]];
    }
  }

  ghost function ReadySet(w: seq<Key>, g: Graph, done: set<Key>): set<Key> {
    set k | k in w && Ready(g, done, k)
  }

  /** The head of an ascending ready list is the table the specification emits next. */
  lemma HeadIsFirstReady(w: seq<Key>, g: Graph, done: set<Key>, ready: seq<Key>, order: map<Key, nat>)
    requires Ascending(w, order) && Ascending(ready, order)
    requires Elements(ready) == ReadySet(w, g, done)
    ensures ready == [] ==> FirstReady(w, g, done) == |w|
    ensures ready != [] ==> FirstReady(w, g, done) < |w| && w[FirstReady(w, g, done)] == ready[0]
  {
    var i := FirstReady(w, g, done);
    if i < |w| {
      assert w[i] in Elements(ready);
    }
    if ready != [] {
      assert ready[0] in Elements(ready);
      var j :| 0 <= j < |w| && w[j] == ready[0];
      assert w[i] in ready;
      assert order[ready[0]] <= order[w[i]];
    }
  }

  lemma DropElements(w: seq<Key>, i: nat, order: map<Key, nat>)
    requires Ascending(w, order) && i < |w|
    ensures Ascending(Drop(w, i), order)
    ensures Elements(Drop(w, i)) == Elements(w) - {w[i]}
  {
    forall x ensures x in Drop(w, i) <==> x in w && x != w[i] {
      if x in w && x != w[i] {
        var j :| 0 <= j < |w| && w[j] == x;
        assert j < i ==> Drop(w, i)[j] == x;
        assert j > i ==> Drop(w, i)[j - 1] == x;
      }
    }
  }

  // ----- The imperative sort -----

  function KeysOf<T>(tables: seq<T>, key: T -> Key): (r: seq<Key>)
    ensures |r| == |tables| && forall i :: 0 <= i < |r| ==> r[i] == key(tables[i])
  {
    seq(|tables|, i requires 0 <= i < |tables| => key(tables[i]))
  }

  /** A set or dictionary turned into a list: the iteration order is unspecified. */
  method ListOf(s: set<Key>) returns (list: seq<Key>)
    ensures Elements(list) == s && Distinct(list)
  {
    list := [];
    var rest := s;
    while rest != {}
      invariant rest <= s && Elements(list) == s - rest && Distinct(list)
      decreases |rest|
    {
      var k :| k in rest;
      assert k !in Elements(list);
      assert Elements(list + [k]) == Elements(list) + {k};
      list, rest := list + [k], rest - {k};
    }
  }

  /** Position dictionary and table dictionary; a repeated key keeps its last entry. */
  method Index<T>(tables: seq<T>, key: T -> Key)
    returns (keyToTable: map<Key, T>, originalOrder: map<Key, nat>)
    ensures keyToTable.Keys == originalOrder.Keys == Elements(KeysOf(tables, key))
    ensures LastPositions(KeysOf(tables, key), originalOrder, 0) && Injective(originalOrder)
    ensures forall k :: k in keyToTable ==> originalOrder[k] < |tables| && keyToTable[k] == tables[originalOrder[k]]
  {
    keyToTable, originalOrder := map[], map[];
    for n := 0 to |tables|
      invariant keyToTable.Keys == originalOrder.Keys == set i | 0 <= i < n :: key(tables[i])
      invariant forall k :: k in originalOrder ==>
        && originalOrder[k] < n
        && key(tables[originalOrder[k]]) == k
        && keyToTable[k] == tables[originalOrder[k]]
        && forall j :: originalOrder[k] < j < n ==> key(tables[j]) != k
    {
      keyToTable := keyToTable[key(tables[n]) := tables[n]];
      originalOrder := originalOrder[key(tables[n]) := n];
    }
    var keys := KeysOf(tables, key);
    forall k ensures k in originalOrder <==> k in Elements(keys) {
      if k in keys { var i :| 0 <= i < |keys| && keys[i] == k; assert key(tables[i]) == k; }
      if k in originalOrder { assert keys[originalOrder[k]] == k; }
    }
  }

  lemma ParentsExtend(nodes: set<Key>, edges: seq<Edge>, e: Edge, child: Key)
    ensures Parents(nodes, edges + [e], child)
         == Parents(nodes, edges, child) + if e.0 == child && e.1 in nodes && e.1 != child then {e.1} else {}
  {
    forall p | p in Parents(nodes, edges, child) ensures p in Parents(nodes, edges + [e], child) {
      var f :| f in edges && f.0 == child && f.1 == p && f.1 in nodes && f.1 != child;
      assert f in edges + [e];
    }
    assert e in edges + [e];
  }

  /** One more edge adds at most one parent, to the child it names. */
  lemma GraphExtend(nodes: set<Key>, edges: seq<Edge>, e: Edge)
    ensures GraphOf(nodes, edges + [e])
         == var g := GraphOf(nodes, edges);
            if e.0 in nodes && e.1 in nodes && e.0 != e.1 then g[e.0 := g[e.0] + {e.1}] else g
  {
    var g := GraphOf(nodes, edges);
    var h := if e.0 in nodes && e.1 in nodes && e.0 != e.1 then g[e.0 := g[e.0] + {e.1}] else g;
    assert h.Keys == nodes;
    forall k | k in nodes ensures Parents(nodes, edges + [e], k) == h[k] {
      ParentsExtend(nodes, edges, e, k);
    }
  }

  lemma NoEdges(nodes: set<Key>)
    ensures GraphOf(nodes, []) == map k | k in nodes :: {}
  {
    forall k ensures Parents(nodes, [], k) == {} {}
  }

  /** reverse is graph with every edge turned round. */
  ghost predicate Reverses(nodes: set<Key>, graph: Graph, reverse: Graph) {
    && graph.Keys == reverse.Keys == nodes
    && (forall p :: p in nodes ==> reverse[p] <= nodes)
    && (forall c, p :: c in nodes && p in nodes ==> (c in reverse[p] <==> p in graph[c]))
  }

  lemma ReversesExtend(nodes: set<Key>, graph: Graph, reverse: Graph, child: Key, parent: Key)
    requires Reverses(nodes, graph, reverse) && child in nodes && parent in nodes
    ensures Reverses(nodes, graph[child := graph[child] + {parent}], reverse[parent := reverse[parent] + {child}])
  {
  }

  /** Dependency sets in both directions, from the declared edges. */
  method BuildDependencies(nodes: set<Key>, edges: seq<Edge>)
    returns (dependencies: Graph, reverseDeps: Graph)
    ensures dependencies == GraphOf(nodes, edges)
    ensures Reverses(nodes, dependencies, reverseDeps)
  {
    dependencies := map k | k in nodes :: {};
    reverseDeps := map k | k in nodes :: {};
    NoEdges(nodes);
    assert edges[..0] == [];
    for n := 0 to |edges|
      invariant dependencies == GraphOf(nodes, edges[..n])
      invariant Reverses(nodes, dependencies, reverseDeps)
    {
      var (child, parent) := edges[n];
      assert edges[..n + 1] == edges[..n] + [edges[n]];
      GraphExtend(nodes, edges[..n], edges[n]);
      if child !in nodes || parent !in nodes || child == parent {
        continue;
      }
      if parent in dependencies[child] {
        assert dependencies[child] + {parent} == dependencies[child];
        continue;
      }
      ReversesExtend(nodes, dependencies, reverseDeps, child, parent);
      dependencies := dependencies[child := dependencies[child] + {parent}];
      reverseDeps := reverseDeps[parent := reverseDeps[parent] + {child}];
    }
    assert edges[..|edges|] == edges;
  }

  lemma ElementsPrefix<T>(s: seq<T>, n: nat)
    requires n < |s| && Distinct(s)
    ensures Elements(s[..n + 1]) == Elements(s[..n]) + {s[n]}
    ensures s[n] !in Elements(s[..n])
  {
    assert s[..n + 1] == s[..n] + [s[n]];
  }

  /** Number of parents of k that are not done. */
  ghost predicate Counts(g: Graph, done: set<Key>, indegree: map<Key, int>) {
    indegree.Keys == g.Keys && forall k {:trigger indegree[k]} :: k in g ==> indegree[k] == |g[k] - done|
  }

  /** Halfway through the children of current: those in seen are counted down. */
  ghost predicate CountsPartly(g: Graph, done: set<Key>, indegree: map<Key, int>, seen: set<Key>) {
    indegree.Keys == g.Keys && forall k {:trigger indegree[k]} :: k in g ==> indegree[k] == |g[k] - done| - if k in seen then 1 else 0
  }

  /** Members of seen that wait for nothing outside done. */
  ghost function Released(g: Graph, done: set<Key>, seen: set<Key>): set<Key> {
    set c | c in seen && Ready(g, done, c)
  }

  ghost function ChildrenOf(g: Graph, k: Key): set<Key> {
    set c | c in g && k in g[c]
  }

  lemma CountOneChild(g: Graph, done: set<Key>, current: Key, indegree: map<Key, int>, seen: set<Key>, child: Key)
    requires CountsPartly(g, done, indegree, seen)
    requires child in g && current in g[child] && current !in done && child !in seen
    ensures CountsPartly(g, done, indegree[child := indegree[child] - 1], seen + {child})
    ensures indegree[child] == 1 <==> Ready(g, done + {current}, child)
  {
    CountDown(g[child], done, current);
  }

  lemma ReleasedExtend(g: Graph, done: set<Key>, seen: set<Key>, child: Key)
    ensures Released(g, done, seen + {child}) == Released(g, done, seen) + if Ready(g, done, child) then {child} else {}
  {
  }

  lemma AllChildrenCounted(g: Graph, done: set<Key>, current: Key, indegree: map<Key, int>)
    requires CountsPartly(g, done, indegree, ChildrenOf(g, current)) && current !in done
    ensures Counts(g, done + {current}, indegree)
  {
    forall k | k in g ensures indegree[k] == |g[k] - (done + {current})| {
      if current in g[k] { CountDown(g[k], done, current); }
      else { assert g[k] - (done + {current}) == g[k] - done; }
    }
  }

  /** The inner loop: counts down each child of the emitted table and collects those that reach zero. */
  method ReleaseChildren(ghost g: Graph, ghost done: set<Key>, ghost current: Key, children: seq<Key>,
                         indegree0: map<Key, int>, ready0: seq<Key>)
    returns (indegree: map<Key, int>, ready: seq<Key>)
    requires Counts(g, done, indegree0) && current !in done
    requires Distinct(children) && Distinct(ready0)
    requires Elements(children) == ChildrenOf(g, current)
    requires Elements(ready0) !! Elements(children)
    ensures Counts(g, done + {current}, indegree)
    ensures Distinct(ready)
    ensures Elements(ready) == Elements(ready0) + Released(g, done + {current}, ChildrenOf(g, current))
  {
    indegree, ready := indegree0, ready0;
    ghost var seen := {};
    for n := 0 to |children|
      invariant seen == Elements(children[..n])
      invariant CountsPartly(g, done, indegree, seen)
      invariant Distinct(ready)
      invariant Elements(ready) == Elements(ready0) + Released(g, done + {current}, seen)
    {
      var child := children[n];
      ElementsPrefix(children, n);
      assert child in Elements(children);
      indegree, ready := ReleaseOne(g, done, current, child, seen, Elements(ready0), indegree, ready);
      seen := seen + {child};
    }
    assert children[..|children|] == children;
    AllChildrenCounted(g, done, current, indegree);
  }

  /** One child: counted down, and collected if it waits for nothing else. */
  method ReleaseOne(ghost g: Graph, ghost done: set<Key>, ghost current: Key, child: Key, ghost seen: set<Key>,
                    ghost before: set<Key>, indegree0: map<Key, int>, ready0: seq<Key>)
    returns (indegree: map<Key, int>, ready: seq<Key>)
    requires CountsPartly(g, done, indegree0, seen) && current !in done
    requires child in g && current in g[child] && child !in seen && child !in before
    requires Distinct(ready0) && Elements(ready0) == before + Released(g, done + {current}, seen)
    ensures CountsPartly(g, done, indegree, seen + {child})
    ensures Distinct(ready) && Elements(ready) == before + Released(g, done + {current}, seen + {child})
  {
    CountOneChild(g, done, current, indegree0, seen, child);
    ReleasedExtend(g, done + {current}, seen, child);
    indegree, ready := indegree0[child := indegree0[child] - 1], ready0;
    if indegree[child] == 0 {
      assert child !in Elements(ready);
      ready := Append(ready, child);
    }
  }

  function Append<T>(s: seq<T>, x: T): (r: seq<T>)
    ensures r == s + [x] && Elements(r) == Elements(s) + {x}
    ensures Distinct(s) && x !in Elements(s) ==> Distinct(r)
  {
    s + [x]
  }

  lemma CountDown(parents: set<Key>, done: set<Key>, current: Key)
    requires current in parents && current !in done
    ensures |parents - (done + {current})| == |parents - done| - 1
    ensures |parents - done| == 1 <==> parents <= done + {current}
  {
    assert parents - done == (parents - (done + {current})) + {current};
    assert |parents - (done + {current})| == 0 <==> parents - (done + {current}) == {};
  }

  /** What the emission loop keeps.  w lists the tables still waiting, in position order. */
  ghost predicate Waiting(g: Graph, order: map<Key, nat>, w: seq<Key>, done: set<Key>) {
    && Ascending(w, order)
    && Elements(w) == g.Keys - done
    && done <= g.Keys
    && forall k :: k in done ==> g[k] <= done
  }

  /** Emitting a ready table makes ready exactly those of its children that waited for nothing else. */
  lemma EmissionStep(g: Graph, order: map<Key, nat>, w: seq<Key>, done: set<Key>, current: Key, w': seq<Key>)
    requires Waiting(g, order, w, done) && current in ReadySet(w, g, done)
    requires Ascending(w', order) && Elements(w') == Elements(w) - {current}
    ensures current in g && current !in done && Waiting(g, order, w', done + {current})
    ensures ReadySet(w, g, done) !! ChildrenOf(g, current)
    ensures ReadySet(w', g, done + {current})
         == (ReadySet(w, g, done) - {current}) + Released(g, done + {current}, ChildrenOf(g, current))
  {
    var children := ChildrenOf(g, current);
    assert current in Elements(w);
    forall k ensures k in w' <==> k in w && k != current {
      assert k in w' <==> k in Elements(w');
      assert k in w <==> k in Elements(w);
    }
    forall k | k in children && g[k] <= done + {current} ensures k in w' {
      assert k !in done;
      assert k in Elements(w);
    }
  }

  lemma RootsAreReady(g: Graph, order: map<Key, nat>, u: seq<Key>, indegree: map<Key, int>)
    requires Waiting(g, order, u, {})
    requires indegree.Keys == g.Keys && forall k {:trigger indegree[k]} :: k in g ==> indegree[k] == |g[k]|
    ensures Counts(g, {}, indegree)
    ensures ReadySet(u, g, {}) == set k | k in indegree && indegree[k] == 0
  {
    forall k ensures k in u <==> k in g {
      assert k in u <==> k in Elements(u);
    }
    forall k | k in g ensures g[k] - {} == g[k] && (|g[k]| == 0 <==> g[k] <= {}) {}
  }

  /** The initial dictionaries: every indegree is a full parent count, the ready list holds the roots. */
  method Start(dependencies: Graph, originalOrder: map<Key, nat>, ghost u: seq<Key>)
    returns (indegree: map<Key, int>, ready: seq<Key>)
    requires Injective(originalOrder) && dependencies.Keys == originalOrder.Keys
    requires Waiting(dependencies, originalOrder, u, {})
    ensures Counts(dependencies, {}, indegree)
    ensures Ascending(ready, originalOrder) && Elements(ready) == ReadySet(u, dependencies, {})
  {
    indegree := map k | k in dependencies :: |dependencies[k]|;
    RootsAreReady(dependencies, originalOrder, u, indegree);
    var roots := set k | k in indegree && indegree[k] == 0;
    ready := SortedList(roots, originalOrder);
  }

  /** One round of the emission loop: the first ready table is emitted and its children released. */
  method EmitOne(g: Graph, reverseDeps: Graph, order: map<Key, nat>, ghost w: seq<Key>, ghost done: set<Key>,
                 indegree0: map<Key, int>, ready0: seq<Key>)
    returns (current: Key, indegree: map<Key, int>, ready: seq<Key>, ghost w': seq<Key>)
    requires Injective(order) && g.Keys == order.Keys && Reverses(g.Keys, g, reverseDeps)
    requires Waiting(g, order, w, done) && Counts(g, done, indegree0)
    requires Ascending(ready0, order) && Elements(ready0) == ReadySet(w, g, done) && ready0 != []
    ensures current !in done && Waiting(g, order, w', done + {current}) && |w'| < |w|
    ensures Emitted(w, g, done) == [current] + Emitted(w', g, done + {current})
    ensures Stuck(w, g, done) == Stuck(w', g, done + {current})
    ensures Counts(g, done + {current}, indegree)
    ensures Ascending(ready, order) && Elements(ready) == ReadySet(w', g, done + {current})
  {
    current := ready0[0];
    AscendingHasNoDuplicates(ready0, order);
    HeadAndRest(ready0);
    w' := EmitHead(g, order, w, done, ready0);
    indegree, ready := Release(g, reverseDeps, order, done, current, indegree0, ready0[1..]);
  }

  /** Children in position order are counted down, then the ready list is sorted again. */
  method Release(ghost g: Graph, reverseDeps: Graph, order: map<Key, nat>, ghost done: set<Key>, current: Key,
                 indegree0: map<Key, int>, ready0: seq<Key>)
    returns (indegree: map<Key, int>, ready: seq<Key>)
    requires Injective(order) && g.Keys == order.Keys && Reverses(g.Keys, g, reverseDeps)
    requires Counts(g, done, indegree0) && current in g && current !in done
    requires Distinct(ready0) && Elements(ready0) <= g.Keys && Elements(ready0) !! ChildrenOf(g, current)
    ensures Counts(g, done + {current}, indegree)
    ensures Ascending(ready, order)
    ensures Elements(ready) == Elements(ready0) + Released(g, done + {current}, ChildrenOf(g, current))
  {
    assert reverseDeps[current] == ChildrenOf(g, current);
    var children := SortedList(reverseDeps[current], order);
    indegree, ready := ReleaseChildren(g, done, current, children, indegree0, ready0);
    ready := Resort(ready, order);
  }

  lemma EmitHead(g: Graph, order: map<Key, nat>, w: seq<Key>, done: set<Key>, ready: seq<Key>) returns (w': seq<Key>)
    requires Waiting(g, order, w, done) && Ascending(ready, order)
    requires Elements(ready) == ReadySet(w, g, done) && ready != []
    ensures var current, done' := ready[0], done + {ready[0]};
            && current in g && current !in done && Waiting(g, order, w', done') && |w'| < |w|
            && Emitted(w, g, done) == [current] + Emitted(w', g, done')
            && Stuck(w, g, done) == Stuck(w', g, done')
            && Elements(ready) !! ChildrenOf(g, current)
            && ReadySet(w', g, done') == (Elements(ready) - {current}) + Released(g, done', ChildrenOf(g, current))
  {
    var i := FirstReady(w, g, done);
    assert ready[0] in Elements(ready);
    HeadIsFirstReady(w, g, done, ready, order);
    DropElements(w, i, order);
    w' := Drop(w, i);
    EmissionStep(g, order, w, done, ready[0], w');
  }

  /** Kahn's algorithm proper, from the dependency sets to the emitted keys. */
  method EmitKeys(dependencies: Graph, reverseDeps: Graph, originalOrder: map<Key, nat>, ghost u: seq<Key>)
    returns (orderedKeys: seq<Key>)
    requires Injective(originalOrder) && dependencies.Keys == originalOrder.Keys
    requires Reverses(dependencies.Keys, dependencies, reverseDeps)
    requires Waiting(dependencies, originalOrder, u, {})
    ensures orderedKeys == Emitted(u, dependencies, {})
    ensures Distinct(orderedKeys) && Elements(orderedKeys) <= dependencies.Keys
    ensures Elements(Stuck(u, dependencies, {})) == dependencies.Keys - Elements(orderedKeys)
    ensures Ascending(Stuck(u, dependencies, {}), originalOrder)
  {
    var indegree, ready := Start(dependencies, originalOrder, u);
    orderedKeys := [];
    ghost var w, done := u, {};
    while ready != []
      invariant Waiting(dependencies, originalOrder, w, done) && done == Elements(orderedKeys)
      invariant Counts(dependencies, done, indegree)
      invariant Ascending(ready, originalOrder) && Elements(ready) == ReadySet(w, dependencies, done)
      invariant Distinct(orderedKeys)
      invariant orderedKeys + Emitted(w, dependencies, done) == Emitted(u, dependencies, {})
      invariant Stuck(w, dependencies, done) == Stuck(u, dependencies, {})
      decreases |w|
    {
      var current;
      ghost var w0 := w;
      current, indegree, ready, w := EmitOne(dependencies, reverseDeps, originalOrder, w, done, indegree, ready);
      AppendAssociates(orderedKeys, current, Emitted(w, dependencies, done + {current}));
      orderedKeys := Append(orderedKeys, current);
      done := done + {current};
    }
    HeadIsFirstReady(w, dependencies, done, ready, originalOrder);
  }

  lemma AppendAssociates<T>(s: seq<T>, x: T, t: seq<T>)
    ensures s + ([x] + t) == Append(s, x) + t
  {
  }

  lemma HeadAndRest<T>(s: seq<T>)
    requires s != [] && Distinct(s)
    ensures Distinct(s[1..]) && Elements(s[1..]) == Elements(s) - {s[0]}
  {
    assert Elements(s) == {s[0]} + Elements(s[1..]);
  }

  /** The keys of a set in the order of their positions. */
  method SortedList(keys: set<Key>, order: map<Key, nat>) returns (list: seq<Key>)
    requires keys <= order.Keys && Injective(order)
    ensures Elements(list) == keys && Distinct(list) && Ascending(list, order)
  {
    list := ListOf(keys);
    list := Resort(list, order);
    AscendingHasNoDuplicates(list, order);
  }

  method Resort(list: seq<Key>, order: map<Key, nat>) returns (sorted: seq<Key>)
    requires Distinct(list) && Elements(list) <= order.Keys && Injective(order)
    ensures Ascending(sorted, order) && Elements(sorted) == Elements(list)
  {
    assert forall k :: k in list ==> k in Elements(list);
    SortByPositionAscending(list, order);
    sorted := SortByPosition(list, order);
  }

  /** The sort on keys: emitted tables first, then whatever the cycles hold back. */
  method SortKeys(dependencies: Graph, reverseDeps: Graph, originalOrder: map<Key, nat>, ghost u: seq<Key>)
    returns (orderedKeys: seq<Key>)
    requires Injective(originalOrder) && dependencies.Keys == originalOrder.Keys
    requires Reverses(dependencies.Keys, dependencies, reverseDeps)
    requires Waiting(dependencies, originalOrder, u, {})
    ensures orderedKeys == Order(u, dependencies)
    ensures Elements(orderedKeys) == dependencies.Keys
  {
    orderedKeys := EmitKeys(dependencies, reverseDeps, originalOrder, u);
    ghost var stuck := Stuck(u, dependencies, {});
    Leftovers(dependencies.Keys, orderedKeys, stuck);
    if |orderedKeys| < |dependencies.Keys| {
      var remaining := SortedList(dependencies.Keys - Elements(orderedKeys), originalOrder);
      AscendingListsAgree(remaining, stuck, originalOrder);
      orderedKeys := orderedKeys + remaining;
    }
  }

  lemma Leftovers(nodes: set<Key>, emitted: seq<Key>, stuck: seq<Key>)
    requires Elements(emitted) <= nodes && Elements(stuck) == nodes - Elements(emitted) && Distinct(emitted)
    ensures Elements(emitted + stuck) == nodes
    ensures |emitted| >= |nodes| ==> emitted + stuck == emitted
  {
    SetSize(emitted);
    EmptyElements(stuck);
    forall k ensures k in Elements(emitted + stuck) <==> k in Elements(emitted) || k in Elements(stuck) {}
    assert |nodes - Elements(emitted)| == |nodes| - |emitted|;
  }

  method SortTablesByFk<T>(tables: seq<T>, key: T -> Key, fkEdges: seq<Edge>) returns (ordered: seq<T>)
    ensures KeysOf(ordered, key) == SortedKeys(KeysOf(tables, key), fkEdges)
    ensures forall t :: t in ordered ==> IsLastEntry(tables, key, t)
  {
    ghost var keys := KeysOf(tables, key);
    var keyToTable, originalOrder := Index(tables, key);
    var dependencies, reverseDeps := BuildDependencies(keyToTable.Keys, fkEdges);
    UniverseAscending(keys, originalOrder, 0);
    var orderedKeys := SortKeys(dependencies, reverseDeps, originalOrder, Universe(keys));
    ordered := Lookup(tables, key, keyToTable, originalOrder, orderedKeys);
  }

  /** t stands in the list and no later entry has its key. */
  ghost predicate IsLastEntry<T>(tables: seq<T>, key: T -> Key, t: T) {
    exists i :: 0 <= i < |tables| && tables[i] == t && key(t) !in KeysOf(tables[i + 1..], key)
  }

  /** The entries of the sorted keys, each key looked up in the dictionary. */
  method Lookup<T>(ghost tables: seq<T>, ghost key: T -> Key, keyToTable: map<Key, T>,
                   ghost originalOrder: map<Key, nat>, orderedKeys: seq<Key>) returns (ordered: seq<T>)
    requires keyToTable.Keys == originalOrder.Keys == Elements(orderedKeys) == Elements(KeysOf(tables, key))
    requires LastPositions(KeysOf(tables, key), originalOrder, 0)
    requires forall k :: k in keyToTable ==> originalOrder[k] < |tables| && keyToTable[k] == tables[originalOrder[k]]
    ensures KeysOf(ordered, key) == orderedKeys
    ensures forall t :: t in ordered ==> IsLastEntry(tables, key, t)
  {
    forall n | 0 <= n < |orderedKeys| ensures orderedKeys[n] in keyToTable {
      assert orderedKeys[n] in Elements(orderedKeys);
    }
    ordered := seq(|orderedKeys|, n requires 0 <= n < |orderedKeys| => keyToTable[orderedKeys[n]]);
    forall n | 0 <= n < |ordered|
      ensures key(ordered[n]) == orderedKeys[n]
      ensures var i := originalOrder[orderedKeys[n]];
              i < |tables| && tables[i] == ordered[n] && key(ordered[n]) !in KeysOf(tables[i + 1..], key)
    {
      var k := orderedKeys[n];
      assert k in Elements(KeysOf(tables, key));
      var i := originalOrder[k];
      assert KeysOf(tables, key)[i] == k;
      assert KeysOf(tables[i + 1..], key) == KeysOf(tables, key)[i + 1..];
    }
  }
}
