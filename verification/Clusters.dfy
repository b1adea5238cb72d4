/** Clusters: the connected components of the relation "shares a vertex". */
module Clusters {
  import opened Prelude

  /** The vertex identifiers of each tetrahedron, and the tetrahedra at each vertex. */
  type TetraVerts = map<Id, seq<Id>>
  type VertexTetras = map<Id, seq<Id>>

  /** The second map is the inverse of the first. */
  ghost predicate Inverse(tv: TetraVerts, v2t: VertexTetras) {
    forall v, t :: t in tv && v in tv[t] <==> v in v2t && t in v2t[v]
  }

  // ---- Connection -----------------------------------------------------------------------

  ghost predicate Linked(tv: TetraVerts, a: Id, b: Id) {
    a in tv && b in tv && exists v :: v in tv[a] && v in tv[b]
  }

  ghost predicate IsWalk(tv: TetraVerts, p: seq<Id>) {
    && |p| > 0
    && p[0] in tv
    && forall i :: 0 <= i < |p| - 1 ==> Linked(tv, p[i], p[i + 1])
  }

  /** Some chain of shared vertices leads from `a` to `b`. */
  ghost predicate Connected(tv: TetraVerts, a: Id, b: Id) {
    exists p :: IsWalk(tv, p) && p[0] == a && p[|p| - 1] == b
  }

  ghost predicate ClosedUnderLinks(tv: TetraVerts, s: set<Id>) {
    forall a, b :: a in s && Linked(tv, a, b) ==> b in s
  }

  lemma NothingIsClosed(tv: TetraVerts)
    ensures ClosedUnderLinks(tv, {})
  {
  }

  lemma ConnectedToItself(tv: TetraVerts, a: Id)
    requires a in tv
    ensures Connected(tv, a, a)
  {
    assert IsWalk(tv, [a]);
  }

  lemma ConnectedOneFurther(tv: TetraVerts, a: Id, b: Id, c: Id)
    requires Connected(tv, a, b) && Linked(tv, b, c)
    ensures Connected(tv, a, c)
  {
    var p :| IsWalk(tv, p) && p[0] == a && p[|p| - 1] == b;
    var q := p + [c];
    forall i | 0 <= i < |q| - 1
      ensures Linked(tv, q[i], q[i + 1])
    {
      if i < |p| - 1 {
        assert Linked(tv, p[i], p[i + 1]);
      }
    }
    assert IsWalk(tv, q);
  }

  lemma {:induction false} WalksStayInside(tv: TetraVerts, s: set<Id>, p: seq<Id>)
    requires ClosedUnderLinks(tv, s) && IsWalk(tv, p) && p[0] in s
    ensures p[|p| - 1] in s
    decreases |p|
  {
    if |p| > 1 {
      assert Linked(tv, p[0], p[0 + 1]);
      var rest := p[1..];
      forall i | 0 <= i < |rest| - 1
        ensures Linked(tv, rest[i], rest[i + 1])
      {
        assert Linked(tv, p[i + 1], p[i + 1 + 1]);
      }
      WalksStayInside(tv, s, rest);
    }
  }

  lemma ClosedContainsConnected(tv: TetraVerts, s: set<Id>, a: Id, b: Id)
    requires ClosedUnderLinks(tv, s) && a in s && Connected(tv, a, b)
    ensures b in s
  {
    var p :| IsWalk(tv, p) && p[0] == a && p[|p| - 1] == b;
    WalksStayInside(tv, s, p);
  }

  ghost function ComponentOf(tv: TetraVerts, a: Id): set<Id> {
    set b | b in tv && Connected(tv, a, b)
  }

  lemma ComponentIsClosed(tv: TetraVerts, a: Id)
    ensures ClosedUnderLinks(tv, ComponentOf(tv, a))
  {
    forall b, c | b in ComponentOf(tv, a) && Linked(tv, b, c)
      ensures c in ComponentOf(tv, a)
    {
      ConnectedOneFurther(tv, a, b, c);
    }
  }

  lemma OutsideIsClosed(tv: TetraVerts, s: set<Id>)
    requires ClosedUnderLinks(tv, s)
    ensures ClosedUnderLinks(tv, tv.Keys - s)
  {
    forall a, b | a in tv.Keys - s && Linked(tv, a, b)
      ensures b in tv.Keys - s
    {
      assert Linked(tv, b, a);
    }
  }

  /** Connection does not depend on the direction. */
  lemma ConnectedSymmetric(tv: TetraVerts, a: Id, b: Id)
    requires Connected(tv, a, b)
    ensures Connected(tv, b, a) && a in tv && b in tv
  {
    ComponentIsClosed(tv, b);
    var s := ComponentOf(tv, b);
    var p :| IsWalk(tv, p) && p[0] == a && p[|p| - 1] == b;
    assert a in tv;
    ClosedContainsConnected(tv, tv.Keys, a, b);
    ConnectedToItself(tv, b);
    if a !in s {
      OutsideIsClosed(tv, s);
      ClosedContainsConnected(tv, tv.Keys - s, a, b);
    }
  }

  /** Connected tetrahedra have one and the same component. */
  lemma ConnectedShareComponent(tv: TetraVerts, a: Id, b: Id)
    requires Connected(tv, a, b)
    ensures ComponentOf(tv, a) == ComponentOf(tv, b)
  {
    ConnectedSymmetric(tv, a, b);
    ComponentIsClosed(tv, a);
    ComponentIsClosed(tv, b);
    forall c | c in ComponentOf(tv, a)
      ensures c in ComponentOf(tv, b)
    {
      ClosedContainsConnected(tv, ComponentOf(tv, b), a, c);
    }
    forall c | c in ComponentOf(tv, b)
      ensures c in ComponentOf(tv, a)
    {
      ClosedContainsConnected(tv, ComponentOf(tv, a), b, c);
    }
  }

  // ---- Breadth-first search -----------------------------------------------------------------

  /** Queue the neighbours of `current` that have not been visited. */
  method Expand(tv: TetraVerts, v2t: VertexTetras, current: Id, visited0: set<Id>, queue0: seq<Id>)
    returns (visited: set<Id>, queue: seq<Id>, ghost added: seq<Id>)
    requires Inverse(tv, v2t) && current in tv
    ensures queue == queue0 + added && visited == visited0 + Elems(added)
    ensures NoDup(added) && Elems(added) !! visited0
    ensures forall b :: b in added ==> Linked(tv, current, b)
    ensures forall b :: Linked(tv, current, b) ==> b in visited
  {
    visited, queue, added := visited0, queue0, [];
    var vids := tv[current];
    var i := 0;
    while i < |vids|
      invariant 0 <= i <= |vids|
      invariant queue == queue0 + added && visited == visited0 + Elems(added)
      invariant NoDup(added) && Elems(added) !! visited0
      invariant forall b :: b in added ==> Linked(tv, current, b)
      invariant forall v, b :: v in vids[..i] && b in tv && v in tv[b] ==> b in visited
    {
      var vid := vids[i];
      if vid in v2t {
        var neighbors := v2t[vid];
        var j := 0;
        while j < |neighbors|
          invariant 0 <= j <= |neighbors|
          invariant queue == queue0 + added && visited == visited0 + Elems(added)
          invariant NoDup(added) && Elems(added) !! visited0
          invariant forall b :: b in added ==> Linked(tv, current, b)
          invariant forall v, b :: v in vids[..i] && b in tv && v in tv[b] ==> b in visited
          invariant forall b :: b in neighbors[..j] ==> b in visited
        {
          var n := neighbors[j];
          if n !in visited {
            assert n in neighbors && vid in tv[n] && vid in tv[current];
            assert Elems(added + [n]) == Elems(added) + {n};
            visited := visited + {n};
            queue := queue + [n];
            added := added + [n];
          }
          j := j + 1;
        }
        assert neighbors[..j] == neighbors;
      }
      forall b | b in tv && vid in tv[b]
        ensures b in visited
      {
        assert vid in v2t && b in v2t[vid];
      }
      forall v, b | v in vids[..i + 1] && b in tv && v in tv[b]
        ensures b in visited
      {
        if v != vid {
          assert v in vids[..i];
        }
      }
      i := i + 1;
    }
    assert vids[..i] == vids;
  }

  /** The members of one component in the order in which they are reached from `root`. */
  method Component(tv: TetraVerts, v2t: VertexTetras, root: Id, visited0: set<Id>)
    returns (cluster: seq<Id>, visited: set<Id>)
    requires Inverse(tv, v2t) && root in tv && root !in visited0
    requires ClosedUnderLinks(tv, visited0)
    ensures |cluster| > 0 && cluster[0] == root && NoDup(cluster)
    ensures Elems(cluster) == ComponentOf(tv, root)
    ensures visited == visited0 + Elems(cluster) && Elems(cluster) !! visited0
    ensures ClosedUnderLinks(tv, visited)
  {
    hide Inverse, Connected, Linked;
    cluster := [];
    var queue := [root];
    visited := visited0 + {root};
    ConnectedToItself(tv, root);
    while queue != []
      invariant NoDup(cluster + queue) && Elems(cluster + queue) !! visited0
      invariant visited == visited0 + Elems(cluster + queue)
      invariant |cluster + queue| > 0 && (cluster + queue)[0] == root
      invariant forall b :: b in cluster + queue ==> b in tv && Connected(tv, root, b)
      invariant forall a, b :: a in cluster && Linked(tv, a, b) ==> b in visited
      decreases tv.Keys - visited, |queue|
    {
      var current := queue[0];
      var rest := queue[1..];
      assert cluster + [current] + rest == cluster + queue;
      assert current in cluster + queue;
      ghost var before := cluster + queue;
      ghost var visitedBefore := visited;
      cluster := cluster + [current];
      ghost var added;
      visited, queue, added := Expand(tv, v2t, current, visited, rest);
      assert cluster + queue == before + added;
      assert Elems(before + added) == Elems(before) + Elems(added);
      forall b | b in added
        ensures b in tv && Connected(tv, root, b)
      {
        LinkedAreKnown(tv, current, b);
        ConnectedOneFurther(tv, root, current, b);
      }
      NoDupAppend(before, added);
      if added == [] {
        assert Elems(added) == {};
        assert visited == visitedBefore;
      } else {
        assert added[0] in tv.Keys - visitedBefore && added[0] !in tv.Keys - visited;
      }
    }
    assert cluster + queue == cluster;
    CompletedComponent(tv, root, cluster, visited0);
  }

  lemma LinkedAreKnown(tv: TetraVerts, a: Id, b: Id)
    requires Linked(tv, a, b)
    ensures a in tv && b in tv && Linked(tv, b, a)
  {
  }

  lemma NoDupAppend<T>(s: seq<T>, t: seq<T>)
    requires NoDup(s) && NoDup(t) && Elems(s) !! Elems(t)
    ensures NoDup(s + t)
  {
    forall i, j | 0 <= i < j < |s + t|
      ensures (s + t)[i] != (s + t)[j]
    {
      if i < |s| <= j {
        assert (s + t)[i] in Elems(s) && (s + t)[j] in Elems(t);
      }
    }
  }

  /** A finished search has reached exactly the component of its root. */
  lemma CompletedComponent(tv: TetraVerts, root: Id, cluster: seq<Id>, visited0: set<Id>)
    requires root in cluster && Elems(cluster) !! visited0 && ClosedUnderLinks(tv, visited0)
    requires forall b :: b in cluster ==> b in tv && Connected(tv, root, b)
    requires forall a, b :: a in cluster && Linked(tv, a, b) ==> b in visited0 + Elems(cluster)
    ensures Elems(cluster) == ComponentOf(tv, root)
    ensures ClosedUnderLinks(tv, visited0 + Elems(cluster))
  {
    hide Linked, Connected;
    forall a, b | a in Elems(cluster) && Linked(tv, a, b)
      ensures b in Elems(cluster)
    {
      LinkedAreKnown(tv, a, b);
    }
    forall b | b in ComponentOf(tv, root)
      ensures b in Elems(cluster)
    {
      ClosedContainsConnected(tv, Elems(cluster), root, b);
    }
  }

  // ---- The sorted partition ---------------------------------------------------------------------

  ghost predicate Increasing(s: seq<Id>) {
    forall i, j :: 0 <= i < j < |s| ==> s[i] < s[j]
  }

  /** `c` lists the component of its first member. */
  ghost predicate IsComponent(tv: TetraVerts, c: seq<Id>) {
    |c| > 0 && c[0] in tv && Elems(c) == ComponentOf(tv, c[0])
  }

  /** `clusters` are exactly the components, each sorted, and sorted among themselves. */
  ghost predicate AreComponents(clusters: seq<seq<Id>>, tv: TetraVerts) {
    && (forall c: seq<Id> :: c in clusters ==> IsComponent(tv, c) && Increasing(c))
    && (forall t :: t in tv ==> exists c: seq<Id> :: c in clusters && t in c)
    && (forall i, j :: 0 <= i < j < |clusters| ==> FirstOf(clusters[i]) < FirstOf(clusters[j]))
  }

  function InsertSorted<T>(s: seq<T>, x: T, key: T -> Id): seq<T> {
    if s == [] || key(x) < key(s[0]) then [x] + s else [s[0]] + InsertSorted(s[1..], x, key)
  }

  function SortBy<T>(s: seq<T>, key: T -> Id): seq<T> {
    if s == [] then [] else InsertSorted(SortBy(s[..|s| - 1], key), s[|s| - 1], key)
  }

  ghost predicate IncreasingBy<T>(s: seq<T>, key: T -> Id) {
    forall i, j :: 0 <= i < j < |s| ==> key(s[i]) < key(s[j])
  }

  lemma {:induction false} InsertSortedIsSorted<T>(s: seq<T>, x: T, key: T -> Id)
    requires IncreasingBy(s, key) && forall y :: y in s ==> key(y) != key(x)
    ensures IncreasingBy(InsertSorted(s, x, key), key)
    ensures Elems(InsertSorted(s, x, key)) == Elems(s) + {x}
  {
    if s == [] || key(x) < key(s[0]) {
      assert Elems([x] + s) == {x} + Elems(s);
    } else {
      InsertSortedIsSorted(s[1..], x, key);
      var r := InsertSorted(s[1..], x, key);
      assert Elems([s[0]] + r) == {s[0]} + Elems(r);
      assert Elems(s) == {s[0]} + Elems(s[1..]);
      forall y | y in r
        ensures key(s[0]) < key(y)
      {
        assert y in Elems(r);
      }
    }
  }

  /** Sorting a sequence whose keys are distinct. */
  lemma {:induction false} SortByIsSorted<T>(s: seq<T>, key: T -> Id)
    requires forall i, j :: 0 <= i < j < |s| ==> key(s[i]) != key(s[j])
    ensures IncreasingBy(SortBy(s, key), key) && Elems(SortBy(s, key)) == Elems(s)
  {
    if s != [] {
      var front, x := s[..|s| - 1], s[|s| - 1];
      SortByIsSorted(front, key);
      forall y | y in SortBy(front, key)
        ensures key(y) != key(x)
      {
        assert y in Elems(front);
        var i :| 0 <= i < |front| && front[i] == y;
        assert s[i] == y;
      }
      InsertSortedIsSorted(SortBy(front, key), x, key);
      assert Elems(s) == Elems(front) + {x};
    }
  }

  function FirstOf(c: seq<Id>): Id {
    if c == [] then 0 else c[0]
  }

  /** `found` splits `visited` into whole components. */
  ghost predicate Splits(tv: TetraVerts, found: seq<seq<Id>>, visited: set<Id>) {
    && (forall c: seq<Id> :: c in found ==> IsComponent(tv, c) && NoDup(c) && Elems(c) <= visited)
    && (forall i, j :: 0 <= i < j < |found| ==> Elems(found[i]) !! Elems(found[j]))
    && (forall t :: t in visited ==> exists c: seq<Id> :: c in found && t in c)
  }

  lemma SplitsOneMore(tv: TetraVerts, found: seq<seq<Id>>, visited: set<Id>, c: seq<Id>)
    requires Splits(tv, found, visited) && IsComponent(tv, c) && NoDup(c) && Elems(c) !! visited
    ensures Splits(tv, found + [c], visited + Elems(c))
  {
    hide IsComponent, NoDup;
    var found' := found + [c];
    forall t | t in visited + Elems(c)
      ensures exists d: seq<Id> :: d in found' && t in d
    {
      if t in visited {
        var d: seq<Id> :| d in found && t in d;
        assert d in found';
      } else {
        assert c in found';
      }
    }
    forall i, j | 0 <= i < j < |found'|
      ensures Elems(found'[i]) !! Elems(found'[j])
    {
      if j == |found| {
        assert found[i] in found;
      }
    }
  }

  /** Group the tetrahedra by shared vertices, taking them up in an arbitrary order. */
  method ComputeClusters(tv: TetraVerts, v2t: VertexTetras) returns (clusters: seq<seq<Id>>)
    requires Inverse(tv, v2t)
    ensures AreComponents(clusters, tv)
  {
    hide Inverse, ComponentOf, ClosedUnderLinks, Splits;
    var visited: set<Id> := {};
    NothingIsClosed(tv);
    var found: seq<seq<Id>> := [];
    assert Splits(tv, found, visited) by { NothingIsSplit(tv); }
    var remaining := tv.Keys;
    while remaining != {}
      invariant remaining <= tv.Keys
      invariant tv.Keys <= visited + remaining
      invariant ClosedUnderLinks(tv, visited) && Splits(tv, found, visited)
      decreases remaining
    {
      var id :| id in remaining;
      remaining := remaining - {id};
      if id !in visited {
        ghost var visitedBefore := visited;
        var cluster;
        cluster, visited := Component(tv, v2t, id, visited);
        SplitsOneMore(tv, found, visitedBefore, cluster);
        found := found + [cluster];
      }
    }
    SplitsFacts(tv, found, visited);
    clusters := SortClusters(tv, found);
  }

  lemma NothingIsSplit(tv: TetraVerts)
    ensures Splits(tv, [], {})
  {
  }

  lemma SplitsFacts(tv: TetraVerts, found: seq<seq<Id>>, visited: set<Id>)
    requires Splits(tv, found, visited) && tv.Keys <= visited
    ensures forall c: seq<Id> :: c in found ==> IsComponent(tv, c) && NoDup(c)
    ensures forall i, j :: 0 <= i < j < |found| ==> Elems(found[i]) !! Elems(found[j])
    ensures forall t :: t in tv ==> exists c: seq<Id> :: c in found && t in c
  {
  }

  /** `sorted` is `found` with each cluster put in order. */
  ghost predicate SortedEach(tv: TetraVerts, found: seq<seq<Id>>, sorted: seq<seq<Id>>) {
    && |sorted| <= |found|
    && forall j :: 0 <= j < |sorted| ==>
         IsComponent(tv, sorted[j]) && Increasing(sorted[j]) && Elems(sorted[j]) == Elems(found[j])
  }

  /** Sort each cluster, then the clusters by their first member. */
  method SortClusters(tv: TetraVerts, found: seq<seq<Id>>) returns (clusters: seq<seq<Id>>)
    requires forall c: seq<Id> :: c in found ==> IsComponent(tv, c) && NoDup(c)
    requires forall i, j :: 0 <= i < j < |found| ==> Elems(found[i]) !! Elems(found[j])
    requires forall t :: t in tv ==> exists c: seq<Id> :: c in found && t in c
    ensures AreComponents(clusters, tv)
  {
    hide IsComponent, Increasing, AreComponents, IncreasingBy;
    var sorted: seq<seq<Id>> := [];
    var i := 0;
    while i < |found|
      invariant 0 <= i <= |found| && |sorted| == i
      invariant SortedEach(tv, found, sorted)
    {
      assert found[i] in found;
      SortByIsSorted(found[i], (x: Id) => x);
      var c := SortBy(found[i], (x: Id) => x);
      SortedComponent(tv, found[i], c);
      sorted := sorted + [c];
      i := i + 1;
    }
    FirstsAreDistinct(tv, found, sorted);
    SortByIsSorted(sorted, (c: seq<Id>) => FirstOf(c));
    clusters := SortBy(sorted, (c: seq<Id>) => FirstOf(c));
    SortedClustersAreComponents(tv, found, sorted, clusters);
  }

  lemma FirstsAreDistinct(tv: TetraVerts, found: seq<seq<Id>>, sorted: seq<seq<Id>>)
    requires SortedEach(tv, found, sorted)
    requires forall i, j :: 0 <= i < j < |found| ==> Elems(found[i]) !! Elems(found[j])
    ensures forall a, b :: 0 <= a < b < |sorted| ==> FirstOf(sorted[a]) != FirstOf(sorted[b])
  {
    hide ComponentOf, Increasing;
    forall a, b | 0 <= a < b < |sorted|
      ensures FirstOf(sorted[a]) != FirstOf(sorted[b])
    {
      assert sorted[a][0] in Elems(sorted[a]) && sorted[b][0] in Elems(sorted[b]);
    }
  }

  lemma SortedClustersAreComponents(tv: TetraVerts, found: seq<seq<Id>>, sorted: seq<seq<Id>>, clusters: seq<seq<Id>>)
    requires SortedEach(tv, found, sorted) && |sorted| == |found|
    requires forall t :: t in tv ==> exists c: seq<Id> :: c in found && t in c
    requires IncreasingBy(clusters, (c: seq<Id>) => FirstOf(c)) && Elems(clusters) == Elems(sorted)
    ensures AreComponents(clusters, tv)
  {
    hide IsComponent, Increasing;
    forall c: seq<Id> | c in clusters
      ensures IsComponent(tv, c) && Increasing(c)
    {
      assert c in Elems(sorted);
    }
    forall t | t in tv
      ensures exists c: seq<Id> :: c in clusters && t in c
    {
      var c: seq<Id> :| c in found && t in c;
      var j :| 0 <= j < |found| && found[j] == c;
      assert t in Elems(sorted[j]) && sorted[j] in Elems(clusters);
    }
  }

  lemma SortedComponent(tv: TetraVerts, found: seq<Id>, sorted: seq<Id>)
    requires IsComponent(tv, found)
    requires IncreasingBy(sorted, (x: Id) => x) && Elems(sorted) == Elems(found)
    ensures IsComponent(tv, sorted) && Increasing(sorted)
  {
    assert found[0] in Elems(sorted);
    assert sorted[0] in Elems(found);
    ConnectedShareComponent(tv, found[0], sorted[0]);
  }

  // ---- The partition is determined by the relation ----------------------------------------------

  lemma {:induction false} IncreasingIsDeterminedByElems(a: seq<Id>, b: seq<Id>)
    requires Increasing(a) && Increasing(b) && Elems(a) == Elems(b)
    ensures a == b
    decreases |a|
  {
    if a == [] {
      ElemsEmpty(a);
      ElemsEmpty(b);
    } else {
      assert a[0] in Elems(b);
      assert b[0] in Elems(a);
      assert a[0] == b[0];
      assert Elems(a[1..]) == Elems(a) - {a[0]};
      assert Elems(b[1..]) == Elems(b) - {b[0]};
      IncreasingIsDeterminedByElems(a[1..], b[1..]);
    }
  }

  lemma ComponentHasFirst(tv: TetraVerts, c: seq<Id>)
    requires IsComponent(tv, c)
    ensures |c| > 0 && c[0] in tv
  {
  }

  lemma SharedMemberSameComponent(tv: TetraVerts, c: seq<Id>, d: seq<Id>)
    requires IsComponent(tv, c) && IsComponent(tv, d) && c[0] in d
    ensures Elems(c) == Elems(d)
  {
    hide Connected;
    assert c[0] in Elems(d);
    ConnectedShareComponent(tv, d[0], c[0]);
  }

  lemma ClusterFromItsFirst(clusters: seq<seq<Id>>, clusters': seq<seq<Id>>, tv: TetraVerts, c: seq<Id>)
    requires AreComponents(clusters, tv) && AreComponents(clusters', tv) && c in clusters
    ensures c in clusters'
  {
    hide IsComponent, Elems, Increasing;
    assert IsComponent(tv, c) && Increasing(c);
    ComponentHasFirst(tv, c);
    var d: seq<Id> :| d in clusters' && c[0] in d;
    assert IsComponent(tv, d) && Increasing(d);
    SharedMemberSameComponent(tv, c, d);
    IncreasingIsDeterminedByElems(c, d);
  }

  /** Any two correct answers for one topology are the same list. */
  lemma ComponentsAreUnique(clusters: seq<seq<Id>>, clusters': seq<seq<Id>>, tv: TetraVerts)
    requires AreComponents(clusters, tv) && AreComponents(clusters', tv)
    ensures clusters == clusters'
  {
    hide Connected, Linked;
    forall c: seq<Id>
      ensures c in clusters <==> c in clusters'
    {
      if c in clusters {
        ClusterFromItsFirst(clusters, clusters', tv, c);
      }
      if c in clusters' {
        ClusterFromItsFirst(clusters', clusters, tv, c);
      }
    }
    SameMembersSameOrder(clusters, clusters');
  }

  lemma {:induction false} SameMembersSameOrder(a: seq<seq<Id>>, b: seq<seq<Id>>)
    requires forall c: seq<Id> :: c in a <==> c in b
    requires forall c: seq<Id> :: c in a ==> |c| > 0
    requires forall i, j :: 0 <= i < j < |a| ==> FirstOf(a[i]) < FirstOf(a[j])
    requires forall i, j :: 0 <= i < j < |b| ==> FirstOf(b[i]) < FirstOf(b[j])
    ensures a == b
    decreases |a|
  {
    if a == [] {
      assert forall i :: 0 <= i < |b| ==> b[i] in b;
    } else {
      assert a[0] in b && b != [];
      assert b[0] in a;
      assert a[0] == b[0];
      forall c: seq<Id>
        ensures c in a[1..] <==> c in b[1..]
      {
        assert c in a <==> c == a[0] || c in a[1..];
        assert c in b <==> c == b[0] || c in b[1..];
        assert a[0] !in a[1..] && b[0] !in b[1..];
      }
      SameMembersSameOrder(a[1..], b[1..]);
    }
  }
}
