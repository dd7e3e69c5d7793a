/** Finite directed graphs given by a map from a node to the set of its direct parents.
    Nothing here is specific to tasks: names and ids both serve as nodes. */
module Graph {

  type Graph<T> = map<T, set<T>>

  ghost function Elements<T>(s: seq<T>): set<T> {
    set x | x in s
  }

  ghost predicate Closed<T>(g: Graph<T>) {
    forall t :: t in g ==> g[t] <= g.Keys
  }

  /** A path walks from a node to one of its parents, again and again. */
  ghost predicate IsPath<T>(g: Graph<T>, p: seq<T>) {
    && |p| >= 1
    && (forall i :: 0 <= i < |p| ==> p[i] in g)
    && (forall i :: 0 <= i < |p| - 1 ==> p[i + 1] in g[p[i]])
  }

  ghost predicate PathFromTo<T>(g: Graph<T>, p: seq<T>, a: T, b: T) {
    IsPath(g, p) && p[0] == a && p[|p| - 1] == b
  }

  /** `b` is reached from `a` by one or more edges. */
  ghost predicate Reaches<T(!new)>(g: Graph<T>, a: T, b: T) {
    exists p :: |p| >= 2 && PathFromTo(g, p, a, b)
  }

  ghost predicate Acyclic<T(!new)>(g: Graph<T>) {
    forall t :: t in g ==> !Reaches(g, t, t)
  }

  /** Some edge `t -> p` is implied by another parent of `t` that also reaches `p`. */
  ghost predicate Redundant<T(!new)>(g: Graph<T>, t: T, via: T, p: T) {
    t in g && via in g[t] && p in g[t] && Reaches(g, via, p)
  }

  ghost predicate NoRedundantEdge<T(!new)>(g: Graph<T>) {
    forall t, via, p :: !Redundant(g, t, via, p)
  }

  lemma EdgeReaches<T(!new)>(g: Graph<T>, a: T, b: T)
    requires Closed(g) && a in g && b in g[a]
    ensures Reaches(g, a, b)
  {
    assert PathFromTo(g, [a, b], a, b);
  }

  lemma ReachesEdge<T(!new)>(g: Graph<T>, a: T, b: T, c: T)
    requires Closed(g) && Reaches(g, a, b) && b in g && c in g[b]
    ensures Reaches(g, a, c)
  {
    var p :| |p| >= 2 && PathFromTo(g, p, a, b);
    assert PathFromTo(g, p + [c], a, c);
  }

  lemma ReachesBeyond<T(!new)>(g: Graph<T>, a: T, b: T, c: T)
    requires a in g && b in g[a] && Reaches(g, b, c)
    ensures Reaches(g, a, c)
  {
    var p :| |p| >= 2 && PathFromTo(g, p, b, c);
    var q := [a] + p;
    forall i | 0 <= i < |q| - 1 ensures q[i + 1] in g[q[i]] {
      if i > 0 { assert p[i - 1 + 1] in g[p[i - 1]]; }
    }
    assert PathFromTo(g, q, a, c);
  }

  lemma SubPath<T>(g: Graph<T>, p: seq<T>, i: nat, j: nat)
    requires IsPath(g, p) && i < j <= |p|
    ensures IsPath(g, p[i..j])
  {
    var q := p[i..j];
    forall k | 0 <= k < |q| - 1 ensures q[k + 1] in g[q[k]] {
      assert q[k] == p[i + k] && q[k + 1] == p[i + k + 1];
    }
  }

  /** A set that contains the parents of `t` and of each of its own members contains all
      that `t` reaches. */
  lemma {:induction false} ClosedSetCatchesPath<T>(g: Graph<T>, s: set<T>, p: seq<T>)
    requires IsPath(g, p) && |p| >= 2
    requires g[p[0]] <= s
    requires forall v :: v in s && v in g ==> g[v] <= s
    ensures p[|p| - 1] in s
  {
    if |p| > 2 {
      SubPath(g, p, 0, |p| - 1);
      ClosedSetCatchesPath(g, s, p[..|p| - 1]);
      assert p[|p| - 1] in g[p[|p| - 2]];
    }
  }

  /** More positions than values: some value occurs twice. */
  lemma {:induction false} Pigeonhole<T>(s: seq<T>, u: set<T>) returns (i: nat, j: nat)
    requires |s| > |u| && forall k :: 0 <= k < |s| ==> s[k] in u
    ensures i < j < |s| && s[i] == s[j]
  {
    var last := s[|s| - 1];
    if last in s[..|s| - 1] {
      i :| 0 <= i < |s| - 1 && s[i] == last;
      j := |s| - 1;
    } else {
      i, j := Pigeonhole(s[..|s| - 1], u - {last});
    }
  }

  lemma SubsetSize<T>(a: set<T>, b: set<T>)
    requires a <= b
    ensures |a| <= |b| && (a != b ==> |a| < |b|)
  {
    var rest := b - a;
    assert b == a + rest;
  }

  /** Giving one node `x` other parents keeps a graph acyclic if these lie in a set that no edge
      leaves and that `x` is not in. */
  lemma OneNodeChanged<T(!new)>(g: Graph<T>, g': Graph<T>, x: T, s: set<T>)
    requires Acyclic(g)
    requires forall v :: v in g' && v != x ==> v in g && g'[v] <= g[v]
    requires x !in s && (x in g' ==> g'[x] <= s) && forall v :: v in s && v in g' ==> g'[v] <= s
    ensures Acyclic(g')
  {
    forall t | t in g' ensures !Reaches(g', t, t) {
      if Reaches(g', t, t) {
        var c :| |c| >= 2 && PathFromTo(g', c, t, t);
        NotThroughChanged(g', c, x, s);
        assert PathFromTo(g, c, t, t);
        assert false;
      }
    }
  }

  lemma NotThroughChanged<T(!new)>(g': Graph<T>, c: seq<T>, x: T, s: set<T>)
    requires IsPath(g', c) && |c| >= 2 && c[0] == c[|c| - 1]
    requires x !in s && (x in g' ==> g'[x] <= s) && forall v :: v in s && v in g' ==> g'[v] <= s
    ensures x !in c
  {
    if x in c {
      var i: nat :| i < |c| - 1 && c[i] == x;
      SubPath(g', c, i, |c|);
      ClosedSetCatchesPath(g', s, c[i..]);
      if i > 0 {
        SubPath(g', c, 0, i + 1);
        ClosedSetCatchesPath(g', s, c[..i + 1]);
      }
      assert false;
    }
  }

  /** Each node of `u` has a parent in `u`. */
  ghost predicate NoSink<T>(g: Graph<T>, u: set<T>) {
    u <= g.Keys && forall v :: v in u ==> g[v] * u != {}
  }

  /** A walk of any wanted length that stays in `u`. */
  lemma {:induction false} WalkWithin<T>(g: Graph<T>, u: set<T>, t: T, n: nat) returns (p: seq<T>)
    requires t in u && NoSink(g, u)
    ensures |p| == n + 1 && IsPath(g, p) && p[0] == t && forall k :: 0 <= k < |p| ==> p[k] in u
  {
    if n == 0 {
      p := [t];
    } else {
      var q := WalkWithin(g, u, t, n - 1);
      var last := q[|q| - 1];
      assert g[last] * u != {};
      var w :| w in g[last] * u;
      p := q + [w];
    }
  }

  /** A path that comes back to a node shows a cycle, and the way to it. */
  lemma RepeatedNode<T(!new)>(g: Graph<T>, p: seq<T>, i: nat, j: nat)
    requires IsPath(g, p) && i < j < |p| && p[i] == p[j]
    ensures Reaches(g, p[i], p[i]) && (i > 0 ==> Reaches(g, p[0], p[i]))
  {
    SubPath(g, p, i, j + 1);
    assert PathFromTo(g, p[i..j + 1], p[i], p[i]);
    if i > 0 {
      SubPath(g, p, 0, i + 1);
      assert PathFromTo(g, p[0..i + 1], p[0], p[i]);
    }
  }

  /** If each node of `u` has a parent in `u`, each of them reaches a cycle inside `u`. */
  lemma NoSinkMeansCycle<T(!new)>(g: Graph<T>, u: set<T>, t: T) returns (c: T)
    requires t in u && NoSink(g, u)
    ensures c in u && Reaches(g, c, c) && (c == t || Reaches(g, t, c))
  {
    var p := WalkWithin(g, u, t, |u|);
    var i, j := Pigeonhole(p, u);
    c := p[i];
    RepeatedNode(g, p, i, j);
  }

  // ---------------------------------------------------------------- levels

  /** Each node is 0 without parents, and otherwise one more than its highest parent. */
  ghost predicate IsLevelling<T>(g: Graph<T>, lv: map<T, int>) {
    && lv.Keys == g.Keys
    && (forall t :: t in g ==> lv[t] >= 0)
    && (forall t, p :: t in g && p in g[t] ==> p in lv && lv[p] < lv[t])
    && (forall t :: t in g && lv[t] > 0 ==> exists p :: p in g[t] && p in lv && lv[p] == lv[t] - 1)
  }

  /** A levelling of some nodes and all that they reach. */
  ghost predicate LevelledSoFar<T>(g: Graph<T>, lv: map<T, int>) {
    && lv.Keys <= g.Keys
    && (forall t :: t in lv ==> lv[t] >= 0 && g[t] <= lv.Keys)
    && (forall t, p :: t in lv && p in g[t] && p in lv ==> lv[p] < lv[t])
    && (forall t :: t in lv && lv[t] > 0 ==> ParentOneBelow(g, lv, t, lv[t]))
  }

  lemma {:induction false} Highest<T>(s: set<T>, lv: map<T, int>) returns (h: T)
    requires s != {} && s <= lv.Keys
    ensures h in s && forall p :: p in s ==> lv[p] <= lv[h]
    decreases |s|
  {
    h :| h in s;
    if s != {h} {
      var other := Highest(s - {h}, lv);
      assert forall p :: p in s ==> p == h || p in s - {h};
      if lv[h] < lv[other] { h := other; }
    }
  }

  ghost predicate ParentOneBelow<T>(g: Graph<T>, lv: map<T, int>, t: T, n: int) {
    t in g && exists p :: p in g[t] && p in lv && lv[p] == n - 1
  }

  lemma LevelAt<T>(g: Graph<T>, lv: map<T, int>, t: T, n: nat)
    requires LevelledSoFar(g, lv) && t in g && t !in lv && g[t] <= lv.Keys
    requires (forall p :: p in g[t] ==> lv[p] < n) && (n > 0 ==> ParentOneBelow(g, lv, t, n))
    ensures LevelledSoFar(g, lv[t := n])
  {
    hide ParentOneBelow;
    var next := lv[t := n];
    forall u | u in next && next[u] > 0 ensures ParentOneBelow(g, next, u, next[u]) {
      BelowStays(g, lv, t, n, u, next[u]);
    }
  }

  lemma BelowStays<T>(g: Graph<T>, lv: map<T, int>, t: T, n: int, u: T, m: int)
    requires t !in lv && ParentOneBelow(g, lv, u, m)
    ensures ParentOneBelow(g, lv[t := n], u, m)
  {
    var p :| p in g[u] && p in lv && lv[p] == m - 1;
    assert p in lv[t := n] && lv[t := n][p] == m - 1;
  }

  lemma LevelOneMore<T>(g: Graph<T>, lv: map<T, int>, t: T) returns (next: map<T, int>)
    requires LevelledSoFar(g, lv) && t in g && t !in lv && g[t] <= lv.Keys
    ensures LevelledSoFar(g, next) && next.Keys == lv.Keys + {t}
  {
    if g[t] == {} {
      LevelAt(g, lv, t, 0);
      next := lv[t := 0];
    } else {
      var h := Highest(g[t], lv);
      LevelAt(g, lv, t, lv[h] + 1);
      next := lv[t := lv[h] + 1];
    }
  }

  /** Every acyclic graph has a levelling. */
  lemma AcyclicHasLevelling<T(!new)>(g: Graph<T>) returns (lv: map<T, int>)
    requires Closed(g) && Acyclic(g)
    ensures IsLevelling(g, lv)
  {
    hide LevelledSoFar;
    lv := map[];
    NothingLevelled(g);
    while lv.Keys != g.Keys
      invariant LevelledSoFar(g, lv) && lv.Keys <= g.Keys
      decreases g.Keys - lv.Keys
    {
      var rest := g.Keys - lv.Keys;
      assert g.Keys == lv.Keys + rest;
      var t := NextToLevel(g, rest);
      lv := LevelOneMore(g, lv, t);
    }
    AllLevelled(g, lv);
  }

  lemma NothingLevelled<T>(g: Graph<T>)
    ensures LevelledSoFar(g, map[])
  {
  }

  lemma AllLevelled<T>(g: Graph<T>, lv: map<T, int>)
    requires LevelledSoFar(g, lv) && lv.Keys == g.Keys
    ensures IsLevelling(g, lv)
  {
  }

  /** Some node outside the levelled ones has levelled parents only. */
  lemma NextToLevel<T(!new)>(g: Graph<T>, rest: set<T>) returns (t: T)
    requires Closed(g) && Acyclic(g) && rest <= g.Keys && rest != {}
    ensures t in rest && g[t] <= g.Keys - rest
  {
    var t0 :| t0 in rest;
    if NoSink(g, rest) {
      var c := NoSinkMeansCycle(g, rest, t0);
    }
    t :| t in rest && g[t] * rest == {};
    forall p | p in g[t] ensures p in g.Keys - rest {
      assert p !in g[t] * rest;
    }
  }

  lemma {:induction false} LevelBoundsPath<T>(g: Graph<T>, lv: map<T, int>, p: seq<T>)
    requires IsLevelling(g, lv) && IsPath(g, p)
    ensures lv[p[|p| - 1]] + |p| - 1 <= lv[p[0]]
  {
    if |p| > 1 {
      SubPath(g, p, 0, |p| - 1);
      LevelBoundsPath(g, lv, p[..|p| - 1]);
      assert p[|p| - 1] in g[p[|p| - 2]];
    }
  }

  lemma {:induction false} LevelHasPath<T>(g: Graph<T>, lv: map<T, int>, t: T) returns (p: seq<T>)
    requires IsLevelling(g, lv) && t in g
    ensures IsPath(g, p) && p[0] == t && |p| == lv[t] + 1
    decreases lv[t]
  {
    if lv[t] == 0 {
      p := [t];
    } else {
      var q :| q in g[t] && q in lv && lv[q] == lv[t] - 1;
      var r := LevelHasPath(g, lv, q);
      p := [t] + r;
      forall i | 0 <= i < |p| - 1 ensures p[i + 1] in g[p[i]] {
        if i > 0 { assert p[i] == r[i - 1] && p[i + 1] == r[i]; }
      }
    }
  }

  /** A level is the number of edges of the longest path that starts at the node. */
  lemma LevelIsLongestPath<T(!new)>(g: Graph<T>, lv: map<T, int>, t: T)
    requires IsLevelling(g, lv) && t in g
    ensures exists p :: IsPath(g, p) && p[0] == t && |p| == lv[t] + 1
    ensures forall p :: IsPath(g, p) && p[0] == t ==> |p| <= lv[t] + 1
  {
    var q := LevelHasPath(g, lv, t);
    forall p | IsPath(g, p) && p[0] == t ensures |p| <= lv[t] + 1 {
      LevelBoundsPath(g, lv, p);
    }
  }

  lemma LevelBelowCount<T(!new)>(g: Graph<T>, lv: map<T, int>, t: T)
    requires IsLevelling(g, lv) && t in g
    ensures lv[t] < |g|
  {
    var p := LevelHasPath(g, lv, t);
    if |p| > |g.Keys| {
      var i, j := Pigeonhole(p, g.Keys);
      RepeatedNode(g, p, i, j);
      LevellingMeansAcyclic(g, lv);
    }
  }

  lemma LevellingUnique<T(!new)>(g: Graph<T>, a: map<T, int>, b: map<T, int>)
    requires IsLevelling(g, a) && IsLevelling(g, b)
    ensures a == b
  {
    forall t | t in g ensures a[t] == b[t] {
      LevelIsLongestPath(g, a, t);
      LevelIsLongestPath(g, b, t);
    }
  }

  lemma LevellingMeansAcyclic<T(!new)>(g: Graph<T>, lv: map<T, int>)
    requires IsLevelling(g, lv)
    ensures Acyclic(g)
  {
    forall t, p | t in g && |p| >= 2 && PathFromTo(g, p, t, t) ensures false {
      LevelBoundsPath(g, lv, p);
    }
  }

  // ---------------------------------------------------------------- renaming of nodes

  ghost predicate NodesMatch<S(!new), T(!new)>(g: Graph<S>, h: Graph<T>, f: map<S, T>) {
    && f.Keys == g.Keys
    && (forall a :: a in g ==> f[a] in h)
    && (forall a, b :: a in g && b in g && f[a] == f[b] ==> a == b)
    && (forall y :: y in h ==> exists a :: a in g && f[a] == y)
  }

  ghost predicate EdgesMatch<S(!new), T(!new)>(g: Graph<S>, h: Graph<T>, f: map<S, T>) {
    forall a, b :: a in g && b in g ==> a in f && b in f && f[a] in h && (b in g[a] <==> f[b] in h[f[a]])
  }

  /** `f` renames the nodes of `g` one to one onto the nodes of `h`, edges included. */
  ghost predicate Isomorphic<S(!new), T(!new)>(g: Graph<S>, h: Graph<T>, f: map<S, T>) {
    NodesMatch(g, h, f) && EdgesMatch(g, h, f)
  }

  lemma IsomorphicFromParts<S(!new), T(!new)>(g: Graph<S>, h: Graph<T>, f: map<S, T>)
    requires f.Keys == g.Keys
    requires forall a, b :: a in f && b in f && f[a] == f[b] ==> a == b
    requires forall a :: a in f ==> f[a] in h
    requires forall y :: y in h ==> exists a :: a in f && f[a] == y
    requires forall a, b :: a in g && b in g ==> f[a] in h && (b in g[a] <==> f[b] in h[f[a]])
    ensures Isomorphic(g, h, f)
  {
  }

  lemma PathPullsBack<S(!new), T(!new)>(g: Graph<S>, h: Graph<T>, f: map<S, T>, q: seq<T>)
      returns (p: seq<S>)
    requires Closed(g) && Closed(h) && Isomorphic(g, h, f) && IsPath(h, q)
    ensures IsPath(g, p) && |p| == |q| && forall i :: 0 <= i < |p| ==> f[p[i]] == q[i]
  {
    p := [];
    for k := 0 to |q|
      invariant |p| == k
      invariant forall i :: 0 <= i < k ==> p[i] in g && f[p[i]] == q[i]
      invariant forall i :: 0 <= i < k - 1 ==> p[i + 1] in g[p[i]]
    {
      assert q[k] in h;
      var a :| a in g && f[a] == q[k];
      if k > 0 { assert q[k - 1 + 1] in h[q[k - 1]]; }
      p := p + [a];
    }
  }

  lemma ReachPullsBack<S(!new), T(!new)>(g: Graph<S>, h: Graph<T>, f: map<S, T>, a: S, b: S)
    requires Closed(g) && Closed(h) && Isomorphic(g, h, f) && a in g && b in g
    requires Reaches(h, f[a], f[b])
    ensures Reaches(g, a, b)
  {
    var q :| |q| >= 2 && PathFromTo(h, q, f[a], f[b]);
    var p := PathPullsBack(g, h, f, q);
    assert p[0] in g && p[|p| - 1] in g;
    assert PathFromTo(g, p, a, b);
  }

  lemma ReachPushes<S(!new), T(!new)>(g: Graph<S>, h: Graph<T>, f: map<S, T>, a: S, b: S)
    requires Closed(g) && Isomorphic(g, h, f) && a in g && b in g && Reaches(g, a, b)
    ensures Reaches(h, f[a], f[b])
  {
    var p :| |p| >= 2 && PathFromTo(g, p, a, b);
    var q := seq(|p|, i requires 0 <= i < |p| => f[p[i]]);
    forall i | 0 <= i < |q| - 1 ensures q[i + 1] in h[q[i]] {
      assert p[i + 1] in g[p[i]] && p[i] in g && p[i + 1] in g;
    }
    assert PathFromTo(h, q, f[a], f[b]);
  }

  /** Cycle freedom and the absence of implied edges do not depend on the node names. */
  lemma IsomorphismKeepsShape<S(!new), T(!new)>(g: Graph<S>, h: Graph<T>, f: map<S, T>)
    requires Closed(g) && Closed(h) && Isomorphic(g, h, f)
    requires Acyclic(g) && NoRedundantEdge(g)
    ensures Acyclic(h) && NoRedundantEdge(h)
  {
    forall y | y in h && Reaches(h, y, y) ensures false {
      var a :| a in g && f[a] == y;
      ReachPullsBack(g, h, f, a, a);
    }
    forall t, via, p | Redundant(h, t, via, p) ensures false {
      assert via in h && p in h;
      var a :| a in g && f[a] == t;
      var b :| b in g && f[b] == via;
      var c :| c in g && f[c] == p;
      ReachPullsBack(g, h, f, b, c);
      assert Redundant(g, a, b, c);
    }
  }
}
