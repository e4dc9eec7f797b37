/**
 * Undirected weighted graphs, their connectivity, and the minimum spanning forest that
 * keep_shortest_path (graph.py) obtains with Kruskal's algorithm.
 *
 * An edge is keyed by the unordered pair of its endpoints, normalised to ascending order,
 * so re-adding an edge overwrites it and never duplicates it. Connectivity is defined by
 * walks: sequences of nodes in which every two neighbours are joined by an edge.
 */
module Forests {
  import opened Geometry

  /** An undirected edge {lo, hi}, stored with lo <= hi. */
  datatype Pair = Pair(lo: int, hi: int)

  /** The key of the undirected edge between u and v. */
  function Key(u: int, v: int): (e: Pair)
    ensures e.lo <= e.hi
    ensures (e.lo == u && e.hi == v) || (e.lo == v && e.hi == u)
  {
    if u <= v then Pair(u, v) else Pair(v, u)
  }

  /** The key does not depend on the order of the endpoints, and determines them. */
  lemma KeyUnordered(a: int, b: int, c: int, d: int)
    ensures Key(a, b) == Key(b, a)
    ensures Key(a, b) == Key(c, d) <==> (a == c && b == d) || (a == d && b == c)
  {
  }

  /** The nodes V and weighted edges W form a graph: every edge joins two nodes. */
  ghost predicate IsGraph(V: set<int>, W: map<Pair, Distance>) {
    forall e :: e in W ==> e.lo <= e.hi && e.lo in V && e.hi in V
  }

  // ---------------------------------------------------------------------------------------
  // Walks and connectivity

  ghost predicate Walk(E: set<Pair>, p: seq<int>) {
    |p| > 0 && forall i :: 0 <= i < |p| - 1 ==> Key(p[i], p[i + 1]) in E
  }

  /** a and b lie in the same connected component of the edge set E. */
  ghost predicate Connected(E: set<Pair>, a: int, b: int) {
    exists p :: Walk(E, p) && p[0] == a && p[|p| - 1] == b
  }

  lemma ConnectedReflexive(E: set<Pair>, a: int)
    ensures Connected(E, a, a)
  {
    assert Walk(E, [a]);
  }

  lemma ConnectedByEdge(E: set<Pair>, a: int, b: int)
    requires Key(a, b) in E
    ensures Connected(E, a, b)
  {
    var p := [a, b];
    assert Walk(E, p);
  }

  lemma ConnectedSymmetric(E: set<Pair>, a: int, b: int)
    requires Connected(E, a, b)
    ensures Connected(E, b, a)
  {
    var p :| Walk(E, p) && p[0] == a && p[|p| - 1] == b;
    var n := |p|;
    var q := seq(n, i requires 0 <= i < n => p[n - 1 - i]);
    forall i | 0 <= i < n - 1
      ensures Key(q[i], q[i + 1]) in E
    {
      var j := n - 2 - i;
      assert Key(p[j], p[j + 1]) in E;
      KeyUnordered(p[j], p[j + 1], 0, 0);
    }
    assert Walk(E, q);
  }

  lemma ConnectedTransitive(E: set<Pair>, a: int, b: int, c: int)
    requires Connected(E, a, b) && Connected(E, b, c)
    ensures Connected(E, a, c)
  {
    var p :| Walk(E, p) && p[0] == a && p[|p| - 1] == b;
    var q :| Walk(E, q) && q[0] == b && q[|q| - 1] == c;
    var r := p + q[1..];
    forall i | 0 <= i < |r| - 1
      ensures Key(r[i], r[i + 1]) in E
    {
      if i < |p| - 1 {
        assert r[i] == p[i] && r[i + 1] == p[i + 1];
      } else {
        var j := i - |p| + 1;
        assert r[i] == q[j] && r[i + 1] == q[j + 1];
      }
    }
    assert Walk(E, r);
  }

  lemma ConnectedMonotone(E1: set<Pair>, E2: set<Pair>, a: int, b: int)
    requires E1 <= E2 && Connected(E1, a, b)
    ensures Connected(E2, a, b)
  {
    var p :| Walk(E1, p) && p[0] == a && p[|p| - 1] == b;
    assert Walk(E2, p);
  }

  /** Without edges, every node is alone in its component. */
  lemma ConnectedWithoutEdges(a: int, b: int)
    requires Connected({}, a, b)
    ensures a == b
  {
    ConnectedStaysInside({}, {a}, a, b);
  }

  /**
   * A walk that may use the extra edge {u, v} either avoids it, or can be cut at that edge
   * into a walk to one endpoint and a walk from the other.
   */
  lemma {:induction false} WalkWithExtraEdge(E: set<Pair>, u: int, v: int, p: seq<int>)
    requires Walk(E + {Key(u, v)}, p)
    ensures Connected(E, p[0], p[|p| - 1])
         || (Connected(E, p[0], u) && Connected(E, v, p[|p| - 1]))
         || (Connected(E, p[0], v) && Connected(E, u, p[|p| - 1]))
    decreases |p|
  {
    var a, b := p[0], p[|p| - 1];
    if |p| == 1 {
      ConnectedReflexive(E, a);
    } else {
      var q := p[..|p| - 1];
      forall i | 0 <= i < |q| - 1
        ensures Key(q[i], q[i + 1]) in E + {Key(u, v)}
      {
        assert q[i] == p[i] && q[i + 1] == p[i + 1];
      }
      WalkWithExtraEdge(E, u, v, q);
      var c := q[|q| - 1];
      assert c == p[|p| - 2];
      assert Key(c, b) in E + {Key(u, v)};
      if Key(c, b) in E {
        ConnectedByEdge(E, c, b);
        if Connected(E, a, c) {
          ConnectedTransitive(E, a, c, b);
        } else if Connected(E, a, u) && Connected(E, v, c) {
          ConnectedTransitive(E, v, c, b);
        } else {
          ConnectedTransitive(E, u, c, b);
        }
      } else {
        KeyUnordered(c, b, u, v);
        if c == u && b == v {
          ConnectedReflexive(E, v);
          if !Connected(E, a, c) && !(Connected(E, a, u) && Connected(E, v, c)) {
            assert Connected(E, a, b);
          }
        } else {
          assert c == v && b == u;
          ConnectedReflexive(E, u);
          if !Connected(E, a, c) && !(Connected(E, a, v) && Connected(E, u, c)) {
            assert Connected(E, a, u) && Connected(E, a, b);
          }
        }
      }
    }
  }

  /** Adding the edge {u, v} joins the component of u with that of v, and nothing else. */
  lemma ConnectedWithExtraEdge(E: set<Pair>, u: int, v: int, a: int, b: int)
    requires Connected(E + {Key(u, v)}, a, b)
    ensures Connected(E, a, b)
         || (Connected(E, a, u) && Connected(E, v, b))
         || (Connected(E, a, v) && Connected(E, u, b))
  {
    var p :| Walk(E + {Key(u, v)}, p) && p[0] == a && p[|p| - 1] == b;
    WalkWithExtraEdge(E, u, v, p);
  }

  /** No edge of E leaves the node set S or enters it. */
  ghost predicate Closed(E: set<Pair>, S: set<int>) {
    forall e :: e in E ==> (e.lo in S <==> e.hi in S)
  }

  lemma {:induction false} WalkStaysInside(E: set<Pair>, S: set<int>, p: seq<int>)
    requires Walk(E, p) && Closed(E, S) && p[0] in S
    ensures p[|p| - 1] in S
    decreases |p|
  {
    if |p| > 1 {
      var q := p[..|p| - 1];
      forall i | 0 <= i < |q| - 1
        ensures Key(q[i], q[i + 1]) in E
      {
        assert q[i] == p[i] && q[i + 1] == p[i + 1];
      }
      WalkStaysInside(E, S, q);
      var e := Key(p[|p| - 2], p[|p| - 1]);
      assert e in E;
    }
  }

  /** A component that meets a closed node set lies inside it. */
  lemma ConnectedStaysInside(E: set<Pair>, S: set<int>, a: int, b: int)
    requires Closed(E, S) && Connected(E, a, b) && a in S
    ensures b in S
  {
    var p :| Walk(E, p) && p[0] == a && p[|p| - 1] == b;
    WalkStaysInside(E, S, p);
  }

  /** Every two nodes of S are connected in E. */
  ghost predicate ConnectedSet(E: set<Pair>, S: set<int>) {
    forall a, b :: a in S && b in S ==> Connected(E, a, b)
  }

  // ---------------------------------------------------------------------------------------
  // Forests

  /** E has no cycle: removing any edge disconnects its two endpoints. */
  ghost predicate Forest(E: set<Pair>) {
    forall e :: e in E ==> !Connected(E - {e}, e.lo, e.hi)
  }

  /** Adding an edge between two components of a forest keeps it a forest. */
  lemma ForestWithBridge(F: set<Pair>, u: int, v: int)
    requires forall f :: f in F ==> f.lo <= f.hi
    requires Forest(F) && !Connected(F, u, v)
    ensures Key(u, v) !in F
    ensures Forest(F + {Key(u, v)})
  {
    var e := Key(u, v);
    if e in F {
      ConnectedByEdge(F, u, v);
    }
    var F' := F + {e};
    forall f | f in F'
      ensures !Connected(F' - {f}, f.lo, f.hi)
    {
      if f == e {
        assert F' - {f} == F;
        if Connected(F, f.lo, f.hi) && f.lo != u {
          ConnectedSymmetric(F, f.lo, f.hi);
        }
      } else {
        var G := F - {f};
        assert F' - {f} == G + {e};
        assert G <= F;
        if Connected(G + {e}, f.lo, f.hi) {
          ConnectedWithExtraEdge(G, u, v, f.lo, f.hi);
          assert Key(f.lo, f.hi) == f;
          ConnectedByEdge(F, f.lo, f.hi);
          assert !Connected(G, f.lo, f.hi);
          if Connected(G, f.lo, u) && Connected(G, v, f.hi) {
            ConnectedMonotone(G, F, f.lo, u);
            ConnectedMonotone(G, F, v, f.hi);
            ConnectedSymmetric(F, f.lo, u);
            ConnectedTransitive(F, u, f.lo, f.hi);
            ConnectedSymmetric(F, v, f.hi);
            ConnectedTransitive(F, u, f.hi, v);
          } else {
            assert Connected(G, f.lo, v) && Connected(G, u, f.hi);
            ConnectedMonotone(G, F, f.lo, v);
            ConnectedMonotone(G, F, u, f.hi);
            ConnectedTransitive(F, u, f.hi, f.lo) by {
              ConnectedSymmetric(F, f.lo, f.hi);
            }
            ConnectedTransitive(F, u, f.lo, v);
          }
        }
      }
    }
  }

  /** The edges of E with both endpoints in S. */
  function Within(E: set<Pair>, S: set<int>): set<Pair> {
    set e | e in E && e.lo in S && e.hi in S
  }

  /** The edges of F no heavier than t. */
  function NoHeavier(F: map<Pair, Distance>, t: Distance): set<Pair> {
    set e | e in F && F[e].square <= t.square
  }

  // ---------------------------------------------------------------------------------------
  // Component labels (the union-find of Kruskal's algorithm)

  /** L gives every node of V a label, and two nodes share a label iff E connects them. */
  ghost predicate ComponentLabels(V: set<int>, E: set<Pair>, L: map<int, int>) {
    L.Keys == V && forall a, b :: a in V && b in V ==> (L[a] == L[b] <==> Connected(E, a, b))
  }

  /** Relabel every node labelled `from` with `to`: the union of two components. */
  function Merge(L: map<int, int>, from: int, to: int): (L': map<int, int>)
    ensures L'.Keys == L.Keys
  {
    map x | x in L :: if L[x] == from then to else L[x]
  }

  /** The labels used by the nodes of S. */
  function Labels(L: map<int, int>, S: set<int>): set<int>
    requires S <= L.Keys
  {
    set x | x in S :: L[x]
  }

  lemma InitialLabels(V: set<int>, L: map<int, int>)
    requires L == map x | x in V :: x
    ensures ComponentLabels(V, {}, L)
    ensures forall S :: S <= V ==> Labels(L, S) == S
  {
    forall S | S <= V
      ensures Labels(L, S) == S
    {
      forall x | x in S
        ensures x in Labels(L, S)
      {
        assert L[x] == x;
      }
    }
    forall a, b | a in V && b in V
      ensures L[a] == L[b] <==> Connected({}, a, b)
    {
      if Connected({}, a, b) {
        ConnectedWithoutEdges(a, b);
      }
      if a == b {
        ConnectedReflexive({}, a);
      }
    }
  }

  lemma MergeLabels(V: set<int>, E: set<Pair>, L: map<int, int>, u: int, v: int)
    requires ComponentLabels(V, E, L) && u in V && v in V && L[u] != L[v]
    ensures ComponentLabels(V, E + {Key(u, v)}, Merge(L, L[v], L[u]))
  {
    var L' := Merge(L, L[v], L[u]);
    var E' := E + {Key(u, v)};
    forall a, b | a in V && b in V
      ensures L'[a] == L'[b] <==> Connected(E', a, b)
    {
      if Connected(E', a, b) {
        ConnectedWithExtraEdge(E, u, v, a, b);
      }
      if L'[a] == L'[b] {
        ConnectedByEdge(E', u, v);
        if L[a] == L[b] {
          ConnectedMonotone(E, E', a, b);
        } else if L[a] == L[v] {
          assert L[b] == L[u];
          ConnectedMonotone(E, E', a, v);
          ConnectedMonotone(E, E', u, b);
          ConnectedSymmetric(E', u, v);
          ConnectedTransitive(E', a, v, u);
          ConnectedTransitive(E', a, u, b);
        } else {
          assert L[a] == L[u] && L[b] == L[v];
          ConnectedMonotone(E, E', a, u);
          ConnectedMonotone(E, E', v, b);
          ConnectedTransitive(E', a, u, v);
          ConnectedTransitive(E', a, v, b);
        }
      }
    }
  }

  /**
   * The count that makes Kruskal's forest a spanning tree of every closed component: for every
   * node set S that no edge of W crosses, S's forest edges plus S's labels number |S|, and a
   * merge inside S trades one label for one edge.
   */
  lemma MergeCount(V: set<int>, W: set<Pair>, F: set<Pair>, L: map<int, int>, u: int, v: int, S: set<int>)
    requires ComponentLabels(V, F, L) && F <= W
    requires u in V && v in V && L[u] != L[v] && Key(u, v) in W && Key(u, v) !in F
    requires S <= V && Closed(W, S)
    requires |Within(F, S)| + |Labels(L, S)| == |S|
    ensures |Within(F + {Key(u, v)}, S)| + |Labels(Merge(L, L[v], L[u]), S)| == |S|
  {
    var L' := Merge(L, L[v], L[u]);
    var e := Key(u, v);
    assert u in S <==> v in S;
    if u in S {
      assert Within(F + {e}, S) == Within(F, S) + {e};
      assert Labels(L', S) == Labels(L, S) - {L[v]} by {
        forall k | k in Labels(L, S) - {L[v]}
          ensures k in Labels(L', S)
        {
          var x :| x in S && L[x] == k;
          assert L'[x] == k;
        }
        assert L'[u] == L[u];
      }
      assert L[v] in Labels(L, S);
    } else {
      assert Within(F + {e}, S) == Within(F, S);
      forall x | x in S
        ensures L'[x] == L[x]
      {
        if L[x] == L[v] {
          assert Connected(F, x, v);
          assert Closed(F, S);
          ConnectedStaysInside(F, S, x, v);
        }
      }
      assert Labels(L', S) == Labels(L, S);
    }
  }

  /** After every edge of W has been processed, the labels are the components of W too. */
  lemma LabelsOfAllEdges(V: set<int>, W: set<Pair>, F: set<Pair>, L: map<int, int>, a: int, b: int)
    requires ComponentLabels(V, F, L)
    requires forall e :: e in W ==> e.lo in V && e.hi in V && L[e.lo] == L[e.hi]
    requires a in V && b in V && Connected(W, a, b)
    ensures Connected(F, a, b)
  {
    var S := set x | x in V && L[x] == L[a];
    ConnectedStaysInside(W, S, a, b);
  }

  /** An edge of R that is no heavier than any other edge of R. */
  ghost function Lightest(R: set<Pair>, W: map<Pair, Distance>): (e: Pair)
    requires R != {} && R <= W.Keys
    ensures e in R && forall g :: g in R ==> W[e].square <= W[g].square
    decreases R
  {
    var x :| x in R;
    if R == {x} then x
    else
      var y := Lightest(R - {x}, W);
      if W[x].square <= W[y].square then x else y
  }

  // ---------------------------------------------------------------------------------------
  // Kruskal's algorithm

  /**
   * F is a minimum spanning forest of the graph (V, W): a cycle-free subgraph with W's weights
   * that connects exactly what W connects; every edge of W left out is closed by a path of kept
   * edges none heavier than it (the cycle property, which makes the total weight minimal); and
   * every connected component S of W keeps exactly |S| - 1 edges, a spanning tree of S.
   */
  ghost predicate MinimumSpanningForestOf(V: set<int>, W: map<Pair, Distance>, F: map<Pair, Distance>) {
    && (forall e :: e in F ==> e in W && F[e] == W[e])
    && Forest(F.Keys)
    && (forall a, b :: a in V && b in V ==> (Connected(F.Keys, a, b) <==> Connected(W.Keys, a, b)))
    && (forall e :: e in W && e !in F ==> Connected(NoHeavier(F, W[e]), e.lo, e.hi))
    && (forall S :: S <= V && S != {} && Closed(W.Keys, S) && ConnectedSet(W.Keys, S) ==>
         |Within(F.Keys, S)| == |S| - 1)
  }

  /**
   * The state of Kruskal's loop once the edges outside R have been processed: the kept edges F
   * form a forest of processed edges with W's weights, L labels its components, every processed
   * edge lies inside one component (closed by kept edges no heavier than itself when it was
   * discarded), every processed edge is no heavier than any remaining one, and inside each node
   * set that W does not cross, kept edges plus labels count the nodes.
   */
  ghost predicate KruskalState(V: set<int>, W: map<Pair, Distance>, R: set<Pair>, F: map<Pair, Distance>, L: map<int, int>) {
    && IsGraph(V, W)
    && R <= W.Keys
    && (forall e :: e in F ==> e in W && e !in R && F[e] == W[e])
    && ComponentLabels(V, F.Keys, L)
    && Forest(F.Keys)
    && (forall e :: e in W && e !in R ==> L[e.lo] == L[e.hi])
    && (forall e :: e in W && e !in R && e !in F ==> Connected(NoHeavier(F, W[e]), e.lo, e.hi))
    && (forall f, g :: f in W && f !in R && g in R ==> W[f].square <= W[g].square)
    && (forall S :: S <= V && Closed(W.Keys, S) ==> |Within(F.Keys, S)| + |Labels(L, S)| == |S|)
  }

  lemma KruskalStart(V: set<int>, W: map<Pair, Distance>)
    requires IsGraph(V, W)
    ensures KruskalState(V, W, W.Keys, map[], map x | x in V :: x)
  {
    var L := map x | x in V :: x;
    InitialLabels(V, L);
    forall e | e in W
      ensures !Connected({}, e.lo, e.hi) || e.lo == e.hi
    {
      if Connected({}, e.lo, e.hi) {
        ConnectedWithoutEdges(e.lo, e.hi);
      }
    }
    forall S | S <= V && Closed(W.Keys, S)
      ensures |Within({}, S)| + |Labels(L, S)| == |S|
    {
      assert Within({}, S) == {};
    }
  }

  /** Discarding a lightest edge whose endpoints are already connected keeps the state. */
  lemma KruskalDiscard(V: set<int>, W: map<Pair, Distance>, R: set<Pair>, F: map<Pair, Distance>, L: map<int, int>, e: Pair)
    requires KruskalState(V, W, R, F, L)
    requires e in R && forall g :: g in R ==> W[e].square <= W[g].square
    requires L[e.lo] == L[e.hi]
    ensures KruskalState(V, W, R - {e}, F, L)
  {
    assert NoHeavier(F, W[e]) == F.Keys;
  }

  /** Keeping a lightest edge between two components keeps the state, with the components merged. */
  lemma KruskalKeep(V: set<int>, W: map<Pair, Distance>, R: set<Pair>, F: map<Pair, Distance>, L: map<int, int>, e: Pair)
    requires KruskalState(V, W, R, F, L)
    requires e in R && forall g :: g in R ==> W[e].square <= W[g].square
    requires L[e.lo] != L[e.hi]
    ensures KruskalState(V, W, R - {e}, F[e := W[e]], Merge(L, L[e.hi], L[e.lo]))
  {
    var u, v := e.lo, e.hi;
    assert Key(u, v) == e;
    var L' := Merge(L, L[v], L[u]);
    var F' := F[e := W[e]];
    assert F'.Keys == F.Keys + {e};
    ForestWithBridge(F.Keys, u, v);
    MergeLabels(V, F.Keys, L, u, v);
    forall S | S <= V && Closed(W.Keys, S)
      ensures |Within(F'.Keys, S)| + |Labels(L', S)| == |S|
    {
      MergeCount(V, W.Keys, F.Keys, L, u, v, S);
    }
    forall x | x in W && x !in R - {e} && x !in F'
      ensures Connected(NoHeavier(F', W[x]), x.lo, x.hi)
    {
      assert NoHeavier(F, W[x]) <= NoHeavier(F', W[x]);
      ConnectedMonotone(NoHeavier(F, W[x]), NoHeavier(F', W[x]), x.lo, x.hi);
    }
  }

  /** Once every edge is processed, the kept edges connect what W connects, and span each closed component. */
  lemma KruskalFinish(V: set<int>, W: map<Pair, Distance>, F: map<Pair, Distance>, L: map<int, int>)
    requires KruskalState(V, W, {}, F, L)
    ensures forall a, b :: a in V && b in V ==> (Connected(F.Keys, a, b) <==> Connected(W.Keys, a, b))
    ensures forall S :: S <= V && S != {} && Closed(W.Keys, S) && ConnectedSet(W.Keys, S) ==>
      |Within(F.Keys, S)| == |S| - 1
  {
    forall a, b | a in V && b in V && Connected(W.Keys, a, b)
      ensures Connected(F.Keys, a, b)
    {
      LabelsOfAllEdges(V, W.Keys, F.Keys, L, a, b);
    }
    forall a, b | a in V && b in V && Connected(F.Keys, a, b)
      ensures Connected(W.Keys, a, b)
    {
      ConnectedMonotone(F.Keys, W.Keys, a, b);
    }
    forall S | S <= V && S != {} && Closed(W.Keys, S) && ConnectedSet(W.Keys, S)
      ensures |Within(F.Keys, S)| == |S| - 1
    {
      var a :| a in S;
      forall x | x in S
        ensures L[x] == L[a]
      {
        LabelsOfAllEdges(V, W.Keys, F.Keys, L, a, x);
      }
      assert Labels(L, S) == {L[a]};
    }
  }

  /**
   * nx.minimum_spanning_tree(G, algorithm='kruskal'): consider the edges lightest first and
   * keep an edge iff it joins two different components of the edges kept so far. On a
   * disconnected graph this yields one tree per connected component (a spanning forest).
   * Ties between equally heavy edges are broken arbitrarily.
   */
  method MinimumSpanningForest(V: set<int>, W: map<Pair, Distance>) returns (F: map<Pair, Distance>)
    requires IsGraph(V, W)
    ensures MinimumSpanningForestOf(V, W, F)
  {
    F := map[];
    var L: map<int, int> := map x | x in V :: x;
    var R := W.Keys;
    KruskalStart(V, W);
    while R != {}
      invariant KruskalState(V, W, R, F, L)
      decreases R
    {
      ghost var lightest := Lightest(R, W);
      var e :| e in R && forall g :: g in R ==> W[e].square <= W[g].square;
      if L[e.lo] != L[e.hi] {
        KruskalKeep(V, W, R, F, L, e);
        F, L := F[e := W[e]], Merge(L, L[e.hi], L[e.lo]);
      } else {
        KruskalDiscard(V, W, R, F, L, e);
      }
      R := R - {e};
    }
    KruskalFinish(V, W, F, L);
  }

  /**
   * When every edge lies inside one of two disjoint connected components A and B, a minimum
   * spanning forest keeps |A| - 1 edges in A, |B| - 1 in B, and no others.
   */
  lemma ForestOverTwoComponents(V: set<int>, W: map<Pair, Distance>, F: map<Pair, Distance>, A: set<int>, B: set<int>)
    requires MinimumSpanningForestOf(V, W, F)
    requires A <= V && B <= V && A != {} && B != {} && A !! B
    requires Closed(W.Keys, A) && ConnectedSet(W.Keys, A) && Closed(W.Keys, B) && ConnectedSet(W.Keys, B)
    requires forall e :: e in W ==> (e.lo in A && e.hi in A) || (e.lo in B && e.hi in B)
    ensures |Within(F.Keys, A)| == |A| - 1 && |Within(F.Keys, B)| == |B| - 1
    ensures |F| == |A| + |B| - 2
    ensures forall e :: e in F ==> e in W
  {
    var E := F.Keys;
    assert E == Within(E, A) + Within(E, B);
    assert Within(E, A) !! Within(E, B);
  }
}
