/** The search finds exactly the articulation points: on a graph whose
    neighbour lists are symmetric, a stop is reported exactly when removing
    it disconnects two of its neighbours, that is, splits the component it
    lies in. The proof follows the recursion, carrying the stack of stops
    whose visits are open (the ancestors of the current stop, stop `k` of it
    at depth `k`). */
module ArticulationProof {
  import opened Reach
  import opened ArticulationPoints
  import opened ArticulationInv

  // ---------------------------------------------------------------------
  // Helper facts

  /** In a symmetric graph, the neighbours of a freshly explored subtree lie
      in the subtree or on the stack: there are no edges to closed visits. */
  lemma NbrClosure(g: Ugraph, st: Search, r: Search, anc: seq<nat>)
    requires Symmetric(g.adj) && Sane(g, st) && Sane(g, r) && Keeps(st, r)
    requires FinishedOk(g, st, anc) && FinishedOk(g, r, anc)
    requires forall k :: 0 <= k < |anc| ==> Visited(st, anc[k])
    ensures forall x, w :: x in Sub(st, r) && x < |g.adj| && w in g.adj[x] ==> w in Sub(st, r) || w in anc
  {
    forall x: nat, w: nat | x in Sub(st, r) && x < |g.adj| && w in g.adj[x]
      ensures w in Sub(st, r) || w in anc
    {
      assert x !in anc;
      assert Visited(r, w);
      SymEdge(g.adj, x, w);
      assert w !in Sub(st, r) ==> Visited(st, w);
      assert w !in Sub(st, r) && w !in anc ==> Visited(st, x);
    }
  }

  /** The stack is a path: each open visit reaches the innermost one inside
      any set holding the stack. */
  lemma {:induction false} StackReach(g: Ugraph, st: Search, anc: seq<nat>, k: nat, t: set<nat>)
    requires StackOk(g, st, anc) && k < |anc|
    requires forall m :: 0 <= m < |anc| ==> anc[m] in t
    ensures ReachesIn(g.adj, t, anc[k], anc[|anc| - 1])
    decreases |anc| - k
  {
    if k == |anc| - 1 {
      ReachInRefl(g.adj, t, anc[k]);
    } else {
      StackReach(g, st, anc, k + 1, t);
      ReachInEdge(g.adj, t, anc[k], anc[k + 1]);
      ReachInTrans(g.adj, t, anc[k], anc[k + 1], anc[|anc| - 1]);
    }
  }

  /** If every neighbour of `v` reaches a common stop without passing `v`,
      removing `v` disconnects nothing. */
  lemma NotCut(g: Ugraph, v: nat, hub: nat)
    requires Symmetric(g.adj) && v < |g.adj|
    requires forall a :: a in g.adj[v] && a != v ==> ReachesIn(g.adj, Without(g, v), a, hub)
    ensures !Cut(g, v)
  {
    forall a, b | a in g.adj[v] && b in g.adj[v] && a != v && b != v
      ensures ReachesIn(g.adj, Without(g, v), a, b)
    {
      ReachInSym(g.adj, Without(g, v), b, hub);
      ReachInTrans(g.adj, Without(g, v), a, hub, b);
    }
  }

  /** A set holding the neighbour `c` of `v` but not its neighbour `b`, with
      no edge leaving it except into `v`, shows `v` is an articulation point. */
  lemma SplitCut(g: Ugraph, v: nat, c: nat, b: nat, a: set<nat>)
    requires v < |g.adj| && c in g.adj[v] && b in g.adj[v] && c != v && b != v
    requires c in a && b !in a
    requires forall x, w :: x in a && x < |g.adj| && w in g.adj[x] && w in Without(g, v) ==> w in a
    ensures Cut(g, v)
  {
    if ReachesIn(g.adj, Without(g, v), c, b) {
      ReachInStays(g.adj, Without(g, v), a, c, b);
    }
  }

  // ---------------------------------------------------------------------
  // The visit of a non-root stop

  /** The state right after `node` gets its depth. */
  lemma NbrsStart(g: Ugraph, node: nat, depth: nat, from: nat, anc: seq<nat>, st0: Search)
    requires Frame(g, node, depth, from, anc, st0)
    ensures var st1 := st0.(depths := st0.depths[node := depth]);
      && LoopState(g, node, depth, anc, st0, 0, st1)
      && LoopLow(g, node, depth, from, st0, 0, depth, st1)
      && LoopLink(g, node, from, st0, st1)
  {
    var st1 := st0.(depths := st0.depths[node := depth]);
    var anc2 := anc + [node];
    assert Sub(st0, st1) == {node};
    ReachInRefl(g.adj, {node}, node);
    StartStack(g, node, depth, from, anc, st0);
    StartFinished(g, node, depth, from, anc, st0);
  }

  /** Giving `node` its depth extends the stack of ancestors by `node`. */
  lemma StartStack(g: Ugraph, node: nat, depth: nat, from: nat, anc: seq<nat>, st0: Search)
    requires Frame(g, node, depth, from, anc, st0)
    ensures StackOk(g, st0.(depths := st0.depths[node := depth]), anc + [node])
  {
    var st1 := st0.(depths := st0.depths[node := depth]);
    var anc2 := anc + [node];
    forall k | 0 <= k < |anc2|
      ensures anc2[k] in st1.depths && st1.depths[anc2[k]] == k
    {
      if k < |anc| {
        assert anc2[k] == anc[k];
      }
    }
    forall k | 0 <= k < |anc2| - 1
      ensures anc2[k] < |g.adj| && anc2[k + 1] in g.adj[anc2[k]]
    {
      if k < |anc| - 1 {
        assert anc2[k] == anc[k] && anc2[k + 1] == anc[k + 1];
      } else {
        assert anc2[k] == from && anc2[k + 1] == node;
      }
    }
  }

  /** Giving `node` its depth closes no visit, since `node` joins the stack. */
  lemma StartFinished(g: Ugraph, node: nat, depth: nat, from: nat, anc: seq<nat>, st0: Search)
    requires Frame(g, node, depth, from, anc, st0)
    ensures FinishedOk(g, st0.(depths := st0.depths[node := depth]), anc + [node])
  {
    var st1 := st0.(depths := st0.depths[node := depth]);
    var anc2 := anc + [node];
    forall v: nat, w: nat | Visited(st1, v) && v !in anc2 && v < |g.adj| && w in g.adj[v]
      ensures Visited(st1, w)
    {
      assert v != node && v !in anc && Visited(st0, v);
      assert 0 <= v < |g.adj| && w in g.adj[v];
      assert Visited(st0, w);
    }
  }

  /** The visit of `node` meets `VisitPost`. */
  lemma {:induction false} RecSpec(g: Ugraph, node: nat, depth: nat, from: nat, anc: seq<nat>, st: Search)
    requires Frame(g, node, depth, from, anc, st)
    ensures var r := RecArtPts(g, node, depth, from, st);
      VisitPost(g, node, depth, from, anc, st, r.0, r.1)
    decreases Unvisited(st.depths), 0, 0, 0
  {
    var st1 := st.(depths := st.depths[node := depth]);
    assert Unvisited(st1.depths) == Unvisited(st.depths) - {node};
    NbrsStart(g, node, depth, from, anc, st);
    assert g.adj[node][0..] == g.adj[node];
    NbrsSpec(g, node, depth, from, anc, st, 0, depth, st1);
    var r := RecArtPts(g, node, depth, from, st);
    assert r == RecNbrs(g, node, depth, from, g.adj[node], depth, st1);
    RecFinish(g, node, depth, from, anc, st, r.0, r.1);
  }

  /** Closing the visit of `node` once its neighbour loop is done. */
  lemma RecFinish(g: Ugraph, node: nat, depth: nat, from: nat, anc: seq<nat>, st: Search, rb: int, r: Search)
    requires Frame(g, node, depth, from, anc, st)
    requires LoopState(g, node, depth, anc, st, |g.adj[node]|, r)
    requires LoopLow(g, node, depth, from, st, |g.adj[node]|, rb, r)
    requires LoopLink(g, node, from, st, r)
    ensures VisitPost(g, node, depth, from, anc, st, rb, r)
  {
    FinishClosed(g, node, depth, from, anc, st, r);
    FinishLow(g, node, depth, from, anc, st, rb, r);
    FinishNode(g, node, depth, from, anc, st, r);
  }

  /** Once its loop is done, the visit of `node` is closed too. */
  lemma FinishClosed(g: Ugraph, node: nat, depth: nat, from: nat, anc: seq<nat>, st: Search, r: Search)
    requires Frame(g, node, depth, from, anc, st)
    requires LoopState(g, node, depth, anc, st, |g.adj[node]|, r)
    ensures FinishedOk(g, r, anc)
  {
    var anc2 := anc + [node];
    forall v: nat, w: nat | Visited(r, v) && v !in anc && v < |g.adj| && w in g.adj[v]
      ensures Visited(r, w)
    {
      if v == node {
        var k :| 0 <= k < |g.adj[node]| && g.adj[node][k] == w;
      } else {
        assert v !in anc2;
      }
    }
  }

  /** The loop bounds combine into the bound for the whole subtree. */
  lemma FinishLow(g: Ugraph, node: nat, depth: nat, from: nat, anc: seq<nat>, st: Search, rb: int, r: Search)
    requires node < |g.adj|
    requires LoopLow(g, node, depth, from, st, |g.adj[node]|, rb, r)
    ensures LowBound(g, Sub(st, r), r.depths, node, from, rb)
  {
    forall x, w | x in Sub(st, r) && x < |g.adj| && w in g.adj[x] && !(x == node && w == from)
      ensures w in r.depths && rb <= r.depths[w]
    {
      if x == node {
        var k :| 0 <= k < |g.adj[node]| && g.adj[node][k] == w;
      }
    }
  }

  /** A stop the loop did not report has every neighbour linked to `from`
      around it, so it is no articulation point. */
  lemma FinishNode(g: Ugraph, node: nat, depth: nat, from: nat, anc: seq<nat>, st: Search, r: Search)
    requires Frame(g, node, depth, from, anc, st)
    requires LoopState(g, node, depth, anc, st, |g.adj[node]|, r)
    requires LoopLink(g, node, from, st, r)
    requires FinishedOk(g, r, anc)
    ensures Complete(g, Sub(st, r), r.points)
  {
    var sub := Sub(st, r);
    forall k | 0 <= k < |anc|
      ensures Visited(st, anc[k])
    {
    }
    NbrClosure(g, st, r, anc);
    if node !in r.points {
      assert forall m :: 0 <= m < |anc| ==> anc[m] in Without(g, node) by {
        forall m | 0 <= m < |anc|
          ensures anc[m] in Without(g, node)
        {
          assert anc[m] in st.depths && st.depths[anc[m]] == m;
        }
      }
      forall a | a in g.adj[node] && a != node
        ensures ReachesIn(g.adj, Without(g, node), a, from)
      {
        if a !in sub {
          var k :| 0 <= k < |anc| && anc[k] == a;
          StackReach(g, st, anc, k, Without(g, node));
        }
      }
      NotCut(g, node, from);
    }
  }

  /** The neighbour loop of `node` from position `j` on. */
  lemma {:induction false} NbrsSpec(g: Ugraph, node: nat, depth: nat, from: nat, anc: seq<nat>, st0: Search,
                                     j: nat, reach: int, st: Search)
    requires Frame(g, node, depth, from, anc, st0)
    requires LoopState(g, node, depth, anc, st0, j, st)
    requires LoopLow(g, node, depth, from, st0, j, reach, st)
    requires LoopLink(g, node, from, st0, st)
    ensures LoopDone(g, node, depth, from, anc, st0, RecNbrs(g, node, depth, from, g.adj[node][j..], reach, st))
    decreases Unvisited(st.depths), 1, |g.adj[node]| - j, 3
  {
    if j < |g.adj[node]| {
      var n := g.adj[node][j];
      if n == from {
        SkipBranch(g, node, depth, from, anc, st0, j, reach, st);
      } else if st.depths[n] != -1 {
        SeenBranch(g, node, depth, from, anc, st0, j, reach, st);
      } else {
        ChildBranch(g, node, depth, from, anc, st0, j, reach, st);
      }
    } else {
      assert g.adj[node][j..] == [];
    }
  }

  /** The loop goes on past `from`. */
  lemma {:induction false} SkipBranch(g: Ugraph, node: nat, depth: nat, from: nat, anc: seq<nat>, st0: Search,
                                       j: nat, reach: int, st: Search)
    requires Frame(g, node, depth, from, anc, st0)
    requires LoopState(g, node, depth, anc, st0, j, st)
    requires LoopLow(g, node, depth, from, st0, j, reach, st)
    requires LoopLink(g, node, from, st0, st)
    requires j < |g.adj[node]| && g.adj[node][j] == from
    ensures LoopDone(g, node, depth, from, anc, st0, RecNbrs(g, node, depth, from, g.adj[node][j..], reach, st))
    decreases Unvisited(st.depths), 1, |g.adj[node]| - j, 2
  {
    var ns := g.adj[node][j..];
    assert ns[0] == from && ns[1..] == g.adj[node][j + 1..];
    SkipStep(g, node, depth, from, anc, st0, j, reach, st);
    NbrsSpec(g, node, depth, from, anc, st0, j + 1, reach, st);
    LoopDoneSame(g, node, depth, from, anc, st0, RecNbrs(g, node, depth, from, ns, reach, st),
      RecNbrs(g, node, depth, from, g.adj[node][j + 1..], reach, st));
  }

  /** The loop goes on past a neighbour reached before. */
  lemma {:induction false} SeenBranch(g: Ugraph, node: nat, depth: nat, from: nat, anc: seq<nat>, st0: Search,
                                       j: nat, reach: int, st: Search)
    requires Frame(g, node, depth, from, anc, st0)
    requires LoopState(g, node, depth, anc, st0, j, st)
    requires LoopLow(g, node, depth, from, st0, j, reach, st)
    requires LoopLink(g, node, from, st0, st)
    requires j < |g.adj[node]| && g.adj[node][j] != from
    requires g.adj[node][j] in st.depths && st.depths[g.adj[node][j]] != -1
    ensures LoopDone(g, node, depth, from, anc, st0, RecNbrs(g, node, depth, from, g.adj[node][j..], reach, st))
    decreases Unvisited(st.depths), 1, |g.adj[node]| - j, 2
  {
    var ns := g.adj[node][j..];
    var n := g.adj[node][j];
    assert ns[0] == n && ns[1..] == g.adj[node][j + 1..];
    SeenStep(g, node, depth, from, anc, st0, j, reach, st);
    NbrsSpec(g, node, depth, from, anc, st0, j + 1, Min(st.depths[n], reach), st);
    LoopDoneSame(g, node, depth, from, anc, st0, RecNbrs(g, node, depth, from, ns, reach, st),
      RecNbrs(g, node, depth, from, g.adj[node][j + 1..], Min(st.depths[n], reach), st));
  }

  /** The loop goes on past a tree child. */
  lemma {:induction false} ChildBranch(g: Ugraph, node: nat, depth: nat, from: nat, anc: seq<nat>, st0: Search,
                                        j: nat, reach: int, st: Search)
    requires Frame(g, node, depth, from, anc, st0)
    requires LoopState(g, node, depth, anc, st0, j, st)
    requires LoopLow(g, node, depth, from, st0, j, reach, st)
    requires LoopLink(g, node, from, st0, st)
    requires j < |g.adj[node]| && g.adj[node][j] != from
    requires g.adj[node][j] in st.depths && st.depths[g.adj[node][j]] == -1
    ensures LoopDone(g, node, depth, from, anc, st0, RecNbrs(g, node, depth, from, g.adj[node][j..], reach, st))
    decreases Unvisited(st.depths), 1, |g.adj[node]| - j, 2
  {
    var ns := g.adj[node][j..];
    var n := g.adj[node][j];
    assert ns[0] == n && ns[1..] == g.adj[node][j + 1..];
    var child, st2 := ChildStep(g, node, depth, from, anc, st0, j, reach, st);
    NbrsSpec(g, node, depth, from, anc, st0, j + 1, Min(child, reach), st2);
    ChildUnfold(g, node, depth, from, ns, reach, st, child, st2);
    LoopDoneSame(g, node, depth, from, anc, st0, RecNbrs(g, node, depth, from, ns, reach, st),
      RecNbrs(g, node, depth, from, g.adj[node][j + 1..], Min(child, reach), st2));
  }

  /** Carries the invariant from one term to an equal one. Stated as a
      lemma so that the verifier matches the two terms by the equality
      alone instead of unfolding the construction on both sides. */
  lemma LoopDoneSame(g: Ugraph, node: nat, depth: nat, from: nat, anc: seq<nat>, st0: Search, a: (int, Search), b: (int, Search))
    requires a == b && LoopDone(g, node, depth, from, anc, st0, b)
    ensures LoopDone(g, node, depth, from, anc, st0, a)
  {
  }

  /** One step of the neighbour loop at a tree child. */
  lemma ChildUnfold(g: Ugraph, node: nat, depth: nat, from: nat, ns: seq<nat>, reach: int, st: Search,
                    child: int, st2: Search)
    requires Closed(g) && Sane(g, st) && node in st.depths && st.depths[node] == depth
    requires (forall t :: t in ns ==> t in g.stops) && 0 <= reach <= depth
    requires |ns| > 0 && ns[0] != from && ns[0] in st.depths && st.depths[ns[0]] == -1
    requires var r := RecArtPts(g, ns[0], depth + 1, node, st);
      child == r.0 && st2 == if r.0 >= depth then r.1.(points := r.1.points + {node}) else r.1
    ensures RecNbrs(g, node, depth, from, ns, reach, st) == RecNbrs(g, node, depth, from, ns[1..], Min(child, reach), st2)
  {
    assert forall t :: t in ns[1..] ==> t in ns;
  }

  /** Passing over `from` in the neighbour loop. */
  lemma SkipStep(g: Ugraph, node: nat, depth: nat, from: nat, anc: seq<nat>, st0: Search,
                 j: nat, reach: int, st: Search)
    requires Frame(g, node, depth, from, anc, st0)
    requires LoopState(g, node, depth, anc, st0, j, st)
    requires LoopLow(g, node, depth, from, st0, j, reach, st)
    requires j < |g.adj[node]| && g.adj[node][j] == from
    ensures LoopState(g, node, depth, anc, st0, j + 1, st)
    ensures LoopLow(g, node, depth, from, st0, j + 1, reach, st)
  {
    assert (anc + [node])[depth - 1] == from;
  }

  /** A neighbour reached before lowers `reach` to its depth. */
  lemma SeenStep(g: Ugraph, node: nat, depth: nat, from: nat, anc: seq<nat>, st0: Search,
                 j: nat, reach: int, st: Search)
    requires Frame(g, node, depth, from, anc, st0)
    requires LoopState(g, node, depth, anc, st0, j, st)
    requires LoopLow(g, node, depth, from, st0, j, reach, st)
    requires j < |g.adj[node]| && g.adj[node][j] != from
    requires g.adj[node][j] in st.depths && st.depths[g.adj[node][j]] != -1
    ensures LoopState(g, node, depth, anc, st0, j + 1, st)
    ensures LoopLow(g, node, depth, from, st0, j + 1, Min(st.depths[g.adj[node][j]], reach), st)
  {
    assert node in Sub(st0, st);
    NextVisited(g, node, depth, anc, st0, j, st);
    SeenLow(g, node, depth, from, st0, j, reach, st);
  }

  /** Moving past a reached neighbour keeps the loop state. */
  lemma NextVisited(g: Ugraph, node: nat, depth: nat, anc: seq<nat>, st0: Search, j: nat, st: Search)
    requires LoopState(g, node, depth, anc, st0, j, st)
    requires j < |g.adj[node]| && Visited(st, g.adj[node][j])
    ensures LoopState(g, node, depth, anc, st0, j + 1, st)
  {
  }

  /** The reach-back after a neighbour reached before. */
  lemma SeenLow(g: Ugraph, node: nat, depth: nat, from: nat, st0: Search, j: nat, reach: int, st: Search)
    requires LoopLow(g, node, depth, from, st0, j, reach, st) && node in Sub(st0, st)
    requires j < |g.adj[node]| && g.adj[node][j] != from
    requires g.adj[node][j] in st.depths && st.depths[g.adj[node][j]] != -1
    requires st.depths[g.adj[node][j]] >= 0
    ensures LoopLow(g, node, depth, from, st0, j + 1, Min(st.depths[g.adj[node][j]], reach), st)
  {
    var n := g.adj[node][j];
    var m := Min(st.depths[n], reach);
    if m != reach {
      assert LowWitness(g, Sub(st0, st), st.depths, node, from, m, depth) by {
        assert node < |g.adj| && n in g.adj[node] && n in st.depths && st.depths[n] == m;
      }
    }
  }

  /** Visiting the unreached neighbour `adj[node][j]` as a tree child keeps
      the loop state. */
  lemma {:induction false} ChildStep(g: Ugraph, node: nat, depth: nat, from: nat, anc: seq<nat>, st0: Search,
                                      j: nat, reach: int, st: Search)
      returns (child: int, st2: Search)
    requires Frame(g, node, depth, from, anc, st0)
    requires LoopState(g, node, depth, anc, st0, j, st)
    requires LoopLow(g, node, depth, from, st0, j, reach, st)
    requires LoopLink(g, node, from, st0, st)
    requires j < |g.adj[node]| && g.adj[node][j] in st.depths && st.depths[g.adj[node][j]] == -1
    ensures var r := RecArtPts(g, g.adj[node][j], depth + 1, node, st);
      child == r.0 && st2 == if r.0 >= depth then r.1.(points := r.1.points + {node}) else r.1
    ensures Unvisited(st2.depths) <= Unvisited(st.depths)
    ensures LoopState(g, node, depth, anc, st0, j + 1, st2)
    ensures LoopLow(g, node, depth, from, st0, j + 1, Min(child, reach), st2)
    ensures LoopLink(g, node, from, st0, st2)
    decreases Unvisited(st.depths), 1, |g.adj[node]| - j, 1
  {
    var n := g.adj[node][j];
    var st1;
    child, st1 := ChildVisit(g, node, depth, from, anc, st0, j, st);
    st2 := if child >= depth then st1.(points := st1.points + {node}) else st1;
    SubUnion(g, st0, st, st1, st2);
    if child >= depth {
      ChildCut(g, node, depth, from, anc, st0, st, st1, n, child);
    } else {
      ChildLink(g, node, depth, from, anc, st0, st, st1, n, child);
    }
    ChildState(g, node, depth, from, anc, st0, j, st, st1, st2, child);
    ChildLow(g, node, depth, from, st0, j, reach, st, st1, st2, child);
    ChildKeepLink(g, node, depth, from, st0, st, st1, st2, child);
  }

  /** The visit of the tree child `adj[node][j]`: its subtree has no edge to
      a closed visit. */
  lemma ChildVisit(g: Ugraph, node: nat, depth: nat, from: nat, anc: seq<nat>, st0: Search, j: nat, st: Search)
      returns (child: int, st1: Search)
    requires Frame(g, node, depth, from, anc, st0)
    requires LoopState(g, node, depth, anc, st0, j, st)
    requires j < |g.adj[node]| && g.adj[node][j] in st.depths && st.depths[g.adj[node][j]] == -1
    ensures var r := RecArtPts(g, g.adj[node][j], depth + 1, node, st); child == r.0 && st1 == r.1
    ensures Sane(g, st1) && Keeps(st, st1) && st.points <= st1.points
    ensures Unvisited(st1.depths) <= Unvisited(st.depths)
    ensures VisitPost(g, g.adj[node][j], depth + 1, node, anc + [node], st, child, st1)
    ensures forall x, w :: x in Sub(st, st1) && x < |g.adj| && w in g.adj[x] ==> w in Sub(st, st1) || w in anc + [node]
    decreases Unvisited(st.depths), 1, |g.adj[node]| - j, 0
  {
    var n := g.adj[node][j];
    var anc2 := anc + [node];
    ChildFrame(g, node, depth, from, anc, st0, j, st);
    RecSpec(g, n, depth + 1, node, anc2, st);
    child, st1 := RecArtPts(g, n, depth + 1, node, st).0, RecArtPts(g, n, depth + 1, node, st).1;
    NbrClosure(g, st, st1, anc2);
  }

  /** A tree child is visited in a frame whose stack of open visits ends
      with `node`. */
  lemma ChildFrame(g: Ugraph, node: nat, depth: nat, from: nat, anc: seq<nat>, st0: Search, j: nat, st: Search)
    requires Frame(g, node, depth, from, anc, st0)
    requires LoopState(g, node, depth, anc, st0, j, st)
    requires j < |g.adj[node]| && g.adj[node][j] in st.depths && st.depths[g.adj[node][j]] == -1
    ensures Frame(g, g.adj[node][j], depth + 1, node, anc + [node], st)
    ensures forall k :: 0 <= k < |anc + [node]| ==> Visited(st, (anc + [node])[k])
  {
    var anc2 := anc + [node];
    forall k | 0 <= k < |anc2|
      ensures Visited(st, anc2[k])
    {
    }
  }

  /** After a tree child, everything below `node` still reaches `from`
      around it, unless the child made `node` a point. */
  lemma ChildKeepLink(g: Ugraph, node: nat, depth: nat, from: nat, st0: Search, st: Search, st1: Search, st2: Search,
                      child: int)
    requires LoopLink(g, node, from, st0, st) && st.points <= st1.points
    requires Sub(st0, st2) == Sub(st0, st) + Sub(st, st1)
    requires st2 == if child >= depth then st1.(points := st1.points + {node}) else st1
    requires child < depth ==> forall x :: x in Sub(st, st1) ==> ReachesIn(g.adj, Without(g, node), x, from)
    ensures LoopLink(g, node, from, st0, st2)
  {
  }

  /** A tree child whose subtree reaches no higher than `node` makes `node`
      an articulation point: the subtree is cut off from `from`. */
  lemma ChildCut(g: Ugraph, node: nat, depth: nat, from: nat, anc: seq<nat>, st0: Search, st: Search, st1: Search,
                 n: nat, child: int)
    requires Frame(g, node, depth, from, anc, st0)
    requires Keeps(st0, st) && StackOk(g, st, anc + [node]) && Keeps(st, st1)
    requires n in g.adj[node] && n in Sub(st, st1)
    requires LowBound(g, Sub(st, st1), st1.depths, n, node, child) && Deeper(Sub(st, st1), st1.depths, depth + 1)
    requires forall x, w :: x in Sub(st, st1) && x < |g.adj| && w in g.adj[x] ==> w in Sub(st, st1) || w in anc + [node]
    requires child >= depth
    ensures Cut(g, node)
  {
    var anc2 := anc + [node];
    var sc := Sub(st, st1);
    assert forall k :: 0 <= k < |anc2| ==> anc2[k] in st1.depths && st1.depths[anc2[k]] == k;
    assert from in st0.depths && st0.depths[from] == depth - 1;
    CutOff(g, node, depth, anc2, sc, st1.depths, n, child);
    SplitCut(g, node, n, from, sc);
  }

  /** A subtree whose only edges out go to the stack, none of them above
      `node`, has no edge out except into `node`. */
  lemma CutOff(g: Ugraph, node: nat, depth: nat, anc2: seq<nat>, sc: set<nat>, depths: map<nat, int>, n: nat, child: int)
    requires |anc2| == depth + 1 && anc2[depth] == node
    requires forall k :: 0 <= k < |anc2| ==> anc2[k] in depths && depths[anc2[k]] == k
    requires LowBound(g, sc, depths, n, node, child) && child >= depth
    requires forall x, w :: x in sc && x < |g.adj| && w in g.adj[x] ==> w in sc || w in anc2
    ensures forall x, w :: x in sc && x < |g.adj| && w in g.adj[x] && w in Without(g, node) ==> w in sc
  {
  }

  /** A tree child whose subtree reaches above `node` links the subtree to
      `from` without passing `node`. */
  lemma ChildLink(g: Ugraph, node: nat, depth: nat, from: nat, anc: seq<nat>, st0: Search, st: Search, st1: Search,
                  n: nat, child: int)
    requires Frame(g, node, depth, from, anc, st0)
    requires Keeps(st0, st) && StackOk(g, st, anc + [node]) && Keeps(st, st1) && Sane(g, st1)
    requires node in st.depths && st.depths[node] == depth
    requires n in g.adj[node] && n in Sub(st, st1)
    requires LowWitness(g, Sub(st, st1), st1.depths, n, node, child, depth + 1)
    requires Deeper(Sub(st, st1), st1.depths, depth + 1) && Spans(g, Sub(st, st1), n)
    requires forall x, w :: x in Sub(st, st1) && x < |g.adj| && w in g.adj[x] ==> w in Sub(st, st1) || w in anc + [node]
    requires child < depth
    ensures forall x :: x in Sub(st, st1) ==> ReachesIn(g.adj, Without(g, node), x, from)
  {
    var sc := Sub(st, st1);
    var t := Without(g, node);
    var x0, w0, k := LinkAncestor(g, node, depth, anc, st, st1, n, child);
    AncAvoid(g, node, anc, st0);
    StackReach(g, st0, anc, k, t);
    SubAvoid(g, node, depth, st, st1);
    SubtreeReaches(g, t, sc, n, x0, w0, from);
  }

  /** The edge that lets the subtree of `n` reach above `node` ends at an
      open visit other than `node`. */
  lemma LinkAncestor(g: Ugraph, node: nat, depth: nat, anc: seq<nat>, st: Search, st1: Search, n: nat, child: int)
    returns (x0: nat, w0: nat, k: nat)
    requires depth == |anc| && StackOk(g, st, anc + [node]) && Keeps(st, st1)
    requires LowWitness(g, Sub(st, st1), st1.depths, n, node, child, depth + 1)
    requires Deeper(Sub(st, st1), st1.depths, depth + 1)
    requires forall x, w :: x in Sub(st, st1) && x < |g.adj| && w in g.adj[x] ==> w in Sub(st, st1) || w in anc + [node]
    requires child < depth
    ensures x0 in Sub(st, st1) && x0 < |g.adj| && w0 in g.adj[x0]
    ensures k < |anc| && anc[k] == w0
  {
    var anc2 := anc + [node];
    var sc := Sub(st, st1);
    var x, w :| x in sc && x < |g.adj| && w in g.adj[x] && !(x == n && w == node)
      && w in st1.depths && st1.depths[w] == child;
    x0, w0 := x, w;
    assert w0 !in sc;
    assert w0 in anc2;
    var m :| 0 <= m < |anc2| && anc2[m] == w0;
    k := m;
    assert k < |anc| && anc[k] == w0;
  }

  /** The subtree of a tree child of `node` lies below `node`, so it avoids
      `node`. */
  lemma SubAvoid(g: Ugraph, node: nat, depth: nat, st: Search, st1: Search)
    requires Sane(g, st1) && node in st1.depths && st1.depths[node] == depth
    requires Deeper(Sub(st, st1), st1.depths, depth + 1)
    ensures Sub(st, st1) <= Without(g, node)
  {
  }

  /** The open visits avoid `node`, which is not reached yet. */
  lemma AncAvoid(g: Ugraph, node: nat, anc: seq<nat>, st0: Search)
    requires Sane(g, st0) && node in st0.depths && st0.depths[node] == -1
    requires forall k :: 0 <= k < |anc| ==> anc[k] in st0.depths && st0.depths[anc[k]] == k
    ensures forall m :: 0 <= m < |anc| ==> anc[m] in Without(g, node)
  {
  }

  /** A subtree spanned from `n` inside `t`, with an edge out of it to a stop
      reaching `hub` inside `t`: every stop of the subtree reaches `hub`. */
  lemma SubtreeReaches(g: Ugraph, t: set<nat>, sc: set<nat>, n: nat, x0: nat, w0: nat, hub: nat)
    requires Symmetric(g.adj) && sc <= t && Spans(g, sc, n)
    requires x0 in sc && x0 < |g.adj| && w0 in g.adj[x0] && w0 in t
    requires ReachesIn(g.adj, t, w0, hub)
    ensures forall x :: x in sc ==> ReachesIn(g.adj, t, x, hub)
  {
    ReachInMono(g.adj, sc, t, n, x0);
    ReachInEdge(g.adj, t, x0, w0);
    ReachInTrans(g.adj, t, n, x0, w0);
    ReachInTrans(g.adj, t, n, w0, hub);
    forall x | x in sc
      ensures ReachesIn(g.adj, t, x, hub)
    {
      ReachInMono(g.adj, sc, t, n, x);
      ReachInSym(g.adj, t, n, x);
      ReachInTrans(g.adj, t, x, n, hub);
    }
  }

  /** The stops reached over two stretches of the search. */
  lemma SubUnion(g: Ugraph, st0: Search, st: Search, st1: Search, st2: Search)
    requires Sane(g, st0) && Sane(g, st) && Sane(g, st1)
    requires Keeps(st0, st) && Keeps(st, st1) && st2.depths == st1.depths
    ensures Sub(st0, st2) == Sub(st0, st) + Sub(st, st1)
  {
  }

  /** The loop state after a tree child. */
  lemma ChildState(g: Ugraph, node: nat, depth: nat, from: nat, anc: seq<nat>, st0: Search, j: nat,
                   st: Search, st1: Search, st2: Search, child: int)
    requires Frame(g, node, depth, from, anc, st0)
    requires LoopState(g, node, depth, anc, st0, j, st)
    requires j < |g.adj[node]|
    requires var n := g.adj[node][j];
      && Sane(g, st1) && Keeps(st, st1) && st.points <= st1.points
      && VisitPost(g, n, depth + 1, node, anc + [node], st, child, st1)
    requires st2 == if child >= depth then st1.(points := st1.points + {node}) else st1
    requires child >= depth ==> Cut(g, node)
    ensures LoopState(g, node, depth, anc, st0, j + 1, st2)
  {
    SubUnion(g, st0, st, st1, st2);
    ChildKeep(g, node, depth, anc, st0, j, st, st1, st2, child);
    ChildSpan(g, node, depth, from, anc, st0, j, st, st1, st2, child);
  }

  /** What a tree child leaves unchanged. */
  lemma ChildKeep(g: Ugraph, node: nat, depth: nat, anc: seq<nat>, st0: Search, j: nat,
                  st: Search, st1: Search, st2: Search, child: int)
    requires Sane(g, st) && Keeps(st0, st) && node in st.depths && st.depths[node] == depth
    requires StackOk(g, st, anc + [node])
    requires node < |g.adj| && j < |g.adj[node]| && forall k :: 0 <= k < j ==> Visited(st, g.adj[node][k])
    requires Sane(g, st1) && Keeps(st, st1) && st.points <= st1.points
    requires FinishedOk(g, st1, anc + [node]) && PointsSound(g, st1) && g.adj[node][j] in Sub(st, st1)
    requires st2 == if child >= depth then st1.(points := st1.points + {node}) else st1
    requires child >= depth ==> Cut(g, node)
    ensures Sane(g, st2) && Keeps(st0, st2) && st.points <= st2.points
    ensures node in st2.depths && st2.depths[node] == depth
    ensures StackOk(g, st2, anc + [node]) && FinishedOk(g, st2, anc + [node]) && PointsSound(g, st2)
    ensures forall k :: 0 <= k < j + 1 ==> Visited(st2, g.adj[node][k])
  {
    assert st2.depths == st1.depths;
    assert forall v: nat :: Visited(st2, v) == Visited(st1, v);
  }

  /** The explored part grows by the child's subtree. */
  lemma ChildSpan(g: Ugraph, node: nat, depth: nat, from: nat, anc: seq<nat>, st0: Search, j: nat,
                  st: Search, st1: Search, st2: Search, child: int)
    requires node < |g.adj| && j < |g.adj[node]|
    requires Deeper(Sub(st0, st), st.depths, depth) && Spans(g, Sub(st0, st), node)
    requires Complete(g, Sub(st0, st) - {node}, st.points)
    requires Keeps(st, st1) && st.points <= st2.points && st1.points <= st2.points && st2.depths == st1.depths
    requires node in Sub(st0, st)
    requires var n := g.adj[node][j];
      && node !in Sub(st, st1) && n in Sub(st, st1)
      && Complete(g, Sub(st, st1), st1.points) && Spans(g, Sub(st, st1), n)
      && Deeper(Sub(st, st1), st1.depths, depth + 1)
    requires Sub(st0, st2) == Sub(st0, st) + Sub(st, st1)
    ensures Deeper(Sub(st0, st2), st2.depths, depth) && Spans(g, Sub(st0, st2), node)
    ensures Complete(g, Sub(st0, st2) - {node}, st2.points)
  {
    var n := g.adj[node][j];
    var sc := Sub(st, st1);
    var old_ := Sub(st0, st);
    var s2 := Sub(st0, st2);
    forall x | x in s2
      ensures ReachesIn(g.adj, s2, node, x)
    {
      if x in old_ {
        ReachInMono(g.adj, old_, s2, node, x);
      } else {
        ReachInMono(g.adj, sc, s2, n, x);
        ReachInEdge(g.adj, s2, node, n);
        ReachInTrans(g.adj, s2, node, n, x);
      }
    }
  }

  /** The shallowest depth after a tree child. */
  lemma ChildLow(g: Ugraph, node: nat, depth: nat, from: nat, st0: Search, j: nat, reach: int,
                 st: Search, st1: Search, st2: Search, child: int)
    requires LoopLow(g, node, depth, from, st0, j, reach, st)
    requires Keeps(st0, st) && node in st.depths && st.depths[node] == depth
    requires j < |g.adj[node]| && Sub(st0, st2) == Sub(st0, st) + Sub(st, st1)
    requires var n := g.adj[node][j];
      && Keeps(st, st1) && n in Sub(st, st1) && st1.depths[n] == depth + 1 && 0 <= child <= depth + 1
      && LowBound(g, Sub(st, st1), st1.depths, n, node, child)
      && LowWitness(g, Sub(st, st1), st1.depths, n, node, child, depth + 1)
      && Deeper(Sub(st, st1), st1.depths, depth + 1)
    requires st2.depths == st1.depths
    ensures LoopLow(g, node, depth, from, st0, j + 1, Min(child, reach), st2)
  {
    var n := g.adj[node][j];
    var sc := Sub(st, st1);
    var old_ := Sub(st0, st);
    var s2 := Sub(st0, st2);
    var m := Min(child, reach);
    forall x, w | x in s2 && x != node && x < |g.adj| && w in g.adj[x]
      ensures w in st2.depths && m <= st2.depths[w]
    {
      if x in old_ {
        assert w in st.depths && reach <= st.depths[w];
      }
    }
    forall k | 0 <= k < j + 1 && g.adj[node][k] != from
      ensures g.adj[node][k] in st2.depths && m <= st2.depths[g.adj[node][k]]
    {
      if k < j {
        assert g.adj[node][k] in st.depths && reach <= st.depths[g.adj[node][k]];
      }
    }
    if m == reach && reach != depth {
      var x, w :| x in old_ && x < |g.adj| && w in g.adj[x] && !(x == node && w == from)
        && w in st.depths && st.depths[w] == reach;
      assert x in s2 && w in st2.depths && st2.depths[w] == m;
    } else if m != reach {
      var x, w :| x in sc && x < |g.adj| && w in g.adj[x] && !(x == n && w == node)
        && w in st1.depths && st1.depths[w] == child;
      assert x in s2 && x != node;
    }
  }

  // ---------------------------------------------------------------------
  // The search roots

  /** The neighbour loop of search root `root` from position `j` on. */
  lemma {:induction false} RootSpec(g: Ugraph, root: nat, st0: Search, j: nat, count: nat, st: Search, s1: set<nat>, c1: nat)
    requires RootLoop(g, root, st0, j, count, st, s1, c1)
    ensures RootDone(g, root, st0, RootNbrs(g, root, g.adj[root][j..], count, st))
    decreases |g.adj[root]| - j, 1
  {
    if j < |g.adj[root]| {
      var n: nat := g.adj[root][j];
      if st.depths[n] == -1 {
        RootChildBranch(g, root, st0, j, count, st, s1, c1);
      } else {
        RootSeenBranch(g, root, st0, j, count, st, s1, c1);
      }
    } else {
      assert g.adj[root][j..] == [];
      RootEnd(g, root, st0, count, st, s1, c1);
    }
  }

  /** The root loop goes on past a neighbour reached before. */
  lemma {:induction false} RootSeenBranch(g: Ugraph, root: nat, st0: Search, j: nat, count: nat, st: Search, s1: set<nat>, c1: nat)
    requires RootLoop(g, root, st0, j, count, st, s1, c1)
    requires j < |g.adj[root]| && Visited(st, g.adj[root][j])
    ensures RootDone(g, root, st0, RootNbrs(g, root, g.adj[root][j..], count, st))
    decreases |g.adj[root]| - j, 0
  {
    var ns := g.adj[root][j..];
    assert ns[0] == g.adj[root][j] && ns[1..] == g.adj[root][j + 1..];
    RootSpec(g, root, st0, j + 1, count, st, s1, c1);
  }

  /** The root loop goes on past a new subtree. */
  lemma {:induction false} RootChildBranch(g: Ugraph, root: nat, st0: Search, j: nat, count: nat, st: Search, s1: set<nat>, c1: nat)
    requires RootLoop(g, root, st0, j, count, st, s1, c1)
    requires j < |g.adj[root]| && g.adj[root][j] in st.depths && st.depths[g.adj[root][j]] == -1
    ensures RootDone(g, root, st0, RootNbrs(g, root, g.adj[root][j..], count, st))
    decreases |g.adj[root]| - j, 0
  {
    var st1, s1', c1' := RootChild(g, root, st0, j, count, st, s1, c1);
    RootSpec(g, root, st0, j + 1, count + 1, st1, s1', c1');
    RootChildTail(g, root, st0, j, count, st, st1);
  }

  /** What the rest of the root loop gives after a new subtree is what the
      loop gives from that subtree on. */
  lemma RootChildTail(g: Ugraph, root: nat, st0: Search, j: nat, count: nat, st: Search, st1: Search)
    requires Closed(g) && Sane(g, st) && root in st.depths && st.depths[root] == 0 && root < |g.adj|
    requires j < |g.adj[root]| && g.adj[root][j] in st.depths && st.depths[g.adj[root][j]] == -1
    requires st1 == RecArtPts(g, g.adj[root][j], 1, root, st).1
    requires RootDone(g, root, st0, RootNbrs(g, root, g.adj[root][j + 1..], count + 1, st1))
    ensures RootDone(g, root, st0, RootNbrs(g, root, g.adj[root][j..], count, st))
  {
    var ns := g.adj[root][j..];
    assert ns[0] == g.adj[root][j] && ns[1..] == g.adj[root][j + 1..];
    RootUnfold(g, root, ns, count, st);
  }

  /** One step of the root loop at a new subtree. */
  lemma RootUnfold(g: Ugraph, root: nat, ns: seq<nat>, count: nat, st: Search)
    requires Closed(g) && Sane(g, st) && root in st.depths && st.depths[root] == 0
    requires forall t :: t in ns ==> t in g.stops
    requires |ns| > 0 && ns[0] in st.depths && st.depths[ns[0]] == -1
    ensures RootNbrs(g, root, ns, count, st) == RootNbrs(g, root, ns[1..], count + 1, RecArtPts(g, ns[0], 1, root, st).1)
  {
    assert forall t :: t in ns[1..] ==> t in ns;
  }

  /** A subtree of the root: the first one becomes `s1`, a further one shows
      the root is an articulation point. */
  lemma RootChild(g: Ugraph, root: nat, st0: Search, j: nat, count: nat, st: Search, s1: set<nat>, c1: nat)
      returns (st1: Search, s1': set<nat>, c1': nat)
    requires RootLoop(g, root, st0, j, count, st, s1, c1)
    requires j < |g.adj[root]| && g.adj[root][j] in st.depths && st.depths[g.adj[root][j]] == -1
    ensures st1 == RecArtPts(g, g.adj[root][j], 1, root, st).1
    ensures RootLoop(g, root, st0, j + 1, count + 1, st1, s1', c1')
  {
    var n := g.adj[root][j];
    var r := RecArtPts(g, n, 1, root, st);
    st1 := r.1;
    s1' := if count == 0 then Sub(st, st1) else s1;
    c1' := if count == 0 then n else c1;
    var sc := Sub(st, st1);
    assert StackOk(g, st, [root]);
    assert Frame(g, n, 1, root, [root], st);
    RecSpec(g, n, 1, root, [root], st);
    RootChildState(g, root, st0, j, st, r.0, st1);
    RootSubtree(g, root, st, st1, n, r.0);
    RootChildCount(g, root, count, Sub(st0, st), sc, n, s1, c1);
  }

  /** The loop state after a subtree of the root. */
  lemma RootChildState(g: Ugraph, root: nat, st0: Search, j: nat, st: Search, rb: int, st1: Search)
    requires Sane(g, st0) && Sane(g, st) && Keeps(st0, st) && root in st.depths && st.depths[root] == 0
    requires root < |g.adj| && j < |g.adj[root]| && forall k :: 0 <= k < j ==> Visited(st, g.adj[root][k])
    requires Complete(g, Sub(st0, st) - {root}, st.points)
    requires Sane(g, st1) && Keeps(st, st1) && st.points <= st1.points
    requires VisitPost(g, g.adj[root][j], 1, root, [root], st, rb, st1)
    ensures Keeps(st0, st1) && root in st1.depths && st1.depths[root] == 0
    ensures forall k :: 0 <= k < j + 1 ==> Visited(st1, g.adj[root][k])
    ensures Sub(st0, st1) == Sub(st0, st) + Sub(st, st1)
    ensures Complete(g, Sub(st0, st1) - {root}, st1.points)
  {
    SubUnion(g, st0, st, st1, st1);
  }

  /** A subtree of the root is closed off by the root. */
  lemma RootSubtree(g: Ugraph, root: nat, st: Search, st1: Search, n: nat, rb: int)
    requires Symmetric(g.adj) && Sane(g, st) && Sane(g, st1) && Keeps(st, st1)
    requires root in st.depths && st.depths[root] == 0
    requires FinishedOk(g, st, [root]) && VisitPost(g, n, 1, root, [root], st, rb, st1)
    ensures root !in Sub(st, st1) && n in Sub(st, st1) && Spans(g, Sub(st, st1), n)
    ensures forall x, w :: x in Sub(st, st1) && x < |g.adj| && w in g.adj[x] && w in Without(g, root) ==> w in Sub(st, st1)
  {
    NbrClosure(g, st, st1, [root]);
  }

  /** Counting one more subtree of the root. */
  lemma RootChildCount(g: Ugraph, root: nat, count: nat, sub: set<nat>, sc: set<nat>, n: nat, s1: set<nat>, c1: nat)
    requires RootCount(g, root, count, sub, s1, c1)
    requires root < |g.adj| && n in g.adj[root] && n != root && n !in sub && root !in sc
    requires n in sc && Spans(g, sc, n)
    requires forall x, w :: x in sc && x < |g.adj| && w in g.adj[x] && w in Without(g, root) ==> w in sc
    ensures var s1' := if count == 0 then sc else s1;
      var c1' := if count == 0 then n else c1;
      RootCount(g, root, count + 1, sub + sc, s1', c1')
  {
    if count >= 1 {
      assert n !in s1;
      SplitCut(g, root, c1, n, s1);
    }
  }

  /** A neighbour of a stop not reached yet is not reached either, when
      every reached visit is closed. */
  lemma RootFresh(g: Ugraph, root: nat, st0: Search, a: nat)
    requires Symmetric(g.adj) && FinishedOk(g, st0, [])
    requires root in st0.depths && st0.depths[root] == -1 && root < |g.adj| && a in g.adj[root]
    ensures !Visited(st0, a)
  {
    SymEdge(g.adj, root, a);
    assert a !in [];
    assert Visited(st0, a) ==> Visited(st0, root);
  }

  /** Closing the loop of a search root. */
  lemma RootEnd(g: Ugraph, root: nat, st0: Search, count: nat, st: Search, s1: set<nat>, c1: nat)
    requires root < |g.adj| && RootLoop(g, root, st0, |g.adj[root]|, count, st, s1, c1)
    ensures RootDone(g, root, st0, (count, st))
  {
    assert root in Sub(st0, st);
    forall a | a in g.adj[root] && a != root
      ensures a in Sub(st0, st) - {root}
    {
      var k :| 0 <= k < |g.adj[root]| && g.adj[root][k] == a;
      RootFresh(g, root, st0, a);
    }
    RootEndClosed(g, root, st);
    if count == 1 {
      forall a | a in g.adj[root] && a != root
        ensures ReachesIn(g.adj, Without(g, root), a, c1)
      {
        assert s1 <= Without(g, root);
        ReachInMono(g.adj, s1, Without(g, root), c1, a);
        ReachInSym(g.adj, Without(g, root), c1, a);
      }
      NotCut(g, root, c1);
    } else if count == 0 {
      NotCut(g, root, root);
    }
  }

  /** Once its loop is done, the visit of the root is closed too. */
  lemma RootEndClosed(g: Ugraph, root: nat, st: Search)
    requires root < |g.adj| && FinishedOk(g, st, [root])
    requires forall k :: 0 <= k < |g.adj[root]| ==> Visited(st, g.adj[root][k])
    ensures FinishedOk(g, st, [])
  {
    forall v: nat, w: nat | Visited(st, v) && v < |g.adj| && w in g.adj[v]
      ensures Visited(st, w)
    {
      if v == root {
        var k :| 0 <= k < |g.adj[root]| && g.adj[root][k] == w;
      } else {
        assert v !in [root];
      }
    }
  }

  /** The outer loop keeps `RootsInv`. */
  lemma {:induction false} RootsSpec(g: Ugraph, ss: seq<nat>, st: Search)
    requires RootsInv(g, st) && forall s :: s in ss ==> s in g.stops
    ensures RootsInv(g, Roots(g, ss, st))
    decreases |ss|
  {
    if |ss| > 0 {
      var root := ss[0];
      assert forall t :: t in ss[1..] ==> t in ss;
      if st.depths[root] == -1 {
        var st1 := st.(depths := st.depths[root := 0]);
        var (count, st2) := RootNbrs(g, root, g.adj[root], 0, st1);
        var st3 := if count > 1 then st2.(points := st2.points + {root}) else st2;
        RootStep(g, root, st);
        RootsSpec(g, ss[1..], st3);
      } else {
        RootsSpec(g, ss[1..], st);
      }
    }
  }

  /** One search root keeps `RootsInv`. */
  lemma RootStep(g: Ugraph, root: nat, st: Search)
    requires RootsInv(g, st) && root in st.depths && st.depths[root] == -1
    ensures var st1 := st.(depths := st.depths[root := 0]);
      var (count, st2) := RootNbrs(g, root, g.adj[root], 0, st1);
      var st3 := if count > 1 then st2.(points := st2.points + {root}) else st2;
      RootsInv(g, st3)
  {
    var st1 := st.(depths := st.depths[root := 0]);
    RootStart(g, root, st);
    assert g.adj[root][0..] == g.adj[root];
    RootSpec(g, root, st, 0, 0, st1, {}, 0);
    var (count, st2) := RootNbrs(g, root, g.adj[root], 0, st1);
    var st3 := if count > 1 then st2.(points := st2.points + {root}) else st2;
    assert RootDone(g, root, st, (count, st2));
    assert forall v: nat :: Visited(st3, v) == Visited(st2, v);
    forall x: nat | Visited(st3, x) && Cut(g, x)
      ensures x in st3.points
    {
      if x != root && !Visited(st, x) {
        assert x in Sub(st, st2) - {root};
      }
    }
  }

  /** The loop state when `root` has just got depth 0. */
  lemma RootStart(g: Ugraph, root: nat, st: Search)
    requires RootsInv(g, st) && root in st.depths && st.depths[root] == -1
    ensures RootLoop(g, root, st, 0, 0, st.(depths := st.depths[root := 0]), {}, 0)
  {
    var st1 := st.(depths := st.depths[root := 0]);
    assert Sub(st, st1) == {root};
    assert FinishedOk(g, st1, [root]) by {
      forall v: nat, w: nat | Visited(st1, v) && v !in [root] && v < |g.adj| && w in g.adj[v]
        ensures Visited(st1, w)
      {
        assert Visited(st, v) && Visited(st, w);
      }
    }
  }

  /** The search reports exactly the articulation points: the stops whose
      removal leaves two of their neighbours disconnected. */
  lemma ArticulationExact(g: Ugraph)
    requires Closed(g) && Symmetric(g.adj)
    ensures forall x :: x in FindArticulationPoints(g) <==> x in StopSet(g) && Cut(g, x)
  {
    var init := Initial(g);
    assert RootsInv(g, init);
    RootsSpec(g, g.stops, init);
    var r := SearchAll(g);
    assert forall x :: x in StopSet(g) ==> Visited(r, x);
  }

  // ---------------------------------------------------------------------
  // Examples

  /** The path 0 - 1 - 2 - 3. */
  function PathGraph(): Ugraph {
    Ugraph([0, 1, 2, 3], [[1], [0, 2], [1, 3], [2]])
  }

  /** On a path the inner stops are the articulation points. */
  lemma PathExample()
    ensures FindArticulationPoints(PathGraph()) == {1, 2}
  {
    PathShape();
    PathPoints(PathGraph(), {1, 2});
    ExactSet(PathGraph(), {1, 2});
  }

  lemma PathPoints(g: Ugraph, p: set<nat>)
    requires g == PathGraph() && p == {1, 2}
    ensures Lists(g, p)
  {
    PathShape();
    PathCuts();
    PathEnds();
    forall x | x in StopSet(g)
      ensures x in p <==> Cut(g, x)
    {
      assert x == 0 || x == 1 || x == 2 || x == 3;
    }
  }

  lemma PathShape()
    ensures Closed(PathGraph()) && Symmetric(PathGraph().adj) && StopSet(PathGraph()) == {0, 1, 2, 3}
  {
  }

  lemma PathCuts()
    ensures Cut(PathGraph(), 1) && Cut(PathGraph(), 2)
  {
    var g := PathGraph();
    assert Without(g, 1) == {0, 2, 3} && Without(g, 2) == {0, 1, 3};
    if ReachesIn(g.adj, Without(g, 1), 0, 2) {
      ReachInStays(g.adj, Without(g, 1), {0}, 0, 2);
    }
    if ReachesIn(g.adj, Without(g, 2), 1, 3) {
      ReachInStays(g.adj, Without(g, 2), {0, 1}, 1, 3);
    }
  }

  lemma PathEnds()
    ensures !Cut(PathGraph(), 0) && !Cut(PathGraph(), 3)
  {
    var g := PathGraph();
    PathShape();
    ReachInRefl(g.adj, Without(g, 0), 1);
    NotCut(g, 0, 1);
    ReachInRefl(g.adj, Without(g, 3), 2);
    NotCut(g, 3, 2);
  }

  /** `points` holds exactly the stops that are articulation points. */
  ghost predicate Lists(g: Ugraph, points: set<nat>) {
    && points <= StopSet(g)
    && forall x :: x in StopSet(g) ==> (x in points <==> Cut(g, x))
  }

  /** The search finds the articulation points a set lists. */
  lemma ExactSet(g: Ugraph, points: set<nat>)
    requires Closed(g) && Symmetric(g.adj) && Lists(g, points)
    ensures FindArticulationPoints(g) == points
  {
    ArticulationExact(g);
  }

  /** A single edge 0 - 1. */
  function EdgeGraph(): Ugraph {
    Ugraph([0, 1], [[1], [0]])
  }

  /** The ends of a single edge are no articulation points. */
  lemma EdgeExample()
    ensures FindArticulationPoints(EdgeGraph()) == {}
  {
    var g := EdgeGraph();
    EdgeShape();
    EdgeEnds();
    assert Lists(g, {});
    ExactSet(g, {});
  }

  lemma EdgeShape()
    ensures Closed(EdgeGraph()) && Symmetric(EdgeGraph().adj) && StopSet(EdgeGraph()) == {0, 1}
  {
  }

  lemma EdgeEnds()
    ensures !Cut(EdgeGraph(), 0) && !Cut(EdgeGraph(), 1)
  {
    var g := EdgeGraph();
    EdgeShape();
    ReachInRefl(g.adj, Without(g, 0), 1);
    NotCut(g, 0, 1);
    ReachInRefl(g.adj, Without(g, 1), 0);
    NotCut(g, 1, 0);
  }
}
