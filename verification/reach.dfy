/** Paths and reachability in a directed graph given by successor lists:
    `adj[v]` lists the stops one edge away from stop `v`. */
module Reach {

  /** `p` is a non-empty walk along successor lists. */
  predicate IsPath(adj: seq<seq<nat>>, p: seq<nat>) {
    |p| > 0 && forall k :: 0 <= k < |p| - 1 ==> p[k] < |adj| && p[k + 1] in adj[p[k]]
  }

  /** Some path leads from `u` to `v`. */
  ghost predicate Reaches(adj: seq<seq<nat>>, u: nat, v: nat) {
    exists p :: IsPath(adj, p) && p[0] == u && p[|p| - 1] == v
  }

  /** `u` and `v` reach each other. */
  ghost predicate Mutual(adj: seq<seq<nat>>, u: nat, v: nat) {
    Reaches(adj, u, v) && Reaches(adj, v, u)
  }

  lemma ReachRefl(adj: seq<seq<nat>>, u: nat)
    ensures Reaches(adj, u, u)
  {
    assert IsPath(adj, [u]);
  }

  lemma ReachEdge(adj: seq<seq<nat>>, u: nat, v: nat)
    requires u < |adj| && v in adj[u]
    ensures Reaches(adj, u, v)
  {
    assert IsPath(adj, [u, v]);
  }

  lemma ReachTrans(adj: seq<seq<nat>>, u: nat, v: nat, w: nat)
    requires Reaches(adj, u, v) && Reaches(adj, v, w)
    ensures Reaches(adj, u, w)
  {
    var p :| IsPath(adj, p) && p[0] == u && p[|p| - 1] == v;
    var q :| IsPath(adj, q) && q[0] == v && q[|q| - 1] == w;
    var pq := p + q[1..];
    forall k | 0 <= k < |pq| - 1
      ensures pq[k] < |adj| && pq[k + 1] in adj[pq[k]]
    {
      if k < |p| - 1 {
        assert pq[k] == p[k] && pq[k + 1] == p[k + 1];
      } else {
        assert pq[k] == q[k - |p| + 1] && pq[k + 1] == q[k - |p| + 2];
      }
    }
    assert IsPath(adj, pq);
  }

  /** An edge followed by a path is a path. */
  lemma ReachStep(adj: seq<seq<nat>>, u: nat, v: nat, w: nat)
    requires u < |adj| && v in adj[u] && Reaches(adj, v, w)
    ensures Reaches(adj, u, w)
  {
    ReachEdge(adj, u, v);
    ReachTrans(adj, u, v, w);
  }

  lemma MutualTrans(adj: seq<seq<nat>>, u: nat, v: nat, w: nat)
    requires Mutual(adj, u, v) && Mutual(adj, v, w)
    ensures Mutual(adj, u, w)
  {
    ReachTrans(adj, u, v, w);
    ReachTrans(adj, w, v, u);
  }

  /** A path that starts inside `a` and ends outside it crosses an edge
      leaving `a`. */
  lemma {:induction false} ReachExit(adj: seq<seq<nat>>, a: set<nat>, u: nat, w: nat)
    requires Reaches(adj, u, w) && u in a && w !in a
    ensures exists c, x :: (c in a && x !in a && c < |adj| && x in adj[c]
      && Reaches(adj, u, c) && Reaches(adj, x, w))
  {
    var p :| IsPath(adj, p) && p[0] == u && p[|p| - 1] == w;
    PathExit(adj, a, p);
  }

  lemma {:induction false} PathExit(adj: seq<seq<nat>>, a: set<nat>, p: seq<nat>)
    requires IsPath(adj, p) && p[0] in a && p[|p| - 1] !in a
    ensures exists c, x :: (c in a && x !in a && c < |adj| && x in adj[c]
      && Reaches(adj, p[0], c) && Reaches(adj, x, p[|p| - 1]))
    decreases |p|
  {
    var q := p[1..];
    assert IsPath(adj, q) by {
      forall k | 0 <= k < |q| - 1
        ensures q[k] < |adj| && q[k + 1] in adj[q[k]]
      {
        assert q[k] == p[k + 1] && q[k + 1] == p[k + 2];
      }
    }
    ReachRefl(adj, p[0]);
    assert Reaches(adj, p[1], p[|p| - 1]) by {
      assert q[0] == p[1] && q[|q| - 1] == p[|p| - 1];
    }
    if p[1] in a {
      PathExit(adj, a, q);
      var c, x :| c in a && x !in a && c < |adj| && x in adj[c]
        && Reaches(adj, q[0], c) && Reaches(adj, x, q[|q| - 1]);
      ReachStep(adj, p[0], p[1], c);
    }
  }

  /** Some path from `u` to `v` runs entirely inside `t`. */
  ghost predicate ReachesIn(adj: seq<seq<nat>>, t: set<nat>, u: nat, v: nat) {
    exists p :: IsPath(adj, p) && p[0] == u && p[|p| - 1] == v && forall k :: 0 <= k < |p| ==> p[k] in t
  }

  /** Every successor of a vertex lists it back. */
  predicate Symmetric(adj: seq<seq<nat>>) {
    forall a: nat, b: nat :: a < |adj| && b in adj[a] ==> b < |adj| && a in adj[b]
  }

  lemma ReachInRefl(adj: seq<seq<nat>>, t: set<nat>, u: nat)
    requires u in t
    ensures ReachesIn(adj, t, u, u)
  {
    assert IsPath(adj, [u]);
  }

  lemma ReachInEdge(adj: seq<seq<nat>>, t: set<nat>, u: nat, v: nat)
    requires u < |adj| && v in adj[u] && u in t && v in t
    ensures ReachesIn(adj, t, u, v)
  {
    var p := [u, v];
    assert IsPath(adj, p);
    assert forall k :: 0 <= k < |p| ==> p[k] in t;
  }

  lemma ReachInTrans(adj: seq<seq<nat>>, t: set<nat>, u: nat, v: nat, w: nat)
    requires ReachesIn(adj, t, u, v) && ReachesIn(adj, t, v, w)
    ensures ReachesIn(adj, t, u, w)
  {
    var p :| IsPath(adj, p) && p[0] == u && p[|p| - 1] == v && forall k :: 0 <= k < |p| ==> p[k] in t;
    var q :| IsPath(adj, q) && q[0] == v && q[|q| - 1] == w && forall k :: 0 <= k < |q| ==> q[k] in t;
    var pq := p + q[1..];
    forall k | 0 <= k < |pq| - 1
      ensures pq[k] < |adj| && pq[k + 1] in adj[pq[k]]
    {
      if k < |p| - 1 {
        assert pq[k] == p[k] && pq[k + 1] == p[k + 1];
      } else {
        assert pq[k] == q[k - |p| + 1] && pq[k + 1] == q[k - |p| + 2];
      }
    }
    forall k | 0 <= k < |pq|
      ensures pq[k] in t
    {
      if k < |p| {
        assert pq[k] == p[k];
      } else {
        assert pq[k] == q[k - |p| + 1];
      }
    }
    assert IsPath(adj, pq);
  }

  /** A path inside a set is a path inside any larger set. */
  lemma ReachInMono(adj: seq<seq<nat>>, t: set<nat>, t2: set<nat>, u: nat, v: nat)
    requires ReachesIn(adj, t, u, v) && t <= t2
    ensures ReachesIn(adj, t2, u, v)
  {
    var p :| IsPath(adj, p) && p[0] == u && p[|p| - 1] == v && forall k :: 0 <= k < |p| ==> p[k] in t;
    assert forall k :: 0 <= k < |p| ==> p[k] in t2;
  }

  /** An edge of a symmetric graph has its reverse. */
  lemma SymEdge(adj: seq<seq<nat>>, a: nat, b: nat)
    requires Symmetric(adj) && a < |adj| && b in adj[a]
    ensures b < |adj| && a in adj[b]
  {
  }

  /** In a symmetric graph paths can be walked backwards. */
  lemma ReachInSym(adj: seq<seq<nat>>, t: set<nat>, u: nat, v: nat)
    requires Symmetric(adj) && ReachesIn(adj, t, u, v)
    ensures ReachesIn(adj, t, v, u)
  {
    var p :| IsPath(adj, p) && p[0] == u && p[|p| - 1] == v && forall k :: 0 <= k < |p| ==> p[k] in t;
    var n := |p|;
    var q := seq(n, k requires 0 <= k < n => p[n - 1 - k]);
    forall k | 0 <= k < n - 1
      ensures q[k] < |adj| && q[k + 1] in adj[q[k]]
    {
      assert q[k] == p[n - 1 - k] && q[k + 1] == p[n - 2 - k];
      assert p[n - 2 - k] < |adj| && p[n - 1 - k] in adj[p[n - 2 - k]];
      SymEdge(adj, p[n - 2 - k], p[n - 1 - k]);
    }
    assert forall k :: 0 <= k < n ==> q[k] in t by {
      forall k | 0 <= k < n
        ensures q[k] in t
      {
        assert q[k] == p[n - 1 - k];
      }
    }
    assert IsPath(adj, q) && q[0] == v && q[n - 1] == u;
  }

  /** A path inside `t` that starts in `a`, where no edge leads from `a`
      to a vertex of `t` outside `a`, stays in `a`. */
  lemma {:induction false} ReachInStays(adj: seq<seq<nat>>, t: set<nat>, a: set<nat>, u: nat, v: nat)
    requires ReachesIn(adj, t, u, v) && u in a
    requires forall x, w :: x in a && x < |adj| && w in adj[x] && w in t ==> w in a
    ensures v in a
  {
    var p :| IsPath(adj, p) && p[0] == u && p[|p| - 1] == v && forall k :: 0 <= k < |p| ==> p[k] in t;
    var k := 0;
    while k < |p| - 1
      invariant 0 <= k <= |p| - 1 && p[k] in a
    {
      assert p[k + 1] in adj[p[k]] && p[k + 1] in t;
      k := k + 1;
    }
  }
}
