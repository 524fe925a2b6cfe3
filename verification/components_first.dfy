/** The forward pass of Kosaraju's algorithm lists every stop once, and lists
    a stop `w` that `u` reaches without being reached back before some stop
    of `u`'s component. The proof follows the recursion, carrying the stack
    of stops whose visits are still open. */
module ComponentsFirst {
  import opened Transit
  import opened Reach
  import opened Components

  /** Stop `w` sits in `list` before some stop of `u`'s component. */
  ghost predicate Dominated(d: Digraph, list: seq<nat>, u: nat, w: nat) {
    exists i, j :: 0 <= i < j < |list| && list[i] == w && Mutual(d.out, list[j], u)
  }

  /** Some open visit belongs to `u`'s component. */
  ghost predicate StackCovered(d: Digraph, st: seq<nat>, u: nat) {
    exists k :: 0 <= k < |st| && Mutual(d.out, st[k], u)
  }

  /** Each open visit was entered along an edge from the one below it. */
  predicate Chain(d: Digraph, st: seq<nat>) {
    forall k :: 0 <= k < |st| - 1 ==> st[k] < |d.out| && st[k + 1] in d.out[st[k]]
  }

  /** The marked stops are exactly the finished and the open ones. */
  ghost predicate Parts(d: Digraph, vis: set<nat>, list: seq<nat>, st: seq<nat>) {
    && vis <= StopSet(d) && Distinct(list) && Distinct(st)
    && (forall x :: x in vis <==> x in list || x in st)
    && (forall x :: x in st ==> x !in list)
  }

  /** Every successor of a finished stop is marked. */
  predicate Finished(d: Digraph, vis: set<nat>, list: seq<nat>) {
    forall x, y :: x in list && x < |d.out| && y in d.out[x] ==> y in vis
  }

  /** The ordering property, up to components still open on the stack. */
  ghost predicate Ordered(d: Digraph, list: seq<nat>, st: seq<nat>) {
    forall u, w :: u in list && Reaches(d.out, u, w) && !Reaches(d.out, w, u) ==>
      Dominated(d, list, u, w) || StackCovered(d, st, u)
  }

  ghost predicate DfsInv(d: Digraph, vis: set<nat>, list: seq<nat>, st: seq<nat>) {
    Closed(d) && Parts(d, vis, list, st) && Chain(d, st) && Finished(d, vis, list) && Ordered(d, list, st)
  }

  /** Every open visit reaches the innermost one. */
  lemma {:induction false} ChainReach(d: Digraph, st: seq<nat>, m: nat)
    requires Chain(d, st) && m < |st|
    ensures Reaches(d.out, st[m], st[|st| - 1])
    decreases |st| - m
  {
    if m == |st| - 1 {
      ReachRefl(d.out, st[m]);
    } else {
      ChainReach(d, st, m + 1);
      ReachStep(d.out, st[m], st[m + 1], st[|st| - 1]);
    }
  }

  /** Entering `v` opens a visit on top of the stack. */
  lemma PushInv(d: Digraph, v: nat, vis: set<nat>, list: seq<nat>, st: seq<nat>)
    requires DfsInv(d, vis, list, st) && v in d.stops && v !in vis
    requires |st| == 0 || (st[|st| - 1] < |d.out| && v in d.out[st[|st| - 1]])
    ensures DfsInv(d, vis + {v}, list, st + [v])
  {
    var st2 := st + [v];
    forall u, w | u in list && Reaches(d.out, u, w) && !Reaches(d.out, w, u)
      ensures Dominated(d, list, u, w) || StackCovered(d, st2, u)
    {
      if StackCovered(d, st, u) {
        var k :| 0 <= k < |st| && Mutual(d.out, st[k], u);
        assert st2[k] == st[k];
      }
    }
    assert Chain(d, st2) by {
      forall k | 0 <= k < |st2| - 1
        ensures st2[k] < |d.out| && st2[k + 1] in d.out[st2[k]]
      {
        if k < |st| - 1 {
          assert st2[k] == st[k] && st2[k + 1] == st[k + 1];
        }
      }
    }
  }

  /** Closing the visit of `v`, all of whose successors are marked. */
  lemma FinishInv(d: Digraph, v: nat, vis: set<nat>, list: seq<nat>, st: seq<nat>)
    requires DfsInv(d, vis, list, st + [v]) && v < |d.out|
    requires forall y :: y in d.out[v] ==> y in vis
    ensures DfsInv(d, vis, list + [v], st)
  {
    var st2 := st + [v];
    assert v in st2;
    assert forall x :: x in list + [v] <==> x in list || x == v;
    assert forall x :: x in st ==> x in st2 && x != v by {
      forall x | x in st
        ensures x in st2 && x != v
      {
        var k :| 0 <= k < |st| && st[k] == x;
        assert st2[k] == x && st2[|st|] == v;
      }
    }
    assert Chain(d, st) by {
      forall k | 0 <= k < |st| - 1
        ensures st[k] < |d.out| && st[k + 1] in d.out[st[k]]
      {
        assert st2[k] == st[k] && st2[k + 1] == st[k + 1];
      }
    }
    assert Distinct(st) by {
      forall i, j | 0 <= i < j < |st|
        ensures st[i] != st[j]
      {
        assert st2[i] == st[i] && st2[j] == st[j];
      }
    }
    FinishOrdered(d, v, vis, list, st);
  }

  lemma FinishOrdered(d: Digraph, v: nat, vis: set<nat>, list: seq<nat>, st: seq<nat>)
    requires DfsInv(d, vis, list, st + [v]) && v < |d.out|
    requires forall y :: y in d.out[v] ==> y in vis
    ensures Ordered(d, list + [v], st)
  {
    var st2 := st + [v];
    var l3 := list + [v];
    forall u, w | u in l3 && Reaches(d.out, u, w) && !Reaches(d.out, w, u)
      ensures Dominated(d, l3, u, w) || StackCovered(d, st, u)
    {
      if u in list && Dominated(d, list, u, w) {
        var i, j :| 0 <= i < j < |list| && list[i] == w && Mutual(d.out, list[j], u);
        assert l3[i] == w && l3[j] == list[j];
      } else if !StackCovered(d, st, u) {
        if u == v {
          ReachRefl(d.out, v);
        } else {
          var k :| 0 <= k < |st2| && Mutual(d.out, st2[k], u);
        }
        CoverByTop(d, v, vis, list, st, u, w);
      }
    }
  }

  /** The case of `FinishOrdered` where `u` is in the component of `v`. */
  lemma CoverByTop(d: Digraph, v: nat, vis: set<nat>, list: seq<nat>, st: seq<nat>, u: nat, w: nat)
    requires DfsInv(d, vis, list, st + [v]) && v < |d.out|
    requires forall y :: y in d.out[v] ==> y in vis
    requires Mutual(d.out, v, u) && Reaches(d.out, u, w) && !Reaches(d.out, w, u)
    ensures Dominated(d, list + [v], u, w) || StackCovered(d, st, u)
  {
    var st2 := st + [v];
    var l3 := list + [v];
    assert st2[|st|] == v;
    ReachTrans(d.out, v, u, w);
    forall m | 0 <= m < |st2|
      ensures Reaches(d.out, st2[m], v)
    {
      ChainReach(d, st2, m);
    }
    assert w in st2 ==> Reaches(d.out, w, u) by {
      if w in st2 {
        var m :| 0 <= m < |st2| && st2[m] == w;
        ReachTrans(d.out, w, v, u);
      }
    }
    if w in list {
      var i :| 0 <= i < |list| && list[i] == w;
      assert l3[i] == w && l3[|list|] == v;
    } else {
      ReachExit(d.out, vis, v, w);
      var c, x :| c in vis && x !in vis && c < |d.out| && x in d.out[c]
        && Reaches(d.out, v, c) && Reaches(d.out, x, w);
      assert c in list ==> x in vis;
      var m :| 0 <= m < |st2| && st2[m] == c;
      assert m < |st| && st[m] == c;
      MutualTrans(d.out, c, v, u);
    }
  }

  lemma {:induction false} VisitInv(d: Digraph, v: nat, vis: set<nat>, list: seq<nat>, st: seq<nat>)
    requires DfsInv(d, vis, list, st) && v in d.stops
    requires |st| == 0 || (st[|st| - 1] < |d.out| && v in d.out[st[|st| - 1]])
    ensures var r := ForwardVisit(d, v, vis, list); DfsInv(d, r.0, r.1, st)
    decreases StopSet(d) - vis, 0, 0
  {
    if v !in vis {
      PushInv(d, v, vis, list, st);
      var st2 := st + [v];
      assert st2[|st2| - 1] == v;
      EachInv(d, d.out[v], vis + {v}, list, st2);
      var r1 := ForwardEach(d, d.out[v], vis + {v}, list);
      FinishInv(d, v, r1.0, r1.1, st);
    }
  }

  lemma {:induction false} EachInv(d: Digraph, ns: seq<nat>, vis: set<nat>, list: seq<nat>, st: seq<nat>)
    requires DfsInv(d, vis, list, st) && forall t :: t in ns ==> t in d.stops
    requires |st| == 0 || (st[|st| - 1] < |d.out| && forall t :: t in ns ==> t in d.out[st[|st| - 1]])
    ensures var r := ForwardEach(d, ns, vis, list); DfsInv(d, r.0, r.1, st)
    decreases StopSet(d) - vis, 1, |ns|
  {
    if |ns| > 0 {
      assert ns[0] in ns;
      VisitInv(d, ns[0], vis, list, st);
      var r1 := ForwardVisit(d, ns[0], vis, list);
      assert forall t :: t in ns[1..] ==> t in ns;
      EachInv(d, ns[1..], r1.0, r1.1, st);
    }
  }

  /** The forward pass: a list of all the stops, each once, in which a stop
      `w` reached from `u` but not reaching `u` comes before a stop of `u`'s
      component. */
  lemma FirstPass(d: Digraph)
    requires Closed(d)
    ensures var list := ForwardEach(d, d.stops, {}, []).1;
      && Distinct(list)
      && (forall s :: s in list <==> s in d.stops)
      && (forall u, w :: u in list && Reaches(d.out, u, w) && !Reaches(d.out, w, u) ==>
            Dominated(d, list, u, w))
  {
    EachInv(d, d.stops, {}, [], []);
  }
}
