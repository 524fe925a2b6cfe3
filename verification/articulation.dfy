/** Articulation points by the depth-first low-link search, run from every
    stop not yet reached so that graphs of several components are covered.
    A stop is an articulation point when removing it splits the component
    it lies in. */
module ArticulationPoints {

  /** The undirected view the search walks: the stop set in iteration order
      and, per stop id, its neighbours in iteration order. */
  datatype Ugraph = Ugraph(stops: seq<nat>, adj: seq<seq<nat>>)

  /** The search state: the depth of every stop (-1 before it is reached)
      and the articulation points found so far. */
  datatype Search = Search(depths: map<nat, int>, points: set<nat>)

  function StopSet(g: Ugraph): set<nat> {
    set s | s in g.stops
  }

  /** Every neighbour of a stop is a stop; the depth lookup of any other
      stop would fail. */
  predicate Closed(g: Ugraph) {
    forall s :: s in g.stops ==> s < |g.adj| && forall t :: t in g.adj[s] ==> t in g.stops
  }

  function Min(a: int, b: int): int {
    if a <= b then a else b
  }

  /** The stops not reached yet. */
  function Unvisited(depths: map<nat, int>): set<nat> {
    set s | s in depths && depths[s] == -1
  }

  /** The state is over the stop set, with depths -1 or more and points
      among the stops. */
  predicate Sane(g: Ugraph, st: Search) {
    && st.depths.Keys == StopSet(g)
    && (forall s :: s in st.depths ==> st.depths[s] >= -1)
    && st.points <= StopSet(g)
  }

  /** Every stop reached in `st` is still reached in `r`, at the same depth. */
  predicate Keeps(st: Search, r: Search) {
    forall s :: s in st.depths && st.depths[s] != -1 ==> s in r.depths && r.depths[s] == st.depths[s]
  }

  /** `s` was reached between state `st` and `r`. */
  predicate Reached(st: Search, r: Search, s: nat) {
    s in st.depths && s in r.depths && st.depths[s] == -1 && r.depths[s] != -1
  }

  /** Visits `node`, an unreached stop, at depth `depth`, coming from
      `from`; returns the shallowest depth reachable from the subtree of
      `node` by a single edge other than the one to `from` (capped at
      `depth`), and the new state. */
  function RecArtPts(g: Ugraph, node: nat, depth: nat, from: nat, st: Search): (r: (int, Search))
    requires Closed(g) && Sane(g, st) && node in st.depths && st.depths[node] == -1
    ensures Sane(g, r.1) && Keeps(st, r.1) && st.points <= r.1.points
    ensures r.1.depths[node] == depth && 0 <= r.0 <= depth
    ensures Unvisited(r.1.depths) < Unvisited(st.depths)
    decreases Unvisited(st.depths), 0, 0
  {
    var st1 := st.(depths := st.depths[node := depth]);
    assert Unvisited(st1.depths) == Unvisited(st.depths) - {node};
    RecNbrs(g, node, depth, from, g.adj[node], depth, st1)
  }

  /** The loop of `RecArtPts` over the neighbours `ns` of `node`, with
      `reach` the shallowest depth seen so far. A neighbour already reached
      lowers `reach` to its depth; an unreached one is a tree child, visited
      one level deeper, and makes `node` an articulation point when nothing
      in its subtree reaches above `node`. */
  function RecNbrs(g: Ugraph, node: nat, depth: nat, from: nat, ns: seq<nat>, reach: int, st: Search): (r: (int, Search))
    requires Closed(g) && Sane(g, st) && node in st.depths && st.depths[node] == depth
    requires forall t :: t in ns ==> t in g.stops
    requires 0 <= reach <= depth
    ensures Sane(g, r.1) && Keeps(st, r.1) && st.points <= r.1.points
    ensures 0 <= r.0 <= reach
    ensures Unvisited(r.1.depths) <= Unvisited(st.depths)
    decreases Unvisited(st.depths), 1, |ns|
  {
    if |ns| == 0 then (reach, st)
    else
      var n := ns[0];
      assert forall t :: t in ns[1..] ==> t in ns;
      if n == from then
        RecNbrs(g, node, depth, from, ns[1..], reach, st)
      else if st.depths[n] != -1 then
        RecNbrs(g, node, depth, from, ns[1..], Min(st.depths[n], reach), st)
      else
        var (child, st1) := RecArtPts(g, n, depth + 1, node, st);
        var st2 := if child >= depth then st1.(points := st1.points + {node}) else st1;
        RecNbrs(g, node, depth, from, ns[1..], Min(child, reach), st2)
  }

  /** The loop over the neighbours `ns` of a search root: each unreached
      one starts a new subtree at depth 1. Returns the number of subtrees. */
  function RootNbrs(g: Ugraph, root: nat, ns: seq<nat>, count: nat, st: Search): (r: (nat, Search))
    requires Closed(g) && Sane(g, st) && root in st.depths && st.depths[root] == 0
    requires forall t :: t in ns ==> t in g.stops
    ensures Sane(g, r.1) && Keeps(st, r.1) && st.points <= r.1.points
    ensures count <= r.0 <= count + |ns|
    decreases |ns|
  {
    if |ns| == 0 then (count, st)
    else
      assert forall t :: t in ns[1..] ==> t in ns;
      if st.depths[ns[0]] == -1 then
        var st1 := RecArtPts(g, ns[0], 1, root, st).1;
        RootNbrs(g, root, ns[1..], count + 1, st1)
      else
        RootNbrs(g, root, ns[1..], count, st)
  }

  /** The outer loop over the stops `ss`: each stop still unreached becomes
      a search root at depth 0, and is an articulation point exactly when
      it starts more than one subtree. */
  function Roots(g: Ugraph, ss: seq<nat>, st: Search): (r: Search)
    requires Closed(g) && Sane(g, st) && forall s :: s in ss ==> s in g.stops
    ensures Sane(g, r) && Keeps(st, r) && st.points <= r.points
    ensures forall s :: s in ss ==> r.depths[s] != -1
    decreases |ss|
  {
    if |ss| == 0 then st
    else
      var root := ss[0];
      assert forall t :: t in ss[1..] ==> t in ss;
      if st.depths[root] == -1 then
        var st1 := st.(depths := st.depths[root := 0]);
        var (count, st2) := RootNbrs(g, root, g.adj[root], 0, st1);
        var st3 := if count > 1 then st2.(points := st2.points + {root}) else st2;
        Roots(g, ss[1..], st3)
      else
        Roots(g, ss[1..], st)
  }

  /** The state every search starts from: no stop reached, no point found. */
  function Initial(g: Ugraph): (r: Search)
    ensures Sane(g, r) && forall s :: s in r.depths ==> r.depths[s] == -1
  {
    Search(map s | s in StopSet(g) :: -1, {})
  }

  /** The final state of the search over the whole graph: every stop has a
      depth. */
  function SearchAll(g: Ugraph): (r: Search)
    requires Closed(g)
    ensures Sane(g, r)
    ensures forall s :: s in r.depths ==> r.depths[s] >= 0
  {
    Roots(g, g.stops, Initial(g))
  }

  /** The articulation points of the graph. */
  function FindArticulationPoints(g: Ugraph): (r: set<nat>)
    requires Closed(g)
    ensures r <= StopSet(g)
  {
    SearchAll(g).points
  }
}
