/** The invariants of the articulation-point search: what holds of the
    search state while visits are open, and what a finished visit or root
    loop guarantees. A stop is an articulation point (`Cut`) when removing
    it leaves two of its neighbours with no path between them. */
module ArticulationInv {
  import opened Reach
  import opened ArticulationPoints

  /** The stops other than `v`. */
  function Without(g: Ugraph, v: nat): set<nat> {
    StopSet(g) - {v}
  }

  /** Removing `v` leaves two of its neighbours with no path between them. */
  ghost predicate Cut(g: Ugraph, v: nat) {
    v < |g.adj| && exists a, b :: (a in g.adj[v] && b in g.adj[v] && a != v && b != v
      && !ReachesIn(g.adj, Without(g, v), a, b))
  }

  predicate Visited(st: Search, s: nat) {
    s in st.depths && st.depths[s] != -1
  }

  /** The stops reached between state `st` and `r`. */
  ghost function Sub(st: Search, r: Search): set<nat> {
    set x | x in st.depths && Reached(st, r, x)
  }

  /** The open visits: stop `k` of `anc` is at depth `k` and each was entered
      along an edge from the one before. */
  predicate StackOk(g: Ugraph, st: Search, anc: seq<nat>) {
    && (forall k :: 0 <= k < |anc| ==> anc[k] in st.depths && st.depths[anc[k]] == k)
    && (forall k :: 0 <= k < |anc| - 1 ==> anc[k] < |g.adj| && anc[k + 1] in g.adj[anc[k]])
  }

  /** Every reached stop whose visit is closed has all its neighbours reached. */
  ghost predicate FinishedOk(g: Ugraph, st: Search, anc: seq<nat>) {
    forall v: nat, w: nat :: Visited(st, v) && v !in anc && v < |g.adj| && w in g.adj[v] ==> Visited(st, w)
  }

  /** Every point found so far is an articulation point. */
  ghost predicate PointsSound(g: Ugraph, st: Search) {
    forall x :: x in st.points ==> Cut(g, x)
  }

  /** Every articulation point among `sub` has been found. */
  ghost predicate Complete(g: Ugraph, sub: set<nat>, points: set<nat>) {
    forall x :: x in sub && Cut(g, x) ==> x in points
  }

  /** Every stop of `sub` can be reached from `node` inside `sub`. */
  ghost predicate Spans(g: Ugraph, sub: set<nat>, node: nat) {
    forall x :: x in sub ==> ReachesIn(g.adj, sub, node, x)
  }

  /** The stops of `sub` lie at depth `depth` or deeper. */
  predicate Deeper(sub: set<nat>, depths: map<nat, int>, depth: int) {
    forall x :: x in sub ==> x in depths && depths[x] >= depth
  }

  /** No edge out of `sub`, except the one from `node` back to `from`, leads
      above depth `rb`. */
  predicate LowBound(g: Ugraph, sub: set<nat>, depths: map<nat, int>, node: nat, from: nat, rb: int) {
    forall x, w :: x in sub && x < |g.adj| && w in g.adj[x] && !(x == node && w == from) ==>
      w in depths && rb <= depths[w]
  }

  /** Unless it is `depth` itself, `rb` is the depth of the far end of such
      an edge. */
  ghost predicate LowWitness(g: Ugraph, sub: set<nat>, depths: map<nat, int>, node: nat, from: nat, rb: int, depth: int) {
    rb == depth || exists x, w :: (x in sub && x < |g.adj| && w in g.adj[x] && !(x == node && w == from)
      && w in depths && depths[w] == rb)
  }

  /** What a visit of `node` at depth `depth` from `from` may assume: `anc`
      is the stack of open visits, ending with `from`. */
  ghost predicate Frame(g: Ugraph, node: nat, depth: nat, from: nat, anc: seq<nat>, st0: Search) {
    && Closed(g) && Symmetric(g.adj) && Sane(g, st0)
    && node in st0.depths && st0.depths[node] == -1 && node < |g.adj|
    && depth == |anc| && depth >= 1 && from == anc[depth - 1] && from < |g.adj| && node in g.adj[from]
    && StackOk(g, st0, anc) && FinishedOk(g, st0, anc) && PointsSound(g, st0)
  }

  /** The state of the neighbour loop of `node` before position `j`. */
  ghost predicate LoopState(g: Ugraph, node: nat, depth: nat, anc: seq<nat>, st0: Search, j: nat, st: Search) {
    && Sane(g, st) && Keeps(st0, st) && node in st.depths && st.depths[node] == depth
    && node < |g.adj| && j <= |g.adj[node]|
    && StackOk(g, st, anc + [node]) && FinishedOk(g, st, anc + [node]) && PointsSound(g, st)
    && (forall k :: 0 <= k < j ==> Visited(st, g.adj[node][k]))
    && Deeper(Sub(st0, st), st.depths, depth) && Spans(g, Sub(st0, st), node)
    && Complete(g, Sub(st0, st) - {node}, st.points)
  }

  /** The shallowest depth `reach` seen so far in the neighbour loop. */
  ghost predicate LoopLow(g: Ugraph, node: nat, depth: nat, from: nat, st0: Search, j: nat, reach: int, st: Search) {
    && 0 <= reach <= depth && node < |g.adj| && j <= |g.adj[node]|
    && (forall x, w :: x in Sub(st0, st) && x != node && x < |g.adj| && w in g.adj[x] ==>
          w in st.depths && reach <= st.depths[w])
    && (forall k :: 0 <= k < j && g.adj[node][k] != from ==>
          g.adj[node][k] in st.depths && reach <= st.depths[g.adj[node][k]])
    && LowWitness(g, Sub(st0, st), st.depths, node, from, reach, depth)
  }

  /** Unless `node` is already a point, everything below it so far reaches
      `from` without passing `node`. */
  ghost predicate LoopLink(g: Ugraph, node: nat, from: nat, st0: Search, st: Search) {
    node in st.points || forall x :: x in Sub(st0, st) && x != node ==> ReachesIn(g.adj, Without(g, node), x, from)
  }

  /** What a visit guarantees about the subtree it explored. */
  ghost predicate VisitPost(g: Ugraph, node: nat, depth: nat, from: nat, anc: seq<nat>, st: Search, rb: int, r: Search) {
    && FinishedOk(g, r, anc) && PointsSound(g, r) && node in Sub(st, r)
    && LowBound(g, Sub(st, r), r.depths, node, from, rb)
    && LowWitness(g, Sub(st, r), r.depths, node, from, rb, depth)
    && Complete(g, Sub(st, r), r.points)
    && Spans(g, Sub(st, r), node)
    && Deeper(Sub(st, r), r.depths, depth)
  }

  /** The neighbour loop of `node` is complete. */
  ghost predicate LoopDone(g: Ugraph, node: nat, depth: nat, from: nat, anc: seq<nat>, st0: Search, r: (int, Search)) {
    && node < |g.adj|
    && LoopState(g, node, depth, anc, st0, |g.adj[node]|, r.1)
    && LoopLow(g, node, depth, from, st0, |g.adj[node]|, r.0, r.1)
    && LoopLink(g, node, from, st0, r.1)
  }

  /** The first subtree of `root`: entered at `c1`, spanned from it, and
      with no edge leaving it except into `root`. */
  ghost predicate FirstTree(g: Ugraph, root: nat, s1: set<nat>, c1: nat) {
    && root < |g.adj| && c1 in g.adj[root] && c1 != root && c1 in s1 && root !in s1
    && (forall x, w :: x in s1 && x < |g.adj| && w in g.adj[x] && w in Without(g, root) ==> w in s1)
    && Spans(g, s1, c1)
  }

  /** What the subtrees counted so far say about `root`, where `sub` holds
      the root and everything reached from it. */
  ghost predicate RootCount(g: Ugraph, root: nat, count: nat, sub: set<nat>, s1: set<nat>, c1: nat) {
    && (count == 0 ==> sub == {root})
    && (count >= 1 ==> FirstTree(g, root, s1, c1) && s1 <= sub)
    && (count == 1 ==> sub == s1 + {root})
    && (count >= 2 ==> Cut(g, root))
  }

  /** The state of the neighbour loop of search root `root` before position
      `j`, after `count` subtrees, the first of them `s1`. */
  ghost predicate RootLoop(g: Ugraph, root: nat, st0: Search, j: nat, count: nat, st: Search, s1: set<nat>, c1: nat) {
    && Closed(g) && Symmetric(g.adj) && Sane(g, st0) && FinishedOk(g, st0, [])
    && root in st0.depths && st0.depths[root] == -1 && root < |g.adj| && j <= |g.adj[root]|
    && Sane(g, st) && Keeps(st0, st) && root in st.depths && st.depths[root] == 0
    && FinishedOk(g, st, [root]) && PointsSound(g, st)
    && (forall k :: 0 <= k < j ==> Visited(st, g.adj[root][k]))
    && Complete(g, Sub(st0, st) - {root}, st.points)
    && RootCount(g, root, count, Sub(st0, st), s1, c1)
  }

  /** The neighbour loop of a search root is complete: the root is an
      articulation point exactly when it started more than one subtree. */
  ghost predicate RootDone(g: Ugraph, root: nat, st0: Search, r: (nat, Search)) {
    && root < |g.adj| && Sane(g, r.1) && Keeps(st0, r.1) && root in Sub(st0, r.1)
    && FinishedOk(g, r.1, []) && PointsSound(g, r.1)
    && Complete(g, Sub(st0, r.1) - {root}, r.1.points)
    && (r.0 > 1 <==> Cut(g, root))
  }

  /** What holds between search roots: the visits so far are closed, and
      the points found are exactly the articulation points reached. */
  ghost predicate RootsInv(g: Ugraph, st: Search) {
    && Closed(g) && Symmetric(g.adj) && Sane(g, st) && FinishedOk(g, st, []) && PointsSound(g, st)
    && forall x: nat :: Visited(st, x) && Cut(g, x) ==> x in st.points
  }
}
