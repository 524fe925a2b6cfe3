/** The invariants of graph construction and of the walking-edge
    recomputation: which stop pairs are done, and where each edge comes
    from. */
module GraphInv {
  import opened Transit
  import opened Graph

  //============================================
  // Construction
  //============================================

  /** Position (l1, i1) comes before (l2, i2) in processing order. */
  ghost predicate Earlier(l1: int, i1: int, l2: int, i2: int) {
    l1 < l2 || (l1 == l2 && i1 < i2)
  }

  /** The positions (l1, i1) and (l2, i2) hold the same unordered pair. */
  predicate SamePair(lines: seq<Line>, l1: nat, i1: nat, l2: nat, i2: nat)
    requires ValidPos(lines, l1, i1) && ValidPos(lines, l2, i2)
  {
    var a, b := lines[l2].stops[i2], lines[l2].stops[i2 + 1];
    (lines[l1].stops[i1] == a && lines[l1].stops[i1 + 1] == b)
    || (lines[l1].stops[i1] == b && lines[l1].stops[i1 + 1] == a)
  }

  /** No earlier position of any line holds the pair at (l, i). */
  ghost predicate FirstPos(lines: seq<Line>, l: nat, i: nat)
    requires ValidPos(lines, l, i)
  {
    forall l', i' :: ValidPos(lines, l', i') && Earlier(l', i', l, i) ==> !SamePair(lines, l', i', l, i)
  }

  /** `e` is the edge of a first position strictly before (l, i). */
  ghost predicate FromFirstPos(lines: seq<Line>, dist: (nat, nat) -> real, e: Edge, l: int, i: int) {
    exists l', i' :: ValidPos(lines, l', i') && Earlier(l', i', l, i) && FirstPos(lines, l', i')
      && e == LineEdge(lines, dist, l', i')
  }

  /** Every position before (l, i) holds a pair of mutual neighbours. */
  ghost predicate DoneConnected(g: Network, l: int, i: int) {
    forall l', i' :: ValidPos(g.lines, l', i') && Earlier(l', i', l, i) ==>
      Neighbours(g, g.lines[l'].stops[i'], g.lines[l'].stops[i' + 1])
  }

  /** Every edge is the edge of a first position before (l, i). */
  ghost predicate EdgesFromFirst(g: Network, dist: (nat, nat) -> real, l: int, i: int) {
    forall e :: e in g.edges ==> FromFirstPos(g.lines, dist, e, l, i)
  }

  /** Every first position before (l, i) has contributed its edge. */
  ghost predicate FirstsHaveEdges(g: Network, dist: (nat, nat) -> real, l: int, i: int) {
    forall l', i' :: ValidPos(g.lines, l', i') && Earlier(l', i', l, i) && FirstPos(g.lines, l', i') ==>
      LineEdge(g.lines, dist, l', i') in g.edges
  }

  /** The state of construction once every position before (l, i) is done. */
  ghost predicate LineInv(g: Network, dist: (nat, nat) -> real, l: int, i: int) {
    && Valid(g)
    && DoneConnected(g, l, i)
    && EdgesFromFirst(g, dist, l, i)
    && FirstsHaveEdges(g, dist, l, i)
  }

  //============================================
  // Walking edges
  //============================================

  /** Every ordered stop pair before (i, j) within `d` is a pair of mutual
      neighbours. */
  ghost predicate WalkDone(g: Network, dist: (nat, nat) -> real, d: real, i: int, j: int) {
    forall i', j' :: (0 <= i' < |g.stops| && 0 <= j' < |g.stops| && Earlier(i', j', i, j)
      && dist(g.stops[i'], g.stops[j']) <= d) ==> Neighbours(g, g.stops[i'], g.stops[j'])
  }

  /** `e` is a walking edge between stops within `d` that `g0` did not connect. */
  ghost predicate NewWalkingEdge(g0: Network, dist: (nat, nat) -> real, d: real, e: Edge) {
    && e == WalkingEdge(dist, e.from, e.to)
    && e.from in g0.stops && e.to in g0.stops
    && dist(e.from, e.to) <= d
    && !Linked(g0.edges, e.from, e.to)
  }

  /** The edges of `g` that `g0` lacks are new walking edges. */
  ghost predicate OnlyNewWalking(g0: Network, g: Network, dist: (nat, nat) -> real, d: real) {
    forall e :: e in g.edges && e !in g0.edges ==> NewWalkingEdge(g0, dist, d, e)
  }

  /** The state of a walking-edge recomputation started from `g0` once every
      ordered pair before (i, j) is done. */
  ghost predicate WalkInv(g0: Network, g: Network, dist: (nat, nat) -> real, d: real, i: int, j: int) {
    && Valid(g)
    && g.all == g0.all && g.stops == g0.stops && g.lines == g0.lines
    && g0.edges <= g.edges
    && WalkDone(g, dist, d, i, j)
    && OnlyNewWalking(g0, g, dist, d)
  }
}
