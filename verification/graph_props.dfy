/** Properties of the graph operations: the neighbour sets always agree with
    the edge set, no pair of stops has two edges, construction yields exactly
    one edge per connected pair taken from the first line position that
    joins it, and walking edges can be added and removed without touching
    the line edges. */
module GraphProps {
  import opened Transit
  import opened Graph
  import opened GraphInv

  //============================================
  // Basic facts about the invariant
  //============================================

  /** Neighbour sets of a consistent graph are symmetric. */
  lemma NbrsSymmetric(g: Network, a: nat, b: nat)
    requires Valid(g) && a < |g.nbrs| && b < |g.nbrs|
    ensures b in g.nbrs[a] <==> a in g.nbrs[b]
    ensures IsConnected(g, a, b) <==> Neighbours(g, a, b)
  {
    assert Linked(g.edges, a, b) ==> Linked(g.edges, b, a) by {
      if Linked(g.edges, a, b) {
        var e :| e in g.edges && Joins(e, a, b);
        assert Joins(e, b, a);
      }
    }
    assert Linked(g.edges, b, a) ==> Linked(g.edges, a, b) by {
      if Linked(g.edges, b, a) {
        var e :| e in g.edges && Joins(e, b, a);
        assert Joins(e, a, b);
      }
    }
  }

  /** Connecting a pair that is not yet connected keeps the graph valid. */
  lemma ConnectValid(g: Network, e: Edge)
    requires Valid(g) && e.from < |g.all| && e.to < |g.all|
    requires !IsConnected(g, e.from, e.to)
    ensures Valid(Connect(g, e))
  {
    var r := Connect(g, e);
    forall x | x in g.edges
      ensures !Joins(x, e.from, e.to)
    {
      assert Joins(x, e.from, e.to) ==> Linked(g.edges, e.from, e.to);
    }
    forall a, b | 0 <= a < |r.nbrs| && 0 <= b < |r.nbrs|
      ensures b in r.nbrs[a] <==> Linked(r.edges, a, b)
    {
      assert Joins(e, a, b) ==> b in r.nbrs[a] && Linked(r.edges, a, b);
      assert !Joins(e, a, b) ==> (b in r.nbrs[a] <==> b in g.nbrs[a]);
      assert !Joins(e, a, b) ==> (Linked(r.edges, a, b) <==> Linked(g.edges, a, b)) by {
        if !Joins(e, a, b) && Linked(r.edges, a, b) {
          var x :| x in r.edges && Joins(x, a, b);
          assert x in g.edges;
        }
      }
    }
    forall e1, e2 | e1 in r.edges && e2 in r.edges && Joins(e1, e2.from, e2.to)
      ensures e1 == e2
    {
      assert e1 != e ==> e1 in g.edges;
      assert e2 != e ==> e2 in g.edges;
      assert e1 == e ==> Joins(e2, e.from, e.to);
      assert e2 == e ==> Joins(e1, e.from, e.to);
    }
  }

  //============================================
  // Construction
  //============================================

  /** Handling position (l, i) moves the construction invariant to (l, i + 1). */
  lemma LineStep(g: Network, dist: (nat, nat) -> real, l: nat, i: nat)
    requires LineInv(g, dist, l, i) && ValidPos(g.lines, l, i)
    ensures var from, to := g.lines[l].stops[i], g.lines[l].stops[i + 1];
      LineInv(if IsConnected(g, from, to) then g else Connect(g, LineEdge(g.lines, dist, l, i)), dist, l, i + 1)
  {
    var from, to := g.lines[l].stops[i], g.lines[l].stops[i + 1];
    if IsConnected(g, from, to) {
      LineStepSkip(g, dist, l, i);
    } else {
      LineStepAdd(g, dist, l, i);
    }
  }

  /** A pair that is already connected is skipped. */
  lemma LineStepSkip(g: Network, dist: (nat, nat) -> real, l: nat, i: nat)
    requires LineInv(g, dist, l, i) && ValidPos(g.lines, l, i)
    requires IsConnected(g, g.lines[l].stops[i], g.lines[l].stops[i + 1])
    ensures LineInv(g, dist, l, i + 1)
  {
    var from, to := g.lines[l].stops[i], g.lines[l].stops[i + 1];
    ConnectedNotFirst(g, dist, l, i);
    NbrsSymmetric(g, from, to);
    DoneNext(g, l, i);
    EdgesFromFirstLater(g, dist, l, i, l, i + 1);
    FirstsNext(g, dist, l, i);
  }

  /** The pair at (l, i), once neighbours, extends the done positions. */
  lemma DoneNext(g: Network, l: nat, i: nat)
    requires WellFormed(g) && DoneConnected(g, l, i) && ValidPos(g.lines, l, i)
    requires Neighbours(g, g.lines[l].stops[i], g.lines[l].stops[i + 1])
    ensures DoneConnected(g, l, i + 1)
  {
  }

  /** Provenance before a position is provenance before any later one. */
  lemma EdgesFromFirstLater(g: Network, dist: (nat, nat) -> real, l: int, i: int, l2: int, i2: int)
    requires EdgesFromFirst(g, dist, l, i)
    requires l < l2 || (l == l2 && i <= i2)
    ensures EdgesFromFirst(g, dist, l2, i2)
  {
    forall e | e in g.edges
      ensures FromFirstPos(g.lines, dist, e, l2, i2)
    {
      assert FromFirstPos(g.lines, dist, e, l, i);
    }
  }

  /** A position that is not first adds no obligation. */
  lemma FirstsNext(g: Network, dist: (nat, nat) -> real, l: nat, i: nat)
    requires FirstsHaveEdges(g, dist, l, i) && ValidPos(g.lines, l, i)
    requires FirstPos(g.lines, l, i) ==> LineEdge(g.lines, dist, l, i) in g.edges
    ensures FirstsHaveEdges(g, dist, l, i + 1)
  {
  }

  /** A pair that is already connected was held by an earlier position. */
  lemma ConnectedNotFirst(g: Network, dist: (nat, nat) -> real, l: nat, i: nat)
    requires LineInv(g, dist, l, i) && ValidPos(g.lines, l, i)
    requires IsConnected(g, g.lines[l].stops[i], g.lines[l].stops[i + 1])
    ensures !FirstPos(g.lines, l, i)
  {
    var from, to := g.lines[l].stops[i], g.lines[l].stops[i + 1];
    NbrsSymmetric(g, from, to);
    assert Linked(g.edges, from, to);
    var e :| e in g.edges && Joins(e, from, to);
    assert FromFirstPos(g.lines, dist, e, l, i);
    var l2, i2 :| ValidPos(g.lines, l2, i2) && Earlier(l2, i2, l, i) && FirstPos(g.lines, l2, i2)
      && e == LineEdge(g.lines, dist, l2, i2);
    assert SamePair(g.lines, l2, i2, l, i);
  }

  /** A pair not yet connected is at its first position. */
  lemma UnconnectedIsFirst(g: Network, dist: (nat, nat) -> real, l: nat, i: nat)
    requires LineInv(g, dist, l, i) && ValidPos(g.lines, l, i)
    requires !IsConnected(g, g.lines[l].stops[i], g.lines[l].stops[i + 1])
    ensures FirstPos(g.lines, l, i)
  {
    forall l', i' | ValidPos(g.lines, l', i') && Earlier(l', i', l, i)
      ensures !SamePair(g.lines, l', i', l, i)
    {
      NbrsSymmetric(g, g.lines[l'].stops[i'], g.lines[l'].stops[i' + 1]);
    }
  }

  /** A pair not yet connected gets the edge of its position. */
  lemma LineStepAdd(g: Network, dist: (nat, nat) -> real, l: nat, i: nat)
    requires LineInv(g, dist, l, i) && ValidPos(g.lines, l, i)
    requires !IsConnected(g, g.lines[l].stops[i], g.lines[l].stops[i + 1])
    ensures LineInv(Connect(g, LineEdge(g.lines, dist, l, i)), dist, l, i + 1)
  {
    var e := LineEdge(g.lines, dist, l, i);
    var r := Connect(g, e);
    UnconnectedIsFirst(g, dist, l, i);
    ConnectValid(g, e);
    DoneGrow(g, r, l, i);
    DoneNext(r, l, i);
    AddedProv(g, dist, l, i);
    assert FirstsHaveEdges(r, dist, l, i);
    FirstsNext(r, dist, l, i);
  }

  /** Growing neighbour sets keep the done positions connected. */
  lemma DoneGrow(g: Network, r: Network, l: int, i: int)
    requires DoneConnected(g, l, i) && r.lines == g.lines && |r.nbrs| == |g.nbrs|
    requires forall a :: 0 <= a < |g.nbrs| ==> g.nbrs[a] <= r.nbrs[a]
    ensures DoneConnected(r, l, i)
  {
  }

  /** The edge added at a first position keeps every edge's provenance. */
  lemma AddedProv(g: Network, dist: (nat, nat) -> real, l: nat, i: nat)
    requires WellFormed(g) && EdgesFromFirst(g, dist, l, i) && ValidPos(g.lines, l, i)
    requires FirstPos(g.lines, l, i)
    ensures EdgesFromFirst(Connect(g, LineEdge(g.lines, dist, l, i)), dist, l, i + 1)
  {
    var e := LineEdge(g.lines, dist, l, i);
    var r := Connect(g, e);
    EdgesFromFirstLater(g, dist, l, i, l, i + 1);
    forall e' | e' in r.edges
      ensures FromFirstPos(g.lines, dist, e', l, i + 1)
    {
      if e' == e {
        assert ValidPos(g.lines, l, i) && Earlier(l, i, l, i + 1) && FirstPos(g.lines, l, i);
      }
    }
  }

  /** Adding the rest of line `l` finishes that line. */
  lemma {:induction false} AddLinePairsInv(g: Network, dist: (nat, nat) -> real, l: nat, i: nat)
    requires WellFormed(g) && l < |g.lines|
    requires LineInv(g, dist, l, i)
    ensures LineInv(AddLinePairs(g, dist, l, i), dist, l + 1, 0)
    decreases |g.lines[l].stops| - i
  {
    if i + 1 >= |g.lines[l].stops| {
      forall e | e in g.edges
        ensures FromFirstPos(g.lines, dist, e, l + 1, 0)
      {
        assert FromFirstPos(g.lines, dist, e, l, i);
      }
    } else {
      var from, to := g.lines[l].stops[i], g.lines[l].stops[i + 1];
      var g' := if IsConnected(g, from, to) then g else Connect(g, LineEdge(g.lines, dist, l, i));
      LineStep(g, dist, l, i);
      AddLinePairsInv(g', dist, l, i + 1);
    }
  }

  /** Adding the lines from `l` on finishes construction. (The invariant is
      compared with `true` so that it stays one fact rather than being split
      into its many conjuncts, which makes the proof much cheaper.) */
  lemma {:induction false} AddLinesInv(g: Network, dist: (nat, nat) -> real, l: nat)
    requires WellFormed(g) && LineInv(g, dist, l, 0) == true
    ensures LineInv(AddLines(g, dist, l), dist, |g.lines|, 0) == true
    decreases |g.lines| - l
  {
    if l >= |g.lines| {
      assert AddLines(g, dist, l) == g;
      LinesDone(g, dist, l);
    } else {
      var g1 := AddLinePairs(g, dist, l, 0);
      AddLinePairsInv(g, dist, l, 0);
      AddLinesInv(g1, dist, l + 1);
      LineInvSame(AddLines(g, dist, l), AddLines(g1, dist, l + 1), dist, |g.lines|, |g1.lines|);
    }
  }

  /** Carries the invariant from one term to an equal one. Stated as a
      lemma so that the verifier matches the two terms by the equality
      alone instead of unfolding the construction on both sides. */
  lemma LineInvSame(g: Network, h: Network, dist: (nat, nat) -> real, n: int, m: int)
    requires g == h && n == m && LineInv(h, dist, m, 0)
    ensures LineInv(g, dist, n, 0)
  {
  }

  /** Once past the last line, construction is finished. */
  lemma LinesDone(g: Network, dist: (nat, nat) -> real, l: nat)
    requires LineInv(g, dist, l, 0) && l >= |g.lines|
    ensures LineInv(g, dist, |g.lines|, 0)
  {
    forall e | e in g.edges
      ensures FromFirstPos(g.lines, dist, e, |g.lines|, 0)
    {
      assert FromFirstPos(g.lines, dist, e, l, 0);
    }
  }

  /** Before the first position nothing is done and there are no edges. */
  lemma EmptyInv(all: seq<Stop>, lines: seq<Line>, dist: (nat, nat) -> real)
    requires forall l :: 0 <= l < |lines| ==> InRange(all, lines[l].stops)
    ensures LineInv(Empty(all, lines), dist, 0, 0)
  {
    NoEdgesInv(Empty(all, lines), dist);
  }

  /** A graph without edges satisfies the construction invariant before the
      first position. */
  lemma NoEdgesInv(g: Network, dist: (nat, nat) -> real)
    requires WellFormed(g) && g.edges == {}
    requires forall a :: 0 <= a < |g.nbrs| ==> g.nbrs[a] == {}
    ensures LineInv(g, dist, 0, 0)
  {
    assert Consistent(g);
    assert AtMostOneEdge(g.edges);
    assert DoneConnected(g, 0, 0);
    assert EdgesFromFirst(g, dist, 0, 0);
    assert FirstsHaveEdges(g, dist, 0, 0);
  }

  /** After construction: the graph is valid (neighbour sets match the edges,
      at most one edge per pair); every adjacent pair of every line are
      neighbours of each other; and the edges are exactly the edges of the
      first positions, in line order, at which each pair occurs, so the first
      line to connect a pair decides the edge's direction, type and line. */
  lemma BuildEdges(all: seq<Stop>, lines: seq<Line>, dist: (nat, nat) -> real)
    requires forall l :: 0 <= l < |lines| ==> InRange(all, lines[l].stops)
    ensures var g := Build(all, lines, dist);
      && Valid(g)
      && (forall l, i :: ValidPos(lines, l, i) ==> Neighbours(g, lines[l].stops[i], lines[l].stops[i + 1]))
      && (forall e :: e in g.edges ==>
            exists l, i :: ValidPos(lines, l, i) && FirstPos(lines, l, i) && e == LineEdge(lines, dist, l, i))
      && (forall l, i :: ValidPos(lines, l, i) && FirstPos(lines, l, i) ==> LineEdge(lines, dist, l, i) in g.edges)
  {
    var g0 := Empty(all, lines);
    EmptyInv(all, lines, dist);
    AddLinesInv(g0, dist, 0);
    var g := Build(all, lines, dist);
    forall e | e in g.edges
      ensures exists l, i :: ValidPos(lines, l, i) && FirstPos(lines, l, i) && e == LineEdge(lines, dist, l, i)
    {
      assert FromFirstPos(lines, dist, e, |lines|, 0);
    }
  }

  /** Line edges carry their line and its transport type. */
  lemma BuildEdgeLabels(all: seq<Stop>, lines: seq<Line>, dist: (nat, nat) -> real)
    requires forall l :: 0 <= l < |lines| ==> InRange(all, lines[l].stops)
    ensures forall e :: e in Build(all, lines, dist).edges ==>
      e.line.Some? && e.line.value < |lines| && e.kind == lines[e.line.value].kind
      && e.dist == dist(e.from, e.to)
  {
    BuildEdges(all, lines, dist);
  }

  //============================================
  // Walking edges
  //============================================

  /** Handling the pair (stops[i], stops[j]) moves the invariant to (i, j + 1). */
  lemma WalkStep(g0: Network, g: Network, dist: (nat, nat) -> real, d: real, i: nat, j: nat)
    requires WalkInv(g0, g, dist, d, i, j) && i < |g.stops| && j < |g.stops|
    ensures var a, b := g.stops[i], g.stops[j];
      WalkInv(g0, if dist(a, b) <= d && !IsConnected(g, a, b) then Connect(g, WalkingEdge(dist, a, b)) else g,
              dist, d, i, j + 1)
  {
    var a, b := g.stops[i], g.stops[j];
    NbrsSymmetric(g, a, b);
    if dist(a, b) <= d && !IsConnected(g, a, b) {
      var e := WalkingEdge(dist, a, b);
      var r := Connect(g, e);
      ConnectValid(g, e);
      WalkDoneGrow(g, r, dist, d, i, j);
      assert !Linked(g0.edges, a, b) by {
        assert Linked(g0.edges, a, b) ==> Linked(g.edges, a, b);
      }
      assert NewWalkingEdge(g0, dist, d, e);
    }
  }

  /** Growing neighbour sets, plus the pair at (i, j), extend the done pairs. */
  lemma WalkDoneGrow(g: Network, r: Network, dist: (nat, nat) -> real, d: real, i: nat, j: nat)
    requires WalkDone(g, dist, d, i, j) && r.stops == g.stops && |r.nbrs| == |g.nbrs|
    requires i < |g.stops| && j < |g.stops|
    requires forall a :: 0 <= a < |g.nbrs| ==> g.nbrs[a] <= r.nbrs[a]
    requires Neighbours(r, g.stops[i], g.stops[j])
    ensures WalkDone(r, dist, d, i, j + 1)
  {
  }

  /** Pairing `stops[i]` with the rest of the stops finishes row `i`. */
  lemma {:induction false} WalkPairsInv(g0: Network, g: Network, dist: (nat, nat) -> real, d: real, i: nat, j: nat)
    requires WalkInv(g0, g, dist, d, i, j) && i < |g.stops|
    ensures WalkInv(g0, WalkPairs(g, dist, d, i, j), dist, d, i + 1, 0)
    decreases |g.stops| - j
  {
    if j < |g.stops| {
      var g' := PairsUnfold(g, dist, d, i, j);
      WalkStep(g0, g, dist, d, i, j);
      WalkPairsInv(g0, g', dist, d, i, j + 1);
      WalkInvSame(g0, WalkPairs(g, dist, d, i, j), WalkPairs(g', dist, d, i, j + 1), dist, d, i + 1, 0);
    } else {
      assert WalkPairs(g, dist, d, i, j) == g;
      RowDone(g0, g, dist, d, i, j);
    }
  }

  /** One step of `WalkPairs`: the graph after handling (stops[i], stops[j]). */
  lemma PairsUnfold(g: Network, dist: (nat, nat) -> real, d: real, i: nat, j: nat) returns (g': Network)
    requires WellFormed(g) && i < |g.stops| && j < |g.stops|
    ensures var a, b := g.stops[i], g.stops[j];
      g' == if dist(a, b) <= d && !IsConnected(g, a, b) then Connect(g, WalkingEdge(dist, a, b)) else g
    ensures WellFormed(g') && g'.stops == g.stops
    ensures WalkPairs(g, dist, d, i, j) == WalkPairs(g', dist, d, i, j + 1)
  {
    var a, b := g.stops[i], g.stops[j];
    g' := if dist(a, b) <= d && !IsConnected(g, a, b) then Connect(g, WalkingEdge(dist, a, b)) else g;
  }

  /** Once the second stop has run past the stops, row `i` is done. */
  lemma RowDone(g0: Network, g: Network, dist: (nat, nat) -> real, d: real, i: nat, j: nat)
    requires WalkInv(g0, g, dist, d, i, j) && j >= |g.stops|
    ensures WalkInv(g0, g, dist, d, i + 1, 0)
  {
    forall i', j' | 0 <= i' < |g.stops| && 0 <= j' < |g.stops| && Earlier(i', j', i + 1, 0)
      && dist(g.stops[i'], g.stops[j']) <= d
      ensures Neighbours(g, g.stops[i'], g.stops[j'])
    {
      assert Earlier(i', j', i, j);
    }
  }

  /** Carries the invariant from one term to an equal one. Stated as a
      lemma so that the verifier matches the two terms by the equality
      alone instead of unfolding the construction on both sides. */
  lemma WalkInvSame(g0: Network, g: Network, h: Network, dist: (nat, nat) -> real, d: real, i: int, j: int)
    requires g == h && WalkInv(g0, h, dist, d, i, j)
    ensures WalkInv(g0, g, dist, d, i, j)
  {
  }

  /** Running the rows from `i` on finishes the recomputation. */
  lemma {:induction false} WalkAllInv(g0: Network, g: Network, dist: (nat, nat) -> real, d: real, i: nat)
    requires WalkInv(g0, g, dist, d, i, 0)
    ensures WalkInv(g0, WalkAll(g, dist, d, i), dist, d, |g.stops|, 0)
    decreases |g.stops| - i
  {
    if i < |g.stops| {
      WalkPairsInv(g0, g, dist, d, i, 0);
      WalkAllInv(g0, WalkPairs(g, dist, d, i, 0), dist, d, i + 1);
    }
  }

  /** After recomputing the walking edges: the graph is still valid, no
      edge was removed, every ordered pair of stops within `d` are mutual
      neighbours, and each new edge is a walking edge, without line, between
      two stops within `d` that were not connected before. */
  lemma RecomputeWalking(g: Network, dist: (nat, nat) -> real, d: real)
    requires Valid(g)
    ensures var r := RecomputeWalkingEdges(g, dist, d);
      && Valid(r)
      && g.edges <= r.edges
      && (forall a, b :: a in g.stops && b in g.stops && dist(a, b) <= d ==> Neighbours(r, a, b))
      && (forall e :: e in r.edges && e !in g.edges ==> NewWalkingEdge(g, dist, d, e))
  {
    var r := RecomputeWalkingEdges(g, dist, d);
    WalkAllInv(g, g, dist, d, 0);
    forall a, b | a in g.stops && b in g.stops && dist(a, b) <= d
      ensures Neighbours(r, a, b)
    {
      var i :| 0 <= i < |g.stops| && g.stops[i] == a;
      var j :| 0 <= j < |g.stops| && g.stops[j] == b;
      assert Earlier(i, j, |g.stops|, 0);
    }
  }

  /** With the distance of a stop to itself within `d`, a stop without a
      self-connection gets a walking edge to itself. */
  lemma WalkingSelfLoop(g: Network, dist: (nat, nat) -> real, d: real, s: nat)
    requires Valid(g) && s in g.stops && s !in g.nbrs[s]
    requires dist(s, s) <= d
    ensures WalkingEdge(dist, s, s) in RecomputeWalkingEdges(g, dist, d).edges
  {
    var r := RecomputeWalkingEdges(g, dist, d);
    RecomputeWalking(g, dist, d);
    assert Neighbours(r, s, s);
    var e :| e in r.edges && Joins(e, s, s);
    assert e !in g.edges by {
      assert e in g.edges ==> Linked(g.edges, s, s);
    }
    assert NewWalkingEdge(g, dist, d, e);
  }

  //============================================
  // Removing walking edges
  //============================================

  /** A second removal of the walking edges changes nothing. */
  lemma RemoveIdempotent(g: Network)
    requires WellFormed(g)
    ensures WithoutWalking(WithoutWalking(g)) == WithoutWalking(g)
  {
    var r := WithoutWalking(g);
    forall v | 0 <= v < |r.nbrs|
      ensures WalkingPartners(r.edges, v) == {}
    {
    }
    var r2 := WithoutWalking(r);
    assert |r2.nbrs| == |r.nbrs|;
    assert forall v :: 0 <= v < |r.nbrs| ==> r2.nbrs[v] == r.nbrs[v];
  }

  /** `a` and `b` are joined by a walking edge of `r` exactly when they are
      within `d` (in either direction) and no non-walking edge of `g` joins
      them. */
  ghost predicate WalkedExactly(g: Network, r: Network, dist: (nat, nat) -> real, d: real, a: nat, b: nat) {
    (exists e :: e in r.edges && e.kind == Walking && Joins(e, a, b)) <==>
    ((dist(a, b) <= d || dist(b, a) <= d)
     && !exists e :: e in g.edges && e.kind != Walking && Joins(e, a, b))
  }

  /** Removing and then recomputing the walking edges keeps exactly the
      non-walking edges, and connects by a walking edge exactly the stop
      pairs within `d` (in either direction) that no non-walking edge
      connects. */
  lemma RemoveThenRecompute(g: Network, dist: (nat, nat) -> real, d: real)
    requires Valid(g)
    ensures var r := RecomputeWalkingEdges(WithoutWalking(g), dist, d);
      && Valid(r)
      && (forall e :: e in r.edges && e.kind != Walking <==> e in g.edges && e.kind != Walking)
      && (forall a: nat, b: nat :: a in g.stops && b in g.stops ==> WalkedExactly(g, r, dist, d, a, b))
  {
    var g1 := WithoutWalking(g);
    WithoutWalkingValid(g);
    var r := RecomputeWalkingEdges(g1, dist, d);
    RecomputeWalking(g1, dist, d);
    assert g1.edges == set e | e in g.edges && e.kind != Walking;
    forall e | e in r.edges && e.kind != Walking
      ensures e in g1.edges
    {
      assert e !in g1.edges ==> NewWalkingEdge(g1, dist, d, e);
    }
    forall a: nat, b: nat | a in g.stops && b in g.stops
      ensures WalkedExactly(g, r, dist, d, a, b)
    {
      WalkedPair(g, g1, r, dist, d, a, b);
    }
  }

  /** The pair case of `RemoveThenRecompute`, for the graph `g1` without
      walking edges and its recomputation `r`. */
  lemma WalkedPair(g: Network, g1: Network, r: Network, dist: (nat, nat) -> real, d: real, a: nat, b: nat)
    requires g1.edges == set e | e in g.edges && e.kind != Walking
    requires Valid(r) && g1.edges <= r.edges && r.stops == g.stops
    requires forall x :: x in r.edges && x !in g1.edges ==> NewWalkingEdge(g1, dist, d, x)
    requires forall x, y :: x in g.stops && y in g.stops && dist(x, y) <= d ==> Neighbours(r, x, y)
    requires a in g.stops && b in g.stops
    ensures WalkedExactly(g, r, dist, d, a, b)
  {
    if exists e :: e in r.edges && e.kind == Walking && Joins(e, a, b) {
      var e :| e in r.edges && e.kind == Walking && Joins(e, a, b);
      assert e !in g1.edges;
      assert NewWalkingEdge(g1, dist, d, e);
      assert !Linked(g1.edges, a, b);
      assert forall x :: x in g.edges && x.kind != Walking && Joins(x, a, b) ==> x in g1.edges;
    }
    if (dist(a, b) <= d || dist(b, a) <= d)
      && !exists e :: e in g.edges && e.kind != Walking && Joins(e, a, b)
    {
      assert Neighbours(r, a, b) || Neighbours(r, b, a);
      assert b in r.nbrs[a];
      assert Linked(r.edges, a, b);
      var e :| e in r.edges && Joins(e, a, b);
      assert e.kind != Walking ==> e in g1.edges && e in g.edges;
    }
  }
}
