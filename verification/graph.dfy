/** The graph of stops: construction from lines, walking edges, and stop
    lookup by name prefix. The state is a value: the stops handed to the
    constructor, the stop set in key order, the lines, one neighbour set per
    stop and the set of edges. */
module Graph {
  import opened Transit
  import StopOrder

  datatype Network = Network(
    all: seq<Stop>,
    stops: seq<nat>,
    lines: seq<Line>,
    nbrs: seq<set<nat>>,
    edges: set<Edge>)

  /** Every reference to a stop, from the stop set, a line, a neighbour set or
      an edge, names a stop of `all`. */
  predicate WellFormed(g: Network) {
    && |g.nbrs| == |g.all|
    && InRange(g.all, g.stops)
    && (forall l :: 0 <= l < |g.lines| ==> InRange(g.all, g.lines[l].stops))
    && (forall a :: 0 <= a < |g.nbrs| ==> forall b :: b in g.nbrs[a] ==> b < |g.nbrs|)
    && (forall e :: e in g.edges ==> e.from < |g.all| && e.to < |g.all|)
  }

  /** The neighbour sets hold exactly the endpoint pairs of the edge set. */
  ghost predicate Consistent(g: Network)
    requires WellFormed(g)
  {
    forall a, b :: 0 <= a < |g.nbrs| && 0 <= b < |g.nbrs| ==>
      (b in g.nbrs[a] <==> Linked(g.edges, a, b))
  }

  /** No two edges connect the same unordered pair of stops. */
  ghost predicate AtMostOneEdge(edges: set<Edge>) {
    forall e1, e2 :: e1 in edges && e2 in edges && Joins(e1, e2.from, e2.to) ==> e1 == e2
  }

  ghost predicate Valid(g: Network) {
    WellFormed(g) && Consistent(g) && AtMostOneEdge(g.edges)
  }

  /** Each of `a` and `b` is in the other's neighbour set. */
  predicate Neighbours(g: Network, a: nat, b: nat) {
    a < |g.nbrs| && b < |g.nbrs| && b in g.nbrs[a] && a in g.nbrs[b]
  }

  /** The pair is already connected: either stop lists the other. */
  predicate IsConnected(g: Network, a: nat, b: nat)
    requires a < |g.nbrs| && b < |g.nbrs|
  {
    b in g.nbrs[a] || a in g.nbrs[b]
  }

  /** Registers `e` in the edge set and makes its endpoints neighbours. */
  function Connect(g: Network, e: Edge): (r: Network)
    requires WellFormed(g) && e.from < |g.all| && e.to < |g.all|
    ensures WellFormed(r)
    ensures r.all == g.all && r.stops == g.stops && r.lines == g.lines
    ensures r.edges == g.edges + {e}
    ensures Neighbours(r, e.from, e.to)
    ensures forall a :: 0 <= a < |g.nbrs| ==> g.nbrs[a] <= r.nbrs[a]
    ensures |r.nbrs| == |g.nbrs|
    ensures forall a, b :: 0 <= a < |r.nbrs| ==> (b in r.nbrs[a] <==> b in g.nbrs[a] || Joins(e, a, b))
  {
    var n1 := g.nbrs[e.from := g.nbrs[e.from] + {e.to}];
    var n2 := n1[e.to := n1[e.to] + {e.from}];
    g.(nbrs := n2, edges := g.edges + {e})
  }

  //============================================
  // Construction from lines
  //============================================

  /** Position `i` of line `l` is an adjacent pair of that line. */
  predicate ValidPos(lines: seq<Line>, l: int, i: int) {
    0 <= l < |lines| && 0 <= i && i + 1 < |lines[l].stops|
  }

  /** The edge the adjacent pair at position `i` of line `l` would create. */
  function LineEdge(lines: seq<Line>, dist: (nat, nat) -> real, l: nat, i: nat): Edge
    requires ValidPos(lines, l, i)
  {
    var from, to := lines[l].stops[i], lines[l].stops[i + 1];
    Edge(from, to, lines[l].kind, Some(l), dist(from, to))
  }

  /** Adds the edges of line `l` from position `i` on, skipping every pair
      that is already connected. */
  function AddLinePairs(g: Network, dist: (nat, nat) -> real, l: nat, i: nat): (r: Network)
    requires WellFormed(g) && l < |g.lines|
    ensures WellFormed(r)
    ensures r.all == g.all && r.stops == g.stops && r.lines == g.lines
    decreases |g.lines[l].stops| - i
  {
    if i + 1 >= |g.lines[l].stops| then g
    else
      var from, to := g.lines[l].stops[i], g.lines[l].stops[i + 1];
      var g' := if IsConnected(g, from, to) then g else Connect(g, LineEdge(g.lines, dist, l, i));
      AddLinePairs(g', dist, l, i + 1)
  }

  /** Adds the edges of every line from line `l` on. */
  function AddLines(g: Network, dist: (nat, nat) -> real, l: nat): (r: Network)
    requires WellFormed(g)
    ensures WellFormed(r)
    ensures r.all == g.all && r.stops == g.stops && r.lines == g.lines
    decreases |g.lines| - l
  {
    if l >= |g.lines| then g
    else AddLines(AddLinePairs(g, dist, l, 0), dist, l + 1)
  }

  /** The graph before any edge exists: the stop set in key order without the
      stops on no line, and empty neighbour sets. */
  function Empty(all: seq<Stop>, lines: seq<Line>): (g: Network)
    requires forall l :: 0 <= l < |lines| ==> InRange(all, lines[l].stops)
    ensures WellFormed(g) && g.all == all && g.lines == lines
    ensures g.edges == {} && forall a :: 0 <= a < |g.nbrs| ==> g.nbrs[a] == {}
    ensures StopOrder.Sorted(all, g.stops)
    ensures forall x :: 0 <= x < |all| ==>
      (x in g.stops <==> |all[x].lines| > 0 && StopOrder.FirstOfKey(all, x))
  {
    var tree := StopOrder.TreeSet(all);
    TreeFirsts(all);
    var nbrs: seq<set<nat>> := seq(|all|, _ => {});
    assert forall a :: 0 <= a < |nbrs| ==> nbrs[a] == {};
    Network(all, StopOrder.OnSomeLine(all, tree), lines, nbrs, {})
  }

  /** The sorted stop set holds the first stop of every key. */
  lemma TreeFirsts(all: seq<Stop>)
    ensures forall x :: 0 <= x < |all| && StopOrder.FirstOfKey(all, x) ==> x in StopOrder.TreeSet(all)
  {
    var tree := StopOrder.TreeSet(all);
    forall x | 0 <= x < |all| && StopOrder.FirstOfKey(all, x)
      ensures x in tree
    {
      FirstInSet(all, tree, x);
    }
  }

  /** A set of first stops that has every key holds the first stop of each. */
  lemma FirstInSet(all: seq<Stop>, tree: seq<nat>, x: nat)
    requires InRange(all, tree) && forall y :: y in tree ==> StopOrder.FirstOfKey(all, y)
    requires x < |all| && StopOrder.FirstOfKey(all, x) && StopOrder.HasKey(all, tree, all[x].key)
    ensures x in tree
  {
    var k :| 0 <= k < |tree| && all[tree[k]].key == all[x].key;
    SameFirst(all, x, tree[k]);
  }

  /** Two first stops of the same key are the same stop. */
  lemma SameFirst(all: seq<Stop>, x: nat, y: nat)
    requires x < |all| && y < |all| && all[x].key == all[y].key
    requires StopOrder.FirstOfKey(all, x) && StopOrder.FirstOfKey(all, y)
    ensures x == y
  {
  }

  /** The constructor: the stop set holds, in key order, the first stop of
      each key among those on some line; the edges come from the lines. */
  function Build(all: seq<Stop>, lines: seq<Line>, dist: (nat, nat) -> real): (g: Network)
    requires forall l :: 0 <= l < |lines| ==> InRange(all, lines[l].stops)
    ensures WellFormed(g) && g.all == all && g.lines == lines
    ensures StopOrder.Sorted(all, g.stops)
    ensures forall s :: s in g.stops ==> |all[s].lines| > 0
    ensures forall x :: 0 <= x < |all| ==>
      (x in g.stops <==> |all[x].lines| > 0 && StopOrder.FirstOfKey(all, x))
  {
    AddLines(Empty(all, lines), dist, 0)
  }

  //============================================
  // Walking edges
  //============================================

  function WalkingEdge(dist: (nat, nat) -> real, a: nat, b: nat): Edge {
    Edge(a, b, Walking, None, dist(a, b))
  }

  /** Adds walking edges from `stops[i]` to each of `stops[j..]` that is
      within `d` and not yet connected. */
  function WalkPairs(g: Network, dist: (nat, nat) -> real, d: real, i: nat, j: nat): (r: Network)
    requires WellFormed(g) && i < |g.stops|
    ensures WellFormed(r)
    ensures r.all == g.all && r.stops == g.stops && r.lines == g.lines
    decreases |g.stops| - j
  {
    if j >= |g.stops| then g
    else
      var a, b := g.stops[i], g.stops[j];
      var g' := if dist(a, b) <= d && !IsConnected(g, a, b) then Connect(g, WalkingEdge(dist, a, b)) else g;
      WalkPairs(g', dist, d, i, j + 1)
  }

  /** Runs `WalkPairs` for every first stop from `stops[i]` on. */
  function WalkAll(g: Network, dist: (nat, nat) -> real, d: real, i: nat): (r: Network)
    requires WellFormed(g)
    ensures WellFormed(r)
    ensures r.all == g.all && r.stops == g.stops && r.lines == g.lines
    decreases |g.stops| - i
  {
    if i >= |g.stops| then g
    else WalkAll(WalkPairs(g, dist, d, i, 0), dist, d, i + 1)
  }

  /** Connects every ordered pair of stops (a stop with itself included)
      whose distance is at most `d`, unless already connected. */
  function RecomputeWalkingEdges(g: Network, dist: (nat, nat) -> real, d: real): (r: Network)
    requires WellFormed(g)
    ensures WellFormed(r)
    ensures r.all == g.all && r.stops == g.stops && r.lines == g.lines
  {
    WalkAll(g, dist, d, 0)
  }

  /** The stops joined to `v` by a walking edge of `edges`. */
  function WalkingPartners(edges: set<Edge>, v: nat): set<nat> {
    (set e | e in edges && e.kind == Walking && e.from == v :: e.to)
    + (set e | e in edges && e.kind == Walking && e.to == v :: e.from)
  }

  /** The graph without its walking edges and their neighbour entries. */
  function WithoutWalking(g: Network): (r: Network)
    requires WellFormed(g)
    ensures WellFormed(r)
    ensures r.all == g.all && r.stops == g.stops && r.lines == g.lines
  {
    g.(nbrs := seq(|g.nbrs|, v requires 0 <= v < |g.nbrs| => g.nbrs[v] - WalkingPartners(g.edges, v)),
       edges := set e | e in g.edges && e.kind != Walking)
  }

  /** For each walking edge, in any order, each endpoint drops the other from
      its neighbours; then the walking edges leave the edge set. */
  method RemoveWalkingEdges(g: Network) returns (r: Network)
    requires WellFormed(g)
    ensures r == WithoutWalking(g)
    ensures forall e :: e in r.edges ==> e.kind != Walking
    ensures forall e :: e in g.edges && e.kind != Walking ==> e in r.edges
    ensures r.edges <= g.edges
    ensures Valid(g) ==> Valid(r)
  {
    var nbrs := g.nbrs;
    var todo := g.edges;
    while todo != {}
      invariant todo <= g.edges
      invariant |nbrs| == |g.nbrs|
      invariant forall v :: 0 <= v < |nbrs| ==> nbrs[v] == g.nbrs[v] - WalkingPartners(g.edges - todo, v)
      decreases todo
    {
      var e :| e in todo;
      var nbrs' := nbrs;
      if e.kind == Walking {
        nbrs' := nbrs'[e.to := nbrs'[e.to] - {e.from}];
        nbrs' := nbrs'[e.from := nbrs'[e.from] - {e.to}];
      }
      RemoveStep(g, nbrs, nbrs', todo, e);
      nbrs, todo := nbrs', todo - {e};
    }
    r := g.(nbrs := nbrs, edges := set e | e in g.edges && e.kind != Walking);
    RemoveDone(g, nbrs, r);
  }

  /** One iteration of the removal loop: dropping the neighbour entries of
      edge `e` extends the removed partners by `e`'s. */
  lemma RemoveStep(g: Network, nbrs: seq<set<nat>>, nbrs': seq<set<nat>>, todo: set<Edge>, e: Edge)
    requires WellFormed(g) && todo <= g.edges && e in todo && |nbrs| == |g.nbrs|
    requires forall v :: 0 <= v < |nbrs| ==> nbrs[v] == g.nbrs[v] - WalkingPartners(g.edges - todo, v)
    requires nbrs' == if e.kind != Walking then nbrs else
      var once := nbrs[e.to := nbrs[e.to] - {e.from}];
      once[e.from := once[e.from] - {e.to}]
    ensures |nbrs'| == |g.nbrs|
    ensures forall v :: 0 <= v < |nbrs'| ==> nbrs'[v] == g.nbrs[v] - WalkingPartners(g.edges - (todo - {e}), v)
  {
    var done := g.edges - todo;
    PartnersAdd(done, e);
    assert g.edges - (todo - {e}) == done + {e};
  }

  /** Once every edge is processed, the loop's result is `WithoutWalking(g)`. */
  lemma RemoveDone(g: Network, nbrs: seq<set<nat>>, r: Network)
    requires WellFormed(g) && |nbrs| == |g.nbrs|
    requires forall v :: 0 <= v < |nbrs| ==> nbrs[v] == g.nbrs[v] - WalkingPartners(g.edges - {}, v)
    requires r == g.(nbrs := nbrs, edges := set e | e in g.edges && e.kind != Walking)
    ensures r == WithoutWalking(g)
    ensures Valid(g) ==> Valid(r)
  {
    assert g.edges - {} == g.edges;
    WithoutWalkingValid(g);
  }

  /** Adding one edge to a set adds at most its two endpoints to the walking
      partners. */
  lemma PartnersAdd(done: set<Edge>, e: Edge)
    ensures forall v :: (WalkingPartners(done + {e}, v) ==
      WalkingPartners(done, v)
      + (if e.kind == Walking && e.from == v then {e.to} else {})
      + (if e.kind == Walking && e.to == v then {e.from} else {}))
  {
    forall v
      ensures WalkingPartners(done + {e}, v) ==
        WalkingPartners(done, v)
        + (if e.kind == Walking && e.from == v then {e.to} else {})
        + (if e.kind == Walking && e.to == v then {e.from} else {})
    {
    }
  }

  /** The far end of a walking edge is a walking partner. */
  lemma WalkingPartner(edges: set<Edge>, e: Edge, a: nat, b: nat)
    requires e in edges && e.kind == Walking && Joins(e, a, b)
    ensures b in WalkingPartners(edges, a)
  {
  }

  /** Removing the walking edges keeps the neighbour sets equal to the
      endpoint pairs of the remaining edges, because the removed neighbour
      entries belonged to no other edge. */
  lemma WithoutWalkingValid(g: Network)
    requires WellFormed(g)
    ensures Valid(g) ==> Valid(WithoutWalking(g))
  {
    if Valid(g) {
      var r := WithoutWalking(g);
      forall a: nat, b: nat | a < |r.nbrs| && b < |r.nbrs|
        ensures b in r.nbrs[a] <==> Linked(r.edges, a, b)
      {
        if b in r.nbrs[a] {
          var e :| e in g.edges && Joins(e, a, b);
          if e.kind == Walking {
            WalkingPartner(g.edges, e, a, b);
          } else {
            assert e in r.edges;
          }
        }
        if Linked(r.edges, a, b) {
          var e :| e in r.edges && Joins(e, a, b);
          assert b in g.nbrs[a];
          assert forall w :: w in g.edges && Joins(w, a, b) ==> w == e;
        }
      }
    }
  }

  //============================================
  // Lookup by name prefix
  //============================================

  function LowerChar(c: char): char {
    if 'A' <= c <= 'Z' then (c as int + 32) as char else c
  }

  function Lower(s: string): (r: string)
    ensures |r| == |s|
  {
    seq(|s|, i requires 0 <= i < |s| => LowerChar(s[i]))
  }

  predicate StartsWith(s: string, prefix: string) {
    |prefix| <= |s| && s[..|prefix|] == prefix
  }

  /** The stop's name starts with `prefix`, ignoring case. */
  predicate Matches(g: Network, s: nat, prefix: string)
    requires s < |g.all|
  {
    StartsWith(Lower(g.all[s].name), Lower(prefix))
  }

  /** The matching stops of `stops[i..]`, in order. */
  function MatchingFrom(g: Network, prefix: string, i: nat): (r: seq<nat>)
    requires WellFormed(g) && i <= |g.stops|
    ensures InRange(g.all, r)
    ensures forall s :: s in r <==> s in g.stops[i..] && Matches(g, s, prefix)
    ensures StopOrder.Sorted(g.all, g.stops) ==> StopOrder.Sorted(g.all, r)
    decreases |g.stops| - i
  {
    if i == |g.stops| then []
    else
      var rest := MatchingFrom(g, prefix, i + 1);
      assert forall s :: s in g.stops[i..] <==> s == g.stops[i] || s in g.stops[i + 1..];
      if Matches(g, g.stops[i], prefix) then
        MatchingHead(g, i, rest);
        [g.stops[i]] + rest
      else rest
  }

  /** A stop of the stop set goes in front of a subsequence of the stops
      after it without breaking the key order. */
  lemma MatchingHead(g: Network, i: nat, rest: seq<nat>)
    requires WellFormed(g) && i < |g.stops| && InRange(g.all, rest)
    requires forall s :: s in rest ==> s in g.stops[i + 1..]
    requires StopOrder.Sorted(g.all, g.stops) ==> StopOrder.Sorted(g.all, rest)
    ensures InRange(g.all, [g.stops[i]] + rest)
    ensures StopOrder.Sorted(g.all, g.stops) ==> StopOrder.Sorted(g.all, [g.stops[i]] + rest)
  {
    if StopOrder.Sorted(g.all, g.stops) {
      forall s | s in rest
        ensures g.all[g.stops[i]].key < g.all[s].key
      {
        var k :| 0 <= k < |g.stops[i + 1..]| && g.stops[i + 1..][k] == s;
        assert g.stops[i + 1 + k] == s;
      }
      StopOrder.SortedCons(g.all, g.stops[i], rest);
    } else {
      StopOrder.InRangeCons(g.all, g.stops[i], rest);
    }
  }

  /** All stops whose lower-cased name starts with the lower-cased prefix,
      in the stop set's order. */
  function AllMatchingStops(g: Network, prefix: string): (r: seq<nat>)
    requires WellFormed(g)
    ensures InRange(g.all, r)
    ensures forall s :: s in r <==> s in g.stops && Matches(g, s, prefix)
    ensures StopOrder.Sorted(g.all, g.stops) ==> StopOrder.Sorted(g.all, r)
  {
    assert g.stops[0..] == g.stops;
    MatchingFrom(g, prefix, 0)
  }

  /** The first matching stop of `stops[i..]`. */
  function FirstMatchingFrom(g: Network, prefix: string, i: nat): (r: Option<nat>)
    requires WellFormed(g) && i <= |g.stops|
    ensures r.None? ==> forall j :: i <= j < |g.stops| ==> !Matches(g, g.stops[j], prefix)
    ensures r.Some? ==> exists k :: (i <= k < |g.stops| && g.stops[k] == r.value
      && Matches(g, r.value, prefix)
      && forall j :: i <= j < k ==> !Matches(g, g.stops[j], prefix))
    decreases |g.stops| - i
  {
    if i == |g.stops| then None
    else if Matches(g, g.stops[i], prefix) then Some(g.stops[i])
    else FirstMatchingFrom(g, prefix, i + 1)
  }

  /** The first stop, in the stop set's order, whose lower-cased name starts
      with the lower-cased prefix; None when there is none. */
  function FirstMatchingStop(g: Network, prefix: string): (r: Option<nat>)
    requires WellFormed(g)
    ensures r.None? <==> forall s :: s in g.stops ==> !Matches(g, s, prefix)
    ensures r.Some? ==> exists k :: (0 <= k < |g.stops| && g.stops[k] == r.value
      && Matches(g, r.value, prefix)
      && forall j :: 0 <= j < k ==> !Matches(g, g.stops[j], prefix))
  {
    FirstMatchingFrom(g, prefix, 0)
  }
}
