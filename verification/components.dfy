/** Strongly connected components by Kosaraju's algorithm: a forward
    depth-first pass that lists every stop after everything it reaches, then
    a backward pass over that list in reverse that labels, from each still
    unlabelled stop, every unlabelled stop that reaches it. */
module Components {

  /** The directed view the analysis walks: the stop set in iteration order
      and, per stop id, the targets of the stop's outgoing edges and the
      sources of its incoming edges, in edge-list order. */
  datatype Digraph = Digraph(stops: seq<nat>, out: seq<seq<nat>>, inn: seq<seq<nat>>)

  function StopSet(d: Digraph): set<nat> {
    set s | s in d.stops
  }

  /** Every edge of a stop leads to a stop of the graph; a lookup of any
      other stop in the label map would fail. */
  predicate Closed(d: Digraph) {
    forall s :: s in d.stops ==>
      && s < |d.out| && s < |d.inn|
      && (forall t :: t in d.out[s] ==> t in d.stops)
      && (forall t :: t in d.inn[s] ==> t in d.stops)
  }

  /** The in-edges of the labelled stops stay among them. */
  predicate InClosed(d: Digraph, keys: set<nat>) {
    forall s :: s in keys ==> s < |d.inn| && forall t :: t in d.inn[s] ==> t in keys
  }

  /** Depth-first search forward from `v`: marks `v` and everything it
      reaches unmarked, and appends each of them to `list` once all of its
      successors are done. Returns the marked set and the list. */
  function ForwardVisit(d: Digraph, v: nat, vis: set<nat>, list: seq<nat>): (r: (set<nat>, seq<nat>))
    requires Closed(d) && v in d.stops && vis <= StopSet(d)
    ensures vis <= r.0 <= StopSet(d) && v in r.0
    ensures list <= r.1
    ensures forall x :: x in r.1[|list|..] <==> x in r.0 && x !in vis
    decreases StopSet(d) - vis, 0, 0
  {
    if v in vis then (vis, list)
    else
      var (vis1, list1) := ForwardEach(d, d.out[v], vis + {v}, list);
      assert (list1 + [v])[|list|..] == list1[|list|..] + [v];
      (vis1, list1 + [v])
  }

  /** Visits the successors `ns` in order. */
  function ForwardEach(d: Digraph, ns: seq<nat>, vis: set<nat>, list: seq<nat>): (r: (set<nat>, seq<nat>))
    requires Closed(d) && vis <= StopSet(d)
    requires forall t :: t in ns ==> t in d.stops
    ensures vis <= r.0 <= StopSet(d)
    ensures forall t :: t in ns ==> t in r.0
    ensures list <= r.1
    ensures forall x :: x in r.1[|list|..] <==> x in r.0 && x !in vis
    decreases StopSet(d) - vis, 1, |ns|
  {
    if |ns| == 0 then (vis, list)
    else
      var (vis1, list1) := ForwardVisit(d, ns[0], vis, list);
      var (vis2, list2) := ForwardEach(d, ns[1..], vis1, list1);
      assert forall t :: t in ns ==> t == ns[0] || t in ns[1..];
      assert forall x :: x in list2[|list|..] <==> x in list1[|list|..] || x in list2[|list1|..] by {
        assert list2[|list|..] == list1[|list|..] + list2[|list1|..];
      }
      (vis2, list2)
  }

  /** The stops still carrying the "no component yet" label -1. */
  function Unassigned(comp: map<nat, int>): set<nat> {
    set s | s in comp && comp[s] == -1
  }

  /** Depth-first search backward from `v`: if `v` is unlabelled, gives it
      label `c` and visits the sources of its in-edges. A stop that already
      has a label keeps it; an unlabelled stop that gains one has every
      in-neighbour labelled afterwards. */
  function BackwardVisit(d: Digraph, v: nat, c: nat, comp: map<nat, int>): (r: map<nat, int>)
    requires InClosed(d, comp.Keys) && v in comp
    ensures r.Keys == comp.Keys && r[v] != -1
    ensures forall s :: s in comp && comp[s] != -1 ==> r[s] == comp[s]
    ensures forall s :: s in comp && r[s] != comp[s] ==> r[s] == c
    ensures forall s, t :: s in comp && comp[s] == -1 && r[s] != -1 && t in d.inn[s] ==> r[t] != -1
    decreases Unassigned(comp), 0, 0
  {
    if comp[v] != -1 then comp
    else
      assert Unassigned(comp[v := c]) == Unassigned(comp) - {v};
      BackwardEach(d, d.inn[v], c, comp[v := c])
  }

  /** Visits the in-neighbours `ns` in order. */
  function BackwardEach(d: Digraph, ns: seq<nat>, c: nat, comp: map<nat, int>): (r: map<nat, int>)
    requires InClosed(d, comp.Keys) && forall t :: t in ns ==> t in comp
    ensures r.Keys == comp.Keys
    ensures forall t :: t in ns ==> r[t] != -1
    ensures forall s :: s in comp && comp[s] != -1 ==> r[s] == comp[s]
    ensures forall s :: s in comp && r[s] != comp[s] ==> r[s] == c
    ensures forall s, t :: s in comp && comp[s] == -1 && r[s] != -1 && t in d.inn[s] ==> r[t] != -1
    decreases Unassigned(comp), 1, |ns|
  {
    if |ns| == 0 then comp
    else
      var comp1 := BackwardVisit(d, ns[0], c, comp);
      assert Unassigned(comp1) <= Unassigned(comp);
      var r := BackwardEach(d, ns[1..], c, comp1);
      assert forall t :: t in ns ==> t == ns[0] || t in ns[1..];
      r
  }

  /** `s` backwards. */
  function Reversed(s: seq<nat>): (r: seq<nat>)
    ensures |r| == |s| && forall x :: x in r <==> x in s
    ensures forall k :: 0 <= k < |s| ==> r[k] == s[|s| - 1 - k]
  {
    if |s| == 0 then [] else Reversed(s[1..]) + [s[0]]
  }

  /** The second pass over `order` from position `i`, with `c` components
      numbered so far: each stop found unlabelled starts component `c`.
      Returns the labels and the number of components. */
  function Label(d: Digraph, order: seq<nat>, i: nat, c: nat, comp: map<nat, int>): (r: (map<nat, int>, nat))
    requires i <= |order| && InClosed(d, comp.Keys)
    requires forall x :: x in order ==> x in comp
    requires forall s :: s in comp ==> -1 <= comp[s] < c
    ensures r.0.Keys == comp.Keys && c <= r.1
    ensures forall s :: s in comp ==> -1 <= r.0[s] < r.1
    ensures forall k :: i <= k < |order| ==> r.0[order[k]] != -1
    ensures forall s :: s in comp && comp[s] != -1 ==> r.0[s] == comp[s]
    decreases |order| - i
  {
    if i == |order| then (comp, c)
    else if comp[order[i]] == -1 then
      Label(d, order, i + 1, c + 1, BackwardVisit(d, order[i], c, comp))
    else
      Label(d, order, i + 1, c, comp)
  }

  /** Kosaraju's two passes; also returns the number of components. */
  function Kosaraju(d: Digraph): (r: (map<nat, int>, nat))
    requires Closed(d)
    ensures r.0.Keys == StopSet(d)
    ensures forall s :: s in r.0 ==> 0 <= r.0[s] < r.1
  {
    var order := Reversed(ForwardEach(d, d.stops, {}, []).1);
    FirstPassCovers(d);
    var init := InitLabels(d, order);
    LabelAll(d, order, init);
    Label(d, order, 0, 0, init)
  }

  /** The forward pass lists every stop. */
  lemma FirstPassCovers(d: Digraph)
    requires Closed(d)
    ensures forall s :: s in StopSet(d) <==> s in Reversed(ForwardEach(d, d.stops, {}, []).1)
  {
    var r := ForwardEach(d, d.stops, {}, []);
    assert r.1[0..] == r.1;
  }

  /** Every stop labelled -1, the start of the second pass. */
  function InitLabels(d: Digraph, order: seq<nat>): (r: map<nat, int>)
    requires Closed(d)
    requires forall s :: s in StopSet(d) <==> s in order
    ensures r.Keys == StopSet(d) && InClosed(d, r.Keys)
    ensures forall x :: x in order ==> x in r
    ensures forall s :: s in r ==> r[s] == -1
  {
    map s | s in StopSet(d) :: -1
  }

  /** A second pass over a list of all the stops labels every stop. */
  lemma LabelAll(d: Digraph, order: seq<nat>, init: map<nat, int>)
    requires InClosed(d, init.Keys) && forall s :: s in init <==> s in order
    requires forall s :: s in init ==> init[s] == -1
    ensures var r := Label(d, order, 0, 0, init);
      r.0.Keys == init.Keys && forall s :: s in r.0 ==> 0 <= r.0[s] < r.1
  {
  }

  /** The component label of every stop. */
  function FindComponents(d: Digraph): (r: map<nat, int>)
    requires Closed(d)
    ensures r.Keys == StopSet(d)
    ensures forall s :: s in r ==> r[s] >= 0
  {
    Kosaraju(d).0
  }
}
