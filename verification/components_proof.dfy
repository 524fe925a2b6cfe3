/** The second pass of Kosaraju's algorithm, and the main theorem: two stops
    get the same component label exactly when each reaches the other, and
    the labels used are exactly 0 up to the number of components. */
module ComponentsProof {
  import opened Transit
  import opened Reach
  import opened Components
  import opened ComponentsFirst

  /** The in-edge lists mirror the out-edge lists: `t` is a successor of `s`
      exactly when `s` is a predecessor of `t`. */
  predicate Agree(d: Digraph)
    requires Closed(d)
  {
    forall s, t :: s in d.stops && t in d.stops ==> (t in d.out[s] <==> s in d.inn[t])
  }

  /** Some stop carries label `k`. */
  ghost predicate Used(comp: map<nat, int>, k: int) {
    exists s :: s in comp && comp[s] == k
  }

  /** `s` had no label before and has one after. */
  predicate Fresh(comp: map<nat, int>, r: map<nat, int>, s: nat) {
    s in comp && s in r && comp[s] == -1 && r[s] != -1
  }

  /** The label map covers exactly the stops, and so does `order`. */
  ghost predicate Keyed(d: Digraph, order: seq<nat>, comp: map<nat, int>) {
    comp.Keys == StopSet(d) && forall x :: x in order <==> x in comp
  }

  /** Labels are -1 or below the count `c`. */
  predicate Bounded(comp: map<nat, int>, c: nat) {
    forall s :: s in comp ==> -1 <= comp[s] < c
  }

  /** Every label below the count is in use. */
  ghost predicate AllUsed(comp: map<nat, int>, c: nat) {
    forall k :: 0 <= k < c ==> Used(comp, k)
  }

  /** The first `i` stops of `order` are labelled. */
  predicate DoneBefore(order: seq<nat>, i: nat, comp: map<nat, int>) {
    forall k :: 0 <= k < i && k < |order| ==> order[k] in comp && comp[order[k]] != -1
  }

  /** A component is labelled as a whole or not at all. */
  ghost predicate SccUniform(d: Digraph, comp: map<nat, int>) {
    forall a, b :: a in comp && b in comp && Mutual(d.out, a, b) ==> (comp[a] == -1 <==> comp[b] == -1)
  }

  /** Labelled stops share a label exactly when they share a component. */
  ghost predicate LabelsExact(d: Digraph, comp: map<nat, int>) {
    forall a, b :: a in comp && b in comp && comp[a] != -1 && comp[b] != -1 ==>
      (comp[a] == comp[b] <==> Mutual(d.out, a, b))
  }

  /** The state of the second pass before position `i` of `order`, with `c`
      components numbered. */
  ghost predicate LabelInv(d: Digraph, order: seq<nat>, i: nat, c: nat, comp: map<nat, int>) {
    && Closed(d) && i <= |order| && Keyed(d, order, comp) && Bounded(comp, c) && AllUsed(comp, c)
    && DoneBefore(order, i, comp) && SccUniform(d, comp) && LabelsExact(d, comp)
  }

  /** `r` is `comp` with label `c` given to some unlabelled stops. */
  predicate Extends(comp: map<nat, int>, r: map<nat, int>, c: nat) {
    && r.Keys == comp.Keys
    && (forall s :: s in comp && comp[s] != -1 ==> r[s] == comp[s])
    && (forall s :: s in comp && r[s] != comp[s] ==> r[s] == c)
  }

  /** The stops labelled from `comp` to `r` are exactly the component of `v`. */
  ghost predicate FreshExactly(d: Digraph, comp: map<nat, int>, r: map<nat, int>, v: nat) {
    forall s :: s in comp ==> (Fresh(comp, r, s) <==> Mutual(d.out, s, v))
  }

  /** The first pass's guarantee, about the list it produced. */
  ghost predicate FirstPassOrder(d: Digraph, list: seq<nat>) {
    && Distinct(list)
    && (forall s :: s in list <==> s in d.stops)
    && (forall u, w :: u in list && Reaches(d.out, u, w) && !Reaches(d.out, w, u) ==>
          Dominated(d, list, u, w))
  }

  /** Some stop before position `i` of `order` is in `u`'s component. */
  ghost predicate PrecededBy(d: Digraph, order: seq<nat>, i: nat, u: nat) {
    exists j :: 0 <= j < i && j < |order| && Mutual(d.out, order[j], u)
  }

  /** The first pass's guarantee restated for the reversed list the second
      pass walks: wherever a stop that `u` reaches without being reached
      back sits, some stop of `u`'s component comes before it. The clause
      fires only where `PrecededBy` is mentioned, which keeps it out of the
      proofs that merely pass it on. */
  ghost predicate SecondPassOrder(d: Digraph, order: seq<nat>) {
    && (forall s :: s in order <==> s in d.stops)
    && (forall u, i: nat {:trigger PrecededBy(d, order, i, u)} ::
          i < |order| && u in order && Reaches(d.out, u, order[i]) && !Reaches(d.out, order[i], u) ==>
          PrecededBy(d, order, i, u))
  }

  /** Reversing the first pass's list gives the second pass's order. */
  lemma ReversedOrder(d: Digraph, list: seq<nat>)
    requires FirstPassOrder(d, list)
    ensures SecondPassOrder(d, Reversed(list))
  {
    var order := Reversed(list);
    forall u, i: nat | i < |order| && u in order && Reaches(d.out, u, order[i]) && !Reaches(d.out, order[i], u)
      ensures PrecededBy(d, order, i, u)
    {
      assert u in list;
      assert Dominated(d, list, u, order[i]);
      ReversedPreceded(d, list, order, u, i);
    }
  }

  /** The position case of `ReversedOrder`. */
  lemma ReversedPreceded(d: Digraph, list: seq<nat>, order: seq<nat>, u: nat, i: nat)
    requires Distinct(list) && |order| == |list| && i < |order|
    requires forall k :: 0 <= k < |list| ==> order[k] == list[|list| - 1 - k]
    requires Dominated(d, list, u, order[i])
    ensures PrecededBy(d, order, i, u)
  {
    var n := |list|;
    var i0, j0 :| 0 <= i0 < j0 < n && list[i0] == order[i] && Mutual(d.out, list[j0], u);
    assert order[i] == list[n - 1 - i];
    assert i0 == n - 1 - i;
    assert order[n - 1 - j0] == list[j0];
  }

  /** Every stop newly labelled by a backward search from `v` reaches `t`
      when `v` does. */
  lemma {:induction false} BackwardSound(d: Digraph, v: nat, c: nat, comp: map<nat, int>, t: nat)
    requires Closed(d) && Agree(d) && comp.Keys == StopSet(d) && v in comp
    requires Reaches(d.out, v, t)
    ensures var r := BackwardVisit(d, v, c, comp);
      forall s :: Fresh(comp, r, s) ==> Reaches(d.out, s, t)
    decreases Unassigned(comp), 0, 0, 0
  {
    if comp[v] == -1 {
      var comp1 := comp[v := c];
      assert Unassigned(comp1) == Unassigned(comp) - {v};
      forall x | x in d.inn[v]
        ensures Reaches(d.out, x, t)
      {
        ReachStep(d.out, x, v, t);
      }
      BackwardEachSound(d, d.inn[v], c, comp1, t);
    }
  }

  lemma {:induction false} BackwardEachSound(d: Digraph, ns: seq<nat>, c: nat, comp: map<nat, int>, t: nat)
    requires Closed(d) && Agree(d) && comp.Keys == StopSet(d)
    requires forall x :: x in ns ==> x in comp && Reaches(d.out, x, t)
    ensures var r := BackwardEach(d, ns, c, comp);
      forall s :: Fresh(comp, r, s) ==> Reaches(d.out, s, t)
    decreases Unassigned(comp), 1, |ns|, 1
  {
    if |ns| > 0 {
      BackwardEachStep(d, ns, c, comp, t);
    }
  }

  /** The visit of the first of `ns`, then of the rest. */
  lemma {:induction false} BackwardEachStep(d: Digraph, ns: seq<nat>, c: nat, comp: map<nat, int>, t: nat)
    requires Closed(d) && Agree(d) && comp.Keys == StopSet(d) && |ns| > 0
    requires forall x :: x in ns ==> x in comp && Reaches(d.out, x, t)
    ensures var r := BackwardEach(d, ns, c, comp);
      forall s :: Fresh(comp, r, s) ==> Reaches(d.out, s, t)
    decreases Unassigned(comp), 1, |ns|, 0
  {
    var comp1 := BackwardVisit(d, ns[0], c, comp);
    assert Unassigned(comp1) <= Unassigned(comp);
    BackwardSound(d, ns[0], c, comp, t);
    assert forall x :: x in ns[1..] ==> x in ns;
    BackwardEachSound(d, ns[1..], c, comp1, t);
    var r := BackwardEach(d, ns[1..], c, comp1);
    assert forall s :: Fresh(comp, r, s) ==> Fresh(comp, comp1, s) || Fresh(comp1, r, s);
  }

  /** A path from a stop stays among the stops. */
  lemma PathInStops(d: Digraph, p: seq<nat>)
    requires Closed(d) && IsPath(d.out, p) && p[0] in d.stops
    ensures forall k :: 0 <= k < |p| ==> p[k] in d.stops
  {
    var k := 0;
    while k < |p| - 1
      invariant 0 <= k <= |p| - 1 && forall m :: 0 <= m <= k ==> p[m] in d.stops
    {
      assert p[k + 1] in d.out[p[k]];
      k := k + 1;
    }
  }

  /** The stops of a path are reached from its start and reach its end. */
  lemma PathReach(d: Digraph, p: seq<nat>, k: nat)
    requires IsPath(d.out, p) && k < |p|
    ensures Reaches(d.out, p[0], p[k]) && Reaches(d.out, p[k], p[|p| - 1])
  {
    var q := p[..k + 1];
    assert IsPath(d.out, q) by {
      forall m | 0 <= m < |q| - 1
        ensures q[m] < |d.out| && q[m + 1] in d.out[q[m]]
      {
        assert q[m] == p[m] && q[m + 1] == p[m + 1];
      }
    }
    assert q[0] == p[0] && q[k] == p[k];
    var t := p[k..];
    assert IsPath(d.out, t) by {
      forall m | 0 <= m < |t| - 1
        ensures t[m] < |d.out| && t[m + 1] in d.out[t[m]]
      {
        assert t[m] == p[k + m] && t[m + 1] == p[k + m + 1];
      }
    }
    assert t[0] == p[k] && t[|t| - 1] == p[|p| - 1];
  }

  /** Walking back along a path into `v` inside `v`'s component, every stop
      gets labelled: each is an in-neighbour of a freshly labelled one. */
  lemma {:induction false} PathLabelled(d: Digraph, comp: map<nat, int>, r: map<nat, int>, v: nat, p: seq<nat>, k: nat)
    requires Closed(d) && Agree(d) && comp.Keys == StopSet(d) && r.Keys == comp.Keys
    requires forall a, b :: a in comp && b in comp && Mutual(d.out, a, b) ==> (comp[a] == -1 <==> comp[b] == -1)
    requires forall s, t :: s in comp && comp[s] == -1 && r[s] != -1 && t in d.inn[s] ==> r[t] != -1
    requires v in comp && comp[v] == -1 && r[v] != -1
    requires IsPath(d.out, p) && p[|p| - 1] == v && Reaches(d.out, v, p[0])
    requires forall m :: 0 <= m < |p| ==> p[m] in d.stops
    requires k < |p|
    ensures r[p[k]] != -1
    decreases |p| - k
  {
    if k < |p| - 1 {
      PathLabelled(d, comp, r, v, p, k + 1);
      PathReach(d, p, k + 1);
      ReachTrans(d.out, v, p[0], p[k + 1]);
      assert Mutual(d.out, p[k + 1], v);
      assert p[k] in d.inn[p[k + 1]];
    }
  }

  /** The component of `v` is labelled by the backward search from `v`. */
  lemma BackwardComplete(d: Digraph, comp: map<nat, int>, r: map<nat, int>, v: nat, s: nat)
    requires Closed(d) && Agree(d) && comp.Keys == StopSet(d) && r.Keys == comp.Keys
    requires forall a, b :: a in comp && b in comp && Mutual(d.out, a, b) ==> (comp[a] == -1 <==> comp[b] == -1)
    requires forall s, t :: s in comp && comp[s] == -1 && r[s] != -1 && t in d.inn[s] ==> r[t] != -1
    requires v in comp && comp[v] == -1 && r[v] != -1
    requires s in comp && Mutual(d.out, s, v)
    ensures r[s] != -1
  {
    var p :| IsPath(d.out, p) && p[0] == s && p[|p| - 1] == v;
    PathInStops(d, p);
    PathLabelled(d, comp, r, v, p, 0);
  }

  /** No stop before position `i` is in the component of a still unlabelled
      stop: everything before `i` is labelled. */
  lemma NotPreceded(d: Digraph, order: seq<nat>, i: nat, comp: map<nat, int>, s: nat)
    requires i < |order| && DoneBefore(order, i, comp) && SccUniform(d, comp)
    requires s in comp && comp[s] == -1
    ensures !PrecededBy(d, order, i, s)
  {
    forall j | 0 <= j < i
      ensures !Mutual(d.out, order[j], s)
    {
      assert comp[order[j]] != -1;
    }
  }

  /** A stop freshly labelled from `order[i]` is in its component: it
      reaches `order[i]`, and were it not reached back a stop of its
      component would come before `order[i]` and would already be labelled. */
  lemma FreshInComponent(d: Digraph, order: seq<nat>, i: nat, c: nat, comp: map<nat, int>, s: nat)
    requires Closed(d) && Agree(d) && SecondPassOrder(d, order)
    requires LabelInv(d, order, i, c, comp) && i < |order| && comp[order[i]] == -1
    requires Fresh(comp, BackwardVisit(d, order[i], c, comp), s)
    ensures Mutual(d.out, s, order[i])
  {
    var v := order[i];
    ReachRefl(d.out, v);
    BackwardSound(d, v, c, comp, v);
    NotPreceded(d, order, i, comp, s);
    assert s in order;
  }

  /** The stops freshly labelled from the unlabelled `order[i]` are exactly
      its component. */
  lemma FreshIsComponent(d: Digraph, order: seq<nat>, i: nat, c: nat, comp: map<nat, int>)
    requires Closed(d) && Agree(d) && SecondPassOrder(d, order)
    requires LabelInv(d, order, i, c, comp) && i < |order| && comp[order[i]] == -1
    ensures FreshExactly(d, comp, BackwardVisit(d, order[i], c, comp), order[i])
  {
    var v := order[i];
    var r := BackwardVisit(d, v, c, comp);
    forall s | s in comp
      ensures Fresh(comp, r, s) <==> Mutual(d.out, s, v)
    {
      if Fresh(comp, r, s) {
        FreshInComponent(d, order, i, c, comp, s);
      }
      if Mutual(d.out, s, v) {
        BackwardComplete(d, comp, r, v, s);
      }
    }
  }

  lemma StepUsed(comp: map<nat, int>, r: map<nat, int>, c: nat, v: nat)
    requires AllUsed(comp, c) && Extends(comp, r, c) && Fresh(comp, r, v)
    ensures AllUsed(r, c + 1)
  {
    forall k | 0 <= k < c + 1
      ensures Used(r, k)
    {
      if k < c {
        assert Used(comp, k);
        var s :| s in comp && comp[s] == k;
        assert r[s] == k;
      } else {
        assert r[v] == c;
      }
    }
  }

  lemma StepDone(order: seq<nat>, i: nat, comp: map<nat, int>, r: map<nat, int>, c: nat)
    requires DoneBefore(order, i, comp) && Extends(comp, r, c) && i < |order|
    requires order[i] in r && r[order[i]] != -1
    ensures DoneBefore(order, i + 1, r)
  {
  }

  lemma StepSame(d: Digraph, comp: map<nat, int>, r: map<nat, int>, c: nat, v: nat)
    requires SccUniform(d, comp) && Extends(comp, r, c) && FreshExactly(d, comp, r, v)
    ensures SccUniform(d, r)
  {
    forall a, b | a in r && b in r && Mutual(d.out, a, b)
      ensures r[a] == -1 <==> r[b] == -1
    {
      assert Mutual(d.out, a, v) ==> Mutual(d.out, b, v) by {
        if Mutual(d.out, a, v) {
          MutualTrans(d.out, b, a, v);
        }
      }
      assert Mutual(d.out, b, v) ==> Mutual(d.out, a, v) by {
        if Mutual(d.out, b, v) {
          MutualTrans(d.out, a, b, v);
        }
      }
    }
  }

  lemma StepLabels(d: Digraph, comp: map<nat, int>, r: map<nat, int>, c: nat, v: nat)
    requires Bounded(comp, c) && SccUniform(d, comp) && LabelsExact(d, comp)
    requires Extends(comp, r, c) && FreshExactly(d, comp, r, v)
    ensures LabelsExact(d, r)
  {
    forall a, b | a in r && b in r && r[a] != -1 && r[b] != -1
      ensures r[a] == r[b] <==> Mutual(d.out, a, b)
    {
      if Fresh(comp, r, a) && Fresh(comp, r, b) {
        MutualTrans(d.out, a, v, b) by {
          assert Mutual(d.out, b, v);
        }
      }
    }
  }

  /** One labelling step keeps the invariant. */
  lemma LabelStep(d: Digraph, order: seq<nat>, i: nat, c: nat, comp: map<nat, int>, r: map<nat, int>)
    requires LabelInv(d, order, i, c, comp) && i < |order| && comp[order[i]] == -1
    requires Extends(comp, r, c) && FreshExactly(d, comp, r, order[i])
    ensures LabelInv(d, order, i + 1, c + 1, r)
  {
    var v := order[i];
    ReachRefl(d.out, v);
    assert Fresh(comp, r, v);
    StepUsed(comp, r, c, v);
    StepDone(order, i, comp, r, c);
    StepSame(d, comp, r, c, v);
    StepLabels(d, comp, r, c, v);
  }

  /** The end state of the second pass: every stop labelled. */
  lemma LabelDone(d: Digraph, order: seq<nat>, c: nat, comp: map<nat, int>)
    requires LabelInv(d, order, |order|, c, comp)
    ensures forall s :: s in comp ==> 0 <= comp[s] < c
  {
    forall s | s in comp
      ensures comp[s] != -1
    {
      var k :| 0 <= k < |order| && order[k] == s;
    }
  }

  /** Labels and count as Kosaraju's algorithm must end with them: every
      stop labelled below the count, labels equal exactly within a
      component, and every label below the count in use. */
  ghost predicate LabelOutcome(d: Digraph, r: (map<nat, int>, nat)) {
    (forall s :: s in r.0 ==> 0 <= r.0[s] < r.1) && LabelsExact(d, r.0) && AllUsed(r.0, r.1)
  }

  /** The second pass from a state meeting the invariant ends with every
      stop labelled, labels equal exactly within a component, and every
      label below the count in use. */
  lemma {:induction false} LabelCorrect(d: Digraph, order: seq<nat>, i: nat, c: nat, comp: map<nat, int>)
    requires Closed(d) && Agree(d) && SecondPassOrder(d, order)
    requires LabelInv(d, order, i, c, comp)
    ensures LabelOutcome(d, Label(d, order, i, c, comp))
    decreases |order| - i, 1
  {
    if i == |order| {
      LabelFinal(d, order, i, c, comp);
    } else {
      LabelRest(d, order, i, c, comp);
    }
  }

  /** The second pass from a position before the end: one step, then the
      rest of the order. */
  lemma {:induction false} LabelRest(d: Digraph, order: seq<nat>, i: nat, c: nat, comp: map<nat, int>)
    requires Closed(d) && Agree(d) && SecondPassOrder(d, order)
    requires LabelInv(d, order, i, c, comp) && i < |order|
    ensures LabelOutcome(d, Label(d, order, i, c, comp))
    decreases |order| - i, 0
  {
    var c', comp' := LabelNext(d, order, i, c, comp);
    LabelCorrect(d, order, i + 1, c', comp');
  }

  /** One step of the second pass: a stop still unlabelled starts a new
      component, which the backward search labels exactly. */
  lemma LabelNext(d: Digraph, order: seq<nat>, i: nat, c: nat, comp: map<nat, int>)
    returns (c': nat, comp': map<nat, int>)
    requires Closed(d) && Agree(d) && SecondPassOrder(d, order)
    requires LabelInv(d, order, i, c, comp) && i < |order|
    ensures LabelInv(d, order, i + 1, c', comp')
    ensures Label(d, order, i + 1, c', comp') == Label(d, order, i, c, comp)
  {
    if comp[order[i]] == -1 {
      c', comp' := c + 1, BackwardVisit(d, order[i], c, comp);
      FreshIsComponent(d, order, i, c, comp);
      LabelStep(d, order, i, c, comp, comp');
    } else {
      c', comp' := c, comp;
    }
  }

  /** At the end of the order the pass returns its state, which is final. */
  lemma LabelFinal(d: Digraph, order: seq<nat>, i: nat, c: nat, comp: map<nat, int>)
    requires i == |order| && LabelInv(d, order, i, c, comp)
    ensures LabelOutcome(d, Label(d, order, i, c, comp))
  {
    LabelDone(d, order, c, comp);
    assert Label(d, order, i, c, comp) == (comp, c);
  }

  /** Kosaraju's algorithm is correct: every stop is labelled, two stops
      share a label exactly when each reaches the other, and the labels in
      use are exactly 0 up to the component count. */
  lemma KosarajuCorrect(d: Digraph)
    requires Closed(d) && Agree(d)
    ensures var r := Kosaraju(d);
      && r.0.Keys == StopSet(d)
      && (forall s :: s in r.0 ==> 0 <= r.0[s] < r.1)
      && (forall a, b :: a in r.0 && b in r.0 ==> (r.0[a] == r.0[b] <==> Mutual(d.out, a, b)))
      && (forall k :: 0 <= k < r.1 ==> Used(r.0, k))
  {
    var list := ForwardEach(d, d.stops, {}, []).1;
    FirstPass(d);
    var order := Reversed(list);
    ReversedOrder(d, list);
    FirstPassCovers(d);
    var init := InitLabels(d, order);
    InitInv(d, order, init);
    LabelCorrect(d, order, 0, 0, init);
  }

  /** The second pass starts with no stop labelled. */
  lemma InitInv(d: Digraph, order: seq<nat>, init: map<nat, int>)
    requires Closed(d) && init.Keys == StopSet(d)
    requires forall x :: x in order <==> x in init
    requires forall s :: s in init ==> init[s] == -1
    ensures LabelInv(d, order, 0, 0, init)
  {
    assert SccUniform(d, init);
  }

  /** The label map returned to callers: stops share a label exactly when
      they are mutually reachable. */
  lemma FindComponentsCorrect(d: Digraph, a: nat, b: nat)
    requires Closed(d) && Agree(d) && a in d.stops && b in d.stops
    ensures var r := FindComponents(d);
      a in r && b in r && (r[a] == r[b] <==> Mutual(d.out, a, b))
  {
    KosarajuCorrect(d);
  }

  /** Without edges every stop is its own component. */
  lemma NoEdgesDistinct(d: Digraph, a: nat, b: nat)
    requires Closed(d) && forall s :: s in d.stops ==> d.out[s] == [] && d.inn[s] == []
    requires a in d.stops && b in d.stops && a != b
    ensures var r := FindComponents(d); a in r && b in r && r[a] != r[b]
  {
    assert !Reaches(d.out, a, b) by {
      if Reaches(d.out, a, b) {
        ReachExit(d.out, {a}, a, b);
      }
    }
    FindComponentsCorrect(d, a, b);
  }
}
