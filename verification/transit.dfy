/** Shared vocabulary of the transit network: stops, lines and edges.
    Stops are identified by their index in the collection handed to the
    graph; lines by their index in the line collection. */
module Transit {

  datatype Option<T> = None | Some(value: T)

  /** A stop as loaded: display name, the key that stands in for the stop's
      natural ordering, and the ids of the lines that visit it. */
  datatype Stop = Stop(name: string, key: int, lines: set<nat>)

  /** A scheduled line: its transport type and the stops it visits, in order. */
  datatype Line = Line(kind: string, stops: seq<nat>)

  /** The transport type given to walking edges. */
  const Walking: string := "walking"

  /** A directed connection; `line` is None for walking edges. */
  datatype Edge = Edge(from: nat, to: nat, kind: string, line: Option<nat>, dist: real)

  /** Edge `e` connects the unordered pair {a, b}. */
  predicate Joins(e: Edge, a: nat, b: nat) {
    (e.from == a && e.to == b) || (e.from == b && e.to == a)
  }

  /** Some edge of `edges` connects the unordered pair {a, b}. */
  ghost predicate Linked(edges: set<Edge>, a: nat, b: nat) {
    exists e :: e in edges && Joins(e, a, b)
  }

  /** Every index in `s` names a stop of `all`. */
  predicate InRange(all: seq<Stop>, s: seq<nat>) {
    forall i :: 0 <= i < |s| ==> s[i] < |all|
  }

  /** The elements of `s` are pairwise distinct. */
  predicate Distinct(s: seq<nat>) {
    forall i, j :: 0 <= i < j < |s| ==> s[i] != s[j]
  }
}
