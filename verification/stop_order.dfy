/** The graph's stop set: a sorted set of stops, ordered by key, into which
    the constructor's stops are inserted one by one. Inserting a stop whose
    key is already present leaves the set unchanged, so of several stops
    that compare equal only the first one inserted survives. */
module StopOrder {
  import opened Transit

  /** `s` lists stops in strictly increasing key order. */
  predicate Sorted(all: seq<Stop>, s: seq<nat>)
    requires InRange(all, s)
  {
    forall i, j :: 0 <= i < j < |s| ==> all[s[i]].key < all[s[j]].key
  }

  /** Some stop listed in `s` has key `k`. */
  predicate HasKey(all: seq<Stop>, s: seq<nat>, k: int)
    requires InRange(all, s)
  {
    exists i :: 0 <= i < |s| && all[s[i]].key == k
  }

  /** No stop before `x` in the input has the same key as `x`. */
  predicate FirstOfKey(all: seq<Stop>, x: nat)
    requires x < |all|
  {
    forall j :: 0 <= j < x ==> all[j].key != all[x].key
  }

  /** Adds stop `x` to the key-ordered set `s` unless a stop with the same key
      is already there. */
  function Insert(all: seq<Stop>, s: seq<nat>, x: nat): (r: seq<nat>)
    requires x < |all| && InRange(all, s) && Sorted(all, s)
    ensures InRange(all, r) && Sorted(all, r)
    ensures HasKey(all, s, all[x].key) ==> r == s
    ensures !HasKey(all, s, all[x].key) ==> x in r && |r| == |s| + 1
    ensures forall y :: y in r ==> y in s || y == x
    ensures forall y :: y in s ==> y in r
  {
    if |s| == 0 then [x]
    else if all[x].key < all[s[0]].key then
      InsertFront(all, s, x);
      [x] + s
    else if all[x].key == all[s[0]].key then s
    else
      var rest := Insert(all, s[1..], x);
      InsertCons(all, s, x, rest);
      [s[0]] + rest
  }

  /** A stop whose key is below the head's goes in front, and its key was
      not present. */
  lemma InsertFront(all: seq<Stop>, s: seq<nat>, x: nat)
    requires x < |all| && InRange(all, s) && Sorted(all, s) && |s| > 0
    requires all[x].key < all[s[0]].key
    ensures InRange(all, [x] + s) && Sorted(all, [x] + s)
    ensures !HasKey(all, s, all[x].key)
  {
    forall y | y in s
      ensures all[x].key < all[y].key
    {
      var k :| 0 <= k < |s| && s[k] == y;
    }
    SortedCons(all, x, s);
  }

  /** The recursive case of `Insert`: the head of `s` in front of an
      insertion into its tail. */
  lemma InsertCons(all: seq<Stop>, s: seq<nat>, x: nat, rest: seq<nat>)
    requires x < |all| && InRange(all, s) && Sorted(all, s) && |s| > 0
    requires all[s[0]].key < all[x].key
    requires InRange(all, rest) && Sorted(all, rest)
    requires HasKey(all, s[1..], all[x].key) ==> rest == s[1..]
    requires !HasKey(all, s[1..], all[x].key) ==> x in rest && |rest| == |s|
    requires forall y :: y in rest ==> y in s[1..] || y == x
    requires forall y :: y in s[1..] ==> y in rest
    ensures InRange(all, [s[0]] + rest) && Sorted(all, [s[0]] + rest)
    ensures HasKey(all, s, all[x].key) ==> [s[0]] + rest == s
    ensures !HasKey(all, s, all[x].key) ==> x in [s[0]] + rest && |[s[0]] + rest| == |s| + 1
    ensures forall y :: y in [s[0]] + rest ==> y in s || y == x
    ensures forall y :: y in s ==> y in [s[0]] + rest
  {
    InsertTailKey(all, s, x);
    ConsSorted(all, s, x, rest);
    assert s == [s[0]] + s[1..];
  }

  /** The key of `x`, different from the head's, is in `s` exactly when it is
      in the tail of `s`. */
  lemma InsertTailKey(all: seq<Stop>, s: seq<nat>, x: nat)
    requires x < |all| && InRange(all, s) && |s| > 0 && all[s[0]].key != all[x].key
    ensures HasKey(all, s[1..], all[x].key) <==> HasKey(all, s, all[x].key)
  {
    if HasKey(all, s[1..], all[x].key) {
      var i :| 0 <= i < |s[1..]| && all[s[1..][i]].key == all[x].key;
      assert all[s[i + 1]].key == all[x].key;
    }
    if HasKey(all, s, all[x].key) {
      var i :| 0 <= i < |s| && all[s[i]].key == all[x].key;
      assert i != 0;
      assert all[s[1..][i - 1]].key == all[x].key;
    }
  }

  /** Putting the head of `s` back in front of an insertion into its tail
      keeps the key order. */
  lemma ConsSorted(all: seq<Stop>, s: seq<nat>, x: nat, rest: seq<nat>)
    requires x < |all| && InRange(all, s) && Sorted(all, s) && |s| > 0
    requires all[s[0]].key < all[x].key
    requires InRange(all, rest) && Sorted(all, rest)
    requires forall y :: y in rest ==> y in s[1..] || y == x
    ensures InRange(all, [s[0]] + rest) && Sorted(all, [s[0]] + rest)
  {
    forall y | y in rest
      ensures all[s[0]].key < all[y].key
    {
      if y != x {
        var k :| 0 <= k < |s[1..]| && s[1..][k] == y;
        assert s[k + 1] == y;
      }
    }
    SortedCons(all, s[0], rest);
  }

  /** A stop below every key of a key-ordered list can go in front of it. */
  lemma SortedCons(all: seq<Stop>, x: nat, rest: seq<nat>)
    requires x < |all| && InRange(all, rest) && Sorted(all, rest)
    requires forall s :: s in rest ==> all[x].key < all[s].key
    ensures InRange(all, [x] + rest) && Sorted(all, [x] + rest)
  {
    var r := [x] + rest;
    InRangeCons(all, x, rest);
    forall a, b | 0 <= a < b < |r|
      ensures all[r[a]].key < all[r[b]].key
    {
      assert r[b] == rest[b - 1] && r[b] in rest;
      if a > 0 {
        assert r[a] == rest[a - 1];
      }
    }
  }

  lemma InRangeCons(all: seq<Stop>, x: nat, rest: seq<nat>)
    requires x < |all| && InRange(all, rest)
    ensures InRange(all, [x] + rest)
  {
  }

  /** The stop set after inserting the first `n` stops of `all`, in order. */
  function InsertAll(all: seq<Stop>, n: nat): (r: seq<nat>)
    requires n <= |all|
    ensures InRange(all, r) && Sorted(all, r)
    ensures forall y :: y in r ==> y < n && FirstOfKey(all, y)
    ensures forall i :: 0 <= i < n ==> HasKey(all, r, all[i].key)
  {
    if n == 0 then []
    else
      var s := InsertAll(all, n - 1);
      InsertAllStep(all, n, s);
      Insert(all, s, n - 1)
  }

  /** One insertion step of `InsertAll` keeps every key seen so far present
      and admits only the first stop of each key. */
  lemma InsertAllStep(all: seq<Stop>, n: nat, s: seq<nat>)
    requires 0 < n <= |all| && InRange(all, s) && Sorted(all, s)
    requires forall y :: y in s ==> y < n - 1 && FirstOfKey(all, y)
    requires forall i :: 0 <= i < n - 1 ==> HasKey(all, s, all[i].key)
    ensures var r := Insert(all, s, n - 1);
      && (forall y :: y in r ==> y < n && FirstOfKey(all, y))
      && (forall i :: 0 <= i < n ==> HasKey(all, r, all[i].key))
  {
    KeysKept(all, n, s);
    InsertFirst(all, n, s);
  }

  /** Every key seen so far is still present after an insertion step. */
  lemma KeysKept(all: seq<Stop>, n: nat, s: seq<nat>)
    requires 0 < n <= |all| && InRange(all, s) && Sorted(all, s)
    requires forall i :: 0 <= i < n - 1 ==> HasKey(all, s, all[i].key)
    ensures forall i :: 0 <= i < n ==> HasKey(all, Insert(all, s, n - 1), all[i].key)
  {
    forall i | 0 <= i < n
      ensures HasKey(all, Insert(all, s, n - 1), all[i].key)
    {
      KeyKept(all, s, n - 1, i);
    }
  }

  /** Only the first stop of a key is admitted by an insertion step. */
  lemma InsertFirst(all: seq<Stop>, n: nat, s: seq<nat>)
    requires 0 < n <= |all| && InRange(all, s) && Sorted(all, s)
    requires forall y :: y in s ==> y < n - 1 && FirstOfKey(all, y)
    requires forall i :: 0 <= i < n - 1 ==> HasKey(all, s, all[i].key)
    ensures forall y :: y in Insert(all, s, n - 1) ==> y < n && FirstOfKey(all, y)
  {
    var r := Insert(all, s, n - 1);
    if !HasKey(all, s, all[n - 1].key) {
      forall j | 0 <= j < n - 1
        ensures all[j].key != all[n - 1].key
      {
        assert HasKey(all, s, all[j].key);
      }
      assert FirstOfKey(all, n - 1);
    }
    forall y | y in r
      ensures y < n && FirstOfKey(all, y)
    {
      if y !in s {
        assert y == n - 1 && !HasKey(all, s, all[n - 1].key);
      }
    }
  }

  /** A key present before an insertion, or the inserted one, is present after it. */
  lemma KeyKept(all: seq<Stop>, s: seq<nat>, x: nat, i: nat)
    requires x < |all| && i <= x && InRange(all, s) && Sorted(all, s)
    requires i < x ==> HasKey(all, s, all[i].key)
    ensures HasKey(all, Insert(all, s, x), all[i].key)
  {
    var r := Insert(all, s, x);
    if HasKey(all, s, all[i].key) {
      var k :| 0 <= k < |s| && all[s[k]].key == all[i].key;
      assert s[k] in r;
      var m :| 0 <= m < |r| && r[m] == s[k];
    } else {
      assert i == x;
      var m :| 0 <= m < |r| && r[m] == x;
    }
  }

  /** The stop set a sorted set built from `all` holds. */
  function TreeSet(all: seq<Stop>): (r: seq<nat>)
    ensures InRange(all, r) && Sorted(all, r)
    ensures forall y :: y in r ==> FirstOfKey(all, y)
    ensures forall i :: 0 <= i < |all| ==> HasKey(all, r, all[i].key)
  {
    InsertAll(all, |all|)
  }

  /** Keeps the stops of `s` that belong to at least one line, in order. */
  function OnSomeLine(all: seq<Stop>, s: seq<nat>): (r: seq<nat>)
    requires InRange(all, s)
    ensures InRange(all, r)
    ensures forall y :: y in r <==> y in s && |all[y].lines| > 0
    ensures Sorted(all, s) ==> Sorted(all, r)
  {
    if |s| == 0 then []
    else
      var rest := OnSomeLine(all, s[1..]);
      assert forall y :: y in s <==> y == s[0] || y in s[1..];
      if |all[s[0]].lines| > 0 then [s[0]] + rest else rest
  }
}
