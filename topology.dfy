/**
 * Node/group membership of the broadcast network simulator.
 *
 * Nodes and groups refer to each other: each node keeps the list of groups it
 * is in, each group keeps the list of its member nodes. Both are plain lists
 * that are appended to and removed from, so a node can be listed in a group more
 * than once. Here nodes and groups are identified by number and the two sides
 * of the relation are two maps held by one `Membership` object.
 */
module Topology {
  import opened Packets

  type NodeId = int
  type GroupId = int

  /** Number of occurrences of `x` in the list `s`. */
  function Count<T(==)>(s: seq<T>, x: T): nat {
    multiset(s)[x]
  }

  /** `k` copies of `x`. */
  function Repeat(x: GroupId, k: nat): (r: seq<GroupId>)
    ensures |r| == k && multiset(r) == multiset{}[x := k]
  {
    if k == 0 then [] else Repeat(x, k - 1) + [x]
  }

  /** The list without any occurrence of `x`. */
  function Without<T(==)>(s: seq<T>, x: T): seq<T> {
    if s == [] then [] else (if s[0] == x then [] else [s[0]]) + Without(s[1..], x)
  }

  /** A list's `remove(x)`, minus the exception: the first occurrence of `x`, if
      there is one, is dropped. */
  function RemoveFirst<T(==)>(s: seq<T>, x: T): (r: seq<T>)
    ensures x !in s ==> r == s
    ensures x in s ==> |r| == |s| - 1
  {
    if s == [] then []
    else if s[0] == x then s[1..]
    else [s[0]] + RemoveFirst(s[1..], x)
  }

  /** `remove(x)` takes out the first occurrence of `x` and keeps the order of
      everything else. */
  lemma {:induction false} RemoveFirstAt<T>(s: seq<T>, x: T, i: nat)
    requires i < |s| && s[i] == x && x !in s[..i]
    ensures RemoveFirst(s, x) == s[..i] + s[i + 1..]
  {
    if i > 0 {
      assert s[0] in s[..i];
      assert s[1..][..i - 1] == s[1..i];
      RemoveFirstAt(s[1..], x, i - 1);
      assert s[..i] == [s[0]] + s[1..i];
    }
  }

  /** `remove(x)` of a present `x` takes exactly one occurrence of `x` away. */
  lemma {:induction false} RemoveFirstCounts<T>(s: seq<T>, x: T)
    ensures x in s ==> multiset(RemoveFirst(s, x)) == multiset(s) - multiset{x}
    ensures Without(RemoveFirst(s, x), x) == Without(s, x)
    ensures forall y :: y in RemoveFirst(s, x) ==> y in s
  {
    if s != [] {
      assert s == [s[0]] + s[1..];
      if s[0] != x {
        RemoveFirstCounts(s[1..], x);
        assert RemoveFirst(s, x) == [s[0]] + RemoveFirst(s[1..], x);
        assert ([s[0]] + RemoveFirst(s[1..], x))[1..] == RemoveFirst(s[1..], x);
      } else {
        assert Without(s, x) == Without(s[1..], x);
      }
    }
  }

  /** The list left behind by iterating a list by position while removing, from
      that same list, the first occurrence of each element visited: the iterator
      keeps its position while the remaining elements shift down by one. */
  function Sweep(s: seq<NodeId>, i: nat): seq<NodeId>
    decreases |s| - i
  {
    if i < |s| then Sweep(RemoveFirst(s, s[i]), i + 1) else s
  }

  /** The elements at odd positions. */
  function Odds(s: seq<NodeId>): seq<NodeId> {
    if |s| < 2 then [] else [s[1]] + Odds(s[2..])
  }

  /** Visiting position `|kept|` removes exactly the element found there. */
  lemma SweepVisit(kept: seq<NodeId>, rest: seq<NodeId>)
    requires Distinct(kept + rest) && rest != []
    ensures RemoveFirst(kept + rest, rest[0]) == kept + rest[1..]
  {
    var s, a := kept + rest, rest[0];
    assert s[|kept|] == a;
    assert a !in kept by {
      forall k | 0 <= k < |kept| ensures kept[k] != a {
        assert s[k] != s[|kept|];
      }
    }
    assert s[..|kept|] == kept;
    RemoveFirstAt(s, a, |kept|);
    assert s[|kept| + 1..] == rest[1..];
  }

  /** Dropping one element keeps a list free of duplicates. */
  lemma SkipKeepsDistinct(kept: seq<NodeId>, rest: seq<NodeId>)
    requires Distinct(kept + rest) && |rest| >= 2
    ensures Distinct((kept + [rest[1]]) + rest[2..])
  {
    var s, t := kept + rest, (kept + [rest[1]]) + rest[2..];
    forall i, j | 0 <= i < j < |t| ensures t[i] != t[j] {
      var i', j' := if i < |kept| then i else i + 1, if j < |kept| then j else j + 1;
      assert t[i] == s[i'] && t[j] == s[j'];
    }
  }

  /** Over a list of distinct members, the sweep removes the elements at even
      positions and leaves those at odd positions. */
  lemma {:induction false} SweepKeepsOdds(kept: seq<NodeId>, rest: seq<NodeId>)
    requires Distinct(kept + rest)
    ensures Sweep(kept + rest, |kept|) == kept + Odds(rest)
    decreases |rest|
  {
    var s := kept + rest;
    if rest != [] {
      SweepVisit(kept, rest);
      assert Sweep(s, |kept|) == Sweep(kept + rest[1..], |kept| + 1);
      if |rest| >= 2 {
        var b := rest[1];
        assert kept + rest[1..] == (kept + [b]) + rest[2..];
        SkipKeepsDistinct(kept, rest);
        SweepKeepsOdds(kept + [b], rest[2..]);
        assert Odds(rest) == [b] + Odds(rest[2..]);
      } else {
        assert kept + rest[1..] == kept;
      }
    } else {
      assert s == kept;
    }
  }

  /** Which members of a group of distinct nodes the sweep leaves listed: exactly
      those at odd positions. */
  lemma SweepSurvivors(s: seq<NodeId>)
    requires Distinct(s)
    ensures forall i :: 0 <= i < |s| ==> (s[i] in Sweep(s, 0) <==> i % 2 == 1)
  {
    SweepKeepsOdds([], s);
    assert [] + s == s;
    OddsPositions(s);
  }

  lemma {:induction false} OddsPositions(s: seq<NodeId>)
    requires Distinct(s)
    ensures forall i :: 0 <= i < |s| ==> (s[i] in Odds(s) <==> i % 2 == 1)
    decreases |s|
  {
    if |s| >= 2 {
      var t := s[2..];
      assert Distinct(t) by {
        forall i, j | 0 <= i < j < |t| ensures t[i] != t[j] {
          assert s[i + 2] != s[j + 2];
        }
      }
      OddsPositions(t);
      forall i | 0 <= i < |s| ensures s[i] in Odds(s) <==> i % 2 == 1 {
        assert Odds(s) == [s[1]] + Odds(t);
        if i >= 2 {
          assert s[i] == t[i - 2];
          assert s[i] != s[1];
        } else if i == 0 {
          assert s[0] != s[1];
          assert s[0] !in t by {
            forall k | 0 <= k < |t| ensures t[k] != s[0] { assert s[0] != s[k + 2]; }
          }
          OddsWithin(t);
        }
      }
    }
  }

  lemma {:induction false} OddsWithin(s: seq<NodeId>)
    ensures forall x :: x in Odds(s) ==> x in s
    decreases |s|
  {
    if |s| >= 2 {
      OddsWithin(s[2..]);
      forall x | x in Odds(s) ensures x in s {
        if x != s[1] {
          assert x in Odds(s[2..]);
          var k :| 0 <= k < |s[2..]| && s[2..][k] == x;
          assert s[k + 2] == x;
        }
      }
    }
  }

  /** A group of two distinct members keeps its second member after deletion. */
  lemma DeleteKeepsSecondOfTwo(a: NodeId, b: NodeId)
    requires a != b
    ensures Sweep([a, b], 0) == [b]
  {
    assert RemoveFirst([a, b], a) == [b];
    assert RemoveFirst([b], b) == [];
  }

  /** The two sides of the relation agree: every reference is to a known node or
      group, and a group occurs in a node's list as often as the node occurs in
      the group's. */
  ghost predicate Consistent(groupsOf: map<NodeId, seq<GroupId>>, nodesOf: map<GroupId, seq<NodeId>>) {
    && (forall n, g {:trigger g in groupsOf[n]} :: n in groupsOf && g in groupsOf[n] ==> g in nodesOf)
    && (forall g, n {:trigger n in nodesOf[g]} :: g in nodesOf && n in nodesOf[g] ==> n in groupsOf)
    && (forall n, g {:trigger Count(groupsOf[n], g)} {:trigger Count(nodesOf[g], n)} ::
          n in groupsOf && g in nodesOf ==> Count(groupsOf[n], g) == Count(nodesOf[g], n))
  }

  lemma NewNodeConsistent(groupsOf: map<NodeId, seq<GroupId>>, nodesOf: map<GroupId, seq<NodeId>>, n: NodeId)
    requires Consistent(groupsOf, nodesOf) && n !in groupsOf
    ensures Consistent(groupsOf[n := []], nodesOf)
  {
    forall g | g in nodesOf ensures Count(nodesOf[g], n) == 0 {
      assert n !in nodesOf[g];
    }
  }

  lemma EmptyGroupConsistent(groupsOf: map<NodeId, seq<GroupId>>, nodesOf: map<GroupId, seq<NodeId>>, g: GroupId)
    requires Consistent(groupsOf, nodesOf) && g !in nodesOf
    ensures Consistent(groupsOf, nodesOf[g := []])
  {
    forall n | n in groupsOf ensures Count(groupsOf[n], g) == 0 {
      assert g !in groupsOf[n];
    }
  }

  /** Appending on both sides keeps them in step. */
  lemma AppendConsistent(groupsOf: map<NodeId, seq<GroupId>>, nodesOf: map<GroupId, seq<NodeId>>, g: GroupId, n: NodeId)
    requires Consistent(groupsOf, nodesOf) && n in groupsOf && g in nodesOf
    ensures Consistent(groupsOf[n := groupsOf[n] + [g]], nodesOf[g := nodesOf[g] + [n]])
  {
    var G, N := groupsOf[n := groupsOf[n] + [g]], nodesOf[g := nodesOf[g] + [n]];
    forall m, h | m in G && h in N ensures Count(G[m], h) == Count(N[h], m) {
      assert Count(groupsOf[m], h) == Count(nodesOf[h], m);
    }
  }

  /** Removing one occurrence on both sides keeps them in step. */
  lemma RemoveConsistent(groupsOf: map<NodeId, seq<GroupId>>, nodesOf: map<GroupId, seq<NodeId>>, g: GroupId, n: NodeId)
    requires Consistent(groupsOf, nodesOf) && n in groupsOf && g in nodesOf && g in groupsOf[n]
    ensures n in nodesOf[g]
    ensures Consistent(groupsOf[n := RemoveFirst(groupsOf[n], g)], nodesOf[g := RemoveFirst(nodesOf[g], n)])
  {
    assert Count(groupsOf[n], g) == Count(nodesOf[g], n);
    var G, N := groupsOf[n := RemoveFirst(groupsOf[n], g)], nodesOf[g := RemoveFirst(nodesOf[g], n)];
    RemoveKeepsReferences(groupsOf, nodesOf, g, n, G, N);
    RemoveKeepsCounts(groupsOf, nodesOf, g, n, G, N);
  }

  lemma RemoveKeepsReferences(groupsOf: map<NodeId, seq<GroupId>>, nodesOf: map<GroupId, seq<NodeId>>, g: GroupId, n: NodeId,
                              G: map<NodeId, seq<GroupId>>, N: map<GroupId, seq<NodeId>>)
    requires Consistent(groupsOf, nodesOf) && n in groupsOf && g in nodesOf
    requires G == groupsOf[n := RemoveFirst(groupsOf[n], g)] && N == nodesOf[g := RemoveFirst(nodesOf[g], n)]
    ensures forall m, h :: m in G && h in G[m] ==> h in N
    ensures forall h, m :: h in N && m in N[h] ==> m in G
  {
    RemoveFirstCounts(groupsOf[n], g);
    RemoveFirstCounts(nodesOf[g], n);
  }

  lemma RemoveKeepsCounts(groupsOf: map<NodeId, seq<GroupId>>, nodesOf: map<GroupId, seq<NodeId>>, g: GroupId, n: NodeId,
                          G: map<NodeId, seq<GroupId>>, N: map<GroupId, seq<NodeId>>)
    requires Consistent(groupsOf, nodesOf) && n in groupsOf && g in nodesOf && g in groupsOf[n]
    requires G == groupsOf[n := RemoveFirst(groupsOf[n], g)] && N == nodesOf[g := RemoveFirst(nodesOf[g], n)]
    ensures forall m, h :: m in G && h in N ==> Count(G[m], h) == Count(N[h], m)
  {
    forall m, h | m in G && h in N ensures Count(G[m], h) == Count(N[h], m) {
      RemoveKeepsCountAt(groupsOf, nodesOf, g, n, m, h);
    }
  }

  lemma RemoveKeepsCountAt(groupsOf: map<NodeId, seq<GroupId>>, nodesOf: map<GroupId, seq<NodeId>>, g: GroupId, n: NodeId, m: NodeId, h: GroupId)
    requires n in groupsOf && g in nodesOf && g in groupsOf[n] && m in groupsOf && h in nodesOf
    requires Count(groupsOf[n], g) == Count(nodesOf[g], n) && Count(groupsOf[m], h) == Count(nodesOf[h], m)
    ensures Count(groupsOf[n := RemoveFirst(groupsOf[n], g)][m], h) == Count(nodesOf[g := RemoveFirst(nodesOf[g], n)][h], m)
  {
    var gs, ns := groupsOf[n := RemoveFirst(groupsOf[n], g)][m], nodesOf[g := RemoveFirst(nodesOf[g], n)][h];
    CountAfterRemove(groupsOf[n], g, h);
    CountAfterRemove(nodesOf[g], n, m);
    assert gs == if m == n then RemoveFirst(groupsOf[n], g) else groupsOf[m];
    assert ns == if h == g then RemoveFirst(nodesOf[g], n) else nodesOf[h];
  }

  /** How many copies of `y` are left after `remove(x)`. */
  lemma CountAfterRemove<T>(s: seq<T>, x: T, y: T)
    ensures Count(RemoveFirst(s, x), y) == if x in s && y == x then Count(s, y) - 1 else Count(s, y)
  {
    RemoveFirstCounts(s, x);
  }

  /** The node lists after appending `g` once for each entry of `s`, in order. */
  function AppendAll(groupsOf: map<NodeId, seq<GroupId>>, s: seq<NodeId>, g: GroupId): (r: map<NodeId, seq<GroupId>>)
    requires forall m :: m in s ==> m in groupsOf
    ensures r.Keys == groupsOf.Keys
  {
    if s == [] then groupsOf
    else
      var last := s[|s| - 1];
      assert last in s;
      var p := AppendAll(groupsOf, s[..|s| - 1], g);
      p[last := p[last] + [g]]
  }

  /** Each node's list gains one `g` per listing of the node, at its end. */
  lemma {:induction false} AppendAllLists(groupsOf: map<NodeId, seq<GroupId>>, s: seq<NodeId>, g: GroupId)
    requires forall m :: m in s ==> m in groupsOf
    ensures forall n :: n in groupsOf ==> AppendAll(groupsOf, s, g)[n] == groupsOf[n] + Repeat(g, Count(s, n))
  {
    if s != [] {
      var last, init := s[|s| - 1], s[..|s| - 1];
      assert s == init + [last];
      AppendAllLists(groupsOf, init, g);
      forall n | n in groupsOf ensures AppendAll(groupsOf, s, g)[n] == groupsOf[n] + Repeat(g, Count(s, n)) {
        assert multiset(s) == multiset(init) + multiset{last};
        if n == last {
          var c := Count(init, n);
          assert Repeat(g, c + 1) == Repeat(g, c) + [g];
          assert groupsOf[n] + Repeat(g, c) + [g] == groupsOf[n] + (Repeat(g, c) + [g]);
        }
      }
    }
  }

  /** A group created over the list `s` keeps the two sides in step. */
  lemma {:induction false} AppendAllConsistent(groupsOf: map<NodeId, seq<GroupId>>, nodesOf: map<GroupId, seq<NodeId>>, s: seq<NodeId>, g: GroupId)
    requires Consistent(groupsOf, nodesOf) && g !in nodesOf
    requires forall m :: m in s ==> m in groupsOf
    ensures Consistent(AppendAll(groupsOf, s, g), nodesOf[g := s])
  {
    if s == [] {
      EmptyGroupConsistent(groupsOf, nodesOf, g);
    } else {
      var last, init := s[|s| - 1], s[..|s| - 1];
      assert s == init + [last];
      assert last in s;
      AppendAllConsistent(groupsOf, nodesOf, init, g);
      AppendConsistent(AppendAll(groupsOf, init, g), nodesOf[g := init], g, last);
      assert nodesOf[g := init][g := init + [last]] == nodesOf[g := s];
    }
  }

  /** The node lists after `remove(g)` on the list of each entry of `s`, in order. */
  function RemoveEach(groupsOf: map<NodeId, seq<GroupId>>, s: seq<NodeId>, g: GroupId): (r: map<NodeId, seq<GroupId>>)
    requires forall m :: m in s ==> m in groupsOf
    ensures r.Keys == groupsOf.Keys
  {
    if s == [] then groupsOf
    else
      var last := s[|s| - 1];
      assert last in s;
      var q := RemoveEach(groupsOf, s[..|s| - 1], g);
      q[last := RemoveFirst(q[last], g)]
  }

  /** Removing `g` from node lists touches only the nodes named and, in their
      lists, only occurrences of `g`. */
  lemma {:induction false} RemoveEachLists(groupsOf: map<NodeId, seq<GroupId>>, s: seq<NodeId>, g: GroupId)
    requires forall m :: m in s ==> m in groupsOf
    ensures forall n :: n in groupsOf && n !in s ==> RemoveEach(groupsOf, s, g)[n] == groupsOf[n]
    ensures forall n :: n in groupsOf ==> Without(RemoveEach(groupsOf, s, g)[n], g) == Without(groupsOf[n], g)
  {
    if s != [] {
      var last, init := s[|s| - 1], s[..|s| - 1];
      assert s == init + [last];
      RemoveEachLists(groupsOf, init, g);
      RemoveFirstCounts(RemoveEach(groupsOf, init, g)[last], g);
    }
  }

  /**
   * The membership relation. `groupsOf` has one entry per node object, its
   * `groups` list; `nodesOf` has one entry per group object, its `nodes` list.
   */
  class Membership {
    var groupsOf: map<NodeId, seq<GroupId>>
    var nodesOf: map<GroupId, seq<NodeId>>

    ghost predicate Valid()
      reads this
    {
      Consistent(groupsOf, nodesOf)
    }

    /** Nodes listed by at least one of the groups `gs`. */
    function Members(gs: seq<GroupId>): set<NodeId>
      reads this
    {
      set g, n | g in gs && g in nodesOf && n in nodesOf[g] :: n
    }

    /** The nodes that hear `n`'s broadcasts: every other member of its groups. */
    function Neighbours(n: NodeId): set<NodeId>
      reads this
      requires n in groupsOf
    {
      Members(groupsOf[n]) - {n}
    }

    constructor ()
      ensures Valid() && groupsOf == map[] && nodesOf == map[]
    {
      groupsOf := map[];
      nodesOf := map[];
    }

    /** A new node object starts in no group. */
    method AddNode(n: NodeId)
      requires Valid() && n !in groupsOf
      modifies this
      ensures Valid()
      ensures groupsOf == old(groupsOf)[n := []] && nodesOf == old(nodesOf)
    {
      NewNodeConsistent(groupsOf, nodesOf, n);
      groupsOf := groupsOf[n := []];
    }

    /** A new group over the list `members`: the group keeps the list, and each
        entry of it appends the group to that node's list. */
    method NewGroup(g: GroupId, members: seq<NodeId>)
      requires Valid() && g !in nodesOf
      requires forall m :: m in members ==> m in groupsOf
      modifies this
      ensures Valid()
      ensures nodesOf == old(nodesOf)[g := members]
      ensures groupsOf.Keys == old(groupsOf).Keys
      ensures forall n :: n in groupsOf ==> groupsOf[n] == old(groupsOf[n]) + Repeat(g, Count(members, n))
    {
      nodesOf := nodesOf[g := members];
      for i := 0 to |members|
        invariant nodesOf == old(nodesOf)[g := members]
        invariant groupsOf == AppendAll(old(groupsOf), members[..i], g)
      {
        var n := members[i];
        assert members[..i + 1] == members[..i] + [n];
        assert members[..i + 1][..i] == members[..i];
        assert n in members;
        groupsOf := groupsOf[n := groupsOf[n] + [g]];
      }
      assert members[..|members|] == members;
      AppendAllLists(old(groupsOf), members, g);
      AppendAllConsistent(old(groupsOf), old(nodesOf), members, g);
    }

    /** Appends on both sides, with no check for an existing membership. */
    method Add(g: GroupId, n: NodeId)
      requires Valid() && g in nodesOf && n in groupsOf
      modifies this
      ensures Valid()
      ensures groupsOf == old(groupsOf)[n := old(groupsOf[n]) + [g]]
      ensures nodesOf == old(nodesOf)[g := old(nodesOf[g]) + [n]]
    {
      AppendConsistent(groupsOf, nodesOf, g, n);
      groupsOf := groupsOf[n := groupsOf[n] + [g]];
      nodesOf := nodesOf[g := nodesOf[g] + [n]];
    }

    /** Removes one membership. Fails, changing nothing, when the group is not in
        the node's list; the group's list tolerates a missing node. */
    method Remove(g: GroupId, n: NodeId) returns (ok: bool)
      requires Valid() && g in nodesOf && n in groupsOf
      modifies this
      ensures Valid()
      ensures ok <==> g in old(groupsOf[n])
      ensures ok ==> groupsOf == old(groupsOf)[n := RemoveFirst(old(groupsOf[n]), g)]
      ensures ok ==> nodesOf == old(nodesOf)[g := RemoveFirst(old(nodesOf[g]), n)]
      ensures !ok ==> groupsOf == old(groupsOf) && nodesOf == old(nodesOf)
    {
      ok := g in groupsOf[n];
      if !ok {
        return;
      }
      RemoveConsistent(groupsOf, nodesOf, g, n);
      groupsOf := groupsOf[n := RemoveFirst(groupsOf[n], g)];
      nodesOf := nodesOf[g := RemoveFirst(nodesOf[g], n)];
    }

    /** Deletes a group by iterating its member list while removing from it.
        Only the members the iteration visits are detached; see `SweepSurvivors`. */
    method Delete(g: GroupId)
      requires Valid() && g in nodesOf
      modifies this
      ensures Valid()
      ensures nodesOf == old(nodesOf)[g := Sweep(old(nodesOf[g]), 0)]
      ensures groupsOf.Keys == old(groupsOf).Keys
      ensures forall n :: n in groupsOf && n !in old(nodesOf[g]) ==> groupsOf[n] == old(groupsOf[n])
      ensures forall n :: n in groupsOf ==> Without(groupsOf[n], g) == Without(old(groupsOf[n]), g)
    {
      ghost var visited: seq<NodeId> := [];
      var i := 0;
      while i < |nodesOf[g]|
        invariant Valid() && g in nodesOf
        invariant Sweep(nodesOf[g], i) == Sweep(old(nodesOf[g]), 0)
        invariant nodesOf == old(nodesOf)[g := nodesOf[g]]
        invariant multiset(visited) + multiset(nodesOf[g]) == multiset(old(nodesOf[g]))
        invariant forall m :: m in visited ==> m in old(groupsOf)
        invariant groupsOf == RemoveEach(old(groupsOf), visited, g)
        decreases |nodesOf[g]| - i
      {
        var n := nodesOf[g][i];
        i := i + 1;
        assert n in nodesOf[g];
        assert Count(groupsOf[n], g) == Count(nodesOf[g], n) > 0;
        RemoveFirstCounts(nodesOf[g], n);
        var ok := Remove(g, n);
        assert (visited + [n])[..|visited|] == visited;
        visited := visited + [n];
      }
      forall m | m in visited ensures m in old(nodesOf[g]) {
        assert m in multiset(visited);
        assert m in multiset(old(nodesOf[g]));
      }
      RemoveEachLists(old(groupsOf), visited, g);
    }

    /** Deletion that detaches every member: iterates over a snapshot of the
        member list. */
    method DeleteAll(g: GroupId)
      requires Valid() && g in nodesOf
      modifies this
      ensures Valid()
      ensures nodesOf == old(nodesOf)[g := []]
      ensures groupsOf.Keys == old(groupsOf).Keys
      ensures forall n :: n in groupsOf ==> g !in groupsOf[n]
      ensures forall n :: n in groupsOf ==> Without(groupsOf[n], g) == Without(old(groupsOf[n]), g)
    {
      var members := nodesOf[g];
      for i := 0 to |members|
        invariant Valid() && g in nodesOf
        invariant nodesOf == old(nodesOf)[g := members[i..]]
        invariant groupsOf.Keys == old(groupsOf).Keys
        invariant forall n :: n in groupsOf ==> Without(groupsOf[n], g) == Without(old(groupsOf[n]), g)
      {
        var n := members[i];
        assert nodesOf[g][0] == n;
        assert n in nodesOf[g];
        assert Count(groupsOf[n], g) == Count(nodesOf[g], n) > 0;
        RemoveFirstCounts(groupsOf[n], g);
        var ok := Remove(g, n);
        assert members[i..][1..] == members[i + 1..];
      }
      forall n | n in groupsOf ensures g !in groupsOf[n] {
        assert Count(groupsOf[n], g) == Count(nodesOf[g], n) == 0;
      }
    }

    /** The set of nodes listed by the groups `gs`, each once, whichever groups and
        however many times it is listed in. */
    method NodesFromGroups(gs: seq<GroupId>) returns (r: set<NodeId>)
      requires forall g :: g in gs ==> g in nodesOf
      ensures r == Members(gs)
      ensures forall n :: n in r <==> exists i :: 0 <= i < |gs| && gs[i] in nodesOf && n in nodesOf[gs[i]]
    {
      var nodes: seq<NodeId> := [];
      for i := 0 to |gs|
        invariant forall n :: n in nodes <==> n in Members(gs[..i])
      {
        assert gs[..i + 1] == gs[..i] + [gs[i]];
        assert gs[i] in gs;
        MembersAppend(gs[..i], gs[i]);
        nodes := nodes + nodesOf[gs[i]];
      }
      assert gs[..|gs|] == gs;
      r := set n | n in nodes;
      assert forall n :: n in r <==> n in Members(gs);
      forall n ensures n in r <==> exists i :: 0 <= i < |gs| && gs[i] in nodesOf && n in nodesOf[gs[i]] {
        if n in r {
          assert n in Members(gs);
          var g :| g in gs && g in nodesOf && n in nodesOf[g];
          var i :| 0 <= i < |gs| && gs[i] == g;
        }
        if exists i :: 0 <= i < |gs| && gs[i] in nodesOf && n in nodesOf[gs[i]] {
          var i :| 0 <= i < |gs| && gs[i] in nodesOf && n in nodesOf[gs[i]];
          var g := gs[i];
          assert g in gs && g in nodesOf && n in nodesOf[g];
          assert n in Members(gs);
        }
      }
    }

    lemma MembersAppend(gs: seq<GroupId>, g: GroupId)
      requires g in nodesOf
      ensures forall n :: n in Members(gs + [g]) <==> n in Members(gs) || n in nodesOf[g]
    {
      forall n ensures n in Members(gs + [g]) <==> n in Members(gs) || n in nodesOf[g] {
        if n in Members(gs + [g]) {
          var h :| h in gs + [g] && h in nodesOf && n in nodesOf[h];
          if h != g { assert h in gs; }
        }
        if n in Members(gs) {
          var h :| h in gs && h in nodesOf && n in nodesOf[h];
          assert h in gs + [g];
        }
        if n in nodesOf[g] {
          assert g in gs + [g];
        }
      }
    }

    /** A node lists a group exactly when the group lists the node. */
    lemma ListedBothWays(n: NodeId, g: GroupId)
      requires Valid() && n in groupsOf && g in nodesOf
      ensures g in groupsOf[n] <==> n in nodesOf[g]
    {
      assert Count(groupsOf[n], g) == Count(nodesOf[g], n);
    }

    /** Membership is symmetric: `m` hears `n` exactly when `n` hears `m`. */
    lemma NeighboursSymmetric(n: NodeId, m: NodeId)
      requires Valid() && n in groupsOf && m in groupsOf
      ensures m in Neighbours(n) <==> n in Neighbours(m)
    {
      if m in Neighbours(n) {
        var g :| g in groupsOf[n] && g in nodesOf && m in nodesOf[g];
        ListedBothWays(n, g);
        ListedBothWays(m, g);
        assert n in Members(groupsOf[m]);
      }
      if n in Neighbours(m) {
        var g :| g in groupsOf[m] && g in nodesOf && n in nodesOf[g];
        ListedBothWays(n, g);
        ListedBothWays(m, g);
        assert m in Members(groupsOf[n]);
      }
    }

    /** Every node a group lists is a known node. */
    lemma MembersAreNodes(gs: seq<GroupId>)
      requires Valid()
      ensures forall n :: n in Members(gs) ==> n in groupsOf
    {
      forall n | n in Members(gs) ensures n in groupsOf {
        var g :| g in gs && g in nodesOf && n in nodesOf[g];
      }
    }
  }
}
