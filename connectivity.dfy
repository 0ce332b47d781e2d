/** The undirected graph that a list of index pairs describes, and what it
    means for a list of groups to be its connected components. This is the
    yardstick the grouping in `Shared.MakeGroups` is proved against. */
module Connectivity {
  import opened Basics

  /** One accepted pair of dense indices, as an undirected edge. */
  type Edge = (nat, nat)

  /** Some pair joins `a` and `b`, in either orientation. */
  ghost predicate Adjacent(es: seq<Edge>, a: nat, b: nat) {
    exists k :: 0 <= k < |es| && ((es[k].0 == a && es[k].1 == b) || (es[k].0 == b && es[k].1 == a))
  }

  /** Every index that occurs in some pair. */
  ghost function Endpoints(es: seq<Edge>): set<nat> {
    (set k | 0 <= k < |es| :: es[k].0) + (set k | 0 <= k < |es| :: es[k].1)
  }

  /** The pairs as unordered sets: what stays when order, orientation and
      duplicates are forgotten. */
  ghost function EdgeSet(es: seq<Edge>): set<set<nat>> {
    set k | 0 <= k < |es| :: {es[k].0, es[k].1}
  }

  /** A non-empty walk whose consecutive entries are adjacent. */
  ghost predicate IsPath(es: seq<Edge>, p: seq<nat>) {
    |p| > 0 && forall i :: 0 <= i < |p| - 1 ==> Adjacent(es, p[i], p[i + 1])
  }

  /** `b` can be reached from `a` by a chain of pairs. */
  ghost predicate Connected(es: seq<Edge>, a: nat, b: nat) {
    exists p :: IsPath(es, p) && p[0] == a && p[|p| - 1] == b
  }

  /** No pair leaves `s`. */
  ghost predicate Closed(es: seq<Edge>, s: set<nat>) {
    forall a, b :: a in s && Adjacent(es, a, b) ==> b in s
  }


  /** `groups` lists the connected components of the pairs: each group is
      non-empty and repeats nothing, no index is in two groups, the groups
      cover exactly the pair endpoints, no pair leaves a group, and any two
      members of a group are connected. */
  ghost predicate IsComponents(es: seq<Edge>, groups: seq<seq<nat>>) {
    && (forall i :: 0 <= i < |groups| ==> |groups[i]| > 0 && Distinct(groups[i]))
    && (forall i, j, x :: 0 <= i < j < |groups| && x in groups[i] ==> x !in groups[j])
    && (forall x :: x in Endpoints(es) <==> exists i :: 0 <= i < |groups| && x in groups[i])
    && (forall i, a, b :: 0 <= i < |groups| && a in groups[i] && Adjacent(es, a, b) ==> b in groups[i])
    && (forall i, a, b :: 0 <= i < |groups| && a in groups[i] && b in groups[i] ==> Connected(es, a, b))
  }

  /** The groups as a set of sets: what is left when the order of the groups
      and the order inside each group are forgotten. */
  ghost function GroupSets(groups: seq<seq<nat>>): set<set<nat>> {
    set i | 0 <= i < |groups| :: Members(groups[i])
  }

  function Members(g: seq<nat>): set<nat> {
    set x | x in g
  }

  // ---------------------------------------------------------------------
  // Paths

  lemma AdjacentSymmetric(es: seq<Edge>, a: nat, b: nat)
    requires Adjacent(es, a, b)
    ensures Adjacent(es, b, a)
  {
  }

  lemma AdjacentEndpoints(es: seq<Edge>, a: nat, b: nat)
    requires Adjacent(es, a, b)
    ensures a in Endpoints(es) && b in Endpoints(es)
  {
    var k :| 0 <= k < |es| && ((es[k].0 == a && es[k].1 == b) || (es[k].0 == b && es[k].1 == a));
    assert es[k].0 in Endpoints(es) && es[k].1 in Endpoints(es);
  }

  lemma ConnectedRefl(es: seq<Edge>, a: nat)
    ensures Connected(es, a, a)
  {
    var p := [a];
    assert IsPath(es, p) && p[0] == a && p[|p| - 1] == a;
  }

  lemma ConnectedEdge(es: seq<Edge>, a: nat, b: nat)
    requires Adjacent(es, a, b)
    ensures Connected(es, a, b)
  {
    var p := [a, b];
    assert IsPath(es, p) && p[0] == a && p[|p| - 1] == b;
  }

  lemma ConnectedSym(es: seq<Edge>, a: nat, b: nat)
    requires Connected(es, a, b)
    ensures Connected(es, b, a)
  {
    var p :| IsPath(es, p) && p[0] == a && p[|p| - 1] == b;
    var n := |p|;
    var r := seq(n, i requires 0 <= i < n => p[n - 1 - i]);
    forall i | 0 <= i < n - 1
      ensures Adjacent(es, r[i], r[i + 1])
    {
      assert Adjacent(es, p[n - 2 - i], p[n - 1 - i]);
      AdjacentSymmetric(es, p[n - 2 - i], p[n - 1 - i]);
    }
    assert IsPath(es, r) && r[0] == b && r[n - 1] == a;
  }

  lemma ConnectedTrans(es: seq<Edge>, a: nat, b: nat, c: nat)
    requires Connected(es, a, b) && Connected(es, b, c)
    ensures Connected(es, a, c)
  {
    var p :| IsPath(es, p) && p[0] == a && p[|p| - 1] == b;
    var q :| IsPath(es, q) && q[0] == b && q[|q| - 1] == c;
    var r := p + q[1..];
    forall i | 0 <= i < |r| - 1
      ensures Adjacent(es, r[i], r[i + 1])
    {
      if i < |p| - 1 {
        assert r[i] == p[i] && r[i + 1] == p[i + 1];
      } else {
        assert r[i] == q[i - |p| + 1] && r[i + 1] == q[i - |p| + 2];
      }
    }
    assert r[|r| - 1] == c by {
      if |q| == 1 {
        assert r == p;
      } else {
        assert r[|r| - 1] == q[|q| - 1];
      }
    }
    assert IsPath(es, r) && r[0] == a;
  }

  /** A walk that starts inside a closed set stays inside it. */
  lemma {:induction false} ClosedPath(es: seq<Edge>, s: set<nat>, p: seq<nat>)
    requires Closed(es, s) && IsPath(es, p) && p[0] in s
    ensures p[|p| - 1] in s
    decreases |p|
  {
    if |p| > 1 {
      var init := p[..|p| - 1];
      assert IsPath(es, init) by {
        forall i | 0 <= i < |init| - 1
          ensures Adjacent(es, init[i], init[i + 1])
        {
          assert init[i] == p[i] && init[i + 1] == p[i + 1];
        }
      }
      ClosedPath(es, s, init);
      assert Adjacent(es, p[|p| - 2], p[|p| - 1]);
    }
  }

  /** Everything connected to a member of a closed set is in it. */
  lemma ClosedContainsConnected(es: seq<Edge>, s: set<nat>, a: nat, b: nat)
    requires Closed(es, s) && a in s && Connected(es, a, b)
    ensures b in s
  {
    var p :| IsPath(es, p) && p[0] == a && p[|p| - 1] == b;
    ClosedPath(es, s, p);
  }

  /** Two pair lists with the same unordered edges have the same adjacency. */
  lemma SameEdgesSameAdjacency(es1: seq<Edge>, es2: seq<Edge>, a: nat, b: nat)
    requires EdgeSet(es1) == EdgeSet(es2)
    requires Adjacent(es1, a, b)
    ensures Adjacent(es2, a, b)
  {
    var k :| 0 <= k < |es1| && ((es1[k].0 == a && es1[k].1 == b) || (es1[k].0 == b && es1[k].1 == a));
    assert {a, b} == {es1[k].0, es1[k].1};
    assert {a, b} in EdgeSet(es2);
    var m :| 0 <= m < |es2| && {es2[m].0, es2[m].1} == {a, b};
    assert es2[m].0 in {a, b} && es2[m].1 in {a, b};
    assert a in {es2[m].0, es2[m].1} && b in {es2[m].0, es2[m].1};
  }

  lemma SameEdgesSameConnected(es1: seq<Edge>, es2: seq<Edge>, a: nat, b: nat)
    requires EdgeSet(es1) == EdgeSet(es2)
    requires Connected(es1, a, b)
    ensures Connected(es2, a, b)
  {
    var p :| IsPath(es1, p) && p[0] == a && p[|p| - 1] == b;
    forall i | 0 <= i < |p| - 1
      ensures Adjacent(es2, p[i], p[i + 1])
    {
      SameEdgesSameAdjacency(es1, es2, p[i], p[i + 1]);
    }
    assert IsPath(es2, p);
  }

  lemma SameEdgesSameEndpoints(es1: seq<Edge>, es2: seq<Edge>)
    requires EdgeSet(es1) == EdgeSet(es2)
    ensures Endpoints(es1) <= Endpoints(es2)
  {
    forall x | x in Endpoints(es1)
      ensures x in Endpoints(es2)
    {
      var k :| 0 <= k < |es1| && (es1[k].0 == x || es1[k].1 == x);
      assert Adjacent(es1, es1[k].0, es1[k].1);
      SameEdgesSameAdjacency(es1, es2, es1[k].0, es1[k].1);
      AdjacentEndpoints(es2, es1[k].0, es1[k].1);
    }
  }

  // ---------------------------------------------------------------------
  // What a list of components promises

  /** Both endpoints of every pair are in one and the same group. */
  lemma PairInOneGroup(es: seq<Edge>, groups: seq<seq<nat>>, k: nat)
    requires IsComponents(es, groups)
    requires k < |es|
    ensures exists i :: 0 <= i < |groups| && es[k].0 in groups[i] && es[k].1 in groups[i]
  {
    assert es[k].0 in Endpoints(es);
    var i :| 0 <= i < |groups| && es[k].0 in groups[i];
    assert Adjacent(es, es[k].0, es[k].1);
  }

  /** An index is in at most one group, and at most once there. */
  lemma MemberOfOneGroup(es: seq<Edge>, groups: seq<seq<nat>>, i: nat, j: nat, m: nat, n: nat)
    requires IsComponents(es, groups)
    requires i < |groups| && j < |groups| && m < |groups[i]| && n < |groups[j]|
    requires groups[i][m] == groups[j][n]
    ensures i == j && m == n
  {
    assert groups[i][m] in groups[i] && groups[j][n] in groups[j];
  }

  /** Indices in different groups are not connected by any chain of pairs. */
  lemma GroupsNotConnected(es: seq<Edge>, groups: seq<seq<nat>>, i: nat, j: nat, a: nat, b: nat)
    requires IsComponents(es, groups)
    requires i < |groups| && j < |groups| && i != j
    requires a in groups[i] && b in groups[j]
    ensures !Connected(es, a, b)
  {
    if Connected(es, a, b) {
      var s := set x | x in groups[i];
      assert Closed(es, s);
      ClosedContainsConnected(es, s, a, b);
      assert false;
    }
  }

  /** Each group is a whole component: exactly the indices connected to any
      one of its members. */
  lemma GroupIsComponent(es: seq<Edge>, groups: seq<seq<nat>>, i: nat, a: nat, b: nat)
    requires IsComponents(es, groups)
    requires i < |groups| && a in groups[i]
    ensures b in groups[i] <==> Connected(es, a, b)
  {
    if Connected(es, a, b) {
      var s := set x | x in groups[i];
      assert Closed(es, s);
      ClosedContainsConnected(es, s, a, b);
    }
  }

  /** The partition depends only on the set of unordered pairs: not on their
      order, their orientation or repetitions, and not on the traversal order. */
  lemma ComponentsDependOnEdgeSet(es1: seq<Edge>, es2: seq<Edge>, g1: seq<seq<nat>>, g2: seq<seq<nat>>)
    requires IsComponents(es1, g1) && IsComponents(es2, g2)
    requires EdgeSet(es1) == EdgeSet(es2)
    ensures GroupSets(g1) == GroupSets(g2)
  {
    ComponentsIncluded(es1, es2, g1, g2);
    ComponentsIncluded(es2, es1, g2, g1);
  }

  lemma ComponentsIncluded(es1: seq<Edge>, es2: seq<Edge>, g1: seq<seq<nat>>, g2: seq<seq<nat>>)
    requires IsComponents(es1, g1) && IsComponents(es2, g2)
    requires EdgeSet(es1) == EdgeSet(es2)
    ensures GroupSets(g1) <= GroupSets(g2)
  {
    forall s | s in GroupSets(g1)
      ensures s in GroupSets(g2)
    {
      var i :| 0 <= i < |g1| && s == Members(g1[i]);
      var a := g1[i][0];
      SameEdgesSameEndpoints(es1, es2);
      assert a in Endpoints(es1);
      var j :| 0 <= j < |g2| && a in g2[j];
      var t := Members(g2[j]);
      forall b
        ensures b in s <==> b in t
      {
        GroupIsComponent(es1, g1, i, a, b);
        GroupIsComponent(es2, g2, j, a, b);
        if Connected(es1, a, b) {
          SameEdgesSameConnected(es1, es2, a, b);
        }
        if Connected(es2, a, b) {
          SameEdgesSameConnected(es2, es1, a, b);
        }
      }
      assert s == t;
      assert t in GroupSets(g2);
    }
  }

  /** Reordering the pairs keeps the edge set. */
  lemma PermutedEdgesSameEdgeSet(es1: seq<Edge>, es2: seq<Edge>)
    requires multiset(es1) == multiset(es2)
    ensures EdgeSet(es1) == EdgeSet(es2)
  {
    forall e | e in EdgeSet(es1)
      ensures e in EdgeSet(es2)
    {
      var k :| 0 <= k < |es1| && e == {es1[k].0, es1[k].1};
      assert es1[k] in multiset(es2);
      var m :| 0 <= m < |es2| && es2[m] == es1[k];
    }
    forall e | e in EdgeSet(es2)
      ensures e in EdgeSet(es1)
    {
      var k :| 0 <= k < |es2| && e == {es2[k].0, es2[k].1};
      assert es2[k] in multiset(es1);
      var m :| 0 <= m < |es1| && es1[m] == es2[k];
    }
  }
}
