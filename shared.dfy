/** The types both comparison modes share, the threshold rule their
    comparison threads apply, and the grouping of accepted pairs into
    connected components (`make_groups`, `make_groups_and_exec`). */
module Shared {
  import opened Basics
  import opened Connectivity
  import opened Text
  import opened Wrappers

  /** A similarity score as the comparison returns it: a number, or NaN
      (cosine similarity of a zero vector). */
  datatype Score = Value(v: real) | NaN

  /** Two dense indices to compare. */
  datatype CompareTask = CompareTask(index1: nat, index2: nat)

  /** A compared pair with its score. */
  datatype Pairing = Pairing(index1: nat, index2: nat, score: Score)

  // ---------------------------------------------------------------------
  // Threshold filter

  /** `pairing.score > threshold` on an f64: strict, and false for NaN. */
  predicate Accepts(score: Score, threshold: real) {
    score.Value? && score.v > threshold
  }

  /** The pairings a comparison thread forwards, in the order it receives
      their tasks. */
  function KeepAccepted(scored: seq<Pairing>, threshold: real): (r: seq<Pairing>)
    decreases |scored|
  {
    if |scored| == 0 then []
    else
      var init := KeepAccepted(scored[..|scored| - 1], threshold);
      var last := scored[|scored| - 1];
      if Accepts(last.score, threshold) then init + [last] else init
  }

  /** A pairing is forwarded exactly when it was scored and its score is
      strictly above the threshold; a score equal to the threshold, or NaN,
      is dropped. */
  lemma {:induction false} KeepAcceptedSpec(scored: seq<Pairing>, threshold: real)
    ensures forall p :: p in KeepAccepted(scored, threshold) <==> p in scored && Accepts(p.score, threshold)
    ensures forall p :: p in KeepAccepted(scored, threshold) ==> p.score != Value(threshold) && p.score != NaN
    ensures |KeepAccepted(scored, threshold)| <= |scored|
    decreases |scored|
  {
    if |scored| > 0 {
      var init := scored[..|scored| - 1];
      KeepAcceptedSpec(init, threshold);
      assert scored == init + [scored[|scored| - 1]];
    }
  }

  /** Filtering respects concatenation, so a thread's output is the
      concatenation of what it forwards for each part of its input:
      forwarding keeps the arrival order. */
  lemma {:induction false} KeepAcceptedAppend(a: seq<Pairing>, b: seq<Pairing>, threshold: real)
    ensures KeepAccepted(a + b, threshold) == KeepAccepted(a, threshold) + KeepAccepted(b, threshold)
    decreases |b|
  {
    if |b| == 0 {
      assert a + b == a;
    } else {
      var b' := b[..|b| - 1];
      assert (a + b)[..|a + b| - 1] == a + b';
      KeepAcceptedAppend(a, b', threshold);
    }
  }

  /** Each task with the score `similarity` gives it, in task order. */
  function Scored(tasks: seq<CompareTask>, similarity: (nat, nat) -> Score): (r: seq<Pairing>)
    ensures |r| == |tasks|
  {
    seq(|tasks|, k requires 0 <= k < |tasks| =>
      Pairing(tasks[k].index1, tasks[k].index2, similarity(tasks[k].index1, tasks[k].index2)))
  }

  /** One comparison thread: receives tasks, scores each pair (the
      comparison itself is the opaque `similarity`), and forwards a pairing
      only when its score is strictly above the threshold. What it forwards
      is the threshold filter of the scored tasks. */
  method CompareWorker(tasks: seq<CompareTask>, similarity: (nat, nat) -> Score, threshold: real)
    returns (sent: seq<Pairing>)
    ensures sent == KeepAccepted(Scored(tasks, similarity), threshold)
  {
    sent := [];
    var i := 0;
    while i < |tasks|
      invariant 0 <= i <= |tasks|
      invariant sent == KeepAccepted(Scored(tasks[..i], similarity), threshold)
    {
      var task := tasks[i];
      var pairing := Pairing(task.index1, task.index2, similarity(task.index1, task.index2));
      assert Scored(tasks[..i + 1], similarity)[..i] == Scored(tasks[..i], similarity);
      if pairing.score.Value? && pairing.score.v > threshold {
        sent := sent + [pairing];
      }
      i := i + 1;
    }
    assert tasks[..|tasks|] == tasks;
  }

  // ---------------------------------------------------------------------
  // Grouping: the graph

  /** The indices of each pairing, as an edge; the score plays no part. */
  function Edges(pairs: seq<Pairing>): (es: seq<Edge>)
    ensures |es| == |pairs|
    ensures forall k :: 0 <= k < |pairs| ==> es[k] == (pairs[k].index1, pairs[k].index2)
  {
    seq(|pairs|, k requires 0 <= k < |pairs| => (pairs[k].index1, pairs[k].index2))
  }

  /** What one pair appends to the neighbour list of `x`: first the push for
      `node1`, then the one for `node2` (a self-pair pushes `x` twice). */
  function Contribution(e: Edge, x: nat): seq<nat> {
    (if e.0 == x then [e.1] else []) + (if e.1 == x then [e.0] else [])
  }

  /** The neighbour list of `x` after all pairs have been pushed, in push order. */
  function NeighborsOf(es: seq<Edge>, x: nat): seq<nat>
    decreases |es|
  {
    if |es| == 0 then [] else NeighborsOf(es[..|es| - 1], x) + Contribution(es[|es| - 1], x)
  }

  /** The neighbour list of `x` holds exactly the indices adjacent to it. */
  lemma {:induction false} NeighborsOfAdjacent(es: seq<Edge>, x: nat, y: nat)
    ensures y in NeighborsOf(es, x) <==> Adjacent(es, x, y)
    decreases |es|
  {
    if |es| > 0 {
      var init := es[..|es| - 1];
      var e := es[|es| - 1];
      NeighborsOfAdjacent(init, x, y);
      assert y in Contribution(e, x) <==> (e.0 == x && e.1 == y) || (e.1 == x && e.0 == y);
      if Adjacent(es, x, y) {
        var k :| 0 <= k < |es| && ((es[k].0 == x && es[k].1 == y) || (es[k].0 == y && es[k].1 == x));
        if k < |es| - 1 {
          assert init[k] == es[k];
        }
      }
      if Adjacent(init, x, y) {
        var k :| 0 <= k < |init| && ((init[k].0 == x && init[k].1 == y) || (init[k].0 == y && init[k].1 == x));
        assert es[k] == init[k];
      }
    }
  }

  /** `graph` is the adjacency map `make_groups` builds from `es`: one key per
      endpoint, mapped to its neighbour list. */
  ghost predicate IsGraphOf(graph: map<nat, seq<nat>>, es: seq<Edge>) {
    && graph.Keys == Endpoints(es)
    && forall x :: x in graph ==> graph[x] == NeighborsOf(es, x)
  }

  lemma NeighborIsKey(graph: map<nat, seq<nat>>, es: seq<Edge>, x: nat, y: nat)
    requires IsGraphOf(graph, es) && x in graph && y in graph[x]
    ensures y in graph && Adjacent(es, x, y)
  {
    NeighborsOfAdjacent(es, x, y);
    AdjacentEndpoints(es, x, y);
  }

  /** Every neighbour in `graph` is a key and an adjacent index: all the
      traversal needs to know about the adjacency map. */
  ghost predicate Sound(graph: map<nat, seq<nat>>, es: seq<Edge>) {
    forall x, y :: x in graph && y in graph[x] ==> y in graph && Adjacent(es, x, y)
  }

  lemma GraphIsSound(graph: map<nat, seq<nat>>, es: seq<Edge>)
    requires IsGraphOf(graph, es)
    ensures Sound(graph, es)
  {
    forall x, y | x in graph && y in graph[x]
      ensures y in graph && Adjacent(es, x, y)
    {
      NeighborIsKey(graph, es, x, y);
    }
  }

  lemma EndpointsSnoc(es: seq<Edge>, e: Edge)
    ensures Endpoints(es + [e]) == Endpoints(es) + {e.0, e.1}
  {
    var es' := es + [e];
    forall x | x in Endpoints(es')
      ensures x in Endpoints(es) + {e.0, e.1}
    {
      var k :| 0 <= k < |es'| && (es'[k].0 == x || es'[k].1 == x);
      if k < |es| {
        assert es'[k] == es[k];
      }
    }
    forall x | x in Endpoints(es)
      ensures x in Endpoints(es')
    {
      var k :| 0 <= k < |es| && (es[k].0 == x || es[k].1 == x);
      assert es'[k] == es[k];
    }
    assert es'[|es|] == e;
  }

  /** `graph.entry(key).or_default().push(value)`. */
  function Push(graph: map<nat, seq<nat>>, key: nat, value: nat): map<nat, seq<nat>> {
    graph[key := ListOf(graph, key) + [value]]
  }

  /** Pushing both directions of one more pair keeps the map the adjacency
      map of the longer pair list. */
  lemma PushPair(graph: map<nat, seq<nat>>, es: seq<Edge>, e: Edge)
    requires IsGraphOf(graph, es)
    ensures IsGraphOf(Push(Push(graph, e.0, e.1), e.1, e.0), es + [e])
  {
    var es' := es + [e];
    var g1 := Push(graph, e.0, e.1);
    var g2 := Push(g1, e.1, e.0);
    assert es'[..|es'| - 1] == es;
    EndpointsSnoc(es, e);
    assert g2.Keys == graph.Keys + {e.0, e.1};
    forall x | x in g2
      ensures g2[x] == NeighborsOf(es', x)
    {
      NeighborsBefore(graph, es, x);
      PushPairAt(graph, es, e, x);
    }
  }

  /** One key's list after both pushes of `e`. */
  lemma PushPairAt(graph: map<nat, seq<nat>>, es: seq<Edge>, e: Edge, x: nat)
    requires ListOf(graph, x) == NeighborsOf(es, x)
    ensures ListOf(Push(Push(graph, e.0, e.1), e.1, e.0), x) == NeighborsOf(es + [e], x)
  {
    var es' := es + [e];
    var g1 := Push(graph, e.0, e.1);
    assert es'[..|es'| - 1] == es;
    PushList(graph, e.0, e.1, x);
    PushList(g1, e.1, e.0, x);
    assert ListOf(Push(g1, e.1, e.0), x) == ListOf(graph, x) + Contribution(e, x);
  }

  /** The list of `x` in `graph`, empty when `x` is no key. */
  function ListOf(graph: map<nat, seq<nat>>, x: nat): seq<nat> {
    if x in graph then graph[x] else []
  }

  /** A push appends to the pushed key's list and to no other. */
  lemma PushList(graph: map<nat, seq<nat>>, key: nat, value: nat, x: nat)
    ensures ListOf(Push(graph, key, value), x) == ListOf(graph, x) + (if x == key then [value] else [])
  {
  }

  /** A key's list is its neighbour list, and a non-key has none. */
  lemma NeighborsBefore(graph: map<nat, seq<nat>>, es: seq<Edge>, x: nat)
    requires IsGraphOf(graph, es)
    ensures ListOf(graph, x) == NeighborsOf(es, x)
  {
    if x !in graph && NeighborsOf(es, x) != [] {
      NeighborsOfAdjacent(es, x, NeighborsOf(es, x)[0]);
      AdjacentEndpoints(es, x, NeighborsOf(es, x)[0]);
    }
  }

  /** Fills the adjacency map, one pair at a time (src/shared.rs:42-51). */
  method BuildGraph(pairs: seq<Pairing>) returns (graph: map<nat, seq<nat>>)
    ensures IsGraphOf(graph, Edges(pairs))
  {
    ghost var es := Edges(pairs);
    graph := map[];
    var i := 0;
    while i < |pairs|
      invariant 0 <= i <= |pairs|
      invariant IsGraphOf(graph, es[..i])
    {
      var node1 := pairs[i].index1;
      var node2 := pairs[i].index2;
      PushPair(graph, es[..i], es[i]);
      assert es[..i + 1] == es[..i] + [es[i]];
      graph := Push(graph, node1, node2);
      graph := Push(graph, node2, node1);
      i := i + 1;
    }
    assert es[..|pairs|] == es;
  }

  // ---------------------------------------------------------------------
  // Grouping: the traversal

  /** What a traversal from `node` has appended so far (`added`) and how the
      visited set grew: `added` repeats nothing, starts with `node`, holds
      exactly the newly visited indices, and all of them are connected to
      `node`. */
  ghost predicate Explored(es: seq<Edge>, node: nat, visited: set<nat>, visitedOut: set<nat>, added: seq<nat>) {
    && |added| > 0 && added[0] == node
    && Distinct(added)
    && visitedOut == visited + Members(added)
    && (forall y :: y in added ==> y !in visited && Connected(es, node, y))
  }

  /** Every neighbour of every index in `s` is visited. */
  ghost predicate Expanded(graph: map<nat, seq<nat>>, s: seq<nat>, visitedOut: set<nat>) {
    forall y, z :: y in s && y in graph && z in graph[y] ==> z in visitedOut
  }

  /** The recursive `dfs` (src/shared.rs:57-73): marks `node` visited, appends
      it to `group`, then visits every neighbour not yet visited, in
      neighbour-list order. What it appends is a repetition-free list of
      indices that were unvisited and are connected to `node`, and every
      neighbour of what it appends is visited when it returns. */
  method Dfs(node: nat, graph: map<nat, seq<nat>>, visited: set<nat>, group: seq<nat>, ghost es: seq<Edge>)
    returns (visitedOut: set<nat>, groupOut: seq<nat>, ghost added: seq<nat>)
    requires Sound(graph, es)
    requires node in graph && node !in visited
    ensures groupOut == group + added
    ensures visitedOut <= visited + graph.Keys
    ensures Explored(es, node, visited, visitedOut, added)
    ensures Expanded(graph, added, visitedOut)
    decreases graph.Keys - visited
  {
    visitedOut := visited + {node};
    groupOut := group + [node];
    added := [node];
    ConnectedRefl(es, node);
    assert Members(added) == {node};
    // `graph.get(&node)` always finds the node: it is a key.
    var neighbors := graph[node];
    var i := 0;
    while i < |neighbors|
      invariant 0 <= i <= |neighbors|
      invariant groupOut == group + added
      invariant visitedOut <= visited + graph.Keys
      invariant Explored(es, node, visited, visitedOut, added)
      invariant Expanded(graph, added[1..], visitedOut)
      invariant forall k :: 0 <= k < i ==> neighbors[k] in visitedOut
    {
      var neighbor := neighbors[i];
      if neighbor !in visitedOut {
        assert graph.Keys - visitedOut < graph.Keys - visited by {
          assert node in graph.Keys - visited && node !in graph.Keys - visitedOut;
        }
        ghost var visitedBefore := visitedOut;
        ghost var more;
        visitedOut, groupOut, more := Dfs(neighbor, graph, visitedOut, groupOut, es);
        DfsStep(es, graph, node, neighbor, visited, visitedBefore, visitedOut, added, more);
        added := added + more;
      }
      i := i + 1;
    }
    DfsDone(graph, node, neighbors, added, visitedOut);
  }

  /** Once every neighbour of `node` is visited, the traversal from `node`
      has expanded everything it appended. */
  lemma DfsDone(graph: map<nat, seq<nat>>, node: nat, neighbors: seq<nat>, added: seq<nat>, visitedOut: set<nat>)
    requires node in graph && graph[node] == neighbors
    requires |added| > 0 && added[0] == node
    requires Expanded(graph, added[1..], visitedOut)
    requires forall k :: 0 <= k < |neighbors| ==> neighbors[k] in visitedOut
    ensures Expanded(graph, added, visitedOut)
  {
    assert added == [node] + added[1..];
  }

  /** The bookkeeping `Dfs` needs after a recursive call: the indices the
      call appended join those already appended. */
  lemma DfsStep(es: seq<Edge>, graph: map<nat, seq<nat>>, node: nat, neighbor: nat,
                visited: set<nat>, visitedMid: set<nat>, visitedOut: set<nat>, added: seq<nat>, more: seq<nat>)
    requires Adjacent(es, node, neighbor)
    requires Explored(es, node, visited, visitedMid, added)
    requires Expanded(graph, added[1..], visitedMid)
    requires Explored(es, neighbor, visitedMid, visitedOut, more)
    requires Expanded(graph, more, visitedOut)
    requires visitedMid <= visitedOut
    ensures Explored(es, node, visited, visitedOut, added + more)
    ensures Expanded(graph, (added + more)[1..], visitedOut)
  {
    var all := added + more;
    DistinctAppend(added, more);
    assert Members(all) == Members(added) + Members(more);
    forall y | y in more
      ensures Connected(es, node, y)
    {
      ConnectedEdge(es, node, neighbor);
      ConnectedTrans(es, node, neighbor, y);
    }
    assert all[1..] == added[1..] + more;
  }

  lemma DistinctAppend(a: seq<nat>, b: seq<nat>)
    requires Distinct(a) && Distinct(b)
    requires forall x :: x in b ==> x !in Members(a)
    ensures Distinct(a + b)
  {
    forall i, j | 0 <= i < j < |a + b|
      ensures (a + b)[i] != (a + b)[j]
    {
      if i < |a| && j >= |a| {
        assert (a + b)[j] == b[j - |a|] && b[j - |a|] in b;
        assert (a + b)[i] == a[i] && a[i] in Members(a);
      }
    }
  }

  /** The groups collected so far are components that together hold exactly
      the visited indices: the invariant of the loop in `make_groups`. */
  ghost predicate PartialComponents(es: seq<Edge>, groups: seq<seq<nat>>, visited: set<nat>) {
    && (forall x :: x in visited <==> exists i :: 0 <= i < |groups| && x in groups[i])
    && (forall i :: 0 <= i < |groups| ==> |groups[i]| > 0 && Distinct(groups[i]))
    && (forall i, j, x :: 0 <= i < j < |groups| && x in groups[i] ==> x !in groups[j])
    && (forall i, a, b :: 0 <= i < |groups| && a in groups[i] && Adjacent(es, a, b) ==> b in groups[i])
    && (forall i, a, b :: 0 <= i < |groups| && a in groups[i] && b in groups[i] ==> Connected(es, a, b))
  }

  /** `make_groups` (src/shared.rs:41-84): builds the adjacency map, then
      starts a traversal at every key not yet visited (in the map's
      unspecified key order) and collects one group per traversal. The
      result lists the connected components of the pairs. */
  method MakeGroups(pairs: seq<Pairing>) returns (groups: seq<seq<nat>>)
    ensures IsComponents(Edges(pairs), groups)
  {
    ghost var es := Edges(pairs);
    var graph := BuildGraph(pairs);
    var visited: set<nat> := {};
    groups := [];
    var keys := graph.Keys;
    while keys != {}
      invariant keys <= graph.Keys && visited <= graph.Keys
      invariant graph.Keys - keys <= visited
      invariant PartialComponents(es, groups, visited)
      decreases keys
    {
      var node :| node in keys;
      keys := keys - {node};
      if node !in visited {
        var group;
        ghost var visitedBefore := visited;
        ghost var added;
        GraphIsSound(graph, es);
        visited, group, added := Dfs(node, graph, visited, [], es);
        assert group == added;
        AppendGroup(es, graph, groups, visitedBefore, visited, group, node);
        groups := groups + [group];
      }
    }
    assert visited == Endpoints(es);
  }

  /** The group a traversal returns is one more component: appending it keeps
      the loop invariant of `make_groups`. */
  lemma AppendGroup(es: seq<Edge>, graph: map<nat, seq<nat>>, groups: seq<seq<nat>>,
                    visited: set<nat>, visitedOut: set<nat>, group: seq<nat>, node: nat)
    requires IsGraphOf(graph, es) && visitedOut <= graph.Keys
    requires PartialComponents(es, groups, visited)
    requires Explored(es, node, visited, visitedOut, group)
    requires Expanded(graph, group, visitedOut)
    ensures PartialComponents(es, groups + [group], visitedOut)
  {
    var groups' := groups + [group];
    assert groups'[|groups|] == group;
    forall a, b | a in group && Adjacent(es, a, b)
      ensures b in group
    {
      NeighborsOfAdjacent(es, a, b);
      assert b in graph[a];
      if b in visited {
        var i :| 0 <= i < |groups| && b in groups[i];
        AdjacentSymmetric(es, a, b);
        assert false;
      }
    }
    forall a, b | a in group && b in group
      ensures Connected(es, a, b)
    {
      ConnectedSym(es, node, a);
      ConnectedTrans(es, a, node, b);
    }
    forall x | x in visitedOut
      ensures exists i :: 0 <= i < |groups'| && x in groups'[i]
    {
      if x in visited {
        var i :| 0 <= i < |groups| && x in groups[i];
        assert groups'[i] == groups[i];
      } else {
        assert x in groups'[|groups|];
      }
    }
    forall i, j, x | 0 <= i < j < |groups'| && x in groups'[i]
      ensures x !in groups'[j]
    {
      if j == |groups| {
        assert groups'[i] == groups[i];
      }
    }
  }

  // ---------------------------------------------------------------------
  // Grouping output

  /** `name_map[*index]` for each index of the group, in group order. */
  function NameGroup(nameMap: seq<string>, group: seq<nat>): (names: seq<string>)
    requires forall k :: 0 <= k < |group| ==> group[k] < |nameMap|
    ensures |names| == |group|
    ensures forall k :: 0 <= k < |group| ==> names[k] == nameMap[group[k]]
  {
    seq(|group|, k requires 0 <= k < |group| => nameMap[group[k]])
  }

  /** The line printed for a group: its names joined by single spaces. */
  function GroupLine(nameMap: seq<string>, group: seq<nat>): string
    requires forall k :: 0 <= k < |group| ==> group[k] < |nameMap|
  {
    Join(NameGroup(nameMap, group), ' ')
  }

  /** A program run: the program and its whole argument list. */
  datatype Invocation = Invocation(program: string, args: seq<string>)

  /** A printed group line splits back into the group's names, one per
      index, provided no name contains a space. */
  lemma GroupLineRoundTrip(nameMap: seq<string>, group: seq<nat>)
    requires forall k :: 0 <= k < |group| ==> group[k] < |nameMap|
    requires |group| > 0
    requires forall k :: 0 <= k < |group| ==> ' ' !in nameMap[group[k]]
    ensures Split(GroupLine(nameMap, group), ' ') == NameGroup(nameMap, group)
  {
    SplitJoin(NameGroup(nameMap, group), ' ');
  }

  /** `make_groups_and_exec` (src/shared.rs:19-39): groups the pairings, prints
      one line per group and, when an executable is given, runs it once per
      group with the group's names after its own arguments. Every index must
      name an entry of `nameMap` (the Rust indexes it and would panic). */
  method MakeGroupsAndExec(nameMap: seq<string>, pairings: seq<Pairing>, executable: Option<(string, seq<string>)>)
    returns (groups: seq<seq<nat>>, lines: seq<string>, runs: seq<Invocation>)
    requires forall k :: 0 <= k < |pairings| ==> pairings[k].index1 < |nameMap| && pairings[k].index2 < |nameMap|
    ensures IsComponents(Edges(pairings), groups)
    ensures |lines| == |groups|
    ensures forall i :: 0 <= i < |groups| ==> forall k :: 0 <= k < |groups[i]| ==> groups[i][k] < |nameMap|
    ensures forall i :: 0 <= i < |groups| ==> lines[i] == Join(NameGroup(nameMap, groups[i]), ' ')
    ensures executable.None? ==> runs == []
    ensures executable.Some? ==> |runs| == |groups| && forall i :: 0 <= i < |groups| ==>
      runs[i] == Invocation(executable.value.0, executable.value.1 + NameGroup(nameMap, groups[i]))
  {
    groups := MakeGroups(pairings);
    ghost var es := Edges(pairings);
    forall i, k | 0 <= i < |groups| && 0 <= k < |groups[i]|
      ensures groups[i][k] < |nameMap|
    {
      assert groups[i][k] in groups[i];
      assert groups[i][k] in Endpoints(es);
      var m :| 0 <= m < |es| && (es[m].0 == groups[i][k] || es[m].1 == groups[i][k]);
    }
    lines := [];
    runs := [];
    var i := 0;
    while i < |groups|
      invariant 0 <= i <= |groups|
      invariant |lines| == i
      invariant forall j :: 0 <= j < i ==> lines[j] == Join(NameGroup(nameMap, groups[j]), ' ')
      invariant executable.None? ==> runs == []
      invariant executable.Some? ==> |runs| == i && forall j :: 0 <= j < i ==>
        runs[j] == Invocation(executable.value.0, executable.value.1 + NameGroup(nameMap, groups[j]))
    {
      var nameGroup := NameGroup(nameMap, groups[i]);
      lines := lines + [Join(nameGroup, ' ')];
      if executable.Some? {
        runs := runs + [Invocation(executable.value.0, executable.value.1 + nameGroup)];
      }
      i := i + 1;
    }
  }
}
