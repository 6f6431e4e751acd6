/** The ancestor walk behind `specializationOf` on statistical-variable
    groups (lines 164-193 of internal/server/v2/propertyvalues/api.go):
    starting from a group, repeatedly pick one parent from the parent
    cache, preferring a custom-import group, until the root is chosen or
    a group without cached parents is reached. */
module SpecializationWalk {
  import opened PropertyValueTypes

  /** cache.ParentSvg: group -> its parent groups, in cache order. */
  type ParentCache = map<NodeId, seq<NodeId>>

  // ---------------------------------------------------------------------
  // Choosing the next ancestor

  /** The index of the first custom-import group in `parents`, if any. */
  function FirstCustomIndex(parents: seq<NodeId>): (r: Option<nat>)
    ensures r.Some? ==>
      && r.value < |parents|
      && IsCustomGroup(parents[r.value])
      && forall j :: 0 <= j < r.value ==> !IsCustomGroup(parents[j])
    ensures r.None? ==> forall j :: 0 <= j < |parents| ==> !IsCustomGroup(parents[j])
  {
    if parents == [] then None
    else if IsCustomGroup(parents[0]) then Some(0)
    else match FirstCustomIndex(parents[1..])
      case None => None
      case Some(i) => Some(i + 1)
  }

  /** The first parent by default, overridden by the first custom-import
      parent when there is one. */
  function PreferredParent(parents: seq<NodeId>): (r: NodeId)
    requires |parents| > 0
    ensures r in parents
  {
    match FirstCustomIndex(parents)
    case Some(i) => parents[i]
    case None => parents[0]
  }

  /** The tie-break rule: a custom-import parent wins over any other
      parent, the earliest one among several; otherwise the first parent
      is taken. */
  lemma PreferredParentRule(parents: seq<NodeId>)
    requires |parents| > 0
    ensures (exists i :: 0 <= i < |parents| && IsCustomGroup(parents[i])) <==> IsCustomGroup(PreferredParent(parents))
    ensures IsCustomGroup(PreferredParent(parents)) ==>
      exists k :: 0 <= k < |parents| && parents[k] == PreferredParent(parents) &&
        forall j :: 0 <= j < k ==> !IsCustomGroup(parents[j])
    ensures !IsCustomGroup(PreferredParent(parents)) ==> PreferredParent(parents) == parents[0]
  {
  }

  /** The parent scan of one step of the walk. */
  method ChooseParent(parents: seq<NodeId>) returns (curr: NodeId)
    requires |parents| > 0
    ensures curr == PreferredParent(parents)
  {
    curr := parents[0];
    var i := 0;
    while i < |parents|
      invariant 0 <= i <= |parents|
      invariant curr == parents[0]
      invariant forall j :: 0 <= j < i ==> !IsCustomGroup(parents[j])
    {
      if IsCustomGroup(parents[i]) {
        curr := parents[i];
        break;
      }
      i := i + 1;
    }
  }

  // ---------------------------------------------------------------------
  // Termination of the walk

  /** The walk from `curr` stops within `fuel` attached hops and never
      meets a cached group with an empty parent list. */
  predicate WalkWithin(cache: ParentCache, curr: NodeId, fuel: nat)
    decreases fuel
  {
    || curr !in cache
    || (&& |cache[curr]| > 0
        && var next := PreferredParent(cache[curr]);
           next == SvgRoot || (fuel > 0 && WalkWithin(cache, next, fuel - 1)))
  }

  /** The walk from `node` stops: what the walk demands of the cache. */
  ghost predicate WalkStops(cache: ParentCache, node: NodeId) {
    exists fuel: nat :: WalkWithin(cache, node, fuel)
  }

  /** `chain` is a cycle of walk steps from `a` back to `a`: each element
      is the preferred parent of the group before it, none is the root,
      and the last element is `a` again. */
  predicate IsHopCycle(cache: ParentCache, a: NodeId, chain: seq<NodeId>) {
    && |chain| > 0
    && chain[|chain| - 1] == a
    && forall k :: 0 <= k < |chain| ==> IsHop(cache, HopSource(a, chain, k), chain[k])
  }

  /** After a hop, the walk needs one unit of the bound for that hop. */
  lemma WalkWithinAfterHop(cache: ParentCache, src: NodeId, dst: NodeId, fuel: nat)
    requires IsHop(cache, src, dst)
    ensures WalkWithin(cache, src, fuel) <==> fuel > 0 && WalkWithin(cache, dst, fuel - 1)
  {
  }

  /** No hop bound suffices from any group on a cycle of preferred parents. */
  lemma {:induction false} CycleNeverStopsWithin(cache: ParentCache, a: NodeId, chain: seq<NodeId>, k: nat, fuel: nat)
    requires IsHopCycle(cache, a, chain) && k < |chain|
    ensures !WalkWithin(cache, HopSource(a, chain, k), fuel)
    decreases fuel
  {
    var src := HopSource(a, chain, k);
    assert IsHop(cache, src, chain[k]);
    WalkWithinAfterHop(cache, src, chain[k], fuel);
    var k' := if k + 1 < |chain| then k + 1 else 0;
    assert chain[k] == HopSource(a, chain, k');
    if fuel > 0 {
      CycleNeverStopsWithin(cache, a, chain, k', fuel - 1);
    }
  }

  /** A cycle of preferred parents that avoids the root makes the walk run
      forever: the source has no cycle check. */
  lemma CycleNeverStops(cache: ParentCache, a: NodeId, chain: seq<NodeId>)
    requires IsHopCycle(cache, a, chain)
    ensures !WalkStops(cache, a)
  {
    assert HopSource(a, chain, 0) == a;
    forall fuel: nat
      ensures !WalkWithin(cache, a, fuel)
    {
      CycleNeverStopsWithin(cache, a, chain, 0, fuel);
    }
  }

  /** For instance, two groups that are each other's only parent. */
  lemma TwoGroupCycle(cache: ParentCache, a: NodeId, b: NodeId)
    requires a != SvgRoot && b != SvgRoot
    requires a in cache && cache[a] == [b]
    requires b in cache && cache[b] == [a]
    ensures !WalkStops(cache, a)
  {
    assert PreferredParent([b]) == b;
    assert PreferredParent([a]) == a;
    assert IsHop(cache, HopSource(a, [b, a], 0), b);
    assert IsHop(cache, HopSource(a, [b, a], 1), a);
    CycleNeverStops(cache, a, [b, a]);
  }

  // ---------------------------------------------------------------------
  // The ancestor chain

  /** The groups the walk attaches, nearest first. */
  function AncestorsWithin(cache: ParentCache, curr: NodeId, fuel: nat): (chain: seq<NodeId>)
    requires WalkWithin(cache, curr, fuel)
    decreases fuel
  {
    if curr !in cache then []
    else
      var next := PreferredParent(cache[curr]);
      if next == SvgRoot then [] else [next] + AncestorsWithin(cache, next, fuel - 1)
  }

  /** The chain does not depend on how much fuel bounds the walk. */
  lemma {:induction false} AncestorsFuelIndependent(cache: ParentCache, curr: NodeId, f1: nat, f2: nat)
    requires WalkWithin(cache, curr, f1) && WalkWithin(cache, curr, f2)
    ensures AncestorsWithin(cache, curr, f1) == AncestorsWithin(cache, curr, f2)
    decreases f1
  {
    if curr in cache {
      var next := PreferredParent(cache[curr]);
      if next != SvgRoot {
        AncestorsFuelIndependent(cache, next, f1 - 1, f2 - 1);
      }
    }
  }

  ghost function Ancestors(cache: ParentCache, node: NodeId): (chain: seq<NodeId>)
    requires WalkStops(cache, node)
  {
    var fuel: nat :| WalkWithin(cache, node, fuel);
    AncestorsWithin(cache, node, fuel)
  }

  /** One step of the walk: stop at a group absent from the cache or whose
      chosen parent is the root; otherwise attach the chosen parent and go
      on from it. */
  lemma AncestorsStep(cache: ParentCache, curr: NodeId)
    requires WalkStops(cache, curr)
    ensures curr !in cache ==> Ancestors(cache, curr) == []
    ensures curr in cache ==> |cache[curr]| > 0
    ensures curr in cache && PreferredParent(cache[curr]) == SvgRoot ==> Ancestors(cache, curr) == []
    ensures curr in cache && PreferredParent(cache[curr]) != SvgRoot ==>
      var next := PreferredParent(cache[curr]);
      WalkStops(cache, next) && Ancestors(cache, curr) == [next] + Ancestors(cache, next)
  {
    var fuel: nat :| WalkWithin(cache, curr, fuel);
    assert Ancestors(cache, curr) == AncestorsWithin(cache, curr, fuel) by {
      var f: nat :| WalkWithin(cache, curr, f) && Ancestors(cache, curr) == AncestorsWithin(cache, curr, f);
      AncestorsFuelIndependent(cache, curr, f, fuel);
    }
    if curr in cache && PreferredParent(cache[curr]) != SvgRoot {
      var next := PreferredParent(cache[curr]);
      assert WalkWithin(cache, next, fuel - 1);
      var g: nat :| WalkWithin(cache, next, g) && Ancestors(cache, next) == AncestorsWithin(cache, next, g);
      AncestorsFuelIndependent(cache, next, g, fuel - 1);
    }
  }

  /** The root never appears in a chain. */
  lemma {:induction false} RootExcludedWithin(cache: ParentCache, curr: NodeId, fuel: nat)
    requires WalkWithin(cache, curr, fuel)
    ensures SvgRoot !in AncestorsWithin(cache, curr, fuel)
    decreases fuel
  {
    if curr in cache && PreferredParent(cache[curr]) != SvgRoot {
      RootExcludedWithin(cache, PreferredParent(cache[curr]), fuel - 1);
    }
  }

  lemma RootExcluded(cache: ParentCache, node: NodeId)
    requires WalkStops(cache, node)
    ensures SvgRoot !in Ancestors(cache, node)
  {
    var fuel: nat :| WalkWithin(cache, node, fuel) && Ancestors(cache, node) == AncestorsWithin(cache, node, fuel);
    RootExcludedWithin(cache, node, fuel);
  }

  /** The group from which hop i of the walk starting at `node` is taken. */
  function HopSource(node: NodeId, chain: seq<NodeId>, i: nat): (src: NodeId)
    requires i <= |chain|
  {
    if i == 0 then node else chain[i - 1]
  }

  /** `dst` is what one step of the walk attaches after `src`. */
  predicate IsHop(cache: ParentCache, src: NodeId, dst: NodeId) {
    src in cache && |cache[src]| > 0 && dst == PreferredParent(cache[src]) && dst != SvgRoot
  }

  /** The walk stops at `last` without attaching anything more. */
  predicate StopsAt(cache: ParentCache, last: NodeId) {
    last !in cache || (|cache[last]| > 0 && PreferredParent(cache[last]) == SvgRoot)
  }

  /** The chain is a parent walk: every element is the preferred parent of
      the group before it, and the walk ends where the source stops it. */
  predicate IsParentWalk(cache: ParentCache, node: NodeId, chain: seq<NodeId>) {
    && (forall i :: 0 <= i < |chain| ==> IsHop(cache, HopSource(node, chain, i), chain[i]))
    && StopsAt(cache, HopSource(node, chain, |chain|))
  }

  /** Prefixing a parent walk with the hop that leads to its start gives
      a parent walk. */
  lemma ParentWalkCons(cache: ParentCache, node: NodeId, next: NodeId, rest: seq<NodeId>)
    requires IsHop(cache, node, next) && IsParentWalk(cache, next, rest)
    ensures IsParentWalk(cache, node, [next] + rest)
  {
    var chain := [next] + rest;
    forall i | 0 <= i < |chain|
      ensures IsHop(cache, HopSource(node, chain, i), chain[i])
    {
      if i > 0 {
        assert HopSource(node, chain, i) == HopSource(next, rest, i - 1);
        assert chain[i] == rest[i - 1];
      }
    }
    assert HopSource(node, chain, |chain|) == HopSource(next, rest, |rest|);
  }

  lemma {:induction false} AncestorsAreParentWalkWithin(cache: ParentCache, curr: NodeId, fuel: nat)
    requires WalkWithin(cache, curr, fuel)
    ensures IsParentWalk(cache, curr, AncestorsWithin(cache, curr, fuel))
    decreases fuel
  {
    if curr in cache && PreferredParent(cache[curr]) != SvgRoot {
      var next := PreferredParent(cache[curr]);
      AncestorsAreParentWalkWithin(cache, next, fuel - 1);
      ParentWalkCons(cache, curr, next, AncestorsWithin(cache, next, fuel - 1));
    } else {
      assert AncestorsWithin(cache, curr, fuel) == [];
      assert HopSource(curr, [], 0) == curr;
    }
  }

  lemma AncestorsAreParentWalk(cache: ParentCache, node: NodeId)
    requires WalkStops(cache, node)
    ensures IsParentWalk(cache, node, Ancestors(cache, node))
  {
    var fuel: nat :| WalkWithin(cache, node, fuel) && Ancestors(cache, node) == AncestorsWithin(cache, node, fuel);
    AncestorsAreParentWalkWithin(cache, node, fuel);
  }

  /** A parent walk is its first hop followed by a parent walk from there. */
  lemma ParentWalkTail(cache: ParentCache, node: NodeId, chain: seq<NodeId>)
    requires IsParentWalk(cache, node, chain)
    ensures chain == [] ==> StopsAt(cache, node)
    ensures chain != [] ==> IsHop(cache, node, chain[0]) && IsParentWalk(cache, chain[0], chain[1..])
  {
    if chain == [] {
      assert HopSource(node, chain, 0) == node;
    } else {
      assert HopSource(node, chain, 0) == node;
      assert IsHop(cache, HopSource(node, chain, 0), chain[0]);
      var rest := chain[1..];
      forall i | 0 <= i < |rest|
        ensures IsHop(cache, HopSource(chain[0], rest, i), rest[i])
      {
        assert HopSource(chain[0], rest, i) == HopSource(node, chain, i + 1);
        assert IsHop(cache, HopSource(node, chain, i + 1), chain[i + 1]);
      }
      assert HopSource(chain[0], rest, |rest|) == HopSource(node, chain, |chain|);
    }
  }

  lemma {:induction false} ParentWalkWithin(cache: ParentCache, node: NodeId, chain: seq<NodeId>)
    requires IsParentWalk(cache, node, chain)
    ensures WalkWithin(cache, node, |chain|)
    ensures AncestorsWithin(cache, node, |chain|) == chain
    decreases |chain|
  {
    ParentWalkTail(cache, node, chain);
    if chain == [] {
      assert StopsAt(cache, node);
    } else {
      var next, rest := chain[0], chain[1..];
      assert IsHop(cache, node, next);
      ParentWalkWithin(cache, next, rest);
      assert |rest| == |chain| - 1;
      assert AncestorsWithin(cache, node, |chain|) == [next] + AncestorsWithin(cache, next, |rest|);
      assert chain == [next] + rest;
    }
  }

  /** Conversely, a parent walk from a group is that group's ancestor
      chain: the walk stops, and its output is determined by the cache. */
  lemma ParentWalkIsAncestors(cache: ParentCache, node: NodeId, chain: seq<NodeId>)
    requires IsParentWalk(cache, node, chain)
    ensures WalkStops(cache, node) && chain == Ancestors(cache, node)
  {
    ParentWalkWithin(cache, node, chain);
    var fuel: nat :| WalkWithin(cache, node, fuel) && Ancestors(cache, node) == AncestorsWithin(cache, node, fuel);
    AncestorsFuelIndependent(cache, node, fuel, |chain|);
  }

  /** The walk loop: follows preferred parents, collecting every group it
      attaches, until the root or an uncached group. */
  method WalkAncestors(cache: ParentCache, node: NodeId) returns (path: seq<NodeId>)
    requires WalkStops(cache, node)
    ensures path == Ancestors(cache, node)
  {
    path := [];
    var curr := node;
    ghost var fuel: nat :| WalkWithin(cache, node, fuel);
    while true
      invariant WalkWithin(cache, curr, fuel)
      invariant WalkStops(cache, curr)
      invariant path + Ancestors(cache, curr) == Ancestors(cache, node)
      decreases fuel
    {
      AncestorsStep(cache, curr);
      if curr in cache {
        var parents := cache[curr];
        var next := ChooseParent(parents);
        if next == SvgRoot {
          break;
        }
        path := path + [next];
        curr := next;
        fuel := fuel - 1;
      } else {
        break;
      }
    }
  }

  // ---------------------------------------------------------------------
  // The nested output graph

  /** The nested graph the walk builds: each level holds only the next
      ancestor as its one neighbour. */
  function ChainGraph(path: seq<NodeId>): (g: LinkedGraph) {
    if path == [] then EmptyGraph
    else LinkedGraph(map[], map[path[0] := ChainGraph(path[1..])])
  }

  /** `g` is a linear chain through the groups of `path`: no arcs, and
      exactly one neighbour at every level until the last. */
  predicate IsChain(g: LinkedGraph, path: seq<NodeId>)
    decreases |path|
  {
    && g.arcs == map[]
    && (if path == [] then g.neighbor == map[]
        else g.neighbor.Keys == {path[0]} && IsChain(g.neighbor[path[0]], path[1..]))
  }

  lemma {:induction false} ChainGraphIsChain(path: seq<NodeId>)
    ensures IsChain(ChainGraph(path), path)
    decreases |path|
  {
    if path != [] {
      ChainGraphIsChain(path[1..]);
    }
  }

  /** The chain a graph spells out is unique: the path can be read back
      from the graph. */
  lemma {:induction false} ChainPathUnique(g: LinkedGraph, p1: seq<NodeId>, p2: seq<NodeId>)
    requires IsChain(g, p1) && IsChain(g, p2)
    ensures p1 == p2
    decreases |p1|
  {
    if p1 != [] && p2 != [] {
      assert p1[0] in g.neighbor.Keys;
      assert p1[0] == p2[0];
      ChainPathUnique(g.neighbor[p1[0]], p1[1..], p2[1..]);
      assert p1 == [p1[0]] + p1[1..];
      assert p2 == [p2[0]] + p2[1..];
    }
  }
}
