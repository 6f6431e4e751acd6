/** The V2 linked-property entry point (LinkedPropertyValues in
    internal/server/v2/propertyvalues/api.go): a `typeOf` filter is
    mandatory; `containedInPlace` inwards reshapes the containment index,
    `specializationOf` outwards on statistical-variable groups walks the
    parent cache, and every other combination is rejected. */
module LinkedPropertyValuesApi {
  import opened PropertyValueTypes
  import opened SpecializationWalk

  /** The arc under which the containment closure is returned. */
  const ClosureArc: Property := "containedInPlace+"

  const MissingTypeOfMessage: string := "must provide typeOf filters"

  function InvalidPropertyMessage(linkedProperty: string): (message: string) {
    "Invalid property " + linkedProperty + " for wildcard '+'"
  }

  predicate IsContainmentQuery(linkedProperty: string, direction: string) {
    linkedProperty == "containedInPlace" && direction == DirectionIn
  }

  predicate IsSpecializationQuery(linkedProperty: string, direction: string, filter: map<string, string>) {
    && "typeOf" in filter
    && linkedProperty == "specializationOf"
    && direction == DirectionOut
    && filter["typeOf"] == "StatVarGroup"
  }

  // ---------------------------------------------------------------------
  // Containment

  /** An entity carrying only its identifier. */
  function DcidOnly(dcid: NodeId): (e: EntityInfo) {
    EntityInfo("", "", [], dcid, "")
  }

  /** The contained places the index returned for `node`; none when the
      node is absent. */
  function PlacesOf(data: map<NodeId, seq<NodeId>>, node: NodeId): (places: seq<NodeId>) {
    if node in data then data[node] else []
  }

  function DcidEntities(dcids: seq<NodeId>): (list: seq<EntityInfo>) {
    seq(|dcids|, i requires 0 <= i < |dcids| => DcidOnly(dcids[i]))
  }

  function Dcids(list: seq<EntityInfo>): (dcids: seq<NodeId>) {
    seq(|list|, i requires 0 <= i < |list| => list[i].dcid)
  }

  /** Builds one node's list of contained places. */
  method ReshapePlaces(dcids: seq<NodeId>) returns (list: seq<EntityInfo>)
    ensures |list| == |dcids|
    ensures forall i :: 0 <= i < |list| ==> list[i] == DcidOnly(dcids[i])
  {
    list := [];
    var i := 0;
    while i < |dcids|
      invariant 0 <= i <= |dcids|
      invariant |list| == i
      invariant forall k :: 0 <= k < i ==> list[k] == DcidOnly(dcids[k])
    {
      list := list + [DcidOnly(dcids[i])];
      i := i + 1;
    }
  }

  /** The identifiers can be read back from the reshaped list, in order. */
  lemma {:induction false} DcidEntitiesRoundTrip(dcids: seq<NodeId>)
    ensures |DcidEntities(dcids)| == |dcids|
    ensures Dcids(DcidEntities(dcids)) == dcids
    ensures forall e :: e in DcidEntities(dcids) ==> e == DcidOnly(e.dcid)
  {
    var list := DcidEntities(dcids);
    assert |Dcids(list)| == |dcids|;
    forall i | 0 <= i < |dcids|
      ensures Dcids(list)[i] == dcids[i]
    {
      assert list[i] == DcidOnly(dcids[i]);
    }
  }

  /** The containment entries: one closure arc per node. */
  function ContainmentData(nodes: seq<NodeId>, data: map<NodeId, seq<NodeId>>): (entries: map<NodeId, LinkedGraph>) {
    map n | n in nodes :: ArcsOnly(map[ClosureArc := DcidEntities(PlacesOf(data, n))])
  }

  /** Reshapes the containment-index answer, node by node. */
  method ReshapeContainment(nodes: seq<NodeId>, data: map<NodeId, seq<NodeId>>)
    returns (res: map<NodeId, LinkedGraph>)
    ensures res == ContainmentData(nodes, data)
  {
    res := map[];
    var i := 0;
    while i < |nodes|
      invariant 0 <= i <= |nodes|
      invariant res == ContainmentData(nodes[..i], data)
    {
      var node := nodes[i];
      assert nodes[..i + 1] == nodes[..i] + [node];
      var list: seq<EntityInfo> := [];
      if node in data && |data[node]| > 0 {
        list := ReshapePlaces(data[node]);
      }
      assert list == DcidEntities(PlacesOf(data, node));
      assert ContainmentData(nodes[..i + 1], data) == ContainmentData(nodes[..i], data)[node := ArcsOnly(map[ClosureArc := list])];
      res := res[node := ArcsOnly(map[ClosureArc := list])];
      i := i + 1;
    }
    assert nodes[..i] == nodes;
  }

  // ---------------------------------------------------------------------
  // Specialization

  /** The chain entries: the nested ancestor chain of every node. */
  ghost function SpecializationData(nodes: seq<NodeId>, cache: ParentCache): (entries: map<NodeId, LinkedGraph>)
    requires forall n :: n in nodes ==> WalkStops(cache, n)
  {
    map n | n in nodes :: ChainGraph(Ancestors(cache, n))
  }

  /** Walks the parent cache from every node. */
  method WalkAll(nodes: seq<NodeId>, cache: ParentCache) returns (res: map<NodeId, LinkedGraph>)
    requires forall n :: n in nodes ==> WalkStops(cache, n)
    ensures res == SpecializationData(nodes, cache)
  {
    res := map[];
    var i := 0;
    while i < |nodes|
      invariant 0 <= i <= |nodes|
      invariant res == SpecializationData(nodes[..i], cache)
    {
      var node := nodes[i];
      assert nodes[..i + 1] == nodes[..i] + [node];
      var path := WalkAncestors(cache, node);
      res := res[node := ChainGraph(path)];
      i := i + 1;
    }
    assert nodes[..i] == nodes;
  }

  // ---------------------------------------------------------------------
  // Entry point

  method LinkedPropertyValues(
    nodes: seq<NodeId>,
    linkedProperty: string,
    direction: string,
    filter: map<string, string>,
    getPlacesIn: (seq<NodeId>, string) -> Result<map<NodeId, seq<NodeId>>, Error>,
    cache: ParentCache)
    returns (r: Result<NodeResponse, Error>)
    requires IsSpecializationQuery(linkedProperty, direction, filter) ==>
      forall n :: n in nodes ==> WalkStops(cache, n)
    // the filter check comes first, whatever the index and the cache hold
    ensures "typeOf" !in filter ==> r == Failure(InvalidArgument(MissingTypeOfMessage))
    ensures "typeOf" in filter && IsContainmentQuery(linkedProperty, direction) ==>
      match getPlacesIn(nodes, filter["typeOf"])
      case Failure(e) => r == Failure(e)
      case Success(data) => r == Success(NodeResponse(ContainmentData(nodes, data), ""))
    ensures IsSpecializationQuery(linkedProperty, direction, filter) ==>
      r == Success(NodeResponse(SpecializationData(nodes, cache), ""))
    ensures "typeOf" in filter &&
            !IsContainmentQuery(linkedProperty, direction) &&
            !IsSpecializationQuery(linkedProperty, direction, filter) ==>
      r == Failure(InvalidArgument(InvalidPropertyMessage(linkedProperty)))
  {
    if "typeOf" !in filter {
      return Failure(InvalidArgument(MissingTypeOfMessage));
    }
    var nodeType := filter["typeOf"];
    if linkedProperty == "containedInPlace" && direction == DirectionIn {
      var data := getPlacesIn(nodes, nodeType);
      if data.Failure? {
        return Failure(data.error);
      }
      var res := ReshapeContainment(nodes, data.value);
      return Success(NodeResponse(res, ""));
    } else if linkedProperty == "specializationOf" && direction == DirectionOut && nodeType == "StatVarGroup" {
      var res := WalkAll(nodes, cache);
      return Success(NodeResponse(res, ""));
    }
    return Failure(InvalidArgument(InvalidPropertyMessage(linkedProperty)));
  }

  // ---------------------------------------------------------------------
  // Properties of the two traversals

  /** Every requested node gets exactly the closure arc, listing one
      identifier-only entity per contained place in index order, and an
      empty list when the index has nothing for it. */
  lemma ContainmentShape(nodes: seq<NodeId>, data: map<NodeId, seq<NodeId>>, n: NodeId)
    requires n in nodes
    ensures var res := ContainmentData(nodes, data);
      && res.Keys == Elements(nodes)
      && res[n].arcs.Keys == {ClosureArc}
      && res[n].neighbor == map[]
      && Dcids(res[n].arcs[ClosureArc]) == PlacesOf(data, n)
      && (forall e :: e in res[n].arcs[ClosureArc] ==> e == DcidOnly(e.dcid))
      && (n !in data ==> res[n].arcs[ClosureArc] == [])
  {
    DcidEntitiesRoundTrip(PlacesOf(data, n));
  }

  /** Every requested node gets a linear chain of its ancestors, nearest
      first, that follows the preferred parents and leaves out the root. */
  lemma SpecializationShape(nodes: seq<NodeId>, cache: ParentCache, n: NodeId)
    requires forall m :: m in nodes ==> WalkStops(cache, m)
    requires n in nodes
    ensures SpecializationData(nodes, cache).Keys == Elements(nodes)
    ensures IsChain(SpecializationData(nodes, cache)[n], Ancestors(cache, n))
    ensures IsParentWalk(cache, n, Ancestors(cache, n))
    ensures SvgRoot !in Ancestors(cache, n)
  {
    ChainGraphIsChain(Ancestors(cache, n));
    AncestorsAreParentWalk(cache, n);
    RootExcluded(cache, n);
  }

  /** A group whose only parent's only parent is the root has that parent
      as its whole chain. */
  lemma TwoLevelExample(a: NodeId, b: NodeId)
    requires b != SvgRoot && a != b
    ensures var cache := map[a := [b], b := [SvgRoot]];
      WalkStops(cache, a) && Ancestors(cache, a) == [b]
  {
    var cache := map[a := [b], b := [SvgRoot]];
    assert PreferredParent([b]) == b;
    assert PreferredParent([SvgRoot]) == SvgRoot;
    assert WalkWithin(cache, b, 0);
    assert WalkWithin(cache, a, 1);
    AncestorsStep(cache, a);
    AncestorsStep(cache, b);
  }

  /** A custom-import parent is chosen over an earlier ordinary parent. */
  lemma CustomParentPreferred(a: NodeId, b: NodeId, custom: NodeId)
    requires IsCustomGroup(custom) && !IsCustomGroup(b)
    requires custom != a
    ensures var cache := map[a := [b, custom]];
      WalkStops(cache, a) && Ancestors(cache, a) == [custom]
  {
    var cache := map[a := [b, custom]];
    assert custom != SvgRoot by { assert SvgRoot[5] != CustomGroupPrefix[5]; }
    assert FirstCustomIndex([custom]) == Some(0);
    assert FirstCustomIndex([b, custom]) == Some(1);
    assert PreferredParent([b, custom]) == custom;
    assert WalkWithin(cache, custom, 0);
    assert WalkWithin(cache, a, 1);
    AncestorsStep(cache, a);
    AncestorsStep(cache, custom);
  }
}
