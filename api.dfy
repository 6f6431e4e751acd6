/** The flat V2 property-values entry point (API in
    internal/server/v2/propertyvalues/api.go): observation nodes are
    answered from their stored triples, regular nodes from the typed v1
    fetch, and the two partial results are assembled into one response. */
module PropertyValuesApi {
  import opened PropertyValueTypes

  /** The raw typed values for one (node, property) pair, grouped by type
      label, as the v1 fetch returns them. */
  type TypedNodes = map<string, seq<EntityInfo>>

  /** Opaque pagination cursor returned by the v1 fetch. */
  datatype PaginationInfo = PaginationInfo(cursors: seq<string>)

  datatype FetchResult = FetchResult(
    data: map<NodeId, map<Property, TypedNodes>>,
    cursor: Option<PaginationInfo>)

  /** The collaborators the entry point calls, as the answers they give:
      node.GetObsTriples, v1pv.Fetch (arguments in the order nodes,
      properties, limit, token, direction), v1pv.MergeTypedNodes and
      util.EncodeProto. */
  datatype Backend = Backend(
    getObsTriples: seq<NodeId> -> Result<map<NodeId, seq<Triple>>, Error>,
    fetch: (seq<NodeId>, seq<Property>, int, string, string) -> Result<FetchResult, Error>,
    mergeTypedNodes: TypedNodes -> seq<EntityInfo>,
    encodeProto: PaginationInfo -> Result<string, Error>)

  // ---------------------------------------------------------------------
  // Node classification

  /** The nodes of `nodes` whose kind (observation or not) is `obs`, in
      input order. */
  function Select(nodes: seq<NodeId>, obs: bool): (r: seq<NodeId>)
    ensures |r| <= |nodes|
    ensures forall n :: n in r <==> n in nodes && IsObsNode(n) == obs
  {
    if nodes == [] then []
    else
      var last := nodes[|nodes| - 1];
      Select(nodes[..|nodes| - 1], obs) + (if IsObsNode(last) == obs then [last] else [])
  }

  /** Selection distributes over concatenation: the relative order of the
      input is kept in each partition. */
  lemma {:induction false} SelectConcat(a: seq<NodeId>, b: seq<NodeId>, obs: bool)
    ensures Select(a + b, obs) == Select(a, obs) + Select(b, obs)
  {
    if b == [] {
      assert a + b == a;
    } else {
      var b' := b[..|b| - 1];
      assert (a + b)[..|a + b| - 1] == a + b';
      SelectConcat(a, b', obs);
    }
  }

  /** The two partitions together hold every input node exactly as often
      as the input does. */
  lemma {:induction false} PartitionIsPermutation(nodes: seq<NodeId>)
    ensures |Select(nodes, true)| + |Select(nodes, false)| == |nodes|
    ensures multiset(Select(nodes, true)) + multiset(Select(nodes, false)) == multiset(nodes)
  {
    if nodes != [] {
      var init := nodes[..|nodes| - 1];
      var last := nodes[|nodes| - 1];
      PartitionIsPermutation(init);
      assert nodes == init + [last];
      assert multiset(nodes) == multiset(init) + multiset{last};
      if IsObsNode(last) {
        assert Select(nodes, true) == Select(init, true) + [last];
        assert Select(nodes, false) == Select(init, false);
      } else {
        assert Select(nodes, true) == Select(init, true);
        assert Select(nodes, false) == Select(init, false) + [last];
      }
    }
  }

  /** Splits `nodes` by the observation prefix, keeping input order. */
  method Partition(nodes: seq<NodeId>) returns (obsNodes: seq<NodeId>, regularNodes: seq<NodeId>)
    ensures obsNodes == Select(nodes, true)
    ensures regularNodes == Select(nodes, false)
  {
    obsNodes, regularNodes := [], [];
    var i := 0;
    while i < |nodes|
      invariant 0 <= i <= |nodes|
      invariant obsNodes == Select(nodes[..i], true)
      invariant regularNodes == Select(nodes[..i], false)
    {
      var n := nodes[i];
      assert nodes[..i + 1][..i] == nodes[..i];
      if IsObsNode(n) {
        obsNodes := obsNodes + [n];
      } else {
        regularNodes := regularNodes + [n];
      }
      i := i + 1;
    }
    assert nodes[..i] == nodes;
  }

  // ---------------------------------------------------------------------
  // Observation nodes

  /** Builds the set of requested properties. */
  method BuildPropertySet(properties: seq<Property>) returns (propertySet: set<Property>)
    ensures forall p :: p in propertySet <==> p in properties
  {
    propertySet := {};
    var i := 0;
    while i < |properties|
      invariant 0 <= i <= |properties|
      invariant propertySet == Elements(properties[..i])
    {
      assert properties[..i + 1] == properties[..i] + [properties[i]];
      propertySet := propertySet + {properties[i]};
      i := i + 1;
    }
    assert properties[..i] == properties;
  }

  function InfoOf(t: Triple): (e: EntityInfo) {
    EntityInfo(t.objectName, t.objectValue, t.objectTypes, t.objectId, t.provenanceId)
  }

  /** The arcs an observation node gets from its triples, processed in
      list order: a requested predicate's arc is replaced by a
      one-element list at every triple that carries it. */
  function ObsArcs(triples: seq<Triple>, props: set<Property>): (arcs: map<Property, seq<EntityInfo>>) {
    if triples == [] then map[]
    else
      var t := triples[|triples| - 1];
      var rest := ObsArcs(triples[..|triples| - 1], props);
      if t.pred in props then rest[t.pred := [InfoOf(t)]] else rest
  }

  predicate HasPredicate(triples: seq<Triple>, p: Property) {
    exists i :: 0 <= i < |triples| && triples[i].pred == p
  }

  /** Index i holds the last triple of the list whose predicate is p. */
  predicate IsLastWith(triples: seq<Triple>, p: Property, i: int) {
    && 0 <= i < |triples|
    && triples[i].pred == p
    && forall j :: i < j < |triples| ==> triples[j].pred != p
  }

  /** An observation node has an arc exactly for the requested predicates
      that occur among its triples, and that arc holds the single entity
      of the last such triple. */
  lemma {:induction false} ObsArcsMeaning(triples: seq<Triple>, props: set<Property>, p: Property)
    ensures p in ObsArcs(triples, props) <==> p in props && HasPredicate(triples, p)
    ensures p in ObsArcs(triples, props) ==>
      exists i :: IsLastWith(triples, p, i) && ObsArcs(triples, props)[p] == [InfoOf(triples[i])]
  {
    if triples != [] {
      var n := |triples| - 1;
      var init := triples[..n];
      ObsArcsMeaning(init, props, p);
      if triples[n].pred == p {
        if p in props {
          assert IsLastWith(triples, p, n);
        }
      } else {
        if HasPredicate(triples, p) {
          var k :| 0 <= k < |triples| && triples[k].pred == p;
          assert init[k].pred == p;
        }
        if p in ObsArcs(triples, props) {
          var i :| IsLastWith(init, p, i) && ObsArcs(init, props)[p] == [InfoOf(init[i])];
          assert IsLastWith(triples, p, i);
        }
      }
    }
  }

  /** Projects one node's triples onto the requested property set. */
  method ProjectTriples(tripleList: seq<Triple>, propertySet: set<Property>)
    returns (arcs: map<Property, seq<EntityInfo>>)
    ensures arcs == ObsArcs(tripleList, propertySet)
  {
    arcs := map[];
    var i := 0;
    while i < |tripleList|
      invariant 0 <= i <= |tripleList|
      invariant arcs == ObsArcs(tripleList[..i], propertySet)
    {
      var t := tripleList[i];
      assert tripleList[..i + 1][..i] == tripleList[..i];
      if t.pred in propertySet {
        arcs := arcs[t.pred := [InfoOf(t)]];
      }
      i := i + 1;
    }
    assert tripleList[..i] == tripleList;
  }

  /** The entries of every node the triple fetch answered for. */
  function ObsData(tripleResp: map<NodeId, seq<Triple>>, props: set<Property>): (data: map<NodeId, LinkedGraph>) {
    map d | d in tripleResp :: ArcsOnly(ObsArcs(tripleResp[d], props))
  }

  /** Visits the triple-fetch result in an unspecified key order, giving
      every returned dcid an entry. */
  method BuildObsData(tripleResp: map<NodeId, seq<Triple>>, propertySet: set<Property>)
    returns (data: map<NodeId, LinkedGraph>)
    ensures data == ObsData(tripleResp, propertySet)
  {
    data := map[];
    var pending := tripleResp.Keys;
    while pending != {}
      invariant pending <= tripleResp.Keys
      invariant data.Keys == tripleResp.Keys - pending
      invariant forall d :: d in data ==> data[d] == ArcsOnly(ObsArcs(tripleResp[d], propertySet))
      decreases pending
    {
      var dcid :| dcid in pending;
      var arcs := ProjectTriples(tripleResp[dcid], propertySet);
      data := data[dcid := ArcsOnly(arcs)];
      pending := pending - {dcid};
    }
  }

  // ---------------------------------------------------------------------
  // Regular nodes

  /** Reading data[n][p] in Go yields an empty collection when either key
      is missing. */
  function TypedAt(data: map<NodeId, map<Property, TypedNodes>>, n: NodeId, p: Property): (typed: TypedNodes) {
    if n in data && p in data[n] then data[n][p] else map[]
  }

  /** One arc per requested property, each the merged typed values. */
  function RegularArcs(
    data: map<NodeId, map<Property, TypedNodes>>,
    merge: TypedNodes -> seq<EntityInfo>,
    n: NodeId,
    properties: seq<Property>): (arcs: map<Property, seq<EntityInfo>>)
  {
    map p | p in properties :: merge(TypedAt(data, n, p))
  }

  /** Builds one regular node's arcs, one per requested property. */
  method BuildRegularArcs(
    data: map<NodeId, map<Property, TypedNodes>>,
    merge: TypedNodes -> seq<EntityInfo>,
    n: NodeId,
    properties: seq<Property>)
    returns (arcs: map<Property, seq<EntityInfo>>)
    ensures arcs == RegularArcs(data, merge, n, properties)
  {
    arcs := map[];
    var i := 0;
    while i < |properties|
      invariant 0 <= i <= |properties|
      invariant arcs == RegularArcs(data, merge, n, properties[..i])
    {
      var property := properties[i];
      assert properties[..i + 1] == properties[..i] + [property];
      arcs := arcs[property := merge(TypedAt(data, n, property))];
      i := i + 1;
    }
    assert properties[..i] == properties;
  }

  /** The entries of the regular nodes, one per distinct node. */
  function RegularData(
    data: map<NodeId, map<Property, TypedNodes>>,
    merge: TypedNodes -> seq<EntityInfo>,
    regularNodes: seq<NodeId>,
    properties: seq<Property>): (entries: map<NodeId, LinkedGraph>)
  {
    map n | n in regularNodes :: ArcsOnly(RegularArcs(data, merge, n, properties))
  }

  /** Writes every regular node's entry over `res`, replacing an entry the
      observation branch may have left under the same key. */
  method AddRegularData(
    res: map<NodeId, LinkedGraph>,
    data: map<NodeId, map<Property, TypedNodes>>,
    merge: TypedNodes -> seq<EntityInfo>,
    regularNodes: seq<NodeId>,
    properties: seq<Property>)
    returns (res': map<NodeId, LinkedGraph>)
    ensures res' == res + RegularData(data, merge, regularNodes, properties)
  {
    res' := res;
    var i := 0;
    while i < |regularNodes|
      invariant 0 <= i <= |regularNodes|
      invariant res' == res + RegularData(data, merge, regularNodes[..i], properties)
    {
      var n := regularNodes[i];
      assert regularNodes[..i + 1] == regularNodes[..i] + [n];
      var arcs := BuildRegularArcs(data, merge, n, properties);
      res' := res'[n := ArcsOnly(arcs)];
      i := i + 1;
    }
    assert regularNodes[..i] == regularNodes;
  }

  // ---------------------------------------------------------------------
  // Entry point

  /** What the triple fetch answers; with no observation nodes it is not
      called and contributes nothing. */
  function TripleFetch(nodes: seq<NodeId>, backend: Backend): (answer: Result<map<NodeId, seq<Triple>>, Error>) {
    var obsNodes := Select(nodes, true);
    if obsNodes == [] then Success(map[]) else backend.getObsTriples(obsNodes)
  }

  /** What the typed fetch answers; with no regular nodes it is not called
      and contributes neither data nor a cursor. */
  function TypedFetch(
    nodes: seq<NodeId>, properties: seq<Property>, direction: string, limit: int,
    reqToken: string, backend: Backend): (answer: Result<FetchResult, Error>)
  {
    var regularNodes := Select(nodes, false);
    if regularNodes == [] then Success(FetchResult(map[], None))
    else backend.fetch(regularNodes, properties, limit, reqToken, direction)
  }

  /** The V2 property-values entry point. */
  method PropertyValues(
    nodes: seq<NodeId>, properties: seq<Property>, direction: string, limit: int,
    reqToken: string, backend: Backend)
    returns (r: Result<NodeResponse, Error>)
    // no nodes: no fetch, an empty response, whatever the collaborators would answer
    ensures nodes == [] ==> r == Success(NodeResponse(map[], ""))
    // error precedence: triple fetch, then typed fetch, then token encoding
    ensures TripleFetch(nodes, backend).Failure? ==> r == Failure(TripleFetch(nodes, backend).error)
    ensures TripleFetch(nodes, backend).Success? &&
            TypedFetch(nodes, properties, direction, limit, reqToken, backend).Failure? ==>
            r == Failure(TypedFetch(nodes, properties, direction, limit, reqToken, backend).error)
    ensures TripleFetch(nodes, backend).Success? &&
            TypedFetch(nodes, properties, direction, limit, reqToken, backend).Success? ==>
            var cursor := TypedFetch(nodes, properties, direction, limit, reqToken, backend).value.cursor;
            (cursor.Some? && backend.encodeProto(cursor.value).Failure? ==>
               r == Failure(backend.encodeProto(cursor.value).error)) &&
            (r.Success? <==> cursor.None? || backend.encodeProto(cursor.value).Success?)
    // on success: the keys, each kind of entry, and the token
    ensures r.Success? ==>
            && TripleFetch(nodes, backend).Success?
            && TypedFetch(nodes, properties, direction, limit, reqToken, backend).Success?
            && var triples := TripleFetch(nodes, backend).value;
               var fetched := TypedFetch(nodes, properties, direction, limit, reqToken, backend).value;
               && r.value.data.Keys == triples.Keys + Elements(Select(nodes, false))
               && (forall n, p :: n in Select(nodes, false) && p in properties ==>
                     p in r.value.data[n].arcs &&
                     r.value.data[n].arcs[p] == backend.mergeTypedNodes(TypedAt(fetched.data, n, p)))
               && (forall n :: n in Select(nodes, false) ==>
                     r.value.data[n] == ArcsOnly(RegularArcs(fetched.data, backend.mergeTypedNodes, n, properties)))
               && (forall d :: d in triples && d !in Select(nodes, false) ==>
                     r.value.data[d] == ArcsOnly(ObsArcs(triples[d], Elements(properties))))
               && r.value.nextToken == (if fetched.cursor.Some? then backend.encodeProto(fetched.cursor.value).value else "")
  {
    var obsNodes, regularNodes := Partition(nodes);
    var data: map<NodeId, LinkedGraph> := map[];
    var nextToken := "";

    if |obsNodes| > 0 {
      var propertySet := BuildPropertySet(properties);
      assert propertySet == Elements(properties);
      var tripleResp := backend.getObsTriples(obsNodes);
      if tripleResp.Failure? {
        return Failure(tripleResp.error);
      }
      data := BuildObsData(tripleResp.value, propertySet);
    }

    if |regularNodes| > 0 {
      var fetched := backend.fetch(regularNodes, properties, limit, reqToken, direction);
      if fetched.Failure? {
        return Failure(fetched.error);
      }
      data := AddRegularData(data, fetched.value.data, backend.mergeTypedNodes, regularNodes, properties);
      if fetched.value.cursor.Some? {
        var respToken := backend.encodeProto(fetched.value.cursor.value);
        if respToken.Failure? {
          return Failure(respToken.error);
        }
        nextToken := respToken.value;
      }
    }

    r := Success(NodeResponse(data, nextToken));
  }

  /** When the triple fetch answers only for the observation nodes it was
      asked about, no regular node shares a key with an observation entry,
      so assembling the two partial results never replaces anything. */
  lemma AssemblyIsDisjoint(
    nodes: seq<NodeId>, properties: seq<Property>, backend: Backend,
    data: map<NodeId, map<Property, TypedNodes>>)
    requires TripleFetch(nodes, backend).Success?
    requires TripleFetch(nodes, backend).value.Keys <= Elements(Select(nodes, true))
    ensures TripleFetch(nodes, backend).value.Keys !! Elements(Select(nodes, false))
    ensures var obsData := ObsData(TripleFetch(nodes, backend).value, Elements(properties));
      var assembled := obsData + RegularData(data, backend.mergeTypedNodes, Select(nodes, false), properties);
      forall d :: d in obsData ==> d in assembled && assembled[d] == obsData[d]
  {
  }

  /** The asymmetry between the two node kinds: a regular node always has
      an arc for a requested property, an observation node has one only
      if one of its triples carries that predicate. */
  lemma KeyPresenceAsymmetry(
    triples: seq<Triple>, data: map<NodeId, map<Property, TypedNodes>>,
    merge: TypedNodes -> seq<EntityInfo>, n: NodeId, properties: seq<Property>, p: Property)
    requires p in properties
    ensures p in RegularArcs(data, merge, n, properties)
    ensures p in ObsArcs(triples, Elements(properties)) <==> HasPredicate(triples, p)
  {
    ObsArcsMeaning(triples, Elements(properties), p);
  }
}
