/** Values exchanged by the V2 property-values layer: node identifiers,
    triples fetched for observation nodes, the output graph and the
    response, and the error tags the layer can return. */
module PropertyValueTypes {

  datatype Option<+T> = None | Some(value: T)

  datatype Result<+T, +E> = Success(value: T) | Failure(error: E)

  /** A node identifier (dcid). */
  type NodeId = string

  /** An edge label (predicate). */
  type Property = string

  /** InvalidArgument is raised by this layer itself; Upstream stands for
      whatever error a collaborator returned, which is propagated as is. */
  datatype Error = InvalidArgument(message: string) | Upstream(cause: string)

  /** Output projection of a triple's object (pb.EntityInfo). */
  datatype EntityInfo = EntityInfo(
    name: string,
    value: string,
    types: seq<string>,
    dcid: NodeId,
    provenanceId: string)

  /** One stored fact about an observation node (pb.Triple). */
  datatype Triple = Triple(
    subjectId: NodeId,
    pred: Property,
    objectId: NodeId,
    objectName: string,
    objectValue: string,
    objectTypes: seq<string>,
    provenanceId: string)

  /** pbv2.LinkedGraph: value lists per arc, and nested graphs per
      neighbour (used only by the ancestor walk). The pbv2.Nodes wrapper
      around each value list is elided. */
  datatype LinkedGraph = LinkedGraph(
    arcs: map<Property, seq<EntityInfo>>,
    neighbor: map<NodeId, LinkedGraph>)

  /** pbv2.NodeResponse; an empty nextToken means "no further page". */
  datatype NodeResponse = NodeResponse(data: map<NodeId, LinkedGraph>, nextToken: string)

  /** Identifiers in the observation namespace. */
  const ObsPrefix: string := "dc/o"

  /** Statistical-variable groups imported by a custom instance. */
  const CustomGroupPrefix: string := "dc/g/Custom_"

  /** The root of the statistical-variable-group hierarchy (statvar.SvgRoot). */
  const SvgRoot: NodeId := "dc/g/Root"

  /** util.DirectionIn and util.DirectionOut. */
  const DirectionIn: string := "in"
  const DirectionOut: string := "out"

  predicate IsObsNode(n: NodeId) {
    ObsPrefix <= n
  }

  predicate IsCustomGroup(n: NodeId) {
    CustomGroupPrefix <= n
  }

  /** A graph carrying only arcs (every branch except the ancestor walk). */
  function ArcsOnly(arcs: map<Property, seq<EntityInfo>>): (g: LinkedGraph) {
    LinkedGraph(arcs, map[])
  }

  /** The graph with no arcs and no neighbours. */
  const EmptyGraph: LinkedGraph := LinkedGraph(map[], map[])

  /** The set of the elements of a sequence. */
  function Elements<T>(s: seq<T>): (elements: set<T>) {
    set x | x in s
  }
}
