# V2 property values — a Dafny model

This project models the V2 property-values layer of the Data Commons mixer
(`internal/server/v2/propertyvalues/api.go`). The layer has two entry points:

- **API** (`PropertyValuesApi.PropertyValues`). It splits the requested node ids
  into observation nodes (prefix `dc/o`) and regular nodes, keeping input order.
  Observation nodes are answered from their stored triples, projected onto the
  requested properties. Regular nodes get one arc per requested property from
  the merged typed fetch. A continuation token is attached only when the fetch
  returns a pagination cursor. Any collaborator error aborts the whole request.
- **LinkedPropertyValues** (`LinkedPropertyValuesApi.LinkedPropertyValues`). It
  requires a `typeOf` filter. `containedInPlace` with direction `in` reshapes the
  containment index into one `containedInPlace+` arc per node.
  `specializationOf` with direction `out` and type `StatVarGroup` walks the
  parent cache upwards, preferring `dc/g/Custom_` parents and stopping before the
  root. Every other combination is rejected as InvalidArgument.

The source builds its results step by step, so the model uses methods with loops.
Each loop is proved equal to a specification function, or to the property its
`ensures` states. The lemmas beside them
state what the source promises: partition and order, key-presence asymmetry,
last-triple-wins, error precedence, the tie-break rule, root exclusion,
linearity of the chain, and termination of the walk.

Files:
- `types.dfy`: node ids, triples, `EntityInfo`, `LinkedGraph`, `NodeResponse`,
  errors, and the namespace constants.
- `api.dfy`: node classification, the observation and regular resolvers, and the
  flat entry point.
- `walk.dfy`: the parent choice, the ancestor walk, its termination condition,
  and the nested chain graph.
- `linked.dfy`: the containment reshape, the walk over all nodes, and the
  linked-property entry point.

Collaborators are inputs. `node.GetObsTriples`, `v1pv.Fetch`,
`v1pv.MergeTypedNodes` and `util.EncodeProto` are the function fields of
`PropertyValuesApi.Backend`. `placein.GetPlacesIn` is a function parameter.
`cache.ParentSvg` is a `map<NodeId, seq<NodeId>>`. "The collaborator is not
called" is stated as "the result is the same whatever the collaborator answers".

## Model

| member | source | states |
|---|---|---|
| `PropertyValuesApi.Select` | internal/server/v2/propertyvalues/api.go:47-55 | a node is in the selected partition iff it is in the input and its observation-prefix test matches the partition; never longer than the input |
| `PropertyValuesApi.SelectConcat` | internal/server/v2/propertyvalues/api.go:49-55 | selection distributes over concatenation, so each partition keeps the input's relative order |
| `PropertyValuesApi.PartitionIsPermutation` | internal/server/v2/propertyvalues/api.go:47-55 | the two partitions' lengths sum to the input length and their multisets add up to the input's |
| `PropertyValuesApi.Partition` | internal/server/v2/propertyvalues/api.go:47-55 | the loop yields exactly the observation nodes and the regular nodes, in input order |
| `PropertyValuesApi.BuildPropertySet` | internal/server/v2/propertyvalues/api.go:59-62 | the property set holds exactly the requested properties, duplicates collapsed |
| `PropertyValuesApi.ObsArcsMeaning` | internal/server/v2/propertyvalues/api.go:69-83 | an observation node has an arc exactly for the requested predicates among its triples; that arc holds one entity, copied from the last triple with that predicate |
| `PropertyValuesApi.ProjectTriples` | internal/server/v2/propertyvalues/api.go:68-83 | the triple loop produces the projected arcs of the node's triples |
| `PropertyValuesApi.BuildObsData` | internal/server/v2/propertyvalues/api.go:67-84 | visiting the triple-fetch result in any key order gives every returned dcid an entry, even with no arcs, and no other node an entry |
| `PropertyValuesApi.BuildRegularArcs` | internal/server/v2/propertyvalues/api.go:102-106 | one arc per requested property, each the merge of the typed values read for it (empty when the fetch has none) |
| `PropertyValuesApi.AddRegularData` | internal/server/v2/propertyvalues/api.go:100-107 | every regular node's entry is written over the response built so far |
| `PropertyValuesApi.PropertyValues` | internal/server/v2/propertyvalues/api.go:37-119 | no nodes gives an empty response whatever the collaborators answer; a triple-fetch error, then a typed-fetch error, then a token-encoding error is returned as is and nothing else; on success the keys are the triple-fetch dcids plus the regular nodes, every regular node has exactly one arc per requested property, every other entry is the observation projection, and the token is the encoded cursor when there is one and empty otherwise |
| `PropertyValuesApi.AssemblyIsDisjoint` | internal/server/v2/propertyvalues/api.go:67-107 | when the triple fetch answers only for the observation nodes asked, no regular node shares a key with an observation entry, so writing the regular entries leaves every observation entry as it was |
| `PropertyValuesApi.KeyPresenceAsymmetry` | internal/server/v2/propertyvalues/api.go:67-107 | a requested property is always an arc of a regular node, but an arc of an observation node only if one of its triples carries it |
| `SpecializationWalk.FirstCustomIndex` | internal/server/v2/propertyvalues/api.go:174-180 | the index found holds a custom-import group and no earlier one does; none is found only when no parent is a custom-import group |
| `SpecializationWalk.PreferredParent` | internal/server/v2/propertyvalues/api.go:173-180 | the chosen ancestor is one of the parents |
| `SpecializationWalk.PreferredParentRule` | internal/server/v2/propertyvalues/api.go:173-180 | a custom-import parent is chosen iff one exists, and then the earliest one; otherwise the first parent is chosen |
| `SpecializationWalk.ChooseParent` | internal/server/v2/propertyvalues/api.go:173-180 | the parent scan with its early break computes the preferred parent |
| `SpecializationWalk.CycleNeverStops` | internal/server/v2/propertyvalues/api.go:171-191 | a cycle of preferred parents that avoids the root makes the walk from any of its groups run forever (no cycle check) |
| `SpecializationWalk.TwoGroupCycle` | internal/server/v2/propertyvalues/api.go:171-191 | two groups that are each other's only parent, neither the root, form such a cycle |
| `SpecializationWalk.AncestorsFuelIndependent` | internal/server/v2/propertyvalues/api.go:171-191 | the chain does not depend on the hop bound used to show the walk stops |
| `SpecializationWalk.AncestorsStep` | internal/server/v2/propertyvalues/api.go:171-191 | the walk stops at an uncached group or when the chosen parent is the root; otherwise it attaches the chosen parent and continues from it |
| `SpecializationWalk.RootExcluded` | internal/server/v2/propertyvalues/api.go:181-183 | the root never appears in an ancestor chain |
| `SpecializationWalk.AncestorsAreParentWalk` | internal/server/v2/propertyvalues/api.go:171-191 | each chain element is the preferred parent of the group before it, none is the root, and the last group is uncached or has the root as its chosen parent |
| `SpecializationWalk.ParentWalkIsAncestors` | internal/server/v2/propertyvalues/api.go:171-191 | conversely, any chain satisfying that description is the ancestor chain, and the walk from its start stops: the output is determined by the cache |
| `SpecializationWalk.WalkAncestors` | internal/server/v2/propertyvalues/api.go:170-191 | the walk loop returns the ancestor chain of its start node |
| `SpecializationWalk.ChainGraphIsChain` | internal/server/v2/propertyvalues/api.go:184-187 | the nested graph has no arcs and exactly one neighbour per level along the path: a linear chain |
| `SpecializationWalk.ChainPathUnique` | internal/server/v2/propertyvalues/api.go:184-187 | the path can be read back from the nested chain graph |
| `LinkedPropertyValuesApi.ReshapePlaces` | internal/server/v2/propertyvalues/api.go:147-153 | one identifier-only entity per contained place, in index order |
| `LinkedPropertyValuesApi.DcidEntitiesRoundTrip` | internal/server/v2/propertyvalues/api.go:150-152 | the identifiers read back from the reshaped list are the index's list |
| `LinkedPropertyValuesApi.ReshapeContainment` | internal/server/v2/propertyvalues/api.go:146-159 | the node loop produces the closure arc of every requested node |
| `LinkedPropertyValuesApi.WalkAll` | internal/server/v2/propertyvalues/api.go:164-193 | every requested node's entry is the chain graph of its ancestors |
| `LinkedPropertyValuesApi.LinkedPropertyValues` | internal/server/v2/propertyvalues/api.go:122-197 | a missing typeOf is InvalidArgument whatever the index and cache hold; containment in returns the index error or the reshaped index; specialization out on StatVarGroup returns the chains; anything else is InvalidArgument naming the linked property |
| `LinkedPropertyValuesApi.ContainmentShape` | internal/server/v2/propertyvalues/api.go:146-159 | every requested node gets exactly the `containedInPlace+` arc, listing the index's places as identifier-only entities in order, empty when the node is absent |
| `LinkedPropertyValuesApi.SpecializationShape` | internal/server/v2/propertyvalues/api.go:164-193 | every requested node gets a linear chain that follows preferred parents and leaves out the root |
| `LinkedPropertyValuesApi.TwoLevelExample` | internal/server/v2/propertyvalues/api.go:171-191 | with A→[B] and B→[root], the chain from A is [B], for any distinct A and non-root B |
| `LinkedPropertyValuesApi.CustomParentPreferred` | internal/server/v2/propertyvalues/api.go:174-180 | with A→[B, Custom_X], the chain from A is [Custom_X], for any A other than Custom_X and any B that is not a custom-import group (A may be the root) |

## Left out

- The collaborators' own behaviour (`node.GetObsTriples`, `v1pv.Fetch`, `v1pv.MergeTypedNodes`, `util.EncodeProto`, `placein.GetPlacesIn`, and how `resource.Cache` is filled): their code is not part of this model, so they are arbitrary functions and maps. The `store` and `metadata` arguments go to them only and are omitted.
- The round trip of the continuation token through its codec: the codec is a collaborator, so only "encoded exactly when a cursor is returned" is modelled.
- gRPC status codes other than the InvalidArgument / propagated-error distinction, protobuf wire encoding, and `context` cancellation.
- Go map iteration order over the triple-fetch result: `BuildObsData` picks keys in an unspecified order. Each dcid is handled independently, so the result does not depend on the order.
- The pointer-linked construction of the nested chain (`g.Neighbor[curr]`, `g = ...`): the walk collects the attached groups as a path, and the nested graph is built from the path as a value. Aliasing of the intermediate `LinkedGraph` pointers is not modelled.
- The `pbv2.Nodes` wrapper around each value list, and the difference between a nil and an empty Go map: both are an empty `map` here.
- The values of `statvar.SvgRoot`, `util.DirectionIn` and `util.DirectionOut` are defined outside the modelled file. The model uses `dc/g/Root`, `in` and `out`; only `CustomParentPreferred` relies on them, and only on the root not being a custom-import group.
- LinkedPropertyValuesApi.LinkedPropertyValues: requires that the walk from every requested node stops (`WalkStops`) in the specialization branch, instead of modelling the index panic on an empty parent list or the endless loop on a cycle. `CycleNeverStops` shows that a cycle of preferred parents avoiding the root, such as two groups that are each other's only parent, breaks this condition; a cycle the walk never follows does not.
- The source writes over an observation entry when the triple fetch answers for a key that is also a regular node; the model follows the code (`res + RegularData`). One might expect a disjoint union; `AssemblyIsDisjoint` shows it is disjoint when the fetch answers only for the observation nodes asked.
- The observation branch replaces each requested predicate's arc with a one-element list at every matching triple, so the last matching triple wins rather than all matching triples being appended. The model follows the code (`ObsArcsMeaning`).
- The containment branch does not check the type filter's value beyond its presence; the model follows the code.
