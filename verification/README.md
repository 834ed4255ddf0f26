# appdash InfluxDB store: record reconciliation and trace reconstruction

This project models the core of appdash's InfluxDB-backed span store
(`influxdb_store.go`) and proves properties about it. The core covers:

- **Collect (upsert).** The submitted annotations of a span become a field
  map, with the last duplicate key winning. When a point is already stored
  for the same span identity, every submitted key whose stored value is
  non-empty keeps the stored value. The `schemas` manifest is recomputed as
  the union of the stored and the submitted schema lists.
- **Schema manifest.** `schemasFromAnnotations` joins the schema names of
  the prefixed keys with `,`. `mergeSchemasField` takes the duplicate-free
  union of two manifests. `filterSchemas`, `schemaExists` and
  `findSchemasAnnotation` drop, on read, prefixed annotations whose schema
  the manifest does not list.
- **Row decoding.** `annotationsFromRow` pairs a series' fields with its
  columns by position. `newSpanFromRow` builds a span from a series. The
  field loop of `findSpanPoint` reads back a stored point.
- **Trace reconstruction.**
  - `findTraceParent` is a pre-order search for the node a child hangs
    under.
  - `addChildren` makes repeated reverse-order passes over the pending
    children, bounded by the initial child count.
  - `Trace` partitions one trace's series into a root and children.
  - `Traces` caches root spans by trace, builds the WHERE clause of the
    child query, groups children under their trace and assembles each
    trace.

Layout: one module per concern.

| module | file | concern |
|---|---|---|
| `Types` | `types.dfy` | span identities, annotations, spans, trace trees, query rows, errors |
| `Strings` | `strings.dfy` | split and join on a separator, with round-trip lemmas |
| `Schemas` | `schemas.dfy` | the schema manifest |
| `Decode` | `decode.dfy` | series to annotations to span |
| `Upsert` | `upsert.dfy` | the `Collect` merge |
| `TraceTree` | `tree.dfy` | `findTraceParent` and `addChildren` |
| `Retrieval` | `retrieval.dfy` | `Trace` |
| `TraceListing` | `traces.dfy` | `Traces` |

Modelling choices:

- **Trace trees are values.** A trace is `Trace(span, sub)`.
  - A node is addressed by a path of child indices.
  - `FindTraceParent` returns the path of the node it finds.
  - `AddChildren` is a method whose two loops mirror the retry loop and
    the reverse pass. It is proved equal to the recursive specification
    `AddChildrenSpec`.
- **Go map iteration order is a choice.** Ranging over a map is a `:|`
  choice inside a method. Where the order shows in the result, the method
  returns it as a ghost `order` (`AssembleAll`, `WhereClause`,
  `LoadTraces`), or the contract compares the result as a set
  (`MergeSchemasField`).
- **Integers are unbounded.** An `ID` is an integer in [0, 2^64), as the
  source's `uint64` is.

## Model

| member | source | states |
|---|---|---|
| Strings.Split | influxdb_store.go:589 | at least one part, none holding the separator |
| Strings.JoinSplit | influxdb_store.go:589-603 | joining the parts a split on `,` produced gives back the split string |
| Strings.SplitJoin | influxdb_store.go:617 | splitting a join of separator-free parts gives back exactly those parts |
| Schemas.SchemaNamesHomomorphic | influxdb_store.go:610-616 | schema names keep input order and duplicates; a key contributes its stripped name exactly when it carries the schema prefix |
| Schemas.SchemaNames | influxdb_store.go:609-616 | the reference definition of the names a manifest lists: the prefixed keys with the prefix stripped, in input order, duplicates kept |
| Schemas.SchemasFromAnnotations | influxdb_store.go:608-618 | no prefixed key gives the empty manifest; when no schema name holds `,`, splitting the manifest on `,` gives back the stripped prefixed keys in input order, duplicates kept |
| Schemas.SchemaExists | influxdb_store.go:521-528 | true exactly when the name is among the listed schemas |
| Schemas.FindSchemasAnnotation | influxdb_store.go:531-538 | none exactly when no annotation has key `schemas`; otherwise one of the annotations |
| Schemas.KeepListed | influxdb_store.go:499-516 | an order-preserving subsequence that keeps every copy of a non-prefixed or listed annotation and no copy of any other |
| Schemas.FilterSchemas | influxdb_store.go:488-518 | the same, with the listed schemas read from the first `schemas` annotation split on `,`; requires that annotation, whose absence is a nil dereference in the source |
| Schemas.UnlistedSchemaDropped | influxdb_store.go:488-518 | an unlisted schema's annotation never survives the filter, and every non-prefixed annotation does |
| Schemas.CacheKeys | influxdb_store.go:597-600 | the keys of the union map, each exactly once, in any order |
| Schemas.MergeSchemasField | influxdb_store.go:562-604 | an error exactly when either manifest is neither a string nor nil; otherwise the `,`-joined result has no duplicates and its parts are the union of the two manifests' parts, with nil and "" contributing nothing |
| Decode.AnnotationsFromFields | influxdb_store.go:453-471 | one annotation per field, keyed by the column at the same position; a string gives its bytes, nil an empty value, any other type the unexpected-field-type error |
| Decode.AnnotationsFromRow | influxdb_store.go:440-474 | more than one value row is an error; no value row gives no annotations; otherwise as above |
| Decode.NewSpanFromRow | influxdb_store.go:678-707 | fails exactly when the row's annotations fail, with the same error; otherwise the span has the row's identity and exactly the row's annotations after the manifest filter, an order-preserving subsequence of them (with `annotationsFromEvents` taken as the identity) |
| Upsert.FieldsOf | influxdb_store.go:74-77 | the reference definition of the field map built from the annotations: each key maps to a string value, later annotations overriding earlier ones |
| Upsert.FieldsOfLastWins | influxdb_store.go:74-77 | a key is a field exactly when some annotation has it, and its value is that of the last annotation with the key |
| Upsert.WithoutEmptyFields | influxdb_store.go:660-676 | keeps exactly the keys whose value is neither nil nor "", with their values |
| Upsert.ExtendFields | influxdb_store.go:477-484 | never adds or removes a key of `dst`; a key shared with `src` takes `src`'s value; every other key keeps its value |
| Upsert.FindSpanPoint | influxdb_store.go:319-361 | no series gives none; several series or an empty series is an error; a non-string, non-nil field is an error exactly when one occurs; otherwise a point with a field for every string column (last wins), nil fields skipped, and the time read from the `time` field |
| Upsert.Collect | influxdb_store.go:57-107 | fails exactly when the stored manifest is neither a string nor nil; otherwise writes exactly the submitted keys plus `schemas`; a key with a non-empty stored value keeps it and any other key gets the last submitted value; a new point gets the submitted manifest and the current time; a rewritten point keeps its time and gets the union of the manifests |
| Upsert.RecollectIsIdempotent | influxdb_store.go:57-107 | collecting the same annotations again over the point just written gives the same keys, the same values and a manifest listing the same schemas |
| Upsert.ManifestAccumulates | influxdb_store.go:87-94 | a rewrite never loses a schema of either the stored or the submitted manifest |
| Upsert.StoredValueWins | influxdb_store.go:83-86 | a non-empty stored value survives a collect that submits a different value for its key |
| TraceTree.Attach | influxdb_store.go:632-637 | appends the child to the sub-traces of the node at the path, leaving that node's span and the root span as they were |
| TraceTree.AttachKeepsOthers | influxdb_store.go:632-637 | every node that is not the target node or one of its ancestors stays at the same path, unchanged, after a child is attached |
| TraceTree.AttachKeepsAncestor | influxdb_store.go:632-637 | the target node's ancestors stay at their paths with their spans unchanged |
| TraceTree.AttachIds | influxdb_store.go:632-637 | attaching a child adds exactly the child's span ids to the tree |
| TraceTree.AttachLabels | influxdb_store.go:632-637 | attaching a child adds exactly the child's spans to the tree's multiset of spans |
| TraceTree.AttachWellLinked | influxdb_store.go:632-637 | attaching a well-linked child under the node its parent id names keeps every span under the span its parent id names |
| TraceTree.WalkToParent | influxdb_store.go:543-556 | a node is found at once when the root is the parent; a path found leads to a node whose span id is the parent id; none is found exactly when no node holds that span id |
| TraceTree.WalkSubs | influxdb_store.go:547-555 | a path found among the remaining sub-traces starts at the current index or later and leads below the root to a node with the parent id; none is found exactly when none of them holds it; the match is the first in pre-order (`WalkSubsFirst`) |
| TraceTree.FindTraceParent | influxdb_store.go:541-558 | the root is checked first; the path found leads to a node whose span id is the child's parent id; none is found exactly when no node of the tree has that span id |
| TraceTree.WalkToParentFirst | influxdb_store.go:543-556 | the node the search finds is the first in pre-order with the parent id: no node on a path before it, whether an ancestor or in an earlier sub-trace, has that span id |
| TraceTree.WalkSubsFirst | influxdb_store.go:547-555 | among the sub-traces from the current index on, no node that comes before the one found, in pre-order, has the parent id |
| TraceTree.FindTraceParentFirst | influxdb_store.go:541-558 | the parent found is the first node in pre-order whose span id is the child's parent id |
| TraceTree.AttachPass | influxdb_store.go:628-643 | the reference definition of one reverse-order pass: from the last pending child down, a child whose parent is found is attached there and removed from the pending list, and any other stays pending |
| TraceTree.AddChildrenSpec | influxdb_store.go:646-655 | the reference definition of the retry loop: no pending child is success, no passes left is the retry-limit error, otherwise one more pass |
| TraceTree.AddChildren | influxdb_store.go:621-657 | no children returns the root as it is; the method with the retry loop and the reverse-order pass computes exactly `AddChildrenSpec` |
| TraceTree.PassKeepsRoot | influxdb_store.go:628-643 | a pass never changes the root span |
| TraceTree.PassKeepsLabels | influxdb_store.go:628-643 | a pass moves spans from the pending list into the tree, never losing or duplicating one |
| TraceTree.PassKeepsLinks | influxdb_store.go:628-643 | a pass keeps every span under the span its parent id names |
| TraceTree.PassGrows | influxdb_store.go:628-643 | a pass only adds span ids to the tree |
| TraceTree.PassPendingFromList | influxdb_store.go:639-640 | a child still pending after a pass was pending before it |
| TraceTree.PassAttachedOrPending | influxdb_store.go:628-643 | after a pass, each child is still pending or its span id is in the tree |
| TraceTree.PassLeftovers | influxdb_store.go:628-643 | each child a pass visited and left pending has a parent id the tree did not hold when the pass began |
| TraceTree.PassSuffix | influxdb_store.go:629 | the children the reverse pass has not reached yet stay pending, in order, at the end of the list |
| TraceTree.AddChildrenPreserves | influxdb_store.go:621-657 | on success the root span is unchanged, the tree holds the root's spans plus every child exactly once, and every span hangs under the span its parent id names; failure is only the retry limit |
| TraceTree.AddChildrenKeepsRoot | influxdb_store.go:621-657 | success keeps the root span; failure is only the retry limit |
| TraceTree.AddChildrenKeepsLabels | influxdb_store.go:621-657 | on success every child span is in the tree exactly once, with the root's spans |
| TraceTree.AddChildrenKeepsLinks | influxdb_store.go:621-657 | on success every span hangs under the span its parent id names |
| TraceTree.ClosureMonotone | influxdb_store.go:628-643 | a larger tree and a pending list that only lost children already in the tree reach at least the same ids in the same number of rounds |
| TraceTree.AddChildrenConverges | influxdb_store.go:646-655 | when every pending parent is reachable within fewer rounds than the passes left, the passes succeed |
| TraceTree.PassShortensReach | influxdb_store.go:628-643 | one pass brings every pending parent one round closer to the tree |
| TraceTree.NothingLeftPending | influxdb_store.go:628-643 | when every pending parent is already in the tree, one pass attaches all children |
| TraceTree.PassCoversStep | influxdb_store.go:628-643 | after a full pass the tree holds every id one round of attaching reaches, each leftover child was pending with a parent the tree lacked, and every child is attached or pending |
| TraceTree.AddChildrenSucceedsOnConnectedInput | influxdb_store.go:621-657 | the initial child count is enough passes: if every child's parent is reachable from the root through the children, addChildren succeeds |
| TraceTree.PassStaysWithin | influxdb_store.go:628-643 | a pass keeps the tree within a closed id set, keeps the pending list closed, and leaves pending every child whose parent id lies outside it |
| TraceTree.SubTracesInReverseOrder | influxdb_store.go:628-643 | two children of the root come out as its sub-traces in the reverse of their input order, so swapping the input swaps the result |
| TraceTree.SharedIdShapeDependsOnOrder | influxdb_store.go:543-643 | when two children share a span id, a grandchild goes under the one given last, so the shape of the tree, not just the order of sub-traces, depends on the input order |
| TraceTree.AddChildrenFailsOnUnreachableParent | influxdb_store.go:621-657 | if the tree and the children stay within a set of ids that some child's parent is outside, addChildren fails with the retry limit |
| Retrieval.DecodeAll | influxdb_store.go:144-146 | one decoding outcome per series |
| Retrieval.Partition | influxdb_store.go:144-162 | the reference definition of the series loop: a decoding error ends it; a second root span is the multiple-root error; the first root span becomes the root; every other span is appended as a leaf child |
| Retrieval.DecodeAllAt | influxdb_store.go:144-146 | the i-th decoded span is the decoding of the i-th series |
| Retrieval.SpansOf | influxdb_store.go:144-146 | the decoded spans, one per series, in order |
| Retrieval.PartitionOk | influxdb_store.go:144-162 | a successful partition decoded every series; the root it found is a root span, and none was found exactly when no series is a root; its children are non-root leaves |
| Retrieval.PartitionLabels | influxdb_store.go:144-162 | a successful partition holds every decoded span exactly once, as the root or as a child |
| Retrieval.PartitionErrHasTwoRoots | influxdb_store.go:150-152 | when every series decodes, the partition fails only on a second root span |
| Retrieval.TwoRootsFailPartition | influxdb_store.go:150-152 | two root spans always make the partition fail |
| Retrieval.PartitionErrKinds | influxdb_store.go:144-162 | a partition fails only with the multiple-root error or a decoding error of one of the series |
| Retrieval.PartitionErrSticks | influxdb_store.go:144-162 | once a prefix of the series fails to partition, the whole partition fails the same way |
| Retrieval.TraceOf | influxdb_store.go:134-136 | no series is the trace-not-found error |
| Retrieval.TraceRejectsTwoRoots | influxdb_store.go:150-152 | series that decode and hold two root spans give the multiple-root error |
| Retrieval.TraceWithoutRootFails | influxdb_store.go:122-167 | series that decode but hold no root span give the retry-limit error |
| Retrieval.TraceOfOk | influxdb_store.go:122-167 | a trace is found only when every series decodes and a root is found; it is then the root with the children attached |
| Retrieval.TraceRootIsRootSpan | influxdb_store.go:153-158 | a found trace is rooted at a decoded root span |
| Retrieval.TraceHoldsEachSpan | influxdb_store.go:122-167 | a found trace holds every decoded span exactly once |
| Retrieval.TraceIsWellLinked | influxdb_store.go:122-167 | in a found trace every span hangs under the span its parent id names |
| Retrieval.LoadTrace | influxdb_store.go:122-167 | the loop with its `rootSpanSet` flag computes exactly `TraceOf` of the decoded series |
| TraceListing.RootCache | influxdb_store.go:186-200 | the reference definition of the root-caching loop: a decoding error ends it; a trace id already cached is the duplicated-root error; otherwise the span is cached under its trace id |
| TraceListing.RootCacheOk | influxdb_store.go:186-200 | a successful root cache decoded every root series, and its keys are exactly their trace ids |
| TraceListing.RootCacheHoldsSpans | influxdb_store.go:186-200 | each root span sits in the cache under its trace id |
| TraceListing.RootCacheErrShares | influxdb_store.go:194-199 | when every root series decodes, caching fails only when two root spans share a trace id |
| TraceListing.SharedTraceFailsCache | influxdb_store.go:194-199 | two root spans of one trace always make caching fail |
| TraceListing.RootCacheErrKinds | influxdb_store.go:186-200 | caching fails only with the duplicated-root error or a decoding error |
| TraceListing.RootCacheKeyedByTrace | influxdb_store.go:194-196 | every cached span sits under its own trace id |
| TraceListing.LeavesOfTrace | influxdb_store.go:233-238 | the spans of one trace, in order, as leaves |
| TraceListing.GroupChildren | influxdb_store.go:222-241 | the reference definition of the grouping loop: a decoding error ends it; a child whose trace id is not cached is the parent-not-found error; otherwise the child is appended as a leaf to the group keyed by its cached root's trace id |
| TraceListing.GroupChildrenOk | influxdb_store.go:222-241 | a successful grouping decoded every child series and found each child's trace among the cached roots |
| TraceListing.GroupChildrenGroups | influxdb_store.go:222-241 | a successful grouping holds, for each trace, exactly the leaves of that trace's child spans, in series order |
| TraceListing.GroupChildrenFindsParents | influxdb_store.go:222-241 | children that decode and whose traces are all cached are grouped without error |
| TraceListing.GroupChildrenErrKinds | influxdb_store.go:222-241 | grouping fails only with the parent-not-found error or a decoding error |
| TraceListing.Assembled | influxdb_store.go:242-249 | the reference definition of one assembly: the cached root with its group attached by addChildren, or the bare root when no group exists |
| TraceListing.AssembledKeepsRoot | influxdb_store.go:242-249 | an assembled trace keeps its cached root span; assembly fails only at the retry limit |
| TraceListing.AssembledHoldsGroup | influxdb_store.go:242-249 | an assembled trace holds its root span and each grouped child span, each exactly once |
| TraceListing.AssembledIsWellLinked | influxdb_store.go:242-249 | every span of an assembled trace hangs under the span its parent id names |
| TraceListing.VisitStep | influxdb_store.go:242 | visiting one more key of a map keeps each key visited at most once and splits the keys into visited and remaining |
| TraceListing.ListingFailsIffSomeTraceFails | influxdb_store.go:242-251 | the listing fails exactly when some cached trace does not assemble |
| TraceListing.ListedTraceHoldsItsSpans | influxdb_store.go:169-252 | each listed trace is rooted at a decoded root span of its trace, holds exactly that span and the child spans of its trace, and is well linked |
| TraceListing.CacheRoots | influxdb_store.go:186-200 | the root-caching loop computes exactly `RootCache` of the decoded root series |
| TraceListing.GroupChildSpans | influxdb_store.go:222-241 | the grouping loop computes exactly `GroupChildren` of the decoded child series |
| TraceListing.AssembleAll | influxdb_store.go:242-251 | in the order the cache is visited: every cached trace once, each equal to its assembly, or the retry-limit error of a trace that fails to assemble |
| TraceListing.LoadTraces | influxdb_store.go:169-252 | no root series gives an empty listing; otherwise the outcome of caching, grouping and assembling the decoded series |
| TraceListing.ChildClause | influxdb_store.go:206 | the condition text for one trace: its id and the zero id, as the format string writes them |
| TraceListing.ChildClauses | influxdb_store.go:206 | one condition per visited trace, naming the trace of its cached root span |
| TraceListing.PartialWhereStep | influxdb_store.go:205-212 | writing one more condition appends it, followed by ` OR ` unless it is the last |
| TraceListing.WhereClause | influxdb_store.go:203-213 | one condition per cached trace, in visiting order, separated by ` OR ` with none after the last |

## Left out

- Query execution, the server and client lifecycle, and writing points
  (`executeOneQuery`, `con.Write`, `con.Query`, `init`, `Close`, and the
  database and user set-up). The series a query returns and the stored
  point are parameters. The record `Collect` would write is its result.
- `time.Now` and `time.Parse`. The current time is a parameter, and a
  timestamp is modelled as the text of the `time` field.
- TraceTree.WalkSubs, TraceTree.WalkToParent and TraceTree.FindTraceParent
  do not state in their own contracts that the match is the first in
  pre-order. `WalkSubsFirst`, `WalkToParentFirst` and
  `FindTraceParentFirst` prove it as lemmas, so that the proofs about
  passes do not carry the extra quantifier.
- Upsert.FindSpanPoint does not have the error path of a `time` value that
  does not parse as RFC 3339, because parsing is not modelled.
- Upsert.FindSpanPoint requires a column for every field of the value
  row. The source indexes past the columns otherwise.
- `ParseID` and `ID.String` are not part of this model. A row carries an
  already-parsed span identity, so the tag-parsing errors of
  `newSpanFromRow` are not modelled. `WhereClause` takes the id rendering
  as a parameter `idText`.
- `annotationsFromEvents` is treated as the identity, because its event
  registry is not part of this model.
- Query strings other than the child query's WHERE clause are not
  modelled: the `SELECT` text and the page limit.
- The value of the schema prefix is defined outside `influxdb_store.go`. It
  is fixed here to `_schema:`.
- Concurrency: the lost-update race between concurrent `Collect` calls is
  not modelled. This layer does no locking.
- Pointer aliasing. Traces are values, so the sharing between the root
  cache's `*Trace` entries and the listed traces is not modelled.
- Schemas.SchemasFromAnnotations: a schema name that itself holds the
  separator `,` does not read back as one name from the manifest, so the
  split round trip is stated only for names without `,`.
- Go map iteration order is not modelled. Each map traversal visits the
  keys in an unspecified order, chosen by `:|` or returned as a ghost
  `order`.
- Schemas.FilterSchemas and Decode.NewSpanFromRow require a `schemas`
  annotation and a column for every field. The source dereferences a nil
  annotation or indexes past the columns otherwise, so those inputs
  panic there.
- Retrieval.LoadTrace and TraceListing.LoadTraces take series that meet
  the same requirement.
- Upsert.Collect takes the stored point, or none, instead of a lookup
  result. `FindSpanPoint` models the lookup separately.

A trace whose series hold no root span does not fail with "trace not
found". The children are attached under the empty zero span, none can
attach (a child whose parent id is zero would itself be a root), and
`Trace` fails with "maximum number of retries"
(`Retrieval.TraceWithoutRootFails`).

Assembly does not give the same tree for every order of the series. Each
pass runs from the last pending child to the first and appends, so two
children of the root come out as its sub-traces in reverse input order
(`TraceTree.SubTracesInReverseOrder`). When two spans share a span id,
a child of that id goes under whichever of them is first in the tree, so
even the shape of the tree, ignoring sub-trace order, depends on the input
order (`TraceTree.SharedIdShapeDependsOnOrder`).
