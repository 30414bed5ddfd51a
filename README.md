# StateGraphLib in Dafny

StateGraphLib is a small reactive engine. Each **node** holds a validated state record (a
pydantic model). It also holds the state it was last loaded with, a "notified" mark saying it
must be processed, and links to its parent and child nodes. A **graph** collects nodes and links
them; `connect` refuses a link whose child is already reachable from its parent (meant as a cycle check; see Findings). `next_batch` hands out the marked nodes
that have no marked node above them, so parents are always processed before their children.
Processing a node runs its `on_notify` callback and marks its children when the state changed.
A **graph serializer** turns a graph into a snapshot: numbered node records plus id pairs, one
per child link. It builds a graph back from such a snapshot by loading each record with the node
class of that name and replaying every pair through `connect`. The **mutations** module diffs
two records into path-addressed mutations, applies a mutation to a record, and checks whether a
mutation applies.

The model has six modules, one file each:

- `values.dfy` (`Values`): the errors, result wrappers, the state records, node kinds
  (class name, `VERSION`, state fields and defaults, constructor parameters), and the JSON text
  of a record. Records are an abstraction of pydantic models: a record is `Model(className,
  private, fields)`, and any other value is `Prim(typeName, json)`.
- `paths.dfy` (`Paths`): reachability, cycles and "everything above" over a link map.
- `state_node.dfy` (`Nodes`): `class Node`, whose links, state, loaded state and mark are
  fields updated in place, as in `StateNode.py`.
- `state_graph.dfy` (`Graphs`): `class StateGraph` and the batch scheduler of `StateGraph.py`.
- `graph_serializer.dfy` (`Serializer`): `GraphSerializer` of `graph_serializer.py`.
- `mutations.dfy` (`Mutations`): `mutations.py`, on record values.

Graph facts are stated over a ghost parameter `world`. It is any set of nodes closed under the
links followed, and every heap has one. `ParentMap(world)` and `ChildMap(world)` turn the links
into maps, so that `Paths` can reason about them. `on_notify` is user code. `Process` takes the
state it leaves behind as a parameter.

Where the code and the library's own description disagree, the model follows the code:

- `process` never copies the state into the loaded state (`prevState`). `has_changed` therefore
  compares against the state the node was loaded with, not the state of the last cycle.
- `notify_all` marks every node, not only the root nodes.
- `has_changed` on a private field reports a change of that field. The record comparison used
  to mark children ignores private fields.
- Snapshot records carry only id, class name, version and state text. There is no notified mark
  and no loaded state, and every deserialized node is unmarked. A node rebuilt from defaults
  with `reinitialize_on_error` is not marked either.
- `connect`'s cycle check looks for the child below the parent, not the parent below the child
  (see Findings).
- A tuple leaf does not round-trip through a mutation: its text decodes to a list.

## Model

| member | source | states |
|---|---|---|
| Values.Attr | StateNode.py:142-144 | `getattr` on a state resolves exactly the declared fields of a record |
| Values.Validate | StateNode.py:155-160 | re-validation passes exactly for a well-formed record |
| Values.PrivateChangeInvisible | StateNode.py:14-18 | two records differing only in private fields are deep-equal |
| Values.ModelValidate | StateNode.py:264-270 | validating a dict succeeds iff every declared field is given or has a default; the record is a state of the class and takes the given values |
| Values.Decode | StateNode.py:256-262 | validating JSON text fails only with ValidationError, and a success is a state of the class |
| Values.DecodeEncode | StateNode.py:148-153 | decoding the JSON text of a class's state with that class gives the same state back |
| Nodes.Node.constructor | StateNode.py:33-43 | a new node has no links, no state, no loaded state and no mark |
| Nodes.Node.Notify | StateNode.py:183-188 | marks the node and changes nothing else |
| Nodes.Node.NotifyChildren | StateNode.py:190-195 | every child is marked; links, states and the node's own mark (unless it is its own child) are unchanged |
| Nodes.Node.Process | StateNode.py:162-181 | AssertionError without a state; nothing happens when unmarked; when run, the state is the callback's, the result is re-validation, the mark is cleared iff validation passes, children are marked iff the new state differs from the old one (private fields aside), and the loaded state is never touched |
| Nodes.Node.SetState | StateNode.py:54-83 | the outcome is `SetStateOutcome`; on failure nothing changes; on success the state is the new one and children are marked per the mode |
| Nodes.SetStateOutcome | StateNode.py:54-83 | set_state succeeds iff the new state validates and, in deep-compare mode, there is a current record; otherwise the validation error or AttributeError |
| Nodes.PrivateOnlySetStateIsSilent | StateNode.py:54-83 | a deep-compare set_state that changes only private fields marks no child |
| Nodes.ModesThatIgnoreTheState | StateNode.py:54-83 | silent mode never marks children, notify-children mode always does |
| Nodes.Node.ApplyChange | StateNode.py:197-208 | the result is `ApplyChangeOutcome`; links and states are unchanged; children are marked exactly when it returns true |
| Nodes.ApplyChangeOutcome | StateNode.py:197-208 | true iff the state validates and the change is forced or the state differs from the loaded one; false iff it validates, is not forced and equals the loaded one; otherwise the validation error or AttributeError |
| Nodes.ApplyChangeAfterLoad | StateNode.py:197-208 | right after loading, an unforced apply_change reports no change |
| Nodes.Node.ValidateState | StateNode.py:155-160 | passes iff there is a well-formed record state; a missing state raises AttributeError |
| Nodes.Node.Serialize | StateNode.py:148-153 | succeeds iff the state validates, fails with the validation error otherwise, and the text decodes back to the state |
| Nodes.Node.LoadFromDict | StateNode.py:264-270 | on success both the state and the loaded state are the validated record; on failure nothing changes |
| Nodes.Node.LoadFromSerialized | StateNode.py:256-262 | as LoadFromDict, from JSON text |
| Nodes.Node.HasChanged | StateNode.py:92-146 | the result is `HasChangedOutcome` for the node's state and loaded state |
| Nodes.Node.HasChangedAlong | StateNode.py:139-145 | walking the path through both states side by side gives `ChangedAlong` |
| Nodes.HasChangedOutcome | StateNode.py:126-146 | an unsupported selector raises ValueError; a getter fails iff there is no loaded state; only ValueError or AttributeError is raised |
| Nodes.CompareDeep | StateNode.py:112-124 | equal values never differ; values of different types always differ |
| Nodes.Split | StateNode.py:136-137 | splitting on dots gives at least one piece, and no piece holds a dot |
| Nodes.SplitJoin | StateNode.py:136-137 | splitting a dot-joined list of dot-free names gives the list back |
| Nodes.DottedIsAttributes | StateNode.py:136-145 | a dotted string and the list of its names select the same attribute |
| Nodes.UnchangedAfterLoad | StateNode.py:92-146 | right after loading, every resolvable selector reports no change |
| Nodes.UnloadedHasNoAttributes | StateNode.py:139-145 | on a node with no state, any non-empty path raises AttributeError |
| Nodes.ResolveFailureSticks | StateNode.py:142-144 | once an attribute is missing, every longer path is missing too |
| Nodes.PrivateFieldChangeIsReported | StateNode.py:112-124 | a change in a private leaf field is invisible to deep equality but reported by has_changed |
| Nodes.Enumerate | StateNode.py:217 | a queue holding each member of the set exactly once |
| Nodes.Node.GetAncestors | StateNode.py:211-229 | the listed nodes are exactly the ancestors of one of the classes, each once; a single found node is such an ancestor; first-only with none found gives the empty list |
| Nodes.Node.Walk | StateNode.py:215-229 | the breadth-first loop visits a set closed under parent links that holds the parents, and lists exactly its members of the classes, without repeats |
| Nodes.Node.GetAncestor | StateNode.py:231-238 | returns an ancestor of one of the classes, and NodeNotFoundError iff there is none |
| Nodes.FromDictState | StateNode.py:248-254 | succeeds iff the constructor arguments are exactly the class's and the dict validates; TypeError or ValidationError otherwise |
| Nodes.FromDefaultsState | StateNode.py:272-280 | succeeds iff the arguments fit and every field has a default, and then every field holds its default |
| Nodes.FromSerializedState | StateNode.py:240-246 | a success is a state of the class; failures are TypeError (arguments) or ValidationError |
| Nodes.FromSerializedOfSerialize | StateNode.py:240-246 | from_serialized of a valid state's JSON text gives the state back |
| Nodes.FromDict | StateNode.py:248-254 | a fresh, unlinked, unmarked node whose state and loaded state are the validated record, or the error |
| Nodes.FromDefaults | StateNode.py:272-280 | as FromDict with an empty dict |
| Nodes.FromSerialized | StateNode.py:240-246 | as FromDict, from JSON text |
| Graphs.HasHigherNotifiedAncestor | StateGraph.py:10-27 | true iff some node reachable by parent links is marked |
| Graphs.AncestorsOfParents | StateGraph.py:10-27 | a node has a marked ancestor iff some parent is marked or has one |
| Graphs.NotifiedNodes | StateGraph.py:29-33 | exactly the marked nodes of the set |
| Graphs.StateGraph.constructor | StateGraph.py:36-37 | a new graph has no nodes |
| Graphs.StateGraph.AddNode | StateGraph.py:61-64 | AssertionError for a node without a state; otherwise the node is added |
| Graphs.StateGraph.CheckCycle | StateGraph.py:66-75 | true only when the child is reachable from the parent by child links; when false, everything newly visited has all its children visited, so the child is unreachable |
| Graphs.StateGraph.Connect | StateGraph.py:39-59 | AssertionError for a self-link; CycleDetectedError iff cycles are refused and the child is already reachable from the parent; otherwise both links are recorded and the nodes with a state are added; links stay mirrored |
| Graphs.StateGraph.Link | StateGraph.py:53-58 | the link is recorded on both nodes, the child map gains exactly that edge, and the parent then the child join the graph |
| Graphs.AddLink | StateGraph.py:54-55 | the parent gains the child and the child gains the parent; mirrored links stay mirrored |
| Graphs.ExistingLinkIsReported | StateGraph.py:49-51 | with the check as written, re-linking an already linked pair is reported as a cycle |
| Graphs.ClosingChainIsNotReported | StateGraph.py:66-75 | with the check as written, the link that closes a chain into a cycle passes the check, and the new map has a cycle |
| Graphs.TransitiveLinkIsReported | StateGraph.py:49-51 | with the check as written, a link that shortcuts a chain `a -> b -> c` is refused as a cycle, though the graph stays acyclic |
| Graphs.StateGraph.ConnectAcyclic | StateGraph.py:39-59 | the corrected connect: CycleDetectedError iff the parent is reachable from the child; the child links stay acyclic |
| Graphs.ExistingLinkIsAccepted | StateGraph.py:66-75 | with the corrected check, re-linking an existing pair in an acyclic graph is accepted |
| Graphs.AcyclicBothWays | StateGraph.py:54-55 | when the links mirror each other, the child links have a cycle iff the parent links have one |
| Graphs.StateGraph.NotifyAll | StateGraph.py:77-83 | every node of the graph is marked, and nothing else changes |
| Graphs.StateGraph.NextBatch | StateGraph.py:85-103 | the batch is exactly the marked nodes with no marked ancestor |
| Graphs.BatchIsAntichain | StateGraph.py:85-103 | no node of a batch lies above another |
| Graphs.BatchCovers | StateGraph.py:85-103 | every marked node is in the batch or lies below a node of it |
| Graphs.BatchEmptyIffQuiet | StateGraph.py:85-103 | the batch is empty iff no node is marked |
| Serializer.Serialize | graph_serializer.py:29-49 | AttributeError iff a node's state is not a record, else KeyError iff a child is outside the graph; otherwise nodes are numbered 1..n distinctly, with one record per node and one pair per child link |
| Serializer.NumberNodes | graph_serializer.py:35-43 | succeeds iff every state is a record, and then numbers the nodes 1..n distinctly and records each |
| Serializer.NumberingOf | graph_serializer.py:35-43 | a finished numbering loop has numbered and recorded every node |
| Serializer.PairAll | graph_serializer.py:46-48 | every child link as a pair of numbers, or KeyError iff some child has no number |
| Serializer.ChildPairs | graph_serializer.py:47-48 | one node's child links as pairs, or KeyError iff some child has no number |
| Serializer.ConnectionsNameRecords | graph_serializer.py:29-49 | both ids of every written pair are ids of written records |
| Serializer.RecordsOnePerNode | graph_serializer.py:35-43 | distinct nodes get distinct records |
| Serializer.ClassesByName | graph_serializer.py:102 | the registry maps exactly the class names, each to a class of that name |
| Serializer.RecordOutcome | graph_serializer.py:56-91 | an unknown class raises UnknownNodeError. Without reinit: a version mismatch raises VersionMismatchError, otherwise the text's state when it loads, else exactly DeserializationError. With reinit: a version mismatch whose defaults fail raises that error, otherwise the text's state when it loads, else the defaults. A success is a state of the class |
| Serializer.RecordRoundTrip | graph_serializer.py:56-91 | a record written by serialize loads back to its state, with or without reinit |
| Serializer.ReinitAlwaysLoads | graph_serializer.py:72-88 | with reinit and loadable defaults a record always loads: to its text's state when that loads, whatever the versions say, and to the defaults otherwise |
| Serializer.LoadRecord | graph_serializer.py:57-91 | builds a fresh node exactly when `RecordOutcome` succeeds, loaded with that state, and fails with its error otherwise |
| Serializer.IdToNodes | graph_serializer.py:52-92 | succeeds iff every record loads, and then maps exactly the record ids to distinct fresh unlinked nodes, each loaded from a record with that id; a failure is some record's error |
| Serializer.FromPairsMirrored | graph_serializer.py:113-120 | the parents and children that the pairs give are each other's mirror |
| Serializer.ConnectNodes | graph_serializer.py:113-120 | on success every pair's ids are known, the graph holds exactly the nodes the pairs name, and every node has exactly the links they give; the only failures are AssertionError and CycleDetectedError; no node's state or loaded state changes |
| Serializer.ReplayPair | graph_serializer.py:114-120 | one loop turn extends the replayed pairs by one and changes no node's state or loaded state |
| Serializer.Replay | graph_serializer.py:120 | one `connect` with the check as written: CycleDetectedError iff the child is already reachable from the parent; on success the pair is linked on both nodes and both join the graph; the only failures are AssertionError and CycleDetectedError; both nodes keep their state, loaded state and mark |
| Serializer.Rebuild | graph_serializer.py:99-108 | on success a fresh graph of exactly the named nodes, each with exactly the children and the parents the pairs give, mirrored, closed under parent and child links, unmarked; no loaded node's state or loaded state changes |
| Serializer.Deserialize | graph_serializer.py:95-110 | a record that fails to load makes it fail with a record's error; on success a fresh graph of exactly the nodes the pairs name, each the node of some id, with exactly the children and the parents the pairs give, mirrored, closed under parent and child links, all unmarked; every id's node is of its record's class and holds the state its record loads to |
| Mutations.SerializeValue | mutations.py:23-33 | TypeError iff the value is a leaf of a type that is not JSON serialisable; a leaf gives its JSON text |
| Mutations.DeserializeValue | mutations.py:35-45 | NotImplementedError iff the type is BaseModel; otherwise a leaf with the recorded text |
| Mutations.CreateMutationValue | mutations.py:47-66 | fails iff serialising fails; the text is the serialised value; a non-tuple leaf decodes back to itself, a tuple to a list; a record carries its schema and never decodes |
| Mutations.SetFieldGet | mutations.py:88 | after `setattr` the field reads the new value and every other field is unchanged |
| Mutations.PutGet | mutations.py:88 | after writing at a resolvable path, the path reads the new value |
| Mutations.PutElsewhere | mutations.py:88 | a write changes nothing at a path that neither contains nor lies inside the written one |
| Mutations.Applied | mutations.py:68-90 | IndexError iff the path is empty; AttributeError iff it does not resolve; ValueError iff the check is on and the current text differs from the old text; NotImplementedError iff the new value is a record; on success the old text matched (when checked) |
| Mutations.ApplyMutation | mutations.py:68-90 | the loop's result is `Applied` |
| Mutations.AppliedWritesOnlyTarget | mutations.py:68-90 | a successful mutation puts the decoded new value at its path, keeps the record's class and field names, and changes no unrelated path |
| Mutations.ValidateMutation | mutations.py:119-132 | true iff the mutation applies; false iff it fails with AttributeError or ValueError; any other error escapes; the record changes only when it applies |
| Mutations.LeafMutation | mutations.py:112-116 | one mutation at the given path, or TypeError |
| Mutations.GetMutations | mutations.py:92-117 | errors are AttributeError (a field missing on the old value, or a new value that is not a record), ValueError or TypeError; on success every path is the prefix plus a field of the new record, and every field of the new record exists in the old one |
| Mutations.DiffFields | mutations.py:97-116 | the loop from field `i` on: paths start with the prefix and a later field, and each of those fields exists in the old record |
| Mutations.FieldMutations | mutations.py:98-116 | the mutations of one field start with that field's name |
| Mutations.NoMutationsBetweenEqual | mutations.py:92-117 | two equal records give no mutations |
| Mutations.MixingRaises | mutations.py:109-110 | a differing field that is a record on one side only raises ValueError |
| Mutations.PathArgumentPrefixes | mutations.py:92-117 | the path argument only prefixes every emitted path |
| Mutations.DistinctAndOrdered | mutations.py:97-116 | emitted paths are distinct and follow the declaration order of the fields |
| Mutations.RoundTrip | mutations.py:92-117 | applying, in order and with the old-value check on, every mutation between two records of the same shape turns the old record into the new one |

## Left out

- `on_notify` is user code. `Process` takes the state it leaves behind as the parameter `afterCallback`, so side effects of the callback on other nodes are not modelled.
- `post_init` (StateNode.py:45-49) is an empty hook for subclasses, and `state()` and `prev_state()` are plain field reads.
- Pydantic validation is abstracted. A record is valid when nested records have distinct field names. `model_validate` of a dict fills each declared field from the dict or its default. JSON text is an abstract `Text` that is either a JSON object or malformed. Field types, coercion and custom validators are not modelled.
- Python's equality across types, float comparison and `jsonable_encoder` are not modelled. A leaf value is identified by its type name and its JSON text. Dicts with non-string keys and leaves whose JSON text collides are outside the model.
- `getattr` on a leaf value (a method or attribute of an `int` or `str`) is not modelled: only declared record fields resolve.
- Python `None` as a state is `Option.None`. Inside `has_changed`, it is the leaf `NoneValue`.
- Nodes.FromDictState: `cls(**node_init_args)` is modelled as succeeding exactly when the keyword names equal the class's constructor parameters. Optional parameters with defaults and `**kwargs` are not modelled. Nodes.FromDefaultsState and Nodes.FromSerializedState, and through them the serializer's loading, share this rule.
- Values.DeepEq: the two `model_dump()` dicts are compared as ordered entry lists. Python's dict `==` ignores key order, so records of different classes with the same fields in another order are equal in Python but different in the model. Records of one class always list their fields in the same declaration order, so comparisons within a class are unaffected.
- Node classes are compared by identity (`kind in cls`): subclassing in `isinstance` is not modelled.
- Nodes.Node.GetAncestors: Python's breadth-first walk lists ancestors nearest first, and with `return_only_first` it returns a matching ancestor at the least depth. It is arbitrary only among matches at that depth, because a set's members enter the queue in an unspecified order. The model proves which ancestors are returned, each once, but not that depth order.
- `world` is a ghost parameter: any set of nodes closed under the links followed, which every heap has. It bounds the searches' termination.
- Nodes.Node.Process, Nodes.Node.SetState: a state that is not a record raises AttributeError at the first record operation; the exact point the error arises inside pydantic is not modelled.
- Graphs with `allow_cycle=True` are modelled by `Connect`, but `HasHigherNotifiedAncestor`, `NextBatch` and the batch lemmas require acyclic parent links. On a cyclic graph the source recurses without end.
- Graphs.StateGraph.Connect: when `_add_node` fails on the parent, the child is not added. The model keeps this, but Python's assertion message is not modelled.
- Serializer.IdToNodes: set iteration order is unspecified. When two records share an id, the one met later in that order wins, and the model does not say which one that is.
- Serializer.ClassesByName: when two classes share a name, either may win.
- The `node_init_args` shape test (graph_serializer.py:65-66) is modelled by `InitArgsSpec`: a per-class map or one shared dict.
- `JSONDecodeError` and `TypeError` from `from_serialized` appear as ValidationError and TypeError in the model, and all three are caught the same way.
- Mutations are modelled on values. `ApplyMutation` returns the updated record rather than updating it in place, so aliasing of a shared nested record is not modelled. The record returned equals the one Python mutates.
- Mutations.Json: JSON rendering has no string escaping.
- JSON well-formedness of a mutation's text (`JSONDecodeError` in `json.loads`) is not modelled. The type `json.loads` gives back is decided by the recorded type name.
- Mutations.SchemaOf: the JSON schema is reduced to the class's title and property names.
- Both module flags of mutations.py (lines 10-11) are off, as shipped; the flagged branches are not modelled.
- The `__main__` demos (mutations.py:135-205, graph_serializer.py:122-178) and the pydantic version warning (mutations.py:6-8) are not modelled.
- Mutations.RoundTrip requires that the new record has no tuple leaves, because a tuple's text decodes to a list.
- `get_node` and the other helpers of `common.py`, `encoders.py` and `exceptions.py` are not part of this model, beyond the error names.

## Findings

| source | as written | input that shows it | evidently intended | confidence | as-written member | corrected member |
|---|---|---|---|---|---|---|
| StateGraph.py:49-51 | `connect` calls `_check_cycle(parent, child)` (StateGraph.py:66-75), which asks whether the child is already reachable from the parent by child links | linking `a -> b` when `a -> b` already exists raises CycleDetectedError; with chain `a -> b -> c`, linking `c -> a` passes the check and closes a cycle, while linking `a -> c` is refused, so a snapshot of the acyclic graph `a -> b`, `b -> c`, `a -> c` fails to load when that pair is replayed last | a link `parent -> child` closes a cycle iff the parent is reachable from the child, so `_check_cycle(child, parent)` | not executed | Graphs.ClosingChainIsNotReported | Graphs.StateGraph.ConnectAcyclic |
