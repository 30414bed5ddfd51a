/** The snapshot codec (graph_serializer.py): a graph becomes a set of node records plus a set of
    id pairs, one per child link; a snapshot becomes a graph again by loading each record with
    the node class of that name and replaying every pair through `connect`. */
module Serializer {
  import opened Values
  import opened Paths
  import opened Nodes
  import opened Graphs

  /** One node of a snapshot. Graph snapshots number nodes with integers; a snapshot read from
      elsewhere may use strings. */
  datatype SerializedNode = SerializedNode(id: StrOrInt, className: string, version: StrOrInt, serializedState: Text)

  datatype SerializedGraph = SerializedGraph(nodes: set<SerializedNode>, connections: set<(StrOrInt, StrOrInt)>)

  /** The record `serialize` writes for a node numbered `id`. */
  function ToRecord(id: int, kind: Kind, state: Value): SerializedNode
    requires state.Model?
  {
    SerializedNode(Int(id), kind.name, kind.version, Encode(state))
  }

  /** `node.state().model_dump_json()` succeeds: the state is a record. */
  predicate Dumpable(n: Node)
    reads n
  {
    n.state.Some? && n.state.value.Model?
  }

  /** `ids` numbers the nodes 1..|nodes|, each number used once. */
  ghost predicate Numbering(nodes: set<Node>, ids: map<Node, int>) {
    && ids.Keys == nodes
    && (forall n :: n in nodes ==> 1 <= ids[n] <= |nodes|)
    && (forall a, b :: a in nodes && b in nodes && a != b ==> ids[a] != ids[b])
  }

  ghost function Records(nodes: set<Node>, ids: map<Node, int>): set<SerializedNode>
    reads nodes
  {
    set n | n in nodes && n in ids && Dumpable(n) :: ToRecord(ids[n], n.kind, n.state.value)
  }

  lemma RecordsAdd(nodes: set<Node>, n: Node, ids: map<Node, int>, k: int)
    requires nodes <= ids.Keys && n !in nodes && Dumpable(n) && forall m :: m in nodes ==> Dumpable(m)
    ensures Records(nodes + {n}, ids[n := k]) == Records(nodes, ids) + {ToRecord(k, n.kind, n.state.value)}
  {
    var ids' := ids[n := k];
    forall m | m in nodes ensures ids'[m] == ids[m] {
    }
  }

  /** The numbered pairs of the child links of one node. */
  ghost function PairsOf(p: Node, ids: map<Node, int>): set<(StrOrInt, StrOrInt)>
    reads p
    requires p in ids && p.children <= ids.Keys
  {
    set c | c in p.children :: (Int(ids[p]), Int(ids[c]))
  }

  /** The numbered pairs of every child link leaving `nodes`. */
  ghost function Connections(nodes: set<Node>, ids: map<Node, int>): set<(StrOrInt, StrOrInt)>
    reads nodes
    requires forall n :: n in nodes ==> n in ids && n.children <= ids.Keys
  {
    set p, c | p in nodes && c in p.children :: (Int(ids[p]), Int(ids[c]))
  }

  lemma ConnectionsAdd(nodes: set<Node>, p: Node, ids: map<Node, int>)
    requires forall n :: n in nodes + {p} ==> n in ids && n.children <= ids.Keys
    ensures Connections(nodes + {p}, ids) == Connections(nodes, ids) + PairsOf(p, ids)
  {
  }

  /** `GraphSerializer.serialize`: numbers the nodes 1, 2, ... in the order it visits them and
      writes one record per node, then one pair per child link. A node whose state is not a
      record fails the first pass (AttributeError); a child outside the graph has no number
      (KeyError). `ids` is the numbering used. */
  method Serialize(graph: StateGraph) returns (r: Result<SerializedGraph>, ghost ids: map<Node, int>)
    ensures r.Err? <==> (exists n :: n in graph.nodes && !Dumpable(n)) || (exists n :: n in graph.nodes && !(n.children <= graph.nodes))
    ensures r.Err? ==> r.error == if exists n :: n in graph.nodes && !Dumpable(n) then AttributeError else KeyError
    ensures r.Ok? ==> Numbering(graph.nodes, ids)
    ensures r.Ok? ==> r.value.nodes == Records(graph.nodes, ids)
    ensures r.Ok? ==> r.value.connections == Connections(graph.nodes, ids)
  {
    var ok, idOf, records := NumberNodes(graph.nodes);
    if !ok {
      return Err(AttributeError), idOf;
    }
    var connections := PairAll(graph.nodes, idOf);
    if connections.Err? {
      return Err(KeyError), idOf;
    }
    r, ids := Ok(SerializedGraph(records, connections.value)), idOf;
  }

  /** The first pass of `serialize`: numbers and records each node, or stops at a node whose
      state is not a record. */
  method NumberNodes(nodes: set<Node>) returns (ok: bool, ids: map<Node, int>, records: set<SerializedNode>)
    ensures ok <==> forall n :: n in nodes ==> Dumpable(n)
    ensures ok ==> Numbering(nodes, ids) && records == Records(nodes, ids)
  {
    records := {};
    ids := map[];
    var counter := 0;
    ghost var owner: map<int, Node> := map[];
    ghost var done := {};
    var todo := nodes;
    while todo != {}
      invariant NumberedPrefix(nodes, done, todo, ids, owner, counter, records)
      decreases todo
    {
      var n :| n in todo;
      if !Dumpable(n) {
        return false, ids, records;
      }
      NumberStep(nodes, done, todo, ids, owner, counter, records, n);
      owner := owner[counter + 1 := n];
      counter := counter + 1;
      ids := ids[n := counter];
      records := records + {ToRecord(counter, n.kind, n.state.value)};
      done := done + {n};
      todo := todo - {n};
    }
    NumberingOf(nodes, done, ids, owner, counter, records);
    ok := true;
  }

  /** The first pass has numbered and recorded the nodes `done`, and not yet those in `todo`. */
  ghost predicate NumberedPrefix(nodes: set<Node>, done: set<Node>, todo: set<Node>, ids: map<Node, int>,
                                 owner: map<int, Node>, counter: int, records: set<SerializedNode>)
    reads done
  {
    && done + todo == nodes && done !! todo
    && ids.Keys == done
    && counter == |ids.Keys| && NumberedUpTo(ids, owner, counter)
    && (forall n :: n in done ==> Dumpable(n))
    && records == Records(done, ids)
  }

  lemma NumberStep(nodes: set<Node>, done: set<Node>, todo: set<Node>, ids: map<Node, int>, owner: map<int, Node>,
                   counter: int, records: set<SerializedNode>, n: Node)
    requires NumberedPrefix(nodes, done, todo, ids, owner, counter, records) && n in todo && Dumpable(n)
    ensures NumberedPrefix(nodes, done + {n}, todo - {n}, ids[n := counter + 1], owner[counter + 1 := n], counter + 1,
                           records + {ToRecord(counter + 1, n.kind, n.state.value)})
  {
    MoveOne(nodes, done, todo, n);
    RecordsAdd(done, n, ids, counter + 1);
    NumberNext(ids, owner, counter, n);
  }

  /** Moving one element from `todo` to `done` keeps them a partition of `all`. */
  lemma MoveOne<T>(all: set<T>, done: set<T>, todo: set<T>, x: T)
    requires done + todo == all && done !! todo && x in todo
    ensures (done + {x}) + (todo - {x}) == all && (done + {x}) !! (todo - {x})
  {
  }

  /** The numbers given so far are 1..counter, and `owner` tells which node has each: no
      number is used twice. */
  ghost predicate NumberedUpTo(ids: map<Node, int>, owner: map<int, Node>, counter: int) {
    forall n :: n in ids ==> 1 <= ids[n] <= counter && ids[n] in owner && owner[ids[n]] == n
  }

  lemma NumberNext(ids: map<Node, int>, owner: map<int, Node>, counter: int, n: Node)
    requires NumberedUpTo(ids, owner, counter) && n !in ids && counter == |ids.Keys|
    ensures NumberedUpTo(ids[n := counter + 1], owner[counter + 1 := n], counter + 1)
    ensures ids[n := counter + 1].Keys == ids.Keys + {n} && |ids[n := counter + 1].Keys| == counter + 1
  {
    assert ids[n := counter + 1].Keys == ids.Keys + {n};
  }

  lemma NumberingOf(nodes: set<Node>, done: set<Node>, ids: map<Node, int>, owner: map<int, Node>, counter: int,
                    records: set<SerializedNode>)
    requires NumberedPrefix(nodes, done, {}, ids, owner, counter, records)
    ensures forall n :: n in nodes ==> Dumpable(n)
    ensures Numbering(nodes, ids) && records == Records(nodes, ids)
  {
    assert done == nodes;
  }

  /** The second pass of `serialize`: the numbered pairs of every child link, or KeyError when
      a child has no number. */
  method PairAll(nodes: set<Node>, ids: map<Node, int>) returns (r: Result<set<(StrOrInt, StrOrInt)>>)
    requires nodes <= ids.Keys
    ensures r.Ok? <==> forall n :: n in nodes ==> n.children <= ids.Keys
    ensures r.Err? ==> r.error == KeyError
    ensures r.Ok? ==> r.value == Connections(nodes, ids)
  {
    var connections: set<(StrOrInt, StrOrInt)> := {};
    var todo := nodes;
    while todo != {}
      invariant todo <= nodes
      invariant forall n :: n in nodes - todo ==> n.children <= ids.Keys
      invariant connections == Connections(nodes - todo, ids)
      decreases todo
    {
      var p :| p in todo;
      var pairs := ChildPairs(p, ids);
      if pairs.Err? {
        return Err(KeyError);
      }
      ConnectionsAdd(nodes - todo, p, ids);
      assert nodes - (todo - {p}) == (nodes - todo) + {p};
      connections := connections + pairs.value;
      todo := todo - {p};
    }
    assert nodes - todo == nodes;
    r := Ok(connections);
  }

  /** The inner loop of the second pass: the numbered pairs of `p`'s child links, or KeyError
      when a child has no number. */
  method ChildPairs(p: Node, ids: map<Node, int>) returns (r: Result<set<(StrOrInt, StrOrInt)>>)
    requires p in ids
    ensures r.Ok? <==> p.children <= ids.Keys
    ensures r.Err? ==> r.error == KeyError
    ensures r.Ok? ==> r.value == PairsOf(p, ids)
  {
    var pairs: set<(StrOrInt, StrOrInt)> := {};
    var todo := p.children;
    while todo != {}
      invariant todo <= p.children
      invariant p.children - todo <= ids.Keys
      invariant pairs == set c | c in p.children - todo :: (Int(ids[p]), Int(ids[c]))
      decreases todo
    {
      var c :| c in todo;
      if c !in ids {
        return Err(KeyError);
      }
      pairs := pairs + {(Int(ids[p]), Int(ids[c]))};
      todo := todo - {c};
    }
    r := Ok(pairs);
  }

  /** Every pair of a snapshot `serialize` writes names two of its records. */
  lemma ConnectionsNameRecords(nodes: set<Node>, ids: map<Node, int>, x: (StrOrInt, StrOrInt))
    requires nodes <= ids.Keys && forall n :: n in nodes ==> Dumpable(n) && n.children <= nodes
    requires x in Connections(nodes, ids)
    ensures exists a :: a in Records(nodes, ids) && a.id == x.0
    ensures exists b :: b in Records(nodes, ids) && b.id == x.1
  {
    var p, c :| p in nodes && c in p.children && x == (Int(ids[p]), Int(ids[c]));
    assert ToRecord(ids[p], p.kind, p.state.value) in Records(nodes, ids);
    assert ToRecord(ids[c], c.kind, c.state.value) in Records(nodes, ids);
  }

  /** Distinct nodes get distinct records: the records tell the nodes apart by number. */
  lemma RecordsOnePerNode(nodes: set<Node>, ids: map<Node, int>, a: Node, b: Node)
    requires Numbering(nodes, ids) && Dumpable(a) && Dumpable(b)
    requires a in nodes && b in nodes && a != b
    ensures ToRecord(ids[a], a.kind, a.state.value) != ToRecord(ids[b], b.kind, b.state.value)
  {
  }

  /** The keyword arguments given to `deserialize`: one dictionary per node class, or one
      dictionary for all of them. */
  datatype InitArgsSpec = PerClass(byKind: map<Kind, InitArgs>) | Shared(args: InitArgs)

  /** The arguments a node of `kind` is built with. A class missing from a per-class map gets
      none. */
  function ArgsFor(spec: InitArgsSpec, kind: Kind): InitArgs {
    match spec
    case PerClass(m) => if kind in m then m[kind] else map[]
    case Shared(a) => a
  }

  /** `registry` maps the name of every class to one class of that name. */
  ghost predicate Registers(registry: map<string, Kind>, classes: set<Kind>) {
    && registry.Keys == (set k | k in classes :: k.name)
    && forall name :: name in registry ==> registry[name] in classes && registry[name].name == name
  }

  /** `{node_class.__name__: node_class for node_class in node_classes}`: when two classes share a
      name, either may win. */
  method ClassesByName(classes: set<Kind>) returns (registry: map<string, Kind>)
    ensures Registers(registry, classes)
  {
    registry := map[];
    var todo := classes;
    while todo != {}
      invariant todo <= classes
      invariant registry.Keys == set k | k in classes - todo :: k.name
      invariant forall name :: name in registry ==> registry[name] in classes && registry[name].name == name
      decreases todo
    {
      var k :| k in todo;
      registry := registry[k.name := k];
      todo := todo - {k};
    }
  }

  /** The state `_id_to_nodes` loads for one record, or the error it raises. An unknown class
      always fails. A version mismatch fails unless `reinit`, in which case a default node is
      built first (its failure escapes) and then thrown away. Loading the text comes next; if it
      fails, `reinit` falls back to the defaults (whose failure escapes too). */
  function RecordOutcome(registry: map<string, Kind>, spec: InitArgsSpec, reinit: bool, rec: SerializedNode): (r: Result<Value>)
    ensures rec.className !in registry ==> r == Err(UnknownNodeError)
    ensures rec.className in registry && registry[rec.className].version != rec.version && !reinit ==>
      r == Err(VersionMismatchError)
    ensures !reinit && r.Err? ==> IsDeserializationError(r.error)
    ensures reinit && r.Err? ==>
      r == Err(UnknownNodeError) || FromDefaultsState(registry[rec.className], ArgsFor(spec, registry[rec.className])).Err?
    ensures r.Ok? ==> rec.className in registry && IsStateOf(registry[rec.className], r.value)
    ensures r.Ok? && !reinit ==>
      r == FromSerializedState(registry[rec.className], rec.serializedState, ArgsFor(spec, registry[rec.className]))
    ensures !reinit && rec.className in registry && registry[rec.className].version == rec.version ==>
      var kind := registry[rec.className];
      var text := FromSerializedState(kind, rec.serializedState, ArgsFor(spec, kind));
      r == if text.Ok? then text else Err(DeserializationError)
    ensures reinit && rec.className in registry ==>
      var kind := registry[rec.className];
      var defaults := FromDefaultsState(kind, ArgsFor(spec, kind));
      var text := FromSerializedState(kind, rec.serializedState, ArgsFor(spec, kind));
      r == if kind.version != rec.version && defaults.Err? then defaults else if text.Ok? then text else defaults
  {
    if rec.className !in registry then Err(UnknownNodeError)
    else
      var kind := registry[rec.className];
      var args := ArgsFor(spec, kind);
      if kind.version != rec.version && !reinit then Err(VersionMismatchError)
      else if kind.version != rec.version && FromDefaultsState(kind, args).Err? then FromDefaultsState(kind, args)
      else match FromSerializedState(kind, rec.serializedState, args)
        case Ok(v) => Ok(v)
        case Err(_) => if reinit then FromDefaultsState(kind, args) else Err(DeserializationError)
  }

  /** A record `serialize` wrote loads back to the state it was written from, whatever `reinit`
      says, when the class is registered under its name and gets the arguments it requires. */
  lemma RecordRoundTrip(registry: map<string, Kind>, spec: InitArgsSpec, reinit: bool, id: int, kind: Kind, v: Value)
    requires IsStateOf(kind, v) && WellFormedValue(v)
    requires kind.name in registry && registry[kind.name] == kind && ArgsFor(spec, kind).Keys == kind.params
    ensures RecordOutcome(registry, spec, reinit, ToRecord(id, kind, v)) == Ok(v)
  {
    FromSerializedOfSerialize(kind, v, ArgsFor(spec, kind));
  }

  /** With `reinit`, a record of a registered class whose defaults load is never refused: its
      node is loaded from the text when that succeeds, whatever the versions say, and built from
      the defaults otherwise. */
  lemma ReinitAlwaysLoads(registry: map<string, Kind>, spec: InitArgsSpec, rec: SerializedNode)
    requires rec.className in registry
    requires FromDefaultsState(registry[rec.className], ArgsFor(spec, registry[rec.className])).Ok?
    ensures RecordOutcome(registry, spec, true, rec).Ok?
    ensures var kind := registry[rec.className];
      FromSerializedState(kind, rec.serializedState, ArgsFor(spec, kind)).Ok? ==>
        RecordOutcome(registry, spec, true, rec) == FromSerializedState(kind, rec.serializedState, ArgsFor(spec, kind))
    ensures var kind := registry[rec.className];
      FromSerializedState(kind, rec.serializedState, ArgsFor(spec, kind)).Err? ==>
        RecordOutcome(registry, spec, true, rec) == FromDefaultsState(kind, ArgsFor(spec, kind))
  {
  }

  /** The node `n` is one just built from `rec`. */
  ghost predicate LoadedFrom(n: Node, rec: SerializedNode, registry: map<string, Kind>, spec: InitArgsSpec, reinit: bool)
    reads n
  {
    rec.className in registry && RecordOutcome(registry, spec, reinit, rec).Ok?
    && Loaded(n, registry[rec.className], RecordOutcome(registry, spec, reinit, rec).value)
  }

  /** The node `n` is of the class `rec` names, and its state and loaded state are the state
      `rec` loads to; its links and mark may have changed since. */
  ghost predicate HoldsRecord(n: Node, rec: SerializedNode, registry: map<string, Kind>, spec: InitArgsSpec, reinit: bool)
    reads n
  {
    && rec.className in registry && RecordOutcome(registry, spec, reinit, rec).Ok?
    && n.kind == registry[rec.className]
    && n.state == Some(RecordOutcome(registry, spec, reinit, rec).value)
    && n.prevState == n.state
  }

  /** A node just loaded: no links, unmarked, its loaded state is its state. */
  predicate Unlinked(n: Node)
    reads n
  {
    n.children == {} && n.parents == {} && Settled(n)
  }

  /** Unmarked, with a state equal to its loaded state. */
  predicate Settled(n: Node)
    reads n
  {
    !n.notified && n.state.Some? && n.state == n.prevState
  }

  /** The body of `_id_to_nodes`'s loop: builds the node for one record with the class's own
      factories, as the function above describes. */
  method LoadRecord(registry: map<string, Kind>, spec: InitArgsSpec, reinit: bool, rec: SerializedNode) returns (r: Result<Node>)
    ensures r.Ok? <==> RecordOutcome(registry, spec, reinit, rec).Ok?
    ensures r.Err? ==> r.error == RecordOutcome(registry, spec, reinit, rec).error
    ensures r.Ok? ==> fresh(r.value) && LoadedFrom(r.value, rec, registry, spec, reinit)
  {
    if rec.className !in registry {
      return Err(UnknownNodeError);
    }
    var kind := registry[rec.className];
    var args := ArgsFor(spec, kind);
    if kind.version != rec.version {
      if !reinit {
        return Err(VersionMismatchError);
      }
      var d := FromDefaults(kind, args);
      if d.Err? {
        return Err(d.error);
      }
    }
    r := FromSerialized(kind, rec.serializedState, args);
    if r.Err? {
      if !reinit {
        return Err(DeserializationError);
      }
      r := FromDefaults(kind, args);
    }
  }

  /** `_id_to_nodes`: loads every record, in some order, and maps its id to its fresh node; the
      first record that fails stops it. When two records share an id, the one met later in the
      (unspecified) iteration order wins. */
  method IdToNodes(records: set<SerializedNode>, registry: map<string, Kind>, spec: InitArgsSpec, reinit: bool)
    returns (r: Result<map<StrOrInt, Node>>)
    ensures r.Err? ==> exists rec :: rec in records && RecordOutcome(registry, spec, reinit, rec) == Err(r.error)
    ensures r.Ok? <==> forall rec :: rec in records ==> RecordOutcome(registry, spec, reinit, rec).Ok?
    ensures r.Ok? ==> r.value.Keys == set rec | rec in records :: rec.id
    ensures r.Ok? ==> forall id :: id in r.value ==>
      fresh(r.value[id]) && exists rec :: rec in records && rec.id == id && LoadedFrom(r.value[id], rec, registry, spec, reinit)
    ensures r.Ok? ==> forall id :: id in r.value ==> Unlinked(r.value[id])
    ensures r.Ok? ==> forall a, b :: a in r.value && b in r.value && a != b ==> r.value[a] != r.value[b]
  {
    var idToNode: map<StrOrInt, Node> := map[];
    ghost var done := {};
    var todo := records;
    while todo != {}
      invariant done + todo == records && done !! todo
      invariant forall rec :: rec in done ==> RecordOutcome(registry, spec, reinit, rec).Ok?
      invariant idToNode.Keys == set rec | rec in done :: rec.id
      invariant forall id :: id in idToNode ==>
        fresh(idToNode[id]) && exists rec :: rec in done && rec.id == id && LoadedFrom(idToNode[id], rec, registry, spec, reinit)
      invariant forall id :: id in idToNode ==> Unlinked(idToNode[id])
      invariant forall a, b :: a in idToNode && b in idToNode && a != b ==> idToNode[a] != idToNode[b]
      decreases todo
    {
      var rec :| rec in todo;
      var node := LoadRecord(registry, spec, reinit, rec);
      if node.Err? {
        return Err(node.error);
      }
      MoveOne(records, done, todo, rec);
      idToNode := idToNode[rec.id := node.value];
      done := done + {rec};
      todo := todo - {rec};
    }
    assert done == done + todo;
    r := Ok(idToNode);
  }

  /** The nodes the pairs of a snapshot name. */
  function Endpoints(connections: set<(StrOrInt, StrOrInt)>, idToNode: map<StrOrInt, Node>): set<Node> {
    (set x | x in connections && x.0 in idToNode :: idToNode[x.0]) +
    (set x | x in connections && x.1 in idToNode :: idToNode[x.1])
  }

  lemma EndpointsAdd(connections: set<(StrOrInt, StrOrInt)>, x: (StrOrInt, StrOrInt), idToNode: map<StrOrInt, Node>)
    requires x.0 in idToNode && x.1 in idToNode
    ensures Endpoints(connections + {x}, idToNode) == Endpoints(connections, idToNode) + {idToNode[x.0], idToNode[x.1]}
  {
  }

  lemma ChildrenFromAdd(n: Node, connections: set<(StrOrInt, StrOrInt)>, x: (StrOrInt, StrOrInt), idToNode: map<StrOrInt, Node>)
    requires x.0 in idToNode && x.1 in idToNode
    ensures ChildrenFrom(n, connections + {x}, idToNode) ==
      ChildrenFrom(n, connections, idToNode) + (if idToNode[x.0] == n then {idToNode[x.1]} else {})
  {
  }

  lemma ParentsFromAdd(n: Node, connections: set<(StrOrInt, StrOrInt)>, x: (StrOrInt, StrOrInt), idToNode: map<StrOrInt, Node>)
    requires x.0 in idToNode && x.1 in idToNode
    ensures ParentsFrom(n, connections + {x}, idToNode) ==
      ParentsFrom(n, connections, idToNode) + (if idToNode[x.1] == n then {idToNode[x.0]} else {})
  {
  }

  /** The parents the pairs give the node `n`. */
  function ParentsFrom(n: Node, connections: set<(StrOrInt, StrOrInt)>, idToNode: map<StrOrInt, Node>): set<Node> {
    set x | x in connections && x.0 in idToNode && x.1 in idToNode && idToNode[x.1] == n :: idToNode[x.0]
  }

  /** Links given by pairs mirror each other. */
  lemma FromPairsMirrored(p: Node, c: Node, connections: set<(StrOrInt, StrOrInt)>, idToNode: map<StrOrInt, Node>)
    ensures p in ParentsFrom(c, connections, idToNode) <==> c in ChildrenFrom(p, connections, idToNode)
  {
    if p in ParentsFrom(c, connections, idToNode) {
      var x :| x in connections && x.0 in idToNode && x.1 in idToNode && idToNode[x.1] == c && idToNode[x.0] == p;
      assert c in ChildrenFrom(p, connections, idToNode);
    }
    if c in ChildrenFrom(p, connections, idToNode) {
      var x :| x in connections && x.0 in idToNode && x.1 in idToNode && idToNode[x.0] == p && idToNode[x.1] == c;
      assert p in ParentsFrom(c, connections, idToNode);
    }
  }

  /** The children the pairs give the node `n`. */
  function ChildrenFrom(n: Node, connections: set<(StrOrInt, StrOrInt)>, idToNode: map<StrOrInt, Node>): set<Node> {
    set x | x in connections && x.0 in idToNode && x.1 in idToNode && idToNode[x.0] == n :: idToNode[x.1]
  }

  /** `connect_nodes`: for every pair, in some order, both ids must be known (AssertionError) and
      the two nodes are linked with `connect`, whose failure stops it. `world` holds the loaded
      nodes; it starts without links. */
  method ConnectNodes(graph: StateGraph, connections: set<(StrOrInt, StrOrInt)>, idToNode: map<StrOrInt, Node>, ghost world: set<Node>)
    returns (r: Outcome)
    requires forall id :: id in idToNode ==> idToNode[id] in world
    requires forall n :: n in world ==> Unlinked(n)
    requires graph.nodes == {}
    modifies graph, world
    ensures r.Pass? ==> Replayed(graph, connections, idToNode, world)
    ensures r.Fail? ==> r.error == AssertionError || r.error == CycleDetectedError
    ensures forall n :: n in world ==> n.state == old(n.state) && n.prevState == old(n.prevState)
  {
    var todo := connections;
    ghost var done := {};
    ReplayedStart(graph, idToNode, world);
    while todo != {}
      invariant done + todo == connections
      invariant Replayed(graph, done, idToNode, world)
      invariant forall n :: n in world ==> n.state == old(n.state) && n.prevState == old(n.prevState)
      decreases todo
    {
      var x :| x in todo;
      if x.0 !in idToNode || x.1 !in idToNode {
        return Fail(AssertionError);
      }
      r := ReplayPair(graph, x, done, idToNode, world);
      if r.Fail? {
        return;
      }
      done := done + {x};
      todo := todo - {x};
    }
    assert done == done + todo;
    r := Pass;
  }

  /** The pairs `done` are replayed: their ids are known, the graph holds exactly the nodes they
      name, every loaded node has exactly the children they give it and is still unmarked with
      its loaded state, and parent and child links mirror each other. */
  ghost predicate Replayed(graph: StateGraph, done: set<(StrOrInt, StrOrInt)>, idToNode: map<StrOrInt, Node>, world: set<Node>)
    reads graph, world
  {
    && (forall x :: x in done ==> x.0 in idToNode && x.1 in idToNode)
    && graph.nodes == Endpoints(done, idToNode) && graph.nodes <= world
    && (forall n :: n in world ==> NodeReplayed(n, done, idToNode, world))
  }

  /** A loaded node after the pairs `done`: the children and parents they give it, still
      unmarked with its loaded state, and with children only among loaded nodes. */
  ghost predicate NodeReplayed(n: Node, done: set<(StrOrInt, StrOrInt)>, idToNode: map<StrOrInt, Node>, world: set<Node>)
    reads n
  {
    && n.children == ChildrenFrom(n, done, idToNode) && n.parents == ParentsFrom(n, done, idToNode)
    && Settled(n) && n.children <= world
  }

  lemma ReplayedStart(graph: StateGraph, idToNode: map<StrOrInt, Node>, world: set<Node>)
    requires forall id :: id in idToNode ==> idToNode[id] in world
    requires forall n :: n in world ==> Unlinked(n)
    requires graph.nodes == {}
    ensures Replayed(graph, {}, idToNode, world)
  {
  }

  /** One turn of `connect_nodes`'s loop, on a pair whose ids are known. */
  method ReplayPair(graph: StateGraph, x: (StrOrInt, StrOrInt), ghost done: set<(StrOrInt, StrOrInt)>,
                    idToNode: map<StrOrInt, Node>, ghost world: set<Node>) returns (r: Outcome)
    requires x.0 in idToNode && x.1 in idToNode
    requires forall id :: id in idToNode ==> idToNode[id] in world
    requires Replayed(graph, done, idToNode, world)
    modifies graph, world
    ensures r.Fail? ==> r.error == AssertionError || r.error == CycleDetectedError
    ensures r.Pass? ==> Replayed(graph, done + {x}, idToNode, world)
    ensures forall n :: n in world ==> n.state == old(n.state) && n.prevState == old(n.prevState)
  {
    var parent, child := idToNode[x.0], idToNode[x.1];
    assert ChildClosed(world);
    r := Replay(graph, parent, child, world);
    if r.Fail? {
      return;
    }
    EndpointsAdd(done, x, idToNode);
    forall n | n in world ensures NodeReplayed(n, done + {x}, idToNode, world) {
      ChildrenFromAdd(n, done, x, idToNode);
      ParentsFromAdd(n, done, x, idToNode);
    }
  }

  /** One `graph.connect(parent, child)` of `connect_nodes`, on nodes that have a state. The
      cycle check is the one `connect` performs as written. */
  method Replay(graph: StateGraph, parent: Node, child: Node, ghost world: set<Node>) returns (r: Outcome)
    requires parent in world && child in world
    requires ChildClosed(world)
    requires Settled(parent) && Settled(child)
    modifies graph, parent, child
    ensures r.Fail? ==> r.error == AssertionError || r.error == CycleDetectedError
    ensures r.Pass? ==> parent != child && graph.nodes == old(graph.nodes) + {parent, child}
    ensures r.Pass? ==> parent.children == old(parent.children) + {child} && child.children == old(child.children)
    ensures r.Pass? ==> child.parents == old(child.parents) + {parent} && parent.parents == old(parent.parents)
    ensures r == Fail(CycleDetectedError) <==> parent != child && old(Reach(ChildMap(world), parent, child))
    ensures Settled(parent) && Settled(child)
    ensures NodesUnchanged(parent) && NodesUnchanged(child)
  {
    r := graph.Connect(parent, child, false, world);
  }

  /** `GraphSerializer.deserialize`: loads every record, then replays every pair through
      `connect` (cycles refused). The graph holds exactly the nodes some pair names, with exactly
      the links the pairs give; a record no pair names is dropped. Loaded nodes are unmarked and
      their loaded state is their state. `idToNode` is the map from ids to loaded nodes. */
  method Deserialize(snapshot: SerializedGraph, classes: set<Kind>, spec: InitArgsSpec, reinit: bool)
    returns (r: Result<StateGraph>, ghost registry: map<string, Kind>, ghost idToNode: map<StrOrInt, Node>)
    ensures Registers(registry, classes)
    ensures (exists rec :: rec in snapshot.nodes && RecordOutcome(registry, spec, reinit, rec).Err?) ==> r.Err?
    ensures r.Err? ==>
      || (exists rec :: rec in snapshot.nodes && RecordOutcome(registry, spec, reinit, rec) == Err(r.error))
      || r.error == AssertionError || r.error == CycleDetectedError
    ensures r.Ok? ==> fresh(r.value)
    ensures r.Ok? ==> idToNode.Keys == set rec | rec in snapshot.nodes :: rec.id
    ensures r.Ok? ==> forall x :: x in snapshot.connections ==> x.0 in idToNode && x.1 in idToNode
    ensures r.Ok? ==> r.value.nodes == Endpoints(snapshot.connections, idToNode)
    ensures r.Ok? ==> forall n :: n in r.value.nodes ==> n.children == ChildrenFrom(n, snapshot.connections, idToNode)
    ensures r.Ok? ==> forall n :: n in r.value.nodes ==> n.parents == ParentsFrom(n, snapshot.connections, idToNode)
    ensures r.Ok? ==> ParentClosed(r.value.nodes) && ChildClosed(r.value.nodes)
    ensures r.Ok? ==> forall n :: n in r.value.nodes ==> fresh(n)
    ensures r.Ok? ==> forall n :: n in r.value.nodes ==> Settled(n)
    ensures r.Ok? ==> LinksMirrored(r.value.nodes)
    ensures r.Ok? ==> forall id :: id in idToNode ==>
      exists rec :: rec in snapshot.nodes && rec.id == id && HoldsRecord(idToNode[id], rec, registry, spec, reinit)
    ensures r.Ok? ==> forall n :: n in r.value.nodes ==> exists id :: id in idToNode && idToNode[id] == n
  {
    var byName := ClassesByName(classes);
    registry := byName;
    var loaded := IdToNodes(snapshot.nodes, byName, spec, reinit);
    if loaded.Err? {
      return Err(loaded.error), registry, map[];
    }
    var m := loaded.value;
    idToNode := m;
    forall n | n in m.Values ensures fresh(n) {
      var id :| id in m && m[id] == n;
    }
    label loaded:
    var graph := Rebuild(snapshot.connections, m);
    if graph.Err? {
      return Err(graph.error), registry, idToNode;
    }
    forall id | id in m
      ensures exists rec :: rec in snapshot.nodes && rec.id == id && HoldsRecord(m[id], rec, registry, spec, reinit)
    {
      var rec :| rec in snapshot.nodes && rec.id == id && old@loaded(LoadedFrom(m[id], rec, registry, spec, reinit));
      assert m[id] in m.Values;
    }
    forall n | n in graph.value.nodes ensures exists id :: id in m && m[id] == n {
      assert n in m.Values;
    }
    r := Ok(graph.value);
  }

  /** The part of `deserialize` after loading: a new graph, with `connect_nodes` run on it. */
  method Rebuild(connections: set<(StrOrInt, StrOrInt)>, idToNode: map<StrOrInt, Node>) returns (r: Result<StateGraph>)
    requires forall n :: n in idToNode.Values ==> Unlinked(n)
    modifies idToNode.Values
    ensures r.Err? ==> r.error == AssertionError || r.error == CycleDetectedError
    ensures r.Ok? ==> fresh(r.value)
    ensures r.Ok? ==> forall x :: x in connections ==> x.0 in idToNode && x.1 in idToNode
    ensures r.Ok? ==> r.value.nodes == Endpoints(connections, idToNode) && r.value.nodes <= idToNode.Values
    ensures r.Ok? ==> forall n :: n in r.value.nodes ==> n.children == ChildrenFrom(n, connections, idToNode)
    ensures r.Ok? ==> forall n :: n in r.value.nodes ==> n.parents == ParentsFrom(n, connections, idToNode)
    ensures r.Ok? ==> ParentClosed(r.value.nodes) && ChildClosed(r.value.nodes)
    ensures r.Ok? ==> forall n :: n in r.value.nodes ==> Settled(n)
    ensures r.Ok? ==> LinksMirrored(r.value.nodes)
    ensures forall n :: n in idToNode.Values ==> n.state == old(n.state) && n.prevState == old(n.prevState)
  {
    var graph := new StateGraph();
    var o := ConnectNodes(graph, connections, idToNode, idToNode.Values);
    if o.Fail? {
      return Err(o.error);
    }
    forall n | n in graph.nodes
      ensures n.children == ChildrenFrom(n, connections, idToNode) && n.parents == ParentsFrom(n, connections, idToNode)
      ensures Settled(n)
    {
      assert NodeReplayed(n, connections, idToNode, idToNode.Values);
    }
    forall p, c | p in graph.nodes && c in graph.nodes ensures p in c.parents <==> c in p.children {
      FromPairsMirrored(p, c, connections, idToNode);
    }
    r := Ok(graph);
  }

}
