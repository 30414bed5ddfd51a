/** A node of the reactive graph (StateNode.py). A node holds a validated state record, the
    state it had when it was last loaded (`prevState`), a flag saying it must be processed,
    and its links to parent and child nodes. Links and flags are updated in place, so a node
    is an object. */
module Nodes {
  import opened Values
  import opened Paths

  /** The three ways `set_state` may tell the children about a new state. */
  datatype SetStateMode = Silent | NotifyChildren | DeepCompare

  /** What `get_ancestors` returns: one node (when asked for the first only and one is found),
      or a list. */
  datatype AncestorsResult = Found(node: Node) | Listed(nodes: seq<Node>)

  /** The property argument of `has_changed`: a dotted string, a list of attribute names,
      a getter, or anything else (rejected). */
  datatype Selector =
    | Dotted(s: string)
    | Attributes(path: seq<string>)
    | Getter(get: Value -> Value)
    | Unsupported

  class Node {
    /** The node's class: fixed for the life of the object. */
    const kind: Kind
    var parents: set<Node>
    var children: set<Node>
    var state: Option<Value>
    var prevState: Option<Value>
    var notified: bool

    /** `cls()`: no links, no state, not notified. */
    constructor (kind: Kind)
      ensures this.kind == kind
      ensures parents == {} && children == {}
      ensures state == None && prevState == None && !notified
    {
      this.kind := kind;
      parents := {};
      children := {};
      state := None;
      prevState := None;
      notified := false;
    }

    /** `notify`: marks the node to be processed. */
    method Notify()
      modifies this
      ensures notified
      ensures parents == old(parents) && children == old(children)
      ensures state == old(state) && prevState == old(prevState)
    {
      notified := true;
    }

    /** `_notify_children`: every child is marked; nothing else about them changes. The node
        itself is marked too when it is its own child. */
    method NotifyChildren()
      modifies children
      ensures parents == old(parents) && children == old(children)
      ensures state == old(state) && prevState == old(prevState)
      ensures notified == (old(notified) || this in children)
      ensures OnlyFlags(children)
      ensures forall c :: c in children ==> c.notified
    {
      var todo := children;
      while todo != {}
        invariant todo <= children
        invariant parents == old(parents) && children == old(children)
        invariant state == old(state) && prevState == old(prevState)
        invariant OnlyFlags(children)
        invariant forall c :: c in children && c !in todo ==> c.notified
        invariant forall c :: c in todo ==> c.notified == old(c.notified)
        invariant this !in children ==> notified == old(notified)
        decreases todo
      {
        var c :| c in todo;
        c.Notify();
        todo := todo - {c};
      }
    }

    /** `process`, where `afterCallback` is the state `on_notify` leaves behind. A node without
        a state fails its assertion; a node that is not marked does nothing; a marked node takes
        the new state, marks its children when the new state differs from the old one (private
        fields aside), re-validates, and is unmarked only when validation succeeds. The state
        it was loaded with (`prevState`) is never touched. */
    method Process(afterCallback: Value) returns (r: Outcome)
      modifies this, children
      ensures parents == old(parents) && children == old(children) && prevState == old(prevState)
      ensures OnlyFlags(children - {this})
      ensures old(state).None? ==> r == Fail(AssertionError)
      ensures old(state).Some? && !old(notified) ==> r == Pass
      ensures old(state).Some? && old(notified) && !old(state).value.Model? ==> r == Fail(AttributeError)
      ensures !Runs(old(state), old(notified)) ==>
        && state == old(state) && notified == old(notified)
        && forall c :: c in children ==> c.notified == old(c.notified)
      ensures Runs(old(state), old(notified)) ==>
        && state == Some(afterCallback)
        && r == Validate(afterCallback)
        && notified == r.Fail?
        && forall c :: c in children && c != this ==>
             c.notified == (old(c.notified) || (afterCallback.Model? && !DeepEq(afterCallback, old(state).value)))
    {
      if state.None? {
        return Fail(AssertionError);
      }
      if !notified {
        return Pass;
      }
      var before := state.value;
      if !before.Model? {
        // model_copy on something that is not a record
        return Fail(AttributeError);
      }
      state := Some(afterCallback);
      if !afterCallback.Model? {
        // the change check (with children) or the validation (without) fails
        return Fail(AttributeError);
      }
      if |children| > 0 && !DeepEq(afterCallback, before) {
        NotifyChildren();
      }
      r := Validate(afterCallback);
      if r == Pass {
        notified := false;
      }
    }

    /** `set_state`: the new state must validate; deep comparison needs a current record;
        children are marked always (NotifyChildren), never (Silent), or when the new state
        differs from the current one, private fields aside (DeepCompare). */
    method SetState(newState: Value, mode: SetStateMode) returns (r: Outcome)
      modifies this, children
      ensures parents == old(parents) && children == old(children) && prevState == old(prevState)
      ensures OnlyFlags(children - {this})
      ensures r == SetStateOutcome(old(state), newState, mode)
      ensures r.Fail? ==>
        && state == old(state) && notified == old(notified)
        && forall c :: c in children ==> c.notified == old(c.notified)
      ensures r.Pass? ==>
        && state == Some(newState)
        && (this !in children ==> notified == old(notified))
        && forall c :: c in children ==> c.notified == (old(c.notified) || Notifies(old(state), newState, mode))
    {
      var valid := Validate(newState);
      if valid.Fail? {
        return valid;
      }
      if mode == DeepCompare && (state.None? || !state.value.Model?) {
        // model_copy on a missing state
        return Fail(AttributeError);
      }
      var before := state;
      state := Some(newState);
      if mode == SetStateMode.NotifyChildren || (mode == DeepCompare && !DeepEq(newState, before.value)) {
        NotifyChildren();
      }
      r := Pass;
    }

    /** `apply_change`: after the state was changed by hand, re-validate it and mark the children
        when it differs from the loaded state (or always, when forced). */
    method ApplyChange(force: bool) returns (r: Result<bool>)
      modifies children
      ensures parents == old(parents) && children == old(children)
      ensures state == old(state) && prevState == old(prevState)
      ensures r == ApplyChangeOutcome(state, prevState, force)
      ensures OnlyFlags(children)
      ensures forall c :: c in children ==> c.notified == (old(c.notified) || r == Ok(true))
      ensures this !in children ==> notified == old(notified)
    {
      if state.None? {
        return Err(AttributeError);
      }
      var valid := Validate(state.value);
      if valid.Fail? {
        return Err(valid.error);
      }
      if !force {
        if prevState.None? || !prevState.value.Model? {
          return Err(AttributeError);
        }
        if DeepEq(state.value, prevState.value) {
          return Ok(false);
        }
      }
      NotifyChildren();
      r := Ok(true);
    }

    /** `validate_state`: a missing state has no validator. */
    function ValidateState(): (r: Outcome)
      reads this
      ensures r == Pass <==> state.Some? && state.value.Model? && WellFormedValue(state.value)
      ensures state.None? ==> r == Fail(AttributeError)
    {
      if state.None? then Fail(AttributeError) else Validate(state.value)
    }

    /** `serialize`: the JSON text of a valid state, which the node's own kind reads back as the
        same state. */
    function Serialize(): (r: Result<Text>)
      reads this
      ensures r.Ok? <==> ValidateState() == Pass
      ensures r.Err? ==> r.error == ValidateState().error
      ensures r.Ok? && IsStateOf(kind, state.value) ==> Decode(kind, r.value) == Ok(state.value)
    {
      match ValidateState()
      case Fail(e) => Err(e)
      case Pass =>
        var v := state.value;
        if IsStateOf(kind, v) then DecodeEncode(kind, v); Ok(Encode(v)) else Ok(Encode(v))
    }

    /** `load_from_dict`: on success the state and the loaded state are both the validated
        record; on failure nothing changes. */
    method LoadFromDict(data: map<string, Value>) returns (r: Outcome)
      modifies this
      ensures parents == old(parents) && children == old(children) && notified == old(notified)
      ensures ModelValidate(kind, data).Ok? ==>
        r == Pass && state == prevState == Some(ModelValidate(kind, data).value)
      ensures ModelValidate(kind, data).Err? ==>
        r == Fail(ModelValidate(kind, data).error) && state == old(state) && prevState == old(prevState)
    {
      var v := ModelValidate(kind, data);
      if v.Err? {
        return Fail(v.error);
      }
      state := Some(v.value);
      prevState := Some(v.value);
      r := Pass;
    }

    /** `load_from_serialized`: as `load_from_dict`, from JSON text. */
    method LoadFromSerialized(text: Text) returns (r: Outcome)
      modifies this
      ensures parents == old(parents) && children == old(children) && notified == old(notified)
      ensures Decode(kind, text).Ok? ==>
        r == Pass && state == prevState == Some(Decode(kind, text).value)
      ensures Decode(kind, text).Err? ==>
        r == Fail(Decode(kind, text).error) && state == old(state) && prevState == old(prevState)
    {
      var v := Decode(kind, text);
      if v.Err? {
        return Fail(v.error);
      }
      state := Some(v.value);
      prevState := Some(v.value);
      r := Pass;
    }

    /** `has_changed`: walks the attribute path through the current and the loaded state side by
        side and compares what it reaches; a getter is applied to both. */
    method HasChanged(sel: Selector) returns (r: Result<bool>)
      ensures r == HasChangedOutcome(state, prevState, sel)
    {
      match sel
      case Unsupported =>
        return Err(ValueError);
      case Getter(get) =>
        var current := get(OrNone(state));
        if prevState.None? {
          return Err(ValueError);
        }
        return Ok(CompareDeep(current, get(prevState.value)));
      case Dotted(_) =>
        r := HasChangedAlong(Split(sel.s));
      case Attributes(path) =>
        r := HasChangedAlong(path);
    }

    method HasChangedAlong(path: seq<string>) returns (r: Result<bool>)
      ensures r == ChangedAlong(OrNone(state), OrNone(prevState), path)
    {
      var cur, prev := OrNone(state), OrNone(prevState);
      var i := 0;
      while i < |path|
        invariant 0 <= i <= |path|
        invariant Resolve(OrNone(state), path[..i]) == Some(cur)
        invariant Resolve(OrNone(prevState), path[..i]) == Some(prev)
      {
        assert path[..i + 1][..i] == path[..i];
        var a := Attr(cur, path[i]);
        if a.None? {
          ResolveFailureSticks(OrNone(state), path, i + 1);
          return Err(AttributeError);
        }
        var b := Attr(prev, path[i]);
        if b.None? {
          ResolveFailureSticks(OrNone(prevState), path, i + 1);
          return Err(AttributeError);
        }
        cur, prev := a.value, b.value;
        i := i + 1;
      }
      assert path[..i] == path;
      r := Ok(CompareDeep(cur, prev));
    }

    /** `get_ancestors`: a breadth-first walk up the parent links from this node. Every
        ancestor of one of the classes in `cls` is listed exactly once; when only the first is
        wanted, one such ancestor is returned (Python's walk gives one at the least depth; the
        model does not state that order), or the empty list when there is none. `world` is
        any set of nodes closed under parent links that holds this node: every heap has one,
        and it bounds the walk. */
    method GetAncestors(cls: set<Kind>, returnOnlyFirst: bool, ghost world: set<Node>) returns (r: AncestorsResult)
      requires this in world && ParentClosed(world)
      ensures !returnOnlyFirst ==> r.Listed?
      ensures r.Found? ==> returnOnlyFirst && r.node in Ancestors(world, this) && r.node.kind in cls
      ensures r.Listed? ==> Distinct(r.nodes)
      ensures r.Listed? ==> forall a :: a in r.nodes <==> a in Ancestors(world, this) && a.kind in cls
      ensures r.Listed? && returnOnlyFirst ==> r.nodes == []
    {
      ghost var E := ParentMap(world);
      ghost var up := Above(E, this);
      SnapshotParents(world);
      SuccAbove(E, this);
      forall a | a in up ensures a.parents <= up {
        AboveStep(E, this, a);
      }
      ghost var visited;
      r, visited := Walk(cls, returnOnlyFirst, up);
      if r.Listed? {
        assert ClosedUnder(E, visited);
        AboveWithin(E, this, visited);
      }
    }

    /** The loop of `get_ancestors`, over a set `up` that holds this node's parents and the
        parents of its own members. When it does not stop early, the nodes it visits hold this
        node's parents and their parents, and the listed nodes are those of one of the classes. */
    method Walk(cls: set<Kind>, returnOnlyFirst: bool, ghost up: set<Node>) returns (r: AncestorsResult, ghost seen: set<Node>)
      requires parents <= up
      requires forall a :: a in up ==> a.parents <= up
      ensures !returnOnlyFirst ==> r.Listed?
      ensures r.Found? ==> returnOnlyFirst && r.node in up && r.node.kind in cls
      ensures r.Listed? ==> seen <= up && parents <= seen
      ensures r.Listed? ==> forall v :: v in seen ==> v.parents <= seen
      ensures r.Listed? ==> Distinct(r.nodes) && forall a :: a in r.nodes <==> a in seen && a.kind in cls
      ensures r.Listed? && returnOnlyFirst ==> r.nodes == []
    {
      var found: seq<Node> := [];
      var queue := Enumerate(parents);
      var visited: set<Node> := {};
      while queue != []
        invariant visited <= up
        invariant Members(queue) <= up
        invariant parents <= visited + Members(queue)
        invariant forall v :: v in visited ==> v.parents <= visited + Members(queue)
        invariant Distinct(found)
        invariant forall a :: a in found <==> a in visited && a.kind in cls
        invariant returnOnlyFirst ==> found == []
        decreases up - visited, |queue|
      {
        var node := queue[0];
        MembersConcat([node], queue[1..]);
        assert queue == [node] + queue[1..];
        queue := queue[1..];
        if node in visited {
          continue;
        }
        ghost var before := visited;
        visited := visited + {node};
        if node.kind in cls {
          if returnOnlyFirst {
            return Found(node), visited;
          }
          DistinctSnoc(found, node);
          found := found + [node];
        }
        var more := Enumerate(set p | p in node.parents && p !in visited);
        MembersConcat(queue, more);
        forall v | v in visited ensures v.parents <= visited + Members(queue + more) {
          if v != node {
            assert v in before;
          }
        }
        queue := queue + more;
      }
      MembersConcat(queue, []);
      r, seen := Listed(found), visited;
    }

    /** `get_ancestor`: an ancestor of one of the classes in `cls` (in Python, a nearest one), or NodeNotFoundError
        exactly when there is none. */
    method GetAncestor(cls: set<Kind>, ghost world: set<Node>) returns (r: Result<Node>)
      requires this in world && ParentClosed(world)
      ensures r.Ok? ==> r.value in Ancestors(world, this) && r.value.kind in cls
      ensures r.Err? <==> forall a :: a in Ancestors(world, this) ==> a.kind !in cls
      ensures r.Err? ==> r.error == NodeNotFoundError
    {
      var a := GetAncestors(cls, true, world);
      if a.Found? {
        return Ok(a.node);
      }
      r := Err(NodeNotFoundError);
    }
  }

  /** Between two heap states, the nodes of `S` changed at most their flags. */
  twostate predicate OnlyFlags(S: set<Node>)
    reads S
  {
    forall c :: c in S ==>
      && c.parents == old(c.parents) && c.children == old(c.children)
      && c.state == old(c.state) && c.prevState == old(c.prevState)
  }

  /** `process` gets past its early exits: there is a record and the node is marked. */
  predicate Runs(state: Option<Value>, notified: bool) {
    state.Some? && state.value.Model? && notified
  }

  /** Whether `set_state` succeeds, and the error it raises when it does not. */
  function SetStateOutcome(current: Option<Value>, newState: Value, mode: SetStateMode): (r: Outcome)
    ensures r == Pass <==>
      Validate(newState) == Pass && (mode == DeepCompare ==> current.Some? && current.value.Model?)
    ensures Validate(newState).Fail? ==> r == Validate(newState)
    ensures r.Fail? && Validate(newState) == Pass ==> r == Fail(AttributeError)
  {
    if Validate(newState).Fail? then Validate(newState)
    else if mode == DeepCompare && (current.None? || !current.value.Model?) then Fail(AttributeError)
    else Pass
  }

  /** Whether a successful `set_state` marks the children. */
  predicate Notifies(current: Option<Value>, newState: Value, mode: SetStateMode)
    requires mode == DeepCompare ==> current.Some?
  {
    mode == NotifyChildren || (mode == DeepCompare && !DeepEq(newState, current.value))
  }

  /** Setting a state that differs from the current one only in private fields is silent under
      deep comparison. */
  lemma PrivateOnlySetStateIsSilent(a: Value, b: Value)
    requires a.Model? && b.Model? && a.className == b.className && a.private == b.private
    requires Names(a.fields) == Names(b.fields)
    requires forall i :: 0 <= i < |a.fields| && a.fields[i].name !in a.private ==> a.fields[i] == b.fields[i]
    ensures !Notifies(Some(a), b, DeepCompare)
  {
    PrivateChangeInvisible(b, a);
  }

  /** Silent mode never marks, NotifyChildren mode always does. */
  lemma ModesThatIgnoreTheState(current: Option<Value>, newState: Value)
    ensures !Notifies(current, newState, Silent) && Notifies(current, newState, NotifyChildren)
  {
  }

  /** What `apply_change` returns: an error from validation, an error when the loaded state
      cannot be compared, otherwise whether the children are marked. */
  function ApplyChangeOutcome(state: Option<Value>, prev: Option<Value>, force: bool): (r: Result<bool>)
    ensures r == Ok(true) <==>
      && state.Some? && Validate(state.value) == Pass
      && (force || (prev.Some? && prev.value.Model? && !DeepEq(state.value, prev.value)))
    ensures r == Ok(false) <==>
      && state.Some? && Validate(state.value) == Pass
      && !force && prev.Some? && prev.value.Model? && DeepEq(state.value, prev.value)
    ensures r.Err? && state.Some? && Validate(state.value).Fail? ==> r.error == Validate(state.value).error
    ensures r.Err? && (state.None? || Validate(state.value) == Pass) ==> r.error == AttributeError
  {
    if state.None? then Err(AttributeError)
    else if Validate(state.value).Fail? then Err(Validate(state.value).error)
    else if force then Ok(true)
    else if prev.None? || !prev.value.Model? then Err(AttributeError)
    else Ok(!DeepEq(state.value, prev.value))
  }

  /** Right after loading, an unforced `apply_change` reports no change. */
  lemma ApplyChangeAfterLoad(v: Value)
    requires Validate(v) == Pass
    ensures ApplyChangeOutcome(Some(v), Some(v), false) == Ok(false)
  {
  }

  /** Python's None stands in for a missing state. */
  function OrNone(o: Option<Value>): (v: Value)
    ensures o.None? ==> v == NoneValue
  {
    if o.Some? then o.value else NoneValue
  }

  /** `str.split(".")`: the pieces between dots, empty ones included. */
  function Split(s: string): (r: seq<string>)
    ensures |r| >= 1
    ensures forall i :: 0 <= i < |r| ==> '.' !in r[i]
  {
    if |s| == 0 then [""]
    else
      var rest := Split(s[1..]);
      if s[0] == '.' then [""] + rest else [[s[0]] + rest[0]] + rest[1..]
  }

  /** `".".join(names)`. */
  function Join(names: seq<string>): string
    requires |names| >= 1
  {
    if |names| == 1 then names[0] else names[0] + "." + Join(names[1..])
  }

  lemma {:induction false} SplitPrefix(a: string, t: string)
    requires '.' !in a
    ensures Split(a + t) == [a + Split(t)[0]] + Split(t)[1..]
  {
    if a != [] {
      assert (a + t)[1..] == a[1..] + t;
      SplitPrefix(a[1..], t);
      assert (a + t)[0] == a[0] != '.';
      assert [a[0]] + (a[1..] + Split(t)[0]) == a + Split(t)[0];
    } else {
      assert a + t == t;
      assert a + Split(t)[0] == Split(t)[0];
      assert Split(t) == [Split(t)[0]] + Split(t)[1..];
    }
  }

  /** Splitting a dotted name gives back the names it was joined from. */
  lemma {:induction false} SplitJoin(names: seq<string>)
    requires |names| >= 1
    requires forall i :: 0 <= i < |names| ==> '.' !in names[i]
    ensures Split(Join(names)) == names
  {
    if |names| == 1 {
      SplitPrefix(names[0], "");
      assert names[0] + "" == names[0];
    } else {
      SplitJoin(names[1..]);
      var t := "." + Join(names[1..]);
      assert names[0] + "." + Join(names[1..]) == names[0] + t;
      assert t[1..] == Join(names[1..]);
      SplitPrefix(names[0], t);
      assert names[0] + "" == names[0];
      assert [names[0]] + names[1..] == names;
    }
  }

  /** `getattr` along a path, one attribute after another. */
  function Resolve(v: Value, path: seq<string>): (r: Option<Value>)
    ensures path == [] ==> r == Some(v)
  {
    if path == [] then Some(v)
    else
      match Resolve(v, path[..|path| - 1])
      case None => None
      case Some(w) => Attr(w, path[|path| - 1])
  }

  /** `compare_deep`: values of different types differ; records are compared without their
      private fields; anything else by its JSON text. */
  function CompareDeep(a: Value, b: Value): (r: bool)
    ensures a == b ==> !r
    ensures a.Model? != b.Model? || TypeName(a) != TypeName(b) ==> r
  {
    if a.Model? != b.Model? || TypeName(a) != TypeName(b) then true
    else if a.Model? then !DeepEq(a, b)
    else a.json != b.json
  }

  function ChangedAlong(state: Value, prev: Value, path: seq<string>): Result<bool> {
    match (Resolve(state, path), Resolve(prev, path))
    case (Some(a), Some(b)) => Ok(CompareDeep(a, b))
    case _ => Err(AttributeError)
  }

  /** What `has_changed` returns for each kind of selector. */
  function HasChangedOutcome(state: Option<Value>, prev: Option<Value>, sel: Selector): (r: Result<bool>)
    ensures sel.Unsupported? ==> r == Err(ValueError)
    ensures sel.Getter? ==> (r.Err? <==> prev.None?)
    ensures r.Err? ==> r.error == ValueError || r.error == AttributeError
  {
    match sel
    case Unsupported => Err(ValueError)
    case Getter(get) =>
      if prev.None? then Err(ValueError) else Ok(CompareDeep(get(OrNone(state)), get(prev.value)))
    case Dotted(s) => ChangedAlong(OrNone(state), OrNone(prev), Split(s))
    case Attributes(path) => ChangedAlong(OrNone(state), OrNone(prev), path)
  }

  /** Right after loading (the state is the loaded state), nothing reachable has changed. */
  lemma UnchangedAfterLoad(v: Value, sel: Selector)
    requires !sel.Unsupported?
    requires sel.Attributes? ==> Resolve(v, sel.path).Some?
    requires sel.Dotted? ==> Resolve(v, Split(sel.s)).Some?
    ensures HasChangedOutcome(Some(v), Some(v), sel) == Ok(false)
  {
  }

  /** A dotted string and the list of its names select the same attribute. */
  lemma DottedIsAttributes(state: Option<Value>, prev: Option<Value>, names: seq<string>)
    requires |names| >= 1
    requires forall i :: 0 <= i < |names| ==> '.' !in names[i]
    ensures HasChangedOutcome(state, prev, Dotted(Join(names))) == HasChangedOutcome(state, prev, Attributes(names))
  {
    SplitJoin(names);
  }

  /** A node that was never loaded has no attributes to follow. */
  lemma UnloadedHasNoAttributes(prev: Option<Value>, path: seq<string>)
    requires path != []
    ensures HasChangedOutcome(None, prev, Attributes(path)) == Err(AttributeError)
  {
    NoneHasNoAttributes(path);
  }

  lemma {:induction false} NoneHasNoAttributes(path: seq<string>)
    requires path != []
    ensures Resolve(NoneValue, path) == None
  {
    if |path| > 1 {
      NoneHasNoAttributes(path[..|path| - 1]);
    }
  }

  /** Once an attribute is missing, every longer path is missing too. */
  lemma {:induction false} ResolveFailureSticks(v: Value, path: seq<string>, i: nat)
    requires i <= |path| && Resolve(v, path[..i]) == None
    ensures Resolve(v, path) == None
    decreases |path| - i
  {
    if i < |path| {
      assert path[..i + 1][..i] == path[..i];
      ResolveFailureSticks(v, path, i + 1);
    } else {
      assert path[..i] == path;
    }
  }

  /** Unlike the record comparison used to mark children, `has_changed` on a private field
      reports a change of that field. */
  lemma PrivateFieldChangeIsReported(a: Value, b: Value, i: nat)
    requires a.Model? && b.Model? && a.className == b.className && a.private == b.private
    requires Names(a.fields) == Names(b.fields) && Distinct(Names(a.fields))
    requires forall j :: 0 <= j < |a.fields| && a.fields[j].name !in a.private ==> a.fields[j] == b.fields[j]
    requires i < |a.fields| && a.fields[i].name in a.private
    requires !a.fields[i].value.Model? && !b.fields[i].value.Model?
    requires a.fields[i].value.typeName == b.fields[i].value.typeName
    requires a.fields[i].value.json != b.fields[i].value.json
    ensures DeepEq(b, a)
    ensures HasChangedOutcome(Some(b), Some(a), Attributes([a.fields[i].name])) == Ok(true)
  {
    PrivateChangeInvisible(b, a);
    var f := a.fields[i].name;
    FieldValueAt(a.fields, i);
    assert b.fields[i].name == f by { assert Names(b.fields)[i] == Names(a.fields)[i]; }
    FieldValueAt(b.fields, i);
    assert [f][..0] == [];
  }

  /** `deque.extend(iterable_of_set)`: the set's members in some order, each once. */
  method Enumerate<T>(s: set<T>) returns (q: seq<T>)
    ensures forall x :: x in q <==> x in s
    ensures Distinct(q)
  {
    q := [];
    var rest := s;
    while rest != {}
      invariant rest <= s
      invariant forall x :: x in q <==> x in s && x !in rest
      invariant Distinct(q)
      decreases rest
    {
      var x :| x in rest;
      q := q + [x];
      rest := rest - {x};
    }
  }

  // The graph as seen through the nodes' links, over a set of nodes `world`.

  ghost function ParentMap(world: set<Node>): map<Node, set<Node>>
    reads world
  {
    map n | n in world :: n.parents
  }

  ghost function ChildMap(world: set<Node>): map<Node, set<Node>>
    reads world
  {
    map n | n in world :: n.children
  }

  ghost predicate ParentClosed(world: set<Node>)
    reads world
  {
    forall n :: n in world ==> n.parents <= world
  }

  ghost predicate ChildClosed(world: set<Node>)
    reads world
  {
    forall n :: n in world ==> n.children <= world
  }

  /** The nodes reachable by one or more parent links. */
  ghost function Ancestors(world: set<Node>, n: Node): set<Node>
    reads world
  {
    Above(ParentMap(world), n)
  }

  function Members<T>(q: seq<T>): set<T> {
    set x | x in q
  }

  lemma SnapshotParents(world: set<Node>)
    ensures forall v :: v in world ==> Succ(ParentMap(world), v) == v.parents
  {
  }

  lemma SnapshotChildren(world: set<Node>)
    ensures forall v :: v in world ==> Succ(ChildMap(world), v) == v.children
  {
  }

  lemma MembersConcat<T>(a: seq<T>, b: seq<T>)
    ensures Members(a + b) == Members(a) + Members(b)
  {
  }

  /** Parent links and child links describe the same edges. */
  ghost predicate LinksMirrored(world: set<Node>)
    reads world
  {
    forall p, c :: p in world && c in world ==> (p in c.parents <==> c in p.children)
  }

  /** The source's own factories, as functions of their inputs: `cls(**node_init_args)` takes
      exactly the class's keyword parameters. */
  function FromDictState(kind: Kind, data: map<string, Value>, args: InitArgs): (r: Result<Value>)
    ensures r.Ok? <==> args.Keys == kind.params && forall f :: f in kind.fieldNames ==> f in data || f in kind.defaults
    ensures r.Err? ==> r.error == (if args.Keys != kind.params then TypeError else ValidationError)
    ensures r.Ok? ==> IsStateOf(kind, r.value)
  {
    if args.Keys != kind.params then Err(TypeError) else ModelValidate(kind, data)
  }

  /** `from_defaults`: succeeds exactly when every declared field has a default. */
  function FromDefaultsState(kind: Kind, args: InitArgs): (r: Result<Value>)
    ensures r.Ok? <==> args.Keys == kind.params && forall f :: f in kind.fieldNames ==> f in kind.defaults
    ensures r.Ok? ==> IsStateOf(kind, r.value)
    ensures r.Ok? ==> forall i :: 0 <= i < |kind.fieldNames| ==> r.value.fields[i].value == kind.defaults[kind.fieldNames[i]]
  {
    FromDictState(kind, map[], args)
  }

  function FromSerializedState(kind: Kind, text: Text, args: InitArgs): (r: Result<Value>)
    ensures r.Ok? ==> IsStateOf(kind, r.value)
    ensures r.Err? ==> r.error == (if args.Keys != kind.params then TypeError else ValidationError)
  {
    if args.Keys != kind.params then Err(TypeError) else Decode(kind, text)
  }

  /** `from_serialized(node.serialize())` rebuilds the node's state. */
  lemma FromSerializedOfSerialize(kind: Kind, v: Value, args: InitArgs)
    requires IsStateOf(kind, v) && WellFormedValue(v) && args.Keys == kind.params
    ensures FromSerializedState(kind, Encode(v), args) == Ok(v)
  {
    DecodeEncode(kind, v);
  }

  /** `from_dict`: a fresh, unlinked, unmarked node whose state and loaded state are the
      validated record. */
  method FromDict(kind: Kind, data: map<string, Value>, args: InitArgs) returns (r: Result<Node>)
    ensures r.Ok? <==> FromDictState(kind, data, args).Ok?
    ensures r.Err? ==> r.error == FromDictState(kind, data, args).error
    ensures r.Ok? ==> Loaded(r.value, kind, FromDictState(kind, data, args).value)
    ensures r.Ok? ==> fresh(r.value)
  {
    if args.Keys != kind.params {
      return Err(TypeError);
    }
    var n := new Node(kind);
    var o := n.LoadFromDict(data);
    if o.Fail? {
      return Err(o.error);
    }
    r := Ok(n);
  }

  /** `from_defaults`: `from_dict` with no data. */
  method FromDefaults(kind: Kind, args: InitArgs) returns (r: Result<Node>)
    ensures r.Ok? <==> FromDefaultsState(kind, args).Ok?
    ensures r.Err? ==> r.error == FromDefaultsState(kind, args).error
    ensures r.Ok? ==> Loaded(r.value, kind, FromDefaultsState(kind, args).value)
    ensures r.Ok? ==> fresh(r.value)
  {
    r := FromDict(kind, map[], args);
  }

  /** `from_serialized`: as `from_dict`, from JSON text. */
  method FromSerialized(kind: Kind, text: Text, args: InitArgs) returns (r: Result<Node>)
    ensures r.Ok? <==> FromSerializedState(kind, text, args).Ok?
    ensures r.Err? ==> r.error == FromSerializedState(kind, text, args).error
    ensures r.Ok? ==> Loaded(r.value, kind, FromSerializedState(kind, text, args).value)
    ensures r.Ok? ==> fresh(r.value)
  {
    if args.Keys != kind.params {
      return Err(TypeError);
    }
    var n := new Node(kind);
    var o := n.LoadFromSerialized(text);
    if o.Fail? {
      return Err(o.error);
    }
    r := Ok(n);
  }

  /** A node just built by a factory. */
  ghost predicate Loaded(n: Node, kind: Kind, v: Value)
    reads n
  {
    && n.kind == kind && n.parents == {} && n.children == {} && !n.notified
    && n.state == Some(v) && n.prevState == Some(v)
  }
}
