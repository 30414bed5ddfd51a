/** Diffing and patching of state records (mutations.py): `get_mutations` lists, for two records of
    the same shape, one path-addressed mutation per differing leaf; `apply_mutation` walks a path
    and replaces the one field it addresses; `validate_mutation` turns the expected failures of
    `apply_mutation` into a boolean. Both module flags (mutations.py:10-11) are off. */
module Mutations {
  import opened Values

  /** The JSON schema of a record class, reduced to its title and its property names. */
  datatype Schema = Schema(title: string, properties: seq<string>)

  /** `MutationValue`: a value as JSON text plus the name of its Python type. */
  datatype MutationValue = MutationValue(value: string, typeName: string, schema: Option<Schema>)

  /** `StateMutation`: the field path inside the record, and the value before and after. */
  datatype StateMutation = StateMutation(path: seq<string>, oldValue: MutationValue, newValue: MutationValue)

  /** The Python types `json.dumps` accepts (sets and frozensets are dumped as lists first). */
  const JsonTypes: set<string> := {"int", "float", "str", "bool", "list", "dict", "NoneType", "tuple", "set", "frozenset"}

  function Join(parts: seq<string>): string {
    if parts == [] then ""
    else if |parts| == 1 then parts[0]
    else parts[0] + "," + Join(parts[1..])
  }

  /** `model_dump_json()`: a record as a JSON object of its fields, in declaration order. */
  function Json(v: Value): string
    decreases v
  {
    match v
    case Prim(_, j) => j
    case Model(_, _, fs) =>
      "{" + Join(seq(|fs|, i requires 0 <= i < |fs| => "\"" + fs[i].name + "\":" + Json(fs[i].value))) + "}"
  }

  /** `_serialize`: a record is dumped with `model_dump_json`; any other value with `json.dumps`,
      which raises TypeError for a type that is not JSON serialisable. */
  function SerializeValue(v: Value): (r: Result<string>)
    ensures r.Err? <==> v.Prim? && v.typeName !in JsonTypes
    ensures r.Err? ==> r.error == TypeError
    ensures r.Ok? && v.Prim? ==> r.value == v.json
  {
    if v.Model? then Ok(Json(v))
    else if v.typeName in JsonTypes then Ok(v.json)
    else Err(TypeError)
  }

  /** The type `json.loads` gives back for the JSON text of a value of type `t`: a tuple comes
      back as a list. */
  function LoadedType(t: string): string {
    if t == "tuple" then "list" else t
  }

  /** `_deserialize`: sets and frozensets are rebuilt from their list, a record cannot be rebuilt
      (NotImplementedError), anything else is `json.loads` of the text. */
  function DeserializeValue(mv: MutationValue): (r: Result<Value>)
    ensures r.Err? <==> mv.typeName == "BaseModel"
    ensures r.Err? ==> r.error == NotImplementedError
    ensures r.Ok? ==> r.value.Prim? && r.value.json == mv.value
  {
    if mv.typeName == "set" || mv.typeName == "frozenset" then Ok(Prim(mv.typeName, mv.value))
    else if mv.typeName == "BaseModel" then Err(NotImplementedError)
    else Ok(Prim(LoadedType(mv.typeName), mv.value))
  }

  function SchemaOf(v: Value): Schema
    requires v.Model?
  {
    Schema(v.className, Names(v.fields))
  }

  /** `create_mutation_value`: a record is tagged "BaseModel" and carries its schema. A leaf
      that is not a tuple decodes back to itself; a record never decodes. */
  function CreateMutationValue(v: Value): (r: Result<MutationValue>)
    ensures r.Err? <==> v.Prim? && v.typeName !in JsonTypes
    ensures r.Err? ==> r.error == TypeError
    ensures r.Ok? ==> SerializeValue(v) == Ok(r.value.value)
    ensures r.Ok? && v.Prim? && v.typeName != "tuple" ==> DeserializeValue(r.value) == Ok(v)
    ensures r.Ok? && v.Prim? && v.typeName == "tuple" ==> DeserializeValue(r.value) == Ok(Prim("list", v.json))
    ensures v.Model? ==> r.Ok? && r.value.schema == Some(SchemaOf(v)) && DeserializeValue(r.value) == Err(NotImplementedError)
  {
    match SerializeValue(v)
    case Err(e) => Err(e)
    case Ok(text) =>
      if v.Model? then Ok(MutationValue(text, "BaseModel", Some(SchemaOf(v))))
      else Ok(MutationValue(text, v.typeName, None))
  }

  // ---------------------------------------------------------------------------------------------
  // Paths into records

  /** Following `getattr` along a path; None when some step is not a field. */
  function Get(v: Value, path: seq<string>): Option<Value>
    decreases |path|
  {
    if path == [] then Some(v)
    else match Attr(v, path[0])
      case None => None
      case Some(c) => Get(c, path[1..])
  }

  /** `setattr(record, name, x)`: the first field called `name` gets the value `x`. */
  function SetField(fs: seq<Field>, name: string, x: Value): (r: seq<Field>)
    ensures Names(r) == Names(fs)
  {
    if fs == [] then []
    else if fs[0].name == name then [Field(name, x)] + fs[1..]
    else [fs[0]] + SetField(fs[1..], name, x)
  }

  /** The record `v` with the value at `path` replaced by `x` (no change when the path does not
      resolve). */
  function Put(v: Value, path: seq<string>, x: Value): Value
    decreases |path|
  {
    if path == [] then x
    else match Attr(v, path[0])
      case None => v
      case Some(c) => v.(fields := SetField(v.fields, path[0], Put(c, path[1..], x)))
  }

  lemma {:induction false} SetFieldGet(fs: seq<Field>, name: string, x: Value, g: string)
    ensures FieldValue(SetField(fs, name, x), g) ==
      if g == name && name in Names(fs) then Some(x) else FieldValue(fs, g)
  {
    if fs != [] {
      assert Names(fs) == [fs[0].name] + Names(fs[1..]);
      if fs[0].name != name {
        SetFieldGet(fs[1..], name, x, g);
        assert SetField(fs, name, x)[1..] == SetField(fs[1..], name, x);
      }
    }
  }

  lemma {:induction false} SetFieldAt(fs: seq<Field>, i: nat, x: Value)
    requires i < |fs| && Distinct(Names(fs))
    ensures SetField(fs, fs[i].name, x) == fs[i := Field(fs[i].name, x)]
  {
    if i > 0 {
      assert Names(fs)[0] != Names(fs)[i];
      assert Names(fs[1..]) == Names(fs)[1..];
      SetFieldAt(fs[1..], i - 1, x);
    }
  }

  lemma {:induction false} GetSnoc(v: Value, p: seq<string>, x: string)
    ensures Get(v, p + [x]) == if Get(v, p).Some? then Attr(Get(v, p).value, x) else None
    decreases |p|
  {
    if p == [] {
      assert Get(v, [x]) == (match Attr(v, x) case None => None case Some(c) => Get(c, []));
    } else {
      assert (p + [x])[0] == p[0] && (p + [x])[1..] == p[1..] + [x];
      match Attr(v, p[0])
      case None =>
      case Some(c) => GetSnoc(c, p[1..], x);
    }
  }

  lemma {:induction false} GetPrefixNone(v: Value, p: seq<string>, q: seq<string>)
    requires Get(v, p).None?
    ensures Get(v, p + q).None?
    decreases |p|
  {
    assert p != [];
    assert (p + q)[0] == p[0] && (p + q)[1..] == p[1..] + q;
    match Attr(v, p[0])
    case None =>
    case Some(c) => GetPrefixNone(c, p[1..], q);
  }

  /** After a put, the path holds the new value. */
  lemma {:induction false} PutGet(v: Value, p: seq<string>, x: Value)
    requires Get(v, p).Some?
    ensures Get(Put(v, p, x), p) == Some(x)
    decreases |p|
  {
    if p != [] {
      var c := Attr(v, p[0]).value;
      PutGet(c, p[1..], x);
      SetFieldGet(v.fields, p[0], Put(c, p[1..], x), p[0]);
    }
  }

  /** A put changes nothing at a path that neither contains nor lies inside the one written. */
  lemma {:induction false} PutElsewhere(v: Value, p: seq<string>, x: Value, q: seq<string>)
    requires !(p <= q) && !(q <= p)
    ensures Get(Put(v, p, x), q) == Get(v, q)
    decreases |p|
  {
    assert p != [] && q != [];
    match Attr(v, p[0])
    case None =>
    case Some(c) =>
      var w := v.(fields := SetField(v.fields, p[0], Put(c, p[1..], x)));
      SetFieldGet(v.fields, p[0], Put(c, p[1..], x), q[0]);
      if q[0] == p[0] {
        assert p == [p[0]] + p[1..] && q == [q[0]] + q[1..];
        PutElsewhere(c, p[1..], x, q[1..]);
      }
  }

  /** A put below the root keeps the record's class, private list and field names. */
  lemma PutKeepsShape(v: Value, p: seq<string>, x: Value)
    requires v.Model? && p != []
    ensures var w := Put(v, p, x);
      w.Model? && w.className == v.className && w.private == v.private && Names(w.fields) == Names(v.fields)
  {
  }

  // ---------------------------------------------------------------------------------------------
  // apply_mutation and validate_mutation

  /** What `apply_mutation(model, m, ignore_old_value)` does to the record: an empty path fails
      on `path[-1]` (IndexError), a path that does not resolve raises AttributeError, a current
      value whose text differs from the recorded old text raises ValueError (unless ignored),
      and otherwise the addressed field gets the decoded new value. */
  function Applied(model: Value, m: StateMutation, ignoreOldValue: bool): (r: Result<Value>)
    ensures r == Err(IndexError) <==> m.path == []
    ensures r == Err(AttributeError) <==> m.path != [] && Get(model, m.path).None?
    ensures r == Err(ValueError) <==>
      m.path != [] && Get(model, m.path).Some? && !ignoreOldValue &&
      SerializeValue(Get(model, m.path).value).Ok? && SerializeValue(Get(model, m.path).value).value != m.oldValue.value
    ensures r == Err(NotImplementedError) <==>
      m.path != [] && Get(model, m.path).Some? && m.newValue.typeName == "BaseModel" &&
      (ignoreOldValue || SerializeValue(Get(model, m.path).value) == Ok(m.oldValue.value))
    ensures r.Ok? ==> m.path != [] && Get(model, m.path).Some? && DeserializeValue(m.newValue).Ok?
    ensures r.Ok? && !ignoreOldValue ==> SerializeValue(Get(model, m.path).value) == Ok(m.oldValue.value)
  {
    if m.path == [] then Err(IndexError)
    else match Get(model, m.path)
      case None => Err(AttributeError)
      case Some(current) =>
        if !ignoreOldValue && SerializeValue(current).Err? then Err(SerializeValue(current).error)
        else if !ignoreOldValue && SerializeValue(current).value != m.oldValue.value then Err(ValueError)
        else match DeserializeValue(m.newValue)
          case Err(e) => Err(e)
          case Ok(x) => Ok(Put(model, m.path, x))
  }

  /** `apply_mutation`: walks to the parent of the addressed field, reads the field, checks its
      old value and writes the new one. The result is the updated record. */
  method ApplyMutation(model: Value, m: StateMutation, ignoreOldValue: bool) returns (r: Result<Value>)
    ensures r == Applied(model, m, ignoreOldValue)
  {
    var parentPath := if m.path == [] then [] else m.path[..|m.path| - 1];
    var value := model;
    var i := 0;
    while i < |parentPath|
      invariant 0 <= i <= |parentPath|
      invariant Get(model, parentPath[..i]) == Some(value)
    {
      var next := Attr(value, parentPath[i]);
      GetSnoc(model, parentPath[..i], parentPath[i]);
      assert parentPath[..i] + [parentPath[i]] == parentPath[..i + 1];
      if next.None? {
        GetPrefixNone(model, parentPath[..i + 1], m.path[i + 1..]);
        assert parentPath[..i + 1] + m.path[i + 1..] == m.path;
        return Err(AttributeError);
      }
      value := next.value;
      i := i + 1;
    }
    if m.path == [] {
      return Err(IndexError);
    }
    var last := m.path[|m.path| - 1];
    assert parentPath[..i] + [last] == m.path;
    GetSnoc(model, parentPath[..i], last);
    var current := Attr(value, last);
    if current.None? {
      return Err(AttributeError);
    }
    if !ignoreOldValue {
      var text := SerializeValue(current.value);
      if text.Err? {
        return Err(text.error);
      }
      if text.value != m.oldValue.value {
        return Err(ValueError);
      }
    }
    var x := DeserializeValue(m.newValue);
    if x.Err? {
      return Err(x.error);
    }
    r := Ok(Put(model, m.path, x.value));
  }

  /** A successful mutation puts the decoded new value at its path, keeps the record's shape,
      and leaves every path that neither contains nor lies inside it unchanged. */
  lemma AppliedWritesOnlyTarget(model: Value, m: StateMutation, ignoreOldValue: bool, q: seq<string>)
    requires model.Model? && Applied(model, m, ignoreOldValue).Ok?
    ensures var after := Applied(model, m, ignoreOldValue).value;
      && Get(after, m.path) == Some(DeserializeValue(m.newValue).value)
      && after.className == model.className && Names(after.fields) == Names(model.fields)
      && (!(m.path <= q) && !(q <= m.path) ==> Get(after, q) == Get(model, q))
  {
    var x := DeserializeValue(m.newValue).value;
    PutGet(model, m.path, x);
    PutKeepsShape(model, m.path, x);
    if !(m.path <= q) && !(q <= m.path) {
      PutElsewhere(model, m.path, x, q);
    }
  }

  /** `validate_mutation`: true when the mutation applies, false when it fails with
      AttributeError or ValueError, and any other error escapes. A mutation that applies has
      changed the record (`after`); one that fails has not. */
  method ValidateMutation(model: Value, m: StateMutation, ignoreOldValue: bool) returns (r: Result<bool>, after: Value)
    ensures r == Ok(true) <==> Applied(model, m, ignoreOldValue).Ok?
    ensures r == Ok(false) <==>
      Applied(model, m, ignoreOldValue) == Err(AttributeError) || Applied(model, m, ignoreOldValue) == Err(ValueError)
    ensures r.Err? ==> Applied(model, m, ignoreOldValue) == Err(r.error)
    ensures after == if Applied(model, m, ignoreOldValue).Ok? then Applied(model, m, ignoreOldValue).value else model
  {
    var applied := ApplyMutation(model, m, ignoreOldValue);
    match applied
    case Ok(v) =>
      r, after := Ok(true), v;
    case Err(e) =>
      after := model;
      if e == AttributeError || e == ValueError {
        r := Ok(false);
      } else {
        r := Err(e);
      }
  }

  // ---------------------------------------------------------------------------------------------
  // get_mutations

  /** The mutation for a differing leaf at `path`. */
  function LeafMutation(path: seq<string>, oldLeaf: Value, newLeaf: Value): (r: Result<seq<StateMutation>>)
    ensures r.Err? ==> r.error == TypeError
    ensures r.Ok? ==> |r.value| == 1 && r.value[0].path == path
  {
    match CreateMutationValue(oldLeaf)
    case Err(e) => Err(e)
    case Ok(a) =>
      match CreateMutationValue(newLeaf)
      case Err(e) => Err(e)
      case Ok(b) => Ok([StateMutation(path, a, b)])
  }

  /** The field `f` of the new record is one `get_mutations` accepts against `oldModel`: the
      old record has it, and if the values differ they are both records or both leaves. */
  predicate Matches(oldModel: Value, f: Field) {
    Attr(oldModel, f.name).Some? &&
    (f.value != Attr(oldModel, f.name).value ==> f.value.Model? == Attr(oldModel, f.name).value.Model?)
  }

  /** The errors `get_mutations` raises. */
  predicate DiffError(e: Error) {
    e == AttributeError || e == ValueError || e == TypeError
  }

  /** Every path starts with `path` and goes on with one of `names`. */
  predicate Below(ms: seq<StateMutation>, path: seq<string>, names: seq<string>) {
    forall k :: 0 <= k < |ms| ==>
      |ms[k].path| > |path| && ms[k].path[..|path|] == path && ms[k].path[|path|] in names
  }

  lemma BelowStep(ms: seq<StateMutation>, path: seq<string>, name: string, names: seq<string>)
    requires Below(ms, path + [name], names)
    ensures Below(ms, path, [name])
  {
    forall k | 0 <= k < |ms| ensures ms[k].path[..|path|] == path && ms[k].path[|path|] == name {
      assert ms[k].path[..|path|] == ms[k].path[..|path| + 1][..|path|];
      assert ms[k].path[|path|] == ms[k].path[..|path| + 1][|path|];
    }
  }

  lemma BelowConcat(a: seq<StateMutation>, b: seq<StateMutation>, path: seq<string>, name: string, names: seq<string>)
    requires Below(a, path, [name]) && Below(b, path, names)
    ensures Below(a + b, path, [name] + names)
  {
  }

  /** `get_mutations(old, new, path)`: the mutations turning the old record into the new one,
      every path starting with `path` and naming a field of the new record next. */
  function GetMutations(oldModel: Value, newModel: Value, path: seq<string>): (r: Result<seq<StateMutation>>)
    ensures r.Err? ==> DiffError(r.error)
    ensures r.Ok? ==> newModel.Model? && Below(r.value, path, Names(newModel.fields))
    ensures r.Ok? ==> newModel.Model? && forall j :: 0 <= j < |newModel.fields| ==> Matches(oldModel, newModel.fields[j])
    decreases newModel, 1
  {
    if newModel.Prim? then Err(AttributeError) else DiffFields(oldModel, newModel, path, 0)
  }

  /** The loop of `get_mutations` from the field at index `i` on, in declaration order. */
  function DiffFields(oldModel: Value, newModel: Value, path: seq<string>, i: nat): (r: Result<seq<StateMutation>>)
    requires newModel.Model? && i <= |newModel.fields|
    ensures r.Err? ==> DiffError(r.error)
    ensures r.Ok? ==> Below(r.value, path, Names(newModel.fields[i..]))
    ensures r.Ok? ==> forall j :: i <= j < |newModel.fields| ==> Matches(oldModel, newModel.fields[j])
    decreases newModel, 0, |newModel.fields| - i
  {
    if i == |newModel.fields| then Ok([])
    else
      match FieldMutations(oldModel, newModel.fields[i], path)
      case Err(e) => Err(e)
      case Ok(here) =>
        match DiffFields(oldModel, newModel, path, i + 1)
        case Err(e) => Err(e)
        case Ok(rest) =>
          BelowConcat(here, rest, path, newModel.fields[i].name, Names(newModel.fields[i + 1..]));
          assert Names(newModel.fields[i..]) == [newModel.fields[i].name] + Names(newModel.fields[i + 1..]);
          Ok(here + rest)
  }

  /** One turn of the loop of `get_mutations`: the mutations for the new record's field `f`. */
  function FieldMutations(oldModel: Value, f: Field, path: seq<string>): (r: Result<seq<StateMutation>>)
    ensures r.Err? ==> DiffError(r.error)
    ensures r.Ok? ==> Below(r.value, path, [f.name]) && Matches(oldModel, f)
    decreases f.value, 2
  {
    match Attr(oldModel, f.name)
    case None => Err(AttributeError)
    case Some(ov) =>
      if f.value == ov then Ok([])
      else if f.value.Model? && ov.Model? then
        match GetMutations(ov, f.value, path + [f.name])
        case Err(e) => Err(e)
        case Ok(ms) => BelowStep(ms, path, f.name, Names(f.value.fields)); Ok(ms)
      else if f.value.Model? || ov.Model? then Err(ValueError)
      else LeafMutation(path + [f.name], ov, f.value)
  }

  /** Two equal records have no mutations between them. */
  lemma NoMutationsBetweenEqual(v: Value, path: seq<string>)
    requires v.Model? && Distinct(Names(v.fields))
    ensures GetMutations(v, v, path) == Ok([])
  {
    EqualFrom(v, path, 0);
  }

  lemma {:induction false} EqualFrom(v: Value, path: seq<string>, i: nat)
    requires v.Model? && Distinct(Names(v.fields)) && i <= |v.fields|
    ensures DiffFields(v, v, path, i) == Ok([])
    decreases |v.fields| - i
  {
    if i < |v.fields| {
      FieldValueAt(v.fields, i);
      assert Attr(v, v.fields[i].name) == Some(v.fields[i].value);
      assert FieldMutations(v, v.fields[i], path) == Ok([]);
      EqualFrom(v, path, i + 1);
      var none: seq<StateMutation> := [];
      assert none + none == none;
      assert DiffFields(v, v, path, i) == Ok(none + none);
    }
  }

  /** A differing field with a record on exactly one side, after fields that all agree, makes
      `get_mutations` raise ValueError. */
  lemma MixingRaises(oldModel: Value, newModel: Value, path: seq<string>, j: nat)
    requires newModel.Model? && j < |newModel.fields|
    requires forall k :: 0 <= k < j ==> Attr(oldModel, newModel.fields[k].name) == Some(newModel.fields[k].value)
    requires Attr(oldModel, newModel.fields[j].name).Some?
    requires newModel.fields[j].value.Model? != Attr(oldModel, newModel.fields[j].name).value.Model?
    ensures GetMutations(oldModel, newModel, path) == Err(ValueError)
  {
    MixingFrom(oldModel, newModel, path, j, 0);
  }

  lemma {:induction false} MixingFrom(oldModel: Value, newModel: Value, path: seq<string>, j: nat, i: nat)
    requires newModel.Model? && i <= j < |newModel.fields|
    requires forall k :: 0 <= k < j ==> Attr(oldModel, newModel.fields[k].name) == Some(newModel.fields[k].value)
    requires Attr(oldModel, newModel.fields[j].name).Some?
    requires newModel.fields[j].value.Model? != Attr(oldModel, newModel.fields[j].name).value.Model?
    ensures DiffFields(oldModel, newModel, path, i) == Err(ValueError)
    decreases j - i
  {
    if i < j {
      MixingFrom(oldModel, newModel, path, j, i + 1);
    }
  }

  /** The same mutations with `p` put in front of every path. */
  function Prefixed(p: seq<string>, ms: seq<StateMutation>): (r: seq<StateMutation>)
    ensures |r| == |ms|
    ensures forall k :: 0 <= k < |ms| ==> r[k] == ms[k].(path := p + ms[k].path)
  {
    seq(|ms|, k requires 0 <= k < |ms| => ms[k].(path := p + ms[k].path))
  }

  function Shift(p: seq<string>, r: Result<seq<StateMutation>>): Result<seq<StateMutation>> {
    match r
    case Err(e) => Err(e)
    case Ok(ms) => Ok(Prefixed(p, ms))
  }

  /** The `path` argument only prefixes: diffing under `p + q` is diffing under `q` with `p` in
      front of every path (so a nested record's mutations carry the field name first). */
  lemma PathArgumentPrefixes(oldModel: Value, newModel: Value, p: seq<string>, q: seq<string>)
    ensures GetMutations(oldModel, newModel, p + q) == Shift(p, GetMutations(oldModel, newModel, q))
    decreases newModel, 1
  {
    if newModel.Model? {
      PrefixesFrom(oldModel, newModel, p, q, 0);
    }
  }

  lemma {:induction false} PrefixesFrom(oldModel: Value, newModel: Value, p: seq<string>, q: seq<string>, i: nat)
    requires newModel.Model? && i <= |newModel.fields|
    ensures DiffFields(oldModel, newModel, p + q, i) == Shift(p, DiffFields(oldModel, newModel, q, i))
    decreases newModel, 0, |newModel.fields| - i
  {
    if i < |newModel.fields| {
      FieldPrefixes(oldModel, newModel.fields[i], p, q);
      PrefixesFrom(oldModel, newModel, p, q, i + 1);
      match FieldMutations(oldModel, newModel.fields[i], q)
      case Err(_) =>
      case Ok(here) =>
        match DiffFields(oldModel, newModel, q, i + 1)
        case Err(_) =>
        case Ok(rest) => PrefixedConcat(p, here, rest);
    }
  }

  lemma {:induction false} FieldPrefixes(oldModel: Value, f: Field, p: seq<string>, q: seq<string>)
    ensures FieldMutations(oldModel, f, p + q) == Shift(p, FieldMutations(oldModel, f, q))
    decreases f.value, 2
  {
    assert (p + q) + [f.name] == p + (q + [f.name]);
    match Attr(oldModel, f.name)
    case None =>
    case Some(ov) =>
      if f.value == ov {
        assert Prefixed(p, []) == [];
      } else if f.value.Model? && ov.Model? {
        PathArgumentPrefixes(ov, f.value, p, q + [f.name]);
      } else if !f.value.Model? && !ov.Model? {
        match LeafMutation(q + [f.name], ov, f.value)
        case Err(_) =>
        case Ok(ms) =>
          assert Prefixed(p, ms) == [ms[0].(path := p + (q + [f.name]))];
      }
  }

  lemma PrefixedConcat(p: seq<string>, a: seq<StateMutation>, b: seq<StateMutation>)
    ensures Prefixed(p, a + b) == Prefixed(p, a) + Prefixed(p, b)
  {
  }

  /** No two mutations share a path. */
  predicate DistinctPaths(ms: seq<StateMutation>) {
    forall a, b :: 0 <= a < b < |ms| ==> ms[a].path != ms[b].path
  }

  /** Position of `x` in `s`. */
  function IndexOf(s: seq<string>, x: string): (k: nat)
    requires x in s
    ensures k < |s| && s[k] == x && x !in s[..k]
  {
    if s[0] == x then 0 else
      assert s[1..][..IndexOf(s[1..], x)] == s[..IndexOf(s[1..], x) + 1][1..];
      1 + IndexOf(s[1..], x)
  }

  /** The mutations come field by field in the declaration order of `names`, looking at the path
      step at depth `d`. */
  predicate InDeclarationOrder(ms: seq<StateMutation>, names: seq<string>, d: nat) {
    && (forall a :: 0 <= a < |ms| ==> |ms[a].path| > d && ms[a].path[d] in names)
    && (forall a, b :: 0 <= a < b < |ms| ==> IndexOf(names, ms[a].path[d]) <= IndexOf(names, ms[b].path[d]))
  }

  /** Every path `get_mutations` emits is distinct from the others, and the mutations follow the
      declaration order of the new record's fields. */
  lemma DistinctAndOrdered(oldModel: Value, newModel: Value, path: seq<string>)
    requires WellFormedValue(newModel) && GetMutations(oldModel, newModel, path).Ok?
    ensures DistinctPaths(GetMutations(oldModel, newModel, path).value)
    ensures InDeclarationOrder(GetMutations(oldModel, newModel, path).value, Names(newModel.fields), |path|)
    decreases newModel, 1
  {
    DistinctFrom(oldModel, newModel, path, 0);
  }

  lemma {:induction false} DistinctFrom(oldModel: Value, newModel: Value, path: seq<string>, i: nat)
    requires WellFormedValue(newModel) && newModel.Model? && i <= |newModel.fields| && DiffFields(oldModel, newModel, path, i).Ok?
    ensures DistinctPaths(DiffFields(oldModel, newModel, path, i).value)
    ensures InDeclarationOrder(DiffFields(oldModel, newModel, path, i).value, Names(newModel.fields), |path|)
    ensures StepsFrom(DiffFields(oldModel, newModel, path, i).value, Names(newModel.fields), |path|, i)
    decreases newModel, 0, |newModel.fields| - i
  {
    if i < |newModel.fields| {
      var names := Names(newModel.fields);
      var f := newModel.fields[i];
      var here := FieldMutations(oldModel, f, path).value;
      var rest := DiffFields(oldModel, newModel, path, i + 1).value;
      assert DiffFields(oldModel, newModel, path, i).value == here + rest;
      assert WellFormedValue(f.value);
      FieldDistinct(oldModel, f, path);
      DistinctFrom(oldModel, newModel, path, i + 1);
      IndexOfDistinct(names, i);
      OrderedConcat(here, rest, names, |path|, i);
    }
  }

  /** The mutations of one field have distinct paths. */
  lemma {:induction false} FieldDistinct(oldModel: Value, f: Field, path: seq<string>)
    requires WellFormedValue(f.value) && FieldMutations(oldModel, f, path).Ok?
    ensures DistinctPaths(FieldMutations(oldModel, f, path).value)
    decreases f.value, 2
  {
    var ov := Attr(oldModel, f.name).value;
    if f.value != ov && f.value.Model? && ov.Model? {
      DistinctAndOrdered(ov, f.value, path + [f.name]);
    }
  }

  /** Every mutation's step at depth `d` is one of `names`, at position `i` or later. */
  predicate StepsFrom(ms: seq<StateMutation>, names: seq<string>, d: nat, i: nat) {
    forall a :: 0 <= a < |ms| ==> |ms[a].path| > d && ms[a].path[d] in names && i <= IndexOf(names, ms[a].path[d])
  }

  lemma IndexOfDistinct(names: seq<string>, i: nat)
    requires Distinct(names) && i < |names|
    ensures IndexOf(names, names[i]) == i
  {
  }

  /** The mutations of the field at position `i` followed by those of later fields keep
      distinct paths and declaration order. */
  lemma OrderedConcat(here: seq<StateMutation>, rest: seq<StateMutation>, names: seq<string>, d: nat, i: nat)
    requires i < |names| && IndexOf(names, names[i]) == i
    requires forall a :: 0 <= a < |here| ==> |here[a].path| > d && here[a].path[d] == names[i]
    requires DistinctPaths(here) && DistinctPaths(rest)
    requires InDeclarationOrder(rest, names, d) && StepsFrom(rest, names, d, i + 1)
    ensures DistinctPaths(here + rest) && InDeclarationOrder(here + rest, names, d) && StepsFrom(here + rest, names, d, i)
  {
    ConcatDistinct(here, rest, names, d, i);
    ConcatOrdered(here, rest, names, d, i);
    ConcatSteps(here, rest, names, d, i);
  }

  /** Paths of the field at position `i` differ from those of later fields in their step at depth `d`. */
  lemma ConcatDistinct(here: seq<StateMutation>, rest: seq<StateMutation>, names: seq<string>, d: nat, i: nat)
    requires i < |names| && IndexOf(names, names[i]) == i
    requires forall a :: 0 <= a < |here| ==> |here[a].path| > d && here[a].path[d] == names[i]
    requires DistinctPaths(here) && DistinctPaths(rest) && StepsFrom(rest, names, d, i + 1)
    ensures DistinctPaths(here + rest)
  {
    var ms := here + rest;
    forall a, b | 0 <= a < b < |ms| ensures ms[a].path != ms[b].path {
      if b < |here| {
        assert ms[a] == here[a] && ms[b] == here[b];
      } else if |here| <= a {
        assert ms[a] == rest[a - |here|] && ms[b] == rest[b - |here|];
      } else {
        assert ms[a] == here[a] && ms[b] == rest[b - |here|];
        assert IndexOf(names, ms[b].path[d]) > i;
      }
    }
  }

  lemma ConcatOrdered(here: seq<StateMutation>, rest: seq<StateMutation>, names: seq<string>, d: nat, i: nat)
    requires i < |names| && IndexOf(names, names[i]) == i
    requires forall a :: 0 <= a < |here| ==> |here[a].path| > d && here[a].path[d] == names[i]
    requires InDeclarationOrder(rest, names, d) && StepsFrom(rest, names, d, i + 1)
    ensures InDeclarationOrder(here + rest, names, d)
  {
    var ms := here + rest;
    forall a | 0 <= a < |ms| ensures |ms[a].path| > d && ms[a].path[d] in names {
      if a < |here| {
        assert ms[a] == here[a];
      } else {
        assert ms[a] == rest[a - |here|];
      }
    }
    forall a, b | 0 <= a < b < |ms| ensures IndexOf(names, ms[a].path[d]) <= IndexOf(names, ms[b].path[d]) {
      if b < |here| {
        assert ms[a] == here[a] && ms[b] == here[b];
      } else if |here| <= a {
        assert ms[a] == rest[a - |here|] && ms[b] == rest[b - |here|];
      } else {
        assert ms[a] == here[a] && ms[b] == rest[b - |here|];
      }
    }
  }

  lemma ConcatSteps(here: seq<StateMutation>, rest: seq<StateMutation>, names: seq<string>, d: nat, i: nat)
    requires i < |names| && IndexOf(names, names[i]) == i
    requires forall a :: 0 <= a < |here| ==> |here[a].path| > d && here[a].path[d] == names[i]
    requires StepsFrom(rest, names, d, i + 1)
    ensures StepsFrom(here + rest, names, d, i)
  {
    var ms := here + rest;
    forall a | 0 <= a < |ms| ensures |ms[a].path| > d && ms[a].path[d] in names && i <= IndexOf(names, ms[a].path[d]) {
      if a < |here| {
        assert ms[a] == here[a];
      } else {
        assert ms[a] == rest[a - |here|];
      }
    }
  }

  // ---------------------------------------------------------------------------------------------
  // The round trip: applying the mutations of get_mutations(old, new) to old gives new

  /** Applying mutations one after the other, as a caller of `apply_mutation` does. */
  function ApplyAll(model: Value, ms: seq<StateMutation>, ignoreOldValue: bool): Result<Value>
    decreases |ms|
  {
    if ms == [] then Ok(model)
    else match Applied(model, ms[0], ignoreOldValue)
      case Err(e) => Err(e)
      case Ok(v) => ApplyAll(v, ms[1..], ignoreOldValue)
  }

  lemma {:induction false} ApplyAllConcat(model: Value, a: seq<StateMutation>, b: seq<StateMutation>, ignoreOldValue: bool)
    ensures ApplyAll(model, a + b, ignoreOldValue) ==
      match ApplyAll(model, a, ignoreOldValue)
      case Err(e) => Err(e)
      case Ok(v) => ApplyAll(v, b, ignoreOldValue)
    decreases |a|
  {
    if a == [] {
      assert a + b == b;
    } else {
      assert (a + b)[0] == a[0] && (a + b)[1..] == a[1..] + b;
      match Applied(model, a[0], ignoreOldValue)
      case Err(e) =>
      case Ok(v) => ApplyAllConcat(v, a[1..], b, ignoreOldValue);
    }
  }

  /** The record `r` with the value of its field at index `i` replaced by `x`. */
  function WithField(r: Value, i: nat, x: Value): Value
    requires r.Model? && i < |r.fields|
  {
    r.(fields := r.fields[i := Field(r.fields[i].name, x)])
  }

  /** A mutation addressed below field `i` acts on the field's value. */
  lemma LiftApplied(r: Value, i: nat, m: StateMutation, ignoreOldValue: bool)
    requires r.Model? && i < |r.fields| && Distinct(Names(r.fields)) && m.path != []
    ensures Applied(r, m.(path := [r.fields[i].name] + m.path), ignoreOldValue) ==
      match Applied(r.fields[i].value, m, ignoreOldValue)
      case Err(e) => Err(e)
      case Ok(s) => Ok(WithField(r, i, s))
  {
    var f := r.fields[i].name;
    var p := [f] + m.path;
    assert p[0] == f && p[1..] == m.path;
    FieldValueAt(r.fields, i);
    assert Get(r, p) == Get(r.fields[i].value, m.path);
    match Applied(r.fields[i].value, m, ignoreOldValue)
    case Err(e) =>
    case Ok(s) =>
      var x := DeserializeValue(m.newValue).value;
      SetFieldAt(r.fields, i, Put(r.fields[i].value, m.path, x));
  }

  /** Mutations addressed below field `i` act on the field's value, one after the other. */
  lemma {:induction false} LiftAll(r: Value, i: nat, ms: seq<StateMutation>, ignoreOldValue: bool)
    requires r.Model? && i < |r.fields| && Distinct(Names(r.fields))
    requires forall k :: 0 <= k < |ms| ==> ms[k].path != []
    ensures ApplyAll(r, Prefixed([r.fields[i].name], ms), ignoreOldValue) ==
      match ApplyAll(r.fields[i].value, ms, ignoreOldValue)
      case Err(e) => Err(e)
      case Ok(s) => Ok(WithField(r, i, s))
    decreases |ms|
  {
    var f := r.fields[i].name;
    if ms == [] {
      assert r.fields[i := Field(f, r.fields[i].value)] == r.fields;
    } else {
      var pms := Prefixed([f], ms);
      assert pms[0] == ms[0].(path := [f] + ms[0].path);
      assert pms[1..] == Prefixed([f], ms[1..]);
      LiftApplied(r, i, ms[0], ignoreOldValue);
      match Applied(r.fields[i].value, ms[0], ignoreOldValue)
      case Err(e) =>
      case Ok(s) =>
        var r' := WithField(r, i, s);
        WithFieldShape(r, i, s);
        LiftAll(r', i, ms[1..], ignoreOldValue);
    }
  }

  /** Replacing a field's value keeps the field names, and a second replacement overrides the
      first. */
  lemma WithFieldShape(r: Value, i: nat, s: Value)
    requires r.Model? && i < |r.fields|
    ensures var r' := WithField(r, i, s);
      && Names(r'.fields) == Names(r.fields) && r'.fields[i].name == r.fields[i].name && r'.fields[i].value == s
      && forall t :: WithField(r', i, t) == WithField(r, i, t)
  {
    var r' := WithField(r, i, s);
    assert forall k :: 0 <= k < |r.fields| ==> r'.fields[k].name == r.fields[k].name;
  }

  /** Records `get_mutations` can diff into an exact patch: the same class, private list and
      field names (all distinct) on both sides, recursively where both sides hold a record. */
  predicate SameShape(oldModel: Value, newModel: Value)
    decreases newModel
  {
    && oldModel.Model? && newModel.Model?
    && oldModel.className == newModel.className && oldModel.private == newModel.private
    && Names(oldModel.fields) == Names(newModel.fields) && Distinct(Names(newModel.fields))
    && forall i :: 0 <= i < |newModel.fields| ==>
         (oldModel.fields[i].value.Model? && newModel.fields[i].value.Model? ==> SameShape(oldModel.fields[i].value, newModel.fields[i].value))
  }

  /** No leaf is a tuple (a tuple's text decodes to a list). */
  predicate NoTuples(v: Value)
    decreases v
  {
    match v
    case Prim(t, _) => t != "tuple"
    case Model(_, _, fs) => forall i :: 0 <= i < |fs| ==> NoTuples(fs[i].value)
  }

  /** `old` with its first `i` fields taken from `new`. */
  function Mixed(oldModel: Value, newModel: Value, i: nat): Value
    requires oldModel.Model? && newModel.Model? && i <= |newModel.fields| && |oldModel.fields| == |newModel.fields|
  {
    oldModel.(fields := newModel.fields[..i] + oldModel.fields[i..])
  }

  lemma MixedFacts(oldModel: Value, newModel: Value, i: nat)
    requires SameShape(oldModel, newModel) && i <= |newModel.fields|
    ensures |oldModel.fields| == |newModel.fields|
    ensures var cur := Mixed(oldModel, newModel, i);
      && cur.Model? && Names(cur.fields) == Names(newModel.fields)
      && (i == |newModel.fields| ==> cur == newModel)
      && (i < |newModel.fields| ==>
           cur.fields[i] == oldModel.fields[i] && oldModel.fields[i].name == newModel.fields[i].name
           && WithField(cur, i, newModel.fields[i].value) == Mixed(oldModel, newModel, i + 1))
  {
    assert |Names(oldModel.fields)| == |newModel.fields|;
    var names := Names(newModel.fields);
    var cur := Mixed(oldModel, newModel, i);
    assert forall k :: 0 <= k < |oldModel.fields| ==> oldModel.fields[k].name == names[k] by {
      assert forall k :: 0 <= k < |oldModel.fields| ==> oldModel.fields[k].name == Names(oldModel.fields)[k];
    }
    assert forall k :: 0 <= k < |cur.fields| ==> cur.fields[k].name == names[k];
    if i == |newModel.fields| {
      assert cur.fields == newModel.fields;
    } else {
      var f := newModel.fields[i];
      assert cur.fields[i := Field(f.name, f.value)] == newModel.fields[..i + 1] + oldModel.fields[i + 1..];
    }
  }

  /** Applying, in order and with the old-value check on, every mutation `get_mutations(old, new)`
      returns turns `old` into `new`. */
  lemma RoundTrip(oldModel: Value, newModel: Value)
    requires SameShape(oldModel, newModel) && NoTuples(newModel) && GetMutations(oldModel, newModel, []).Ok?
    ensures ApplyAll(oldModel, GetMutations(oldModel, newModel, []).value, false) == Ok(newModel)
    decreases newModel, 1
  {
    MixedFacts(oldModel, newModel, 0);
    assert newModel.fields[..0] + oldModel.fields[0..] == oldModel.fields;
    RoundTripFrom(oldModel, newModel, 0);
  }

  lemma {:induction false} RoundTripFrom(oldModel: Value, newModel: Value, i: nat)
    requires SameShape(oldModel, newModel) && NoTuples(newModel) && i <= |newModel.fields|
    requires DiffFields(oldModel, newModel, [], i).Ok?
    ensures |oldModel.fields| == |newModel.fields|
    ensures ApplyAll(Mixed(oldModel, newModel, i), DiffFields(oldModel, newModel, [], i).value, false) == Ok(newModel)
    decreases newModel, 0, |newModel.fields| - i
  {
    MixedFacts(oldModel, newModel, i);
    if i < |newModel.fields| {
      var cur := Mixed(oldModel, newModel, i);
      var f := newModel.fields[i];
      FieldValueAt(oldModel.fields, i);
      var here := FieldMutations(oldModel, f, []).value;
      var rest := DiffFields(oldModel, newModel, [], i + 1).value;
      assert DiffFields(oldModel, newModel, [], i).value == here + rest;
      ApplyAllConcat(cur, here, rest, false);
      assert NoTuples(f.value);
      FieldRoundTrip(oldModel, cur, i, f);
      RoundTripFrom(oldModel, newModel, i + 1);
    }
  }

  /** The mutations of one field turn that field's old value into its new one. */
  lemma {:induction false} FieldRoundTrip(oldModel: Value, cur: Value, i: nat, f: Field)
    requires cur.Model? && i < |cur.fields| && Distinct(Names(cur.fields)) && cur.fields[i].name == f.name
    requires Attr(oldModel, f.name) == Some(cur.fields[i].value)
    requires FieldMutations(oldModel, f, []).Ok? && NoTuples(f.value)
    requires f.value.Model? && cur.fields[i].value.Model? ==> SameShape(cur.fields[i].value, f.value)
    ensures ApplyAll(cur, FieldMutations(oldModel, f, []).value, false) == Ok(WithField(cur, i, f.value))
    decreases f.value, 2
  {
    var ov := cur.fields[i].value;
    var here := FieldMutations(oldModel, f, []).value;
    if f.value == ov {
      assert cur.fields[i := Field(f.name, f.value)] == cur.fields;
    } else if f.value.Model? && ov.Model? {
      PathArgumentPrefixes(ov, f.value, [f.name], []);
      assert [f.name] + [] == [f.name] && [] + [f.name] == [f.name];
      var inner := GetMutations(ov, f.value, []).value;
      assert here == Prefixed([f.name], inner);
      RoundTrip(ov, f.value);
      LiftAll(cur, i, inner, false);
    } else {
      var m := here[0];
      assert here == [m] && m.path == [f.name];
      FieldValueAt(cur.fields, i);
      assert Get(cur, [f.name]) == Some(ov);
      SetFieldAt(cur.fields, i, f.value);
      assert m.oldValue == CreateMutationValue(ov).value && m.newValue == CreateMutationValue(f.value).value;
      assert SerializeValue(ov) == Ok(m.oldValue.value);
      assert DeserializeValue(m.newValue) == Ok(f.value);
      assert [f.name][1..] == [];
      assert Put(cur, [f.name], f.value) == WithField(cur, i, f.value);
      assert Applied(cur, m, false) == Ok(WithField(cur, i, f.value));
      assert here[1..] == [];
    }
  }
}
