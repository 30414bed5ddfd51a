/** Vocabulary shared by the whole engine: the errors it raises, result wrappers, the state records
    nodes hold (an abstraction of pydantic models), node kinds, and the JSON text form of a record. */
module Values {

  /** The exceptions the engine raises: its own (exceptions.py and the error tags of common.py)
      and the built-in ones its code lets escape. */
  datatype Error =
    | DeserializationError
    | VersionMismatchError
    | UnknownNodeError
    | CycleDetectedError
    | NodeNotFoundError
    | AssertionError
    | AttributeError
    | ValueError
    | IndexError
    | KeyError
    | TypeError
    | ValidationError
    | NotImplementedError

  /** `except DeserializationError` also catches its two subclasses. */
  predicate IsDeserializationError(e: Error) {
    e == DeserializationError || e == VersionMismatchError || e == UnknownNodeError
  }

  datatype Option<+T> = None | Some(value: T)

  datatype Result<+T> = Ok(value: T) | Err(error: Error)

  /** The result of an operation that returns nothing useful (or `self`). */
  datatype Outcome = Pass | Fail(error: Error)

  /** Ids and versions in a snapshot may be strings or integers; "1" and 1 are different. */
  datatype StrOrInt = Str(s: string) | Int(i: int)

  /** A state value. A record (`Model`) is an instance of a pydantic class: its class name, the
      class's `_PRIVATE` list of field names hidden from change detection, and its fields in
      declaration order. Any other value (`Prim`: int, str, list, set, dict, None, ...) is kept
      as its Python type name and its JSON text. */
  datatype Value =
    | Prim(typeName: string, json: string)
    | Model(className: string, private: seq<string>, fields: seq<Field>)

  datatype Field = Field(name: string, value: Value)

  /** Python's None. */
  const NoneValue: Value := Prim("NoneType", "null")

  predicate Distinct<T(==)>(s: seq<T>) {
    forall i, j :: 0 <= i < j < |s| ==> s[i] != s[j]
  }

  lemma DistinctSnoc<T>(s: seq<T>, x: T)
    requires Distinct(s) && x !in s
    ensures Distinct(s + [x])
  {
  }

  function Names(fields: seq<Field>): (names: seq<string>)
    ensures |names| == |fields|
    ensures forall i :: 0 <= i < |fields| ==> names[i] == fields[i].name
  {
    seq(|fields|, i requires 0 <= i < |fields| => fields[i].name)
  }

  /** The value of the first field called `name`, if any. */
  function FieldValue(fields: seq<Field>, name: string): (r: Option<Value>)
    ensures r.Some? <==> name in Names(fields)
  {
    if fields == [] then None
    else if fields[0].name == name then Some(fields[0].value)
    else
      assert Names(fields) == [fields[0].name] + Names(fields[1..]);
      FieldValue(fields[1..], name)
  }

  lemma {:induction false} FieldValueAt(fields: seq<Field>, i: nat)
    requires i < |fields| && Distinct(Names(fields))
    ensures FieldValue(fields, fields[i].name) == Some(fields[i].value)
  {
    if i > 0 {
      assert Names(fields[1..]) == Names(fields)[1..];
      FieldValueAt(fields[1..], i - 1);
    }
  }

  /** `getattr(v, name)` on a record: only declared fields resolve. */
  function Attr(v: Value, name: string): (r: Option<Value>)
    ensures r.Some? <==> v.Model? && name in Names(v.fields)
  {
    if v.Model? then FieldValue(v.fields, name) else None
  }

  /** What re-validating a value checks in this model: nested records have distinct field names. */
  predicate WellFormedValue(v: Value)
    decreases v
  {
    match v
    case Prim(_, _) => true
    case Model(_, _, fs) =>
      Distinct(Names(fs)) && forall i :: 0 <= i < |fs| ==> WellFormedValue(fs[i].value)
  }

  /** `state.model_validate(state.model_dump())`: a non-record has no `model_validate`
      (AttributeError); a malformed record fails validation. */
  function Validate(v: Value): (r: Outcome)
    ensures r == Pass <==> v.Model? && WellFormedValue(v)
  {
    if !v.Model? then Fail(AttributeError)
    else if WellFormedValue(v) then Pass
    else Fail(ValidationError)
  }

  /** `model_dump()`: a record becomes a plain dictionary (its class is forgotten). */
  datatype Dumped = DLeaf(json: string) | DObject(entries: seq<DEntry>)
  datatype DEntry = DEntry(key: string, value: Dumped)

  function Dump(v: Value): Dumped
    decreases v
  {
    match v
    case Prim(_, j) => DLeaf(j)
    case Model(_, _, fs) =>
      DObject(seq(|fs|, i requires 0 <= i < |fs| => DEntry(fs[i].name, Dump(fs[i].value))))
  }

  /** The entries whose key is not excluded, in order. */
  function Without(es: seq<DEntry>, excluded: seq<string>): seq<DEntry>
  {
    if es == [] then []
    else (if es[0].key in excluded then [] else [es[0]]) + Without(es[1..], excluded)
  }

  /** `model_dump(exclude=...)`: exclusion applies to top-level fields only. */
  function DumpExcluding(v: Value, excluded: seq<string>): Dumped
  {
    match Dump(v)
    case DObject(es) => DObject(Without(es, excluded))
    case d => d
  }

  /** `getattr(v, "_PRIVATE", [])`. */
  function PrivateOf(v: Value): seq<string> {
    if v.Model? then v.private else []
  }

  /** `pydantic_deep_eq`: the two dumps agree once each side's own private top-level fields are
      removed. */
  predicate DeepEq(a: Value, b: Value) {
    DumpExcluding(a, PrivateOf(a)) == DumpExcluding(b, PrivateOf(b))
  }

  lemma {:induction false} WithoutIgnoresExcluded(es: seq<DEntry>, ds: seq<DEntry>, excluded: seq<string>)
    requires |es| == |ds|
    requires forall i :: 0 <= i < |es| ==> es[i].key == ds[i].key
    requires forall i :: 0 <= i < |es| && es[i].key !in excluded ==> es[i] == ds[i]
    ensures Without(es, excluded) == Without(ds, excluded)
  {
    if es != [] {
      WithoutIgnoresExcluded(es[1..], ds[1..], excluded);
    }
  }

  /** Changing only private fields of a record is invisible to change detection (and every
      other change of a top-level field is visible). */
  lemma PrivateChangeInvisible(a: Value, b: Value)
    requires a.Model? && b.Model? && a.className == b.className && a.private == b.private
    requires Names(a.fields) == Names(b.fields)
    requires forall i :: 0 <= i < |a.fields| && a.fields[i].name !in a.private ==> a.fields[i] == b.fields[i]
    ensures DeepEq(a, b)
  {
    var es, ds := Dump(a).entries, Dump(b).entries;
    forall i | 0 <= i < |es| && es[i].key !in a.private ensures es[i] == ds[i] {
      assert a.fields[i] == b.fields[i];
    }
    WithoutIgnoresExcluded(es, ds, a.private);
  }

  /** Name of the Python type of a value. */
  function TypeName(v: Value): string {
    if v.Model? then v.className else v.typeName
  }

  /** Keyword arguments passed to a node class constructor. */
  type InitArgs = map<string, string>

  /** A node class: its `__name__`, its `VERSION`, its `State` model (class name, declared fields
      in order, the fields that have defaults, `_PRIVATE`) and the keyword parameters its
      constructor requires. */
  datatype Kind = Kind(
    name: string,
    version: StrOrInt,
    stateClass: string,
    fieldNames: seq<string>,
    defaults: map<string, Value>,
    private: seq<string>,
    params: set<string>)

  /** The records that are instances of a kind's State class. */
  predicate IsStateOf(k: Kind, v: Value) {
    && v.Model?
    && v.className == k.stateClass
    && v.private == k.private
    && Names(v.fields) == k.fieldNames
  }

  /** `State.model_validate(data)`: every declared field comes from `data` or from its default;
      a field with neither is a validation error; keys that are not fields are ignored. */
  function ModelValidate(k: Kind, data: map<string, Value>): (r: Result<Value>)
    ensures r.Ok? <==> forall f :: f in k.fieldNames ==> f in data || f in k.defaults
    ensures r.Err? ==> r.error == ValidationError
    ensures r.Ok? ==> IsStateOf(k, r.value)
    ensures r.Ok? ==> forall i :: 0 <= i < |k.fieldNames| && k.fieldNames[i] in data ==>
      r.value.fields[i].value == data[k.fieldNames[i]]
  {
    if forall f :: f in k.fieldNames ==> f in data || f in k.defaults then
      var fs := seq(|k.fieldNames|, i requires 0 <= i < |k.fieldNames| =>
        var f := k.fieldNames[i];
        Field(f, if f in data then data[f] else k.defaults[f]));
      assert Names(fs) == k.fieldNames;
      Ok(Model(k.stateClass, k.private, fs))
    else Err(ValidationError)
  }

  /** JSON text of a record, abstracted: either a JSON object (its members) or text that is not a
      JSON object at all. */
  datatype Text = JsonObject(members: map<string, Value>) | Malformed(raw: string)

  function FieldMap(fs: seq<Field>): (m: map<string, Value>)
    ensures forall x :: x in m <==> x in Names(fs)
  {
    if fs == [] then map[]
    else
      assert Names(fs) == [fs[0].name] + Names(fs[1..]);
      FieldMap(fs[1..])[fs[0].name := fs[0].value]
  }

  lemma {:induction false} FieldMapAt(fs: seq<Field>, i: nat)
    requires i < |fs| && Distinct(Names(fs))
    ensures FieldMap(fs)[fs[i].name] == fs[i].value
  {
    if i > 0 {
      assert Names(fs[1..]) == Names(fs)[1..];
      FieldMapAt(fs[1..], i - 1);
      assert fs[i].name != fs[0].name by { assert Names(fs)[0] != Names(fs)[i]; }
    }
  }

  /** `model_dump_json()` of a record. */
  function Encode(v: Value): Text
    requires v.Model?
  {
    JsonObject(FieldMap(v.fields))
  }

  /** `State.model_validate_json(text)`: text that is not a JSON object fails validation. */
  function Decode(k: Kind, t: Text): (r: Result<Value>)
    ensures r.Err? ==> r.error == ValidationError
    ensures r.Ok? ==> IsStateOf(k, r.value)
  {
    match t
    case Malformed(_) => Err(ValidationError)
    case JsonObject(m) => ModelValidate(k, m)
  }

  /** Encoding a state of a kind and decoding it as that kind gives the state back. */
  lemma DecodeEncode(k: Kind, v: Value)
    requires IsStateOf(k, v) && Distinct(Names(v.fields))
    ensures Decode(k, Encode(v)) == Ok(v)
  {
    var m := FieldMap(v.fields);
    forall f | f in k.fieldNames ensures f in m {
      var i :| 0 <= i < |k.fieldNames| && k.fieldNames[i] == f;
      assert v.fields[i].name == f;
    }
    var r := ModelValidate(k, m);
    assert r.Ok?;
    forall i | 0 <= i < |v.fields| ensures r.value.fields[i] == v.fields[i] {
      FieldMapAt(v.fields, i);
    }
    assert r.value.fields == v.fields;
  }
}
