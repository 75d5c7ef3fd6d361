/**
 Document validation (`Mapping::validate_document`) and document building (`build_doc`): a checker
 and a consumer written separately that must agree.
 */
module Documents {
  import opened Outcome
  import opened Mappings

  /** The integers a JSON number can hold exactly: 64 bits without a sign, or with one and below zero. */
  type Unsigned = n: nat | n < 0x1_0000_0000_0000_0000
  type Negative = i: int | -0x8000_0000_0000_0000 <= i < 0 witness -1

  /** `serde_json::Number`: non-negative, negative or floating. */
  datatype Number = PosInt(n: Unsigned) | NegInt(i: Negative) | Float(f: real)

  /** The number itself. */
  function ValueOf(num: Number): real {
    match num
    case PosInt(n) => n as real
    case NegInt(i) => i as real
    case Float(f) => f
  }

  /**
   A parsed JSON value. A string carries what the RFC 3339 parser makes of it: the instant it
   denotes, or nothing. The parser itself is foreign code.
   */
  datatype Json =
    | JNull
    | JBool(b: bool)
    | JNumber(num: Number)
    | JString(text: string, instant: Option<int>)
    | JArray(items: seq<Json>)
    | JObject(fields: map<string, Json>)

  /** A stored document: the client's bytes and what the JSON parser makes of them. */
  datatype Source = Source(bytes: string, parsed: Option<Json>)

  const I64_MAX: int := 0x7fff_ffff_ffff_ffff

  predicate FitsI64(v: Json) {
    v.JNumber? && !v.num.Float? && (v.num.PosInt? ==> v.num.n <= I64_MAX)
  }

  /** `value_matches`: the validator's view of a field value. */
  predicate Matches(v: Json, ty: FieldType) {
    match ty
    case Text => v.JString?
    case Keyword => v.JString?
    case I64 => FitsI64(v)
    case F64 => v.JNumber?
    case Date => v.JString? && v.instant.Some?
  }

  datatype ValidationError = NotAnObject | UnmappedField(name: string) | WrongType(name: string, ty: FieldType)

  /** What `validate_document` accepts: an object whose every field is mapped and of its type. */
  predicate Accepted(m: Mapping, document: Json) {
    document.JObject? &&
    forall name :: name in document.fields ==>
      name in m.fields && Matches(document.fields[name], m.fields[name].ty)
  }

  /** The document is rejected for this: it is no object, the field is not mapped, or its value is not of the mapped type. */
  predicate IsFault(m: Mapping, document: Json, e: ValidationError) {
    match e
    case NotAnObject => !document.JObject?
    case UnmappedField(name) => document.JObject? && name in document.fields && name !in m.fields
    case WrongType(name, ty) =>
      && document.JObject? && name in document.fields && name in m.fields
      && ty == m.fields[name].ty && !Matches(document.fields[name], ty)
  }

  /** Accepted are exactly the documents nothing can be held against. */
  lemma AcceptedIff(m: Mapping, document: Json)
    ensures Accepted(m, document) <==> forall e :: !IsFault(m, document, e)
  {
    if forall e :: !IsFault(m, document, e) {
      assert !IsFault(m, document, NotAnObject);
      forall name | name in document.fields ensures name in m.fields && Matches(document.fields[name], m.fields[name].ty) {
        assert !IsFault(m, document, UnmappedField(name));
        assert !IsFault(m, document, WrongType(name, m.fields[name].ty));
      }
    }
  }

  method ValidateDocument(m: Mapping, document: Json) returns (err: Option<ValidationError>)
    ensures err.None? <==> Accepted(m, document)
    ensures err.None? <==> forall e :: !IsFault(m, document, e)
    ensures err.Some? ==> IsFault(m, document, err.value)
  {
    AcceptedIff(m, document);
    if !document.JObject? {
      return Some(NotAnObject);
    }
    var rest := document.fields.Keys;
    while rest != {}
      invariant rest <= document.fields.Keys
      invariant forall name :: name in document.fields && name !in rest ==>
                  name in m.fields && Matches(document.fields[name], m.fields[name].ty)
      decreases |rest|
    {
      var name :| name in rest;
      if name !in m.fields {
        return Some(UnmappedField(name));
      }
      if !Matches(document.fields[name], m.fields[name].ty) {
        return Some(WrongType(name, m.fields[name].ty));
      }
      rest := rest - {name};
    }
    return None;
  }

  // ---------------------------------------------------------------- building

  /** A typed value added to an index document. */
  datatype Value = TextValue(s: string) | BytesValue(bs: string) | I64Value(i: int) | F64Value(r: real) | DateValue(t: int)

  datatype FieldValue = FieldValue(field: string, value: Value)

  type Doc = seq<FieldValue>

  /** `add_value`: the typed value for a field, or nothing when the JSON value has another type. */
  function Convert(v: Json, ty: FieldType): Option<Value> {
    match ty
    case Text => if v.JString? then Some(TextValue(v.text)) else None
    case Keyword => if v.JString? then Some(TextValue(v.text)) else None
    case I64 =>
      if !v.JNumber? || v.num.Float? then None
      else if v.num.NegInt? then Some(I64Value(v.num.i))
      else if v.num.n <= I64_MAX then Some(I64Value(v.num.n))
      else None
    case F64 => if v.JNumber? then Some(F64Value(ValueOf(v.num))) else None
    case Date => if v.JString? && v.instant.Some? then Some(DateValue(v.instant.value)) else None
  }

  /**
   What the value of a field of this type must be: the string itself, the integer or the number
   itself, the instant the string denotes.
   */
  predicate Denotes(x: Value, v: Json, ty: FieldType) {
    match x
    case TextValue(s) => (ty == Text || ty == Keyword) && v.JString? && s == v.text
    case I64Value(i) => ty == I64 && v.JNumber? && !v.num.Float? && i as real == ValueOf(v.num) && -0x8000_0000_0000_0000 <= i < 0x8000_0000_0000_0000
    case F64Value(r) => ty == F64 && v.JNumber? && r == ValueOf(v.num)
    case DateValue(t) => ty == Date && v.JString? && v.instant == Some(t)
    case BytesValue(_) => false
  }

  /** The converter finds that value, and finds one whenever there is one. */
  lemma ConvertsIff(v: Json, ty: FieldType, x: Value)
    ensures Convert(v, ty) == Some(x) <==> Denotes(x, v, ty)
  {
    if v.JNumber? && ty == I64 && x.I64Value? && x.i as real == ValueOf(v.num) {
      assert v.num.PosInt? ==> x.i == v.num.n;
      assert v.num.NegInt? ==> x.i == v.num.i;
    }
  }

  /** Whether `build_doc` succeeds: no schema column lacks a mapping and every column value converts. */
  predicate Builds(m: Mapping, document: Json) {
    document.JObject? &&
    forall name :: name in document.fields ==>
      !IsSystem(name) &&
      (name in m.fields && (m.fields[name].indexed || m.fields[name].fast) ==> Convert(document.fields[name], m.fields[name].ty).Some?)
  }

  /** `Panicked` is the `expect` on a schema column the mapping does not know. */
  datatype BuildError = BuildNotAnObject | BuildWrongType(ty: FieldType) | Panicked(name: string)

  method BuildDoc(schema: Schema, m: Mapping, id: string, bytes: string, document: Json)
    returns (r: Result<Doc, BuildError>)
    requires m.Valid()
    requires forall name :: name in schema <==> IsSystem(name) || (name in m.fields && (m.fields[name].indexed || m.fields[name].fast))
    ensures r.Ok? <==> Builds(m, document)
    ensures r.Ok? ==> IsDocOf(r.value, m, id, bytes, document.fields)
    ensures r == Fail(BuildNotAnObject) <==> !document.JObject?
    ensures r.Fail? && r.error.Panicked? ==>
              document.JObject? && r.error.name in document.fields && IsSystem(r.error.name)
    ensures r.Fail? && r.error.BuildWrongType? ==>
              && document.JObject?
              && exists name :: name in document.fields && name in m.fields && (m.fields[name].indexed || m.fields[name].fast)
                   && m.fields[name].ty == r.error.ty && !Matches(document.fields[name], r.error.ty)
  {
    var doc := [FieldValue(ID_FIELD, TextValue(id)), FieldValue(SOURCE_FIELD, BytesValue(bytes))];
    if !document.JObject? {
      return Fail(BuildNotAnObject);
    }
    var obj := document.fields;
    var rest := obj.Keys;
    assert ColumnsOf(m, obj, rest) == {};
    while rest != {}
      invariant rest <= obj.Keys
      invariant BuildsOutside(m, obj, rest)
      invariant IsPartialDoc(doc, m, id, bytes, obj, rest)
      decreases |rest|
    {
      var name :| name in rest;
      ghost var whole := rest;
      rest := rest - {name};
      assert rest + {name} == whole;
      if name !in schema {
        SkipColumn(m, obj, rest, name);
        continue;
      }
      if name !in m.fields {
        return Fail(Panicked(name));
      }
      ReservedNames(m, name);
      var converted := Convert(obj[name], m.fields[name].ty);
      if converted.None? {
        MatchesIffConverts(obj[name], m.fields[name].ty);
        return Fail(BuildWrongType(m.fields[name].ty));
      }
      AddColumn(doc, m, id, bytes, obj, rest, name);
      doc := doc + [FieldValue(name, converted.value)];
    }
    PartialIsWhole(doc, m, id, bytes, obj);
    return Ok(doc);
  }

  /** Every field outside `rest` is one `build_doc` accepts. */
  ghost predicate BuildsOutside(m: Mapping, obj: map<string, Json>, rest: set<string>) {
    forall name :: name in obj && name !in rest ==>
      !IsSystem(name) && (m.Searchable(name) ==> Convert(obj[name], m.fields[name].ty).Some?)
  }

  /** The document as built from the fields outside `rest`. */
  ghost predicate IsPartialDoc(doc: Doc, m: Mapping, id: string, bytes: string, obj: map<string, Json>, rest: set<string>) {
    && 2 <= |doc|
    && doc[0] == FieldValue(ID_FIELD, TextValue(id))
    && doc[1] == FieldValue(SOURCE_FIELD, BytesValue(bytes))
    && (forall name :: name in ColumnsOf(m, obj, rest) ==> HasField(doc, m, obj, name))
    && (forall i :: 2 <= i < |doc| ==> doc[i].field in ColumnsOf(m, obj, rest))
    && forall i, j :: 2 <= i < j < |doc| ==> doc[i].field != doc[j].field
  }

  lemma PartialIsWhole(doc: Doc, m: Mapping, id: string, bytes: string, obj: map<string, Json>)
    requires IsPartialDoc(doc, m, id, bytes, obj, {})
    ensures IsDocOf(doc, m, id, bytes, obj)
  {
    assert forall name :: name in ColumnsOf(m, obj, {}) <==> name in obj && m.Searchable(name);
  }

  lemma SkipColumn(m: Mapping, obj: map<string, Json>, rest: set<string>, name: string)
    requires !m.Searchable(name)
    ensures ColumnsOf(m, obj, rest) == ColumnsOf(m, obj, rest + {name})
  {
  }

  /** Appending the value of one more column keeps the earlier ones. */
  lemma AddColumn(doc: Doc, m: Mapping, id: string, bytes: string, obj: map<string, Json>, rest: set<string>, name: string)
    requires name in obj && m.Searchable(name) && name !in rest
    requires Convert(obj[name], m.fields[name].ty).Some?
    requires IsPartialDoc(doc, m, id, bytes, obj, rest + {name})
    ensures var more := doc + [FieldValue(name, Convert(obj[name], m.fields[name].ty).value)];
            IsPartialDoc(more, m, id, bytes, obj, rest)
  {
    var before := ColumnsOf(m, obj, rest + {name});
    assert ColumnsOf(m, obj, rest) == before + {name};
    var more := doc + [FieldValue(name, Convert(obj[name], m.fields[name].ty).value)];
    ConvertsIff(obj[name], m.fields[name].ty, more[|doc|].value);
    assert more[|doc|].field == name;
    forall other | other in before ensures HasField(more, m, obj, other) {
      assert HasField(doc, m, obj, other);
      var i :| 2 <= i < |doc| && doc[i].field == other && Denotes(doc[i].value, obj[other], m.fields[other].ty);
      assert more[i] == doc[i];
    }
  }

  /** The searchable fields of `obj` outside `rest`. */
  ghost function ColumnsOf(m: Mapping, obj: map<string, Json>, rest: set<string>): set<string> {
    set name | name in obj && m.Searchable(name) && name !in rest
  }

  ghost predicate HasField(doc: Doc, m: Mapping, obj: map<string, Json>, name: string)
    requires name in obj && name in m.fields
  {
    exists i :: 2 <= i < |doc| && doc[i].field == name && Denotes(doc[i].value, obj[name], m.fields[name].ty)
  }

  /**
   `doc` holds `_id`, `_source` and the value each searchable field denotes; no field occurs twice,
   and there is nothing else.
   */
  ghost predicate IsDocOf(doc: Doc, m: Mapping, id: string, bytes: string, obj: map<string, Json>) {
    && 2 <= |doc|
    && doc[0] == FieldValue(ID_FIELD, TextValue(id))
    && doc[1] == FieldValue(SOURCE_FIELD, BytesValue(bytes))
    && (forall name :: name in obj && name in m.fields && (m.fields[name].indexed || m.fields[name].fast) ==> HasField(doc, m, obj, name))
    && (forall i :: 2 <= i < |doc| ==> doc[i].field in obj && doc[i].field in m.fields && (m.fields[doc[i].field].indexed || m.fields[doc[i].field].fast))
    && forall i, j :: 2 <= i < j < |doc| ==> doc[i].field != doc[j].field
  }

  /** The validator and the converter agree on every value and type. */
  lemma MatchesIffConverts(v: Json, ty: FieldType)
    ensures Matches(v, ty) <==> Convert(v, ty).Some?
  {
  }

  /** A validated document always builds: neither an error nor the `expect` is reachable. */
  lemma ValidatedBuilds(m: Mapping, document: Json)
    requires m.Valid() && Accepted(m, document)
    ensures Builds(m, document)
  {
    forall name | name in document.fields
      ensures !IsSystem(name) && Convert(document.fields[name], m.fields[name].ty).Some?
    {
      ReservedNames(m, name);
      MatchesIffConverts(document.fields[name], m.fields[name].ty);
    }
  }
}
