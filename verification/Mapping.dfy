/**
 Collection mappings: field declarations, the search schema they induce, and their wire form.
 */
module Mappings {
  import opened Outcome

  const ID_FIELD := "_id"
  const SOURCE_FIELD := "_source"

  datatype FieldType = Text | Keyword | I64 | F64 | Date

  datatype FieldSpec = FieldSpec(ty: FieldType, indexed: bool, fast: bool)

  /** Values of this type reach the rest of the program only through `New`; see `Valid`. */
  datatype Mapping = Mapping(fields: map<string, FieldSpec>) {

    predicate Valid() {
      forall name :: name in fields ==> ValidField(name, fields[name])
    }

    /** A field is searchable when the schema gives it a column. */
    predicate Searchable(name: string) {
      name in fields && (fields[name].indexed || fields[name].fast)
    }
  }

  datatype MappingError =
    | EmptyName
    | ReservedName(name: string)
    | FastText(name: string)
    | UnknownType(name: string, code: int)
    | Unspecified
    | DuplicateField(name: string)

  /** The check `Mapping::new` makes on one field. */
  function CheckField(name: string, spec: FieldSpec): Option<MappingError> {
    if name == "" then Some(EmptyName)
    else if name[0] == '_' then Some(ReservedName(name))
    else if spec.ty == Text && spec.fast then Some(FastText(name))
    else None
  }

  /** The field is refused for this reason: an empty name, a reserved one, or text asked to be fast, in this order. */
  predicate HasFault(name: string, spec: FieldSpec, e: MappingError) {
    match e
    case EmptyName => name == ""
    case ReservedName(n) => n == name && name != "" && name[0] == '_'
    case FastText(n) => n == name && name != "" && name[0] != '_' && spec.ty == Text && spec.fast
    case _ => false
  }

  predicate ValidField(name: string, spec: FieldSpec) {
    CheckField(name, spec).None?
  }

  /** Accepts exactly the valid field maps, and reports an error some field really has. */
  method New(fields: map<string, FieldSpec>) returns (r: Result<Mapping, MappingError>)
    ensures r.Ok? <==> Mapping(fields).Valid()
    ensures r.Ok? ==> r.value == Mapping(fields)
    ensures r.Ok? <==> forall name :: name in fields ==> name != "" && name[0] != '_' && (fields[name].ty == Text ==> !fields[name].fast)
    ensures r.Fail? ==> exists name :: name in fields && HasFault(name, fields[name], r.error)
  {
    var rest := fields.Keys;
    while rest != {}
      invariant rest <= fields.Keys
      invariant forall name :: name in fields && name !in rest ==> ValidField(name, fields[name])
      decreases |rest|
    {
      var name :| name in rest;
      var err := CheckField(name, fields[name]);
      if err.Some? {
        return Fail(err.value);
      }
      rest := rest - {name};
    }
    return Ok(Mapping(fields));
  }

  // ---------------------------------------------------------------- schema

  datatype ColumnType = TextColumn | BytesColumn | I64Column | F64Column | DateColumn

  datatype Column = Column(ty: ColumnType, indexed: bool, fast: bool, stored: bool, rawTokens: bool)

  type Schema = map<string, Column>

  /** The column for one searchable field. Text is always tokenised and never fast. */
  function ColumnFor(spec: FieldSpec): Column {
    match spec.ty
    case Text => Column(TextColumn, true, false, false, false)
    case Keyword => Column(TextColumn, spec.indexed, spec.fast, false, true)
    case I64 => Column(I64Column, spec.indexed, spec.fast, false, false)
    case F64 => Column(F64Column, spec.indexed, spec.fast, false, false)
    case Date => Column(DateColumn, spec.indexed, spec.fast, false, false)
  }

  /** The column is of the field's type, indexed and fast exactly as the field asks; only keywords are kept whole, and nothing is stored. */
  predicate IsColumnOf(col: Column, spec: FieldSpec) {
    && col.indexed == spec.indexed && col.fast == spec.fast && !col.stored && (col.rawTokens <==> spec.ty == Keyword)
    && (col.ty == TextColumn <==> spec.ty == Text || spec.ty == Keyword)
    && (col.ty == I64Column <==> spec.ty == I64) && (col.ty == F64Column <==> spec.ty == F64) && (col.ty == DateColumn <==> spec.ty == Date)
  }

  lemma ColumnIs(name: string, spec: FieldSpec)
    requires ValidField(name, spec) && (spec.indexed || spec.fast)
    ensures IsColumnOf(ColumnFor(spec), spec)
  {
  }

  /** The two columns every schema has. */
  predicate IsSystem(name: string) {
    name == ID_FIELD || name == SOURCE_FIELD
  }

  const SYSTEM_COLUMNS: Schema :=
    map[ID_FIELD := Column(TextColumn, true, false, true, true),
        SOURCE_FIELD := Column(BytesColumn, false, false, true, false)]

  /** No mapped field can collide with a system column. */
  lemma ReservedNames(m: Mapping, name: string)
    requires m.Valid() && name in m.fields
    ensures !IsSystem(name)
  {
    assert ValidField(name, m.fields[name]);
  }

  /** `_id`, `_source` and one column per searchable field; store-only fields get none. */
  method ToSchema(m: Mapping) returns (schema: Schema)
    requires m.Valid()
    ensures forall name :: name in schema <==> IsSystem(name) || (name in m.fields && (m.fields[name].indexed || m.fields[name].fast))
    ensures Get(schema, ID_FIELD) == Some(Column(TextColumn, true, false, true, true))
    ensures Get(schema, SOURCE_FIELD) == Some(Column(BytesColumn, false, false, true, false))
    ensures forall name :: name in m.fields && (m.fields[name].indexed || m.fields[name].fast) ==> IsColumnOf(schema[name], m.fields[name])
  {
    hide ColumnFor, IsColumnOf;
    schema := SYSTEM_COLUMNS;
    var rest := m.fields.Keys;
    while rest != {}
      invariant rest <= m.fields.Keys
      invariant forall name :: name in schema <==> IsSystem(name) || (m.Searchable(name) && name !in rest)
      invariant Get(schema, ID_FIELD) == Some(Column(TextColumn, true, false, true, true))
      invariant Get(schema, SOURCE_FIELD) == Some(Column(BytesColumn, false, false, true, false))
      invariant forall name :: m.Searchable(name) && name !in rest ==> IsColumnOf(schema[name], m.fields[name])
      decreases |rest|
    {
      var name :| name in rest;
      var spec := m.fields[name];
      rest := rest - {name};
      ReservedNames(m, name);
      if spec.indexed || spec.fast {
        ColumnIs(name, spec);
        schema := schema[name := ColumnFor(spec)];
      }
    }
  }

  // ---------------------------------------------------------------- wire form

  /** One `lumen.v1.Field` message; `code` is the raw enum number. */
  datatype ProtoField = ProtoField(name: string, code: int, indexed: bool, fast: bool)

  function TypeCode(ty: FieldType): int {
    match ty
    case Text => 1
    case Keyword => 2
    case I64 => 3
    case F64 => 4
    case Date => 5
  }

  function TypeOf(name: string, code: int): Result<FieldType, MappingError> {
    match code
    case 0 => Fail(Unspecified)
    case 1 => Ok(Text)
    case 2 => Ok(Keyword)
    case 3 => Ok(I64)
    case 4 => Ok(F64)
    case 5 => Ok(Date)
    case _ => Fail(UnknownType(name, code))
  }

  function EncodeField(name: string, spec: FieldSpec): ProtoField {
    ProtoField(name, TypeCode(spec.ty), spec.indexed, spec.fast)
  }

  /** The message says what the field is: its type, 1 to 5 in the order text, keyword, i64, f64, date, and both flags. */
  predicate Tells(field: ProtoField, spec: FieldSpec) {
    && (field.code == 1 <==> spec.ty == Text) && (field.code == 2 <==> spec.ty == Keyword)
    && (field.code == 3 <==> spec.ty == I64) && (field.code == 4 <==> spec.ty == F64) && (field.code == 5 <==> spec.ty == Date)
    && field.indexed == spec.indexed && field.fast == spec.fast
  }

  /** The encoder writes the one message under this name that tells the field. */
  lemma EncodesIff(name: string, spec: FieldSpec, field: ProtoField)
    ensures field == EncodeField(name, spec) <==> field.name == name && Tells(field, spec)
  {
    if field.name == name && Tells(field, spec) {
      assert field.code == TypeCode(spec.ty);
    }
  }

  /** `wire` is a wire form of `m`: its fields in some order, each once. */
  predicate Encodes(wire: seq<ProtoField>, m: Mapping) {
    && (forall i :: 0 <= i < |wire| ==>
          wire[i].name in m.fields && Tells(wire[i], m.fields[wire[i].name]))
    && (forall i, j :: 0 <= i < j < |wire| ==> wire[i].name != wire[j].name)
    && (forall name :: name in m.fields ==> exists i :: 0 <= i < |wire| && wire[i].name == name)
  }

  /** The fields read so far, or the first error. */
  function DecodeFields(wire: seq<ProtoField>): Result<map<string, FieldSpec>, MappingError> {
    if wire == [] then Ok(map[])
    else
      var last := wire[|wire| - 1];
      match DecodeFields(wire[..|wire| - 1])
      case Fail(e) => Fail(e)
      case Ok(fields) =>
        match TypeOf(last.name, last.code)
        case Fail(e) => Fail(e)
        case Ok(ty) =>
          if last.name in fields then Fail(DuplicateField(last.name))
          else Ok(fields[last.name := FieldSpec(ty, last.indexed, last.fast)])
  }

  /** Decodes a wire mapping: a bad field wins over a bad mapping, then `New` decides. */
  method FromProto(wire: seq<ProtoField>) returns (r: Result<Mapping, MappingError>)
    ensures DecodeFields(wire).Fail? ==> r == Fail(DecodeFields(wire).error)
    ensures DecodeFields(wire).Ok? ==> (r.Ok? <==> Mapping(DecodeFields(wire).value).Valid())
    ensures r.Ok? ==> DecodeFields(wire).Ok? && r.value == Mapping(DecodeFields(wire).value)
    ensures r.Ok? ==> WellTyped(wire) && Spells(wire, r.value.fields)
    ensures DecodeFields(wire).Ok? && r.Fail? ==> exists name :: name in DecodeFields(wire).value && HasFault(name, DecodeFields(wire).value[name], r.error)
  {
    var fields: map<string, FieldSpec> := map[];
    for i := 0 to |wire|
      invariant DecodeFields(wire[..i]) == Ok(fields)
    {
      assert wire[..i + 1][..i] == wire[..i];
      var field := wire[i];
      var ty := TypeOf(field.name, field.code);
      if ty.Fail? {
        DecodeStops(wire, i + 1);
        return Fail(ty.error);
      }
      if field.name in fields {
        DecodeStops(wire, i + 1);
        return Fail(DuplicateField(field.name));
      }
      fields := fields[field.name := FieldSpec(ty.value, field.indexed, field.fast)];
    }
    assert wire[..|wire|] == wire;
    DecodesIff(wire);
    r := New(fields);
  }

  /** The wire fields have known types and distinct names. */
  predicate WellTyped(wire: seq<ProtoField>) {
    && (forall i :: 0 <= i < |wire| ==> 1 <= wire[i].code <= 5)
    && (forall i, j :: 0 <= i < j < |wire| ==> wire[i].name != wire[j].name)
  }

  /** `fields` is what the list spells out. */
  predicate Spells(wire: seq<ProtoField>, fields: map<string, FieldSpec>) {
    && (forall name :: name in fields ==> exists i :: 0 <= i < |wire| && wire[i].name == name)
    && (forall i :: 0 <= i < |wire| ==>
          wire[i].name in fields && Tells(wire[i], fields[wire[i].name]))
  }

  /** Codes 1 to 5 name the types. Code 0 is refused as unspecified, any other as unknown. */
  lemma TypeIff(name: string, code: int)
    ensures TypeOf(name, code).Ok? <==> 1 <= code <= 5
    ensures TypeOf(name, code).Ok? ==> forall indexed, fast :: Tells(ProtoField(name, code, indexed, fast), FieldSpec(TypeOf(name, code).value, indexed, fast))
    ensures TypeOf(name, code).Fail? ==> TypeOf(name, code).error == if code == 0 then Unspecified else UnknownType(name, code)
  {
  }

  /** Exactly the well-typed lists decode, and to what they spell out. */
  lemma {:induction false} DecodesIff(wire: seq<ProtoField>)
    ensures DecodeFields(wire).Ok? <==> WellTyped(wire)
    ensures DecodeFields(wire).Ok? ==> Spells(wire, DecodeFields(wire).value)
    decreases |wire|
  {
    if wire != [] {
      hide TypeOf;
      var n := |wire| - 1;
      DecodesIff(wire[..n]);
      if DecodeFields(wire[..n]).Ok? {
        LastField(wire, DecodeFields(wire[..n]).value);
      }
    }
  }

  lemma LastField(wire: seq<ProtoField>, fields: map<string, FieldSpec>)
    requires wire != [] && WellTyped(wire[..|wire| - 1]) && Spells(wire[..|wire| - 1], fields)
    ensures var last := wire[|wire| - 1];
            var ty := TypeOf(last.name, last.code);
            && (WellTyped(wire) <==> ty.Ok? && last.name !in fields)
            && (WellTyped(wire) ==> Spells(wire, fields[last.name := FieldSpec(ty.value, last.indexed, last.fast)]))
  {
    hide TypeOf, TypeCode, Tells;
    var n := |wire| - 1;
    TypeIff(wire[n].name, wire[n].code);
    assert forall i :: 0 <= i < n ==> wire[..n][i] == wire[i];
  }

  /** The error is that of the first field at fault: its type code, or else its name, which an earlier field has. */
  lemma FirstFault(wire: seq<ProtoField>, i: nat)
    requires i < |wire| && WellTyped(wire[..i]) && !WellTyped(wire[..i + 1])
    ensures DecodeFields(wire) ==
            Fail(if wire[i].code == 0 then Unspecified else if 1 <= wire[i].code <= 5 then DuplicateField(wire[i].name) else UnknownType(wire[i].name, wire[i].code))
  {
    var upto := wire[..i + 1];
    assert upto[..i] == wire[..i];
    DecodesIff(wire[..i]);
    DecodesIff(upto);
    TypeIff(wire[i].name, wire[i].code);
    DecodeStops(wire, i + 1);
  }

  /** A decoding error in a prefix is the error of the whole. */
  lemma {:induction false} DecodeStops(wire: seq<ProtoField>, i: nat)
    requires i <= |wire| && DecodeFields(wire[..i]).Fail?
    ensures DecodeFields(wire) == DecodeFields(wire[..i])
    decreases |wire| - i
  {
    if i == |wire| {
      assert wire[..i] == wire;
    } else {
      assert wire[..i + 1][..i] == wire[..i];
      DecodeStops(wire, i + 1);
    }
  }

  /** Every valid mapping survives the wire unchanged, whatever order its fields travel in. */
  lemma ProtoRoundTrip(m: Mapping, wire: seq<ProtoField>)
    requires Encodes(wire, m)
    ensures DecodeFields(wire) == Ok(m.fields)
  {
    hide Tells, DecodeFields;
    DecodePrefix(m, wire, |wire|);
    assert wire[..|wire|] == wire;
    var read := DecodeFields(wire).value;
    forall name | name in m.fields ensures name in read {
      var i :| 0 <= i < |wire| && wire[i].name == name;
    }
    assert read == m.fields;
  }

  lemma TypeRoundTrip(name: string, ty: FieldType)
    ensures TypeOf(name, TypeCode(ty)) == Ok(ty)
  {
  }

  lemma {:induction false} DecodePrefix(m: Mapping, wire: seq<ProtoField>, n: nat)
    requires n <= |wire| && Encodes(wire, m)
    ensures DecodeFields(wire[..n]).Ok?
    ensures var read := DecodeFields(wire[..n]).value;
            && (forall name :: name in read ==> name in m.fields && read[name] == m.fields[name])
            && (forall name :: name in read ==> exists i :: 0 <= i < n && wire[i].name == name)
            && (forall i :: 0 <= i < n ==> wire[i].name in read)
  {
    if n > 0 {
      DecodePrefix(m, wire, n - 1);
      var read := DecodeFields(wire[..n - 1]).value;
      var last := wire[n - 1];
      assert last.name !in read;
      EncodesIff(last.name, m.fields[last.name], last);
      TypeRoundTrip(last.name, m.fields[last.name].ty);
      hide DecodeFields, TypeOf;
      DecodeSnoc(wire, n, read, m.fields[last.name].ty);
    }
  }

  lemma DecodeSnoc(wire: seq<ProtoField>, n: nat, read: map<string, FieldSpec>, ty: FieldType)
    requires 0 < n <= |wire| && DecodeFields(wire[..n - 1]) == Ok(read)
    requires wire[n - 1].name !in read && TypeOf(wire[n - 1].name, wire[n - 1].code) == Ok(ty)
    ensures DecodeFields(wire[..n]) == Ok(read[wire[n - 1].name := FieldSpec(ty, wire[n - 1].indexed, wire[n - 1].fast)])
  {
    assert wire[..n][..n - 1] == wire[..n - 1];
  }
}
