/** Per-field decisions of the Arow code generator: which fields take part,
    which null guard the generated serializer wraps a write in, which writer
    it calls, and what the generated deserializer does with each
    (key, data type) pair it reads. Emitted C# text is represented by the
    abstract operations it performs; reflection is replaced by an explicit
    type descriptor. */
module ArowFields {
  import opened Results
  import opened ArowNames

  /** The shape of a member's CLR type, as far as the generator inspects it. */
  datatype ClrType =
    | Simple(name: string, isValueType: bool) // a non-generic type that is no enum, row, array or string
    | StringType                               // System.String
    | EnumType(name: string)
    | RowType(name: string)                    // a class assignable to TypedRow
    | NullableOf(underlying: ClrType)          // Nullable<T>
    | ArrayOf(element: ClrType)                // T[]
    | ListOf(element: ClrType)                 // List<T>

  predicate IsValueType(t: ClrType)
  {
    match t
    case Simple(_, v) => v
    case StringType => false
    case EnumType(_) => true
    case RowType(_) => false
    case NullableOf(_) => true
    case ArrayOf(_) => false
    case ListOf(_) => false
  }

  /** FieldDef.NonNullableType: T for Nullable<T>, otherwise the type itself. */
  function NonNullable(t: ClrType): ClrType
  {
    if t.NullableOf? then t.underlying else t
  }

  /** Type.Name, which also names the DataType member the generated reader compares against. */
  function TypeName(t: ClrType): string
  {
    match t
    case Simple(n, _) => n
    case StringType => "String"
    case EnumType(n) => n
    case RowType(n) => n
    case NullableOf(_) => "Nullable`1"
    case ArrayOf(e) => TypeName(e) + "[]"
    case ListOf(_) => "List`1"
  }

  predicate IsRowArray(t: ClrType) { t.ArrayOf? && t.element.RowType? }
  predicate IsRowList(t: ClrType) { t.ListOf? && t.element.RowType? }

  /** A schema field: its member name, its declared type, and the backend name
      of its first Arow attribute (None when it has no Arow attribute; a null
      backend name is the empty string). */
  datatype ArowField = ArowField(member: string, fieldType: ClrType, backendName: Option<string>)

  /** Writer.SER_TYPE_MAP and Reader.DESER_TYPE_MAP: code templates per
      supported type. Their contents belong to the runtime and are inputs here. */
  type TypeMap = map<ClrType, string>

  /** The wire-level data type tag, named as the DataType enumeration names it. */
  type TagName = string
  const NULL_TAG: TagName := "Null"
  const INT32_TAG: TagName := "Int32"
  const ROW_TAG: TagName := "Row"
  const ARRAY_TAG: TagName := "Array"

  /** The key under which a field is written and read, None when the field is
      skipped (no Arow attribute, or a backend name that encodes to 0). */
  function WireKey(f: ArowField): Result<Option<UInt64>, ArowError>
  {
    match f.backendName
    case None => Ok(None)
    case Some(n) =>
      match Encode(n)
      case Err(e) => Err(e)
      case Ok(k) => if k == 0 then Ok(None) else Ok(Some(k))
  }

  // ---------------------------------------------------------------------------
  // Serializer (EmitSerializeFieldLine)

  /** The `if` line the serializer puts in front of a write. */
  datatype Guard = Unguarded | IfHasValue(member: string) | IfNotNull(member: string)

  /** The write statement chosen for a field. */
  datatype WriteOp =
    | WriteMapped(template: string, value: string) // AW.Write(streamer, key, <template applied to value>)
    | WriteEnumAsInt(member: string)               // Writer.Write(streamer, key, (int)row.member)
    | WriteRow(member: string)                     // Writer.WriteRow
    | WriteRowArray(member: string)                // Writer.WriteRowArray, for arrays and lists of rows

  /** The lines emitted for one field: the `// 'name' = key` comment, the
      optional guard, the write, and `else AW.WriteNull(streamer, key)` when
      elseWriteNull is set. */
  datatype FieldWriter = FieldWriter(backendName: string, key: UInt64, guard: Guard, write: WriteOp, elseWriteNull: bool)

  /** EmitSerializeFieldLine. */
  function SerializeField(f: ArowField, serMap: TypeMap): (r: Result<Option<FieldWriter>, ArowError>)
    // the field takes part exactly when it has an Arow attribute whose backend name encodes to a non-zero key
    ensures r.Ok? && r.value.Some? <==> f.backendName.Some? && Encode(f.backendName.value).Ok?
                                         && Encode(f.backendName.value).value != 0
                                         && (NonNullable(f.fieldType) in serMap || Writable(NonNullable(f.fieldType)))
    ensures r.Ok? && r.value.Some? ==> r.value.value.key == Encode(f.backendName.value).value
    // a guard is emitted exactly for nullable value types and reference types, and every guarded write has an else-null
    ensures r.Ok? && r.value.Some? ==>
      var w := r.value.value;
      (w.guard == IfHasValue(f.member) <==> f.fieldType.NullableOf?)
      && (w.guard == IfNotNull(f.member) <==> !IsValueType(f.fieldType))
      && (w.guard.Unguarded? <==> IsValueType(f.fieldType) && !f.fieldType.NullableOf?)
      && (w.elseWriteNull <==> !w.guard.Unguarded?)
    // an encoding failure of the backend name, or a type no rule covers, is an error
    ensures r.Err? <==> (f.backendName.Some? && Encode(f.backendName.value).Err?)
                        || (WireKey(f) .Ok? && WireKey(f).value.Some?
                            && NonNullable(f.fieldType) !in serMap && !Writable(NonNullable(f.fieldType)))
    // a type in the map is written with its template ("row.{0}" when blank) applied to the member's value
    ensures r.Ok? && r.value.Some? && NonNullable(f.fieldType) in serMap ==>
      var code := serMap[NonNullable(f.fieldType)];
      r.value.value.write == WriteMapped(if IsBlank(code) then "row.{0}" else code,
                                         if f.fieldType.NullableOf? then f.member + ".Value" else f.member)
  {
    match WireKey(f)
    case Err(e) => Err(e)
    case Ok(None) => Ok(None)
    case Ok(Some(key)) =>
      var isValueType := IsValueType(f.fieldType);
      var isNullable := if isValueType then NonNullable(f.fieldType) != f.fieldType else false;
      var guard := if isNullable then IfHasValue(f.member)
                   else if !isValueType then IfNotNull(f.member)
                   else Unguarded;
      var t := NonNullable(f.fieldType);
      var name := f.backendName.value;
      if t in serMap then
        var template := if IsBlank(serMap[t]) then "row.{0}" else serMap[t];
        var value := if isNullable then f.member + ".Value" else f.member;
        Ok(Some(FieldWriter(name, key, guard, WriteMapped(template, value), isNullable || !isValueType)))
      else if t.EnumType? then
        Ok(Some(FieldWriter(name, key, guard, WriteEnumAsInt(f.member), isNullable || !isValueType)))
      else if t.RowType? then
        Ok(Some(FieldWriter(name, key, guard, WriteRow(f.member), isNullable || !isValueType)))
      else if IsRowArray(t) then
        Ok(Some(FieldWriter(name, key, guard, WriteRowArray(f.member), isNullable || !isValueType)))
      else if IsRowList(t) then
        Ok(Some(FieldWriter(name, key, guard, WriteRowArray(f.member), isNullable || !isValueType)))
      else
        Err(MemberTypeNotSupported(TypeName(t)))
  }

  /** The types with a structural writer (and reader) outside the type map. */
  predicate Writable(t: ClrType)
  {
    t.EnumType? || t.RowType? || IsRowArray(t) || IsRowList(t)
  }

  /** The writer a field outside the type map gets: enum as int, then row,
      then row array, then row list. */
  lemma WriterChoice(f: ArowField, serMap: TypeMap)
    requires SerializeField(f, serMap).Ok? && SerializeField(f, serMap).value.Some?
    requires NonNullable(f.fieldType) !in serMap
    ensures var op := SerializeField(f, serMap).value.value.write;
      var t := NonNullable(f.fieldType);
      (t.EnumType? ==> op == WriteEnumAsInt(f.member))
      && (t.RowType? ==> op == WriteRow(f.member))
      && (IsRowArray(t) || IsRowList(t) ==> op == WriteRowArray(f.member))
  {
  }

  /** The value a generated serializer puts on the wire for a field. The tags
      of the mapped writers belong to the runtime and stay symbolic. */
  datatype WireValue = NullValue | Int32Value | RowValue | RowArrayValue | MappedValue(template: string)

  datatype WireWrite = WireWrite(key: UInt64, value: WireValue)

  /** What the emitted lines of one field write, given whether the member holds a value. */
  function FieldWire(w: FieldWriter, present: bool): (ww: seq<WireWrite>)
    // at most one entry, always under the field's key
    ensures |ww| <= 1 && forall e :: e in ww ==> e.key == w.key
    // nothing is written only for a guarded, empty member without an else branch
    ensures ww == [] <==> !w.guard.Unguarded? && !present && !w.elseWriteNull
    // the entry is Null exactly when the guard found the member empty
    ensures ww != [] ==> (ww[0].value == NullValue <==> !w.guard.Unguarded? && !present)
  {
    if !w.guard.Unguarded? && !present then
      (if w.elseWriteNull then [WireWrite(w.key, NullValue)] else [])
    else
      var v := match w.write
        case WriteMapped(t, _) => MappedValue(t)
        case WriteEnumAsInt(_) => Int32Value
        case WriteRow(_) => RowValue
        case WriteRowArray(_) => RowArrayValue;
      [WireWrite(w.key, v)]
  }

  /** The tag (and, for arrays, the element tag) a known wire value carries. */
  function TagOf(v: WireValue): (TagName, TagName)
    requires !v.MappedValue?
  {
    match v
    case NullValue => (NULL_TAG, "")
    case Int32Value => (INT32_TAG, "")
    case RowValue => (ROW_TAG, "")
    case RowArrayValue => (ARRAY_TAG, ROW_TAG)
  }

  /** EmitSerializeBody: one writer per participating field, in schema order. */
  function SerializeBody(schema: seq<ArowField>, serMap: TypeMap): Result<seq<FieldWriter>, ArowError>
  {
    if schema == [] then Ok([])
    else
      match SerializeField(schema[0], serMap)
      case Err(e) => Err(e)
      case Ok(w) =>
        match SerializeBody(schema[1..], serMap)
        case Err(e) => Err(e)
        case Ok(ws) => Ok((if w.Some? then [w.value] else []) + ws)
  }

  /** The keys of the fields that take part, in schema order. */
  function ParticipatingKeys(schema: seq<ArowField>): seq<UInt64>
  {
    if schema == [] then []
    else
      var rest := ParticipatingKeys(schema[1..]);
      match WireKey(schema[0])
      case Ok(Some(k)) => [k] + rest
      case _ => rest
  }

  function WriterKeys(ws: seq<FieldWriter>): (keys: seq<UInt64>)
    ensures |keys| == |ws| && forall i :: 0 <= i < |ws| ==> keys[i] == ws[i].key
  {
    if ws == [] then [] else [ws[0].key] + WriterKeys(ws[1..])
  }

  /** A field that serializes without error emits a writer exactly when it
      has a wire key, and the writer carries that key. */
  lemma FieldWriterKey(f: ArowField, serMap: TypeMap)
    requires SerializeField(f, serMap).Ok?
    ensures SerializeField(f, serMap).value.Some? <==> WireKey(f).Ok? && WireKey(f).value.Some?
    ensures SerializeField(f, serMap).value.Some? ==>
      SerializeField(f, serMap).value.value.key == WireKey(f).value.value != 0
  {
  }

  /** The serializer writes one key per participating field, in schema order,
      every one non-zero. */
  lemma {:induction false} SerializeBodyKeys(schema: seq<ArowField>, serMap: TypeMap)
    requires SerializeBody(schema, serMap).Ok?
    ensures WriterKeys(SerializeBody(schema, serMap).value) == ParticipatingKeys(schema)
    ensures forall w :: w in SerializeBody(schema, serMap).value ==> w.key != 0
  {
    if schema != [] {
      SerializeBodyKeys(schema[1..], serMap);
      var ws := SerializeBody(schema, serMap).value;
      var rest := SerializeBody(schema[1..], serMap).value;
      var w := SerializeField(schema[0], serMap).value;
      FieldWriterKey(schema[0], serMap);
      assert ws == (if w.Some? then [w.value] else []) + rest;
      if w.Some? {
        assert ws[1..] == rest;
        assert WriterKeys(ws) == [w.value.key] + WriterKeys(rest);
      } else {
        assert ws == rest;
      }
    }
  }

  /** What a generated Serialize writes for a record, given which members hold
      a value; the writer issues no end-of-record key itself. */
  function SerializeRecord(ws: seq<FieldWriter>, present: seq<bool>): (ww: seq<WireWrite>)
    requires |present| == |ws|
    ensures |ww| <= |ws|
    ensures forall e :: e in ww ==> e.key in WriterKeys(ws)
  {
    if ws == [] then [] else FieldWire(ws[0], present[0]) + SerializeRecord(ws[1..], present[1..])
  }

  function WrittenKeys(ww: seq<WireWrite>): seq<UInt64>
  {
    if ww == [] then [] else [ww[0].key] + WrittenKeys(ww[1..])
  }

  /** Every field a serializer emits code for writes exactly one entry, under
      its own key and in schema order (a guarded one writes Null when the
      member is empty); no entry has key 0, so no end-of-record marker is written. */
  lemma {:induction false} SerializeRecordKeys(ws: seq<FieldWriter>, present: seq<bool>)
    requires |present| == |ws|
    requires forall w :: w in ws ==> (w.elseWriteNull <==> !w.guard.Unguarded?)
    ensures WrittenKeys(SerializeRecord(ws, present)) == WriterKeys(ws)
    ensures forall i :: 0 <= i < |ws| && !ws[i].guard.Unguarded? && !present[i] ==>
              FieldWire(ws[i], present[i]) == [WireWrite(ws[i].key, NullValue)]
  {
    if ws != [] {
      SerializeRecordKeys(ws[1..], present[1..]);
      var head := FieldWire(ws[0], present[0]);
      assert |head| == 1;
      assert SerializeRecord(ws, present) == head + SerializeRecord(ws[1..], present[1..]);
      assert WrittenKeys(head + SerializeRecord(ws[1..], present[1..]))
          == [head[0].key] + WrittenKeys(SerializeRecord(ws[1..], present[1..])) by {
        assert (head + SerializeRecord(ws[1..], present[1..]))[1..] == SerializeRecord(ws[1..], present[1..]);
      }
      forall i | 0 <= i < |ws| && !ws[i].guard.Unguarded? && !present[i]
        ensures FieldWire(ws[i], present[i]) == [WireWrite(ws[i].key, NullValue)]
      {
        assert ws[i] in ws;
      }
    }
  }

  /** Serializing a schema split in two: the first failing field decides the
      error, otherwise the writers of both parts in order. */
  lemma {:induction false} SerializeBodyAppend(p: seq<ArowField>, q: seq<ArowField>, serMap: TypeMap)
    ensures SerializeBody(p + q, serMap) == (match SerializeBody(p, serMap)
                                             case Err(e) => Err(e)
                                             case Ok(a) =>
                                               match SerializeBody(q, serMap)
                                               case Err(e) => Err(e)
                                               case Ok(b) => Ok(a + b))
  {
    if p == [] {
      assert p + q == q;
      match SerializeBody(q, serMap)
      case Err(_) =>
      case Ok(b) => assert [] + b == b;
    } else {
      assert (p + q)[0] == p[0] && (p + q)[1..] == p[1..] + q;
      SerializeBodyAppend(p[1..], q, serMap);
      match SerializeField(p[0], serMap)
      case Err(_) =>
      case Ok(w) =>
        match SerializeBody(p[1..], serMap)
        case Err(_) =>
        case Ok(a) =>
          match SerializeBody(q, serMap)
          case Err(_) =>
          case Ok(b) =>
            assert (if w.Some? then [w.value] else []) + (a + b) == ((if w.Some? then [w.value] else []) + a) + b;
    }
  }

  lemma SerializeBodySingle(f: ArowField, serMap: TypeMap)
    ensures SerializeBody([f], serMap) == (match SerializeField(f, serMap)
                                           case Err(e) => Err(e)
                                           case Ok(w) => Ok(if w.Some? then [w.value] else []))
  {
    assert [f][0] == f && [f][1..] == [];
    match SerializeField(f, serMap)
    case Err(_) =>
    case Ok(w) => assert (if w.Some? then [w.value] else []) + [] == (if w.Some? then [w.value] else []);
  }

  /** EmitSerializeBody: the loop over the schema's fields. */
  method EmitSerializeBody(schema: seq<ArowField>, serMap: TypeMap) returns (r: Result<seq<FieldWriter>, ArowError>)
    ensures r == SerializeBody(schema, serMap)
    ensures r.Ok? ==> forall w :: w in r.value ==> w.key != 0 && (w.elseWriteNull <==> !w.guard.Unguarded?)
  {
    var writers: seq<FieldWriter> := [];
    var i := 0;
    while i < |schema|
      invariant 0 <= i <= |schema|
      invariant SerializeBody(schema[..i], serMap) == Ok(writers)
      invariant forall w :: w in writers ==> w.key != 0 && (w.elseWriteNull <==> !w.guard.Unguarded?)
    {
      assert schema[..i + 1] == schema[..i] + [schema[i]];
      SerializeBodyAppend(schema[..i], [schema[i]], serMap);
      assert SerializeBody([schema[i]][1..], serMap) == Ok([]);
      var line := SerializeField(schema[i], serMap);
      if line.Err? {
        assert schema == schema[..i + 1] + schema[i + 1..];
        SerializeBodyAppend(schema[..i + 1], schema[i + 1..], serMap);
        return Err(line.error);
      }
      SerializeBodySingle(schema[i], serMap);
      if line.value.Some? {
        writers := writers + [line.value.value];
      } else {
        assert writers + [] == writers;
      }
      i := i + 1;
    }
    assert schema[..i] == schema;
    r := Ok(writers);
  }

  // ---------------------------------------------------------------------------
  // Deserializer (EmitDeserializeField, EmitDeserializeBody)

  /** The code emitted inside one `case` of the read loop's switch. A reader
      whose nullGuard is set starts with
      `if (dt==DataType.Null) { row.member = null; continue;}`. */
  datatype FieldReader =
    | CustomReader(code: string)                                    // a DESER_TYPE_MAP entry
    | EnumReader(nullGuard: bool, member: string, enumType: string) // requires Int32
    | RowReader(nullGuard: bool, member: string, rowType: string)   // requires Row
    | RowArrayReader(nullGuard: bool, member: string, elem: string) // requires Array, then Row
    | RowListReader(nullGuard: bool, member: string, elem: string)  // requires Array, then Row
    | PrimArrayReader(nullGuard: bool, member: string, elemTag: TagName)
    | PrimListReader(nullGuard: bool, member: string, elemTag: TagName)
    | NullableReader(nullGuard: bool, member: string, tag: TagName) // nullable value types and strings
    | RegularReader(nullGuard: bool, member: string, tag: TagName)

  /** EmitDeserializeField. The type map is consulted with the declared type. */
  function DeserializeField(f: ArowField, desMap: TypeMap): (r: FieldReader)
    // a type-map entry with code replaces everything else
    ensures f.fieldType in desMap && !IsBlank(desMap[f.fieldType]) <==> r.CustomReader?
    // structural readers only for types outside the map, with the null check for nullable and reference types
    ensures !r.CustomReader? ==>
      (r.nullGuard <==> f.fieldType !in desMap && (f.fieldType.NullableOf? || !IsValueType(f.fieldType)))
    ensures f.fieldType !in desMap ==>
      (f.fieldType.EnumType? <==> r.EnumReader?) && (f.fieldType.RowType? <==> r.RowReader?)
      && (IsRowArray(f.fieldType) <==> r.RowArrayReader?) && (IsRowList(f.fieldType) <==> r.RowListReader?)
    ensures !r.CustomReader? ==> r.member == f.member
    // any other type gets a primitive reader: array, list, nullable (for Nullable<T> and string)
    // or regular, checking the tag named after the (element or underlying) type
    ensures !r.CustomReader? && !(f.fieldType !in desMap && Writable(f.fieldType)) ==>
      var t := f.fieldType;
      (t.ArrayOf? ==> r == PrimArrayReader(r.nullGuard, f.member, TypeName(t.element)))
      && (t.ListOf? ==> r == PrimListReader(r.nullGuard, f.member, TypeName(t.element)))
      && (!t.ArrayOf? && !t.ListOf? && (t.NullableOf? || t.StringType?) ==>
            r == NullableReader(r.nullGuard, f.member, TypeName(NonNullable(t))))
      && (!t.ArrayOf? && !t.ListOf? && !t.NullableOf? && !t.StringType? ==>
            r == RegularReader(r.nullGuard, f.member, TypeName(t)))
  {
    var t := f.fieldType;
    var isNullable := t.NullableOf?;
    var isValueType := IsValueType(t);
    var inMap := t in desMap;
    var guard := !inMap && (isNullable || !isValueType);
    if !inMap && t.EnumType? then EnumReader(guard, f.member, TypeName(t))
    else if !inMap && t.RowType? then RowReader(guard, f.member, TypeName(t))
    else if !inMap && IsRowArray(t) then RowArrayReader(guard, f.member, TypeName(t.element))
    else if !inMap && IsRowList(t) then RowListReader(guard, f.member, TypeName(t.element))
    else if inMap && !IsBlank(desMap[t]) then CustomReader(desMap[t])
    else if t.ArrayOf? then PrimArrayReader(guard, f.member, TypeName(t.element))
    else if t.ListOf? then PrimListReader(guard, f.member, TypeName(t.element))
    else if isNullable || t.StringType? then NullableReader(guard, f.member, TypeName(NonNullable(t)))
    else RegularReader(guard, f.member, TypeName(NonNullable(t)))
  }

  /** A field with a primitive reader assigns its member when the wire
      carries the tag named after its type (for arrays and lists, the Array
      tag followed by the element's tag), and continues. */
  lemma PrimitiveReaderAssigns(f: ArowField, desMap: TypeMap, inner: TagName)
    requires !DeserializeField(f, desMap).CustomReader? && !(f.fieldType !in desMap && Writable(f.fieldType))
    requires TypeName(NonNullable(f.fieldType)) != NULL_TAG
    ensures var t := f.fieldType;
      var r := DeserializeField(f, desMap);
      (t.ArrayOf? || t.ListOf? ==>
         React(r, ARRAY_TAG, TypeName(t.element)) == Reaction(Assign(f.member, ARRAY_TAG), Continue))
      && (!t.ArrayOf? && !t.ListOf? ==>
         React(r, TypeName(NonNullable(t)), inner) == Reaction(Assign(f.member, TypeName(NonNullable(t))), Continue))
  {
  }

  /** One `case key:` of the generated switch. */
  datatype Case = Case(key: UInt64, backendName: string, reader: FieldReader)

  /** EmitDeserializeBody: one case per participating field, in schema order,
      using the serializer's filter. Keys are not checked for duplicates. */
  function DeserializeBody(schema: seq<ArowField>, desMap: TypeMap): Result<seq<Case>, ArowError>
  {
    if schema == [] then Ok([])
    else
      match WireKey(schema[0])
      case Err(e) => Err(e)
      case Ok(k) =>
        match DeserializeBody(schema[1..], desMap)
        case Err(e) => Err(e)
        case Ok(cs) =>
          Ok((if k.Some? then [Case(k.value, schema[0].backendName.value, DeserializeField(schema[0], desMap))] else []) + cs)
  }

  function CaseKeys(cs: seq<Case>): (keys: seq<UInt64>)
    ensures |keys| == |cs| && forall i :: 0 <= i < |cs| ==> keys[i] == cs[i].key
  {
    if cs == [] then [] else [cs[0].key] + CaseKeys(cs[1..])
  }

  /** Reader and writer agree on the field set: the switch has one case per
      participating field, in schema order, and a schema the serializer accepts
      is accepted by the deserializer. */
  lemma {:induction false} DeserializeBodyKeys(schema: seq<ArowField>, serMap: TypeMap, desMap: TypeMap)
    requires SerializeBody(schema, serMap).Ok?
    ensures DeserializeBody(schema, desMap).Ok?
    ensures CaseKeys(DeserializeBody(schema, desMap).value) == ParticipatingKeys(schema)
    ensures CaseKeys(DeserializeBody(schema, desMap).value) == WriterKeys(SerializeBody(schema, serMap).value)
  {
    if schema != [] {
      DeserializeBodyKeys(schema[1..], serMap, desMap);
      var cs := DeserializeBody(schema, desMap).value;
      var rest := DeserializeBody(schema[1..], desMap).value;
      if WireKey(schema[0]).value.Some? {
        assert cs[1..] == rest;
      } else {
        assert cs == rest;
      }
    }
    SerializeBodyKeys(schema, serMap);
  }

  /** What the emitted case code does with the member. */
  datatype Effect =
    | NoEffect
    | SetNull(member: string)
    | Assign(member: string, tag: TagName)
    | AssignIfRead(member: string) // `if (Reader.TryReadRow(...)) row.member = vrow;`: the runtime decides
    | RunCustom(code: string)

  /** After the case code: `continue` to the next key, or `break` out of the
      switch into Reader.ConsumeUnmatched with the element tag read so far. */
  datatype Next = Continue | Unmatched(atp: Option<TagName>) | Undetermined

  datatype Reaction = Reaction(effect: Effect, next: Next)

  /** The generated case code run on the data type dt read after the key;
      inner is the element tag that follows an Array tag on the wire, read
      only where the code reads it. */
  function React(r: FieldReader, dt: TagName, inner: TagName): (re: Reaction)
    // only custom code runs something the generator does not know, and only it leaves the outcome open
    ensures re.effect.RunCustom? <==> r.CustomReader?
    ensures re.next.Undetermined? <==> r.CustomReader?
    // a structural case touches its own member and no other
    ensures (re.effect.SetNull? || re.effect.Assign? || re.effect.AssignIfRead?) ==> re.effect.member == r.member
    // a case that leaves the member alone breaks to ConsumeUnmatched, passing on the element tag it read, if any
    ensures re.effect.NoEffect? ==> re.next.Unmatched?
    ensures re.next.Unmatched? && re.next.atp.Some? ==> re.next.atp.value == inner
  {
    match r
    case CustomReader(code) => Reaction(RunCustom(code), Undetermined)
    case EnumReader(g, m, _) =>
      if g && dt == NULL_TAG then Reaction(SetNull(m), Continue)
      else if dt != INT32_TAG then Reaction(NoEffect, Unmatched(None))
      else Reaction(Assign(m, INT32_TAG), Continue)
    case RowReader(g, m, _) =>
      if g && dt == NULL_TAG then Reaction(SetNull(m), Continue)
      else if dt != ROW_TAG then Reaction(NoEffect, Unmatched(None))
      else Reaction(AssignIfRead(m), Continue)
    case RowArrayReader(g, m, _) => ReactArray(g, m, ROW_TAG, dt, inner)
    case RowListReader(g, m, _) => ReactArray(g, m, ROW_TAG, dt, inner)
    case PrimArrayReader(g, m, e) =>
      if g && dt == NULL_TAG then Reaction(SetNull(m), Continue)
      else if dt == NULL_TAG then Reaction(SetNull(m), Continue)
      else ReactArray(false, m, e, dt, inner)
    case PrimListReader(g, m, e) =>
      if g && dt == NULL_TAG then Reaction(SetNull(m), Continue)
      // `if (dt==Null) row.m = null;` has no `else`: the following
      // `if (dt!=DataType.Array) break;` sends the Null on to ConsumeUnmatched
      else if dt == NULL_TAG then Reaction(SetNull(m), Unmatched(None))
      else ReactArray(false, m, e, dt, inner)
    case NullableReader(g, m, tag) =>
      if dt == NULL_TAG then Reaction(SetNull(m), Continue)
      else if dt == tag then Reaction(Assign(m, tag), Continue)
      else Reaction(NoEffect, Unmatched(None))
    case RegularReader(g, m, tag) =>
      if g && dt == NULL_TAG then Reaction(SetNull(m), Continue)
      else if dt == tag then Reaction(Assign(m, tag), Continue)
      else Reaction(NoEffect, Unmatched(None))
  }

  /** `if (dt!=DataType.Array) break; atp = ReadDataType(); if (atp!=elem) break; ...; continue;` */
  function ReactArray(g: bool, m: string, elem: TagName, dt: TagName, inner: TagName): Reaction
  {
    if g && dt == NULL_TAG then Reaction(SetNull(m), Continue)
    else if dt != ARRAY_TAG then Reaction(NoEffect, Unmatched(None))
    else if inner != elem then Reaction(NoEffect, Unmatched(Some(inner)))
    else Reaction(Assign(m, ARRAY_TAG), Continue)
  }

  /** The tag a structural reader requires before it assigns (for arrays and
      lists, together with the element tag). */
  function ExpectedTag(r: FieldReader): (TagName, TagName)
    requires !r.CustomReader?
  {
    match r
    case EnumReader(_, _, _) => (INT32_TAG, "")
    case RowReader(_, _, _) => (ROW_TAG, "")
    case RowArrayReader(_, _, _) => (ARRAY_TAG, ROW_TAG)
    case RowListReader(_, _, _) => (ARRAY_TAG, ROW_TAG)
    case PrimArrayReader(_, _, e) => (ARRAY_TAG, e)
    case PrimListReader(_, _, e) => (ARRAY_TAG, e)
    case NullableReader(_, _, t) => (t, "")
    case RegularReader(_, _, t) => (t, "")
  }

  /** A generated case only consumes a value whose tag it checked: on the
      expected wire tag (and element tag) it assigns the member (a row reader
      only if Reader.TryReadRow succeeds) and continues; on any other tag but
      Null it breaks to ConsumeUnmatched without touching the member. */
  lemma ReactMismatchIsUnmatched(r: FieldReader, dt: TagName, inner: TagName)
    requires !r.CustomReader? && dt != NULL_TAG
    ensures var (tag, elem) := ExpectedTag(r);
      var isArray := r.RowArrayReader? || r.RowListReader? || r.PrimArrayReader? || r.PrimListReader?;
      var matches := dt == tag && (isArray ==> inner == elem);
      (matches ==> React(r, dt, inner) ==
                   Reaction(if r.RowReader? then AssignIfRead(r.member) else Assign(r.member, tag), Continue))
      && (!matches ==> React(r, dt, inner).effect == NoEffect && React(r, dt, inner).next.Unmatched?)
  {
  }

  /** A Null tag is accepted first by every reader with a null check, and by
      the nullable, primitive-array and primitive-list shapes, which all set
      the member to null; only the primitive-list shape then still falls
      through to ConsumeUnmatched. Non-nullable enum, row and regular readers
      treat Null as a mismatch. */
  lemma ReactNull(r: FieldReader, inner: TagName)
    requires !r.CustomReader?
    ensures var re := React(r, NULL_TAG, inner);
      var acceptsNull := r.nullGuard || r.NullableReader? || r.PrimArrayReader? || r.PrimListReader?;
      (acceptsNull ==> re.effect == SetNull(r.member))
      && (acceptsNull && !(r.PrimListReader? && !r.nullGuard) ==> re.next == Continue)
      && (r.PrimListReader? && !r.nullGuard ==> re.next == Unmatched(None))
      && (!acceptsNull && ExpectedTag(r).0 != NULL_TAG ==> re == Reaction(NoEffect, Unmatched(None)))
  {
  }

  /** One step of the generated read loop: after reading key and tag. */
  datatype LoopStep =
    | EndOfRecord                                    // key 0: `break;//EORow`
    | Handled(effect: Effect)                        // the case code ran and continued
    | ConsumeUnmatched(effect: Effect, dt: TagName, atp: Option<TagName>)
    | RanCustom(code: string)

  /** The first case with the key, if any (a C# switch has at most one). */
  function FindCase(cs: seq<Case>, key: UInt64): (r: Option<Case>)
    ensures r.Some? ==> r.value in cs && r.value.key == key
    ensures r.None? <==> key !in CaseKeys(cs)
  {
    if cs == [] then None
    else if cs[0].key == key then Some(cs[0])
    else FindCase(cs[1..], key)
  }

  /** The generated Deserialize loop body for one wire entry (key, dt, and the
      element tag that may follow dt). */
  function Dispatch(cs: seq<Case>, key: UInt64, dt: TagName, inner: TagName): (s: LoopStep)
    ensures key == 0 ==> s == EndOfRecord
    // case code runs only for a key that has a case
    ensures s.Handled? || s.RanCustom? ==> key != 0 && key in CaseKeys(cs)
    ensures s.ConsumeUnmatched? ==> s.dt == dt
  {
    if key == 0 then EndOfRecord
    else
      match FindCase(cs, key)
      case None => ConsumeUnmatched(NoEffect, dt, None)
      case Some(c) =>
        var re := React(c.reader, dt, inner);
        match re.next
        case Continue => Handled(re.effect)
        case Unmatched(atp) => ConsumeUnmatched(re.effect, dt, atp)
        case Undetermined => RanCustom(re.effect.code)
  }

  /** The read loop ends on key 0, sends a key without a case to
      ConsumeUnmatched untouched, and otherwise runs the first case for the
      key: a case that continues is handled, one that breaks goes on to
      ConsumeUnmatched with its effect and element tag, custom code runs. */
  lemma DispatchKeys(cs: seq<Case>, key: UInt64, dt: TagName, inner: TagName)
    ensures key == 0 <==> Dispatch(cs, key, dt, inner) == EndOfRecord
    ensures key != 0 && key !in CaseKeys(cs) ==> Dispatch(cs, key, dt, inner) == ConsumeUnmatched(NoEffect, dt, None)
    ensures key != 0 && key in CaseKeys(cs) ==>
      var re := React(FindCase(cs, key).value.reader, dt, inner);
      (re.next == Continue ==> Dispatch(cs, key, dt, inner) == Handled(re.effect))
      && (re.next.Unmatched? ==> Dispatch(cs, key, dt, inner) == ConsumeUnmatched(re.effect, dt, re.next.atp))
      && (re.next.Undetermined? ==> Dispatch(cs, key, dt, inner) == RanCustom(re.effect.code))
  {
  }

  /** A one-case switch: an Int32 entry under the enum field's key is
      assigned to the member. */
  lemma DispatchEnumCase()
    ensures Dispatch([Case(1, "A", EnumReader(false, "m", "E"))], 1, INT32_TAG, "") == Handled(Assign("m", INT32_TAG))
  {
    assert FindCase([Case(1, "A", EnumReader(false, "m", "E"))], 1) == Some(Case(1, "A", EnumReader(false, "m", "E")));
  }

  /** Writer and reader agree: for a field outside both type maps whose type
      is an enum, a row, or an array or list of rows, whatever the generated
      serializer writes for it is consumed by the generated deserializer's
      case for the same field (assigned, or set to null), never sent to
      ConsumeUnmatched. A row value is assigned only if Reader.TryReadRow
      succeeds; the case continues either way. The tags are those TagOf
      gives the runtime writers. */
  lemma WriterReaderAgree(f: ArowField, serMap: TypeMap, desMap: TypeMap, present: bool)
    requires SerializeField(f, serMap).Ok? && SerializeField(f, serMap).value.Some?
    requires NonNullable(f.fieldType) !in serMap && f.fieldType !in desMap
    requires f.fieldType.EnumType? || f.fieldType.RowType? || IsRowArray(f.fieldType) || IsRowList(f.fieldType)
    ensures var w := SerializeField(f, serMap).value.value;
      var r := DeserializeField(f, desMap);
      forall e :: e in FieldWire(w, present) ==>
        var (tag, elem) := TagOf(e.value);
        var re := React(r, tag, elem);
        re.next == Continue
        && (e.value == NullValue ==> re.effect == SetNull(f.member))
        && (e.value == RowValue ==> re.effect == AssignIfRead(f.member))
        && (e.value != NullValue && e.value != RowValue ==> re.effect == Assign(f.member, tag))
  {
  }

  /** The exception to the agreement above: a nullable enum is written as an
      Int32 value, but its reader (the nullable shape, since Nullable<E> is
      not an enum type) compares the tag against the enum's own type name. */
  lemma NullableEnumReaderMismatch(f: ArowField, serMap: TypeMap, desMap: TypeMap)
    requires f.fieldType.NullableOf? && f.fieldType.underlying.EnumType?
    requires SerializeField(f, serMap).Ok? && SerializeField(f, serMap).value.Some?
    requires f.fieldType.underlying !in serMap && f.fieldType !in desMap
    ensures SerializeField(f, serMap).value.value.write == WriteEnumAsInt(f.member)
    ensures DeserializeField(f, desMap) == NullableReader(true, f.member, f.fieldType.underlying.name)
  {
  }

  lemma {:induction false} DeserializeBodyAppend(p: seq<ArowField>, q: seq<ArowField>, desMap: TypeMap)
    ensures DeserializeBody(p + q, desMap) == (match DeserializeBody(p, desMap)
                                               case Err(e) => Err(e)
                                               case Ok(a) =>
                                                 match DeserializeBody(q, desMap)
                                                 case Err(e) => Err(e)
                                                 case Ok(b) => Ok(a + b))
  {
    if p == [] {
      assert p + q == q;
      match DeserializeBody(q, desMap)
      case Err(_) =>
      case Ok(b) => assert [] + b == b;
    } else {
      assert (p + q)[0] == p[0] && (p + q)[1..] == p[1..] + q;
      DeserializeBodyAppend(p[1..], q, desMap);
      match WireKey(p[0])
      case Err(_) =>
      case Ok(k) =>
        var head := if k.Some? then [Case(k.value, p[0].backendName.value, DeserializeField(p[0], desMap))] else [];
        match DeserializeBody(p[1..], desMap)
        case Err(_) =>
        case Ok(a) =>
          match DeserializeBody(q, desMap)
          case Err(_) =>
          case Ok(b) =>
            assert head + (a + b) == (head + a) + b;
    }
  }

  lemma DeserializeBodySingle(f: ArowField, desMap: TypeMap)
    ensures DeserializeBody([f], desMap) == (match WireKey(f)
                                             case Err(e) => Err(e)
                                             case Ok(k) => Ok(if k.Some? then [Case(k.value, f.backendName.value, DeserializeField(f, desMap))] else []))
  {
    assert [f][0] == f && [f][1..] == [];
    match WireKey(f)
    case Err(_) =>
    case Ok(k) =>
      var c := if k.Some? then [Case(k.value, f.backendName.value, DeserializeField(f, desMap))] else [];
      assert c + [] == c;
  }

  /** EmitDeserializeBody: the loop that emits one case per participating field. */
  method EmitDeserializeBody(schema: seq<ArowField>, desMap: TypeMap) returns (r: Result<seq<Case>, ArowError>)
    ensures r == DeserializeBody(schema, desMap)
    ensures r.Ok? ==> CaseKeys(r.value) == ParticipatingKeys(schema)
  {
    var cases: seq<Case> := [];
    var i := 0;
    while i < |schema|
      invariant 0 <= i <= |schema|
      invariant DeserializeBody(schema[..i], desMap) == Ok(cases)
    {
      assert schema[..i + 1] == schema[..i] + [schema[i]];
      DeserializeBodyAppend(schema[..i], [schema[i]], desMap);
      assert DeserializeBody([schema[i]][1..], desMap) == Ok([]);
      var key := WireKey(schema[i]);
      if key.Err? {
        assert schema == schema[..i + 1] + schema[i + 1..];
        DeserializeBodyAppend(schema[..i + 1], schema[i + 1..], desMap);
        return Err(key.error);
      }
      DeserializeBodySingle(schema[i], desMap);
      if key.value.Some? {
        cases := cases + [Case(key.value.value, schema[i].backendName.value, DeserializeField(schema[i], desMap))];
      } else {
        assert cases + [] == cases;
      }
      i := i + 1;
    }
    assert schema[..i] == schema;
    r := Ok(cases);
    CaseKeysOfBody(schema, desMap);
  }

  lemma {:induction false} CaseKeysOfBody(schema: seq<ArowField>, desMap: TypeMap)
    requires DeserializeBody(schema, desMap).Ok?
    ensures CaseKeys(DeserializeBody(schema, desMap).value) == ParticipatingKeys(schema)
  {
    if schema != [] {
      CaseKeysOfBody(schema[1..], desMap);
      var cs := DeserializeBody(schema, desMap).value;
      var rest := DeserializeBody(schema[1..], desMap).value;
      if WireKey(schema[0]).value.Some? {
        assert cs[1..] == rest;
        assert CaseKeys(cs)[1..] == CaseKeys(rest);
      } else {
        assert cs == rest;
      }
    }
  }
}
