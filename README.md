# Arow code generator and CSV writer (NFX serialization)

This project is a Dafny model of two parts of the NFX serialization library.
It states what they promise and proves it.

**Arow code generator** (`CodeGenerator`). For each typed row class, the
generator emits a C# `ITypeSerializationCore` and sorts the results into
files. The model covers three parts of it:

- `arow_names.dfy`: the wire-key codec.
  - `GetName(string)` packs a backend field name of up to eight Latin-1
    characters into a 64-bit key, first character most significant.
  - `GetName(ulong)` unpacks a key back into a name.
- `arow_fields.dfy`: the per-field emission decisions.
  - Which fields take part, the null guard, the writer chosen, and the
    `else WriteNull` branch (`EmitSerializeFieldLine`).
  - The `case` emitted for each field in the generated read loop
    (`EmitDeserializeBody`, `EmitDeserializeField`).
  - What the emitted code does on the wire. Emitted statements are
    represented by datatypes of operations (`FieldWriter`, `FieldReader`),
    not by C# text. The reaction of a generated case to a wire tag is
    `React`, and one turn of the generated read loop is `Dispatch`.
- `arow_generator.dfy`: the output state machine.
  - `CodeGenerator.DoGenerate` walks the namespace-ordered row types,
    carrying `ns`, `tn` and the buffer, and flushes the buffer according to
    the segregation policy.
  - `CodeGenerator.WriteContent` decides whether a flush writes a file and
    which directory and file name it gets.
  - The file system is the class field `written`, a log of the files
    written.
  - The methods are proved against the pure specification `Step`, `Fold`
    and `Generation`. Flush counts, file names and file contents are then
    proved about that specification.

**CSV writer** (`CSVWriter`), in `csv_writer.dfy`:

- field quoting (`escape`);
- field selection (`getAcceptableDefs`, `isWritable`);
- per-type value formatting (`writeValue`);
- the header and row lines (`writeHeader`, `writeRow`);
- the two `Write(…, TextWriter, …)` entry points, for a rowset and for a
  single row.

The `TextWriter` is the class `TextSink`, which holds the text appended so
far. The methods are proved against the functions `HeaderLine`, `RowLine`,
`RowsetText` and `RowText`.

`results.dfy` holds the `Option` and `Result` datatypes shared by both parts.

Modelling conventions:

- A C# `null` is `None`. The exceptions the code throws are `Err` values
  (`ArowError`, `CsvError`).
- `ulong` is the subset type `UInt64`. The shift-and-or of the encoder is
  `* 256 +`, and the model proves that it never exceeds 64 bits.
- Quirks of the code the model keeps:
  - The generated serializer writes no end-of-record key. Only the generated
    reader treats key 0 as the end of a record.
  - A blank name encodes to 0 and its field is skipped. A non-empty blank
    name, one made only of white space, therefore does not round-trip.

## Model

| member | source | states |
|---|---|---|
| ArowNames.GetName | Source/NFX/Serialization/Arow/CodeGenerator.cs:104-118 | A null or blank name gives key 0 whatever its length. A non-blank name fails with the invalid-field-name error exactly when it is longer than 8 characters or holds a character above 0xFF. Otherwise the key is the big-endian byte packing of the name and is below 256^n for a name of n characters. |
| ArowNames.PackedBound | Source/NFX/Serialization/Arow/CodeGenerator.cs:110-116 | A packed name of n characters fits in 8·n bits. |
| ArowNames.PackedSnoc | Source/NFX/Serialization/Arow/CodeGenerator.cs:112-115 | One loop step (shift left by 8, or in the character) appends one character to the packed name. |
| ArowNames.GetKeyName | Source/NFX/Serialization/Arow/CodeGenerator.cs:123-135 | Key 0 decodes to "". The result has at most 8 characters, none of them NUL, and re-packing it gives exactly the low bytes of the key that were read. The loop stops only at a zero byte or after 8 bytes. |
| ArowNames.DecodeShape | Source/NFX/Serialization/Arow/CodeGenerator.cs:127-134 | The same facts about the decoding function: empty for 0, at most 8 non-NUL characters, equal to the key's low bytes, and ended only by a zero byte or after 8 bytes. |
| ArowNames.UnpackShape | Source/NFX/Serialization/Arow/CodeGenerator.cs:127-133 | Unpacking n bytes yields at most n characters, none of them NUL. |
| ArowNames.UnpackPacked | Source/NFX/Serialization/Arow/CodeGenerator.cs:110-133 | Unpacking a packed name of non-zero bytes that fits the examined bytes gives the name back. |
| ArowNames.PackedUnpack | Source/NFX/Serialization/Arow/CodeGenerator.cs:127-133 | Re-packing the decoded name gives the value of as many low bytes of the key as the name has characters. |
| ArowNames.UnpackBytes | Source/NFX/Serialization/Arow/CodeGenerator.cs:127-133 | Decoding reads bytes from the low end: every byte kept is non-zero and becomes the character at the mirrored position. |
| ArowNames.UnpackStopsAtZero | Source/NFX/Serialization/Arow/CodeGenerator.cs:127-133 | Decoding stops at the first zero byte: unless all bytes examined were kept, the byte after the kept ones is zero. |
| ArowNames.DecodeStopsAtZero | Source/NFX/Serialization/Arow/CodeGenerator.cs:123-135 | The key 0x410042 decodes to "B": the loop stops at the zero byte and never reaches the 'A' above it. |
| ArowNames.RoundTrip | Source/NFX/Serialization/Arow/CodeGenerator.cs:104-135 | A name of 1 to 8 non-zero Latin-1 characters, not all white space, encodes without error to a non-zero key that decodes to the same name. |
| ArowFields.SerializeField | Source/NFX/Serialization/Arow/CodeGenerator.cs:218-269 | A field gets code exactly when it has an Arow attribute whose name encodes to a non-zero key and its type is in the type map or has a structural writer. The writer carries that key. A HasValue guard is emitted exactly for nullable value types and a != null guard exactly for reference types. Every guarded write has an else-WriteNull. A type in the map is written with its template, "row.{0}" when the template is blank, applied to the member or to its .Value for a nullable. A bad backend name, or a participating type no rule covers, is an error. |
| ArowFields.WriterChoice | Source/NFX/Serialization/Arow/CodeGenerator.cs:242-256 | Outside the type map the writer is chosen in order: enum as int, then row, then row array, then row list. |
| ArowFields.FieldWriterKey | Source/NFX/Serialization/Arow/CodeGenerator.cs:221-224 | A field that serializes without error emits a writer exactly when it has a non-zero wire key, and the writer uses that key. |
| ArowFields.EmitSerializeBody | Source/NFX/Serialization/Arow/CodeGenerator.cs:212-216 | The loop over the schema yields the serializer body function's result. Every emitted writer has a non-zero key and has an else-WriteNull exactly when it is guarded. |
| ArowFields.SerializeBodyKeys | Source/NFX/Serialization/Arow/CodeGenerator.cs:212-224 | The serializer writes one key per participating field, in schema order, and none of them is 0. |
| ArowFields.SerializeRecordKeys | Source/NFX/Serialization/Arow/CodeGenerator.cs:233-268 | The generated Serialize writes exactly one entry per emitted field, under that field's key and in schema order. A guarded field whose member is empty writes Null. No end-of-record key is written. |
| ArowFields.FieldWire | Source/NFX/Serialization/Arow/CodeGenerator.cs:233-266 | The emitted lines of one field write at most one entry, under the field's key. Nothing is written only for a guarded, empty member without an else branch. The entry is Null exactly when the guard found the member empty. |
| ArowFields.SerializeRecord | Source/NFX/Serialization/Arow/CodeGenerator.cs:201-215 | The generated Serialize writes at most one entry per emitted field, each under the key of one of them. SerializeRecordKeys states the exact keys and order. |
| ArowFields.SerializeBodyAppend | Source/NFX/Serialization/Arow/CodeGenerator.cs:212-216 | For a schema split in two, the first failing field decides the error; otherwise the writers of both parts come in order. |
| ArowFields.SerializeBodySingle | Source/NFX/Serialization/Arow/CodeGenerator.cs:214-215 | A one-field schema gives that field's writer, nothing, or its error. |
| ArowFields.DeserializeField | Source/NFX/Serialization/Arow/CodeGenerator.cs:314-428 | A type-map entry with code replaces everything else. Readers begin with the Null check exactly for nullable and reference types outside the map. Enum, row, row-array and row-list types outside the map get exactly the enum, row, row-array and row-list readers. Any other type gets a primitive reader: arrays the array reader and lists the list reader, both checking the element type's tag. Nullable types and string get the nullable reader, and every other type the regular reader, both checking the tag named after the underlying type. |
| ArowFields.PrimitiveReaderAssigns | Source/NFX/Serialization/Arow/CodeGenerator.cs:385-427 | A primitive reader assigns its member and continues when the wire carries the tag named after the field's type. For arrays and lists that is the Array tag followed by the element type's tag. |
| ArowFields.EmitDeserializeBody | Source/NFX/Serialization/Arow/CodeGenerator.cs:282-312 | The loop yields the deserializer body function's result, with one case per participating field in schema order. |
| ArowFields.DeserializeBodyKeys | Source/NFX/Serialization/Arow/CodeGenerator.cs:293-305 | The switch uses the serializer's filter. A schema the serializer accepts is accepted by the deserializer, and the case keys equal the serializer's keys in order. Duplicate keys are not rejected. |
| ArowFields.CaseKeysOfBody | Source/NFX/Serialization/Arow/CodeGenerator.cs:293-305 | The case keys are the participating keys in schema order. |
| ArowFields.DeserializeBodyAppend | Source/NFX/Serialization/Arow/CodeGenerator.cs:293-305 | Emitting cases for a split schema gives the cases of both parts in order, or the first error. |
| ArowFields.DeserializeBodySingle | Source/NFX/Serialization/Arow/CodeGenerator.cs:295-304 | A one-field schema gives one case under the field's key, no case, or the key's error. |
| ArowFields.ReactMismatchIsUnmatched | Source/NFX/Serialization/Arow/CodeGenerator.cs:329-427 | On a non-Null tag, a structural case continues exactly when the tag (and, for arrays and lists, the element tag) is the expected one. It then assigns the member, except that a row reader assigns only if Reader.TryReadRow succeeds. On any other tag it leaves the member untouched and breaks to ConsumeUnmatched. |
| ArowFields.ReactNull | Source/NFX/Serialization/Arow/CodeGenerator.cs:329-330 | A Null tag sets the member to null for readers with the null check and for the nullable, primitive-array and primitive-list shapes. The primitive-list shape without that check still falls through to ConsumeUnmatched. Other readers treat Null as a mismatch. (Also lines 385, 401-402, 416.) |
| ArowFields.FindCase | Source/NFX/Serialization/Arow/CodeGenerator.cs:291-305 | A case is found exactly when its key is among the case keys, and the case found carries that key. |
| ArowFields.React | Source/NFX/Serialization/Arow/CodeGenerator.cs:320-427 | Only custom type-map code runs something the generator does not know, and only it leaves the outcome open. A structural case touches only its own member. A case that leaves the member alone breaks to ConsumeUnmatched and passes on the element tag it read, if any. |
| ArowFields.Dispatch | Source/NFX/Serialization/Arow/CodeGenerator.cs:283-309 | Key 0 ends the record. Case code runs only for a non-zero key that has a case. ConsumeUnmatched receives the data type that was read. |
| ArowFields.DispatchKeys | Source/NFX/Serialization/Arow/CodeGenerator.cs:287-309 | The read loop ends exactly on key 0. A non-zero key without a case goes to ConsumeUnmatched with no effect on the row. A key with a case runs the first such case: if the case continues, the entry is handled with the case's effect; if it breaks, ConsumeUnmatched receives the effect, the data type and the element tag read; custom code runs as written. |
| ArowFields.DispatchEnumCase | Source/NFX/Serialization/Arow/CodeGenerator.cs:287-338 | In a switch with one enum case, an Int32 entry under that case's key is handled by assigning the member. |
| ArowFields.WriterReaderAgree | Source/NFX/Serialization/Arow/CodeGenerator.cs:244-371 | For enum, row, row-array and row-list fields outside both maps, every entry the generated serializer writes is consumed by the generated case for that field, which continues and never sends it to ConsumeUnmatched. A Null sets the member to null, a row is assigned only if Reader.TryReadRow succeeds, and the other entries are assigned. The wire tags are those TagOf gives the runtime writers. |
| ArowFields.NullableEnumReaderMismatch | Source/NFX/Serialization/Arow/CodeGenerator.cs:244-245 | A nullable enum is written as an Int32 value, but its reader is the nullable shape and expects the enum's own type name as the tag. (Also lines 317, 413-419.) |
| ArowGenerator.ReplaceCharSpec | Source/NFX/Serialization/Arow/CodeGenerator.cs:80-81 | Replacing '.' by the separator keeps the length and swaps exactly the occurrences. |
| ArowGenerator.CodeGenerator.WriteContent | Source/NFX/Serialization/Arow/CodeGenerator.cs:76-91 | A null or empty buffer, or a blank type name, writes nothing. A null namespace fails. Otherwise one file is appended to the log: the root plus the namespace with '.' turned into the separator, named ArowTypes.cs, or after the type under FilePerType. |
| ArowGenerator.CodeGenerator.EmitITypeSerializationCore | Source/NFX/Serialization/Arow/CodeGenerator.cs:176-200 | A type's class is generated exactly when its serializer is, and the serializer's error is the one raised. The class holds the type name and the serializer body, and its deserializer switch has one case per key the serializer writes, in the same order. |
| ArowGenerator.CodeGenerator.DoGenerate | Source/NFX/Serialization/Arow/CodeGenerator.cs:43-74 | The files written and the error raised are exactly those of the specification of the loop plus the closing footers and last WriteContent. Files written before an error stay written. |
| ArowGenerator.CodeGenerator.GenerateType | Source/NFX/Serialization/Arow/CodeGenerator.cs:49-69 | One pass of the loop body extends the run by exactly one type. If it throws, the whole run ends there, keeping the files written so far plus any file its own flush wrote first. |
| ArowGenerator.CodeGenerator.CloseLast | Source/NFX/Serialization/Arow/CodeGenerator.cs:71-73 | After the loop the last buffer gets the namespace and file footers and is written. The files and error of the whole run are the loop's files plus this last write. |
| ArowGenerator.CodeGenerator.Generate | Source/NFX/Serialization/Arow/CodeGenerator.cs:36-41 | A null assembly or a missing root directory fails before anything is written; otherwise the run is DoGenerate's. |
| ArowGenerator.StepClean | Source/NFX/Serialization/Arow/CodeGenerator.cs:49-69 | One iteration on a clean type: a flush of an open buffer writes one file framed by header and footer, named after the previous type and placed in its namespace's directory. The first flush, of the null buffer, writes nothing. |
| ArowGenerator.FoldClean | Source/NFX/Serialization/Arow/CodeGenerator.cs:49-69 | After a clean prefix, the buffer is open and ns/tn name the last type. Every flush but the first has written one file. |
| ArowGenerator.GenerationCount | Source/NFX/Serialization/Arow/CodeGenerator.cs:43-78 | A clean run raises no error, writes one file per flush point, and every file is framed by header and footer. |
| ArowGenerator.FlushCountPerType | Source/NFX/Serialization/Arow/CodeGenerator.cs:50-52 | Under FilePerType the buffer is flushed before every type. |
| ArowGenerator.FlushCountAllInOne | Source/NFX/Serialization/Arow/CodeGenerator.cs:50-52 | Under AllInOne it is flushed only before the first type. |
| ArowGenerator.FlushCountPerNamespace | Source/NFX/Serialization/Arow/CodeGenerator.cs:50-52 | Under FilePerNamespace, on namespace-grouped input, it is flushed once per distinct namespace. |
| ArowGenerator.NewNamespaceIsFresh | Source/NFX/Serialization/Arow/CodeGenerator.cs:52-96 | In namespace-grouped input, a namespace that differs from the previous type's has not occurred before. |
| ArowGenerator.OutputCounts | Source/NFX/Serialization/Arow/CodeGenerator.cs:43-74 | For a clean run (every type has a namespace and a non-blank name and emits without error): zero types give zero files. FilePerType over N types gives N files. AllInOne over at least one type gives one file. FilePerNamespace over grouped input gives one file per distinct namespace. |
| ArowGenerator.FoldNamesPerType | Source/NFX/Serialization/Arow/CodeGenerator.cs:49-88 | Under FilePerType the loop writes one file per type but the last. The k-th file is named after the k-th type and placed in its namespace's directory. |
| ArowGenerator.FoldNamesShared | Source/NFX/Serialization/Arow/CodeGenerator.cs:49-83 | Under the other policies every file the loop writes is ArowTypes.cs. |
| ArowGenerator.FileNames | Source/NFX/Serialization/Arow/CodeGenerator.cs:43-91 | For a whole clean run, FilePerType writes exactly one file per type, named after that type and placed in its namespace's directory, in order. Otherwise every file is ArowTypes.cs. |
| ArowGenerator.FlushStart | Source/NFX/Serialization/Arow/CodeGenerator.cs:55-78 | The first flush, of the still-null buffer, writes nothing and starts a buffer with the file header. |
| ArowGenerator.NamespaceFooterInNextFile | Source/NFX/Serialization/Arow/CodeGenerator.cs:43-74 | FilePerNamespace over two namespaces: the first file never closes its namespace. The second file opens with the first namespace's footer. |
| ArowGenerator.PerTypeNamespaceSplit | Source/NFX/Serialization/Arow/CodeGenerator.cs:43-74 | FilePerType over two types of one namespace: the namespace is opened in the first file and closed only in the second. |
| ArowGenerator.FoldAbortStays | Source/NFX/Serialization/Arow/CodeGenerator.cs:49-69 | Once an iteration throws, later types are never processed. |
| ArowGenerator.GenerationAborted | Source/NFX/Serialization/Arow/CodeGenerator.cs:43-74 | A run that throws keeps exactly the files written before the failure. |
| ArowGenerator.StepFlushFails | Source/NFX/Serialization/Arow/CodeGenerator.cs:54-85 | A flush whose WriteContent throws aborts the iteration with the files written before it. |
| ArowGenerator.StepAfterFlush | Source/NFX/Serialization/Arow/CodeGenerator.cs:60-68 | After the flush, the previous namespace is closed unless it was null or blank, and the new one opened, only on a namespace change. Then the type's class is appended, or the iteration aborts with its error. |
| CsvWriter.Escape | Source/NFX/Serialization/CSV/CSVWriter.cs:244-251 | Without '\n', '\r', '"' or the delimiter the string is returned unchanged. Otherwise it is wrapped in quotes. The length grows by one per quote, plus two when quoted. |
| CsvWriter.UnescapeEscape | Source/NFX/Serialization/CSV/CSVWriter.cs:244-251 | Removing the outer quotes when present and collapsing each doubled quote recovers the original string. |
| CsvWriter.CollapseDoubled | Source/NFX/Serialization/CSV/CSVWriter.cs:248 | Collapsing doubled quotes undoes the doubling. |
| CsvWriter.DoubleQuotesLength | Source/NFX/Serialization/CSV/CSVWriter.cs:248 | Doubling adds one character per quote. |
| CsvWriter.NoQuotesUnchanged | Source/NFX/Serialization/CSV/CSVWriter.cs:248 | A string without quotes is left unchanged by the doubling. |
| CsvWriter.GetAcceptableDefs | Source/NFX/Serialization/CSV/CSVWriter.cs:136-152 | A null schema fails. With allFields every definition is returned in order. Otherwise exactly the writable definitions are returned, in schema order. |
| CsvWriter.WritableMembers | Source/NFX/Serialization/CSV/CSVWriter.cs:145-193 | A definition is selected exactly when it is in the schema and is neither NonUI nor stored as None or OnlyLoad. |
| CsvWriter.IsWritable | Source/NFX/Serialization/CSV/CSVWriter.cs:187-193 | The predicate itself: not NonUI and not stored as None or OnlyLoad. WritableMembers carries the contract of the selection built on it. |
| CsvWriter.WritableAppend | Source/NFX/Serialization/CSV/CSVWriter.cs:145-149 | Selection distributes over concatenation, so the schema's order is kept. |
| CsvWriter.WritableLength | Source/NFX/Serialization/CSV/CSVWriter.cs:145-149 | Selection never adds definitions, and keeps all of them when all are writable. |
| CsvWriter.FormatValueUnescapes | Source/NFX/Serialization/CSV/CSVWriter.cs:203-241 | String, floating-point and other values are escaped, so each cell reads back as its text. |
| CsvWriter.FormatValueNumbers | Source/NFX/Serialization/CSV/CSVWriter.cs:215-238 | int and long values are written as their decimal text and TimeSpan as its tick count, with a '-' sign, which assumes a writer culture that uses '-'. Each reads back as the same number and needs no quoting unless the delimiter is a digit or '-'. |
| CsvWriter.FormatValue | Source/NFX/Serialization/CSV/CSVWriter.cs:195-241 | A null is written as the configured null text. A string, floating-point or other value is wrapped in quotes exactly when its text holds the delimiter, a quote or a line break, and is written as is otherwise. FormatValueUnescapes and FormatValueNumbers carry the rest of its contract. |
| CsvWriter.DecimalRoundTrip | Source/NFX/Serialization/CSV/CSVWriter.cs:217 | Invariant-culture integer text parses back to the same integer. |
| CsvWriter.DecimalNeedsNoQuotes | Source/NFX/Serialization/CSV/CSVWriter.cs:217 | Integer text holds only digits and a leading minus sign. |
| CsvWriter.DigitsShape | Source/NFX/Serialization/CSV/CSVWriter.cs:217 | The digits of a natural number are decimal digits and parse back to it. |
| CsvWriter.WriteHeader | Source/NFX/Serialization/CSV/CSVWriter.cs:154-168 | Appends the raw field names separated by the delimiter, then exactly one newline if there was at least one definition. It appends nothing otherwise. |
| CsvWriter.NamesAt | Source/NFX/Serialization/CSV/CSVWriter.cs:161 | Each header cell is the raw name of its definition, with no escaping. |
| CsvWriter.HeaderLineCells | Source/NFX/Serialization/CSV/CSVWriter.cs:154-168 | A non-empty header line ends with the newline. Cut at the delimiters, it gives back the names when none holds the delimiter. |
| CsvWriter.HeaderNameNotEscaped | Source/NFX/Serialization/CSV/CSVWriter.cs:161 | A field name holding the delimiter is not quoted, so it reads back as two cells. |
| CsvWriter.WriteRow | Source/NFX/Serialization/CSV/CSVWriter.cs:170-185 | Appends the formatted values of the selected fields separated by the delimiter, then exactly one newline if there was at least one definition. |
| CsvWriter.CellsAt | Source/NFX/Serialization/CSV/CSVWriter.cs:174-178 | The j-th cell is the formatted value of the j-th selected field. |
| CsvWriter.RowLineCells | Source/NFX/Serialization/CSV/CSVWriter.cs:170-185 | A non-empty row line ends with the newline. Cut at the delimiters, it gives back its cells when none holds the delimiter. |
| CsvWriter.SplitJoin | Source/NFX/Serialization/CSV/CSVWriter.cs:158-182 | Delimiter-joined cells that are free of the delimiter are recovered by cutting at the delimiter. |
| CsvWriter.WriteRowset | Source/NFX/Serialization/CSV/CSVWriter.cs:58-75 | A null rowset writes nothing. A null schema fails before anything is written. Otherwise the header line comes first and only when IncludeHeader is set, followed by one line per Row element in rowset order. |
| CsvWriter.WriteRows | Source/NFX/Serialization/CSV/CSVWriter.cs:68-74 | Appends one row line per element that is a Row, in order, and skips the others. |
| CsvWriter.RowLinesAppend | Source/NFX/Serialization/CSV/CSVWriter.cs:68-74 | Rows are written in rowset order: the lines of two runs of elements are the first run's followed by the second's. |
| CsvWriter.NonRowsSkipped | Source/NFX/Serialization/CSV/CSVWriter.cs:70-71 | Elements that are not rows contribute nothing. |
| CsvWriter.NoDefsNothingWritten | Source/NFX/Serialization/CSV/CSVWriter.cs:58-75 | With no definitions selected nothing at all is written, header included. (Also lines 154-185.) |
| CsvWriter.WriteSingleRow | Source/NFX/Serialization/CSV/CSVWriter.cs:122-133 | A null row writes nothing. A null schema fails before anything is written. Otherwise the optional header and exactly one row line are written. |
| CsvWriter.SingleRowRowset | Source/NFX/Serialization/CSV/CSVWriter.cs:58-75 | A rowset holding one row is written exactly as that row on its own. (Also lines 122-133.) |

## Left out

- Reflection is not modelled. This covers `GetRowTypes` (scanning the assembly, the attribute checks, ordering by namespace) and `Schema.GetForTypedRow`. Row types arrive as a sequence of `RowTypeDesc`, fields as `ArowField` and CLR types as `ClrType`. The ordering by namespace is the hypothesis `GroupedByNamespace` where a lemma needs it.
- File system I/O is not modelled: `Directory.Exists` becomes the `rootExists` parameter of `Generate`, and `EnsureAccessibleDirectory` and `File.WriteAllText` become the `written` log of `Output` records. The CSV wrappers over files, streams, buffers and encodings (`WriteToFile`, `WriteToBuffer`, the `Stream` and string overloads of `Write`) are not modelled. The `TextWriter` is the append-only `TextSink`.
- The file header's date, user, machine and framework text, and all emitted C# text, are represented by abstract `Line`, `FieldWriter` and `FieldReader` values.
- The contents of `Writer.SER_TYPE_MAP` and `Reader.DESER_TYPE_MAP` are parameters (`TypeMap`). The runtime `Writer`, `Reader`, `ArowSerializer` and `ConsumeUnmatched` are not part of this model. Wire tags of mapped writers stay symbolic.
- Floating-point, decimal and DateTime formatting is not modelled. Those values carry the text their invariant-culture `ToString` produces. DateTime text is written unescaped, as the code does.
- CsvWriter.FormatValue, CsvWriter.FormatValueNumbers: TimeSpan ticks are written by `TextWriter.Write(long)`, which formats with the writer's culture, whereas int and long values use the invariant culture. The model writes the ticks with a '-' sign, so what it says about negative TimeSpan values holds only under a culture whose negative sign is '-'.
- The default `CSVWritingOptions` instance is not modelled; it is the `defaultOptions` parameter.
- CsvWriter.FieldValue: `Row.GetFieldValue(def)` is modelled as a lookup by the definition's `Order`. The `Write` entry points therefore require every row to index a value for every definition of its schema (`Fits`, and `RowsFit` for a rowset), not only for the selected ones. `WriteHeader` and `WriteRow` require it for the definitions they are given. A real row would throw for a foreign definition.
- ArowGenerator.Combine: `Path.Combine` is modelled only for a second part that is not rooted (a namespace or file name), with the directory separator as a parameter. The alternate separator and a rooted second part are not modelled. Namespaces and file names never form a rooted path, so nothing here depends on them.
- ArowFields.TagOf, ArowFields.WriterReaderAgree: the wire tags of the structural runtime writers are assumed, not derived. Enums are taken to be written with the Int32 tag, rows with the Row tag, and row arrays and lists with the Array tag followed by the Row element tag. The runtime `Writer` is not part of this model.
- ArowFields.React: whether `Reader.TryReadRow` succeeds belongs to the runtime. A row case records the conditional assignment (`AssignIfRead`) and continues either way.
- What `ConsumeUnmatched` does with an unmatched entry is not part of this model. The unmatched path records only the data type and the element tag (`atp`) the generated code passes to it.
