/** The Arow code generator's output assembly: DoGenerate walks the row types
    (grouped by namespace), accumulates the generated classes in a buffer and
    flushes it to a file according to the segregation policy; WriteContent
    decides whether a flush writes anything and which file it goes to. The
    file system is represented by the log of written files. */
module ArowGenerator {
  import opened Results
  import opened ArowNames
  import opened ArowFields

  datatype Segregation = FilePerNamespace | FilePerType | AllInOne

  /** A row type as the assembly scan delivers it: its namespace (None for
      the global namespace), its name and its schema's fields. */
  datatype RowTypeDesc = RowTypeDesc(namespace: Option<string>, name: string, fields: seq<ArowField>)

  /** The ITypeSerializationCore class generated for one row type. */
  datatype TypeCore = TypeCore(typeName: string, serializer: seq<FieldWriter>, deserializer: seq<Case>)

  /** The blocks the generator appends to its StringBuilder. The file header's
      date, user, machine and build text is not modelled. */
  datatype Line = FileHeader | FileFooter | NamespaceHeader(ns: Option<string>) | NamespaceFooter | Core(core: TypeCore)

  /** A File.WriteAllText call: the directory ensured to exist, the file name
      inside it and the text written. */
  datatype Output = Output(directory: string, fileName: string, content: seq<Line>)

  datatype Config = Config(rootPath: string, segregation: Segregation, separator: char)

  /** EmitFileHeader/Footer, EmitNamespaceHeader/Footer and
      EmitITypeSerializationCore all do nothing on a null StringBuilder (None). */
  function Append(source: Option<seq<Line>>, l: Line): Option<seq<Line>>
  {
    if source.None? then None else Some(source.value + [l])
  }

  /** EmitITypeSerializationCore: the serializer is generated before the
      deserializer, so its errors come first. */
  function EmitCore(t: RowTypeDesc, serMap: TypeMap, desMap: TypeMap): Result<TypeCore, ArowError>
  {
    match SerializeBody(t.fields, serMap)
    case Err(e) => Err(e)
    case Ok(ws) =>
      match DeserializeBody(t.fields, desMap)
      case Err(e) => Err(e)
      case Ok(cs) => Ok(TypeCore(t.name, ws, cs))
  }

  /** string.Replace(char, char). */
  function ReplaceChar(s: string, from: char, to: char): string
  {
    if s == [] then [] else [if s[0] == from then to else s[0]] + ReplaceChar(s[1..], from, to)
  }

  /** Replace keeps the length and swaps exactly the occurrences of from. */
  lemma {:induction false} ReplaceCharSpec(s: string, from: char, to: char)
    ensures |ReplaceChar(s, from, to)| == |s|
    ensures forall i :: 0 <= i < |s| ==> ReplaceChar(s, from, to)[i] == if s[i] == from then to else s[i]
  {
    if s != [] {
      ReplaceCharSpec(s[1..], from, to);
      var r := ReplaceChar(s, from, to);
      forall i | 0 <= i < |s| ensures r[i] == if s[i] == from then to else s[i] {
        if i > 0 { assert r[i] == ReplaceChar(s[1..], from, to)[i - 1]; }
      }
    }
  }

  /** Path.Combine for a second part that is not rooted (a namespace or file
      name never starts with a separator). */
  function Combine(path1: string, path2: string, sep: char): string
  {
    if path2 == [] then path1
    else if path1 == [] then path2
    else if path1[|path1| - 1] == sep then path1 + path2
    else path1 + [sep] + path2
  }

  /** The directory WriteContent ensures for a namespace: the root plus the
      namespace with every '.' turned into the directory separator. */
  function Directory(cfg: Config, ns: string): string
  {
    Combine(cfg.rootPath, ReplaceChar(ns, '.', cfg.separator), cfg.separator)
  }

  /** WriteContent: nothing is written for a null or empty buffer or a blank
      type name; a null namespace makes Path.Combine throw; otherwise the file
      is ArowTypes.cs, or the type's own name under FilePerType. */
  function ContentFile(cfg: Config, ns: Option<string>, name: Option<string>, content: Option<seq<Line>>): Result<Option<Output>, ArowError>
  {
    if content.None? || |content.value| == 0 || name.None? || IsBlank(name.value) then Ok(None)
    else if ns.None? then Err(ArgumentIsNull("path2"))
    else Ok(Some(Output(Directory(cfg, ns.value), FileNameFor(cfg, name.value), content.value)))
  }

  function Written(o: Option<Output>): seq<Output>
  {
    if o.Some? then [o.value] else []
  }

  /** The variables of DoGenerate's loop (ns, tn, source) and the files
      written so far. */
  datatype GenState = GenState(ns: Option<string>, tn: Option<string>, source: Option<seq<Line>>, written: seq<Output>)

  datatype Progress = Running(st: GenState) | Aborted(written: seq<Output>, error: ArowError)

  const START := GenState(None, None, None, [])

  /** Does DoGenerate flush its buffer before processing a type of namespace ns? */
  predicate FlushesBefore(cfg: Config, st: GenState, ns: Option<string>)
  {
    st.source.None? || cfg.segregation == FilePerType
    || (cfg.segregation == FilePerNamespace && ns != st.ns)
  }

  /** The flush at the top of an iteration: the file footer is appended and
      WriteContent called, then the buffer restarts with a file header. */
  function Flush(cfg: Config, st: GenState): Result<(seq<Output>, Option<seq<Line>>), ArowError>
  {
    match ContentFile(cfg, st.ns, st.tn, Append(st.source, FileFooter))
    case Err(e) => Err(e)
    case Ok(o) => Ok((st.written + Written(o), Some([FileHeader])))
  }

  /** On a namespace change the previous namespace is closed, unless it was
      null or blank, and the new one opened. */
  function Reopen(prev: Option<string>, ns: Option<string>, source: Option<seq<Line>>): Option<seq<Line>>
  {
    if ns != prev then
      var closed := if prev.Some? && !IsBlank(prev.value) then Append(source, NamespaceFooter) else source;
      Append(closed, NamespaceHeader(ns))
    else source
  }

  /** The class emission the loop applies to each type (EmitCore for the
      type maps in use). */
  type EmitFn = RowTypeDesc -> Result<TypeCore, ArowError>

  function CoreEmitter(serMap: TypeMap, desMap: TypeMap): EmitFn
  {
    t => EmitCore(t, serMap, desMap)
  }

  /** One iteration of DoGenerate's loop. */
  function Step(cfg: Config, st: GenState, t: RowTypeDesc, emit: EmitFn): Progress
  {
    var flushed := if FlushesBefore(cfg, st, t.namespace) then Flush(cfg, st) else Ok((st.written, st.source));
    match flushed
    case Err(e) => Aborted(st.written, e)
    case Ok((written, source)) =>
      match emit(t)
      case Err(e) => Aborted(written, e)
      case Ok(core) => Running(GenState(t.namespace, Some(t.name), Append(Reopen(st.ns, t.namespace, source), Core(core)), written))
  }

  /** DoGenerate's loop over a sequence of types. */
  function Fold(cfg: Config, ts: seq<RowTypeDesc>, emit: EmitFn): Progress
  {
    if ts == [] then Running(START)
    else
      match Fold(cfg, ts[..|ts| - 1], emit)
      case Aborted(w, e) => Aborted(w, e)
      case Running(st) => Step(cfg, st, ts[|ts| - 1], emit)
  }

  datatype RunResult = RunResult(written: seq<Output>, error: Option<ArowError>)

  /** DoGenerate: the loop, then the closing namespace footer, file footer
      and last WriteContent. */
  function Generation(cfg: Config, ts: seq<RowTypeDesc>, emit: EmitFn): RunResult
  {
    match Fold(cfg, ts, emit)
    case Aborted(w, e) => RunResult(w, Some(e))
    case Running(st) =>
      match ContentFile(cfg, st.ns, st.tn, Append(Append(st.source, NamespaceFooter), FileFooter))
      case Err(e) => RunResult(st.written, Some(e))
      case Ok(o) => RunResult(st.written + Written(o), None)
  }

  // ---------------------------------------------------------------------------
  // Flush counts and naming

  /** A type the generator processes without an error and writes under a name. */
  predicate CleanType(t: RowTypeDesc, emit: EmitFn)
  {
    t.namespace.Some? && !IsBlank(t.name) && emit(t).Ok?
  }

  predicate Clean(ts: seq<RowTypeDesc>, emit: EmitFn)
  {
    forall i :: 0 <= i < |ts| ==> CleanType(ts[i], emit)
  }

  /** The file name WriteContent uses for a buffer whose last type is called name. */
  function FileNameFor(cfg: Config, name: string): string
  {
    (if cfg.segregation != FilePerType then "ArowTypes" else name) + ".cs"
  }

  /** A written file starts with the file header and ends with the file footer. */
  predicate Framed(o: Output)
  {
    |o.content| >= 2 && o.content[0] == FileHeader && o.content[|o.content| - 1] == FileFooter
  }

  /** The loop state once a clean type has been processed. */
  predicate Open(st: GenState)
  {
    st.source.Some? && |st.source.value| > 0 && st.source.value[0] == FileHeader
    && st.ns.Some? && st.tn.Some? && !IsBlank(st.tn.value)
    && forall o :: o in st.written ==> Framed(o)
  }

  /** One clean iteration: a flush of an open buffer writes exactly one framed
      file, named after the previous type and placed in its namespace's
      directory; the first flush (of the null buffer) writes nothing. */
  lemma StepClean(cfg: Config, st: GenState, t: RowTypeDesc, emit: EmitFn)
    requires CleanType(t, emit)
    requires st == START || Open(st)
    ensures Step(cfg, st, t, emit).Running?
    ensures var st' := Step(cfg, st, t, emit).st;
      Open(st') && st'.ns == t.namespace && st'.tn == Some(t.name)
      && st'.written == st.written +
           (if st != START && FlushesBefore(cfg, st, t.namespace)
            then [Output(Directory(cfg, st.ns.value), FileNameFor(cfg, st.tn.value), st.source.value + [FileFooter])]
            else [])
  {
    if st != START && FlushesBefore(cfg, st, t.namespace) {
      var o := Output(Directory(cfg, st.ns.value), FileNameFor(cfg, st.tn.value), st.source.value + [FileFooter]);
      assert ContentFile(cfg, st.ns, st.tn, Append(st.source, FileFooter)) == Ok(Some(o));
      assert Flush(cfg, st) == Ok((st.written + [o], Some([FileHeader])));
      assert Framed(o);
    }
  }

  /** Is the buffer flushed before type i? */
  predicate FlushAt(seg: Segregation, ts: seq<RowTypeDesc>, i: nat)
    requires i < |ts|
  {
    i == 0 || seg == FilePerType || (seg == FilePerNamespace && ts[i].namespace != ts[i - 1].namespace)
  }

  function FlushCount(seg: Segregation, ts: seq<RowTypeDesc>): nat
  {
    if ts == [] then 0
    else FlushCount(seg, ts[..|ts| - 1]) + (if FlushAt(seg, ts, |ts| - 1) then 1 else 0)
  }

  lemma CleanPrefix(ts: seq<RowTypeDesc>, n: nat, emit: EmitFn)
    requires Clean(ts, emit) && n <= |ts|
    ensures Clean(ts[..n], emit)
  {
    forall i | 0 <= i < n ensures ts[..n][i] == ts[i] { }
  }

  /** The state after a clean prefix: the buffer holds the open file, ns and tn
      name the last type, and every flush but the first has written one framed file. */
  lemma {:induction false} FoldClean(cfg: Config, ts: seq<RowTypeDesc>, emit: EmitFn)
    requires Clean(ts, emit) && ts != []
    ensures Fold(cfg, ts, emit).Running?
    ensures var st := Fold(cfg, ts, emit).st;
      Open(st) && st.ns == ts[|ts| - 1].namespace && st.tn == Some(ts[|ts| - 1].name)
      && |st.written| + 1 == FlushCount(cfg.segregation, ts)
  {
    var n := |ts| - 1;
    var p := ts[..n];
    CleanPrefix(ts, n, emit);
    if p == [] {
      StepClean(cfg, START, ts[n], emit);
    } else {
      FoldClean(cfg, p, emit);
      var st := Fold(cfg, p, emit).st;
      assert p[|p| - 1] == ts[n - 1];
      assert FlushesBefore(cfg, st, ts[n].namespace) == FlushAt(cfg.segregation, ts, n);
      StepClean(cfg, st, ts[n], emit);
    }
  }

  /** Flushes happen where FlushAt says, and each writes one framed file,
      except the first (the buffer is still null), while the end of DoGenerate
      writes the last; zero types give zero files. */
  lemma GenerationCount(cfg: Config, ts: seq<RowTypeDesc>, emit: EmitFn)
    requires Clean(ts, emit)
    ensures Generation(cfg, ts, emit).error.None?
    ensures |Generation(cfg, ts, emit).written| == FlushCount(cfg.segregation, ts)
    ensures forall o :: o in Generation(cfg, ts, emit).written ==> Framed(o)
  {
    if ts != [] {
      FoldClean(cfg, ts, emit);
      var st := Fold(cfg, ts, emit).st;
      var o := Output(Directory(cfg, st.ns.value), FileNameFor(cfg, st.tn.value), st.source.value + [NamespaceFooter] + [FileFooter]);
      assert Append(Append(st.source, NamespaceFooter), FileFooter) == Some(st.source.value + [NamespaceFooter] + [FileFooter]);
      assert ContentFile(cfg, st.ns, st.tn, Some(st.source.value + [NamespaceFooter] + [FileFooter])) == Ok(Some(o));
      assert Framed(o);
    }
  }

  lemma {:induction false} FlushCountPerType(ts: seq<RowTypeDesc>)
    ensures FlushCount(FilePerType, ts) == |ts|
  {
    if ts != [] {
      FlushCountPerType(ts[..|ts| - 1]);
    }
  }

  lemma {:induction false} FlushCountAllInOne(ts: seq<RowTypeDesc>)
    requires ts != []
    ensures FlushCount(AllInOne, ts) == 1
  {
    if |ts| > 1 {
      FlushCountAllInOne(ts[..|ts| - 1]);
    }
  }

  function Namespaces(ts: seq<RowTypeDesc>): set<Option<string>>
  {
    set t | t in ts :: t.namespace
  }

  /** Types of one namespace are adjacent, as the ordering by namespace makes
      them: a namespace that occurred before only recurs right after itself. */
  predicate GroupedByNamespace(ts: seq<RowTypeDesc>)
  {
    forall i, k :: 0 <= i < k < |ts| && ts[i].namespace == ts[k].namespace ==> ts[k - 1].namespace == ts[k].namespace
  }

  lemma NamespacesLast(ts: seq<RowTypeDesc>)
    requires ts != []
    ensures Namespaces(ts) == Namespaces(ts[..|ts| - 1]) + {ts[|ts| - 1].namespace}
  {
    var p := ts[..|ts| - 1];
    assert ts == p + [ts[|ts| - 1]];
  }

  lemma NoNamespaces()
    ensures Namespaces([]) == {}
  {
  }

  lemma GroupedPrefix(ts: seq<RowTypeDesc>)
    requires GroupedByNamespace(ts) && ts != []
    ensures GroupedByNamespace(ts[..|ts| - 1])
  {
  }

  /** In grouped input, a namespace different from the previous type's has not been seen before. */
  lemma NewNamespaceIsFresh(ts: seq<RowTypeDesc>)
    requires GroupedByNamespace(ts) && |ts| >= 2
    requires ts[|ts| - 1].namespace != ts[|ts| - 2].namespace
    ensures ts[|ts| - 1].namespace !in Namespaces(ts[..|ts| - 1])
  {
    var n := |ts| - 1;
    forall j | 0 <= j < n ensures ts[j].namespace != ts[n].namespace { }
  }

  /** A namespace equal to the previous type's has been seen before. */
  lemma RepeatedNamespaceIsSeen(ts: seq<RowTypeDesc>)
    requires |ts| >= 2 && ts[|ts| - 1].namespace == ts[|ts| - 2].namespace
    ensures ts[|ts| - 1].namespace in Namespaces(ts[..|ts| - 1])
  {
    assert ts[|ts| - 2] in ts[..|ts| - 1];
  }

  lemma AddNamespace(a: set<Option<string>>, x: Option<string>)
    ensures x in a ==> a + {x} == a
    ensures x !in a ==> |a + {x}| == |a| + 1
  {
  }

  lemma FlushCountLast(seg: Segregation, ts: seq<RowTypeDesc>)
    requires ts != []
    ensures FlushCount(seg, ts) == FlushCount(seg, ts[..|ts| - 1]) + (if FlushAt(seg, ts, |ts| - 1) then 1 else 0)
  {
  }

  lemma {:induction false} FlushCountPerNamespace(ts: seq<RowTypeDesc>)
    requires GroupedByNamespace(ts)
    ensures FlushCount(FilePerNamespace, ts) == |Namespaces(ts)|
  {
    if ts != [] {
      var n := |ts| - 1;
      GroupedPrefix(ts);
      FlushCountPerNamespace(ts[..n]);
      FlushCountLast(FilePerNamespace, ts);
      NamespacesLast(ts);
      var seen, x := Namespaces(ts[..n]), ts[n].namespace;
      var before := FlushCount(FilePerNamespace, ts[..n]);
      assert before == |seen|;
      if n == 0 {
        assert ts[..n] == [];
        NoNamespaces();
        AddNamespace(seen, x);
        assert FlushCount(FilePerNamespace, ts) == before + 1;
      } else if x == ts[n - 1].namespace {
        RepeatedNamespaceIsSeen(ts);
        AddNamespace(seen, x);
        assert FlushCount(FilePerNamespace, ts) == before;
      } else {
        NewNamespaceIsFresh(ts);
        AddNamespace(seen, x);
        assert FlushCount(FilePerNamespace, ts) == before + 1;
      }
    }
  }

  /** The flush counts by policy: one file per type, one file in all, or one
      file per distinct namespace. */
  lemma OutputCounts(cfg: Config, ts: seq<RowTypeDesc>, emit: EmitFn)
    requires Clean(ts, emit)
    ensures ts == [] ==> Generation(cfg, ts, emit).written == []
    ensures cfg.segregation == FilePerType ==> |Generation(cfg, ts, emit).written| == |ts|
    ensures cfg.segregation == AllInOne && ts != [] ==> |Generation(cfg, ts, emit).written| == 1
    ensures cfg.segregation == FilePerNamespace && GroupedByNamespace(ts) ==>
      |Generation(cfg, ts, emit).written| == |Namespaces(ts)|
  {
    GenerationCount(cfg, ts, emit);
    FlushCountPerType(ts);
    if ts != [] {
      FlushCountAllInOne(ts);
    }
    if GroupedByNamespace(ts) {
      FlushCountPerNamespace(ts);
    }
  }

  /** A file named after type t and placed in its namespace's directory. */
  predicate NamedAfter(cfg: Config, o: Output, t: RowTypeDesc)
  {
    t.namespace.Some? && o.fileName == t.name + ".cs" && o.directory == Directory(cfg, t.namespace.value)
  }

  /** The k-th file is named after the k-th type. */
  predicate NamedInOrder(cfg: Config, w: seq<Output>, ts: seq<RowTypeDesc>)
  {
    |w| <= |ts| && forall k :: 0 <= k < |w| ==> NamedAfter(cfg, w[k], ts[k])
  }

  lemma NamedInOrderSnoc(cfg: Config, w: seq<Output>, o: Output, ts: seq<RowTypeDesc>, n: nat)
    requires 1 <= n <= |ts| && |w| == n - 1
    requires NamedInOrder(cfg, w, ts[..n]) && NamedAfter(cfg, o, ts[n - 1])
    ensures NamedInOrder(cfg, w + [o], ts)
  {
    forall k | 0 <= k < |w| + 1 ensures NamedAfter(cfg, (w + [o])[k], ts[k]) {
      if k < |w| {
        assert (w + [o])[k] == w[k] && ts[..n][k] == ts[k];
      }
    }
  }

  /** Under FilePerType the loop has written one file per type but the last,
      the k-th named after the k-th type and placed in its namespace's directory. */
  lemma {:induction false} FoldNamesPerType(cfg: Config, ts: seq<RowTypeDesc>, emit: EmitFn)
    requires cfg.segregation == FilePerType && Clean(ts, emit) && ts != []
    ensures Fold(cfg, ts, emit).Running?
    ensures var w := Fold(cfg, ts, emit).st.written;
      |w| == |ts| - 1 && NamedInOrder(cfg, w, ts)
  {
    var n := |ts| - 1;
    var p := ts[..n];
    CleanPrefix(ts, n, emit);
    if p == [] {
      StepClean(cfg, START, ts[n], emit);
    } else {
      FoldNamesPerType(cfg, p, emit);
      FoldClean(cfg, p, emit);
      var st := Fold(cfg, p, emit).st;
      assert p[|p| - 1] == ts[n - 1];
      StepClean(cfg, st, ts[n], emit);
      var o := Output(Directory(cfg, st.ns.value), FileNameFor(cfg, st.tn.value), st.source.value + [FileFooter]);
      assert NamedAfter(cfg, o, ts[n - 1]);
      NamedInOrderSnoc(cfg, st.written, o, ts, n);
    }
  }

  /** Under the other policies every file the loop writes is ArowTypes.cs. */
  lemma {:induction false} FoldNamesShared(cfg: Config, ts: seq<RowTypeDesc>, emit: EmitFn)
    requires cfg.segregation != FilePerType && Clean(ts, emit) && ts != []
    ensures Fold(cfg, ts, emit).Running?
    ensures forall o :: o in Fold(cfg, ts, emit).st.written ==> o.fileName == "ArowTypes.cs"
  {
    var n := |ts| - 1;
    var p := ts[..n];
    CleanPrefix(ts, n, emit);
    assert "ArowTypes" + ".cs" == "ArowTypes.cs";
    if p == [] {
      StepClean(cfg, START, ts[n], emit);
    } else {
      FoldNamesShared(cfg, p, emit);
      FoldClean(cfg, p, emit);
      var st := Fold(cfg, p, emit).st;
      StepClean(cfg, st, ts[n], emit);
    }
  }

  /** The output names of a whole run: the same rule, now covering the file
      written at the end, which is named after the last type. */
  lemma FileNames(cfg: Config, ts: seq<RowTypeDesc>, emit: EmitFn)
    requires Clean(ts, emit)
    ensures var w := Generation(cfg, ts, emit).written;
      (cfg.segregation == FilePerType ==> |w| == |ts| && NamedInOrder(cfg, w, ts))
      && (cfg.segregation != FilePerType ==> forall o :: o in w ==> o.fileName == "ArowTypes.cs")
  {
    if ts != [] {
      if cfg.segregation == FilePerType {
        FoldNamesPerType(cfg, ts, emit);
      } else {
        FoldNamesShared(cfg, ts, emit);
        assert "ArowTypes" + ".cs" == "ArowTypes.cs";
      }
      FoldClean(cfg, ts, emit);
      var st := Fold(cfg, ts, emit).st;
      var o := Output(Directory(cfg, st.ns.value), FileNameFor(cfg, st.tn.value), st.source.value + [NamespaceFooter] + [FileFooter]);
      assert ContentFile(cfg, st.ns, st.tn, Append(Append(st.source, NamespaceFooter), FileFooter)) == Ok(Some(o));
      if cfg.segregation == FilePerType {
        assert ts[..|ts|] == ts;
        NamedInOrderSnoc(cfg, st.written, o, ts, |ts|);
      }
    }
  }

  /** The first flush, of the still-null buffer, writes nothing. */
  lemma FlushStart(cfg: Config)
    ensures Flush(cfg, START) == Ok(([], Some([FileHeader])))
  {
    assert Append(START.source, FileFooter) == None;
    assert ContentFile(cfg, None, None, None) == Ok(None);
    assert START.written + Written(None) == [];
  }

  /** FilePerNamespace over two namespaces: the first file never closes its
      namespace, and the second opens with the first namespace's footer. */
  lemma NamespaceFooterInNextFile(cfg: Config, a: RowTypeDesc, b: RowTypeDesc, emit: EmitFn)
    requires cfg.segregation == FilePerNamespace && CleanType(a, emit) && CleanType(b, emit)
    requires a.namespace != b.namespace && !IsBlank(a.namespace.value)
    ensures var w := Generation(cfg, [a, b], emit).written;
      var ca, cb := emit(a).value, emit(b).value;
      w == [Output(Directory(cfg, a.namespace.value), "ArowTypes.cs",
                   [FileHeader, NamespaceHeader(a.namespace), Core(ca), FileFooter]),
            Output(Directory(cfg, b.namespace.value), "ArowTypes.cs",
                   [FileHeader, NamespaceFooter, NamespaceHeader(b.namespace), Core(cb), NamespaceFooter, FileFooter])]
  {
    var ca, cb := emit(a).value, emit(b).value;
    assert "ArowTypes" + ".cs" == "ArowTypes.cs";
    assert [a, b][..1] == [a] && [a][..0] == [];
    FlushStart(cfg);
    var src1 := [FileHeader, NamespaceHeader(a.namespace), Core(ca)];
    assert [FileHeader] + [NamespaceHeader(a.namespace)] + [Core(ca)] == src1;
    var st1 := GenState(a.namespace, Some(a.name), Some(src1), []);
    assert Fold(cfg, [a], emit) == Step(cfg, START, a, emit) == Running(st1);
    var o1 := Output(Directory(cfg, a.namespace.value), "ArowTypes.cs", src1 + [FileFooter]);
    assert ContentFile(cfg, st1.ns, st1.tn, Append(st1.source, FileFooter)) == Ok(Some(o1));
    assert st1.written + Written(Some(o1)) == [o1];
    assert Flush(cfg, st1) == Ok(([o1], Some([FileHeader])));
    var src2 := [FileHeader, NamespaceFooter, NamespaceHeader(b.namespace), Core(cb)];
    assert [FileHeader] + [NamespaceFooter] + [NamespaceHeader(b.namespace)] + [Core(cb)] == src2;
    var st2 := GenState(b.namespace, Some(b.name), Some(src2), [o1]);
    assert Fold(cfg, [a, b], emit) == Step(cfg, st1, b, emit) == Running(st2);
    var o2 := Output(Directory(cfg, b.namespace.value), "ArowTypes.cs", src2 + [NamespaceFooter] + [FileFooter]);
    assert ContentFile(cfg, st2.ns, st2.tn, Append(Append(st2.source, NamespaceFooter), FileFooter)) == Ok(Some(o2));
    assert src1 + [FileFooter] == [FileHeader, NamespaceHeader(a.namespace), Core(ca), FileFooter];
    assert src2 + [NamespaceFooter] + [FileFooter] == [FileHeader, NamespaceFooter, NamespaceHeader(b.namespace), Core(cb), NamespaceFooter, FileFooter];
  }

  /** FilePerType over two types of one namespace: the namespace is opened in
      the first file and closed in the second. */
  lemma PerTypeNamespaceSplit(cfg: Config, a: RowTypeDesc, b: RowTypeDesc, emit: EmitFn)
    requires cfg.segregation == FilePerType && CleanType(a, emit) && CleanType(b, emit)
    requires a.namespace == b.namespace
    ensures var w := Generation(cfg, [a, b], emit).written;
      var ca, cb := emit(a).value, emit(b).value;
      w == [Output(Directory(cfg, a.namespace.value), a.name + ".cs",
                   [FileHeader, NamespaceHeader(a.namespace), Core(ca), FileFooter]),
            Output(Directory(cfg, b.namespace.value), b.name + ".cs",
                   [FileHeader, Core(cb), NamespaceFooter, FileFooter])]
  {
    var ca, cb := emit(a).value, emit(b).value;
    assert [a, b][..1] == [a] && [a][..0] == [];
    FlushStart(cfg);
    var src1 := [FileHeader, NamespaceHeader(a.namespace), Core(ca)];
    assert [FileHeader] + [NamespaceHeader(a.namespace)] + [Core(ca)] == src1;
    var st1 := GenState(a.namespace, Some(a.name), Some(src1), []);
    assert Fold(cfg, [a], emit) == Step(cfg, START, a, emit) == Running(st1);
    var o1 := Output(Directory(cfg, a.namespace.value), a.name + ".cs", src1 + [FileFooter]);
    assert ContentFile(cfg, st1.ns, st1.tn, Append(st1.source, FileFooter)) == Ok(Some(o1));
    assert st1.written + Written(Some(o1)) == [o1];
    assert Flush(cfg, st1) == Ok(([o1], Some([FileHeader])));
    var src2 := [FileHeader, Core(cb)];
    assert [FileHeader] + [Core(cb)] == src2;
    var st2 := GenState(b.namespace, Some(b.name), Some(src2), [o1]);
    assert Fold(cfg, [a, b], emit) == Step(cfg, st1, b, emit) == Running(st2);
    var o2 := Output(Directory(cfg, b.namespace.value), b.name + ".cs", src2 + [NamespaceFooter] + [FileFooter]);
    assert ContentFile(cfg, st2.ns, st2.tn, Append(Append(st2.source, NamespaceFooter), FileFooter)) == Ok(Some(o2));
    assert src1 + [FileFooter] == [FileHeader, NamespaceHeader(a.namespace), Core(ca), FileFooter];
    assert src2 + [NamespaceFooter] + [FileFooter] == [FileHeader, Core(cb), NamespaceFooter, FileFooter];
  }

  /** Once an iteration aborts, the rest of the types are never looked at. */
  lemma {:induction false} FoldAbortStays(cfg: Config, ts: seq<RowTypeDesc>, n: nat, emit: EmitFn)
    requires n <= |ts| && Fold(cfg, ts[..n], emit).Aborted?
    ensures Fold(cfg, ts, emit) == Fold(cfg, ts[..n], emit)
  {
    if n < |ts| {
      var m := |ts| - 1;
      assert ts[..m][..n] == ts[..n];
      FoldAbortStays(cfg, ts[..m], n, emit);
    } else {
      assert ts[..n] == ts;
    }
  }

  /** The loop's next iteration is one Step from the state so far. */
  lemma FoldNext(cfg: Config, ts: seq<RowTypeDesc>, i: nat, st: GenState, emit: EmitFn)
    requires i < |ts| && Fold(cfg, ts[..i], emit) == Running(st)
    ensures Fold(cfg, ts[..i + 1], emit) == Step(cfg, st, ts[i], emit)
  {
    assert ts[..i + 1][..i] == ts[..i] && ts[..i + 1][i] == ts[i];
  }

  /** A loop that ran to the end closes the last buffer and writes it. */
  lemma GenerationRunning(cfg: Config, ts: seq<RowTypeDesc>, st: GenState, emit: EmitFn)
    requires Fold(cfg, ts, emit) == Running(st)
    ensures Generation(cfg, ts, emit) ==
      match ContentFile(cfg, st.ns, st.tn, Append(Append(st.source, NamespaceFooter), FileFooter))
      case Err(e) => RunResult(st.written, Some(e))
      case Ok(o) => RunResult(st.written + Written(o), None)
  {
  }

  /** An aborted loop ends the run with the files written before the failure. */
  lemma GenerationAborted(cfg: Config, ts: seq<RowTypeDesc>, n: nat, w: seq<Output>, e: ArowError, emit: EmitFn)
    requires n <= |ts| && Fold(cfg, ts[..n], emit) == Aborted(w, e)
    ensures Generation(cfg, ts, emit) == RunResult(w, Some(e))
  {
    FoldAbortStays(cfg, ts, n, emit);
  }

  /** A failed flush aborts the iteration with the files written before it. */
  lemma StepFlushFails(cfg: Config, st: GenState, t: RowTypeDesc, e: ArowError, emit: EmitFn)
    requires FlushesBefore(cfg, st, t.namespace) && Flush(cfg, st) == Err(e)
    ensures Step(cfg, st, t, emit) == Aborted(st.written, e)
  {
  }

  /** After the flush (or its absence) has produced the files w and buffer src,
      the iteration emits the type's class or aborts with its error. */
  lemma StepAfterFlush(cfg: Config, st: GenState, t: RowTypeDesc, w: seq<Output>, src: Option<seq<Line>>, emit: EmitFn)
    requires (if FlushesBefore(cfg, st, t.namespace) then Flush(cfg, st) else Ok((st.written, st.source))) == Ok((w, src))
    ensures emit(t).Err? ==> Step(cfg, st, t, emit) == Aborted(w, emit(t).error)
    ensures emit(t).Ok? ==>
      Step(cfg, st, t, emit) ==
      Running(GenState(t.namespace, Some(t.name), Append(Reopen(st.ns, t.namespace, src), Core(emit(t).value)), w))
  {
  }

  // ---------------------------------------------------------------------------
  // The generator object

  class CodeGenerator {
    var rootPath: string
    var codeSegregation: Segregation
    /** Path.DirectorySeparatorChar of the platform. */
    const directorySeparator: char
    /** The files written so far (File.WriteAllText), in order. */
    var written: seq<Output>

    function Configuration(): Config
      reads this`rootPath, this`codeSegregation
    {
      Config(rootPath, codeSegregation, directorySeparator)
    }

    constructor (rootPath: string, codeSegregation: Segregation, directorySeparator: char)
      ensures this.rootPath == rootPath && this.codeSegregation == codeSegregation
      ensures this.directorySeparator == directorySeparator && written == []
    {
      this.rootPath := rootPath;
      this.codeSegregation := codeSegregation;
      this.directorySeparator := directorySeparator;
      written := [];
    }

    /** WriteContent. */
    method WriteContent(ns: Option<string>, name: Option<string>, content: Option<seq<Line>>) returns (err: Option<ArowError>)
      modifies this`written
      ensures match ContentFile(Configuration(), ns, name, content)
        case Err(e) => err == Some(e) && written == old(written)
        case Ok(o) => err == None && written == old(written) + Written(o)
    {
      if content.None? || |content.value| == 0 || name.None? || IsBlank(name.value) {
        return None;
      }
      var dir := ns;
      if dir.Some? {
        dir := Some(ReplaceChar(dir.value, '.', directorySeparator));
      }
      var fileName := name.value;
      if codeSegregation != FilePerType {
        fileName := "ArowTypes";
      }
      if dir.None? {
        return Some(ArgumentIsNull("path2"));
      }
      var path := Combine(rootPath, dir.value, directorySeparator);
      written := written + [Output(path, fileName + ".cs", content.value)];
      err := None;
    }

    /** EmitITypeSerializationCore: the class for a row type is generated
        exactly when its serializer is; the serializer's error is the one
        raised, and the generated switch has one case per written key, in
        the same order. */
    method EmitITypeSerializationCore(t: RowTypeDesc, serMap: TypeMap, desMap: TypeMap) returns (r: Result<TypeCore, ArowError>)
      ensures r.Ok? <==> SerializeBody(t.fields, serMap).Ok?
      ensures r.Err? ==> r.error == SerializeBody(t.fields, serMap).error
      ensures r.Ok? ==> r.value.typeName == t.name && r.value.serializer == SerializeBody(t.fields, serMap).value
      ensures r.Ok? ==> CaseKeys(r.value.deserializer) == WriterKeys(r.value.serializer) == ParticipatingKeys(t.fields)
      ensures r == EmitCore(t, serMap, desMap)
    {
      var ser := EmitSerializeBody(t.fields, serMap);
      if ser.Err? {
        return Err(ser.error);
      }
      // the deserializer derives the same keys, so it cannot fail once the serializer succeeded
      DeserializeBodyKeys(t.fields, serMap, desMap);
      var des := EmitDeserializeBody(t.fields, desMap);
      r := Ok(TypeCore(t.name, ser.value, des.value));
    }

    /** The body of DoGenerate's foreach for one row type: the flush the
        segregation policy calls for, the namespace switch and the type's
        class. The files it writes and the loop variables it leaves are
        those of one Step; on an error the files written before it stay. */
    method GenerateType(trow: RowTypeDesc, ns: Option<string>, tn: Option<string>, source: Option<seq<Line>>,
                        serMap: TypeMap, desMap: TypeMap, ghost produced: seq<Output>,
                        ghost types: seq<RowTypeDesc>, ghost i: nat)
      returns (err: Option<ArowError>, ns': Option<string>, tn': Option<string>, source': Option<seq<Line>>, ghost added: seq<Output>)
      requires i < |types| && types[i] == trow
      requires Fold(Configuration(), types[..i], CoreEmitter(serMap, desMap)) == Running(GenState(ns, tn, source, produced))
      modifies this`written
      ensures written == old(written) + added
      ensures err.None? ==>
        Fold(Configuration(), types[..i + 1], CoreEmitter(serMap, desMap)) == Running(GenState(ns', tn', source', produced + added))
      ensures err.Some? ==>
        Generation(Configuration(), types, CoreEmitter(serMap, desMap)) == RunResult(produced + added, err)
    {
      ghost var cfg := Configuration();
      ghost var emit := CoreEmitter(serMap, desMap);
      ghost var st := GenState(ns, tn, source, produced);
      FoldNext(cfg, types, i, st, emit);
      added := [];
      source' := source;
      if source.None? || codeSegregation == FilePerType
         || (codeSegregation == FilePerNamespace && trow.namespace != ns) {
        source' := Append(source', FileFooter);
        ghost var o := ContentFile(cfg, ns, tn, source');
        var e := WriteContent(ns, tn, source');
        if e.Some? {
          StepFlushFails(cfg, st, trow, e.value, emit);
          GenerationAborted(cfg, types, i + 1, produced, e.value, emit);
          return e, ns, tn, source', added;
        }
        added := Written(o.value);
        source' := Some([FileHeader]);
        assert Flush(cfg, st) == Ok((produced + added, source'));
      } else {
        assert produced + added == produced;
      }
      StepAfterFlush(cfg, st, trow, produced + added, source', emit);
      ghost var reopened := Reopen(ns, trow.namespace, source');
      if trow.namespace != ns {
        if ns.Some? && !IsBlank(ns.value) {
          source' := Append(source', NamespaceFooter);
        }
        source' := Append(source', NamespaceHeader(trow.namespace));
      }
      assert source' == reopened;
      ns' := trow.namespace;
      tn' := Some(trow.name);
      var core := EmitITypeSerializationCore(trow, serMap, desMap);
      assert core == emit(trow);
      if core.Err? {
        GenerationAborted(cfg, types, i + 1, produced + added, core.error, emit);
        return Some(core.error), ns', tn', source', added;
      }
      source' := Append(source', Core(core.value));
      err := None;
    }

    /** DoGenerate: the loop over the (namespace-ordered) row types, then the
        closing namespace footer, file footer and last WriteContent. */
    method DoGenerate(types: seq<RowTypeDesc>, serMap: TypeMap, desMap: TypeMap) returns (err: Option<ArowError>)
      modifies this`written
      ensures var run := Generation(Configuration(), types, CoreEmitter(serMap, desMap));
        written == old(written) + run.written && err == run.error
    {
      ghost var base := written;
      ghost var produced: seq<Output> := [];
      ghost var cfg := Configuration();
      ghost var emit := CoreEmitter(serMap, desMap);
      var ns: Option<string> := None;
      var tn: Option<string> := None;
      var source: Option<seq<Line>> := None;
      var i := 0;
      while i < |types|
        invariant 0 <= i <= |types| && cfg == Configuration()
        invariant Fold(cfg, types[..i], emit) == Running(GenState(ns, tn, source, produced))
        invariant written == base + produced
      {
        var e;
        ghost var added;
        e, ns, tn, source, added := GenerateType(types[i], ns, tn, source, serMap, desMap, produced, types, i);
        if e.Some? {
          return e;
        }
        produced := produced + added;
        i := i + 1;
      }
      assert types[..i] == types;
      ghost var added;
      err, added := CloseLast(ns, tn, source, serMap, desMap, produced, types);
    }

    /** The end of DoGenerate: the last buffer gets its namespace and file
        footers and is written out. */
    method CloseLast(ns: Option<string>, tn: Option<string>, source: Option<seq<Line>>,
                     serMap: TypeMap, desMap: TypeMap, ghost produced: seq<Output>, ghost types: seq<RowTypeDesc>)
      returns (err: Option<ArowError>, ghost added: seq<Output>)
      requires Fold(Configuration(), types, CoreEmitter(serMap, desMap)) == Running(GenState(ns, tn, source, produced))
      modifies this`written
      ensures written == old(written) + added
      ensures Generation(Configuration(), types, CoreEmitter(serMap, desMap)) == RunResult(produced + added, err)
    {
      GenerationRunning(Configuration(), types, GenState(ns, tn, source, produced), CoreEmitter(serMap, desMap));
      var last := Append(Append(source, NamespaceFooter), FileFooter);
      ghost var o := ContentFile(Configuration(), ns, tn, last);
      err := WriteContent(ns, tn, last);
      added := if o.Ok? then Written(o.value) else [];
    }

    /** Generate: a null assembly (None) and a missing root directory are
        rejected before anything is generated. */
    method Generate(types: Option<seq<RowTypeDesc>>, rootExists: bool, serMap: TypeMap, desMap: TypeMap) returns (err: Option<ArowError>)
      modifies this`written
      ensures types.None? ==> err == Some(ArgumentIsNull("asm")) && written == old(written)
      ensures types.Some? && !rootExists ==> err == Some(PathDoesNotExist(rootPath)) && written == old(written)
      ensures types.Some? && rootExists ==>
        var run := Generation(Configuration(), types.value, CoreEmitter(serMap, desMap));
        written == old(written) + run.written && err == run.error
    {
      if types.None? {
        return Some(ArgumentIsNull("asm"));
      }
      if !rootExists {
        return Some(PathDoesNotExist(rootPath));
      }
      err := DoGenerate(types.value, serMap, desMap);
    }
  }
}
