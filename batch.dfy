/// `procesar_archivos`: every supported file of the input directory, in
/// name order, is read and put through the extraction; accepted records and
/// extraction failures are collected, each accepted record is written to its
/// own file, and a summary closes the run.
module Batch {
  import opened Common
  import opened Text
  import opened Json
  import opened Validator
  import opened Extraction
  import opened Readers

  /** One entry of the input directory: its name, whether it is a regular
      file, and its contents as the document libraries see them. */
  datatype Entry = Entry(name: string, isFile: bool, doc: Document)

  /** `{"archivo_origen": ..., "datos_extraidos": ...}`. */
  datatype Resultado = Resultado(archivo: string, datos: map<string, Json>)

  /** The `RuntimeError` caught for one file at line 321: one a document
      library raised while the file was read, or the one the extraction
      raised when its attempts ran out. */
  datatype Failure = ReadFailed(cause: ReadError) | ExtractFailed(fatal: Fatal)

  /** `{"archivo": ..., "error": ...}`. */
  datatype ErrorEntry = ErrorEntry(archivo: string, error: Failure)

  /** The consolidated summary written at the end of a run. */
  datatype Resumen = Resumen(totalProcesados: nat, totalErrores: nat, resultados: seq<Resultado>, errores: seq<ErrorEntry>)

  /** A file written to the output directory: the record of one input file,
      or the summary `resumen_completo.json`. */
  datatype Written = Individual(fileName: string, datos: map<string, Json>) | Summary(resumen: Resumen)

  /** How a run ends: it returns the accepted results, or an exception from
      reading a file that is not a `RuntimeError` propagates out of it. */
  datatype Run = Returned(resultados: seq<Resultado>) | Aborted(cause: ReadError)

  // ---------------------------------------------------------------------------
  // Candidates

  /** Lines 283-284: a regular file with a supported suffix. */
  predicate Admitted(e: Entry) {
    e.isFile && Lower(Suffix(e.name)) in Extensiones
  }

  /** The admitted entries, in listing order. */
  function Admit(listing: seq<Entry>): (kept: seq<Entry>)
    ensures forall e <- kept :: Admitted(e)
  {
    if listing == [] then []
    else (if Admitted(listing[0]) then [listing[0]] else []) + Admit(listing[1..])
  }

  /** Entries ordered by name. */
  predicate SortedByName(s: seq<Entry>) {
    forall i, j :: 0 <= i < j < |s| ==> Below(s[i].name, s[j].name)
  }

  /** `e` placed before the first entry of `s` whose name it does not
      exceed. */
  function Insert(e: Entry, s: seq<Entry>): seq<Entry> {
    if s == [] then [e]
    else if Below(e.name, s[0].name) then [e] + s
    else [s[0]] + Insert(e, s[1..])
  }

  /** `sorted(...)` on paths of one directory: by name, in code-point order. */
  function SortByName(s: seq<Entry>): seq<Entry> {
    if s == [] then [] else Insert(s[0], SortByName(s[1..]))
  }

  /** Lines 282-285: `archivos`. */
  function Candidates(listing: seq<Entry>): seq<Entry> {
    SortByName(Admit(listing))
  }

  /** Name of the record file written for input `name` (line 314). */
  function OutputName(name: string): string {
    Stem(name) + "_resultado.json"
  }

  // ---------------------------------------------------------------------------
  // The loop as a value

  /** A read error that line 321 catches: a library exception that is a
      `RuntimeError`. The `ValueError`s of the readers are not. */
  predicate IsRuntimeError(e: ReadError) {
    e.LibraryError? && e.runtimeError
  }

  /** A read outcome that ends the run: an error line 321 does not catch. */
  predicate StopsRun(r: Result<string, ReadError>) {
    r.Err? && !IsRuntimeError(r.error)
  }

  /** The state of the loop: what it has collected and written so far, and
      the read error that stopped it, if one did. */
  datatype Progress = Progress(
    resultados: seq<Resultado>,
    errores: seq<ErrorEntry>,
    written: seq<Written>,
    stopped: Option<ReadError>)

  /** How the loop reads a file: its text, or the error reading it raised. */
  type Reading = Entry -> Result<string, ReadError>

  /** How the loop extracts a file's data from its name and text. */
  type Extracting = (string, string) -> Result<map<string, Json>, Fatal>

  /** Line 299: the reader the file's suffix selects. */
  function ReadEntry(e: Entry): Result<string, ReadError> {
    ReadFile(e.name, e.doc)
  }

  /** Line 304: the extraction with its retries; `api(name)` answers the
      requests made for the file `name`. */
  function ExtractWith(api: string -> (string, nat) -> Response, loads: string -> Result<Json, LoadError>): Extracting {
    (name: string, texto: string) => Retry(texto, api(name), loads).0
  }

  /** Lines 298-324, one file: read it, extract, and record the outcome. A
      `RuntimeError` from reading or extracting is recorded as the file's
      error; any other error reading it stops the loop, and nothing happens
      after that. */
  function Step(p: Progress, archivo: Entry, read: Reading, extract: Extracting): Progress {
    if p.stopped.Some? then p
    else
      match read(archivo)
      case Err(cause) =>
        if IsRuntimeError(cause) then p.(errores := p.errores + [ErrorEntry(archivo.name, ReadFailed(cause))])
        else p.(stopped := Some(cause))
      case Ok(texto) =>
        match extract(archivo.name, texto)
        case Ok(datos) =>
          p.(resultados := p.resultados + [Resultado(archivo.name, datos)],
             written := p.written + [Individual(OutputName(archivo.name), datos)])
        case Err(fatal) =>
          p.(errores := p.errores + [ErrorEntry(archivo.name, ExtractFailed(fatal))])
  }

  /** The loop over `archivos`, file after file. */
  function Processed(archivos: seq<Entry>, read: Reading, extract: Extracting): Progress {
    if archivos == [] then Progress([], [], [], None)
    else Step(Processed(archivos[..|archivos| - 1], read, extract), archivos[|archivos| - 1], read, extract)
  }

  /** `procesar_archivos()` as a value: how the run ends, and the files it
      writes, in order. `api(name)` answers the requests made for the file
      `name`. */
  function Procesar(listing: seq<Entry>, api: string -> (string, nat) -> Response, loads: string -> Result<Json, LoadError>)
    : (Run, seq<Written>)
  {
    var archivos := Candidates(listing);
    if archivos == [] then (Returned([]), [])
    else
      var p := Processed(archivos, ReadEntry, ExtractWith(api, loads));
      match p.stopped
      case Some(cause) => (Aborted(cause), p.written)
      case None =>
        (Returned(p.resultados),
         p.written + [Summary(Resumen(|p.resultados|, |p.errores|, p.resultados, p.errores))])
  }

  /** Lines 270-346. */
  method ProcesarArchivos(listing: seq<Entry>, api: string -> (string, nat) -> Response, loads: string -> Result<Json, LoadError>)
    returns (run: Run, written: seq<Written>)
    ensures (run, written) == Procesar(listing, api, loads)
  {
    var archivos := Candidates(listing);
    if archivos == [] {
      return Returned([]), [];
    }
    var resultados: seq<Resultado> := [];
    var errores: seq<ErrorEntry> := [];
    written := [];
    for i := 0 to |archivos|
      invariant Processed(archivos[..i], ReadEntry, ExtractWith(api, loads)) == Progress(resultados, errores, written, None)
    {
      var archivo := archivos[i];
      ProcessedNext(archivos, i, ReadEntry, ExtractWith(api, loads));
      var texto := LeerArchivo(archivo.name, archivo.doc);
      assert texto == ReadEntry(archivo);
      if texto.Err? && !IsRuntimeError(texto.error) {
        StaysStopped(archivos, i + 1, ReadEntry, ExtractWith(api, loads));
        return Aborted(texto.error), written;
      }
      if texto.Err? {
        errores := errores + [ErrorEntry(archivo.name, ReadFailed(texto.error))];
      } else {
        var datos;
        ghost var calls;
        datos, calls := ExtraerDatos(texto.value, api(archivo.name), loads);
        assert datos == ExtractWith(api, loads)(archivo.name, texto.value);
        match datos
        case Ok(record) =>
          resultados := resultados + [Resultado(archivo.name, record)];
          written := written + [Individual(OutputName(archivo.name), record)];
        case Err(fatal) =>
          errores := errores + [ErrorEntry(archivo.name, ExtractFailed(fatal))];
      }
    }
    assert archivos[..|archivos|] == archivos;
    var resumen := Resumen(|resultados|, |errores|, resultados, errores);
    written := written + [Summary(resumen)];
    return Returned(resultados), written;
  }

  /** The loop over one more file takes one more step. */
  lemma ProcessedNext(archivos: seq<Entry>, i: nat, read: Reading, extract: Extracting)
    requires i < |archivos|
    ensures Processed(archivos[..i + 1], read, extract) == Step(Processed(archivos[..i], read, extract), archivos[i], read, extract)
  {
    assert archivos[..i + 1][..i] == archivos[..i];
  }

  /** Once a read error has stopped the loop, the remaining files change
      nothing. */
  lemma {:induction false} StaysStopped(archivos: seq<Entry>, i: nat, read: Reading, extract: Extracting)
    requires i <= |archivos|
    requires Processed(archivos[..i], read, extract).stopped.Some?
    ensures Processed(archivos, read, extract) == Processed(archivos[..i], read, extract)
    decreases |archivos| - i
  {
    if i < |archivos| {
      assert archivos[..i + 1][..i] == archivos[..i];
      StaysStopped(archivos, i + 1, read, extract);
    } else {
      assert archivos[..i] == archivos;
    }
  }

  // ---------------------------------------------------------------------------
  // Candidates: which files, in which order

  /** The admitted entries are exactly the listed entries that are supported
      regular files. */
  lemma {:induction false} AdmitMembers(listing: seq<Entry>)
    ensures forall e :: e in Admit(listing) <==> e in listing && Admitted(e)
    ensures multiset(Admit(listing)) <= multiset(listing)
    ensures (forall e <- listing :: !Admitted(e)) ==> Admit(listing) == []
  {
    if listing != [] {
      AdmitMembers(listing[1..]);
      assert listing == [listing[0]] + listing[1..];
    }
  }

  /** Inserting adds exactly the one entry. */
  lemma {:induction false} InsertPerm(e: Entry, s: seq<Entry>)
    ensures multiset(Insert(e, s)) == multiset(s) + multiset{e}
  {
    if s != [] && !Below(e.name, s[0].name) {
      InsertPerm(e, s[1..]);
      assert s == [s[0]] + s[1..];
    }
  }

  /** An entry whose name does not exceed any name of a sorted sequence can
      go in front of it. */
  lemma ConsSorted(x: Entry, t: seq<Entry>)
    requires SortedByName(t)
    requires forall y <- t :: Below(x.name, y.name)
    ensures SortedByName([x] + t)
  {
    var r := [x] + t;
    forall i, j | 0 <= i < j < |r|
      ensures Below(r[i].name, r[j].name)
    {
      if i == 0 {
        assert r[j] in t;
      } else {
        assert r[i] == t[i - 1] && r[j] == t[j - 1];
      }
    }
  }

  /** Every entry of a sorted sequence has a name at least the first one's. */
  lemma FirstIsLeast(x: Entry, s: seq<Entry>)
    requires SortedByName(s) && s != [] && Below(x.name, s[0].name)
    ensures forall y <- s :: Below(x.name, y.name)
  {
    forall y <- s
      ensures Below(x.name, y.name)
    {
      var k :| 0 <= k < |s| && s[k] == y;
      if k > 0 {
        BelowTransitive(x.name, s[0].name, y.name);
      }
    }
  }

  /** Inserting into a sorted sequence keeps it sorted. */
  lemma {:induction false} InsertSorted(e: Entry, s: seq<Entry>)
    requires SortedByName(s)
    ensures SortedByName(Insert(e, s))
  {
    if s == [] {
    } else if Below(e.name, s[0].name) {
      FirstIsLeast(e, s);
      ConsSorted(e, s);
    } else {
      var rest := s[1..];
      assert SortedByName(rest) by {
        assert forall k :: 0 <= k < |rest| ==> rest[k] == s[k + 1];
      }
      InsertSorted(e, rest);
      InsertPerm(e, rest);
      BelowTotal(e.name, s[0].name);
      var t := Insert(e, rest);
      forall x | x in t
        ensures Below(s[0].name, x.name)
      {
        assert x in multiset(t);
        if x != e {
          assert x in multiset(rest);
          var k :| 0 <= k < |rest| && rest[k] == x;
          assert s[k + 1] == x;
        }
      }
      ConsSorted(s[0], t);
    }
  }

  /** Sorting gives a sorted rearrangement of its input. */
  lemma {:induction false} SortByNameSpec(s: seq<Entry>)
    ensures SortedByName(SortByName(s))
    ensures multiset(SortByName(s)) == multiset(s)
  {
    if s != [] {
      SortByNameSpec(s[1..]);
      InsertSorted(s[0], SortByName(s[1..]));
      InsertPerm(s[0], SortByName(s[1..]));
      assert s == [s[0]] + s[1..];
    }
  }

  /** Lines 282-285: the candidates are the supported regular files of the
      listing, each as often as listed, in name order. */
  lemma CandidatesSpec(listing: seq<Entry>)
    ensures SortedByName(Candidates(listing))
    ensures multiset(Candidates(listing)) == multiset(Admit(listing))
    ensures forall e :: e in Candidates(listing) <==> e in listing && Admitted(e)
  {
    AdmitMembers(listing);
    SortByNameSpec(Admit(listing));
    forall e
      ensures e in Candidates(listing) <==> e in Admit(listing)
    {
      assert e in Candidates(listing) <==> e in multiset(Candidates(listing));
      assert e in Admit(listing) <==> e in multiset(Admit(listing));
    }
  }

  /** Lines 35, 91-102 and 282-285: the batch filter and the reader dispatch
      agree, so no candidate is refused as unsupported. */
  lemma CandidatesDispatched(listing: seq<Entry>)
    ensures forall e <- Candidates(listing) ::
              !(ReadFile(e.name, e.doc).Err? && ReadFile(e.name, e.doc).error.Unsupported?)
  {
    CandidatesSpec(listing);
    forall e <- Candidates(listing)
      ensures !(ReadFile(e.name, e.doc).Err? && ReadFile(e.name, e.doc).error.Unsupported?)
    {
      DispatchIff(e.name, e.doc);
    }
  }

  /** Lines 286-291: with no supported file the run returns an empty list and
      writes nothing, not even a summary. */
  lemma NoSupportedFiles(listing: seq<Entry>, api: string -> (string, nat) -> Response, loads: string -> Result<Json, LoadError>)
    requires forall e <- listing :: !Admitted(e)
    ensures Procesar(listing, api, loads) == (Returned([]), [])
  {
    AdmitMembers(listing);
  }

  // ---------------------------------------------------------------------------
  // What the loop collects

  /** The loop stops exactly when reading some file raises an error other
      than a `RuntimeError`, and then with the error of the first such
      file. */
  lemma {:induction false} ProcessedStops(archivos: seq<Entry>, read: Reading, extract: Extracting)
    ensures var p := Processed(archivos, read, extract);
      (p.stopped.None? <==> forall e <- archivos :: !StopsRun(read(e)))
      && (p.stopped.Some? ==>
            !IsRuntimeError(p.stopped.value)
            && (exists k :: 0 <= k < |archivos|
                  && read(archivos[k]) == Err(p.stopped.value)
                  && forall j :: 0 <= j < k ==> !StopsRun(read(archivos[j]))))
  {
    if archivos != [] {
      var init := archivos[..|archivos| - 1];
      var last := archivos[|archivos| - 1];
      ProcessedStops(init, read, extract);
      assert forall e <- archivos :: e in init || e == last;
      assert forall k :: 0 <= k < |init| ==> init[k] == archivos[k];
      var q := Processed(init, read, extract);
      if q.stopped.None? && StopsRun(read(last)) {
        assert forall j :: 0 <= j < |init| ==> !StopsRun(read(archivos[j])) by {
          assert forall j :: 0 <= j < |init| ==> archivos[j] in init;
        }
      }
    }
  }

  /** Every error recorded for a failed read is a `RuntimeError` that
      reading that very file raised. */
  lemma {:induction false} ProcessedReadErrors(archivos: seq<Entry>, read: Reading, extract: Extracting)
    ensures forall x <- Processed(archivos, read, extract).errores :: x.error.ReadFailed? ==>
              IsRuntimeError(x.error.cause) && exists e <- archivos :: e.name == x.archivo && read(e) == Err(x.error.cause)
  {
    if archivos != [] {
      var init := archivos[..|archivos| - 1];
      var last := archivos[|archivos| - 1];
      ProcessedReadErrors(init, read, extract);
      assert forall e <- init :: e in archivos;
      assert last in archivos;
    }
  }

  /** Lines 309-318: one record file per accepted result, in the same order,
      named after the input file's stem and holding the record as
      accepted. */
  lemma {:induction false} ProcessedWrites(archivos: seq<Entry>, read: Reading, extract: Extracting)
    ensures var p := Processed(archivos, read, extract);
      |p.written| == |p.resultados|
      && forall i :: 0 <= i < |p.written| ==>
           p.written[i] == Individual(OutputName(p.resultados[i].archivo), p.resultados[i].datos)
  {
    if archivos != [] {
      ProcessedWrites(archivos[..|archivos| - 1], read, extract);
    }
  }

  /** Every accepted result holds what the extraction accepted; with the
      extraction of line 304 that is a record that passed validation. */
  lemma {:induction false} ProcessedRecords(archivos: seq<Entry>, read: Reading, extract: Extracting)
    requires forall name, texto :: extract(name, texto).Ok? ==> IsRecord(extract(name, texto).value)
    ensures forall r <- Processed(archivos, read, extract).resultados :: IsRecord(r.datos)
  {
    if archivos != [] {
      ProcessedRecords(archivos[..|archivos| - 1], read, extract);
    }
  }

  /** The extraction accepts only records that passed validation. */
  lemma ExtractWithRecords(api: string -> (string, nat) -> Response, loads: string -> Result<Json, LoadError>)
    ensures forall name, texto :: ExtractWith(api, loads)(name, texto).Ok? ==>
              IsRecord(ExtractWith(api, loads)(name, texto).value)
  {
    forall name, texto | ExtractWith(api, loads)(name, texto).Ok?
      ensures IsRecord(ExtractWith(api, loads)(name, texto).value)
    {
      RetryAcceptedIsRecord(texto, api(name), loads);
    }
  }

  /** Lines 321-323: when no read stops the run, every file adds exactly one
      entry, to the results or to the errors. */
  lemma {:induction false} ProcessedCount(archivos: seq<Entry>, read: Reading, extract: Extracting)
    ensures var p := Processed(archivos, read, extract);
      p.stopped.None? ==> |p.resultados| + |p.errores| == |archivos|
  {
    if archivos != [] {
      ProcessedCount(archivos[..|archivos| - 1], read, extract);
    }
  }

  /** One file adds at most one result and at most one error, both named
      after it, and keeps what came before. */
  lemma StepShape(p: Progress, archivo: Entry, read: Reading, extract: Extracting)
    ensures var q := Step(p, archivo, read, extract);
      |p.resultados| <= |q.resultados| <= |p.resultados| + 1
      && q.resultados[..|p.resultados|] == p.resultados
      && (|q.resultados| > |p.resultados| ==> q.resultados[|p.resultados|].archivo == archivo.name)
      && |p.errores| <= |q.errores| <= |p.errores| + 1
      && q.errores[..|p.errores|] == p.errores
      && (|q.errores| > |p.errores| ==> q.errores[|p.errores|].archivo == archivo.name)
  {
  }

  /** Results name only files the loop went through, in the order it went
      through them. */
  lemma {:induction false} ResultsOrder(archivos: seq<Entry>, read: Reading, extract: Extracting)
    requires SortedByName(archivos)
    ensures var rs := Processed(archivos, read, extract).resultados;
      (forall r <- rs :: exists e <- archivos :: e.name == r.archivo)
      && forall i, j :: 0 <= i < j < |rs| ==> Below(rs[i].archivo, rs[j].archivo)
  {
    if archivos != [] {
      var init := archivos[..|archivos| - 1];
      var last := archivos[|archivos| - 1];
      InitSorted(archivos);
      ResultsOrder(init, read, extract);
      var before := Processed(init, read, extract).resultados;
      StepShape(Processed(init, read, extract), last, read, extract);
      var rs := Processed(archivos, read, extract).resultados;
      forall r <- before
        ensures Below(r.archivo, last.name)
      {
        var e :| e in init && e.name == r.archivo;
        var k :| 0 <= k < |init| && init[k] == e;
        assert archivos[k] == e;
      }
      forall r <- rs
        ensures exists e <- archivos :: e.name == r.archivo
      {
        var k :| 0 <= k < |rs| && rs[k] == r;
        if k < |before| {
          assert before[k] == r;
          var e :| e in init && e.name == r.archivo;
          assert e in archivos;
        } else {
          assert last in archivos;
        }
      }
      forall i, j | 0 <= i < j < |rs|
        ensures Below(rs[i].archivo, rs[j].archivo)
      {
        assert rs[i] == before[i];
        if j < |before| {
          assert rs[j] == before[j];
        } else {
          assert before[i] in before;
        }
      }
    }
  }

  /** Errors name only files the loop went through, in the order it went
      through them. */
  lemma {:induction false} ErrorsOrder(archivos: seq<Entry>, read: Reading, extract: Extracting)
    requires SortedByName(archivos)
    ensures var xs := Processed(archivos, read, extract).errores;
      (forall x <- xs :: exists e <- archivos :: e.name == x.archivo)
      && forall i, j :: 0 <= i < j < |xs| ==> Below(xs[i].archivo, xs[j].archivo)
  {
    if archivos != [] {
      var init := archivos[..|archivos| - 1];
      var last := archivos[|archivos| - 1];
      InitSorted(archivos);
      ErrorsOrder(init, read, extract);
      var before := Processed(init, read, extract).errores;
      StepShape(Processed(init, read, extract), last, read, extract);
      var xs := Processed(archivos, read, extract).errores;
      forall x <- before
        ensures Below(x.archivo, last.name)
      {
        var e :| e in init && e.name == x.archivo;
        var k :| 0 <= k < |init| && init[k] == e;
        assert archivos[k] == e;
      }
      forall x <- xs
        ensures exists e <- archivos :: e.name == x.archivo
      {
        var k :| 0 <= k < |xs| && xs[k] == x;
        if k < |before| {
          assert before[k] == x;
          var e :| e in init && e.name == x.archivo;
          assert e in archivos;
        } else {
          assert last in archivos;
        }
      }
      forall i, j | 0 <= i < j < |xs|
        ensures Below(xs[i].archivo, xs[j].archivo)
      {
        assert xs[i] == before[i];
        if j < |before| {
          assert xs[j] == before[j];
        } else {
          assert before[i] in before;
        }
      }
    }
  }

  /** Dropping the last entry keeps a sequence sorted, and the last entry's
      name is at least every other's. */
  lemma InitSorted(s: seq<Entry>)
    requires SortedByName(s) && s != []
    ensures SortedByName(s[..|s| - 1])
    ensures forall k :: 0 <= k < |s| - 1 ==> s[..|s| - 1][k] == s[k] && Below(s[k].name, s[|s| - 1].name)
  {
  }

  // ---------------------------------------------------------------------------
  // Properties of the run

  /** The run is cut short exactly when reading some candidate raises an
      error that is not a `RuntimeError` (an unsupported, undecodable or
      empty file, or a library exception of another class); the cause is the
      first such file's error. A library `RuntimeError` is recorded and the
      run goes on. */
  lemma AbortsIff(listing: seq<Entry>, api: string -> (string, nat) -> Response, loads: string -> Result<Json, LoadError>)
    ensures Procesar(listing, api, loads).0.Aborted? <==>
              exists e <- Candidates(listing) :: StopsRun(ReadFile(e.name, e.doc))
    ensures Procesar(listing, api, loads).0.Aborted? ==>
              !IsRuntimeError(Procesar(listing, api, loads).0.cause)
              && (exists k :: 0 <= k < |Candidates(listing)|
                    && ReadFile(Candidates(listing)[k].name, Candidates(listing)[k].doc)
                       == Err(Procesar(listing, api, loads).0.cause)
                    && forall j :: 0 <= j < k ==> !StopsRun(ReadFile(Candidates(listing)[j].name, Candidates(listing)[j].doc)))
  {
    ProcessedStops(Candidates(listing), ReadEntry, ExtractWith(api, loads));
  }

  /** Lines 297-331: a run that completes writes one record file per result,
      in order, then the summary, whose totals are the numbers of results and
      errors and add up to the number of candidates. */
  lemma CompletedRun(listing: seq<Entry>, api: string -> (string, nat) -> Response, loads: string -> Result<Json, LoadError>)
    requires Candidates(listing) != []
    requires Procesar(listing, api, loads).0.Returned?
    ensures var (run, written) := Procesar(listing, api, loads);
      |written| == |run.resultados| + 1
      && (forall i :: 0 <= i < |run.resultados| ==>
            written[i] == Individual(OutputName(run.resultados[i].archivo), run.resultados[i].datos))
      && written[|run.resultados|].Summary?
      && var resumen := written[|run.resultados|].resumen;
         resumen.resultados == run.resultados
         && resumen.totalProcesados == |resumen.resultados|
         && resumen.totalErrores == |resumen.errores|
         && resumen.totalProcesados + resumen.totalErrores == |Candidates(listing)|
  {
    ProcessedWrites(Candidates(listing), ReadEntry, ExtractWith(api, loads));
    ProcessedCount(Candidates(listing), ReadEntry, ExtractWith(api, loads));
  }

  /** Every record the run returns passed validation, and the records come in
      name order of their files. */
  lemma ReturnedRecords(listing: seq<Entry>, api: string -> (string, nat) -> Response, loads: string -> Result<Json, LoadError>)
    requires Procesar(listing, api, loads).0.Returned?
    ensures var rs := Procesar(listing, api, loads).0.resultados;
      (forall r <- rs :: IsRecord(r.datos))
      && (forall r <- rs :: exists e <- listing :: Admitted(e) && e.name == r.archivo)
      && forall i, j :: 0 <= i < j < |rs| ==> Below(rs[i].archivo, rs[j].archivo)
  {
    var archivos := Candidates(listing);
    if archivos != [] {
      var extract := ExtractWith(api, loads);
      var rs := Processed(archivos, ReadEntry, extract).resultados;
      assert Procesar(listing, api, loads).0.resultados == rs;
      CandidatesSpec(listing);
      ExtractWithRecords(api, loads);
      ProcessedRecords(archivos, ReadEntry, extract);
      ResultsOrder(archivos, ReadEntry, extract);
      forall r <- rs
        ensures exists e <- listing :: Admitted(e) && e.name == r.archivo
      {
        var e :| e in archivos && e.name == r.archivo;
        assert e in listing && Admitted(e);
      }
    }
  }
}
