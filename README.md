# PlanetaFiscal text processor — a Dafny model

PlanetaFiscal turns unstructured documents (mails, invoices, complaints) into
one JSON record each. A record has `nombre_cliente`, `monto`, `fecha` and
`tipo_solicitud`. The processor:

- reads every supported file of an input directory, in name order;
- extracts its text (plain text, PDF, Word, Excel);
- asks a language model for the record, up to `MAX_REINTENTOS` times;
- checks each reply with `validar_json`;
- writes one result file per accepted record and a closing summary.

This project models that pipeline as it is in `procesador.py` and proves
what each stage guarantees. The stages are:

- `Validator` (`validar_json`): the markdown fence is stripped, the reply is
  parsed, one list level is unwrapped, and the schema is checked in a fixed
  order. `Dates` models the `strptime("%Y-%m-%d")` check it uses.
- `Extraction` (`extraer_datos`): the bounded retry loop. Validation
  failures and every other exception share one budget of three attempts.
- `Readers` (`leer_archivo` and its readers): dispatch on the lower-cased
  suffix. Each reader assembles text from what the document libraries
  extract, and fails on a blank result.
- `Batch` (`procesar_archivos`): filters and sorts the directory, runs the
  per-file loop, collects results and errors, and writes the outputs. The
  loop's lemmas hold for any way of reading a file and extracting its data.
  The run uses `leer_archivo` and `extraer_datos` for these.

`Text` holds the Python `str` operations these use (`strip`, `split`, `join`,
`lower`, string order), and `Json` holds the values `json.loads` builds.
The constants of lines 30-35 are `Extraction.MaxReintentos`,
`Validator.CamposRequeridos`, `Validator.TiposValidos` and
`Readers.Extensiones`.

The outside world is passed in as parameters:

- `loads`: what `json.loads` makes of a text: a value, or the exception it
  raised, tagged by class (`Json.LoadError`): a `JSONDecodeError`, another
  `ValueError` (the integer digit limit), or any other class (a
  `RecursionError` on deep nesting).
- `api`: the service's answer to each request, a completion content (which
  may be `None`) or the client's exception, flagged when it is a
  `ValueError`. In the batch, `api(name)` answers
  the requests made for file `name`.
- `Readers.Document`: a file as the libraries see it. This is the text each
  encoding decodes to, the PDF pages' `extract_text()`, the Word paragraphs
  and table cells, and the workbook's sheets. Each library view can instead
  be the exception the library raised, flagged when it is a `RuntimeError`
  (zipfile's encrypted-member error, `NotImplementedError`).

Where the program differs from its stated intent, the model follows the
program:

- A boolean `monto` is accepted, since Python's `bool` is an `int`
  (`Validator.MontoDecides`).
- Keys outside the schema are kept in the accepted record and written out
  (`Validator.ExtraKeysKept`).
- A `tipo_solicitud` that is a list or an object raises `TypeError`, not
  `ValueError`. So does a `None` reply, at `.strip()` (an `AttributeError`).
  The retry loop therefore counts both as API errors (`Extraction.AttemptOutcome`).
- The class of an exception, not where it arises, picks the `except` clause
  of lines 251 and 259. A `ValueError` from the client counts as a failed
  validation. A `json.loads` failure that is not a `JSONDecodeError` escapes
  `validar_json` unwrapped: another `ValueError` is a failed validation
  without the "no es JSON válido" message, and a `RecursionError` counts as
  an API error (`Validator.ValidarDatos`, `Extraction.AttemptOutcome`).
- Only `RuntimeError` is caught per file. A library exception that is a
  `RuntimeError` is recorded as that file's error and the loop goes on
  (`Batch.ProcessedReadErrors`). An unsupported, undecodable or blank file,
  or any other library exception, ends the whole batch: no summary is
  written (`Batch.AbortsIff`).
- `strptime` accepts one-digit months and days and a day written as a space
  and a digit, as CPython's `%m` and `%d` patterns do (`Dates.Strptime`).

## Model

| member | source | states |
|---|---|---|
| Validator.StripFence | procesador.py:174-179 | the cleaned reply never starts with a code fence and is already stripped |
| Validator.StripFenceUnfenced | procesador.py:175-176 | a reply that does not open a fence is only stripped |
| Validator.StripFenceIdempotent | procesador.py:175-179 | cleaning a cleaned reply changes nothing |
| Validator.DropFenceLinesKeepsAll | procesador.py:178 | lines none of which opens a fence are all kept |
| Validator.DropFenceLinesClean | procesador.py:178 | no kept line opens or closes a fence |
| Validator.FilterConcat | procesador.py:178 | filtering two runs of lines filters each and concatenates the results |
| Validator.FencedKept | procesador.py:177-178 | of a fenced reply's lines, exactly the body's lines are kept when none of them opens a fence |
| Validator.FencedBody | procesador.py:176-179 | a fenced reply (opening fence with a tag, body, closing fence) is cleaned to its stripped body when no body line opens a fence |
| Validator.FencedReply | procesador.py:174-183 | such a fenced reply is judged exactly as its bare body |
| Validator.Unwrap | procesador.py:187-195 | the empty-list error occurs exactly for `[]`; the check passes exactly for an object or a non-empty list whose first element is an object, and yields that object |
| Validator.UnwrapOneLevel | procesador.py:188-195 | a list inside a list is not unwrapped again and is rejected as `list` |
| Validator.CheckFields | procesador.py:197-223 | accepts exactly the maps satisfying the schema and returns them unchanged; the missing-field error occurs exactly when keys are missing and names exactly the missing set; `TypeError` only for an unhashable request type; a request-type error only when every other field is valid |
| Validator.FirstFailingCheck | procesador.py:203-221 | with all keys present, each error occurs exactly when its field fails and every earlier field passes |
| Validator.ValidarDatos | procesador.py:181-223 | accepts exactly a parsed value whose unwrapped object satisfies the schema, yielding that object; a `JSONDecodeError` is reported as invalid JSON, another `ValueError` of `json.loads` as a rejection carrying its own message, and any other exception of `json.loads` propagates unchanged |
| Validator.ValidarJson | procesador.py:169-223 | the `AttributeError` occurs exactly for a `None` reply; every accepted record satisfies the schema |
| Validator.TipoDecides | procesador.py:217-221 | in an otherwise valid record, exactly `"Venta"`, `"Queja"` and `"Factura"` are accepted; other strings are rejected naming the value; lists and objects raise `TypeError` |
| Validator.MontoDecides | procesador.py:206-208 | in an otherwise valid record, `monto` passes exactly when it is null, a number or a boolean; a string is rejected as `str` |
| Validator.ExtraKeysKept | procesador.py:198-223 | adding a key outside the schema to a valid record keeps it valid and the key is kept |
| Validator.ListReply | procesador.py:187-191 | a list reply is judged by its first element only |
| Validator.ListParsed | procesador.py:187-191 | a parsed list whose first element is an object gets exactly that object's field checks |
| Dates.Strptime | procesador.py:212-215 | every accepted text denotes a real Gregorian date with year 1-9999 |
| Dates.FormatRoundTrip | procesador.py:212-215 | the zero-padded `YYYY-MM-DD` text of a date is read back as that date when the date exists, and rejected when it does not (31 April, 29 February of a common year, year 0) |
| Dates.AcceptedShape | procesador.py:213 | an accepted text has four digits, a hyphen, and a second hyphen at position 6 or 7, and is 8 to 10 long |
| Extraction.ExtraerDatos | procesador.py:226-267 | the loop's result and request count are those of `Retry`: the attempts in order, stopping at the first accepted one, raising after the third |
| Extraction.AttemptOutcome | procesador.py:234-262 | one attempt yields a record only from a non-`None` completion that validates, and that record satisfies the schema; a client `ValueError` is a rejection and every other client exception is raised, both ways; a `None` reply is raised, exactly; a validation rejection comes only from a present reply; a loader exception is raised exactly when `json.loads` of the cleaned reply raised a non-`ValueError` |
| Extraction.LoopFromOutcome | procesador.py:231-264 | from any attempt on, the loop succeeds exactly when a remaining attempt is accepted; it returns the first accepted record after exactly that many requests; otherwise it makes every request and reports the last error |
| Extraction.FirstAcceptedWins | procesador.py:231-249 | when attempt k is the first accepted, its record is returned after exactly k requests |
| Extraction.Exhaustion | procesador.py:251-264 | when all attempts fail, in any mix of rejections and exceptions, exactly three requests are made and the `RuntimeError` carries the third attempt's error |
| Extraction.RequestsBounded | procesador.py:231 | between one and `MAX_REINTENTOS` requests are made |
| Extraction.FailsIffAllFail | procesador.py:231-264 | extraction fails exactly when all three attempts fail |
| Extraction.RetryAcceptedIsRecord | procesador.py:247-249 | a record returned by the extraction satisfies the schema |
| Readers.SuffixShape | procesador.py:91 | the suffix is empty or a dot with at least one non-dot character after a non-empty stem, and stem and suffix make up the name |
| Readers.SuffixOf | procesador.py:91 | a name built from a non-empty stem and such a suffix has exactly that stem and suffix |
| Readers.LeerTxt | procesador.py:105-114 | the reader returns the text of the first encoding, in order utf-8, latin-1, cp1252, that decodes the file |
| Readers.TxtOutcome | procesador.py:107-114 | it fails exactly when no encoding decodes; otherwise the text comes from a decoding encoding with none before it decoding; it never fails when latin-1 decodes |
| Readers.LeerPdf | procesador.py:117-128 | the loop keeps the pages with text, in page order, and the result is as `PdfText` says |
| Readers.PdfFailsIffBlank | procesador.py:119-128 | the PDF reader fails exactly when every page has no text or only whitespace |
| Readers.AppendTable | procesador.py:137-141 | one table appends, per row with a non-blank cell, its stripped non-blank cells joined by a space-bar-space separator |
| Readers.LeerDocx | procesador.py:131-146 | the result is as `DocxText` says: non-blank paragraphs, then table lines, joined by newlines |
| Readers.DocxFailsIffBlank | procesador.py:133-146 | the Word reader fails exactly when every paragraph and every table cell is blank |
| Readers.AppendSheet | procesador.py:155-161 | one sheet appends its header line, then each row's line unless it is only spaces and bars |
| Readers.LeerExcel | procesador.py:149-166 | the result is as `ExcelText` says |
| Readers.RowKeptIff | procesador.py:158-161 | a row's line is kept exactly when some non-empty cell has a character other than a space or a bar |
| Readers.ExcelFailsIffNoSheets | procesador.py:154-166 | the Excel reader fails exactly when the workbook has no sheet, since every sheet adds a non-blank header |
| Readers.LeerArchivo | procesador.py:86-102 | the dispatch gives what `ReadFile` says for the file's lower-cased suffix |
| Readers.ReaderForIff | procesador.py:93-102 | a suffix has a reader exactly when it is one of `EXTENSIONES_SOPORTADAS` |
| Readers.DispatchIff | procesador.py:91-102 | a file is refused as unsupported exactly when its lower-cased suffix is not supported; the refusal names that suffix and the file |
| Readers.CaseInsensitive | procesador.py:91 | a suffix in any ASCII case goes to the same reader as its lower-case form |
| Batch.AdmitMembers | procesador.py:282-285 | the filter keeps exactly the listed regular files with a supported suffix, each no more often than listed |
| Batch.SortByNameSpec | procesador.py:282 | sorting yields names in code-point order and a rearrangement of its input |
| Batch.CandidatesSpec | procesador.py:282-285 | the candidates are the supported regular files, as often as listed, sorted by name |
| Batch.CandidatesDispatched | procesador.py:282-285 | no candidate is refused as unsupported: the batch filter and the reader dispatch use the same suffix test |
| Batch.NoSupportedFiles | procesador.py:286-291 | with no supported file the run returns an empty list and writes nothing |
| Batch.ProcesarArchivos | procesador.py:270-346 | the loop's outcome and written files are those of `Procesar`: per candidate in order, read, extract, record; a `RuntimeError` from a library is recorded; stop at the first other read error |
| Batch.StaysStopped | procesador.py:298-303 | after a read error the remaining files change nothing |
| Batch.ProcessedStops | procesador.py:298-323 | whatever the reading of each file gives, the loop stops exactly when some read fails with an error that is not a `RuntimeError`, with the error of the first such file |
| Batch.ProcessedReadErrors | procesador.py:300-323 | every read error in the error list is a `RuntimeError` that reading a file of that name raised |
| Batch.ProcessedWrites | procesador.py:309-318 | one record file per result, in the same order, named `<stem>_resultado.json` and holding the accepted record |
| Batch.ProcessedRecords | procesador.py:300-309 | when the extraction accepts only schema-valid records, every collected result satisfies the schema |
| Batch.ExtractWithRecords | procesador.py:304 | the extraction with retries accepts only records that satisfy the schema |
| Batch.ProcessedCount | procesador.py:298-323 | when no read stops the run, every file adds exactly one result or one error |
| Batch.ResultsOrder | procesador.py:298-309 | results name only processed files, in the order they were processed |
| Batch.ErrorsOrder | procesador.py:321-323 | errors name only processed files, in the order they were processed |
| Batch.AbortsIff | procesador.py:298-323 | the run aborts exactly when reading some candidate fails with an error that is not a `RuntimeError`, with the first such file's error |
| Batch.CompletedRun | procesador.py:326-346 | a completed run writes one record file per result, in order, then the summary, whose totals are the list lengths and add up to the number of candidates |
| Batch.ReturnedRecords | procesador.py:346 | the returned records passed validation, come from supported files of the listing, and are in name order |
| Text.StripIdempotent | procesador.py:179 | stripping twice strips nothing more |
| Text.StripEmptyIffBlank | procesador.py:126 | a string strips to empty exactly when all its characters are whitespace |
| Text.JoinSplit | procesador.py:177-179 | joining the newline-split pieces gives the text back |
| Text.SplitSeparatorFree | procesador.py:177 | no piece of a split holds the separator |
| Text.SplitAround | procesador.py:177 | splitting at a separator splits the text on each side of it independently |
| Text.SplitJoin | procesador.py:177-179 | splitting newline-joined newline-free lines gives the lines back |
| Text.JoinWithin | procesador.py:126 | a joined text is all whitespace only if every part is; with a whitespace separator, conversely |

## Left out

- The OpenAI client, its API key check and the request itself (lines 75-83 and 235-244). The service's answers are the `api` parameter. The model name, system prompt and temperature are not modelled.
- The real service answers each request independently. The model fixes each answer as a function of the file and the attempt number.
- `json.loads` is the `loads` parameter, and its parser is not modelled. `json.dumps`, the output encoding and the file system are also not modelled. Writes are a list of values, so a later write with the same output name (two inputs sharing a stem) is listed, not shown overwriting the earlier one.
- The document libraries (pdfplumber, python-docx, openpyxl) and `Path.read_text` are not modelled, nor are the codecs, newline translation and file-system errors. Their outputs are `Readers.Document`.
- openpyxl rejects `.xls` files when opening them. The model leaves that to the `workbook` view of the document.
- Readers.TxtOutcome: the decoded texts are given, not computed. So the fact that latin-1 decodes every byte sequence, which makes the cp1252 attempt and the "no se pudo decodificar" error unreachable, is stated only under the assumption that latin-1 decodes.
- Error messages are kept as structured reasons (`Reason`, `Cause`, `Fatal`, `ReadError`), not as the formatted Spanish texts. The undecodable-file error keeps the file name where the program prints the full path.
- The timestamps `procesado_en` and `fecha_procesamiento`, the logging, `load_dotenv`, the output directory creation and the `__main__` block (lines 24, 39-44, 279, 309, 329 and 351-362) are not modelled.
- `strptime`'s `\d` also matches non-ASCII decimal digits. The model accepts ASCII digits only.
- `str.lower` is modelled on ASCII letters only. Non-ASCII suffixes are never supported either way.
- Floats are kept as their literal text. NaN, infinities and magnitudes play no part in validation.
- `KeyboardInterrupt` and other `BaseException`s that escape `except Exception` are not modelled.
- Path ordering is modelled as code-point order of the names in one directory, as on POSIX systems. Windows' case-insensitive path comparison is not modelled.
- The unreachable final `raise` of `extraer_datos` (line 267) is an `assert false` after the loop.
