/// `leer_archivo` and its four readers: the dispatch on the lower-cased file
/// suffix, and the assembly of one text out of what the document libraries
/// extract (decoded text, PDF pages, Word paragraphs and tables, worksheet
/// rows).
module Readers {
  import opened Common
  import opened Text

  /** `EXTENSIONES_SOPORTADAS`. */
  const Extensiones: set<string> := {".txt", ".pdf", ".docx", ".xlsx", ".xls"}

  /** The encodings `_leer_txt` tries, in its order. */
  datatype Encoding = Utf8 | Latin1 | Cp1252

  const Encodings: seq<Encoding> := [Utf8, Latin1, Cp1252]

  /** What a document library makes of a file: its view of the contents, or
      the message of the exception it raised while opening or reading it and
      whether that exception is a `RuntimeError` (as the `zipfile` errors
      for an encrypted member or, as `NotImplementedError`, for an
      unsupported compression method are). */
  datatype Opened<+T> = Opened(view: T) | Unreadable(message: string, runtimeError: bool)

  /** A worksheet as `iter_rows(values_only=True)` yields it: each cell is
      `str(v)` for a value `v`, or `None` for an empty cell. */
  datatype Sheet = Sheet(title: string, rows: seq<seq<Option<string>>>)

  /** A Word document: the text of each paragraph, and of each cell of each
      row of each table. */
  datatype Word = Word(paragraphs: seq<string>, tables: seq<seq<seq<string>>>)

  /** One file as the libraries see it: the text `read_text` returns for each
      encoding that decodes it (absent where it raises `UnicodeDecodeError`),
      the `extract_text()` of each PDF page, the Word document and the
      workbook's sheets in `sheetnames` order. */
  datatype Document = Document(
    decoded: map<Encoding, string>,
    pages: Opened<seq<Option<string>>>,
    word: Opened<Word>,
    workbook: Opened<seq<Sheet>>)

  /** Why a file yields no text: the `ValueError`s of lines 102, 114, 127,
      145 and 165, or an exception of a document library, which may be a
      `RuntimeError`. */
  datatype ReadError =
    | Unsupported(ext: string, name: string)
    | Undecodable(name: string)
    | NoPdfText(name: string)
    | EmptyWord(name: string)
    | EmptyWorkbook(name: string)
    | LibraryError(message: string, runtimeError: bool)

  // ---------------------------------------------------------------------------
  // File names

  /** `name.rfind('.')`, as an option. */
  function LastDot(name: string): (r: Option<nat>)
    ensures r.Some? ==> r.value < |name| && name[r.value] == '.'
    ensures r.Some? ==> forall j :: r.value < j < |name| ==> name[j] != '.'
    ensures r.None? ==> forall j :: 0 <= j < |name| ==> name[j] != '.'
  {
    if name == [] then None
    else if name[|name| - 1] == '.' then Some(|name| - 1)
    else LastDot(name[..|name| - 1])
  }

  /** The position of the dot that starts the suffix, when there is one:
      the last dot, neither first nor last in the name. */
  function SuffixDot(name: string): Option<nat> {
    match LastDot(name)
    case Some(i) => if 0 < i < |name| - 1 then Some(i) else None
    case None => None
  }

  /** `PurePath(name).suffix`. */
  function Suffix(name: string): string {
    match SuffixDot(name)
    case Some(i) => name[i..]
    case None => ""
  }

  /** `PurePath(name).stem`. */
  function Stem(name: string): string {
    match SuffixDot(name)
    case Some(i) => name[..i]
    case None => name
  }

  /** The suffix is empty, or a dot followed by at least one character none of
      which is a dot, after a non-empty stem; stem and suffix make up the
      name. */
  lemma SuffixShape(name: string)
    ensures Stem(name) + Suffix(name) == name
    ensures Suffix(name) == "" || (
              2 <= |Suffix(name)| && Stem(name) != ""
              && Suffix(name)[0] == '.'
              && forall j :: 1 <= j < |Suffix(name)| ==> Suffix(name)[j] != '.')
  {
  }

  /** A name built from a non-empty stem and a suffix of the shape above has
      exactly that stem and suffix. */
  lemma {:induction false} SuffixOf(stem: string, ext: string)
    requires stem != [] && 2 <= |ext| && ext[0] == '.'
    requires forall j :: 1 <= j < |ext| ==> ext[j] != '.'
    ensures Suffix(stem + ext) == ext && Stem(stem + ext) == stem
  {
    var name := stem + ext;
    var i := |stem|;
    assert name[i] == '.';
    LastDotAt(name, i);
    assert name[i..] == ext && name[..i] == stem;
  }

  /** The last dot is found when no later character is a dot. */
  lemma {:induction false} LastDotAt(name: string, i: nat)
    requires i < |name| && name[i] == '.'
    requires forall j :: i < j < |name| ==> name[j] != '.'
    ensures LastDot(name) == Some(i)
    decreases |name|
  {
    if i < |name| - 1 {
      LastDotAt(name[..|name| - 1], i);
    }
  }

  // ---------------------------------------------------------------------------
  // _leer_txt

  /** The text of the first encoding in `encs` that decodes the file. */
  function FirstDecoded(decoded: map<Encoding, string>, encs: seq<Encoding>): Option<string> {
    if encs == [] then None
    else if encs[0] in decoded then Some(decoded[encs[0]])
    else FirstDecoded(decoded, encs[1..])
  }

  /** `_leer_txt(ruta)` as a value. */
  function TxtText(name: string, decoded: map<Encoding, string>): Result<string, ReadError> {
    match FirstDecoded(decoded, Encodings)
    case Some(texto) => Ok(texto)
    case None => Err(Undecodable(name))
  }

  /** Lines 107-114: the encodings are tried in order and the first that
      decodes gives the text. */
  method LeerTxt(name: string, decoded: map<Encoding, string>) returns (r: Result<string, ReadError>)
    ensures r == TxtText(name, decoded)
  {
    for k := 0 to |Encodings|
      invariant FirstDecoded(decoded, Encodings[k..]) == FirstDecoded(decoded, Encodings)
    {
      var enc := Encodings[k];
      if enc in decoded {
        return Ok(decoded[enc]);
      }
      assert Encodings[k..][1..] == Encodings[k + 1..];
    }
    return Err(Undecodable(name));
  }

  /** The text file reader fails exactly when no encoding decodes the file;
      otherwise it returns the text of an encoding that decodes it, and no
      earlier encoding does. Since latin-1 decodes every file, it never
      fails then. */
  lemma TxtOutcome(name: string, decoded: map<Encoding, string>)
    ensures TxtText(name, decoded).Err? <==> forall k :: 0 <= k < |Encodings| ==> Encodings[k] !in decoded
    ensures TxtText(name, decoded).Ok? ==>
              exists k :: 0 <= k < |Encodings| && Encodings[k] in decoded
                && TxtText(name, decoded).value == decoded[Encodings[k]]
                && forall j :: 0 <= j < k ==> Encodings[j] !in decoded
    ensures Latin1 in decoded ==> TxtText(name, decoded).Ok?
  {
    var rest := Encodings[1..];
    var last := rest[1..];
    assert rest == [Latin1, Cp1252] && last == [Cp1252] && last[1..] == [];
    assert FirstDecoded(decoded, Encodings) == if Utf8 in decoded then Some(decoded[Utf8]) else FirstDecoded(decoded, rest);
    assert FirstDecoded(decoded, rest) == if Latin1 in decoded then Some(decoded[Latin1]) else FirstDecoded(decoded, last);
    assert FirstDecoded(decoded, last) == if Cp1252 in decoded then Some(decoded[Cp1252]) else FirstDecoded(decoded, last[1..]);
    if Utf8 in decoded {
      assert Encodings[0] == Utf8;
    } else if Latin1 in decoded {
      assert Encodings[1] == Latin1 && Encodings[0] !in decoded;
      assert TxtText(name, decoded) == Ok(decoded[Encodings[1]]);
    } else if Cp1252 in decoded {
      assert Encodings[2] == Cp1252 && Encodings[1] !in decoded && Encodings[0] !in decoded;
      assert TxtText(name, decoded) == Ok(decoded[Encodings[2]]);
    }
  }

  // ---------------------------------------------------------------------------
  // _leer_pdf

  /** The texts of the pages whose `extract_text()` is truthy, in page
      order. */
  function PdfKept(pages: seq<Option<string>>): seq<string> {
    if pages == [] then []
    else
      var last := pages[|pages| - 1];
      PdfKept(pages[..|pages| - 1]) + (if last.Some? && last.value != "" then [last.value] else [])
  }

  /** `_leer_pdf(ruta)` as a value, over the pages' extracted texts. */
  function PdfText(name: string, pages: seq<Option<string>>): Result<string, ReadError> {
    var contenido := Join("\n", PdfKept(pages));
    if Strip(contenido) == "" then Err(NoPdfText(name)) else Ok(contenido)
  }

  /** Lines 119-128. */
  method LeerPdf(name: string, pages: seq<Option<string>>) returns (r: Result<string, ReadError>)
    ensures r == PdfText(name, pages)
  {
    var textoPaginas: seq<string> := [];
    for i := 0 to |pages|
      invariant textoPaginas == PdfKept(pages[..i])
    {
      assert pages[..i + 1][..i] == pages[..i];
      var texto := pages[i];
      if texto.Some? && texto.value != "" {
        textoPaginas := textoPaginas + [texto.value];
      }
    }
    assert pages[..|pages|] == pages;
    var contenido := Join("\n", textoPaginas);
    if Strip(contenido) == "" {
      return Err(NoPdfText(name));
    }
    return Ok(contenido);
  }

  /** The kept texts are exactly the pages' non-empty texts. */
  lemma {:induction false} PdfKeptMembers(pages: seq<Option<string>>)
    ensures forall t <- PdfKept(pages) :: t != "" && Some(t) in pages
    ensures forall i :: 0 <= i < |pages| && pages[i].Some? && pages[i].value != "" ==> pages[i].value in PdfKept(pages)
  {
    if pages != [] {
      var init := pages[..|pages| - 1];
      PdfKeptMembers(init);
      assert forall i :: 0 <= i < |init| ==> pages[i] == init[i];
      assert forall p <- init :: p in pages;
    }
  }

  /** `"\n"` is whitespace. */
  lemma NewlineBlank()
    ensures IsBlank("\n")
  {
    assert "\n"[0] == '\n';
  }

  /** The PDF reader fails exactly when every page has no text or only
      whitespace. */
  lemma PdfFailsIffBlank(name: string, pages: seq<Option<string>>)
    ensures PdfText(name, pages).Err? <==> forall i :: 0 <= i < |pages| ==> pages[i].None? || IsBlank(pages[i].value)
  {
    var kept := PdfKept(pages);
    PdfKeptMembers(pages);
    NewlineBlank();
    JoinWithin("\n", kept, Whitespace);
    StripEmptyIffBlank(Join("\n", kept));
    if forall i :: 0 <= i < |pages| ==> pages[i].None? || IsBlank(pages[i].value) {
      forall t | t in kept
        ensures IsBlank(t)
      {
        var i :| 0 <= i < |pages| && pages[i] == Some(t);
      }
    }
  }

  // ---------------------------------------------------------------------------
  // _leer_docx

  /** `[p.text for p in doc.paragraphs if p.text.strip()]`. */
  function NonBlank(paragraphs: seq<string>): seq<string> {
    if paragraphs == [] then []
    else
      var last := paragraphs[|paragraphs| - 1];
      NonBlank(paragraphs[..|paragraphs| - 1]) + (if Strip(last) != "" then [last] else [])
  }

  /** `[c.text.strip() for c in fila.cells if c.text.strip()]`. */
  function RowCells(row: seq<string>): seq<string> {
    if row == [] then []
    else
      var last := row[|row| - 1];
      RowCells(row[..|row| - 1]) + (if Strip(last) != "" then [Strip(last)] else [])
  }

  /** The lines the rows of one table add: one per row with a non-blank
      cell, its cells joined by `" | "`. */
  function RowsLines(rows: seq<seq<string>>): seq<string> {
    if rows == [] then []
    else
      var celdas := RowCells(rows[|rows| - 1]);
      RowsLines(rows[..|rows| - 1]) + (if celdas != [] then [Join(" | ", celdas)] else [])
  }

  /** The lines all the tables add, table after table. */
  function TablesLines(tables: seq<seq<seq<string>>>): seq<string> {
    if tables == [] then []
    else TablesLines(tables[..|tables| - 1]) + RowsLines(tables[|tables| - 1])
  }

  /** `_leer_docx(ruta)` as a value, over the document's paragraphs and
      tables. */
  function DocxText(name: string, word: Word): Result<string, ReadError> {
    var contenido := Join("\n", NonBlank(word.paragraphs) + TablesLines(word.tables));
    if Strip(contenido) == "" then Err(EmptyWord(name)) else Ok(contenido)
  }

  /** Lines 137-141, one table: each row with a non-blank cell appends its
      stripped non-blank cells joined by `" | "`. */
  method AppendTable(parrafos: seq<string>, tabla: seq<seq<string>>) returns (out: seq<string>)
    ensures out == parrafos + RowsLines(tabla)
  {
    out := parrafos;
    for f := 0 to |tabla|
      invariant out == parrafos + RowsLines(tabla[..f])
    {
      RowsLinesStep(tabla, f);
      var celdas := RowCells(tabla[f]);
      if celdas != [] {
        AppendAssoc(parrafos, RowsLines(tabla[..f]), [Join(" | ", celdas)]);
        out := out + [Join(" | ", celdas)];
      }
    }
    assert tabla[..|tabla|] == tabla;
  }

  /** Lines 133-146. */
  method LeerDocx(name: string, word: Word) returns (r: Result<string, ReadError>)
    ensures r == DocxText(name, word)
  {
    var parrafos := NonBlank(word.paragraphs);
    for t := 0 to |word.tables|
      invariant parrafos == NonBlank(word.paragraphs) + TablesLines(word.tables[..t])
    {
      TablesLinesStep(word.tables, t);
      AppendAssoc(NonBlank(word.paragraphs), TablesLines(word.tables[..t]), RowsLines(word.tables[t]));
      parrafos := AppendTable(parrafos, word.tables[t]);
    }
    assert word.tables[..|word.tables|] == word.tables;
    var contenido := Join("\n", parrafos);
    if Strip(contenido) == "" {
      return Err(EmptyWord(name));
    }
    return Ok(contenido);
  }

  /** Concatenation is associative. */
  lemma AppendAssoc<T>(a: seq<T>, b: seq<T>, c: seq<T>)
    ensures a + b + c == a + (b + c)
  {
  }

  /** One more row adds that row's line, if any. */
  lemma RowsLinesStep(rows: seq<seq<string>>, f: nat)
    requires f < |rows|
    ensures RowsLines(rows[..f + 1]) == RowsLines(rows[..f])
              + (if RowCells(rows[f]) != [] then [Join(" | ", RowCells(rows[f]))] else [])
  {
    assert rows[..f + 1][..f] == rows[..f];
  }

  /** One more table adds that table's lines. */
  lemma TablesLinesStep(tables: seq<seq<seq<string>>>, t: nat)
    requires t < |tables|
    ensures TablesLines(tables[..t + 1]) == TablesLines(tables[..t]) + RowsLines(tables[t])
  {
    assert tables[..t + 1][..t] == tables[..t];
  }

  /** A string that is not all whitespace strips to a non-blank string. */
  lemma StripNotBlank(s: string)
    requires Strip(s) != ""
    ensures !IsBlank(Strip(s))
  {
    assert Strip(s)[0] !in Whitespace;
  }

  /** The kept paragraphs are exactly the non-blank ones. */
  lemma {:induction false} NonBlankMembers(paragraphs: seq<string>)
    ensures forall p <- NonBlank(paragraphs) :: !IsBlank(p) && p in paragraphs
    ensures forall p <- paragraphs :: !IsBlank(p) ==> p in NonBlank(paragraphs)
  {
    if paragraphs != [] {
      var init := paragraphs[..|paragraphs| - 1];
      NonBlankMembers(init);
      StripEmptyIffBlank(paragraphs[|paragraphs| - 1]);
      assert forall p <- paragraphs :: p in init || p == paragraphs[|paragraphs| - 1];
    }
  }

  /** A row yields no cells exactly when every cell is blank; every cell it
      yields is non-blank. */
  lemma {:induction false} RowCellsMembers(row: seq<string>)
    ensures RowCells(row) == [] <==> forall c <- row :: IsBlank(c)
    ensures forall c <- RowCells(row) :: !IsBlank(c)
  {
    if row != [] {
      var init := row[..|row| - 1];
      var last := row[|row| - 1];
      RowCellsMembers(init);
      StripEmptyIffBlank(last);
      if Strip(last) != "" {
        StripNotBlank(last);
      }
      assert forall c <- row :: c in init || c == last;
    }
  }

  /** A joined list of non-blank strings is blank exactly when it is empty. */
  lemma JoinNonBlank(sep: string, parts: seq<string>)
    requires forall p <- parts :: !IsBlank(p)
    ensures IsBlank(Join(sep, parts)) <==> parts == []
  {
    JoinWithin(sep, parts, Whitespace);
    if parts != [] {
      assert parts[0] in parts;
    }
  }

  /** A table adds no line exactly when all of its cells are blank; every
      line it adds is non-blank. */
  lemma {:induction false} RowsLinesMembers(rows: seq<seq<string>>)
    ensures RowsLines(rows) == [] <==> forall row <- rows, c <- row :: IsBlank(c)
    ensures forall l <- RowsLines(rows) :: !IsBlank(l)
  {
    if rows != [] {
      var init := rows[..|rows| - 1];
      var last := rows[|rows| - 1];
      RowsLinesMembers(init);
      RowCellsMembers(last);
      JoinNonBlank(" | ", RowCells(last));
      assert forall row <- rows :: row in init || row == last;
    }
  }

  /** The tables add no line exactly when all of their cells are blank; every
      line they add is non-blank. */
  lemma {:induction false} TablesLinesMembers(tables: seq<seq<seq<string>>>)
    ensures TablesLines(tables) == [] <==> forall t <- tables, row <- t, c <- row :: IsBlank(c)
    ensures forall l <- TablesLines(tables) :: !IsBlank(l)
  {
    if tables != [] {
      var init := tables[..|tables| - 1];
      var last := tables[|tables| - 1];
      TablesLinesMembers(init);
      RowsLinesMembers(last);
      assert forall t <- tables :: t in init || t == last;
    }
  }

  /** The Word reader fails exactly when every paragraph and every table
      cell is blank. */
  lemma DocxFailsIffBlank(name: string, word: Word)
    ensures DocxText(name, word).Err? <==>
              (forall p <- word.paragraphs :: IsBlank(p))
              && forall t <- word.tables, row <- t, c <- row :: IsBlank(c)
  {
    var lines := NonBlank(word.paragraphs) + TablesLines(word.tables);
    NonBlankMembers(word.paragraphs);
    TablesLinesMembers(word.tables);
    JoinNonBlank("\n", lines);
    StripEmptyIffBlank(Join("\n", lines));
    if NonBlank(word.paragraphs) != [] {
      assert NonBlank(word.paragraphs)[0] in NonBlank(word.paragraphs);
    }
  }

  // ---------------------------------------------------------------------------
  // _leer_excel

  /** The line that opens each sheet. */
  function Header(title: string): string {
    "--- Hoja: " + title + " ---"
  }

  /** `[str(v) if v is not None else "" for v in fila]`. */
  function CellTexts(row: seq<Option<string>>): (valores: seq<string>)
    ensures |valores| == |row|
    ensures forall i :: 0 <= i < |row| ==> valores[i] == if row[i].Some? then row[i].value else ""
  {
    seq(|row|, i requires 0 <= i < |row| => if row[i].Some? then row[i].value else "")
  }

  /** The characters `linea.strip(" |")` removes. */
  const Frame: set<char> := {' ', '|'}

  /** The lines one sheet's rows add: each row's values joined by `" | "`,
      unless that is only spaces and bars. */
  function SheetRows(rows: seq<seq<Option<string>>>): seq<string> {
    if rows == [] then []
    else
      var linea := Join(" | ", CellTexts(rows[|rows| - 1]));
      SheetRows(rows[..|rows| - 1]) + (if StripChars(linea, Frame) != "" then [linea] else [])
  }

  /** The lines of the whole workbook: per sheet, its header and its rows. */
  function WorkbookLines(sheets: seq<Sheet>): seq<string> {
    if sheets == [] then []
    else
      var hoja := sheets[|sheets| - 1];
      WorkbookLines(sheets[..|sheets| - 1]) + [Header(hoja.title)] + SheetRows(hoja.rows)
  }

  /** `_leer_excel(ruta)` as a value, over the workbook's sheets. */
  function ExcelText(name: string, sheets: seq<Sheet>): Result<string, ReadError> {
    var contenido := Join("\n", WorkbookLines(sheets));
    if Strip(contenido) == "" then Err(EmptyWorkbook(name)) else Ok(contenido)
  }

  /** Lines 156-161, one sheet: its header, then the line of each row that
      has more than spaces and bars. */
  method AppendSheet(lineas: seq<string>, hoja: Sheet) returns (out: seq<string>)
    ensures out == lineas + [Header(hoja.title)] + SheetRows(hoja.rows)
  {
    out := lineas + [Header(hoja.title)];
    ghost var before := out;
    for f := 0 to |hoja.rows|
      invariant out == before + SheetRows(hoja.rows[..f])
    {
      SheetRowsStep(hoja.rows, f);
      var valores := CellTexts(hoja.rows[f]);
      var linea := Join(" | ", valores);
      if StripChars(linea, Frame) != "" {
        AppendAssoc(before, SheetRows(hoja.rows[..f]), [linea]);
        out := out + [linea];
      }
    }
    assert hoja.rows[..|hoja.rows|] == hoja.rows;
  }

  /** Lines 151-166. */
  method LeerExcel(name: string, sheets: seq<Sheet>) returns (r: Result<string, ReadError>)
    ensures r == ExcelText(name, sheets)
  {
    var lineas: seq<string> := [];
    for h := 0 to |sheets|
      invariant lineas == WorkbookLines(sheets[..h])
    {
      WorkbookLinesStep(sheets, h);
      lineas := AppendSheet(lineas, sheets[h]);
    }
    assert sheets[..|sheets|] == sheets;
    var contenido := Join("\n", lineas);
    if Strip(contenido) == "" {
      return Err(EmptyWorkbook(name));
    }
    return Ok(contenido);
  }

  /** One more row adds its line unless that is only spaces and bars. */
  lemma SheetRowsStep(rows: seq<seq<Option<string>>>, f: nat)
    requires f < |rows|
    ensures var linea := Join(" | ", CellTexts(rows[f]));
      SheetRows(rows[..f + 1]) == SheetRows(rows[..f]) + (if StripChars(linea, Frame) != "" then [linea] else [])
  {
    assert rows[..f + 1][..f] == rows[..f];
  }

  /** One more sheet adds its header and its rows' lines. */
  lemma WorkbookLinesStep(sheets: seq<Sheet>, h: nat)
    requires h < |sheets|
    ensures WorkbookLines(sheets[..h + 1]) == WorkbookLines(sheets[..h]) + [Header(sheets[h].title)] + SheetRows(sheets[h].rows)
  {
    assert sheets[..h + 1][..h] == sheets[..h];
  }

  /** A row is kept exactly when some cell has a value with a character
      other than a space or a bar. */
  lemma RowKeptIff(row: seq<Option<string>>)
    ensures StripChars(Join(" | ", CellTexts(row)), Frame) != "" <==>
              exists i :: 0 <= i < |row| && row[i].Some? && !Within(row[i].value, Frame)
  {
    var valores := CellTexts(row);
    assert Within(" | ", Frame) by {
      assert " | "[0] == ' ' && " | "[1] == '|' && " | "[2] == ' ';
    }
    JoinWithin(" | ", valores, Frame);
    if exists i :: 0 <= i < |row| && row[i].Some? && !Within(row[i].value, Frame) {
      var i :| 0 <= i < |row| && row[i].Some? && !Within(row[i].value, Frame);
      assert valores[i] in valores;
    } else {
      forall v <- valores
        ensures Within(v, Frame)
      {
        var i :| 0 <= i < |valores| && valores[i] == v;
      }
    }
  }

  /** A header line is never blank. */
  lemma HeaderNotBlank(title: string)
    ensures !IsBlank(Header(title))
  {
    assert Header(title)[0] == '-';
  }

  /** The workbook has lines exactly when it has sheets, and its first line
      is the first sheet's header. */
  lemma {:induction false} WorkbookLinesStart(sheets: seq<Sheet>)
    ensures WorkbookLines(sheets) == [] <==> sheets == []
    ensures sheets != [] ==> WorkbookLines(sheets)[0] == Header(sheets[0].title)
  {
    if sheets != [] {
      var init := sheets[..|sheets| - 1];
      WorkbookLinesStart(init);
      if init != [] {
        assert init[0] == sheets[0];
      }
    }
  }

  /** The Excel reader fails exactly when the workbook has no sheet: every
      sheet adds a header line, so a sheet with no data still counts. */
  lemma ExcelFailsIffNoSheets(name: string, sheets: seq<Sheet>)
    ensures ExcelText(name, sheets).Err? <==> sheets == []
  {
    var lines := WorkbookLines(sheets);
    WorkbookLinesStart(sheets);
    StripEmptyIffBlank(Join("\n", lines));
    if sheets != [] {
      HeaderNotBlank(sheets[0].title);
      JoinWithin("\n", lines, Whitespace);
      assert lines[0] in lines;
    }
  }

  // ---------------------------------------------------------------------------
  // leer_archivo

  /** The readers `leer_archivo` dispatches to. */
  datatype Reader = TxtReader | PdfReader | DocxReader | ExcelReader

  /** The reader for a lower-cased suffix, if any. */
  function ReaderFor(ext: string): Option<Reader> {
    if ext == ".txt" then Some(TxtReader)
    else if ext == ".pdf" then Some(PdfReader)
    else if ext == ".docx" then Some(DocxReader)
    else if ext == ".xlsx" || ext == ".xls" then Some(ExcelReader)
    else None
  }

  /** `leer_archivo(ruta)` as a value, for the file named `name` whose
      contents the libraries see as `doc`. */
  function ReadFile(name: string, doc: Document): Result<string, ReadError> {
    var ext := Lower(Suffix(name));
    match ReaderFor(ext)
    case None => Err(Unsupported(ext, name))
    case Some(TxtReader) => TxtText(name, doc.decoded)
    case Some(PdfReader) =>
      (match doc.pages
       case Unreadable(message, runtimeError) => Err(LibraryError(message, runtimeError))
       case Opened(pages) => PdfText(name, pages))
    case Some(DocxReader) =>
      (match doc.word
       case Unreadable(message, runtimeError) => Err(LibraryError(message, runtimeError))
       case Opened(word) => DocxText(name, word))
    case Some(ExcelReader) =>
      (match doc.workbook
       case Unreadable(message, runtimeError) => Err(LibraryError(message, runtimeError))
       case Opened(sheets) => ExcelText(name, sheets))
  }

  /** Lines 86-102. */
  method LeerArchivo(name: string, doc: Document) returns (r: Result<string, ReadError>)
    ensures r == ReadFile(name, doc)
  {
    var ext := Lower(Suffix(name));
    if ext == ".txt" {
      r := LeerTxt(name, doc.decoded);
    } else if ext == ".pdf" {
      match doc.pages
      case Unreadable(message, runtimeError) => r := Err(LibraryError(message, runtimeError));
      case Opened(pages) => r := LeerPdf(name, pages);
    } else if ext == ".docx" {
      match doc.word
      case Unreadable(message, runtimeError) => r := Err(LibraryError(message, runtimeError));
      case Opened(word) => r := LeerDocx(name, word);
    } else if ext == ".xlsx" || ext == ".xls" {
      match doc.workbook
      case Unreadable(message, runtimeError) => r := Err(LibraryError(message, runtimeError));
      case Opened(sheets) => r := LeerExcel(name, sheets);
    } else {
      r := Err(Unsupported(ext, name));
    }
  }

  /** Every supported suffix has a reader and no other suffix does. */
  lemma ReaderForIff(ext: string)
    ensures ReaderFor(ext).Some? <==> ext in Extensiones
  {
  }

  /** A file is refused as unsupported exactly when its lower-cased suffix is
      not one of `EXTENSIONES_SOPORTADAS`, and the refusal names that suffix
      and the file. */
  lemma DispatchIff(name: string, doc: Document)
    ensures (ReadFile(name, doc).Err? && ReadFile(name, doc).error.Unsupported?) <==> Lower(Suffix(name)) !in Extensiones
    ensures Lower(Suffix(name)) !in Extensiones ==>
              ReadFile(name, doc) == Err(Unsupported(Lower(Suffix(name)), name))
  {
    ReaderForIff(Lower(Suffix(name)));
  }

  /** The suffix is compared without regard to ASCII case: `a.PDF` goes to
      the same reader as `a.pdf`. */
  lemma CaseInsensitive(stem: string, ext: string)
    requires stem != [] && 2 <= |ext| && ext[0] == '.'
    requires forall j :: 1 <= j < |ext| ==> ext[j] != '.'
    ensures ReaderFor(Lower(Suffix(stem + ext))) == ReaderFor(Lower(Suffix(stem + Lower(ext))))
  {
    var lowered := Lower(ext);
    assert lowered[0] == '.';
    assert forall j :: 1 <= j < |ext| ==> lowered[j] != '.';
    SuffixOf(stem, ext);
    SuffixOf(stem, lowered);
    LowerIdempotent(ext);
  }

  /** Lower-casing twice lower-cases nothing more. */
  lemma LowerIdempotent(s: string)
    ensures Lower(Lower(s)) == Lower(s)
  {
  }
}
