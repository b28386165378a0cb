/// `validar_json`: the gate that turns the completion service's raw reply
/// into an accepted record or an exception, in a fixed order of checks.
module Validator {
  import opened Common
  import opened Text
  import opened Json
  import Dates

  /** The Markdown code-fence marker. */
  const Fence: string := "```"

  /** `CAMPOS_REQUERIDOS`. */
  const CamposRequeridos: set<string> := {"nombre_cliente", "monto", "fecha", "tipo_solicitud"}

  /** `TIPOS_VALIDOS`. */
  const TiposValidos: set<string> := {"Venta", "Queja", "Factura"}

  /** Why a reply is rejected with `ValueError`, one constructor per `raise`. */
  datatype Reason =
    | NotJson(detail: string)              // the `json.JSONDecodeError` message
    | LoadRejected(detail: string)         // another `ValueError` of `json.loads`, unwrapped
    | EmptyList
    | NotAnObject(received: string)        // Python type name of what was found
    | MissingFields(missing: set<string>)
    | BadNombre
    | BadMonto(received: string)           // Python type name of the value
    | FechaNotString
    | BadFecha(fecha: string)
    | BadTipo(tipo: Json)

  /** What `validar_json` raises: `ValueError`, the `AttributeError` of
      calling `.strip()` on a `None` reply, the `TypeError` of looking up
      an unhashable value in `TIPOS_VALIDOS`, or an exception of another
      class that `json.loads` raised and that passes through unchanged. */
  datatype Fault = Invalid(reason: Reason) | NoneReply | UnhashableTipo | LoadRaised(message: string)

  // ---------------------------------------------------------------------------
  // Markdown fence removal

  /** `line.strip().startswith("```")`: the line opens or closes a fence. */
  predicate OpensFence(line: string) {
    StartsWith(Strip(line), Fence)
  }

  /** A line the fence filter keeps. */
  predicate NotFence(line: string) {
    !OpensFence(line)
  }

  /** `[l for l in lines if keep(l)]`. */
  function Filter(lines: seq<string>, keep: string -> bool): seq<string> {
    if lines == [] then []
    else (if keep(lines[0]) then [lines[0]] else []) + Filter(lines[1..], keep)
  }

  /** The lines that do not open or close a fence, in order. */
  function DropFenceLines(lines: seq<string>): seq<string> {
    Filter(lines, NotFence)
  }

  /** No line of `lines` opens or closes a fence. */
  predicate NoFenceLines(lines: seq<string>) {
    lines == [] || (!OpensFence(lines[0]) && NoFenceLines(lines[1..]))
  }

  /** Whether a line opens a fence is decided before its trailing blanks. */
  lemma OpensFenceLeft(line: string)
    ensures OpensFence(line) <==> StartsWith(TrimLeft(line, Whitespace), Fence)
  {
    assert forall i :: 0 <= i < |Fence| ==> Fence[i] !in Whitespace;
    StripStartsWith(line, Fence);
  }

  /** A line shorter than the fence, followed by a line break. */
  lemma ShortLineNoFence(t: string, rest: string)
    requires |t| < 3
    ensures !StartsWith(t + ("\n" + rest), Fence)
  {
    var j := t + ("\n" + rest);
    assert j[|t|] == '\n' != Fence[|t|];
    assert |j| >= 3 ==> j[..3][|t|] == j[|t|];
  }

  /** A line that does not open a fence once left-stripped of `cs`,
      whatever follows it. */
  lemma LongLineNoFence(l: string, rest: string, cs: set<char>)
    requires !StartsWith(TrimLeft(l, cs), Fence)
    requires |TrimLeft(l, cs)| >= 3
    ensures !StartsWith(TrimLeft(l, cs) + rest, Fence)
  {
    var t := TrimLeft(l, cs);
    assert (t + rest)[..3] == t[..3];
  }

  /** A line made of characters of `cs` and its line break vanish when the
      text is left-stripped of `cs`, a set holding the line break. */
  lemma BlankLineVanishes(l: string, rest: string, cs: set<char>)
    requires '\n' in cs
    requires TrimLeft(l, cs) == []
    ensures TrimLeft(l + ("\n" + rest), cs) == TrimLeft(rest, cs)
  {
    TrimLeftConcat(l, "\n" + rest, cs);
    TrimLeftConcat("\n", rest, cs);
    assert TrimLeft("\n", cs) == [];
  }

  /** One line that opens no fence, a line break, then text that opens none
      once left-stripped: the whole opens none either. */
  lemma JoinStep(l: string, rest: string)
    requires !OpensFence(l)
    requires !StartsWith(TrimLeft(rest, Whitespace), Fence)
    ensures !StartsWith(TrimLeft(l + "\n" + rest, Whitespace), Fence)
  {
    OpensFenceLeft(l);
    assert '\n' in Whitespace;
    JoinStepWith(l, rest, Whitespace);
  }

  /** `JoinStep` for left-stripping any set `cs` that holds the line break.
      Blank lines vanish when the text is left-stripped; any other line
      either opens no fence itself or ends before the three backquotes are
      complete. */
  lemma JoinStepWith(l: string, rest: string, cs: set<char>)
    requires '\n' in cs
    requires !StartsWith(TrimLeft(l, cs), Fence)
    requires !StartsWith(TrimLeft(rest, cs), Fence)
    ensures !StartsWith(TrimLeft(l + "\n" + rest, cs), Fence)
  {
    assert l + "\n" + rest == l + ("\n" + rest);
    var t := TrimLeft(l, cs);
    if t == [] {
      BlankLineVanishes(l, rest, cs);
    } else {
      TrimLeftConcat(l, "\n" + rest, cs);
      if |t| < 3 {
        ShortLineNoFence(t, rest);
      } else {
        LongLineNoFence(l, "\n" + rest, cs);
      }
    }
  }

  /** Joining lines none of which opens a fence cannot produce text that
      opens one. */
  lemma {:induction false} JoinedFenceFree(lines: seq<string>)
    requires NoFenceLines(lines)
    ensures !StartsWith(TrimLeft(Join("\n", lines), Whitespace), Fence)
  {
    if |lines| == 1 {
      OpensFenceLeft(lines[0]);
    } else if |lines| > 1 {
      JoinedFenceFree(lines[1..]);
      JoinStep(lines[0], Join("\n", lines[1..]));
    }
  }

  /** Lines 175-179: strip the reply; if it then opens a fence, drop every
      fence line and strip the rejoined rest. The result never opens a fence
      and is already stripped. */
  function StripFence(reply: string): (texto: string)
    ensures !StartsWith(texto, Fence)
    ensures Strip(texto) == texto
  {
    var t := Strip(reply);
    StripIdempotent(reply);
    if StartsWith(t, Fence) then
      var kept := DropFenceLines(Split(t, '\n'));
      DropFenceLinesClean(Split(t, '\n'));
      var joined := Join("\n", kept);
      JoinedFenceFree(kept);
      OpensFenceLeft(joined);
      StripIdempotent(joined);
      Strip(joined)
    else
      t
  }

  /** A reply that does not open a fence is only stripped. */
  lemma StripFenceUnfenced(reply: string)
    requires !OpensFence(reply)
    ensures StripFence(reply) == Strip(reply)
  {
  }

  /** Removing the fence twice removes nothing more. */
  lemma StripFenceIdempotent(reply: string)
    ensures StripFence(StripFence(reply)) == StripFence(reply)
  {
    var t := StripFence(reply);
    assert !OpensFence(t);
  }

  /** No kept line opens a fence. */
  lemma DropFenceLinesClean(lines: seq<string>)
    ensures NoFenceLines(DropFenceLines(lines))
  {
    FilterKeeps(lines, NotFence);
    AllNotFence(DropFenceLines(lines));
  }

  /** Every line a filter keeps passes its test. */
  lemma {:induction false} FilterKeeps(lines: seq<string>, keep: string -> bool)
    ensures forall l <- Filter(lines, keep) :: keep(l)
  {
    if lines != [] {
      FilterKeeps(lines[1..], keep);
    }
  }

  /** Lines each of which passes the fence filter have no fence line. */
  lemma {:induction false} AllNotFence(lines: seq<string>)
    requires forall l <- lines :: NotFence(l)
    ensures NoFenceLines(lines)
  {
    if lines != [] {
      assert lines[0] in lines;
      assert forall l <- lines[1..] :: l in lines;
      AllNotFence(lines[1..]);
    }
  }

  /** Filtering two runs of lines filters each. */
  lemma {:induction false} FilterConcat(a: seq<string>, b: seq<string>, keep: string -> bool)
    ensures Filter(a + b, keep) == Filter(a, keep) + Filter(b, keep)
  {
    if a != [] {
      var tail := a[1..];
      assert (a + b)[0] == a[0] && (a + b)[1..] == tail + b;
      FilterConcat(tail, b, keep);
      var k := if keep(a[0]) then [a[0]] else [];
      assert k + (Filter(tail, keep) + Filter(b, keep)) == k + Filter(tail, keep) + Filter(b, keep);
    } else {
      assert a + b == b;
    }
  }

  /** Fence-free lines are all kept. */
  lemma {:induction false} DropFenceLinesKeepsAll(lines: seq<string>)
    requires NoFenceLines(lines)
    ensures DropFenceLines(lines) == lines
  {
    if lines != [] {
      DropFenceLinesKeepsAll(lines[1..]);
    }
  }

  /** The reply ```` ```tag ```` / body / ```` ``` ```` as a model writes it. */
  function Fenced(tag: string, body: string): string {
    Fence + tag + "\n" + body + "\n" + Fence
  }

  /** Text that begins and ends with a non-blank character is its own strip. */
  lemma StripKeeps(s: string)
    requires s != [] && s[0] !in Whitespace && s[|s| - 1] !in Whitespace
    ensures Strip(s) == s
  {
    assert TrimLeft(s, Whitespace) == s;
  }

  /** A line beginning with the fence opens one. */
  lemma FenceLineOpens(tag: string)
    ensures OpensFence(Fence + tag)
  {
    var l := Fence + tag;
    assert l[0] == '`';
    assert TrimLeft(l, Whitespace) == l;
    OpensFenceLeft(l);
  }

  /** The lines of a fenced reply: the opening fence, the body's lines, the
      closing fence. */
  lemma FencedLines(tag: string, body: string)
    requires '\n' !in tag
    ensures Split(Fenced(tag, body), '\n') == [Fence + tag] + Split(body, '\n') + [Fence]
  {
    var head := Fence + tag;
    assert Fenced(tag, body) == head + ['\n'] + (body + ['\n'] + Fence);
    SplitAround(head, body + ['\n'] + Fence, '\n');
    SplitAround(body, Fence, '\n');
    SplitNoSep(head, '\n');
    SplitNoSep(Fence, '\n');
  }

  /** A body none of whose lines opens a fence is read as itself. */
  lemma BodyUnfenced(body: string)
    requires NoFenceLines(Split(body, '\n'))
    ensures StripFence(body) == Strip(body)
  {
    JoinSplit(body, '\n');
    JoinedFenceFree(Split(body, '\n'));
    OpensFenceLeft(body);
  }

  /** Of a fenced reply's lines, exactly the body's are kept. */
  lemma FencedKept(tag: string, body: string)
    requires '\n' !in tag
    requires NoFenceLines(Split(body, '\n'))
    ensures DropFenceLines(Split(Fenced(tag, body), '\n')) == Split(body, '\n')
  {
    FencedLines(tag, body);
    DropBetweenFences(tag, Split(body, '\n'));
  }

  /** Fence-free lines between two fence lines are exactly what is kept. */
  lemma DropBetweenFences(tag: string, lines: seq<string>)
    requires NoFenceLines(lines)
    ensures DropFenceLines([Fence + tag] + lines + [Fence]) == lines
  {
    var open, close := [Fence + tag], [Fence];
    FilterConcat(open + lines, close, NotFence);
    FilterConcat(open, lines, NotFence);
    FenceLineDropped(tag);
    FenceLineDropped("");
    assert Fence + "" == Fence;
    DropFenceLinesKeepsAll(lines);
    assert Filter(open + lines + close, NotFence) == [] + lines + [];
  }

  /** A fence line is dropped by the fence filter. */
  lemma FenceLineDropped(tag: string)
    ensures Filter([Fence + tag], NotFence) == []
  {
    FenceLineOpens(tag);
    FilterOne(Fence + tag, NotFence);
  }

  /** Filtering one line keeps it exactly when it passes. */
  lemma FilterOne(l: string, keep: string -> bool)
    ensures Filter([l], keep) == if keep(l) then [l] else []
  {
    assert [l][1..] == [];
  }

  /** A fenced reply is already stripped and opens a fence. */
  lemma FencedShape(tag: string, body: string)
    ensures Strip(Fenced(tag, body)) == Fenced(tag, body)
    ensures StartsWith(Fenced(tag, body), Fence)
  {
    var reply := Fenced(tag, body);
    var middle := tag + "\n" + body + "\n";
    assert reply == Fence + middle + Fence;
    assert reply[..3] == Fence;
    assert reply[0] == '`' && reply[|reply| - 1] == '`';
    StripKeeps(reply);
  }

  /** The body of a fenced reply is what remains of it, when none of the
      body's lines opens a fence. */
  lemma FencedBody(tag: string, body: string)
    requires '\n' !in tag
    requires NoFenceLines(Split(body, '\n'))
    ensures StripFence(Fenced(tag, body)) == Strip(body)
  {
    var reply := Fenced(tag, body);
    FencedShape(tag, body);
    FencedKept(tag, body);
    JoinSplit(body, '\n');
    assert Join("\n", DropFenceLines(Split(Strip(reply), '\n'))) == body;
  }

  // ---------------------------------------------------------------------------
  // The checks after parsing

  /** Lines 188-195: a list is unwrapped one level, to its first element;
      whatever is left must be an object. */
  function Unwrap(datos: Json): (r: Result<map<string, Json>, Reason>)
    ensures r == Err(EmptyList) <==> datos == JArr([])
    ensures r.Ok? <==> datos.JObj? || (datos.JArr? && |datos.items| > 0 && datos.items[0].JObj?)
    ensures r.Ok? ==> JObj(r.value) == if datos.JArr? then datos.items[0] else datos
  {
    if datos.JArr? && datos.items == [] then Err(EmptyList)
    else
      var v := if datos.JArr? then datos.items[0] else datos;
      if v.JObj? then Ok(v.fields) else Err(NotAnObject(TypeName(v)))
  }

  /** A list is unwrapped only once: a list inside a list is not an object. */
  lemma UnwrapOneLevel(inner: seq<Json>, rest: seq<Json>)
    ensures Unwrap(JArr([JArr(inner)] + rest)) == Err(NotAnObject("list"))
  {
  }

  /** `nombre_cliente`: a string that is not blank. */
  predicate NombreOk(v: Json) {
    v.JStr? && Strip(v.s) != ""
  }

  /** `monto`: `None`, or an `int` or `float` (a `bool` is an `int`). */
  predicate MontoOk(v: Json) {
    v.JNull? || IsNumber(v)
  }

  /** `fecha`: a string `strptime` reads as a calendar date. */
  predicate FechaOk(v: Json) {
    v.JStr? && Dates.Strptime(v.s).Some?
  }

  /** `tipo_solicitud`: one of the three tags, exactly as written. */
  predicate TipoOk(v: Json) {
    v.JStr? && v.s in TiposValidos
  }

  /** The schema as one statement: every required key present and every
      required field well formed. Other keys may hold anything. */
  predicate IsRecord(m: map<string, Json>) {
    CamposRequeridos <= m.Keys
    && NombreOk(m["nombre_cliente"]) && MontoOk(m["monto"])
    && FechaOk(m["fecha"]) && TipoOk(m["tipo_solicitud"])
  }

  /** Nothing missing means every required key is present. */
  lemma AllPresent(m: map<string, Json>)
    requires CamposRequeridos - m.Keys == {}
    ensures CamposRequeridos <= m.Keys
  {
    forall k | k in CamposRequeridos
      ensures k in m.Keys
    {
      assert k !in CamposRequeridos - m.Keys;
    }
  }

  /** Lines 197-223, in the source's order: the required keys first, then the
      four fields, the first failure raising. */
  function CheckFields(m: map<string, Json>): (r: Result<map<string, Json>, Fault>)
    ensures r.Ok? <==> IsRecord(m)
    ensures r.Ok? ==> r.value == m
    ensures CamposRequeridos - m.Keys != {} <==> r == Err(Invalid(MissingFields(CamposRequeridos - m.Keys)))
    ensures r == Err(UnhashableTipo) ==> "tipo_solicitud" in m && !IsHashable(m["tipo_solicitud"])
    ensures r.Err? && (r.error.UnhashableTipo? || (r.error.Invalid? && r.error.reason.BadTipo?)) ==>
              CamposRequeridos <= m.Keys && NombreOk(m["nombre_cliente"]) && MontoOk(m["monto"]) && FechaOk(m["fecha"])
  {
    var missing := CamposRequeridos - m.Keys;
    if missing != {} then Err(Invalid(MissingFields(missing)))
    else
      AllPresent(m);
      if !NombreOk(m["nombre_cliente"]) then Err(Invalid(BadNombre))
    else if !MontoOk(m["monto"]) then Err(Invalid(BadMonto(TypeName(m["monto"]))))
    else if !m["fecha"].JStr? then Err(Invalid(FechaNotString))
    else if !FechaOk(m["fecha"]) then Err(Invalid(BadFecha(m["fecha"].s)))
    else if !IsHashable(m["tipo_solicitud"]) then Err(UnhashableTipo)
    else if !TipoOk(m["tipo_solicitud"]) then Err(Invalid(BadTipo(m["tipo_solicitud"])))
    else Ok(m)
  }

  /** Lines 182-223: the outcome of `json.loads` on the unfenced text
      (the parsed value, or what it raised), judged. Only a
      `JSONDecodeError` is caught and re-raised as "no es JSON válido"
      (lines 183-185); any other exception of `json.loads` passes through
      as it is. An accepted value yields the parsed object itself, extra
      keys included. */
  function ValidarDatos(parsed: Result<Json, LoadError>): (r: Result<map<string, Json>, Fault>)
    ensures r != Err(NoneReply)
    ensures r.Ok? <==> parsed.Ok? && Unwrap(parsed.value).Ok? && IsRecord(Unwrap(parsed.value).value)
    ensures r.Ok? ==> JObj(r.value) == if parsed.value.JArr? then parsed.value.items[0] else parsed.value
    ensures parsed.Err? && parsed.error.DecodeError? ==> r == Err(Invalid(NotJson(parsed.error.message)))
    ensures parsed.Err? && parsed.error.LoadValueError? ==> r == Err(Invalid(LoadRejected(parsed.error.message)))
    ensures r.Err? && r.error.LoadRaised? <==> parsed.Err? && parsed.error.LoadException?
    ensures r.Err? && r.error.LoadRaised? ==> r.error.message == parsed.error.message
  {
    match parsed
    case Err(DecodeError(detail)) => Err(Invalid(NotJson(detail)))
    case Err(LoadValueError(detail)) => Err(Invalid(LoadRejected(detail)))
    case Err(LoadException(message)) => Err(LoadRaised(message))
    case Ok(datos) =>
      match Unwrap(datos)
      case Err(reason) => Err(Invalid(reason))
      case Ok(m) =>
        var r := CheckFields(m);
        assert r.Ok? ==> r.value == m && IsRecord(m);
        r
  }

  /** `validar_json(respuesta_texto)`, with `json.loads` given as `loads`.
      A `None` reply fails at `.strip()` with `AttributeError`. */
  function ValidarJson(reply: Option<string>, loads: string -> Result<Json, LoadError>): (r: Result<map<string, Json>, Fault>)
    ensures r == Err(NoneReply) <==> reply.None?
    ensures r.Ok? ==> IsRecord(r.value)
  {
    if reply.None? then Err(NoneReply)
    else ValidarDatos(loads(StripFence(reply.value)))
  }

  // ---------------------------------------------------------------------------
  // Properties of the gate

  /** The request type decides acceptance of an otherwise valid record: each
      of the three tags is accepted and every other string is rejected with
      `ValueError`; a list or object there raises `TypeError` instead. */
  lemma TipoDecides(m: map<string, Json>, v: Json)
    requires IsRecord(m)
    ensures CheckFields(m["tipo_solicitud" := v]).Ok? <==> v in {JStr("Venta"), JStr("Queja"), JStr("Factura")}
    ensures v.JStr? && v.s !in TiposValidos ==> CheckFields(m["tipo_solicitud" := v]) == Err(Invalid(BadTipo(v)))
    ensures !IsHashable(v) ==> CheckFields(m["tipo_solicitud" := v]) == Err(UnhashableTipo)
  {
    var m' := m["tipo_solicitud" := v];
    assert m'["nombre_cliente"] == m["nombre_cliente"] && m'["monto"] == m["monto"] && m'["fecha"] == m["fecha"];
    assert CamposRequeridos <= m'.Keys;
    TipoChecked(m');
    assert TipoOk(v) <==> v in {JStr("Venta"), JStr("Queja"), JStr("Factura")};
  }

  /** With every other field valid, the request type alone decides. */
  lemma TipoChecked(m: map<string, Json>)
    requires CamposRequeridos <= m.Keys
    requires NombreOk(m["nombre_cliente"]) && MontoOk(m["monto"]) && FechaOk(m["fecha"])
    ensures var t := m["tipo_solicitud"];
      CheckFields(m) == if !IsHashable(t) then Err(UnhashableTipo) else if !TipoOk(t) then Err(Invalid(BadTipo(t))) else Ok(m)
  {
    assert CamposRequeridos - m.Keys == {};
  }

  /** The amount decides acceptance of an otherwise valid record: `null`,
      integers, floats and booleans pass; a string, list or object is
      rejected naming its type. */
  lemma MontoDecides(m: map<string, Json>, v: Json)
    requires IsRecord(m)
    ensures CheckFields(m["monto" := v]).Ok? <==> v.JNull? || v.JBool? || v.JInt? || v.JFloat?
    ensures v.JStr? ==> CheckFields(m["monto" := v]) == Err(Invalid(BadMonto("str")))
  {
    var m' := m["monto" := v];
    assert m'["nombre_cliente"] == m["nombre_cliente"] && m'["tipo_solicitud"] == m["tipo_solicitud"] && m'["fecha"] == m["fecha"];
    assert CamposRequeridos <= m'.Keys;
    MontoChecked(m');
  }

  /** With every other field valid, the amount alone decides. */
  lemma MontoChecked(m: map<string, Json>)
    requires CamposRequeridos <= m.Keys
    requires NombreOk(m["nombre_cliente"]) && FechaOk(m["fecha"]) && TipoOk(m["tipo_solicitud"])
    ensures var a := m["monto"];
      CheckFields(m) == if !MontoOk(a) then Err(Invalid(BadMonto(TypeName(a)))) else Ok(m)
  {
    assert CamposRequeridos - m.Keys == {};
  }

  /** Lines 203-221: with every key present, the fields are checked in a
      fixed order and the first that fails decides the error: a later field
      is looked at only when every earlier one is well formed. */
  lemma FirstFailingCheck(m: map<string, Json>)
    requires CamposRequeridos <= m.Keys
    ensures var r := CheckFields(m);
      var nombre, monto, fecha, tipo := m["nombre_cliente"], m["monto"], m["fecha"], m["tipo_solicitud"];
      (r == Err(Invalid(BadNombre)) <==> !NombreOk(nombre))
      && (r == Err(Invalid(BadMonto(TypeName(monto)))) <==> NombreOk(nombre) && !MontoOk(monto))
      && (r == Err(Invalid(FechaNotString)) <==> NombreOk(nombre) && MontoOk(monto) && !fecha.JStr?)
      && (fecha.JStr? ==>
            (r == Err(Invalid(BadFecha(fecha.s))) <==> NombreOk(nombre) && MontoOk(monto) && !FechaOk(fecha)))
      && (r == Err(UnhashableTipo) <==>
            NombreOk(nombre) && MontoOk(monto) && FechaOk(fecha) && !IsHashable(tipo))
      && (r == Err(Invalid(BadTipo(tipo))) <==>
            NombreOk(nombre) && MontoOk(monto) && FechaOk(fecha) && IsHashable(tipo) && !TipoOk(tipo))
  {
  }

  /** Keys outside the schema never cause a rejection and are kept. */
  lemma ExtraKeysKept(m: map<string, Json>, k: string, v: Json)
    requires IsRecord(m) && k !in CamposRequeridos
    ensures CheckFields(m[k := v]) == Ok(m[k := v])
  {
    var m' := m[k := v];
    assert m'["nombre_cliente"] == m["nombre_cliente"] && m'["monto"] == m["monto"];
    assert m'["fecha"] == m["fecha"] && m'["tipo_solicitud"] == m["tipo_solicitud"];
  }

  /** A reply that parses to a non-empty list of records is answered with its
      first record, whatever the other elements are. */
  lemma ListReply(reply: string, loads: string -> Result<Json, LoadError>, first: map<string, Json>, rest: seq<Json>)
    requires loads(StripFence(reply)) == Ok(JArr([JObj(first)] + rest))
    ensures ValidarJson(Some(reply), loads) == CheckFields(first)
    ensures IsRecord(first) ==> ValidarJson(Some(reply), loads) == Ok(first)
  {
    var parsed := loads(StripFence(reply));
    assert ValidarJson(Some(reply), loads) == ValidarDatos(parsed);
    ListParsed(first, rest);
  }

  /** A parsed list is judged by the checks on its first element. */
  lemma ListParsed(first: map<string, Json>, rest: seq<Json>)
    ensures ValidarDatos(Ok(JArr([JObj(first)] + rest))) == CheckFields(first)
  {
    var items := [JObj(first)] + rest;
    assert items[0] == JObj(first);
    assert Unwrap(JArr(items)) == Ok(first);
  }

  /** A fenced reply whose body has no fence lines is judged as its body. */
  lemma FencedReply(tag: string, body: string, loads: string -> Result<Json, LoadError>)
    requires '\n' !in tag
    requires NoFenceLines(Split(body, '\n'))
    ensures ValidarJson(Some(Fenced(tag, body)), loads) == ValidarJson(Some(body), loads)
  {
    FencedBody(tag, body);
    BodyUnfenced(body);
  }
}
