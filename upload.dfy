/**
 * POST /api/upload: a CSV file goes through a strictly ordered chain of checks
 * (method, file present, parse errors, empty data, AI text present, upsert error).
 * Each rejection has its own status and message. Before the AI call every string
 * cell is trimmed and every row gets a `raw_json` copy of itself.
 *
 * The libraries are opaque services. The handler is a function from the request
 * and those services to its outcome, together with the trace of services it called.
 */
module Upload {
  import opened Wrappers
  import opened Schema
  import opened JsString

  /** One entry of `files` after multipart parsing. */
  datatype UploadedFile = UploadedFile(filepath: string)

  /** `files.file`: missing, one file, or an array of files. */
  datatype FileField = NoFile | Single(file: UploadedFile) | Multiple(files: seq<UploadedFile>)

  /** The outcome of `form.parse`: the promise rejects with an error, or resolves with the files. */
  datatype Form = FormFailed(reason: string) | Parsed(file: FileField)

  /** `Papa.parse` with `header: true, skipEmptyLines: true`, before the cell transform. */
  datatype CsvResult = CsvResult(data: seq<RawRecord>, errors: seq<string>)

  /** The outcome of `generateContent`: it throws, or it yields `response.text`, maybe `undefined`. */
  datatype AiReply = AiThrew(message: string) | AiText(text: Option<string>)

  /**
   * The libraries the handler calls:
   * - `readFile`: `fs.readFileSync`, `None` when it throws;
   * - `parseCsv`: `Papa.parse`;
   * - `generate`: the enrichment call on the shaped rows;
   * - `jsonParse`: `JSON.parse`, `None` when it throws;
   * - `upsert`: the store's upsert on the parsed batch, `Some(message)` when it reports an error.
   */
  datatype Services = Services(
    readFile: string -> Option<string>,
    parseCsv: string -> CsvResult,
    generate: seq<ShapedRecord> -> AiReply,
    jsonParse: string -> Option<seq<Company>>,
    upsert: seq<Company> -> Option<string>)

  /** A call into a service, in the order the handler makes them. */
  datatype Effect = ReadFile(path: string) | GenerateContent(payload: seq<ShapedRecord>) | Upsert(batch: seq<Company>)

  /** Why the handler threw instead of answering. */
  datatype Failure = FormError(reason: string) | ReadError(path: string) | AiError(message: string) | JsonSyntaxError(text: string)

  datatype Outcome = Replied(response: Response, effects: seq<Effect>) | Threw(failure: Failure, effects: seq<Effect>)

  /** `Array.isArray(files.file) ? files.file[0] : files.file`; an empty array yields `undefined`. */
  function ChosenFile(field: FileField): (r: Option<UploadedFile>)
    ensures r.None? <==> field.NoFile? || field == Multiple([])
    ensures r.Some? ==> (field.Single? && r.value == field.file) || (field.Multiple? && r.value == field.files[0])
  {
    match field
    case NoFile => None
    case Single(f) => Some(f)
    case Multiple(fs) => if fs == [] then None else Some(fs[0])
  }

  /** The cell transform: strings are trimmed, other values pass through unchanged. */
  function TrimCell(c: Cell): (r: Cell)
    ensures c.Text? <==> r.Text?
    ensures c.Text? ==> IsTrimOf(r.text, c.text)
    ensures c.Null? ==> r == c
  {
    match c
    case Text(t) => Text(Trim(t))
    case Null => Null
  }

  /** The transform applied to every cell of a row; the header keys are left as they are. */
  function TrimRow(row: RawRecord): (r: RawRecord)
    ensures r.Keys == row.Keys
    ensures forall k :: k in row ==>
      && (row[k].Text? <==> r[k].Text?)
      && (row[k].Text? ==> IsTrimOf(r[k].text, row[k].text))
      && (row[k].Null? ==> r[k].Null?)
  {
    map k | k in row :: TrimCell(row[k])
  }

  /** `{ ...row, raw_json: { ...row } }`: the row's fields, then `raw_json`, which overrides
      a column of that name. */
  function ShapeRow(row: RawRecord): (r: ShapedRecord)
    ensures r.Keys == row.Keys + {"raw_json"}
    ensures forall k :: k in row && k != "raw_json" ==> r[k] == Plain(row[k])
    ensures r["raw_json"] == Nested(row)
  {
    (map k | k in row :: Plain(row[k]))["raw_json" := Nested(row)]
  }

  /** `fileData`: the parsed rows, trimmed by the transform and shaped. */
  function FileData(data: seq<RawRecord>): (r: seq<ShapedRecord>)
    ensures |r| == |data|
  {
    seq(|data|, i requires 0 <= i < |data| => ShapeRow(TrimRow(data[i])))
  }

  /** `!aiResponse`: the text is `undefined` or the empty string. */
  predicate EmptyText(text: Option<string>) {
    text.None? || text.value == ""
  }

  /** The handler. */
  function Handle(httpMethod: string, form: Form, s: Services): (o: Outcome)
    ensures o.Replied? && o.response.status == 200 ==> o.response == Reply(200, "File uploaded successfully")
  {
    if httpMethod != "POST" then
      Replied(Reply(405, "Method not allowed"), [])
    else
      match form
      case FormFailed(reason) => Threw(FormError(reason), [])
      case Parsed(field) =>
        match ChosenFile(field)
        case None => Replied(Reply(400, "No file uploaded"), [])
        case Some(file) =>
          var read := [ReadFile(file.filepath)];
          match s.readFile(file.filepath)
          case None => Threw(ReadError(file.filepath), read)
          case Some(content) =>
            var parsed := s.parseCsv(content);
            if |parsed.errors| > 0 then
              Replied(Reply(400, "Failed to parse the CSV file."), read)
            else
              var fileData := FileData(parsed.data);
              if |fileData| == 0 then
                Replied(Reply(400, "CSV file is empty or contains no data."), read)
              else
                var asked := read + [GenerateContent(fileData)];
                match s.generate(fileData)
                case AiThrew(message) => Threw(AiError(message), asked)
                case AiText(text) =>
                  if EmptyText(text) then
                    Replied(Reply(500, "AI returned an empty response."), asked)
                  else
                    match s.jsonParse(text.value)
                    case None => Threw(JsonSyntaxError(text.value), asked)
                    case Some(batch) =>
                      var stored := asked + [Upsert(batch)];
                      match s.upsert(batch)
                      case Some(_) => Replied(Reply(500, "Error inserting into Supabase - File upload failed"), stored)
                      case None => Replied(Reply(200, "File uploaded successfully"), stored)
  }

  // ---------------------------------------------------------------------------
  // The stages, one lemma each: the reply, and which services were called.

  /** Any method but POST is refused before anything else happens. */
  lemma MethodNotAllowed(httpMethod: string, form: Form, s: Services)
    requires httpMethod != "POST"
    ensures Handle(httpMethod, form, s) == Replied(Reply(405, "Method not allowed"), [])
  {
  }

  /** Of an array of files only the first one counts. */
  lemma FirstFileOfArray(f: UploadedFile, rest: seq<UploadedFile>, httpMethod: string, s: Services)
    ensures Handle(httpMethod, Parsed(Multiple([f] + rest)), s) == Handle(httpMethod, Parsed(Single(f)), s)
  {
  }

  /** Without a file (no field, or an empty array) the reply is 400 and nothing is read or parsed. */
  lemma NoFileUploaded(field: FileField, s: Services)
    requires field.NoFile? || field == Multiple([])
    ensures Handle("POST", Parsed(field), s) == Replied(Reply(400, "No file uploaded"), [])
  {
  }

  /** The request up to a successful read of the chosen file. */
  predicate ReadsContent(httpMethod: string, form: Form, s: Services) {
    && httpMethod == "POST" && form.Parsed?
    && ChosenFile(form.file).Some?
    && s.readFile(ChosenFile(form.file).value.filepath).Some?
  }

  function Content(httpMethod: string, form: Form, s: Services): string
    requires ReadsContent(httpMethod, form, s)
  {
    s.readFile(ChosenFile(form.file).value.filepath).value
  }

  /** Parse errors win over everything after them, even when rows were produced or none were;
      the enrichment service is not called. */
  lemma ParseErrorsFirst(httpMethod: string, form: Form, s: Services)
    requires ReadsContent(httpMethod, form, s)
    requires |s.parseCsv(Content(httpMethod, form, s)).errors| > 0
    ensures Handle(httpMethod, form, s)
         == Replied(Reply(400, "Failed to parse the CSV file."), [ReadFile(ChosenFile(form.file).value.filepath)])
  {
  }

  /** Zero rows and no errors: 400, and the enrichment service is not called. */
  lemma EmptyCsvRejected(httpMethod: string, form: Form, s: Services)
    requires ReadsContent(httpMethod, form, s)
    requires s.parseCsv(Content(httpMethod, form, s)) == CsvResult([], [])
    ensures Handle(httpMethod, form, s)
         == Replied(Reply(400, "CSV file is empty or contains no data."), [ReadFile(ChosenFile(form.file).value.filepath)])
  {
  }

  /** The request up to the enrichment call, and the rows it is given. */
  predicate ReachesAi(httpMethod: string, form: Form, s: Services) {
    && ReadsContent(httpMethod, form, s)
    && |s.parseCsv(Content(httpMethod, form, s)).errors| == 0
    && |s.parseCsv(Content(httpMethod, form, s)).data| > 0
  }

  function Payload(httpMethod: string, form: Form, s: Services): seq<ShapedRecord>
    requires ReachesAi(httpMethod, form, s)
  {
    FileData(s.parseCsv(Content(httpMethod, form, s)).data)
  }

  /** The enrichment service receives the trimmed, shaped rows: one per parsed row, each with all
      of the row's columns and a `raw_json` copy of the trimmed row. */
  lemma AiGetsShapedRows(httpMethod: string, form: Form, s: Services)
    requires ReachesAi(httpMethod, form, s)
    ensures GenerateContent(Payload(httpMethod, form, s)) in Handle(httpMethod, form, s).effects
    ensures |Payload(httpMethod, form, s)| == |s.parseCsv(Content(httpMethod, form, s)).data|
  {
  }

  /** Before the enrichment call nothing depends on the enrichment, parsing or store services. */
  lemma {:induction false} LaterServicesIrrelevant(httpMethod: string, form: Form, s: Services,
      g: seq<ShapedRecord> -> AiReply, j: string -> Option<seq<Company>>, u: seq<Company> -> Option<string>)
    requires !ReachesAi(httpMethod, form, s)
    ensures Handle(httpMethod, form, s.(generate := g, jsonParse := j, upsert := u)) == Handle(httpMethod, form, s)
    ensures forall e :: e in Handle(httpMethod, form, s).effects ==> e.ReadFile?
  {
    var s' := s.(generate := g, jsonParse := j, upsert := u);
    assert ReadsContent(httpMethod, form, s) <==> ReadsContent(httpMethod, form, s');
    if ReadsContent(httpMethod, form, s) {
      assert Content(httpMethod, form, s) == Content(httpMethod, form, s');
    }
  }

  /** An absent or empty AI text: 500, and the store is not called. */
  lemma EmptyAiResponse(httpMethod: string, form: Form, s: Services)
    requires ReachesAi(httpMethod, form, s)
    requires s.generate(Payload(httpMethod, form, s)) == AiText(None)
          || s.generate(Payload(httpMethod, form, s)) == AiText(Some(""))
    ensures Handle(httpMethod, form, s).Replied?
    ensures Handle(httpMethod, form, s).response == Reply(500, "AI returned an empty response.")
    ensures forall e :: e in Handle(httpMethod, form, s).effects ==> !e.Upsert?
  {
  }

  /** A text `JSON.parse` rejects is an uncaught throw: no reply is sent and the store is not called. */
  lemma MalformedJsonThrows(httpMethod: string, form: Form, s: Services, text: string)
    requires ReachesAi(httpMethod, form, s)
    requires s.generate(Payload(httpMethod, form, s)) == AiText(Some(text)) && text != ""
    requires s.jsonParse(text).None?
    ensures Handle(httpMethod, form, s).Threw?
    ensures forall e :: e in Handle(httpMethod, form, s).effects ==> !e.Upsert?
  {
  }

  /** Exactly the requests that get through every stage are answered 200, and then the parsed
      batch went to the store, last. */
  lemma SucceedsIff(httpMethod: string, form: Form, s: Services)
    ensures Handle(httpMethod, form, s).Replied? && Handle(httpMethod, form, s).response.status == 200
      <==>
        && ReachesAi(httpMethod, form, s)
        && s.generate(Payload(httpMethod, form, s)).AiText?
        && !EmptyText(s.generate(Payload(httpMethod, form, s)).text)
        && s.jsonParse(s.generate(Payload(httpMethod, form, s)).text.value).Some?
        && s.upsert(s.jsonParse(s.generate(Payload(httpMethod, form, s)).text.value).value).None?
  {
  }

  /** The store's answer decides between 200 and 500 once the batch is parsed. */
  lemma UpsertDecides(httpMethod: string, form: Form, s: Services, text: string, batch: seq<Company>)
    requires ReachesAi(httpMethod, form, s)
    requires s.generate(Payload(httpMethod, form, s)) == AiText(Some(text)) && text != ""
    requires s.jsonParse(text) == Some(batch)
    ensures Handle(httpMethod, form, s).Replied?
    ensures Handle(httpMethod, form, s).response
         == if s.upsert(batch).Some? then Reply(500, "Error inserting into Supabase - File upload failed")
            else Reply(200, "File uploaded successfully")
    ensures Handle(httpMethod, form, s).effects
         == [ReadFile(ChosenFile(form.file).value.filepath), GenerateContent(Payload(httpMethod, form, s)), Upsert(batch)]
  {
  }

  // ---------------------------------------------------------------------------
  // Row shaping.

  /** Every output row holds every field of the trimmed row plus `raw_json`, whose fields are
      exactly the trimmed row's. */
  lemma {:induction false} FileDataFields(data: seq<RawRecord>, i: int)
    requires 0 <= i < |data|
    ensures FileData(data)[i].Keys == data[i].Keys + {"raw_json"}
    ensures forall k :: k in data[i] && k != "raw_json" ==> FileData(data)[i][k] == Plain(TrimCell(data[i][k]))
    ensures FileData(data)[i]["raw_json"] == Nested(TrimRow(data[i]))
  {
    var row := TrimRow(data[i]);
    assert FileData(data)[i] == ShapeRow(row);
    assert forall k :: k in data[i] ==> row[k] == TrimCell(data[i][k]);
  }

  /** In every row of `fileData` the top-level columns and the `raw_json` copy agree: each
      column other than `raw_json` is the copy's cell of that name. */
  lemma RawJsonRecoversRow(data: seq<RawRecord>, i: int)
    requires 0 <= i < |data|
    ensures FileData(data)[i]["raw_json"].Nested?
    ensures forall k :: k in FileData(data)[i] && k != "raw_json" ==>
      k in FileData(data)[i]["raw_json"].fields && FileData(data)[i][k] == Plain(FileData(data)[i]["raw_json"].fields[k])
  {
    FileDataFields(data, i);
  }

  /** Trimming is settled after one pass: the transform applied again changes nothing. */
  lemma {:induction false} TrimCellIdempotent(c: Cell)
    ensures TrimCell(TrimCell(c)) == TrimCell(c)
  {
    if c.Text? {
      TrimIdempotent(c.text);
    }
  }
}
