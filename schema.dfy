/**
 * The values that cross the API boundary: CSV cells and records, the rows of
 * the `Companies` table, and the HTTP responses the handlers send.
 */
module Schema {
  import opened Wrappers

  /** One CSV cell as the parser hands it over: a string, or a non-string value such as `null`. */
  datatype Cell = Text(text: string) | Null

  /** A parsed CSV row: column header to cell. */
  type RawRecord = map<string, Cell>

  /** A field of a row sent to the enrichment service: a cell, or the nested `raw_json` copy. */
  datatype Value = Plain(cell: Cell) | Nested(fields: RawRecord)

  type ShapedRecord = map<string, Value>

  /** A row of the `Companies` table; `None` is SQL NULL. */
  datatype Company = Company(
    company_name: string,
    domain: string,
    city: Option<string>,
    country: Option<string>,
    employee_size: Option<string>,
    raw_json: RawRecord)

  /** The natural key the upsert resolves conflicts on: `company_name,domain`. */
  type Key = (string, string)

  function KeyOf(c: Company): Key {
    (c.company_name, c.domain)
  }

  /** The JSON body of a response. */
  datatype Body =
    | Message(message: string)
    | MessageWithDetails(message: string, details: string)
    | SizeList(sizes: seq<Option<string>>)
    | CompanyList(companies: seq<Company>)

  /** Status, the `Allow` header when one is set, and the body. */
  datatype Response = Response(status: int, allow: Option<seq<string>>, body: Body)

  /** `res.status(status).json({ message })` */
  function Reply(status: int, message: string): Response {
    Response(status, None, Message(message))
  }
}
