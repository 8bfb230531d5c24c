/**
 * GET /api/companies: the rows of the `Companies` table, narrowed by up to three
 * optional filters taken from the query string and combined with AND.
 */
module Companies {
  import opened Wrappers
  import opened Schema
  import opened JsString

  /** A query-string parameter as the framework hands it over: absent, one string,
      or an array when the key is repeated. */
  datatype Param = Absent | One(value: string) | Many(values: seq<string>)

  /** The three parameters the handler reads from `req.query`. */
  datatype CompanyQuery = CompanyQuery(country: Param, employee_size: Param, domain: Param)

  /** `p && typeof p === "string"`: only a non-empty string switches a filter on. */
  predicate IsActive(p: Param) {
    p.One? && p.value != ""
  }

  datatype Column = CountryColumn | DomainColumn | EmployeeSizeColumn

  /** One call on the query builder: `ilike(column, "%needle%")` or `eq(column, value)`. */
  datatype Constraint = ILikeContains(column: Column, needle: string) | Eq(column: Column, value: string)

  /** The column's value in a row; `None` is SQL NULL. */
  function ColumnValue(row: Company, column: Column): Option<string> {
    match column
    case CountryColumn => row.country
    case DomainColumn => Some(row.domain)
    case EmployeeSizeColumn => row.employee_size
  }

  /** How the store evaluates one constraint. A NULL column satisfies neither kind. */
  predicate Satisfies(row: Company, c: Constraint) {
    var v := ColumnValue(row, c.column);
    match c
    case ILikeContains(_, needle) => v.Some? && Includes(ToLower(v.value), ToLower(needle))
    case Eq(_, value) => v.Some? && v.value == value
  }

  predicate SatisfiesAll(row: Company, query: seq<Constraint>) {
    forall i :: 0 <= i < |query| ==> Satisfies(row, query[i])
  }

  /** `column` holds `needle` as a case-insensitive substring. */
  ghost predicate ContainsFolded(column: Option<string>, needle: string) {
    column.Some? && exists i :: OccursAt(ToLower(column.value), ToLower(needle), i)
  }

  /** The rows the request asks for, stated filter by filter. */
  ghost predicate Wanted(q: CompanyQuery, row: Company) {
    && (IsActive(q.country) ==> ContainsFolded(row.country, q.country.value))
    && (IsActive(q.employee_size) ==> row.employee_size == Some(q.employee_size.value))
    && (IsActive(q.domain) ==> ContainsFolded(Some(row.domain), q.domain.value))
  }

  predicate NoFilter(q: CompanyQuery) {
    !IsActive(q.country) && !IsActive(q.employee_size) && !IsActive(q.domain)
  }

  /** The `let query = ...` chain: one constraint per active filter, in the order of the three `if`s. */
  method BuildQuery(q: CompanyQuery) returns (query: seq<Constraint>)
    ensures forall row :: SatisfiesAll(row, query) <==> Wanted(q, row)
    ensures query == [] <==> NoFilter(q)
    ensures |query| <= 3
  {
    query := [];
    if IsActive(q.country) {
      query := query + [ILikeContains(CountryColumn, q.country.value)];
    }
    if IsActive(q.employee_size) {
      query := query + [Eq(EmployeeSizeColumn, q.employee_size.value)];
    }
    if IsActive(q.domain) {
      query := query + [ILikeContains(DomainColumn, q.domain.value)];
    }
    forall row ensures SatisfiesAll(row, query) <==> Wanted(q, row) {
      SatisfiesAllIff(row, query, q);
    }
  }

  lemma SatisfiesAllIff(row: Company, query: seq<Constraint>, q: CompanyQuery)
    requires query == (if IsActive(q.country) then [ILikeContains(CountryColumn, q.country.value)] else [])
                     + (if IsActive(q.employee_size) then [Eq(EmployeeSizeColumn, q.employee_size.value)] else [])
                     + (if IsActive(q.domain) then [ILikeContains(DomainColumn, q.domain.value)] else [])
    ensures SatisfiesAll(row, query) <==> Wanted(q, row)
  {
    var a := if IsActive(q.country) then [ILikeContains(CountryColumn, q.country.value)] else [];
    var b := if IsActive(q.employee_size) then [Eq(EmployeeSizeColumn, q.employee_size.value)] else [];
    var c := if IsActive(q.domain) then [ILikeContains(DomainColumn, q.domain.value)] else [];
    assert SatisfiesAll(row, query) <==> SatisfiesAll(row, a) && SatisfiesAll(row, b) && SatisfiesAll(row, c) by {
      assert forall i :: 0 <= i < |a| ==> query[i] == a[i];
      assert forall i :: 0 <= i < |b| ==> query[|a| + i] == b[i];
      assert forall i :: 0 <= i < |c| ==> query[|a| + |b| + i] == c[i];
    }
    if IsActive(q.country) {
      ILikeMeansContains(row, CountryColumn, q.country.value);
      assert SatisfiesAll(row, a) <==> Satisfies(row, a[0]);
    }
    if IsActive(q.employee_size) {
      assert SatisfiesAll(row, b) <==> Satisfies(row, b[0]);
    }
    if IsActive(q.domain) {
      ILikeMeansContains(row, DomainColumn, q.domain.value);
      assert SatisfiesAll(row, c) <==> Satisfies(row, c[0]);
    }
  }

  /** `ilike(column, "%needle%")` keeps exactly the rows whose column holds `needle`, ignoring case. */
  lemma ILikeMeansContains(row: Company, column: Column, needle: string)
    ensures Satisfies(row, ILikeContains(column, needle)) <==> ContainsFolded(ColumnValue(row, column), needle)
  {
  }

  /** What the store sends back for `select("*")` narrowed by `query`: the matching rows,
      each as often as it occurs in the table, in table order. */
  function Select(table: seq<Company>, query: seq<Constraint>): (r: seq<Company>)
    ensures forall row :: multiset(r)[row] == if SatisfiesAll(row, query) then multiset(table)[row] else 0
    ensures forall i :: 0 <= i < |r| ==> SatisfiesAll(r[i], query)
  {
    if table == [] then []
    else
      var rest := Select(table[1..], query);
      assert table == [table[0]] + table[1..];
      if SatisfiesAll(table[0], query) then [table[0]] + rest else rest
  }

  /** An empty constraint list selects the whole table. */
  lemma {:induction false} SelectEverything(table: seq<Company>)
    ensures Select(table, []) == table
  {
    if table != [] {
      var rest := table[1..];
      SelectEverything(rest);
      assert SatisfiesAll(table[0], []);
      assert Select(table, []) == [table[0]] + Select(rest, []);
      assert table == [table[0]] + rest;
    }
  }

  /** The store's answer: it ran the query, it reported an error, or the call threw. */
  datatype StoreAnswer = Answered | Failed(message: string) | Threw(message: string)

  /** The handler over the table's rows and the store's answer. */
  method Handle(httpMethod: string, q: CompanyQuery, table: seq<Company>, answer: StoreAnswer) returns (r: Response)
    ensures httpMethod != "GET" ==> r == Response(405, Some(["GET"]), Message("Method " + httpMethod + " Not Allowed"))
    ensures httpMethod == "GET" && answer.Answered? ==>
      && r.status == 200 && r.allow == None && r.body.CompanyList?
      && (forall row :: multiset(r.body.companies)[row] == if Wanted(q, row) then multiset(table)[row] else 0)
      && (NoFilter(q) ==> r.body.companies == table)
    ensures httpMethod == "GET" && answer.Failed? ==>
      r == Response(500, None, MessageWithDetails("Error fetching from Supabase", answer.message))
    ensures httpMethod == "GET" && answer.Threw? ==>
      r == Response(500, None, MessageWithDetails("Internal Server Error", answer.message))
  {
    if httpMethod != "GET" {
      return Response(405, Some(["GET"]), Message("Method " + httpMethod + " Not Allowed"));
    }
    var query := BuildQuery(q);
    match answer {
      case Threw(message) =>
        r := Response(500, None, MessageWithDetails("Internal Server Error", message));
      case Failed(message) =>
        r := Response(500, None, MessageWithDetails("Error fetching from Supabase", message));
      case Answered =>
        if NoFilter(q) {
          SelectEverything(table);
        }
        r := Response(200, None, CompanyList(Select(table, query)));
    }
  }

  /** A repeated key arrives as an array and switches its filter off, like an absent one. */
  lemma ArrayParamIsNoFilter(q: CompanyQuery, vs: seq<string>, row: Company)
    ensures Wanted(q.(country := Many(vs)), row) == Wanted(q.(country := Absent), row)
    ensures Wanted(q.(employee_size := Many(vs)), row) == Wanted(q.(employee_size := Absent), row)
    ensures Wanted(q.(domain := Many(vs)), row) == Wanted(q.(domain := Absent), row)
  {
  }

  /** The substring filters ignore ASCII case in the parameter. */
  lemma FilterIgnoresCase(column: Option<string>, needle: string, other: string)
    requires ToLower(needle) == ToLower(other)
    ensures ContainsFolded(column, needle) == ContainsFolded(column, other)
  {
  }
}
