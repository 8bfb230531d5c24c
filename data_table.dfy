/**
 * The results table's helpers: the column label shown in the column menu, the
 * update of the page's search parameters from the filter values, and the
 * employee-size select with its "clear" entry.
 */
module DataTable {
  import opened Wrappers
  import opened JsString

  // ---------------------------------------------------------------------------
  // getColumnLabel

  /** `word[0].toUpperCase() + word.slice(1)` for a non-empty word. */
  function Capitalize(word: string): string {
    if word == [] then [] else [UpperChar(word[0])] + word[1..]
  }

  function Capitalized(words: seq<string>): (r: seq<string>)
    ensures |r| == |words|
  {
    seq(|words|, i requires 0 <= i < |words| => Capitalize(words[i]))
  }

  /**
   * `columnId.replaceAll("_", " ").split(" ").map(...).join(" ")`. An empty word, such as
   * the one before a leading `_` or between two separators, has no `word[0]`, and calling
   * `toUpperCase` on `undefined` throws: that outcome is `None`.
   */
  function GetColumnLabel(columnId: string): (r: Option<string>)
    ensures r == if WellSeparated(columnId) then Some(TitleWords(columnId)) else None
  {
    Separators(columnId);
    SplitCapitalizeJoin(ReplaceAll(columnId, '_', ' '));
    var words := Split(ReplaceAll(columnId, '_', ' '), ' ');
    if "" in words then None else Some(Join(Capitalized(words), ' '))
  }

  predicate IsSeparator(c: char) {
    c == '_' || c == ' '
  }

  /** Every word between separators is non-empty: the id neither starts nor ends with a
      separator and has no two in a row. */
  predicate WellSeparated(id: string) {
    && |id| > 0 && !IsSeparator(id[0]) && !IsSeparator(id[|id| - 1])
    && forall i :: 0 <= i < |id| - 1 ==> !(IsSeparator(id[i]) && IsSeparator(id[i + 1]))
  }

  /** The label character by character: separators become spaces, the first character of
      each word is upper-cased, every other character is kept. */
  function TitleWords(id: string): (r: string)
    ensures |r| == |id|
  {
    seq(|id|, i requires 0 <= i < |id| =>
      if IsSeparator(id[i]) then ' '
      else if i == 0 || IsSeparator(id[i - 1]) then UpperChar(id[i])
      else id[i])
  }

  /** The same two notions for a string whose only separator is the space. */
  predicate SpacedWell(t: string) {
    && |t| > 0 && t[0] != ' ' && t[|t| - 1] != ' '
    && forall i :: 0 <= i < |t| - 1 ==> !(t[i] == ' ' && t[i + 1] == ' ')
  }

  function SpaceTitle(t: string): (r: string)
    ensures |r| == |t|
  {
    seq(|t|, i requires 0 <= i < |t| =>
      if t[i] == ' ' then ' '
      else if i == 0 || t[i - 1] == ' ' then UpperChar(t[i])
      else t[i])
  }

  lemma NoSpaceWord(t: string)
    requires ' ' !in t && t != []
    ensures Capitalize(t) == SpaceTitle(t)
  {
    assert forall k :: 0 <= k < |t| ==> t[k] != ' ';
  }

  lemma InsideSpacing(t: string, i: int)
    requires 0 <= i < |t| && t[i] == ' ' && ' ' !in t[..i]
    ensures SpacedWell(t) <==> (i > 0 && SpacedWell(t[i + 1..]))
  {
    var rest := t[i + 1..];
    assert forall k :: 0 <= k < i ==> t[k] == t[..i][k];
    assert forall k :: 0 <= k < |rest| ==> rest[k] == t[i + 1 + k];
    if i > 0 && SpacedWell(rest) {
      forall k | 0 <= k < |t| - 1 ensures !(t[k] == ' ' && t[k + 1] == ' ') {
        if k > i {
          assert t[k] == rest[k - i - 1] && t[k + 1] == rest[k - i];
        }
      }
    }
  }

  lemma JoinCons(word: string, more: seq<string>, sep: char)
    requires |more| >= 1
    ensures Join([word] + more, sep) == word + [sep] + Join(more, sep)
  {
    assert ([word] + more)[1..] == more;
  }

  lemma TitleCons(t: string, i: int)
    requires 0 < i < |t| - 1 && t[i] == ' ' && ' ' !in t[..i]
    ensures SpaceTitle(t) == Capitalize(t[..i]) + [' '] + SpaceTitle(t[i + 1..])
  {
    var rhs := Capitalize(t[..i]) + [' '] + SpaceTitle(t[i + 1..]);
    assert |rhs| == |t|;
    forall k | 0 <= k < |t| ensures SpaceTitle(t)[k] == rhs[k] {
      if k < i {
        TitleConsFirst(t, i, k);
      } else if k > i {
        TitleConsRest(t, i, k);
      }
    }
  }

  lemma TitleConsFirst(t: string, i: int, k: int)
    requires 0 <= k < i < |t| && ' ' !in t[..i]
    ensures SpaceTitle(t)[k] == Capitalize(t[..i])[k]
  {
    assert t[k] == t[..i][k];
    if k > 0 {
      assert t[k - 1] == t[..i][k - 1];
    }
  }

  lemma TitleConsRest(t: string, i: int, k: int)
    requires 0 <= i < k < |t| && t[i] == ' '
    ensures SpaceTitle(t)[k] == SpaceTitle(t[i + 1..])[k - i - 1]
  {
    var rest := t[i + 1..];
    assert t[k] == rest[k - i - 1];
    if k - i - 1 > 0 {
      assert t[k - 1] == rest[k - i - 2];
    }
  }

  lemma SplitWhole(t: string)
    requires IndexOfChar(t, ' ') < 0
    ensures Split(t, ' ') == [t]
  {
  }

  lemma SplitFirst(t: string)
    requires IndexOfChar(t, ' ') >= 0
    ensures Split(t, ' ') == [t[..IndexOfChar(t, ' ')]] + Split(t[IndexOfChar(t, ' ') + 1..], ' ')
  {
  }

  /** Splitting on spaces, capitalising and joining is the character-wise title. */
  lemma {:induction false} SplitCapitalizeJoin(t: string)
    ensures "" !in Split(t, ' ') <==> SpacedWell(t)
    ensures "" !in Split(t, ' ') ==> Join(Capitalized(Split(t, ' ')), ' ') == SpaceTitle(t)
    decreases |t|
  {
    var i := IndexOfChar(t, ' ');
    if i < 0 {
      SplitWhole(t);
      if t != [] {
        NoSpaceWord(t);
        assert Capitalized([t]) == [Capitalize(t)];
      }
    } else {
      SplitFirst(t);
      SplitCapitalizeJoin(t[i + 1..]);
      FirstWordStep(t, i, Split(t[i + 1..], ' '));
    }
  }

  lemma FirstWordStep(t: string, i: int, parts: seq<string>)
    requires 0 <= i < |t| && t[i] == ' ' && ' ' !in t[..i]
    requires |parts| >= 1
    requires "" !in parts <==> SpacedWell(t[i + 1..])
    requires "" !in parts ==> Join(Capitalized(parts), ' ') == SpaceTitle(t[i + 1..])
    ensures "" !in [t[..i]] + parts <==> SpacedWell(t)
    ensures "" !in [t[..i]] + parts ==> Join(Capitalized([t[..i]] + parts), ' ') == SpaceTitle(t)
  {
    InsideSpacing(t, i);
    assert "" in [t[..i]] + parts <==> t[..i] == "" || "" in parts;
    if "" !in [t[..i]] + parts {
      assert |t[i + 1..]| > 0;
      assert Capitalized([t[..i]] + parts) == [Capitalize(t[..i])] + Capitalized(parts);
      JoinCons(Capitalize(t[..i]), Capitalized(parts), ' ');
      TitleCons(t, i);
    }
  }

  lemma Separators(id: string)
    ensures WellSeparated(id) <==> SpacedWell(ReplaceAll(id, '_', ' '))
    ensures TitleWords(id) == SpaceTitle(ReplaceAll(id, '_', ' '))
  {
    var t := ReplaceAll(id, '_', ' ');
    assert forall i :: 0 <= i < |id| ==> (t[i] == ' ' <==> IsSeparator(id[i]));
  }

  /** A label has no underscore and as many characters as the id. */
  lemma ColumnLabelShape(id: string)
    requires GetColumnLabel(id).Some?
    ensures '_' !in GetColumnLabel(id).value
    ensures |GetColumnLabel(id).value| == |id|
  {
    TitleHasNoUnderscore(id);
  }

  lemma TitleHasNoUnderscore(id: string)
    ensures '_' !in TitleWords(id)
  {
    var t := TitleWords(id);
    forall k | 0 <= k < |t| ensures t[k] != '_' {
      if !IsSeparator(id[k]) && (k == 0 || IsSeparator(id[k - 1])) {
        assert t[k] == UpperChar(id[k]);
      }
    }
  }

  lemma EmployeeSizeLabel()
    ensures GetColumnLabel("employee_size") == Some("Employee Size")
  {
    EmployeeSizeTitle();
  }

  lemma EmployeeSizeTitle()
    ensures WellSeparated("employee_size")
    ensures TitleWords("employee_size") == "Employee Size"
  {
    var id := "employee_size";
    assert forall i :: 0 <= i < |id| ==> (IsSeparator(id[i]) <==> i == 8);
    var r := TitleWords(id);
    assert forall i :: 0 <= i < |id| ==> r[i] == "Employee Size"[i];
  }

  lemma LeadingUnderscoreThrows(rest: string)
    ensures GetColumnLabel("_" + rest) == None
  {
  }

  // ---------------------------------------------------------------------------
  // updateUrl

  /** A search parameter: name and value, in the order they appear in the query string. */
  type Entry = (string, string)

  /** `getAll(name)`: the values under `name`, in order. */
  function ValuesOf(es: seq<Entry>, name: string): seq<string> {
    if es == [] then []
    else (if es[0].0 == name then [es[0].1] else []) + ValuesOf(es[1..], name)
  }

  /** The entries whose name is not in `names`, in order. */
  function Without(es: seq<Entry>, names: set<string>): seq<Entry> {
    if es == [] then []
    else (if es[0].0 in names then [] else [es[0]]) + Without(es[1..], names)
  }

  lemma {:induction false} ValuesOfAppend(a: seq<Entry>, b: seq<Entry>, name: string)
    ensures ValuesOf(a + b, name) == ValuesOf(a, name) + ValuesOf(b, name)
  {
    if a == [] {
      assert a + b == b;
    } else {
      assert (a + b)[1..] == a[1..] + b;
      ValuesOfAppend(a[1..], b, name);
    }
  }

  lemma {:induction false} WithoutAppend(a: seq<Entry>, b: seq<Entry>, names: set<string>)
    ensures Without(a + b, names) == Without(a, names) + Without(b, names)
  {
    if a == [] {
      assert a + b == b;
    } else {
      assert (a + b)[1..] == a[1..] + b;
      WithoutAppend(a[1..], b, names);
    }
  }

  /** Removing names leaves the values of every other name alone. */
  lemma {:induction false} ValuesOfWithout(es: seq<Entry>, names: set<string>, name: string)
    ensures ValuesOf(Without(es, names), name) == if name in names then [] else ValuesOf(es, name)
  {
    if es != [] {
      ValuesOfWithout(es[1..], names, name);
      ValuesOfAppend(if es[0].0 in names then [] else [es[0]], Without(es[1..], names), name);
    }
  }

  lemma {:induction false} WithoutWithout(es: seq<Entry>, a: set<string>, b: set<string>)
    ensures Without(Without(es, a), b) == Without(es, a + b)
  {
    if es != [] {
      WithoutWithout(es[1..], a, b);
      WithoutAppend(if es[0].0 in a then [] else [es[0]], Without(es[1..], a), b);
    }
  }

  /** The first entry named `name`, if any. */
  function FirstIndex(es: seq<Entry>, name: string): (r: int)
    ensures -1 <= r < |es|
    ensures r >= 0 ==> es[r].0 == name && ValuesOf(es[..r], name) == []
    ensures r == -1 ==> ValuesOf(es, name) == []
  {
    if es == [] then -1
    else if es[0].0 == name then 0
    else
      var r := FirstIndex(es[1..], name);
      if r == -1 then -1
      else
        assert es[..r + 1] == [es[0]] + es[1..][..r];
        ValuesOfAppend([es[0]], es[1..][..r], name);
        r + 1
  }

  lemma {:induction false} ValuesEmptyWithout(es: seq<Entry>, name: string)
    requires ValuesOf(es, name) == []
    ensures Without(es, {name}) == es
  {
    if es != [] {
      ValuesEmptyWithout(es[1..], name);
    }
  }

  /** `set(name, value)`: the first entry named `name` takes the value and later ones go;
      without one, the pair is appended. */
  function SetEntry(es: seq<Entry>, name: string, value: string): (r: seq<Entry>)
    ensures ValuesOf(r, name) == [value]
    ensures forall n :: n != name ==> ValuesOf(r, n) == ValuesOf(es, n)
    ensures Without(r, {name}) == Without(es, {name})
  {
    var i := FirstIndex(es, name);
    var r := if i < 0 then es + [(name, value)] else es[..i] + [(name, value)] + Without(es[i + 1..], {name});
    SetEntryFacts(es, name, value, i, r);
    r
  }

  lemma SetEntryFacts(es: seq<Entry>, name: string, value: string, i: int, r: seq<Entry>)
    requires -1 <= i < |es|
    requires i >= 0 ==> es[i].0 == name && ValuesOf(es[..i], name) == []
    requires i == -1 ==> ValuesOf(es, name) == []
    requires r == if i < 0 then es + [(name, value)] else es[..i] + [(name, value)] + Without(es[i + 1..], {name})
    ensures ValuesOf(r, name) == [value]
    ensures forall n :: n != name ==> ValuesOf(r, n) == ValuesOf(es, n)
    ensures Without(r, {name}) == Without(es, {name})
  {
    if i < 0 {
      SetAppends(es, name, value);
    } else {
      SetReplacesValues(es, name, value, i);
      SetReplacesOthers(es, name, value, i);
    }
  }

  lemma Single(e: Entry, n: string, names: set<string>)
    ensures ValuesOf([e], n) == if e.0 == n then [e.1] else []
    ensures Without([e], names) == if e.0 in names then [] else [e]
  {
    assert [e][1..] == [];
  }

  lemma SetAppends(es: seq<Entry>, name: string, value: string)
    requires ValuesOf(es, name) == []
    ensures ValuesOf(es + [(name, value)], name) == [value]
    ensures forall n :: n != name ==> ValuesOf(es + [(name, value)], n) == ValuesOf(es, n)
    ensures Without(es + [(name, value)], {name}) == Without(es, {name})
  {
    forall n ensures ValuesOf(es + [(name, value)], n) == ValuesOf(es, n) + (if n == name then [value] else []) {
      ValuesOfAppend(es, [(name, value)], n);
      Single((name, value), n, {name});
    }
    assert forall n :: ValuesOf(es, n) + [] == ValuesOf(es, n);
    WithoutAppend(es, [(name, value)], {name});
    Single((name, value), name, {name});
  }

  lemma SetReplacesValues(es: seq<Entry>, name: string, value: string, i: int)
    requires 0 <= i < |es| && es[i].0 == name && ValuesOf(es[..i], name) == []
    ensures ValuesOf(es[..i] + [(name, value)] + Without(es[i + 1..], {name}), name) == [value]
    ensures forall n :: n != name ==> ValuesOf(es[..i] + [(name, value)] + Without(es[i + 1..], {name}), n) == ValuesOf(es, n)
  {
    var a, b := es[..i], es[i + 1..];
    assert es == a + [es[i]] + b;
    ValuesOfJoined(a, (name, value), Without(b, {name}), name);
    ValuesOfWithout(b, {name}, name);
    Single((name, value), name, {name});
    forall n | n != name
      ensures ValuesOf(a + [(name, value)] + Without(b, {name}), n) == ValuesOf(es, n)
    {
      ValuesOfJoined(a, (name, value), Without(b, {name}), n);
      ValuesOfJoined(a, es[i], b, n);
      ValuesOfWithout(b, {name}, n);
      Single((name, value), n, {name});
      Single(es[i], n, {name});
    }
  }

  lemma ValuesOfJoined(a: seq<Entry>, e: Entry, b: seq<Entry>, n: string)
    ensures ValuesOf(a + [e] + b, n) == ValuesOf(a, n) + ValuesOf([e], n) + ValuesOf(b, n)
  {
    ValuesOfAppend(a, [e], n);
    ValuesOfAppend(a + [e], b, n);
  }

  lemma SetReplacesOthers(es: seq<Entry>, name: string, value: string, i: int)
    requires 0 <= i < |es| && es[i].0 == name && ValuesOf(es[..i], name) == []
    ensures Without(es[..i] + [(name, value)] + Without(es[i + 1..], {name}), {name}) == Without(es, {name})
  {
    var a, b := es[..i], es[i + 1..];
    var p: seq<Entry> := [(name, value)];
    assert es == a + [es[i]] + b;
    WithoutAppend(a, p, {name});
    WithoutAppend(a + p, Without(b, {name}), {name});
    WithoutAppend(a, [es[i]], {name});
    WithoutAppend(a + [es[i]], b, {name});
    WithoutWithout(b, {name}, {name});
    assert {name} + {name} == {name};
    Single((name, value), name, {name});
    Single(es[i], name, {name});
  }

  /** `URLSearchParams`, as the list of its entries. */
  class SearchParams {
    var entries: seq<Entry>

    /** `new URLSearchParams(init)` */
    constructor (init: seq<Entry>)
      ensures entries == init
    {
      entries := init;
    }

    method Set(name: string, value: string)
      modifies this
      ensures entries == SetEntry(old(entries), name, value)
    {
      entries := SetEntry(entries, name, value);
    }

    /** `delete(name)`: every entry named `name` goes. */
    method Delete(name: string)
      modifies this
      ensures entries == Without(old(entries), {name})
    {
      entries := Without(entries, {name});
    }
  }

  /** The filter object's own entries, in key order. */
  type FilterRecord = seq<(string, string)>

  function NamesOf(filters: FilterRecord): set<string> {
    set p | p in filters :: p.0
  }

  /** The value the loop leaves for `name`: the last pair with that key decides. */
  function LastValue(filters: FilterRecord, name: string): (r: Option<string>)
    ensures r.None? <==> name !in NamesOf(filters)
    ensures r.Some? ==> exists i :: 0 <= i < |filters| && filters[i] == (name, r.value) && forall j :: i < j < |filters| ==> filters[j].0 != name
  {
    if filters == [] then None
    else
      var last := filters[|filters| - 1];
      var front := filters[..|filters| - 1];
      assert filters == front + [last];
      assert NamesOf(filters) == NamesOf(front) + {last.0};
      if last.0 == name then Some(last.1) else LastValue(front, name)
  }

  /** `getAll(name)` expected after the update: a filter with a value sets it, an empty
      filter deletes it, and names that are not filter keys keep what they had. */
  function Expected(filters: FilterRecord, current: seq<Entry>, name: string): seq<string> {
    match LastValue(filters, name)
    case None => ValuesOf(current, name)
    case Some(v) => if v == "" then [] else [v]
  }

  /** `updateUrl(newFilters)` without the navigation: the parameters it would push. */
  method UpdateUrl(current: seq<Entry>, newFilters: FilterRecord) returns (next: seq<Entry>)
    ensures forall name :: ValuesOf(next, name) == Expected(newFilters, current, name)
    ensures Without(next, NamesOf(newFilters)) == Without(current, NamesOf(newFilters))
  {
    var params := new SearchParams(current);
    var i := 0;
    while i < |newFilters|
      invariant 0 <= i <= |newFilters|
      invariant Reflects(params.entries, newFilters[..i], current)
    {
      ghost var before := params.entries;
      if newFilters[i].1 != "" {
        params.Set(newFilters[i].0, newFilters[i].1);
      } else {
        params.Delete(newFilters[i].0);
      }
      UpdateStep(newFilters, i, current, before, params.entries);
      i := i + 1;
    }
    assert newFilters[..i] == newFilters;
    next := params.entries;
  }

  /** The parameters after the filters' rounds: every name has its expected values and the
      entries of non-filter names are those of `current`. */
  ghost predicate Reflects(entries: seq<Entry>, filters: FilterRecord, current: seq<Entry>) {
    && (forall name :: ValuesOf(entries, name) == Expected(filters, current, name))
    && Without(entries, NamesOf(filters)) == Without(current, NamesOf(filters))
  }

  lemma UpdateStep(filters: FilterRecord, i: int, current: seq<Entry>, before: seq<Entry>, after: seq<Entry>)
    requires 0 <= i < |filters|
    requires Reflects(before, filters[..i], current)
    requires after == if filters[i].1 != "" then SetEntry(before, filters[i].0, filters[i].1) else Without(before, {filters[i].0})
    ensures Reflects(after, filters[..i + 1], current)
  {
    UpdateStepValues(filters, i, current, before, after);
    UpdateStepOthers(filters, i, current, before, after);
  }

  lemma LastValueSnoc(filters: FilterRecord, i: int, name: string)
    requires 0 <= i < |filters|
    ensures LastValue(filters[..i + 1], name) == if filters[i].0 == name then Some(filters[i].1) else LastValue(filters[..i], name)
  {
    assert filters[..i + 1][..i] == filters[..i];
  }

  /** One round of the loop keeps the values of every name in line with `Expected`. */
  lemma UpdateStepValues(filters: FilterRecord, i: int, current: seq<Entry>, before: seq<Entry>, after: seq<Entry>)
    requires 0 <= i < |filters|
    requires forall name :: ValuesOf(before, name) == Expected(filters[..i], current, name)
    requires after == if filters[i].1 != "" then SetEntry(before, filters[i].0, filters[i].1) else Without(before, {filters[i].0})
    ensures forall name :: ValuesOf(after, name) == Expected(filters[..i + 1], current, name)
  {
    forall name ensures ValuesOf(after, name) == Expected(filters[..i + 1], current, name) {
      LastValueSnoc(filters, i, name);
      ValuesOfWithout(before, {filters[i].0}, name);
    }
  }

  /** One round of the loop leaves the entries of non-filter names alone. */
  lemma UpdateStepOthers(filters: FilterRecord, i: int, current: seq<Entry>, before: seq<Entry>, after: seq<Entry>)
    requires 0 <= i < |filters|
    requires Without(before, NamesOf(filters[..i])) == Without(current, NamesOf(filters[..i]))
    requires after == if filters[i].1 != "" then SetEntry(before, filters[i].0, filters[i].1) else Without(before, {filters[i].0})
    ensures Without(after, NamesOf(filters[..i + 1])) == Without(current, NamesOf(filters[..i + 1]))
  {
    var key := filters[i].0;
    var names := NamesOf(filters[..i]);
    assert NamesOf(filters[..i + 1]) == names + {key} by {
      assert filters[..i + 1] == filters[..i] + [filters[i]];
    }
    WithoutWithout(before, {key}, {key});
    assert {key} + {key} == {key};
    assert Without(after, {key}) == Without(before, {key});
    WithoutWithout(after, {key}, names);
    WithoutWithout(before, {key}, names);
    WithoutWithout(before, names, {key});
    WithoutWithout(current, names, {key});
    assert {key} + names == names + {key};
  }

  // ---------------------------------------------------------------------------
  // The filter state and the employee-size select

  datatype Filters = Filters(domain: string, country: string, employee_size: string)

  /** The filter object's entries in the order of its keys. */
  function FilterEntries(f: Filters): FilterRecord {
    [("domain", f.domain), ("country", f.country), ("employee_size", f.employee_size)]
  }

  /** `onValueChange` of the select: the "clear" entry empties the size filter; any other
      choice becomes the size filter. */
  function OnEmployeeSizeChange(f: Filters, value: string): (r: Filters)
    ensures r.domain == f.domain && r.country == f.country
    ensures r.employee_size == if value == "clear" then "" else value
  {
    if value == "clear" then f.(employee_size := "") else f.(employee_size := value)
  }

  /** After a choice in the select the page's URL carries no size after "clear" and exactly
      the chosen size otherwise; the domain and country parameters follow the unchanged filters. */
  lemma SelectThenUpdate(f: Filters, value: string, current: seq<Entry>)
    ensures Expected(FilterEntries(OnEmployeeSizeChange(f, value)), current, "employee_size")
         == if value == "clear" || value == "" then [] else [value]
    ensures Expected(FilterEntries(OnEmployeeSizeChange(f, value)), current, "domain")
         == Expected(FilterEntries(f), current, "domain")
    ensures Expected(FilterEntries(OnEmployeeSizeChange(f, value)), current, "country")
         == Expected(FilterEntries(f), current, "country")
  {
    var g := OnEmployeeSizeChange(f, value);
    assert FilterEntries(g)[..2][..1] == FilterEntries(f)[..2][..1];
    assert FilterEntries(g)[..2] == FilterEntries(f)[..2];
  }
}
