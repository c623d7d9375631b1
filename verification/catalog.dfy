/** Resolution of a named query: catalog lookup, then literal substitution of
    the date placeholders. */
module QueryCatalog {
  import opened Wrappers
  import opened Text
  import opened Errors

  const StartPlaceholder: string := "{{start_date}}"
  const EndPlaceholder: string := "{{end_date}}"

  /** One entry of the query store: the SQL template. */
  datatype QueryDefinition = QueryDefinition(sql: string)

  /** The query store, keyed by query name. */
  type Catalog = map<string, QueryDefinition>

  /** Python truthiness of an optional string: absent and empty are both false. */
  predicate Supplied(d: Option<string>) {
    d.Some? && |d.value| > 0
  }

  /** One guarded substitution step: every occurrence of the placeholder is
      replaced when a value is supplied; otherwise the text is left alone. */
  function SubstituteIfSupplied(sql: string, placeholder: string, d: Option<string>): string
    requires |placeholder| > 0
  {
    if Supplied(d) then ReplaceAll(sql, placeholder, d.value) else sql
  }

  /** The two substitution steps, start date first. */
  function Substitute(sql: string, start: Option<string>, end: Option<string>): (r: string)
    ensures !Supplied(start) && !Supplied(end) ==> r == sql
  {
    SubstituteIfSupplied(SubstituteIfSupplied(sql, StartPlaceholder, start), EndPlaceholder, end)
  }

  /** Looks the query up and splices the dates into its SQL. */
  function Resolve(catalog: Catalog, name: string, start: Option<string>, end: Option<string>): (r: Result<string, Error>)
    ensures r.Failure? <==> name !in catalog
    ensures r.Failure? ==> r.error == UnknownQuery(name)
    ensures name in catalog && !Supplied(start) && !Supplied(end) ==> r == Success(catalog[name].sql)
  {
    if name !in catalog then Failure(UnknownQuery(name))
    else Success(Substitute(catalog[name].sql, start, end))
  }

  /** A value written as digits and dashes, the shape of a YYYY-MM-DD date. */
  predicate IsoDateShaped(v: string) {
    forall c :: c in v ==> '0' <= c <= '9' || c == '-'
  }

  /** Digits and dashes appear in neither placeholder. */
  lemma IsoDateAvoidsPlaceholders(v: string)
    requires IsoDateShaped(v)
    ensures SharesNoChar(v, StartPlaceholder) && SharesNoChar(v, EndPlaceholder)
  {
  }

  /** With only a start date, the resolved SQL is the template's pieces between
      `{{start_date}}` occurrences (none of which holds the placeholder, by the
      contract of `Split`) joined by the start date. */
  lemma ResolveStartOnly(catalog: Catalog, name: string, start: Option<string>, end: Option<string>)
    requires name in catalog && Supplied(start) && !Supplied(end)
    ensures Resolve(catalog, name, start, end)
         == Success(Join(Split(catalog[name].sql, StartPlaceholder), start.value))
  {
    ReplaceAllIsJoinOfSplit(catalog[name].sql, StartPlaceholder, start.value);
  }

  /** With only an end date, the resolved SQL is the template's pieces between
      `{{end_date}}` occurrences joined by the end date. */
  lemma ResolveEndOnly(catalog: Catalog, name: string, start: Option<string>, end: Option<string>)
    requires name in catalog && !Supplied(start) && Supplied(end)
    ensures Resolve(catalog, name, start, end)
         == Success(Join(Split(catalog[name].sql, EndPlaceholder), end.value))
  {
    ReplaceAllIsJoinOfSplit(catalog[name].sql, EndPlaceholder, end.value);
  }

  /** With both dates, the resolved SQL is the template's pieces between
      `{{start_date}}` occurrences joined by the start date, then cut at every
      `{{end_date}}` of that text and joined by the end date. */
  lemma ResolveBothDates(catalog: Catalog, name: string, start: Option<string>, end: Option<string>)
    requires name in catalog && Supplied(start) && Supplied(end)
    ensures Resolve(catalog, name, start, end)
         == Success(Join(Split(Join(Split(catalog[name].sql, StartPlaceholder), start.value), EndPlaceholder), end.value))
  {
    var sql := catalog[name].sql;
    ReplaceAllIsJoinOfSplit(sql, StartPlaceholder, start.value);
    ReplaceAllIsJoinOfSplit(ReplaceAll(sql, StartPlaceholder, start.value), EndPlaceholder, end.value);
  }

  /** A date-shaped start date removes every `{{start_date}}`, and a
      date-shaped (or absent) end date cannot bring one back. */
  lemma ResolveLeavesNoStartPlaceholder(catalog: Catalog, name: string, start: Option<string>, end: Option<string>)
    requires name in catalog && Supplied(start) && IsoDateShaped(start.value)
    requires Supplied(end) ==> IsoDateShaped(end.value)
    ensures Resolve(catalog, name, start, end).Success?
    ensures !Contains(Resolve(catalog, name, start, end).value, StartPlaceholder)
  {
    var sql := catalog[name].sql;
    IsoDateAvoidsPlaceholders(start.value);
    ReplaceRemovesPattern(sql, StartPlaceholder, start.value);
    var afterStart := ReplaceAll(sql, StartPlaceholder, start.value);
    if Supplied(end) {
      IsoDateAvoidsPlaceholders(end.value);
      ReplaceKeepsAbsence(afterStart, EndPlaceholder, end.value, StartPlaceholder);
    }
  }

  /** A date-shaped end date removes every `{{end_date}}`, including any the
      start date brought in, because the end step runs last. */
  lemma ResolveLeavesNoEndPlaceholder(catalog: Catalog, name: string, start: Option<string>, end: Option<string>)
    requires name in catalog && Supplied(end) && IsoDateShaped(end.value)
    ensures Resolve(catalog, name, start, end).Success?
    ensures !Contains(Resolve(catalog, name, start, end).value, EndPlaceholder)
  {
    var afterStart := SubstituteIfSupplied(catalog[name].sql, StartPlaceholder, start);
    IsoDateAvoidsPlaceholders(end.value);
    ReplaceRemovesPattern(afterStart, EndPlaceholder, end.value);
  }

  /** A fragment that a crafted end value can complete into `{{end_date}}`. */
  const EndFragment: string := "{{en"

  /** In `{{en{{end_date}}` the first `{{end_date}}` starts right after the
      fragment. */
  lemma EndFragmentFirstOccurrence()
    ensures IndexOf(EndFragment + EndPlaceholder, EndPlaceholder) == Some(|EndFragment|)
  {
    var s := EndFragment + EndPlaceholder;
    var n := |EndPlaceholder|;
    assert |s| == 16 && n == 12;
    assert s[0] == '{' && s[1] == '{' && s[2] == 'e' && s[3] == 'n' && s[4] == '{';
    assert EndPlaceholder[0] == '{' && EndPlaceholder[1] == '{' && EndPlaceholder[4] == 'd';
    forall j: nat | j < 4
      ensures !OccursAt(s, EndPlaceholder, j)
    {
      if j == 0 {
        assert s[0..n][4] == s[4];
      } else if j == 1 {
        assert s[1..1 + n][1] == s[2];
      } else {
        assert s[j..j + n][0] == s[j];
      }
    }
    assert s[4..] == EndPlaceholder;
    assert OccursAt(s, EndPlaceholder, 4);
  }

  /** The crafted end value completes the fragment into the placeholder. */
  lemma EndFragmentCompleted()
    ensures EndFragment + "d_date}}" == EndPlaceholder
  {
  }

  /** Without the date shape the end-date claim fails: the end value
      `d_date}}` completes the fragment `{{en` in front of the placeholder
      into a fresh `{{end_date}}`. */
  lemma EndValueCanRebuildEndPlaceholder()
    ensures Resolve(map["q" := QueryDefinition(EndFragment + EndPlaceholder)], "q", None, Some("d_date}}"))
         == Success(EndPlaceholder)
  {
    var s := EndFragment + EndPlaceholder;
    var v := "d_date}}";
    assert Supplied(Some(v));
    assert Substitute(s, None, Some(v)) == ReplaceAll(s, EndPlaceholder, v);
    EndFragmentFirstOccurrence();
    ReplaceAllAt(s, EndPlaceholder, v, 4);
    assert s[..4] == EndFragment && s[4 + |EndPlaceholder|..] == [];
    assert !Contains([], EndPlaceholder) by {
      assert !OccursAt([], EndPlaceholder, 0);
    }
    ReplaceWithoutOccurrence([], EndPlaceholder, v);
    EndFragmentCompleted();
    assert ReplaceAll(s, EndPlaceholder, v) == EndFragment + v + [];
    var catalog := map["q" := QueryDefinition(s)];
    assert "q" in catalog && catalog["q"].sql == s;
    assert Resolve(catalog, "q", None, Some(v)) == Success(Substitute(s, None, Some(v)));
    assert EndFragment + v + [] == EndPlaceholder;
  }

  /** The start step runs first, so a start date that itself reads
      `{{end_date}}` is rewritten again by the end step. */
  lemma StartValueRewrittenByEndStep(catalog: Catalog, name: string, end: Option<string>)
    requires name in catalog && catalog[name].sql == StartPlaceholder && Supplied(end)
    ensures Resolve(catalog, name, Some(EndPlaceholder), end) == Success(end.value)
  {
    ReplaceWholePattern(StartPlaceholder, EndPlaceholder);
    ReplaceWholePattern(EndPlaceholder, end.value);
  }

  /** A template holding one `{{start_date}}` and then one `{{end_date}}`,
      with no opening brace elsewhere, resolves to its text with the two dates
      in place of the placeholders. */
  lemma ResolveRangeTemplate(head: string, middle: string, startDate: string, endDate: string)
    requires '{' !in head && '{' !in middle && '{' !in startDate
    requires |startDate| > 0 && |endDate| > 0
    ensures Substitute(head + StartPlaceholder + middle + EndPlaceholder, Some(startDate), Some(endDate))
         == head + startDate + middle + endDate
  {
    var tail := middle + EndPlaceholder;
    assert head + StartPlaceholder + middle + EndPlaceholder == head + StartPlaceholder + tail;
    ReplaceAfterFreePrefix(head, StartPlaceholder, tail, startDate);
    NoOccurrenceInShortTail(middle, EndPlaceholder, StartPlaceholder);
    ReplaceWithoutOccurrence(tail, StartPlaceholder, startDate);
    var prefix := head + startDate + middle;
    assert head + startDate + tail == prefix + EndPlaceholder + [];
    assert '{' !in prefix;
    ReplaceAfterFreePrefix(prefix, EndPlaceholder, [], endDate);
    assert !Contains([], EndPlaceholder) by {
      assert !OccursAt([], EndPlaceholder, 0);
    }
    ReplaceWithoutOccurrence([], EndPlaceholder, endDate);
    assert prefix + endDate + [] == head + startDate + middle + endDate;
  }

  const ExampleHead: string := "SELECT * FROM t WHERE d BETWEEN "
  const ExampleMiddle: string := " AND "

  /** An example request: a catalog holding `campaign_perf` with the
      template `SELECT * FROM t WHERE d BETWEEN {{start_date}} AND {{end_date}}`
      and a request with both dates yields the SQL with both dates spliced in. */
  lemma CampaignPerfScenario()
    ensures Resolve(
      map["campaign_perf" := QueryDefinition(ExampleHead + StartPlaceholder + ExampleMiddle + EndPlaceholder)],
      "campaign_perf", Some("2024-01-01"), Some("2024-01-31"))
      == Success(ExampleHead + "2024-01-01" + ExampleMiddle + "2024-01-31")
  {
    assert '{' !in ExampleHead && '{' !in ExampleMiddle && '{' !in "2024-01-01";
    ResolveRangeTemplate(ExampleHead, ExampleMiddle, "2024-01-01", "2024-01-31");
  }
}
