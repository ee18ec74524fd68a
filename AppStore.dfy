/**
 * The iOS fetcher `get_apple_data`: once the sales report has been
 * fetched and unpacked, locate the `Units` and `Country Code` columns by
 * name and emit one sheet row per report line with positive units.
 */
module AppStore {
  import opened Wrappers
  import opened Strings
  import opened Integers
  import opened Calendar
  import opened Rows

  /**
   * The answer to the sales-report request: the HTTP status and the
   * report text, `None` when the body does not gunzip or decode as UTF-8.
   */
  datatype Response = Response(status: int, report: Option<string>)

  /** The exceptions the line loop does not catch. */
  datatype LineError =
    | MissingColumn(index: nat, columns: nat)  // `IndexError` from `cols[index]`
    | BadUnits(text: string)                   // `ValueError` from `int(cols[idx_units])`

  const UNITS_COLUMN := "Units"
  const COUNTRY_CODE_COLUMN := "Country Code"

  /** `content.strip().split('\n')`. */
  function ReportLines(content: string): (lines: seq<string>)
    ensures |lines| >= 1
  {
    Split(Strip(content), '\n')
  }

  /** `lines[0].split('\t')`. */
  function HeaderOf(content: string): seq<string> {
    Split(ReportLines(content)[0], '\t')
  }

  /**
   * `header.index('Units')` and `header.index('Country Code')`: the first
   * position of each name, `None` when either lookup raises `ValueError`.
   */
  function Columns(header: seq<string>): (c: Option<(nat, nat)>)
    ensures c.None? <==> UNITS_COLUMN !in header || COUNTRY_CODE_COLUMN !in header
    ensures c.Some? ==>
      && c.value.0 < |header| && header[c.value.0] == UNITS_COLUMN
      && UNITS_COLUMN !in header[..c.value.0]
      && c.value.1 < |header| && header[c.value.1] == COUNTRY_CODE_COLUMN
      && COUNTRY_CODE_COLUMN !in header[..c.value.1]
  {
    match IndexOf(header, UNITS_COLUMN)
    case None => None
    case Some(units) =>
      match IndexOf(header, COUNTRY_CODE_COLUMN)
      case None => None
      case Some(country) => Some((units, country))
  }

  /** A data line that makes the loop raise: a column missing, or units `int()` rejects. */
  predicate LineRaises(line: string, iu: nat, ic: nat) {
    var cols := Split(line, '\t');
    iu >= |cols| || ic >= |cols| || ParseInt(cols[iu]).None?
  }

  /** A data line that yields a sheet row: both columns present and positive units. */
  predicate LineEmits(line: string, iu: nat, ic: nat) {
    var cols := Split(line, '\t');
    iu < |cols| && ic < |cols| && ParseInt(cols[iu]).Some? && ParseInt(cols[iu]).value > 0
  }

  /** One pass of the line loop body. */
  function LineOutcome(line: string, iu: nat, ic: nat, dateStr: string)
    : (o: Result<Option<Row>, LineError>)
    ensures o.Err? <==> LineRaises(line, iu, ic)
    ensures Produces(o) <==> LineEmits(line, iu, ic)
    ensures Produces(o) ==>
      var cols := Split(line, '\t');
      o.value.value == Row(dateStr, cols[ic], IOS, ParseInt(cols[iu]).value)
  {
    var cols := Split(line, '\t');
    if iu >= |cols| then Err(MissingColumn(iu, |cols|))
    else match ParseInt(cols[iu])
      case None => Err(BadUnits(cols[iu]))
      case Some(units) =>
        if ic >= |cols| then Err(MissingColumn(ic, |cols|))
        else if units > 0 then Ok(Some(Row(dateStr, cols[ic], IOS, units)))
        else Ok(None)
  }

  function LineOutcomes(body: seq<string>, iu: nat, ic: nat, dateStr: string)
    : (outs: seq<Result<Option<Row>, LineError>>)
    ensures |outs| == |body|
    ensures forall k | 0 <= k < |body| :: outs[k] == LineOutcome(body[k], iu, ic, dateStr)
  {
    seq(|body|, k requires 0 <= k < |body| => LineOutcome(body[k], iu, ic, dateStr))
  }

  /**
   * The parse of an unpacked report for `dateStr`: the rows, or the
   * exception of the first bad data line (its index counts data lines
   * from 0, the header excluded).
   */
  function ParseApple(content: string, dateStr: string): (r: Result<seq<Row>, Failure<LineError>>)
    ensures Columns(HeaderOf(content)).None? ==> r == Ok([])
    ensures r.Ok? ==> |r.value| <= |ReportLines(content)| - 1
  {
    match Columns(HeaderOf(content))
    case None => Ok([])
    case Some((iu, ic)) => Collect(LineOutcomes(ReportLines(content)[1..], iu, ic, dateStr))
  }

  /** `get_apple_data(target)` after the request, with the response as input. */
  function AppleData(response: Response, target: CalendarDate): (r: Result<seq<Row>, Failure<LineError>>)
    ensures response.status != 200 ==> r == Ok([])
    ensures response.report.None? ==> r == Ok([])
  {
    if response.status != 200 then Ok([])
    else match response.report
      case None => Ok([])
      case Some(content) => ParseApple(content, IsoDate(target))
  }

  /** The fetcher as the script runs it: one pass over the report lines, appending as it goes. */
  method GetAppleData(response: Response, target: CalendarDate)
    returns (r: Result<seq<Row>, Failure<LineError>>)
    ensures r == AppleData(response, target)
  {
    if response.status != 200 {
      return Ok([]);
    }
    if response.report.None? {
      return Ok([]);
    }
    var content := response.report.value;
    var dateStr := IsoDate(target);
    var lines := Split(Strip(content), '\n');
    var header := Split(lines[0], '\t');
    var idxUnits := IndexOf(header, UNITS_COLUMN);
    if idxUnits.None? {
      return Ok([]);
    }
    var idxCountry := IndexOf(header, COUNTRY_CODE_COLUMN);
    if idxCountry.None? {
      return Ok([]);
    }
    var iu, ic := idxUnits.value, idxCountry.value;
    assert Columns(HeaderOf(content)) == Some((iu, ic));
    ghost var outs := LineOutcomes(lines[1..], iu, ic, dateStr);
    var data := [];
    var i := 1;
    while i < |lines|
      invariant 1 <= i <= |lines|
      invariant Collect(outs[..i - 1]) == Ok(data)
    {
      var cols := Split(lines[i], '\t');
      assert outs[i - 1] == LineOutcome(lines[i], iu, ic, dateStr);
      CollectStep(outs, i - 1);
      if iu >= |cols| {
        CollectStops(outs, i);
        return Err(Failure(i - 1, MissingColumn(iu, |cols|)));
      }
      var units := ParseInt(cols[iu]);
      if units.None? {
        CollectStops(outs, i);
        return Err(Failure(i - 1, BadUnits(cols[iu])));
      }
      if ic >= |cols| {
        CollectStops(outs, i);
        return Err(Failure(i - 1, MissingColumn(ic, |cols|)));
      }
      var country := cols[ic];
      if units.value > 0 {
        data := data + [Row(dateStr, country, IOS, units.value)];
      }
      i := i + 1;
    }
    assert outs[..i - 1] == outs;
    return Ok(data);
  }

  /**
   * Every emitted row comes from its own data line: platform iOS, the
   * requested date (never a date read from the report), the line's units
   * (> 0) and its `Country Code` cell; rows keep line order; every line
   * with positive units is emitted.
   */
  lemma AppleRowsFromLines(content: string, dateStr: string)
    requires Columns(HeaderOf(content)).Some?
    requires ParseApple(content, dateStr).Ok?
    ensures var (iu, ic) := Columns(HeaderOf(content)).value;
      var body := ReportLines(content)[1..];
      var rows := ParseApple(content, dateStr).value;
      var src := Kept(LineOutcomes(body, iu, ic, dateStr));
      && |rows| == |src|
      && (forall i, j | 0 <= i < j < |src| :: src[i] < src[j])
      && (forall j | 0 <= j < |rows| ::
            && src[j] < |body| && LineEmits(body[src[j]], iu, ic)
            && rows[j] == Row(dateStr, Split(body[src[j]], '\t')[ic], IOS,
                              ParseInt(Split(body[src[j]], '\t')[iu]).value))
      && (forall k | 0 <= k < |body| :: k in src <==> LineEmits(body[k], iu, ic))
  {
    var (iu, ic) := Columns(HeaderOf(content)).value;
    CollectKept(LineOutcomes(ReportLines(content)[1..], iu, ic, dateStr));
  }

  /** What every iOS row says: the requested date, platform iOS, a positive count. */
  lemma AppleRowsShape(content: string, dateStr: string)
    requires ParseApple(content, dateStr).Ok?
    ensures forall row | row in ParseApple(content, dateStr).value ::
      row.date == dateStr && row.platform == IOS && row.count > 0
  {
    if Columns(HeaderOf(content)).Some? {
      AppleRowsFromLines(content, dateStr);
      var rows := ParseApple(content, dateStr).value;
      forall row | row in rows
        ensures row.date == dateStr && row.platform == IOS && row.count > 0
      {
        var j :| 0 <= j < |rows| && rows[j] == row;
      }
    }
  }

  /**
   * With both columns found, the parse raises exactly when some data line
   * raises, and then with the first such line; no partial list is returned.
   */
  lemma AppleFailure(content: string, dateStr: string)
    requires Columns(HeaderOf(content)).Some?
    ensures var (iu, ic) := Columns(HeaderOf(content)).value;
      var body := ReportLines(content)[1..];
      && (ParseApple(content, dateStr).Ok? <==> forall k | 0 <= k < |body| :: !LineRaises(body[k], iu, ic))
      && (ParseApple(content, dateStr).Err? ==>
            var f := ParseApple(content, dateStr).error;
            && f.index < |body| && LineRaises(body[f.index], iu, ic)
            && forall k | 0 <= k < f.index :: !LineRaises(body[k], iu, ic))
  {
    var (iu, ic) := Columns(HeaderOf(content)).value;
    var outs := LineOutcomes(ReportLines(content)[1..], iu, ic, dateStr);
    CollectSucceeds(outs);
    if Collect(outs).Err? {
      CollectFirstFailure(outs);
    }
  }

  /** An empty or all-whitespace report has the header `['']` and gives no rows. */
  lemma AppleEmptyReport(content: string, dateStr: string)
    requires AllSpace(content)
    ensures HeaderOf(content) == [""]
    ensures ParseApple(content, dateStr) == Ok([])
  {
    assert Strip(content) == "";
    assert ReportLines(content) == [""];
  }

  /** A line of a report that holds only the two columns read: units, a tab, the country. */
  function EntryLine(units: int, country: string): string {
    Render(units) + "\t" + country
  }

  /** A report with the header `Units<TAB>Country Code` and one line per (units, country) entry. */
  function Report(entries: seq<(int, string)>): string {
    Join([UNITS_COLUMN + "\t" + COUNTRY_CODE_COLUMN] + EntryLines(entries), '\n')
  }

  function EntryLines(entries: seq<(int, string)>): (lines: seq<string>)
    ensures |lines| == |entries|
    ensures forall k | 0 <= k < |entries| :: lines[k] == EntryLine(entries[k].0, entries[k].1)
  {
    seq(|entries|, k requires 0 <= k < |entries| => EntryLine(entries[k].0, entries[k].1))
  }

  /** A country cell a report line can carry: no tab and no newline; empty or padded cells are fine. */
  predicate LineCell(c: string) {
    '\t' !in c && '\n' !in c
  }

  /**
   * A cell that can end the report: `strip()` removes nothing from it, so
   * it is not empty (the line would end in a tab) and does not end in
   * whitespace.
   */
  predicate EndCell(c: string) {
    c != [] && !IsSpace(c[|c| - 1])
  }

  /** The rows a report of `entries` should give: the entries with positive units, in order. */
  function PositiveEntries(entries: seq<(int, string)>, dateStr: string): seq<Row> {
    if entries == [] then []
    else
      var n := |entries| - 1;
      var (units, country) := entries[n];
      PositiveEntries(entries[..n], dateStr)
        + if units > 0 then [Row(dateStr, country, IOS, units)] else []
  }

  /**
   * Writing entries out as a report and parsing it back gives one iOS row
   * per entry with positive units, in entry order, dated with the requested
   * date; the entries with zero or negative units are dropped.
   */
  lemma ReportRoundTrip(entries: seq<(int, string)>, dateStr: string)
    requires forall k | 0 <= k < |entries| :: LineCell(entries[k].1)
    requires entries != [] ==> EndCell(entries[|entries| - 1].1)
    ensures ParseApple(Report(entries), dateStr) == Ok(PositiveEntries(entries, dateStr))
  {
    ReportLinesOf(entries);
    HeaderFields();
    var lines := ReportLines(Report(entries));
    assert lines[1..] == EntryLines(entries);
    EntriesParse(entries, dateStr);
  }

  /** The lines of a report are its header line and its entry lines. */
  lemma ReportLinesOf(entries: seq<(int, string)>)
    requires forall k | 0 <= k < |entries| :: LineCell(entries[k].1)
    requires entries != [] ==> EndCell(entries[|entries| - 1].1)
    ensures ReportLines(Report(entries)) == [UNITS_COLUMN + "\t" + COUNTRY_CODE_COLUMN] + EntryLines(entries)
  {
    var parts := [UNITS_COLUMN + "\t" + COUNTRY_CODE_COLUMN] + EntryLines(entries);
    var text := Report(entries);
    PartsPlain(entries);
    assert Strip(text) == text by {
      JoinEnds(parts, '\n');
      LastPartPlain(entries);
      TrimKeeps(StrBlanks, text);
    }
    SplitJoin(parts, '\n');
  }

  lemma PartsPlain(entries: seq<(int, string)>)
    requires forall k | 0 <= k < |entries| :: LineCell(entries[k].1)
    ensures var parts := [UNITS_COLUMN + "\t" + COUNTRY_CODE_COLUMN] + EntryLines(entries);
      forall k | 0 <= k < |parts| :: '\n' !in parts[k] && parts[k] != []
  {
    var lines := EntryLines(entries);
    forall k | 0 <= k < |lines|
      ensures '\n' !in lines[k] && lines[k] != []
    {
      RenderHasNoBreaks(entries[k].0);
    }
  }

  lemma LastPartPlain(entries: seq<(int, string)>)
    requires entries != [] ==> EndCell(entries[|entries| - 1].1)
    ensures var parts := [UNITS_COLUMN + "\t" + COUNTRY_CODE_COLUMN] + EntryLines(entries);
      var last := parts[|parts| - 1];
      last != [] && !IsSpace(last[|last| - 1])
  {
    if entries != [] {
      var (units, country) := entries[|entries| - 1];
      var line := EntryLine(units, country);
      assert line[|line| - 1] == country[|country| - 1];
    }
  }

  lemma EntriesParse(entries: seq<(int, string)>, dateStr: string)
    requires forall k | 0 <= k < |entries| :: LineCell(entries[k].1)
    ensures Collect(LineOutcomes(EntryLines(entries), 0, 1, dateStr)) == Ok(PositiveEntries(entries, dateStr))
  {
    var outs := LineOutcomes(EntryLines(entries), 0, 1, dateStr);
    forall k | 0 <= k < |entries|
      ensures outs[k] == EntryOutcome(entries[k], dateStr)
    {
      EntryLineParse(entries[k].0, entries[k].1, dateStr);
    }
    CollectEntries(outs, entries, dateStr);
  }

  /** What one entry line should give. */
  function EntryOutcome(entry: (int, string), dateStr: string): Result<Option<Row>, LineError> {
    if entry.0 > 0 then Ok(Some(Row(dateStr, entry.1, IOS, entry.0))) else Ok(None)
  }

  lemma {:induction false} CollectEntries(outs: seq<Result<Option<Row>, LineError>>,
                                          entries: seq<(int, string)>, dateStr: string)
    requires |outs| == |entries|
    requires forall k | 0 <= k < |entries| :: outs[k] == EntryOutcome(entries[k], dateStr)
    ensures Collect(outs) == Ok(PositiveEntries(entries, dateStr))
  {
    if entries != [] {
      var n := |entries| - 1;
      CollectEntries(outs[..n], entries[..n], dateStr);
      var (units, country) := entries[n];
      if units > 0 {
        assert outs[n] == Ok(Some(Row(dateStr, country, IOS, units)));
        assert PositiveEntries(entries, dateStr) ==
          PositiveEntries(entries[..n], dateStr) + [Row(dateStr, country, IOS, units)];
      } else {
        assert outs[n] == Ok(None);
        assert PositiveEntries(entries, dateStr) == PositiveEntries(entries[..n], dateStr) + [];
        assert PositiveEntries(entries[..n], dateStr) + [] == PositiveEntries(entries[..n], dateStr);
      }
    }
  }

  /** One entry line parses back to its entry. */
  lemma EntryLineParse(units: int, country: string, dateStr: string)
    requires '\t' !in country
    ensures LineOutcome(EntryLine(units, country), 0, 1, dateStr) ==
      if units > 0 then Ok(Some(Row(dateStr, country, IOS, units))) else Ok(None)
  {
    RenderHasNoBreaks(units);
    assert EntryLine(units, country) == Join([Render(units), country], '\t');
    SplitJoin([Render(units), country], '\t');
    ParseIntRender(units);
  }

  lemma RenderHasNoBreaks(i: int)
    ensures Render(i) != [] && !IsSpace(Render(i)[0])
    ensures '\t' !in Render(i) && '\n' !in Render(i)
  {
    var n := if i < 0 then -i else i;
    assert AllDigits(Decimal(n));
    if i < 0 {
      assert Render(i) == "-" + Decimal(n);
    }
  }

  /** A join of non-empty pieces starts with the first piece's first character and ends with the last's last. */
  lemma {:induction false} JoinEnds(parts: seq<string>, sep: char)
    requires |parts| > 0 && forall k | 0 <= k < |parts| :: parts[k] != []
    ensures var s := Join(parts, sep);
      s != [] && s[0] == parts[0][0] && s[|s| - 1] == parts[|parts| - 1][|parts[|parts| - 1]| - 1]
  {
    if |parts| > 1 {
      JoinEnds(parts[1..], sep);
    }
  }

  lemma HeaderFields()
    ensures Split(UNITS_COLUMN + "\t" + COUNTRY_CODE_COLUMN, '\t') == [UNITS_COLUMN, COUNTRY_CODE_COLUMN]
    ensures Columns([UNITS_COLUMN, COUNTRY_CODE_COLUMN]) == Some((0, 1))
  {
    var header := [UNITS_COLUMN, COUNTRY_CODE_COLUMN];
    assert UNITS_COLUMN + "\t" + COUNTRY_CODE_COLUMN == Join(header, '\t');
    SplitJoin(header, '\t');
  }
}
