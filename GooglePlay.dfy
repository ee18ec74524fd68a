/**
 * The Android fetcher `get_google_play_data`: pick the monthly overview
 * export of the target date out of the bucket, keep the rows of the
 * target day, and emit one sheet row per country with installs.
 */
module GooglePlay {
  import opened Wrappers
  import opened Integers
  import opened Calendar
  import opened Rows

  /** One CSV line as `csv.DictReader` hands it over: column name to cell text. */
  type Record = map<string, string>

  /** What `exists()` and the download give for a blob name that is a key of the bucket. */
  datatype StoreObject =
    | Csv(records: seq<Record>)  // downloaded, decoded and read by `csv.DictReader`
    | AccessDenied               // `Forbidden` from `exists()` or the download
    | DownloadFailed             // any other exception from `exists()` or the download

  /** The bucket: a blob exists exactly when its name is a key. */
  type Bucket = map<string, StoreObject>

  /** The exceptions the record loop does not catch. */
  datatype RecordError =
    | MissingDate              // `KeyError` from `row['Date']`
    | BadInstalls(text: string)  // `ValueError` from `int(...)` on the installs cell

  const DATE_COLUMN := "Date"
  const INSTALLS_COLUMN := "Daily User Installs"
  const COUNTRY_COLUMN := "Country"
  const UNKNOWN_COUNTRY := "Unknown"

  const BLOB_PREFIX := "stats/installs/installs_"
  const BLOB_SUFFIX := "_overview.csv"

  /**
   * Where the export for the month of `target` lives: the prefix, the
   * package name, an underscore, the six-digit month key, the suffix.
   */
  function BlobName(packageName: string, target: CalendarDate): (name: string)
    ensures var p := |BLOB_PREFIX| + |packageName|;
      && |name| == p + 7 + |BLOB_SUFFIX|
      && name[..|BLOB_PREFIX|] == BLOB_PREFIX
      && name[|BLOB_PREFIX|..p] == packageName
      && name[p] == '_'
      && name[p + 1..p + 7] == YearMonth(target)
      && name[p + 7..] == BLOB_SUFFIX
  {
    BLOB_PREFIX + packageName + "_" + YearMonth(target) + BLOB_SUFFIX
  }

  /** `row.get('Country', 'Unknown')`: the cell when the column is there, `Unknown` otherwise. */
  function CountryOf(rec: Record): (country: string)
    ensures COUNTRY_COLUMN in rec ==> country == rec[COUNTRY_COLUMN]
    ensures COUNTRY_COLUMN !in rec ==> country == UNKNOWN_COUNTRY
  {
    if COUNTRY_COLUMN in rec then rec[COUNTRY_COLUMN] else UNKNOWN_COUNTRY
  }

  /** A record that makes the loop raise: no `Date`, or the target day with an installs cell `int()` rejects. */
  predicate Raises(rec: Record, day: string) {
    || DATE_COLUMN !in rec
    || (rec[DATE_COLUMN] == day && INSTALLS_COLUMN in rec && ParseInt(rec[INSTALLS_COLUMN]).None?)
  }

  /** A record that yields a sheet row: the target day and a positive installs count. */
  predicate Emits(rec: Record, day: string) {
    && DATE_COLUMN in rec && rec[DATE_COLUMN] == day
    && INSTALLS_COLUMN in rec
    && ParseInt(rec[INSTALLS_COLUMN]).Some? && ParseInt(rec[INSTALLS_COLUMN]).value > 0
  }

  /** One pass of the record loop body. */
  function RecordOutcome(rec: Record, day: string): (o: Result<Option<Row>, RecordError>)
    ensures o.Err? <==> Raises(rec, day)
    ensures Produces(o) <==> Emits(rec, day)
    ensures Produces(o) ==>
      o.value.value == Row(day, CountryOf(rec), Android, ParseInt(rec[INSTALLS_COLUMN]).value)
    ensures INSTALLS_COLUMN !in rec ==> !Produces(o)
  {
    if DATE_COLUMN !in rec then Err(MissingDate)
    else if rec[DATE_COLUMN] != day then Ok(None)
    else
      var parsed := if INSTALLS_COLUMN in rec then ParseInt(rec[INSTALLS_COLUMN]) else Some(0);
      match parsed
      case None => Err(BadInstalls(rec[INSTALLS_COLUMN]))
      case Some(installs) =>
        if installs > 0 then Ok(Some(Row(rec[DATE_COLUMN], CountryOf(rec), Android, installs)))
        else Ok(None)
  }

  function DayOutcomes(records: seq<Record>, day: string): (outs: seq<Result<Option<Row>, RecordError>>)
    ensures |outs| == |records|
    ensures forall k | 0 <= k < |records| :: outs[k] == RecordOutcome(records[k], day)
  {
    seq(|records|, k requires 0 <= k < |records| => RecordOutcome(records[k], day))
  }

  /** The rows of day `day` in the parsed export, or the exception the loop raises. */
  function FilterDay(records: seq<Record>, day: string): (r: Result<seq<Row>, Failure<RecordError>>)
    ensures r.Ok? ==> |r.value| <= |records|
    ensures r.Err? ==>
      && r.error.index < |records|
      && RecordOutcome(records[r.error.index], day) == Err(r.error.cause)
  {
    var outs := DayOutcomes(records, day);
    var r := Collect(outs);
    if r.Err? then CollectFirstFailure(outs); r else r
  }

  /** `get_google_play_data(target)` with the bucket as input. */
  function GooglePlayData(bucket: Bucket, packageName: string, target: CalendarDate)
    : (r: Result<seq<Row>, Failure<RecordError>>)
    ensures BlobName(packageName, target) !in bucket ==> r == Ok([])
    ensures BlobName(packageName, target) in bucket && !bucket[BlobName(packageName, target)].Csv?
      ==> r == Ok([])
  {
    var name := BlobName(packageName, target);
    if name !in bucket then Ok([])
    else match bucket[name]
      case Csv(records) => FilterDay(records, IsoDate(target))
      case AccessDenied => Ok([])
      case DownloadFailed => Ok([])
  }

  /** The fetcher as the script runs it: one pass over the records, appending as it goes. */
  method GetGooglePlayData(bucket: Bucket, packageName: string, target: CalendarDate)
    returns (r: Result<seq<Row>, Failure<RecordError>>)
    ensures r == GooglePlayData(bucket, packageName, target)
  {
    var name := BlobName(packageName, target);
    if name !in bucket {
      return Ok([]);
    }
    match bucket[name]
    case AccessDenied =>
      return Ok([]);
    case DownloadFailed =>
      return Ok([]);
    case Csv(records) =>
      var day := IsoDate(target);
      ghost var outs := DayOutcomes(records, day);
      assert GooglePlayData(bucket, packageName, target) == Collect(outs);
      var data := [];
      var i := 0;
      while i < |records|
        invariant 0 <= i <= |records|
        invariant Collect(outs[..i]) == Ok(data)
      {
        var row := records[i];
        CollectStep(outs, i);
        if DATE_COLUMN !in row {
          CollectStops(outs, i + 1);
          return Err(Failure(i, MissingDate));
        }
        if row[DATE_COLUMN] == day {
          var installs := 0;
          if INSTALLS_COLUMN in row {
            var parsed := ParseInt(row[INSTALLS_COLUMN]);
            if parsed.None? {
              CollectStops(outs, i + 1);
              return Err(Failure(i, BadInstalls(row[INSTALLS_COLUMN])));
            }
            installs := parsed.value;
          }
          var country := if COUNTRY_COLUMN in row then row[COUNTRY_COLUMN] else UNKNOWN_COUNTRY;
          if installs > 0 {
            data := data + [Row(row[DATE_COLUMN], country, Android, installs)];
          }
        }
        i := i + 1;
      }
      assert outs[..i] == outs;
      return Ok(data);
  }

  /**
   * Every emitted row comes from its own record of the target day, with
   * platform Android, the day as date, the record's installs (> 0) and its
   * country or `Unknown`; rows keep record order; every record of the
   * target day with positive installs is emitted.
   */
  lemma AndroidRowsFromRecords(records: seq<Record>, day: string)
    requires FilterDay(records, day).Ok?
    ensures var rows := FilterDay(records, day).value; var src := Kept(DayOutcomes(records, day));
      && |rows| == |src| <= |records|
      && (forall i, j | 0 <= i < j < |src| :: src[i] < src[j])
      && (forall j | 0 <= j < |rows| ::
            && src[j] < |records| && Emits(records[src[j]], day)
            && rows[j] == Row(day, CountryOf(records[src[j]]), Android,
                              ParseInt(records[src[j]][INSTALLS_COLUMN]).value))
      && (forall k | 0 <= k < |records| :: k in src <==> Emits(records[k], day))
  {
    CollectKept(DayOutcomes(records, day));
  }

  /** What every Android row says: the target day, platform Android, a positive count. */
  lemma AndroidRowsShape(records: seq<Record>, day: string)
    requires FilterDay(records, day).Ok?
    ensures forall row | row in FilterDay(records, day).value ::
      row.date == day && row.platform == Android && row.count > 0
  {
    AndroidRowsFromRecords(records, day);
    var rows := FilterDay(records, day).value;
    forall row | row in rows
      ensures row.date == day && row.platform == Android && row.count > 0
    {
      var j :| 0 <= j < |rows| && rows[j] == row;
    }
  }

  /**
   * The loop raises exactly when some record raises, and then with the
   * first such record; any record before it is fine.
   */
  lemma AndroidFailure(records: seq<Record>, day: string)
    ensures FilterDay(records, day).Ok? <==> forall k | 0 <= k < |records| :: !Raises(records[k], day)
    ensures FilterDay(records, day).Err? ==>
      var f := FilterDay(records, day).error;
      && f.index < |records| && Raises(records[f.index], day)
      && forall k | 0 <= k < f.index :: !Raises(records[k], day)
  {
    var outs := DayOutcomes(records, day);
    CollectSucceeds(outs);
    if Collect(outs).Err? {
      CollectFirstFailure(outs);
    }
  }

  /** Two target dates read the same blob exactly when they are in the same month. */
  lemma SameBlobSameMonth(packageName: string, a: CalendarDate, b: CalendarDate)
    ensures BlobName(packageName, a) == BlobName(packageName, b) <==>
      a.year == b.year && a.month == b.month
  {
    YearMonthInjective(a, b);
  }

  /** The Android row of the worked example: 5 installs in the US on 2024-03-01. */
  lemma AndroidExample()
    ensures var rec := map[DATE_COLUMN := "2024-03-01", COUNTRY_COLUMN := "US", INSTALLS_COLUMN := "5"];
      FilterDay([rec], "2024-03-01") == Ok([Row("2024-03-01", "US", Android, 5)])
  {
    var rec := map[DATE_COLUMN := "2024-03-01", COUNTRY_COLUMN := "US", INSTALLS_COLUMN := "5"];
    ParseIntDigits("5");
    assert DigitsValue("5") == 5 by {
      assert "5"[..0] == [];
    }
    assert rec[DATE_COLUMN] == "2024-03-01" && rec[INSTALLS_COLUMN] == "5" && CountryOf(rec) == "US";
    var outs := DayOutcomes([rec], "2024-03-01");
    assert outs[0] == Ok(Some(Row("2024-03-01", "US", Android, 5)));
    assert outs[..0] == [];
    assert Collect(outs[..0]) == Ok([]);
    assert Collect(outs) == Ok([] + [Row("2024-03-01", "US", Android, 5)]);
    assert [] + [Row("2024-03-01", "US", Android, 5)] == [Row("2024-03-01", "US", Android, 5)];
    assert FilterDay([rec], "2024-03-01") == Ok([Row("2024-03-01", "US", Android, 5)]);
  }
}
