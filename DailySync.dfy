/**
 * The entry point of the sync script: fetch the Android rows, fetch the
 * iOS rows, concatenate them, and hand the result to `update_sheet`,
 * which appends it to the worksheet in one batch unless it is empty.
 */
module DailySync {
  import opened Wrappers
  import opened Calendar
  import opened Rows
  import opened GooglePlay
  import opened AppStore

  /** What `update_sheet(new_rows)` asks of the spreadsheet service. */
  datatype SheetCall = NoWrite | AppendRows(batch: seq<Row>)

  /** `update_sheet`: one batch append of all the rows, or no call at all for an empty list. */
  function UpdateSheet(newRows: seq<Row>): (c: SheetCall)
    ensures c.NoWrite? <==> newRows == []
    ensures c.AppendRows? ==> c.batch == newRows
  {
    if newRows == [] then NoWrite else AppendRows(newRows)
  }

  /** The worksheet's rows after the call: appended rows go after the existing ones. */
  function Applied(sheet: seq<Row>, c: SheetCall): (after: seq<Row>)
    ensures |after| >= |sheet| && after[..|sheet|] == sheet
    ensures c.NoWrite? ==> after == sheet
    ensures c.AppendRows? ==> after[|sheet|..] == c.batch
  {
    match c
    case NoWrite => sheet
    case AppendRows(batch) => sheet + batch
  }

  /** `android_data + ios_data`. */
  function Combine(android: seq<Row>, ios: seq<Row>): (all: seq<Row>)
    ensures |all| == |android| + |ios|
    ensures all[..|android|] == android && all[|android|..] == ios
  {
    android + ios
  }

  /**
   * How a run ends: an exception escaped one of the fetchers and the
   * process stopped before `update_sheet`, or the run reached the sheet.
   */
  datatype RunOutcome = Aborted | Completed(call: SheetCall)

  /**
   * The `__main__` block for a given target date, bucket and sales-report
   * response: it stops before writing exactly when one of the fetchers
   * raises, and once both return it writes nothing exactly when both
   * found nothing.
   */
  function Run(bucket: Bucket, packageName: string, response: Response, target: CalendarDate)
    : (r: RunOutcome)
    ensures r.Aborted? <==>
      GooglePlayData(bucket, packageName, target).Err? || AppleData(response, target).Err?
    ensures r.Completed? ==>
      (r.call.NoWrite? <==>
        GooglePlayData(bucket, packageName, target).value == [] && AppleData(response, target).value == [])
  {
    match GooglePlayData(bucket, packageName, target)
    case Err(_) => Aborted
    case Ok(android) =>
      match AppleData(response, target)
      case Err(_) => Aborted
      case Ok(ios) => Completed(UpdateSheet(Combine(android, ios)))
  }

  /** Rows of one platform, all dated `date` and all with a positive count. */
  predicate PlatformRows(rows: seq<Row>, date: string, p: Platform) {
    forall k | 0 <= k < |rows| :: rows[k].date == date && rows[k].platform == p && rows[k].count > 0
  }

  /** Whatever the bucket holds, the Android fetcher's rows are Android rows of the target date. */
  lemma GooglePlayRows(bucket: Bucket, packageName: string, target: CalendarDate)
    requires GooglePlayData(bucket, packageName, target).Ok?
    ensures PlatformRows(GooglePlayData(bucket, packageName, target).value, IsoDate(target), Android)
  {
    var name := BlobName(packageName, target);
    if name in bucket && bucket[name].Csv? {
      var rows := GooglePlayData(bucket, packageName, target).value;
      AndroidRowsShape(bucket[name].records, IsoDate(target));
      assert forall k | 0 <= k < |rows| :: rows[k] in rows;
    }
  }

  /** Whatever the response, the iOS fetcher's rows are iOS rows of the target date. */
  lemma AppleRows(response: Response, target: CalendarDate)
    requires AppleData(response, target).Ok?
    ensures PlatformRows(AppleData(response, target).value, IsoDate(target), IOS)
  {
    if response.status == 200 && response.report.Some? {
      var rows := AppleData(response, target).value;
      AppleRowsShape(response.report.value, IsoDate(target));
      assert forall k | 0 <= k < |rows| :: rows[k] in rows;
    }
  }

  /**
   * A completed run writes nothing when both fetchers found nothing, and
   * otherwise appends one batch: the Android rows, then the iOS rows, each
   * in their own order, all dated with the target date and with a positive
   * count.
   */
  lemma RunWrites(bucket: Bucket, packageName: string, response: Response, target: CalendarDate)
    requires Run(bucket, packageName, response, target).Completed?
    ensures var android := GooglePlayData(bucket, packageName, target).value;
      var ios := AppleData(response, target).value;
      var call := Run(bucket, packageName, response, target).call;
      && (call.NoWrite? <==> android == [] && ios == [])
      && (call.AppendRows? ==>
            && call.batch[..|android|] == android && call.batch[|android|..] == ios
            && PlatformRows(call.batch[..|android|], IsoDate(target), Android)
            && PlatformRows(call.batch[|android|..], IsoDate(target), IOS))
  {
    GooglePlayRows(bucket, packageName, target);
    AppleRows(response, target);
  }

  /**
   * Nothing stops a second run for the same day: appending the same
   * non-empty batch again duplicates it in the sheet.
   */
  lemma RepeatedAppendDuplicates(sheet: seq<Row>, c: SheetCall)
    requires c.AppendRows? && c.batch != []
    ensures Applied(Applied(sheet, c), c) == sheet + c.batch + c.batch
    ensures Applied(Applied(sheet, c), c) != Applied(sheet, c)
  {
    assert |Applied(Applied(sheet, c), c)| == |sheet| + 2 * |c.batch|;
  }
}
