/**
 * `GoogleSheetsFeedStorage`: validates its options when constructed and, when
 * the crawl is done, writes the CSV feed into the worksheet named by the URI,
 * reconciling the header with what the worksheet already holds.
 */
module Exporter {
  import opened Wrappers
  import opened Uri
  import opened Items
  import opened Sheets

  /** The exceptions the component raises or lets through. */
  datatype Error =
    | NotConfigured(message: string)
      /** the plain `Exception` of `parse_gsheets_uri` */
    | BadUri(message: string)
      /** raised by `open_by_key` */
    | SpreadsheetNotFound(key: string)
      /** raised by `worksheet` */
    | WorksheetNotFound(name: string)
      /** `csv_data[0]` on an empty feed with no declared fields */
    | IndexError

  const MissingCredentialsMessage: string :=
    "Must specify GOOGLE_CREDENTIALS (dict) in the spider settings."

  function UnsupportedFormatMessage(format: string): string {
    "This feed exporter only supports csv format. "
    + "Please update the FEEDS settings by replacing " + format + " format."
  }

  /**
   * The keys of `feed_options` the component reads, each `None` when the key
   * is absent (an absent `feed_options` has every key absent).
   */
  datatype FeedOptions = FeedOptions(appendMode: Option<bool>, fields: Option<seq<string>>, format: Option<string>)

  /**
   * The spreadsheets the service account can open: spreadsheet key, then
   * worksheet title, to the worksheet.
   */
  type Account = map<string, map<string, Worksheet>>

  /** The attributes a successful construction leaves on the storage. */
  datatype Settings = Settings(
    spreadsheetKey: string,
    sheetName: string,
    sheet: Worksheet,
    appendMode: bool,
    fields: seq<string>,
    format: string)

  /**
   * What `__init__` ends with. Credentials are checked first; the URI is then
   * parsed and the spreadsheet and worksheet opened; the format is checked only
   * after that, so an unreachable worksheet is reported before a bad format.
   * Options that are not given take their defaults: not appending, no declared
   * fields, "csv".
   */
  function Configure(uri: string, credentials: map<string, string>, options: FeedOptions, account: Account)
    : (r: Result<Settings, Error>)
    ensures r == Failure(NotConfigured(MissingCredentialsMessage)) <==> credentials == map[]
    ensures r == Failure(BadUri(InvalidUriMessage)) <==> credentials != map[] && ParseUri(uri).Failure?
    ensures credentials != map[] && ParseUri(uri).Success? ==>
              var (key, name) := ParseUri(uri).value;
              && (r == Failure(SpreadsheetNotFound(key)) <==> key !in account)
              && (key in account ==> (r == Failure(WorksheetNotFound(name)) <==> name !in account[key]))
              && (key in account && name in account[key] ==>
                    && (r.Success? <==> options.format.GetOr("csv") == "csv")
                    && (options.format.GetOr("csv") != "csv" ==>
                          r == Failure(NotConfigured(UnsupportedFormatMessage(options.format.value)))))
    ensures r.Success? ==>
              && ParseUri(uri) == Success((r.value.spreadsheetKey, r.value.sheetName))
              && r.value.spreadsheetKey in account
              && r.value.sheetName in account[r.value.spreadsheetKey]
              && r.value.sheet == account[r.value.spreadsheetKey][r.value.sheetName]
              && r.value.format == "csv"
              && r.value.appendMode == options.appendMode.GetOr(false)
              && r.value.fields == options.fields.GetOr([])
    ensures r.Failure? && r.error.NotConfigured? && credentials != map[] ==>
              && ParseUri(uri).Success?
              && ParseUri(uri).value.0 in account
              && ParseUri(uri).value.1 in account[ParseUri(uri).value.0]
              && options.format.Some? && options.format.value != "csv"
    ensures options == FeedOptions(None, None, None) && r.Success? ==>
              !r.value.appendMode && r.value.fields == [] && r.value.format == "csv"
  {
    if credentials == map[] then Failure(NotConfigured(MissingCredentialsMessage))
    else match ParseUri(uri)
      case Failure(_) => Failure(BadUri(InvalidUriMessage))
      case Success((key, name)) =>
        if key !in account then Failure(SpreadsheetNotFound(key))
        else if name !in account[key] then Failure(WorksheetNotFound(name))
        else
          var format := options.format.GetOr("csv");
          if format != "csv" then Failure(NotConfigured(UnsupportedFormatMessage(format)))
          else Success(Settings(key, name, account[key][name],
                                options.appendMode.GetOr(false), options.fields.GetOr([]), format))
  }

  /** `self.fields or csv_data[0]`: the declared fields when there are any, else the CSV header. */
  function InitialHeader(fields: seq<string>, csv: seq<seq<string>>): (r: Result<seq<string>, Error>)
    ensures r.Failure? <==> fields == [] && csv == []
    ensures r.Failure? ==> r.error == IndexError
    ensures r.Success? ==> r.value == if fields != [] then fields else csv[0]
  {
    if fields != [] then Success(fields)
    else if csv == [] then Failure(IndexError)
    else Success(csv[0])
  }

  /**
   * The header the data rows are projected onto: in append mode a non-empty
   * row 1 of the worksheet replaces the initial header.
   */
  function EffectiveHeader(before: seq<Row>, appendMode: bool, fields: seq<string>, csv: seq<seq<string>>)
    : (r: Result<seq<string>, Error>)
    ensures r.Failure? <==> InitialHeader(fields, csv).Failure?
    ensures r.Success? ==>
              r.value == if appendMode && RowValues(before, 1) != [] then RowValues(before, 1)
                         else InitialHeader(fields, csv).value
  {
    match InitialHeader(fields, csv)
    case Failure(e) => Failure(e)
    case Success(header) =>
      if appendMode && RowValues(before, 1) != [] then Success(RowValues(before, 1)) else Success(header)
  }

  /** Each item projected onto the header, in order. */
  function ProjectAll(items: seq<Item>, header: seq<string>): seq<Row> {
    seq(|items|, k requires 0 <= k < |items| => Project(items[k], header))
  }

  /** The rows uploaded for the CSV's data rows. */
  function DataRows(csv: seq<seq<string>>, header: seq<string>): (rows: seq<Row>)
    ensures |rows| == |ItemsOf(csv)|
    ensures forall k | 0 <= k < |rows| :: |rows[k]| == |header|
  {
    ProjectAll(ItemsOf(csv), header)
  }

  /**
   * The worksheet after `_store_in_thread`, from the worksheet before it, the
   * storage's options and the parsed CSV: either the error raised (with the
   * worksheet untouched) or the new rows.
   */
  function Stored(before: seq<Row>, appendMode: bool, fields: seq<string>, csv: seq<seq<string>>)
    : (r: Result<seq<Row>, Error>)
    ensures r.Success? ==> |r.value| > |ItemsOf(csv)|
    ensures r.Success? && appendMode ==> before <= r.value
  {
    match EffectiveHeader(before, appendMode, fields, csv)
    case Failure(e) => Failure(e)
    case Success(header) =>
      Success(Kept(before, appendMode, header) + DataRows(csv, header))
  }

  /**
   * The worksheet after the header step: the header alone when not appending,
   * the old rows when row 1 is non-empty, else the old rows and the header.
   */
  function Kept(before: seq<Row>, appendMode: bool, header: seq<string>): (rows: seq<Row>)
    ensures |rows| >= 1
    ensures appendMode ==> before <= rows
    ensures !appendMode || RowValues(before, 1) == [] ==> rows[|rows| - 1] == TextRow(header)
  {
    if !appendMode then [TextRow(header)]
    else if RowValues(before, 1) != [] then before
    else before + [TextRow(header)]
  }

  /**
   * The data rows are projected onto the effective header, and they end the
   * worksheet. Row 1 then holds that header whenever the export wrote it or
   * found it there: when not appending, when appending to an empty worksheet,
   * and when row 1 was already non-empty.
   */
  lemma HeaderAligned(before: seq<Row>, appendMode: bool, fields: seq<string>, csv: seq<seq<string>>)
    requires fields != [] || csv != []
    ensures EffectiveHeader(before, appendMode, fields, csv).Success?
    ensures Stored(before, appendMode, fields, csv).Success?
    ensures var header := EffectiveHeader(before, appendMode, fields, csv).value;
            var after := Stored(before, appendMode, fields, csv).value;
            var data := DataRows(csv, header);
            |data| <= |after| && after[|after| - |data|..] == data
    ensures var header := EffectiveHeader(before, appendMode, fields, csv).value;
            var after := Stored(before, appendMode, fields, csv).value;
            !appendMode || before == [] || RowValues(before, 1) != [] ==> RowValues(after, 1) == header
  {
    var header := EffectiveHeader(before, appendMode, fields, csv).value;
    var after := Stored(before, appendMode, fields, csv).value;
    var data := DataRows(csv, header);
    var kept := Kept(before, appendMode, header);
    assert after == kept + data;
    assert after[|after| - |data|..] == data;
    if !appendMode || before == [] {
      assert kept + data == [TextRow(header)] + data;
      HeaderReadBack(header, data);
    } else if RowValues(before, 1) != [] {
      assert after == before + data;
      RowOneKept(before, data);
    }
  }

  /** A successful export is the header step's rows followed by the data rows. */
  lemma StoredKeptThenData(before: seq<Row>, appendMode: bool, fields: seq<string>, csv: seq<seq<string>>)
    requires fields != [] || csv != []
    ensures var header := EffectiveHeader(before, appendMode, fields, csv).value;
            Stored(before, appendMode, fields, csv) == Success(Kept(before, appendMode, header) + DataRows(csv, header))
  {
  }

  /** Projecting one more item adds its row at the end. */
  lemma ProjectAllSnoc(items: seq<Item>, i: nat, header: seq<string>)
    requires i < |items|
    ensures ProjectAll(items[..i + 1], header) == ProjectAll(items[..i], header) + [Project(items[i], header)]
  {
  }

  /** Appending a row after `a + b` appends it to `b`. */
  lemma SnocAssoc(a: seq<Row>, b: seq<Row>, x: Row)
    ensures (a + b) + [x] == a + (b + [x])
  {
  }

  /** Rows appended after a non-empty worksheet leave its row 1 as it was. */
  lemma RowOneKept(before: seq<Row>, rest: seq<Row>)
    requires before != []
    ensures RowValues(before + rest, 1) == RowValues(before, 1)
  {
    assert (before + rest)[0] == before[0];
  }

  /**
   * Each data row of the export: CSV row `k + 1` projected onto the effective
   * header, so every uploaded row is exactly as wide as the header.
   */
  lemma DataRowsSpec(csv: seq<seq<string>>, header: seq<string>)
    ensures |DataRows(csv, header)| == if csv == [] then 0 else |csv| - 1
    ensures forall k :: 0 <= k < |DataRows(csv, header)| ==>
              && |DataRows(csv, header)[k]| == |header|
              && DataRows(csv, header)[k] == Project(Zip(csv[0], csv[k + 1]), header)
  {
  }

  /** The export fails exactly when there are neither declared fields nor CSV rows. */
  lemma StoredFails(before: seq<Row>, appendMode: bool, fields: seq<string>, csv: seq<seq<string>>)
    ensures Stored(before, appendMode, fields, csv).Failure? <==> fields == [] && csv == []
    ensures Stored(before, appendMode, fields, csv).Failure? ==>
              Stored(before, appendMode, fields, csv).error == IndexError
  {
  }

  /**
   * Not appending: the worksheet ends as the header followed by one row per
   * CSV data row; nothing it held before survives.
   */
  lemma OverwriteResult(before: seq<Row>, fields: seq<string>, csv: seq<seq<string>>)
    requires fields != [] || csv != []
    ensures var header := if fields != [] then fields else csv[0];
            var after := Stored(before, false, fields, csv);
            && after.Success?
            && |after.value| == 1 + |DataRows(csv, header)|
            && after.value[0] == TextRow(header)
            && after.value[1..] == DataRows(csv, header)
    ensures forall other: seq<Row> :: Stored(other, false, fields, csv) == Stored(before, false, fields, csv)
  {
    var header := if fields != [] then fields else csv[0];
    assert ([TextRow(header)] + DataRows(csv, header))[1..] == DataRows(csv, header);
  }

  /**
   * Appending: what the worksheet held is an unchanged prefix of the result.
   * With a non-empty row 1 nothing but the data rows follows it, projected
   * onto row 1; otherwise the initial header comes first.
   */
  lemma AppendResult(before: seq<Row>, fields: seq<string>, csv: seq<seq<string>>)
    requires fields != [] || csv != []
    ensures var after := Stored(before, true, fields, csv).value;
            && Stored(before, true, fields, csv).Success?
            && |before| <= |after| && after[..|before|] == before
    ensures var after := Stored(before, true, fields, csv).value;
            var existing := RowValues(before, 1);
            existing != [] ==> after[|before|..] == DataRows(csv, existing)
    ensures var after := Stored(before, true, fields, csv).value;
            var header := if fields != [] then fields else csv[0];
            RowValues(before, 1) == [] ==>
              && after[|before|..] == [TextRow(header)] + DataRows(csv, header)
  {
    StoredKeptThenData(before, true, fields, csv);
    var after := Stored(before, true, fields, csv).value;
    var header := if fields != [] then fields else csv[0];
    var existing := RowValues(before, 1);
    if existing != [] {
      assert EffectiveHeader(before, true, fields, csv).value == existing;
      ConcatParts(before, DataRows(csv, existing));
    } else {
      assert EffectiveHeader(before, true, fields, csv).value == header;
      assert Kept(before, true, header) == before + [TextRow(header)];
      ConcatParts(before, [TextRow(header)] + DataRows(csv, header));
    }
  }

  /** A concatenation splits back into its two parts. */
  lemma ConcatParts(a: seq<Row>, b: seq<Row>)
    ensures |a| <= |a + b| && (a + b)[..|a|] == a && (a + b)[|a|..] == b
  {
  }

  /**
   * An append export following an export that wrote header `h` projects its
   * rows onto `h`, whatever fields it declares and whatever its CSV header is.
   */
  lemma AppendAfterOverwrite(before: seq<Row>, fields: seq<string>, csv: seq<seq<string>>,
                             fields2: seq<string>, csv2: seq<seq<string>>)
    requires fields != [] || csv != []
    requires fields2 != [] || csv2 != []
    requires var h := if fields != [] then fields else csv[0]; h != []
    ensures var h := if fields != [] then fields else csv[0];
            var first := Stored(before, false, fields, csv).value;
            Stored(first, true, fields2, csv2) == Success(first + DataRows(csv2, h))
  {
    var h := if fields != [] then fields else csv[0];
    var first := Stored(before, false, fields, csv).value;
    HeaderReadBack(h, DataRows(csv, h));
    assert RowValues(first, 1) == h;
  }

  /**
   * Not appending, CSV "name,age / Alice,30 / Bob,25": the worksheet ends with
   * exactly those three rows.
   */
  lemma OverwriteExample(before: seq<Row>)
    ensures Stored(before, false, [], [["name", "age"], ["Alice", "30"], ["Bob", "25"]])
            == Success([[Some("name"), Some("age")], [Some("Alice"), Some("30")], [Some("Bob"), Some("25")]])
  {
    var csv := [["name", "age"], ["Alice", "30"], ["Bob", "25"]];
    DistinctColumns("name", "age", "Alice", "30");
    DistinctColumns("name", "age", "Bob", "25");
    assert DataRows(csv, csv[0]) == [[Some("Alice"), Some("30")], [Some("Bob"), Some("25")]];
    assert TextRow(csv[0]) == [Some("name"), Some("age")];
    assert InitialHeader([], csv) == Success(csv[0]);
    var rows := [TextRow(csv[0])] + DataRows(csv, csv[0]);
    assert rows == [[Some("name"), Some("age")], [Some("Alice"), Some("30")], [Some("Bob"), Some("25")]];
    assert Stored(before, false, [], csv) == Success(rows);
    assert csv == [["name", "age"], ["Alice", "30"], ["Bob", "25"]];
  }

  /** A row under two distinct column names, projected onto those names, keeps its values. */
  lemma DistinctColumns(a: string, b: string, x: string, y: string)
    requires a != b
    ensures Project(Zip([a, b], [x, y]), [a, b]) == [Some(x), Some(y)]
  {
    assert [a, b][..2] == [a, b];
    assert LastIndexOf([a, b], a) == 0 by {
      assert [a, b][..1] == [a];
    }
    assert LastIndexOf([a, b], b) == 1;
    ProjectCell([a, b], [x, y], [a, b], 0);
    ProjectCell([a, b], [x, y], [a, b], 1);
  }

  class GoogleSheetsFeedStorage {
    var spreadsheetKey: string
    var sheetName: string
    var sheet: Worksheet
    var appendMode: bool
    var fields: seq<string>
    var format: string

    function Attributes(): Settings
      reads this
    {
      Settings(spreadsheetKey, sheetName, sheet, appendMode, fields, format)
    }

    constructor (spreadsheetKey: string, sheetName: string, sheet: Worksheet,
                 appendMode: bool, fields: seq<string>, format: string)
      ensures Attributes() == Settings(spreadsheetKey, sheetName, sheet, appendMode, fields, format)
    {
      this.spreadsheetKey := spreadsheetKey;
      this.sheetName := sheetName;
      this.sheet := sheet;
      this.appendMode := appendMode;
      this.fields := fields;
      this.format := format;
    }

    /**
     * `GoogleSheetsFeedStorage(uri, credentials, feed_options=...)`: a new
     * storage with the attributes `Configure` gives, or the exception it names.
     */
    static method New(uri: string, credentials: map<string, string>, options: FeedOptions, account: Account)
      returns (r: Result<GoogleSheetsFeedStorage, Error>)
      ensures Configure(uri, credentials, options, account).Failure? ==>
                r == Failure(Configure(uri, credentials, options, account).error)
      ensures Configure(uri, credentials, options, account).Success? ==>
                r.Success? && fresh(r.value) && r.value.Attributes() == Configure(uri, credentials, options, account).value
    {
      if credentials == map[] {
        return Failure(NotConfigured(MissingCredentialsMessage));
      }
      var parsed := ParseUri(uri);
      if parsed.Failure? {
        return Failure(BadUri(InvalidUriMessage));
      }
      var (key, name) := parsed.value;
      if key !in account {
        return Failure(SpreadsheetNotFound(key));
      }
      var spreadsheet := account[key];
      if name !in spreadsheet {
        return Failure(WorksheetNotFound(name));
      }
      var sheet := spreadsheet[name];
      var appendMode := options.appendMode.GetOr(false);
      var fields := options.fields.GetOr([]);
      var format := options.format.GetOr("csv");
      if format != "csv" {
        return Failure(NotConfigured(UnsupportedFormatMessage(format)));
      }
      var storage := new GoogleSheetsFeedStorage(key, name, sheet, appendMode, fields, format);
      return Success(storage);
    }

    /**
     * `_store_in_thread` on the parsed CSV: the worksheet becomes what `Stored`
     * says, or is left untouched when the header cannot be formed.
     */
    method Store(csvData: seq<seq<string>>) returns (r: Outcome<Error>)
      modifies sheet
      ensures match Stored(old(sheet.rows), appendMode, fields, csvData)
              case Failure(e) => r == Fail(e) && sheet.rows == old(sheet.rows)
              case Success(rows) => r == Pass && sheet.rows == rows
    {
      ghost var before := sheet.rows;
      var items := ItemsOf(csvData);
      if fields == [] && csvData == [] {
        return Fail(IndexError);
      }
      var header := if fields != [] then fields else csvData[0];
      if !appendMode {
        sheet.Clear();
        sheet.AppendRow(TextRow(header));
        assert sheet.rows == Kept(before, appendMode, header);
      } else {
        if RowValues(sheet.rows, 1) != [] {
          header := RowValues(sheet.rows, 1);
          assert sheet.rows == Kept(before, appendMode, header);
        } else {
          sheet.AppendRow(TextRow(header));
          assert sheet.rows == Kept(before, appendMode, header);
        }
      }
      ghost var start := sheet.rows;
      ghost var written: seq<Row> := [];
      var i := 0;
      while i < |items|
        invariant 0 <= i <= |items|
        invariant written == ProjectAll(items[..i], header)
        invariant sheet.rows == start + written
      {
        var row := Project(items[i], header);
        ProjectAllSnoc(items, i, header);
        SnocAssoc(start, written, row);
        sheet.AppendRow(row);
        written := written + [row];
        i := i + 1;
      }
      assert items[..i] == items;
      assert header == EffectiveHeader(before, appendMode, fields, csvData).value;
      StoredKeptThenData(before, appendMode, fields, csvData);
      return Pass;
    }
  }
}
