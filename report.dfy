/**
 * What the prober shows and writes about its records: the log line of
 * each record (`[ERROR]`, `[+]`, `[-]`), the console table cells, and the
 * CSV rows of `save_csv`.
 */
module Report {
  import opened Wrappers
  import opened Strings
  import opened Query
  import opened Probe

  /** `if r["error"]:`: an error is set and its message is non-empty. */
  predicate ErrorTruthy(r: ProbeResult)
  {
    r.error.Some? && r.error.value != ""
  }

  /** The three kinds of log line. */
  datatype LineKind = ErrorLine | ParamsLine | NoParamsLine

  /** The branch a record takes: the error first, then the keys, then neither. */
  function Classify(r: ProbeResult): (k: LineKind)
    ensures k == ErrorLine <==> ErrorTruthy(r)
    ensures k == ParamsLine <==> !ErrorTruthy(r) && r.params != []
    ensures k == NoParamsLine <==> !ErrorTruthy(r) && r.params == []
  {
    if ErrorTruthy(r) then ErrorLine
    else if r.params != [] then ParamsLine
    else NoParamsLine
  }

  /** The tag that opens a line of each kind. */
  function Tag(k: LineKind): string
  {
    match k
    case ErrorLine => "[ERROR] "
    case ParamsLine => "[+] "
    case NoParamsLine => "[-] "
  }

  /** How an f-string renders the status: `None`, or the code in decimal. */
  function StatusText(status: Option<nat>): string
  {
    match status
    case None => "None"
    case Some(code) => Decimal(code)
  }

  /**
   * The log line of a record: `[ERROR] url -> error`, else
   * `[+] url -> params: k1, k2 (http s)`, else `[-] url -> no params (http s)`.
   */
  function LogLine(r: ProbeResult): (line: string)
    ensures KindOfLine(line) == Classify(r)
  {
    var detail :=
      match Classify(r)
      case ErrorLine => r.error.value
      case ParamsLine => "params: " + Join(", ", r.params) + " (http " + StatusText(r.status) + ")"
      case NoParamsLine => "no params (http " + StatusText(r.status) + ")";
    var line := Tag(Classify(r)) + r.url + " -> " + detail;
    assert line[1] == Tag(Classify(r))[1];
    line
  }

  /** A log line opens with its kind's tag, then the URL, and the kind can be read back from it. */
  lemma LogLineTagged(r: ProbeResult)
    ensures var line, tag := LogLine(r), Tag(Classify(r));
      && |tag| + |r.url| <= |line|
      && line[..|tag|] == tag
      && line[|tag|..|tag| + |r.url|] == r.url
      && KindOfLine(line) == Classify(r)
  {
    var line, tag := LogLine(r), Tag(Classify(r));
    assert line[..|tag|] == tag;
    assert line[1] == tag[1];
  }

  /** The kind a log line was written as, read back from its tag. */
  function KindOfLine(line: string): LineKind
  {
    if |line| > 1 && line[1] == 'E' then ErrorLine
    else if |line| > 1 && line[1] == '+' then ParamsLine
    else NoParamsLine
  }

  /** The log lines of the records, one per record, in order. */
  function LogLines(results: seq<ProbeResult>): (lines: seq<string>)
    ensures |lines| == |results|
    ensures forall i | 0 <= i < |results| :: lines[i] == LogLine(results[i])
  {
    seq(|results|, i requires 0 <= i < |results| => LogLine(results[i]))
  }
  /** One more record adds its log line at the end. */
  lemma LogLinesAppend(results: seq<ProbeResult>, r: ProbeResult)
    ensures LogLines(results + [r]) == LogLines(results) + [LogLine(r)]
  {
    assert forall i | 0 <= i < |results| :: (results + [r])[i] == results[i];
  }


  /** An error message takes precedence: the keys are not looked at. */
  lemma ErrorTakesPrecedence(r: ProbeResult, keys: seq<string>)
    requires ErrorTruthy(r)
    ensures KindOfLine(LogLine(r.(params := keys))) == ErrorLine
  {
    LogLineTagged(r.(params := keys));
  }

  /** A `[+]` line comes only from a probe that got a response. */
  lemma ParamsLineOnlyOnResponse(r: ProbeResult, unescape: Unescape)
    requires WellFormed(r, unescape)
    requires KindOfLine(LogLine(r)) == ParamsLine
    ensures r.error.None? && r.status.Some? && r.params == ExtractParams(r.url, unescape)
  {
    LogLineTagged(r);
  }

  /**
   * A failure whose message is empty is not an error for the log: its line
   * is `[-] url -> no params (http None)`.
   */
  lemma EmptyFailureLine(url: string, verb: string, data: Option<string>,
                         send: Request -> Exchange, unescape: Unescape)
    requires send(RequestFor(verb, data)).outcome == Failure("")
    ensures LogLine(CheckUrl(url, verb, data, send, unescape)) == "[-] " + url + " -> no params (http None)"
  {
    var r := CheckUrl(url, verb, data, send, unescape);
    assert r.error == Some("") && r.params == [] && r.status == None;
  }

  /** The status cell: the code, or `ERR` when the status is missing or 0. */
  function StatusCell(status: Option<nat>): (cell: string)
    ensures cell == "ERR" <==> status.None? || status.value == 0
  {
    if status.Some? && status.value != 0 then
      var d := Decimal(status.value);
      assert d[0] != 'E';
      d
    else "ERR"
  }

  /** The params cell: the keys joined with "," and no space, or `-` when there are none. */
  function ParamsCell(params: seq<string>): (cell: string)
    ensures cell == "-" <==> params == [] || params == ["-"]
  {
    if params != [] then
      JoinIsSingle(params, ',', "-");
      Join(",", params)
    else "-"
  }

  /** A join of parts is a text without the separator exactly when there is one part, that text. */
  lemma JoinIsSingle(parts: seq<string>, sep: char, t: string)
    requires |parts| >= 1 && sep !in t
    ensures Join([sep], parts) == t <==> parts == [t]
  {
    if |parts| > 1 {
      var j := Join([sep], parts);
      assert j == parts[0] + [sep] + Join([sep], parts[1..]);
      assert j[|parts[0]|] == sep;
    }
  }

  /** A params cell of keys without ',' splits back into the keys. */
  lemma ParamsCellSplits(params: seq<string>)
    requires params != [] && forall k | 0 <= k < |params| :: ',' !in params[k]
    ensures Split(ParamsCell(params), ',') == params
  {
    SplitJoin(params, ',');
  }

  /** The console table's columns. */
  const TableColumns: seq<string> := ["URL", "Status", "Params", "Time(ms)"]

  /** One table row: the URL, the status cell, the params cell, the time. */
  function TableRow(r: ProbeResult): (row: seq<string>)
    ensures |row| == |TableColumns|
    ensures row[0] == r.url && row[1] == StatusCell(r.status) && row[2] == ParamsCell(r.params)
  {
    [r.url, StatusCell(r.status), ParamsCell(r.params), Decimal(r.timeMs)]
  }

  /** What `pretty_print` shows after the banner: a table when `rich` is installed, the log lines otherwise. */
  datatype ConsoleView = RichTable(columns: seq<string>, rows: seq<seq<string>>) | PlainLines(lines: seq<string>)

  /** `pretty_print(results)`: one table row or one log line per record, in order. */
  function PrettyPrint(results: seq<ProbeResult>, richAvailable: bool): (view: ConsoleView)
    ensures view.RichTable? <==> richAvailable
    ensures view.RichTable? ==>
      && view.columns == TableColumns
      && |view.rows| == |results|
      && (forall i | 0 <= i < |results| :: view.rows[i] == TableRow(results[i]))
    ensures view.PlainLines? ==> view.lines == LogLines(results)
  {
    if richAvailable then
      RichTable(TableColumns, seq(|results|, i requires 0 <= i < |results| => TableRow(results[i])))
    else PlainLines(LogLines(results))
  }

  /** A value of the record dict. */
  datatype Field = Text(text: string) | Number(n: nat) | Null | Names(names: seq<string>)

  /** A record as a Python dict. */
  type Record = map<string, Field>

  /** The record `check_url` returns, as the dict `save_csv` reads. */
  function AsRecord(r: ProbeResult): Record
  {
    map[
      "url" := Text(r.url),
      "status" := (if r.status.Some? then Number(r.status.value) else Null),
      "params" := Names(r.params),
      "time_ms" := Number(r.timeMs),
      "error" := (if r.error.Some? then Text(r.error.value) else Null)]
  }

  /** The CSV header, which is also the column order. */
  const CsvColumns: seq<string> := ["url", "status", "params", "time_ms", "error"]

  /** `",".join(record.get("params", []))`: the keys joined with ",", or "" when there is no `params`. */
  function FlattenParams(rec: Record): string
    requires "params" in rec ==> rec["params"].Names?
  {
    if "params" in rec then Join(",", rec["params"].names) else ""
  }

  /**
   * The row `save_csv` writes for a record: a copy of it whose `params` is
   * the flattened text; every other key keeps its value.
   */
  function CsvRow(rec: Record): (row: Record)
    requires "params" in rec ==> rec["params"].Names?
    ensures row.Keys == rec.Keys + {"params"}
    ensures row["params"] == Text(FlattenParams(rec))
    ensures forall k | k in rec && k != "params" :: row[k] == rec[k]
  {
    rec["params" := Text(FlattenParams(rec))]
  }

  /** How the CSV writer renders a value: `None` as "", a number in decimal, a text as it is. */
  function CellText(f: Field): string
    requires !f.Names?
  {
    match f
    case Text(s) => s
    case Number(n) => Decimal(n)
    case Null => ""
  }

  /** The cells of a row in column order; a missing key gives "" (the writer's `restval`). */
  function RowCells(row: Record): (cells: seq<string>)
    requires forall k | k in row :: !row[k].Names?
    ensures |cells| == |CsvColumns|
  {
    seq(|CsvColumns|, i requires 0 <= i < |CsvColumns| =>
      if CsvColumns[i] in row then CellText(row[CsvColumns[i]]) else "")
  }

  /** The CSV cells of one record. */
  function CsvCells(r: ProbeResult): (cells: seq<string>)
    ensures |cells| == |CsvColumns|
  {
    var row := CsvRow(AsRecord(r));
    assert forall k | k in row :: !row[k].Names?;
    RowCells(row)
  }

  /** The rows `save_csv` writes: the header, then one row per record in order. */
  function CsvTable(results: seq<ProbeResult>): (rows: seq<seq<string>>)
  {
    [CsvColumns] + seq(|results|, i requires 0 <= i < |results| => CsvCells(results[i]))
  }

  /**
   * `save_csv`: write the header, then for each record copy it, replace its
   * `params` by the flattened text and write the row.
   */
  method SaveCsv(results: seq<ProbeResult>) returns (rows: seq<seq<string>>)
    ensures rows == CsvTable(results)
  {
    rows := [CsvColumns];
    var i := 0;
    while i < |results|
      invariant 0 <= i <= |results|
      invariant |rows| == i + 1 && rows[0] == CsvColumns
      invariant forall j | 0 <= j < i :: rows[j + 1] == CsvCells(results[j])
    {
      var row := AsRecord(results[i]);
      row := row["params" := Text(FlattenParams(row))];
      rows := rows + [RowCells(row)];
      i := i + 1;
    }
  }

  /** Reading a CSV row back into a record: "" is a missing status or error, the keys are split at ','. */
  function ReadRow(cells: seq<string>): ProbeResult
    requires |cells| == |CsvColumns|
  {
    ProbeResult(
      cells[0],
      if cells[1] == "" then None else Some(ParseDecimal(cells[1])),
      if cells[2] == "" then [] else Split(cells[2], ','),
      ParseDecimal(cells[3]),
      if cells[4] == "" then None else Some(cells[4]))
  }

  /** The cells of a record, column by column. */
  lemma CsvCellsAre(r: ProbeResult)
    ensures CsvCells(r) == [
      r.url,
      if r.status.Some? then Decimal(r.status.value) else "",
      Join(",", r.params),
      Decimal(r.timeMs),
      if r.error.Some? then r.error.value else ""]
  {
    var row := CsvRow(AsRecord(r));
    assert CsvColumns[0] == "url" && CsvColumns[1] == "status" && CsvColumns[2] == "params";
    assert CsvColumns[3] == "time_ms" && CsvColumns[4] == "error";
  }

  /**
   * A record comes back from its CSV row when no key holds ',', the keys
   * are not just one empty name, and an error message is non-empty.
   */
  lemma CsvRoundTrip(r: ProbeResult)
    requires forall k | 0 <= k < |r.params| :: ',' !in r.params[k]
    requires r.params != [""]
    requires r.error != Some("")
    ensures ReadRow(CsvCells(r)) == r
  {
    CsvCellsAre(r);
    if r.status.Some? {
      ParseDecimalInverts(r.status.value);
    }
    ParseDecimalInverts(r.timeMs);
    if r.params != [] {
      SplitJoin(r.params, ',');
      JoinIsSingle(r.params, ',', "");
    }
  }

  /** A key holding ',' is not told apart from two keys: `["x,y"]` and `["x", "y"]` give the same row. */
  lemma CsvMergesCommaKey(r: ProbeResult, x: string, y: string)
    ensures CsvCells(r.(params := [x + "," + y])) == CsvCells(r.(params := [x, y]))
  {
    CsvCellsAre(r.(params := [x + "," + y]));
    CsvCellsAre(r.(params := [x, y]));
  }

  /** An empty error message is written like no error at all. */
  lemma CsvMergesEmptyError(r: ProbeResult)
    ensures CsvCells(r.(error := Some(""))) == CsvCells(r.(error := None))
  {
    CsvCellsAre(r.(error := Some("")));
    CsvCellsAre(r.(error := None));
  }
}
