/** The admin logs page: which poll's report is fetched, and the CSV export of a report. */
module LogsPage {
  import opened Seqs
  import opened Text
  import opened Schemas

  /** The report fetched for the selected poll: none while no poll, or a poll id of 0
      (falsy), is selected. */
  function LogsRequest(selectedPollId: Option<int>): (r: Option<int>)
    ensures r.Some? <==> selectedPollId.Some? && selectedPollId.value != 0
    ensures r.Some? ==> r == selectedPollId
  {
    if selectedPollId.Some? && selectedPollId.value != 0 then selectedPollId else None
  }

  const Header: seq<string> := ["Roll No", "Name", "Status", "Marked At"]
  const PresentLabel: string := "Present"

  /** A value as `Array.join` writes it: `null` becomes the empty string. */
  function Cell(v: Option<string>): (c: string)
    ensures v.Some? ==> c == v.value
    ensures v.None? ==> c == ""
  {
    if v.Some? then v.value else ""
  }

  /** The cells of one record: roll number, name, the literal status, formatted time. */
  function RecordCells(r: AttendanceRecordResponse, formatDateTime: int -> string): (cells: seq<string>)
    ensures |cells| == |Header|
    ensures cells[0] == Cell(r.studentRollNo) && cells[1] == Cell(r.studentName)
    ensures cells[2] == PresentLabel && cells[3] == formatDateTime(r.markedAt)
  {
    [Cell(r.studentRollNo), Cell(r.studentName), PresentLabel, formatDateTime(r.markedAt)]
  }

  /** The header row followed by one row per record, in record order. */
  function Rows(records: seq<AttendanceRecordResponse>, formatDateTime: int -> string): (rows: seq<seq<string>>)
    ensures |rows| == |records| + 1
    ensures rows[0] == Header
    ensures forall i :: 0 <= i < |records| ==> rows[i + 1] == RecordCells(records[i], formatDateTime)
  {
    [Header] + seq(|records|, i requires 0 <= i < |records| => RecordCells(records[i], formatDateTime))
  }

  /** Each row joined with commas, no quoting or escaping. */
  function Lines(rows: seq<seq<string>>): (lines: seq<string>)
    ensures |lines| == |rows|
    ensures forall i :: 0 <= i < |rows| ==> lines[i] == Join(rows[i], ',')
  {
    seq(|rows|, i requires 0 <= i < |rows| => Join(rows[i], ','))
  }

  /** `handleExport`: nothing without a loaded report; otherwise the lines joined with newlines. */
  function ExportCsv(logs: Option<AttendanceLogResponse>, formatDateTime: int -> string): (csv: Option<string>)
    ensures csv.Some? <==> logs.Some?
  {
    if logs.None? then None
    else Some(Join(Lines(Rows(logs.value.records, formatDateTime)), '\n'))
  }

  /** No cell of the record contains a comma or a newline. */
  predicate PlainRecord(r: AttendanceRecordResponse, formatDateTime: int -> string) {
    forall k :: 0 <= k < 4 ==> ',' !in RecordCells(r, formatDateTime)[k] && '\n' !in RecordCells(r, formatDateTime)[k]
  }

  /** Every row, the header included, has cells and none of them holds a comma or a newline. */
  lemma RowsArePlain(records: seq<AttendanceRecordResponse>, formatDateTime: int -> string)
    requires forall i :: 0 <= i < |records| ==> PlainRecord(records[i], formatDateTime)
    ensures forall i :: 0 <= i < |Rows(records, formatDateTime)| ==>
      && |Rows(records, formatDateTime)[i]| > 0
      && forall k :: 0 <= k < |Rows(records, formatDateTime)[i]| ==>
           ',' !in Rows(records, formatDateTime)[i][k] && '\n' !in Rows(records, formatDateTime)[i][k]
  {
    var rows := Rows(records, formatDateTime);
    assert forall k :: 0 <= k < |Header| ==> ',' !in Header[k] && '\n' !in Header[k];
    forall i | 0 <= i < |rows|
      ensures (forall k :: 0 <= k < |rows[i]| ==> ',' !in rows[i][k] && '\n' !in rows[i][k])
      ensures |rows[i]| > 0
    {
      if i > 0 {
        assert rows[i] == RecordCells(records[i - 1], formatDateTime);
      }
    }
  }

  /** Reading the export back: when no cell holds a comma or a newline, the file has one
      line per record plus the header, and each line splits into exactly its row's four
      cells, so the header line is `Roll No,Name,Status,Marked At`. */
  lemma {:induction false} CsvShape(logs: AttendanceLogResponse, formatDateTime: int -> string)
    requires forall i :: 0 <= i < |logs.records| ==> PlainRecord(logs.records[i], formatDateTime)
    ensures |Split(ExportCsv(Some(logs), formatDateTime).value, '\n')| == |logs.records| + 1
    ensures Split(Split(ExportCsv(Some(logs), formatDateTime).value, '\n')[0], ',') == Header
    ensures forall i :: 0 <= i < |logs.records| ==>
      Split(Split(ExportCsv(Some(logs), formatDateTime).value, '\n')[i + 1], ',') == RecordCells(logs.records[i], formatDateTime)
  {
    var rows := Rows(logs.records, formatDateTime);
    var lines := Lines(rows);
    RowsArePlain(logs.records, formatDateTime);
    forall i | 0 <= i < |lines| ensures '\n' !in lines[i] && Split(lines[i], ',') == rows[i] {
      NotInJoin(rows[i], ',', '\n');
      SplitJoin(rows[i], ',');
    }
    SplitJoin(lines, '\n');
  }
}
