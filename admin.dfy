/**
 * The administrator's screen (admin.py): the static login, the attendance
 * table loaded from `attendance.csv`, the inclusive date filter, and the
 * three exports of the current view (`displayed_df`), which can differ from
 * the table after a load that failed.
 *
 * `pd.read_csv` with `header=None` and the three column names is modelled on
 * the file's rows: an existing but empty file gives an empty frame, since the
 * names fix the columns.  `pd.to_datetime` raises on a stamp it cannot read;
 * in a tkinter callback such an exception abandons the rest of the callback,
 * which the model reproduces (`Unreadable`).
 */
module Admin {
  import opened Wrappers
  import opened Timestamps
  import opened Storage

  const ADMIN_EMAIL: string := "admin"
  const ADMIN_PASSWORD: string := "123"

  /** The credential check of `login`. */
  predicate ValidCredentials(email: string, password: string)
  {
    email == ADMIN_EMAIL && password == ADMIN_PASSWORD
  }

  /** One row of the loaded DataFrame: `Name`, parsed `Timestamp`, `Type`. */
  datatype Record = Record(name: string, at: DateTime, kind: string)

  /** What reading `attendance.csv` into a DataFrame gives. */
  datatype ReadResult = Missing | Unreadable | Loaded(records: seq<Record>)

  /** `df["Timestamp"] = pd.to_datetime(df["Timestamp"])` on one row. */
  function ParseRow(row: Row): Option<Record>
  {
    match ParseStamp(row.stamp)
    case None => None
    case Some(t) => Some(Record(row.name, t, row.kind))
  }

  /** Every row parsed, in file order, or nothing when some stamp does not parse. */
  function ParseRows(rows: seq<Row>): (r: Option<seq<Record>>)
    ensures r.Some? <==> forall i :: 0 <= i < |rows| ==> ParseRow(rows[i]).Some?
    ensures r.Some? ==> |r.value| == |rows| && forall i :: 0 <= i < |rows| ==> r.value[i] == ParseRow(rows[i]).value
  {
    ConvertAll(rows, ParseRow)
  }

  /**
   * A column conversion that raises on the first value it cannot convert:
   * every value converted, in order, or nothing.
   */
  function ConvertAll<A, B>(xs: seq<A>, convert: A -> Option<B>): (r: Option<seq<B>>)
    ensures r.Some? <==> forall i :: 0 <= i < |xs| ==> convert(xs[i]).Some?
    ensures r.Some? ==> |r.value| == |xs| && forall i :: 0 <= i < |xs| ==> r.value[i] == convert(xs[i]).value
  {
    if xs == [] then Some([])
    else
      var n := |xs| - 1;
      match ConvertAll(xs[..n], convert)
      case None =>
        assert forall i :: 0 <= i < n ==> xs[..n][i] == xs[i];
        None
      case Some(prefix) =>
        match convert(xs[n])
        case None => None
        case Some(y) =>
          assert forall i :: 0 <= i < n ==> xs[..n][i] == xs[i];
          Some(prefix + [y])
  }

  /** `os.path.exists`, `pd.read_csv(..., header=None)` and `pd.to_datetime` on the ledger file. */
  function ReadLedger(content: Option<seq<Row>>): (r: ReadResult)
    ensures r.Missing? <==> content.None?
    ensures r.Unreadable? <==> content.Some? && ParseRows(content.value).None?
    ensures r.Loaded? ==> r.records == ParseRows(content.value).value
    ensures content == Some([]) ==> r == Loaded([])
  {
    match content
    case None => Missing
    case Some(rows) =>
      match ParseRows(rows)
      case None => Unreadable
      case Some(records) => Loaded(records)
  }

  /** How the table shows a record: `(Name, Timestamp.strftime("%Y-%m-%d %H:%M:%S"), Type)`. */
  function DisplayRow(r: Record): Row
    requires ValidDateTime(r.at)
  {
    Row(r.name, FormatStamp(r.at), r.kind)
  }

  predicate AllValid(rs: seq<Record>)
  {
    forall i :: 0 <= i < |rs| ==> ValidDateTime(rs[i].at)
  }

  function DisplayRows(rs: seq<Record>): (rows: seq<Row>)
    requires AllValid(rs)
    ensures |rows| == |rs| && forall i :: 0 <= i < |rs| ==> rows[i] == DisplayRow(rs[i])
  {
    if rs == [] then [] else DisplayRows(rs[..|rs| - 1]) + [DisplayRow(rs[|rs| - 1])]
  }

  /** The display of one more record is one more display row. */
  lemma DisplayRowsExtend(rs: seq<Record>, i: nat)
    requires AllValid(rs) && i < |rs|
    ensures DisplayRows(rs[..i + 1]) == DisplayRows(rs[..i]) + [DisplayRow(rs[i])]
  {
    assert rs[..i + 1][..i] == rs[..i];
  }

  /** A loaded file shows its rows exactly as they were written. */
  lemma LoadedShowsFileRows(rows: seq<Row>)
    requires ReadLedger(Some(rows)).Loaded?
    ensures AllValid(ReadLedger(Some(rows)).records)
    ensures DisplayRows(ReadLedger(Some(rows)).records) == rows
  {
    var rs := ReadLedger(Some(rows)).records;
    forall i | 0 <= i < |rows| ensures ValidDateTime(rs[i].at) && DisplayRow(rs[i]) == rows[i] {
      FormatParseStamp(rows[i].stamp);
    }
  }

  /**
   * A line appended by the attendance screen reads back as one more record at
   * the end, holding the name, the moment and the type that were written.
   */
  lemma AppendReadsBack(content: Option<seq<Row>>, name: string, t: DateTime, kind: string)
    requires ValidDateTime(t)
    requires ReadLedger(content).Loaded? || RowsOf(content) == []
    ensures var before := if ReadLedger(content).Loaded? then ReadLedger(content).records else [];
            ReadLedger(Some(RowsOf(content) + [Row(name, FormatStamp(t), kind)])) == Loaded(before + [Record(name, t, kind)])
  {
    var rows := RowsOf(content);
    var row := Row(name, FormatStamp(t), kind);
    ParseFormatStamp(t);
    assert ParseRow(row) == Some(Record(name, t, kind));
    assert ParseRows(rows).Some?;
    ConvertOneMore(rows, row, ParseRow);
  }

  /** Converting one more value that converts appends its result. */
  lemma ConvertOneMore<A, B>(xs: seq<A>, x: A, convert: A -> Option<B>)
    requires ConvertAll(xs, convert).Some? && convert(x).Some?
    ensures ConvertAll(xs + [x], convert) == Some(ConvertAll(xs, convert).value + [convert(x).value])
  {
    assert (xs + [x])[..|xs|] == xs;
  }

  // ----- the date filter -----

  /** The mask of `apply_date_filter`: `start <= Timestamp <= end + 1 day - 1 second`. */
  predicate InView(r: Record, start: Date, end: Date)
    requires ValidDateTime(r.at) && ValidDate(start) && ValidDate(end)
  {
    InDateRange(SecondsOf(r.at), start, end)
  }

  /** `df.loc[mask]`. */
  function FilterByDate(rs: seq<Record>, start: Date, end: Date): (view: seq<Record>)
    requires AllValid(rs) && ValidDate(start) && ValidDate(end)
    ensures AllValid(view)
  {
    if rs == [] then []
    else
      var n := |rs| - 1;
      FilterByDate(rs[..n], start, end) + (if InView(rs[n], start, end) then [rs[n]] else [])
  }

  /** Positions of `rs` the mask keeps, in order. */
  function KeptPositions(rs: seq<Record>, start: Date, end: Date): seq<nat>
    requires AllValid(rs) && ValidDate(start) && ValidDate(end)
  {
    if rs == [] then []
    else
      var n := |rs| - 1;
      KeptPositions(rs[..n], start, end) + (if InView(rs[n], start, end) then [n] else [])
  }

  /**
   * The filtered view is the order-preserving subsequence of the records at
   * exactly the positions whose timestamp passes the mask.
   */
  lemma FilterKeepsInRangeInOrder(rs: seq<Record>, start: Date, end: Date)
    requires AllValid(rs) && ValidDate(start) && ValidDate(end)
    ensures var view, pos := FilterByDate(rs, start, end), KeptPositions(rs, start, end);
            && |view| == |pos|
            && (forall k :: 0 <= k < |pos| ==> pos[k] < |rs| && view[k] == rs[pos[k]])
            && (forall a, b :: 0 <= a < b < |pos| ==> pos[a] < pos[b])
            && (forall i :: 0 <= i < |rs| ==> (i in pos <==> InView(rs[i], start, end)))
  {
    KeptPositionsAscending(rs, start, end);
    FilterAtKeptPositions(rs, start, end);
    KeptPositionsExact(rs, start, end);
  }

  lemma {:induction false} KeptPositionsAscending(rs: seq<Record>, start: Date, end: Date)
    requires AllValid(rs) && ValidDate(start) && ValidDate(end)
    ensures forall k :: 0 <= k < |KeptPositions(rs, start, end)| ==> KeptPositions(rs, start, end)[k] < |rs|
    ensures forall a, b :: 0 <= a < b < |KeptPositions(rs, start, end)| ==>
              KeptPositions(rs, start, end)[a] < KeptPositions(rs, start, end)[b]
  {
    if rs != [] {
      var n := |rs| - 1;
      var p := rs[..n];
      assert AllValid(p);
      KeptPositionsAscending(p, start, end);
      assert |p| == n;
    }
  }

  lemma {:induction false} FilterAtKeptPositions(rs: seq<Record>, start: Date, end: Date)
    requires AllValid(rs) && ValidDate(start) && ValidDate(end)
    ensures |FilterByDate(rs, start, end)| == |KeptPositions(rs, start, end)|
    ensures forall k :: 0 <= k < |KeptPositions(rs, start, end)| ==>
              KeptPositions(rs, start, end)[k] < |rs| && FilterByDate(rs, start, end)[k] == rs[KeptPositions(rs, start, end)[k]]
  {
    if rs != [] {
      var n := |rs| - 1;
      var p := rs[..n];
      assert AllValid(p);
      FilterAtKeptPositions(p, start, end);
      var pos' := KeptPositions(p, start, end);
      forall k | 0 <= k < |pos'| ensures rs[pos'[k]] == p[pos'[k]] { }
    }
  }

  lemma {:induction false} KeptPositionsExact(rs: seq<Record>, start: Date, end: Date)
    requires AllValid(rs) && ValidDate(start) && ValidDate(end)
    ensures forall i :: 0 <= i < |rs| ==> (i in KeptPositions(rs, start, end) <==> InView(rs[i], start, end))
  {
    if rs != [] {
      var n := |rs| - 1;
      var p := rs[..n];
      assert AllValid(p);
      KeptPositionsExact(p, start, end);
      KeptPositionsAscending(p, start, end);
      var pos' := KeptPositions(p, start, end);
      assert forall k :: 0 <= k < |pos'| ==> pos'[k] < n;
      assert n !in pos';
      forall i | 0 <= i < n
        ensures i in KeptPositions(rs, start, end) <==> InView(rs[i], start, end)
      {
        assert p[i] == rs[i];
      }
    }
  }

  /** A record is in the view exactly when it is one of the records and passes the mask. */
  lemma FilterMembership(rs: seq<Record>, start: Date, end: Date, r: Record)
    requires AllValid(rs) && ValidDate(start) && ValidDate(end)
    ensures r in FilterByDate(rs, start, end) <==> r in rs && InView(r, start, end)
  {
    FilterKeepsInRangeInOrder(rs, start, end);
    var view, pos := FilterByDate(rs, start, end), KeptPositions(rs, start, end);
    if r in view {
      var k :| 0 <= k < |view| && view[k] == r;
      assert pos[k] in pos;
    }
    if r in rs && InView(r, start, end) {
      var i :| 0 <= i < |rs| && rs[i] == r;
      assert i in pos;
      var k :| 0 <= k < |pos| && pos[k] == i;
      assert view[k] == r;
    }
  }

  /**
   * Both ends are inclusive: a record at 23:59:59 on the end date is kept, one
   * at midnight starting the next day is not, and one at midnight on the
   * start date is kept.
   */
  lemma FilterBoundaries(start: Date, end: Date, r: Record)
    requires ValidDate(start) && ValidDate(end) && ValidDateTime(r.at)
    ensures r.at == DateTime(end, 23, 59, 59) && !DateBefore(end, start) ==> InView(r, start, end)
    ensures r.at == DateTime(start, 0, 0, 0) && !DateBefore(end, start) ==> InView(r, start, end)
    ensures r.at.hour == 0 && r.at.minute == 0 && r.at.second == 0 && DayNumber(r.at.date) == DayNumber(end) + 1
            ==> !InView(r, start, end)
  {
    DayNumberOrder(end, start);
  }

  /** A start date after the end date leaves nothing in the view. */
  lemma FilterEmptyWhenReversed(rs: seq<Record>, start: Date, end: Date)
    requires AllValid(rs) && ValidDate(start) && ValidDate(end)
    requires DateBefore(end, start)
    ensures FilterByDate(rs, start, end) == []
  {
    DayNumberOrder(end, start);
    FilterKeepsInRangeInOrder(rs, start, end);
  }

  /**
   * Stamps 2024-01-01 00:00:00, 2024-01-01 23:59:59 and 2024-01-02 00:00:00
   * filtered on 2024-01-01 .. 2024-01-01 keep the first two.
   */
  lemma FilterOneDayExample(a: Record, b: Record, c: Record)
    requires a.at == DateTime(Date(2024, 1, 1), 0, 0, 0)
    requires b.at == DateTime(Date(2024, 1, 1), 23, 59, 59)
    requires c.at == DateTime(Date(2024, 1, 2), 0, 0, 0)
    ensures AllValid([a, b, c])
    ensures FilterByDate([a, b, c], Date(2024, 1, 1), Date(2024, 1, 1)) == [a, b]
  {
    var d := Date(2024, 1, 1);
    assert ValidDate(d) && ValidDate(c.at.date);
    assert InView(a, d, d) by { InDateRangeIffBetween(a.at, d, d); }
    assert InView(b, d, d) by { InDateRangeIffBetween(b.at, d, d); }
    assert !InView(c, d, d) by { InDateRangeIffBetween(c.at, d, d); }
    assert FilterByDate([a], d, d) == [a] by { assert [a][..0] == []; }
    assert FilterByDate([a, b], d, d) == [a, b] by { assert [a, b][..1] == [a]; }
    assert [a, b, c][..2] == [a, b];
  }

  // ----- the screen -----

  /** The table contents after `load_attendance` on a file with `content`. */
  function LoadedView(previous: seq<Record>, content: Option<seq<Row>>): seq<Record>
  {
    match ReadLedger(content)
    case Missing => []
    case Unreadable => previous
    case Loaded(rs) => rs
  }

  datatype ExportFormat = Csv | Excel | Pdf

  /** One file written by an export: its format and the records it holds. */
  datatype Export = Export(format: ExportFormat, records: seq<Record>)

  /** `AdminApp`: `displayed_df`, the tree view's rows, and the exports written so far. */
  class AdminApp {
    var panelShown: bool
    var displayed: seq<Record>
    var tree: seq<Row>
    var exports: seq<Export>
    const file: LedgerFile

    /** Every displayed timestamp is a real moment. */
    ghost predicate Valid()
      reads this
    {
      AllValid(displayed)
    }

    constructor (file: LedgerFile)
      ensures Valid()
      ensures !panelShown && displayed == [] && tree == [] && exports == [] && this.file == file
    {
      this.file := file;
      panelShown := false;
      displayed := [];
      tree := [];
      exports := [];
    }

    /** `login`: only the static credentials open the panel, which then loads the table. */
    method Login(email: string, password: string) returns (ok: bool)
      requires Valid() && !panelShown
      modifies this
      ensures Valid()
      ensures ok == ValidCredentials(email, password)
      ensures ok ==> panelShown && displayed == LoadedView(old(displayed), file.content)
      ensures ok ==> ReadLedger(file.content).Loaded? ==> tree == DisplayRows(displayed)
      ensures ok ==> !ReadLedger(file.content).Loaded? ==> tree == []
      ensures ok ==> exports == old(exports)
      ensures !ok ==> !panelShown && displayed == old(displayed) && tree == old(tree) && exports == old(exports)
    {
      ok := email == ADMIN_EMAIL && password == ADMIN_PASSWORD;
      if ok {
        panelShown := true;
        tree := [];
        LoadAttendance();
      }
    }

    /** The `for ... iterrows(): tree.insert(...)` loop. */
    method FillTree(rs: seq<Record>)
      requires AllValid(rs)
      modifies this`tree
      ensures tree == old(tree) + DisplayRows(rs)
    {
      var i := 0;
      while i < |rs|
        invariant 0 <= i <= |rs|
        invariant tree == old(tree) + DisplayRows(rs[..i])
      {
        DisplayRowsExtend(rs, i);
        tree := tree + [DisplayRow(rs[i])];
        i := i + 1;
      }
      assert rs[..i] == rs;
    }

    /** `load_attendance` (also the "Reset" button): the whole file, in file order. */
    method LoadAttendance()
      requires Valid()
      modifies this`displayed, this`tree
      ensures Valid()
      ensures displayed == LoadedView(old(displayed), file.content)
      ensures ReadLedger(file.content).Loaded? ==> tree == DisplayRows(displayed)
      ensures !ReadLedger(file.content).Loaded? ==> tree == []
    {
      tree := [];
      var read := ReadLedger(file.content);
      match read
      case Missing =>
        displayed := [];
      case Unreadable =>
      case Loaded(rs) =>
        LoadedShowsFileRows(file.content.value);
        displayed := rs;
        FillTree(rs);
    }

    /** `apply_date_filter` with the two date pickers' dates. */
    method ApplyDateFilter(start: Date, end: Date)
      requires Valid() && ValidDate(start) && ValidDate(end)
      modifies this`displayed, this`tree
      ensures Valid()
      ensures ReadLedger(file.content).Loaded? ==>
                var view := FilterByDate(ReadLedger(file.content).records, start, end);
                displayed == view && tree == DisplayRows(view)
      ensures !ReadLedger(file.content).Loaded? ==> displayed == old(displayed) && tree == old(tree)
    {
      var read := ReadLedger(file.content);
      if read.Loaded? {
        LoadedShowsFileRows(file.content.value);
        var view := FilterByDate(read.records, start, end);
        displayed := view;
        tree := [];
        FillTree(view);
      }
    }

    /** The shared guard of the three exports: nothing is written for an empty table. */
    method ExportView(format: ExportFormat) returns (written: bool)
      requires Valid()
      modifies this`exports
      ensures written <==> displayed != []
      ensures exports == if written then old(exports) + [Export(format, displayed)] else old(exports)
    {
      if displayed == [] {
        return false;
      }
      exports := exports + [Export(format, displayed)];
      return true;
    }

    method ExportCsv() returns (written: bool)
      requires Valid()
      modifies this`exports
      ensures written <==> displayed != []
      ensures exports == if written then old(exports) + [Export(Csv, displayed)] else old(exports)
    {
      written := ExportView(Csv);
    }

    method ExportExcel() returns (written: bool)
      requires Valid()
      modifies this`exports
      ensures written <==> displayed != []
      ensures exports == if written then old(exports) + [Export(Excel, displayed)] else old(exports)
    {
      written := ExportView(Excel);
    }

    method ExportPdf() returns (written: bool)
      requires Valid()
      modifies this`exports
      ensures written <==> displayed != []
      ensures exports == if written then old(exports) + [Export(Pdf, displayed)] else old(exports)
    {
      written := ExportView(Pdf);
    }
  }
}
