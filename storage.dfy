/**
 * The two pieces of durable state the four screens share: the `dataset`
 * folder of enrolment photographs (written by the registration screen,
 * listed and pruned by the user list, read once by the attendance screen)
 * and the `attendance.csv` ledger (appended to by the attendance screen,
 * read by the administrator's screen).
 */
module Storage {
  import opened Wrappers

  /** The pixel content of a photograph; nothing in the model looks inside it. */
  datatype Image = Image(pixels: seq<int>)

  /** The `dataset` folder: file name to file content. */
  class Dataset {
    var files: map<string, Image>

    constructor (files: map<string, Image>)
      ensures this.files == files
    {
      this.files := files;
    }
  }

  /** One line of `attendance.csv`: `[name, ts, typ]`, with `ts` as text. */
  datatype Row = Row(name: string, stamp: string, kind: string)

  /** The rows a ledger file holds; a missing file holds none. */
  function RowsOf(content: Option<seq<Row>>): seq<Row>
  {
    if content.Some? then content.value else []
  }

  /** `attendance.csv`: `None` while the file does not exist, else its rows in file order. */
  class LedgerFile {
    var content: Option<seq<Row>>

    constructor (content: Option<seq<Row>>)
      ensures this.content == content
    {
      this.content := content;
    }

    /** `open(ATTENDANCE_FILE, 'a')` then `csv.writer(f).writerow(row)`: creates the file if needed and adds one line at its end. */
    method Append(row: Row)
      modifies this
      ensures content == Some(RowsOf(old(content)) + [row])
    {
      content := Some(RowsOf(content) + [row]);
    }
  }
}
