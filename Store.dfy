/**
 * The world the pipeline acts on: the output directory tree (directories
 * and generated stub files), the markdown source tree, and the SQLite
 * database as a map from table name (one table per category) to its
 * schema and rows. I/O failures are an input: `faults` names the I/O
 * calls that fail during one operation.
 */
module Store {
  import opened Wrappers

  type Path = string

  /** `Path::join` for a relative component. */
  function Join(dir: Path, name: string): Path
  {
    dir + "/" + name
  }

  /** The configuration the operations read: where the site lives and where the markdown lives. */
  datatype Config = Config(baseDir: Path, contentDir: string)

  /** A category's output directory, `base_dir/category`. */
  function CategoryPath(cfg: Config, category: string): Path
  {
    Join(cfg.baseDir, category)
  }

  /** The I/O calls an operation makes, each of which may fail. */
  datatype Fault =
    | MakeDir      // fs::create_dir_all
    | WriteChain   // fs::write of chain.php
    | WriteStub    // fs::write of <file_name>.php
    | OpenStore    // Connection::open
    | CreateTable  // CREATE TABLE IF NOT EXISTS
    | QueryRow     // SELECT 1 ... WHERE file_name = ?
    | InsertRow    // INSERT INTO ...
    | ReadSource   // fs::read_to_string of the markdown source
    | UpdateRows   // UPDATE ... SET text = ?, preview_html = ?

  datatype Error =
    | CategoryMissing(category: string)
    | SourceMissing(path: Path)
    | NoEntry(fileName: string)
    | IoFailure(at: Fault)
    | StoreFailure(at: Fault)
    | Panicked  // the byte slice of the preview cut inside a character

  datatype Outcome = Done | Failed(error: Error)

  datatype ColumnType = AutoIncrementKey | TextColumn | IntegerColumn

  datatype Column = Column(name: string, kind: ColumnType)

  /** The fixed schema of every category table. */
  const POST_SCHEMA: seq<Column> := [
    Column("id", AutoIncrementKey),
    Column("header", TextColumn),
    Column("text", TextColumn),
    Column("date_splash", TextColumn),
    Column("date_order", IntegerColumn),
    Column("file_name", TextColumn),
    Column("preview_html", TextColumn),
    Column("show", TextColumn),
    Column("tags", TextColumn)
  ]

  /** One row of a category table, a field per column of `POST_SCHEMA`; `None` is SQL NULL. */
  datatype Row = Row(
    id: nat,
    header: Option<string>,
    text: Option<string>,
    dateSplash: Option<string>,
    dateOrder: Option<int>,
    fileName: Option<string>,
    previewHtml: Option<string>,
    show: Option<string>,
    tags: Option<string>)

  datatype Table = Table(schema: seq<Column>, rows: seq<Row>)

  datatype World = World(
    dirs: set<Path>,
    files: map<Path, string>,
    tables: map<string, Table>,
    sources: map<Path, string>)

  /** The world after an operation, and what the operation returned. */
  datatype Step = Step(world: World, outcome: Outcome)

  /** `Path::exists` on the output tree. */
  predicate Exists(w: World, p: Path)
  {
    p in w.dirs || p in w.files
  }

  /** Auto-increment keys: ids grow with insertion order, so they are unique. */
  predicate IdsIncreasing(rows: seq<Row>)
  {
    forall i, j :: 0 <= i < j < |rows| ==> rows[i].id < rows[j].id
  }

  /** No path is both a directory and a file, and every table's keys are unique. */
  predicate ValidWorld(w: World)
  {
    && w.dirs !! w.files.Keys
    && forall name :: name in w.tables ==> IdsIncreasing(w.tables[name].rows)
  }

  /** `SELECT 1 FROM t WHERE file_name = ?` returns a row. */
  predicate HasEntry(rows: seq<Row>, fileName: string)
  {
    exists i :: 0 <= i < |rows| && rows[i].fileName == Some(fileName)
  }

  /** Number of rows whose `file_name` is `fileName`. */
  function Entries(rows: seq<Row>, fileName: string): nat
    decreases |rows|
  {
    if rows == [] then 0
    else (if rows[0].fileName == Some(fileName) then 1 else 0) + Entries(rows[1..], fileName)
  }

  lemma {:induction false} EntriesPositive(rows: seq<Row>, fileName: string)
    ensures Entries(rows, fileName) > 0 <==> HasEntry(rows, fileName)
    decreases |rows|
  {
    if rows != [] {
      EntriesPositive(rows[1..], fileName);
      if HasEntry(rows, fileName) && rows[0].fileName != Some(fileName) {
        var i :| 0 <= i < |rows| && rows[i].fileName == Some(fileName);
        assert rows[1..][i - 1].fileName == Some(fileName);
      }
      if HasEntry(rows[1..], fileName) {
        var i :| 0 <= i < |rows[1..]| && rows[1..][i].fileName == Some(fileName);
        assert rows[i + 1].fileName == Some(fileName);
      }
    }
  }

  lemma {:induction false} EntriesAppend(rows: seq<Row>, row: Row, fileName: string)
    ensures Entries(rows + [row], fileName) == Entries(rows, fileName) + (if row.fileName == Some(fileName) then 1 else 0)
    decreases |rows|
  {
    if rows == [] {
      assert [] + [row] == [row];
    } else {
      assert (rows + [row])[1..] == rows[1..] + [row];
      EntriesAppend(rows[1..], row, fileName);
    }
  }

  /** The id AUTOINCREMENT gives the next row: above every id in the table. */
  function NextId(rows: seq<Row>): (r: nat)
    ensures r >= 1 && forall i :: 0 <= i < |rows| ==> rows[i].id < r
    decreases |rows|
  {
    if rows == [] then 1
    else
      var rest := NextId(rows[1..]);
      assert forall i :: 1 <= i < |rows| ==> rows[i] == rows[1..][i - 1];
      if rows[0].id + 1 > rest then rows[0].id + 1 else rest
  }

  /**
   * `INSERT INTO t (file_name, date_splash, header, show, tags) VALUES (?, ?, ?, "", " ")`:
   * the new row gets the next id, an empty `show`, a one-space `tags`,
   * and NULL in every other column.
   */
  function Insert(rows: seq<Row>, fileName: string, date: string, header: string): (r: seq<Row>)
    ensures |r| == |rows| + 1 && r[..|rows|] == rows
    ensures Entries(r, fileName) == Entries(rows, fileName) + 1 && HasEntry(r, fileName)
  {
    var row := Row(NextId(rows), Some(header), None, Some(date), None, Some(fileName), None, Some(""), Some(" "));
    EntriesAppend(rows, row, fileName);
    EntriesPositive(rows + [row], fileName);
    rows + [row]
  }

  lemma InsertProperties(rows: seq<Row>, fileName: string, date: string, header: string)
    requires IdsIncreasing(rows)
    ensures var r := Insert(rows, fileName, date, header);
      && IdsIncreasing(r)
      && Entries(r, fileName) == Entries(rows, fileName) + 1
      && (forall g :: g != fileName ==> Entries(r, g) == Entries(rows, g))
  {
    var r := Insert(rows, fileName, date, header);
    EntriesAppend(rows, r[|rows|], fileName);
    forall g | g != fileName
      ensures Entries(r, g) == Entries(rows, g)
    {
      EntriesAppend(rows, r[|rows|], g);
    }
  }

  /** The row after `SET text = html, preview_html = preview` when its `file_name` matches. */
  function WithContent(row: Row, fileName: string, html: string, preview: string): Row
  {
    if row.fileName == Some(fileName) then row.(text := Some(html), previewHtml := Some(preview)) else row
  }

  /** `UPDATE t SET text = ?, preview_html = ? WHERE file_name = ?`. */
  function SetContent(rows: seq<Row>, fileName: string, html: string, preview: string): (r: seq<Row>)
    ensures |r| == |rows|
    ensures forall i :: 0 <= i < |rows| ==> r[i].id == rows[i].id && r[i].fileName == rows[i].fileName
    decreases |rows|
  {
    if rows == [] then []
    else [WithContent(rows[0], fileName, html, preview)] + SetContent(rows[1..], fileName, html, preview)
  }

  /**
   * The update touches exactly the rows whose `file_name` matches, and in
   * them only `text` and `preview_html`; every other row and column, the
   * row order and the ids stay as they were.
   */
  lemma {:induction false} SetContentAt(rows: seq<Row>, fileName: string, html: string, preview: string)
    ensures var r := SetContent(rows, fileName, html, preview);
      && |r| == |rows|
      && forall i :: 0 <= i < |rows| ==>
           && r[i].id == rows[i].id && r[i].fileName == rows[i].fileName
           && r[i].header == rows[i].header && r[i].dateSplash == rows[i].dateSplash
           && r[i].dateOrder == rows[i].dateOrder && r[i].show == rows[i].show && r[i].tags == rows[i].tags
           && (rows[i].fileName == Some(fileName) ==> r[i].text == Some(html) && r[i].previewHtml == Some(preview))
           && (rows[i].fileName != Some(fileName) ==> r[i] == rows[i])
    decreases |rows|
  {
    if rows != [] {
      SetContentAt(rows[1..], fileName, html, preview);
      var r := SetContent(rows, fileName, html, preview);
      assert forall i :: 1 <= i < |rows| ==> r[i] == SetContent(rows[1..], fileName, html, preview)[i - 1] && rows[i] == rows[1..][i - 1];
    }
  }

  /** The update keeps ids increasing and keeps which rows match every file name. */
  lemma SetContentKeeps(rows: seq<Row>, fileName: string, html: string, preview: string, g: string)
    ensures IdsIncreasing(rows) ==> IdsIncreasing(SetContent(rows, fileName, html, preview))
    ensures HasEntry(SetContent(rows, fileName, html, preview), g) <==> HasEntry(rows, g)
  {
    SetContentAt(rows, fileName, html, preview);
  }

  /** Running the same update twice leaves the rows as the first run did. */
  lemma SetContentIdempotent(rows: seq<Row>, fileName: string, html: string, preview: string)
    ensures var once := SetContent(rows, fileName, html, preview);
      SetContent(once, fileName, html, preview) == once
  {
    var once := SetContent(rows, fileName, html, preview);
    SetContentAt(rows, fileName, html, preview);
    SetContentAt(once, fileName, html, preview);
  }
}
