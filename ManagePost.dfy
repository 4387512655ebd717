/**
 * Post registration (`create_post`, `create_post_php`) and content
 * synchronisation (`process_markdown_file`) as transitions of the world.
 * Each function gives the world after the operation and its outcome;
 * the lemmas state what the operations promise and how they compose.
 */
module ManagePost {
  import opened Wrappers
  import opened Text
  import opened Dates
  import opened Preview
  import opened Stubs
  import opened Store

  /** The home directory substituted into the content directory. */
  const HOME: string := "/home/diego"

  /**
   * The content directory with every `~`, then every `$HOME`, replaced by
   * the home directory; neither placeholder is left afterwards.
   */
  function ContentRoot(contentDir: string): (r: string)
    ensures '~' !in r && !Occurs(r, "$HOME")
  {
    var once := Replace(contentDir, "~", HOME);
    ReplaceRemovesChar(contentDir, '~', HOME);
    ReplaceKeepsOut(once, "$HOME", HOME, '~');
    ReplaceLeavesNoPattern(once, "$HOME", HOME);
    Replace(once, "$HOME", HOME)
  }

  /** `content_dir/category/file_name.md`. */
  function SourcePath(cfg: Config, category: string, fileName: string): (r: Path)
    ensures var root := ContentRoot(cfg.contentDir);
      |r| > |root| + |category| + |fileName| + 2 && r[..|root|] == root && r[|r| - 3..] == ".md"
  {
    Join(Join(ContentRoot(cfg.contentDir), category), fileName + ".md")
  }

  /** `dir/file_name.php`. */
  function StubPath(dir: Path, fileName: string): Path
  {
    Join(dir, fileName + ".php")
  }

  /** A directory with neither placeholder is used as it is. */
  lemma ContentRootSubstitutes(contentDir: string)
    requires '~' !in contentDir && !Occurs(contentDir, "$HOME")
    ensures ContentRoot(contentDir) == contentDir
  {
    assert !Occurs(contentDir, "~") by {
      forall i: nat | i <= |contentDir|
        ensures !OccursAt(contentDir, "~", i)
      {
        if i < |contentDir| {
          assert contentDir[i] != '~';
        }
      }
    }
    ReplaceAbsent(contentDir, "~", HOME);
    ReplaceAbsent(contentDir, "$HOME", HOME);
  }

  /**
   * What the placeholders become: a leading `~` and a leading `$HOME` each
   * turn into the home directory, text free of both is kept, and the rest
   * is substituted on its own.
   */
  lemma ContentRootExpands(plain: string, rest: string)
    requires '~' !in plain && '$' !in plain
    ensures ContentRoot("~" + rest) == HOME + ContentRoot(rest)
    ensures ContentRoot("$HOME" + rest) == HOME + ContentRoot(rest)
    ensures ContentRoot(plain + rest) == plain + ContentRoot(rest)
  {
    var x := Replace(rest, "~", HOME);
    assert '$' !in HOME && '~' !in "$HOME";
    ReplaceFront("~", rest, HOME);
    ReplaceKeepsPrefix(HOME, x, "$HOME", HOME);
    ReplaceKeepsPrefix("$HOME", rest, "~", HOME);
    ReplaceFront("$HOME", x, HOME);
    ReplaceKeepsPrefix(plain, rest, "~", HOME);
    ReplaceKeepsPrefix(plain, x, "$HOME", HOME);
  }

  /** `create_post_php`: write the post stub into `dir`, only when no file or directory is there yet. */
  function PostStubStep(w: World, dir: Path, fileName: string, faults: set<Fault>): (r: Step)
    ensures r.world.dirs == w.dirs && r.world.tables == w.tables && r.world.sources == w.sources
    ensures r.outcome.Done? ==> Exists(r.world, StubPath(dir, fileName))
  {
    var path := StubPath(dir, fileName);
    if Exists(w, path) then Step(w, Done)
    else if WriteStub in faults || dir !in w.dirs then Step(w, Failed(IoFailure(WriteStub)))
    else Step(w.(files := w.files[path := PostStub(fileName)]), Done)
  }

  /**
   * The stub is written only when absent, and then holds exactly the post
   * stub text; an existing stub is left as it is; nothing else changes.
   * The step fails exactly when the stub is absent and the write fails,
   * or the directory is missing.
   */
  lemma PostStubContract(w: World, dir: Path, fileName: string, faults: set<Fault>)
    ensures var s, path := PostStubStep(w, dir, fileName, faults), StubPath(dir, fileName);
      && s.world.dirs == w.dirs && s.world.tables == w.tables && s.world.sources == w.sources
      && (forall p :: p != path ==> (p in s.world.files <==> p in w.files))
      && (forall p :: p != path && p in w.files ==> s.world.files[p] == w.files[p])
      && (Exists(w, path) ==> s == Step(w, Done))
      && (s.outcome.Done? && !Exists(w, path) ==> path in s.world.files && s.world.files[path] == PostStub(fileName))
      && (s.outcome.Done? ==> Exists(s.world, path))
      && (s.outcome.Failed? ==> s.world == w && s.outcome.error == IoFailure(WriteStub))
      && (s.outcome.Failed? <==> !Exists(w, path) && (WriteStub in faults || dir !in w.dirs))
  {
  }

  lemma PostStubKeepsValid(w: World, dir: Path, fileName: string, faults: set<Fault>)
    requires ValidWorld(w)
    ensures ValidWorld(PostStubStep(w, dir, fileName, faults).world)
  {
  }

  /** The existence query; a query that fails (a missing table, say) counts as "no row". */
  predicate EntryFound(w: World, category: string, fileName: string, faults: set<Fault>)
  {
    category in w.tables && QueryRow !in faults && HasEntry(w.tables[category].rows, fileName)
  }

  /** The query finds the post exactly when its table holds at least one row for it and the query itself does not fail. */
  lemma EntryFoundCounts(w: World, category: string, fileName: string, faults: set<Fault>)
    ensures EntryFound(w, category, fileName, faults) <==>
      category in w.tables && QueryRow !in faults && Entries(w.tables[category].rows, fileName) > 0
  {
    if category in w.tables {
      EntriesPositive(w.tables[category].rows, fileName);
    }
  }

  /**
   * `create_post`: the category directory must exist; the stub is written
   * if missing; a row is inserted unless the existence query finds one.
   */
  function RegisterStep(w: World, cfg: Config, category: string, fileName: string, header: string,
                        today: Date, faults: set<Fault>): (r: Step)
    requires IsCalendarDate(today)
    ensures r.world.dirs == w.dirs && r.world.sources == w.sources
    ensures r.outcome.Done? ==> category in r.world.tables && HasEntry(r.world.tables[category].rows, fileName)
  {
    var dir := CategoryPath(cfg, category);
    if !Exists(w, dir) then Step(w, Failed(CategoryMissing(category)))
    else
      var s := PostStubStep(w, dir, fileName, faults);
      if s.outcome.Failed? then s
      else if OpenStore in faults then Step(s.world, Failed(StoreFailure(OpenStore)))
      else if EntryFound(s.world, category, fileName, faults) then Step(s.world, Done)
      else if category !in s.world.tables || InsertRow in faults then Step(s.world, Failed(StoreFailure(InsertRow)))
      else
        var t := s.world.tables[category];
        var rows := Insert(t.rows, fileName, CustomDateFormat(today), header);
        assert rows[|t.rows|].fileName == Some(fileName);
        Step(s.world.(tables := s.world.tables[category := t.(rows := rows)]), Done)
  }

  /**
   * Registration into a category whose directory is missing fails and
   * changes nothing. Otherwise the stub is ensured first, so a failure at
   * the database still leaves it; on success the table holds a row for
   * the post, and a newly inserted row carries the given file name, date
   * and header, `show = ""`, `tags = " "`, and NULL elsewhere. Directories
   * and the source tree never change, nor does any other table, nor any
   * file but the stub; a failed stub write changes nothing. With the
   * directory and table in place and no failing write, open or insert,
   * registration succeeds.
   */
  lemma RegisterContract(w: World, cfg: Config, category: string, fileName: string, header: string,
                         today: Date, faults: set<Fault>)
    requires IsCalendarDate(today)
    ensures var s := RegisterStep(w, cfg, category, fileName, header, today, faults);
      var dir := CategoryPath(cfg, category);
      var stub := StubPath(dir, fileName);
      && (!Exists(w, dir) ==> s == Step(w, Failed(CategoryMissing(category))))
      && s.world.dirs == w.dirs && s.world.sources == w.sources
      && (forall t :: t != category ==> (t in s.world.tables <==> t in w.tables))
      && (forall t :: t != category && t in w.tables ==> s.world.tables[t] == w.tables[t])
      && (forall p :: p != stub ==> (p in s.world.files <==> p in w.files))
      && (forall p :: p != stub && p in w.files ==> s.world.files[p] == w.files[p])
      && (Exists(w, stub) ==> s.world.files == w.files)
      && (stub in s.world.files && !Exists(w, stub) ==> s.world.files[stub] == PostStub(fileName))
      && (s.outcome == Failed(IoFailure(WriteStub)) ==> s.world == w)
      && (s.outcome.Failed? && s.outcome.error.StoreFailure? ==> Exists(s.world, stub))
      && (dir in w.dirs && category in w.tables && WriteStub !in faults && OpenStore !in faults && InsertRow !in faults ==>
            s.outcome == Done)
      && (s.outcome.Done? ==>
            && Exists(s.world, stub)
            && category in s.world.tables
            && HasEntry(s.world.tables[category].rows, fileName))
      && (s.outcome.Done? && !EntryFound(w, category, fileName, faults) ==>
            var old_rows := w.tables[category].rows;
            var rows := s.world.tables[category].rows;
            && category in w.tables
            && rows[..|old_rows|] == old_rows
            && |rows| == |old_rows| + 1
            && rows[|old_rows|] == Row(NextId(old_rows), Some(header), None, Some(CustomDateFormat(today)),
                                       None, Some(fileName), None, Some(""), Some(" ")))
      && (s.outcome.Done? && EntryFound(w, category, fileName, faults) ==> s.world.tables == w.tables)
  {
    var s := RegisterStep(w, cfg, category, fileName, header, today, faults);
    if s.outcome.Done? && !EntryFound(w, category, fileName, faults) {
      var old_rows := w.tables[category].rows;
      var rows := s.world.tables[category].rows;
      assert rows == old_rows + [rows[|old_rows|]];
      assert rows[|old_rows|].fileName == Some(fileName);
    }
  }

  lemma RegisterKeepsValid(w: World, cfg: Config, category: string, fileName: string, header: string,
                           today: Date, faults: set<Fault>)
    requires ValidWorld(w) && IsCalendarDate(today)
    ensures ValidWorld(RegisterStep(w, cfg, category, fileName, header, today, faults).world)
  {
    var dir := CategoryPath(cfg, category);
    if Exists(w, dir) {
      var s := PostStubStep(w, dir, fileName, faults);
      PostStubKeepsValid(w, dir, fileName, faults);
      if s.outcome.Done? && OpenStore !in faults && !EntryFound(s.world, category, fileName, faults)
         && category in s.world.tables && InsertRow !in faults {
        InsertProperties(s.world.tables[category].rows, fileName, CustomDateFormat(today), header);
      }
    }
  }

  /**
   * Registering again after a successful registration changes nothing,
   * provided the existence query of the second call does not fail.
   */
  lemma RegisterIdempotent(w: World, cfg: Config, category: string, fileName: string, header: string,
                           today: Date, faults: set<Fault>, later: Date, laterFaults: set<Fault>)
    requires IsCalendarDate(today) && IsCalendarDate(later)
    requires RegisterStep(w, cfg, category, fileName, header, today, faults).outcome.Done?
    requires QueryRow !in laterFaults
    ensures var once := RegisterStep(w, cfg, category, fileName, header, today, faults).world;
      RegisterStep(once, cfg, category, fileName, header, later, laterFaults).world == once
  {
    RegisterContract(w, cfg, category, fileName, header, today, faults);
  }

  /** A fresh post registered twice has exactly one row. */
  lemma RegisterTwiceOneRow(w: World, cfg: Config, category: string, fileName: string, header: string,
                            today: Date, faults: set<Fault>, later: Date, laterFaults: set<Fault>)
    requires IsCalendarDate(today) && IsCalendarDate(later)
    requires category in w.tables && !HasEntry(w.tables[category].rows, fileName)
    requires RegisterStep(w, cfg, category, fileName, header, today, faults).outcome.Done?
    requires QueryRow !in laterFaults
    ensures var once := RegisterStep(w, cfg, category, fileName, header, today, faults).world;
      var twice := RegisterStep(once, cfg, category, fileName, header, later, laterFaults).world;
      category in twice.tables && Entries(twice.tables[category].rows, fileName) == 1
  {
    RegisterContract(w, cfg, category, fileName, header, today, faults);
    RegisterIdempotent(w, cfg, category, fileName, header, today, faults, later, laterFaults);
    var rows := w.tables[category].rows;
    var once := RegisterStep(w, cfg, category, fileName, header, today, faults).world;
    EntriesPositive(rows, fileName);
    var newRows := once.tables[category].rows;
    assert newRows == rows + [newRows[|rows|]];
    EntriesAppend(rows, newRows[|rows|], fileName);
  }

  /**
   * A failed existence query reads as "no row", so a post that already has
   * a row gets a second one when the query fails and the insert succeeds.
   */
  lemma RegisterDuplicatesOnFailedQuery(w: World, cfg: Config, category: string, fileName: string, header: string,
                                        today: Date, faults: set<Fault>)
    requires IsCalendarDate(today)
    requires CategoryPath(cfg, category) in w.dirs && category in w.tables
    requires QueryRow in faults && WriteStub !in faults && OpenStore !in faults && InsertRow !in faults
    ensures var s := RegisterStep(w, cfg, category, fileName, header, today, faults);
      && s.outcome.Done?
      && category in s.world.tables
      && Entries(s.world.tables[category].rows, fileName) == Entries(w.tables[category].rows, fileName) + 1
  {
    var rows := w.tables[category].rows;
    var s := RegisterStep(w, cfg, category, fileName, header, today, faults);
    var newRows := s.world.tables[category].rows;
    assert newRows == rows + [newRows[|rows|]];
    EntriesAppend(rows, newRows[|rows|], fileName);
  }

  /**
   * `process_markdown_file`: find the source, check that the post has a
   * row, render the markdown, derive the preview, update the post's rows,
   * and repair the stub if it is missing.
   */
  function SyncStep(w: World, cfg: Config, category: string, fileName: string,
                    render: string -> string, faults: set<Fault>): (r: Step)
    ensures r.world.dirs == w.dirs && r.world.sources == w.sources && r.world.tables.Keys == w.tables.Keys
    ensures r.outcome.Failed? && r.outcome.error != IoFailure(WriteStub) ==> r.world == w
  {
    var src := SourcePath(cfg, category, fileName);
    if src !in w.sources then Step(w, Failed(SourceMissing(src)))
    else if OpenStore in faults then Step(w, Failed(StoreFailure(OpenStore)))
    else if !EntryFound(w, category, fileName, faults) then Step(w, Failed(NoEntry(fileName)))
    else if ReadSource in faults then Step(w, Failed(IoFailure(ReadSource)))
    else
      var html := render(w.sources[src]);
      var preview := CreatePreviewHtml(html);
      if preview.None? then Step(w, Failed(Panicked))
      else if UpdateRows in faults then Step(w, Failed(StoreFailure(UpdateRows)))
      else
        var t := w.tables[category];
        var updated := w.(tables := w.tables[category := t.(rows := SetContent(t.rows, fileName, html, preview.value))]);
        var dir := CategoryPath(cfg, category);
        if Exists(updated, StubPath(dir, fileName)) then Step(updated, Done)
        else PostStubStep(updated, dir, fileName, faults)
  }

  /**
   * A missing source fails before the database is consulted; a missing
   * row (or a failed existence query) fails next; every failure except
   * the final stub write leaves the world unchanged, and that one leaves
   * the files and directories unchanged but keeps the update: nothing is
   * rolled back.
   */
  lemma SyncFailures(w: World, cfg: Config, category: string, fileName: string,
                     render: string -> string, faults: set<Fault>)
    ensures var s, src := SyncStep(w, cfg, category, fileName, render, faults), SourcePath(cfg, category, fileName);
      && (src !in w.sources ==> s == Step(w, Failed(SourceMissing(src))))
      && (src in w.sources && OpenStore !in faults && !EntryFound(w, category, fileName, faults) ==>
            s == Step(w, Failed(NoEntry(fileName))))
      && (src in w.sources && OpenStore !in faults && QueryRow in faults ==> s == Step(w, Failed(NoEntry(fileName))))
      && (s.outcome.Failed? && s.outcome.error != IoFailure(WriteStub) ==> s.world == w)
      && (s.outcome.Failed? ==> s.world.files == w.files && s.world.dirs == w.dirs && s.world.sources == w.sources)
      && (s.outcome == Failed(IoFailure(WriteStub)) ==>
            && src in w.sources && category in w.tables
            && var html := render(w.sources[src]);
            && CreatePreviewHtml(html).Some?
            && var t := w.tables[category];
            && s.world == w.(tables := w.tables[category := t.(rows := SetContent(t.rows, fileName, html, CreatePreviewHtml(html).value))]))
  {
  }

  /**
   * Synchronisation succeeds exactly when the source is there, the store
   * opens, the row is found, the source reads, the preview does not
   * panic, the update runs, and the stub either exists or can be written.
   */
  lemma SyncSucceedsWhen(w: World, cfg: Config, category: string, fileName: string,
                         render: string -> string, faults: set<Fault>)
    ensures var s, src := SyncStep(w, cfg, category, fileName, render, faults), SourcePath(cfg, category, fileName);
      var dir := CategoryPath(cfg, category);
      s.outcome.Done? <==>
        && src in w.sources && OpenStore !in faults && EntryFound(w, category, fileName, faults)
        && ReadSource !in faults && CreatePreviewHtml(render(w.sources[src])).Some? && UpdateRows !in faults
        && (Exists(w, StubPath(dir, fileName)) || (WriteStub !in faults && dir in w.dirs))
  {
  }

  /** The world after a successful synchronisation: the post's rows updated, and the stub in place. */
  lemma SyncDoneWorld(w: World, cfg: Config, category: string, fileName: string,
                      render: string -> string, faults: set<Fault>)
    requires SyncStep(w, cfg, category, fileName, render, faults).outcome.Done?
    ensures var s, src := SyncStep(w, cfg, category, fileName, render, faults), SourcePath(cfg, category, fileName);
      && src in w.sources && category in w.tables
      && var html := render(w.sources[src]);
      && CreatePreviewHtml(html).Some?
      && var t := w.tables[category];
      && s.world.tables == w.tables[category := t.(rows := SetContent(t.rows, fileName, html, CreatePreviewHtml(html).value))]
      && s.world.sources == w.sources && s.world.dirs == w.dirs
      && var stub := StubPath(CategoryPath(cfg, category), fileName);
      && Exists(s.world, stub)
      && (Exists(w, stub) ==> s.world.files == w.files)
      && (!Exists(w, stub) ==> s.world.files == w.files[stub := PostStub(fileName)])
  {
  }

  /**
   * On success every row of the post holds the rendered source and its
   * preview, every other row and table is untouched, and the stub exists:
   * created with the post stub text if it was missing, kept otherwise.
   */
  lemma SyncSuccess(w: World, cfg: Config, category: string, fileName: string,
                    render: string -> string, faults: set<Fault>)
    requires SyncStep(w, cfg, category, fileName, render, faults).outcome.Done?
    ensures var s, src := SyncStep(w, cfg, category, fileName, render, faults), SourcePath(cfg, category, fileName);
      var stub := StubPath(CategoryPath(cfg, category), fileName);
      && src in w.sources && category in w.tables && category in s.world.tables
      && var html := render(w.sources[src]);
      && CreatePreviewHtml(html).Some?
      && var rows, newRows := w.tables[category].rows, s.world.tables[category].rows;
      && |newRows| == |rows|
      && (forall i :: 0 <= i < |rows| && rows[i].fileName == Some(fileName) ==>
            newRows[i] == rows[i].(text := Some(html), previewHtml := CreatePreviewHtml(html)))
      && (forall i :: 0 <= i < |rows| && rows[i].fileName != Some(fileName) ==> newRows[i] == rows[i])
      && HasEntry(newRows, fileName)
      && s.world.tables.Keys == w.tables.Keys
      && (forall t :: t in w.tables && t != category ==> s.world.tables[t] == w.tables[t])
      && s.world.dirs == w.dirs && s.world.sources == w.sources
      && Exists(s.world, stub)
      && (Exists(w, stub) ==> s.world.files == w.files)
      && (!Exists(w, stub) ==> s.world.files == w.files[stub := PostStub(fileName)])
  {
    var src := SourcePath(cfg, category, fileName);
    SyncDoneWorld(w, cfg, category, fileName, render, faults);
    var html := render(w.sources[src]);
    var rows := w.tables[category].rows;
    SetContentAt(rows, fileName, html, CreatePreviewHtml(html).value);
    SetContentKeeps(rows, fileName, html, CreatePreviewHtml(html).value, fileName);
  }

  lemma SyncKeepsValid(w: World, cfg: Config, category: string, fileName: string,
                       render: string -> string, faults: set<Fault>)
    requires ValidWorld(w)
    ensures ValidWorld(SyncStep(w, cfg, category, fileName, render, faults).world)
  {
    var s := SyncStep(w, cfg, category, fileName, render, faults);
    var src := SourcePath(cfg, category, fileName);
    if src in w.sources && OpenStore !in faults && EntryFound(w, category, fileName, faults) && ReadSource !in faults {
      var html := render(w.sources[src]);
      var preview := CreatePreviewHtml(html);
      if preview.Some? && UpdateRows !in faults {
        var t := w.tables[category];
        SetContentKeeps(t.rows, fileName, html, preview.value, fileName);
        var updated := w.(tables := w.tables[category := t.(rows := SetContent(t.rows, fileName, html, preview.value))]);
        assert ValidWorld(updated);
        PostStubKeepsValid(updated, CategoryPath(cfg, category), fileName, faults);
      }
    }
  }

  /** Synchronising again after a successful synchronisation changes nothing, whatever fails the second time. */
  lemma SyncIdempotent(w: World, cfg: Config, category: string, fileName: string,
                       render: string -> string, faults: set<Fault>, laterFaults: set<Fault>)
    requires SyncStep(w, cfg, category, fileName, render, faults).outcome.Done?
    ensures var once := SyncStep(w, cfg, category, fileName, render, faults).world;
      SyncStep(once, cfg, category, fileName, render, laterFaults).world == once
  {
    var once := SyncStep(w, cfg, category, fileName, render, faults).world;
    var src := SourcePath(cfg, category, fileName);
    SyncDoneWorld(w, cfg, category, fileName, render, faults);
    var html := render(w.sources[src]);
    var preview := CreatePreviewHtml(html).value;
    var rows := w.tables[category].rows;
    SetContentIdempotent(rows, fileName, html, preview);
    var t := once.tables[category];
    assert t.rows == SetContent(rows, fileName, html, preview);
    assert once.tables[category := t.(rows := SetContent(t.rows, fileName, html, preview))] == once.tables;
  }
}
