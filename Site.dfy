/**
 * The blog tool's operations as they run: methods of one object that
 * holds the output tree, the database and the source tree, and updates
 * them step by step as `main.rs` and `manage_post.rs` do. Each method is
 * proved to end in the state, with the outcome, that the corresponding
 * transition function gives.
 */
module Site {
  import opened Wrappers
  import opened Dates
  import opened Preview
  import opened Stubs
  import opened Store
  import opened ManagePost
  import opened Provision

  class Blog {
    var dirs: set<Path>
    var files: map<Path, string>
    var tables: map<string, Table>
    var sources: map<Path, string>

    function State(): World
      reads this
    {
      World(dirs, files, tables, sources)
    }

    ghost predicate Valid()
      reads this
    {
      ValidWorld(State())
    }

    constructor (w: World)
      requires ValidWorld(w)
      ensures Valid() && State() == w
    {
      dirs, files, tables, sources := w.dirs, w.files, w.tables, w.sources;
    }

    /** `create_post_php`. */
    method CreatePostPhp(dir: Path, fileName: string, faults: set<Fault>) returns (out: Outcome)
      requires Valid()
      modifies this
      ensures Valid()
      ensures Step(State(), out) == PostStubStep(old(State()), dir, fileName, faults)
    {
      var path := StubPath(dir, fileName);
      if !(path in dirs || path in files) {
        if WriteStub in faults || dir !in dirs {
          return Failed(IoFailure(WriteStub));
        }
        files := files[path := PostStub(fileName)];
      }
      out := Done;
    }

    /** `create_chain_php`. */
    method CreateChainPhp(dir: Path, category: string, faults: set<Fault>) returns (out: Outcome)
      requires Valid()
      modifies this
      ensures Valid()
      ensures Step(State(), out) == ChainStep(old(State()), dir, category, faults)
    {
      var path := ChainPath(dir);
      if WriteChain in faults || dir !in dirs || path in dirs {
        return Failed(IoFailure(WriteChain));
      }
      files := files[path := ChainStub(category)];
      out := Done;
    }

    /** `create_category`: directory, then `chain.php`, then the table. */
    method CreateCategory(cfg: Config, category: string, faults: set<Fault>) returns (out: Outcome)
      requires Valid()
      modifies this
      ensures Valid()
      ensures Step(State(), out) == ProvisionStep(old(State()), cfg, category, faults)
    {
      var dir := CategoryPath(cfg, category);
      if MakeDir in faults || dir in files {
        return Failed(IoFailure(MakeDir));
      }
      dirs := dirs + {dir};
      out := CreateChainPhp(dir, category, faults);
      if out.Failed? {
        return;
      }
      if OpenStore in faults {
        return Failed(StoreFailure(OpenStore));
      }
      if CreateTable in faults {
        return Failed(StoreFailure(CreateTable));
      }
      if category !in tables {
        tables := tables[category := Table(POST_SCHEMA, [])];
      }
      out := Done;
    }

    /** `create_post`: category check, stub, then the row unless one is found. */
    method CreatePost(cfg: Config, category: string, fileName: string, header: string,
                      today: Date, faults: set<Fault>) returns (out: Outcome)
      requires Valid() && IsCalendarDate(today)
      modifies this
      ensures Valid()
      ensures Step(State(), out) == RegisterStep(old(State()), cfg, category, fileName, header, today, faults)
    {
      RegisterKeepsValid(State(), cfg, category, fileName, header, today, faults);
      var dir := CategoryPath(cfg, category);
      if !(dir in dirs || dir in files) {
        return Failed(CategoryMissing(category));
      }
      out := CreatePostPhp(dir, fileName, faults);
      if out.Failed? {
        return;
      }
      if OpenStore in faults {
        return Failed(StoreFailure(OpenStore));
      }
      var found := category in tables && QueryRow !in faults && HasEntry(tables[category].rows, fileName);
      if !found {
        if category !in tables || InsertRow in faults {
          return Failed(StoreFailure(InsertRow));
        }
        var t := tables[category];
        tables := tables[category := t.(rows := Insert(t.rows, fileName, CustomDateFormat(today), header))];
      }
      out := Done;
    }

    /** `process_markdown_file`, with the markdown renderer passed in. */
    method ProcessMarkdownFile(cfg: Config, category: string, fileName: string,
                               render: string -> string, faults: set<Fault>) returns (out: Outcome)
      requires Valid()
      modifies this
      ensures Valid()
      ensures Step(State(), out) == SyncStep(old(State()), cfg, category, fileName, render, faults)
    {
      SyncKeepsValid(State(), cfg, category, fileName, render, faults);
      var src := SourcePath(cfg, category, fileName);
      if src !in sources {
        return Failed(SourceMissing(src));
      }
      if OpenStore in faults {
        return Failed(StoreFailure(OpenStore));
      }
      var found := category in tables && QueryRow !in faults && HasEntry(tables[category].rows, fileName);
      if !found {
        return Failed(NoEntry(fileName));
      }
      if ReadSource in faults {
        return Failed(IoFailure(ReadSource));
      }
      var html := render(sources[src]);
      var preview := CreatePreviewHtml(html);
      if preview.None? {
        return Failed(Panicked);
      }
      if UpdateRows in faults {
        return Failed(StoreFailure(UpdateRows));
      }
      var t := tables[category];
      tables := tables[category := t.(rows := SetContent(t.rows, fileName, html, preview.value))];
      var dir := CategoryPath(cfg, category);
      var stub := StubPath(dir, fileName);
      if !(stub in dirs || stub in files) {
        out := CreatePostPhp(dir, fileName, faults);
        return;
      }
      out := Done;
    }
  }
}
