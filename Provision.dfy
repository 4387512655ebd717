/**
 * Category provisioning (`create_chain_php`, `create_category`): create
 * the category directory, write its `chain.php`, and create its table if
 * it does not exist, in that order and without rollback.
 */
module Provision {
  import opened Wrappers
  import opened Dates
  import opened Stubs
  import opened Store
  import opened ManagePost

  /** `dir/chain.php`. */
  function ChainPath(dir: Path): Path
  {
    Join(dir, CHAIN_FILE)
  }

  /** `create_chain_php`: write the category stub, replacing whatever `chain.php` held. */
  function ChainStep(w: World, dir: Path, category: string, faults: set<Fault>): (r: Step)
    ensures r.world.dirs == w.dirs && r.world.tables == w.tables && r.world.sources == w.sources
    ensures r.outcome.Done? ==> ChainPath(dir) in r.world.files && ChainStubPage(r.world.files[ChainPath(dir)]) == Some(category)
    ensures r.outcome.Failed? ==> r.world == w
  {
    var path := ChainPath(dir);
    ChainStubRoundTrip(category);
    if WriteChain in faults || dir !in w.dirs || path in w.dirs then Step(w, Failed(IoFailure(WriteChain)))
    else Step(w.(files := w.files[path := ChainStub(category)]), Done)
  }

  /** The category stub is always rewritten, whatever it held before; nothing else changes. */
  lemma ChainOverwrites(w: World, dir: Path, category: string, faults: set<Fault>)
    requires dir in w.dirs && ChainPath(dir) !in w.dirs && WriteChain !in faults
    ensures var s := ChainStep(w, dir, category, faults);
      && s.outcome == Done
      && s.world == w.(files := w.files[ChainPath(dir) := ChainStub(category)])
      && ChainStubPage(s.world.files[ChainPath(dir)]) == Some(category)
  {
    ChainStubRoundTrip(category);
  }

  /** `create_category`. */
  function ProvisionStep(w: World, cfg: Config, category: string, faults: set<Fault>): (r: Step)
    ensures r.world.sources == w.sources
    ensures forall t :: t in w.tables ==> t in r.world.tables && r.world.tables[t] == w.tables[t]
    ensures r.outcome.Done? ==> CategoryPath(cfg, category) in r.world.dirs && category in r.world.tables
  {
    var dir := CategoryPath(cfg, category);
    if MakeDir in faults || dir in w.files then Step(w, Failed(IoFailure(MakeDir)))
    else
      var c := ChainStep(w.(dirs := w.dirs + {dir}), dir, category, faults);
      if c.outcome.Failed? then c
      else if OpenStore in faults then Step(c.world, Failed(StoreFailure(OpenStore)))
      else if CreateTable in faults then Step(c.world, Failed(StoreFailure(CreateTable)))
      else if category in c.world.tables then Step(c.world, Done)
      else Step(c.world.(tables := c.world.tables[category := Table(POST_SCHEMA, [])]), Done)
  }

  /**
   * After success the directory, its `chain.php` naming the category, and
   * the table all exist; a table that existed is kept with its rows, a new
   * one has the fixed schema and no rows. The steps run in the order
   * directory, stub, table, and a failure keeps what the earlier steps did.
   * Provisioning succeeds exactly when none of its four calls fails and
   * neither the directory nor `chain.php` is taken by the other kind of
   * entry.
   */
  lemma ProvisionContract(w: World, cfg: Config, category: string, faults: set<Fault>)
    ensures var s, dir := ProvisionStep(w, cfg, category, faults), CategoryPath(cfg, category);
      && s.world.sources == w.sources
      && (forall t :: t in w.tables ==> t in s.world.tables && s.world.tables[t] == w.tables[t])
      && (s.outcome.Done? ==>
            && s.world.dirs == w.dirs + {dir}
            && s.world.files == w.files[ChainPath(dir) := ChainStub(category)]
            && category in s.world.tables
            && (category !in w.tables ==> s.world.tables == w.tables[category := Table(POST_SCHEMA, [])]))
      && (s.outcome == Failed(IoFailure(MakeDir)) ==> s.world == w)
      && (s.outcome == Failed(IoFailure(WriteChain)) ==> s.world == w.(dirs := w.dirs + {dir}))
      && (s.outcome.Failed? && s.outcome.error.StoreFailure? ==>
            && s.world == w.(dirs := w.dirs + {dir}, files := w.files[ChainPath(dir) := ChainStub(category)]))
      && (s.outcome.Failed? ==>
            s.outcome.error in {IoFailure(MakeDir), IoFailure(WriteChain), StoreFailure(OpenStore), StoreFailure(CreateTable)})
      && (s.outcome.Done? <==>
            && MakeDir !in faults && WriteChain !in faults && OpenStore !in faults && CreateTable !in faults
            && dir !in w.files && ChainPath(dir) !in w.dirs)
  {
    var dir := CategoryPath(cfg, category);
    assert ChainPath(dir) != dir by {
      assert |ChainPath(dir)| > |dir|;
    }
  }

  lemma ProvisionKeepsValid(w: World, cfg: Config, category: string, faults: set<Fault>)
    requires ValidWorld(w)
    ensures ValidWorld(ProvisionStep(w, cfg, category, faults).world)
  {
    var dir := CategoryPath(cfg, category);
    if MakeDir !in faults && dir !in w.files {
      var w1 := w.(dirs := w.dirs + {dir});
      assert ValidWorld(w1);
      var c := ChainStep(w1, dir, category, faults);
      assert ValidWorld(c.world);
    }
  }

  /** Provisioning again after a successful provisioning changes nothing, whatever fails the second time. */
  lemma ProvisionIdempotent(w: World, cfg: Config, category: string, faults: set<Fault>, laterFaults: set<Fault>)
    requires ProvisionStep(w, cfg, category, faults).outcome.Done?
    ensures var once := ProvisionStep(w, cfg, category, faults).world;
      ProvisionStep(once, cfg, category, laterFaults).world == once
  {
    var once := ProvisionStep(w, cfg, category, faults).world;
    var dir := CategoryPath(cfg, category);
    ProvisionContract(w, cfg, category, faults);
    assert ChainPath(dir) != dir;
    assert dir !in once.files;
    assert once.(dirs := once.dirs + {dir}) == once;
    assert once.files[ChainPath(dir) := ChainStub(category)] == once.files;
  }

  /**
   * Once the category is provisioned, registering a post in it passes the
   * category check; with no I/O failure it succeeds and leaves a row for
   * the post.
   */
  lemma ProvisionThenRegister(w: World, cfg: Config, category: string, faults: set<Fault>,
                              fileName: string, header: string, today: Date, laterFaults: set<Fault>)
    requires IsCalendarDate(today)
    requires ProvisionStep(w, cfg, category, faults).outcome.Done?
    ensures var once := ProvisionStep(w, cfg, category, faults).world;
      var s := RegisterStep(once, cfg, category, fileName, header, today, laterFaults);
      && s.outcome != Failed(CategoryMissing(category))
      && (laterFaults == {} ==>
            && s.outcome == Done
            && category in s.world.tables
            && HasEntry(s.world.tables[category].rows, fileName))
  {
    var once := ProvisionStep(w, cfg, category, faults).world;
    ProvisionContract(w, cfg, category, faults);
    RegisterContract(once, cfg, category, fileName, header, today, laterFaults);
  }
}
