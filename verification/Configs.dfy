/** Loading the server's configuration (`cmd/compass/server/config.go`): one mapper
    for each plugin with evaluations, one catalog as the scope. */
module Configs {
  import opened Wrappers
  import opened LastWins
  import opened Catalogs
  import opened Mappers
  import opened Grouping

  /** What a directory walk meets, in walk order. */
  datatype WalkEntry =
    | WalkFailed
    | Directory
    | UnreadableFile
    | MalformedFile
    | PlanFile(plans: seq<AssessmentPlan>)

  /** What is found at a configured path. */
  datatype PathInfo = Missing | StatFailed | NotDirectory | Dir(walk: seq<WalkEntry>)

  type FileSystem = string -> PathInfo

  datatype LoadError = EvaluationsMissing | EvaluationsStat | EvaluationsNotDir | MapperFailed

  datatype PluginConfig = PluginConfig(id: string, evaluationsDir: string)

  /** What reading and parsing the configuration file yields. */
  datatype ConfigFile = UnreadableConfig | MalformedConfig | ConfigContent(plugins: seq<PluginConfig>)

  datatype CatalogFile = UnreadableCatalog | MalformedCatalog | CatalogContent(catalog: Catalog)

  /******* Meaning *******/

  predicate Stops(e: WalkEntry) {
    e.WalkFailed? || e.UnreadableFile? || e.MalformedFile?
  }

  /** All plans of the files of a walk, in walk and file order. */
  function AllPlans(walk: seq<WalkEntry>): seq<AssessmentPlan> {
    if walk == [] then []
    else
      var e := walk[|walk| - 1];
      AllPlans(walk[..|walk| - 1]) + if e.PlanFile? then e.plans else []
  }

  lemma NextEntry(walk: seq<WalkEntry>, i: nat)
    requires i < |walk|
    ensures walk[..i + 1] == walk[..i] + [walk[i]]
    ensures AllPlans(walk[..i + 1]) == AllPlans(walk[..i]) + if walk[i].PlanFile? then walk[i].plans else []
    ensures !walk[i].PlanFile? ==> AllPlans(walk[..i + 1]) == AllPlans(walk[..i])
  {
    assert walk[..i + 1][..i] == walk[..i];
  }

  ghost predicate Loads(walk: seq<WalkEntry>) {
    forall e :: e in walk ==> !Stops(e)
  }

  /** The plugins that are not skipped, by id, with their directories. */
  function WithEvaluations(plugins: seq<PluginConfig>): seq<Entry<string>> {
    if plugins == [] then []
    else
      var p := plugins[|plugins| - 1];
      var front := WithEvaluations(plugins[..|plugins| - 1]);
      if p.evaluationsDir == "" then front else front + [Entry(p.id, p.evaluationsDir)]
  }

  /** The directory each loaded engine takes its plans from. */
  function Engines(plugins: seq<PluginConfig>): map<string, string> {
    Overlay(WithEvaluations(plugins))
  }

  /** Why a directory cannot be loaded, if it cannot. */
  ghost function DirError(fs: FileSystem, dir: string): Option<LoadError> {
    match fs(dir)
    case Missing => Some(EvaluationsMissing)
    case StatFailed => Some(EvaluationsStat)
    case NotDirectory => Some(EvaluationsNotDir)
    case Dir(walk) => if Loads(walk) then None else Some(MapperFailed)
  }

  /** Which error each state of a directory gives, and when it gives none. */
  lemma DirErrorExactly(fs: FileSystem, dir: string)
    ensures DirError(fs, dir) == Some(EvaluationsMissing) <==> fs(dir).Missing?
    ensures DirError(fs, dir) == Some(EvaluationsStat) <==> fs(dir).StatFailed?
    ensures DirError(fs, dir) == Some(EvaluationsNotDir) <==> fs(dir).NotDirectory?
    ensures DirError(fs, dir) == Some(MapperFailed) <==>
            fs(dir).Dir? && exists e :: e in fs(dir).walk && (e.WalkFailed? || e.UnreadableFile? || e.MalformedFile?)
    ensures DirError(fs, dir) == None <==>
            fs(dir).Dir? && forall e :: e in fs(dir).walk ==> e.Directory? || e.PlanFile?
  {
    assert forall e :: Stops(e) <==> e.WalkFailed? || e.UnreadableFile? || e.MalformedFile?;
    assert forall e :: !Stops(e) <==> e.Directory? || e.PlanFile?;
  }

  /** The plans of a walk are those of its files, entry by entry. */
  lemma {:induction false} AllPlansExactly(plans: seq<AssessmentPlan>, e: WalkEntry, a: seq<WalkEntry>,
                                           b: seq<WalkEntry>)
    ensures AllPlans([]) == [] && AllPlans([PlanFile(plans)]) == plans
    ensures !e.PlanFile? ==> AllPlans([e]) == []
    ensures AllPlans(a + b) == AllPlans(a) + AllPlans(b)
  {
    assert [e][..0] == [] && [PlanFile(plans)][..0] == [];
    if b == [] {
      assert a + b == a;
    } else {
      var front, last := b[..|b| - 1], b[|b| - 1];
      AllPlansExactly(plans, e, a, front);
      assert (a + b)[..|a + b| - 1] == a + front && (a + b)[|a + b| - 1] == last;
    }
  }

  ghost predicate DirLoads(fs: FileSystem, dir: string) {
    DirError(fs, dir).None?
  }

  /** Every plugin that is not skipped has a directory that can be loaded. */
  ghost predicate ConfigLoads(fs: FileSystem, plugins: seq<PluginConfig>) {
    forall p :: p in plugins && p.evaluationsDir != "" ==> DirLoads(fs, p.evaluationsDir)
  }

  lemma {:induction false} EnginesLoad(fs: FileSystem, plugins: seq<PluginConfig>)
    requires ConfigLoads(fs, plugins)
    ensures forall id :: id in Engines(plugins) ==> Engines(plugins)[id] != "" && DirLoads(fs, Engines(plugins)[id])
  {
    if plugins != [] {
      var front, p := plugins[..|plugins| - 1], plugins[|plugins| - 1];
      assert plugins == front + [p];
      EnginesLoad(fs, front);
      if p.evaluationsDir != "" {
        assert p in plugins;
        OverlaySnoc(WithEvaluations(front), p.id, p.evaluationsDir);
        assert Engines(plugins) == Engines(front)[p.id := p.evaluationsDir];
        assert DirLoads(fs, p.evaluationsDir);
      } else {
        assert Engines(plugins) == Engines(front);
      }
    }
  }

  /** An engine has a mapper exactly when some plugin entry with its id has an
      evaluations directory, and the last such entry decides which. */
  lemma {:induction false} EngineMeaning(plugins: seq<PluginConfig>, id: string, dir: string)
    ensures id in Engines(plugins) && Engines(plugins)[id] == dir <==>
            exists i :: 0 <= i < |plugins| && plugins[i] == PluginConfig(id, dir) && dir != ""
                        && forall j :: i < j < |plugins| && plugins[j].id == id ==> plugins[j].evaluationsDir == ""
  {
    if plugins != [] {
      var front, p := plugins[..|plugins| - 1], plugins[|plugins| - 1];
      EngineMeaning(front, id, dir);
      if p.evaluationsDir != "" {
        OverlaySnoc(WithEvaluations(front), p.id, p.evaluationsDir);
      }
      if p.id == id && p.evaluationsDir != "" {
        assert plugins[|plugins| - 1] == p;
      } else {
        forall i | 0 <= i < |front| ensures plugins[i] == front[i] {
        }
      }
    }
  }

  /******* Loading *******/

  method NewScopeFromCatalogPath(file: CatalogFile) returns (scope: Option<Scope>)
    ensures scope == if file.CatalogContent? then Some(map[file.catalog.id := file.catalog]) else None
  {
    match file
    case CatalogContent(catalog) => scope := Some(map[catalog.id := catalog]);
    case _ => scope := None;
  }

  /** Adds one plan under the catalog its control is from, if that is known. */
  method AddPlan(mpr: Mapper, plan: AssessmentPlan, ghost before: seq<AssessmentPlan>)
    requires mpr.Valid() && mpr.Owned() && mpr.Lists() == GroupBy(before)
    modifies mpr, mpr.Backings()
    ensures mpr.Valid() && mpr.Owned() && mpr.Lists() == GroupBy(before + [plan])
    ensures fresh(mpr.Backings() - old(mpr.Backings()))
  {
    assert (before + [plan])[..|before|] == before;
    if plan.referenceId != "" {
      var added := OneElementSlice(plan);
      mpr.AddEvaluationPlan(plan.referenceId, added);
      mpr.OwnedGrows(plan.referenceId, [plan]);
    }
  }

  /** Adds the plans of one file. */
  method AddPlans(mpr: Mapper, plans: seq<AssessmentPlan>, ghost before: seq<AssessmentPlan>)
    requires mpr.Valid() && mpr.Owned() && mpr.Lists() == GroupBy(before)
    modifies mpr, mpr.Backings()
    ensures mpr.Valid() && mpr.Owned() && mpr.Lists() == GroupBy(before + plans)
    ensures fresh(mpr.Backings() - old(mpr.Backings()))
  {
    assert before + plans[..0] == before;
    for i := 0 to |plans|
      invariant mpr.Valid() && mpr.Owned() && mpr.Lists() == GroupBy(before + plans[..i])
      invariant fresh(mpr.Backings() - old(mpr.Backings()))
    {
      assert before + plans[..i + 1] == before + plans[..i] + [plans[i]];
      AddPlan(mpr, plans[i], before + plans[..i]);
    }
    assert plans[..|plans|] == plans;
  }

  /** The mapper for one evaluations directory. A walk that fails leaves a mapper
      with the plans of the files before the failure. */
  method NewMapperFromDir(walk: seq<WalkEntry>) returns (mpr: Mapper, ok: bool, ghost n: nat)
    ensures fresh(mpr) && mpr.Valid() && mpr.Owned() && fresh(mpr.Backings())
    ensures ok <==> forall e :: e in walk ==> e.Directory? || e.PlanFile?
    ensures n <= |walk| && Loads(walk[..n]) && (if ok then n == |walk| else n < |walk| && Stops(walk[n]))
    ensures mpr.Lists() == GroupBy(AllPlans(walk[..n]))
  {
    mpr := new Mapper();
    n := 0;
    for i := 0 to |walk|
      invariant fresh(mpr) && mpr.Valid() && mpr.Owned() && fresh(mpr.Backings())
      invariant n == i && Loads(walk[..i])
      invariant mpr.Lists() == GroupBy(AllPlans(walk[..i]))
    {
      NextEntry(walk, i);
      match walk[i] {
        case Directory =>
        case PlanFile(plans) =>
          AddPlans(mpr, plans, AllPlans(walk[..i]));
        case _ =>
          assert walk[i] in walk;
          ok := false;
          return;
      }
      n := n + 1;
    }
    assert walk[..|walk|] == walk;
    ok := true;
  }

  /** What the loaded mappers hold: for each engine the grouped plans of its directory. */
  ghost predicate Loaded(mappers: map<string, Mapper>, fs: FileSystem, engines: map<string, string>)
    reads mappers.Values, set m, b | m in mappers.Values && b in m.Backings() :: b
  {
    && mappers.Keys == engines.Keys
    && forall id :: id in mappers ==> mappers[id].Valid() && LoadedFrom(mappers[id].Lists(), fs, engines[id])
  }

  ghost predicate LoadedFrom(lists: map<string, seq<AssessmentPlan>>, fs: FileSystem, dir: string) {
    fs(dir).Dir? && lists == GroupBy(AllPlans(fs(dir).walk))
  }

  /** The mapper of one plugin, if its directory can be loaded. */
  method LoadPlugin(fs: FileSystem, dir: string) returns (tfmr: Result<Mapper, LoadError>)
    ensures tfmr.Success? <==> DirLoads(fs, dir)
    ensures tfmr.Failure? ==> DirError(fs, dir) == Some(tfmr.error)
    ensures tfmr.Success? ==>
              && fresh(tfmr.value) && tfmr.value.Valid() && fresh(tfmr.value.Backings())
              && LoadedFrom(tfmr.value.Lists(), fs, dir)
  {
    match fs(dir) {
      case Missing => return Failure(EvaluationsMissing);
      case StatFailed => return Failure(EvaluationsStat);
      case NotDirectory => return Failure(EvaluationsNotDir);
      case Dir(walk) =>
        var mpr, ok, _ := NewMapperFromDir(walk);
        if !ok {
          return Failure(MapperFailed);
        }
        assert walk[..|walk|] == walk;
        return Result.Success(mpr);
    }
  }

  lemma NextPlugin(fs: FileSystem, plugins: seq<PluginConfig>, i: nat)
    requires i < |plugins|
    ensures var p, before := plugins[i], Engines(plugins[..i]);
            Engines(plugins[..i + 1]) == if p.evaluationsDir == "" then before else before[p.id := p.evaluationsDir]
    ensures ConfigLoads(fs, plugins[..i + 1]) <==>
            && ConfigLoads(fs, plugins[..i])
            && (plugins[i].evaluationsDir == "" || DirLoads(fs, plugins[i].evaluationsDir))
    ensures ConfigLoads(fs, plugins) ==> ConfigLoads(fs, plugins[..i + 1])
  {
    assert plugins[..i + 1][..i] == plugins[..i];
    assert plugins[..i + 1] == plugins[..i] + [plugins[i]];
    OverlaySnoc(WithEvaluations(plugins[..i]), plugins[i].id, plugins[i].evaluationsDir);
  }

  lemma LoadedExtends(mappers: map<string, Mapper>, fs: FileSystem, engines: map<string, string>,
                      id: string, m: Mapper, dir: string)
    requires Loaded(mappers, fs, engines) && m.Valid() && LoadedFrom(m.Lists(), fs, dir)
    ensures Loaded(mappers[id := m], fs, engines[id := dir])
  {
  }

  /** One round of the plugin loop. */
  method AddPlugin(fs: FileSystem, pluginConf: PluginConfig, pluginSet: map<string, Mapper>,
                   ghost engines: map<string, string>)
    returns (pluginSet': map<string, Mapper>, error: Option<LoadError>)
    requires Loaded(pluginSet, fs, engines) && pluginConf.evaluationsDir != ""
    ensures error == DirError(fs, pluginConf.evaluationsDir)
    ensures error.None? ==> Loaded(pluginSet', fs, engines[pluginConf.id := pluginConf.evaluationsDir])
    ensures error.Some? ==> Loaded(pluginSet', fs, engines)
  {
    var tfmr := LoadPlugin(fs, pluginConf.evaluationsDir);
    assert Loaded(pluginSet, fs, engines);
    if tfmr.Failure? {
      return pluginSet, Some(tfmr.error);
    }
    LoadedExtends(pluginSet, fs, engines, pluginConf.id, tfmr.value, pluginConf.evaluationsDir);
    return pluginSet[pluginConf.id := tfmr.value], None;
  }

  /** One mapper for every plugin with evaluations, the last entry for an id winning;
      the first directory that cannot be loaded ends the start-up with its error,
      `n` plugins having been dealt with. */
  method NewMapperSet(fs: FileSystem, plugins: seq<PluginConfig>)
    returns (pluginSet: map<string, Mapper>, error: Option<LoadError>, ghost n: nat)
    ensures error.None? <==> ConfigLoads(fs, plugins)
    ensures n <= |plugins| && ConfigLoads(fs, plugins[..n]) && Loaded(pluginSet, fs, Engines(plugins[..n]))
    ensures error.None? ==> plugins[..n] == plugins
    ensures error.Some? ==>
              n < |plugins| && plugins[n].evaluationsDir != "" && DirError(fs, plugins[n].evaluationsDir) == error
  {
    pluginSet, error, n := map[], None, 0;
    for i := 0 to |plugins|
      invariant n == i && error.None?
      invariant ConfigLoads(fs, plugins[..i])
      invariant Loaded(pluginSet, fs, Engines(plugins[..i]))
    {
      var pluginConf := plugins[i];
      NextPlugin(fs, plugins, i);
      if pluginConf.evaluationsDir != "" {
        pluginSet, error := AddPlugin(fs, pluginConf, pluginSet, Engines(plugins[..i]));
        if error.Some? {
          return;
        }
      }
      n := n + 1;
    }
    assert plugins[..|plugins|] == plugins;
  }
}
