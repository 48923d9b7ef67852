/** The enrichment endpoint (`service/service.go`) and the start-up that feeds it
    (`cmd/compass/main.go`). */
module Services {
  import opened Wrappers
  import opened LastWins
  import opened Catalogs
  import opened Mappers
  import opened Grouping
  import opened Configs

  datatype EnrichResponse = BadRequest | Ok(compliance: Compliance)

  class Service {
    const mappers: map<string, Mapper>
    const scope: Scope

    constructor (mappers: map<string, Mapper>, scope: Scope)
      ensures this.mappers == mappers && this.scope == scope
    {
      this.mappers, this.scope := mappers, scope;
    }

    /** Answers from the mapper of the policy's engine, and from an empty mapper if
        the engine has none. */
    method PostV1Enrich(request: Option<Policy>) returns (response: EnrichResponse)
      requires forall id :: id in mappers ==> mappers[id].Valid()
      ensures request.None? <==> response == BadRequest
      ensures request.Some? && request.value.policyEngineName !in mappers ==>
                response == Ok(Compliance("UNMAPPED", "UNCATEGORIZED", None, "UNMAPPED", Strings([]), Strings([]),
                                          Unmapped))
      ensures request.Some? && request.value.policyEngineName in mappers ==>
                PossibleResult(response.compliance, mappers[request.value.policyEngineName].Lists(), scope,
                               request.value.policyRuleId)
    {
      if request.None? {
        return BadRequest;
      }
      var policy := request.value;
      var compliance, reasons;
      if policy.policyEngineName in mappers {
        compliance, reasons := mappers[policy.policyEngineName].Map(policy, scope);
      } else {
        var fallback := new Mapper();
        compliance, reasons := fallback.Map(policy, scope);
        NothingToMap(compliance, reasons, fallback.Lists(), scope, policy.policyRuleId);
      }
      return Ok(compliance);
    }
  }

  /** A mapper without plans leaves every rule unmapped, for no reason. */
  lemma NothingToMap(c: Compliance, reasons: seq<FailureReason>, lists: map<string, seq<AssessmentPlan>>,
                     scope: Scope, rule: string)
    requires lists == map[] && PossibleOutcome(c, reasons, lists, scope, rule)
    ensures c == UNMAPPED && reasons == []
  {
    forall order | IsOrder(order, lists.Keys) ensures order == [] {
      OrderLength(order, lists.Keys);
    }
  }

  /** The plans of the engine's directory that refer to the one catalog in scope. */
  ghost function DeployedPlans(fs: FileSystem, plugins: seq<PluginConfig>, catalog: Catalog, policy: Policy)
    : seq<AssessmentPlan>
    requires forall id :: id in Engines(plugins) ==> fs(Engines(plugins)[id]).Dir?
  {
    if policy.policyEngineName !in Engines(plugins) then []
    else PlansIn(AllPlans(fs(Engines(plugins)[policy.policyEngineName]).walk), {catalog.id})
  }

  /** What the deployed server answers: the rule looked up in these plans and the
      one catalog in scope; unmapped otherwise. */
  ghost function DeployedAnswer(fs: FileSystem, plugins: seq<PluginConfig>, catalog: Catalog, policy: Policy)
    : Compliance
    requires forall id :: id in Engines(plugins) ==> fs(Engines(plugins)[id]).Dir?
  {
    if catalog.id == "" then UNMAPPED
    else
      match Answer(DeployedPlans(fs, plugins, catalog, policy), map[catalog.id := catalog], catalog.id,
                   policy.policyRuleId)
      case Success(c) => c
      case Failure(_) => UNMAPPED
  }

  /** Whatever order the runtime walks the catalogs in, a grouped list of plans with
      one catalog in scope gives the answer of that catalog's own plans. */
  lemma GroupedAnswer(plans: seq<AssessmentPlan>, catalog: Catalog, rule: string, c: Compliance)
    requires PossibleResult(c, GroupBy(plans), map[catalog.id := catalog], rule)
    ensures c ==
            if catalog.id == "" then UNMAPPED
            else
              match Answer(PlansIn(plans, {catalog.id}), map[catalog.id := catalog], catalog.id, rule)
              case Success(answer) => answer
              case Failure(_) => UNMAPPED
  {
    var order :| IsOrder(order, GroupBy(plans).Keys)
                 && c == MapInOrder(order, GroupBy(plans), map[catalog.id := catalog], rule);
    GroupByMeaning(plans);
    SingleCatalogScope(order, GroupBy(plans), catalog, rule);
    if catalog.id !in GroupBy(plans) {
      NoPlansIn(plans, catalog.id);
      assert FlatProcedures([]) == [] && Overlay<ProcedureInfo>([]) == map[];
    }
  }

  /** When the deployed server answers with nil arrays. An unmapped answer never does. */
  lemma DeployedNilArrays(fs: FileSystem, plugins: seq<PluginConfig>, catalog: Catalog, policy: Policy)
    requires forall id :: id in Engines(plugins) ==> fs(Engines(plugins)[id]).Dir?
    ensures var r := DeployedAnswer(fs, plugins, catalog, policy);
            && (r.frameworks == Nil <==>
                && r.status == EnrichmentStatus.Success
                && exists data ::
                     && LeadsTo(DeployedPlans(fs, plugins, catalog, policy), catalog, policy.policyRuleId, data)
                     && data.mappings == [])
            && (r.requirements == Nil <==>
                && r.status == EnrichmentStatus.Success
                && exists data ::
                     && LeadsTo(DeployedPlans(fs, plugins, catalog, policy), catalog, policy.policyRuleId, data)
                     && forall m :: m in data.mappings ==> m.entries == [])
  {
    var r := DeployedAnswer(fs, plugins, catalog, policy);
    if r.status == EnrichmentStatus.Success {
      NilArraysExactly(DeployedPlans(fs, plugins, catalog, policy), map[catalog.id := catalog], catalog.id,
                       policy.policyRuleId, r);
    }
  }

  lemma OnePlugin(engine: string, dir: string)
    requires dir != ""
    ensures Engines([PluginConfig(engine, dir)]) == map[engine := dir]
  {
    var p := PluginConfig(engine, dir);
    assert [p][..0] == [];
    assert WithEvaluations([p]) == [] + [Entry(engine, dir)];
    OverlaySnoc([], engine, dir);
  }

  lemma OnePlan(plan: AssessmentPlan)
    ensures AllPlans([PlanFile([plan])]) == [plan] == PlansIn([plan], {plan.referenceId})
  {
    assert [PlanFile([plan])][..0] == [] && [plan][..0] == [];
  }

  /** One plan with one procedure, for a control without guideline mappings. */
  lemma NilArraysServed(fs: FileSystem, engine: string, dir: string, plan: AssessmentPlan, a: Assessment, p: Procedure,
                        catalog: Catalog, f: ControlFamily)
    requires dir != "" && fs(dir) == Dir([PlanFile([plan])])
    requires plan.referenceId == catalog.id != "" && plan.assessments == [a] && a.procedures == [p]
    requires catalog.families == [f] && f.controls == [Control(plan.controlId, [])]
    ensures var plugins := [PluginConfig(engine, dir)];
            && Engines(plugins) == map[engine := dir]
            && DeployedAnswer(fs, plugins, catalog, Policy(engine, p.id))
               == Compliance(a.requirementId, f.title, Some(p.documentation), catalog.id, Nil, Nil,
                             EnrichmentStatus.Success)
  {
    var plugins := [PluginConfig(engine, dir)];
    OnePlugin(engine, dir);
    OnePlan(plan);
    SingleProcedure(map[catalog.id := catalog], plan, a, p, f);
  }

  /** One request to a service over loaded mappers. */
  method EnrichLoaded(fs: FileSystem, engines: map<string, string>, mappers: map<string, Mapper>, scope: Scope,
                      policy: Policy)
    returns (compliance: Compliance)
    requires Loaded(mappers, fs, engines)
    ensures policy.policyEngineName !in engines ==> compliance == UNMAPPED
    ensures policy.policyEngineName in engines ==>
              PossibleResult(compliance, GroupBy(AllPlans(fs(engines[policy.policyEngineName]).walk)), scope,
                             policy.policyRuleId)
  {
    var service := new Service(mappers, scope);
    var response := service.PostV1Enrich(Some(policy));
    compliance := response.compliance;
    if policy.policyEngineName in engines {
      assert mappers[policy.policyEngineName].Lists() == GroupBy(AllPlans(fs(engines[policy.policyEngineName]).walk));
    }
  }

  /** Start-up and one request. Mappers and scope are there exactly when the catalog,
      the configuration and all evaluation directories can be loaded, and then
      the answer depends on nothing but files, configuration and request. */
  method StartAndEnrich(fs: FileSystem, configFile: ConfigFile, catalogFile: CatalogFile, policy: Policy)
    returns (response: Option<EnrichResponse>)
    ensures response.Some? <==>
            catalogFile.CatalogContent? && configFile.ConfigContent? && ConfigLoads(fs, configFile.plugins)
    ensures response.Some? ==>
              && (forall id :: id in Engines(configFile.plugins) ==> fs(Engines(configFile.plugins)[id]).Dir?)
              && response.value == Ok(DeployedAnswer(fs, configFile.plugins, catalogFile.catalog, policy))
  {
    var scope := NewScopeFromCatalogPath(catalogFile);
    if scope.None? {
      return None;
    }
    if !configFile.ConfigContent? {
      return None;
    }
    var plugins := configFile.plugins;
    var mappers, error, _ := NewMapperSet(fs, plugins);
    if error.Some? {
      return None;
    }
    EnginesLoad(fs, plugins);
    var compliance := EnrichLoaded(fs, Engines(plugins), mappers, scope.value, policy);
    if policy.policyEngineName in Engines(plugins) {
      var plans := AllPlans(fs(Engines(plugins)[policy.policyEngineName]).walk);
      GroupedAnswer(plans, catalogFile.catalog, policy.policyRuleId, compliance);
    }
    return Some(Ok(compliance));
  }
}
