/** The compliance content that enrichment works on: catalogs of controls, plans
    with procedures, and what a policy rule is answered with. */
module Catalogs {
  import opened Wrappers
  import opened LastWins

  /******* Content *******/

  datatype Mapping = Mapping(referenceId: string, entries: seq<string>)
  datatype Control = Control(id: string, guidelineMappings: seq<Mapping>)
  datatype ControlFamily = ControlFamily(title: string, controls: seq<Control>)
  datatype Catalog = Catalog(id: string, families: seq<ControlFamily>)

  datatype Procedure = Procedure(id: string, documentation: string)
  datatype Assessment = Assessment(requirementId: string, procedures: seq<Procedure>)
  /** A plan for one control; `referenceId` names the catalog the control is from. */
  datatype AssessmentPlan = AssessmentPlan(controlId: string, referenceId: string, assessments: seq<Assessment>)

  type Scope = map<string, Catalog>

  datatype Policy = Policy(policyEngineName: string, policyRuleId: string)

  /******* Answers *******/

  /** A string slice that may be nil, which is not the same response as empty. */
  datatype GoStrings = Nil | Strings(items: seq<string>)

  datatype EnrichmentStatus = Success | Unmapped | Partial | Skipped | Unknown

  datatype Compliance = Compliance(
    id: string, category: string, remediationDescription: Option<string>, catalogId: string,
    requirements: GoStrings, frameworks: GoStrings, status: EnrichmentStatus)

  const UNMAPPED: Compliance :=
    Compliance("UNMAPPED", "UNCATEGORIZED", None, "UNMAPPED", Strings([]), Strings([]), Unmapped)

  datatype ProcedureInfo = ProcedureInfo(controlId: string, requirementId: string, documentation: string)
  datatype ControlData = ControlData(mappings: seq<Mapping>, category: string)

  /******* Content flattened, in reading order *******/

  function FlatAssessment(plan: AssessmentPlan, a: Assessment, procedures: seq<Procedure>): seq<Entry<ProcedureInfo>> {
    if procedures == [] then []
    else
      var p := procedures[|procedures| - 1];
      FlatAssessment(plan, a, procedures[..|procedures| - 1])
      + [Entry(p.id, ProcedureInfo(plan.controlId, a.requirementId, p.documentation))]
  }

  function FlatPlan(plan: AssessmentPlan, assessments: seq<Assessment>): seq<Entry<ProcedureInfo>> {
    if assessments == [] then []
    else
      var a := assessments[|assessments| - 1];
      FlatPlan(plan, assessments[..|assessments| - 1]) + FlatAssessment(plan, a, a.procedures)
  }

  function FlatProcedures(plans: seq<AssessmentPlan>): seq<Entry<ProcedureInfo>> {
    if plans == [] then []
    else
      var plan := plans[|plans| - 1];
      FlatProcedures(plans[..|plans| - 1]) + FlatPlan(plan, plan.assessments)
  }

  function FlatFamily(family: ControlFamily, controls: seq<Control>): seq<Entry<ControlData>> {
    if controls == [] then []
    else
      var c := controls[|controls| - 1];
      FlatFamily(family, controls[..|controls| - 1]) + [Entry(c.id, ControlData(c.guidelineMappings, family.title))]
  }

  function FlatControls(families: seq<ControlFamily>): seq<Entry<ControlData>> {
    if families == [] then []
    else
      var f := families[|families| - 1];
      FlatControls(families[..|families| - 1]) + FlatFamily(f, f.controls)
  }

  lemma {:induction false} FlatProceduresConcat(a: seq<AssessmentPlan>, b: seq<AssessmentPlan>)
    ensures FlatProcedures(a + b) == FlatProcedures(a) + FlatProcedures(b)
  {
    if b == [] {
      assert a + b == a;
    } else {
      var front, plan := b[..|b| - 1], b[|b| - 1];
      FlatProceduresConcat(a, front);
      assert (a + b)[..|a + b| - 1] == a + front && (a + b)[|a + b| - 1] == plan;
      Associative(FlatProcedures(a), FlatProcedures(front), FlatPlan(plan, plan.assessments));
    }
  }

  lemma Associative<T>(x: seq<T>, y: seq<T>, z: seq<T>)
    ensures x + y + z == x + (y + z)
  {
  }

  /** A procedure table over two lists of plans is the second list's table laid
      over the first's. */
  lemma {:induction false} ProceduresOfConcat(a: seq<AssessmentPlan>, b: seq<AssessmentPlan>)
    ensures Overlay(FlatProcedures(a + b)) == Overlay(FlatProcedures(a)) + Overlay(FlatProcedures(b))
  {
    FlatProceduresConcat(a, b);
    OverlayConcat(FlatProcedures(a), FlatProcedures(b));
  }

  function Requirements(mappings: seq<Mapping>): seq<string> {
    if mappings == [] then []
    else Requirements(mappings[..|mappings| - 1]) + mappings[|mappings| - 1].entries
  }

  function Standards(mappings: seq<Mapping>): (ids: seq<string>)
    ensures |ids| == |mappings| && forall i :: 0 <= i < |ids| ==> ids[i] == mappings[i].referenceId
  {
    if mappings == [] then []
    else Standards(mappings[..|mappings| - 1]) + [mappings[|mappings| - 1].referenceId]
  }

  /** A slice grown by appending to nil: it stays nil if nothing is appended. */
  function Appended(items: seq<string>): GoStrings {
    if items == [] then Nil else Strings(items)
  }

  /** All entries of all mappings, in order. */
  lemma {:induction false} RequirementsExactly(m: Mapping, a: seq<Mapping>, b: seq<Mapping>)
    ensures Requirements([]) == []
    ensures Requirements([m]) == m.entries
    ensures Requirements(a + b) == Requirements(a) + Requirements(b)
  {
    assert [m][..0] == [];
    if b == [] {
      assert a + b == a;
    } else {
      var front, last := b[..|b| - 1], b[|b| - 1];
      RequirementsExactly(m, a, front);
      assert (a + b)[..|a + b| - 1] == a + front && (a + b)[|a + b| - 1] == last;
    }
  }

  /** The entry `e` of mapping `n` comes after all entries of the mappings before. */
  lemma {:induction false} RequirementAt(mappings: seq<Mapping>, n: nat, e: nat)
    requires n < |mappings| && e < |mappings[n].entries|
    ensures var at := |Requirements(mappings[..n])| + e;
            at < |Requirements(mappings)| && Requirements(mappings)[at] == mappings[n].entries[e]
  {
    var m := mappings[n];
    RequirementsExactly(m, mappings[..n] + [m], mappings[n + 1..]);
    RequirementsExactly(m, mappings[..n], [m]);
    assert mappings == mappings[..n] + [m] + mappings[n + 1..];
  }

  lemma {:induction false} NoRequirements(mappings: seq<Mapping>)
    ensures Requirements(mappings) == [] <==> forall m :: m in mappings ==> m.entries == []
  {
    if mappings != [] {
      var front, last := mappings[..|mappings| - 1], mappings[|mappings| - 1];
      NoRequirements(front);
      assert mappings == front + [last];
    }
  }

  /******* The answer of one catalog *******/

  datatype FailureReason = CatalogNotFound | ControlDataNotFound | PolicyRuleNotFound

  function Enriched(catalogId: string, info: ProcedureInfo, data: ControlData): Compliance {
    Compliance(info.requirementId, data.category, Some(info.documentation), catalogId,
               Appended(Requirements(data.mappings)), Appended(Standards(data.mappings)), EnrichmentStatus.Success)
  }

  /** What the plans recorded for a catalog say about a rule, or why nothing. */
  function Answer(plans: seq<AssessmentPlan>, scope: Scope, catalogId: string, rule: string)
    : Result<Compliance, FailureReason>
  {
    if catalogId !in scope then Failure(CatalogNotFound)
    else
      var procedures, controls := Overlay(FlatProcedures(plans)), Overlay(FlatControls(scope[catalogId].families));
      if rule !in procedures then Failure(PolicyRuleNotFound)
      else if procedures[rule].controlId !in controls then Failure(ControlDataNotFound)
      else Result.Success(Enriched(catalogId, procedures[rule], controls[procedures[rule].controlId]))
  }

  /** A catalog answers a rule exactly when it is in scope and the tables lead from the
      rule to a procedure and from its control to an entry. */
  lemma AnswerByTables(plans: seq<AssessmentPlan>, scope: Scope, catalogId: string, rule: string, c: Compliance)
    ensures Answer(plans, scope, catalogId, rule) == Result.Success(c) <==>
            && catalogId in scope
            && exists info, data ::
                 && IsLast(FlatProcedures(plans), rule, info)
                 && IsLast(FlatControls(scope[catalogId].families), info.controlId, data)
                 && c == Enriched(catalogId, info, data)
  {
    if catalogId in scope {
      var ps, cs := FlatProcedures(plans), FlatControls(scope[catalogId].families);
      OverlayFindsLast(ps, rule);
      if rule in Overlay(ps) {
        var info := Overlay(ps)[rule];
        OverlayFindsLast(cs, info.controlId);
        assert IsLast(ps, rule, info);
        if info.controlId in Overlay(cs) {
          assert IsLast(cs, info.controlId, Overlay(cs)[info.controlId]);
        }
      }
    }
  }

  /** The control data a rule leads to: that of the last entry for the control which
      the last procedure with the rule's id belongs to. */
  ghost predicate LeadsTo(plans: seq<AssessmentPlan>, catalog: Catalog, rule: string, data: ControlData) {
    exists info ::
      && IsLast(FlatProcedures(plans), rule, info)
      && IsLast(FlatControls(catalog.families), info.controlId, data)
  }

  lemma LeadsToOne(plans: seq<AssessmentPlan>, catalog: Catalog, rule: string, data: ControlData, other: ControlData)
    requires LeadsTo(plans, catalog, rule, data) && LeadsTo(plans, catalog, rule, other)
    ensures data == other
  {
    var ps, cs := FlatProcedures(plans), FlatControls(catalog.families);
    OverlayFindsLast(ps, rule);
    var info :| IsLast(ps, rule, info) && IsLast(cs, info.controlId, data);
    OverlayFindsLast(cs, info.controlId);
  }

  /** In an answer the frameworks array is nil exactly when the control that the rule
      leads to has no guideline mappings, and the requirements array exactly when
      none of its mappings has an entry. */
  lemma NilArraysExactly(plans: seq<AssessmentPlan>, scope: Scope, catalogId: string, rule: string, r: Compliance)
    requires Answer(plans, scope, catalogId, rule) == Result.Success(r)
    ensures r.frameworks == Nil <==>
            exists data :: LeadsTo(plans, scope[catalogId], rule, data) && data.mappings == []
    ensures r.requirements == Nil <==>
            exists data :: LeadsTo(plans, scope[catalogId], rule, data)
                           && forall m :: m in data.mappings ==> m.entries == []
  {
    AnswerByTables(plans, scope, catalogId, rule, r);
    var catalog := scope[catalogId];
    var info, data :| IsLast(FlatProcedures(plans), rule, info)
                      && IsLast(FlatControls(catalog.families), info.controlId, data)
                      && r == Enriched(catalogId, info, data);
    assert LeadsTo(plans, catalog, rule, data);
    forall other | LeadsTo(plans, catalog, rule, other) ensures other == data {
      LeadsToOne(plans, catalog, rule, data, other);
    }
    NoRequirements(data.mappings);
  }

  /** The smallest content that is answered with nil arrays. */
  lemma SingleProcedure(scope: Scope, plan: AssessmentPlan, a: Assessment, p: Procedure, f: ControlFamily)
    requires plan.assessments == [a] && a.procedures == [p]
    requires plan.referenceId in scope && scope[plan.referenceId].families == [f]
    requires f.controls == [Control(plan.controlId, [])]
    ensures Answer([plan], scope, plan.referenceId, p.id) ==
            Result.Success(Compliance(a.requirementId, f.title, Some(p.documentation), plan.referenceId, Nil, Nil,
                                      EnrichmentStatus.Success))
  {
    var info, data := ProcedureInfo(plan.controlId, a.requirementId, p.documentation), ControlData([], f.title);
    assert [plan][..0] == [] && [a][..0] == [] && [p][..0] == [] && [f][..0] == [] && f.controls[..0] == [];
    assert FlatAssessment(plan, a, [p]) == [Entry(p.id, info)];
    assert FlatPlan(plan, [a]) == [Entry(p.id, info)];
    assert FlatProcedures([plan]) == [Entry(p.id, info)];
    assert FlatFamily(f, f.controls) == [Entry(plan.controlId, data)];
    assert FlatControls([f]) == [Entry(plan.controlId, data)];
    OverlaySnoc([], p.id, info);
    OverlaySnoc([], plan.controlId, data);
    assert [] + [Entry(p.id, info)] == [Entry(p.id, info)];
    assert [] + [Entry(plan.controlId, data)] == [Entry(plan.controlId, data)];
  }

  /******* All catalogs, in some order *******/

  /** The keys of a map in one of the orders its iteration may take. */
  ghost predicate IsOrder(order: seq<string>, keys: set<string>) {
    && (forall i, j :: 0 <= i < j < |order| ==> order[i] != order[j])
    && (forall k :: k in order <==> k in keys)
  }

  /** The first answer in the given order, or the unmapped one. */
  ghost function MapInOrder(order: seq<string>, lists: map<string, seq<AssessmentPlan>>, scope: Scope, rule: string)
    : Compliance
    requires forall c :: c in order ==> c in lists
  {
    if order == [] then UNMAPPED
    else
      match Answer(lists[order[0]], scope, order[0], rule)
      case Success(c) => c
      case Failure(_) => MapInOrder(order[1..], lists, scope, rule)
  }

  /** The catalogs that answer a rule. */
  ghost predicate Answers(lists: map<string, seq<AssessmentPlan>>, scope: Scope, rule: string, c: string) {
    c in lists && Answer(lists[c], scope, c, rule).Success?
  }

  lemma {:induction false} MapInOrderSound(
      order: seq<string>, lists: map<string, seq<AssessmentPlan>>, scope: Scope, rule: string)
    requires forall c :: c in order ==> c in lists
    ensures var r := MapInOrder(order, lists, scope, rule);
            r == UNMAPPED || (r.catalogId in order && IsAnswerOf(r, lists, scope, rule, r.catalogId))
  {
    if order != [] {
      MapInOrderSound(order[1..], lists, scope, rule);
    }
  }

  lemma {:induction false} MapInOrderFinds(
      order: seq<string>, lists: map<string, seq<AssessmentPlan>>, scope: Scope, rule: string, c: string)
    requires forall c :: c in order ==> c in lists
    requires c in order && Answers(lists, scope, rule, c)
    ensures MapInOrder(order, lists, scope, rule).status == EnrichmentStatus.Success
  {
    if !Answers(lists, scope, rule, order[0]) {
      assert order == [order[0]] + order[1..];
      MapInOrderFinds(order[1..], lists, scope, rule, c);
    }
  }

  ghost predicate IsAnswerOf(
      r: Compliance, lists: map<string, seq<AssessmentPlan>>, scope: Scope, rule: string, c: string)
  {
    c in lists && Answer(lists[c], scope, c, rule) == Result.Success(r) && r.status == EnrichmentStatus.Success
  }

  /** Whatever the order: the result is a success exactly when some catalog
      answers, it is then the answer of such a catalog and says which, and
      otherwise it is the unmapped one. */
  lemma MapInOrderMeaning(order: seq<string>, lists: map<string, seq<AssessmentPlan>>, scope: Scope, rule: string)
    requires forall c :: c in order ==> c in lists
    ensures var r := MapInOrder(order, lists, scope, rule);
            if exists c :: c in order && Answers(lists, scope, rule, c)
            then r.catalogId in order && IsAnswerOf(r, lists, scope, rule, r.catalogId)
            else r == Compliance("UNMAPPED", "UNCATEGORIZED", None, "UNMAPPED", Strings([]), Strings([]), Unmapped)
  {
    MapInOrderSound(order, lists, scope, rule);
    if c :| c in order && Answers(lists, scope, rule, c) {
      MapInOrderFinds(order, lists, scope, rule, c);
    }
  }

  /** A result and the reasons logged on the way, for some order the iteration took:
      when no catalog answers there is one reason for each, and it is that
      catalog's. */
  ghost predicate PossibleOutcome(
      c: Compliance, reasons: seq<FailureReason>, lists: map<string, seq<AssessmentPlan>>, scope: Scope, rule: string)
  {
    exists order ::
      && IsOrder(order, lists.Keys)
      && c == MapInOrder(order, lists, scope, rule)
      && (c.status == Unmapped ==>
            && |reasons| == |order| == |lists|
            && forall i :: 0 <= i < |order| ==> Answer(lists[order[i]], scope, order[i], rule) == Failure(reasons[i]))
  }

  ghost predicate PossibleResult(c: Compliance, lists: map<string, seq<AssessmentPlan>>, scope: Scope, rule: string) {
    exists order :: IsOrder(order, lists.Keys) && c == MapInOrder(order, lists, scope, rule)
  }

  ghost predicate AtMostOneAnswers(lists: map<string, seq<AssessmentPlan>>, scope: Scope, rule: string) {
    forall c, d :: Answers(lists, scope, rule, c) && Answers(lists, scope, rule, d) ==> c == d
  }

  ghost predicate OrderIrrelevant(lists: map<string, seq<AssessmentPlan>>, scope: Scope, rule: string) {
    forall o, o' :: IsOrder(o, lists.Keys) && IsOrder(o', lists.Keys)
                    ==> MapInOrder(o, lists, scope, rule) == MapInOrder(o', lists, scope, rule)
  }

  ghost function SomeOrder(keys: set<string>): (order: seq<string>)
    ensures IsOrder(order, keys)
  {
    if keys == {} then [] else var k :| k in keys; [k] + SomeOrder(keys - {k})
  }

  lemma OneAnswerOneResult(lists: map<string, seq<AssessmentPlan>>, scope: Scope, rule: string,
                           o: seq<string>, o': seq<string>)
    requires AtMostOneAnswers(lists, scope, rule) && IsOrder(o, lists.Keys) && IsOrder(o', lists.Keys)
    ensures MapInOrder(o, lists, scope, rule) == MapInOrder(o', lists, scope, rule)
  {
    var r, r' := MapInOrder(o, lists, scope, rule), MapInOrder(o', lists, scope, rule);
    MapInOrderSound(o, lists, scope, rule);
    MapInOrderSound(o', lists, scope, rule);
    if r != UNMAPPED {
      assert Answers(lists, scope, rule, r.catalogId);
      MapInOrderFinds(o', lists, scope, rule, r.catalogId);
      assert Answers(lists, scope, rule, r'.catalogId);
    } else if r' != UNMAPPED {
      assert Answers(lists, scope, rule, r'.catalogId);
      MapInOrderFinds(o, lists, scope, rule, r'.catalogId);
    }
  }

  lemma OneResultOneAnswer(lists: map<string, seq<AssessmentPlan>>, scope: Scope, rule: string, c: string, d: string)
    requires OrderIrrelevant(lists, scope, rule)
    requires Answers(lists, scope, rule, c) && Answers(lists, scope, rule, d)
    ensures c == d
  {
    var o := FirstAnswers(lists, scope, rule, c);
    var o' := FirstAnswers(lists, scope, rule, d);
    assert MapInOrder(o, lists, scope, rule) == MapInOrder(o', lists, scope, rule);
  }

  /** The answer does not depend on the iteration order if and only if at most one
      catalog answers. */
  lemma OrderIrrelevantExactly(lists: map<string, seq<AssessmentPlan>>, scope: Scope, rule: string)
    ensures OrderIrrelevant(lists, scope, rule) <==> AtMostOneAnswers(lists, scope, rule)
  {
    if AtMostOneAnswers(lists, scope, rule) {
      forall o, o' | IsOrder(o, lists.Keys) && IsOrder(o', lists.Keys)
        ensures MapInOrder(o, lists, scope, rule) == MapInOrder(o', lists, scope, rule)
      {
        OneAnswerOneResult(lists, scope, rule, o, o');
      }
    } else if OrderIrrelevant(lists, scope, rule) {
      var c, d :| Answers(lists, scope, rule, c) && Answers(lists, scope, rule, d) && c != d;
      OneResultOneAnswer(lists, scope, rule, c, d);
    }
  }

  lemma FirstAnswers(lists: map<string, seq<AssessmentPlan>>, scope: Scope, rule: string, c: string)
    returns (o: seq<string>)
    requires Answers(lists, scope, rule, c)
    ensures IsOrder(o, lists.Keys) && MapInOrder(o, lists, scope, rule).catalogId == c
  {
    o := [c] + SomeOrder(lists.Keys - {c});
  }

  /** With a single catalog in scope, as the server is deployed, the answer is the
      same for every order: that catalog's, if it has plans. */
  lemma SingleCatalogScope(order: seq<string>, lists: map<string, seq<AssessmentPlan>>, catalog: Catalog, rule: string)
    requires IsOrder(order, lists.Keys)
    ensures var scope := map[catalog.id := catalog];
            MapInOrder(order, lists, scope, rule) ==
            if Answers(lists, scope, rule, catalog.id) then Answer(lists[catalog.id], scope, catalog.id, rule).value
            else UNMAPPED
  {
    var scope := map[catalog.id := catalog];
    MapInOrderMeaning(order, lists, scope, rule);
    if Answers(lists, scope, rule, catalog.id) {
      assert catalog.id in order;
    }
  }
}
