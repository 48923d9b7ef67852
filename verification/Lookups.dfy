/** What an answer says in terms of the loaded content itself: which plan, assessment
    and procedure a rule leads to, which family and control that leads to, and
    why there is no answer otherwise. */
module Lookups {
  import opened Wrappers
  import opened LastWins
  import opened Catalogs

  /******* Procedures *******/

  ghost predicate Maps<V>(table: map<string, V>, key: string, value: V) {
    key in table && table[key] == value
  }

  ghost predicate HasProcedure(procedures: seq<Procedure>, rule: string) {
    exists k :: 0 <= k < |procedures| && procedures[k].id == rule
  }

  ghost predicate AssessmentsHave(assessments: seq<Assessment>, rule: string) {
    exists j :: 0 <= j < |assessments| && HasProcedure(assessments[j].procedures, rule)
  }

  ghost predicate PlansHave(plans: seq<AssessmentPlan>, rule: string) {
    exists i :: 0 <= i < |plans| && AssessmentsHave(plans[i].assessments, rule)
  }

  /** `k` is the last procedure with the id. */
  ghost predicate LastOfProcedures(procedures: seq<Procedure>, rule: string, k: int) {
    0 <= k < |procedures| && procedures[k].id == rule
    && forall k' :: k < k' < |procedures| ==> procedures[k'].id != rule
  }

  /** It is in assessment `j`, and no later assessment has any. */
  ghost predicate LastOfAssessments(assessments: seq<Assessment>, rule: string, j: int, k: int) {
    0 <= j < |assessments| && LastOfProcedures(assessments[j].procedures, rule, k)
    && forall j' :: j < j' < |assessments| ==> !HasProcedure(assessments[j'].procedures, rule)
  }

  /** It is in plan `i`, and no later plan has any. */
  ghost predicate LastOfPlans(plans: seq<AssessmentPlan>, rule: string, i: int, j: int, k: int) {
    0 <= i < |plans| && LastOfAssessments(plans[i].assessments, rule, j, k)
    && forall i' :: i < i' < |plans| ==> !AssessmentsHave(plans[i'].assessments, rule)
  }

  lemma {:induction false} SomeIsLastProcedure(procedures: seq<Procedure>, rule: string)
    requires HasProcedure(procedures, rule)
    ensures exists k :: LastOfProcedures(procedures, rule, k)
  {
    var n := |procedures| - 1;
    if procedures[n].id == rule {
      assert LastOfProcedures(procedures, rule, n);
    } else {
      var k :| 0 <= k < |procedures| && procedures[k].id == rule;
      assert procedures[..n][k].id == rule;
      SomeIsLastProcedure(procedures[..n], rule);
      k :| LastOfProcedures(procedures[..n], rule, k);
      assert LastOfProcedures(procedures, rule, k);
    }
  }

  lemma {:induction false} SomeIsLastOfAssessments(assessments: seq<Assessment>, rule: string)
    requires AssessmentsHave(assessments, rule)
    ensures exists j, k :: LastOfAssessments(assessments, rule, j, k)
  {
    var n := |assessments| - 1;
    if HasProcedure(assessments[n].procedures, rule) {
      SomeIsLastProcedure(assessments[n].procedures, rule);
      var k :| LastOfProcedures(assessments[n].procedures, rule, k);
      assert LastOfAssessments(assessments, rule, n, k);
    } else {
      var j :| 0 <= j < |assessments| && HasProcedure(assessments[j].procedures, rule);
      assert HasProcedure(assessments[..n][j].procedures, rule);
      SomeIsLastOfAssessments(assessments[..n], rule);
      var j', k :| LastOfAssessments(assessments[..n], rule, j', k);
      assert LastOfAssessments(assessments, rule, j', k);
    }
  }

  lemma {:induction false} SomeIsLastOfPlans(plans: seq<AssessmentPlan>, rule: string)
    requires PlansHave(plans, rule)
    ensures exists i, j, k :: LastOfPlans(plans, rule, i, j, k)
  {
    var n := |plans| - 1;
    if AssessmentsHave(plans[n].assessments, rule) {
      SomeIsLastOfAssessments(plans[n].assessments, rule);
      var j, k :| LastOfAssessments(plans[n].assessments, rule, j, k);
      assert LastOfPlans(plans, rule, n, j, k);
    } else {
      var i :| 0 <= i < |plans| && AssessmentsHave(plans[i].assessments, rule);
      assert AssessmentsHave(plans[..n][i].assessments, rule);
      SomeIsLastOfPlans(plans[..n], rule);
      var i', j, k :| LastOfPlans(plans[..n], rule, i', j, k);
      assert LastOfPlans(plans, rule, i', j, k);
    }
  }

  lemma LastIsThere(plans: seq<AssessmentPlan>, rule: string, i: int, j: int, k: int)
    requires LastOfPlans(plans, rule, i, j, k)
    ensures PlansHave(plans, rule)
  {
    assert HasProcedure(plans[i].assessments[j].procedures, rule);
    assert AssessmentsHave(plans[i].assessments, rule);
  }

  function InfoOf(plan: AssessmentPlan, a: Assessment, p: Procedure): ProcedureInfo {
    ProcedureInfo(plan.controlId, a.requirementId, p.documentation)
  }

  lemma SnocHasProcedure(front: seq<Procedure>, p: Procedure, rule: string)
    ensures HasProcedure(front + [p], rule) <==> HasProcedure(front, rule) || p.id == rule
  {
    if k :| 0 <= k < |front| && front[k].id == rule { assert (front + [p])[k].id == rule; }
    if p.id == rule { assert (front + [p])[|front|].id == rule; }
  }

  lemma SnocAssessmentsHave(front: seq<Assessment>, a: Assessment, rule: string)
    ensures AssessmentsHave(front + [a], rule) <==> AssessmentsHave(front, rule) || HasProcedure(a.procedures, rule)
  {
    var all := front + [a];
    if j :| 0 <= j < |front| && HasProcedure(front[j].procedures, rule) { assert all[j] == front[j]; }
    if HasProcedure(a.procedures, rule) { assert all[|front|] == a; }
    if j :| 0 <= j < |all| && HasProcedure(all[j].procedures, rule) { assert j < |front| ==> all[j] == front[j]; }
  }

  lemma SnocPlansHave(front: seq<AssessmentPlan>, plan: AssessmentPlan, rule: string)
    ensures PlansHave(front + [plan], rule) <==> PlansHave(front, rule) || AssessmentsHave(plan.assessments, rule)
  {
    var all := front + [plan];
    if i :| 0 <= i < |front| && AssessmentsHave(front[i].assessments, rule) { assert all[i] == front[i]; }
    if AssessmentsHave(plan.assessments, rule) { assert all[|front|] == plan; }
    if i :| 0 <= i < |all| && AssessmentsHave(all[i].assessments, rule) { assert i < |front| ==> all[i] == front[i]; }
  }

  lemma {:induction false} AssessmentTableHas(plan: AssessmentPlan, a: Assessment, procedures: seq<Procedure>,
                                              rule: string)
    ensures rule in Overlay(FlatAssessment(plan, a, procedures)) <==> HasProcedure(procedures, rule)
  {
    if procedures != [] {
      var front, p := procedures[..|procedures| - 1], procedures[|procedures| - 1];
      assert procedures == front + [p];
      AssessmentTableHas(plan, a, front, rule);
      SnocHasProcedure(front, p, rule);
      OverlaySnoc(FlatAssessment(plan, a, front), p.id, InfoOf(plan, a, p));
    }
  }

  lemma {:induction false} PlanTableHas(plan: AssessmentPlan, assessments: seq<Assessment>, rule: string)
    ensures rule in Overlay(FlatPlan(plan, assessments)) <==> AssessmentsHave(assessments, rule)
  {
    if assessments != [] {
      var front, a := assessments[..|assessments| - 1], assessments[|assessments| - 1];
      assert assessments == front + [a];
      PlanTableHas(plan, front, rule);
      AssessmentTableHas(plan, a, a.procedures, rule);
      SnocAssessmentsHave(front, a, rule);
      OverlayConcat(FlatPlan(plan, front), FlatAssessment(plan, a, a.procedures));
    }
  }

  lemma {:induction false} ProceduresTableHas(plans: seq<AssessmentPlan>, rule: string)
    ensures rule in Overlay(FlatProcedures(plans)) <==> PlansHave(plans, rule)
  {
    if plans != [] {
      var front, plan := plans[..|plans| - 1], plans[|plans| - 1];
      assert plans == front + [plan];
      ProceduresTableHas(front, rule);
      PlanTableHas(plan, plan.assessments, rule);
      SnocPlansHave(front, plan, rule);
      OverlayConcat(FlatProcedures(front), FlatPlan(plan, plan.assessments));
    }
  }

  lemma {:induction false} AssessmentTableLast(plan: AssessmentPlan, a: Assessment, procedures: seq<Procedure>,
                                               rule: string, k: nat)
    requires LastOfProcedures(procedures, rule, k)
    ensures Maps(Overlay(FlatAssessment(plan, a, procedures)), rule, InfoOf(plan, a, procedures[k]))
  {
    var n := |procedures| - 1;
    var front, p := procedures[..n], procedures[n];
    OverlaySnoc(FlatAssessment(plan, a, front), p.id, InfoOf(plan, a, p));
    if k < n {
      AssessmentTableLast(plan, a, front, rule, k);
    }
  }

  lemma {:induction false} PlanTableLast(plan: AssessmentPlan, assessments: seq<Assessment>, rule: string,
                                         j: nat, k: nat)
    requires LastOfAssessments(assessments, rule, j, k)
    ensures Maps(Overlay(FlatPlan(plan, assessments)), rule,
                 InfoOf(plan, assessments[j], assessments[j].procedures[k]))
  {
    var n := |assessments| - 1;
    var front, a := assessments[..n], assessments[n];
    OverlayConcat(FlatPlan(plan, front), FlatAssessment(plan, a, a.procedures));
    if j < n {
      PlanTableLast(plan, front, rule, j, k);
      AssessmentTableHas(plan, a, a.procedures, rule);
    } else {
      AssessmentTableLast(plan, a, a.procedures, rule, k);
    }
  }

  /** The table of all procedures holds the last one with the id. */
  lemma {:induction false} ProceduresTableLast(plans: seq<AssessmentPlan>, rule: string, i: nat, j: nat, k: nat)
    requires LastOfPlans(plans, rule, i, j, k)
    ensures Maps(Overlay(FlatProcedures(plans)), rule,
                 InfoOf(plans[i], plans[i].assessments[j], plans[i].assessments[j].procedures[k]))
  {
    var n := |plans| - 1;
    var front, plan := plans[..n], plans[n];
    OverlayConcat(FlatProcedures(front), FlatPlan(plan, plan.assessments));
    if i < n {
      ProceduresTableLast(front, rule, i, j, k);
      PlanTableHas(plan, plan.assessments, rule);
    } else {
      PlanTableLast(plan, plan.assessments, rule, j, k);
    }
  }

  /******* Controls *******/

  ghost predicate HasControl(controls: seq<Control>, id: string) {
    exists c :: 0 <= c < |controls| && controls[c].id == id
  }

  ghost predicate FamiliesHave(families: seq<ControlFamily>, id: string) {
    exists f :: 0 <= f < |families| && HasControl(families[f].controls, id)
  }

  /** `c` is the last control with the id. */
  ghost predicate LastOfControls(controls: seq<Control>, id: string, c: int) {
    0 <= c < |controls| && controls[c].id == id
    && forall c' :: c < c' < |controls| ==> controls[c'].id != id
  }

  /** It is in family `f`, and no later family has any. */
  ghost predicate LastOfFamilies(families: seq<ControlFamily>, id: string, f: int, c: int) {
    0 <= f < |families| && LastOfControls(families[f].controls, id, c)
    && forall f' :: f < f' < |families| ==> !HasControl(families[f'].controls, id)
  }

  lemma {:induction false} SomeIsLastControl(controls: seq<Control>, id: string)
    requires HasControl(controls, id)
    ensures exists c :: LastOfControls(controls, id, c)
  {
    var n := |controls| - 1;
    if controls[n].id == id {
      assert LastOfControls(controls, id, n);
    } else {
      var c :| 0 <= c < |controls| && controls[c].id == id;
      assert controls[..n][c].id == id;
      SomeIsLastControl(controls[..n], id);
      c :| LastOfControls(controls[..n], id, c);
      assert LastOfControls(controls, id, c);
    }
  }

  lemma {:induction false} SomeIsLastOfFamilies(families: seq<ControlFamily>, id: string)
    requires FamiliesHave(families, id)
    ensures exists f, c :: LastOfFamilies(families, id, f, c)
  {
    var n := |families| - 1;
    if HasControl(families[n].controls, id) {
      SomeIsLastControl(families[n].controls, id);
      var c :| LastOfControls(families[n].controls, id, c);
      assert LastOfFamilies(families, id, n, c);
    } else {
      var f :| 0 <= f < |families| && HasControl(families[f].controls, id);
      assert HasControl(families[..n][f].controls, id);
      SomeIsLastOfFamilies(families[..n], id);
      var f', c :| LastOfFamilies(families[..n], id, f', c);
      assert LastOfFamilies(families, id, f', c);
    }
  }

  lemma SnocHasControl(front: seq<Control>, c: Control, id: string)
    ensures HasControl(front + [c], id) <==> HasControl(front, id) || c.id == id
  {
    if k :| 0 <= k < |front| && front[k].id == id { assert (front + [c])[k].id == id; }
    if c.id == id { assert (front + [c])[|front|].id == id; }
  }

  lemma SnocFamiliesHave(front: seq<ControlFamily>, f: ControlFamily, id: string)
    ensures FamiliesHave(front + [f], id) <==> FamiliesHave(front, id) || HasControl(f.controls, id)
  {
    var all := front + [f];
    if i :| 0 <= i < |front| && HasControl(front[i].controls, id) { assert all[i] == front[i]; }
    if HasControl(f.controls, id) { assert all[|front|] == f; }
    if i :| 0 <= i < |all| && HasControl(all[i].controls, id) { assert i < |front| ==> all[i] == front[i]; }
  }

  lemma {:induction false} FamilyTableHas(family: ControlFamily, controls: seq<Control>, id: string)
    ensures id in Overlay(FlatFamily(family, controls)) <==> HasControl(controls, id)
  {
    if controls != [] {
      var front, c := controls[..|controls| - 1], controls[|controls| - 1];
      assert controls == front + [c];
      FamilyTableHas(family, front, id);
      SnocHasControl(front, c, id);
      OverlaySnoc(FlatFamily(family, front), c.id, ControlData(c.guidelineMappings, family.title));
    }
  }

  lemma {:induction false} ControlsTableHas(families: seq<ControlFamily>, id: string)
    ensures id in Overlay(FlatControls(families)) <==> FamiliesHave(families, id)
  {
    if families != [] {
      var front, f := families[..|families| - 1], families[|families| - 1];
      assert families == front + [f];
      ControlsTableHas(front, id);
      FamilyTableHas(f, f.controls, id);
      SnocFamiliesHave(front, f, id);
      OverlayConcat(FlatControls(front), FlatFamily(f, f.controls));
    }
  }

  lemma {:induction false} FamilyTableLast(family: ControlFamily, controls: seq<Control>, id: string, c: nat)
    requires LastOfControls(controls, id, c)
    ensures Maps(Overlay(FlatFamily(family, controls)), id, ControlData(controls[c].guidelineMappings, family.title))
  {
    var n := |controls| - 1;
    var front, last := controls[..n], controls[n];
    OverlaySnoc(FlatFamily(family, front), last.id, ControlData(last.guidelineMappings, family.title));
    if c < n {
      FamilyTableLast(family, front, id, c);
    }
  }

  /** The table of all controls holds the last one with the id. */
  lemma {:induction false} ControlsTableLast(families: seq<ControlFamily>, id: string, f: nat, c: nat)
    requires LastOfFamilies(families, id, f, c)
    ensures Maps(Overlay(FlatControls(families)), id,
                 ControlData(families[f].controls[c].guidelineMappings, families[f].title))
  {
    var n := |families| - 1;
    var front, last := families[..n], families[n];
    OverlayConcat(FlatControls(front), FlatFamily(last, last.controls));
    if f < n {
      ControlsTableLast(front, id, f, c);
      FamilyTableHas(last, last.controls, id);
    } else {
      FamilyTableLast(last, last.controls, id, c);
    }
  }

  /******* Answers *******/

  /** The answer `r` is read off procedure `k` of assessment `j` of plan `i` and control
      `c` of family `f`: all entries of the control's mappings in order, all their
      references in order, and the other fields as they stand there. */
  ghost predicate ReadOff(r: Compliance, catalogId: string, plans: seq<AssessmentPlan>, i: int, j: int, k: int,
                          families: seq<ControlFamily>, f: int, c: int)
    requires 0 <= i < |plans| && 0 <= j < |plans[i].assessments|
    requires 0 <= k < |plans[i].assessments[j].procedures|
    requires 0 <= f < |families| && 0 <= c < |families[f].controls|
  {
    var a, mappings := plans[i].assessments[j], families[f].controls[c].guidelineMappings;
    && r.id == a.requirementId
    && r.category == families[f].title
    && r.remediationDescription == Some(a.procedures[k].documentation)
    && r.catalogId == catalogId
    && r.requirements == (if Requirements(mappings) == [] then Nil else Strings(Requirements(mappings)))
    && (if mappings == [] then r.frameworks == Nil
        else r.frameworks.Strings? && |r.frameworks.items| == |mappings|
             && forall m :: 0 <= m < |mappings| ==> r.frameworks.items[m] == mappings[m].referenceId)
    && r.status == EnrichmentStatus.Success
  }

  lemma EnrichedIsReadOff(r: Compliance, catalogId: string, plans: seq<AssessmentPlan>, i: int, j: int, k: int,
                          families: seq<ControlFamily>, f: int, c: int)
    requires 0 <= i < |plans| && 0 <= j < |plans[i].assessments|
    requires 0 <= k < |plans[i].assessments[j].procedures|
    requires 0 <= f < |families| && 0 <= c < |families[f].controls|
    ensures ReadOff(r, catalogId, plans, i, j, k, families, f, c) <==>
            r == Enriched(catalogId, InfoOf(plans[i], plans[i].assessments[j], plans[i].assessments[j].procedures[k]),
                          ControlData(families[f].controls[c].guidelineMappings, families[f].title))
  {
    var mappings := families[f].controls[c].guidelineMappings;
    if ReadOff(r, catalogId, plans, i, j, k, families, f, c) && mappings != [] {
      assert r.frameworks.items == Standards(mappings);
    }
  }

  /** The one answer a catalog in scope can give, from the content that decides it. */
  lemma AnswerFrom(plans: seq<AssessmentPlan>, scope: Scope, catalogId: string, rule: string, r: Compliance,
                   i: int, j: int, k: int, f: int, c: int)
    requires catalogId in scope && LastOfPlans(plans, rule, i, j, k)
    requires LastOfFamilies(scope[catalogId].families, plans[i].controlId, f, c)
    ensures Answer(plans, scope, catalogId, rule) == Result.Success(r) <==>
            ReadOff(r, catalogId, plans, i, j, k, scope[catalogId].families, f, c)
  {
    ProceduresTableLast(plans, rule, i, j, k);
    ControlsTableLast(scope[catalogId].families, plans[i].controlId, f, c);
    EnrichedIsReadOff(r, catalogId, plans, i, j, k, scope[catalogId].families, f, c);
  }

  /** A catalog answers a rule exactly when it is in scope, the last procedure with the
      rule's id belongs to a control of the catalog, and the answer is read off
      that procedure and the last entry for that control. */
  lemma AnswerMeaning(plans: seq<AssessmentPlan>, scope: Scope, catalogId: string, rule: string, r: Compliance)
    ensures Answer(plans, scope, catalogId, rule) == Result.Success(r) <==>
            && catalogId in scope
            && exists i, j, k, f, c ::
                 && LastOfPlans(plans, rule, i, j, k)
                 && LastOfFamilies(scope[catalogId].families, plans[i].controlId, f, c)
                 && ReadOff(r, catalogId, plans, i, j, k, scope[catalogId].families, f, c)
  {
    if Answer(plans, scope, catalogId, rule) == Result.Success(r) {
      var families := scope[catalogId].families;
      ProceduresTableHas(plans, rule);
      SomeIsLastOfPlans(plans, rule);
      var i, j, k :| LastOfPlans(plans, rule, i, j, k);
      ProceduresTableLast(plans, rule, i, j, k);
      ControlsTableHas(families, plans[i].controlId);
      SomeIsLastOfFamilies(families, plans[i].controlId);
      var f, c :| LastOfFamilies(families, plans[i].controlId, f, c);
      AnswerFrom(plans, scope, catalogId, rule, r, i, j, k, f, c);
    }
    if catalogId in scope {
      if i, j, k, f, c :| && LastOfPlans(plans, rule, i, j, k)
                          && LastOfFamilies(scope[catalogId].families, plans[i].controlId, f, c)
                          && ReadOff(r, catalogId, plans, i, j, k, scope[catalogId].families, f, c) {
        AnswerFrom(plans, scope, catalogId, rule, r, i, j, k, f, c);
      }
    }
  }

  /** Why there is no answer: the catalog is not in scope, no procedure has the rule's
      id, or the catalog has no control for the last one that has. */
  lemma FailureMeaning(plans: seq<AssessmentPlan>, scope: Scope, catalogId: string, rule: string)
    ensures Answer(plans, scope, catalogId, rule) == Failure(CatalogNotFound) <==> catalogId !in scope
    ensures Answer(plans, scope, catalogId, rule) == Failure(PolicyRuleNotFound) <==>
            catalogId in scope && !PlansHave(plans, rule)
    ensures Answer(plans, scope, catalogId, rule) == Failure(ControlDataNotFound) <==>
            && catalogId in scope
            && exists i, j, k ::
                 LastOfPlans(plans, rule, i, j, k) && !FamiliesHave(scope[catalogId].families, plans[i].controlId)
  {
    ProceduresTableHas(plans, rule);
    if catalogId in scope && PlansHave(plans, rule) {
      SomeIsLastOfPlans(plans, rule);
      forall i, j, k | LastOfPlans(plans, rule, i, j, k)
        ensures Answer(plans, scope, catalogId, rule) == Failure(ControlDataNotFound) <==>
                !FamiliesHave(scope[catalogId].families, plans[i].controlId)
      {
        ProceduresTableLast(plans, rule, i, j, k);
        ControlsTableHas(scope[catalogId].families, plans[i].controlId);
      }
    } else if catalogId in scope {
      forall i, j, k ensures !LastOfPlans(plans, rule, i, j, k) {
        if LastOfPlans(plans, rule, i, j, k) { LastIsThere(plans, rule, i, j, k); }
      }
    }
  }
}
