/** The basic mapper (`mapper/plugins/basic/basic.go`): plans grouped by catalog in
    Go slices that grow in place, and the lookup of a policy rule in them. */
module Mappers {
  import opened Wrappers
  import opened LastWins
  import opened Catalogs

  /******* Slices *******/

  /** A Go slice of plans: a backing array, which may be shared, and how much of it
      belongs to the slice. The capacity is the length of the array. */
  datatype Slice = Slice(backing: array<AssessmentPlan>, len: nat)

  predicate InBounds(s: Slice) {
    s.len <= s.backing.Length
  }

  function Read(s: Slice): seq<AssessmentPlan>
    requires InBounds(s)
    reads s.backing
  {
    s.backing[..s.len]
  }

  /** Appending to `s`, whose array held `before`, changes what `other` shows: there is
      room, both share the array, and `other` reaches into the part written and
      has a different plan there. */
  ghost predicate Overwrites(s: Slice, before: seq<AssessmentPlan>, added: seq<AssessmentPlan>, other: Slice) {
    && s.len + |added| <= |before|
    && other.backing == s.backing
    && exists k :: s.len <= k < s.len + |added| && k < other.len && before[k] != added[k - s.len]
  }

  /** The variadic argument of a call with a single plan: a new one-element array. */
  method OneElementSlice(plan: AssessmentPlan) returns (s: Slice)
    ensures InBounds(s) && fresh(s.backing) && Read(s) == [plan]
  {
    var a := new AssessmentPlan[1](_ => plan);
    s := Slice(a, 1);
  }

  /** How much more than needed a growing slice is given is up to the runtime. */
  method SpareCapacity() returns (spare: nat)
  {
    spare :| true;
  }

  /** Copies elements into an array; the elements were read before any is written. */
  method CopyInto(target: array<AssessmentPlan>, from: nat, added: seq<AssessmentPlan>)
    requires from + |added| <= target.Length
    modifies target
    ensures target[..from] == old(target[..from])
    ensures target[from..from + |added|] == added
    ensures target[from + |added|..] == old(target[from + |added|..])
  {
    for i := 0 to |added|
      invariant forall k :: 0 <= k < target.Length && !(from <= k < from + i) ==> target[k] == old(target[k])
      invariant forall k :: 0 <= k < i ==> target[from + k] == added[k]
    {
      target[from + i] := added[i];
    }
  }

  /** What appending makes of a slice: the same array, written behind the slice, if
      there is room; otherwise a new array, the old one being left as it was. */
  twostate predicate GrewBy(new r: Slice, s: Slice, added: seq<AssessmentPlan>)
    requires InBounds(s)
    reads s.backing
  {
    if s.len + |added| <= s.backing.Length
    then r == Slice(s.backing, s.len + |added|)
         && s.backing[..] == old(Read(s)) + added + old(s.backing[s.len + |added|..])
    else fresh(r.backing) && s.backing[..] == old(s.backing[..])
  }

  /** Go's `append(s, xs...)`: in place if the capacity suffices, which writes behind
      the slice in an array others may hold, and into a larger new array if not. */
  method Append(s: Slice, xs: Slice) returns (r: Slice)
    requires InBounds(s) && InBounds(xs)
    modifies s.backing
    ensures InBounds(r)
    ensures Read(r) == old(Read(s)) + old(Read(xs))
    ensures GrewBy(r, s, old(Read(xs)))
  {
    var kept, added := Read(s), Read(xs);
    var n := s.len + xs.len;
    var target := s.backing;
    if n > s.backing.Length {
      var spare := SpareCapacity();
      target := new AssessmentPlan[n + spare];
      CopyInto(target, 0, kept);
    }
    CopyInto(target, s.len, added);
    r := Slice(target, n);
    assert target[..n] == target[..s.len] + target[s.len..n];
    assert target[..] == target[..n] + target[n..];
  }

  /******* The mapper *******/

  /** What a list of plans becomes when a catalog's further plans are added. */
  function Extended(lists: map<string, seq<AssessmentPlan>>, catalogId: string, plans: seq<AssessmentPlan>)
    : map<string, seq<AssessmentPlan>>
  {
    lists[catalogId := (if catalogId in lists then lists[catalogId] else []) + plans]
  }

  /** Replacing the part behind the first `|kept|` elements changes the first `n` ones
      exactly if a different element is written among them. */
  lemma SameReadExactly(from: nat, before: seq<AssessmentPlan>, after: seq<AssessmentPlan>,
                        added: seq<AssessmentPlan>, n: nat)
    requires from + |added| <= |before| && n <= |before|
    requires after == before[..from] + added + before[from + |added|..]
    ensures after[..n] == before[..n] <==>
            !exists k :: from <= k < from + |added| && k < n && before[k] != added[k - from]
  {
    if after[..n] == before[..n] {
      forall k | from <= k < from + |added| && k < n ensures before[k] == added[k - from] {
        assert before[..n][k] == after[..n][k];
      }
    }
  }

  class Mapper {
    var plans: map<string, Slice>

    ghost predicate Valid()
      reads this
    {
      forall c :: c in plans ==> InBounds(plans[c])
    }

    /** The backing arrays the mapper holds. */
    function Backings(): set<array<AssessmentPlan>>
      reads this
    {
      set c | c in plans :: plans[c].backing
    }

    /** No two catalogs share a backing array. */
    ghost predicate Owned()
      reads this
    {
      forall c, d :: c in plans && d in plans && c != d ==> plans[c].backing != plans[d].backing
    }

    /** The plans of each catalog, as anyone reading the slices sees them. */
    function Lists(): map<string, seq<AssessmentPlan>>
      requires Valid()
      reads this, Backings()
    {
      map c | c in plans :: Read(plans[c])
    }

    constructor ()
      ensures Valid() && Owned() && plans == map[]
    {
      plans := map[];
    }

    /** When a slice has been set, or appended to in place or into a new array, another
        catalog's list reads as before exactly unless it was overwritten. */
    twostate lemma OthersKeptExactly(catalogId: string, new added: seq<AssessmentPlan>)
      requires old(Valid()) && Valid() && catalogId in plans
      requires forall d :: d in old(plans) && d != catalogId ==> d in plans && plans[d] == old(plans)[d]
      requires forall d :: d in old(plans) && d != catalogId ==>
                 unchanged(plans[d].backing)
                 || (catalogId in old(plans) && plans[d].backing == old(plans)[catalogId].backing)
      requires catalogId in old(plans) ==> GrewBy(plans[catalogId], old(plans)[catalogId], added)
      ensures forall d :: d in old(plans) && d != catalogId ==>
                (Read(plans[d]) == old(Read(plans[d])) <==>
                 !(catalogId in old(plans)
                   && Overwrites(old(plans)[catalogId], old(plans[catalogId].backing[..]), added, old(plans)[d])))
    {
      forall d | d in old(plans) && d != catalogId && catalogId in old(plans)
        ensures Read(plans[d]) == old(Read(plans[d])) <==>
                !Overwrites(old(plans)[catalogId], old(plans[catalogId].backing[..]), added, plans[d])
      {
        var s, other := old(plans)[catalogId], plans[d];
        if other.backing == s.backing && s.len + |added| <= s.backing.Length {
          SameReadExactly(s.len, old(s.backing[..]), s.backing[..], added, other.len);
        }
      }
    }

    /** The first slice given for a catalog is kept as it is; later ones are
        appended. The catalog's list always grows by exactly the given plans. The
        list of another catalog stays as it is unless, and only unless, the new
        plans are written over different ones of it in a shared array. */
    method AddEvaluationPlan(catalogId: string, added: Slice)
      requires Valid() && InBounds(added)
      modifies this, if catalogId in plans then {plans[catalogId].backing} else {}
      ensures Valid()
      ensures plans.Keys == old(plans.Keys) + {catalogId}
      ensures Read(plans[catalogId]) ==
              (if catalogId in old(plans) then old(Read(plans[catalogId])) else []) + old(Read(added))
      ensures forall c :: c in old(plans) && c != catalogId ==> plans[c] == old(plans)[c]
      ensures catalogId !in old(plans) ==> plans == old(plans)[catalogId := added]
      ensures catalogId in old(plans) ==>
                GrewBy(plans[catalogId], old(plans)[catalogId], old(Read(added)))
      ensures forall d :: d in old(plans) && d != catalogId ==>
                (Read(plans[d]) == old(Read(plans[d])) <==>
                 !(catalogId in old(plans)
                   && Overwrites(old(plans)[catalogId], old(plans[catalogId].backing[..]), old(Read(added)),
                                 old(plans)[d])))
    {
      if catalogId !in plans {
        plans := plans[catalogId := added];
      } else {
        var existingPlans := plans[catalogId];
        existingPlans := Append(existingPlans, added);
        plans := plans[catalogId := existingPlans];
      }
      OthersKeptExactly(catalogId, old(Read(added)));
    }

    twostate lemma ListsExtended(catalogId: string, new added: seq<AssessmentPlan>)
      requires old(Valid()) && Valid()
      requires plans.Keys == old(plans.Keys) + {catalogId}
      requires forall d :: d in old(plans) && d != catalogId ==> d in plans && Read(plans[d]) == old(Read(plans[d]))
      requires Read(plans[catalogId]) == (if catalogId in old(plans) then old(Read(plans[catalogId])) else []) + added
      ensures Lists() == Extended(old(Lists()), catalogId, added)
    {
    }

    /** What this comes to when no array is shared: only the catalog's own list
        changes, and still nothing is shared. */
    twostate lemma OwnedGrows(catalogId: string, new added: seq<AssessmentPlan>)
      requires old(Valid()) && Valid() && old(Owned())
      requires plans.Keys == old(plans.Keys) + {catalogId}
      requires forall c :: c in old(plans) && c != catalogId ==>
                 plans[c] == old(plans)[c] && plans[c].backing != plans[catalogId].backing
      requires Read(plans[catalogId]) == (if catalogId in old(plans) then old(Read(plans[catalogId])) else []) + added
      requires forall d :: d in old(plans) && d != catalogId ==>
                (Read(plans[d]) == old(Read(plans[d])) <==>
                 !(catalogId in old(plans)
                   && Overwrites(old(plans)[catalogId], old(plans[catalogId].backing[..]), added, old(plans)[d])))
      ensures Owned()
      ensures Lists() == Extended(old(Lists()), catalogId, added)
      ensures Backings() <= old(Backings()) + {plans[catalogId].backing}
    {
      ListsExtended(catalogId, added);
    }

    /** Go leaves the order of a map iteration open: any order may be returned. */
    static method IterationOrder(keys: set<string>) returns (order: seq<string>)
      ensures IsOrder(order, keys)
    {
      order := [];
      var left := keys;
      while left != {}
        invariant left <= keys
        invariant IsOrder(order, keys - left)
      {
        var k :| k in left;
        left := left - {k};
        order := order + [k];
      }
    }

    /** Procedure id to procedure, the last one winning. */
    method BuildProceduresMap(plans: seq<AssessmentPlan>) returns (proceduresById: map<string, ProcedureInfo>)
      ensures proceduresById == Overlay(FlatProcedures(plans))
    {
      proceduresById := map[];
      assert plans[..0] == [];
      for i := 0 to |plans|
        invariant proceduresById == Overlay(FlatProcedures(plans[..i]))
      {
        var plan := plans[i];
        ghost var before := FlatProcedures(plans[..i]);
        assert plan.assessments[..0] == [] && before + [] == before;
        for j := 0 to |plan.assessments|
          invariant proceduresById == Overlay(before + FlatPlan(plan, plan.assessments[..j]))
        {
          var requirement := plan.assessments[j];
          ghost var before' := before + FlatPlan(plan, plan.assessments[..j]);
          assert requirement.procedures[..0] == [] && before' + [] == before';
          for k := 0 to |requirement.procedures|
            invariant proceduresById ==
                      Overlay(before' + FlatAssessment(plan, requirement, requirement.procedures[..k]))
          {
            var procedure := requirement.procedures[k];
            var info := ProcedureInfo(plan.controlId, requirement.requirementId, procedure.documentation);
            NextProcedure(before', plan, requirement, k);
            proceduresById := proceduresById[procedure.id := info];
          }
          NextAssessment(before, plan, j);
        }
        NextPlan(plans, i);
      }
      assert plans[..|plans|] == plans;
    }

    /** Control id to mappings and family title, the last control winning. */
    method BuildControlDataMap(catalog: Catalog) returns (controlData: map<string, ControlData>)
      ensures controlData == Overlay(FlatControls(catalog.families))
    {
      controlData := map[];
      var families := catalog.families;
      assert families[..0] == [];
      for i := 0 to |families|
        invariant controlData == Overlay(FlatControls(families[..i]))
      {
        var family := families[i];
        ghost var before := FlatControls(families[..i]);
        assert family.controls[..0] == [] && before + [] == before;
        for j := 0 to |family.controls|
          invariant controlData == Overlay(before + FlatFamily(family, family.controls[..j]))
        {
          var control := family.controls[j];
          NextControl(before, family, j);
          controlData := controlData[control.id := ControlData(control.guidelineMappings, family.title)];
        }
        NextFamily(families, i);
      }
      assert families[..|families|] == families;
    }

    method ExtractRequirements(mappings: seq<Mapping>) returns (requirements: GoStrings)
      ensures requirements == Appended(Requirements(mappings))
    {
      var ids := [];
      assert mappings[..0] == [];
      for i := 0 to |mappings|
        invariant ids == Requirements(mappings[..i])
      {
        var entries := mappings[i].entries;
        ghost var before := ids;
        for j := 0 to |entries|
          invariant ids == before + entries[..j]
        {
          ids := ids + [entries[j]];
        }
        assert entries[..|entries|] == entries && mappings[..i + 1][..i] == mappings[..i];
      }
      assert mappings[..|mappings|] == mappings;
      requirements := if ids == [] then Nil else Strings(ids);
    }

    method ExtractStandards(mappings: seq<Mapping>) returns (standards: GoStrings)
      ensures standards == Appended(Standards(mappings))
    {
      var ids := [];
      for i := 0 to |mappings|
        invariant |ids| == i && forall j :: 0 <= j < i ==> ids[j] == mappings[j].referenceId
      {
        ids := ids + [mappings[i].referenceId];
      }
      assert ids == Standards(mappings);
      standards := if ids == [] then Nil else Strings(ids);
    }

    /** One round of the lookup: what one catalog says about a rule. */
    method MapCatalog(policy: Policy, scope: Scope, catalogId: string, plans: seq<AssessmentPlan>)
      returns (result: Result<Compliance, FailureReason>)
      ensures result == Answer(plans, scope, catalogId, policy.policyRuleId)
    {
      if catalogId !in scope {
        return Failure(CatalogNotFound);
      }
      var proceduresById := BuildProceduresMap(plans);
      var controlData := BuildControlDataMap(scope[catalogId]);
      if policy.policyRuleId !in proceduresById {
        return Failure(PolicyRuleNotFound);
      }
      var procedureInfo := proceduresById[policy.policyRuleId];
      if procedureInfo.controlId !in controlData {
        return Failure(ControlDataNotFound);
      }
      var ctrlData := controlData[procedureInfo.controlId];
      var requirements := ExtractRequirements(ctrlData.mappings);
      var standards := ExtractStandards(ctrlData.mappings);
      return Result.Success(
          Compliance(procedureInfo.requirementId, ctrlData.category, Some(procedureInfo.documentation),
                     catalogId, requirements, standards, EnrichmentStatus.Success));
    }

    /** Looks a rule up in every catalog, in the order the runtime picks, until one
        answers. When none does, there is one reason for each catalog. */
    method Map(policy: Policy, scope: Scope) returns (compliance: Compliance, failureReasons: seq<FailureReason>)
      requires Valid()
      ensures PossibleOutcome(compliance, failureReasons, Lists(), scope, policy.policyRuleId)
    {
      var lists := Lists();
      var catalogIds := IterationOrder(lists.Keys);
      OrderLength(catalogIds, lists.Keys);
      compliance, failureReasons := MapLists(policy, scope, lists, catalogIds);
      assert lists == Lists();
      assert |lists| == |lists.Keys|;
    }

    method MapLists(policy: Policy, scope: Scope, lists: map<string, seq<AssessmentPlan>>, catalogIds: seq<string>)
      returns (compliance: Compliance, failureReasons: seq<FailureReason>)
      requires forall c :: c in catalogIds ==> c in lists
      ensures compliance == MapInOrder(catalogIds, lists, scope, policy.policyRuleId)
      ensures compliance.status == Unmapped ==>
                && |failureReasons| == |catalogIds|
                && forall i :: 0 <= i < |catalogIds| ==>
                     Answer(lists[catalogIds[i]], scope, catalogIds[i], policy.policyRuleId)
                     == Failure(failureReasons[i])
    {
      failureReasons := [];
      ghost var rule := policy.policyRuleId;
      assert catalogIds[0..] == catalogIds;
      for i := 0 to |catalogIds|
        invariant |failureReasons| == i
        invariant forall j :: 0 <= j < i ==>
                    Answer(lists[catalogIds[j]], scope, catalogIds[j], rule) == Failure(failureReasons[j])
        invariant MapInOrder(catalogIds, lists, scope, rule) == MapInOrder(catalogIds[i..], lists, scope, rule)
      {
        var catalogId := catalogIds[i];
        assert catalogIds[i..][1..] == catalogIds[i + 1..];
        var result := MapCatalog(policy, scope, catalogId, lists[catalogId]);
        match result {
          case Success(c) =>
            compliance := c;
            return;
          case Failure(reason) =>
            failureReasons := failureReasons + [reason];
        }
      }
      compliance := Compliance("UNMAPPED", "UNCATEGORIZED", None, "UNMAPPED", Strings([]), Strings([]), Unmapped);
    }
  }

  lemma {:induction false} OrderLength(order: seq<string>, keys: set<string>)
    requires IsOrder(order, keys)
    ensures |order| == |keys|
  {
    if order == [] {
      assert keys == {};
    } else {
      var front, k := order[..|order| - 1], order[|order| - 1];
      assert order == front + [k];
      OrderLength(front, keys - {k});
    }
  }

  /******* One more round of the nested loops *******/

  lemma NextProcedure(before: seq<Entry<ProcedureInfo>>, plan: AssessmentPlan, a: Assessment, k: nat)
    requires k < |a.procedures|
    ensures var p := a.procedures[k];
            Overlay(before + FlatAssessment(plan, a, a.procedures[..k + 1]))
            == Overlay(before + FlatAssessment(plan, a, a.procedures[..k]))
                 [p.id := ProcedureInfo(plan.controlId, a.requirementId, p.documentation)]
  {
    var p := a.procedures[k];
    var done := FlatAssessment(plan, a, a.procedures[..k]);
    var info := ProcedureInfo(plan.controlId, a.requirementId, p.documentation);
    assert a.procedures[..k + 1][..k] == a.procedures[..k];
    assert before + (done + [Entry(p.id, info)]) == before + done + [Entry(p.id, info)];
    OverlaySnoc(before + done, p.id, info);
  }

  lemma NextAssessment(before: seq<Entry<ProcedureInfo>>, plan: AssessmentPlan, j: nat)
    requires j < |plan.assessments|
    ensures var a := plan.assessments[j];
            before + FlatPlan(plan, plan.assessments[..j + 1])
            == before + FlatPlan(plan, plan.assessments[..j]) + FlatAssessment(plan, a, a.procedures[..|a.procedures|])
  {
    var a := plan.assessments[j];
    assert plan.assessments[..j + 1][..j] == plan.assessments[..j];
    assert a.procedures[..|a.procedures|] == a.procedures;
    Associative(before, FlatPlan(plan, plan.assessments[..j]), FlatAssessment(plan, a, a.procedures));
  }

  lemma NextPlan(plans: seq<AssessmentPlan>, i: nat)
    requires i < |plans|
    ensures FlatProcedures(plans[..i + 1])
            == FlatProcedures(plans[..i]) + FlatPlan(plans[i], plans[i].assessments[..|plans[i].assessments|])
  {
    assert plans[..i + 1][..i] == plans[..i];
    assert plans[i].assessments[..|plans[i].assessments|] == plans[i].assessments;
  }

  lemma NextControl(before: seq<Entry<ControlData>>, family: ControlFamily, j: nat)
    requires j < |family.controls|
    ensures var c := family.controls[j];
            Overlay(before + FlatFamily(family, family.controls[..j + 1]))
            == Overlay(before + FlatFamily(family, family.controls[..j]))
                 [c.id := ControlData(c.guidelineMappings, family.title)]
  {
    var c := family.controls[j];
    var done, data := FlatFamily(family, family.controls[..j]), ControlData(c.guidelineMappings, family.title);
    assert family.controls[..j + 1][..j] == family.controls[..j];
    assert before + (done + [Entry(c.id, data)]) == before + done + [Entry(c.id, data)];
    OverlaySnoc(before + done, c.id, data);
  }

  lemma NextFamily(families: seq<ControlFamily>, i: nat)
    requires i < |families|
    ensures FlatControls(families[..i + 1])
            == FlatControls(families[..i]) + FlatFamily(families[i], families[i].controls[..|families[i].controls|])
  {
    assert families[..i + 1][..i] == families[..i];
    assert families[i].controls[..|families[i].controls|] == families[i].controls;
  }

  /******* Why the ownership of backing arrays matters *******/

  /** With room behind the slice, adding a plan is one assignment to the shared array. */
  method AddWithinCapacity(m: Mapper, catalogId: string, plan: AssessmentPlan)
    requires m.Valid() && catalogId in m.plans && m.plans[catalogId].len < m.plans[catalogId].backing.Length
    modifies m, m.plans[catalogId].backing
    ensures var s := old(m.plans[catalogId]);
            && m.plans == old(m.plans)[catalogId := Slice(s.backing, s.len + 1)]
            && s.backing[..] == old(s.backing[..])[s.len := plan]
  {
    ghost var keys := m.plans.Keys;
    var one := OneElementSlice(plan);
    m.AddEvaluationPlan(catalogId, one);
    assert keys + {catalogId} == keys;
  }

  method TwoWithOneSlice(p: AssessmentPlan) returns (m: Mapper, backing: array<AssessmentPlan>)
    ensures fresh(m) && m.Valid() && fresh(backing) && backing[..] == [p, p]
    ensures m.plans == map["a" := Slice(backing, 1), "b" := Slice(backing, 1)]
  {
    m := new Mapper();
    backing := new AssessmentPlan[2](_ => p);
    m.AddEvaluationPlan("a", Slice(backing, 1));
    m.AddEvaluationPlan("b", Slice(backing, 1));
  }

  /** If two catalogs are given the same slice with spare capacity, a plan added
      for the second takes the place of the plan added for the first. */
  method SharedCapacityLosesAPlan(p: AssessmentPlan, x: AssessmentPlan, y: AssessmentPlan) returns (m: Mapper)
    ensures fresh(m) && m.Valid() && m.plans.Keys == {"a", "b"}
    ensures Read(m.plans["a"]) == Read(m.plans["b"]) == [p, y]
  {
    var backing;
    m, backing := TwoWithOneSlice(p);
    AddWithinCapacity(m, "a", x);
    AddWithinCapacity(m, "b", y);
    assert backing[..2] == backing[..] == [p, y];
  }
}
