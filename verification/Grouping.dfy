/** Grouping plans by the catalog their control is from, keeping their order. */
module Grouping {
  import opened LastWins
  import opened Catalogs
  import opened Mappers

  /** The groups after every plan with a reference id has been added in turn. */
  function GroupBy(plans: seq<AssessmentPlan>): map<string, seq<AssessmentPlan>> {
    if plans == [] then map[]
    else
      var p := plans[|plans| - 1];
      var groups := GroupBy(plans[..|plans| - 1]);
      if p.referenceId == "" then groups else Extended(groups, p.referenceId, [p])
  }

  /** The plans whose reference id is one of `ids`, in order. */
  function PlansIn(plans: seq<AssessmentPlan>, ids: set<string>): seq<AssessmentPlan> {
    if plans == [] then []
    else
      var front, p := PlansIn(plans[..|plans| - 1], ids), plans[|plans| - 1];
      if p.referenceId in ids then front + [p] else front
  }

  ghost function ReferenceIds(plans: seq<AssessmentPlan>): set<string> {
    set p | p in plans && p.referenceId != "" :: p.referenceId
  }

  /** Grouping is a stable partition: there is a group for every non-empty reference
      id that occurs and no other, and it is the subsequence of its plans. */
  lemma {:induction false} GroupByMeaning(plans: seq<AssessmentPlan>)
    ensures GroupBy(plans).Keys == ReferenceIds(plans)
    ensures forall c :: c in GroupBy(plans) <==> c != "" && exists p :: p in plans && p.referenceId == c
    ensures forall c :: c in GroupBy(plans) ==> GroupBy(plans)[c] == PlansIn(plans, {c})
  {
    if plans != [] {
      var front, p := plans[..|plans| - 1], plans[|plans| - 1];
      GroupByMeaning(front);
      assert plans == front + [p];
      assert ReferenceIds(plans) == ReferenceIds(front) + if p.referenceId == "" then {} else {p.referenceId};
      if p.referenceId !in ReferenceIds(front) {
        NoPlansIn(front, p.referenceId);
      }
    }
  }

  /** Taking the subsequence goes plan by plan. */
  lemma {:induction false} PlansInExactly(ids: set<string>, p: AssessmentPlan, a: seq<AssessmentPlan>,
                                          b: seq<AssessmentPlan>)
    ensures PlansIn([], ids) == []
    ensures PlansIn([p], ids) == if p.referenceId in ids then [p] else []
    ensures PlansIn(a + b, ids) == PlansIn(a, ids) + PlansIn(b, ids)
  {
    assert [p][..0] == [];
    if b == [] {
      assert a + b == a;
    } else {
      var front, last := b[..|b| - 1], b[|b| - 1];
      PlansInExactly(ids, p, a, front);
      assert (a + b)[..|a + b| - 1] == a + front && (a + b)[|a + b| - 1] == last;
    }
  }

  lemma {:induction false} NoPlansIn(plans: seq<AssessmentPlan>, c: string)
    requires c != "" ==> c !in ReferenceIds(plans)
    ensures c != "" ==> PlansIn(plans, {c}) == []
  {
    if plans != [] {
      var front, p := plans[..|plans| - 1], plans[|plans| - 1];
      assert plans == front + [p];
      assert p in plans;
      NoPlansIn(front, c);
    }
  }

  /** All groups, one after the other in the given order of their keys. */
  function Regrouped(groups: map<string, seq<AssessmentPlan>>, order: seq<string>): seq<AssessmentPlan>
    requires forall c :: c in order ==> c in groups
  {
    if order == [] then []
    else Regrouped(groups, order[..|order| - 1]) + groups[order[|order| - 1]]
  }

  lemma {:induction false} SplitPlansIn(plans: seq<AssessmentPlan>, ids: set<string>, c: string)
    requires c !in ids
    ensures multiset(PlansIn(plans, ids + {c})) == multiset(PlansIn(plans, ids)) + multiset(PlansIn(plans, {c}))
  {
    if plans != [] {
      SplitPlansIn(plans[..|plans| - 1], ids, c);
    }
  }

  lemma {:induction false} NothingIn(plans: seq<AssessmentPlan>)
    ensures PlansIn(plans, {}) == []
  {
    if plans != [] {
      NothingIn(plans[..|plans| - 1]);
    }
  }

  lemma {:induction false} RegroupedPlans(plans: seq<AssessmentPlan>, order: seq<string>, keys: set<string>)
    requires IsOrder(order, keys) && keys <= GroupBy(plans).Keys
    ensures multiset(Regrouped(GroupBy(plans), order)) == multiset(PlansIn(plans, keys))
  {
    if order == [] {
      assert keys == {};
      NothingIn(plans);
    } else {
      var front, c := order[..|order| - 1], order[|order| - 1];
      assert order == front + [c];
      RegroupedPlans(plans, front, keys - {c});
      SplitPlansIn(plans, keys - {c}, c);
      assert keys - {c} + {c} == keys;
      GroupByMeaning(plans);
    }
  }

  /** Grouping loses nothing and invents nothing: whichever way the groups are walked,
      together they hold exactly the plans that have a reference id, each as often
      as it was given. */
  lemma {:induction false} GroupingConserves(plans: seq<AssessmentPlan>, order: seq<string>)
    requires IsOrder(order, GroupBy(plans).Keys)
    ensures multiset(Regrouped(GroupBy(plans), order)) == multiset(PlansIn(plans, ReferenceIds(plans)))
    ensures forall p :: p in plans && p.referenceId != "" ==> p in PlansIn(plans, ReferenceIds(plans))
  {
    GroupByMeaning(plans);
    RegroupedPlans(plans, order, GroupBy(plans).Keys);
    PlansInElements(plans, ReferenceIds(plans));
  }

  lemma {:induction false} PlansInElements(plans: seq<AssessmentPlan>, ids: set<string>)
    ensures forall p :: p in PlansIn(plans, ids) <==> p in plans && p.referenceId in ids
  {
    if plans != [] {
      var front, p := plans[..|plans| - 1], plans[|plans| - 1];
      PlansInElements(front, ids);
      assert plans == front + [p];
    }
  }
}
