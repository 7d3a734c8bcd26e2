/**
 * What an evaluation means: it succeeds exactly when nothing refuses and the budgets suffice, and
 * then each group reports precisely the matching tuples, once each, in lexicographic order.
 */
module RelationshipWitnesses {
  import opened Text
  import opened BinaryRelationships
  import opened RelationshipCanonical
  import opened RelationshipMatching

  function Place(w: Witness): Probe {
    Probe(w.group, w.alternative, w.candidate, w.provide)
  }

  function Rank(slot: Slot): nat {
    if slot.Direct? then 0 else slot.index + 1
  }

  /** Alternative first, then candidate, then the package itself before its Provides. */
  predicate Before(p: Probe, p': Probe) {
    || p.alternative < p'.alternative
    || (p.alternative == p'.alternative
        && (p.candidate < p'.candidate || (p.candidate == p'.candidate && Rank(p.provide) < Rank(p'.provide))))
  }

  predicate Ascending(ps: seq<Probe>) {
    forall i, j :: 0 <= i < j < |ps| ==> Before(ps[i], ps[j])
  }

  // ---------------------------------------------------------------------------------------------
  // The probes of a group are all its tuples in order

  lemma AscendingAppend(xs: seq<Probe>, ys: seq<Probe>)
    requires Ascending(xs) && Ascending(ys)
    requires forall i, j :: 0 <= i < |xs| && 0 <= j < |ys| ==> Before(xs[i], ys[j])
    ensures Ascending(xs + ys)
  {
  }

  predicate Within(ps: seq<Probe>, g: nat, a: nat, n: nat) {
    forall i :: 0 <= i < |ps| ==> ps[i].group == g && ps[i].alternative == a && ps[i].candidate < n
  }

  lemma CandidateAscending(g: nat, a: nat, c: nat, n: nat)
    ensures Ascending(CandidateProbes(g, a, c, n))
  {
  }

  lemma {:induction false} AlternativeAscending(q: Query, g: nat, a: nat, n: nat)
    requires n <= |q.candidates|
    ensures Within(AlternativeProbes(q, g, a, n), g, a, n) && Ascending(AlternativeProbes(q, g, a, n))
  {
    if n > 0 {
      AlternativeAscending(q, g, a, n - 1);
      CandidateAscending(g, a, n - 1, Declarations(q, n - 1));
      AscendingAppend(AlternativeProbes(q, g, a, n - 1), CandidateProbes(g, a, n - 1, Declarations(q, n - 1)));
    }
  }

  lemma {:induction false} GroupAscending(q: Query, g: nat, n: nat)
    ensures forall i :: 0 <= i < |GroupProbes(q, g, n)| ==>
              GroupProbes(q, g, n)[i].group == g && GroupProbes(q, g, n)[i].alternative < n
    ensures Ascending(GroupProbes(q, g, n))
  {
    if n > 0 {
      GroupAscending(q, g, n - 1);
      AlternativeAscending(q, g, n - 1, |q.candidates|);
      AscendingAppend(GroupProbes(q, g, n - 1), AlternativeProbes(q, g, n - 1, |q.candidates|));
    }
  }

  lemma InAppend(xs: seq<Probe>, ys: seq<Probe>, p: Probe)
    ensures p in xs + ys <==> p in xs || p in ys
  {
  }

  lemma CandidateComplete(q: Query, p: Probe)
    requires ValidProbe(q, p)
    ensures p in CandidateProbes(p.group, p.alternative, p.candidate, Declarations(q, p.candidate))
  {
    var ps := CandidateProbes(p.group, p.alternative, p.candidate, Declarations(q, p.candidate));
    assert ps[Rank(p.provide)] == p;
  }

  lemma {:induction false} AlternativeComplete(q: Query, p: Probe, n: nat)
    requires ValidProbe(q, p) && p.candidate < n <= |q.candidates|
    ensures p in AlternativeProbes(q, p.group, p.alternative, n)
  {
    hide ValidProbe, CandidateProbes;
    var front := AlternativeProbes(q, p.group, p.alternative, n - 1);
    var back := CandidateProbes(p.group, p.alternative, n - 1, Declarations(q, n - 1));
    if p.candidate == n - 1 {
      CandidateComplete(q, p);
      InAppend(front, back, p);
    } else {
      AlternativeComplete(q, p, n - 1);
      InAppend(front, back, p);
    }
  }

  lemma {:induction false} GroupComplete(q: Query, p: Probe, n: nat)
    requires ValidProbe(q, p) && p.alternative < n
    ensures p in GroupProbes(q, p.group, n)
  {
    hide AlternativeProbes;
    InAppend(GroupProbes(q, p.group, n - 1), AlternativeProbes(q, p.group, n - 1, |q.candidates|), p);
    if p.alternative == n - 1 {
      assert ValidProbe(q, p);
      AlternativeComplete(q, p, |q.candidates|);
    } else {
      GroupComplete(q, p, n - 1);
    }
  }

  // ---------------------------------------------------------------------------------------------
  // Running probes, in closed form

  function Hits(q: Query, ps: seq<Probe>): seq<Probe>
    requires ValidQuery(q) && ValidProbes(q, ps)
  {
    if |ps| == 0 then []
    else
      var p := ps[|ps| - 1];
      Hits(q, ps[..|ps| - 1]) + (if ProbeVerdict(q, p) == Match then [p] else [])
  }

  lemma {:induction false} HitsExact(q: Query, ps: seq<Probe>)
    requires ValidQuery(q) && ValidProbes(q, ps)
    ensures forall p :: p in Hits(q, ps) <==> p in ps && ProbeVerdict(q, p) == Match
    ensures Ascending(ps) ==> Ascending(Hits(q, ps))
  {
    hide ValidQuery, ProbeVerdict, ValidProbe, Before;
    if |ps| > 0 {
      var front, p := ps[..|ps| - 1], ps[|ps| - 1];
      HitsExact(q, front);
      assert ps == front + [p];
      if Ascending(ps) {
        assert forall h :: h in Hits(q, front) ==> Before(h, p);
      }
    }
  }

  function BytesOf(q: Query, ps: seq<Probe>): nat
    requires ValidQuery(q) && ValidProbes(q, ps)
  {
    if |ps| == 0 then 0
    else BytesOf(q, ps[..|ps| - 1]) + WitnessBytes(WitnessOf(q, ps[|ps| - 1]))
  }

  predicate Settled(q: Query, ps: seq<Probe>)
    requires ValidQuery(q) && ValidProbes(q, ps)
  {
    forall k :: 0 <= k < |ps| ==> !ProbeVerdict(q, ps[k]).Refuse?
  }

  function Reports(q: Query, ps: seq<Probe>): (ws: seq<Witness>)
    requires ValidQuery(q) && ValidProbes(q, ps)
    ensures |ws| == |ps|
  {
    if |ps| == 0 then [] else Reports(q, ps[..|ps| - 1]) + [WitnessOf(q, ps[|ps| - 1])]
  }

  lemma {:induction false} ReportsAt(q: Query, ps: seq<Probe>, k: nat)
    requires ValidQuery(q) && ValidProbes(q, ps) && k < |ps|
    ensures Reports(q, ps)[k] == WitnessOf(q, ps[k])
  {
    hide ValidQuery, ValidProbe, WitnessOf;
    if k < |ps| - 1 {
      ReportsAt(q, ps[..|ps| - 1], k);
    }
  }

  lemma HitsValid(q: Query, ps: seq<Probe>)
    requires ValidQuery(q) && ValidProbes(q, ps)
    ensures ValidProbes(q, Hits(q, ps))
  {
    hide ValidQuery, ValidProbe, ProbeVerdict, Ascending;
    HitsExact(q, ps);
    forall k | 0 <= k < |Hits(q, ps)|
      ensures ValidProbe(q, Hits(q, ps)[k])
    {
      assert Hits(q, ps)[k] in Hits(q, ps);
    }
  }

  /** The budgets of a whole run are the sums of what its probes need, so no prefix can fail first. */
  predicate Affordable(q: Query, run: Run, ps: seq<Probe>)
    requires ValidQuery(q) && ValidProbes(q, ps)
  {
    HitsValid(q, ps);
    && Settled(q, ps)
    && run.steps + |ps| <= MAXIMUM_MATCH_STEPS
    && run.bytes + BytesOf(q, Hits(q, ps)) <= MAXIMUM_WITNESS_BYTES
  }

  lemma {:induction false} RunExact(q: Query, run: Run, ps: seq<Probe>)
    requires ValidQuery(q) && ValidProbes(q, ps)
    requires run.bytes <= MAXIMUM_WITNESS_BYTES && run.steps <= MAXIMUM_MATCH_STEPS
    ensures ValidProbes(q, Hits(q, ps))
    ensures RunProbes(q, run, ps).Ok? <==> Affordable(q, run, ps)
    ensures RunProbes(q, run, ps).Ok? ==>
              var r := RunProbes(q, run, ps).value;
              && r.steps == run.steps + |ps| && r.bytes == run.bytes + BytesOf(q, Hits(q, ps))
              && r.witnesses == run.witnesses + Reports(q, Hits(q, ps))
  {
    hide ValidQuery, ProbeVerdict, ValidProbe, WitnessOf, WitnessBytes;
    HitsValid(q, ps);
    if |ps| > 0 {
      var front, p := ps[..|ps| - 1], ps[|ps| - 1];
      RunExact(q, run, front);
      assert Settled(q, ps) <==> Settled(q, front) && !ProbeVerdict(q, p).Refuse?;
      if ProbeVerdict(q, p) == Match {
        assert Hits(q, ps)[..|Hits(q, front)|] == Hits(q, front);
      } else {
        assert Hits(q, ps) == Hits(q, front);
      }
    }
  }

  /** A run fails only where a probe refuses or a budget is exhausted. */
  lemma {:induction false} RunRefusal(q: Query, run: Run, ps: seq<Probe>)
    requires ValidQuery(q) && ValidProbes(q, ps) && RunProbes(q, run, ps).Err?
    ensures var code := RunProbes(q, run, ps).code;
            || code == LimitExceeded
            || exists k :: 0 <= k < |ps| && ProbeVerdict(q, ps[k]) == Refuse(code)
  {
    hide ValidQuery, ProbeVerdict, ValidProbe, WitnessOf, WitnessBytes;
    if |ps| > 0 {
      var front := ps[..|ps| - 1];
      if RunProbes(q, run, front).Err? {
        RunRefusal(q, run, front);
      } else {
        assert ps[|ps| - 1] == ps[|front|];
      }
    }
  }

  // ---------------------------------------------------------------------------------------------
  // Whole evaluations

  /** Every probe of the group, in the order they are made. */
  function ProbesOf(q: Query, g: nat): (ps: seq<Probe>)
    requires g < |q.field.groups|
    ensures ValidProbes(q, ps)
  {
    GroupProbesValid(q, g, |q.field.groups[g]|);
    GroupProbes(q, g, |q.field.groups[g]|)
  }

  function HitsOf(q: Query, g: nat): (ps: seq<Probe>)
    requires ValidQuery(q) && g < |q.field.groups|
    ensures ValidProbes(q, ps)
  {
    HitsValid(q, ProbesOf(q, g));
    Hits(q, ProbesOf(q, g))
  }

  lemma ProbesExact(q: Query, g: nat)
    requires g < |q.field.groups|
    ensures forall p :: p in ProbesOf(q, g) <==> ValidProbe(q, p) && p.group == g
    ensures Ascending(ProbesOf(q, g))
  {
    var ps := ProbesOf(q, g);
    GroupAscending(q, g, |q.field.groups[g]|);
    forall p | ValidProbe(q, p) && p.group == g
      ensures p in ps
    {
      GroupComplete(q, p, |q.field.groups[g]|);
    }
  }

  function TotalSteps(q: Query, n: nat): nat
    requires n <= |q.field.groups|
  {
    if n == 0 then 0 else TotalSteps(q, n - 1) + |ProbesOf(q, n - 1)|
  }

  function TotalBytes(q: Query, n: nat): nat
    requires ValidQuery(q) && n <= |q.field.groups|
  {
    if n == 0 then 0 else TotalBytes(q, n - 1) + BytesOf(q, HitsOf(q, n - 1))
  }

  /** No tuple of the first `n` groups makes the evaluation give up. */
  ghost predicate Quiet(q: Query, n: nat)
    requires ValidQuery(q)
  {
    forall p :: ValidProbe(q, p) && p.group < n ==> !ProbeVerdict(q, p).Refuse?
  }

  /** `ws` is precisely the matching tuples of group `g`, once each, in lexicographic order. */
  ghost predicate Exactly(q: Query, g: nat, ws: seq<Witness>)
    requires ValidQuery(q)
  {
    && (forall i, j :: 0 <= i < j < |ws| ==> Before(Place(ws[i]), Place(ws[j])))
    && (forall i :: 0 <= i < |ws| ==>
          && ValidProbe(q, Place(ws[i])) && ws[i].group == g
          && ProbeVerdict(q, Place(ws[i])) == Match && ws[i] == WitnessOf(q, Place(ws[i])))
    && (forall p :: ValidProbe(q, p) && p.group == g && ProbeVerdict(q, p) == Match ==>
          exists i :: 0 <= i < |ws| && Place(ws[i]) == p)
  }

  lemma QuietNext(q: Query, n: nat)
    requires ValidQuery(q) && n < |q.field.groups|
    ensures Quiet(q, n + 1) <==> Quiet(q, n) && Settled(q, ProbesOf(q, n))
  {
    hide ValidQuery, ProbeVerdict, ProbesOf, Ascending;
    ProbesExact(q, n);
    if Quiet(q, n + 1) {
      forall k | 0 <= k < |ProbesOf(q, n)|
        ensures !ProbeVerdict(q, ProbesOf(q, n)[k]).Refuse?
      {
        assert ProbesOf(q, n)[k] in ProbesOf(q, n);
      }
    }
    if Quiet(q, n) && Settled(q, ProbesOf(q, n)) {
      forall p | ValidProbe(q, p) && p.group < n + 1
        ensures !ProbeVerdict(q, p).Refuse?
      {
        if p.group == n {
          assert p in ProbesOf(q, n);
        }
      }
    }
  }

  lemma ReportsExact(q: Query, g: nat)
    requires ValidQuery(q) && g < |q.field.groups|
    ensures Exactly(q, g, Reports(q, HitsOf(q, g)))
  {
    hide ValidQuery, ProbeVerdict, ProbesOf, Before, Hits, Reports;
    var ps, hits := ProbesOf(q, g), HitsOf(q, g);
    var ws := Reports(q, hits);
    ProbesExact(q, g);
    HitsExact(q, ps);
    forall i | 0 <= i < |ws|
      ensures ws[i] == WitnessOf(q, hits[i]) && hits[i] in hits
    {
      ReportsAt(q, hits, i);
    }
    forall p | ValidProbe(q, p) && p.group == g && ProbeVerdict(q, p) == Match
      ensures exists i :: 0 <= i < |ws| && Place(ws[i]) == p
    {
      assert p in ps && p in hits;
      var i :| 0 <= i < |hits| && hits[i] == p;
      assert Place(ws[i]) == p;
    }
  }

  predicate WithinBudgets(q: Query, n: nat)
    requires ValidQuery(q) && n <= |q.field.groups|
  {
    TotalSteps(q, n) <= MAXIMUM_MATCH_STEPS && TotalBytes(q, n) <= MAXIMUM_WITNESS_BYTES
  }

  lemma QuietZero(q: Query)
    requires ValidQuery(q)
    ensures Quiet(q, 0)
  {
  }

  lemma {:induction false} GroupsExact(q: Query, n: nat)
    requires ValidQuery(q) && n <= |q.field.groups|
    ensures RunGroups(q, n).Ok? <==> Quiet(q, n) && WithinBudgets(q, n)
    ensures RunGroups(q, n).Ok? ==>
              var r := RunGroups(q, n).value;
              && r.steps == TotalSteps(q, n) && r.bytes == TotalBytes(q, n)
              && forall g :: 0 <= g < n ==> r.groups[g] == Reports(q, HitsOf(q, g))
  {
    hide ValidQuery, Quiet, RunProbes, GroupProbes, Settled, Reports, Hits, BytesOf, ValidProbe;
    if n == 0 {
      QuietZero(q);
    } else {
      GroupsExact(q, n - 1);
      QuietNext(q, n - 1);
      if RunGroups(q, n - 1).Ok? {
        var before := RunGroups(q, n - 1).value;
        RunExact(q, Run(before.steps, before.bytes, []), ProbesOf(q, n - 1));
        assert [] + Reports(q, HitsOf(q, n - 1)) == Reports(q, HitsOf(q, n - 1));
      }
    }
  }

  /**
   * An admitted evaluation succeeds if and only if no tuple is refused and the totals fit the
   * budgets; its groups then report exactly the matching tuples.
   */
  lemma EvaluateExact(q: Query)
    requires ValidQuery(q)
    ensures var n := |q.field.groups|;
            EvaluationOf(q).Ok? <==> Admission(q).None? && Quiet(q, n) && WithinBudgets(q, n)
    ensures EvaluationOf(q).Ok? ==>
              var e := EvaluationOf(q).value;
              && |e.groups| == |q.field.groups|
              && forall g :: 0 <= g < |e.groups| ==> Exactly(q, g, e.groups[g])
  {
    hide ValidQuery, Quiet, Admission, RunGroups, WithinBudgets, Exactly;
    var n := |q.field.groups|;
    GroupsExact(q, n);
    if EvaluationOf(q).Ok? {
      forall g | 0 <= g < n
        ensures Exactly(q, g, EvaluationOf(q).value.groups[g])
      {
        ReportsExact(q, g);
      }
    }
  }

  lemma EvaluationReports(q: Query)
    requires ValidQuery(q) && EvaluationOf(q).Ok?
    ensures |EvaluationOf(q).value.groups| == |q.field.groups|
    ensures forall g :: 0 <= g < |q.field.groups| ==> EvaluationOf(q).value.groups[g] == Reports(q, HitsOf(q, g))
  {
    hide ValidQuery, Quiet, Admission, RunGroups, WithinBudgets, Reports, HitsOf;
    GroupsExact(q, |q.field.groups|);
  }

  /** Some tuple of the group matches. */
  ghost predicate Satisfied(q: Query, g: nat)
    requires ValidQuery(q)
  {
    exists p :: ValidProbe(q, p) && p.group == g && ProbeVerdict(q, p) == Match
  }

  lemma ExactlyNonempty(q: Query, g: nat, ws: seq<Witness>)
    requires ValidQuery(q) && Exactly(q, g, ws)
    ensures |ws| > 0 <==> Satisfied(q, g)
  {
    hide ValidQuery, ProbeVerdict, Before, ValidProbe;
    if |ws| > 0 {
      assert ProbeVerdict(q, Place(ws[0])) == Match;
    }
  }

  /** The two summary flags are the disjunction and the conjunction over the groups. */
  lemma FlagsExact(q: Query)
    requires ValidQuery(q) && EvaluationOf(q).Ok?
    ensures var e := EvaluationOf(q).value;
            && (e.anyGroupMatched <==> exists g :: 0 <= g < |q.field.groups| && Satisfied(q, g))
            && (e.allGroupsMatched <==> forall g :: 0 <= g < |q.field.groups| ==> Satisfied(q, g))
  {
    hide ValidQuery, Exactly, RunGroups, Satisfied, Admission, Quiet, WithinBudgets;
    var e := EvaluationOf(q).value;
    EvaluateExact(q);
    forall g | 0 <= g < |e.groups|
      ensures |e.groups[g]| > 0 <==> Satisfied(q, g)
    {
      ExactlyNonempty(q, g, e.groups[g]);
    }
  }

  lemma {:induction false} GroupsRefusal(q: Query, n: nat)
    requires ValidQuery(q) && n <= |q.field.groups| && RunGroups(q, n).Err?
    ensures var code := RunGroups(q, n).code;
            || code == LimitExceeded
            || exists p :: ValidProbe(q, p) && ProbeVerdict(q, p) == Refuse(code)
  {
    hide ValidQuery, ProbeVerdict, RunProbes, GroupProbes;
    if RunGroups(q, n - 1).Err? {
      GroupsRefusal(q, n - 1);
    } else {
      var before := RunGroups(q, n - 1).value;
      var run, ps := Run(before.steps, before.bytes, []), ProbesOf(q, n - 1);
      RunRefusal(q, run, ps);
      var code := RunProbes(q, run, ps).code;
      if code != LimitExceeded {
        var k :| 0 <= k < |ps| && ProbeVerdict(q, ps[k]) == Refuse(code);
        assert ValidProbe(q, ps[k]);
      }
    }
  }

  /** Every error has its cause in the input: an admission check, a refusing tuple or a budget. */
  lemma ErrorsHaveCauses(q: Query)
    requires ValidQuery(q) && EvaluationOf(q).Err?
    ensures var code := EvaluationOf(q).code;
            || Admission(q) == Some(code)
            || (exists p :: ValidProbe(q, p) && ProbeVerdict(q, p) == Refuse(code))
            || (code == LimitExceeded && !(Quiet(q, |q.field.groups|) && WithinBudgets(q, |q.field.groups|)))
  {
    hide ValidQuery, ProbeVerdict, RunGroups, Quiet, WithinBudgets, Admission, ValidProbe;
    if Admission(q).None? {
      GroupsRefusal(q, |q.field.groups|);
      GroupsExact(q, |q.field.groups|);
    }
  }
}
