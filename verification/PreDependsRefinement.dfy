/**
 * The two-phase Pre-Depends evaluation against the one-phase matcher: readiness implies that the
 * matcher satisfies every group as soon as it can answer at all, and when nothing is historical
 * or queued both report the same matches.
 */
module PreDependsRefinement {
  import opened Text
  import opened Packages
  import opened BinaryRelationships
  import opened RelationshipCanonical
  import opened RelationshipMatching
  import opened RelationshipWitnesses
  import opened Versionless
  import opened PreDepends
  import opened PreDependsReasons

  // ---------------------------------------------------------------------------------------------
  // One tuple under both queries

  lemma SameProbe(i: Input, p: Probe)
    ensures ValidProbe(Full(i), p) <==> ValidProbe(Structural(i), p)
  {
  }

  function AtomFor(i: Input, p: Probe): Atom
    requires ValidProbe(Full(i), p)
  {
    i.field.groups[p.group][p.alternative]
  }

  function VersionFor(i: Input, p: Probe): string
    requires ValidInput(i) && ValidProbe(Full(i), p)
  {
    QueriesValid(i);
    WitnessOf(Full(i), p).comparedVersion
  }

  /** The tuple matches when versions are ignored. */
  predicate ShapeMatches(i: Input, p: Probe)
    requires ValidInput(i) && ValidProbe(Full(i), p)
  {
    QueriesValid(i);
    SameProbe(i, p);
    ProbeVerdict(Structural(i), p) == Match
  }

  function VersionAnswer(i: Input, p: Probe): Verdict
    requires ValidInput(i) && ValidProbe(Full(i), p)
  {
    VersionVerdict(i.compare, AtomFor(i, p), VersionFor(i, p))
  }

  /** Matching is matching the shape and then the version. */
  lemma VerdictSplits(i: Input, p: Probe)
    requires ValidInput(i) && i.field.kind == PreDepends && ValidProbe(Full(i), p)
    ensures ValidQuery(Full(i)) && ValidQuery(Structural(i)) && ValidProbe(Structural(i), p)
    ensures WitnessOf(Structural(i), p) == WitnessOf(Full(i), p)
    ensures ProbeVerdict(Full(i), p) ==
            if ShapeMatches(i, p) then VersionAnswer(i, p) else ProbeVerdict(Structural(i), p)
  {
    hide ValidQuery, ValidInput, SelfExcluded, ArchitectureMatches;
    QueriesValid(i);
    SameProbe(i, p);
    var candidate := Full(i).candidates[p.candidate];
    var provide := ProvideOf(Full(i), p);
    ShapeIgnoresVersion(i, p, candidate, provide);
  }

  lemma ShapeIgnoresVersion(i: Input, p: Probe, candidate: Package, provide: Option<Atom>)
    requires ValidProbe(Full(i), p)
    ensures ShapeVerdict(Structural(i), StripAtom(AtomFor(i, p)), candidate, provide)
            == ShapeVerdict(Full(i), AtomFor(i, p), candidate, provide)
  {
  }

  // ---------------------------------------------------------------------------------------------
  // Both queries make the same probes, and the full one never needs more of a budget

  lemma {:induction false} SameAlternativeProbes(i: Input, g: nat, a: nat, n: nat)
    requires n <= |Candidates(i)|
    ensures AlternativeProbes(Full(i), g, a, n) == AlternativeProbes(Structural(i), g, a, n)
  {
    hide CandidateProbes;
    if n > 0 { SameAlternativeProbes(i, g, a, n - 1); }
  }

  lemma {:induction false} SameGroupProbes(i: Input, g: nat, n: nat)
    ensures GroupProbes(Full(i), g, n) == GroupProbes(Structural(i), g, n)
  {
    hide AlternativeProbes;
    if n > 0 {
      SameGroupProbes(i, g, n - 1);
      SameAlternativeProbes(i, g, n - 1, |Candidates(i)|);
    }
  }

  lemma SameProbes(i: Input, g: nat)
    requires g < |i.field.groups|
    ensures ProbesOf(Full(i), g) == ProbesOf(Structural(i), g)
  {
    hide GroupProbes;
    SameGroupProbes(i, g, |i.field.groups[g]|);
  }

  predicate BothValid(i: Input, ps: seq<Probe>) {
    ValidProbes(Full(i), ps) && ValidProbes(Structural(i), ps)
  }

  lemma {:induction false} FewerBytes(i: Input, ps: seq<Probe>)
    requires ValidInput(i) && i.field.kind == PreDepends && BothValid(i, ps)
    ensures ValidQuery(Full(i)) && ValidQuery(Structural(i))
    ensures ValidProbes(Full(i), Hits(Full(i), ps)) && ValidProbes(Structural(i), Hits(Structural(i), ps))
    ensures BytesOf(Full(i), Hits(Full(i), ps)) <= BytesOf(Structural(i), Hits(Structural(i), ps))
  {
    hide ValidQuery, ValidInput, ProbeVerdict, WitnessOf, WitnessBytes, ValidProbe, VersionAnswer, ShapeMatches, Full, Structural;
    QueriesValid(i);
    HitsValid(Full(i), ps);
    HitsValid(Structural(i), ps);
    if |ps| > 0 {
      var front, p := ps[..|ps| - 1], ps[|ps| - 1];
      FewerBytes(i, front);
      HitsStep(Full(i), ps);
      HitsStep(Structural(i), ps);
      VerdictSplits(i, p);
      MatchNeedsShape(i, p);
    }
  }

  lemma MatchNeedsShape(i: Input, p: Probe)
    requires ValidInput(i) && i.field.kind == PreDepends && ValidProbe(Full(i), p)
    ensures ValidQuery(Full(i)) && ValidQuery(Structural(i)) && ValidProbe(Structural(i), p)
    ensures ProbeVerdict(Full(i), p) == Match ==> ProbeVerdict(Structural(i), p) == Match
  {
    hide ValidQuery, ValidInput, ProbeVerdict, WitnessOf, ValidProbe, VersionAnswer;
    VerdictSplits(i, p);
  }

  /** The bytes of the hits of one more probe. */
  lemma HitsStep(q: Query, ps: seq<Probe>)
    requires ValidQuery(q) && ValidProbes(q, ps) && |ps| > 0
    ensures var front, p := ps[..|ps| - 1], ps[|ps| - 1];
            && ValidProbes(q, Hits(q, ps)) && ValidProbes(q, Hits(q, front))
            && BytesOf(q, Hits(q, ps)) ==
               BytesOf(q, Hits(q, front)) + (if ProbeVerdict(q, p) == Match then WitnessBytes(WitnessOf(q, p)) else 0)
  {
    hide ValidQuery, ProbeVerdict, WitnessOf, WitnessBytes, ValidProbe;
    var front, p := ps[..|ps| - 1], ps[|ps| - 1];
    HitsValid(q, ps);
    HitsValid(q, front);
    if ProbeVerdict(q, p) == Match {
      assert Hits(q, ps)[..|Hits(q, front)|] == Hits(q, front);
    } else {
      assert Hits(q, ps) == Hits(q, front);
    }
  }

  lemma {:induction false} FewerTotals(i: Input, n: nat)
    requires ValidInput(i) && i.field.kind == PreDepends && n <= |i.field.groups|
    ensures ValidQuery(Full(i)) && ValidQuery(Structural(i))
    ensures TotalSteps(Full(i), n) == TotalSteps(Structural(i), n)
    ensures TotalBytes(Full(i), n) <= TotalBytes(Structural(i), n)
  {
    hide ValidQuery, ValidInput, ProbesOf, Hits, BytesOf, ValidProbe, StripGroup;
    QueriesValid(i);
    if n > 0 {
      FewerTotals(i, n - 1);
      SameProbes(i, n - 1);
      FewerBytes(i, ProbesOf(Full(i), n - 1));
    }
  }

  // ---------------------------------------------------------------------------------------------
  // When the one-phase matcher answers

  lemma SameQualifiers(i: Input)
    ensures NativeQualified(i.field) <==> NativeQualified(Shape(i.field))
  {
    var f, s := i.field, Shape(i.field);
    if NativeQualified(f) {
      var g, a :| 0 <= g < |f.groups| && 0 <= a < |f.groups[g]| && f.groups[g][a].qualifier == Native;
      assert s.groups[g][a].qualifier == Native;
    }
    if NativeQualified(s) {
      var g, a :| 0 <= g < |s.groups| && 0 <= a < |s.groups[g]| && s.groups[g][a].qualifier == Native;
      assert f.groups[g][a].qualifier == Native;
    }
  }

  predicate InputFits(i: Input) {
    InputBytes(Full(i), |Candidates(i)|) <= MAXIMUM_INPUT_BYTES
  }

  lemma AdmissionSplits(i: Input)
    requires Admission(Structural(i)).None?
    ensures Admission(Full(i)).None? <==> InputFits(i)
  {
    hide NativeQualified, InputBytes, Shape;
    SameQualifiers(i);
    assert Shape(i.field).kind == i.field.kind by { KindKept(i.field); }
  }

  lemma KindKept(f: Field)
    ensures Shape(f).kind == f.kind
  {
  }

  /** The comparator answers on every tuple whose shape matches, eligible or not. */
  ghost predicate Comparable(i: Input)
    requires ValidInput(i)
  {
    forall p :: ValidProbe(Full(i), p) && ShapeMatches(i, p) ==> !VersionAnswer(i, p).Refuse?
  }

  lemma QuietSplits(i: Input, n: nat)
    requires ValidInput(i) && i.field.kind == PreDepends && n == |i.field.groups|
    ensures ValidQuery(Full(i)) && ValidQuery(Structural(i))
    ensures Quiet(Structural(i), n) ==> (Quiet(Full(i), n) <==> Comparable(i))
  {
    hide ValidQuery, ValidInput, ProbeVerdict, WitnessOf, VersionAnswer;
    QueriesValid(i);
    forall p | ValidProbe(Full(i), p)
      ensures ValidProbe(Structural(i), p)
      ensures ProbeVerdict(Full(i), p) ==
              if ShapeMatches(i, p) then VersionAnswer(i, p) else ProbeVerdict(Structural(i), p)
    {
      VerdictSplits(i, p);
    }
  }

  /**
   * Once a decision was reached, the one-phase matcher succeeds on the same candidates if and
   * only if the text of the full field also fits its input budget and the comparator answers
   * on every structural match, ineligible ones included.
   */
  lemma OnePhaseAnswers(i: Input)
    requires ValidInput(i) && DecisionOf(i).Ok?
    ensures ValidQuery(Full(i))
    ensures EvaluationOf(Full(i)).Ok? <==> InputFits(i) && Comparable(i)
  {
    hide ValidInput, ValidQuery, Quiet, Admission, WithinBudgets, InputFits, Comparable, EvaluationOf, Exactly, CourseOf,
         StepsReserved, FieldOf, Aligned;
    var n := |i.field.groups|;
    QueriesValid(i);
    EvaluateExact(Structural(i));
    EvaluateExact(Full(i));
    AdmissionSplits(i);
    QuietSplits(i, n);
    BudgetsSplit(i);
  }

  lemma BudgetsSplit(i: Input)
    requires ValidInput(i) && i.field.kind == PreDepends
    ensures ValidQuery(Full(i)) && ValidQuery(Structural(i))
    ensures WithinBudgets(Structural(i), |i.field.groups|) ==> WithinBudgets(Full(i), |i.field.groups|)
  {
    hide ValidQuery, ValidInput, TotalSteps, TotalBytes;
    FewerTotals(i, |i.field.groups|);
  }

  // ---------------------------------------------------------------------------------------------
  // What the second phase makes of the structural matches

  /** The match counts: phase, queue, current version and, for a historical phase, configured version. */
  predicate Counts(i: Input, g: nat, w: Witness)
    requires Fits(i, g, w)
  {
    Acceptable(i.compare, i.field.groups[g][w.alternative], Candidates(i)[w.candidate], w.provide, w.comparedVersion)
  }

  predicate Steady(c: Candidate) {
    c.Present? ==> !c.queued && Active(c.status)
  }

  ghost predicate EntryExact(i: Input, g: nat, w: Witness, e: Entry)
    requires Fits(i, g, w)
  {
    && e.evidence == EvidenceFor(Candidates(i)[w.candidate], w)
    && e.judgement == CallsFor(i.compare, i.field.groups[g][w.alternative], Candidates(i)[w.candidate], w.provide, w.comparedVersion)
    && (e.judgement.Accepted? <==> Counts(i, g, w))
    && (e.judgement.Rejected? ==> e.judgement.reason != MissingCandidate)
    && (Steady(Candidates(i)[w.candidate]) ==>
          !VersionVerdict(i.compare, i.field.groups[g][w.alternative], w.comparedVersion).Refuse?)
  }

  ghost predicate Judged(i: Input, g: nat, ws: seq<Witness>, entries: seq<Entry>)
    requires AllFit(i, g, ws)
  {
    |entries| == |ws| && forall k :: 0 <= k < |ws| ==> EntryExact(i, g, ws[k], entries[k])
  }

  lemma EntryJudged(i: Input, g: nat, t: Tally, w: Witness)
    requires Fits(i, g, w) && EntryAt(i, g, t, w).Ok?
    ensures var r := EntryAt(i, g, t, w).value;
            |r.entries| == |t.entries| + 1 && r.entries[..|t.entries|] == t.entries
            && EntryExact(i, g, w, r.entries[|t.entries|])
  {
    hide Candidates, EvidenceBytes, Acceptable, VersionVerdict, CallsFor;
    var c := Candidates(i)[w.candidate];
    JudgeMeans(i.compare, i.field.groups[g][w.alternative], c, w, t.steps);
    JudgeExact(i.compare, i.field.groups[g][w.alternative], c, w, t.steps);
  }

  lemma {:induction false} EntriesJudged(i: Input, g: nat, t: Tally, ws: seq<Witness>)
    requires AllFit(i, g, ws) && t.entries == [] && EntriesAt(i, g, t, ws).Ok?
    ensures Judged(i, g, ws, EntriesAt(i, g, t, ws).value.entries)
  {
    hide EntryAt, EntryExact, Fits;
    if |ws| > 0 {
      var before := EntriesAt(i, g, t, ws[..|ws| - 1]).value;
      EntriesJudged(i, g, t, ws[..|ws| - 1]);
      EntryJudged(i, g, before, ws[|ws| - 1]);
      var entries := EntriesAt(i, g, t, ws).value.entries;
      forall k | 0 <= k < |ws|
        ensures EntryExact(i, g, ws[k], entries[k])
      {
        if k < |ws| - 1 { assert entries[k] == before.entries[k] && ws[k] == ws[..|ws| - 1][k]; }
      }
    }
  }

  /** The alternatives below `n` that nothing matched, in order. */
  function MissingOf(g: nat, ws: seq<Witness>, n: nat): (bs: seq<Blocker>)
    ensures |bs| <= n
  {
    if n == 0 then []
    else MissingOf(g, ws, n - 1) + (if Seen(ws, n - 1) then [] else [Blocker(g, n - 1, MissingCandidate, None)])
  }

  lemma {:induction false} MissingValue(g: nat, output: nat, ws: seq<Witness>, n: nat)
    requires MissingAt(g, output, ws, n).Ok?
    ensures MissingAt(g, output, ws, n).value.value == MissingOf(g, ws, n)
  {
    hide Seen;
    if n > 0 { MissingValue(g, output, ws, n - 1); }
  }

  /** What the decision records about one group. */
  ghost predicate GroupDecided(i: Input, g: nat, ws: seq<Witness>, e: GroupEvidence)
    requires g < |i.field.groups| && AllFit(i, g, ws)
  {
    exists entries: seq<Entry> ::
      && Judged(i, g, ws, entries)
      && e == Conclude(AdmittedOf(entries), BlockedOf(g, entries) + MissingOf(g, ws, |i.field.groups[g]|))
  }

  lemma GroupJudged(i: Input, g: nat, c: Course, ws: seq<Witness>)
    requires g < |i.field.groups| && AllFit(i, g, ws) && GroupAt(i, g, c, ws).Ok?
    ensures var r := GroupAt(i, g, c, ws).value;
            |r.groups| == |c.groups| + 1 && r.groups[..|c.groups|] == c.groups
            && GroupDecided(i, g, ws, r.groups[|c.groups|])
  {
    hide EntriesAt, MissingAt, Judged, Conclude, AdmittedOf, BlockedOf, Fits, MissingOf;
    var t := Tally(c.output + GROUP_SIZE, c.steps, []);
    EntriesJudged(i, g, t, ws);
    var entries := EntriesAt(i, g, t, ws).value.entries;
    MissingValue(g, EntriesAt(i, g, t, ws).value.output, ws, |i.field.groups[g]|);
    assert Judged(i, g, ws, entries);
  }

  lemma {:induction false} CourseJudged(i: Input, steps: nat, groups: seq<seq<Witness>>, n: nat)
    requires Aligned(i, groups) && n <= |groups| && CourseOf(i, steps, groups, n).Ok?
    ensures var r := CourseOf(i, steps, groups, n).value;
            |r.groups| == n && forall g :: 0 <= g < n ==> GroupDecided(i, g, groups[g], r.groups[g])
  {
    hide GroupAt, GroupDecided, AllFit;
    if n > 0 {
      CourseJudged(i, steps, groups, n - 1);
      var before := CourseOf(i, steps, groups, n - 1).value;
      GroupJudged(i, n - 1, before, groups[n - 1]);
      var r := CourseOf(i, steps, groups, n).value;
      forall g | 0 <= g < n
        ensures GroupDecided(i, g, groups[g], r.groups[g])
      {
        if g < n - 1 { assert r.groups[g] == before.groups[g]; }
      }
    }
  }

  lemma DecisionJudged(i: Input)
    requires ValidInput(i) && DecisionOf(i).Ok?
    ensures Structure(i).Ok? && Aligned(i, Structure(i).value.groups)
    ensures var d := DecisionOf(i).value;
            && |d.groups| == |i.field.groups|
            && d.ready == AllAdmitted(d.groups)
            && forall g :: 0 <= g < |d.groups| ==> GroupDecided(i, g, Structure(i).value.groups[g], d.groups[g])
  {
    hide ValidInput, GroupDecided, StepsReserved, FieldOf, Structure;
    StructuralAligned(i);
    var groups := Structure(i).value.groups;
    CourseJudged(i, StepsReserved(i).value, groups, |groups|);
  }

  // ---------------------------------------------------------------------------------------------
  // Blockers

  lemma {:induction false} NoneAdmitted(g: nat, entries: seq<Entry>)
    ensures |AdmittedOf(entries)| == 0 <==> forall k :: 0 <= k < |entries| ==> !entries[k].judgement.Accepted?
    ensures |AdmittedOf(entries)| == 0 ==> |BlockedOf(g, entries)| == |entries|
  {
    if |entries| > 0 {
      var front := entries[..|entries| - 1];
      NoneAdmitted(g, front);
      assert forall k :: 0 <= k < |front| ==> front[k] == entries[k];
    }
  }

  lemma {:induction false} BlockedAt(g: nat, entries: seq<Entry>, k: nat)
    requires k < |entries| && |AdmittedOf(entries)| == 0
    ensures |BlockedOf(g, entries)| == |entries|
    ensures var e := entries[k];
            e.judgement.Rejected?
            && BlockedOf(g, entries)[k] == Blocker(g, e.evidence.structural.alternative, e.judgement.reason, Some(e.evidence))
  {
    NoneAdmitted(g, entries);
    NoneAdmitted(g, entries[..|entries| - 1]);
    if k < |entries| - 1 {
      BlockedAt(g, entries[..|entries| - 1], k);
    }
  }

  lemma {:induction false} MissingExact(g: nat, ws: seq<Witness>, n: nat)
    ensures forall b :: b in MissingOf(g, ws, n) <==>
              b.alternative < n && b == Blocker(g, b.alternative, MissingCandidate, None) && !Seen(ws, b.alternative)
  {
    hide Seen;
    if n > 0 { MissingExact(g, ws, n - 1); }
  }

  /** The blockers of an unsatisfied group: one per structural match in order, then the unmatched alternatives. */
  ghost predicate BlocksAll(i: Input, g: nat, ws: seq<Witness>, blockers: seq<Blocker>)
    requires g < |i.field.groups| && AllFit(i, g, ws)
  {
    && |blockers| >= |ws|
    && (forall k :: 0 <= k < |ws| ==>
          && blockers[k].alternative == ws[k].alternative && blockers[k].group == g
          && blockers[k].reason != MissingCandidate
          && blockers[k].candidate == Some(EvidenceFor(Candidates(i)[ws[k].candidate], ws[k])))
    && (forall b :: b in blockers[|ws|..] <==>
          && b.alternative < |i.field.groups[g]| && !Seen(ws, b.alternative)
          && b == Blocker(g, b.alternative, MissingCandidate, None))
  }

  lemma GroupExact(i: Input, g: nat, ws: seq<Witness>, e: GroupEvidence)
    requires g < |i.field.groups| && AllFit(i, g, ws) && GroupDecided(i, g, ws, e)
    ensures |e.witnesses| > 0 <==> exists k :: 0 <= k < |ws| && Counts(i, g, ws[k])
    ensures if |e.witnesses| > 0 then e.blockers == [] else BlocksAll(i, g, ws, e.blockers)
  {
    hide Counts, Seen, MissingOf, Candidates, BlockedOf, AdmittedOf;
    var entries: seq<Entry> :|
      && Judged(i, g, ws, entries)
      && e == Conclude(AdmittedOf(entries), BlockedOf(g, entries) + MissingOf(g, ws, |i.field.groups[g]|));
    assert forall k :: 0 <= k < |ws| ==> EntryExact(i, g, ws[k], entries[k]);
    NoneAdmitted(g, entries);
    if |AdmittedOf(entries)| == 0 {
      forall k | 0 <= k < |ws|
        ensures entries[k].judgement.Rejected?
        ensures BlockedOf(g, entries)[k] ==
                Blocker(g, ws[k].alternative, entries[k].judgement.reason, Some(EvidenceFor(Candidates(i)[ws[k].candidate], ws[k])))
      {
        BlockedAt(g, entries, k);
        EvidenceKeeps(Candidates(i)[ws[k].candidate], ws[k]);
      }
      MissingExact(g, ws, |i.field.groups[g]|);
      assert e.blockers[|ws|..] == MissingOf(g, ws, |i.field.groups[g]|);
    }
  }

  lemma EvidenceKeeps(c: Candidate, w: Witness)
    ensures EvidenceFor(c, w).structural == w
  {
  }

  /** Every alternative of an unsatisfied group is blocked by something. */
  lemma EveryAlternativeBlocked(i: Input, g: nat, ws: seq<Witness>, blockers: seq<Blocker>, a: nat)
    requires g < |i.field.groups| && AllFit(i, g, ws) && BlocksAll(i, g, ws, blockers) && a < |i.field.groups[g]|
    ensures exists b :: b in blockers && b.alternative == a && b.group == g
  {
    if Seen(ws, a) {
      var k :| 0 <= k < |ws| && ws[k].alternative == a;
      assert blockers[k] in blockers;
    } else {
      assert Blocker(g, a, MissingCandidate, None) in blockers[|ws|..];
    }
  }

  // ---------------------------------------------------------------------------------------------
  // Refinement

  /** The tuple satisfies its group by dpkg's rules for Pre-Depends. */
  ghost predicate Satisfying(i: Input, p: Probe)
    requires ValidInput(i) && ValidProbe(Full(i), p)
  {
    && ShapeMatches(i, p)
    && Acceptable(i.compare, AtomFor(i, p), Candidates(i)[p.candidate], p.provide, VersionFor(i, p))
  }

  lemma CountsSatisfies(i: Input, g: nat, w: Witness)
    requires ValidInput(i) && Fits(i, g, w) && ValidQuery(Structural(i)) && ValidQuery(Full(i))
    requires ValidProbe(Structural(i), Place(w)) && w.group == g && w == WitnessOf(Structural(i), Place(w))
    requires ProbeVerdict(Structural(i), Place(w)) == Match
    ensures ValidProbe(Full(i), Place(w))
    ensures Counts(i, g, w) <==> Satisfying(i, Place(w))
  {
    hide ValidInput, ValidQuery, ProbeVerdict, Acceptable;
    SameProbe(i, Place(w));
    SameWitness(i, Place(w));
  }

  lemma SameWitness(i: Input, p: Probe)
    requires ValidInput(i) && ValidProbe(Full(i), p) && ValidProbe(Structural(i), p)
    ensures ValidQuery(Full(i)) && ValidQuery(Structural(i))
    ensures WitnessOf(Full(i), p) == WitnessOf(Structural(i), p)
  {
    hide ValidInput, ValidQuery;
    QueriesValid(i);
  }

  /** A group is satisfied exactly when some tuple satisfies it; readiness is that of every group. */
  lemma ReadyExact(i: Input)
    requires ValidInput(i) && DecisionOf(i).Ok?
    ensures var d := DecisionOf(i).value;
            && |d.groups| == |i.field.groups|
            && (forall g :: 0 <= g < |d.groups| ==>
                 (|d.groups[g].witnesses| > 0 <==>
                  exists p :: ValidProbe(Full(i), p) && p.group == g && Satisfying(i, p)))
            && (d.ready <==> forall g :: 0 <= g < |d.groups| ==> |d.groups[g].witnesses| > 0)
  {
    hide ValidInput, ValidQuery, DecisionOf, GroupDecided, Fits, Satisfying, ProbeVerdict, EvaluationOf, ValidProbe, Before, Full, Structural;
    DecisionJudged(i);
    QueriesValid(i);
    EvaluateExact(Structural(i));
    var d, groups := DecisionOf(i).value, Structure(i).value.groups;
    forall g | 0 <= g < |d.groups|
      ensures |d.groups[g].witnesses| > 0 <==> exists p :: ValidProbe(Full(i), p) && p.group == g && Satisfying(i, p)
    {
      GroupReady(i, g, groups[g], d.groups[g]);
    }
  }

  lemma GroupReady(i: Input, g: nat, ws: seq<Witness>, e: GroupEvidence)
    requires ValidInput(i) && ValidQuery(Structural(i)) && Exactly(Structural(i), g, ws)
    requires g < |i.field.groups| && AllFit(i, g, ws) && GroupDecided(i, g, ws, e)
    ensures |e.witnesses| > 0 <==> exists p :: ValidProbe(Full(i), p) && p.group == g && Satisfying(i, p)
  {
    hide ValidInput, ValidQuery, GroupDecided, Fits, ProbeVerdict, Before, Counts, BlocksAll, ValidProbe, Full, Structural;
    QueriesValid(i);
    GroupExact(i, g, ws, e);
    forall k | 0 <= k < |ws|
      ensures ValidProbe(Full(i), Place(ws[k]))
      ensures Counts(i, g, ws[k]) <==> Satisfying(i, Place(ws[k]))
    {
      CountsSatisfies(i, g, ws[k]);
    }
    if p :| ValidProbe(Full(i), p) && p.group == g && Satisfying(i, p) {
      SameProbe(i, p);
      var k :| 0 <= k < |ws| && Place(ws[k]) == p;
      assert Counts(i, g, ws[k]);
    }
  }

  /**
   * Readiness refines the one-phase matcher: on the same candidates it either satisfies every
   * group, or it cannot answer because its input budget or its comparator gives out.
   */
  lemma ReadyRefines(i: Input)
    requires ValidInput(i) && DecisionOf(i).Ok? && DecisionOf(i).value.ready
    ensures ValidQuery(Full(i))
    ensures EvaluationOf(Full(i)).Ok? <==> InputFits(i) && Comparable(i)
    ensures EvaluationOf(Full(i)).Ok? ==> EvaluationOf(Full(i)).value.allGroupsMatched
  {
    hide ValidInput, ValidQuery, DecisionOf, EvaluationOf, Satisfying, InputFits, Comparable, Full;
    OnePhaseAnswers(i);
    ReadyExact(i);
    DecidedKind(i);
    if EvaluationOf(Full(i)).Ok? {
      FlagsExact(Full(i));
      forall g | 0 <= g < |Full(i).field.groups|
        ensures Satisfied(Full(i), g)
      {
        FullGroups(i);
        assert |DecisionOf(i).value.groups[g].witnesses| > 0;
        var p :| ValidProbe(Full(i), p) && p.group == g && Satisfying(i, p);
        SatisfyingMatches(i, p);
      }
    }
  }

  lemma DecidedKind(i: Input)
    requires ValidInput(i) && DecisionOf(i).Ok?
    ensures i.field.kind == PreDepends
  {
  }

  lemma FullGroups(i: Input)
    ensures |Full(i).field.groups| == |i.field.groups|
  {
  }

  lemma SatisfyingMatches(i: Input, p: Probe)
    requires ValidInput(i) && i.field.kind == PreDepends && ValidProbe(Full(i), p) && Satisfying(i, p)
    ensures ValidQuery(Full(i)) && ProbeVerdict(Full(i), p) == Match
  {
    hide ValidInput, ValidQuery, ProbeVerdict, ShapeMatches;
    VerdictSplits(i, p);
  }

  // ---------------------------------------------------------------------------------------------
  // Nothing historical, nothing queued

  function Structurals(admitted: seq<Admitted>): seq<Witness> {
    if |admitted| == 0 then []
    else Structurals(admitted[..|admitted| - 1]) + [admitted[|admitted| - 1].candidate.structural]
  }

  function Keep(i: Input, g: nat, ws: seq<Witness>): seq<Witness>
    requires AllFit(i, g, ws)
  {
    if |ws| == 0 then []
    else Keep(i, g, ws[..|ws| - 1]) + (if Counts(i, g, ws[|ws| - 1]) then [ws[|ws| - 1]] else [])
  }

  lemma {:induction false} AdmittedKept(i: Input, g: nat, ws: seq<Witness>, entries: seq<Entry>)
    requires AllFit(i, g, ws) && Judged(i, g, ws, entries)
    ensures Structurals(AdmittedOf(entries)) == Keep(i, g, ws)
  {
    hide Fits, Counts, Candidates;
    if |ws| > 0 {
      var n := |ws| - 1;
      forall k | 0 <= k < n
        ensures EntryExact(i, g, ws[..n][k], entries[..n][k])
      {
        assert EntryExact(i, g, ws[k], entries[k]);
      }
      AdmittedKept(i, g, ws[..n], entries[..n]);
      assert EntryExact(i, g, ws[n], entries[n]);
      EvidenceIs(i, g, ws[n], entries[n]);
      var admitted := AdmittedOf(entries);
      if Counts(i, g, ws[n]) {
        assert admitted[..|admitted| - 1] == AdmittedOf(entries[..n]);
      } else {
        assert admitted == AdmittedOf(entries[..n]);
      }
    }
  }

  lemma EvidenceIs(i: Input, g: nat, w: Witness, e: Entry)
    requires Fits(i, g, w) && EntryExact(i, g, w, e)
    ensures e.evidence.structural == w
  {
    hide Candidates, Acceptable, VersionVerdict;
    EvidenceKeeps(Candidates(i)[w.candidate], w);
  }

  /** No installed candidate is queued and all are installed or await only their own triggers. */
  predicate AllSteady(i: Input) {
    forall c :: 0 <= c < |i.installed| ==> Steady(i.installed[c])
  }

  lemma SteadyAccepts(i: Input, p: Probe)
    requires ValidInput(i) && i.field.kind == PreDepends && AllSteady(i) && ValidProbe(Full(i), p)
    ensures Steady(Candidates(i)[p.candidate])
    ensures ValidQuery(Full(i))
    ensures Satisfying(i, p) <==> ProbeVerdict(Full(i), p) == Match
  {
    hide ValidInput, ValidQuery, ProbeVerdict, ShapeMatches, VersionVerdict;
    VerdictSplits(i, p);
    ShapeDecides(i, p);
  }

  lemma ShapeDecides(i: Input, p: Probe)
    requires ValidInput(i) && ValidProbe(Full(i), p)
    ensures ValidQuery(Structural(i)) && ValidProbe(Structural(i), p)
    ensures ShapeMatches(i, p) <==> ProbeVerdict(Structural(i), p) == Match
  {
    hide ValidInput, ValidQuery, ProbeVerdict;
    QueriesValid(i);
    SameProbe(i, p);
  }

  lemma KeepAppend(i: Input, g: nat, ws: seq<Witness>, w: Witness)
    requires AllFit(i, g, ws) && Fits(i, g, w)
    ensures AllFit(i, g, ws + [w])
    ensures Keep(i, g, ws + [w]) == Keep(i, g, ws) + (if Counts(i, g, w) then [w] else [])
  {
    hide Fits, Counts;
    assert (ws + [w])[..|ws|] == ws;
  }

  /** Filtering the structural reports leaves the reports of the full query. */
  lemma {:induction false} KeepIsReport(i: Input, g: nat, ps: seq<Probe>)
    requires ValidInput(i) && i.field.kind == PreDepends && AllSteady(i) && BothValid(i, ps)
    requires forall k :: 0 <= k < |ps| ==> ps[k].group == g
    ensures ValidQuery(Full(i)) && ValidQuery(Structural(i))
    ensures ValidProbes(Full(i), Hits(Full(i), ps)) && ValidProbes(Structural(i), Hits(Structural(i), ps))
    ensures AllFit(i, g, Reports(Structural(i), Hits(Structural(i), ps)))
    ensures Keep(i, g, Reports(Structural(i), Hits(Structural(i), ps))) == Reports(Full(i), Hits(Full(i), ps))
  {
    hide ValidQuery, ValidInput, ProbeVerdict, WitnessOf, ValidProbe, ShapeMatches, Full, Structural,
         Counts, Satisfying, Fits, AllSteady;
    QueriesValid(i);
    HitsValid(Full(i), ps);
    HitsValid(Structural(i), ps);
    if |ps| > 0 {
      var n := |ps| - 1;
      var front, p := ps[..n], ps[n];
      KeepIsReport(i, g, front);
      KeepStep(i, g, p);
      ReportsStep(Full(i), ps);
      ReportsStep(Structural(i), ps);
      var before, after := Reports(Structural(i), Hits(Structural(i), front)), Reports(Structural(i), Hits(Structural(i), ps));
      if ProbeVerdict(Structural(i), p) == Match {
        KeepAppend(i, g, before, WitnessOf(Structural(i), p));
      } else {
        assert after == before;
      }
    }
  }

  lemma KeepStep(i: Input, g: nat, p: Probe)
    requires ValidInput(i) && i.field.kind == PreDepends && AllSteady(i)
    requires ValidProbe(Full(i), p) && ValidProbe(Structural(i), p) && p.group == g
    ensures ValidQuery(Full(i)) && ValidQuery(Structural(i))
    ensures WitnessOf(Structural(i), p) == WitnessOf(Full(i), p)
    ensures Fits(i, g, WitnessOf(Structural(i), p))
    ensures ProbeVerdict(Full(i), p) == Match <==>
            ProbeVerdict(Structural(i), p) == Match && Counts(i, g, WitnessOf(Structural(i), p))
  {
    hide ValidInput, ValidQuery, ProbeVerdict, ShapeMatches, AllSteady, Counts, Satisfying;
    SteadyAccepts(i, p);
    VerdictSplits(i, p);
    MatchNeedsShape(i, p);
    if ProbeVerdict(Structural(i), p) == Match {
      CountsSatisfies(i, g, WitnessOf(Structural(i), p));
    }
  }

  lemma ReportsStep(q: Query, ps: seq<Probe>)
    requires ValidQuery(q) && ValidProbes(q, ps) && |ps| > 0
    ensures var front, p := ps[..|ps| - 1], ps[|ps| - 1];
            && ValidProbes(q, Hits(q, ps)) && ValidProbes(q, Hits(q, front))
            && Reports(q, Hits(q, ps)) ==
               Reports(q, Hits(q, front)) + (if ProbeVerdict(q, p) == Match then [WitnessOf(q, p)] else [])
  {
    hide ValidQuery, ProbeVerdict, WitnessOf, ValidProbe;
    var front, p := ps[..|ps| - 1], ps[|ps| - 1];
    HitsValid(q, ps);
    HitsValid(q, front);
    if ProbeVerdict(q, p) == Match {
      assert Hits(q, ps)[..|Hits(q, front)|] == Hits(q, front);
    } else {
      assert Hits(q, ps) == Hits(q, front);
    }
  }

  lemma SteadyGroup(i: Input, g: nat, e: GroupEvidence)
    requires ValidInput(i) && DecisionOf(i).Ok? && AllSteady(i) && g < |i.field.groups|
    requires Structure(i).Ok? && Aligned(i, Structure(i).value.groups)
    requires GroupDecided(i, g, Structure(i).value.groups[g], e)
    requires ValidQuery(Full(i)) && EvaluationOf(Full(i)).Ok?
    ensures |EvaluationOf(Full(i)).value.groups| == |i.field.groups|
    ensures Structurals(e.witnesses) == EvaluationOf(Full(i)).value.groups[g]
  {
    hide ValidInput, ValidQuery, DecisionOf, EvaluationOf, Judged, Keep, Reports, Hits, ProbesOf, AdmittedOf, BlockedOf,
         MissingOf, ValidProbe, AllSteady, Fits, Structurals;
    var ws := Structure(i).value.groups[g];
    DecidedKind(i);
    QueriesValid(i);
    EvaluationReports(Structural(i));
    EvaluationReports(Full(i));
    SameProbes(i, g);
    var ps := ProbesOf(Full(i), g);
    ProbesInGroup(i, g);
    KeepIsReport(i, g, ps);
    var entries: seq<Entry> :|
      && Judged(i, g, ws, entries)
      && e == Conclude(AdmittedOf(entries), BlockedOf(g, entries) + MissingOf(g, ws, |i.field.groups[g]|));
    AdmittedKept(i, g, ws, entries);
    StructuralsNone();
  }

  lemma StructuralsNone()
    ensures Structurals([]) == []
  {
  }

  lemma ProbesInGroup(i: Input, g: nat)
    requires g < |i.field.groups|
    ensures var ps := ProbesOf(Full(i), g);
            BothValid(i, ps) && forall k :: 0 <= k < |ps| ==> ps[k].group == g
  {
    hide ProbesOf, Ascending;
    var ps := ProbesOf(Full(i), g);
    ProbesExact(Full(i), g);
    forall k | 0 <= k < |ps|
      ensures ps[k].group == g && ValidProbe(Full(i), ps[k]) && ValidProbe(Structural(i), ps[k])
    {
      assert ps[k] in ps;
      SameProbe(i, ps[k]);
    }
  }

  /** The second phase compared every structural match, so the one-phase matcher can too. */
  lemma SteadyComparable(i: Input)
    requires ValidInput(i) && DecisionOf(i).Ok? && AllSteady(i)
    ensures Comparable(i)
  {
    hide ValidInput, ValidQuery, DecisionOf, GroupDecided, ProbeVerdict, ValidProbe, Before, VersionAnswer, EvaluationOf, Full, Structural;
    DecisionJudged(i);
    DecidedKind(i);
    QueriesValid(i);
    EvaluateExact(Structural(i));
    var groups := Structure(i).value.groups;
    forall p | ValidProbe(Full(i), p) && ShapeMatches(i, p)
      ensures !VersionAnswer(i, p).Refuse?
    {
      GroupInRange(i, p);
      SteadyCompared(i, p, groups[p.group], DecisionOf(i).value.groups[p.group]);
    }
  }

  lemma GroupInRange(i: Input, p: Probe)
    requires ValidProbe(Full(i), p)
    ensures p.group < |i.field.groups|
  {
  }

  lemma SteadyCompared(i: Input, p: Probe, ws: seq<Witness>, e: GroupEvidence)
    requires ValidInput(i) && i.field.kind == PreDepends && AllSteady(i) && ValidProbe(Full(i), p) && ShapeMatches(i, p)
    requires ValidQuery(Structural(i)) && Exactly(Structural(i), p.group, ws)
    requires AllFit(i, p.group, ws) && GroupDecided(i, p.group, ws, e)
    ensures !VersionAnswer(i, p).Refuse?
  {
    hide ValidInput, ValidQuery, ProbeVerdict, Before, AdmittedOf, BlockedOf, MissingOf, VersionVerdict, EvidenceFor, Counts;
    SameProbe(i, p);
    ShapeDecides(i, p);
    SteadyAccepts(i, p);
    SameWitness(i, p);
    var k :| 0 <= k < |ws| && Place(ws[k]) == p;
    var entries: seq<Entry> :| Judged(i, p.group, ws, entries);
    assert EntryExact(i, p.group, ws[k], entries[k]);
  }

  /**
   * When every installed candidate is active and none is queued, the decision's witnesses are
   * the one-phase matcher's, group by group, and ready means that every group matched.
   */
  lemma AgreesWhenSteady(i: Input)
    requires ValidInput(i) && DecisionOf(i).Ok? && AllSteady(i)
    ensures ValidQuery(Full(i))
    ensures EvaluationOf(Full(i)).Ok? <==> InputFits(i)
    ensures var d := DecisionOf(i).value;
            EvaluationOf(Full(i)).Ok? ==>
              var e := EvaluationOf(Full(i)).value;
              && |d.groups| == |e.groups|
              && (forall g :: 0 <= g < |d.groups| ==> Structurals(d.groups[g].witnesses) == e.groups[g])
              && d.ready == e.allGroupsMatched
  {
    hide ValidInput, ValidQuery, DecisionOf, EvaluationOf, InputFits, Comparable, GroupDecided, Structurals, Full, AllSteady;
    OnePhaseAnswers(i);
    SteadyComparable(i);
    DecisionJudged(i);
    if EvaluationOf(Full(i)).Ok? {
      var d, e := DecisionOf(i).value, EvaluationOf(Full(i)).value;
      FlagIsConjunction(Full(i));
      FullGroups(i);
      forall g | 0 <= g < |d.groups|
        ensures |e.groups| == |d.groups| && Structurals(d.groups[g].witnesses) == e.groups[g]
      {
        SteadyGroup(i, g, d.groups[g]);
      }
      forall g | 0 <= g < |d.groups|
        ensures |d.groups[g].witnesses| == |e.groups[g]|
      {
        StructuralsLength(d.groups[g].witnesses);
      }
    }
  }

  lemma {:induction false} StructuralsLength(admitted: seq<Admitted>)
    ensures |Structurals(admitted)| == |admitted|
  {
    if |admitted| > 0 { StructuralsLength(admitted[..|admitted| - 1]); }
  }

  lemma FlagIsConjunction(q: Query)
    requires ValidQuery(q) && EvaluationOf(q).Ok?
    ensures |EvaluationOf(q).value.groups| == |q.field.groups|
    ensures EvaluationOf(q).value.allGroupsMatched == AllMatched(EvaluationOf(q).value.groups)
  {
    hide ValidQuery, RunGroups, Admission;
  }
}
