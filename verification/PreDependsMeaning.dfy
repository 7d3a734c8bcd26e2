/**
 * The Pre-Depends decision in terms of candidates and their phases: which matches become
 * witnesses, which become blockers with which reason, and when the whole is ready.
 */
module PreDependsMeaning {
  import opened Text
  import opened Packages
  import opened BinaryRelationships
  import opened RelationshipMatching
  import opened RelationshipWitnesses
  import opened MatchingMeaning
  import opened Versionless
  import opened PreDepends
  import opened PreDependsReasons
  import opened PreDependsRefinement

  /** A tuple of the field over installed candidates and the archive itself. */
  ghost predicate Tuple(i: Input, p: Probe) {
    ValidProbe(Full(i), p)
  }

  /** Name and Multi-Arch agree, versions aside. */
  ghost predicate Fitting(i: Input, p: Probe)
    requires ValidInput(i) && Tuple(i, p)
  {
    QueriesValid(i);
    Placed(Full(i), p)
  }

  /** The version the tuple compares: the package's own or the one it provides. */
  ghost function CurrentOf(i: Input, p: Probe): string
    requires ValidInput(i) && Tuple(i, p)
  {
    QueriesValid(i);
    VersionAsked(Full(i), p)
  }

  /** What the phase and the versions of the tuple's candidate call for. */
  ghost function Called(i: Input, p: Probe): Judgement
    requires ValidInput(i) && Tuple(i, p)
  {
    CallsFor(i.compare, AtomFor(i, p), Candidates(i)[p.candidate], p.provide, CurrentOf(i, p))
  }

  lemma SameAtom(i: Input, p: Probe)
    requires Tuple(i, p)
    ensures ValidProbe(Structural(i), p)
    ensures var a, b := AtomOf(Full(i), p), AtomOf(Structural(i), p);
            a == AtomFor(i, p) && b == StripAtom(a)
  {
    SameProbe(i, p);
  }

  lemma SameFitting(i: Input, p: Probe)
    requires ValidInput(i) && Tuple(i, p)
    ensures ValidQuery(Full(i)) && ValidQuery(Structural(i)) && ValidProbe(Structural(i), p)
    ensures Agreeing(Structural(i), p) <==> Placed(Full(i), p)
    ensures VersionAsked(Structural(i), p) == VersionAsked(Full(i), p)
  {
    hide ValidInput, ValidQuery;
    QueriesValid(i);
    SameAtom(i, p);
  }

  /** The installed candidates come first, the archive itself last. */
  ghost function CandidateAt(i: Input, n: nat): Candidate {
    if n < |i.installed| then i.installed[n] else Incoming(i.incoming)
  }

  /** The report names the package of its candidate. */
  ghost predicate Carries(i: Input, w: Witness) {
    var p := CandidateAt(i, w.candidate).package;
    w.package == p.name && w.version == p.version && w.architecture == p.architecture
  }

  /** The evidence shows the candidate: its package, and its statuses, configured version and metadata when installed. */
  ghost predicate Shown(i: Input, e: Evidence) {
    && Carries(i, e.structural)
    && match CandidateAt(i, e.structural.candidate)
       case Present(_, status, diskStatus, configVersion, metadataIdentity, _) =>
         && !e.incoming && e.queryStatus == status && e.diskStatus == diskStatus && e.configVersion == configVersion
         && e.metadataIdentity == metadataIdentity
       case Incoming(_) =>
         e.incoming && e.queryStatus.NotInstalled? && e.diskStatus.NotInstalled? && e.configVersion == "" && e.metadataIdentity == ""
  }

  ghost predicate WitnessMeans(i: Input, g: nat, a: Admitted)
    requires ValidInput(i)
  {
    var p := Place(a.candidate.structural);
    && Tuple(i, p) && p.group == g && Fitting(i, p)
    && Called(i, p) == Accepted(a.historicalVersionRequired) && a.candidate.structural.comparedVersion == CurrentOf(i, p)
    && Shown(i, a.candidate)
  }

  ghost predicate Satisfies(i: Input, g: nat, p: Probe)
    requires ValidInput(i)
  {
    Tuple(i, p) && p.group == g && Fitting(i, p) && Called(i, p).Accepted?
  }

  ghost predicate WitnessesMean(i: Input, g: nat, admitted: seq<Admitted>)
    requires ValidInput(i)
  {
    && (forall k :: 0 <= k < |admitted| ==> WitnessMeans(i, g, admitted[k]))
    && forall p :: Satisfies(i, g, p) ==> exists a :: a in admitted && Place(a.candidate.structural) == p
  }

  ghost predicate BlockerMeans(i: Input, g: nat, b: Blocker)
    requires ValidInput(i)
  {
    && b.group == g && g < |i.field.groups| && b.alternative < |i.field.groups[g]|
    && match b.candidate
       case None => b.reason.MissingCandidate? && forall p :: Tuple(i, p) && p.group == g && p.alternative == b.alternative ==> !Fitting(i, p)
       case Some(evidence) =>
         var p := Place(evidence.structural);
         && Tuple(i, p) && p.group == g && p.alternative == b.alternative && Fitting(i, p)
         && Called(i, p) == Rejected(b.reason) && Shown(i, evidence)
  }

  ghost predicate Blocks(p: Probe, b: Blocker) {
    b.candidate.Some? && Place(b.candidate.value.structural) == p
  }

  ghost predicate BlockersMean(i: Input, g: nat, blockers: seq<Blocker>)
    requires ValidInput(i) && g < |i.field.groups|
  {
    && (forall b :: b in blockers ==> BlockerMeans(i, g, b))
    && (forall p :: Tuple(i, p) && p.group == g && Fitting(i, p) ==> exists b :: b in blockers && Blocks(p, b))
    && forall a :: 0 <= a < |i.field.groups[g]| && (forall p :: Tuple(i, p) && p.group == g && p.alternative == a ==> !Fitting(i, p)) ==>
         Blocker(g, a, MissingCandidate, None) in blockers
  }

  ghost predicate Satisfied(i: Input, g: nat)
    requires ValidInput(i)
  {
    exists p :: Satisfies(i, g, p)
  }

  /** A satisfied group has its witnesses and no blocker, any other its blockers and no witness. */
  ghost predicate GroupMeans(i: Input, g: nat, e: GroupEvidence)
    requires ValidInput(i) && g < |i.field.groups|
  {
    if Satisfied(i, g) then |e.witnesses| > 0 && e.blockers == [] && WitnessesMean(i, g, e.witnesses)
    else e.witnesses == [] && BlockersMean(i, g, e.blockers)
  }

  // ---------------------------------------------------------------------------------------------
  // One group

  lemma {:induction false} AdmittedIn(entries: seq<Entry>)
    ensures forall a :: a in AdmittedOf(entries) <==> exists k :: 0 <= k < |entries| && entries[k].judgement.Accepted?
                                                       && a == Admitted(entries[k].evidence, entries[k].judgement.historical)
  {
    if |entries| > 0 {
      var front, last := entries[..|entries| - 1], entries[|entries| - 1];
      AdmittedIn(front);
      forall a
        ensures a in AdmittedOf(entries) <==> exists k :: 0 <= k < |entries| && entries[k].judgement.Accepted?
                                                && a == Admitted(entries[k].evidence, entries[k].judgement.historical)
      {
        if a in AdmittedOf(front) {
          var k :| 0 <= k < |front| && front[k].judgement.Accepted? && a == Admitted(front[k].evidence, front[k].judgement.historical);
          assert entries[k] == front[k];
        }
        if k :| 0 <= k < |entries| && entries[k].judgement.Accepted? && a == Admitted(entries[k].evidence, entries[k].judgement.historical) {
          if k < |front| { assert front[k] == entries[k]; }
        }
        if last.judgement.Accepted? { assert entries[|front|] == last; }
      }
    }
  }

  lemma {:induction false} BlockedIn(g: nat, entries: seq<Entry>)
    ensures forall b :: b in BlockedOf(g, entries) <==> exists k :: 0 <= k < |entries| && BlockedBy(g, entries[k], b)
  {
    if |entries| > 0 {
      var front, last := entries[..|entries| - 1], entries[|entries| - 1];
      BlockedIn(g, front);
      forall b
        ensures b in BlockedOf(g, entries) <==> exists k :: 0 <= k < |entries| && BlockedBy(g, entries[k], b)
      {
        if b in BlockedOf(g, front) {
          var k :| 0 <= k < |front| && BlockedBy(g, front[k], b);
          assert entries[k] == front[k];
        }
        if k :| 0 <= k < |entries| && BlockedBy(g, entries[k], b) {
          if k < |front| { assert front[k] == entries[k]; }
        }
        if BlockedBy(g, last, b) { assert entries[|front|] == last; }
      }
    }
  }

  predicate BlockedBy(g: nat, e: Entry, b: Blocker) {
    e.judgement.Rejected? && b == Blocker(g, e.evidence.structural.alternative, e.judgement.reason, Some(e.evidence))
  }

  /** The structural matches of a group are its fitting tuples. */
  ghost predicate Listed(i: Input, g: nat, ws: seq<Witness>)
    requires ValidInput(i)
  {
    && (forall k :: 0 <= k < |ws| ==>
          var p := Place(ws[k]);
          Tuple(i, p) && p.group == g && Fitting(i, p) && ws[k].comparedVersion == CurrentOf(i, p) && Carries(i, ws[k]))
    && forall p :: Tuple(i, p) && p.group == g && Fitting(i, p) ==> exists k :: 0 <= k < |ws| && Place(ws[k]) == p
  }

  lemma StructureListed(i: Input, g: nat)
    requires ValidInput(i) && DecisionOf(i).Ok? && g < |i.field.groups|
    ensures Structure(i).Ok? && g < |Structure(i).value.groups| && Listed(i, g, Structure(i).value.groups[g])
  {
    hide ValidInput, ValidQuery, DecisionOf, EvaluationOf, ReportsExactly, Listed, Full, Structural;
    DecisionJudged(i);
    QueriesValid(i);
    EvaluationMeans(Structural(i));
    StructuralGroups(i);
    ListedFrom(i, g, Structure(i).value.groups[g]);
  }

  lemma ListedFrom(i: Input, g: nat, ws: seq<Witness>)
    requires ValidInput(i) && ValidQuery(Structural(i)) && ReportsExactly(Structural(i), g, ws)
    ensures Listed(i, g, ws)
  {
    hide ValidInput, ValidQuery, Agreeing, Fitting, Full, Structural, Carries, Shows, CurrentOf, Tuple;
    forall k | 0 <= k < |ws|
      ensures var p := Place(ws[k]);
              Tuple(i, p) && p.group == g && Fitting(i, p) && ws[k].comparedVersion == CurrentOf(i, p) && Carries(i, ws[k])
    {
      OneListed(i, ws[k]);
    }
    forall p | Tuple(i, p) && p.group == g && Fitting(i, p)
      ensures exists k :: 0 <= k < |ws| && Place(ws[k]) == p
    {
      FittingAgrees(i, p);
    }
  }

  lemma OneListed(i: Input, w: Witness)
    requires ValidInput(i) && ValidQuery(Structural(i)) && ValidProbe(Structural(i), Place(w))
    requires Agreeing(Structural(i), Place(w)) && Shows(Structural(i), w)
    ensures var p := Place(w); Tuple(i, p) && Fitting(i, p) && w.comparedVersion == CurrentOf(i, p) && Carries(i, w)
  {
    hide ValidInput, ValidQuery, Agreeing, Placed, Full, Structural, Carries, Shows, VersionAsked;
    SameProbe(i, Place(w));
    SameFitting(i, Place(w));
    ShowsCarries(i, w);
  }

  lemma FittingAgrees(i: Input, p: Probe)
    requires ValidInput(i) && Tuple(i, p) && Fitting(i, p)
    ensures ValidQuery(Structural(i)) && ValidProbe(Structural(i), p) && Agreeing(Structural(i), p)
  {
    hide ValidInput, ValidQuery, Agreeing, Placed, Full, Structural;
    SameFitting(i, p);
  }

  lemma ShowsCarries(i: Input, w: Witness)
    requires ValidQuery(Structural(i)) && ValidProbe(Structural(i), Place(w)) && Shows(Structural(i), w)
    ensures Carries(i, w) && w.comparedVersion == VersionAsked(Structural(i), Place(w))
  {
    hide ValidQuery, VersionAsked;
  }

  lemma StructuralGroups(i: Input)
    ensures |Structural(i).field.groups| == |i.field.groups|
  {
  }

  lemma EvidenceShown(i: Input, w: Witness)
    requires w.candidate < |Candidates(i)| && Carries(i, w)
    ensures Shown(i, EvidenceFor(Candidates(i)[w.candidate], w))
  {
  }

  lemma EntryMeans(i: Input, g: nat, ws: seq<Witness>, entries: seq<Entry>, k: nat)
    requires ValidInput(i) && g < |i.field.groups| && AllFit(i, g, ws) && Judged(i, g, ws, entries) && Listed(i, g, ws) && k < |ws|
    ensures var p := Place(ws[k]);
            && Tuple(i, p) && p.group == g && Fitting(i, p) && entries[k].judgement == Called(i, p) && p.candidate < |Candidates(i)|
            && Shown(i, entries[k].evidence) && entries[k].evidence.structural == ws[k]
            && ws[k].comparedVersion == CurrentOf(i, p)
            && !(entries[k].judgement.Rejected? && entries[k].judgement.reason.MissingCandidate?)
  {
    hide ValidInput, Fitting, CallsFor, EvidenceFor, Candidates, Full, Carries, Shown;
    assert EntryExact(i, g, ws[k], entries[k]);
    EvidenceKeeps(Candidates(i)[ws[k].candidate], ws[k]);
    EvidenceShown(i, ws[k]);
    AtomIs(i, Place(ws[k]));
  }

  lemma AtomIs(i: Input, p: Probe)
    requires Tuple(i, p)
    ensures p.group < |i.field.groups| && p.alternative < |i.field.groups[p.group]| && AtomFor(i, p) == i.field.groups[p.group][p.alternative]
  {
  }

  lemma GroupSpelled(i: Input, g: nat, ws: seq<Witness>, e: GroupEvidence)
    requires ValidInput(i) && g < |i.field.groups| && AllFit(i, g, ws) && GroupDecided(i, g, ws, e) && Listed(i, g, ws)
    ensures GroupMeans(i, g, e)
  {
    hide ValidInput, Fitting, Called, Tuple, Fits, MissingOf, AdmittedOf, BlockedOf, Judged, Seen, Candidates, EvidenceFor, Carries, Shown;
    var entries: seq<Entry> :|
      && Judged(i, g, ws, entries)
      && e == Conclude(AdmittedOf(entries), BlockedOf(g, entries) + MissingOf(g, ws, |i.field.groups[g]|));
    JudgedLength(i, g, ws, entries);
    AdmittedIn(entries);
    BlockedIn(g, entries);
    MissingExact(g, ws, |i.field.groups[g]|);
    forall k | 0 <= k < |ws|
      ensures var p := Place(ws[k]);
              && Tuple(i, p) && p.group == g && Fitting(i, p) && entries[k].judgement == Called(i, p) && p.candidate < |Candidates(i)|
              && Shown(i, entries[k].evidence) && entries[k].evidence.structural == ws[k]
    {
      EntryMeans(i, g, ws, entries, k);
    }
    AdmittedSpelled(i, g, ws, entries);
    if |AdmittedOf(entries)| == 0 {
      BlockersSpelled(i, g, ws, entries);
    }
  }

  lemma JudgedLength(i: Input, g: nat, ws: seq<Witness>, entries: seq<Entry>)
    requires AllFit(i, g, ws) && Judged(i, g, ws, entries)
    ensures |entries| == |ws|
  {
  }

  lemma AdmittedSpelled(i: Input, g: nat, ws: seq<Witness>, entries: seq<Entry>)
    requires ValidInput(i) && g < |i.field.groups| && AllFit(i, g, ws) && Judged(i, g, ws, entries) && Listed(i, g, ws)
    ensures WitnessesMean(i, g, AdmittedOf(entries))
    ensures |AdmittedOf(entries)| > 0 <==> Satisfied(i, g)
  {
    hide ValidInput, Fitting, Called, Tuple, Fits, AdmittedOf, Judged, Candidates, EvidenceFor, Carries, Shown;
    JudgedLength(i, g, ws, entries);
    AdmittedIn(entries);
    var admitted := AdmittedOf(entries);
    forall n | 0 <= n < |admitted|
      ensures WitnessMeans(i, g, admitted[n])
    {
      assert admitted[n] in admitted;
      var k :| 0 <= k < |entries| && entries[k].judgement.Accepted? && admitted[n] == Admitted(entries[k].evidence, entries[k].judgement.historical);
      EntryMeans(i, g, ws, entries, k);
    }
    forall p | Satisfies(i, g, p)
      ensures exists a :: a in admitted && Place(a.candidate.structural) == p
    {
      var k :| 0 <= k < |ws| && Place(ws[k]) == p;
      EntryMeans(i, g, ws, entries, k);
      assert Admitted(entries[k].evidence, entries[k].judgement.historical) in admitted;
    }
    if |admitted| > 0 {
      assert WitnessMeans(i, g, admitted[0]);
      assert Satisfies(i, g, Place(admitted[0].candidate.structural));
    }
  }

  lemma BlockersSpelled(i: Input, g: nat, ws: seq<Witness>, entries: seq<Entry>)
    requires ValidInput(i) && g < |i.field.groups| && AllFit(i, g, ws) && Judged(i, g, ws, entries) && Listed(i, g, ws)
    requires |AdmittedOf(entries)| == 0
    ensures BlockersMean(i, g, BlockedOf(g, entries) + MissingOf(g, ws, |i.field.groups[g]|))
  {
    hide ValidInput, Fitting, Called, Tuple, Fits, AdmittedOf, BlockedOf, MissingOf, Judged, Candidates, EvidenceFor, Carries, Shown;
    var n := |i.field.groups[g]|;
    var blockers := BlockedOf(g, entries) + MissingOf(g, ws, n);
    JudgedLength(i, g, ws, entries);
    NoneAdmitted(g, entries);
    BlockedIn(g, entries);
    MissingExact(g, ws, n);
    forall b | b in blockers
      ensures BlockerMeans(i, g, b)
    {
      if b in BlockedOf(g, entries) {
        var k :| 0 <= k < |entries| && BlockedBy(g, entries[k], b);
        EntryMeans(i, g, ws, entries, k);
        AtomIs(i, Place(ws[k]));
      } else {
        assert b in MissingOf(g, ws, n);
        NotSeen(i, g, ws, b.alternative);
      }
    }
    forall p | Tuple(i, p) && p.group == g && Fitting(i, p)
      ensures exists b :: b in blockers && Blocks(p, b)
    {
      var k :| 0 <= k < |ws| && Place(ws[k]) == p;
      EntryMeans(i, g, ws, entries, k);
      var b := Blocker(g, entries[k].evidence.structural.alternative, entries[k].judgement.reason, Some(entries[k].evidence));
      assert BlockedBy(g, entries[k], b);
      assert b in blockers;
    }
    forall a | 0 <= a < n && (forall p :: Tuple(i, p) && p.group == g && p.alternative == a ==> !Fitting(i, p))
      ensures Blocker(g, a, MissingCandidate, None) in blockers
    {
      NotSeen(i, g, ws, a);
      assert Blocker(g, a, MissingCandidate, None) in MissingOf(g, ws, n);
    }
  }

  lemma NotSeen(i: Input, g: nat, ws: seq<Witness>, a: nat)
    requires ValidInput(i) && Listed(i, g, ws)
    ensures !Seen(ws, a) <==> forall p :: Tuple(i, p) && p.group == g && p.alternative == a ==> !Fitting(i, p)
  {
    hide ValidInput, Fitting, Tuple, CurrentOf;
    if Seen(ws, a) {
      var k :| 0 <= k < |ws| && ws[k].alternative == a;
      assert Fitting(i, Place(ws[k]));
    }
    forall p | Tuple(i, p) && p.group == g && p.alternative == a && Fitting(i, p)
      ensures Seen(ws, a)
    {
      var k :| 0 <= k < |ws| && Place(ws[k]) == p;
      assert ws[k].alternative == a;
    }
  }

  // ---------------------------------------------------------------------------------------------
  // The decision

  /** Every group is decided as its tuples call for, and the whole is ready when each has a witness. */
  lemma DecisionMeans(i: Input)
    requires ValidInput(i) && DecisionOf(i).Ok?
    ensures var d := DecisionOf(i).value;
            && |d.groups| == |i.field.groups|
            && (forall g :: 0 <= g < |d.groups| ==> GroupMeans(i, g, d.groups[g]))
            && (d.ready <==> forall g :: 0 <= g < |d.groups| ==> Satisfied(i, g))
  {
    hide ValidInput, DecisionOf, GroupDecided, WitnessesMean, BlockersMean, Satisfied;
    DecisionJudged(i);
    var d := DecisionOf(i).value;
    forall g | 0 <= g < |d.groups|
      ensures GroupMeans(i, g, d.groups[g])
      ensures |d.groups[g].witnesses| > 0 <==> Satisfied(i, g)
    {
      StructureListed(i, g);
      GroupSpelled(i, g, Structure(i).value.groups[g], d.groups[g]);
    }
  }

  /** The comparator puts the version in the relation the atom asks for. */
  ghost predicate Meets(compare: Comparator, atom: Atom, version: string) {
    atom.relation != NoRelation ==>
      && version != "" && compare.Some? && compare.value(version, atom.version).Compared?
      && var o := compare.value(version, atom.version).ordering;
         && (atom.relation == Less ==> o < 0) && (atom.relation == LessEqual ==> o <= 0) && (atom.relation == Equal ==> o == 0)
         && (atom.relation == GreaterEqual ==> o >= 0) && (atom.relation == Greater ==> o > 0)
  }

  lemma MeetsMeans(compare: Comparator, atom: Atom, version: string)
    ensures InRelation(compare, atom, version) <==> Meets(compare, atom, version)
  {
  }

  /** What is known of every witness: its phase, its current version and, in a historical phase, its configured one. */
  lemma WitnessPhases(i: Input, g: nat, k: nat)
    requires ValidInput(i) && DecisionOf(i).Ok? && g < |DecisionOf(i).value.groups| && k < |DecisionOf(i).value.groups[g].witnesses|
    ensures var w := DecisionOf(i).value.groups[g].witnesses[k].candidate.structural;
            && g < |i.field.groups| && w.alternative < |i.field.groups[g]| && w.candidate <= |i.installed|
            && var atom := i.field.groups[g][w.alternative];
               && Meets(i.compare, atom, w.comparedVersion)
               && (w.candidate < |i.installed| && i.installed[w.candidate].Present? ==>
                     var c := i.installed[w.candidate];
                     && !c.queued
                     && (w.provide != Direct ==> c.status == Installed || c.status == TriggersPending)
                     && (w.provide == Direct ==>
                           c.status == Installed || c.status == TriggersPending
                           || c.status == Unpacked || c.status == HalfConfigured || c.status == TriggersAwaited)
                     && (c.status == Unpacked || c.status == HalfConfigured || c.status == TriggersAwaited ==>
                           c.configVersion != "" && Meets(i.compare, atom, c.configVersion)))
  {
    hide ValidInput, DecisionOf, Fitting, InRelation, Meets, WitnessMeans, BlockersMean, Satisfied;
    DecisionMeans(i);
    var e := DecisionOf(i).value.groups[g];
    assert GroupMeans(i, g, e);
    assert WitnessMeans(i, g, e.witnesses[k]);
    WitnessSpelled(i, g, e.witnesses[k]);
  }

  lemma WitnessSpelled(i: Input, g: nat, a: Admitted)
    requires ValidInput(i) && WitnessMeans(i, g, a)
    ensures var w := a.candidate.structural;
            && g < |i.field.groups| && w.alternative < |i.field.groups[g]| && w.candidate <= |i.installed|
            && var atom := i.field.groups[g][w.alternative];
               && Meets(i.compare, atom, w.comparedVersion)
               && (w.candidate < |i.installed| && i.installed[w.candidate].Present? ==>
                     var c := i.installed[w.candidate];
                     && !c.queued
                     && (w.provide != Direct ==> c.status == Installed || c.status == TriggersPending)
                     && (w.provide == Direct ==>
                           c.status == Installed || c.status == TriggersPending
                           || c.status == Unpacked || c.status == HalfConfigured || c.status == TriggersAwaited)
                     && (c.status == Unpacked || c.status == HalfConfigured || c.status == TriggersAwaited ==>
                           c.configVersion != "" && Meets(i.compare, atom, c.configVersion)))
  {
    hide ValidInput, Fitting, InRelation, Meets;
    var p := Place(a.candidate.structural);
    AtomIs(i, p);
    var atom := AtomFor(i, p);
    forall version
      ensures InRelation(i.compare, atom, version) <==> Meets(i.compare, atom, version)
    {
      MeetsMeans(i.compare, atom, version);
    }
  }

  /** The budgets of an evaluation, and what a group, a blocker and a witness take of the output on a 64-bit target. */
  lemma LimitsMean(e: Evidence)
    ensures EvidenceBytes(e) == 192 + |e.structural.package| + |e.structural.version| + |e.structural.architecture|
                                + |e.structural.comparedVersion| + |e.configVersion| + |e.metadataIdentity|
    ensures PreDepends.MAXIMUM_STEPS == 65536 && MAXIMUM_OUTPUT_BYTES == 33554432
    ensures GROUP_SIZE == 48 && BLOCKER_SIZE == 216
  {
  }
}
