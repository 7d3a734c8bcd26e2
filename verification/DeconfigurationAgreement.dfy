/**
 * The builder and the validator agree: every allowance the builder derives passes the checks the
 * validator makes on its own, apart from the byte limit.
 */
module DeconfigurationAgreement {
  import opened Text
  import opened Packages
  import opened BinaryRelationships
  import opened RelationshipGrammar
  import opened RelationshipCanonical
  import opened RelationshipMatching
  import opened RelationshipWitnesses
  import opened DpkgState
  import opened Reviews
  import opened DeconfigurationEffects
  import opened DeconfigurationBuilder
  import opened DeconfigurationApproval

  // ---------------------------------------------------------------------------------------------
  // What a match guarantees

  lemma {:induction false} GroupWithinCount(gs: seq<BinaryRelationships.Group>, g: nat)
    requires g < |gs|
    ensures |gs[g]| <= CountAtoms(gs)
  {
    if g < |gs| - 1 { GroupWithinCount(gs[..|gs| - 1], g); }
  }

  lemma DeclaredVersion(p: Package, n: nat)
    requires ValidPackage(p) && n < |p.declared.groups|
    ensures |p.declared.groups[n]| == 1 && VersionOrEmpty(p.declared.groups[n][0].version)
  {
    hide Name, Version, ConcreteArchitecture, PrintGroups, CountAtoms;
    assert WellFormedAlternatives(Provides, p.declared.groups[n]);
    assert WellFormedAtom(Provides, p.declared.groups[n][0]);
  }

  /** A Breaks match is in range, carries a valid version, and never concerns the incoming name. */
  predicate MatchSound(q: Query, w: Witness) {
    && w.group < |q.field.groups| && w.alternative < |q.field.groups[w.group]|
    && w.group < MAXIMUM_GROUPS && w.alternative < MAXIMUM_ATOMS
    && (w.provide.Provided? ==> w.provide.index < MAXIMUM_GROUPS)
    && VersionOrEmpty(w.comparedVersion)
    && (w.provide.Direct? ==> w.comparedVersion == w.version)
    && w.package != q.source.name
    && w.candidate < |q.candidates|
    && Instance(w.package, w.version, w.architecture) == InstanceOf(q.candidates[w.candidate])
  }

  lemma MatchIsSound(q: Query, p: Probe)
    requires ValidQuery(q) && q.field.kind == Breaks && q.use == UnpackChecks
    requires ValidProbe(q, p) && ProbeVerdict(q, p) == Match
    ensures MatchSound(q, WitnessOf(q, p))
  {
    hide Name, Version, ConcreteArchitecture, PrintGroups, CountAtoms, WellFormedGroups, ArchitectureMatches, VersionVerdict;
    var candidate := q.candidates[p.candidate];
    GroupWithinCount(q.field.groups, p.group);
    if p.provide.Provided? { DeclaredVersion(candidate, p.provide.index); }
  }

  // ---------------------------------------------------------------------------------------------
  // Candidates are distinct generations

  predicate Distinct(ps: seq<Package>) {
    forall a, b :: 0 <= a < b < |ps| ==> InstanceOf(ps[a]) != InstanceOf(ps[b])
  }

  lemma {:induction false} CandidatesDistinct(i: Input, n: nat)
    requires n <= |i.order| && Ordered(i) && Keyed(i.checkpoint.state.packages)
    ensures Distinct(CandidatesAmong(i, n))
    ensures forall a :: 0 <= a < |CandidatesAmong(i, n)| ==>
              exists k :: 0 <= k < n && Key(InstanceOf(CandidatesAmong(i, n)[a])) == i.order[k]
  {
    hide InstalledPackage, Key;
    if n > 0 {
      CandidatesDistinct(i, n - 1);
      var k := i.order[n - 1];
      if InstalledPackage(i, k).Some? {
        InstalledKey(i, k);
      }
    }
  }

  lemma InstalledKey(i: Input, k: string)
    requires Keyed(i.checkpoint.state.packages) && InstalledPackage(i, k).Some?
    ensures Key(InstanceOf(InstalledPackage(i, k).value)) == k
  {
    hide Understood;
    InstalledValid(i, k);
  }

  lemma {:induction false} LiveDistinct(i: Input, p: nat, cs: seq<Package>)
    requires p <= |i.review.actions| && Distinct(cs)
    ensures Distinct(LiveAmong(i, p, cs))
    ensures forall c :: c in LiveAmong(i, p, cs) ==> c in cs
  {
    hide Initial;
    if |cs| > 0 {
      var n := |cs| - 1;
      LiveDistinct(i, p, cs[..n]);
      var live := LiveAmong(i, p, cs[..n]);
      forall a | 0 <= a < |live|
        ensures InstanceOf(live[a]) != InstanceOf(cs[n])
      {
        assert live[a] in cs[..n];
        var b :| 0 <= b < n && cs[..n][b] == live[a];
      }
    }
  }

  // ---------------------------------------------------------------------------------------------
  // Causes of one unpack are told apart

  predicate Apart(es: seq<Emission>) {
    forall d, e :: 0 <= d < e < |es| && es[d].target == es[e].target ==> CausesApart(es[d].cause, es[e].cause)
  }

  lemma ApartAppend(xs: seq<Emission>, ys: seq<Emission>)
    requires Apart(xs) && Apart(ys)
    requires forall x, y :: 0 <= x < |xs| && 0 <= y < |ys| ==> CausesApart(xs[x].cause, ys[y].cause)
    ensures Apart(xs + ys)
  {
    hide CausesApart;
  }

  /** Matches of one group that share a target differ in alternative or in the declaration used. */
  lemma GroupApart(q: Query, action: ReviewedAction, relation: string, p: nat, g: nat, ws: seq<Witness>)
    requires ValidQuery(q) && q.field.kind == Breaks && q.use == UnpackChecks
    requires Exactly(q, g, ws) && Distinct(q.candidates)
    ensures Apart(GroupEmissions(action, relation, p, ws))
  {
    hide ValidQuery, ProbeVerdict, ValidProbe;
    var es := GroupEmissions(action, relation, p, ws);
    forall d, e | 0 <= d < e < |es| && es[d].target == es[e].target
      ensures CausesApart(es[d].cause, es[e].cause)
    {
      MatchIsSound(q, Place(ws[d]));
      MatchIsSound(q, Place(ws[e]));
      assert Before(Place(ws[d]), Place(ws[e]));
      assert ws[d].candidate == ws[e].candidate;
    }
  }

  predicate AllGrouped(es: seq<Emission>, n: nat) {
    forall e :: 0 <= e < |es| ==> es[e].cause.kind == BreaksCause && es[e].cause.group < n
  }

  lemma {:induction false} BreaksApart(q: Query, action: ReviewedAction, relation: string, p: nat, groups: seq<seq<Witness>>)
    requires ValidQuery(q) && q.field.kind == Breaks && q.use == UnpackChecks && Distinct(q.candidates)
    requires forall g :: 0 <= g < |groups| ==> Exactly(q, g, groups[g])
    ensures Apart(BreaksEmissions(action, relation, p, groups))
    ensures AllGrouped(BreaksEmissions(action, relation, p, groups), |groups|)
  {
    hide ValidQuery, Exactly, Distinct;
    if |groups| > 0 {
      var n := |groups| - 1;
      BreaksApart(q, action, relation, p, groups[..n]);
      assert Exactly(q, n, groups[n]);
      GroupApart(q, action, relation, p, n, groups[n]);
      InGroup(q, action, relation, p, n, groups[n]);
      ApartAppend(BreaksEmissions(action, relation, p, groups[..n]), GroupEmissions(action, relation, p, groups[n]));
    }
  }

  lemma InGroup(q: Query, action: ReviewedAction, relation: string, p: nat, g: nat, ws: seq<Witness>)
    requires ValidQuery(q) && Exactly(q, g, ws)
    ensures forall e :: 0 <= e < |GroupEmissions(action, relation, p, ws)| ==>
              GroupEmissions(action, relation, p, ws)[e].cause.group == g
              && GroupEmissions(action, relation, p, ws)[e].cause.kind == BreaksCause
  {
    hide ValidQuery, ProbeVerdict, ValidProbe, Before;
  }

  lemma {:induction false} SiblingsApart(i: Input, action: ReviewedAction, incoming: Package, p: nat, cs: seq<Package>)
    requires Distinct(cs)
    ensures Apart(SiblingEmissions(i, action, incoming, p, cs))
    ensures forall e :: 0 <= e < |SiblingEmissions(i, action, incoming, p, cs)| ==>
              var x := SiblingEmissions(i, action, incoming, p, cs)[e];
              x.cause.kind == SiblingVersionMismatch
              && exists c :: 0 <= c < |cs| && Mismatched(i, incoming, cs[c]) && x == SiblingEmission(action, p, cs[c])
  {
    hide Mismatched;
    if |cs| > 0 {
      var n := |cs| - 1;
      var front := SiblingEmissions(i, action, incoming, p, cs[..n]);
      SiblingsApart(i, action, incoming, p, cs[..n]);
      forall e | 0 <= e < |front|
        ensures front[e].target != InstanceOf(cs[n])
        ensures exists c :: 0 <= c < |cs| && Mismatched(i, incoming, cs[c]) && front[e] == SiblingEmission(action, p, cs[c])
      {
        var c :| 0 <= c < n && Mismatched(i, incoming, cs[..n][c]) && front[e] == SiblingEmission(action, p, cs[..n][c]);
        assert cs[..n][c] == cs[c];
      }
      if Mismatched(i, incoming, cs[n]) { assert SiblingEmission(action, p, cs[n]).target == InstanceOf(cs[n]); }
    }
  }

  // ---------------------------------------------------------------------------------------------
  // Each emission passes the validator's checks of a cause

  /** The emission came from an admitted unpack and says what the validator wants to see. */
  predicate EmissionSound(i: Input, e: Emission) {
    && e.position < |i.review.actions|
    && var action := i.review.actions[e.position];
    && action.action == Unpack
    && e.cause.unpackAction == action.identifier && e.cause.archive == action.archive
    && PackageValid(e.target) && Addable(i, e.target, e.position)
    && Key(action.package) != Key(e.target)
    && e.cause.group < MAXIMUM_GROUPS && e.cause.alternative < MAXIMUM_ATOMS
    && (e.cause.provide.Provided? ==> e.cause.provide.index < MAXIMUM_GROUPS)
    && VersionOrEmpty(e.cause.comparedVersion)
    && match e.cause.kind
       case BreaksCause => BreaksShaped(e.cause, e.target)
       case SiblingVersionMismatch => SiblingShaped(e.cause, action, e.target)
  }

  /** The unpack admitted at `p`, and everything its evaluation was given. */
  ghost predicate UnpackAt(i: Input, p: nat, source: Incoming, live: seq<Package>, groups: seq<seq<Witness>>) {
    && p < |i.review.actions| && i.review.actions[p].action == Unpack
    && IncomingOf(i, i.review.actions[p].archive) == Some(source) && live == LiveAt(i, p)
    && BreaksMatches(i, source, live) == Some(groups)
    && ValidPackage(source.package) && ValidField(source.breaks) && source.breaks.kind == Breaks
    && InstanceOf(source.package) == i.review.actions[p].package
    && AllValid(live) && Distinct(live)
    && PackageValid(i.review.actions[p].package)
  }

  lemma UnpackFacts(i: Input, p: nat) returns (source: Incoming, live: seq<Package>, groups: seq<seq<Witness>>)
    requires CausesAdmitted(i) && Ordered(i) && p < |i.review.actions| && i.review.actions[p].action == Unpack
    ensures UnpackAt(i, p, source, live, groups)
    ensures EmissionsAt(i, p) == BreaksEmissions(i.review.actions[p], source.breaks.canonical, p, groups)
                                 + SiblingEmissions(i, i.review.actions[p], source.package, p, live)
  {
    hide IncomingAmong, CandidatesAmong, LiveAmong, BreaksMatches, BreaksEmissions, SiblingEmissions, Addable, PackageValid,
         ValidPackage, ValidField, RecordsAdmitted, RowsAdmitted, ArchivesDistinct, FutureClear, Distinct, Digest, SiblingClear, ProviderClear;
    var action := i.review.actions[p];
    assert UnpackAdmitted(i, p);
    assert PrimaryAction(i.review, action);
    source := IncomingOf(i, action.archive).value;
    live := LiveAt(i, p);
    groups := BreaksMatches(i, source, live).value;
    UnpackHasRecord(i, p);
    IncomingValid(i, |i.records|, action.archive);
    CandidatesValid(i, |i.order|);
    LiveValid(i, p, CandidatesOf(i));
    IdentityKeyed(i);
    CandidatesDistinct(i, |i.order|);
    LiveDistinct(i, p, CandidatesOf(i));
  }

  /** A digest cannot be empty, so an accepted checkpoint files every row under its own key. */
  lemma IdentityKeyed(i: Input)
    requires Admitted(i)
    ensures Keyed(i.checkpoint.state.packages)
  {
  }

  lemma {:induction false} BreaksOrigin(action: ReviewedAction, relation: string, p: nat, groups: seq<seq<Witness>>, x: Emission)
    requires x in BreaksEmissions(action, relation, p, groups)
    ensures exists g, k :: 0 <= g < |groups| && 0 <= k < |groups[g]| && x == BreaksEmission(action, relation, p, groups[g][k])
  {
    hide BreaksEmission;
    var n := |groups| - 1;
    if x in BreaksEmissions(action, relation, p, groups[..n]) {
      BreaksOrigin(action, relation, p, groups[..n], x);
      var g, k :| 0 <= g < n && 0 <= k < |groups[..n][g]| && x == BreaksEmission(action, relation, p, groups[..n][g][k]);
      assert groups[g] == groups[..n][g];
    } else {
      var es := GroupEmissions(action, relation, p, groups[n]);
      assert x in es;
      var k :| 0 <= k < |es| && es[k] == x;
      assert x == BreaksEmission(action, relation, p, groups[n][k]);
    }
  }

  lemma UnpackExact(i: Input, p: nat, source: Incoming, live: seq<Package>, groups: seq<seq<Witness>>)
    requires UnpackAt(i, p, source, live, groups)
    ensures var q := QueryAt(i, source, live);
            && ValidQuery(q) && |groups| == |q.field.groups|
            && forall g :: 0 <= g < |groups| ==> Exactly(q, g, groups[g])
  {
    hide ValidPackage, ValidField, Exactly, EvaluationOf, Distinct, LiveAt, IncomingAmong, PackageValid;
    QueryValid(i, source, live);
    EvaluateExact(QueryAt(i, source, live));
  }

  lemma BreaksEmissionSound(i: Input, p: nat, source: Incoming, live: seq<Package>, groups: seq<seq<Witness>>, g: nat, k: nat)
    requires UnpackAt(i, p, source, live, groups) && g < |groups| && k < |groups[g]|
    requires var e := BreaksEmission(i.review.actions[p], source.breaks.canonical, p, groups[g][k]); Addable(i, e.target, p)
    ensures EmissionSound(i, BreaksEmission(i.review.actions[p], source.breaks.canonical, p, groups[g][k]))
  {
    hide ValidQuery, ProbeVerdict, Before, EvaluationOf, LiveAt, IncomingAmong, Distinct, Addable, Version, ValidProbe;
    var q, w := QueryAt(i, source, live), groups[g][k];
    UnpackExact(i, p, source, live, groups);
    assert Exactly(q, g, groups[g]);
    MatchIsSound(q, Place(w));
    ValidIsParsed(source.breaks);
    var target := Instance(w.package, w.version, w.architecture);
    if Key(i.review.actions[p].package) == Key(target) { KeyInjective(i.review.actions[p].package, target); }
  }

  lemma SiblingEmissionSound(i: Input, p: nat, source: Incoming, live: seq<Package>, groups: seq<seq<Witness>>, c: nat)
    requires UnpackAt(i, p, source, live, groups) && c < |live| && Mismatched(i, source.package, live[c])
    requires Addable(i, InstanceOf(live[c]), p)
    ensures EmissionSound(i, SiblingEmission(i.review.actions[p], p, live[c]))
  {
    hide LiveAt, IncomingAmong, Distinct, Addable, Version, BreaksMatches, ValidField, SingleReplacement, VersionOrder;
    var target := InstanceOf(live[c]);
    if Key(i.review.actions[p].package) == Key(target) { KeyInjective(i.review.actions[p].package, target); }
  }

  lemma AllBreaksSound(i: Input, p: nat, source: Incoming, live: seq<Package>, groups: seq<seq<Witness>>)
    requires p < |i.review.actions| && UnpackAt(i, p, source, live, groups)
    requires AllAddable(i, BreaksEmissions(i.review.actions[p], source.breaks.canonical, p, groups), p)
    ensures var es := BreaksEmissions(i.review.actions[p], source.breaks.canonical, p, groups);
            Apart(es) && AllSound(i, es) && forall e :: 0 <= e < |es| ==> es[e].cause.kind == BreaksCause
  {
    hide EmissionSound, Addable, BreaksEmissions, UnpackAt, Exactly;
    var action := i.review.actions[p];
    var es := BreaksEmissions(action, source.breaks.canonical, p, groups);
    BreaksKept(i, p, source, live, groups);
    forall e | 0 <= e < |es|
      ensures EmissionSound(i, es[e])
    {
      BreaksOrigin(action, source.breaks.canonical, p, groups, es[e]);
      var g, k :| 0 <= g < |groups| && 0 <= k < |groups[g]| && es[e] == BreaksEmission(action, source.breaks.canonical, p, groups[g][k]);
      BreaksEmissionSound(i, p, source, live, groups, g, k);
    }
  }

  lemma BreaksKept(i: Input, p: nat, source: Incoming, live: seq<Package>, groups: seq<seq<Witness>>)
    requires UnpackAt(i, p, source, live, groups)
    ensures var es := BreaksEmissions(i.review.actions[p], source.breaks.canonical, p, groups);
            Apart(es) && AllGrouped(es, |groups|)
  {
    hide BreaksEmissions, Exactly, BreaksMatches, LiveAt, IncomingAmong, ValidPackage, ValidField, PackageValid;
    UnpackExact(i, p, source, live, groups);
    BreaksApart(QueryAt(i, source, live), i.review.actions[p], source.breaks.canonical, p, groups);
  }

  lemma AllSiblingsSound(i: Input, p: nat, source: Incoming, live: seq<Package>, groups: seq<seq<Witness>>)
    requires UnpackAt(i, p, source, live, groups)
    requires AllAddable(i, SiblingEmissions(i, i.review.actions[p], source.package, p, live), p)
    ensures var es := SiblingEmissions(i, i.review.actions[p], source.package, p, live);
            Apart(es) && AllSound(i, es) && forall e :: 0 <= e < |es| ==> es[e].cause.kind == SiblingVersionMismatch
  {
    hide EmissionSound, Addable, SiblingEmissions, Mismatched, BreaksMatches, LiveAt, IncomingAmong, ValidPackage, ValidField, PackageValid;
    var action := i.review.actions[p];
    var es := SiblingEmissions(i, action, source.package, p, live);
    SiblingsApart(i, action, source.package, p, live);
    forall e | 0 <= e < |es|
      ensures EmissionSound(i, es[e])
    {
      var c :| 0 <= c < |live| && Mismatched(i, source.package, live[c]) && es[e] == SiblingEmission(action, p, live[c]);
      SiblingEmissionSound(i, p, source, live, groups, c);
    }
  }

  predicate AllSound(i: Input, es: seq<Emission>) {
    forall e :: 0 <= e < |es| ==> EmissionSound(i, es[e])
  }

  lemma UnpackSound(i: Input, p: nat)
    requires CausesAdmitted(i) && Ordered(i) && p < |i.review.actions|
    ensures AllSound(i, EmissionsAt(i, p)) && Apart(EmissionsAt(i, p))
  {
    hide EmissionSound, AllAddable, EmissionsAt, BreaksEmissions, SiblingEmissions, CausesAdmitted, UnpackAt;
    if i.review.actions[p].action != Unpack {
      OtherEmitsNothing(i, p);
    } else {
      var action := i.review.actions[p];
      var source, live, groups := UnpackFacts(i, p);
      var breaks := BreaksEmissions(action, source.breaks.canonical, p, groups);
      var siblings := SiblingEmissions(i, action, source.package, p, live);
      AdmittedAddable(i, p);
      AddableAppend(i, breaks, siblings, p);
      AllBreaksSound(i, p, source, live, groups);
      AllSiblingsSound(i, p, source, live, groups);
      ApartAppend(breaks, siblings);
    }
  }

  lemma AdmittedAddable(i: Input, p: nat)
    requires CausesAdmitted(i) && p < |i.review.actions| && i.review.actions[p].action == Unpack
    ensures AllAddable(i, EmissionsAt(i, p), p)
  {
    hide InputAdmitted, FutureClear, ArchivesUsed, BreaksMatches, EmissionsAt, Addable, SiblingClear, ProviderClear;
    assert UnpackAdmitted(i, p);
  }

  lemma {:induction false} EmissionsSound(i: Input, n: nat)
    requires CausesAdmitted(i) && Ordered(i) && n <= |i.review.actions|
    ensures AllSound(i, EmissionsBefore(i, n)) && Apart(EmissionsBefore(i, n))
  {
    hide EmissionSound, EmissionsAt, UnpackAt, RecordsAdmitted, RowsAdmitted, ArchivesDistinct, UnpackAdmitted, FutureClear, ArchivesUsed, Ordered,
         PrimaryAction;
    if n > 0 {
      EmissionsSound(i, n - 1);
      UnpackSound(i, n - 1);
      EmissionsTraced(i, n - 1);
      EmissionsFrom(i, n - 1);
      var before, at := EmissionsBefore(i, n - 1), EmissionsAt(i, n - 1);
      forall d, e | 0 <= d < |before| && 0 <= e < |at|
        ensures CausesApart(before[d].cause, at[e].cause)
      {
        assert i.review.actions[before[d].position].identifier != i.review.actions[n - 1].identifier;
      }
      ApartAppend(before, at);
    }
  }

  // ---------------------------------------------------------------------------------------------
  // Filtering by generation keeps order and distinctness

  function EmissionsFor(es: seq<Emission>, g: string): seq<Emission> {
    if |es| == 0 then []
    else
      var e := es[|es| - 1];
      EmissionsFor(es[..|es| - 1], g) + (if Generation(e.target) == g then [e] else [])
  }

  lemma {:induction false} FilteredCauses(es: seq<Emission>, g: string)
    ensures |CausesFor(es, g)| == |EmissionsFor(es, g)|
    ensures forall k :: 0 <= k < |CausesFor(es, g)| ==> CausesFor(es, g)[k] == EmissionsFor(es, g)[k].cause
    ensures |CausesFor(es, g)| > 0 ==> EmissionsFor(es, g)[|CausesFor(es, g)| - 1].position == LastCause(es, g)
  {
    hide Generation;
    if |es| > 0 { FilteredCauses(es[..|es| - 1], g); }
  }

  lemma {:induction false} FilteredIn(es: seq<Emission>, g: string, x: Emission)
    ensures x in EmissionsFor(es, g) <==> x in es && Generation(x.target) == g
  {
    hide Generation;
    if |es| > 0 {
      FilteredIn(es[..|es| - 1], g, x);
      assert es == es[..|es| - 1] + [es[|es| - 1]];
    }
  }

  lemma {:induction false} FilteredOrder(i: Input, es: seq<Emission>, n: nat, g: string)
    requires n <= |i.review.actions| && Traced(i, es, n) && Apart(es) && TargetsValid(es)
    ensures forall j, k :: 0 <= j < k < |EmissionsFor(es, g)| ==>
              EmissionsFor(es, g)[j].position <= EmissionsFor(es, g)[k].position
              && CausesApart(EmissionsFor(es, g)[j].cause, EmissionsFor(es, g)[k].cause)
  {
    hide Generation, PackageValid, CausesApart;
    if |es| > 0 {
      var front, last := es[..|es| - 1], es[|es| - 1];
      FilteredOrder(i, front, n, g);
      var fs := EmissionsFor(front, g);
      if Generation(last.target) == g {
        forall j | 0 <= j < |fs|
          ensures fs[j].position <= last.position && CausesApart(fs[j].cause, last.cause)
        {
          FilteredIn(front, g, fs[j]);
          var k :| 0 <= k < |front| && front[k] == fs[j];
          assert es[k] == front[k];
          GenerationInjective(es[k].target, last.target);
        }
      }
    }
  }

  // ---------------------------------------------------------------------------------------------
  // The theorem

  lemma SoundCauseShaped(i: Input, index: map<nat, Located>, e: Emission)
    requires EmissionSound(i, e) && Indexes(i.review.actions, |i.review.actions|, index)
    requires forall p, q :: 0 <= p < q < |i.review.actions| ==> i.review.actions[p].identifier != i.review.actions[q].identifier
    ensures CauseShaped(index, e.target, e.cause) && PositionOf(index, e.cause) == e.position
  {
    hide PackageValid, Addable, Key, FieldOf, Version, PrecedingUnpack;
    IndexAt(i.review.actions, index, e.position);
  }

  lemma IndexAt(actions: seq<ReviewedAction>, index: map<nat, Located>, p: nat)
    requires Indexes(actions, |actions|, index) && p < |actions|
    requires forall p, q :: 0 <= p < q < |actions| ==> actions[p].identifier != actions[q].identifier
    ensures actions[p].identifier in index && index[actions[p].identifier] == LocatedAt(actions, p)
  {
    hide LocatedAt;
    var id := actions[p].identifier;
    assert actions[index[id].position].identifier == id;
  }

  /** The endpoint's generation was unpacked after the last cause, or is the installed one. */
  lemma EndShaped(i: Input, index: map<nat, Located>, e: Emission, end: nat)
    requires EmissionSound(i, e) && Indexes(i.review.actions, |i.review.actions|, index)
    requires forall p, q :: 0 <= p < q < |i.review.actions| ==> i.review.actions[p].identifier != i.review.actions[q].identifier
    requires forall p :: 0 <= p < |i.review.actions| ==> i.review.actions[p].identifier != 0
    requires EndsAt(i.review.actions, e.position, e.target, end)
    ensures EndpointShaped(index, e.target, e.position, EndpointOf(i.review.actions, e.target, end))
  {
    hide PackageValid, FieldOf, Version, LastUnpack, Indexes;
    var actions, key := i.review.actions, Key(e.target);
    IndexAt(actions, index, end);
    var u := LastUnpack(actions, end, key);
    LastUnpackLast(actions, end, key);
    if u < end {
      IndexAt(actions, index, u);
      assert Unpacks(actions[u], key);
      assert u != e.position;
    }
  }

  /** The causes of an allowance are shaped, and `last` is the emission of the last one. */
  lemma DerivedCauses(i: Input, allowances: map<string, Allowance>, index: map<nat, Located>, generation: string)
    returns (last: Emission)
    requires Ordered(i) && CausesAdmitted(i) && Collected(i, EmissionsOf(i), allowances) && generation in allowances
    requires Indexes(i.review.actions, |i.review.actions|, index)
    ensures var a := allowances[generation];
            && |a.causes| > 0 && CausesShaped(index, a.installed, a.causes)
            && EmissionSound(i, last) && last.target == a.installed && Generation(last.target) == generation
            && Begins(i, last.target, a)
            && last.position == LastCause(EmissionsOf(i), generation) == PositionOf(index, a.causes[|a.causes| - 1])
  {
    hide EmissionSound, EmissionsBefore, CausesFor, LastCause, EmissionsFor, Apart, Traced, UnpackAdmitted, FutureClear, ArchivesUsed,
         Indexes, Named, RecordsAdmitted, RowsAdmitted, ArchivesDistinct, Generation, PackageValid, CauseShaped, CausesApart,
         Begins, Ordered, Admitted, PrimaryAction, PositionOf;
    var es, a := EmissionsOf(i), allowances[generation];
    EmissionsSound(i, |i.review.actions|);
    EmissionsTraced(i, |i.review.actions|);
    AllTargetsValid(i, es);
    FilteredOrder(i, es, |i.review.actions|, generation);
    FilteredCauses(es, generation);
    InstalledIs(i, es, allowances, generation);
    var fs := EmissionsFor(es, generation);
    var first :| 0 <= first < |es| && Generation(es[first].target) == generation && es[first].target == a.installed;
    FilteredIn(es, generation, es[first]);
    forall k | 0 <= k < |fs|
      ensures EmissionSound(i, fs[k]) && fs[k].target == a.installed
      ensures Generation(fs[k].target) == generation && Begins(i, fs[k].target, a)
      ensures CauseShaped(index, a.installed, fs[k].cause) && PositionOf(index, fs[k].cause) == fs[k].position
    {
      FilteredIn(es, generation, fs[k]);
      var e :| 0 <= e < |es| && es[e] == fs[k];
      OneTarget(i, es, allowances, e);
      SoundCauseShaped(i, index, fs[k]);
    }
    assert forall c :: 0 <= c < |a.causes| ==> a.causes[c] == fs[c].cause;
    last := fs[|fs| - 1];
  }

  /**
   * An allowance of the builder passes the validator's checks if and only if its captured
   * configuration version is empty or valid and its scripts got a digest; nothing else can fail.
   */
  lemma BuilderSatisfiesValidator(i: Input, allowances: map<string, Allowance>, index: map<nat, Located>,
                                  generation: string, scripts: string)
    requires Ordered(i) && CausesAdmitted(i)
    requires Collected(i, EmissionsOf(i), allowances) && Ended(i, EmissionsOf(i), allowances)
    requires Indexes(i.review.actions, |i.review.actions|, index) && generation in allowances
    ensures AllowanceShaped(index, generation, allowances[generation].(installedScriptsIdentity := scripts)) <==>
            VersionOrEmpty(allowances[generation].configVersion) && Digest(scripts)
  {
    hide EmissionSound, EmissionsBefore, Collected, LastCause, Ends, Expected, Paired, UnpackAdmitted, FutureClear, ArchivesUsed, Indexes,
         RecordsAdmitted, ArchivesDistinct, Generation, Digest, PackageValid, CausesShaped, EndpointShaped,
         EndpointOf, VersionOrEmpty, Begins, Ordered, Admitted, PrimaryAction, PositionOf, RowAdmitted;
    var es, a := EmissionsOf(i), allowances[generation];
    var last := DerivedCauses(i, allowances, index, generation);
    var end :| EndsAt(i.review.actions, LastCause(es, generation), a.installed, end)
               && a.endpoint == EndpointOf(i.review.actions, a.installed, end);
    ActionsNonzero(i);
    EndShaped(i, index, last, end);
    InstalledShaped(i, last, a, generation);
  }

  lemma ActionsNonzero(i: Input)
    requires ActionsAdmitted(i.review)
    ensures forall p :: 0 <= p < |i.review.actions| ==> i.review.actions[p].identifier != 0
  {
    assert forall p :: 0 <= p < |i.review.actions| ==> PrimaryAction(i.review, i.review.actions[p]);
  }

  lemma AllTargetsValid(i: Input, es: seq<Emission>)
    requires AllSound(i, es)
    ensures TargetsValid(es)
  {
    hide PackageValid;
  }

  lemma OneTarget(i: Input, es: seq<Emission>, allowances: map<string, Allowance>, e: nat)
    requires Collected(i, es, allowances) && e < |es|
    ensures Generation(es[e].target) in allowances && allowances[Generation(es[e].target)].installed == es[e].target
    ensures Begins(i, es[e].target, allowances[Generation(es[e].target)])
  {
    hide Generation, CausesFor;
    NamedAt(es, e);
  }

  lemma InstalledShaped(i: Input, e: Emission, a: Allowance, generation: string)
    requires EmissionSound(i, e) && Begins(i, e.target, a) && generation == Generation(e.target) && RowsAdmitted(i)
    ensures PackageValid(a.installed) && generation == Generation(a.installed)
    ensures Configured(a.initialStatus) && Configured(a.diskStatus) && Digest(a.installedControlIdentity)
  {
    hide Digest, Name, ConcreteArchitecture, Understood, BreaksShaped, SiblingShaped;
    var k := Key(e.target);
    assert RowAdmitted(i, k);
  }
}
