/**
 * Which installed packages the reviewed unpacks may deconfigure, read off the review and the
 * installed state: statuses, fields, actions and architectures are named here, apart from the builder.
 */
module DeconfigurationMeaning {
  import opened Text
  import opened Packages
  import opened BinaryRelationships
  import opened RelationshipCanonical
  import opened RelationshipMatching
  import opened RelationshipWitnesses
  import opened DpkgState
  import opened Reviews
  import opened DeconfigurationEffects
  import opened DeconfigurationBuilder
  import opened MatchingMeaning

  // ---------------------------------------------------------------------------------------------
  // Installed packages that can lose their configuration

  ghost predicate Running(s: Status) {
    s.Installed? || s.TriggersPending? || s.TriggersAwaited?
  }

  ghost function ReadAs(c: Controls, p: Instance): Result<Package> {
    PackageOf(p.package, p.version, p.architecture, At(c, "multi-arch"), At(c, "provides"))
  }

  /** The row `k` holds the running package `c`. */
  ghost predicate Stands(i: Input, k: string, c: Package) {
    && k in i.checkpoint.state.packages && k in i.checkpoint.metadata
    && i.checkpoint.state.packages[k].package.version != "" && Running(i.checkpoint.state.packages[k].status)
    && ReadAs(i.checkpoint.metadata[k].controls, i.checkpoint.state.packages[k].package) == Ok(c)
  }

  /** The `p`-th action unpacks a package whose index record reads as `source` with `breaks`. */
  ghost predicate Brings(i: Input, p: nat, source: Package, breaks: Field) {
    && p < |i.review.actions| && i.review.actions[p].action.Unpack?
    && exists r :: 0 <= r < |i.records| && i.records[r].archive.identifier == i.review.actions[p].archive
                   && ReadAs(i.records[r].controls, i.records[r].archive.package) == Ok(source)
                   && FieldOf(Breaks, At(i.records[r].controls, "breaks")) == Ok(breaks)
  }

  ghost predicate Present(i: Input, k: string, name: string) {
    && k in i.checkpoint.state.packages && i.checkpoint.state.packages[k].package.package == name
    && !i.checkpoint.state.packages[k].status.NotInstalled?
  }

  /** One is for all architectures, the other native, and at most one instance of the name is there. */
  ghost predicate Alternates(i: Input, source: Package, former: Package) {
    && ((source.architecture == "all" && former.architecture == i.checkpoint.state.native)
        || (former.architecture == "all" && source.architecture == i.checkpoint.state.native))
    && (forall k, l :: Present(i, k, source.name) && Present(i, l, source.name) ==> k == l)
    && !(source.multiArch.Same? && former.multiArch.Same?)
  }

  /** The `b`-th action takes the package's place. */
  ghost predicate Displaces(i: Input, b: nat, c: Package)
    requires b < |i.review.actions|
  {
    var a := i.review.actions[b];
    && a.package.package == c.name
    && (|| (a.package.architecture == c.architecture && (a.action.Unpack? || a.action.Remove? || a.action.Purge?))
        || exists source, breaks :: Brings(i, b, source, breaks) && Alternates(i, source, c))
  }

  ghost predicate Untouched(i: Input, p: nat, c: Package)
    requires p <= |i.review.actions|
  {
    forall b :: 0 <= b < p ==> !Displaces(i, b, c)
  }

  // ---------------------------------------------------------------------------------------------
  // What an unpack breaks

  /** The Breaks field asked about this one package. */
  ghost function Asked(i: Input, source: Package, breaks: Field, c: Package): Query {
    Query(breaks, source, [c], i.checkpoint.state.native, UnpackChecks, i.compare)
  }

  ghost function Unpacking(i: Input, p: nat, kind: CauseKind, relation: string, version: string, g: nat, a: nat, slot: Slot): Cause
    requires p < |i.review.actions|
  {
    Cause(kind, i.review.actions[p].identifier, i.review.actions[p].archive, relation, version, g, a, slot)
  }

  /** An alternative of the Breaks field agrees with the package or with something it provides. */
  ghost predicate Breaking(i: Input, p: nat, c: Package, cause: Cause) {
    exists source, breaks, g: nat, a: nat, slot ::
      && Brings(i, p, source, breaks)
      && var q, t := Asked(i, source, breaks, c), Probe(g, a, 0, slot);
         && ValidQuery(q) && ValidProbe(q, t) && Agreeing(q, t)
         && cause == Unpacking(i, p, BreaksCause, breaks.canonical, VersionAsked(q, t), g, a, slot)
  }

  /** A coinstallable package of the same name and another architecture is left at another version. */
  ghost predicate Diverging(i: Input, p: nat, c: Package, cause: Cause) {
    exists source, breaks ::
      && Brings(i, p, source, breaks)
      && c.name == source.name && c.architecture != source.architecture && !Alternates(i, source, c)
      && i.compare.Some? && i.compare.value(c.version, source.version).Compared?
      && i.compare.value(c.version, source.version).ordering != 0
      && cause == Unpacking(i, p, SiblingVersionMismatch, "", c.version, 0, 0, Direct)
  }

  /** The `p`-th action takes the configuration of the package in row `k`. */
  ghost predicate Deconfigures(i: Input, p: nat, k: string, cause: Cause)
    requires p < |i.review.actions|
  {
    exists c :: Stands(i, k, c) && Untouched(i, p, c) && (Breaking(i, p, c, cause) || Diverging(i, p, c, cause))
  }

  // ---------------------------------------------------------------------------------------------
  // The builder reads the fields by these names

  lemma UnderstoodMeans(i: Input, c: Controls, p: Instance)
    requires Understood(i, c, p).Some?
    ensures ReadAs(c, p) == Ok(Understood(i, c, p).value.package)
    ensures FieldOf(Breaks, At(c, "breaks")) == Ok(Understood(i, c, p).value.breaks)
    ensures NamesOf(Understood(i, c, p).value.package, p)
  {
    hide FieldOf, PackageOf, NativeQualified, PackageValid;
    UnderstoodValid(i, c, p);
  }

  ghost predicate NamesOf(c: Package, p: Instance) {
    c.name == p.package && c.version == p.version && c.architecture == p.architecture
  }

  lemma BringsMeans(i: Input, p: nat, source: Package, breaks: Field)
    requires InputAdmitted(i) && p < |i.review.actions| && i.review.actions[p].action == Unpack
    requires IncomingOf(i, i.review.actions[p].archive).Some?
    ensures Brings(i, p, source, breaks) <==>
            IncomingOf(i, i.review.actions[p].archive) == Some(Incoming(source, breaks))
  {
    hide IncomingAmong, Understood, RowsAdmitted, ActionsAdmitted, ArchivesDistinct, Admitted, PackageOf, FieldOf, ReadAs;
    var archive := i.review.actions[p].archive;
    IncomingRecord(i, |i.records|, archive);
    var r :| 0 <= r < |i.records| && i.records[r].archive.identifier == archive;
    RecordOf(i, |i.records|, r);
    UnderstoodMeans(i, i.records[r].controls, i.records[r].archive.package);
  }

  lemma {:induction false} RecordOf(i: Input, n: nat, r: nat)
    requires RecordsAdmitted(i) && r < n <= |i.records|
    ensures Understood(i, i.records[r].controls, i.records[r].archive.package).Some?
    ensures IncomingAmong(i, n, i.records[r].archive.identifier) ==
            Understood(i, i.records[r].controls, i.records[r].archive.package)
  {
    hide Understood;
    assert RecordAdmitted(i, i.records[r]);
    if r < n - 1 { RecordOf(i, n - 1, r); }
  }

  lemma RunningMeans(s: Status)
    ensures Configured(s) <==> Running(s)
  {
  }

  lemma StandsMeans(i: Input, k: string, c: Package)
    requires InputAdmitted(i)
    ensures Stands(i, k, c) <==>
            k in i.checkpoint.state.packages && Configured(i.checkpoint.state.packages[k].status)
            && InstalledPackage(i, k) == Some(c)
  {
    hide Understood, PackageOf, ArchivesDistinct, ActionsAdmitted, RecordsAdmitted, Admitted, ReadAs;
    if k in i.checkpoint.state.packages {
      RunningMeans(i.checkpoint.state.packages[k].status);
      assert RowAdmitted(i, k);
      if i.checkpoint.state.packages[k].package.version != "" {
        UnderstoodMeans(i, i.checkpoint.metadata[k].controls, i.checkpoint.state.packages[k].package);
      }
    }
  }

  lemma {:induction false} CandidateMeans(i: Input, n: nat, c: Package)
    requires InputAdmitted(i) && n <= |i.order|
    ensures c in CandidatesAmong(i, n) <==> exists m :: 0 <= m < n && Stands(i, i.order[m], c)
  {
    hide InputAdmitted, InstalledPackage, Stands, Configured;
    if n > 0 {
      CandidateMeans(i, n - 1, c);
      StandsMeans(i, i.order[n - 1], c);
    }
  }

  lemma CandidatesMean(i: Input, c: Package)
    requires InputAdmitted(i) && Ordered(i)
    ensures c in CandidatesOf(i) <==> exists k :: Stands(i, k, c)
  {
    hide InputAdmitted, CandidatesAmong;
    CandidateMeans(i, |i.order|, c);
    if k :| Stands(i, k, c) {
      assert k in i.order;
    }
  }

  // ---------------------------------------------------------------------------------------------
  // Untouched packages

  ghost predicate PresentIn(i: Input, n: nat, m: nat, name: string)
    requires n <= |i.order|
  {
    m < n && Present(i, i.order[m], name)
  }

  lemma PresentNext(i: Input, n: nat, name: string)
    requires 0 < n <= |i.order|
    ensures InstancesAmong(i, n, name) == InstancesAmong(i, n - 1, name) + (if Present(i, i.order[n - 1], name) then 1 else 0)
    ensures forall m: nat :: PresentIn(i, n, m, name) <==> PresentIn(i, n - 1, m, name) || (m == n - 1 && Present(i, i.order[m], name))
    ensures !PresentIn(i, n - 1, n - 1, name)
  {
    hide Present;
    forall m: nat
      ensures PresentIn(i, n, m, name) <==> PresentIn(i, n - 1, m, name) || (m == n - 1 && Present(i, i.order[m], name))
    {
    }
    PresentCounts(i, n - 1, name);
  }

  lemma NoneAtFirst(i: Input, name: string)
    ensures InstancesAmong(i, 0, name) == 0 && forall m: nat :: !PresentIn(i, 0, m, name)
  {
  }

  lemma PresentCounts(i: Input, n: nat, name: string)
    requires n < |i.order|
    ensures InstancesAmong(i, n + 1, name) == InstancesAmong(i, n, name) + (if Present(i, i.order[n], name) then 1 else 0)
  {
  }

  lemma {:induction false} NoInstance(i: Input, n: nat, name: string)
    requires n <= |i.order|
    ensures InstancesAmong(i, n, name) == 0 <==> forall m: nat :: !PresentIn(i, n, m, name)
  {
    hide Present, InstancesAmong, PresentIn;
    if n == 0 {
      NoneAtFirst(i, name);
    } else {
      NoInstance(i, n - 1, name);
      PresentNext(i, n, name);
      if InstancesAmong(i, n - 1, name) > 0 {
        var m: nat :| PresentIn(i, n - 1, m, name);
        assert PresentIn(i, n, m, name);
      } else if Present(i, i.order[n - 1], name) {
        assert PresentIn(i, n, n - 1, name);
      }
    }
  }

  lemma {:induction false} OneInstance(i: Input, n: nat, name: string)
    requires n <= |i.order|
    ensures InstancesAmong(i, n, name) <= 1 <==> forall l: nat, m: nat :: PresentIn(i, n, l, name) && PresentIn(i, n, m, name) ==> l == m
  {
    hide Present, InstancesAmong, PresentIn;
    if n == 0 {
      NoneAtFirst(i, name);
    } else {
      OneInstance(i, n - 1, name);
      NoInstance(i, n - 1, name);
      PresentNext(i, n, name);
      if InstancesAmong(i, n - 1, name) > 1 {
        var l: nat, m: nat :| PresentIn(i, n - 1, l, name) && PresentIn(i, n - 1, m, name) && l != m;
        assert PresentIn(i, n, l, name) && PresentIn(i, n, m, name);
      } else if InstancesAmong(i, n - 1, name) > 0 && Present(i, i.order[n - 1], name) {
        var l: nat :| PresentIn(i, n - 1, l, name);
        assert PresentIn(i, n, l, name) && PresentIn(i, n, n - 1, name) && l != n - 1;
      }
    }
  }

  lemma InstancesMean(i: Input, name: string)
    requires Ordered(i)
    ensures InstancesOf(i, name) <= 1 <==> forall k, l :: Present(i, k, name) && Present(i, l, name) ==> k == l
  {
    hide Present;
    var n := |i.order|;
    OneInstance(i, n, name);
    PresentListed(i, name);
    if forall l, m :: PresentIn(i, n, l, name) && PresentIn(i, n, m, name) ==> l == m {
      forall k, l | Present(i, k, name) && Present(i, l, name)
        ensures k == l
      {
        var x :| 0 <= x < n && i.order[x] == k;
        var y :| 0 <= y < n && i.order[y] == l;
        assert PresentIn(i, n, x, name) && PresentIn(i, n, y, name);
      }
    }
  }

  lemma PresentListed(i: Input, name: string)
    requires Ordered(i)
    ensures forall k :: Present(i, k, name) ==> k in i.order
  {
  }

  lemma AlternatesMeans(i: Input, source: Package, former: Package)
    requires Ordered(i)
    ensures SingleReplacement(i, source, former) <==> Alternates(i, source, former)
  {
    hide Present, InstancesAmong, IsAll;
    AliasMeans(source.architecture);
    AliasMeans(former.architecture);
    InstancesMean(i, source.name);
  }

  lemma DisplacesMeans(i: Input, b: nat, c: Package)
    requires InputAdmitted(i) && Ordered(i) && b < |i.review.actions|
    ensures Supersedes(i, i.review.actions[b], c) <==> Displaces(i, b, c)
  {
    hide InputAdmitted, IncomingAmong, SingleReplacement, Alternates;
    var a := i.review.actions[b];
    if a.action == Unpack {
      UnpackHasRecord(i, b);
      var incoming := IncomingOf(i, a.archive).value;
      forall source, breaks
        ensures Brings(i, b, source, breaks) <==> incoming == Incoming(source, breaks)
      {
        BringsMeans(i, b, source, breaks);
      }
      assert Brings(i, b, incoming.package, incoming.breaks);
      AlternatesMeans(i, incoming.package, c);
    }
  }

  lemma {:induction false} LiveMeans(i: Input, p: nat, cs: seq<Package>, c: Package)
    requires InputAdmitted(i) && Ordered(i) && p <= |i.review.actions|
    ensures c in LiveAmong(i, p, cs) <==> c in cs && Untouched(i, p, c)
  {
    hide InputAdmitted, Displaces, Supersedes;
    if |cs| > 0 {
      LiveMeans(i, p, cs[..|cs| - 1], c);
      assert cs == cs[..|cs| - 1] + [cs[|cs| - 1]];
      forall b | 0 <= b < p
        ensures Supersedes(i, i.review.actions[b], c) <==> Displaces(i, b, c)
      {
        DisplacesMeans(i, b, c);
      }
    }
  }

  // ---------------------------------------------------------------------------------------------
  // The causes of one unpack

  /** A tuple of a query is the tuple of the query about its candidate alone. */
  lemma AskedAlone(i: Input, incoming: Incoming, cs: seq<Package>, n: nat, g: nat, a: nat, slot: Slot)
    requires n < |cs| && ValidQuery(QueryAt(i, incoming, cs))
    ensures var q, q' := QueryAt(i, incoming, cs), Asked(i, incoming.package, incoming.breaks, cs[n]);
            && ValidQuery(q')
            && (ValidProbe(q, Probe(g, a, n, slot)) <==> ValidProbe(q', Probe(g, a, 0, slot)))
            && (ValidProbe(q', Probe(g, a, 0, slot)) ==>
                  && (Agreeing(q, Probe(g, a, n, slot)) <==> Agreeing(q', Probe(g, a, 0, slot)))
                  && VersionAsked(q, Probe(g, a, n, slot)) == VersionAsked(q', Probe(g, a, 0, slot)))
  {
    hide ValidPackage, ValidField, InRelation;
  }

  lemma {:induction false} BreaksFound(action: ReviewedAction, relation: string, p: nat, groups: seq<seq<Witness>>, e: Emission)
    ensures e in BreaksEmissions(action, relation, p, groups) <==>
            exists g, k :: 0 <= g < |groups| && 0 <= k < |groups[g]| && e == BreaksEmission(action, relation, p, groups[g][k])
  {
    hide BreaksEmission;
    if |groups| > 0 {
      var n := |groups| - 1;
      var front := groups[..n];
      BreaksFound(action, relation, p, front, e);
      var last := GroupEmissions(action, relation, p, groups[n]);
      if e in BreaksEmissions(action, relation, p, front) {
        var g, k :| 0 <= g < |front| && 0 <= k < |front[g]| && e == BreaksEmission(action, relation, p, front[g][k]);
        assert e == BreaksEmission(action, relation, p, groups[g][k]);
      } else if e in last {
        var k :| 0 <= k < |last| && last[k] == e;
        assert e == BreaksEmission(action, relation, p, groups[n][k]);
      }
      if g, k :| 0 <= g < |groups| && 0 <= k < |groups[g]| && e == BreaksEmission(action, relation, p, groups[g][k]) {
        BreaksContains(action, relation, p, groups, g, k);
      }
    }
  }

  lemma {:induction false} SiblingFound(i: Input, action: ReviewedAction, source: Package, p: nat, cs: seq<Package>, e: Emission)
    ensures e in SiblingEmissions(i, action, source, p, cs) <==>
            exists c :: c in cs && Mismatched(i, source, c) && e == SiblingEmission(action, p, c)
  {
    hide Mismatched, SiblingEmission;
    if |cs| > 0 {
      SiblingFound(i, action, source, p, cs[..|cs| - 1], e);
      assert cs == cs[..|cs| - 1] + [cs[|cs| - 1]];
    }
  }

  lemma MismatchedMeans(i: Input, source: Package, c: Package)
    requires Ordered(i)
    ensures Mismatched(i, source, c) <==>
            && c.name == source.name && c.architecture != source.architecture && !Alternates(i, source, c)
            && i.compare.Some? && i.compare.value(c.version, source.version).Compared?
            && i.compare.value(c.version, source.version).ordering != 0
  {
    hide Alternates, SingleReplacement;
    AlternatesMeans(i, source, c);
  }

  /** The `n`-th package of the list loses its configuration to a match of the Breaks field. */
  ghost predicate Matching(i: Input, p: nat, incoming: Incoming, c: Package, e: Emission)
    requires p < |i.review.actions|
  {
    exists g: nat, a: nat, slot ::
      && var q, t := Asked(i, incoming.package, incoming.breaks, c), Probe(g, a, 0, slot);
         && ValidQuery(q) && ValidProbe(q, t) && Agreeing(q, t)
         && e == Emission(InstanceOf(c), Unpacking(i, p, BreaksCause, incoming.breaks.canonical, VersionAsked(q, t), g, a, slot), p)
  }

  lemma MatchingMeans(i: Input, p: nat, incoming: Incoming, cs: seq<Package>, e: Emission)
    requires p < |i.review.actions| && BreaksMatches(i, incoming, cs).Some?
    ensures e in BreaksEmissions(i.review.actions[p], incoming.breaks.canonical, p, BreaksMatches(i, incoming, cs).value) <==>
            exists c :: c in cs && Matching(i, p, incoming, c, e)
  {
    hide EvaluationOf, ValidQuery, ValidProbe, Agreeing, VersionAsked, BreaksEmissions, Asked;
    var q, action, relation := QueryAt(i, incoming, cs), i.review.actions[p], incoming.breaks.canonical;
    var groups: seq<seq<Witness>> := BreaksMatches(i, incoming, cs).value;
    EvaluationMeans(q);
    BreaksFound(action, relation, p, groups, e);
    if g: nat, k: nat :| g < |groups| && k < |groups[g]| && e == BreaksEmission(action, relation, p, groups[g][k]) {
      assert ReportsExactly(q, g, groups[g]);
      WitnessMatches(i, p, incoming, cs, groups[g][k], e);
    }
    if c :| c in cs && Matching(i, p, incoming, c, e) {
      var n :| 0 <= n < |cs| && cs[n] == c;
      MatchReported(i, p, incoming, cs, groups, n, e);
    }
  }

  lemma WitnessMatches(i: Input, p: nat, incoming: Incoming, cs: seq<Package>, w: Witness, e: Emission)
    requires p < |i.review.actions| && ValidQuery(QueryAt(i, incoming, cs))
    requires var q := QueryAt(i, incoming, cs); ValidProbe(q, Place(w)) && Agreeing(q, Place(w)) && Shows(q, w)
    requires e == BreaksEmission(i.review.actions[p], incoming.breaks.canonical, p, w)
    ensures w.candidate < |cs| && Matching(i, p, incoming, cs[w.candidate], e)
  {
    hide ValidQuery, Agreeing, VersionAsked;
    AskedAlone(i, incoming, cs, w.candidate, w.group, w.alternative, w.provide);
    var q', t := Asked(i, incoming.package, incoming.breaks, cs[w.candidate]), Probe(w.group, w.alternative, 0, w.provide);
    assert ValidQuery(q') && ValidProbe(q', t) && Agreeing(q', t);
  }

  lemma MatchReported(i: Input, p: nat, incoming: Incoming, cs: seq<Package>, groups: seq<seq<Witness>>, n: nat, e: Emission)
    requires p < |i.review.actions| && n < |cs| && ValidQuery(QueryAt(i, incoming, cs))
    requires Matching(i, p, incoming, cs[n], e)
    requires |groups| == |incoming.breaks.groups|
    requires forall g :: 0 <= g < |groups| ==> ReportsExactly(QueryAt(i, incoming, cs), g, groups[g])
    ensures exists g, k :: 0 <= g < |groups| && 0 <= k < |groups[g]|
                           && e == BreaksEmission(i.review.actions[p], incoming.breaks.canonical, p, groups[g][k])
  {
    hide ValidQuery, Agreeing, VersionAsked;
    var q, q' := QueryAt(i, incoming, cs), Asked(i, incoming.package, incoming.breaks, cs[n]);
    var g: nat, a: nat, slot :| var t := Probe(g, a, 0, slot);
      && ValidQuery(q') && ValidProbe(q', t) && Agreeing(q', t)
      && e == Emission(InstanceOf(cs[n]), Unpacking(i, p, BreaksCause, incoming.breaks.canonical, VersionAsked(q', t), g, a, slot), p);
    AskedAlone(i, incoming, cs, n, g, a, slot);
    assert ReportsExactly(q, g, groups[g]);
    var t := Probe(g, a, n, slot);
    var k :| 0 <= k < |groups[g]| && Place(groups[g][k]) == t;
    assert Shows(q, groups[g][k]);
  }

  // ---------------------------------------------------------------------------------------------
  // The causes of the whole review

  /** The `p`-th action takes the configuration of the package in row `k`, which the emission names. */
  ghost predicate Emits(i: Input, k: string, e: Emission) {
    && e.position < |i.review.actions| && k in i.checkpoint.state.packages
    && e.target == i.checkpoint.state.packages[k].package && Deconfigures(i, e.position, k, e.cause)
  }

  lemma HeldIs(i: Input, k: string, c: Package)
    requires InputAdmitted(i) && Stands(i, k, c)
    ensures InstanceOf(c) == i.checkpoint.state.packages[k].package
  {
    hide Understood, PackageOf, ArchivesDistinct, ActionsAdmitted, RecordsAdmitted, Admitted, ReadAs;
    assert RowAdmitted(i, k);
    UnderstoodMeans(i, i.checkpoint.metadata[k].controls, i.checkpoint.state.packages[k].package);
  }

  lemma EmissionMeans(i: Input, p: nat, e: Emission)
    requires InputAdmitted(i) && Ordered(i) && p < |i.review.actions|
    requires var action := i.review.actions[p];
             action.action == Unpack ==>
               var incoming := IncomingOf(i, action.archive);
               incoming.Some? && BreaksMatches(i, incoming.value, LiveAt(i, p)).Some?
    ensures e in EmissionsAt(i, p) <==> e.position == p && exists k :: Emits(i, k, e)
  {
    hide InputAdmitted, IncomingAmong, BreaksMatches, BreaksEmissions, SiblingEmissions, LiveAt, Stands, Untouched, Breaking, Diverging,
         SiblingClear, ProviderClear, Addable, Matching, Mismatched, SiblingEmission, Emits, InstanceOf;
    var action := i.review.actions[p];
    if action.action != Unpack {
      NothingEmitted(i, p, e);
      return;
    }
    var incoming := IncomingOf(i, action.archive).value;
    var live := LiveAt(i, p);
    MatchingMeans(i, p, incoming, live, e);
    SiblingFound(i, action, incoming.package, p, live, e);
    forall c
      ensures c in live <==> Untouched(i, p, c) && exists k :: Stands(i, k, c)
      ensures Matching(i, p, incoming, c, e) <==> e.position == p && e.target == InstanceOf(c) && Breaking(i, p, c, e.cause)
      ensures Mismatched(i, incoming.package, c) && e == SiblingEmission(action, p, c) <==>
              e.position == p && e.target == InstanceOf(c) && Diverging(i, p, c, e.cause)
    {
      LiveIs(i, p, c);
      EmissionBrings(i, p, incoming, c, e);
    }
    forall k, c | Stands(i, k, c)
      ensures k in i.checkpoint.state.packages && InstanceOf(c) == i.checkpoint.state.packages[k].package
    {
      HeldIs(i, k, c);
      HeldThere(i, k, c);
    }
    EmitsEither(i, p, incoming, live, e);
  }

  lemma HeldThere(i: Input, k: string, c: Package)
    requires Stands(i, k, c)
    ensures k in i.checkpoint.state.packages
  {
  }

  lemma NothingEmitted(i: Input, p: nat, e: Emission)
    requires p < |i.review.actions| && i.review.actions[p].action != Unpack
    ensures EmissionsAt(i, p) == [] && (e.position == p ==> forall k :: !Emits(i, k, e))
  {
    hide Agreeing, ValidQuery, ValidProbe, Stands, Untouched, Alternates;
  }

  lemma LiveIs(i: Input, p: nat, c: Package)
    requires InputAdmitted(i) && Ordered(i) && p <= |i.review.actions|
    ensures c in LiveAt(i, p) <==> Untouched(i, p, c) && exists k :: Stands(i, k, c)
  {
    hide InputAdmitted, CandidatesOf, LiveAmong, Untouched, Stands;
    LiveMeans(i, p, CandidatesOf(i), c);
    CandidatesMean(i, c);
  }

  lemma EmissionBrings(i: Input, p: nat, incoming: Incoming, c: Package, e: Emission)
    requires InputAdmitted(i) && Ordered(i) && p < |i.review.actions| && i.review.actions[p].action == Unpack
    requires IncomingOf(i, i.review.actions[p].archive) == Some(incoming)
    ensures Matching(i, p, incoming, c, e) <==> e.position == p && e.target == InstanceOf(c) && Breaking(i, p, c, e.cause)
    ensures Mismatched(i, incoming.package, c) && e == SiblingEmission(i.review.actions[p], p, c) <==>
            e.position == p && e.target == InstanceOf(c) && Diverging(i, p, c, e.cause)
  {
    hide InputAdmitted, IncomingAmong, Agreeing, ValidQuery, ValidProbe, VersionAsked, Asked, Alternates, Mismatched, Brings;
    forall source, breaks
      ensures Brings(i, p, source, breaks) <==> incoming == Incoming(source, breaks)
    {
      BringsMeans(i, p, source, breaks);
    }
    assert Brings(i, p, incoming.package, incoming.breaks);
    MismatchedMeans(i, incoming.package, c);
  }

  lemma EmitsEither(i: Input, p: nat, incoming: Incoming, live: seq<Package>, e: Emission)
    requires p < |i.review.actions|
    requires forall c :: c in live <==> Untouched(i, p, c) && exists k :: Stands(i, k, c)
    requires forall k, c :: Stands(i, k, c) ==> k in i.checkpoint.state.packages && InstanceOf(c) == i.checkpoint.state.packages[k].package
    ensures e.position == p && (exists k :: Emits(i, k, e)) <==>
            exists c :: c in live && e.position == p && e.target == InstanceOf(c) && (Breaking(i, p, c, e.cause) || Diverging(i, p, c, e.cause))
  {
    hide Untouched, Stands, Breaking, Diverging;
    if k :| e.position == p && Emits(i, k, e) {
      var c :| Stands(i, k, c) && Untouched(i, p, c) && (Breaking(i, p, c, e.cause) || Diverging(i, p, c, e.cause));
      assert c in live;
    }
    if c :| c in live && e.position == p && e.target == InstanceOf(c) && (Breaking(i, p, c, e.cause) || Diverging(i, p, c, e.cause)) {
      var k :| Stands(i, k, c);
      assert Emits(i, k, e);
    }
  }

  lemma UnpackEvaluated(i: Input, p: nat)
    requires p < |i.review.actions| && UnpackAdmitted(i, p) && i.review.actions[p].action == Unpack
    ensures IncomingOf(i, i.review.actions[p].archive).Some?
    ensures BreaksMatches(i, IncomingOf(i, i.review.actions[p].archive).value, LiveAt(i, p)).Some?
  {
    hide IncomingAmong, BreaksMatches, LiveAt, EmissionsAt, SiblingClear, ProviderClear, Addable;
  }

  lemma {:induction false} EmissionsMean(i: Input, n: nat, e: Emission)
    requires InputAdmitted(i) && Ordered(i) && n <= |i.review.actions|
    requires forall p :: 0 <= p < n ==> UnpackAdmitted(i, p)
    ensures e in EmissionsBefore(i, n) <==> e.position < n && exists k :: Emits(i, k, e)
  {
    hide InputAdmitted, Ordered, UnpackAdmitted, EmissionsAt, Emits, IncomingAmong, BreaksMatches, LiveAt;
    if n > 0 {
      EmissionsMean(i, n - 1, e);
      if i.review.actions[n - 1].action == Unpack { UnpackEvaluated(i, n - 1); }
      EmissionMeans(i, n - 1, e);
    }
  }

  lemma {:induction false} CauseFound(es: seq<Emission>, g: string, c: Cause)
    ensures c in CausesFor(es, g) <==> exists e :: e in es && Generation(e.target) == g && e.cause == c
  {
    hide Generation;
    if |es| > 0 {
      CauseFound(es[..|es| - 1], g, c);
      assert es == es[..|es| - 1] + [es[|es| - 1]];
    }
  }

  // ---------------------------------------------------------------------------------------------
  // Who gets an allowance

  ghost function Label(p: Instance): string {
    p.package + ":" + p.architecture + "@" + p.version
  }

  /** The row carries this label, and the `p`-th action takes its configuration for this cause. */
  ghost predicate Loses(i: Input, g: string, p: nat, k: string, cause: Cause) {
    && p < |i.review.actions| && k in i.checkpoint.state.packages
    && Label(i.checkpoint.state.packages[k].package) == g && Deconfigures(i, p, k, cause)
  }

  lemma LabelMeans(p: Instance)
    ensures Generation(p) == Label(p)
  {
  }

  lemma LosesMeans(i: Input, g: string, cause: Cause)
    requires CausesAdmitted(i) && Ordered(i)
    ensures (exists e :: e in EmissionsOf(i) && Generation(e.target) == g && e.cause == cause) <==> exists p, k :: Loses(i, g, p, k, cause)
  {
    hide InputAdmitted, Ordered, UnpackAdmitted, FutureClear, EmissionsBefore, Deconfigures, Generation, Label, ArchivesUsed;
    forall p
      ensures Generation(p) == Label(p)
    {
      LabelMeans(p);
    }
    if e :| e in EmissionsOf(i) && Generation(e.target) == g && e.cause == cause {
      EmissionsMean(i, |i.review.actions|, e);
      var k :| Emits(i, k, e);
      assert Loses(i, g, e.position, k, cause);
    }
    if p, k :| Loses(i, g, p, k, cause) {
      var e := Emission(i.checkpoint.state.packages[k].package, cause, p);
      assert Emits(i, k, e);
      EmissionsMean(i, |i.review.actions|, e);
    }
  }

  /**
   * A label has an allowance exactly when an unpack takes the configuration of the running package
   * that carries it, and the allowance holds exactly the causes of all such unpacks.
   */
  lemma AllowancesMean(i: Input, allowances: map<string, Allowance>)
    requires Derivable(i) && Ordered(i) && Collected(i, EmissionsOf(i), allowances)
    ensures forall g :: g in allowances <==> exists p, k, cause :: Loses(i, g, p, k, cause)
    ensures forall g, cause :: g in allowances ==>
              (cause in allowances[g].causes <==> exists p, k :: Loses(i, g, p, k, cause))
  {
    hide CausesAdmitted, Ordered, EmissionsOf, Endable, CausesFor, Loses, Generation, Begins;
    var es := EmissionsOf(i);
    forall g, cause
      ensures cause in CausesFor(es, g) <==> exists p, k :: Loses(i, g, p, k, cause)
    {
      CauseFound(es, g, cause);
      LosesMeans(i, g, cause);
    }
    forall g
      ensures g in allowances <==> exists p, k, cause :: Loses(i, g, p, k, cause)
    {
      NamedFound(es, g);
      if p, k, cause :| Loses(i, g, p, k, cause) {
        CauseFound(es, g, cause);
      }
      if g in allowances {
        var e :| e in es && Generation(e.target) == g;
        CauseFound(es, g, e.cause);
      }
    }
  }

  lemma NamedFound(es: seq<Emission>, g: string)
    ensures DeconfigurationEffects.Named(es, g) <==> exists e :: e in es && Generation(e.target) == g
  {
    hide Generation;
    if DeconfigurationEffects.Named(es, g) {
      var k :| 0 <= k < |es| && Generation(es[k].target) == g;
      assert es[k] in es;
    }
  }

  /** Rows in any other status, in the installed state or on disk, and rows to reinstall, never lose their configuration. */
  ghost predicate Losable(i: Input, k: string)
    requires k in i.checkpoint.state.packages
  {
    && Running(i.checkpoint.state.packages[k].status) && !i.checkpoint.state.packages[k].reinstallRequired
    && k in i.checkpoint.metadata && Running(i.checkpoint.metadata[k].diskStatus)
  }

  lemma {:induction false} TargetsAddable(i: Input, n: nat, e: Emission)
    requires n <= |i.review.actions| && e in EmissionsBefore(i, n)
    requires forall p :: 0 <= p < n ==> UnpackAdmitted(i, p)
    ensures e.position <= |i.review.actions| && Addable(i, e.target, e.position)
  {
    hide EmissionsAt, Addable, UnpackAdmitted;
    if e in EmissionsBefore(i, n - 1) {
      TargetsAddable(i, n - 1, e);
    } else {
      EmissionAddable(i, n - 1, e);
    }
  }

  lemma EmissionAddable(i: Input, p: nat, e: Emission)
    requires p < |i.review.actions| && UnpackAdmitted(i, p) && e in EmissionsAt(i, p)
    ensures e.position == p && Addable(i, e.target, p)
  {
    hide Addable, IncomingAmong, BreaksMatches, LiveAt, SiblingClear, ProviderClear, BreaksEmissions, SiblingEmissions;
    EmissionsFrom(i, p);
    if i.review.actions[p].action != Unpack { NothingEmitted(i, p, e); }
  }

  /** A row that loses its configuration is the only one with its label. */
  lemma LabelsTellRows(i: Input, k: string, l: string)
    requires InputAdmitted(i) && k in i.checkpoint.state.packages && l in i.checkpoint.state.packages
    requires i.checkpoint.state.packages[k].package.version != ""
    requires Label(i.checkpoint.state.packages[k].package) == Label(i.checkpoint.state.packages[l].package)
    ensures k == l
  {
    hide Understood, ArchivesDistinct, ActionsAdmitted, RecordsAdmitted, Version, Name, ConcreteArchitecture;
    var p, q := i.checkpoint.state.packages[k].package, i.checkpoint.state.packages[l].package;
    assert Keyed(i.checkpoint.state.packages) by { IdentityKeyed(i); }
    assert RowAdmitted(i, k) && RowAdmitted(i, l);
    UnderstoodValid(i, i.checkpoint.metadata[k].controls, p);
    if q.version != "" {
      UnderstoodValid(i, i.checkpoint.metadata[l].controls, q);
      LabelMeans(p);
      LabelMeans(q);
      GenerationInjective(p, q);
    } else {
      LabelEnds(p);
      LabelEnds(q);
    }
  }

  lemma IdentityKeyed(i: Input)
    requires Admitted(i)
    ensures Keyed(i.checkpoint.state.packages)
  {
  }

  lemma LabelEnds(p: Instance)
    requires p.version == "" || Version(p.version)
    ensures Label(p)[|Label(p)| - 1] == '@' <==> p.version == ""
  {
  }

  lemma OnlyRunning(i: Input, allowances: map<string, Allowance>, k: string)
    requires Derivable(i) && Ordered(i) && Collected(i, EmissionsOf(i), allowances)
    requires k in i.checkpoint.state.packages && Label(i.checkpoint.state.packages[k].package) in allowances
    ensures Losable(i, k)
    ensures var a := allowances[Label(i.checkpoint.state.packages[k].package)];
            var row, kept := i.checkpoint.state.packages[k], i.checkpoint.metadata[k];
            && a.installed == row.package && a.selection == row.selection && a.initialStatus == row.status
            && a.diskStatus == kept.diskStatus && a.configVersion == kept.configVersion
            && a.installedControlIdentity == kept.evidenceIdentity
  {
    hide InputAdmitted, Ordered, UnpackAdmitted, FutureClear, EmissionsBefore, ArchivesUsed, Label, Generation, CausesFor, Endable;
    var es := EmissionsOf(i);
    var g := Label(i.checkpoint.state.packages[k].package);
    NamedFound(es, g);
    var e :| e in es && Generation(e.target) == g;
    var m :| 0 <= m < |es| && es[m] == e;
    assert Begins(i, e.target, allowances[g]);
    EmissionsMean(i, |i.review.actions|, e);
    var l :| Emits(i, l, e);
    LabelMeans(e.target);
    TargetsAddable(i, |i.review.actions|, e);
    RowsAgree(i, e, l, k);
  }

  lemma RowsAgree(i: Input, e: Emission, l: string, k: string)
    requires InputAdmitted(i) && Emits(i, l, e) && k in i.checkpoint.state.packages
    requires Addable(i, e.target, e.position)
    requires Label(i.checkpoint.state.packages[k].package) == Label(e.target)
    ensures k == l && k == Key(e.target) && e.target == i.checkpoint.state.packages[k].package && Losable(i, k)
  {
    hide InputAdmitted, Label, Untouched, Breaking, Diverging, Key;
    var c :| Stands(i, l, c);
    LabelsTellRows(i, l, k);
    LabelsTellRows(i, l, Key(e.target));
  }
}
