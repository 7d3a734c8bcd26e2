/**
 * When allowances can be derived at all, and how each of them ends: every check on the review, the
 * index records, the installed rows and each unpack, written out apart from the builder.
 */
module DerivationMeaning {
  import opened Text
  import opened Characters
  import opened Packages
  import opened BinaryRelationships
  import opened RelationshipCanonical
  import opened RelationshipMatching
  import opened RelationshipWitnesses
  import opened DpkgState
  import opened Reviews
  import opened DeconfigurationEffects
  import opened DeconfigurationBuilder
  import opened MatchingMeaning
  import opened DeconfigurationMeaning
  import StateMeaning
  import AdmissionMeaning

  // ---------------------------------------------------------------------------------------------
  // The input

  ghost predicate Token(s: string) {
    1 <= |s| <= 512 && Written(s, LOWERCASE + UPPERCASE + DECIMALS + "-._:/+@=")
  }

  ghost function Slotted(p: Instance): string {
    p.package + ":" + p.architecture
  }

  /** Sizes, identities and the binding of the review to the installed state. */
  ghost predicate Bounded(i: Input) {
    && 1 <= |i.review.actions| <= 4096 && |i.review.archives| <= 4096 && |i.records| == |i.review.archives|
    && |i.checkpoint.state.packages| <= 4096 && i.sized && i.review.bound
    && Hexadecimal(i.checkpoint.identity) && i.checkpoint.identity == i.hash(i.checkpoint)
    && i.review.stateIdentity == i.checkpoint.state.identity
    && forall k :: k in i.checkpoint.state.packages ==> k == Slotted(i.checkpoint.state.packages[k].package)
  }

  ghost predicate ArchivesTold(archives: seq<Archive>) {
    && (forall a :: a in archives ==> Token(a.identifier))
    && (forall a, b :: 0 <= a < b < |archives| ==> archives[a].identifier != archives[b].identifier)
  }

  ghost predicate Primary(review: Review, a: ReviewedAction) {
    && a.identifier > 0 && Name(a.package.package) && Version(a.package.version) && ConcreteArchitecture(a.package.architecture)
    && match a.action
       case Unpack => exists x :: x in review.archives && x.identifier == a.archive && x.package == a.package
       case Configure => a.archive == ""
       case Remove => a.archive == ""
       case Purge => a.archive == ""
       case Triggers => false
       case Deconfigure => false
  }

  ghost predicate ActionsTold(review: Review) {
    && (forall a :: a in review.actions ==> Primary(review, a))
    && (forall p, q :: 0 <= p < q < |review.actions| ==> review.actions[p].identifier != review.actions[q].identifier)
  }

  /** The field parses, and no alternative asks for `:native`. */
  ghost predicate Parses(c: Controls, kind: Kind, name: string) {
    && FieldOf(kind, At(c, name)).Ok?
    && var groups := FieldOf(kind, At(c, name)).value.groups;
       forall g, a :: 0 <= g < |groups| && 0 <= a < |groups[g]| ==> !groups[g][a].qualifier.Native?
  }

  ghost predicate Legible(i: Input, c: Controls, p: Instance) {
    && i.canonical(c) && ReadAs(c, p).Ok?
    && Parses(c, Depends, "depends") && Parses(c, PreDepends, "pre-depends") && Parses(c, Breaks, "breaks")
    && Parses(c, Conflicts, "conflicts") && Parses(c, Replaces, "replaces")
  }

  ghost predicate RecordsTold(i: Input) {
    && (forall r :: r in i.records ==> r.archive in i.review.archives && Hexadecimal(r.evidenceIdentity) && Legible(i, r.controls, r.archive.package))
    && (forall r, s :: 0 <= r < s < |i.records| ==> i.records[r].archive.identifier != i.records[s].archive.identifier)
  }

  ghost predicate RowTold(i: Input, k: string)
    requires k in i.checkpoint.state.packages
  {
    var row := i.checkpoint.state.packages[k];
    row.package.version != "" ==>
      && k in i.checkpoint.metadata && i.checkpoint.metadata[k].package == row.package
      && Hexadecimal(i.checkpoint.metadata[k].evidenceIdentity) && Legible(i, i.checkpoint.metadata[k].controls, row.package)
  }

  ghost predicate InputTold(i: Input) {
    && Bounded(i) && ArchivesTold(i.review.archives) && ActionsTold(i.review) && RecordsTold(i)
    && forall k :: k in i.checkpoint.state.packages ==> RowTold(i, k)
  }

  lemma BoundedMeans(i: Input)
    ensures Admitted(i) <==> Bounded(i)
  {
    AdmissionMeaning.DigestMeans(i.checkpoint.identity);
    AdmissionMeaning.DigestMeans("");
  }

  lemma ArchivesMean(archives: seq<Archive>)
    ensures ArchivesDistinct(archives) <==> ArchivesTold(archives)
  {
    hide IdentityToken, Token;
    forall s
      ensures IdentityToken(s) <==> Token(s)
    {
      TokenMeans(s);
    }
    if ArchivesTold(archives) {
      forall a | 0 <= a < |archives|
        ensures IdentityToken(archives[a].identifier)
      {
        assert archives[a] in archives;
      }
    }
  }

  lemma TokenMeans(s: string)
    ensures IdentityToken(s) <==> Token(s)
  {
    StateMeaning.IdentityMeans(s);
  }

  lemma PrimaryMeans(review: Review, a: ReviewedAction)
    ensures PrimaryAction(review, a) <==> Primary(review, a)
  {
    hide Name, Version, ConcreteArchitecture;
    match a.action {
      case Unpack =>
      case Configure =>
      case Remove =>
      case Purge =>
      case Triggers =>
      case Deconfigure =>
    }
  }

  lemma ActionsMean(review: Review)
    ensures ActionsAdmitted(review) <==> ActionsTold(review)
  {
    hide PrimaryAction, Primary;
    forall p | 0 <= p < |review.actions|
      ensures PrimaryAction(review, review.actions[p]) <==> Primary(review, review.actions[p])
    {
      PrimaryMeans(review, review.actions[p]);
    }
    if ActionsTold(review) {
      forall p | 0 <= p < |review.actions|
        ensures PrimaryAction(review, review.actions[p])
      {
        assert review.actions[p] in review.actions;
      }
    }
  }

  lemma LegibleMeans(i: Input, c: Controls, p: Instance)
    ensures Understood(i, c, p).Some? <==> Legible(i, c, p)
  {
    hide FieldOf, PackageOf, ReadAs, Parses;
    ParsesMeans(c, Depends);
    ParsesMeans(c, PreDepends);
    ParsesMeans(c, Breaks);
    ParsesMeans(c, Conflicts);
    ParsesMeans(c, Replaces);
    assert ReadAs(c, p) == PackageOf(p.package, p.version, p.architecture, At(c, "multi-arch"), At(c, FieldName(Provides))) by {
      ParsedMeans(c, p);
    }
  }

  lemma ParsedMeans(c: Controls, p: Instance)
    ensures ReadAs(c, p) == PackageOf(p.package, p.version, p.architecture, At(c, "multi-arch"), At(c, FieldName(Provides)))
  {
    hide PackageOf;
  }

  lemma ParsesMeans(c: Controls, kind: Kind)
    ensures Usable(c, kind) <==> Parses(c, kind, FieldName(kind))
  {
    hide FieldOf;
  }

  lemma RecordsMean(i: Input)
    ensures RecordsAdmitted(i) <==> RecordsTold(i)
  {
    hide Understood, Legible, Digest, Hexadecimal;
    forall r | r in i.records
      ensures RecordAdmitted(i, r) <==>
              r.archive in i.review.archives && Hexadecimal(r.evidenceIdentity) && Legible(i, r.controls, r.archive.package)
    {
      LegibleMeans(i, r.controls, r.archive.package);
      HexMeans(r.evidenceIdentity);
    }
    if RecordsTold(i) {
      forall r | 0 <= r < |i.records|
        ensures RecordAdmitted(i, i.records[r])
      {
        assert i.records[r] in i.records;
      }
    }
  }

  lemma HexMeans(s: string)
    ensures Digest(s) <==> Hexadecimal(s)
  {
    AdmissionMeaning.DigestMeans(s);
  }

  lemma RowMeans(i: Input, k: string)
    requires k in i.checkpoint.state.packages
    ensures RowAdmitted(i, k) <==> RowTold(i, k)
  {
    hide Understood, Legible, Digest, Hexadecimal;
    if k in i.checkpoint.metadata {
      LegibleMeans(i, i.checkpoint.metadata[k].controls, i.checkpoint.state.packages[k].package);
      HexMeans(i.checkpoint.metadata[k].evidenceIdentity);
    }
  }

  lemma InputMeans(i: Input)
    ensures InputAdmitted(i) <==> InputTold(i)
  {
    hide Admitted, Bounded, ArchivesDistinct, ArchivesTold, ActionsAdmitted, ActionsTold, RecordsAdmitted, RecordsTold, RowAdmitted, RowTold;
    BoundedMeans(i);
    ArchivesMean(i.review.archives);
    ActionsMean(i.review);
    RecordsMean(i);
    forall k | k in i.checkpoint.state.packages
      ensures RowAdmitted(i, k) <==> RowTold(i, k)
    {
      RowMeans(i, k);
    }
  }

  // ---------------------------------------------------------------------------------------------
  // One unpack

  /** No tuple that looks at a Provides shares its group with another one that agrees. */
  ghost predicate ProvidersAlone(q: Query)
    requires ValidQuery(q)
  {
    forall s, t ::
      (ValidProbe(q, s) && ValidProbe(q, t) && s.group == t.group && s.provide.Provided? && Agreeing(q, s) && Agreeing(q, t)) ==> s == t
  }

  ghost predicate Beside(i: Input, source: Package, c: Package) {
    c.name == source.name && c.architecture != source.architecture && !Alternates(i, source, c)
  }

  /** Two packages that may stay beside each other, with versions the comparator can order. */
  ghost predicate Coinstallable(i: Input, source: Package, c: Package) {
    && c.multiArch.Same? && source.multiArch.Same?
    && i.compare.Some? && i.compare.value(c.version, source.version).Compared?
  }

  /** No action before `p` unpacks onto the slot. */
  ghost predicate Unreplaced(i: Input, p: nat, k: string)
    requires p <= |i.review.actions|
  {
    forall b :: 0 <= b < p ==> !(i.review.actions[b].action.Unpack? && Slotted(i.review.actions[b].package) == k)
  }

  /** The unpack can be evaluated, and whatever it takes the configuration of can lose it. */
  ghost predicate UnpackTold(i: Input, p: nat, source: Package, breaks: Field)
    requires p < |i.review.actions|
  {
    var q := Query(breaks, source, LiveAt(i, p), i.checkpoint.state.native, UnpackChecks, i.compare);
    && ValidQuery(q) && EvaluationOf(q).Ok? && ProvidersAlone(q)
    && (forall k, c :: Stands(i, k, c) && Untouched(i, p, c) && Beside(i, source, c) ==> Coinstallable(i, source, c))
    && (forall k, cause :: Deconfigures(i, p, k, cause) ==> k in i.checkpoint.state.packages && Losable(i, k) && Unreplaced(i, p, k))
  }

  lemma ProviderMeans(q: Query)
    requires ValidQuery(q) && EvaluationOf(q).Ok?
    ensures AllClear(EvaluationOf(q).value.groups) <==> ProvidersAlone(q)
  {
    hide ValidQuery, EvaluationOf, Agreeing, ProviderClear;
    EvaluationMeans(q);
    EvaluateExact(q);
    var groups := EvaluationOf(q).value.groups;
    if ProvidersAlone(q) {
      forall g | 0 <= g < |groups|
        ensures ProviderClear(groups[g])
      {
        assert ReportsExactly(q, g, groups[g]) && Exactly(q, g, groups[g]);
        GroupAlone(q, g, groups[g]);
      }
    }
    if AllClear(groups) {
      forall s, t | ValidProbe(q, s) && ValidProbe(q, t) && s.group == t.group && s.provide.Provided? && Agreeing(q, s) && Agreeing(q, t)
        ensures s == t
      {
        assert ProviderClear(groups[s.group]) && ReportsExactly(q, s.group, groups[s.group]);
        ReportedAlone(q, s.group, groups[s.group], s, t);
      }
    }
  }

  lemma GroupAlone(q: Query, g: nat, ws: seq<Witness>)
    requires ValidQuery(q) && ReportsExactly(q, g, ws) && Exactly(q, g, ws) && ProvidersAlone(q)
    ensures ProviderClear(ws)
  {
    hide ValidQuery, Agreeing, ProbeVerdict;
    if k :| 0 <= k < |ws| && ws[k].provide.Provided? {
      assert Place(ws[k]).provide.Provided?;
      var j := if k == 0 then |ws| - 1 else 0;
      PlacesApart(q, g, ws, j, k);
      assert Place(ws[j]) == Place(ws[k]);
    }
  }

  lemma PlacesApart(q: Query, g: nat, ws: seq<Witness>, j: nat, k: nat)
    requires ValidQuery(q) && Exactly(q, g, ws) && j < |ws| && k < |ws|
    ensures Place(ws[j]) == Place(ws[k]) ==> j == k
  {
    hide ValidQuery, ProbeVerdict;
  }

  lemma ReportedAlone(q: Query, g: nat, ws: seq<Witness>, s: Probe, t: Probe)
    requires ValidQuery(q) && ReportsExactly(q, g, ws) && ProviderClear(ws)
    requires ValidProbe(q, s) && ValidProbe(q, t) && s.group == g && t.group == g && s.provide.Provided? && Agreeing(q, s) && Agreeing(q, t)
    ensures s == t
  {
    hide ValidQuery, Agreeing;
    var j :| 0 <= j < |ws| && Place(ws[j]) == s;
    var k :| 0 <= k < |ws| && Place(ws[k]) == t;
    assert ws[j].provide.Provided?;
  }

  lemma SiblingMeans(i: Input, source: Package, c: Package)
    requires Ordered(i)
    ensures SiblingClear(i, source, c) <==> (Beside(i, source, c) ==> Coinstallable(i, source, c))
    ensures SiblingClear(i, source, c) && !Mismatched(i, source, c) <==>
            (Beside(i, source, c) ==> Coinstallable(i, source, c) && i.compare.value(c.version, source.version).ordering == 0)
  {
    hide Alternates, SingleReplacement;
    AlternatesMeans(i, source, c);
  }

  lemma LosableMeans(i: Input, k: string, p: nat)
    requires InputAdmitted(i) && p <= |i.review.actions| && k in i.checkpoint.state.packages
    ensures Addable(i, i.checkpoint.state.packages[k].package, p) <==> Losable(i, k) && Unreplaced(i, p, k)
  {
    hide ArchivesDistinct, ActionsAdmitted, RecordsAdmitted, RowsAdmitted;
    IdentityKeyed(i);
  }

  lemma LiveSiblings(i: Input, p: nat, source: Package)
    requires InputAdmitted(i) && Ordered(i) && p <= |i.review.actions|
    ensures (forall n :: 0 <= n < |LiveAt(i, p)| ==> SiblingClear(i, source, LiveAt(i, p)[n])) <==>
            forall k, c :: Stands(i, k, c) && Untouched(i, p, c) && Beside(i, source, c) ==> Coinstallable(i, source, c)
  {
    hide InputAdmitted, Ordered, LiveAt, Stands, Untouched, Beside, Coinstallable, SiblingClear;
    var live := LiveAt(i, p);
    forall c
      ensures c in live <==> Untouched(i, p, c) && exists k :: Stands(i, k, c)
      ensures SiblingClear(i, source, c) <==> (Beside(i, source, c) ==> Coinstallable(i, source, c))
    {
      LiveIs(i, p, c);
      SiblingMeans(i, source, c);
    }
    assert (forall n :: 0 <= n < |live| ==> SiblingClear(i, source, live[n])) <==> forall c :: c in live ==> SiblingClear(i, source, c);
  }

  lemma TargetsMean(i: Input, p: nat)
    requires InputAdmitted(i) && Ordered(i) && p < |i.review.actions| && i.review.actions[p].action == Unpack
    requires IncomingOf(i, i.review.actions[p].archive).Some?
    requires BreaksMatches(i, IncomingOf(i, i.review.actions[p].archive).value, LiveAt(i, p)).Some?
    ensures (forall e :: 0 <= e < |EmissionsAt(i, p)| ==> Addable(i, EmissionsAt(i, p)[e].target, p)) <==>
            forall k, cause :: Deconfigures(i, p, k, cause) ==> k in i.checkpoint.state.packages && Losable(i, k) && Unreplaced(i, p, k)
  {
    hide InputAdmitted, Ordered, EmissionsAt, Addable, Deconfigures, Losable, Unreplaced, IncomingAmong, BreaksMatches, LiveAt;
    var es := EmissionsAt(i, p);
    forall e
      ensures e in es <==> e.position == p && exists k :: Emits(i, k, e)
    {
      EmissionMeans(i, p, e);
    }
    forall k, cause | Deconfigures(i, p, k, cause)
      ensures k in i.checkpoint.state.packages
      ensures Addable(i, i.checkpoint.state.packages[k].package, p) <==> Losable(i, k) && Unreplaced(i, p, k)
      ensures Emission(i.checkpoint.state.packages[k].package, cause, p) in es
    {
      DeconfiguredThere(i, p, k, cause);
      LosableMeans(i, k, p);
      assert Emits(i, k, Emission(i.checkpoint.state.packages[k].package, cause, p));
    }
    assert (forall e :: 0 <= e < |es| ==> Addable(i, es[e].target, p)) <==> forall e :: e in es ==> Addable(i, e.target, p);
    if forall k, cause :: Deconfigures(i, p, k, cause) ==> k in i.checkpoint.state.packages && Losable(i, k) && Unreplaced(i, p, k) {
      forall e | e in es
        ensures Addable(i, e.target, p)
      {
        var k :| Emits(i, k, e);
        assert Deconfigures(i, p, k, e.cause);
      }
    }
  }

  lemma DeconfiguredThere(i: Input, p: nat, k: string, cause: Cause)
    requires p < |i.review.actions| && Deconfigures(i, p, k, cause)
    ensures k in i.checkpoint.state.packages
  {
    hide Untouched, Breaking, Diverging;
  }

  lemma UnpackMeans(i: Input, p: nat)
    requires InputAdmitted(i) && Ordered(i) && p < |i.review.actions|
    ensures UnpackAdmitted(i, p) <==>
            (i.review.actions[p].action == Unpack ==> forall source, breaks :: Brings(i, p, source, breaks) ==> UnpackTold(i, p, source, breaks))
  {
    hide InputAdmitted, IncomingAmong, Ordered, EvaluationOf, ValidQuery, ProvidersAlone, Stands, Untouched, Beside, Coinstallable,
         Deconfigures, Losable, Unreplaced, EmissionsAt, LiveAt, SiblingClear, ProviderClear, Addable, Brings;
    var action := i.review.actions[p];
    if action.action == Unpack {
      UnpackHasRecord(i, p);
      var incoming := IncomingOf(i, action.archive).value;
      forall source, breaks
        ensures Brings(i, p, source, breaks) <==> incoming == Incoming(source, breaks)
      {
        BringsMeans(i, p, source, breaks);
      }
      var q := QueryAt(i, incoming, LiveAt(i, p));
      if ValidQuery(q) && EvaluationOf(q).Ok? {
        ProviderMeans(q);
        LiveSiblings(i, p, incoming.package);
        TargetsMean(i, p);
      }
    }
  }

  // ---------------------------------------------------------------------------------------------
  // Packages the run itself configures

  /** The `u`-th action is the last one before `p` that unpacks onto the slot. */
  ghost predicate UnpackedBefore(actions: seq<ReviewedAction>, p: nat, k: string, u: nat)
    requires p <= |actions|
  {
    && u < p && actions[u].action.Unpack? && Slotted(actions[u].package) == k
    && forall b :: u < b < p ==> !(actions[b].action.Unpack? && Slotted(actions[b].package) == k)
  }

  ghost predicate NoUnpack(actions: seq<ReviewedAction>, p: nat, k: string)
    requires p <= |actions|
  {
    forall b :: 0 <= b < p ==> !(actions[b].action.Unpack? && Slotted(actions[b].package) == k)
  }

  lemma LastUnpackMeans(actions: seq<ReviewedAction>, p: nat, k: string)
    requires p <= |actions|
    ensures forall u: nat :: UnpackedBefore(actions, p, k, u) <==> u < p && u == LastUnpack(actions, p, k)
    ensures NoUnpack(actions, p, k) <==> LastUnpack(actions, p, k) == p
  {
    LastUnpackLast(actions, p, k);
    forall b | 0 <= b < p
      ensures Unpacks(actions[b], k) <==> actions[b].action.Unpack? && Slotted(actions[b].package) == k
    {
    }
    hide LastUnpack, Slotted, Unpacks;
    var last := LastUnpack(actions, p, k);
    if last < p { assert Unpacks(actions[last], k); }
  }

  /** The row holds the package, configured or not. */
  ghost predicate There(i: Input, k: string, c: Package) {
    && k in i.checkpoint.state.packages && k in i.checkpoint.metadata && i.checkpoint.state.packages[k].package.version != ""
    && ReadAs(i.checkpoint.metadata[k].controls, i.checkpoint.state.packages[k].package) == Ok(c)
  }

  /** The `q`-th action configures on its slot what was unpacked there before, or else what is installed there. */
  ghost predicate Configures(i: Input, q: nat, c: Package)
    requires q < |i.review.actions|
  {
    var a, k := i.review.actions[q], Slotted(i.review.actions[q].package);
    && a.action.Configure?
    && (|| (exists u: nat, breaks :: UnpackedBefore(i.review.actions, q, k, u) && i.review.actions[u].package == a.package
                                     && Brings(i, u, c, breaks))
        || (NoUnpack(i.review.actions, q, k) && There(i, k, c) && c.version == a.package.version))
  }

  ghost predicate Clears(a: ReviewedAction, k: string) {
    Slotted(a.package) == k && (a.action.Unpack? || a.action.Remove? || a.action.Purge?)
  }

  /** The last action before `p` that decides about the slot configures the package. */
  ghost predicate Rises(i: Input, p: nat, k: string, c: Package)
    requires p <= |i.review.actions|
  {
    exists q :: 0 <= q < p && Slotted(i.review.actions[q].package) == k && Configures(i, q, c) && Undecided(i, q, p, k)
  }

  ghost predicate Undecided(i: Input, q: nat, p: nat, k: string)
    requires q < p <= |i.review.actions|
  {
    forall b :: q < b < p ==>
      !Clears(i.review.actions[b], k) && !(Slotted(i.review.actions[b].package) == k && exists c :: Configures(i, b, c))
  }

  lemma ThereMeans(i: Input, k: string, c: Package)
    requires InputAdmitted(i)
    ensures There(i, k, c) <==> InstalledPackage(i, k) == Some(c)
  {
    hide Understood, PackageOf, ArchivesDistinct, ActionsAdmitted, RecordsAdmitted, Admitted, ReadAs;
    if k in i.checkpoint.state.packages {
      assert RowAdmitted(i, k);
      if i.checkpoint.state.packages[k].package.version != "" {
        UnderstoodMeans(i, i.checkpoint.metadata[k].controls, i.checkpoint.state.packages[k].package);
      }
    }
  }

  /** What a Configure brings up, as the builder finds it. */
  ghost function Found(i: Input, q: nat): Option<Package>
    requires q < |i.review.actions|
  {
    var a, k := i.review.actions[q], Key(i.review.actions[q].package);
    var u := LastUnpack(i.review.actions, q, k);
    if a.action != Configure then None
    else if u < q then
      var incoming := IncomingOf(i, i.review.actions[u].archive);
      if i.review.actions[u].package == a.package && incoming.Some? then Some(incoming.value.package) else None
    else
      var installed := InstalledPackage(i, k);
      if installed.Some? && installed.value.version == a.package.version then installed else None
  }

  lemma FoundMeans(i: Input, q: nat, c: Package)
    requires InputAdmitted(i) && q < |i.review.actions|
    ensures Configures(i, q, c) <==> Found(i, q) == Some(c)
  {
    hide InputAdmitted, IncomingAmong, InstalledPackage, LastUnpack, UnpackedBefore, NoUnpack, There, Brings;
    var actions, k := i.review.actions, Slotted(i.review.actions[q].package);
    LastUnpackMeans(actions, q, k);
    ThereMeans(i, k, c);
    var u := LastUnpack(actions, q, k);
    if u < q {
      UnpackHasRecord(i, u);
      forall breaks
        ensures Brings(i, u, c, breaks) <==> IncomingOf(i, actions[u].archive) == Some(Incoming(c, breaks))
      {
        BringsMeans(i, u, c, breaks);
      }
    }
  }

  lemma FutureStep(i: Input, q: nat)
    requires q < |i.review.actions|
    ensures var a, k := i.review.actions[q], Key(i.review.actions[q].package);
            FutureAt(i, q + 1) ==
              if a.action == Unpack || a.action == Remove || a.action == ActionKind.Purge then FutureAt(i, q) - {k}
              else if Found(i, q).Some? then FutureAt(i, q)[k := Found(i, q).value]
              else FutureAt(i, q)
  {
    hide IncomingAmong, InstalledPackage, LastUnpack, Key;
  }

  lemma {:induction false} RisesMeans(i: Input, p: nat, k: string, c: Package)
    requires InputAdmitted(i) && p <= |i.review.actions|
    ensures k in FutureAt(i, p) && FutureAt(i, p)[k] == c <==> Rises(i, p, k, c)
  {
    hide InputAdmitted, FutureAt, Found, Configures, Slotted, Key, Rises, Undecided;
    if p == 0 {
      FutureNone(i);
      RisesNone(i, k, c);
    } else {
      RisesMeans(i, p - 1, k, c);
      FutureStep(i, p - 1);
      SlottedMeans(i.review.actions[p - 1].package);
      FoundMeans(i, p - 1, c);
      FoundExists(i, p - 1);
      RisesStep(i, p - 1, k, c);
      if Found(i, p - 1).Some? { ConfiguresOnly(i, p - 1, Found(i, p - 1).value); }
    }
  }

  lemma RisesNone(i: Input, k: string, c: Package)
    ensures !Rises(i, 0, k, c)
  {
  }

  lemma FoundExists(i: Input, q: nat)
    requires InputAdmitted(i) && q < |i.review.actions|
    ensures (exists c :: Configures(i, q, c)) <==> Found(i, q).Some?
    ensures Found(i, q).Some? ==> Configures(i, q, Found(i, q).value)
  {
    hide InputAdmitted, Configures, Found;
    if c :| Configures(i, q, c) { FoundMeans(i, q, c); }
    if Found(i, q).Some? { FoundMeans(i, q, Found(i, q).value); }
  }

  lemma SlottedMeans(p: Instance)
    ensures Slotted(p) == Key(p)
  {
  }

  lemma ConfiguresOnly(i: Input, q: nat, c: Package)
    requires q < |i.review.actions| && Configures(i, q, c)
    ensures i.review.actions[q].action == Configure
  {
  }

  /** One more action either decides about the slot itself or leaves what was decided. */
  lemma RisesStep(i: Input, p: nat, k: string, c: Package)
    requires p < |i.review.actions|
    ensures var a := i.review.actions[p];
            var decides := Clears(a, k) || (Slotted(a.package) == k && exists d :: Configures(i, p, d));
            Rises(i, p + 1, k, c) <==> if decides then Slotted(a.package) == k && Configures(i, p, c) else Rises(i, p, k, c)
  {
    hide Configures, Clears, Slotted;
    var a := i.review.actions[p];
    var decides := Clears(a, k) || (Slotted(a.package) == k && exists d :: Configures(i, p, d));
    if Slotted(a.package) == k && Configures(i, p, c) {
      assert Undecided(i, p, p + 1, k);
      assert Rises(i, p + 1, k, c);
    }
    if !decides && Rises(i, p, k, c) {
      var q :| 0 <= q < p && Slotted(i.review.actions[q].package) == k && Configures(i, q, c) && Undecided(i, q, p, k);
      assert Undecided(i, q, p + 1, k);
    }
    if Rises(i, p + 1, k, c) {
      var q :| 0 <= q < p + 1 && Slotted(i.review.actions[q].package) == k && Configures(i, q, c) && Undecided(i, q, p + 1, k);
      if q < p {
        assert !decides && Undecided(i, q, p, k);
      }
    }
  }

  ghost predicate FutureTold(i: Input, p: nat, source: Package, breaks: Field)
    requires p < |i.review.actions|
  {
    var q := Query(breaks, source, ValuesAmong(i.order, FutureAt(i, p)), i.checkpoint.state.native, UnpackChecks, i.compare);
    && ValidQuery(q) && EvaluationOf(q).Ok? && (forall t :: ValidProbe(q, t) ==> !Agreeing(q, t))
    && forall k, c :: Rises(i, p, k, c) && Beside(i, source, c) ==>
         Coinstallable(i, source, c) && i.compare.value(c.version, source.version).ordering == 0
  }

  lemma NoneAgrees(q: Query)
    requires ValidQuery(q) && EvaluationOf(q).Ok?
    ensures !AnyMatched(EvaluationOf(q).value.groups) <==> forall t :: ValidProbe(q, t) ==> !Agreeing(q, t)
  {
    hide ValidQuery, EvaluationOf, Agreeing;
    EvaluationMeans(q);
    var groups := EvaluationOf(q).value.groups;
    if g :| 0 <= g < |groups| && |groups[g]| > 0 {
      assert ReportsExactly(q, g, groups[g]);
      assert Agreeing(q, Place(groups[g][0]));
    }
    if t :| ValidProbe(q, t) && Agreeing(q, t) {
      assert ReportsExactly(q, t.group, groups[t.group]);
    }
  }

  lemma {:induction false} ValueFound(order: seq<string>, m: map<string, Package>, c: Package)
    ensures c in ValuesAmong(order, m) <==> exists k :: k in order && k in m && m[k] == c
  {
    if |order| > 0 {
      ValueFound(order[..|order| - 1], m, c);
      assert order == order[..|order| - 1] + [order[|order| - 1]];
    }
  }

  lemma {:induction false} FutureKeys(i: Input, p: nat)
    requires Ordered(i) && p <= |i.review.actions|
    ensures forall k :: k in FutureAt(i, p) ==> k in i.order
  {
    hide FutureAt, Found, Key;
    if p == 0 {
      FutureNone(i);
    } else {
      FutureKeys(i, p - 1);
      FutureStep(i, p - 1);
    }
  }

  lemma FutureValues(i: Input, p: nat, c: Package)
    requires InputAdmitted(i) && Ordered(i) && p <= |i.review.actions|
    ensures c in ValuesAmong(i.order, FutureAt(i, p)) <==> exists k :: Rises(i, p, k, c)
  {
    hide InputAdmitted, FutureAt, Rises, Ordered;
    ValueFound(i.order, FutureAt(i, p), c);
    FutureKeys(i, p);
    forall k
      ensures k in FutureAt(i, p) && FutureAt(i, p)[k] == c <==> Rises(i, p, k, c)
    {
      RisesMeans(i, p, k, c);
    }
  }

  lemma FutureSiblings(i: Input, p: nat, source: Package)
    requires InputAdmitted(i) && Ordered(i) && p <= |i.review.actions|
    ensures var values := ValuesAmong(i.order, FutureAt(i, p));
            (forall n :: 0 <= n < |values| ==> SiblingClear(i, source, values[n]) && !Mismatched(i, source, values[n])) <==>
            forall k, c :: Rises(i, p, k, c) && Beside(i, source, c) ==>
              Coinstallable(i, source, c) && i.compare.value(c.version, source.version).ordering == 0
  {
    hide InputAdmitted, Ordered, FutureAt, ValuesAmong, Rises, Beside, SiblingClear, Mismatched;
    var values := ValuesAmong(i.order, FutureAt(i, p));
    forall c
      ensures c in values <==> exists k :: Rises(i, p, k, c)
      ensures SiblingClear(i, source, c) && !Mismatched(i, source, c) <==>
              (Beside(i, source, c) ==> Coinstallable(i, source, c) && i.compare.value(c.version, source.version).ordering == 0)
    {
      FutureValues(i, p, c);
      SiblingMeans(i, source, c);
    }
    assert (forall n :: 0 <= n < |values| ==> SiblingClear(i, source, values[n]) && !Mismatched(i, source, values[n])) <==>
           forall c :: c in values ==> SiblingClear(i, source, c) && !Mismatched(i, source, c);
  }

  lemma FutureMeans(i: Input, p: nat)
    requires InputAdmitted(i) && Ordered(i) && p < |i.review.actions|
    ensures FutureClear(i, p) <==>
            (i.review.actions[p].action == Unpack ==> forall source, breaks :: Brings(i, p, source, breaks) ==> FutureTold(i, p, source, breaks))
  {
    hide InputAdmitted, IncomingAmong, Ordered, EvaluationOf, ValidQuery, Agreeing, ValidProbe, Rises, Beside, Coinstallable,
         FutureAt, ValuesAmong, SiblingClear, Mismatched, AnyMatched, Brings;
    var action := i.review.actions[p];
    if action.action == Unpack {
      UnpackHasRecord(i, p);
      var incoming := IncomingOf(i, action.archive).value;
      forall source, breaks
        ensures Brings(i, p, source, breaks) <==> incoming == Incoming(source, breaks)
      {
        BringsMeans(i, p, source, breaks);
      }
      var q := QueryAt(i, incoming, ValuesAmong(i.order, FutureAt(i, p)));
      if ValidQuery(q) && EvaluationOf(q).Ok? { NoneAgrees(q); }
      FutureSiblings(i, p, incoming.package);
    }
  }

  // ---------------------------------------------------------------------------------------------
  // How each deconfiguration ends

  ghost predicate Closes(a: ReviewedAction, k: string) {
    Slotted(a.package) == k && (a.action.Configure? || a.action.Remove? || a.action.Purge?)
  }

  /** The action names what was unpacked on the slot before it, or else the installed package. */
  ghost predicate Names(actions: seq<ReviewedAction>, p: nat, installed: Instance)
    requires p < |actions|
  {
    var k := Slotted(installed);
    && (forall u: nat :: UnpackedBefore(actions, p, k, u) ==> actions[p].package == actions[u].package)
    && (NoUnpack(actions, p, k) ==> actions[p].package == installed)
  }

  /** The identifier of the unpack before the action, zero when there is none. */
  ghost predicate After(actions: seq<ReviewedAction>, p: nat, k: string, id: nat)
    requires p <= |actions|
  {
    && (forall u: nat :: UnpackedBefore(actions, p, k, u) ==> id == actions[u].identifier)
    && (NoUnpack(actions, p, k) ==> id == 0)
  }

  /** A removal is followed by the purge of the same package on the same unpack. */
  ghost predicate PurgeAfter(actions: seq<ReviewedAction>, e: nat, p: nat, k: string)
    requires e < |actions| && p < |actions|
  {
    && actions[e].action.Remove? && actions[p].action.Purge? && actions[e].package == actions[p].package
    && forall id: nat :: After(actions, e, k, id) <==> After(actions, p, k, id)
  }

  /** `e` is the first action on the slot after `cause` that ends the deconfiguration, and the only one but for a purge. */
  ghost predicate Ending(actions: seq<ReviewedAction>, cause: nat, installed: Instance, e: nat) {
    var k := Slotted(installed);
    && cause < e < |actions| && Closes(actions[e], k)
    && (forall p :: cause < p < e ==> !Closes(actions[p], k))
    && (forall p :: e <= p < |actions| && Closes(actions[p], k) ==> Names(actions, p, installed))
    && (forall p :: e < p < |actions| && Closes(actions[p], k) ==> PurgeAfter(actions, e, p, k))
    && (forall p, q :: e < p < |actions| && e < q < |actions| && Closes(actions[p], k) && Closes(actions[q], k) ==> p == q)
  }

  lemma AfterMeans(actions: seq<ReviewedAction>, p: nat, k: string, id: nat)
    requires p <= |actions|
    ensures After(actions, p, k, id) <==> id == PrecedingUnpack(actions, p, k)
  {
    hide UnpackedBefore, NoUnpack, LastUnpack;
    LastUnpackMeans(actions, p, k);
    var u := LastUnpack(actions, p, k);
    assert u < p ==> UnpackedBefore(actions, p, k, u);
  }

  lemma NamesMeans(actions: seq<ReviewedAction>, p: nat, installed: Instance)
    requires p < |actions|
    ensures Names(actions, p, installed) <==> actions[p].package == Expected(actions, p, installed)
  {
    hide UnpackedBefore, NoUnpack, LastUnpack, Key, Slotted;
    SlottedMeans(installed);
    LastUnpackMeans(actions, p, Key(installed));
    var u := LastUnpack(actions, p, Key(installed));
    assert u < p ==> UnpackedBefore(actions, p, Slotted(installed), u);
  }

  lemma PurgeMeans(actions: seq<ReviewedAction>, e: nat, p: nat, k: string)
    requires e < |actions| && p < |actions| && Slotted(actions[e].package) == k
    ensures Paired(actions, e, p) <==> PurgeAfter(actions, e, p, k)
  {
    hide After, PrecedingUnpack, Key, Slotted;
    SlottedMeans(actions[e].package);
    forall id: nat
      ensures After(actions, e, k, id) <==> id == PrecedingUnpack(actions, e, k)
      ensures After(actions, p, k, id) <==> id == PrecedingUnpack(actions, p, k)
    {
      AfterMeans(actions, e, k, id);
      AfterMeans(actions, p, k, id);
    }
    assert After(actions, e, k, PrecedingUnpack(actions, e, k));
  }

  lemma EndingMeans(actions: seq<ReviewedAction>, cause: nat, installed: Instance, e: nat)
    ensures EndsAt(actions, cause, installed, e) <==> Ending(actions, cause, installed, e)
  {
    hide Names, Expected, Paired, PurgeAfter, Ends, Closes, Key, Slotted;
    var k := Slotted(installed);
    SlottedMeans(installed);
    forall a
      ensures Ends(a, k) <==> Closes(a, k)
    {
      ClosesMeans(a, k);
    }
    forall p | 0 <= p < |actions|
      ensures Names(actions, p, installed) <==> actions[p].package == Expected(actions, p, installed)
    {
      NamesMeans(actions, p, installed);
    }
    if cause < e < |actions| && Closes(actions[e], k) {
      assert Slotted(actions[e].package) == k by { ClosesSlot(actions[e], k); }
      forall p | 0 <= p < |actions|
        ensures Paired(actions, e, p) <==> PurgeAfter(actions, e, p, k)
      {
        PurgeMeans(actions, e, p, k);
      }
    }
  }

  lemma ClosesMeans(a: ReviewedAction, k: string)
    ensures Ends(a, k) <==> Closes(a, k)
  {
  }

  lemma ClosesSlot(a: ReviewedAction, k: string)
    requires Closes(a, k)
    ensures Slotted(a.package) == k
  {
  }

  // ---------------------------------------------------------------------------------------------
  // The derivation as a whole

  /** The `p`-th action is the last one that takes the configuration of the package with this label. */
  ghost predicate LastLoss(i: Input, g: string, p: nat) {
    && (exists k, cause :: Loses(i, g, p, k, cause))
    && forall q: nat, k, cause :: Loses(i, g, q, k, cause) ==> q <= p
  }

  lemma LossEmitted(i: Input, g: string, p: nat)
    requires CausesAdmitted(i) && Ordered(i)
    ensures (exists k, cause :: Loses(i, g, p, k, cause)) <==>
            exists e :: e in EmissionsOf(i) && Generation(e.target) == g && e.position == p
  {
    hide InputAdmitted, Ordered, UnpackAdmitted, FutureClear, EmissionsBefore, Deconfigures, Generation, Label, ArchivesUsed;
    forall p
      ensures Generation(p) == Label(p)
    {
      LabelMeans(p);
    }
    if e :| e in EmissionsOf(i) && Generation(e.target) == g && e.position == p {
      EmissionsMean(i, |i.review.actions|, e);
      var k :| Emits(i, k, e);
      assert Loses(i, g, p, k, e.cause);
    }
    if k, cause :| Loses(i, g, p, k, cause) {
      var e := Emission(i.checkpoint.state.packages[k].package, cause, p);
      assert Emits(i, k, e);
      EmissionsMean(i, |i.review.actions|, e);
    }
  }

  lemma {:induction false} LastCauseLast(es: seq<Emission>, g: string)
    requires forall d, e :: 0 <= d < e < |es| ==> es[d].position <= es[e].position
    ensures forall e :: e in es && Generation(e.target) == g ==> e.position <= LastCause(es, g)
  {
    hide Generation;
    if |es| > 0 {
      LastCauseLast(es[..|es| - 1], g);
      assert es == es[..|es| - 1] + [es[|es| - 1]];
    }
  }

  lemma LastCauseMeans(i: Input, g: string)
    requires CausesAdmitted(i) && Ordered(i) && DeconfigurationEffects.Named(EmissionsOf(i), g)
    ensures LastLoss(i, g, LastCause(EmissionsOf(i), g))
  {
    hide CausesAdmitted, Ordered, EmissionsBefore, LastCause, Generation, Loses;
    var es := EmissionsOf(i);
    EmissionsTraced(i, |i.review.actions|);
    LastCauseLast(es, g);
    LastCauseIs(es, g);
    LossEmitted(i, g, LastCause(es, g));
    forall q: nat, k, cause | Loses(i, g, q, k, cause)
      ensures q <= LastCause(es, g)
    {
      LossEmitted(i, g, q);
    }
  }

  /** Whatever loses its configuration has an action that ends that. */
  ghost predicate AllEnd(i: Input) {
    forall k, p: nat :: k in i.checkpoint.state.packages && LastLoss(i, Label(i.checkpoint.state.packages[k].package), p) ==>
      exists e :: Ending(i.review.actions, p, i.checkpoint.state.packages[k].package, e)
  }

  ghost predicate AllUsed(review: Review) {
    forall x :: x in review.archives ==> exists a :: a in review.actions && a.action.Unpack? && a.archive == x.identifier
  }

  ghost predicate UnpacksTold(i: Input) {
    forall p: nat, source, breaks :: Brings(i, p, source, breaks) ==> UnpackTold(i, p, source, breaks) && FutureTold(i, p, source, breaks)
  }

  lemma UsedMeans(review: Review)
    ensures ArchivesUsed(review) <==> AllUsed(review)
  {
    forall id
      ensures ArchiveUsed(review.actions, id) <==> exists a :: a in review.actions && a.action.Unpack? && a.archive == id
    {
      if a :| a in review.actions && a.action.Unpack? && a.archive == id {
        var p :| 0 <= p < |review.actions| && review.actions[p] == a;
      }
    }
    hide ArchiveUsed;
    if AllUsed(review) {
      forall a | 0 <= a < |review.archives|
        ensures ArchiveUsed(review.actions, review.archives[a].identifier)
      {
        assert review.archives[a] in review.archives;
      }
    }
  }

  lemma BringsUnpacks(i: Input, p: nat, source: Package, breaks: Field)
    requires Brings(i, p, source, breaks)
    ensures p < |i.review.actions| && i.review.actions[p].action == Unpack
  {
  }

  lemma UnpacksMean(i: Input)
    requires InputAdmitted(i) && Ordered(i)
    ensures (forall p :: 0 <= p < |i.review.actions| ==> UnpackAdmitted(i, p) && FutureClear(i, p)) <==> UnpacksTold(i)
  {
    hide InputAdmitted, Ordered, UnpackAdmitted, FutureClear, Brings, UnpackTold, FutureTold;
    forall p | 0 <= p < |i.review.actions|
      ensures UnpackAdmitted(i, p) && FutureClear(i, p) <==>
              (i.review.actions[p].action == Unpack ==>
                 forall source, breaks :: Brings(i, p, source, breaks) ==> UnpackTold(i, p, source, breaks) && FutureTold(i, p, source, breaks))
    {
      UnpackMeans(i, p);
      FutureMeans(i, p);
    }
    forall p: nat, source, breaks | Brings(i, p, source, breaks)
      ensures p < |i.review.actions| && i.review.actions[p].action == Unpack
    {
      BringsUnpacks(i, p, source, breaks);
    }
  }

  lemma EndsMean(i: Input)
    requires CausesAdmitted(i) && Ordered(i)
    ensures Endable(i, EmissionsOf(i)) <==> AllEnd(i)
  {
    hide CausesAdmitted, Ordered, EmissionsBefore, LastCause, Generation, LastLoss, EndsAt, Ending, Label;
    var es, actions := EmissionsOf(i), i.review.actions;
    forall p: nat, installed, e
      ensures EndsAt(actions, p, installed, e) <==> Ending(actions, p, installed, e)
    {
      EndingMeans(actions, p, installed, e);
    }
    if AllEnd(i) {
      forall n | 0 <= n < |es|
        ensures HasEnd(i, es, es[n].target)
      {
        EmittedRow(i, es[n]);
        var k :| Emits(i, k, es[n]);
        NamedAt(es, n);
        LabelMeans(es[n].target);
        LastCauseMeans(i, Generation(es[n].target));
        var e :| Ending(actions, LastCause(es, Generation(es[n].target)), es[n].target, e);
      }
    }
    if Endable(i, es) {
      forall k, p: nat | k in i.checkpoint.state.packages && LastLoss(i, Label(i.checkpoint.state.packages[k].package), p)
        ensures exists e :: Ending(actions, p, i.checkpoint.state.packages[k].package, e)
      {
        LossEnds(i, k, p);
      }
    }
  }

  lemma EmittedRow(i: Input, e: Emission)
    requires CausesAdmitted(i) && Ordered(i) && e in EmissionsOf(i)
    ensures exists k :: Emits(i, k, e) && k in i.checkpoint.state.packages && e.target == i.checkpoint.state.packages[k].package
  {
    hide InputAdmitted, Ordered, UnpackAdmitted, FutureClear, EmissionsBefore, Deconfigures, ArchivesUsed;
    EmissionsMean(i, |i.review.actions|, e);
  }

  lemma LossEnds(i: Input, k: string, p: nat)
    requires CausesAdmitted(i) && Ordered(i) && Endable(i, EmissionsOf(i))
    requires k in i.checkpoint.state.packages && LastLoss(i, Label(i.checkpoint.state.packages[k].package), p)
    ensures exists e :: Ending(i.review.actions, p, i.checkpoint.state.packages[k].package, e)
  {
    hide InputAdmitted, UnpackAdmitted, FutureClear, ArchivesUsed, Ordered, EmissionsBefore, LastCause, Generation, Loses, EndsAt, Ending, Label;
    var es, target := EmissionsOf(i), i.checkpoint.state.packages[k].package;
    LabelMeans(target);
    var g := Label(target);
    LossEmitted(i, g, p);
    var e :| e in es && Generation(e.target) == g && e.position == p;
    var n :| 0 <= n < |es| && es[n] == e;
    NamedAt(es, n);
    LastCauseMeans(i, g);
    LastLossOnce(i, g, p, LastCause(es, g));
    EmittedRow(i, e);
    var l :| Emits(i, l, e);
    LabelMeans(e.target);
    TargetRow(i, e, l, k);
    var m :| EndsAt(i.review.actions, LastCause(es, Generation(e.target)), e.target, m);
    EndingMeans(i.review.actions, p, target, m);
  }

  lemma LastLossOnce(i: Input, g: string, p: nat, q: nat)
    requires LastLoss(i, g, p) && LastLoss(i, g, q)
    ensures p == q
  {
    hide Loses;
  }

  lemma TargetRow(i: Input, e: Emission, l: string, k: string)
    requires InputAdmitted(i) && Emits(i, l, e) && k in i.checkpoint.state.packages
    requires Label(i.checkpoint.state.packages[k].package) == Label(e.target)
    ensures k == l && e.target == i.checkpoint.state.packages[k].package
  {
    hide InputAdmitted, Label, Untouched, Breaking, Diverging;
    var c :| Stands(i, l, c);
    LabelsTellRows(i, l, k);
  }

  /**
   * Allowances can be derived exactly when the input is in order, every unpack can be judged and only
   * takes the configuration of packages that can lose it, no package the run itself configured is
   * affected, every archive is unpacked, and whatever loses its configuration has its end.
   */
  lemma DerivationMeans(i: Input)
    requires Ordered(i)
    ensures Derivable(i) <==> InputTold(i) && UnpacksTold(i) && AllUsed(i.review) && AllEnd(i)
  {
    hide InputAdmitted, InputTold, UnpackAdmitted, FutureClear, UnpacksTold, ArchivesUsed, AllUsed, Endable, AllEnd, Ordered, EmissionsOf;
    InputMeans(i);
    UsedMeans(i.review);
    if InputAdmitted(i) { UnpacksMean(i); }
    if CausesAdmitted(i) { EndsMean(i); }
  }

  /** Each allowance ends with the first closing action after the last unpack that affects it. */
  lemma EndpointsMean(i: Input, allowances: map<string, Allowance>, g: string)
    requires Derivable(i) && Ordered(i) && Collected(i, EmissionsOf(i), allowances) && Ended(i, EmissionsOf(i), allowances)
    requires g in allowances
    ensures exists p, e :: LastLoss(i, g, p) && Ending(i.review.actions, p, allowances[g].installed, e)
                           && EndpointIs(i.review.actions, allowances[g].installed, e, allowances[g].endpoint)
  {
    hide CausesAdmitted, Ordered, EmissionsOf, Endable, LastCause, LastLoss, Ending, EndpointIs, EndpointOf, Begins, CausesFor, Ends, Expected, Paired;
    var es, installed := EmissionsOf(i), allowances[g].installed;
    var p := LastCause(es, g);
    LastCauseMeans(i, g);
    var e :| EndsAt(i.review.actions, p, installed, e) && allowances[g].endpoint == EndpointOf(i.review.actions, installed, e);
    EndingMeans(i.review.actions, p, installed, e);
    EndpointMeans(i.review.actions, p, installed, e);
  }

  ghost predicate EndpointIs(actions: seq<ReviewedAction>, installed: Instance, e: nat, endpoint: Endpoint)
    requires e < |actions|
  {
    && endpoint.action == actions[e].identifier && endpoint.kind == actions[e].action && endpoint.package == actions[e].package
    && After(actions, e, Slotted(installed), endpoint.precedingUnpack)
  }

  lemma EndpointMeans(actions: seq<ReviewedAction>, p: nat, installed: Instance, e: nat)
    requires EndsAt(actions, p, installed, e)
    ensures e < |actions| && EndpointIs(actions, installed, e, EndpointOf(actions, installed, e))
  {
    hide After, PrecedingUnpack, Key, Slotted, Expected, Paired;
    SlottedMeans(installed);
    AfterMeans(actions, e, Slotted(installed), PrecedingUnpack(actions, e, Key(installed)));
  }

  /** The budgets of a derivation, and what causes, allowances and endpoints take of the output on a 64-bit target. */
  lemma LimitsMean()
    ensures MAXIMUM_CAUSES == 16384 && MAXIMUM_STEPS == 65536 && MAXIMUM_BYTES == 33554432
    ensures CAUSE_SIZE == 112 && ENDPOINT_SIZE == 96 && ALLOWANCE_SIZE == 280
  {
  }
}
