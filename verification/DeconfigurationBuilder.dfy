/**
 * Building the allowances. Besides its checks the builder only refuses when a budget runs out:
 * every other answer is the one the input determines.
 */
module DeconfigurationBuilder {
  import opened Text
  import opened Packages
  import opened BinaryRelationships
  import opened RelationshipCanonical
  import opened RelationshipMatching
  import opened RelationshipWitnesses
  import opened DpkgState
  import opened Reviews
  import opened DeconfigurationEffects

  /** `Exhausted` is a refusal that only a budget causes. */
  datatype Outcome<+T> = Granted(value: T) | Denied | Exhausted

  // Sizes on a 64-bit target whose strings and vectors are three words.
  const CAUSE_SIZE: nat := 2 * 8 + 3 * 24 + 3 * 8
  const ENDPOINT_SIZE: nat := 3 * 8 + 3 * 24
  const ALLOWANCE_SIZE: nat := 3 * 24 + 16 + 3 * 24 + 24 + ENDPOINT_SIZE

  const KINDS: seq<Kind> := [Depends, PreDepends, Breaks, Conflicts, Replaces]

  // ---------------------------------------------------------------------------------------------
  // Everything evaluated comes from the parsers

  lemma UnderstoodValid(i: Input, c: Controls, p: Instance)
    requires Understood(i, c, p).Some?
    ensures var r := Understood(i, c, p).value;
            && ValidPackage(r.package) && InstanceOf(r.package) == p && PackageValid(p)
            && ValidField(r.breaks) && r.breaks.kind == Breaks
  {
    hide FieldOf, ValidField, Name, Version, ConcreteArchitecture, NativeQualified;
    ParsedPackageIsValid(p.package, p.version, p.architecture, At(c, "multi-arch"), At(c, FieldName(Provides)));
    ParsedIsValid(Breaks, At(c, FieldName(Breaks)));
  }

  lemma {:induction false} IncomingValid(i: Input, n: nat, archive: string)
    requires n <= |i.records| && IncomingAmong(i, n, archive).Some?
    ensures var r := IncomingAmong(i, n, archive).value;
            ValidPackage(r.package) && ValidField(r.breaks) && r.breaks.kind == Breaks
  {
    hide Understood, ValidPackage, ValidField;
    if i.records[n - 1].archive.identifier == archive {
      UnderstoodValid(i, i.records[n - 1].controls, i.records[n - 1].archive.package);
    } else {
      IncomingValid(i, n - 1, archive);
    }
  }

  predicate AllValid(ps: seq<Package>) {
    forall k :: 0 <= k < |ps| ==> ValidPackage(ps[k])
  }

  lemma InstalledValid(i: Input, k: string)
    requires InstalledPackage(i, k).Some?
    ensures ValidPackage(InstalledPackage(i, k).value)
    ensures InstanceOf(InstalledPackage(i, k).value) == i.checkpoint.state.packages[k].package
    ensures PackageValid(i.checkpoint.state.packages[k].package)
  {
    hide Understood, ValidPackage;
    UnderstoodValid(i, i.checkpoint.metadata[k].controls, i.checkpoint.state.packages[k].package);
  }

  lemma {:induction false} CandidatesValid(i: Input, n: nat)
    requires n <= |i.order|
    ensures AllValid(CandidatesAmong(i, n))
  {
    hide InstalledPackage, ValidPackage;
    if n > 0 {
      CandidatesValid(i, n - 1);
      if InstalledPackage(i, i.order[n - 1]).Some? { InstalledValid(i, i.order[n - 1]); }
    }
  }

  lemma {:induction false} LiveValid(i: Input, p: nat, cs: seq<Package>)
    requires p <= |i.review.actions| && AllValid(cs)
    ensures AllValid(LiveAmong(i, p, cs))
  {
    hide Initial, ValidPackage;
    if |cs| > 0 { LiveValid(i, p, cs[..|cs| - 1]); }
  }

  lemma {:induction false} FutureValid(i: Input, q: nat)
    requires q <= |i.review.actions|
    ensures forall k :: k in FutureAt(i, q) ==> ValidPackage(FutureAt(i, q)[k])
  {
    hide IncomingAmong, InstalledPackage, ValidPackage, LastUnpack, ValidField;
    if q > 0 {
      FutureValid(i, q - 1);
      var prior := i.review.actions[q - 1];
      var k := Key(prior.package);
      var u := LastUnpack(i.review.actions, q - 1, k);
      if u < q - 1 && IncomingOf(i, i.review.actions[u].archive).Some? {
        IncomingValid(i, |i.records|, i.review.actions[u].archive);
      }
      if InstalledPackage(i, k).Some? { InstalledValid(i, k); }
    }
  }

  lemma {:induction false} ValuesValid(order: seq<string>, m: map<string, Package>)
    requires forall k :: k in m ==> ValidPackage(m[k])
    ensures AllValid(ValuesAmong(order, m))
  {
    hide ValidPackage;
    if |order| > 0 { ValuesValid(order[..|order| - 1], m); }
  }

  lemma QueryValid(i: Input, incoming: Incoming, cs: seq<Package>)
    requires ValidPackage(incoming.package) && ValidField(incoming.breaks) && AllValid(cs)
    ensures ValidQuery(QueryAt(i, incoming, cs))
  {
    hide ValidPackage, ValidField;
  }

  // ---------------------------------------------------------------------------------------------
  // Checking the review

  method CheckArchives(archives: seq<Archive>) returns (ok: bool)
    ensures ok <==> ArchivesDistinct(archives)
  {
    hide IdentityToken;
    var seen: set<string> := {};
    for a := 0 to |archives|
      invariant forall b :: 0 <= b < a ==> IdentityToken(archives[b].identifier)
      invariant forall b, c :: 0 <= b < c < a ==> archives[b].identifier != archives[c].identifier
      invariant forall id :: id in seen <==> exists b :: 0 <= b < a && archives[b].identifier == id
    {
      if !IdentityToken(archives[a].identifier) || archives[a].identifier in seen { return false; }
      seen := seen + {archives[a].identifier};
    }
    ok := true;
  }

  method CheckAction(review: Review, action: ReviewedAction) returns (ok: bool)
    ensures ok <==> PrimaryAction(review, action)
  {
    hide PackageValid;
    if action.identifier == 0 || action.action == Deconfigure || action.action == Triggers { return false; }
    ok := CheckPackage(action.package);
    if !ok { return; }
    if action.action != Unpack { return |action.archive| == 0; }
    for a := 0 to |review.archives|
      invariant forall b :: 0 <= b < a ==>
                  !(review.archives[b].identifier == action.archive && review.archives[b].package == action.package)
    {
      if review.archives[a].identifier == action.archive && review.archives[a].package == action.package { return true; }
    }
    ok := false;
  }

  method CheckActions(review: Review) returns (ok: bool)
    ensures ok <==> ActionsAdmitted(review)
  {
    hide PrimaryAction;
    var positions: map<nat, nat> := map[];
    for p := 0 to |review.actions|
      invariant forall q :: 0 <= q < p ==> PrimaryAction(review, review.actions[q])
      invariant forall q, r :: 0 <= q < r < p ==> review.actions[q].identifier != review.actions[r].identifier
      invariant forall id :: id in positions <==> exists q :: 0 <= q < p && review.actions[q].identifier == id
    {
      var id := review.actions[p].identifier;
      var primary := CheckAction(review, review.actions[p]);
      if !primary || id in positions { return false; }
      positions := positions[id := p];
    }
    ok := true;
  }

  method HasNative(f: Field) returns (found: bool)
    ensures found <==> NativeQualified(f)
  {
    for g := 0 to |f.groups|
      invariant forall h, a :: 0 <= h < g && 0 <= a < |f.groups[h]| ==> f.groups[h][a].qualifier != Native
    {
      for a := 0 to |f.groups[g]|
        invariant forall k :: 0 <= k < a ==> f.groups[g][k].qualifier != Native
      {
        if f.groups[g][a].qualifier == Native { return true; }
      }
    }
    found := false;
  }

  // ---------------------------------------------------------------------------------------------
  // The builder

  predicate IncomingIs(i: Input, n: nat, incoming: map<string, Incoming>)
    requires n <= |i.records|
  {
    && (forall r :: 0 <= r < n ==> i.records[r].archive.identifier in incoming)
    && (forall id :: id in incoming ==> IncomingAmong(i, n, id) == Some(incoming[id]))
  }

  ghost predicate CountsAre(i: Input, n: nat, counts: map<string, nat>)
    requires n <= |i.order|
  {
    forall name :: (if name in counts then counts[name] else 0) == InstancesAmong(i, n, name)
  }

  predicate InstalledAre(i: Input, n: nat, installed: map<string, Package>)
    requires n <= |i.order|
  {
    && (forall k :: 0 <= k < n && InstalledPackage(i, i.order[k]).Some? ==> i.order[k] in installed)
    && (forall k :: k in installed ==> InstalledPackage(i, k) == Some(installed[k]))
  }

  // ---------------------------------------------------------------------------------------------
  // Every archive has its record

  function Identifiers(archives: seq<Archive>): set<string> {
    if |archives| == 0 then {} else Identifiers(archives[..|archives| - 1]) + {archives[|archives| - 1].identifier}
  }

  lemma {:induction false} IdentifiersExact(archives: seq<Archive>, id: string)
    ensures id in Identifiers(archives) <==> exists a :: 0 <= a < |archives| && archives[a].identifier == id
  {
    if |archives| > 0 {
      var front := archives[..|archives| - 1];
      IdentifiersExact(front, id);
      if id in Identifiers(front) {
        var a :| 0 <= a < |front| && front[a].identifier == id;
        assert archives[a].identifier == id;
      }
      if a :| 0 <= a < |archives| && archives[a].identifier == id {
        assert a < |front| ==> front[a].identifier == id;
      }
    }
  }

  lemma {:induction false} IdentifiersSize(archives: seq<Archive>)
    requires forall a, b :: 0 <= a < b < |archives| ==> archives[a].identifier != archives[b].identifier
    ensures |Identifiers(archives)| == |archives|
  {
    if |archives| > 0 {
      IdentifiersSize(archives[..|archives| - 1]);
      IdentifiersExact(archives[..|archives| - 1], archives[|archives| - 1].identifier);
    }
  }

  lemma {:induction false} RecordFound(i: Input, n: nat, r: nat)
    requires RecordsAdmitted(i) && r < n <= |i.records|
    ensures IncomingAmong(i, n, i.records[r].archive.identifier).Some?
  {
    hide Understood;
    assert RecordAdmitted(i, i.records[n - 1]);
    if r < n - 1 { RecordFound(i, n - 1, r); }
  }

  /** Equally many distinct records and archives: looking up the record of an archive never fails. */
  lemma RecordsCover(i: Input, archive: Archive)
    requires |i.records| == |i.review.archives| && ArchivesDistinct(i.review.archives) && RecordsAdmitted(i)
    requires archive in i.review.archives
    ensures IncomingOf(i, archive.identifier).Some?
  {
    hide IncomingAmong, Understood, Identifiers;
    var held := seq(|i.records|, r requires 0 <= r < |i.records| => i.records[r].archive);
    IdentifiersSize(held);
    IdentifiersSize(i.review.archives);
    forall id | id in Identifiers(held)
      ensures id in Identifiers(i.review.archives)
    {
      IdentifiersExact(held, id);
      IdentifiersExact(i.review.archives, id);
      var r :| 0 <= r < |held| && held[r].identifier == id;
      assert RecordAdmitted(i, i.records[r]);
      var a :| 0 <= a < |i.review.archives| && i.review.archives[a] == held[r];
    }
    SameSize(Identifiers(held), Identifiers(i.review.archives));
    var a :| 0 <= a < |i.review.archives| && i.review.archives[a] == archive;
    IdentifiersExact(i.review.archives, archive.identifier);
    IdentifiersExact(held, archive.identifier);
    var r :| 0 <= r < |held| && held[r].identifier == archive.identifier;
    RecordFound(i, |i.records|, r);
  }

  lemma {:induction false} IncomingDescribes(i: Input, n: nat, archive: Archive)
    requires n <= |i.records| && RecordsAdmitted(i) && ArchivesDistinct(i.review.archives) && archive in i.review.archives
    requires IncomingAmong(i, n, archive.identifier).Some?
    ensures InstanceOf(IncomingAmong(i, n, archive.identifier).value.package) == archive.package
  {
    hide Understood, IdentityToken, Digest;
    var record := i.records[n - 1];
    if record.archive.identifier == archive.identifier {
      assert RecordAdmitted(i, record);
      var a :| 0 <= a < |i.review.archives| && i.review.archives[a] == record.archive;
      var b :| 0 <= b < |i.review.archives| && i.review.archives[b] == archive;
      UnderstoodValid(i, record.controls, record.archive.package);
    } else {
      IncomingDescribes(i, n - 1, archive);
    }
  }

  /** The record of an unpacked archive describes exactly the package the action names. */
  lemma UnpackHasRecord(i: Input, p: nat)
    requires InputAdmitted(i) && p < |i.review.actions| && i.review.actions[p].action == Unpack
    ensures IncomingOf(i, i.review.actions[p].archive).Some?
    ensures InstanceOf(IncomingOf(i, i.review.actions[p].archive).value.package) == i.review.actions[p].package
  {
    hide IncomingAmong, Understood, IdentityToken, PackageValid, RecordsAdmitted, RowsAdmitted;
    var action := i.review.actions[p];
    assert PrimaryAction(i.review, action);
    var archive :| archive in i.review.archives && archive.identifier == action.archive && archive.package == action.package;
    RecordsCover(i, archive);
    IncomingDescribes(i, |i.records|, archive);
  }

  lemma LoadNone(i: Input)
    ensures CountsAre(i, 0, map[]) && InstalledAre(i, 0, map[])
  {
  }

  lemma NotInstalledAbsent(i: Input, k: string)
    ensures k !in i.checkpoint.state.packages ==> InstalledPackage(i, k).None?
  {
  }

  lemma CountsNext(i: Input, n: nat, counts: map<string, nat>, counts': map<string, nat>, row: Option<Record>)
    requires n < |i.order| && CountsAre(i, n, counts)
    requires var k := i.order[n];
             row == if k in i.checkpoint.state.packages then Some(i.checkpoint.state.packages[k]) else None
    requires if row.None? then counts' == counts else Counted(counts, counts', row.value)
    ensures CountsAre(i, n + 1, counts')
  {
  }

  ghost predicate Counted(counts: map<string, nat>, counts': map<string, nat>, row: Record) {
    forall name :: (if name in counts' then counts'[name] else 0) ==
      (if name in counts then counts[name] else 0)
      + (if row.package.package == name && row.status != NotInstalled then 1 else 0)
  }

  lemma InstalledNext(i: Input, n: nat, installed: map<string, Package>)
    requires n < |i.order| && InstalledAre(i, n, installed)
    ensures var package := InstalledPackage(i, i.order[n]);
            InstalledAre(i, n + 1, if package.Some? then installed[i.order[n] := package.value] else installed)
  {
    hide InstalledPackage;
  }

  lemma IncomingNone(i: Input)
    ensures IncomingIs(i, 0, map[])
  {
  }

  lemma IncomingNext(i: Input, n: nat, incoming: map<string, Incoming>, value: Incoming)
    requires n < |i.records| && IncomingIs(i, n, incoming)
    requires Understood(i, i.records[n].controls, i.records[n].archive.package) == Some(value)
    ensures IncomingIs(i, n + 1, incoming[i.records[n].archive.identifier := value])
  {
    hide Understood;
  }

  // ---------------------------------------------------------------------------------------------
  // Collecting causes

  lemma NamedNext(es: seq<Emission>, e: Emission, g: string)
    ensures Named(es + [e], g) <==> Named(es, g) || Generation(e.target) == g
  {
    hide Generation;
    var all := es + [e];
    assert all[|es|] == e;
    if Named(es, g) {
      var k :| 0 <= k < |es| && Generation(es[k].target) == g;
      assert Generation(all[k].target) == g;
    }
    if Named(all, g) {
      var k :| 0 <= k < |all| && Generation(all[k].target) == g;
      assert k < |es| ==> Generation(es[k].target) == g;
    }
  }

  lemma CausesNext(es: seq<Emission>, e: Emission, g: string)
    ensures CausesFor(es + [e], g) == CausesFor(es, g) + (if Generation(e.target) == g then [e.cause] else [])
    ensures LastCause(es + [e], g) == if Generation(e.target) == g then e.position else LastCause(es, g)
  {
    hide Generation;
    assert (es + [e])[..|es|] == es;
  }

  lemma {:induction false} NoCauses(es: seq<Emission>, g: string)
    requires !Named(es, g)
    ensures CausesFor(es, g) == []
  {
    hide Generation;
    if |es| > 0 {
      NamedNext(es[..|es| - 1], es[|es| - 1], g);
      assert es == es[..|es| - 1] + [es[|es| - 1]];
      NoCauses(es[..|es| - 1], g);
    }
  }

  /** Every target so far was a valid installed package. */
  predicate TargetsValid(es: seq<Emission>) {
    forall e :: 0 <= e < |es| ==> PackageValid(es[e].target)
  }

  /** The causes collected so far, with the position of the last one for each generation. */
  ghost predicate Ledger(i: Input, es: seq<Emission>, allowances: map<string, Allowance>, lastCause: map<string, nat>) {
    && Collected(i, es, allowances) && TargetsValid(es)
    && (forall g :: g in lastCause <==> g in allowances)
    && (forall g :: g in lastCause ==> lastCause[g] == LastCause(es, g))
  }

  lemma SameTarget(i: Input, es: seq<Emission>, target: Instance)
    requires TargetsValid(es) && PackageValid(target) && Named(es, Generation(target))
    ensures exists e :: 0 <= e < |es| && es[e].target == target
  {
    hide PackageValid, Generation;
    var e :| 0 <= e < |es| && Generation(es[e].target) == Generation(target);
    GenerationInjective(es[e].target, target);
  }

  lemma LedgerNext(i: Input, es: seq<Emission>, allowances: map<string, Allowance>, lastCause: map<string, nat>,
                   e: Emission, a: Allowance)
    requires Ledger(i, es, allowances, lastCause) && PackageValid(e.target)
    requires var g := Generation(e.target);
             if g in allowances then a == allowances[g].(causes := allowances[g].causes + [e.cause])
             else Begins(i, e.target, a) && a.causes == [e.cause]
    ensures var g := Generation(e.target);
            Ledger(i, es + [e], allowances[g := a], lastCause[g := e.position])
  {
    hide Generation, PackageValid, Begins, Named, CausesFor, LastCause;
    var g := Generation(e.target);
    var es', all := es + [e], allowances[g := a];
    forall h
      ensures h in all <==> Named(es', h)
      ensures CausesFor(es', h) == CausesFor(es, h) + (if g == h then [e.cause] else [])
      ensures LastCause(es', h) == if g == h then e.position else LastCause(es, h)
    {
      NamedNext(es, e, h);
      CausesNext(es, e, h);
    }
    if g !in allowances { NoCauses(es, g); }
    BeginsNext(i, es, allowances, e, a);
  }

  lemma BeginsNext(i: Input, es: seq<Emission>, allowances: map<string, Allowance>, e: Emission, a: Allowance)
    requires Collected(i, es, allowances) && TargetsValid(es) && PackageValid(e.target)
    requires var g := Generation(e.target);
             if g in allowances then a == allowances[g].(causes := allowances[g].causes + [e.cause])
             else Begins(i, e.target, a)
    ensures var g := Generation(e.target);
            forall k :: 0 <= k < |es| + 1 ==>
              var target := (es + [e])[k].target;
              Begins(i, target, allowances[g := a][Generation(target)])
  {
    hide PackageValid;
    var g := Generation(e.target);
    if g in allowances {
      SameTarget(i, es, e.target);
      var j :| 0 <= j < |es| && es[j].target == e.target;
      assert Begins(i, es[j].target, allowances[g]);
    }
    forall k | 0 <= k < |es| + 1
      ensures var target := (es + [e])[k].target;
              Generation(target) in allowances[g := a] && Begins(i, target, allowances[g := a][Generation(target)])
    {
      var target := (es + [e])[k].target;
      if k < |es| {
        assert Begins(i, es[k].target, allowances[Generation(es[k].target)]);
        assert Named(es, Generation(target));
        if Generation(target) == g {
          GenerationInjective(target, e.target);
        }
      }
    }
  }

  // ---------------------------------------------------------------------------------------------
  // Emissions of one unpack

  predicate AllAddable(i: Input, es: seq<Emission>, p: nat)
    requires p <= |i.review.actions|
  {
    forall e :: 0 <= e < |es| ==> Addable(i, es[e].target, p)
  }

  predicate AllClear(groups: seq<seq<Witness>>) {
    forall g :: 0 <= g < |groups| ==> ProviderClear(groups[g])
  }

  /** Every witness names a valid installed package. */
  predicate WitnessesValid(groups: seq<seq<Witness>>) {
    forall g, k :: 0 <= g < |groups| && 0 <= k < |groups[g]| ==>
      PackageValid(Instance(groups[g][k].package, groups[g][k].version, groups[g][k].architecture))
  }

  lemma BreaksNext(action: ReviewedAction, relation: string, p: nat, groups: seq<seq<Witness>>, g: nat)
    requires g < |groups|
    ensures BreaksEmissions(action, relation, p, groups[..g + 1]) ==
            BreaksEmissions(action, relation, p, groups[..g]) + GroupEmissions(action, relation, p, groups[g])
  {
    assert groups[..g + 1][..g] == groups[..g];
  }

  lemma {:induction false} BreaksContains(action: ReviewedAction, relation: string, p: nat, groups: seq<seq<Witness>>, g: nat, k: nat)
    requires g < |groups| && k < |groups[g]|
    ensures BreaksEmission(action, relation, p, groups[g][k]) in BreaksEmissions(action, relation, p, groups)
  {
    var n := |groups| - 1;
    var last := GroupEmissions(action, relation, p, groups[n]);
    if g == n {
      assert last[k] == BreaksEmission(action, relation, p, groups[g][k]);
    } else {
      BreaksContains(action, relation, p, groups[..n], g, k);
    }
  }

  lemma SiblingNext(i: Input, action: ReviewedAction, incoming: Package, p: nat, cs: seq<Package>, c: nat)
    requires c < |cs|
    ensures SiblingEmissions(i, action, incoming, p, cs[..c + 1]) ==
            SiblingEmissions(i, action, incoming, p, cs[..c])
            + (if Mismatched(i, incoming, cs[c]) then [SiblingEmission(action, p, cs[c])] else [])
  {
    assert cs[..c + 1][..c] == cs[..c];
  }

  lemma {:induction false} SiblingContains(i: Input, action: ReviewedAction, incoming: Package, p: nat, cs: seq<Package>, c: nat)
    requires c < |cs| && Mismatched(i, incoming, cs[c])
    ensures SiblingEmission(action, p, cs[c]) in SiblingEmissions(i, action, incoming, p, cs)
  {
    if c < |cs| - 1 { SiblingContains(i, action, incoming, p, cs[..|cs| - 1], c); }
  }

  lemma LiveNext(i: Input, p: nat, cs: seq<Package>, c: nat)
    requires p <= |i.review.actions| && c < |cs|
    ensures LiveAmong(i, p, cs[..c + 1]) == LiveAmong(i, p, cs[..c]) + (if Initial(i, p, cs[c]) then [cs[c]] else [])
  {
    assert cs[..c + 1][..c] == cs[..c];
  }

  /** The versions and names of witnesses are those of the candidates they point at. */
  lemma MatchesValid(i: Input, incoming: Incoming, cs: seq<Package>)
    requires ValidPackage(incoming.package) && ValidField(incoming.breaks) && AllValid(cs)
    requires BreaksMatches(i, incoming, cs).Some?
    ensures WitnessesValid(BreaksMatches(i, incoming, cs).value)
  {
    hide ValidQuery, ProbeVerdict, Before, EvaluationOf;
    var q := QueryAt(i, incoming, cs);
    var groups: seq<seq<Witness>> := BreaksMatches(i, incoming, cs).value;
    EvaluateExact(q);
    forall g, k | 0 <= g < |groups| && 0 <= k < |groups[g]|
      ensures PackageValid(Instance(groups[g][k].package, groups[g][k].version, groups[g][k].architecture))
    {
      assert Exactly(q, g, groups[g]);
      assert groups[g][k] == WitnessOf(q, Place(groups[g][k]));
    }
  }

  lemma Product(a: nat, b: nat)
    ensures 0 <= a * b
  {
  }

  lemma LiveNone(i: Input, p: nat)
    requires p <= |i.review.actions|
    ensures LiveAmong(i, p, []) == []
  {
  }

  lemma IncomingHeld(i: Input, incoming: map<string, Incoming>, archive: string)
    requires IncomingIs(i, |i.records|, incoming) && IncomingOf(i, archive).Some?
    ensures archive in incoming && incoming[archive] == IncomingOf(i, archive).value
  {
    hide Understood;
    IncomingRecord(i, |i.records|, archive);
  }

  lemma {:induction false} IncomingRecord(i: Input, n: nat, archive: string)
    requires n <= |i.records| && IncomingAmong(i, n, archive).Some?
    ensures exists r :: 0 <= r < n && i.records[r].archive.identifier == archive
  {
    hide Understood;
    if i.records[n - 1].archive.identifier != archive { IncomingRecord(i, n - 1, archive); }
  }

  lemma BreaksNone(action: ReviewedAction, relation: string, p: nat, groups: seq<seq<Witness>>)
    ensures BreaksEmissions(action, relation, p, groups[..0]) == []
  {
  }

  lemma SiblingNone(i: Input, action: ReviewedAction, incoming: Package, p: nat, cs: seq<Package>)
    ensures SiblingEmissions(i, action, incoming, p, cs[..0]) == []
  {
  }

  lemma GroupAddable(i: Input, action: ReviewedAction, relation: string, p: nat, groups: seq<seq<Witness>>, g: nat)
    requires p <= |i.review.actions| && g < |groups| && AllAddable(i, BreaksEmissions(action, relation, p, groups), p)
    ensures AllAddable(i, GroupEmissions(action, relation, p, groups[g]), p)
  {
    hide Addable, BreaksEmissions;
    forall k | 0 <= k < |groups[g]|
      ensures Addable(i, GroupEmissions(action, relation, p, groups[g])[k].target, p)
    {
      BreaksContains(action, relation, p, groups, g, k);
    }
  }

  lemma LedgerNone(i: Input)
    ensures Ledger(i, [], map[], map[])
  {
  }

  lemma NoneUsed()
    ensures forall id :: !ArchiveUsed([], id)
  {
  }

  lemma UsedNext(actions: seq<ReviewedAction>, p: nat)
    requires p < |actions|
    ensures forall id :: ArchiveUsed(actions[..p + 1], id) <==>
              ArchiveUsed(actions[..p], id) || (actions[p].action == Unpack && actions[p].archive == id)
  {
    var all, front := actions[..p + 1], actions[..p];
    assert all[p] == actions[p] && forall q :: 0 <= q < p ==> all[q] == front[q];
    forall id
      ensures ArchiveUsed(all, id) <==> ArchiveUsed(front, id) || (actions[p].action == Unpack && actions[p].archive == id)
    {
      if ArchiveUsed(front, id) {
        var q :| 0 <= q < p && front[q].action == Unpack && front[q].archive == id;
        assert all[q].archive == id;
      }
      if actions[p].action == Unpack && actions[p].archive == id { assert all[p].archive == id; }
      if ArchiveUsed(all, id) {
        var q :| 0 <= q < |all| && all[q].action == Unpack && all[q].archive == id;
        assert q < p ==> front[q].archive == id;
      }
    }
  }

  lemma OtherEmitsNothing(i: Input, p: nat)
    requires p < |i.review.actions| && i.review.actions[p].action != Unpack
    ensures UnpackAdmitted(i, p) && EmissionsAt(i, p) == []
  {
  }

  lemma FutureNone(i: Input)
    ensures FutureAt(i, 0) == map[]
  {
  }

  lemma InstalledHeld(i: Input, installed: map<string, Package>, k: string)
    requires Ordered(i) && InstalledAre(i, |i.order|, installed)
    ensures k in installed <==> InstalledPackage(i, k).Some?
    ensures k in installed ==> InstalledPackage(i, k) == Some(installed[k])
  {
    hide Understood;
    if InstalledPackage(i, k).Some? {
      assert k in i.order;
    }
  }

  /** An unpack is admitted exactly when both kinds of cause are. */
  lemma AddableParts(i: Input, p: nat, source: Incoming, live: seq<Package>, groups: seq<seq<Witness>>)
    requires p < |i.review.actions| && i.review.actions[p].action == Unpack
    requires IncomingOf(i, i.review.actions[p].archive) == Some(source) && live == LiveAt(i, p)
    requires BreaksMatches(i, source, live) == Some(groups)
    ensures var action := i.review.actions[p];
            var breaks := BreaksEmissions(action, source.breaks.canonical, p, groups);
            var siblings := SiblingEmissions(i, action, source.package, p, live);
            && EmissionsAt(i, p) == breaks + siblings
            && (UnpackAdmitted(i, p) <==>
                  && AllClear(groups) && (forall c :: 0 <= c < |live| ==> SiblingClear(i, source.package, live[c]))
                  && AllAddable(i, breaks, p) && AllAddable(i, siblings, p))
  {
    hide BreaksMatches, BreaksEmissions, SiblingEmissions, Addable, IncomingAmong, LiveAt, SiblingClear, ProviderClear;
    var action := i.review.actions[p];
    AddableAppend(i, BreaksEmissions(action, source.breaks.canonical, p, groups),
                  SiblingEmissions(i, action, source.package, p, live), p);
  }

  lemma AddableAppend(i: Input, xs: seq<Emission>, ys: seq<Emission>, p: nat)
    requires p <= |i.review.actions|
    ensures AllAddable(i, xs + ys, p) <==> AllAddable(i, xs, p) && AllAddable(i, ys, p)
  {
    hide Addable;
    var all := xs + ys;
    assert forall k :: 0 <= k < |xs| ==> all[k] == xs[k];
    assert forall k :: 0 <= k < |ys| ==> all[|xs| + k] == ys[k];
  }

  ghost predicate EndedAt(i: Input, es: seq<Emission>, g: string, a: Allowance) {
    exists e :: EndsAt(i.review.actions, LastCause(es, g), a.installed, e) && a.endpoint == EndpointOf(i.review.actions, a.installed, e)
  }

  predicate AllFrom(es: seq<Emission>, action: ReviewedAction, p: nat) {
    forall e :: 0 <= e < |es| ==>
      es[e].position == p && es[e].cause.unpackAction == action.identifier && es[e].cause.archive == action.archive
  }

  lemma {:induction false} BreaksFrom(action: ReviewedAction, relation: string, p: nat, groups: seq<seq<Witness>>)
    ensures AllFrom(BreaksEmissions(action, relation, p, groups), action, p)
  {
    if |groups| > 0 { BreaksFrom(action, relation, p, groups[..|groups| - 1]); }
  }

  lemma {:induction false} SiblingsFrom(i: Input, action: ReviewedAction, incoming: Package, p: nat, cs: seq<Package>)
    ensures AllFrom(SiblingEmissions(i, action, incoming, p, cs), action, p)
  {
    hide Mismatched;
    if |cs| > 0 { SiblingsFrom(i, action, incoming, p, cs[..|cs| - 1]); }
  }

  lemma EmissionsFrom(i: Input, p: nat)
    requires p < |i.review.actions|
    ensures AllFrom(EmissionsAt(i, p), i.review.actions[p], p)
    ensures |EmissionsAt(i, p)| > 0 ==> i.review.actions[p].action == Unpack
  {
    hide BreaksMatches, BreaksEmissions, SiblingEmissions, IncomingAmong, LiveAt;
    var action := i.review.actions[p];
    var incoming := IncomingOf(i, action.archive);
    if action.action == Unpack && incoming.Some? {
      var live := LiveAt(i, p);
      var groups := BreaksMatches(i, incoming.value, live);
      if groups.Some? { BreaksFrom(action, incoming.value.breaks.canonical, p, groups.value); }
      SiblingsFrom(i, action, incoming.value.package, p, live);
    }
  }

  /** Each emission belongs to the unpack at its position, and positions never decrease. */
  predicate Traced(i: Input, es: seq<Emission>, n: nat)
    requires n <= |i.review.actions|
  {
    && (forall e :: 0 <= e < |es| ==>
          && es[e].position < n
          && var action := i.review.actions[es[e].position];
          && action.action == Unpack
          && es[e].cause.unpackAction == action.identifier && es[e].cause.archive == action.archive)
    && (forall d, e :: 0 <= d < e < |es| ==> es[d].position <= es[e].position)
  }

  lemma {:induction false} EmissionsTraced(i: Input, n: nat)
    requires n <= |i.review.actions|
    ensures Traced(i, EmissionsBefore(i, n), n)
  {
    hide EmissionsAt;
    if n > 0 {
      EmissionsTraced(i, n - 1);
      EmissionsFrom(i, n - 1);
    }
  }

  lemma {:induction false} LastCauseIs(es: seq<Emission>, g: string)
    requires Named(es, g)
    ensures exists e :: 0 <= e < |es| && Generation(es[e].target) == g && es[e].position == LastCause(es, g)
  {
    hide Generation;
    var front := es[..|es| - 1];
    if Generation(es[|es| - 1].target) != g {
      var d :| 0 <= d < |es| && Generation(es[d].target) == g;
      assert front[d] == es[d];
      LastCauseIs(front, g);
      var e :| 0 <= e < |front| && Generation(front[e].target) == g && front[e].position == LastCause(front, g);
      assert es[e] == front[e];
    }
  }

  lemma LastWithin(i: Input, es: seq<Emission>, g: string)
    requires es == EmissionsOf(i) && Named(es, g)
    ensures LastCause(es, g) < |i.review.actions|
  {
    hide EmissionsBefore, LastCause, Generation;
    EmissionsTraced(i, |i.review.actions|);
    LastCauseIs(es, g);
  }

  lemma InstalledIs(i: Input, es: seq<Emission>, allowances: map<string, Allowance>, g: string)
    requires Collected(i, es, allowances) && g in allowances
    ensures exists k :: 0 <= k < |es| && Generation(es[k].target) == g && es[k].target == allowances[g].installed
  {
    hide Generation, CausesFor;
    assert Named(es, g);
    var k :| 0 <= k < |es| && Generation(es[k].target) == g;
    assert Begins(i, es[k].target, allowances[Generation(es[k].target)]);
  }

  lemma NamedAt(es: seq<Emission>, e: nat)
    requires e < |es|
    ensures Named(es, Generation(es[e].target))
  {
  }

  lemma EndedEndable(i: Input, es: seq<Emission>, allowances: map<string, Allowance>)
    requires Collected(i, es, allowances) && Ended(i, es, allowances)
    ensures Endable(i, es)
  {
    hide Generation, CausesFor, LastCause, EndsAt, EndpointOf, Key;
    forall k | 0 <= k < |es|
      ensures HasEnd(i, es, es[k].target)
    {
      NamedAt(es, k);
      var g := Generation(es[k].target);
      assert Begins(i, es[k].target, allowances[g]);
      var e :| EndsAt(i.review.actions, LastCause(es, g), allowances[g].installed, e);
    }
  }

  lemma Unendable(i: Input, es: seq<Emission>, allowances: map<string, Allowance>, g: string)
    requires Collected(i, es, allowances) && g in allowances
    requires forall e :: !EndsAt(i.review.actions, LastCause(es, g), allowances[g].installed, e)
    ensures !Endable(i, es)
  {
    hide Collected, LastCause, EndsAt, Generation;
    InstalledIs(i, es, allowances, g);
  }

  lemma CollectedNames(i: Input, es: seq<Emission>, allowances: map<string, Allowance>, g: string)
    requires Collected(i, es, allowances) && g in allowances
    ensures Named(es, g)
  {
  }

  lemma KeepsCollected(i: Input, es: seq<Emission>, allowances: map<string, Allowance>, g: string, endpoint: Endpoint)
    requires Collected(i, es, allowances) && g in allowances
    ensures Collected(i, es, allowances[g := allowances[g].(endpoint := endpoint)])
  {
    hide Generation, CausesFor, Named;
    var a := allowances[g].(endpoint := endpoint);
    forall e | 0 <= e < |es|
      ensures Generation(es[e].target) in allowances
      ensures Begins(i, es[e].target, allowances[g := a][Generation(es[e].target)])
    {
      NamedAt(es, e);
      assert Begins(i, es[e].target, allowances[Generation(es[e].target)]);
    }
  }

  /** The endpoint can only be the first action that could be one. */
  lemma EndsFirst(actions: seq<ReviewedAction>, cause: nat, target: Instance, end: nat, e: nat)
    requires cause < end < |actions| && Ends(actions[end], Key(target))
    requires forall q :: cause < q < end ==> !Ends(actions[q], Key(target))
    ensures EndsAt(actions, cause, target, e) ==> e == end
  {
    hide Expected, Ends, Paired, Key;
  }


  class Builder {
    const i: Input
    var bytes: nat
    var output: nat
    var steps: nat
    var causes: nat
    var incoming: map<string, Incoming>
    var candidates: seq<Package>
    var installed: map<string, Package>
    var counts: map<string, nat>
    var allowances: map<string, Allowance>
    var lastCause: map<string, nat>
    ghost var emissions: seq<Emission>

    constructor (i: Input)
      ensures this.i == i && incoming == map[] && candidates == [] && installed == map[] && counts == map[]
      ensures allowances == map[] && lastCause == map[] && emissions == []
    {
      this.i := i;
      bytes, output, steps, causes := 0, 0, 0, 0;
      incoming, candidates, installed, counts := map[], [], map[], map[];
      allowances, lastCause, emissions := map[], map[], [];
    }

    method Bytes(n: nat) returns (ok: bool)
      modifies `bytes
      ensures ok <==> old(bytes) + n <= MAXIMUM_BYTES
      ensures bytes == if ok then old(bytes) + n else old(bytes)
    {
      ok := bytes + n <= MAXIMUM_BYTES;
      if ok { bytes := bytes + n; }
    }

    method Output(n: nat) returns (ok: bool)
      modifies `output
      ensures ok <==> old(output) + n <= MAXIMUM_BYTES
      ensures output == if ok then old(output) + n else old(output)
    {
      ok := output + n <= MAXIMUM_BYTES;
      if ok { output := output + n; }
    }

    method Steps(n: nat) returns (ok: bool)
      modifies `steps
      ensures ok <==> old(steps) + n <= MAXIMUM_STEPS
      ensures steps == if ok then old(steps) + n else old(steps)
    {
      ok := steps + n <= MAXIMUM_STEPS;
      if ok { steps := steps + n; }
    }

    method ReadControls(c: Controls, p: Instance) returns (r: Outcome<Incoming>)
      modifies `bytes
      ensures r.Granted? ==> Understood(i, c, p) == Some(r.value)
      ensures r.Denied? ==> Understood(i, c, p).None?
    {
      hide FieldOf, PackageOf, NativeQualified;
      var names := c.Keys;
      while names != {}
        invariant names <= c.Keys
      {
        var name :| name in names;
        names := names - {name};
        var ok := Bytes(|name|);
        if !ok { return Exhausted; }
        ok := Bytes(|c[name]|);
        if !ok { return Exhausted; }
      }
      if !i.canonical(c) { return Denied; }
      var package := ParsePackage(p.package, p.version, p.architecture, At(c, "multi-arch"), At(c, FieldName(Provides)));
      if package.Err? { return Denied; }
      var breaks: Option<Field> := None;
      for k := 0 to |KINDS|
        invariant forall j :: 0 <= j < k ==> Usable(c, KINDS[j])
        invariant k > 2 ==> breaks.Some? && RelationField(c, Breaks) == Ok(breaks.value)
      {
        var field := ParseField(KINDS[k], At(c, FieldName(KINDS[k])));
        if field.Err? { return Denied; }
        var native := HasNative(field.value);
        if native { return Denied; }
        if KINDS[k] == Breaks { breaks := Some(field.value); }
      }
      assert Usable(c, KINDS[0]) && Usable(c, KINDS[1]) && Usable(c, KINDS[2]) && Usable(c, KINDS[3]) && Usable(c, KINDS[4]);
      r := Granted(Incoming(package.value, breaks.value));
    }

    method LoadRecords() returns (r: Outcome<()>)
      requires incoming == map[]
      modifies `bytes, `incoming
      ensures r.Granted? ==> RecordsAdmitted(i) && IncomingIs(i, |i.records|, incoming)
      ensures r.Denied? ==> !RecordsAdmitted(i)
    {
      hide Understood, Digest, IncomingIs;
      assert IncomingIs(i, 0, incoming) by { IncomingNone(i); }
      for n := 0 to |i.records|
        invariant forall k :: 0 <= k < n ==> RecordAdmitted(i, i.records[k])
        invariant forall j, k :: 0 <= j < k < n ==> i.records[j].archive.identifier != i.records[k].archive.identifier
        invariant IncomingIs(i, n, incoming)
        invariant forall id :: id in incoming <==> exists k :: 0 <= k < n && i.records[k].archive.identifier == id
      {
        var record := i.records[n];
        if record.archive !in i.review.archives || !Digest(record.evidenceIdentity) {
          assert !RecordAdmitted(i, record);
          return Denied;
        }
        var controls := ReadControls(record.controls, record.archive.package);
        if controls.Exhausted? { return Exhausted; }
        if controls.Denied? {
          assert !RecordAdmitted(i, record);
          return Denied;
        }
        if record.archive.identifier in incoming { return Denied; }
        IncomingNext(i, n, incoming, controls.value);
        incoming := incoming[record.archive.identifier := controls.value];
      }
      r := Granted(());
    }

    method LoadRows() returns (r: Outcome<()>)
      requires candidates == [] && installed == map[] && counts == map[] && Ordered(i)
      modifies `bytes, `candidates, `installed, `counts
      ensures r.Granted? ==> RowsAdmitted(i) && candidates == CandidatesOf(i)
      ensures r.Granted? ==> CountsAre(i, |i.order|, counts) && InstalledAre(i, |i.order|, installed)
      ensures r.Denied? ==> !RowsAdmitted(i)
    {
      hide InstalledPackage, RowAdmitted, CountsAre, InstalledAre, Counted;
      LoadNone(i);
      for n := 0 to |i.order|
        invariant forall k :: 0 <= k < n && i.order[k] in i.checkpoint.state.packages ==> RowAdmitted(i, i.order[k])
        invariant CountsAre(i, n, counts) && InstalledAre(i, n, installed)
        invariant candidates == CandidatesAmong(i, n)
      {
        var k := i.order[n];
        NotInstalledAbsent(i, k);
        InstalledNext(i, n, installed);
        ghost var before := counts;
        if k !in i.checkpoint.state.packages {
          CountsNext(i, n, before, counts, None);
          continue;
        }
        var row := i.checkpoint.state.packages[k];
        CountRow(row);
        CountsNext(i, n, before, counts, Some(row));
        var package := LoadRow(k);
        if package.Exhausted? { return Exhausted; }
        if package.Denied? { return Denied; }
        if package.value.Some? {
          installed := installed[k := package.value.value];
          if Configured(row.status) { candidates := candidates + [package.value.value]; }
        }
      }
      r := Granted(());
    }

    method CountRow(row: Record)
      modifies `counts
      ensures Counted(old(counts), counts, row)
    {
      var name := row.package.package;
      if row.status != NotInstalled { counts := counts[name := (if name in counts then counts[name] else 0) + 1]; }
    }

    /** A row that names only a reference is no package; any other needs its metadata. */
    method LoadRow(k: string) returns (r: Outcome<Option<Package>>)
      requires k in i.checkpoint.state.packages
      modifies `bytes
      ensures r.Granted? ==> RowAdmitted(i, k) && r.value == InstalledPackage(i, k)
      ensures r.Denied? ==> !RowAdmitted(i, k)
    {
      hide Understood, Digest;
      var row := i.checkpoint.state.packages[k];
      if |row.package.version| == 0 { return Granted(None); }
      if k !in i.checkpoint.metadata || i.checkpoint.metadata[k].package != row.package
         || !Digest(i.checkpoint.metadata[k].evidenceIdentity) { return Denied; }
      var controls := ReadControls(i.checkpoint.metadata[k].controls, row.package);
      if controls.Exhausted? { return Exhausted; }
      if controls.Denied? { return Denied; }
      r := Granted(Some(controls.value.package));
    }

    // -------------------------------------------------------------------------------------------
    // Causes

    ghost predicate Loaded()
      reads `incoming, `candidates, `counts, `installed
    {
      && InputAdmitted(i) && Ordered(i)
      && IncomingIs(i, |i.records|, incoming) && candidates == CandidatesOf(i)
      && CountsAre(i, |i.order|, counts) && InstalledAre(i, |i.order|, installed)
    }

    method SingleSlot(source: Package, c: Package) returns (ok: bool)
      requires CountsAre(i, |i.order|, counts)
      ensures ok <==> SingleReplacement(i, source, c)
    {
      hide InstancesAmong, IsAll;
      var native := i.checkpoint.state.native;
      if !((IsAll(source.architecture) && c.architecture == native) || (IsAll(c.architecture) && source.architecture == native)) {
        return false;
      }
      var instances := if source.name in counts then counts[source.name] else 0;
      ok := instances <= 1 && (source.multiArch != Same || c.multiArch != Same);
    }

    method IncomingAt(p: nat) returns (record: Incoming)
      requires Loaded() && p < |i.review.actions| && i.review.actions[p].action == Unpack
      ensures IncomingOf(i, i.review.actions[p].archive) == Some(record)
      ensures ValidPackage(record.package) && ValidField(record.breaks) && record.breaks.kind == Breaks
    {
      hide InputAdmitted, IncomingAmong, ValidPackage, ValidField, CountsAre, InstalledAre, CandidatesOf, Ordered;
      UnpackHasRecord(i, p);
      IncomingValid(i, |i.records|, i.review.actions[p].archive);
      IncomingHeld(i, incoming, i.review.actions[p].archive);
      record := incoming[i.review.actions[p].archive];
    }

    method StillInitial(p: nat, c: Package) returns (r: Outcome<bool>)
      requires Loaded() && p <= |i.review.actions|
      modifies `steps
      ensures !r.Denied? && (r.Granted? ==> (r.value <==> Initial(i, p, c)))
    {
      hide InputAdmitted, CountsAre, InstalledAre, CandidatesOf, Ordered, IncomingIs, SingleReplacement, IncomingAmong;
      var initial := true;
      for b := 0 to p
        invariant Loaded()
        invariant initial <==> forall a :: 0 <= a < b ==> !Supersedes(i, i.review.actions[a], c)
      {
        var ok := Steps(1);
        if !ok { return Exhausted; }
        var prior := i.review.actions[b];
        var exact := prior.package.package == c.name && prior.package.architecture == c.architecture;
        var cross := false;
        if prior.action == Unpack && prior.package.package == c.name {
          var record := IncomingAt(b);
          cross := SingleSlot(record.package, c);
        }
        if (exact && (prior.action == Unpack || prior.action == Remove || prior.action == ActionKind.Purge)) || cross {
          initial := false;
        }
      }
      r := Granted(initial);
    }

    method Live(p: nat) returns (r: Outcome<seq<Package>>)
      requires Loaded() && p <= |i.review.actions|
      modifies `steps
      ensures !r.Denied? && (r.Granted? ==> r.value == LiveAt(i, p))
    {
      hide InputAdmitted, CountsAre, InstalledAre, CandidatesAmong, Ordered, IncomingIs, Initial, LiveAmong;
      var live: seq<Package> := [];
      assert candidates[..0] == [];
      LiveNone(i, p);
      for c := 0 to |candidates|
        invariant Loaded()
        invariant live == LiveAmong(i, p, candidates[..c])
      {
        var initial := StillInitial(p, candidates[c]);
        if initial.Exhausted? { return Exhausted; }
        LiveNext(i, p, candidates, c);
        if initial.value { live := live + [candidates[c]]; }
      }
      assert candidates[..|candidates|] == candidates;
      r := Granted(live);
    }

    /** Reserves the steps the matcher could take, then evaluates the Breaks field. */
    method EvaluateBreaks(source: Incoming, cs: seq<Package>) returns (r: Outcome<Evaluation>)
      requires ValidPackage(source.package) && ValidField(source.breaks) && AllValid(cs)
      modifies `steps
      ensures r.Granted? ==> BreaksMatches(i, source, cs) == Some(r.value.groups)
                             && r.value.anyGroupMatched == AnyMatched(r.value.groups)
      ensures r.Denied? ==> BreaksMatches(i, source, cs).None?
    {
      hide ValidPackage, ValidField, RunGroups, Admission;
      var width: nat := 0;
      for c := 0 to |cs|
      {
        if cs[c].declared.atomCount + width >= MAXIMUM_STEPS { return Exhausted; }
        width := width + 1 + cs[c].declared.atomCount;
      }
      if source.breaks.atomCount > 0 && steps <= MAXIMUM_STEPS && width > (MAXIMUM_STEPS - steps) / source.breaks.atomCount {
        return Exhausted;
      }
      Product(width, source.breaks.atomCount);
      var ok := Steps(width * source.breaks.atomCount);
      if !ok { return Exhausted; }
      QueryValid(i, source, cs);
      var matches := RelationshipMatching.Evaluate(QueryAt(i, source, cs));
      if matches.Err? { return Denied; }
      r := Granted(matches.value);
    }

    /** Charges for the cause, then files it under its target's generation. */
    method Add(target: Instance, cause: Cause, p: nat) returns (r: Outcome<()>)
      requires p <= |i.review.actions| && PackageValid(target)
      requires Ledger(i, emissions, allowances, lastCause)
      modifies `steps, `output, `causes, `allowances, `lastCause, `emissions
      ensures r.Granted? ==> Addable(i, target, p) && emissions == old(emissions) + [Emission(target, cause, p)]
      ensures r.Granted? ==> Ledger(i, emissions, allowances, lastCause)
      ensures r.Denied? ==> !Addable(i, target, p)
    {
      hide PackageValid, Ledger, Generation, Unpacks, Key;
      var ok := Steps(1);
      causes := causes + 1;
      if !ok || causes > MAXIMUM_CAUSES { return Exhausted; }
      var k := Key(target);
      if k !in i.checkpoint.state.packages || k !in i.checkpoint.metadata { return Denied; }
      var row, metadata := i.checkpoint.state.packages[k], i.checkpoint.metadata[k];
      if row.package != target || row.reinstallRequired || !Configured(row.status) || !Configured(metadata.diskStatus) {
        return Denied;
      }
      for b := 0 to p
        modifies `steps
        invariant forall a :: 0 <= a < b ==> !Unpacks(i.review.actions[a], k)
      {
        ok := Steps(1);
        if !ok { return Exhausted; }
        if Unpacks(i.review.actions[b], k) { return Denied; }
      }
      ok := Output(CAUSE_SIZE + |cause.archive| + |cause.canonicalRelation| + |cause.comparedVersion|);
      if !ok { return Exhausted; }
      var generation := Generation(target);
      var allowance;
      if generation in allowances {
        allowance := allowances[generation].(causes := allowances[generation].causes + [cause]);
      } else {
        ok := Output(ALLOWANCE_SIZE + 2 * |generation| + |target.package| + |target.version| + |target.architecture|
                     + |metadata.configVersion| + |metadata.evidenceIdentity| + 64);
        if !ok { return Exhausted; }
        allowance := Allowance(target, row.selection, row.status, metadata.diskStatus, metadata.configVersion,
                               metadata.evidenceIdentity, "", [cause], Endpoint(0, 0, Configure, Instance("", "", "")));
      }
      LedgerNext(i, emissions, allowances, lastCause, Emission(target, cause, p), allowance);
      allowances := allowances[generation := allowance];
      lastCause := lastCause[generation := p];
      emissions := emissions + [Emission(target, cause, p)];
      r := Granted(());
    }

    method AddGroup(action: ReviewedAction, relation: string, p: nat, ws: seq<Witness>) returns (r: Outcome<()>)
      requires p <= |i.review.actions| && Ledger(i, emissions, allowances, lastCause) && WitnessesValid([ws])
      modifies `steps, `output, `causes, `allowances, `lastCause, `emissions
      ensures var es := GroupEmissions(action, relation, p, ws);
              && (r.Granted? ==>
                    && ProviderClear(ws) && AllAddable(i, es, p)
                    && emissions == old(emissions) + es && Ledger(i, emissions, allowances, lastCause))
              && (r.Denied? ==> !ProviderClear(ws) || !AllAddable(i, es, p))
    {
      hide PackageValid, Ledger, Addable;
      ghost var es := GroupEmissions(action, relation, p, ws);
      assert forall k :: 0 <= k < |ws| ==> [ws][0][k] == ws[k];
      var provider := false;
      for k := 0 to |ws|
        modifies {}
        invariant provider <==> exists j :: 0 <= j < k && ws[j].provide.Provided?
      {
        provider := provider || ws[k].provide.Provided?;
      }
      if provider && |ws| != 1 { return Denied; }
      for k := 0 to |ws|
        invariant Ledger(i, emissions, allowances, lastCause)
        invariant emissions == old(emissions) + es[..k]
        invariant AllAddable(i, es[..k], p)
      {
        var e := BreaksEmission(action, relation, p, ws[k]);
        assert es[k] == e && es[..k + 1] == es[..k] + [e];
        r := Add(e.target, e.cause, p);
        if !r.Granted? { return; }
      }
      assert es[..|ws|] == es;
      r := Granted(());
    }

    method AddMatches(action: ReviewedAction, relation: string, p: nat, groups: seq<seq<Witness>>) returns (r: Outcome<()>)
      requires p <= |i.review.actions| && Ledger(i, emissions, allowances, lastCause) && WitnessesValid(groups)
      modifies `steps, `output, `causes, `allowances, `lastCause, `emissions
      ensures var es := BreaksEmissions(action, relation, p, groups);
              && (r.Granted? ==>
                    && AllClear(groups) && AllAddable(i, es, p)
                    && emissions == old(emissions) + es && Ledger(i, emissions, allowances, lastCause))
              && (r.Denied? ==> !AllClear(groups) || !AllAddable(i, es, p))
    {
      hide PackageValid, Ledger, Addable, GroupEmissions, BreaksEmissions, ProviderClear;
      ghost var es := BreaksEmissions(action, relation, p, groups);
      BreaksNone(action, relation, p, groups);
      for g := 0 to |groups|
        invariant Ledger(i, emissions, allowances, lastCause)
        invariant emissions == old(emissions) + BreaksEmissions(action, relation, p, groups[..g])
        invariant AllAddable(i, BreaksEmissions(action, relation, p, groups[..g]), p)
        invariant forall h :: 0 <= h < g ==> ProviderClear(groups[h])
      {
        assert WitnessesValid([groups[g]]);
        BreaksNext(action, relation, p, groups, g);
        r := AddGroup(action, relation, p, groups[g]);
        if !r.Granted? {
          if r.Denied? && AllAddable(i, es, p) { GroupAddable(i, action, relation, p, groups, g); }
          return;
        }
      }
      assert groups[..|groups|] == groups;
      r := Granted(());
    }

    /** Whether a coinstalled architecture of the incoming package is left at another version. */
    method JudgeSibling(source: Package, c: Package) returns (r: Outcome<bool>)
      requires CountsAre(i, |i.order|, counts)
      modifies `steps
      ensures r.Granted? ==> SiblingClear(i, source, c) && (r.value <==> Mismatched(i, source, c))
      ensures r.Denied? ==> !SiblingClear(i, source, c)
    {
      hide SingleReplacement, CountsAre;
      var ok := Steps(1);
      if !ok { return Exhausted; }
      if c.name != source.name || c.architecture == source.architecture { return Granted(false); }
      var single := SingleSlot(source, c);
      if single { return Granted(false); }
      if c.multiArch != Same || source.multiArch != Same { return Denied; }
      var order := VersionOrder(i, c, source);
      if order.None? { return Denied; }
      r := Granted(order.value != 0);
    }

    method AddSiblings(action: ReviewedAction, source: Package, p: nat, cs: seq<Package>) returns (r: Outcome<()>)
      requires p <= |i.review.actions| && Ledger(i, emissions, allowances, lastCause) && AllValid(cs)
      requires CountsAre(i, |i.order|, counts)
      modifies `steps, `output, `causes, `allowances, `lastCause, `emissions
      ensures var es := SiblingEmissions(i, action, source, p, cs);
              && (r.Granted? ==>
                    && (forall c :: 0 <= c < |cs| ==> SiblingClear(i, source, cs[c])) && AllAddable(i, es, p)
                    && emissions == old(emissions) + es && Ledger(i, emissions, allowances, lastCause))
              && (r.Denied? ==> (exists c :: 0 <= c < |cs| && !SiblingClear(i, source, cs[c])) || !AllAddable(i, es, p))
    {
      hide Ledger, Addable, SiblingEmissions, SiblingClear, Mismatched, CountsAre, ValidField, Version, Name, ConcreteArchitecture;
      ghost var es := SiblingEmissions(i, action, source, p, cs);
      SiblingNone(i, action, source, p, cs);
      for c := 0 to |cs|
        invariant Ledger(i, emissions, allowances, lastCause)
        invariant emissions == old(emissions) + SiblingEmissions(i, action, source, p, cs[..c])
        invariant AllAddable(i, SiblingEmissions(i, action, source, p, cs[..c]), p)
        invariant forall d :: 0 <= d < c ==> SiblingClear(i, source, cs[d])
      {
        SiblingNext(i, action, source, p, cs, c);
        var mismatched := JudgeSibling(source, cs[c]);
        if mismatched.Exhausted? { return Exhausted; }
        if mismatched.Denied? { return Denied; }
        if !mismatched.value { continue; }
        assert PackageValid(InstanceOf(cs[c]));
        var e := SiblingEmission(action, p, cs[c]);
        r := Add(e.target, e.cause, p);
        if !r.Granted? {
          if r.Denied? {
            SiblingContains(i, action, source, p, cs, c);
            assert !AllAddable(i, es, p);
          }
          return;
        }
      }
      assert cs[..|cs|] == cs;
      r := Granted(());
    }

    method ProcessUnpack(p: nat) returns (r: Outcome<()>)
      requires Loaded() && p < |i.review.actions| && i.review.actions[p].action == Unpack
      requires Ledger(i, emissions, allowances, lastCause)
      modifies `steps, `output, `causes, `allowances, `lastCause, `emissions
      ensures r.Granted? ==> UnpackAdmitted(i, p) && emissions == old(emissions) + EmissionsAt(i, p)
      ensures r.Granted? ==> Ledger(i, emissions, allowances, lastCause)
      ensures r.Denied? ==> !UnpackAdmitted(i, p)
    {
      hide Ledger, BreaksMatches, BreaksEmissions, SiblingEmissions, Addable, IncomingAmong, ValidPackage, ValidField, CandidatesAmong,
           LiveAmong, SiblingClear, ProviderClear, CountsAre, InputAdmitted, Ordered, IncomingIs, InstalledAre;
      var action := i.review.actions[p];
      var source := IncomingAt(p);
      var live := Live(p);
      if live.Exhausted? { return Exhausted; }
      CandidatesValid(i, |i.order|);
      LiveValid(i, p, CandidatesOf(i));
      var matches := EvaluateBreaks(source, live.value);
      if matches.Exhausted? { return Exhausted; }
      if matches.Denied? { return Denied; }
      MatchesValid(i, source, live.value);
      r := AddMatches(action, source.breaks.canonical, p, matches.value.groups);
      if r.Exhausted? { return; }
      if r.Denied? {
        AddableParts(i, p, source, live.value, matches.value.groups);
        return;
      }
      r := AddSiblings(action, source.package, p, live.value);
      AddableParts(i, p, source, live.value, matches.value.groups);
    }

    method ProcessUnpacks() returns (r: Outcome<()>)
      requires Loaded() && emissions == [] && allowances == map[] && lastCause == map[]
      modifies `steps, `output, `causes, `allowances, `lastCause, `emissions
      ensures r.Granted? ==> (forall p :: 0 <= p < |i.review.actions| ==> UnpackAdmitted(i, p)) && ArchivesUsed(i.review)
      ensures r.Granted? ==> emissions == EmissionsOf(i) && Ledger(i, emissions, allowances, lastCause)
      ensures r.Denied? ==> !((forall p :: 0 <= p < |i.review.actions| ==> UnpackAdmitted(i, p)) && ArchivesUsed(i.review))
    {
      hide ArchiveUsed, Ledger, UnpackAdmitted, EmissionsAt, CountsAre, InputAdmitted, Ordered, IncomingIs, InstalledAre, CandidatesOf;
      LedgerNone(i);
      NoneUsed();
      assert i.review.actions[..0] == [];
      var used: set<string> := {};
      for p := 0 to |i.review.actions|
        invariant Loaded() && Ledger(i, emissions, allowances, lastCause)
        invariant emissions == EmissionsBefore(i, p)
        invariant forall q :: 0 <= q < p ==> UnpackAdmitted(i, q)
        invariant forall id :: id in used <==> ArchiveUsed(i.review.actions[..p], id)
      {
        UsedNext(i.review.actions, p);
        var action := i.review.actions[p];
        if action.action != Unpack {
          OtherEmitsNothing(i, p);
          continue;
        }
        used := used + {action.archive};
        r := ProcessUnpack(p);
        if !r.Granted? { return; }
      }
      assert i.review.actions[..|i.review.actions|] == i.review.actions;
      for a := 0 to |i.review.archives|
        modifies {}
        invariant forall b :: 0 <= b < a ==> i.review.archives[b].identifier in used
      {
        if i.review.archives[a].identifier !in used { return Denied; }
      }
      r := Granted(());
    }

    // -------------------------------------------------------------------------------------------
    // Future generations

    method FindUnpack(n: nat, key: string) returns (r: Outcome<nat>)
      requires n <= |i.review.actions|
      modifies `steps
      ensures !r.Denied? && (r.Granted? ==> r.value == LastUnpack(i.review.actions, n, key))
    {
      hide Unpacks;
      var u: nat := n;
      while u > 0
        invariant u <= n
        invariant LastUnpack(i.review.actions, n, key) ==
                  if LastUnpack(i.review.actions, u, key) == u then n else LastUnpack(i.review.actions, u, key)
      {
        var ok := Steps(1);
        if !ok { return Exhausted; }
        if Unpacks(i.review.actions[u - 1], key) { return Granted(u - 1); }
        u := u - 1;
      }
      r := Granted(n);
    }

    method Configured'(q: nat, before: map<string, Package>) returns (r: Outcome<map<string, Package>>)
      requires Loaded() && q < |i.review.actions| && before == FutureAt(i, q)
      modifies `steps
      ensures !r.Denied? && (r.Granted? ==> r.value == FutureAt(i, q + 1))
    {
      hide LastUnpack, IncomingAmong, InstalledPackage, CountsAre, InputAdmitted, Ordered, IncomingIs, InstalledAre, CandidatesOf, Key;
      var prior := i.review.actions[q];
      var k := Key(prior.package);
      var future := before;
      if prior.action == Unpack || prior.action == Remove || prior.action == ActionKind.Purge { future := future - {k}; }
      if prior.action != Configure { return Granted(future); }
      var found := FindUnpack(q, k);
      if found.Exhausted? { return Exhausted; }
      var u := found.value;
      if u < q {
        var record := IncomingAt(u);
        if i.review.actions[u].package == prior.package { future := future[k := record.package]; }
      } else {
        InstalledHeld(i, installed, k);
        if k in installed && installed[k].version == prior.package.version { future := future[k := installed[k]]; }
      }
      r := Granted(future);
    }

    method Future(p: nat) returns (r: Outcome<seq<Package>>)
      requires Loaded() && p <= |i.review.actions|
      modifies `steps
      ensures !r.Denied? && (r.Granted? ==> r.value == ValuesAmong(i.order, FutureAt(i, p)))
    {
      hide CountsAre, InputAdmitted, Ordered, IncomingIs, InstalledAre, CandidatesOf;
      var future: map<string, Package> := map[];
      FutureNone(i);
      hide FutureAt;
      for q := 0 to p
        invariant Loaded() && future == FutureAt(i, q)
      {
        var ok := Steps(1);
        if !ok { return Exhausted; }
        var next := Configured'(q, future);
        if next.Exhausted? { return Exhausted; }
        future := next.value;
      }
      var values: seq<Package> := [];
      for n := 0 to |i.order|
        modifies {}
        invariant values == ValuesAmong(i.order[..n], future)
      {
        assert i.order[..n + 1][..n] == i.order[..n];
        if i.order[n] in future { values := values + [future[i.order[n]]]; }
      }
      assert i.order[..|i.order|] == i.order;
      r := Granted(values);
    }

    method CheckFuture(p: nat) returns (r: Outcome<()>)
      requires Loaded() && p < |i.review.actions|
      modifies `steps
      ensures r.Granted? ==> FutureClear(i, p)
      ensures r.Denied? ==> !FutureClear(i, p)
    {
      hide FutureAt, ValuesAmong, BreaksMatches, IncomingAmong, ValidPackage, ValidField, CandidatesOf,
           CountsAre, InputAdmitted, Ordered, IncomingIs, InstalledAre, AnyMatched, SingleReplacement;
      if i.review.actions[p].action != Unpack { return Granted(()); }
      var values := Future(p);
      if values.Exhausted? { return Exhausted; }
      var source := IncomingAt(p);
      FutureValid(i, p);
      ValuesValid(i.order, FutureAt(i, p));
      var matches := EvaluateBreaks(source, values.value);
      if matches.Exhausted? { return Exhausted; }
      if matches.Denied? || matches.value.anyGroupMatched { return Denied; }
      for c := 0 to |values.value|
        modifies `steps
        invariant forall d :: 0 <= d < c ==>
                    SiblingClear(i, source.package, values.value[d]) && !Mismatched(i, source.package, values.value[d])
      {
        var mismatched := JudgeSibling(source.package, values.value[c]);
        if mismatched.Exhausted? { return Exhausted; }
        if mismatched.Denied? || mismatched.value { return Denied; }
      }
      r := Granted(());
    }

    method CheckFutures() returns (r: Outcome<()>)
      requires Loaded()
      modifies `steps
      ensures r.Granted? ==> forall p :: 0 <= p < |i.review.actions| ==> FutureClear(i, p)
      ensures r.Denied? ==> exists p :: 0 <= p < |i.review.actions| && !FutureClear(i, p)
    {
      hide FutureClear, CountsAre, InputAdmitted, Ordered, IncomingIs, InstalledAre, CandidatesOf;
      for p := 0 to |i.review.actions|
        invariant Loaded() && forall q :: 0 <= q < p ==> FutureClear(i, q)
      {
        r := CheckFuture(p);
        if !r.Granted? { return; }
      }
      r := Granted(());
    }

    // -------------------------------------------------------------------------------------------
    // Endpoints

    method ExpectedAt(p: nat, target: Instance) returns (r: Outcome<Instance>)
      requires p <= |i.review.actions|
      modifies `steps
      ensures !r.Denied? && (r.Granted? ==> r.value == Expected(i.review.actions, p, target))
    {
      var u := FindUnpack(p, Key(target));
      if u.Exhausted? { return Exhausted; }
      r := Granted(if u.value < p then i.review.actions[u.value].package else target);
    }

    method FindEndpoint(cause: nat, target: Instance) returns (r: Outcome<Endpoint>)
      requires cause < |i.review.actions|
      modifies `steps, `output
      ensures r.Granted? ==> exists e :: EndsAt(i.review.actions, cause, target, e)
                                         && r.value == EndpointOf(i.review.actions, target, e)
      ensures r.Denied? ==> forall e :: !EndsAt(i.review.actions, cause, target, e)
    {
      hide Expected, Ends, Paired, Key;
      var actions, key := i.review.actions, Key(target);
      var found, paired := false, false;
      var end: nat := 0;
      for p := cause + 1 to |actions|
        invariant !found ==> forall q :: cause < q < p ==> !Ends(actions[q], key)
        invariant found ==> cause < end < p && Ends(actions[end], key)
        invariant found ==> forall q :: cause < q < end ==> !Ends(actions[q], key)
        invariant forall q :: cause < q < p && Ends(actions[q], key) ==> actions[q].package == Expected(actions, q, target)
        invariant found ==> forall q :: end < q < p && Ends(actions[q], key) ==> paired && Paired(actions, end, q)
        invariant found && paired ==> exists q :: end < q < p && Ends(actions[q], key)
        invariant found ==> forall q, s :: end < q < s < p ==> !(Ends(actions[q], key) && Ends(actions[s], key))
        invariant !found ==> !paired
      {
        var ok := Steps(1);
        if !ok { return Exhausted; }
        if !Ends(actions[p], key) { continue; }
        var expected := ExpectedAt(p, target);
        if expected.Exhausted? { return Exhausted; }
        if actions[p].package != expected.value { return Denied; }
        if found {
          if !paired && Paired(actions, end, p) {
            paired := true;
            continue;
          }
          forall e
            ensures !EndsAt(actions, cause, target, e)
          {
            EndsFirst(actions, cause, target, end, e);
          }
          return Denied;
        }
        ok := Output(ENDPOINT_SIZE + |actions[p].package.package| + |actions[p].package.version| + |actions[p].package.architecture|);
        if !ok { return Exhausted; }
        end, found := p, true;
      }
      if !found { return Denied; }
      assert EndsAt(actions, cause, target, end);
      r := Granted(EndpointOf(actions, target, end));
    }

    method FindEndpoints() returns (r: Outcome<()>)
      requires Ledger(i, emissions, allowances, lastCause) && emissions == EmissionsOf(i)
      modifies `steps, `output, `allowances
      ensures r.Granted? ==> Collected(i, emissions, allowances) && Ended(i, emissions, allowances)
      ensures r.Denied? ==> !Endable(i, emissions)
    {
      hide Collected, Named, Endable, EndsAt, LastCause, Generation, EmissionsBefore, EndpointOf;
      var keys := allowances.Keys;
      while keys != {}
        invariant keys <= allowances.Keys && Collected(i, emissions, allowances)
        invariant forall g :: g in lastCause <==> g in allowances
        invariant forall g :: g in allowances && g !in keys ==> EndedAt(i, emissions, g, allowances[g])
      {
        var g :| g in keys;
        keys := keys - {g};
        CollectedNames(i, emissions, allowances, g);
        LastWithin(i, emissions, g);
        var endpoint := FindEndpoint(lastCause[g], allowances[g].installed);
        if endpoint.Exhausted? { return Exhausted; }
        if endpoint.Denied? {
          Unendable(i, emissions, allowances, g);
          return Denied;
        }
        KeepsCollected(i, emissions, allowances, g, endpoint.value);
        allowances := allowances[g := allowances[g].(endpoint := endpoint.value)];
      }
      r := Granted(());
    }

    /** The whole derivation. */
    method Derive() returns (r: Outcome<map<string, Allowance>>)
      requires Ordered(i) && incoming == map[] && candidates == [] && installed == map[] && counts == map[]
      requires allowances == map[] && lastCause == map[] && emissions == []
      modifies this
      ensures r.Granted? ==> Derivable(i) && Collected(i, EmissionsOf(i), r.value) && Ended(i, EmissionsOf(i), r.value)
      ensures r.Denied? ==> !Derivable(i)
    {
      hide ArchivesDistinct, ActionsAdmitted, RecordsAdmitted, RowsAdmitted, UnpackAdmitted, FutureClear, ArchivesUsed,
           EmissionsOf, Endable, Collected, Ended, Ordered, IncomingIs, CountsAre, InstalledAre, CandidatesOf, Digest;
      if !Admitted(i) { return Denied; }
      var ok := CheckArchives(i.review.archives);
      if !ok { return Denied; }
      ok := CheckActions(i.review);
      if !ok { return Denied; }
      var done := LoadRecords();
      if done.Exhausted? { return Exhausted; }
      if done.Denied? { return Denied; }
      done := LoadRows();
      if done.Exhausted? { return Exhausted; }
      if done.Denied? { return Denied; }
      done := ProcessUnpacks();
      if done.Exhausted? { return Exhausted; }
      if done.Denied? { return Denied; }
      done := CheckFutures();
      if done.Exhausted? { return Exhausted; }
      if done.Denied? { return Denied; }
      done := FindEndpoints();
      if done.Exhausted? { return Exhausted; }
      if done.Denied? { return Denied; }
      EndedEndable(i, EmissionsOf(i), allowances);
      r := Granted(allowances);
    }
  }
}
