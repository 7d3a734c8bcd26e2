/**
 * Evaluation in terms of the packages themselves: what a name, a Multi-Arch value, a use and a
 * relation contribute to a match, written out case by case and apart from the matcher's own steps.
 */
module MatchingMeaning {
  import opened Text
  import opened BinaryRelationships
  import opened RelationshipGrammar
  import opened RelationshipCanonical
  import opened RelationshipMatching
  import opened RelationshipWitnesses

  // ---------------------------------------------------------------------------------------------
  // What makes one tuple match

  /** The comparator puts `version` in the relation to the atom's version. */
  ghost predicate InRelation(compare: Comparator, atom: Atom, version: string) {
    || atom.relation.NoRelation?
    || (version != "" && compare.Some? && compare.value(version, atom.version).Compared?
        && var o := compare.value(version, atom.version).ordering;
           || (atom.relation.Less? && o < 0) || (atom.relation.LessEqual? && (o < 0 || o == 0))
           || (atom.relation.Equal? && o == 0)
           || (atom.relation.GreaterEqual? && (o > 0 || o == 0)) || (atom.relation.Greater? && o > 0))
  }

  /** The architecture behind a name: `all` stands for the native one. */
  ghost function Real(native: string, architecture: string): string {
    if architecture == "all" then native else architecture
  }

  ghost predicate Removing(kind: Kind) {
    kind.Breaks? || kind.Conflicts? || kind.Replaces?
  }

  /** Unqualified atoms reach Multi-Arch: foreign packages, and everything when they remove. */
  ghost predicate ArchitectureFits(q: Query, atom: Atom, candidate: Package, architecture: string) {
    || (atom.qualifier.Implicit? && (candidate.multiArch.Foreign? || Removing(q.field.kind)
                                     || Real(q.native, q.source.architecture) == Real(q.native, architecture)))
    || (!atom.qualifier.Implicit? && atom.architecture == "any" && (candidate.multiArch.Allowed? || Removing(q.field.kind)))
    || (!atom.qualifier.Implicit? && Real(q.native, atom.architecture) == Real(q.native, architecture))
  }

  /** Breaks and Conflicts spare the package's own name while unpacking, its own instance while configuring. */
  ghost predicate Own(q: Query, candidate: Package) {
    && (q.field.kind.Breaks? || q.field.kind.Conflicts?) && candidate.name == q.source.name
    && (q.use.UnpackChecks? || candidate.architecture == q.source.architecture)
  }

  ghost function AtomOf(q: Query, p: Probe): Atom
    requires ValidProbe(q, p)
  {
    q.field.groups[p.group][p.alternative]
  }

  /** The declaration a tuple looks at. */
  ghost function DeclaredBy(q: Query, p: Probe): Atom
    requires ValidQuery(q) && ValidProbe(q, p) && p.provide.Provided?
  {
    DeclarationsNonempty(q.candidates[p.candidate], p.provide.index);
    q.candidates[p.candidate].declared.groups[p.provide.index][0]
  }

  ghost predicate Named(q: Query, p: Probe)
    requires ValidQuery(q) && ValidProbe(q, p)
  {
    AtomOf(q, p).package == if p.provide.Direct? then q.candidates[p.candidate].name else DeclaredBy(q, p).package
  }

  /** Name, self exclusion and architecture agree; a Provides has an architecture only when configuring. */
  ghost predicate Placed(q: Query, p: Probe)
    requires ValidQuery(q) && ValidProbe(q, p)
  {
    var atom, candidate := AtomOf(q, p), q.candidates[p.candidate];
    && Named(q, p) && !Own(q, candidate)
    && match p.provide
       case Direct => ArchitectureFits(q, atom, candidate, candidate.architecture)
       case Provided(_) =>
         var d := DeclaredBy(q, p);
         && !d.qualifier.Native?
         && (q.use.ConfigureChecks? ==>
               ArchitectureFits(q, atom, candidate,
                                if q.field.kind.Breaks? || d.qualifier.Implicit? then candidate.architecture else d.architecture))
  }

  /** A Breaks on a provider is about the provider's own version, too, when configuring. */
  ghost predicate OwnVersionAsked(q: Query, p: Probe) {
    p.provide.Provided? && q.use.ConfigureChecks? && q.field.kind.Breaks?
  }

  ghost function VersionAsked(q: Query, p: Probe): string
    requires ValidQuery(q) && ValidProbe(q, p)
  {
    if p.provide.Direct? then q.candidates[p.candidate].version else DeclaredBy(q, p).version
  }

  ghost predicate Agreeing(q: Query, p: Probe)
    requires ValidQuery(q) && ValidProbe(q, p)
  {
    && Placed(q, p)
    && (OwnVersionAsked(q, p) ==> InRelation(q.compare, AtomOf(q, p), q.candidates[p.candidate].version))
    && InRelation(q.compare, AtomOf(q, p), VersionAsked(q, p))
  }

  /** The comparator is asked and gives no answer. */
  ghost predicate NoAnswer(compare: Comparator, atom: Atom, version: string, code: ErrorCode) {
    && !atom.relation.NoRelation? && version != ""
    && (|| (code.ComparisonUnavailable? && (compare.None? || compare.value(version, atom.version).Unavailable?))
        || (code.ComparisonInvalidVersion? && compare.Some? && compare.value(version, atom.version).InvalidComparison?)
        || (code.ComparisonFailed? && compare.Some? && compare.value(version, atom.version).Failed?))
  }

  /** The tuple ends the evaluation with an error. */
  ghost predicate Failing(q: Query, p: Probe, code: ErrorCode)
    requires ValidQuery(q) && ValidProbe(q, p)
  {
    var atom, candidate := AtomOf(q, p), q.candidates[p.candidate];
    || (code.UnsupportedNativeQualifier? && p.provide.Provided? && Named(q, p) && DeclaredBy(q, p).qualifier.Native?)
    || (Placed(q, p) && OwnVersionAsked(q, p) && NoAnswer(q.compare, atom, candidate.version, code))
    || (Placed(q, p) && (OwnVersionAsked(q, p) ==> InRelation(q.compare, atom, candidate.version))
        && NoAnswer(q.compare, atom, VersionAsked(q, p), code))
  }

  lemma VersionMeans(compare: Comparator, atom: Atom, version: string)
    ensures VersionVerdict(compare, atom, version) == Match <==> InRelation(compare, atom, version)
    ensures forall code :: VersionVerdict(compare, atom, version) == Refuse(code) <==> NoAnswer(compare, atom, version, code)
  {
    if !atom.relation.NoRelation? && version != "" && compare.Some? {
      match compare.value(version, atom.version) {
        case Compared(o) =>
        case Unavailable =>
        case InvalidComparison =>
        case Failed =>
      }
    }
  }

  lemma AliasMeans(s: string)
    ensures IsAll(s) <==> s == "all"
    ensures IsAny(s) <==> s == "any"
  {
  }

  lemma ArchitectureMeans(q: Query, atom: Atom, candidate: Package, architecture: string)
    requires q.source.architecture != "any"
    ensures ArchitectureMatches(q, atom, candidate, architecture) <==> ArchitectureFits(q, atom, candidate, architecture)
  {
    hide IsAll, IsAny;
    AliasMeans(architecture);
    AliasMeans(q.source.architecture);
    AliasMeans(atom.architecture);
    AliasMeans("any");
  }

  lemma ShapeMeans(q: Query, p: Probe)
    requires ValidQuery(q) && ValidProbe(q, p)
    ensures var shape := ShapeVerdict(q, AtomOf(q, p), q.candidates[p.candidate], ProvideOf(q, p));
            && (shape == Match <==> Placed(q, p))
            && forall code :: shape == Refuse(code) <==>
                 code.UnsupportedNativeQualifier? && p.provide.Provided? && Named(q, p) && DeclaredBy(q, p).qualifier.Native?
  {
    hide ArchitectureMatches, ArchitectureFits, ValidField, Name, Version;
    var atom, candidate := AtomOf(q, p), q.candidates[p.candidate];
    AliasMeans(q.source.architecture);
    forall architecture
      ensures ArchitectureMatches(q, atom, candidate, architecture) <==> ArchitectureFits(q, atom, candidate, architecture)
    {
      ArchitectureMeans(q, atom, candidate, architecture);
    }
  }

  /** A tuple matches, and fails, exactly as written out above. */
  lemma TupleMeans(q: Query, p: Probe)
    requires ValidQuery(q) && ValidProbe(q, p)
    ensures ProbeVerdict(q, p) == Match <==> Agreeing(q, p)
    ensures forall code :: ProbeVerdict(q, p) == Refuse(code) <==> Failing(q, p, code)
  {
    hide ValidQuery, ShapeVerdict, VersionVerdict, InRelation, NoAnswer, Placed, Named;
    ShapeMeans(q, p);
    VersionMeans(q.compare, AtomOf(q, p), VersionAsked(q, p));
    VersionMeans(q.compare, AtomOf(q, p), q.candidates[p.candidate].version);
  }

  // ---------------------------------------------------------------------------------------------
  // What an evaluation reports

  /** Every tuple of a group has a report exactly when it matches, and the report shows the package. */
  ghost predicate ReportsExactly(q: Query, g: nat, ws: seq<Witness>)
    requires ValidQuery(q)
  {
    && (forall k :: 0 <= k < |ws| ==> ValidProbe(q, Place(ws[k])) && ws[k].group == g && Agreeing(q, Place(ws[k])) && Shows(q, ws[k]))
    && (forall p :: ValidProbe(q, p) && p.group == g && Agreeing(q, p) ==> exists k :: 0 <= k < |ws| && Place(ws[k]) == p)
  }

  ghost predicate Shows(q: Query, w: Witness)
    requires ValidQuery(q) && ValidProbe(q, Place(w))
  {
    var candidate := q.candidates[w.candidate];
    && w.package == candidate.name && w.version == candidate.version && w.architecture == candidate.architecture
    && w.comparedVersion == VersionAsked(q, Place(w))
  }

  /** A successful evaluation reports, group by group, the matching tuples and no other. */
  lemma EvaluationMeans(q: Query)
    requires ValidQuery(q) && EvaluationOf(q).Ok?
    ensures |EvaluationOf(q).value.groups| == |q.field.groups|
    ensures forall g :: 0 <= g < |q.field.groups| ==> ReportsExactly(q, g, EvaluationOf(q).value.groups[g])
  {
    hide ValidQuery, EvaluationOf, ProbeVerdict, Agreeing, Before;
    EvaluateExact(q);
    forall g | 0 <= g < |q.field.groups|
      ensures ReportsExactly(q, g, EvaluationOf(q).value.groups[g])
    {
      var ws := EvaluationOf(q).value.groups[g];
      assert Exactly(q, g, ws);
      forall p | ValidProbe(q, p)
        ensures ProbeVerdict(q, p) == Match <==> Agreeing(q, p)
      {
        TupleMeans(q, p);
      }
    }
  }

  /** The comparator orders the version as the relation asks. */
  ghost predicate OrderedAs(compare: Comparator, atom: Atom, version: string) {
    && version != "" && compare.Some? && compare.value(version, atom.version).Compared?
    && var o := compare.value(version, atom.version).ordering;
       match atom.relation
       case Less => o < 0
       case LessEqual => o <= 0
       case Equal => o == 0
       case GreaterEqual => o >= 0
       case Greater => o > 0
       case NoRelation => false
  }

  /** Each reported version is in the order the relation of its atom asks for. */
  lemma ReportedRelations(q: Query, g: nat, k: nat)
    requires ValidQuery(q) && EvaluationOf(q).Ok? && g < |q.field.groups| && k < |EvaluationOf(q).value.groups[g]|
    ensures var w := EvaluationOf(q).value.groups[g][k];
            && w.alternative < |q.field.groups[g]|
            && var atom := q.field.groups[g][w.alternative];
               atom.relation == NoRelation || OrderedAs(q.compare, atom, w.comparedVersion)
  {
    hide ValidQuery, EvaluationOf, Placed;
    EvaluationMeans(q);
    assert ReportsExactly(q, g, EvaluationOf(q).value.groups[g]);
  }

  ghost predicate Reported(e: Evaluation, p: Probe) {
    p.group < |e.groups| && exists w :: w in e.groups[p.group] && Place(w) == p
  }

  /** A tuple of the right name and architecture is reported exactly when its versions compare as asked. */
  lemma RelationsReported(q: Query, p: Probe)
    requires ValidQuery(q) && EvaluationOf(q).Ok? && ValidProbe(q, p) && Placed(q, p)
    ensures Reported(EvaluationOf(q).value, p) <==>
            AtomOf(q, p).relation == NoRelation
            || (OrderedAs(q.compare, AtomOf(q, p), VersionAsked(q, p))
                && (OwnVersionAsked(q, p) ==> OrderedAs(q.compare, AtomOf(q, p), q.candidates[p.candidate].version)))
  {
    hide EvaluationOf, Placed, ValidQuery, OwnVersionAsked;
    EvaluationMeans(q);
    var ws := EvaluationOf(q).value.groups[p.group];
    assert ReportsExactly(q, p.group, ws);
    if Agreeing(q, p) {
      var k :| 0 <= k < |ws| && Place(ws[k]) == p;
      assert ws[k] in ws;
    }
  }

  // ---------------------------------------------------------------------------------------------
  // When an evaluation succeeds

  /** What every evaluation demands of native architecture, kind, use, sizes and qualifiers. */
  ghost predicate Demanded(q: Query) {
    && ConcreteArchitecture(q.native) && q.native != "all"
    && !q.field.kind.Provides? && !(q.use.ConfigureChecks? && (q.field.kind.Conflicts? || q.field.kind.Replaces?))
    && |q.candidates| <= 4096 && InputBytes(q, |q.candidates|) <= 33554432
    && forall g, a :: 0 <= g < |q.field.groups| && 0 <= a < |q.field.groups[g]| ==> !q.field.groups[g][a].qualifier.Native?
  }

  /** Success is being admitted, no tuple failing, and at most 65536 tuples and 32 MiB of reports. */
  lemma SuccessMeans(q: Query)
    requires ValidQuery(q)
    ensures EvaluationOf(q).Ok? <==>
            && Demanded(q)
            && (forall p, code :: ValidProbe(q, p) ==> !Failing(q, p, code))
            && TotalSteps(q, |q.field.groups|) <= 65536 && TotalBytes(q, |q.field.groups|) <= 33554432
  {
    hide ValidQuery, EvaluationOf, ProbeVerdict, Failing, TotalSteps, TotalBytes, InputBytes, ConcreteArchitecture, IsAll;
    EvaluateExact(q);
    AliasMeans(q.native);
    forall p | ValidProbe(q, p)
      ensures ProbeVerdict(q, p).Refuse? <==> exists code :: Failing(q, p, code)
    {
      TupleMeans(q, p);
      if ProbeVerdict(q, p).Refuse? { assert Failing(q, p, ProbeVerdict(q, p).code); }
    }
  }

  /** What a package takes of the input budget, and a report of the output budget on a 64-bit target. */
  lemma BytesMean(p: Package, w: Witness)
    ensures PackageBytes(p) == |p.name| + |p.version| + |p.architecture| + |p.declared.canonical|
    ensures WitnessBytes(w) == 128 + |w.package| + |w.version| + |w.architecture| + |w.comparedVersion|
  {
  }
}
