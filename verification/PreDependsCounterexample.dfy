/**
 * A concrete input that is ready although the one-phase matcher fails on the same candidates:
 * the comparator gives out on a candidate whose phase already rules it out.
 */
module PreDependsCounterexample {
  import opened Text
  import opened Packages
  import opened BinaryRelationships
  import opened RelationshipGrammar
  import opened RelationshipCanonical
  import opened RelationshipMatching
  import opened RelationshipWitnesses
  import opened Versionless
  import opened PreDepends
  import opened PreDependsRefinement

  const NOTHING := Field(Provides, [], "", 0)
  const WANTED := Atom("foo", "", "1", Implicit, GreaterEqual)
  const FALLBACK := Atom("bar", "", "1", Implicit, GreaterEqual)
  const REMOVED := Package("foo", "2", "i386", No, NOTHING)
  const ARCHIVE := Package("bar", "1", "i386", No, NOTHING)
  const WISH: seq<BinaryRelationships.Group> := [[WANTED, FALLBACK]]

  function Answer(version: string, other: string): Comparison {
    if version == "2" then Failed else Compared(0)
  }

  /** `foo (>= 1) | bar (>= 1)` for an archive of `bar`, with only the configuration files of `foo` left. */
  function Scene(): Input {
    Input(Field(PreDepends, WISH, PrintGroups(WISH), 2), ARCHIVE,
          [Present(REMOVED, ConfigFiles, ConfigFiles, "2", "", false)], "i386", Some(Answer))
  }

  lemma SceneVersions()
    ensures Version("1") && Version("2")
  {
    assert Find("1", ':') == 1 && Find("2", ':') == 1 && RFind("1", '-') == 1 && RFind("2", '-') == 1 by {
      FindFirst("1", ':');
      FindFirst("2", ':');
      RFindLast("1", '-');
      RFindLast("2", '-');
    }
  }

  lemma SceneShort()
    ensures |PrintGroups(WISH)| < 100
  {
    var g := WISH[0];
    assert g[..1] == [WANTED] && |PrintAtom(WANTED)| == 10 && |PrintAtom(FALLBACK)| == 10;
    assert |PrintGroup(g[..1])| == 10;
    assert |PrintGroup(g)| == 23;
  }

  lemma SceneValid()
    ensures ValidInput(Scene())
  {
    SceneVersions();
    var f := Scene().field;
    assert Name("foo") && Name("bar") && ConcreteArchitecture("i386");
    assert WellFormedAtom(PreDepends, WANTED) && WellFormedAtom(PreDepends, FALLBACK);
    assert WellFormedAlternatives(PreDepends, WISH[0]);
    assert CountAtoms(WISH) == 2 by {
      assert WISH[..0] == [];
    }
    SceneShort();
  }

  function At(a: nat, c: nat): Probe {
    Probe(0, a, c, Direct)
  }

  function Shaped(): Query {
    Structural(Scene())
  }

  lemma SceneQuery()
    ensures ValidQuery(Shaped()) && ValidQuery(Full(Scene()))
  {
    SceneValid();
    QueriesValid(Scene());
  }

  lemma SceneProbe(p: Probe)
    ensures ValidProbe(Shaped(), p) <==> p.alternative < 2 && p.candidate < 2 && p == At(p.alternative, p.candidate)
  {
    var q := Shaped();
    assert |q.field.groups| == 1 && |q.field.groups[0]| == 2 && |q.candidates| == 2;
    assert |q.candidates[0].declared.groups| == 0 && |q.candidates[1].declared.groups| == 0;
    if ValidProbe(q, p) {
      assert p.group == 0 && (p.candidate == 0 || p.candidate == 1) && p.provide.Direct?;
      assert p == Probe(p.group, p.alternative, p.candidate, p.provide);
    }
  }

  lemma SceneProbes()
    ensures |Shaped().field.groups| == 1
    ensures ProbesOf(Shaped(), 0) == [At(0, 0), At(0, 1), At(1, 0), At(1, 1)]
  {
    var q := Shaped();
    assert forall c :: c < 2 ==> Declarations(q, c) == 0;
    forall a
      ensures AlternativeProbes(q, 0, a, 2) == [At(a, 0), At(a, 1)]
    {
      assert AlternativeProbes(q, 0, a, 1) == [] + CandidateProbes(0, a, 0, 0);
    }
    assert GroupProbes(q, 0, 1) == [] + AlternativeProbes(q, 0, 0, 2);
  }

  lemma SceneVerdicts(a: nat, c: nat)
    requires a < 2 && c < 2
    ensures ValidQuery(Shaped()) && ValidProbe(Shaped(), At(a, c))
    ensures ProbeVerdict(Shaped(), At(a, c)) == if a == c then Match else NoMatch
  {
    SceneQuery();
    hide ValidQuery;
    SceneProbe(At(a, c));
    assert "foo"[0] != "bar"[0];
  }

  lemma SceneHits()
    ensures ValidQuery(Shaped()) && HitsOf(Shaped(), 0) == [At(0, 0), At(1, 1)]
  {
    SceneQuery();
    hide ValidQuery, ProbeVerdict, ValidProbe, ProbesOf, Shaped;
    SceneProbes();
    var q := Shaped();
    SceneVerdicts(0, 0);
    SceneVerdicts(0, 1);
    SceneVerdicts(1, 0);
    SceneVerdicts(1, 1);
    var ps := ProbesOf(q, 0);
    assert ps[..1] == [At(0, 0)] && ps[..2] == [At(0, 0), At(0, 1)] && ps[..3] == [At(0, 0), At(0, 1), At(1, 0)];
    assert ps[..1][..0] == [] && ps[..2][..1] == ps[..1] && ps[..3][..2] == ps[..2];
    assert Hits(q, ps[..1]) == [At(0, 0)];
    assert Hits(q, ps[..2]) == [At(0, 0)];
    assert Hits(q, ps[..3]) == [At(0, 0)];
  }

  lemma SceneQuiet()
    ensures ValidQuery(Shaped()) && Quiet(Shaped(), 1)
  {
    SceneQuery();
    hide ValidQuery, ProbeVerdict, Shaped;
    forall p | ValidProbe(Shaped(), p) && p.group < 1
      ensures !ProbeVerdict(Shaped(), p).Refuse?
    {
      SceneProbe(p);
      SceneVerdicts(p.alternative, p.candidate);
    }
  }

  lemma SceneBudgets()
    ensures ValidQuery(Shaped()) && |Shaped().field.groups| == 1 && WithinBudgets(Shaped(), 1)
  {
    SceneQuery();
    hide ValidQuery, ValidProbe, ProbesOf, Hits;
    SceneProbes();
    SceneHits();
    SceneProbe(At(0, 0));
    SceneProbe(At(1, 1));
    var hits := HitsOf(Shaped(), 0);
    assert hits[..1] == [At(0, 0)] && hits[..1][..0] == [];
    assert TotalSteps(Shaped(), 0) == 0 && TotalBytes(Shaped(), 0) == 0;
    assert BytesOf(Shaped(), hits[..1]) == WitnessBytes(WitnessOf(Shaped(), At(0, 0)));
    assert BytesOf(Shaped(), hits) == BytesOf(Shaped(), hits[..1]) + WitnessBytes(WitnessOf(Shaped(), At(1, 1)));
  }

  lemma SceneAdmitted()
    ensures Admission(Shaped()).None?
  {
    var q := Shaped();
    assert Strip(WISH)[0][0].qualifier == Implicit && Strip(WISH)[0][1].qualifier == Implicit;
    assert |q.field.canonical| < 1000 by {
      StripShorter(WISH);
      SceneShort();
    }
    assert InputBytes(q, 1) == InputBytes(q, 0) + PackageBytes(REMOVED);
    assert InputBytes(q, 2) == InputBytes(q, 1) + PackageBytes(ARCHIVE);
  }

  lemma SceneStructure()
    ensures ValidInput(Scene()) && Structure(Scene()).Ok?
    ensures ValidQuery(Shaped())
    ensures Structure(Scene()).value.groups == [[WitnessOf(Shaped(), At(0, 0)), WitnessOf(Shaped(), At(1, 1))]]
  {
    SceneValid();
    SceneQuery();
    hide ValidQuery, ValidInput, ValidProbe, Hits, ProbesOf, Admission, WithinBudgets, Quiet, EvaluationOf, WitnessOf;
    SceneQuiet();
    SceneBudgets();
    SceneAdmitted();
    EvaluateExact(Shaped());
    EvaluationReports(Shaped());
    SceneHits();
    var hits := HitsOf(Shaped(), 0);
    ReportsAt(Shaped(), hits, 0);
    ReportsAt(Shaped(), hits, 1);
    assert Reports(Shaped(), hits) == [WitnessOf(Shaped(), At(0, 0)), WitnessOf(Shaped(), At(1, 1))];
  }

  lemma SceneReserved()
    ensures StepsReserved(Scene()) == Some(4)
  {
    var ps := Matching(Candidates(Scene()));
    assert ps[..1] == [REMOVED] && ps[..1][..0] == [];
    assert WorkOf(ps[..1]) == Some(1);
  }

  lemma SceneEntries(ws: seq<Witness>)
    requires |ws| == 2 && AllFit(Scene(), 0, ws)
    requires ws[0].alternative == 0 && ws[0].candidate == 0 && ws[0].provide == Direct
    requires ws[1].alternative == 1 && ws[1].candidate == 1 && ws[1].provide == Direct && ws[1].comparedVersion == "1"
    requires forall k :: 0 <= k < 2 ==>
               |ws[k].package| + |ws[k].version| + |ws[k].architecture| + |ws[k].comparedVersion| < 100
    ensures var r := EntriesAt(Scene(), 0, Tally(GROUP_SIZE, 4, []), ws);
            r.Ok? && |AdmittedOf(r.value.entries)| > 0 && r.value.output < 10000
  {
    hide Fits;
    var i, start := Scene(), Tally(GROUP_SIZE, 4, []);
    assert ws[..1] == [ws[0]] && ws[..1][..0] == [];
    assert Fits(i, 0, ws[0]) && Fits(i, 0, ws[1]);
    assert EntriesAt(i, 0, start, []) == Ok(start);
    assert JudgeAt(i.compare, WANTED, i.installed[0], ws[0], 4) == Ok(Counted(Rejected(PhaseNotEligible), 4));
    assert JudgeAt(i.compare, FALLBACK, Incoming(ARCHIVE), ws[1], 4) == Ok(Counted(Accepted(false), 5));
    var first := EntryAt(i, 0, start, ws[0]);
    assert EntriesAt(i, 0, start, ws[..1]) == first && first.Ok?;
    var second := EntryAt(i, 0, first.value, ws[1]);
    assert EntriesAt(i, 0, start, ws) == second && second.Ok?;
    assert second.value.entries[1].judgement.Accepted?;
  }

  lemma SceneWitnesses()
    ensures ValidQuery(Shaped()) && ValidProbe(Shaped(), At(0, 0)) && ValidProbe(Shaped(), At(1, 1))
    ensures WitnessOf(Shaped(), At(0, 0)) == Witness(0, 0, 0, Direct, "foo", "2", "i386", "2")
    ensures WitnessOf(Shaped(), At(1, 1)) == Witness(0, 1, 1, Direct, "bar", "1", "i386", "1")
  {
    SceneQuery();
    hide ValidQuery;
  }

  lemma SceneGroup(groups: seq<seq<Witness>>)
    requires Aligned(Scene(), groups)
    requires groups == [[Witness(0, 0, 0, Direct, "foo", "2", "i386", "2"), Witness(0, 1, 1, Direct, "bar", "1", "i386", "1")]]
    ensures var r := CourseOf(Scene(), 4, groups, 1);
            r.Ok? && AllAdmitted(r.value.groups)
  {
    hide EntriesAt, AdmittedOf, BlockedOf, Fits;
    var ws := groups[0];
    SceneEntries(ws);
    assert CourseOf(Scene(), 4, groups, 0) == Ok(Course(0, 4, []));
    var output := EntriesAt(Scene(), 0, Tally(GROUP_SIZE, 4, []), ws).value.output;
    assert ws[0].alternative == 0 && ws[1].alternative == 1;
    assert MissingAt(0, output, ws, 1) == Ok(Counted([], output));
  }

  lemma SceneDecided()
    ensures ValidInput(Scene()) && DecisionOf(Scene()).Ok? && DecisionOf(Scene()).value.ready
  {
    SceneStructure();
    SceneWitnesses();
    SceneReserved();
    Reparses(Scene().field);
    StructuralAligned(Scene());
    hide ValidQuery, ValidInput, StepsReserved, FieldOf, CourseOf, AllAdmitted, Structure, Shaped, WitnessOf, ValidProbe, Aligned, Shape,
         PrintGroups, PrintGroup, Fits, GroupAt;
    SceneGroup(Structure(Scene()).value.groups);
  }

  lemma SceneIncomparable()
    ensures ValidInput(Scene()) && !Comparable(Scene())
  {
    SceneValid();
    SceneVerdicts(0, 0);
    hide ValidQuery, ValidInput, ProbeVerdict;
    var p := At(0, 0);
    assert ValidProbe(Full(Scene()), p) && ShapeMatches(Scene(), p) && VersionAnswer(Scene(), p).Refuse?;
  }

  /** Ready, yet the one-phase matcher cannot evaluate the same field over the same candidates. */
  lemma ReadyWithoutAnAnswer()
    ensures ValidInput(Scene()) && DecisionOf(Scene()).Ok? && DecisionOf(Scene()).value.ready
    ensures ValidQuery(Full(Scene())) && EvaluationOf(Full(Scene())).Err?
  {
    SceneDecided();
    SceneIncomparable();
    hide ValidQuery, ValidInput, DecisionOf, EvaluationOf, Scene;
    OnePhaseAnswers(Scene());
  }
}
