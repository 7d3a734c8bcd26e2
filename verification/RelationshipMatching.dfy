/**
 * Evaluating a relationship field against candidate packages: the four nested loops with their
 * step and byte budgets, and the exact set of matches they report.
 */
module RelationshipMatching {
  import opened Text
  import opened BinaryRelationships
  import opened RelationshipGrammar
  import opened RelationshipCanonical

  const MAXIMUM_CANDIDATES: nat := 4096
  const MAXIMUM_MATCH_STEPS: nat := 65536
  const MAXIMUM_INPUT_BYTES: nat := 32 * 1024 * 1024
  const MAXIMUM_WITNESS_BYTES: nat := 32 * 1024 * 1024
  // Four machine words and four strings of three words each, on a 64-bit target.
  const WITNESS_SIZE: nat := 4 * 8 + 4 * 24

  datatype Use = UnpackChecks | ConfigureChecks

  /** The native version comparator may be unset, and each call to it may fail. */
  datatype Comparison = Compared(ordering: int) | Unavailable | InvalidComparison | Failed
  type Comparator = Option<(string, string) -> Comparison>

  /** What a relation matched: the package itself, or one of its Provides declarations. */
  datatype Slot = Direct | Provided(index: nat)

  datatype Witness = Witness(group: nat, alternative: nat, candidate: nat, provide: Slot,
                             package: string, version: string, architecture: string, comparedVersion: string)

  datatype Query = Query(field: Field, source: Package, candidates: seq<Package>, native: string,
                         use: Use, compare: Comparator)
  datatype Evaluation = Evaluation(groups: seq<seq<Witness>>, anyGroupMatched: bool, allGroupsMatched: bool)

  predicate ValidPackage(p: Package) {
    && Name(p.name) && Version(p.version) && ConcreteArchitecture(p.architecture)
    && p.declared.kind == Provides && ValidField(p.declared)
  }

  /** Fields and packages come from their parsers only. */
  predicate ValidQuery(q: Query) {
    && ValidField(q.field) && ValidPackage(q.source)
    && forall c :: 0 <= c < |q.candidates| ==> ValidPackage(q.candidates[c])
  }

  lemma ParsedPackageIsValid(name: string, version: string, architecture: string, multiArch: string, provides': string)
    requires PackageOf(name, version, architecture, multiArch, provides').Ok?
    ensures ValidPackage(PackageOf(name, version, architecture, multiArch, provides').value)
  {
    ParsedIsValid(Provides, provides');
  }

  // ---------------------------------------------------------------------------------------------
  // One comparison of one atom with one candidate

  datatype Verdict = Match | NoMatch | Refuse(code: ErrorCode)

  predicate Holds(relation: Relation, ordering: int) {
    match relation
    case NoRelation => true
    case Less => ordering < 0
    case LessEqual => ordering <= 0
    case Equal => ordering == 0
    case GreaterEqual => ordering >= 0
    case Greater => ordering > 0
  }

  /** An unversioned Provides satisfies no versioned relation. */
  function VersionVerdict(compare: Comparator, atom: Atom, version: string): Verdict {
    if atom.relation == NoRelation then Match
    else if |version| == 0 then NoMatch
    else if compare.None? then Refuse(ComparisonUnavailable)
    else
      match compare.value(version, atom.version)
      case Unavailable => Refuse(ComparisonUnavailable)
      case InvalidComparison => Refuse(ComparisonInvalidVersion)
      case Failed => Refuse(ComparisonFailed)
      case Compared(ordering) => if Holds(atom.relation, ordering) then Match else NoMatch
  }

  predicate IsAll(s: string) {
    |s| == 3 && s[0] == 'a' && s[1] == 'l' && s[2] == 'l'
  }

  /** `all` aliases the native architecture, not that of the depending package. */
  predicate ArchitectureMatches(q: Query, atom: Atom, candidate: Package, provided: string) {
    var wanted :=
      if atom.qualifier != Implicit then atom.architecture
      else if Negative(q.field.kind) then "any"
      else q.source.architecture;
    if atom.qualifier == Implicit && candidate.multiArch == Foreign then true
    else if IsAny(wanted) && (candidate.multiArch == Allowed || Negative(q.field.kind)) then true
    else (if IsAll(wanted) then q.native else wanted) == (if IsAll(provided) then q.native else provided)
  }

  /** Unpack checks exclude the whole package set of the source, configure checks only the same instance. */
  predicate SelfExcluded(q: Query, atom: Atom, candidate: Package, provide: Option<Atom>) {
    && (q.field.kind == Breaks || q.field.kind == Conflicts)
    && match q.use
       case UnpackChecks => if provide.Some? then candidate.name == q.source.name else atom.package == q.source.name
       case ConfigureChecks => candidate.name == q.source.name && candidate.architecture == q.source.architecture
  }

  /** The architecture under which a Provides declaration answers a configure check. */
  function ProvidedArchitecture(kind: Kind, candidate: Package, provide: Atom): string {
    if kind == Breaks || provide.qualifier == Implicit then candidate.architecture else provide.architecture
  }

  /** Everything but the version: names, self exclusion and Multi-Arch. */
  function ShapeVerdict(q: Query, atom: Atom, candidate: Package, provide: Option<Atom>): Verdict {
    if (if provide.Some? then provide.value.package else candidate.name) != atom.package then NoMatch
    else if provide.Some? && provide.value.qualifier == Native then Refuse(UnsupportedNativeQualifier)
    else if SelfExcluded(q, atom, candidate, provide) then NoMatch
    else if provide.None? then
      if ArchitectureMatches(q, atom, candidate, candidate.architecture) then Match else NoMatch
    else if q.use == ConfigureChecks
            && !ArchitectureMatches(q, atom, candidate, ProvidedArchitecture(q.field.kind, candidate, provide.value))
    then NoMatch
    else Match
  }

  function ComparedVersion(candidate: Package, provide: Option<Atom>): string {
    if provide.Some? then provide.value.version else candidate.version
  }

  /** A configure check of Breaks tests the provider's own version before the provided one. */
  function AtomVerdict(q: Query, atom: Atom, candidate: Package, provide: Option<Atom>): Verdict {
    var shape := ShapeVerdict(q, atom, candidate, provide);
    if shape != Match then shape
    else
      var actual := if provide.Some? && q.use == ConfigureChecks && q.field.kind == Breaks
                    then VersionVerdict(q.compare, atom, candidate.version) else Match;
      if actual != Match then actual
      else VersionVerdict(q.compare, atom, ComparedVersion(candidate, provide))
  }

  // ---------------------------------------------------------------------------------------------
  // The probes of a query in the order they are made, and what running them accumulates

  datatype Probe = Probe(group: nat, alternative: nat, candidate: nat, provide: Slot)

  predicate ValidProbe(q: Query, p: Probe) {
    && p.group < |q.field.groups|
    && p.alternative < |q.field.groups[p.group]|
    && p.candidate < |q.candidates|
    && (p.provide.Provided? ==>
          q.field.kind != Replaces && p.provide.index < |q.candidates[p.candidate].declared.groups|)
  }

  function Declaration(candidate: Package, slot: Slot): Option<Atom>
    requires slot.Provided? ==> slot.index < |candidate.declared.groups| && |candidate.declared.groups[slot.index]| > 0
  {
    if slot.Direct? then None else Some(candidate.declared.groups[slot.index][0])
  }

  lemma DeclarationsNonempty(p: Package, n: nat)
    requires ValidPackage(p) && n < |p.declared.groups|
    ensures |p.declared.groups[n]| == 1
  {
    assert WellFormedAlternatives(Provides, p.declared.groups[n]);
  }

  function ProvideOf(q: Query, p: Probe): Option<Atom>
    requires ValidQuery(q) && ValidProbe(q, p)
  {
    var candidate := q.candidates[p.candidate];
    assert p.provide.Provided? ==> |candidate.declared.groups[p.provide.index]| == 1 by {
      if p.provide.Provided? { DeclarationsNonempty(candidate, p.provide.index); }
    }
    Declaration(candidate, p.provide)
  }

  function ProbeVerdict(q: Query, p: Probe): Verdict
    requires ValidQuery(q) && ValidProbe(q, p)
  {
    AtomVerdict(q, q.field.groups[p.group][p.alternative], q.candidates[p.candidate], ProvideOf(q, p))
  }

  function WitnessOf(q: Query, p: Probe): Witness
    requires ValidQuery(q) && ValidProbe(q, p)
  {
    var candidate := q.candidates[p.candidate];
    Witness(p.group, p.alternative, p.candidate, p.provide, candidate.name, candidate.version, candidate.architecture,
            ComparedVersion(candidate, ProvideOf(q, p)))
  }

  function WitnessBytes(w: Witness): nat {
    WITNESS_SIZE + |w.package| + |w.version| + |w.architecture| + |w.comparedVersion|
  }

  /** The probes into the first `n` Provides declarations of one candidate, after the direct one. */
  function CandidateProbes(g: nat, a: nat, c: nat, n: nat): (ps: seq<Probe>)
    ensures |ps| == n + 1
    ensures ps[0] == Probe(g, a, c, Direct)
    ensures forall k :: 0 < k <= n ==> ps[k] == Probe(g, a, c, Provided(k - 1))
  {
    if n == 0 then [Probe(g, a, c, Direct)]
    else CandidateProbes(g, a, c, n - 1) + [Probe(g, a, c, Provided(n - 1))]
  }

  /** Replaces names real packages only, so it never looks at Provides. */
  function Declarations(q: Query, c: nat): nat
    requires c < |q.candidates|
  {
    if q.field.kind == Replaces then 0 else |q.candidates[c].declared.groups|
  }

  lemma CandidateProbesEmpty(g: nat, a: nat, c: nat)
    ensures CandidateProbes(g, a, c, 0) == [Probe(g, a, c, Direct)]
  {
  }

  lemma CandidateProbesNext(g: nat, a: nat, c: nat, n: nat)
    ensures CandidateProbes(g, a, c, n + 1) == CandidateProbes(g, a, c, n) + [Probe(g, a, c, Provided(n))]
  {
  }

  lemma {:induction false} CandidatePrefix(g: nat, a: nat, c: nat, n: nat, m: nat)
    requires n <= m
    ensures CandidateProbes(g, a, c, m)[..n + 1] == CandidateProbes(g, a, c, n)
  {
  }

  function AlternativeProbes(q: Query, g: nat, a: nat, n: nat): seq<Probe>
    requires n <= |q.candidates|
  {
    if n == 0 then [] else AlternativeProbes(q, g, a, n - 1) + CandidateProbes(g, a, n - 1, Declarations(q, n - 1))
  }

  function GroupProbes(q: Query, g: nat, n: nat): seq<Probe> {
    if n == 0 then [] else GroupProbes(q, g, n - 1) + AlternativeProbes(q, g, n - 1, |q.candidates|)
  }

  predicate ValidProbes(q: Query, ps: seq<Probe>) {
    forall k :: 0 <= k < |ps| ==> ValidProbe(q, ps[k])
  }

  lemma {:induction false} AlternativeProbesValid(q: Query, g: nat, a: nat, n: nat)
    requires g < |q.field.groups| && a < |q.field.groups[g]| && n <= |q.candidates|
    ensures ValidProbes(q, AlternativeProbes(q, g, a, n))
  {
    if n > 0 { AlternativeProbesValid(q, g, a, n - 1); }
  }

  lemma {:induction false} GroupProbesValid(q: Query, g: nat, n: nat)
    requires g < |q.field.groups| && n <= |q.field.groups[g]|
    ensures ValidProbes(q, GroupProbes(q, g, n))
  {
    if n > 0 {
      GroupProbesValid(q, g, n - 1);
      AlternativeProbesValid(q, g, n - 1, |q.candidates|);
    }
  }

  /** The budgets spent and the witnesses of the group so far. */
  datatype Run = Run(steps: nat, bytes: nat, witnesses: seq<Witness>)

  function RunProbe(q: Query, run: Run, p: Probe): Result<Run>
    requires ValidQuery(q) && ValidProbe(q, p)
  {
    if run.steps + 1 > MAXIMUM_MATCH_STEPS then Err(LimitExceeded, 0)
    else
      match ProbeVerdict(q, p)
      case Refuse(code) => Err(code, 0)
      case NoMatch => Ok(run.(steps := run.steps + 1))
      case Match =>
        var w := WitnessOf(q, p);
        if run.bytes + WitnessBytes(w) > MAXIMUM_WITNESS_BYTES then Err(LimitExceeded, 0)
        else Ok(Run(run.steps + 1, run.bytes + WitnessBytes(w), run.witnesses + [w]))
  }

  /** The probes are made in order; the first refusal ends the evaluation. */
  function RunProbes(q: Query, run: Run, ps: seq<Probe>): Result<Run>
    requires ValidQuery(q) && ValidProbes(q, ps)
  {
    if |ps| == 0 then Ok(run)
    else
      var before := RunProbes(q, run, ps[..|ps| - 1]);
      if before.Err? then before else RunProbe(q, before.value, ps[|ps| - 1])
  }

  lemma {:induction false} RunAppend(q: Query, run: Run, xs: seq<Probe>, ys: seq<Probe>)
    requires ValidQuery(q) && ValidProbes(q, xs) && ValidProbes(q, ys)
    ensures ValidProbes(q, xs + ys)
    ensures var r := RunProbes(q, run, xs);
            RunProbes(q, run, xs + ys) == if r.Err? then r else RunProbes(q, r.value, ys)
    decreases |ys|
  {
    if |ys| == 0 {
      assert xs + ys == xs;
    } else {
      RunAppend(q, run, xs, ys[..|ys| - 1]);
      assert (xs + ys)[..|xs + ys| - 1] == xs + ys[..|ys| - 1];
    }
  }

  lemma RunOne(q: Query, run: Run, p: Probe)
    requires ValidQuery(q) && ValidProbe(q, p)
    ensures RunProbes(q, run, [p]) == RunProbe(q, run, p)
  {
    assert [p][..0] == [];
  }

  lemma RunNext(q: Query, run: Run, ps: seq<Probe>, p: Probe)
    requires ValidQuery(q) && ValidProbes(q, ps) && ValidProbe(q, p) && RunProbes(q, run, ps).Ok?
    ensures ValidProbes(q, ps + [p])
    ensures RunProbes(q, run, ps + [p]) == RunProbe(q, RunProbes(q, run, ps).value, p)
  {
    assert (ps + [p])[..|ps|] == ps;
  }

  lemma {:induction false} RunPrefixFails(q: Query, run: Run, ps: seq<Probe>, n: nat)
    requires ValidQuery(q) && ValidProbes(q, ps) && n <= |ps|
    requires RunProbes(q, run, ps[..n]).Err?
    ensures RunProbes(q, run, ps) == RunProbes(q, run, ps[..n])
  {
    if n < |ps| {
      assert ps[..|ps| - 1][..n] == ps[..n];
      RunPrefixFails(q, run, ps[..|ps| - 1], n);
    } else {
      assert ps[..n] == ps;
    }
  }

  // ---------------------------------------------------------------------------------------------
  // The four nested loops

  /** What a loop returned and left behind, against what running its probes gives. */
  predicate Outcome(r: Result<()>, after: Run, expected: Result<Run>) {
    match expected
    case Err(code, offset) => r == Err(code, offset)
    case Ok(run) => r.Ok? && after == run
  }

  predicate Refused(q: Query) {
    || (q.use == ConfigureChecks && (q.field.kind == Conflicts || q.field.kind == Replaces))
    || q.field.kind == Provides
  }

  function PackageBytes(p: Package): nat {
    |p.name| + |p.version| + |p.architecture| + |p.declared.canonical|
  }

  function InputBytes(q: Query, n: nat): nat
    requires n <= |q.candidates|
  {
    if n == 0 then |q.field.canonical| + PackageBytes(q.source)
    else InputBytes(q, n - 1) + PackageBytes(q.candidates[n - 1])
  }

  predicate NativeQualified(f: Field) {
    exists g, a :: 0 <= g < |f.groups| && 0 <= a < |f.groups[g]| && f.groups[g][a].qualifier == Native
  }

  /** What is checked before the first probe. */
  function Admission(q: Query): Option<ErrorCode> {
    if !ConcreteArchitecture(q.native) || IsAll(q.native) then Some(InvalidArchitecture)
    else if Refused(q) then Some(UnsupportedUse)
    else if |q.candidates| > MAXIMUM_CANDIDATES then Some(LimitExceeded)
    else if InputBytes(q, |q.candidates|) > MAXIMUM_INPUT_BYTES then Some(LimitExceeded)
    else if NativeQualified(q.field) then Some(UnsupportedNativeQualifier)
    else None
  }

  datatype Progress = Progress(steps: nat, bytes: nat, groups: seq<seq<Witness>>)

  function RunGroups(q: Query, n: nat): (r: Result<Progress>)
    requires ValidQuery(q) && n <= |q.field.groups|
    ensures r.Ok? ==> |r.value.groups| == n
  {
    if n == 0 then Ok(Progress(0, 0, []))
    else
      match RunGroups(q, n - 1)
      case Err(code, offset) => Err(code, offset)
      case Ok(before) =>
        GroupProbesValid(q, n - 1, |q.field.groups[n - 1]|);
        match RunProbes(q, Run(before.steps, before.bytes, []), GroupProbes(q, n - 1, |q.field.groups[n - 1]|))
        case Err(code, offset) => Err(code, offset)
        case Ok(run) => Ok(Progress(run.steps, run.bytes, before.groups + [run.witnesses]))
  }

  predicate AnyMatched(groups: seq<seq<Witness>>) {
    exists g :: 0 <= g < |groups| && |groups[g]| > 0
  }

  predicate AllMatched(groups: seq<seq<Witness>>) {
    forall g :: 0 <= g < |groups| ==> |groups[g]| > 0
  }

  function EvaluationOf(q: Query): Result<Evaluation>
    requires ValidQuery(q)
  {
    if Admission(q).Some? then Err(Admission(q).value, 0)
    else
      match RunGroups(q, |q.field.groups|)
      case Err(code, offset) => Err(code, offset)
      case Ok(progress) =>
        Ok(Evaluation(progress.groups, AnyMatched(progress.groups), AllMatched(progress.groups)))
  }

  lemma AnyMatchedNext(groups: seq<seq<Witness>>, last: seq<Witness>)
    ensures AnyMatched(groups + [last]) <==> AnyMatched(groups) || |last| > 0
  {
    if AnyMatched(groups) {
      var g :| 0 <= g < |groups| && |groups[g]| > 0;
      assert |(groups + [last])[g]| > 0;
    }
    assert (groups + [last])[|groups|] == last;
  }

  lemma RunNone(q: Query, run: Run)
    requires ValidQuery(q)
    ensures RunProbes(q, run, []) == Ok(run)
  {
  }

  lemma {:induction false} AlternativePrefix(q: Query, g: nat, a: nat, n: nat, m: nat)
    requires n <= m <= |q.candidates|
    ensures var ps := AlternativeProbes(q, g, a, n);
            |ps| <= |AlternativeProbes(q, g, a, m)| && AlternativeProbes(q, g, a, m)[..|ps|] == ps
  {
    if n < m { AlternativePrefix(q, g, a, n, m - 1); }
  }

  lemma {:induction false} GroupPrefix(q: Query, g: nat, n: nat, m: nat)
    requires n <= m
    ensures var ps := GroupProbes(q, g, n);
            |ps| <= |GroupProbes(q, g, m)| && GroupProbes(q, g, m)[..|ps|] == ps
  {
    if n < m { GroupPrefix(q, g, n, m - 1); }
  }

  lemma {:induction false} GroupsPrefixFails(q: Query, n: nat, m: nat)
    requires ValidQuery(q) && n <= m <= |q.field.groups| && RunGroups(q, n).Err?
    ensures RunGroups(q, m) == RunGroups(q, n)
  {
    hide ValidQuery, RunProbes, GroupProbes;
    if n < m { GroupsPrefixFails(q, n, m - 1); }
  }

  lemma {:induction false} InputGrows(q: Query, n: nat, m: nat)
    requires n <= m <= |q.candidates|
    ensures InputBytes(q, n) <= InputBytes(q, m)
  {
    if n < m { InputGrows(q, n, m - 1); }
  }

  /** A field and its source alone never reach the input limit. */
  lemma InputStart(q: Query)
    requires ValidQuery(q)
    ensures InputBytes(q, 0) <= MAXIMUM_INPUT_BYTES
  {
  }

  /** The step counter of the matcher and the accumulators of the loops around it. */
  class Matcher {
    const q: Query
    var steps: nat
    var bytes: nat
    var witnesses: seq<Witness>

    constructor (q: Query)
      ensures this.q == q && steps == 0 && bytes == 0 && witnesses == []
    {
      this.q := q;
      steps, bytes, witnesses := 0, 0, [];
    }

    function State(): Run
      reads this
    {
      Run(steps, bytes, witnesses)
    }

    /** One call of the matcher and, on a match, one witness. */
    method Step(p: Probe) returns (r: Result<()>)
      requires ValidQuery(q) && ValidProbe(q, p)
      modifies this
      ensures Outcome(r, State(), RunProbe(q, old(State()), p))
    {
      hide ValidQuery, ProbeVerdict, WitnessOf;
      if steps + 1 > MAXIMUM_MATCH_STEPS { return Err(LimitExceeded, 0); }
      steps := steps + 1;
      match ProbeVerdict(q, p) {
        case Refuse(code) => return Err(code, 0);
        case NoMatch => return Ok(());
        case Match =>
          var w := WitnessOf(q, p);
          if bytes + WitnessBytes(w) > MAXIMUM_WITNESS_BYTES { return Err(LimitExceeded, 0); }
          bytes := bytes + WitnessBytes(w);
          witnesses := witnesses + [w];
          return Ok(());
      }
    }

    /** The direct match, then the Provides declarations unless the field is Replaces. */
    method Candidate(g: nat, a: nat, c: nat) returns (r: Result<()>)
      requires ValidQuery(q) && g < |q.field.groups| && a < |q.field.groups[g]| && c < |q.candidates|
      modifies this
      ensures ValidProbes(q, CandidateProbes(g, a, c, Declarations(q, c)))
      ensures Outcome(r, State(), RunProbes(q, old(State()), CandidateProbes(g, a, c, Declarations(q, c))))
    {
      hide RunProbe, RunProbes, ValidQuery, CandidateProbes;
      ghost var all := CandidateProbes(g, a, c, Declarations(q, c));
      CandidateProbesEmpty(g, a, c);
      RunOne(q, State(), Probe(g, a, c, Direct));
      r := Step(Probe(g, a, c, Direct));
      if r.Err? {
        CandidatePrefix(g, a, c, 0, Declarations(q, c));
        RunPrefixFails(q, old(State()), all, 1);
        return;
      }
      if q.field.kind == Replaces { return; }
      var count := |q.candidates[c].declared.groups|;
      for n := 0 to count
        invariant r.Ok?
        invariant RunProbes(q, old(State()), CandidateProbes(g, a, c, n)) == Ok(State())
      {
        var p := Probe(g, a, c, Provided(n));
        RunNext(q, old(State()), CandidateProbes(g, a, c, n), p);
        CandidateProbesNext(g, a, c, n);
        r := Step(p);
        if r.Err? {
          CandidatePrefix(g, a, c, n + 1, count);
          RunPrefixFails(q, old(State()), all, n + 2);
          return;
        }
      }
    }

    method Alternative(g: nat, a: nat) returns (r: Result<()>)
      requires ValidQuery(q) && g < |q.field.groups| && a < |q.field.groups[g]|
      modifies this
      ensures ValidProbes(q, AlternativeProbes(q, g, a, |q.candidates|))
      ensures Outcome(r, State(), RunProbes(q, old(State()), AlternativeProbes(q, g, a, |q.candidates|)))
    {
      hide RunProbes, ValidQuery, CandidateProbes;
      AlternativeProbesValid(q, g, a, |q.candidates|);
      r := Ok(());
      RunNone(q, State());
      for c := 0 to |q.candidates|
        invariant r.Ok?
        invariant ValidProbes(q, AlternativeProbes(q, g, a, c))
        invariant RunProbes(q, old(State()), AlternativeProbes(q, g, a, c)) == Ok(State())
      {
        ghost var before := State();
        r := Candidate(g, a, c);
        RunAppend(q, old(State()), AlternativeProbes(q, g, a, c), CandidateProbes(g, a, c, Declarations(q, c)));
        if r.Err? {
          AlternativeProbesValid(q, g, a, |q.candidates|);
          AlternativePrefix(q, g, a, c + 1, |q.candidates|);
          RunPrefixFails(q, old(State()), AlternativeProbes(q, g, a, |q.candidates|), |AlternativeProbes(q, g, a, c + 1)|);
          return;
        }
      }
    }

    method Group(g: nat) returns (r: Result<()>)
      requires ValidQuery(q) && g < |q.field.groups|
      modifies this
      ensures ValidProbes(q, GroupProbes(q, g, |q.field.groups[g]|))
      ensures Outcome(r, State(), RunProbes(q, old(State()), GroupProbes(q, g, |q.field.groups[g]|)))
    {
      hide RunProbes, ValidQuery, AlternativeProbes;
      GroupProbesValid(q, g, |q.field.groups[g]|);
      r := Ok(());
      RunNone(q, State());
      var count := |q.field.groups[g]|;
      for a := 0 to count
        invariant r.Ok?
        invariant ValidProbes(q, GroupProbes(q, g, a))
        invariant RunProbes(q, old(State()), GroupProbes(q, g, a)) == Ok(State())
      {
        r := Alternative(g, a);
        RunAppend(q, old(State()), GroupProbes(q, g, a), AlternativeProbes(q, g, a, |q.candidates|));
        if r.Err? {
          GroupProbesValid(q, g, count);
          GroupPrefix(q, g, a + 1, count);
          RunPrefixFails(q, old(State()), GroupProbes(q, g, count), |GroupProbes(q, g, a + 1)|);
          return;
        }
      }
    }
  }

  method Admit(q: Query) returns (refusal: Option<ErrorCode>)
    requires ValidQuery(q)
    ensures refusal == Admission(q)
  {
    hide ValidQuery;
    if !ConcreteArchitecture(q.native) || IsAll(q.native) { return Some(InvalidArchitecture); }
    if Refused(q) { return Some(UnsupportedUse); }
    if |q.candidates| > MAXIMUM_CANDIDATES { return Some(LimitExceeded); }
    var bytes := |q.field.canonical| + PackageBytes(q.source);
    for c := 0 to |q.candidates|
      invariant bytes == InputBytes(q, c)
      invariant c > 0 ==> bytes <= MAXIMUM_INPUT_BYTES
    {
      var count := PackageBytes(q.candidates[c]);
      if bytes + count > MAXIMUM_INPUT_BYTES {
        InputGrows(q, c + 1, |q.candidates|);
        return Some(LimitExceeded);
      }
      bytes := bytes + count;
    }
    InputStart(q);
    for g := 0 to |q.field.groups|
      invariant forall i, a :: 0 <= i < g && 0 <= a < |q.field.groups[i]| ==> q.field.groups[i][a].qualifier != Native
    {
      for a := 0 to |q.field.groups[g]|
        invariant forall k :: 0 <= k < a ==> q.field.groups[g][k].qualifier != Native
      {
        if q.field.groups[g][a].qualifier == Native { return Some(UnsupportedNativeQualifier); }
      }
    }
    refusal := None;
  }

  method Evaluate(q: Query) returns (r: Result<Evaluation>)
    requires ValidQuery(q)
    ensures r == EvaluationOf(q)
  {
    hide RunProbes, ValidQuery, GroupProbes, Admission;
    var refusal := Admit(q);
    if refusal.Some? { return Err(refusal.value, 0); }
    var matcher := new Matcher(q);
    var groups: seq<seq<Witness>>, anyMatched := [], false;
    for g := 0 to |q.field.groups|
      invariant fresh(matcher) && matcher.q == q
      invariant RunGroups(q, g) == Ok(Progress(matcher.steps, matcher.bytes, groups))
      invariant anyMatched == AnyMatched(groups)
    {
      matcher.witnesses := [];
      var outcome := matcher.Group(g);
      if outcome.Err? {
        GroupsPrefixFails(q, g + 1, |q.field.groups|);
        return Err(outcome.code, outcome.offset);
      }
      AnyMatchedNext(groups, matcher.witnesses);
      anyMatched := anyMatched || |matcher.witnesses| > 0;
      groups := groups + [matcher.witnesses];
    }
    var allMatched := true;
    for g := 0 to |groups|
      invariant allMatched <==> forall i :: 0 <= i < g ==> |groups[i]| > 0
    {
      allMatched := allMatched && |groups[g]| > 0;
    }
    r := Ok(Evaluation(groups, anyMatched, allMatched));
  }
}
