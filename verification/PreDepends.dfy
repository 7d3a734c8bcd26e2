/**
 * Pre-Depends readiness: the field is matched without its versions, and every structural match
 * is then filtered by dpkg phase, queued deconfiguration, current and historical version.
 */
module PreDepends {
  import opened Text
  import opened Packages
  import opened BinaryRelationships
  import opened RelationshipCanonical
  import opened RelationshipMatching
  import opened RelationshipWitnesses
  import opened Versionless

  const MAXIMUM_STEPS: nat := 65536
  const MAXIMUM_OUTPUT_BYTES: nat := 32 * 1024 * 1024
  // Sizes on a 64-bit target whose strings and vectors are three words.
  const EVIDENCE_SIZE: nat := WITNESS_SIZE + 16 + 2 * 24
  const BLOCKER_SIZE: nat := 2 * 8 + 8 + EVIDENCE_SIZE
  const GROUP_SIZE: nat := 2 * 24

  /** An instance dpkg holds, or the one archive being unpacked. */
  datatype Candidate =
    | Present(package: Package, status: Status, diskStatus: Status, configVersion: string,
              metadataIdentity: string, queued: bool)
    | Incoming(package: Package)

  datatype Input = Input(field: Field, incoming: Package, installed: seq<Candidate>, native: string,
                         compare: Comparator)

  predicate ValidInput(i: Input) {
    && ValidField(i.field)
    && ValidPackage(i.incoming)
    && forall c :: 0 <= c < |i.installed| ==> i.installed[c].Present? && ValidPackage(i.installed[c].package)
  }

  /** The incoming package comes last: it may satisfy its own relationships. */
  function Candidates(i: Input): seq<Candidate> {
    i.installed + [Incoming(i.incoming)]
  }

  function Matching(cs: seq<Candidate>): (ps: seq<Package>)
    ensures |ps| == |cs|
    ensures forall c :: 0 <= c < |cs| ==> ps[c] == cs[c].package
  {
    seq(|cs|, c requires 0 <= c < |cs| => cs[c].package)
  }

  function QueryFor(i: Input, field: Field): Query {
    Query(field, i.incoming, Matching(Candidates(i)), i.native, UnpackChecks, i.compare)
  }

  /** What the one-phase matcher is asked, with and without versions. */
  function Full(i: Input): Query {
    QueryFor(i, i.field)
  }

  function Structural(i: Input): Query {
    QueryFor(i, Shape(i.field))
  }

  lemma QueriesValid(i: Input)
    requires ValidInput(i)
    ensures ValidQuery(Full(i)) && ValidQuery(Structural(i))
  {
    hide ValidField;
    ShapeValid(i.field);
  }

  // ---------------------------------------------------------------------------------------------
  // The second phase, one structural match at a time

  datatype Reason =
    | MissingCandidate | PhaseNotEligible | NeverConfigured
    | CurrentVersionMismatch | ConfiguredVersionMismatch | QueuedDeconfiguration

  datatype Judgement = Accepted(historical: bool) | Rejected(reason: Reason)

  datatype Evidence = Evidence(structural: Witness, incoming: bool, queryStatus: Status, diskStatus: Status,
                               configVersion: string, metadataIdentity: string)
  datatype Admitted = Admitted(candidate: Evidence, historicalVersionRequired: bool)
  datatype Blocker = Blocker(group: nat, alternative: nat, reason: Reason, candidate: Option<Evidence>)
  datatype GroupEvidence = GroupEvidence(witnesses: seq<Admitted>, blockers: seq<Blocker>)
  datatype Decision = Decision(ready: bool, groups: seq<GroupEvidence>)

  function EvidenceFor(c: Candidate, w: Witness): Evidence {
    match c
    case Present(_, status, diskStatus, configVersion, metadataIdentity, _) =>
      Evidence(w, false, status, diskStatus, configVersion, metadataIdentity)
    case Incoming(_) => Evidence(w, true, NotInstalled, NotInstalled, "", "")
  }

  function EvidenceBytes(e: Evidence): nat {
    EVIDENCE_SIZE + |e.structural.package| + |e.structural.version| + |e.structural.architecture|
    + |e.structural.comparedVersion| + |e.configVersion| + |e.metadataIdentity|
  }

  datatype Counted<+T> = Counted(value: T, steps: nat)

  function SatisfiesAt(compare: Comparator, atom: Atom, version: string, steps: nat): Result<Counted<bool>> {
    if atom.relation == NoRelation then Ok(Counted(true, steps))
    else if |version| == 0 then Ok(Counted(false, steps))
    else if steps + 1 > MAXIMUM_STEPS then Err(LimitExceeded, 0)
    else
      match VersionVerdict(compare, atom, version)
      case Refuse(code) => Err(code, 0)
      case NoMatch => Ok(Counted(false, steps + 1))
      case Match => Ok(Counted(true, steps + 1))
  }

  /** The phase in which dpkg accepts the candidate: providers must be active, real packages may be historical. */
  predicate PhaseBars(c: Candidate, slot: Slot) {
    c.Present? && !Active(c.status) && (slot.Provided? || !Historical(c.status))
  }

  predicate NeedsHistory(c: Candidate, slot: Slot) {
    c.Present? && slot.Direct? && Historical(c.status)
  }

  function JudgeAt(compare: Comparator, atom: Atom, c: Candidate, w: Witness, steps: nat): Result<Counted<Judgement>> {
    if c.Present? && c.queued then Ok(Counted(Rejected(QueuedDeconfiguration), steps))
    else if PhaseBars(c, w.provide) then Ok(Counted(Rejected(PhaseNotEligible), steps))
    else if NeedsHistory(c, w.provide) && |c.configVersion| == 0 then Ok(Counted(Rejected(NeverConfigured), steps))
    else
      match SatisfiesAt(compare, atom, w.comparedVersion, steps)
      case Err(code, offset) => Err(code, offset)
      case Ok(current) =>
        if !current.value then Ok(Counted(Rejected(CurrentVersionMismatch), current.steps))
        else if !NeedsHistory(c, w.provide) then Ok(Counted(Accepted(false), current.steps))
        else
          match SatisfiesAt(compare, atom, c.configVersion, current.steps)
          case Err(code, offset) => Err(code, offset)
          case Ok(configured) =>
            Ok(Counted(if configured.value then Accepted(true) else Rejected(ConfiguredVersionMismatch), configured.steps))
  }

  /** What one structural match of the field needs in order to count, with no budget in sight. */
  predicate Acceptable(compare: Comparator, atom: Atom, c: Candidate, slot: Slot, version: string) {
    && (c.Present? ==> !c.queued)
    && !PhaseBars(c, slot)
    && VersionVerdict(compare, atom, version) == Match
    && (NeedsHistory(c, slot) ==> |c.configVersion| > 0 && VersionVerdict(compare, atom, c.configVersion) == Match)
  }

  lemma JudgeExact(compare: Comparator, atom: Atom, c: Candidate, w: Witness, steps: nat)
    requires JudgeAt(compare, atom, c, w, steps).Ok?
    ensures JudgeAt(compare, atom, c, w, steps).value.value.Accepted? <==>
            Acceptable(compare, atom, c, w.provide, w.comparedVersion)
    ensures (c.Present? ==> !c.queued && Active(c.status)) ==>
              !VersionVerdict(compare, atom, w.comparedVersion).Refuse?
  {
  }

  class Budget {
    var output: nat
    var steps: nat

    constructor (steps: nat)
      ensures this.steps == steps && output == 0
    {
      this.steps := steps;
      output := 0;
    }

    method Output(n: nat) returns (ok: bool)
      modifies this
      ensures ok == (old(output) + n <= MAXIMUM_OUTPUT_BYTES)
      ensures output == (if ok then old(output) + n else old(output)) && steps == old(steps)
    {
      if n + output > MAXIMUM_OUTPUT_BYTES { return false; }
      output := output + n;
      return true;
    }

    method Satisfies(atom: Atom, version: string, compare: Comparator) returns (r: Result<bool>)
      modifies this
      ensures output == old(output)
      ensures match SatisfiesAt(compare, atom, version, old(steps))
              case Err(code, offset) => r == Err(code, offset)
              case Ok(counted) => r == Ok(counted.value) && steps == counted.steps
    {
      if atom.relation == NoRelation { return Ok(true); }
      if |version| == 0 { return Ok(false); }
      steps := steps + 1;
      if steps > MAXIMUM_STEPS { return Err(LimitExceeded, 0); }
      match VersionVerdict(compare, atom, version) {
        case Refuse(code) => return Err(code, 0);
        case NoMatch => return Ok(false);
        case Match => return Ok(true);
      }
    }

    method Judge(compare: Comparator, atom: Atom, c: Candidate, w: Witness) returns (r: Result<Judgement>)
      modifies this
      ensures output == old(output)
      ensures match JudgeAt(compare, atom, c, w, old(steps))
              case Err(code, offset) => r == Err(code, offset)
              case Ok(counted) => r == Ok(counted.value) && steps == counted.steps
    {
      hide SatisfiesAt, Active, Historical;
      if c.Present? && c.queued { return Ok(Rejected(QueuedDeconfiguration)); }
      if PhaseBars(c, w.provide) { return Ok(Rejected(PhaseNotEligible)); }
      if NeedsHistory(c, w.provide) && |c.configVersion| == 0 { return Ok(Rejected(NeverConfigured)); }
      var current := Satisfies(atom, w.comparedVersion, compare);
      if current.Err? { return Err(current.code, current.offset); }
      if !current.value { return Ok(Rejected(CurrentVersionMismatch)); }
      if !NeedsHistory(c, w.provide) { return Ok(Accepted(false)); }
      var configured := Satisfies(atom, c.configVersion, compare);
      if configured.Err? { return Err(configured.code, configured.offset); }
      return Ok(if configured.value then Accepted(true) else Rejected(ConfiguredVersionMismatch));
    }
  }

  // ---------------------------------------------------------------------------------------------
  // One group

  datatype Entry = Entry(evidence: Evidence, judgement: Judgement)
  datatype Tally = Tally(output: nat, steps: nat, entries: seq<Entry>)

  predicate Fits(i: Input, g: nat, w: Witness) {
    && g < |i.field.groups| && w.alternative < |i.field.groups[g]|
    && w.candidate < |Candidates(i)|
  }

  function EntryAt(i: Input, g: nat, t: Tally, w: Witness): Result<Tally>
    requires Fits(i, g, w)
  {
    var c := Candidates(i)[w.candidate];
    match JudgeAt(i.compare, i.field.groups[g][w.alternative], c, w, t.steps)
    case Err(code, offset) => Err(code, offset)
    case Ok(counted) =>
      var e := EvidenceFor(c, w);
      if t.output + EvidenceBytes(e) > MAXIMUM_OUTPUT_BYTES then Err(LimitExceeded, 0)
      else Ok(Tally(t.output + EvidenceBytes(e), counted.steps, t.entries + [Entry(e, counted.value)]))
  }

  predicate AllFit(i: Input, g: nat, ws: seq<Witness>) {
    forall k :: 0 <= k < |ws| ==> Fits(i, g, ws[k])
  }

  function EntriesAt(i: Input, g: nat, t: Tally, ws: seq<Witness>): Result<Tally>
    requires AllFit(i, g, ws)
  {
    if |ws| == 0 then Ok(t)
    else
      match EntriesAt(i, g, t, ws[..|ws| - 1])
      case Err(code, offset) => Err(code, offset)
      case Ok(before) => EntryAt(i, g, before, ws[|ws| - 1])
  }

  lemma {:induction false} EntriesPrefixFails(i: Input, g: nat, t: Tally, ws: seq<Witness>, n: nat)
    requires AllFit(i, g, ws) && n <= |ws| && EntriesAt(i, g, t, ws[..n]).Err?
    ensures EntriesAt(i, g, t, ws) == EntriesAt(i, g, t, ws[..n])
  {
    hide EntryAt, Fits;
    if n < |ws| {
      assert ws[..|ws| - 1][..n] == ws[..n];
      EntriesPrefixFails(i, g, t, ws[..|ws| - 1], n);
    } else {
      assert ws[..n] == ws;
    }
  }

  function AdmittedOf(entries: seq<Entry>): seq<Admitted> {
    if |entries| == 0 then []
    else
      var e := entries[|entries| - 1];
      AdmittedOf(entries[..|entries| - 1])
      + (if e.judgement.Accepted? then [Admitted(e.evidence, e.judgement.historical)] else [])
  }

  function BlockedOf(g: nat, entries: seq<Entry>): seq<Blocker> {
    if |entries| == 0 then []
    else
      var e := entries[|entries| - 1];
      BlockedOf(g, entries[..|entries| - 1])
      + (if e.judgement.Accepted? then []
         else [Blocker(g, e.evidence.structural.alternative, e.judgement.reason, Some(e.evidence))])
  }

  predicate Seen(ws: seq<Witness>, a: nat) {
    exists k :: 0 <= k < |ws| && ws[k].alternative == a
  }

  /** The alternatives no candidate matched structurally each cost a blocker of their own. */
  function MissingAt(g: nat, output: nat, ws: seq<Witness>, n: nat): Result<Counted<seq<Blocker>>> {
    if n == 0 then Ok(Counted([], output))
    else
      match MissingAt(g, output, ws, n - 1)
      case Err(code, offset) => Err(code, offset)
      case Ok(before) =>
        if Seen(ws, n - 1) then Ok(before)
        else if before.steps + BLOCKER_SIZE > MAXIMUM_OUTPUT_BYTES then Err(LimitExceeded, 0)
        else Ok(Counted(before.value + [Blocker(g, n - 1, MissingCandidate, None)], before.steps + BLOCKER_SIZE))
  }

  lemma {:induction false} MissingPrefixFails(g: nat, output: nat, ws: seq<Witness>, n: nat, m: nat)
    requires n <= m && MissingAt(g, output, ws, n).Err?
    ensures MissingAt(g, output, ws, m) == MissingAt(g, output, ws, n)
  {
    if n < m { MissingPrefixFails(g, output, ws, n, m - 1); }
  }

  function Conclude(admitted: seq<Admitted>, blockers: seq<Blocker>): GroupEvidence {
    if |admitted| == 0 then GroupEvidence([], blockers) else GroupEvidence(admitted, [])
  }

  datatype Course = Course(output: nat, steps: nat, groups: seq<GroupEvidence>)

  function GroupAt(i: Input, g: nat, p: Course, ws: seq<Witness>): Result<Course>
    requires g < |i.field.groups| && AllFit(i, g, ws)
  {
    if p.output + GROUP_SIZE > MAXIMUM_OUTPUT_BYTES then Err(LimitExceeded, 0)
    else
      match EntriesAt(i, g, Tally(p.output + GROUP_SIZE, p.steps, []), ws)
      case Err(code, offset) => Err(code, offset)
      case Ok(tally) =>
        match MissingAt(g, tally.output, ws, |i.field.groups[g]|)
        case Err(code, offset) => Err(code, offset)
        case Ok(missing) =>
          var blockers := BlockedOf(g, tally.entries) + missing.value;
          Ok(Course(missing.steps, tally.steps, p.groups + [Conclude(AdmittedOf(tally.entries), blockers)]))
  }

  /** The flags after each match has set its alternative's. */
  function Marks(ws: seq<Witness>, n: nat): (marks: seq<bool>)
    ensures |marks| == n
  {
    if |ws| == 0 then seq(n, _ => false)
    else
      var before, a := Marks(ws[..|ws| - 1], n), ws[|ws| - 1].alternative;
      if a < n then before[a := true] else before
  }

  lemma MarksNone(n: nat)
    ensures Marks([], n) == seq(n, _ => false)
  {
  }

  lemma {:induction false} MarksSeen(ws: seq<Witness>, n: nat, a: nat)
    requires a < n
    ensures Marks(ws, n)[a] <==> Seen(ws, a)
  {
    if |ws| > 0 {
      var front := ws[..|ws| - 1];
      MarksSeen(front, n, a);
      if Seen(front, a) {
        var k :| 0 <= k < |front| && front[k].alternative == a;
        assert ws[k].alternative == a;
      }
      if Seen(ws, a) {
        var k :| 0 <= k < |ws| && ws[k].alternative == a;
        assert k < |front| ==> front[k].alternative == a;
      }
    }
  }

  method JudgeMatch(i: Input, g: nat, w: Witness, budget: Budget, ghost entries: seq<Entry>) returns (r: Result<Entry>)
    requires Fits(i, g, w)
    modifies budget
    ensures match EntryAt(i, g, Tally(old(budget.output), old(budget.steps), entries), w)
            case Err(code, offset) => r == Err(code, offset)
            case Ok(tally) =>
              && r.Ok? && tally.entries == entries + [r.value] && r.value.evidence.structural == w
              && budget.output == tally.output && budget.steps == tally.steps
  {
    hide JudgeAt, EvidenceBytes, Candidates;
    var c := Candidates(i)[w.candidate];
    var judged := budget.Judge(i.compare, i.field.groups[g][w.alternative], c, w);
    if judged.Err? { return Err(judged.code, judged.offset); }
    var e := EvidenceFor(c, w);
    var ok := budget.Output(EvidenceBytes(e));
    if !ok { return Err(LimitExceeded, 0); }
    r := Ok(Entry(e, judged.value));
  }

  method JudgeMatches(i: Input, g: nat, ws: seq<Witness>, budget: Budget, present: array<bool>)
    returns (r: Result<()>, admitted: seq<Admitted>, blockers: seq<Blocker>)
    requires g < |i.field.groups| && AllFit(i, g, ws)
    requires present.Length == |i.field.groups[g]| && present[..] == Marks([], present.Length)
    modifies budget, present
    ensures match EntriesAt(i, g, Tally(old(budget.output), old(budget.steps), []), ws)
            case Err(code, offset) => r == Err(code, offset)
            case Ok(tally) =>
              && r.Ok? && budget.output == tally.output && budget.steps == tally.steps
              && admitted == AdmittedOf(tally.entries) && blockers == BlockedOf(g, tally.entries)
              && present[..] == Marks(ws, present.Length)
  {
    hide EntryAt, Candidates;
    admitted, blockers := [], [];
    ghost var entries: seq<Entry> := [];
    ghost var start := Tally(budget.output, budget.steps, []);
    assert ws[..0] == [];
    for k := 0 to |ws|
      invariant EntriesAt(i, g, start, ws[..k]) == Ok(Tally(budget.output, budget.steps, entries))
      invariant admitted == AdmittedOf(entries) && blockers == BlockedOf(g, entries)
      invariant present[..] == Marks(ws[..k], present.Length)
    {
      var w := ws[k];
      assert Fits(i, g, w);
      assert ws[..k + 1][..k] == ws[..k];
      present[w.alternative] := true;
      var judged := JudgeMatch(i, g, w, budget, entries);
      if judged.Err? {
        EntriesPrefixFails(i, g, start, ws, k + 1);
        return Err(judged.code, judged.offset), admitted, blockers;
      }
      var entry := judged.value;
      entries := entries + [entry];
      if entry.judgement.Accepted? {
        admitted := admitted + [Admitted(entry.evidence, entry.judgement.historical)];
      } else {
        blockers := blockers + [Blocker(g, w.alternative, entry.judgement.reason, Some(entry.evidence))];
      }
    }
    assert ws[..|ws|] == ws;
    r := Ok(());
  }

  method ListMissing(g: nat, n: nat, ws: seq<Witness>, budget: Budget, present: array<bool>, blocked: seq<Blocker>)
    returns (r: Result<()>, blockers: seq<Blocker>)
    requires present.Length == n && present[..] == Marks(ws, n)
    modifies budget
    ensures budget.steps == old(budget.steps)
    ensures match MissingAt(g, old(budget.output), ws, n)
            case Err(code, offset) => r == Err(code, offset)
            case Ok(missing) => r.Ok? && budget.output == missing.steps && blockers == blocked + missing.value
  {
    hide Seen, Marks;
    blockers := blocked;
    for a := 0 to n
      invariant budget.steps == old(budget.steps)
      invariant MissingAt(g, old(budget.output), ws, a).Ok?
      invariant budget.output == MissingAt(g, old(budget.output), ws, a).value.steps
      invariant blockers == blocked + MissingAt(g, old(budget.output), ws, a).value.value
    {
      MarksSeen(ws, n, a);
      if !present[..][a] {
        var ok := budget.Output(BLOCKER_SIZE);
        if !ok {
          MissingPrefixFails(g, old(budget.output), ws, a + 1, n);
          return Err(LimitExceeded, 0), blockers;
        }
        blockers := blockers + [Blocker(g, a, MissingCandidate, None)];
      }
    }
    r := Ok(());
  }

  method DecideGroup(i: Input, g: nat, ws: seq<Witness>, budget: Budget)
    returns (r: Result<GroupEvidence>)
    requires g < |i.field.groups| && AllFit(i, g, ws)
    modifies budget
    ensures forall groups ::
      match GroupAt(i, g, Course(old(budget.output), old(budget.steps), groups), ws)
      case Err(code, offset) => r == Err(code, offset)
      case Ok(course) =>
        && r.Ok? && course.groups == groups + [r.value]
        && budget.output == course.output && budget.steps == course.steps
  {
    hide EntriesAt, MissingAt, AdmittedOf, BlockedOf, Seen, Fits, Marks;
    MarksNone(|i.field.groups[g]|);
    var ok := budget.Output(GROUP_SIZE);
    if !ok { return Err(LimitExceeded, 0); }
    var present := new bool[|i.field.groups[g]|](_ => false);
    assert present[..] == seq(|i.field.groups[g]|, _ => false);
    var judged, admitted, blockers := JudgeMatches(i, g, ws, budget, present);
    if judged.Err? { return Err(judged.code, judged.offset); }
    var listed;
    listed, blockers := ListMissing(g, |i.field.groups[g]|, ws, budget, present, blockers);
    if listed.Err? { return Err(listed.code, listed.offset); }
    r := Ok(Conclude(admitted, blockers));
  }

  // ---------------------------------------------------------------------------------------------
  // The whole evaluation

  /** Work one atom may cause, or nothing once it exceeds the step budget. */
  function WorkOf(ps: seq<Package>): (work: Option<nat>)
    ensures work.Some? ==> work.value <= MAXIMUM_STEPS
  {
    if |ps| == 0 then Some(0)
    else
      var before := WorkOf(ps[..|ps| - 1]);
      if before.None? || ps[|ps| - 1].declared.atomCount >= MAXIMUM_STEPS - before.value then None
      else Some(before.value + 1 + ps[|ps| - 1].declared.atomCount)
  }

  lemma {:induction false} WorkPrefixFails(ps: seq<Package>, n: nat)
    requires n <= |ps| && WorkOf(ps[..n]).None?
    ensures WorkOf(ps).None?
  {
    if n < |ps| {
      assert ps[..|ps| - 1][..n] == ps[..n];
      WorkPrefixFails(ps[..|ps| - 1], n);
    } else {
      assert ps[..n] == ps;
    }
  }

  function StepsReserved(i: Input): Option<nat> {
    var work := WorkOf(Matching(Candidates(i)));
    if work.None? || (i.field.atomCount > 0 && work.value > MAXIMUM_STEPS / i.field.atomCount) then None
    else Some(work.value * i.field.atomCount)
  }

  predicate Aligned(i: Input, groups: seq<seq<Witness>>) {
    |groups| == |i.field.groups| && forall g :: 0 <= g < |groups| ==> AllFit(i, g, groups[g])
  }

  function CourseOf(i: Input, steps: nat, groups: seq<seq<Witness>>, n: nat): (r: Result<Course>)
    requires Aligned(i, groups) && n <= |groups|
  {
    if n == 0 then Ok(Course(0, steps, []))
    else
      match CourseOf(i, steps, groups, n - 1)
      case Err(code, offset) => Err(code, offset)
      case Ok(before) => GroupAt(i, n - 1, before, groups[n - 1])
  }

  lemma {:induction false} CoursePrefixFails(i: Input, steps: nat, groups: seq<seq<Witness>>, n: nat, m: nat)
    requires Aligned(i, groups) && n <= m <= |groups| && CourseOf(i, steps, groups, n).Err?
    ensures CourseOf(i, steps, groups, m) == CourseOf(i, steps, groups, n)
  {
    hide GroupAt, Aligned;
    if n < m { CoursePrefixFails(i, steps, groups, n, m - 1); }
  }

  /** The first phase. */
  function Structure(i: Input): Result<Evaluation>
    requires ValidInput(i)
  {
    QueriesValid(i);
    EvaluationOf(Structural(i))
  }

  lemma StructuralAligned(i: Input)
    requires ValidInput(i) && Structure(i).Ok?
    ensures Aligned(i, Structure(i).value.groups)
  {
    hide ValidInput, ValidQuery, EvaluationOf, ProbeVerdict, Before;
    QueriesValid(i);
    EvaluateExact(Structural(i));
    var groups := Structure(i).value.groups;
    forall g, k | 0 <= g < |groups| && 0 <= k < |groups[g]|
      ensures Fits(i, g, groups[g][k])
    {
      assert Exactly(Structural(i), g, groups[g]);
      assert ValidProbe(Structural(i), Place(groups[g][k]));
    }
  }

  predicate AllAdmitted(groups: seq<GroupEvidence>) {
    forall g :: 0 <= g < |groups| ==> |groups[g].witnesses| > 0
  }

  lemma AllAdmittedNext(groups: seq<GroupEvidence>, last: GroupEvidence)
    ensures AllAdmitted(groups + [last]) <==> AllAdmitted(groups) && |last.witnesses| > 0
  {
    var all := groups + [last];
    assert all[|groups|] == last && forall g :: 0 <= g < |groups| ==> groups[g] == all[g];
  }

  function DecisionOf(i: Input): Result<Decision>
    requires ValidInput(i)
  {
    var steps := StepsReserved(i);
    var shape := FieldOf(PreDepends, Shape(i.field).canonical);
    if i.field.kind != PreDepends then Err(UnsupportedUse, 0)
    else if steps.None? then Err(LimitExceeded, 0)
    else if shape.Err? then Err(shape.code, shape.offset)
    else
      match Structure(i)
      case Err(code, offset) => Err(code, offset)
      case Ok(structural) =>
        StructuralAligned(i);
        match CourseOf(i, steps.value, structural.groups, |structural.groups|)
        case Err(code, offset) => Err(code, offset)
        case Ok(course) => Ok(Decision(AllAdmitted(course.groups), course.groups))
  }

  method ReserveSteps(i: Input) returns (steps: Option<nat>, matching: seq<Package>)
    ensures steps == StepsReserved(i)
    ensures steps.Some? ==> matching == Matching(Candidates(i))
  {
    var candidates := Candidates(i);
    matching := [];
    var work := 0;
    for c := 0 to |candidates|
      invariant matching == Matching(candidates)[..c]
      invariant WorkOf(matching) == Some(work)
    {
      var p := candidates[c].package;
      ghost var next := Matching(candidates)[..c + 1];
      assert next[..c] == matching && next[c] == p;
      if p.declared.atomCount >= MAXIMUM_STEPS - work {
        WorkPrefixFails(Matching(candidates), c + 1);
        return None, matching;
      }
      work := work + 1 + p.declared.atomCount;
      matching := matching + [p];
    }
    assert Matching(candidates)[..|candidates|] == Matching(candidates);
    if i.field.atomCount > 0 && work > MAXIMUM_STEPS / i.field.atomCount { return None, matching; }
    steps := Some(work * i.field.atomCount);
  }

  method DecideGroups(i: Input, steps: nat, structural: seq<seq<Witness>>) returns (r: Result<Decision>)
    requires Aligned(i, structural)
    ensures match CourseOf(i, steps, structural, |structural|)
            case Err(code, offset) => r == Err(code, offset)
            case Ok(course) => r == Ok(Decision(AllAdmitted(course.groups), course.groups))
  {
    hide GroupAt;
    var budget := new Budget(steps);
    var groups: seq<GroupEvidence>, ready := [], true;
    for g := 0 to |structural|
      invariant fresh(budget)
      invariant CourseOf(i, steps, structural, g) == Ok(Course(budget.output, budget.steps, groups))
      invariant ready == AllAdmitted(groups)
    {
      var decided := DecideGroup(i, g, structural[g], budget);
      if decided.Err? {
        CoursePrefixFails(i, steps, structural, g + 1, |structural|);
        return Err(decided.code, decided.offset);
      }
      if |decided.value.witnesses| == 0 { ready := false; }
      AllAdmittedNext(groups, decided.value);
      groups := groups + [decided.value];
    }
    r := Ok(Decision(ready, groups));
  }

  method Decide(i: Input) returns (r: Result<Decision>)
    requires ValidInput(i)
    ensures r == DecisionOf(i)
  {
    hide StepsReserved, FieldOf, EvaluationOf, CourseOf, Aligned, Candidates;
    QueriesValid(i);
    if i.field.kind != PreDepends { return Err(UnsupportedUse, 0); }
    var steps, matching := ReserveSteps(i);
    if steps.None? { return Err(LimitExceeded, 0); }
    var text := VersionlessText(i.field);
    var shape := ParseField(PreDepends, text);
    if shape.Err? { return Err(shape.code, shape.offset); }
    Reparses(i.field);
    var structural := RelationshipMatching.Evaluate(
      Query(shape.value, i.incoming, matching, i.native, UnpackChecks, i.compare));
    if structural.Err? { return Err(structural.code, structural.offset); }
    StructuralAligned(i);
    r := DecideGroups(i, steps.value, structural.value.groups);
  }
}
