/**
 * Why one structural match of a Pre-Depends counts or does not, phase by phase: the phases, the
 * two versions and the reasons are written out here, apart from the steps that judge a match.
 */
module PreDependsReasons {
  import opened Text
  import opened Packages
  import opened BinaryRelationships
  import opened RelationshipMatching
  import opened MatchingMeaning
  import opened PreDepends

  /** The current version must satisfy the atom. */
  ghost function ByVersion(compare: Comparator, atom: Atom, version: string): Judgement {
    if InRelation(compare, atom, version) then Accepted(false) else Rejected(CurrentVersionMismatch)
  }

  /** A package that is unpacked but not configured counts for the version it had when it last was. */
  ghost function ByHistory(compare: Comparator, atom: Atom, current: string, configured: string): Judgement {
    if configured == "" then Rejected(NeverConfigured)
    else if !InRelation(compare, atom, current) then Rejected(CurrentVersionMismatch)
    else if !InRelation(compare, atom, configured) then Rejected(ConfiguredVersionMismatch)
    else Accepted(true)
  }

  ghost function CallsFor(compare: Comparator, atom: Atom, c: Candidate, slot: Slot, current: string): Judgement {
    match c
    case Incoming(_) => ByVersion(compare, atom, current)
    case Present(_, status, _, configured, _, queued) =>
      if queued then Rejected(QueuedDeconfiguration)
      else
        match status
        case Installed => ByVersion(compare, atom, current)
        case TriggersPending => ByVersion(compare, atom, current)
        case TriggersAwaited => if slot.Direct? then ByHistory(compare, atom, current, configured) else Rejected(PhaseNotEligible)
        case HalfConfigured => if slot.Direct? then ByHistory(compare, atom, current, configured) else Rejected(PhaseNotEligible)
        case Unpacked => if slot.Direct? then ByHistory(compare, atom, current, configured) else Rejected(PhaseNotEligible)
        case HalfInstalled => Rejected(PhaseNotEligible)
        case ConfigFiles => Rejected(PhaseNotEligible)
        case NotInstalled => Rejected(PhaseNotEligible)
  }

  lemma SatisfiesMeans(compare: Comparator, atom: Atom, version: string, steps: nat)
    requires SatisfiesAt(compare, atom, version, steps).Ok?
    ensures SatisfiesAt(compare, atom, version, steps).value.value == InRelation(compare, atom, version)
  {
    hide InRelation;
    VersionMeans(compare, atom, version);
    NoVersionMeans(compare, atom, version);
  }

  lemma NoVersionMeans(compare: Comparator, atom: Atom, version: string)
    ensures atom.relation == NoRelation ==> InRelation(compare, atom, version)
    ensures atom.relation != NoRelation && version == "" ==> !InRelation(compare, atom, version)
  {
  }

  /** A judgement that was reached is the one the phase calls for. */
  lemma JudgeMeans(compare: Comparator, atom: Atom, c: Candidate, w: Witness, steps: nat)
    requires JudgeAt(compare, atom, c, w, steps).Ok?
    ensures JudgeAt(compare, atom, c, w, steps).value.value == CallsFor(compare, atom, c, w.provide, w.comparedVersion)
  {
    hide SatisfiesAt, InRelation;
    forall version, s: nat | SatisfiesAt(compare, atom, version, s).Ok?
      ensures SatisfiesAt(compare, atom, version, s).value.value == InRelation(compare, atom, version)
    {
      SatisfiesMeans(compare, atom, version, s);
    }
  }
}
