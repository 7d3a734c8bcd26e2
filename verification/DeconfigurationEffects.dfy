/**
 * Which installed generations the reviewed unpacks may deconfigure: the causes in action order,
 * and the one reviewed action that ends each deconfiguration.
 */
module DeconfigurationEffects {
  import opened Text
  import opened Packages
  import opened BinaryRelationships
  import opened RelationshipCanonical
  import opened RelationshipMatching
  import opened DpkgState
  import opened Reviews

  const MAXIMUM_CAUSES: nat := 16384
  const MAXIMUM_STEPS: nat := 65536
  const MAXIMUM_BYTES: nat := 32 * 1024 * 1024
  const MAXIMUM_PACKAGES: nat := 4096

  /** Control fields by lower-case name; the canonicalizer accepts no set with one missing. */
  datatype Metadata = Metadata(package: Instance, diskStatus: Status, configVersion: string,
                               evidenceIdentity: string, controls: Controls)
  datatype Checkpoint = Checkpoint(identity: string, state: State, metadata: map<string, Metadata>)
  datatype IndexControl = IndexControl(archive: Archive, evidenceIdentity: string, controls: Controls)

  /**
   * `order` lists the keys in the order the source's maps iterate them; `canonical` is the control
   * field canonicalizer, `hash` the checkpoint digest, and `sized` the answer of the size checks.
   */
  datatype Input = Input(review: Review, checkpoint: Checkpoint, records: seq<IndexControl>, compare: Comparator,
                         order: seq<string>, canonical: Controls -> bool, hash: Checkpoint -> string, sized: bool)

  datatype Incoming = Incoming(package: Package, breaks: Field)
  datatype CauseKind = BreaksCause | SiblingVersionMismatch
  datatype Cause = Cause(kind: CauseKind, unpackAction: nat, archive: string, canonicalRelation: string,
                         comparedVersion: string, group: nat, alternative: nat, provide: Slot)
  datatype Endpoint = Endpoint(action: nat, precedingUnpack: nat, kind: ActionKind, package: Instance)
  datatype Allowance = Allowance(installed: Instance, selection: Selection, initialStatus: Status, diskStatus: Status,
                                 configVersion: string, installedControlIdentity: string,
                                 installedScriptsIdentity: string, causes: seq<Cause>, endpoint: Endpoint)

  // ---------------------------------------------------------------------------------------------
  // Admission of the input

  /** A checkpoint whose rows are not filed under their own keys has no identity. */
  function CheckpointIdentity(i: Input): string {
    if Keyed(i.checkpoint.state.packages) then i.hash(i.checkpoint) else ""
  }

  predicate Enumerates(order: seq<string>, packages: map<string, Record>, actions: seq<ReviewedAction>) {
    && (forall j, k :: 0 <= j < k < |order| ==> order[j] != order[k])
    && (forall k :: k in packages ==> k in order)
    && (forall p :: 0 <= p < |actions| ==> Key(actions[p].package) in order)
  }

  /** What the iteration order of a map guarantees; not a demand on callers. */
  predicate Ordered(i: Input) {
    Enumerates(i.order, i.checkpoint.state.packages, i.review.actions)
  }

  predicate Admitted(i: Input) {
    && 0 < |i.review.actions| <= MAXIMUM_ACTIONS && |i.review.archives| <= MAXIMUM_ACTIONS
    && |i.records| == |i.review.archives|
    && |i.checkpoint.state.packages| <= MAXIMUM_PACKAGES
    && Digest(i.checkpoint.identity) && i.checkpoint.identity == CheckpointIdentity(i)
    && i.review.stateIdentity == i.checkpoint.state.identity
    && i.sized && i.review.bound
  }

  predicate ArchivesDistinct(archives: seq<Archive>) {
    && (forall a :: 0 <= a < |archives| ==> IdentityToken(archives[a].identifier))
    && (forall a, b :: 0 <= a < b < |archives| ==> archives[a].identifier != archives[b].identifier)
  }

  predicate PrimaryAction(review: Review, action: ReviewedAction) {
    && action.identifier != 0
    && action.action != Deconfigure && action.action != Triggers
    && PackageValid(action.package)
    && (if action.action == Unpack then
          exists a :: a in review.archives && a.identifier == action.archive && a.package == action.package
        else |action.archive| == 0)
  }

  predicate ActionsAdmitted(review: Review) {
    && (forall p :: 0 <= p < |review.actions| ==> PrimaryAction(review, review.actions[p]))
    && (forall p, q :: 0 <= p < q < |review.actions| ==> review.actions[p].identifier != review.actions[q].identifier)
  }

  function FieldName(kind: Kind): string {
    match kind
    case Depends => "depends"
    case PreDepends => "pre-depends"
    case Breaks => "breaks"
    case Conflicts => "conflicts"
    case Provides => "provides"
    case Replaces => "replaces"
  }

  function RelationField(c: Controls, kind: Kind): Result<Field> {
    FieldOf(kind, At(c, FieldName(kind)))
  }

  predicate Usable(c: Controls, kind: Kind) {
    RelationField(c, kind).Ok? && !NativeQualified(RelationField(c, kind).value)
  }

  predicate AllUsable(c: Controls) {
    Usable(c, Depends) && Usable(c, PreDepends) && Usable(c, Breaks) && Usable(c, Conflicts) && Usable(c, Replaces)
  }

  /** The package and its Breaks field, when every relationship field parses without `:native`. */
  function Understood(i: Input, c: Controls, p: Instance): Option<Incoming> {
    var package := PackageOf(p.package, p.version, p.architecture, At(c, "multi-arch"), At(c, FieldName(Provides)));
    if i.canonical(c) && package.Ok? && AllUsable(c)
    then Some(Incoming(package.value, RelationField(c, Breaks).value))
    else None
  }

  predicate RecordAdmitted(i: Input, r: IndexControl) {
    r.archive in i.review.archives && Digest(r.evidenceIdentity) && Understood(i, r.controls, r.archive.package).Some?
  }

  predicate RecordsAdmitted(i: Input) {
    && (forall r :: 0 <= r < |i.records| ==> RecordAdmitted(i, i.records[r]))
    && (forall r, s :: 0 <= r < s < |i.records| ==> i.records[r].archive.identifier != i.records[s].archive.identifier)
  }

  /** The index record of an archive among the first `n`. */
  function IncomingAmong(i: Input, n: nat, archive: string): Option<Incoming>
    requires n <= |i.records|
  {
    if n == 0 then None
    else if i.records[n - 1].archive.identifier == archive then Understood(i, i.records[n - 1].controls, i.records[n - 1].archive.package)
    else IncomingAmong(i, n - 1, archive)
  }

  function IncomingOf(i: Input, archive: string): Option<Incoming> {
    IncomingAmong(i, |i.records|, archive)
  }

  predicate RowAdmitted(i: Input, k: string)
    requires k in i.checkpoint.state.packages
  {
    var row := i.checkpoint.state.packages[k];
    |row.package.version| > 0 ==>
      && k in i.checkpoint.metadata && i.checkpoint.metadata[k].package == row.package
      && Digest(i.checkpoint.metadata[k].evidenceIdentity)
      && Understood(i, i.checkpoint.metadata[k].controls, row.package).Some?
  }

  predicate RowsAdmitted(i: Input) {
    forall k :: k in i.checkpoint.state.packages ==> RowAdmitted(i, k)
  }

  predicate InputAdmitted(i: Input) {
    && Admitted(i) && ArchivesDistinct(i.review.archives) && ActionsAdmitted(i.review)
    && RecordsAdmitted(i) && RowsAdmitted(i)
  }

  // ---------------------------------------------------------------------------------------------
  // Candidates, and which of them are still the initial generation

  function InstalledPackage(i: Input, k: string): Option<Package> {
    if k in i.checkpoint.state.packages && k in i.checkpoint.metadata
       && |i.checkpoint.state.packages[k].package.version| > 0
    then
      var parsed := Understood(i, i.checkpoint.metadata[k].controls, i.checkpoint.state.packages[k].package);
      if parsed.Some? then Some(parsed.value.package) else None
    else None
  }

  /** The installed packages that dpkg still considers configured, in map order. */
  function CandidatesAmong(i: Input, n: nat): seq<Package>
    requires n <= |i.order|
  {
    if n == 0 then []
    else
      var k := i.order[n - 1];
      var package := InstalledPackage(i, k);
      CandidatesAmong(i, n - 1)
      + (if package.Some? && k in i.checkpoint.state.packages && Configured(i.checkpoint.state.packages[k].status)
         then [package.value] else [])
  }

  function CandidatesOf(i: Input): seq<Package> {
    CandidatesAmong(i, |i.order|)
  }

  /** How many instances of the name are installed in any state, among the first `n` keys. */
  function InstancesAmong(i: Input, n: nat, name: string): nat
    requires n <= |i.order|
  {
    if n == 0 then 0
    else
      var k := i.order[n - 1];
      InstancesAmong(i, n - 1, name)
      + (if k in i.checkpoint.state.packages
            && i.checkpoint.state.packages[k].package.package == name
            && i.checkpoint.state.packages[k].status != NotInstalled then 1 else 0)
  }

  function InstancesOf(i: Input, name: string): nat {
    InstancesAmong(i, |i.order|, name)
  }

  /** Unpacking reuses the single installed slot across an all/native change. */
  predicate SingleReplacement(i: Input, incoming: Package, installed: Package) {
    && ((IsAll(incoming.architecture) && installed.architecture == i.checkpoint.state.native)
        || (IsAll(installed.architecture) && incoming.architecture == i.checkpoint.state.native))
    && InstancesOf(i, incoming.name) <= 1
    && (incoming.multiArch != Same || installed.multiArch != Same)
  }

  predicate Supersedes(i: Input, prior: ReviewedAction, c: Package) {
    || (prior.package.package == c.name && prior.package.architecture == c.architecture
        && (prior.action == Unpack || prior.action == Remove || prior.action == ActionKind.Purge))
    || (prior.action == Unpack && prior.package.package == c.name
        && IncomingOf(i, prior.archive).Some?
        && SingleReplacement(i, IncomingOf(i, prior.archive).value.package, c))
  }

  predicate Initial(i: Input, p: nat, c: Package)
    requires p <= |i.review.actions|
  {
    forall b :: 0 <= b < p ==> !Supersedes(i, i.review.actions[b], c)
  }

  function LiveAmong(i: Input, p: nat, cs: seq<Package>): seq<Package>
    requires p <= |i.review.actions|
  {
    if |cs| == 0 then []
    else LiveAmong(i, p, cs[..|cs| - 1]) + (if Initial(i, p, cs[|cs| - 1]) then [cs[|cs| - 1]] else [])
  }

  function LiveAt(i: Input, p: nat): seq<Package>
    requires p <= |i.review.actions|
  {
    LiveAmong(i, p, CandidatesOf(i))
  }

  // ---------------------------------------------------------------------------------------------
  // Causes of one unpack

  datatype Emission = Emission(target: Instance, cause: Cause, position: nat)

  function InstanceOf(p: Package): Instance {
    Instance(p.name, p.version, p.architecture)
  }

  function QueryAt(i: Input, incoming: Incoming, candidates: seq<Package>): Query {
    Query(incoming.breaks, incoming.package, candidates, i.checkpoint.state.native, UnpackChecks, i.compare)
  }

  /** The target must still be its initial, configured generation when the unpack starts. */
  predicate Addable(i: Input, target: Instance, p: nat)
    requires p <= |i.review.actions|
  {
    var k := Key(target);
    && k in i.checkpoint.state.packages && k in i.checkpoint.metadata
    && i.checkpoint.state.packages[k].package == target && !i.checkpoint.state.packages[k].reinstallRequired
    && Configured(i.checkpoint.state.packages[k].status) && Configured(i.checkpoint.metadata[k].diskStatus)
    && forall b :: 0 <= b < p ==> !Unpacks(i.review.actions[b], k)
  }

  function BreaksEmission(action: ReviewedAction, relation: string, p: nat, w: Witness): Emission {
    Emission(Instance(w.package, w.version, w.architecture),
             Cause(BreaksCause, action.identifier, action.archive, relation, w.comparedVersion,
                   w.group, w.alternative, w.provide), p)
  }

  function GroupEmissions(action: ReviewedAction, relation: string, p: nat, ws: seq<Witness>): (es: seq<Emission>)
    ensures |es| == |ws|
    ensures forall k :: 0 <= k < |ws| ==> es[k] == BreaksEmission(action, relation, p, ws[k])
  {
    seq(|ws|, k requires 0 <= k < |ws| => BreaksEmission(action, relation, p, ws[k]))
  }

  function BreaksEmissions(action: ReviewedAction, relation: string, p: nat, groups: seq<seq<Witness>>): seq<Emission> {
    if |groups| == 0 then []
    else BreaksEmissions(action, relation, p, groups[..|groups| - 1])
         + GroupEmissions(action, relation, p, groups[|groups| - 1])
  }

  /** A provider match must be the only match of its group. */
  predicate ProviderClear(ws: seq<Witness>) {
    (exists k :: 0 <= k < |ws| && ws[k].provide.Provided?) ==> |ws| == 1
  }

  /** Another architecture of the incoming package that stays installed beside it. */
  predicate Sibling(i: Input, incoming: Package, c: Package) {
    && c.name == incoming.name && c.architecture != incoming.architecture
    && !SingleReplacement(i, incoming, c)
  }

  function VersionOrder(i: Input, c: Package, incoming: Package): Option<int> {
    if i.compare.None? then None
    else
      match i.compare.value(c.version, incoming.version)
      case Compared(ordering) => Some(ordering)
      case _ => None
  }

  /** Siblings must both be Multi-Arch: same, with versions the comparator can order. */
  predicate SiblingClear(i: Input, incoming: Package, c: Package) {
    Sibling(i, incoming, c) ==>
      c.multiArch == Same && incoming.multiArch == Same && VersionOrder(i, c, incoming).Some?
  }

  predicate Mismatched(i: Input, incoming: Package, c: Package) {
    Sibling(i, incoming, c) && VersionOrder(i, c, incoming).Some? && VersionOrder(i, c, incoming).value != 0
  }

  function SiblingEmission(action: ReviewedAction, p: nat, c: Package): Emission {
    Emission(InstanceOf(c),
             Cause(SiblingVersionMismatch, action.identifier, action.archive, "", c.version, 0, 0, Direct), p)
  }

  function SiblingEmissions(i: Input, action: ReviewedAction, incoming: Package, p: nat, cs: seq<Package>): seq<Emission> {
    if |cs| == 0 then []
    else
      var c := cs[|cs| - 1];
      SiblingEmissions(i, action, incoming, p, cs[..|cs| - 1])
      + (if Mismatched(i, incoming, c) then [SiblingEmission(action, p, c)] else [])
  }

  // ---------------------------------------------------------------------------------------------
  // Admission of each unpack

  /** The witnesses of the incoming Breaks field, unless the evaluation fails. */
  function BreaksMatches(i: Input, incoming: Incoming, candidates: seq<Package>): Option<seq<seq<Witness>>> {
    var q := QueryAt(i, incoming, candidates);
    if ValidQuery(q) && EvaluationOf(q).Ok? then Some(EvaluationOf(q).value.groups) else None
  }

  function EmissionsAt(i: Input, p: nat): seq<Emission>
    requires p < |i.review.actions|
  {
    var action := i.review.actions[p];
    var incoming := IncomingOf(i, action.archive);
    if action.action != Unpack || incoming.None? then []
    else
      var live := LiveAt(i, p);
      var groups := BreaksMatches(i, incoming.value, live);
      (if groups.None? then [] else BreaksEmissions(action, incoming.value.breaks.canonical, p, groups.value))
      + SiblingEmissions(i, action, incoming.value.package, p, live)
  }

  predicate UnpackAdmitted(i: Input, p: nat)
    requires p < |i.review.actions|
  {
    var action := i.review.actions[p];
    var incoming := IncomingOf(i, action.archive);
    action.action == Unpack ==>
      && incoming.Some?
      && var live := LiveAt(i, p);
      && var groups := BreaksMatches(i, incoming.value, live);
      && groups.Some?
      && (forall g :: 0 <= g < |groups.value| ==> ProviderClear(groups.value[g]))
      && (forall c :: 0 <= c < |live| ==> SiblingClear(i, incoming.value.package, live[c]))
      && (forall e :: 0 <= e < |EmissionsAt(i, p)| ==> Addable(i, EmissionsAt(i, p)[e].target, p))
  }

  function EmissionsBefore(i: Input, n: nat): seq<Emission>
    requires n <= |i.review.actions|
  {
    if n == 0 then [] else EmissionsBefore(i, n - 1) + EmissionsAt(i, n - 1)
  }

  function EmissionsOf(i: Input): seq<Emission> {
    EmissionsBefore(i, |i.review.actions|)
  }

  predicate ArchiveUsed(actions: seq<ReviewedAction>, identifier: string) {
    exists p :: 0 <= p < |actions| && actions[p].action == Unpack && actions[p].archive == identifier
  }

  predicate ArchivesUsed(review: Review) {
    forall a :: 0 <= a < |review.archives| ==> ArchiveUsed(review.actions, review.archives[a].identifier)
  }

  // ---------------------------------------------------------------------------------------------
  // Generations a run itself brings up

  /** What is configured by the reviewed actions before `q`, by slot. */
  function FutureAt(i: Input, q: nat): map<string, Package>
    requires q <= |i.review.actions|
  {
    if q == 0 then map[]
    else
      var prior := i.review.actions[q - 1];
      var k := Key(prior.package);
      var before := FutureAt(i, q - 1);
      match prior.action
      case Unpack => before - {k}
      case Remove => before - {k}
      case Purge => before - {k}
      case Configure =>
        var u := LastUnpack(i.review.actions, q - 1, k);
        var unpacked := if u < q - 1 then IncomingOf(i, i.review.actions[u].archive) else None;
        if u < q - 1 then
          if i.review.actions[u].package == prior.package && unpacked.Some? then before[k := unpacked.value.package] else before
        else
          var installed := InstalledPackage(i, k);
          if installed.Some? && installed.value.version == prior.package.version then before[k := installed.value] else before
      case _ => before
  }

  function ValuesAmong(order: seq<string>, m: map<string, Package>): seq<Package> {
    if |order| == 0 then []
    else
      var k := order[|order| - 1];
      ValuesAmong(order[..|order| - 1], m) + (if k in m then [m[k]] else [])
  }

  /** No such generation is matched by a later Breaks or left beside a different version. */
  predicate FutureClear(i: Input, p: nat)
    requires p < |i.review.actions|
  {
    var action := i.review.actions[p];
    var incoming := IncomingOf(i, action.archive);
    action.action == Unpack ==>
      && incoming.Some?
      && var values := ValuesAmong(i.order, FutureAt(i, p));
      && var groups := BreaksMatches(i, incoming.value, values);
      && groups.Some? && !AnyMatched(groups.value)
      && forall c :: 0 <= c < |values| ==>
           SiblingClear(i, incoming.value.package, values[c]) && !Mismatched(i, incoming.value.package, values[c])
  }

  // ---------------------------------------------------------------------------------------------
  // Endpoints

  predicate Ends(action: ReviewedAction, key: string) {
    && Key(action.package) == key
    && (action.action == Configure || action.action == Remove || action.action == ActionKind.Purge)
  }

  /** The generation an action on the slot must name: that of the last unpack, or the installed one. */
  function Expected(actions: seq<ReviewedAction>, p: nat, installed: Instance): Instance
    requires p <= |actions|
  {
    var u := LastUnpack(actions, p, Key(installed));
    if u < p then actions[u].package else installed
  }

  /** An explicit removal may be followed by the purge of the same generation. */
  predicate Paired(actions: seq<ReviewedAction>, e: nat, p: nat)
    requires e < |actions| && p < |actions|
  {
    && actions[e].action == Remove && actions[p].action == ActionKind.Purge
    && actions[e].package == actions[p].package
    && PrecedingUnpack(actions, e, Key(actions[e].package)) == PrecedingUnpack(actions, p, Key(actions[e].package))
  }

  /** `e` is the one action after `cause` that ends the deconfiguration. */
  predicate EndsAt(actions: seq<ReviewedAction>, cause: nat, installed: Instance, e: nat) {
    var key := Key(installed);
    && cause < e < |actions| && Ends(actions[e], key)
    && (forall p :: cause < p < |actions| && Ends(actions[p], key) ==>
          && e <= p && actions[p].package == Expected(actions, p, installed)
          && (e < p ==> Paired(actions, e, p)))
    && (forall p, q :: e < p < q < |actions| ==> !(Ends(actions[p], key) && Ends(actions[q], key)))
  }

  function EndpointOf(actions: seq<ReviewedAction>, installed: Instance, e: nat): Endpoint
    requires e < |actions|
  {
    Endpoint(actions[e].identifier, PrecedingUnpack(actions, e, Key(installed)), actions[e].action, actions[e].package)
  }

  // ---------------------------------------------------------------------------------------------
  // The allowances

  function CausesFor(es: seq<Emission>, generation: string): seq<Cause> {
    if |es| == 0 then []
    else
      var e := es[|es| - 1];
      CausesFor(es[..|es| - 1], generation) + (if Generation(e.target) == generation then [e.cause] else [])
  }

  /** The position of the last cause of that generation. */
  function LastCause(es: seq<Emission>, generation: string): nat {
    if |es| == 0 then 0
    else if Generation(es[|es| - 1].target) == generation then es[|es| - 1].position
    else LastCause(es[..|es| - 1], generation)
  }

  predicate Begins(i: Input, target: Instance, a: Allowance)
  {
    var k := Key(target);
    && k in i.checkpoint.state.packages && k in i.checkpoint.metadata
    && a.installed == target
    && a.selection == i.checkpoint.state.packages[k].selection
    && a.initialStatus == i.checkpoint.state.packages[k].status
    && a.diskStatus == i.checkpoint.metadata[k].diskStatus
    && a.configVersion == i.checkpoint.metadata[k].configVersion
    && a.installedControlIdentity == i.checkpoint.metadata[k].evidenceIdentity
  }

  ghost predicate Named(es: seq<Emission>, generation: string) {
    exists e :: 0 <= e < |es| && Generation(es[e].target) == generation
  }

  /** One allowance for each generation with a cause, holding its causes in order. */
  ghost predicate Collected(i: Input, es: seq<Emission>, allowances: map<string, Allowance>) {
    && (forall g :: g in allowances <==> Named(es, g))
    && (forall e :: 0 <= e < |es| ==> Begins(i, es[e].target, allowances[Generation(es[e].target)]))
    && (forall g :: g in allowances ==> allowances[g].causes == CausesFor(es, g))
  }

  ghost predicate Ended(i: Input, es: seq<Emission>, allowances: map<string, Allowance>) {
    forall g :: g in allowances ==>
      exists e :: EndsAt(i.review.actions, LastCause(es, g), allowances[g].installed, e)
                  && allowances[g].endpoint == EndpointOf(i.review.actions, allowances[g].installed, e)
  }

  /** What is checked before any endpoint is sought. */
  predicate CausesAdmitted(i: Input) {
    && InputAdmitted(i)
    && (forall p :: 0 <= p < |i.review.actions| ==> UnpackAdmitted(i, p))
    && ArchivesUsed(i.review)
    && (forall p :: 0 <= p < |i.review.actions| ==> FutureClear(i, p))
  }

  /** Each generation with a cause has exactly one way to end. */
  ghost predicate Endable(i: Input, es: seq<Emission>) {
    forall k :: 0 <= k < |es| ==> HasEnd(i, es, es[k].target)
  }

  ghost predicate HasEnd(i: Input, es: seq<Emission>, target: Instance) {
    exists e :: EndsAt(i.review.actions, LastCause(es, Generation(target)), target, e)
  }

  ghost predicate Derivable(i: Input) {
    CausesAdmitted(i) && Endable(i, EmissionsOf(i))
  }
}
