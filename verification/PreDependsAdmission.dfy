/**
 * Which installed instances may count for Pre-Depends of an archive: every instance the unpack
 * leaves in place, read from its retained control data, and no other.
 */
module PreDependsAdmission {
  import opened Text
  import opened Packages
  import opened BinaryRelationships
  import opened RelationshipCanonical
  import opened RelationshipMatching
  import opened PreDepends
  import opened PreDependsRefinement
  import Reviews
  import DpkgState

  const MAXIMUM_PACKAGES: nat := 4096

  /** What is retained of an installed package beside dpkg's own view of it. */
  datatype Retained = Retained(package: Instance, diskStatus: Status, evidence: string, configVersion: string, controls: Controls)
  datatype Metadata = Metadata(identity: string, packages: map<string, Retained>)

  datatype Setting = Setting(incoming: Package, state: State, metadata: Metadata, native: string,
                             queued: seq<Instance>, canonical: Controls -> Option<Controls>)

  // ---------------------------------------------------------------------------------------------
  // The setting

  predicate Registered(architectures: seq<string>, native: string) {
    && 0 < |architectures| <= 256 && architectures[0] == native
    && (forall i :: 0 <= i < |architectures| ==> architectures[i] != "all" && ConcreteArchitecture(architectures[i]))
    && forall i, j :: 0 <= i < j < |architectures| ==> architectures[i] != architectures[j]
  }

  predicate QueueFits(s: Setting) {
    && (forall i :: 0 <= i < |s.queued| ==> QueuedFits(s.state, s.queued[i]))
    && forall i, j :: 0 <= i < j < |s.queued| ==> Key(s.queued[i]) != Key(s.queued[j])
  }

  predicate QueuedFits(state: State, g: Instance) {
    Key(g) in state.packages && state.packages[Key(g)].package == g && Configured(state.packages[Key(g)].status)
  }

  predicate IsQueued(s: Setting, key: string) {
    exists i :: 0 <= i < |s.queued| && Key(s.queued[i]) == key
  }

  function SettingFits(s: Setting): Result<()> {
    if !DpkgState.Visible(s.state.identity) || s.metadata.identity != s.state.identity || s.state.native != s.native
       || |s.state.packages| > MAXIMUM_PACKAGES || |s.metadata.packages| > MAXIMUM_PACKAGES || |s.queued| > MAXIMUM_PACKAGES
    then Err(InvalidInput, 0)
    else if s.native == "all" || !ConcreteArchitecture(s.native) || !Registered(s.state.architectures, s.native)
    then Err(InvalidArchitecture, 0)
    else if s.incoming.architecture != "all" && s.incoming.architecture !in s.state.architectures then Err(InvalidArchitecture, 0)
    else if !QueueFits(s) then Err(InvalidInput, 0)
    else Ok(())
  }

  // ---------------------------------------------------------------------------------------------
  // One record

  /** A row that only exists because another package mentions the name. */
  predicate Nameless(r: Record) {
    |r.package.version| == 0 && |r.package.architecture| == 0
  }

  predicate NamelessFits(r: Record) {
    && r.status == NotInstalled && !r.reinstallRequired && (|r.multiArch| == 0 || r.multiArch == "no")
    && |r.pending| == 0 && |r.awaited| == 0
  }

  predicate RetainedFits(r: Record, m: Retained) {
    && m.package == r.package
    && (r.status == m.diskStatus || (Configured(r.status) && Configured(m.diskStatus)))
    && Reviews.Digest(m.evidence) && (|m.configVersion| == 0 || Version(m.configVersion))
    && (Active(m.diskStatus) ==> m.configVersion == r.package.version)
    && (m.diskStatus == NotInstalled ==> |m.configVersion| == 0)
  }

  predicate ControlsFit(s: Setting, r: Record, m: Retained) {
    var c := s.canonical(m.controls);
    c == Some(m.controls) && At(m.controls, "multi-arch") == if |r.multiArch| == 0 then "no" else r.multiArch
  }

  /** Instances of the incoming name that are not merely known. */
  function NamedAmong(s: Setting, order: seq<string>): nat {
    if |order| == 0 then 0
    else NamedAmong(s, order[..|order| - 1]) + (if NamedInstance(s, order[|order| - 1]) then 1 else 0)
  }

  predicate NamedInstance(s: Setting, key: string) {
    key in s.state.packages && s.state.packages[key].package.package == s.incoming.name && s.state.packages[key].status != NotInstalled
  }

  predicate Switches(s: Setting, architecture: string) {
    || (architecture == "all" && s.incoming.architecture == s.native)
    || (s.incoming.architecture == "all" && architecture == s.native)
  }

  /** Whether the unpack replaces the instance; some combinations are not decided. */
  function Replaced(s: Setting, named: nat, r: Record, p: Package): Result<bool> {
    if p.name == s.incoming.name && p.architecture == s.incoming.architecture then Ok(true)
    else if p.name == s.incoming.name && r.status != NotInstalled && !(p.multiArch == Same && s.incoming.multiArch == Same) then
      if named > 1 || !Switches(s, p.architecture) then Err(UnsupportedUse, 0) else Ok(true)
    else Ok(false)
  }

  function RecordAdmitted(s: Setting, named: nat, key: string): Result<Option<Candidate>>
    requires key in s.state.packages
  {
    var r := s.state.packages[key];
    if key != Key(r.package) then Err(InvalidInput, 0)
    else if Nameless(r) then if NamelessFits(r) then Ok(None) else Err(InvalidInput, 0)
    else if key !in s.metadata.packages || !RetainedFits(r, s.metadata.packages[key]) then Err(InvalidInput, 0)
    else if !ControlsFit(s, r, s.metadata.packages[key]) then Err(InvalidInput, 0)
    else
      var m := s.metadata.packages[key];
      match PackageOf(r.package.package, r.package.version, r.package.architecture, At(m.controls, "multi-arch"), At(m.controls, "provides"))
      case Err(code, offset) => Err(code, offset)
      case Ok(p) =>
        if p.architecture != "all" && p.architecture !in s.state.architectures then Err(InvalidArchitecture, 0)
        else
          match Replaced(s, named, r, p)
          case Err(code, offset) => Err(code, offset)
          case Ok(true) => if IsQueued(s, key) then Err(InvalidInput, 0) else Ok(None)
          case Ok(false) => Ok(Some(Present(p, r.status, m.diskStatus, m.configVersion, m.evidence, IsQueued(s, key))))
  }

  // ---------------------------------------------------------------------------------------------
  // All records in key order

  ghost predicate Enumerates(order: seq<string>, packages: map<string, Record>) {
    && (forall k :: k in order <==> k in packages)
    && forall i, j :: 0 <= i < j < |order| ==> order[i] != order[j]
  }

  function AdmittedFrom(s: Setting, named: nat, order: seq<string>): Result<seq<Candidate>>
    requires forall k :: k in order ==> k in s.state.packages
  {
    if |order| == 0 then Ok([])
    else
      match AdmittedFrom(s, named, order[..|order| - 1])
      case Err(code, offset) => Err(code, offset)
      case Ok(before) =>
        match RecordAdmitted(s, named, order[|order| - 1])
        case Err(code, offset) => Err(code, offset)
        case Ok(None) => Ok(before)
        case Ok(Some(c)) => Ok(before + [c])
  }

  /** Every retained entry belongs to a record that was read with it. */
  predicate MetadataUsed(s: Setting) {
    forall k :: k in s.metadata.packages ==> k in s.state.packages && !Nameless(s.state.packages[k])
  }

  function Admission(s: Setting, order: seq<string>): Result<seq<Candidate>>
    requires Enumerates(order, s.state.packages)
  {
    match SettingFits(s)
    case Err(code, offset) => Err(code, offset)
    case Ok(_) =>
      match AdmittedFrom(s, NamedAmong(s, order), order)
      case Err(code, offset) => Err(code, offset)
      case Ok(cs) => if MetadataUsed(s) then Ok(cs) else Err(InvalidInput, 0)
  }

  lemma {:induction false} AdmittedPrefixFails(s: Setting, named: nat, order: seq<string>, n: nat)
    requires (forall k :: k in order ==> k in s.state.packages) && n <= |order|
    requires AdmittedFrom(s, named, order[..n]).Err?
    ensures AdmittedFrom(s, named, order) == AdmittedFrom(s, named, order[..n])
    decreases |order|
  {
    hide RecordAdmitted;
    if n < |order| {
      assert order[..|order| - 1][..n] == order[..n];
      AdmittedPrefixFails(s, named, order[..|order| - 1], n);
    } else {
      assert order[..n] == order;
    }
  }

  // ---------------------------------------------------------------------------------------------
  // The loops

  method CheckArchitectures(architectures: seq<string>, native: string) returns (ok: bool)
    ensures ok == Registered(architectures, native)
  {
    hide ConcreteArchitecture;
    if |architectures| == 0 || |architectures| > 256 || architectures[0] != native { return false; }
    var seen: set<string> := {};
    for i := 0 to |architectures|
      invariant forall j :: 0 <= j < i ==> architectures[j] != "all" && ConcreteArchitecture(architectures[j])
      invariant forall j, k :: 0 <= j < k < i ==> architectures[j] != architectures[k]
      invariant forall a :: a in seen <==> a in architectures[..i]
    {
      if architectures[i] == "all" || !ConcreteArchitecture(architectures[i]) { return false; }
      if architectures[i] in seen {
        var j :| 0 <= j < i && architectures[j] == architectures[i];
        return false;
      }
      seen := seen + {architectures[i]};
    }
    ok := true;
  }

  method CheckQueue(s: Setting) returns (ok: bool)
    ensures ok == QueueFits(s)
  {
    var seen: set<string> := {};
    for i := 0 to |s.queued|
      invariant forall j :: 0 <= j < i ==> QueuedFits(s.state, s.queued[j])
      invariant forall j, k :: 0 <= j < k < i ==> Key(s.queued[j]) != Key(s.queued[k])
      invariant forall key :: key in seen <==> exists j :: 0 <= j < i && Key(s.queued[j]) == key
    {
      var g := s.queued[i];
      if !QueuedFits(s.state, g) { return false; }
      if Key(g) in seen {
        var j :| 0 <= j < i && Key(s.queued[j]) == Key(g);
        return false;
      }
      seen := seen + {Key(g)};
    }
    ok := true;
  }

  method CountNamed(s: Setting, order: seq<string>) returns (n: nat)
    ensures n == NamedAmong(s, order)
  {
    n := 0;
    for i := 0 to |order|
      invariant n == NamedAmong(s, order[..i])
    {
      assert order[..i + 1][..i] == order[..i];
      if NamedInstance(s, order[i]) { n := n + 1; }
    }
    assert order[..|order|] == order;
  }

  /** Reads one record with its metadata. */
  method AdmitRecord(s: Setting, named: nat, key: string) returns (r: Result<Option<Candidate>>, used: bool)
    requires key in s.state.packages
    ensures r == RecordAdmitted(s, named, key)
    ensures r.Ok? ==> used == !Nameless(s.state.packages[key]) && (used ==> key in s.metadata.packages)
  {
    hide Version, PackageOf, IsQueued;
    var record := s.state.packages[key];
    used := false;
    if key != Key(record.package) { return Err(InvalidInput, 0), used; }
    if Nameless(record) {
      if !NamelessFits(record) { return Err(InvalidInput, 0), used; }
      return Ok(None), used;
    }
    if key !in s.metadata.packages || !RetainedFits(record, s.metadata.packages[key]) { return Err(InvalidInput, 0), used; }
    used := true;
    var control := s.metadata.packages[key];
    if !ControlsFit(s, record, control) { return Err(InvalidInput, 0), used; }
    var package := ParsePackage(record.package.package, record.package.version, record.package.architecture,
                                At(control.controls, "multi-arch"), At(control.controls, "provides"));
    if package.Err? { return Err(package.code, package.offset), used; }
    var p := package.value;
    if p.architecture != "all" && p.architecture !in s.state.architectures { return Err(InvalidArchitecture, 0), used; }
    var replaced := p.name == s.incoming.name && p.architecture == s.incoming.architecture;
    if p.name == s.incoming.name && record.status != NotInstalled && !replaced
       && !(p.multiArch == Same && s.incoming.multiArch == Same) {
      if named > 1 || !Switches(s, p.architecture) { return Err(UnsupportedUse, 0), used; }
      replaced := true;
    }
    if replaced {
      if IsQueued(s, key) { return Err(InvalidInput, 0), used; }
      return Ok(None), used;
    }
    r := Ok(Some(Present(p, record.status, control.diskStatus, control.configVersion, control.evidence, IsQueued(s, key))));
  }

  method Admit(s: Setting, order: seq<string>) returns (r: Result<seq<Candidate>>)
    requires Enumerates(order, s.state.packages)
    ensures r == Admission(s, order)
  {
    hide RecordAdmitted, ConcreteArchitecture, Registered, QueueFits, Nameless, NamedAmong;
    if !DpkgState.Visible(s.state.identity) || s.metadata.identity != s.state.identity || s.state.native != s.native
       || |s.state.packages| > MAXIMUM_PACKAGES || |s.metadata.packages| > MAXIMUM_PACKAGES || |s.queued| > MAXIMUM_PACKAGES {
      return Err(InvalidInput, 0);
    }
    if s.native == "all" || !ConcreteArchitecture(s.native) { return Err(InvalidArchitecture, 0); }
    var known := CheckArchitectures(s.state.architectures, s.native);
    if !known { return Err(InvalidArchitecture, 0); }
    if s.incoming.architecture != "all" && s.incoming.architecture !in s.state.architectures { return Err(InvalidArchitecture, 0); }
    var queue := CheckQueue(s);
    if !queue { return Err(InvalidInput, 0); }
    var named := CountNamed(s, order);
    var candidates: seq<Candidate>, used: set<string> := [], {};
    for i := 0 to |order|
      invariant AdmittedFrom(s, named, order[..i]) == Ok(candidates)
      invariant forall k :: k in used <==> k in order[..i] && !Nameless(s.state.packages[k])
      invariant forall k :: k in used ==> k in s.metadata.packages
    {
      assert order[..i + 1][..i] == order[..i];
      var admitted, taken := AdmitRecord(s, named, order[i]);
      if admitted.Err? {
        AdmittedPrefixFails(s, named, order, i + 1);
        return Err(admitted.code, admitted.offset);
      }
      if taken { used := used + {order[i]}; }
      if admitted.value.Some? { candidates := candidates + [admitted.value.value]; }
    }
    assert order[..|order|] == order;
    UsedAll(used, s.metadata.packages);
    if |used| != |s.metadata.packages| { return Err(InvalidInput, 0); }
    r := Ok(candidates);
  }

  /** Entries that were used are all entries exactly when there are as many. */
  lemma UsedAll(used: set<string>, packages: map<string, Retained>)
    requires forall k :: k in used ==> k in packages
    ensures |used| == |packages| <==> forall k :: k in packages ==> k in used
  {
    var keys := packages.Keys;
    assert used <= keys && |keys| == |packages|;
    assert used + (keys - used) == keys;
    assert |keys| == |used| + |keys - used|;
    if |used| == |packages| {
      assert keys - used == {};
    } else {
      assert keys - used != {};
    }
  }

  // ---------------------------------------------------------------------------------------------
  // What admission means

  /** The candidates are what the records give, and every record was accepted. */
  lemma {:induction false} AdmittedExactly(s: Setting, named: nat, order: seq<string>)
    requires (forall k :: k in order ==> k in s.state.packages) && AdmittedFrom(s, named, order).Ok?
    ensures forall k :: k in order ==> RecordAdmitted(s, named, k).Ok?
    ensures forall k :: k in order && RecordAdmitted(s, named, k).value.Some? ==>
              RecordAdmitted(s, named, k).value.value in AdmittedFrom(s, named, order).value
    ensures forall c :: c in AdmittedFrom(s, named, order).value ==>
              exists k :: k in order && RecordAdmitted(s, named, k) == Ok(Some(c))
  {
    hide RecordAdmitted;
    if |order| > 0 {
      var front, last := order[..|order| - 1], order[|order| - 1];
      AdmittedExactly(s, named, front);
      assert order == front + [last];
      forall c | c in AdmittedFrom(s, named, order).value
        ensures exists k :: k in order && RecordAdmitted(s, named, k) == Ok(Some(c))
      {
        if c in AdmittedFrom(s, named, front).value {
          var k :| k in front && RecordAdmitted(s, named, k) == Ok(Some(c));
          assert k in order;
        } else {
          assert RecordAdmitted(s, named, last) == Ok(Some(c));
        }
      }
    }
  }

  /** A candidate is the record's own instance, and a package as its parser makes them. */
  lemma CandidateIsRecord(s: Setting, named: nat, key: string)
    requires key in s.state.packages && RecordAdmitted(s, named, key).Ok? && RecordAdmitted(s, named, key).value.Some?
    ensures var r, c := s.state.packages[key], RecordAdmitted(s, named, key).value.value;
            && c.Present? && ValidPackage(c.package) && key == Key(r.package)
            && Instance(c.package.name, c.package.version, c.package.architecture) == r.package
            && c.status == r.status && c.queued == IsQueued(s, key)
  {
    hide Version, Name, ConcreteArchitecture, IsQueued, NamelessFits, RetainedFits, ControlsFit, PackageOf;
    var r, m := s.state.packages[key], s.metadata.packages[key];
    PackageFields(r.package.package, r.package.version, r.package.architecture, At(m.controls, "multi-arch"), At(m.controls, "provides"));
  }

  lemma PackageFields(name: string, version: string, architecture: string, multiArch: string, provides': string)
    ensures var p := PackageOf(name, version, architecture, multiArch, provides');
            p.Ok? ==> ValidPackage(p.value) && p.value.name == name && p.value.version == version && p.value.architecture == architecture
  {
    hide Version, Name, ConcreteArchitecture, FieldOf, ValidPackage, MultiArchOf;
    if PackageOf(name, version, architecture, multiArch, provides').Ok? {
      ParsedPackageIsValid(name, version, architecture, multiArch, provides');
    }
  }

  function InputFor(field: Field, s: Setting, candidates: seq<Candidate>, compare: Comparator): Input {
    Input(field, s.incoming, candidates, s.native, compare)
  }

  /** What admission hands over meets everything the evaluation assumes. */
  lemma AdmissionValid(field: Field, s: Setting, order: seq<string>, compare: Comparator)
    requires Enumerates(order, s.state.packages) && ValidField(field) && ValidPackage(s.incoming) && Admission(s, order).Ok?
    ensures ValidInput(InputFor(field, s, Admission(s, order).value, compare))
  {
    hide RecordAdmitted, ValidField, ValidPackage, SettingFits, NamedAmong;
    var named, cs := NamedAmong(s, order), Admission(s, order).value;
    AdmittedExactly(s, named, order);
    forall c | 0 <= c < |cs|
      ensures cs[c].Present? && ValidPackage(cs[c].package)
    {
      assert cs[c] in cs;
      var k :| k in order && RecordAdmitted(s, named, k) == Ok(Some(cs[c]));
      CandidateIsRecord(s, named, k);
    }
  }

  /** What stays under the incoming name is merely known, or may be installed beside it. */
  lemma RemainingStandsBeside(s: Setting, order: seq<string>, c: Candidate)
    requires Enumerates(order, s.state.packages) && Admission(s, order).Ok? && c in Admission(s, order).value
    requires c.Present? && c.package.name == s.incoming.name
    ensures c.package.architecture != s.incoming.architecture
    ensures c.status == NotInstalled || (c.package.multiArch == Same && s.incoming.multiArch == Same)
  {
    hide RecordAdmitted, SettingFits, NamedAmong;
    var named := NamedAmong(s, order);
    AdmittedExactly(s, named, order);
    var k :| k in order && RecordAdmitted(s, named, k) == Ok(Some(c));
    NotReplaced(s, named, k);
  }

  lemma NotReplaced(s: Setting, named: nat, key: string)
    requires key in s.state.packages && RecordAdmitted(s, named, key).Ok? && RecordAdmitted(s, named, key).value.Some?
    ensures var c := RecordAdmitted(s, named, key).value.value;
            && c.Present? && c.status == s.state.packages[key].status
            && Replaced(s, named, s.state.packages[key], c.package) == Ok(false)
  {
    hide Version, Name, ConcreteArchitecture, IsQueued, NamelessFits, RetainedFits, ControlsFit, PackageOf, Replaced;
  }

  /** The record gives way to the incoming package. */
  predicate GivesWay(s: Setting, named: nat, key: string) {
    && key in s.state.packages && RecordAdmitted(s, named, key) == Ok(None) && !Nameless(s.state.packages[key])
  }

  lemma GivesWayMeans(s: Setting, named: nat, key: string)
    requires GivesWay(s, named, key)
    ensures var r := s.state.packages[key];
            && key == Key(r.package) && r.package.package == s.incoming.name && !IsQueued(s, key)
            && (r.package.architecture == s.incoming.architecture || (named <= 1 && Switches(s, r.package.architecture)))
  {
    hide Version, Name, ConcreteArchitecture, IsQueued, NamelessFits, RetainedFits, ControlsFit, PackageOf;
    var r, m := s.state.packages[key], s.metadata.packages[key];
    PackageFields(r.package.package, r.package.version, r.package.architecture, At(m.controls, "multi-arch"), At(m.controls, "provides"));
  }

  lemma {:induction false} TwoNamed(s: Setting, order: seq<string>, i: nat, j: nat)
    requires i < j < |order| && NamedInstance(s, order[i]) && NamedInstance(s, order[j])
    ensures NamedAmong(s, order) >= 2
    decreases |order|
  {
    hide NamedInstance;
    if j < |order| - 1 {
      TwoNamed(s, order[..|order| - 1], i, j);
    } else {
      OneNamed(s, order[..|order| - 1], i);
    }
  }

  lemma {:induction false} OneNamed(s: Setting, order: seq<string>, i: nat)
    requires i < |order| && NamedInstance(s, order[i])
    ensures NamedAmong(s, order) >= 1
    decreases |order|
  {
    hide NamedInstance;
    if i < |order| - 1 { OneNamed(s, order[..|order| - 1], i); }
  }

  lemma SameSlot(s: Setting, named: nat, k: string, l: string)
    requires named > 1 && GivesWay(s, named, k) && GivesWay(s, named, l)
    ensures k == l
  {
    hide RecordAdmitted, GivesWay;
    GivesWayMeans(s, named, k);
    GivesWayMeans(s, named, l);
  }

  /** At most one installed instance gives way to the incoming package. */
  lemma OneGivesWay(s: Setting, order: seq<string>, i: nat, j: nat)
    requires Enumerates(order, s.state.packages) && i < j < |order|
    requires NamedInstance(s, order[i]) && NamedInstance(s, order[j])
    ensures !(GivesWay(s, NamedAmong(s, order), order[i]) && GivesWay(s, NamedAmong(s, order), order[j]))
  {
    hide RecordAdmitted, NamedAmong, GivesWay;
    var named := NamedAmong(s, order);
    TwoNamed(s, order, i, j);
    if GivesWay(s, named, order[i]) && GivesWay(s, named, order[j]) {
      SameSlot(s, named, order[i], order[j]);
    }
  }

  /** Every generation queued for deconfiguration stays a candidate and is marked as such. */
  lemma QueuedStays(s: Setting, order: seq<string>, g: Instance)
    requires Enumerates(order, s.state.packages) && Admission(s, order).Ok? && g in s.queued
    ensures exists c :: c in Admission(s, order).value && c.Present? && c.queued
                        && Instance(c.package.name, c.package.version, c.package.architecture) == g
  {
    hide RecordAdmitted, NamedAmong, Nameless, NamelessFits, AdmittedFrom;
    var named, key := NamedAmong(s, order), Key(g);
    QueueHolds(s, g);
    AdmittedExactly(s, named, order);
    NotNameless(s, named, key);
    if GivesWay(s, named, key) { GivesWayMeans(s, named, key); }
    CandidateIsRecord(s, named, key);
    assert RecordAdmitted(s, named, key).value.value in Admission(s, order).value;
  }

  lemma NotNameless(s: Setting, named: nat, key: string)
    requires key in s.state.packages && Configured(s.state.packages[key].status) && RecordAdmitted(s, named, key).Ok?
    ensures !Nameless(s.state.packages[key])
  {
    hide PackageOf, ControlsFit, RetainedFits;
  }

  lemma QueueHolds(s: Setting, g: Instance)
    requires SettingFits(s).Ok? && g in s.queued
    ensures Key(g) in s.state.packages && s.state.packages[Key(g)].package == g && IsQueued(s, Key(g))
            && Configured(s.state.packages[Key(g)].status)
  {
    hide Registered, ConcreteArchitecture;
    var i :| 0 <= i < |s.queued| && s.queued[i] == g;
    assert QueuedFits(s.state, s.queued[i]);
  }

  // ---------------------------------------------------------------------------------------------
  // The whole evaluation

  function Evaluated(field: Field, s: Setting, order: seq<string>, compare: Comparator): Result<Decision>
    requires Enumerates(order, s.state.packages) && ValidField(field) && ValidPackage(s.incoming)
  {
    if field.kind != PreDepends then Err(UnsupportedUse, 0)
    else
      match Admission(s, order)
      case Err(code, offset) => Err(code, offset)
      case Ok(cs) =>
        AdmissionValid(field, s, order, compare);
        DecisionOf(InputFor(field, s, cs, compare))
  }

  /** Some candidate, directly or by a Provides, matches an alternative and is in a phase that counts. */
  ghost predicate GroupSatisfied(i: Input, g: nat)
    requires ValidInput(i)
  {
    QueriesValid(i);
    exists p :: ValidProbe(Full(i), p) && p.group == g && Satisfying(i, p)
  }

  /**
   * A ready answer means every group is satisfied by an admitted candidate or the archive itself, and
   * the one-phase matcher over them matches every group whenever it answers at all.
   */
  lemma ReadyIsSatisfied(field: Field, s: Setting, order: seq<string>, compare: Comparator)
    requires Enumerates(order, s.state.packages) && ValidField(field) && ValidPackage(s.incoming)
    requires Evaluated(field, s, order, compare).Ok? && Evaluated(field, s, order, compare).value.ready
    ensures Admission(s, order).Ok?
    ensures var i := InputFor(field, s, Admission(s, order).value, compare);
            && ValidInput(i) && ValidQuery(Full(i))
            && (forall g :: 0 <= g < |field.groups| ==> GroupSatisfied(i, g))
            && (EvaluationOf(Full(i)).Ok? ==> EvaluationOf(Full(i)).value.allGroupsMatched)
  {
    hide Admission, DecisionOf, ValidField, ValidPackage, ValidInput, Full, EvaluationOf, Satisfying, ValidProbe, InputFits, Comparable;
    AdmissionValid(field, s, order, compare);
    var i := InputFor(field, s, Admission(s, order).value, compare);
    ReadyExact(i);
    ReadyRefines(i);
    forall g | 0 <= g < |field.groups|
      ensures GroupSatisfied(i, g)
    {
      assert |DecisionOf(i).value.groups[g].witnesses| > 0;
    }
  }

  method Evaluate(field: Field, s: Setting, order: seq<string>, compare: Comparator) returns (r: Result<Decision>)
    requires Enumerates(order, s.state.packages) && ValidField(field) && ValidPackage(s.incoming)
    ensures r == Evaluated(field, s, order, compare)
  {
    hide Admission, DecisionOf, ValidField, ValidPackage, ValidInput;
    if field.kind != PreDepends { return Err(UnsupportedUse, 0); }
    var admitted := Admit(s, order);
    if admitted.Err? { return Err(admitted.code, admitted.offset); }
    AdmissionValid(field, s, order, compare);
    r := Decide(InputFor(field, s, admitted.value, compare));
  }
}
