/** Installed states: which are valid, and what a complete trigger batch does to one. */
module DpkgState {
  import opened Text
  import opened Packages
  import opened ByteOrder
  import opened DpkgVersion

  const MAXIMUM_COLLECTION_ITEMS: nat := 100000
  const MAXIMUM_TRIGGERS: nat := 4096
  const MAXIMUM_ARCHITECTURES: nat := 256

  // ---------------------------------------------------------------------------------------------
  // Names

  predicate Lower(c: char) {
    'a' <= c <= 'z'
  }

  predicate PackageName(s: string) {
    && 2 <= |s| <= 256
    && (Lower(s[0]) || Digit(s[0]))
    && forall k :: 0 <= k < |s| ==> Lower(s[k]) || Digit(s[k]) || s[k] == '+' || s[k] == '-' || s[k] == '.'
  }

  predicate ArchitectureCharacter(c: char) {
    Lower(c) || Digit(c) || c == '-'
  }

  /** A real architecture name, `all` included. */
  predicate Architecture(s: string) {
    && 0 < |s| <= 128
    && (forall k :: 0 <= k < |s| ==> ArchitectureCharacter(s[k]))
    && s != "any" && s != "native"
  }

  predicate Visible(s: string) {
    0 < |s| <= 4096 && forall k :: 0 <= k < |s| ==> ' ' < s[k] < 127 as char
  }

  predicate TokenCharacter(c: char) {
    || Letter(c) || Digit(c)
    || c == '-' || c == '.' || c == '_' || c == ':' || c == '/' || c == '+' || c == '@' || c == '='
  }

  predicate IdentityToken(s: string) {
    0 < |s| <= 512 && forall k :: 0 <= k < |s| ==> TokenCharacter(s[k])
  }

  datatype Selector = Invalid | Default | AnyArchitecture | NativeArchitecture | ExactArchitecture

  /** `name` or `name:architecture`. */
  function SelectorOf(s: string): Selector {
    var colon := Find(s, ':');
    if colon == 0 || !(Lower(s[0]) || Digit(s[0])) || exists k :: 0 <= k < colon && !SelectorCharacter(s[k]) then Invalid
    else if colon == |s| then Default
    else
      var architecture := s[colon + 1..];
      if |architecture| == 0 || architecture[0] == '-'
         || exists k :: 0 <= k < |architecture| && !ArchitectureCharacter(architecture[k]) then Invalid
      else if architecture == "any" then AnyArchitecture
      else if architecture == "native" then NativeArchitecture
      else ExactArchitecture
  }

  predicate SelectorCharacter(c: char) {
    Lower(c) || Digit(c) || c == '+' || c == '.' || c == '-'
  }

  predicate AwaitedSelector(s: string) {
    SelectorOf(s) == Default || SelectorOf(s) == ExactArchitecture
  }

  predicate SortedUnique(values: seq<string>) {
    forall k :: 0 <= k < |values| - 1 ==> !Precedes(values[k + 1], values[k]) && values[k] != values[k + 1]
  }

  // ---------------------------------------------------------------------------------------------
  // Valid records and states

  predicate IsUnset(multiArch: string) {
    |multiArch| == 0 || multiArch == "no"
  }

  predicate MetadataValid(r: Record) {
    if |r.package.architecture| == 0 && |r.package.version| == 0 then
      r.status == NotInstalled && !r.reinstallRequired && IsUnset(r.multiArch)
    else Architecture(r.package.architecture) && VersionText(r.package.version)
  }

  predicate TriggersValid(r: Record) {
    && (r.status == NotInstalled || r.status == ConfigFiles ==> |r.pending| == 0 && |r.awaited| == 0)
    && (|r.pending| > 0 ==> r.status == TriggersPending || r.status == TriggersAwaited)
    && (r.status == TriggersPending ==> |r.pending| > 0)
    && (r.status == TriggersAwaited ==> |r.awaited| > 0)
    && |r.pending| <= MAXIMUM_TRIGGERS && SortedUnique(r.pending)
    && (forall k :: 0 <= k < |r.pending| ==> Visible(r.pending[k]))
    && |r.awaited| <= MAXIMUM_TRIGGERS && SortedUnique(r.awaited)
    && (forall k :: 0 <= k < |r.awaited| ==> Visible(r.awaited[k]) && AwaitedSelector(r.awaited[k]))
  }

  predicate RecordValid(r: Record) {
    && PackageName(r.package.package)
    && MetadataValid(r)
    && (IsUnset(r.multiArch) || r.multiArch == "same" || r.multiArch == "foreign" || r.multiArch == "allowed")
    && !(r.package.architecture == "all" && r.multiArch == "same")
    && TriggersValid(r)
  }

  predicate HeaderValid(s: State) {
    && IdentityToken(s.identity)
    && Architecture(s.native) && s.native != "all"
    && 0 < |s.architectures| <= MAXIMUM_ARCHITECTURES && s.architectures[0] == s.native
    && (forall k :: 0 <= k < |s.architectures| ==> Architecture(s.architectures[k]) && s.architectures[k] != "all")
    && (forall j, k :: 0 <= j < k < |s.architectures| ==> s.architectures[j] != s.architectures[k])
  }

  predicate Keyed(packages: map<string, Record>) {
    forall k :: k in packages ==> k == Key(packages[k].package)
  }

  predicate StateValid(s: State) {
    && HeaderValid(s)
    && |s.packages| <= MAXIMUM_COLLECTION_ITEMS
    && Keyed(s.packages)
    && forall k :: k in s.packages ==> RecordValid(s.packages[k])
  }

  /** A row that only records that something referred to the name. */
  predicate ReferenceOnly(r: Record) {
    && PackageName(r.package.package) && |r.package.version| == 0 && |r.package.architecture| == 0
    && r.status == NotInstalled && r.selection == Unknown && !r.reinstallRequired
    && IsUnset(r.multiArch) && |r.pending| == 0 && |r.awaited| == 0
  }

  // ---------------------------------------------------------------------------------------------
  // Draining triggers

  datatype TriggerFault = StateUnsettled | TargetsChanged | TargetsIncomplete | WaiterAmbiguous | WaiterUnresolved
  datatype Drain = Drained(state: State) | Refused(fault: TriggerFault)

  predicate Settled(r: Record) {
    && !r.reinstallRequired
    && (r.status == TriggersPending || r.status == TriggersAwaited)
    && (r.selection == Install || r.selection == Hold)
  }

  predicate PendingSettled(packages: map<string, Record>) {
    forall k :: k in packages && |packages[k].pending| > 0 ==> Settled(packages[k])
  }

  function PendingOf(packages: map<string, Record>): map<string, Instance> {
    map k | k in packages && |packages[k].pending| > 0 :: packages[k].package
  }

  /** Each target is a pending recipient in its exact generation, and none is named twice. */
  predicate TargetsPending(pending: map<string, Instance>, targets: seq<Instance>) {
    && (forall t :: 0 <= t < |targets| ==> Key(targets[t]) in pending && pending[Key(targets[t])] == targets[t])
    && (forall t, u :: 0 <= t < u < |targets| ==> Key(targets[t]) != Key(targets[u]))
  }

  predicate TargetsComplete(pending: map<string, Instance>, targets: seq<Instance>) {
    |pending| > 0 && forall k :: k in pending ==> exists t :: 0 <= t < |targets| && Key(targets[t]) == k
  }

  /** The only recorded instance of that name. */
  predicate OnlyInstance(packages: map<string, Record>, name: string, key: string) {
    && key in packages && packages[key].package.package == name
    && forall k :: k in packages && packages[k].package.package == name ==> k == key
  }

  predicate Resolves(packages: map<string, Record>, waiter: string, target: string) {
    if SelectorOf(waiter) == ExactArchitecture then target == waiter else OnlyInstance(packages, waiter, target)
  }

  predicate Resolution(packages: map<string, Record>, waiters: seq<string>, targets: seq<string>) {
    && |targets| == |waiters|
    && (forall k :: 0 <= k < |waiters| ==> Resolves(packages, waiters[k], targets[k]) && targets[k] in PendingOf(packages))
    && (forall j, k :: 0 <= j < k < |waiters| ==> targets[j] != targets[k])
  }

  /** Every waiter names a distinct pending recipient. */
  ghost predicate WaitersResolve(packages: map<string, Record>, r: Record) {
    exists targets: seq<string> :: Resolution(packages, r.awaited, targets)
  }

  ghost predicate Drainable(packages: map<string, Record>, targets: seq<Instance>) {
    && PendingSettled(packages)
    && TargetsPending(PendingOf(packages), targets)
    && TargetsComplete(PendingOf(packages), targets)
    && forall k :: k in packages ==> WaitersResolve(packages, packages[k])
  }

  function DrainedRecord(r: Record): Record {
    r.(pending := [], awaited := [],
       status := if r.status == TriggersAwaited || |r.pending| > 0 then Installed else r.status)
  }

  function DrainedPackages(packages: map<string, Record>): map<string, Record> {
    map k | k in packages :: DrainedRecord(packages[k])
  }

  ghost predicate Explains(packages: map<string, Record>, targets: seq<Instance>, fault: TriggerFault) {
    match fault
    case StateUnsettled => !PendingSettled(packages)
    case TargetsChanged => PendingSettled(packages) && !TargetsPending(PendingOf(packages), targets)
    case TargetsIncomplete =>
      PendingSettled(packages) && TargetsPending(PendingOf(packages), targets)
      && !TargetsComplete(PendingOf(packages), targets)
    case _ =>
      PendingSettled(packages) && TargetsPending(PendingOf(packages), targets)
      && TargetsComplete(PendingOf(packages), targets)
      && exists k :: k in packages && !WaitersResolve(packages, packages[k])
  }

  method CollectPending(packages: map<string, Record>) returns (ok: bool, pending: map<string, Instance>)
    ensures ok <==> PendingSettled(packages)
    ensures ok ==> pending == PendingOf(packages)
  {
    pending := map[];
    var keys := packages.Keys;
    while keys != {}
      invariant keys <= packages.Keys
      invariant forall k :: k in packages && k !in keys && |packages[k].pending| > 0 ==> Settled(packages[k])
      invariant forall k :: k in pending <==> k in packages && k !in keys && |packages[k].pending| > 0
      invariant forall k :: k in pending ==> pending[k] == packages[k].package
    {
      var k :| k in keys;
      keys := keys - {k};
      if |packages[k].pending| == 0 { continue; }
      if !Settled(packages[k]) { return false, pending; }
      pending := pending[k := packages[k].package];
    }
    assert pending == PendingOf(packages);
    ok := true;
  }

  function KeysOf(targets: seq<Instance>): set<string> {
    set t | 0 <= t < |targets| :: Key(targets[t])
  }

  lemma KeysNext(targets: seq<Instance>, t: nat)
    requires t < |targets|
    ensures KeysOf(targets[..t + 1]) == KeysOf(targets[..t]) + {Key(targets[t])}
    ensures Key(targets[t]) in KeysOf(targets[..t]) <==> exists u :: 0 <= u < t && Key(targets[u]) == Key(targets[t])
  {
    hide Key;
    var next := KeysOf(targets[..t + 1]);
    assert targets[..t + 1][t] == targets[t];
    forall k | k in KeysOf(targets[..t])
      ensures k in next
    {
      var u :| 0 <= u < t && Key(targets[..t][u]) == k;
      assert targets[..t + 1][u] == targets[..t][u];
    }
    forall k | k in next && k != Key(targets[t])
      ensures k in KeysOf(targets[..t])
    {
      var u :| 0 <= u < t + 1 && Key(targets[..t + 1][u]) == k;
      assert targets[..t][u] == targets[..t + 1][u];
    }
    if u :| 0 <= u < t && Key(targets[u]) == Key(targets[t]) {
      assert targets[..t][u] == targets[u];
    }
  }

  lemma PendingNone(pending: map<string, Instance>, targets: seq<Instance>)
    ensures TargetsPending(pending, targets[..0])
  {
  }

  lemma PendingNext(pending: map<string, Instance>, targets: seq<Instance>, t: nat)
    requires t < |targets| && TargetsPending(pending, targets[..t])
    ensures var key := Key(targets[t]);
            var fits := key in pending && pending[key] == targets[t] && !exists u :: 0 <= u < t && Key(targets[u]) == key;
            (TargetsPending(pending, targets[..t + 1]) <==> fits) && (TargetsPending(pending, targets) ==> fits)
  {
    hide Key;
    var front, next := targets[..t], targets[..t + 1];
    assert forall u :: 0 <= u < t ==> front[u] == targets[u] == next[u];
    assert next[t] == targets[t];
  }

  method SelectTargets(pending: map<string, Instance>, targets: seq<Instance>) returns (fault: Option<TriggerFault>)
    ensures fault.None? <==> TargetsPending(pending, targets) && TargetsComplete(pending, targets)
    ensures fault == Some(TargetsChanged) <==> !TargetsPending(pending, targets)
    ensures fault.Some? ==> fault.value == TargetsChanged || fault.value == TargetsIncomplete
  {
    hide KeysOf, Key, TargetsPending, TargetsComplete;
    var selected: set<string> := {};
    KeysNone(targets);
    PendingNone(pending, targets);
    for t := 0 to |targets|
      invariant TargetsPending(pending, targets[..t])
      invariant selected == KeysOf(targets[..t]) && selected <= pending.Keys
    {
      KeysNext(targets, t);
      PendingNext(pending, targets, t);
      var key := Key(targets[t]);
      if key !in pending || targets[t] != pending[key] || key in selected { return Some(TargetsChanged); }
      selected := selected + {key};
    }
    assert targets[..|targets|] == targets;
    CompleteIsAll(pending, targets);
    if |pending| == 0 || |selected| != |pending.Keys| { return Some(TargetsIncomplete); }
    SameSize(selected, pending.Keys);
    fault := None;
  }

  lemma KeysNone(targets: seq<Instance>)
    ensures KeysOf(targets[..0]) == {}
  {
  }

  lemma CompleteIsAll(pending: map<string, Instance>, targets: seq<Instance>)
    requires KeysOf(targets) <= pending.Keys
    ensures TargetsComplete(pending, targets) <==> |pending| > 0 && KeysOf(targets) == pending.Keys
  {
    hide Key;
    if TargetsComplete(pending, targets) {
      forall k | k in pending.Keys
        ensures k in KeysOf(targets)
      {
        var t :| 0 <= t < |targets| && Key(targets[t]) == k;
      }
    }
  }

  lemma SameSize<T>(a: set<T>, b: set<T>)
    requires a <= b && |a| == |b|
    ensures a == b
  {
    if a != b {
      var x :| x in b && x !in a;
      Smaller(a, b - {x});
    }
  }

  lemma {:induction false} Smaller<T>(a: set<T>, b: set<T>)
    requires a <= b
    ensures |a| <= |b|
    decreases a
  {
    if a != {} {
      var x :| x in a;
      Smaller(a - {x}, b - {x});
    }
  }

  /** The recorded keys of each name among those visited. */
  ghost predicate Indexed(names: map<string, seq<string>>, packages: map<string, Record>, visited: set<string>) {
    && (forall k :: k in visited && k in packages ==> packages[k].package.package in names)
    && (forall n :: n in names ==> |names[n]| > 0)
    && (forall n, k :: n in names ==> (k in names[n] <==> k in visited && k in packages && packages[k].package.package == n))
    && (forall n, i, j :: n in names && 0 <= i < j < |names[n]| ==> names[n][i] != names[n][j])
  }

  method IndexNames(packages: map<string, Record>) returns (names: map<string, seq<string>>)
    ensures Indexed(names, packages, packages.Keys)
  {
    names := map[];
    var keys := packages.Keys;
    while keys != {}
      invariant keys <= packages.Keys
      invariant Indexed(names, packages, packages.Keys - keys)
    {
      var k :| k in keys;
      var name := packages[k].package.package;
      IndexNext(names, packages, packages.Keys - keys, k);
      keys := keys - {k};
      assert packages.Keys - keys == packages.Keys - (keys + {k}) + {k};
      names := names[name := (if name in names then names[name] else []) + [k]];
    }
    assert packages.Keys - keys == packages.Keys;
  }

  lemma IndexNext(names: map<string, seq<string>>, packages: map<string, Record>, visited: set<string>, k: string)
    requires Indexed(names, packages, visited) && k in packages && k !in visited
    ensures var name := packages[k].package.package;
            Indexed(names[name := (if name in names then names[name] else []) + [k]], packages, visited + {k})
  {
    var name := packages[k].package.package;
    if name !in names {
      assert forall x :: x in visited && x in packages ==> packages[x].package.package != name;
    }
  }

  // ---------------------------------------------------------------------------------------------
  // Waiters

  lemma ResolvesUnique(packages: map<string, Record>, waiter: string, a: string, b: string)
    requires Resolves(packages, waiter, a) && Resolves(packages, waiter, b)
    ensures a == b
  {
  }

  lemma ResolutionPrefix(packages: map<string, Record>, waiters: seq<string>, n: nat, found: seq<string>, targets: seq<string>)
    requires n <= |waiters| && |found| == n && (forall k :: 0 <= k < n ==> Resolves(packages, waiters[k], found[k]))
    requires Resolution(packages, waiters, targets)
    ensures targets[..n] == found
  {
    forall k | 0 <= k < n
      ensures targets[k] == found[k]
    {
      ResolvesUnique(packages, waiters[k], targets[k], found[k]);
    }
  }

  lemma OneInstance(names: map<string, seq<string>>, packages: map<string, Record>, name: string)
    requires Indexed(names, packages, packages.Keys)
    ensures if name in names && |names[name]| == 1 then OnlyInstance(packages, name, names[name][0])
            else forall k :: !OnlyInstance(packages, name, k)
  {
    if name in names && |names[name]| == 1 {
      assert names[name][0] in names[name];
    } else if name in names {
      var first, second := names[name][0], names[name][1];
      assert first in names[name] && second in names[name] && first != second;
      assert first in packages && packages[first].package.package == name;
      assert second in packages && packages[second].package.package == name;
    }
  }

  method ResolveWaiters(packages: map<string, Record>, names: map<string, seq<string>>,
                        pending: map<string, Instance>, waiters: seq<string>) returns (fault: Option<TriggerFault>)
    requires pending == PendingOf(packages) && Indexed(names, packages, packages.Keys)
    ensures fault.None? <==> exists targets: seq<string> :: Resolution(packages, waiters, targets)
    ensures fault.Some? ==> fault.value == WaiterAmbiguous || fault.value == WaiterUnresolved
  {
    hide Indexed, PendingOf, OnlyInstance, SelectorOf;
    var seen: set<string> := {};
    ghost var found: seq<string> := [];
    for k := 0 to |waiters|
      invariant |found| == k
      invariant forall i :: 0 <= i < k ==> Resolves(packages, waiters[i], found[i]) && found[i] in pending
      invariant forall i, j :: 0 <= i < j < k ==> found[i] != found[j]
      invariant forall t :: t in seen <==> t in found
    {
      var target;
      OneInstance(names, packages, waiters[k]);
      if SelectorOf(waiters[k]) == ExactArchitecture {
        target := waiters[k];
      } else {
        if waiters[k] !in names || |names[waiters[k]]| != 1 {
          NoResolution(packages, waiters, k);
          return Some(WaiterAmbiguous);
        }
        target := names[waiters[k]][0];
      }
      if target !in pending || target in seen {
        UselessTarget(packages, waiters, k, found, target);
        return Some(WaiterUnresolved);
      }
      seen := seen + {target};
      found := found + [target];
    }
    assert Resolution(packages, waiters, found);
    fault := None;
  }

  lemma NoResolution(packages: map<string, Record>, waiters: seq<string>, k: nat)
    requires k < |waiters| && (forall t :: !Resolves(packages, waiters[k], t))
    ensures !exists targets: seq<string> :: Resolution(packages, waiters, targets)
  {
    hide Resolves;
    if targets: seq<string> :| Resolution(packages, waiters, targets) {
      ResolutionAt(packages, waiters, targets, k);
    }
  }

  lemma ResolutionAt(packages: map<string, Record>, waiters: seq<string>, targets: seq<string>, k: nat)
    requires Resolution(packages, waiters, targets) && k < |waiters|
    ensures k < |targets| && Resolves(packages, waiters[k], targets[k]) && targets[k] in PendingOf(packages)
    ensures forall i :: 0 <= i < k ==> targets[i] != targets[k]
  {
    hide Resolves, PendingOf;
  }

  lemma ResolutionUses(packages: map<string, Record>, waiters: seq<string>, k: nat, found: seq<string>, target: string,
                       targets: seq<string>)
    requires k < |waiters| && |found| == k && Resolves(packages, waiters[k], target)
    requires forall i :: 0 <= i < k ==> Resolves(packages, waiters[i], found[i])
    requires Resolution(packages, waiters, targets)
    ensures target in PendingOf(packages) && target !in found
  {
    hide Resolves, PendingOf;
    ResolutionPrefix(packages, waiters, k, found, targets);
    ResolutionAt(packages, waiters, targets, k);
    ResolvesUnique(packages, waiters[k], target, targets[k]);
    forall i | 0 <= i < k
      ensures found[i] != target
    {
      assert targets[..k][i] == targets[i];
    }
  }

  lemma UselessTarget(packages: map<string, Record>, waiters: seq<string>, k: nat, found: seq<string>, target: string)
    requires k < |waiters| && |found| == k && Resolves(packages, waiters[k], target)
    requires forall i :: 0 <= i < k ==> Resolves(packages, waiters[i], found[i])
    requires target !in PendingOf(packages) || target in found
    ensures !exists targets: seq<string> :: Resolution(packages, waiters, targets)
  {
    hide Resolves, PendingOf;
    if targets: seq<string> :| Resolution(packages, waiters, targets) {
      ResolutionUses(packages, waiters, k, found, target, targets);
    }
  }

  method DrainAll(packages: map<string, Record>, names: map<string, seq<string>>, pending: map<string, Instance>)
    returns (fault: Option<TriggerFault>, result: map<string, Record>)
    requires pending == PendingOf(packages) && Indexed(names, packages, packages.Keys)
    ensures fault.None? <==> forall k :: k in packages ==> WaitersResolve(packages, packages[k])
    ensures fault.None? ==> result == DrainedPackages(packages)
    ensures fault.Some? ==> fault.value == WaiterAmbiguous || fault.value == WaiterUnresolved
  {
    hide Indexed, WaitersResolve, DrainedRecord, PendingOf, Resolution;
    result := packages;
    var keys := packages.Keys;
    while keys != {}
      invariant keys <= packages.Keys && result.Keys == packages.Keys
      invariant forall k :: k in keys ==> result[k] == packages[k]
      invariant forall k :: k in result && k !in keys ==> result[k] == DrainedRecord(packages[k])
      invariant forall k :: k in packages && k !in keys ==> WaitersResolve(packages, packages[k])
    {
      var k :| k in keys;
      keys := keys - {k};
      fault := ResolveWaiters(packages, names, pending, result[k].awaited);
      WaitersUnfold(packages, packages[k]);
      if fault.Some? { return; }
      PendingKeys(packages, k);
      var record := DrainRecord(result[k], k in pending);
      result := result[k := record];
    }
    assert result == DrainedPackages(packages);
    fault := None;
  }

  /**
   * The result of a batch that processes every pending trigger: each target must be pending, all
   * pending recipients must be targets, and every waiter must name one of them.
   */
  method TriggerResult(before: State, targets: seq<Instance>) returns (r: Drain)
    ensures r.Drained? <==> Drainable(before.packages, targets)
    ensures r.Drained? ==> r.state == before.(packages := DrainedPackages(before.packages))
    ensures r.Refused? ==> Explains(before.packages, targets, r.fault)
  {
    hide Indexed, TargetsPending, TargetsComplete, PendingSettled, WaitersResolve, DrainedPackages, PendingOf;
    var ok, pending := CollectPending(before.packages);
    if !ok { return Refused(StateUnsettled); }
    var fault := SelectTargets(pending, targets);
    if fault.Some? { return Refused(fault.value); }
    var names := IndexNames(before.packages);
    var result;
    fault, result := DrainAll(before.packages, names, pending);
    if fault.Some? { return Refused(fault.value); }
    r := Drained(before.(packages := result));
  }

  lemma PendingKeys(packages: map<string, Record>, k: string)
    requires k in packages
    ensures k in PendingOf(packages) <==> |packages[k].pending| > 0
  {
  }

  /** A recipient has processed its triggers, and nothing is left to await. */
  method DrainRecord(r: Record, recipient: bool) returns (record: Record)
    requires recipient <==> |r.pending| > 0
    ensures record == DrainedRecord(r)
  {
    record := r.(awaited := []);
    if recipient { record := record.(pending := []); }
    if record.status == TriggersAwaited || recipient {
      record := record.(status := if |record.pending| == 0 then Installed else TriggersPending);
    }
  }

  lemma WaitersUnfold(packages: map<string, Record>, r: Record)
    ensures WaitersResolve(packages, r) <==> exists targets: seq<string> :: Resolution(packages, r.awaited, targets)
  {
  }

  /** Nothing waits and nothing is pending any more. */
  predicate Quiescent(packages: map<string, Record>) {
    forall k :: k in packages ==>
      && |packages[k].pending| == 0 && |packages[k].awaited| == 0
      && packages[k].status != TriggersPending && packages[k].status != TriggersAwaited
  }

  /** What a trigger batch may never touch. */
  predicate SameCore(a: Record, b: Record) {
    && a.package == b.package && a.selection == b.selection
    && a.reinstallRequired == b.reinstallRequired && a.multiArch == b.multiArch
  }

  /** A complete batch leaves a valid state with no trigger left and everything else as it was. */
  lemma DrainsCompletely(before: State, targets: seq<Instance>)
    requires StateValid(before) && Drainable(before.packages, targets)
    ensures var after := before.(packages := DrainedPackages(before.packages));
            && StateValid(after) && Quiescent(after.packages)
            && after.packages.Keys == before.packages.Keys
            && forall k :: k in before.packages ==>
                 && SameCore(before.packages[k], after.packages[k])
                 && (|before.packages[k].pending| == 0 && before.packages[k].status != TriggersAwaited ==>
                       after.packages[k].status == before.packages[k].status)
  {
    hide HeaderValid, RecordValid, Drainable, Key;
    var after := DrainedPackages(before.packages);
    assert after.Keys == before.packages.Keys;
    forall k | k in before.packages
      ensures RecordValid(after[k]) && after[k] == DrainedRecord(before.packages[k])
    {
      DrainedValid(before.packages[k]);
    }
    forall k | k in after
      ensures after[k].status != TriggersPending && after[k].status != TriggersAwaited
    {
      DrainedQuiescent(before.packages[k]);
    }
    SameHeader(before, after);
  }

  lemma SameHeader(s: State, packages: map<string, Record>)
    ensures HeaderValid(s.(packages := packages)) <==> HeaderValid(s)
  {
  }

  lemma DrainedQuiescent(r: Record)
    requires RecordValid(r)
    ensures var d := DrainedRecord(r);
            |d.pending| == 0 && |d.awaited| == 0 && d.status != TriggersPending && d.status != TriggersAwaited
  {
    hide PackageName, MetadataValid, Visible, SelectorOf;
  }

  lemma DrainedValid(r: Record)
    requires RecordValid(r)
    ensures RecordValid(DrainedRecord(r))
  {
    hide PackageName, Architecture, VersionText, SelectorOf, Visible;
  }

  /** There is nothing left for a second batch to process. */
  lemma SecondDrainRefused(before: State, targets: seq<Instance>, again: seq<Instance>)
    requires Drainable(before.packages, targets)
    ensures !Drainable(DrainedPackages(before.packages), again)
    ensures Explains(DrainedPackages(before.packages), again, if |again| == 0 then TargetsIncomplete else TargetsChanged)
  {
    hide WaitersResolve;
    var after := DrainedPackages(before.packages);
    assert PendingOf(after) == map[];
    if |again| > 0 { assert Key(again[0]) !in PendingOf(after); }
  }
}
