/**
 * Verifying that one authorized batch explains the difference between two installed states, and
 * what that guarantees about everything the batches of a run never target.
 */
module DpkgTransition {
  import opened Text
  import opened Packages
  import opened DpkgVersion
  import opened DpkgState

  datatype Batch = Batch(number: nat, action: ActionKind, actions: seq<nat>, arguments: seq<string>)

  predicate HasOption(arguments: seq<string>, option: string) {
    |arguments| > 0 && arguments[0] != "--" && (arguments[0] == option || HasOption(arguments[1..], option))
  }

  predicate EmptyTriggers(r: Record) {
    |r.pending| == 0 && |r.awaited| == 0
  }

  // ---------------------------------------------------------------------------------------------
  // Which records an action is about

  datatype Lookup = Absent | Found(key: string) | Ambiguous

  /** An installed instance that an unpack of another architecture replaces. */
  predicate Replaceable(r: Record, action: ReviewedAction) {
    && r.package.package == action.package.package && r.status != NotInstalled
    && (action.package.architecture == "all" || r.package.architecture == "all")
  }

  function Replaced(packages: map<string, Record>, action: ReviewedAction): set<string> {
    set k | k in packages && Replaceable(packages[k], action)
  }

  ghost function OldOf(before: State, action: ReviewedAction): Lookup {
    var key := Key(action.package);
    if key in before.packages then Found(key)
    else if action.action != Unpack then Absent
    else
      var replaced := Replaced(before.packages, action);
      if replaced == {} then Absent
      else if |replaced| == 1 then var k :| k in replaced; Found(k)
      else Ambiguous
  }

  /** A purge may leave a selection under the bare name. */
  function NowOf(after: State, action: ReviewedAction): Option<string> {
    var key, bare := Key(action.package), action.package.package + ":";
    if key in after.packages then Some(key)
    else if (action.action == Remove || action.action == ActionKind.Purge) && bare in after.packages then Some(bare)
    else None
  }

  // ---------------------------------------------------------------------------------------------
  // What an action may have done

  predicate RemovedTo(r: Record, action: ReviewedAction) {
    && !r.reinstallRequired && EmptyTriggers(r)
    && (r.selection == Deinstall || r.selection == Selection.Purge || r.selection == Unknown)
    && (r.status == NotInstalled || (action.action == Remove && r.status == ConfigFiles))
    && (|r.package.architecture| == 0 || r.package == action.package)
    && !(r.status == ConfigFiles && r.selection == Unknown)
  }

  predicate InstalledTo(was: Option<Record>, now: Record, action: ReviewedAction) {
    && now.package == action.package && !now.reinstallRequired && EmptyTriggers(now)
    && (now.selection == Install || (was.Some? && was.value.selection == Hold && now.selection == Hold))
    && match action.action
       case Unpack => now.status == Unpacked
       case Configure =>
         && was.Some? && (was.value.status == Unpacked || was.value.status == HalfConfigured)
         && now.status == Installed && now.multiArch == was.value.multiArch
       case _ => false
  }

  predicate Permitted(was: Option<Record>, now: Option<Record>, action: ReviewedAction) {
    && (was.Some? ==> EmptyTriggers(was.value))
    && (action.action != Unpack ==> was.Some? && was.value.package == action.package && !was.value.reinstallRequired)
    && (if action.action == Remove || action.action == ActionKind.Purge then now.Some? ==> RemovedTo(now.value, action)
        else now.Some? && InstalledTo(was, now.value, action))
  }

  function RecordAt(s: State, key: Option<string>): Option<Record> {
    if key.Some? && key.value in s.packages then Some(s.packages[key.value]) else None
  }

  function FoundKey(lookup: Lookup): Option<string> {
    if lookup.Found? then Some(lookup.key) else None
  }

  // ---------------------------------------------------------------------------------------------
  // Acceptance

  predicate Comparable(before: State, after: State, review: seq<ReviewedAction>, batch: Batch) {
    && StateValid(before) && StateValid(after) && batch.number != 0
    && 0 < |batch.actions| <= MAXIMUM_COLLECTION_ITEMS && |review| <= MAXIMUM_COLLECTION_ITEMS
    && before.native == after.native && before.architectures == after.architectures
    && HasOption(batch.arguments, "--no-triggers") && !HasOption(batch.arguments, "--auto-deconfigure")
  }

  predicate Identified(review: seq<ReviewedAction>) {
    && (forall i :: 0 <= i < |review| ==> review[i].identifier != 0)
    && (forall i, j :: 0 <= i < j < |review| ==> review[i].identifier != review[j].identifier)
  }

  /** `actions` are the reviewed actions the batch names, in its order and each once. */
  predicate Selects(review: seq<ReviewedAction>, batch: Batch, actions: seq<ReviewedAction>) {
    && |actions| == |batch.actions|
    && (forall i :: 0 <= i < |actions| ==>
          actions[i] in review && actions[i].identifier == batch.actions[i] && actions[i].action == batch.action)
    && (forall i, j :: 0 <= i < j < |actions| ==> batch.actions[i] != batch.actions[j])
  }

  predicate Ignorable(packages: map<string, Record>, k: string) {
    k !in packages || ReferenceOnly(packages[k])
  }

  /** Rows that only record a reference may come and go; every other row is the same. */
  predicate Agrees(expected: map<string, Record>, after: map<string, Record>) {
    && (forall k :: k in expected ==>
          || (ReferenceOnly(expected[k]) && Ignorable(after, k))
          || (k in after && expected[k] == after[k]))
    && (forall k :: k in after ==> k in expected || ReferenceOnly(after[k]))
  }

  function PackagesOf(actions: seq<ReviewedAction>): (ps: seq<Instance>)
    ensures |ps| == |actions|
    ensures forall i :: 0 <= i < |actions| ==> ps[i] == actions[i].package
  {
    seq(|actions|, i requires 0 <= i < |actions| => actions[i].package)
  }

  ghost predicate TriggersExplain(before: State, after: State, actions: seq<ReviewedAction>) {
    && Drainable(before.packages, PackagesOf(actions))
    && Agrees(DrainedPackages(before.packages), after.packages)
  }

  ghost predicate Touches(before: State, actions: seq<ReviewedAction>, k: string) {
    exists i :: 0 <= i < |actions| && OldOf(before, actions[i]) == Found(k)
  }

  predicate Reaches(after: State, actions: seq<ReviewedAction>, k: string) {
    exists i :: 0 <= i < |actions| && NowOf(after, actions[i]) == Some(k)
  }

  ghost predicate Explained(before: State, after: State, action: ReviewedAction) {
    && !OldOf(before, action).Ambiguous?
    && Permitted(RecordAt(before, FoundKey(OldOf(before, action))), RecordAt(after, NowOf(after, action)), action)
  }

  /** No record is claimed by two actions. */
  ghost predicate Disjoint(before: State, after: State, a: ReviewedAction, b: ReviewedAction) {
    && (OldOf(before, a).Found? ==> OldOf(before, a) != OldOf(before, b))
    && (NowOf(after, a).Some? ==> NowOf(after, a) != NowOf(after, b))
  }

  ghost predicate RestUnchanged(before: State, after: State, actions: seq<ReviewedAction>) {
    && (forall k :: k in before.packages && !Touches(before, actions, k) ==>
          || (ReferenceOnly(before.packages[k]) && Ignorable(after.packages, k))
          || (k in after.packages && before.packages[k] == after.packages[k]))
    && (forall k :: k in after.packages && !Reaches(after, actions, k) ==>
          || (ReferenceOnly(after.packages[k]) && Ignorable(before.packages, k))
          || (k in before.packages && !Touches(before, actions, k) && before.packages[k] == after.packages[k]))
  }

  ghost predicate PrimaryExplains(before: State, after: State, actions: seq<ReviewedAction>) {
    && (forall i :: 0 <= i < |actions| ==> Explained(before, after, actions[i]))
    && (forall i, j :: 0 <= i < j < |actions| ==> Disjoint(before, after, actions[i], actions[j]))
    && RestUnchanged(before, after, actions)
  }

  ghost predicate Explains(before: State, after: State, kind: ActionKind, actions: seq<ReviewedAction>) {
    match kind
    case Triggers => TriggersExplain(before, after, actions)
    case Deconfigure => false
    case _ => PrimaryExplains(before, after, actions)
  }

  ghost predicate Accepted(before: State, after: State, review: seq<ReviewedAction>, batch: Batch) {
    && Comparable(before, after, review, batch) && Identified(review)
    && exists actions :: Selects(review, batch, actions) && Explains(before, after, batch.action, actions)
  }

  // ---------------------------------------------------------------------------------------------
  // Keys name one package

  predicate NoColon(s: string) {
    forall k :: 0 <= k < |s| ==> s[k] != ':'
  }

  lemma ColonPlace(p: string, x: string, q: string, y: string)
    requires NoColon(p) && NoColon(x) && p + ":" + x == q + ":" + y
    ensures p == q && x == y
  {
    var s, t := p + ":" + x, q + ":" + y;
    assert t[|q|] == ':';
    assert forall k :: 0 <= k < |s| && k != |p| ==> s[k] != ':' by {
      forall k | 0 <= k < |s| && k != |p|
        ensures s[k] != ':'
      {
        assert s[k] == if k < |p| then p[k] else x[k - |p| - 1];
      }
    }
    assert |q| == |p|;
    assert p == s[..|p|] && q == t[..|q|];
    assert x == s[|p| + 1..] && y == t[|q| + 1..];
  }

  /** The key of a valid record determines its name, whatever action it was computed for. */
  lemma KeyNames(r: Record, p: Instance)
    requires RecordValid(r) && Key(r.package) == Key(p)
    ensures r.package.package == p.package && r.package.architecture == p.architecture
  {
    hide VersionText, TriggersValid;
    assert NoColon(r.package.package) && NoColon(r.package.architecture);
    ColonPlace(r.package.package, r.package.architecture, p.package, p.architecture);
  }

  /** The record an accepted action starts from, and the one it ends at, bear the action's name. */
  lemma TouchedName(before: State, action: ReviewedAction, k: string)
    requires StateValid(before) && OldOf(before, action) == Found(k)
    ensures k in before.packages && before.packages[k].package.package == action.package.package
  {
    hide HeaderValid, RecordValid;
    if Key(action.package) in before.packages {
      KeyNames(before.packages[k], action.package);
    } else {
      assert k in Replaced(before.packages, action);
    }
  }

  lemma ReachedName(after: State, action: ReviewedAction, k: string)
    requires StateValid(after) && NowOf(after, action) == Some(k)
    ensures k in after.packages && after.packages[k].package.package == action.package.package
  {
    hide HeaderValid, RecordValid;
    if k == Key(action.package) {
      KeyNames(after.packages[k], action.package);
    } else {
      assert action.package.package + ":" == action.package.package + ":" + "";
      KeyNames(after.packages[k], Instance(action.package.package, "", ""));
    }
  }

  // ---------------------------------------------------------------------------------------------
  // The frame of one batch

  /** The rows of a name, without those that only record a reference. */
  function Rows(s: State, name: string): map<string, Record> {
    map k | k in s.packages && s.packages[k].package.package == name && !ReferenceOnly(s.packages[k]) :: s.packages[k]
  }

  predicate Untargeted(actions: seq<ReviewedAction>, name: string) {
    forall i :: 0 <= i < |actions| ==> actions[i].package.package != name
  }

  lemma PrimaryFrame(before: State, after: State, actions: seq<ReviewedAction>, name: string)
    requires StateValid(before) && StateValid(after)
    requires PrimaryExplains(before, after, actions) && Untargeted(actions, name)
    ensures Rows(after, name) == Rows(before, name)
  {
    hide StateValid, ReferenceOnly, OldOf, NowOf, Explained, Disjoint;
    forall k | k in before.packages && before.packages[k].package.package == name
      ensures !Touches(before, actions, k)
    {
      if Touches(before, actions, k) {
        var i :| 0 <= i < |actions| && OldOf(before, actions[i]) == Found(k);
        TouchedName(before, actions[i], k);
      }
    }
    forall k | k in after.packages && after.packages[k].package.package == name
      ensures !Reaches(after, actions, k)
    {
      if Reaches(after, actions, k) {
        var i :| 0 <= i < |actions| && NowOf(after, actions[i]) == Some(k);
        ReachedName(after, actions[i], k);
      }
    }
  }

  /** The same rows, each with its version, selection, reinstall flag and Multi-Arch. */
  predicate SameRows(a: State, b: State, name: string) {
    && Rows(a, name).Keys == Rows(b, name).Keys
    && forall k :: k in Rows(a, name) ==> SameCore(Rows(a, name)[k], Rows(b, name)[k])
  }

  lemma DrainedReference(r: Record)
    requires RecordValid(r)
    ensures ReferenceOnly(DrainedRecord(r)) <==> ReferenceOnly(r)
  {
    hide PackageName, VersionText, Architecture;
  }

  lemma TriggerFrame(before: State, after: State, actions: seq<ReviewedAction>, name: string)
    requires StateValid(before) && StateValid(after) && TriggersExplain(before, after, actions)
    ensures SameRows(before, after, name)
  {
    hide HeaderValid, RecordValid, ReferenceOnly, Drainable, Key;
    var expected := DrainedPackages(before.packages);
    forall k | k in before.packages
      ensures ReferenceOnly(expected[k]) <==> ReferenceOnly(before.packages[k])
      ensures SameCore(before.packages[k], expected[k])
    {
      DrainedReference(before.packages[k]);
    }
    forall k | k in after.packages && k in before.packages
      ensures before.packages[k].package.package == after.packages[k].package.package
    {
      KeyNames(before.packages[k], after.packages[k].package);
    }
  }

  // ---------------------------------------------------------------------------------------------
  // Whole runs

  /** `batches[i]` led from `states[i]` to `states[i + 1]`. */
  ghost predicate Run(states: seq<State>, batches: seq<Batch>, review: seq<ReviewedAction>) {
    && |states| == |batches| + 1
    && forall i :: 0 <= i < |batches| ==> Accepted(states[i], states[i + 1], review, batches[i])
  }

  /** No action that a batch names is about `name`. */
  predicate Spares(review: seq<ReviewedAction>, batch: Batch, name: string) {
    forall i :: 0 <= i < |review| && review[i].identifier in batch.actions ==> review[i].package.package != name
  }

  lemma BatchFrame(before: State, after: State, review: seq<ReviewedAction>, batch: Batch, name: string)
    requires Accepted(before, after, review, batch) && Spares(review, batch, name)
    ensures SameRows(before, after, name)
    ensures batch.action != Triggers ==> Rows(after, name) == Rows(before, name)
  {
    hide StateValid, PrimaryExplains, TriggersExplain, Rows;
    var actions: seq<ReviewedAction> :| Selects(review, batch, actions) && Explains(before, after, batch.action, actions);
    if batch.action == Triggers {
      TriggerFrame(before, after, actions, name);
    } else {
      forall i | 0 <= i < |actions|
        ensures actions[i].package.package != name
      {
        var j :| 0 <= j < |review| && review[j] == actions[i];
        assert batch.actions[i] in batch.actions;
      }
      PrimaryFrame(before, after, actions, name);
    }
  }

  /**
   * Over any accepted run, a name that no batch targets keeps its rows with their versions,
   * selections, reinstall flags and Multi-Arch values; without trigger batches it keeps them whole.
   */
  lemma {:induction false} RunFrame(states: seq<State>, batches: seq<Batch>, review: seq<ReviewedAction>, name: string)
    requires Run(states, batches, review)
    requires forall i :: 0 <= i < |batches| ==> Spares(review, batches[i], name)
    ensures SameRows(states[0], states[|batches|], name)
    ensures (forall i :: 0 <= i < |batches| ==> batches[i].action != Triggers) ==>
              Rows(states[|batches|], name) == Rows(states[0], name)
    decreases |batches|
  {
    hide Accepted, Rows, Spares;
    if |batches| > 0 {
      var n := |batches| - 1;
      RunFrame(states[..n + 1], batches[..n], review, name);
      BatchFrame(states[n], states[n + 1], review, batches[n], name);
    }
  }

  // ---------------------------------------------------------------------------------------------
  // Replacement

  lemma OldOfKey(before: State, action: ReviewedAction)
    ensures Key(action.package) in before.packages ==> OldOf(before, action) == Found(Key(action.package))
  {
  }

  lemma OldOfOther(before: State, action: ReviewedAction, k: string)
    requires OldOf(before, action) == Found(k) && k != Key(action.package)
    ensures k in before.packages && Replaceable(before.packages[k], action)
  {
    assert k in Replaced(before.packages, action);
  }

  /** An accepted unpack that replaces an instance of another architecture leaves no trace of it. */
  lemma ReplacedIsAbsent(before: State, after: State, actions: seq<ReviewedAction>, i: nat, k: string)
    requires StateValid(before) && StateValid(after) && PrimaryExplains(before, after, actions)
    requires i < |actions| && OldOf(before, actions[i]) == Found(k) && k != Key(actions[i].package)
    requires forall j :: 0 <= j < |actions| ==> actions[j].action == Unpack
    ensures k in before.packages && Replaceable(before.packages[k], actions[i])
    ensures k !in after.packages
  {
    hide StateValid, Explained, Key, OldOf, RecordValid;
    OldOfOther(before, actions[i], k);
    if k in after.packages {
      assert Touches(before, actions, k);
      if Reaches(after, actions, k) {
        var j :| 0 <= j < |actions| && NowOf(after, actions[j]) == Some(k);
        OldOfKey(before, actions[j]);
      }
      assert false;
    }
  }

  // ---------------------------------------------------------------------------------------------
  // The verifier

  method IndexActions(review: seq<ReviewedAction>) returns (ok: bool, index: map<nat, ReviewedAction>)
    ensures ok <==> Identified(review)
    ensures ok ==> forall i :: 0 <= i < |review| ==> review[i].identifier in index && index[review[i].identifier] == review[i]
    ensures ok ==> forall id :: id in index ==> index[id] in review && index[id].identifier == id
  {
    index := map[];
    for i := 0 to |review|
      invariant forall j :: 0 <= j < i ==> review[j].identifier != 0
      invariant forall j, k :: 0 <= j < k < i ==> review[j].identifier != review[k].identifier
      invariant forall j :: 0 <= j < i ==> review[j].identifier in index && index[review[j].identifier] == review[j]
      invariant forall id :: id in index ==> index[id].identifier == id && exists j :: 0 <= j < i && review[j] == index[id]
    {
      var action := review[i];
      if action.identifier == 0 || action.identifier in index { return false, index; }
      index := index[action.identifier := action];
    }
    ok := true;
  }

  lemma SelectsUnique(review: seq<ReviewedAction>, batch: Batch, a: seq<ReviewedAction>, b: seq<ReviewedAction>)
    requires Identified(review) && Selects(review, batch, a) && Selects(review, batch, b)
    ensures a == b
  {
    forall i | 0 <= i < |a|
      ensures a[i] == b[i]
    {
      var j :| 0 <= j < |review| && review[j] == a[i];
      var k :| 0 <= k < |review| && review[k] == b[i];
    }
  }

  method SelectActions(review: seq<ReviewedAction>, batch: Batch, index: map<nat, ReviewedAction>)
    returns (actions: Option<seq<ReviewedAction>>)
    requires Identified(review)
    requires forall i :: 0 <= i < |review| ==> review[i].identifier in index && index[review[i].identifier] == review[i]
    requires forall id :: id in index ==> index[id] in review && index[id].identifier == id
    ensures actions.Some? ==> Selects(review, batch, actions.value)
    ensures actions.None? ==> forall all :: !Selects(review, batch, all)
  {
    var found: seq<ReviewedAction>, seen: set<nat> := [], {};
    for i := 0 to |batch.actions|
      invariant |found| == i
      invariant forall j :: 0 <= j < i ==>
                  found[j] in review && found[j].identifier == batch.actions[j] && found[j].action == batch.action
      invariant forall j, k :: 0 <= j < k < i ==> batch.actions[j] != batch.actions[k]
      invariant forall id :: id in seen <==> exists j :: 0 <= j < i && batch.actions[j] == id
    {
      var id := batch.actions[i];
      if id !in index || id in seen || index[id].action != batch.action { return None; }
      seen := seen + {id};
      found := found + [index[id]];
    }
    actions := Some(found);
  }

  method FindOld(before: State, action: ReviewedAction) returns (lookup: Lookup)
    ensures lookup == OldOf(before, action)
  {
    var key := Key(action.package);
    if key in before.packages { return Found(key); }
    lookup := Absent;
    if action.action != Unpack { return; }
    hide Replaceable, Key;
    ghost var all := Replaced(before.packages, action);
    var keys := before.packages.Keys;
    while keys != {}
      invariant keys <= before.packages.Keys
      invariant lookup == Absent ==> all * (before.packages.Keys - keys) == {}
      invariant lookup.Found? ==> all * (before.packages.Keys - keys) == {lookup.key}
      invariant !lookup.Ambiguous?
    {
      var k :| k in keys;
      keys := keys - {k};
      if Replaceable(before.packages[k], action) {
        if lookup.Found? {
          assert {lookup.key, k} <= all;
          Smaller({lookup.key, k}, all);
          return Ambiguous;
        }
        lookup := Found(k);
      }
    }
    assert all * (before.packages.Keys - keys) == all;
  }

  method VerifyAction(before: State, after: State, action: ReviewedAction)
    returns (ok: bool, was: Option<string>, now: Option<string>)
    ensures ok <==> Explained(before, after, action)
    ensures ok ==> was == FoundKey(OldOf(before, action)) && now == NowOf(after, action)
  {
    hide OldOf;
    var lookup := FindOld(before, action);
    was, now := FoundKey(lookup), NowOf(after, action);
    if lookup.Ambiguous? { return false, was, now; }
    ok := Permitted(RecordAt(before, was), RecordAt(after, now), action);
  }

  /** Every action is explained and no two claim the same record. */
  ghost predicate Consistent(before: State, after: State, actions: seq<ReviewedAction>) {
    && (forall i :: 0 <= i < |actions| ==> Explained(before, after, actions[i]))
    && (forall i, j :: 0 <= i < j < |actions| ==> Disjoint(before, after, actions[i], actions[j]))
  }

  ghost function TouchedKeys(before: State, actions: seq<ReviewedAction>): set<string> {
    set i | 0 <= i < |actions| && OldOf(before, actions[i]).Found? :: OldOf(before, actions[i]).key
  }

  function ReachedKeys(after: State, actions: seq<ReviewedAction>): set<string> {
    set i | 0 <= i < |actions| && NowOf(after, actions[i]).Some? :: NowOf(after, actions[i]).value
  }

  lemma TouchedNext(before: State, actions: seq<ReviewedAction>, a: ReviewedAction)
    ensures TouchedKeys(before, actions + [a]) ==
            TouchedKeys(before, actions) + (if OldOf(before, a).Found? then {OldOf(before, a).key} else {})
  {
    hide OldOf;
    var all := actions + [a];
    assert all[|actions|] == a && forall i :: 0 <= i < |actions| ==> all[i] == actions[i];
  }

  lemma ReachedNext(after: State, actions: seq<ReviewedAction>, a: ReviewedAction)
    ensures ReachedKeys(after, actions + [a]) ==
            ReachedKeys(after, actions) + (if NowOf(after, a).Some? then {NowOf(after, a).value} else {})
  {
    hide NowOf;
    var all := actions + [a];
    assert all[|actions|] == a && forall i :: 0 <= i < |actions| ==> all[i] == actions[i];
  }

  lemma ConsistentNext(before: State, after: State, actions: seq<ReviewedAction>, a: ReviewedAction)
    ensures Consistent(before, after, actions + [a]) <==>
            && Consistent(before, after, actions) && Explained(before, after, a)
            && (OldOf(before, a).Found? ==> OldOf(before, a).key !in TouchedKeys(before, actions))
            && (NowOf(after, a).Some? ==> NowOf(after, a).value !in ReachedKeys(after, actions))
  {
    hide OldOf, NowOf, Explained;
    var all := actions + [a];
    assert all[|actions|] == a && forall i :: 0 <= i < |actions| ==> all[i] == actions[i];
    if Consistent(before, after, all) {
      forall i | 0 <= i < |actions|
        ensures Explained(before, after, actions[i]) && Disjoint(before, after, actions[i], a)
      {
        assert Explained(before, after, all[i]) && Disjoint(before, after, all[i], all[|actions|]);
      }
      forall i, j | 0 <= i < j < |actions|
        ensures Disjoint(before, after, actions[i], actions[j])
      {
        assert Disjoint(before, after, all[i], all[j]);
      }
      assert Explained(before, after, all[|actions|]);
    }
  }

  lemma {:induction false} ConsistentPrefix(before: State, after: State, actions: seq<ReviewedAction>, n: nat)
    requires n <= |actions| && Consistent(before, after, actions)
    ensures Consistent(before, after, actions[..n])
  {
    hide Explained, Disjoint;
  }

  method VerifyActions(before: State, after: State, actions: seq<ReviewedAction>)
    returns (ok: bool, touched: set<string>, reached: set<string>)
    ensures ok <==> Consistent(before, after, actions)
    ensures ok ==> touched == TouchedKeys(before, actions) && reached == ReachedKeys(after, actions)
  {
    hide OldOf, NowOf, Explained, Consistent, TouchedKeys, ReachedKeys;
    touched, reached := {}, {};
    ConsistentNone(before, after, actions);
    for i := 0 to |actions|
      invariant Consistent(before, after, actions[..i])
      invariant touched == TouchedKeys(before, actions[..i]) && reached == ReachedKeys(after, actions[..i])
    {
      var was, now;
      ok, was, now := VerifyAction(before, after, actions[i]);
      assert actions[..i + 1] == actions[..i] + [actions[i]];
      ConsistentNext(before, after, actions[..i], actions[i]);
      TouchedNext(before, actions[..i], actions[i]);
      ReachedNext(after, actions[..i], actions[i]);
      if !ok || (was.Some? && was.value in touched) || (now.Some? && now.value in reached) {
        if Consistent(before, after, actions) { ConsistentPrefix(before, after, actions, i + 1); }
        return false, touched, reached;
      }
      if was.Some? { touched := touched + {was.value}; }
      if now.Some? { reached := reached + {now.value}; }
    }
    assert actions[..|actions|] == actions;
    ok := true;
  }

  lemma ConsistentNone(before: State, after: State, actions: seq<ReviewedAction>)
    ensures Consistent(before, after, actions[..0])
    ensures TouchedKeys(before, actions[..0]) == {} && ReachedKeys(after, actions[..0]) == {}
  {
  }

  predicate RowUnchanged(packages: map<string, Record>, k: string, others: map<string, Record>)
    requires k in packages
  {
    || (ReferenceOnly(packages[k]) && Ignorable(others, k))
    || (k in others && packages[k] == others[k])
  }

  method VerifyDrained(expected: map<string, Record>, after: map<string, Record>) returns (ok: bool)
    ensures ok <==> Agrees(expected, after)
  {
    hide ReferenceOnly;
    var keys := expected.Keys;
    while keys != {}
      invariant keys <= expected.Keys
      invariant forall k :: k in expected && k !in keys ==> RowUnchanged(expected, k, after)
    {
      var k :| k in keys;
      keys := keys - {k};
      if !RowUnchanged(expected, k, after) { return false; }
    }
    keys := after.Keys;
    while keys != {}
      invariant keys <= after.Keys
      invariant forall k :: k in after && k !in keys ==> k in expected || ReferenceOnly(after[k])
    {
      var k :| k in keys;
      keys := keys - {k};
      if k !in expected && !ReferenceOnly(after[k]) { return false; }
    }
    ok := true;
  }

  predicate RestVerified(before: map<string, Record>, after: map<string, Record>, touched: set<string>, reached: set<string>) {
    && (forall k :: k in before && k !in touched ==> RowUnchanged(before, k, after))
    && (forall k :: k in after && k !in reached ==>
          || (ReferenceOnly(after[k]) && Ignorable(before, k))
          || (k in before && k !in touched && before[k] == after[k]))
  }

  method VerifyRest(before: map<string, Record>, after: map<string, Record>, touched: set<string>, reached: set<string>)
    returns (ok: bool)
    ensures ok <==> RestVerified(before, after, touched, reached)
  {
    hide ReferenceOnly;
    var keys := before.Keys - touched;
    while keys != {}
      invariant keys <= before.Keys - touched
      invariant forall k :: k in before && k !in touched && k !in keys ==> RowUnchanged(before, k, after)
    {
      var k :| k in keys;
      keys := keys - {k};
      if !RowUnchanged(before, k, after) { return false; }
    }
    keys := after.Keys - reached;
    while keys != {}
      invariant keys <= after.Keys - reached
      invariant forall k :: k in after && k !in reached && k !in keys ==>
                  || (ReferenceOnly(after[k]) && Ignorable(before, k))
                  || (k in before && k !in touched && before[k] == after[k])
    {
      var k :| k in keys;
      keys := keys - {k};
      if !(ReferenceOnly(after[k]) && Ignorable(before, k)) && !(k in before && k !in touched && before[k] == after[k]) {
        return false;
      }
    }
    ok := true;
  }

  lemma PrimaryIs(before: State, after: State, actions: seq<ReviewedAction>)
    ensures PrimaryExplains(before, after, actions) <==>
            && Consistent(before, after, actions)
            && RestVerified(before.packages, after.packages, TouchedKeys(before, actions), ReachedKeys(after, actions))
  {
    hide OldOf, NowOf, Explained, Disjoint, ReferenceOnly;
    assert forall k :: k in TouchedKeys(before, actions) <==> Touches(before, actions, k);
    assert forall k :: k in ReachedKeys(after, actions) <==> Reaches(after, actions, k);
  }

  method VerifyTransition(before: State, after: State, review: seq<ReviewedAction>, batch: Batch) returns (ok: bool)
    ensures ok <==> Accepted(before, after, review, batch)
  {
    hide StateValid, Drainable, HasOption, ReferenceOnly, RestUnchanged, Consistent, TouchedKeys, ReachedKeys, Agrees;
    if !Comparable(before, after, review, batch) { return false; }
    var index;
    ok, index := IndexActions(review);
    if !ok { return; }
    var selected := SelectActions(review, batch, index);
    if selected.None? { return false; }
    var actions := selected.value;
    forall all | Selects(review, batch, all)
      ensures all == actions
    {
      SelectsUnique(review, batch, all, actions);
    }
    if batch.action == Triggers {
      var drain := TriggerResult(before, PackagesOf(actions));
      if drain.Refused? { return false; }
      ok := VerifyDrained(drain.state.packages, after.packages);
    } else if batch.action == Deconfigure {
      ok := false;
    } else {
      var touched, reached;
      PrimaryIs(before, after, actions);
      ok, touched, reached := VerifyActions(before, after, actions);
      if ok { ok := VerifyRest(before.packages, after.packages, touched, reached); }
    }
  }
}
