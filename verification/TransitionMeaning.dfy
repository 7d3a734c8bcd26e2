/**
 * Accepted transitions read off the two states: what each kind of action leaves of its package,
 * and that nothing else has changed, with every state named.
 */
module TransitionMeaning {
  import opened Text
  import opened Characters
  import opened Packages
  import opened DpkgVersion
  import opened DpkgState
  import opened DpkgTransition
  import opened StateMeaning

  // ---------------------------------------------------------------------------------------------
  // Options

  /** An option counts up to the end of the options. */
  ghost predicate Asked(arguments: seq<string>, option: string) {
    exists i :: 0 <= i < |arguments| && arguments[i] == option && "--" !in arguments[..i + 1]
  }

  lemma {:induction false} OptionMeans(arguments: seq<string>, option: string)
    ensures HasOption(arguments, option) <==> Asked(arguments, option)
  {
    if |arguments| > 0 {
      var rest := arguments[1..];
      OptionMeans(rest, option);
      if arguments[0] != "--" {
        if arguments[0] == option { assert arguments[..1] == [option]; }
        if i :| 0 <= i < |rest| && rest[i] == option && "--" !in rest[..i + 1] {
          assert arguments[i + 1] == option && arguments[..i + 2] == [arguments[0]] + rest[..i + 1];
        }
        if i :| 0 <= i < |arguments| && arguments[i] == option && "--" !in arguments[..i + 1] {
          if i > 0 { assert rest[i - 1] == option && arguments[..i + 1] == [arguments[0]] + rest[..i]; }
        }
      } else {
        forall i | 0 <= i < |arguments| && arguments[i] == option
          ensures "--" in arguments[..i + 1]
        {
          assert arguments[..i + 1][0] == "--";
        }
      }
    }
  }

  // ---------------------------------------------------------------------------------------------
  // The rows of one action

  ghost function Own(action: ReviewedAction): string {
    action.package.package + ":" + action.package.architecture
  }

  /** Where an action starts: its own row, or for an unpack the installed row an all/native change replaces. */
  ghost predicate StartsAt(before: State, action: ReviewedAction, k: string) {
    && k in before.packages
    && if Own(action) in before.packages then k == Own(action)
       else
         && action.action.Unpack? && before.packages[k].package.package == action.package.package
         && !before.packages[k].status.NotInstalled?
         && (action.package.architecture == "all" || before.packages[k].package.architecture == "all")
  }

  ghost predicate OneStart(before: State, action: ReviewedAction) {
    forall k, l :: StartsAt(before, action, k) && StartsAt(before, action, l) ==> k == l
  }

  /** Where it ends: its own row, or what a removal leaves under the bare name. */
  ghost predicate EndsAt(after: State, action: ReviewedAction, k: string) {
    && k in after.packages
    && if Own(action) in after.packages then k == Own(action)
       else (action.action.Remove? || action.action.Purge?) && k == action.package.package + ":"
  }

  lemma StartMeans(before: State, action: ReviewedAction)
    ensures OldOf(before, action).Ambiguous? <==> !OneStart(before, action)
    ensures forall k :: OneStart(before, action) ==> (OldOf(before, action) == Found(k) <==> StartsAt(before, action, k))
  {
    var replaced := Replaced(before.packages, action);
    if Own(action) !in before.packages && action.action.Unpack? {
      forall k
        ensures k in replaced <==> StartsAt(before, action, k)
      {
      }
      if |replaced| > 1 {
        var k :| k in replaced;
        var l := Another(replaced, k);
        assert StartsAt(before, action, k) && StartsAt(before, action, l) && k != l;
      }
      if |replaced| == 1 {
        var k :| k in replaced;
        SoleMember(replaced, k);
      }
    }
  }

  lemma Another(s: set<string>, k: string) returns (l: string)
    requires |s| > 1 && k in s
    ensures l in s && l != k
  {
    assert |s - {k}| == |s| - 1;
    l :| l in s - {k};
  }

  lemma SoleMember(s: set<string>, k: string)
    requires |s| == 1 && k in s
    ensures s == {k}
  {
    assert |s - {k}| == 0;
  }

  lemma EndMeans(after: State, action: ReviewedAction, k: string)
    ensures NowOf(after, action) == Some(k) <==> EndsAt(after, action, k)
  {
  }

  // ---------------------------------------------------------------------------------------------
  // What one action leaves

  ghost predicate Unsettled(r: Record) {
    r.reinstallRequired || r.pending != [] || r.awaited != []
  }

  /** Installed on request, or on hold as it was before. */
  ghost predicate Wanted(before: State, action: ReviewedAction, now: Record) {
    now.selection.Install? || (now.selection.Hold? && exists k :: StartsAt(before, action, k) && before.packages[k].selection.Hold?)
  }

  ghost predicate UnpackDone(before: State, after: State, action: ReviewedAction) {
    && Own(action) in after.packages
    && var now := after.packages[Own(action)];
       now.package == action.package && now.status.Unpacked? && !Unsettled(now) && Wanted(before, action, now)
  }

  ghost predicate StandsBefore(before: State, action: ReviewedAction) {
    && Own(action) in before.packages && before.packages[Own(action)].package == action.package
    && !before.packages[Own(action)].reinstallRequired
  }

  ghost predicate ConfigureDone(before: State, after: State, action: ReviewedAction) {
    && StandsBefore(before, action) && Own(action) in after.packages
    && var was, now := before.packages[Own(action)], after.packages[Own(action)];
       && (was.status.Unpacked? || was.status.HalfConfigured?)
       && now.package == action.package && now.status.Installed? && !Unsettled(now) && Wanted(before, action, now)
       && now.multiArch == was.multiArch
  }

  /** A removal may leave configuration files as long as it leaves a selection; a purge leaves neither. */
  ghost predicate Left(now: Record, action: ReviewedAction) {
    && !Unsettled(now) && (now.selection.Deinstall? || now.selection.Purge? || now.selection.Unknown?)
    && (now.package.architecture == "" || now.package == action.package)
    && (now.status.NotInstalled? || (action.action.Remove? && now.status.ConfigFiles? && !now.selection.Unknown?))
  }

  ghost predicate RemoveDone(before: State, after: State, action: ReviewedAction) {
    StandsBefore(before, action) && forall k :: EndsAt(after, action, k) ==> Left(after.packages[k], action)
  }

  ghost predicate Done(before: State, after: State, action: ReviewedAction) {
    && OneStart(before, action)
    && (forall k :: StartsAt(before, action, k) ==> Idle(before.packages[k]))
    && match action.action
       case Unpack => UnpackDone(before, after, action)
       case Configure => ConfigureDone(before, after, action)
       case Remove => RemoveDone(before, after, action)
       case Purge => RemoveDone(before, after, action)
       case Triggers => false
       case Deconfigure => false
  }

  lemma DoneMeans(before: State, after: State, action: ReviewedAction)
    ensures Explained(before, after, action) <==> Done(before, after, action)
  {
    hide OldOf, NowOf, RemovedTo, StartsAt, EndsAt, UnpackDone, Left, Wanted;
    StartMeans(before, action);
    StartFound(before, action);
    if OneStart(before, action) {
      var was := RecordAt(before, FoundKey(OldOf(before, action)));
      var now := RecordAt(after, NowOf(after, action));
      WasMeans(before, action);
      NowMeans(after, action);
      if action.action == Unpack || action.action == Configure { BroughtMeans(before, after, action, was, now); }
      if action.action == Remove || action.action == ActionKind.Purge { RemovedMeans(after, action, now); }
      if action.action != Unpack { StandsMeans(before, action, was); }
    }
  }

  lemma WasMeans(before: State, action: ReviewedAction)
    requires OneStart(before, action)
    ensures var was := RecordAt(before, FoundKey(OldOf(before, action)));
            && (was.None? <==> forall k :: !StartsAt(before, action, k))
            && forall k :: StartsAt(before, action, k) ==> was == Some(before.packages[k])
  {
    hide OldOf;
    StartMeans(before, action);
    StartFound(before, action);
    if OldOf(before, action).Found? { assert StartsAt(before, action, OldOf(before, action).key); }
  }

  lemma NowMeans(after: State, action: ReviewedAction)
    ensures var now := RecordAt(after, NowOf(after, action));
            && (now.None? <==> forall k :: !EndsAt(after, action, k))
            && forall k :: EndsAt(after, action, k) ==> now == Some(after.packages[k])
  {
    hide NowOf;
    forall k
      ensures NowOf(after, action) == Some(k) <==> EndsAt(after, action, k)
    {
      EndMeans(after, action, k);
    }
    if NowOf(after, action).Some? { assert EndsAt(after, action, NowOf(after, action).value); }
  }

  lemma StandsMeans(before: State, action: ReviewedAction, was: Option<Record>)
    requires was.None? <==> forall k :: !StartsAt(before, action, k)
    requires forall k :: StartsAt(before, action, k) ==> was == Some(before.packages[k])
    requires action.action != Unpack
    ensures was.Some? && was.value.package == action.package && !was.value.reinstallRequired <==> StandsBefore(before, action)
  {
    if Own(action) in before.packages { assert StartsAt(before, action, Own(action)); }
  }

  lemma BroughtMeans(before: State, after: State, action: ReviewedAction, was: Option<Record>, now: Option<Record>)
    requires was.None? <==> forall k :: !StartsAt(before, action, k)
    requires forall k :: StartsAt(before, action, k) ==> was == Some(before.packages[k])
    requires now.None? <==> forall k :: !EndsAt(after, action, k)
    requires forall k :: EndsAt(after, action, k) ==> now == Some(after.packages[k])
    ensures action.action == Unpack ==> (now.Some? && InstalledTo(was, now.value, action) <==> UnpackDone(before, after, action))
    ensures action.action == Configure && StandsBefore(before, action) ==>
              (now.Some? && InstalledTo(was, now.value, action) <==> ConfigureDone(before, after, action))
  {
    if Own(action) in after.packages { assert EndsAt(after, action, Own(action)); }
    if Own(action) in before.packages { assert StartsAt(before, action, Own(action)); }
  }

  lemma RemovedMeans(after: State, action: ReviewedAction, now: Option<Record>)
    requires action.action == Remove || action.action == ActionKind.Purge
    requires now.None? <==> forall k :: !EndsAt(after, action, k)
    requires forall k :: EndsAt(after, action, k) ==> now == Some(after.packages[k])
    ensures (now.Some? ==> RemovedTo(now.value, action)) <==> forall k :: EndsAt(after, action, k) ==> Left(after.packages[k], action)
  {
    hide EndsAt;
    if now.Some? { var k :| EndsAt(after, action, k); }
  }

  lemma StartFound(before: State, action: ReviewedAction)
    ensures OldOf(before, action).Found? ==> OldOf(before, action).key in before.packages
    ensures OldOf(before, action).Found? && action.action != Unpack ==> OldOf(before, action).key == Own(action)
    ensures Own(action) in before.packages ==> OldOf(before, action) == Found(Own(action))
  {
    var replaced := Replaced(before.packages, action);
  }

  // ---------------------------------------------------------------------------------------------
  // What a batch leaves of everything else

  /** A row that only keeps a name something referred to. */
  ghost predicate Mention(r: Record) {
    && Word(r.package.package, 2, 256, LOWERCASE + DECIMALS, LOWERCASE + DECIMALS + "+-.")
    && r.package.version == "" && r.package.architecture == "" && r.status.NotInstalled? && r.selection.Unknown?
    && !r.reinstallRequired && r.multiArch in {"", "no"} && r.pending == [] && r.awaited == []
  }

  lemma MentionMeans(r: Record)
    ensures ReferenceOnly(r) <==> Mention(r)
  {
    hide Word, PackageName;
    PackageNameMeans(r.package.package);
  }

  ghost predicate Nothing(packages: map<string, Record>, k: string) {
    k in packages ==> Mention(packages[k])
  }

  ghost predicate Started(before: State, actions: seq<ReviewedAction>, k: string) {
    exists i :: 0 <= i < |actions| && StartsAt(before, actions[i], k)
  }

  ghost predicate Ended(after: State, actions: seq<ReviewedAction>, k: string) {
    exists i :: 0 <= i < |actions| && EndsAt(after, actions[i], k)
  }

  /** Rows no action starts or ends at are the same on both sides, mentions aside. */
  ghost predicate OthersStay(before: State, after: State, actions: seq<ReviewedAction>) {
    && (forall k :: k in before.packages && !Started(before, actions, k) ==>
          (Mention(before.packages[k]) && Nothing(after.packages, k))
          || (k in after.packages && after.packages[k] == before.packages[k]))
    && forall k :: k in after.packages && !Ended(after, actions, k) ==>
         (Mention(after.packages[k]) && Nothing(before.packages, k))
         || (k in before.packages && !Started(before, actions, k) && before.packages[k] == after.packages[k])
  }

  ghost predicate NoneShared(before: State, after: State, a: ReviewedAction, b: ReviewedAction) {
    && (forall k :: !(StartsAt(before, a, k) && StartsAt(before, b, k)))
    && forall k :: !(EndsAt(after, a, k) && EndsAt(after, b, k))
  }

  ghost predicate AllDone(before: State, after: State, actions: seq<ReviewedAction>) {
    && (forall i :: 0 <= i < |actions| ==> Done(before, after, actions[i]))
    && (forall i, j :: 0 <= i < j < |actions| ==> NoneShared(before, after, actions[i], actions[j]))
    && OthersStay(before, after, actions)
  }

  ghost predicate TriggersDone(before: State, after: State, targets: seq<Instance>) {
    && Ready(before.packages) && Recipients(before.packages, targets)
    && (forall k :: k in before.packages ==> exists rows :: Answered(before.packages, before.packages[k].awaited, rows))
    && (forall k :: k in before.packages ==> RowDrained(before.packages[k], after.packages, k))
    && forall k :: k in after.packages ==> k in before.packages || Mention(after.packages[k])
  }

  ghost predicate RowDrained(was: Record, after: map<string, Record>, k: string) {
    exists now :: DrainedInto(was, now) && ((Mention(now) && Nothing(after, k)) || (k in after && after[k] == now))
  }

  lemma PairMeans(before: State, after: State, a: ReviewedAction, b: ReviewedAction)
    requires OneStart(before, a) && OneStart(before, b)
    ensures Disjoint(before, after, a, b) <==> NoneShared(before, after, a, b)
  {
    hide OldOf, NowOf, StartsAt, EndsAt;
    StartMeans(before, a);
    StartMeans(before, b);
    forall k
      ensures NowOf(after, a) == Some(k) <==> EndsAt(after, a, k)
      ensures NowOf(after, b) == Some(k) <==> EndsAt(after, b, k)
    {
      EndMeans(after, a, k);
      EndMeans(after, b, k);
    }
    if OldOf(before, a).Found? { assert StartsAt(before, a, OldOf(before, a).key); }
    if NowOf(after, a).Some? { assert EndsAt(after, a, NowOf(after, a).value); }
  }

  lemma TouchMeans(before: State, after: State, actions: seq<ReviewedAction>, k: string)
    requires forall i :: 0 <= i < |actions| ==> OneStart(before, actions[i])
    ensures Touches(before, actions, k) <==> Started(before, actions, k)
    ensures Reaches(after, actions, k) <==> Ended(after, actions, k)
  {
    hide OldOf, NowOf, StartsAt, EndsAt, OneStart;
    forall i | 0 <= i < |actions|
      ensures OldOf(before, actions[i]) == Found(k) <==> StartsAt(before, actions[i], k)
      ensures NowOf(after, actions[i]) == Some(k) <==> EndsAt(after, actions[i], k)
    {
      StartMeans(before, actions[i]);
      EndMeans(after, actions[i], k);
    }
  }

  lemma OthersMean(before: State, after: State, actions: seq<ReviewedAction>)
    requires forall i :: 0 <= i < |actions| ==> OneStart(before, actions[i])
    ensures RestUnchanged(before, after, actions) <==> OthersStay(before, after, actions)
  {
    hide Touches, Reaches, Started, Ended, OneStart, ReferenceOnly, Mention;
    forall k
      ensures Touches(before, actions, k) <==> Started(before, actions, k)
      ensures Reaches(after, actions, k) <==> Ended(after, actions, k)
    {
      TouchMeans(before, after, actions, k);
    }
    forall r
      ensures ReferenceOnly(r) <==> Mention(r)
    {
      MentionMeans(r);
    }
  }

  lemma PrimaryMeans(before: State, after: State, actions: seq<ReviewedAction>)
    ensures PrimaryExplains(before, after, actions) <==> AllDone(before, after, actions)
  {
    hide Explained, RestUnchanged, OthersStay, Disjoint, NoneShared, OneStart, StartsAt, UnpackDone, ConfigureDone, RemoveDone, OldOf;
    forall i | 0 <= i < |actions|
      ensures Explained(before, after, actions[i]) <==> Done(before, after, actions[i])
    {
      DoneMeans(before, after, actions[i]);
    }
    if forall i :: 0 <= i < |actions| ==> Done(before, after, actions[i]) {
      OthersMean(before, after, actions);
      forall i, j | 0 <= i < j < |actions|
        ensures Disjoint(before, after, actions[i], actions[j]) <==> NoneShared(before, after, actions[i], actions[j])
      {
        PairMeans(before, after, actions[i], actions[j]);
      }
    }
  }

  lemma RowDrainedMeans(was: Record, after: map<string, Record>, k: string)
    ensures RowDrained(was, after, k) <==>
            (ReferenceOnly(DrainedRecord(was)) && Ignorable(after, k)) || (k in after && after[k] == DrainedRecord(was))
  {
    hide ReferenceOnly, Mention, DrainedRecord, DrainedInto;
    forall now
      ensures DrainedInto(was, now) <==> now == DrainedRecord(was)
    {
      DrainedMeans(was, now);
    }
    MentionMeans(DrainedRecord(was));
    if k in after { MentionMeans(after[k]); }
  }

  lemma TriggersMean(before: State, after: State, actions: seq<ReviewedAction>)
    requires StateValid(before)
    ensures TriggersExplain(before, after, actions) <==> TriggersDone(before, after, PackagesOf(actions))
  {
    hide StateValid, Drainable, Ready, Recipients, Answered, RowDrained, ReferenceOnly, Mention, DrainedRecord;
    DrainableMeans(before, PackagesOf(actions));
    forall k | k in before.packages
      ensures RowDrained(before.packages[k], after.packages, k) <==>
              (ReferenceOnly(DrainedRecord(before.packages[k])) && Ignorable(after.packages, k))
              || (k in after.packages && after.packages[k] == DrainedRecord(before.packages[k]))
    {
      RowDrainedMeans(before.packages[k], after.packages, k);
    }
    forall k | k in after.packages
      ensures ReferenceOnly(after.packages[k]) <==> Mention(after.packages[k])
    {
      MentionMeans(after.packages[k]);
    }
  }

  // ---------------------------------------------------------------------------------------------
  // Acceptance

  /** States, review and batch are such that anything can be accepted at all. */
  ghost predicate Orderly(before: State, after: State, review: seq<ReviewedAction>, batch: Batch) {
    && StateReads(before) && StateReads(after) && before.native == after.native && before.architectures == after.architectures
    && batch.number != 0 && 1 <= |batch.actions| <= 100000 && |review| <= 100000
    && Asked(batch.arguments, "--no-triggers") && !Asked(batch.arguments, "--auto-deconfigure")
    && (forall i :: 0 <= i < |review| ==> review[i].identifier != 0)
    && forall i, j :: 0 <= i < j < |review| ==> review[i].identifier != review[j].identifier
  }

  ghost predicate Settles(before: State, after: State, kind: ActionKind, actions: seq<ReviewedAction>) {
    if kind.Triggers? then TriggersDone(before, after, PackagesOf(actions)) else AllDone(before, after, actions)
  }

  /** The states of an accepted transition, written out; and every pair of states like that is accepted. */
  lemma AcceptedMeans(before: State, after: State, review: seq<ReviewedAction>, batch: Batch)
    ensures Accepted(before, after, review, batch) <==>
            && Orderly(before, after, review, batch)
            && exists actions :: Selects(review, batch, actions) && Settles(before, after, batch.action, actions)
  {
    hide StateValid, StateReads, HasOption, Asked, PrimaryExplains, TriggersExplain, AllDone, TriggersDone, Selects, PackagesOf;
    StateMeans(before);
    StateMeans(after);
    OptionMeans(batch.arguments, "--no-triggers");
    OptionMeans(batch.arguments, "--auto-deconfigure");
    if StateValid(before) && 1 <= |batch.actions| {
      forall actions | Selects(review, batch, actions)
        ensures DpkgTransition.Explains(before, after, batch.action, actions) <==> Settles(before, after, batch.action, actions)
      {
        SettlesMeans(before, after, review, batch, actions);
      }
    }
  }

  lemma SettlesMeans(before: State, after: State, review: seq<ReviewedAction>, batch: Batch, actions: seq<ReviewedAction>)
    requires StateValid(before) && 1 <= |batch.actions| && Selects(review, batch, actions)
    ensures DpkgTransition.Explains(before, after, batch.action, actions) <==> Settles(before, after, batch.action, actions)
  {
    hide StateValid, PrimaryExplains, TriggersExplain, TriggersDone, PackagesOf;
    TriggersMean(before, after, actions);
    PrimaryMeans(before, after, actions);
    if batch.action == Deconfigure {
      assert actions[0].action == Deconfigure;
      assert !Done(before, after, actions[0]);
    }
  }

  /** What an accepted batch says of each package it acts on. */
  lemma ActionsDone(before: State, after: State, review: seq<ReviewedAction>, batch: Batch, i: nat)
    requires Accepted(before, after, review, batch) && i < |batch.actions| && batch.action != Triggers
    ensures exists action :: action in review && action.identifier == batch.actions[i] && action.action == batch.action
                             && Done(before, after, action)
  {
    hide Orderly, Done;
    AcceptedMeans(before, after, review, batch);
    var actions :| Selects(review, batch, actions) && Settles(before, after, batch.action, actions);
    assert actions[i] in review && Done(before, after, actions[i]);
  }
}
