/**
 * Valid states and complete drains read off the rows themselves: every alphabet, status and
 * selection that matters is named here, apart from the checks that decide them.
 */
module StateMeaning {
  import opened Text
  import opened Characters
  import opened Packages
  import opened ByteOrder
  import opened DpkgVersion
  import opened DpkgState
  import opened LexicalMeaning

  // ---------------------------------------------------------------------------------------------
  // Names

  ghost predicate Word(s: string, least: nat, most: nat, first: string, alphabet: string) {
    least <= |s| <= most && (|s| > 0 ==> s[0] in first) && Written(s, alphabet)
  }

  lemma PackageNameMeans(s: string)
    ensures PackageName(s) <==> Word(s, 2, 256, LOWERCASE + DECIMALS, LOWERCASE + DECIMALS + "+-.")
  {
    forall k | 0 <= k < |s|
      ensures (Lower(s[k]) || Digit(s[k])) <==> s[k] in LOWERCASE + DECIMALS
      ensures (Lower(s[k]) || Digit(s[k]) || s[k] == '+' || s[k] == '-' || s[k] == '.') <==> s[k] in LOWERCASE + DECIMALS + "+-."
    {
      LowercaseMeans(s[k]);
      DigitMeans(s[k]);
    }
  }

  lemma ArchitectureNameMeans(s: string)
    ensures Architecture(s) <==> Word(s, 1, 128, LOWERCASE + DECIMALS + "-", LOWERCASE + DECIMALS + "-") && s != "any" && s != "native"
  {
    forall k | 0 <= k < |s|
      ensures ArchitectureCharacter(s[k]) <==> s[k] in LOWERCASE + DECIMALS + "-"
    {
      LowercaseMeans(s[k]);
      DigitMeans(s[k]);
    }
  }

  lemma IdentityMeans(s: string)
    ensures IdentityToken(s) <==> 1 <= |s| <= 512 && Written(s, LOWERCASE + UPPERCASE + DECIMALS + "-._:/+@=")
  {
    forall k | 0 <= k < |s|
      ensures TokenCharacter(s[k]) <==> s[k] in LOWERCASE + UPPERCASE + DECIMALS + "-._:/+@="
    {
      LetterMeans(s[k]);
      DigitMeans(s[k]);
    }
  }

  lemma VersionTextMeans(s: string)
    ensures VersionText(s) <==> 1 <= |s| <= 1024 && Written(s, LOWERCASE + UPPERCASE + DECIMALS + ".+:~-")
  {
    forall k | 0 <= k < |s|
      ensures VersionCharacter(s[k]) <==> s[k] in LOWERCASE + UPPERCASE + DECIMALS + ".+:~-"
    {
      LetterMeans(s[k]);
      DigitMeans(s[k]);
    }
  }

  // ---------------------------------------------------------------------------------------------
  // Records

  lemma PrintableMeans(s: string)
    ensures Visible(s) <==> Printable(s)
  {
    if Printable(s) {
      forall k | 0 <= k < |s|
        ensures ' ' < s[k] < 127 as char
      {
        assert 33 <= s[k] as int <= 126;
      }
    }
    if Visible(s) {
      forall k | 0 <= k < |s|
        ensures 33 <= s[k] as int <= 126
      {
        assert ' ' < s[k] < 127 as char;
      }
    }
  }

  /** A waiter: a package name, or a name with one architecture of its own. */
  ghost predicate Waiter(s: string) {
    || Word(s, 1, |s|, LOWERCASE + DECIMALS, LOWERCASE + DECIMALS + "+.-")
    || exists n, a :: s == n + ":" + a && WaiterParts(n, a)
  }

  ghost predicate WaiterParts(n: string, a: string) {
    && Word(n, 1, |n|, LOWERCASE + DECIMALS, LOWERCASE + DECIMALS + "+.-")
    && Word(a, 1, |a|, LOWERCASE + DECIMALS, LOWERCASE + DECIMALS + "-") && a != "any" && a != "native"
  }

  ghost predicate Bare(r: Record) {
    r.package.version == "" && r.package.architecture == ""
  }

  /** A list in byte order without repetition. */
  ghost predicate Listed(values: seq<string>) {
    |values| <= 4096 && (forall v :: v in values ==> Printable(v)) && forall i, j :: 0 <= i < j < |values| ==> Precedes(values[i], values[j])
  }

  ghost predicate RecordReads(r: Record) {
    && Word(r.package.package, 2, 256, LOWERCASE + DECIMALS, LOWERCASE + DECIMALS + "+-.")
    && (Bare(r) ==> r.status.NotInstalled? && !r.reinstallRequired && r.multiArch in {"", "no"})
    && (!Bare(r) ==> Architecture(r.package.architecture) && VersionText(r.package.version))
    && r.multiArch in {"", "no", "same", "foreign", "allowed"} && !(r.package.architecture == "all" && r.multiArch == "same")
    && (r.status in {NotInstalled, ConfigFiles} ==> r.pending == [] && r.awaited == [])
    && (r.pending != [] ==> r.status in {TriggersPending, TriggersAwaited})
    && (r.status.TriggersPending? ==> r.pending != []) && (r.status.TriggersAwaited? ==> r.awaited != [])
    && Listed(r.pending) && Listed(r.awaited) && forall w :: w in r.awaited ==> AwaitedSelector(w)
  }

  lemma {:induction false} SortedMeans(values: seq<string>, i: nat, j: nat)
    requires SortedUnique(values) && i < j < |values|
    ensures Precedes(values[i], values[j])
    decreases j - i
  {
    Trichotomy(values[j - 1], values[j]);
    if i < j - 1 {
      SortedMeans(values, i, j - 1);
      Transitive(values[i], values[j - 1], values[j]);
    }
  }

  lemma ListMeans(values: seq<string>)
    ensures |values| <= MAXIMUM_TRIGGERS && SortedUnique(values) && (forall k :: 0 <= k < |values| ==> Visible(values[k])) <==> Listed(values)
  {
    hide Visible, Printable, Precedes;
    forall v
      ensures Visible(v) <==> Printable(v)
    {
      PrintableMeans(v);
    }
    if SortedUnique(values) {
      forall i, j | 0 <= i < j < |values|
        ensures Precedes(values[i], values[j])
      {
        SortedMeans(values, i, j);
      }
    }
    if Listed(values) {
      forall k | 0 <= k < |values| - 1
        ensures !Precedes(values[k + 1], values[k]) && values[k] != values[k + 1]
      {
        Trichotomy(values[k], values[k + 1]);
      }
      forall k | 0 <= k < |values|
        ensures Visible(values[k])
      {
        assert values[k] in values;
      }
    }
  }

  lemma RecordMeans(r: Record)
    ensures RecordValid(r) <==> RecordReads(r)
  {
    hide PackageName, Word, Architecture, VersionText, SortedUnique, Visible, Listed, AwaitedSelector;
    PackageNameMeans(r.package.package);
    ListMeans(r.pending);
    ListMeans(r.awaited);
    if RecordValid(r) {
      forall w | w in r.awaited
        ensures AwaitedSelector(w)
      {
        var k :| 0 <= k < |r.awaited| && r.awaited[k] == w;
      }
    }
    if RecordReads(r) {
      forall k | 0 <= k < |r.awaited|
        ensures AwaitedSelector(r.awaited[k])
      {
        assert r.awaited[k] in r.awaited;
      }
    }
  }

  // ---------------------------------------------------------------------------------------------
  // Waiters

  lemma SelectorBytes(c: char)
    ensures SelectorCharacter(c) <==> c in LOWERCASE + DECIMALS + "+.-"
    ensures ArchitectureCharacter(c) <==> c in LOWERCASE + DECIMALS + "-"
    ensures (Lower(c) || Digit(c)) <==> c in LOWERCASE + DECIMALS
    ensures SelectorCharacter(c) ==> c != ':'
  {
    LowercaseMeans(c);
    DigitMeans(c);
  }

  lemma NamePart(n: string)
    ensures Word(n, 1, |n|, LOWERCASE + DECIMALS, LOWERCASE + DECIMALS + "+.-") <==>
            |n| > 0 && (Lower(n[0]) || Digit(n[0])) && forall k :: 0 <= k < |n| ==> SelectorCharacter(n[k])
  {
    hide SelectorCharacter, ArchitectureCharacter, Lower, Digit;
    forall k | 0 <= k < |n|
      ensures SelectorCharacter(n[k]) <==> n[k] in LOWERCASE + DECIMALS + "+.-"
      ensures (Lower(n[k]) || Digit(n[k])) <==> n[k] in LOWERCASE + DECIMALS
    {
      SelectorBytes(n[k]);
    }
  }

  lemma ArchitecturePart(a: string)
    ensures Word(a, 1, |a|, LOWERCASE + DECIMALS, LOWERCASE + DECIMALS + "-") <==>
            |a| > 0 && a[0] != '-' && forall k :: 0 <= k < |a| ==> ArchitectureCharacter(a[k])
  {
    forall k | 0 <= k < |a|
      ensures ArchitectureCharacter(a[k]) <==> a[k] in LOWERCASE + DECIMALS + "-"
      ensures ArchitectureCharacter(a[k]) && a[k] != '-' <==> a[k] in LOWERCASE + DECIMALS
    {
      SelectorBytes(a[k]);
      LowercaseMeans(a[k]);
      DecimalsMean(a[k]);
    }
  }

  /** A plain name waits for its only instance, a qualified one for the very row it names. */
  lemma WaiterMeans(s: string)
    ensures AwaitedSelector(s) <==> Waiter(s)
    ensures AwaitedSelector(s) ==> (SelectorOf(s) == ExactArchitecture <==> ':' in s)
  {
    hide SelectorCharacter, ArchitectureCharacter, Lower, Digit, Word, Find;
    FindFirst(s, ':');
    var colon := Find(s, ':');
    if colon == |s| {
      NamePart(s);
      assert ':' !in s;
      forall n: string, a: string
        ensures s != n + ":" + a
      {
        assert (n + ":" + a)[|n|] == ':';
      }
    } else {
      var n, a := s[..colon], s[colon + 1..];
      assert s == n + ":" + a && ':' in s;
      NamePart(n);
      ArchitecturePart(a);
      if Word(s, 1, |s|, LOWERCASE + DECIMALS, LOWERCASE + DECIMALS + "+.-") {
        NamePart(s);
        SelectorBytes(s[colon]);
      }
      if m, b :| s == m + ":" + b && WaiterParts(m, b) {
        SplitAtColon(s, m, b);
      }
    }
  }

  lemma SplitAtColon(s: string, n: string, a: string)
    requires s == n + ":" + a && WaiterParts(n, a)
    ensures Find(s, ':') == |n| && s[..|n|] == n && s[|n| + 1..] == a
  {
    hide SelectorCharacter, Lower, Digit, Find, Word;
    NamePart(n);
    forall k | 0 <= k < |n|
      ensures s[k] != ':'
    {
      SelectorBytes(n[k]);
    }
    FindAt(s, ':', |n|);
  }

  // ---------------------------------------------------------------------------------------------
  // States

  ghost predicate StateReads(s: State) {
    && 1 <= |s.identity| <= 512 && Written(s.identity, LOWERCASE + UPPERCASE + DECIMALS + "-._:/+@=")
    && 1 <= |s.architectures| <= 256 && s.architectures[0] == s.native
    && (forall a :: a in s.architectures ==> Architecture(a) && a != "all")
    && (forall i, j :: 0 <= i < j < |s.architectures| ==> s.architectures[i] != s.architectures[j])
    && |s.packages| <= 100000
    && forall k :: k in s.packages ==>
         k == s.packages[k].package.package + ":" + s.packages[k].package.architecture && RecordReads(s.packages[k])
  }

  lemma StateMeans(s: State)
    ensures StateValid(s) <==> StateReads(s)
  {
    hide RecordValid, RecordReads, Architecture, IdentityToken, Written;
    IdentityMeans(s.identity);
    forall r
      ensures RecordValid(r) <==> RecordReads(r)
    {
      RecordMeans(r);
    }
    if HeaderValid(s) {
      forall a | a in s.architectures
        ensures Architecture(a) && a != "all"
      {
        var k :| 0 <= k < |s.architectures| && s.architectures[k] == a;
      }
    }
    if StateReads(s) {
      forall k | 0 <= k < |s.architectures|
        ensures Architecture(s.architectures[k]) && s.architectures[k] != "all"
      {
        assert s.architectures[k] in s.architectures;
      }
    }
  }

  // ---------------------------------------------------------------------------------------------
  // Drains

  ghost predicate Idle(r: Record) {
    r.pending == [] && r.awaited == []
  }

  /** What draining makes of a row: triggers gone, and whoever had any is installed. */
  ghost predicate DrainedInto(was: Record, now: Record) {
    && now.package == was.package && now.selection == was.selection && now.reinstallRequired == was.reinstallRequired
    && now.multiArch == was.multiArch && Idle(now)
    && (was.pending != [] || was.status.TriggersAwaited? ==> now.status.Installed?)
    && (was.pending == [] && !was.status.TriggersAwaited? ==> now.status == was.status)
  }

  lemma DrainedMeans(was: Record, now: Record)
    ensures now == DrainedRecord(was) <==> DrainedInto(was, now)
  {
  }

  /** Rows with pending triggers are ready for them. */
  ghost predicate Ready(packages: map<string, Record>) {
    forall k :: k in packages && packages[k].pending != [] ==>
      && !packages[k].reinstallRequired && packages[k].status in {TriggersPending, TriggersAwaited}
      && packages[k].selection in {Install, Hold}
  }

  ghost predicate Slot(t: Instance, k: string) {
    t.package + ":" + t.architecture == k
  }

  /** The targets are the rows with pending triggers, each once and in its generation. */
  ghost predicate Recipients(packages: map<string, Record>, targets: seq<Instance>) {
    && targets != []
    && (forall i :: 0 <= i < |targets| ==> Pending(packages, targets[i]))
    && (forall k :: k in packages && packages[k].pending != [] ==> exists i :: 0 <= i < |targets| && Slot(targets[i], k))
    && forall i, j :: 0 <= i < j < |targets| ==> !Slot(targets[j], targets[i].package + ":" + targets[i].architecture)
  }

  ghost predicate Pending(packages: map<string, Record>, t: Instance) {
    var k := t.package + ":" + t.architecture;
    k in packages && packages[k].package == t && packages[k].pending != []
  }

  /** The row a waiter waits for. */
  ghost predicate WaitsFor(packages: map<string, Record>, w: string, k: string) {
    && k in packages && packages[k].pending != []
    && if ':' in w then k == w
       else packages[k].package.package == w && forall l :: l in packages && packages[l].package.package == w ==> l == k
  }

  /** The waiters of a row wait for different rows, all of them drained. */
  ghost predicate Answered(packages: map<string, Record>, waiters: seq<string>, rows: seq<string>) {
    && |rows| == |waiters| && (forall i :: 0 <= i < |rows| ==> WaitsFor(packages, waiters[i], rows[i]))
    && forall i, j :: 0 <= i < j < |rows| ==> rows[i] != rows[j]
  }

  lemma ReadyMeans(packages: map<string, Record>)
    ensures PendingSettled(packages) <==> Ready(packages)
  {
    forall k | k in packages
      ensures |packages[k].pending| > 0 <==> packages[k].pending != []
    {
    }
  }

  lemma RecipientsMean(packages: map<string, Record>, targets: seq<Instance>)
    ensures TargetsPending(PendingOf(packages), targets) && TargetsComplete(PendingOf(packages), targets) <==> Recipients(packages, targets)
  {
    hide PendingOf, Pending, Key, TargetsComplete, Slot;
    forall t
      ensures (Key(t) in PendingOf(packages) && PendingOf(packages)[Key(t)] == t) <==> Pending(packages, t)
    {
      PendingMeans(packages, t);
    }
    forall t, u
      ensures Key(t) == Key(u) <==> Slot(u, t.package + ":" + t.architecture)
    {
      SlotMeans(t, u);
    }
    if TargetsPending(PendingOf(packages), targets) { CompleteMeans(packages, targets); }
    if Recipients(packages, targets) { RecipientsPending(packages, targets); CompleteMeans(packages, targets); }
  }

  lemma RecipientsPending(packages: map<string, Record>, targets: seq<Instance>)
    requires Recipients(packages, targets)
    ensures forall i :: 0 <= i < |targets| ==> Key(targets[i]) in PendingOf(packages)
  {
    hide PendingOf, Pending, Key, Slot;
    forall i | 0 <= i < |targets|
      ensures Key(targets[i]) in PendingOf(packages)
    {
      PendingMeans(packages, targets[i]);
    }
  }

  lemma SlotMeans(t: Instance, u: Instance)
    ensures Key(t) == Key(u) <==> Slot(u, t.package + ":" + t.architecture)
    ensures forall k :: Slot(t, k) <==> Key(t) == k
  {
  }

  lemma PendingMeans(packages: map<string, Record>, t: Instance)
    ensures (Key(t) in PendingOf(packages) && PendingOf(packages)[Key(t)] == t) <==> Pending(packages, t)
  {
  }

  lemma PendingRow(packages: map<string, Record>, k: string)
    ensures k in PendingOf(packages) <==> k in packages && packages[k].pending != []
  {
  }

  lemma SlotsMean(targets: seq<Instance>, k: string)
    ensures (exists i :: 0 <= i < |targets| && Key(targets[i]) == k) <==> exists i :: 0 <= i < |targets| && Slot(targets[i], k)
  {
    hide Key, Slot;
    forall i | 0 <= i < |targets|
      ensures Slot(targets[i], k) <==> Key(targets[i]) == k
    {
      SlotMeans(targets[i], targets[i]);
    }
  }

  lemma CompleteMeans(packages: map<string, Record>, targets: seq<Instance>)
    requires forall i :: 0 <= i < |targets| ==> Key(targets[i]) in PendingOf(packages)
    ensures TargetsComplete(PendingOf(packages), targets) <==>
            targets != [] && forall k :: k in packages && packages[k].pending != [] ==> exists i :: 0 <= i < |targets| && Slot(targets[i], k)
  {
    hide PendingOf, Key, Slot;
    var pending := PendingOf(packages);
    if TargetsComplete(pending, targets) {
      var some :| some in pending;
      forall k | k in packages && packages[k].pending != []
        ensures exists i :: 0 <= i < |targets| && Slot(targets[i], k)
      {
        PendingRow(packages, k);
        SlotsMean(targets, k);
      }
    }
    if targets != [] && forall k :: k in packages && packages[k].pending != [] ==> exists i :: 0 <= i < |targets| && Slot(targets[i], k) {
      assert Key(targets[0]) in pending;
      forall k | k in pending
        ensures exists t :: 0 <= t < |targets| && Key(targets[t]) == k
      {
        PendingRow(packages, k);
        SlotsMean(targets, k);
      }
    }
  }

  lemma AnsweredMeans(packages: map<string, Record>, waiters: seq<string>, rows: seq<string>)
    requires forall i :: 0 <= i < |waiters| ==> AwaitedSelector(waiters[i])
    ensures Resolution(packages, waiters, rows) <==> Answered(packages, waiters, rows)
  {
    hide AwaitedSelector, SelectorOf;
    if |rows| == |waiters| {
      forall i | 0 <= i < |rows|
        ensures (Resolves(packages, waiters[i], rows[i]) && rows[i] in PendingOf(packages)) <==> WaitsFor(packages, waiters[i], rows[i])
      {
        WaiterMeans(waiters[i]);
      }
    }
  }

  /** A batch can be drained exactly when rows are ready, targets are the recipients and waiters are answered. */
  lemma DrainableMeans(before: State, targets: seq<Instance>)
    requires StateValid(before)
    ensures Drainable(before.packages, targets) <==>
            && Ready(before.packages) && Recipients(before.packages, targets)
            && forall k :: k in before.packages ==> exists rows :: Answered(before.packages, before.packages[k].awaited, rows)
  {
    hide PendingSettled, TargetsPending, TargetsComplete, Resolution, Answered, Recipients, Ready, HeaderValid, AwaitedSelector, PackageName, MetadataValid, SortedUnique, Visible;
    ReadyMeans(before.packages);
    RecipientsMean(before.packages, targets);
    forall k, rows | k in before.packages
      ensures Resolution(before.packages, before.packages[k].awaited, rows) <==> Answered(before.packages, before.packages[k].awaited, rows)
    {
      assert RecordValid(before.packages[k]);
      AnsweredMeans(before.packages, before.packages[k].awaited, rows);
    }
  }
}
