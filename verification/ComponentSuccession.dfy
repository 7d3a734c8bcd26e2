/**
 * The ledger of trusted components: which installed files a transaction may replace, one approved
 * unpack at a time, and which closed set of them may be launched.
 */
module ComponentSuccession {
  import opened Text
  import opened Packages
  import opened DpkgState
  import opened Reviews

  const MAXIMUM_COMPONENTS: nat := 512
  const MAXIMUM_DEPENDENCIES: nat := 4096
  const MAXIMUM_MESSAGE_BYTES: nat := 32 * 1024 * 1024
  const MAXIMUM_STREAM_BYTES: nat := 4 * 1024 * 1024 * 1024

  datatype FileKind = Regular | Symlink | Other
  datatype Payload = Payload(path: string, sha256: string, size: nat, mode: nat, uid: nat, gid: nat)
  datatype Component = Component(file: Payload, kind: FileKind, device: nat, inode: nat, links: nat, parents: string)
  datatype Replacement = Replacement(action: nat, file: Payload)

  /** An archive whose identity, policy result and provenance were checked, or were not. */
  datatype Retained = Retained(identifier: string, verified: bool, files: map<string, Payload>)

  // ---------------------------------------------------------------------------------------------
  // Files

  /** An absolute path other than the root. */
  predicate Path(s: string) {
    |s| >= 2 && AbsolutePath(s)
  }

  predicate Bit(mode: nat, weight: nat)
    requires weight > 0
  {
    mode / weight % 2 == 1
  }

  /** Owned by root and not writable by group or others. */
  predicate PayloadValid(p: Payload) {
    && Path(p.path) && Digest(p.sha256) && p.mode <= 0xFFF
    && !Bit(p.mode, 2) && !Bit(p.mode, 16) && p.uid == 0 && p.size <= MAXIMUM_STREAM_BYTES
  }

  predicate ComponentValid(c: Component) {
    PayloadValid(c.file) && c.kind == Regular && c.inode != 0 && c.links == 1 && Digest(c.parents)
  }

  predicate Executable(p: Payload) {
    Bit(p.mode, 1) || Bit(p.mode, 8) || Bit(p.mode, 64)
  }

  // ---------------------------------------------------------------------------------------------
  // The ledger as a value

  datatype Ledger = Ledger(initial: map<string, Component>, current: map<string, Component>,
                           replacements: map<string, Replacement>, unpacks: set<nat>, completed: set<nat>,
                           configuration: string, platform: string, review: string, initialized: bool, active: bool)

  /** The successor of a path is approved once its unpack is completed. */
  predicate Replaced(l: Ledger, completed: set<nat>, path: string) {
    path in l.replacements && l.replacements[path].action in completed
  }

  predicate InLedger(l: Ledger, completed: set<nat>, path: string) {
    path in l.initial || Replaced(l, completed, path)
  }

  predicate RecordSound(l: Ledger, path: string, c: Component) {
    && c.file.path == path && ComponentValid(c)
    && (path in l.initial ==> c.parents == l.initial[path].parents)
    && (if Replaced(l, l.completed, path) then c.file == l.replacements[path].file
        else path in l.initial && c == l.initial[path])
  }

  /**
   * While active, the recorded paths are the initial ones and those of completed approved unpacks;
   * each carries its approved payload once replaced and its untouched initial record before.
   */
  ghost predicate Sound(l: Ledger) {
    l.active ==>
      && l.initialized && l.completed <= l.unpacks && l.initial != map[]
      && (forall p :: p in l.replacements ==> l.replacements[p].action in l.unpacks)
      && (forall p :: p in l.current <==> InLedger(l, l.completed, p))
      && (forall p :: p in l.current ==> RecordSound(l, p, l.current[p]))
      && (forall p :: p in l.initial ==> l.initial[p].file.path == p && ComponentValid(l.initial[p]))
  }

  // ---------------------------------------------------------------------------------------------
  // Observations

  predicate PathsDistinct(files: seq<Component>) {
    forall i, j :: 0 <= i < j < |files| ==> files[i].file.path != files[j].file.path
  }

  function ByPath(files: seq<Component>): map<string, Component> {
    if |files| == 0 then map[] else ByPath(files[..|files| - 1])[files[|files| - 1].file.path := files[|files| - 1]]
  }

  predicate Required(l: Ledger, completed: set<nat>, path: string) {
    path in l.current || Replaced(l, completed, path)
  }

  /** One observed file: its parents never change, and its content only by a newly completed unpack. */
  predicate FileExplained(l: Ledger, completed: set<nat>, c: Component) {
    var path := c.file.path;
    && ComponentValid(c) && Required(l, completed, path)
    && (path in l.current ==> l.current[path].parents == c.parents)
    && (if Replaced(l, completed, path) && !Replaced(l, l.completed, path) then c.file == l.replacements[path].file
        else path in l.current && l.current[path] == c)
  }

  ghost predicate Observable(l: Ledger, completed: set<nat>, files: seq<Component>) {
    && l.active && |files| <= MAXIMUM_COMPONENTS
    && l.completed <= completed <= l.unpacks
    && (forall i :: 0 <= i < |files| ==> FileExplained(l, completed, files[i]))
    && PathsDistinct(files)
    && (forall p :: Required(l, completed, p) ==> exists i :: 0 <= i < |files| && files[i].file.path == p)
  }

  /** A rejected observation ends the ledger's activity for good. */
  ghost function Observed(l: Ledger, completed: set<nat>, files: seq<Component>): Ledger {
    if Observable(l, completed, files) then l.(current := ByPath(files), completed := completed) else l.(active := false)
  }

  lemma {:induction false} ByPathHas(files: seq<Component>, p: string)
    ensures p in ByPath(files) <==> exists i :: 0 <= i < |files| && files[i].file.path == p
    ensures p in ByPath(files) ==> ByPath(files)[p].file.path == p
  {
    if |files| > 0 {
      var front := files[..|files| - 1];
      ByPathHas(front, p);
      if p in ByPath(front) {
        var i :| 0 <= i < |front| && front[i].file.path == p;
        assert files[i].file.path == p;
      }
      if i :| 0 <= i < |files| && files[i].file.path == p {
        assert i < |front| ==> front[i].file.path == p;
      }
    }
  }

  lemma {:induction false} ByPathAt(files: seq<Component>, i: nat)
    requires PathsDistinct(files) && i < |files|
    ensures files[i].file.path in ByPath(files) && ByPath(files)[files[i].file.path] == files[i]
  {
    if i < |files| - 1 { ByPathAt(files[..|files| - 1], i); }
  }

  lemma ByPathExact(files: seq<Component>)
    requires PathsDistinct(files)
    ensures forall p :: p in ByPath(files) <==> exists i :: 0 <= i < |files| && files[i].file.path == p
    ensures forall i :: 0 <= i < |files| ==> files[i].file.path in ByPath(files) && ByPath(files)[files[i].file.path] == files[i]
    ensures forall p :: p in ByPath(files) ==> ByPath(files)[p].file.path == p
  {
    hide ByPath, PathsDistinct;
    forall p
      ensures p in ByPath(files) <==> exists i :: 0 <= i < |files| && files[i].file.path == p
      ensures p in ByPath(files) ==> ByPath(files)[p].file.path == p
    {
      ByPathHas(files, p);
    }
    forall i | 0 <= i < |files|
      ensures files[i].file.path in ByPath(files) && ByPath(files)[files[i].file.path] == files[i]
    {
      ByPathAt(files, i);
    }
  }

  /** Every observation keeps the ledger sound, accepted or not. */
  lemma ObservedSound(l: Ledger, completed: set<nat>, files: seq<Component>)
    requires Sound(l)
    ensures Sound(Observed(l, completed, files))
  {
    hide ComponentValid;
    if Observable(l, completed, files) {
      ByPathExact(files);
      var l' := Observed(l, completed, files);
      forall p
        ensures p in l'.current <==> InLedger(l', completed, p)
        ensures p in l'.current ==> RecordSound(l', p, l'.current[p])
      {
        if p in l'.current {
          var i :| 0 <= i < |files| && files[i].file.path == p;
          assert FileExplained(l, completed, files[i]);
          if p in l.current { assert RecordSound(l, p, l.current[p]); }
        }
        if InLedger(l', completed, p) { assert Required(l, completed, p); }
      }
    }
  }

  // ---------------------------------------------------------------------------------------------
  // Runs

  datatype Observation = Observation(completed: set<nat>, files: seq<Component>)

  ghost function Play(l: Ledger, run: seq<Observation>): Ledger {
    if |run| == 0 then l
    else
      var before := Play(l, run[..|run| - 1]);
      Observed(before, run[|run| - 1].completed, run[|run| - 1].files)
  }

  /** What no observation changes. */
  predicate SameOrigin(a: Ledger, b: Ledger) {
    && a.initial == b.initial && a.replacements == b.replacements && a.unpacks == b.unpacks
    && a.configuration == b.configuration && a.platform == b.platform && a.review == b.review
    && a.initialized == b.initialized
  }

  lemma {:induction false} PlaySound(l: Ledger, run: seq<Observation>)
    requires Sound(l)
    ensures Sound(Play(l, run)) && SameOrigin(l, Play(l, run))
    ensures Play(l, run).active ==> l.active && l.completed <= Play(l, run).completed
  {
    hide Sound, Observable;
    if |run| > 0 {
      PlaySound(l, run[..|run| - 1]);
      ObservedSound(Play(l, run[..|run| - 1]), run[|run| - 1].completed, run[|run| - 1].files);
      ObservedGrows(Play(l, run[..|run| - 1]), run[|run| - 1].completed, run[|run| - 1].files);
    }
  }

  lemma ObservedGrows(l: Ledger, completed: set<nat>, files: seq<Component>)
    ensures Observed(l, completed, files).active ==> l.active && l.completed <= Observed(l, completed, files).completed
  {
  }

  /** Once inactive, always inactive, and the record is frozen. */
  lemma {:induction false} InactivityAbsorbs(l: Ledger, run: seq<Observation>)
    requires !l.active
    ensures Play(l, run) == l
  {
    hide PathsDistinct, FileExplained;
    if |run| > 0 { InactivityAbsorbs(l, run[..|run| - 1]); }
  }

  /** The same files but for the identity a newly unpacked file gets on disk. */
  predicate SameContents(a: Ledger, b: Ledger) {
    && a.current.Keys == b.current.Keys
    && forall p :: p in a.current ==>
         && a.current[p].file == b.current[p].file
         && (p in a.initial ==> a.current[p].parents == b.current[p].parents)
         && (!Replaced(a, a.completed, p) ==> a.current[p] == b.current[p])
  }

  lemma SoundDetermines(a: Ledger, b: Ledger)
    requires Sound(a) && Sound(b) && a.active && b.active && SameOrigin(a, b) && a.completed == b.completed
    ensures SameContents(a, b)
  {
    hide ComponentValid;
    forall p | p in a.current
      ensures p in b.current && a.current[p].file == b.current[p].file
      ensures p in a.initial ==> a.current[p].parents == b.current[p].parents
      ensures !Replaced(a, a.completed, p) ==> a.current[p] == b.current[p]
    {
      assert InLedger(b, b.completed, p);
      assert RecordSound(a, p, a.current[p]) && RecordSound(b, p, b.current[p]);
    }
    forall p | p in b.current
      ensures p in a.current
    {
      assert InLedger(a, a.completed, p);
    }
  }

  /** Two runs that end with the same completed unpacks end with the same contents, however they were batched. */
  lemma BatchingIrrelevant(l: Ledger, first: seq<Observation>, second: seq<Observation>)
    requires Sound(l) && Play(l, first).active && Play(l, second).active
    requires Play(l, first).completed == Play(l, second).completed
    ensures SameContents(Play(l, first), Play(l, second))
  {
    hide Sound, Play, SameContents;
    PlaySound(l, first);
    PlaySound(l, second);
    SoundDetermines(Play(l, first), Play(l, second));
  }

  lemma ParentsKept(l: Ledger, completed: set<nat>, files: seq<Component>)
    requires Sound(l) && Observable(l, completed, files)
    ensures forall p :: p in l.current ==> p in ByPath(files) && ByPath(files)[p].parents == l.current[p].parents
  {
    hide ComponentValid, Sound;
    ByPathExact(files);
    forall p | p in l.current
      ensures p in ByPath(files) && ByPath(files)[p].parents == l.current[p].parents
    {
      assert Required(l, completed, p);
      var i :| 0 <= i < |files| && files[i].file.path == p;
      assert FileExplained(l, completed, files[i]);
    }
  }

  /** No file that was ever recorded leaves the record or moves to other parents while the ledger is active. */
  lemma {:induction false} ParentsFrozen(l: Ledger, run: seq<Observation>, p: string)
    requires Sound(l) && p in l.current && Play(l, run).active
    ensures p in Play(l, run).current && Play(l, run).current[p].parents == l.current[p].parents
  {
    hide Sound, Observable, ByPath;
    if |run| > 0 {
      var before := Play(l, run[..|run| - 1]);
      PlaySound(l, run[..|run| - 1]);
      ObservedGrows(before, run[|run| - 1].completed, run[|run| - 1].files);
      ParentsFrozen(l, run[..|run| - 1], p);
      ParentsKept(before, run[|run| - 1].completed, run[|run| - 1].files);
    }
  }

  // ---------------------------------------------------------------------------------------------
  // Launching

  datatype DependencyKind = ComponentDependency | PlatformDependency
  datatype Dependency = Dependency(kind: DependencyKind, path: string)
  datatype Node = Node(file: Component, dependencies: seq<Dependency>)
  datatype Closure = Closure(executable: string, configuration: string, platform: string, nodes: seq<Node>)

  function NodePath(n: Node): string {
    n.file.file.path
  }

  predicate Edge(nodes: map<string, Node>, x: string, y: string) {
    x in nodes && exists d :: 0 <= d < |nodes[x].dependencies| && nodes[x].dependencies[d] == Dependency(ComponentDependency, y)
  }

  /** `walk` follows Component edges. */
  ghost predicate Walk(nodes: map<string, Node>, walk: seq<string>) {
    |walk| > 0 && forall k :: 0 <= k < |walk| - 1 ==> Edge(nodes, walk[k], walk[k + 1])
  }

  ghost predicate Reachable(nodes: map<string, Node>, from: string, to: string) {
    exists walk: seq<string> :: Walk(nodes, walk) && walk[0] == from && walk[|walk| - 1] == to
  }

  /** No Platform edge of the node names a path the ledger knows. */
  predicate PlatformClear(l: Ledger, n: Node) {
    forall d :: 0 <= d < |n.dependencies| && n.dependencies[d].kind == PlatformDependency ==>
      n.dependencies[d].path !in l.current && n.dependencies[d].path !in l.replacements
  }

  function EdgeCount(nodes: seq<Node>): nat {
    if |nodes| == 0 then 0 else EdgeCount(nodes[..|nodes| - 1]) + |nodes[|nodes| - 1].dependencies|
  }

  function NodesByPath(nodes: seq<Node>): map<string, Node> {
    if |nodes| == 0 then map[] else NodesByPath(nodes[..|nodes| - 1])[NodePath(nodes[|nodes| - 1]) := nodes[|nodes| - 1]]
  }

  predicate NodeCurrent(l: Ledger, n: Node) {
    && NodePath(n) in l.current && l.current[NodePath(n)] == n.file
    && forall d :: 0 <= d < |n.dependencies| ==> Path(n.dependencies[d].path)
  }

  predicate NodesCurrent(l: Ledger, nodes: seq<Node>) {
    && (forall n :: 0 <= n < |nodes| ==> NodeCurrent(l, nodes[n]))
    && (forall m, n :: 0 <= m < n < |nodes| ==> NodePath(nodes[m]) != NodePath(nodes[n]))
    && EdgeCount(nodes) <= MAXIMUM_DEPENDENCIES
  }

  predicate Bound(l: Ledger, proof: Closure) {
    && l.active && proof.configuration == l.configuration && proof.platform == l.platform
    && Path(proof.executable) && 0 < |proof.nodes| <= MAXIMUM_COMPONENTS
  }

  /** The nodes are exactly what the executable reaches, and nothing reached hides a component as platform. */
  ghost predicate Closed(l: Ledger, nodes: map<string, Node>, executable: string) {
    && (forall x :: x in nodes <==> Reachable(nodes, executable, x))
    && (forall x :: x in nodes ==> PlatformClear(l, nodes[x]))
  }

  ghost predicate Launchable(l: Ledger, proof: Closure) {
    && Bound(l, proof) && NodesCurrent(l, proof.nodes)
    && var nodes := NodesByPath(proof.nodes);
    && proof.executable in nodes && Executable(nodes[proof.executable].file.file)
    && Closed(l, nodes, proof.executable)
  }

  lemma ReachableSelf(nodes: map<string, Node>, x: string)
    ensures Reachable(nodes, x, x)
  {
    assert Walk(nodes, [x]);
  }

  lemma ReachableNext(nodes: map<string, Node>, from: string, x: string, y: string)
    requires Reachable(nodes, from, x) && Edge(nodes, x, y)
    ensures Reachable(nodes, from, y)
  {
    hide Edge;
    var walk: seq<string> :| Walk(nodes, walk) && walk[0] == from && walk[|walk| - 1] == x;
    assert Walk(nodes, walk + [y]);
  }

  /** A set that holds the start and is closed under edges holds everything reachable. */
  lemma {:induction false} ClosedSetHolds(nodes: map<string, Node>, reached: set<string>, walk: seq<string>)
    requires Walk(nodes, walk) && walk[0] in reached
    requires forall x, y :: x in reached && Edge(nodes, x, y) ==> y in reached
    ensures walk[|walk| - 1] in reached
    decreases |walk|
  {
    hide Edge;
    if |walk| > 1 {
      assert Edge(nodes, walk[|walk| - 2], walk[|walk| - 1]);
      ClosedSetHolds(nodes, reached, walk[..|walk| - 1]);
    }
  }

  // ---------------------------------------------------------------------------------------------
  // Admission

  predicate UnpacksDistinct(actions: seq<ReviewedAction>) {
    forall p, q :: 0 <= p < q < |actions| && actions[p].action == Unpack && actions[q].action == Unpack ==>
      actions[p].archive != actions[q].archive
  }

  predicate UnpackedBy(actions: seq<ReviewedAction>, archive: string, identifier: nat) {
    exists p :: 0 <= p < |actions| && actions[p].action == Unpack && actions[p].archive == archive && actions[p].identifier == identifier
  }

  function UnpackIds(actions: seq<ReviewedAction>): set<nat> {
    set p | 0 <= p < |actions| && actions[p].action == Unpack :: actions[p].identifier
  }

  predicate ArchiveAdmitted(actions: seq<ReviewedAction>, a: Retained) {
    && (exists p :: 0 <= p < |actions| && actions[p].action == Unpack && actions[p].archive == a.identifier)
    && a.verified && 0 < |a.files| <= MAXIMUM_COMPONENTS
    && forall f :: f in a.files ==> a.files[f].path == f && PayloadValid(a.files[f])
  }

  function PathsOf(archives: seq<Retained>): set<string> {
    if |archives| == 0 then {} else PathsOf(archives[..|archives| - 1]) + archives[|archives| - 1].files.Keys
  }

  /** Each path of an admitted archive, with its payload and the unpack that approves it. */
  predicate ReplacementsAre(actions: seq<ReviewedAction>, archives: seq<Retained>, replacements: map<string, Replacement>) {
    && replacements.Keys == PathsOf(archives)
    && forall a, f :: 0 <= a < |archives| && f in archives[a].files ==>
         && f in replacements && replacements[f].file == archives[a].files[f]
         && UnpackedBy(actions, archives[a].identifier, replacements[f].action)
  }

  predicate Beginnable(actions: seq<ReviewedAction>, files: seq<Component>, archives: seq<Retained>) {
    && 0 < |files| <= MAXIMUM_COMPONENTS && |archives| <= MAXIMUM_COMPONENTS
    && (forall i :: 0 <= i < |files| ==> ComponentValid(files[i])) && PathsDistinct(files)
    && UnpacksDistinct(actions)
    && AllArchivesAdmitted(actions, archives)
    && |ByPath(files).Keys + PathsOf(archives)| <= MAXIMUM_COMPONENTS
  }

  method IndexUnpacks(actions: seq<ReviewedAction>) returns (ok: bool, index: map<string, nat>, unpacks: set<nat>)
    ensures ok <==> UnpacksDistinct(actions)
    ensures ok ==> unpacks == UnpackIds(actions)
    ensures ok ==> forall id :: id in index <==> exists p :: 0 <= p < |actions| && actions[p].action == Unpack && actions[p].archive == id
    ensures ok ==> forall id :: id in index ==> UnpackedBy(actions, id, index[id])
  {
    index, unpacks := map[], {};
    for n := 0 to |actions|
      invariant forall p, q :: 0 <= p < q < n && actions[p].action == Unpack && actions[q].action == Unpack ==>
                  actions[p].archive != actions[q].archive
      invariant unpacks == set p | 0 <= p < n && actions[p].action == Unpack :: actions[p].identifier
      invariant forall id :: id in index <==> exists p :: 0 <= p < n && actions[p].action == Unpack && actions[p].archive == id
      invariant forall id :: id in index ==> UnpackedBy(actions, id, index[id])
    {
      var action := actions[n];
      if action.action != Unpack { continue; }
      if action.archive in index { return false, index, unpacks; }
      index := index[action.archive := action.identifier];
      unpacks := unpacks + {action.identifier};
    }
    ok := true;
  }

  method LoadInitial(files: seq<Component>) returns (ok: bool, current: map<string, Component>)
    ensures ok <==> (forall i :: 0 <= i < |files| ==> ComponentValid(files[i])) && PathsDistinct(files)
    ensures ok ==> current == ByPath(files)
  {
    hide ComponentValid, PathsDistinct, ByPath;
    current := map[];
    NothingObserved(files);
    for n := 0 to |files|
      invariant forall i :: 0 <= i < n ==> ComponentValid(files[i])
      invariant PathsDistinct(files[..n]) && current == ByPath(files[..n])
    {
      ByPathNext(files, n);
      if files[n].file.path in current {
        RepeatedPath(files, n);
        return false, current;
      }
      if !ComponentValid(files[n]) { return false, current; }
      FreshPath(files, n);
      current := current[files[n].file.path := files[n]];
    }
    assert files[..|files|] == files;
    ok := true;
  }

  /** Records the files of one archive; every path must be new. */
  method LoadArchive(a: Retained, action: nat, before: map<string, Replacement>)
    returns (ok: bool, replacements: map<string, Replacement>)
    requires |before.Keys| <= MAXIMUM_COMPONENTS
    ensures ok <==>
            && (forall f :: f in a.files ==> a.files[f].path == f && PayloadValid(a.files[f]))
            && a.files.Keys !! before.Keys && |before.Keys + a.files.Keys| <= MAXIMUM_COMPONENTS
    ensures ok ==> replacements.Keys == before.Keys + a.files.Keys
    ensures ok ==> forall f :: f in replacements ==>
              replacements[f] == if f in a.files then Replacement(action, a.files[f]) else before[f]
  {
    hide Taking, PayloadValid;
    replacements := before;
    var rest := a.files.Keys;
    TakeNone(a, action, before);
    while rest != {}
      invariant rest <= a.files.Keys && |replacements.Keys| <= MAXIMUM_COMPONENTS
      invariant Taking(a, action, before, rest, replacements)
    {
      var f :| f in rest;
      if f != a.files[f].path || !PayloadValid(a.files[f]) { return false, replacements; }
      if f in replacements {
        TakeFails(a, action, before, rest, replacements, f);
        return false, replacements;
      }
      if |replacements.Keys| == MAXIMUM_COMPONENTS {
        TakeLimit(a, action, before, rest, replacements, f);
        return false, replacements;
      }
      TakeNext(a, action, before, rest, replacements, f);
      rest := rest - {f};
      replacements := replacements[f := Replacement(action, a.files[f])];
    }
    TakeAll(a, action, before, replacements);
    ok := true;
  }

  /** Every file of the archive that is not in `rest` is recorded. */
  ghost predicate Taking(a: Retained, action: nat, before: map<string, Replacement>, rest: set<string>,
                         replacements: map<string, Replacement>) {
    && (forall f :: f in replacements <==> f in before || (f in a.files && f !in rest))
    && (forall f :: f in a.files && f !in rest ==> a.files[f].path == f && PayloadValid(a.files[f]) && f !in before)
    && (forall f :: f in replacements ==> replacements[f] == if f in before then before[f] else Replacement(action, a.files[f]))
  }

  lemma TakeNone(a: Retained, action: nat, before: map<string, Replacement>)
    ensures Taking(a, action, before, a.files.Keys, before)
  {
  }

  lemma TakeFails(a: Retained, action: nat, before: map<string, Replacement>, rest: set<string>,
                  replacements: map<string, Replacement>, f: string)
    requires Taking(a, action, before, rest, replacements) && f in rest && f in a.files && f in replacements
    ensures f in before
  {
  }

  lemma TakeLimit(a: Retained, action: nat, before: map<string, Replacement>, rest: set<string>,
                  replacements: map<string, Replacement>, f: string)
    requires Taking(a, action, before, rest, replacements) && f in rest && f in a.files && f !in replacements
    requires |replacements.Keys| == MAXIMUM_COMPONENTS
    ensures |before.Keys + a.files.Keys| > MAXIMUM_COMPONENTS
  {
    Smaller(replacements.Keys + {f}, before.Keys + a.files.Keys);
  }

  lemma TakeNext(a: Retained, action: nat, before: map<string, Replacement>, rest: set<string>,
                 replacements: map<string, Replacement>, f: string)
    requires Taking(a, action, before, rest, replacements) && f in rest && f in a.files && f !in replacements
    requires a.files[f].path == f && PayloadValid(a.files[f])
    ensures var after := replacements[f := Replacement(action, a.files[f])];
            Taking(a, action, before, rest - {f}, after) && |after.Keys| == |replacements.Keys| + 1
  {
    hide PayloadValid;
    var after := replacements[f := Replacement(action, a.files[f])];
    assert after.Keys == replacements.Keys + {f};
  }

  lemma TakeAll(a: Retained, action: nat, before: map<string, Replacement>, replacements: map<string, Replacement>)
    requires Taking(a, action, before, {}, replacements)
    ensures replacements.Keys == before.Keys + a.files.Keys && a.files.Keys !! before.Keys
    ensures forall f :: f in a.files ==> a.files[f].path == f && PayloadValid(a.files[f])
    ensures forall f :: f in replacements ==>
              replacements[f] == if f in a.files then Replacement(action, a.files[f]) else before[f]
  {
    hide PayloadValid;
  }

  lemma {:induction false} PathsExact(archives: seq<Retained>, f: string)
    ensures f in PathsOf(archives) <==> exists a :: 0 <= a < |archives| && f in archives[a].files
  {
    if |archives| > 0 {
      var front := archives[..|archives| - 1];
      PathsExact(front, f);
      if f in PathsOf(front) {
        var a :| 0 <= a < |front| && f in front[a].files;
        assert f in archives[a].files;
      }
      if a :| 0 <= a < |archives| && f in archives[a].files {
        assert a < |front| ==> f in front[a].files;
      }
    }
  }

  lemma {:induction false} PathsGrow(archives: seq<Retained>, n: nat)
    requires n <= |archives|
    ensures PathsOf(archives[..n]) <= PathsOf(archives)
    ensures n < |archives| ==> PathsOf(archives[..n + 1]) == PathsOf(archives[..n]) + archives[n].files.Keys
  {
    if n < |archives| {
      assert archives[..n + 1][..n] == archives[..n];
      PathsGrow(archives[..|archives| - 1], n);
      assert archives[..|archives| - 1][..n] == archives[..n];
    } else {
      assert archives[..n] == archives;
    }
  }

  function IdsOf(archives: seq<Retained>): set<string> {
    if |archives| == 0 then {} else IdsOf(archives[..|archives| - 1]) + {archives[|archives| - 1].identifier}
  }

  /** Every archive is admitted on its own, and shares neither its identifier nor a path with one before it. */
  predicate AllArchivesAdmitted(actions: seq<ReviewedAction>, archives: seq<Retained>) {
    |archives| > 0 ==>
      var front, last := archives[..|archives| - 1], archives[|archives| - 1];
      && AllArchivesAdmitted(actions, front) && ArchiveAdmitted(actions, last)
      && last.identifier !in IdsOf(front) && last.files.Keys !! PathsOf(front)
  }

  lemma AdmittedNext(actions: seq<ReviewedAction>, archives: seq<Retained>, n: nat)
    requires n < |archives|
    ensures AllArchivesAdmitted(actions, archives[..n + 1]) <==>
            && AllArchivesAdmitted(actions, archives[..n]) && ArchiveAdmitted(actions, archives[n])
            && archives[n].identifier !in IdsOf(archives[..n]) && archives[n].files.Keys !! PathsOf(archives[..n])
    ensures IdsOf(archives[..n + 1]) == IdsOf(archives[..n]) + {archives[n].identifier}
  {
    hide ArchiveAdmitted;
    assert archives[..n + 1][..n] == archives[..n];
  }

  lemma {:induction false} AdmittedPrefix(actions: seq<ReviewedAction>, archives: seq<Retained>, n: nat)
    requires n <= |archives| && AllArchivesAdmitted(actions, archives)
    ensures AllArchivesAdmitted(actions, archives[..n])
  {
    hide ArchiveAdmitted, IdsOf, PathsOf;
    if n < |archives| {
      AdmittedPrefix(actions, archives[..|archives| - 1], n);
      assert archives[..|archives| - 1][..n] == archives[..n];
    } else {
      assert archives[..n] == archives;
    }
  }

  lemma ReplacementsNext(actions: seq<ReviewedAction>, archives: seq<Retained>, n: nat, action: nat,
                         before: map<string, Replacement>, after: map<string, Replacement>)
    requires n < |archives| && ReplacementsAre(actions, archives[..n], before)
    requires UnpackedBy(actions, archives[n].identifier, action) && archives[n].files.Keys !! before.Keys
    requires after.Keys == before.Keys + archives[n].files.Keys
    requires forall f :: f in after ==>
               after[f] == if f in archives[n].files then Replacement(action, archives[n].files[f]) else before[f]
    ensures ReplacementsAre(actions, archives[..n + 1], after)
  {
    hide UnpackedBy;
    PathsGrow(archives, n);
    var all := archives[..n + 1];
    forall a, f | 0 <= a < |all| && f in all[a].files
      ensures f in after && after[f].file == all[a].files[f] && UnpackedBy(actions, all[a].identifier, after[f].action)
    {
      if a < n { assert archives[..n][a] == all[a]; }
    }
  }

  method CheckArchive(actions: seq<ReviewedAction>, a: Retained, index: map<string, nat>) returns (ok: bool)
    requires forall id :: id in index <==> exists p :: 0 <= p < |actions| && actions[p].action == Unpack && actions[p].archive == id
    ensures ok && (forall f :: f in a.files ==> a.files[f].path == f && PayloadValid(a.files[f])) <==> ArchiveAdmitted(actions, a)
    ensures ok ==> a.identifier in index
  {
    hide PayloadValid;
    ok := a.identifier in index && a.verified && 0 < |a.files| <= MAXIMUM_COMPONENTS;
  }

  method LoadArchives(actions: seq<ReviewedAction>, archives: seq<Retained>, index: map<string, nat>)
    returns (ok: bool, replacements: map<string, Replacement>)
    requires forall id :: id in index <==> exists p :: 0 <= p < |actions| && actions[p].action == Unpack && actions[p].archive == id
    requires forall id :: id in index ==> UnpackedBy(actions, id, index[id])
    ensures ok <==> AllArchivesAdmitted(actions, archives) && |PathsOf(archives)| <= MAXIMUM_COMPONENTS
    ensures ok ==> ReplacementsAre(actions, archives, replacements)
  {
    hide PayloadValid, AllArchivesAdmitted, ReplacementsAre, UnpackedBy, ArchiveAdmitted, IdsOf, PathsOf;
    replacements := map[];
    var seen: set<string> := {};
    NoArchives(actions, archives);
    for n := 0 to |archives|
      invariant AllArchivesAdmitted(actions, archives[..n]) && ReplacementsAre(actions, archives[..n], replacements)
      invariant replacements.Keys == PathsOf(archives[..n]) && |replacements.Keys| <= MAXIMUM_COMPONENTS
      invariant seen == IdsOf(archives[..n])
    {
      var a := archives[n];
      AdmittedNext(actions, archives, n);
      PathsGrow(archives, n);
      PathsGrow(archives, n + 1);
      var after;
      ok := CheckArchive(actions, a, index);
      if !ok || a.identifier in seen {
        if AllArchivesAdmitted(actions, archives) { AdmittedPrefix(actions, archives, n + 1); }
        return false, replacements;
      }
      seen := seen + {a.identifier};
      ok, after := LoadArchive(a, index[a.identifier], replacements);
      if !ok {
        if AllArchivesAdmitted(actions, archives) { AdmittedPrefix(actions, archives, n + 1); }
        if |PathsOf(archives)| <= MAXIMUM_COMPONENTS { Smaller(PathsOf(archives[..n + 1]), PathsOf(archives)); }
        return false, replacements;
      }
      ReplacementsNext(actions, archives, n, index[a.identifier], replacements, after);
      replacements := after;
    }
    assert archives[..|archives|] == archives;
    ok := true;
  }

  lemma NoArchives(actions: seq<ReviewedAction>, archives: seq<Retained>)
    ensures AllArchivesAdmitted(actions, archives[..0]) && ReplacementsAre(actions, archives[..0], map[])
    ensures PathsOf(archives[..0]) == {} && IdsOf(archives[..0]) == {}
  {
  }

  // ---------------------------------------------------------------------------------------------
  // The ledger itself

  lemma BeginSound(actions: seq<ReviewedAction>, files: seq<Component>, archives: seq<Retained>,
                   replacements: map<string, Replacement>, l: Ledger)
    requires |files| > 0 && PathsDistinct(files) && ReplacementsAre(actions, archives, replacements)
    requires forall i :: 0 <= i < |files| ==> ComponentValid(files[i])
    requires l.initial == ByPath(files) && l.current == l.initial && l.replacements == replacements
    requires l.unpacks == UnpackIds(actions) && l.completed == {} && l.initialized
    ensures Sound(l)
  {
    hide ComponentValid, ByPath, PathsOf;
    ByPathExact(files);
    assert files[0].file.path in l.initial;
    forall p | p in l.replacements
      ensures l.replacements[p].action in l.unpacks
    {
      PathsExact(archives, p);
      var a :| 0 <= a < |archives| && p in archives[a].files;
      assert UnpackedBy(actions, archives[a].identifier, replacements[p].action);
    }
    forall p | p in l.initial
      ensures l.initial[p].file.path == p && ComponentValid(l.initial[p])
    {
      var i :| 0 <= i < |files| && files[i].file.path == p;
      assert l.initial[p] == files[i];
    }
  }

  lemma ByPathNext(files: seq<Component>, n: nat)
    requires n < |files|
    ensures ByPath(files[..n + 1]) == ByPath(files[..n])[files[n].file.path := files[n]]
  {
    assert files[..n + 1][..n] == files[..n];
  }

  lemma {:induction false} ByPathSize(files: seq<Component>)
    requires PathsDistinct(files)
    ensures |ByPath(files).Keys| == |files|
  {
    if |files| > 0 {
      var front, last := files[..|files| - 1], files[|files| - 1];
      ByPathSize(front);
      ByPathExact(front);
      assert ByPath(files).Keys == ByPath(front).Keys + {last.file.path};
    }
  }

  lemma RepeatedPath(files: seq<Component>, n: nat)
    requires n < |files| && PathsDistinct(files[..n]) && files[n].file.path in ByPath(files[..n])
    ensures !PathsDistinct(files)
  {
    ByPathExact(files[..n]);
    var i :| 0 <= i < n && files[..n][i].file.path == files[n].file.path;
    assert files[i].file.path == files[n].file.path;
  }

  lemma FreshPath(files: seq<Component>, n: nat)
    requires n < |files| && PathsDistinct(files[..n]) && files[n].file.path !in ByPath(files[..n])
    ensures PathsDistinct(files[..n + 1])
  {
    ByPathExact(files[..n]);
    var front, all := files[..n], files[..n + 1];
    assert all[n] == files[n] && forall i :: 0 <= i < n ==> all[i] == front[i];
    forall i | 0 <= i < n
      ensures front[i].file.path != files[n].file.path
    {
      assert front[i].file.path in ByPath(front);
    }
  }

  lemma BegunParts(actions: seq<ReviewedAction>, files: seq<Component>, archives: seq<Retained>)
    requires Beginnable(actions, files, archives)
    ensures |files| > 0 && PathsDistinct(files) && forall i :: 0 <= i < |files| ==> ComponentValid(files[i])
  {
  }

  lemma InactiveSound(l: Ledger)
    requires !l.active
    ensures Sound(l)
  {
  }

  lemma ByPathPush(files: seq<Component>, c: Component)
    requires PathsDistinct(files) && c.file.path !in ByPath(files)
    ensures PathsDistinct(files + [c]) && ByPath(files + [c]) == ByPath(files)[c.file.path := c]
  {
    hide PathsDistinct, ByPath;
    var all := files + [c];
    assert all[..|files|] == files;
    ByPathNext(all, |files|);
    FreshPath(all, |files|);
    assert all[..|files| + 1] == all;
  }

  lemma ByPathHolds(files: seq<Component>, n: nat)
    requires PathsDistinct(files) && n < |files|
    ensures files[n].file.path in ByPath(files) && ByPath(files)[files[n].file.path] == files[n]
  {
    ByPathExact(files);
  }

  /** A file of a listing that equals the current record is valid and recorded. */
  lemma CurrentHolds(l: Ledger, files: seq<Component>, n: nat)
    requires Sound(l) && l.active && n < |files| && PathsDistinct(files) && ByPath(files) == l.current
    ensures ComponentValid(files[n]) && files[n].file.path in l.current && l.current[files[n].file.path] == files[n]
  {
    hide ComponentValid, PathsDistinct, ByPath;
    ByPathHolds(files, n);
    assert RecordSound(l, files[n].file.path, l.current[files[n].file.path]);
  }

  lemma NoNodes(all: seq<Node>)
    ensures EdgeCount(all[..0]) == 0 && NodesByPath(all[..0]) == map[]
  {
  }

  lemma NodesNext(all: seq<Node>, n: nat)
    requires n < |all|
    ensures EdgeCount(all[..n + 1]) == EdgeCount(all[..n]) + |all[n].dependencies|
    ensures NodesByPath(all[..n + 1]) == NodesByPath(all[..n])[NodePath(all[n]) := all[n]]
  {
    assert all[..n + 1][..n] == all[..n];
  }

  lemma {:induction false} EdgesGrow(all: seq<Node>, n: nat)
    requires n <= |all|
    ensures EdgeCount(all[..n]) <= EdgeCount(all)
  {
    if n < |all| {
      EdgesGrow(all[..|all| - 1], n);
      assert all[..|all| - 1][..n] == all[..n];
    } else {
      assert all[..n] == all;
    }
  }

  /** What the worklist knows: everything seen is reachable, and everything expanded has its edges in hand. */
  ghost predicate Explored(l: Ledger, nodes: map<string, Node>, executable: string, reached: set<string>, pending: seq<string>) {
    && (forall x :: x in reached ==> x in nodes && Reachable(nodes, executable, x) && PlatformClear(l, nodes[x]))
    && (forall k :: 0 <= k < |pending| ==> Reachable(nodes, executable, pending[k]))
    && (executable in reached || executable in pending)
    && (forall x, y :: x in reached && Edge(nodes, x, y) ==> y in reached || y in pending)
  }

  function ComponentPaths(ds: seq<Dependency>): seq<string> {
    if |ds| == 0 then []
    else ComponentPaths(ds[..|ds| - 1]) + (if ds[|ds| - 1].kind == ComponentDependency then [ds[|ds| - 1].path] else [])
  }

  lemma {:induction false} ComponentPathsExact(ds: seq<Dependency>, y: string)
    ensures y in ComponentPaths(ds) <==> exists d :: 0 <= d < |ds| && ds[d] == Dependency(ComponentDependency, y)
  {
    if |ds| > 0 {
      var front := ds[..|ds| - 1];
      ComponentPathsExact(front, y);
      if y in ComponentPaths(front) {
        var d :| 0 <= d < |front| && front[d] == Dependency(ComponentDependency, y);
        assert ds[d] == front[d];
      }
      if d :| 0 <= d < |ds| && ds[d] == Dependency(ComponentDependency, y) {
        assert d < |front| ==> front[d] == ds[d];
      }
    }
  }

  lemma EdgesAre(nodes: map<string, Node>, x: string, y: string)
    requires x in nodes
    ensures Edge(nodes, x, y) <==> y in ComponentPaths(nodes[x].dependencies)
  {
    ComponentPathsExact(nodes[x].dependencies, y);
  }

  lemma ExploreStart(l: Ledger, nodes: map<string, Node>, executable: string)
    ensures Explored(l, nodes, executable, {}, [executable])
  {
    hide PlatformClear, Reachable, Edge;
    ReachableSelf(nodes, executable);
  }

  lemma ExploreSkip(l: Ledger, nodes: map<string, Node>, executable: string, reached: set<string>, pending: seq<string>)
    requires Explored(l, nodes, executable, reached, pending) && |pending| > 0 && pending[|pending| - 1] in reached
    ensures Explored(l, nodes, executable, reached, pending[..|pending| - 1])
  {
    hide PlatformClear, Reachable, Edge;
    assert pending == pending[..|pending| - 1] + [pending[|pending| - 1]];
  }

  lemma ExploreMissing(l: Ledger, nodes: map<string, Node>, executable: string, reached: set<string>, pending: seq<string>)
    requires Explored(l, nodes, executable, reached, pending) && |pending| > 0 && pending[|pending| - 1] !in nodes
    ensures !Closed(l, nodes, executable)
  {
    hide PlatformClear, Reachable, Edge;
  }

  lemma ClosedIsClear(l: Ledger, nodes: map<string, Node>, executable: string, x: string)
    requires x in nodes && !PlatformClear(l, nodes[x])
    ensures !Closed(l, nodes, executable)
  {
    hide PlatformClear, Reachable, Edge;
  }

  lemma ExploreNext(l: Ledger, nodes: map<string, Node>, executable: string, reached: set<string>, pending: seq<string>)
    requires Explored(l, nodes, executable, reached, pending) && |pending| > 0
    requires var path := pending[|pending| - 1]; path in nodes && PlatformClear(l, nodes[path])
    ensures var path := pending[|pending| - 1];
            Explored(l, nodes, executable, reached + {path}, pending[..|pending| - 1] + ComponentPaths(nodes[path].dependencies))
  {
    hide PlatformClear, Reachable, Edge, ComponentPaths;
    var path, rest := pending[|pending| - 1], pending[..|pending| - 1];
    var found := ComponentPaths(nodes[path].dependencies);
    assert pending == rest + [path];
    forall y
      ensures Edge(nodes, path, y) <==> y in found
    {
      EdgesAre(nodes, path, y);
    }
    forall k | 0 <= k < |found|
      ensures Reachable(nodes, executable, found[k])
    {
      assert found[k] in found;
      ReachableNext(nodes, executable, path, found[k]);
    }
  }

  /** With nothing pending, what was reached is everything reachable. */
  lemma ExploreDone(l: Ledger, nodes: map<string, Node>, executable: string, reached: set<string>)
    requires Explored(l, nodes, executable, reached, [])
    ensures Closed(l, nodes, executable) <==> reached == nodes.Keys
  {
    hide PlatformClear, Edge;
    forall x
      ensures Reachable(nodes, executable, x) <==> x in reached
    {
      if Reachable(nodes, executable, x) {
        var walk: seq<string> :| Walk(nodes, walk) && walk[0] == executable && walk[|walk| - 1] == x;
        ClosedSetHolds(nodes, reached, walk);
      }
    }
  }

  class Succession {
    var initial: map<string, Component>
    var current: map<string, Component>
    var replacements: map<string, Replacement>
    var unpacks: set<nat>
    var completed: set<nat>
    var configuration: string
    var platform: string
    var originReview: string
    var initialized: bool
    var active: bool

    function State(): Ledger
      reads this
    {
      Ledger(initial, current, replacements, unpacks, completed, configuration, platform, originReview, initialized, active)
    }

    constructor ()
      ensures Sound(State()) && !initialized && !active
    {
      initial, current, replacements, unpacks, completed := map[], map[], map[], {}, {};
      configuration, platform, originReview := "", "", "";
      initialized, active := false, false;
    }

    /** A ledger begins once; `accepted` is the review authorization's answer and `bytes` the encoded review. */
    method Begin(accepted: bool, bytes: Option<string>, actions: seq<ReviewedAction>, files: seq<Component>,
                 archives: seq<Retained>, native: string, system: string) returns (ok: bool)
      requires Sound(State()) && (active ==> initialized)
      modifies this
      ensures Sound(State()) && initialized && active == ok
      ensures ok <==>
              && !old(initialized) && accepted && bytes.Some? && |bytes.value| <= MAXIMUM_MESSAGE_BYTES
              && Digest(native) && Digest(system) && Beginnable(actions, files, archives)
      ensures ok ==>
              && initial == ByPath(files) && current == initial && completed == {} && unpacks == UnpackIds(actions)
              && ReplacementsAre(actions, archives, replacements)
              && configuration == native && platform == system && originReview == bytes.value
    {
      hide Sound, Beginnable, ReplacementsAre, Digest, UnpackIds, ByPath;
      if initialized {
        active := false;
        InactiveSound(State());
        return false;
      }
      initialized := true;
      InactiveSound(State());
      if !accepted || bytes.None? || |bytes.value| > MAXIMUM_MESSAGE_BYTES || !Digest(native) || !Digest(system) { return false; }
      ok := Load(actions, files, archives);
      InactiveSound(State());
      if !ok { return; }
      originReview, configuration, platform := bytes.value, native, system;
      completed, initial, active := {}, current, true;
      BegunParts(actions, files, archives);
      BeginSound(actions, files, archives, replacements, State());
    }

    /** The initial files, the unpacks and the approved replacements. */
    method Load(actions: seq<ReviewedAction>, files: seq<Component>, archives: seq<Retained>) returns (ok: bool)
      modifies `current, `unpacks, `replacements
      ensures ok <==> Beginnable(actions, files, archives)
      ensures ok ==> current == ByPath(files) && unpacks == UnpackIds(actions) && ReplacementsAre(actions, archives, replacements)
    {
      hide ComponentValid, AllArchivesAdmitted, ReplacementsAre, UnpackIds, PathsDistinct, UnpacksDistinct, ByPath, PathsOf;
      if |files| == 0 || |files| > MAXIMUM_COMPONENTS || |archives| > MAXIMUM_COMPONENTS { return false; }
      ok, current := LoadInitial(files);
      if !ok { return; }
      var index;
      ok, index, unpacks := IndexUnpacks(actions);
      if !ok { return; }
      ok, replacements := LoadArchives(actions, archives, index);
      Smaller(PathsOf(archives), ByPath(files).Keys + PathsOf(archives));
      if !ok { return; }
      ReplacedPaths(actions, archives, replacements);
      ok := |current.Keys + replacements.Keys| <= MAXIMUM_COMPONENTS;
    }

    /** Takes over exactly the files that newly completed unpacks explain, or gives up for good. */
    method Observe(done: set<nat>, files: seq<Component>) returns (ok: bool)
      requires Sound(State())
      modifies this
      ensures ok <==> Observable(old(State()), done, files)
      ensures State() == Observed(old(State()), done, files) && Sound(State())
    {
      hide Sound, ByPath, FileExplained, PathsDistinct;
      ghost var before := State();
      ObservedSound(before, done, files);
      if !active || |files| > MAXIMUM_COMPONENTS || !(completed <= done) || !(done <= unpacks) {
        active := false;
        return false;
      }
      var observed;
      ok, observed := ObserveFiles(done, files);
      if !ok {
        active := false;
        return;
      }
      var required := current.Keys + (set p | p in replacements && replacements[p].action in done);
      ObservedComplete(before, done, files, required);
      if |observed.Keys| != |required| {
        active := false;
        return false;
      }
      SameSize(observed.Keys, required);
      current, completed := observed, done;
    }

    method ObserveFiles(done: set<nat>, files: seq<Component>) returns (ok: bool, observed: map<string, Component>)
      ensures ok <==> (forall i :: 0 <= i < |files| ==> FileExplained(State(), done, files[i])) && PathsDistinct(files)
      ensures ok ==> observed == ByPath(files)
    {
      hide ByPath, FileExplained, PathsDistinct;
      observed := map[];
      NothingObserved(files);
      for n := 0 to |files|
        invariant forall i :: 0 <= i < n ==> FileExplained(State(), done, files[i])
        invariant PathsDistinct(files[..n]) && observed == ByPath(files[..n])
      {
        ByPathNext(files, n);
        var explained := Explain(done, files[n]);
        if !explained { return false, observed; }
        if files[n].file.path in observed {
          RepeatedPath(files, n);
          return false, observed;
        }
        FreshPath(files, n);
        observed := observed[files[n].file.path := files[n]];
      }
      assert files[..|files|] == files;
      ok := true;
    }

    method Explain(done: set<nat>, c: Component) returns (ok: bool)
      ensures ok <==> FileExplained(State(), done, c)
    {
      hide ComponentValid;
      var path := c.file.path;
      var newly := path in replacements && replacements[path].action in done && replacements[path].action !in completed;
      if !ComponentValid(c) || !(path in current || (path in replacements && replacements[path].action in done)) { return false; }
      if path in current && current[path].parents != c.parents { return false; }
      if newly { return c.file == replacements[path].file; }
      ok := path in current && current[path] == c;
    }

    /** The exact initial files, for the very review and policy the ledger began with. */
    method AuthorizeOrigin(bytes: Option<string>, native: string, system: string) returns (ok: bool, files: seq<Component>)
      requires Sound(State())
      ensures ok <==> active && native == configuration && system == platform && bytes.Some?
                      && |bytes.value| <= MAXIMUM_MESSAGE_BYTES && bytes.value == originReview
      ensures ok ==> PathsDistinct(files) && ByPath(files) == initial
    {
      hide ComponentValid, PathsDistinct, ByPath;
      files := [];
      if !active || initial == map[] || native != configuration || system != platform || bytes.None?
         || |bytes.value| > MAXIMUM_MESSAGE_BYTES || bytes.value != originReview { return false, files; }
      var rest := initial.Keys;
      NothingObserved(files);
      assert files[..0] == files;
      while rest != {}
        invariant rest <= initial.Keys && PathsDistinct(files)
        invariant ByPath(files).Keys == initial.Keys - rest
        invariant forall p :: p in ByPath(files) ==> ByPath(files)[p] == initial[p]
      {
        var p :| p in rest;
        ByPathPush(files, initial[p]);
        rest := rest - {p};
        files := files + [initial[p]];
      }
      assert ByPath(files) == initial;
      ok := true;
    }

    /** A current set must cover the whole ledger, record by record. */
    method AuthorizeComponents(files: seq<Component>) returns (ok: bool)
      requires Sound(State())
      ensures ok <==> active && PathsDistinct(files) && ByPath(files) == current
    {
      hide ComponentValid, PathsDistinct, ByPath;
      if !active || |files| != |current| {
        if PathsDistinct(files) { ByPathSize(files); }
        return false;
      }
      var seen: set<string> := {};
      NothingObserved(files);
      for n := 0 to |files|
        invariant PathsDistinct(files[..n]) && seen == ByPath(files[..n]).Keys
        invariant seen <= current.Keys && forall p :: p in seen ==> ByPath(files[..n])[p] == current[p]
      {
        var c := files[n];
        var path := c.file.path;
        ByPathNext(files, n);
        if path in seen {
          RepeatedPath(files, n);
          return false;
        }
        if !ComponentValid(c) || path !in current || current[path] != c {
          if PathsDistinct(files) && ByPath(files) == current {
            CurrentHolds(State(), files, n);
          }
          return false;
        }
        FreshPath(files, n);
        seen := seen + {path};
      }
      assert files[..|files|] == files;
      ByPathSize(files);
      SameSize(ByPath(files).Keys, current.Keys);
      ok := true;
    }

    /** Launches only a closure that is exactly what the executable reaches, all of it current. */
    method AuthorizeLaunch(proof: Closure) returns (ok: bool)
      ensures ok <==> Launchable(State(), proof)
    {
      hide Path, NodesCurrent, Closed, NodesByPath, Executable;
      if !Bound(State(), proof) { return false; }
      var nodes;
      ok, nodes := IndexNodes(proof.nodes);
      if !ok { return; }
      if proof.executable !in nodes || !Executable(nodes[proof.executable].file.file) { return false; }
      ok := CheckClosure(nodes, proof.executable);
    }

    method IndexNodes(all: seq<Node>) returns (ok: bool, nodes: map<string, Node>)
      ensures ok <==> NodesCurrent(State(), all)
      ensures ok ==> nodes == NodesByPath(all)
    {
      hide NodeCurrent, EdgeCount, NodesByPath;
      nodes := map[];
      var edges := 0;
      NoNodes(all);
      for n := 0 to |all|
        invariant forall k :: 0 <= k < n ==> NodeCurrent(State(), all[k])
        invariant forall j, k :: 0 <= j < k < n ==> NodePath(all[j]) != NodePath(all[k])
        invariant edges == EdgeCount(all[..n]) <= MAXIMUM_DEPENDENCIES && nodes == NodesByPath(all[..n])
        invariant forall p :: p in nodes <==> exists k :: 0 <= k < n && NodePath(all[k]) == p
      {
        NodesNext(all, n);
        EdgesGrow(all, n + 1);
        var current := CheckNode(all[n]);
        if !current || NodePath(all[n]) in nodes || |all[n].dependencies| > MAXIMUM_DEPENDENCIES - edges { return false, nodes; }
        edges := edges + |all[n].dependencies|;
        nodes := nodes[NodePath(all[n]) := all[n]];
      }
      assert all[..|all|] == all;
      ok := true;
    }

    method CheckNode(n: Node) returns (ok: bool)
      ensures ok <==> NodeCurrent(State(), n)
    {
      hide Path;
      if NodePath(n) !in current || current[NodePath(n)] != n.file { return false; }
      for d := 0 to |n.dependencies|
        invariant forall e :: 0 <= e < d ==> Path(n.dependencies[e].path)
      {
        if !Path(n.dependencies[d].path) { return false; }
      }
      ok := true;
    }

    /** A worklist over Component edges; it terminates on cycles because a path is expanded once. */
    method CheckClosure(nodes: map<string, Node>, executable: string) returns (ok: bool)
      requires executable in nodes
      ensures ok <==> Closed(State(), nodes, executable)
    {
      hide PlatformClear, Reachable, Explored, Closed, ComponentPaths;
      var reached: set<string>, pending := {}, [executable];
      ExploreStart(State(), nodes, executable);
      while |pending| > 0
        invariant reached <= nodes.Keys && Explored(State(), nodes, executable, reached, pending)
        decreases nodes.Keys - reached, |pending|
      {
        var path, rest := pending[|pending| - 1], pending[..|pending| - 1];
        if path in reached {
          ExploreSkip(State(), nodes, executable, reached, pending);
          pending := rest;
          continue;
        }
        if path !in nodes {
          ExploreMissing(State(), nodes, executable, reached, pending);
          return false;
        }
        var next;
        ok, next := Expand(nodes[path], rest);
        if !ok {
          ClosedIsClear(State(), nodes, executable, path);
          return;
        }
        ExploreNext(State(), nodes, executable, reached, pending);
        reached, pending := reached + {path}, next;
      }
      ExploreDone(State(), nodes, executable, reached);
      if reached != nodes.Keys { Smaller(reached, nodes.Keys); }
      if |reached| == |nodes.Keys| { SameSize(reached, nodes.Keys); }
      ok := |reached| == |nodes.Keys|;
    }

    /** Queues the components the node loads; a component must never pass for part of the platform. */
    method Expand(node: Node, pending: seq<string>) returns (ok: bool, next: seq<string>)
      ensures ok <==> PlatformClear(State(), node)
      ensures ok ==> next == pending + ComponentPaths(node.dependencies)
    {
      next := pending;
      assert node.dependencies[..0] == [];
      for d := 0 to |node.dependencies|
        invariant next == pending + ComponentPaths(node.dependencies[..d])
        invariant forall e :: 0 <= e < d && node.dependencies[e].kind == PlatformDependency ==>
                    node.dependencies[e].path !in current && node.dependencies[e].path !in replacements
      {
        assert node.dependencies[..d + 1][..d] == node.dependencies[..d];
        if node.dependencies[d].kind == ComponentDependency {
          next := next + [node.dependencies[d].path];
        } else if node.dependencies[d].path in current || node.dependencies[d].path in replacements {
          return false, next;
        }
      }
      assert node.dependencies[..|node.dependencies|] == node.dependencies;
      ok := true;
    }

    method Invalidate()
      requires Sound(State())
      modifies `active
      ensures !active && Sound(State())
    {
      active := false;
    }
  }

  lemma ReplacedPaths(actions: seq<ReviewedAction>, archives: seq<Retained>, replacements: map<string, Replacement>)
    requires ReplacementsAre(actions, archives, replacements)
    ensures replacements.Keys == PathsOf(archives)
  {
  }

  lemma NothingObserved(files: seq<Component>)
    ensures PathsDistinct(files[..0]) && ByPath(files[..0]) == map[]
  {
  }

  /** Explained files are an observation exactly when no required path is missing. */
  lemma ObservedComplete(l: Ledger, completed: set<nat>, files: seq<Component>, required: set<string>)
    requires l.active && |files| <= MAXIMUM_COMPONENTS && l.completed <= completed <= l.unpacks
    requires PathsDistinct(files) && forall i :: 0 <= i < |files| ==> FileExplained(l, completed, files[i])
    requires required == l.current.Keys + (set p | p in l.replacements && l.replacements[p].action in completed)
    ensures Observable(l, completed, files) <==> ByPath(files).Keys == required
    ensures ByPath(files).Keys <= required
  {
    hide ByPath, FileExplained, PathsDistinct;
    ObservedKeys(l, completed, files);
    assert forall p :: p in required <==> Required(l, completed, p);
  }

  lemma ObservedKeys(l: Ledger, completed: set<nat>, files: seq<Component>)
    requires PathsDistinct(files) && forall i :: 0 <= i < |files| ==> FileExplained(l, completed, files[i])
    ensures forall p :: p in ByPath(files) ==> Required(l, completed, p)
    ensures forall p :: p in ByPath(files) <==> exists i :: 0 <= i < |files| && files[i].file.path == p
  {
    hide ComponentValid;
    ByPathExact(files);
  }
}
