/**
 * What the ledger of components accepts, read off the files themselves: permissions digit by digit,
 * paths, digests and limits, apart from the ledger's own checks.
 */
module ComponentMeaning {
  import opened Text
  import opened Characters
  import opened Packages
  import opened Reviews
  import opened PathMeaning
  import opened ComponentSuccession
  import AdmissionMeaning

  // ---------------------------------------------------------------------------------------------
  // Files

  ghost predicate Located(s: string) {
    |s| <= 4096 && exists names :: names != [] && Entries(names) && Slashed(names) == s
  }

  /** The mode has these four octal digits: special bits, owner, group, others. */
  ghost predicate Octal(mode: nat, special: nat, owner: nat, group: nat, others: nat) {
    special <= 7 && owner <= 7 && group <= 7 && others <= 7 && mode == 512 * special + 64 * owner + 8 * group + others
  }

  /** Some digit of the mode has the lowest bit. */
  ghost predicate Runs(mode: nat) {
    exists special, owner, group, others :: Octal(mode, special, owner, group, others)
      && (owner in {1, 3, 5, 7} || group in {1, 3, 5, 7} || others in {1, 3, 5, 7})
  }

  /** The digits of group and others lack the middle bit. */
  ghost predicate Guarded(mode: nat) {
    exists special, owner, group, others :: Octal(mode, special, owner, group, others)
      && group in {0, 1, 4, 5} && others in {0, 1, 4, 5}
  }

  lemma OctalBits(mode: nat, special: nat, owner: nat, group: nat, others: nat)
    requires Octal(mode, special, owner, group, others)
    ensures Bit(mode, 1) <==> others in {1, 3, 5, 7}
    ensures Bit(mode, 2) <==> others in {2, 3, 6, 7}
    ensures Bit(mode, 8) <==> group in {1, 3, 5, 7}
    ensures Bit(mode, 16) <==> group in {2, 3, 6, 7}
    ensures Bit(mode, 64) <==> owner in {1, 3, 5, 7}
  {
    hide Bit;
    DigitBits(mode, 64 * special + 8 * owner + group, others);
    DigitBits(mode / 8, 8 * special + owner, group);
    DigitBits(mode / 64, special, owner);
    BitsShift(mode);
  }

  /** The lowest digit decides about the three lowest bits. */
  lemma DigitBits(mode: nat, rest: nat, digit: nat)
    requires digit <= 7 && mode == 8 * rest + digit
    ensures Bit(mode, 1) <==> digit in {1, 3, 5, 7}
    ensures Bit(mode, 2) <==> digit in {2, 3, 6, 7}
  {
  }

  lemma BitsShift(mode: nat)
    ensures Bit(mode, 8) <==> Bit(mode / 8, 1)
    ensures Bit(mode, 16) <==> Bit(mode / 8, 2)
    ensures Bit(mode, 64) <==> Bit(mode / 64, 1)
  {
  }

  lemma OctalDigits(mode: nat) returns (special: nat, owner: nat, group: nat, others: nat)
    requires mode <= 0xFFF
    ensures Octal(mode, special, owner, group, others)
  {
    special, owner, group, others := mode / 512, mode / 64 % 8, mode / 8 % 8, mode % 8;
    assert mode == 8 * (mode / 8) + others;
    assert mode / 8 == 8 * (mode / 64) + group;
    assert mode / 64 == 8 * (mode / 512) + owner;
  }

  lemma OctalOnce(mode: nat, s: nat, u: nat, g: nat, o: nat, s': nat, u': nat, g': nat, o': nat)
    requires Octal(mode, s, u, g, o) && Octal(mode, s', u', g', o')
    ensures s == s' && u == u' && g == g' && o == o'
  {
  }

  /** A payload is executable exactly when one of its permission digits is odd. */
  lemma ExecutableMeans(p: Payload)
    requires p.mode <= 0xFFF
    ensures Executable(p) <==> Runs(p.mode)
  {
    hide Bit;
    var s, u, g, o := OctalDigits(p.mode);
    OctalBits(p.mode, s, u, g, o);
    if s', u', g', o' :| Octal(p.mode, s', u', g', o') && (u' in {1, 3, 5, 7} || g' in {1, 3, 5, 7} || o' in {1, 3, 5, 7}) {
      OctalOnce(p.mode, s, u, g, o, s', u', g', o');
    }
  }

  lemma GuardedMeans(mode: nat)
    requires mode <= 0xFFF
    ensures !Bit(mode, 2) && !Bit(mode, 16) <==> Guarded(mode)
  {
    hide Bit;
    var s, u, g, o := OctalDigits(mode);
    OctalBits(mode, s, u, g, o);
    if s', u', g', o' :| Octal(mode, s', u', g', o') && g' in {0, 1, 4, 5} && o' in {0, 1, 4, 5} {
      OctalOnce(mode, s, u, g, o, s', u', g', o');
    }
  }

  lemma OctalWithin(mode: nat)
    requires Guarded(mode)
    ensures mode <= 0xFFF
  {
  }

  /** Owned by root, not writable by others, at most 4 GiB. */
  ghost predicate Trusted(p: Payload) {
    Located(p.path) && Hexadecimal(p.sha256) && Guarded(p.mode) && p.uid == 0 && p.size <= 4294967296
  }

  /** A regular file under one name only, with a known chain of parents. */
  ghost predicate Sole(c: Component) {
    Trusted(c.file) && c.kind.Regular? && c.inode > 0 && c.links == 1 && Hexadecimal(c.parents)
  }

  lemma LocatedMeans(s: string)
    ensures Path(s) <==> Located(s)
  {
    hide AbsolutePath, Entries;
    PathMeans(s);
    RootHasNoEntry();
    if names :| names != [] && Entries(names) && Slashed(names) == s {
      assert |s| >= 2 by { SlashedLong(names); }
    }
  }

  lemma SlashedLong(names: seq<string>)
    requires names != [] && Entries(names)
    ensures |Slashed(names)| >= 2
  {
    assert Entry(names[0]);
  }

  lemma RootHasNoEntry()
    ensures !Path("/")
  {
  }

  lemma TrustedMeans(p: Payload)
    ensures PayloadValid(p) <==> Trusted(p)
  {
    hide Path, Located, Bit, Guarded, Digest;
    LocatedMeans(p.path);
    AdmissionMeaning.DigestMeans(p.sha256);
    if Guarded(p.mode) { OctalWithin(p.mode); }
    if p.mode <= 0xFFF { GuardedMeans(p.mode); }
  }

  lemma SoleMeans(c: Component)
    ensures ComponentValid(c) <==> Sole(c)
  {
    hide PayloadValid, Trusted, Digest;
    TrustedMeans(c.file);
    AdmissionMeaning.DigestMeans(c.parents);
  }

  // ---------------------------------------------------------------------------------------------
  // Observations

  /** The unpack that brings the path's successor is among these. */
  ghost predicate Succeeded(l: Ledger, done: set<nat>, path: string) {
    path in l.replacements && l.replacements[path].action in done
  }

  /** The file is the approved successor when its unpack just finished, and unchanged otherwise; its parents stay. */
  ghost predicate Accounted(l: Ledger, done: set<nat>, c: Component) {
    var path := c.file.path;
    && Sole(c)
    && (if Succeeded(l, done, path) && l.replacements[path].action !in l.completed then
          && c.file == l.replacements[path].file
          && (path in l.current ==> c.parents == l.current[path].parents)
        else path in l.current && c == l.current[path])
  }

  /** An observation is explained exactly when it shows each recorded and each succeeded path once, all accounted for. */
  lemma ObservationMeans(l: Ledger, done: set<nat>, files: seq<Component>)
    ensures Observable(l, done, files) <==>
            && l.active && |files| <= 512 && l.completed <= done && done <= l.unpacks
            && (forall c :: c in files ==> Accounted(l, done, c))
            && (forall i, j :: 0 <= i < j < |files| ==> files[i].file.path != files[j].file.path)
            && (forall p :: p in l.current || Succeeded(l, done, p) ==> exists c :: c in files && c.file.path == p)
  {
    hide ComponentValid, Sole;
    forall c
      ensures FileExplained(l, done, c) <==> Accounted(l, done, c)
    {
      SoleMeans(c);
    }
    hide FileExplained, Accounted;
    if forall c :: c in files ==> Accounted(l, done, c) {
      forall i | 0 <= i < |files|
        ensures FileExplained(l, done, files[i])
      {
        assert files[i] in files;
      }
    }
    forall p
      ensures Required(l, done, p) <==> p in l.current || Succeeded(l, done, p)
      ensures (exists i :: 0 <= i < |files| && files[i].file.path == p) <==> exists c :: c in files && c.file.path == p
    {
      if c :| c in files && c.file.path == p {
        var i :| 0 <= i < |files| && files[i] == c;
      }
    }
  }

  // ---------------------------------------------------------------------------------------------
  // Launching

  /** The node for `x` loads the component at `y`. */
  ghost predicate Loads(all: seq<Node>, x: string, y: string) {
    exists n, d :: n in all && n.file.file.path == x && d in n.dependencies && d.kind.ComponentDependency? && d.path == y
  }

  /** A chain of loads leads from one path to the other. */
  ghost predicate Chain(all: seq<Node>, chain: seq<string>, from: string, to: string) {
    && |chain| > 0 && chain[0] == from && chain[|chain| - 1] == to
    && forall k :: 0 <= k < |chain| - 1 ==> Loads(all, chain[k], chain[k + 1])
  }

  /** Loaded by the executable, directly or not; the executable itself is. */
  ghost predicate Loaded(all: seq<Node>, executable: string, x: string) {
    exists chain :: Chain(all, chain, executable, x)
  }

  ghost predicate Listed(all: seq<Node>, x: string) {
    exists n :: n in all && n.file.file.path == x
  }

  /** Every node is the recorded file, loads absolute paths, and takes no known component for part of the platform. */
  ghost predicate NodeStands(l: Ledger, n: Node) {
    && n.file.file.path in l.current && l.current[n.file.file.path] == n.file
    && forall d :: d in n.dependencies ==>
         && Located(d.path)
         && (d.kind.PlatformDependency? ==> d.path !in l.current && d.path !in l.replacements)
  }

  /**
   * A launch is authorized exactly for the recorded configuration and platform, when the executable
   * may be run and the nodes are the recorded files it loads, directly or not, and no others.
   */
  ghost predicate LaunchStands(l: Ledger, proof: Closure) {
    && l.active && proof.configuration == l.configuration && proof.platform == l.platform && Located(proof.executable)
    && 1 <= |proof.nodes| <= 512 && EdgeCount(proof.nodes) <= 4096
    && (forall m, n :: 0 <= m < n < |proof.nodes| ==> proof.nodes[m].file.file.path != proof.nodes[n].file.file.path)
    && (forall n :: n in proof.nodes ==> NodeStands(l, n))
    && (exists n :: n in proof.nodes && n.file.file.path == proof.executable && Runs(n.file.file.mode))
    && (forall x :: Loaded(proof.nodes, proof.executable, x) <==> Listed(proof.nodes, x))
  }

  lemma {:induction false} NodesFound(all: seq<Node>)
    requires forall m, n :: 0 <= m < n < |all| ==> NodePath(all[m]) != NodePath(all[n])
    ensures forall n :: n in all ==> NodePath(n) in NodesByPath(all) && NodesByPath(all)[NodePath(n)] == n
    ensures forall x :: x in NodesByPath(all) ==> NodesByPath(all)[x] in all && NodePath(NodesByPath(all)[x]) == x
  {
    hide NodePath;
    if |all| > 0 {
      var front, last := all[..|all| - 1], all[|all| - 1];
      NodesFound(front);
      assert all == front + [last];
      forall n | n in front
        ensures NodePath(n) != NodePath(last)
      {
        var m :| 0 <= m < |front| && front[m] == n;
        assert all[m] == n;
      }
    }
  }

  lemma EdgeMeans(all: seq<Node>, x: string, y: string)
    requires forall m, n :: 0 <= m < n < |all| ==> NodePath(all[m]) != NodePath(all[n])
    ensures Edge(NodesByPath(all), x, y) <==> Loads(all, x, y)
  {
    hide NodesByPath;
    NodesFound(all);
    var nodes := NodesByPath(all);
    if Edge(nodes, x, y) {
      assert nodes[x] in all && NodePath(nodes[x]) == x;
      assert Dependency(ComponentDependency, y) in nodes[x].dependencies;
    }
    if n, d :| n in all && n.file.file.path == x && d in n.dependencies && d.kind.ComponentDependency? && d.path == y {
      assert NodePath(n) == x && nodes[x] == n;
      assert d == Dependency(ComponentDependency, y);
    }
  }

  lemma ChainMeans(all: seq<Node>, from: string, to: string)
    requires forall m, n :: 0 <= m < n < |all| ==> NodePath(all[m]) != NodePath(all[n])
    ensures Reachable(NodesByPath(all), from, to) <==> exists chain :: Chain(all, chain, from, to)
  {
    hide NodesByPath, Edge, Loads, NodePath;
    var nodes := NodesByPath(all);
    forall x, y
      ensures Edge(nodes, x, y) <==> Loads(all, x, y)
    {
      EdgeMeans(all, x, y);
    }
    if walk: seq<string> :| Walk(nodes, walk) && walk[0] == from && walk[|walk| - 1] == to {
      assert Chain(all, walk, from, to);
    }
    if chain :| Chain(all, chain, from, to) {
      assert Walk(nodes, chain);
    }
  }

  lemma NodeMeans(l: Ledger, n: Node)
    ensures NodeCurrent(l, n) && PlatformClear(l, n) <==> NodeStands(l, n)
  {
    hide Path, Located;
    forall d | d in n.dependencies
      ensures Path(d.path) <==> Located(d.path)
    {
      LocatedMeans(d.path);
    }
    if NodeStands(l, n) {
      forall d | 0 <= d < |n.dependencies|
        ensures Path(n.dependencies[d].path)
        ensures n.dependencies[d].kind == PlatformDependency ==>
                  n.dependencies[d].path !in l.current && n.dependencies[d].path !in l.replacements
      {
        assert n.dependencies[d] in n.dependencies;
      }
    }
  }

  lemma NodesMean(l: Ledger, all: seq<Node>)
    requires forall m, n :: 0 <= m < n < |all| ==> NodePath(all[m]) != NodePath(all[n])
    ensures (forall n :: 0 <= n < |all| ==> NodeCurrent(l, all[n])) && (forall x :: x in NodesByPath(all) ==> PlatformClear(l, NodesByPath(all)[x])) <==>
            forall n :: n in all ==> NodeStands(l, n)
  {
    hide NodeCurrent, PlatformClear, NodeStands, NodesByPath, NodePath;
    NodesFound(all);
    var nodes := NodesByPath(all);
    forall n
      ensures NodeCurrent(l, n) && PlatformClear(l, n) <==> NodeStands(l, n)
    {
      NodeMeans(l, n);
    }
    if (forall n :: 0 <= n < |all| ==> NodeCurrent(l, all[n])) && (forall x :: x in nodes ==> PlatformClear(l, nodes[x])) {
      forall n | n in all
        ensures NodeStands(l, n)
      {
        var k :| 0 <= k < |all| && all[k] == n;
        assert NodeCurrent(l, all[k]);
        assert nodes[NodePath(n)] == n;
      }
    }
    if forall n :: n in all ==> NodeStands(l, n) {
      forall n | 0 <= n < |all|
        ensures NodeCurrent(l, all[n])
      {
        assert all[n] in all;
      }
      forall x | x in nodes
        ensures PlatformClear(l, nodes[x])
      {
        assert nodes[x] in all && NodeStands(l, nodes[x]);
      }
    }
  }

  lemma CurrentMode(l: Ledger, p: string)
    requires Sound(l) && l.active && p in l.current
    ensures l.current[p].file.mode <= 0xFFF && l.current[p].file.path == p
  {
    hide Path, Bit, Digest;
    assert RecordSound(l, p, l.current[p]);
  }

  lemma StartMeans(l: Ledger, proof: Closure)
    requires Sound(l) && l.active && (forall n :: n in proof.nodes ==> NodeStands(l, n))
    requires forall m, n :: 0 <= m < n < |proof.nodes| ==> NodePath(proof.nodes[m]) != NodePath(proof.nodes[n])
    ensures var nodes := NodesByPath(proof.nodes);
            proof.executable in nodes && Executable(nodes[proof.executable].file.file) <==>
            exists n :: n in proof.nodes && n.file.file.path == proof.executable && Runs(n.file.file.mode)
  {
    hide Sound, NodesByPath, Executable, Runs;
    NodesFound(proof.nodes);
    forall n | n in proof.nodes
      ensures Executable(n.file.file) <==> Runs(n.file.file.mode)
    {
      CurrentMode(l, n.file.file.path);
      ExecutableMeans(n.file.file);
    }
  }

  lemma ClosureMeans(nodes: map<string, Node>, all: seq<Node>, executable: string)
    requires forall m, n :: 0 <= m < n < |all| ==> NodePath(all[m]) != NodePath(all[n])
    requires nodes == NodesByPath(all)
    ensures (forall x :: x in nodes <==> Reachable(nodes, executable, x)) <==>
            forall x :: Loaded(all, executable, x) <==> Listed(all, x)
  {
    hide NodesByPath, Reachable, Chain;
    NodesFound(all);
    forall x
      ensures Reachable(nodes, executable, x) <==> Loaded(all, executable, x)
      ensures x in nodes <==> Listed(all, x)
    {
      ChainMeans(all, executable, x);
    }
  }

  lemma LaunchMeans(l: Ledger, proof: Closure)
    requires Sound(l)
    ensures Launchable(l, proof) <==> LaunchStands(l, proof)
  {
    hide Sound, Path, Located, EdgeCount, NodesByPath, NodeCurrent, NodeStands, PlatformClear, Reachable, Loaded, Listed, Executable, Runs;
    LocatedMeans(proof.executable);
    var all, nodes := proof.nodes, NodesByPath(proof.nodes);
    if l.active && forall m, n :: 0 <= m < n < |all| ==> NodePath(all[m]) != NodePath(all[n]) {
      NodesMean(l, all);
      ClosureMeans(nodes, all, proof.executable);
      if forall n :: n in all ==> NodeStands(l, n) { StartMeans(l, proof); }
    }
  }

  // ---------------------------------------------------------------------------------------------
  // The beginning

  /** The archive is verified, unpacked by the review, and lists trusted files under their own paths. */
  ghost predicate ArchiveStands(actions: seq<ReviewedAction>, a: Retained) {
    && a.verified && 1 <= |a.files| <= 512
    && (exists x :: x in actions && x.action.Unpack? && x.archive == a.identifier)
    && forall f :: f in a.files ==> a.files[f].path == f && Trusted(a.files[f])
  }

  /** A ledger can begin exactly with trusted files, archives unpacked once and told apart, and at most 512 paths. */
  lemma BeginningMeans(actions: seq<ReviewedAction>, files: seq<Component>, archives: seq<Retained>)
    ensures Beginnable(actions, files, archives) <==>
            && 1 <= |files| <= 512 && |archives| <= 512
            && (forall c :: c in files ==> Sole(c))
            && (forall i, j :: 0 <= i < j < |files| ==> files[i].file.path != files[j].file.path)
            && (forall p, q :: 0 <= p < q < |actions| && actions[p].action.Unpack? && actions[q].action.Unpack? ==>
                  actions[p].archive != actions[q].archive)
            && (forall a :: a in archives ==> ArchiveStands(actions, a))
            && Separate(archives)
            && |ByPath(files).Keys + PathsOf(archives)| <= 512
  {
    hide ComponentValid, Sole, AllArchivesAdmitted, ArchiveStands, ByPath, PathsOf, Separate;
    forall c
      ensures ComponentValid(c) <==> Sole(c)
    {
      SoleMeans(c);
    }
    if forall c :: c in files ==> Sole(c) {
      forall i | 0 <= i < |files|
        ensures ComponentValid(files[i])
      {
        assert files[i] in files;
      }
    }
    ArchivesMean(actions, archives);
  }

  lemma ArchiveMeans(actions: seq<ReviewedAction>, a: Retained)
    ensures ArchiveAdmitted(actions, a) <==> ArchiveStands(actions, a)
  {
    hide PayloadValid, Trusted;
    forall p
      ensures PayloadValid(p) <==> Trusted(p)
    {
      TrustedMeans(p);
    }
    if x :| x in actions && x.action.Unpack? && x.archive == a.identifier {
      var p :| 0 <= p < |actions| && actions[p] == x;
    }
  }

  lemma {:induction false} IdentifiersMean(archives: seq<Retained>, id: string)
    ensures id !in IdsOf(archives) <==> forall a :: 0 <= a < |archives| ==> archives[a].identifier != id
  {
    if |archives| > 0 { IdentifiersMean(archives[..|archives| - 1], id); }
  }

  lemma {:induction false} PathsMean(archives: seq<Retained>, paths: set<string>)
    ensures paths !! PathsOf(archives) <==> forall a :: 0 <= a < |archives| ==> archives[a].files.Keys !! paths
  {
    if |archives| > 0 { PathsMean(archives[..|archives| - 1], paths); }
  }

  /** Neither an identifier nor a path is shared. */
  ghost predicate Separate(archives: seq<Retained>) {
    forall a, b :: 0 <= a < b < |archives| ==>
      archives[a].identifier != archives[b].identifier && archives[a].files.Keys !! archives[b].files.Keys
  }

  lemma SeparateNext(front: seq<Retained>, last: Retained)
    ensures Separate(front + [last]) <==>
            Separate(front) && forall a :: 0 <= a < |front| ==> front[a].identifier != last.identifier && front[a].files.Keys !! last.files.Keys
  {
    var all := front + [last];
    assert all[|front|] == last && forall a :: 0 <= a < |front| ==> all[a] == front[a];
    if Separate(all) {
      forall a | 0 <= a < |front|
        ensures front[a].identifier != last.identifier && front[a].files.Keys !! last.files.Keys
      {
        assert all[a].identifier != all[|front|].identifier && all[a].files.Keys !! all[|front|].files.Keys;
      }
      forall a, b | 0 <= a < b < |front|
        ensures front[a].identifier != front[b].identifier && front[a].files.Keys !! front[b].files.Keys
      {
        assert all[a].identifier != all[b].identifier && all[a].files.Keys !! all[b].files.Keys;
      }
    }
  }

  lemma {:induction false} ArchivesMean(actions: seq<ReviewedAction>, archives: seq<Retained>)
    ensures AllArchivesAdmitted(actions, archives) <==>
            (forall a :: a in archives ==> ArchiveStands(actions, a)) && Separate(archives)
  {
    hide ArchiveAdmitted, ArchiveStands, IdsOf, PathsOf, Separate;
    if |archives| > 0 {
      var front, last := archives[..|archives| - 1], archives[|archives| - 1];
      ArchivesMean(actions, front);
      ArchiveMeans(actions, last);
      assert archives == front + [last];
      IdentifiersMean(front, last.identifier);
      PathsMean(front, last.files.Keys);
      SeparateNext(front, last);
    } else {
      NoneApart();
    }
  }

  lemma NoneApart()
    ensures Separate([])
  {
  }

  /** The limits of the ledger: 512 components and files, 4096 edges, reviews of 32 MiB, files of 4 GiB. */
  lemma LimitsMean()
    ensures MAXIMUM_COMPONENTS == 512 && MAXIMUM_DEPENDENCIES == 4096
    ensures MAXIMUM_MESSAGE_BYTES == 33554432 && MAXIMUM_STREAM_BYTES == 4294967296
  {
  }
}
