/**
 * When inputs have a preimage, which bytes it is, and how the records answer: shapes, limits, rows
 * and cases written out apart from the code.
 */
module InputMeaning {
  import opened Text
  import opened Characters
  import opened ByteOrder
  import opened Reviews
  import opened Netstrings
  import opened EffectSettings
  import opened EffectRecords
  import opened EffectInputs
  import opened EffectPreimage
  import opened EffectMatching
  import opened EncodingMeaning
  import AdmissionMeaning

  // ---------------------------------------------------------------------------------------------
  // The shape of an input

  /** The paths with a colon between each two. */
  ghost function Joined(paths: seq<string>): string
    requires paths != []
  {
    if |paths| == 1 then paths[0] else paths[0] + ":" + Joined(paths[1..])
  }

  /** Absolute paths without a colon in them. */
  ghost predicate Steps(paths: seq<string>) {
    forall k :: 0 <= k < |paths| ==> AbsolutePath(paths[k]) && ':' !in paths[k]
  }

  ghost predicate Searchable(s: string) {
    exists paths :: paths != [] && Steps(paths) && Joined(paths) == s
  }

  lemma {:induction false} SearchSplits(s: string) returns (paths: seq<string>)
    requires SearchParts(s)
    ensures paths != [] && Steps(paths) && Joined(paths) == s
    decreases |s|
  {
    hide AbsolutePath;
    var end := Find(s, ':');
    FindFirst(s, ':');
    paths := [s[..end]];
    if end < |s| {
      var rest := SearchSplits(s[end + 1..]);
      assert s == s[..end] + ":" + s[end + 1..];
      paths := paths + rest;
      assert paths[1..] == rest;
    }
  }

  lemma {:induction false} JoinedParts(paths: seq<string>)
    requires paths != [] && Steps(paths)
    ensures SearchParts(Joined(paths))
  {
    var s, first := Joined(paths), paths[0];
    assert AbsolutePath(first) && |first| > 0;
    hide AbsolutePath;
    FindFirst(s, ':');
    if |paths| == 1 {
      assert Find(s, ':') == |s|;
      assert s[..|s|] == s;
    } else {
      var rest := Joined(paths[1..]);
      assert forall k :: 0 <= k < |first| ==> s[k] == first[k];
      assert s[|first|] == ':';
      assert Find(s, ':') == |first|;
      assert s[..|first|] == first && s[|first| + 1..] == rest;
      JoinedParts(paths[1..]);
    }
  }

  lemma SearchMeans(s: string)
    ensures SearchParts(s) <==> Searchable(s)
  {
    hide AbsolutePath, Steps;
    if SearchParts(s) {
      var paths := SearchSplits(s);
    }
    if paths :| paths != [] && Steps(paths) && Joined(paths) == s {
      JoinedParts(paths);
    }
  }

  /** Absent nodes say nothing; files have a digest, directories have members. */
  ghost predicate NodeStands(n: Content) {
    && AbsolutePath(n.path)
    && (|| (!n.present && n.size == 0 && n.sha256 == "" && n.members == [])
        || (n.present && n.kind.File? && Hexadecimal(n.sha256) && n.members == [])
        || (n.present && n.kind.Directory? && n.size == 0 && n.sha256 == "" && |n.members| <= 4096))
    && forall m :: m in n.members ==> Free(m, false) && m != "." && m != ".." && '/' !in m
  }

  ghost predicate InputStands(input: Inputs) {
    && AbsolutePath(input.executorPath) && Hexadecimal(input.executorSHA256) && Hexadecimal(input.platformIdentity)
    && AbsolutePath(input.dpkgRoot) && AbsolutePath(input.dpkgAdmin)
    && Free(input.executableSearchPath, false) && Searchable(input.executableSearchPath)
    && input.environment.Some? && AllFree(Entries(input.environment.value), false)
    && input.role <= 4 && 1 <= |input.components| <= 4096 && |input.configuration| <= 4096
    && AllFree(input.optionPrefix, true) && |input.optionPrefix| >= 2
    && input.optionPrefix[0] == "--root=" + input.dpkgRoot && input.optionPrefix[1] == "--admindir=" + input.dpkgAdmin
    && (forall n :: n in input.configuration ==> NodeStands(n))
    && (forall c :: c in input.components ==> AbsolutePath(c.path) && Hexadecimal(c.sha256))
  }

  lemma PathFree(s: string)
    requires AbsolutePath(s)
    ensures TextValid(s, false)
  {
    PathIsText(s);
  }

  lemma NodeMeans(n: Content)
    ensures ContentValid(n) <==> NodeStands(n)
  {
    hide AbsolutePath, TextValid, Free, Digest, Hexadecimal;
    AdmissionMeaning.DigestMeans(n.sha256);
    if AbsolutePath(n.path) { PathFree(n.path); }
    if Digest(n.sha256) { DigestIsText(n.sha256); }
    EmptyFree();
    FreeEmpties(n.sha256);
    forall m
      ensures TextValid(m, false) <==> Free(m, false)
    {
      FreeMeans(m, false);
    }
    if forall m :: m in n.members ==> Free(m, false) && m != "." && m != ".." && '/' !in m {
      forall k | 0 <= k < |n.members|
        ensures MemberValid(n.members[k])
      {
        assert n.members[k] in n.members;
      }
    }
  }

  lemma EmptyFree()
    ensures TextValid("", true)
  {
  }

  lemma FreeEmpties(s: string)
    ensures TextValid(s, false) ==> TextValid(s, true)
  {
  }

  lemma ComponentMeans(c: EffectInputs.Component)
    ensures EffectInputs.ComponentValid(c) <==> AbsolutePath(c.path) && Hexadecimal(c.sha256)
  {
    hide AbsolutePath, TextValid, Digest;
    AdmissionMeaning.DigestMeans(c.sha256);
    if AbsolutePath(c.path) { PathFree(c.path); }
  }

  lemma InputMeans(input: Inputs)
    ensures InputShaped(input) <==> InputStands(input)
  {
    hide AbsolutePath, TextValid, Free, TextsValid, AllFree, Digest, SearchParts, Searchable, ContentValid, NodeStands, EffectInputs.ComponentValid,
         Hexadecimal;
    AdmissionMeaning.DigestMeans(input.executorSHA256);
    AdmissionMeaning.DigestMeans(input.platformIdentity);
    FreeMeans(input.executableSearchPath, false);
    SearchMeans(input.executableSearchPath);
    AllFreeMeans(input.optionPrefix, true);
    if input.environment.Some? { AllFreeMeans(Entries(input.environment.value), false); }
    forall n
      ensures ContentValid(n) <==> NodeStands(n)
    {
      NodeMeans(n);
    }
    forall c
      ensures EffectInputs.ComponentValid(c) <==> AbsolutePath(c.path) && Hexadecimal(c.sha256)
    {
      ComponentMeans(c);
    }
    assert (forall k :: 0 <= k < |input.configuration| ==> ContentValid(input.configuration[k])) <==>
           forall n :: n in input.configuration ==> ContentValid(n);
    assert (forall k :: 0 <= k < |input.components| ==> EffectInputs.ComponentValid(input.components[k])) <==>
           forall c :: c in input.components ==> EffectInputs.ComponentValid(c);
  }

  // ---------------------------------------------------------------------------------------------
  // What is accepted

  ghost predicate Apart(paths: seq<string>) {
    forall j, k :: 0 <= j < k < |paths| ==> paths[j] != paths[k]
  }

  /** Every path listed once, no other node a component, the executor among the components, and members told apart. */
  ghost predicate Accepted(input: Inputs) {
    && InputStands(input)
    && TextCost([input.semanticProfile, input.executorPath, input.executorSHA256, input.platformIdentity, input.dpkgRoot,
                 input.dpkgAdmin, input.executableSearchPath])
       + TextCost(input.optionPrefix) + TextCost(Entries(Variables(input)))
       + NodesCost(input.configuration) + ComponentsCost(input.components) <= 1048576
    && |input.optionPrefix| + |Variables(input)| + |input.configuration| + |input.components| + NodesItems(input.configuration) <= 16384
    && (forall j, k :: 0 <= j < k < |input.configuration| ==> input.configuration[j].path != input.configuration[k].path)
    && (forall j, k :: 0 <= j < k < |input.components| ==> input.components[j].path != input.components[k].path)
    && (forall n, c :: n in input.configuration && c in input.components && n.path == c.path ==> n.role.Configuration?)
    && (exists c :: c in input.components && c.path == input.executorPath && c.sha256 == input.executorSHA256)
    && (forall n :: n in input.configuration && n.role.Configuration? ==> Apart(n.members))
  }

  lemma {:induction false} NodePathsMean(ns: seq<Content>)
    ensures |NodePaths(ns)| == |ns| && forall k :: 0 <= k < |ns| ==> NodePaths(ns)[k] == ns[k].path
  {
    if |ns| > 0 { NodePathsMean(ns[..|ns| - 1]); }
  }

  lemma {:induction false} ComponentPathsMean(cs: seq<EffectInputs.Component>)
    ensures |ComponentPaths(cs)| == |cs| && forall k :: 0 <= k < |cs| ==> ComponentPaths(cs)[k] == cs[k].path
  {
    if |cs| > 0 { ComponentPathsMean(cs[..|cs| - 1]); }
  }

  lemma ApartFromComponents(input: Inputs)
    ensures RolesApart(input) <==>
            forall n, c :: n in input.configuration && c in input.components && n.path == c.path ==> n.role.Configuration?
  {
    forall p
      ensures p in ComponentPaths(input.components) <==> exists c :: c in input.components && c.path == p
    {
      ComponentPathsFound(input.components, p);
    }
    hide ComponentPaths;
    if forall n, c :: n in input.configuration && c in input.components && n.path == c.path ==> n.role.Configuration? {
      forall k | 0 <= k < |input.configuration| && input.configuration[k].role != Configuration
        ensures input.configuration[k].path !in ComponentPaths(input.components)
      {
        assert input.configuration[k] in input.configuration;
      }
    }
  }

  lemma ComponentPathsFound(cs: seq<EffectInputs.Component>, p: string)
    ensures p in ComponentPaths(cs) <==> exists c :: c in cs && c.path == p
  {
    ComponentPathsMean(cs);
    if c :| c in cs && c.path == p {
      var k :| 0 <= k < |cs| && cs[k] == c;
      assert ComponentPaths(cs)[k] == p;
    }
  }

  lemma ExecutorMeans(cs: seq<EffectInputs.Component>, path: string, sha256: string)
    requires Distinct(ComponentPaths(cs))
    ensures ComponentAt(cs, path) == Some(sha256) <==> exists c :: c in cs && c.path == path && c.sha256 == sha256
  {
    hide Distinct;
    if ComponentAt(cs, path).Some? { ComponentAtFound(cs, path); }
    if c :| c in cs && c.path == path && c.sha256 == sha256 { ComponentAtOnly(cs, c); }
  }

  lemma {:induction false} ComponentAtFound(cs: seq<EffectInputs.Component>, path: string)
    requires ComponentAt(cs, path).Some?
    ensures exists c :: c in cs && c.path == path && c.sha256 == ComponentAt(cs, path).value
  {
    var last := cs[|cs| - 1];
    assert last in cs;
    if last.path != path { ComponentAtFound(cs[..|cs| - 1], path); }
  }

  lemma MembersMean(ns: seq<Content>)
    ensures MembersDistinct(Configured(ns)) <==> forall n :: n in ns && n.role.Configuration? ==> Apart(n.members)
  {
    hide Configured, Distinct, Apart;
    forall n
      ensures n in Configured(ns) <==> n in ns && n.role.Configuration?
      ensures Distinct(n.members) <==> Apart(n.members)
    {
      ConfiguredHolds(ns, n);
      ApartMeans(n.members);
    }
    assert MembersDistinct(Configured(ns)) <==> forall n :: n in Configured(ns) ==> Distinct(n.members);
  }

  lemma ApartMeans(xs: seq<string>)
    ensures Distinct(xs) <==> Apart(xs)
  {
  }

  lemma AcceptedMeans(input: Inputs)
    ensures InputAccepted(input) <==> Accepted(input)
  {
    hide InputShaped, InputStands, TextCost, NodesCost, ComponentsCost, NodesItems, Entries, NodePaths, ComponentPaths, RolesApart, MembersDistinct,
         ComponentAt, Configured, Apart;
    InputMeans(input);
    NodePathsMean(input.configuration);
    ComponentPathsMean(input.components);
    ApartFromComponents(input);
    MembersMean(input.configuration);
    if Distinct(ComponentPaths(input.components)) { ExecutorMeans(input.components, input.executorPath, input.executorSHA256); }
  }

  // ---------------------------------------------------------------------------------------------
  // Rows

  /** Path, kind, presence, size, digest and the members in ascending order. */
  ghost function NodeText(n: Content): string {
    Framed([n.path, if n.kind.File? then "file" else "directory", Truth(n.present), Numeral(n.size), n.sha256, Framed(Sort(n.members))])
  }

  lemma NodeRowMeans(ns: seq<Content>, n: Content)
    requires Distinct(NodePaths(ns)) && n in ns
    ensures NodeRow(ns, n.path) == NodeText(n)
  {
    hide Distinct, NetAll, Framed, Sort, Printed, Numeral, NodeAt, Flag, Truth;
    NodeAtOnly(ns, n);
    FrameMeans(Sort(n.members));
    FrameMeans(NodeFields(n));
    NumeralMeans(n.size);
    TruthMeans(n.present);
  }

  /** One row for each configuration node, in ascending order of the paths. */
  lemma ConfigurationMeans(input: Inputs, k: nat)
    requires InputAccepted(input)
    requires var nodes := Configured(input.configuration); k < |Sort(NodePaths(nodes))|
    ensures var nodes := Configured(input.configuration);
            var paths := Sort(NodePaths(nodes));
            && Ascending(paths)
            && exists n :: n in input.configuration && n.role.Configuration? && n.path == paths[k] && NodeRows(nodes, paths)[k] == NodeText(n)
  {
    hide InputShaped, Affordable, RolesApart, MembersDistinct, Distinct, NodeRow, NodeText, Sort;
    var nodes := Configured(input.configuration);
    var paths := Sort(NodePaths(nodes));
    SortCorrect(NodePaths(nodes));
    SortHolds(NodePaths(nodes));
    assert paths[k] in paths;
    NodePathsMean(nodes);
    var j :| 0 <= j < |nodes| && NodePaths(nodes)[j] == paths[k];
    var n := nodes[j];
    ConfiguredHolds(input.configuration, n);
    ConfiguredDistinct(input.configuration);
    NodeRowMeans(nodes, n);
  }

  lemma ComponentRowMeans(cs: seq<EffectInputs.Component>, c: EffectInputs.Component)
    requires Distinct(ComponentPaths(cs)) && c in cs
    ensures ComponentRow(cs, c.path) == [c.path, c.sha256]
  {
    hide Distinct, ComponentAt;
    ComponentAtOnly(cs, c);
  }

  lemma VariableRowMeans(vs: seq<Variable>, name: string)
    ensures VariableRow(vs, name) ==
            match ValueAt(vs, name)
            case Some(value) => [name, "1", value]
            case None => [name, "0", ""]
  {
    hide ValueAt, Flag;
    TruthMeans(true);
    TruthMeans(false);
  }

  /** The thirteen fields of a preimage. */
  ghost function Fields13(input: Inputs): seq<string> {
    var nodes, cs, vs := Configured(input.configuration), input.components, Variables(input);
    ["CYDIA-NATIVE-EFFECT-INPUTS-1", input.semanticProfile, input.executorPath, input.executorSHA256, input.platformIdentity,
     input.dpkgRoot, input.dpkgAdmin, input.executableSearchPath, Numeral(input.role),
     Framed(NodeRows(nodes, Sort(NodePaths(nodes)))), Framed(Flat(ComponentRows(cs, Sort(ComponentPaths(cs))))),
     Framed(Flat(VariableRows(vs, Sort(RequiredNames(vs))))), Framed(input.optionPrefix)]
  }

  lemma FieldsMean(input: Inputs)
    ensures InputFields(input) == Fields13(input)
  {
    hide NetAll, Framed, Printed, Numeral, Configured, NodeRows, ComponentRows, VariableRows, Flat, Sort, NodePaths, ComponentPaths, RequiredNames;
    forall fs
      ensures NetAll(fs) == Framed(fs)
    {
      FrameMeans(fs);
    }
    NumeralMeans(input.role);
  }

  /** Inputs of the one known profile have their thirteen fields as preimage when accepted, within 1 MiB. */
  lemma PreimageMeans(input: Inputs)
    ensures PreimageOf(input) ==
            if input.semanticProfile != "dpkg-1.23.7-effects-1" then UnsupportedProfile
            else if Accepted(input) && |Framed(Fields13(input))| <= 1048576 then Bytes(Framed(Fields13(input)))
            else Refused
  {
    hide NetAll, Framed, InputFields, Fields13, InputAccepted, Accepted;
    AcceptedMeans(input);
    FieldsMean(input);
    FrameMeans(Fields13(input));
  }

  /** A launch adds the environment and the arguments, which begin with the option prefix. */
  lemma LaunchMeans(input: Inputs, argv: seq<string>)
    requires PreimageOf(input).Bytes?
    ensures var fields := ["CYDIA-NATIVE-EFFECT-LAUNCH-1", PreimageOf(input).bytes, Framed(Entries(Variables(input))), Framed(argv),
                           "stdin:0", "status:3"];
            LaunchOf(input, argv) ==
              if |argv| >= |input.optionPrefix| && argv[..|input.optionPrefix|] == input.optionPrefix && |argv| <= 4096
                 && (forall x :: x in argv ==> Free(x, true)) && |argv| + |Variables(input)| <= 16384
                 && TextCost(argv) + TextCost(Entries(Variables(input))) <= 1048576 && |Framed(fields)| <= 1048576
              then Bytes(Framed(fields)) else Refused
  {
    hide NetAll, Framed, InputFields, InputAccepted, TextCost, TextValid, Free, Entries;
    forall fs
      ensures NetAll(fs) == Framed(fs)
    {
      FrameMeans(fs);
    }
    forall x
      ensures TextValid(x, true) <==> Free(x, true)
    {
      FreeMeans(x, true);
    }
    assert (forall k :: 0 <= k < |argv| ==> TextValid(argv[k], true)) <==> forall x :: x in argv ==> TextValid(x, true);
  }

  // ---------------------------------------------------------------------------------------------
  // Answers

  /** Executor, role and options agree. */
  ghost predicate SameCommand(r: Record, input: Inputs) {
    && r.executorPath == input.executorPath && r.executorSHA256 == input.executorSHA256
    && r.role == input.role && r.optionPrefix == input.optionPrefix
  }

  /** Profile and content identity agree as well. */
  ghost predicate SameInput(r: Record, input: Inputs, identity: string) {
    SameCommand(r, input) && r.semanticProfile == "dpkg-1.23.7-effects-1" == input.semanticProfile && r.inputIdentity == identity
  }

  /** The digest of these bytes, when there is a digest and it is one. */
  ghost predicate Digested(bytes: string, hash: Hash, digest: string) {
    hash.Some? && hash.value(bytes) == Some(digest) && Hexadecimal(digest)
  }

  /** No record agrees with the input. */
  ghost predicate Unmatched(rs: seq<Record>, input: Inputs, identity: string) {
    forall r :: r in rs ==> !SameInput(r, input, identity)
  }

  /** The `k`-th record agrees and no other does. */
  ghost predicate Single(rs: seq<Record>, k: int, input: Inputs, identity: string) {
    && 0 <= k < |rs| && SameInput(rs[k], input, identity)
    && forall j :: 0 <= j < |rs| && SameInput(rs[j], input, identity) ==> j == k
  }

  lemma DigestedMeans(bytes: string, hash: Hash, digest: string)
    ensures Hashed(bytes, hash) == Some(digest) <==> Digested(bytes, hash, digest)
  {
    AdmissionMeaning.DigestMeans(digest);
  }

  lemma SameInputMeans(r: Record, input: Inputs, identity: string)
    ensures Fits(r, input, identity) <==> SameInput(r, input, identity)
    ensures Foreign(r, input) <==> SameCommand(r, input) && r.semanticProfile != "dpkg-1.23.7-effects-1"
  {
  }

  /** Without an agreeing record: unsupported when one for the command has another profile, missing when there is none at all. */
  lemma UnmatchedMeans(rs: seq<Record>, input: Inputs, hash: Hash, identity: string, m: Match)
    requires Answers(rs, input, hash, m) && EncodedRecords(rs).Some?
    requires PreimageOf(input).Bytes? && Digested(PreimageOf(input).bytes, hash, identity)
    requires Unmatched(rs, input, identity)
    ensures m == if exists r :: r in rs && SameCommand(r, input) && r.semanticProfile != "dpkg-1.23.7-effects-1" then Unsupported
                 else if rs == [] then Missing else InputMismatch
  {
    hide EncodedRecords, PreimageOf, Digested, Fits, Foreign, SameInput, SameCommand, Hashed;
    DigestedMeans(PreimageOf(input).bytes, hash, identity);
    forall r
      ensures Fits(r, input, identity) <==> SameInput(r, input, identity)
      ensures Foreign(r, input) <==> SameCommand(r, input) && r.semanticProfile != "dpkg-1.23.7-effects-1"
    {
      SameInputMeans(r, input, identity);
    }
    assert NoFit(rs, input, identity);
    assert AnyForeign(rs, input) <==> exists r :: r in rs && Foreign(r, input) by {
      if r :| r in rs && Foreign(r, input) {
        var k :| 0 <= k < |rs| && rs[k] == r;
        assert Foreign(rs[k], input);
      }
    }
  }

  /** With one agreeing record the answer is its settings, unless it leaves options unmodelled or has no digest. */
  lemma SingleMeans(rs: seq<Record>, k: int, input: Inputs, hash: Hash, identity: string, m: Match)
    requires Answers(rs, input, hash, m) && EncodedRecords(rs).Some?
    requires PreimageOf(input).Bytes? && Digested(PreimageOf(input).bytes, hash, identity)
    requires Single(rs, k, input, identity)
    ensures rs[k].settings.unmodeledOptions != [] ==> m == Unsupported
    ensures rs[k].settings.unmodeledOptions == [] ==>
              forall digest :: EncodedRecord(rs[k]).Some? && Digested(EncodedRecord(rs[k]).value, hash, digest) ==>
                m == Matched(identity, digest, rs[k].settings)
    ensures m.Matched? ==>
              && rs[k].settings.unmodeledOptions == [] && EncodedRecord(rs[k]).Some?
              && Digested(EncodedRecord(rs[k]).value, hash, m.recordIdentity) && m.inputIdentity == identity && m.settings == rs[k].settings
  {
    hide EncodedRecords, EncodedRecord, PreimageOf, Digested, Fits, SameInput, Hashed, AnyForeign;
    DigestedMeans(PreimageOf(input).bytes, hash, identity);
    forall r
      ensures Fits(r, input, identity) <==> SameInput(r, input, identity)
    {
      SameInputMeans(r, input, identity);
    }
    forall bytes, digest
      ensures Hashed(bytes, hash) == Some(digest) <==> Digested(bytes, hash, digest)
    {
      DigestedMeans(bytes, hash, digest);
    }
    assert OnlyFit(rs, k, input, identity);
    FitIsOne(rs, k, input, identity);
    var j :| OnlyFit(rs, j, input, identity) && AnswersOne(rs[j], identity, hash, m);
    OneFit(rs, j, k, input, identity);
  }

  /** Two agreeing records leave the answer open. */
  lemma AmbiguousMeans(rs: seq<Record>, j: int, k: int, input: Inputs, hash: Hash, identity: string, m: Match)
    requires Answers(rs, input, hash, m) && EncodedRecords(rs).Some?
    requires PreimageOf(input).Bytes? && Digested(PreimageOf(input).bytes, hash, identity)
    requires 0 <= j < k < |rs| && SameInput(rs[j], input, identity) && SameInput(rs[k], input, identity)
    ensures m == Ambiguous
  {
    hide EncodedRecords, PreimageOf, Digested, Fits, SameInput, Hashed, AnyForeign;
    DigestedMeans(PreimageOf(input).bytes, hash, identity);
    SameInputMeans(rs[j], input, identity);
    SameInputMeans(rs[k], input, identity);
  }

  /** Records that cannot be encoded, inputs without a preimage and a missing digest decide by themselves. */
  lemma RefusalsMean(rs: seq<Record>, input: Inputs, hash: Hash, m: Match)
    requires Answers(rs, input, hash, m)
    ensures EncodedRecords(rs).None? ==> m == Invalid
    ensures EncodedRecords(rs).Some? && input.semanticProfile != "dpkg-1.23.7-effects-1" ==> m == Unsupported
    ensures EncodedRecords(rs).Some? && input.semanticProfile == "dpkg-1.23.7-effects-1"
            && (PreimageOf(input).Refused? || (PreimageOf(input).Bytes? && forall d :: !Digested(PreimageOf(input).bytes, hash, d))) ==>
              m == Invalid
  {
    hide EncodedRecords, Digested, Hashed, InputAccepted, InputFields, NetAll;
    if PreimageOf(input).Bytes? && Hashed(PreimageOf(input).bytes, hash).Some? {
      DigestedMeans(PreimageOf(input).bytes, hash, Hashed(PreimageOf(input).bytes, hash).value);
    }
  }
}
